/** The Go string functions the schema compiler and the API use. */
module Text {
  // unicode.IsSpace.
  predicate IsSpace(c: char) {
    || c == '\t' || c == '\n' || c == '\U{0B}' || c == '\U{0C}' || c == '\r' || c == ' '
    || c == '\U{85}' || c == '\U{A0}' || c == '\U{1680}' || '\U{2000}' <= c <= '\U{200A}'
    || c == '\U{2028}' || c == '\U{2029}' || c == '\U{202F}' || c == '\U{205F}' || c == '\U{3000}'
  }

  function TrimLeft(s: string): string {
    if s != "" && IsSpace(s[0]) then TrimLeft(s[1..]) else s
  }

  function TrimRight(s: string): string {
    if s != "" && IsSpace(s[|s| - 1]) then TrimRight(s[..|s| - 1]) else s
  }

  function TrimSpace(s: string): string {
    TrimRight(TrimLeft(s))
  }

  predicate Trimmed(s: string) {
    s != "" ==> !IsSpace(s[0]) && !IsSpace(s[|s| - 1])
  }

  predicate OccursAt(s: string, sub: string, i: int) {
    0 <= i && i + |sub| <= |s| && s[i..i + |sub|] == sub
  }

  // strings.Index: where `sub` first occurs in s, or -1.
  function Index(s: string, sub: string): (i: int)
    ensures i == -1 || OccursAt(s, sub, i)
    ensures forall j :: OccursAt(s, sub, j) ==> 0 <= i <= j
  {
    if OccursAt(s, sub, 0) then 0
    else if s == "" then -1
    else
      var i := Index(s[1..], sub);
      assert forall j :: 1 <= j ==> OccursAt(s, sub, j) == OccursAt(s[1..], sub, j - 1);
      if i < 0 then -1 else i + 1
  }

  lemma {:induction false} TrimLeftDrops(s: string) returns (lo: nat)
    ensures lo <= |s| && TrimLeft(s) == s[lo..] && (lo < |s| ==> !IsSpace(s[lo]))
    ensures forall i :: 0 <= i < lo ==> IsSpace(s[i])
  {
    lo := 0;
    if s != "" && IsSpace(s[0]) {
      lo := TrimLeftDrops(s[1..]);
      lo := lo + 1;
    }
  }

  lemma {:induction false} TrimRightDrops(s: string) returns (hi: nat)
    ensures hi <= |s| && TrimRight(s) == s[..hi] && (hi > 0 ==> !IsSpace(s[hi - 1]))
    ensures forall i :: hi <= i < |s| ==> IsSpace(s[i])
  {
    hi := |s|;
    if s != "" && IsSpace(s[|s| - 1]) {
      hi := TrimRightDrops(s[..|s| - 1]);
    }
  }

  /** Trimming keeps a slice; what it keeps is trimmed and what it cuts off is white space. */
  lemma {:induction false} TrimSlice(s: string) returns (lo: nat, hi: nat)
    ensures lo <= hi <= |s| && TrimSpace(s) == s[lo..hi] && Trimmed(TrimSpace(s))
    ensures forall i :: 0 <= i < lo || hi <= i < |s| ==> IsSpace(s[i])
  {
    lo := TrimLeftDrops(s);
    hi := TrimRightDrops(s[lo..]);
    hi := lo + hi;
    assert s[lo..][..hi - lo] == s[lo..hi];
  }

  lemma {:induction false} SliceOfSlice(s: string, lo: nat, hi: nat, a: int, b: int)
    requires lo <= hi <= |s| && 0 <= a <= b <= hi - lo
    ensures s[lo..hi][a..b] == s[lo + a..lo + b]
  {
    forall k | 0 <= k < b - a
      ensures s[lo..hi][a..b][k] == s[lo + a..lo + b][k]
    {
    }
  }

  lemma {:induction false} AbsentInSlice(s: string, sub: string, lo: nat, hi: nat)
    requires lo <= hi <= |s| && Index(s, sub) < 0
    ensures Index(s[lo..hi], sub) < 0
  {
    var i := Index(s[lo..hi], sub);
    if i >= 0 {
      SliceOfSlice(s, lo, hi, i, i + |sub|);
      assert OccursAt(s, sub, lo + i);
    }
  }

  lemma {:induction false} AbsentAfter(s: string, sub: string, lo: nat)
    requires lo <= |s| && Index(s, sub) < 0
    ensures Index(s[lo..], sub) < 0
  {
    AbsentInSlice(s, sub, lo, |s|);
    assert s[lo..|s|] == s[lo..];
  }

  predicate White(s: string) {
    forall i :: 0 <= i < |s| ==> IsSpace(s[i])
  }

  lemma {:induction false} TrimLeftWhite(w: string, s: string)
    requires White(w)
    ensures TrimLeft(w + s) == TrimLeft(s)
  {
    if w == "" {
      assert w + s == s;
    } else {
      assert (w + s)[1..] == w[1..] + s;
      TrimLeftWhite(w[1..], s);
    }
  }

  lemma {:induction false} TrimRightWhite(s: string, w: string)
    requires White(w)
    ensures TrimRight(s + w) == TrimRight(s)
  {
    if w == "" {
      assert s + w == s;
    } else {
      var init := w[..|w| - 1];
      assert (s + w)[..|s + w| - 1] == s + init;
      TrimRightWhite(s, init);
    }
  }

  /** White space around a trimmed text is trimmed away. */
  lemma {:induction false} TrimPadded(w1: string, s: string, w2: string)
    requires White(w1) && White(w2) && Trimmed(s)
    ensures TrimSpace(w1 + s + w2) == s
  {
    assert w1 + s + w2 == w1 + (s + w2);
    TrimLeftWhite(w1, s + w2);
    if s == "" {
      TrimLeftWhite(w2, "");
      assert s + w2 == w2 + "";
    } else {
      TrimRightWhite(s, w2);
    }
  }

  lemma {:induction false} TrimsToNothing(s: string)
    ensures TrimSpace(s) == "" <==> White(s)
  {
    var lo, hi := TrimSlice(s);
    if White(s) {
      TrimPadded(s, "", "");
      assert s + "" + "" == s;
    }
  }
}
