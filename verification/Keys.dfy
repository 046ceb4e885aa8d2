/** The printed keys: the engine's visit key and the store's identity key. */
module Keys {
  import opened Tuples

  datatype Node = Node(objType: string, objId: string, perm: string)

  // a, then the separator, then b (see JoinText). Written by recursion, so that a proof
  // meets the text of a key only where it asks for it.
  function Join(a: string, c: char, b: string): string {
    if a == [] then [c] + b else [a[0]] + Join(a[1..], c, b)
  }

  lemma {:induction false} JoinText(a: string, c: char, b: string)
    ensures Join(a, c, b) == a + [c] + b
  {
    if a != [] {
      JoinText(a[1..], c, b);
      assert a == [a[0]] + a[1..];
    }
  }

  function VisitKey(objType: string, objId: string, perm: string, subType: string, subId: string): string {
    Join(objType, ':', Join(objId, '#', Join(perm, '@', Join(subType, ':', subId))))
  }

  /** The exact text of the key, which is also the form of a resolution path entry. */
  lemma {:induction false} VisitKeyText(objType: string, objId: string, perm: string, subType: string, subId: string)
    ensures VisitKey(objType, objId, perm, subType, subId) == objType + (":" + (objId + ("#" + (perm + ("@" + (subType + (":" + subId)))))))
  {
    JoinParts(subType, ':', subId);
    JoinParts(perm, '@', subType + (":" + subId));
    JoinParts(objId, '#', perm + ("@" + (subType + (":" + subId))));
    JoinParts(objType, ':', objId + ("#" + (perm + ("@" + (subType + (":" + subId))))));
  }

  lemma {:induction false} JoinParts(a: string, c: char, b: string)
    ensures Join(a, c, b) == a + ([c] + b)
  {
    JoinText(a, c, b);
  }

  function NodeKey(n: Node, subType: string, subId: string): string {
    VisitKey(n.objType, n.objId, n.perm, subType, subId)
  }

  // The names the visit key can tell apart; object ids are arbitrary.
  predicate SafeNode(n: Node) {
    ':' !in n.objType && '#' !in n.perm
  }

  ghost function FirstIndex(s: string, c: char): nat {
    if s == [] || s[0] == c then 0 else 1 + FirstIndex(s[1..], c)
  }

  ghost function LastIndex(s: string, c: char): int {
    if s == [] then -1 else if s[|s| - 1] == c then |s| - 1 else LastIndex(s[..|s| - 1], c)
  }

  lemma {:induction false} FirstIndexSkips(a: string, b: string, c: char)
    requires c !in a
    ensures FirstIndex(a + [c] + b, c) == |a|
  {
    if a != [] {
      assert (a + [c] + b)[1..] == a[1..] + [c] + b;
      FirstIndexSkips(a[1..], b, c);
    }
  }

  lemma {:induction false} LastIndexSkips(a: string, b: string, c: char)
    requires c !in b
    ensures LastIndex(a + [c] + b, c) == |a|
  {
    if b == [] {
      LastIndexHere(a, c);
      assert a + [c] + b == a + [c];
    } else {
      var init, last := b[..|b| - 1], b[|b| - 1];
      LastIndexSkips(a, init, c);
      LastIndexStep(a + [c] + init, last, c);
      Regroup(a + [c], b);
    }
  }

  lemma {:induction false} Regroup(a: string, b: string)
    requires b != []
    ensures a + b == (a + b[..|b| - 1]) + [b[|b| - 1]]
  {
  }

  lemma {:induction false} LastIndexHere(a: string, c: char)
    ensures LastIndex(a + [c], c) == |a|
  {
  }

  lemma {:induction false} LastIndexStep(s: string, d: char, c: char)
    requires d != c
    ensures LastIndex(s + [d], c) == LastIndex(s, c)
  {
    assert (s + [d])[..|s|] == s;
  }

  lemma {:induction false} FirstSplit(a: string, b: string, c: char, x: string, y: string)
    requires c !in a && c !in x
    requires a + [c] + b == x + [c] + y
    ensures a == x && b == y
  {
    FirstIndexSkips(a, b, c);
    FirstIndexSkips(x, y, c);
    SplitAt(a, b, c, x, y);
  }

  lemma {:induction false} LastSplit(a: string, b: string, c: char, x: string, y: string)
    requires c !in b && c !in y
    requires a + [c] + b == x + [c] + y
    ensures a == x && b == y
  {
    LastIndexSkips(a, b, c);
    LastIndexSkips(x, y, c);
    SplitAt(a, b, c, x, y);
  }

  lemma {:induction false} SplitAt(a: string, b: string, c: char, x: string, y: string)
    requires |a| == |x|
    requires a + [c] + b == x + [c] + y
    ensures a == x && b == y
  {
    assert a == (a + [c] + b)[..|a|] && x == (x + [c] + y)[..|x|];
    assert b == (a + [c] + b)[|a| + 1..] && y == (x + [c] + y)[|x| + 1..];
  }

  lemma {:induction false} CutSuffix(a: string, x: string, tail: string)
    requires a + tail == x + tail
    ensures a == x
  {
    assert |a| == |x|;
    assert a == (a + tail)[..|a|] && x == (x + tail)[..|x|];
  }

  /** Within one check (one subject) the visit key is injective on safe nodes. */
  lemma {:induction false} VisitKeyInjective(m: Node, n: Node, subType: string, subId: string)
    requires SafeNode(m) && SafeNode(n)
    requires NodeKey(m, subType, subId) == NodeKey(n, subType, subId)
    ensures m == n
  {
    var tail := Join(subType, ':', subId);
    var a, b := Join(m.perm, '@', tail), Join(n.perm, '@', tail);
    JoinSplit(m.objType, Join(m.objId, '#', a), ':', n.objType, Join(n.objId, '#', b));
    PermSplit(m.objId, m.perm, n.objId, n.perm, tail);
  }

  lemma {:induction false} JoinSplit(a: string, b: string, c: char, x: string, y: string)
    requires c !in a && c !in x && Join(a, c, b) == Join(x, c, y)
    ensures a == x && b == y
  {
    JoinText(a, c, b);
    JoinText(x, c, y);
    FirstSplit(a, b, c, x, y);
  }

  lemma {:induction false} PermSplit(a: string, p: string, x: string, q: string, tail: string)
    requires '#' !in p && '#' !in q
    requires Join(a, '#', Join(p, '@', tail)) == Join(x, '#', Join(q, '@', tail))
    ensures a == x && p == q
  {
    PermText(a, p, tail);
    PermText(x, q, tail);
    CutSuffix(a + ['#'] + p, x + ['#'] + q, ['@'] + tail);
    LastSplit(a, p, '#', x, q);
  }

  lemma {:induction false} PermText(a: string, p: string, tail: string)
    ensures Join(a, '#', Join(p, '@', tail)) == (a + ['#'] + p) + (['@'] + tail)
  {
    JoinText(p, '@', tail);
    JoinText(a, '#', p + ['@'] + tail);
  }

  function IdentityKey(id: Identity): string {
    Join(id.objType, ':', Join(id.objId, '#', Join(id.relation, '@', Join(id.subType, ':', Join(id.subId, '#', id.subRel)))))
  }

  /** The exact text of the key. */
  lemma {:induction false} IdentityKeyText(id: Identity)
    ensures IdentityKey(id) ==
            id.objType + (":" + (id.objId + ("#" + (id.relation + ("@" + (id.subType + (":" + (id.subId + ("#" + id.subRel)))))))))
  {
    var k1 := id.subId + ("#" + id.subRel);
    var k2 := id.subType + (":" + k1);
    var k3 := id.relation + ("@" + k2);
    JoinParts(id.subId, '#', id.subRel);
    JoinParts(id.subType, ':', k1);
    JoinParts(id.relation, '@', k2);
    JoinParts(id.objId, '#', k3);
    JoinParts(id.objType, ':', id.objId + ("#" + k3));
  }

  predicate Plain(s: string) {
    ':' !in s && '#' !in s && '@' !in s
  }

  predicate DelimiterFree(id: Identity) {
    && Plain(id.objType) && Plain(id.objId) && Plain(id.relation)
    && Plain(id.subType) && Plain(id.subId) && Plain(id.subRel)
  }

  /** A delimiter-free identity shares its printed key with no other identity, delimiter-free or not. */
  lemma {:induction false} IdentityKeyInjective(a: Identity, b: Identity)
    requires DelimiterFree(a)
    requires IdentityKey(a) == IdentityKey(b)
    ensures a == b
  {
    SameKeyDelimiterFree(a, b, ':');
    SameKeyDelimiterFree(a, b, '#');
    SameKeyDelimiterFree(a, b, '@');
    var a1, b1 := Join(a.subId, '#', a.subRel), Join(b.subId, '#', b.subRel);
    var a2, b2 := Join(a.subType, ':', a1), Join(b.subType, ':', b1);
    var a3, b3 := Join(a.relation, '@', a2), Join(b.relation, '@', b2);
    JoinSplit(a.objType, Join(a.objId, '#', a3), ':', b.objType, Join(b.objId, '#', b3));
    JoinSplit(a.objId, a3, '#', b.objId, b3);
    JoinSplit(a.relation, a2, '@', b.relation, b2);
    JoinSplit(a.subType, a1, ':', b.subType, b1);
    JoinSplit(a.subId, a.subRel, '#', b.subId, b.subRel);
  }

  /** With a delimiter in a field, distinct identities can share a key. */
  lemma {:induction false} IdentityKeysCollide(t: string, u: string, v: string, rest: Identity)
    ensures var a, b := rest.(objType := t, objId := u + ":" + v), rest.(objType := t + ":" + u, objId := v);
            a != b && IdentityKey(a) == IdentityKey(b)
  {
    var tail := Join(rest.relation, '@', Join(rest.subType, ':', Join(rest.subId, '#', rest.subRel)));
    assert |t + ":" + u| > |t|;
    JoinAppend(u + ":", v, '#', tail);
    MoveColon(t, u, Join(v, '#', tail));
  }

  lemma {:induction false} JoinAppend(a: string, b: string, c: char, rest: string)
    ensures Join(a + b, c, rest) == a + Join(b, c, rest)
  {
    JoinText(a + b, c, rest);
    JoinText(b, c, rest);
  }

  lemma {:induction false} MoveColon(t: string, u: string, rest: string)
    ensures Join(t, ':', u + ":" + rest) == Join(t + ":" + u, ':', rest)
  {
    JoinText(t, ':', u + ":" + rest);
    JoinText(t + ":" + u, ':', rest);
  }

  ghost function FieldCount(id: Identity, c: char): nat {
    multiset(id.objType)[c] + multiset(id.objId)[c] + multiset(id.relation)[c]
    + multiset(id.subType)[c] + multiset(id.subId)[c] + multiset(id.subRel)[c]
  }

  lemma {:induction false} SameKeyDelimiterFree(a: Identity, b: Identity, c: char)
    requires c == ':' || c == '#' || c == '@'
    requires DelimiterFree(a) && IdentityKey(a) == IdentityKey(b)
    ensures c !in b.objType && c !in b.objId && c !in b.relation && c !in b.subType && c !in b.subId && c !in b.subRel
  {
    KeyCount(a, c);
    KeyCount(b, c);
    assert FieldCount(a, c) == 0;
    assert FieldCount(b, c) == 0;
  }

  lemma {:induction false} JoinCount(a: string, d: char, b: string, c: char)
    ensures multiset(Join(a, d, b))[c] == multiset(a)[c] + (if c == d then 1 else 0) + multiset(b)[c]
  {
    JoinText(a, d, b);
    assert multiset(a + [d] + b) == multiset(a) + multiset{d} + multiset(b);
  }

  // How often each character occurs in a printed key: once per field occurrence plus the separators.
  lemma {:induction false} KeyCount(id: Identity, c: char)
    ensures multiset(IdentityKey(id))[c] ==
            FieldCount(id, c) + (if c == ':' || c == '#' then 2 else if c == '@' then 1 else 0)
  {
    var k1 := Join(id.subId, '#', id.subRel);
    var k2 := Join(id.subType, ':', k1);
    var k3 := Join(id.relation, '@', k2);
    var k4 := Join(id.objId, '#', k3);
    JoinCount(id.subId, '#', id.subRel, c);
    JoinCount(id.subType, ':', k1, c);
    JoinCount(id.relation, '@', k2, c);
    JoinCount(id.objId, '#', k3, c);
    JoinCount(id.objType, ':', k4, c);
  }
}
