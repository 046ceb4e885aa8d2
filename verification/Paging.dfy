/** Reading the changelog page by page with a cursor, while entries are being appended. */
module Paging {
  import opened StoreSpec
  import opened Runs

  // One read: the log at that moment and the limit asked for.
  datatype Read = Read(log: seq<Entry>, limit: int)

  // Between reads entries are only appended.
  ghost predicate Growing(polls: seq<Read>) {
    && (forall i :: 0 <= i < |polls| ==> Numbered(polls[i].log, |polls[i].log|) && polls[i].limit > 0)
    && (forall i, j :: 0 <= i < j < |polls| ==> polls[i].log <= polls[j].log)
  }

  // The sequence of the last entry received, 0 before the first.
  function Cursor(received: seq<Entry>): nat {
    if received == [] then 0 else received[|received| - 1].sequence
  }

  // What a poller has received that always asks for the entries after its cursor.
  function Received(polls: seq<Read>): seq<Entry> {
    if polls == [] then []
    else
      var before, last := Received(polls[..|polls| - 1]), polls[|polls| - 1];
      before + Page(last.log, Cursor(before), last.limit)
  }

  function Min(a: nat, b: nat): nat {
    if a < b then a else b
  }

  /**
   A page holds the entries after the cursor, in order from the first of them; all of them without a positive
   limit, and otherwise as many as the limit admits.
   */
  lemma {:induction false} PageExact(log: seq<Entry>, since: nat, limit: int)
    requires Numbered(log, |log|)
    ensures var page := Page(log, since, limit);
            var left := if since < |log| then |log| - since else 0;
            && |page| == (if limit > 0 && limit < left then limit else left)
            && (forall i :: 0 <= i < |page| ==> since + i < |log| && page[i] == log[since + i] && page[i].sequence == since + 1 + i)
            && (forall e :: e in log && e.sequence > since && (limit <= 0 || e.sequence <= since + limit) ==> e in page)
  {
    var page := Page(log, since, limit);
    forall e | e in log && e.sequence > since && (limit <= 0 || e.sequence <= since + limit)
      ensures e in page
    {
      var i :| 0 <= i < |log| && log[i] == e;
      assert page[i - since] == e;
    }
  }

  // A poller that holds the first c entries of a longer log gets the next ones, at least one if there are any.
  lemma {:induction false} NextPage(log: seq<Entry>, c: nat, limit: int)
    requires Numbered(log, |log|) && c <= |log| && limit > 0
    ensures var next := log[..c] + Page(log, c, limit);
            && next <= log && Cursor(next) == |next| && |next| >= c
            && (c < |log| ==> |next| > c)
            && (Page(log, c, limit) == [] ==> c == |log|)
  {
    var page := Page(log, c, limit);
    assert log[..c] + page == log[..c + |page|];
  }

  lemma {:induction false} GrowingPrefix(polls: seq<Read>, last: Read)
    requires Growing(polls + [last])
    ensures Growing(polls) && Numbered(last.log, |last.log|) && last.limit > 0
    ensures forall i :: 0 <= i < |polls| ==> polls[i].log <= last.log
  {
    var all := polls + [last];
    assert all[|polls|] == last;
    assert forall i :: 0 <= i < |polls| ==> all[i] == polls[i];
  }

  /**
   Cursor paging is exact: after any number of reads the poller holds a prefix of the log, each entry
   once and in order, and its cursor is the length of that prefix. Every read that finds more entries
   delivers at least one, so k reads deliver at least the first k.
   */
  lemma {:induction false} PagingIsExact(polls: seq<Read>)
    requires Growing(polls)
    ensures polls == [] ==> Received(polls) == []
    ensures polls != [] ==> Received(polls) <= polls[|polls| - 1].log
    ensures polls != [] ==> |Received(polls)| >= Min(|polls|, |polls[0].log|)
    ensures Cursor(Received(polls)) == |Received(polls)|
  {
    if polls != [] {
      var init, last := polls[..|polls| - 1], polls[|polls| - 1];
      assert polls == init + [last];
      GrowingPrefix(init, last);
      PagingIsExact(init);
      PagingStep(init, last);
    }
  }

  lemma {:induction false} PagingStep(init: seq<Read>, last: Read)
    requires Growing(init + [last])
    requires Cursor(Received(init)) == |Received(init)|
    requires init == [] ==> Received(init) == []
    requires init != [] ==> Received(init) <= init[|init| - 1].log && |Received(init)| >= Min(|init|, |init[0].log|)
    ensures var next := Received(init + [last]);
            && next <= last.log && Cursor(next) == |next|
            && |next| >= Min(|init| + 1, |(init + [last])[0].log|)
  {
    var before := Received(init);
    GrowingPrefix(init, last);
    assert (init + [last])[..|init|] == init;
    assert before <= last.log;
    assert before == last.log[..|before|];
    NextPage(last.log, |before|, last.limit);
    if init != [] {
      assert init[0].log <= last.log;
    }
  }

  /** An empty page means that the whole log has been delivered. */
  lemma {:induction false} EmptyPageMeansCaughtUp(polls: seq<Read>, last: Read)
    requires Growing(polls + [last])
    requires Page(last.log, Cursor(Received(polls)), last.limit) == []
    ensures Received(polls) == last.log
  {
    GrowingPrefix(polls, last);
    PagingIsExact(polls);
    var before := Received(polls);
    assert before <= last.log by {
      if polls != [] {
        assert polls[|polls| - 1].log <= last.log;
      }
    }
    NextPage(last.log, |before|, last.limit);
  }

  // The log of tenant tid at each of the given points of a run, with the limits asked for.
  ghost function PollsOf(run: seq<Step>, tid: string, at: seq<nat>, limits: seq<int>): seq<Read>
    requires |limits| == |at| && forall i :: 0 <= i < |at| ==> at[i] <= |run|
  {
    seq(|at|, i requires 0 <= i < |at| => Read(Get(After(run[..at[i]]), tid).bucket.changelog, limits[i]))
  }

  /**
   Over any run of the store without a purge of the tenant after the first read, a poller with positive
   limits receives a prefix of the tenant's final log: every entry once, in order, none left out.
   */
  lemma {:induction false} PagingOverRuns(run: seq<Step>, tid: string, at: seq<nat>, limits: seq<int>)
    requires |limits| == |at| > 0 && forall i :: 0 <= i < |at| ==> at[i] <= |run| && limits[i] > 0
    requires forall i, j :: 0 <= i < j < |at| ==> at[i] <= at[j]
    requires forall k :: at[0] <= k < |run| && run[k].tid == tid ==> !run[k].PurgeTenantData?
    ensures var received := Received(PollsOf(run, tid, at, limits));
            && received <= Get(After(run), tid).bucket.changelog
            && (forall i :: 0 <= i < |received| ==> received[i].sequence == i + 1)
            && |received| >= Min(|at|, |Get(After(run[..at[0]]), tid).bucket.changelog|)
  {
    var polls := PollsOf(run, tid, at, limits);
    forall i | 0 <= i < |polls|
      ensures Numbered(polls[i].log, |polls[i].log|)
    {
      ReachableValid(run[..at[i]]);
    }
    forall i, j | 0 <= i < j < |polls|
      ensures polls[i].log <= polls[j].log
    {
      assert at[0] <= at[i];
      LogGrowsBetween(run, tid, at[i], at[j]);
    }
    PagingIsExact(polls);
    var last := |at| - 1;
    assert at[0] <= at[last];
    assert run[..|run|] == run;
    LogGrowsBetween(run, tid, at[last], |run|);
    ReachableValid(run);
  }
}
