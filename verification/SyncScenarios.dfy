/**
 The two passes of the sync scenarios and the logs that concurrent writers produce
 (suite/src/__tests__/correctness/fast/sync-events.test.ts).
 */
module SyncScenarios {
  import opened Wrappers
  import opened ModelEvents
  import opened Sets
  import opened FeedReader
  import opened ReadRuns

  // ----- first pass -----

  ghost function WaitRun(nodes: seq<Node>, clock: Clock, k: nat, cids: seq<string>, tokens: seq<nat>, i: nat)
    : (Result<()>, nat)
    requires Ticks(clock) && |nodes| == |tokens|
    decreases |nodes| - i
  {
    if i >= |nodes| then (Ok(()), k)
    else
      match ReadFrom(nodes[i], clock, READ_EVENTS_TIMEOUT_MS, k, tokens[i], cids)
      case Threw(next) => (Err("unexpected status"), next)
      case Stopped(found, _, next) =>
        if |found| < |cids| then (Err("waitForEventCount: timeout"), next)
        else WaitRun(nodes, clock, next, cids, tokens, i + 1)
  }

  method WaitForEventCount(nodes: seq<Node>, clock: Clock, firstPoll: nat, eventCids: seq<string>,
                           resumeTokens: seq<nat>)
    returns (r: Result<()>, k: nat)
    requires Ticks(clock)
    ensures |nodes| != |resumeTokens| ==> r.Err? && k == firstPoll
    ensures |nodes| == |resumeTokens| ==> (r, k) == WaitRun(nodes, clock, firstPoll, eventCids, resumeTokens, 0)
  {
    k := firstPoll;
    if |nodes| != |resumeTokens| {
      return Err("The lengths of urls and resumeTokens arrays must be equal"), k;
    }
    var allGood := true;
    for i := 0 to |nodes|
      invariant allGood
      invariant WaitRun(nodes, clock, firstPoll, eventCids, resumeTokens, 0)
             == WaitRun(nodes, clock, k, eventCids, resumeTokens, i)
    {
      ghost var run := ReadFrom(nodes[i], clock, READ_EVENTS_TIMEOUT_MS, k, resumeTokens[i], eventCids);
      var events, next := ReadEvents(nodes[i], clock, k, resumeTokens[i], eventCids, READ_EVENTS_TIMEOUT_MS);
      k := next;
      if events.Err? {
        return Err(events.error), k;
      }
      SortKeepsLength(run.found);
      if |events.value| < |eventCids| {
        allGood := false;
        break;
      }
    }
    if allGood {
      return Ok(()), k;
    }
    return Err("waitForEventCount: timeout"), k;
  }

  lemma SortKeepsLength(s: seq<Event>)
    ensures |SortModelEvents(s)| == |s|
  {
    SortIsSortedPermutation(s);
    assert |multiset(s)| == |s| && |multiset(SortModelEvents(s))| == |SortModelEvents(s)|;
  }

  // ----- second pass -----

  /** Everything assumed of a node whose resume token was taken before poll k. */
  ghost predicate Reliable(node: Node, log: nat -> seq<string>, token: nat, k: nat, written: seq<Event>) {
    && ServesLog(node, log)
    && Faithful(node, written)
    && token <= |log(k)|
    && DeliversOnce(log, token, Ids(written))
  }

  ghost predicate HoldsAll(log: nat -> seq<string>, token: nat, k: nat, written: seq<Event>) {
    token <= |log(k)| && forall id | id in Ids(written) :: id in log(k)[token..]
  }

  lemma HoldsAllLater(log: nat -> seq<string>, token: nat, j: nat, k: nat, written: seq<Event>)
    requires AppendOnly(log) && j <= k && HoldsAll(log, token, j, written)
    ensures HoldsAll(log, token, k, written)
  {
    assert log(j) <= log(k);
    forall id | id in Ids(written) ensures id in log(k)[token..] {
      var i :| 0 <= i < |log(j)[token..]| && log(j)[token..][i] == id;
      assert log(k)[token..][i] == id;
    }
  }

  lemma CompleteReadMeansHoldsAll(node: Node, log: nat -> seq<string>, clock: Clock, timeoutMs: int, k: nat,
                                  token: nat, written: seq<Event>)
    requires Ticks(clock) && Distinct(Ids(written)) && Reliable(node, log, token, k, written)
    ensures var run := ReadFrom(node, clock, timeoutMs, k, token, Ids(written));
            run.Stopped? && |run.found| >= |written| ==> k <= run.tick && HoldsAll(log, token, run.tick, written)
  {
    var cids := Ids(written);
    CountIsCompleteness(node, log, clock, timeoutMs, k, token, cids, written);
    var run := ReadFrom(node, clock, timeoutMs, k, token, cids);
    if run.Stopped? && |run.found| >= |written| {
      PartInWhole(log(run.tick), token, run.token, cids);
    }
  }

  lemma PartInWhole(s: seq<string>, from: nat, to: nat, ids: seq<string>)
    requires from <= to <= |s| && forall id | id in ids :: id in s[from..to]
    ensures forall id | id in ids :: id in s[from..]
  {
    assert s[from..] == s[from..to] + s[to..];
  }

  lemma {:induction false} WaitAdvances(nodes: seq<Node>, clock: Clock, k: nat, cids: seq<string>, tokens: seq<nat>,
                                        i: nat)
    requires Ticks(clock) && |nodes| == |tokens|
    ensures k <= WaitRun(nodes, clock, k, cids, tokens, i).1
    decreases |nodes| - i
  {
    if i < |nodes| {
      TickAdvances(nodes[i], clock, clock.entry(k), READ_EVENTS_TIMEOUT_MS, k, tokens[i], cids, []);
      var run := ReadFrom(nodes[i], clock, READ_EVENTS_TIMEOUT_MS, k, tokens[i], cids);
      WaitAdvances(nodes, clock, run.tick, cids, tokens, i + 1);
    }
  }

  /** The read of node n that starts at poll k throws, or stops with an expected event still missing. */
  ghost predicate ReadFails(nodes: seq<Node>, clock: Clock, k: nat, cids: seq<string>, tokens: seq<nat>, n: nat)
    requires Ticks(clock) && |nodes| == |tokens|
  {
    && n < |nodes|
    && var run := ReadFrom(nodes[n], clock, READ_EVENTS_TIMEOUT_MS, k, tokens[n], cids);
       run.Threw? || |run.found| < |cids|
  }

  /**
   The first pass fails only when one of its reads does: it throws what the read threw, or it is short
   and reports a timeout.
   */
  lemma {:induction false} WaitFailsOnlyOnARead(nodes: seq<Node>, clock: Clock, k: nat, cids: seq<string>,
                                                tokens: seq<nat>, i: nat)
    requires Ticks(clock) && |nodes| == |tokens|
    ensures WaitRun(nodes, clock, k, cids, tokens, i).0.Err? ==>
            exists n: nat, start: nat :: i <= n && ReadFails(nodes, clock, start, cids, tokens, n)
    decreases |nodes| - i
  {
    if i < |nodes| {
      if ReadFails(nodes, clock, k, cids, tokens, i) {
      } else {
        var run := ReadFrom(nodes[i], clock, READ_EVENTS_TIMEOUT_MS, k, tokens[i], cids);
        WaitFailsOnlyOnARead(nodes, clock, run.tick, cids, tokens, i + 1);
      }
    }
  }

  /** A first pass: the nodes, the clock, the poll it starts at, and what is expected of each node. */
  datatype Pass = Pass(nodes: seq<Node>, clock: Clock, k: nat, cids: seq<string>, tokens: seq<nat>)

  ghost predicate IsPass(p: Pass) {
    Ticks(p.clock) && |p.nodes| == |p.tokens|
  }

  /** The poll at which the pass gets to node n, once it has read all nodes before it. */
  ghost function ReachedAt(p: Pass, n: nat): nat
    requires IsPass(p) && n <= |p.nodes|
    decreases n, 0
  {
    if n == 0 then p.k else ReadAt(p, n - 1).tick
  }

  /** The read of node n, from its own token, starting at that poll. */
  ghost function ReadAt(p: Pass, n: nat): Run
    requires IsPass(p) && n < |p.nodes|
    decreases n, 1
  {
    ReadFrom(p.nodes[n], p.clock, READ_EVENTS_TIMEOUT_MS, ReachedAt(p, n), p.tokens[n], p.cids)
  }

  ghost predicate CompleteAt(p: Pass, n: nat)
    requires IsPass(p) && n < |p.nodes|
  {
    ReadAt(p, n).Stopped? && |ReadAt(p, n).found| >= |p.cids|
  }

  /** Node n is the first whose read is not complete. */
  ghost predicate FailsFirstAt(p: Pass, n: nat)
    requires IsPass(p)
  {
    n < |p.nodes| && !CompleteAt(p, n) && forall m | 0 <= m < n :: CompleteAt(p, m)
  }

  ghost function PassRun(p: Pass, n: nat): (Result<()>, nat)
    requires IsPass(p) && n <= |p.nodes|
  {
    WaitRun(p.nodes, p.clock, ReachedAt(p, n), p.cids, p.tokens, n)
  }

  lemma {:induction false} PassGetsTo(p: Pass, n: nat)
    requires IsPass(p) && n <= |p.nodes| && forall m | 0 <= m < n :: CompleteAt(p, m)
    ensures PassRun(p, 0) == PassRun(p, n)
  {
    if n > 0 {
      PassGetsTo(p, n - 1);
      assert CompleteAt(p, n - 1);
    }
  }

  lemma FailsAt(p: Pass, n: nat)
    requires IsPass(p) && FailsFirstAt(p, n)
    ensures PassRun(p, 0)
         == (Err(if ReadAt(p, n).Threw? then "unexpected status" else "waitForEventCount: timeout"), ReadAt(p, n).tick)
  {
    PassGetsTo(p, n);
  }

  lemma {:induction false} FirstIncomplete(p: Pass, n: nat) returns (first: nat)
    requires IsPass(p) && n < |p.nodes| && !CompleteAt(p, n)
    ensures FailsFirstAt(p, first)
  {
    if m: nat :| m < n && !CompleteAt(p, m) {
      first := FirstIncomplete(p, m);
    } else {
      first := n;
    }
  }

  lemma OneFailsFirst(p: Pass, m: nat, n: nat)
    requires IsPass(p) && FailsFirstAt(p, m) && FailsFirstAt(p, n)
    ensures m == n
  {
  }

  /**
   The first pass reads the nodes in order, each from where the reads before it got to. It succeeds if and
   only if every one of these reads is complete; it fails as a read does if and only if the first that is
   not complete threw, and as timed out if and only if that one stopped short.
   */
  lemma PassOutcome(p: Pass)
    requires IsPass(p)
    ensures PassRun(p, 0).0 == Ok(()) <==> forall n | 0 <= n < |p.nodes| :: CompleteAt(p, n)
    ensures PassRun(p, 0).0 == Err("unexpected status") <==> exists n: nat :: FailsFirstAt(p, n) && ReadAt(p, n).Threw?
    ensures PassRun(p, 0).0 == Err("waitForEventCount: timeout")
            <==> exists n: nat :: FailsFirstAt(p, n) && ReadAt(p, n).Stopped?
    ensures PassRun(p, 0).0.Ok? ==> PassRun(p, 0).1 == ReachedAt(p, |p.nodes|)
  {
    if n: nat :| n < |p.nodes| && !CompleteAt(p, n) {
      var first := FirstIncomplete(p, n);
      FailsAt(p, first);
      forall m: nat | FailsFirstAt(p, m) ensures m == first {
        OneFailsFirst(p, m, first);
      }
    } else {
      PassGetsTo(p, |p.nodes|);
    }
  }

  /** A first pass that succeeds leaves every expected event in the log of every node, past its resume token. */
  lemma {:induction false} FirstPassMeansAllThere(nodes: seq<Node>, clock: Clock, k: nat, tokens: seq<nat>, i: nat,
                                                  written: seq<Event>, n: nat, log: nat -> seq<string>)
    requires Ticks(clock) && |nodes| == |tokens| && i <= n < |nodes| && Distinct(Ids(written))
    requires Reliable(nodes[n], log, tokens[n], k, written)
    requires WaitRun(nodes, clock, k, Ids(written), tokens, i).0.Ok?
    ensures HoldsAll(log, tokens[n], WaitRun(nodes, clock, k, Ids(written), tokens, i).1, written)
    decreases n - i
  {
    var run := ReadFrom(nodes[i], clock, READ_EVENTS_TIMEOUT_MS, k, tokens[i], Ids(written));
    TickAdvances(nodes[i], clock, clock.entry(k), READ_EVENTS_TIMEOUT_MS, k, tokens[i], Ids(written), []);
    if i < n {
      ReliableLater(nodes[n], log, tokens[n], k, run.tick, written);
      FirstPassMeansAllThere(nodes, clock, run.tick, tokens, i + 1, written, n, log);
    } else {
      CompleteReadMeansHoldsAll(nodes[n], log, clock, READ_EVENTS_TIMEOUT_MS, k, tokens[n], written);
      WaitAdvances(nodes, clock, run.tick, Ids(written), tokens, i + 1);
      HoldsAllLater(log, tokens[n], run.tick, WaitRun(nodes, clock, run.tick, Ids(written), tokens, i + 1).1, written);
    }
  }

  lemma ReliableLater(node: Node, log: nat -> seq<string>, token: nat, j: nat, k: nat, written: seq<Event>)
    requires Reliable(node, log, token, j, written) && j <= k
    ensures Reliable(node, log, token, k, written)
  {
    assert log(j) <= log(k);
  }

  /**
   With a poll for each entry of the log past the token, a read that stops short has at least got to
   the end of that log.
   */
  lemma ShortReadReachedEnd(node: Node, log: nat -> seq<string>, clock: Clock, timeoutMs: int, k: nat, token: nat,
                            cids: seq<string>)
    requires Ticks(clock) && ServesLog(node, log) && Eager(node, log) && token <= |log(k)|
    requires clock.poll(k + |log(k)| - token) - clock.entry(k) <= timeoutMs
    ensures var run := ReadFrom(node, clock, timeoutMs, k, token, cids);
            run.Stopped? && |run.found| < |cids| ==> run.token >= |log(k)|
  {
    var run := ReadFrom(node, clock, timeoutMs, k, token, cids);
    ProgressBound(node, log, clock, clock.entry(k), timeoutMs, k, token, cids, [], |log(k)|);
    ShortMeansTimeout(node, clock, clock.entry(k), timeoutMs, k, token, cids, []);
    if run.Stopped? && |run.found| < |cids| {
      TimeoutIsLate(clock, k, run.tick - 1, k + |log(k)| - token, timeoutMs);
    }
  }

  lemma TimeoutIsLate(clock: Clock, k: nat, tick: nat, enough: nat, timeoutMs: int)
    requires Ticks(clock)
    requires clock.poll(tick) - clock.entry(k) > timeoutMs && clock.poll(enough) - clock.entry(k) <= timeoutMs
    ensures tick > enough
  {
    assert tick < enough ==> clock.poll(tick) < clock.poll(enough);
  }

  /** A read that got to the end of a log holding everything has everything. */
  lemma EndReachedMeansAllRead(node: Node, log: nat -> seq<string>, clock: Clock, timeoutMs: int, k: nat, token: nat,
                               written: seq<Event>)
    requires Ticks(clock) && Distinct(Ids(written)) && Reliable(node, log, token, k, written)
            && HoldsAll(log, token, k, written)
    requires var run := ReadFrom(node, clock, timeoutMs, k, token, Ids(written)); run.Stopped? && run.token >= |log(k)|
    ensures |ReadFrom(node, clock, timeoutMs, k, token, Ids(written)).found| == |written|
  {
    var cids := Ids(written);
    var run := ReadFrom(node, clock, timeoutMs, k, token, cids);
    CountIsCompleteness(node, log, clock, timeoutMs, k, token, cids, written);
    WholeInPart(log(k), log(run.tick), token, run.token, cids);
  }

  /**
   A read of a log that already holds everything cannot time out while the clock allows one poll for
   each entry of the log past the token; if it stops, as it does when the node refuses nothing, it returns
   the written events in canonical order.
   */
  lemma ReadOfCompleteLog(node: Node, log: nat -> seq<string>, clock: Clock, timeoutMs: int, k: nat, token: nat,
                          written: seq<Event>)
    requires Ticks(clock) && Distinct(Ids(written))
    requires Reliable(node, log, token, k, written) && Eager(node, log)
    requires HoldsAll(log, token, k, written)
    requires clock.poll(k + |log(k)| - token) - clock.entry(k) <= timeoutMs
    ensures var run := ReadFrom(node, clock, timeoutMs, k, token, Ids(written));
            run.Stopped? || AlwaysAnswers(node) ==> ReadOutcome(run) == Ok(SortModelEvents(written))
  {
    var run := ReadFrom(node, clock, timeoutMs, k, token, Ids(written));
    if AlwaysAnswers(node) { AnsweredReadStops(Read(node, clock, timeoutMs, k, token, Ids(written))); }
    if run.Stopped? {
      if |run.found| < |written| {
        ShortReadReachedEnd(node, log, clock, timeoutMs, k, token, Ids(written));
        EndReachedMeansAllRead(node, log, clock, timeoutMs, k, token, written);
        assert false;
      }
      ReadReturnsWritten(node, log, clock, timeoutMs, k, token, written);
    }
  }

  /** Node n refuses nothing and already holds everything when the pass starts, with time to read it. */
  ghost predicate ReadyAt(p: Pass, n: nat, log: nat -> seq<string>, written: seq<Event>)
    requires IsPass(p) && n < |p.nodes|
  {
    && Reliable(p.nodes[n], log, p.tokens[n], p.k, written)
    && Eager(p.nodes[n], log) && AlwaysAnswers(p.nodes[n])
    && HoldsAll(log, p.tokens[n], p.k, written)
    && var start := ReachedAt(p, n);
       p.tokens[n] <= |log(start)|
       && p.clock.poll(start + |log(start)| - p.tokens[n]) - p.clock.entry(start) <= READ_EVENTS_TIMEOUT_MS
  }

  lemma {:induction false} ReachedLater(p: Pass, n: nat)
    requires IsPass(p) && n <= |p.nodes|
    ensures p.k <= ReachedAt(p, n)
  {
    if n > 0 {
      ReachedLater(p, n - 1);
      TickAdvances(p.nodes[n - 1], p.clock, p.clock.entry(ReachedAt(p, n - 1)), READ_EVENTS_TIMEOUT_MS,
                   ReachedAt(p, n - 1), p.tokens[n - 1], p.cids, []);
    }
  }

  /** A pass over nodes that are all ready succeeds. */
  lemma ReadyNodesPass(p: Pass, logs: nat -> nat -> seq<string>, written: seq<Event>)
    requires IsPass(p) && Distinct(Ids(written)) && p.cids == Ids(written)
    requires forall n | 0 <= n < |p.nodes| :: ReadyAt(p, n, logs(n), written)
    ensures PassRun(p, 0).0 == Ok(())
  {
    forall n | 0 <= n < |p.nodes| ensures CompleteAt(p, n) {
      var start, log := ReachedAt(p, n), logs(n);
      ReachedLater(p, n);
      ReliableLater(p.nodes[n], log, p.tokens[n], p.k, start, written);
      HoldsAllLater(log, p.tokens[n], p.k, start, written);
      ReadOfCompleteLog(p.nodes[n], log, p.clock, READ_EVENTS_TIMEOUT_MS, start, p.tokens[n], written);
      SortKeepsLength(ReadAt(p, n).found);
      SortKeepsLength(written);
    }
    PassOutcome(p);
  }

  lemma WholeInPart(early: seq<string>, late: seq<string>, from: nat, to: nat, ids: seq<string>)
    requires early <= late && from <= |early| <= to <= |late|
    requires forall id | id in ids :: id in early[from..]
    ensures forall id | id in ids :: id in late[from..to]
  {
    assert early[from..] == late[from..|early|];
    assert late[from..to] == late[from..|early|] + late[|early|..to];
  }

  /**
   Two-pass stability: after a first pass that succeeds on all nodes, a later read of any of them from
   the same resume token returns the written events in canonical order unless it throws or times out,
   it cannot time out if the clock allows one poll for each entry of the log past the token, and it
   cannot throw if the node refuses nothing.
   */
  lemma SecondPassAgrees(nodes: seq<Node>, clock: Clock, k: nat, tokens: seq<nat>, written: seq<Event>,
                         n: nat, log: nat -> seq<string>, later: nat, timeoutMs: int)
    requires Ticks(clock) && |nodes| == |tokens| && n < |nodes| && Distinct(Ids(written))
    requires Reliable(nodes[n], log, tokens[n], k, written)
    requires WaitRun(nodes, clock, k, Ids(written), tokens, 0).0 == Ok(())
    requires WaitRun(nodes, clock, k, Ids(written), tokens, 0).1 <= later
    ensures var run := ReadFrom(nodes[n], clock, timeoutMs, later, tokens[n], Ids(written));
            && tokens[n] <= |log(later)|
            && (run.Stopped? && |run.found| >= |written| ==> ReadOutcome(run) == Ok(SortModelEvents(written)))
            && ((run.Stopped? || AlwaysAnswers(nodes[n])) && Eager(nodes[n], log)
                && clock.poll(later + |log(later)| - tokens[n]) - clock.entry(later) <= timeoutMs
                ==> ReadOutcome(run) == Ok(SortModelEvents(written)))
  {
    FirstPassMeansAllThere(nodes, clock, k, tokens, 0, written, n, log);
    WaitAdvances(nodes, clock, k, Ids(written), tokens, 0);
    HoldsAllLater(log, tokens[n], WaitRun(nodes, clock, k, Ids(written), tokens, 0).1, later, written);
    ReliableLater(nodes[n], log, tokens[n], k, later, written);
    ReadReturnsWritten(nodes[n], log, clock, timeoutMs, later, tokens[n], written);
    if Eager(nodes[n], log) && clock.poll(later + |log(later)| - tokens[n]) - clock.entry(later) <= timeoutMs {
      ReadOfCompleteLog(nodes[n], log, clock, timeoutMs, later, tokens[n], written);
    }
  }

  // ----- concurrent writers -----

  /** s takes the heads of the lists one at a time, in some order, until all are used up. */
  ghost predicate IsInterleaving<T>(lists: seq<seq<T>>, s: seq<T>)
    decreases |s|
  {
    if s == [] then forall i :: 0 <= i < |lists| ==> lists[i] == []
    else exists i :: 0 <= i < |lists| && HeadIs(lists[i], s[0]) && IsInterleaving(lists[i := lists[i][1..]], s[1..])
  }

  ghost predicate HeadIs<T>(list: seq<T>, x: T) {
    list != [] && list[0] == x
  }

  function Flatten<T>(lists: seq<seq<T>>): seq<T> {
    if lists == [] then [] else lists[0] + Flatten(lists[1..])
  }

  lemma {:induction false} FlattenOfEmpties<T>(lists: seq<seq<T>>)
    requires forall i :: 0 <= i < |lists| ==> lists[i] == []
    ensures Flatten(lists) == []
  {
    if lists != [] { FlattenOfEmpties(lists[1..]); }
  }

  lemma {:induction false} FlattenTakeHead<T>(lists: seq<seq<T>>, i: nat)
    requires i < |lists| && lists[i] != []
    ensures multiset(Flatten(lists)) == multiset(Flatten(lists[i := lists[i][1..]])) + multiset{lists[i][0]}
  {
    var fewer := lists[i := lists[i][1..]];
    if i == 0 {
      assert fewer[1..] == lists[1..];
      assert lists[0] == [lists[0][0]] + lists[0][1..];
    } else {
      assert fewer[1..] == lists[1..][i - 1 := lists[i][1..]];
      FlattenTakeHead(lists[1..], i - 1);
    }
  }

  /** However the writers interleave, the log holds what they wrote, each event as often as it was written. */
  lemma {:induction false} InterleavingIsPermutation<T>(lists: seq<seq<T>>, s: seq<T>)
    requires IsInterleaving(lists, s)
    ensures multiset(s) == multiset(Flatten(lists))
    decreases |s|
  {
    if s == [] {
      FlattenOfEmpties(lists);
    } else {
      var i :| 0 <= i < |lists| && HeadIs(lists[i], s[0]) && IsInterleaving(lists[i := lists[i][1..]], s[1..]);
      InterleavingIsPermutation(lists[i := lists[i][1..]], s[1..]);
      FlattenTakeHead(lists, i);
      assert s == [s[0]] + s[1..];
    }
  }

  /** Unrelated events are one more list to interleave; filtering by the expected CIDs removes exactly them. */
  lemma {:induction false} NoiseIsFilteredOut(lists: seq<seq<string>>, noise: seq<string>, s: seq<string>,
                                              cids: seq<string>)
    requires IsInterleaving(lists + [noise], s)
    requires forall i, id | 0 <= i < |lists| && id in lists[i] :: id in cids
    requires forall id | id in noise :: id !in cids
    ensures IsInterleaving(lists, Matching(s, cids))
    decreases |s|
  {
    var all := lists + [noise];
    if s == [] {
      assert forall i :: 0 <= i < |lists| ==> lists[i] == all[i];
    } else {
      var i :| 0 <= i < |all| && HeadIs(all[i], s[0]) && IsInterleaving(all[i := all[i][1..]], s[1..]);
      if i == |lists| {
        assert all[i := all[i][1..]] == lists + [noise[1..]];
        NoiseIsFilteredOut(lists, noise[1..], s[1..], cids);
        assert s[0] in noise;
      } else {
        var fewer := lists[i := lists[i][1..]];
        assert all[i := all[i][1..]] == fewer + [noise];
        assert s[0] in lists[i];
        forall j, id | 0 <= j < |fewer| && id in fewer[j] ensures id in cids { assert id in lists[j]; }
        NoiseIsFilteredOut(fewer, noise, s[1..], cids);
        var m := Matching(s, cids);
        assert m[0] == s[0] && m[1..] == Matching(s[1..], cids);
        assert HeadIs(lists[i], m[0]) && IsInterleaving(lists[i := lists[i][1..]], m[1..]);
      }
    }
  }

  function IdLists(writers: seq<seq<Event>>): (r: seq<seq<string>>)
    ensures |r| == |writers| && forall i :: 0 <= i < |r| ==> r[i] == Ids(writers[i])
  {
    seq(|writers|, i requires 0 <= i < |writers| => Ids(writers[i]))
  }

  lemma {:induction false} FlattenIds(writers: seq<seq<Event>>)
    ensures Flatten(IdLists(writers)) == Ids(Flatten(writers))
  {
    if writers != [] {
      FlattenIds(writers[1..]);
      assert IdLists(writers)[1..] == IdLists(writers[1..]);
      IdsConcat(writers[0], Flatten(writers[1..]));
    }
  }

  /**
   At every moment the log past the token is a prefix of some interleaving of the writers' lists with
   unrelated events.
   */
  ghost predicate WrittenBy(log: nat -> seq<string>, token: nat, writers: seq<seq<Event>>) {
    forall k: nat | token <= |log(k)| ::
      exists noise, s ::
        Unrelated(noise, writers) && IsInterleaving(IdLists(writers) + [noise], s) && log(k)[token..] <= s
  }

  ghost predicate Unrelated(noise: seq<string>, writers: seq<seq<Event>>) {
    forall id | id in noise :: id !in Ids(Flatten(writers))
  }

  lemma DistinctByMultiset<T>(a: seq<T>, b: seq<T>)
    requires multiset(a) == multiset(b) && Distinct(a)
    ensures Distinct(b)
  {
    forall i, j | 0 <= i < j < |b| ensures b[i] != b[j] {
      assert b[i] in multiset(a);
      var k :| 0 <= k < |a| && a[k] == b[i];
      OnceInMultiset(a, k);
      OnceMeansApart(b, i, j);
    }
  }

  lemma {:induction false} MemberOfFlatten<T>(lists: seq<seq<T>>, i: nat, x: T)
    requires i < |lists| && x in lists[i]
    ensures x in Flatten(lists)
  {
    if i > 0 { MemberOfFlatten(lists[1..], i - 1, x); }
  }

  lemma InterleavedStretchIsDistinct(seen: seq<string>, rest: seq<string>, noise: seq<string>, writers: seq<seq<Event>>)
    requires Distinct(Ids(Flatten(writers))) && Unrelated(noise, writers)
    requires IsInterleaving(IdLists(writers) + [noise], seen + rest)
    ensures Distinct(Matching(seen, Ids(Flatten(writers))))
  {
    var cids := Ids(Flatten(writers));
    var lists := IdLists(writers);
    FlattenIds(writers);
    forall i, id | 0 <= i < |lists| && id in lists[i] ensures id in cids {
      MemberOfFlatten(lists, i, id);
    }
    NoiseIsFilteredOut(lists, noise, seen + rest, cids);
    InterleavingIsPermutation(lists, Matching(seen + rest, cids));
    DistinctByMultiset(cids, Matching(seen + rest, cids));
    MatchingConcat(seen, rest, cids);
    DistinctPrefix(Matching(seen, cids), Matching(rest, cids));
  }

  /** A log produced by writers whose events have distinct ids delivers each of them at most once. */
  lemma WritersDeliverOnce(log: nat -> seq<string>, token: nat, writers: seq<seq<Event>>)
    requires WrittenBy(log, token, writers) && Distinct(Ids(Flatten(writers)))
    ensures DeliversOnce(log, token, Ids(Flatten(writers)))
  {
    forall k: nat | token <= |log(k)| ensures Distinct(Matching(log(k)[token..], Ids(Flatten(writers)))) {
      var seen := log(k)[token..];
      var noise, s :| Unrelated(noise, writers) && IsInterleaving(IdLists(writers) + [noise], s) && seen <= s;
      assert s == seen + s[|seen|..];
      InterleavedStretchIsDistinct(seen, s[|seen|..], noise, writers);
    }
  }

  /** A node serves a log that the writers, and any unrelated events, make past the token. */
  ghost predicate ServesWriters(node: Node, log: nat -> seq<string>, token: nat, writers: seq<seq<Event>>) {
    ServesLog(node, log) && Faithful(node, Flatten(writers)) && WrittenBy(log, token, writers)
  }

  /** A complete read of such a node returns the canonical order of everything written. */
  lemma WritersReadBack(node: Node, log: nat -> seq<string>, token: nat, k: nat, clock: Clock, timeoutMs: int,
                        writers: seq<seq<Event>>)
    requires Ticks(clock) && Distinct(Ids(Flatten(writers)))
    requires ServesWriters(node, log, token, writers) && token <= |log(k)|
    ensures ReadsBack(node, clock, timeoutMs, k, token, Flatten(writers))
  {
    WritersDeliverOnce(log, token, writers);
    ReadReturnsWritten(node, log, clock, timeoutMs, k, token, Flatten(writers));
  }

  /**
   All nodes agree: for any number of concurrent writers, any interleaving of their lists on either
   node with any unrelated events in between, and any page boundaries, two reads that do not time out
   return the same sequence, the canonical order of everything written.
   */
  lemma NodesAgree(a: Node, logA: nat -> seq<string>, tokenA: nat, ka: nat, b: Node, logB: nat -> seq<string>,
                   tokenB: nat, kb: nat, clock: Clock, timeoutMs: int, writers: seq<seq<Event>>)
    requires Ticks(clock) && Distinct(Ids(Flatten(writers)))
    requires ServesWriters(a, logA, tokenA, writers) && tokenA <= |logA(ka)|
    requires ServesWriters(b, logB, tokenB, writers) && tokenB <= |logB(kb)|
    ensures var all := Flatten(writers);
            var runA := ReadFrom(a, clock, timeoutMs, ka, tokenA, Ids(all));
            var runB := ReadFrom(b, clock, timeoutMs, kb, tokenB, Ids(all));
            runA.Stopped? && |runA.found| >= |all| && runB.Stopped? && |runB.found| >= |all| ==>
              ReadOutcome(runA) == ReadOutcome(runB) == Ok(SortModelEvents(all))
  {
    WritersReadBack(a, logA, tokenA, ka, clock, timeoutMs, writers);
    WritersReadBack(b, logB, tokenB, kb, clock, timeoutMs, writers);
  }
}
