/**
 The cursor-driven feed reader (suite/src/__tests__/correctness/fast/sync-events.test.ts).

 A node is an adversary: it answers the k-th poll of the run as it likes. What is assumed of a
 node is stated as a predicate and required by the theorems that need it, never by the methods.
 */
module FeedReader {
  import opened Wrappers
  import opened ModelEvents
  import opened Sets

  /** Answer of `feed/events?resumeAt=token`; the event list carries ids only. */
  datatype Reply = Reply(status: nat, resumeToken: nat, events: seq<string>)

  /** Answer of `events/<id>`. */
  datatype Fetched = Fetched(status: nat, event: Event)

  /** What a node answers at poll k to a token, and to a request for one event during poll k. */
  datatype Node = Node(feed: (nat, nat) -> Reply, fetch: (nat, string) -> Fetched)

  /** `entry(k)`: the time when a read starts just before poll k. `poll(k)`: the time checked at poll k. */
  datatype Clock = Clock(entry: nat -> int, poll: nat -> int)

  const READ_EVENTS_TIMEOUT_MS := 60 * 1000

  /** The delay after every poll makes the clock advance between polls. */
  ghost predicate Ticks(clock: Clock) {
    && (forall j: nat, k: nat | j < k :: clock.poll(j) < clock.poll(k))
    && (forall k: nat :: clock.entry(k) <= clock.poll(k))
  }

  // ----- the loops, as functions -----

  /** One page: fetch every event, keep the expected ones. None when a fetch is refused. */
  function Collect(node: Node, k: nat, ids: seq<string>, cids: seq<string>, found: seq<Event>): Option<seq<Event>> {
    if ids == [] then Some(found)
    else
      var fetched := node.fetch(k, ids[0]);
      if fetched.status != 200 then None
      else Collect(node, k, ids[1..], cids, if fetched.event.id in cids then found + [fetched.event] else found)
  }

  /** How a read ends: by a throw, or with what it found, its current token and the next poll. */
  datatype Run = Threw(tick: nat) | Stopped(found: seq<Event>, token: nat, tick: nat)

  ghost function ReadRun(node: Node, clock: Clock, start: int, timeoutMs: int,
                         k: nat, token: nat, cids: seq<string>, found: seq<Event>): Run
    requires Ticks(clock)
    decreases start + timeoutMs - clock.poll(k)
  {
    if |found| >= |cids| then Stopped(found, token, k)
    else if clock.poll(k) - start > timeoutMs then Stopped(found, token, k + 1)
    else
      var reply := node.feed(k, token);
      if reply.status != 200 then Threw(k + 1)
      else
        match Collect(node, k, reply.events, cids, found)
        case None => Threw(k + 1)
        case Some(more) => ReadRun(node, clock, start, timeoutMs, k + 1, reply.resumeToken, cids, more)
  }

  ghost function ReadOutcome(run: Run): Result<seq<Event>> {
    match run
    case Threw(_) => Err("unexpected status")
    case Stopped(found, _, _) => Ok(SortModelEvents(found))
  }

  ghost function ReadFrom(node: Node, clock: Clock, timeoutMs: int, k: nat, token: nat, cids: seq<string>): Run
    requires Ticks(clock)
  {
    ReadRun(node, clock, clock.entry(k), timeoutMs, k, token, cids, [])
  }

  method ReadEvents(node: Node, clock: Clock, firstPoll: nat, resumeToken: nat, eventCids: seq<string>, timeoutMs: int)
    returns (r: Result<seq<Event>>, k: nat)
    requires Ticks(clock)
    ensures r == ReadOutcome(ReadFrom(node, clock, timeoutMs, firstPoll, resumeToken, eventCids))
    ensures k == ReadFrom(node, clock, timeoutMs, firstPoll, resumeToken, eventCids).tick
  {
    var events: seq<Event> := [];
    var startTime := clock.entry(firstPoll);
    var token := resumeToken;
    k := firstPoll;
    while |events| < |eventCids|
      invariant ReadFrom(node, clock, timeoutMs, firstPoll, resumeToken, eventCids)
             == ReadRun(node, clock, startTime, timeoutMs, k, token, eventCids, events)
      decreases startTime + timeoutMs - clock.poll(k)
    {
      if clock.poll(k) - startTime > timeoutMs {
        k := k + 1;
        break;
      }
      var reply := node.feed(k, token);
      if reply.status != 200 {
        return Err("unexpected status"), k + 1;
      }
      ghost var before := events;
      token := reply.resumeToken;
      for i := 0 to |reply.events|
        invariant Collect(node, k, reply.events[i..], eventCids, events)
               == Collect(node, k, reply.events, eventCids, before)
      {
        var eventWithData := node.fetch(k, reply.events[i]);
        if eventWithData.status != 200 {
          return Err("unexpected status"), k + 1;
        }
        if eventWithData.event.id in eventCids {
          events := events + [eventWithData.event];
        }
      }
      k := k + 1;
    }
    r := Ok(SortModelEvents(events));
  }

  // ----- what a node is assumed to do -----

  /** The log only grows. */
  ghost predicate AppendOnly(log: nat -> seq<string>) {
    forall j: nat, k: nat | j <= k :: log(j) <= log(k)
  }

  /** Tokens are positions in the log: a page is the stretch of log between the two tokens, cut anywhere. */
  ghost predicate ServesLog(node: Node, log: nat -> seq<string>) {
    && AppendOnly(log)
    && forall k: nat, t: nat | t <= |log(k)| && node.feed(k, t).status == 200 ::
         t <= node.feed(k, t).resumeToken <= |log(k)| &&
         node.feed(k, t).events == log(k)[t..node.feed(k, t).resumeToken]
  }

  /** Fetching an id yields the event with that id; for a written event, the event as it was written. */
  ghost predicate Faithful(node: Node, written: seq<Event>) {
    forall k: nat, id: string | node.fetch(k, id).status == 200 ::
      node.fetch(k, id).event.id == id &&
      forall w | w in written && w.id == id :: node.fetch(k, id).event == w
  }

  /** A poll that has something to deliver delivers something. */
  ghost predicate Eager(node: Node, log: nat -> seq<string>) {
    forall k: nat, t: nat | t < |log(k)| && node.feed(k, t).status == 200 :: t < node.feed(k, t).resumeToken
  }

  // ----- the cursor invariant -----

  /** The ids of a stretch of log that the reader is waiting for. */
  function Matching(ids: seq<string>, cids: seq<string>): seq<string> {
    if ids == [] then []
    else if ids[0] in cids then [ids[0]] + Matching(ids[1..], cids)
    else Matching(ids[1..], cids)
  }

  lemma {:induction false} MatchingConcat(a: seq<string>, b: seq<string>, cids: seq<string>)
    ensures Matching(a + b, cids) == Matching(a, cids) + Matching(b, cids)
  {
    if a == [] {
      assert a + b == b;
    } else {
      assert (a + b)[1..] == a[1..] + b;
      MatchingConcat(a[1..], b, cids);
    }
  }

  lemma {:induction false} MatchingMember(ids: seq<string>, cids: seq<string>, id: string)
    ensures id in Matching(ids, cids) <==> id in ids && id in cids
  {
    if ids != [] {
      MatchingMember(ids[1..], cids, id);
      assert ids == [ids[0]] + ids[1..];
    }
  }

  lemma IdsConcat(a: seq<Event>, b: seq<Event>)
    ensures Ids(a + b) == Ids(a) + Ids(b)
  {
  }

  /** What has been found are written events, one for each id. */
  ghost predicate Genuine(found: seq<Event>, written: seq<Event>) {
    forall e, w | e in found && w in written && e.id == w.id :: e == w
  }

  lemma {:induction false} CollectKeepsMatching(node: Node, k: nat, ids: seq<string>, cids: seq<string>,
                                                found: seq<Event>, written: seq<Event>)
    requires Faithful(node, written) && Genuine(found, written)
    ensures var c := Collect(node, k, ids, cids, found);
            c.Some? ==> Ids(c.value) == Ids(found) + Matching(ids, cids) && Genuine(c.value, written)
  {
    if ids != [] && node.fetch(k, ids[0]).status == 200 {
      var e := node.fetch(k, ids[0]).event;
      assert e.id == ids[0];
      var more := if e.id in cids then found + [e] else found;
      IdsConcat(found, [e]);
      CollectKeepsMatching(node, k, ids[1..], cids, more, written);
    }
  }

  /** The state of a read at poll k that started at token t0. */
  ghost predicate AtCursor(log: nat -> seq<string>, k: nat, t0: nat, token: nat, cids: seq<string>, found: seq<Event>) {
    t0 <= token <= |log(k)| && Ids(found) == Matching(log(k)[t0..token], cids)
  }

  lemma AtCursorLater(log: nat -> seq<string>, j: nat, k: nat, t0: nat, token: nat, cids: seq<string>,
                      found: seq<Event>)
    requires AppendOnly(log) && j <= k && AtCursor(log, j, t0, token, cids, found)
    ensures AtCursor(log, k, t0, token, cids, found)
  {
    assert log(j) <= log(k);
    assert log(k)[t0..token] == log(j)[t0..token];
  }

  lemma CursorStep(node: Node, log: nat -> seq<string>, k: nat, t0: nat, token: nat, cids: seq<string>,
                   found: seq<Event>, written: seq<Event>)
    requires ServesLog(node, log) && Faithful(node, written) && Genuine(found, written)
    requires AtCursor(log, k, t0, token, cids, found)
    requires node.feed(k, token).status == 200 && Collect(node, k, node.feed(k, token).events, cids, found).Some?
    ensures var more := Collect(node, k, node.feed(k, token).events, cids, found).value;
            AtCursor(log, k, t0, node.feed(k, token).resumeToken, cids, more) && Genuine(more, written)
  {
    var reply := node.feed(k, token);
    CollectKeepsMatching(node, k, reply.events, cids, found, written);
    assert log(k)[t0..reply.resumeToken] == log(k)[t0..token] + reply.events;
    MatchingConcat(log(k)[t0..token], reply.events, cids);
  }

  /**
   Cursor invariant. After any number of polls, with appends between them, the pages consumed
   concatenate to the log between the starting token t0 and the current one, and what was found is
   that stretch of log filtered by the expected CIDs.
   */
  lemma {:induction false} CursorInvariant(node: Node, log: nat -> seq<string>, clock: Clock, start: int,
                                           timeoutMs: int, k: nat, t0: nat, token: nat, cids: seq<string>,
                                           found: seq<Event>, written: seq<Event>)
    requires Ticks(clock) && ServesLog(node, log) && Faithful(node, written) && Genuine(found, written)
    requires AtCursor(log, k, t0, token, cids, found)
    ensures var run := ReadRun(node, clock, start, timeoutMs, k, token, cids, found);
            && k <= run.tick
            && (run.Stopped? ==> AtCursor(log, run.tick, t0, run.token, cids, run.found) && Genuine(run.found, written))
    decreases start + timeoutMs - clock.poll(k)
  {
    AtCursorLater(log, k, k + 1, t0, token, cids, found);
    if |found| < |cids| && clock.poll(k) - start <= timeoutMs && node.feed(k, token).status == 200 {
      var reply := node.feed(k, token);
      var c := Collect(node, k, reply.events, cids, found);
      if c.Some? {
        CursorStep(node, log, k, t0, token, cids, found, written);
        AtCursorLater(log, k, k + 1, t0, reply.resumeToken, cids, c.value);
        CursorInvariant(node, log, clock, start, timeoutMs, k + 1, t0, reply.resumeToken, cids, c.value, written);
      }
    }
  }

  // ----- the count test is a completeness test -----

  /** Pigeonhole: as many distinct expected ids as there are expected ids means all of them, each expected once. */
  lemma Pigeonhole(ids: seq<string>, cids: seq<string>)
    requires Distinct(ids) && |ids| >= |cids|
    requires forall id | id in ids :: id in cids
    ensures |ids| == |cids| && Distinct(cids) && ToSet(ids) == ToSet(cids)
  {
    SetSize(ids);
    SetSize(cids);
    assert ToSet(ids) <= ToSet(cids);
    SubsetSize(ToSet(ids), ToSet(cids));
  }

  lemma MatchingIsExpected(ids: seq<string>, cids: seq<string>)
    ensures forall id | id in Matching(ids, cids) :: id in cids
    ensures |Matching(ids, cids)| <= |ids|
  {
    forall id | id in Matching(ids, cids) ensures id in cids { MatchingMember(ids, cids, id); }
    MatchingShrinks(ids, cids);
  }

  lemma {:induction false} MatchingShrinks(ids: seq<string>, cids: seq<string>)
    ensures |Matching(ids, cids)| <= |ids|
  {
    if ids != [] { MatchingShrinks(ids[1..], cids); }
  }

  /** At-most-once delivery: past the token, no expected id is in the log twice. */
  ghost predicate DeliversOnce(log: nat -> seq<string>, token: nat, cids: seq<string>) {
    forall k: nat | token <= |log(k)| :: Distinct(Matching(log(k)[token..], cids))
  }

  lemma DistinctPrefix<T>(a: seq<T>, b: seq<T>)
    requires Distinct(a + b)
    ensures Distinct(a)
  {
    forall i, j | 0 <= i < j < |a| ensures a[i] != a[j] {
      assert (a + b)[i] != (a + b)[j];
    }
  }

  lemma SegmentDeliversOnce(log: nat -> seq<string>, k: nat, t0: nat, token: nat, cids: seq<string>)
    requires DeliversOnce(log, t0, cids) && t0 <= token <= |log(k)|
    ensures Distinct(Matching(log(k)[t0..token], cids))
  {
    var all := log(k)[t0..];
    assert all == log(k)[t0..token] + log(k)[token..];
    MatchingConcat(log(k)[t0..token], log(k)[token..], cids);
    DistinctPrefix(Matching(log(k)[t0..token], cids), Matching(log(k)[token..], cids));
  }

  /**
   With distinct expected CIDs and at-most-once delivery, a read that ends without a throw ends with
   exactly as many events as CIDs if and only if every expected CID has been read; it never ends with
   more, and it ends with fewer only after the timeout.
   */
  lemma CountIsCompleteness(node: Node, log: nat -> seq<string>, clock: Clock, timeoutMs: int,
                            k: nat, token: nat, cids: seq<string>, written: seq<Event>)
    requires Ticks(clock) && ServesLog(node, log) && Faithful(node, written)
    requires token <= |log(k)| && DeliversOnce(log, token, cids) && Distinct(cids)
    ensures var run := ReadFrom(node, clock, timeoutMs, k, token, cids);
            run.Stopped? ==>
              && k <= run.tick && token <= run.token <= |log(run.tick)|
              && |run.found| <= |cids|
              && (|run.found| == |cids| <==> forall id | id in cids :: id in log(run.tick)[token..run.token])
              && (|run.found| < |cids| ==> run.tick > 0 && clock.poll(run.tick - 1) - clock.entry(k) > timeoutMs)
  {
    var run := ReadFrom(node, clock, timeoutMs, k, token, cids);
    assert log(k)[token..token] == [];
    CursorInvariant(node, log, clock, clock.entry(k), timeoutMs, k, token, token, cids, [], written);
    ShortMeansTimeout(node, clock, clock.entry(k), timeoutMs, k, token, cids, []);
    if run.Stopped? {
      var seen := log(run.tick)[token..run.token];
      var ids := Matching(seen, cids);
      SegmentDeliversOnce(log, run.tick, token, run.token, cids);
      MatchingIsExpected(seen, cids);
      SetSize(ids);
      SetSize(cids);
      SubsetSize(ToSet(ids), ToSet(cids));
      if |ids| == |cids| {
        forall id | id in cids ensures id in seen {
          assert id in ToSet(ids);
          MatchingMember(seen, cids, id);
        }
      }
      if forall id | id in cids :: id in seen {
        forall id | id in cids ensures id in ToSet(ids) { MatchingMember(seen, cids, id); }
        assert ToSet(ids) == ToSet(cids);
      }
    }
  }

  lemma {:induction false} TickAdvances(node: Node, clock: Clock, start: int, timeoutMs: int,
                                        k: nat, token: nat, cids: seq<string>, found: seq<Event>)
    requires Ticks(clock)
    ensures k <= ReadRun(node, clock, start, timeoutMs, k, token, cids, found).tick
    decreases start + timeoutMs - clock.poll(k)
  {
    if |found| < |cids| && clock.poll(k) - start <= timeoutMs && node.feed(k, token).status == 200 {
      var reply := node.feed(k, token);
      var c := Collect(node, k, reply.events, cids, found);
      if c.Some? { TickAdvances(node, clock, start, timeoutMs, k + 1, reply.resumeToken, cids, c.value); }
    }
  }

  lemma {:induction false} ShortMeansTimeout(node: Node, clock: Clock, start: int, timeoutMs: int,
                                             k: nat, token: nat, cids: seq<string>, found: seq<Event>)
    requires Ticks(clock)
    ensures var run := ReadRun(node, clock, start, timeoutMs, k, token, cids, found);
            run.Stopped? && |run.found| < |cids| ==> run.tick > 0 && clock.poll(run.tick - 1) - start > timeoutMs
    decreases start + timeoutMs - clock.poll(k)
  {
    if |found| < |cids| && clock.poll(k) - start <= timeoutMs && node.feed(k, token).status == 200 {
      var reply := node.feed(k, token);
      var c := Collect(node, k, reply.events, cids, found);
      if c.Some? {
        ShortMeansTimeout(node, clock, start, timeoutMs, k + 1, reply.resumeToken, cids, c.value);
      }
    }
  }

  // ----- reading back what was written -----

  lemma SameIdsSameEvents(found: seq<Event>, written: seq<Event>)
    requires Genuine(found, written) && Distinct(Ids(written))
    requires Distinct(Ids(found)) && ToSet(Ids(found)) == ToSet(Ids(written))
    ensures multiset(found) == multiset(written)
  {
    DistinctIdsMeansDistinct(found);
    DistinctIdsMeansDistinct(written);
    forall e ensures e in found <==> e in written {
      if e in found {
        var i :| 0 <= i < |found| && found[i] == e;
        assert Ids(found)[i] in ToSet(Ids(written));
        var j :| 0 <= j < |written| && Ids(written)[j] == e.id;
        assert e == written[j];
      }
      if e in written {
        var j :| 0 <= j < |written| && written[j] == e;
        assert Ids(written)[j] in ToSet(Ids(found));
        var i :| 0 <= i < |found| && Ids(found)[i] == e.id;
        assert found[i] == e;
      }
    }
    forall e ensures multiset(found)[e] == multiset(written)[e] {
      CountOf(found, e);
      CountOf(written, e);
    }
  }

  lemma CountOf<T>(s: seq<T>, e: T)
    requires Distinct(s)
    ensures multiset(s)[e] == if e in s then 1 else 0
  {
    if e in s {
      var k :| 0 <= k < |s| && s[k] == e;
      OnceInMultiset(s, k);
    }
  }

  /**
   When a read reaches the count, it returns the written events in canonical order exactly when the
   node delivered no expected id twice in the pages that were consumed.
   */
  lemma ReadBackIffOnce(node: Node, log: nat -> seq<string>, clock: Clock, timeoutMs: int, k: nat, token: nat,
                        written: seq<Event>)
    requires Ticks(clock) && ServesLog(node, log) && Faithful(node, written)
    requires token <= |log(k)| && Distinct(Ids(written))
    ensures var run := ReadFrom(node, clock, timeoutMs, k, token, Ids(written));
            run.Stopped? && |run.found| >= |written| ==>
              && token <= run.token <= |log(run.tick)|
              && (SortModelEvents(run.found) == SortModelEvents(written)
                  <==> Distinct(Matching(log(run.tick)[token..run.token], Ids(written))))
  {
    var cids := Ids(written);
    var run := ReadFrom(node, clock, timeoutMs, k, token, cids);
    assert log(k)[token..token] == [];
    CursorInvariant(node, log, clock, clock.entry(k), timeoutMs, k, token, token, cids, [], written);
    if run.Stopped? && |run.found| >= |written| {
      var ids := Matching(log(run.tick)[token..run.token], cids);
      MatchingIsExpected(log(run.tick)[token..run.token], cids);
      SortIsCanonical(written, run.found);
      if Distinct(ids) {
        Pigeonhole(ids, cids);
        SameIdsSameEvents(run.found, written);
      }
      if multiset(run.found) == multiset(written) {
        DistinctIdsPermute(written, run.found);
      }
    }
  }

  /** A complete read of the node returns the written events in canonical order. */
  ghost predicate ReadsBack(node: Node, clock: Clock, timeoutMs: int, k: nat, token: nat, written: seq<Event>)
    requires Ticks(clock)
  {
    var run := ReadFrom(node, clock, timeoutMs, k, token, Ids(written));
    run.Stopped? && |run.found| >= |written| ==> ReadOutcome(run) == Ok(SortModelEvents(written))
  }

  /** Whenever the log past the token holds as many deliveries as ids are expected, none of them is a repetition. */
  ghost predicate CountsOnce(log: nat -> seq<string>, token: nat, cids: seq<string>) {
    forall k: nat | token <= |log(k)| && |Matching(log(k)[token..], cids)| >= |cids| ::
      Distinct(Matching(log(k)[token..], cids))
  }

  lemma StretchCountsOnce(log: nat -> seq<string>, k: nat, t0: nat, token: nat, cids: seq<string>)
    requires CountsOnce(log, t0, cids) && t0 <= token <= |log(k)|
    requires |Matching(log(k)[t0..token], cids)| >= |cids|
    ensures Distinct(Matching(log(k)[t0..token], cids))
  {
    var seen, rest := log(k)[t0..token], log(k)[token..];
    assert log(k)[t0..] == seen + rest;
    MatchingConcat(seen, rest, cids);
    DistinctPrefix(Matching(seen, cids), Matching(rest, cids));
  }

  lemma CountsOnceReadsBack(node: Node, log: nat -> seq<string>, clock: Clock, timeoutMs: int, k: nat, token: nat,
                            written: seq<Event>)
    requires Ticks(clock) && ServesLog(node, log) && Faithful(node, written)
    requires token <= |log(k)| && Distinct(Ids(written)) && CountsOnce(log, token, Ids(written))
    ensures ReadsBack(node, clock, timeoutMs, k, token, written)
  {
    var cids := Ids(written);
    var run := ReadFrom(node, clock, timeoutMs, k, token, cids);
    ReadBackIffOnce(node, log, clock, timeoutMs, k, token, written);
    if run.Stopped? && |run.found| >= |written| {
      assert log(k)[token..token] == [];
      CursorInvariant(node, log, clock, clock.entry(k), timeoutMs, k, token, token, cids, [], written);
      StretchCountsOnce(log, run.tick, token, run.token, cids);
    }
  }

  /**
   The law of the sync scenarios: from an at-most-once feed, cut into pages in any way and with any
   other events mixed in, a read that does not time out returns the written events in canonical order.
   */
  lemma ReadReturnsWritten(node: Node, log: nat -> seq<string>, clock: Clock, timeoutMs: int, k: nat, token: nat,
                           written: seq<Event>)
    requires Ticks(clock) && ServesLog(node, log) && Faithful(node, written)
    requires token <= |log(k)| && Distinct(Ids(written)) && DeliversOnce(log, token, Ids(written))
    ensures ReadsBack(node, clock, timeoutMs, k, token, written)
  {
    CountsOnceReadsBack(node, log, clock, timeoutMs, k, token, written);
  }

  /** An id expected twice can never be delivered twice, so such a read always ends short. */
  lemma RepeatedCidNeverCompletes(node: Node, log: nat -> seq<string>, clock: Clock, timeoutMs: int,
                                  k: nat, token: nat, cids: seq<string>, written: seq<Event>)
    requires Ticks(clock) && ServesLog(node, log) && Faithful(node, written)
    requires token <= |log(k)| && DeliversOnce(log, token, cids) && !Distinct(cids)
    ensures var run := ReadFrom(node, clock, timeoutMs, k, token, cids);
            run.Stopped? ==> |run.found| < |cids|
  {
    var run := ReadFrom(node, clock, timeoutMs, k, token, cids);
    assert log(k)[token..token] == [];
    CursorInvariant(node, log, clock, clock.entry(k), timeoutMs, k, token, token, cids, [], written);
    if run.Stopped? && |run.found| >= |cids| {
      var seen := log(run.tick)[token..run.token];
      SegmentDeliversOnce(log, run.tick, token, run.token, cids);
      MatchingIsExpected(seen, cids);
      Pigeonhole(Matching(seen, cids), cids);
      assert false;
    }
  }

  // ----- the exact condition on the log -----

  /** The written event with this id, or some event with it. */
  function EventFor(id: string, written: seq<Event>): Event {
    if written == [] then Event(id, "")
    else if written[0].id == id then written[0]
    else EventFor(id, written[1..])
  }

  lemma {:induction false} EventForIsWritten(id: string, written: seq<Event>)
    requires Distinct(Ids(written))
    ensures EventFor(id, written).id == id
    ensures forall w | w in written && w.id == id :: EventFor(id, written) == w
  {
    if written != [] {
      DistinctTail(written);
      EventForIsWritten(id, written[1..]);
      assert written == [written[0]] + written[1..];
      forall w | w in written && w.id == id ensures EventFor(id, written) == w {
        if w != written[0] { IdsTellApart(written, w, written[0]); }
      }
    }
  }

  /** A node that serves the rest of its log in one page. */
  function OnePageNode(log: nat -> seq<string>, written: seq<Event>): Node {
    Node((k: nat, t: nat) => if t <= |log(k)| then Reply(200, |log(k)|, log(k)[t..]) else Reply(404, t, []),
         (k: nat, id: string) => Fetched(200, EventFor(id, written)))
  }

  lemma OnePageNodeServes(log: nat -> seq<string>, written: seq<Event>)
    requires AppendOnly(log) && Distinct(Ids(written))
    ensures ServesLog(OnePageNode(log, written), log) && Faithful(OnePageNode(log, written), written)
  {
    forall k: nat, id: string
      ensures OnePageNode(log, written).fetch(k, id).event.id == id
      ensures forall w | w in written && w.id == id :: OnePageNode(log, written).fetch(k, id).event == w
    {
      EventForIsWritten(id, written);
    }
  }

  lemma {:induction false} CollectAll(log: nat -> seq<string>, written: seq<Event>, k: nat, ids: seq<string>,
                                      cids: seq<string>, found: seq<Event>)
    ensures Collect(OnePageNode(log, written), k, ids, cids, found).Some?
  {
    if ids != [] {
      var e := EventFor(ids[0], written);
      CollectAll(log, written, k, ids[1..], cids, if e.id in cids then found + [e] else found);
    }
  }

  /** If the log holds the count, one page is enough to reach it. */
  lemma OnePageRun(log: nat -> seq<string>, written: seq<Event>, clock: Clock, timeoutMs: int, k: nat, token: nat)
    requires Ticks(clock) && AppendOnly(log) && Distinct(Ids(written)) && written != []
    requires clock.poll(k) - clock.entry(k) <= timeoutMs
    requires token <= |log(k)| && |Matching(log(k)[token..], Ids(written))| >= |written|
    ensures var run := ReadFrom(OnePageNode(log, written), clock, timeoutMs, k, token, Ids(written));
            run.Stopped? && Ids(run.found) == Matching(log(k)[token..], Ids(written)) && run.token == |log(k)|
  {
    var node := OnePageNode(log, written);
    var cids := Ids(written);
    var start := clock.entry(k);
    OnePageNodeServes(log, written);
    CollectAll(log, written, k, log(k)[token..], cids, []);
    CollectKeepsMatching(node, k, log(k)[token..], cids, [], written);
    var found := Collect(node, k, log(k)[token..], cids, []).value;
    assert Ids(found) == Matching(log(k)[token..], cids);
    assert ReadRun(node, clock, start, timeoutMs, k + 1, |log(k)|, cids, found) == Stopped(found, |log(k)|, k + 1);
  }

  lemma {:induction false} MatchingNothing(ids: seq<string>)
    ensures Matching(ids, []) == []
  {
    if ids != [] { MatchingNothing(ids[1..]); }
  }

  lemma RepetitionReadsBackWrong(log: nat -> seq<string>, clock: Clock, timeoutMs: int, k: nat, token: nat,
                                 written: seq<Event>)
    requires Ticks(clock) && AppendOnly(log) && Distinct(Ids(written)) && clock.poll(k) - clock.entry(k) <= timeoutMs
    requires token <= |log(k)| && |Matching(log(k)[token..], Ids(written))| >= |written|
    requires !Distinct(Matching(log(k)[token..], Ids(written)))
    ensures !ReadsBack(OnePageNode(log, written), clock, timeoutMs, k, token, written)
  {
    if written == [] {
      MatchingNothing(log(k)[token..]);
      assert false;
    }
    var run := ReadFrom(OnePageNode(log, written), clock, timeoutMs, k, token, Ids(written));
    OnePageRun(log, written, clock, timeoutMs, k, token);
    SortIsCanonical(written, run.found);
    if multiset(run.found) == multiset(written) {
      DistinctIdsPermute(written, run.found);
      assert false;
    }
  }

  /**
   The exact condition, on the log alone: every node that serves the log, however it cuts it into pages,
   reads back the written events from the token, whenever it is read, if and only if the log never holds
   the count past the token with an expected id in it twice.
   */
  lemma ReadBackIffCountsOnce(log: nat -> seq<string>, clock: Clock, timeoutMs: int, token: nat, written: seq<Event>)
    requires Ticks(clock) && AppendOnly(log) && Distinct(Ids(written))
    requires forall k: nat :: clock.poll(k) - clock.entry(k) <= timeoutMs
    ensures (forall node: Node, k: nat | ServesLog(node, log) && Faithful(node, written) && token <= |log(k)| ::
               ReadsBack(node, clock, timeoutMs, k, token, written))
       <==> CountsOnce(log, token, Ids(written))
  {
    var cids := Ids(written);
    if CountsOnce(log, token, cids) {
      forall node: Node, k: nat | ServesLog(node, log) && Faithful(node, written) && token <= |log(k)|
        ensures ReadsBack(node, clock, timeoutMs, k, token, written)
      {
        CountsOnceReadsBack(node, log, clock, timeoutMs, k, token, written);
      }
    } else {
      var k: nat :| token <= |log(k)| && |Matching(log(k)[token..], cids)| >= |cids|
                    && !Distinct(Matching(log(k)[token..], cids));
      OnePageNodeServes(log, written);
      RepetitionReadsBackWrong(log, clock, timeoutMs, k, token, written);
    }
  }

  /** For a log that comes to hold every expected id, that is at-most-once delivery itself. */
  lemma CountsOnceIsDeliversOnce(log: nat -> seq<string>, token: nat, cids: seq<string>, full: nat)
    requires AppendOnly(log) && Distinct(cids)
    requires token <= |log(full)| && forall id | id in cids :: id in log(full)[token..]
    ensures CountsOnce(log, token, cids) <==> DeliversOnce(log, token, cids)
  {
    if CountsOnce(log, token, cids) {
      forall k: nat | token <= |log(k)| ensures Distinct(Matching(log(k)[token..], cids)) {
        var late := if k < full then full else k;
        assert log(full) <= log(late) && log(k) <= log(late);
        HoldsCount(log(full)[token..], log(late)[token..], cids);
        assert log(late)[token..] == log(k)[token..] + log(late)[|log(k)|..];
        MatchingConcat(log(k)[token..], log(late)[|log(k)|..], cids);
        DistinctPrefix(Matching(log(k)[token..], cids), Matching(log(late)[|log(k)|..], cids));
      }
    }
  }

  lemma HoldsCount(early: seq<string>, late: seq<string>, cids: seq<string>)
    requires early <= late && Distinct(cids) && forall id | id in cids :: id in early
    ensures |Matching(late, cids)| >= |cids|
  {
    forall id | id in cids ensures id in ToSet(Matching(late, cids)) {
      assert late == early + late[|early|..];
      MatchingMember(late, cids, id);
    }
    SubsetSize(ToSet(cids), ToSet(Matching(late, cids)));
    SetSize(cids);
    SetSize(Matching(late, cids));
  }

  const WRITTEN := [Event("a", ""), Event("b", "")]

  function DuplicatingLog(): nat -> seq<string> { (k: nat) => ["a", "a"] }

  /** The count alone is not completeness: a log with one event twice satisfies it with another event missing. */
  lemma DuplicateDeliverySatisfiesCount(clock: Clock)
    requires Ticks(clock) && clock.poll(0) - clock.entry(0) <= READ_EVENTS_TIMEOUT_MS
    ensures var node := OnePageNode(DuplicatingLog(), WRITTEN);
            var run := ReadFrom(node, clock, READ_EVENTS_TIMEOUT_MS, 0, 0, Ids(WRITTEN));
            && Distinct(Ids(WRITTEN)) && ServesLog(node, DuplicatingLog()) && Faithful(node, WRITTEN)
            && run.Stopped? && |run.found| == |WRITTEN|
            && SortModelEvents(run.found) != SortModelEvents(WRITTEN)
  {
    DuplicatesMatch();
    OnePageNodeServes(DuplicatingLog(), WRITTEN);
    OnePageRun(DuplicatingLog(), WRITTEN, clock, READ_EVENTS_TIMEOUT_MS, 0, 0);
    RepetitionReadsBackWrong(DuplicatingLog(), clock, READ_EVENTS_TIMEOUT_MS, 0, 0, WRITTEN);
  }

  lemma DuplicatesMatch()
    ensures Ids(WRITTEN) == ["a", "b"]
    ensures DuplicatingLog()(0)[0..] == ["a", "a"] && Matching(["a", "a"], ["a", "b"]) == ["a", "a"]
  {
    assert ["a", "a"][1..] == ["a"] && ["a"][1..] == [];
    assert Matching(["a"], ["a", "b"]) == ["a"];
  }

  // ----- progress -----

  /** A read that stops short has not consumed the log it could see when it started, unless an id is missing there. */
  lemma {:induction false} ProgressBound(node: Node, log: nat -> seq<string>, clock: Clock, start: int, timeoutMs: int,
                                         k: nat, token: nat, cids: seq<string>, found: seq<Event>, goal: nat)
    requires Ticks(clock) && ServesLog(node, log) && Eager(node, log)
    requires token <= |log(k)| && goal <= |log(k)|
    ensures var run := ReadRun(node, clock, start, timeoutMs, k, token, cids, found);
            run.Stopped? && |run.found| < |cids| ==>
              run.tick > k && (run.token >= goal || run.token >= token + (run.tick - 1 - k))
    decreases start + timeoutMs - clock.poll(k)
  {
    assert log(k) <= log(k + 1);
    if |found| < |cids| && clock.poll(k) - start <= timeoutMs && node.feed(k, token).status == 200 {
      var reply := node.feed(k, token);
      var c := Collect(node, k, reply.events, cids, found);
      if c.Some? {
        ProgressBound(node, log, clock, start, timeoutMs, k + 1, reply.resumeToken, cids, c.value, goal);
        TokenAdvances(node, log, clock, start, timeoutMs, k + 1, reply.resumeToken, cids, c.value);
      }
    }
  }

  lemma {:induction false} TokenAdvances(node: Node, log: nat -> seq<string>, clock: Clock, start: int, timeoutMs: int,
                                         k: nat, token: nat, cids: seq<string>, found: seq<Event>)
    requires Ticks(clock) && ServesLog(node, log) && token <= |log(k)|
    ensures var run := ReadRun(node, clock, start, timeoutMs, k, token, cids, found);
            run.Stopped? ==> run.token >= token
    decreases start + timeoutMs - clock.poll(k)
  {
    assert log(k) <= log(k + 1);
    if |found| < |cids| && clock.poll(k) - start <= timeoutMs && node.feed(k, token).status == 200 {
      var reply := node.feed(k, token);
      var c := Collect(node, k, reply.events, cids, found);
      if c.Some? {
        TokenAdvances(node, log, clock, start, timeoutMs, k + 1, reply.resumeToken, cids, c.value);
      }
    }
  }
}
