/**
 How a read ends, poll by poll (suite/src/__tests__/correctness/fast/sync-events.test.ts).

 The state of a read after n polls is defined without its end conditions; a read ends at the first poll
 at which it has found enough, is too late, or is refused an answer.
 */
module ReadRuns {
  import opened Wrappers
  import opened ModelEvents
  import opened FeedReader

  /** The events that a page adds when every fetch is answered. */
  function Kept(node: Node, k: nat, ids: seq<string>, cids: seq<string>): seq<Event> {
    if ids == [] then []
    else
      var event := node.fetch(k, ids[0]).event;
      (if event.id in cids then [event] else []) + Kept(node, k, ids[1..], cids)
  }

  /** Poll k from this token is answered, and so is every fetch of an event on its page. */
  ghost predicate Answered(node: Node, k: nat, token: nat) {
    && node.feed(k, token).status == 200
    && forall id | id in node.feed(k, token).events :: node.fetch(k, id).status == 200
  }

  lemma {:induction false} CollectIs(node: Node, k: nat, ids: seq<string>, cids: seq<string>, found: seq<Event>)
    ensures Collect(node, k, ids, cids, found).Some? <==> forall id | id in ids :: node.fetch(k, id).status == 200
    ensures Collect(node, k, ids, cids, found).Some? ==>
              Collect(node, k, ids, cids, found).value == found + Kept(node, k, ids, cids)
  {
    if ids == [] {
      assert found + [] == found;
    } else {
      assert ids == [ids[0]] + ids[1..];
      var event := node.fetch(k, ids[0]).event;
      var one := if event.id in cids then [event] else [];
      CollectIs(node, k, ids[1..], cids, found + one);
      assert (if event.id in cids then found + [event] else found) == found + one;
      assert found + one + Kept(node, k, ids[1..], cids) == found + (one + Kept(node, k, ids[1..], cids));
    }
  }

  /** The read: the node and the clock, when and where it starts, and what it waits for. */
  datatype Read = Read(node: Node, clock: Clock, timeoutMs: int, k: nat, token: nat, cids: seq<string>)

  datatype Cursor = Cursor(token: nat, found: seq<Event>)

  /** The token and the events after n polls. */
  function CursorAfter(r: Read, n: nat): Cursor {
    if n == 0 then Cursor(r.token, [])
    else
      var c := CursorAfter(r, n - 1);
      var reply := r.node.feed(r.k + n - 1, c.token);
      Cursor(reply.resumeToken, c.found + Kept(r.node, r.k + n - 1, reply.events, r.cids))
  }

  ghost predicate HasEnough(r: Read, n: nat) {
    |CursorAfter(r, n).found| >= |r.cids|
  }

  ghost predicate IsLate(r: Read, n: nat) {
    r.clock.poll(r.k + n) - r.clock.entry(r.k) > r.timeoutMs
  }

  ghost predicate IsAnswered(r: Read, n: nat) {
    Answered(r.node, r.k + n, CursorAfter(r, n).token)
  }

  /** After n polls the read makes another one, and it is answered. */
  ghost predicate GoesOn(r: Read, n: nat) {
    !HasEnough(r, n) && !IsLate(r, n) && IsAnswered(r, n)
  }

  /** The read gets as far as having made n polls. */
  ghost predicate Gets(r: Read, n: nat) {
    forall m: nat | m < n :: GoesOn(r, m)
  }

  ghost function RunOf(r: Read): Run
    requires Ticks(r.clock)
  {
    ReadFrom(r.node, r.clock, r.timeoutMs, r.k, r.token, r.cids)
  }

  ghost function RunFrom(r: Read, n: nat): Run
    requires Ticks(r.clock)
  {
    var c := CursorAfter(r, n);
    ReadRun(r.node, r.clock, r.clock.entry(r.k), r.timeoutMs, r.k + n, c.token, r.cids, c.found)
  }

  lemma GoOn(r: Read, n: nat)
    requires Ticks(r.clock) && GoesOn(r, n)
    ensures RunFrom(r, n) == RunFrom(r, n + 1)
  {
    var c := CursorAfter(r, n);
    CollectIs(r.node, r.k + n, r.node.feed(r.k + n, c.token).events, r.cids, c.found);
  }

  lemma {:induction false} GetsThere(r: Read, n: nat)
    requires Ticks(r.clock) && Gets(r, n)
    ensures RunOf(r) == RunFrom(r, n)
  {
    if n > 0 {
      GetsThere(r, n - 1);
      assert GoesOn(r, n - 1);
      GoOn(r, n - 1);
    }
  }

  /** A read that gets to its n-th poll and no further ends there, in one of three ways. */
  lemma EndsAt(r: Read, n: nat)
    requires Ticks(r.clock) && Gets(r, n) && !GoesOn(r, n)
    ensures var c := CursorAfter(r, n);
            RunOf(r) ==
              if HasEnough(r, n) then Stopped(c.found, c.token, r.k + n)
              else if IsLate(r, n) then Stopped(c.found, c.token, r.k + n + 1)
              else Threw(r.k + n + 1)
  {
    GetsThere(r, n);
    var c := CursorAfter(r, n);
    CollectIs(r.node, r.k + n, r.node.feed(r.k + n, c.token).events, r.cids, c.found);
  }

  lemma {:induction false} PollsAdvance(clock: Clock, k: nat, n: nat)
    requires Ticks(clock)
    ensures clock.poll(k + n) >= clock.poll(k) + n
  {
    if n > 0 {
      PollsAdvance(clock, k, n - 1);
      assert clock.poll(k + n - 1) < clock.poll(k + n);
    }
  }

  /** Every read ends. */
  lemma {:induction false} LastPoll(r: Read, n: nat) returns (last: nat)
    requires Ticks(r.clock) && Gets(r, n)
    ensures Gets(r, last) && !GoesOn(r, last)
    decreases r.clock.entry(r.k) + r.timeoutMs - r.clock.poll(r.k + n)
  {
    if GoesOn(r, n) {
      assert r.clock.poll(r.k + n) < r.clock.poll(r.k + (n + 1));
      last := LastPoll(r, n + 1);
    } else {
      last := n;
    }
  }

  lemma LastIsUnique(r: Read, m: nat, n: nat)
    requires Gets(r, m) && !GoesOn(r, m) && Gets(r, n) && !GoesOn(r, n)
    ensures m == n
  {
  }

  /** The read makes its n-th poll: it got there, has not found enough and is not late. */
  ghost predicate MakesPoll(r: Read, n: nat) {
    Gets(r, n) && !HasEnough(r, n) && !IsLate(r, n)
  }

  /**
   A read throws if and only if some poll that it makes, or some fetch for the page of that poll, is
   answered with another status than 200. It stops for no other reason than having found enough or
   being late.
   */
  lemma ThrowsIffRefused(r: Read)
    requires Ticks(r.clock)
    ensures RunOf(r).Threw? <==> exists n: nat :: MakesPoll(r, n) && !IsAnswered(r, n)
    ensures RunOf(r).Stopped? <==> exists n: nat :: Gets(r, n) && (HasEnough(r, n) || IsLate(r, n))
  {
    var last := LastPoll(r, 0);
    EndsAt(r, last);
    forall n: nat | MakesPoll(r, n) && !IsAnswered(r, n) ensures n == last { LastIsUnique(r, n, last); }
    forall n: nat | Gets(r, n) && (HasEnough(r, n) || IsLate(r, n)) ensures n == last { LastIsUnique(r, n, last); }
    if RunOf(r).Threw? {
      assert MakesPoll(r, last) && !IsAnswered(r, last);
    } else {
      assert Gets(r, last) && (HasEnough(r, last) || IsLate(r, last));
    }
  }

  /** The node never refuses anything. */
  ghost predicate AlwaysAnswers(node: Node) {
    forall k: nat, token: nat :: Answered(node, k, token)
  }

  /** Such a node never makes a read throw, however many of its pages are empty. */
  lemma AnsweredReadStops(r: Read)
    requires Ticks(r.clock) && AlwaysAnswers(r.node)
    ensures RunOf(r).Stopped?
  {
    ThrowsIffRefused(r);
  }
}
