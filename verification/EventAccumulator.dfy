/**
 The accumulator of server-sent events and its completeness test (suite/src/utils/common.ts).
 */
module EventAccumulator {
  import opened Sets

  /** Everything heard so far. */
  function Heard<D, T(==)>(messages: seq<D>, parse: D -> T): set<T> {
    set i | 0 <= i < |messages| :: parse(messages[i])
  }

  class Accumulator<D, T(==)> {
    const parse: D -> T
    var allEvents: set<T>

    constructor (parse: D -> T)
      ensures this.parse == parse && allEvents == {}
    {
      this.parse := parse;
      allEvents := {};
    }

    method OnMessage(data: D)
      modifies this
      ensures allEvents == old(allEvents) + {parse(data)}
    {
      var parsed := parse(data);
      allEvents := allEvents + {parsed};
    }

    /** The event source delivers messages one after another. */
    method Listen(messages: seq<D>)
      modifies this
      ensures allEvents == old(allEvents) + Heard(messages, parse)
    {
      for i := 0 to |messages|
        invariant allEvents == old(allEvents) + Heard(messages[..i], parse)
      {
        OnMessage(messages[i]);
        HeardGrows(messages[..i], messages[i], parse);
        assert messages[..i + 1] == messages[..i] + [messages[i]];
      }
      assert messages[..|messages|] == messages;
    }

    /** The test that the wait polls: the expected events among those heard are as many as are expected. */
    method ReceivedAll(expected: set<T>) returns (all: bool)
      ensures all <==> expected <= allEvents
    {
      var received := set e | e in allEvents && e in expected;
      SizeTestIsSubset(allEvents, expected);
      all := |received| == |expected|;
    }
  }

  /** Counting is a completeness test for sets. */
  lemma SizeTestIsSubset<T>(heard: set<T>, expected: set<T>)
    ensures |set e | e in heard && e in expected| == |expected| <==> expected <= heard
  {
    var received := set e | e in heard && e in expected;
    SubsetSize(received, expected);
    if expected <= heard {
      assert received == expected;
    }
  }

  /** Each message adds what it parses to, as the listener does. */
  lemma HeardGrows<D, T>(messages: seq<D>, data: D, parse: D -> T)
    ensures Heard(messages + [data], parse) == Heard(messages, parse) + {parse(data)}
  {
    var all := messages + [data];
    assert all[|messages|] == data;
    forall e | e in Heard(messages, parse) ensures e in Heard(all, parse) {
      var i :| 0 <= i < |messages| && parse(messages[i]) == e;
      assert all[i] == messages[i];
    }
    forall e | e in Heard(all, parse) ensures e in Heard(messages, parse) + {parse(data)} {
      var i :| 0 <= i < |all| && parse(all[i]) == e;
    }
  }

  /** The wait polls at once and after every batch of messages, until all is received; false is its timeout. */
  method WaitForEvents<D, T(==)>(batches: seq<seq<D>>, parse: D -> T, expected: set<T>) returns (complete: bool)
    ensures complete <==> expected <= Heard(Delivered(batches, |batches|), parse)
    ensures complete <==> forall e | e in expected :: exists i: nat, j: nat :: HeardAt(batches, parse, e, i, j)
  {
    forall e | e in expected
      ensures e in Heard(Delivered(batches, |batches|), parse) <==>
                exists i: nat, j: nat :: HeardAt(batches, parse, e, i, j)
    {
      HeardFromBatches(batches, |batches|, parse, e);
    }
    var accumulator := new Accumulator(parse);
    complete := accumulator.ReceivedAll(expected);
    for n := 0 to |batches|
      invariant accumulator.parse == parse && accumulator.allEvents == Heard(Delivered(batches, n), parse)
      invariant complete <==> expected <= accumulator.allEvents
    {
      if complete {
        DeliveredGrows(batches, n, parse);
        return;
      }
      accumulator.Listen(batches[n]);
      HeardConcat(Delivered(batches, n), batches[n], parse);
      complete := accumulator.ReceivedAll(expected);
    }
  }

  /** The messages of the first n batches. */
  function Delivered<D>(batches: seq<seq<D>>, n: nat): seq<D>
    requires n <= |batches|
  {
    if n == 0 then [] else Delivered(batches, n - 1) + batches[n - 1]
  }

  /** Message j of batch i parses to this event. */
  ghost predicate HeardAt<D, T>(batches: seq<seq<D>>, parse: D -> T, event: T, i: nat, j: nat) {
    i < |batches| && j < |batches[i]| && parse(batches[i][j]) == event
  }

  /** What is heard is what some message of some batch parses to. */
  lemma {:induction false} HeardFromBatches<D, T>(batches: seq<seq<D>>, n: nat, parse: D -> T, event: T)
    requires n <= |batches|
    ensures event in Heard(Delivered(batches, n), parse) <==>
              exists i: nat, j: nat :: i < n && HeardAt(batches, parse, event, i, j)
  {
    if n > 0 {
      HeardFromBatches(batches, n - 1, parse, event);
      HeardConcat(Delivered(batches, n - 1), batches[n - 1], parse);
      if event in Heard(batches[n - 1], parse) {
        var j :| 0 <= j < |batches[n - 1]| && parse(batches[n - 1][j]) == event;
        assert HeardAt(batches, parse, event, n - 1, j);
      }
    }
  }

  lemma HeardConcat<D, T>(a: seq<D>, b: seq<D>, parse: D -> T)
    ensures Heard(a + b, parse) == Heard(a, parse) + Heard(b, parse)
  {
    forall e | e in Heard(a, parse) ensures e in Heard(a + b, parse) {
      var i :| 0 <= i < |a| && parse(a[i]) == e;
      assert (a + b)[i] == a[i];
    }
    forall e | e in Heard(b, parse) ensures e in Heard(a + b, parse) {
      var i :| 0 <= i < |b| && parse(b[i]) == e;
      assert (a + b)[|a| + i] == b[i];
    }
  }

  /** Once the test has passed it passes for ever: messages only add to what was heard. */
  lemma StaysComplete<D, T>(messages: seq<D>, more: seq<D>, parse: D -> T, expected: set<T>)
    requires expected <= Heard(messages, parse)
    ensures expected <= Heard(messages + more, parse)
  {
    HeardConcat(messages, more, parse);
  }

  /** What was heard stays heard, however many batches follow. */
  lemma {:induction false} DeliveredGrows<D, T>(batches: seq<seq<D>>, n: nat, parse: D -> T)
    requires n <= |batches|
    ensures Heard(Delivered(batches, n), parse) <= Heard(Delivered(batches, |batches|), parse)
    decreases |batches| - n
  {
    if n < |batches| {
      HeardConcat(Delivered(batches, n), batches[n], parse);
      DeliveredGrows(batches, n + 1, parse);
    }
  }
}
