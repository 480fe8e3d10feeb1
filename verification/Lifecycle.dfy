/**
 Garbage collection, and the life of the request table over any sequence of serialised runs
 (suite/src/__tests__/correctness/fast/garbage-collect.test.ts, anchor.test.ts, update.test.ts).
 */
module Lifecycle {
  import opened Wrappers
  import opened DynamoScan
  import opened RequestTable
  import opened AnchorRuns

  // ----- garbage collection -----

  /** The pins of the i-th stream removed on node after node; true when a removal threw. */
  function Unpinned(pins: seq<set<string>>, id: string, rm: (nat, nat) -> Call, i: nat, node: nat)
    : (seq<set<string>>, bool)
    decreases |pins| - node
  {
    if node >= |pins| then (pins, false)
    else
      var next := if rm(i, node).Applies() then pins[node := pins[node] - {id}] else pins;
      if rm(i, node).Throws() then (next, true) else Unpinned(next, id, rm, i, node + 1)
  }

  datatype GcEnd = GcEnd(rows: Records, pins: seq<set<string>>, settled: nat, threw: bool)

  /** rm(i, node) and del(i) say how the removals for the i-th request would go. */
  function GcRun(rows: Records, pins: seq<set<string>>, reqs: seq<Row>, rm: (nat, nat) -> Call, del: nat -> Call,
                 i: nat): GcEnd
    decreases |reqs| - i
  {
    if i >= |reqs| then GcEnd(rows, pins, i, false)
    else
      var id := reqs[i].streamId;
      var (next, threw) := Unpinned(pins, id, rm, i, 0);
      if threw then GcEnd(rows, next, i, true)
      else
        var deleted := After(rows, del(i), Deleted(rows, id));
        if del(i).Throws() then GcEnd(deleted, next, i, true)
        else GcRun(deleted, next, reqs, rm, del, i + 1)
  }

  method CollectGarbage(table: Table, connections: array<set<string>>, expiredReqs: seq<Row>, rm: (nat, nat) -> Call,
                        del: nat -> Call)
    returns (settled: nat, threw: bool)
    modifies table, connections
    ensures GcEnd(table.rows, connections[..], settled, threw)
            == GcRun(old(table.rows), old(connections[..]), expiredReqs, rm, del, 0)
  {
    for i := 0 to |expiredReqs|
      invariant GcRun(old(table.rows), old(connections[..]), expiredReqs, rm, del, 0)
             == GcRun(table.rows, connections[..], expiredReqs, rm, del, i)
    {
      var streamId := expiredReqs[i].streamId;
      ghost var before, rowsBefore := connections[..], table.rows;
      for node := 0 to connections.Length
        invariant table.rows == rowsBefore
        invariant Unpinned(before, streamId, rm, i, 0) == Unpinned(connections[..], streamId, rm, i, node)
      {
        ghost var pins := connections[..];
        if rm(i, node).Applies() {
          connections[node] := connections[node] - {streamId};
          assert connections[..] == pins[node := pins[node] - {streamId}];
        }
        if rm(i, node).Throws() {
          return i, true;
        }
      }
      threw := table.DeleteStreamReq(streamId, del(i));
      if threw {
        return i, true;
      }
    }
    return |expiredReqs|, false;
  }

  ghost predicate PinnedNowhere(pins: seq<set<string>>, id: string) {
    forall c | 0 <= c < |pins| :: id !in pins[c]
  }

  lemma {:induction false} UnpinnedOnlyRemoves(pins: seq<set<string>>, id: string, rm: (nat, nat) -> Call, i: nat,
                                               node: nat)
    requires node <= |pins|
    ensures var (next, threw) := Unpinned(pins, id, rm, i, node);
            && |next| == |pins|
            && (forall c | 0 <= c < |pins| :: pins[c] - {id} <= next[c] <= pins[c])
            && (!threw ==> forall c | node <= c < |pins| :: id !in next[c])
    decreases |pins| - node
  {
    if node < |pins| {
      var next := if rm(i, node).Applies() then pins[node := pins[node] - {id}] else pins;
      if !rm(i, node).Throws() { UnpinnedOnlyRemoves(next, id, rm, i, node + 1); }
    }
  }

  /** Unpinning throws exactly if a call does, and takes effect on the nodes up to that one where the call did. */
  lemma {:induction false} UnpinnedExact(pins: seq<set<string>>, id: string, rm: (nat, nat) -> Call, i: nat, node: nat)
    requires node <= |pins|
    ensures var (next, threw) := Unpinned(pins, id, rm, i, node);
            && (threw <==> exists c | node <= c < |pins| :: rm(i, c).Throws())
            && |next| == |pins|
            && forall c | 0 <= c < |pins| ::
                 next[c] == if node <= c && UnpinsAt(rm, i, node, c) then pins[c] - {id} else pins[c]
    decreases |pins| - node
  {
    if node < |pins| {
      var next := if rm(i, node).Applies() then pins[node := pins[node] - {id}] else pins;
      if !rm(i, node).Throws() {
        UnpinnedExact(next, id, rm, i, node + 1);
        forall c | node < c < |pins| ensures UnpinsAt(rm, i, node, c) <==> UnpinsAt(rm, i, node + 1, c) {}
      }
    }
  }

  /** The call for node c is reached, as none before it throws, and takes effect. */
  ghost predicate UnpinsAt(rm: (nat, nat) -> Call, i: nat, from: nat, c: nat) {
    rm(i, c).Applies() && forall d | from <= d < c :: !rm(i, d).Throws()
  }

  /** Some call for the j-th request throws. */
  ghost predicate CallsThrow(rm: (nat, nat) -> Call, del: nat -> Call, nodes: nat, j: nat) {
    del(j).Throws() || exists c | 0 <= c < nodes :: rm(j, c).Throws()
  }

  /** The delete for the j-th request is reached and takes effect. */
  ghost predicate DeletesFor(rm: (nat, nat) -> Call, del: nat -> Call, nodes: nat, j: nat) {
    del(j).Applies() && forall c | 0 <= c < nodes :: !rm(j, c).Throws()
  }

  /** A collection throws if and only if one of its calls does, and stops at the first request with such a call. */
  lemma {:induction false} ThrowsIffCallThrows(rows: Records, pins: seq<set<string>>, reqs: seq<Row>,
                                               rm: (nat, nat) -> Call, del: nat -> Call, i: nat)
    requires i <= |reqs|
    ensures var end := GcRun(rows, pins, reqs, rm, del, i);
            && i <= end.settled <= |reqs|
            && (end.threw <==> exists j | i <= j < |reqs| :: CallsThrow(rm, del, |pins|, j))
            && (forall j | i <= j < end.settled :: !CallsThrow(rm, del, |pins|, j))
            && (end.threw <==> end.settled < |reqs|)
            && (end.threw ==> CallsThrow(rm, del, |pins|, end.settled))
    decreases |reqs| - i
  {
    if i < |reqs| {
      UnpinnedExact(pins, reqs[i].streamId, rm, i, 0);
      if !CallsThrow(rm, del, |pins|, i) {
        var next := Unpinned(pins, reqs[i].streamId, rm, i, 0).0;
        ThrowsIffCallThrows(Deleted(rows, reqs[i].streamId), next, reqs, rm, del, i + 1);
      }
    }
  }

  /** Request j is for this stream, the collection gets to it, and its delete takes effect. */
  ghost predicate Collects(reqs: seq<Row>, rm: (nat, nat) -> Call, del: nat -> Call, nodes: nat, last: nat, j: nat,
                           id: string)
  {
    j <= last && j < |reqs| && reqs[j].streamId == id && DeletesFor(rm, del, nodes, j)
  }

  /** Request j is for this stream, the collection gets to it, and its removal from node c takes effect. */
  ghost predicate Unpins(reqs: seq<Row>, rm: (nat, nat) -> Call, last: nat, j: nat, c: nat, id: string) {
    j <= last && j < |reqs| && reqs[j].streamId == id && UnpinsAt(rm, j, 0, c)
  }

  /**
   Exactly what a collection does to the table, wherever it aborts: a record goes if and only if the delete
   for a request for it is reached and takes effect.
   */
  lemma {:induction false} RecordsExact(rows: Records, pins: seq<set<string>>, reqs: seq<Row>,
                                        rm: (nat, nat) -> Call, del: nat -> Call, i: nat, id: string)
    requires i <= |reqs|
    ensures var end := GcRun(rows, pins, reqs, rm, del, i);
            && (id in end.rows <==>
                  id in rows && !exists j: nat :: i <= j && Collects(reqs, rm, del, |pins|, end.settled, j, id))
            && (id in end.rows ==> end.rows[id] == rows[id])
    decreases |reqs| - i
  {
    if i < |reqs| {
      UnpinnedExact(pins, reqs[i].streamId, rm, i, 0);
      var next := Unpinned(pins, reqs[i].streamId, rm, i, 0).0;
      ThrowsIffCallThrows(rows, pins, reqs, rm, del, i);
      if !CallsThrow(rm, del, |pins|, i) {
        RecordsExact(Deleted(rows, reqs[i].streamId), next, reqs, rm, del, i + 1, id);
      }
      var last := GcRun(rows, pins, reqs, rm, del, i).settled;
      assert (exists j: nat :: i <= j && Collects(reqs, rm, del, |pins|, last, j, id)) <==>
               || Collects(reqs, rm, del, |pins|, last, i, id)
               || exists j: nat :: i + 1 <= j && Collects(reqs, rm, del, |pins|, last, j, id);
    }
  }

  /** And to the pins: one goes if and only if its removal is reached and takes effect. */
  lemma {:induction false} PinsExact(rows: Records, pins: seq<set<string>>, reqs: seq<Row>,
                                     rm: (nat, nat) -> Call, del: nat -> Call, i: nat, c: nat, id: string)
    requires i <= |reqs| && c < |pins|
    ensures var end := GcRun(rows, pins, reqs, rm, del, i);
            && |end.pins| == |pins|
            && (id in end.pins[c] <==>
                  id in pins[c] && !exists j: nat :: i <= j && Unpins(reqs, rm, end.settled, j, c, id))
    decreases |reqs| - i
  {
    if i < |reqs| {
      UnpinnedExact(pins, reqs[i].streamId, rm, i, 0);
      var next := Unpinned(pins, reqs[i].streamId, rm, i, 0).0;
      ThrowsIffCallThrows(rows, pins, reqs, rm, del, i);
      if !CallsThrow(rm, del, |pins|, i) {
        PinsExact(Deleted(rows, reqs[i].streamId), next, reqs, rm, del, i + 1, c, id);
      }
      var last := GcRun(rows, pins, reqs, rm, del, i).settled;
      assert (exists j: nat :: i <= j && Unpins(reqs, rm, last, j, c, id)) <==>
               || Unpins(reqs, rm, last, i, c, id)
               || exists j: nat :: i + 1 <= j && Unpins(reqs, rm, last, j, c, id);
    }
  }

  /**
   At whatever point a collection aborts, a record it deleted belongs to one of its requests and its
   stream was unpinned on every node first; the remaining records are as they were, and no pin of a
   stream without a request is removed.
   */
  lemma {:induction false} DeletedWasUnpinned(rows: Records, pins: seq<set<string>>, reqs: seq<Row>,
                                              rm: (nat, nat) -> Call, del: nat -> Call, i: nat, id: string)
    requires i <= |reqs|
    ensures var end := GcRun(rows, pins, reqs, rm, del, i);
            && i <= end.settled <= |reqs| && |end.pins| == |pins|
            && (id in rows && id !in end.rows ==>
                  && PinnedNowhere(end.pins, id)
                  && exists j | i <= j <= end.settled && j < |reqs| :: reqs[j].streamId == id)
            && (id in end.rows ==> id in rows && end.rows[id] == rows[id])
            && (forall c | 0 <= c < |pins| :: end.pins[c] <= pins[c])
            && ((forall j | i <= j < |reqs| :: reqs[j].streamId != id) ==>
                  forall c | 0 <= c < |pins| :: id in pins[c] ==> id in end.pins[c])
    decreases |reqs| - i
  {
    if i < |reqs| {
      UnpinnedOnlyRemoves(pins, reqs[i].streamId, rm, i, 0);
      var (next, threw) := Unpinned(pins, reqs[i].streamId, rm, i, 0);
      if !threw {
        var deleted := After(rows, del(i), Deleted(rows, reqs[i].streamId));
        if !del(i).Throws() {
          DeletedWasUnpinned(deleted, next, reqs, rm, del, i + 1, id);
        }
        assert id in rows && id !in deleted ==> reqs[i].streamId == id;
      }
    }
  }

  /** However a collection ends, the requests before the one it stopped at are gone and pinned nowhere. */
  lemma {:induction false} CollectionSettlesPrefix(rows: Records, pins: seq<set<string>>, reqs: seq<Row>,
                                                   rm: (nat, nat) -> Call, del: nat -> Call, i: nat, j: nat)
    requires i <= j < |reqs|
    ensures var end := GcRun(rows, pins, reqs, rm, del, i);
            j < end.settled ==> reqs[j].streamId !in end.rows && PinnedNowhere(end.pins, reqs[j].streamId)
    decreases |reqs| - i
  {
    UnpinnedOnlyRemoves(pins, reqs[i].streamId, rm, i, 0);
    var (next, threw) := Unpinned(pins, reqs[i].streamId, rm, i, 0);
    if !threw && !del(i).Throws() {
      var deleted := Deleted(rows, reqs[i].streamId);
      if i < j {
        CollectionSettlesPrefix(deleted, next, reqs, rm, del, i + 1, j);
      } else {
        DeletedWasUnpinned(deleted, next, reqs, rm, del, i + 1, reqs[i].streamId);
      }
    }
  }

  /** And a stream with no request up to that one keeps its record and all its pins. */
  lemma {:induction false} CollectionFrame(rows: Records, pins: seq<set<string>>, reqs: seq<Row>,
                                           rm: (nat, nat) -> Call, del: nat -> Call, i: nat, id: string)
    requires i <= |reqs|
    requires forall j | i <= j <= GcRun(rows, pins, reqs, rm, del, i).settled && j < |reqs| :: reqs[j].streamId != id
    ensures var end := GcRun(rows, pins, reqs, rm, del, i);
            && (id in end.rows <==> id in rows) && (id in rows ==> end.rows[id] == rows[id])
            && |end.pins| == |pins| && forall c | 0 <= c < |pins| :: id in end.pins[c] <==> id in pins[c]
    decreases |reqs| - i
  {
    if i < |reqs| {
      DeletedWasUnpinned(rows, pins, reqs, rm, del, i, id);
      UnpinnedOnlyRemoves(pins, reqs[i].streamId, rm, i, 0);
      var (next, threw) := Unpinned(pins, reqs[i].streamId, rm, i, 0);
      if !threw && !del(i).Throws() {
        CollectionFrame(Deleted(rows, reqs[i].streamId), next, reqs, rm, del, i + 1, id);
      }
    }
  }

  /**
   A collection of whose calls none throws ends normally, deletes the records of all its requests, whether
   or not they were pinned, and only those, and leaves them pinned nowhere.
   */
  lemma {:induction false} CollectionIsComplete(rows: Records, pins: seq<set<string>>, reqs: seq<Row>,
                                                rm: (nat, nat) -> Call, del: nat -> Call, i: nat)
    requires i <= |reqs|
    requires forall j | i <= j < |reqs| :: !CallsThrow(rm, del, |pins|, j)
    ensures var end := GcRun(rows, pins, reqs, rm, del, i);
            && !end.threw && end.settled == |reqs|
            && end.rows.Keys == rows.Keys - (set j | i <= j < |reqs| :: reqs[j].streamId)
            && forall j | i <= j < |reqs| :: PinnedNowhere(end.pins, reqs[j].streamId)
    decreases |reqs| - i
  {
    if i < |reqs| {
      var id := reqs[i].streamId;
      UnpinnedOnlyRemoves(pins, id, rm, i, 0);
      UnpinnedExact(pins, id, rm, i, 0);
      assert !CallsThrow(rm, del, |pins|, i);
      var (next, threw) := Unpinned(pins, id, rm, i, 0);
      CollectionIsComplete(Deleted(rows, id), next, reqs, rm, del, i + 1);
      DeletedWasUnpinned(Deleted(rows, id), next, reqs, rm, del, i + 1, id);
      assert (set j | i <= j < |reqs| :: reqs[j].streamId) == {id} + (set j | i + 1 <= j < |reqs| :: reqs[j].streamId);
    }
  }

  /**
   The whole collection: fetch the requests older than the TTL, unpin their streams everywhere, delete
   them. However it ends, a record that is gone was older than the TTL and is pinned on no node; it throws
   if and only if a call does, and otherwise, below the cap, every record older than the TTL is gone.
   */
  method TestGarbageCollection(table: Table, connections: array<set<string>>, scan: (nat, ScanArgs) -> ScanReply,
                               now: int, streamTtl: int, rm: (nat, nat) -> Call, del: nat -> Call,
                               ghost listing: seq<Row>, ghost largest: nat)
    returns (fetched: Result<seq<Row>>, threw: bool)
    requires Lists(listing, table.rows) && ServesTable(scan, listing, IsExpired(now, streamTtl), largest)
    modifies table, connections
    ensures fetched.Err? ==> table.rows == old(table.rows) && connections[..] == old(connections[..])
    ensures forall id | id in old(table.rows) && id !in table.rows ::
              && old(table.rows)[id].creation.Some? && now - old(table.rows)[id].creation.value > streamTtl
              && PinnedNowhere(connections[..], id)
    ensures forall id | id in table.rows :: id in old(table.rows) && table.rows[id] == old(table.rows)[id]
    ensures threw <==> fetched.Ok? && exists j | 0 <= j < |fetched.value| :: CallsThrow(rm, del, connections.Length, j)
    ensures fetched.Ok? && !threw && |fetched.value| < MAX_SCAN_RESULTS && WellFormed(old(table.rows)) ==>
              forall id | id in old(table.rows) :: id !in table.rows <==> IsExpired(now, streamTtl)(old(table.rows)[id])
  {
    ghost var before, pins := table.rows, connections[..];
    fetched := Scan(scan, None, listing, IsExpired(now, streamTtl), largest);
    threw := false;
    if fetched.Ok? {
      var reqs := fetched.value;
      ScanListsRecords(reqs, listing, IsExpired(now, streamTtl), LargestPage(None, largest));
      ThrowsIffCallThrows(before, pins, reqs, rm, del, 0);
      var settled;
      settled, threw := CollectGarbage(table, connections, reqs, rm, del);
      if !threw { CollectionIsComplete(before, pins, reqs, rm, del, 0); }
      forall id
        ensures id in before && id !in table.rows ==>
                  && before[id].creation.Some? && now - before[id].creation.value > streamTtl
                  && PinnedNowhere(connections[..], id)
        ensures id in table.rows ==> id in before && table.rows[id] == before[id]
      {
        DeletedWasUnpinned(before, pins, reqs, rm, del, 0, id);
        if id in before && id !in table.rows {
          var j :| 0 <= j < |reqs| && reqs[j].streamId == id;
          assert reqs[j] in reqs;
        }
      }
      forall id | id in before && IsExpired(now, streamTtl)(before[id]) && !threw && |reqs| < MAX_SCAN_RESULTS
        ensures WellFormed(before) ==> id !in table.rows
      {
        assert before[id] in listing;
        assert before[id] in reqs;
      }
    }
  }

  // ----- any sequence of runs -----

  /** One serialised use of the table, with the time it asked for and everything the environment answered during it. */
  datatype Job =
    | Store(id: string, now: int, streamTtl: int, call: Call)
    | MakeExpired(id: string, now: int, streamTtl: int, call: Call)
    | AnchorCheck(attempt: Attempt)
    | Collection(reqs: seq<Row>, now: int, streamTtl: int, rm: (nat, nat) -> Call, del: nat -> Call)

  datatype World = World(rows: Records, pins: seq<set<string>>)

  function Exec(w: World, job: Job): World {
    match job
    case Store(id, now, ttl, call) => w.(rows := After(w.rows, call, Stored(w.rows, id, now, ttl)))
    case MakeExpired(id, now, ttl, call) => w.(rows := After(w.rows, call, MadeExpired(w.rows, id, now, ttl)))
    case AnchorCheck(attempt) => w.(rows := RunOf(w.rows, attempt).rows)
    case Collection(reqs, _, _, rm, del) =>
      var end := GcRun(w.rows, w.pins, reqs, rm, del, 0);
      World(end.rows, end.pins)
  }

  /** Doing a job changes the table and the pins as that step of the world says. */
  method Perform(table: Table, connections: array<set<string>>, job: Job)
    modifies table, connections
    ensures World(table.rows, connections[..]) == Exec(World(old(table.rows), old(connections[..])), job)
  {
    match job {
      case Store(id, now, streamTtl, call) =>
        var threw := table.StoreStreamReq(id, now, streamTtl, call);
      case MakeExpired(id, now, streamTtl, call) =>
        var threw := table.MakeStreamReqAppearExpired(id, now, streamTtl, call);
      case AnchorCheck(attempt) =>
        var settled, verdict := CheckAnchors(table, attempt.reqs, attempt.checks, attempt.interval);
      case Collection(reqs, _, _, rm, del) =>
        var settled, threw := CollectGarbage(table, connections, reqs, rm, del);
    }
  }

  function ExecAll(w: World, jobs: seq<Job>): World {
    if jobs == [] then w else Exec(ExecAll(w, jobs[..|jobs| - 1]), jobs[|jobs| - 1])
  }

  /** The job is an anchor check that got to a request for this stream and loaded the stream as ANCHORED. */
  ghost predicate Observes(job: Job, id: string) {
    job.AnchorCheck? && exists i | 0 <= i < |job.attempt.reqs| :: ObservesAt(job.attempt, i, id)
  }

  ghost predicate ObservesAt(a: Attempt, i: nat, id: string)
    requires i < |a.reqs|
  {
    && a.reqs[i].streamId == id
    && a.checks(i).load == Some(Anchored)
    && forall j | 0 <= j < i :: Passes(a.reqs[j], a.checks(j), a.interval)
  }

  ghost predicate Stores(job: Job, id: string) {
    job.Store? && job.id == id && job.call.Applies()
  }

  /** Job n observed the stream ANCHORED, and no request for it was stored after that. */
  ghost predicate ObservedAt(jobs: seq<Job>, n: nat, id: string) {
    n < |jobs| && Observes(jobs[n], id) && forall m | n < m < |jobs| :: !Stores(jobs[m], id)
  }

  ghost predicate ObservedSinceStore(jobs: seq<Job>, id: string) {
    exists n: nat :: ObservedAt(jobs, n, id)
  }

  /**
   Lifecycle safety. Starting from an empty table, after any sequence of stores, anchor checks and
   collections, aborted at any point and with any calls failing before or after taking effect, a record
   says it is anchored only if some check observed its stream ANCHORED since it was last stored.
   */
  lemma {:induction false} AnchoredWasObserved(pins: seq<set<string>>, jobs: seq<Job>, id: string)
    ensures var rows := ExecAll(World(map[], pins), jobs).rows;
            id in rows && IsAnchored(rows[id]) ==> ObservedSinceStore(jobs, id)
    decreases |jobs|
  {
    if jobs != [] {
      var n := |jobs| - 1;
      var before := jobs[..n];
      var w := ExecAll(World(map[], pins), before);
      var after := Exec(w, jobs[n]);
      AnchoredWasObserved(pins, before, id);
      if id in after.rows && IsAnchored(after.rows[id]) {
        AnchoredStep(w, jobs[n], id);
        if Observes(jobs[n], id) {
          assert ObservedAt(jobs, n, id);
        } else {
          var k: nat :| ObservedAt(before, k, id);
          forall m | k < m < |jobs| ensures !Stores(jobs[m], id) {
            if m < n { assert jobs[m] == before[m]; }
          }
          assert ObservedAt(jobs, k, id);
        }
      }
    }
  }

  lemma AnchoredStep(w: World, job: Job, id: string)
    requires id in Exec(w, job).rows && IsAnchored(Exec(w, job).rows[id])
    ensures Observes(job, id) || (id in w.rows && IsAnchored(w.rows[id]) && !Stores(job, id))
  {
    match job
    case Store(_, _, _, _) =>
    case MakeExpired(_, _, _, _) =>
    case AnchorCheck(a) =>
      AnchoredOnlyIf(w.rows, a.reqs, a.checks, a.interval, 0, id);
      StopsAtFirstFailure(w.rows, a.reqs, a.checks, a.interval);
      if !(id in w.rows && IsAnchored(w.rows[id])) {
        var end := RunOf(w.rows, a);
        var j :| 0 <= j <= end.settled && j < |a.reqs| && a.reqs[j].streamId == id
            && a.checks(j).load == Some(Anchored);
        assert ObservesAt(a, j, id);
      }
    case Collection(reqs, _, _, rm, del) =>
      DeletedWasUnpinned(w.rows, w.pins, reqs, rm, del, 0, id);
  }

  /** The check got to its i-th request, which is for this stream and gave it a reason to delete the record. */
  ghost predicate DeletesAt(a: Attempt, i: nat, id: string) {
    && i < |a.reqs|
    && a.reqs[i].streamId == id
    && MayDelete(a.reqs[i], a.checks(i), a.interval)
    && forall j | 0 <= j < i :: Passes(a.reqs[j], a.checks(j), a.interval)
  }

  /** The requests are records of the table as it is, older than the TTL. */
  ghost predicate FetchedExpired(rows: Records, reqs: seq<Row>, now: int, streamTtl: int) {
    forall req | req in reqs :: req.streamId in rows && rows[req.streamId] == req && IsExpired(now, streamTtl)(req)
  }

  /**
   Why a record can leave the table: a check that got to its request could not mark its stream or found
   it past the interval, or a collection for it unpinned its stream everywhere. When the job fetched its
   requests from the table as it found it, the request is the record itself, so that the age that
   counted is the record's own, past the interval or past the TTL.
   */
  ghost predicate Justified(w: World, job: Job, id: string)
    requires id in w.rows
  {
    match job
    case AnchorCheck(a) =>
      exists i: nat :: DeletesAt(a, i, id) && (FetchedFrom(w.rows, a.reqs, 0) ==> a.reqs[i] == w.rows[id])
    case Collection(reqs, now, streamTtl, _, _) =>
      && PinnedNowhere(Exec(w, job).pins, id)
      && (exists req :: req in reqs && req.streamId == id)
      && (FetchedExpired(w.rows, reqs, now, streamTtl) ==> IsExpired(now, streamTtl)(w.rows[id]))
    case _ => false
  }

  /** Job n is the one that takes the record out of the table, and it has a reason to. */
  ghost predicate RemovedAt(w: World, jobs: seq<Job>, n: nat, id: string) {
    && n < |jobs|
    && id in ExecAll(w, jobs[..n]).rows
    && id !in Exec(ExecAll(w, jobs[..n]), jobs[n]).rows
    && Justified(ExecAll(w, jobs[..n]), jobs[n], id)
  }

  /**
   Over any sequence of jobs, a record of the table that is missing at the end was removed by one of
   them for a reason: an anchor check that got to it and timed it out or could not mark it, or a
   collection that had unpinned its stream everywhere.
   */
  lemma {:induction false} MissingWasRemovedForAReason(w: World, jobs: seq<Job>, id: string)
    requires id in w.rows && id !in ExecAll(w, jobs).rows
    ensures exists n: nat :: RemovedAt(w, jobs, n, id)
    decreases |jobs|
  {
    var n := |jobs| - 1;
    var before := jobs[..n];
    if id in ExecAll(w, before).rows {
      RemovedStep(ExecAll(w, before), jobs[n], id);
      assert RemovedAt(w, jobs, n, id);
    } else {
      MissingWasRemovedForAReason(w, before, id);
      var k: nat :| RemovedAt(w, before, k, id);
      assert before[..k] == jobs[..k] && before[k] == jobs[k];
      assert RemovedAt(w, jobs, k, id);
    }
  }

  lemma RemovedStep(w: World, job: Job, id: string)
    requires id in w.rows && id !in Exec(w, job).rows
    ensures Justified(w, job, id)
  {
    match job
    case Store(_, _, _, _) => assert false;
    case MakeExpired(_, _, _, _) => assert false;
    case AnchorCheck(a) =>
      DeletedOnlyIf(w.rows, a.reqs, a.checks, a.interval, 0, id);
      StopsAtFirstFailure(w.rows, a.reqs, a.checks, a.interval);
      assert DeletesAt(a, RunOf(w.rows, a).settled, id);
    case Collection(reqs, _, _, rm, del) =>
      DeletedWasUnpinned(w.rows, w.pins, reqs, rm, del, 0, id);
      var j :| 0 <= j < |reqs| && reqs[j].streamId == id;
      assert reqs[j] in reqs;
  }

  /**
   Every table that can arise holds keyed records, and a creation time with each record the anchor
   check can fetch.
   */
  lemma {:induction false} TableStaysWellFormed(pins: seq<set<string>>, jobs: seq<Job>)
    ensures WellFormed(ExecAll(World(map[], pins), jobs).rows)
    decreases |jobs|
  {
    if jobs != [] {
      var before := jobs[..|jobs| - 1];
      TableStaysWellFormed(pins, before);
      var w := ExecAll(World(map[], pins), before);
      match jobs[|jobs| - 1]
      case Store(_, _, _, _) =>
      case MakeExpired(_, _, _, _) =>
      case AnchorCheck(a) => RunKeepsWellFormed(w.rows, a.reqs, a.checks, a.interval, 0);
      case Collection(reqs, _, _, rm, del) =>
        var end := GcRun(w.rows, w.pins, reqs, rm, del, 0);
        forall id | id in end.rows ensures id in w.rows && end.rows[id] == w.rows[id] {
          DeletedWasUnpinned(w.rows, w.pins, reqs, rm, del, 0, id);
        }
    }
  }

  lemma {:induction false} RunKeepsWellFormed(rows: Records, reqs: seq<Row>, checks: nat -> Check, interval: int,
                                              i: nat)
    requires WellFormed(rows)
    ensures WellFormed(AnchorRun(rows, reqs, checks, interval, i).rows)
    decreases |reqs| - i
  {
    if i < |reqs| {
      var (next, verdict) := CheckRequest(rows, reqs[i], checks(i), interval);
      if verdict == NextRequest { RunKeepsWellFormed(next, reqs, checks, interval, i + 1); }
    }
  }
}
