/**
 Runs of the anchor check over the request table
 (suite/src/__tests__/correctness/fast/anchor.test.ts).
 */
module AnchorRuns {
  import opened Wrappers
  import opened DynamoScan
  import opened DecimalSeconds
  import opened RequestTable
  import opened Sets

  datatype AnchorStatus = NotRequested | Pending | Processing | Anchored | Failed | Replaced

  /**
   What the environment answers while one request is checked: the status of the loaded stream (None
   when connecting or loading throws), the time, and how a mark and a delete would go.
   */
  datatype Check = Check(load: Option<AnchorStatus>, now: int, mark: Call, delete: Call)

  /** How the check of one request, or a whole run, ends. All but NextRequest abort the run. */
  datatype Verdict = NextRequest | LoadThrew | TimedOut | MarkThrew | DeleteThrew

  function CheckRequest(rows: Records, req: Row, c: Check, interval: int): (Records, Verdict) {
    if c.load.None? || req.creation.None? then (rows, LoadThrew)
    else
      var anchored := c.load.value == Anchored;
      var delta := ComputedAge(c.now, req.creation.value);
      if anchored || delta >= interval then
        var expectThrows := !anchored && !(delta < interval);
        var marked := if expectThrows then rows else After(rows, c.mark, Marked(rows, req.streamId));
        if !expectThrows && !c.mark.Throws() then (marked, NextRequest)
        else (After(marked, c.delete, Deleted(marked, req.streamId)),
              if c.delete.Throws() then DeleteThrew else if expectThrows then TimedOut else MarkThrew)
      else (rows, NextRequest)
  }

  /** The table after a run, how many requests it got through, and how it ended. */
  datatype RunEnd = RunEnd(rows: Records, settled: nat, verdict: Verdict)

  function AnchorRun(rows: Records, reqs: seq<Row>, checks: nat -> Check, interval: int, i: nat): RunEnd
    decreases |reqs| - i
  {
    if i >= |reqs| then RunEnd(rows, i, NextRequest)
    else
      var (next, verdict) := CheckRequest(rows, reqs[i], checks(i), interval);
      if verdict == NextRequest then AnchorRun(next, reqs, checks, interval, i + 1)
      else RunEnd(next, i, verdict)
  }

  method CheckAnchors(table: Table, anchorReqs: seq<Row>, checks: nat -> Check, interval: int)
    returns (settled: nat, verdict: Verdict)
    modifies table
    ensures RunEnd(table.rows, settled, verdict) == AnchorRun(old(table.rows), anchorReqs, checks, interval, 0)
  {
    for i := 0 to |anchorReqs|
      invariant AnchorRun(old(table.rows), anchorReqs, checks, interval, 0)
             == AnchorRun(table.rows, anchorReqs, checks, interval, i)
    {
      var req := anchorReqs[i];
      var env := checks(i);
      if env.load.None? || req.creation.None? {
        return i, LoadThrew;
      }
      var anchored := env.load.value == Anchored;
      var delta := ComputedAge(env.now, req.creation.value);
      if anchored || delta >= interval {
        var thrown := NextRequest;
        if !anchored && !(delta < interval) {
          thrown := TimedOut;
        } else {
          var threw := table.MarkStreamReqAsAnchored(req.streamId, env.mark);
          if threw {
            thrown := MarkThrew;
          }
        }
        if thrown != NextRequest {
          var threw := table.DeleteStreamReq(req.streamId, env.delete);
          return i, if threw then DeleteThrew else thrown;
        }
      }
    }
    return |anchorReqs|, NextRequest;
  }

  // ----- one run -----

  lemma {:induction false} RunStopsInRange(rows: Records, reqs: seq<Row>, checks: nat -> Check, interval: int, i: nat)
    requires i <= |reqs|
    ensures var end := AnchorRun(rows, reqs, checks, interval, i);
            i <= end.settled <= |reqs| && (end.verdict == NextRequest <==> end.settled == |reqs|)
    decreases |reqs| - i
  {
    if i < |reqs| {
      var step := CheckRequest(rows, reqs[i], checks(i), interval);
      if step.1 == NextRequest {
        RunStopsInRange(step.0, reqs, checks, interval, i + 1);
      }
    }
  }

  /**
   The stream was seen anchored and marking it threw, or it was not anchored and its request had
   reached the interval.
   */
  ghost predicate MayDelete(req: Row, c: Check, interval: int) {
    && c.load.Some? && req.creation.Some?
    && if c.load.value == Anchored then c.mark.Throws() else ComputedAge(c.now, req.creation.value) >= interval
  }

  /**
   A run deletes at most one record, that of the request it stopped at, and only if its stream was
   unanchored past the interval or the mark itself failed. In true time, past the interval means
   less than a second short of it.
   */
  lemma {:induction false} DeletedOnlyIf(rows: Records, reqs: seq<Row>, checks: nat -> Check, interval: int, i: nat,
                                         id: string)
    requires id in rows
    ensures var end := AnchorRun(rows, reqs, checks, interval, i);
            id !in end.rows ==>
              && i <= end.settled < |reqs| && reqs[end.settled].streamId == id
              && end.verdict in {TimedOut, MarkThrew, DeleteThrew}
              && MayDelete(reqs[end.settled], checks(end.settled), interval)
              && (checks(end.settled).load != Some(Anchored) ==>
                    checks(end.settled).now - reqs[end.settled].creation.value > interval - 1000)
    decreases |reqs| - i
  {
    if i < |reqs| {
      var (next, verdict) := CheckRequest(rows, reqs[i], checks(i), interval);
      if verdict == NextRequest {
        DeletedOnlyIf(next, reqs, checks, interval, i + 1, id);
      } else if reqs[i].creation.Some? {
        AgeBound(checks(i).now, reqs[i].creation.value);
      }
    }
  }

  /** A run turns a record anchored only if it got to a request for it and observed the stream ANCHORED. */
  lemma {:induction false} AnchoredOnlyIf(rows: Records, reqs: seq<Row>, checks: nat -> Check, interval: int, i: nat,
                                          id: string)
    ensures var end := AnchorRun(rows, reqs, checks, interval, i);
            id in end.rows && IsAnchored(end.rows[id]) ==>
              || (id in rows && IsAnchored(rows[id]))
              || exists j | i <= j <= end.settled && j < |reqs| ::
                  reqs[j].streamId == id && checks(j).load == Some(Anchored)
    decreases |reqs| - i
  {
    if i < |reqs| {
      var (next, verdict) := CheckRequest(rows, reqs[i], checks(i), interval);
      if verdict == NextRequest {
        AnchoredOnlyIf(next, reqs, checks, interval, i + 1, id);
        RunStopsInRange(next, reqs, checks, interval, i + 1);
      }
      if reqs[i].streamId == id && checks(i).load == Some(Anchored) {
        assert reqs[i].streamId == id;
      }
    }
  }

  /** A request that lets a run go on: anchored and marked, or not anchored and still within the interval. */
  ghost predicate Passes(req: Row, c: Check, interval: int) {
    && c.load.Some? && req.creation.Some?
    && if c.load.value == Anchored then !c.mark.Throws() else ComputedAge(c.now, req.creation.value) < interval
  }

  lemma GoesOnIffPasses(rows: Records, req: Row, c: Check, interval: int)
    ensures CheckRequest(rows, req, c, interval).1 == NextRequest <==> Passes(req, c, interval)
  {
  }

  /** How the check of one request ends, by what the environment answers. */
  ghost predicate IsVerdict(verdict: Verdict, req: Row, c: Check, interval: int) {
    && (verdict == NextRequest <==> Passes(req, c, interval))
    && (verdict == LoadThrew <==> c.load == None || req.creation == None)
    && (verdict == TimedOut <==> MayDelete(req, c, interval) && !c.delete.Throws() && c.load != Some(Anchored))
    && (verdict == MarkThrew <==> MayDelete(req, c, interval) && !c.delete.Throws() && c.load == Some(Anchored))
    && (verdict == DeleteThrew <==> MayDelete(req, c, interval) && c.delete.Throws())
  }

  /** What it does to the table: a delete that takes effect leaves no record; otherwise a mark may have taken effect. */
  ghost predicate IsEffect(before: Records, after: Records, req: Row, c: Check, interval: int) {
    var deletes := MayDelete(req, c, interval) && c.delete.Applies();
    var marks := c.load == Some(Anchored) && req.creation.Some? && c.mark.Applies();
    && (deletes ==> after == before - {req.streamId})
    && (!deletes && marks ==> after == Marked(before, req.streamId))
    && (!deletes && !marks ==> after == before)
  }

  lemma CheckExact(rows: Records, req: Row, c: Check, interval: int)
    ensures var (next, verdict) := CheckRequest(rows, req, c, interval);
            IsVerdict(verdict, req, c, interval) && IsEffect(rows, next, req, c, interval)
  {
    assert Deleted(Marked(rows, req.streamId), req.streamId) == rows - {req.streamId};
  }

  lemma {:induction false} PassesBeforeStop(rows: Records, reqs: seq<Row>, checks: nat -> Check, interval: int, i: nat,
                                            j: nat)
    requires i <= j < |reqs|
    ensures var end := AnchorRun(rows, reqs, checks, interval, i);
            && (j < end.settled ==> Passes(reqs[j], checks(j), interval))
            && (j == end.settled ==> !Passes(reqs[j], checks(j), interval))
    decreases |reqs| - i
  {
    GoesOnIffPasses(rows, reqs[i], checks(i), interval);
    if Passes(reqs[i], checks(i), interval) {
      var next := CheckRequest(rows, reqs[i], checks(i), interval).0;
      RunStopsInRange(next, reqs, checks, interval, i + 1);
      if i < j { PassesBeforeStop(next, reqs, checks, interval, i + 1, j); }
    }
  }

  /** The run stops at the first request that does not pass. */
  lemma StopsAtFirstFailure(rows: Records, reqs: seq<Row>, checks: nat -> Check, interval: int)
    ensures var end := AnchorRun(rows, reqs, checks, interval, 0);
            && end.settled <= |reqs|
            && (forall j | 0 <= j < end.settled :: Passes(reqs[j], checks(j), interval))
            && (end.settled < |reqs| ==> !Passes(reqs[end.settled], checks(end.settled), interval))
            && (end.verdict == NextRequest <==> end.settled == |reqs|)
  {
    var end := AnchorRun(rows, reqs, checks, interval, 0);
    RunStopsInRange(rows, reqs, checks, interval, 0);
    forall j: nat | j < |reqs|
      ensures j < end.settled ==> Passes(reqs[j], checks(j), interval)
      ensures j == end.settled ==> !Passes(reqs[j], checks(j), interval)
    {
      PassesBeforeStop(rows, reqs, checks, interval, 0, j);
    }
  }

  /** The table once the run has got past its first n requests. */
  function MarkedUpTo(rows: Records, reqs: seq<Row>, checks: nat -> Check, n: nat): Records
    requires n <= |reqs|
  {
    if n == 0 then rows
    else
      var before := MarkedUpTo(rows, reqs, checks, n - 1);
      if checks(n - 1).load == Some(Anchored) then Marked(before, reqs[n - 1].streamId) else before
  }

  lemma {:induction false} RunGetsTo(rows: Records, reqs: seq<Row>, checks: nat -> Check, interval: int, n: nat)
    requires n <= |reqs| && forall j | 0 <= j < n :: Passes(reqs[j], checks(j), interval)
    ensures AnchorRun(rows, reqs, checks, interval, 0)
         == AnchorRun(MarkedUpTo(rows, reqs, checks, n), reqs, checks, interval, n)
  {
    if n > 0 {
      RunGetsTo(rows, reqs, checks, interval, n - 1);
      assert Passes(reqs[n - 1], checks(n - 1), interval);
    }
  }

  /**
   The whole run, whatever the table: it stops at the first request that does not pass, having marked the
   anchored streams before it; how it ends, and what becomes of that request's record, is decided by the
   load, the age, the mark and the delete of that request alone.
   */
  lemma RunExact(rows: Records, reqs: seq<Row>, checks: nat -> Check, interval: int)
    ensures var end := AnchorRun(rows, reqs, checks, interval, 0);
            && end.settled <= |reqs|
            && (forall j | 0 <= j < end.settled :: Passes(reqs[j], checks(j), interval))
            && var before := MarkedUpTo(rows, reqs, checks, end.settled);
               if end.settled == |reqs| then end.verdict == NextRequest && end.rows == before
               else
                 var req, c := reqs[end.settled], checks(end.settled);
                 && IsVerdict(end.verdict, req, c, interval) && end.verdict != NextRequest
                 && IsEffect(before, end.rows, req, c, interval)
                 && (MayDelete(req, c, interval) && c.delete.Applies() ==> req.streamId !in end.rows)
  {
    var end := AnchorRun(rows, reqs, checks, interval, 0);
    StopsAtFirstFailure(rows, reqs, checks, interval);
    RunGetsTo(rows, reqs, checks, interval, end.settled);
    if end.settled < |reqs| {
      CheckExact(MarkedUpTo(rows, reqs, checks, end.settled), reqs[end.settled], checks(end.settled), interval);
    }
  }

  lemma CompletesIffAllPass(rows: Records, reqs: seq<Row>, checks: nat -> Check, interval: int)
    ensures AnchorRun(rows, reqs, checks, interval, 0).verdict == NextRequest
       <==> forall j | 0 <= j < |reqs| :: Passes(reqs[j], checks(j), interval)
  {
    StopsAtFirstFailure(rows, reqs, checks, interval);
  }

  ghost predicate FailedAndDeleted(end: RunEnd) {
    end.verdict == TimedOut || end.verdict == MarkThrew
  }

  /** What a run makes of a request it got past. */
  function Outcome(req: Row, c: Check): Row {
    if c.load == Some(Anchored) then req.(anchored := Some(true)) else req
  }

  lemma FetchedStep(rows: Records, reqs: seq<Row>, c: Check, interval: int, i: nat)
    requires FetchedFrom(rows, reqs, i) && i < |reqs|
    ensures var (next, verdict) := CheckRequest(rows, reqs[i], c, interval);
            FetchedFrom(next, reqs, i + 1)
  {
    CheckTouchesOne(rows, reqs[i], c, interval);
    var (next, verdict) := CheckRequest(rows, reqs[i], c, interval);
    forall j | i + 1 <= j < |reqs|
      ensures reqs[j].streamId in next && next[reqs[j].streamId] == reqs[j] && IsUnanchored(reqs[j])
    {
      assert reqs[i].streamId != reqs[j].streamId;
      assert reqs[j].streamId in rows && rows[reqs[j].streamId] == reqs[j];
    }
  }

  /** A run leaves alone every record it has no request for. */
  lemma {:induction false} RunFrame(rows: Records, reqs: seq<Row>, checks: nat -> Check, interval: int, i: nat,
                                    id: string)
    requires FetchedFrom(rows, reqs, i) && i <= |reqs|
    requires forall j | i <= j < |reqs| :: reqs[j].streamId != id
    ensures var end := AnchorRun(rows, reqs, checks, interval, i);
            (id in end.rows <==> id in rows) && (id in rows ==> end.rows[id] == rows[id])
    decreases |reqs| - i
  {
    if i < |reqs| {
      CheckTouchesOne(rows, reqs[i], checks(i), interval);
      var (next, verdict) := CheckRequest(rows, reqs[i], checks(i), interval);
      if verdict == NextRequest {
        FetchedStep(rows, reqs, checks(i), interval, i);
        RunFrame(next, reqs, checks, interval, i + 1, id);
      }
    }
  }

  /** A request before the stop has its outcome in the table; one after the stop is as it was fetched. */
  lemma {:induction false} RunSettles(rows: Records, reqs: seq<Row>, checks: nat -> Check, interval: int, i: nat,
                                      j: nat)
    requires FetchedFrom(rows, reqs, i) && i <= j < |reqs|
    ensures var end := AnchorRun(rows, reqs, checks, interval, i);
            var id := reqs[j].streamId;
            && (j < end.settled ==> id in end.rows && end.rows[id] == Outcome(reqs[j], checks(j)))
            && (end.settled < j ==> id in end.rows && end.rows[id] == reqs[j])
    decreases |reqs| - i
  {
    CheckTouchesOne(rows, reqs[i], checks(i), interval);
    var (next, verdict) := CheckRequest(rows, reqs[i], checks(i), interval);
    FetchedStep(rows, reqs, checks(i), interval, i);
    RunStopsInRange(rows, reqs, checks, interval, i);
    if verdict == NextRequest {
      if i < j {
        RunSettles(next, reqs, checks, interval, i + 1, j);
      } else {
        RunFrame(next, reqs, checks, interval, i + 1, reqs[j].streamId);
      }
    }
  }

  /** Which records are left: all, unless the run reaches its delete, which removes exactly the record it stopped at. */
  lemma {:induction false} RunKeepsKeys(rows: Records, reqs: seq<Row>, checks: nat -> Check, interval: int, i: nat)
    requires FetchedFrom(rows, reqs, i) && i <= |reqs|
    ensures var end := AnchorRun(rows, reqs, checks, interval, i);
            && (FailedAndDeleted(end) ==>
                  end.settled < |reqs| && end.rows.Keys == rows.Keys - {reqs[end.settled].streamId})
            && (end.verdict == NextRequest || end.verdict == LoadThrew ==> end.rows.Keys == rows.Keys)
    decreases |reqs| - i
  {
    if i < |reqs| {
      CheckTouchesOne(rows, reqs[i], checks(i), interval);
      var (next, verdict) := CheckRequest(rows, reqs[i], checks(i), interval);
      if verdict == NextRequest {
        FetchedStep(rows, reqs, checks(i), interval, i);
        RunKeepsKeys(next, reqs, checks, interval, i + 1);
      }
    }
  }

  /**
   The whole effect of a run on the table it fetched its requests from: requests before the stop are
   anchored exactly if their stream was seen anchored and are otherwise as they were; a run that fails
   through the catch block with its delete succeeding removes exactly the record it stopped at;
   requests after the stop and all other records are untouched.
   */
  lemma RunSettlesPrefix(rows: Records, reqs: seq<Row>, checks: nat -> Check, interval: int)
    requires FetchedFrom(rows, reqs, 0)
    ensures var end := AnchorRun(rows, reqs, checks, interval, 0);
            && end.settled <= |reqs|
            && (forall j | 0 <= j < end.settled ::
                  reqs[j].streamId in end.rows && end.rows[reqs[j].streamId] == Outcome(reqs[j], checks(j)))
            && (forall j | end.settled < j < |reqs| ::
                  reqs[j].streamId in end.rows && end.rows[reqs[j].streamId] == reqs[j])
            && (FailedAndDeleted(end) ==>
                  end.settled < |reqs| && end.rows.Keys == rows.Keys - {reqs[end.settled].streamId})
            && (end.verdict == NextRequest || end.verdict == LoadThrew ==> end.rows.Keys == rows.Keys)
            && (forall id | forall j | 0 <= j < |reqs| :: reqs[j].streamId != id ::
                  (id in end.rows <==> id in rows) && (id in rows ==> end.rows[id] == rows[id]))
  {
    var end := AnchorRun(rows, reqs, checks, interval, 0);
    RunStopsInRange(rows, reqs, checks, interval, 0);
    RunKeepsKeys(rows, reqs, checks, interval, 0);
    forall j: nat | j < |reqs|
      ensures j < end.settled ==>
              reqs[j].streamId in end.rows && end.rows[reqs[j].streamId] == Outcome(reqs[j], checks(j))
      ensures end.settled < j ==> reqs[j].streamId in end.rows && end.rows[reqs[j].streamId] == reqs[j]
    {
      RunSettles(rows, reqs, checks, interval, 0, j);
    }
    forall id | forall j | 0 <= j < |reqs| :: reqs[j].streamId != id
      ensures (id in end.rows <==> id in rows) && (id in rows ==> end.rows[id] == rows[id])
    {
      RunFrame(rows, reqs, checks, interval, 0, id);
    }
  }

  lemma CheckTouchesOne(rows: Records, req: Row, c: Check, interval: int)
    requires req.streamId in rows && rows[req.streamId] == req
    ensures var (next, verdict) := CheckRequest(rows, req, c, interval);
            && (forall id | id != req.streamId :: (id in next <==> id in rows) && (id in rows ==> next[id] == rows[id]))
            && (verdict == NextRequest ==>
                  && next.Keys == rows.Keys
                  && next[req.streamId] == Outcome(req, c))
            && (verdict == LoadThrew ==> next == rows)
            && (verdict == TimedOut || verdict == MarkThrew ==> next.Keys == rows.Keys - {req.streamId})
  {
  }

  /**
   The whole test: fetch the unanchored requests, then check them. A refused fetch leaves the table
   alone; otherwise the run is over requests that are records of the table, at most one record is
   removed, and none but fetched requests are changed.
   */
  method TestAnchors(table: Table, scan: (nat, ScanArgs) -> ScanReply, checks: nat -> Check, interval: int,
                     ghost listing: seq<Row>, ghost largest: nat)
    returns (fetched: Result<seq<Row>>, settled: nat, verdict: Verdict)
    requires WellFormed(table.rows) && Lists(listing, table.rows) && ServesTable(scan, listing, IsUnanchored, largest)
    modifies table
    ensures fetched.Err? ==> table.rows == old(table.rows)
    ensures fetched.Ok? ==>
              && FetchedFrom(old(table.rows), fetched.value, 0)
              && (forall req | req in fetched.value :: req.creation.Some?)
              && RunEnd(table.rows, settled, verdict) == AnchorRun(old(table.rows), fetched.value, checks, interval, 0)
              && (FailedAndDeleted(RunEnd(table.rows, settled, verdict)) ==>
                    && settled < |fetched.value|
                    && table.rows.Keys == old(table.rows).Keys - {fetched.value[settled].streamId})
              && (forall id | id in old(table.rows) && !IsUnanchored(old(table.rows)[id]) ::
                    id in table.rows && table.rows[id] == old(table.rows)[id])
  {
    fetched := Scan(scan, None, listing, IsUnanchored, largest);
    settled, verdict := 0, NextRequest;
    if fetched.Ok? {
      ScanFetches(fetched.value, listing, table.rows, LargestPage(None, largest));
      RunKeepsKeys(table.rows, fetched.value, checks, interval, 0);
      forall id | id in table.rows && !IsUnanchored(table.rows[id])
        ensures var end := AnchorRun(table.rows, fetched.value, checks, interval, 0);
                id in end.rows && end.rows[id] == table.rows[id]
      {
        RunFrame(table.rows, fetched.value, checks, interval, 0, id);
      }
      settled, verdict := CheckAnchors(table, fetched.value, checks, interval);
    }
  }

  // ----- progress over repeated runs -----

  ghost function Unanchored(rows: Records): set<string> {
    set id | id in rows && IsUnanchored(rows[id])
  }

  /** No run makes a record unanchored. */
  lemma {:induction false} RunOnlySettles(rows: Records, reqs: seq<Row>, checks: nat -> Check, interval: int, i: nat)
    ensures Unanchored(AnchorRun(rows, reqs, checks, interval, i).rows) <= Unanchored(rows)
    decreases |reqs| - i
  {
    if i < |reqs| {
      var (next, verdict) := CheckRequest(rows, reqs[i], checks(i), interval);
      assert Unanchored(next) <= Unanchored(rows);
      if verdict == NextRequest { RunOnlySettles(next, reqs, checks, interval, i + 1); }
    }
  }

  lemma FailingRunRemovesOne(rows: Records, reqs: seq<Row>, checks: nat -> Check, interval: int)
    requires FetchedFrom(rows, reqs, 0)
    ensures var end := AnchorRun(rows, reqs, checks, interval, 0);
            |Unanchored(end.rows)| + (if FailedAndDeleted(end) then 1 else 0) <= |Unanchored(rows)|
  {
    var end := AnchorRun(rows, reqs, checks, interval, 0);
    RunOnlySettles(rows, reqs, checks, interval, 0);
    RunKeepsKeys(rows, reqs, checks, interval, 0);
    var gone := if FailedAndDeleted(end) then {reqs[end.settled].streamId} else {};
    assert gone <= Unanchored(rows) && gone !! Unanchored(end.rows);
    assert Unanchored(rows) == gone + (Unanchored(rows) - gone);
    assert Unanchored(end.rows) <= Unanchored(rows) - gone;
    SubsetSize(Unanchored(end.rows), Unanchored(rows) - gone);
  }

  /** One run of the check: the requests it fetched and the answers it got. */
  datatype Attempt = Attempt(reqs: seq<Row>, checks: nat -> Check, interval: int)

  function RunOf(rows: Records, a: Attempt): RunEnd {
    AnchorRun(rows, a.reqs, a.checks, a.interval, 0)
  }

  function AfterRuns(rows: Records, attempts: seq<Attempt>): Records
    decreases |attempts|
  {
    if attempts == [] then rows else AfterRuns(RunOf(rows, attempts[0]).rows, attempts[1..])
  }

  /** Every run fetches from the table as the runs before it left it. */
  ghost predicate EachFetches(rows: Records, attempts: seq<Attempt>)
    decreases |attempts|
  {
    attempts != [] ==>
      && FetchedFrom(rows, attempts[0].reqs, 0)
      && EachFetches(RunOf(rows, attempts[0]).rows, attempts[1..])
  }

  ghost function FailingRuns(rows: Records, attempts: seq<Attempt>): nat
    decreases |attempts|
  {
    if attempts == [] then 0
    else
      var end := RunOf(rows, attempts[0]);
      (if FailedAndDeleted(end) then 1 else 0) + FailingRuns(end.rows, attempts[1..])
  }

  /**
   With no new stores, each failing run uses up one unanchored record: however many times the check is
   run and whatever the answers, no more runs fail this way than there were unanchored records to begin with.
   */
  lemma {:induction false} FailuresAreBounded(rows: Records, attempts: seq<Attempt>)
    requires EachFetches(rows, attempts)
    ensures FailingRuns(rows, attempts) + |Unanchored(AfterRuns(rows, attempts))| <= |Unanchored(rows)|
    decreases |attempts|
  {
    if attempts != [] {
      var a := attempts[0];
      FailingRunRemovesOne(rows, a.reqs, a.checks, a.interval);
      FailuresAreBounded(RunOf(rows, a).rows, attempts[1..]);
    }
  }

  // ----- the requests are all settled in the end -----

  /**
   The stream is loaded, and either it is anchored and a mark or else a delete takes effect, or it is past
   the interval and a delete does.
   */
  ghost predicate CanSettle(req: Row, c: Check, interval: int) {
    && c.load.Some? && req.creation.Some?
    && if c.load.value == Anchored then c.mark.Applies() || c.delete.Applies()
       else ComputedAge(c.now, req.creation.value) >= interval && c.delete.Applies()
  }

  /** Some unanchored records are fetched if there are any, as every scan does. */
  ghost predicate FetchesSome(rows: Records, reqs: seq<Row>) {
    FetchedFrom(rows, reqs, 0) && (Unanchored(rows) != {} ==> reqs != [])
  }

  /** Even a scan that stops at its cap fetches some of the unanchored records of a table that has any. */
  lemma ScanFetchesSome(reqs: seq<Row>, listing: seq<Row>, rows: Records, page: nat)
    requires WellFormed(rows) && Lists(listing, rows) && IsScan(reqs, listing, IsUnanchored, page)
    ensures FetchesSome(rows, reqs)
  {
    ScanFetches(reqs, listing, rows, page);
    if id :| id in Unanchored(rows) {
      assert |reqs| < MAX_SCAN_RESULTS ==> rows[id] in reqs;
    }
  }

  lemma FetchedIsUnanchored(rows: Records, reqs: seq<Row>)
    requires FetchedFrom(rows, reqs, 0) && reqs != []
    ensures reqs[0].streamId in Unanchored(rows)
  {
  }

  /** A run whose first request can be settled leaves fewer unanchored records, however it ends. */
  lemma FirstIsSettled(rows: Records, a: Attempt)
    requires FetchedFrom(rows, a.reqs, 0) && a.reqs != [] && CanSettle(a.reqs[0], a.checks(0), a.interval)
    ensures |Unanchored(RunOf(rows, a).rows)| < |Unanchored(rows)|
  {
    var id := a.reqs[0].streamId;
    var (next, verdict) := CheckRequest(rows, a.reqs[0], a.checks(0), a.interval);
    CheckTouchesOne(rows, a.reqs[0], a.checks(0), a.interval);
    assert id in Unanchored(rows) && id !in Unanchored(next);
    if verdict == NextRequest { RunOnlySettles(next, a.reqs, a.checks, a.interval, 1); }
    RunOnlySettles(rows, a.reqs, a.checks, a.interval, 0);
    var left := Unanchored(RunOf(rows, a).rows);
    assert left <= Unanchored(rows) - {id};
    SubsetSize(left, Unanchored(rows) - {id});
  }

  /** Every run fetches something if there is anything to fetch, and can settle the first request it fetched. */
  ghost predicate EachSettles(rows: Records, attempts: seq<Attempt>)
    decreases |attempts|
  {
    attempts != [] ==>
      var a := attempts[0];
      && FetchesSome(rows, a.reqs)
      && (a.reqs != [] ==> CanSettle(a.reqs[0], a.checks(0), a.interval))
      && EachSettles(RunOf(rows, a).rows, attempts[1..])
  }

  /** Each such run lowers the number of unanchored records until there are none. */
  lemma {:induction false} RunsSettleAll(rows: Records, attempts: seq<Attempt>)
    requires EachSettles(rows, attempts)
    ensures var left := |Unanchored(AfterRuns(rows, attempts))|;
            left == 0 || left + |attempts| <= |Unanchored(rows)|
    decreases |attempts|
  {
    if attempts != [] {
      var a := attempts[0];
      RunsSettleAll(RunOf(rows, a).rows, attempts[1..]);
      if Unanchored(rows) == {} {
        RunOnlySettles(rows, a.reqs, a.checks, a.interval, 0);
        assert Unanchored(RunOf(rows, a).rows) == {};
      } else {
        FirstIsSettled(rows, a);
      }
    }
  }

  /**
   Progress: with no new stores, after as many such runs as there were unanchored records, none is left,
   and every later run has nothing to do and completes.
   */
  lemma EventuallyAllComplete(rows: Records, attempts: seq<Attempt>, later: Attempt)
    requires EachSettles(rows, attempts) && |attempts| >= |Unanchored(rows)|
    requires FetchedFrom(AfterRuns(rows, attempts), later.reqs, 0)
    ensures Unanchored(AfterRuns(rows, attempts)) == {}
    ensures RunOf(AfterRuns(rows, attempts), later) == RunEnd(AfterRuns(rows, attempts), 0, NextRequest)
  {
    var after := AfterRuns(rows, attempts);
    RunsSettleAll(rows, attempts);
    assert |Unanchored(after)| == 0;
    if later.reqs != [] {
      FetchedIsUnanchored(after, later.reqs);
      assert false;
    }
  }
}
