/**
 The paged scan of the anchor-request table (suite/src/utils/dynamoDbHelpers.ts).

 The database decides where each page ends; it evaluates the filter only after the page is cut.
 Its answers are a function of the number of the call and of the arguments it is sent.
 */
module DynamoScan {
  import opened Wrappers

  /**
   A record of the table. Every attribute but the key can be absent, because an update creates the
   record it does not find. Times are in milliseconds.
   */
  datatype Row = Row(streamId: string, creation: Option<int>, expiration: Option<int>, anchored: Option<bool>)

  datatype ScanArgs = ScanArgs(limit: Option<nat>, exclusiveStartKey: Option<string>)

  datatype ScanReply =
    | Refused(message: string)
    | Page(items: Option<seq<Row>>, lastEvaluatedKey: Option<string>)

  const MAX_SCAN_RESULTS := 10 * 1000

  function Filter(rows: seq<Row>, matches: Row -> bool): seq<Row> {
    if rows == [] then []
    else if matches(rows[0]) then [rows[0]] + Filter(rows[1..], matches)
    else Filter(rows[1..], matches)
  }

  lemma {:induction false} FilterConcat(a: seq<Row>, b: seq<Row>, matches: Row -> bool)
    ensures Filter(a + b, matches) == Filter(a, matches) + Filter(b, matches)
  {
    if a == [] {
      assert a + b == b;
    } else {
      assert (a + b)[1..] == a[1..] + b;
      FilterConcat(a[1..], b, matches);
    }
  }

  lemma {:induction false} FilterShrinks(rows: seq<Row>, matches: Row -> bool)
    ensures |Filter(rows, matches)| <= |rows|
  {
    if rows != [] { FilterShrinks(rows[1..], matches); }
  }

  // ----- what the database is assumed to do -----

  /** The continuation key that stands for "the first pos rows have been evaluated". */
  function KeyBefore(rows: seq<Row>, pos: nat): Option<string>
    requires pos <= |rows|
  {
    if pos == 0 then None else Some(rows[pos - 1].streamId)
  }

  /**
   A page evaluates the rows from `from` up to `to`, at most `limit` and at most `largest` of them,
   and returns those that match, possibly none. Only a page that ends the table may come without a
   continuation key or without items; a page with a key has moved past `from`.
   */
  ghost predicate IsPage(reply: ScanReply, limit: Option<nat>, rows: seq<Row>, matches: Row -> bool, largest: nat,
                         from: nat, to: nat)
  {
    && reply.Page?
    && from <= to <= |rows|
    && to - from <= largest
    && (limit.Some? ==> to - from <= limit.value)
    && (reply.items.None? ==> to == |rows| && Filter(rows[from..to], matches) == [])
    && (reply.items.Some? ==> reply.items.value == Filter(rows[from..to], matches))
    && (reply.lastEvaluatedKey.None? ==> to == |rows|)
    && (reply.lastEvaluatedKey.Some? ==> from < to && reply.lastEvaluatedKey == KeyBefore(rows, to))
  }

  ghost predicate ServesTable(scan: (nat, ScanArgs) -> ScanReply, rows: seq<Row>, matches: Row -> bool, largest: nat) {
    forall call: nat, limit, from: nat | from <= |rows| ::
      ServesPage(scan(call, ScanArgs(limit, KeyBefore(rows, from))), limit, rows, matches, largest, from)
  }

  ghost predicate ServesPage(reply: ScanReply, limit: Option<nat>, rows: seq<Row>, matches: Row -> bool, largest: nat,
                             from: nat)
  {
    reply.Refused? || exists to: nat :: IsPage(reply, limit, rows, matches, largest, from, to)
  }

  // ----- the scan -----

  /** A page size of null or 0 sets no limit. */
  function Limit(pageSize: Option<nat>): Option<nat> {
    if pageSize.Some? && pageSize.value > 0 then pageSize else None
  }

  function LargestPage(pageSize: Option<nat>, largest: nat): nat {
    if Limit(pageSize).Some? && pageSize.value < largest then pageSize.value else largest
  }

  /**
   The result is the filter of the first `to` rows, in scan order. Either that is the whole table or
   the cap was reached, and it was reached by the last page only.
   */
  ghost predicate IsScanUpTo(result: seq<Row>, rows: seq<Row>, matches: Row -> bool, page: nat, to: nat) {
    && to <= |rows|
    && result == Filter(rows[..to], matches)
    && (to == |rows| || |result| >= MAX_SCAN_RESULTS)
    && |result| <= MAX_SCAN_RESULTS - 1 + page
  }

  ghost predicate IsScan(result: seq<Row>, rows: seq<Row>, matches: Row -> bool, page: nat) {
    exists to: nat :: IsScanUpTo(result, rows, matches, page, to)
  }

  /** A call made for the given page size was refused with this error. */
  ghost predicate RefusedWith(scan: (nat, ScanArgs) -> ScanReply, pageSize: Option<nat>, error: string) {
    exists call: nat, key ::
      var reply := scan(call, ScanArgs(Limit(pageSize), key));
      reply.Refused? && error == "unexpected error: " + reply.message
  }

  /** The number of rows up to the one with this key; the whole table for a key it does not have. */
  function PositionAfter(rows: seq<Row>, key: Option<string>): (pos: nat)
    ensures pos <= |rows|
  {
    if key == None || rows == [] then 0
    else if rows[0].streamId == key.value then 1
    else 1 + PositionAfter(rows[1..], key)
  }

  lemma {:induction false} PositionOfKey(rows: seq<Row>, pos: nat)
    requires DistinctKeys(rows) && pos <= |rows|
    ensures PositionAfter(rows, KeyBefore(rows, pos)) == pos
  {
    if pos > 1 {
      assert rows[0].streamId != rows[pos - 1].streamId;
      DistinctRest(rows);
      assert KeyBefore(rows, pos) == KeyBefore(rows[1..], pos - 1);
      PositionOfKey(rows[1..], pos - 1);
    }
  }

  /** A continuation key names a row of the table past the start of its page. */
  ghost predicate Advances(scan: (nat, ScanArgs) -> ScanReply, rows: seq<Row>) {
    forall call: nat, limit, from: nat | from <= |rows| ::
      KeyAdvances(scan(call, ScanArgs(limit, KeyBefore(rows, from))), rows, from)
  }

  ghost predicate KeyAdvances(reply: ScanReply, rows: seq<Row>, from: nat) {
    reply.Page? && reply.lastEvaluatedKey.Some? ==>
      var to := PositionAfter(rows, reply.lastEvaluatedKey);
      from < to && reply.lastEvaluatedKey == KeyBefore(rows, to)
  }

  lemma ServingAdvances(scan: (nat, ScanArgs) -> ScanReply, rows: seq<Row>, matches: Row -> bool, largest: nat)
    requires ServesTable(scan, rows, matches, largest) && DistinctKeys(rows)
    ensures Advances(scan, rows)
  {
    forall call: nat, limit, from: nat | from <= |rows|
      ensures KeyAdvances(scan(call, ScanArgs(limit, KeyBefore(rows, from))), rows, from)
    {
      var reply := scan(call, ScanArgs(limit, KeyBefore(rows, from)));
      assert ServesPage(reply, limit, rows, matches, largest, from);
      if reply.Page? {
        var to: nat :| IsPage(reply, limit, rows, matches, largest, from, to);
        PositionOfKey(rows, to);
      }
    }
  }

  /** The scan as a function of the database's answers, from the call that starts after the first pos rows. */
  ghost function ScanRun(scan: (nat, ScanArgs) -> ScanReply, limit: Option<nat>, rows: seq<Row>,
                         call: nat, pos: nat, results: seq<Row>): Result<seq<Row>>
    requires Advances(scan, rows) && pos <= |rows|
    decreases |rows| - pos
  {
    if |results| >= MAX_SCAN_RESULTS then Ok(results)
    else
      var reply := scan(call, ScanArgs(limit, KeyBefore(rows, pos)));
      assert KeyAdvances(reply, rows, pos);
      if reply.Refused? then Err("unexpected error: " + reply.message)
      else if reply.items.None? then Ok(results)
      else if reply.lastEvaluatedKey.None? then Ok(results + reply.items.value)
      else
        var next := PositionAfter(rows, reply.lastEvaluatedKey);
        ScanRun(scan, limit, rows, call + 1, next, results + reply.items.value)
  }

  /** Between two calls: the results are the matches among the rows evaluated, and at most one page is past the cap. */
  ghost predicate AtRow(results: seq<Row>, rows: seq<Row>, matches: Row -> bool, page: nat, pos: nat) {
    pos <= |rows| && results == Filter(rows[..pos], matches) && |results| <= MAX_SCAN_RESULTS - 1 + page
  }

  function ItemsOf(reply: ScanReply): seq<Row>
    requires reply.Page?
  {
    if reply.items.Some? then reply.items.value else []
  }

  /** A page either ends the scan or leads to the rows up to its continuation key. */
  lemma PageStep(reply: ScanReply, pageSize: Option<nat>, rows: seq<Row>, matches: Row -> bool, largest: nat,
                 pos: nat, results: seq<Row>) returns (to: nat)
    requires reply.Page? && ServesPage(reply, Limit(pageSize), rows, matches, largest, pos)
    requires AtRow(results, rows, matches, LargestPage(pageSize, largest), pos) && |results| < MAX_SCAN_RESULTS
    ensures AtRow(results + ItemsOf(reply), rows, matches, LargestPage(pageSize, largest), to)
    ensures reply.items.None? || reply.lastEvaluatedKey.None? ==>
              IsScan(results + ItemsOf(reply), rows, matches, LargestPage(pageSize, largest))
    ensures reply.lastEvaluatedKey.Some? ==> pos < to && reply.lastEvaluatedKey == KeyBefore(rows, to)
  {
    to :| IsPage(reply, Limit(pageSize), rows, matches, largest, pos, to);
    assert rows[..to] == rows[..pos] + rows[pos..to];
    FilterConcat(rows[..pos], rows[pos..to], matches);
    FilterShrinks(rows[pos..to], matches);
    assert ItemsOf(reply) == Filter(rows[pos..to], matches);
    if to == |rows| {
      assert IsScanUpTo(results + ItemsOf(reply), rows, matches, LargestPage(pageSize, largest), to);
    }
  }

  lemma CapReached(results: seq<Row>, rows: seq<Row>, matches: Row -> bool, page: nat, pos: nat)
    requires AtRow(results, rows, matches, page, pos) && |results| >= MAX_SCAN_RESULTS
    ensures IsScan(results, rows, matches, page)
  {
    assert IsScanUpTo(results, rows, matches, page, pos);
  }

  method Scan(scan: (nat, ScanArgs) -> ScanReply, pageSize: Option<nat>, ghost rows: seq<Row>,
              ghost matches: Row -> bool, ghost largest: nat)
    returns (r: Result<seq<Row>>)
    requires ServesTable(scan, rows, matches, largest)
    ensures r.Ok? ==> IsScan(r.value, rows, matches, LargestPage(pageSize, largest))
    ensures r.Err? ==> RefusedWith(scan, pageSize, r.error)
    ensures DistinctKeys(rows) ==> Advances(scan, rows) && r == ScanRun(scan, Limit(pageSize), rows, 0, 0, [])
  {
    if DistinctKeys(rows) { ServingAdvances(scan, rows, matches, largest); }
    var args := ScanArgs(None, None);
    if pageSize.Some? && pageSize.value > 0 {
      args := args.(limit := pageSize);
    }
    var results: seq<Row> := [];
    var lastEvaluatedKey: Option<string> := None;
    var call := 0;
    ghost var pos: nat := 0;
    ghost var run := if DistinctKeys(rows) then ScanRun(scan, Limit(pageSize), rows, 0, 0, []) else Ok([]);
    while |results| < MAX_SCAN_RESULTS
      invariant args.limit == Limit(pageSize)
      invariant args.exclusiveStartKey.Some? ==> lastEvaluatedKey.Some?
      invariant AtRow(results, rows, matches, LargestPage(pageSize, largest), pos)
      invariant lastEvaluatedKey == KeyBefore(rows, pos)
      invariant DistinctKeys(rows) ==> run == ScanRun(scan, Limit(pageSize), rows, call, pos, results)
      decreases |rows| - pos
    {
      if lastEvaluatedKey.Some? {
        args := args.(exclusiveStartKey := lastEvaluatedKey);
      }
      var scanResult := scan(call, args);
      assert args == ScanArgs(Limit(pageSize), KeyBefore(rows, pos));
      assert ServesPage(scanResult, Limit(pageSize), rows, matches, largest, pos);
      if scanResult.Refused? {
        return Err("unexpected error: " + scanResult.message);
      }
      ghost var to := PageStep(scanResult, pageSize, rows, matches, largest, pos, results);
      if scanResult.items.None? {
        assert results + [] == results;
        return Ok(results);
      }
      results := results + scanResult.items.value;
      if scanResult.lastEvaluatedKey.Some? {
        lastEvaluatedKey := scanResult.lastEvaluatedKey;
      } else {
        return Ok(results);
      }
      if DistinctKeys(rows) { PositionOfKey(rows, to); }
      pos := to;
      call := call + 1;
    }
    CapReached(results, rows, matches, LargestPage(pageSize, largest), pos);
    r := Ok(results);
  }

  // ----- what a result says about the table -----

  /**
   A result below the cap is the filter of the whole table, with no record skipped or repeated; and
   it is below the cap exactly when the table has fewer matches than the cap.
   */
  lemma BelowCapIffComplete(result: seq<Row>, rows: seq<Row>, matches: Row -> bool, page: nat)
    requires IsScan(result, rows, matches, page)
    ensures |result| < MAX_SCAN_RESULTS <==> |Filter(rows, matches)| < MAX_SCAN_RESULTS
    ensures |result| < MAX_SCAN_RESULTS ==> result == Filter(rows, matches)
    ensures result <= Filter(rows, matches)
  {
    var to: nat :| IsScanUpTo(result, rows, matches, page, to);
    assert rows == rows[..to] + rows[to..];
    FilterConcat(rows[..to], rows[to..], matches);
    if to == |rows| { assert rows[..to] == rows; }
  }

  /**
   A table with up to the cap of matches is always returned whole; of more, at least the cap's number
   of first matches is.
   */
  lemma WholeUpToCap(result: seq<Row>, rows: seq<Row>, matches: Row -> bool, page: nat)
    requires IsScan(result, rows, matches, page)
    ensures |Filter(rows, matches)| <= MAX_SCAN_RESULTS ==> result == Filter(rows, matches)
    ensures |Filter(rows, matches)| > MAX_SCAN_RESULTS ==> Filter(rows, matches)[..MAX_SCAN_RESULTS] <= result
  {
    BelowCapIffComplete(result, rows, matches, page);
    var all := Filter(rows, matches);
    assert result == all[..|result|];
    if |all| > MAX_SCAN_RESULTS {
      assert all[..MAX_SCAN_RESULTS] == result[..MAX_SCAN_RESULTS];
    }
  }

  /** A place in the table that has exactly n of the matches before it. */
  lemma {:induction false} PrefixWithMatches(rows: seq<Row>, matches: Row -> bool, n: nat) returns (to: nat)
    requires n <= |Filter(rows, matches)|
    ensures to <= |rows| && |Filter(rows[..to], matches)| == n
  {
    if n == 0 {
      to := 0;
    } else {
      var rest := PrefixWithMatches(rows[1..], matches, if matches(rows[0]) then n - 1 else n);
      to := rest + 1;
      assert rows[..to] == [rows[0]] + rows[1..][..rest];
      assert rows[..to][1..] == rows[1..][..rest];
    }
  }

  /**
   Every scan of a table returns all of its matches if and only if there are no more of them than the
   cap: with one more, a page can end so that the scan stops at the cap and leaves matches out.
   */
  lemma CompleteIffWithinCap(rows: seq<Row>, matches: Row -> bool, page: nat)
    requires page >= 1
    ensures (forall result | IsScan(result, rows, matches, page) :: result == Filter(rows, matches))
       <==> |Filter(rows, matches)| <= MAX_SCAN_RESULTS
  {
    forall result | IsScan(result, rows, matches, page)
      ensures |Filter(rows, matches)| <= MAX_SCAN_RESULTS ==> result == Filter(rows, matches)
    {
      WholeUpToCap(result, rows, matches, page);
    }
    if |Filter(rows, matches)| > MAX_SCAN_RESULTS {
      var to := PrefixWithMatches(rows, matches, MAX_SCAN_RESULTS);
      var short := Filter(rows[..to], matches);
      assert IsScanUpTo(short, rows, matches, page, to);
      assert IsScan(short, rows, matches, page) && short != Filter(rows, matches);
    }
  }

  /** A database that serves one row a page and refuses only a limit of zero. */
  function OneRow(rows: seq<Row>, matches: Row -> bool): (nat, ScanArgs) -> ScanReply {
    (call: nat, args: ScanArgs) =>
      var pos := PositionAfter(rows, args.exclusiveStartKey);
      if args.limit == Some(0) then Refused("limit")
      else if pos >= |rows| then Page(Some([]), None)
      else Page(Some(Filter([rows[pos]], matches)), if pos + 1 < |rows| then Some(rows[pos].streamId) else None)
  }

  lemma OneRowServes(rows: seq<Row>, matches: Row -> bool, largest: nat)
    requires DistinctKeys(rows) && largest >= 1
    ensures ServesTable(OneRow(rows, matches), rows, matches, largest)
  {
    var scan := OneRow(rows, matches);
    forall call: nat, limit: Option<nat>, from: nat | from <= |rows|
      ensures ServesPage(scan(call, ScanArgs(limit, KeyBefore(rows, from))), limit, rows, matches, largest, from)
    {
      PositionOfKey(rows, from);
      if limit != Some(0) {
        var reply := scan(call, ScanArgs(limit, KeyBefore(rows, from)));
        if from < |rows| {
          assert rows[from..from + 1] == [rows[from]];
          assert IsPage(reply, limit, rows, matches, largest, from, from + 1);
        } else {
          assert rows[from..from] == [];
          assert IsPage(reply, limit, rows, matches, largest, from, from);
        }
      }
    }
  }

  /** What a scan of a database that serves the table returns is a scan of the table. */
  lemma {:induction false} ScanRunIsScan(scan: (nat, ScanArgs) -> ScanReply, pageSize: Option<nat>, rows: seq<Row>,
                                         matches: Row -> bool, largest: nat, call: nat, pos: nat, results: seq<Row>)
    requires ServesTable(scan, rows, matches, largest) && DistinctKeys(rows) && Advances(scan, rows)
    requires AtRow(results, rows, matches, LargestPage(pageSize, largest), pos)
    ensures var r := ScanRun(scan, Limit(pageSize), rows, call, pos, results);
            r.Ok? ==> IsScan(r.value, rows, matches, LargestPage(pageSize, largest))
    decreases |rows| - pos
  {
    if |results| >= MAX_SCAN_RESULTS {
      CapReached(results, rows, matches, LargestPage(pageSize, largest), pos);
    } else {
      var reply := scan(call, ScanArgs(Limit(pageSize), KeyBefore(rows, pos)));
      assert ServesPage(reply, Limit(pageSize), rows, matches, largest, pos);
      if reply.Page? {
        var to := PageStep(reply, pageSize, rows, matches, largest, pos, results);
        if reply.items.Some? && reply.lastEvaluatedKey.Some? {
          PositionOfKey(rows, to);
          ScanRunIsScan(scan, pageSize, rows, matches, largest, call + 1, to, results + reply.items.value);
        } else {
          assert results + [] == results;
        }
      }
    }
  }

  lemma {:induction false} OneRowNeverRefuses(rows: seq<Row>, matches: Row -> bool, limit: Option<nat>,
                                              call: nat, pos: nat, results: seq<Row>)
    requires Advances(OneRow(rows, matches), rows) && pos <= |rows| && limit != Some(0)
    ensures ScanRun(OneRow(rows, matches), limit, rows, call, pos, results).Ok?
    decreases |rows| - pos
  {
    var reply := OneRow(rows, matches)(call, ScanArgs(limit, KeyBefore(rows, pos)));
    assert KeyAdvances(reply, rows, pos);
    if |results| < MAX_SCAN_RESULTS && reply.lastEvaluatedKey.Some? {
      var to := PositionAfter(rows, reply.lastEvaluatedKey);
      OneRowNeverRefuses(rows, matches, limit, call + 1, to, results + reply.items.value);
    }
  }

  /** Scanning that database, with any page size, ends well, with exactly the first matches up to the cap. */
  lemma OneRowStopsAtCap(rows: seq<Row>, matches: Row -> bool, pageSize: Option<nat>)
    requires DistinctKeys(rows)
    ensures Advances(OneRow(rows, matches), rows)
    ensures var r := ScanRun(OneRow(rows, matches), Limit(pageSize), rows, 0, 0, []);
            && r.Ok?
            && (|Filter(rows, matches)| > MAX_SCAN_RESULTS ==> r.value == Filter(rows, matches)[..MAX_SCAN_RESULTS])
            && (r.value == Filter(rows, matches) <==> |Filter(rows, matches)| <= MAX_SCAN_RESULTS)
  {
    var scan := OneRow(rows, matches);
    OneRowServes(rows, matches, 1);
    ServingAdvances(scan, rows, matches, 1);
    OneRowNeverRefuses(rows, matches, Limit(pageSize), 0, 0, []);
    ScanRunIsScan(scan, pageSize, rows, matches, 1, 0, 0, []);
    SingleRowPagesStopAtCap(ScanRun(scan, Limit(pageSize), rows, 0, 0, []).value, rows, matches);
  }

  /**
   The scan of a table, with whatever page size, returns all matches from every database that serves the
   table and does not refuse, if and only if the table has at most MAX_SCAN_RESULTS matches.
   */
  lemma EveryDatabaseCompleteIff(rows: seq<Row>, matches: Row -> bool, pageSize: Option<nat>, largest: nat)
    requires DistinctKeys(rows) && largest >= 1
    ensures (forall scan | ServesTable(scan, rows, matches, largest) && Advances(scan, rows) ::
               var r := ScanRun(scan, Limit(pageSize), rows, 0, 0, []);
               r.Ok? ==> r.value == Filter(rows, matches))
       <==> |Filter(rows, matches)| <= MAX_SCAN_RESULTS
  {
    if |Filter(rows, matches)| <= MAX_SCAN_RESULTS {
      forall scan | ServesTable(scan, rows, matches, largest) && Advances(scan, rows)
        ensures var r := ScanRun(scan, Limit(pageSize), rows, 0, 0, []);
                r.Ok? ==> r.value == Filter(rows, matches)
      {
        ScanRunIsScan(scan, pageSize, rows, matches, largest, 0, 0, []);
        var r := ScanRun(scan, Limit(pageSize), rows, 0, 0, []);
        if r.Ok? { WholeUpToCap(r.value, rows, matches, LargestPage(pageSize, largest)); }
      }
    } else {
      OneRowServes(rows, matches, largest);
      OneRowStopsAtCap(rows, matches, pageSize);
    }
  }

  /** With one row a page every scan returns exactly the first MAX_SCAN_RESULTS matches, or all if there are no more. */
  lemma SingleRowPagesStopAtCap(result: seq<Row>, rows: seq<Row>, matches: Row -> bool)
    requires IsScan(result, rows, matches, 1)
    ensures |Filter(rows, matches)| > MAX_SCAN_RESULTS ==> result == Filter(rows, matches)[..MAX_SCAN_RESULTS]
    ensures result == Filter(rows, matches) <==> |Filter(rows, matches)| <= MAX_SCAN_RESULTS
  {
    WholeUpToCap(result, rows, matches, 1);
    BelowCapIffComplete(result, rows, matches, 1);
  }

  // ----- the fetches -----

  predicate IsUnanchored(row: Row) { row.anchored == Some(false) }

  predicate IsAnchored(row: Row) { row.anchored == Some(true) }

  function IsExpired(now: int, streamTtl: int): Row -> bool {
    (row: Row) => row.creation.Some? && row.creation.value < now - streamTtl
  }

  ghost predicate DistinctKeys(rows: seq<Row>) {
    forall i, j :: 0 <= i < j < |rows| ==> rows[i].streamId != rows[j].streamId
  }

  lemma DistinctRest(rows: seq<Row>)
    requires rows != [] && DistinctKeys(rows)
    ensures DistinctKeys(rows[1..])
  {
    forall i, j | 0 <= i < j < |rows[1..]| ensures rows[1..][i].streamId != rows[1..][j].streamId {
      assert rows[i + 1].streamId != rows[j + 1].streamId;
    }
  }

  lemma {:induction false} FilterMember(rows: seq<Row>, matches: Row -> bool, row: Row)
    ensures row in Filter(rows, matches) <==> row in rows && matches(row)
  {
    if rows != [] {
      FilterMember(rows[1..], matches, row);
      assert rows == [rows[0]] + rows[1..];
    }
  }

  lemma {:induction false} FilterDistinct(rows: seq<Row>, matches: Row -> bool)
    requires DistinctKeys(rows)
    ensures DistinctKeys(Filter(rows, matches))
  {
    if rows != [] {
      var rest := Filter(rows[1..], matches);
      DistinctRest(rows);
      FilterDistinct(rows[1..], matches);
      forall j | 0 <= j < |rest| ensures rest[j].streamId != rows[0].streamId {
        FilterMember(rows[1..], matches, rest[j]);
        var k :| 0 <= k < |rows[1..]| && rows[1..][k] == rest[j];
        assert rows[k + 1].streamId != rows[0].streamId;
      }
    }
  }

  /** Scanning a table of distinct keys lists matching records of it, none twice. */
  lemma ScanListsRecords(result: seq<Row>, rows: seq<Row>, matches: Row -> bool, page: nat)
    requires IsScan(result, rows, matches, page) && DistinctKeys(rows)
    ensures DistinctKeys(result)
    ensures forall row | row in result :: row in rows && matches(row)
    ensures |result| < MAX_SCAN_RESULTS ==> forall row | row in rows && matches(row) :: row in result
  {
    BelowCapIffComplete(result, rows, matches, page);
    FilterDistinct(rows, matches);
    var all := Filter(rows, matches);
    forall i, j | 0 <= i < j < |result| ensures result[i].streamId != result[j].streamId {
      assert all[i].streamId != all[j].streamId;
    }
    forall row | row in result ensures row in rows && matches(row) {
      assert row in all;
      FilterMember(rows, matches, row);
    }
    forall row | row in rows && matches(row) ensures row in all {
      FilterMember(rows, matches, row);
    }
  }
}
