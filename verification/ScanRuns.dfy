/**
 How a scan ends, call by call (suite/src/utils/dynamoDbHelpers.ts).

 The place in the table and the results after n calls are defined without the conditions that end a scan;
 a scan ends at the first call at which it has reached the cap, is refused or gets the last page.
 */
module ScanRuns {
  import opened Wrappers
  import opened DynamoScan

  /** A scan of a table: the database, the limit sent with each call, and the rows. */
  datatype Scanning = Scanning(scan: (nat, ScanArgs) -> ScanReply, limit: Option<nat>, rows: seq<Row>)

  /** The number of rows evaluated by the first n calls, going by the continuation keys. */
  function RowsAfter(s: Scanning, n: nat): (pos: nat)
    ensures pos <= |s.rows|
    decreases n, 0
  {
    if n == 0 || ReplyTo(s, n - 1).Refused? then 0 else PositionAfter(s.rows, ReplyTo(s, n - 1).lastEvaluatedKey)
  }

  /** The answer to call n, which starts after those rows. */
  function ReplyTo(s: Scanning, n: nat): ScanReply
    decreases n, 1
  {
    s.scan(n, ScanArgs(s.limit, KeyBefore(s.rows, RowsAfter(s, n))))
  }

  function ItemsIn(reply: ScanReply): seq<Row> {
    if reply.Page? then ItemsOf(reply) else []
  }

  /** All items of the first n calls. */
  function FoundAfter(s: Scanning, n: nat): seq<Row> {
    if n == 0 then [] else FoundAfter(s, n - 1) + ItemsIn(ReplyTo(s, n - 1))
  }

  /** Call n is made and answered with a page that has items and is not the last. */
  ghost predicate GoesOn(s: Scanning, n: nat) {
    && |FoundAfter(s, n)| < MAX_SCAN_RESULTS
    && ReplyTo(s, n).Page? && ReplyTo(s, n).items.Some? && ReplyTo(s, n).lastEvaluatedKey.Some?
  }

  ghost predicate Gets(s: Scanning, n: nat) {
    forall m: nat | m < n :: GoesOn(s, m)
  }

  /** The scan gets to call n and is still below the cap. */
  ghost predicate MakesCall(s: Scanning, n: nat) {
    Gets(s, n) && |FoundAfter(s, n)| < MAX_SCAN_RESULTS
  }

  ghost function RunFrom(s: Scanning, n: nat): Result<seq<Row>>
    requires Advances(s.scan, s.rows)
  {
    ScanRun(s.scan, s.limit, s.rows, n, RowsAfter(s, n), FoundAfter(s, n))
  }

  lemma {:induction false} GetsThere(s: Scanning, n: nat)
    requires Advances(s.scan, s.rows) && Gets(s, n)
    ensures RunFrom(s, 0) == RunFrom(s, n)
  {
    if n > 0 {
      GetsThere(s, n - 1);
      assert GoesOn(s, n - 1);
    }
  }

  /** A scan that gets to call n and no further ends there. */
  lemma EndsAt(s: Scanning, n: nat)
    requires Advances(s.scan, s.rows) && Gets(s, n) && !GoesOn(s, n)
    ensures RunFrom(s, 0) ==
              if |FoundAfter(s, n)| >= MAX_SCAN_RESULTS then Ok(FoundAfter(s, n))
              else
                match ReplyTo(s, n)
                case Refused(message) => Err("unexpected error: " + message)
                case Page(_, _) => Ok(FoundAfter(s, n + 1))
  {
    GetsThere(s, n);
    assert FoundAfter(s, n) + [] == FoundAfter(s, n);
  }

  /** Every scan ends. */
  lemma {:induction false} LastCall(s: Scanning, n: nat) returns (last: nat)
    requires Advances(s.scan, s.rows) && Gets(s, n)
    ensures Gets(s, last) && !GoesOn(s, last)
    decreases |s.rows| - RowsAfter(s, n)
  {
    if GoesOn(s, n) {
      assert KeyAdvances(ReplyTo(s, n), s.rows, RowsAfter(s, n));
      last := LastCall(s, n + 1);
    } else {
      last := n;
    }
  }

  /** The scan makes call n, which is refused with this message. */
  ghost predicate RefusedAt(s: Scanning, n: nat, message: string) {
    MakesCall(s, n) && ReplyTo(s, n) == Refused(message)
  }

  lemma RefusedEnds(s: Scanning, n: nat, message: string, last: nat)
    requires RefusedAt(s, n, message) && Gets(s, last) && !GoesOn(s, last)
    ensures n == last
  {
    assert !GoesOn(s, n);
  }

  /** A scan fails if and only if one of the calls it makes is refused, and then with the error of that call. */
  lemma ErrsIffRefused(s: Scanning, e: string)
    requires Advances(s.scan, s.rows)
    ensures RunFrom(s, 0) == Err(e)
            <==> exists n: nat, message :: RefusedAt(s, n, message) && e == "unexpected error: " + message
    ensures (forall n: nat | MakesCall(s, n) :: ReplyTo(s, n).Page?) ==> RunFrom(s, 0).Ok?
  {
    var last := LastCall(s, 0);
    EndsAt(s, last);
    forall n: nat, message | RefusedAt(s, n, message) ensures n == last { RefusedEnds(s, n, message, last); }
    if RunFrom(s, 0) == Err(e) {
      assert RefusedAt(s, last, ReplyTo(s, last).message);
    }
  }

  /** Only a positive page size is sent as a limit, and no page is then larger than it. */
  lemma PageSizeLimits(reply: ScanReply, pageSize: Option<nat>, rows: seq<Row>, matches: Row -> bool, largest: nat,
                       from: nat, to: nat)
    requires IsPage(reply, Limit(pageSize), rows, matches, largest, from, to)
    ensures forall n :: Limit(pageSize) == Some(n) <==> pageSize == Some(n) && n > 0
    ensures |ItemsOf(reply)| <= to - from <= LargestPage(pageSize, largest) <= largest
    ensures forall n :: pageSize == Some(n) && n > 0 ==> LargestPage(pageSize, largest) <= n
  {
    FilterShrinks(rows[from..to], matches);
  }
}
