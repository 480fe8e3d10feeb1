/**
 The keyed table of anchor requests and the operations on it (suite/src/utils/dynamoDbHelpers.ts).
 */
module RequestTable {
  import opened Wrappers
  import opened DynamoScan

  type Records = map<string, Row>

  function After(rows: Records, call: Call, changed: Records): Records {
    if call.Applies() then changed else rows
  }

  function Stored(rows: Records, id: string, now: int, streamTtl: int): Records {
    rows[id := Row(id, Some(now), Some(now + (streamTtl + streamTtl)), Some(false))]
  }

  /** An update creates the record when it is missing. */
  function ForUpdate(rows: Records, id: string): Row {
    if id in rows then rows[id] else Row(id, None, None, None)
  }

  function Marked(rows: Records, id: string): Records {
    rows[id := ForUpdate(rows, id).(anchored := Some(true))]
  }

  function MadeExpired(rows: Records, id: string, now: int, streamTtl: int): Records {
    rows[id := ForUpdate(rows, id).(creation := Some(now - streamTtl - 1000))]
  }

  function Deleted(rows: Records, id: string): Records {
    rows - {id}
  }

  class Table {
    var rows: Records

    constructor ()
      ensures rows == map[]
    {
      rows := map[];
    }

    method StoreStreamReq(streamId: string, now: int, streamTtl: int, call: Call) returns (threw: bool)
      modifies this
      ensures threw == call.Throws()
      ensures rows == After(old(rows), call, Stored(old(rows), streamId, now, streamTtl))
    {
      if call.Applies() {
        var databaseTtl := streamTtl + streamTtl;
        rows := rows[streamId := Row(streamId, Some(now), Some(now + databaseTtl), Some(false))];
      }
      threw := call.Throws();
    }

    method MarkStreamReqAsAnchored(streamId: string, call: Call) returns (threw: bool)
      modifies this
      ensures threw == call.Throws()
      ensures rows == After(old(rows), call, Marked(old(rows), streamId))
    {
      if call.Applies() {
        if streamId !in rows {
          rows := rows[streamId := Row(streamId, None, None, None)];
        }
        rows := rows[streamId := rows[streamId].(anchored := Some(true))];
      }
      threw := call.Throws();
    }

    method MakeStreamReqAppearExpired(streamId: string, now: int, streamTtl: int, call: Call) returns (threw: bool)
      modifies this
      ensures threw == call.Throws()
      ensures rows == After(old(rows), call, MadeExpired(old(rows), streamId, now, streamTtl))
    {
      if call.Applies() {
        if streamId !in rows {
          rows := rows[streamId := Row(streamId, None, None, None)];
        }
        var expired := now - streamTtl - 1000;
        rows := rows[streamId := rows[streamId].(creation := Some(expired))];
      }
      threw := call.Throws();
    }

    method DeleteStreamReq(streamId: string, call: Call) returns (threw: bool)
      modifies this
      ensures threw == call.Throws()
      ensures rows == After(old(rows), call, Deleted(old(rows), streamId))
    {
      if call.Applies() {
        rows := rows - {streamId};
      }
      threw := call.Throws();
    }
  }

  /**
   What the writes make of the record itself: a stored one is dropped by the database only two TTLs after
   its creation, a mark changes nothing but the flag and is kept by a later expiry, and a record made to
   appear expired is one second older than the TTL. No other record is touched.
   */
  lemma WritesMeaning(rows: Records, id: string, now: int, streamTtl: int)
    ensures var row := Stored(rows, id, now, streamTtl)[id];
            && row.creation == Some(now) && row.expiration.Some? && IsUnanchored(row)
            && row.expiration.value - row.creation.value == 2 * streamTtl
    ensures var row := Marked(rows, id)[id];
            && IsAnchored(row)
            && (if id in rows then row.(anchored := rows[id].anchored) == rows[id]
                else row.creation == None && row.expiration == None && row.streamId == id)
    ensures var row := MadeExpired(rows, id, now, streamTtl)[id];
            && row.creation.Some? && now - row.creation.value == streamTtl + 1000
            && (if id in rows then row.(creation := rows[id].creation) == rows[id]
                else row.anchored == None && row.expiration == None && row.streamId == id)
    ensures MadeExpired(Marked(rows, id), id, now, streamTtl) == Marked(MadeExpired(rows, id, now, streamTtl), id)
    ensures Deleted(Stored(rows, id, now, streamTtl), id) == Deleted(Marked(rows, id), id) == Deleted(rows, id)
    ensures Deleted(MadeExpired(rows, id, now, streamTtl), id) == Deleted(rows, id)
    ensures id !in Deleted(rows, id) && forall other | other in rows && other != id ::
              other in Deleted(rows, id) && Deleted(rows, id)[other] == rows[other]
  {
  }

  // ----- scans of the table -----

  /** Every record carries its key, and one that can be fetched as unanchored carries its creation time. */
  ghost predicate WellFormed(rows: Records) {
    forall id | id in rows :: rows[id].streamId == id && (IsUnanchored(rows[id]) ==> rows[id].creation.Some?)
  }

  /** A scan order of the table. */
  ghost predicate Lists(listing: seq<Row>, rows: Records) {
    && DistinctKeys(listing)
    && (forall row | row in listing :: row.streamId in rows && rows[row.streamId] == row)
    && (forall id | id in rows :: rows[id] in listing)
  }

  /** Requests fetched from this table: some of its unanchored records, none twice, from position i on. */
  ghost predicate FetchedFrom(rows: Records, reqs: seq<Row>, i: nat) {
    && DistinctKeys(reqs)
    && forall j | i <= j < |reqs| ::
        reqs[j].streamId in rows && rows[reqs[j].streamId] == reqs[j] && IsUnanchored(reqs[j])
  }

  /** Whatever the paging, the scan for unanchored requests fetches records of the table, each with a creation time. */
  lemma ScanFetches(reqs: seq<Row>, listing: seq<Row>, rows: Records, page: nat)
    requires WellFormed(rows) && Lists(listing, rows) && IsScan(reqs, listing, IsUnanchored, page)
    ensures FetchedFrom(rows, reqs, 0)
    ensures forall req | req in reqs :: req.creation.Some?
    ensures |reqs| < MAX_SCAN_RESULTS ==> forall id | id in rows && IsUnanchored(rows[id]) :: rows[id] in reqs
  {
    ScanListsRecords(reqs, listing, IsUnanchored, page);
    forall j | 0 <= j < |reqs|
      ensures reqs[j].streamId in rows && rows[reqs[j].streamId] == reqs[j] && IsUnanchored(reqs[j])
    {
      assert reqs[j] in reqs;
    }
  }

  // ----- expiry -----

  /**
   Below the cap, a record is fetched as expired exactly when it has a creation time older than the
   TTL, to the millisecond.
   */
  lemma FetchesExactlyExpired(rows: Records, listing: seq<Row>, reqs: seq<Row>, page: nat, now: int, streamTtl: int,
                              id: string)
    requires Lists(listing, rows) && IsScan(reqs, listing, IsExpired(now, streamTtl), page) && |reqs| < MAX_SCAN_RESULTS
    requires id in rows
    ensures rows[id] in reqs <==> rows[id].creation.Some? && now - rows[id].creation.value > streamTtl
  {
    ScanListsRecords(reqs, listing, IsExpired(now, streamTtl), page);
    assert rows[id] in listing;
  }

  /**
   The expiration flow: a request stored at most the TTL ago is not fetched as expired, and once made to
   appear expired it is, from that moment on and even if it was not in the table.
   */
  lemma ExpirationFlow(rows: Records, id: string, stored: int, made: int, now: int, streamTtl: int,
                       listing: seq<Row>, reqs: seq<Row>, page: nat)
    requires |reqs| < MAX_SCAN_RESULTS && IsScan(reqs, listing, IsExpired(now, streamTtl), page)
    ensures Lists(listing, Stored(rows, id, stored, streamTtl)) && now - stored <= streamTtl ==>
              Stored(rows, id, stored, streamTtl)[id] !in reqs
    ensures Lists(listing, MadeExpired(rows, id, made, streamTtl)) && made <= now ==>
              MadeExpired(rows, id, made, streamTtl)[id] in reqs
  {
    if Lists(listing, Stored(rows, id, stored, streamTtl)) {
      FetchesExactlyExpired(Stored(rows, id, stored, streamTtl), listing, reqs, page, now, streamTtl, id);
    }
    if Lists(listing, MadeExpired(rows, id, made, streamTtl)) {
      FetchesExactlyExpired(MadeExpired(rows, id, made, streamTtl), listing, reqs, page, now, streamTtl, id);
    }
  }

  /**
   The anchoring flow: a stored request is fetched as unanchored, and once marked it is not, while every
   other unanchored one still is; a request made to appear expired without being in the table never is.
   */
  lemma AnchoringFlow(rows: Records, id: string, now: int, streamTtl: int, listing: seq<Row>, reqs: seq<Row>, page: nat)
    requires |reqs| < MAX_SCAN_RESULTS && IsScan(reqs, listing, IsUnanchored, page)
    ensures Lists(listing, Stored(rows, id, now, streamTtl)) ==> Stored(rows, id, now, streamTtl)[id] in reqs
    ensures Lists(listing, Marked(rows, id)) ==>
              && Marked(rows, id)[id] !in reqs
              && forall other | other in rows && other != id && IsUnanchored(rows[other]) :: rows[other] in reqs
    ensures id !in rows && Lists(listing, MadeExpired(rows, id, now, streamTtl)) ==>
              MadeExpired(rows, id, now, streamTtl)[id] !in reqs
  {
    if Lists(listing, Stored(rows, id, now, streamTtl)) || Lists(listing, Marked(rows, id))
        || Lists(listing, MadeExpired(rows, id, now, streamTtl)) {
      ScanListsRecords(reqs, listing, IsUnanchored, page);
    }
    if Lists(listing, Marked(rows, id)) {
      forall other | other in rows && other != id && IsUnanchored(rows[other]) ensures rows[other] in reqs {
        assert Marked(rows, id)[other] in listing;
      }
    }
  }
}
