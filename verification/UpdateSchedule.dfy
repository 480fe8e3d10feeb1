/**
 The single-writer update schedule and the rotations it is run for
 (suite/src/__tests__/correctness/fast/update.test.ts).
 */
module UpdateSchedule {
  import opened Wrappers

  /** A write of the first node: the content's step and whether the write asks for an anchor. */
  datatype Write = Write(step: nat, anchor: bool)

  /**
   What the environment does during one schedule. `created`, `replaced(idx)` and `stored`: how the
   creation of the stream, the write made for node idx (0 is the plain update) and the storing of the
   anchor request go. `loads(idx)`: node idx can load the stream. `heldAtLoad(idx)` and
   `heldAtSync(idx)`: how many writes of the log the replica has received when its wait ends.
   */
  datatype Answers = Answers(created: Call, replaced: nat -> Call, loads: nat -> bool,
                             heldAtLoad: nat -> nat, heldAtSync: nat -> nat, stored: Call)

  /** A replica that receives the first `held` writes shows this step at some point. */
  predicate ShowsStep(log: seq<Write>, held: nat, step: nat) {
    exists q | 0 <= q < |log| :: q < held && log[q].step == step
  }

  /** The test that creates the stream keeps its document for the later tests. */
  predicate HasDocument(a: Answers) { !a.created.Throws() }

  /** The write with step m is in the log, whether or not its call threw. */
  predicate Landed(a: Answers, m: nat) {
    if m == 0 then a.created.Applies() else HasDocument(a) && a.replaced(m - 1).Applies()
  }

  /** The writer's log once the counter has reached m, on n nodes. */
  function LogAfter(a: Answers, n: nat, m: nat): seq<Write> {
    if m == 0 then if Landed(a, 0) then [Write(0, false)] else []
    else LogAfter(a, n, m - 1) + if Landed(a, m) then [Write(m, n >= 2 && m == n)] else []
  }

  /**
   Steps strictly increase and never pass the counter; a write asks for an anchor exactly if it is step
   n of two or more nodes.
   */
  ghost predicate Shaped(log: seq<Write>, n: nat, m: nat) {
    && (forall i, j | 0 <= i < j < |log| :: log[i].step < log[j].step)
    && (forall i | 0 <= i < |log| :: log[i].step <= m)
    && (forall i | 0 <= i < |log| :: log[i].anchor <==> n >= 2 && log[i].step == n)
  }

  lemma ShapedAppend(log: seq<Write>, n: nat, m: nat)
    requires m > 0 && Shaped(log, n, m - 1)
    ensures Shaped(log + [Write(m, n >= 2 && m == n)], n, m)
  {
  }

  lemma LogStep(a: Answers, n: nat, m: nat)
    requires m > 0
    ensures Landed(a, m) ==> LogAfter(a, n, m) == LogAfter(a, n, m - 1) + [Write(m, n >= 2 && m == n)]
    ensures !Landed(a, m) ==> LogAfter(a, n, m) == LogAfter(a, n, m - 1)
  {
  }

  /** The log is well shaped whatever fails. */
  lemma {:induction false} LogShape(a: Answers, n: nat, m: nat)
    ensures Shaped(LogAfter(a, n, m), n, m)
  {
    if m > 0 {
      LogShape(a, n, m - 1);
      LogStep(a, n, m);
      if Landed(a, m) { ShapedAppend(LogAfter(a, n, m - 1), n, m); }
    }
  }

  /** Its last step is the counter exactly if the current write landed. */
  lemma LastStepIsCounter(a: Answers, n: nat, m: nat)
    ensures var log := LogAfter(a, n, m);
            Landed(a, m) <==> log != [] && log[|log| - 1].step == m
  {
    if m > 0 {
      LogShape(a, n, m - 1);
      LogStep(a, n, m);
    }
  }

  /**
   A replica meets the wait condition exactly when the current write has landed and the replica holds
   the whole log.
   */
  lemma ConditionMeansWholeLog(a: Answers, n: nat, m: nat, held: nat)
    ensures ShowsStep(LogAfter(a, n, m), held, m) <==> Landed(a, m) && held >= |LogAfter(a, n, m)|
  {
    LogShape(a, n, m);
    LastStepIsCounter(a, n, m);
    var log := LogAfter(a, n, m);
    if q :| 0 <= q < |log| && q < held && log[q].step == m {
      assert log[|log| - 1].step <= m;
    }
    if Landed(a, m) && held >= |log| {
      assert log[|log| - 1].step == m;
    }
  }

  /** The load test of node idx: the current write is step idx, and the node holds all of the log. */
  predicate LoadPasses(a: Answers, n: nat, idx: nat) {
    HasDocument(a) && Landed(a, idx) && a.loads(idx) && a.heldAtLoad(idx) >= |LogAfter(a, n, idx)|
  }

  /** The sync test of node idx ends its wait: its write, step idx + 1, went well and the node has the whole log. */
  predicate Syncs(a: Answers, n: nat, idx: nat) {
    && HasDocument(a) && a.replaced(idx) == Succeeds && a.loads(idx)
    && a.heldAtSync(idx) >= |LogAfter(a, n, idx + 1)|
  }

  /** The last sync test also stores the request. */
  predicate SyncPasses(a: Answers, n: nat, idx: nat) {
    Syncs(a, n, idx) && (idx + 1 == n ==> a.stored == Succeeds)
  }

  /** The writes of the log are those whose calls took effect, of a stream whose creation did not throw. */
  lemma {:induction false} StepsInLog(a: Answers, n: nat, m: nat, step: nat)
    ensures (exists q | 0 <= q < |LogAfter(a, n, m)| :: LogAfter(a, n, m)[q].step == step) <==>
              && step <= m
              && if step == 0 then a.created != FailsUnapplied
                 else a.created == Succeeds && a.replaced(step - 1) != FailsUnapplied
  {
    if m > 0 {
      var before, log := LogAfter(a, n, m - 1), LogAfter(a, n, m);
      StepsInLog(a, n, m - 1, step);
      LogStep(a, n, m);
      if q :| 0 <= q < |before| && before[q].step == step { assert log[q].step == step; }
      if Landed(a, m) { assert log[|before|].step == m; }
    } else if Landed(a, 0) {
      assert LogAfter(a, n, m)[0].step == 0;
    }
  }

  /** A load test that passes had a replica that showed the document with step idx; nothing else is asked. */
  lemma LoadPassesIff(a: Answers, n: nat, idx: nat)
    ensures LoadPasses(a, n, idx)
            <==> a.created == Succeeds && a.loads(idx) && ShowsStep(LogAfter(a, n, idx), a.heldAtLoad(idx), idx)
  {
    ConditionMeansWholeLog(a, n, idx, a.heldAtLoad(idx));
  }

  /** A sync test also asks that its own write did not throw and, for the last node, that the request was stored. */
  lemma SyncPassesIff(a: Answers, n: nat, idx: nat)
    ensures SyncPasses(a, n, idx) <==>
              && a.created == Succeeds && a.replaced(idx) == Succeeds && a.loads(idx)
              && ShowsStep(LogAfter(a, n, idx + 1), a.heldAtSync(idx), idx + 1)
              && (idx + 1 == n ==> a.stored == Succeeds)
  {
    ConditionMeansWholeLog(a, n, idx + 1, a.heldAtSync(idx));
  }

  lemma {:induction false} FullLog(a: Answers, n: nat, m: nat)
    requires forall i | 0 <= i <= m :: Landed(a, i)
    ensures |LogAfter(a, n, m)| == m + 1
  {
    if m > 0 { FullLog(a, n, m - 1); }
  }

  /**
   All tests of a schedule over two or more nodes pass if and only if the stream is created, no write is
   lost, those of the sync tests do not throw, every node loads the document, has everything at both of its
   waits, and the request is stored. Only the plain update may throw, if it took effect.
   */
  lemma AllPassIff(a: Answers, n: nat)
    requires n >= 2
    ensures (forall idx: nat | 1 <= idx < n :: LoadPasses(a, n, idx) && SyncPasses(a, n, idx)) <==>
              && a.created == Succeeds && a.replaced(0) != FailsUnapplied && a.stored == Succeeds
              && forall i: nat | 1 <= i < n ::
                   a.replaced(i) == Succeeds && a.loads(i) && a.heldAtLoad(i) >= i + 1 && a.heldAtSync(i) >= i + 2
  {
    if forall idx: nat | 1 <= idx < n :: LoadPasses(a, n, idx) && SyncPasses(a, n, idx) {
      assert LoadPasses(a, n, 1) && SyncPasses(a, n, n - 1);
      forall i: nat | 1 <= i < n
        ensures a.replaced(i) == Succeeds && a.loads(i) && a.heldAtLoad(i) >= i + 1 && a.heldAtSync(i) >= i + 2
      {
        assert LoadPasses(a, n, i) && SyncPasses(a, n, i);
        forall m: nat | 1 <= m <= i ensures Landed(a, m) { assert LoadPasses(a, n, m); }
        FullLog(a, n, i);
        FullLog(a, n, i + 1);
      }
    } else if && a.created == Succeeds && a.replaced(0) != FailsUnapplied && a.stored == Succeeds
              && forall i: nat | 1 <= i < n ::
                   a.replaced(i) == Succeeds && a.loads(i) && a.heldAtLoad(i) >= i + 1 && a.heldAtSync(i) >= i + 2 {
      forall idx: nat | 1 <= idx < n ensures LoadPasses(a, n, idx) && SyncPasses(a, n, idx) {
        forall m: nat | 1 <= m <= idx + 1 ensures Landed(a, m) { assert m > 1 ==> a.replaced(m - 1) == Succeeds; }
        FullLog(a, n, idx);
        FullLog(a, n, idx + 1);
      }
    }
  }

  function RequestsStored(a: Answers, n: nat): nat {
    if n >= 2 && Syncs(a, n, n - 1) && a.stored.Applies() then 1 else 0
  }

  /** The one request is stored by the last sync test, when it has met its wait, even if storing then throws. */
  lemma RequestsStoredIff(a: Answers, n: nat)
    ensures RequestsStored(a, n) <= 1
    ensures RequestsStored(a, n) == 1 <==>
              && n >= 2 && a.created == Succeeds && a.replaced(n - 1) == Succeeds && a.loads(n - 1)
              && ShowsStep(LogAfter(a, n, n), a.heldAtSync(n - 1), n) && a.stored != FailsUnapplied
  {
    if n >= 2 { ConditionMeansWholeLog(a, n, n, a.heldAtSync(n - 1)); }
  }

  /**
   The tests of one schedule over n nodes. A test that fails does not keep the later ones from running,
   so the counter advances whatever happens: it is idx when node idx is loaded, idx + 1 when it is
   synced, and n at the end.
   */
  method TestUpdate(n: nat, a: Answers)
    returns (step: nat, log: seq<Write>, loadPassed: seq<bool>, syncPassed: seq<bool>, requests: nat)
    requires n >= 1
    ensures step == n && log == LogAfter(a, n, n)
    ensures |loadPassed| == n - 1 && forall idx :: 1 <= idx < n ==> loadPassed[idx - 1] == LoadPasses(a, n, idx)
    ensures |syncPassed| == n - 1 && forall idx :: 1 <= idx < n ==> syncPassed[idx - 1] == SyncPasses(a, n, idx)
    ensures requests == RequestsStored(a, n)
  {
    step, log, requests := 0, [], 0;
    loadPassed, syncPassed := [], [];
    if a.created.Applies() {
      log := log + [Write(step, false)];
    }
    var hasDocument := !a.created.Throws();
    assert log == LogAfter(a, n, 0);
    step := step + 1;
    if hasDocument && a.replaced(0).Applies() {
      log := log + [Write(step, false)];
    }
    for idx := 1 to n
      invariant step == idx && log == LogAfter(a, n, idx)
      invariant |loadPassed| == idx - 1 && forall i :: 1 <= i < idx ==> loadPassed[i - 1] == LoadPasses(a, n, i)
      invariant |syncPassed| == idx - 1 && forall i :: 1 <= i < idx ==> syncPassed[i - 1] == SyncPasses(a, n, i)
      invariant requests == if idx == n then RequestsStored(a, n) else 0
    {
      var docLoaded := hasDocument && a.loads(idx);
      ConditionMeansWholeLog(a, n, idx, a.heldAtLoad(idx));
      loadPassed := loadPassed + [docLoaded && ShowsStep(log, a.heldAtLoad(idx), step)];

      var isFinalWriter := idx == n - 1;
      step := step + 1;
      var passed := false;
      if hasDocument && a.replaced(idx).Applies() {
        log := log + [Write(step, isFinalWriter)];
      }
      if hasDocument && !a.replaced(idx).Throws() {
        ConditionMeansWholeLog(a, n, idx + 1, a.heldAtSync(idx));
        passed := docLoaded && ShowsStep(log, a.heldAtSync(idx), step);
        if passed && isFinalWriter {
          if a.stored.Applies() {
            requests := requests + 1;
          }
          passed := !a.stored.Throws();
        }
      }
      syncPassed := syncPassed + [passed];
    }
  }

  // ----- rotations -----

  function GenerateUrlCombinations<T>(urls: seq<T>): seq<seq<T>> {
    seq(|urls|, index requires 0 <= index < |urls| => urls[index..] + urls[..index])
  }

  lemma RotationWraps<T>(urls: seq<T>, i: nat, j: nat)
    requires i < |urls| && j < |urls|
    ensures |GenerateUrlCombinations(urls)[i]| == |urls|
    ensures GenerateUrlCombinations(urls)[i][j] == urls[if i + j < |urls| then i + j else i + j - |urls|]
  {
  }

  lemma Modulo(x: nat, n: nat)
    requires x < n + n
    ensures n > 0 && x % n == if x < n then x else x - n
  {
    if x >= n {
      var r := x - n;
      assert r % n == r;
      assert (r + n) % n == r % n;
    }
  }

  /** Entry j of rotation i is the URL at (i + j) mod n. */
  lemma RotationEntry<T>(urls: seq<T>, i: nat, j: nat)
    requires i < |urls| && j < |urls|
    ensures |GenerateUrlCombinations(urls)| == |urls| && |GenerateUrlCombinations(urls)[i]| == |urls|
    ensures GenerateUrlCombinations(urls)[i][j] == urls[(i + j) % |urls|]
  {
    RotationWraps(urls, i, j);
    Modulo(i + j, |urls|);
  }

  /** The j-th node of every rotation, in order of the rotations. */
  function Column<T>(urls: seq<T>, j: nat): seq<T>
    requires j < |urls|
  {
    seq(|urls|, i requires 0 <= i < |urls| => RotationWraps(urls, i, j); GenerateUrlCombinations(urls)[i][j])
  }

  /** A Latin square: every row and every column is a permutation of the URLs; column j is in fact row j. */
  lemma LatinSquare<T>(urls: seq<T>, j: nat)
    requires j < |urls|
    ensures multiset(GenerateUrlCombinations(urls)[j]) == multiset(urls)
    ensures Column(urls, j) == GenerateUrlCombinations(urls)[j]
    ensures multiset(Column(urls, j)) == multiset(urls)
  {
    var row := GenerateUrlCombinations(urls)[j];
    assert urls == urls[..j] + urls[j..];
    assert row == urls[j..] + urls[..j];
    forall i | 0 <= i < |urls| ensures Column(urls, j)[i] == row[i] {
      RotationWraps(urls, i, j);
      RotationWraps(urls, j, i);
    }
    assert |Column(urls, j)| == |row|;
  }

  /** Nothing goes wrong in a schedule. */
  ghost predicate Flawless(a: Answers, n: nat) {
    && a.created == Succeeds && a.stored == Succeeds
    && (forall i | 0 <= i < n :: a.replaced(i) == Succeeds)
    && (forall i | 1 <= i < n :: a.loads(i) && a.heldAtLoad(i) >= i + 1 && a.heldAtSync(i) >= i + 2)
  }

  lemma {:induction false} FlawlessLog(a: Answers, n: nat, m: nat)
    requires Flawless(a, n) && m <= n
    ensures |LogAfter(a, n, m)| == m + 1
  {
    if m > 0 { FlawlessLog(a, n, m - 1); }
  }

  /** Every test of such a schedule passes. */
  lemma FlawlessPasses(a: Answers, n: nat, idx: nat)
    requires Flawless(a, n) && 1 <= idx < n
    ensures LoadPasses(a, n, idx) && SyncPasses(a, n, idx)
  {
    AllPassIff(a, n);
  }

  /** The schedule for rotation i makes this node the writer. */
  ghost predicate WritesFirst<T>(urls: seq<T>, i: nat, u: T)
    requires i < |urls|
  {
    |GenerateUrlCombinations(urls)[i]| > 0 && GenerateUrlCombinations(urls)[i][0] == u
  }

  /** The requests stored by running the schedule once for each of the first k rotations of n nodes. */
  function TotalStored(runs: nat -> Answers, n: nat, k: nat): nat {
    if k == 0 then 0 else TotalStored(runs, n, k - 1) + RequestsStored(runs(k - 1), n)
  }

  /**
   Running the schedule for all rotations of two or more distinct URLs makes each node the writer
   exactly once and, when nothing goes wrong, stores exactly one request a rotation; on a single node
   it stores none.
   */
  lemma {:induction false} EachNodeWritesOnce<T>(urls: seq<T>, runs: nat -> Answers, k: nat)
    requires k <= |urls|
    requires forall i, j :: 0 <= i < j < |urls| ==> urls[i] != urls[j]
    requires forall i | 0 <= i < k :: Flawless(runs(i), |urls|)
    ensures forall u | u in urls :: exists i ::
              && 0 <= i < |urls| && urls[i] == u && WritesFirst(urls, i, u)
              && forall j | 0 <= j < |urls| && j != i :: !WritesFirst(urls, j, u)
    ensures TotalStored(runs, |urls|, k) == if |urls| >= 2 then k else 0
  {
    forall u | u in urls
      ensures exists i ::
                && 0 <= i < |urls| && urls[i] == u && WritesFirst(urls, i, u)
                && forall j | 0 <= j < |urls| && j != i :: !WritesFirst(urls, j, u)
    {
      var i :| 0 <= i < |urls| && urls[i] == u;
      RotationWraps(urls, i, 0);
      forall j | 0 <= j < |urls| && j != i ensures !WritesFirst(urls, j, u) {
        RotationWraps(urls, j, 0);
      }
    }
    if k > 0 {
      EachNodeWritesOnce(urls, runs, k - 1);
      FlawlessLog(runs(k - 1), |urls|, |urls|);
    }
  }
}
