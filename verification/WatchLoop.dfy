/**
 The windowed watch loop and the scan of what its windows yield (hermetic/src/cli/tester.rs).
 */
module WatchLoop {
  import opened Wrappers

  newtype u32 = x: int | 0 <= x < 0x1_0000_0000

  const MAX_KUBE_WATCH_TIMEOUT: u32 := 290

  // ----- the time budget -----

  /** The whole budget cut into windows of maxTimeout seconds, with what is left over as the last. */
  function Windows(timeoutSeconds: u32, maxTimeout: u32): seq<u32>
    requires maxTimeout > 0
  {
    if timeoutSeconds == 0 then []
    else if timeoutSeconds <= maxTimeout then [timeoutSeconds]
    else [maxTimeout] + Windows(timeoutSeconds - maxTimeout, maxTimeout)
  }

  function Sum(windows: seq<u32>): int {
    if windows == [] then 0 else windows[0] as int + Sum(windows[1..])
  }

  /** The windows sum to exactly the budget, each is of 1 to max seconds, and all but the last are of max. */
  lemma {:induction false} WindowsSpendBudget(timeoutSeconds: u32, maxTimeout: u32)
    requires maxTimeout > 0
    ensures var w := Windows(timeoutSeconds, maxTimeout);
            && Sum(w) == timeoutSeconds as int
            && (forall i | 0 <= i < |w| :: 1 <= w[i] <= maxTimeout)
            && (forall i | 0 <= i < |w| - 1 :: w[i] == maxTimeout)
  {
    if timeoutSeconds > maxTimeout {
      WindowsSpendBudget(timeoutSeconds - maxTimeout, maxTimeout);
      assert Windows(timeoutSeconds, maxTimeout)[1..] == Windows(timeoutSeconds - maxTimeout, maxTimeout);
    }
  }

  /** The budget takes exactly ceil(timeout / max) windows. */
  lemma {:induction false} WindowsCount(timeoutSeconds: u32, maxTimeout: u32)
    requires maxTimeout > 0
    ensures |Windows(timeoutSeconds, maxTimeout)| == (timeoutSeconds as int + maxTimeout as int - 1) / maxTimeout as int
  {
    var t, m := timeoutSeconds as int, maxTimeout as int;
    if timeoutSeconds == 0 {
      DivideUp(0, m, 0);
    } else if timeoutSeconds <= maxTimeout {
      DivideUp(t, m, 1);
    } else {
      WindowsCount(timeoutSeconds - maxTimeout, maxTimeout);
      DivideUpStep(t, m);
    }
  }

  lemma DivideUp(t: int, m: int, q: int)
    requires m > 0 && (q == 0 || q == 1) && m * q - m < t <= m * q
    ensures (t + m - 1) / m == q
  {
  }

  lemma DivideUpStep(t: int, m: int)
    requires m > 0
    ensures (t + m - 1) / m == 1 + (t - m + m - 1) / m
  {
    var q := (t - 1) / m;
    assert t - 1 == q * m + (t - 1) % m;
    assert t + m - 1 == (q + 1) * m + (t - 1) % m by { assert (q + 1) * m == q * m + m; }
    QuotientIs(t + m - 1, m, q + 1, (t - 1) % m);
  }

  lemma QuotientIs(x: int, m: int, q: int, r: int)
    requires m > 0 && 0 <= r < m && x == q * m + r
    ensures x / m == q
  {
    var d := x / m - q;
    assert x == (x / m) * m + x % m;
    assert (x / m) * m == q * m + d * m by { assert (q + d) * m == q * m + d * m; }
    assert d * m == r - x % m;
    MultipleIsFar(d, m);
  }

  lemma MultipleIsFar(d: int, m: int)
    requires m > 0
    ensures d >= 1 ==> d * m >= m
    ensures d <= -1 ==> d * m <= -m
  {
  }

  // ----- the loop -----

  /** The verdict of calling f once a window, in order, until it is decisive. */
  function LoopVerdict<R>(f: (nat, u32) -> Result<Option<R>>, windows: seq<u32>, i: nat): Result<R>
    decreases |windows| - i
  {
    if i >= |windows| then Err("watch timeout exceeded")
    else
      match f(i, windows[i])
      case Err(e) => Err(e)
      case Ok(Some(result)) => Ok(result)
      case Ok(None) => LoopVerdict(f, windows, i + 1)
  }

  /**
   The first n calls were made with the first n windows, none of them decisive, and the rest of the
   budget is still to be spent.
   */
  ghost predicate Undecided<R>(f: (nat, u32) -> Result<Option<R>>, all: seq<u32>, n: nat, left: u32, maxTimeout: u32)
    requires maxTimeout > 0
  {
    && n <= |all|
    && all[n..] == Windows(left, maxTimeout)
    && (forall i | 0 <= i < n :: f(i, all[i]) == Ok(None))
    && LoopVerdict(f, all, 0) == LoopVerdict(f, all, n)
  }

  /**
   How a loop ends: the calls were made with windows of the budget in order, none but the last is decisive,
   the last is unless they are all the windows, and the result is the verdict over the windows.
   */
  ghost predicate Decided<R>(f: (nat, u32) -> Result<Option<R>>, calls: seq<u32>, all: seq<u32>, r: Result<R>) {
    && calls <= all
    && (forall i | 0 <= i < |calls| - 1 :: f(i, all[i]) == Ok(None))
    && (calls == all || (calls != [] && f(|calls| - 1, calls[|calls| - 1]) != Ok(None)))
    && r == LoopVerdict(f, all, 0)
  }

  /** One more call: its window is what the loop computes, and it ends the loop unless it is undecided too. */
  lemma CallStep<R>(f: (nat, u32) -> Result<Option<R>>, all: seq<u32>, n: nat, left: u32, maxTimeout: u32)
    requires maxTimeout > 0 && left > 0 && Undecided(f, all, n, left, maxTimeout)
    ensures var timeout := if left < maxTimeout then left else maxTimeout;
            var answer := f(n, timeout);
            && n < |all| && all[n] == timeout
            && (answer == Ok(None) ==> Undecided(f, all, n + 1, left - timeout, maxTimeout))
            && (answer != Ok(None) ==> Decided(f, all[..n + 1], all, Verdict(answer)))
  {
    FirstWindow(left, maxTimeout);
    assert all[n] == all[n..][0];
    assert all[n + 1..] == all[n..][1..];
  }

  /** With the budget spent, the calls were all the windows and the verdict is the timeout. */
  lemma BudgetSpent<R>(f: (nat, u32) -> Result<Option<R>>, all: seq<u32>, n: nat, maxTimeout: u32)
    requires maxTimeout > 0 && Undecided(f, all, n, 0, maxTimeout)
    ensures Decided(f, all[..n], all, Err("watch timeout exceeded"))
  {
    assert |all[n..]| == 0;
    assert all[..n] == all;
  }

  lemma NextCall(all: seq<u32>, n: nat, timeout: u32)
    requires n < |all| && all[n] == timeout
    ensures all[..n] + [timeout] == all[..n + 1]
  {
  }

  /** f is called with the number of the call, for what the world answers then, and with its window. */
  method LoopWithMaxTimeout<R>(timeoutSeconds: u32, maxTimeout: u32, f: (nat, u32) -> Result<Option<R>>)
    returns (r: Result<R>, ghost calls: seq<u32>)
    requires maxTimeout > 0
    ensures r == LoopVerdict(f, Windows(timeoutSeconds, maxTimeout), 0)
    ensures Decided(f, calls, Windows(timeoutSeconds, maxTimeout), r)
  {
    var totalTime: u32 := 0;
    var n := 0;
    calls := [];
    ghost var all, left := Windows(timeoutSeconds, maxTimeout), timeoutSeconds;
    while totalTime < timeoutSeconds
      invariant totalTime <= timeoutSeconds && left == timeoutSeconds - totalTime
      invariant Undecided(f, all, n, left, maxTimeout) && calls == all[..n]
      decreases timeoutSeconds - totalTime
    {
      var timeout := if timeoutSeconds - totalTime < maxTimeout then timeoutSeconds - totalTime else maxTimeout;
      CallStep(f, all, n, left, maxTimeout);
      NextCall(all, n, timeout);
      var answer := f(n, timeout);
      calls := calls + [timeout];
      match answer
      case Err(e) => return Err(e), calls;
      case Ok(Some(result)) => return Ok(result), calls;
      case Ok(None) =>
        totalTime := totalTime + timeout;
        left := left - timeout;
        n := n + 1;
    }
    BudgetSpent(f, all, n, maxTimeout);
    r := Err("watch timeout exceeded");
  }

  lemma FirstWindow(left: u32, maxTimeout: u32)
    requires left > 0 && maxTimeout > 0
    ensures var timeout := if left < maxTimeout then left else maxTimeout;
            Windows(left, maxTimeout) == [timeout] + Windows(left - timeout, maxTimeout)
  {
  }

  /** Call n is the first that is decisive. */
  ghost predicate FirstDecisiveCall<R>(f: (nat, u32) -> Result<Option<R>>, windows: seq<u32>, n: nat) {
    n < |windows| && f(n, windows[n]) != Ok(None) && forall i | 0 <= i < n :: f(i, windows[i]) == Ok(None)
  }

  lemma {:induction false} UndecidedPrefix<R>(f: (nat, u32) -> Result<Option<R>>, windows: seq<u32>, n: nat)
    requires n <= |windows| && forall i | 0 <= i < n :: f(i, windows[i]) == Ok(None)
    ensures LoopVerdict(f, windows, 0) == LoopVerdict(f, windows, n)
  {
    if n > 0 { UndecidedPrefix(f, windows, n - 1); }
  }

  /** The loop returns or fails as the first decisive call does, and times out if no call is decisive. */
  lemma FirstDecisiveCallDecides<R>(f: (nat, u32) -> Result<Option<R>>, windows: seq<u32>, n: nat)
    ensures FirstDecisiveCall(f, windows, n) ==>
              && (forall v :: f(n, windows[n]) == Ok(Some(v)) ==> LoopVerdict(f, windows, 0) == Ok(v))
              && (forall e :: f(n, windows[n]) == Err(e) ==> LoopVerdict(f, windows, 0) == Err(e))
    ensures (forall i | 0 <= i < |windows| :: f(i, windows[i]) == Ok(None)) ==>
              LoopVerdict(f, windows, 0) == Err("watch timeout exceeded")
  {
    if FirstDecisiveCall(f, windows, n) { UndecidedPrefix(f, windows, n); }
    if forall i | 0 <= i < |windows| :: f(i, windows[i]) == Ok(None) { UndecidedPrefix(f, windows, |windows|); }
  }

  // ----- one window of a watch -----

  /** A watch event; a bookmark carries no object. */
  datatype WatchEvent<+K> = Added(obj: K) | Modified(obj: K) | Deleted(obj: K) | Bookmark | Error(message: string)

  /** What the stream yields next: an event, or the failure of the stream itself. */
  datatype Item<+K> = Event(event: WatchEvent<K>) | Broken(message: string)

  /** Opening a watch is refused, or yields the items that arrive before the window closes. */
  datatype Watch<+K> = Refused(message: string) | Opened(items: seq<Item<K>>)

  /** What an item makes a waiter do. */
  datatype Step<+R> = Skip | Return(value: R) | Fail(error: string)

  /** The first item that is not skipped decides; None when all are. */
  function ScanItems<K, R>(items: seq<Item<K>>, arm: Item<K> -> Step<R>): Result<Option<R>> {
    if items == [] then Ok(None)
    else
      match arm(items[0])
      case Skip => ScanItems(items[1..], arm)
      case Return(v) => Ok(Some(v))
      case Fail(e) => Err(e)
  }

  function WindowOutcome<K, R>(w: Watch<K>, arm: Item<K> -> Step<R>): Result<Option<R>> {
    match w
    case Refused(message) => Err(message)
    case Opened(items) => ScanItems(items, arm)
  }

  method DrainWindow<K, R>(w: Watch<K>, arm: Item<K> -> Step<R>) returns (r: Result<Option<R>>)
    ensures r == WindowOutcome(w, arm)
    ensures w.Refused? ==> r == Err(w.message)
    ensures w.Opened? && AllSkipped(w.items, arm) ==> r == Ok(None)
    ensures w.Opened? ==> forall j: nat | FirstDecisive(w.items, arm, j) ::
              r == match arm(w.items[j]) case Return(v) => Ok(Some(v)) case Fail(e) => Err(e) case Skip => Ok(None)
  {
    if w.Opened? {
      if AllSkipped(w.items, arm) { AllSkippedScan(w.items, arm); }
      forall j: nat | FirstDecisive(w.items, arm, j)
        ensures ScanItems(w.items, arm) ==
                  match arm(w.items[j]) case Return(v) => Ok(Some(v)) case Fail(e) => Err(e) case Skip => Ok(None)
      {
        DecisiveScan(w.items, arm, j);
      }
    }
    if w.Refused? {
      return Err(w.message);
    }
    for i := 0 to |w.items|
      invariant ScanItems(w.items, arm) == ScanItems(w.items[i..], arm)
    {
      match arm(w.items[i])
      case Skip =>
      case Return(v) => return Ok(Some(v));
      case Fail(e) => return Err(e);
    }
    r := Ok(None);
  }

  // ----- slicing loses nothing -----

  /** The items of a watch, a refused one counting as a stream that fails at once. */
  function ItemsOf<K>(w: Watch<K>): seq<Item<K>> {
    match w
    case Refused(message) => [Broken(message)]
    case Opened(items) => items
  }

  function Concatenated<K>(watches: (nat, u32) -> Watch<K>, windows: seq<u32>, i: nat): seq<Item<K>>
    decreases |windows| - i
  {
    if i >= |windows| then [] else ItemsOf(watches(i, windows[i])) + Concatenated(watches, windows, i + 1)
  }

  function Verdict<R>(scan: Result<Option<R>>): Result<R> {
    match scan
    case Err(e) => Err(e)
    case Ok(Some(v)) => Ok(v)
    case Ok(None) => Err("watch timeout exceeded")
  }

  ghost predicate FailsOnBroken<K(!new), R>(arm: Item<K> -> Step<R>) {
    forall message: string :: arm(Broken(message)) == Fail(message)
  }

  lemma {:induction false} ScanConcat<K, R>(a: seq<Item<K>>, b: seq<Item<K>>, arm: Item<K> -> Step<R>)
    ensures ScanItems(a + b, arm) == if ScanItems(a, arm) == Ok(None) then ScanItems(b, arm) else ScanItems(a, arm)
  {
    if a == [] {
      assert a + b == b;
    } else {
      assert (a + b)[1..] == a[1..] + b;
      ScanConcat(a[1..], b, arm);
    }
  }

  function WaitIn<K, R>(watches: (nat, u32) -> Watch<K>, arm: Item<K> -> Step<R>): (nat, u32) -> Result<Option<R>> {
    (i: nat, timeout: u32) => WindowOutcome(watches(i, timeout), arm)
  }

  /** Slicing a watch into windows gives the verdict of one scan of everything the windows yield. */
  lemma {:induction false} SlicingLosesNothing<K(!new), R>(watches: (nat, u32) -> Watch<K>, arm: Item<K> -> Step<R>,
                                                 windows: seq<u32>, i: nat)
    requires FailsOnBroken(arm)
    ensures LoopVerdict(WaitIn(watches, arm), windows, i) == Verdict(ScanItems(Concatenated(watches, windows, i), arm))
    decreases |windows| - i
  {
    if i < |windows| {
      var w := watches(i, windows[i]);
      SlicingLosesNothing(watches, arm, windows, i + 1);
      ScanConcat(ItemsOf(w), Concatenated(watches, windows, i + 1), arm);
      if w.Refused? {
        assert arm(Broken(w.message)) == Fail(w.message);
        assert ScanItems(ItemsOf(w), arm) == Err(w.message);
      }
    }
  }

  /** However two runs slice the same items, into windows of whatever sizes, they reach the same verdict. */
  lemma SameItemsSameVerdict<K(!new), R>(a: (nat, u32) -> Watch<K>, b: (nat, u32) -> Watch<K>, arm: Item<K> -> Step<R>,
                                         windowsA: seq<u32>, windowsB: seq<u32>)
    requires FailsOnBroken(arm)
    requires Concatenated(a, windowsA, 0) == Concatenated(b, windowsB, 0)
    ensures LoopVerdict(WaitIn(a, arm), windowsA, 0) == LoopVerdict(WaitIn(b, arm), windowsB, 0)
  {
    SlicingLosesNothing(a, arm, windowsA, 0);
    SlicingLosesNothing(b, arm, windowsB, 0);
  }

  /** Item j is the first that is not skipped. */
  ghost predicate FirstDecisive<K, R>(items: seq<Item<K>>, arm: Item<K> -> Step<R>, j: nat) {
    j < |items| && !arm(items[j]).Skip? && forall i | 0 <= i < j :: arm(items[i]).Skip?
  }

  ghost predicate AllSkipped<K, R>(items: seq<Item<K>>, arm: Item<K> -> Step<R>) {
    forall i | 0 <= i < |items| :: arm(items[i]).Skip?
  }

  /** A scan returns a value, fails, or times out exactly according to the first decisive item. */
  lemma {:induction false} VerdictIsFirstDecisive<K, R>(items: seq<Item<K>>, arm: Item<K> -> Step<R>)
    ensures forall v ::
              (ScanItems(items, arm) == Ok(Some(v)) <==>
                 exists j: nat :: FirstDecisive(items, arm, j) && arm(items[j]) == Return(v))
    ensures forall e ::
              (ScanItems(items, arm) == Err(e) <==>
                 exists j: nat :: FirstDecisive(items, arm, j) && arm(items[j]) == Fail(e))
    ensures ScanItems(items, arm) == Ok(None) <==> AllSkipped(items, arm)
  {
    if AllSkipped(items, arm) {
      AllSkippedScan(items, arm);
    } else {
      var j := DecisiveIndex(items, arm);
      DecisiveScan(items, arm, j);
      forall k: nat | FirstDecisive(items, arm, k) ensures k == j {
        DecisiveIsUnique(items, arm, j, k);
      }
    }
  }

  /** A scan that returns a value found it in the first decisive item. */
  lemma ReturnedAt<K, R>(items: seq<Item<K>>, arm: Item<K> -> Step<R>, v: R) returns (j: nat)
    requires ScanItems(items, arm) == Ok(Some(v))
    ensures FirstDecisive(items, arm, j) && arm(items[j]) == Return(v)
  {
    if AllSkipped(items, arm) {
      AllSkippedScan(items, arm);
      assert false;
    }
    j := DecisiveIndex(items, arm);
    DecisiveScan(items, arm, j);
  }

  lemma DecisiveIsUnique<K, R>(items: seq<Item<K>>, arm: Item<K> -> Step<R>, j: nat, k: nat)
    requires FirstDecisive(items, arm, j) && FirstDecisive(items, arm, k)
    ensures j == k
  {
  }

  lemma {:induction false} AllSkippedScan<K, R>(items: seq<Item<K>>, arm: Item<K> -> Step<R>)
    requires AllSkipped(items, arm)
    ensures ScanItems(items, arm) == Ok(None)
  {
    if items != [] {
      assert forall i | 0 <= i < |items[1..]| :: items[1..][i] == items[i + 1];
      AllSkippedScan(items[1..], arm);
    }
  }

  lemma {:induction false} DecisiveIndex<K, R>(items: seq<Item<K>>, arm: Item<K> -> Step<R>) returns (j: nat)
    requires !AllSkipped(items, arm)
    ensures FirstDecisive(items, arm, j)
  {
    if arm(items[0]).Skip? {
      assert !AllSkipped(items[1..], arm) by {
        var i :| 0 <= i < |items| && !arm(items[i]).Skip?;
        assert items[1..][i - 1] == items[i];
      }
      j := DecisiveIndex(items[1..], arm);
      j := j + 1;
      assert forall i | 0 < i < j :: items[i] == items[1..][i - 1];
    } else {
      j := 0;
    }
  }

  lemma {:induction false} DecisiveScan<K, R>(items: seq<Item<K>>, arm: Item<K> -> Step<R>, j: nat)
    requires FirstDecisive(items, arm, j)
    ensures ScanItems(items, arm) ==
              match arm(items[j]) case Return(v) => Ok(Some(v)) case Fail(e) => Err(e) case Skip => Ok(None)
  {
    if j > 0 {
      assert items[1..][j - 1] == items[j];
      assert forall i | 0 <= i < j - 1 :: items[1..][i] == items[i + 1];
      DecisiveScan(items[1..], arm, j - 1);
    }
  }
}
