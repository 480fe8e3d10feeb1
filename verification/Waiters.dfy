/**
 The waiters for a network, a test job and a simulation: what each counts as decisive, and what that
 makes of a whole watch (hermetic/src/cli/tester.rs).
 */
module Waiters {
  import opened Wrappers
  import opened WatchLoop

  // ----- network -----

  datatype NetworkStatus = NetworkStatus(replicas: int, readyReplicas: int)

  datatype Network = Network(status: Option<NetworkStatus>)

  function NetworkArm(item: Item<Network>): Step<()> {
    match item
    case Broken(message) => Fail(message)
    case Event(Bookmark) => Skip
    case Event(Error(message)) => Fail(message)
    case Event(Added(network)) => NetworkStep(network)
    case Event(Modified(network)) => NetworkStep(network)
    case Event(Deleted(network)) => NetworkStep(network)
  }

  function NetworkStep(network: Network): Step<()> {
    match network.status
    case None => Skip
    case Some(status) => if status.readyReplicas == status.replicas then Return(()) else Skip
  }

  method WaitForNetwork(timeoutSeconds: u32, watches: (nat, u32) -> Watch<Network>) returns (r: Result<()>)
    ensures var items := Concatenated(watches, Windows(timeoutSeconds, MAX_KUBE_WATCH_TIMEOUT), 0);
            r == Verdict(ScanItems(items, NetworkArm))
  {
    SlicingLosesNothing(watches, NetworkArm, Windows(timeoutSeconds, MAX_KUBE_WATCH_TIMEOUT), 0);
    ghost var calls;
    r, calls := LoopWithMaxTimeout(timeoutSeconds, MAX_KUBE_WATCH_TIMEOUT, WaitIn(watches, NetworkArm));
  }

  /** No window of a waiter is longer than the 290 seconds that a watch may take, and none is wasted. */
  lemma WaiterWindows(timeoutSeconds: u32)
    ensures var w := Windows(timeoutSeconds, MAX_KUBE_WATCH_TIMEOUT);
            && Sum(w) == timeoutSeconds as int && |w| == (timeoutSeconds as int + 289) / 290
            && forall i | 0 <= i < |w| :: 1 <= w[i] <= 290
  {
    WindowsSpendBudget(timeoutSeconds, MAX_KUBE_WATCH_TIMEOUT);
    WindowsCount(timeoutSeconds, MAX_KUBE_WATCH_TIMEOUT);
  }

  // ----- test job -----

  datatype JobResult = Pass | Failure

  datatype Condition = Condition(kind: string, status: string)

  /** A job as seen in an event, with what listing its pods and reading the log of each would then answer. */
  datatype Job = Job(status: Option<Option<seq<Condition>>>, pods: Result<seq<Result<string>>>)

  /** The verdict of one condition, if it has any. */
  function Terminal(c: Condition): Option<JobResult> {
    if c.kind == "Failed" && c.status == "True" then Some(Failure)
    else if c.kind == "Complete" && c.status == "True" then Some(Pass)
    else None
  }

  function FirstTerminal(conditions: seq<Condition>): Option<JobResult> {
    if conditions == [] then None
    else if Terminal(conditions[0]).Some? then Terminal(conditions[0])
    else FirstTerminal(conditions[1..])
  }

  function CheckJobResult(job: Job): Option<JobResult> {
    if job.status.Some? && job.status.value.Some? then FirstTerminal(job.status.value.value) else None
  }

  const FAILED := Condition("Failed", "True")
  const COMPLETE := Condition("Complete", "True")

  /** Condition i says failed or complete, as `decisive` does, and none before it says either. */
  ghost predicate DecidedBy(conditions: seq<Condition>, decisive: Condition, i: nat) {
    && i < |conditions| && conditions[i] == decisive
    && forall j | 0 <= j < i :: conditions[j] != FAILED && conditions[j] != COMPLETE
  }

  /**
   A job fails or passes exactly according to the first of its conditions that is Failed or Complete
   with status True.
   */
  lemma {:induction false} FirstTerminalDecides(conditions: seq<Condition>)
    ensures FirstTerminal(conditions) == Some(Failure) <==> exists i: nat :: DecidedBy(conditions, FAILED, i)
    ensures FirstTerminal(conditions) == Some(Pass) <==> exists i: nat :: DecidedBy(conditions, COMPLETE, i)
  {
    if conditions != [] {
      var rest := conditions[1..];
      FirstTerminalDecides(rest);
      DecidedByRest(conditions, FAILED);
      DecidedByRest(conditions, COMPLETE);
    }
  }

  lemma DecidedByRest(conditions: seq<Condition>, decisive: Condition)
    requires conditions != []
    ensures (exists i: nat :: DecidedBy(conditions, decisive, i)) <==>
              conditions[0] == decisive
              || (conditions[0] != FAILED && conditions[0] != COMPLETE
                  && exists i: nat :: DecidedBy(conditions[1..], decisive, i))
  {
    var rest := conditions[1..];
    if i: nat :| DecidedBy(conditions, decisive, i) {
      if i > 0 {
        assert forall j | 0 <= j < i - 1 :: rest[j] == conditions[j + 1];
        assert DecidedBy(rest, decisive, i - 1);
      }
    }
    if conditions[0] == decisive {
      assert DecidedBy(conditions, decisive, 0);
    }
    if conditions[0] != FAILED && conditions[0] != COMPLETE {
      if i: nat :| DecidedBy(rest, decisive, i) {
        assert forall j | 0 < j < i + 1 :: conditions[j] == rest[j - 1];
        assert DecidedBy(conditions, decisive, i + 1);
      }
    }
  }

  /** The job's status carries conditions, and the first of them that is decisive at all is this one. */
  ghost predicate JobDecidedBy(job: Job, decisive: Condition) {
    && job.status.Some? && job.status.value.Some?
    && exists i: nat :: DecidedBy(job.status.value.value, decisive, i)
  }

  /** A job without status or conditions has no result; any other has that of its first decisive condition. */
  lemma CheckJobResultIff(job: Job)
    ensures CheckJobResult(job) == Some(Failure) <==> JobDecidedBy(job, FAILED)
    ensures CheckJobResult(job) == Some(Pass) <==> JobDecidedBy(job, COMPLETE)
  {
    if job.status.Some? && job.status.value.Some? { FirstTerminalDecides(job.status.value.value); }
  }

  /** The logs of all pods, each followed by a line break, or the first error. */
  function PodLogs(answers: seq<Result<string>>, logs: string): Result<string> {
    if answers == [] then Ok(logs)
    else
      match answers[0]
      case Err(e) => Err(e)
      case Ok(text) => PodLogs(answers[1..], logs + text + "\n")
  }

  method CollectLogs(answers: seq<Result<string>>) returns (r: Result<string>)
    ensures r == PodLogs(answers, "")
  {
    var logs := "";
    for i := 0 to |answers|
      invariant PodLogs(answers, "") == PodLogs(answers[i..], logs)
    {
      match answers[i]
      case Err(e) => return Err(e);
      case Ok(text) =>
        logs := logs + text;
        logs := logs + "\n";
    }
    r := Ok(logs);
  }

  /** The text of all logs, each followed by a line break. */
  function LogText(answers: seq<Result<string>>): string {
    if answers == [] then "" else (if answers[0].Ok? then answers[0].value + "\n" else "") + LogText(answers[1..])
  }

  /**
   Collecting succeeds exactly when every log can be read, with the text of all of them; otherwise the
   first error is the result.
   */
  lemma {:induction false} LogsAreAllOrFirstError(answers: seq<Result<string>>, logs: string)
    ensures PodLogs(answers, logs).Ok? <==> forall i | 0 <= i < |answers| :: answers[i].Ok?
    ensures PodLogs(answers, logs).Ok? ==> PodLogs(answers, logs).value == logs + LogText(answers)
    ensures PodLogs(answers, logs).Err? ==>
              exists i | 0 <= i < |answers| ::
                answers[i] == PodLogs(answers, logs) && forall j | 0 <= j < i :: answers[j].Ok?
  {
    if answers == [] {
      assert logs + "" == logs;
    } else if answers[0].Ok? {
      var rest := answers[1..];
      var longer := logs + answers[0].value + "\n";
      LogsAreAllOrFirstError(rest, longer);
      assert longer + LogText(rest) == logs + LogText(answers);
      if PodLogs(rest, longer).Ok? {
        forall i | 0 <= i < |answers| ensures answers[i].Ok? { assert i > 0 ==> answers[i] == rest[i - 1]; }
      } else {
        var i :| 0 <= i < |rest| && rest[i] == PodLogs(rest, longer) && forall j | 0 <= j < i :: rest[j].Ok?;
        assert answers[i + 1] == rest[i];
        forall j | 0 <= j < i + 1 ensures answers[j].Ok? { assert j > 0 ==> answers[j] == rest[j - 1]; }
      }
    } else {
      assert answers[0] == PodLogs(answers, logs);
    }
  }

  ghost predicate FirstErrorIs(answers: seq<Result<string>>, e: string, i: nat) {
    i < |answers| && answers[i] == Err(e) && forall j | 0 <= j < i :: answers[j].Ok?
  }

  lemma PodLogsIff(answers: seq<Result<string>>, logs: string, e: string)
    ensures PodLogs(answers, "") == Ok(logs)
            <==> (forall i | 0 <= i < |answers| :: answers[i].Ok?) && logs == LogText(answers)
    ensures PodLogs(answers, "") == Err(e) <==> exists i: nat :: FirstErrorIs(answers, e, i)
  {
    LogsAreAllOrFirstError(answers, "");
    assert "" + LogText(answers) == LogText(answers);
    if PodLogs(answers, "").Err? {
      var i :| 0 <= i < |answers| && answers[i] == PodLogs(answers, "") && forall j | 0 <= j < i :: answers[j].Ok?;
      assert FirstErrorIs(answers, PodLogs(answers, "").error, i);
    }
  }

  function JobArm(item: Item<Job>): Step<(JobResult, string)> {
    match item
    case Broken(message) => Fail(message)
    case Event(Bookmark) => Skip
    case Event(Error(message)) => Fail(message)
    case Event(Added(job)) => JobStep(job)
    case Event(Modified(job)) => JobStep(job)
    case Event(Deleted(job)) => JobStep(job)
  }

  function JobStep(job: Job): Step<(JobResult, string)> {
    match CheckJobResult(job)
    case None => Skip
    case Some(result) =>
      match job.pods
      case Err(e) => Fail(e)
      case Ok(answers) =>
        match PodLogs(answers, "")
        case Err(e) => Fail(e)
        case Ok(logs) => Return((result, logs))
  }

  method WaitForJob(timeoutSeconds: u32, watches: (nat, u32) -> Watch<Job>) returns (r: Result<(JobResult, string)>)
    ensures var items := Concatenated(watches, Windows(timeoutSeconds, MAX_KUBE_WATCH_TIMEOUT), 0);
            r == Verdict(ScanItems(items, JobArm))
  {
    SlicingLosesNothing(watches, JobArm, Windows(timeoutSeconds, MAX_KUBE_WATCH_TIMEOUT), 0);
    ghost var calls;
    r, calls := LoopWithMaxTimeout(timeoutSeconds, MAX_KUBE_WATCH_TIMEOUT, WaitIn(watches, JobArm));
  }

  // ----- simulation -----

  /** The manager pod as seen in an event, with what reading its log would then answer. */
  datatype Pod = Pod(status: Option<Option<string>>, logs: Result<string>)

  function PhaseResult(pod: Pod): Option<JobResult> {
    if pod.status.Some? && pod.status.value.Some? then
      if pod.status.value.value == "Succeeded" then Some(Pass)
      else if pod.status.value.value == "Failed" then Some(Failure)
      else None
    else None
  }

  function SimulationArm(item: Item<Pod>): Step<(JobResult, string)> {
    match item
    case Broken(message) => Fail(message)
    case Event(Deleted(_)) => Skip
    case Event(Bookmark) => Skip
    case Event(Error(message)) => Fail(message)
    case Event(Added(pod)) => PodStep(pod)
    case Event(Modified(pod)) => PodStep(pod)
  }

  function PodStep(pod: Pod): Step<(JobResult, string)> {
    match PhaseResult(pod)
    case None => Skip
    case Some(result) =>
      match pod.logs
      case Err(e) => Fail(e)
      case Ok(logs) => Return((result, logs))
  }

  method WaitForSimulation(timeoutSeconds: u32, watches: (nat, u32) -> Watch<Pod>)
    returns (r: Result<(JobResult, string)>)
    ensures var items := Concatenated(watches, Windows(timeoutSeconds, MAX_KUBE_WATCH_TIMEOUT), 0);
            r == Verdict(ScanItems(items, SimulationArm))
  {
    SlicingLosesNothing(watches, SimulationArm, Windows(timeoutSeconds, MAX_KUBE_WATCH_TIMEOUT), 0);
    ghost var calls;
    r, calls := LoopWithMaxTimeout(timeoutSeconds, MAX_KUBE_WATCH_TIMEOUT, WaitIn(watches, SimulationArm));
  }

  // ----- what each waiter's verdict means -----

  /** The item carries an object, whatever happened to it. */
  predicate Carries<K>(item: Item<K>) {
    item.Event? && (item.event.Added? || item.event.Modified? || item.event.Deleted?)
  }

  predicate IsError<K>(item: Item<K>) {
    item.Broken? || item.event.Error?
  }

  /** The first decisive item of a scan fails, with this error. */
  ghost predicate FailsFirst<K, R>(items: seq<Item<K>>, arm: Item<K> -> Step<R>, e: string, j: nat) {
    FirstDecisive(items, arm, j) && arm(items[j]) == Fail(e)
  }

  lemma ErrorVerdict<K, R>(items: seq<Item<K>>, arm: Item<K> -> Step<R>, e: string)
    ensures Verdict(ScanItems(items, arm)) == Err(e) <==>
              || (exists j: nat :: FailsFirst(items, arm, e, j))
              || (e == "watch timeout exceeded" && AllSkipped(items, arm))
  {
    if AllSkipped(items, arm) {
      AllSkippedScan(items, arm);
    } else {
      var k := DecisiveIndex(items, arm);
      DecisiveScan(items, arm, k);
      forall j: nat | FailsFirst(items, arm, e, j) ensures j == k { DecisiveIsUnique(items, arm, j, k); }
      if arm(items[k]) == Fail(e) { assert FailsFirst(items, arm, e, k); }
    }
  }

  predicate ShowsReady(item: Item<Network>) {
    && Carries(item)
    && item.event.obj.status.Some?
    && item.event.obj.status.value.readyReplicas == item.event.obj.status.value.replicas
  }

  /** The item is the failure of the stream, or an error event, with this message. */
  ghost predicate ErrorIs<K>(item: Item<K>, e: string) {
    item == Broken(e) || item == Event(Error(e))
  }

  lemma NetworkArmMeaning(item: Item<Network>, e: string)
    ensures NetworkArm(item) == Return(()) <==> ShowsReady(item)
    ensures NetworkArm(item) == Fail(e) <==> ErrorIs(item, e)
    ensures NetworkArm(item).Skip? <==> !IsError(item) && !ShowsReady(item)
  {
  }

  /** Item j shows the network ready and no error comes before it. */
  ghost predicate ReadyBeforeError(items: seq<Item<Network>>, j: nat) {
    j < |items| && ShowsReady(items[j]) && forall i | 0 <= i < j :: !IsError(items[i])
  }

  lemma DecisiveReadyIsReady(items: seq<Item<Network>>, j: nat)
    requires FirstDecisive(items, NetworkArm, j) && NetworkArm(items[j]) == Return(())
    ensures ReadyBeforeError(items, j)
  {
    NetworkArmMeaning(items[j], "");
    forall i | 0 <= i < j ensures !IsError(items[i]) { NetworkArmMeaning(items[i], ""); }
  }

  lemma ReadyDecides(items: seq<Item<Network>>, j: nat)
    requires ReadyBeforeError(items, j)
    ensures ScanItems(items, NetworkArm) == Ok(Some(()))
  {
    NetworkArmMeaning(items[j], "");
    var k := DecisiveIndex(items, NetworkArm);
    NetworkArmMeaning(items[k], "");
    assert k <= j;
    DecisiveScan(items, NetworkArm, k);
  }

  /** The network is reported ready exactly when an object with all its replicas ready arrives before any error. */
  lemma NetworkReadyIff(items: seq<Item<Network>>)
    ensures Verdict(ScanItems(items, NetworkArm)) == Ok(()) <==> exists j: nat :: ReadyBeforeError(items, j)
  {
    if j: nat :| ReadyBeforeError(items, j) {
      ReadyDecides(items, j);
    }
    if ScanItems(items, NetworkArm) == Ok(Some(())) {
      var j := ReturnedAt(items, NetworkArm, ());
      DecisiveReadyIsReady(items, j);
    }
  }

  /** Item j is an error with this message, and nothing before it is an error or shows the network ready. */
  ghost predicate ErrorBeforeReady(items: seq<Item<Network>>, e: string, j: nat) {
    && j < |items| && ErrorIs(items[j], e)
    && forall i | 0 <= i < j :: !IsError(items[i]) && !ShowsReady(items[i])
  }

  /** Waiting for the network fails exactly as its first error does, or by timing out when nothing decides. */
  lemma NetworkErrorIff(items: seq<Item<Network>>, e: string)
    ensures Verdict(ScanItems(items, NetworkArm)) == Err(e) <==>
              || (exists j: nat :: ErrorBeforeReady(items, e, j))
              || (e == "watch timeout exceeded"
                  && forall i | 0 <= i < |items| :: !IsError(items[i]) && !ShowsReady(items[i]))
  {
    forall i | 0 <= i < |items|
      ensures NetworkArm(items[i]) == Fail(e) <==> ErrorIs(items[i], e)
      ensures NetworkArm(items[i]).Skip? <==> !IsError(items[i]) && !ShowsReady(items[i])
    {
      NetworkArmMeaning(items[i], e);
    }
    ErrorVerdict(items, NetworkArm, e);
    forall j: nat ensures ErrorBeforeReady(items, e, j) <==> FailsFirst(items, NetworkArm, e, j) {}
  }

  /** A network of no replicas, none of them ready, counts as ready. */
  lemma NoReplicasAreReady()
    ensures var items := [Event(Added(Network(Some(NetworkStatus(0, 0)))))];
            Verdict(ScanItems(items, NetworkArm)) == Ok(())
  {
    var items := [Event(Added(Network(Some(NetworkStatus(0, 0)))))];
    assert ReadyBeforeError(items, 0);
    NetworkReadyIff(items);
  }

  /** The condition that makes a job have this result. */
  function DecisiveFor(result: JobResult): Condition {
    if result.Pass? then COMPLETE else FAILED
  }

  /** The item shows a job finished with this result. */
  ghost predicate FinishedIn(item: Item<Job>, result: JobResult) {
    Carries(item) && JobDecidedBy(item.event.obj, DecisiveFor(result))
  }

  /** The item shows a job finished with this result, and these are the logs of all its pods. */
  ghost predicate Reports(item: Item<Job>, result: JobResult, logs: string) {
    && FinishedIn(item, result)
    && item.event.obj.pods.Ok?
    && (forall i | 0 <= i < |item.event.obj.pods.value| :: item.event.obj.pods.value[i].Ok?)
    && logs == LogText(item.event.obj.pods.value)
  }

  ghost predicate Inconclusive(item: Item<Job>) {
    !IsError(item) && !FinishedIn(item, Pass) && !FinishedIn(item, Failure)
  }

  /** The pods could not be listed, or the first log that could not be read gave this error. */
  ghost predicate LogsFailWith(pods: Result<seq<Result<string>>>, e: string) {
    pods == Err(e) || (pods.Ok? && exists i: nat :: FirstErrorIs(pods.value, e, i))
  }

  ghost predicate JobFailsWith(item: Item<Job>, e: string) {
    || ErrorIs(item, e)
    || ((FinishedIn(item, Pass) || FinishedIn(item, Failure)) && LogsFailWith(item.event.obj.pods, e))
  }

  lemma JobArmMeaning(item: Item<Job>, result: JobResult, logs: string, e: string)
    ensures JobArm(item) == Return((result, logs)) <==> Reports(item, result, logs)
    ensures JobArm(item) == Fail(e) <==> JobFailsWith(item, e)
    ensures JobArm(item).Skip? <==> Inconclusive(item)
  {
    if Carries(item) {
      var found := CheckJobResult(item.event.obj);
      assert found.Some? ==> found.value == Pass || found.value == Failure;
      CheckJobResultIff(item.event.obj);
      if item.event.obj.pods.Ok? { PodLogsIff(item.event.obj.pods.value, logs, e); }
    }
  }

  ghost predicate ReportsFirst(items: seq<Item<Job>>, j: nat, result: JobResult, logs: string) {
    j < |items| && Reports(items[j], result, logs) && forall i | 0 <= i < j :: Inconclusive(items[i])
  }

  lemma ReportsFirstIsDecisive(items: seq<Item<Job>>, j: nat, result: JobResult, logs: string)
    ensures ReportsFirst(items, j, result, logs)
            <==> FirstDecisive(items, JobArm, j) && JobArm(items[j]) == Return((result, logs))
  {
    forall i | 0 <= i < |items|
      ensures JobArm(items[i]) == Return((result, logs)) <==> Reports(items[i], result, logs)
      ensures JobArm(items[i]).Skip? <==> Inconclusive(items[i])
    {
      JobArmMeaning(items[i], result, logs, "");
    }
  }

  /**
   The job waiter passes or fails the tests exactly on the first item that shows a finished job, provided
   no error comes before it and the logs of all its pods can be read; it then also returns those logs.
   */
  lemma JobVerdictIff(items: seq<Item<Job>>, result: JobResult, logs: string)
    ensures Verdict(ScanItems(items, JobArm)) == Ok((result, logs))
            <==> exists j: nat :: ReportsFirst(items, j, result, logs)
  {
    if j: nat :| ReportsFirst(items, j, result, logs) {
      ReportsFirstIsDecisive(items, j, result, logs);
      DecisiveScan(items, JobArm, j);
    }
    if ScanItems(items, JobArm) == Ok(Some((result, logs))) {
      var j := ReturnedAt(items, JobArm, (result, logs));
      ReportsFirstIsDecisive(items, j, result, logs);
    }
  }

  ghost predicate JobFailsFirst(items: seq<Item<Job>>, e: string, j: nat) {
    j < |items| && JobFailsWith(items[j], e) && forall i | 0 <= i < j :: Inconclusive(items[i])
  }

  /**
   Waiting for the job fails exactly with the first error of the watch or of collecting the logs, or by
   timing out when no item decides.
   */
  lemma JobErrorIff(items: seq<Item<Job>>, e: string)
    ensures Verdict(ScanItems(items, JobArm)) == Err(e) <==>
              || (exists j: nat :: JobFailsFirst(items, e, j))
              || (e == "watch timeout exceeded" && forall i | 0 <= i < |items| :: Inconclusive(items[i]))
  {
    forall i | 0 <= i < |items|
      ensures JobArm(items[i]) == Fail(e) <==> JobFailsWith(items[i], e)
      ensures JobArm(items[i]).Skip? <==> Inconclusive(items[i])
    {
      JobArmMeaning(items[i], Pass, "", e);
    }
    ErrorVerdict(items, JobArm, e);
    forall j: nat ensures JobFailsFirst(items, e, j) <==> FailsFirst(items, JobArm, e, j) {}
  }

  /** The pod is seen in this phase, other than in its deletion. */
  ghost predicate AliveIn(item: Item<Pod>, phase: string) {
    Carries(item) && !item.event.Deleted? && item.event.obj.status == Some(Some(phase))
  }

  /** The item shows the manager pod ended with this result, and its log can be read. */
  ghost predicate Ended(item: Item<Pod>, result: JobResult, logs: string) {
    AliveIn(item, if result.Pass? then "Succeeded" else "Failed") && item.event.obj.logs == Ok(logs)
  }

  ghost predicate StillRunning(item: Item<Pod>) {
    !IsError(item) && !AliveIn(item, "Succeeded") && !AliveIn(item, "Failed")
  }

  ghost predicate EndedFirst(items: seq<Item<Pod>>, j: nat, result: JobResult, logs: string) {
    j < |items| && Ended(items[j], result, logs) && forall i | 0 <= i < j :: StillRunning(items[i])
  }

  ghost predicate SimulationFailsWith(item: Item<Pod>, e: string) {
    || ErrorIs(item, e)
    || ((AliveIn(item, "Succeeded") || AliveIn(item, "Failed")) && item.event.obj.logs == Err(e))
  }

  lemma SimulationArmMeaning(item: Item<Pod>, result: JobResult, logs: string, e: string)
    ensures SimulationArm(item) == Return((result, logs)) <==> Ended(item, result, logs)
    ensures SimulationArm(item) == Fail(e) <==> SimulationFailsWith(item, e)
    ensures SimulationArm(item).Skip? <==> StillRunning(item)
  {
  }

  lemma EndedFirstIsDecisive(items: seq<Item<Pod>>, j: nat, result: JobResult, logs: string)
    ensures EndedFirst(items, j, result, logs) <==>
              FirstDecisive(items, SimulationArm, j) && SimulationArm(items[j]) == Return((result, logs))
  {
    forall i | 0 <= i < |items|
      ensures SimulationArm(items[i]) == Return((result, logs)) <==> Ended(items[i], result, logs)
      ensures SimulationArm(items[i]).Skip? <==> StillRunning(items[i])
    {
      SimulationArmMeaning(items[i], result, logs, "");
    }
  }

  /**
   The simulation waiter returns exactly the first end of the manager pod seen alive, if no error comes
   before it and its log can be read.
   */
  lemma SimulationVerdictIff(items: seq<Item<Pod>>, result: JobResult, logs: string)
    ensures Verdict(ScanItems(items, SimulationArm)) == Ok((result, logs))
            <==> exists j: nat :: EndedFirst(items, j, result, logs)
  {
    if j: nat :| EndedFirst(items, j, result, logs) {
      EndedFirstIsDecisive(items, j, result, logs);
      DecisiveScan(items, SimulationArm, j);
    }
    if ScanItems(items, SimulationArm) == Ok(Some((result, logs))) {
      var j := ReturnedAt(items, SimulationArm, (result, logs));
      EndedFirstIsDecisive(items, j, result, logs);
    }
  }

  ghost predicate SimulationFailsFirst(items: seq<Item<Pod>>, e: string, j: nat) {
    j < |items| && SimulationFailsWith(items[j], e) && forall i | 0 <= i < j :: StillRunning(items[i])
  }

  /**
   The simulation waiter fails exactly with the first error of the watch or of reading the log of the
   ended pod, or by timing out when the pod is never seen ended.
   */
  lemma SimulationErrorIff(items: seq<Item<Pod>>, e: string)
    ensures Verdict(ScanItems(items, SimulationArm)) == Err(e) <==>
              || (exists j: nat :: SimulationFailsFirst(items, e, j))
              || (e == "watch timeout exceeded" && forall i | 0 <= i < |items| :: StillRunning(items[i]))
  {
    forall i | 0 <= i < |items|
      ensures SimulationArm(items[i]) == Fail(e) <==> SimulationFailsWith(items[i], e)
      ensures SimulationArm(items[i]).Skip? <==> StillRunning(items[i])
    {
      SimulationArmMeaning(items[i], Pass, "", e);
    }
    ErrorVerdict(items, SimulationArm, e);
    forall j: nat ensures SimulationFailsFirst(items, e, j) <==> FailsFirst(items, SimulationArm, e, j) {}
  }

  /** Deletions rewritten as modifications. */
  function DeletedAsModified<K>(items: seq<Item<K>>): seq<Item<K>> {
    if items == [] then []
    else
      var item := if items[0].Event? && items[0].event.Deleted? then Event(Modified(items[0].event.obj)) else items[0];
      [item] + DeletedAsModified(items[1..])
  }

  /** Deletions and bookmarks left out. */
  function WithoutDeleted<K>(items: seq<Item<K>>): seq<Item<K>> {
    if items == [] then []
    else if items[0].Event? && (items[0].event.Deleted? || items[0].event.Bookmark?) then WithoutDeleted(items[1..])
    else [items[0]] + WithoutDeleted(items[1..])
  }

  /** A deletion counts as much as any other event, for the network and for the job. */
  lemma {:induction false} NetworkCountsDeleted(items: seq<Item<Network>>)
    ensures ScanItems(DeletedAsModified(items), NetworkArm) == ScanItems(items, NetworkArm)
  {
    if items != [] {
      NetworkCountsDeleted(items[1..]);
      assert DeletedAsModified(items)[1..] == DeletedAsModified(items[1..]);
    }
  }

  lemma {:induction false} JobCountsDeleted(items: seq<Item<Job>>)
    ensures ScanItems(DeletedAsModified(items), JobArm) == ScanItems(items, JobArm)
  {
    if items != [] {
      JobCountsDeleted(items[1..]);
      assert DeletedAsModified(items)[1..] == DeletedAsModified(items[1..]);
    }
  }

  /** The simulation waiter does not look at deletions at all. */
  lemma {:induction false} SimulationIgnoresDeleted(items: seq<Item<Pod>>)
    ensures ScanItems(WithoutDeleted(items), SimulationArm) == ScanItems(items, SimulationArm)
  {
    if items != [] {
      SimulationIgnoresDeleted(items[1..]);
      if !(items[0].Event? && (items[0].event.Deleted? || items[0].event.Bookmark?)) {
        assert WithoutDeleted(items)[1..] == WithoutDeleted(items[1..]);
      }
    }
  }

  /**
   So a manager pod whose end is only seen in its deletion makes the simulation waiter time out, as the
   other waiters would not.
   */
  lemma SimulationMissesDeletedEnd(items: seq<Item<Pod>>)
    requires forall i | 0 <= i < |items| ::
               Carries(items[i]) && PhaseResult(items[i].event.obj).Some? ==> items[i].event.Deleted?
    requires forall i | 0 <= i < |items| :: !IsError(items[i])
    ensures Verdict(ScanItems(items, SimulationArm)) == Err("watch timeout exceeded")
  {
    assert AllSkipped(items, SimulationArm);
    AllSkippedScan(items, SimulationArm);
  }

  /** The manager pod is seen running, and then succeeded in its deletion. */
  const DELETED_AT_END: seq<Item<Pod>> :=
    [Event(Added(Pod(Some(Some("Running")), Ok("")))), Event(Deleted(Pod(Some(Some("Succeeded")), Ok("log"))))]

  /** Such a run of a simulation times out, although it would have passed had its deletion been looked at. */
  lemma DeletedEndTimesOut()
    ensures Verdict(ScanItems(DELETED_AT_END, SimulationArm)) == Err("watch timeout exceeded")
    ensures Verdict(ScanItems(DeletedAsModified(DELETED_AT_END), SimulationArm)) == Ok((Pass, "log"))
  {
    SimulationMissesDeletedEnd(DELETED_AT_END);
    var seen := DeletedAsModified(DELETED_AT_END);
    assert seen == [DELETED_AT_END[0], Event(Modified(Pod(Some(Some("Succeeded")), Ok("log"))))] by {
      assert DELETED_AT_END[1..] == [DELETED_AT_END[1]] && DELETED_AT_END[1..][1..] == [];
    }
    assert EndedFirst(seen, 1, Pass, "log");
    SimulationVerdictIff(seen, Pass, "log");
  }
}
