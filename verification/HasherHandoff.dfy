/** The two-thread hand-off of hashing jobs: every access to a shared variable is one step. */
module HasherHandoff {
  import opened Bytes

  const METHOD_MD4 := 1
  const METHOD_MD5 := 3
  const METHOD_SHA1 := 5
  const METHOD_TIGER := 7
  const RESULT_SIZE := 64

  datatype Job = Job(fd: int, begin: int, len: int, kind: int)

  predicate Known(kind: int) {
    kind == METHOD_MD4 || kind == METHOD_MD5 || kind == METHOD_SHA1 || kind == METHOD_TIGER
  }

  /** Bytes of a digest: what the caller allocated for the job's result. */
  function DigestLength(kind: int): nat {
    if kind == METHOD_SHA1 then 20 else if kind == METHOD_TIGER then 24 else 16
  }

  /** The kinds of job that can be started, and the bytes their digests have. */
  lemma KnownKinds(s: State, job: Job)
    requires s.client.NoJob?
    ensures Enabled(s, StartJob(job)) <==> job.kind == 1 || job.kind == 3 || job.kind == 5 || job.kind == 7
    ensures Enabled(s, StartJob(job)) ==>
              DigestLength(job.kind) == if job.kind == 5 then 20 else if job.kind == 7 then 24 else 16
  {
  }

  /** The four hash routines applied to a range of a file; the file contents are taken as fixed. */
  type Hash = Job -> seq<Byte>

  ghost predicate Fits(h: Hash) {
    forall job :: |h(job)| == DigestLength(job.kind)
  }

  /** Where the client stands in ml_job_start and ml_job_done. */
  datatype ClientPc =
    | NoJob
    | WriteFd | WriteBegin | WriteLen | WriteMethod | TestStarted | LockMutex
    | ClearDone | Signal | UnlockMutex
    | Polling
    | CopyResult(i: nat)

  /** Where the worker stands in hasher_thread. */
  datatype WorkerPc =
    | Absent
    | FirstLock | CallWait | Blocked | Relock
    | TestDone | ReadMethod | ReadFd | ReadBegin | ReadLen
    | WriteResult(i: nat)
    | SetDone
    | Exited

  datatype Holder = Nobody | ClientHolds | WorkerHolds

  datatype Delivery = Delivery(job: Job, digest: seq<Byte>)

  datatype State = State(
    jobDone: bool, fd: int, begin: int, len: int, kind: int, result: seq<Byte>,
    mutex: Holder, started: bool,
    client: ClientPc, job: Job, copied: seq<Byte>,
    worker: WorkerPc, args: Job,
    // history
    submitted: seq<Job>, hashed: seq<Job>, delivered: seq<Delivery>)

  function Initial(): State {
    State(true, 0, 0, 0, 0, seq(RESULT_SIZE, _ => 0), Nobody, false, NoJob, Job(0, 0, 0, 0), [], Absent, Job(0, 0, 0, 0), [], [], [])
  }

  /** A schedule is a list of these: which thread moves, or the timed wait ending without a signal. */
  datatype Step = StartJob(job: Job) | Client | Worker | WakeUp

  predicate Enabled(s: State, step: Step) {
    match step
    case StartJob(job) => s.client.NoJob? && Known(job.kind)
    case Client => !s.client.NoJob? && (s.client.LockMutex? ==> s.mutex.Nobody?) && (s.client.CopyResult? ==> s.client.i < RESULT_SIZE)
    case Worker => !s.worker.Absent? && !s.worker.Blocked? && !s.worker.Exited? &&
                   (s.worker.FirstLock? || s.worker.Relock? ==> s.mutex.Nobody?) && (s.worker.WriteResult? ==> s.worker.i < RESULT_SIZE)
    case WakeUp => s.worker.Blocked?
  }

  function ClientMove(s: State): State
    requires |s.result| == RESULT_SIZE && Enabled(s, Client)
  {
    match s.client
    case WriteFd => s.(fd := s.job.fd, client := WriteBegin)
    case WriteBegin => s.(begin := s.job.begin, client := WriteLen)
    case WriteLen => s.(len := s.job.len, client := WriteMethod)
    case WriteMethod => s.(kind := s.job.kind, client := TestStarted)
    case TestStarted =>
      if s.started then s.(client := LockMutex)
      else s.(mutex := Nobody, started := true, worker := FirstLock, client := LockMutex)
    case LockMutex => s.(mutex := ClientHolds, client := ClearDone)
    case ClearDone => s.(jobDone := false, client := Signal)
    case Signal => s.(worker := if s.worker.Blocked? then Relock else s.worker, client := UnlockMutex)
    case UnlockMutex => s.(mutex := Nobody, client := Polling)
    case Polling => if s.jobDone then s.(client := CopyResult(0), copied := []) else s
    case CopyResult(i) =>
      if i < DigestLength(s.job.kind) then s.(copied := s.copied + [s.result[i]], client := CopyResult(i + 1))
      else s.(client := NoJob, delivered := s.delivered + [Delivery(s.job, s.copied)])
  }

  function WorkerMove(h: Hash, s: State): State
    requires |s.result| == RESULT_SIZE && Enabled(s, Worker)
  {
    match s.worker
    case FirstLock => s.(mutex := WorkerHolds, worker := CallWait)
    case CallWait => s.(mutex := Nobody, worker := Blocked)
    case Relock => s.(mutex := WorkerHolds, worker := TestDone)
    case TestDone => s.(worker := if s.jobDone then CallWait else ReadMethod)
    case ReadMethod =>
      if Known(s.kind) then s.(args := s.args.(kind := s.kind), worker := ReadFd) else s.(worker := Exited)
    case ReadFd => s.(args := s.args.(fd := s.fd), worker := ReadBegin)
    case ReadBegin => s.(args := s.args.(begin := s.begin), worker := ReadLen)
    case ReadLen => s.(args := s.args.(len := s.len), worker := WriteResult(0))
    case WriteResult(i) =>
      if i < |h(s.args)| then s.(result := s.result[i := h(s.args)[i]], worker := WriteResult(i + 1))
      else s.(worker := SetDone)
    case SetDone => s.(jobDone := true, worker := CallWait, hashed := s.hashed + [s.args])
  }

  function Next(h: Hash, s: State, step: Step): State
    requires |s.result| == RESULT_SIZE && Enabled(s, step)
  {
    match step
    case StartJob(job) => s.(job := job, client := WriteFd, submitted := s.submitted + [job])
    case Client => ClientMove(s)
    case Worker => WorkerMove(h, s)
    case WakeUp => s.(worker := Relock)
  }

  /** Every step of the schedule is possible when its turn comes. */
  predicate Possible(h: Hash, s: State, steps: seq<Step>)
    decreases |steps|
  {
    steps == [] || (|s.result| == RESULT_SIZE && Enabled(s, steps[0]) && Possible(h, Next(h, s, steps[0]), steps[1..]))
  }

  function Run(h: Hash, s: State, steps: seq<Step>): State
    requires Possible(h, s, steps)
    decreases |steps|
  {
    if steps == [] then s else Run(h, Next(h, s, steps[0]), steps[1..])
  }

  // ---- The invariant ----

  /** How far the client has come with the current job. */
  function Stage(pc: ClientPc): nat {
    match pc
    case NoJob => 0
    case WriteFd => 1
    case WriteBegin => 2
    case WriteLen => 3
    case WriteMethod => 4
    case TestStarted => 5
    case LockMutex => 6
    case ClearDone => 7
    case Signal => 8
    case UnlockMutex => 9
    case Polling => 10
    case CopyResult(_) => 11
  }

  predicate ClientInSection(pc: ClientPc) {
    pc.ClearDone? || pc.Signal? || pc.UnlockMutex?
  }

  predicate Working(pc: WorkerPc) {
    pc.ReadMethod? || pc.ReadFd? || pc.ReadBegin? || pc.ReadLen? || pc.WriteResult? || pc.SetDone?
  }

  predicate WorkerInSection(pc: WorkerPc) {
    pc.CallWait? || pc.TestDone? || Working(pc)
  }

  /** The mutex is held by exactly the thread whose position says so. */
  predicate MutexKept(s: State) {
    (s.mutex.ClientHolds? <==> ClientInSection(s.client)) && (s.mutex.WorkerHolds? <==> WorkerInSection(s.worker))
  }

  /** Before the first job there is no worker. */
  predicate ThreadKept(s: State) {
    (s.worker.Absent? <==> !s.started) && !s.worker.Exited? &&
    (!s.started ==> Stage(s.client) <= 5 && s.jobDone)
  }

  /** The flag is down only between the client clearing it and the worker raising it for the same job. */
  predicate FlagKept(s: State) {
    (!s.jobDone ==> 8 <= Stage(s.client) <= 10) &&
    (Working(s.worker) ==> !s.jobDone) &&
    (s.client.Signal? || s.client.UnlockMutex? ==> !s.jobDone)
  }

  /** The shared parameters are the job's, as far as the client has written them. */
  predicate ParametersKept(s: State) {
    (!s.client.NoJob? ==> Known(s.job.kind)) &&
    (Stage(s.client) > 1 ==> s.fd == s.job.fd) &&
    (Stage(s.client) > 2 ==> s.begin == s.job.begin) &&
    (Stage(s.client) > 3 ==> s.len == s.job.len) &&
    (Stage(s.client) > 4 ==> s.kind == s.job.kind)
  }

  /** What the worker has read is the current job's. */
  predicate ArgumentsKept(s: State) {
    (s.worker.ReadFd? || s.worker.ReadBegin? || s.worker.ReadLen? ==> s.args.kind == s.job.kind) &&
    (s.worker.ReadBegin? || s.worker.ReadLen? ==> s.args.fd == s.job.fd) &&
    (s.worker.ReadLen? ==> s.args.begin == s.job.begin) &&
    (s.worker.WriteResult? || s.worker.SetDone? ==> s.args == s.job)
  }

  /** The result buffer holds the digest of the current job from the moment the flag says so. */
  predicate ResultKept(h: Hash, s: State) {
    |s.result| == RESULT_SIZE && |h(s.job)| == DigestLength(s.job.kind) &&
    (s.worker.WriteResult? ==> s.worker.i <= |h(s.job)| && s.result[..s.worker.i] == h(s.job)[..s.worker.i]) &&
    (s.worker.SetDone? || (s.jobDone && (s.client.Polling? || s.client.CopyResult?)) ==> s.result[..|h(s.job)|] == h(s.job)) &&
    (s.client.CopyResult? ==> s.client.i <= |h(s.job)| && s.copied == h(s.job)[..s.client.i])
  }

  predicate DeliveriesCorrect(h: Hash, s: State) {
    forall k :: 0 <= k < |s.delivered| ==> s.delivered[k].digest == h(s.delivered[k].job)
  }

  function Jobs(deliveries: seq<Delivery>): seq<Job> {
    seq(|deliveries|, k requires 0 <= k < |deliveries| => deliveries[k].job)
  }

  predicate HistoryKept(s: State) {
    s.submitted == Jobs(s.delivered) + (if s.client.NoJob? then [] else [s.job]) &&
    s.hashed == Jobs(s.delivered) + (if s.jobDone && (s.client.Polling? || s.client.CopyResult?) then [s.job] else [])
  }

  predicate Inv(h: Hash, s: State) {
    MutexKept(s) && ThreadKept(s) && FlagKept(s) && ParametersKept(s) && ArgumentsKept(s) && ResultKept(h, s) &&
    DeliveriesCorrect(h, s) && HistoryKept(s)
  }

  lemma InitialKeeps(h: Hash)
    requires Fits(h)
    ensures Inv(h, Initial())
  {
  }

  lemma ClientKeepsControl(s: State)
    requires MutexKept(s) && ThreadKept(s) && FlagKept(s) && |s.result| == RESULT_SIZE && Enabled(s, Client)
    ensures var t := ClientMove(s); MutexKept(t) && ThreadKept(t) && FlagKept(t)
  {
  }

  lemma WorkerKeepsControl(h: Hash, s: State)
    requires MutexKept(s) && ThreadKept(s) && FlagKept(s) && ParametersKept(s) && |s.result| == RESULT_SIZE && Enabled(s, Worker)
    ensures var t := WorkerMove(h, s); MutexKept(t) && ThreadKept(t) && FlagKept(t)
  {
  }

  lemma StepKeepsControl(h: Hash, s: State, step: Step)
    requires Inv(h, s) && Enabled(s, step)
    ensures var t := Next(h, s, step); MutexKept(t) && ThreadKept(t) && FlagKept(t)
  {
    hide ClientMove, WorkerMove, ParametersKept, ArgumentsKept, DeliveriesCorrect, HistoryKept;
    match step {
      case Client => ClientKeepsControl(s);
      case Worker => WorkerKeepsControl(h, s);
      case StartJob(_) =>
      case WakeUp =>
    }
  }

  lemma ClientKeepsParameters(s: State)
    requires MutexKept(s) && ThreadKept(s) && FlagKept(s) && ParametersKept(s) && ArgumentsKept(s)
    requires |s.result| == RESULT_SIZE && Enabled(s, Client)
    ensures var t := ClientMove(s); ParametersKept(t) && ArgumentsKept(t)
  {
  }

  lemma WorkerKeepsParameters(h: Hash, s: State)
    requires ParametersKept(s) && |s.result| == RESULT_SIZE && Enabled(s, Worker)
    ensures ParametersKept(WorkerMove(h, s))
  {
  }

  lemma WorkerKeepsArguments(h: Hash, s: State)
    requires FlagKept(s) && ParametersKept(s) && ArgumentsKept(s) && |s.result| == RESULT_SIZE && Enabled(s, Worker)
    ensures ArgumentsKept(WorkerMove(h, s))
  {
  }

  lemma StepKeepsParameters(h: Hash, s: State, step: Step)
    requires Inv(h, s) && Enabled(s, step)
    ensures var t := Next(h, s, step); ParametersKept(t) && ArgumentsKept(t)
  {
    hide ClientMove, WorkerMove, MutexKept, ThreadKept, DeliveriesCorrect, HistoryKept;
    match step {
      case Client => ClientKeepsParameters(s);
      case Worker =>
        WorkerKeepsParameters(h, s);
        WorkerKeepsArguments(h, s);
      case StartJob(_) =>
      case WakeUp =>
    }
  }

  lemma StepKeepsResult(h: Hash, s: State, step: Step)
    requires Fits(h) && Inv(h, s) && Enabled(s, step)
    ensures ResultKept(h, Next(h, s, step))
  {
    hide DeliveriesCorrect, HistoryKept, Jobs;
    var t := Next(h, s, step);
    if step.Worker? && s.worker.WriteResult? && s.worker.i < |h(s.args)| {
      assert t.result[..s.worker.i] == s.result[..s.worker.i];
      assert t.result[..s.worker.i + 1] == h(s.job)[..s.worker.i + 1];
    }
    if step.Client? && s.client.CopyResult? && s.client.i < DigestLength(s.job.kind) {
      assert s.result[s.client.i] == s.result[..|h(s.job)|][s.client.i];
      assert t.copied == h(s.job)[..s.client.i + 1];
    }
  }

  lemma StepKeepsDeliveries(h: Hash, s: State, step: Step)
    requires Inv(h, s) && Enabled(s, step)
    ensures DeliveriesCorrect(h, Next(h, s, step))
  {
    hide MutexKept, ThreadKept, FlagKept, ParametersKept, ArgumentsKept, HistoryKept;
    if step.Client? && s.client.CopyResult? && s.client.i == DigestLength(s.job.kind) {
      assert s.copied == h(s.job);
    }
  }

  lemma ClientKeepsHistory(h: Hash, s: State)
    requires FlagKept(s) && ResultKept(h, s) && HistoryKept(s) && Enabled(s, Client)
    ensures HistoryKept(ClientMove(s))
  {
    hide Jobs;
    JobsNext(s.delivered, Delivery(s.job, s.copied));
  }

  lemma WorkerKeepsHistory(h: Hash, s: State)
    requires MutexKept(s) && FlagKept(s) && ArgumentsKept(s) && HistoryKept(s) && |s.result| == RESULT_SIZE && Enabled(s, Worker)
    ensures HistoryKept(WorkerMove(h, s))
  {
    hide Jobs;
  }

  lemma StepKeepsHistory(h: Hash, s: State, step: Step)
    requires Inv(h, s) && Enabled(s, step)
    ensures HistoryKept(Next(h, s, step))
  {
    hide ClientMove, WorkerMove, MutexKept, ThreadKept, ParametersKept, ArgumentsKept, DeliveriesCorrect, Jobs;
    match step {
      case Client => ClientKeepsHistory(h, s);
      case Worker => WorkerKeepsHistory(h, s);
      case StartJob(_) =>
      case WakeUp =>
    }
  }

  lemma JobsNext(deliveries: seq<Delivery>, d: Delivery)
    ensures Jobs(deliveries + [d]) == Jobs(deliveries) + [d.job]
  {
  }

  /** A job is not lost when the signal is, and not torn or repeated by any interleaving: one step. */
  lemma StepKeeps(h: Hash, s: State, step: Step)
    requires Fits(h) && Inv(h, s) && Enabled(s, step)
    ensures Inv(h, Next(h, s, step))
  {
    hide MutexKept, ThreadKept, FlagKept, ParametersKept, ArgumentsKept, ResultKept, DeliveriesCorrect, HistoryKept, Next;
    StepKeepsControl(h, s, step);
    StepKeepsParameters(h, s, step);
    StepKeepsResult(h, s, step);
    StepKeepsDeliveries(h, s, step);
    StepKeepsHistory(h, s, step);
  }

  /** Only in front of the first job can the worker be on its way to wait, or waiting, while the flag is down: later
      it waits with the flag up, so the signal, sent after the flag went down, finds it waiting. */
  predicate FirstWait(s: State) {
    (s.worker.Absent? || s.worker.FirstLock? ==> s.hashed == [] && s.delivered == []) &&
    (!s.jobDone && (s.client.UnlockMutex? || s.client.Polling?) && (s.worker.CallWait? || s.worker.Blocked?) ==>
       s.hashed == [] && s.delivered == [])
  }

  lemma ClientKeepsFirstWait(s: State)
    requires MutexKept(s) && ThreadKept(s) && FlagKept(s) && FirstWait(s) && |s.result| == RESULT_SIZE && Enabled(s, Client)
    requires HistoryKept(s)
    ensures FirstWait(ClientMove(s))
  {
  }

  lemma WorkerKeepsFirstWait(h: Hash, s: State)
    requires MutexKept(s) && ThreadKept(s) && FlagKept(s) && FirstWait(s) && |s.result| == RESULT_SIZE && Enabled(s, Worker)
    ensures FirstWait(WorkerMove(h, s))
  {
  }

  lemma StepKeepsFirstWait(h: Hash, s: State, step: Step)
    requires Inv(h, s) && FirstWait(s) && Enabled(s, step)
    ensures FirstWait(Next(h, s, step))
  {
    hide ClientMove, WorkerMove, MutexKept, ThreadKept, ParametersKept, ArgumentsKept, DeliveriesCorrect, HistoryKept;
    match step {
      case Client => ClientKeepsFirstWait(s);
      case Worker => WorkerKeepsFirstWait(h, s);
      case StartJob(_) =>
      case WakeUp =>
    }
  }

  lemma {:induction false} RunKeeps(h: Hash, s: State, steps: seq<Step>)
    requires Fits(h) && Inv(h, s) && FirstWait(s) && Possible(h, s, steps)
    ensures Inv(h, Run(h, s, steps)) && FirstWait(Run(h, s, steps))
    decreases |steps|
  {
    if steps != [] {
      hide Inv, FirstWait;
      StepKeeps(h, s, steps[0]);
      StepKeepsFirstWait(h, s, steps[0]);
      RunKeeps(h, Next(h, s, steps[0]), steps[1..]);
    }
  }

  /** Safety over all interleavings: jobs are delivered in the order they were started, each with its own
      digest, each hashed exactly once, with at most the last one outstanding. */
  lemma EveryDeliveryIsCorrect(h: Hash, steps: seq<Step>)
    requires Fits(h) && Possible(h, Initial(), steps)
    ensures var s := Run(h, Initial(), steps);
            |s.delivered| <= |s.submitted| <= |s.delivered| + 1 &&
            (forall k :: 0 <= k < |s.delivered| ==> s.delivered[k] == Delivery(s.submitted[k], h(s.submitted[k]))) &&
            Jobs(s.delivered) <= s.hashed <= s.submitted && !s.worker.Exited?
  {
    InitialKeeps(h);
    RunKeeps(h, Initial(), steps);
  }

  // ---- Progress ----

  /** Worker steps left before the flag goes up. */
  function WorkLeft(pc: WorkerPc): int {
    match pc
    case FirstLock => 35
    case CallWait => 34
    case Blocked => 33
    case Relock => 32
    case TestDone => 31
    case ReadMethod => 30
    case ReadFd => 29
    case ReadBegin => 28
    case ReadLen => 27
    case WriteResult(i) => 26 - i
    case SetDone => 1
    case _ => 0
  }

  predicate ByWorker(step: Step) {
    step.Worker? || step.WakeUp?
  }

  function WorkerSteps(steps: seq<Step>): nat {
    if steps == [] then 0 else (if ByWorker(steps[0]) then 1 else 0) + WorkerSteps(steps[1..])
  }

  predicate Pending(s: State) {
    s.client.Polling? && !s.jobDone
  }

  predicate Finished(h: Hash, job: Job, s: State) {
    s.jobDone && s.client.Polling? && s.job == job && |h(job)| <= |s.result| && s.result[..|h(job)|] == h(job)
  }

  /** While a job is pending the worker can always move, if only because its wait times out. */
  lemma WorkerNeverStuck(h: Hash, s: State)
    requires Inv(h, s) && Pending(s)
    ensures Enabled(s, Worker) || Enabled(s, WakeUp)
    ensures 0 < WorkLeft(s.worker)
  {
    assert s.started;
  }

  /** Each move of the worker brings a pending job nearer to its end; polling changes nothing. */
  lemma PendingProgress(h: Hash, s: State, step: Step)
    requires Fits(h) && Inv(h, s) && Pending(s) && Enabled(s, step)
    ensures var t := Next(h, s, step);
            if ByWorker(step) then t.client == s.client && (t.jobDone || WorkLeft(t.worker) < WorkLeft(s.worker)) else t == s
  {
  }

  /** In any schedule that lets the worker move 35 times, a pending job is finished on the way, whatever
      happened to the signal. */
  lemma {:induction false} PendingJobFinishes(h: Hash, s: State, steps: seq<Step>) returns (k: nat)
    requires Fits(h) && Inv(h, s) && Pending(s) && Possible(h, s, steps)
    requires WorkerSteps(steps) >= WorkLeft(s.worker)
    ensures k <= |steps| && Possible(h, s, steps[..k])
    ensures Finished(h, s.job, Run(h, s, steps[..k]))
    decreases |steps|
  {
    WorkerNeverStuck(h, s);
    var t := Next(h, s, steps[0]);
    PendingProgress(h, s, steps[0]);
    StepKeeps(h, s, steps[0]);
    if t.jobDone {
      k := 1;
      assert steps[..1][1..] == [];
    } else {
      var j := PendingJobFinishes(h, t, steps[1..]);
      k := j + 1;
      assert steps[..k][1..] == steps[1..][..j];
    }
  }

  /** The exact condition: in every run a pending job can need the time-out of the wait only if it is the first. */
  lemma OnlyFirstJobWaits(h: Hash, steps: seq<Step>)
    requires Fits(h) && Possible(h, Initial(), steps)
    ensures var s := Run(h, Initial(), steps);
            Pending(s) && s.worker.Blocked? ==> s.submitted == [s.job] && s.delivered == [] && s.hashed == []
  {
    InitialKeeps(h);
    RunKeeps(h, Initial(), steps);
  }

  /** Every later job is taken up and finished by the worker's own moves: while it is pending the worker can move,
      and is not waiting for a time-out. */
  lemma LaterJobsNeedNoTimeOut(h: Hash, steps: seq<Step>)
    requires Fits(h) && Possible(h, Initial(), steps)
    ensures var s := Run(h, Initial(), steps);
            Pending(s) && |s.submitted| > 1 ==> Enabled(s, Worker) && !Enabled(s, WakeUp)
  {
    InitialKeeps(h);
    RunKeeps(h, Initial(), steps);
    OnlyFirstJobWaits(h, steps);
    var s := Run(h, Initial(), steps);
    if Pending(s) && |s.submitted| > 1 {
      hide HistoryKept, DeliveriesCorrect, ParametersKept, ArgumentsKept, Run, Possible;
      WorkerNeverStuck(h, s);
    }
  }

  /** The schedule of a first job in which the signal arrives before the worker waits. */
  function SignalTooEarly(job: Job): seq<Step> {
    [StartJob(job), Client, Client, Client, Client, Client, Client, Client, Client, Client, Worker, Worker]
  }

  /** The signal can be lost: here only the time-out of the wait lets the worker find the job. */
  lemma SignalCanBeLost(h: Hash, job: Job)
    requires Fits(h) && Known(job.kind)
    ensures Possible(h, Initial(), SignalTooEarly(job))
    ensures var s := Run(h, Initial(), SignalTooEarly(job)); Pending(s) && s.worker.Blocked? && !Enabled(s, Worker) && Enabled(s, WakeUp)
  {
    hide *;
    var r := TooEarlyFromLock(h, job);
    FirstJobStarts(h, job);
    var t5 := Starting(job, TestStarted, 4, Absent, Nobody, true);
    var t4 := Starting(job, WriteMethod, 3, Absent, Nobody, true);
    var t3 := Starting(job, WriteLen, 2, Absent, Nobody, true);
    var t2 := Starting(job, WriteBegin, 1, Absent, Nobody, true);
    var t1 := Starting(job, WriteFd, 0, Absent, Nobody, true);
    r := StepBefore(h, t5, Client, r, Starting(job, LockMutex, 4, FirstLock, Nobody, true));
    r := StepBefore(h, t4, Client, r, t5);
    r := StepBefore(h, t3, Client, r, t4);
    r := StepBefore(h, t2, Client, r, t3);
    r := StepBefore(h, t1, Client, r, t2);
    r := StepBefore(h, Initial(), StartJob(job), r, t1);
    ScheduleIs(job, r);
    LeftWaiting(job);
  }

  lemma TooEarlyFromLock(h: Hash, job: Job) returns (r: seq<Step>)
    requires Fits(h) && Known(job.kind)
    ensures var s := Starting(job, LockMutex, 4, FirstLock, Nobody, true);
            Possible(h, s, r) && Run(h, s, r) == Starting(job, Polling, 4, Blocked, Nobody, false)
    ensures r == [Client] + ([Client] + ([Client] + ([Client] + ([Worker] + ([Worker] + [])))))
  {
    hide *;
    SignalBeforeWait(h, job);
    var t12 := Starting(job, Polling, 4, Blocked, Nobody, false);
    var t11 := Starting(job, Polling, 4, CallWait, WorkerHolds, false);
    var t10 := Starting(job, Polling, 4, FirstLock, Nobody, false);
    var t9 := Starting(job, UnlockMutex, 4, FirstLock, ClientHolds, false);
    var t8 := Starting(job, Signal, 4, FirstLock, ClientHolds, false);
    var t7 := Starting(job, ClearDone, 4, FirstLock, ClientHolds, true);
    NoSteps(h, t12);
    r := StepBefore(h, t11, Worker, [], t12);
    r := StepBefore(h, t10, Worker, r, t11);
    r := StepBefore(h, t9, Client, r, t10);
    r := StepBefore(h, t8, Client, r, t9);
    r := StepBefore(h, t7, Client, r, t8);
    r := StepBefore(h, Starting(job, LockMutex, 4, FirstLock, Nobody, true), Client, r, t7);
  }

  ghost predicate Leads(h: Hash, s: State, step: Step, t: State) {
    |s.result| == RESULT_SIZE && Enabled(s, step) && Next(h, s, step) == t
  }

  lemma FirstJobStarts(h: Hash, job: Job)
    requires Known(job.kind)
    ensures Leads(h, Initial(), StartJob(job), Starting(job, WriteFd, 0, Absent, Nobody, true))
    ensures Leads(h, Starting(job, WriteFd, 0, Absent, Nobody, true), Client, Starting(job, WriteBegin, 1, Absent, Nobody, true))
    ensures Leads(h, Starting(job, WriteBegin, 1, Absent, Nobody, true), Client, Starting(job, WriteLen, 2, Absent, Nobody, true))
    ensures Leads(h, Starting(job, WriteLen, 2, Absent, Nobody, true), Client, Starting(job, WriteMethod, 3, Absent, Nobody, true))
    ensures Leads(h, Starting(job, WriteMethod, 3, Absent, Nobody, true), Client, Starting(job, TestStarted, 4, Absent, Nobody, true))
    ensures Leads(h, Starting(job, TestStarted, 4, Absent, Nobody, true), Client, Starting(job, LockMutex, 4, FirstLock, Nobody, true))
  {
  }

  lemma SignalBeforeWait(h: Hash, job: Job)
    ensures Leads(h, Starting(job, LockMutex, 4, FirstLock, Nobody, true), Client, Starting(job, ClearDone, 4, FirstLock, ClientHolds, true))
    ensures Leads(h, Starting(job, ClearDone, 4, FirstLock, ClientHolds, true), Client, Starting(job, Signal, 4, FirstLock, ClientHolds, false))
    ensures Leads(h, Starting(job, Signal, 4, FirstLock, ClientHolds, false), Client, Starting(job, UnlockMutex, 4, FirstLock, ClientHolds, false))
    ensures Leads(h, Starting(job, UnlockMutex, 4, FirstLock, ClientHolds, false), Client, Starting(job, Polling, 4, FirstLock, Nobody, false))
    ensures Leads(h, Starting(job, Polling, 4, FirstLock, Nobody, false), Worker, Starting(job, Polling, 4, CallWait, WorkerHolds, false))
    ensures Leads(h, Starting(job, Polling, 4, CallWait, WorkerHolds, false), Worker, Starting(job, Polling, 4, Blocked, Nobody, false))
  {
  }

  lemma LeftWaiting(job: Job)
    ensures var s := Starting(job, Polling, 4, Blocked, Nobody, false);
            Pending(s) && s.worker.Blocked? && !Enabled(s, Worker) && Enabled(s, WakeUp)
  {
  }

  /** States met while the first job is being started. */
  function Starting(job: Job, client: ClientPc, written: nat, worker: WorkerPc, mutex: Holder, jobDone: bool): State {
    Initial().(jobDone := jobDone, mutex := mutex, started := !worker.Absent?, client := client, job := job, worker := worker, submitted := [job],
               fd := if written > 0 then job.fd else 0, begin := if written > 1 then job.begin else 0,
               len := if written > 2 then job.len else 0, kind := if written > 3 then job.kind else 0)
  }

  lemma NoSteps(h: Hash, s: State)
    ensures Possible(h, s, []) && Run(h, s, []) == s
  {
  }

  lemma StepBefore(h: Hash, s: State, step: Step, rest: seq<Step>, t: State) returns (steps: seq<Step>)
    requires Leads(h, s, step, t) && Possible(h, t, rest)
    ensures steps == [step] + rest && Possible(h, s, steps) && Run(h, s, steps) == Run(h, t, rest)
  {
    steps := [step] + rest;
    assert steps[1..] == rest;
  }

  lemma ScheduleIs(job: Job, steps: seq<Step>)
    requires steps == [StartJob(job)] + ([Client] + ([Client] + ([Client] + ([Client] + ([Client] + ([Client] + ([Client] + ([Client]
                    + ([Client] + ([Worker] + ([Worker] + [])))))))))))
    ensures steps == SignalTooEarly(job)
  {
  }
}
