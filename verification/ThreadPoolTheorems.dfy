/** What the thread pool protocol guarantees over every run and every interleaving. */
module ThreadPoolTheorems {
  import opened Sums
  import opened ThreadPool

  // ------------------------------------------------------------------ safety

  /** The state `s` is reachable: some run leads to it from a new pool. */
  predicate Reaches(threadNum: int, m: nat, acts: seq<Action>, s: State) {
    IsRun(Init(threadNum, m), acts, s)
  }

  lemma ReachableInv(threadNum: int, m: nat, acts: seq<Action>, s: State)
    requires Reaches(threadNum, m, acts, s)
    ensures Inv(s)
  {
    InitInv(threadNum, m);
    RunInv(Init(threadNum, m), acts, s);
  }

  /** A step changes neither the number of workers nor the number of client threads. */
  lemma StepKeepsThreads(s: State, a: Action)
    requires Enabled(s, a)
    ensures |Apply(s, a).workers| == |s.workers| && |Apply(s, a).pushers| == |s.pushers|
  {
  }

  lemma {:induction false} RunKeepsThreads(s: State, acts: seq<Action>, s': State)
    requires IsRun(s, acts, s')
    ensures |s'.workers| == |s.workers| && |s'.pushers| == |s.pushers|
    decreases |acts|
  {
    if acts != [] {
      StepKeepsThreads(s, acts[0]);
      RunKeepsThreads(Apply(s, acts[0]), acts[1..], s');
    }
  }

  /** In every reachable state there are as many workers as were asked for, and at least one. */
  lemma WorkersAsAsked(threadNum: int, m: nat, acts: seq<Action>, s: State)
    requires Reaches(threadNum, m, acts, s)
    ensures |s.workers| == if threadNum < 1 then 1 else threadNum
    ensures |s.pushers| == m
  {
    RunKeepsThreads(Init(threadNum, m), acts, s);
  }

  /** A new pool: every worker on its way to the lock, nothing queued, pushed or terminated. */
  lemma NewPool(threadNum: int, m: nat, s: State)
    requires Reaches(threadNum, m, [], s)
    ensures forall w :: 0 <= w < |s.workers| ==> s.workers[w] == AtLock
    ensures forall p :: 0 <= p < |s.pushers| ==> s.pushers[p] == Ready
    ensures s.tasks == s.pushed == s.finished == s.lost == [] && s.handed == {}
    ensures !s.terminate && s.destroyer == Idle && s.owner == Free
  {
  }

  /** A sleeping worker may wake at any time, for no reason, and then only has to reacquire the mutex. */
  lemma SpuriousWakeupAnyTime(s: State, w: nat)
    ensures Enabled(s, SpuriousWakeup(w)) <==> w < |s.workers| && s.workers[w].Asleep?
    ensures Enabled(s, SpuriousWakeup(w)) ==>
      Apply(s, SpuriousWakeup(w)) == s.(workers := s.workers[w := Woken])
  {
  }

  /** A signal may wake any set of sleepers, and must wake one if there is one; it wakes exactly that set. */
  lemma SignalExactly(s: State, p: nat, woken: set<nat>)
    requires p < |s.pushers| && s.pushers[p].Signal?
    ensures Enabled(s, PusherStep(p, woken)) <==>
      && (forall w :: w in woken ==> w < |s.workers| && s.workers[w].Asleep?)
      && (woken == {} ==> forall w :: 0 <= w < |s.workers| ==> !s.workers[w].Asleep?)
    ensures Enabled(s, PusherStep(p, woken)) ==>
      var s' := Apply(s, PusherStep(p, woken));
      && |s'.workers| == |s.workers|
      && (forall w: nat :: w < |s.workers| ==> s'.workers[w] == if w in woken then Woken else s.workers[w])
      && s' == s.(workers := s'.workers, pushers := s.pushers[p := Release])
  {
    if forall w :: 0 <= w < |s.workers| ==> !s.workers[w].Asleep? {
      assert !exists w: nat :: w < |s.workers| && IsAsleep(s, w);
    } else {
      var w: nat :| w < |s.workers| && s.workers[w].Asleep?;
      assert IsAsleep(s, w);
    }
    if forall w :: w in woken ==> w < |s.workers| && s.workers[w].Asleep? {
      assert forall w :: w in woken ==> IsAsleep(s, w);
    }
    if forall w :: w in woken ==> IsAsleep(s, w) {
      assert forall w :: w in woken ==> w < |s.workers| && s.workers[w].Asleep?;
    }
  }

  /** No lost signal: a worker sleeps only while the queue is covered by workers on their way to it. */
  lemma NoLostSignal(threadNum: int, m: nat, acts: seq<Action>, s: State)
    requires Reaches(threadNum, m, acts, s)
    requires !s.terminate && !SignalPending(s) && SomeSleeper(s)
    ensures |s.tasks| <= Sum(s.workers, Available)
  {
    ReachableInv(threadNum, m, acts, s);
  }

  /**
   The dequeue never meets a null or stale head, and the unlocked `task = NULL` of destroy never
   overlaps a worker between its second terminate test and its unlock.
   */
  lemma DequeueIsSafe(threadNum: int, m: nat, acts: seq<Action>, s: State, w: nat)
    requires Reaches(threadNum, m, acts, s) && w < |s.workers|
    ensures !s.workers[w].Crashed?
    ensures s.workers[w].Read? ==> s.tasks != []
    ensures s.workers[w].Unlink? ==> s.tasks != [] && s.tasks[0] == s.workers[w].task
    ensures s.destroyer.ClearTasks? ==> !s.workers[w].Read? && !s.workers[w].Unlink? && !s.workers[w].Unlock?
  {
    ReachableInv(threadNum, m, acts, s);
    assert WorkerOk(s, s.workers[w]);
  }

  /** At most one thread, of whatever kind, is between lock and unlock, and it owns the mutex. */
  lemma LockedRegionsExclude(threadNum: int, m: nat, acts: seq<Action>, s: State)
    requires Reaches(threadNum, m, acts, s)
    ensures MutualExclusion(s)
    ensures forall v: nat, w: nat :: v < |s.workers| && w < |s.workers| && v != w ==>
      !(WorkerHolds(s.workers[v]) && WorkerHolds(s.workers[w]))
    ensures forall p: nat, q: nat :: p < |s.pushers| && q < |s.pushers| && p != q ==>
      !(PusherHolds(s.pushers[p]) && PusherHolds(s.pushers[q]))
    ensures forall w: nat, p: nat :: w < |s.workers| && p < |s.pushers| ==>
      !(WorkerHolds(s.workers[w]) && PusherHolds(s.pushers[p]))
    ensures DestroyerHolds(s.destroyer) ==>
      && (forall w: nat :: w < |s.workers| ==> !WorkerHolds(s.workers[w]))
      && (forall p: nat :: p < |s.pushers| ==> !PusherHolds(s.pushers[p]))
  {
    ReachableInv(threadNum, m, acts, s);
  }

  /** The worker takes the latest inserted task among those still queued. */
  lemma DequeueTakesLatest(threadNum: int, m: nat, acts: seq<Action>, s: State, w: nat, u: Task)
    requires Reaches(threadNum, m, acts, s)
    requires w < |s.workers| && s.workers[w].Unlink? && u in s.tasks && u != s.workers[w].task
    ensures u in s.pushed && Position(s.pushed, u) < Position(s.pushed, s.workers[w].task)
    ensures u in ApplyWorker(s, w).tasks && s.workers[w].task !in ApplyWorker(s, w).tasks
  {
    ReachableInv(threadNum, m, acts, s);
    var t := s.workers[w].task;
    assert WorkerOk(s, s.workers[w]);
    QueuedWasPushed(s);
    var i :| 0 <= i < |s.tasks| && s.tasks[i] == u;
    assert s.tasks == [t] + s.tasks[1..];
    assert u == s.tasks[1..][i - 1];
    assert Accounted(s, t);
    assert Count(s.tasks, t) == 1 + Count(s.tasks[1..], t);
  }

  /** Every callback runs at most once, and only for a task that was handed over. */
  lemma RunsAtMostOnce(threadNum: int, m: nat, acts: seq<Action>, s: State, t: Task)
    requires Reaches(threadNum, m, acts, s)
    ensures Count(s.finished, t) <= (if t in s.handed then 1 else 0)
    ensures Count(s.finished, t) == 1 ==> Count(s.tasks, t) == Held(s.workers, t) == Carried(s.pushers, t) == 0
    ensures t in s.handed ==>
      Carried(s.pushers, t) + Count(s.tasks, t) + Held(s.workers, t) + Count(s.finished, t) + Count(s.lost, t) == 1
    ensures !s.destroyer.Done? ==> Count(s.lost, t) == 0
  {
    ReachableInv(threadNum, m, acts, s);
    assert Accounted(s, t);
  }

  // ------------------------------------------------------------------ progress

  /** An action the pool takes by itself, without a new call and without a spurious wakeup. */
  predicate Internal(a: Action) {
    a.WorkerStep? || a.PusherStep? || a.DestroyerStep?
  }

  function Rank(pc: WorkerPc): nat {
    match pc
    case Unlock(_) => 8
    case Running(_) => 7
    case AtLock | Woken => 6
    case LoopTest => 5
    case TermTest => 4
    case TermTest2 => 3
    case Read | ExitUnlock => 2
    case Unlink(_) | Commit => 1
    case Asleep | Exited | Crashed => 0
  }

  function PusherRank(n: nat, pc: PusherPc): nat {
    match pc
    case Lock(_) => 6 * n + 12
    case Insert(_) => 6 * n + 11
    case Signal => 6 * n + 2
    case Release => 1
    case Ready => 0
  }

  function PusherRanks(n: nat, ps: seq<PusherPc>): nat {
    Sum(ps, (pc: PusherPc) => PusherRank(n, pc))
  }

  function DestroyerRank(n: nat, d: DestroyerPc): nat {
    match d
    case LockD => 6 * n + 4
    case Broadcast => 6 * n + 3
    case ReleaseD => 2
    case ClearTasks => 1
    case Idle | Done => 0
  }

  /** Ranks of all program counters, plus 8 for each queued task. */
  function Measure(s: State): nat {
    Sum(s.workers, Rank) + 8 * |s.tasks|
    + PusherRanks(|s.workers|, s.pushers) + DestroyerRank(|s.workers|, s.destroyer)
  }

  /** What an external action may add to the measure. */
  function Credit(n: nat, a: Action): nat {
    match a
    case SpuriousWakeup(_) => 6
    case CallPush(_, _) => 6 * n + 12
    case CallDestroy => 6 * n + 4
    case _ => 0
  }

  lemma PusherRanksMove(n: nat, ps: seq<PusherPc>, p: nat, pc: PusherPc)
    requires p < |ps|
    ensures PusherRanks(n, ps[p := pc]) + PusherRank(n, ps[p]) == PusherRanks(n, ps) + PusherRank(n, pc)
  {
    SumUpdate(ps, p, pc, (pc: PusherPc) => PusherRank(n, pc));
  }

  /** A worker step moves one worker down in rank; only the unlinking of a task moves it up. */
  lemma WorkerRankFalls(s: State, w: nat)
    requires WorkerEnabled(s, w)
    ensures var s' := ApplyWorker(s, w);
      && s'.workers == s.workers[w := s'.workers[w]] && s'.pushers == s.pushers && s'.destroyer == s.destroyer
      && Rank(s'.workers[w]) + 8 * |s'.tasks| < Rank(s.workers[w]) + 8 * |s.tasks|
      && (s.workers[w].Unlink? || Rank(s'.workers[w]) < Rank(s.workers[w]))
  {
  }

  lemma WorkerStepDecreases(s: State, w: nat)
    requires WorkerEnabled(s, w)
    ensures Measure(ApplyWorker(s, w)) < Measure(s)
    ensures s.workers[w].Unlink? || Sum(ApplyWorker(s, w).workers, Rank) < Sum(s.workers, Rank)
  {
    WorkerRankFalls(s, w);
    SumUpdate(s.workers, w, ApplyWorker(s, w).workers[w], Rank);
  }

  lemma PusherStepDecreases(s: State, p: nat, woken: set<nat>)
    requires PusherEnabled(s, p, woken)
    ensures Measure(ApplyPusher(s, p, woken)) < Measure(s)
  {
    var s' := ApplyPusher(s, p, woken);
    PusherRanksMove(|s.workers|, s.pushers, p, s'.pushers[p]);
    SumGrows(s.workers, s'.workers, 6, Rank);
  }

  lemma DestroyerStepDecreases(s: State)
    requires DestroyerEnabled(s)
    ensures Measure(ApplyDestroyer(s)) < Measure(s)
  {
    SumGrows(s.workers, ApplyDestroyer(s).workers, 6, Rank);
  }

  /** A spurious wakeup and a new call raise the measure by no more than their credit. */
  lemma ExternalCredit(s: State, a: Action)
    requires Enabled(s, a) && !Internal(a)
    ensures |Apply(s, a).workers| == |s.workers|
    ensures Measure(Apply(s, a)) <= Measure(s) + Credit(|s.workers|, a)
  {
    match a
    case SpuriousWakeup(w) => SumUpdate(s.workers, w, Woken, Rank);
    case CallPush(p, t) => PusherRanksMove(|s.workers|, s.pushers, p, Lock(t));
    case CallDestroy =>
  }

  lemma InternalDecreases(s: State, a: Action)
    requires Enabled(s, a) && Internal(a)
    ensures |Apply(s, a).workers| == |s.workers| && Measure(Apply(s, a)) < Measure(s)
  {
    match a
    case WorkerStep(w) => WorkerStepDecreases(s, w);
    case PusherStep(p, woken) => PusherStepDecreases(s, p, woken);
    case DestroyerStep => DestroyerStepDecreases(s);
  }

  /** Every internal action lowers the measure; external ones raise it by a fixed credit. */
  lemma StepMeasure(s: State, a: Action)
    requires Enabled(s, a)
    ensures |Apply(s, a).workers| == |s.workers|
    ensures Internal(a) ==> Measure(Apply(s, a)) < Measure(s)
    ensures !Internal(a) ==> Measure(Apply(s, a)) <= Measure(s) + Credit(|s.workers|, a)
  {
    if Internal(a) {
      InternalDecreases(s, a);
    } else {
      ExternalCredit(s, a);
    }
  }

  function InternalSteps(acts: seq<Action>): nat {
    Sum(acts, (a: Action) => if Internal(a) then 1 else 0)
  }

  function Credits(n: nat, acts: seq<Action>): nat {
    Sum(acts, (a: Action) => Credit(n, a))
  }

  /**
   Every run is finite up to its external actions: the number of internal steps is bounded by the
   initial measure and the calls and spurious wakeups that occurred.
   */
  lemma {:induction false} RunsAreBounded(s: State, acts: seq<Action>, s': State)
    requires IsRun(s, acts, s')
    ensures InternalSteps(acts) + Measure(s') <= Measure(s) + Credits(|s.workers|, acts)
    decreases |acts|
  {
    if acts != [] {
      StepMeasure(s, acts[0]);
      RunsAreBounded(Apply(s, acts[0]), acts[1..], s');
    }
  }

  /** No internal action can happen. */
  ghost predicate Quiescent(s: State) {
    forall a: Action :: Internal(a) ==> !Enabled(s, a)
  }

  function Sleepers(s: State): set<nat> {
    set w: nat | w < |s.workers| && IsAsleep(s, w)
  }

  lemma WakingAllIsValid(s: State)
    ensures ValidSignal(s, Sleepers(s))
  {
    forall w: nat | w < |s.workers| && IsAsleep(s, w)
      ensures w in Sleepers(s)
    {
    }
  }

  /** When nothing moves, nobody holds or waits for the mutex. */
  lemma QuiescentThreads(s: State)
    requires Inv(s) && Quiescent(s)
    ensures s.owner.Free?
    ensures forall w :: 0 <= w < |s.workers| ==> s.workers[w].Asleep? || s.workers[w].Exited?
    ensures forall p :: 0 <= p < |s.pushers| ==> s.pushers[p].Ready?
    ensures s.destroyer.Idle? || s.destroyer.Done?
  {
    WakingAllIsValid(s);
    match s.owner
    case HeldByWorker(w) => assert Enabled(s, WorkerStep(w));
    case HeldByPusher(p) => assert Enabled(s, PusherStep(p, Sleepers(s)));
    case HeldByDestroyer => assert Enabled(s, DestroyerStep);
    case Free =>
      assert !Enabled(s, DestroyerStep);
      forall w | 0 <= w < |s.workers|
        ensures s.workers[w].Asleep? || s.workers[w].Exited?
      {
        assert !Enabled(s, WorkerStep(w));
        assert WorkerOk(s, s.workers[w]);
      }
      forall p | 0 <= p < |s.pushers|
        ensures s.pushers[p].Ready?
      {
        assert !Enabled(s, PusherStep(p, Sleepers(s)));
      }
  }

  /** A pool that stopped moving before destroy has run every task it was ever given. */
  lemma QuiescentMeansDrained(s: State)
    requires Inv(s) && Quiescent(s) && !s.terminate
    ensures s.tasks == [] && forall w :: 0 <= w < |s.workers| ==> s.workers[w].Asleep?
    ensures forall t :: t in s.handed ==> Count(s.finished, t) == 1
  {
    QuiescentThreads(s);
    forall w | 0 <= w < |s.workers|
      ensures s.workers[w].Asleep?
    {
      assert WorkerOk(s, s.workers[w]);
    }
    assert s.workers[0].Asleep? && SomeSleeper(s);
    SumZero(s.workers, Available);
    assert !SignalPending(s);
    forall t | t in s.handed
      ensures Count(s.finished, t) == 1
    {
      assert Accounted(s, t);
      SumZero(s.workers, (pc: WorkerPc) => HoldsTask(pc, t));
      SumZero(s.pushers, (pc: PusherPc) => CarriesTask(pc, t));
    }
  }

  /** A pool that stopped moving after destroy was called has let every worker exit. */
  lemma QuiescentMeansShutDown(s: State)
    requires Inv(s) && Quiescent(s) && s.terminate
    ensures s.destroyer.Done? && s.owner.Free?
    ensures forall w :: 0 <= w < |s.workers| ==> s.workers[w].Exited?
    ensures forall t :: t in s.handed ==> Count(s.finished, t) + Count(s.lost, t) == 1
  {
    QuiescentThreads(s);
    forall w | 0 <= w < |s.workers|
      ensures s.workers[w].Exited?
    {
      assert WorkerOk(s, s.workers[w]);
    }
    forall t | t in s.handed
      ensures Count(s.finished, t) + Count(s.lost, t) == 1
    {
      assert Accounted(s, t);
      SumZero(s.workers, (pc: WorkerPc) => HoldsTask(pc, t));
      SumZero(s.pushers, (pc: PusherPc) => CarriesTask(pc, t));
    }
  }

  lemma RunPrepend(s: State, a: Action, acts: seq<Action>, s': State)
    requires Enabled(s, a) && IsRun(Apply(s, a), acts, s')
    ensures IsRun(s, [a] + acts, s')
  {
    assert ([a] + acts)[1..] == acts;
  }

  lemma InternalKeeps(s: State, a: Action)
    requires Enabled(s, a) && Internal(a)
    ensures Apply(s, a).terminate == s.terminate && Apply(s, a).handed == s.handed
  {
  }

  /** Left to itself, any reachable pool comes to rest within `Measure(s)` steps. */
  lemma {:induction false} ComesToRest(s: State) returns (acts: seq<Action>, s': State)
    requires Inv(s)
    ensures IsRun(s, acts, s') && Inv(s') && Quiescent(s')
    ensures |acts| <= Measure(s) && forall i :: 0 <= i < |acts| ==> Internal(acts[i])
    ensures s'.terminate == s.terminate && s'.handed == s.handed
    decreases Measure(s)
  {
    if Quiescent(s) {
      return [], s;
    }
    var a: Action :| Internal(a) && Enabled(s, a);
    var next := Apply(s, a);
    assert Inv(next) && Measure(next) < Measure(s) && next.terminate == s.terminate && next.handed == s.handed by {
      StepInv(s, a);
      StepMeasure(s, a);
      InternalKeeps(s, a);
    }
    var rest, last := ComesToRest(next);
    RunPrepend(s, a, rest, last);
    return [a] + rest, last;
  }

  /**
   From every reachable state before destroy, any idle client can push any fresh task, and the pool
   then runs it, and every earlier task, without further help.
   */
  lemma PushedTaskRuns(s: State, p: nat, t: Task) returns (acts: seq<Action>, s': State)
    requires Inv(s) && s.destroyer.Idle? && p < |s.pushers| && s.pushers[p].Ready? && t !in s.handed
    ensures IsRun(s, [CallPush(p, t)] + acts, s')
    ensures forall i :: 0 <= i < |acts| ==> Internal(acts[i])
    ensures s'.tasks == [] && forall u :: u in s.handed + {t} ==> Count(s'.finished, u) == 1
  {
    var next := Apply(s, CallPush(p, t));
    StepInv(s, CallPush(p, t));
    acts, s' := ComesToRest(next);
    RunPrepend(s, CallPush(p, t), acts, s');
    QuiescentMeansDrained(s');
  }

  /** From every reachable state before destroy, with no push under way, destroy can be called, and all workers exit. */
  lemma DestroyCompletes(s: State) returns (acts: seq<Action>, s': State)
    requires Inv(s) && s.destroyer.Idle? && forall p :: 0 <= p < |s.pushers| ==> s.pushers[p].Ready?
    ensures IsRun(s, [CallDestroy] + acts, s')
    ensures forall i :: 0 <= i < |acts| ==> Internal(acts[i])
    ensures s'.destroyer.Done? && forall w :: 0 <= w < |s'.workers| ==> s'.workers[w].Exited?
  {
    var next := Apply(s, CallDestroy);
    StepInv(s, CallDestroy);
    acts, s' := ComesToRest(next);
    RunPrepend(s, CallDestroy, acts, s');
    QuiescentMeansShutDown(s');
  }

  /** Once the broadcast has happened no worker ever sleeps again. */
  lemma {:induction false} NoSleepAfterBroadcast(s: State, acts: seq<Action>, s': State, w: nat)
    requires Inv(s) && PastBroadcast(s.destroyer) && IsRun(s, acts, s') && w < |s'.workers|
    ensures PastBroadcast(s'.destroyer)
    ensures !s'.workers[w].Asleep? && !s'.workers[w].Commit?
    decreases |acts|
  {
    if acts == [] {
      assert WorkerOk(s, s.workers[w]);
    } else {
      StepInv(s, acts[0]);
      NoSleepAfterBroadcast(Apply(s, acts[0]), acts[1..], s', w);
    }
  }

  /**
   After the broadcast every worker step lowers the plain sum of worker ranks, and while the
   mutex is free some worker step is possible until all have exited.
   */
  lemma ShutdownProgress(s: State, w: nat)
    requires Inv(s) && PastBroadcast(s.destroyer) && w < |s.workers|
    ensures WorkerEnabled(s, w) ==> Sum(ApplyWorker(s, w).workers, Rank) < Sum(s.workers, Rank)
    ensures s.owner.Free? && !s.workers[w].Exited? ==> WorkerEnabled(s, w)
    ensures s.owner.HeldByWorker? ==> WorkerEnabled(s, s.owner.w)
  {
    assert WorkerOk(s, s.workers[w]);
    if WorkerEnabled(s, w) {
      WorkerStepDecreases(s, w);
    }
    if s.owner.HeldByWorker? {
      assert WorkerOk(s, s.workers[s.owner.w]);
    }
  }
}
