/**
 The worker / pusher / destroyer protocol of the thread pool as a transition system.

 Every thread has a program counter; one action is one access to shared memory, one lock or
 unlock, or one operation on the condition variable.  `terminate` and the final clearing of the
 task list are written without the lock, so they are separate actions of the destroyer.
 */
module ThreadPool {
  import opened Sums

  /** A task object, by identity. */
  type Task = nat

  /** Where a worker stands in its loop.  The comments give the line about to be executed. */
  datatype WorkerPc =
    | AtLock            // 62: waiting for the mutex
    | LoopTest          // 64: task == NULL ?
    | TermTest          // 66: terminate ?  (inside the wait loop)
    | Commit            // 73: about to release the mutex and sleep, atomically
    | Asleep            // 73: blocked on the condition variable
    | Woken             // 73: woken, waiting to reacquire the mutex
    | TermTest2         // 76: terminate ?  (after the wait loop)
    | Read              // 82: read the head of the list
    | Unlink(task: Task)   // 83: unlink it
    | Unlock(task: Task)   // 85: release the mutex
    | Running(task: Task)  // 87: run the callback, free the task
    | ExitUnlock        // 78: release the mutex and leave
    | Exited            // 92
    | Crashed           // null dereference at 82-83

  datatype PusherPc =
    | Ready             // not inside a push
    | Lock(task: Task)     // 149
    | Insert(task: Task)   // 150
    | Signal            // 152
    | Release           // 153

  datatype DestroyerPc =
    | Idle              // destroy not called
    | LockD             // 137, line 136 done
    | Broadcast         // 139
    | ReleaseD          // 140
    | ClearTasks        // 142, without the lock
    | Done

  datatype Owner = Free | HeldByWorker(w: nat) | HeldByPusher(p: nat) | HeldByDestroyer

  /**
   `handed`, `pushed`, `finished` and `lost` are history: every task ever passed to a push, the
   order of insertions, the order in which callbacks completed, and what destroy dropped.
   */
  datatype State = State(
    workers: seq<WorkerPc>,
    pushers: seq<PusherPc>,
    destroyer: DestroyerPc,
    owner: Owner,
    tasks: seq<Task>,
    terminate: bool,
    handed: set<Task>,
    pushed: seq<Task>,
    finished: seq<Task>,
    lost: seq<Task>)

  datatype Action =
    | WorkerStep(w: nat)
    | SpuriousWakeup(w: nat)
    | CallPush(p: nat, task: Task)
    | PusherStep(p: nat, woken: set<nat>)
    | CallDestroy
    | DestroyerStep

  /** The pool right after creation: at least one worker, `m` client threads, nothing queued. */
  function Init(threadNum: int, m: nat): State {
    var n: nat := if threadNum < 1 then 1 else threadNum;
    State(seq(n, _ => AtLock), seq(m, _ => Ready), Idle, Free, [], false, {}, [], [], [])
  }

  // ------------------------------------------------------------------ transitions

  predicate IsAsleep(s: State, w: nat) {
    w < |s.workers| && s.workers[w].Asleep?
  }

  /** A signal wakes sleepers only, and at least one if there is one. */
  predicate ValidSignal(s: State, woken: set<nat>) {
    && (forall w :: w in woken ==> IsAsleep(s, w))
    && ((exists w: nat :: w < |s.workers| && IsAsleep(s, w)) ==> woken != {})
  }

  function Wake(ws: seq<WorkerPc>, woken: set<nat>): (r: seq<WorkerPc>)
    ensures |r| == |ws|
    ensures forall i: nat :: i < |ws| ==> r[i] == if i in woken && ws[i].Asleep? then Woken else ws[i]
  {
    seq(|ws|, (i: nat) requires i < |ws| => if i in woken && ws[i].Asleep? then Woken else ws[i])
  }

  function WakeAll(ws: seq<WorkerPc>): (r: seq<WorkerPc>)
    ensures |r| == |ws|
    ensures forall i: nat :: i < |ws| ==> r[i] == if ws[i].Asleep? then Woken else ws[i]
  {
    seq(|ws|, (i: nat) requires i < |ws| => if ws[i].Asleep? then Woken else ws[i])
  }

  predicate WorkerEnabled(s: State, w: nat) {
    && w < |s.workers|
    && !s.workers[w].Asleep? && !s.workers[w].Exited? && !s.workers[w].Crashed?
    && (s.workers[w].AtLock? || s.workers[w].Woken? ==> s.owner.Free?)
  }

  /** No push starts once destroy was called; the task is freshly allocated. */
  predicate CallEnabled(s: State, p: nat, t: Task) {
    p < |s.pushers| && s.pushers[p].Ready? && s.destroyer.Idle? && t !in s.handed
  }

  predicate PusherEnabled(s: State, p: nat, woken: set<nat>) {
    && p < |s.pushers|
    && !s.pushers[p].Ready?
    && (s.pushers[p].Lock? ==> s.owner.Free?)
    && (s.pushers[p].Signal? ==> ValidSignal(s, woken))
  }

  /** Destroy is called when no push is in progress. */
  predicate DestroyCallEnabled(s: State) {
    s.destroyer.Idle? && forall p :: 0 <= p < |s.pushers| ==> s.pushers[p].Ready?
  }

  predicate DestroyerEnabled(s: State) {
    !s.destroyer.Idle? && !s.destroyer.Done? && (s.destroyer.LockD? ==> s.owner.Free?)
  }

  predicate Enabled(s: State, a: Action) {
    match a
    case WorkerStep(w) => WorkerEnabled(s, w)
    case SpuriousWakeup(w) => IsAsleep(s, w)
    case CallPush(p, t) => CallEnabled(s, p, t)
    case PusherStep(p, woken) => PusherEnabled(s, p, woken)
    case CallDestroy => DestroyCallEnabled(s)
    case DestroyerStep => DestroyerEnabled(s)
  }

  function MoveWorker(s: State, w: nat, pc: WorkerPc): State
    requires w < |s.workers|
  {
    s.(workers := s.workers[w := pc])
  }

  function ApplyWorker(s: State, w: nat): State
    requires WorkerEnabled(s, w)
  {
    match s.workers[w]
    case AtLock | Woken => MoveWorker(s, w, LoopTest).(owner := HeldByWorker(w))
    case LoopTest => MoveWorker(s, w, if s.tasks == [] then TermTest else TermTest2)
    case TermTest => MoveWorker(s, w, if s.terminate then TermTest2 else Commit)
    case Commit => MoveWorker(s, w, Asleep).(owner := Free)
    case TermTest2 => MoveWorker(s, w, if s.terminate then ExitUnlock else Read)
    case ExitUnlock => MoveWorker(s, w, Exited).(owner := Free)
    case Read => MoveWorker(s, w, if s.tasks == [] then Crashed else Unlink(s.tasks[0]))
    case Unlink(t) =>
      if s.tasks != [] && s.tasks[0] == t
      then MoveWorker(s, w, Unlock(t)).(tasks := s.tasks[1..])
      else MoveWorker(s, w, Crashed)
    case Unlock(t) => MoveWorker(s, w, Running(t)).(owner := Free)
    case Running(t) => MoveWorker(s, w, AtLock).(finished := s.finished + [t])
    case _ => s
  }

  function ApplyPusher(s: State, p: nat, woken: set<nat>): State
    requires PusherEnabled(s, p, woken)
  {
    match s.pushers[p]
    case Lock(t) => s.(pushers := s.pushers[p := Insert(t)], owner := HeldByPusher(p))
    case Insert(t) => s.(pushers := s.pushers[p := Signal], tasks := [t] + s.tasks, pushed := s.pushed + [t])
    case Signal => s.(pushers := s.pushers[p := Release], workers := Wake(s.workers, woken))
    case Release => s.(pushers := s.pushers[p := Ready], owner := Free)
    case Ready => s
  }

  function ApplyDestroyer(s: State): State
    requires DestroyerEnabled(s)
  {
    match s.destroyer
    case LockD => s.(destroyer := Broadcast, owner := HeldByDestroyer)
    case Broadcast => s.(destroyer := ReleaseD, workers := WakeAll(s.workers))
    case ReleaseD => s.(destroyer := ClearTasks, owner := Free)
    case ClearTasks => s.(destroyer := Done, lost := s.lost + s.tasks, tasks := [])
    case _ => s
  }

  function Apply(s: State, a: Action): State
    requires Enabled(s, a)
  {
    match a
    case WorkerStep(w) => ApplyWorker(s, w)
    case SpuriousWakeup(w) => MoveWorker(s, w, Woken)
    case CallPush(p, t) => s.(pushers := s.pushers[p := Lock(t)], handed := s.handed + {t})
    case PusherStep(p, woken) => ApplyPusher(s, p, woken)
    case CallDestroy => s.(destroyer := LockD, terminate := true)
    case DestroyerStep => ApplyDestroyer(s)
  }

  /** `acts` is a run from `s` to `s'`, under any interleaving. */
  predicate IsRun(s: State, acts: seq<Action>, s': State)
    decreases |acts|
  {
    if acts == [] then s == s'
    else Enabled(s, acts[0]) && IsRun(Apply(s, acts[0]), acts[1..], s')
  }

  // ------------------------------------------------------------------ the invariant

  /** Program points between acquiring and releasing the mutex. */
  predicate WorkerHolds(pc: WorkerPc) {
    || pc.LoopTest? || pc.TermTest? || pc.Commit? || pc.TermTest2?
    || pc.Read? || pc.Unlink? || pc.Unlock? || pc.ExitUnlock?
  }

  predicate PusherHolds(pc: PusherPc) {
    pc.Insert? || pc.Signal? || pc.Release?
  }

  predicate DestroyerHolds(pc: DestroyerPc) {
    pc.Broadcast? || pc.ReleaseD?
  }

  predicate MutualExclusion(s: State) {
    && (forall w :: 0 <= w < |s.workers| ==> (WorkerHolds(s.workers[w]) <==> s.owner == HeldByWorker(w)))
    && (forall p :: 0 <= p < |s.pushers| ==> (PusherHolds(s.pushers[p]) <==> s.owner == HeldByPusher(p)))
    && (DestroyerHolds(s.destroyer) <==> s.owner.HeldByDestroyer?)
    && (s.owner.HeldByWorker? ==> s.owner.w < |s.workers|)
    && (s.owner.HeldByPusher? ==> s.owner.p < |s.pushers|)
  }

  /** The destroyer has got the mutex at least once. */
  predicate Acquired(d: DestroyerPc) {
    !d.Idle? && !d.LockD?
  }

  /** The broadcast has happened. */
  predicate PastBroadcast(d: DestroyerPc) {
    Acquired(d) && !d.Broadcast?
  }

  /** What a worker may rely on at each program point. */
  predicate WorkerOk(s: State, pc: WorkerPc) {
    match pc
    case TermTest => s.tasks == []
    case Commit => s.tasks == [] && !PastBroadcast(s.destroyer)
    case Asleep => !PastBroadcast(s.destroyer)
    case TermTest2 => s.tasks != [] || s.terminate
    case Read => s.tasks != [] && !Acquired(s.destroyer)
    case Unlink(t) => s.tasks != [] && s.tasks[0] == t && !Acquired(s.destroyer)
    case Unlock(_) => !Acquired(s.destroyer)
    case ExitUnlock => s.terminate
    case Exited => s.terminate
    case Crashed => false
    case _ => true
  }

  predicate DestroyOk(s: State) {
    && (s.terminate <==> !s.destroyer.Idle?)
    && (!s.destroyer.Idle? ==> forall p :: 0 <= p < |s.pushers| ==> s.pushers[p].Ready?)
    && (s.destroyer.Done? ==> s.tasks == [])
    && (!s.destroyer.Done? ==> s.lost == [])
  }

  predicate Control(s: State) {
    && |s.workers| >= 1
    && MutualExclusion(s)
    && DestroyOk(s)
    && (forall w :: 0 <= w < |s.workers| ==> WorkerOk(s, s.workers[w]))
  }

  /** 1 for a worker that is awake, holds no task, and will look at the list before it sleeps. */
  function Available(pc: WorkerPc): nat {
    match pc
    case AtLock | LoopTest | Woken | TermTest2 | Read | Unlink(_) => 1
    case _ => 0
  }

  /** A push has inserted its task but not signalled yet. */
  predicate SignalPending(s: State) {
    s.owner.HeldByPusher? && s.owner.p < |s.pushers| && s.pushers[s.owner.p].Signal?
  }

  predicate SomeSleeper(s: State) {
    exists w :: 0 <= w < |s.workers| && s.workers[w].Asleep?
  }

  predicate WorkConserving(s: State) {
    !s.terminate && SomeSleeper(s) ==>
      |s.tasks| <= Sum(s.workers, Available) + if SignalPending(s) then 1 else 0
  }

  /** 1 if the worker holds `t`: unlinked from the list, callback not completed. */
  function HoldsTask(pc: WorkerPc, t: Task): nat {
    if (pc.Unlock? || pc.Running?) && pc.task == t then 1 else 0
  }

  /** 1 if the push was given `t` and has not inserted it yet. */
  function CarriesTask(pc: PusherPc, t: Task): nat {
    if (pc.Lock? || pc.Insert?) && pc.task == t then 1 else 0
  }

  function Held(ws: seq<WorkerPc>, t: Task): nat {
    Sum(ws, (pc: WorkerPc) => HoldsTask(pc, t))
  }

  function Carried(ps: seq<PusherPc>, t: Task): nat {
    Sum(ps, (pc: PusherPc) => CarriesTask(pc, t))
  }

  function Count(ts: seq<Task>, t: Task): nat {
    multiset(ts)[t]
  }

  /** `t` was handed over at most once, and is in exactly one place since then. */
  predicate Accounted(s: State, t: Task) {
    && (if t in s.handed then 1 else 0) == Carried(s.pushers, t) + Count(s.pushed, t)
    && Count(s.pushed, t)
       == Count(s.tasks, t) + Held(s.workers, t) + Count(s.finished, t) + Count(s.lost, t)
  }

  /** No task is duplicated or dropped: each is in flight, queued, held, finished or lost. */
  ghost predicate Conserved(s: State) {
    forall t: Task :: Accounted(s, t)
  }

  /** Index of the last occurrence of `t`, or -1. */
  function Position(ts: seq<Task>, t: Task): int {
    if ts == [] then -1
    else if ts[|ts| - 1] == t then |ts| - 1
    else Position(ts[..|ts| - 1], t)
  }

  /** The list is ordered from the latest insertion to the earliest. */
  predicate LatestFirst(pushed: seq<Task>, tasks: seq<Task>) {
    forall i, j :: 0 <= i < j < |tasks| ==> Position(pushed, tasks[i]) > Position(pushed, tasks[j])
  }

  ghost predicate Inv(s: State) {
    Control(s) && WorkConserving(s) && Conserved(s) && LatestFirst(s.pushed, s.tasks)
  }

  // ------------------------------------------------------------------ preservation

  lemma MutexWorker(s: State, w: nat)
    requires Control(s) && WorkerEnabled(s, w)
    ensures MutualExclusion(ApplyWorker(s, w))
  {
    assert WorkerOk(s, s.workers[w]);
    assert WorkerHolds(s.workers[w]) <==> s.owner == HeldByWorker(w);
  }

  lemma ControlWorker(s: State, w: nat)
    requires Control(s) && WorkerEnabled(s, w)
    ensures Control(ApplyWorker(s, w))
  {
    var s' := ApplyWorker(s, w);
    MutexWorker(s, w);
    assert WorkerOk(s, s.workers[w]);
    assert WorkerHolds(s.workers[w]) <==> s.owner == HeldByWorker(w);
    forall i | 0 <= i < |s'.workers|
      ensures WorkerOk(s', s'.workers[i])
    {
      if i != w {
        assert WorkerOk(s, s.workers[i]);
        assert WorkerHolds(s.workers[i]) <==> s.owner == HeldByWorker(i);
      }
    }
  }

  lemma ControlOther(s: State, a: Action)
    requires Control(s) && Enabled(s, a) && !a.WorkerStep?
    ensures Control(Apply(s, a))
  {
    var s' := Apply(s, a);
    forall i | 0 <= i < |s'.workers|
      ensures WorkerOk(s', s'.workers[i])
    {
      assert WorkerOk(s, s.workers[i]);
    }
  }

  lemma WorkConservingWorker(s: State, w: nat)
    requires Control(s) && WorkConserving(s) && WorkerEnabled(s, w)
    ensures WorkConserving(ApplyWorker(s, w))
  {
    var s' := ApplyWorker(s, w);
    SumUpdate(s.workers, w, s'.workers[w], Available);
    assert WorkerOk(s, s.workers[w]);
    if SomeSleeper(s') && !s.workers[w].Commit? {
      var i :| 0 <= i < |s'.workers| && s'.workers[i].Asleep?;
      assert s.workers[i].Asleep?;
    }
  }

  lemma WorkConservingOther(s: State, a: Action)
    requires Control(s) && WorkConserving(s) && Enabled(s, a) && !a.WorkerStep?
    ensures WorkConserving(Apply(s, a))
  {
    var s' := Apply(s, a);
    if !s'.terminate && SomeSleeper(s') {
      var i :| 0 <= i < |s'.workers| && s'.workers[i].Asleep?;
      assert s.workers[i].Asleep?;
      match a
      case SpuriousWakeup(w) =>
        SumUpdate(s.workers, w, s'.workers[w], Available);
      case PusherStep(p, woken) =>
        if s.pushers[p].Signal? {
          assert IsAsleep(s, i);
          var w :| w in woken;
          assert IsAsleep(s, w);
          SumGrowsStrictly(s.workers, s'.workers, w, Available);
        }
      case _ =>
    }
  }

  lemma HeldMoves(ws: seq<WorkerPc>, w: nat, pc: WorkerPc, t: Task)
    requires w < |ws|
    ensures Held(ws[w := pc], t) + HoldsTask(ws[w], t) == Held(ws, t) + HoldsTask(pc, t)
  {
    SumUpdate(ws, w, pc, (pc: WorkerPc) => HoldsTask(pc, t));
  }

  lemma CarriedMoves(ps: seq<PusherPc>, p: nat, pc: PusherPc, t: Task)
    requires p < |ps|
    ensures Carried(ps[p := pc], t) + CarriesTask(ps[p], t) == Carried(ps, t) + CarriesTask(pc, t)
  {
    SumUpdate(ps, p, pc, (pc: PusherPc) => CarriesTask(pc, t));
  }

  /** Waking sleepers moves no task. */
  lemma HeldSame(ws: seq<WorkerPc>, ws': seq<WorkerPc>, t: Task)
    requires |ws| == |ws'|
    requires forall i :: 0 <= i < |ws| ==> ws'[i] == ws[i] || (ws[i].Asleep? && ws'[i].Woken?)
    ensures Held(ws', t) == Held(ws, t)
  {
    SumSame(ws', ws, (pc: WorkerPc) => HoldsTask(pc, t));
  }

  /** The shared data a worker step changes: it may take the head of the list, or finish a task. */
  lemma WorkerEffect(s: State, w: nat)
    requires WorkerEnabled(s, w) && WorkerOk(s, s.workers[w])
    ensures var s', pc := ApplyWorker(s, w), s.workers[w];
      && |s'.workers| == |s.workers| && s'.workers == s.workers[w := s'.workers[w]]
      && s'.pushers == s.pushers && s'.handed == s.handed && s'.pushed == s.pushed && s'.lost == s.lost
      && s'.destroyer == s.destroyer && s'.terminate == s.terminate
      && s'.finished == (if pc.Running? then s.finished + [pc.task] else s.finished)
      && (if pc.Unlink? then s.tasks == [pc.task] + s'.tasks && s'.workers[w] == Unlock(pc.task)
          else s'.tasks == s.tasks)
      && (!pc.Unlink? && !pc.Running? ==> forall t :: HoldsTask(s'.workers[w], t) == HoldsTask(pc, t))
      && (pc.Running? ==> s'.workers[w].AtLock?)
  {
  }

  lemma AccountedWorker(s: State, w: nat, t: Task)
    requires Accounted(s, t) && WorkerEnabled(s, w) && WorkerOk(s, s.workers[w])
    ensures Accounted(ApplyWorker(s, w), t)
  {
    var s', pc := ApplyWorker(s, w), s.workers[w];
    WorkerEffect(s, w);
    HeldMoves(s.workers, w, s'.workers[w], t);
    assert Count(s'.finished, t) == Count(s.finished, t) + if pc.Running? && pc.task == t then 1 else 0;
    assert Count(s.tasks, t) == Count(s'.tasks, t) + if pc.Unlink? && pc.task == t then 1 else 0;
  }

  lemma AccountedPusher(s: State, p: nat, woken: set<nat>, t: Task)
    requires Accounted(s, t) && PusherEnabled(s, p, woken)
    ensures Accounted(ApplyPusher(s, p, woken), t)
  {
    var s' := ApplyPusher(s, p, woken);
    CarriedMoves(s.pushers, p, s'.pushers[p], t);
    HeldSame(s.workers, s'.workers, t);
    match s.pushers[p]
    case Insert(u) =>
      assert Count(s'.tasks, t) == Count(s.tasks, t) + if u == t then 1 else 0;
      assert Count(s'.pushed, t) == Count(s.pushed, t) + if u == t then 1 else 0;
    case Lock(_) | Signal | Release =>
      assert Carried(s'.pushers, t) == Carried(s.pushers, t);
  }

  lemma AccountedDestroyer(s: State, t: Task)
    requires Accounted(s, t) && DestroyerEnabled(s)
    ensures Accounted(ApplyDestroyer(s), t)
  {
    HeldSame(s.workers, ApplyDestroyer(s).workers, t);
  }

  lemma ConservedPreserved(s: State, a: Action)
    requires Control(s) && Conserved(s) && Enabled(s, a)
    ensures Conserved(Apply(s, a))
  {
    forall t: Task
      ensures Accounted(Apply(s, a), t)
    {
      assert Accounted(s, t);
      match a
      case WorkerStep(w) => AccountedWorker(s, w, t);
      case SpuriousWakeup(w) => HeldMoves(s.workers, w, Woken, t);
      case CallPush(p, u) => CarriedMoves(s.pushers, p, Lock(u), t);
      case PusherStep(p, woken) => AccountedPusher(s, p, woken, t);
      case CallDestroy =>
      case DestroyerStep => AccountedDestroyer(s, t);
    }
  }

  /** Inserting a task never seen before at the head keeps the order. */
  lemma LatestFirstInsert(pushed: seq<Task>, tasks: seq<Task>, t: Task)
    requires LatestFirst(pushed, tasks)
    requires t !in pushed && forall u :: u in tasks ==> u in pushed
    ensures LatestFirst(pushed + [t], [t] + tasks)
  {
    assert (pushed + [t])[..|pushed|] == pushed;
    forall u | u in tasks
      ensures Position(pushed + [t], u) == Position(pushed, u) < |pushed|
    {
      PositionBound(pushed, u);
    }
  }

  lemma QueuedWasPushed(s: State)
    requires Conserved(s)
    ensures forall u :: u in s.tasks ==> u in s.pushed
  {
    forall u | u in s.tasks
      ensures u in s.pushed
    {
      assert Accounted(s, u);
      assert u in multiset(s.tasks);
    }
  }

  /** An action leaves the list alone, pops its head, pushes one task, or clears it. */
  lemma ListActions(s: State, a: Action)
    requires Enabled(s, a)
    ensures var s' := Apply(s, a);
      || (s'.pushed == s.pushed
          && (s'.tasks == s.tasks || s'.tasks == [] || (s.tasks != [] && s'.tasks == s.tasks[1..])))
      || (a.PusherStep? && s.pushers[a.p].Insert? && s'.tasks == [s.pushers[a.p].task] + s.tasks
          && s'.pushed == s.pushed + [s.pushers[a.p].task])
  {
  }

  lemma LatestFirstPreserved(s: State, a: Action)
    requires Conserved(s) && LatestFirst(s.pushed, s.tasks) && Enabled(s, a)
    ensures LatestFirst(Apply(s, a).pushed, Apply(s, a).tasks)
  {
    ListActions(s, a);
    var s' := Apply(s, a);
    if s'.pushed != s.pushed {
      InsertedIsFresh(s, a.p);
      QueuedWasPushed(s);
      LatestFirstInsert(s.pushed, s.tasks, s.pushers[a.p].task);
    }
  }

  lemma {:induction false} PositionBound(ts: seq<Task>, t: Task)
    ensures -1 <= Position(ts, t) < |ts|
    ensures Position(ts, t) >= 0 ==> ts[Position(ts, t)] == t
  {
    if ts != [] {
      PositionBound(ts[..|ts| - 1], t);
    }
  }

  /** A task about to be inserted was never inserted before. */
  lemma InsertedIsFresh(s: State, p: nat)
    requires Conserved(s) && p < |s.pushers| && s.pushers[p].Insert?
    ensures s.pushers[p].task !in s.pushed
  {
    var t := s.pushers[p].task;
    assert Accounted(s, t);
    SumHas(s.pushers, p, (pc: PusherPc) => CarriesTask(pc, t));
  }

  lemma InitInv(threadNum: int, m: nat)
    ensures Inv(Init(threadNum, m))
  {
    var s := Init(threadNum, m);
    forall t: Task
      ensures Accounted(s, t)
    {
      SumZero(s.workers, (pc: WorkerPc) => HoldsTask(pc, t));
      SumZero(s.pushers, (pc: PusherPc) => CarriesTask(pc, t));
    }
  }

  lemma StepInv(s: State, a: Action)
    requires Inv(s) && Enabled(s, a)
    ensures Inv(Apply(s, a))
  {
    LatestFirstPreserved(s, a);
    if a.WorkerStep? {
      ControlWorker(s, a.w);
      WorkConservingWorker(s, a.w);
    } else {
      ControlOther(s, a);
      WorkConservingOther(s, a);
    }
    ConservedPreserved(s, a);
  }

  lemma {:induction false} RunInv(s: State, acts: seq<Action>, s': State)
    requires Inv(s) && IsRun(s, acts, s')
    ensures Inv(s')
    decreases |acts|
  {
    if acts != [] {
      StepInv(s, acts[0]);
      RunInv(Apply(s, acts[0]), acts[1..], s');
    }
  }
}
