/**
 The pool as an object whose task list is the intrusive list on the heap.  Each method is one
 action of one thread; together they refine the transition system of module ThreadPool.
 */
module ThreadPoolObject {
  import opened Sums
  import opened TaskList
  import opened ThreadPool

  class Pool {
    const list: List                      // threadPool->task
    var terminate: bool                   // threadPool->terminate
    var owner: Owner                      // threadPool->mutex
    var workers: seq<WorkerPc>            // where each worker thread is
    var pushers: seq<PusherPc>            // where each client thread is
    var destroyer: DestroyerPc
    var taken: map<nat, TaskNode>         // local variable `task` of each worker
    var given: map<nat, TaskNode>         // argument `task` of each running push
    ghost var registry: map<nat, TaskNode>
    ghost var pushed: seq<nat>
    ghost var finished: seq<nat>
    ghost var lost: seq<nat>

    /** The state of the protocol this object is in. */
    ghost function Abs(): State
      reads this, list
    {
      State(workers, pushers, destroyer, owner, list.Ids(), terminate, registry.Keys, pushed, finished, lost)
    }

    /**
     The list is well linked, ids name nodes, a pending push owns a node that is unlinked and
     registered under its id, and a worker about to unlink holds the node of that id.
     */
    ghost predicate Valid()
      reads this, list, list.nodes, given.Values
    {
      && list.Valid()
      && (forall id :: id in registry ==> registry[id].data == id)
      && (forall n :: n in list.nodes ==> n.data in registry && registry[n.data] == n)
      && (forall p: nat :: p < |pushers| && (pushers[p].Lock? || pushers[p].Insert?) ==>
            && p in given && pushers[p].task in registry && given[p] == registry[pushers[p].task]
            && given[p].prev == null && given[p] !in list.nodes)
      && (forall w: nat :: w < |workers| && workers[w].Unlink? ==>
            w in taken && workers[w].task in registry && taken[w] == registry[workers[w].task])
    }

    /** createThreadPoll, with `m` client threads that will use the pool. */
    constructor (threadNum: int, m: nat)
      ensures Valid() && Abs() == Init(threadNum, m)
      ensures |workers| == (if threadNum < 1 then 1 else threadNum) && |pushers| == m
      ensures forall w :: 0 <= w < |workers| ==> workers[w] == AtLock
      ensures forall p :: 0 <= p < |pushers| ==> pushers[p] == Ready
      ensures list.head == null && !terminate && owner == Free && destroyer == Idle
    {
      list := new List();
      workers := seq(if threadNum < 1 then 1 else threadNum, _ => AtLock);
      pushers := seq(m, _ => Ready);
      destroyer, owner, terminate := Idle, Free, false;
      taken, given, registry := map[], map[], map[];
      pushed, finished, lost := [], [], [];
    }

    /** Worker `w` goes to `pc`, leaving the mutex with `o`. */
    method MoveTo(w: nat, pc: WorkerPc, o: Owner)
      requires Valid() && w < |workers|
      requires pc.Unlink? ==> w in taken && pc.task in registry && taken[w] == registry[pc.task]
      modifies this`workers, this`owner
      ensures Valid() && Abs() == MoveWorker(old(Abs()), w, pc).(owner := o)
    {
      workers := workers[w := pc];
      owner := o;
    }

    /** One step of `threadCallback` in worker `w`. */
    method WorkerStep(w: nat)
      requires Valid() && Control(Abs()) && WorkerEnabled(Abs(), w)
      modifies this, list, list.nodes
      ensures Valid() && Abs() == ApplyWorker(old(Abs()), w)
    {
      assert WorkerOk(Abs(), workers[w]);
      assert (list.head == null) == (list.Ids() == []);
      match workers[w]
      case AtLock | Woken => MoveTo(w, LoopTest, HeldByWorker(w));
      case LoopTest => MoveTo(w, if list.head == null then TermTest else TermTest2, owner);
      case TermTest => MoveTo(w, if terminate then TermTest2 else Commit, owner);
      case Commit => MoveTo(w, Asleep, Free);
      case TermTest2 => MoveTo(w, if terminate then ExitUnlock else Read, owner);
      case ExitUnlock => MoveTo(w, Exited, Free);
      case Read => ReadHead(w);
      case Unlink(t) => TakeHead(w, t);
      case Unlock(t) => MoveTo(w, Running(t), Free);
      case Running(t) => Complete(w, t);
    }

    /** Line 82. */
    method ReadHead(w: nat)
      requires Valid() && w < |workers| && list.head != null
      modifies this
      ensures Valid() && Abs() == MoveWorker(old(Abs()), w, Unlink(old(list.Ids())[0]))
    {
      taken := taken[w := list.head];
      assert list.head in list.nodes;
      workers := workers[w := Unlink(list.head.data)];
    }

    /** Line 87. */
    method Complete(w: nat, t: nat)
      requires Valid() && w < |workers|
      modifies this
      ensures Valid() && Abs() == MoveWorker(old(Abs()), w, AtLock).(finished := old(finished) + [t])
    {
      workers := workers[w := AtLock];
      finished := finished + [t];
    }

    /** DELETE_LIST(task, threadPool->task) with the worker's local pointer. */
    method TakeHead(w: nat, t: nat)
      requires Valid() && w < |workers| && workers[w] == Unlink(t)
      requires list.Ids() != [] && list.Ids()[0] == t
      modifies this, list, list.nodes
      ensures Valid() && Abs() == old(Abs()).(workers := old(workers)[w := Unlock(t)], tasks := old(list.Ids())[1..])
    {
      assert list.nodes[0].data == t;
      list.Delete(taken[w], 0);
      workers := workers[w := Unlock(t)];
      assert list.Ids() == old(list.Ids())[1..];
    }

    method SpuriousWakeup(w: nat)
      requires Valid() && IsAsleep(Abs(), w)
      modifies this
      ensures Valid() && Abs() == MoveWorker(old(Abs()), w, Woken)
    {
      workers := workers[w := Woken];
    }

    /** A client thread calls `pushTaskThreadPool` with a task nobody has passed before. */
    method CallPush(p: nat, task: TaskNode)
      requires Valid() && CallEnabled(Abs(), p, task.data)
      requires task.prev == null && task !in registry.Values && task !in list.nodes
      modifies this
      ensures Valid() && Abs() == Apply(old(Abs()), Action.CallPush(p, task.data))
    {
      given := given[p := task];
      registry := registry[task.data := task];
      pushers := pushers[p := Lock(task.data)];
      assert registry.Keys == old(registry.Keys) + {task.data};
    }

    /** One step of `pushTaskThreadPool` in client `p`. */
    method PusherStep(p: nat, woken: set<nat>)
      requires Valid() && Conserved(Abs()) && PusherEnabled(Abs(), p, woken)
      modifies this, list, list.nodes, given.Values
      ensures Valid() && Abs() == ApplyPusher(old(Abs()), p, woken)
    {
      match pushers[p]
      case Lock(t) =>
        pushers := pushers[p := Insert(t)];
        owner := HeldByPusher(p);
      case Insert(t) =>
        InsertGiven(p, t);
      case Signal =>
        workers := Wake(workers, woken);
        pushers := pushers[p := Release];
      case Release =>
        pushers := pushers[p := Ready];
        owner := Free;
    }

    /** INSERT_LIST(task, threadPool->task) with the argument of the push. */
    method InsertGiven(p: nat, t: nat)
      requires Valid() && Conserved(Abs()) && p < |pushers| && pushers[p] == Insert(t)
      modifies this, list, list.nodes, given.Values
      ensures Valid()
      ensures Abs() == old(Abs()).(pushers := old(pushers)[p := Signal], tasks := [t] + old(list.Ids()),
                                   pushed := old(pushed) + [t])
    {
      forall q: nat | q < |pushers| && q != p && (pushers[q].Lock? || pushers[q].Insert?)
        ensures q in given && given[q] != given[p]
      {
        CarriedOnce(Abs(), p, q);
      }
      list.Insert(given[p]);
      pushers := pushers[p := Signal];
      pushed := pushed + [t];
      assert list.Ids() == [t] + old(list.Ids());
    }

    /** Line 136: the flag is written without the lock. */
    method CallDestroy()
      requires Valid() && DestroyCallEnabled(Abs())
      modifies this
      ensures Valid() && Abs() == Apply(old(Abs()), Action.CallDestroy)
    {
      terminate := true;
      destroyer := LockD;
    }

    /** One further step of `destroyThreadPool`. */
    method DestroyerStep()
      requires Valid() && DestroyerEnabled(Abs())
      modifies this, list
      ensures Valid() && Abs() == ApplyDestroyer(old(Abs()))
    {
      match destroyer
      case LockD =>
        destroyer := Broadcast;
        owner := HeldByDestroyer;
      case Broadcast =>
        workers := WakeAll(workers);
        destroyer := ReleaseD;
      case ReleaseD =>
        destroyer := ClearTasks;
        owner := Free;
      case ClearTasks =>
        lost := lost + list.Ids();
        list.Clear();
        destroyer := Done;
    }
  }

  /** No two pushes carry the same task. */
  lemma CarriedOnce(s: State, p: nat, q: nat)
    requires Conserved(s) && p < |s.pushers| && q < |s.pushers| && p != q
    requires (s.pushers[p].Lock? || s.pushers[p].Insert?) && (s.pushers[q].Lock? || s.pushers[q].Insert?)
    ensures s.pushers[p].task != s.pushers[q].task
  {
    var t := s.pushers[p].task;
    if t == s.pushers[q].task {
      assert Accounted(s, t);
      CarriedMoves(s.pushers, p, Ready, t);
      SumHas(s.pushers[p := Ready], q, (pc: PusherPc) => CarriesTask(pc, t));
    }
  }
}
