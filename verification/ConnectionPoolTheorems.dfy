/** What the connection pool guarantees over every run, and exactly where it does not. */
module ConnectionPoolTheorems {
  import opened Sums
  import opened ConnectionPool

  /** `s` is reachable by a run from a state that `run()` sets up for `m` client threads. */
  ghost predicate Reaches(c: Config, m: nat, s0: State, acts: seq<Action>, s: State) {
    Init(c, m, s0) && IsRun(c, s0, acts, s)
  }

  lemma ReachableInv(c: Config, m: nat, s0: State, acts: seq<Action>, s: State)
    requires Reaches(c, m, s0, acts, s)
    ensures Inv(c, s)
  {
    InitInv(c, m, s0);
    RunInv(c, s0, acts, s);
  }

  /** What `run()` leaves: `initSize` connections in creation order, and nobody inside the pool. */
  lemma NewPool(c: Config, m: nat, s: State)
    requires Init(c, m, s)
    ensures |s.queue| == s.count == s.nextId == if c.initSize < 0 then 0 else c.initSize
    ensures forall i :: 0 <= i < |s.queue| ==> s.queue[i].id == i && s.queue[i].since <= s.now
    ensures |s.borrowers| == m && forall b :: 0 <= b < m ==> s.borrowers[b] == Outside
    ensures !s.producerAsleep && s.deleted == {} && !s.fault
  {
  }

  // ------------------------------------------------------------------ what one step does

  /** `s'` is `s` with borrower `b` at `pc`. */
  predicate OnlyMoved(s: State, s': State, b: nat, pc: BorrowerPc)
    requires b < |s.borrowers|
  {
    s' == s.(borrowers := s'.borrowers) && |s'.borrowers| == |s.borrowers|
    && forall a: nat :: a < |s.borrowers| ==> s'.borrowers[a] == if a == b then pc else s.borrowers[a]
  }

  /** Everybody asleep is awake, without a timeout; the others are as they were. */
  predicate AllNotified(before: seq<BorrowerPc>, after: seq<BorrowerPc>) {
    && |before| == |after|
    && forall b: nat :: b < |before| ==> after[b] == if before[b].Asleep? then Awake(false) else before[b]
  }

  /**
   A borrower looks at the queue: it gets the front connection and everybody is notified, or it gives
   up because its last wait timed out, or it waits; each exactly when it should.
   */
  lemma TakeExactly(c: Config, s: State, b: nat)
    requires Enabled(c, s, TryTake(b))
    ensures b < |s.borrowers| && s.borrowers[b].Awake?
    ensures var s' := Apply(c, s, TryTake(b));
      && |s'.borrowers| == |s.borrowers|
      && (s'.borrowers[b].Holding? <==> s.queue != [])
      && (s'.borrowers[b].Outside? <==> s.queue == [] && s.borrowers[b].timedOut)
      && (s'.borrowers[b].Asleep? <==> s.queue == [] && !s.borrowers[b].timedOut)
      && (s.queue == [] ==> OnlyMoved(s, s', b, s'.borrowers[b]))
      && (s.queue != [] ==>
            && s'.borrowers[b] == Holding(s.queue[0]) && s'.queue == s.queue[1..] && !s'.producerAsleep
            && AllNotified(s.borrowers[b := Holding(s.queue[0])], s'.borrowers)
            && s' == s.(queue := s'.queue, borrowers := s'.borrowers, producerAsleep := false))
  {
  }

  /** The other borrower actions: entering, waking with or without a timeout, and returning a connection. */
  lemma BorrowerStepsExactly(c: Config, s: State, b: nat, timedOut: bool)
    ensures Enabled(c, s, CallGet(b)) <==> !s.fault && b < |s.borrowers| && s.borrowers[b].Outside?
    ensures Enabled(c, s, CallGet(b)) ==> OnlyMoved(s, Apply(c, s, CallGet(b)), b, Awake(false))
    ensures Enabled(c, s, WakeBorrower(b, timedOut)) <==> !s.fault && b < |s.borrowers| && s.borrowers[b].Asleep?
    ensures Enabled(c, s, WakeBorrower(b, timedOut)) ==>
      OnlyMoved(s, Apply(c, s, WakeBorrower(b, timedOut)), b, Awake(timedOut))
    ensures Enabled(c, s, GiveBack(b)) <==> !s.fault && b < |s.borrowers| && s.borrowers[b].Holding?
    ensures Enabled(c, s, GiveBack(b)) ==>
      var s' := Apply(c, s, GiveBack(b));
      && OnlyMoved(s, s'.(queue := s.queue), b, Outside)
      && s'.queue == s.queue + [Conn(s.borrowers[b].c.id, s.now)]
  {
  }

  /**
   The producer, on an empty queue: it creates exactly one connection, stamped now, if and only if the
   count is below `maxSize`, and then wakes everybody; otherwise nothing changes.  On a queue that is
   not empty it falls asleep.
   */
  lemma ProduceExactly(c: Config, s: State)
    requires !s.fault && !s.producerAsleep
    ensures Enabled(c, s, Produce)
    ensures var s' := Apply(c, s, Produce);
      && (s.queue == [] ==> (s'.queue != [] <==> s.count < c.maxSize))
      && (s.queue == [] && s.count < c.maxSize ==>
            && s'.queue == [Conn(s.nextId, s.now)] && s'.count == s.count + 1 && s'.nextId == s.nextId + 1
            && AllNotified(s.borrowers, s'.borrowers)
            && s' == s.(queue := s'.queue, count := s'.count, nextId := s'.nextId, borrowers := s'.borrowers))
      && (s.queue == [] && s.count >= c.maxSize ==> s' == s)
      && (s.queue != [] ==> s' == s.(producerAsleep := true))
  {
  }

  /** Everything else that can happen, and when: looking, time passing, the producer waking, a pass of the scanner. */
  lemma OtherStepsExactly(c: Config, s: State, b: nat, t: int, clocks: seq<int>)
    ensures Enabled(c, s, TryTake(b)) <==> !s.fault && b < |s.borrowers| && s.borrowers[b].Awake?
    ensures Enabled(c, s, Tick(t)) <==> !s.fault && s.now <= t
    ensures Enabled(c, s, Tick(t)) ==> Apply(c, s, Tick(t)) == s.(now := t)
    ensures Enabled(c, s, WakeProducer) <==> !s.fault && s.producerAsleep
    ensures Enabled(c, s, WakeProducer) ==> Apply(c, s, WakeProducer) == s.(producerAsleep := false)
    ensures Enabled(c, s, ScanIdle(clocks)) <==>
      && !s.fault && |clocks| == |s.queue|
      && (forall k :: 0 <= k < |clocks| ==> s.now <= clocks[k])
      && forall i, j :: 0 <= i < j < |clocks| ==> clocks[i] <= clocks[j]
  {
  }

  /** The id of the new connection is one that no connection ever had. */
  lemma NewIdIsFresh(c: Config, m: nat, s0: State, acts: seq<Action>, s: State, i: nat, b: nat)
    requires Reaches(c, m, s0, acts, s)
    ensures s.nextId !in s.deleted
    ensures i < |s.queue| ==> s.queue[i].id != s.nextId
    ensures b < |s.borrowers| && s.borrowers[b].Holding? ==> s.borrowers[b].c.id != s.nextId
  {
    ReachableInv(c, m, s0, acts, s);
    assert Accounted(s, s.nextId);
    QueuedIdIn(s.queue, s.nextId);
    if b < |s.borrowers| && s.borrowers[b].Holding? && s.borrowers[b].c.id == s.nextId {
      SumHas(s.borrowers, b, (pc: BorrowerPc) => LendsId(pc, s.nextId));
    }
  }

  /**
   The pool grows: from every reachable state with an empty queue, an awake producer and a count below
   `maxSize`, one step of the producer leaves a connection that any borrower inside the pool can take,
   even one that was asleep.
   */
  lemma PoolGrows(c: Config, m: nat, s0: State, acts: seq<Action>, s: State, b: nat)
    requires Reaches(c, m, s0, acts, s) && !s.fault && s.queue == [] && !s.producerAsleep && s.count < c.maxSize
    requires b < |s.borrowers| && (s.borrowers[b].Awake? || s.borrowers[b].Asleep?)
    ensures Enabled(c, s, Produce)
    ensures var grown := Apply(c, s, Produce);
      && grown.count == s.count + 1 && Enabled(c, grown, TryTake(b))
      && Apply(c, grown, TryTake(b)).borrowers[b] == Holding(Conn(s.nextId, s.now))
  {
    ProduceExactly(c, s);
    TakeExactly(c, Apply(c, s, Produce), b);
  }

  /** A borrower that waits on an empty queue gives up once its wait times out and it still finds nothing. */
  lemma TimeoutGivesUp(c: Config, s: State, b: nat)
    requires !s.fault && s.queue == [] && b < |s.borrowers| && s.borrowers[b].Asleep?
    ensures Enabled(c, s, WakeBorrower(b, true))
    ensures var woken := Apply(c, s, WakeBorrower(b, true));
      Enabled(c, woken, TryTake(b)) && OnlyMoved(s, Apply(c, woken, TryTake(b)), b, Outside)
  {
    BorrowerStepsExactly(c, s, b, true);
    TakeExactly(c, Apply(c, s, WakeBorrower(b, true)), b);
  }

  // ------------------------------------------------------------------ conservation and bounds

  lemma {:induction false} QueuedTwice(q: seq<Conn>, i: nat, j: nat)
    requires i < j < |q| && q[i].id == q[j].id
    ensures QueuedId(q, q[i].id) >= 2
  {
    var id := q[i].id;
    assert q == q[..j] + q[j..];
    assert q[..j][i].id == id && q[j..][0].id == id;
    QueuedIdAppend(q[..j], q[j..], id);
    QueuedIdIn(q[..j], id);
    QueuedIdIn(q[j..], id);
  }

  /** A live connection is in exactly one place, and the counter is the number of live connections. */
  lemma PoolConservation(c: Config, m: nat, s0: State, acts: seq<Action>, s: State,
                         id: nat, i: nat, j: nat, a: nat, b: nat)
    requires Reaches(c, m, s0, acts, s)
    ensures s.count == |s.queue| + Lent(s.borrowers)
    ensures id < s.nextId && id !in s.deleted ==> QueuedId(s.queue, id) + LentId(s.borrowers, id) == 1
    ensures id in s.deleted ==> QueuedId(s.queue, id) == LentId(s.borrowers, id) == 0
    ensures i < j < |s.queue| ==> s.queue[i].id != s.queue[j].id
    ensures i < |s.queue| && a < |s.borrowers| && s.borrowers[a].Holding? ==> s.queue[i].id != s.borrowers[a].c.id
    ensures a < |s.borrowers| && b < |s.borrowers| && a != b && s.borrowers[a].Holding? && s.borrowers[b].Holding? ==>
      s.borrowers[a].c.id != s.borrowers[b].c.id
  {
    ReachableInv(c, m, s0, acts, s);
    assert Accounted(s, id);
    if i < j < |s.queue| && s.queue[i].id == s.queue[j].id {
      assert Accounted(s, s.queue[i].id);
      QueuedTwice(s.queue, i, j);
    }
    if a < |s.borrowers| && s.borrowers[a].Holding? {
      var held := s.borrowers[a].c.id;
      assert Accounted(s, held);
      LentIdMoves(s.borrowers, a, Outside, held);
      QueuedIdIn(s.queue, held);
      if b < |s.borrowers| && a != b && s.borrowers[b].Holding? && s.borrowers[b].c.id == held {
        SumHas(s.borrowers[a := Outside], b, (pc: BorrowerPc) => LendsId(pc, held));
      }
    }
  }

  /** The pool never shrinks below its initial size and never grows beyond the larger of both limits. */
  lemma PoolBounds(c: Config, m: nat, s0: State, acts: seq<Action>, s: State)
    requires Reaches(c, m, s0, acts, s)
    ensures 0 <= s.count && c.initSize <= s.count
    ensures s.count <= 0 || s.count <= c.initSize || s.count <= c.maxSize
  {
    ReachableInv(c, m, s0, acts, s);
  }

  // ------------------------------------------------------------------ the idle scanner

  /** In every reachable state the idle queue is ordered, so a pass that does not fault is sound. */
  lemma ScannerIsSound(c: Config, m: nat, s0: State, acts: seq<Action>, s: State, clocks: seq<int>)
    requires Reaches(c, m, s0, acts, s) && Enabled(c, s, ScanIdle(clocks))
    ensures SortedByStamp(s.queue)
    ensures var n, s' := |s.queue| - |ApplyScan(c, s, clocks).queue|, ApplyScan(c, s, clocks);
      && 0 <= n && s'.queue == s.queue[n..] && s'.count == s.count - n && s'.borrowers == s.borrowers
      && (forall k :: 0 <= k < n ==> clocks[k] - s.queue[k].since > c.maxIdleTime)
      && (s'.fault || s'.count <= c.initSize ||
          (n < |s.queue| && forall x :: x in s'.queue ==> clocks[n] - x.since <= c.maxIdleTime))
    ensures var n, s' := |s.queue| - |ApplyScan(c, s, clocks).queue|, ApplyScan(c, s, clocks);
      && (forall id: nat :: id in s'.deleted <==> id in s.deleted || exists k :: 0 <= k < n && s.queue[k].id == id)
      && s'.now == (if clocks == [] then s.now else clocks[|clocks| - 1])
      && s'.producerAsleep == s.producerAsleep && s'.nextId == s.nextId
  {
    ReachableInv(c, m, s0, acts, s);
    PassIsSound(c, s, clocks);
    PassLeaves(c, s, clocks);
  }

  /** What else a pass leaves: the ids it deleted, and the clock it looked at last. */
  lemma PassLeaves(c: Config, s: State, clocks: seq<int>)
    requires |clocks| == |s.queue|
    ensures var n, s' := |s.queue| - |ApplyScan(c, s, clocks).queue|, ApplyScan(c, s, clocks);
      && 0 <= n
      && (forall id: nat :: id in s'.deleted <==> id in s.deleted || exists k :: 0 <= k < n && s.queue[k].id == id)
      && s'.now == (if clocks == [] then s.now else clocks[|clocks| - 1])
      && s'.producerAsleep == s.producerAsleep && s'.nextId == s.nextId
  {
    ScanWithin(s.queue, clocks, s.count - c.initSize, c.maxIdleTime);
    var o := Scan(s.queue, clocks, s.count - c.initSize, c.maxIdleTime);
    assert |s.queue[o.deleted..]| == |s.queue| - o.deleted;
    IdsOfPrefix(s.queue, o.deleted);
  }

  lemma IdsOfPrefix(q: seq<Conn>, n: nat)
    requires n <= |q|
    ensures forall id: nat :: id in Ids(q[..n]) <==> exists k :: 0 <= k < n && q[k].id == id
  {
    forall id: nat
      ensures id in Ids(q[..n]) <==> exists k :: 0 <= k < n && q[k].id == id
    {
      if k :| 0 <= k < n && q[k].id == id {
        assert q[..n][k].id == id;
      }
    }
  }

  lemma PassIsSound(c: Config, s: State, clocks: seq<int>)
    requires |clocks| == |s.queue| && SortedByStamp(s.queue)
    ensures var n, s' := |s.queue| - |ApplyScan(c, s, clocks).queue|, ApplyScan(c, s, clocks);
      && 0 <= n && s'.queue == s.queue[n..] && s'.count == s.count - n && s'.borrowers == s.borrowers
      && (forall k :: 0 <= k < n ==> Expired(s.queue[k], clocks[k], c.maxIdleTime))
      && (s'.fault || s'.count <= c.initSize ||
          (n < |s.queue| && forall x :: x in s'.queue ==> !Expired(x, clocks[n], c.maxIdleTime)))
  {
    var o := Scan(s.queue, clocks, s.count - c.initSize, c.maxIdleTime);
    ScanDeletes(s.queue, clocks, s.count - c.initSize, c.maxIdleTime);
    EarlyBreakIsSound(s.queue, clocks, s.count - c.initSize, c.maxIdleTime);
    assert |s.queue[o.deleted..]| == |s.queue| - o.deleted;
  }

  /** Exactly when the scanner calls `front()` on an empty queue. */
  lemma ScannerFaultsExactlyWhen(c: Config, m: nat, s0: State, acts: seq<Action>, s: State, clocks: seq<int>)
    requires Reaches(c, m, s0, acts, s) && Enabled(c, s, ScanIdle(clocks))
    ensures ApplyScan(c, s, clocks).fault <==>
      && Lent(s.borrowers) > c.initSize
      && forall k :: 0 <= k < |s.queue| ==> clocks[k] - s.queue[k].since > c.maxIdleTime
  {
    ReachableInv(c, m, s0, acts, s);
    ScanFaults(s.queue, clocks, s.count - c.initSize, c.maxIdleTime);
  }

  // ------------------------------------------------------------------ the producer's wakeup

  /** The producer sleeps although the queue is empty. */
  predicate Stuck(s: State) {
    s.producerAsleep && s.queue == []
  }

  /**
   Exactly which actions end that: the return of a lent connection, or a wakeup of the producer that
   no notification caused.  No borrower, no pass of the scanner and no passing of time does.
   */
  lemma StuckEndsExactlyWhen(c: Config, s: State, a: Action)
    requires Enabled(c, s, a) && Stuck(s)
    ensures !Stuck(Apply(c, s, a)) <==> a.GiveBack? || a.WakeProducer?
  {
    if a.ScanIdle? {
      ScanDeletes(s.queue, a.clocks, s.count - c.initSize, c.maxIdleTime);
    }
  }

  /**
   Exactly which action leaves the producer asleep on an empty queue: a pass of the scanner that
   starts with at least `initSize` connections lent out and finds every queued one expired.
   */
  lemma WakeupLostExactlyWhen(c: Config, m: nat, s0: State, acts: seq<Action>, s: State, a: Action)
    requires Reaches(c, m, s0, acts, s) && Enabled(c, s, a) && !Stuck(s)
    ensures Stuck(Apply(c, s, a)) <==>
      && a.ScanIdle? && s.producerAsleep
      && Lent(s.borrowers) >= c.initSize
      && forall k :: 0 <= k < |s.queue| ==> a.clocks[k] - s.queue[k].since > c.maxIdleTime
  {
    ReachableInv(c, m, s0, acts, s);
    if a.ScanIdle? {
      ScanEmpties(s.queue, a.clocks, s.count - c.initSize, c.maxIdleTime);
      ScanDeletes(s.queue, a.clocks, s.count - c.initSize, c.maxIdleTime);
      var n := Scan(s.queue, a.clocks, s.count - c.initSize, c.maxIdleTime).deleted;
      assert ApplyScan(c, s, a.clocks).queue == s.queue[n..];
      assert |s.queue[n..]| == |s.queue| - n;
    }
  }

  /** Every pass of the scanner in the run starts with fewer than `initSize` connections lent out. */
  predicate ScansLightlyLoaded(c: Config, s: State, acts: seq<Action>, s': State)
    requires IsRun(c, s, acts, s')
    decreases |acts|
  {
    acts != [] ==>
      && (acts[0].ScanIdle? ==> Lent(s.borrowers) < c.initSize)
      && ScansLightlyLoaded(c, Apply(c, s, acts[0]), acts[1..], s')
  }

  lemma {:induction false} WakeupKept(c: Config, s: State, acts: seq<Action>, s': State)
    requires Inv(c, s) && !Stuck(s) && IsRun(c, s, acts, s') && ScansLightlyLoaded(c, s, acts, s')
    ensures !Stuck(s')
    decreases |acts|
  {
    if acts != [] {
      var a := acts[0];
      StepInv(c, s, a);
      if a.ScanIdle? {
        ScanEmpties(s.queue, a.clocks, s.count - c.initSize, c.maxIdleTime);
      }
      WakeupKept(c, Apply(c, s, a), acts[1..], s');
    }
  }

  /** Over such runs, whenever the mutex is free and the queue is empty the producer is not asleep. */
  lemma ProducerIsAwake(c: Config, m: nat, s0: State, acts: seq<Action>, s: State)
    requires Reaches(c, m, s0, acts, s) && ScansLightlyLoaded(c, s0, acts, s)
    ensures s.queue == [] ==> !s.producerAsleep
  {
    InitInv(c, m, s0);
    WakeupKept(c, s0, acts, s);
  }

  // ------------------------------------------------------------------ the borrowers' wakeup

  predicate SomeWaiter(s: State) {
    exists b: nat :: b < |s.borrowers| && s.borrowers[b].Asleep?
  }

  /** A borrower sleeps although a connection is queued. */
  predicate Overlooked(s: State) {
    s.queue != [] && SomeWaiter(s)
  }

  lemma NobodyWaits(bs: seq<BorrowerPc>)
    ensures forall b: nat :: b < |bs| ==> !NotifyAll(bs)[b].Asleep?
  {
  }

  /**
   Exactly which action leaves a borrower asleep beside a queued connection: the return of a
   connection while some borrower waits, because the deleter notifies nobody.
   */
  lemma BorrowerOverlookedExactlyWhen(c: Config, s: State, a: Action)
    requires Enabled(c, s, a) && !Overlooked(s)
    ensures Overlooked(Apply(c, s, a)) <==> a.GiveBack? && SomeWaiter(s)
  {
    match a
    case Tick(t) =>
    case CallGet(b) => OthersWait(s, b, Awake(false));
    case TryTake(b) =>
      if s.queue != [] {
        NobodyWaits(s.borrowers[b := Holding(s.queue[0])]);
      }
    case WakeBorrower(b, timedOut) => OthersWait(s, b, Awake(timedOut));
    case GiveBack(b) => OthersWait(s, b, Outside);
    case WakeProducer =>
    case Produce => NobodyWaits(s.borrowers);
    case ScanIdle(clocks) => ScanDeletes(s.queue, clocks, s.count - c.initSize, c.maxIdleTime);
  }

  /** Moving one borrower that does not fall asleep adds no waiter, and keeps the others. */
  lemma OthersWait(s: State, b: nat, pc: BorrowerPc)
    requires b < |s.borrowers| && !pc.Asleep?
    ensures SomeWaiter(Move(s, b, pc)) ==> SomeWaiter(s)
    ensures SomeWaiter(s) && !s.borrowers[b].Asleep? ==> SomeWaiter(Move(s, b, pc))
  {
    if a: nat :| a < |s.borrowers| && Move(s, b, pc).borrowers[a].Asleep? {
      assert s.borrowers[a].Asleep?;
    }
    if a: nat :| a < |s.borrowers| && s.borrowers[a].Asleep? && !s.borrowers[b].Asleep? {
      assert Move(s, b, pc).borrowers[a].Asleep?;
    }
  }

  /** Nobody waits whenever a connection is returned in the run. */
  predicate ReturnsUnawaited(c: Config, s: State, acts: seq<Action>, s': State)
    requires IsRun(c, s, acts, s')
    decreases |acts|
  {
    acts != [] ==>
      && (acts[0].GiveBack? ==> !SomeWaiter(s))
      && ReturnsUnawaited(c, Apply(c, s, acts[0]), acts[1..], s')
  }

  lemma {:induction false} NobodyOverlooked(c: Config, s: State, acts: seq<Action>, s': State)
    requires !Overlooked(s) && IsRun(c, s, acts, s') && ReturnsUnawaited(c, s, acts, s')
    ensures !Overlooked(s')
    decreases |acts|
  {
    if acts != [] {
      BorrowerOverlookedExactlyWhen(c, s, acts[0]);
      NobodyOverlooked(c, Apply(c, s, acts[0]), acts[1..], s');
    }
  }

  /** Over such runs, no borrower sleeps while a connection is queued. */
  lemma BorrowersAreServed(c: Config, m: nat, s0: State, acts: seq<Action>, s: State)
    requires Reaches(c, m, s0, acts, s) && ReturnsUnawaited(c, s0, acts, s)
    ensures s.queue != [] ==> !SomeWaiter(s)
  {
    NobodyOverlooked(c, s0, acts, s);
  }

  // ------------------------------------------------------------------ the failures, concretely

  const SMALL := Config(1, 2, 10)

  function SmallStart(): State {
    State([Conn(0, 0)], 1, [Outside, Outside], false, 0, 1, {}, false)
  }

  lemma RunSnoc(c: Config, s: State, acts: seq<Action>, s': State, a: Action)
    requires IsRun(c, s, acts, s') && Enabled(c, s', a)
    ensures IsRun(c, s, acts + [a], Apply(c, s', a))
    decreases |acts|
  {
    if acts == [] {
      assert acts + [a] == [a] && [a][1..] == [];
    } else {
      assert (acts + [a])[1..] == acts[1..] + [a];
      RunSnoc(c, Apply(c, s, acts[0]), acts[1..], s', a);
    }
  }

  /** After one loan and one refill. */
  function Refilled(): State {
    State([Conn(1, 0)], 2, [Holding(Conn(0, 0)), Outside], false, 0, 2, {}, false)
  }

  lemma LoanAndRefill() returns (acts: seq<Action>)
    ensures Reaches(SMALL, 2, SmallStart(), acts, Refilled())
  {
    var s0 := SmallStart();
    assert s0.borrowers == seq(2, _ => Outside);
    var s1 := Apply(SMALL, s0, CallGet(0));
    var s2 := Apply(SMALL, s1, TryTake(0));
    assert s2.queue == [] && s2.borrowers == [Holding(Conn(0, 0)), Outside];
    assert Apply(SMALL, s2, Produce) == Refilled() by {
      assert NotifyAll(s2.borrowers) == s2.borrowers;
    }
    acts := [CallGet(0)];
    RunSnoc(SMALL, s0, [], s0, CallGet(0));
    RunSnoc(SMALL, s0, acts, s1, TryTake(0));
    acts := acts + [TryTake(0)];
    RunSnoc(SMALL, s0, acts, s2, Produce);
    acts := acts + [Produce];
  }

  /**
   One connection is lent, the producer refills the queue and falls asleep, the refill expires and
   is scanned away: the queue is empty, the pool is below `maxSize`, and the producer sleeps.
   */
  lemma ProducerCanOversleep() returns (acts: seq<Action>, s: State)
    ensures Reaches(SMALL, 2, SmallStart(), acts, s)
    ensures Stuck(s) && s.count < SMALL.maxSize && Lent(s.borrowers) == SMALL.initSize
  {
    var before := LoanAndRefill();
    var s4 := Refilled().(producerAsleep := true);
    assert Apply(SMALL, Refilled(), Produce) == s4;
    RunSnoc(SMALL, SmallStart(), before, Refilled(), Produce);
    RunSnoc(SMALL, SmallStart(), before + [Produce], s4, ScanIdle([11]));
    acts, s := before + [Produce] + [ScanIdle([11])], ApplyScan(SMALL, s4, [11]);
    RefillScanned(s4);
  }

  lemma RefillScanned(s4: State)
    requires s4 == Refilled().(producerAsleep := true)
    ensures var s := ApplyScan(SMALL, s4, [11]);
      Stuck(s) && s.count == 1 && Lent(s.borrowers) == 1
  {
    assert Scan(s4.queue[1..], [11][1..], 0, 10) == Outcome(0, false);
    assert Scan(s4.queue, [11], 1, 10) == Outcome(1, false);
    assert s4.borrowers == [Outside, Outside][0 := Holding(Conn(0, 0))];
    LentMoves([Outside, Outside], 0, Holding(Conn(0, 0)));
    SumZero([Outside, Outside], Lends);
  }

  /** Two connections are lent from a pool of initial size one: the next pass faults at once. */
  lemma ScannerCanFault() returns (acts: seq<Action>, s: State)
    ensures Reaches(SMALL, 2, SmallStart(), acts, s)
    ensures s.fault
  {
    var before := LoanAndRefill();
    var s3 := Refilled();
    var s4 := Apply(SMALL, s3, CallGet(1));
    var s5 := Apply(SMALL, s4, TryTake(1));
    assert s5.queue == [];
    s := Apply(SMALL, s5, ScanIdle([]));
    RunSnoc(SMALL, SmallStart(), before, s3, CallGet(1));
    RunSnoc(SMALL, SmallStart(), before + [CallGet(1)], s4, TryTake(1));
    RunSnoc(SMALL, SmallStart(), before + [CallGet(1)] + [TryTake(1)], s5, ScanIdle([]));
    acts := before + [CallGet(1)] + [TryTake(1)] + [ScanIdle([])];
  }

  /** One borrower waits for the only connection, the other returns it: the waiter sleeps on. */
  lemma BorrowerCanBeOverlooked() returns (acts: seq<Action>, s: State)
    ensures Reaches(SMALL, 2, SmallStart(), acts, s)
    ensures Overlooked(s)
  {
    var s0 := SmallStart();
    assert s0.borrowers == seq(2, _ => Outside);
    var s1 := Apply(SMALL, s0, CallGet(0));
    var s2 := Apply(SMALL, s1, TryTake(0));
    assert s2.queue == [] && s2.borrowers == [Holding(Conn(0, 0)), Outside];
    var s3 := Apply(SMALL, s2, CallGet(1));
    var s4 := Apply(SMALL, s3, TryTake(1));
    assert s4.borrowers == [Holding(Conn(0, 0)), Asleep];
    s := Apply(SMALL, s4, GiveBack(0));
    RunSnoc(SMALL, s0, [], s0, CallGet(0));
    RunSnoc(SMALL, s0, [CallGet(0)], s1, TryTake(0));
    acts := [CallGet(0)] + [TryTake(0)];
    RunSnoc(SMALL, s0, acts, s2, CallGet(1));
    RunSnoc(SMALL, s0, acts + [CallGet(1)], s3, TryTake(1));
    acts := acts + [CallGet(1)] + [TryTake(1)];
    RunSnoc(SMALL, s0, acts, s4, GiveBack(0));
    acts := acts + [GiveBack(0)];
    assert s.queue == [Conn(0, 0)] && s.borrowers[1].Asleep?;
  }
}
