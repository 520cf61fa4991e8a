/**
 The connection pool as a transition system.  All shared data is touched only while the mutex is
 held, so one action is one locked region, from acquiring the mutex to releasing it or waiting.
 A state between two actions is therefore a state in which the mutex is free.
 */
module ConnectionPool {
  import opened Sums

  /** A connection, with the time its current idle period started. */
  datatype Conn = Conn(id: nat, since: int)

  /** The setters' values; they do not change after `run()`. */
  datatype Config = Config(initSize: int, maxSize: int, maxIdleTime: int)

  // ------------------------------------------------------------------ one pass of the idle scanner

  /** How many connections a pass deleted, and whether it called `front()` on an empty queue. */
  datatype Outcome = Outcome(deleted: nat, fault: bool)

  predicate Expired(c: Conn, now: int, maxIdle: int) {
    now - c.since > maxIdle
  }

  /** Lines 160-173: `clocks[k]` is what `clock()` returns when the k-th queued connection is at the front. */
  function Scan(queue: seq<Conn>, clocks: seq<int>, excess: int, maxIdle: int): Outcome
    requires |clocks| == |queue|
  {
    if excess <= 0 then Outcome(0, false)
    else if queue == [] then Outcome(0, true)
    else if Expired(queue[0], clocks[0], maxIdle) then
      var rest := Scan(queue[1..], clocks[1..], excess - 1, maxIdle);
      Outcome(rest.deleted + 1, rest.fault)
    else Outcome(0, false)
  }

  predicate AllExpired(queue: seq<Conn>, clocks: seq<int>, maxIdle: int)
    requires |clocks| == |queue|
  {
    forall k :: 0 <= k < |queue| ==> Expired(queue[k], clocks[k], maxIdle)
  }

  /** What a pass deletes: an expired prefix, never more than the excess, and it stops for a reason. */
  lemma {:induction false} ScanDeletes(queue: seq<Conn>, clocks: seq<int>, excess: int, maxIdle: int)
    requires |clocks| == |queue|
    ensures var o := Scan(queue, clocks, excess, maxIdle);
      && o.deleted <= |queue|
      && (o.deleted > 0 ==> o.deleted <= excess)
      && (forall k :: 0 <= k < o.deleted ==> Expired(queue[k], clocks[k], maxIdle))
      && (o.fault ==> o.deleted == |queue|)
      && (!o.fault && o.deleted < excess ==>
            o.deleted < |queue| && !Expired(queue[o.deleted], clocks[o.deleted], maxIdle))
  {
    if excess > 0 && queue != [] && Expired(queue[0], clocks[0], maxIdle) {
      ScanDeletes(queue[1..], clocks[1..], excess - 1, maxIdle);
      var o, rest := Scan(queue, clocks, excess, maxIdle), Scan(queue[1..], clocks[1..], excess - 1, maxIdle);
      forall k | 0 <= k < o.deleted
        ensures Expired(queue[k], clocks[k], maxIdle)
      {
        if k > 0 {
          assert Expired(queue[1..][k - 1], clocks[1..][k - 1], maxIdle);
        }
      }
    }
  }

  /** A pass is determined by its expired prefix and the reason it stops. */
  lemma {:induction false} ScanStops(queue: seq<Conn>, clocks: seq<int>, excess: int, maxIdle: int, o: Outcome)
    requires |clocks| == |queue| && o.deleted <= |queue|
    requires forall k :: 0 <= k < o.deleted ==> Expired(queue[k], clocks[k], maxIdle)
    requires o.deleted > 0 ==> o.deleted <= excess
    requires if excess <= o.deleted then !o.fault
             else if o.deleted == |queue| then o.fault
             else !o.fault && !Expired(queue[o.deleted], clocks[o.deleted], maxIdle)
    ensures Scan(queue, clocks, excess, maxIdle) == o
  {
    if o.deleted > 0 {
      ScanStops(queue[1..], clocks[1..], excess - 1, maxIdle, o.(deleted := o.deleted - 1));
    }
  }

  /**
   Exactly when a pass calls `front()` on an empty queue: when the excess is larger than the queue
   and every queued connection has expired.
   */
  lemma {:induction false} ScanFaults(queue: seq<Conn>, clocks: seq<int>, excess: int, maxIdle: int)
    requires |clocks| == |queue|
    ensures Scan(queue, clocks, excess, maxIdle).fault <==> excess > |queue| && AllExpired(queue, clocks, maxIdle)
  {
    if excess > 0 && queue != [] {
      ScanFaults(queue[1..], clocks[1..], excess - 1, maxIdle);
      AllExpiredHead(queue, clocks, maxIdle);
    }
  }

  lemma AllExpiredHead(queue: seq<Conn>, clocks: seq<int>, maxIdle: int)
    requires |clocks| == |queue| && queue != []
    ensures AllExpired(queue, clocks, maxIdle) <==>
      Expired(queue[0], clocks[0], maxIdle) && AllExpired(queue[1..], clocks[1..], maxIdle)
  {
    if Expired(queue[0], clocks[0], maxIdle) && AllExpired(queue[1..], clocks[1..], maxIdle) {
      forall k | 0 <= k < |queue|
        ensures Expired(queue[k], clocks[k], maxIdle)
      {
        if k > 0 {
          assert Expired(queue[1..][k - 1], clocks[1..][k - 1], maxIdle);
        }
      }
    }
    if AllExpired(queue, clocks, maxIdle) {
      forall k | 0 <= k < |queue| - 1
        ensures Expired(queue[1..][k], clocks[1..][k], maxIdle)
      {
        assert Expired(queue[k + 1], clocks[k + 1], maxIdle);
      }
    }
  }

  /** Exactly when a pass deletes the whole queue. */
  lemma {:induction false} ScanEmpties(queue: seq<Conn>, clocks: seq<int>, excess: int, maxIdle: int)
    requires |clocks| == |queue|
    ensures Scan(queue, clocks, excess, maxIdle).deleted == |queue| <==>
      queue == [] || (excess >= |queue| && AllExpired(queue, clocks, maxIdle))
  {
    if excess > 0 && queue != [] {
      ScanEmpties(queue[1..], clocks[1..], excess - 1, maxIdle);
      AllExpiredHead(queue, clocks, maxIdle);
    }
  }

  predicate SortedByStamp(queue: seq<Conn>) {
    forall i, j :: 0 <= i < j < |queue| ==> queue[i].since <= queue[j].since
  }

  predicate NonDecreasing(clocks: seq<int>) {
    forall i, j :: 0 <= i < j < |clocks| ==> clocks[i] <= clocks[j]
  }

  /**
   The early break is sound: when the queue is ordered by stamp, a pass that ends with a count still
   above `initSize` leaves no connection that had expired when it looked last.
   */
  lemma {:induction false} EarlyBreakIsSound(queue: seq<Conn>, clocks: seq<int>, excess: int, maxIdle: int)
    requires |clocks| == |queue| && SortedByStamp(queue)
    ensures var o := Scan(queue, clocks, excess, maxIdle);
      !o.fault ==>
        || excess - o.deleted <= 0
        || (o.deleted < |queue| &&
            forall k :: o.deleted <= k < |queue| ==> !Expired(queue[k], clocks[o.deleted], maxIdle))
  {
    ScanDeletes(queue, clocks, excess, maxIdle);
  }

  // ------------------------------------------------------------------ the pool

  datatype BorrowerPc =
    | Outside                  // not inside getConnection, holds nothing
    | Awake(timedOut: bool)    // about to test the queue; how the last wait ended
    | Asleep                   // in wait_for
    | Holding(c: Conn)

  datatype State = State(
    queue: seq<Conn>,
    count: int,
    borrowers: seq<BorrowerPc>,
    producerAsleep: bool,
    now: int,
    nextId: nat,
    deleted: set<nat>,
    fault: bool)

  datatype Action =
    | Tick(t: int)
    | CallGet(b: nat)
    | TryTake(b: nat)
    | WakeBorrower(b: nat, timedOut: bool)
    | GiveBack(b: nat)
    | WakeProducer
    | Produce
    | ScanIdle(clocks: seq<int>)

  function Max(a: int, b: int): int {
    if a < b then b else a
  }

  /** The size `run()` gives the pool. */
  function Base(c: Config): nat {
    Max(0, c.initSize)
  }

  /** After `run()`: `initSize` connections, stamped in creation order, and `m` client threads. */
  predicate Init(c: Config, m: nat, s: State) {
    && |s.queue| == Base(c) == s.count == s.nextId
    && (forall i :: 0 <= i < |s.queue| ==> s.queue[i].id == i && s.queue[i].since <= s.now)
    && SortedByStamp(s.queue)
    && s.borrowers == seq(m, _ => Outside)
    && !s.producerAsleep && s.deleted == {} && !s.fault
  }

  function NotifyAll(bs: seq<BorrowerPc>): (r: seq<BorrowerPc>)
    ensures |r| == |bs|
    ensures forall i: nat :: i < |bs| ==> r[i] == if bs[i].Asleep? then Awake(false) else bs[i]
  {
    seq(|bs|, (i: nat) requires i < |bs| => if bs[i].Asleep? then Awake(false) else bs[i])
  }

  predicate Enabled(c: Config, s: State, a: Action) {
    !s.fault &&
    match a
    case Tick(t) => s.now <= t
    case CallGet(b) => b < |s.borrowers| && s.borrowers[b].Outside?
    case TryTake(b) => b < |s.borrowers| && s.borrowers[b].Awake?
    case WakeBorrower(b, _) => b < |s.borrowers| && s.borrowers[b].Asleep?
    case GiveBack(b) => b < |s.borrowers| && s.borrowers[b].Holding?
    case WakeProducer => s.producerAsleep
    case Produce => !s.producerAsleep
    case ScanIdle(clocks) =>
      |clocks| == |s.queue| && NonDecreasing(clocks) && (clocks != [] ==> s.now <= clocks[0])
  }

  function Move(s: State, b: nat, pc: BorrowerPc): State
    requires b < |s.borrowers|
  {
    s.(borrowers := s.borrowers[b := pc])
  }

  /** Lines 89-111 and 117-130. */
  function ApplyTake(s: State, b: nat): State
    requires b < |s.borrowers| && s.borrowers[b].Awake?
  {
    if s.queue != [] then
      var s' := Move(s, b, Holding(s.queue[0]));
      s'.(queue := s.queue[1..], borrowers := NotifyAll(s'.borrowers), producerAsleep := false)
    else if s.borrowers[b].timedOut then Move(s, b, Outside)
    else Move(s, b, Asleep)
  }

  /** Lines 97-102: the deleter refreshes the stamp, pushes, and notifies nobody. */
  function ApplyGiveBack(s: State, b: nat): State
    requires b < |s.borrowers| && s.borrowers[b].Holding?
  {
    Move(s, b, Outside).(queue := s.queue + [s.borrowers[b].c.(since := s.now)])
  }

  /** Lines 140-148. */
  function ApplyProduce(c: Config, s: State): State {
    if s.queue != [] then s.(producerAsleep := true)
    else if s.count < c.maxSize then
      s.(queue := [Conn(s.nextId, s.now)], count := s.count + 1, nextId := s.nextId + 1,
         borrowers := NotifyAll(s.borrowers))
    else s
  }

  /** Lines 158-174. */
  function ApplyScan(c: Config, s: State, clocks: seq<int>): State
    requires |clocks| == |s.queue|
  {
    var o := Scan(s.queue, clocks, s.count - c.initSize, c.maxIdleTime);
    ScanDeletes(s.queue, clocks, s.count - c.initSize, c.maxIdleTime);
    s.(queue := s.queue[o.deleted..],
       count := s.count - o.deleted,
       deleted := s.deleted + Ids(s.queue[..o.deleted]),
       now := if clocks == [] then s.now else clocks[|clocks| - 1],
       fault := o.fault)
  }

  function Ids(queue: seq<Conn>): set<nat> {
    set i | 0 <= i < |queue| :: queue[i].id
  }

  function Apply(c: Config, s: State, a: Action): State
    requires Enabled(c, s, a)
  {
    match a
    case Tick(t) => s.(now := t)
    case CallGet(b) => Move(s, b, Awake(false))
    case TryTake(b) => ApplyTake(s, b)
    case WakeBorrower(b, timedOut) => Move(s, b, Awake(timedOut))
    case GiveBack(b) => ApplyGiveBack(s, b)
    case WakeProducer => s.(producerAsleep := false)
    case Produce => ApplyProduce(c, s)
    case ScanIdle(clocks) => ApplyScan(c, s, clocks)
  }

  predicate IsRun(c: Config, s: State, acts: seq<Action>, s': State)
    decreases |acts|
  {
    if acts == [] then s == s'
    else Enabled(c, s, acts[0]) && IsRun(c, Apply(c, s, acts[0]), acts[1..], s')
  }

  // ------------------------------------------------------------------ the invariant

  function Lends(pc: BorrowerPc): nat {
    if pc.Holding? then 1 else 0
  }

  /** The number of connections lent out. */
  function Lent(bs: seq<BorrowerPc>): nat {
    Sum(bs, Lends)
  }

  function LendsId(pc: BorrowerPc, id: nat): nat {
    if pc.Holding? && pc.c.id == id then 1 else 0
  }

  function LentId(bs: seq<BorrowerPc>, id: nat): nat {
    Sum(bs, (pc: BorrowerPc) => LendsId(pc, id))
  }

  function QueuedId(queue: seq<Conn>, id: nat): nat {
    Sum(queue, (c: Conn) => if c.id == id then 1 else 0)
  }

  /** Every connection ever created is queued, lent or deleted: exactly one of the three. */
  predicate Accounted(s: State, id: nat) {
    QueuedId(s.queue, id) + LentId(s.borrowers, id) + (if id in s.deleted then 1 else 0)
    == if id < s.nextId then 1 else 0
  }

  predicate Bounded(c: Config, s: State) {
    && s.count == |s.queue| + Lent(s.borrowers)
    && Base(c) <= s.count <= Max(Base(c), c.maxSize)
  }

  predicate Ordered(s: State) {
    SortedByStamp(s.queue) && forall i :: 0 <= i < |s.queue| ==> s.queue[i].since <= s.now
  }

  ghost predicate Inv(c: Config, s: State) {
    Bounded(c, s) && Ordered(s) && forall id: nat :: Accounted(s, id)
  }

  // ------------------------------------------------------------------ preservation

  lemma LentMoves(bs: seq<BorrowerPc>, b: nat, pc: BorrowerPc)
    requires b < |bs|
    ensures Lent(bs[b := pc]) + Lends(bs[b]) == Lent(bs) + Lends(pc)
    ensures Lent(NotifyAll(bs[b := pc])) == Lent(bs[b := pc])
  {
    SumUpdate(bs, b, pc, Lends);
    SumSame(NotifyAll(bs[b := pc]), bs[b := pc], Lends);
  }

  lemma LentIdMoves(bs: seq<BorrowerPc>, b: nat, pc: BorrowerPc, id: nat)
    requires b < |bs|
    ensures LentId(bs[b := pc], id) + LendsId(bs[b], id) == LentId(bs, id) + LendsId(pc, id)
    ensures LentId(NotifyAll(bs[b := pc]), id) == LentId(bs[b := pc], id)
  {
    var f := (pc: BorrowerPc) => LendsId(pc, id);
    SumUpdate(bs, b, pc, f);
    SumSame(NotifyAll(bs[b := pc]), bs[b := pc], f);
  }

  lemma NotifyKeepsLent(bs: seq<BorrowerPc>, id: nat)
    ensures Lent(NotifyAll(bs)) == Lent(bs) && LentId(NotifyAll(bs), id) == LentId(bs, id)
  {
    SumSame(NotifyAll(bs), bs, Lends);
    SumSame(NotifyAll(bs), bs, (pc: BorrowerPc) => LendsId(pc, id));
  }

  lemma {:induction false} QueuedIdAppend(q: seq<Conn>, r: seq<Conn>, id: nat)
    ensures QueuedId(q + r, id) == QueuedId(q, id) + QueuedId(r, id)
  {
    if q == [] {
      assert q + r == r;
    } else {
      assert (q + r)[1..] == q[1..] + r;
      QueuedIdAppend(q[1..], r, id);
    }
  }

  lemma QueuedIdOne(c: Conn, id: nat)
    ensures QueuedId([c], id) == if c.id == id then 1 else 0
  {
    var f := (c: Conn) => if c.id == id then 1 else 0;
    assert [c][1..] == [];
    assert Sum([c], f) == f(c) + Sum([], f);
  }

  lemma {:induction false} QueuedIdIn(q: seq<Conn>, id: nat)
    ensures QueuedId(q, id) >= 1 <==> id in Ids(q)
  {
    if q != [] {
      QueuedIdIn(q[1..], id);
      assert q == [q[0]] + q[1..];
      if id in Ids(q[1..]) {
        var i :| 0 <= i < |q[1..]| && q[1..][i].id == id;
        assert q[i + 1].id == id;
      }
      if id in Ids(q) {
        var i :| 0 <= i < |q| && q[i].id == id;
        assert i > 0 ==> q[1..][i - 1].id == id;
      }
    }
  }

  lemma QueuedIdSplit(q: seq<Conn>, n: nat, id: nat)
    requires n <= |q|
    ensures QueuedId(q, id) == QueuedId(q[..n], id) + QueuedId(q[n..], id)
    ensures QueuedId(q[..n], id) >= 1 <==> id in Ids(q[..n])
  {
    assert q == q[..n] + q[n..];
    QueuedIdAppend(q[..n], q[n..], id);
    QueuedIdIn(q[..n], id);
  }

  lemma BoundedPreserved(c: Config, s: State, a: Action)
    requires Bounded(c, s) && Enabled(c, s, a)
    ensures Bounded(c, Apply(c, s, a))
  {
    match a
    case Tick(t) =>
    case CallGet(b) => LentMoves(s.borrowers, b, Awake(false));
    case TryTake(b) =>
      if s.queue != [] {
        LentMoves(s.borrowers, b, Holding(s.queue[0]));
      } else {
        LentMoves(s.borrowers, b, if s.borrowers[b].timedOut then Outside else Asleep);
      }
    case WakeBorrower(b, timedOut) => LentMoves(s.borrowers, b, Awake(timedOut));
    case GiveBack(b) => LentMoves(s.borrowers, b, Outside);
    case WakeProducer =>
    case Produce => NotifyKeepsLent(s.borrowers, 0);
    case ScanIdle(clocks) => ScanDeletes(s.queue, clocks, s.count - c.initSize, c.maxIdleTime);
  }

  lemma OrderedSuffix(q: seq<Conn>, n: nat)
    requires n <= |q| && SortedByStamp(q)
    ensures SortedByStamp(q[n..])
    ensures forall i :: 0 <= i < |q| - n ==> q[n..][i] == q[n + i]
  {
  }

  lemma OrderedAppend(q: seq<Conn>, x: Conn)
    requires SortedByStamp(q) && forall i :: 0 <= i < |q| ==> q[i].since <= x.since
    ensures SortedByStamp(q + [x])
  {
  }

  lemma OrderedPreserved(c: Config, s: State, a: Action)
    requires Ordered(s) && Enabled(c, s, a)
    ensures Ordered(Apply(c, s, a))
  {
    match a
    case Tick(t) =>
    case CallGet(b) =>
    case TryTake(b) =>
      if s.queue != [] {
        OrderedSuffix(s.queue, 1);
      }
    case WakeBorrower(b, timedOut) =>
    case GiveBack(b) => OrderedAppend(s.queue, s.borrowers[b].c.(since := s.now));
    case WakeProducer =>
    case Produce =>
    case ScanIdle(clocks) => OrderedScan(c, s, clocks);
  }

  lemma ScanWithin(queue: seq<Conn>, clocks: seq<int>, excess: int, maxIdle: int)
    requires |clocks| == |queue|
    ensures Scan(queue, clocks, excess, maxIdle).deleted <= |queue|
  {
    ScanDeletes(queue, clocks, excess, maxIdle);
  }

  lemma SuffixBefore(q: seq<Conn>, n: nat, now: int, later: int)
    requires n <= |q| && SortedByStamp(q) && now <= later
    requires forall i :: 0 <= i < |q| ==> q[i].since <= now
    ensures SortedByStamp(q[n..])
    ensures forall i :: 0 <= i < |q[n..]| ==> q[n..][i].since <= later
  {
  }

  lemma OrderedScan(c: Config, s: State, clocks: seq<int>)
    requires Ordered(s) && Enabled(c, s, ScanIdle(clocks))
    ensures Ordered(ApplyScan(c, s, clocks))
  {
    var excess := s.count - c.initSize;
    var later := if clocks == [] then s.now else clocks[|clocks| - 1];
    ScanWithin(s.queue, clocks, excess, c.maxIdleTime);
    ClockMoves(s.now, clocks);
    SuffixBefore(s.queue, Scan(s.queue, clocks, excess, c.maxIdleTime).deleted, s.now, later);
  }

  lemma ClockMoves(now: int, clocks: seq<int>)
    requires NonDecreasing(clocks) && (clocks != [] ==> now <= clocks[0])
    ensures clocks != [] ==> now <= clocks[|clocks| - 1]
  {
    if |clocks| > 1 {
      assert clocks[0] <= clocks[|clocks| - 1];
    }
  }

  lemma AccountedTake(s: State, b: nat, id: nat)
    requires Accounted(s, id) && b < |s.borrowers| && s.borrowers[b].Awake?
    ensures Accounted(ApplyTake(s, b), id)
  {
    if s.queue != [] {
      LentIdMoves(s.borrowers, b, Holding(s.queue[0]), id);
    } else {
      LentIdMoves(s.borrowers, b, if s.borrowers[b].timedOut then Outside else Asleep, id);
    }
  }

  lemma AccountedGiveBack(s: State, b: nat, id: nat)
    requires Accounted(s, id) && b < |s.borrowers| && s.borrowers[b].Holding?
    ensures Accounted(ApplyGiveBack(s, b), id)
  {
    var back := s.borrowers[b].c.(since := s.now);
    LentIdMoves(s.borrowers, b, Outside, id);
    QueuedIdAppend(s.queue, [back], id);
    QueuedIdOne(back, id);
  }

  lemma AccountedProduce(c: Config, s: State, id: nat)
    requires Accounted(s, id) && Accounted(s, s.nextId)
    ensures Accounted(ApplyProduce(c, s), id)
  {
    NotifyKeepsLent(s.borrowers, id);
    QueuedIdOne(Conn(s.nextId, s.now), id);
  }

  lemma AccountedScan(c: Config, s: State, clocks: seq<int>, id: nat)
    requires Accounted(s, id) && |clocks| == |s.queue|
    ensures Accounted(ApplyScan(c, s, clocks), id)
  {
    ScanDeletes(s.queue, clocks, s.count - c.initSize, c.maxIdleTime);
    var n := Scan(s.queue, clocks, s.count - c.initSize, c.maxIdleTime).deleted;
    QueuedIdSplit(s.queue, n, id);
  }

  lemma AccountedPreserved(c: Config, s: State, a: Action, id: nat)
    requires Accounted(s, id) && Accounted(s, s.nextId) && Enabled(c, s, a)
    ensures Accounted(Apply(c, s, a), id)
  {
    match a
    case Tick(t) =>
    case CallGet(b) => LentIdMoves(s.borrowers, b, Awake(false), id);
    case TryTake(b) => AccountedTake(s, b, id);
    case WakeBorrower(b, timedOut) => LentIdMoves(s.borrowers, b, Awake(timedOut), id);
    case GiveBack(b) => AccountedGiveBack(s, b, id);
    case WakeProducer =>
    case Produce => AccountedProduce(c, s, id);
    case ScanIdle(clocks) => AccountedScan(c, s, clocks, id);
  }

  lemma InitInv(c: Config, m: nat, s: State)
    requires Init(c, m, s)
    ensures Inv(c, s)
  {
    SumZero(s.borrowers, Lends);
    forall id: nat
      ensures Accounted(s, id)
    {
      SumZero(s.borrowers, (pc: BorrowerPc) => LendsId(pc, id));
      FreshQueue(s.queue, 0, id);
    }
  }

  lemma {:induction false} FreshQueue(q: seq<Conn>, from: nat, id: nat)
    requires forall i :: 0 <= i < |q| ==> q[i].id == from + i
    ensures QueuedId(q, id) == if from <= id < from + |q| then 1 else 0
  {
    if q != [] {
      FreshQueue(q[1..], from + 1, id);
    }
  }

  lemma StepInv(c: Config, s: State, a: Action)
    requires Inv(c, s) && Enabled(c, s, a)
    ensures Inv(c, Apply(c, s, a))
  {
    BoundedPreserved(c, s, a);
    OrderedPreserved(c, s, a);
    forall id: nat
      ensures Accounted(Apply(c, s, a), id)
    {
      AccountedPreserved(c, s, a, id);
    }
  }

  lemma {:induction false} RunInv(c: Config, s: State, acts: seq<Action>, s': State)
    requires Inv(c, s) && IsRun(c, s, acts, s')
    ensures Inv(c, s')
    decreases |acts|
  {
    if acts != [] {
      StepInv(c, s, acts[0]);
      RunInv(c, Apply(c, s, acts[0]), acts[1..], s');
    }
  }
}
