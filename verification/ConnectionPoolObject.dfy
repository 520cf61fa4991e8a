/**
 The pool as an object over mutable connections.  Each method is one locked region of the code;
 together they refine the transition system of module ConnectionPool.
 */
module ConnectionPoolObject {
  import opened ConnectionPool

  class Connection {
    ghost const id: nat
    var aliveTime: int

    constructor (ghost id: nat)
      ensures this.id == id
    {
      this.id := id;
      aliveTime := 0;
    }

    method RefreshAliveTime(clock: int)
      modifies this
      ensures aliveTime == clock
    {
      aliveTime := clock;
    }

    method GetAliveTime(clock: int) returns (idle: int)
      ensures idle == clock - aliveTime
    {
      idle := clock - aliveTime;
    }
  }

  /** How a look at the queue ends for a borrower. */
  datatype Taken = Got(connection: Connection) | GaveUp | Waits

  class Pool {
    const config: Config
    var connectionQueue: seq<Connection>
    var connectionCount: int
    var lent: map<nat, Connection>            // the shared_ptr of each borrower
    ghost var borrowers: seq<BorrowerPc>      // where each borrower thread is
    ghost var producerAsleep: bool
    ghost var now: int
    ghost var nextId: nat
    ghost var deleted: set<nat>
    ghost var fault: bool

    ghost function Queue(): seq<Conn>
      reads this, connectionQueue
    {
      seq(|connectionQueue|, (i: nat) requires i < |connectionQueue| reads this, connectionQueue =>
        Conn(connectionQueue[i].id, connectionQueue[i].aliveTime))
    }

    ghost function Abs(): State
      reads this, connectionQueue
    {
      State(Queue(), connectionCount, borrowers, producerAsleep, now, nextId, deleted, fault)
    }

    ghost predicate Valid()
      reads this, lent.Values
    {
      && (forall i, j :: 0 <= i < j < |connectionQueue| ==> connectionQueue[i] != connectionQueue[j])
      && (forall b: nat :: b < |borrowers| && borrowers[b].Holding? ==>
            && b in lent && lent[b] !in connectionQueue
            && borrowers[b].c == Conn(lent[b].id, lent[b].aliveTime))
      && (forall a: nat, b: nat :: a < b < |borrowers| && borrowers[a].Holding? && borrowers[b].Holding? ==>
            lent[a] != lent[b])
    }

    constructor (config: Config, ghost m: nat, ghost now: int)
      ensures Valid() && this.config == config && this.now == now && !fault
      ensures connectionQueue == [] && connectionCount == 0 && nextId == 0 && deleted == {}
      ensures borrowers == seq(m, _ => Outside) && !producerAsleep
    {
      this.config := config;
      this.now := now;
      connectionQueue, connectionCount, lent := [], 0, map[];
      borrowers, producerAsleep := seq(m, _ => Outside), false;
      nextId, deleted, fault := 0, {}, false;
    }

    /** Lines 176-186; `clock` is the clock when the stamp is taken. */
    method CreateConnection(clock: int)
      requires Valid()
      modifies this`connectionQueue, this`connectionCount, this`nextId
      ensures Valid() && |connectionQueue| == |old(connectionQueue)| + 1 && old(connectionQueue) <= connectionQueue
      ensures fresh(connectionQueue[|old(connectionQueue)|])
      ensures Queue() == old(Queue()) + [Conn(old(nextId), clock)]
      ensures connectionCount == old(connectionCount) + 1 && nextId == old(nextId) + 1
    {
      var connection := new Connection(nextId);
      connection.RefreshAliveTime(clock);
      connectionQueue := connectionQueue + [connection];
      connectionCount := connectionCount + 1;
      nextId := nextId + 1;
    }

    /** Lines 64-86, up to the start of the two threads. */
    method Run(ip: string, username: string, password: string, dbname: string, clocks: seq<int>) returns (ok: bool)
      requires Valid() && connectionQueue == [] && connectionCount == nextId == 0 && deleted == {} && !fault
      requires borrowers == seq(|borrowers|, _ => Outside) && !producerAsleep
      requires |clocks| == Base(config) && NonDecreasing(clocks) && forall i :: 0 <= i < |clocks| ==> clocks[i] <= now
      modifies this
      ensures Valid()
      ensures ok <==> ip != "" && username != "" && password != "" && dbname != ""
      ensures ok ==> Init(config, |old(borrowers)|, Abs())
      ensures ok ==> |connectionQueue| == connectionCount == if config.initSize < 0 then 0 else config.initSize
      ensures ok ==> forall k :: 0 <= k < |connectionQueue| ==> connectionQueue[k].aliveTime == clocks[k]
      ensures !ok ==> Abs() == old(Abs())
    {
      if ip == "" || username == "" || password == "" || dbname == "" {
        return false;
      }
      var i := 0;
      while i < config.initSize
        invariant 0 <= i <= Base(config)
        invariant Valid() && |connectionQueue| == i == connectionCount == nextId
        invariant fresh(connectionQueue)
        invariant forall k :: 0 <= k < i ==> Queue()[k] == Conn(k, clocks[k])
        invariant borrowers == old(borrowers) && producerAsleep == old(producerAsleep)
        invariant now == old(now) && deleted == old(deleted) && fault == old(fault)
      {
        CreateConnection(clocks[i]);
        i := i + 1;
      }
      return true;
    }

    /** Lines 89-111 and 117-130, for borrower `b`: take the front connection, give up, or wait. */
    method TryTake(b: nat, timedOut: bool) returns (taken: Taken)
      requires Valid() && Enabled(config, Abs(), Action.TryTake(b)) && borrowers[b].timedOut == timedOut
      modifies this
      ensures Valid() && Abs() == ApplyTake(old(Abs()), b)
      ensures taken == if old(connectionQueue) != [] then Got(old(connectionQueue)[0])
                       else if timedOut then GaveUp else Waits
      ensures |borrowers| == |old(borrowers)|
      ensures taken.Got? <==> borrowers[b].Holding?
      ensures taken.GaveUp? <==> borrowers[b].Outside?
      ensures taken.Waits? <==> borrowers[b].Asleep?
    {
      if connectionQueue == [] {
        borrowers := borrowers[b := if timedOut then Outside else Asleep];
        return if timedOut then GaveUp else Waits;
      }
      var connection := connectionQueue[0];
      lent := lent[b := connection];
      borrowers := NotifyAll(borrowers[b := Holding(Conn(connection.id, connection.aliveTime))]);
      producerAsleep := false;
      connectionQueue := connectionQueue[1..];
      assert Queue() == old(Queue())[1..];
      return Got(connection);
    }

    /** Lines 97-102. */
    method GiveBack(b: nat, clock: int)
      requires Valid() && Enabled(config, Abs(), Action.GiveBack(b)) && clock == now
      modifies this, lent.Values
      ensures Valid() && Abs() == ApplyGiveBack(old(Abs()), b)
    {
      var connection := lent[b];
      connection.RefreshAliveTime(clock);
      connectionQueue := connectionQueue + [connection];
      borrowers := borrowers[b := Outside];
    }

    /** Lines 140-148. */
    method Produce(clock: int)
      requires Valid() && Enabled(config, Abs(), Action.Produce) && clock == now
      modifies this
      ensures Valid() && Abs() == ApplyProduce(config, old(Abs()))
      ensures old(connectionQueue) != [] ==> producerAsleep && connectionQueue == old(connectionQueue)
      ensures old(connectionQueue) == [] ==>
        && (|connectionQueue| == 1 <==> old(connectionCount) < config.maxSize)
        && (connectionQueue == [] <==> old(connectionCount) >= config.maxSize)
        && connectionCount == old(connectionCount) + |connectionQueue|
        && forall k :: 0 <= k < |connectionQueue| ==> fresh(connectionQueue[k]) && connectionQueue[k].aliveTime == clock
    {
      if connectionQueue != [] {
        producerAsleep := true;
        return;
      }
      assert Queue() == [];
      if connectionCount < config.maxSize {
        CreateConnection(clock);
        assert Queue() == [Conn(old(nextId), clock)] && Queue()[0].since == connectionQueue[0].aliveTime;
      }
      if connectionQueue != [] {
        borrowers := NotifyAll(borrowers);
      }
    }

    /** The loop at lines 160-173; `empty` when it reached `front()` of an empty queue. */
    method DeleteExpired(clocks: seq<int>) returns (empty: bool, ghost k: nat)
      requires Valid() && |clocks| == |connectionQueue|
      modifies this`connectionQueue, this`connectionCount
      ensures Valid() && k <= |clocks|
      ensures Scan(old(Queue()), clocks, old(connectionCount) - config.initSize, config.maxIdleTime)
           == Outcome(k, empty)
      ensures Queue() == old(Queue())[k..] && connectionCount == old(connectionCount) - k
    {
      ghost var queue, excess := Queue(), connectionCount - config.initSize;
      empty, k := false, 0;
      var i := 0;
      while connectionCount > config.initSize
        invariant Valid() && !empty
        invariant 0 <= i == k <= |clocks| && connectionQueue == old(connectionQueue)[k..]
        invariant connectionCount == old(connectionCount) - k && (k > 0 ==> k <= excess)
        invariant forall i :: 0 <= i < k ==> Expired(queue[i], clocks[i], config.maxIdleTime)
        decreases |clocks| - i
      {
        if connectionQueue == [] {
          empty := true;
          break;
        }
        var idle := connectionQueue[0].GetAliveTime(clocks[i]);
        if idle > config.maxIdleTime {
          connectionQueue := connectionQueue[1..];
          connectionCount := connectionCount - 1;
          i, k := i + 1, k + 1;
        } else {
          break;
        }
      }
      ScanStops(queue, clocks, excess, config.maxIdleTime, Outcome(k, empty));
    }

    /** Lines 158-174; `clocks` are the successive values of `clock()`. */
    method ScanIdle(clocks: seq<int>)
      requires Valid() && Enabled(config, Abs(), Action.ScanIdle(clocks))
      modifies this
      ensures Valid() && Abs() == ApplyScan(config, old(Abs()), clocks)
    {
      ghost var before := Abs();
      var empty: bool;
      ghost var k: nat;
      empty, k := DeleteExpired(clocks);
      ghost var after := Abs();
      Record(empty, before.queue[..k], if clocks == [] then now else clocks[|clocks| - 1]);
      PassResult(config, before, clocks, Outcome(k, empty), after);
    }

    /** What a pass leaves in the history. */
    ghost method Record(empty: bool, gone: seq<Conn>, clock: int)
      requires Valid()
      modifies this`fault, this`deleted, this`now
      ensures Valid() && Abs() == old(Abs()).(fault := empty, deleted := old(deleted) + Ids(gone), now := clock)
    {
      fault, deleted, now := empty, deleted + Ids(gone), clock;
    }
  }

  /** The state after a pass, from its outcome: `after` is what the loop leaves. */
  lemma PassResult(c: Config, s: State, clocks: seq<int>, o: Outcome, after: State)
    requires |clocks| == |s.queue| && o.deleted <= |s.queue|
    requires Scan(s.queue, clocks, s.count - c.initSize, c.maxIdleTime) == o
    requires after == s.(queue := s.queue[o.deleted..], count := s.count - o.deleted)
    ensures after.(fault := o.fault, deleted := s.deleted + Ids(s.queue[..o.deleted]),
                   now := if clocks == [] then s.now else clocks[|clocks| - 1])
         == ApplyScan(c, s, clocks)
  {
  }
}
