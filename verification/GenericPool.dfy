/**
 * The generic connection pool of pool/pool.go. Every operation holds the lock throughout, so each is one
 * method; only Stats reads its three numbers without the lock, and here takes them from one state.
 */
module GenericPool {
  import opened Prelude

  datatype PoolError = PoolClosed | PoolExhausted | FactoryFailed
  datatype GetResult<C> = Conn(conn: C) | Err(error: PoolError)

  /** The connections that a series of factory calls produced. */
  function Produced<C>(attempts: seq<Option<C>>): (made: seq<C>)
    ensures |made| <= |attempts|
  {
    if attempts == [] then []
    else
      var made := Produced(attempts[..|attempts| - 1]);
      match attempts[|attempts| - 1]
      case Some(c) => made + [c]
      case None => made
  }

  class Pool<C(==)> {
    const maxConns: nat
    const minConns: nat
    var conns: seq<C>
    var active: int
    var total: int
    var closed: bool

    /** What callers hold, and what the pool closed so far. */
    ghost var outstanding: multiset<C>
    ghost var shut: seq<C>
    /** Connections put in by NewPool and by Warmup; `active` keeps counting them for ever. */
    ghost var initial: nat
    ghost var warmed: nat

    function Capacity(): nat {
      maxConns + 10
    }

    ghost predicate Valid()
      reads this
    {
      && maxConns >= 1 && minConns >= 1
      && initial <= minConns
      && (!closed ==>
            && total == |conns| + |outstanding|
            && active == |outstanding| + initial + warmed
            && |conns| <= Capacity()
            && total <= Max(maxConns, initial) + warmed)
      && (closed ==> conns == [])
    }

    /** With sane limits and no Warmup the limit on connections is never exceeded. */
    lemma LimitHolds()
      requires Valid() && !closed && minConns <= maxConns && warmed == 0
      ensures total <= maxConns
      ensures outstanding != multiset{} ==> |conns| < Capacity()
    {
    }

    /** NewPool; its channel send would block for ever on more connections than the channel holds. */
    constructor (maxConns: int, minConns: int, attempts: seq<Option<C>>)
      requires |attempts| == if minConns <= 0 then 1 else minConns
      requires |Produced(attempts)| <= (if maxConns <= 0 then 10 else maxConns) + 10
      ensures Valid() && !closed && warmed == 0 && outstanding == multiset{} && shut == []
      ensures this.maxConns == if maxConns <= 0 then 10 else maxConns
      ensures this.minConns == if minConns <= 0 then 1 else minConns
      ensures conns == Produced(attempts) && initial == |conns|
    {
      this.maxConns := if maxConns <= 0 then 10 else maxConns;
      this.minConns := if minConns <= 0 then 1 else minConns;
      conns, active, total, closed := [], 0, 0, false;
      outstanding, shut := multiset{}, [];
      initial, warmed := 0, 0;
      new;
      for i := 0 to |attempts|
        invariant this.maxConns == if maxConns <= 0 then 10 else maxConns
        invariant this.minConns == if minConns <= 0 then 1 else minConns
        invariant conns == Produced(attempts[..i]) && total == active == |conns|
        invariant !closed && outstanding == multiset{} && shut == [] && warmed == 0
      {
        assert attempts[..i + 1][..i] == attempts[..i];
        match attempts[i]
        case Some(c) =>
          conns, total, active := conns + [c], total + 1, active + 1;
        case None =>
      }
      assert attempts[..|attempts|] == attempts;
      initial := |conns|;
    }

    /** A send to a full channel blocks for ever, and one to a closed channel panics. */
    method Warmup(attempts: seq<Option<C>>)
      requires Valid()
      requires closed ==> Produced(attempts) == []
      requires !closed ==> |conns| + |Produced(attempts)| <= Capacity()
      modifies this
      ensures Valid() && closed == old(closed)
      ensures conns == old(conns) + Produced(attempts) && warmed == old(warmed) + |Produced(attempts)|
      ensures outstanding == old(outstanding) && shut == old(shut) && initial == old(initial)
    {
      for i := 0 to |attempts|
        invariant closed == old(closed) && initial == old(initial) && warmed == old(warmed)
        invariant outstanding == old(outstanding) && shut == old(shut)
        invariant conns == old(conns) + Produced(attempts[..i])
        invariant total == old(total) + |Produced(attempts[..i])|
        invariant active == old(active) + |Produced(attempts[..i])|
      {
        assert attempts[..i + 1][..i] == attempts[..i];
        match attempts[i]
        case Some(c) =>
          conns, total, active := conns + [c], total + 1, active + 1;
        case None =>
      }
      assert attempts[..|attempts|] == attempts;
      warmed := warmed + |Produced(attempts)|;
    }

    /** Get, given what the factory would answer if it is asked. */
    method Get(attempt: Option<C>) returns (r: GetResult<C>)
      requires Valid()
      modifies this
      ensures Valid() && closed == old(closed) && warmed == old(warmed) && initial == old(initial) && shut == old(shut)
      ensures !closed && minConns <= maxConns && warmed == 0 ==> total <= maxConns
      ensures r.Conn? <==> !closed && (old(conns) != [] || (old(total) < maxConns && attempt.Some?))
      ensures r.Conn? ==> outstanding == old(outstanding) + multiset{r.conn}
      ensures r.Conn? && old(conns) != [] ==> [r.conn] + conns == old(conns)
      ensures r.Conn? && old(conns) == [] ==> attempt == Some(r.conn) && conns == []
      ensures r.Err? ==> outstanding == old(outstanding) && conns == old(conns) && total == old(total)
      ensures r.Err? ==> r.error == if closed then PoolClosed
                                    else if old(total) >= maxConns then PoolExhausted else FactoryFailed
    {
      if closed {
        return Err(PoolClosed);
      }
      if conns != [] {
        var conn := conns[0];
        assert conns == [conn] + conns[1..];
        conns, active := conns[1..], active + 1;
        outstanding := outstanding + multiset{conn};
        return Conn(conn);
      }
      if total >= maxConns {
        return Err(PoolExhausted);
      }
      match attempt
      case None => return Err(FactoryFailed);
      case Some(conn) =>
        total, active := total + 1, active + 1;
        outstanding := outstanding + multiset{conn};
        return Conn(conn);
    }

    /** Put of a connection that Get handed out; `kept` says that it went back into the channel. */
    method Put(conn: C) returns (kept: bool)
      requires Valid() && conn in outstanding
      modifies this
      ensures Valid() && closed == old(closed) && warmed == old(warmed) && initial == old(initial)
      ensures outstanding == old(outstanding) - multiset{conn}
      ensures kept <==> !closed && |old(conns)| < Capacity()
      ensures conns == if kept then old(conns) + [conn] else old(conns)
      ensures shut == if kept then old(shut) else old(shut) + [conn]
      ensures closed ==> total == old(total) && active == old(active)
      ensures !closed && minConns <= maxConns && warmed == 0 ==> kept
    {
      outstanding := outstanding - multiset{conn};
      if closed {
        shut := shut + [conn];
        return false;
      }
      active := active - 1;
      if |conns| < Capacity() {
        conns := conns + [conn];
        return true;
      }
      shut, total := shut + [conn], total - 1;
      return false;
    }

    /** cleanup closes the longest idle connections and stops at minConns. */
    method Cleanup()
      requires Valid()
      modifies this
      ensures Valid() && closed == old(closed) && warmed == old(warmed) && initial == old(initial)
      ensures outstanding == old(outstanding) && active == old(active)
      ensures closed ==> conns == old(conns) && total == old(total) && shut == old(shut)
      ensures !closed ==> |conns| == Min(|old(conns)|, minConns)
      ensures !closed ==> conns == old(conns)[|old(conns)| - |conns|..]
      ensures !closed ==> shut == old(shut) + old(conns)[..|old(conns)| - |conns|]
    {
      if closed {
        return;
      }
      var currentIdle := |conns|;
      ghost var k := 0;
      while currentIdle > minConns
        invariant Valid() && !closed && warmed == old(warmed) && initial == old(initial)
        invariant outstanding == old(outstanding) && active == old(active)
        invariant 0 <= k <= |old(conns)| && conns == old(conns)[k..] && currentIdle == |conns|
        invariant currentIdle >= Min(|old(conns)|, minConns)
        invariant shut == old(shut) + old(conns)[..k]
        decreases currentIdle
      {
        var conn := conns[0];
        assert conns == [conn] + conns[1..];
        assert old(conns)[..k + 1] == old(conns)[..k] + [conn];
        conns, total := conns[1..], total - 1;
        shut := shut + [conn];
        currentIdle, k := currentIdle - 1, k + 1;
      }
    }

    method Close()
      requires Valid()
      modifies this
      ensures Valid() && closed && conns == [] && outstanding == old(outstanding)
      ensures total == old(total) && active == old(active)
      ensures shut == old(shut) + old(conns)
    {
      if closed {
        return;
      }
      closed := true;
      shut, conns := shut + conns, [];
    }

    /** Idle plus outstanding make up the total; `active` also counts every warmed-up connection. */
    method Stats() returns (t: int, idle: int, a: int)
      requires Valid()
      ensures t == total && a == active && idle == |conns|
      ensures !closed ==> t - idle == |outstanding| && a - initial - warmed == |outstanding|
    {
      return total, |conns|, active;
    }
  }
}
