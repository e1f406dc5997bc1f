/** The round-robin balancer of selector/selector.go. */
module Balancer {
  import opened Prelude
  import opened HashRing

  type Cursors = map<string, nat>

  function Cursor(m: Cursors, key: string): nat {
    if key in m then m[key] else 0
  }

  datatype Picked = Picked(servers: seq<ServerInfo>, cursors: Cursors)

  /** One Select over a non-empty list. */
  function SelectOne(m: Cursors, servers: seq<ServerInfo>): Picked
    requires servers != []
  {
    var key := servers[0].serverType;
    var idx := Cursor(m, key);
    Picked([servers[idx % |servers|]], m[key := (idx + 1) % |servers|])
  }

  /** k consecutive Selects over the same list. */
  function SelectTimes(m: Cursors, servers: seq<ServerInfo>, k: nat): (r: Picked)
    requires servers != []
    ensures |r.servers| == k
    decreases k
  {
    if k == 0 then Picked([], m)
    else
      var before := SelectTimes(m, servers, k - 1);
      var last := SelectOne(before.cursors, servers);
      Picked(before.servers + last.servers, last.cursors)
  }

  /** The positions that k picks starting at cursor idx go through. */
  function Positions(n: nat, idx: nat, k: nat): (r: seq<nat>)
    requires n > 0
    ensures |r| == k
  {
    seq(k, i requires 0 <= i => (idx + i) % n)
  }

  function At(servers: seq<ServerInfo>, positions: seq<nat>): seq<ServerInfo>
    requires forall i :: 0 <= i < |positions| ==> positions[i] < |servers|
  {
    seq(|positions|, i requires 0 <= i < |positions| => servers[positions[i]])
  }

  // ---- Remainders ----

  lemma ModUnique(x: int, q: int, r: int, n: int)
    requires 0 <= r < n && x == q * n + r
    ensures x % n == r && x / n == q
  {
    var d := q - x / n;
    assert x == (x / n) * n + x % n;
    assert d * n == x % n - r;
    MulGrows(d, n);
  }

  lemma MulGrows(d: int, n: int)
    requires n > 0
    ensures d >= 1 ==> d * n >= n
    ensures d <= -1 ==> d * n <= -n
  {
  }

  lemma ModOfMod(a: int, b: int, n: int)
    requires n > 0
    ensures (a % n + b) % n == (a + b) % n
  {
    var x := a % n + b;
    assert a == (a / n) * n + a % n;
    assert x == (x / n) * n + x % n;
    assert a + b == (a / n + x / n) * n + x % n;
    ModUnique(a + b, a / n + x / n, x % n, n);
  }

  lemma ModStep(k: nat, n: int)
    requires n > 0
    ensures k % n + 1 < n ==> (k + 1) % n == k % n + 1 && (k + 1) / n == k / n
    ensures k % n + 1 == n ==> (k + 1) % n == 0 && (k + 1) / n == k / n + 1
  {
    assert k == (k / n) * n + k % n;
    if k % n + 1 < n {
      ModUnique(k + 1, k / n, k % n + 1, n);
    } else {
      assert k + 1 == (k / n + 1) * n;
      ModUnique(k + 1, k / n + 1, 0, n);
    }
  }

  // ---- Round robin is fair ----

  function Hits(positions: seq<nat>, j: nat): nat {
    if positions == [] then 0
    else Hits(positions[..|positions| - 1], j) + if positions[|positions| - 1] == j then 1 else 0
  }

  /** The offset from the cursor at which position j comes up first. */
  lemma OffsetOf(n: nat, idx: nat, i: nat, j: nat)
    requires n > 0 && j < n
    ensures (idx + i) % n == j <==> i % n == (j - idx) % n
  {
    var d, q := (j - idx) % n, (j - idx) / n;
    assert j - idx == q * n + d;
    if i % n == d {
      assert i == (i / n) * n + d;
      assert idx + i == (i / n - q) * n + j;
      ModUnique(idx + i, i / n - q, j, n);
    } else if (idx + i) % n == j {
      var p := (idx + i) / n;
      assert idx + i == p * n + j;
      assert i == (p + q) * n + d;
      ModUnique(i, p + q, d, n);
    }
  }

  /** k picks starting anywhere hit position j once per round, plus once if j comes up in the unfinished round. */
  lemma {:induction false} RoundRobinIsFair(n: nat, idx: nat, k: nat, j: nat)
    requires j < n
    ensures Hits(Positions(n, idx, k), j) == k / n + if (j - idx) % n < k % n then 1 else 0
    decreases k
  {
    if k == 0 {
      ModUnique(0, 0, 0, n);
    } else {
      RoundRobinIsFair(n, idx, k - 1, j);
      assert Positions(n, idx, k)[..k - 1] == Positions(n, idx, k - 1);
      OffsetOf(n, idx, k - 1, j);
      ModStep(k - 1, n);
    }
  }

  /** Consecutive Selects go round, even from a cursor beyond a list that has shrunk since. */
  lemma {:induction false} SelectsGoRound(m: Cursors, servers: seq<ServerInfo>, k: nat)
    requires servers != []
    ensures var key, n := servers[0].serverType, |servers|;
            var idx := Cursor(m, key);
            && SelectTimes(m, servers, k).servers == At(servers, Positions(n, idx, k))
            && SelectTimes(m, servers, k).cursors == if k == 0 then m else m[key := (idx + k) % n]
    decreases k
  {
    if k > 0 {
      SelectsGoRound(m, servers, k - 1);
      NextPick(SelectTimes(m, servers, k - 1).cursors, servers, Cursor(m, servers[0].serverType) + (k - 1));
    }
  }

  /** A cursor that stands for i, reduced or not, picks position i modulo n and then stands for i + 1. */
  lemma {:induction false} NextPick(m: Cursors, servers: seq<ServerInfo>, i: nat)
    requires servers != []
    requires Cursor(m, servers[0].serverType) in {i, i % |servers|}
    ensures SelectOne(m, servers)
         == Picked([servers[i % |servers|]], m[servers[0].serverType := (i + 1) % |servers|])
  {
    ModOfMod(i, 0, |servers|);
    ModOfMod(i, 1, |servers|);
  }

  /** A new balancer starts with the first server and goes on in the list's order. */
  lemma {:induction false} FreshBalancerStartsAtTheFirst(servers: seq<ServerInfo>, k: nat, i: nat)
    requires servers != [] && i < k
    ensures SelectTimes(map[], servers, k).servers[i] == servers[i % |servers|]
  {
    SelectsGoRound(map[], servers, k);
  }

  /** Selecting from one type's servers leaves the turn of the other types alone. */
  lemma {:induction false} OtherTypesKeepTheirTurn(m: Cursors, servers: seq<ServerInfo>, k: nat, others: seq<ServerInfo>, n: nat)
    requires servers != [] && others != [] && servers[0].serverType != others[0].serverType
    ensures SelectTimes(SelectTimes(m, servers, k).cursors, others, n).servers == SelectTimes(m, others, n).servers
  {
    SelectsGoRound(m, servers, k);
    SelectsGoRound(m, others, n);
    SelectsGoRound(SelectTimes(m, servers, k).cursors, others, n);
  }

  class LoadBalancer {
    var curIdx: Cursors

    constructor ()
      ensures curIdx == map[]
    {
      curIdx := map[];
    }

    /** None stands for the zero ServerInfo. */
    method Select(servers: seq<ServerInfo>) returns (server: Option<ServerInfo>)
      modifies this
      ensures servers == [] ==> server == None && curIdx == old(curIdx)
      ensures servers != [] ==>
                var one := SelectOne(old(curIdx), servers);
                server == Some(one.servers[0]) && curIdx == one.cursors
    {
      if |servers| == 0 {
        return None;
      }
      var key := servers[0].serverType;
      var idx := Cursor(curIdx, key);
      server := Some(servers[idx % |servers|]);
      curIdx := curIdx[key := (idx + 1) % |servers|];
    }

    /** SelectMulti gives what n Selects would have given, and leaves what they would have left. */
    method SelectMulti(servers: seq<ServerInfo>, n: int) returns (result: seq<ServerInfo>)
      modifies this
      ensures servers == [] || n <= 0 ==> result == [] && curIdx == old(curIdx)
      ensures servers != [] && n >= 0 ==> Picked(result, curIdx) == SelectTimes(old(curIdx), servers, n)
    {
      result := [];
      if |servers| == 0 || n <= 0 {
        return;
      }
      var key := servers[0].serverType;
      var idx := Cursor(curIdx, key);
      for i := 0 to n
        invariant result == At(servers, Positions(|servers|, idx, i))
        invariant curIdx == old(curIdx)
      {
        result := result + [servers[(idx + i) % |servers|]];
        assert result == At(servers, Positions(|servers|, idx, i + 1));
      }
      curIdx := curIdx[key := (idx + n) % |servers|];
      SelectsGoRound(old(curIdx), servers, n);
    }
  }
}
