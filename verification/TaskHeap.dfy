/** The task queue of scheduler/scheduler.go: Go's container/heap over tasks, highest priority first. */
module TaskHeap {

  datatype Task = Task(id: nat, uid: string, priority: int, expires: int)

  function Parent(i: nat): (p: nat)
    requires i > 0
    ensures p < i
  {
    (i - 1) / 2
  }

  predicate Ordered(h: seq<Task>, i: nat)
    requires 0 < i < |h|
  {
    h[Parent(i)].priority >= h[i].priority
  }

  predicate IsHeap(h: seq<Task>) {
    forall i :: 0 < i < |h| ==> Ordered(h, i)
  }

  function Swap(h: seq<Task>, i: nat, j: nat): seq<Task>
    requires i < |h| && j < |h|
  {
    h[i := h[j]][j := h[i]]
  }

  // ---- heap.Push ----

  /** A heap, except that the entry at j may be too big for its place. */
  ghost predicate HeapButUp(h: seq<Task>, j: nat) {
    && j < |h|
    && (forall i :: 0 < i < |h| && i != j ==> Ordered(h, i))
    && (forall i :: 0 < i < |h| && Parent(i) == j && j > 0 ==> h[Parent(j)].priority >= h[i].priority)
  }

  function Up(h: seq<Task>, j: nat): (r: seq<Task>)
    requires j < |h|
    ensures |r| == |h|
    decreases j
  {
    if j == 0 || h[j].priority <= h[Parent(j)].priority then h
    else Up(Swap(h, Parent(j), j), Parent(j))
  }

  lemma {:induction false} UpRestoresHeap(h: seq<Task>, j: nat)
    requires j < |h|
    ensures multiset(Up(h, j)) == multiset(h)
    ensures HeapButUp(h, j) ==> IsHeap(Up(h, j))
    decreases j
  {
    if j > 0 && h[j].priority > h[Parent(j)].priority {
      SwapUp(h, j);
      UpRestoresHeap(Swap(h, Parent(j), j), Parent(j));
    }
  }

  lemma SwapUp(h: seq<Task>, j: nat)
    requires 0 < j < |h| && h[j].priority > h[Parent(j)].priority
    ensures HeapButUp(h, j) ==> HeapButUp(Swap(h, Parent(j), j), Parent(j))
  {
    if HeapButUp(h, j) {
      var p := Parent(j);
      var r := Swap(h, p, j);
      forall i | 0 < i < |r| && i != p ensures Ordered(r, i) {
        assert i != j ==> Ordered(h, i);
      }
      forall i | 0 < i < |r| && Parent(i) == p && p > 0 ensures r[Parent(p)].priority >= r[i].priority {
        assert Ordered(h, p);
        assert i != j ==> Ordered(h, i);
      }
    }
  }

  function Push(h: seq<Task>, t: Task): (r: seq<Task>)
    ensures |r| == |h| + 1 && multiset(r) == multiset(h) + multiset{t}
    ensures IsHeap(h) ==> IsHeap(r)
  {
    PushedIsHeapButUp(h, t);
    UpRestoresHeap(h + [t], |h|);
    Up(h + [t], |h|)
  }

  lemma PushedIsHeapButUp(h: seq<Task>, t: Task)
    ensures IsHeap(h) ==> HeapButUp(h + [t], |h|)
  {
    if IsHeap(h) {
      var s := h + [t];
      forall i | 0 < i < |h| ensures Ordered(s, i) {
        assert Ordered(h, i);
        assert s[i] == h[i] && s[Parent(i)] == h[Parent(i)];
      }
    }
  }

  // ---- heap.Pop ----

  /** The first n entries form a heap, except that the entry at i may be too small for its place. */
  ghost predicate HeapButDown(h: seq<Task>, i: nat, n: nat) {
    && i < n <= |h|
    && (forall k :: 0 < k < n && Parent(k) != i ==> Ordered(h, k))
    && (forall k :: 0 < k < n && Parent(k) == i && i > 0 ==> h[Parent(i)].priority >= h[k].priority)
  }

  function BiggerChild(h: seq<Task>, i: nat, n: nat): (j: nat)
    requires 2 * i + 1 < n <= |h|
    ensures i < j < n && Parent(j) == i
    ensures forall k :: 0 < k < n && Parent(k) == i ==> h[k].priority <= h[j].priority
  {
    var j := 2 * i + 1;
    if j + 1 < n && h[j + 1].priority > h[j].priority then j + 1 else j
  }

  function Down(h: seq<Task>, i: nat, n: nat): (r: seq<Task>)
    requires i < n <= |h|
    ensures |r| == |h|
    decreases n - i
  {
    if 2 * i + 1 >= n then h
    else
      var j := BiggerChild(h, i, n);
      if h[j].priority <= h[i].priority then h else Down(Swap(h, i, j), j, n)
  }

  lemma {:induction false} DownRestoresHeap(h: seq<Task>, i: nat, n: nat)
    requires i < n <= |h|
    ensures multiset(Down(h, i, n)) == multiset(h)
    ensures forall k :: n <= k < |h| ==> Down(h, i, n)[k] == h[k]
    ensures HeapButDown(h, i, n) ==> forall k :: 0 < k < n ==> Ordered(Down(h, i, n), k)
    decreases n - i
  {
    if 2 * i + 1 < n {
      var j := BiggerChild(h, i, n);
      if h[j].priority > h[i].priority {
        SwapDown(h, i, j, n);
        DownRestoresHeap(Swap(h, i, j), j, n);
      } else {
        forall k | HeapButDown(h, i, n) && 0 < k < n ensures Ordered(h, k) {
          assert Parent(k) == i ==> h[k].priority <= h[j].priority;
        }
      }
    } else {
      assert forall k :: 0 < k < n ==> Parent(k) != i;
    }
  }

  lemma SwapDown(h: seq<Task>, i: nat, j: nat, n: nat)
    requires 2 * i + 1 < n <= |h| && j == BiggerChild(h, i, n) && h[j].priority > h[i].priority
    ensures HeapButDown(h, i, n) ==> HeapButDown(Swap(h, i, j), j, n)
  {
    if HeapButDown(h, i, n) {
      var r := Swap(h, i, j);
      forall k | 0 < k < n && Parent(k) != j ensures Ordered(r, k) {
        assert Parent(k) != i ==> Ordered(h, k);
      }
      forall k | 0 < k < n && Parent(k) == j ensures r[Parent(j)].priority >= r[k].priority {
        assert Ordered(h, k);
      }
    }
  }

  datatype Popped = Popped(task: Task, rest: seq<Task>)

  /** The slice that heap.Pop hands to taskHeap.Pop: the root last, the others a heap again. */
  function RootLast(h: seq<Task>): (d: seq<Task>)
    requires h != []
    ensures |d| == |h|
  {
    var n := |h| - 1;
    if n == 0 then h else Down(Swap(h, 0, n), 0, n)
  }

  lemma {:induction false} RootLastIsHeap(h: seq<Task>)
    requires h != []
    ensures multiset(RootLast(h)) == multiset(h) && RootLast(h)[|h| - 1] == h[0]
    ensures IsHeap(h) ==> forall k :: 0 < k < |h| - 1 ==> Ordered(RootLast(h), k)
  {
    var n := |h| - 1;
    if n > 0 {
      PopSwap(h);
      DownRestoresHeap(Swap(h, 0, n), 0, n);
    }
  }

  function Pop(h: seq<Task>): (r: Popped)
    requires h != []
    ensures r.task == h[0] && |r.rest| == |h| - 1
    ensures multiset(h) == multiset(r.rest) + multiset{r.task}
    ensures IsHeap(h) ==> IsHeap(r.rest)
  {
    var d := RootLast(h);
    RootLastIsHeap(h);
    DropLast(h, d);
    Popped(h[0], d[..|h| - 1])
  }

  lemma DropLast(h: seq<Task>, d: seq<Task>)
    requires h != [] && |d| == |h| && multiset(d) == multiset(h) && d[|h| - 1] == h[0]
    ensures multiset(h) == multiset(d[..|h| - 1]) + multiset{h[0]}
    ensures (forall k :: 0 < k < |h| - 1 ==> Ordered(d, k)) ==> IsHeap(d[..|h| - 1])
  {
    var n := |h| - 1;
    assert d == d[..n] + [h[0]];
    assert forall k :: 0 < k < n && Ordered(d, k) ==> Ordered(d[..n], k);
  }

  lemma PopSwap(h: seq<Task>)
    requires |h| > 1
    ensures IsHeap(h) ==> HeapButDown(Swap(h, 0, |h| - 1), 0, |h| - 1)
  {
    if IsHeap(h) {
      var s := Swap(h, 0, |h| - 1);
      forall k | 0 < k < |h| - 1 && Parent(k) != 0 ensures Ordered(s, k) {
        assert Ordered(h, k);
      }
    }
  }

  /** The root of a heap has the highest priority. */
  lemma {:induction false} RootIsMaximal(h: seq<Task>, k: nat)
    requires IsHeap(h) && k < |h|
    ensures h[k].priority <= h[0].priority
    decreases k
  {
    if k > 0 {
      assert Ordered(h, k);
      RootIsMaximal(h, Parent(k));
    }
  }
}
