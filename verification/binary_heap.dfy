/**
  `BinaryHeap<int, std::less<int>>`: an array-based binary heap kept in a
  vector, with the root at index 0 and the children of `i` at `2i+1` and
  `2i+2`. With `std::less` as the comparator no parent is less than a child,
  so the front is a maximum.

  The vector is a sequence and each member is a method returning the new
  sequence. Element type and comparator are fixed to `int` and `<`, the
  instantiation the demo program uses.
*/
module BinaryHeap {

  function Parent(i: nat): nat
    requires i > 0
  {
    (i - 1) / 2
  }

  /** No parent is `comp`-less than its child. */
  ghost predicate IsHeap(a: seq<int>) {
    forall i :: 0 < i < |a| ==> a[Parent(i)] >= a[i]
  }

  /** The heap property for every child whose parent is at `lo` or below,
      except the children of `hole`. */
  ghost predicate HeapBelowExcept(a: seq<int>, lo: nat, hole: nat) {
    forall i :: 0 < i < |a| && Parent(i) >= lo && Parent(i) != hole ==> a[Parent(i)] >= a[i]
  }

  /** The heap property for every child except `hole` itself. */
  ghost predicate HeapExceptAt(a: seq<int>, hole: nat) {
    forall i :: 0 < i < |a| && i != hole ==> a[Parent(i)] >= a[i]
  }

  /** `std::swap` of two vector elements. */
  function Swap(a: seq<int>, i: nat, j: nat): (r: seq<int>)
    requires i < |a| && j < |a|
    ensures |r| == |a| && r[i] == a[j] && r[j] == a[i]
    ensures forall k :: 0 <= k < |a| && k != i && k != j ==> r[k] == a[k]
    ensures multiset(r) == multiset(a)
  {
    a[i := a[j]][j := a[i]]
  }

  /** The root of a heap is a maximum. */
  lemma {:induction false} HeapMax(a: seq<int>, i: nat)
    requires IsHeap(a) && i < |a|
    decreases i
    ensures a[i] <= a[0]
  {
    if i > 0 {
      HeapMax(a, Parent(i));
    }
  }

  /** `front`: the first element, which no element exceeds. */
  function Front(a: seq<int>): (r: int)
    requires |a| > 0 && IsHeap(a)
    ensures r in a
    ensures forall x :: x in a ==> x <= r
  {
    forall x | x in a
      ensures x <= a[0]
    {
      var i :| 0 <= i < |a| && a[i] == x;
      HeapMax(a, i);
    }
    a[0]
  }

  /** `push`: append, then swap with the parent while the parent is less. */
  method Push(h: seq<int>, x: int) returns (a: seq<int>)
    requires IsHeap(h)
    ensures IsHeap(a)
    ensures |a| == |h| + 1 && multiset(a) == multiset(h) + multiset{x}
  {
    a := h + [x];
    var cur := |a| - 1;
    while cur > 0 && a[Parent(cur)] < a[cur]
      invariant 0 <= cur < |a| == |h| + 1
      invariant multiset(a) == multiset(h) + multiset{x}
      invariant SiftUpInv(a, cur)
      decreases cur
    {
      SiftUpSwap(a, cur);
      var p := Parent(cur);
      a := Swap(a, p, cur);
      cur := p;
    }
  }

  /** What the sift-up loop keeps: the heap property holds except at `cur`,
      and the parent of `cur` dominates the children of `cur`. */
  ghost predicate SiftUpInv(a: seq<int>, cur: nat) {
    && cur < |a|
    && HeapExceptAt(a, cur)
    && (cur > 0 ==> forall i :: 0 < i < |a| && Parent(i) == cur ==> a[Parent(cur)] >= a[i])
  }

  /** Swapping `cur` with a parent that is less moves the hole one level up. */
  lemma SiftUpSwap(a: seq<int>, cur: nat)
    requires SiftUpInv(a, cur) && cur > 0 && a[Parent(cur)] < a[cur]
    ensures SiftUpInv(Swap(a, Parent(cur), cur), Parent(cur))
  {
    var p := Parent(cur);
    var b := Swap(a, p, cur);
    forall i | 0 < i < |b| && i != p
      ensures b[Parent(i)] >= b[i]
    {
      if i == cur {
      } else if Parent(i) == cur {
      } else if Parent(i) == p {
        assert a[p] >= a[i];
      } else {
        assert a[Parent(i)] >= a[i];
      }
    }
    if p > 0 {
      forall i | 0 < i < |b| && Parent(i) == p
        ensures b[Parent(p)] >= b[i]
      {
        assert a[Parent(p)] >= a[p];
        if i != cur {
          assert a[p] >= a[i];
        }
      }
    }
  }

  /** What the sift-down loop keeps: the subtree of `root` is a heap except
      below `cur`, and the parent of `cur` dominates the children of `cur`. */
  ghost predicate SiftInv(a: seq<int>, root: nat, cur: nat) {
    && root <= cur < |a|
    && HeapBelowExcept(a, root, cur)
    && (cur > root ==> Parent(cur) >= root && forall i :: 0 < i < |a| && Parent(i) == cur ==> a[Parent(cur)] >= a[i])
  }

  /** `son` is the larger child of `cur`. */
  ghost predicate LargerSon(a: seq<int>, cur: nat, son: nat) {
    && 2 * cur + 1 <= son <= 2 * cur + 2 && son < |a|
    && forall i :: 0 < i < |a| && Parent(i) == cur ==> a[i] <= a[son]
  }

  /** The child of `cur` that sift-down compares against: the right one
      only when it exists and the left one is less. */
  function LargerChild(a: seq<int>, cur: nat): (son: nat)
    requires 2 * cur + 1 < |a|
    ensures LargerSon(a, cur, son)
  {
    var left := 2 * cur + 1;
    if left + 1 < |a| && a[left] < a[left + 1] then left + 1 else left
  }

  /** Swapping `cur` with its larger son when `cur` is less moves the hole
      one level down. */
  lemma SiftSwap(a: seq<int>, root: nat, cur: nat, son: nat)
    requires SiftInv(a, root, cur) && LargerSon(a, cur, son) && a[cur] < a[son]
    ensures SiftInv(Swap(a, cur, son), root, son)
  {
    var b := Swap(a, cur, son);
    assert Parent(son) == cur;
    forall i | 0 < i < |b| && Parent(i) >= root && Parent(i) != son
      ensures b[Parent(i)] >= b[i]
    {
      if Parent(i) == cur {
      } else if i == cur {
      } else {
        assert a[Parent(i)] >= a[i];
      }
    }
  }

  /** When `cur` is no less than its larger son, the subtree is a heap. */
  lemma SiftStop(a: seq<int>, root: nat, cur: nat, son: nat)
    requires SiftInv(a, root, cur) && LargerSon(a, cur, son) && a[cur] >= a[son]
    ensures HeapBelowExcept(a, root, |a|)
  {
  }

  /** The sift-down loop of `pop` and `build_heap`, started at `root`: while
      `cur` has a child, swap it with its larger child if it is less. */
  method SiftDown(a0: seq<int>, root: nat) returns (a: seq<int>)
    requires root < |a0| && HeapBelowExcept(a0, root, root)
    ensures |a| == |a0| && multiset(a) == multiset(a0)
    ensures HeapBelowExcept(a, root, |a|)
    ensures forall k :: 0 <= k < root ==> a[k] == a0[k]
  {
    a := a0;
    var cur := root;
    while 2 * cur + 1 < |a|
      invariant |a| == |a0| && multiset(a) == multiset(a0) && SiftInv(a, root, cur)
      invariant forall k :: 0 <= k < root ==> a[k] == a0[k]
      decreases |a| - cur
    {
      var son := LargerChild(a, cur);
      if a[cur] < a[son] {
        SiftSwap(a, root, cur, son);
        a := Swap(a, cur, son);
        cur := son;
      } else {
        SiftStop(a, root, cur, son);
        return;
      }
    }
  }

  /** Overwriting the front with the last element and dropping the last
      slot removes one occurrence of the front. */
  lemma MoveLastToFront(h: seq<int>)
    requires |h| > 0
    ensures multiset(h[0 := h[|h| - 1]][..|h| - 1]) == multiset(h) - multiset{h[0]}
  {
    var n := |h|;
    var moved := h[0 := h[n - 1]][..n - 1];
    if n == 1 {
      assert moved == [];
    } else {
      assert moved == [h[n - 1]] + h[1..n - 1];
      assert h == [h[0]] + h[1..n - 1] + [h[n - 1]];
    }
  }

  /** `pop`: nothing on an empty heap; otherwise the last element replaces
      the front and sifts down. */
  method Pop(h: seq<int>) returns (a: seq<int>)
    requires IsHeap(h)
    ensures |h| == 0 ==> a == h
    ensures |h| > 0 ==> IsHeap(a) && |a| == |h| - 1 && multiset(a) == multiset(h) - multiset{h[0]}
  {
    if |h| == 0 {
      return h;
    }
    var moved := h[0 := h[|h| - 1]][..|h| - 1];
    assert h[0 := h[|h| - 1]] == moved + [h[|h| - 1]];
    assert multiset(h[0 := h[|h| - 1]]) == multiset(h) - multiset{h[0]} + multiset{h[|h| - 1]};
    MoveLastToFront(h);
    if |moved| == 0 {
      return moved;
    }
    a := SiftDown(moved, 0);
  }

  /** `build_heap`: sift down from every index, last to first. The vector
      must be non-empty, because `size() - 1` wraps otherwise. */
  method BuildHeap(h: seq<int>) returns (a: seq<int>)
    requires |h| > 0
    ensures IsHeap(a) && |a| == |h| && multiset(a) == multiset(h)
  {
    a := h;
    var i := |h| - 1;
    while true
      invariant 0 <= i < |a| == |h| && multiset(a) == multiset(h)
      invariant HeapBelowExcept(a, i + 1, |a|)
      decreases i
    {
      a := SiftDown(a, i);
      if i == 0 {
        break;
      }
      i := i - 1;
    }
  }

  /*---------------------------------------------------------------------------
    The demo program: push 1..20, then read and pop twenty times.
  ---------------------------------------------------------------------------*/

  /** `lo, lo+1, ..., hi`. */
  function Range(lo: int, hi: int): (r: seq<int>)
    decreases hi - lo
    ensures |r| == if hi < lo then 0 else hi - lo + 1
  {
    if lo > hi then [] else Range(lo, hi - 1) + [hi]
  }

  /** `Range(lo, hi)` holds exactly the integers between its bounds. */
  lemma {:induction false} RangeMembers(lo: int, hi: int, x: int)
    decreases hi - lo
    ensures x in Range(lo, hi) <==> lo <= x <= hi
  {
    if lo <= hi {
      RangeMembers(lo, hi - 1, x);
    }
  }

  /** `hi, hi-1, ..., lo`. */
  function Countdown(hi: int, lo: int): (r: seq<int>)
    decreases hi - lo
    ensures |r| == if hi < lo then 0 else hi - lo + 1
  {
    if hi < lo then [] else Countdown(hi, lo + 1) + [lo]
  }

  /** `Countdown(hi, lo)` holds `hi, hi-1, ..., lo` in that order. */
  lemma {:induction false} CountdownAt(hi: int, lo: int)
    decreases hi - lo
    ensures forall k :: 0 <= k < |Countdown(hi, lo)| ==> Countdown(hi, lo)[k] == hi - k
  {
    if lo <= hi {
      CountdownAt(hi, lo + 1);
    }
  }

  /** A heap holding exactly `1..m` has `m` in front, and popping it leaves
      exactly `1..m-1`. */
  lemma FrontOfRange(h: seq<int>, m: int)
    requires m > 0 && |h| > 0 && IsHeap(h) && multiset(h) == multiset(Range(1, m))
    ensures Front(h) == m
    ensures multiset(h) - multiset{h[0]} == multiset(Range(1, m - 1))
  {
    RangeMembers(1, m, m);
    assert m in multiset(h);
    assert m in h;
    var top := Front(h);
    assert top in multiset(Range(1, m));
    RangeMembers(1, m, top);
    assert top == m;
    assert Range(1, m) == Range(1, m - 1) + [m];
  }

  /** The first half of the demo: push `1..n` into an empty heap. */
  method PushAll(n: nat) returns (h: seq<int>)
    ensures IsHeap(h) && multiset(h) == multiset(Range(1, n))
  {
    h := [];
    var i := 1;
    while i <= n
      invariant 1 <= i <= n + 1 && IsHeap(h) && multiset(h) == multiset(Range(1, i - 1))
    {
      h := Push(h, i);
      assert Range(1, i) == Range(1, i - 1) + [i];
      i := i + 1;
    }
  }

  /** The second half: read the front and pop until the heap holding
      `1..n` is empty. */
  method DrainAll(h0: seq<int>, n: nat) returns (out: seq<int>)
    requires IsHeap(h0) && multiset(h0) == multiset(Range(1, n))
    ensures out == Countdown(n, 1)
  {
    var h := h0;
    out := [];
    var m := n;
    while m > 0
      invariant 0 <= m <= n && IsHeap(h) && multiset(h) == multiset(Range(1, m))
      invariant out + Countdown(m, 1) == Countdown(n, 1)
    {
      var top, next := FrontThenPop(h, m);
      CountdownFront(m);
      AppendAssoc(out, [top], Countdown(m - 1, 1));
      h, out, m := next, out + [top], m - 1;
    }
    assert Countdown(0, 1) == [];
  }

  /** One round of the demo's second loop on a heap holding `1..m`: read
      the front, which is `m`, then pop, which leaves `1..m-1`. */
  method FrontThenPop(h: seq<int>, m: int) returns (top: int, next: seq<int>)
    requires m > 0 && IsHeap(h) && multiset(h) == multiset(Range(1, m))
    ensures top == m && IsHeap(next) && multiset(next) == multiset(Range(1, m - 1))
  {
    RangeNotEmpty(h, m);
    top := Front(h);
    next := Pop(h);
    PopRange(h, next, m);
  }

  /** Popping a heap holding `1..m` yields `m` and leaves `1..m-1`. */
  lemma PopRange(h: seq<int>, a: seq<int>, m: int)
    requires m > 0 && |h| > 0 && IsHeap(h) && multiset(h) == multiset(Range(1, m))
    requires multiset(a) == multiset(h) - multiset{h[0]}
    ensures Front(h) == m && multiset(a) == multiset(Range(1, m - 1))
  {
    FrontOfRange(h, m);
  }

  /** A sequence holding `1..m`, `m > 0`, is not empty. */
  lemma RangeNotEmpty(h: seq<int>, m: int)
    requires m > 0 && multiset(h) == multiset(Range(1, m))
    ensures |h| > 0
  {
    assert |multiset(h)| == |Range(1, m)| == m;
  }

  /** Regrouping a concatenation; stated apart so that the loop of
      `DrainAll` need not reassociate its output sequence itself. */
  lemma AppendAssoc(a: seq<int>, b: seq<int>, c: seq<int>)
    ensures a + (b + c) == (a + b) + c
  {
  }

  /** Counting down from `hi` starts with `hi`. */
  lemma CountdownFront(hi: int)
    requires hi >= 1
    ensures Countdown(hi, 1) == [hi] + Countdown(hi - 1, 1)
  {
    var r, t := Countdown(hi, 1), Countdown(hi - 1, 1);
    CountdownAt(hi, 1);
    CountdownAt(hi - 1, 1);
    assert |r| == |[hi] + t|;
    forall k | 0 <= k < |r|
      ensures r[k] == ([hi] + t)[k]
    {
      if k > 0 {
        assert ([hi] + t)[k] == t[k - 1];
      }
    }
  }

  /** The demo with `n` in place of 20: the fronts read after pushing
      `1..n` come out as `n, n-1, ..., 1`. */
  method PushThenDrain(n: nat) returns (out: seq<int>)
    ensures out == Countdown(n, 1)
  {
    var h := PushAll(n);
    out := DrainAll(h, n);
  }
}
