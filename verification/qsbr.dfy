/**
  Quiescent-state-based reclamation (QSBR), single-header variant.

  Every registered thread owns one slot holding a 32-bit epoch counter and a
  private list of retired values. An odd epoch means "inside a critical
  zone". Retiring a value records, for every thread that is in a critical
  zone at that instant, the pair (slot index, epoch masked to 16 bits). A
  later local reclamation frees a retired value once none of its recorded
  pairs still matches the corresponding thread's current masked epoch.

  The model is sequential: each atomic is a plain field, the thread-local
  registration table is an explicit map from thread identity to slot index,
  and the deleter is represented by the sequence of retired nodes it is
  called on.
*/
module Qsbr {
  import opened Wrappers

  type ThreadId = nat

  /** `epoch_t_` is `uint32_t`: `fetch_add(1)` wraps modulo 2^32. */
  const EPOCH_MOD: nat := 0x1_0000_0000
  /** `EPOCH_MASK` keeps the low 16 bits (`masked_epoch_t` is `uint16_t`). */
  const MASK_MOD: nat := 0x1_0000
  /** `static_assert(ThreadCnt <= numeric_limits<uint16_t>::max())`. */
  const MAX_THREAD_CNT: nat := 0xFFFF

  /** `epoch & EPOCH_MASK`. */
  function Mask(epoch: nat): (r: nat)
    ensures r < MASK_MOD
    ensures r % 2 == epoch % 2
  {
    epoch % MASK_MOD
  }

  /** An odd epoch means the thread is inside a critical zone. */
  predicate IsCriticalEpoch(epoch: nat) {
    epoch % 2 == 1
  }

  /** One entry of a critical snapshot: a slot index and its masked epoch. */
  datatype Captured = Captured(idx: nat, epoch: nat)

  /** A retired value together with the critical snapshot taken when it was
      retired. */
  datatype RetiredNode<V> = RetiredNode(val: V, snapshot: seq<Captured>)

  /** `RetiredContext`: the retired list (head first) and its counter. */
  datatype RetiredContext<V> = RetiredContext(nodes: seq<RetiredNode<V>>, cnt: nat)

  /** Every captured slot index of the node is below `bound`. */
  ghost predicate NodeBelow<V>(n: RetiredNode<V>, bound: nat) {
    forall k :: 0 <= k < |n.snapshot| ==> n.snapshot[k].idx < bound
  }

  /** Every captured slot index of every node is below `bound`. */
  ghost predicate SnapshotsBelow<V>(nodes: seq<RetiredNode<V>>, bound: nat) {
    forall i :: 0 <= i < |nodes| ==> NodeBelow(nodes[i], bound)
  }

  /*---------------------------------------------------------------------------
    RetiredContext
  ---------------------------------------------------------------------------*/

  /** `RetiredContext::Retire`: push a new node at the head, count one more. */
  function CtxRetire<V>(c: RetiredContext<V>, val: V, snapshot: seq<Captured>): (r: RetiredContext<V>)
    ensures |r.nodes| == |c.nodes| + 1 && r.cnt == c.cnt + 1
    ensures r.nodes[0] == RetiredNode(val, snapshot) && r.nodes[1..] == c.nodes
  {
    RetiredContext([RetiredNode(val, snapshot)] + c.nodes, c.cnt + 1)
  }

  /** The inner loop of `Reclaim`: scan the snapshot for a pair whose slot
      still shows the captured masked epoch. */
  function AnyMatch(snapshot: seq<Captured>, latest: seq<nat>): (r: bool)
    requires forall k :: 0 <= k < |snapshot| ==> snapshot[k].idx < |latest|
    ensures r <==> exists k :: 0 <= k < |snapshot| && latest[snapshot[k].idx] == snapshot[k].epoch
  {
    if |snapshot| == 0 then false
    else if latest[snapshot[0].idx] == snapshot[0].epoch then true
    else
      assert forall k :: 1 <= k < |snapshot| ==> snapshot[1..][k - 1] == snapshot[k];
      AnyMatch(snapshot[1..], latest)
  }

  /** A node is unsafe to free while some captured thread has not moved on. */
  predicate IsUnsafe<V>(n: RetiredNode<V>, latest: seq<nat>)
    requires forall k :: 0 <= k < |n.snapshot| ==> n.snapshot[k].idx < |latest|
  {
    AnyMatch(n.snapshot, latest)
  }

  /** Reference definition: the unsafe nodes, in list order. */
  function UnsafeNodes<V>(nodes: seq<RetiredNode<V>>, latest: seq<nat>): (r: seq<RetiredNode<V>>)
    requires SnapshotsBelow(nodes, |latest|)
  {
    if |nodes| == 0 then []
    else if IsUnsafe(nodes[0], latest) then [nodes[0]] + UnsafeNodes(nodes[1..], latest)
    else UnsafeNodes(nodes[1..], latest)
  }

  /** Reference definition: the safe nodes, in list order. */
  function SafeNodes<V>(nodes: seq<RetiredNode<V>>, latest: seq<nat>): (r: seq<RetiredNode<V>>)
    requires SnapshotsBelow(nodes, |latest|)
  {
    if |nodes| == 0 then []
    else if IsUnsafe(nodes[0], latest) then SafeNodes(nodes[1..], latest)
    else [nodes[0]] + SafeNodes(nodes[1..], latest)
  }

  /** The walk of `Reclaim`: `kept` is the rebuilt list, onto whose head each
      unsafe node is pushed; `deleted` lists the deleter's calls in order;
      `unsafeCnt` counts the kept nodes. */
  function ReclaimWalk<V>(rest: seq<RetiredNode<V>>, latest: seq<nat>,
                          kept: seq<RetiredNode<V>>, deleted: seq<RetiredNode<V>>, unsafeCnt: nat)
    : (r: (seq<RetiredNode<V>>, seq<RetiredNode<V>>, nat))
    requires SnapshotsBelow(rest, |latest|)
    ensures r.0 == Reverse(UnsafeNodes(rest, latest)) + kept
    ensures r.1 == deleted + SafeNodes(rest, latest)
    ensures r.2 == unsafeCnt + |UnsafeNodes(rest, latest)|
  {
    if |rest| == 0 then (kept, deleted, unsafeCnt)
    else
      ReclaimTail(rest, latest);
      if IsUnsafe(rest[0], latest) then
        ReclaimKeep(rest, latest, kept);
        ReclaimWalk(rest[1..], latest, [rest[0]] + kept, deleted, unsafeCnt + 1)
      else
        ReclaimDrop(rest, latest, deleted);
        ReclaimWalk(rest[1..], latest, kept, deleted + [rest[0]], unsafeCnt)
  }

  lemma ReclaimTail<V>(rest: seq<RetiredNode<V>>, latest: seq<nat>)
    requires SnapshotsBelow(rest, |latest|) && |rest| > 0
    ensures NodeBelow(rest[0], |latest|) && SnapshotsBelow(rest[1..], |latest|)
  {
    assert NodeBelow(rest[0], |latest|);
    assert forall i :: 0 <= i < |rest| - 1 ==> rest[1..][i] == rest[i + 1];
  }

  /** An unsafe head goes in front of `kept` and on the unsafe list. */
  lemma ReclaimKeep<V>(rest: seq<RetiredNode<V>>, latest: seq<nat>, kept: seq<RetiredNode<V>>)
    requires SnapshotsBelow(rest, |latest|) && |rest| > 0
    requires NodeBelow(rest[0], |latest|) && SnapshotsBelow(rest[1..], |latest|) && IsUnsafe(rest[0], latest)
    ensures Reverse(UnsafeNodes(rest[1..], latest)) + ([rest[0]] + kept) == Reverse(UnsafeNodes(rest, latest)) + kept
    ensures SafeNodes(rest[1..], latest) == SafeNodes(rest, latest)
    ensures |UnsafeNodes(rest, latest)| == |UnsafeNodes(rest[1..], latest)| + 1
  {
    var u := UnsafeNodes(rest[1..], latest);
    assert UnsafeNodes(rest, latest) == [rest[0]] + u;
    assert ([rest[0]] + u)[1..] == u;
    assert Reverse([rest[0]] + u) == Reverse(u) + [rest[0]];
    assert Reverse(u) + ([rest[0]] + kept) == (Reverse(u) + [rest[0]]) + kept;
  }

  /** A safe head goes after `deleted` and on the safe list. */
  lemma ReclaimDrop<V>(rest: seq<RetiredNode<V>>, latest: seq<nat>, deleted: seq<RetiredNode<V>>)
    requires SnapshotsBelow(rest, |latest|) && |rest| > 0
    requires NodeBelow(rest[0], |latest|) && SnapshotsBelow(rest[1..], |latest|) && !IsUnsafe(rest[0], latest)
    ensures UnsafeNodes(rest[1..], latest) == UnsafeNodes(rest, latest)
    ensures (deleted + [rest[0]]) + SafeNodes(rest[1..], latest) == deleted + SafeNodes(rest, latest)
  {
    var t := SafeNodes(rest[1..], latest);
    assert SafeNodes(rest, latest) == [rest[0]] + t;
    assert (deleted + [rest[0]]) + t == deleted + ([rest[0]] + t);
  }

  /** The outcome of a reclamation pass: the new retired context and the
      nodes whose values were handed to the deleter, in call order. */
  datatype Reclaimed<V> = Reclaimed(ctx: RetiredContext<V>, deleted: seq<RetiredNode<V>>)

  /** `RetiredContext::Reclaim`: detach the list, reset the counter, keep the
      unsafe nodes (re-linked head first, so their order is reversed), call
      the deleter on the rest, and add the number kept back to the counter. */
  function CtxReclaim<V>(c: RetiredContext<V>, latest: seq<nat>): (r: Reclaimed<V>)
    requires SnapshotsBelow(c.nodes, |latest|)
    ensures r.ctx.nodes == Reverse(UnsafeNodes(c.nodes, latest))
    ensures r.deleted == SafeNodes(c.nodes, latest)
    ensures r.ctx.cnt == |r.ctx.nodes|
  {
    var (kept, deleted, unsafeCnt) := ReclaimWalk(c.nodes, latest, [], [], 0);
    Reclaimed(RetiredContext(kept, 0 + unsafeCnt), deleted)
  }

  lemma {:induction false} UnsafeNodesAreUnsafe<V>(nodes: seq<RetiredNode<V>>, latest: seq<nat>)
    requires SnapshotsBelow(nodes, |latest|)
    ensures forall n :: n in UnsafeNodes(nodes, latest) ==> n in nodes && NodeBelow(n, |latest|) && IsUnsafe(n, latest)
    ensures forall n :: n in SafeNodes(nodes, latest) ==> n in nodes && NodeBelow(n, |latest|) && !IsUnsafe(n, latest)
    ensures multiset(UnsafeNodes(nodes, latest)) + multiset(SafeNodes(nodes, latest)) == multiset(nodes)
  {
    if |nodes| > 0 {
      assert SnapshotsBelow(nodes[1..], |latest|);
      UnsafeNodesAreUnsafe(nodes[1..], latest);
      assert nodes == [nodes[0]] + nodes[1..];
    }
  }

  /** The reclaim partition: every kept node is still unsafe, every deleted
      node is safe, and together they are exactly the former list, each node
      once. */
  lemma ReclaimPartition<V>(c: RetiredContext<V>, latest: seq<nat>)
    requires SnapshotsBelow(c.nodes, |latest|)
    ensures forall n :: n in CtxReclaim(c, latest).ctx.nodes ==> NodeBelow(n, |latest|) && IsUnsafe(n, latest)
    ensures forall n :: n in CtxReclaim(c, latest).deleted ==> NodeBelow(n, |latest|) && !IsUnsafe(n, latest)
    ensures multiset(CtxReclaim(c, latest).ctx.nodes) + multiset(CtxReclaim(c, latest).deleted) == multiset(c.nodes)
  {
    UnsafeNodesAreUnsafe(c.nodes, latest);
    ReverseMultiset(UnsafeNodes(c.nodes, latest));
  }

  lemma {:induction false} AllUnsafeKept<V>(nodes: seq<RetiredNode<V>>, latest: seq<nat>)
    requires SnapshotsBelow(nodes, |latest|)
    requires forall i :: 0 <= i < |nodes| ==> IsUnsafe(nodes[i], latest)
    ensures UnsafeNodes(nodes, latest) == nodes
    ensures SafeNodes(nodes, latest) == []
  {
    if |nodes| > 0 {
      assert SnapshotsBelow(nodes[1..], |latest|);
      AllUnsafeKept(nodes[1..], latest);
    }
  }

  /** A second reclamation against the same latest snapshot deletes nothing;
      it keeps the same nodes (re-reversed) and the same count. */
  lemma ReclaimIdempotent<V>(c: RetiredContext<V>, latest: seq<nat>)
    requires SnapshotsBelow(c.nodes, |latest|)
    ensures SnapshotsBelow(CtxReclaim(c, latest).ctx.nodes, |latest|)
    ensures CtxReclaim(CtxReclaim(c, latest).ctx, latest).deleted == []
    ensures multiset(CtxReclaim(CtxReclaim(c, latest).ctx, latest).ctx.nodes) == multiset(CtxReclaim(c, latest).ctx.nodes)
    ensures CtxReclaim(CtxReclaim(c, latest).ctx, latest).ctx.cnt == CtxReclaim(c, latest).ctx.cnt
  {
    var once := CtxReclaim(c, latest).ctx.nodes;
    UnsafeNodesAreUnsafe(c.nodes, latest);
    forall i, k | 0 <= i < |once| && 0 <= k < |once[i].snapshot|
      ensures once[i].snapshot[k].idx < |latest|
    {
      assert once[i] in UnsafeNodes(c.nodes, latest);
      var j :| 0 <= j < |c.nodes| && c.nodes[j] == once[i];
    }
    forall i | 0 <= i < |once| ensures IsUnsafe(once[i], latest) {
      assert once[i] in UnsafeNodes(c.nodes, latest);
    }
    AllUnsafeKept(once, latest);
    ReverseMultiset(once);
  }

  /** Snapshot soundness at the list level: a node some of whose captured
      threads still show the captured epoch survives reclamation, and a node
      none of whose captured threads do is handed to the deleter. */
  lemma ReclaimKeepsExactlyUnsafe<V>(c: RetiredContext<V>, latest: seq<nat>, i: nat)
    requires SnapshotsBelow(c.nodes, |latest|)
    requires i < |c.nodes|
    ensures (exists k :: 0 <= k < |c.nodes[i].snapshot| && latest[c.nodes[i].snapshot[k].idx] == c.nodes[i].snapshot[k].epoch)
            ==> c.nodes[i] in CtxReclaim(c, latest).ctx.nodes
    ensures (forall k :: 0 <= k < |c.nodes[i].snapshot| ==> latest[c.nodes[i].snapshot[k].idx] != c.nodes[i].snapshot[k].epoch)
            ==> c.nodes[i] in CtxReclaim(c, latest).deleted
  {
    var n := c.nodes[i];
    var r := CtxReclaim(c, latest);
    if IsUnsafe(n, latest) {
      assert n in UnsafeNodes(c.nodes, latest) by { InUnsafe(c.nodes, latest, i); }
      ReverseMultiset(UnsafeNodes(c.nodes, latest));
      assert n in multiset(r.ctx.nodes);
    } else {
      InSafe(c.nodes, latest, i);
    }
  }

  lemma {:induction false} InUnsafe<V>(nodes: seq<RetiredNode<V>>, latest: seq<nat>, i: nat)
    requires SnapshotsBelow(nodes, |latest|)
    requires i < |nodes| && IsUnsafe(nodes[i], latest)
    ensures nodes[i] in UnsafeNodes(nodes, latest)
  {
    if i > 0 {
      assert SnapshotsBelow(nodes[1..], |latest|);
      InUnsafe(nodes[1..], latest, i - 1);
    }
  }

  lemma {:induction false} InSafe<V>(nodes: seq<RetiredNode<V>>, latest: seq<nat>, i: nat)
    requires SnapshotsBelow(nodes, |latest|)
    requires i < |nodes| && !IsUnsafe(nodes[i], latest)
    ensures nodes[i] in SafeNodes(nodes, latest)
  {
    if i > 0 {
      assert SnapshotsBelow(nodes[1..], |latest|);
      InSafe(nodes[1..], latest, i - 1);
    }
  }

  /*---------------------------------------------------------------------------
    QSBRManager
  ---------------------------------------------------------------------------*/

  /** The manager: `ThreadCnt`, the per-slot epochs and retired contexts,
      the registration counter `next_ctx_idx_`, and this manager's entries
      of the thread-local registration table. */
  datatype Manager<V> = Manager(
    threadCnt: nat,
    epochs: seq<nat>,
    ctxs: seq<RetiredContext<V>>,
    nextIdx: nat,
    tls: map<ThreadId, nat>)

  /** A manager operation's result value and the manager afterwards. */
  datatype Out<R, V> = Out(res: R, mgr: Manager<V>)

  ghost predicate Valid<V>(m: Manager<V>) {
    && m.threadCnt <= MAX_THREAD_CNT
    && |m.epochs| == m.threadCnt
    && |m.ctxs| == m.threadCnt
    && m.nextIdx <= m.threadCnt
    && (forall i :: 0 <= i < m.threadCnt ==> m.epochs[i] < EPOCH_MOD)
    // registration hands out 0 .. nextIdx-1, each to exactly one thread
    && |m.tls| == m.nextIdx
    && (forall t :: t in m.tls ==> m.tls[t] < m.nextIdx)
    && (forall t1, t2 :: t1 in m.tls && t2 in m.tls && t1 != t2 ==> m.tls[t1] != m.tls[t2])
    // slots nobody has claimed are untouched
    && (forall i :: m.nextIdx <= i < m.threadCnt ==> m.epochs[i] == 0 && m.ctxs[i].nodes == [])
    // snapshots only ever name registered slots
    && (forall i :: 0 <= i < m.threadCnt ==> SnapshotsBelow(m.ctxs[i].nodes, m.nextIdx))
  }

  /** The constructor: every epoch starts at 0 and nobody is registered. */
  function NewManager<V>(threadCnt: nat): (m: Manager<V>)
    requires threadCnt <= MAX_THREAD_CNT
    ensures Valid(m)
    ensures |m.epochs| == threadCnt
    ensures forall i :: 0 <= i < threadCnt ==> m.epochs[i] == 0
    ensures m.nextIdx == 0 && m.tls == map[]
  {
    Manager(threadCnt, seq(threadCnt, _ => 0), seq(threadCnt, _ => RetiredContext([], 0)), 0, map[])
  }

  /** `GetContext`: a thread already in the table gets its slot back; a new
      thread claims slot `next_ctx_idx_` unless all `ThreadCnt` are taken. */
  function GetContext<V>(m: Manager<V>, t: ThreadId): (r: Out<Option<nat>, V>)
    requires Valid(m)
    ensures Valid(r.mgr)
    ensures r.res.Some? ==> r.res.value < m.threadCnt && t in r.mgr.tls && r.mgr.tls[t] == r.res.value
    ensures t in m.tls ==> r.res == Some(m.tls[t])
    ensures t !in m.tls && m.nextIdx < m.threadCnt ==> r.res == Some(m.nextIdx)
    ensures r.res.None? <==> t !in m.tls && m.nextIdx == m.threadCnt
    ensures r.res.None? ==> r.mgr == m
    ensures r.mgr.epochs == m.epochs && r.mgr.ctxs == m.ctxs && r.mgr.threadCnt == m.threadCnt
    ensures forall u :: u in m.tls ==> u in r.mgr.tls && r.mgr.tls[u] == m.tls[u]
  {
    if t in m.tls then Out(Some(m.tls[t]), m)
    else if m.nextIdx >= m.threadCnt then Out(None, m)
    else
      var m' := m.(nextIdx := m.nextIdx + 1, tls := m.tls[t := m.nextIdx]);
      assert forall i :: 0 <= i < m.threadCnt ==> SnapshotsBelow(m'.ctxs[i].nodes, m'.nextIdx) by {
        forall i | 0 <= i < m.threadCnt ensures SnapshotsBelow(m'.ctxs[i].nodes, m'.nextIdx) {
          assert SnapshotsBelow(m.ctxs[i].nodes, m.nextIdx);
        }
      }
      Out(Some(m.nextIdx), m')
  }

  /** `SnapshotCriticalEpochs`, from slot `i` up to `next_ctx_idx_`. */
  function CriticalFrom<V>(m: Manager<V>, i: nat): (r: seq<Captured>)
    requires Valid(m) && i <= m.nextIdx
    decreases m.nextIdx - i
    ensures forall k :: 0 <= k < |r| ==> i <= r[k].idx < m.nextIdx
    ensures forall k :: 0 <= k < |r| ==> r[k].epoch == Mask(m.epochs[r[k].idx]) && IsCriticalEpoch(r[k].epoch)
    ensures forall k, l :: 0 <= k < l < |r| ==> r[k].idx < r[l].idx
  {
    if i == m.nextIdx then []
    else
      var e := Mask(m.epochs[i]);
      var rest := CriticalFrom(m, i + 1);
      if IsCriticalEpoch(e) then [Captured(i, e)] + rest else rest
  }

  lemma {:induction false} CriticalFromComplete<V>(m: Manager<V>, i: nat, j: nat)
    requires Valid(m) && i <= j < m.nextIdx && IsCriticalEpoch(m.epochs[j])
    decreases m.nextIdx - i
    ensures Captured(j, Mask(m.epochs[j])) in CriticalFrom(m, i)
  {
    if j > i {
      CriticalFromComplete(m, i + 1, j);
    }
  }

  /** `SnapshotCriticalEpochs`: in ascending slot order, exactly the pairs
      (i, masked epoch of i) of registered slots whose epoch is odd. */
  function SnapshotCritical<V>(m: Manager<V>): (r: seq<Captured>)
    requires Valid(m)
    ensures forall k :: 0 <= k < |r| ==> r[k].idx < m.nextIdx
    ensures forall k :: 0 <= k < |r| ==> r[k].epoch == Mask(m.epochs[r[k].idx]) && IsCriticalEpoch(r[k].epoch)
    ensures forall k, l :: 0 <= k < l < |r| ==> r[k].idx < r[l].idx
    ensures forall j :: 0 <= j < m.nextIdx && IsCriticalEpoch(m.epochs[j]) ==> Captured(j, Mask(m.epochs[j])) in r
  {
    forall j | 0 <= j < m.nextIdx && IsCriticalEpoch(m.epochs[j])
      ensures Captured(j, Mask(m.epochs[j])) in CriticalFrom(m, 0)
    {
      CriticalFromComplete(m, 0, j);
    }
    CriticalFrom(m, 0)
  }

  /** `SnapshotFullEpochs`: a `ThreadCnt`-sized array, masked epoch for each
      registered slot and the zero-initialised value for the others. */
  function SnapshotFull<V>(m: Manager<V>): (r: seq<nat>)
    requires Valid(m)
    ensures |r| == m.threadCnt
    ensures forall i :: 0 <= i < m.nextIdx ==> r[i] == Mask(m.epochs[i])
    ensures forall i :: m.nextIdx <= i < m.threadCnt ==> r[i] == 0
  {
    seq(m.threadCnt, i requires 0 <= i < m.threadCnt => if i < m.nextIdx then Mask(m.epochs[i]) else 0)
  }

  /** A critical snapshot and a full snapshot taken of the same state agree:
      every captured pair still matches, so a node retired now is unsafe
      against that state whenever anyone was in a critical zone. */
  lemma SnapshotsAgree<V>(m: Manager<V>)
    requires Valid(m)
    ensures forall k :: 0 <= k < |SnapshotCritical(m)| ==>
              SnapshotFull(m)[SnapshotCritical(m)[k].idx] == SnapshotCritical(m)[k].epoch
    ensures |SnapshotCritical(m)| > 0 ==> AnyMatch(SnapshotCritical(m), SnapshotFull(m))
  {
    var c := SnapshotCritical(m);
    if |c| > 0 {
      assert SnapshotFull(m)[c[0].idx] == c[0].epoch;
    }
  }

  /** `fetch_add(1)` on a `uint32_t` epoch: one step, wrapping to 0, and
      always flipping the parity (2^32 is even). */
  function NextEpoch(e: nat): (r: nat)
    requires e < EPOCH_MOD
    ensures r < EPOCH_MOD
    ensures r % 2 != e % 2
    ensures e + 1 < EPOCH_MOD ==> r == e + 1
    ensures e + 1 == EPOCH_MOD ==> r == 0
  {
    (e + 1) % EPOCH_MOD
  }

  /** Advance slot `i`'s epoch by one. */
  function BumpEpoch<V>(m: Manager<V>, i: nat): (r: Manager<V>)
    requires Valid(m) && i < m.nextIdx
    ensures Valid(r)
    ensures r.epochs == m.epochs[i := NextEpoch(m.epochs[i])]
    ensures r.ctxs == m.ctxs && r.nextIdx == m.nextIdx && r.tls == m.tls && r.threadCnt == m.threadCnt
  {
    m.(epochs := m.epochs[i := NextEpoch(m.epochs[i])])
  }

  /** Replacing a registered slot's retired context keeps the manager valid
      as long as the new snapshots name registered slots only. */
  lemma ReplaceCtxValid<V>(m: Manager<V>, i: nat, c: RetiredContext<V>)
    requires Valid(m) && i < m.nextIdx && SnapshotsBelow(c.nodes, m.nextIdx)
    ensures Valid(m.(ctxs := m.ctxs[i := c]))
  {
  }

  /** `EnterCriticalZone`: bump the caller's epoch; succeed iff it was even. */
  function Enter<V>(m: Manager<V>, t: ThreadId): (r: Out<bool, V>)
    requires Valid(m)
    ensures Valid(r.mgr)
    ensures r.mgr.tls == GetContext(m, t).mgr.tls && r.mgr.nextIdx == GetContext(m, t).mgr.nextIdx
    ensures r.mgr.threadCnt == m.threadCnt
    ensures GetContext(m, t).res.None? ==> !r.res && r.mgr == m
    ensures GetContext(m, t).res.Some? ==>
              var i := GetContext(m, t).res.value;
              && (r.res <==> m.epochs[i] % 2 == 0)
              && r.mgr.epochs == m.epochs[i := NextEpoch(m.epochs[i])]
              && r.mgr.ctxs == m.ctxs
  {
    var c := GetContext(m, t);
    match c.res
    case None => Out(false, c.mgr)
    case Some(i) => Out(c.mgr.epochs[i] % 2 != 1, BumpEpoch(c.mgr, i))
  }

  /** `ExitCriticalZone`: bump the caller's epoch; succeed iff it was odd. */
  function Exit<V>(m: Manager<V>, t: ThreadId): (r: Out<bool, V>)
    requires Valid(m)
    ensures Valid(r.mgr)
    ensures r.mgr.tls == GetContext(m, t).mgr.tls && r.mgr.nextIdx == GetContext(m, t).mgr.nextIdx
    ensures r.mgr.threadCnt == m.threadCnt
    ensures GetContext(m, t).res.None? ==> !r.res && r.mgr == m
    ensures GetContext(m, t).res.Some? ==>
              var i := GetContext(m, t).res.value;
              && (r.res <==> m.epochs[i] % 2 == 1)
              && r.mgr.epochs == m.epochs[i := NextEpoch(m.epochs[i])]
              && r.mgr.ctxs == m.ctxs
  {
    var c := GetContext(m, t);
    match c.res
    case None => Out(false, c.mgr)
    case Some(i) => Out(c.mgr.epochs[i] % 2 != 0, BumpEpoch(c.mgr, i))
  }

  /** `GetRetiredCntLocal`: the caller's retired counter, 0 if unregistered. */
  function RetiredCntLocal<V>(m: Manager<V>, t: ThreadId): (r: Out<nat, V>)
    requires Valid(m)
    ensures Valid(r.mgr) && r.mgr == GetContext(m, t).mgr
    ensures GetContext(m, t).res.None? ==> r.res == 0
    ensures GetContext(m, t).res.Some? ==> r.res == m.ctxs[GetContext(m, t).res.value].cnt
  {
    var c := GetContext(m, t);
    match c.res
    case None => Out(0, c.mgr)
    case Some(i) => Out(c.mgr.ctxs[i].cnt, c.mgr)
  }

  /** `Retire`: push the value, tagged with the current critical snapshot,
      onto the caller's retired list. */
  function Retire<V>(m: Manager<V>, t: ThreadId, val: V): (r: Manager<V>)
    requires Valid(m)
    ensures Valid(r)
    ensures r.tls == GetContext(m, t).mgr.tls && r.nextIdx == GetContext(m, t).mgr.nextIdx
    ensures r.threadCnt == m.threadCnt
    ensures GetContext(m, t).res.None? ==> r == m
    ensures GetContext(m, t).res.Some? ==>
              var i := GetContext(m, t).res.value;
              var mid := GetContext(m, t).mgr;
              && r.epochs == m.epochs
              && r.ctxs[i].nodes == [RetiredNode(val, SnapshotCritical(mid))] + m.ctxs[i].nodes
              && r.ctxs[i].cnt == m.ctxs[i].cnt + 1
              && (forall j :: 0 <= j < m.threadCnt && j != i ==> r.ctxs[j] == m.ctxs[j])
  {
    var c := GetContext(m, t);
    match c.res
    case None => c.mgr
    case Some(i) =>
      var mid := c.mgr;
      var snap := SnapshotCritical(mid);
      var c' := CtxRetire(mid.ctxs[i], val, snap);
      assert SnapshotsBelow(c'.nodes, mid.nextIdx) by {
        assert SnapshotsBelow(mid.ctxs[i].nodes, mid.nextIdx);
        forall a | 0 <= a < |c'.nodes| ensures NodeBelow(c'.nodes[a], mid.nextIdx) {
          if a > 0 { assert c'.nodes[a] == mid.ctxs[i].nodes[a - 1]; }
        }
      }
      ReplaceCtxValid(mid, i, c');
      mid.(ctxs := mid.ctxs[i := c'])
  }

  /** The nodes a reclamation keeps capture no slot the list did not. */
  lemma KeptBelow<V>(nodes: seq<RetiredNode<V>>, latest: seq<nat>, bound: nat)
    requires SnapshotsBelow(nodes, |latest|) && SnapshotsBelow(nodes, bound)
    ensures SnapshotsBelow(Reverse(UnsafeNodes(nodes, latest)), bound)
  {
    UnsafeNodesAreUnsafe(nodes, latest);
    var ns := Reverse(UnsafeNodes(nodes, latest));
    forall a | 0 <= a < |ns|
      ensures NodeBelow(ns[a], bound)
    {
      assert ns[a] in UnsafeNodes(nodes, latest);
      var b :| 0 <= b < |nodes| && nodes[b] == ns[a];
    }
  }

  /** `ReclaimLocal`: reclaim the caller's list against a full snapshot. */
  function ReclaimLocal<V>(m: Manager<V>, t: ThreadId): (r: Out<seq<RetiredNode<V>>, V>)
    requires Valid(m)
    ensures Valid(r.mgr) && r.mgr.threadCnt == m.threadCnt
    ensures r.mgr.tls == GetContext(m, t).mgr.tls && r.mgr.nextIdx == GetContext(m, t).mgr.nextIdx
    ensures GetContext(m, t).res.None? ==> r.res == [] && r.mgr == m
    ensures GetContext(m, t).res.Some? ==>
              var i := GetContext(m, t).res.value;
              var latest := SnapshotFull(GetContext(m, t).mgr);
              && SnapshotsBelow(m.ctxs[i].nodes, |latest|)
              && r.mgr.ctxs[i] == CtxReclaim(m.ctxs[i], latest).ctx
              && r.res == CtxReclaim(m.ctxs[i], latest).deleted
              && r.mgr.epochs == m.epochs
              && (forall j :: 0 <= j < m.threadCnt && j != i ==> r.mgr.ctxs[j] == m.ctxs[j])
  {
    var c := GetContext(m, t);
    match c.res
    case None => Out([], c.mgr)
    case Some(i) =>
      var mid := c.mgr;
      var latest := SnapshotFull(mid);
      assert SnapshotsBelow(mid.ctxs[i].nodes, mid.nextIdx);
      var rc := CtxReclaim(mid.ctxs[i], latest);
      KeptBelow(mid.ctxs[i].nodes, latest, mid.nextIdx);
      ReplaceCtxValid(mid, i, rc.ctx);
      Out(rc.deleted, mid.(ctxs := mid.ctxs[i := rc.ctx]))
  }

  /*---------------------------------------------------------------------------
    Properties of the manager
  ---------------------------------------------------------------------------*/

  /** The registration bound: at most `ThreadCnt` threads ever hold a slot,
      and once they do, a new thread gets no context. */
  lemma RegistrationBound<V>(m: Manager<V>, t: ThreadId)
    requires Valid(m)
    ensures |m.tls| <= m.threadCnt
    ensures |m.tls| == m.threadCnt && t !in m.tls ==> GetContext(m, t).res.None?
  {
  }

  /** Entering twice in a row from a quiescent state: the first enter
      succeeds and the second reports misuse. */
  lemma DoubleEnterFails<V>(m: Manager<V>, t: ThreadId)
    requires Valid(m) && t in m.tls && !IsCriticalEpoch(m.epochs[m.tls[t]])
    ensures Enter(m, t).res
    ensures !Enter(Enter(m, t).mgr, t).res
  {
    var i := m.tls[t];
    var m1 := Enter(m, t).mgr;
    assert m1.epochs[i] == NextEpoch(m.epochs[i]);
    assert GetContext(m1, t).res == Some(i);
  }

  /** Exiting twice in a row from inside a zone: the first exit succeeds and
      the second reports misuse. */
  lemma DoubleExitFails<V>(m: Manager<V>, t: ThreadId)
    requires Valid(m) && t in m.tls && IsCriticalEpoch(m.epochs[m.tls[t]])
    ensures Exit(m, t).res
    ensures !Exit(Exit(m, t).mgr, t).res
  {
    var i := m.tls[t];
    var m1 := Exit(m, t).mgr;
    assert m1.epochs[i] == NextEpoch(m.epochs[i]);
    assert GetContext(m1, t).res == Some(i);
  }

  /** A well-bracketed zone from a quiescent state: both calls succeed and
      the epoch advances by two (modulo 2^32). */
  lemma EnterThenExit<V>(m: Manager<V>, t: ThreadId)
    requires Valid(m) && t in m.tls && m.epochs[m.tls[t]] % 2 == 0
    ensures Enter(m, t).res
    ensures Exit(Enter(m, t).mgr, t).res
    ensures Exit(Enter(m, t).mgr, t).mgr.epochs[m.tls[t]] == NextEpoch(NextEpoch(m.epochs[m.tls[t]]))
  {
  }

  /** A thread that cannot register because every slot is taken: every
      operation fails or does nothing, and the manager is unchanged. */
  lemma UnregisteredIsNoOp<V>(m: Manager<V>, t: ThreadId, val: V)
    requires Valid(m) && t !in m.tls && m.nextIdx == m.threadCnt
    ensures Enter(m, t) == Out(false, m)
    ensures Exit(m, t) == Out(false, m)
    ensures RetiredCntLocal(m, t) == Out(0, m)
    ensures Retire(m, t, val) == m
    ensures ReclaimLocal(m, t) == Out([], m)
  {
  }

  /** Registration sticks: a thread that obtains a slot during any operation
      keeps it afterwards, and a registered thread's operations leave the
      registration map alone. */
  lemma RegistrationKept<V>(m: Manager<V>, t: ThreadId, val: V)
    requires Valid(m) && GetContext(m, t).res.Some?
    ensures
      var i := GetContext(m, t).res.value;
      && t in Enter(m, t).mgr.tls && Enter(m, t).mgr.tls[t] == i
      && t in Exit(m, t).mgr.tls && Exit(m, t).mgr.tls[t] == i
      && t in Retire(m, t, val).tls && Retire(m, t, val).tls[t] == i
      && t in ReclaimLocal(m, t).mgr.tls && ReclaimLocal(m, t).mgr.tls[t] == i
    ensures t in m.tls ==>
      && Enter(m, t).mgr.tls == m.tls && Exit(m, t).mgr.tls == m.tls
      && Retire(m, t, val).tls == m.tls && ReclaimLocal(m, t).mgr.tls == m.tls
  {
  }

  /** Retiring from inside a critical zone records the caller's own pair, so
      the node cannot be freed before the caller leaves the zone. */
  lemma RetireCapturesCaller<V>(m: Manager<V>, t: ThreadId, val: V)
    requires Valid(m) && t in m.tls && IsCriticalEpoch(m.epochs[m.tls[t]])
    ensures
      var i := m.tls[t];
      var r := Retire(m, t, val);
      && r.ctxs[i].nodes[0].val == val
      && Captured(i, Mask(m.epochs[i])) in r.ctxs[i].nodes[0].snapshot
      && RetiredCntLocal(r, t).res == RetiredCntLocal(m, t).res + 1
  {
  }

  /** Snapshot soundness: a value retired while thread `j` sat in a critical
      zone at epoch `e` is not freed by any local reclamation that still sees
      `j` at `e` (masked). */
  lemma StillCriticalNotFreed<V>(m: Manager<V>, t: ThreadId, n: nat, j: nat)
    requires Valid(m) && t in m.tls && j < m.nextIdx
    requires n < |m.ctxs[m.tls[t]].nodes|
    requires Captured(j, Mask(m.epochs[j])) in m.ctxs[m.tls[t]].nodes[n].snapshot
    ensures m.ctxs[m.tls[t]].nodes[n] !in ReclaimLocal(m, t).res
    ensures m.ctxs[m.tls[t]].nodes[n] in ReclaimLocal(m, t).mgr.ctxs[m.tls[t]].nodes
  {
    var i := m.tls[t];
    var c := m.ctxs[i];
    var latest := SnapshotFull(m);
    assert SnapshotsBelow(c.nodes, m.nextIdx);
    var k :| 0 <= k < |c.nodes[n].snapshot| && c.nodes[n].snapshot[k] == Captured(j, Mask(m.epochs[j]));
    assert j < m.nextIdx;
    assert latest[c.nodes[n].snapshot[k].idx] == c.nodes[n].snapshot[k].epoch;
    ReclaimKeepsExactlyUnsafe(c, latest, n);
    ReclaimPartition(c, latest);
  }
}
