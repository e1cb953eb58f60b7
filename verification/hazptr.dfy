/**
  Hazard-pointer manager (`SimpleCU::HazPtr::HazPtrManager`).

  Each of `ThreadCnt` slots, once claimed by a thread, owns an announcement
  context of `SlotSize` cells and a private retired list. A thread publishes
  the pointers it is about to dereference in its cells; a local reclamation
  unions the non-null cells of every claimed slot and frees exactly the
  caller's retired pointers that nobody announces.

  The model is sequential: atomics are plain fields, pointers are naturals
  with 0 as `nullptr`, the thread-local registration cache is an explicit map
  from thread identity to slot index, and "freeing" a pointer is reported by
  returning it.
*/
module HazPtr {
  import opened Wrappers

  type ThreadId = nat
  type Ptr = nat

  const NULL: Ptr := 0

  /*---------------------------------------------------------------------------
    HazPtrContext: one thread's announcement cells
  ---------------------------------------------------------------------------*/

  datatype HazPtrContext = HazPtrContext(cells: seq<Ptr>)

  /** A freshly allocated context: every cell null. */
  function EmptyContext(slotSize: nat): (c: HazPtrContext)
    ensures |c.cells| == slotSize
    ensures forall i :: 0 <= i < slotSize ==> c.cells[i] == NULL
  {
    HazPtrContext(seq(slotSize, _ => NULL))
  }

  /** The loop of `contains`, from cell `i` on. */
  function ContainsFrom(cells: seq<Ptr>, p: Ptr, i: nat): (r: bool)
    requires i <= |cells|
    decreases |cells| - i
    ensures r <==> exists j :: i <= j < |cells| && cells[j] == p
  {
    if i == |cells| then false
    else if cells[i] == p then true
    else ContainsFrom(cells, p, i + 1)
  }

  /** `contains`: true iff some cell holds `p` (for `p == nullptr`: iff some
      cell is empty). */
  function Contains(c: HazPtrContext, p: Ptr): (r: bool)
    ensures r <==> p in c.cells
  {
    ContainsFrom(c.cells, p, 0)
  }

  /** `set_hazptr`: store `p` in cell `idx` (not bounds-checked by the
      source, hence the precondition); always reports success. */
  function CtxSet(c: HazPtrContext, idx: nat, p: Ptr): (r: HazPtrContext)
    requires idx < |c.cells|
    ensures |r.cells| == |c.cells| && r.cells[idx] == p
    ensures forall j :: 0 <= j < |c.cells| && j != idx ==> r.cells[j] == c.cells[j]
  {
    HazPtrContext(c.cells[idx := p])
  }

  /** `unset_hazptr`: store `nullptr` in cell `idx`. */
  function CtxUnset(c: HazPtrContext, idx: nat): (r: HazPtrContext)
    requires idx < |c.cells|
    ensures |r.cells| == |c.cells| && r.cells[idx] == NULL
    ensures forall j :: 0 <= j < |c.cells| && j != idx ==> r.cells[j] == c.cells[j]
  {
    HazPtrContext(c.cells[idx := NULL])
  }

  /** The loop of `output`, from cell `i` on. */
  function OutputFrom(cells: seq<Ptr>, i: nat, out: set<Ptr>): (r: set<Ptr>)
    requires i <= |cells|
    decreases |cells| - i
    ensures forall p :: p in r <==> p in out || (p != NULL && exists j :: i <= j < |cells| && cells[j] == p)
  {
    if i == |cells| then out
    else if cells[i] != NULL then OutputFrom(cells, i + 1, out + {cells[i]})
    else OutputFrom(cells, i + 1, out)
  }

  /** `output`: insert exactly the non-null cells into `out`. */
  function Output(c: HazPtrContext, out: set<Ptr>): (r: set<Ptr>)
    ensures forall p :: p in r <==> p in out || (p != NULL && p in c.cells)
  {
    OutputFrom(c.cells, 0, out)
  }

  /*---------------------------------------------------------------------------
    RetiredContext: one thread's retired list
  ---------------------------------------------------------------------------*/

  /** The retired list, head first, and its counter. */
  datatype RetiredContext = RetiredContext(nodes: seq<Ptr>, cnt: nat)

  /** `retire`: push at the head and count one more. */
  function CtxRetire(c: RetiredContext, p: Ptr): (r: RetiredContext)
    ensures |r.nodes| == |c.nodes| + 1 && r.nodes[0] == p && r.nodes[1..] == c.nodes
    ensures r.cnt == c.cnt + 1
  {
    RetiredContext([p] + c.nodes, c.cnt + 1)
  }

  /** Reference filter: the entries of `s` found in `hazptrs`, in order. */
  function Protected(s: seq<Ptr>, hazptrs: set<Ptr>): (r: seq<Ptr>)
    ensures |r| <= |s|
  {
    if |s| == 0 then []
    else if s[0] in hazptrs then [s[0]] + Protected(s[1..], hazptrs)
    else Protected(s[1..], hazptrs)
  }

  /** Reference filter: the entries of `s` not in `hazptrs`, in order. */
  function Unprotected(s: seq<Ptr>, hazptrs: set<Ptr>): (r: seq<Ptr>)
    ensures |r| <= |s|
  {
    if |s| == 0 then []
    else if s[0] !in hazptrs then [s[0]] + Unprotected(s[1..], hazptrs)
    else Unprotected(s[1..], hazptrs)
  }

  lemma {:induction false} FiltersPartition(s: seq<Ptr>, hazptrs: set<Ptr>)
    ensures forall p :: p in Protected(s, hazptrs) <==> p in s && p in hazptrs
    ensures forall p :: p in Unprotected(s, hazptrs) <==> p in s && p !in hazptrs
    ensures multiset(Protected(s, hazptrs)) + multiset(Unprotected(s, hazptrs)) == multiset(s)
  {
    if |s| > 0 {
      FiltersPartition(s[1..], hazptrs);
      assert s == [s[0]] + s[1..];
    }
  }

  /** The walk of `delete_no_hazard`: announced pointers are pushed back onto
      the head of the rebuilt list, the others are freed in list order. */
  function DeleteWalk(rest: seq<Ptr>, hazptrs: set<Ptr>, kept: seq<Ptr>, freed: seq<Ptr>): (r: (seq<Ptr>, seq<Ptr>))
    ensures r.0 == Reverse(Protected(rest, hazptrs)) + kept
    ensures r.1 == freed + Unprotected(rest, hazptrs)
  {
    if |rest| == 0 then (kept, freed)
    else if rest[0] !in hazptrs then
      DeleteFrees(rest, hazptrs, freed);
      DeleteWalk(rest[1..], hazptrs, kept, freed + [rest[0]])
    else
      DeleteKeeps(rest, hazptrs, kept);
      DeleteWalk(rest[1..], hazptrs, [rest[0]] + kept, freed)
  }

  /** A head not announced is freed after `freed`. */
  lemma DeleteFrees(rest: seq<Ptr>, hazptrs: set<Ptr>, freed: seq<Ptr>)
    requires |rest| > 0 && rest[0] !in hazptrs
    ensures Protected(rest[1..], hazptrs) == Protected(rest, hazptrs)
    ensures (freed + [rest[0]]) + Unprotected(rest[1..], hazptrs) == freed + Unprotected(rest, hazptrs)
  {
    var t := Unprotected(rest[1..], hazptrs);
    assert Unprotected(rest, hazptrs) == [rest[0]] + t;
    assert (freed + [rest[0]]) + t == freed + ([rest[0]] + t);
  }

  /** An announced head goes in front of `kept`. */
  lemma DeleteKeeps(rest: seq<Ptr>, hazptrs: set<Ptr>, kept: seq<Ptr>)
    requires |rest| > 0 && rest[0] in hazptrs
    ensures Reverse(Protected(rest[1..], hazptrs)) + ([rest[0]] + kept) == Reverse(Protected(rest, hazptrs)) + kept
    ensures Unprotected(rest[1..], hazptrs) == Unprotected(rest, hazptrs)
  {
    var u := Protected(rest[1..], hazptrs);
    assert Protected(rest, hazptrs) == [rest[0]] + u;
    assert ([rest[0]] + u)[1..] == u;
    assert Reverse([rest[0]] + u) == Reverse(u) + [rest[0]];
    assert Reverse(u) + ([rest[0]] + kept) == (Reverse(u) + [rest[0]]) + kept;
  }

  /** The retired context after a pass and the pointers it freed. */
  datatype Deleted = Deleted(ctx: RetiredContext, freed: seq<Ptr>)

  /** `delete_no_hazard`: free every retired pointer not in `hazptrs`, keep
      the others (order reversed), and reset the counter to 0 even when some
      are kept. */
  function DeleteNoHazard(c: RetiredContext, hazptrs: set<Ptr>): (r: Deleted)
    ensures r.freed == Unprotected(c.nodes, hazptrs)
    ensures r.ctx.nodes == Reverse(Protected(c.nodes, hazptrs))
    ensures r.ctx.cnt == 0
  {
    var (kept, freed) := DeleteWalk(c.nodes, hazptrs, [], []);
    Deleted(RetiredContext(kept, 0), freed)
  }

  /** The partition: a pointer is freed iff it was retired and is not
      announced, kept iff it was retired and is announced, and together the
      two are the former list, each entry once. */
  lemma DeletePartition(c: RetiredContext, hazptrs: set<Ptr>)
    ensures forall p :: p in DeleteNoHazard(c, hazptrs).freed <==> p in c.nodes && p !in hazptrs
    ensures forall p :: p in DeleteNoHazard(c, hazptrs).ctx.nodes <==> p in c.nodes && p in hazptrs
    ensures multiset(DeleteNoHazard(c, hazptrs).freed) + multiset(DeleteNoHazard(c, hazptrs).ctx.nodes) == multiset(c.nodes)
  {
    var k := Protected(c.nodes, hazptrs);
    FiltersPartition(c.nodes, hazptrs);
    ReverseMultiset(k);
    forall p
      ensures p in Reverse(k) <==> p in k
    {
      assert multiset(Reverse(k))[p] == multiset(k)[p];
    }
  }

  /** The counter under-reports after a pass that keeps something. */
  lemma CountUnderReports(c: RetiredContext, hazptrs: set<Ptr>)
    requires exists p :: p in c.nodes && p in hazptrs
    ensures DeleteNoHazard(c, hazptrs).ctx.cnt == 0 < |DeleteNoHazard(c, hazptrs).ctx.nodes|
  {
    DeletePartition(c, hazptrs);
  }

  /*---------------------------------------------------------------------------
    HazPtrManager
  ---------------------------------------------------------------------------*/

  /** The manager: `ThreadCnt`, `SlotSize`, the owner of every slot (`ids_`,
      `None` for the default thread id), every slot's contexts, the claim
      counter `ctx_cnt_` and this manager's thread-local cache entries. */
  datatype Manager = Manager(
    threadCnt: nat,
    slotSize: nat,
    owners: seq<Option<ThreadId>>,
    hazptrs: seq<HazPtrContext>,
    retired: seq<RetiredContext>,
    ctxCnt: nat,
    tls: map<ThreadId, nat>)

  /** A manager operation's result and the manager afterwards. */
  datatype Out<R> = Out(res: R, mgr: Manager)

  ghost predicate Valid(m: Manager) {
    && |m.owners| == m.threadCnt
    && |m.hazptrs| == m.threadCnt
    && |m.retired| == m.threadCnt
    && (forall i :: 0 <= i < m.threadCnt ==> |m.hazptrs[i].cells| == m.slotSize)
    && m.ctxCnt <= m.threadCnt
    && |m.tls| == m.ctxCnt
    // the cache and the owner table describe the same claims
    && (forall t :: t in m.tls ==> m.tls[t] < m.threadCnt && m.owners[m.tls[t]] == Some(t))
    && (forall i :: 0 <= i < m.threadCnt && m.owners[i].Some? ==> m.owners[i].value in m.tls && m.tls[m.owners[i].value] == i)
    // unclaimed slots announce nothing and hold nothing
    && (forall i :: 0 <= i < m.threadCnt && m.owners[i].None? ==>
          m.hazptrs[i] == EmptyContext(m.slotSize) && m.retired[i] == RetiredContext([], 0))
  }

  /** The constructor: no slot claimed. */
  function NewManager(threadCnt: nat, slotSize: nat): (m: Manager)
    ensures Valid(m) && m.tls == map[] && m.threadCnt == threadCnt && m.slotSize == slotSize
  {
    Manager(threadCnt, slotSize, seq(threadCnt, _ => None), seq(threadCnt, _ => EmptyContext(slotSize)),
            seq(threadCnt, _ => RetiredContext([], 0)), 0, map[])
  }

  /** `get_max_hazptr_cnt_global`. */
  function MaxHazptrCntGlobal(m: Manager): (r: nat)
    ensures r == m.slotSize * m.threadCnt
  {
    m.slotSize * m.threadCnt
  }

  /** The claim loop of `get_context`: the first slot from `i` on whose
      context pointer is still null. */
  function FirstFree(owners: seq<Option<ThreadId>>, i: nat): (r: Option<nat>)
    requires i <= |owners|
    decreases |owners| - i
    ensures r.Some? ==> i <= r.value < |owners| && owners[r.value].None?
                        && forall j :: i <= j < r.value ==> owners[j].Some?
    ensures r.None? ==> forall j :: i <= j < |owners| ==> owners[j].Some?
  {
    if i == |owners| then None
    else if owners[i].None? then Some(i)
    else FirstFree(owners, i + 1)
  }

  /** `get_context`: a cached thread gets its slot; otherwise, unless
      `ctx_cnt_` already reached `ThreadCnt`, the first free slot is claimed
      with fresh, empty contexts. */
  function GetContext(m: Manager, t: ThreadId): (r: Out<Option<nat>>)
    requires Valid(m)
    ensures Valid(r.mgr)
    ensures r.mgr.threadCnt == m.threadCnt && r.mgr.slotSize == m.slotSize
    ensures r.res.Some? ==> r.res.value < m.threadCnt && t in r.mgr.tls && r.mgr.tls[t] == r.res.value
    ensures t in m.tls ==> r == Out(Some(m.tls[t]), m)
    ensures t !in m.tls && m.ctxCnt >= m.threadCnt ==> r == Out(None, m)
    ensures r.res.None? ==> r.mgr == m
    ensures forall u :: u in m.tls ==> u in r.mgr.tls && r.mgr.tls[u] == m.tls[u]
    // claiming a slot touches nobody else's contexts
    ensures forall j :: 0 <= j < m.threadCnt && m.owners[j].Some? ==>
              r.mgr.owners[j] == m.owners[j] && r.mgr.hazptrs[j] == m.hazptrs[j] && r.mgr.retired[j] == m.retired[j]
    ensures forall j :: 0 <= j < m.threadCnt && (r.res.None? || j != r.res.value) ==>
              r.mgr.owners[j] == m.owners[j] && r.mgr.hazptrs[j] == m.hazptrs[j] && r.mgr.retired[j] == m.retired[j]
    // an uncached thread below the slot count always gets the first free slot
    ensures t !in m.tls && m.ctxCnt < m.threadCnt ==>
              && r.res.Some? && FirstFree(m.owners, 0) == r.res
              && r.mgr.ctxCnt == m.ctxCnt + 1 && r.mgr.owners[r.res.value] == Some(t)
              && r.mgr.hazptrs[r.res.value] == EmptyContext(m.slotSize)
              && r.mgr.retired[r.res.value] == RetiredContext([], 0)
  {
    if t in m.tls then Out(Some(m.tls[t]), m)
    else if m.ctxCnt >= m.threadCnt then Out(None, m)
    else
      FreeSlotExists(m);
      var i := FirstFree(m.owners, 0).value;
      ClaimValid(m, t, i);
      Out(Some(i), Claim(m, t, i))
  }

  /** Some thread is cached with slot `i`. */
  ghost predicate Cached(tls: map<ThreadId, nat>, i: nat) {
    exists u :: u in tls && tls[u] == i
  }

  /** Slot indices `0..n` are each cached for some thread, so the cache
      holds at least `n` threads. */
  lemma {:induction false} CoverBound(tls: map<ThreadId, nat>, n: nat)
    requires forall i :: 0 <= i < n ==> Cached(tls, i)
    decreases n
    ensures |tls| >= n
  {
    if n > 0 {
      assert Cached(tls, n - 1);
      var k :| k in tls && tls[k] == n - 1;
      var rest := tls - {k};
      forall i | 0 <= i < n - 1
        ensures Cached(rest, i)
      {
        assert Cached(tls, i);
        var u :| u in tls && tls[u] == i;
        assert u in rest && rest[u] == i;
      }
      CoverBound(rest, n - 1);
      assert tls.Keys == rest.Keys + {k};
    }
  }

  /** While `ctx_cnt_` is below `ThreadCnt`, the claim loop finds an
      unowned slot: every owned slot is cached for its owner, and the cache
      holds only `ctx_cnt_` threads. */
  lemma FreeSlotExists(m: Manager)
    requires Valid(m) && m.ctxCnt < m.threadCnt
    ensures FirstFree(m.owners, 0).Some?
  {
    if FirstFree(m.owners, 0).None? {
      forall i | 0 <= i < m.threadCnt
        ensures Cached(m.tls, i)
      {
        assert m.owners[i].Some?;
        var u := m.owners[i].value;
        assert u in m.tls && m.tls[u] == i;
      }
      CoverBound(m.tls, m.threadCnt);
    }
  }

  /** The stores of a claim: slot `i` gets owner `t` and fresh contexts,
      and the cache learns `t`. */
  function Claim(m: Manager, t: ThreadId, i: nat): (r: Manager)
    requires i < |m.owners| && i < |m.hazptrs| && i < |m.retired|
    ensures r.threadCnt == m.threadCnt && r.slotSize == m.slotSize
    ensures |r.owners| == |m.owners| && |r.hazptrs| == |m.hazptrs| && |r.retired| == |m.retired|
    ensures r.owners[i] == Some(t) && t in r.tls && r.tls[t] == i
    ensures forall u :: u in m.tls ==> u in r.tls && (u != t ==> r.tls[u] == m.tls[u])
    ensures forall j :: 0 <= j < |m.owners| && j < |m.hazptrs| && j < |m.retired| && j != i ==>
              r.owners[j] == m.owners[j] && r.hazptrs[j] == m.hazptrs[j] && r.retired[j] == m.retired[j]
  {
    m.(owners := m.owners[i := Some(t)],
       hazptrs := m.hazptrs[i := EmptyContext(m.slotSize)],
       retired := m.retired[i := RetiredContext([], 0)],
       ctxCnt := m.ctxCnt + 1,
       tls := m.tls[t := i])
  }

  /** Claiming a free slot for an uncached thread below the slot count keeps
      the manager valid. */
  lemma ClaimValid(m: Manager, t: ThreadId, i: nat)
    requires Valid(m) && t !in m.tls && m.ctxCnt < m.threadCnt
    requires i < m.threadCnt && m.owners[i].None?
    ensures Valid(Claim(m, t, i))
  {
    var r := Claim(m, t, i);
    assert |r.tls| == |m.tls| + 1;
    forall u | u in r.tls
      ensures r.tls[u] < r.threadCnt && r.owners[r.tls[u]] == Some(u)
    {
      if u != t {
        assert m.tls[u] != i;
      }
    }
  }

  /** Reference definition: `p` is announced by some claimed slot. */
  ghost predicate Announced(m: Manager, p: Ptr)
    requires Valid(m)
  {
    p != NULL && exists j :: 0 <= j < m.threadCnt && m.owners[j].Some? && p in m.hazptrs[j].cells
  }

  /** The loop of `collect_all_hazptrs`, from slot `i` on. */
  function CollectFrom(m: Manager, i: nat, acc: set<Ptr>): (r: set<Ptr>)
    requires Valid(m) && i <= m.threadCnt
    decreases m.threadCnt - i
    ensures forall p :: p in r <==>
              (p in acc || (p != NULL && exists j :: i <= j < m.threadCnt && m.owners[j].Some? && p in m.hazptrs[j].cells))
  {
    if i == m.threadCnt then acc
    else if m.owners[i].Some? then CollectFrom(m, i + 1, Output(m.hazptrs[i], acc))
    else CollectFrom(m, i + 1, acc)
  }

  /** `collect_all_hazptrs`: the union of the non-null cells of every slot
      whose owner id is set. */
  function CollectAll(m: Manager): (r: set<Ptr>)
    requires Valid(m)
    ensures forall p :: p in r <==> Announced(m, p)
  {
    CollectFrom(m, 0, {})
  }

  /** `get_retired_cnt_local`. */
  function RetiredCntLocal(m: Manager, t: ThreadId): (r: Out<nat>)
    requires Valid(m)
    ensures Valid(r.mgr) && r.mgr == GetContext(m, t).mgr
    ensures GetContext(m, t).res.None? ==> r.res == 0
    ensures GetContext(m, t).res.Some? ==> r.res == r.mgr.retired[GetContext(m, t).res.value].cnt
  {
    var c := GetContext(m, t);
    match c.res
    case None => Out(0, c.mgr)
    case Some(i) => Out(c.mgr.retired[i].cnt, c.mgr)
  }

  /** The precondition the source leaves to its callers: a cell index is in
      range whenever the call reaches the caller's context. */
  ghost predicate CellIndexOk(m: Manager, t: ThreadId, idx: nat)
    requires Valid(m)
  {
    GetContext(m, t).res.Some? ==> idx < m.slotSize
  }

  /** `set_hazptr`: publish `p` in the caller's cell `idx`. */
  function SetHazptr(m: Manager, t: ThreadId, idx: nat, p: Ptr): (r: Out<bool>)
    requires Valid(m) && CellIndexOk(m, t, idx)
    ensures Valid(r.mgr) && r.mgr.threadCnt == m.threadCnt && r.mgr.slotSize == m.slotSize
    ensures GetContext(m, t).res.None? ==> r == Out(false, m)
    ensures GetContext(m, t).res.Some? ==>
              var i := GetContext(m, t).res.value;
              && r.res
              && r.mgr.hazptrs[i] == CtxSet(GetContext(m, t).mgr.hazptrs[i], idx, p)
              && (forall j :: 0 <= j < m.threadCnt && j != i ==> r.mgr.hazptrs[j] == m.hazptrs[j])
              && r.mgr.retired == GetContext(m, t).mgr.retired
              && r.mgr.tls == GetContext(m, t).mgr.tls && r.mgr.owners == GetContext(m, t).mgr.owners
              && r.mgr.ctxCnt == GetContext(m, t).mgr.ctxCnt
  {
    var c := GetContext(m, t);
    match c.res
    case None => Out(false, c.mgr)
    case Some(i) => Out(true, c.mgr.(hazptrs := c.mgr.hazptrs[i := CtxSet(c.mgr.hazptrs[i], idx, p)]))
  }

  /** `unset_hazptr`: clear the caller's cell `idx`. */
  function UnsetHazptr(m: Manager, t: ThreadId, idx: nat): (r: Out<bool>)
    requires Valid(m) && CellIndexOk(m, t, idx)
    ensures Valid(r.mgr) && r.mgr.threadCnt == m.threadCnt && r.mgr.slotSize == m.slotSize
    ensures GetContext(m, t).res.None? ==> r == Out(false, m)
    ensures GetContext(m, t).res.Some? ==>
              var i := GetContext(m, t).res.value;
              && r.res
              && r.mgr.hazptrs[i] == CtxUnset(GetContext(m, t).mgr.hazptrs[i], idx)
              && (forall j :: 0 <= j < m.threadCnt && j != i ==> r.mgr.hazptrs[j] == m.hazptrs[j])
              && r.mgr.retired == GetContext(m, t).mgr.retired
              && r.mgr.tls == GetContext(m, t).mgr.tls && r.mgr.owners == GetContext(m, t).mgr.owners
              && r.mgr.ctxCnt == GetContext(m, t).mgr.ctxCnt
  {
    var c := GetContext(m, t);
    match c.res
    case None => Out(false, c.mgr)
    case Some(i) => Out(true, c.mgr.(hazptrs := c.mgr.hazptrs[i := CtxUnset(c.mgr.hazptrs[i], idx)]))
  }

  /** `retire`: push onto the caller's own retired list. */
  function Retire(m: Manager, t: ThreadId, p: Ptr): (r: Manager)
    requires Valid(m)
    ensures Valid(r) && r.threadCnt == m.threadCnt && r.slotSize == m.slotSize
    ensures GetContext(m, t).res.None? ==> r == m
    ensures GetContext(m, t).res.Some? ==>
              var i := GetContext(m, t).res.value;
              && r.retired[i] == CtxRetire(GetContext(m, t).mgr.retired[i], p)
              && (forall j :: 0 <= j < m.threadCnt && j != i ==> r.retired[j] == m.retired[j])
              && r.hazptrs == GetContext(m, t).mgr.hazptrs
              && r.tls == GetContext(m, t).mgr.tls && r.owners == GetContext(m, t).mgr.owners
              && r.ctxCnt == GetContext(m, t).mgr.ctxCnt
  {
    var c := GetContext(m, t);
    match c.res
    case None => c.mgr
    case Some(i) => c.mgr.(retired := c.mgr.retired[i := CtxRetire(c.mgr.retired[i], p)])
  }

  /** `check_hazptr`: whether the caller's OWN cells hold `p`. */
  function CheckHazptr(m: Manager, t: ThreadId, p: Ptr): (r: Out<bool>)
    requires Valid(m)
    ensures r.mgr == GetContext(m, t).mgr && Valid(r.mgr)
    ensures GetContext(m, t).res.None? ==> !r.res
    ensures GetContext(m, t).res.Some? ==> (r.res <==> p in r.mgr.hazptrs[GetContext(m, t).res.value].cells)
  {
    var c := GetContext(m, t);
    match c.res
    case None => Out(false, c.mgr)
    case Some(i) => Out(Contains(c.mgr.hazptrs[i], p), c.mgr)
  }

  /** `reclaim_local`: filter the caller's own list against every announced
      pointer; return the freed pointers. */
  function ReclaimLocal(m: Manager, t: ThreadId): (r: Out<seq<Ptr>>)
    requires Valid(m)
    ensures Valid(r.mgr) && r.mgr.threadCnt == m.threadCnt && r.mgr.slotSize == m.slotSize
    ensures GetContext(m, t).res.None? ==> r == Out([], m)
    ensures GetContext(m, t).res.Some? ==>
              var i := GetContext(m, t).res.value;
              var mid := GetContext(m, t).mgr;
              && r.res == DeleteNoHazard(mid.retired[i], CollectAll(mid)).freed
              && r.mgr.retired[i] == DeleteNoHazard(mid.retired[i], CollectAll(mid)).ctx
              && (forall j :: 0 <= j < m.threadCnt && j != i ==> r.mgr.retired[j] == m.retired[j])
              && r.mgr.hazptrs == mid.hazptrs
              && r.mgr.tls == mid.tls && r.mgr.owners == mid.owners && r.mgr.ctxCnt == mid.ctxCnt
  {
    var c := GetContext(m, t);
    match c.res
    case None => Out([], c.mgr)
    case Some(i) =>
      var d := DeleteNoHazard(c.mgr.retired[i], CollectAll(c.mgr));
      Out(d.freed, c.mgr.(retired := c.mgr.retired[i := d.ctx]))
  }

  /*---------------------------------------------------------------------------
    Properties of the manager
  ---------------------------------------------------------------------------*/

  /** At most `ThreadCnt` threads hold a slot, and a registered thread keeps
      its slot on every later call. */
  lemma RegistrationBound(m: Manager, t: ThreadId)
    requires Valid(m)
    ensures |m.tls| <= m.threadCnt
    ensures t in m.tls ==> GetContext(m, t).res == Some(m.tls[t])
    ensures GetContext(m, t).res.Some? ==> GetContext(GetContext(m, t).mgr, t) == GetContext(m, t).(mgr := GetContext(m, t).mgr)
  {
  }

  /** A thread that finds every slot taken: announcing fails, checking
      fails, retiring and reclaiming do nothing, the count reads 0. */
  lemma UnregisteredIsNoOp(m: Manager, t: ThreadId, idx: nat, p: Ptr)
    requires Valid(m) && t !in m.tls && m.ctxCnt >= m.threadCnt
    ensures SetHazptr(m, t, idx, p) == Out(false, m)
    ensures UnsetHazptr(m, t, idx) == Out(false, m)
    ensures CheckHazptr(m, t, p) == Out(false, m)
    ensures Retire(m, t, p) == m
    ensures ReclaimLocal(m, t) == Out([], m)
    ensures RetiredCntLocal(m, t) == Out(0, m)
  {
  }

  /** No pointer announced by any registered thread is freed by a local
      reclamation, and every unannounced retired pointer is. */
  lemma ReclaimFreesExactlyUnannounced(m: Manager, t: ThreadId, p: Ptr)
    requires Valid(m) && t in m.tls
    ensures p in ReclaimLocal(m, t).res <==> p in m.retired[m.tls[t]].nodes && !Announced(m, p)
  {
    var i := m.tls[t];
    var hz := CollectAll(m);
    assert p in hz <==> Announced(m, p);
    DeletePartition(m.retired[i], hz);
  }

  /** `ReclaimFreesExactlyUnannounced` for every pointer at once. */
  lemma ReclaimFreesExactlyUnannouncedAll(m: Manager, t: ThreadId)
    requires Valid(m) && t in m.tls
    ensures forall p :: p in ReclaimLocal(m, t).res <==> p in m.retired[m.tls[t]].nodes && !Announced(m, p)
  {
    forall p
      ensures p in ReclaimLocal(m, t).res <==> p in m.retired[m.tls[t]].nodes && !Announced(m, p)
    {
      ReclaimFreesExactlyUnannounced(m, t, p);
    }
  }

  /** What a local reclamation frees and keeps, for any caller that gets
      a slot (a newly registered one has nothing to free): the freed
      pointers are the unannounced retired ones, the kept list the
      announced ones, and together they are the former list. */
  lemma ReclaimPartition(m: Manager, t: ThreadId)
    requires Valid(m) && GetContext(m, t).res.Some?
    ensures var i := GetContext(m, t).res.value;
            var mid := GetContext(m, t).mgr;
            var r := ReclaimLocal(m, t);
            && (forall p :: p in r.res <==> p in mid.retired[i].nodes && !Announced(mid, p))
            && (forall p :: p in r.mgr.retired[i].nodes <==> p in mid.retired[i].nodes && Announced(mid, p))
            && multiset(r.res) + multiset(r.mgr.retired[i].nodes) == multiset(mid.retired[i].nodes)
  {
    var i := GetContext(m, t).res.value;
    var mid := GetContext(m, t).mgr;
    var hz := CollectAll(mid);
    assert forall p :: p in hz <==> Announced(mid, p);
    DeletePartition(mid.retired[i], hz);
  }

  /** A thread clearing its cell with `set_hazptr(idx, nullptr)` has the same
      effect as `unset_hazptr(idx)`. */
  lemma SetNullIsUnset(m: Manager, t: ThreadId, idx: nat)
    requires Valid(m) && CellIndexOk(m, t, idx)
    ensures SetHazptr(m, t, idx, NULL) == UnsetHazptr(m, t, idx)
  {
  }

  /** An announcement protects: after `set_hazptr(idx, p)` with `p` non-null,
      `p` is announced, and no later local reclamation by any registered
      thread frees it while the cell is unchanged. */
  lemma AnnouncementProtects(m: Manager, t: ThreadId, idx: nat, p: Ptr, u: ThreadId)
    requires Valid(m) && t in m.tls && idx < m.slotSize && p != NULL
    ensures u in SetHazptr(m, t, idx, p).mgr.tls ==> p !in ReclaimLocal(SetHazptr(m, t, idx, p).mgr, u).res
  {
    var m1 := SetHazptr(m, t, idx, p).mgr;
    var i := m.tls[t];
    assert m1.hazptrs[i].cells[idx] == p;
    assert Announced(m1, p);
    if u in m1.tls {
      ReclaimFreesExactlyUnannounced(m1, u, p);
    }
  }
}
