/**
  The older hazard-pointer manager `SimpleCU::HazPtrManager<ValType,
  SlotCnt, SlotSize>`. Its contexts, registration and reclamation are the
  ones of `HazPtr` (with `SlotCnt` in the role of `ThreadCnt`); it offers no
  `unset_hazptr` (a caller clears a cell by announcing `nullptr`) and names
  the local reclamation `delete_no_hazard_local`.
*/
module SimpleCu {
  import opened Wrappers
  import HazPtr

  type ThreadId = HazPtr.ThreadId
  type Ptr = HazPtr.Ptr

  /** The manager state is the shared one; `threadCnt` holds `SlotCnt`. */
  type Manager = HazPtr.Manager

  /** The constructor. */
  function NewManager(slotCnt: nat, slotSize: nat): (m: Manager)
    ensures HazPtr.Valid(m) && m.threadCnt == slotCnt && m.slotSize == slotSize
    ensures forall t: ThreadId :: t !in m.tls
  {
    HazPtr.NewManager(slotCnt, slotSize)
  }

  /** `get_max_hazptr_cnt_global`: `SlotSize * SlotCnt`. */
  function MaxHazptrCntGlobal(m: Manager): (r: nat)
    ensures r == m.slotSize * m.threadCnt
    ensures m.slotSize > 0 ==> r >= m.threadCnt
  {
    HazPtr.MaxHazptrCntGlobal(m)
  }

  /** `get_retired_cnt_local`. */
  function RetiredCntLocal(m: Manager, t: ThreadId): (r: HazPtr.Out<nat>)
    requires HazPtr.Valid(m)
    ensures HazPtr.Valid(r.mgr)
    ensures t in m.tls ==> r == HazPtr.Out(m.retired[m.tls[t]].cnt, m)
    ensures t !in m.tls && m.ctxCnt >= m.threadCnt ==> r == HazPtr.Out(0, m)
  {
    HazPtr.RetiredCntLocal(m, t)
  }

  /** `set_hazptr`: announce `p` in the caller's cell `idx`. A caller
      that obtains a slot during the call starts from empty cells; nothing
      but that one cell changes in anybody's contexts. */
  function SetHazptr(m: Manager, t: ThreadId, idx: nat, p: Ptr): (r: HazPtr.Out<bool>)
    requires HazPtr.Valid(m) && HazPtr.CellIndexOk(m, t, idx)
    ensures HazPtr.Valid(r.mgr) && r.mgr.threadCnt == m.threadCnt && r.mgr.slotSize == m.slotSize
    ensures HazPtr.GetContext(m, t).res.None? ==> r == HazPtr.Out(false, m)
    ensures HazPtr.GetContext(m, t).res.Some? ==>
              var i := HazPtr.GetContext(m, t).res.value;
              && r.res && t in r.mgr.tls && r.mgr.tls[t] == i
              && r.mgr.hazptrs[i].cells[idx] == p
              && (forall j :: 0 <= j < m.slotSize && j != idx ==>
                    r.mgr.hazptrs[i].cells[j] == (if t in m.tls then m.hazptrs[i].cells[j] else HazPtr.NULL))
              && (forall j :: 0 <= j < m.threadCnt && j != i ==> r.mgr.hazptrs[j] == m.hazptrs[j])
              && r.mgr.retired == HazPtr.GetContext(m, t).mgr.retired
    ensures t in m.tls ==> r.mgr.tls == m.tls && r.mgr.retired == m.retired
  {
    HazPtr.SetHazptr(m, t, idx, p)
  }

  /** `retire`: push `p` onto the caller's own list and count it. A caller
      that obtains a slot during the call starts a list holding `p` alone;
      every other list and every announcement is left as it was. */
  function Retire(m: Manager, t: ThreadId, p: Ptr): (r: Manager)
    requires HazPtr.Valid(m)
    ensures HazPtr.Valid(r) && r.threadCnt == m.threadCnt && r.slotSize == m.slotSize
    ensures HazPtr.GetContext(m, t).res.None? ==> r == m
    ensures HazPtr.GetContext(m, t).res.Some? ==>
              var i := HazPtr.GetContext(m, t).res.value;
              && t in r.tls && r.tls[t] == i
              && r.retired[i].nodes == [p] + (if t in m.tls then m.retired[i].nodes else [])
              && r.retired[i].cnt == (if t in m.tls then m.retired[i].cnt else 0) + 1
              && (forall j :: 0 <= j < m.threadCnt && j != i ==> r.retired[j] == m.retired[j])
              && (forall j :: 0 <= j < m.threadCnt && j != i ==> r.hazptrs[j] == m.hazptrs[j])
    ensures t in m.tls ==> r.tls == m.tls && r.hazptrs == m.hazptrs
  {
    HazPtr.Retire(m, t, p)
  }

  /** `check_hazptr`: consults the caller's own cells only. */
  function CheckHazptr(m: Manager, t: ThreadId, p: Ptr): (r: HazPtr.Out<bool>)
    requires HazPtr.Valid(m)
    ensures HazPtr.Valid(r.mgr)
    ensures t in m.tls ==> r.mgr == m && (r.res <==> p in m.hazptrs[m.tls[t]].cells)
    ensures HazPtr.GetContext(m, t).res.None? ==> !r.res
  {
    HazPtr.CheckHazptr(m, t, p)
  }

  /** `delete_no_hazard_local`: the caller frees exactly its retired
      pointers that no claimed slot announces, keeps the announced ones in
      reverse order, and its counter reads 0 afterwards. Other threads'
      lists and all announcements are left as they were; a caller that
      obtains a slot during the call has nothing to free. */
  function DeleteNoHazardLocal(m: Manager, t: ThreadId): (r: HazPtr.Out<seq<Ptr>>)
    requires HazPtr.Valid(m)
    ensures HazPtr.Valid(r.mgr) && r.mgr.threadCnt == m.threadCnt && r.mgr.slotSize == m.slotSize
    ensures HazPtr.GetContext(m, t).res.None? ==> r == HazPtr.Out([], m)
    ensures HazPtr.GetContext(m, t).res.Some? ==>
              var i := HazPtr.GetContext(m, t).res.value;
              var mid := HazPtr.GetContext(m, t).mgr;
              && (forall p :: p in r.res <==> p in mid.retired[i].nodes && !HazPtr.Announced(mid, p))
              && (forall p :: p in r.mgr.retired[i].nodes <==> p in mid.retired[i].nodes && HazPtr.Announced(mid, p))
              && multiset(r.res) + multiset(r.mgr.retired[i].nodes) == multiset(mid.retired[i].nodes)
              && r.mgr.retired[i].nodes == Reverse(HazPtr.Protected(mid.retired[i].nodes, HazPtr.CollectAll(mid)))
              && r.mgr.retired[i].cnt == 0
              && (forall j :: 0 <= j < m.threadCnt && j != i ==> r.mgr.retired[j] == m.retired[j])
              && r.mgr.hazptrs == mid.hazptrs && r.mgr.tls == mid.tls
    ensures t !in m.tls && HazPtr.GetContext(m, t).res.Some? ==> r.res == [] && r.mgr.retired == HazPtr.GetContext(m, t).mgr.retired
    ensures t in m.tls ==> r.mgr.tls == m.tls && r.mgr.hazptrs == m.hazptrs
  {
    if HazPtr.GetContext(m, t).res.Some? then
      HazPtr.ReclaimPartition(m, t);
      HazPtr.ReclaimLocal(m, t)
    else
      HazPtr.ReclaimLocal(m, t)
  }

  /** The clearing idiom of the stack that uses this manager: announcing
      `p` and then `nullptr` in the same cell leaves the caller announcing
      `p` only if another of its cells does, and the context as it was
      except for that cell. */
  lemma ClearByNull(m: Manager, t: ThreadId, idx: nat, p: Ptr)
    requires HazPtr.Valid(m) && t in m.tls && idx < m.slotSize
    ensures var m2 := SetHazptr(SetHazptr(m, t, idx, p).mgr, t, idx, HazPtr.NULL).mgr;
            && m2.hazptrs[m.tls[t]].cells == m.hazptrs[m.tls[t]].cells[idx := HazPtr.NULL]
            && (CheckHazptr(m2, t, p).res <==> p in m.hazptrs[m.tls[t]].cells[idx := HazPtr.NULL])
  {
    var m2 := SetHazptr(SetHazptr(m, t, idx, p).mgr, t, idx, HazPtr.NULL).mgr;
    assert m2.hazptrs[m.tls[t]].cells == m.hazptrs[m.tls[t]].cells[idx := HazPtr.NULL];
  }

  /** Retiring and then reclaiming: a registered caller frees the pointer
      it just retired exactly when no claimed slot announces it, and
      otherwise keeps it on its list. */
  lemma RetireThenDelete(m: Manager, t: ThreadId, p: Ptr)
    requires HazPtr.Valid(m) && t in m.tls
    ensures var r := DeleteNoHazardLocal(Retire(m, t, p), t);
            && (p in r.res <==> !HazPtr.Announced(m, p))
            && (p in r.mgr.retired[m.tls[t]].nodes <==> HazPtr.Announced(m, p))
  {
    var m1 := Retire(m, t, p);
    var i := m.tls[t];
    assert m1.retired[i].nodes == [p] + m.retired[i].nodes;
    assert m1.hazptrs == m.hazptrs && m1.owners == m.owners;
    assert HazPtr.Announced(m1, p) <==> HazPtr.Announced(m, p);
  }
}
