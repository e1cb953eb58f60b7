/**
  `QSBRGuard`: a scoped critical zone. Construction enters the zone of the
  calling thread; destruction exits it if the guard still holds its manager;
  moving transfers that obligation and leaves the source empty.

  The model keeps all guards of one manager in a sequence (a guard is
  identified by its position) together with the manager state and two
  counters: guards constructed and zone exits performed by guards. A
  destroyed guard is left in the sequence as an empty guard.
*/
module QsbrGuard {
  import opened Qsbr

  /** `mgr_ != nullptr`. */
  datatype Guard = Guard(holds: bool)

  datatype GuardWorld<V> = GuardWorld(mgr: Manager<V>, guards: seq<Guard>, constructed: nat, exits: nat)

  /** Number of guards that still hold the manager. */
  function Holding(gs: seq<Guard>): (r: nat)
    ensures r <= |gs|
  {
    if |gs| == 0 then 0 else (if gs[0].holds then 1 else 0) + Holding(gs[1..])
  }

  lemma {:induction false} HoldingUpdate(gs: seq<Guard>, i: nat, g: Guard)
    requires i < |gs|
    ensures Holding(gs[i := g]) + (if gs[i].holds then 1 else 0) == Holding(gs) + (if g.holds then 1 else 0)
  {
    if i > 0 {
      HoldingUpdate(gs[1..], i - 1, g);
      assert gs[i := g][1..] == gs[1..][i - 1 := g];
    }
  }

  lemma {:induction false} HoldingAppend(gs: seq<Guard>, g: Guard)
    ensures Holding(gs + [g]) == Holding(gs) + (if g.holds then 1 else 0)
  {
    if |gs| > 0 {
      HoldingAppend(gs[1..], g);
      assert (gs + [g])[1..] == gs[1..] + [g];
    }
  }

  /** The balance invariant: every constructed guard has either performed
      its one exit or still holds the obligation to do so. */
  ghost predicate Balanced<V>(w: GuardWorld<V>) {
    Holding(w.guards) + w.exits == w.constructed
  }

  /** The guard constructor, run by thread `t`: enter the zone. */
  function Construct<V>(w: GuardWorld<V>, t: ThreadId): (r: GuardWorld<V>)
    requires Valid(w.mgr)
    ensures Valid(r.mgr)
    ensures r.mgr == Enter(w.mgr, t).mgr
    ensures |r.guards| == |w.guards| + 1 && r.guards[|w.guards|].holds
    ensures r.guards[..|w.guards|] == w.guards
    ensures Balanced(w) ==> Balanced(r)
  {
    HoldingAppend(w.guards, Guard(true));
    w.(mgr := Enter(w.mgr, t).mgr, guards := w.guards + [Guard(true)], constructed := w.constructed + 1)
  }

  /** The move constructor: the new guard takes the source's manager and the
      source is nulled. The zone is neither entered nor exited. */
  function MoveConstruct<V>(w: GuardWorld<V>, src: nat): (r: GuardWorld<V>)
    requires src < |w.guards|
    ensures r.mgr == w.mgr
    ensures |r.guards| == |w.guards| + 1
    ensures r.guards[|w.guards|].holds == w.guards[src].holds && !r.guards[src].holds
    ensures forall j :: 0 <= j < |w.guards| && j != src ==> r.guards[j] == w.guards[j]
    ensures Balanced(w) ==> Balanced(r)
  {
    var gs := w.guards[src := Guard(false)];
    HoldingUpdate(w.guards, src, Guard(false));
    HoldingAppend(gs, w.guards[src]);
    w.(guards := gs + [w.guards[src]])
  }

  /** Move assignment `guards[dst] = std::move(guards[src])`, run by thread
      `t`: a no-op on itself; otherwise exit the target's zone if it holds a
      manager, then take the source's manager and null the source. */
  function MoveAssign<V>(w: GuardWorld<V>, t: ThreadId, dst: nat, src: nat): (r: GuardWorld<V>)
    requires Valid(w.mgr) && dst < |w.guards| && src < |w.guards|
    ensures Valid(r.mgr) && |r.guards| == |w.guards|
    ensures dst == src ==> r == w
    ensures dst != src ==>
              && r.mgr == (if w.guards[dst].holds then Exit(w.mgr, t).mgr else w.mgr)
              && r.guards[dst].holds == w.guards[src].holds
              && !r.guards[src].holds
              && (forall j :: 0 <= j < |w.guards| && j != src && j != dst ==> r.guards[j] == w.guards[j])
    ensures Balanced(w) ==> Balanced(r)
  {
    if dst == src then w
    else
      var mgr := if w.guards[dst].holds then Exit(w.mgr, t).mgr else w.mgr;
      var exits := if w.guards[dst].holds then w.exits + 1 else w.exits;
      var gs1 := w.guards[dst := Guard(w.guards[src].holds)];
      var gs2 := gs1[src := Guard(false)];
      HoldingUpdate(w.guards, dst, Guard(w.guards[src].holds));
      HoldingUpdate(gs1, src, Guard(false));
      GuardWorld(mgr, gs2, w.constructed, exits)
  }

  /** The destructor, run by thread `t`: exit the zone only if the guard
      still holds a manager. */
  function Destroy<V>(w: GuardWorld<V>, t: ThreadId, g: nat): (r: GuardWorld<V>)
    requires Valid(w.mgr) && g < |w.guards|
    ensures Valid(r.mgr) && |r.guards| == |w.guards|
    ensures r.mgr == (if w.guards[g].holds then Exit(w.mgr, t).mgr else w.mgr)
    ensures !r.guards[g].holds
    ensures forall j :: 0 <= j < |w.guards| && j != g ==> r.guards[j] == w.guards[j]
    ensures Balanced(w) ==> Balanced(r)
  {
    HoldingUpdate(w.guards, g, Guard(false));
    if w.guards[g].holds then
      GuardWorld(Exit(w.mgr, t).mgr, w.guards[g := Guard(false)], w.constructed, w.exits + 1)
    else
      w.(guards := w.guards[g := Guard(false)])
  }

  /** In a balanced world guards have exited at most once each. */
  lemma AtMostOneExitPerGuard<V>(w: GuardWorld<V>)
    requires Balanced(w)
    ensures w.exits <= w.constructed
    ensures w.exits == w.constructed <==> Holding(w.guards) == 0
  {
  }

  /** A guard's scope on a registered, quiescent thread brackets exactly one
      critical zone: entered on construction, left on destruction. */
  lemma ScopeBracketsZone<V>(w: GuardWorld<V>, t: ThreadId)
    requires Valid(w.mgr) && t in w.mgr.tls && !IsCriticalEpoch(w.mgr.epochs[w.mgr.tls[t]])
    ensures Enter(w.mgr, t).res
    ensures Exit(Construct(w, t).mgr, t).res
    ensures Destroy(Construct(w, t), t, |w.guards|).mgr.epochs[w.mgr.tls[t]]
            == NextEpoch(NextEpoch(w.mgr.epochs[w.mgr.tls[t]]))
  {
    EnterThenExit(w.mgr, t);
  }
}
