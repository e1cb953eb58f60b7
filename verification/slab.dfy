/**
  A slab: a buffer cut into `num_objs` objects of `obj_size` bytes, whose
  free objects form an intrusive singly linked list. The first word of a
  free object holds the address of the next free object, and `freelist`
  holds the first.

  Addresses are numbers and `NULL` is 0. Memory is a map from the address
  of a pointer-sized word to the address stored there; a word never written
  reads as `NULL`.
*/
module Slab {

  type Addr = nat

  const NULL: Addr := 0
  /** The size of `void *`: an object must be at least this large to hold
      its link without overlapping the next object. */
  const PTR_SIZE: nat := 8

  datatype Slab = Slab(freelist: Addr, memory: Addr, objSize: nat, mem: map<Addr, Addr>)

  /** The word stored at `a`. */
  function Read(mem: map<Addr, Addr>, a: Addr): Addr {
    if a in mem then mem[a] else NULL
  }

  /** The free list of `s` is exactly `list`: following the stored links
      from `freelist` visits its elements in order, none of them `NULL`,
      and then reaches `NULL`. */
  ghost predicate IsChain(mem: map<Addr, Addr>, head: Addr, list: seq<Addr>)
    decreases |list|
  {
    if |list| == 0 then head == NULL
    else head == list[0] && head != NULL && IsChain(mem, Read(mem, head), list[1..])
  }

  /*---------------------------------------------------------------------------
    slab_init
  ---------------------------------------------------------------------------*/

  /** The address of object `i`. */
  function Obj(base: Addr, size: nat, i: nat): Addr {
    base + i * size
  }

  /** The link `slab_init` stores in object `i` of `n`: the next object,
      or `NULL` in the last. */
  function NextOf(base: Addr, size: nat, n: nat, i: nat): Addr {
    if i + 1 < n then Obj(base, size, i + 1) else NULL
  }

  /** Objects lie in ascending address order. */
  lemma {:induction false} ObjAscending(base: Addr, size: nat, i: nat, j: nat)
    requires size > 0 && i < j
    decreases j - i
    ensures Obj(base, size, i) < Obj(base, size, j)
  {
    assert Obj(base, size, j) == Obj(base, size, j - 1) + size;
    if i < j - 1 {
      ObjAscending(base, size, i, j - 1);
    }
  }

  /** The writes of `slab_init` from object `i` on: the loop body for each
      `i < n - 1`, then the write of `NULL` into the last object. Every
      object from `i` on gets its link, and every word below object `i`
      keeps its value. */
  function Links(mem: map<Addr, Addr>, base: Addr, size: nat, n: nat, i: nat): (r: map<Addr, Addr>)
    requires size > 0 && i < n
    decreases n - i
    ensures forall j :: i <= j < n ==> Read(r, Obj(base, size, j)) == NextOf(base, size, n, j)
    ensures forall a: Addr :: a < Obj(base, size, i) ==> Read(r, a) == Read(mem, a)
  {
    if i == n - 1 then mem[Obj(base, size, i) := NULL]
    else
      ObjAscending(base, size, i, i + 1);
      var r := Links(mem[Obj(base, size, i) := Obj(base, size, i + 1)], base, size, n, i + 1);
      assert forall j :: i < j < n ==> Obj(base, size, i) < Obj(base, size, j) by {
        forall j | i < j < n
          ensures Obj(base, size, i) < Obj(base, size, j)
        {
          ObjAscending(base, size, i, j);
        }
      }
      r
  }

  /** `slab_init`. The loop bound `num_objs - 1` is unsigned, so the slab
      needs at least one object; the buffer must be a real address and
      each object large enough for a link. */
  function Init(mem: map<Addr, Addr>, memory: Addr, objSize: nat, numObjs: nat): (s: Slab)
    requires numObjs >= 1 && memory != NULL && objSize >= PTR_SIZE
    ensures s.freelist == memory && s.memory == memory && s.objSize == objSize
  {
    Slab(memory, memory, objSize, Links(mem, memory, objSize, numObjs, 0))
  }

  /** The objects of the buffer, in address order. */
  function Objects(base: Addr, size: nat, n: nat): (r: seq<Addr>)
    ensures |r| == n && forall i :: 0 <= i < n ==> r[i] == Obj(base, size, i)
  {
    seq(n, i requires 0 <= i < n => Obj(base, size, i))
  }

  /** The objects are distinct, ascending and never `NULL`. */
  lemma ObjectsDistinct(base: Addr, size: nat, n: nat)
    requires base != NULL && size > 0
    ensures forall i :: 0 <= i < n ==> Objects(base, size, n)[i] != NULL
    ensures forall i, j :: 0 <= i < j < n ==> Objects(base, size, n)[i] < Objects(base, size, n)[j]
  {
    forall i, j | 0 <= i < j < n
      ensures Objects(base, size, n)[i] < Objects(base, size, n)[j]
    {
      ObjAscending(base, size, i, j);
    }
  }

  lemma {:induction false} LinksChain(mem: map<Addr, Addr>, base: Addr, size: nat, n: nat, i: nat)
    requires base != NULL && size > 0 && i < n
    requires forall j :: 0 <= j < n ==> Read(mem, Obj(base, size, j)) == NextOf(base, size, n, j)
    decreases n - i
    ensures IsChain(mem, Obj(base, size, i), Objects(base, size, n)[i..])
  {
    var objs := Objects(base, size, n);
    if i + 1 < n {
      LinksChain(mem, base, size, n, i + 1);
      assert objs[i..][1..] == objs[i + 1..];
    } else {
      assert objs[i..][1..] == [];
    }
  }

  /** After `slab_init` the free list visits every object, first to last,
      and ends in `NULL`. */
  lemma InitChain(mem: map<Addr, Addr>, memory: Addr, objSize: nat, numObjs: nat)
    requires numObjs >= 1 && memory != NULL && objSize >= PTR_SIZE
    ensures var s := Init(mem, memory, objSize, numObjs);
      IsChain(s.mem, s.freelist, Objects(memory, objSize, numObjs))
  {
    var s := Init(mem, memory, objSize, numObjs);
    LinksChain(s.mem, memory, objSize, numObjs, 0);
    assert Objects(memory, objSize, numObjs)[0..] == Objects(memory, objSize, numObjs);
  }

  /*---------------------------------------------------------------------------
    slab_alloc and slab_free
  ---------------------------------------------------------------------------*/

  datatype AllocResult = AllocResult(obj: Addr, slab: Slab)

  /** `slab_alloc`: `NULL` on an empty free list; otherwise the head, with
      the free list advanced to the link stored in it. */
  function Alloc(s: Slab): (r: AllocResult)
    ensures r.slab.memory == s.memory && r.slab.objSize == s.objSize && r.slab.mem == s.mem
    ensures r.obj == NULL <==> s.freelist == NULL
    ensures s.freelist == NULL ==> r.slab == s
  {
    if s.freelist == NULL then AllocResult(NULL, s)
    else AllocResult(s.freelist, s.(freelist := Read(s.mem, s.freelist)))
  }

  /** `slab_free`: store the old head in `obj` and make `obj` the head. */
  function Free(s: Slab, obj: Addr): (r: Slab)
    requires obj != NULL
    ensures r.memory == s.memory && r.objSize == s.objSize
    ensures r.freelist == obj && Read(r.mem, obj) == s.freelist
  {
    s.(freelist := obj, mem := s.mem[obj := s.freelist])
  }

  /** Allocation pops the head of the free list. */
  lemma AllocPops(s: Slab, list: seq<Addr>)
    requires IsChain(s.mem, s.freelist, list)
    ensures Alloc(s).obj == NULL <==> |list| == 0
    ensures |list| > 0 ==> Alloc(s).obj == list[0] && IsChain(Alloc(s).slab.mem, Alloc(s).slab.freelist, list[1..])
  {
  }

  /** A write outside the list leaves the chain intact. */
  lemma {:induction false} ChainFrame(mem: map<Addr, Addr>, head: Addr, list: seq<Addr>, a: Addr, v: Addr)
    requires a !in list
    decreases |list|
    ensures IsChain(mem[a := v], head, list) <==> IsChain(mem, head, list)
  {
    if |list| > 0 {
      assert list[0] != a;
      assert forall x :: x in list[1..] ==> x in list;
      ChainFrame(mem, Read(mem, list[0]), list[1..], a, v);
    }
  }

  /** Freeing an object not on the free list pushes it on the front. */
  lemma FreePushes(s: Slab, list: seq<Addr>, obj: Addr)
    requires IsChain(s.mem, s.freelist, list) && obj != NULL && obj !in list
    ensures IsChain(Free(s, obj).mem, Free(s, obj).freelist, [obj] + list)
  {
    ChainFrame(s.mem, s.freelist, list, obj, s.freelist);
    assert ([obj] + list)[1..] == list;
  }

  /** Last in, first out: allocating right after freeing `obj` returns
      `obj` and restores the old free list. */
  lemma FreeThenAlloc(s: Slab, obj: Addr, list: seq<Addr>)
    requires obj != NULL && IsChain(s.mem, s.freelist, list) && obj !in list
    ensures Alloc(Free(s, obj)).obj == obj
    ensures Alloc(Free(s, obj)).slab.freelist == s.freelist
    ensures IsChain(Alloc(Free(s, obj)).slab.mem, Alloc(Free(s, obj)).slab.freelist, list)
  {
    FreePushes(s, list, obj);
    AllocPops(Free(s, obj), [obj] + list);
    assert ([obj] + list)[1..] == list;
  }

  /** `n` allocations in a row: the objects returned and the slab after. */
  function AllocMany(s: Slab, n: nat): (r: (seq<Addr>, Slab))
    decreases n
    ensures |r.0| == n && r.1.memory == s.memory && r.1.objSize == s.objSize
  {
    if n == 0 then ([], s)
    else
      var first := Alloc(s);
      var rest := AllocMany(first.slab, n - 1);
      ([first.obj] + rest.0, rest.1)
  }

  /** Allocating as often as the free list is long returns its objects in
      order and leaves it empty. */
  lemma {:induction false} AllocDrains(s: Slab, list: seq<Addr>)
    requires IsChain(s.mem, s.freelist, list)
    decreases |list|
    ensures AllocMany(s, |list|).0 == list
    ensures AllocMany(s, |list|).1.freelist == NULL
  {
    if |list| > 0 {
      AllocPops(s, list);
      AllocDrains(Alloc(s).slab, list[1..]);
      assert list == [list[0]] + list[1..];
    }
  }

  /** After `slab_init`, exactly `num_objs` allocations succeed, returning
      the objects in address order, and the next one returns `NULL`; the
      buffer and the object size never change. */
  lemma InitThenAllocAll(mem: map<Addr, Addr>, memory: Addr, objSize: nat, numObjs: nat)
    requires numObjs >= 1 && memory != NULL && objSize >= PTR_SIZE
    ensures var s := Init(mem, memory, objSize, numObjs);
      var r := AllocMany(s, numObjs);
      && r.0 == Objects(memory, objSize, numObjs)
      && Alloc(r.1).obj == NULL
      && r.1.memory == memory && r.1.objSize == objSize
  {
    var s := Init(mem, memory, objSize, numObjs);
    InitChain(mem, memory, objSize, numObjs);
    AllocDrains(s, Objects(memory, objSize, numObjs));
  }
}
