/**
  The implicit-list allocator of `mm_malloc_v1.cpp`. The heap is a run of
  blocks. Each block has a header word before its payload and a footer word
  at its end. Both words pack the block size, a multiple of 16, with an
  "allocated" bit. The run starts with an always-allocated prologue block
  and ends with a zero-size, allocated epilogue header.

  Addresses are byte offsets from `mem_heap`. Memory is the words stored so
  far, by address, over the whole mapping; a word never stored reads as
  zero, as fresh anonymous memory does. The break is an offset too.
*/
module MmMalloc {
  import opened Wrappers

  const WORD_LIMIT: nat := 0x1_0000_0000_0000_0000
  /** A `uintptr_t`. */
  type Word = w: nat | w < WORD_LIMIT

  const MAX_HEAP: nat := 0x1_0000_0000
  const WSIZE: nat := 8
  const DSIZE: nat := 16
  const CHUNKSIZE: nat := 0x1000
  /** Word counts are byte sizes divided by `WSIZE`. */
  const MAX_WORDCNT: nat := 0x2000_0000_0000_0000
  const ENOMEM: int := 12

  /*---------------------------------------------------------------------------
    Header words
  ---------------------------------------------------------------------------*/

  /** `pack(size, alloc)`, that is `size | alloc`, for an alloc bit of 0
      or 1: or-ing 1 into an odd number leaves it unchanged. */
  function Pack(size: Word, alloc: Word): (r: Word)
    requires alloc <= 1
    ensures size % 16 == 0 ==> GetSize(r) == size && GetAlloc(r) == alloc
  {
    LowBits(size, alloc);
    if size % 2 == 1 then size else size + alloc
  }

  /** Adding the alloc bit to a multiple of 16 sets only the lowest bit. */
  lemma LowBits(size: nat, alloc: nat)
    requires alloc <= 1
    ensures size % 16 == 0 ==> (size + alloc) % 16 == alloc && (size + alloc) % 2 == alloc
  {
    if size % 16 == 0 {
      var k := size / 16;
      assert size == 16 * k;
      EvenPlus(8 * k, alloc);
    }
  }

  lemma EvenPlus(m: int, b: nat)
    requires b <= 1
    ensures (2 * m + b) % 2 == b
  {
  }

  /** `get_size`: the word with its low four bits cleared. */
  function GetSize(w: Word): (r: Word)
    ensures r % 16 == 0 && r <= w < r + DSIZE
  {
    w - w % 16
  }

  /** `get_alloc`: the lowest bit. */
  function GetAlloc(w: Word): (r: Word)
    ensures r <= 1 && (r == 1 <==> w % 2 == 1)
  {
    w % 2
  }

  /** The arithmetic forms above are the bit operations of the source:
      or-ing 1 into an even word adds it and leaves an odd word alone, and
      the masks take the remainders by 16 and by 2. */
  lemma OrBitEven(a: bv64, b: bv64)
    requires (a & 1) == 0 && b <= 1
    ensures a | b == a + b
  {
  }

  lemma OrBitOdd(a: bv64)
    requires (a & 1) == 1
    ensures a | 1 == a
  {
  }

  lemma GetSizeIsMask(w: bv64)
    ensures (w & !0xF) == w - w % 16
  {
    assert (w & 0xF) == w % 16;
    assert (w & !0xF) + (w & 0xF) == w;
  }

  lemma GetAllocIsMask(w: bv64)
    ensures (w & 0x1) == w % 2
  {
  }

  /*---------------------------------------------------------------------------
    mem_sbrk
  ---------------------------------------------------------------------------*/

  /** `(void *)-1`, which no heap offset equals. */
  const SBRK_FAILED: int := -1

  datatype SbrkResult = SbrkResult(ret: int, brk: nat, errno: int)

  /** `mem_sbrk(incr)` with the break at `brk`. The `incr < 0` test of the
      source is always false for a `size_t`. */
  function MemSbrk(brk: nat, errno: int, incr: Word): (r: SbrkResult)
    ensures r.ret == SBRK_FAILED <==> brk + incr > MAX_HEAP
    ensures r.ret == SBRK_FAILED ==> r.brk == brk && r.errno == ENOMEM
    ensures r.ret != SBRK_FAILED ==> r.ret == brk && r.brk == brk + incr && r.errno == errno
  {
    if brk + incr > MAX_HEAP then SbrkResult(SBRK_FAILED, brk, ENOMEM)
    else SbrkResult(brk, brk + incr, errno)
  }

  /** The break never passes the end of the heap. */
  lemma SbrkBounded(brk: nat, errno: int, incr: Word)
    requires brk <= MAX_HEAP
    ensures MemSbrk(brk, errno, incr).brk <= MAX_HEAP
  {
  }

  /** Two successful calls move the break as far as one call asking for
      both, and one call for both succeeds exactly when the two do. */
  lemma SbrkAdditive(brk: nat, errno: int, a: Word, b: Word)
    requires a + b < WORD_LIMIT
    ensures var first := MemSbrk(brk, errno, a);
      var second := MemSbrk(first.brk, first.errno, b);
      var both := MemSbrk(brk, errno, a + b);
      && (both.ret != SBRK_FAILED <==> first.ret != SBRK_FAILED && second.ret != SBRK_FAILED)
      && (both.ret != SBRK_FAILED ==> both.brk == second.brk && both.ret == first.ret)
  {
  }

  /*---------------------------------------------------------------------------
    Heap memory
  ---------------------------------------------------------------------------*/

  /** The mapping at `mem_heap`: the words stored so far, by address, and
      the break. */
  datatype Heap = Heap(mem: map<int, Word>, brk: nat)

  /** `get`: the word at address `a`. */
  function Read(h: Heap, a: int): Word {
    if a in h.mem then h.mem[a] else 0
  }

  /** `put`: store `v` at address `a`. */
  function Put(h: Heap, a: int, v: Word): (r: Heap)
    ensures r.brk == h.brk && Read(r, a) == v
  {
    h.(mem := h.mem[a := v])
  }

  /** The size and alloc bit in the header of the block at `bp`. */
  function SizeAt(h: Heap, bp: int): Word {
    GetSize(Read(h, bp - WSIZE))
  }

  function AllocAt(h: Heap, bp: int): Word {
    GetAlloc(Read(h, bp - WSIZE))
  }

  /** `get_ftr_ptr`, `get_next_blkptr` and `get_prev_blkptr`. */
  function FtrAddr(h: Heap, bp: int): int {
    bp + SizeAt(h, bp) - DSIZE
  }

  function NextBp(h: Heap, bp: int): int {
    bp + SizeAt(h, bp)
  }

  function PrevBp(h: Heap, bp: int): int {
    bp - GetSize(Read(h, bp - DSIZE))
  }

  /** Write the header and then the footer of the block at `bp`; the footer
      address comes from the header just written. */
  function Mark(h: Heap, bp: int, size: Word, alloc: Word): (r: Heap)
    requires alloc <= 1
    ensures r.brk == h.brk
    ensures size % 16 == 0 ==>
      && SizeAt(r, bp) == size && AllocAt(r, bp) == alloc
      && Read(r, bp + size - DSIZE) == Pack(size, alloc)
  {
    var w := Put(h, bp - WSIZE, Pack(size, alloc));
    Put(w, FtrAddr(w, bp), Pack(size, alloc))
  }

  /** `Mark` stores nothing but the header and the footer. */
  lemma MarkFrame(h: Heap, bp: int, size: Word, alloc: Word, a: int)
    requires alloc <= 1 && size % 16 == 0 && a != bp - WSIZE && a != bp + size - DSIZE
    ensures Read(Mark(h, bp, size, alloc), a) == Read(h, a)
  {
  }

  /*---------------------------------------------------------------------------
    extend_heap and mm_init
  ---------------------------------------------------------------------------*/

  /** The bytes `extend_heap(wordcnt)` asks for: an odd word count is
      rounded up to even, so the extension is a whole number of double
      words, and the least one holding `wordcnt` words. The count is some
      `size_t` divided by `WSIZE`; the product wraps like a `uintptr_t`. */
  function ExtendBytes(wordcnt: nat): (r: Word)
    requires wordcnt < MAX_WORDCNT
    ensures r % 16 == 0
    ensures wordcnt + 1 < MAX_WORDCNT ==> wordcnt * 8 <= r < wordcnt * 8 + DSIZE
  {
    (if wordcnt % 2 == 1 then (wordcnt + 1) * 8 else wordcnt * 8) % 0x1_0000_0000_0000_0000
  }

  datatype Extension = ExtendFailed | Extended(heap: Heap, bp: nat)

  /** `extend_heap` up to its call of `coalesce`: move the break by
      `ExtendBytes(wordcnt)`, make the new memory one free block whose
      header replaces the old epilogue, and put a new epilogue after it. */
  function ExtendHeap(h: Heap, wordcnt: nat): (r: Extension)
    requires wordcnt < MAX_WORDCNT
    ensures r.ExtendFailed? <==> h.brk + ExtendBytes(wordcnt) > MAX_HEAP
    ensures r.Extended? ==> r.bp == h.brk && r.heap.brk == h.brk + ExtendBytes(wordcnt)
  {
    var size := ExtendBytes(wordcnt);
    // errno is not observed by the allocator
    var s := MemSbrk(h.brk, 0, size);
    if s.ret == SBRK_FAILED then ExtendFailed
    else
      Extended(NewBlock(h.(brk := s.brk), h.brk, size), h.brk)
  }

  /** The stores of `extend_heap` at the old break `bp`: the header and
      footer of a free block of `size` bytes, then an epilogue header after
      it, found through the header just written. */
  function NewBlock(g: Heap, bp: int, size: Word): Heap {
    var marked := Mark(g, bp, size, 0);
    Put(marked, NextBp(marked, bp) - WSIZE, Pack(0, 1))
  }

  /** A successful extension by a nonzero size is a free block of that
      size with a matching footer, followed by a new epilogue. */
  lemma ExtendHeapShape(h: Heap, wordcnt: nat)
    requires 0 < wordcnt && wordcnt + 1 < MAX_WORDCNT
    requires ExtendHeap(h, wordcnt).Extended?
    ensures var r := ExtendHeap(h, wordcnt); var size := ExtendBytes(wordcnt);
      && SizeAt(r.heap, r.bp) == size && AllocAt(r.heap, r.bp) == 0
      && Read(r.heap, r.bp + size - DSIZE) == Pack(size, 0)
      && SizeAt(r.heap, r.bp + size) == 0 && AllocAt(r.heap, r.bp + size) == 1
  {
    var size := ExtendBytes(wordcnt);
    ExtendBytesBlock(wordcnt);
    ExtendHeapIs(h, wordcnt);
    NewBlockWrites(h.(brk := h.brk + size), h.brk, size);
  }

  /** A successful extension by a nonzero size changes no word below the
      old epilogue. */
  lemma ExtendHeapFrame(h: Heap, wordcnt: nat)
    requires 0 < wordcnt && wordcnt + 1 < MAX_WORDCNT
    requires ExtendHeap(h, wordcnt).Extended?
    ensures var r := ExtendHeap(h, wordcnt);
      forall a :: a < r.bp - WSIZE ==> Read(r.heap, a) == Read(h, a)
  {
    var size := ExtendBytes(wordcnt);
    ExtendBytesBlock(wordcnt);
    ExtendHeapIs(h, wordcnt);
    NewBlockFrame(h.(brk := h.brk + size), h.brk, size);
  }

  /** A nonzero word count asks for at least a minimum block. */
  lemma ExtendBytesBlock(wordcnt: nat)
    requires 0 < wordcnt && wordcnt + 1 < MAX_WORDCNT
    ensures ExtendBytes(wordcnt) >= DSIZE && ExtendBytes(wordcnt) % 16 == 0
  {
  }

  /** A successful extension stores a new block at the old break. */
  lemma ExtendHeapIs(h: Heap, wordcnt: nat)
    requires wordcnt < MAX_WORDCNT && ExtendHeap(h, wordcnt).Extended?
    ensures var size := ExtendBytes(wordcnt);
      ExtendHeap(h, wordcnt) == Extended(NewBlock(h.(brk := h.brk + size), h.brk, size), h.brk)
  {
  }

  /** The epilogue of a new block goes right after it. */
  lemma NewBlockIs(g: Heap, bp: int, size: Word)
    requires size % 16 == 0
    ensures NewBlock(g, bp, size) == Put(Mark(g, bp, size, 0), bp + size - WSIZE, 1)
  {
    assert Pack(0, 1) == 1;
  }

  /** The stores of `extend_heap` for a new block of `size` bytes at `bp`:
      a free block with matching footer, then the new epilogue. */
  lemma NewBlockWrites(g: Heap, bp: int, size: Word)
    requires size >= DSIZE && size % 16 == 0
    ensures var r := NewBlock(g, bp, size);
      && SizeAt(r, bp) == size && AllocAt(r, bp) == 0
      && Read(r, bp + size - DSIZE) == Pack(size, 0)
      && SizeAt(r, bp + size) == 0 && AllocAt(r, bp + size) == 1
  {
    var m := Mark(g, bp, size, 0);
    NewBlockIs(g, bp, size);
    NewBlockEpilogue(m, bp, size);
    MarkFooter(g, bp, size);
  }

  /** The free block's header and footer as `Mark` writes them. */
  lemma MarkFooter(g: Heap, bp: int, size: Word)
    requires size >= DSIZE && size % 16 == 0
    ensures var m := Mark(g, bp, size, 0);
      && SizeAt(m, bp) == size && AllocAt(m, bp) == 0
      && Read(m, bp + size - DSIZE) == Pack(size, 0)
  {
  }

  /** No store of `extend_heap` lands below the old epilogue. */
  lemma NewBlockFrame(g: Heap, bp: int, size: Word)
    requires size >= DSIZE && size % 16 == 0
    ensures var r := NewBlock(g, bp, size);
      forall a :: a < bp - WSIZE ==> Read(r, a) == Read(g, a)
  {
    var m := Mark(g, bp, size, 0);
    NewBlockIs(g, bp, size);
    NewBlockEpilogue(m, bp, size);
    forall a | a < bp - WSIZE
      ensures Read(m, a) == Read(g, a)
    {
      MarkFrame(g, bp, size, 0, a);
    }
  }

  /** The epilogue header stored after a block: size zero, allocated, and
      every word below it as before, in particular the block's header and
      footer. */
  lemma NewBlockEpilogue(m: Heap, bp: int, size: Word)
    requires size >= DSIZE
    ensures var r := Put(m, bp + size - WSIZE, 1);
      && SizeAt(r, bp + size) == 0 && AllocAt(r, bp + size) == 1
      && forall a :: a < bp + size - WSIZE ==> Read(r, a) == Read(m, a)
  {
  }

  datatype InitResult = InitFailed | Initialized(heap: Heap, listp: nat)

  /** The four words `mm_init` writes first: a zero pad, the prologue's
      header and footer, both `(DSIZE, allocated)`, and an epilogue header
      `(0, allocated)`. */
  function InitLayout(h: Heap): (r: Heap)
    ensures r.brk == h.brk && Read(r, 0) == 0
    ensures Read(r, WSIZE) == Pack(DSIZE, 1) && Read(r, 2 * WSIZE) == Pack(DSIZE, 1)
    ensures Read(r, 3 * WSIZE) == Pack(0, 1)
    ensures GetSize(Read(r, WSIZE)) == DSIZE && GetAlloc(Read(r, WSIZE)) == 1
    ensures GetSize(Read(r, 3 * WSIZE)) == 0 && GetAlloc(Read(r, 3 * WSIZE)) == 1
  {
    var w := Put(h, 0, 0);
    var w := Put(w, WSIZE, Pack(DSIZE, 1));
    var w := Put(w, 2 * WSIZE, Pack(DSIZE, 1));
    Put(w, 3 * WSIZE, Pack(0, 1))
  }

  /** `mm_init` on the empty heap `mem_init` leaves: the layout, then
      `heap_listp` at the prologue and one `CHUNKSIZE` free block. */
  function MmInit(): (r: InitResult)
  {
    var empty := Heap(map[], 0);
    var s := MemSbrk(empty.brk, 0, 4 * WSIZE);
    if s.ret == SBRK_FAILED then InitFailed
    else
      match ExtendHeap(InitLayout(empty.(brk := s.brk)), CHUNKSIZE / 8)
      case ExtendFailed => InitFailed
      case Extended(w, _) => Initialized(w, 2 * WSIZE)
  }

  /*---------------------------------------------------------------------------
    The block list and find_fit
  ---------------------------------------------------------------------------*/

  /** The stored words at `lo` and above: a walk that reads a nonzero
      header at `lo - WSIZE` and moves up has fewer of them left. */
  ghost function StoredFrom(h: Heap, lo: int): set<int> {
    set a | a in h.mem && a >= lo
  }

  lemma StoredShrinks(h: Heap, bp: int, next: int)
    requires SizeAt(h, bp) > 0 && next > bp
    ensures |StoredFrom(h, next - WSIZE)| < |StoredFrom(h, bp - WSIZE)|
  {
    var later, here := StoredFrom(h, next - WSIZE), StoredFrom(h, bp - WSIZE);
    var gone := here - later;
    assert bp - WSIZE in gone;
    assert here == later + gone && later * gone == {};
    assert |gone| >= 1;
  }

  /** The blocks met walking from `bp` by `get_next_blkptr` until a header
      of size zero. */
  function Chain(h: Heap, bp: int): seq<int>
    decreases |StoredFrom(h, bp - WSIZE)|
  {
    var size := SizeAt(h, bp);
    if size == 0 then []
    else
      StoredShrinks(h, bp, bp + size);
      [bp] + Chain(h, bp + size)
  }

  /** No block of the walk from `x` lies below `x`. */
  lemma {:induction false} ChainFrom(h: Heap, x: int)
    decreases |StoredFrom(h, x - WSIZE)|
    ensures forall p :: p in Chain(h, x) ==> p >= x
  {
    var size := SizeAt(h, x);
    if size > 0 {
      StoredShrinks(h, x, x + size);
      ChainFrom(h, x + size);
    }
  }

  /** A free block of at least `req` bytes. */
  ghost predicate Fits(h: Heap, bp: int, req: nat) {
    AllocAt(h, bp) == 0 && SizeAt(h, bp) >= req
  }

  /** `find_fit(req)` started from `bp`: first fit in address order. */
  function FindFit(h: Heap, bp: int, req: nat): (r: Option<int>)
    decreases |StoredFrom(h, bp - WSIZE)|
    ensures r.Some? ==> r.value in Chain(h, bp) && Fits(h, r.value, req)
    ensures r.Some? ==> forall p :: p in Chain(h, bp) && p < r.value ==> !Fits(h, p, req)
    ensures r.None? <==> forall p :: p in Chain(h, bp) ==> !Fits(h, p, req)
  {
    var size := SizeAt(h, bp);
    if size == 0 then None
    else if AllocAt(h, bp) == 0 && size >= req then
      ChainFrom(h, bp);
      Some(bp)
    else
      StoredShrinks(h, bp, bp + size);
      ChainFrom(h, bp + size);
      FindFit(h, bp + size, req)
  }

  /** After `mm_init` the walk from `heap_listp` meets the prologue and
      then the free chunk, and `coalesce` finds both neighbours of the
      chunk allocated, so it returns the chunk unchanged. */
  lemma InitHeap()
    ensures MmInit().Initialized?
    ensures var r := MmInit();
      && r.listp == 2 * WSIZE && r.heap.brk == 4 * WSIZE + CHUNKSIZE
      && Read(r.heap, 0) == 0
      && SizeAt(r.heap, r.listp) == DSIZE && AllocAt(r.heap, r.listp) == 1
      && SizeAt(r.heap, 4 * WSIZE) == CHUNKSIZE && AllocAt(r.heap, 4 * WSIZE) == 0
      && Chain(r.heap, r.listp) == [2 * WSIZE, 4 * WSIZE]
      && CoalesceIsNoop(r.heap, 4 * WSIZE)
  {
    InitWords();
    var w := MmInit().heap;
    assert SizeAt(w, 4 * WSIZE + CHUNKSIZE) == 0;
    assert Chain(w, 4 * WSIZE + CHUNKSIZE) == [];
    assert Chain(w, 4 * WSIZE) == [4 * WSIZE];
    assert PrevBp(w, 4 * WSIZE) == 2 * WSIZE;
  }

  /** The words `mm_init` leaves: the pad, the prologue header and footer,
      the free chunk's header and footer, and the epilogue. */
  lemma InitWords()
    ensures MmInit().Initialized?
    ensures var r := MmInit(); var w := r.heap;
      && r.listp == 16 && w.brk == 4128
      && Read(w, 0) == 0 && Read(w, 8) == Pack(16, 1) && Read(w, 16) == Pack(16, 1)
      && SizeAt(w, 32) == 4096 && AllocAt(w, 32) == 0 && Read(w, 4112) == Pack(4096, 0)
      && SizeAt(w, 4128) == 0 && AllocAt(w, 4128) == 1
  {
    var layout := InitLayout(Heap(map[], 32));
    InitIsExtension();
    ExtendHeapShape(layout, 512);
    ExtendHeapFrame(layout, 512);
  }

  /** `mm_init` on the empty heap is the layout followed by an extension
      of `CHUNKSIZE` bytes at offset 32. */
  lemma InitIsExtension()
    ensures var e := ExtendHeap(InitLayout(Heap(map[], 32)), 512);
      && e.Extended? && e.bp == 32 && MmInit() == Initialized(e.heap, 16)
    ensures ExtendBytes(512) == 4096
  {
    assert MemSbrk(0, 0, 32) == SbrkResult(0, 32, 0);
    assert Heap(map[], 0).(brk := 32) == Heap(map[], 32);
    assert ExtendBytes(512) == 4096;
  }

  /** Both neighbours of `bp` are allocated, the case in which `coalesce`
      returns `bp` and writes nothing. */
  predicate CoalesceIsNoop(h: Heap, bp: int) {
    var prev := PrevBp(h, bp);
    GetAlloc(Read(h, FtrAddr(h, prev))) == 1 && AllocAt(h, NextBp(h, bp)) == 1
  }

  /*---------------------------------------------------------------------------
    Walking the block list
  ---------------------------------------------------------------------------*/

  /** The walk from `x` reads no word below `x - WSIZE`, so stores there do
      not change it. */
  lemma {:induction false} ChainFrame(h: Heap, r: Heap, x: int)
    requires forall a :: a >= x - WSIZE ==> Read(r, a) == Read(h, a)
    decreases |StoredFrom(h, x - WSIZE)|
    ensures Chain(r, x) == Chain(h, x)
  {
    var size := SizeAt(h, x);
    assert SizeAt(r, x) == size;
    if size > 0 {
      StoredShrinks(h, x, x + size);
      ChainFrame(h, r, x + size);
    }
  }

  /** The walk from `x` passes through its `k`-th block and then goes on
      as the walk from there. */
  lemma {:induction false} ChainSuffix(h: Heap, x: int, k: nat)
    requires k < |Chain(h, x)|
    decreases k
    ensures Chain(h, x)[k..] == Chain(h, Chain(h, x)[k])
  {
    if k > 0 {
      var size := SizeAt(h, x);
      ChainSuffix(h, x + size, k - 1);
      assert Chain(h, x)[k..] == Chain(h, x + size)[k - 1..];
    }
  }

  /** Every block of the walk from `x` has a non-zero size, and every
      block after the first lies above `x`. */
  lemma {:induction false} ChainAbove(h: Heap, x: int, k: nat)
    requires k < |Chain(h, x)|
    decreases k
    ensures SizeAt(h, Chain(h, x)[k]) > 0
    ensures k > 0 ==> Chain(h, x)[k] > x
  {
    if k > 0 {
      var size := SizeAt(h, x);
      ChainAbove(h, x + size, k - 1);
    }
  }

  /** Stores at or above the header of the `k`-th block leave the walk up
      to that block as it was. */
  lemma {:induction false} ChainPrefix(h: Heap, r: Heap, x: int, k: nat)
    requires k < |Chain(h, x)|
    requires forall a :: a < Chain(h, x)[k] - WSIZE ==> Read(r, a) == Read(h, a)
    decreases k
    ensures Chain(r, x) == Chain(h, x)[..k] + Chain(r, Chain(h, x)[k])
  {
    if k > 0 {
      var size := SizeAt(h, x);
      var rest := Chain(h, x + size);
      assert Chain(h, x) == [x] + rest;
      ChainAbove(h, x, k);
      assert SizeAt(r, x) == size;
      ChainPrefix(h, r, x + size, k - 1);
      var tail := Chain(r, rest[k - 1]);
      assert Chain(h, x)[k] == rest[k - 1];
      assert Chain(r, x) == [x] + Chain(r, x + size);
      assert Chain(r, x + size) == rest[..k - 1] + tail;
      assert Chain(h, x)[..k] == [x] + rest[..k - 1];
      assert [x] + (rest[..k - 1] + tail) == ([x] + rest[..k - 1]) + tail;
    }
  }

  /*---------------------------------------------------------------------------
    place
  ---------------------------------------------------------------------------*/

  /** `a - b` on `size_t`: it wraps below zero. */
  function Diff(a: Word, b: Word): (r: Word)
    ensures a >= b ==> r == a - b
  {
    if a >= b then a - b else a - b + WORD_LIMIT
  }

  /** `place(bp, asize)` as written. The leftover is a `size_t` difference.
      When it is at least `2 * DSIZE` the block splits into an allocated
      part of `asize` bytes and a free remainder; otherwise the header and
      footer record `asize` as allocated. */
  function PlaceAsWritten(h: Heap, bp: int, asize: Word): Heap {
    var cur := SizeAt(h, bp);
    var left := Diff(cur, asize);
    if left >= 2 * DSIZE then
      var m := Mark(h, bp, asize, 1);
      Mark(m, NextBp(m, bp), left, 0)
    else Mark(h, bp, asize, 1)
  }

  /** `place` with the no-split branch recording the whole block as
      allocated, so that the block list stays intact. */
  function Place(h: Heap, bp: int, asize: Word): Heap {
    var cur := SizeAt(h, bp);
    var left := Diff(cur, asize);
    if left >= 2 * DSIZE then
      var m := Mark(h, bp, asize, 1);
      Mark(m, NextBp(m, bp), left, 0)
    else Mark(h, bp, cur, 1)
  }

  /** What `mm_malloc` hands to `place`: a block size that is a multiple of
      16 and at least a minimum block, no larger than the block at `bp`. */
  ghost predicate PlaceArgs(h: Heap, bp: int, asize: Word) {
    asize % 16 == 0 && asize >= 2 * DSIZE && asize <= SizeAt(h, bp)
  }

  /** The stores of a split: the allocated part, then the free rest. */
  function SplitStores(h: Heap, bp: int, asize: Word, left: Word): Heap {
    Mark(Mark(h, bp, asize, 1), bp + asize, left, 0)
  }

  lemma PlaceIsSplit(h: Heap, bp: int, asize: Word)
    requires PlaceArgs(h, bp, asize) && SizeAt(h, bp) - asize >= 2 * DSIZE
    ensures Place(h, bp, asize) == SplitStores(h, bp, asize, SizeAt(h, bp) - asize)
  {
    var m := Mark(h, bp, asize, 1);
    assert NextBp(m, bp) == bp + asize;
  }

  /** Splitting: an allocated block of `asize` bytes with a matching
      footer, */
  lemma SplitFirst(h: Heap, bp: int, asize: Word, left: Word)
    requires asize % 16 == 0 && asize >= 2 * DSIZE && left % 16 == 0 && left >= 2 * DSIZE
    ensures var r := SplitStores(h, bp, asize, left);
      SizeAt(r, bp) == asize && AllocAt(r, bp) == 1 && Read(r, bp + asize - DSIZE) == Pack(asize, 1)
  {
    var m := Mark(h, bp, asize, 1);
    MarkFrame(m, bp + asize, left, 0, bp - WSIZE);
    MarkFrame(m, bp + asize, left, 0, bp + asize - DSIZE);
  }

  /** then a free block of the rest with a matching footer, */
  lemma SplitRest(h: Heap, bp: int, asize: Word, left: Word)
    requires asize % 16 == 0 && asize >= 2 * DSIZE && left % 16 == 0 && left >= 2 * DSIZE
    ensures var r := SplitStores(h, bp, asize, left);
      SizeAt(r, bp + asize) == left && AllocAt(r, bp + asize) == 0
      && Read(r, bp + asize + left - DSIZE) == Pack(left, 0)
  {
  }

  /** and no store outside the two blocks. */
  lemma SplitFrame(h: Heap, bp: int, asize: Word, left: Word)
    requires asize % 16 == 0 && asize >= 2 * DSIZE && left % 16 == 0 && left >= 2 * DSIZE
    ensures var r := SplitStores(h, bp, asize, left);
      forall a :: (a < bp - WSIZE || a >= bp + asize + left - WSIZE) ==> Read(r, a) == Read(h, a)
  {
    var m := Mark(h, bp, asize, 1);
    forall a | a < bp - WSIZE || a >= bp + asize + left - WSIZE
      ensures Read(Mark(m, bp + asize, left, 0), a) == Read(h, a)
    {
      MarkFrame(h, bp, asize, 1, a);
      MarkFrame(m, bp + asize, left, 0, a);
    }
  }

  /** No split: the whole block is allocated, with a matching footer, and
      nothing else is stored. */
  lemma PlaceIsWhole(h: Heap, bp: int, asize: Word)
    requires PlaceArgs(h, bp, asize) && SizeAt(h, bp) - asize < 2 * DSIZE
    ensures Place(h, bp, asize) == Mark(h, bp, SizeAt(h, bp), 1)
  {
  }

  lemma PlaceWhole(h: Heap, bp: int, asize: Word)
    requires PlaceArgs(h, bp, asize) && SizeAt(h, bp) - asize < 2 * DSIZE
    ensures var r := Place(h, bp, asize); var cur := SizeAt(h, bp);
      && SizeAt(r, bp) == cur && AllocAt(r, bp) == 1
      && Read(r, bp + cur - DSIZE) == Pack(cur, 1)
  {
    PlaceIsWhole(h, bp, asize);
  }

  lemma PlaceWholeFrame(h: Heap, bp: int, asize: Word)
    requires PlaceArgs(h, bp, asize) && SizeAt(h, bp) - asize < 2 * DSIZE
    ensures var r := Place(h, bp, asize); var cur := SizeAt(h, bp);
      forall a :: (a < bp - WSIZE || a >= bp + cur - WSIZE) ==> Read(r, a) == Read(h, a)
  {
    var cur := SizeAt(h, bp);
    PlaceIsWhole(h, bp, asize);
    forall a | a < bp - WSIZE || a >= bp + cur - WSIZE
      ensures Read(Mark(h, bp, cur, 1), a) == Read(h, a)
    {
      MarkFrame(h, bp, cur, 1, a);
    }
  }

  /** `place` as written, without a split and with a leftover: the header
      records `asize`, so the next block pointer lands inside the old
      block, short of the block that followed it. */
  lemma PlaceAsWrittenShortens(h: Heap, bp: int, asize: Word)
    requires PlaceArgs(h, bp, asize) && 0 < SizeAt(h, bp) - asize < 2 * DSIZE
    ensures var r := PlaceAsWritten(h, bp, asize);
      NextBp(r, bp) == bp + asize && NextBp(r, bp) < NextBp(h, bp)
  {
    assert PlaceAsWritten(h, bp, asize) == Mark(h, bp, asize, 1);
  }

  /** `mm_malloc(4049)` right after `mm_init`: the 4080-byte request takes
      the 4096-byte chunk whole, and the walk then stops 16 bytes short of
      where the chunk ended. */
  lemma PlaceAsWrittenAfterInit()
    ensures MmInit().Initialized?
    ensures var h := MmInit().heap;
      && RequestAsWritten(4049) == 4080 && Request(4049) == 4080
      && FindFit(h, 2 * WSIZE, 4080) == Some(4 * WSIZE)
      && NextBp(h, 4 * WSIZE) == 4128
      && NextBp(PlaceAsWritten(h, 4 * WSIZE, 4080), 4 * WSIZE) == 4112
  {
    FitAfterInit(4080);
    RequestAsWrittenUnrounded(4049);
    InitWords();
    PlaceAsWrittenShortens(MmInit().heap, 4 * WSIZE, 4080);
  }

  /** After `mm_init` every request the free chunk can hold fits there. */
  lemma FitAfterInit(req: nat)
    requires req <= CHUNKSIZE
    ensures MmInit().Initialized? && FindFit(MmInit().heap, 2 * WSIZE, req) == Some(4 * WSIZE)
    ensures NextBp(MmInit().heap, 4 * WSIZE) == 4128
  {
    InitHeap();
    var h := MmInit().heap;
    assert FindFit(h, 2 * WSIZE, req) == FindFit(h, 4 * WSIZE, req);
  }

  /** The blocks `place` leaves where the block at `bp` was. */
  function Placed(h: Heap, bp: int, asize: Word): seq<int> {
    if SizeAt(h, bp) - asize >= 2 * DSIZE then [bp, bp + asize] else [bp]
  }

  /** `place` allocates at least `asize` bytes at `bp`, wasting less than
      a minimum block, and the block list changes only there: the block
      at `bp` becomes `Placed(h, bp, asize)` and the walk goes on past it
      as before. */
  lemma PlaceCorrect(h: Heap, bp: int, asize: Word)
    requires PlaceArgs(h, bp, asize)
    ensures var r := Place(h, bp, asize);
      && AllocAt(r, bp) == 1 && asize <= SizeAt(r, bp) < asize + 2 * DSIZE
      && Read(r, FtrAddr(r, bp)) == Read(r, bp - WSIZE)
  {
    var cur := SizeAt(h, bp);
    if cur - asize >= 2 * DSIZE {
      PlaceIsSplit(h, bp, asize);
      SplitFirst(h, bp, asize, cur - asize);
    } else {
      PlaceWhole(h, bp, asize);
    }
  }

  /** A walk from a block of non-zero size visits it and goes on from the
      next block. */
  lemma ChainStep(h: Heap, x: int)
    requires SizeAt(h, x) > 0
    ensures Chain(h, x) == [x] + Chain(h, x + SizeAt(h, x))
  {
  }

  /** A block of `size` bytes at `x`, followed by memory that reads as in
      `h`: the walk from `x` meets the block and goes on as the walk in `h`. */
  lemma BlockThenChain(h: Heap, r: Heap, x: int, size: int)
    requires SizeAt(r, x) == size > 0
    requires forall a :: a >= x + size - WSIZE ==> Read(r, a) == Read(h, a)
    ensures Chain(r, x) == [x] + Chain(h, x + size)
  {
    ChainFrame(h, r, x + size);
    ChainStep(r, x);
  }

  /** After the stores of a split the walk from `bp` meets the allocated
      part, the free rest, and then the blocks that followed. */
  lemma SplitChain(h: Heap, bp: int, asize: Word, left: Word)
    requires asize % 16 == 0 && asize >= 2 * DSIZE && left % 16 == 0 && left >= 2 * DSIZE
    ensures Chain(SplitStores(h, bp, asize, left), bp) == [bp, bp + asize] + Chain(h, bp + asize + left)
  {
    var r := SplitStores(h, bp, asize, left);
    SplitFirst(h, bp, asize, left);
    SplitRest(h, bp, asize, left);
    SplitFrame(h, bp, asize, left);
    BlockThenChain(h, r, bp + asize, left);
    BlockThenChain(r, r, bp, asize);
  }

  /** With a split the walk from `bp` meets the allocated part, the free
      rest, and then the blocks that followed. */
  lemma SplitPlaceChain(h: Heap, bp: int, asize: Word)
    requires PlaceArgs(h, bp, asize) && SizeAt(h, bp) - asize >= 2 * DSIZE
    ensures Chain(Place(h, bp, asize), bp) == [bp, bp + asize] + Chain(h, bp + SizeAt(h, bp))
  {
    PlaceIsSplit(h, bp, asize);
    SplitChainAt(h, bp, asize);
    SameChain(Place(h, bp, asize), SplitStores(h, bp, asize, SizeAt(h, bp) - asize), bp);
  }

  lemma SplitChainAt(h: Heap, bp: int, asize: Word)
    requires PlaceArgs(h, bp, asize) && SizeAt(h, bp) - asize >= 2 * DSIZE
    ensures Chain(SplitStores(h, bp, asize, SizeAt(h, bp) - asize), bp)
      == [bp, bp + asize] + Chain(h, bp + SizeAt(h, bp))
  {
    var cur := SizeAt(h, bp);
    var left := cur - asize;
    SubMod16(cur, asize);
    SplitChain(h, bp, asize, left);
    assert bp + asize + left == bp + cur;
  }

  lemma SubMod16(a: int, b: int)
    requires a % 16 == 0 && b % 16 == 0
    ensures (a - b) % 16 == 0
  {
    assert a == 16 * (a / 16) && b == 16 * (b / 16);
    assert a - b == 16 * (a / 16 - b / 16);
  }

  lemma MarkChain(h: Heap, bp: int, size: Word)
    requires size % 16 == 0 && size > 0
    ensures Chain(Mark(h, bp, size, 1), bp) == [bp] + Chain(h, bp + size)
  {
    var r := Mark(h, bp, size, 1);
    forall a | a >= bp + size - WSIZE
      ensures Read(r, a) == Read(h, a)
    {
      MarkFrame(h, bp, size, 1, a);
    }
    BlockThenChain(h, r, bp, size);
  }

  /** Without a split the walk from `bp` meets the whole block and then the
      blocks that followed. */
  lemma WholeChain(h: Heap, bp: int, asize: Word)
    requires PlaceArgs(h, bp, asize) && SizeAt(h, bp) - asize < 2 * DSIZE
    ensures Chain(Place(h, bp, asize), bp) == [bp] + Chain(h, bp + SizeAt(h, bp))
  {
    PlaceIsWhole(h, bp, asize);
    MarkedChain(Place(h, bp, asize), h, bp, asize);
  }

  /** `MarkChain` for the whole block at `bp`, in a heap known only to
      equal the marked one. */
  lemma MarkedChain(r: Heap, h: Heap, bp: int, asize: Word)
    requires PlaceArgs(h, bp, asize) && r == Mark(h, bp, SizeAt(h, bp), 1)
    ensures Chain(r, bp) == [bp] + Chain(h, bp + SizeAt(h, bp))
  {
    MarkChain(h, bp, SizeAt(h, bp));
  }

  lemma SameChain(r: Heap, m: Heap, x: int)
    requires r == m
    ensures Chain(r, x) == Chain(m, x)
  {
  }

  /** The block list changes only at `bp`: the block there becomes
      `Placed(h, bp, asize)`, and the walk goes on past it as before. */
  lemma PlaceKeepsList(h: Heap, bp: int, asize: Word)
    requires PlaceArgs(h, bp, asize)
    ensures Chain(Place(h, bp, asize), bp) == Placed(h, bp, asize) + Chain(h, bp + SizeAt(h, bp))
  {
    var cur := SizeAt(h, bp);
    if cur - asize >= 2 * DSIZE {
      SplitPlaceChain(h, bp, asize);
    } else {
      WholeChain(h, bp, asize);
    }
  }

  /** `place` stores nothing below the header of `bp`. */
  lemma PlaceKeepsBelow(h: Heap, bp: int, asize: Word)
    requires PlaceArgs(h, bp, asize)
    ensures forall a :: a < bp - WSIZE ==> Read(Place(h, bp, asize), a) == Read(h, a)
  {
    var cur := SizeAt(h, bp);
    if cur - asize >= 2 * DSIZE {
      PlaceIsSplit(h, bp, asize);
      SplitFrame(h, bp, asize, cur - asize);
    } else {
      PlaceWholeFrame(h, bp, asize);
    }
  }

  /** Stores that leave every word below the `k`-th block of the walk
      from `x` alone, and turn the walk from that block into `mid` followed
      by the walk past the old block, change the walk from `x` only there. */
  lemma ReplaceInChain(h: Heap, r: Heap, x: int, k: nat, mid: seq<int>)
    requires k < |Chain(h, x)|
    requires forall a :: a < Chain(h, x)[k] - WSIZE ==> Read(r, a) == Read(h, a)
    requires Chain(r, Chain(h, x)[k]) == mid + Chain(h, Chain(h, x)[k] + SizeAt(h, Chain(h, x)[k]))
    ensures Chain(r, x) == Chain(h, x)[..k] + mid + Chain(h, x)[k + 1..]
  {
    var c := Chain(h, x);
    var bp := c[k];
    var after := Chain(h, bp + SizeAt(h, bp));
    ChainPrefix(h, r, x, k);
    ChainSuffix(h, x, k);
    ChainAbove(h, x, k);
    ChainStep(h, bp);
    assert c[k + 1..] == c[k..][1..];
    assert ([bp] + after)[1..] == after;
    assert c[k + 1..] == after;
    assert c[..k] + (mid + after) == c[..k] + mid + after;
  }

  /** A placement inside the walk from `x`: the list is the blocks before
      the placed one, then `Placed(h, bp, asize)`, then the blocks after. */
  lemma PlaceInList(h: Heap, x: int, k: nat, asize: Word)
    requires k < |Chain(h, x)| && PlaceArgs(h, Chain(h, x)[k], asize)
    ensures var bp := Chain(h, x)[k];
      Chain(Place(h, bp, asize), x) == Chain(h, x)[..k] + Placed(h, bp, asize) + Chain(h, x)[k + 1..]
  {
    var bp := Chain(h, x)[k];
    PlaceKeepsBelow(h, bp, asize);
    PlaceKeepsList(h, bp, asize);
    ReplaceInChain(h, Place(h, bp, asize), x, k, Placed(h, bp, asize));
  }

  /*---------------------------------------------------------------------------
    mm_malloc
  ---------------------------------------------------------------------------*/

  /** The block size `mm_malloc` computes for `usr_size` as written: every
      operation is on `size_t`, and the product by `DSIZE` comes before the
      division, so nothing is rounded. */
  function RequestAsWritten(u: Word): Word {
    if u <= DSIZE then 2 * DSIZE
    else ((16 * ((u + 31) % 0x1_0000_0000_0000_0000)) % 0x1_0000_0000_0000_0000) / 16
  }

  /** Short of wrap-around, the written expression is `usr_size + 31`,
      which is a multiple of 16 only when `usr_size` is 1 more than one. */
  lemma RequestAsWrittenUnrounded(u: Word)
    requires DSIZE < u && u + 31 < 0x1000_0000_0000_0000
    ensures RequestAsWritten(u) == u + 31
    ensures RequestAsWritten(u) % 16 == 0 <==> u % 16 == 1
  {
    assert (u + 31) % 0x1_0000_0000_0000_0000 == u + 31;
    assert 16 * (u + 31) < 0x1_0000_0000_0000_0000;
  }

  /** A request of 18 bytes: the block size comes out as 49, odd, and a
      header packed from it reads back as size 48, allocated. */
  lemma RequestAsWrittenOdd()
    ensures RequestAsWritten(18) == 49
    ensures GetSize(Pack(49, 1)) == 48 && GetAlloc(Pack(49, 1)) == 1
    ensures GetSize(Pack(49, 0)) == 48 && GetAlloc(Pack(49, 0)) == 1
  {
    RequestAsWrittenUnrounded(18);
  }

  /** Placing an odd block size with a split, as `mm_malloc` does after
      the unrounded computation: the free remainder has an odd size too,
      so its header carries the alloc bit and the block is lost to
      `find_fit`. */
  lemma PlaceOddLosesRest(h: Heap, bp: int, asize: Word)
    requires asize % 2 == 1 && SizeAt(h, bp) >= asize + 2 * DSIZE
    ensures var m := Mark(h, bp, asize, 1);
      AllocAt(PlaceAsWritten(h, bp, asize), NextBp(m, bp)) == 1
  {
    var m := Mark(h, bp, asize, 1);
    var left := SizeAt(h, bp) - asize;
    OddRest(SizeAt(h, bp), asize);
    PlaceAsWrittenSplits(h, bp, asize);
    OddMarkAllocated(m, NextBp(m, bp), left);
  }

  /** A multiple of 16 less an odd number is odd. */
  lemma OddRest(cur: Word, asize: Word)
    requires cur % 16 == 0 && asize % 2 == 1 && asize <= cur
    ensures (cur - asize) % 2 == 1
  {
    var k := cur / 16;
    assert cur == 16 * k;
  }

  /** With room for a remainder, `place` as written splits. */
  lemma PlaceAsWrittenSplits(h: Heap, bp: int, asize: Word)
    requires SizeAt(h, bp) >= asize + 2 * DSIZE
    ensures var m := Mark(h, bp, asize, 1);
      PlaceAsWritten(h, bp, asize) == Mark(m, NextBp(m, bp), SizeAt(h, bp) - asize, 0)
  {
  }

  /** A block marked free with an odd size reads as allocated: the size
      itself carries the low bit. */
  lemma OddMarkAllocated(m: Heap, x: int, size: Word)
    requires size % 2 == 1
    ensures AllocAt(Mark(m, x, size, 0), x) == 1
  {
    assert Pack(size, 0) == size;
    var w := Put(m, x - WSIZE, size);
    assert GetSize(size) % 16 == 0;
    assert FtrAddr(w, x) != x - WSIZE;
  }

  /** The block size for `usr_size`, rounded up as evidently intended:
      `DSIZE * ((usr_size + DSIZE + DSIZE - 1) / DSIZE)`. It is the least
      multiple of 16 that holds the request and a header and footer, and
      never below the minimum block. */
  function Request(u: Word): (r: Word)
    ensures r % 16 == 0
    ensures u + 31 < WORD_LIMIT ==> r >= 2 * DSIZE && r >= u + DSIZE
    ensures 0 < u && u + 31 < WORD_LIMIT ==> r < u + 2 * DSIZE
  {
    if u <= DSIZE then 2 * DSIZE
    else 16 * (((u + 31) % 0x1_0000_0000_0000_0000) / 16)
  }

  /** The two computations agree exactly when the written one happens to
      be a multiple of 16. */
  lemma RequestAgreement(u: Word)
    requires DSIZE < u && u + 31 < 0x1000_0000_0000_0000
    ensures RequestAsWritten(u) == Request(u) <==> u % 16 == 1
  {
    RequestAsWrittenUnrounded(u);
  }

  /** `extendsize` is declared zero and never assigned, so a miss asks
      `extend_heap` for `0 / WSIZE` words. */
  const EXTENDSIZE_AS_WRITTEN: Word := 0

  /** Extending by no words moves no break and makes a block of size zero
      at the old epilogue; its footer lands on the word before the
      epilogue, the footer of the last block, and zeroes it. */
  lemma MissAsWrittenExtendsNothing(h: Heap)
    requires h.brk <= MAX_HEAP
    ensures var e := ExtendHeap(h, EXTENDSIZE_AS_WRITTEN / WSIZE);
      && e.Extended? && e.bp == h.brk && e.heap.brk == h.brk
      && SizeAt(e.heap, e.bp) == 0 && Read(e.heap, h.brk - DSIZE) == 0
  {
    assert EXTENDSIZE_AS_WRITTEN / WSIZE == 0;
    ExtendByZero(h, ExtendHeap(h, 0));
  }

  /** An extension by zero bytes succeeds without moving the break and
      leaves a zero-size block at the old epilogue, whose footer is the
      word before it. */
  lemma ExtendByZero(h: Heap, e: Extension)
    requires h.brk <= MAX_HEAP && e == ExtendHeap(h, 0)
    ensures e.Extended? && e.bp == h.brk
    ensures e.heap.brk == h.brk && SizeAt(e.heap, h.brk) == 0 && Read(e.heap, h.brk - DSIZE) == 0
  {
    ExtendZeroStores(h);
    ZeroStoresRead(e.heap, h);
  }

  /** What the stores of an extension by zero bytes leave at the old break. */
  lemma ZeroStoresRead(g: Heap, h: Heap)
    requires g == Put(Mark(h, h.brk, 0, 0), h.brk - WSIZE, 1)
    ensures g.brk == h.brk && SizeAt(g, h.brk) == 0 && Read(g, h.brk - DSIZE) == 0
  {
    var m := Mark(h, h.brk, 0, 0);
    MarkZero(h, h.brk);
    ZeroBlock(m, h.brk);
  }

  /** The stores of an extension by zero bytes. */
  lemma ExtendZeroStores(h: Heap)
    requires h.brk <= MAX_HEAP
    ensures ExtendHeap(h, 0).Extended?
    ensures ExtendHeap(h, 0).bp == h.brk
    ensures ExtendHeap(h, 0).heap == Put(Mark(h, h.brk, 0, 0), h.brk - WSIZE, 1)
  {
    ExtendHeapIs(h, 0);
    assert h.(brk := h.brk + ExtendBytes(0)) == h;
    NewBlockIs(h, h.brk, 0);
    assert h.brk + 0 - WSIZE == h.brk - WSIZE;
  }

  /** A block of size zero at `bp` has its header and its footer both at
      zero, and the block after it is itself. */
  lemma MarkZero(h: Heap, bp: int)
    ensures SizeAt(Mark(h, bp, 0, 0), bp) == 0 && Read(Mark(h, bp, 0, 0), bp - DSIZE) == 0
  {
    assert Pack(0, 0) == 0;
  }

  /** Storing an epilogue header over a zero-size block keeps the size
      zero and leaves the word below it alone. */
  lemma ZeroBlock(m: Heap, bp: int)
    requires SizeAt(m, bp) == 0 && Read(m, bp - DSIZE) == 0
    ensures NextBp(m, bp) == bp
    ensures SizeAt(Put(m, bp - WSIZE, 1), bp) == 0
    ensures Read(Put(m, bp - WSIZE, 1), bp - DSIZE) == 0
  {
    var p := Put(m, bp - WSIZE, 1);
    assert p.mem == m.mem[bp - WSIZE := 1];
    assert Read(p, bp - DSIZE) == Read(m, bp - DSIZE);
  }

  /** After `mm_init` no request above `CHUNKSIZE` fits. */
  lemma NoFitAfterInit(req: nat)
    requires req > CHUNKSIZE
    ensures MmInit().Initialized? && FindFit(MmInit().heap, 2 * WSIZE, req).None?
  {
    InitHeap();
  }

  /** After `mm_init`, a request of 5000 bytes fits nowhere, so it takes
      the miss path, and the word before the break is the footer of the
      free chunk, which `MissAsWrittenExtendsNothing` shows being zeroed. */
  lemma MissAfterInit()
    ensures MmInit().Initialized?
    ensures var h := MmInit().heap;
      && FindFit(h, 2 * WSIZE, RequestAsWritten(5000)).None?
      && FindFit(h, 2 * WSIZE, Request(5000)).None?
      && h.brk - DSIZE == 4112 && Read(h, 4112) == Pack(4096, 0) && Pack(4096, 0) != 0
  {
    InitWords();
    RequestAsWrittenUnrounded(5000);
    NoFitAfterInit(RequestAsWritten(5000));
    NoFitAfterInit(Request(5000));
  }

  /** The word count evidently intended on a miss: enough for the request,
      and at least `CHUNKSIZE` bytes, through the `max` the file defines. */
  function MissWords(asize: Word): (r: nat)
    requires asize % 16 == 0
    ensures CHUNKSIZE / WSIZE <= r && r + 1 < MAX_WORDCNT
    ensures ExtendBytes(r) >= asize && ExtendBytes(r) >= CHUNKSIZE
  {
    var bytes := if asize > CHUNKSIZE then asize else CHUNKSIZE;
    var k := bytes / 16;
    assert bytes == 16 * k;
    assert bytes / 8 == 2 * k;
    bytes / 8
  }

  /** The outcome of `mm_malloc`: a null pointer, a block, or an extension
      after which `coalesce` would merge, which this model does not
      follow. */
  datatype MallocResult = NoBlock | Allocated(heap: Heap, bp: int) | MergeNotModelled(heap: Heap, bp: int)

  /** `mm_malloc` as written: the unrounded block size and an extension
      by `extendsize / WSIZE` words on a miss. */
  function MallocAsWritten(h: Heap, listp: int, u: Word): MallocResult {
    if u == 0 then NoBlock
    else
      var asize := RequestAsWritten(u);
      match FindFit(h, listp, asize)
      case Some(bp) => Allocated(PlaceAsWritten(h, bp, asize), bp)
      case None =>
        match ExtendHeap(h, EXTENDSIZE_AS_WRITTEN / WSIZE)
        case ExtendFailed => NoBlock
        case Extended(g, bp) =>
          if CoalesceIsNoop(g, bp) then Allocated(PlaceAsWritten(g, bp, asize), bp)
          else MergeNotModelled(g, bp)
  }

  /** `mm_malloc` with the size rounded, the miss extension sized by
      `MissWords`, and `Place`: nothing for a request of zero; otherwise
      the first fit from `heap_listp`, or else a fresh block at the old
      break. */
  function Malloc(h: Heap, listp: int, u: Word): (r: MallocResult)
    ensures u == 0 ==> r == NoBlock
    ensures FindFit(h, listp, Request(u)).Some? && u > 0 ==>
      r.Allocated? && r.bp == FindFit(h, listp, Request(u)).value
    ensures r.Allocated? && FindFit(h, listp, Request(u)).None? ==> r.bp == h.brk
  {
    if u == 0 then NoBlock
    else
      var asize := Request(u);
      match FindFit(h, listp, asize)
      case Some(bp) => Allocated(Place(h, bp, asize), bp)
      case None =>
        match ExtendHeap(h, MissWords(asize))
        case ExtendFailed => NoBlock
        case Extended(g, bp) =>
          if CoalesceIsNoop(g, bp) then Allocated(Place(g, bp, asize), bp)
          else MergeNotModelled(g, bp)
  }

  /** An allocated block at `bp` holding `u` bytes between its header and
      footer, with a footer matching its header. */
  ghost predicate Holds(h: Heap, bp: int, u: nat) {
    && AllocAt(h, bp) == 1 && SizeAt(h, bp) >= u + DSIZE
    && Read(h, FtrAddr(h, bp)) == Read(h, bp - WSIZE)
  }

  /** A block `mm_malloc` hands out holds the request. */
  lemma MallocCorrect(h: Heap, listp: int, u: Word)
    requires u + 31 < WORD_LIMIT
    ensures var r := Malloc(h, listp, u); r.Allocated? ==> Holds(r.heap, r.bp, u)
  {
    if u > 0 {
      if FindFit(h, listp, Request(u)).Some? {
        MallocHitCorrect(h, listp, u);
      } else {
        MallocMissCorrect(h, listp, u);
      }
    }
  }

  lemma MallocHitCorrect(h: Heap, listp: int, u: Word)
    requires 0 < u && u + 31 < WORD_LIMIT && FindFit(h, listp, Request(u)).Some?
    ensures var r := Malloc(h, listp, u); Holds(r.heap, r.bp, u)
  {
    var asize := Request(u);
    var bp := FindFit(h, listp, asize).value;
    assert Malloc(h, listp, u) == Allocated(Place(h, bp, asize), bp);
    PlaceCorrect(h, bp, asize);
  }

  lemma MallocMissCorrect(h: Heap, listp: int, u: Word)
    requires 0 < u && u + 31 < WORD_LIMIT && FindFit(h, listp, Request(u)).None?
    ensures var r := Malloc(h, listp, u); r.Allocated? ==> Holds(r.heap, r.bp, u)
  {
    var asize := Request(u);
    var words := MissWords(asize);
    if ExtendHeap(h, words).Extended? {
      var e := ExtendHeap(h, words);
      if CoalesceIsNoop(e.heap, e.bp) {
        ExtendHeapShape(h, words);
        assert PlaceArgs(e.heap, e.bp, asize);
        assert Malloc(h, listp, u) == Allocated(Place(e.heap, e.bp, asize), e.bp);
        PlaceCorrect(e.heap, e.bp, asize);
      }
    }
  }

  /** When a block fits, `mm_malloc` changes the block list only at the
      first fit: that block becomes `Placed`, and the blocks before and
      after it stay. */
  lemma MallocKeepsList(h: Heap, listp: int, u: Word)
    requires 0 < u && u + 31 < WORD_LIMIT && FindFit(h, listp, Request(u)).Some?
    ensures var bp := FindFit(h, listp, Request(u)).value; var c := Chain(h, listp);
      exists k :: 0 <= k < |c| && c[k] == bp
        && Chain(Malloc(h, listp, u).heap, listp) == c[..k] + Placed(h, bp, Request(u)) + c[k + 1..]
  {
    var asize := Request(u);
    var bp := FindFit(h, listp, asize).value;
    var c := Chain(h, listp);
    var k :| 0 <= k < |c| && c[k] == bp;
    assert PlaceArgs(h, bp, asize);
    assert Malloc(h, listp, u).heap == Place(h, bp, asize);
    PlaceInList(h, listp, k, asize);
  }

  /** `mm_malloc(18)` as written, when the first fit is a free block of
      4096 bytes: the block size is 49, the block splits into one whose
      header reads 48 bytes and a remainder of 4047 bytes that reads as
      allocated, so no later request can use it. */
  lemma MallocAsWrittenOdd(h: Heap, listp: int, bp: int)
    requires FindFit(h, listp, 49) == Some(bp) && SizeAt(h, bp) == 4096
    ensures var r := MallocAsWritten(h, listp, 18);
      && r.Allocated? && r.bp == bp
      && SizeAt(r.heap, bp) == 48 && AllocAt(r.heap, bp) == 1
      && NextBp(r.heap, bp) == bp + 48 && AllocAt(r.heap, bp + 48) == 1
  {
    RequestAsWrittenOdd();
    var m := Mark(h, bp, 49, 1);
    assert Read(m, bp - WSIZE) == Pack(49, 1);
    assert NextBp(m, bp) == bp + 48;
    PlaceOddLosesRest(h, bp, 49);
    PlaceAsWrittenSplits(h, bp, 49);
    assert MallocAsWritten(h, listp, 18) == Allocated(PlaceAsWritten(h, bp, 49), bp);
    // the remainder's header goes above `bp`, and its footer further up
    var w := Put(m, bp + 48 - WSIZE, Pack(4047, 0));
    assert Read(w, bp - WSIZE) == Pack(49, 1);
    assert FtrAddr(w, bp + 48) >= bp + 32;
  }

  /** The same request to the corrected `mm_malloc`: the block size is 48
      and the 4048-byte remainder is free. */
  lemma MallocEven(h: Heap, listp: int, bp: int)
    requires FindFit(h, listp, 48) == Some(bp) && SizeAt(h, bp) == 4096
    ensures var c := Malloc(h, listp, 18);
      && c.Allocated? && c.bp == bp
      && SizeAt(c.heap, bp) == 48 && AllocAt(c.heap, bp) == 1
      && NextBp(c.heap, bp) == bp + 48 && SizeAt(c.heap, bp + 48) == 4048 && AllocAt(c.heap, bp + 48) == 0
  {
    assert Request(18) == 48;
    PlaceIsSplit(h, bp, 48);
    SplitFirst(h, bp, 48, 4048);
    SplitRest(h, bp, 48, 4048);
    assert Malloc(h, listp, 18) == Allocated(Place(h, bp, 48), bp);
  }

  /** Right after `mm_init`, `mm_malloc(18)` as written leaves the rest of
      the chunk unusable, where the corrected one leaves it free. */
  lemma MallocAfterInit()
    ensures MmInit().Initialized?
    ensures var h := MmInit().heap;
      var r := MallocAsWritten(h, 2 * WSIZE, 18);
      r.Allocated? && r.bp == 32 && NextBp(r.heap, 32) == 80 && AllocAt(r.heap, 80) == 1
    ensures var h := MmInit().heap;
      var c := Malloc(h, 2 * WSIZE, 18);
      c.Allocated? && c.bp == 32 && NextBp(c.heap, 32) == 80 && AllocAt(c.heap, 80) == 0
  {
    InitHeap();
    FitAfterInit(49);
    FitAfterInit(48);
    MallocAsWrittenOdd(MmInit().heap, 2 * WSIZE, 4 * WSIZE);
    MallocEven(MmInit().heap, 2 * WSIZE, 4 * WSIZE);
  }
}
