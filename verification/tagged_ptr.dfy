/**
  A pointer and a generation tag packed into one 64-bit word: the low 48 bits
  hold the pointer, the high 16 bits hold the tag. This is the `TaggedPtr`
  value type that the reference-counted stack keeps in its atomic head.

  The bit manipulation is stated on the raw word (`Raw*` functions); the
  `TaggedPtr` datatype wraps that word and exposes the class's members.
*/
module TaggedPtr {

  const PTR_MASK: bv64 := 0x0000_FFFF_FFFF_FFFF
  const TAG_MASK: bv64 := 0xFFFF_0000_0000_0000

  /** The pointer field: the low 48 bits of the word. */
  function RawGetPtr(raw: bv64): (r: bv64)
    ensures r < 0x1_0000_0000_0000
    ensures r == raw % 0x1_0000_0000_0000
  {
    raw & PTR_MASK
  }

  /** The tag field: the high 16 bits of the word. */
  function RawGetTag(raw: bv64): (r: bv16)
    ensures r as bv64 == raw / 0x1_0000_0000_0000
  {
    ((raw & TAG_MASK) >> 48) as bv16
  }

  function RawSetPtr(raw: bv64, ptr: bv64): (r: bv64)
    ensures ptr < 0x1_0000_0000_0000 ==> RawGetPtr(r) == ptr && RawGetTag(r) == RawGetTag(raw)
  {
    (raw & TAG_MASK) | ptr
  }

  function RawSetTag(raw: bv64, tag: bv16): (r: bv64)
    ensures RawGetTag(r) == tag
    ensures RawGetPtr(r) == RawGetPtr(raw)
  {
    (raw & PTR_MASK) | ((tag as bv64) << 48)
  }

  /** The raw 64-bit word (`raw_`). */
  datatype TaggedPtr = TaggedPtr(raw: bv64)

  /** `get_ptr`: the word's low 48 bits. */
  function GetPtr(t: TaggedPtr): (r: bv64)
    ensures r < 0x1_0000_0000_0000
    ensures r == t.raw % 0x1_0000_0000_0000
  {
    RawGetPtr(t.raw)
  }

  /** `get_tag`: the word's high 16 bits. */
  function GetTag(t: TaggedPtr): (r: bv16)
    ensures r as bv64 == t.raw / 0x1_0000_0000_0000
  {
    RawGetTag(t.raw)
  }

  /** Default construction zero-initialises the word: a null pointer with tag 0. */
  function Default(): (t: TaggedPtr)
    ensures GetPtr(t) == 0 && GetTag(t) == 0
  {
    TaggedPtr(0)
  }

  /** `set_ptr`: keep the tag bits and OR the pointer in. The pointer's own
      high bits are not masked off, so a pointer at or above 2^48 leaks into
      the tag (see `SetPtrWidePointerLeaks`). */
  function SetPtr(t: TaggedPtr, ptr: bv64): (r: TaggedPtr)
    ensures ptr < 0x1_0000_0000_0000 ==> GetPtr(r) == ptr && GetTag(r) == GetTag(t)
  {
    TaggedPtr(RawSetPtr(t.raw, ptr))
  }

  /** `set_tag`: keep the pointer bits and put the tag in the high 16 bits. */
  function SetTag(t: TaggedPtr, tag: bv16): (r: TaggedPtr)
    ensures GetTag(r) == tag
    ensures GetPtr(r) == GetPtr(t)
  {
    TaggedPtr(RawSetTag(t.raw, tag))
  }

  /** The two-argument constructor. `raw_` is not initialised before
      `set_ptr` runs, so the prior contents of the word are a parameter. */
  function Make(ptr: bv64, tag: bv16, prior: bv64): (r: TaggedPtr)
    ensures ptr < 0x1_0000_0000_0000 ==> GetPtr(r) == ptr
    ensures GetTag(r) == tag
  {
    SetTag(SetPtr(TaggedPtr(prior), ptr), tag)
  }

  /** The new counter built in `increase_head_count`: the tag plus one,
      truncated back to 16 bits by the `uint16_t` parameter of `set_tag`
      (`bv16` addition wraps modulo 2^16). */
  function IncTag(t: TaggedPtr): (r: TaggedPtr)
    ensures GetTag(r) == GetTag(t) + 1
    ensures GetTag(t) < 0xFFFF ==> GetTag(r) > GetTag(t)
    ensures GetTag(t) == 0xFFFF ==> GetTag(r) == 0
    ensures GetPtr(r) == GetPtr(t)
  {
    SetTag(t, GetTag(t) + 1)
  }

  /** The two masks partition the word: the pointer mask is the low 48 bits
      and the tag mask is its complement. */
  lemma MasksPartition()
    ensures PTR_MASK == (1 << 48) - 1
    ensures TAG_MASK == !PTR_MASK
    ensures PTR_MASK & TAG_MASK == 0
    ensures PTR_MASK | TAG_MASK == 0xFFFF_FFFF_FFFF_FFFF
  {
  }

  lemma RawFieldsDetermineWord(a: bv64, b: bv64)
    requires RawGetPtr(a) == RawGetPtr(b) && RawGetTag(a) == RawGetTag(b)
    ensures a == b
  {
  }

  /** A tagged pointer is determined by its pointer and tag fields. */
  lemma FieldsDetermineWord(a: TaggedPtr, b: TaggedPtr)
    requires GetPtr(a) == GetPtr(b) && GetTag(a) == GetTag(b)
    ensures a == b
  {
    RawFieldsDetermineWord(a.raw, b.raw);
  }

  /** Whatever the uninitialised word held, the constructed value is the
      same, for any pointer below 2^48. */
  lemma MakeIgnoresPrior(ptr: bv64, tag: bv16, p1: bv64, p2: bv64)
    requires ptr < 0x1_0000_0000_0000
    ensures Make(ptr, tag, p1) == Make(ptr, tag, p2)
  {
    FieldsDetermineWord(Make(ptr, tag, p1), Make(ptr, tag, p2));
  }

  /** Setting a pointer with bit 48 set changes the tag. */
  lemma SetPtrWidePointerLeaks()
    ensures GetTag(SetPtr(Default(), 1 << 48)) == 1
  {
  }
}
