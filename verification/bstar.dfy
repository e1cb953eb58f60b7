/**
  The node primitives of `bstar_tree<KeyType, ValType, M>`, a B*-tree whose
  keys live in fixed arrays inside each node and whose leaves are chained by
  `next` pointers, instantiated with integer keys.

  Covered: the two binary searches of a node, `ceil_half`, the occupancy
  bounds and predicates, the leaf part of `insert`, the leaf branch of the
  root split, and `find`. The non-root split and merge paths are not
  modelled, so the trees modelled here have at most two levels: a single
  leaf root, or an index root over two chained leaves.

  A node's `key_cnt` is the length of its key sequence; the data pointer
  array runs in step with it. Data pointers and node addresses are opaque
  numbers.
*/
module BStar {
  import opened Wrappers

  type Key = int
  /** A `ValType *` data pointer. */
  type Val = nat
  /** The address of a node. */
  type NodeId = nat

  ghost predicate Sorted(s: seq<Key>) {
    forall i, j :: 0 <= i < j < |s| ==> s[i] <= s[j]
  }

  /** Keys in a node are unique: the tree has no duplicate keys. */
  ghost predicate StrictlySorted(s: seq<Key>) {
    forall i, j :: 0 <= i < j < |s| ==> s[i] < s[j]
  }

  /*---------------------------------------------------------------------------
    Binary searches
  ---------------------------------------------------------------------------*/

  /** Every key before `r` is at most `k`, every key from `r` on exceeds it. */
  ghost predicate UpperSplit(keys: seq<Key>, k: Key, r: nat) {
    r <= |keys|
    && (forall i :: 0 <= i < r ==> keys[i] <= k)
    && (forall i :: r <= i < |keys| ==> k < keys[i])
  }

  /** Every key before `r` is less than `k`, every key from `r` on is not. */
  ghost predicate LowerSplit(keys: seq<Key>, k: Key, r: nat) {
    r <= |keys|
    && (forall i :: 0 <= i < r ==> keys[i] < k)
    && (forall i :: r <= i < |keys| ==> k <= keys[i])
  }

  /** The loop of `find_idx_ptr_index_` on the window `[l, r)`: a middle key
      less than or equivalent to `k` moves `l` past it, any other moves `r`
      onto it. */
  function UpperFrom(keys: seq<Key>, k: Key, l: nat, r: nat): (res: nat)
    requires l <= r <= |keys|
    requires Sorted(keys) ==> (forall i :: 0 <= i < l ==> keys[i] <= k) && (forall i :: r <= i < |keys| ==> k < keys[i])
    decreases r - l
    ensures l <= res <= r
    ensures Sorted(keys) ==> UpperSplit(keys, k, res)
  {
    if r <= l then r
    else
      var mid := (r - l) / 2 + l;
      if keys[mid] < k || keys[mid] == k then UpperFrom(keys, k, mid + 1, r)
      else UpperFrom(keys, k, l, mid)
  }

  /** `find_idx_ptr_index_`: the upper bound of `k`. */
  function UpperBound(keys: seq<Key>, k: Key): (r: nat)
    ensures r <= |keys|
    ensures Sorted(keys) ==> UpperSplit(keys, k, r)
  {
    UpperFrom(keys, k, 0, |keys|)
  }

  /** The loop of `find_data_ptr_index_` on the window `[l, r)`: a middle
      key less than `k` moves `l` past it, any other moves `r` onto it. */
  function LowerFrom(keys: seq<Key>, k: Key, l: nat, r: nat): (res: nat)
    requires l <= r <= |keys|
    requires Sorted(keys) ==> (forall i :: 0 <= i < l ==> keys[i] < k) && (forall i :: r <= i < |keys| ==> k <= keys[i])
    decreases r - l
    ensures l <= res <= r
    ensures Sorted(keys) ==> LowerSplit(keys, k, res)
  {
    if r <= l then r
    else
      var mid := (r - l) / 2 + l;
      if keys[mid] < k then LowerFrom(keys, k, mid + 1, r)
      else LowerFrom(keys, k, l, mid)
  }

  /** `find_data_ptr_index_`: the lower bound of `k`. */
  function LowerBound(keys: seq<Key>, k: Key): (r: nat)
    ensures r <= |keys|
    ensures Sorted(keys) ==> LowerSplit(keys, k, r)
  {
    LowerFrom(keys, k, 0, |keys|)
  }

  lemma StrictlySortedIsSorted(s: seq<Key>)
    requires StrictlySorted(s)
    ensures Sorted(s)
  {
  }

  /** The upper split property read at one index. */
  lemma UpperAt(keys: seq<Key>, k: Key, r: nat, i: nat)
    requires UpperSplit(keys, k, r) && i < |keys|
    ensures i < r ==> keys[i] <= k
    ensures r <= i ==> k < keys[i]
  {
  }

  /** The lower split property read at one index. */
  lemma LowerAt(keys: seq<Key>, k: Key, r: nat, i: nat)
    requires LowerSplit(keys, k, r) && i < |keys|
    ensures i < r ==> keys[i] < k
    ensures r <= i ==> k <= keys[i]
  {
  }

  /** An upper split point is unique: the search returns the only index
      with that partition property. */
  lemma UpperSplitUnique(keys: seq<Key>, k: Key, r: nat)
    requires Sorted(keys) && UpperSplit(keys, k, r)
    ensures r == UpperBound(keys, k)
  {
    var u := UpperBound(keys, k);
    if r != u {
      var i := if r < u then r else u;
      UpperAt(keys, k, r, i);
      UpperAt(keys, k, u, i);
    }
  }

  /** A lower split point is unique likewise. */
  lemma LowerSplitUnique(keys: seq<Key>, k: Key, r: nat)
    requires Sorted(keys) && LowerSplit(keys, k, r)
    ensures r == LowerBound(keys, k)
  {
    var l := LowerBound(keys, k);
    if r != l {
      var i := if r < l then r else l;
      LowerAt(keys, k, r, i);
      LowerAt(keys, k, l, i);
    }
  }

  /** With unique keys the two searches bracket the occurrence of `k`: they
      differ exactly when `k` is present, and then by one, at its index. */
  lemma BoundsBracketKey(keys: seq<Key>, k: Key)
    requires StrictlySorted(keys)
    ensures k in keys <==> LowerBound(keys, k) < UpperBound(keys, k)
    ensures k in keys ==> UpperBound(keys, k) == LowerBound(keys, k) + 1 && keys[LowerBound(keys, k)] == k
    ensures k !in keys ==> UpperBound(keys, k) == LowerBound(keys, k)
  {
    StrictlySortedIsSorted(keys);
    var l := LowerBound(keys, k);
    var u := UpperBound(keys, k);
    if k in keys {
      var j :| 0 <= j < |keys| && keys[j] == k;
      LowerAt(keys, k, l, j);
      UpperAt(keys, k, u, j);
    }
    if l < u {
      LowerAt(keys, k, l, l);
      UpperAt(keys, k, u, l);
      if l + 1 < u {
        UpperAt(keys, k, u, l + 1);
      }
    } else if u < l {
      LowerAt(keys, k, l, u);
      UpperAt(keys, k, u, u);
    }
  }

  /*---------------------------------------------------------------------------
    Occupancy
  ---------------------------------------------------------------------------*/

  const SIZE_T_LIMIT: nat := 0x1_0000_0000_0000_0000

  /** `ceil_half`: `(a >> 1) + (b >> 1) + ((a & 1) + (b & 1) + 1) / 2` on
      `size_t`, where a right shift by one halves and `& 1` is the parity. */
  function CeilHalf(a: nat, b: nat): (r: nat)
    requires a < SIZE_T_LIMIT && b < SIZE_T_LIMIT
    ensures r == (a + b + 1) / 2
    ensures r < SIZE_T_LIMIT
  {
    a / 2 + b / 2 + (a % 2 + b % 2 + 1) / 2
  }

  /** `MIN_KEYS`: two thirds of `M - 1`, rounded up. */
  function MinKeys(m: nat): (r: nat)
    requires m >= 5
    ensures 3 * r >= 2 * (m - 1) && 3 * (r - 1) < 2 * (m - 1)
  {
    (2 * (m - 1) + 2) / 3
  }

  /** `MAX_KEYS`: one key short of the `M - 1` slots of the key array. */
  function MaxKeys(m: nat): (r: nat)
    requires m >= 5
    ensures r + 1 == m - 1
  {
    m - 2
  }

  /** `overflow_`: the node is full and must be split before an insert. */
  predicate Overflow(m: nat, keyCnt: nat)
    requires m >= 5
  {
    keyCnt >= MaxKeys(m)
  }

  /** `underflow_`: the node holds fewer keys than a B*-tree allows. */
  predicate Underflow(m: nat, keyCnt: nat)
    requires m >= 5
  {
    keyCnt < MinKeys(m)
  }

  /** `will_overflow_`: two siblings shared out evenly would overflow. */
  predicate WillOverflow(m: nat, a: nat, b: nat)
    requires m >= 5 && a < SIZE_T_LIMIT && b < SIZE_T_LIMIT
  {
    CeilHalf(a, b) >= MaxKeys(m)
  }

  /** `will_underflow_`: two siblings shared out evenly would underflow. */
  predicate WillUnderflow(m: nat, a: nat, b: nat)
    requires m >= 5 && a < SIZE_T_LIMIT && b < SIZE_T_LIMIT
  {
    CeilHalf(a, b) < MinKeys(m)
  }

  /** For every `M >= 5` the two bounds leave a legal band: no count both
      overflows and underflows, a node that does not overflow has a free
      array slot, and so does each half of a split full node. */
  lemma OccupancyBands(m: nat, keyCnt: nat)
    requires m >= 5
    ensures MinKeys(m) <= MaxKeys(m)
    ensures !(Overflow(m, keyCnt) && Underflow(m, keyCnt))
    ensures !Overflow(m, keyCnt) ==> keyCnt + 1 < m - 1
    ensures keyCnt == MaxKeys(m) ==> !Overflow(m, (keyCnt + 1) / 2) && !Overflow(m, keyCnt / 2)
  {
  }

  /** Sharing out evenly overflows or underflows exactly when the larger
      share does. */
  lemma SharedOccupancy(m: nat, a: nat, b: nat)
    requires m >= 5 && a < SIZE_T_LIMIT && b < SIZE_T_LIMIT
    ensures WillOverflow(m, a, b) <==> Overflow(m, (a + b + 1) / 2)
    ensures WillUnderflow(m, a, b) <==> Underflow(m, (a + b + 1) / 2)
  {
  }

  /*---------------------------------------------------------------------------
    Leaves
  ---------------------------------------------------------------------------*/

  /** A leaf: its keys, the data pointers beside them, and `leaf.next`. */
  datatype Leaf = Leaf(keys: seq<Key>, data: seq<Val>, next: Option<NodeId>)

  /** The arrays run in step and the keys are unique and ascending. */
  ghost predicate LeafValid(l: Leaf) {
    |l.data| == |l.keys| && StrictlySorted(l.keys)
  }

  /** What a leaf stores: each key mapped to the data pointer beside it. */
  ghost function Contents(l: Leaf): map<Key, Val>
    requires LeafValid(l)
  {
    map i | 0 <= i < |l.keys| :: l.keys[i] := l.data[i]
  }

  /** A leaf stores exactly its keys, each with the pointer beside it. */
  lemma ContentsAt(l: Leaf, i: nat)
    requires LeafValid(l) && i < |l.keys|
    ensures l.keys[i] in Contents(l) && Contents(l)[l.keys[i]] == l.data[i]
  {
  }

  lemma ContentsDomain(l: Leaf, x: Key)
    requires LeafValid(l)
    ensures x in Contents(l) <==> x in l.keys
  {
    if x in l.keys {
      var i :| 0 <= i < |l.keys| && l.keys[i] == x;
      ContentsAt(l, i);
    }
  }

  /** `s` with `x` written into slot `i` after shifting the tail up. */
  function Splice<T>(s: seq<T>, i: nat, x: T): (r: seq<T>)
    requires i <= |s|
    ensures |r| == |s| + 1 && r[i] == x
    ensures forall j :: 0 <= j < i ==> r[j] == s[j]
    ensures forall j :: i < j < |r| ==> r[j] == s[j - 1]
  {
    s[..i] + [x] + s[i..]
  }

  /** Splicing adds exactly the one element. */
  lemma SpliceMembers<T>(s: seq<T>, i: nat, x: T, y: T)
    requires i <= |s|
    ensures y in Splice(s, i, x) <==> y in s || y == x
  {
    assert s == s[..i] + s[i..];
  }

  datatype LeafInsertResult = LeafInsertResult(ok: bool, leaf: Leaf)

  /** The leaf part of `insert`: give up when the lower and upper bounds
      differ, otherwise shift keys and data pointers from the bound up by
      one slot and write `k` and `v` into it. */
  function LeafInsert(l: Leaf, k: Key, v: Val): (r: LeafInsertResult)
    requires |l.data| == |l.keys|
    ensures |r.leaf.data| == |r.leaf.keys| && r.leaf.next == l.next
    ensures !r.ok ==> r.leaf == l
    ensures r.ok ==> |r.leaf.keys| == |l.keys| + 1
  {
    var check := LowerBound(l.keys, k);
    var idx := UpperBound(l.keys, k);
    if idx != check then LeafInsertResult(false, l)
    else
      LeafInsertResult(true, Leaf(Splice(l.keys, idx, k), Splice(l.data, idx, v), l.next))
  }

  /** Splicing a key in at its bound keeps the keys unique and ascending. */
  lemma SpliceSorted(keys: seq<Key>, k: Key, idx: nat)
    requires StrictlySorted(keys) && idx <= |keys|
    requires forall i :: 0 <= i < idx ==> keys[i] < k
    requires forall i :: idx <= i < |keys| ==> k < keys[i]
    ensures StrictlySorted(Splice(keys, idx, k))
  {
    var n := Splice(keys, idx, k);
    forall i, j | 0 <= i < j < |n|
      ensures n[i] < n[j]
    {
      if j < idx {
      } else if i > idx {
      } else if i == idx {
        assert n[j] == keys[j - 1];
      } else if j == idx {
        assert n[i] == keys[i];
      } else {
        assert n[i] == keys[i] && n[j] == keys[j - 1];
      }
    }
  }

  /** A pair above the splice point is the pair one slot lower before. */
  lemma SplicedAbove(l: Leaf, n: Leaf, idx: nat, j: nat)
    requires LeafValid(l) && LeafValid(n) && idx < j < |n.keys| == |l.keys| + 1
    requires n.keys[j] == l.keys[j - 1] && n.data[j] == l.data[j - 1]
    ensures n.keys[j] in Contents(l) && Contents(l)[n.keys[j]] == n.data[j]
  {
    ContentsAt(l, j - 1);
  }

  /** Splicing a new pair into a valid leaf adds that pair to its
      contents. */
  lemma SpliceContents(l: Leaf, k: Key, v: Val, idx: nat)
    requires LeafValid(l) && idx <= |l.keys| && k !in l.keys
    requires LeafValid(Leaf(Splice(l.keys, idx, k), Splice(l.data, idx, v), l.next))
    ensures Contents(Leaf(Splice(l.keys, idx, k), Splice(l.data, idx, v), l.next)) == Contents(l)[k := v]
  {
    var n := Leaf(Splice(l.keys, idx, k), Splice(l.data, idx, v), l.next);
    var want := Contents(l)[k := v];
    forall x | x in Contents(n)
      ensures x in want && Contents(n)[x] == want[x]
    {
      ContentsDomain(n, x);
      var j :| 0 <= j < |n.keys| && n.keys[j] == x;
      ContentsAt(n, j);
      if j < idx {
        ContentsAt(l, j);
      } else if j > idx {
        SplicedAbove(l, n, idx, j);
      }
    }
    forall x | x in want
      ensures x in Contents(n)
    {
      ContentsDomain(n, x);
      if x != k {
        ContentsDomain(l, x);
        var j :| 0 <= j < |l.keys| && l.keys[j] == x;
        assert n.keys[if j < idx then j else j + 1] == x;
      } else {
        assert n.keys[idx] == k;
      }
    }
  }

  /** On a valid leaf, insertion succeeds exactly for a new key, keeps the
      leaf valid, and adds the one pair `k -> v` to what the leaf stores. */
  lemma LeafInsertCorrect(l: Leaf, k: Key, v: Val)
    requires LeafValid(l)
    ensures LeafInsert(l, k, v).ok <==> k !in l.keys
    ensures LeafValid(LeafInsert(l, k, v).leaf)
    ensures LeafInsert(l, k, v).ok ==> Contents(LeafInsert(l, k, v).leaf) == Contents(l)[k := v]
  {
    BoundsBracketKey(l.keys, k);
    if k !in l.keys {
      var idx := UpperBound(l.keys, k);
      StrictlySortedIsSorted(l.keys);
      assert LeafInsert(l, k, v).leaf == Leaf(Splice(l.keys, idx, k), Splice(l.data, idx, v), l.next);
      forall i | 0 <= i < |l.keys|
        ensures i < idx ==> l.keys[i] < k
        ensures idx <= i ==> k < l.keys[i]
      {
        UpperAt(l.keys, k, idx, i);
        assert l.keys[i] in l.keys;
      }
      SpliceSorted(l.keys, k, idx);
      SpliceContents(l, k, v, idx);
    }
  }

  /*---------------------------------------------------------------------------
    Root split and trees of at most two levels
  ---------------------------------------------------------------------------*/

  /** An index node: its keys and its `key_cnt + 1` child pointers. */
  datatype Index = Index(keys: seq<Key>, children: seq<NodeId>)

  /** A tree is a leaf root, or an index root over leaves reached through
      the `leaves` table. */
  datatype Tree = LeafRoot(id: NodeId, leaf: Leaf) | IndexRoot(index: Index, leaves: map<NodeId, Leaf>)

  /** The constructor: an empty leaf root. */
  function EmptyTree(id: NodeId): (t: Tree)
    ensures t.LeafRoot? && t.leaf.keys == [] && t.leaf.next == None
  {
    LeafRoot(id, Leaf([], [], None))
  }

  /** The old root after the split: its first `(n+1)/2` keys, chained to
      the new node. */
  function LeftHalf(l: Leaf, newId: NodeId): Leaf
    requires |l.data| == |l.keys|
  {
    var need1 := (|l.keys| + 1) / 2;
    Leaf(l.keys[..need1], l.data[..need1], Some(newId))
  }

  /** The new node: the `n/2` keys after those, with a null `next`. */
  function RightHalf(l: Leaf): Leaf
    requires |l.data| == |l.keys|
  {
    var need1 := (|l.keys| + 1) / 2;
    var need2 := |l.keys| / 2;
    Leaf(l.keys[need1..need1 + need2], l.data[need1..need1 + need2], None)
  }

  /** The leaf branch of `do_1_2_split_root_`: the old root keeps the first
      `(n+1)/2` keys, a new node at `newId` gets the other `n/2`, and a new
      index root holds the new node's first key over the two. When the new
      node is empty, that key is the value-initialised `KeyType{}`. */
  function SplitLeafRoot(id: NodeId, l: Leaf, newId: NodeId): (t: Tree)
    requires |l.data| == |l.keys|
    ensures t.IndexRoot? && t.index.children == [id, newId] && |t.index.keys| == 1
  {
    var right := RightHalf(l);
    var sep := if |right.keys| > 0 then right.keys[0] else 0;
    IndexRoot(Index([sep], [id, newId]), map[id := LeftHalf(l, newId), newId := right])
  }

  /** The two halves of a split: left keeps `(n+1)/2` keys and points to
      the right half, which gets `n/2`; together they hold what the root
      held, and the separator, the right half's first key, parts them. */
  lemma SplitHalvesCorrect(l: Leaf, newId: NodeId)
    requires LeafValid(l) && |l.keys| >= 2
    ensures |LeftHalf(l, newId).keys| == (|l.keys| + 1) / 2 && |RightHalf(l).keys| == |l.keys| / 2
    ensures LeftHalf(l, newId).keys + RightHalf(l).keys == l.keys
    ensures LeftHalf(l, newId).data + RightHalf(l).data == l.data
    ensures LeafValid(LeftHalf(l, newId)) && LeafValid(RightHalf(l))
    ensures forall x :: x in LeftHalf(l, newId).keys ==> x < RightHalf(l).keys[0]
    ensures forall x :: x in RightHalf(l).keys ==> RightHalf(l).keys[0] <= x
    ensures Contents(LeftHalf(l, newId)) + Contents(RightHalf(l)) == Contents(l)
  {
    var h := (|l.keys| + 1) / 2;
    assert l.keys[h..h + |l.keys| / 2] == l.keys[h..];
    assert l.data[h..h + |l.keys| / 2] == l.data[h..];
    HalvesSorted(l.keys, h);
    ConcatContents(LeftHalf(l, newId), RightHalf(l), l);
  }

  /** The root split links the old root to the new node, which has a null
      `next`, and makes both children of a one-key index root. */
  lemma SplitLeafRootShape(id: NodeId, l: Leaf, newId: NodeId)
    requires |l.data| == |l.keys| && |l.keys| >= 2 && id != newId
    ensures SplitLeafRoot(id, l, newId).leaves.Keys == {id, newId}
    ensures SplitLeafRoot(id, l, newId).leaves[id] == LeftHalf(l, newId)
    ensures SplitLeafRoot(id, l, newId).leaves[newId] == RightHalf(l)
    ensures LeftHalf(l, newId).next == Some(newId) && RightHalf(l).next == None
    ensures SplitLeafRoot(id, l, newId).index == Index([RightHalf(l).keys[0]], [id, newId])
  {
  }

  /** Both halves of unique ascending keys stay so, and the first key of
      the upper half parts them. */
  lemma HalvesSorted(keys: seq<Key>, h: nat)
    requires StrictlySorted(keys) && 0 < h < |keys|
    ensures StrictlySorted(keys[..h]) && StrictlySorted(keys[h..])
    ensures forall x :: x in keys[..h] ==> x < keys[h]
    ensures forall x :: x in keys[h..] ==> keys[h] <= x
  {
    forall x | x in keys[..h]
      ensures x < keys[h]
    {
      var i :| 0 <= i < h && keys[..h][i] == x;
      assert keys[i] < keys[h];
    }
    forall x | x in keys[h..]
      ensures keys[h] <= x
    {
      var i :| 0 <= i < |keys| - h && keys[h..][i] == x;
      assert keys[h] <= keys[h + i];
    }
  }

  /** A key from the first part of a cut leaf is stored by that part
      alone, with the same pointer. */
  lemma ConcatLeftKey(left: Leaf, right: Leaf, l: Leaf, i: nat)
    requires LeafValid(left) && LeafValid(right) && LeafValid(l)
    requires left.keys + right.keys == l.keys && left.data + right.data == l.data
    requires i < |left.keys|
    ensures l.keys[i] in Contents(left) && l.keys[i] !in Contents(right)
    ensures Contents(left)[l.keys[i]] == Contents(l)[l.keys[i]]
  {
    var h := |left.keys|;
    var x := l.keys[i];
    ContentsAt(l, i);
    assert left.keys[i] == x;
    ContentsAt(left, i);
    forall j | 0 <= j < |right.keys|
      ensures right.keys[j] != x
    {
      assert right.keys[j] == l.keys[h + j];
    }
    ContentsDomain(right, x);
  }

  /** A key from the second part is stored there with the same pointer. */
  lemma ConcatRightKey(left: Leaf, right: Leaf, l: Leaf, i: nat)
    requires LeafValid(left) && LeafValid(right) && LeafValid(l)
    requires left.keys + right.keys == l.keys && left.data + right.data == l.data
    requires |left.keys| <= i < |l.keys|
    ensures l.keys[i] in Contents(right) && Contents(right)[l.keys[i]] == Contents(l)[l.keys[i]]
  {
    ContentsAt(l, i);
    assert right.keys[i - |left.keys|] == l.keys[i];
    ContentsAt(right, i - |left.keys|);
  }

  /** A valid leaf cut in two stores the union of what the halves store. */
  lemma ConcatContents(left: Leaf, right: Leaf, l: Leaf)
    requires LeafValid(left) && LeafValid(right) && LeafValid(l)
    requires left.keys + right.keys == l.keys && left.data + right.data == l.data
    ensures Contents(left) + Contents(right) == Contents(l)
  {
    ConcatCovers(left, right, l);
    ConcatWithin(left, right, l);
  }

  /** Every pair of the cut leaf is a pair of the union. */
  lemma ConcatCovers(left: Leaf, right: Leaf, l: Leaf)
    requires LeafValid(left) && LeafValid(right) && LeafValid(l)
    requires left.keys + right.keys == l.keys && left.data + right.data == l.data
    ensures forall x :: x in Contents(l) ==>
      x in Contents(left) + Contents(right) && (Contents(left) + Contents(right))[x] == Contents(l)[x]
  {
    forall x | x in Contents(l)
      ensures x in Contents(left) + Contents(right)
      ensures (Contents(left) + Contents(right))[x] == Contents(l)[x]
    {
      ContentsDomain(l, x);
      var i :| 0 <= i < |l.keys| && l.keys[i] == x;
      if i < |left.keys| {
        ConcatLeftKey(left, right, l, i);
      } else {
        ConcatRightKey(left, right, l, i);
      }
    }
  }

  /** Every key of either part is a key of the cut leaf. */
  lemma ConcatWithin(left: Leaf, right: Leaf, l: Leaf)
    requires LeafValid(left) && LeafValid(right) && LeafValid(l)
    requires left.keys + right.keys == l.keys
    ensures forall x :: x in Contents(left) + Contents(right) ==> x in Contents(l)
  {
    forall x | x in Contents(left) + Contents(right)
      ensures x in Contents(l)
    {
      ContentsDomain(l, x);
      ContentsDomain(left, x);
      ContentsDomain(right, x);
    }
  }

  /** The invariant of a leaf root: valid, unchained, within `MAX_KEYS`. */
  ghost predicate LeafRootOk(l: Leaf, m: nat)
    requires m >= 5
  {
    LeafValid(l) && l.next == None && |l.keys| <= MaxKeys(m)
  }

  /** The invariant of an index root: one separator over a non-empty left
      leaf chained to a right leaf, both valid and within `MAX_KEYS`, with
      the keys below the separator on the left and the rest on the right. */
  ghost predicate IndexRootOk(ix: Index, ls: map<NodeId, Leaf>, m: nat)
    requires m >= 5
  {
    && |ix.keys| == 1 && |ix.children| == 2
    && var a := ix.children[0];
    var b := ix.children[1];
    && a != b && ls.Keys == {a, b}
    && LeafValid(ls[a]) && LeafValid(ls[b])
    && ls[a].next == Some(b) && ls[b].next == None
    && 0 < |ls[a].keys| <= MaxKeys(m) && |ls[b].keys| <= MaxKeys(m)
    && (forall x :: x in ls[a].keys ==> x < ix.keys[0])
    && (forall x :: x in ls[b].keys ==> ix.keys[0] <= x)
  }

  /** The tree invariant. */
  ghost predicate WellFormed(t: Tree, m: nat)
    requires m >= 5
  {
    match t
    case LeafRoot(_, l) => LeafRootOk(l, m)
    case IndexRoot(ix, ls) => IndexRootOk(ix, ls, m)
  }

  /** What an index root's two leaves store together. */
  ghost function IndexContents(ix: Index, ls: map<NodeId, Leaf>, m: nat): map<Key, Val>
    requires m >= 5 && IndexRootOk(ix, ls, m)
  {
    Contents(ls[ix.children[0]]) + Contents(ls[ix.children[1]])
  }

  /** What a tree stores: the union of what its leaves store. */
  ghost function TreeContents(t: Tree, m: nat): map<Key, Val>
    requires m >= 5 && WellFormed(t, m)
  {
    match t
    case LeafRoot(_, l) => Contents(l)
    case IndexRoot(ix, ls) => IndexContents(ix, ls, m)
  }

  lemma EmptyTreeWellFormed(id: NodeId, m: nat)
    requires m >= 5
    ensures WellFormed(EmptyTree(id), m) && TreeContents(EmptyTree(id), m) == map[]
  {
  }

  /** Splitting a full leaf root yields a well-formed two-level tree that
      stores what the root stored. */
  lemma SplitWellFormed(id: NodeId, l: Leaf, newId: NodeId, m: nat)
    requires m >= 5 && LeafRootOk(l, m) && Overflow(m, |l.keys|) && id != newId
    ensures IndexRootOk(SplitLeafRoot(id, l, newId).index, SplitLeafRoot(id, l, newId).leaves, m)
    ensures IndexContents(SplitLeafRoot(id, l, newId).index, SplitLeafRoot(id, l, newId).leaves, m) == Contents(l)
  {
    SplitHalvesCorrect(l, newId);
    SplitLeafRootShape(id, l, newId);
  }

  /** A one-key index node sends `k` left of its key or right of it: at or
      above the key for the upper bound, strictly above for the lower. */
  lemma OneKeyBounds(sep: Key, k: Key)
    ensures UpperBound([sep], k) == if k < sep then 0 else 1
    ensures LowerBound([sep], k) == if k <= sep then 0 else 1
  {
  }

  datatype InsertOutcome = Done(ok: bool, tree: Tree) | NotModelled

  /** The leaf `insert` descends to from an index root, by the upper bound. */
  function InsertTarget(t: Tree, k: Key, m: nat): (c: NodeId)
    requires m >= 5 && WellFormed(t, m) && t.IndexRoot?
    ensures c in t.leaves
  {
    OneKeyBounds(t.index.keys[0], k);
    t.index.children[UpperBound(t.index.keys, k)]
  }

  /** `insert` below an index root: a full target leaf would need the
      sibling split, which is not modelled; otherwise the leaf insert. */
  function InsertBelow(t: Tree, k: Key, v: Val, m: nat): (r: InsertOutcome)
    requires m >= 5 && WellFormed(t, m) && t.IndexRoot?
    ensures r.Done? ==> r.tree.IndexRoot? && r.tree.index == t.index
  {
    var child := InsertTarget(t, k, m);
    var target := t.leaves[child];
    if Overflow(m, |target.keys|) then NotModelled
    else
      var r := LeafInsert(target, k, v);
      Done(r.ok, IndexRoot(t.index, t.leaves[child := r.leaf]))
  }

  /** `insert`: a full leaf root is split first, at the fresh address
      `newId`; then the leaf reached is given the pair. */
  function Insert(t: Tree, k: Key, v: Val, m: nat, newId: NodeId): (r: InsertOutcome)
    requires m >= 5 && WellFormed(t, m)
    requires t.LeafRoot? ==> newId != t.id
    ensures t.LeafRoot? ==> r.Done?
  {
    match t
    case LeafRoot(id, l) =>
      if Overflow(m, |l.keys|) then
        SplitWellFormed(id, l, newId, m);
        SplitHalvesCorrect(l, newId);
        var split := SplitLeafRoot(id, l, newId);
        assert split.leaves[id] == LeftHalf(l, newId) && split.leaves[newId] == RightHalf(l);
        OneKeyBounds(split.index.keys[0], k);
        InsertBelow(split, k, v, m)
      else
        var r := LeafInsert(l, k, v);
        Done(r.ok, LeafRoot(id, r.leaf))
    case IndexRoot(_, _) => InsertBelow(t, k, v, m)
  }

  /** Adding a pair on the left of a union does not disturb the right
      operand when the key is not there. */
  lemma UnionUpdateLeft(ca: map<Key, Val>, cb: map<Key, Val>, k: Key, v: Val)
    requires k !in cb
    ensures ca[k := v] + cb == (ca + cb)[k := v]
  {
  }

  /** An index root's leaf table is exactly its two children. */
  lemma IndexRootLeaves(ix: Index, ls: map<NodeId, Leaf>, m: nat)
    requires m >= 5 && IndexRootOk(ix, ls, m)
    ensures ls == map[ix.children[0] := ls[ix.children[0]], ix.children[1] := ls[ix.children[1]]]
  {
  }

  /** The index root invariant from facts about its two leaves. */
  lemma IndexRootFromLeaves(ix: Index, a: Leaf, b: Leaf, m: nat)
    requires m >= 5 && |ix.keys| == 1 && |ix.children| == 2 && ix.children[0] != ix.children[1]
    requires LeafValid(a) && LeafValid(b) && a.next == Some(ix.children[1]) && b.next == None
    requires 0 < |a.keys| <= MaxKeys(m) && |b.keys| <= MaxKeys(m)
    requires forall x :: x in a.keys ==> x < ix.keys[0]
    requires forall x :: x in b.keys ==> ix.keys[0] <= x
    ensures IndexRootOk(ix, map[ix.children[0] := a, ix.children[1] := b], m)
    ensures IndexContents(ix, map[ix.children[0] := a, ix.children[1] := b], m) == Contents(a) + Contents(b)
  {
  }

  /** Inserting into a leaf whose keys all satisfy a bound that `k` also
      satisfies keeps every key within it. */
  lemma LeafInsertKeys(l: Leaf, k: Key, v: Val, y: Key)
    requires |l.data| == |l.keys|
    ensures y in LeafInsert(l, k, v).leaf.keys ==> y in l.keys || y == k
  {
    if LeafInsert(l, k, v).ok {
      SpliceMembers(l.keys, UpperBound(l.keys, k), k, y);
    }
  }

  /** Adding a pair on the right of a union adds it to the union. */
  lemma UnionUpdateRight(ca: map<Key, Val>, cb: map<Key, Val>, k: Key, v: Val)
    ensures ca + cb[k := v] == (ca + cb)[k := v]
  {
  }

  /** A key below the separator goes into the left leaf; with room there,
      the pair is added exactly when the key is new to the tree. */
  lemma InsertIntoLeft(ix: Index, ls: map<NodeId, Leaf>, k: Key, v: Val, m: nat)
    requires m >= 5 && IndexRootOk(ix, ls, m) && k < ix.keys[0]
    requires !Overflow(m, |ls[ix.children[0]].keys|)
    ensures var r := LeafInsert(ls[ix.children[0]], k, v);
      var ls' := ls[ix.children[0] := r.leaf];
      && IndexRootOk(ix, ls', m)
      && (r.ok <==> k !in IndexContents(ix, ls, m))
      && IndexContents(ix, ls', m) == if r.ok then IndexContents(ix, ls, m)[k := v] else IndexContents(ix, ls, m)
  {
    var a := ls[ix.children[0]];
    var b := ls[ix.children[1]];
    var r := LeafInsert(a, k, v);
    IndexRootLeaves(ix, ls, m);
    assert ls[ix.children[0] := r.leaf] == map[ix.children[0] := r.leaf, ix.children[1] := b];
    LeafInsertCorrect(a, k, v);
    forall y | y in r.leaf.keys
      ensures y < ix.keys[0]
    {
      LeafInsertKeys(a, k, v, y);
    }
    IndexRootFromLeaves(ix, r.leaf, b, m);
    ContentsDomain(a, k);
    ContentsDomain(b, k);
    if r.ok {
      UnionUpdateLeft(Contents(a), Contents(b), k, v);
    }
  }

  /** A key at or above the separator goes into the right leaf likewise. */
  lemma InsertIntoRight(ix: Index, ls: map<NodeId, Leaf>, k: Key, v: Val, m: nat)
    requires m >= 5 && IndexRootOk(ix, ls, m) && ix.keys[0] <= k
    requires !Overflow(m, |ls[ix.children[1]].keys|)
    ensures var r := LeafInsert(ls[ix.children[1]], k, v);
      var ls' := ls[ix.children[1] := r.leaf];
      && IndexRootOk(ix, ls', m)
      && (r.ok <==> k !in IndexContents(ix, ls, m))
      && IndexContents(ix, ls', m) == if r.ok then IndexContents(ix, ls, m)[k := v] else IndexContents(ix, ls, m)
  {
    var a := ls[ix.children[0]];
    var b := ls[ix.children[1]];
    var r := LeafInsert(b, k, v);
    IndexRootLeaves(ix, ls, m);
    assert ls[ix.children[1] := r.leaf] == map[ix.children[0] := a, ix.children[1] := r.leaf];
    LeafInsertCorrect(b, k, v);
    forall y | y in r.leaf.keys
      ensures ix.keys[0] <= y
    {
      LeafInsertKeys(b, k, v, y);
    }
    IndexRootFromLeaves(ix, a, r.leaf, m);
    ContentsDomain(a, k);
    ContentsDomain(b, k);
    assert k !in Contents(a);
    if r.ok {
      UnionUpdateRight(Contents(a), Contents(b), k, v);
    }
  }

  /** Below an index root, `insert` is left unmodelled exactly when the
      target leaf is full; otherwise it keeps the invariant, succeeds
      exactly for a new key, and then adds the one pair `k -> v`. */
  lemma InsertBelowCorrect(ix: Index, ls: map<NodeId, Leaf>, k: Key, v: Val, m: nat)
    requires m >= 5 && IndexRootOk(ix, ls, m)
    ensures InsertBelow(IndexRoot(ix, ls), k, v, m).NotModelled?
        <==> Overflow(m, |ls[InsertTarget(IndexRoot(ix, ls), k, m)].keys|)
    ensures var r := InsertBelow(IndexRoot(ix, ls), k, v, m);
      r.Done? ==>
        && IndexRootOk(r.tree.index, r.tree.leaves, m)
        && (r.ok <==> k !in IndexContents(ix, ls, m))
        && IndexContents(r.tree.index, r.tree.leaves, m)
           == if r.ok then IndexContents(ix, ls, m)[k := v] else IndexContents(ix, ls, m)
  {
    OneKeyBounds(ix.keys[0], k);
    if !Overflow(m, |ls[InsertTarget(IndexRoot(ix, ls), k, m)].keys|) {
      if k < ix.keys[0] {
        InsertIntoLeft(ix, ls, k, v, m);
      } else {
        InsertIntoRight(ix, ls, k, v, m);
      }
    }
  }

  /** `insert` keeps the tree invariant; it is left unmodelled exactly when
      an index root's target leaf is full; otherwise it succeeds exactly
      for a new key and then adds the one pair `k -> v`. */
  lemma InsertCorrect(t: Tree, k: Key, v: Val, m: nat, newId: NodeId)
    requires m >= 5 && WellFormed(t, m)
    requires t.LeafRoot? ==> newId != t.id
    ensures Insert(t, k, v, m, newId).NotModelled?
        <==> t.IndexRoot? && Overflow(m, |t.leaves[InsertTarget(t, k, m)].keys|)
    ensures var r := Insert(t, k, v, m, newId);
      r.Done? ==>
        && WellFormed(r.tree, m)
        && (r.ok <==> k !in TreeContents(t, m))
        && TreeContents(r.tree, m) == if r.ok then TreeContents(t, m)[k := v] else TreeContents(t, m)
  {
    match t
    case LeafRoot(id, l) =>
      if Overflow(m, |l.keys|) {
        var ix, ls := Index([RightHalf(l).keys[0]], [id, newId]), map[id := LeftHalf(l, newId), newId := RightHalf(l)];
        SplitLeafRootShape(id, l, newId);
        SplitWellFormed(id, l, newId, m);
        SplitHalvesCorrect(l, newId);
        OneKeyBounds(ix.keys[0], k);
        InsertBelowCorrect(ix, ls, k, v, m);
      } else {
        LeafInsertCorrect(l, k, v);
        ContentsDomain(l, k);
      }
    case IndexRoot(ix, ls) =>
      InsertBelowCorrect(ix, ls, k, v, m);
  }

  /*---------------------------------------------------------------------------
    find
  ---------------------------------------------------------------------------*/

  /** Every leaf in a table keeps its arrays in step. */
  ghost predicate Parallel(ls: map<NodeId, Leaf>) {
    forall id :: id in ls ==> |ls[id].data| == |ls[id].keys|
  }

  /** The pointers one leaf contributes: those between the lower and the
      upper bound of `k`. */
  function LeafHits(l: Leaf, k: Key): seq<Val>
    requires |l.data| == |l.keys|
  {
    var beg := LowerBound(l.keys, k);
    var end := UpperBound(l.keys, k);
    if beg < end then l.data[beg..end] else []
  }

  /** The second loop of `find`: from leaf `cur`, collect the hits of each
      leaf and follow `next`, stopping at a null pointer or at a leaf whose
      upper bound is 0. `fuel` bounds the walk by the number of leaves. */
  function Scan(ls: map<NodeId, Leaf>, cur: Option<NodeId>, k: Key, fuel: nat): seq<Val>
    requires Parallel(ls)
    decreases fuel
  {
    if fuel == 0 || cur.None? || cur.value !in ls then []
    else
      var l := ls[cur.value];
      if UpperBound(l.keys, k) == 0 then []
      else
        LeafHits(l, k) + Scan(ls, l.next, k, fuel - 1)
  }

  /** The leaf table of a tree. */
  function Leaves(t: Tree): map<NodeId, Leaf> {
    match t
    case LeafRoot(id, l) => map[id := l]
    case IndexRoot(_, ls) => ls
  }

  /** `find`: descend from the root by the lower bound, then scan the
      leaf chain. */
  function Find(t: Tree, k: Key): seq<Val>
    requires Parallel(Leaves(t))
    requires t.IndexRoot? ==> |t.index.children| == |t.index.keys| + 1
  {
    match t
    case LeafRoot(id, _) => Scan(Leaves(t), Some(id), k, |Leaves(t)|)
    case IndexRoot(ix, ls) => Scan(ls, Some(ix.children[LowerBound(ix.keys, k)]), k, |ls|)
  }

  /** A valid leaf's hits are the pointer stored for `k`, if any; its upper
      bound is 0 exactly when every key exceeds `k`. */
  lemma LeafHitsCorrect(l: Leaf, k: Key)
    requires LeafValid(l)
    ensures LeafHits(l, k) == if k in Contents(l) then [Contents(l)[k]] else []
    ensures UpperBound(l.keys, k) == 0 <==> forall x :: x in l.keys ==> k < x
  {
    BoundsBracketKey(l.keys, k);
    StrictlySortedIsSorted(l.keys);
    ContentsDomain(l, k);
    var u := UpperBound(l.keys, k);
    if k in l.keys {
      ContentsAt(l, LowerBound(l.keys, k));
    }
    if u > 0 {
      UpperAt(l.keys, k, u, 0);
      assert l.keys[0] in l.keys;
    }
  }

  /** The pointers a tree stores for `k`: one or none. */
  ghost function Lookup(c: map<Key, Val>, k: Key): seq<Val> {
    if k in c then [c[k]] else []
  }

  /** Scanning the last leaf of a chain yields its own hits. */
  lemma ScanLast(ls: map<NodeId, Leaf>, id: NodeId, k: Key, fuel: nat)
    requires Parallel(ls) && id in ls && LeafValid(ls[id]) && ls[id].next == None && fuel > 0
    ensures Scan(ls, Some(id), k, fuel) == Lookup(Contents(ls[id]), k)
  {
    LeafHitsCorrect(ls[id], k);
    ContentsDomain(ls[id], k);
  }

  /** Scanning from the left leaf of an index root, for a key at or below
      the separator, finds what the tree stores for it. */
  lemma ScanFromLeft(ix: Index, ls: map<NodeId, Leaf>, k: Key, m: nat)
    requires m >= 5 && IndexRootOk(ix, ls, m) && k <= ix.keys[0]
    ensures Parallel(ls)
    ensures Scan(ls, Some(ix.children[0]), k, 2) == Lookup(IndexContents(ix, ls, m), k)
  {
    var a := ls[ix.children[0]];
    var b := ls[ix.children[1]];
    LeafHitsCorrect(a, k);
    ContentsDomain(a, k);
    ContentsDomain(b, k);
    if UpperBound(a.keys, k) == 0 {
      assert a.keys[0] in a.keys;
      assert k !in Contents(b);
    } else {
      ScanLast(ls, ix.children[1], k, 1);
      if k in Contents(a) {
        assert k !in Contents(b);
      }
    }
  }

  /** Scanning from the right leaf, for a key above the separator, finds
      what the tree stores for it. */
  lemma ScanFromRight(ix: Index, ls: map<NodeId, Leaf>, k: Key, m: nat)
    requires m >= 5 && IndexRootOk(ix, ls, m) && ix.keys[0] < k
    ensures Parallel(ls)
    ensures Scan(ls, Some(ix.children[1]), k, 2) == Lookup(IndexContents(ix, ls, m), k)
  {
    var a := ls[ix.children[0]];
    ContentsDomain(a, k);
    assert k !in Contents(a);
    ScanLast(ls, ix.children[1], k, 2);
  }

  lemma TwoLeaves(ix: Index, ls: map<NodeId, Leaf>, m: nat)
    requires m >= 5 && IndexRootOk(ix, ls, m)
    ensures |ls| == 2
  {
    assert |ls.Keys| == |{ix.children[0], ix.children[1]}| == 2;
  }

  /** On a well-formed tree `find` returns the pointer stored for `k` when
      there is one and nothing otherwise: at most one, as keys are unique. */
  lemma FindCorrect(t: Tree, k: Key, m: nat)
    requires m >= 5 && WellFormed(t, m)
    ensures Parallel(Leaves(t)) && (t.IndexRoot? ==> |t.index.children| == |t.index.keys| + 1)
    ensures Find(t, k) == Lookup(TreeContents(t, m), k)
  {
    match t
    case LeafRoot(id, l) =>
      ScanLast(map[id := l], id, k, 1);
    case IndexRoot(ix, ls) =>
      TwoLeaves(ix, ls, m);
      OneKeyBounds(ix.keys[0], k);
      if k <= ix.keys[0] {
        ScanFromLeft(ix, ls, k, m);
      } else {
        ScanFromRight(ix, ls, k, m);
      }
  }

  /** After an insert, `find` returns the new pointer, or the old one when
      the key was already there. */
  lemma InsertThenFind(t: Tree, k: Key, v: Val, m: nat, newId: NodeId)
    requires m >= 5 && WellFormed(t, m)
    requires t.LeafRoot? ==> newId != t.id
    requires Insert(t, k, v, m, newId).Done?
    ensures var t' := Insert(t, k, v, m, newId).tree;
      WellFormed(t', m) && Find(t', k) == if k in TreeContents(t, m) then [TreeContents(t, m)[k]] else [v]
  {
    InsertCorrect(t, k, v, m, newId);
    FindCorrect(Insert(t, k, v, m, newId).tree, k, m);
  }
}
