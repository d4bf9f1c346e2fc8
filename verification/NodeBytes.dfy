/** The allocator's nodes as bytes of the arena.

Tree and list nodes live in the free blocks themselves, in the same memory that holds
headers, footers and user data.  `Image` is a node's bytes; `StoredIn` says that the bytes of
the arena hold every node of an allocator. */
module NodeBytes {
  import opened BlockTree
  import opened TreeMemory
  import opened HeapModel
  import opened HeapInvariant
  import opened HeapTheorems
  import opened Coupling
  import opened ArenaBytes
  import opened BlockHeader

  // ------------------------------------------------------------ one node

  /** Pointers and sizes are 64-bit words; the sentinel is outside the arena. */
  function Word(p: int): (s: seq<nat>)
    ensures |s| == 8
  {
    Encode(p % LIMIT, 8)
  }

  function Image(c: Cell): (s: seq<nat>)
    ensures |s| == Width(c)
  {
    match c
    case FreeBlock(size, parent, left, right, subtreeMax, color) =>
      Word(size) + Word(parent) + Word(left) + Word(right) + Word(subtreeMax) + ([if color == Red then 0 else 1] + Zeros(7))
    case FreeNode(next) => Word(next)
  }

  function ReadWord(b: Bytes, x: int): nat { Decode(Load(b, x, 8)) }

  function ReadPointer(b: Bytes, x: int): int { if ReadWord(b, x) == LIMIT - 1 then NIL else ReadWord(b, x) }

  function ReadTreeNode(b: Bytes, q: int): Cell {
    FreeBlock(ReadWord(b, q), ReadPointer(b, q + 8), ReadPointer(b, q + 16), ReadPointer(b, q + 24), ReadWord(b, q + 32),
              if Get(b, q + 40) == 0 then Red else Black)
  }

  function ReadListNode(b: Bytes, q: int): Cell { FreeNode(ReadPointer(b, q)) }

  predicate PointerOk(p: int) { NIL <= p < LIMIT - 1 }

  /** The fields fit their words. */
  predicate InRange(c: Cell) {
    if c.FreeBlock? then
      c.size < LIMIT && PointerOk(c.parent) && PointerOk(c.left) && PointerOk(c.right) && c.subtreeMax < LIMIT
    else PointerOk(c.next)
  }

  lemma WordReadBack(b: Bytes, x: int, p: int)
    requires NIL <= p < LIMIT && Load(b, x, 8) == Word(p)
    ensures 0 <= p ==> ReadWord(b, x) == p
    ensures PointerOk(p) ==> ReadPointer(b, x) == p
  {
    FieldFits();
    EncodeDecode(p % LIMIT, 8);
  }

  lemma LoadPart(b: Bytes, q: int, n: nat, i: nat, k: nat)
    requires i + k <= n
    ensures Load(b, q + i, k) == Load(b, q, n)[i..i + k]
  {}

  /** A node is recovered from its bytes. */
  lemma NodeReadBack(b: Bytes, q: int, c: Cell)
    requires InRange(c) && Load(b, q, Width(c)) == Image(c)
    ensures (if c.FreeBlock? then ReadTreeNode(b, q) else ReadListNode(b, q)) == c
  {
    match c {
      case FreeBlock(size, parent, left, right, subtreeMax, color) =>
        FieldReadBack(b, q, c, 0, size);
        FieldReadBack(b, q, c, 1, parent);
        FieldReadBack(b, q, c, 2, left);
        FieldReadBack(b, q, c, 3, right);
        FieldReadBack(b, q, c, 4, subtreeMax);
        assert Load(b, q, 48)[40] == Get(b, q + 40);
      case FreeNode(next) => WordReadBack(b, q, next);
    }
  }

  /** The `i`-th word of a tree node. */
  function Field(c: Cell, i: nat): int
    requires c.FreeBlock?
  {
    if i == 0 then c.size else if i == 1 then c.parent else if i == 2 then c.left else if i == 3 then c.right else c.subtreeMax
  }

  lemma FieldReadBack(b: Bytes, q: int, c: Cell, i: nat, v: int)
    requires c.FreeBlock? && i < 5 && v == Field(c, i) && NIL <= v < LIMIT && Load(b, q, 48) == Image(c)
    ensures 0 <= v ==> ReadWord(b, q + 8 * i) == v
    ensures PointerOk(v) ==> ReadPointer(b, q + 8 * i) == v
  {
    LoadPart(b, q, 48, 8 * i, 8);
    assert Image(c)[8 * i..8 * i + 8] == Word(v);
    WordReadBack(b, q + 8 * i, v);
  }

  // ------------------------------------------------------------ all nodes

  ghost predicate StoredIn(b: Bytes, m: Memory) {
    forall q {:trigger Recorded(m, q)} :: Recorded(m, q) && q != NIL ==> Load(b, q, Width(m[q])) == Image(m[q])
  }

  lemma {:induction false} TreeInRange(m: Memory, par: int, t: Tree)
    requires Rep(m, par, t) && PointerOk(par) && MaxSize(t) < LIMIT && forall k :: k in Keys(t) ==> PointerOk(k)
    ensures forall k :: k in Keys(t) ==> k in m && InRange(m[k])
    decreases t
  {
    if t.Leaf? {
    } else {
      TreeInRange(m, t.addr, t.left);
      TreeInRange(m, t.addr, t.right);
      assert t.left.Leaf? || t.left.addr in Keys(t.left);
      assert t.right.Leaf? || t.right.addr in Keys(t.right);
    }
  }

  lemma {:induction false} ListInRange(m: Memory, p: int, l: seq<int>)
    requires ListRep(m, p, l) && forall a :: a in l ==> PointerOk(a)
    ensures forall a :: a in l ==> a in m && InRange(m[a])
    decreases l
  {
    if l == [] {
    } else {
      ListInRange(m, m[p].next, l[1..]);
      assert |l| > 1 ==> m[p].next == l[1];
    }
  }

  /** Every node's fields fit their words. */
  lemma NodesInRange(m: Memory, root: int, tree: Tree, heads: seq<int>, h: Heap, q: int)
    requires Inv(h) && Exact(m, root, Top, tree) && Inorder(tree) == TreeBlocks(h.segs)
    requires Chains(m, heads, h.lists) && q in m && (q in Addrs(TreeBlocks(h.segs)) || !Unlisted(h.lists, q))
    ensures InRange(m[q])
  {
    if q in Addrs(TreeBlocks(h.segs)) {
      TreePointers(h, tree);
      KeysAreAddrs(tree);
      TreeInRange(m, NIL, tree);
    } else {
      var k :| 0 <= k < |h.lists| && q in h.lists[k];
      forall a | a in h.lists[k] ensures PointerOk(a) {
        assert Seg(a, SizeOf(k), InList) in h.segs;
        LiveInside(h, Seg(a, SizeOf(k), InList));
      }
      assert ListRep(m, heads[k], h.lists[k]);
      ListInRange(m, heads[k], h.lists[k]);
    }
  }

  lemma TreePointers(h: Heap, tree: Tree)
    requires Inv(h) && Inorder(tree) == TreeBlocks(h.segs)
    ensures MaxSize(tree) < LIMIT && forall k :: k in Addrs(TreeBlocks(h.segs)) ==> PointerOk(k)
  {
    var t := TreeBlocks(h.segs);
    forall i | 0 <= i < |t| ensures PointerOk(t[i].addr) && t[i].size < LIMIT { TreeBlockBounds(h, t[i]); }
    MaxSizeIsMaximum(tree);
  }

  /** Byte `x` belongs to the node at the start of a free block. */
  ghost predicate InNode(h: Heap, x: int) {
    exists b :: b in h.segs && b.kind != Live && b.addr <= x < b.addr + NodeSize(b.kind)
  }

  function NodeSize(kind: Kind): nat { if kind == InTree then MIN_BLOCK else 8 }

  /** Byte `x` belongs to one of the records. */
  predicate InRecord(m: Memory, x: int) { exists q :: q in m && q <= x < q + Width(m[q]) }

  /** Changes outside the nodes of the heap keep every node. */
  lemma StoredFrame(b: Bytes, b': Bytes, m: Memory, h: Heap)
    requires Housed(m, h) && StoredIn(b, m)
    requires forall x :: Get(b', x) != Get(b, x) ==> !InNode(h, x)
    ensures StoredIn(b', m)
  {
    forall q | Recorded(m, q) && q != NIL ensures Load(b', q, Width(m[q])) == Image(m[q]) {
      var n :| n in h.segs && n.addr == q && (if m[q].FreeBlock? then n.kind == InTree else n.kind == InList);
      forall x | q <= x < q + Width(m[q]) ensures Get(b', x) == Get(b, x) {
        assert InNode(h, x);
      }
      LoadSame(b, b', q, Width(m[q]));
    }
  }

  /** The node's bytes lie inside its free block, so no live block contains any of them. */
  lemma NodeOutsideLive(h: Heap, x: int, b: Seg)
    requires Inv(h) && InNode(h, x) && b in h.segs && b.kind == Live
    ensures !Holds(b, x) && h.base <= x < h.base + h.cap
  {
    var n :| n in h.segs && n.kind != Live && n.addr <= x < n.addr + NodeSize(n.kind);
    LiveInside(h, n);
    LivesApart(h, b, n);
  }

  lemma NodeInside(h: Heap, x: int)
    requires Inv(h) && InNode(h, x)
    ensures h.base <= x < h.base + h.cap
  {
    var n :| n in h.segs && n.kind != Live && n.addr <= x < n.addr + NodeSize(n.kind);
    LiveInside(h, n);
  }

  lemma RecordInNode(m: Memory, h: Heap, q: int, x: int)
    requires Housed(m, h) && q in m && q != NIL && q <= x < q + Width(m[q])
    ensures InNode(h, x)
  {
    assert Recorded(m, q);
    var n :| n in h.segs && n.addr == q && (if m[q].FreeBlock? then n.kind == InTree else n.kind == InList);
  }

  /** Nodes do not overlap. */
  ghost predicate Spaced(m: Memory) {
    forall p, q {:trigger Recorded(m, p), Recorded(m, q)} ::
      Recorded(m, p) && Recorded(m, q) && p != NIL && q != NIL && p < q ==> p + Width(m[p]) <= q
  }

  lemma HousedSpaced(m: Memory, h: Heap)
    requires Inv(h) && Housed(m, h)
    ensures Spaced(m)
  {
    forall p, q | Recorded(m, p) && Recorded(m, q) && p != NIL && q != NIL && p < q ensures p + Width(m[p]) <= q {
      var c :| c in h.segs && c.addr == p && (if m[p].FreeBlock? then c.kind == InTree else c.kind == InList);
      var d :| d in h.segs && d.addr == q && (if m[q].FreeBlock? then d.kind == InTree else d.kind == InList);
      LivesApart(h, c, d);
      LiveInside(h, c);
      LiveInside(h, d);
    }
  }

  // ------------------------------------------------------------ writing nodes through

  /** Records that were written during a call and are nodes no longer leave arbitrary bytes. */
  function Spoiled(b: Bytes, junk: Bytes, gone: Memory): Bytes {
    map x | x in b.Keys + junk.Keys :: if InRecord(gone, x) then Get(junk, x) else Get(b, x)
  }

  /** The records `gone` do not overlap the nodes common to `m` and `m'`. */
  ghost predicate Clear(gone: Memory, m: Memory, m': Memory) {
    forall g, q {:trigger Recorded(gone, g), Recorded(m', q)} ::
      Recorded(gone, g) && Recorded(m', q) && q in m && q != NIL ==> g + Width(gone[g]) <= q || q + Width(m[q]) <= g
  }

  lemma SpoiledKeeps(b: Bytes, junk: Bytes, gone: Memory, m: Memory, m': Memory, q: int)
    requires StoredIn(b, m) && Clear(gone, m, m') && q in m && q in m' && q != NIL
    ensures Load(Spoiled(b, junk, gone), q, Width(m[q])) == Image(m[q])
  {
    assert Recorded(m, q) && Recorded(m', q);
    forall x | q <= x < q + Width(m[q]) ensures Get(Spoiled(b, junk, gone), x) == Get(b, x) {
      if InRecord(gone, x) {
        var g :| g in gone && g <= x < g + Width(gone[g]);
        assert Recorded(gone, g);
      }
    }
    LoadSame(b, Spoiled(b, junk, gone), q, Width(m[q]));
  }

  /** Carries the records changed between `m` and `m'` into the bytes. */
  method WriteThrough(b: Bytes, junk: Bytes, m: Memory, m': Memory, gone: Memory) returns (b': Bytes)
    requires StoredIn(b, m) && Spaced(m') && Clear(gone, m, m')
    ensures StoredIn(b', m')
    ensures forall x :: Get(b', x) != Get(b, x) ==> InRecord(gone, x) || InRecord(m' - {NIL}, x)
  {
    var rest := set q | q in m' && q != NIL && (q !in m || m[q] != m'[q]);
    b' := Spoiled(b, junk, gone);
    forall q | q in m' && q != NIL && q !in rest ensures Load(b', q, Width(m'[q])) == Image(m'[q]) {
      SpoiledKeeps(b, junk, gone, m, m', q);
    }
    while rest != {}
      invariant forall q :: q in rest ==> q in m' && q != NIL
      invariant forall q {:trigger Recorded(m', q)} ::
        Recorded(m', q) && q != NIL && q !in rest ==> Load(b', q, Width(m'[q])) == Image(m'[q])
      invariant forall x :: Get(b', x) != Get(b, x) ==> InRecord(gone, x) || InRecord(m' - {NIL}, x)
      decreases rest
    {
      var q :| q in rest;
      b' := StoreNode(b', m', rest, q, b, gone);
      rest := rest - {q};
    }
  }

  /** One node written; the others and the frame are kept. */
  method StoreNode(b0: Bytes, m': Memory, ghost rest: set<int>, q: int, ghost b: Bytes, ghost gone: Memory) returns (b': Bytes)
    requires Spaced(m') && q in m' && q != NIL
    requires forall p {:trigger Recorded(m', p)} ::
      Recorded(m', p) && p != NIL && p !in rest ==> Load(b0, p, Width(m'[p])) == Image(m'[p])
    requires forall x :: Get(b0, x) != Get(b, x) ==> InRecord(gone, x) || InRecord(m' - {NIL}, x)
    ensures forall p {:trigger Recorded(m', p)} ::
      Recorded(m', p) && p != NIL && p !in rest - {q} ==> Load(b', p, Width(m'[p])) == Image(m'[p])
    ensures forall x :: Get(b', x) != Get(b, x) ==> InRecord(gone, x) || InRecord(m' - {NIL}, x)
  {
    b' := Store(b0, q, Image(m'[q]));
    LoadStore(b0, q, Image(m'[q]));
    forall p | Recorded(m', p) && p != NIL && p !in rest - {q} ensures Load(b', p, Width(m'[p])) == Image(m'[p]) {
      if p != q {
        assert Recorded(m', q);
        LoadApart(b0, q, Image(m'[q]), p, Width(m'[p]));
      }
    }
    forall x | Get(b', x) != Get(b, x) ensures InRecord(gone, x) || InRecord(m' - {NIL}, x) {
      if !(q <= x < q + Width(m'[q])) { StoreFrame(b0, q, Image(m'[q]), x); } else { assert q in m' - {NIL}; }
    }
  }
}
