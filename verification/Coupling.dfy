/** How the tree content and the small lists mirror the heap's block sequence. */
module Coupling {
  import opened BlockTree
  import opened TreeMemory
  import opened BlockSeq
  import opened HeapModel
  import opened HeapInvariant
  import opened HeapTheorems
  import opened Navigation

  // ------------------------------------------------------------ small lists in memory

  /** The chain of `FreeNode` records starting at `p` visits exactly the addresses `l`. */
  predicate ListRep(m: Memory, p: int, l: seq<int>)
    decreases l
  {
    if l == [] then p == NULL
    else p == l[0] && p != NULL && p in m && m[p].FreeNode? && ListRep(m, m[p].next, l[1..])
  }

  lemma {:induction false} ListFrame(m: Memory, m': Memory, p: int, l: seq<int>)
    requires ListRep(m, p, l) && forall a :: a in l ==> a in m' && (a in m ==> m'[a] == m[a])
    ensures ListRep(m', p, l)
    decreases l
  {
    if l == [] {
    } else {
      assert l[0] in l;
      forall a | a in l[1..] ensures a in l {}
      ListFrame(m, m', m[p].next, l[1..]);
    }
  }

  lemma {:induction false} ListAddrs(m: Memory, p: int, l: seq<int>)
    requires ListRep(m, p, l)
    ensures forall a :: a in l ==> a in m && m[a].FreeNode? && a != NULL
    decreases l
  {
    if l == [] {
    } else {
      ListAddrs(m, m[p].next, l[1..]);
      forall a | a in l ensures a in m && m[a].FreeNode? && a != NULL {
        assert a == l[0] || a in l[1..];
      }
    }
  }

  // ------------------------------------------------------------ tree content

  lemma {:induction false} TreeBlockIn(s: seq<Seg>, b: Block)
    ensures b in TreeBlocks(s) <==> Seg(b.addr, b.size, InTree) in s
  {
    if s == [] {
    } else {
      TreeBlockIn(s[1..], b);
      assert Seg(b.addr, b.size, InTree) in s <==> Seg(b.addr, b.size, InTree) == s[0] || Seg(b.addr, b.size, InTree) in s[1..];
    }
  }

  /** A block that is not in the tree does not start at a tree block's address. */
  lemma OffTree(h: Heap, b: Seg)
    requires Inv(h) && b in h.segs && b.kind != InTree
    ensures b.addr !in Addrs(TreeBlocks(h.segs))
  {
    var t := TreeBlocks(h.segs);
    forall i | 0 <= i < |t| ensures t[i].addr != b.addr {
      TreeBlockIn(h.segs, t[i]);
      var c := Seg(t[i].addr, t[i].size, InTree);
      LivesApart(h, b, c);
      LiveInside(h, b);
      LiveInside(h, c);
    }
  }

  lemma TreeBlockBounds(h: Heap, b: Block)
    requires Inv(h) && b in TreeBlocks(h.segs)
    ensures 0 < b.addr < LIMIT && b.addr % 16 == 0 && MIN_BLOCK <= b.size <= MAX_BLOCK && b.size % 16 == 0
    ensures h.base <= b.addr && b.addr + b.size <= h.base + h.cap
  {
    TreeBlockIn(h.segs, b);
    LiveInside(h, Seg(b.addr, b.size, InTree));
  }

  /** The heap index of the `k`-th tree block. */
  lemma {:induction false} TreeIndex(s: seq<Seg>, k: nat) returns (i: nat)
    requires k < |TreeBlocks(s)|
    ensures i < |s| && s[i].kind == InTree && TreeBlocks(s)[k] == Block(s[i].addr, s[i].size)
    ensures TreeBlocks(s[..i]) == TreeBlocks(s)[..k] && TreeBlocks(s[i + 1..]) == TreeBlocks(s)[k + 1..]
    decreases s
  {
    if s[0].kind == InTree && k == 0 {
      i := 0;
      assert TreeBlocks(s) == [Block(s[0].addr, s[0].size)] + TreeBlocks(s[1..]);
    } else {
      var d := if s[0].kind == InTree then 1 else 0;
      var j := TreeIndex(s[1..], k - d);
      i := j + 1;
      var t := TreeBlocks(s[1..]);
      assert s[..i][1..] == s[1..][..j] && s[i + 1..] == s[1..][j + 1..] && s[..i][0] == s[0];
      if d == 1 {
        assert TreeBlocks(s) == [Block(s[0].addr, s[0].size)] + t;
        assert TreeBlocks(s)[..k] == [Block(s[0].addr, s[0].size)] + t[..k - 1];
      } else {
        assert TreeBlocks(s) == t;
      }
    }
  }

  predicate FitsBlock(b: Block, n: nat, align: nat)
    requires align > 0
  {
    b.addr >= 0 && AlignUp(b.addr, align) + n <= b.addr + b.size
  }

  /** The first tree block that fits gives the first fitting block of the heap. */
  lemma FirstFittingAt(s: seq<Seg>, n: nat, align: nat, k: nat) returns (i: nat)
    requires align > 0 && k < |TreeBlocks(s)| && FitsBlock(TreeBlocks(s)[k], n, align)
    requires forall j :: 0 <= j < k ==> !FitsBlock(TreeBlocks(s)[j], n, align)
    ensures i < |s| && s[i].kind == InTree && TreeBlocks(s)[k] == Block(s[i].addr, s[i].size)
    ensures TreeBlocks(s[..i]) == TreeBlocks(s)[..k] && TreeBlocks(s[i + 1..]) == TreeBlocks(s)[k + 1..]
    ensures FirstFitting(s, n, align) == i
  {
    i := TreeIndex(s, k);
    forall j | 0 <= j < i ensures !Fits(s[j], n, align) {
      if s[j].kind == InTree {
        var b := Block(s[j].addr, s[j].size);
        assert s[..i][j] == s[j];
        TreeBlockIn(s[..i], b);
        var x :| 0 <= x < |TreeBlocks(s[..i])| && TreeBlocks(s[..i])[x] == b;
        assert TreeBlocks(s)[..k][x] == TreeBlocks(s)[x] == b;
      }
    }
    var f := FirstFitting(s, n, align);
    assert Fits(s[i], n, align);
    assert f <= i;
  }

  lemma NoneFitting(s: seq<Seg>, n: nat, align: nat)
    requires align > 0 && forall j :: 0 <= j < |TreeBlocks(s)| ==> !FitsBlock(TreeBlocks(s)[j], n, align)
    ensures FirstFitting(s, n, align) == |s|
  {
    var i := FirstFitting(s, n, align);
    if i < |s| {
      var b := Block(s[i].addr, s[i].size);
      TreeBlockIn(s, b);
      assert false;
    }
  }

  /** The next tree block is adjacent exactly when it is the next block. */
  lemma NextAdjacent(h: Heap, i: nat)
    requires Inv(h) && i < |h.segs|
    ensures var t, e := TreeBlocks(h.segs[i + 1..]), h.segs[i].addr + h.segs[i].size;
            (t != [] && t[0].addr == e) <==> (i + 1 < |h.segs| && h.segs[i + 1].kind == InTree)
    ensures i + 1 < |h.segs| && h.segs[i + 1].kind == InTree ==>
            TreeBlocks(h.segs[i + 1..]) == [Block(h.segs[i + 1].addr, h.segs[i + 1].size)] + TreeBlocks(h.segs[i + 2..])
  {
    var s, t, e := h.segs, TreeBlocks(h.segs[i + 1..]), h.segs[i].addr + h.segs[i].size;
    if i + 1 < |s| {
      assert s[i + 1..][0] == s[i + 1] && s[i + 1..][1..] == s[i + 2..];
      TilesNext(s, i, h.base);
    }
    if t != [] && t[0].addr == e {
      var j := TreeIndex(s[i + 1..], 0);
      assert s[i + 1..][j] == s[i + 1 + j];
      if j > 0 {
        TilesOrder(s, i + 1, i + 1 + j, h.base);
      }
    }
  }

  lemma PrevAdjacent(h: Heap, i: nat)
    requires Inv(h) && i < |h.segs|
    ensures var t := TreeBlocks(h.segs[..i]);
            (t != [] && t[|t| - 1].addr + t[|t| - 1].size == h.segs[i].addr) <==> (i > 0 && h.segs[i - 1].kind == InTree)
    ensures i > 0 && h.segs[i - 1].kind == InTree ==>
            TreeBlocks(h.segs[..i]) == TreeBlocks(h.segs[..i - 1]) + [Block(h.segs[i - 1].addr, h.segs[i - 1].size)]
  {
    var s, t := h.segs, TreeBlocks(h.segs[..i]);
    if i > 0 {
      assert s[..i] == s[..i - 1] + [s[i - 1]];
      Distribute(s[..i - 1], [s[i - 1]], h.base);
      Single(s[i - 1]);
      TilesNext(s, i - 1, h.base);
    }
    if t != [] && t[|t| - 1].addr + t[|t| - 1].size == s[i].addr {
      var j := TreeIndex(s[..i], |t| - 1);
      assert s[..i][j] == s[j];
      if j < i - 1 {
        TilesOrder(s, j, i - 1, h.base);
      }
    }
  }

  // ------------------------------------------------------------ lists and tree together

  /** The eight chains hold the lists. */
  ghost predicate Chains(m: Memory, heads: seq<int>, lists: seq<seq<int>>) {
    |heads| == CLASSES && |lists| == CLASSES &&
    forall k :: 0 <= k < CLASSES ==> ListRep(m, heads[k], lists[k])
  }

  /** No list node is a tree node. */
  ghost predicate Separate(lists: seq<seq<int>>, content: seq<Block>) {
    forall k :: 0 <= k < |lists| ==> OffTreeNodes(lists[k], content)
  }

  ghost predicate OffTreeNodes(list: seq<int>, content: seq<Block>) {
    forall a :: a in list ==> a !in Addrs(content) && a != NIL
  }

  lemma SeparateShrink(lists: seq<seq<int>>, content: seq<Block>, lists': seq<seq<int>>, content': seq<Block>)
    requires Separate(lists, content) && Addrs(content') <= Addrs(content) && |lists'| == |lists|
    requires forall k, a :: 0 <= k < |lists'| && a in lists'[k] ==> a in lists[k]
    ensures Separate(lists', content')
  {
    forall k | 0 <= k < |lists'| ensures OffTreeNodes(lists'[k], content') {
      assert OffTreeNodes(lists[k], content);
      assert forall a :: a in lists'[k] ==> a in lists[k];
    }
  }

  lemma SeparatePush(lists: seq<seq<int>>, content: seq<Block>, k: nat, a: int)
    requires Separate(lists, content) && k < |lists| && a !in Addrs(content) && a != NIL
    ensures Separate(Push(lists, k, a), content)
  {
    assert OffTreeNodes([a] + lists[k], content);
  }

  lemma SeparateInsert(lists: seq<seq<int>>, content: seq<Block>, b: Block)
    requires Separate(lists, content) && Unlisted(lists, b.addr)
    ensures Separate(lists, InsertBlock(content, b))
  {
    InsertAddrs(content, b);
    forall k | 0 <= k < |lists| ensures OffTreeNodes(lists[k], InsertBlock(content, b)) {
      assert OffTreeNodes(lists[k], content) && b.addr !in lists[k];
    }
  }

  predicate Recorded(m: Memory, q: int) { q in m }

  /** Memory holds no record besides the sentinel and the nodes of tree and lists. */
  ghost predicate OnlyNodes(m: Memory, lists: seq<seq<int>>, content: seq<Block>) {
    forall q {:trigger Recorded(m, q)} :: Recorded(m, q) ==> q == NIL || q in Addrs(content) || !Unlisted(lists, q)
  }

  /** Only records at the addresses `s` are written, added or dropped. */
  ghost predicate Touched(m: Memory, m': Memory, s: set<int>) {
    forall q {:trigger Recorded(m', q)} :: q !in s ==>
      (Recorded(m', q) <==> q in m) && (q in m && q in m' ==> m'[q] == m[q])
  }

  ghost predicate Unlisted(lists: seq<seq<int>>, a: int) {
    forall k :: 0 <= k < |lists| ==> a !in lists[k]
  }

  lemma ChainsFrame(m: Memory, m': Memory, heads: seq<int>, lists: seq<seq<int>>)
    requires Chains(m, heads, lists)
    requires forall k, a :: 0 <= k < |lists| && a in lists[k] ==> a in m' && (a in m ==> m'[a] == m[a])
    ensures Chains(m', heads, lists)
  {
    forall k | 0 <= k < CLASSES ensures ListRep(m', heads[k], lists[k]) {
      ListFrame(m, m', heads[k], lists[k]);
    }
  }

  lemma ChainsKept(m: Memory, m': Memory, heads: seq<int>, lists: seq<seq<int>>, content: seq<Block>)
    requires Chains(m, heads, lists) && Separate(lists, content) && Kept(m, m', content)
    ensures Chains(m', heads, lists)
  {
    forall k, a | 0 <= k < |lists| && a in lists[k] ensures a in m' && (a in m ==> m'[a] == m[a]) {
      ListAddrs(m, heads[k], lists[k]);
    }
    ChainsFrame(m, m', heads, lists);
  }

  lemma ChainsPush(m: Memory, heads: seq<int>, lists: seq<seq<int>>, k: nat, a: int)
    requires Chains(m, heads, lists) && Unlisted(lists, a) && k < CLASSES && a != NULL
    ensures Chains(m[a := FreeNode(heads[k])], heads[k := a], Push(lists, k, a))
  {
    var m', heads', lists' := m[a := FreeNode(heads[k])], heads[k := a], Push(lists, k, a);
    forall j, x | 0 <= j < |lists| && x in lists[j] ensures x in m' && (x in m ==> m'[x] == m[x]) {
      ListAddrs(m, heads[j], lists[j]);
    }
    ChainsFrame(m, m', heads, lists);
    assert lists'[k][1..] == lists[k];
  }

  /** Records outside the tree may change freely. */
  lemma {:induction false} RepKeysFrame(m: Memory, m': Memory, par: int, t: Tree)
    requires Rep(m, par, t) && forall q :: q in Keys(t) && q in m ==> q in m' && m'[q] == m[q]
    ensures Rep(m', par, t)
    decreases t
  {
    if t.Leaf? {
    } else {
      RepKeysFrame(m, m', t.addr, t.left);
      RepKeysFrame(m, m', t.addr, t.right);
    }
  }

  lemma TreeFrame(m: Memory, root: int, t: Tree, a: int, cell: Cell)
    requires Exact(m, root, Top, t) && a != NIL && a !in Addrs(Inorder(t))
    ensures Exact(m[a := cell], root, Top, t)
  {
    KeysAreAddrs(t);
    RepKeysFrame(m, m[a := cell], NIL, t);
  }

  lemma TreeErase(m: Memory, root: int, t: Tree, a: int)
    requires Exact(m, root, Top, t) && a != NIL && a !in Addrs(Inorder(t))
    ensures Exact(m - {a}, root, Top, t)
  {
    KeysAreAddrs(t);
    RepKeysFrame(m, m - {a}, NIL, t);
  }

  lemma ChainsErase(m: Memory, heads: seq<int>, lists: seq<seq<int>>, a: int)
    requires Chains(m, heads, lists) && Unlisted(lists, a)
    ensures Chains(m - {a}, heads, lists)
  {
    forall j, x | 0 <= j < |lists| && x in lists[j] ensures x in m - {a} {
      ListAddrs(m, heads[j], lists[j]);
    }
    ChainsFrame(m, m - {a}, heads, lists);
  }

  lemma UnlistedTree(lists: seq<seq<int>>, content: seq<Block>, a: int)
    requires Separate(lists, content) && a in Addrs(content)
    ensures Unlisted(lists, a)
  {}

  /** The content changes so that every recorded address stays a node. */
  lemma NodesChange(m: Memory, m': Memory, lists: seq<seq<int>>, content: seq<Block>, content': seq<Block>)
    requires OnlyNodes(m, lists, content)
    requires forall q :: q in m' ==> (q in m && (q in Addrs(content) ==> q in Addrs(content'))) || q in Addrs(content')
    ensures OnlyNodes(m', lists, content')
  {
    forall q | Recorded(m', q) ensures q == NIL || q in Addrs(content') || !Unlisted(lists, q) {
      assert q in m ==> Recorded(m, q);
    }
  }

  lemma NodesPushed(m: Memory, m': Memory, lists: seq<seq<int>>, content: seq<Block>, k: nat, a: int)
    requires OnlyNodes(m, lists, content) && m'.Keys == m.Keys + {a} && k < |lists|
    ensures OnlyNodes(m', Push(lists, k, a), content)
  {
    var lists' := Push(lists, k, a);
    assert a in lists'[k] by { assert lists'[k][0] == a; }
    forall q | Recorded(m', q) ensures q == NIL || q in Addrs(content) || !Unlisted(lists', q) {
      if q != a {
        assert Recorded(m, q);
        if !Unlisted(lists, q) {
          var j :| 0 <= j < |lists| && q in lists[j];
          assert q in lists'[j];
        }
      }
    }
  }

  lemma NodesPopped(m: Memory, lists: seq<seq<int>>, content: seq<Block>, k: nat)
    requires OnlyNodes(m, lists, content) && k < |lists| && lists[k] != []
    ensures OnlyNodes(m - {lists[k][0]}, lists[k := lists[k][1..]], content)
  {
    var m', lists' := m - {lists[k][0]}, lists[k := lists[k][1..]];
    forall q | Recorded(m', q) ensures q == NIL || q in Addrs(content) || !Unlisted(lists', q) {
      assert Recorded(m, q);
      if !Unlisted(lists, q) {
        var j :| 0 <= j < |lists| && q in lists[j];
        var i :| 0 <= i < |lists[j]| && lists[j][i] == q;
        assert j == k ==> lists'[k][i - 1] == q;
        assert q in lists'[j];
      }
    }
  }

  // ------------------------------------------------------------ where the records are

  /** Bytes of a tree node and of a list node. */
  function Width(c: Cell): nat { if c.FreeBlock? then MIN_BLOCK else 8 }

  /** A tree block starts at a tree node and a listed block at a list node. */
  ghost predicate NodeAt(h: Heap, q: int, c: Cell) {
    exists b :: b in h.segs && b.addr == q && (if c.FreeBlock? then b.kind == InTree else b.kind == InList)
  }

  /** The records are exactly the sentinel and one node at the start of each free block. */
  ghost predicate Housed(m: Memory, h: Heap) {
    NIL in m && m[NIL] == NIL_CELL &&
    (forall q {:trigger Recorded(m, q)} :: Recorded(m, q) && q != NIL ==> NodeAt(h, q, m[q])) &&
    (forall b {:trigger Recorded(m, b.addr)} :: b in h.segs && b.kind != Live ==> Recorded(m, b.addr))
  }

  lemma HousedBy(m: Memory, root: int, tree: Tree, heads: seq<int>, h: Heap)
    requires Inv(h) && Exact(m, root, Top, tree) && Inorder(tree) == TreeBlocks(h.segs)
    requires Chains(m, heads, h.lists) && OnlyNodes(m, h.lists, TreeBlocks(h.segs))
    ensures Housed(m, h)
  {
    forall q | Recorded(m, q) && q != NIL ensures NodeAt(h, q, m[q]) {
      if q in Addrs(TreeBlocks(h.segs)) {
        TreeNodeAt(m, root, tree, h, q);
      } else {
        ListNodeAt(m, heads, h, q);
      }
    }
    forall b | b in h.segs && b.kind != Live ensures b.addr in m {
      FreeHasRecord(m, root, tree, heads, h, b);
    }
  }

  lemma TreeNodeAt(m: Memory, root: int, tree: Tree, h: Heap, q: int)
    requires Exact(m, root, Top, tree) && Inorder(tree) == TreeBlocks(h.segs) && q in Addrs(TreeBlocks(h.segs))
    ensures q in m && NodeAt(h, q, m[q]) && m[q].FreeBlock?
  {
    var t := TreeBlocks(h.segs);
    var k :| 0 <= k < |t| && t[k].addr == q;
    RecordAt(m, root, tree, k);
    TreeBlockIn(h.segs, t[k]);
  }

  lemma ListNodeAt(m: Memory, heads: seq<int>, h: Heap, q: int)
    requires Inv(h) && Chains(m, heads, h.lists) && !Unlisted(h.lists, q)
    ensures q in m && NodeAt(h, q, m[q]) && m[q].FreeNode?
  {
    var k :| 0 <= k < |h.lists| && q in h.lists[k];
    ListAddrs(m, heads[k], h.lists[k]);
    assert Seg(q, SizeOf(k), InList) in h.segs;
  }

  lemma FreeHasRecord(m: Memory, root: int, tree: Tree, heads: seq<int>, h: Heap, b: Seg)
    requires Inv(h) && Exact(m, root, Top, tree) && Inorder(tree) == TreeBlocks(h.segs) && Chains(m, heads, h.lists)
    requires b in h.segs && b.kind != Live
    ensures b.addr in m
  {
    var i :| 0 <= i < |h.segs| && h.segs[i] == b;
    if b.kind == InTree {
      TreeBlockIn(h.segs, Block(b.addr, b.size));
      var t := TreeBlocks(h.segs);
      var k :| 0 <= k < |t| && t[k] == Block(b.addr, b.size);
      assert t[k].addr in Addrs(t);
      TreeNodeAt(m, root, tree, h, b.addr);
    } else {
      BlockShape(h, i);
      ListNodeAt(m, heads, h, b.addr);
    }
  }

  /** `w` bytes at `q` lie inside a free block that starts there. */
  ghost predicate InFree(h: Heap, q: int, w: nat) {
    exists b :: b in h.segs && b.kind != Live && b.addr == q && q + w <= b.addr + b.size
  }

  /** Every record a call leaves changed or new starts a block that is free after it, every
      record it drops one that was free before; the record's bytes lie inside that block. */
  ghost predicate Confined(m: Memory, h: Heap, m': Memory, h': Heap) {
    (forall q {:trigger Recorded(m', q)} :: Recorded(m', q) && (q !in m || m[q] != m'[q]) ==> InFree(h', q, Width(m'[q]))) &&
    (forall q {:trigger Recorded(m, q)} :: Recorded(m, q) && q !in m' ==> InFree(h, q, Width(m[q])))
  }

  lemma NodeInFree(h: Heap, q: int, c: Cell)
    requires AllWellSized(h.segs) && NodeAt(h, q, c)
    ensures InFree(h, q, Width(c))
  {
    var b :| b in h.segs && b.addr == q && (if c.FreeBlock? then b.kind == InTree else b.kind == InList);
    assert WellSized(b);
  }

  lemma HousedConfined(m: Memory, h: Heap, m': Memory, h': Heap)
    requires Inv(h) && Inv(h') && Housed(m, h) && Housed(m', h')
    ensures Confined(m, h, m', h')
  {
    forall q | Recorded(m', q) && (q !in m || m[q] != m'[q]) ensures InFree(h', q, Width(m'[q])) { NodeInFree(h', q, m'[q]); }
    forall q | Recorded(m, q) && q !in m' ensures InFree(h, q, Width(m[q])) { NodeInFree(h, q, m[q]); }
  }

  /** Writing anything at addresses inside live blocks leaves tree and chains intact. */
  lemma LiveRecordsFree(m: Memory, m': Memory, root: int, tree: Tree, heads: seq<int>, h: Heap)
    requires Inv(h) && Exact(m, root, Top, tree) && Inorder(tree) == TreeBlocks(h.segs) && Chains(m, heads, h.lists)
    requires forall q :: q in m && (q !in m' || m'[q] != m[q]) ==> exists b :: b in h.segs && b.kind == Live && Holds(b, q)
    ensures Exact(m', root, Top, tree) && Chains(m', heads, h.lists)
  {
    forall q | q in m && q in Addrs(TreeBlocks(h.segs)) ensures q in m' && m'[q] == m[q] {
      TreeNodeAt(m, root, tree, h, q);
      NodeNotLive(h, q, m[q]);
    }
    assert NIL in m' && m'[NIL] == m[NIL] by { SentinelOutside(h); }
    KeysAreAddrs(tree);
    RepKeysFrame(m, m', NIL, tree);
    forall k, a | 0 <= k < |h.lists| && a in h.lists[k] ensures a in m' && (a in m ==> m'[a] == m[a]) {
      ListNodeAt(m, heads, h, a);
      NodeNotLive(h, a, m[a]);
    }
    ChainsFrame(m, m', heads, h.lists);
  }

  lemma SentinelOutside(h: Heap)
    requires Inv(h)
    ensures forall b :: b in h.segs ==> !Holds(b, NIL)
  {
    forall b | b in h.segs ensures !Holds(b, NIL) { LiveInside(h, b); }
  }

  lemma NodeNotLive(h: Heap, q: int, c: Cell)
    requires Inv(h) && NodeAt(h, q, c)
    ensures forall b :: b in h.segs && b.kind == Live ==> !Holds(b, q)
  {
    var n :| n in h.segs && n.addr == q && (if c.FreeBlock? then n.kind == InTree else n.kind == InList);
    LiveInside(h, n);
    forall b | b in h.segs && b.kind == Live ensures !Holds(b, q) { LivesApart(h, b, n); }
  }

  /** The record of the `k`-th tree block. */
  lemma RecordAt(m: Memory, root: int, tree: Tree, k: nat)
    requires Exact(m, root, Top, tree) && k < |Inorder(tree)|
    ensures var b := Inorder(tree)[k]; b.addr in m && m[b.addr].FreeBlock? && m[b.addr].size == b.size && b.addr != NIL
  {
    var c, t := Position(m, root, tree, k);
    WhichChild(m, root, c, t);
  }

  lemma {:induction false} TreeBlocksSorted(s: seq<Seg>, lo: int)
    requires Tiles(s, lo) && AllWellSized(s)
    ensures Sorted(TreeBlocks(s)) && forall i :: 0 <= i < |TreeBlocks(s)| ==> TreeBlocks(s)[i].addr >= lo
    decreases s
  {
    if s == [] {
    } else {
      assert WellSized(s[0]);
      TreeBlocksSorted(s[1..], lo + s[0].size);
    }
  }

  /** Tree and lists of a valid heap do not share an address. */
  lemma InvSeparate(h: Heap)
    requires Inv(h)
    ensures Separate(h.lists, TreeBlocks(h.segs))
  {
    forall k | 0 <= k < |h.lists| ensures OffTreeNodes(h.lists[k], TreeBlocks(h.segs)) {
      forall a | a in h.lists[k] ensures a !in Addrs(TreeBlocks(h.segs)) && a != NIL {
        var b := Seg(a, SizeOf(k), InList);
        assert b in h.segs;
        OffTree(h, b);
        LiveInside(h, b);
      }
    }
  }

  /** An address inside a block that is not listed is in no list. */
  lemma InsideUnlisted(h: Heap, i: nat, x: int)
    requires Inv(h) && i < |h.segs| && h.segs[i].kind != InList && Holds(h.segs[i], x)
    ensures Unlisted(h.lists, x)
  {
    forall k | 0 <= k < |h.lists| ensures x !in h.lists[k] {
      if x in h.lists[k] {
        var m :| 0 <= m < |h.segs| && h.segs[m] == Seg(x, SizeOf(k), InList);
        InteriorFree(h.segs, i, m, h.base);
      }
    }
  }

  // ------------------------------------------------------------ cutting and merging, step by step

  /** A gap or a remainder that goes to the tree. */
  function TreePart(a: int, size: nat, inTree: bool): seq<Block> { if inTree then [Block(a, size)] else [] }

  /** The tree content while block `i` is being cut: `A + B` once it is removed, then the
      gap `x`, then the remainder `y`. */
  lemma CutStages(h: Heap, i: nat, n: nat, p: int) returns (A: seq<Block>, x: seq<Block>, y: seq<Block>, B: seq<Block>)
    requires Inv(h) && i < |h.segs| && h.segs[i].kind == InTree && n >= QUANTUM && n % 16 == 0 && p % 16 == 0
    requires h.segs[i].addr <= p && p + n <= h.segs[i].addr + h.segs[i].size
    ensures var b := h.segs[i];
            var pre, rest := p - b.addr, b.addr + b.size - p - n;
            x == TreePart(b.addr, pre, pre > MAX_SMALL) && y == TreePart(p + n, rest, rest >= MIN_BLOCK) &&
            RemoveBlock(TreeBlocks(h.segs), b.addr) == A + B && b.addr !in Addrs(A + B) &&
            TreeBlocks(Cut(h, i, n, p).0.segs) == A + x + y + B
    ensures x != [] ==> InsertBlock(A + B, x[0]) == A + x + B
    ensures y != [] ==> InsertBlock(A + x + B, y[0]) == A + x + y + B
    ensures (x == [] ==> A + x + B == A + B) && (y == [] ==> A + x + y + B == A + x + B)
    ensures (x != [] ==> x[0].addr !in Addrs(A + B)) && (y != [] ==> y[0].addr !in Addrs(A + x + B))
  {
    var s, b := h.segs, h.segs[i];
    var pre, rest := p - b.addr, b.addr + b.size - p - n;
    A, B := TreeBlocks(s[..i]), TreeBlocks(s[i + 1..]);
    x, y := TreePart(b.addr, pre, pre > MAX_SMALL), TreePart(p + n, rest, rest >= MIN_BLOCK);
    CutParts(h, i, n, p, A, x, y, B);
    InsertStages(A, x, y, B);
  }

  lemma CutParts(h: Heap, i: nat, n: nat, p: int, A: seq<Block>, x: seq<Block>, y: seq<Block>, B: seq<Block>)
    requires Inv(h) && i < |h.segs| && h.segs[i].kind == InTree && n >= QUANTUM && n % 16 == 0 && p % 16 == 0
    requires h.segs[i].addr <= p && p + n <= h.segs[i].addr + h.segs[i].size
    requires A == TreeBlocks(h.segs[..i]) && B == TreeBlocks(h.segs[i + 1..])
    requires x == TreePart(h.segs[i].addr, p - h.segs[i].addr, p - h.segs[i].addr > MAX_SMALL)
    requires var rest := h.segs[i].addr + h.segs[i].size - p - n; y == TreePart(p + n, rest, rest >= MIN_BLOCK)
    ensures RemoveBlock(TreeBlocks(h.segs), h.segs[i].addr) == A + B && h.segs[i].addr !in Addrs(A + B)
    ensures TreeBlocks(Cut(h, i, n, p).0.segs) == A + x + y + B && Sorted(A + x + y + B)
  {
    CutBlocks(h, i, n, p);
    RemoveStage(h, i);
    CutSorted(h, i, n, p);
  }

  lemma CutSorted(h: Heap, i: nat, n: nat, p: int)
    requires Inv(h) && i < |h.segs| && h.segs[i].kind == InTree && n >= QUANTUM && n % 16 == 0 && p % 16 == 0
    requires h.segs[i].addr <= p && p + n <= h.segs[i].addr + h.segs[i].size
    ensures Sorted(TreeBlocks(Cut(h, i, n, p).0.segs))
  {
    CutInv(h, i, n, p);
    TreeBlocksSorted(Cut(h, i, n, p).0.segs, h.base);
  }

  lemma InsertStages(A: seq<Block>, x: seq<Block>, y: seq<Block>, B: seq<Block>)
    requires Sorted(A + x + y + B) && |x| <= 1 && |y| <= 1
    ensures x != [] ==> InsertBlock(A + B, x[0]) == A + x + B
    ensures y != [] ==> InsertBlock(A + x + B, y[0]) == A + x + y + B
    ensures (x == [] ==> A + x + B == A + B) && (y == [] ==> A + x + y + B == A + x + B)
    ensures (x != [] ==> x[0].addr !in Addrs(A + B)) && (y != [] ==> y[0].addr !in Addrs(A + x + B))
  {
    if y != [] {
      assert y == [y[0]];
      InsertStage(A + x, y[0], B);
    }
    SortedDrop(A + x, y, B);
    if x != [] {
      assert x == [x[0]];
      InsertStage(A, x[0], B);
    }
  }

  lemma RemoveStage(h: Heap, i: nat)
    requires Inv(h) && i < |h.segs| && h.segs[i].kind == InTree
    ensures RemoveBlock(TreeBlocks(h.segs), h.segs[i].addr) == TreeBlocks(h.segs[..i]) + TreeBlocks(h.segs[i + 1..])
    ensures h.segs[i].addr !in Addrs(TreeBlocks(h.segs[..i]) + TreeBlocks(h.segs[i + 1..]))
  {
    var s, b := h.segs, h.segs[i];
    TreeBlocksSorted(s, h.base);
    Parts(s, i, i + 1);
    One(s, i);
    Single(b);
    Three(s[..i], [b], s[i + 1..], h.base);
    RemoveSplit(TreeBlocks(s[..i]), Block(b.addr, b.size), TreeBlocks(s[i + 1..]));
    InsertStage(TreeBlocks(s[..i]), Block(b.addr, b.size), TreeBlocks(s[i + 1..]));
  }

  lemma InsertStage(a: seq<Block>, b: Block, z: seq<Block>)
    requires Sorted(a + [b] + z)
    ensures InsertBlock(a + z, b) == a + [b] + z && b.addr !in Addrs(a + z)
  {
    InsertSplit(a, b, z);
    var s := a + [b] + z;
    assert s[|a|] == b;
    forall i | 0 <= i < |a + z| ensures (a + z)[i].addr != b.addr {
      if i < |a| { assert (a + z)[i] == s[i]; } else { assert (a + z)[i] == s[i + 1]; }
    }
  }

  lemma SortedDrop(a: seq<Block>, m: seq<Block>, b: seq<Block>)
    requires Sorted(a + m + b)
    ensures Sorted(a + b)
  {
    var s, t := a + m + b, a + b;
    forall i, j | 0 <= i < j < |t| ensures t[i].addr < t[j].addr {
      var i', j' := if i < |a| then i else i + |m|, if j < |a| then j else j + |m|;
      assert s[i'] == t[i] && s[j'] == t[j];
    }
  }

  lemma CutBlocks(h: Heap, i: nat, n: nat, p: int)
    requires i < |h.segs| && h.segs[i].addr <= p && p + n <= h.segs[i].addr + h.segs[i].size
    ensures var b := h.segs[i];
            var pre, rest := p - b.addr, b.addr + b.size - p - n;
            TreeBlocks(Cut(h, i, n, p).0.segs) ==
              TreeBlocks(h.segs[..i]) + TreePart(b.addr, pre, pre > MAX_SMALL) + TreePart(p + n, rest, rest >= MIN_BLOCK) +
              TreeBlocks(h.segs[i + 1..])
  {
    var b := h.segs[i];
    var pre, rest := p - b.addr, b.addr + b.size - p - n;
    assert b.addr + pre + n == p + n;
    assert Cut(h, i, n, p).0.segs == ReplaceSegs(h.segs, i, i + 1, Pieces(b.addr, pre, n, rest));
    SpliceBlocks(h.segs, i, b.addr, pre, n, rest);
  }

  lemma SpliceBlocks(s: seq<Seg>, i: nat, a: int, pre: nat, n: nat, rest: nat)
    requires i < |s|
    ensures TreeBlocks(ReplaceSegs(s, i, i + 1, Pieces(a, pre, n, rest))) ==
            TreeBlocks(s[..i]) + TreePart(a, pre, pre > MAX_SMALL) + TreePart(a + pre + n, rest, rest >= MIN_BLOCK) +
            TreeBlocks(s[i + 1..])
  {
    PieceBlocks(a, pre, n, rest);
    Three(s[..i], Pieces(a, pre, n, rest), s[i + 1..], 0);
    Regroup(TreeBlocks(s[..i]), TreePart(a, pre, pre > MAX_SMALL), TreePart(a + pre + n, rest, rest >= MIN_BLOCK),
            TreeBlocks(s[i + 1..]));
  }

  lemma Regroup(A: seq<Block>, x: seq<Block>, y: seq<Block>, B: seq<Block>)
    ensures A + (x + y) + B == A + x + y + B
  {}

  lemma PieceBlocks(a: int, pre: nat, n: nat, rest: nat)
    ensures TreeBlocks(Pieces(a, pre, n, rest)) ==
            TreePart(a, pre, pre > MAX_SMALL) + TreePart(a + pre + n, rest, rest >= MIN_BLOCK)
  {
    var g, r := GapSegs(a, pre), RestSegs(a + pre + n, rest);
    var l := Seg(a + pre, if rest < QUANTUM then n + rest else n, Live);
    Three(g, [l], r, 0);
    Single(l);
    GapBlocks(a, pre);
    RestBlocks(a + pre + n, rest);
    assert TreeBlocks(g) + [] + TreeBlocks(r) == TreeBlocks(g) + TreeBlocks(r);
  }

  lemma GapBlocks(a: int, pre: nat)
    ensures TreeBlocks(GapSegs(a, pre)) == TreePart(a, pre, pre > MAX_SMALL)
  {
    var g := GapSegs(a, pre);
    if g != [] { Single(g[0]); }
  }

  lemma RestBlocks(a: int, rest: nat)
    ensures TreeBlocks(RestSegs(a, rest)) == TreePart(a, rest, rest >= MIN_BLOCK)
  {
    var r := RestSegs(a, rest);
    if r != [] { Single(r[0]); }
  }

  /** The tree content while the live block `i` is being freed and merged. */
  lemma MergeStages(h: Heap, i: nat)
    requires Inv(h) && i < |h.segs| && h.segs[i].kind == Live && h.segs[i].size > MAX_SMALL
    ensures var s, b := h.segs, h.segs[i];
            var A, B := TreeBlocks(s[..i]), TreeBlocks(s[i + 1..]);
            TreeBlocks(s) == A + B && Sorted(A + [Block(b.addr, b.size)] + B) &&
            InsertBlock(A + B, Block(b.addr, b.size)) == A + [Block(b.addr, b.size)] + B
    ensures var s, b := h.segs, h.segs[i];
            var lo := if i > 0 && s[i - 1].kind == InTree then i - 1 else i;
            var hi := if i + 1 < |s| && s[i + 1].kind == InTree then i + 2 else i + 1;
            TreeBlocks(Merge(h, i).segs) ==
              TreeBlocks(s[..lo]) + [Block(s[lo].addr, Total(s[lo..hi]))] + TreeBlocks(s[hi..])
  {
    var s, b := h.segs, h.segs[i];
    var A, B, f := TreeBlocks(s[..i]), TreeBlocks(s[i + 1..]), Block(b.addr, b.size);
    Parts(s, i, i + 1);
    One(s, i);
    Single(b);
    Three(s[..i], [b], s[i + 1..], h.base);
    assert A + [] + B == A + B;
    FreedSorted(h, i);
    InsertSplit(A, f, B);
    var lo := if i > 0 && s[i - 1].kind == InTree then i - 1 else i;
    var hi := if i + 1 < |s| && s[i + 1].kind == InTree then i + 2 else i + 1;
    var merged := Seg(s[lo].addr, Total(s[lo..hi]), InTree);
    Three(s[..lo], [merged], s[hi..], 0);
    Single(merged);
  }

  /** Marking the live block as a tree block keeps the content sorted. */
  lemma FreedSorted(h: Heap, i: nat)
    requires Inv(h) && i < |h.segs| && h.segs[i].size >= MIN_BLOCK
    ensures Sorted(TreeBlocks(h.segs[..i]) + [Block(h.segs[i].addr, h.segs[i].size)] + TreeBlocks(h.segs[i + 1..]))
  {
    var s, b := h.segs, h.segs[i].(kind := InTree);
    var s' := s[..i] + [b] + s[i + 1..];
    assert WellSized(s[i]);
    Recoloured(s, i, b, h.base);
    Single(b);
    Three(s[..i], [b], s[i + 1..], h.base);
    TreeBlocksSorted(s', h.base);
  }

  /** Changing the kind of one block keeps the tiling. */
  lemma Recoloured(s: seq<Seg>, i: nat, b: Seg, lo: int)
    requires i < |s| && Tiles(s, lo) && AllWellSized(s) && WellSized(b) && b.addr == s[i].addr && b.size == s[i].size
    ensures Tiles(s[..i] + [b] + s[i + 1..], lo) && AllWellSized(s[..i] + [b] + s[i + 1..])
  {
    Parts(s, i, i + 1);
    One(s, i);
    Single(b);
    Three(s[..i], [s[i]], s[i + 1..], lo);
    Three(s[..i], [b], s[i + 1..], lo);
    TotalSuffix(s, i, lo);
  }

  lemma ListedElsewhere(m: Memory, heads: seq<int>, lists: seq<seq<int>>, a: int, cell: Cell)
    requires Chains(m, heads, lists) && Unlisted(lists, a)
    ensures Chains(m[a := cell], heads, lists)
  {
    var m' := m[a := cell];
    forall j, x | 0 <= j < |lists| && x in lists[j] ensures x in m' && (x in m ==> m'[x] == m[x]) {
      ListAddrs(m, heads[j], lists[j]);
    }
    ChainsFrame(m, m', heads, lists);
  }

  lemma {:induction false} InsertAddrs(s: seq<Block>, b: Block)
    ensures Addrs(InsertBlock(s, b)) == Addrs(s) + {b.addr}
  {
    assert Addrs([b]) == {b.addr} by { assert [b][0].addr in Addrs([b]); }
    if s == [] || b.addr < s[0].addr {
      AddrsConcat([b], s);
    } else {
      assert s == [s[0]] + s[1..];
      AddrsConcat([s[0]], s[1..]);
      AddrsConcat([s[0]], InsertBlock(s[1..], b));
      InsertAddrs(s[1..], b);
    }
  }

  /** Once taken, the head of a list is in no list. */
  lemma HeadUnlisted(h: Heap, n: nat)
    requires Inv(h) && QUANTUM <= n <= MAX_SMALL && n % 16 == 0 && h.lists[ClassOf(n)] != []
    ensures Unlisted(TakeSmall(h, n).0.lists, h.lists[ClassOf(n)][0])
  {
    var h' := TakeSmall(h, n).0;
    var i := HeadListed(h, n);
    TakeSmallInv(h, n);
    assert h'.segs[i] == Seg(h.segs[i].addr, n, Live);
    InsideUnlisted(h', i, h.segs[i].addr);
  }

  /** Serving from a list does not touch the tree. */
  lemma TakeSmallBlocks(h: Heap, n: nat)
    requires Inv(h) && QUANTUM <= n <= MAX_SMALL && n % 16 == 0 && h.lists[ClassOf(n)] != []
    ensures TreeBlocks(TakeSmall(h, n).0.segs) == TreeBlocks(h.segs)
  {
    var i := HeadListed(h, n);
    var s, b := h.segs, h.segs[i].(kind := Live);
    Parts(s, i, i + 1);
    One(s, i);
    Single(s[i]);
    Single(b);
    Three(s[..i], [s[i]], s[i + 1..], 0);
    Three(s[..i], [b], s[i + 1..], 0);
  }

  /** Blocks the size-pruned search skips cannot hold the request. */
  lemma TooSmall(h: Heap, n: nat, align: nat, minSize: nat, k: nat)
    requires Inv(h) && align > 0 && minSize == (if n < MIN_BLOCK then MIN_BLOCK else n)
    requires k <= |TreeBlocks(h.segs)| && forall j :: 0 <= j < k ==> TreeBlocks(h.segs)[j].size < minSize
    ensures forall j :: 0 <= j < k ==> !FitsBlock(TreeBlocks(h.segs)[j], n, align)
  {
    forall j | 0 <= j < k ensures !FitsBlock(TreeBlocks(h.segs)[j], n, align) {
      TreeBlockBounds(h, TreeBlocks(h.segs)[j]);
    }
  }

  /** Gap and remainder start at addresses that no list or tree node uses. */
  lemma CutAddresses(h: Heap, i: nat, n: nat, p: int)
    requires Inv(h) && i < |h.segs| && h.segs[i].kind == InTree && n >= QUANTUM && n % 16 == 0 && p % 16 == 0
    requires h.segs[i].addr <= p && p + n <= h.segs[i].addr + h.segs[i].size
    ensures var b := h.segs[i];
            var pre, rest := p - b.addr, b.addr + b.size - p - n;
            0 < b.addr < LIMIT && b.addr % 16 == 0 && (p + n) % 16 == 0 && 0 < p + n < LIMIT &&
            pre % 16 == 0 && rest % 16 == 0 && pre <= MAX_BLOCK && rest <= MAX_BLOCK &&
            Unlisted(h.lists, b.addr) && (rest > 0 ==> Unlisted(h.lists, p + n)) && (rest > 0 ==> p + n != b.addr)
  {
    BlockShape(h, i);
    CutNumbers(h.base, h.cap, h.segs[i].addr, h.segs[i].size, p, n);
    InsideUnlisted(h, i, h.segs[i].addr);
    if p + n < h.segs[i].addr + h.segs[i].size { InsideUnlisted(h, i, p + n); }
  }

  lemma CutNumbers(base: int, cap: nat, a: int, size: nat, p: int, n: nat)
    requires ArenaOk(base, cap) && base <= a && a + size <= base + cap && a % 16 == 0 && size % 16 == 0
    requires n >= QUANTUM && n % 16 == 0 && p % 16 == 0 && a <= p && p + n <= a + size
    ensures 0 < a < LIMIT && (p + n) % 16 == 0 && 0 < p + n < LIMIT && (p - a) % 16 == 0 && (a + size - p - n) % 16 == 0
    ensures p - a <= MAX_BLOCK && a + size - p - n <= MAX_BLOCK
  {
    Rem16(a, size, p, n);
  }

  /** The record of a tree block of the heap. */
  lemma BlockRecord(m: Memory, root: int, tree: Tree, h: Heap, i: nat)
    requires Exact(m, root, Top, tree) && Inorder(tree) == TreeBlocks(h.segs) && i < |h.segs| && h.segs[i].kind == InTree
    ensures var b := h.segs[i];
            b.addr in m && m[b.addr].FreeBlock? && m[b.addr].size == b.size && b.addr in Addrs(TreeBlocks(h.segs))
  {
    var b := Block(h.segs[i].addr, h.segs[i].size);
    TreeBlockIn(h.segs, b);
    var k :| 0 <= k < |TreeBlocks(h.segs)| && TreeBlocks(h.segs)[k] == b;
    RecordAt(m, root, tree, k);
  }

  function GapLists(h: Heap, a: int, pre: nat): seq<seq<int>> {
    if QUANTUM <= pre <= MAX_SMALL then Push(h.lists, ClassOf(pre), a) else h.lists
  }

  lemma UnlistedPush(h: Heap, a: int, pre: nat, q: int)
    requires Unlisted(h.lists, q) && q != a
    ensures Unlisted(GapLists(h, a, pre), q)
  {}

  /** A remainder that goes to a small list is not in the tree. */
  lemma SmallRemainder(h: Heap, i: nat, n: nat, p: int)
    requires Inv(h) && i < |h.segs| && h.segs[i].kind == InTree && n >= QUANTUM && n % 16 == 0 && p % 16 == 0
    requires h.segs[i].addr <= p && QUANTUM <= h.segs[i].addr + h.segs[i].size - p - n < MIN_BLOCK
    ensures p + n !in Addrs(TreeBlocks(Cut(h, i, n, p).0.segs))
  {
    var b, h' := h.segs[i], Cut(h, i, n, p).0;
    var rest := b.addr + b.size - p - n;
    assert Inv(h') by { CutInv(h, i, n, p); }
    assert ClassOf(rest) >= 0 && p + n in h'.lists[ClassOf(rest)] by {
      RemainderListed(h, i, n, p, rest);
    }
    ListedOffTree(h', ClassOf(rest), p + n);
  }

  lemma RemainderListed(h: Heap, i: nat, n: nat, p: int, rest: nat)
    requires |h.lists| == CLASSES && i < |h.segs| && h.segs[i].addr <= p && QUANTUM <= rest < MIN_BLOCK
    requires p + n + rest == h.segs[i].addr + h.segs[i].size
    ensures 0 <= ClassOf(rest) < |Cut(h, i, n, p).0.lists| && p + n in Cut(h, i, n, p).0.lists[ClassOf(rest)]
  {
    var a := h.segs[i].addr;
    ListedRemainder(h, a, p - a, n, rest);
    assert a + (p - a) + n == p + n;
  }

  lemma ListedOffTree(h: Heap, k: nat, q: int)
    requires Inv(h) && k < |h.lists| && q in h.lists[k]
    ensures q !in Addrs(TreeBlocks(h.segs))
  {
    InvSeparate(h);
  }

  /** A remainder's address is new to the tree and to the lists, gap included. */
  lemma RemainderFresh(h: Heap, i: nat, n: nat, p: int, content: seq<Block>)
    requires Inv(h) && i < |h.segs| && h.segs[i].kind == InTree && n >= QUANTUM && n % 16 == 0 && p % 16 == 0
    requires h.segs[i].addr <= p && p + n < h.segs[i].addr + h.segs[i].size
    requires var rest := h.segs[i].addr + h.segs[i].size - p - n;
             if rest >= MIN_BLOCK then p + n !in Addrs(content) else TreeBlocks(Cut(h, i, n, p).0.segs) == content
    ensures p + n !in Addrs(content) && Unlisted(GapLists(h, h.segs[i].addr, p - h.segs[i].addr), p + n)
  {
    var b := h.segs[i];
    var pre, rest := p - b.addr, b.addr + b.size - p - n;
    CutAddresses(h, i, n, p);
    UnlistedPush(h, b.addr, pre, p + n);
    if rest < MIN_BLOCK { SmallRemainder(h, i, n, p); }
  }

  lemma ListedRemainder(h: Heap, a: int, pre: nat, n: nat, rest: nat)
    requires |h.lists| == CLASSES && QUANTUM <= rest < MIN_BLOCK
    ensures 0 <= ClassOf(rest) < CLASSES && |PushPieces(h.lists, a, pre, n, rest)| == CLASSES
    ensures a + pre + n in PushPieces(h.lists, a, pre, n, rest)[ClassOf(rest)]
  {
    var lists := GapLists(h, a, pre);
    assert Push(lists, ClassOf(rest), a + pre + n)[ClassOf(rest)][0] == a + pre + n;
  }

  /** Everything the three steps of a cut need: contents, lists and fresh addresses. */
  ghost predicate Plan(h: Heap, h': Heap, a: int, pre: nat, q: int, rest: nat,
                       A: seq<Block>, x: seq<Block>, y: seq<Block>, B: seq<Block>) {
    RemoveBlock(TreeBlocks(h.segs), a) == A + B &&
    Unlisted(h.lists, a) && a !in Addrs(A + B) && 0 < a < LIMIT && a % 16 == 0 && pre % 16 == 0 && pre <= MAX_BLOCK &&
    x == TreePart(a, pre, pre > MAX_SMALL) &&
    (x == [] ==> A + x + B == A + B) && (x != [] ==> InsertBlock(A + B, x[0]) == A + x + B) &&
    (rest > 0 ==> Unlisted(GapLists(h, a, pre), q) && q !in Addrs(A + x + B)) &&
    0 < q < LIMIT && q % 16 == 0 && rest % 16 == 0 && rest <= MAX_BLOCK &&
    y == TreePart(q, rest, rest >= MIN_BLOCK) &&
    (y == [] ==> A + x + y + B == A + x + B) && (y != [] ==> InsertBlock(A + x + B, y[0]) == A + x + y + B) &&
    h'.lists == (if QUANTUM <= rest < MIN_BLOCK then Push(GapLists(h, a, pre), ClassOf(rest), q) else GapLists(h, a, pre)) &&
    TreeBlocks(h'.segs) == A + x + y + B
  }

  /** The counters and the result of a cut. */
  lemma CutFields(h: Heap, i: nat, n: nat, p: int, rest: nat)
    requires i < |h.segs| && h.segs[i].addr <= p && p + n + rest == h.segs[i].addr + h.segs[i].size
    ensures var (h', r) := Cut(h, i, n, p);
            var got := if rest < QUANTUM then n + rest else n;
            h'.base == h.base && h'.cap == h.cap && h'.used == h.used + got &&
            h'.freeBlocks == (if rest < QUANTUM then (h.freeBlocks - 1) % LIMIT else h.freeBlocks) &&
            r == Ok(AllocationResult(p, p - h.base, got))
  {}

  lemma CutPlan(h: Heap, i: nat, n: nat, p: int) returns (A: seq<Block>, x: seq<Block>, y: seq<Block>, B: seq<Block>)
    requires Inv(h) && i < |h.segs| && h.segs[i].kind == InTree && n >= QUANTUM && n % 16 == 0 && p % 16 == 0
    requires h.segs[i].addr <= p && p + n <= h.segs[i].addr + h.segs[i].size
    ensures var b := h.segs[i];
            Plan(h, Cut(h, i, n, p).0, b.addr, p - b.addr, p + n, b.addr + b.size - p - n, A, x, y, B)
  {
    A, x, y, B := CutStages(h, i, n, p);
    CutAddresses(h, i, n, p);
    if p + n < h.segs[i].addr + h.segs[i].size { RemainderFresh(h, i, n, p, A + x + B); }
  }

  // ------------------------------------------------------------ freeing

  lemma GiveSmallBlocks(h: Heap, i: nat)
    requires i < |h.segs| && h.segs[i].kind == Live
    ensures TreeBlocks(GiveSmall(h, i).segs) == TreeBlocks(h.segs)
  {
    var s, b := h.segs, h.segs[i].(kind := InList);
    Parts(s, i, i + 1);
    One(s, i);
    Single(s[i]);
    Single(b);
    Three(s[..i], [s[i]], s[i + 1..], 0);
    Three(s[..i], [b], s[i + 1..], 0);
  }

  /** Absorbing the next block: remove it, then grow its left neighbour. */
  lemma AbsorbNext(A: seq<Block>, f: Block, B: seq<Block>)
    requires B != [] && Sorted(A + [f] + B)
    ensures B[0].addr in Addrs(A + [f] + B)
    ensures RemoveBlock(A + [f] + B, B[0].addr) == A + [f] + B[1..]
    ensures (A + [f] + B[1..])[|A| := Block(f.addr, f.size + B[0].size)] ==
            A + [Block(f.addr, f.size + B[0].size)] + B[1..]
  {
    SplitHead(A + [f], B);
    assert (A + [f] + B)[|A| + 1] == B[0];
    RemoveSplit(A + [f], B[0], B[1..]);
    UpdateAt(A, f, Block(f.addr, f.size + B[0].size), B[1..]);
  }

  lemma SplitHead(a: seq<Block>, B: seq<Block>)
    requires B != []
    ensures a + B == a + [B[0]] + B[1..]
  {}

  lemma UpdateAt(A: seq<Block>, f: Block, g: Block, B: seq<Block>)
    ensures (A + [f] + B)[|A| := g] == A + [g] + B
  {}

  lemma AbsorbInto(A: seq<Block>, f: Block, B: seq<Block>)
    requires A != [] && Sorted(A + [f] + B)
    ensures f.addr in Addrs(A + [f] + B) && RemoveBlock(A + [f] + B, f.addr) == A + B
    ensures var l := A[|A| - 1];
            (A + B)[|A| - 1 := Block(l.addr, l.size + f.size)] ==
              A[..|A| - 1] + [Block(l.addr, l.size + f.size)] + B
  {
    assert (A + [f] + B)[|A|] == f;
    RemoveSplit(A, f, B);
  }

  /** Content after the optional merges on both sides, as the code computes it. */
  function Absorbed(A: seq<Block>, f: Block, B: seq<Block>, next: bool, prev: bool): seq<Block>
    requires (next ==> B != []) && (prev ==> A != [])
  {
    var g := if next then Block(f.addr, f.size + B[0].size) else f;
    var B' := if next then B[1..] else B;
    if prev then A[..|A| - 1] + [Block(A[|A| - 1].addr, A[|A| - 1].size + g.size)] + B' else A + [g] + B'
  }

  predicate TouchesNext(f: Block, B: seq<Block>) { B != [] && f.addr + f.size == B[0].addr }

  predicate TouchesPrev(A: seq<Block>, f: Block) {
    A != [] && A[|A| - 1].addr + A[|A| - 1].size == f.addr
  }

  /** The merges the code performs are those of the naive allocator. */
  lemma MergeMatches(h: Heap, i: nat)
    requires Inv(h) && i < |h.segs| && h.segs[i].kind == Live && h.segs[i].size > MAX_SMALL
    ensures var s := h.segs;
            var A, B, f := TreeBlocks(s[..i]), TreeBlocks(s[i + 1..]), Block(s[i].addr, s[i].size);
            var next, prev := TouchesNext(f, B), TouchesPrev(A, f);
            TreeBlocks(Merge(h, i).segs) == Absorbed(A, f, B, next, prev) &&
            Merge(h, i).freeBlocks == (h.freeBlocks + 1 - (if next then 1 else 0) - (if prev then 1 else 0)) % LIMIT
  {
    var s := h.segs;
    var A, B, f := TreeBlocks(s[..i]), TreeBlocks(s[i + 1..]), Block(s[i].addr, s[i].size);
    var lo := if i > 0 && s[i - 1].kind == InTree then i - 1 else i;
    var hi := if i + 1 < |s| && s[i + 1].kind == InTree then i + 2 else i + 1;
    Touching(h, i);
    MergeStages(h, i);
    MergedContent(s, i, lo, hi);
    assert TouchesNext(f, B) == (i + 1 < hi) && TouchesPrev(A, f) == (lo < i);
    MergeCount(h, i);
  }

  lemma MergeCount(h: Heap, i: nat)
    requires i < |h.segs|
    ensures var s := h.segs;
            var next, prev := i + 1 < |s| && s[i + 1].kind == InTree, i > 0 && s[i - 1].kind == InTree;
            Merge(h, i).freeBlocks == (h.freeBlocks + 1 - (if next then 1 else 0) - (if prev then 1 else 0)) % LIMIT
  {}

  lemma Touching(h: Heap, i: nat)
    requires Inv(h) && i < |h.segs|
    ensures var s := h.segs;
            var A, B, f := TreeBlocks(s[..i]), TreeBlocks(s[i + 1..]), Block(s[i].addr, s[i].size);
            TouchesNext(f, B) == (i + 1 < |s| && s[i + 1].kind == InTree) &&
            TouchesPrev(A, f) == (i > 0 && s[i - 1].kind == InTree)
  {
    NextAdjacent(h, i);
    PrevAdjacent(h, i);
  }

  /** The merged block in place of the freed one and its tree neighbours. */
  lemma MergedContent(s: seq<Seg>, i: nat, lo: nat, hi: nat)
    requires AllWellSized(s) && i < |s| && s[i].kind == Live && s[i].size > MAX_SMALL
    requires lo == if i > 0 && s[i - 1].kind == InTree then i - 1 else i
    requires hi == if i + 1 < |s| && s[i + 1].kind == InTree then i + 2 else i + 1
    ensures var A, B, f := TreeBlocks(s[..i]), TreeBlocks(s[i + 1..]), Block(s[i].addr, s[i].size);
            (i + 1 < hi ==> B != []) && (lo < i ==> A != []) &&
            Absorbed(A, f, B, i + 1 < hi, lo < i) ==
            TreeBlocks(s[..lo]) + [Block(s[lo].addr, Total(s[lo..hi]))] + TreeBlocks(s[hi..])
  {
    var f := Block(s[i].addr, s[i].size);
    MergeStretch(s, i, lo, hi);
    if lo < i { LastBlock(s, i); }
    if i + 1 < hi { FirstBlock(s, i + 1); }
    AbsorbedIs(TreeBlocks(s[..i]), f, TreeBlocks(s[i + 1..]), i + 1 < hi, lo < i, TreeBlocks(s[..lo]),
               Block(s[lo].addr, s[lo].size), if i + 1 < hi then Block(s[i + 1].addr, s[i + 1].size) else f, TreeBlocks(s[hi..]));
  }

  lemma FirstBlock(s: seq<Seg>, i: nat)
    requires i < |s| && s[i].kind == InTree
    ensures TreeBlocks(s[i..]) == [Block(s[i].addr, s[i].size)] + TreeBlocks(s[i + 1..])
  {
    assert s[i..][0] == s[i] && s[i..][1..] == s[i + 1..];
  }

  lemma LastBlock(s: seq<Seg>, i: nat)
    requires 0 < i <= |s| && s[i - 1].kind == InTree
    ensures TreeBlocks(s[..i]) == TreeBlocks(s[..i - 1]) + [Block(s[i - 1].addr, s[i - 1].size)]
  {
    assert s[..i] == s[..i - 1] + [s[i - 1]];
    Distribute(s[..i - 1], [s[i - 1]], 0);
    Single(s[i - 1]);
  }

  /** Absorbing the successor first and then the predecessor. */
  lemma AbsorbedInTurn(A: seq<Block>, f: Block, B: seq<Block>)
    ensures var next, prev := TouchesNext(f, B), TouchesPrev(A, f);
            var g, B' := if next then Block(f.addr, f.size + B[0].size) else f, if next then B[1..] else B;
            TouchesPrev(A, g) == prev && Absorbed(A, g, B', false, prev) == Absorbed(A, f, B, next, prev)
  {}

  lemma AbsorbedIs(A: seq<Block>, f: Block, B: seq<Block>, next: bool, prev: bool,
                   A0: seq<Block>, l: Block, r: Block, B0: seq<Block>)
    requires if next then B == [r] + B0 else B == B0
    requires if prev then A == A0 + [l] else A == A0 && l.addr == f.addr
    ensures Absorbed(A, f, B, next, prev) ==
            A0 + [Block(l.addr, (if prev then l.size else 0) + f.size + (if next then r.size else 0))] + B0
  {
    assert next ==> B[0] == r && B[1..] == B0;
    assert prev ==> A[|A| - 1] == l && A[..|A| - 1] == A0;
  }

  lemma CounterSteps(f: int, next: bool, prev: bool)
    ensures var f1 := (f + 1) % LIMIT;
            var f2 := if next then (f1 - 1) % LIMIT else f1;
            var f3 := if prev then (f2 - 1) % LIMIT else f2;
            f3 == (f + 1 - (if next then 1 else 0) - (if prev then 1 else 0)) % LIMIT
  {}

  lemma ResizeAddrs(s: seq<Block>, i: nat, n: nat)
    requires i < |s|
    ensures Addrs(s[i := Block(s[i].addr, n)]) == Addrs(s)
  {
    var t := s[i := Block(s[i].addr, n)];
    forall a | a in Addrs(t) ensures a in Addrs(s) {
      var j :| 0 <= j < |t| && t[j].addr == a;
      assert s[j].addr == a;
    }
    forall a | a in Addrs(s) ensures a in Addrs(t) {
      var j :| 0 <= j < |s| && s[j].addr == a;
      assert t[j].addr == a;
    }
  }

  /** Sizes met while merging are positive and fit the arena, so no abort is reachable. */
  lemma FreedBounds(h: Heap, i: nat)
    requires Inv(h) && i < |h.segs| && h.segs[i].kind == Live
    ensures var s := h.segs;
            var B, f := TreeBlocks(s[i + 1..]), Block(s[i].addr, s[i].size);
            (B != [] ==> 0 < B[0].size <= h.cap) && 0 < f.size <= h.cap &&
            (TouchesNext(f, B) ==> f.size + B[0].size <= h.cap)
  {
    var s := h.segs;
    var B := TreeBlocks(s[i + 1..]);
    LiveInside(h, s[i]);
    if B != [] {
      var j := TreeIndex(s[i + 1..], 0);
      assert s[i + 1..][j] == s[i + 1 + j];
      LiveInside(h, s[i + 1 + j]);
    }
  }

  /** Everything the steps of a large free need: contents, counter and a fresh address. */
  ghost predicate FreePlanned(h: Heap, h': Heap, i: nat) {
    i < |h.segs| &&
    var s, b := h.segs, h.segs[i];
    var A, B, f := TreeBlocks(s[..i]), TreeBlocks(s[i + 1..]), Block(b.addr, b.size);
    TreeBlocks(s) == A + B && InsertBlock(A + B, f) == A + [f] + B && h'.lists == h.lists && h.cap <= MAX_BLOCK &&
    f.addr !in Addrs(A + B) && Unlisted(h.lists, f.addr) && 0 < f.addr < LIMIT && f.addr % 16 == 0 &&
    (B != [] ==> 0 < B[0].size <= h.cap) && 0 < f.size <= h.cap && (TouchesNext(f, B) ==> f.size + B[0].size <= h.cap) &&
    TreeBlocks(h'.segs) == Absorbed(A, f, B, TouchesNext(f, B), TouchesPrev(A, f)) &&
    h'.freeBlocks == (h.freeBlocks + 1 - (if TouchesNext(f, B) then 1 else 0) - (if TouchesPrev(A, f) then 1 else 0)) % LIMIT
  }

  lemma FreePlan(h: Heap, h': Heap, i: nat)
    requires Inv(h) && i < |h.segs| && h.segs[i].kind == Live && h.segs[i].size > MAX_SMALL && h' == Merge(h, i)
    ensures FreePlanned(h, h', i) && Inv(h')
    ensures h'.base == h.base && h'.cap == h.cap && h'.used == h.used - h.segs[i].size
  {
    LiveInside(h, h.segs[i]);
    MergeInv(h, i);
    MergeStages(h, i);
    MergeMatches(h, i);
    OffTree(h, h.segs[i]);
    InsideUnlisted(h, i, h.segs[i].addr);
    FreedBounds(h, i);
  }
}
