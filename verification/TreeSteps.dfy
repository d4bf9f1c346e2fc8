/** What single pointer steps of the tree operations mean: which records they find and
what tree the rewritten records hold. */
module TreeSteps {
  import opened BlockTree
  import opened TreeMemory
  import opened BlockSeq
  import opened Fixup
  import opened Splice

  /** The records a left rotation at `x` touches exist and are distinct. */
  ghost predicate RotatableLeft(m: Memory, x: int) {
    x != NIL && x in m && m[x].FreeBlock? &&
    var y, p := m[x].right, m[x].parent;
    y != NIL && y != x && y in m && m[y].FreeBlock? &&
    var b := m[y].left;
    (b == NIL || (b in m && m[b].FreeBlock? && b != x && b != y)) &&
    (p == NIL || (p in m && m[p].FreeBlock? && p != x && p != y && p != b))
  }

  ghost predicate RelinkedLeft(m: Memory, m': Memory, x: int)
    requires RotatableLeft(m, x)
  {
    var y, p := m[x].right, m[x].parent;
    var b := m[y].left;
    m'.Keys == m.Keys &&
    m'[x] == m[x].(right := b, parent := y) &&
    m'[y] == m[y].(left := x, parent := p, subtreeMax := m[x].subtreeMax) &&
    (b != NIL ==> m'[b] == m[b].(parent := x)) &&
    (p != NIL ==> m'[p] == if x == m[p].left then m[p].(left := y) else m[p].(right := y)) &&
    forall q :: q in m && q != x && q != y && (q == NIL || (q != b && q != p)) ==> m'[q] == m[q]
  }

  /** Relinking and the two `update_max` calls amount to a left rotation. */
  lemma CompleteLeftRotation(m: Memory, m1: Memory, root: int, c: Context, t: Tree)
    requires Exact(m, root, c, t) && !t.Leaf? && !t.right.Leaf?
    requires RotatableLeft(m, t.addr) && RelinkedLeft(m, m1, t.addr)
    ensures Linked(m1, t.addr)
    ensures var m2 := m1[t.addr := m1[t.addr].(subtreeMax := ChildrenMax(m1, t.addr))];
            Linked(m2, t.right.addr) &&
            var m3 := m2[t.right.addr := m2[t.right.addr].(subtreeMax := ChildrenMax(m2, t.right.addr))];
            LeftRotated(m, m3, c, t) && m3[NIL] == NIL_CELL
  {
    RotationSetting(m, root, c, t);
  }

  /** The records a right rotation at `x` touches exist and are distinct. */
  ghost predicate RotatableRight(m: Memory, x: int) {
    x != NIL && x in m && m[x].FreeBlock? &&
    var y, p := m[x].left, m[x].parent;
    y != NIL && y != x && y in m && m[y].FreeBlock? &&
    var b := m[y].right;
    (b == NIL || (b in m && m[b].FreeBlock? && b != x && b != y)) &&
    (p == NIL || (p in m && m[p].FreeBlock? && p != x && p != y && p != b))
  }

  ghost predicate RelinkedRight(m: Memory, m': Memory, x: int)
    requires RotatableRight(m, x)
  {
    var y, p := m[x].left, m[x].parent;
    var b := m[y].right;
    m'.Keys == m.Keys &&
    m'[x] == m[x].(left := b, parent := y) &&
    m'[y] == m[y].(right := x, parent := p, subtreeMax := m[x].subtreeMax) &&
    (b != NIL ==> m'[b] == m[b].(parent := x)) &&
    (p != NIL ==> m'[p] == if x == m[p].right then m[p].(right := y) else m[p].(left := y)) &&
    forall q :: q in m && q != x && q != y && (q == NIL || (q != b && q != p)) ==> m'[q] == m[q]
  }

  /** Relinking and the two `update_max` calls amount to a right rotation. */
  lemma CompleteRightRotation(m: Memory, m1: Memory, root: int, c: Context, t: Tree)
    requires Exact(m, root, c, t) && !t.Leaf? && !t.left.Leaf?
    requires RotatableRight(m, t.addr) && RelinkedRight(m, m1, t.addr)
    ensures Linked(m1, t.addr)
    ensures var m2 := m1[t.addr := m1[t.addr].(subtreeMax := ChildrenMax(m1, t.addr))];
            Linked(m2, t.left.addr) &&
            var m3 := m2[t.left.addr := m2[t.left.addr].(subtreeMax := ChildrenMax(m2, t.left.addr))];
            RightRotated(m, m3, c, t) && m3[NIL] == NIL_CELL
  {
    RotationSetting(m, root, c, t);
  }

  /** The records around a rotation are distinct and linked. */
  lemma RotationSetting(m: Memory, root: int, c: Context, t: Tree)
    requires Exact(m, root, c, t) && !t.Leaf?
    ensures (ParentPtr(c) == NIL) == c.Top? && NULL < t.addr < LIMIT
    ensures !c.Top? ==> c.addr in m && m[c.addr].FreeBlock? && (m[c.addr].left == t.addr) == c.InLeft?
    ensures !c.Top? ==> (m[c.addr].right == t.addr) == c.InRight?
    ensures !c.Top? ==> !(Lo(c) < c.addr < Hi(c)) && NULL <= Lo(c)
    ensures Lo(c) < t.addr < Hi(c)
    ensures !t.right.Leaf? ==>
      var y, b := t.right, t.right.left;
      t.addr < y.addr < Hi(c) && Rep(m, t.addr, y) && Rep(m, y.addr, b) && Rep(m, y.addr, y.right) &&
      (b.Leaf? || t.addr < b.addr < y.addr) && (y.right.Leaf? || y.addr < y.right.addr < Hi(c))
    ensures !t.left.Leaf? ==>
      var y, b := t.left, t.left.right;
      Lo(c) < y.addr < t.addr && Rep(m, t.addr, y) && Rep(m, y.addr, b) && Rep(m, y.addr, y.left) &&
      (b.Leaf? || y.addr < b.addr < t.addr) && (y.left.Leaf? || Lo(c) < y.left.addr < y.addr)
  {
    WhichChild(m, root, c, t);
    PathBounds(c);
    PathKeysOutside(c);
    assert Ordered(t.left, Lo(c), t.addr) && Ordered(t.right, t.addr, Hi(c));
    if !t.right.Leaf? { assert Ordered(t.right.left, t.addr, t.right.addr) && Ordered(t.right.right, t.right.addr, Hi(c)); }
    if !t.left.Leaf? { assert Ordered(t.left.right, t.left.addr, t.addr) && Ordered(t.left.left, Lo(c), t.left.addr); }
  }

  lemma UpExact(m: Memory, root: int, c: Context, t: Tree)
    requires Exact(m, root, c, t) && !c.Top?
    ensures Exact(m, root, c.up, Fold(c, t)) && Plug(c.up, Fold(c, t)) == Plug(c, t)
  {
    Up(m, root, c, t);
  }

  /** The records the insertion fixup looks at exist. */
  ghost predicate InsertReady(m: Memory, c: Context, t: Tree)
    requires !t.Leaf?
  {
    t.addr in m && m[t.addr].FreeBlock? && m[t.addr].parent == ParentPtr(c) &&
    ParentPtr(c) in m && m[ParentPtr(c)].FreeBlock? && m[ParentPtr(c)].color == PathColor(c)
  }

  /** What the pointer tests of the insertion fixup find out. */
  lemma InsertPointers(m: Memory, root: int, c: Context, t: Tree)
    requires Exact(m, root, c, t) && InsertOpen(c, t)
    ensures InsertReady(m, c, t)
    ensures c.Top? ==> root == t.addr
    ensures !c.Top? && !c.up.Top? ==>
      var p, g, u := c.addr, c.up.addr, c.up.sibling;
      m[p].parent == g && g in m && m[g].FreeBlock? &&
      (m[p].left == t.addr) == c.InLeft? && (m[p].right == t.addr) == c.InRight? &&
      (m[g].left == p) == c.up.InLeft? && (if c.up.InLeft? then m[g].right else m[g].left) == Ptr(u) &&
      Ptr(u) in m && m[Ptr(u)].FreeBlock? && m[Ptr(u)].color == ColorOf(u)
  {
    WhichChild(m, root, c, t);
    if !c.Top? {
      UpExact(m, root, c, t);
      WhichChild(m, root, c.up, Fold(c, t));
    }
  }

  /** Writing a fresh red leaf into the empty hole. */
  lemma LeafLinked(m: Memory, m': Memory, root: int, root': int, c: Context, z: int, n: nat)
    requires At(m, root, c, Leaf) && Lo(c) < z < Hi(c) && z in m
    requires m'.Keys == m.Keys && m'[z] == FreeBlock(n, ParentPtr(c), NIL, NIL, n, Red)
    requires !c.Top? ==> c.addr in m && m[c.addr].FreeBlock? && m'[c.addr] == Relinked(m, c, z)
    requires forall q :: q in m && q != z && (q == NIL || q != ParentPtr(c)) ==> m'[q] == m[q]
    requires root' == if c.Top? then z else root
    ensures At(m', root', c, Node(Leaf, z, n, Red, Leaf))
    ensures Kept(m, m', Inorder(Plug(c, Node(Leaf, z, n, Red, Leaf))))
  {
    PathBounds(c);
    OnTree(c, Node(Leaf, z, n, Red, Leaf));
    assert Keys(Node(Leaf, z, n, Red, Leaf)) == {z};
    if !c.Top? { WhichChild(m, root, c, Leaf); }
    Rehole(m, m', NIL, z, c);
    assert Ordered(Leaf, Lo(c), z) && Ordered(Leaf, z, Hi(c));
    assert MaxSize(Leaf) == 0 && MaxSize(Node(Leaf, z, n, Red, Leaf)) == n;
    assert Rep(m', z, Leaf);
  }

  lemma LeafContent(c: Context, node: Tree, tree: Tree)
    requires !node.Leaf? && node.left.Leaf? && node.right.Leaf? && node.color == Red
    requires Plug(c, Leaf) == tree && RedBlack(tree)
    requires PathOrdered(c) && Ordered(node, Lo(c), Hi(c))
    ensures InsertOpen(c, node)
    ensures Inorder(Plug(c, node)) == InsertBlock(Inorder(tree), Block(node.addr, node.size))
  {
    UnplugRedBlack(c, Leaf);
    PlugInorder(c, Leaf);
    PlugInorder(c, node);
    PlugOrdered(c, node);
    InorderSorted(Plug(c, node), NULL, LIMIT);
    assert Inorder(node) == [Block(node.addr, node.size)];
    assert Before(c) + Inorder(Leaf) + After(c) == Before(c) + After(c);
    InsertSplit(Before(c), Block(node.addr, node.size), After(c));
  }

  /** The context of the sibling of a position. */
  function SiblingPos(c: Context, t: Tree): Context
    requires !c.Top?
  {
    if c.InLeft? then RightOf(c.up, Fold(c, t)) else LeftOf(c.up, Fold(c, t))
  }

  /** Lifts shorten the path; a red position or the root ends the loop. */
  function FixupMeasure(c: Context, t: Tree): nat {
    if ColorOf(t) == Red then 0 else 1 + Depth(c)
  }

  /** What the loop guard and the side test of the deletion fixup find out. */
  lemma FixupPointers(m: Memory, root: int, c: Context, t: Tree)
    requires Exact(m, root, c, t) && DeleteOpen(c, t)
    ensures (Ptr(t) == root) == c.Top?
    ensures Ptr(t) in m && m[Ptr(t)].FreeBlock? && m[Ptr(t)].color == ColorOf(t) && (Ptr(t) == NIL) == t.Leaf?
    ensures !c.Top? ==> c.addr in m && m[c.addr].FreeBlock? && (Ptr(t) == m[c.addr].left) == c.InLeft?
  {
    WhichChild(m, root, c, t);
    if !c.Top? {
      SiblingExists(c, t);
      RootOnPath(c, Ptr(t));
      PathKeysOutside(c);
      UpExact(m, root, c, t);
      Down(m, root, c.up, Fold(c, t));
      WhichChild(m, root, SiblingPos(c, t), c.sibling);
    }
  }

  /** The sibling and its children are readable and have the colours of the tree. */
  lemma DeletePointers(m: Memory, root: int, c: Context, t: Tree)
    requires Exact(m, root, c, t) && DeleteOpen(c, t) && !c.Top?
    ensures c.addr in m && m[c.addr].FreeBlock? && !c.sibling.Leaf?
    ensures (if c.InLeft? then m[c.addr].right else m[c.addr].left) == c.sibling.addr
    ensures m[c.addr].color == c.color && m[c.addr].parent == ParentPtr(c.up)
    ensures var w := c.sibling;
            w.addr in m && m[w.addr].FreeBlock? && m[w.addr].color == w.color &&
            m[w.addr].left == Ptr(w.left) && m[w.addr].right == Ptr(w.right) &&
            Ptr(w.left) in m && m[Ptr(w.left)].FreeBlock? && m[Ptr(w.left)].color == ColorOf(w.left) &&
            Ptr(w.right) in m && m[Ptr(w.right)].FreeBlock? && m[Ptr(w.right)].color == ColorOf(w.right)
  {
    SiblingExists(c, t);
    assert Rep(m, c.addr, c.sibling);
    assert Rep(m, c.sibling.addr, c.sibling.left) && Rep(m, c.sibling.addr, c.sibling.right);
  }

  /** The successor has moved up but not yet replaced `z`. */
  ghost predicate Detached(m: Memory, m': Memory, z: int, y: int)
    requires Spliceable(m, z, y) && m[y].parent != z
  {
    var zr, yp, yr := m[z].right, m[y].parent, m[y].right;
    m'.Keys == m.Keys && m'[y] == m[y].(right := zr) &&
    m'[zr] == (if yp == zr then m[zr].(left := yr) else m[zr]).(parent := y) &&
    (yp != zr ==> m'[yp] == m[yp].(left := yr)) &&
    (yr != NIL ==> m'[yr] == m[yr].(parent := yp)) &&
    forall q :: q in m && q != y && q != zr && q != yp && (q == NIL || q != yr) ==> m'[q] == m[q]
  }

  lemma LinkedY(m: Memory, m': Memory, z: int, y: int)
    requires Spliceable(m, z, y) && Spliced(m, m', z, y)
    ensures Linked(m', y)
  {}

  lemma SpineMaxAt(m: Memory, m': Memory, root: int, c: Context, t: Tree, a: int, v: nat)
    requires At(m, root, c, t) && a in Spine(c) && a in m && m[a].FreeBlock?
    requires m' == m[a := m[a].(subtreeMax := v)]
    ensures At(m', root, c, t) && Kept(m, m', Inorder(Plug(c, t)))
  {
    SpineOnPath(c);
    PathKeysOutside(c);
    SpineMaxWritten(m, m', Ptr(t), c, a, v);
    RepFrame(m, m', ParentPtr(c), t, Lo(c), Hi(c));
    OnTree(c, t);
  }
}
