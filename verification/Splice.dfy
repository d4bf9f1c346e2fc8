/** Taking a node out of the tree: the relinking of `rb_transplant` and `delete_node`. */
module Splice {
  import opened BlockTree
  import opened TreeMemory
  import opened BlockSeq
  import opened Fixup

  // ------------------------------------------------------------ a node with one child

  lemma {:induction false} OrderedWiden(t: Tree, lo: int, hi: int, lo': int, hi': int)
    requires Ordered(t, lo, hi) && lo' <= lo && hi <= hi'
    ensures Ordered(t, lo', hi')
    decreases t
  {
    if t.Leaf? {
    } else {
      OrderedWiden(t.left, lo, t.addr, lo', t.addr);
      OrderedWiden(t.right, t.addr, hi, t.addr, hi');
    }
  }

  ghost predicate Transplantable(m: Memory, u: int, v: int) {
    u in m && m[u].FreeBlock? &&
    (m[u].parent != NIL ==> m[u].parent in m && m[m[u].parent].FreeBlock? && m[u].parent != v) &&
    (v != NIL ==> v in m && m[v].FreeBlock?)
  }

  /** Memory after the parent of `u` adopts `v` in its place. */
  ghost function Transplanted(m: Memory, u: int, v: int): Memory
    requires Transplantable(m, u, v)
  {
    var p := m[u].parent;
    var m1 := if p == NIL then m
              else if u == m[p].left then m[p := m[p].(left := v)]
              else m[p := m[p].(right := v)];
    if v != NIL then m1[v := m1[v].(parent := p)] else m1
  }

  /** The child `v` of `t` can take its place, and the hole then holds `v`. */
  lemma TransplantAt(m: Memory, m': Memory, root: int, c: Context, t: Tree, v: Tree)
    requires At(m, root, c, t) && !t.Leaf? && (v == t.left || v == t.right)
    requires Transplantable(m, t.addr, Ptr(v)) && m' == Transplanted(m, t.addr, Ptr(v))
    ensures At(m', if c.Top? then Ptr(v) else root, c, v)
    ensures Kept(m, m', Inorder(Plug(c, t)))
  {
    TransplantReady(m, root, c, t, v);
    PathBounds(c);
    TransplantMoves(m, m', root, c, t, v);
    TransplantKept(m, m', root, c, t, v);
    Rehole(m, m', t.addr, Ptr(v), c);
  }

  lemma TransplantKept(m: Memory, m': Memory, root: int, c: Context, t: Tree, v: Tree)
    requires At(m, root, c, t) && !t.Leaf? && (v == t.left || v == t.right)
    requires Transplantable(m, t.addr, Ptr(v)) && m' == Transplanted(m, t.addr, Ptr(v))
    ensures Kept(m, m', Inorder(Plug(c, t))) && m'[NIL] == NIL_CELL
  {
    TransplantReady(m, root, c, t, v);
    PathBounds(c);
    OnTree(c, t);
    assert !v.Leaf? ==> v.addr in Keys(v);
    assert v.Leaf? || NULL < v.addr;
    assert c.Top? || NULL < c.addr by { PathKeysOutside(c); }
  }

  lemma TransplantMoves(m: Memory, m': Memory, root: int, c: Context, t: Tree, v: Tree)
    requires At(m, root, c, t) && !t.Leaf? && (v == t.left || v == t.right)
    requires Transplantable(m, t.addr, Ptr(v)) && m' == Transplanted(m, t.addr, Ptr(v))
    ensures Rep(m', ParentPtr(c), v) && Ordered(v, Lo(c), Hi(c))
  {
    TransplantReady(m, root, c, t, v);
    PathBounds(c);
    if v == t.left {
      Reparent(m, m', t.addr, ParentPtr(c), v, Lo(c), t.addr);
      OrderedWiden(v, Lo(c), t.addr, Lo(c), Hi(c));
    } else {
      Reparent(m, m', t.addr, ParentPtr(c), v, t.addr, Hi(c));
      OrderedWiden(v, t.addr, Hi(c), Lo(c), Hi(c));
    }
  }

  lemma TransplantReady(m: Memory, root: int, c: Context, t: Tree, v: Tree)
    requires At(m, root, c, t) && !t.Leaf? && (v == t.left || v == t.right)
    ensures Transplantable(m, t.addr, Ptr(v)) && m[t.addr].parent == ParentPtr(c)
    ensures (m[t.addr].parent == NIL) == c.Top?
    ensures !c.Top? ==> !(Lo(c) < c.addr < Hi(c)) && (m[c.addr].left == t.addr) == c.InLeft?
    ensures !v.Leaf? ==> Lo(c) < v.addr < Hi(c) && v.addr != t.addr
    ensures Ordered(t.left, Lo(c), t.addr) && Ordered(t.right, t.addr, Hi(c)) && Lo(c) < t.addr < Hi(c)
    ensures Rep(m, t.addr, v)
  {
    WhichChild(m, root, c, t);
    PathBounds(c);
    PathKeysOutside(c);
    if v == t.left {
      assert Ordered(v, Lo(c), t.addr) && Rep(m, t.addr, v);
    } else {
      assert Ordered(v, t.addr, Hi(c)) && Rep(m, t.addr, v);
    }
  }

  /** Colours and content when the only child `v` takes the place of `t`. */
  lemma RemoveSimple(c: Context, t: Tree, v: Tree)
    requires !t.Leaf? && RedBlack(Plug(c, t)) && PathOrdered(c) && Ordered(t, Lo(c), Hi(c))
    requires (t.left.Leaf? && v == t.right) || (t.right.Leaf? && v == t.left)
    ensures t.color == Black ==> DeleteOpen(c, v)
    ensures t.color == Red ==> RedBlack(Plug(c, v))
    ensures Inorder(Plug(c, v)) == RemoveBlock(Inorder(Plug(c, t)), t.addr)
  {
    RemoveSimpleColors(c, t, v);
    OnlyChildContent(t, v);
    RemoveSimpleContent(c, t, v);
  }

  lemma OnlyChildContent(t: Tree, v: Tree)
    requires !t.Leaf? && ((t.left.Leaf? && v == t.right) || (t.right.Leaf? && v == t.left))
    ensures Inorder(v) == Inorder(t.left) + Inorder(t.right)
  {}

  lemma RemoveSimpleColors(c: Context, t: Tree, v: Tree)
    requires !t.Leaf? && RedBlack(Plug(c, t))
    requires (t.left.Leaf? && v == t.right) || (t.right.Leaf? && v == t.left)
    ensures t.color == Black ==> DeleteOpen(c, v)
    ensures t.color == Red ==> RedBlack(Plug(c, v))
  {
    UnplugRedBlack(c, t);
    OnlyChild(t, v);
    if t.color == Red { PlugRedBlack(c, v); } else { OpenAt(c, v, BlackHeight(t)); }
  }

  lemma OpenAt(c: Context, v: Tree, h: nat)
    requires Balanced(v) && NoRedRed(Blacken(v)) && PathBalanced(c, h) && h == BlackHeight(v) + 1
    requires PathNoRedRed(c) && PathRootBlack(c)
    ensures DeleteOpen(c, v)
  {}

  /** What a node with one child hands down to it. */
  lemma OnlyChild(t: Tree, v: Tree)
    requires !t.Leaf? && Balanced(t) && NoRedRed(t)
    requires (t.left.Leaf? && v == t.right) || (t.right.Leaf? && v == t.left)
    ensures Balanced(v) && NoRedRed(v) && NoRedRed(Blacken(v))
    ensures BlackHeight(t) == BlackHeight(v) + (if t.color == Black then 1 else 0)
    ensures t.color == Red ==> ColorOf(v) == Black
  {}

  lemma RemoveSimpleContent(c: Context, t: Tree, v: Tree)
    requires !t.Leaf? && PathOrdered(c) && Ordered(t, Lo(c), Hi(c))
    requires Inorder(v) == Inorder(t.left) + Inorder(t.right)
    ensures Inorder(Plug(c, v)) == RemoveBlock(Inorder(Plug(c, t)), t.addr)
  {
    PlugSorted(c, t);
    PlugInorder(c, t);
    PlugInorder(c, v);
    RemoveMiddle(Before(c), Inorder(t.left), Block(t.addr, t.size), Inorder(t.right), After(c));
  }

  lemma RemoveMiddle(a: seq<Block>, l: seq<Block>, b: Block, r: seq<Block>, z: seq<Block>)
    requires Sorted(a + (l + [b] + r) + z)
    ensures RemoveBlock(a + (l + [b] + r) + z, b.addr) == a + (l + r) + z
  {
    assert a + (l + [b] + r) + z == (a + l) + [b] + (r + z);
    assert a + (l + r) + z == (a + l) + (r + z);
    RemoveSplit(a + l, b, r + z);
  }

  // ------------------------------------------------------------ the successor's old place

  function MinNode(t: Tree): (y: Tree)
    requires !t.Leaf?
    ensures !y.Leaf? && y.left.Leaf?
  {
    if t.left.Leaf? then t else MinNode(t.left)
  }

  /** Address of the parent of the leftmost node. */
  function MinParent(t: Tree): int
    requires !t.Leaf? && !t.left.Leaf?
  {
    if t.left.left.Leaf? then t.addr else MinParent(t.left)
  }

  lemma {:induction false} LeftmostIsMin(c: Context, t: Tree)
    requires !t.Leaf?
    ensures Leftmost(c, t).1 == MinNode(t)
    ensures ParentPtr(Leftmost(c, t).0) == if t.left.Leaf? then ParentPtr(c) else MinParent(t)
    ensures Spine(c) <= Spine(Leftmost(c, t).0)
    decreases t
  {
    if t.left.Leaf? {
    } else {
      LeftmostIsMin(LeftOf(c, t), t.left);
    }
  }

  lemma {:induction false} MinFacts(m: Memory, par: int, t: Tree, lo: int, hi: int)
    requires !t.Leaf? && Ordered(t, lo, hi) && Rep(m, par, t)
    ensures var y := MinNode(t); lo < y.addr < hi && y.addr <= t.addr && Ordered(y.right, y.addr, hi)
    ensures var y := MinNode(t); y.addr in m && Rep(m, y.addr, y.right)
    ensures var y := MinNode(t);
      m[y.addr] == FreeBlock(y.size, if t.left.Leaf? then par else MinParent(t), NIL, Ptr(y.right), MaxSize(y), y.color)
    ensures !t.left.Leaf? ==>
      var y, yp := MinNode(t), MinParent(t);
      y.addr < yp <= t.addr && Ordered(y.right, y.addr, yp) &&
      yp in m && m[yp].FreeBlock? && m[yp].left == y.addr
    ensures MinInKeys(t)
    decreases t
  {
    if t.left.Leaf? {
    } else {
      MinFacts(m, t.addr, t.left, lo, t.addr);
      OrderedWiden(MinNode(t).right, MinNode(t).addr, t.addr, MinNode(t).addr, hi);
    }
  }

  predicate MinInKeys(t: Tree)
    requires !t.Leaf?
  {
    MinNode(t).addr in Keys(t) && (!t.left.Leaf? ==> MinParent(t) in Keys(t)) &&
    Keys(MinNode(t).right) <= Keys(t)
  }

  /** The memory changes on the way from `t` down to the spliced-out leftmost node. */
  ghost predicate MinSpliced(m: Memory, m': Memory, parent: int, t: Tree, lo: int, hi: int)
    requires !t.Leaf? && !t.left.Leaf?
  {
    var y, yp := MinNode(t), MinParent(t);
    (forall q :: lo < q < hi && q in m && q != t.addr && q != yp && q != y.addr && q != Ptr(y.right)
                 ==> q in m' && m'[q] == m[q]) &&
    t.addr in m && t.addr in m' && m[t.addr].FreeBlock? && yp in m && yp in m' && m[yp].FreeBlock? &&
    m'[t.addr] == (if yp == t.addr then m[t.addr].(left := Ptr(y.right)) else m[t.addr]).(parent := parent) &&
    (yp != t.addr ==> m'[yp] == m[yp].(left := Ptr(y.right))) &&
    (!y.right.Leaf? ==> y.right.addr in m && y.right.addr in m' && m[y.right.addr].FreeBlock? &&
                        m'[y.right.addr] == m[y.right.addr].(parent := yp))
  }

  lemma {:induction false} SplicePath(m: Memory, m': Memory, par: int, c: Context, t: Tree, lo: int, hi: int)
    requires !t.Leaf? && !t.left.Leaf? && Rep(m, par, t) && Ordered(t, lo, hi) && NULL <= lo
    requires MinSpliced(m, m', ParentPtr(c), t, lo, hi) && PathRep(m', t.addr, c)
    ensures var y := MinNode(t); PathRep(m', Ptr(y.right), Leftmost(c, t).0) && Rep(m', MinParent(t), y.right)
    decreases t
  {
    var y, yp := MinNode(t), MinParent(t);
    MinFacts(m, par, t, lo, hi);
    RepFrame(m, m', t.addr, t.right, t.addr, hi);
    if t.left.left.Leaf? {
      Reparent(m, m', y.addr, yp, y.right, y.addr, yp);
    } else {
      MinFacts(m, t.addr, t.left, lo, t.addr);
      assert MinSpliced(m, m', t.addr, t.left, lo, t.addr);
      SplicePath(m, m', t.addr, LeftOf(c, t), t.left, lo, t.addr);
    }
  }

  lemma {:induction false} SpliceOrdered(c: Context, t: Tree, lo: int)
    requires !t.Leaf? && Ordered(t, lo, Hi(c)) && PathOrdered(c) && Lo(c) == MinNode(t).addr
    ensures var d := Leftmost(c, t).0; PathOrdered(d) && Ordered(MinNode(t).right, Lo(d), Hi(d))
    decreases t
  {
    if t.left.Leaf? {
    } else {
      MinBelow(t.left, lo, t.addr);
      SpliceOrdered(LeftOf(c, t), t.left, lo);
    }
  }

  lemma {:induction false} MinBelow(t: Tree, lo: int, hi: int)
    requires !t.Leaf? && Ordered(t, lo, hi)
    ensures lo < MinNode(t).addr < hi
  {
    if t.left.Leaf? {
    } else {
      MinBelow(t.left, lo, t.addr);
    }
  }

  /** Contexts that differ only in the address and size of nodes left of the hole. */
  predicate Alike(c: Context, d: Context) {
    match c
    case Top => d.Top?
    case InLeft(up, a, s, col, sib) =>
      d.InLeft? && d.addr == a && d.size == s && d.color == col && d.sibling == sib && Alike(up, d.up)
    case InRight(up, sib, _, _, col) =>
      d.InRight? && d.color == col && d.sibling == sib && Alike(up, d.up)
  }

  lemma {:induction false} AlikeSelf(c: Context)
    ensures Alike(c, c)
  {
    if c.Top? {
    } else {
      AlikeSelf(c.up);
    }
  }

  lemma {:induction false} AlikeFacts(c: Context, d: Context, h: nat)
    requires Alike(c, d)
    ensures PathBalanced(c, h) == PathBalanced(d, h) && PathNoRedRed(c) == PathNoRedRed(d)
    ensures PathColor(c) == PathColor(d) && PathRootBlack(c) == PathRootBlack(d)
    ensures c.Top? == d.Top? && After(c) == After(d)
    decreases c
  {
    if c.Top? {
    } else {
      AlikeFacts(c.up, d.up, h + Bit(c.color));
    }
  }

  lemma {:induction false} LeftmostAlike(c: Context, d: Context, t: Tree)
    requires !t.Leaf? && Alike(c, d)
    ensures Alike(Leftmost(c, t).0, Leftmost(d, t).0)
    decreases t
  {
    if t.left.Leaf? {
    } else {
      LeftmostAlike(LeftOf(c, t), LeftOf(d, t), t.left);
    }
  }

  // ------------------------------------------------------------ a node with two children

  /** The context of the successor's place once the successor has replaced `t`. */
  function Replaced(c: Context, t: Tree): Context
    requires !t.Leaf? && !t.right.Leaf?
  {
    var y := MinNode(t.right);
    InRight(c, t.left, y.addr, y.size, t.color)
  }

  /** Colours and content when the in-order successor takes the place of `t`. */
  lemma RemoveInner(c: Context, t: Tree)
    requires !t.Leaf? && !t.left.Leaf? && !t.right.Leaf?
    requires RedBlack(Plug(c, t)) && PathOrdered(c) && Ordered(t, Lo(c), Hi(c))
    ensures var y, d := MinNode(t.right), Leftmost(Replaced(c, t), t.right).0;
            (y.color == Black ==> DeleteOpen(d, y.right)) &&
            (y.color == Red ==> RedBlack(Plug(d, y.right))) &&
            Inorder(Plug(d, y.right)) == RemoveBlock(Inorder(Plug(c, t)), t.addr)
  {
    var y, c', d' := MinNode(t.right), RightOf(c, t), Replaced(c, t);
    var e, d := Leftmost(c', t.right).0, Leftmost(d', t.right).0;
    LeftmostIsMin(c', t.right);
    LeftmostIsMin(d', t.right);
    LeftmostFacts(c', t.right);
    LeftmostFacts(d', t.right);
    assert Plug(e, y) == Plug(c, t);
    UnplugRedBlack(e, y);
    AlikeSelf(c);
    LeftmostAlike(c', d', t.right);
    AlikeFacts(e, d, BlackHeight(y));
    if y.color == Red { PlugRedBlack(d, y.right); }
    RemoveInnerContent(c, t, e, d, y);
  }

  lemma RemoveInnerContent(c: Context, t: Tree, e: Context, d: Context, y: Tree)
    requires !t.Leaf? && !t.right.Leaf? && !y.Leaf? && y.left.Leaf?
    requires PathOrdered(c) && Ordered(t, Lo(c), Hi(c))
    requires Plug(e, y) == Plug(c, t) && After(e) == After(d)
    requires Before(e) == Before(RightOf(c, t)) && y == MinNode(t.right) && Before(d) == Before(Replaced(c, t))
    ensures Inorder(Plug(d, y.right)) == RemoveBlock(Inorder(Plug(c, t)), t.addr)
  {
    var zb, yb := Block(t.addr, t.size), Block(y.addr, y.size);
    assert Inorder(Plug(d, y.right)) == (Before(c) + (Inorder(t.left) + [yb])) + Inorder(y.right) + After(d) by {
      PlugInorder(d, y.right);
    }
    assert Inorder(Plug(c, t)) == (Before(c) + (Inorder(t.left) + [zb])) + ([yb] + Inorder(y.right)) + After(d) by {
      PlugInorder(e, y);
      NoLeftInorder(y);
    }
    PlugSorted(c, t);
    RemoveBefore(Before(c), Inorder(t.left), zb, yb, Inorder(y.right), After(d));
  }

  lemma NoLeftInorder(y: Tree)
    requires !y.Leaf? && y.left.Leaf?
    ensures Inorder(y) == [Block(y.addr, y.size)] + Inorder(y.right)
  {
    assert Inorder(y.left) == [];
  }

  lemma PlugSorted(c: Context, t: Tree)
    requires PathOrdered(c) && Ordered(t, Lo(c), Hi(c))
    ensures Sorted(Inorder(Plug(c, t)))
  {
    PlugOrdered(c, t);
    InorderSorted(Plug(c, t), NULL, LIMIT);
  }

  lemma RemoveBefore(a: seq<Block>, l: seq<Block>, b: Block, y: Block, r: seq<Block>, z: seq<Block>)
    requires Sorted((a + (l + [b])) + ([y] + r) + z)
    ensures RemoveBlock((a + (l + [b])) + ([y] + r) + z, b.addr) == (a + (l + [y])) + r + z
  {
    assert (a + (l + [b])) + ([y] + r) + z == (a + l) + [b] + ([y] + r + z);
    assert (a + (l + [y])) + r + z == (a + l) + ([y] + r + z);
    RemoveSplit(a + l, b, [y] + r + z);
  }

  /** The records `delete_node` touches when `z` has two children and successor `y`. */
  ghost predicate Spliceable(m: Memory, z: int, y: int) {
    z in m && y in m && m[z].FreeBlock? && m[y].FreeBlock? && z != y && z != NIL && y != NIL &&
    var zl, zr, p, yp, yr := m[z].left, m[z].right, m[z].parent, m[y].parent, m[y].right;
    zl in m && m[zl].FreeBlock? && zl != NIL && zl != z && zl != y &&
    zr in m && m[zr].FreeBlock? && zr != NIL && zr != z && zr != zl &&
    (yp == z) == (y == zr) &&
    (yp != z ==> yp in m && m[yp].FreeBlock? && yp != NIL && yp != y && yp != zl && m[yp].left == y) &&
    (yr != NIL ==> yr in m && m[yr].FreeBlock? && yr != z && yr != y && yr != zl && yr != zr && yr != yp) &&
    (p != NIL ==> p in m && m[p].FreeBlock? && p != z && p != y && p != zl && p != zr && p != yp && p != yr)
  }

  /** Memory once the successor `y` has replaced `z`. */
  ghost predicate Spliced(m: Memory, m': Memory, z: int, y: int)
    requires Spliceable(m, z, y)
  {
    var zl, zr, p, yp, yr := m[z].left, m[z].right, m[z].parent, m[y].parent, m[y].right;
    m'.Keys == m.Keys &&
    m'[y] == FreeBlock(m[y].size, p, zl, if yp == z then yr else zr, m[y].subtreeMax, m[z].color) &&
    m'[zl] == m[zl].(parent := y) &&
    (p != NIL ==> m'[p] == if z == m[p].left then m[p].(left := y) else m[p].(right := y)) &&
    (yp != z ==>
      m'[zr] == (if yp == zr then m[zr].(left := yr) else m[zr]).(parent := y) &&
      (yp != zr ==> m'[yp] == m[yp].(left := yr)) &&
      (yr != NIL ==> m'[yr] == m[yr].(parent := yp))) &&
    forall q :: q in m && q != y && q != zl && (q == NIL || q != p) && (yp == z || (q != zr && q != yp && (q == NIL || q != yr)))
      ==> m'[q] == m[q]
  }

  lemma InnerSpliceable(m: Memory, root: int, c: Context, t: Tree)
    requires At(m, root, c, t) && !t.Leaf? && !t.left.Leaf? && !t.right.Leaf?
    ensures var y := MinNode(t.right);
            Spliceable(m, t.addr, y.addr) && m[t.addr].left == t.left.addr && m[t.addr].right == t.right.addr &&
            m[t.addr].parent == ParentPtr(c) && m[t.addr].color == t.color && m[y.addr].color == y.color &&
            m[y.addr].parent == (if t.right.left.Leaf? then t.addr else MinParent(t.right)) &&
            m[y.addr].right == Ptr(y.right) && m[y.addr].size == y.size
    ensures (ParentPtr(c) == NIL) == c.Top?
  {
    WhichChild(m, root, c, t);
    PathBounds(c);
    PathKeysOutside(c);
    assert Ordered(t.left, Lo(c), t.addr) && Ordered(t.right, t.addr, Hi(c));
    assert Rep(m, t.addr, t.left) && Rep(m, t.addr, t.right);
    MinFacts(m, t.addr, t.right, t.addr, Hi(c));
  }

  lemma SplicedAt(m: Memory, m': Memory, root: int, c: Context, t: Tree)
    requires At(m, root, c, t) && !t.Leaf? && !t.left.Leaf? && !t.right.Leaf?
    requires Spliceable(m, t.addr, MinNode(t.right).addr) && Spliced(m, m', t.addr, MinNode(t.right).addr)
    ensures var y, d := MinNode(t.right), Leftmost(Replaced(c, t), t.right).0;
            At(m', if c.Top? then y.addr else root, d, y.right) && y.addr in Spine(d) && !d.Top? &&
            d.addr == (if t.right.left.Leaf? then y.addr else MinParent(t.right))
    ensures Kept(m, m', Inorder(Plug(c, t)))
  {
    InnerSpliceable(m, root, c, t);
    SplicedPath(m, m', root, c, t);
    SplicedKept(m, m', root, c, t);
    var y, b := MinNode(t.right), Replaced(c, t);
    LeftmostIsMin(b, t.right);
    assert y.addr in Spine(b);
    PathBounds(c);
    MinBelow(t.right, t.addr, Hi(c));
    SpliceOrdered(b, t.right, t.addr) by {
      OrderedWiden(t.left, Lo(c), t.addr, Lo(c), y.addr);
    }
    SpliceRoot(b, t.right, Ptr(y.right));
  }

  lemma {:induction false} SpliceRoot(c: Context, t: Tree, p: int)
    requires !t.Leaf? && !c.Top?
    ensures !Leftmost(c, t).0.Top? && RootPtr(Leftmost(c, t).0, p) == RootPtr(c.up, c.addr)
    decreases t
  {
    if t.left.Leaf? {
    } else {
      SpliceRoot(LeftOf(c, t), t.left, p);
    }
  }

  lemma SplicedPath(m: Memory, m': Memory, root: int, c: Context, t: Tree)
    requires At(m, root, c, t) && !t.Leaf? && !t.left.Leaf? && !t.right.Leaf?
    requires Spliceable(m, t.addr, MinNode(t.right).addr) && Spliced(m, m', t.addr, MinNode(t.right).addr)
    ensures var y, d := MinNode(t.right), Leftmost(Replaced(c, t), t.right).0;
            PathRep(m', Ptr(y.right), d) && Rep(m', ParentPtr(d), y.right)
  {
    var y, z, b := MinNode(t.right), t.addr, Replaced(c, t);
    InnerSpliceable(m, root, c, t);
    WhichChild(m, root, c, t);
    PathBounds(c);
    PathKeysOutside(c);
    assert Ordered(t.left, Lo(c), z) && Ordered(t.right, z, Hi(c));
    MinFacts(m, z, t.right, z, Hi(c));
    Reparent(m, m', z, y.addr, t.left, Lo(c), z);
    Rehole(m, m', z, y.addr, c);
    LeftmostIsMin(b, t.right);
    if t.right.left.Leaf? {
      RepFrame(m, m', y.addr, y.right, y.addr, Hi(c));
    } else {
      assert MinSpliced(m, m', y.addr, t.right, z, Hi(c));
      SplicePath(m, m', z, b, t.right, z, Hi(c));
    }
  }

  lemma SplicedKept(m: Memory, m': Memory, root: int, c: Context, t: Tree)
    requires At(m, root, c, t) && !t.Leaf? && !t.left.Leaf? && !t.right.Leaf?
    requires Spliceable(m, t.addr, MinNode(t.right).addr) && Spliced(m, m', t.addr, MinNode(t.right).addr)
    ensures Kept(m, m', Inorder(Plug(c, t)))
    ensures m'[NIL] == m[NIL]
  {
    InnerSpliceable(m, root, c, t);
    OnTree(c, t);
    MinFacts(m, t.addr, t.right, t.addr, Hi(c));
    assert t.left.addr in Keys(t.left) && t.right.addr in Keys(t.right);
    var y := MinNode(t.right);
    assert !y.right.Leaf? ==> y.right.addr in Keys(y.right);
  }
}
