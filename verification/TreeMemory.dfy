/** How the tree of free blocks lies in memory.

`Memory` maps an address to the record stored there: a `FreeBlock` (tree node) or
a `FreeNode` (small-list node).  `Rep` says that memory holds a given subtree with
correct parent links and exact `subtreeMax` fields; `PathRep` and `PathMax` say the
same of the path above a loop position.  All framing is by address intervals. */
module TreeMemory {
  import opened BlockTree

  datatype Cell = FreeBlock(size: nat, parent: int, left: int, right: int, subtreeMax: nat, color: Color)
    | FreeNode(next: int)

  type Memory = map<int, Cell>

  /** The contents of the sentinel `nil_`. */
  const NIL_CELL: Cell := FreeBlock(0, NIL, NIL, NIL, 0, Black)

  predicate Rep(m: Memory, parent: int, t: Tree)
    decreases t
  {
    t.Leaf? ||
    (t.addr in m &&
     m[t.addr] == FreeBlock(t.size, parent, Ptr(t.left), Ptr(t.right), MaxSize(t), t.color) &&
     Rep(m, t.addr, t.left) && Rep(m, t.addr, t.right))
  }

  /** The path above a hole that holds pointer `p`; the path's own `subtreeMax` are free. */
  predicate PathRep(m: Memory, p: int, c: Context)
    decreases c
  {
    match c
    case Top => true
    case InLeft(up, a, s, col, sib) =>
      a in m && m[a].FreeBlock? &&
      m[a] == FreeBlock(s, ParentPtr(up), p, Ptr(sib), m[a].subtreeMax, col) &&
      Rep(m, a, sib) && PathRep(m, a, up)
    case InRight(up, sib, a, s, col) =>
      a in m && m[a].FreeBlock? &&
      m[a] == FreeBlock(s, ParentPtr(up), Ptr(sib), p, m[a].subtreeMax, col) &&
      Rep(m, a, sib) && PathRep(m, a, up)
  }

  /** The largest size under the parent of a hole whose largest size is `k`. */
  function FoldMax(c: Context, k: nat): nat
    requires !c.Top?
  {
    if c.InLeft? then Max(Max(c.size, k), MaxSize(c.sibling))
    else Max(Max(c.size, MaxSize(c.sibling)), k)
  }

  predicate PathMax(m: Memory, k: nat, c: Context)
    decreases c
  {
    c.Top? ||
    (c.addr in m && m[c.addr].FreeBlock? && m[c.addr].subtreeMax == FoldMax(c, k) &&
     PathMax(m, FoldMax(c, k), c.up))
  }

  /** Memory and root pointer hold `t` in the hole of `c`, up to `subtreeMax` on the path. */
  ghost predicate At(m: Memory, root: int, c: Context, t: Tree) {
    NIL in m && m[NIL] == NIL_CELL &&
    root == RootPtr(c, Ptr(t)) &&
    Rep(m, ParentPtr(c), t) && PathRep(m, Ptr(t), c) &&
    Ordered(t, Lo(c), Hi(c)) && PathOrdered(c)
  }

  /** As `At`, and every `subtreeMax` on the path is exact too. */
  ghost predicate Exact(m: Memory, root: int, c: Context, t: Tree) {
    At(m, root, c, t) && PathMax(m, MaxSize(t), c)
  }

  // ------------------------------------------------------------ frames

  predicate Agree(m: Memory, m': Memory, lo: int, hi: int) {
    forall q :: lo < q < hi && q in m ==> q in m' && m'[q] == m[q]
  }

  predicate AgreeOutside(m: Memory, m': Memory, lo: int, hi: int) {
    forall q :: !(lo < q < hi) && q in m ==> q in m' && m'[q] == m[q]
  }

  /** Only records at the addresses `s` may differ. */
  ghost predicate SameOutside(m: Memory, m': Memory, s: set<int>) {
    m.Keys == m'.Keys && forall q :: q in m && q !in s ==> m'[q] == m[q]
  }

  lemma {:induction false} RepFrame(m: Memory, m': Memory, par: int, t: Tree, lo: int, hi: int)
    requires Rep(m, par, t) && Ordered(t, lo, hi) && Agree(m, m', lo, hi)
    ensures Rep(m', par, t)
    decreases t
  {
    if t.Leaf? {
    } else {
      RepFrame(m, m', t.addr, t.left, lo, t.addr);
      RepFrame(m, m', t.addr, t.right, t.addr, hi);
    }
  }

  /** Changing only the parent field of the subtree's root reparents the subtree. */
  lemma Reparent(m: Memory, m': Memory, par: int, par': int, t: Tree, lo: int, hi: int)
    requires Rep(m, par, t) && Ordered(t, lo, hi)
    requires forall q :: lo < q < hi && q in m && q != Ptr(t) ==> q in m' && m'[q] == m[q]
    requires !t.Leaf? ==> t.addr in m' && m'[t.addr] == m[t.addr].(parent := par')
    ensures Rep(m', par', t)
  {
    if !t.Leaf? {
      RepFrame(m, m', t.addr, t.left, lo, t.addr);
      RepFrame(m, m', t.addr, t.right, t.addr, hi);
    }
  }

  lemma {:induction false} PathFrame(m: Memory, m': Memory, p: int, c: Context)
    requires PathRep(m, p, c) && PathOrdered(c) && AgreeOutside(m, m', Lo(c), Hi(c))
    ensures PathRep(m', p, c)
    ensures forall k: nat :: PathMax(m, k, c) ==> PathMax(m', k, c)
    decreases c
  {
    if c.Top? {
    } else {
      match c {
        case InLeft(up, a, _, _, sib) => RepFrame(m, m', a, sib, a, Hi(up));
        case InRight(up, sib, a, _, _) => RepFrame(m, m', a, sib, Lo(up), a);
      }
      PathFrame(m, m', c.addr, c.up);
    }
  }

  /** Child link of the hole's parent, as the code writes it. */
  function Relinked(m: Memory, c: Context, p: int): Cell
    requires !c.Top? && c.addr in m && m[c.addr].FreeBlock?
  {
    if c.InLeft? then m[c.addr].(left := p) else m[c.addr].(right := p)
  }

  /** Redirecting the parent's child link puts another pointer in the hole. */
  lemma Rehole(m: Memory, m': Memory, p: int, p': int, c: Context)
    requires PathRep(m, p, c) && PathOrdered(c)
    requires forall q :: !(Lo(c) < q < Hi(c)) && q in m && q != ParentPtr(c) ==> q in m' && m'[q] == m[q]
    requires !c.Top? ==> c.addr in m' && m'[c.addr] == Relinked(m, c, p')
    ensures PathRep(m', p', c)
    ensures forall k: nat :: PathMax(m, k, c) ==> PathMax(m', k, c)
  {
    if !c.Top? {
      match c {
        case InLeft(up, a, _, _, sib) => RepFrame(m, m', a, sib, a, Hi(up));
        case InRight(up, sib, a, _, _) => RepFrame(m, m', a, sib, Lo(up), a);
      }
      PathFrame(m, m', c.addr, c.up);
    }
  }

  // ------------------------------------------------------------ moving the position

  lemma Up(m: Memory, root: int, c: Context, t: Tree)
    requires At(m, root, c, t) && !c.Top?
    requires m[c.addr].subtreeMax == FoldMax(c, MaxSize(t))
    ensures At(m, root, c.up, Fold(c, t)) && MaxSize(Fold(c, t)) == FoldMax(c, MaxSize(t))
  {}

  function LeftOf(c: Context, t: Tree): Context
    requires !t.Leaf?
  {
    InLeft(c, t.addr, t.size, t.color, t.right)
  }

  function RightOf(c: Context, t: Tree): Context
    requires !t.Leaf?
  {
    InRight(c, t.left, t.addr, t.size, t.color)
  }

  lemma Down(m: Memory, root: int, c: Context, t: Tree)
    requires At(m, root, c, t) && !t.Leaf?
    ensures At(m, root, LeftOf(c, t), t.left) && At(m, root, RightOf(c, t), t.right)
    ensures Exact(m, root, c, t) ==> Exact(m, root, LeftOf(c, t), t.left) && Exact(m, root, RightOf(c, t), t.right)
  {}

  lemma {:induction false} ToRoot(m: Memory, root: int, c: Context, t: Tree)
    requires Exact(m, root, c, t)
    ensures Exact(m, root, Top, Plug(c, t))
    decreases c
  {
    if !c.Top? {
      Up(m, root, c, t);
      ToRoot(m, root, c.up, Fold(c, t));
    }
  }

  lemma {:induction false} FromRoot(m: Memory, root: int, c: Context, t: Tree)
    requires Exact(m, root, Top, Plug(c, t))
    ensures Exact(m, root, c, t)
    decreases c
  {
    if c.Top? {
    } else {
      FromRoot(m, root, c.up, Fold(c, t));
      Down(m, root, c.up, Fold(c, t));
    }
  }

  /** Position on the node with address `a` of a valid tree. */
  lemma GoTo(m: Memory, root: int, t: Tree, a: int) returns (c: Context, u: Tree)
    requires Exact(m, root, Top, t) && a in Keys(t)
    ensures !u.Leaf? && u.addr == a && Plug(c, u) == t && Exact(m, root, c, u)
  {
    LocateFinds(Top, t, a, NULL, LIMIT);
    c, u := Locate(Top, t, a).0, Locate(Top, t, a).1;
    FromRoot(m, root, c, u);
  }

  /** The parent pointer of a position tells which child it is, and whether it is the root. */
  lemma WhichChild(m: Memory, root: int, c: Context, t: Tree)
    requires At(m, root, c, t)
    ensures (ParentPtr(c) == NIL) == c.Top?
    ensures !c.Top? ==> c.addr in m && m[c.addr].FreeBlock? && NULL < c.addr < LIMIT
    ensures !c.Top? && !t.Leaf? ==> (m[c.addr].left == t.addr) == c.InLeft? && (m[c.addr].right == t.addr) == c.InRight?
    ensures !t.Leaf? ==> NULL < t.addr < LIMIT && t.addr in m && m[t.addr].FreeBlock?
    ensures !t.Leaf? ==> (root == t.addr) == c.Top?
  {
    PathBounds(c);
    if !c.Top? {
      PathBounds(c.up);
      RootOnPath(c, Ptr(t));
      PathKeysOutside(c);
      if c.InLeft? { KeysBounded(c.sibling, c.addr, Hi(c.up)); }
      else { KeysBounded(c.sibling, Lo(c.up), c.addr); }
    }
  }

  /** A node's fields describe its children. */
  lemma ChildrenAt(m: Memory, root: int, c: Context, t: Tree)
    requires Exact(m, root, c, t) && !t.Leaf?
    ensures Exact(m, root, LeftOf(c, t), t.left) && Exact(m, root, RightOf(c, t), t.right)
    ensures t.addr in m && m[t.addr].FreeBlock? && m[t.addr].size == t.size
    ensures m[t.addr].left == Ptr(t.left) && m[t.addr].right == Ptr(t.right)
    ensures (Ptr(t.left) == NIL) == t.left.Leaf? && (Ptr(t.right) == NIL) == t.right.Leaf?
    ensures !t.left.Leaf? ==> t.left.addr in m && m[t.left.addr].FreeBlock? && m[t.left.addr].subtreeMax == MaxSize(t.left)
    ensures !t.right.Leaf? ==> t.right.addr in m && m[t.right.addr].FreeBlock? && m[t.right.addr].subtreeMax == MaxSize(t.right)
  {
    Down(m, root, c, t);
    WhichChild(m, root, LeftOf(c, t), t.left);
    WhichChild(m, root, RightOf(c, t), t.right);
  }

  lemma {:induction false} RootOnPath(c: Context, p: int)
    requires !c.Top?
    ensures RootPtr(c, p) in PathKeys(c)
  {
    if c.up.Top? {
    } else {
      RootOnPath(c.up, c.addr);
    }
  }

  // ------------------------------------------------------------ single writes

  lemma Recolored(m: Memory, m': Memory, root: int, c: Context, t: Tree, col: Color)
    requires At(m, root, c, t) && !t.Leaf?
    requires m' == m[t.addr := m[t.addr].(color := col)]
    ensures At(m', root, c, t.(color := col))
    ensures Exact(m, root, c, t) ==> Exact(m', root, c, t.(color := col))
    ensures SameOutside(m, m', {t.addr})
  {
    PathBounds(c);
    RepFrame(m, m', t.addr, t.left, Lo(c), t.addr);
    RepFrame(m, m', t.addr, t.right, t.addr, Hi(c));
    PathFrame(m, m', t.addr, c);
  }

  lemma PathMaxWritten(m: Memory, m': Memory, root: int, c: Context, t: Tree, v: nat)
    requires At(m, root, c, t) && !c.Top?
    requires m' == m[c.addr := m[c.addr].(subtreeMax := v)]
    ensures At(m', root, c, t) && SameOutside(m, m', {c.addr})
  {
    PathBounds(c);
    PathBounds(c.up);
    RepFrame(m, m', c.addr, t, Lo(c), Hi(c));
    match c {
      case InLeft(up, a, _, _, sib) => RepFrame(m, m', a, sib, a, Hi(up));
      case InRight(up, sib, a, _, _) => RepFrame(m, m', a, sib, Lo(up), a);
    }
    PathFrame(m, m', c.addr, c.up);
  }

  // ------------------------------------------------------------ content

  /** Only records of the blocks `s` may differ. */
  ghost predicate Kept(m: Memory, m': Memory, s: seq<Block>) {
    SameOutside(m, m', Addrs(s))
  }

  lemma KeptChain(m: Memory, m': Memory, m'': Memory, s: seq<Block>, s': seq<Block>)
    requires Kept(m, m', s) && Kept(m', m'', s') && Addrs(s') <= Addrs(s)
    ensures Kept(m, m'', s)
  {}

  lemma SameContent(c: Context, t: Tree, t': Tree)
    requires Inorder(t) == Inorder(t')
    ensures Inorder(Plug(c, t)) == Inorder(Plug(c, t'))
  {
    PlugInorder(c, t);
    PlugInorder(c, t');
  }

  lemma OnTree(c: Context, t: Tree)
    ensures Addrs(Inorder(Plug(c, t))) == PathKeys(c) + Keys(t)
  {
    KeysAreAddrs(Plug(c, t));
    PlugKeys(c, t);
  }

  // ------------------------------------------------------------ rotations

  function RotateLeft(t: Tree): (r: Tree)
    requires !t.Leaf? && !t.right.Leaf?
  {
    Node(Node(t.left, t.addr, t.size, t.color, t.right.left),
         t.right.addr, t.right.size, t.right.color, t.right.right)
  }

  function RotateRight(t: Tree): (r: Tree)
    requires !t.Leaf? && !t.left.Leaf?
  {
    Node(t.left.left, t.left.addr, t.left.size, t.left.color,
         Node(t.left.right, t.addr, t.size, t.color, t.right))
  }

  /** Rotations are mutually inverse and keep content, keys, largest size and order. */
  lemma RotateLeftFacts(t: Tree)
    requires !t.Leaf? && !t.right.Leaf?
    ensures RotateRight(RotateLeft(t)) == t
    ensures Inorder(RotateLeft(t)) == Inorder(t) && Keys(RotateLeft(t)) == Keys(t)
    ensures MaxSize(RotateLeft(t)) == MaxSize(t)
    ensures forall lo, hi :: Ordered(t, lo, hi) ==> Ordered(RotateLeft(t), lo, hi)
  {
    RotateLeftContent(t);
    RotateLeftKeys(t);
    forall lo, hi | Ordered(t, lo, hi) ensures Ordered(RotateLeft(t), lo, hi) { RotateLeftOrdered(t, lo, hi); }
  }

  lemma RotateLeftContent(t: Tree)
    requires !t.Leaf? && !t.right.Leaf?
    ensures Inorder(RotateLeft(t)) == Inorder(t)
  {
    var x, y := [Block(t.addr, t.size)], [Block(t.right.addr, t.right.size)];
    Reassociate(Inorder(t.left), x, Inorder(t.right.left), y, Inorder(t.right.right));
    assert Inorder(RotateLeft(t).left) == Inorder(t.left) + x + Inorder(t.right.left);
  }

  lemma Reassociate(a: seq<Block>, x: seq<Block>, b: seq<Block>, y: seq<Block>, c: seq<Block>)
    ensures a + x + (b + y + c) == (a + x + b) + y + c
  {}

  lemma RotateLeftKeys(t: Tree)
    requires !t.Leaf? && !t.right.Leaf?
    ensures Keys(RotateLeft(t)) == Keys(t)
  {
    assert Keys(RotateLeft(t).left) == Keys(t.left) + {t.addr} + Keys(t.right.left);
  }

  lemma RotateLeftOrdered(t: Tree, lo: int, hi: int)
    requires !t.Leaf? && !t.right.Leaf? && Ordered(t, lo, hi)
    ensures Ordered(RotateLeft(t), lo, hi)
  {
    assert Ordered(RotateLeft(t).left, lo, t.right.addr);
  }

  lemma RotateRightFacts(t: Tree)
    requires !t.Leaf? && !t.left.Leaf?
    ensures RotateLeft(RotateRight(t)) == t
    ensures Inorder(RotateRight(t)) == Inorder(t) && Keys(RotateRight(t)) == Keys(t)
    ensures MaxSize(RotateRight(t)) == MaxSize(t)
    ensures forall lo, hi :: Ordered(t, lo, hi) ==> Ordered(RotateRight(t), lo, hi)
  {
    RotateRightContent(t);
    RotateRightKeys(t);
    forall lo, hi | Ordered(t, lo, hi) ensures Ordered(RotateRight(t), lo, hi) { RotateRightOrdered(t, lo, hi); }
  }

  lemma RotateRightContent(t: Tree)
    requires !t.Leaf? && !t.left.Leaf?
    ensures Inorder(RotateRight(t)) == Inorder(t)
  {
    var x, y := [Block(t.addr, t.size)], [Block(t.left.addr, t.left.size)];
    Reassociate(Inorder(t.left.left), y, Inorder(t.left.right), x, Inorder(t.right));
    assert Inorder(RotateRight(t).right) == Inorder(t.left.right) + x + Inorder(t.right);
  }

  lemma RotateRightKeys(t: Tree)
    requires !t.Leaf? && !t.left.Leaf?
    ensures Keys(RotateRight(t)) == Keys(t)
  {
    assert Keys(RotateRight(t).right) == Keys(t.left.right) + {t.addr} + Keys(t.right);
  }

  lemma RotateRightOrdered(t: Tree, lo: int, hi: int)
    requires !t.Leaf? && !t.left.Leaf? && Ordered(t, lo, hi)
    ensures Ordered(RotateRight(t), lo, hi)
  {
    assert Ordered(RotateRight(t).right, t.left.addr, hi);
  }

  /** The pointer writes of a left rotation, record by record. */
  ghost predicate LeftRotated(m: Memory, m': Memory, c: Context, t: Tree)
    requires !t.Leaf? && !t.right.Leaf?
  {
    var x, y, b := t, t.right, t.right.left;
    var mx := Max(Max(x.size, MaxSize(x.left)), MaxSize(b));
    x.addr in m && y.addr in m && m'.Keys == m.Keys &&
    m'[x.addr] == FreeBlock(x.size, y.addr, Ptr(x.left), Ptr(b), mx, x.color) &&
    m'[y.addr] == FreeBlock(y.size, ParentPtr(c), x.addr, Ptr(y.right),
                            Max(Max(y.size, mx), MaxSize(y.right)), y.color) &&
    (!b.Leaf? ==> b.addr in m && m[b.addr].FreeBlock? && m'[b.addr] == m[b.addr].(parent := x.addr)) &&
    (!c.Top? ==> c.addr in m && m[c.addr].FreeBlock? && m'[c.addr] == Relinked(m, c, y.addr)) &&
    forall q :: q in m && q != x.addr && q != y.addr && q != Ptr(b) && q != ParentPtr(c) ==> m'[q] == m[q]
  }

  ghost predicate RightRotated(m: Memory, m': Memory, c: Context, t: Tree)
    requires !t.Leaf? && !t.left.Leaf?
  {
    var x, y, b := t, t.left, t.left.right;
    var mx := Max(Max(x.size, MaxSize(b)), MaxSize(x.right));
    x.addr in m && y.addr in m && m'.Keys == m.Keys &&
    m'[x.addr] == FreeBlock(x.size, y.addr, Ptr(b), Ptr(x.right), mx, x.color) &&
    m'[y.addr] == FreeBlock(y.size, ParentPtr(c), Ptr(y.left), x.addr,
                            Max(Max(y.size, MaxSize(y.left)), mx), y.color) &&
    (!b.Leaf? ==> b.addr in m && m[b.addr].FreeBlock? && m'[b.addr] == m[b.addr].(parent := x.addr)) &&
    (!c.Top? ==> c.addr in m && m[c.addr].FreeBlock? && m'[c.addr] == Relinked(m, c, y.addr)) &&
    forall q :: q in m && q != x.addr && q != y.addr && q != Ptr(b) && q != ParentPtr(c) ==> m'[q] == m[q]
  }

  predicate SentinelKept(m: Memory, m': Memory) {
    NIL in m && m[NIL] == NIL_CELL && NIL in m' && m'[NIL] == NIL_CELL
  }

  lemma LeftRotatedAt(m: Memory, m': Memory, root: int, root': int, c: Context, t: Tree)
    requires At(m, root, c, t) && !t.Leaf? && !t.right.Leaf?
    requires LeftRotated(m, m', c, t) && NIL in m' && m'[NIL] == NIL_CELL
    requires root' == if c.Top? then t.right.addr else root
    ensures At(m', root', c, RotateLeft(t))
    ensures Exact(m, root, c, t) ==> Exact(m', root', c, RotateLeft(t))
    ensures Kept(m, m', Inorder(Plug(c, t)))
    ensures Inorder(Plug(c, RotateLeft(t))) == Inorder(Plug(c, t))
  {
    LeftRotatedRep(m, m', c, t);
    LeftRotatedKept(m, m', c, t);
    RotateLeftFacts(t);
    SameContent(c, t, RotateLeft(t));
    PathBounds(c);
    assert Ordered(t.right, t.addr, Hi(c)) && Ordered(t.right.left, t.addr, t.right.addr);
    Rehole(m, m', t.addr, t.right.addr, c);
  }

  lemma LeftRotatedKept(m: Memory, m': Memory, c: Context, t: Tree)
    requires !t.Leaf? && !t.right.Leaf? && LeftRotated(m, m', c, t) && SentinelKept(m, m')
    ensures Kept(m, m', Inorder(Plug(c, t)))
  {
    OnTree(c, t);
    assert t.right.addr in Keys(t.right) && (!t.right.left.Leaf? ==> t.right.left.addr in Keys(t.right.left));
  }

  lemma LeftRotatedRep(m: Memory, m': Memory, c: Context, t: Tree)
    requires Rep(m, ParentPtr(c), t) && Ordered(t, Lo(c), Hi(c)) && PathOrdered(c) && !t.Leaf? && !t.right.Leaf?
    requires LeftRotated(m, m', c, t) && SentinelKept(m, m')
    ensures Rep(m', ParentPtr(c), RotateLeft(t))
  {
    var x, y := t.addr, t.right.addr;
    PathBounds(c);
    assert Ordered(t.right, x, Hi(c)) && Ordered(t.right.left, x, y) && Rep(m, x, t.right);
    RepFrame(m, m', x, t.left, Lo(c), x);
    RepFrame(m, m', y, t.right.right, y, Hi(c));
    Reparent(m, m', y, x, t.right.left, x, y);
    assert Rep(m', y, RotateLeft(t).left);
  }

  lemma RightRotatedAt(m: Memory, m': Memory, root: int, root': int, c: Context, t: Tree)
    requires At(m, root, c, t) && !t.Leaf? && !t.left.Leaf?
    requires RightRotated(m, m', c, t) && NIL in m' && m'[NIL] == NIL_CELL
    requires root' == if c.Top? then t.left.addr else root
    ensures At(m', root', c, RotateRight(t))
    ensures Exact(m, root, c, t) ==> Exact(m', root', c, RotateRight(t))
    ensures Kept(m, m', Inorder(Plug(c, t)))
    ensures Inorder(Plug(c, RotateRight(t))) == Inorder(Plug(c, t))
  {
    RightRotatedRep(m, m', c, t);
    RightRotatedKept(m, m', c, t);
    RotateRightFacts(t);
    SameContent(c, t, RotateRight(t));
    PathBounds(c);
    assert Ordered(t.left, Lo(c), t.addr) && Ordered(t.left.right, t.left.addr, t.addr);
    Rehole(m, m', t.addr, t.left.addr, c);
  }

  lemma RightRotatedKept(m: Memory, m': Memory, c: Context, t: Tree)
    requires !t.Leaf? && !t.left.Leaf? && RightRotated(m, m', c, t) && SentinelKept(m, m')
    ensures Kept(m, m', Inorder(Plug(c, t)))
  {
    OnTree(c, t);
    assert t.left.addr in Keys(t.left) && (!t.left.right.Leaf? ==> t.left.right.addr in Keys(t.left.right));
  }

  lemma RightRotatedRep(m: Memory, m': Memory, c: Context, t: Tree)
    requires Rep(m, ParentPtr(c), t) && Ordered(t, Lo(c), Hi(c)) && PathOrdered(c) && !t.Leaf? && !t.left.Leaf?
    requires RightRotated(m, m', c, t) && SentinelKept(m, m')
    ensures Rep(m', ParentPtr(c), RotateRight(t))
  {
    var x, y := t.addr, t.left.addr;
    PathBounds(c);
    assert Ordered(t.left, Lo(c), x) && Ordered(t.left.right, y, x) && Rep(m, x, t.left);
    RepFrame(m, m', x, t.right, x, Hi(c));
    RepFrame(m, m', y, t.left.left, Lo(c), y);
    Reparent(m, m', y, x, t.left.right, y, x);
    assert Rep(m', y, RotateRight(t).right);
  }

  // ------------------------------------------------------------ subtreeMax writes

  ghost predicate Linked(m: Memory, x: int) {
    x in m && m[x].FreeBlock? && m[x].left != x && m[x].right != x &&
    (m[x].left != NIL ==> m[x].left in m && m[m[x].left].FreeBlock?) &&
    (m[x].right != NIL ==> m[x].right in m && m[m[x].right].FreeBlock?)
  }

  ghost function ChildrenMax(m: Memory, x: int): nat
    requires Linked(m, x)
  {
    var a := if m[x].left != NIL then Max(m[x].size, m[m[x].left].subtreeMax) else m[x].size;
    if m[x].right != NIL then Max(a, m[m[x].right].subtreeMax) else a
  }

  /** The parent of a position can be updated, and the update computes the exact maximum. */
  lemma ParentLinked(m: Memory, root: int, c: Context, t: Tree)
    requires At(m, root, c, t) && !c.Top?
    ensures Linked(m, c.addr) && ChildrenMax(m, c.addr) == FoldMax(c, MaxSize(t))
  {
    PathBounds(c.up);
    WhichChild(m, root, c, t);
  }

  function Spine(c: Context): set<int> {
    if c.Top? then {} else {c.addr} + Spine(c.up)
  }

  lemma {:induction false} SpineOnPath(c: Context)
    ensures Spine(c) <= PathKeys(c)
  {
    if c.Top? {
    } else {
      SpineOnPath(c.up);
    }
  }

  lemma {:induction false} SpineMaxWritten(m: Memory, m': Memory, p: int, c: Context, a: int, v: nat)
    requires PathRep(m, p, c) && PathOrdered(c) && a in Spine(c) && a in m && m[a].FreeBlock?
    requires m' == m[a := m[a].(subtreeMax := v)]
    ensures PathRep(m', p, c)
    decreases c
  {
    PathBounds(c.up);
    SpineOnPath(c.up);
    PathKeysOutside(c.up);
    match c {
      case InLeft(up, b, _, _, sib) => RepFrame(m, m', b, sib, b, Hi(up));
      case InRight(up, sib, b, _, _) => RepFrame(m, m', b, sib, Lo(up), b);
    }
    if a in Spine(c.up) {
      SpineMaxWritten(m, m', c.addr, c.up, a, v);
    } else {
      PathFrame(m, m', c.addr, c.up);
    }
  }
}
