/** In-order neighbours, first fit and resizing, seen from a position in the tree. */
module Navigation {
  import opened BlockTree
  import opened TreeMemory
  import opened BlockSeq
  import opened Splice
  import opened TreeSteps

  function MaxNode(t: Tree): (y: Tree)
    requires !t.Leaf?
    ensures !y.Leaf? && y.right.Leaf?
  {
    if t.right.Leaf? then t else MaxNode(t.right)
  }

  lemma {:induction false} MinIsFirst(t: Tree)
    requires !t.Leaf?
    ensures Inorder(t) != [] && Inorder(t)[0].addr == MinNode(t).addr
  {
    if t.left.Leaf? {
      assert Inorder(t.left) == [];
    } else {
      MinIsFirst(t.left);
      assert Inorder(t)[0] == Inorder(t.left)[0];
    }
  }

  lemma {:induction false} MaxIsLast(t: Tree)
    requires !t.Leaf?
    ensures Inorder(t) != [] && Inorder(t)[|Inorder(t)| - 1].addr == MaxNode(t).addr
  {
    if t.right.Leaf? {
      assert Inorder(t.right) == [];
    } else {
      MaxIsLast(t.right);
      assert Inorder(t)[|Inorder(t)| - 1] == Inorder(t.right)[|Inorder(t.right)| - 1];
    }
  }

  /** Position on the `i`-th block in address order. */
  lemma Position(m: Memory, root: int, tree: Tree, i: nat) returns (c: Context, t: Tree)
    requires Exact(m, root, Top, tree) && i < |Inorder(tree)|
    ensures Exact(m, root, c, t) && Plug(c, t) == tree && !t.Leaf?
    ensures Block(t.addr, t.size) == Inorder(tree)[i] && i == |Before(c)| + |Inorder(t.left)|
  {
    var s := Inorder(tree);
    KeysAreAddrs(tree);
    assert s[i].addr in Addrs(s);
    c, t := GoTo(m, root, tree, s[i].addr);
    InorderSorted(tree, NULL, LIMIT);
    SelfIndex(c, t);
    var j := |Before(c)| + |Inorder(t.left)|;
    assert s[j].addr == s[i].addr;
  }

  lemma SelfIndex(c: Context, t: Tree)
    requires !t.Leaf?
    ensures var s, j := Inorder(Plug(c, t)), |Before(c)| + |Inorder(t.left)|;
            j < |s| && s[j] == Block(t.addr, t.size) && |s| == j + 1 + |Inorder(t.right)| + |After(c)|
  {
    PlugInorder(c, t);
    assert Inorder(t)[|Inorder(t.left)|] == Block(t.addr, t.size);
  }

  lemma NextInSubtree(c: Context, t: Tree)
    requires !t.Leaf? && Inorder(t.right) != []
    ensures var s, j := Inorder(Plug(c, t)), |Before(c)| + |Inorder(t.left)|;
            j + 1 < |s| && s[j + 1] == Inorder(t.right)[0]
  {
    PlugInorder(c, t);
    assert Inorder(t)[|Inorder(t.left)| + 1] == Inorder(t.right)[0];
  }

  lemma NextOnPath(c: Context, t: Tree)
    requires !t.Leaf? && t.right.Leaf?
    ensures var s, j := Inorder(Plug(c, t)), |Before(c)| + |Inorder(t.left)|;
            |s| == j + 1 + |After(c)| && (After(c) != [] ==> s[j + 1] == After(c)[0])
  {
    PlugInorder(c, t);
    assert Inorder(t.right) == [];
  }

  lemma PrevInSubtree(c: Context, t: Tree)
    requires !t.Leaf? && Inorder(t.left) != []
    ensures var s, j := Inorder(Plug(c, t)), |Before(c)| + |Inorder(t.left)|;
            0 < j < |s| && s[j - 1] == Inorder(t.left)[|Inorder(t.left)| - 1]
  {
    PlugInorder(c, t);
    assert Inorder(t)[|Inorder(t.left)| - 1] == Inorder(t.left)[|Inorder(t.left)| - 1];
  }

  lemma PrevOnPath(c: Context, t: Tree)
    requires !t.Leaf? && t.left.Leaf?
    ensures var s, j := Inorder(Plug(c, t)), |Before(c)| + |Inorder(t.left)|;
            j == |Before(c)| < |s| && (Before(c) != [] ==> s[j - 1] == Before(c)[|Before(c)| - 1])
  {
    PlugInorder(c, t);
    assert Inorder(t.left) == [];
  }

  // ------------------------------------------------------------ first fit

  lemma SmallSubtree(t: Tree, n: nat)
    requires MaxSize(t) < n || t.Leaf?
    ensures forall i :: 0 <= i < |Inorder(t)| ==> Inorder(t)[i].size < n
  {
    MaxSizeIsMaximum(t);
  }

  lemma FoundHere(c: Context, t: Tree, n: nat)
    requires !t.Leaf? && (t.left.Leaf? || MaxSize(t.left) < n) && t.size >= n
    requires forall j :: 0 <= j < |Before(c)| ==> Before(c)[j].size < n
    ensures var s := Inorder(Plug(c, t)); FirstFit(s, n) < |s| && s[FirstFit(s, n)].addr == t.addr
  {
    var s, k := Inorder(Plug(c, t)), |Before(c)| + |Inorder(t.left)|;
    SelfIndex(c, t);
    BeforeSelf(c, t, n);
    assert FirstFit(s, n) == k;
  }

  /** Everything left of the node is too small. */
  lemma BeforeSelf(c: Context, t: Tree, n: nat)
    requires !t.Leaf? && (t.left.Leaf? || MaxSize(t.left) < n)
    requires forall j :: 0 <= j < |Before(c)| ==> Before(c)[j].size < n
    ensures var s, k := Inorder(Plug(c, t)), |Before(c)| + |Inorder(t.left)|;
            k < |s| && forall j :: 0 <= j < k ==> s[j].size < n
  {
    SelfIndex(c, t);
    PlugInorder(c, t);
    SmallSubtree(t.left, n);
    var s, b, l := Inorder(Plug(c, t)), Before(c), Inorder(t.left);
    forall j | 0 <= j < |b| + |l| ensures s[j].size < n {
      if j < |b| { assert s[j] == b[j]; } else { assert s[j] == Inorder(t)[j - |b|] == l[j - |b|]; }
    }
  }

  lemma PassedOver(c: Context, t: Tree, n: nat)
    requires !t.Leaf? && (t.left.Leaf? || MaxSize(t.left) < n) && t.size < n
    requires forall j :: 0 <= j < |Before(c)| ==> Before(c)[j].size < n
    ensures var b := Before(RightOf(c, t)); forall j :: 0 <= j < |b| ==> b[j].size < n
  {
    SmallSubtree(t.left, n);
    var b, l := Before(c), Inorder(t.left);
    assert Before(RightOf(c, t)) == b + (l + [Block(t.addr, t.size)]);
  }

  lemma NotHere(c: Context, t: Tree, n: nat)
    requires c.Top? || (!t.Leaf? && MaxSize(t) >= n)
    requires t.Leaf? || ((t.left.Leaf? || MaxSize(t.left) < n) && t.size < n && (t.right.Leaf? || MaxSize(t.right) < n))
    ensures FirstFit(Inorder(Plug(c, t)), n) == |Inorder(Plug(c, t))|
  {
    if !t.Leaf? {
      assert MaxSize(t) < n;
      SmallSubtree(t, n);
    }
  }

  // ------------------------------------------------------------ resizing

  lemma Resized(m: Memory, m': Memory, root: int, c: Context, t: Tree, n: nat)
    requires Exact(m, root, c, t) && !t.Leaf? && m' == m[t.addr := m[t.addr].(size := n)]
    ensures var u := t.(size := n); At(m', root, LeftOf(c, u), u.left)
  {
    Down(m, root, c, t);
    PathBounds(c);
    RepFrame(m, m', t.addr, t.left, Lo(c), t.addr);
    RepFrame(m, m', t.addr, t.right, t.addr, Hi(c));
    PathFrame(m, m', t.addr, c);
  }

  /** Resizing changes one size and neither colours nor shape. */
  lemma ResizedTree(c: Context, t: Tree, n: nat)
    requires !t.Leaf? && RedBlack(Plug(c, t))
    ensures var u, s, i := t.(size := n), Inorder(Plug(c, t)), |Before(c)| + |Inorder(t.left)|;
            RedBlack(Plug(c, u)) && i < |s| && Inorder(Plug(c, u)) == s[i := Block(t.addr, n)]
    ensures Addrs(Inorder(Plug(c, t.(size := n)))) == Addrs(Inorder(Plug(c, t)))
    ensures t.addr in Addrs(Inorder(Plug(c, t)))
  {
    var u := t.(size := n);
    UnplugRedBlack(c, t);
    PlugRedBlack(c, u);
    OnTree(c, t);
    OnTree(c, u);
    SelfIndex(c, t);
    ResizedContent(c, t, n);
  }

  lemma ResizedContent(c: Context, t: Tree, n: nat)
    requires !t.Leaf?
    ensures var u, s, i := t.(size := n), Inorder(Plug(c, t)), |Before(c)| + |Inorder(t.left)|;
            i < |s| && Inorder(Plug(c, u)) == s[i := Block(t.addr, n)]
  {
    var u := t.(size := n);
    PlugInorder(c, t);
    PlugInorder(c, u);
    UpdateMiddle(Before(c), Inorder(t.left), Block(t.addr, t.size), Block(t.addr, n), Inorder(t.right), After(c));
  }

  lemma UpdateMiddle(a: seq<Block>, l: seq<Block>, b: Block, b': Block, r: seq<Block>, z: seq<Block>)
    ensures |a| + |l| < |a + (l + [b] + r) + z|
    ensures (a + (l + [b] + r) + z)[|a| + |l| := b'] == a + (l + [b'] + r) + z
  {}
}
