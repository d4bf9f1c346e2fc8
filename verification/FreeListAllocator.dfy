module FreeList {
  import opened BlockTree
  import opened TreeMemory
  import opened BlockSeq
  import opened Fixup
  import opened Splice
  import opened TreeSteps
  import opened Navigation
  import opened HeapModel
  import opened HeapInvariant
  import opened HeapTheorems
  import opened Coupling

  class FreeListAllocator {
    const base: int
    const size: nat
    var mem: Memory
    var root: int
    const freeLists: array<int>
    var used: int
    var freeBlocks: int
    ghost var tree: Tree
    ghost var heap: Heap

    /** The object implements the heap `heap`: tree, chains and counters agree with it. */
    ghost predicate Valid()
      reads this, freeLists
    {
      Inv(heap) && heap.base == base && heap.cap == size &&
      used == heap.used && freeBlocks == heap.freeBlocks &&
      Coherent(heap.lists, TreeBlocks(heap.segs))
    }

    /** Tree and chains hold the given blocks; the counters are not involved. */
    ghost predicate Coherent(lists: seq<seq<int>>, content: seq<Block>)
      reads this`mem, this`root, this`tree, freeLists
    {
      TreeValid() && Inorder(tree) == content &&
      freeLists.Length == CLASSES && Chains(mem, freeLists[..], lists) && Separate(lists, content) &&
      OnlyNodes(mem, lists, content)
    }

    // ---------------------------------------------------------- tree primitives

    method UpdateMax(x: int)
      requires x != NIL ==> Linked(mem, x)
      modifies this`mem
      ensures x == NIL ==> mem == old(mem)
      ensures x != NIL ==> mem == old(mem)[x := old(mem)[x].(subtreeMax := ChildrenMax(old(mem), x))]
    {
      if x == NIL { return; }
      var l, r := mem[x].left, mem[x].right;
      mem := mem[x := mem[x].(subtreeMax := mem[x].size)];
      if l != NIL {
        mem := mem[x := mem[x].(subtreeMax := Max(mem[x].subtreeMax, mem[l].subtreeMax))];
      }
      if r != NIL {
        mem := mem[x := mem[x].(subtreeMax := Max(mem[x].subtreeMax, mem[r].subtreeMax))];
      }
    }

    method UpdateMaxUpwards(x: int, ghost c: Context, ghost t: Tree)
      requires At(mem, root, c, t) && x == ParentPtr(c)
      modifies this`mem
      ensures Exact(mem, root, c, t)
      ensures Kept(old(mem), mem, Inorder(Plug(c, t)))
    {
      var p := x;
      ghost var d, u := c, t;
      WhichChild(mem, root, c, t);
      while p != NIL
        invariant At(mem, root, d, u) && p == ParentPtr(d) && Plug(d, u) == Plug(c, t)
        invariant (p == NIL) == d.Top?
        invariant Kept(old(mem), mem, Inorder(Plug(c, t)))
        decreases Depth(d)
      {
        ParentLinked(mem, root, d, u);
        ghost var m := mem;
        UpdateMax(p);
        PathMaxWritten(m, mem, root, d, u, FoldMax(d, MaxSize(u)));
        OnTree(d, u);
        Up(mem, root, d, u);
        p := mem[p].parent;
        d, u := d.up, Fold(d, u);
        WhichChild(mem, root, d, u);
      }
      FromRoot(mem, root, c, t);
    }

    method SetColor(x: int, col: Color, ghost c: Context, ghost t: Tree)
      requires Exact(mem, root, c, t) && !t.Leaf? && x == t.addr
      modifies this`mem
      ensures Exact(mem, root, c, t.(color := col))
      ensures Kept(old(mem), mem, Inorder(Plug(c, t)))
      ensures Inorder(Plug(c, t.(color := col))) == Inorder(Plug(c, t))
    {
      mem := mem[x := mem[x].(color := col)];
      Recolored(old(mem), mem, root, c, t, col);
      OnTree(c, t);
      SameContent(c, t, t.(color := col));
    }

    /** The relinking of `LeftRotate`, up to the copy of `subtree_max`. */
    method LinkLeftRotation(x: int)
      requires RotatableLeft(mem, x)
      modifies this`mem, this`root
      ensures RelinkedLeft(old(mem), mem, x)
      ensures root == if old(mem)[x].parent == NIL then old(mem)[x].right else old(root)
    {
      var y, p := mem[x].right, mem[x].parent;
      var b := mem[y].left;
      mem := mem[x := mem[x].(right := b)];
      if b != NIL {
        mem := mem[b := mem[b].(parent := x)];
      }
      mem := mem[y := mem[y].(parent := p)];
      if p == NIL {
        root := y;
      } else if x == mem[p].left {
        mem := mem[p := mem[p].(left := y)];
      } else {
        mem := mem[p := mem[p].(right := y)];
      }
      mem := mem[y := mem[y].(left := x)];
      mem := mem[x := mem[x].(parent := y)];
      mem := mem[y := mem[y].(subtreeMax := mem[x].subtreeMax)];
    }

    method LeftRotate(x: int, ghost c: Context, ghost t: Tree)
      requires Exact(mem, root, c, t) && !t.Leaf? && !t.right.Leaf? && x == t.addr
      modifies this`mem, this`root
      ensures Exact(mem, root, c, RotateLeft(t))
      ensures Kept(old(mem), mem, Inorder(Plug(c, t)))
      ensures Inorder(Plug(c, RotateLeft(t))) == Inorder(Plug(c, t))
    {
      ghost var m := mem;
      RotationSetting(m, root, c, t);
      var y := mem[x].right;
      LinkLeftRotation(x);
      CompleteLeftRotation(m, mem, old(root), c, t);
      UpdateMax(x);
      UpdateMax(y);
      LeftRotatedAt(m, mem, old(root), root, c, t);
    }

    /** The relinking of `RightRotate`, up to the copy of `subtree_max`. */
    method LinkRightRotation(x: int)
      requires RotatableRight(mem, x)
      modifies this`mem, this`root
      ensures RelinkedRight(old(mem), mem, x)
      ensures root == if old(mem)[x].parent == NIL then old(mem)[x].left else old(root)
    {
      var y, p := mem[x].left, mem[x].parent;
      var b := mem[y].right;
      mem := mem[x := mem[x].(left := b)];
      if b != NIL {
        mem := mem[b := mem[b].(parent := x)];
      }
      mem := mem[y := mem[y].(parent := p)];
      if p == NIL {
        root := y;
      } else if x == mem[p].right {
        mem := mem[p := mem[p].(right := y)];
      } else {
        mem := mem[p := mem[p].(left := y)];
      }
      mem := mem[y := mem[y].(right := x)];
      mem := mem[x := mem[x].(parent := y)];
      mem := mem[y := mem[y].(subtreeMax := mem[x].subtreeMax)];
    }

    method RightRotate(x: int, ghost c: Context, ghost t: Tree)
      requires Exact(mem, root, c, t) && !t.Leaf? && !t.left.Leaf? && x == t.addr
      modifies this`mem, this`root
      ensures Exact(mem, root, c, RotateRight(t))
      ensures Kept(old(mem), mem, Inorder(Plug(c, t)))
      ensures Inorder(Plug(c, RotateRight(t))) == Inorder(Plug(c, t))
    {
      ghost var m := mem;
      RotationSetting(m, root, c, t);
      var y := mem[x].left;
      LinkRightRotation(x);
      CompleteRightRotation(m, mem, old(root), c, t);
      UpdateMax(x);
      UpdateMax(y);
      RightRotatedAt(m, mem, old(root), root, c, t);
    }

    // ---------------------------------------------------------- insertion

    method RbInsertFixup(z0: int, ghost c0: Context, ghost t0: Tree) returns (ghost result: Tree)
      requires Exact(mem, root, c0, t0) && InsertOpen(c0, t0) && z0 == t0.addr
      modifies this`mem, this`root
      ensures Exact(mem, root, Top, result) && RedBlack(result)
      ensures Inorder(result) == Inorder(Plug(c0, t0))
      ensures Kept(old(mem), mem, Inorder(result))
    {
      var z := z0;
      ghost var c, t := c0, t0;
      ghost var content := Inorder(Plug(c0, t0));
      InsertPointers(mem, root, c, t);
      while mem[mem[z].parent].color == Red
        invariant Exact(mem, root, c, t) && InsertOpen(c, t) && z == t.addr
        invariant InsertReady(mem, c, t)
        invariant Inorder(Plug(c, t)) == content && Kept(old(mem), mem, content)
        decreases Depth(c)
      {
        InsertFamily(c, t);
        InsertPointers(mem, root, c, t);
        var p := mem[z].parent;
        var g := mem[p].parent;
        if p == mem[g].left {
          var y := mem[g].right;
          if mem[y].color == Red {
            c, t := RecolorRedUncle(p, y, g, c, t);
            z := g;
          } else {
            z, c, t := RotateUnderLeft(z, c, t);
          }
        } else {
          var y := mem[g].left;
          if mem[y].color == Red {
            c, t := RecolorRedUncle(p, y, g, c, t);
            z := g;
          } else {
            z, c, t := RotateUnderRight(z, c, t);
          }
        }
        InsertPointers(mem, root, c, t);
      }
      InsertDone(c, t);
      ToRoot(mem, root, c, t);
      result := Plug(c, t);
      PlugPtr(c, t);
      SetColor(root, Black, Top, result);
      result := Blacken(result);
    }

    /** Parent and uncle turn black, grandparent red; the position moves to the grandparent. */
    method RecolorRedUncle(p: int, y: int, g: int, ghost c: Context, ghost t: Tree) returns (ghost c': Context, ghost t': Tree)
      requires Exact(mem, root, c, t) && InsertOpen(c, t) && PathColor(c) == Red && !c.up.Top?
      requires p == c.addr && g == c.up.addr && y == Ptr(c.up.sibling) && ColorOf(c.up.sibling) == Red
      modifies this`mem
      ensures c' == c.up.up && t' == RecolorFamily(c, t) && t'.addr == g
      ensures Exact(mem, root, c', t') && InsertOpen(c', t')
      ensures Inorder(Plug(c', t')) == Inorder(Plug(c, t))
      ensures Kept(old(mem), mem, Inorder(Plug(c, t)))
    {
      ghost var par := Fold(c, t);
      UpExact(mem, root, c, t);
      SetColor(p, Black, c.up, par);
      par := par.(color := Black);
      ghost var grand := Fold(c.up, par);
      UpExact(mem, root, c.up, par);
      Down(mem, root, c.up.up, grand);
      ghost var uc := if c.up.InLeft? then RightOf(c.up.up, grand) else LeftOf(c.up.up, grand);
      SetColor(y, Black, uc, c.up.sibling);
      UpExact(mem, root, uc, c.up.sibling.(color := Black));
      grand := Fold(uc, c.up.sibling.(color := Black));
      SetColor(g, Red, c.up.up, grand);
      InsertRecolor(c, t);
      c', t' := c.up.up, RecolorFamily(c, t);
    }

    /** Parent black, grandparent red, before the closing rotation. */
    method PaintParents(p: int, g: int, ghost c: Context, ghost t: Tree)
      requires Exact(mem, root, c, t) && !c.Top? && !c.up.Top? && p == c.addr && g == c.up.addr
      modifies this`mem
      ensures Exact(mem, root, c.up.up, Fold(WithColor(c.up, Red), Fold(WithColor(c, Black), t)))
      ensures Inorder(Plug(c.up.up, Fold(WithColor(c.up, Red), Fold(WithColor(c, Black), t)))) == Inorder(Plug(c, t))
      ensures Kept(old(mem), mem, Inorder(Plug(c, t)))
    {
      ghost var par := Fold(c, t);
      UpExact(mem, root, c, t);
      SetColor(p, Black, c.up, par);
      par := par.(color := Black);
      UpExact(mem, root, c.up, par);
      SetColor(g, Red, c.up.up, Fold(c.up, par));
    }

    /** Black uncle, parent a left child: at most two rotations close the gap. */
    method RotateUnderLeft(z0: int, ghost c0: Context, ghost t0: Tree) returns (z: int, ghost c: Context, ghost t: Tree)
      requires Exact(mem, root, c0, t0) && InsertOpen(c0, t0) && z0 == t0.addr && PathColor(c0) == Red
      requires !c0.up.Top? && c0.up.InLeft? && ColorOf(c0.up.sibling) == Black
      modifies this`mem, this`root
      ensures Exact(mem, root, c, t) && InsertOpen(c, t) && z == t.addr
      ensures Depth(c) < Depth(c0)
      ensures Inorder(Plug(c, t)) == Inorder(Plug(c0, t0))
      ensures Kept(old(mem), mem, Inorder(Plug(c0, t0)))
    {
      z, c, t := z0, c0, t0;
      InsertPointers(mem, root, c, t);
      if z == mem[mem[z].parent].right {
        z := mem[z].parent;
        UpExact(mem, root, c, t);
        LeftRotate(z, c.up, Fold(c, t));
        InsertTurn(c, t);
        Down(mem, root, c.up, RotateLeft(Fold(c, t)));
        c, t := InLeft(c.up, t.addr, t.size, Red, t.right), Node(c.sibling, c.addr, c.size, Red, t.left);
      }
      InsertPointers(mem, root, c, t);
      InsertClose(c, t);
      var p := mem[z].parent;
      var g := mem[p].parent;
      PaintParents(p, g, c, t);
      ghost var grand := Node(Node(t, c.addr, c.size, Black, c.sibling), c.up.addr, c.up.size, Red, c.up.sibling);
      RightRotate(g, c.up.up, grand);
      Down(mem, root, c.up.up, RotateRight(grand));
      c := InLeft(c.up.up, c.addr, c.size, Black, grand.(left := c.sibling));
    }

    /** Black uncle, parent a right child: at most two rotations close the gap. */
    method RotateUnderRight(z0: int, ghost c0: Context, ghost t0: Tree) returns (z: int, ghost c: Context, ghost t: Tree)
      requires Exact(mem, root, c0, t0) && InsertOpen(c0, t0) && z0 == t0.addr && PathColor(c0) == Red
      requires !c0.up.Top? && c0.up.InRight? && ColorOf(c0.up.sibling) == Black
      modifies this`mem, this`root
      ensures Exact(mem, root, c, t) && InsertOpen(c, t) && z == t.addr
      ensures Depth(c) < Depth(c0)
      ensures Inorder(Plug(c, t)) == Inorder(Plug(c0, t0))
      ensures Kept(old(mem), mem, Inorder(Plug(c0, t0)))
    {
      z, c, t := z0, c0, t0;
      InsertPointers(mem, root, c, t);
      if z == mem[mem[z].parent].left {
        z := mem[z].parent;
        UpExact(mem, root, c, t);
        RightRotate(z, c.up, Fold(c, t));
        InsertTurn(c, t);
        Down(mem, root, c.up, RotateRight(Fold(c, t)));
        c, t := InRight(c.up, t.left, t.addr, t.size, Red), Node(t.right, c.addr, c.size, Red, c.sibling);
      }
      InsertPointers(mem, root, c, t);
      InsertClose(c, t);
      var p := mem[z].parent;
      var g := mem[p].parent;
      PaintParents(p, g, c, t);
      ghost var grand := Node(c.up.sibling, c.up.addr, c.up.size, Red, Node(c.sibling, c.addr, c.size, Black, t));
      LeftRotate(g, c.up.up, grand);
      Down(mem, root, c.up.up, RotateLeft(grand));
      c := InRight(c.up.up, grand.(right := c.sibling), c.addr, c.size, Black);
    }

    ghost predicate TreeValid()
      reads this`mem, this`root, this`tree
    {
      Exact(mem, root, Top, tree) && RedBlack(tree)
    }

    /** Descend to the leaf where address `z` belongs; `y` is its parent. */
    method InsertionPoint(z: int) returns (y: int, ghost c: Context, ghost steps: nat)
      requires TreeValid() && NULL < z < LIMIT && z !in Addrs(Inorder(tree))
      ensures Exact(mem, root, c, Leaf) && Plug(c, Leaf) == tree
      ensures y == ParentPtr(c) && Lo(c) < z < Hi(c)
      ensures steps <= 2 * Log2(|Inorder(tree)| + 1)
    {
      var x := root;
      ghost var t := tree;
      y, c := NIL, Top;
      steps := 0;
      KeysAreAddrs(tree);
      while x != NIL
        invariant Exact(mem, root, c, t) && x == Ptr(t) && (x == NIL) == t.Leaf? && y == ParentPtr(c)
        invariant Plug(c, t) == tree && Lo(c) < z < Hi(c) && z !in Keys(t)
        invariant steps + Height(t) <= Height(tree)
        decreases t
      {
        Down(mem, root, c, t);
        WhichChild(mem, root, c, t);
        y := x;
        if z < x {
          x := mem[x].left;
          c, t := LeftOf(c, t), t.left;
        } else {
          x := mem[x].right;
          c, t := RightOf(c, t), t.right;
        }
        WhichChild(mem, root, c, t);
        steps := steps + 1;
      }
      HeightBound(tree);
      CountIsLength(tree);
    }

    method LinkLeaf(z: int, y: int, ghost c: Context)
      requires At(mem, root, c, Leaf) && Lo(c) < z < Hi(c) && z in mem && mem[z].FreeBlock? && y == ParentPtr(c)
      modifies this`mem, this`root
      ensures At(mem, root, c, Node(Leaf, z, old(mem[z].size), Red, Leaf))
      ensures Kept(old(mem), mem, Inorder(Plug(c, Node(Leaf, z, old(mem[z].size), Red, Leaf))))
    {
      PathBounds(c);
      PathKeysOutside(c);
      WhichChild(mem, root, c, Leaf);
      mem := mem[z := mem[z].(parent := y)];
      if y == NIL {
        root := z;
      } else if z < y {
        mem := mem[y := mem[y].(left := z)];
      } else {
        mem := mem[y := mem[y].(right := z)];
      }
      mem := mem[z := mem[z].(left := NIL, right := NIL, color := Red, subtreeMax := mem[z].size)];
      LeafLinked(old(mem), mem, old(root), root, c, z, old(mem[z].size));
    }

    /** Insert the block whose record the caller has written at `z`. */
    method InsertNode(z: int) returns (ghost steps: nat)
      requires TreeValid()
      requires NULL < z < LIMIT && z % 16 == 0 && z in mem && mem[z].FreeBlock? && z !in Addrs(Inorder(tree))
      requires 0 < mem[z].size <= MAX_BLOCK
      modifies this`mem, this`root, this`tree
      ensures TreeValid()
      ensures Inorder(tree) == InsertBlock(old(Inorder(tree)), Block(z, old(mem[z].size)))
      ensures Kept(old(mem), mem, Inorder(tree))
      ensures steps <= 2 * Log2(|old(Inorder(tree))| + 1)
    {
      if mem[z].size > 1024 * 1024 * 1024 || mem[z].size == 0 {
        assert false;
      }
      if z % 16 != 0 {
        assert false;
      }
      var y;
      ghost var c;
      y, c, steps := InsertionPoint(z);
      ghost var node := Node(Leaf, z, mem[z].size, Red, Leaf);
      LinkLeaf(z, y, c);
      Down(mem, root, c, node);
      UpdateMaxUpwards(z, LeftOf(c, node), Leaf);
      UpExact(mem, root, LeftOf(c, node), Leaf);
      LeafContent(c, node, tree);
      tree := RbInsertFixup(z, c, node);
    }

    // ---------------------------------------------------------- deletion

    method SetParentColor(p: int, col: Color, ghost c: Context, ghost t: Tree)
      requires Exact(mem, root, c, t) && !c.Top? && p == c.addr
      modifies this`mem
      ensures Exact(mem, root, WithColor(c, col), t)
      ensures Inorder(Plug(WithColor(c, col), t)) == Inorder(Plug(c, t))
      ensures Kept(old(mem), mem, Inorder(Plug(c, t)))
    {
      UpExact(mem, root, c, t);
      SetColor(p, col, c.up, Fold(c, t));
      Down(mem, root, c.up, Fold(WithColor(c, col), t));
    }

    method SetSiblingColor(w: int, col: Color, ghost c: Context, ghost t: Tree)
      requires Exact(mem, root, c, t) && !c.Top? && !c.sibling.Leaf? && w == c.sibling.addr
      modifies this`mem
      ensures Exact(mem, root, WithSibling(c, c.sibling.(color := col)), t)
      ensures Inorder(Plug(WithSibling(c, c.sibling.(color := col)), t)) == Inorder(Plug(c, t))
      ensures Kept(old(mem), mem, Inorder(Plug(c, t)))
    {
      UpExact(mem, root, c, t);
      Down(mem, root, c.up, Fold(c, t));
      SetColor(w, col, SiblingPos(c, t), c.sibling);
      UpExact(mem, root, SiblingPos(c, t), c.sibling.(color := col));
      Down(mem, root, c.up, Fold(WithSibling(c, c.sibling.(color := col)), t));
    }

    /** Red sibling of a left child: make it black and rotate it above the parent. */
    method LowerRedSiblingLeft(w: int, p: int, ghost c: Context, ghost t: Tree)
      requires Exact(mem, root, c, t) && DeleteOpen(c, t) && c.InLeft? && ColorOf(c.sibling) == Red
      requires w == Ptr(c.sibling) && p == c.addr
      modifies this`mem, this`root
      ensures Exact(mem, root, AfterRedSibling(c), t)
      ensures Inorder(Plug(AfterRedSibling(c), t)) == Inorder(Plug(c, t))
      ensures Kept(old(mem), mem, Inorder(Plug(c, t)))
    {
      ghost var c1 := WithSibling(c, c.sibling.(color := Black));
      SetSiblingColor(w, Black, c, t);
      SetParentColor(p, Red, c1, t);
      ghost var c2 := WithColor(c1, Red);
      UpExact(mem, root, c2, t);
      LeftRotate(p, c.up, Fold(c2, t));
      ghost var top := RotateLeft(Fold(c2, t));
      Down(mem, root, c.up, top);
      Down(mem, root, LeftOf(c.up, top), top.left);
      assert LeftOf(LeftOf(c.up, top), top.left) == AfterRedSibling(c);
    }

    /** Only the near nephew is red: turn the sibling so that the far one is. */
    method TurnSiblingLeft(n: int, w: int, ghost c: Context, ghost t: Tree) returns (ghost c': Context)
      requires Exact(mem, root, c, t) && DeleteOpen(c, t) && c.InLeft? && !c.sibling.Leaf? && ColorOf(c.sibling) == Black
      requires ColorOf(c.sibling.left) == Red && ColorOf(c.sibling.right) == Black
      requires w == c.sibling.addr && n == c.sibling.left.addr
      modifies this`mem, this`root
      ensures Exact(mem, root, c', t) && DeleteOpen(c', t)
      ensures c'.InLeft? && c'.up == c.up && c'.addr == c.addr
      ensures !c'.sibling.Leaf? && ColorOf(c'.sibling) == Black && ColorOf(c'.sibling.right) == Red
      ensures Inorder(Plug(c', t)) == Inorder(Plug(c, t))
      ensures Kept(old(mem), mem, Inorder(Plug(c, t)))
    {
      ghost var s := c.sibling.(left := c.sibling.left.(color := Black));
      SetNephewColorLeft(n, c, t);
      SetSiblingColor(w, Red, WithSibling(c, s), t);
      s := s.(color := Red);
      ghost var c1 := WithSibling(c, s);
      UpExact(mem, root, c1, t);
      Down(mem, root, c.up, Fold(c1, t));
      RightRotate(w, SiblingPos(c1, t), s);
      UpExact(mem, root, SiblingPos(c1, t), RotateRight(s));
      c' := WithSibling(c, RotateRight(s));
      Down(mem, root, c.up, Fold(c', t));
      DeleteTurn(c, t);
    }

    method SetNephewColorLeft(n: int, ghost c: Context, ghost t: Tree)
      requires Exact(mem, root, c, t) && c.InLeft? && !c.sibling.Leaf? && !c.sibling.left.Leaf?
      requires n == c.sibling.left.addr
      modifies this`mem
      ensures Exact(mem, root, WithSibling(c, c.sibling.(left := c.sibling.left.(color := Black))), t)
      ensures Inorder(Plug(WithSibling(c, c.sibling.(left := c.sibling.left.(color := Black))), t)) == Inorder(Plug(c, t))
      ensures Kept(old(mem), mem, Inorder(Plug(c, t)))
    {
      ghost var w := c.sibling;
      UpExact(mem, root, c, t);
      Down(mem, root, c.up, Fold(c, t));
      ghost var sp := SiblingPos(c, t);
      Down(mem, root, sp, w);
      ghost var np := LeftOf(sp, w);
      SetColor(n, Black, np, w.left);
      UpExact(mem, root, np, w.left.(color := Black));
      ghost var w' := w.(left := w.left.(color := Black));
      UpExact(mem, root, sp, w');
      Down(mem, root, c.up, Fold(WithSibling(c, w'), t));
    }

    /** The far nephew is red: the last recolouring and rotation. */
    method CloseGapLeft(w: int, p: int, n: int, ghost c: Context, ghost t: Tree) returns (ghost result: Tree)
      requires Exact(mem, root, c, t) && DeleteOpen(c, t) && c.InLeft? && ColorOf(t) == Black
      requires !c.sibling.Leaf? && ColorOf(c.sibling) == Black && ColorOf(c.sibling.right) == Red
      requires w == c.sibling.addr && p == c.addr && n == c.sibling.right.addr
      modifies this`mem, this`root
      ensures Exact(mem, root, Top, result) && DeleteOpen(Top, result) && ColorOf(result) == Black && !result.Leaf?
      ensures Inorder(result) == Inorder(Plug(c, t))
      ensures Kept(old(mem), mem, Inorder(Plug(c, t)))
    {
      DeleteClose(c, t);
      SetSiblingColor(w, mem[p].color, c, t);
      ghost var c1 := WithSibling(c, c.sibling.(color := c.color));
      SetParentColor(p, Black, c1, t);
      ghost var c2 := WithColor(c1, Black);
      UpExact(mem, root, c2, t);
      ghost var s, top := c2.sibling, Fold(c2, t);
      Down(mem, root, c.up, top);
      Down(mem, root, SiblingPos(c2, t), s);
      ghost var np := RightOf(SiblingPos(c2, t), s);
      SetColor(n, Black, np, s.right);
      UpExact(mem, root, np, s.right.(color := Black));
      s := s.(right := s.right.(color := Black));
      UpExact(mem, root, SiblingPos(c2, t), s);
      top := Fold(WithSibling(c2, s), t);
      LeftRotate(p, c.up, top);
      assert RotateLeft(top) == Closed(c, t);
      ToRoot(mem, root, c.up, Closed(c, t));
      result := Plug(c.up, Closed(c, t));
      PlugPtr(c.up, Closed(c, t));
    }

    /** Red sibling of a right child: make it black and rotate it above the parent. */
    method LowerRedSiblingRight(w: int, p: int, ghost c: Context, ghost t: Tree)
      requires Exact(mem, root, c, t) && DeleteOpen(c, t) && c.InRight? && ColorOf(c.sibling) == Red
      requires w == Ptr(c.sibling) && p == c.addr
      modifies this`mem, this`root
      ensures Exact(mem, root, AfterRedSibling(c), t)
      ensures Inorder(Plug(AfterRedSibling(c), t)) == Inorder(Plug(c, t))
      ensures Kept(old(mem), mem, Inorder(Plug(c, t)))
    {
      ghost var c1 := WithSibling(c, c.sibling.(color := Black));
      SetSiblingColor(w, Black, c, t);
      SetParentColor(p, Red, c1, t);
      ghost var c2 := WithColor(c1, Red);
      UpExact(mem, root, c2, t);
      RightRotate(p, c.up, Fold(c2, t));
      ghost var top := RotateRight(Fold(c2, t));
      Down(mem, root, c.up, top);
      Down(mem, root, RightOf(c.up, top), top.right);
      assert RightOf(RightOf(c.up, top), top.right) == AfterRedSibling(c);
    }

    /** Only the near nephew is red: turn the sibling so that the far one is. */
    method TurnSiblingRight(n: int, w: int, ghost c: Context, ghost t: Tree) returns (ghost c': Context)
      requires Exact(mem, root, c, t) && DeleteOpen(c, t) && c.InRight? && !c.sibling.Leaf? && ColorOf(c.sibling) == Black
      requires ColorOf(c.sibling.right) == Red && ColorOf(c.sibling.left) == Black
      requires w == c.sibling.addr && n == c.sibling.right.addr
      modifies this`mem, this`root
      ensures Exact(mem, root, c', t) && DeleteOpen(c', t)
      ensures c'.InRight? && c'.up == c.up && c'.addr == c.addr
      ensures !c'.sibling.Leaf? && ColorOf(c'.sibling) == Black && ColorOf(c'.sibling.left) == Red
      ensures Inorder(Plug(c', t)) == Inorder(Plug(c, t))
      ensures Kept(old(mem), mem, Inorder(Plug(c, t)))
    {
      ghost var s := c.sibling.(right := c.sibling.right.(color := Black));
      SetNephewColorRight(n, c, t);
      SetSiblingColor(w, Red, WithSibling(c, s), t);
      s := s.(color := Red);
      ghost var c1 := WithSibling(c, s);
      UpExact(mem, root, c1, t);
      Down(mem, root, c.up, Fold(c1, t));
      LeftRotate(w, SiblingPos(c1, t), s);
      UpExact(mem, root, SiblingPos(c1, t), RotateLeft(s));
      c' := WithSibling(c, RotateLeft(s));
      Down(mem, root, c.up, Fold(c', t));
      DeleteTurn(c, t);
    }

    method SetNephewColorRight(n: int, ghost c: Context, ghost t: Tree)
      requires Exact(mem, root, c, t) && c.InRight? && !c.sibling.Leaf? && !c.sibling.right.Leaf?
      requires n == c.sibling.right.addr
      modifies this`mem
      ensures Exact(mem, root, WithSibling(c, c.sibling.(right := c.sibling.right.(color := Black))), t)
      ensures Inorder(Plug(WithSibling(c, c.sibling.(right := c.sibling.right.(color := Black))), t)) == Inorder(Plug(c, t))
      ensures Kept(old(mem), mem, Inorder(Plug(c, t)))
    {
      ghost var w := c.sibling;
      UpExact(mem, root, c, t);
      Down(mem, root, c.up, Fold(c, t));
      ghost var sp := SiblingPos(c, t);
      Down(mem, root, sp, w);
      ghost var np := RightOf(sp, w);
      SetColor(n, Black, np, w.right);
      UpExact(mem, root, np, w.right.(color := Black));
      ghost var w' := w.(right := w.right.(color := Black));
      UpExact(mem, root, sp, w');
      Down(mem, root, c.up, Fold(WithSibling(c, w'), t));
    }

    /** The far nephew is red: the last recolouring and rotation. */
    method CloseGapRight(w: int, p: int, n: int, ghost c: Context, ghost t: Tree) returns (ghost result: Tree)
      requires Exact(mem, root, c, t) && DeleteOpen(c, t) && c.InRight? && ColorOf(t) == Black
      requires !c.sibling.Leaf? && ColorOf(c.sibling) == Black && ColorOf(c.sibling.left) == Red
      requires w == c.sibling.addr && p == c.addr && n == c.sibling.left.addr
      modifies this`mem, this`root
      ensures Exact(mem, root, Top, result) && DeleteOpen(Top, result) && ColorOf(result) == Black && !result.Leaf?
      ensures Inorder(result) == Inorder(Plug(c, t))
      ensures Kept(old(mem), mem, Inorder(Plug(c, t)))
    {
      DeleteClose(c, t);
      SetSiblingColor(w, mem[p].color, c, t);
      ghost var c1 := WithSibling(c, c.sibling.(color := c.color));
      SetParentColor(p, Black, c1, t);
      ghost var c2 := WithColor(c1, Black);
      UpExact(mem, root, c2, t);
      ghost var s, top := c2.sibling, Fold(c2, t);
      Down(mem, root, c.up, top);
      Down(mem, root, SiblingPos(c2, t), s);
      ghost var np := LeftOf(SiblingPos(c2, t), s);
      SetColor(n, Black, np, s.left);
      UpExact(mem, root, np, s.left.(color := Black));
      s := s.(left := s.left.(color := Black));
      UpExact(mem, root, SiblingPos(c2, t), s);
      top := Fold(WithSibling(c2, s), t);
      RightRotate(p, c.up, top);
      assert RotateRight(top) == Closed(c, t);
      ToRoot(mem, root, c.up, Closed(c, t));
      result := Plug(c.up, Closed(c, t));
      PlugPtr(c.up, Closed(c, t));
    }

    /** One iteration of the deletion fixup for a left child. */
    method DeleteStepLeft(x: int, xParent: int, ghost c: Context, ghost t: Tree)
      returns (x': int, xParent': int, ghost c': Context, ghost t': Tree)
      requires Exact(mem, root, c, t) && DeleteOpen(c, t) && c.InLeft? && ColorOf(t) == Black
      requires x == Ptr(t) && xParent == c.addr
      modifies this`mem, this`root
      ensures Exact(mem, root, c', t') && DeleteOpen(c', t') && x' == Ptr(t') && xParent' == ParentPtr(c')
      ensures FixupMeasure(c', t') < FixupMeasure(c, t)
      ensures Inorder(Plug(c', t')) == Inorder(Plug(c, t))
      ensures Kept(old(mem), mem, Inorder(Plug(c, t)))
    {
      ghost var d := c;
      DeletePointers(mem, root, d, t);
      var w := mem[xParent].right;
      if mem[w].color == Red {
        LowerRedSiblingLeft(w, xParent, d, t);
        DeleteRedSibling(d, t);
        d := AfterRedSibling(d);
        DeletePointers(mem, root, d, t);
        w := mem[xParent].right;
      }
      if mem[mem[w].left].color == Black && mem[mem[w].right].color == Black {
        SetSiblingColor(w, Red, d, t);
        DeleteLift(d, t);
        ghost var e := WithSibling(d, d.sibling.(color := Red));
        UpExact(mem, root, e, t);
        x' := xParent;
        xParent' := mem[x'].parent;
        c', t' := d.up, Fold(e, t);
      } else {
        if mem[mem[w].right].color == Black {
          d := TurnSiblingLeft(mem[w].left, w, d, t);
          DeletePointers(mem, root, d, t);
          w := mem[xParent].right;
        }
        t' := CloseGapLeft(w, xParent, mem[w].right, d, t);
        c' := Top;
        x' := root;
        xParent' := NIL;
      }
    }

    /** One iteration of the deletion fixup for a right child. */
    method DeleteStepRight(x: int, xParent: int, ghost c: Context, ghost t: Tree)
      returns (x': int, xParent': int, ghost c': Context, ghost t': Tree)
      requires Exact(mem, root, c, t) && DeleteOpen(c, t) && c.InRight? && ColorOf(t) == Black
      requires x == Ptr(t) && xParent == c.addr
      modifies this`mem, this`root
      ensures Exact(mem, root, c', t') && DeleteOpen(c', t') && x' == Ptr(t') && xParent' == ParentPtr(c')
      ensures FixupMeasure(c', t') < FixupMeasure(c, t)
      ensures Inorder(Plug(c', t')) == Inorder(Plug(c, t))
      ensures Kept(old(mem), mem, Inorder(Plug(c, t)))
    {
      ghost var d := c;
      DeletePointers(mem, root, d, t);
      var w := mem[xParent].left;
      if mem[w].color == Red {
        LowerRedSiblingRight(w, xParent, d, t);
        DeleteRedSibling(d, t);
        d := AfterRedSibling(d);
        DeletePointers(mem, root, d, t);
        w := mem[xParent].left;
      }
      if mem[mem[w].left].color == Black && mem[mem[w].right].color == Black {
        SetSiblingColor(w, Red, d, t);
        DeleteLift(d, t);
        ghost var e := WithSibling(d, d.sibling.(color := Red));
        UpExact(mem, root, e, t);
        x' := xParent;
        xParent' := mem[x'].parent;
        c', t' := d.up, Fold(e, t);
      } else {
        if mem[mem[w].left].color == Black {
          d := TurnSiblingRight(mem[w].right, w, d, t);
          DeletePointers(mem, root, d, t);
          w := mem[xParent].left;
        }
        t' := CloseGapRight(w, xParent, mem[w].left, d, t);
        c' := Top;
        x' := root;
        xParent' := NIL;
      }
    }

    method RbDeleteFixup(x0: int, xParent0: int, ghost c0: Context, ghost t0: Tree) returns (ghost result: Tree)
      requires Exact(mem, root, c0, t0) && DeleteOpen(c0, t0) && x0 == Ptr(t0) && xParent0 == ParentPtr(c0)
      modifies this`mem, this`root
      ensures Exact(mem, root, Top, result) && RedBlack(result)
      ensures Inorder(result) == Inorder(Plug(c0, t0))
      ensures Kept(old(mem), mem, Inorder(result))
    {
      var x, xParent := x0, xParent0;
      ghost var c, t := c0, t0;
      ghost var content := Inorder(Plug(c0, t0));
      FixupPointers(mem, root, c, t);
      while x != root && (x == NIL || mem[x].color == Black)
        invariant Exact(mem, root, c, t) && DeleteOpen(c, t) && x == Ptr(t) && xParent == ParentPtr(c)
        invariant (x == root) == c.Top? && x in mem && mem[x].FreeBlock? && mem[x].color == ColorOf(t)
        invariant Inorder(Plug(c, t)) == content && Kept(old(mem), mem, content)
        decreases FixupMeasure(c, t)
      {
        FixupPointers(mem, root, c, t);
        if x == mem[xParent].left {
          x, xParent, c, t := DeleteStepLeft(x, xParent, c, t);
        } else {
          x, xParent, c, t := DeleteStepRight(x, xParent, c, t);
        }
        FixupPointers(mem, root, c, t);
      }
      DeleteDone(c, t);
      FixupPointers(mem, root, c, t);
      if x != NIL {
        SetColor(x, Black, c, t);
      }
      ToRoot(mem, root, c, Blacken(t));
      result := Plug(c, Blacken(t));
    }

    method RbTransplant(u: int, v: int)
      requires Transplantable(mem, u, v)
      modifies this`mem, this`root
      ensures mem == Transplanted(old(mem), u, v)
      ensures root == if old(mem)[u].parent == NIL then v else old(root)
    {
      var p := mem[u].parent;
      if p == NIL {
        root := v;
      } else if u == mem[p].left {
        mem := mem[p := mem[p].(left := v)];
      } else {
        mem := mem[p := mem[p].(right := v)];
      }
      if v != NIL {
        mem := mem[v := mem[v].(parent := p)];
      }
    }

    method Minimum(x0: int, ghost c: Context, ghost t: Tree) returns (x: int)
      requires At(mem, root, c, t) && !t.Leaf? && x0 == t.addr
      ensures x == MinNode(t).addr
    {
      x := x0;
      ghost var d, u := c, t;
      WhichChild(mem, root, d, u);
      Down(mem, root, d, u);
      WhichChild(mem, root, LeftOf(d, u), u.left);
      while mem[x].left != NIL
        invariant At(mem, root, d, u) && !u.Leaf? && x == u.addr && MinNode(u) == MinNode(t)
        invariant x in mem && mem[x].FreeBlock? && (mem[x].left == NIL) == u.left.Leaf?
        decreases u
      {
        Down(mem, root, d, u);
        x := mem[x].left;
        d, u := LeftOf(d, u), u.left;
        WhichChild(mem, root, d, u);
        Down(mem, root, d, u);
        WhichChild(mem, root, LeftOf(d, u), u.left);
      }
    }

    /** Move the successor `y` of `z`, which lies below `z->right`, next to `z`. */
    method DetachSuccessor(z: int, y: int)
      requires Spliceable(mem, z, y) && mem[y].parent != z
      modifies this`mem, this`root
      ensures Detached(old(mem), mem, z, y) && root == old(root)
    {
      var yr := mem[y].right;
      RbTransplant(y, yr);
      mem := mem[y := mem[y].(right := mem[z].right)];
      mem := mem[mem[y].right := mem[mem[y].right].(parent := y)];
    }

    /** Replace `z`, which has two children, by its in-order successor `y`. */
    method ReplaceBySuccessor(z: int, y: int)
      requires Spliceable(mem, z, y)
      modifies this`mem, this`root
      ensures Spliced(old(mem), mem, z, y)
      ensures root == if old(mem)[z].parent == NIL then y else old(root)
    {
      if mem[y].parent != z {
        DetachSuccessor(z, y);
      }
      RbTransplant(z, y);
      mem := mem[y := mem[y].(left := mem[z].left)];
      mem := mem[mem[y].left := mem[mem[y].left].(parent := y)];
      mem := mem[y := mem[y].(color := mem[z].color)];
    }

    /** Take `z` out; `x` is what moved into the vacated place under `xParent`. */
    method Unlink(z: int, ghost c: Context, ghost t: Tree)
      returns (x: int, xParent: int, spliced: Color, ghost d: Context, ghost v: Tree)
      requires Exact(mem, root, c, t) && !t.Leaf? && z == t.addr && RedBlack(Plug(c, t))
      modifies this`mem, this`root
      ensures At(mem, root, d, v) && x == Ptr(v) && xParent == ParentPtr(d)
      ensures spliced == Black ==> DeleteOpen(d, v)
      ensures spliced == Red ==> RedBlack(Plug(d, v))
      ensures Inorder(Plug(d, v)) == RemoveBlock(Inorder(Plug(c, t)), z)
      ensures Kept(old(mem), mem, Inorder(Plug(c, t)))
    {
      Down(mem, root, c, t);
      WhichChild(mem, root, c, t);
      WhichChild(mem, root, LeftOf(c, t), t.left);
      WhichChild(mem, root, RightOf(c, t), t.right);
      if mem[z].left == NIL {
        spliced := mem[z].color;
        x := mem[z].right;
        xParent := mem[z].parent;
        d, v := TransplantChild(z, x, c, t, t.right);
      } else if mem[z].right == NIL {
        spliced := mem[z].color;
        x := mem[z].left;
        xParent := mem[z].parent;
        d, v := TransplantChild(z, x, c, t, t.left);
      } else {
        var y := Minimum(mem[z].right, RightOf(c, t), t.right);
        x, xParent, spliced, d, v := TransplantSuccessor(z, y, c, t);
      }
    }

    /** Remove exactly the block at `z`. */
    method DeleteNode(z: int)
      requires TreeValid() && z in Addrs(Inorder(tree))
      modifies this`mem, this`root, this`tree
      ensures TreeValid()
      ensures Inorder(tree) == RemoveBlock(old(Inorder(tree)), z)
      ensures Kept(old(mem), mem, old(Inorder(tree)))
    {
      KeysAreAddrs(tree);
      ghost var c, t := GoTo(mem, root, tree, z);
      var x, xParent, spliced;
      ghost var d, v;
      x, xParent, spliced, d, v := Unlink(z, c, t);
      ghost var m, was := mem, Inorder(tree);
      UpdateMaxUpwards(xParent, d, v);
      RemoveAddrs(was, z);
      KeptChain(old(mem), m, mem, was, Inorder(Plug(d, v)));
      m := mem;
      if spliced == Black {
        tree := RbDeleteFixup(x, xParent, d, v);
        KeptChain(old(mem), m, mem, was, Inorder(tree));
      } else {
        ToRoot(mem, root, d, v);
        tree := Plug(d, v);
      }
    }

    /** `z` has at most one child, `v`. */
    method TransplantChild(z: int, x: int, ghost c: Context, ghost t: Tree, ghost v: Tree) returns (ghost d: Context, ghost u: Tree)
      requires Exact(mem, root, c, t) && !t.Leaf? && z == t.addr && x == Ptr(v) && RedBlack(Plug(c, t))
      requires (t.left.Leaf? && v == t.right) || (t.right.Leaf? && v == t.left)
      modifies this`mem, this`root
      ensures d == c && u == v && At(mem, root, d, u)
      ensures t.color == Black ==> DeleteOpen(d, u)
      ensures t.color == Red ==> RedBlack(Plug(d, u))
      ensures Inorder(Plug(d, u)) == RemoveBlock(Inorder(Plug(c, t)), z)
      ensures Kept(old(mem), mem, Inorder(Plug(c, t)))
    {
      TransplantReady(mem, root, c, t, v);
      RbTransplant(z, x);
      TransplantAt(old(mem), mem, old(root), c, t, v);
      RemoveSimple(c, t, v);
      d, u := c, v;
    }

    /** `z` has two children and `y` is its in-order successor. */
    method TransplantSuccessor(z: int, y: int, ghost c: Context, ghost t: Tree)
      returns (x: int, xParent: int, spliced: Color, ghost d: Context, ghost u: Tree)
      requires Exact(mem, root, c, t) && !t.Leaf? && !t.left.Leaf? && !t.right.Leaf? && z == t.addr
      requires y == MinNode(t.right).addr && RedBlack(Plug(c, t))
      modifies this`mem, this`root
      ensures At(mem, root, d, u) && x == Ptr(u) && xParent == ParentPtr(d)
      ensures spliced == Black ==> DeleteOpen(d, u)
      ensures spliced == Red ==> RedBlack(Plug(d, u))
      ensures Inorder(Plug(d, u)) == RemoveBlock(Inorder(Plug(c, t)), z)
      ensures Kept(old(mem), mem, Inorder(Plug(c, t)))
    {
      InnerSpliceable(mem, root, c, t);
      spliced := mem[y].color;
      x := mem[y].right;
      xParent := if mem[y].parent == z then y else mem[y].parent;
      ReplaceBySuccessor(z, y);
      SplicedAt(old(mem), mem, old(root), c, t);
      RemoveInner(c, t);
      d, u := Leftmost(Replaced(c, t), t.right).0, MinNode(t.right).right;
      LinkedY(old(mem), mem, z, y);
      ghost var m := mem;
      UpdateMax(y);
      SpineMaxAt(m, mem, root, d, u, y, mem[y].subtreeMax);
    }

    // ---------------------------------------------------------- navigation

    method Maximum(x0: int, ghost c: Context, ghost t: Tree) returns (x: int)
      requires At(mem, root, c, t) && !t.Leaf? && x0 == t.addr
      ensures x == MaxNode(t).addr
    {
      x := x0;
      ghost var d, u := c, t;
      WhichChild(mem, root, d, u);
      Down(mem, root, d, u);
      WhichChild(mem, root, RightOf(d, u), u.right);
      while mem[x].right != NIL
        invariant At(mem, root, d, u) && !u.Leaf? && x == u.addr && MaxNode(u) == MaxNode(t)
        invariant x in mem && mem[x].FreeBlock? && (mem[x].right == NIL) == u.right.Leaf?
        decreases u
      {
        Down(mem, root, d, u);
        x := mem[x].right;
        d, u := RightOf(d, u), u.right;
        WhichChild(mem, root, d, u);
        Down(mem, root, d, u);
        WhichChild(mem, root, RightOf(d, u), u.right);
      }
    }

    /** The next tree block in address order, or the sentinel. */
    method Successor(x0: int, ghost i: nat) returns (y: int)
      requires TreeValid() && i < |Inorder(tree)| && Inorder(tree)[i].addr == x0
      ensures y == if i + 1 < |Inorder(tree)| then Inorder(tree)[i + 1].addr else NIL
    {
      ghost var c, t := Position(mem, root, tree, i);
      Down(mem, root, c, t);
      WhichChild(mem, root, c, t);
      WhichChild(mem, root, RightOf(c, t), t.right);
      PlugInorder(c, t);
      if mem[x0].right != NIL {
        y := Minimum(mem[x0].right, RightOf(c, t), t.right);
        MinIsFirst(t.right);
        NextInSubtree(c, t);
        return;
      }
      var x := x0;
      y := mem[x].parent;
      ghost var d, u := c, t;
      NextOnPath(c, t);
      while y != NIL && x == mem[y].right
        invariant At(mem, root, d, u) && !u.Leaf? && x == u.addr && y == ParentPtr(d)
        invariant (y == NIL) == d.Top? && After(d) == After(c)
        invariant y != NIL ==> y in mem && mem[y].FreeBlock? && (x == mem[y].right) == d.InRight?
        invariant Exact(mem, root, d, u)
        decreases Depth(d)
      {
        UpExact(mem, root, d, u);
        x := y;
        y := mem[y].parent;
        d, u := d.up, Fold(d, u);
        WhichChild(mem, root, d, u);
      }
    }

    /** The previous tree block in address order, or the sentinel. */
    method Predecessor(x0: int, ghost i: nat) returns (y: int)
      requires TreeValid() && i < |Inorder(tree)| && Inorder(tree)[i].addr == x0
      ensures y == if i > 0 then Inorder(tree)[i - 1].addr else NIL
    {
      ghost var c, t := Position(mem, root, tree, i);
      Down(mem, root, c, t);
      WhichChild(mem, root, c, t);
      WhichChild(mem, root, LeftOf(c, t), t.left);
      PlugInorder(c, t);
      if mem[x0].left != NIL {
        y := Maximum(mem[x0].left, LeftOf(c, t), t.left);
        MaxIsLast(t.left);
        PrevInSubtree(c, t);
        return;
      }
      var x := x0;
      y := mem[x].parent;
      ghost var d, u := c, t;
      PrevOnPath(c, t);
      while y != NIL && x == mem[y].left
        invariant At(mem, root, d, u) && !u.Leaf? && x == u.addr && y == ParentPtr(d)
        invariant (y == NIL) == d.Top? && Before(d) == Before(c)
        invariant y != NIL ==> y in mem && mem[y].FreeBlock? && (x == mem[y].left) == d.InLeft?
        invariant Exact(mem, root, d, u)
        decreases Depth(d)
      {
        UpExact(mem, root, d, u);
        x := y;
        y := mem[y].parent;
        d, u := d.up, Fold(d, u);
        WhichChild(mem, root, d, u);
      }
    }

    /** The pruned descent finds the same block as a left-to-right scan. */
    method FindFirstFit(n: nat) returns (r: int, ghost steps: nat)
      requires TreeValid()
      ensures var s := Inorder(tree); var i := FirstFit(s, n);
              r == if i < |s| then s[i].addr else NIL
      ensures steps <= 2 * Log2(|Inorder(tree)| + 1)
    {
      var x := root;
      ghost var c, t := Top, tree;
      steps := 0;
      ghost var bound := 2 * Log2(|Inorder(tree)| + 1);
      assert Height(tree) <= bound by {
        HeightBound(tree);
        CountIsLength(tree);
      }
      WhichChild(mem, root, c, t);
      while x != NIL
        invariant Exact(mem, root, c, t) && x == Ptr(t) && (x == NIL) == t.Leaf? && Plug(c, t) == tree
        invariant forall j :: 0 <= j < |Before(c)| ==> Before(c)[j].size < n
        invariant c.Top? || (!t.Leaf? && MaxSize(t) >= n)
        invariant steps + Height(t) <= bound
        decreases t
      {
        ChildrenAt(mem, root, c, t);
        steps := steps + 1;
        if mem[x].left != NIL && mem[mem[x].left].subtreeMax >= n {
          x := mem[x].left;
          c, t := LeftOf(c, t), t.left;
        } else {
          if mem[x].size >= n {
            FoundHere(c, t, n);
            return x, steps;
          }
          if mem[x].right != NIL && mem[mem[x].right].subtreeMax >= n {
            PassedOver(c, t, n);
            x := mem[x].right;
            c, t := RightOf(c, t), t.right;
          } else {
            NotHere(c, t, n);
            return NIL, steps;
          }
        }
      }
      NotHere(c, t, n);
      r := NIL;
    }

    /** The largest tree block. */
    method LargestFreeBlock() returns (r: nat)
      requires TreeValid()
      ensures forall i :: 0 <= i < |Inorder(tree)| ==> Inorder(tree)[i].size <= r
      ensures if Inorder(tree) == [] then r == 0 else exists i :: 0 <= i < |Inorder(tree)| && Inorder(tree)[i].size == r
    {
      MaxSizeIsMaximum(tree);
      WhichChild(mem, root, Top, tree);
      if root == NIL {
        return 0;
      }
      r := mem[root].subtreeMax;
    }

    /** Add `extra` bytes to the block at `x`. */
    method Grow(x: int, extra: nat, ghost i: nat)
      requires TreeValid() && i < |Inorder(tree)| && Inorder(tree)[i].addr == x
      modifies this`mem, this`tree
      ensures TreeValid()
      ensures Inorder(tree) == old(Inorder(tree))[i := Block(x, old(Inorder(tree))[i].size + extra)]
      ensures Kept(old(mem), mem, old(Inorder(tree)))
    {
      ghost var c, t := Position(mem, root, tree, i);
      WhichChild(mem, root, c, t);
      mem := mem[x := mem[x].(size := mem[x].size + extra)];
      ghost var u := t.(size := t.size + extra);
      Resized(old(mem), mem, root, c, t, u.size);
      ResizedTree(c, t, u.size);
      UpdateMaxUpwards(x, LeftOf(c, u), u.left);
      UpExact(mem, root, LeftOf(c, u), u.left);
      ToRoot(mem, root, c, u);
      tree := Plug(c, u);
    }

    /** Check parent links, alignment and maxima; no abort is reachable. */
    method VerifyTree(x: int, ghost c: Context, ghost t: Tree)
      requires Exact(mem, root, c, t) && x == Ptr(t)
      requires forall q :: q in Keys(t) ==> q % 16 == 0
      decreases t
    {
      WhichChild(mem, root, c, t);
      if x == NIL { return; }
      Down(mem, root, c, t);
      WhichChild(mem, root, LeftOf(c, t), t.left);
      WhichChild(mem, root, RightOf(c, t), t.right);
      assert t.addr in Keys(t) && Keys(t.left) <= Keys(t) && Keys(t.right) <= Keys(t);
      if x % 16 != 0 { assert false; }
      if mem[x].left != NIL {
        if mem[mem[x].left].parent != x { assert false; }
        VerifyTree(mem[x].left, LeftOf(c, t), t.left);
      }
      if mem[x].right != NIL {
        if mem[mem[x].right].parent != x { assert false; }
        VerifyTree(mem[x].right, RightOf(c, t), t.right);
      }
      var expected := mem[x].size;
      if mem[x].left != NIL { expected := Max(expected, mem[mem[x].left].subtreeMax); }
      if mem[x].right != NIL { expected := Max(expected, mem[mem[x].right].subtreeMax); }
      if mem[x].subtreeMax != expected { assert false; }
    }

    // ---------------------------------------------------------- list and tree updates

    /** `delete_node` leaves the small lists alone; the block is no longer a node, so its
        record is gone and may not be read again. */
    method TakeOut(z: int, ghost lists: seq<seq<int>>, ghost content: seq<Block>)
      requires Coherent(lists, content) && z in Addrs(content)
      modifies this`mem, this`root, this`tree
      ensures Coherent(lists, RemoveBlock(content, z)) && Touched(old(mem), mem, Addrs(content))
    {
      InorderSorted(tree, NULL, LIMIT);
      DeleteNode(z);
      ghost var m := mem;
      mem := mem - {z};
      ChainsKept(old(mem), m, freeLists[..], lists, content);
      RemoveAddrs(content, z);
      RemoveGone(content, z);
      TreeErase(m, root, tree, z);
      UnlistedTree(lists, content, z);
      ChainsErase(m, freeLists[..], lists, z);
      SeparateShrink(lists, content, lists, RemoveBlock(content, z));
      RemoveKeeps(content, z);
      NodesChange(old(mem), mem, lists, content, RemoveBlock(content, z));
    }

    /** Write a `FreeBlock` record at `a` and insert it. */
    method PutIn(a: int, n: nat, ghost lists: seq<seq<int>>, ghost content: seq<Block>)
      requires Coherent(lists, content) && a !in Addrs(content) && Unlisted(lists, a)
      requires 0 < a < LIMIT && a % 16 == 0 && 0 < n <= MAX_BLOCK
      modifies this`mem, this`root, this`tree
      ensures Coherent(lists, InsertBlock(content, Block(a, n))) && Touched(old(mem), mem, Addrs(content) + {a})
    {
      mem := mem[a := FreeBlock(n, NIL, NIL, NIL, n, Red)];
      TreeFrame(old(mem), root, tree, a, mem[a]);
      ListedElsewhere(old(mem), freeLists[..], lists, a, mem[a]);
      ghost var m := mem;
      ghost var _ := InsertNode(a);
      SeparateInsert(lists, content, Block(a, n));
      ChainsKept(m, mem, freeLists[..], lists, Inorder(tree));
      InsertAddrs(content, Block(a, n));
      NodesChange(old(mem), mem, lists, content, InsertBlock(content, Block(a, n)));
    }

    /** Push a block on small list `k`. */
    method PushSmall(k: nat, a: int, ghost lists: seq<seq<int>>, ghost content: seq<Block>)
      requires Coherent(lists, content) && k < CLASSES && a !in Addrs(content) && Unlisted(lists, a) && 0 < a
      modifies this`mem, freeLists
      ensures Coherent(Push(lists, k, a), content) && Touched(old(mem), mem, {a})
    {
      ghost var heads := freeLists[..];
      mem := mem[a := FreeNode(freeLists[k])];
      freeLists[k] := a;
      ChainsPush(old(mem), heads, lists, k, a);
      SeparatePush(lists, content, k, a);
      assert freeLists[..] == heads[k := a];
      TreeFrame(old(mem), root, tree, a, mem[a]);
      NodesPushed(old(mem), mem, lists, content, k, a);
    }

    /** Pop the head of small list `k`; its record is gone. */
    method PopSmall(k: nat, ghost lists: seq<seq<int>>, ghost content: seq<Block>) returns (node: int)
      requires Coherent(lists, content) && k < CLASSES && lists[k] != []
      requires Unlisted(lists[k := lists[k][1..]], lists[k][0])
      modifies this`mem, freeLists
      ensures node == lists[k][0]
      ensures Coherent(lists[k := lists[k][1..]], content) && Touched(old(mem), mem, {node})
    {
      node := freeLists[k];
      assert ListRep(mem, freeLists[k], lists[k]);
      ghost var heads, lists' := freeLists[..], lists[k := lists[k][1..]];
      freeLists[k] := mem[node].next;
      assert freeLists[..] == heads[k := mem[node].next];
      mem := mem - {node};
      ChainsErase(old(mem), freeLists[..], lists', node);
      TreeErase(old(mem), root, tree, node);
      SeparateShrink(lists, content, lists', content);
      NodesPopped(old(mem), lists, content, k);
    }

    // ---------------------------------------------------------- construction

    constructor (base: int, size: nat)
      requires ArenaOk(base, size)
      ensures Valid() && heap == Init(base, size) && fresh(freeLists)
      ensures this.base == base && this.size == size
    {
      this.base, this.size := base, size;
      mem := map[NIL := NIL_CELL, base := FreeBlock(size, NIL, NIL, NIL, size, Black)];
      root := NIL;
      freeLists := new int[CLASSES](_ => NULL);
      used := 0;
      freeBlocks := 1;
      tree := Leaf;
      heap := Init(base, size);
      new;
      InitInv(base, size);
      ghost var _ := InsertNode(base);
      FreshNodes(mem, base, size);
    }

    // ---------------------------------------------------------- allocation

    /** First fit over small lists and tree: the naive allocator, step for step, writing only
        nodes of blocks that are free before or after. */
    method Allocate(request: nat, alignment: nat) returns (r: Result<AllocationResult>)
      requires Valid() && AllocOk(request, alignment)
      modifies this, freeLists
      ensures Valid() && (heap, r) == HeapModel.Allocate(old(heap), request, alignment)
      ensures Housed(mem, heap) && Confined(old(mem), old(heap), mem, heap)
      ensures r.Err? ==> mem == old(mem)
    {
      ShardHoused(this);
      r := Search(request, alignment);
      ShardHoused(this);
      HousedConfined(old(mem), old(heap), mem, heap);
    }

    method Search(request: nat, alignment: nat) returns (r: Result<AllocationResult>)
      requires Valid() && AllocOk(request, alignment)
      modifies this, freeLists
      ensures Valid() && (heap, r) == HeapModel.Allocate(old(heap), request, alignment)
      ensures r.Err? ==> mem == old(mem)
    {
      var align := if alignment < 16 then 16 else alignment;
      var n := RoundRequest(request);
      if n <= MAX_SMALL && n >= QUANTUM {
        var idx := n / QUANTUM - 1;
        assert ListRep(mem, freeLists[idx], heap.lists[idx]);
        if idx < CLASSES && freeLists[idx] != NULL {
          r := AllocateFromList(idx, n);
          return;
        }
      }
      EffectiveOk(alignment);
      r := AllocateFromTree(n, align);
    }

    method RoundRequest(request: nat) returns (n: nat)
      ensures n == Need(request)
    {
      var requested := if request == 0 then 1 else request;
      n := (requested + 15) / 16 * 16;
    }

    /** Serve from the head of the exact small list. */
    method AllocateFromList(idx: nat, n: nat) returns (r: Result<AllocationResult>)
      requires Valid() && QUANTUM <= n <= MAX_SMALL && n % 16 == 0 && idx == ClassOf(n) && heap.lists[idx] != []
      modifies this`mem, this`used, this`freeBlocks, this`heap, freeLists
      ensures Valid() && (heap, r) == TakeSmall(old(heap), n)
    {
      TakeSmallInv(heap, n);
      TakeSmallBlocks(heap, n);
      HeadUnlisted(heap, n);
      var node := PopSmall(idx, heap.lists, TreeBlocks(heap.segs));
      Commit(used + n, (freeBlocks - 1) % LIMIT, TakeSmall(heap, n).0);
      r := Ok(AllocationResult(node, node - base, n));
    }

    /** Scan the tree in address order for a block that fits after alignment. */
    method AllocateFromTree(n: nat, align: nat) returns (r: Result<AllocationResult>)
      requires Valid() && n >= QUANTUM && n % 16 == 0 && align >= 16 && align % 16 == 0
      modifies this, freeLists
      ensures Valid()
      ensures var i := FirstFitting(old(heap).segs, n, align);
              (heap, r) == if i == |old(heap).segs| then (old(heap), Err(OutOfMemory))
                           else Cut(old(heap), i, n, AlignUp(old(heap).segs[i].addr, align))
      ensures r.Err? ==> mem == old(mem)
    {
      var minSize := if n < MIN_BLOCK then MIN_BLOCK else n;
      ghost var s := Inorder(tree);
      var curr;
      ghost var steps;
      curr, steps := FindFirstFit(minSize);
      ghost var k := FirstFit(s, minSize);
      TooSmall(heap, n, align, minSize, k);
      if k < |s| { RecordAt(mem, root, tree, k); }
      while curr != NIL
        invariant Valid() && heap == old(heap) && mem == old(mem) && Inorder(tree) == s && freeLists[..] == old(freeLists[..])
        invariant k <= |s| && curr == if k < |s| then s[k].addr else NIL
        invariant (curr == NIL) == (k == |s|)
        invariant forall j :: 0 <= j < k ==> !FitsBlock(s[j], n, align)
        decreases |s| - k
      {
        RecordAt(mem, root, tree, k);
        TreeBlockBounds(heap, s[k]);
        var p := AlignUp(curr, align);
        if p - curr + n <= mem[curr].size {
          ghost var i := FirstFittingAt(heap.segs, n, align, k);
          CutPoint(heap.segs[i], n, align);
          r := CutBlock(curr, p, n, i);
          CheckTree();
          return;
        }
        curr, k := NextCandidate(curr, n, align, minSize, k);
      }
      NoneFitting(heap.segs, n, align);
      r := Err(OutOfMemory);
    }

    /** Walk to the next block of at least `minSize` bytes; the skipped ones cannot fit. */
    method NextCandidate(curr0: int, n: nat, align: nat, minSize: nat, ghost k0: nat) returns (curr: int, ghost k: nat)
      requires Valid() && align > 0 && minSize == (if n < MIN_BLOCK then MIN_BLOCK else n)
      requires k0 < |Inorder(tree)| && curr0 == Inorder(tree)[k0].addr && !FitsBlock(Inorder(tree)[k0], n, align)
      ensures k0 < k <= |Inorder(tree)| && curr == if k < |Inorder(tree)| then Inorder(tree)[k].addr else NIL
      ensures (curr == NIL) == (k == |Inorder(tree)|)
      ensures forall j :: k0 <= j < k ==> !FitsBlock(Inorder(tree)[j], n, align)
    {
      ghost var s := Inorder(tree);
      curr := Successor(curr0, k0);
      k := k0 + 1;
      if k < |s| { RecordAt(mem, root, tree, k); }
      while curr != NIL && mem[curr].size < minSize
        invariant k0 < k <= |s| && curr == if k < |s| then s[k].addr else NIL
        invariant (curr == NIL) == (k == |s|)
        invariant curr != NIL ==> curr in mem && mem[curr].FreeBlock? && mem[curr].size == s[k].size
        invariant forall j :: k0 <= j < k ==> !FitsBlock(s[j], n, align)
        decreases |s| - k
      {
        TreeBlockBounds(heap, s[k]);
        curr := Successor(curr, k);
        k := k + 1;
        if k < |s| { RecordAt(mem, root, tree, k); }
      }
    }

    /** Split the tree block at `curr`: front gap, the allocation at `p`, remainder. */
    method CutBlock(curr: int, p: int, n0: nat, ghost i: nat) returns (r: Result<AllocationResult>)
      requires Valid() && i < |heap.segs| && heap.segs[i].kind == InTree && heap.segs[i].addr == curr
      requires n0 >= QUANTUM && n0 % 16 == 0 && p % 16 == 0 && curr <= p && p + n0 <= curr + heap.segs[i].size
      modifies this, freeLists
      ensures Valid() && (heap, r) == Cut(old(heap), i, n0, p)
    {
      var n := n0;
      ghost var h, h', result := heap, Cut(heap, i, n0, p).0, Cut(heap, i, n0, p).1;
      CutInv(h, i, n, p);
      BlockRecord(mem, root, tree, heap, i);
      var prePadding := p - curr;
      var total := mem[curr].size;
      var remainder := total - prePadding - n;
      CutFields(h, i, n, p, remainder);
      var absorbed := Carve(curr, p, n, prePadding, remainder, i, h');
      var free := freeBlocks;
      if absorbed {
        n := n + remainder;
        free := (free - 1) % LIMIT;
      }
      r := Ok(AllocationResult(p, p - base, n));
      assert r == result;
      Commit(used + n, free, h');
    }

    /** The counters, once tree and lists agree with the new heap. */
    method Commit(used': int, freeBlocks': int, ghost h': Heap)
      requires Inv(h') && h'.base == base && h'.cap == size && Coherent(h'.lists, TreeBlocks(h'.segs))
      requires used' == h'.used && freeBlocks' == h'.freeBlocks
      modifies this`used, this`freeBlocks, this`heap
      ensures Valid() && heap == h'
    {
      used, freeBlocks, heap := used', freeBlocks', h';
    }

    /** Delete the node, then place gap and remainder. */
    method Carve(curr: int, p: int, n: nat, prePadding: nat, remainder: nat, ghost i: nat, ghost h': Heap)
      returns (absorbed: bool)
      requires Inv(heap) && Coherent(heap.lists, TreeBlocks(heap.segs)) && curr in Addrs(TreeBlocks(heap.segs))
      requires i < |heap.segs| && heap.segs[i] == Seg(curr, prePadding + n + remainder, InTree) && p == curr + prePadding
      requires n >= QUANTUM && n % 16 == 0 && p % 16 == 0 && h' == Cut(heap, i, n, p).0
      modifies this`mem, this`root, this`tree, freeLists
      ensures Coherent(h'.lists, TreeBlocks(h'.segs))
      ensures absorbed == (remainder < QUANTUM)
    {
      ghost var A, x, y, B := CutPlan(heap, i, n, p);
      absorbed := PlaceParts(curr, p, n, prePadding, remainder, h', A, x, y, B);
    }

    method PlaceParts(curr: int, p: int, n: nat, prePadding: nat, remainder: nat, ghost h': Heap,
                      ghost A: seq<Block>, ghost x: seq<Block>, ghost y: seq<Block>, ghost B: seq<Block>)
      returns (absorbed: bool)
      requires Coherent(heap.lists, TreeBlocks(heap.segs)) && curr in Addrs(TreeBlocks(heap.segs))
      requires Plan(heap, h', curr, prePadding, p + n, remainder, A, x, y, B)
      modifies this`mem, this`root, this`tree, freeLists
      ensures Coherent(h'.lists, TreeBlocks(h'.segs))
      ensures absorbed == (remainder < QUANTUM)
    {
      TakeOut(curr, heap.lists, TreeBlocks(heap.segs));
      PlaceGap(curr, prePadding, heap.lists, A, x, B);
      absorbed := PlaceRemainder(p + n, remainder, GapLists(heap, curr, prePadding), A, x, y, B);
    }

    /** A front gap goes to its small list, or to the tree when it is large. */
    method PlaceGap(a: int, pre: nat, ghost lists: seq<seq<int>>, ghost A: seq<Block>, ghost x: seq<Block>, ghost B: seq<Block>)
      requires Coherent(lists, A + B) && Unlisted(lists, a) && a !in Addrs(A + B)
      requires 0 < a < LIMIT && a % 16 == 0 && pre % 16 == 0 && pre <= MAX_BLOCK
      requires x == TreePart(a, pre, pre > MAX_SMALL)
      requires (x == [] ==> A + x + B == A + B) && (x != [] ==> InsertBlock(A + B, x[0]) == A + x + B)
      modifies this`mem, this`root, this`tree, freeLists
      ensures Coherent(if QUANTUM <= pre <= MAX_SMALL then Push(lists, ClassOf(pre), a) else lists, A + x + B)
    {
      if pre >= QUANTUM {
        if pre <= MAX_SMALL {
          PushSmall(pre / QUANTUM - 1, a, lists, A + B);
        } else {
          PutIn(a, pre, lists, A + B);
        }
      }
    }

    /** A remainder goes to the tree, to its small list, or is absorbed when it is zero. */
    method PlaceRemainder(a: int, rest: nat, ghost lists: seq<seq<int>>,
                          ghost A: seq<Block>, ghost x: seq<Block>, ghost y: seq<Block>, ghost B: seq<Block>)
      returns (absorbed: bool)
      requires Coherent(lists, A + x + B)
      requires rest > 0 ==> Unlisted(lists, a) && a !in Addrs(A + x + B)
      requires 0 < a < LIMIT && a % 16 == 0 && rest % 16 == 0 && rest <= MAX_BLOCK
      requires y == TreePart(a, rest, rest >= MIN_BLOCK)
      requires (y == [] ==> A + x + y + B == A + x + B) && (y != [] ==> InsertBlock(A + x + B, y[0]) == A + x + y + B)
      modifies this`mem, this`root, this`tree, freeLists
      ensures Coherent(if QUANTUM <= rest < MIN_BLOCK then Push(lists, ClassOf(rest), a) else lists, A + x + y + B)
      ensures absorbed == (rest < QUANTUM)
    {
      absorbed := false;
      if rest >= MIN_BLOCK {
        PutIn(a, rest, lists, A + x + B);
      } else if rest >= QUANTUM {
        if rest <= MAX_SMALL {
          PushSmall(rest / QUANTUM - 1, a, lists, A + x + B);
        } else {
          absorbed := true;
        }
      } else {
        absorbed := true;
      }
    }

    /** `verify_tree(root_)`: none of its aborts is reachable. */
    method CheckTree()
      requires Valid()
    {
      KeysAreAddrs(tree);
      forall q | q in Keys(tree) ensures q % 16 == 0 {
        var t := TreeBlocks(heap.segs);
        var i :| 0 <= i < |t| && t[i].addr == q;
        TreeBlockBounds(heap, t[i]);
      }
      VerifyTree(root, Top, tree);
    }

    // ---------------------------------------------------------- deallocation

    /** Give a block back; errors and coalescing are those of the naive allocator. */
    method Deallocate(ptr: int, blockSize: nat) returns (r: Result<()>)
      requires Valid() && DeallocOk(heap, ptr, blockSize)
      modifies this, freeLists
      ensures Valid() && (heap, r) == HeapModel.Deallocate(old(heap), ptr, blockSize)
      ensures Housed(mem, heap) && Confined(old(mem), old(heap), mem, heap)
    {
      ShardHoused(this);
      if ptr == NULL { return Ok(()); }
      var end := base + size;
      if ptr < base || ptr >= end { return Err(BadPointer); }
      var remaining := end - ptr;
      if blockSize > remaining || blockSize < QUANTUM { assert false; }
      if ptr % 16 != 0 { return Err(InvalidAlignment); }
      ghost var i :| 0 <= i < |heap.segs| && heap.segs[i] == Seg(ptr, blockSize, Live);
      IndexOfUnique(heap.segs, i, heap.base);
      if blockSize <= MAX_SMALL {
        FreeSmall(ptr, blockSize, i);
        ShardHoused(this);
        HousedConfined(old(mem), old(heap), mem, heap);
        return Ok(());
      }
      if blockSize < MIN_BLOCK { assert false; }
      FreeLarge(ptr, blockSize, i);
      CheckTree();
      ShardHoused(this);
      HousedConfined(old(mem), old(heap), mem, heap);
      r := Ok(());
    }

    method FreeSmall(ptr: int, n: nat, ghost i: nat)
      requires Valid() && i < |heap.segs| && heap.segs[i] == Seg(ptr, n, Live) && n <= MAX_SMALL
      modifies this`mem, this`used, this`freeBlocks, this`heap, freeLists
      ensures Valid() && heap == GiveSmall(old(heap), i)
    {
      LiveInside(heap, heap.segs[i]);
      var idx := n / QUANTUM - 1;
      if idx >= CLASSES { assert false; }
      GiveSmallInv(heap, i);
      GiveSmallBlocks(heap, i);
      OffTree(heap, heap.segs[i]);
      InsideUnlisted(heap, i, ptr);
      PushSmall(idx, ptr, heap.lists, TreeBlocks(heap.segs));
      Commit(used - n, (freeBlocks + 1) % LIMIT, GiveSmall(heap, i));
    }

    /** Insert the block, then merge it with its in-order neighbours where they touch. */
    method FreeLarge(ptr: int, n: nat, ghost i: nat)
      requires Valid() && i < |heap.segs| && heap.segs[i] == Seg(ptr, n, Live) && n > MAX_SMALL
      modifies this
      ensures Valid() && heap == Merge(old(heap), i)
    {
      ghost var h' := Merge(heap, i);
      FreePlan(heap, h', i);
      InsertAndMerge(ptr, n, h', i);
      Commit(used - n, freeBlocks, h');
    }

    method InsertAndMerge(ptr: int, n: nat, ghost h': Heap, ghost i: nat)
      requires i < |heap.segs| && heap.segs[i] == Seg(ptr, n, Live) && heap.cap == size && freeBlocks == heap.freeBlocks
      requires Coherent(heap.lists, TreeBlocks(heap.segs)) && FreePlanned(heap, h', i)
      modifies this`mem, this`root, this`tree, this`freeBlocks
      ensures Coherent(h'.lists, TreeBlocks(h'.segs)) && freeBlocks == h'.freeBlocks
    {
      ghost var A, B, f := TreeBlocks(heap.segs[..i]), TreeBlocks(heap.segs[i + 1..]), Block(ptr, n);
      InsertAndCoalesce(ptr, n, heap.lists, A, f, B);
    }

    method InsertAndCoalesce(ptr: int, n: nat, ghost lists: seq<seq<int>>, ghost A: seq<Block>, ghost f: Block, ghost B: seq<Block>)
      requires Coherent(lists, A + B) && InsertBlock(A + B, f) == A + [f] + B && f == Block(ptr, n) && size <= MAX_BLOCK
      requires ptr !in Addrs(A + B) && Unlisted(lists, ptr) && 0 < ptr < LIMIT && ptr % 16 == 0
      requires (B != [] ==> 0 < B[0].size <= size) && 0 < n <= size
      requires TouchesNext(f, B) ==> n + B[0].size <= size
      modifies this`mem, this`root, this`tree, this`freeBlocks
      ensures Coherent(lists, Absorbed(A, f, B, TouchesNext(f, B), TouchesPrev(A, f)))
      ensures freeBlocks == (old(freeBlocks) + 1 - (if TouchesNext(f, B) then 1 else 0) - (if TouchesPrev(A, f) then 1 else 0)) % LIMIT
    {
      ghost var f0 := freeBlocks;
      PutIn(ptr, n, lists, A + B);
      freeBlocks := (freeBlocks + 1) % LIMIT;
      Coalesce(ptr, lists, A, f, B);
      CounterSteps(f0, TouchesNext(f, B), TouchesPrev(A, f));
    }

    method Coalesce(freed: int, ghost lists: seq<seq<int>>, ghost A: seq<Block>, ghost f: Block, ghost B: seq<Block>)
      requires Coherent(lists, A + [f] + B) && f.addr == freed
      requires (B != [] ==> 0 < B[0].size <= size) && 0 < f.size <= size
      requires TouchesNext(f, B) ==> f.size + B[0].size <= size
      modifies this`mem, this`root, this`tree, this`freeBlocks
      ensures Coherent(lists, Absorbed(A, f, B, TouchesNext(f, B), TouchesPrev(A, f)))
      ensures var f2 := if TouchesNext(f, B) then (old(freeBlocks) - 1) % LIMIT else old(freeBlocks);
              freeBlocks == if TouchesPrev(A, f) then (f2 - 1) % LIMIT else f2
    {
      AbsorbedInTurn(A, f, B);
      ghost var g, B' := MergeNext(freed, lists, A, f, B);
      MergePrev(freed, lists, A, g, B');
    }

    /** Coalesce with the successor. */
    method MergeNext(freed: int, ghost lists: seq<seq<int>>, ghost A: seq<Block>, ghost f: Block, ghost B: seq<Block>)
      returns (ghost f': Block, ghost B': seq<Block>)
      requires Coherent(lists, A + [f] + B) && f.addr == freed
      requires B != [] ==> 0 < B[0].size <= size
      modifies this`mem, this`root, this`tree, this`freeBlocks
      ensures f' == (if TouchesNext(f, B) then Block(freed, f.size + B[0].size) else f)
      ensures B' == if TouchesNext(f, B) then B[1..] else B
      ensures Coherent(lists, A + [f'] + B')
      ensures freeBlocks == if TouchesNext(f, B) then (old(freeBlocks) - 1) % LIMIT else old(freeBlocks)
    {
      ghost var s := A + [f] + B;
      f', B' := f, B;
      assert s[|A|] == f;
      RecordAt(mem, root, tree, |A|);
      var succ := Successor(freed, |A|);
      if B != [] {
        assert s[|A| + 1] == B[0];
        RecordAt(mem, root, tree, |A| + 1);
      }
      if succ != NIL {
        var freedEnd := freed + mem[freed].size;
        if freedEnd == succ {
          var succSize := mem[succ].size;
          if succSize > size || succSize == 0 { assert false; }
          InorderSorted(tree, NULL, LIMIT);
          AbsorbNext(A, f, B);
          TakeOut(succ, lists, s);
          assert (A + [f] + B[1..])[|A|] == f;
          GrowBlock(freed, succSize, |A|, lists, A + [f] + B[1..]);
          freeBlocks := (freeBlocks - 1) % LIMIT;
          f', B' := Block(freed, f.size + B[0].size), B[1..];
        }
      }
    }

    /** Coalesce with the predecessor. */
    method MergePrev(freed: int, ghost lists: seq<seq<int>>, ghost A: seq<Block>, ghost f: Block, ghost B: seq<Block>)
      requires Coherent(lists, A + [f] + B) && f.addr == freed
      requires TouchesPrev(A, f) ==> 0 < f.size <= size
      modifies this`mem, this`root, this`tree, this`freeBlocks
      ensures Coherent(lists, Absorbed(A, f, B, false, TouchesPrev(A, f)))
      ensures freeBlocks == if TouchesPrev(A, f) then (old(freeBlocks) - 1) % LIMIT else old(freeBlocks)
    {
      ghost var s := A + [f] + B;
      assert s[|A|] == f;
      RecordAt(mem, root, tree, |A|);
      var prev := Predecessor(freed, |A|);
      if A != [] {
        assert s[|A| - 1] == A[|A| - 1];
        RecordAt(mem, root, tree, |A| - 1);
      }
      if prev != NIL {
        var prevEnd := prev + mem[prev].size;
        if prevEnd == freed {
          var freedSize := mem[freed].size;
          if freedSize > size || freedSize == 0 { assert false; }
          InorderSorted(tree, NULL, LIMIT);
          AbsorbInto(A, f, B);
          TakeOut(freed, lists, s);
          assert (A + B)[|A| - 1] == A[|A| - 1];
          GrowBlock(prev, freedSize, |A| - 1, lists, A + B);
          freeBlocks := (freeBlocks - 1) % LIMIT;
        }
      }
    }

    /** `x->size += extra; update_max_upwards(x)` leaves the small lists alone. */
    method GrowBlock(x: int, extra: nat, ghost i: nat, ghost lists: seq<seq<int>>, ghost content: seq<Block>)
      requires Coherent(lists, content) && i < |content| && content[i].addr == x
      modifies this`mem, this`tree
      ensures Coherent(lists, content[i := Block(x, content[i].size + extra)]) && Touched(old(mem), mem, Addrs(content))
    {
      Grow(x, extra, i);
      ChainsKept(old(mem), mem, freeLists[..], lists, content);
      ResizeAddrs(content, i, content[i].size + extra);
      SeparateShrink(lists, content, lists, content[i := Block(x, content[i].size + extra)]);
      NodesChange(old(mem), mem, lists, content, content[i := Block(x, content[i].size + extra)]);
    }

    // ---------------------------------------------------------- statistics

    /** Total size of the live blocks. */
    method BytesAllocated() returns (r: int)
      requires Valid()
      ensures r == LiveTotal(heap.segs)
    {
      r := used;
    }

    /** Total size of tree blocks and listed blocks. */
    method BytesFree() returns (r: int)
      requires Valid()
      ensures r == FreeTotal(heap.segs)
    {
      BytesConserved(heap);
      r := size - used;
    }
  }

  lemma FreshNodes(m: Memory, base: int, size: nat)
    requires m.Keys == {NIL, base}
    ensures var h := Init(base, size);
            TreeBlocks(h.segs) == [Block(base, size)] && OnlyNodes(m, h.lists, TreeBlocks(h.segs)) &&
            Chains(m, seq(CLASSES, _ => NULL), h.lists) && Separate(h.lists, TreeBlocks(h.segs))
  {
    var h := Init(base, size);
    Single(h.segs[0]);
    assert h.segs == [h.segs[0]];
    assert [Block(base, size)][0].addr in Addrs([Block(base, size)]);
  }

  /** In every valid state the records are exactly the nodes of the free blocks. */
  lemma ShardHoused(a: FreeListAllocator)
    requires a.Valid()
    ensures Housed(a.mem, a.heap)
  {
    HousedBy(a.mem, a.root, a.tree, a.freeLists[..], a.heap);
  }
}
