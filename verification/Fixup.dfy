/** The colour arguments behind the two fixup loops, on tree values. */
module Fixup {
  import opened BlockTree
  import opened TreeMemory

  // ------------------------------------------------------------ insertion

  /** Red-black except that the red node `t` may hang under a red parent (or be the root). */
  predicate InsertOpen(c: Context, t: Tree) {
    !t.Leaf? && t.color == Red &&
    Balanced(t) && NoRedRed(t) &&
    PathBalanced(c, BlackHeight(t)) && PathNoRedRed(c) && PathRootBlack(c)
  }

  function WithColor(c: Context, col: Color): (r: Context)
    requires !c.Top?
    ensures !r.Top? && r.up == c.up && r.sibling == c.sibling
  {
    if c.InLeft? then InLeft(c.up, c.addr, c.size, col, c.sibling)
    else InRight(c.up, c.sibling, c.addr, c.size, col)
  }

  function WithSibling(c: Context, sib: Tree): (r: Context)
    requires !c.Top?
    ensures !r.Top? && r.up == c.up
  {
    if c.InLeft? then InLeft(c.up, c.addr, c.size, c.color, sib)
    else InRight(c.up, sib, c.addr, c.size, c.color)
  }

  /** Red uncle: parent and uncle turn black, the grandparent red. */
  function RecolorFamily(c: Context, t: Tree): Tree
    requires !c.Top? && !c.up.Top? && !c.up.sibling.Leaf?
  {
    Fold(WithSibling(WithColor(c.up, Red), c.up.sibling.(color := Black)), Fold(WithColor(c, Black), t))
  }

  /** What the rules say about a red parent's parent and sibling. */
  lemma InsertFamily(c: Context, t: Tree)
    requires InsertOpen(c, t) && PathColor(c) == Red
    ensures !c.up.Top? && c.up.color == Black && PathRootBlack(c.up.up)
    ensures Balanced(c.sibling) && BlackHeight(c.sibling) == BlackHeight(t)
    ensures NoRedRed(c.sibling) && ColorOf(c.sibling) == Black
    ensures Balanced(c.up.sibling) && BlackHeight(c.up.sibling) == BlackHeight(t) && NoRedRed(c.up.sibling)
    ensures PathBalanced(c.up.up, BlackHeight(t) + 1) && PathNoRedRed(c.up.up)
  {
    var g := c.up;
    assert PathNoRedRed(g) && PathRootBlack(g);
    assert PathBalanced(g, BlackHeight(t));
  }

  lemma InsertRecolor(c: Context, t: Tree)
    requires InsertOpen(c, t) && PathColor(c) == Red
    requires !c.up.Top? && !c.up.sibling.Leaf? && c.up.sibling.color == Red
    ensures InsertOpen(c.up.up, RecolorFamily(c, t))
    ensures Inorder(RecolorFamily(c, t)) == Inorder(Fold(c.up, Fold(c, t)))
  {
    InsertFamily(c, t);
    var p, p' := Fold(c, t), Fold(WithColor(c, Black), t);
    var u, u' := c.up.sibling, c.up.sibling.(color := Black);
    assert Balanced(p') && NoRedRed(p') && BlackHeight(p') == BlackHeight(t) + 1;
    assert Balanced(u') && NoRedRed(u') && BlackHeight(u') == BlackHeight(t) + 1;
    assert Inorder(p') == Inorder(p) && Inorder(u') == Inorder(u);
  }

  /** Black uncle, `t` an inner grandchild: the position after rotating at the parent. */
  lemma InsertTurn(c: Context, t: Tree)
    requires InsertOpen(c, t) && PathColor(c) == Red && !c.up.Top?
    ensures c.InRight? ==>
      InsertOpen(InLeft(c.up, t.addr, t.size, Red, t.right), Node(c.sibling, c.addr, c.size, Red, t.left))
    ensures c.InLeft? ==>
      InsertOpen(InRight(c.up, t.left, t.addr, t.size, Red), Node(t.right, c.addr, c.size, Red, c.sibling))
  {}

  /** Black uncle, `t` an outer grandchild: the final rotation closes the gap. */
  lemma InsertClose(c: Context, t: Tree)
    requires InsertOpen(c, t) && PathColor(c) == Red
    requires !c.up.Top? && ColorOf(c.up.sibling) == Black
    ensures c.InLeft? && c.up.InLeft? ==>
      InsertOpen(InLeft(c.up.up, c.addr, c.size, Black, Node(c.sibling, c.up.addr, c.up.size, Red, c.up.sibling)), t)
    ensures c.InRight? && c.up.InRight? ==>
      InsertOpen(InRight(c.up.up, Node(c.up.sibling, c.up.addr, c.up.size, Red, c.sibling), c.addr, c.size, Black), t)
  {
    InsertFamily(c, t);
    var g := c.up;
    var s := if c.InLeft? then Node(c.sibling, g.addr, g.size, Red, g.sibling)
             else Node(g.sibling, g.addr, g.size, Red, c.sibling);
    assert Balanced(s) && NoRedRed(s) && BlackHeight(s) == BlackHeight(t);
  }

  /** Once the parent is black, blackening the root restores every rule. */
  lemma InsertDone(c: Context, t: Tree)
    requires InsertOpen(c, t) && PathColor(c) == Black
    ensures RedBlack(Blacken(Plug(c, t)))
  {
    PlugRedBlack(c, t);
    BlackenKeeps(Plug(c, t));
  }

  // ------------------------------------------------------------ deletion

  function Blacken(t: Tree): Tree { if t.Leaf? then t else t.(color := Black) }

  lemma BlackenKeeps(t: Tree)
    requires Balanced(t) && NoRedRed(t)
    ensures RedBlack(Blacken(t)) && Inorder(Blacken(t)) == Inorder(t)
  {}

  /** Red-black except that paths through the hole lack one black node;
      a red root of `t` may have red neighbours, since it will be blackened. */
  predicate DeleteOpen(c: Context, t: Tree) {
    Balanced(t) && NoRedRed(Blacken(t)) &&
    PathBalanced(c, BlackHeight(t) + 1) && PathNoRedRed(c) && PathRootBlack(c)
  }

  lemma DeleteDone(c: Context, t: Tree)
    requires DeleteOpen(c, t) && (c.Top? || ColorOf(t) == Red)
    ensures RedBlack(Plug(c, Blacken(t)))
  {
    PlugRedBlack(c, Blacken(t));
  }

  /** The sibling of a doubly black position is never the sentinel. */
  lemma SiblingExists(c: Context, t: Tree)
    requires DeleteOpen(c, t) && !c.Top?
    ensures !c.sibling.Leaf?
  {}

  function AfterRedSibling(c: Context): Context
    requires !c.Top? && !c.sibling.Leaf?
  {
    var w := c.sibling;
    if c.InLeft? then
      InLeft(InLeft(c.up, w.addr, w.size, Black, w.right), c.addr, c.size, Red, w.left)
    else
      InRight(InRight(c.up, w.left, w.addr, w.size, Black), w.right, c.addr, c.size, Red)
  }

  lemma DeleteRedSibling(c: Context, t: Tree)
    requires DeleteOpen(c, t) && !c.Top? && ColorOf(c.sibling) == Red
    ensures c.color == Black
    ensures DeleteOpen(AfterRedSibling(c), t) && ColorOf(AfterRedSibling(c).sibling) == Black
  {}

  lemma DeleteLift(c: Context, t: Tree)
    requires DeleteOpen(c, t) && !c.Top? && ColorOf(t) == Black && ColorOf(c.sibling) == Black
    requires !c.sibling.Leaf? && ColorOf(c.sibling.left) == Black && ColorOf(c.sibling.right) == Black
    ensures DeleteOpen(c.up, Fold(WithSibling(c, c.sibling.(color := Red)), t))
  {
    var w := c.sibling.(color := Red);
    assert Balanced(w) && NoRedRed(w) && BlackHeight(w) == BlackHeight(t);
  }

  /** Near nephew red, far nephew black: rotate the sibling so the far one is red. */
  lemma DeleteTurn(c: Context, t: Tree)
    requires DeleteOpen(c, t) && !c.Top? && !c.sibling.Leaf? && ColorOf(c.sibling) == Black
    ensures c.InLeft? && ColorOf(c.sibling.left) == Red && ColorOf(c.sibling.right) == Black ==>
      var w := c.sibling;
      DeleteOpen(WithSibling(c, RotateRight(Node(w.left.(color := Black), w.addr, w.size, Red, w.right))), t)
    ensures c.InRight? && ColorOf(c.sibling.right) == Red && ColorOf(c.sibling.left) == Black ==>
      var w := c.sibling;
      DeleteOpen(WithSibling(c, RotateLeft(Node(w.left, w.addr, w.size, Red, w.right.(color := Black)))), t)
  {
    var w := c.sibling;
    if c.InLeft? && ColorOf(w.left) == Red && ColorOf(w.right) == Black {
      assert Balanced(w.left) && NoRedRed(w.left);
      var v := Node(w.left.right, w.addr, w.size, Red, w.right);
      assert Balanced(v) && NoRedRed(v) && BlackHeight(v) == BlackHeight(w.left.left);
    } else if c.InRight? && ColorOf(w.right) == Red && ColorOf(w.left) == Black {
      assert Balanced(w.right) && NoRedRed(w.right);
      var v := Node(w.left, w.addr, w.size, Red, w.right.left);
      assert Balanced(v) && NoRedRed(v) && BlackHeight(v) == BlackHeight(w.right.right);
    }
  }

  /** Far nephew red: the subtree after the last rotation. */
  function Closed(c: Context, t: Tree): Tree
    requires !c.Top? && !c.sibling.Leaf?
  {
    var w := c.sibling;
    if c.InLeft? then
      Node(Node(t, c.addr, c.size, Black, w.left), w.addr, w.size, c.color, Blacken(w.right))
    else
      Node(Blacken(w.left), w.addr, w.size, c.color, Node(w.right, c.addr, c.size, Black, t))
  }

  lemma DeleteClose(c: Context, t: Tree)
    requires DeleteOpen(c, t) && !c.Top? && ColorOf(t) == Black
    requires !c.sibling.Leaf? && ColorOf(c.sibling) == Black
    requires ColorOf(if c.InLeft? then c.sibling.right else c.sibling.left) == Red
    ensures DeleteOpen(Top, Plug(c.up, Closed(c, t))) && ColorOf(Plug(c.up, Closed(c, t))) == Black
  {
    var w := c.sibling;
    var far := Blacken(if c.InLeft? then w.right else w.left);
    assert Balanced(w) && NoRedRed(w) && BlackHeight(w) == BlackHeight(t) + 1;
    assert Balanced(w.left) && Balanced(w.right) && NoRedRed(w.left) && NoRedRed(w.right);
    assert Balanced(far) && NoRedRed(far) && BlackHeight(far) == BlackHeight(t) + 1;
    var near := if c.InLeft? then Node(t, c.addr, c.size, Black, w.left) else Node(w.right, c.addr, c.size, Black, t);
    assert Balanced(near) && NoRedRed(near) && BlackHeight(near) == BlackHeight(t) + 1;
    PlugRedBlack(c.up, Closed(c, t));
  }
}
