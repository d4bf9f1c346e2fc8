/** The address-ordered red-black tree of free blocks as a value.

`Tree` records, node by node, what the intrusive `FreeBlock` records of the
allocator hold (address, size, colour, children).  `Context` is a tree with one
subtree cut out: the path from the hole to the root together with the siblings
on the way.  The allocator's loops walk along such paths, so a loop position is
a pair of a context and the subtree in its hole. */
module BlockTree {

  /** A free block of `size` bytes starting at address `addr`. */
  datatype Block = Block(addr: int, size: nat)

  datatype Color = Red | Black

  datatype Tree = Leaf | Node(left: Tree, addr: int, size: nat, color: Color, right: Tree)

  datatype Context = Top
    | InLeft(up: Context, addr: int, size: nat, color: Color, sibling: Tree)
    | InRight(up: Context, sibling: Tree, addr: int, size: nat, color: Color)

  /** The pointer value of the sentinel `nil_`, which lives outside the arena. */
  const NIL: int := -1

  const NULL: int := 0

  /** Addresses are 64-bit: every block address lies strictly between NULL and LIMIT. */
  const LIMIT: int := 0x1_0000_0000_0000_0000

  function Max(a: nat, b: nat): nat { if a < b then b else a }

  // ------------------------------------------------------------ structure

  function Ptr(t: Tree): int { if t.Leaf? then NIL else t.addr }

  function ParentPtr(c: Context): int { if c.Top? then NIL else c.addr }

  /** The parent node that `c` places around the subtree `t`. */
  function Fold(c: Context, t: Tree): Tree
    requires !c.Top?
  {
    match c
    case InLeft(_, a, s, col, sib) => Node(t, a, s, col, sib)
    case InRight(_, sib, a, s, col) => Node(sib, a, s, col, t)
  }

  function Plug(c: Context, t: Tree): Tree {
    if c.Top? then t else Plug(c.up, Fold(c, t))
  }

  function RootPtr(c: Context, p: int): int {
    if c.Top? then p else RootPtr(c.up, c.addr)
  }

  function Keys(t: Tree): set<int> {
    if t.Leaf? then {} else Keys(t.left) + {t.addr} + Keys(t.right)
  }

  function PathKeys(c: Context): set<int> {
    if c.Top? then {} else {c.addr} + Keys(c.sibling) + PathKeys(c.up)
  }

  function Depth(c: Context): nat { if c.Top? then 0 else 1 + Depth(c.up) }

  function Height(t: Tree): nat {
    if t.Leaf? then 0 else 1 + Max(Height(t.left), Height(t.right))
  }

  function Count(t: Tree): nat {
    if t.Leaf? then 0 else Count(t.left) + 1 + Count(t.right)
  }

  lemma {:induction false} PlugPtr(c: Context, t: Tree)
    ensures Ptr(Plug(c, t)) == RootPtr(c, Ptr(t))
    ensures Plug(c, t).Leaf? == (c.Top? && t.Leaf?)
    decreases c
  {
    if c.Top? {
    } else {
      PlugPtr(c.up, Fold(c, t));
    }
  }

  lemma {:induction false} PlugKeys(c: Context, t: Tree)
    ensures Keys(Plug(c, t)) == PathKeys(c) + Keys(t)
    decreases c
  {
    if c.Top? {
    } else {
      PlugKeys(c.up, Fold(c, t));
    }
  }

  // ------------------------------------------------------------ in-order content

  function Inorder(t: Tree): seq<Block> {
    if t.Leaf? then [] else Inorder(t.left) + [Block(t.addr, t.size)] + Inorder(t.right)
  }

  /** Blocks before and after the hole in address order. */
  function Before(c: Context): seq<Block> {
    match c
    case Top => []
    case InLeft(up, _, _, _, _) => Before(up)
    case InRight(up, sib, a, s, _) => Before(up) + (Inorder(sib) + [Block(a, s)])
  }

  function After(c: Context): seq<Block> {
    match c
    case Top => []
    case InLeft(up, a, s, _, sib) => ([Block(a, s)] + Inorder(sib)) + After(up)
    case InRight(up, _, _, _, _) => After(up)
  }

  lemma {:induction false} PlugInorder(c: Context, t: Tree)
    ensures Inorder(Plug(c, t)) == Before(c) + Inorder(t) + After(c)
    decreases c
  {
    if !c.Top? {
      PlugInorder(c.up, Fold(c, t));
      FoldAssoc(Before(c.up), Inorder(t), [Block(c.addr, c.size)], Inorder(c.sibling), After(c.up));
    } else {
      assert [] + Inorder(t) + [] == Inorder(t);
    }
  }

  lemma FoldAssoc(p: seq<Block>, t: seq<Block>, x: seq<Block>, s: seq<Block>, q: seq<Block>)
    ensures p + (t + x + s) + q == p + t + ((x + s) + q)
    ensures p + (s + x + t) + q == (p + (s + x)) + t + q
  {}

  // ------------------------------------------------------------ search order

  /** Every key lies strictly between the bounds and the tree is ordered by address. */
  predicate Ordered(t: Tree, lo: int, hi: int) {
    t.Leaf? || (lo < t.addr < hi && Ordered(t.left, lo, t.addr) && Ordered(t.right, t.addr, hi))
  }

  /** The open interval of addresses the hole of a context may hold. */
  function Lo(c: Context): int {
    match c
    case Top => NULL
    case InLeft(up, _, _, _, _) => Lo(up)
    case InRight(_, _, a, _, _) => a
  }

  function Hi(c: Context): int {
    match c
    case Top => LIMIT
    case InLeft(_, a, _, _, _) => a
    case InRight(up, _, _, _, _) => Hi(up)
  }

  predicate PathOrdered(c: Context) {
    match c
    case Top => true
    case InLeft(up, a, _, _, sib) => Lo(up) < a < Hi(up) && Ordered(sib, a, Hi(up)) && PathOrdered(up)
    case InRight(up, sib, a, _, _) => Lo(up) < a < Hi(up) && Ordered(sib, Lo(up), a) && PathOrdered(up)
  }

  lemma {:induction false} PathBounds(c: Context)
    requires PathOrdered(c)
    ensures NULL <= Lo(c) < Hi(c) <= LIMIT
  {
    if !c.Top? { PathBounds(c.up); }
  }

  lemma {:induction false} KeysBounded(t: Tree, lo: int, hi: int)
    requires Ordered(t, lo, hi)
    ensures forall q :: q in Keys(t) ==> lo < q < hi
  {
    if t.Leaf? {
    } else {
      KeysBounded(t.left, lo, t.addr);
      KeysBounded(t.right, t.addr, hi);
    }
  }

  lemma {:induction false} PathKeysOutside(c: Context)
    requires PathOrdered(c)
    ensures forall q :: q in PathKeys(c) ==> NULL < q < LIMIT && !(Lo(c) < q < Hi(c))
  {
    if c.Top? {
    } else {
      PathBounds(c.up);
      PathKeysOutside(c.up);
      match c
      case InLeft(up, a, _, _, sib) => KeysBounded(sib, a, Hi(up));
      case InRight(up, sib, a, _, _) => KeysBounded(sib, Lo(up), a);
    }
  }

  lemma {:induction false} PlugOrdered(c: Context, t: Tree)
    requires PathOrdered(c) && Ordered(t, Lo(c), Hi(c))
    ensures Ordered(Plug(c, t), NULL, LIMIT)
    decreases c
  {
    if c.Top? {
    } else {
      PlugOrdered(c.up, Fold(c, t));
    }
  }

  predicate Sorted(s: seq<Block>) {
    forall i, j :: 0 <= i < j < |s| ==> s[i].addr < s[j].addr
  }

  predicate AllBetween(s: seq<Block>, lo: int, hi: int) {
    forall i :: 0 <= i < |s| ==> lo < s[i].addr < hi
  }

  lemma {:induction false} InorderSorted(t: Tree, lo: int, hi: int)
    requires Ordered(t, lo, hi)
    ensures Sorted(Inorder(t)) && AllBetween(Inorder(t), lo, hi)
  {
    if t.Leaf? {
    } else {
      InorderSorted(t.left, lo, t.addr);
      InorderSorted(t.right, t.addr, hi);
      var l, r := Inorder(t.left), Inorder(t.right);
      var s := l + [Block(t.addr, t.size)] + r;
      forall i | 0 <= i < |s|
        ensures i < |l| ==> s[i] == l[i]
        ensures i == |l| ==> s[i].addr == t.addr
        ensures i > |l| ==> s[i] == r[i - |l| - 1]
      {}
    }
  }

  /** Addresses of a block sequence. */
  function Addrs(s: seq<Block>): set<int> {
    set i | 0 <= i < |s| :: s[i].addr
  }

  lemma {:induction false} KeysAreAddrs(t: Tree)
    ensures Keys(t) == Addrs(Inorder(t))
  {
    if t.Leaf? {
    } else {
      KeysAreAddrs(t.left);
      KeysAreAddrs(t.right);
      var l, r := Inorder(t.left), Inorder(t.right);
      AddrsConcat(l, [Block(t.addr, t.size)]);
      AddrsConcat(l + [Block(t.addr, t.size)], r);
      assert Addrs([Block(t.addr, t.size)]) == {t.addr} by {
        assert [Block(t.addr, t.size)][0].addr in Addrs([Block(t.addr, t.size)]);
      }
    }
  }

  lemma AddrsConcat(a: seq<Block>, b: seq<Block>)
    ensures Addrs(a + b) == Addrs(a) + Addrs(b)
  {
    forall x | x in Addrs(a) + Addrs(b) ensures x in Addrs(a + b) {
      if x in Addrs(a) {
        var i :| 0 <= i < |a| && a[i].addr == x;
        assert (a + b)[i].addr == x;
      } else {
        var i :| 0 <= i < |b| && b[i].addr == x;
        assert (a + b)[|a| + i].addr == x;
      }
    }
  }

  // ------------------------------------------------------------ red-black rules

  function ColorOf(t: Tree): Color { if t.Leaf? then Black else t.color }

  function PathColor(c: Context): Color { if c.Top? then Black else c.color }

  function Bit(c: Color): nat { if c == Black then 1 else 0 }

  /** Number of black nodes on the leftmost path. */
  function BlackHeight(t: Tree): nat {
    if t.Leaf? then 0 else BlackHeight(t.left) + Bit(t.color)
  }

  /** Every path from a node down to a leaf meets the same number of black nodes. */
  predicate Balanced(t: Tree) {
    t.Leaf? || (Balanced(t.left) && Balanced(t.right) && BlackHeight(t.left) == BlackHeight(t.right))
  }

  predicate NoRedRed(t: Tree) {
    t.Leaf? ||
    (NoRedRed(t.left) && NoRedRed(t.right) &&
     (t.color == Red ==> ColorOf(t.left) == Black && ColorOf(t.right) == Black))
  }

  predicate RedBlack(t: Tree) {
    ColorOf(t) == Black && Balanced(t) && NoRedRed(t)
  }

  /** A subtree of black height `h` in the hole gives a balanced tree. */
  predicate PathBalanced(c: Context, h: nat) {
    c.Top? ||
    (Balanced(c.sibling) && BlackHeight(c.sibling) == h && PathBalanced(c.up, h + Bit(c.color)))
  }

  predicate PathNoRedRed(c: Context) {
    c.Top? ||
    (NoRedRed(c.sibling) && PathNoRedRed(c.up) &&
     (c.color == Red ==> ColorOf(c.sibling) == Black && PathColor(c.up) == Black))
  }

  /** The root is black, whatever is put in the hole (if there is a path at all). */
  predicate PathRootBlack(c: Context) {
    c.Top? || (if c.up.Top? then c.color == Black else PathRootBlack(c.up))
  }

  lemma {:induction false} PlugRedBlack(c: Context, t: Tree)
    requires Balanced(t) && PathBalanced(c, BlackHeight(t))
    requires NoRedRed(t) && PathNoRedRed(c) && (PathColor(c) == Black || ColorOf(t) == Black)
    requires PathRootBlack(c)
    ensures Balanced(Plug(c, t)) && NoRedRed(Plug(c, t))
    ensures ColorOf(Plug(c, t)) == if c.Top? then ColorOf(t) else Black
    decreases c
  {
    if c.Top? {
    } else {
      PlugRedBlack(c.up, Fold(c, t));
    }
  }

  lemma {:induction false} UnplugRedBlack(c: Context, t: Tree)
    requires Balanced(Plug(c, t)) && NoRedRed(Plug(c, t)) && ColorOf(Plug(c, t)) == Black
    ensures Balanced(t) && PathBalanced(c, BlackHeight(t)) && NoRedRed(t) && PathNoRedRed(c)
    ensures PathColor(c) == Black || ColorOf(t) == Black
    ensures PathRootBlack(c) && (c.Top? ==> ColorOf(t) == Black)
    decreases c
  {
    if c.Top? {
    } else {
      UnplugRedBlack(c.up, Fold(c, t));
    }
  }

  // ------------------------------------------------------------ height bound

  function Pow2(n: nat): nat {
    if n == 0 then 1 else 2 * Pow2(n - 1)
  }

  /** Floor of the base-2 logarithm. */
  function Log2(n: nat): nat
    requires n >= 1
  {
    if n == 1 then 0 else 1 + Log2(n / 2)
  }

  lemma {:induction false} Pow2Log(k: nat, n: nat)
    requires n >= 1 && Pow2(k) <= n
    ensures k <= Log2(n)
  {
    if k == 0 {
    } else {
      Pow2Positive(k - 1);
      Pow2Log(k - 1, n / 2);
    }
  }

  lemma {:induction false} Pow2Positive(k: nat)
    ensures Pow2(k) >= 1
  {
    if k == 0 {
    } else {
      Pow2Positive(k - 1);
    }
  }

  lemma {:induction false} CountLower(t: Tree)
    requires Balanced(t)
    ensures Pow2(BlackHeight(t)) <= Count(t) + 1
  {
    if t.Leaf? {
    } else {
      CountLower(t.left);
      CountLower(t.right);
    }
  }

  lemma {:induction false} HeightUpper(t: Tree)
    requires Balanced(t) && NoRedRed(t)
    ensures Height(t) <= 2 * BlackHeight(t) + (if ColorOf(t) == Red then 1 else 0)
  {
    if t.Leaf? {
    } else {
      HeightUpper(t.left);
      HeightUpper(t.right);
    }
  }

  /** The red-black rules bound the height by 2 log2(n + 1). */
  lemma HeightBound(t: Tree)
    requires RedBlack(t)
    ensures Height(t) <= 2 * Log2(Count(t) + 1)
  {
    HeightUpper(t);
    CountLower(t);
    Pow2Log(BlackHeight(t), Count(t) + 1);
  }

  lemma {:induction false} CountIsLength(t: Tree)
    ensures Count(t) == |Inorder(t)|
  {
    if t.Leaf? {
    } else {
      CountIsLength(t.left);
      CountIsLength(t.right);
    }
  }

  // ------------------------------------------------------------ largest block

  /** Largest block size in the tree, 0 when it is empty. */
  function MaxSize(t: Tree): nat {
    if t.Leaf? then 0 else Max(Max(t.size, MaxSize(t.left)), MaxSize(t.right))
  }

  /** `MaxSize` is the maximum over the in-order sequence. */
  lemma {:induction false} MaxSizeIsMaximum(t: Tree)
    ensures forall i :: 0 <= i < |Inorder(t)| ==> Inorder(t)[i].size <= MaxSize(t)
    ensures !t.Leaf? ==> exists i :: 0 <= i < |Inorder(t)| && Inorder(t)[i].size == MaxSize(t)
  {
    if t.Leaf? {
    } else {
      MaxSizeIsMaximum(t.left);
      MaxSizeIsMaximum(t.right);
      var l, r, s := Inorder(t.left), Inorder(t.right), Inorder(t);
      assert s == l + [Block(t.addr, t.size)] + r;
      assert s[|l|] == Block(t.addr, t.size);
      if MaxSize(t) != t.size {
        if !t.left.Leaf? && MaxSize(t) == MaxSize(t.left) {
          var i :| 0 <= i < |l| && l[i].size == MaxSize(t.left);
          assert s[i] == l[i];
        } else if !t.right.Leaf? && MaxSize(t) == MaxSize(t.right) {
          var i :| 0 <= i < |r| && r[i].size == MaxSize(t.right);
          assert s[|l| + 1 + i] == r[i];
        }
      }
    }
  }

  // ------------------------------------------------------------ positions

  /** Descend from the hole of `c` towards address `a`. */
  function Locate(c: Context, t: Tree, a: int): (Context, Tree)
    decreases t
  {
    if t.Leaf? || t.addr == a then (c, t)
    else if a < t.addr then Locate(InLeft(c, t.addr, t.size, t.color, t.right), t.left, a)
    else Locate(InRight(c, t.left, t.addr, t.size, t.color), t.right, a)
  }

  lemma {:induction false} LocateFinds(c: Context, t: Tree, a: int, lo: int, hi: int)
    requires Ordered(t, lo, hi) && a in Keys(t)
    ensures var (d, u) := Locate(c, t, a);
            !u.Leaf? && u.addr == a && Plug(d, u) == Plug(c, t)
    decreases t
  {
    KeysBounded(t.left, lo, t.addr);
    KeysBounded(t.right, t.addr, hi);
    if a < t.addr {
      LocateFinds(InLeft(c, t.addr, t.size, t.color, t.right), t.left, a, lo, t.addr);
    } else if a > t.addr {
      LocateFinds(InRight(c, t.left, t.addr, t.size, t.color), t.right, a, t.addr, hi);
    }
  }

  /** The leftmost node of `t`, with its context. */
  function Leftmost(c: Context, t: Tree): (Context, Tree)
    requires !t.Leaf?
    decreases t
  {
    if t.left.Leaf? then (c, t)
    else Leftmost(InLeft(c, t.addr, t.size, t.color, t.right), t.left)
  }

  lemma {:induction false} LeftmostFacts(c: Context, t: Tree)
    requires !t.Leaf?
    ensures var (d, u) := Leftmost(c, t);
            !u.Leaf? && u.left.Leaf? && Plug(d, u) == Plug(c, t) && Before(d) == Before(c)
    ensures PathRootBlack(c) && !c.Top? ==> PathRootBlack(Leftmost(c, t).0) && !Leftmost(c, t).0.Top?
    decreases t
  {
    if t.left.Leaf? {
    } else {
      LeftmostFacts(InLeft(c, t.addr, t.size, t.color, t.right), t.left);
    }
  }

}
