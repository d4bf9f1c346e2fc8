/** Every operation of the naive allocator keeps the heap invariant, on every run. */
module HeapInvariant {
  import opened Arithmetic
  import opened BlockTree
  import opened HeapModel

  // ------------------------------------------------------------ replacing a stretch of blocks

  lemma Three(a: seq<Seg>, m: seq<Seg>, b: seq<Seg>, lo: int)
    ensures Total(a + m + b) == Total(a) + Total(m) + Total(b)
    ensures LiveTotal(a + m + b) == LiveTotal(a) + LiveTotal(m) + LiveTotal(b)
    ensures FreeCount(a + m + b) == FreeCount(a) + FreeCount(m) + FreeCount(b)
    ensures TreeBlocks(a + m + b) == TreeBlocks(a) + TreeBlocks(m) + TreeBlocks(b)
    ensures Tiles(a + m + b, lo) == (Tiles(a, lo) && Tiles(m, lo + Total(a)) && Tiles(b, lo + Total(a) + Total(m)))
  {
    Distribute(a + m, b, lo);
    Distribute(a, m, lo);
  }

  lemma Parts(s: seq<Seg>, i: nat, j: nat)
    requires i <= j <= |s|
    ensures s == s[..i] + s[i..j] + s[j..]
  {}

  lemma SpliceSums(s: seq<Seg>, i: nat, j: nat, mid: seq<Seg>, lo: int)
    requires i <= j <= |s| && Tiles(s, lo)
    requires Tiles(mid, lo + Total(s[..i])) && Total(mid) == Total(s[i..j])
    ensures var s' := ReplaceSegs(s, i, j, mid);
            Tiles(s', lo) && Total(s') == Total(s) &&
            LiveTotal(s') == LiveTotal(s) - LiveTotal(s[i..j]) + LiveTotal(mid) &&
            FreeCount(s') == FreeCount(s) - FreeCount(s[i..j]) + FreeCount(mid) &&
            TreeBlocks(s') == TreeBlocks(s[..i]) + TreeBlocks(mid) + TreeBlocks(s[j..])
  {
    Parts(s, i, j);
    SwapMiddle(s[..i], s[i..j], s[j..], mid, lo);
  }

  lemma SwapMiddle(a: seq<Seg>, m: seq<Seg>, b: seq<Seg>, mid: seq<Seg>, lo: int)
    requires Tiles(a + m + b, lo) && Tiles(mid, lo + Total(a)) && Total(mid) == Total(m)
    ensures var s, s' := a + m + b, a + mid + b;
            Tiles(s', lo) && Total(s') == Total(s) &&
            LiveTotal(s') == LiveTotal(s) - LiveTotal(m) + LiveTotal(mid) &&
            FreeCount(s') == FreeCount(s) - FreeCount(m) + FreeCount(mid) &&
            TreeBlocks(s') == TreeBlocks(a) + TreeBlocks(mid) + TreeBlocks(b)
  {
    SwapTiles(a, m, b, mid, lo);
    SwapSums(a, m, b, mid);
    DistributeTree(a + mid, b);
    DistributeTree(a, mid);
  }

  lemma SwapTiles(a: seq<Seg>, m: seq<Seg>, b: seq<Seg>, mid: seq<Seg>, lo: int)
    requires Tiles(a + m + b, lo) && Tiles(mid, lo + Total(a)) && Total(mid) == Total(m)
    ensures Tiles(a + mid + b, lo)
  {
    TilesOfThree(a, m, b, lo);
    TilesOfThree(a, mid, b, lo);
  }

  lemma TilesOfThree(a: seq<Seg>, m: seq<Seg>, b: seq<Seg>, lo: int)
    ensures Tiles(a + m + b, lo) == (Tiles(a, lo) && Tiles(m, lo + Total(a)) && Tiles(b, lo + Total(a) + Total(m)))
  {
    DistributeSums(a + m, b, lo);
    DistributeSums(a, m, lo);
  }

  lemma SwapSums(a: seq<Seg>, m: seq<Seg>, b: seq<Seg>, mid: seq<Seg>)
    ensures Total(a + mid + b) == Total(a + m + b) - Total(m) + Total(mid)
    ensures LiveTotal(a + mid + b) == LiveTotal(a + m + b) - LiveTotal(m) + LiveTotal(mid)
    ensures FreeCount(a + mid + b) == FreeCount(a + m + b) - FreeCount(m) + FreeCount(mid)
  {
    DistributeSums(a + m, b, 0);
    DistributeSums(a, m, 0);
    DistributeSums(a + mid, b, 0);
    DistributeSums(a, mid, 0);
  }

  lemma SpliceSized(s: seq<Seg>, i: nat, j: nat, mid: seq<Seg>)
    requires i <= j <= |s| && AllWellSized(s) && AllWellSized(mid)
    ensures AllWellSized(ReplaceSegs(s, i, j, mid))
  {}

  lemma SpliceCoalesced(s: seq<Seg>, i: nat, j: nat, mid: seq<Seg>)
    requires i <= j <= |s| && Coalesced(s) && Coalesced(mid) && mid != []
    requires i > 0 && s[i - 1].kind == InTree ==> mid[0].kind != InTree
    requires j < |s| && s[j].kind == InTree ==> mid[|mid| - 1].kind != InTree
    ensures Coalesced(ReplaceSegs(s, i, j, mid))
  {
    var t := ReplaceSegs(s, i, j, mid);
    forall x, x' | 0 <= x < |t| && 0 <= x' < |t| && x' == x + 1 ensures !(t[x].kind == InTree && t[x'].kind == InTree) {
      if x + 1 < i {
        assert t[x] == s[x] && t[x + 1] == s[x + 1];
      } else if x >= i + |mid| {
        var y := x - i - |mid| + j;
        assert t[x] == s[y] && t[x + 1] == s[y + 1];
      } else if i <= x && x + 1 < i + |mid| {
        assert t[x] == mid[x - i] && t[x + 1] == mid[x - i + 1];
      }
    }
  }

  /** Blocks outside the stretch stay, those inside go. */
  lemma SpliceMember(s: seq<Seg>, i: nat, j: nat, mid: seq<Seg>, lo: int, b: Seg)
    requires i <= j <= |s| && Tiles(s, lo) && AllWellSized(s)
    ensures b in ReplaceSegs(s, i, j, mid) <==> b in mid || (b in s && b !in s[i..j])
  {
    assert s == s[..i] + s[i..j] + s[j..];
    if b in s[i..j] && (b in s[..i] || b in s[j..]) {
      var x :| i <= x < j && s[x] == b;
      var y :| 0 <= y < |s| && !(i <= y < j) && s[y] == b;
      if x < y { TilesOrder(s, x, y, lo); } else { TilesOrder(s, y, x, lo); }
      assert false;
    }
  }

  /** No block starts inside another one. */
  lemma InteriorFree(s: seq<Seg>, i: nat, m: nat, lo: int)
    requires i < |s| && m < |s| && Tiles(s, lo) && AllWellSized(s)
    requires s[i].addr <= s[m].addr < s[i].addr + s[i].size
    ensures m == i
  {
    if m < i { TilesOrder(s, m, i, lo); }
    if i < m { TilesOrder(s, i, m, lo); }
  }

  lemma ModShift(x: int, d: int)
    ensures (x % LIMIT + d) % LIMIT == (x + d) % LIMIT
  {}

  lemma ModBack(x: int, f: int)
    requires f == x % LIMIT
    ensures ((f - 1) % LIMIT + 1) % LIMIT == f && f % LIMIT == f && (f - 1) % LIMIT != f
    ensures ((f - 1) % LIMIT) % LIMIT != f
  {}

  lemma Rem16(a: int, size: int, p: int, n: int)
    requires a % 16 == 0 && size % 16 == 0 && p % 16 == 0 && n % 16 == 0
    ensures (p - a) % 16 == 0 && (a + size - p - n) % 16 == 0
  {}

  /** Replacing a stretch of blocks by others of the same extent keeps the invariant,
      provided lists and counters follow. */
  lemma SpliceInv(h: Heap, i: nat, j: nat, mid: seq<Seg>, h': Heap)
    requires Inv(h) && i < j <= |h.segs| && mid != []
    requires Tiles(mid, h.segs[i].addr) && Total(mid) == Total(h.segs[i..j]) && AllWellSized(mid) && Coalesced(mid)
    requires i > 0 && h.segs[i - 1].kind == InTree ==> mid[0].kind != InTree
    requires j < |h.segs| && h.segs[j].kind == InTree ==> mid[|mid| - 1].kind != InTree
    requires h'.base == h.base && h'.cap == h.cap && h'.segs == ReplaceSegs(h.segs, i, j, mid)
    requires ListsMatch(h'.segs, h'.lists)
    requires h'.used == h.used - LiveTotal(h.segs[i..j]) + LiveTotal(mid)
    requires h'.freeBlocks == (h.freeBlocks - FreeCount(h.segs[i..j]) + FreeCount(mid) - (h'.gaps - h.gaps)) % LIMIT
    ensures Inv(h')
  {
    SpliceTotals(h, i, j, mid);
    SpliceSized(h.segs, i, j, mid);
    SpliceCoalesced(h.segs, i, j, mid);
    ModShift(FreeCount(h.segs) - h.gaps, FreeCount(mid) - FreeCount(h.segs[i..j]) - (h'.gaps - h.gaps));
  }

  lemma SpliceTotals(h: Heap, i: nat, j: nat, mid: seq<Seg>)
    requires Tiles(h.segs, h.base) && i < j <= |h.segs|
    requires Tiles(mid, h.segs[i].addr) && Total(mid) == Total(h.segs[i..j])
    ensures var s' := ReplaceSegs(h.segs, i, j, mid);
            Tiles(s', h.base) && Total(s') == Total(h.segs) &&
            LiveTotal(s') == LiveTotal(h.segs) - LiveTotal(h.segs[i..j]) + LiveTotal(mid) &&
            FreeCount(s') == FreeCount(h.segs) - FreeCount(h.segs[i..j]) + FreeCount(mid)
  {
    TotalSuffix(h.segs, i, h.base);
    SpliceSums(h.segs, i, j, mid, h.base);
  }

  /** Sums over a single block. */
  lemma One(s: seq<Seg>, i: nat)
    requires i < |s|
    ensures s[i..i + 1] == [s[i]]
    ensures Total(s[i..i + 1]) == s[i].size && Tiles([s[i]], s[i].addr)
    ensures LiveTotal(s[i..i + 1]) == (if s[i].kind == Live then s[i].size else 0)
    ensures FreeCount(s[i..i + 1]) == (if s[i].kind == Live then 0 else 1)
  {
    assert s[i..i + 1] == [s[i]];
    Single(s[i]);
  }

  lemma Single(b: Seg)
    ensures Total([b]) == b.size && Tiles([b], b.addr)
    ensures LiveTotal([b]) == (if b.kind == Live then b.size else 0)
    ensures FreeCount([b]) == (if b.kind == Live then 0 else 1)
    ensures TreeBlocks([b]) == if b.kind == InTree then [Block(b.addr, b.size)] else []
  {
    assert [b][1..] == [];
  }

  // ------------------------------------------------------------ list bookkeeping

  /** `s'` has one more small-list block, at `a` in class `k`. */
  ghost predicate AddsListed(s: seq<Seg>, s': seq<Seg>, a: int, k: nat) {
    forall b: Seg :: b.kind == InList ==> (b in s' <==> b in s || b == Seg(a, SizeOf(k), InList))
  }

  ghost predicate SameListed(s: seq<Seg>, s': seq<Seg>) {
    forall b: Seg :: b.kind == InList ==> (b in s' <==> b in s)
  }

  lemma SameLists(s: seq<Seg>, s': seq<Seg>, lists: seq<seq<int>>)
    requires ListsMatch(s, lists) && SameListed(s, s')
    ensures ListsMatch(s', lists)
  {}

  lemma PushLists(s: seq<Seg>, s': seq<Seg>, lists: seq<seq<int>>, k: nat, a: int)
    requires ListsMatch(s, lists) && k < CLASSES && AddsListed(s, s', a, k)
    requires Seg(a, SizeOf(k), InList) !in s
    ensures ListsMatch(s', Push(lists, k, a))
  {
    var lists' := Push(lists, k, a);
    assert a !in lists[k];
    assert NoDuplicates([a] + lists[k]);
    forall j, x | 0 <= j < CLASSES ensures x in lists'[j] <==> Seg(x, SizeOf(j), InList) in s' {
      assert x in lists[j] <==> Seg(x, SizeOf(j), InList) in s;
    }
  }

  lemma PopLists(s: seq<Seg>, s': seq<Seg>, lists: seq<seq<int>>, k: nat)
    requires ListsMatch(s, lists) && k < CLASSES && lists[k] != []
    requires forall b: Seg :: b.kind == InList ==> (b in s' <==> b in s && b != Seg(lists[k][0], SizeOf(k), InList))
    ensures ListsMatch(s', lists[k := lists[k][1..]])
  {
    var a, lists' := lists[k][0], lists[k := lists[k][1..]];
    assert lists[k] == [a] + lists[k][1..];
    assert a !in lists[k][1..];
    forall j, x | 0 <= j < CLASSES ensures x in lists'[j] <==> Seg(x, SizeOf(j), InList) in s' {
      assert x in lists[j] <==> Seg(x, SizeOf(j), InList) in s;
      if j == k { assert x in lists[k] <==> x == a || x in lists[k][1..]; }
    }
  }

  // ------------------------------------------------------------ allocation

  lemma InitInv(base: int, cap: nat)
    requires ArenaOk(base, cap)
    ensures Inv(Init(base, cap)) && Init(base, cap).base == base && Init(base, cap).cap == cap
    ensures Init(base, cap).used == 0 && forall k :: 0 <= k < CLASSES ==> Init(base, cap).lists[k] == []
  {
    var h := Init(base, cap);
    assert h.segs == [Seg(base, cap, InTree)];
    Single(h.segs[0]);
  }

  /** The head of a nonempty list is a block of that class, found by its address. */
  lemma HeadListed(h: Heap, n: nat) returns (i: nat)
    requires Inv(h) && QUANTUM <= n <= MAX_SMALL && n % 16 == 0 && h.lists[ClassOf(n)] != []
    ensures i < |h.segs| && h.segs[i] == Seg(h.lists[ClassOf(n)][0], n, InList)
    ensures i == IndexOf(h.segs, h.lists[ClassOf(n)][0])
  {
    var k := ClassOf(n);
    assert h.lists[k][0] in h.lists[k] && SizeOf(k) == n;
    i :| 0 <= i < |h.segs| && h.segs[i] == Seg(h.lists[k][0], n, InList);
    IndexOfUnique(h.segs, i, h.base);
  }

  lemma TakeSmallInv(h: Heap, n: nat)
    requires Inv(h) && QUANTUM <= n <= MAX_SMALL && n % 16 == 0 && h.lists[ClassOf(n)] != []
    ensures Inv(TakeSmall(h, n).0)
  {
    var i := HeadListed(h, n);
    var mid := [h.segs[i].(kind := Live)];
    One(h.segs, i);
    Single(mid[0]);
    TakeSmallLists(h, n, i);
    assert WellSized(h.segs[i]) && WellSized(mid[0]);
    SpliceInv(h, i, i + 1, mid, TakeSmall(h, n).0);
  }

  lemma TakeSmallLists(h: Heap, n: nat, i: nat)
    requires Inv(h) && QUANTUM <= n <= MAX_SMALL && n % 16 == 0 && h.lists[ClassOf(n)] != []
    requires i < |h.segs| && h.segs[i] == Seg(h.lists[ClassOf(n)][0], n, InList)
    ensures var k := ClassOf(n);
            ListsMatch(ReplaceSegs(h.segs, i, i + 1, [h.segs[i].(kind := Live)]), h.lists[k := h.lists[k][1..]])
  {
    var k, s, mid := ClassOf(n), h.segs, [h.segs[i].(kind := Live)];
    var s' := ReplaceSegs(s, i, i + 1, mid);
    assert s[i..i + 1] == [s[i]] && SizeOf(k) == n;
    forall b: Seg | b.kind == InList ensures b in s' <==> b in s && b != s[i] {
      SpliceMember(s, i, i + 1, mid, h.base, b);
    }
    PopLists(s, s', h.lists, k);
  }

  /** Where a request is cut, gap and remainder are multiples of 16. */
  lemma CutPoint(b: Seg, n: nat, align: nat)
    requires b.addr > 0 && b.addr % 16 == 0 && align >= 16 && align % 16 == 0 && Fits(b, n, align)
    ensures var p := AlignUp(b.addr, align); p % 16 == 0 && b.addr <= p && p + n <= b.addr + b.size
  {
    MultipleOf16(AlignUp(b.addr, align), align);
  }

  lemma CutInv(h: Heap, i: nat, n: nat, p: int)
    requires Inv(h) && i < |h.segs| && h.segs[i].kind == InTree && n >= QUANTUM && n % 16 == 0 && p % 16 == 0
    requires h.segs[i].addr <= p && p + n <= h.segs[i].addr + h.segs[i].size
    ensures Inv(Cut(h, i, n, p).0)
  {
    var s, b := h.segs, h.segs[i];
    var pre, rest := p - b.addr, b.addr + b.size - p - n;
    assert pre % 16 == 0 && rest % 16 == 0 by {
      Aligned(s, i, h.base);
      assert WellSized(b);
      Rem16(b.addr, b.size, p, n);
    }
    var mid, h' := Pieces(b.addr, pre, n, rest), Cut(h, i, n, p).0;
    PiecesFacts(b.addr, pre, n, rest);
    CutLists(h, i, pre, n, rest);
    assert h'.segs == ReplaceSegs(s, i, i + 1, mid);
    assert h'.lists == PushPieces(h.lists, b.addr, pre, n, rest);
    CutSplice(h, i, mid, pre, n, rest, h');
  }

  lemma CutSplice(h: Heap, i: nat, mid: seq<Seg>, pre: nat, n: nat, rest: nat, h': Heap)
    requires Inv(h) && i < |h.segs| && h.segs[i].kind == InTree && mid != []
    requires Tiles(mid, h.segs[i].addr) && Total(mid) == h.segs[i].size && AllWellSized(mid) && Coalesced(mid)
    requires LiveTotal(mid) == (if rest < QUANTUM then n + rest else n)
    requires FreeCount(mid) == (if pre >= QUANTUM then 1 else 0) + (if rest >= QUANTUM then 1 else 0)
    requires h'.base == h.base && h'.cap == h.cap && h'.segs == ReplaceSegs(h.segs, i, i + 1, mid)
    requires ListsMatch(h'.segs, h'.lists)
    requires h'.used == h.used + (if rest < QUANTUM then n + rest else n)
    requires h'.freeBlocks == if rest < QUANTUM then (h.freeBlocks - 1) % LIMIT else h.freeBlocks
    requires h'.gaps == h.gaps + if pre >= QUANTUM then 1 else 0
    ensures Inv(h')
  {
    One(h.segs, i);
    assert i > 0 ==> h.segs[i - 1].kind != InTree;
    assert i + 1 < |h.segs| ==> h.segs[i + 1].kind != InTree;
    ModBack(FreeCount(h.segs) - h.gaps, h.freeBlocks);
    SpliceInv(h, i, i + 1, mid, h');
  }

  lemma PiecesFacts(a: int, pre: nat, n: nat, rest: nat)
    requires pre % 16 == 0 && rest % 16 == 0 && n >= QUANTUM && n % 16 == 0
    ensures var mid := Pieces(a, pre, n, rest);
            Tiles(mid, a) && Total(mid) == pre + n + rest && AllWellSized(mid) && Coalesced(mid) && mid != [] &&
            LiveTotal(mid) == (if rest < QUANTUM then n + rest else n) &&
            FreeCount(mid) == (if pre >= QUANTUM then 1 else 0) + (if rest >= QUANTUM then 1 else 0)
  {
    var got := if rest < QUANTUM then n + rest else n;
    var g, l, r := GapSegs(a, pre), Seg(a + pre, got, Live), RestSegs(a + pre + n, rest);
    Three(g, [l], r, a);
    Single(l);
    GapFacts(a, pre);
    RestFacts(a + pre + n, rest);
    assert WellSized(l);
    Sandwich(g, l, r);
  }

  /** A live block between at most one block on either side. */
  lemma Sandwich(g: seq<Seg>, l: Seg, r: seq<Seg>)
    requires |g| <= 1 && |r| <= 1 && l.kind == Live && AllWellSized(g) && WellSized(l) && AllWellSized(r)
    ensures AllWellSized(g + [l] + r) && Coalesced(g + [l] + r)
  {}

  lemma GapFacts(a: int, pre: nat)
    requires pre % 16 == 0
    ensures var g := GapSegs(a, pre);
            |g| == (if pre >= QUANTUM then 1 else 0) && Tiles(g, a) && Total(g) == pre && AllWellSized(g) &&
            LiveTotal(g) == 0 && FreeCount(g) == |g|
  {
    var g := GapSegs(a, pre);
    if g != [] { Single(g[0]); }
  }

  lemma RestFacts(a: int, rest: nat)
    requires rest % 16 == 0
    ensures var r := RestSegs(a, rest);
            |r| == (if rest >= QUANTUM then 1 else 0) && Tiles(r, a) && Total(r) == rest && AllWellSized(r) &&
            LiveTotal(r) == 0 && FreeCount(r) == |r|
  {
    var r := RestSegs(a, rest);
    if r != [] { Single(r[0]); }
  }

  lemma CutLists(h: Heap, i: nat, pre: nat, n: nat, rest: nat)
    requires Inv(h) && i < |h.segs| && h.segs[i].kind == InTree && n >= QUANTUM
    requires pre % 16 == 0 && rest % 16 == 0 && pre + n + rest == h.segs[i].size
    ensures ListsMatch(ReplaceSegs(h.segs, i, i + 1, Pieces(h.segs[i].addr, pre, n, rest)),
                       PushPieces(h.lists, h.segs[i].addr, pre, n, rest))
  {
    var s, a := h.segs, h.segs[i].addr;
    var g, r := GapSegs(a, pre), RestSegs(a + pre + n, rest);
    var s' := ReplaceSegs(s, i, i + 1, Pieces(a, pre, n, rest));
    CutListed(h, i, pre, n, rest);
    var s1 := s + g;
    var lists1 := if QUANTUM <= pre <= MAX_SMALL then Push(h.lists, ClassOf(pre), a) else h.lists;
    if QUANTUM <= pre <= MAX_SMALL {
      assert SizeOf(ClassOf(pre)) == pre;
      PushLists(s, s1, h.lists, ClassOf(pre), a);
    } else {
      SameLists(s, s1, h.lists);
    }
    if QUANTUM <= rest < MIN_BLOCK {
      assert SizeOf(ClassOf(rest)) == rest;
      PushLists(s1, s', lists1, ClassOf(rest), a + pre + n);
    } else {
      SameLists(s1, s', lists1);
    }
  }

  lemma CutListed(h: Heap, i: nat, pre: nat, n: nat, rest: nat)
    requires Inv(h) && i < |h.segs| && h.segs[i].kind == InTree && n >= QUANTUM && pre + n + rest == h.segs[i].size
    ensures var a := h.segs[i].addr; var s' := ReplaceSegs(h.segs, i, i + 1, Pieces(a, pre, n, rest));
            forall b: Seg :: b.kind == InList ==>
              (b in s' <==> b in h.segs || b in GapSegs(a, pre) || b in RestSegs(a + pre + n, rest))
    ensures var a := h.segs[i].addr;
            forall b: Seg :: b.kind == InList && b in h.segs ==> b.addr != a && (rest > 0 ==> b.addr != a + pre + n)
  {
    var s, a := h.segs, h.segs[i].addr;
    var mid := Pieces(a, pre, n, rest);
    assert s[i..i + 1] == [s[i]];
    forall b: Seg | b.kind == InList
      ensures b in ReplaceSegs(s, i, i + 1, mid) <==> b in s || b in GapSegs(a, pre) || b in RestSegs(a + pre + n, rest)
    {
      SpliceMember(s, i, i + 1, mid, h.base, b);
      assert b in mid <==> b in GapSegs(a, pre) || b in RestSegs(a + pre + n, rest);
    }
    forall b: Seg | b.kind == InList && b in s ensures b.addr != a && (rest > 0 ==> b.addr != a + pre + n) {
      var m :| 0 <= m < |s| && s[m] == b;
      if s[m].addr == a || (rest > 0 && s[m].addr == a + pre + n) { InteriorFree(s, i, m, h.base); }
    }
  }

  lemma EffectiveOk(alignment: nat)
    requires alignment <= 16 || IsPow2(alignment)
    ensures Effective(alignment) >= 16 && Effective(alignment) % 16 == 0
  {
    if alignment > 16 { Pow2Multiple(alignment); }
  }

  lemma AllocateInv(h: Heap, size: nat, alignment: nat)
    requires Inv(h) && AllocOk(size, alignment)
    ensures Inv(Allocate(h, size, alignment).0)
  {
    var n, align := Need(size), Effective(alignment);
    EffectiveOk(alignment);
    if n <= MAX_SMALL && h.lists[ClassOf(n)] != [] {
      TakeSmallInv(h, n);
    } else {
      var i := FirstFitting(h.segs, n, align);
      if i < |h.segs| {
        TotalSuffix(h.segs, i, h.base);
        Aligned(h.segs, i, h.base);
        CutPoint(h.segs[i], n, align);
        CutInv(h, i, n, AlignUp(h.segs[i].addr, align));
      }
    }
  }

  // ------------------------------------------------------------ deallocation

  lemma GiveSmallInv(h: Heap, i: nat)
    requires Inv(h) && i < |h.segs| && h.segs[i].kind == Live && h.segs[i].size <= MAX_SMALL
    ensures Inv(GiveSmall(h, i))
  {
    var s, b := h.segs, h.segs[i];
    var c := b.(kind := InList);
    One(s, i);
    Single(c);
    GiveSmallLists(h, i);
    assert WellSized(b) && WellSized(c);
    SpliceInv(h, i, i + 1, [c], GiveSmall(h, i));
  }

  lemma GiveSmallLists(h: Heap, i: nat)
    requires Inv(h) && i < |h.segs| && h.segs[i].kind == Live && h.segs[i].size <= MAX_SMALL
    ensures var b := h.segs[i];
            ListsMatch(ReplaceSegs(h.segs, i, i + 1, [b.(kind := InList)]), Push(h.lists, ClassOf(b.size), b.addr))
  {
    var s, b := h.segs, h.segs[i];
    var c := b.(kind := InList);
    var s' := ReplaceSegs(s, i, i + 1, [c]);
    assert WellSized(b);
    assert s[i..i + 1] == [b] && SizeOf(ClassOf(b.size)) == b.size;
    forall x: Seg | x.kind == InList ensures x in s' <==> x in s || x == c {
      SpliceMember(s, i, i + 1, [c], h.base, x);
    }
    forall m | 0 <= m < |s| ensures s[m] != c {
      if s[m] == c { InteriorFree(s, i, m, h.base); }
    }
    PushLists(s, s', h.lists, ClassOf(b.size), b.addr);
  }

  lemma MergeInv(h: Heap, i: nat)
    requires Inv(h) && i < |h.segs| && h.segs[i].kind == Live && h.segs[i].size > MAX_SMALL
    ensures Inv(Merge(h, i))
  {
    var s := h.segs;
    var lo := if i > 0 && s[i - 1].kind == InTree then i - 1 else i;
    var hi := if i + 1 < |s| && s[i + 1].kind == InTree then i + 2 else i + 1;
    var merged := Seg(s[lo].addr, Total(s[lo..hi]), InTree);
    MergeStretch(s, i, lo, hi);
    Single(merged);
    MergeLists(h, i, lo, hi, merged);
    SpliceInv(h, lo, hi, [merged], Merge(h, i));
  }

  lemma MergeLists(h: Heap, i: nat, lo: nat, hi: nat, merged: Seg)
    requires Inv(h) && lo <= i < hi <= |h.segs| && i - 1 <= lo && hi <= i + 2 && merged.kind == InTree
    requires h.segs[i].kind == Live
    requires (lo < i ==> h.segs[lo].kind == InTree) && (i + 1 < hi ==> h.segs[i + 1].kind == InTree)
    ensures ListsMatch(ReplaceSegs(h.segs, lo, hi, [merged]), h.lists)
  {
    var s' := ReplaceSegs(h.segs, lo, hi, [merged]);
    forall x: Seg | x.kind == InList ensures x in s' <==> x in h.segs {
      SpliceMember(h.segs, lo, hi, [merged], h.base, x);
    }
    SameLists(h.segs, s', h.lists);
  }

  /** The neighbour to merge on one side, if any. */
  lemma NeighbourFacts(s: seq<Seg>, lo: nat, hi: nat)
    requires AllWellSized(s) && lo <= hi <= lo + 1 && hi <= |s| && (lo < hi ==> s[lo].kind == InTree)
    ensures Total(s[lo..hi]) == (if lo < hi then s[lo].size else 0) && Total(s[lo..hi]) % 16 == 0
    ensures LiveTotal(s[lo..hi]) == 0 && FreeCount(s[lo..hi]) == hi - lo
  {
    if lo < hi {
      One(s, lo);
      assert WellSized(s[lo]);
    }
  }

  lemma Around(s: seq<Seg>, lo: nat, i: nat, hi: nat)
    requires lo <= i < hi <= |s|
    ensures s[lo..hi] == s[lo..i] + [s[i]] + s[i + 1..hi]
  {}

  lemma Sum16(a: nat, b: nat, c: nat)
    requires a % 16 == 0 && b % 16 == 0 && c % 16 == 0
    ensures (a + b + c) % 16 == 0
  {}

  lemma MergeStretch(s: seq<Seg>, i: nat, lo: nat, hi: nat)
    requires AllWellSized(s) && lo <= i < hi <= |s| && i - 1 <= lo && hi <= i + 2 && s[i].kind == Live
    requires s[i].size > MAX_SMALL && (lo < i ==> s[lo].kind == InTree) && (i + 1 < hi ==> s[i + 1].kind == InTree)
    ensures Total(s[lo..hi]) >= s[i].size && Total(s[lo..hi]) % 16 == 0
    ensures Total(s[lo..hi]) == (if lo < i then s[lo].size else 0) + s[i].size + (if i + 1 < hi then s[i + 1].size else 0)
    ensures LiveTotal(s[lo..hi]) == s[i].size && FreeCount(s[lo..hi]) == hi - lo - 1
  {
    assert WellSized(s[i]);
    Around(s, lo, i, hi);
    Three(s[lo..i], [s[i]], s[i + 1..hi], 0);
    Single(s[i]);
    NeighbourFacts(s, lo, i);
    NeighbourFacts(s, i + 1, hi);
    Sum16(Total(s[lo..i]), s[i].size, Total(s[i + 1..hi]));
  }

  lemma DeallocateInv(h: Heap, ptr: int, size: nat)
    requires Inv(h) && DeallocOk(h, ptr, size)
    ensures Inv(Deallocate(h, ptr, size).0)
    ensures var r := Deallocate(h, ptr, size).1;
            r == (if ptr == 0 then Ok(()) else if ptr < h.base || ptr >= h.base + h.cap then Err(BadPointer)
                  else if ptr % 16 != 0 then Err(InvalidAlignment) else Ok(()))
    ensures ptr == 0 || ptr < h.base || ptr >= h.base + h.cap || ptr % 16 != 0 ==> Deallocate(h, ptr, size).0 == h
  {
    if h.base <= ptr < h.base + h.cap && ptr % 16 == 0 {
      var x :| 0 <= x < |h.segs| && h.segs[x] == Seg(ptr, size, Live);
      IndexOfUnique(h.segs, x, h.base);
      if size <= MAX_SMALL { GiveSmallInv(h, x); } else { MergeInv(h, x); }
    }
  }
}
