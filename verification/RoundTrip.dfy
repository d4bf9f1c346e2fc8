/** When freeing at once undoes an allocation, and when the returned pointer is aligned. */
module RoundTrip {
  import opened Arithmetic
  import opened BlockTree
  import opened HeapModel
  import opened HeapInvariant
  import opened HeapTheorems

  /** The request is served from its small list. */
  predicate FromList(h: Heap, size: nat) {
    var n := Need(size);
    n <= MAX_SMALL && ClassOf(n) < |h.lists| && h.lists[ClassOf(n)] != []
  }

  // ------------------------------------------------------------ allocate then free

  /** Observable state: everything but the gap counter, which the code does not keep. */
  predicate SameState(h: Heap, h': Heap) { h' == h.(gaps := h'.gaps) }

  function Freed(h: Heap, size: nat, alignment: nat): Heap
    requires Allocate(h, size, alignment).1.Ok?
  {
    var (h', r) := Allocate(h, size, alignment);
    Deallocate(h', r.value.ptr, r.value.actualSize).0
  }

  /** Served from a list, or from the tree with no gap and a remainder that is zero or
      goes back to the tree, and too large for the lists. */
  predicate Undoable(h: Heap, size: nat, alignment: nat) {
    var n, align := Need(size), Effective(alignment);
    FromList(h, size) ||
    var i := FirstFitting(h.segs, n, align);
    i < |h.segs| && n > MAX_SMALL &&
    AlignUp(h.segs[i].addr, align) == h.segs[i].addr &&
    (h.segs[i].size == n || h.segs[i].size - n >= MIN_BLOCK)
  }

  lemma SmallUndone(h: Heap, n: nat)
    requires Inv(h) && QUANTUM <= n <= MAX_SMALL && n % 16 == 0 && h.lists[ClassOf(n)] != []
    ensures var (h', r) := TakeSmall(h, n); r.Ok? && Deallocate(h', r.value.ptr, r.value.actualSize).0 == h
  {
    var i := HeadListed(h, n);
    var k, a, s := ClassOf(n), h.segs[i].addr, h.segs;
    var (h', r) := TakeSmall(h, n);
    TakeSmallInv(h, n);
    BlockShape(h, i);
    var s' := h'.segs;
    assert s' == s[i := Seg(a, n, Live)];
    IndexOfUnique(s', i, h.base);
    ModBack(FreeCount(s) - h.gaps, h.freeBlocks);
    GivenBack(h, h', i, n);
    DeallocateGives(h', i, a, n);
  }

  /** Giving the head of a list back restores every field. */
  lemma GivenBack(h: Heap, h': Heap, i: nat, n: nat)
    requires 0 <= ClassOf(n) < |h.lists| && h.lists[ClassOf(n)] != [] && i < |h.segs|
    requires h.segs[i] == Seg(h.lists[ClassOf(n)][0], n, InList) && ((h.freeBlocks - 1) % LIMIT + 1) % LIMIT == h.freeBlocks
    requires h' == h.(segs := h.segs[i := h.segs[i].(kind := Live)], lists := h.lists[ClassOf(n) := h.lists[ClassOf(n)][1..]],
                      used := h.used + n, freeBlocks := (h.freeBlocks - 1) % LIMIT)
    ensures GiveSmall(h', i) == h
  {
    var k, a := ClassOf(n), h.segs[i].addr;
    assert h.lists[k] == [a] + h.lists[k][1..];
    assert Push(h'.lists, k, a) == h.lists;
    assert ReplaceSegs(h'.segs, i, i + 1, [h.segs[i]]) == h.segs;
  }

  lemma DeallocateGives(h: Heap, j: nat, p: int, n: nat)
    requires 0 < h.base <= p < h.base + h.cap && p % 16 == 0 && n <= MAX_SMALL
    requires j < |h.segs| && IndexOf(h.segs, p) == j
    ensures Deallocate(h, p, n).0 == GiveSmall(h, j)
  {}

  /** Where a cut is possible, and where its live block then is. */
  predicate CutReady(h: Heap, i: nat, n: nat, p: int) {
    i < |h.segs| && h.segs[i].kind == InTree && Coalesced(h.segs) && 0 <= h.freeBlocks < LIMIT &&
    0 < h.base <= p < h.base + h.cap && p % 16 == 0 && h.segs[i].addr <= p && p + n <= h.segs[i].addr + h.segs[i].size &&
    (p == h.segs[i].addr || p >= h.segs[i].addr + QUANTUM) &&
    (p + n == h.segs[i].addr + h.segs[i].size || p + n + QUANTUM <= h.segs[i].addr + h.segs[i].size) &&
    IndexOf(Cut(h, i, n, p).0.segs, p) == i + if p == h.segs[i].addr then 0 else 1
  }

  lemma GetReady(h: Heap, i: nat, n: nat, p: int)
    requires Inv(h) && i < |h.segs| && h.segs[i].kind == InTree && n >= QUANTUM && n % 16 == 0 && p % 16 == 0
    requires h.segs[i].addr <= p && p + n <= h.segs[i].addr + h.segs[i].size
    ensures CutReady(h, i, n, p)
  {
    assert (p == h.segs[i].addr || p >= h.segs[i].addr + QUANTUM) && h.base <= p < h.base + h.cap &&
           (p + n == h.segs[i].addr + h.segs[i].size || p + n + QUANTUM <= h.segs[i].addr + h.segs[i].size)
    by {
      BlockShape(h, i);
      Rem16(h.segs[i].addr, h.segs[i].size, p, n);
    }
    AfterCut(h, i, n, p);
    CutInv(h, i, n, p);
    IndexOfUnique(Cut(h, i, n, p).0.segs, i + if p == h.segs[i].addr then 0 else 1, h.base);
  }

  /** The blocks after a cut, seen from the index of the new live block. */
  lemma AfterCut(h: Heap, i: nat, n: nat, p: int)
    requires i < |h.segs| && h.segs[i].addr <= p && p + n <= h.segs[i].addr + h.segs[i].size
    requires p - h.segs[i].addr == 0 || p - h.segs[i].addr >= QUANTUM
    requires var rest := h.segs[i].addr + h.segs[i].size - p - n; rest == 0 || rest >= QUANTUM
    ensures var b, s' := h.segs[i], Cut(h, i, n, p).0.segs;
            var pre, rest := p - b.addr, b.addr + b.size - p - n;
            var g := if pre == 0 then 0 else 1;
            i + g < |s'| && s'[i + g] == Seg(p, n, Live) && s'[..i] == h.segs[..i] &&
            s'[i + g + 1..] == RestSegs(p + n, rest) + h.segs[i + 1..] &&
            (pre > 0 ==> s'[i] == GapSegs(b.addr, pre)[0])
  {
    var b := h.segs[i];
    assert Cut(h, i, n, p).0.segs == ReplaceSegs(h.segs, i, i + 1, Pieces(b.addr, p - b.addr, n, b.addr + b.size - p - n));
    CutLayout(h.segs, i, GapSegs(b.addr, p - b.addr), Seg(p, n, Live), RestSegs(p + n, b.addr + b.size - p - n));
  }

  lemma CutLayout(s: seq<Seg>, i: nat, g: seq<Seg>, l: Seg, r: seq<Seg>)
    requires i < |s|
    ensures var s' := ReplaceSegs(s, i, i + 1, g + [l] + r);
            |s'| == |s| + |g| + |r| && s'[i + |g|] == l && s'[..i] == s[..i] &&
            s'[i + |g| + 1..] == r + s[i + 1..] && (g != [] ==> s'[i] == g[0])
  {}

  lemma TreeUndone(h: Heap, i: nat, n: nat)
    requires i < |h.segs| && CutReady(h, i, n, h.segs[i].addr) && n > MAX_SMALL
    requires h.segs[i].size == n || h.segs[i].size - n >= MIN_BLOCK
    ensures var (h', r) := Cut(h, i, n, h.segs[i].addr);
            r == Ok(AllocationResult(h.segs[i].addr, h.segs[i].addr - h.base, n)) &&
            Deallocate(h', h.segs[i].addr, n).0 == h
  {
    var h' := Cut(h, i, n, h.segs[i].addr).0;
    AfterCut(h, i, n, h.segs[i].addr);
    CutFields(h, i, n);
    MergedBack(h.segs, h'.segs, i, n);
    ModBack(h.freeBlocks, h.freeBlocks);
    DeallocateMerges(h', i, h.segs[i].addr, n);
    MergeRestores(h, h', i, n);
  }

  /** Counters and lists after a cut without gap and without a listed remainder. */
  lemma CutFields(h: Heap, i: nat, n: nat)
    requires i < |h.segs| && (h.segs[i].size == n || h.segs[i].size - n >= MIN_BLOCK)
    ensures var (h', r) := Cut(h, i, n, h.segs[i].addr);
            r == Ok(AllocationResult(h.segs[i].addr, h.segs[i].addr - h.base, n)) &&
            h' == h.(segs := h'.segs, used := h.used + n,
                     freeBlocks := if h.segs[i].size == n then (h.freeBlocks - 1) % LIMIT else h.freeBlocks)
  {}

  /** The merge puts every field back. */
  lemma MergeRestores(h: Heap, h': Heap, i: nat, n: nat)
    requires i < |h.segs| && h.segs[i].kind == InTree && i < |h'.segs| && h'.segs[i] == Seg(h.segs[i].addr, n, Live)
    requires 0 <= h.freeBlocks < LIMIT && ((h.freeBlocks - 1) % LIMIT + 1) % LIMIT == h.freeBlocks
    requires h' == h.(segs := h'.segs, used := h.used + n,
                      freeBlocks := if h.segs[i].size == n then (h.freeBlocks - 1) % LIMIT else h.freeBlocks)
    requires i > 0 ==> h'.segs[i - 1].kind != InTree
    requires var hi := if i + 1 < |h'.segs| && h'.segs[i + 1].kind == InTree then i + 2 else i + 1;
             hi == (if h.segs[i].size == n then i + 1 else i + 2) &&
             Total(h'.segs[i..hi]) == h.segs[i].size && ReplaceSegs(h'.segs, i, hi, [h.segs[i]]) == h.segs
    ensures Merge(h', i) == h
  {}

  /** Merging the live block of a gapless cut with its remainder gives the old blocks back. */
  lemma MergedBack(s: seq<Seg>, s': seq<Seg>, i: nat, n: nat)
    requires i < |s| && Coalesced(s) && s[i].kind == InTree && (s[i].size == n || s[i].size - n >= MIN_BLOCK)
    requires i < |s'| && s'[..i] == s[..i] && s'[i] == Seg(s[i].addr, n, Live)
    requires s'[i + 1..] == RestSegs(s[i].addr + n, s[i].size - n) + s[i + 1..]
    ensures i > 0 ==> s'[i - 1].kind != InTree
    ensures var hi := if i + 1 < |s'| && s'[i + 1].kind == InTree then i + 2 else i + 1;
            hi == (if s[i].size == n then i + 1 else i + 2) &&
            Total(s'[i..hi]) == s[i].size && ReplaceSegs(s', i, hi, [s[i]]) == s
  {
    var b, rest := s[i], s[i].size - n;
    assert i > 0 ==> s'[i - 1] == s[..i][i - 1];
    Single(s'[i]);
    if rest == 0 {
      assert i + 1 < |s'| ==> s'[i + 1] == s'[i + 1..][0] == s[i + 1];
      assert s'[i..i + 1] == [s'[i]];
    } else {
      var r := Seg(b.addr + n, rest, InTree);
      assert s'[i + 1] == s'[i + 1..][0] == r;
      assert s'[i..i + 2] == [s'[i]] + [r];
      Single(r);
      Distribute([s'[i]], [r], 0);
      assert s'[i + 2..] == s'[i + 1..][1..] == s[i + 1..];
    }
  }

  /** A block listed inside what used to be one tree block is a trace of the allocation. */
  lemma Trace(h: Heap, h': Heap, i: nat, b: Seg)
    requires Inv(h) && i < |h.segs| && h.segs[i].kind == InTree
    requires b in h'.segs && b.kind == InList && Holds(h.segs[i], b.addr)
    ensures !SameState(h, h')
  {
    if SameState(h, h') {
      var m :| 0 <= m < |h.segs| && h.segs[m] == b;
      InteriorFree(h.segs, i, m, h.base);
      assert false;
    }
  }

  lemma CutReturns(h: Heap, i: nat, n: nat, p: int)
    requires CutReady(h, i, n, p)
    ensures Cut(h, i, n, p).1 == Ok(AllocationResult(p, p - h.base, n))
  {}

  lemma TreeNotUndone(h: Heap, i: nat, n: nat, p: int)
    requires Inv(h) && CutReady(h, i, n, p) && n >= QUANTUM
    requires n <= MAX_SMALL || p != h.segs[i].addr || !(h.segs[i].size == n || h.segs[i].size - n >= MIN_BLOCK)
    ensures var (h', r) := Cut(h, i, n, p);
            r == Ok(AllocationResult(p, p - h.base, n)) && !SameState(h, Deallocate(h', p, n).0)
  {
    var h' := Cut(h, i, n, p).0;
    var h'' := Deallocate(h', p, n).0;
    var a, rest := h.segs[i].addr, h.segs[i].addr + h.segs[i].size - p - n;
    CutReturns(h, i, n, p);
    if n > MAX_SMALL && p - a > MAX_SMALL && (rest == 0 || rest >= MIN_BLOCK) {
      CounterLost(h, i, n, p);
    } else {
      if n <= MAX_SMALL { SmallWitness(h, i, n, p); } else { LargeWitness(h, i, n, p); }
      Trace(h, h'', i, Witness(h.segs[i], n, p));
    }
  }

  /** A listed block that the allocation leaves behind. */
  function Witness(b: Seg, n: nat, p: int): Seg
    requires b.addr <= p && p + n <= b.addr + b.size
  {
    var rest := b.addr + b.size - p - n;
    if n <= MAX_SMALL then Seg(p, n, InList)
    else if 0 < rest < MIN_BLOCK then Seg(p + n, rest, InList)
    else Seg(b.addr, p - b.addr, InList)
  }

  lemma SmallWitness(h: Heap, i: nat, n: nat, p: int)
    requires CutReady(h, i, n, p) && QUANTUM <= n <= MAX_SMALL
    ensures Seg(p, n, InList) in Deallocate(Cut(h, i, n, p).0, p, n).0.segs
  {
    var h', j := Cut(h, i, n, p).0, i + if p == h.segs[i].addr then 0 else 1;
    AfterCut(h, i, n, p);
    GivenWitness(h', j);
    assert Deallocate(h', p, n).0 == GiveSmall(h', j);
  }

  lemma DeallocateMerges(h: Heap, j: nat, p: int, n: nat)
    requires 0 < h.base <= p < h.base + h.cap && p % 16 == 0 && n > MAX_SMALL
    requires j < |h.segs| && IndexOf(h.segs, p) == j
    ensures Deallocate(h, p, n).0 == Merge(h, j)
  {}

  lemma LargeWitness(h: Heap, i: nat, n: nat, p: int)
    requires CutReady(h, i, n, p) && n > MAX_SMALL
    requires var pre, rest := p - h.segs[i].addr, h.segs[i].addr + h.segs[i].size - p - n;
             0 < rest < MIN_BLOCK || 0 < pre <= MAX_SMALL
    ensures Witness(h.segs[i], n, p) in Deallocate(Cut(h, i, n, p).0, p, n).0.segs
  {
    var h', j := Cut(h, i, n, p).0, i + if p == h.segs[i].addr then 0 else 1;
    assert j < |h'.segs| && j == IndexOf(h'.segs, p) && Neighbours(h, i, n, p, h'.segs, j) by { CutNeighbours(h, i, n, p); }
    DeallocateMerges(h', j, p, n);
    NeighbourSurvives(h', j, Witness(h.segs[i], n, p));
  }

  /** A listed gap or remainder lies right beside the new live block. */
  predicate Neighbours(h: Heap, i: nat, n: nat, p: int, s': seq<Seg>, j: nat)
    requires CutReady(h, i, n, p)
  {
    var pre, rest := p - h.segs[i].addr, h.segs[i].addr + h.segs[i].size - p - n;
    (0 < rest < MIN_BLOCK ==> j + 1 < |s'| && s'[j + 1] == Seg(p + n, rest, InList)) &&
    (0 < pre <= MAX_SMALL ==> 0 < j <= |s'| && s'[j - 1] == Seg(h.segs[i].addr, pre, InList))
  }

  lemma CutNeighbours(h: Heap, i: nat, n: nat, p: int)
    requires CutReady(h, i, n, p) && n > MAX_SMALL
    ensures var s', j := Cut(h, i, n, p).0.segs, i + if p == h.segs[i].addr then 0 else 1;
            j < |s'| && Neighbours(h, i, n, p, s', j)
  {
    AfterCut(h, i, n, p);
    var s', j := Cut(h, i, n, p).0.segs, i + if p == h.segs[i].addr then 0 else 1;
    if p + n < h.segs[i].addr + h.segs[i].size { assert s'[j + 1] == s'[j + 1..][0]; }
  }

  lemma GivenWitness(h: Heap, j: nat)
    requires j < |h.segs|
    ensures h.segs[j].(kind := InList) in GiveSmall(h, j).segs
  {
    assert GiveSmall(h, j).segs[j] == h.segs[j].(kind := InList);
  }

  /** Listed neighbours are not merged. */
  lemma NeighbourSurvives(h: Heap, j: nat, w: Seg)
    requires j < |h.segs| && w.kind == InList
    requires (j + 1 < |h.segs| && h.segs[j + 1] == w) || (j > 0 && h.segs[j - 1] == w)
    ensures w in Merge(h, j).segs
  {
    var s, t := h.segs, Merge(h, j).segs;
    var lo := if j > 0 && s[j - 1].kind == InTree then j - 1 else j;
    if j + 1 < |s| && s[j + 1] == w { assert t[lo + 1] == w; } else { assert t[j - 1] == w; }
  }

  /** A front gap that goes to the tree is merged back, but the counter lost one block. */
  lemma CounterLost(h: Heap, i: nat, n: nat, p: int)
    requires CutReady(h, i, n, p) && n > MAX_SMALL && h.segs[i].addr + MAX_SMALL < p
    requires var rest := h.segs[i].addr + h.segs[i].size - p - n; rest == 0 || rest >= MIN_BLOCK
    ensures Deallocate(Cut(h, i, n, p).0, p, n).0.freeBlocks != h.freeBlocks
  {
    var h', rest := Cut(h, i, n, p).0, h.segs[i].addr + h.segs[i].size - p - n;
    assert Deallocate(h', p, n).0.freeBlocks == (h'.freeBlocks - if rest == 0 then 0 else 1) % LIMIT by {
      AfterCut(h, i, n, p);
      GapMerge(h, h', i, p, n);
    }
    ModBack(h.freeBlocks, h.freeBlocks);
  }

  lemma GapMerge(h: Heap, h': Heap, i: nat, p: int, n: nat)
    requires i < |h.segs| && Coalesced(h.segs) && h.segs[i].kind == InTree
    requires p % 16 == 0 && n > MAX_SMALL && 0 < h'.base <= p < h'.base + h'.cap
    requires p + n <= h.segs[i].addr + h.segs[i].size
    requires i + 1 < |h'.segs| && h'.segs[i].kind == InTree && IndexOf(h'.segs, p) == i + 1
    requires var rest := h.segs[i].addr + h.segs[i].size - p - n;
             (rest == 0 || rest >= MIN_BLOCK) && h'.segs[i + 2..] == RestSegs(p + n, rest) + h.segs[i + 1..]
    ensures var rest := h.segs[i].addr + h.segs[i].size - p - n;
            Deallocate(h', p, n).0.freeBlocks == (h'.freeBlocks - if rest == 0 then 0 else 1) % LIMIT
  {
    DeallocateMerges(h', i + 1, p, n);
    var rest := h.segs[i].addr + h.segs[i].size - p - n;
    RemainderFollows(h.segs, i, h'.segs, p + n, rest);
  }

  /** What follows a cut block is a tree block if and only if there is a remainder. */
  lemma RemainderFollows(s: seq<Seg>, i: nat, s': seq<Seg>, q: int, rest: nat)
    requires i < |s| && Coalesced(s) && s[i].kind == InTree && i + 1 < |s'| && (rest == 0 || rest >= MIN_BLOCK)
    requires s'[i + 2..] == RestSegs(q, rest) + s[i + 1..]
    ensures (i + 2 < |s'| && s'[i + 2].kind == InTree) == (rest > 0)
  {
    if i + 2 < |s'| { assert s'[i + 2] == s'[i + 2..][0]; }
  }

  /** Allocating and freeing at once restores every free block, list and counter if and
      only if the request is `Undoable`. */
  lemma AllocateFreeIdentity(h: Heap, size: nat, alignment: nat)
    requires Inv(h) && AllocOk(size, alignment) && Allocate(h, size, alignment).1.Ok?
    ensures SameState(h, Freed(h, size, alignment)) <==> Undoable(h, size, alignment)
    ensures Undoable(h, size, alignment) ==> Freed(h, size, alignment) == h
  {
    var n, align := Need(size), Effective(alignment);
    if FromList(h, size) {
      SmallUndone(h, n);
    } else {
      var i := FirstFitting(h.segs, n, align);
      FittingCut(h, i, n, alignment);
      TreeRoundTrip(h, i, n, AlignUp(h.segs[i].addr, align));
    }
  }

  lemma FittingCut(h: Heap, i: nat, n: nat, alignment: nat)
    requires Inv(h) && i < |h.segs| && (alignment <= 16 || IsPow2(alignment)) && Fits(h.segs[i], n, Effective(alignment))
    ensures var p := AlignUp(h.segs[i].addr, Effective(alignment));
            p % 16 == 0 && h.segs[i].addr <= p && p + n <= h.segs[i].addr + h.segs[i].size
  {
    BlockShape(h, i);
    EffectiveOk(alignment);
    CutPoint(h.segs[i], n, Effective(alignment));
  }

  /** Cutting and freeing at once restores the state exactly if there is no gap, the remainder
      is zero or goes back to the tree, and the block is too large for the lists. */
  lemma TreeRoundTrip(h: Heap, i: nat, n: nat, p: int)
    requires Inv(h) && i < |h.segs| && h.segs[i].kind == InTree && n >= QUANTUM && n % 16 == 0 && p % 16 == 0
    requires h.segs[i].addr <= p && p + n <= h.segs[i].addr + h.segs[i].size
    ensures var (h', r) := Cut(h, i, n, p);
            var back := Deallocate(h', p, n).0;
            var good := n > MAX_SMALL && p == h.segs[i].addr && (h.segs[i].size == n || h.segs[i].size - n >= MIN_BLOCK);
            r == Ok(AllocationResult(p, p - h.base, n)) && (SameState(h, back) <==> good) && (good ==> back == h)
  {
    GetReady(h, i, n, p);
    if n > MAX_SMALL && p == h.segs[i].addr && (h.segs[i].size == n || h.segs[i].size - n >= MIN_BLOCK) {
      TreeUndone(h, i, n);
    } else {
      TreeNotUndone(h, i, n, p);
    }
  }

  /** Freeing a block of a small class and asking for as much again gives the same block and the
      same state back: lists are last in, first out. */
  lemma FreeAllocateIdentity(h: Heap, ptr: int, n: nat, size: nat, alignment: nat)
    requires Inv(h) && Seg(ptr, n, Live) in h.segs && n <= 128 && RoundsTo(size, n) && AllocOk(size, alignment)
    ensures Allocate(Deallocate(h, ptr, n).0, size, alignment) == (h, Ok(AllocationResult(ptr, ptr - h.base, n)))
  {
    var i :| 0 <= i < |h.segs| && h.segs[i] == Seg(ptr, n, Live);
    BlockShape(h, i);
    assert WellSized(h.segs[i]);
    IndexOfUnique(h.segs, i, h.base);
    DeallocateGives(h, i, ptr, n);
    RoundedOnce(size, n, Need(size));
    var h1 := GiveSmall(h, i);
    assert h1.segs == h.segs[i := Seg(ptr, n, InList)];
    GiveSmallInv(h, i);
    IndexOfUnique(h1.segs, i, h1.base);
    TakenAgain(h, i, n);
  }

  lemma TakenAgain(h: Heap, i: nat, n: nat)
    requires i < |h.segs| && h.segs[i].kind == Live && h.segs[i].size == n && 0 <= ClassOf(n) < |h.lists|
    requires 0 <= h.freeBlocks < LIMIT && IndexOf(GiveSmall(h, i).segs, h.segs[i].addr) == i
    ensures var h1, a := GiveSmall(h, i), h.segs[i].addr;
            h1.lists[ClassOf(n)] != [] && |h1.lists| == |h.lists| && h1.base == h.base &&
            TakeSmall(h1, n) == (h, Ok(AllocationResult(a, a - h.base, n)))
  {
    var h1, k, a := GiveSmall(h, i), ClassOf(n), h.segs[i].addr;
    assert h1.lists[k][0] == a && h1.lists[k][1..] == h.lists[k];
    assert ReplaceSegs(h1.segs, i, i + 1, [h.segs[i]]) == h.segs;
    assert h1.lists[k := h1.lists[k][1..]] == h.lists;
  }

  // ------------------------------------------------------------ alignment of the result

  /** The result meets the requested alignment if and only if it does not come from a
      small list whose head is misaligned: lists ignore alignments above 16. */
  lemma AlignmentMet(h: Heap, size: nat, alignment: nat)
    requires Inv(h) && AllocOk(size, alignment) && Allocate(h, size, alignment).1.Ok?
    ensures Allocate(h, size, alignment).1.value.ptr % Effective(alignment) == 0 <==>
            (FromList(h, size) ==> h.lists[ClassOf(Need(size))][0] % Effective(alignment) == 0)
    ensures Effective(alignment) == 16 ==> Allocate(h, size, alignment).1.value.ptr % 16 == 0
  {
    AllocateLives(h, size, alignment);
  }

  /** A run whose last request, for alignment 64, returns a pointer that is not 64-aligned. */
  lemma ListIgnoresAlignment()
    ensures var h := Run(Init(4096, 4096), [Alloc(16, 16), Alloc(16, 16), Dealloc(4112, 16)]);
            Legal(Init(4096, 4096), [Alloc(16, 16), Alloc(16, 16), Dealloc(4112, 16)]) && Inv(h) &&
            AllocOk(16, 64) && Allocate(h, 16, 64).1 == Ok(AllocationResult(4112, 16, 16)) && 4112 % 64 != 0
  {
    var h0 := Init(4096, 4096);
    var h1 := FirstStep(h0);
    var h2 := SecondStep(h1);
    var h3 := ThirdStep(h2);
    RunOfThree(h0, Alloc(16, 16), Alloc(16, 16), Dealloc(4112, 16));
    InitInv(4096, 4096);
    RunInv(h0, [Alloc(16, 16), Alloc(16, 16), Dealloc(4112, 16)]);
    SixtyFour();
    HeadServed(h3);
  }

  lemma RunOfThree(h: Heap, a: Op, b: Op, c: Op)
    requires OpOk(h, a) && OpOk(Step(h, a), b) && OpOk(Step(Step(h, a), b), c)
    ensures Legal(h, [a, b, c]) && Run(h, [a, b, c]) == Step(Step(Step(h, a), b), c)
  {
    assert [a, b, c][1..] == [b, c] && [b, c][1..] == [c] && [c][1..] == [];
    assert Legal(Step(Step(h, a), b), [c]) && Run(Step(Step(h, a), b), [c]) == Step(Step(Step(h, a), b), c);
    assert Legal(Step(h, a), [b, c]) && Run(Step(h, a), [b, c]) == Step(Step(Step(h, a), b), c);
  }

  lemma HeadServed(h: Heap)
    requires |h.lists| == CLASSES && h.lists[0] == [4112] && h.base == 4096
    ensures Allocate(h, 16, 64).1 == Ok(AllocationResult(4112, 16, 16))
  {
    assert Need(16) == 16 && ClassOf(16) == 0;
  }

  lemma SixtyFour()
    ensures IsPow2(64)
  {
    assert IsPow2(1) && IsPow2(2) && IsPow2(4) && IsPow2(8) && IsPow2(16) && IsPow2(32);
  }

  lemma FirstStep(h0: Heap) returns (h1: Heap)
    requires h0 == Init(4096, 4096)
    ensures h1 == Step(h0, Alloc(16, 16))
    ensures h1.segs == [Seg(4096, 16, Live), Seg(4112, 4080, InTree)] && h1.lists == h0.lists
    ensures h1.base == 4096 && h1.cap == 4096
  {
    assert AlignUp(4096, 16) == 4096 && Need(16) == 16;
    assert Fits(h0.segs[0], 16, 16) && FirstFitting(h0.segs, 16, 16) == 0;
    assert Pieces(4096, 0, 16, 4080) == [Seg(4096, 16, Live), Seg(4112, 4080, InTree)];
    h1 := Step(h0, Alloc(16, 16));
  }

  lemma SecondStep(h1: Heap) returns (h2: Heap)
    requires h1.segs == [Seg(4096, 16, Live), Seg(4112, 4080, InTree)] && h1.lists == seq(CLASSES, _ => [])
    ensures h2 == Step(h1, Alloc(16, 16)) && h2.lists == h1.lists && h2.base == h1.base && h2.cap == h1.cap
    ensures h2.segs == [Seg(4096, 16, Live), Seg(4112, 16, Live), Seg(4128, 4064, InTree)]
  {
    assert AlignUp(4112, 16) == 4112 && Need(16) == 16;
    assert h1.segs[1..] == [Seg(4112, 4080, InTree)];
    assert !Fits(h1.segs[0], 16, 16) && Fits(h1.segs[1], 16, 16);
    assert FirstFitting(h1.segs, 16, 16) == 1;
    assert Pieces(4112, 0, 16, 4064) == [Seg(4112, 16, Live), Seg(4128, 4064, InTree)];
    h2 := Step(h1, Alloc(16, 16));
  }

  lemma ThirdStep(h2: Heap) returns (h3: Heap)
    requires h2.segs == [Seg(4096, 16, Live), Seg(4112, 16, Live), Seg(4128, 4064, InTree)]
    requires h2.base == 4096 && h2.cap == 4096 && h2.lists == seq(CLASSES, _ => [])
    ensures h3 == Step(h2, Dealloc(4112, 16)) && OpOk(h2, Dealloc(4112, 16)) && h3.base == 4096
    ensures |h3.lists| == CLASSES && h3.lists[0] == [4112]
  {
    assert h2.segs[0].addr != 4112 && h2.segs[1..][0].addr == 4112;
    assert IndexOf(h2.segs, 4112) == 1;
    assert h2.segs[1] in h2.segs;
    h3 := Step(h2, Dealloc(4112, 16));
    assert h3 == GiveSmall(h2, 1);
  }

  /** In a fresh arena, allocating 16 bytes and freeing them at once leaves the block in a small
      list instead of merging it back. */
  lemma SmallNotMergedBack()
    ensures var h := Init(4096, 4096);
            Inv(h) && AllocOk(16, 16) && Allocate(h, 16, 16).1.Ok? && !SameState(h, Freed(h, 16, 16))
  {
    var h := Init(4096, 4096);
    InitInv(4096, 4096);
    assert AlignUp(4096, 16) == 4096 && Need(16) == 16;
    assert Fits(h.segs[0], 16, 16) && FirstFitting(h.segs, 16, 16) == 0;
    AllocateFreeIdentity(h, 16, 16);
  }

  /** A run after which the reported number of free blocks is not the actual one. */
  lemma GapMiscounted()
    ensures var h := Run(Init(4112, 4096), [Alloc(256, 64)]);
            Legal(Init(4112, 4096), [Alloc(256, 64)]) && Inv(h) && h.freeBlocks == 1 && FreeCount(h.segs) == 2
  {
    var ops := [Alloc(256, 64)];
    var h0 := Init(4112, 4096);
    SixtyFour();
    var h1 := GapStep(h0);
    Single(h1.segs[0]); Single(h1.segs[1]); Single(h1.segs[2]);
    assert h1.segs == [h1.segs[0]] + [h1.segs[1]] + [h1.segs[2]];
    Three([h1.segs[0]], [h1.segs[1]], [h1.segs[2]], 0);
    assert Legal(h1, ops[1..]) && Run(h1, ops[1..]) == h1;
    InitInv(4112, 4096);
    RunInv(h0, ops);
  }

  lemma GapStep(h0: Heap) returns (h1: Heap)
    requires h0 == Init(4112, 4096)
    ensures h1 == Step(h0, Alloc(256, 64)) && h1.freeBlocks == 1
    ensures h1.segs == [Seg(4112, 48, InList), Seg(4160, 256, Live), Seg(4416, 3792, InTree)]
  {
    assert AlignUp(4112, 64) == 4160 && Need(256) == 256;
    assert Fits(h0.segs[0], 256, 64) && FirstFitting(h0.segs, 256, 64) == 0;
    assert Pieces(4112, 48, 256, 3792) == [Seg(4112, 48, InList), Seg(4160, 256, Live), Seg(4416, 3792, InTree)];
    h1 := Step(h0, Alloc(256, 64));
  }
}
