/** What the allocator guarantees its callers, over every run. */
module HeapTheorems {
  import opened Arithmetic
  import opened BlockTree
  import opened HeapModel
  import opened HeapInvariant

  // ------------------------------------------------------------ runs

  datatype Op = Alloc(size: nat, alignment: nat) | Dealloc(ptr: int, size: nat)

  predicate OpOk(h: Heap, op: Op) {
    match op
    case Alloc(size, alignment) => AllocOk(size, alignment)
    case Dealloc(ptr, size) => DeallocOk(h, ptr, size)
  }

  function Step(h: Heap, op: Op): Heap {
    match op
    case Alloc(size, alignment) => Allocate(h, size, alignment).0
    case Dealloc(ptr, size) => Deallocate(h, ptr, size).0
  }

  predicate Legal(h: Heap, ops: seq<Op>)
    decreases ops
  {
    ops == [] || (OpOk(h, ops[0]) && Legal(Step(h, ops[0]), ops[1..]))
  }

  function Run(h: Heap, ops: seq<Op>): Heap
    decreases ops
  {
    if ops == [] then h else Run(Step(h, ops[0]), ops[1..])
  }

  /** Every state reached by a legal run from a fresh arena satisfies the invariant. */
  lemma {:induction false} RunInv(h: Heap, ops: seq<Op>)
    requires Inv(h) && Legal(h, ops)
    ensures Inv(Run(h, ops)) && Run(h, ops).base == h.base && Run(h, ops).cap == h.cap
    decreases ops
  {
    if ops == [] {
    } else {
      match ops[0] {
        case Alloc(size, alignment) => AllocateInv(h, size, alignment);
        case Dealloc(ptr, size) => DeallocateInv(h, ptr, size);
      }
      RunInv(Step(h, ops[0]), ops[1..]);
    }
  }

  // ------------------------------------------------------------ tiling

  predicate Holds(b: Seg, x: int) { b.addr <= x < b.addr + b.size }

  lemma {:induction false} OwnerExists(s: seq<Seg>, lo: int, x: int) returns (i: nat)
    requires Tiles(s, lo) && lo <= x < lo + Total(s)
    ensures i < |s| && Holds(s[i], x)
  {
    if x < lo + s[0].size {
      i := 0;
    } else {
      i := OwnerExists(s[1..], lo + s[0].size, x);
      i := i + 1;
    }
  }

  /** Every byte of the arena lies in exactly one block. */
  lemma TilingExact(h: Heap, x: int)
    requires Inv(h) && h.base <= x < h.base + h.cap
    ensures exists i :: 0 <= i < |h.segs| && Holds(h.segs[i], x)
    ensures forall i, j :: 0 <= i < |h.segs| && 0 <= j < |h.segs| && Holds(h.segs[i], x) && Holds(h.segs[j], x) ==> i == j
  {
    var i := OwnerExists(h.segs, h.base, x);
    forall i, j | 0 <= i < j < |h.segs| && Holds(h.segs[i], x) ensures !Holds(h.segs[j], x) {
      TilesOrder(h.segs, i, j, h.base);
    }
  }

  /** Blocks stay inside the arena, 16-aligned, large enough for their metadata and of
      their list's size. */
  lemma BlockShape(h: Heap, i: nat)
    requires Inv(h) && i < |h.segs|
    ensures var b := h.segs[i];
            h.base <= b.addr && b.addr + b.size <= h.base + h.cap && b.addr % 16 == 0 && b.size % 16 == 0 &&
            (b.kind == InTree ==> b.size >= 48) &&
            (b.kind == InList ==> b.size <= 128 && b.addr in h.lists[ClassOf(b.size)]) &&
            (forall j :: 0 <= j < |h.segs| && j != i ==>
               h.segs[j].addr + h.segs[j].size <= b.addr || b.addr + b.size <= h.segs[j].addr)
  {
    var b := h.segs[i];
    TotalSuffix(h.segs, i, h.base);
    Aligned(h.segs, i, h.base);
    assert WellSized(b);
    if b.kind == InList { assert SizeOf(ClassOf(b.size)) == b.size; }
    forall j | 0 <= j < |h.segs| && j != i
      ensures h.segs[j].addr + h.segs[j].size <= b.addr || b.addr + b.size <= h.segs[j].addr
    {
      if j < i { TilesOrder(h.segs, j, i, h.base); } else { TilesOrder(h.segs, i, j, h.base); }
    }
  }

  /** No tree block ends where another begins. */
  lemma TreeBlocksApart(h: Heap, i: nat, j: nat)
    requires Inv(h) && i < |h.segs| && j < |h.segs| && h.segs[i].kind == InTree && h.segs[j].kind == InTree
    ensures h.segs[i].addr + h.segs[i].size != h.segs[j].addr
  {
    if j <= i {
      if j < i { TilesOrder(h.segs, j, i, h.base); }
      assert WellSized(h.segs[i]) && WellSized(h.segs[j]);
    } else if i + 1 < j {
      TilesOrder(h.segs, i, i + 1, h.base);
      TilesOrder(h.segs, i + 1, j, h.base);
      assert WellSized(h.segs[i + 1]);
    }
  }

  /** With nothing live and every small list empty, one tree block spans the arena. */
  lemma FullyCoalesced(h: Heap)
    requires Inv(h) && (forall b :: b in h.segs ==> b.kind != Live)
    requires forall k :: 0 <= k < CLASSES ==> h.lists[k] == []
    ensures h.segs == [Seg(h.base, h.cap, InTree)]
  {
    var s := h.segs;
    assert |s| >= 2 ==> !(s[0].kind == InTree && s[0 + 1].kind == InTree);
    forall i | 0 <= i < |s| ensures s[i].kind == InTree {
      assert s[i] in s && WellSized(s[i]);
      if s[i].kind == InList { BlockShape(h, i); }
    }
    assert |s| < 2;
    assert s != [];
    assert s == [s[0]];
    Single(s[0]);
  }

  // ------------------------------------------------------------ conservation

  /** `bytes_allocated` is the total of live blocks and `bytes_free` that of free ones. */
  lemma BytesConserved(h: Heap)
    requires Inv(h)
    ensures h.used == LiveTotal(h.segs) && h.cap - h.used == FreeTotal(h.segs) && 0 <= h.used <= h.cap
  {
    Conservation(h.segs);
  }

  lemma {:induction false} CountBounded(s: seq<Seg>)
    requires AllWellSized(s)
    ensures FreeCount(s) <= Total(s)
  {
    if s == [] {
    } else {
      assert WellSized(s[0]);
      CountBounded(s[1..]);
    }
  }

  /** The reported block count is exact if and only if the number of gap-cutting
      allocations so far is a multiple of 2^64; otherwise it is short by that number. */
  lemma FreeBlockCount(h: Heap)
    requires Inv(h)
    ensures (h.freeBlocks == FreeCount(h.segs)) <==> h.gaps % LIMIT == 0
    ensures (FreeCount(h.segs) - h.freeBlocks) % LIMIT == h.gaps % LIMIT
  {
    CountBounded(h.segs);
  }

  /** The operation hands out a block that starts inside a tree block, behind its first byte. */
  ghost predicate LeavesGap(h: Heap, op: Op) {
    op.Alloc? &&
    var r := Allocate(h, op.size, op.alignment).1;
    r.Ok? && InsideTreeBlock(h, r.value.ptr)
  }

  ghost function GapOps(h: Heap, ops: seq<Op>): nat
    decreases ops
  {
    if ops == [] then 0 else (if LeavesGap(h, ops[0]) then 1 else 0) + GapOps(Step(h, ops[0]), ops[1..])
  }

  /** The gap counter counts exactly the operations of the run that left a gap. */
  lemma {:induction false} GapsCounted(h: Heap, ops: seq<Op>)
    requires Inv(h) && Legal(h, ops)
    ensures Run(h, ops).gaps == h.gaps + GapOps(h, ops)
    decreases ops
  {
    if ops == [] {
    } else {
      match ops[0] {
        case Alloc(size, alignment) =>
          AllocateInv(h, size, alignment);
          GapStep(h, size, alignment);
        case Dealloc(ptr, size) => DeallocateInv(h, ptr, size);
      }
      GapsCounted(Step(h, ops[0]), ops[1..]);
    }
  }

  lemma GapStep(h: Heap, size: nat, alignment: nat)
    requires Inv(h) && AllocOk(size, alignment)
    ensures Allocate(h, size, alignment).0.gaps == h.gaps + (if LeavesGap(h, Alloc(size, alignment)) then 1 else 0)
  {
    var n, a := Need(size), Effective(alignment);
    if n <= MAX_SMALL && h.lists[ClassOf(n)] != [] {
      var i := HeadListed(h, n);
      StartsElsewhere(h, h.segs[i], h.segs[i].addr);
    } else {
      var i := FirstFitting(h.segs, n, a);
      if i < |h.segs| {
        EffectiveOk(alignment);
        CutGap(h, i, n, a);
      }
    }
  }

  ghost predicate InsideTreeBlock(h: Heap, p: int) {
    exists b :: b in h.segs && b.kind == InTree && b.addr < p && Holds(b, p)
  }

  lemma CutGap(h: Heap, i: nat, n: nat, a: nat)
    requires Inv(h) && i < |h.segs| && a >= 16 && a % 16 == 0 && n >= QUANTUM && n % 16 == 0 && Fits(h.segs[i], n, a)
    ensures var p := AlignUp(h.segs[i].addr, a);
            p + n <= h.segs[i].addr + h.segs[i].size && Cut(h, i, n, p).1.Ok? && Cut(h, i, n, p).1.value.ptr == p &&
            Cut(h, i, n, p).0.gaps == h.gaps + (if InsideTreeBlock(h, p) then 1 else 0)
  {
    var b, p := h.segs[i], AlignUp(h.segs[i].addr, a);
    CutResult(h, i, n, a);
    InsideIff(h, b, p);
    GapFrom(h, i, n, p);
  }

  lemma InsideIff(h: Heap, b: Seg, p: int)
    requires Inv(h) && b in h.segs && b.kind == InTree && Holds(b, p)
    ensures InsideTreeBlock(h, p) <==> p > b.addr
  {
    StartsElsewhere(h, b, p);
  }

  lemma GapFrom(h: Heap, i: nat, n: nat, p: int)
    requires i < |h.segs| && h.segs[i].addr <= p && p + n <= h.segs[i].addr + h.segs[i].size
    requires p == h.segs[i].addr || p >= h.segs[i].addr + 16
    ensures Cut(h, i, n, p).0.gaps == h.gaps + (if p > h.segs[i].addr then 1 else 0)
  {}

  /** An address inside block `b` is in no other block. */
  lemma StartsElsewhere(h: Heap, b: Seg, x: int)
    requires Inv(h) && b in h.segs && Holds(b, x)
    ensures forall c :: c in h.segs && c != b ==> !Holds(c, x)
  {
    forall c | c in h.segs && c != b ensures !Holds(c, x) { LivesApart(h, b, c); }
  }

  predicate LowAlignment(ops: seq<Op>) {
    forall i :: 0 <= i < |ops| && ops[i].Alloc? ==> ops[i].alignment <= 16
  }

  lemma NoGap(h: Heap, size: nat, alignment: nat)
    requires Inv(h) && alignment <= 16
    ensures Allocate(h, size, alignment).0.gaps == h.gaps
  {
    var n := Need(size);
    var i := FirstFitting(h.segs, n, 16);
    if i < |h.segs| { Aligned(h.segs, i, h.base); }
  }

  /** On every run that asks for alignments of at most 16, `free_block_count` is exact. */
  lemma {:induction false} CountExactAtLowAlignment(h: Heap, ops: seq<Op>)
    requires Inv(h) && Legal(h, ops) && LowAlignment(ops)
    ensures Run(h, ops).gaps == h.gaps
    ensures h.gaps == 0 ==> Run(h, ops).freeBlocks == FreeCount(Run(h, ops).segs)
    decreases ops
  {
    RunInv(h, ops);
    FreeBlockCount(Run(h, ops));
    if ops == [] {
    } else {
      match ops[0] {
        case Alloc(size, alignment) =>
          assert ops[0].alignment <= 16;
          AllocateInv(h, size, alignment);
          NoGap(h, size, alignment);
        case Dealloc(ptr, size) => DeallocateInv(h, ptr, size);
      }
      CountExactAtLowAlignment(Step(h, ops[0]), ops[1..]);
    }
  }

  // ------------------------------------------------------------ what allocation returns

  /** `p` is the first multiple of `a` at or after `x`. */
  predicate FirstMultiple(p: int, x: int, a: nat)
    requires a > 0
  {
    x <= p < x + a && p % a == 0
  }

  /** A tree block that holds `n` bytes from its first multiple of `a` on. */
  ghost predicate HasRoom(b: Seg, n: nat, a: nat)
    requires a > 0
  {
    b.kind == InTree && exists p :: FirstMultiple(p, b.addr, a) && p + n <= b.addr + b.size
  }

  /** With `n` the request rounded up to 16 and `a` the alignment but at least 16: out of memory
      is reported exactly when the list of size `n` is empty and no tree block has room; otherwise
      exactly `n` bytes are reserved, at the head of that list or at the first multiple of `a` in
      the lowest tree block with room. */
  lemma AllocateChoice(h: Heap, size: nat, alignment: nat, n: nat, a: nat)
    requires Inv(h) && AllocOk(size, alignment) && RoundsTo(size, n) && a == if alignment > 16 then alignment else 16
    ensures var small := n <= 128 && h.lists[n / 16 - 1] != [];
            var r := Allocate(h, size, alignment).1;
            (r.Err? <==> !small && forall b :: b in h.segs ==> !HasRoom(b, n, a)) &&
            (r.Err? ==> r.error == OutOfMemory) &&
            (r.Ok? ==> r.value.actualSize == n && r.value.offset == r.value.ptr - h.base) &&
            (r.Ok? && small ==> r.value.ptr == h.lists[n / 16 - 1][0]) &&
            (r.Ok? && !small ==>
               exists i :: 0 <= i < |h.segs| && HasRoom(h.segs[i], n, a) && FirstMultiple(r.value.ptr, h.segs[i].addr, a) &&
                 (forall j :: 0 <= j < i ==> !HasRoom(h.segs[j], n, a)))
  {
    RoundedOnce(size, n, Need(size));
    EffectiveOk(alignment);
    TreeChoice(h, n, a);
  }

  /** The answer of the tree: its lowest block with room, or none. */
  ghost predicate FromTree(h: Heap, r: Result<AllocationResult>, n: nat, a: nat)
    requires a > 0
  {
    (r.Err? <==> forall b :: b in h.segs ==> !HasRoom(b, n, a)) && (r.Err? ==> r.error == OutOfMemory) &&
    (r.Ok? ==>
       r.value.actualSize == n && r.value.offset == r.value.ptr - h.base &&
       exists i :: 0 <= i < |h.segs| && HasRoom(h.segs[i], n, a) && FirstMultiple(r.value.ptr, h.segs[i].addr, a) &&
         (forall j :: 0 <= j < i ==> !HasRoom(h.segs[j], n, a)))
  }

  lemma TreeChoice(h: Heap, n: nat, a: nat)
    requires Inv(h) && a >= 16 && a % 16 == 0 && n % 16 == 0
    ensures var i := FirstFitting(h.segs, n, a);
            FromTree(h, if i == |h.segs| then Err(OutOfMemory) else Cut(h, i, n, AlignUp(h.segs[i].addr, a)).1, n, a)
  {
    FirstWithRoom(h, n, a);
    var i := FirstFitting(h.segs, n, a);
    if i < |h.segs| { CutResult(h, i, n, a); }
  }

  lemma FirstWithRoom(h: Heap, n: nat, a: nat)
    requires Inv(h) && a > 0
    ensures var i := FirstFitting(h.segs, n, a);
            (i == |h.segs| <==> forall b :: b in h.segs ==> !HasRoom(b, n, a)) &&
            (i < |h.segs| ==> HasRoom(h.segs[i], n, a)) && (forall j :: 0 <= j < i ==> !HasRoom(h.segs[j], n, a))
  {
    var i := FirstFitting(h.segs, n, a);
    forall b | b in h.segs ensures HasRoom(b, n, a) == Fits(b, n, a) {
      LiveInside(h, b);
      RoomFits(b, n, a);
    }
    if i < |h.segs| { assert h.segs[i] in h.segs; }
    forall j | 0 <= j < i ensures !HasRoom(h.segs[j], n, a) { assert h.segs[j] in h.segs; }
  }

  /** A cut reserves exactly what is asked for, at the first multiple. */
  lemma CutResult(h: Heap, i: nat, n: nat, a: nat)
    requires Inv(h) && i < |h.segs| && a >= 16 && a % 16 == 0 && n % 16 == 0 && Fits(h.segs[i], n, a)
    ensures var b := h.segs[i];
            var p := AlignUp(b.addr, a);
            b.addr <= p && p + n <= b.addr + b.size && FirstMultiple(p, b.addr, a) && p % 16 == 0 &&
            (p - b.addr) % 16 == 0 && (b.addr + b.size - p - n) % 16 == 0 && (p == b.addr || p >= b.addr + 16) &&
            Cut(h, i, n, p).1 == Ok(AllocationResult(p, p - h.base, n))
  {
    var b := h.segs[i];
    BlockShape(h, i);
    CutPoint(b, n, a);
    Rem16(b.addr, b.size, AlignUp(b.addr, a), n);
    CutExact(h, i, n, AlignUp(b.addr, a));
  }

  lemma CutExact(h: Heap, i: nat, n: nat, p: int)
    requires i < |h.segs| && h.segs[i].addr <= p && p + n <= h.segs[i].addr + h.segs[i].size
    requires (p - h.segs[i].addr) % 16 == 0 && (h.segs[i].addr + h.segs[i].size - p - n) % 16 == 0
    ensures Cut(h, i, n, p).1 == Ok(AllocationResult(p, p - h.base, n))
    ensures p == h.segs[i].addr || p >= h.segs[i].addr + 16
  {}

  lemma RoundedOnce(size: nat, n: nat, m: nat)
    requires RoundsTo(size, n) && RoundsTo(size, m)
    ensures n == m
  {}

  lemma RoomFits(b: Seg, n: nat, a: nat)
    requires a > 0 && b.addr >= 0
    ensures HasRoom(b, n, a) <==> Fits(b, n, a)
  {
    var p := AlignUp(b.addr, a);
    assert FirstMultiple(p, b.addr, a);
    forall q | FirstMultiple(q, b.addr, a) ensures q == p { ModInjective(if p < q then p else q, if p < q then q else p, a); }
  }

  /** What a cut of `n` bytes at `p` leaves of block `b`: a front gap, listed up to 128 bytes, and
      a remainder, listed below 48 bytes. */
  predicate Leftover(b: Seg, p: int, n: nat, c: Seg) {
    (p > b.addr && c == Seg(b.addr, p - b.addr, if p - b.addr <= 128 then InList else InTree)) ||
    (p + n < b.addr + b.size && c.addr == p + n && c.addr + c.size == b.addr + b.size &&
     c.kind == if c.size < 48 then InList else InTree)
  }

  /** A successful allocation replaces exactly one free block by the live block and what is left
      of the free one on either side; every other block stays. */
  lemma AllocateLeftovers(h: Heap, size: nat, alignment: nat)
    requires Inv(h) && AllocOk(size, alignment) && Allocate(h, size, alignment).1.Ok?
    ensures var (h', r) := Allocate(h, size, alignment);
            var p, n := r.value.ptr, r.value.actualSize;
            exists b :: Carved(h, h', b, p, n)
  {
    var n, a := Need(size), Effective(alignment);
    if n <= MAX_SMALL && h.lists[ClassOf(n)] != [] {
      var i := HeadListed(h, n);
      TakeMembers(h, n, i);
      assert Carved(h, TakeSmall(h, n).0, h.segs[i], h.segs[i].addr, n);
    } else {
      EffectiveOk(alignment);
      TreeLeftovers(h, FirstFitting(h.segs, n, a), n, a);
    }
  }

  /** Block `b` is replaced by `n` live bytes at `p` and what is left of it. */
  ghost predicate Carved(h: Heap, h': Heap, b: Seg, p: int, n: nat) {
    b in h.segs && b.kind != Live && Holds(b, p) &&
    forall c :: c in h'.segs <==> (c in h.segs && c != b) || c == Seg(p, n, Live) || Leftover(b, p, n, c)
  }

  lemma TreeLeftovers(h: Heap, i: nat, n: nat, a: nat)
    requires Inv(h) && i < |h.segs| && a >= 16 && a % 16 == 0 && n >= QUANTUM && n % 16 == 0 && Fits(h.segs[i], n, a)
    ensures var p := AlignUp(h.segs[i].addr, a);
            p + n <= h.segs[i].addr + h.segs[i].size && Cut(h, i, n, p).1 == Ok(AllocationResult(p, p - h.base, n)) &&
            Carved(h, Cut(h, i, n, p).0, h.segs[i], p, n)
  {
    CutResult(h, i, n, a);
    CutMembers(h, i, n, AlignUp(h.segs[i].addr, a));
  }

  lemma TakeMembers(h: Heap, n: nat, i: nat)
    requires Inv(h) && QUANTUM <= n <= MAX_SMALL && n % 16 == 0 && h.lists[ClassOf(n)] != [] && i < |h.segs|
    requires h.segs[i] == Seg(h.lists[ClassOf(n)][0], n, InList) && i == IndexOf(h.segs, h.lists[ClassOf(n)][0])
    ensures var h' := TakeSmall(h, n).0;
            forall c :: c in h'.segs <==> (c in h.segs && c != h.segs[i]) || c == Seg(h.segs[i].addr, n, Live)
  {
    var mid := [Seg(h.segs[i].addr, n, Live)];
    assert h.segs[i..i + 1] == [h.segs[i]];
    forall c ensures c in TakeSmall(h, n).0.segs <==> (c in h.segs && c != h.segs[i]) || c == mid[0] {
      SpliceMember(h.segs, i, i + 1, mid, h.base, c);
    }
  }

  lemma CutMembers(h: Heap, i: nat, n: nat, p: int)
    requires Inv(h) && i < |h.segs| && h.segs[i].kind == InTree && n >= QUANTUM && n % 16 == 0 && p % 16 == 0
    requires h.segs[i].addr <= p && p + n <= h.segs[i].addr + h.segs[i].size
    ensures var h', b := Cut(h, i, n, p).0, h.segs[i];
            forall c :: c in h'.segs <==> (c in h.segs && c != b) || c == Seg(p, n, Live) || Leftover(b, p, n, c)
    ensures var h', b := Cut(h, i, n, p).0, h.segs[i];
            var pre, rest := p - b.addr, b.addr + b.size - p - n;
            forall k :: 0 <= k < CLASSES ==>
              h'.lists[k] == (if 0 < rest < 48 && rest == 16 * (k + 1) then [p + n] else []) +
                             (if 0 < pre <= 128 && pre == 16 * (k + 1) then [b.addr] else []) + h.lists[k]
  {
    var b := h.segs[i];
    var pre, rest := p - b.addr, b.addr + b.size - p - n;
    BlockShape(h, i);
    Rem16(b.addr, b.size, p, n);
    PieceLists(h.lists, b.addr, pre, n, rest);
    assert Cut(h, i, n, p).0.segs == ReplaceSegs(h.segs, i, i + 1, Pieces(b.addr, pre, n, rest));
    SplicedMembers(h.segs, i, p, n, pre, rest, h.base);
  }

  lemma SplicedMembers(s: seq<Seg>, i: nat, p: int, n: nat, pre: nat, rest: nat, lo: int)
    requires i < |s| && Tiles(s, lo) && AllWellSized(s)
    requires s[i].addr + pre == p && p + n + rest == s[i].addr + s[i].size && pre % 16 == 0 && rest % 16 == 0
    ensures forall c :: c in ReplaceSegs(s, i, i + 1, Pieces(s[i].addr, pre, n, rest)) <==>
              (c in s && c != s[i]) || c == Seg(p, n, Live) || Leftover(s[i], p, n, c)
  {
    assert s[i..i + 1] == [s[i]];
    forall c ensures c in ReplaceSegs(s, i, i + 1, Pieces(s[i].addr, pre, n, rest)) <==>
                       (c in s && c != s[i]) || c == Seg(p, n, Live) || Leftover(s[i], p, n, c) {
      SpliceMember(s, i, i + 1, Pieces(s[i].addr, pre, n, rest), lo, c);
      PieceMembers(s[i], p, n, pre, rest, c);
    }
  }

  lemma PieceMembers(b: Seg, p: int, n: nat, pre: nat, rest: nat, c: Seg)
    requires b.addr + pre == p && p + n + rest == b.addr + b.size && pre % 16 == 0 && rest % 16 == 0
    ensures c in Pieces(b.addr, pre, n, rest) <==> c == Seg(p, n, Live) || Leftover(b, p, n, c)
  {
    var g, l, r := GapSegs(b.addr, pre), Seg(p, n, Live), RestSegs(p + n, rest);
    assert Pieces(b.addr, pre, n, rest) == g + [l] + r;
    assert c in g <==> p > b.addr && c == Seg(b.addr, pre, if pre <= 128 then InList else InTree);
    assert c in r <==> rest > 0 && c == Seg(p + n, rest, if rest < 48 then InList else InTree);
  }

  lemma PieceLists(lists: seq<seq<int>>, a: int, pre: nat, n: nat, rest: nat)
    requires |lists| == CLASSES && pre % 16 == 0 && rest % 16 == 0
    ensures |PushPieces(lists, a, pre, n, rest)| == CLASSES
    ensures forall k :: 0 <= k < CLASSES ==>
              PushPieces(lists, a, pre, n, rest)[k] ==
                (if 0 < rest < 48 && rest == 16 * (k + 1) then [a + pre + n] else []) +
                (if 0 < pre <= 128 && pre == 16 * (k + 1) then [a] else []) + lists[k]
  {}

  function Lives(h: Heap): set<Seg> { set b | b in h.segs && b.kind == Live }

  lemma SpliceLives(h: Heap, i: nat, j: nat, mid: seq<Seg>, b: Seg)
    requires Inv(h) && i < j <= |h.segs|
    ensures b in ReplaceSegs(h.segs, i, j, mid) <==> b in mid || (b in h.segs && b !in h.segs[i..j])
  {
    SpliceMember(h.segs, i, j, mid, h.base, b);
  }

  /** A successful allocation adds exactly one live block, of at least the requested size,
      carved out of free memory; a failed one changes nothing. */
  lemma AllocateLives(h: Heap, size: nat, alignment: nat)
    requires Inv(h) && AllocOk(size, alignment)
    ensures var (h', r) := Allocate(h, size, alignment);
            (r.Err? ==> h' == h) &&
            (r.Ok? ==>
               var b := Seg(r.value.ptr, r.value.actualSize, Live);
               Lives(h') == Lives(h) + {b} && b !in Lives(h) && b.size >= size && b.size >= Need(size) &&
               r.value.offset == b.addr - h.base &&
               h.base <= b.addr && b.addr + b.size <= h.base + h.cap && b.addr % 16 == 0 &&
               (forall c :: c in Lives(h) ==> c.addr + c.size <= b.addr || b.addr + b.size <= c.addr))
  {
    var (h', r) := Allocate(h, size, alignment);
    AllocateInv(h, size, alignment);
    if r.Ok? {
      var b := Seg(r.value.ptr, r.value.actualSize, Live);
      AllocateAdds(h, size, alignment);
      LiveInside(h', b);
      forall c | c in Lives(h) ensures c.addr + c.size <= b.addr || b.addr + b.size <= c.addr {
        LivesApart(h', b, c);
      }
    }
  }

  lemma AllocateAdds(h: Heap, size: nat, alignment: nat)
    requires Inv(h) && AllocOk(size, alignment) && Allocate(h, size, alignment).1.Ok?
    ensures var (h', r) := Allocate(h, size, alignment);
            var b := Seg(r.value.ptr, r.value.actualSize, Live);
            Lives(h') == Lives(h) + {b} && b !in Lives(h) && b.size >= Need(size) && r.value.offset == b.addr - h.base
  {
    var n, align := Need(size), Effective(alignment);
    if n <= MAX_SMALL && h.lists[ClassOf(n)] != [] {
      var i := HeadListed(h, n);
      ReplaceLive(h, i, [h.segs[i].(kind := Live)], h.segs[i].(kind := Live));
    } else {
      var i := FirstFitting(h.segs, n, align);
      CutAdds(h, i, n, AlignUp(h.segs[i].addr, align));
    }
  }

  lemma CutAdds(h: Heap, i: nat, n: nat, p: int)
    requires Inv(h) && i < |h.segs| && h.segs[i].kind == InTree && n > 0
    requires h.segs[i].addr <= p && p + n <= h.segs[i].addr + h.segs[i].size
    ensures var (h', r) := Cut(h, i, n, p);
            r.Ok? &&
            var b := Seg(r.value.ptr, r.value.actualSize, Live);
            Lives(h') == Lives(h) + {b} && b !in Lives(h) && b.size >= n && r.value.offset == b.addr - h.base
  {
    var a := h.segs[i].addr;
    var pre, rest := p - a, a + h.segs[i].size - p - n;
    PiecesLive(a, pre, n, rest);
    ReplaceLive(h, i, Pieces(a, pre, n, rest), Seg(p, if rest < QUANTUM then n + rest else n, Live));
  }

  lemma PiecesLive(a: int, pre: nat, n: nat, rest: nat)
    ensures forall c :: c in Pieces(a, pre, n, rest) && c.kind == Live <==>
              c == Seg(a + pre, if rest < QUANTUM then n + rest else n, Live)
  {
    var mid, b := Pieces(a, pre, n, rest), Seg(a + pre, if rest < QUANTUM then n + rest else n, Live);
    assert mid[|GapSegs(a, pre)|] == b;
  }

  /** Replacing a free block by pieces of which exactly `b` is live. */
  lemma ReplaceLive(h: Heap, i: nat, mid: seq<Seg>, b: Seg)
    requires Inv(h) && i < |h.segs| && h.segs[i].kind != Live && b.kind == Live
    requires forall c :: c in mid && c.kind == Live <==> c == b
    requires Holds(h.segs[i], b.addr)
    ensures (set c | c in ReplaceSegs(h.segs, i, i + 1, mid) && c.kind == Live) == Lives(h) + {b}
    ensures b !in Lives(h)
  {
    var s' := ReplaceSegs(h.segs, i, i + 1, mid);
    assert h.segs[i..i + 1] == [h.segs[i]];
    forall c: Seg | c.kind == Live ensures c in s' <==> c in h.segs || c == b {
      SpliceLives(h, i, i + 1, mid, c);
    }
    if b in h.segs {
      var m :| 0 <= m < |h.segs| && h.segs[m] == b;
      InteriorFree(h.segs, i, m, h.base);
      assert false;
    }
  }

  lemma LiveInside(h: Heap, b: Seg)
    requires Inv(h) && b in h.segs
    ensures h.base <= b.addr && b.addr + b.size <= h.base + h.cap && b.addr % 16 == 0 && WellSized(b)
  {
    var i :| 0 <= i < |h.segs| && h.segs[i] == b;
    BlockShape(h, i);
  }

  /** Distinct blocks are disjoint. */
  lemma LivesApart(h: Heap, b: Seg, c: Seg)
    requires Inv(h) && b in h.segs && c in h.segs && b != c
    ensures c.addr + c.size <= b.addr || b.addr + b.size <= c.addr
  {
    var i :| 0 <= i < |h.segs| && h.segs[i] == b;
    BlockShape(h, i);
  }

  /** Deallocation removes exactly the freed block from the live ones. */
  lemma DeallocateLives(h: Heap, ptr: int, size: nat)
    requires Inv(h) && DeallocOk(h, ptr, size)
    ensures Lives(Deallocate(h, ptr, size).0) == Lives(h) - {Seg(ptr, size, Live)}
  {
    if h.base <= ptr < h.base + h.cap && ptr % 16 == 0 {
      var x :| 0 <= x < |h.segs| && h.segs[x] == Seg(ptr, size, Live);
      IndexOfUnique(h.segs, x, h.base);
      var s := h.segs;
      if size <= MAX_SMALL {
        RemoveLive(h, x, x, x + 1, s[x].(kind := InList));
      } else {
        var lo := if x > 0 && s[x - 1].kind == InTree then x - 1 else x;
        var hi := if x + 1 < |s| && s[x + 1].kind == InTree then x + 2 else x + 1;
        RemoveLive(h, x, lo, hi, Seg(s[lo].addr, Total(s[lo..hi]), InTree));
      }
    } else {
      if Seg(ptr, size, Live) in h.segs {
        LiveInside(h, Seg(ptr, size, Live));
        assert false;
      }
    }
  }

  /** A tree block right before or right after the `size` bytes at `ptr`. */
  predicate Touches(b: Seg, ptr: int, size: nat) {
    b.kind == InTree && (b.addr + b.size == ptr || b.addr == ptr + size)
  }

  /** `m` takes the place of the freed block and of the tree blocks that touch it. */
  ghost predicate Joined(s: seq<Seg>, s': seq<Seg>, m: Seg, ptr: int, size: nat) {
    m.kind == InTree && Holds(m, ptr) &&
    forall c :: c in s' <==> c == m || (c in s && c != Seg(ptr, size, Live) && !Touches(c, ptr, size))
  }

  /** Freeing a large block joins it with exactly the tree blocks that touch it; every other
      block and every list stays. */
  lemma LargeFreed(h: Heap, ptr: int, size: nat)
    requires Inv(h) && Seg(ptr, size, Live) in h.segs && size > 128
    ensures var h' := Deallocate(h, ptr, size).0;
            h'.lists == h.lists && exists m :: Joined(h.segs, h'.segs, m, ptr, size)
  {
    var i :| 0 <= i < |h.segs| && h.segs[i] == Seg(ptr, size, Live);
    BlockShape(h, i);
    IndexOfUnique(h.segs, i, h.base);
    MergedSegs(h.segs, i, h.base);
  }

  lemma MergedSegs(s: seq<Seg>, i: nat, base: int)
    requires i < |s| && Tiles(s, base) && AllWellSized(s) && s[i].kind == Live
    ensures var lo := if i > 0 && s[i - 1].kind == InTree then i - 1 else i;
            var hi := if i + 1 < |s| && s[i + 1].kind == InTree then i + 2 else i + 1;
            var m := Seg(s[lo].addr, Total(s[lo..hi]), InTree);
            Joined(s, ReplaceSegs(s, lo, hi, [m]), m, s[i].addr, s[i].size)
  {
    var lo := if i > 0 && s[i - 1].kind == InTree then i - 1 else i;
    var hi := if i + 1 < |s| && s[i + 1].kind == InTree then i + 2 else i + 1;
    var m := Seg(s[lo].addr, Total(s[lo..hi]), InTree);
    StretchTotal(s, lo, hi, i, base);
    forall c ensures c in ReplaceSegs(s, lo, hi, [m]) <==>
                       c == m || (c in s && c != s[i] && !Touches(c, s[i].addr, s[i].size)) {
      SpliceMember(s, lo, hi, [m], base, c);
      if c in s {
        var j :| 0 <= j < |s| && s[j] == c;
        TouchingPlace(s, i, j, base);
        PlaceIn(s, lo, hi, j, base);
      }
    }
  }

  lemma StretchTotal(s: seq<Seg>, lo: nat, hi: nat, i: nat, base: int)
    requires lo <= i < hi <= |s| && i <= lo + 1 && Tiles(s, base) && AllWellSized(s)
    ensures s[lo].addr <= s[i].addr < s[lo].addr + Total(s[lo..hi])
  {
    assert WellSized(s[lo]) && WellSized(s[i]);
    if lo < i {
      TilesNext(s, lo, base);
      assert s[lo..hi] == [s[lo], s[i]] + s[i + 1..hi];
    } else {
      assert s[lo..hi] == [s[i]] + s[i + 1..hi];
    }
  }

  /** In a tiling, the blocks that touch block `i` are its neighbours. */
  lemma TouchingPlace(s: seq<Seg>, i: nat, j: nat, base: int)
    requires i < |s| && j < |s| && Tiles(s, base) && AllWellSized(s) && s[i].kind == Live
    ensures Touches(s[j], s[i].addr, s[i].size) <==> s[j].kind == InTree && (j == i - 1 || j == i + 1)
  {
    assert WellSized(s[i]) && WellSized(s[j]);
    if j < i {
      TilesNext(s, j, base);
      if j + 1 < i { TilesOrder(s, j + 1, i, base); assert WellSized(s[j + 1]); }
    } else if j > i {
      TilesNext(s, i, base);
      if i + 1 < j { TilesOrder(s, i + 1, j, base); assert WellSized(s[i + 1]); }
    }
  }

  lemma PlaceIn(s: seq<Seg>, lo: nat, hi: nat, j: nat, base: int)
    requires lo <= hi <= |s| && j < |s| && Tiles(s, base) && AllWellSized(s)
    ensures s[j] in s[lo..hi] <==> lo <= j < hi
  {
    IndexOfUnique(s, j, base);
    if s[j] in s[lo..hi] {
      var k :| lo <= k < hi && s[k] == s[j];
      IndexOfUnique(s, k, base);
    }
  }

  lemma RemoveLive(h: Heap, i: nat, lo: nat, hi: nat, c: Seg)
    requires Inv(h) && lo <= i < hi <= |h.segs| && h.segs[i].kind == Live && c.kind != Live
    requires forall j :: lo <= j < hi && j != i ==> h.segs[j].kind != Live
    ensures (set b | b in ReplaceSegs(h.segs, lo, hi, [c]) && b.kind == Live) == Lives(h) - {h.segs[i]}
  {
    var s' := ReplaceSegs(h.segs, lo, hi, [c]);
    forall b: Seg | b.kind == Live ensures b in s' <==> b in h.segs && b != h.segs[i] {
      SpliceLives(h, lo, hi, [c], b);
      assert b in h.segs[lo..hi] <==> b == h.segs[i] by {
        assert h.segs[i] == h.segs[lo..hi][i - lo];
      }
    }
  }

  /** The live blocks are exactly the ones handed out and not yet returned, so `used` is
      zero if and only if nothing is live. */
  lemma UsedZero(h: Heap)
    requires Inv(h)
    ensures h.used == 0 <==> Lives(h) == {}
  {
    LiveTotalZero(h.segs);
    assert Lives(h) == {} <==> forall i :: 0 <= i < |h.segs| ==> h.segs[i].kind != Live by {
      if Lives(h) == {} {
        forall i | 0 <= i < |h.segs| ensures h.segs[i].kind != Live {
          assert h.segs[i] !in Lives(h);
        }
      }
    }
  }

  lemma {:induction false} LiveTotalZero(s: seq<Seg>)
    requires AllWellSized(s)
    ensures LiveTotal(s) == 0 <==> forall i :: 0 <= i < |s| ==> s[i].kind != Live
  {
    if s == [] {
    } else {
      assert WellSized(s[0]);
      LiveTotalZero(s[1..]);
      assert (forall i :: 0 <= i < |s| ==> s[i].kind != Live) <==>
             s[0].kind != Live && forall i :: 0 <= i < |s[1..]| ==> s[1..][i].kind != Live by {
        assert forall i :: 0 < i < |s| ==> s[i] == s[1..][i - 1];
      }
    }
  }
}
