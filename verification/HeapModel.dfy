/** A naive allocator over the arena: the specification that the red-black tree
implementation refines.

The heap is the sequence of its blocks in address order.  Allocation scans that
sequence from the left; deallocation looks at the two neighbours. */
module HeapModel {
  import opened Arithmetic
  import opened BlockTree

  const QUANTUM: nat := 16
  const CLASSES: nat := 8
  const MAX_SMALL: nat := 128
  const MIN_BLOCK: nat := 48
  /** `insert_node` aborts on larger blocks, so no arena may be larger. */
  const MAX_BLOCK: nat := 0x4000_0000

  /** Where a block is: handed out, in the tree, or in a small list. */
  datatype Kind = Live | InTree | InList

  datatype Seg = Seg(addr: int, size: nat, kind: Kind)

  datatype AllocError = OutOfMemory | InvalidAlignment | DoubleFree | BadPointer

  datatype AllocationResult = AllocationResult(ptr: int, offset: int, actualSize: nat)

  datatype Result<T> = Ok(value: T) | Err(error: AllocError)

  /** `gaps` counts the allocations that cut a front gap; the code has no such field. */
  datatype Heap = Heap(base: int, cap: nat, segs: seq<Seg>, lists: seq<seq<int>>,
                       used: int, freeBlocks: int, gaps: nat)

  // ------------------------------------------------------------ arithmetic

  function RoundUp(n: nat): (r: nat)
    ensures n <= r < n + 16 && r % 16 == 0
  {
    (n + 15) / 16 * 16
  }

  /** `std::align`: the first multiple of `a` at or after `p`. */
  function AlignUp(p: nat, a: nat): (r: nat)
    requires a > 0
    ensures p <= r < p + a && r % a == 0
  {
    var r := if p % a == 0 then p else p + (a - p % a);
    AlignUpMultiple(p, a);
    r
  }

  lemma AlignUpMultiple(p: nat, a: nat)
    requires a > 0
    ensures p % a != 0 ==> (p + (a - p % a)) % a == 0
  {
    var q := p / a;
    assert p == a * q + p % a;
    if p % a != 0 {
      assert p + (a - p % a) == a * q + a == a * (q + 1);
      MultipleMod(a, q + 1);
    }
  }

  /** A power of two of at least 16 is a multiple of 16. */
  lemma Pow2Multiple(n: nat)
    requires IsPow2(n) && n >= 16
    ensures n % 16 == 0
  {
    assert IsPow2(n / 2) && IsPow2(n / 2 / 2) && IsPow2(n / 2 / 2 / 2) && n / 2 / 2 / 2 >= 2;
    assert n / 2 / 2 / 2 % 2 == 0;
  }

  lemma MultipleOf16(r: nat, a: nat)
    requires a > 0 && a % 16 == 0 && r % a == 0
    ensures r % 16 == 0
  {
    var q, k := r / a, a / 16;
    assert r == a * q && a == 16 * k;
    assert r == 16 * (k * q);
  }

  // ------------------------------------------------------------ block sequences

  function Total(s: seq<Seg>): nat { if s == [] then 0 else s[0].size + Total(s[1..]) }

  function LiveTotal(s: seq<Seg>): nat {
    if s == [] then 0 else (if s[0].kind == Live then s[0].size else 0) + LiveTotal(s[1..])
  }

  function FreeTotal(s: seq<Seg>): nat {
    if s == [] then 0 else (if s[0].kind == Live then 0 else s[0].size) + FreeTotal(s[1..])
  }

  function FreeCount(s: seq<Seg>): nat {
    if s == [] then 0 else (if s[0].kind == Live then 0 else 1) + FreeCount(s[1..])
  }

  /** The blocks in the tree, in address order. */
  function TreeBlocks(s: seq<Seg>): seq<Block> {
    if s == [] then []
    else (if s[0].kind == InTree then [Block(s[0].addr, s[0].size)] else []) + TreeBlocks(s[1..])
  }

  /** Each block starts where the one before it ends, the first one at `lo`. */
  predicate Tiles(s: seq<Seg>, lo: int) {
    s == [] || (s[0].addr == lo && Tiles(s[1..], lo + s[0].size))
  }

  predicate WellSized(b: Seg) {
    b.size >= QUANTUM && b.size % 16 == 0 &&
    (b.kind == InTree ==> b.size >= MIN_BLOCK) && (b.kind == InList ==> b.size <= MAX_SMALL)
  }

  predicate AllWellSized(s: seq<Seg>) { forall i :: 0 <= i < |s| ==> WellSized(s[i]) }

  /** No two tree blocks are neighbours. */
  predicate Coalesced(s: seq<Seg>) {
    forall i, j :: 0 <= i < |s| && 0 <= j < |s| && j == i + 1 ==> !(s[i].kind == InTree && s[j].kind == InTree)
  }

  lemma Distribute(a: seq<Seg>, b: seq<Seg>, lo: int)
    ensures Total(a + b) == Total(a) + Total(b)
    ensures LiveTotal(a + b) == LiveTotal(a) + LiveTotal(b)
    ensures FreeCount(a + b) == FreeCount(a) + FreeCount(b)
    ensures TreeBlocks(a + b) == TreeBlocks(a) + TreeBlocks(b)
    ensures Tiles(a + b, lo) == (Tiles(a, lo) && Tiles(b, lo + Total(a)))
  {
    DistributeSums(a, b, lo);
    DistributeTree(a, b);
  }

  lemma {:induction false} DistributeSums(a: seq<Seg>, b: seq<Seg>, lo: int)
    ensures Total(a + b) == Total(a) + Total(b)
    ensures LiveTotal(a + b) == LiveTotal(a) + LiveTotal(b)
    ensures FreeCount(a + b) == FreeCount(a) + FreeCount(b)
    ensures Tiles(a + b, lo) == (Tiles(a, lo) && Tiles(b, lo + Total(a)))
  {
    if a == [] {
      assert a + b == b;
    } else {
      Uncons(a, b);
      DistributeSums(a[1..], b, lo + a[0].size);
    }
  }

  lemma {:induction false} DistributeTree(a: seq<Seg>, b: seq<Seg>)
    ensures TreeBlocks(a + b) == TreeBlocks(a) + TreeBlocks(b)
  {
    if a == [] {
      assert a + b == b;
    } else {
      Uncons(a, b);
      DistributeTree(a[1..], b);
      var x := if a[0].kind == InTree then [Block(a[0].addr, a[0].size)] else [];
      assert x + (TreeBlocks(a[1..]) + TreeBlocks(b)) == (x + TreeBlocks(a[1..])) + TreeBlocks(b);
    }
  }

  lemma Uncons(a: seq<Seg>, b: seq<Seg>)
    requires a != []
    ensures a + b != [] && (a + b)[0] == a[0] && (a + b)[1..] == a[1..] + b
  {}

  lemma {:induction false} Conservation(s: seq<Seg>)
    ensures LiveTotal(s) + FreeTotal(s) == Total(s)
  {
    if s == [] {
    } else {
      Conservation(s[1..]);
    }
  }

  lemma {:induction false} TotalSuffix(s: seq<Seg>, i: nat, lo: int)
    requires i < |s| && Tiles(s, lo)
    ensures s[i].addr == lo + Total(s[..i])
    ensures s[i].addr + s[i].size + Total(s[i + 1..]) == lo + Total(s)
  {
    assert s == s[..i] + s[i..];
    Distribute(s[..i], s[i..], lo);
  }

  lemma TilesNext(s: seq<Seg>, i: nat, lo: int)
    requires i + 1 < |s| && Tiles(s, lo)
    ensures s[i + 1].addr == s[i].addr + s[i].size
  {
    TotalSuffix(s, i, lo);
    TotalSuffix(s, i + 1, lo);
    assert s[i + 1..][1..] == s[i + 2..];
  }

  /** Blocks further right lie entirely behind. */
  lemma TilesOrder(s: seq<Seg>, i: nat, j: nat, lo: int)
    requires i < j < |s| && Tiles(s, lo)
    ensures s[i].addr + s[i].size <= s[j].addr
  {
    TotalSuffix(s, j, lo);
    assert s[..j] == s[..i] + [s[i]] + s[i + 1..j];
    Distribute(s[..i] + [s[i]], s[i + 1..j], lo);
    Distribute(s[..i], [s[i]], lo);
    assert Total([s[i]]) == s[i].size;
    TotalSuffix(s, i, lo);
  }

  lemma {:induction false} Aligned(s: seq<Seg>, i: nat, lo: int)
    requires i < |s| && Tiles(s, lo) && AllWellSized(s) && lo % 16 == 0
    ensures s[i].addr % 16 == 0
    decreases i
  {
    if i == 0 {
    } else {
      Aligned(s[1..], i - 1, lo + s[0].size);
    }
  }

  /** Index of the block starting at `a`, or the length. */
  function IndexOf(s: seq<Seg>, a: int): (i: nat)
    ensures i <= |s|
    ensures i < |s| ==> s[i].addr == a
    ensures i == |s| ==> forall j :: 0 <= j < |s| ==> s[j].addr != a
  {
    if s == [] then 0 else if s[0].addr == a then 0 else 1 + IndexOf(s[1..], a)
  }

  /** Starting addresses identify blocks. */
  lemma IndexOfUnique(s: seq<Seg>, i: nat, lo: int)
    requires i < |s| && Tiles(s, lo) && AllWellSized(s)
    ensures IndexOf(s, s[i].addr) == i
  {
    var j := IndexOf(s, s[i].addr);
    if j < i { TilesOrder(s, j, i, lo); }
    if i < j < |s| { TilesOrder(s, i, j, lo); }
  }

  // ------------------------------------------------------------ invariant

  function SizeOf(k: nat): nat { QUANTUM * (k + 1) }

  predicate NoDuplicates(l: seq<int>) {
    forall i, j :: 0 <= i < j < |l| ==> l[i] != l[j]
  }

  /** List `k` holds exactly the small-list blocks of its size, once each. */
  ghost predicate ListsMatch(s: seq<Seg>, lists: seq<seq<int>>) {
    |lists| == CLASSES &&
    (forall k :: 0 <= k < CLASSES ==> NoDuplicates(lists[k])) &&
    (forall k, a :: 0 <= k < CLASSES ==> (a in lists[k] <==> Seg(a, SizeOf(k), InList) in s))
  }

  ghost predicate ArenaOk(base: int, cap: nat) {
    base > 0 && base % 16 == 0 && cap % 16 == 0 && MIN_BLOCK <= cap <= MAX_BLOCK && base + cap < LIMIT
  }

  ghost predicate Inv(h: Heap) {
    ArenaOk(h.base, h.cap) &&
    Tiles(h.segs, h.base) && Total(h.segs) == h.cap && AllWellSized(h.segs) && Coalesced(h.segs) &&
    ListsMatch(h.segs, h.lists) &&
    h.used == LiveTotal(h.segs) &&
    h.freeBlocks == (FreeCount(h.segs) - h.gaps) % LIMIT
  }

  // ------------------------------------------------------------ operations

  function Init(base: int, cap: nat): Heap {
    Heap(base, cap, [Seg(base, cap, InTree)], seq(CLASSES, _ => []), 0, 1, 0)
  }

  predicate Fits(b: Seg, n: nat, align: nat)
    requires align > 0
  {
    b.kind == InTree && b.addr >= 0 && AlignUp(b.addr, align) + n <= b.addr + b.size
  }

  /** The lowest tree block into which the aligned request fits, or the length. */
  function FirstFitting(s: seq<Seg>, n: nat, align: nat): (i: nat)
    requires align > 0
    ensures i <= |s|
    ensures i < |s| ==> Fits(s[i], n, align)
    ensures forall j :: 0 <= j < i ==> !Fits(s[j], n, align)
  {
    if s == [] then 0 else if Fits(s[0], n, align) then 0 else 1 + FirstFitting(s[1..], n, align)
  }

  /** `n` is the least positive multiple of 16 that holds `size` bytes. */
  predicate RoundsTo(size: nat, n: nat) {
    n % 16 == 0 && if size == 0 then n == 16 else size <= n < size + 16
  }

  /** The size actually reserved and the alignment actually used. */
  function Need(size: nat): (n: nat)
    ensures RoundsTo(size, n) && n >= QUANTUM && n >= size
  {
    RoundUp(if size == 0 then 1 else size)
  }

  function Effective(alignment: nat): (a: nat)
    ensures a >= 16 && a >= alignment && (a == 16 || a == alignment)
  {
    if alignment < 16 then 16 else alignment
  }

  function ClassOf(n: nat): int { n / QUANTUM - 1 }

  function Push(lists: seq<seq<int>>, k: int, a: int): seq<seq<int>> {
    if 0 <= k < |lists| then lists[k := [a] + lists[k]] else lists
  }

  function ReplaceSegs(s: seq<Seg>, i: nat, j: nat, mid: seq<Seg>): seq<Seg>
    requires i <= j <= |s|
  {
    s[..i] + mid + s[j..]
  }

  /** Serve from the exact small list. */
  function TakeSmall(h: Heap, n: nat): (Heap, Result<AllocationResult>)
    requires 0 <= ClassOf(n) < |h.lists| && h.lists[ClassOf(n)] != []
  {
    var k := ClassOf(n);
    var a := h.lists[k][0];
    var i := IndexOf(h.segs, a);
    var segs := if i < |h.segs| then ReplaceSegs(h.segs, i, i + 1, [Seg(a, n, Live)]) else h.segs;
    (h.(segs := segs, lists := h.lists[k := h.lists[k][1..]],
        used := h.used + n, freeBlocks := (h.freeBlocks - 1) % LIMIT),
     Ok(AllocationResult(a, a - h.base, n)))
  }

  function GapSegs(a: int, pre: nat): seq<Seg> {
    if pre < QUANTUM then [] else [Seg(a, pre, if pre <= MAX_SMALL then InList else InTree)]
  }

  function RestSegs(a: int, rest: nat): seq<Seg> {
    if rest < QUANTUM then [] else [Seg(a, rest, if rest >= MIN_BLOCK then InTree else InList)]
  }

  /** Cut `n` bytes at address `p` out of tree block `i`. */
  function Cut(h: Heap, i: nat, n: nat, p: int): (Heap, Result<AllocationResult>)
    requires i < |h.segs| && h.segs[i].addr <= p && p + n <= h.segs[i].addr + h.segs[i].size
  {
    var b := h.segs[i];
    var pre, rest := p - b.addr, b.addr + b.size - p - n;
    var got := if rest < QUANTUM then n + rest else n;
    (h.(segs := ReplaceSegs(h.segs, i, i + 1, Pieces(b.addr, pre, n, rest)),
        lists := PushPieces(h.lists, b.addr, pre, n, rest), used := h.used + got,
        freeBlocks := if rest < QUANTUM then (h.freeBlocks - 1) % LIMIT else h.freeBlocks,
        gaps := if pre >= QUANTUM then h.gaps + 1 else h.gaps),
     Ok(AllocationResult(p, p - h.base, got)))
  }

  /** Gap, live block and remainder; a remainder too small for any list is absorbed. */
  function Pieces(a: int, pre: nat, n: nat, rest: nat): seq<Seg> {
    GapSegs(a, pre) + [Seg(a + pre, if rest < QUANTUM then n + rest else n, Live)] + RestSegs(a + pre + n, rest)
  }

  function PushPieces(lists: seq<seq<int>>, a: int, pre: nat, n: nat, rest: nat): seq<seq<int>> {
    var lists1 := if QUANTUM <= pre <= MAX_SMALL then Push(lists, ClassOf(pre), a) else lists;
    if QUANTUM <= rest < MIN_BLOCK then Push(lists1, ClassOf(rest), a + pre + n) else lists1
  }

  function Allocate(h: Heap, size: nat, alignment: nat): (Heap, Result<AllocationResult>) {
    var n, align := Need(size), Effective(alignment);
    if n <= MAX_SMALL && ClassOf(n) < |h.lists| && h.lists[ClassOf(n)] != [] then TakeSmall(h, n)
    else
      var i := FirstFitting(h.segs, n, align);
      if i == |h.segs| then (h, Err(OutOfMemory)) else Cut(h, i, n, AlignUp(h.segs[i].addr, align))
  }

  /** A large freed block merges with tree blocks on either side. */
  function Merge(h: Heap, i: nat): Heap
    requires i < |h.segs|
  {
    var lo := if i > 0 && h.segs[i - 1].kind == InTree then i - 1 else i;
    var hi := if i + 1 < |h.segs| && h.segs[i + 1].kind == InTree then i + 2 else i + 1;
    var merged := Seg(h.segs[lo].addr, Total(h.segs[lo..hi]), InTree);
    h.(segs := ReplaceSegs(h.segs, lo, hi, [merged]), used := h.used - h.segs[i].size,
       freeBlocks := (h.freeBlocks + 2 - (hi - lo)) % LIMIT)
  }

  function GiveSmall(h: Heap, i: nat): Heap
    requires i < |h.segs|
  {
    var b := h.segs[i];
    h.(segs := ReplaceSegs(h.segs, i, i + 1, [b.(kind := InList)]), lists := Push(h.lists, ClassOf(b.size), b.addr),
       used := h.used - b.size, freeBlocks := (h.freeBlocks + 1) % LIMIT)
  }

  function Deallocate(h: Heap, ptr: int, size: nat): (Heap, Result<()>) {
    if ptr == 0 then (h, Ok(()))
    else if ptr < h.base || ptr >= h.base + h.cap then (h, Err(BadPointer))
    else if ptr % 16 != 0 then (h, Err(InvalidAlignment))
    else
      var i := IndexOf(h.segs, ptr);
      if i == |h.segs| then (h, Ok(()))
      else if size <= MAX_SMALL then (GiveSmall(h, i), Ok(()))
      else (Merge(h, i), Ok(()))
  }

  // ------------------------------------------------------------ what callers owe

  predicate AllocOk(size: nat, alignment: nat) {
    size + 15 < LIMIT && (alignment <= 16 || IsPow2(alignment))
  }

  /** The block is live, or the pointer is one that the code rejects without aborting. */
  predicate DeallocOk(h: Heap, ptr: int, size: nat) {
    h.base <= ptr < h.base + h.cap ==>
      QUANTUM <= size <= h.base + h.cap - ptr &&
      (ptr % 16 == 0 ==> Seg(ptr, size, Live) in h.segs)
  }
}
