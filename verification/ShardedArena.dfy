/** The arena of 256 allocators behind `alloc_raw` and `dealloc_raw`, over every
interleaving of threads.

What a thread does under a shard's lock is one step.  Freeing is two steps, because
`dealloc_raw` reads and invalidates the header before it takes the lock.  Each shard is
the heap that `FreeListAllocator` implements.  Its nodes lie in the same bytes as headers and
user data: a step may change (`scratch`) the bytes of nodes that start a free block before or
after it, and of the node that a freed block turns into. */
module ShardedArena {
  import opened Arithmetic
  import opened BlockTree
  import opened HeapModel
  import opened HeapInvariant
  import opened HeapTheorems
  import opened RoundTrip
  import opened ArenaBytes
  import opened BlockHeader
  import opened NodeBytes

  const SHARDS: nat := 256
  const QUANTUM_ALL: nat := 4096

  type ShardId = i: nat | i < SHARDS

  /** Who holds a block: a client, or a thread between the two halves of freeing it. */
  datatype Owner = Held(actual: nat, size: nat, offset: nat) | Freeing(actual: nat, tid: nat)

  datatype Arena = Arena(base: int, cap: nat, shards: seq<Heap>, mem: Bytes, owners: map<int, Owner>,
                         threads: map<nat, ShardId>, nextShard: nat)

  datatype ArenaStep = Attach(tid: nat)
    | AllocRaw(tid: nat, size: nat, alignment: nat, tag: seq<nat>, scratch: Bytes)
    | ClientWrite(raw: int, k: nat, value: nat)
    | FreeBegin(tid: nat, raw: int)
    | FreeEnd(tid: nat, raw: int, scratch: Bytes)

  // ------------------------------------------------------------ set-up

  function ShardSize(cap: nat): nat { cap / SHARDS }

  function Create(base: int, cap: nat, mem: Bytes): Arena {
    Arena(base, cap, seq(SHARDS, i requires 0 <= i => Init(base + i * ShardSize(cap), ShardSize(cap))), mem, map[], map[], 0)
  }

  predicate CapacityOk(base: int, cap: nat) {
    base > 0 && base % 16 == 0 && cap % QUANTUM_ALL == 0 && base + cap < LIMIT &&
    SHARDS * MIN_BLOCK <= cap <= SHARDS * MAX_BLOCK
  }

  /** Rounding of the configured size in `create`, then to whole pages. */
  function RoundedCapacity(arenaSize: nat, page: nat): nat
    requires page > 0
  {
    var q := (arenaSize + QUANTUM_ALL - 1) / QUANTUM_ALL * QUANTUM_ALL;
    (q + page - 1) / page * page
  }

  lemma {:induction false} PowersDivide(p: nat, q: nat)
    requires IsPow2(p) && IsPow2(q) && p <= q
    ensures q % p == 0
    decreases q
  {
    if p == 1 {
    } else {
      PowersDivide(p / 2, q / 2);
      var k := q / 2 / (p / 2);
      assert q / 2 == p / 2 * k;
      assert q == p * k by { assert p == 2 * (p / 2) && q == 2 * (q / 2); assert 2 * (p / 2 * k) == (2 * (p / 2)) * k; }
      MultipleMod(p, k);
    }
  }

  /** Whatever power of two the page size is, the capacity is the least number of bytes that
      holds the configured size and divides into whole pages and into 16-aligned shards. */
  lemma CapacityMultiple(arenaSize: nat, page: nat)
    requires IsPow2(page)
    ensures var cap := RoundedCapacity(arenaSize, page);
            cap >= arenaSize && cap % QUANTUM_ALL == 0 && cap % page == 0 &&
            forall m: nat :: m >= arenaSize && m % QUANTUM_ALL == 0 && m % page == 0 ==> cap <= m
  {
    var q := (arenaSize + QUANTUM_ALL - 1) / QUANTUM_ALL;
    PagesMultiple(q, page);
    RoundUpTo(arenaSize, QUANTUM_ALL);
    RoundUpTo(q * QUANTUM_ALL, page);
    forall m: nat | m >= arenaSize && m % QUANTUM_ALL == 0 && m % page == 0
      ensures RoundedCapacity(arenaSize, page) <= m
    {
      LeastRound(arenaSize, QUANTUM_ALL, m);
      LeastRound(q * QUANTUM_ALL, page, m);
    }
  }

  lemma PagesMultiple(q: nat, page: nat)
    requires IsPow2(page)
    ensures ((q * QUANTUM_ALL + page - 1) / page * page) % QUANTUM_ALL == 0
  {
    Quantum4096();
    if page <= QUANTUM_ALL {
      PowersDivide(page, QUANTUM_ALL);
      Quotient(QUANTUM_ALL, page);
      SmallPages(q, page, QUANTUM_ALL / page);
    } else {
      PowersDivide(QUANTUM_ALL, page);
      LargePages((q * QUANTUM_ALL + page - 1) / page, page, page / QUANTUM_ALL);
    }
  }

  lemma Quotient(x: nat, d: nat)
    requires d > 0 && x % d == 0
    ensures x == d * (x / d)
  {}

  lemma SmallPages(q: nat, page: nat, k: nat)
    requires page > 0 && QUANTUM_ALL == page * k
    ensures (q * QUANTUM_ALL + page - 1) / page * page == q * QUANTUM_ALL
  {
    assert q * QUANTUM_ALL == page * (q * k) by { assert q * (page * k) == page * (q * k); }
    ExactRound(q * k, page);
  }

  lemma LargePages(j: nat, page: nat, k: nat)
    requires page == QUANTUM_ALL * k
    ensures (j * page) % QUANTUM_ALL == 0
  {
    assert j * page == QUANTUM_ALL * (j * k) by { assert j * (QUANTUM_ALL * k) == QUANTUM_ALL * (j * k); }
    MultipleMod(QUANTUM_ALL, j * k);
  }

  lemma Quantum4096()
    ensures IsPow2(QUANTUM_ALL)
  {
    assert IsPow2(1) && IsPow2(2) && IsPow2(4) && IsPow2(8) && IsPow2(16) && IsPow2(32);
    assert IsPow2(64) && IsPow2(128) && IsPow2(256) && IsPow2(512) && IsPow2(1024) && IsPow2(2048);
  }

  lemma RoundUpTo(n: nat, page: nat)
    requires page > 0
    ensures (n + page - 1) / page * page >= n && ((n + page - 1) / page * page) % page == 0
  {
    var x := n + page - 1;
    assert x == page * (x / page) + x % page;
    MultipleMod(page, x / page);
  }

  /** No multiple of `page` from `n` on lies below the rounded number. */
  lemma LeastRound(n: nat, page: nat, m: nat)
    requires page > 0 && m >= n && m % page == 0
    ensures (n + page - 1) / page * page <= m
  {
    var x := n + page - 1;
    assert x == page * (x / page) + x % page && m == page * (m / page);
    LessMultiple(page, x / page, m / page, x);
  }

  lemma LessMultiple(page: nat, j: nat, k: nat, x: nat)
    requires page * j <= x < page * k + page
    ensures j * page <= page * k
  {
    if j > k {
      assert page * j == page * k + page * (j - k);
      assert page * (j - k) == page + page * (j - k - 1);
    }
  }

  lemma ExactRound(k: nat, page: nat)
    requires page > 0
    ensures (page * k + page - 1) / page * page == page * k
  {
    var x := page * k + page - 1;
    DivModOf(x, k, page - 1, page);
  }

  /** Every shard is an arena the allocator can manage if and only if the capacity is at
      least 256 * 48 bytes and at most 256 GiB. */
  lemma ShardsManageable(base: int, cap: nat)
    requires base > 0 && base % 16 == 0 && cap % QUANTUM_ALL == 0 && base + cap < LIMIT
    ensures CapacityOk(base, cap) <==> AllArenasOk(base, ShardSize(cap))
  {
    var ss := ShardSize(cap);
    WholeShards(cap);
    forall i | 0 <= i < SHARDS ensures (base + i * ss) % 16 == 0 && base + i * ss + ss <= base + cap && base + i * ss > 0 {
      ShardPlace(base, ss, i);
    }
    assert ArenaOk(base + 0 * ss, ss) <==> MIN_BLOCK <= ss <= MAX_BLOCK;
  }

  /** One page is not enough: its 256 shards of 16 bytes cannot hold a tree node. */
  lemma OnePageTooSmall(base: int)
    ensures IsPow2(QUANTUM_ALL) && RoundedCapacity(1, QUANTUM_ALL) == QUANTUM_ALL && !CapacityOk(base, QUANTUM_ALL)
  {
    Quantum4096();
  }

  ghost predicate AllArenasOk(base: int, ss: nat) {
    forall i :: 0 <= i < SHARDS ==> ArenaOk(base + i * ss, ss)
  }

  lemma ShardPlace(base: int, ss: nat, i: nat)
    requires base > 0 && base % 16 == 0 && ss % 16 == 0 && i < SHARDS
    ensures (base + i * ss) % 16 == 0 && base + i * ss + ss <= base + SHARDS * ss && base + i * ss > 0
  {
    var k := ss / 16;
    assert i * ss == 16 * (i * k) by { assert ss == 16 * k; }
    var d := SHARDS - 1 - i;
    assert SHARDS * ss == i * ss + ss + d * ss;
    assert d * ss >= 0;
  }

  // ------------------------------------------------------------ finding the shard

  function GetShardIdx(base: int, cap: nat, ptr: int): nat
    requires ShardSize(cap) > 0
  {
    if ptr < base || ptr >= base + cap then SHARDS
    else
      var idx := (ptr - base) / ShardSize(cap);
      if idx >= SHARDS then SHARDS - 1 else idx
  }

  predicate Contains(h: Heap, ptr: int) { h.base <= ptr < h.base + h.cap }

  /** The ownership re-check of `dealloc_raw`, with its fallback search. */
  function FindShard(a: Arena, ptr: int): nat
    requires ShardSize(a.cap) > 0 && |a.shards| == SHARDS
  {
    var idx := GetShardIdx(a.base, a.cap, ptr);
    if idx >= SHARDS || Contains(a.shards[idx], ptr) then idx else SearchShard(a, ptr, 0)
  }

  function SearchShard(a: Arena, ptr: int, i: nat): nat
    requires |a.shards| == SHARDS && i <= SHARDS
    decreases SHARDS - i
  {
    if i == SHARDS || Contains(a.shards[i], ptr) then i else SearchShard(a, ptr, i + 1)
  }

  /** A pointer inside shard `i` maps back to `i`. */
  lemma ShardIndexExact(a: Arena, i: nat, x: int)
    requires Shaped(a.base, a.cap, a.shards) && i < SHARDS && Contains(a.shards[i], x)
    ensures GetShardIdx(a.base, a.cap, x) == i && FindShard(a, x) == i
  {
    var ss := ShardSize(a.cap);
    assert ShardOk(a.base, a.cap, a.shards[i], i);
    ShardPlace(a.base, ss, i);
    WholeShards(a.cap);
    SlotIndex(x - a.base, i, ss);
  }

  /** A pointer into the region maps to a shard that holds it, any other pointer to none. */
  lemma ShardIndexFound(a: Arena, x: int)
    requires Shaped(a.base, a.cap, a.shards)
    ensures var i := GetShardIdx(a.base, a.cap, x);
            if a.base <= x < a.base + a.cap then i < SHARDS && Contains(a.shards[i], x) else i == SHARDS
  {
    var i := GetShardIdx(a.base, a.cap, x);
    SlotFound(a.base, a.cap, x);
    if i < SHARDS {
      assert ShardOk(a.base, a.cap, a.shards[i], i);
    }
  }

  lemma SlotFound(base: int, cap: nat, x: int)
    requires cap % QUANTUM_ALL == 0 && ShardSize(cap) > 0
    ensures var i := GetShardIdx(base, cap, x);
            if base <= x < base + cap then i < SHARDS && base + i * ShardSize(cap) <= x < base + i * ShardSize(cap) + ShardSize(cap)
            else i == SHARDS
  {
    if base <= x < base + cap {
      WholeShards(cap);
      SlotOf(x - base, ShardSize(cap));
    }
  }

  lemma SlotOf(off: nat, ss: nat)
    requires ss > 0 && off < SHARDS * ss
    ensures off / ss < SHARDS && off / ss * ss <= off < off / ss * ss + ss
  {
    var j := off / ss;
    assert off == ss * j + off % ss;
  }

  lemma SlotIndex(off: nat, i: nat, ss: nat)
    requires i * ss <= off < i * ss + ss
    ensures off / ss == i
  {
    assert off == ss * i + (off - i * ss);
    DivModOf(off, i, off - i * ss, ss);
  }

  // ------------------------------------------------------------ steps

  ghost predicate SameOnLive(shards: seq<Heap>, m: Bytes, m': Bytes) {
    forall i, b :: 0 <= i < |shards| && b in Lives(shards[i]) ==> SameBytes(m, m', b.addr, b.addr + b.size)
  }

  function Request(size: nat, alignment: nat): nat { size + OffsetToUser(alignment) }

  /** The shards once the block is back in the one that is found for it. */
  function ShardsAfterFree(a: Arena, raw: int): seq<Heap>
    requires ShardSize(a.cap) > 0 && |a.shards| == SHARDS && raw in a.owners
  {
    var i := FindShard(a, raw);
    if i >= SHARDS then a.shards else a.shards[i := Deallocate(a.shards[i], raw, a.owners[raw].actual).0]
  }

  /** The bytes an allocation may change: nodes of the heap before and after it. */
  ghost predicate NodesWritten(m: Bytes, m': Bytes, h: Heap, h': Heap) {
    forall x :: Get(m', x) != Get(m, x) ==> InNode(h, x) || InNode(h', x)
  }

  /** Byte `x` belongs to the node that a freed block is turned into. */
  predicate InFreed(raw: int, actual: nat, x: int) {
    raw <= x < raw + NodeSize(if actual <= MAX_SMALL then InList else InTree)
  }

  /** The bytes freeing `raw` may change. */
  ghost predicate NodesFreed(m: Bytes, m': Bytes, h: Heap, h': Heap, raw: int, actual: nat) {
    forall x :: Get(m', x) != Get(m, x) ==> InNode(h, x) || InNode(h', x) || InFreed(raw, actual, x)
  }

  ghost predicate CanStep(a: Arena, s: ArenaStep)
    requires ShardSize(a.cap) > 0 && |a.shards| == SHARDS
  {
    match s
    case Attach(_) => true
    case AllocRaw(tid, size, alignment, _, scratch) =>
      tid in a.threads && AllocOk(Request(size, alignment), alignment) &&
      var h := a.shards[a.threads[tid]];
      NodesWritten(a.mem, scratch, h, Allocate(h, Request(size, alignment), alignment).0)
    case ClientWrite(raw, k, _) => raw in a.owners && a.owners[raw].Held? && k < a.owners[raw].size
    case FreeBegin(_, raw) => raw in a.owners && a.owners[raw].Held?
    case FreeEnd(tid, raw, scratch) =>
      raw in a.owners && a.owners[raw].Freeing? && a.owners[raw].tid == tid &&
      var i, actual := FindShard(a, raw), a.owners[raw].actual;
      if i >= SHARDS then scratch == a.mem
      else NodesFreed(a.mem, scratch, a.shards[i], Deallocate(a.shards[i], raw, actual).0, raw, actual)
  }

  function DoAttach(a: Arena, tid: nat): Arena {
    var idx := if a.nextShard >= SHARDS then a.nextShard % SHARDS else a.nextShard;
    a.(threads := a.threads[tid := idx], nextShard := a.nextShard + 1)
  }

  function DoAlloc(a: Arena, tid: nat, size: nat, alignment: nat, tag: seq<nat>, scratch: Bytes): Arena
    requires |a.shards| == SHARDS && tid in a.threads
  {
    var i, off := a.threads[tid], OffsetToUser(alignment);
    var (h, r) := Allocate(a.shards[i], Request(size, alignment), alignment);
    if r.Err? then a
    else
      var raw, actual := r.value.ptr, r.value.actualSize;
      a.(shards := a.shards[i := h], mem := WriteBlock(scratch, raw, size, actual, off, tag),
         owners := a.owners[raw := Held(actual, size, off)])
  }

  /** A client stores a byte through its user pointer. */
  function DoClientWrite(a: Arena, raw: int, k: nat, value: nat): Arena
    requires raw in a.owners && a.owners[raw].Held?
  {
    a.(mem := a.mem[raw + a.owners[raw].offset + k := value])
  }

  /** The unlocked half of freeing, driven by the user pointer and memory alone. */
  function DoFreeBegin(a: Arena, tid: nat, raw: int): Arena
    requires raw in a.owners && a.owners[raw].Held?
  {
    match ReadBack(a.mem, raw + a.owners[raw].offset)
    case NotFound => a
    case Found(found, actual) =>
      a.(mem := Store(a.mem, found + 16, Encode(0, 8)), owners := (a.owners - {raw})[found := Freeing(actual, tid)])
  }

  function DoFreeEnd(a: Arena, raw: int, scratch: Bytes): Arena
    requires ShardSize(a.cap) > 0 && |a.shards| == SHARDS && raw in a.owners
  {
    a.(shards := ShardsAfterFree(a, raw), mem := scratch, owners := a.owners - {raw})
  }

  ghost function TakeStep(a: Arena, s: ArenaStep): Arena
    requires ShardSize(a.cap) > 0 && |a.shards| == SHARDS && CanStep(a, s)
  {
    match s
    case Attach(tid) => DoAttach(a, tid)
    case AllocRaw(tid, size, alignment, tag, scratch) => DoAlloc(a, tid, size, alignment, tag, scratch)
    case ClientWrite(raw, k, value) => DoClientWrite(a, raw, k, value)
    case FreeBegin(tid, raw) => DoFreeBegin(a, tid, raw)
    case FreeEnd(_, raw, scratch) => DoFreeEnd(a, raw, scratch)
  }

  // ------------------------------------------------------------ invariant

  /** 256 valid heaps tile the region. */
  ghost predicate Shaped(base: int, cap: nat, shards: seq<Heap>) {
    CapacityOk(base, cap) && ShardSize(cap) > 0 && |shards| == SHARDS &&
    forall i {:trigger ShardOk(base, cap, shards[i], i)} :: 0 <= i < SHARDS ==> ShardOk(base, cap, shards[i], i)
  }

  ghost predicate ShardOk(base: int, cap: nat, h: Heap, i: int) {
    Inv(h) && h.base == base + i * ShardSize(cap) && h.cap == ShardSize(cap)
  }

  /** Owned blocks and live blocks are the same. */
  ghost predicate OwnersMatch(base: int, cap: nat, shards: seq<Heap>, owners: map<int, Owner>)
    requires ShardSize(cap) > 0 && |shards| == SHARDS
  {
    (forall raw :: raw in owners ==>
       GetShardIdx(base, cap, raw) < SHARDS && BlockOf(owners, raw) in Lives(shards[GetShardIdx(base, cap, raw)])) &&
    (forall i, b :: 0 <= i < SHARDS && b in Lives(shards[i]) ==> b.addr in owners && owners[b.addr].actual == b.size)
  }

  ghost predicate HeadersOk(mem: Bytes, owners: map<int, Owner>) {
    forall raw :: raw in owners && owners[raw].Held? ==>
      HeaderOk(mem, raw, owners[raw].size, owners[raw].actual, owners[raw].offset)
  }

  ghost predicate ArenaInv(a: Arena) {
    Shaped(a.base, a.cap, a.shards) && OwnersMatch(a.base, a.cap, a.shards, a.owners) &&
    HeadersOk(a.mem, a.owners)
  }

  lemma CreateInv(base: int, cap: nat, mem: Bytes)
    requires CapacityOk(base, cap)
    ensures ArenaInv(Create(base, cap, mem))
  {
    var a, ss := Create(base, cap, mem), ShardSize(cap);
    ShardsManageable(base, cap);
    forall i | 0 <= i < SHARDS ensures Inv(a.shards[i]) && Lives(a.shards[i]) == {} {
      assert a.shards[i] == Init(base + i * ss, ss);
      InitInv(base + i * ss, ss);
    }
  }

  /** Live blocks lie in their own shard's region. */
  lemma LiveLocated(a: Arena, i: nat, b: Seg)
    requires Shaped(a.base, a.cap, a.shards) && i < SHARDS && b in Lives(a.shards[i])
    ensures Contains(a.shards[i], b.addr) && GetShardIdx(a.base, a.cap, b.addr) == i && b.size > 0
    ensures a.base + i * ShardSize(a.cap) <= b.addr && b.addr + b.size <= a.base + i * ShardSize(a.cap) + ShardSize(a.cap)
    ensures b.size <= MAX_BLOCK && b.addr % 16 == 0
  {
    assert ShardOk(a.base, a.cap, a.shards[i], i);
    LiveInside(a.shards[i], b);
    ShardIndexExact(a, i, b.addr);
  }

  /** Two different live blocks, of any shards, are disjoint. */
  lemma BlocksApart(a: Arena, i: nat, b: Seg, j: nat, c: Seg)
    requires Shaped(a.base, a.cap, a.shards) && i < SHARDS && j < SHARDS && b in Lives(a.shards[i]) && c in Lives(a.shards[j])
    requires i != j || b != c
    ensures b.addr + b.size <= c.addr || c.addr + c.size <= b.addr
  {
    LiveLocated(a, i, b);
    LiveLocated(a, j, c);
    if i == j {
      assert ShardOk(a.base, a.cap, a.shards[i], i);
      LivesApart(a.shards[i], b, c);
    } else {
      ShardsApart(ShardSize(a.cap), i, j);
    }
  }

  lemma ShardsApart(ss: nat, i: nat, j: nat)
    requires i != j
    ensures i * ss + ss <= j * ss || j * ss + ss <= i * ss
  {
    var d := if i < j then j - i else i - j;
    assert d * ss >= ss by { assert d * ss == ss + (d - 1) * ss; }
    if i < j { assert j * ss == i * ss + d * ss; } else { assert i * ss == j * ss + d * ss; }
  }

  /** The live block behind an owned pointer. */
  function BlockOf(owners: map<int, Owner>, raw: int): Seg
    requires raw in owners
  {
    Seg(raw, owners[raw].actual, Live)
  }

  // ------------------------------------------------------------ each step keeps the invariant

  lemma AttachInv(a: Arena, tid: nat)
    requires ArenaInv(a)
    ensures ArenaInv(DoAttach(a, tid))
  {}

  /** Headers survive a memory change that spares the metadata of every held block. */
  lemma HeadersKept(m: Bytes, m': Bytes, owners: map<int, Owner>, owners': map<int, Owner>)
    requires HeadersOk(m, owners)
    requires forall r :: r in owners' && owners'[r].Held? ==>
      r in owners && owners[r] == owners'[r] && SameBytes(m, m', r, r + owners[r].offset)
    ensures HeadersOk(m', owners')
  {
    forall r | r in owners' && owners'[r].Held?
      ensures HeaderOk(m', r, owners'[r].size, owners'[r].actual, owners'[r].offset)
    {
      var o := owners[r];
      HeaderFrame(m, m', r, o.size, o.actual, o.offset);
    }
  }

  ghost predicate Disjoint(owners: map<int, Owner>) {
    forall r, s :: r in owners && s in owners && r != s ==> r + owners[r].actual <= s || s + owners[s].actual <= r
  }

  /** Owned blocks are disjoint, whichever shards and threads they came from. */
  lemma OwnedApart(a: Arena)
    requires Shaped(a.base, a.cap, a.shards) && OwnersMatch(a.base, a.cap, a.shards, a.owners)
    ensures Disjoint(a.owners)
  {
    forall r, s | r in a.owners && s in a.owners && r != s
      ensures r + a.owners[r].actual <= s || s + a.owners[s].actual <= r
    {
      BlocksApart(a, GetShardIdx(a.base, a.cap, r), BlockOf(a.owners, r), GetShardIdx(a.base, a.cap, s), BlockOf(a.owners, s));
    }
  }

  lemma HeldFields(mem: Bytes, owners: map<int, Owner>, r: int)
    requires HeadersOk(mem, owners) && r in owners && owners[r].Held?
    ensures Fields(owners[r].size, owners[r].actual, owners[r].offset)
  {}

  /** Stores inside one block's user region keep every header and footer. */
  lemma UserWriteHeaders(mem: Bytes, owners: map<int, Owner>, raw: int, x: int, m: Bytes)
    requires HeadersOk(mem, owners) && Disjoint(owners)
    requires raw in owners && owners[raw].Held? && raw + owners[raw].offset <= x < raw + owners[raw].offset + owners[raw].size
    requires forall y :: y != x ==> Get(m, y) == Get(mem, y)
    ensures HeadersOk(m, owners)
  {
    HeldFields(mem, owners, raw);
    forall r | r in owners && owners[r].Held? ensures SameBytes(mem, m, r, r + owners[r].offset) {
      HeldFields(mem, owners, r);
    }
    HeadersKept(mem, m, owners, owners);
  }

  lemma OtherHeader(mem: Bytes, owners: map<int, Owner>, raw: int, z: seq<nat>, r: int)
    requires HeadersOk(mem, owners) && Disjoint(owners) && |z| == 8 && r != raw
    requires raw in owners && owners[raw].Held? && r in owners && owners[r].Held?
    ensures SameBytes(mem, Store(mem, raw + 16, z), r, r + owners[r].offset)
  {
    HeldFields(mem, owners, raw);
    HeldFields(mem, owners, r);
    StoreApart(mem, raw + 16, z, r, r + owners[r].offset);
  }

  /** Clearing one block's magic keeps every other header. */
  lemma ClearHeaders(mem: Bytes, owners: map<int, Owner>, raw: int, z: seq<nat>, o: Owner)
    requires HeadersOk(mem, owners) && Disjoint(owners)
    requires raw in owners && owners[raw].Held? && |z| == 8 && o.Freeing?
    ensures HeadersOk(Store(mem, raw + 16, z), owners[raw := o])
  {
    var m, owners' := Store(mem, raw + 16, z), owners[raw := o];
    HeldFields(mem, owners, raw);
    forall r | r in owners' && owners'[r].Held?
      ensures r in owners && owners[r] == owners'[r] && SameBytes(mem, m, r, r + owners[r].offset)
    {
      OtherHeader(mem, owners, raw, z, r);
    }
    HeadersKept(mem, m, owners, owners');
  }

  lemma ClientWriteInv(a: Arena, raw: int, k: nat, value: nat)
    requires ArenaInv(a) && raw in a.owners && a.owners[raw].Held? && k < a.owners[raw].size
    ensures ArenaInv(DoClientWrite(a, raw, k, value))
  {
    OwnedApart(a);
    var x := raw + a.owners[raw].offset + k;
    var m := a.mem[x := value];
    UserWriteHeaders(a.mem, a.owners, raw, x, m);
    WithMemory(a, m);
  }

  lemma WithMemory(a: Arena, m: Bytes)
    requires ArenaInv(a) && HeadersOk(m, a.owners)
    ensures ArenaInv(a.(mem := m))
  {}

  /** Memory and the user pointer alone identify the block being freed. */
  lemma FreeBeginExact(a: Arena, tid: nat, raw: int)
    requires HeadersOk(a.mem, a.owners) && raw in a.owners && a.owners[raw].Held?
    ensures ReadBack(a.mem, raw + a.owners[raw].offset) == Found(raw, a.owners[raw].actual)
    ensures DoFreeBegin(a, tid, raw) ==
            a.(mem := Store(a.mem, raw + 16, Encode(0, 8)), owners := a.owners[raw := Freeing(a.owners[raw].actual, tid)])
  {
    var o := a.owners[raw];
    ReadBackExact(a.mem, raw, o.size, o.actual, o.offset);
    assert (a.owners - {raw})[raw := Freeing(o.actual, tid)] == a.owners[raw := Freeing(o.actual, tid)];
  }

  lemma FreeBeginInv(a: Arena, tid: nat, raw: int)
    requires ArenaInv(a) && raw in a.owners && a.owners[raw].Held?
    ensures ArenaInv(DoFreeBegin(a, tid, raw))
  {
    var o := Freeing(a.owners[raw].actual, tid);
    FreeBeginExact(a, tid, raw);
    SameOwned(a.base, a.cap, a.shards, a.owners, a.owners[raw := o]);
    OwnedApart(a);
    ClearHeaders(a.mem, a.owners, raw, Encode(0, 8), o);
  }

  lemma SameOwned(base: int, cap: nat, shards: seq<Heap>, owners: map<int, Owner>, owners': map<int, Owner>)
    requires ShardSize(cap) > 0 && |shards| == SHARDS && OwnersMatch(base, cap, shards, owners)
    requires owners'.Keys == owners.Keys && forall r :: r in owners ==> owners'[r].actual == owners[r].actual
    ensures OwnersMatch(base, cap, shards, owners')
  {
    forall r | r in owners'
      ensures GetShardIdx(base, cap, r) < SHARDS && BlockOf(owners', r) in Lives(shards[GetShardIdx(base, cap, r)])
    {
      assert BlockOf(owners', r) == BlockOf(owners, r);
    }
  }

  // ------------------------------------------------------------ allocation

  lemma AllocInv(a: Arena, tid: nat, size: nat, alignment: nat, tag: seq<nat>, scratch: Bytes)
    requires ArenaInv(a) && tid in a.threads && AllocOk(Request(size, alignment), alignment)
    requires SameOnLive(a.shards, a.mem, scratch)
    ensures ArenaInv(DoAlloc(a, tid, size, alignment, tag, scratch))
  {
    var i, off := a.threads[tid], OffsetToUser(alignment);
    var (h, r) := Allocate(a.shards[i], Request(size, alignment), alignment);
    assert ShardOk(a.base, a.cap, a.shards[i], i);
    AllocateInv(a.shards[i], Request(size, alignment), alignment);
    AllocateLives(a.shards[i], Request(size, alignment), alignment);
    if r.Ok? {
      var b := Seg(r.value.ptr, r.value.actualSize, Live);
      var owners' := a.owners[b.addr := Held(b.size, size, off)];
      AllocShape(a, i, h);
      AllocOwners(a, i, h, b, Held(b.size, size, off));
      AllocHeaders(a, i, b, size, off, tag, scratch, owners');
    }
  }

  lemma AllocShape(a: Arena, i: nat, h: Heap)
    requires Shaped(a.base, a.cap, a.shards) && i < SHARDS && Inv(h) && h.base == a.shards[i].base && h.cap == a.shards[i].cap
    ensures Shaped(a.base, a.cap, a.shards[i := h])
  {
    assert ShardOk(a.base, a.cap, a.shards[i], i);
  }

  /** A block cut from free memory is new to the owners, in every shard. */
  lemma NewBlock(a: Arena, i: nat, b: Seg)
    requires Shaped(a.base, a.cap, a.shards) && OwnersMatch(a.base, a.cap, a.shards, a.owners) && i < SHARDS
    requires Contains(a.shards[i], b.addr) && b.addr + b.size <= a.shards[i].base + a.shards[i].cap && b.size > 0
    requires forall c :: c in Lives(a.shards[i]) ==> c.addr + c.size <= b.addr || b.addr + b.size <= c.addr
    ensures b.addr !in a.owners && GetShardIdx(a.base, a.cap, b.addr) == i
    ensures forall r :: r in a.owners ==> r + a.owners[r].actual <= b.addr || b.addr + b.size <= r
  {
    ShardIndexExact(a, i, b.addr);
    assert ShardOk(a.base, a.cap, a.shards[i], i);
    forall r | r in a.owners ensures r != b.addr && (r + a.owners[r].actual <= b.addr || b.addr + b.size <= r) {
      var j := GetShardIdx(a.base, a.cap, r);
      LiveLocated(a, j, BlockOf(a.owners, r));
      if j != i { ShardsApart(ShardSize(a.cap), i, j); }
    }
  }

  lemma AllocOwners(a: Arena, i: nat, h: Heap, b: Seg, o: Owner)
    requires Shaped(a.base, a.cap, a.shards) && OwnersMatch(a.base, a.cap, a.shards, a.owners) && i < SHARDS
    requires Contains(a.shards[i], b.addr) && b.addr + b.size <= a.shards[i].base + a.shards[i].cap && b.size > 0
    requires forall c :: c in Lives(a.shards[i]) ==> c.addr + c.size <= b.addr || b.addr + b.size <= c.addr
    requires b.kind == Live && Lives(h) == Lives(a.shards[i]) + {b} && o.actual == b.size
    ensures OwnersMatch(a.base, a.cap, a.shards[i := h], a.owners[b.addr := o])
  {
    NewBlock(a, i, b);
    var shards', owners' := a.shards[i := h], a.owners[b.addr := o];
    forall r | r in owners'
      ensures GetShardIdx(a.base, a.cap, r) < SHARDS && BlockOf(owners', r) in Lives(shards'[GetShardIdx(a.base, a.cap, r)])
    {
      if r == b.addr { assert BlockOf(owners', r) == b; } else { assert BlockOf(owners', r) == BlockOf(a.owners, r); }
    }
    forall j, c | 0 <= j < SHARDS && c in Lives(shards'[j]) ensures c.addr in owners' && owners'[c.addr].actual == c.size {
      if j != i || c != b {
        assert c in Lives(a.shards[j]);
        assert c.addr in a.owners;
      }
    }
  }

  lemma AllocHeaders(a: Arena, i: nat, b: Seg, size: nat, off: nat, tag: seq<nat>, scratch: Bytes, owners': map<int, Owner>)
    requires Shaped(a.base, a.cap, a.shards) && OwnersMatch(a.base, a.cap, a.shards, a.owners) && i < SHARDS
    requires HeadersOk(a.mem, a.owners) && SameOnLive(a.shards, a.mem, scratch)
    requires Contains(a.shards[i], b.addr) && b.addr + b.size <= a.shards[i].base + a.shards[i].cap && b.size > 0
    requires forall c :: c in Lives(a.shards[i]) ==> c.addr + c.size <= b.addr || b.addr + b.size <= c.addr
    requires owners' == a.owners[b.addr := Held(b.size, size, off)]
    requires off >= HEADER_SIZE + FOOTER_SIZE && size + off <= b.size
    ensures HeadersOk(WriteBlock(scratch, b.addr, size, b.size, off, tag), owners')
  {
    var m := WriteBlock(scratch, b.addr, size, b.size, off, tag);
    NewBlock(a, i, b);
    assert ShardOk(a.base, a.cap, a.shards[i], i);
    assert Fields(size, b.size, off);
    WriteBlockOk(scratch, b.addr, size, b.size, off, tag);
    forall r | r in owners' && owners'[r].Held?
      ensures HeaderOk(m, r, owners'[r].size, owners'[r].actual, owners'[r].offset)
    {
      if r != b.addr {
        var o := a.owners[r];
        HeldFields(a.mem, a.owners, r);
        assert BlockOf(a.owners, r) in Lives(a.shards[GetShardIdx(a.base, a.cap, r)]);
        forall x | r <= x < r + o.offset ensures Get(m, x) == Get(a.mem, x) {
          WriteBlockInside(scratch, b.addr, size, b.size, off, tag, x);
        }
        HeaderFrame(a.mem, m, r, o.size, o.actual, o.offset);
      }
    }
  }

  // ------------------------------------------------------------ freeing

  /** The second half of a free reaches the right shard with a valid request. */
  lemma FreeEndExact(a: Arena, raw: int)
    requires Shaped(a.base, a.cap, a.shards) && OwnersMatch(a.base, a.cap, a.shards, a.owners) && raw in a.owners
    ensures var i := GetShardIdx(a.base, a.cap, raw);
            i < SHARDS && FindShard(a, raw) == i && Contains(a.shards[i], raw) &&
            DeallocOk(a.shards[i], raw, a.owners[raw].actual) &&
            ShardsAfterFree(a, raw) == a.shards[i := Deallocate(a.shards[i], raw, a.owners[raw].actual).0]
  {
    var i := GetShardIdx(a.base, a.cap, raw);
    var b := BlockOf(a.owners, raw);
    LiveLocated(a, i, b);
    assert ShardOk(a.base, a.cap, a.shards[i], i);
    LiveInside(a.shards[i], b);
  }

  lemma FreeEndInv(a: Arena, tid: nat, raw: int, scratch: Bytes)
    requires ArenaInv(a) && raw in a.owners && a.owners[raw].Freeing?
    requires SameOnLive(ShardsAfterFree(a, raw), a.mem, scratch)
    ensures ArenaInv(DoFreeEnd(a, raw, scratch))
  {
    FreeEndExact(a, raw);
    var i, actual := GetShardIdx(a.base, a.cap, raw), a.owners[raw].actual;
    assert ShardOk(a.base, a.cap, a.shards[i], i);
    var h := Deallocate(a.shards[i], raw, actual).0;
    DeallocateInv(a.shards[i], raw, actual);
    DeallocateLives(a.shards[i], raw, actual);
    AllocShape(a, i, h);
    FreeOwners(a, i, h, raw);
    FreeHeaders(a, i, h, raw, scratch);
  }

  lemma FreeOwners(a: Arena, i: nat, h: Heap, raw: int)
    requires Shaped(a.base, a.cap, a.shards) && OwnersMatch(a.base, a.cap, a.shards, a.owners)
    requires raw in a.owners && i == GetShardIdx(a.base, a.cap, raw)
    requires Lives(h) == Lives(a.shards[i]) - {BlockOf(a.owners, raw)}
    ensures OwnersMatch(a.base, a.cap, a.shards[i := h], a.owners - {raw})
  {
    var shards', owners' := a.shards[i := h], a.owners - {raw};
    forall r | r in owners'
      ensures GetShardIdx(a.base, a.cap, r) < SHARDS && BlockOf(owners', r) in Lives(shards'[GetShardIdx(a.base, a.cap, r)])
    {
      assert BlockOf(owners', r) == BlockOf(a.owners, r) && BlockOf(a.owners, r).addr != raw;
    }
    forall j, c | 0 <= j < SHARDS && c in Lives(shards'[j]) ensures c.addr in owners' && owners'[c.addr].actual == c.size {
      assert c in Lives(a.shards[j]);
      if c.addr == raw {
        LiveLocated(a, j, c);
      }
    }
  }

  lemma FreeHeaders(a: Arena, i: nat, h: Heap, raw: int, scratch: Bytes)
    requires ShardSize(a.cap) > 0 && |a.shards| == SHARDS && i < SHARDS && raw in a.owners
    requires OwnersMatch(a.base, a.cap, a.shards[i := h], a.owners - {raw}) && HeadersOk(a.mem, a.owners)
    requires SameOnLive(a.shards[i := h], a.mem, scratch)
    ensures HeadersOk(scratch, a.owners - {raw})
  {
    var shards', owners' := a.shards[i := h], a.owners - {raw};
    forall r | r in owners' && owners'[r].Held?
      ensures r in a.owners && a.owners[r] == owners'[r] && SameBytes(a.mem, scratch, r, r + a.owners[r].offset)
    {
      HeldFields(a.mem, a.owners, r);
      assert BlockOf(owners', r) in Lives(shards'[GetShardIdx(a.base, a.cap, r)]);
    }
    HeadersKept(a.mem, scratch, a.owners, owners');
  }

  // ------------------------------------------------------------ runs

  /** A node of shard `i`, in the heap before or after a step, is in no live block of another shard. */
  lemma NodeElsewhere(a: Arena, i: nat, h: Heap, j: nat, b: Seg, x: int)
    requires Shaped(a.base, a.cap, a.shards) && i < SHARDS && j < SHARDS && i != j && b in Lives(a.shards[j])
    requires h.base <= x < h.base + h.cap && h.base == a.shards[i].base && h.cap == a.shards[i].cap
    ensures !Holds(b, x)
  {
    assert ShardOk(a.base, a.cap, a.shards[i], i);
    LiveLocated(a, j, b);
    ShardsApart(ShardSize(a.cap), i, j);
  }

  /** Allocation spares every live block. */
  lemma AllocSpares(a: Arena, tid: nat, n: nat, alignment: nat, scratch: Bytes)
    requires Shaped(a.base, a.cap, a.shards) && tid in a.threads && AllocOk(n, alignment)
    requires var h := a.shards[a.threads[tid]]; NodesWritten(a.mem, scratch, h, Allocate(h, n, alignment).0)
    ensures SameOnLive(a.shards, a.mem, scratch)
  {
    var i := a.threads[tid];
    var h := a.shards[i];
    var h' := Allocate(h, n, alignment).0;
    assert ShardOk(a.base, a.cap, h, i);
    AllocateInv(h, n, alignment);
    AllocateLives(h, n, alignment);
    forall j, b, x | 0 <= j < SHARDS && b in Lives(a.shards[j]) && Holds(b, x) ensures Get(scratch, x) == Get(a.mem, x) {
      if InNode(h, x) || InNode(h', x) { NodeSpared(a, i, h, h', j, b, x); }
    }
  }

  lemma NodeSpared(a: Arena, i: nat, h: Heap, h': Heap, j: nat, b: Seg, x: int)
    requires Shaped(a.base, a.cap, a.shards) && i < SHARDS && j < SHARDS && b in Lives(a.shards[j]) && h == a.shards[i]
    requires Inv(h') && h'.base == h.base && h'.cap == h.cap && (j == i ==> b in Lives(h'))
    requires InNode(h, x) || InNode(h', x)
    ensures !Holds(b, x)
  {
    assert ShardOk(a.base, a.cap, h, i);
    if i == j {
      if InNode(h, x) { NodeOutsideLive(h, x, b); } else { NodeOutsideLive(h', x, b); }
    } else {
      if InNode(h, x) { NodeInside(h, x); } else { NodeInside(h', x); }
      NodeElsewhere(a, i, h, j, b, x);
    }
  }

  /** Freeing spares every block that stays live. */
  lemma FreeSpares(a: Arena, raw: int, scratch: Bytes)
    requires Shaped(a.base, a.cap, a.shards) && OwnersMatch(a.base, a.cap, a.shards, a.owners) && raw in a.owners
    requires var i, actual := GetShardIdx(a.base, a.cap, raw), a.owners[raw].actual;
             i < SHARDS && NodesFreed(a.mem, scratch, a.shards[i], Deallocate(a.shards[i], raw, actual).0, raw, actual)
    ensures SameOnLive(ShardsAfterFree(a, raw), a.mem, scratch)
  {
    FreeEndExact(a, raw);
    var i, actual, shards' := GetShardIdx(a.base, a.cap, raw), a.owners[raw].actual, ShardsAfterFree(a, raw);
    var h := a.shards[i];
    var h' := Deallocate(h, raw, actual).0;
    assert ShardOk(a.base, a.cap, h, i);
    DeallocateInv(h, raw, actual);
    DeallocateLives(h, raw, actual);
    forall j, b, x | 0 <= j < SHARDS && b in Lives(shards'[j]) && Holds(b, x) ensures Get(scratch, x) == Get(a.mem, x) {
      StaysLive(a, i, h', raw, j, b);
      if InNode(h, x) || InNode(h', x) {
        NodeSpared(a, i, h, h', j, b, x);
      } else if InFreed(raw, actual, x) {
        FreedSpared(a, raw, j, b, x);
      }
    }
  }

  lemma StaysLive(a: Arena, i: nat, h': Heap, raw: int, j: nat, b: Seg)
    requires Shaped(a.base, a.cap, a.shards) && raw in a.owners && i == GetShardIdx(a.base, a.cap, raw) && i < SHARDS
    requires Lives(h') == Lives(a.shards[i]) - {BlockOf(a.owners, raw)} && j < SHARDS && b in Lives(a.shards[i := h'][j])
    ensures b in Lives(a.shards[j]) && b != BlockOf(a.owners, raw) && (j == i ==> b in Lives(h'))
  {
    if j != i && b == BlockOf(a.owners, raw) { LiveLocated(a, j, b); }
  }

  lemma FreedSpared(a: Arena, raw: int, j: nat, b: Seg, x: int)
    requires Shaped(a.base, a.cap, a.shards) && OwnersMatch(a.base, a.cap, a.shards, a.owners) && raw in a.owners
    requires j < SHARDS && b in Lives(a.shards[j]) && b != BlockOf(a.owners, raw) && InFreed(raw, a.owners[raw].actual, x)
    ensures !Holds(b, x)
  {
    var i, c := GetShardIdx(a.base, a.cap, raw), BlockOf(a.owners, raw);
    BlocksApart(a, i, c, j, b);
    LiveLocated(a, i, c);
    assert ShardOk(a.base, a.cap, a.shards[i], i);
    LiveInside(a.shards[i], c);
  }

  lemma StepInv(a: Arena, s: ArenaStep)
    requires ArenaInv(a) && CanStep(a, s)
    ensures ArenaInv(TakeStep(a, s))
  {
    match s {
      case Attach(tid) => AttachInv(a, tid);
      case AllocRaw(tid, size, alignment, tag, scratch) =>
        AllocSpares(a, tid, Request(size, alignment), alignment, scratch);
        AllocInv(a, tid, size, alignment, tag, scratch);
      case ClientWrite(raw, k, value) => ClientWriteInv(a, raw, k, value);
      case FreeBegin(tid, raw) => FreeBeginInv(a, tid, raw);
      case FreeEnd(tid, raw, scratch) =>
        FreeEndExact(a, raw);
        FreeSpares(a, raw, scratch);
        FreeEndInv(a, tid, raw, scratch);
    }
  }

  ghost predicate CanRun(a: Arena, steps: seq<ArenaStep>)
    requires ShardSize(a.cap) > 0 && |a.shards| == SHARDS
    decreases steps
  {
    steps == [] ||
    (CanStep(a, steps[0]) && SameRegion(a, TakeStep(a, steps[0])) && CanRun(TakeStep(a, steps[0]), steps[1..]))
  }

  /** No step changes the region or the number of shards. */
  predicate SameRegion(a: Arena, a': Arena) {
    a'.base == a.base && a'.cap == a.cap && |a'.shards| == |a.shards|
  }

  lemma StepKeepsRegion(a: Arena, s: ArenaStep)
    requires ShardSize(a.cap) > 0 && |a.shards| == SHARDS && CanStep(a, s)
    ensures SameRegion(a, TakeStep(a, s))
  {}

  ghost function RunArena(a: Arena, steps: seq<ArenaStep>): Arena
    requires ShardSize(a.cap) > 0 && |a.shards| == SHARDS && CanRun(a, steps)
    decreases steps
  {
    if steps == [] then a else RunArena(TakeStep(a, steps[0]), steps[1..])
  }

  /** Every interleaving of threads keeps the invariant. */
  lemma {:induction false} RunArenaInv(a: Arena, steps: seq<ArenaStep>)
    requires ArenaInv(a) && CanRun(a, steps)
    ensures ArenaInv(RunArena(a, steps)) && RunArena(a, steps).base == a.base && RunArena(a, steps).cap == a.cap
    decreases steps
  {
    if steps == [] {
    } else {
      StepInv(a, steps[0]);
      RunArenaInv(TakeStep(a, steps[0]), steps[1..]);
    }
  }

  // ------------------------------------------------------------ shards of threads

  /** How often a run attaches a thread. */
  function Attaches(steps: seq<ArenaStep>): nat {
    if steps == [] then 0 else (if steps[0].Attach? then 1 else 0) + Attaches(steps[1..])
  }

  lemma {:induction false} RunSplit(a: Arena, p: seq<ArenaStep>, q: seq<ArenaStep>)
    requires ShardSize(a.cap) > 0 && |a.shards| == SHARDS && CanRun(a, p + q)
    ensures CanRun(a, p) && SameRegion(a, RunArena(a, p)) && CanRun(RunArena(a, p), q)
    ensures RunArena(a, p + q) == RunArena(RunArena(a, p), q)
    decreases p
  {
    if p == [] {
      assert p + q == q;
    } else {
      assert (p + q)[0] == p[0] && (p + q)[1..] == p[1..] + q;
      RunSplit(TakeStep(a, p[0]), p[1..], q);
    }
  }

  /** The shard counter counts the attachments of the run; a thread that is not attached again
      keeps its shard. */
  lemma {:induction false} RunThreads(a: Arena, steps: seq<ArenaStep>, tid: nat)
    requires ShardSize(a.cap) > 0 && |a.shards| == SHARDS && CanRun(a, steps)
    ensures RunArena(a, steps).nextShard == a.nextShard + Attaches(steps)
    ensures Attach(tid) !in steps && tid in a.threads ==>
              tid in RunArena(a, steps).threads && RunArena(a, steps).threads[tid] == a.threads[tid]
    decreases steps
  {
    if steps == [] {
    } else {
      ThreadsAfter(a, steps[0], tid);
      RunThreads(TakeStep(a, steps[0]), steps[1..], tid);
    }
  }

  lemma ThreadsAfter(a: Arena, s: ArenaStep, tid: nat)
    requires ShardSize(a.cap) > 0 && |a.shards| == SHARDS && CanStep(a, s)
    ensures TakeStep(a, s).nextShard == a.nextShard + (if s.Attach? then 1 else 0)
    ensures s != Attach(tid) && tid in a.threads ==>
              tid in TakeStep(a, s).threads && TakeStep(a, s).threads[tid] == a.threads[tid]
    ensures s == Attach(tid) ==> tid in TakeStep(a, s).threads && TakeStep(a, s).threads[tid] == a.nextShard % SHARDS
  {}

  /** In every run from a new arena, attachment number k, counted from 0, gives its thread shard
      k % 256 until the thread is attached again. */
  lemma ShardsInTurn(base: int, cap: nat, mem: Bytes, before: seq<ArenaStep>, tid: nat, after: seq<ArenaStep>)
    requires CapacityOk(base, cap) && ShardSize(cap) > 0 && Attach(tid) !in after
    requires CanRun(Create(base, cap, mem), before + ([Attach(tid)] + after))
    ensures var a := RunArena(Create(base, cap, mem), before + ([Attach(tid)] + after));
            tid in a.threads && a.threads[tid] == Attaches(before) % 256
  {
    var a0 := Create(base, cap, mem);
    RunSplit(a0, before, [Attach(tid)] + after);
    var a1 := RunArena(a0, before);
    RunThreads(a0, before, tid);
    assert ([Attach(tid)] + after)[0] == Attach(tid) && ([Attach(tid)] + after)[1..] == after;
    ThreadsAfter(a1, Attach(tid), tid);
    RunThreads(TakeStep(a1, Attach(tid)), after, tid);
  }

  // ------------------------------------------------------------ what callers get

  /** A successful allocation comes from the calling thread's shard and maps back to it, so
      the mismatch abort is dead; header, footer and user region lie inside a block that
      overlaps no other owned block. */
  lemma AllocExact(a: Arena, tid: nat, size: nat, alignment: nat)
    requires ArenaInv(a) && tid in a.threads && AllocOk(Request(size, alignment), alignment)
    ensures var i, off := a.threads[tid], OffsetToUser(alignment);
            var r := Allocate(a.shards[i], Request(size, alignment), alignment).1;
            r.Ok? ==>
              GetShardIdx(a.base, a.cap, r.value.ptr) == i && r.value.ptr !in a.owners &&
              a.base <= r.value.ptr && r.value.ptr + r.value.actualSize <= a.base + a.cap &&
              HEADER_SIZE + FOOTER_SIZE <= off && off + size <= r.value.actualSize &&
              forall s :: s in a.owners ==>
                s + a.owners[s].actual <= r.value.ptr || r.value.ptr + r.value.actualSize <= s
  {
    var i := a.threads[tid];
    var r := Allocate(a.shards[i], Request(size, alignment), alignment).1;
    assert ShardOk(a.base, a.cap, a.shards[i], i);
    AllocateLives(a.shards[i], Request(size, alignment), alignment);
    if r.Ok? {
      NewBlock(a, i, Seg(r.value.ptr, r.value.actualSize, Live));
      ShardPlace(a.base, ShardSize(a.cap), i);
    }
  }

  /** The user pointer meets its power-of-two alignment if and only if the block does not
      come from a small list whose head is misaligned; up to 16 it always does. */
  lemma UserPointerAligned(a: Arena, tid: nat, size: nat, alignment: nat)
    requires ArenaInv(a) && tid in a.threads && AllocOk(Request(size, alignment), alignment) && IsPow2(alignment)
    ensures var h, n := a.shards[a.threads[tid]], Request(size, alignment);
            var r := Allocate(h, n, alignment).1;
            r.Ok? ==>
              (((r.value.ptr + OffsetToUser(alignment)) % alignment == 0) <==>
                (alignment > 16 && FromList(h, n) ==> h.lists[ClassOf(Need(n))][0] % alignment == 0))
  {
    var i, n := a.threads[tid], Request(size, alignment);
    var h := a.shards[i];
    var r := Allocate(h, n, alignment).1;
    assert ShardOk(a.base, a.cap, h, i);
    if r.Ok? {
      AlignmentMet(h, n, alignment);
      AllocateLives(h, n, alignment);
      UserAligned(r.value.ptr, alignment);
      if alignment <= 16 { LowPowers(r.value.ptr, alignment); }
    }
  }

  lemma LowPowers(x: nat, p: nat)
    requires x % 16 == 0 && IsPow2(p) && p <= 16
    ensures x % p == 0
  {
    PowersUpTo16(p);
    FactorsOf16(x, p);
  }

  lemma FactorsOf16(x: nat, p: nat)
    requires x % 16 == 0 && (p == 1 || p == 2 || p == 4 || p == 8 || p == 16)
    ensures x % p == 0
  {
    var k, q := x / 16, 16 / p;
    assert x == 16 * k && 16 == p * q;
    assert x == p * (q * k) by { assert p * q * k == p * (q * k); }
    MultipleMod(p, q * k);
  }

  lemma PowersUpTo16(p: nat)
    requires IsPow2(p) && p <= 16
    ensures p == 1 || p == 2 || p == 4 || p == 8 || p == 16
  {
    if p == 1 {
    } else {
      PowersUpTo16(p / 2);
    }
  }

  // ------------------------------------------------------------ totals

  function TotalUsed(shards: seq<Heap>): int { if shards == [] then 0 else TotalUsed(shards[..|shards| - 1]) + shards[|shards| - 1].used }

  function TotalFree(shards: seq<Heap>): int {
    if shards == [] then 0
    else TotalFree(shards[..|shards| - 1]) + (shards[|shards| - 1].cap - shards[|shards| - 1].used)
  }

  /** The facts about one shard's counter that the totals need. */
  ghost predicate Counted(h: Heap, ss: nat) {
    h.cap == ss && h.used >= 0 && (h.used == 0 <==> Lives(h) == {})
  }

  lemma ShardCounted(a: Arena, i: nat)
    requires Shaped(a.base, a.cap, a.shards) && i < SHARDS
    ensures Counted(a.shards[i], ShardSize(a.cap))
  {
    assert ShardOk(a.base, a.cap, a.shards[i], i);
    BytesConserved(a.shards[i]);
    UsedZero(a.shards[i]);
  }

  lemma {:induction false} TotalsSum(shards: seq<Heap>, ss: nat)
    requires forall i :: 0 <= i < |shards| ==> Counted(shards[i], ss)
    ensures TotalUsed(shards) + TotalFree(shards) == |shards| * ss && TotalUsed(shards) >= 0
    ensures TotalUsed(shards) == 0 <==> forall i :: 0 <= i < |shards| ==> Lives(shards[i]) == {}
  {
    if shards == [] {
    } else {
      var n := |shards| - 1;
      var front := shards[..n];
      assert forall i :: 0 <= i < n ==> front[i] == shards[i];
      TotalsSum(front, ss);
      assert |shards| * ss == n * ss + ss;
    }
  }

  lemma WholeShards(cap: nat)
    requires cap % QUANTUM_ALL == 0
    ensures SHARDS * ShardSize(cap) == cap && ShardSize(cap) % 16 == 0
  {}

  /** Bytes are conserved over the arena, and the total is zero if and only if nothing is owned. */
  lemma TotalsExact(a: Arena)
    requires ArenaInv(a)
    ensures TotalUsed(a.shards) + TotalFree(a.shards) == a.cap
    ensures TotalUsed(a.shards) == 0 <==> a.owners == map[]
  {
    forall i | 0 <= i < SHARDS ensures Counted(a.shards[i], ShardSize(a.cap)) { ShardCounted(a, i); }
    TotalsSum(a.shards, ShardSize(a.cap));
    WholeShards(a.cap);
    NothingOwned(a.base, a.cap, a.shards, a.owners);
  }

  lemma NothingOwned(base: int, cap: nat, shards: seq<Heap>, owners: map<int, Owner>)
    requires ShardSize(cap) > 0 && |shards| == SHARDS && OwnersMatch(base, cap, shards, owners)
    ensures owners == map[] <==> forall i :: 0 <= i < SHARDS ==> Lives(shards[i]) == {}
  {
    if owners != map[] {
      var raw := SomeKey(owners);
      assert BlockOf(owners, raw) in Lives(shards[GetShardIdx(base, cap, raw)]);
    }
  }

  lemma SomeKey(m: map<int, Owner>) returns (k: int)
    requires m != map[]
    ensures k in m
  {
    assert |m.Items| != 0;
    var i :| i in m.Items;
    k := i.0;
  }

  /** From every state, one thread can free every held block, wherever it was allocated, while
      frees already begun are finished by the threads that began them; nothing stays allocated. */
  lemma FreeEverything(a: Arena, tid: nat) returns (steps: seq<ArenaStep>)
    requires ArenaInv(a)
    ensures CanRun(a, steps) && TotalUsed(RunArena(a, steps).shards) == 0
    ensures forall s :: s in steps ==> s.FreeBegin? || s.FreeEnd?
    decreases |a.owners|, 1
  {
    if a.owners == map[] {
      steps := [];
      TotalsExact(a);
    } else {
      var raw := SomeKey(a.owners);
      if a.owners[raw].Held? {
        var s := FreeBegin(tid, raw);
        var a1 := TakeStep(a, s);
        StepKeepsRegion(a, s);
        StepInv(a, s);
        FreeBeginExact(a, tid, raw);
        assert a1.owners.Keys == a.owners.Keys;
        KeysCount(a1.owners, a.owners);
        var rest := FreeStarted(a1, tid, raw);
        steps := [s] + rest;
        assert steps[1..] == rest;
      } else {
        steps := FreeStarted(a, tid, raw);
      }
    }
  }

  lemma FreeStarted(a: Arena, tid: nat, raw: int) returns (steps: seq<ArenaStep>)
    requires ArenaInv(a) && raw in a.owners && a.owners[raw].Freeing?
    ensures CanRun(a, steps) && TotalUsed(RunArena(a, steps).shards) == 0
    ensures forall s :: s in steps ==> s.FreeBegin? || s.FreeEnd?
    decreases |a.owners|, 0
  {
    var s := FreeEnd(a.owners[raw].tid, raw, a.mem);
    StepKeepsRegion(a, s);
    StepInv(a, s);
    var a1 := TakeStep(a, s);
    KeysFewer(a.owners, raw);
    var rest := FreeEverything(a1, tid);
    steps := [s] + rest;
    assert steps[1..] == rest;
  }

  lemma KeysCount(m: map<int, Owner>, m': map<int, Owner>)
    requires m.Keys == m'.Keys
    ensures |m| == |m'|
  {
    assert |m| == |m.Keys| && |m'| == |m'.Keys|;
  }

  lemma KeysFewer(m: map<int, Owner>, k: int)
    requires k in m
    ensures |m - {k}| < |m|
  {
    assert (m - {k}).Keys == m.Keys - {k};
    assert |m - {k}| == |(m - {k}).Keys| && |m| == |m.Keys|;
  }
}
