/** The arena object: 256 allocator objects, the bytes of the region and the thread table.

Each method carries out one step of `ShardedArena` and records it in `history`; the object
is valid when its state is the one its history leads to and its bytes hold the nodes of
every allocator.  `junk` stands for the bytes that the allocator leaves behind in nodes it
gives up. */
module ArenaObject {
  import opened BlockTree
  import opened TreeMemory
  import opened HeapModel
  import opened HeapInvariant
  import opened HeapTheorems
  import opened Coupling
  import opened ArenaBytes
  import opened BlockHeader
  import opened NodeBytes
  import opened ShardedArena
  import opened ArenaNodes
  import opened FreeList

  // ------------------------------------------------------------ the shards

  /** The allocators share no field and no list array. */
  ghost predicate Apart(shards: seq<FreeListAllocator>) {
    forall i, j :: 0 <= i < j < |shards| ==> shards[i] != shards[j] && shards[i].freeLists != shards[j].freeLists
  }

  ghost function Lists(shards: seq<FreeListAllocator>): set<array<int>> {
    set s | s in shards :: s.freeLists
  }

  lemma ListsSnoc(shards: seq<FreeListAllocator>, s: FreeListAllocator)
    ensures Lists(shards + [s]) == Lists(shards) + {s.freeLists}
  {
    assert forall t :: t in shards + [s] <==> t in shards || t == s;
  }

  /** One valid allocator per shard, laid out one after the other. */
  ghost predicate Laid(shards: seq<FreeListAllocator>, base: int, ss: nat)
    reads shards, Lists(shards)
  {
    Apart(shards) && (forall i {:trigger shards[i].Valid()} :: 0 <= i < |shards| ==> shards[i].Valid()) &&
    forall i :: 0 <= i < |shards| ==> shards[i].base == base + i * ss && shards[i].size == ss
  }

  lemma ShardAt(shards: seq<FreeListAllocator>, base: int, ss: nat, i: nat)
    requires Laid(shards, base, ss) && i < |shards|
    ensures Inv(shards[i].heap) && Housed(shards[i].mem, shards[i].heap)
    ensures shards[i].heap.base == base + i * ss && shards[i].heap.cap == ss
  {
    assert shards[i].Valid();
    ShardHoused(shards[i]);
  }

  lemma ShardsHoused(shards: seq<FreeListAllocator>, base: int, ss: nat)
    requires Laid(shards, base, ss)
    ensures forall i :: 0 <= i < |shards| ==> Housed(shards[i].mem, shards[i].heap)
  {
    forall i | 0 <= i < |shards| ensures Housed(shards[i].mem, shards[i].heap) { ShardAt(shards, base, ss, i); }
  }

  /** What an allocator reads from the bytes is the record it works on. */
  lemma NodeReadable(s: FreeListAllocator, b: Bytes, q: int)
    requires s.Valid() && StoredIn(b, s.mem) && q in s.mem && q != NIL
    ensures (if s.mem[q].FreeBlock? then ReadTreeNode(b, q) else ReadListNode(b, q)) == s.mem[q]
  {
    assert Recorded(s.mem, q);
    NodesInRange(s.mem, s.root, s.tree, s.freeLists[..], s.heap, q);
    NodeReadBack(b, q, s.mem[q]);
  }

  /** The first nodes of the shards built so far are in the bytes. */
  ghost predicate Seeded(made: seq<FreeListAllocator>, b: Bytes)
    reads made
  {
    forall i {:trigger StoredIn(b, made[i].mem)} :: 0 <= i < |made| ==> StoredIn(b, made[i].mem)
  }

  /** Builds every shard up front; each writes its first node. */
  method BuildShards(base: int, ss: nat, b0: Bytes) returns (made: seq<FreeListAllocator>, b: Bytes)
    requires AllArenasOk(base, ss)
    ensures |made| == SHARDS && Laid(made, base, ss) && fresh(made) && fresh(Lists(made)) && Seeded(made, b)
    ensures forall i :: 0 <= i < SHARDS ==> made[i].heap == Init(base + i * ss, ss)
  {
    made, b := [], b0;
    for i := 0 to SHARDS
      invariant |made| == i && Laid(made, base, ss) && fresh(made) && fresh(Lists(made)) && Seeded(made, b)
      invariant forall j :: 0 <= j < i ==> made[j].heap == Init(base + j * ss, ss)
    {
      made, b := AddShard(made, base, ss, b);
    }
  }

  method AddShard(made: seq<FreeListAllocator>, base: int, ss: nat, b: Bytes) returns (more: seq<FreeListAllocator>, b': Bytes)
    requires Laid(made, base, ss) && Seeded(made, b) && ArenaOk(base + |made| * ss, ss)
    ensures |more| == |made| + 1 && more[..|made|] == made && fresh(more[|made|]) && Lists(more) == Lists(made) + {more[|made|].freeLists}
    ensures fresh(more[|made|].freeLists) && Laid(more, base, ss) && Seeded(more, b')
    ensures more[|made|].heap == Init(base + |made| * ss, ss)
  {
    var s;
    s, b' := BuildShard(base + |made| * ss, ss, b);
    SeededKept(made, base, ss, b, b', base + |made| * ss);
    ListsSnoc(made, s);
    more := made + [s];
  }

  method BuildShard(base: int, size: nat, b: Bytes) returns (s: FreeListAllocator, b': Bytes)
    requires ArenaOk(base, size)
    ensures fresh(s) && fresh(s.freeLists) && s.Valid() && s.heap == Init(base, size) && s.base == base && s.size == size
    ensures StoredIn(b', s.mem) && forall x :: Get(b', x) != Get(b, x) ==> base <= x < base + size
  {
    s := new FreeListAllocator(base, size);
    ShardHoused(s);
    HousedSpaced(s.mem, s.heap);
    b' := WriteThrough(b, b, map[NIL := NIL_CELL], s.mem, map[]);
    forall x | Get(b', x) != Get(b, x) ensures base <= x < base + size {
      RecordIsNode(s.mem, s.heap, x);
      NodeInside(s.heap, x);
    }
  }

  lemma SeededKept(made: seq<FreeListAllocator>, base: int, ss: nat, b: Bytes, b': Bytes, limit: int)
    requires Laid(made, base, ss) && Seeded(made, b) && limit == base + |made| * ss
    requires forall x :: Get(b', x) != Get(b, x) ==> limit <= x
    ensures Seeded(made, b')
  {
    forall j | 0 <= j < |made| ensures StoredIn(b', made[j].mem) {
      assert StoredIn(b, made[j].mem);
      ShardAt(made, base, ss, j);
      EndsBelow(base, j, |made|, ss);
      StoredBefore(b, b', made[j].mem, made[j].heap, limit);
    }
  }

  lemma EndsBelow(base: int, j: nat, n: nat, ss: nat)
    requires j < n
    ensures base + j * ss + ss <= base + n * ss
  {
    var d := n - j - 1;
    assert n * ss == j * ss + ss + d * ss;
  }

  lemma StoredBefore(b: Bytes, b': Bytes, m: Memory, h: Heap, limit: int)
    requires Inv(h) && Housed(m, h) && StoredIn(b, m) && h.base + h.cap <= limit
    requires forall x :: Get(b', x) != Get(b, x) ==> limit <= x
    ensures StoredIn(b', m)
  {
    forall x | Get(b', x) != Get(b, x) ensures !InNode(h, x) {
      if InNode(h, x) { NodeInside(h, x); }
    }
    StoredFrame(b, b', m, h);
  }

  // ------------------------------------------------------------ histories

  /** The state that a history of steps leads to from a fresh arena over bytes `start`. */
  ghost predicate Reached(start: Bytes, history: seq<ArenaStep>, a: Arena) {
    CapacityOk(a.base, a.cap) && ShardSize(a.cap) > 0 && |a.shards| == SHARDS &&
    var z := Create(a.base, a.cap, start);
    CanRun(z, history) && RunArena(z, history) == a
  }

  /** Every reached state satisfies the invariant. */
  lemma ReachedInv(start: Bytes, history: seq<ArenaStep>, a: Arena)
    requires Reached(start, history, a)
    ensures ArenaInv(a)
  {
    CreateInv(a.base, a.cap, start);
    RunArenaInv(Create(a.base, a.cap, start), history);
  }

  lemma {:induction false} RunSnoc(a: Arena, steps: seq<ArenaStep>, s: ArenaStep)
    requires ShardSize(a.cap) > 0 && |a.shards| == SHARDS && CanRun(a, steps)
    ensures var z := RunArena(a, steps);
            z.base == a.base && z.cap == a.cap && |z.shards| == SHARDS &&
            (CanStep(z, s) ==> CanRun(a, steps + [s]) && RunArena(a, steps + [s]) == TakeStep(z, s))
    decreases steps
  {
    if steps == [] {
      assert steps + [s] == [s] && [s][1..] == [];
      if CanStep(a, s) { StepKeepsRegion(a, s); }
    } else {
      assert (steps + [s])[0] == steps[0] && (steps + [s])[1..] == steps[1..] + [s];
      RunSnoc(TakeStep(a, steps[0]), steps[1..], s);
    }
  }

  lemma Extend(start: Bytes, history: seq<ArenaStep>, a: Arena, s: ArenaStep)
    requires Reached(start, history, a) && CanStep(a, s)
    ensures Reached(start, history + [s], TakeStep(a, s))
  {
    RunSnoc(Create(a.base, a.cap, start), history, s);
    StepKeepsRegion(a, s);
  }

  lemma AllocEffect(start: Bytes, history: seq<ArenaStep>, a: Arena, s: ArenaStep, h: Heap, r: Result<AllocationResult>)
    requires Reached(start, history, a) && s.AllocRaw? && s.tid in a.threads && AllocOk(Request(s.size, s.alignment), s.alignment)
    requires (h, r) == Allocate(a.shards[a.threads[s.tid]], Request(s.size, s.alignment), s.alignment)
    requires NodesWritten(a.mem, s.scratch, a.shards[a.threads[s.tid]], h)
    ensures var i, off := a.threads[s.tid], OffsetToUser(s.alignment);
            var a' := a.(shards := a.shards[i := h]);
            (r.Err? ==> Reached(start, history + [s], a')) &&
            (r.Ok? ==>
               GetShardIdx(a.base, a.cap, r.value.ptr) == i && r.value.ptr > 0 && r.value.ptr !in a.owners &&
               Reached(start, history + [s], a'.(
                 mem := WriteBlock(s.scratch, r.value.ptr, s.size, r.value.actualSize, off, s.tag),
                 owners := a.owners[r.value.ptr := Held(r.value.actualSize, s.size, off)])))
  {
    ReachedInv(start, history, a);
    AllocExact(a, s.tid, s.size, s.alignment);
    ErrorKeeps(a, a.threads[s.tid], Request(s.size, s.alignment), s.alignment);
    Extend(start, history, a, s);
    if r.Err? { assert a.(shards := a.shards[a.threads[s.tid] := h]) == a; }
  }

  /** Writing the metadata of a held block keeps all nodes. */
  lemma MetadataKeepsNodes(start: Bytes, history: seq<ArenaStep>, a: Arena, scratch: Bytes, mems: seq<Memory>, raw: int, tag: seq<nat>)
    requires Reached(start, history, a) && AllHoused(mems, a.shards) && AllStored(scratch, mems)
    requires raw in a.owners && a.owners[raw].Held? &&
             var o := a.owners[raw]; a.mem == WriteBlock(scratch, raw, o.size, o.actual, o.offset, tag)
    ensures AllStored(a.mem, mems)
  {
    ReachedInv(start, history, a);
    var o := a.owners[raw];
    HeldFields(a.mem, a.owners, raw);
    forall x | Get(a.mem, x) != Get(scratch, x) ensures InOwned(a.owners, x) {
      if !(raw <= x < raw + o.actual) { WriteBlockInside(scratch, raw, o.size, o.actual, o.offset, tag, x); }
    }
    LiveWritesKeepNodes(a.(mem := scratch), a.mem, mems);
  }

  /** The new block's user bytes are zero and its tag is in place. */
  lemma MetadataInPlace(start: Bytes, history: seq<ArenaStep>, a: Arena, scratch: Bytes, raw: int, tag: seq<nat>)
    requires Reached(start, history, a) && raw in a.owners && a.owners[raw].Held? &&
             var o := a.owners[raw]; a.mem == WriteBlock(scratch, raw, o.size, o.actual, o.offset, tag)
    ensures Blank(a.mem, raw, a.owners[raw].size, a.owners[raw].offset, tag)
  {
    ReachedInv(start, history, a);
    var o := a.owners[raw];
    HeldFields(a.mem, a.owners, raw);
    WriteBlockOk(scratch, raw, o.size, o.actual, o.offset, tag);
  }

  /** So does a client's store through its user pointer. */
  lemma ClientKeepsNodes(start: Bytes, history: seq<ArenaStep>, a: Arena, mems: seq<Memory>, raw: int, k: nat, value: nat)
    requires Reached(start, history, a) && AllHoused(mems, a.shards) && AllStored(a.mem, mems)
    requires raw in a.owners && a.owners[raw].Held? && k < a.owners[raw].size
    ensures AllStored(a.mem[raw + a.owners[raw].offset + k := value], mems)
  {
    ReachedInv(start, history, a);
    HeldFields(a.mem, a.owners, raw);
    var b := a.mem[raw + a.owners[raw].offset + k := value];
    forall x | Get(b, x) != Get(a.mem, x) ensures InOwned(a.owners, x) { assert raw <= x < raw + a.owners[raw].actual; }
    LiveWritesKeepNodes(a, b, mems);
  }

  /** And clearing the magic number. */
  lemma ClearKeepsNodes(start: Bytes, history: seq<ArenaStep>, a: Arena, mems: seq<Memory>, raw: int, z: seq<nat>)
    requires Reached(start, history, a) && AllHoused(mems, a.shards) && AllStored(a.mem, mems)
    requires raw in a.owners && a.owners[raw].Held? && |z| == 8
    ensures AllStored(Store(a.mem, raw + 16, z), mems)
  {
    ReachedInv(start, history, a);
    HeldFields(a.mem, a.owners, raw);
    var b := Store(a.mem, raw + 16, z);
    forall x | Get(b, x) != Get(a.mem, x) ensures InOwned(a.owners, x) {
      if !(raw + 16 <= x < raw + 24) { StoreFrame(a.mem, raw + 16, z, x); }
      assert raw <= x < raw + a.owners[raw].actual;
    }
    LiveWritesKeepNodes(a, b, mems);
  }

  /** What the allocator of shard `i` writes keeps the nodes of the others. */
  lemma AllocKeepsNodes(a: Arena, mems: seq<Memory>, i: ShardId, h': Heap, m': Memory, b: Bytes)
    requires Shaped(a.base, a.cap, a.shards) && AllHoused(mems, a.shards) && AllStored(a.mem, mems)
    requires Inv(h') && h'.base == a.shards[i].base && h'.cap == a.shards[i].cap && Housed(m', h') && StoredIn(b, m')
    requires NodesWritten(a.mem, b, a.shards[i], h')
    ensures AllStored(b, mems[i := m'])
  {
    assert ShardOk(a.base, a.cap, a.shards[i], i);
    WrittenInShard(a.shards[i], h', a.mem, b);
    ShardStepKeepsNodes(a, i, b, mems, m');
  }

  lemma FreeKeepsNodes(a: Arena, mems: seq<Memory>, i: ShardId, h': Heap, m': Memory, b: Bytes, raw: int, actual: nat)
    requires Shaped(a.base, a.cap, a.shards) && AllHoused(mems, a.shards) && AllStored(a.mem, mems)
    requires Inv(h') && h'.base == a.shards[i].base && h'.cap == a.shards[i].cap && Housed(m', h') && StoredIn(b, m')
    requires Seg(raw, actual, Live) in a.shards[i].segs && NodesFreed(a.mem, b, a.shards[i], h', raw, actual)
    ensures AllStored(b, mems[i := m'])
  {
    assert ShardOk(a.base, a.cap, a.shards[i], i);
    WrittenInside(a.shards[i], h', a.mem, b, raw, actual);
    ShardStepKeepsNodes(a, i, b, mems, m');
  }

  lemma ErrorKeeps(a: Arena, i: ShardId, n: nat, alignment: nat)
    requires Shaped(a.base, a.cap, a.shards) && AllocOk(n, alignment)
    ensures var (h, r) := Allocate(a.shards[i], n, alignment); r.Err? ==> h == a.shards[i]
  {
    assert ShardOk(a.base, a.cap, a.shards[i], i);
    AllocateLives(a.shards[i], n, alignment);
  }

  lemma OwnedFound(start: Bytes, history: seq<ArenaStep>, a: Arena, raw: int)
    requires Reached(start, history, a) && raw in a.owners && a.owners[raw].Held?
    ensures ReadBack(a.mem, raw + a.owners[raw].offset) == Found(raw, a.owners[raw].actual)
  {
    ReachedInv(start, history, a);
    FreeBeginExact(a, 0, raw);
  }

  lemma BeginEffect(start: Bytes, history: seq<ArenaStep>, a: Arena, tid: nat, raw: int)
    requires Reached(start, history, a) && raw in a.owners && a.owners[raw].Held?
    ensures ReadBack(Store(a.mem, raw + 16, Encode(0, 8)), raw + a.owners[raw].offset) == NotFound
    ensures Reached(start, history + [FreeBegin(tid, raw)], a.(
              mem := Store(a.mem, raw + 16, Encode(0, 8)),
              owners := a.owners[raw := Freeing(a.owners[raw].actual, tid)]))
  {
    ReachedInv(start, history, a);
    var o := a.owners[raw];
    ClearedNotFound(a.mem, raw, o.size, o.actual, o.offset);
    FreeBeginExact(a, tid, raw);
    Extend(start, history, a, FreeBegin(tid, raw));
  }

  /** The owner of a block is found from its address, and its allocator can take it back. */
  lemma OwnedShard(start: Bytes, history: seq<ArenaStep>, a: Arena, raw: int)
    requires Reached(start, history, a) && raw in a.owners
    ensures var i, actual := GetShardIdx(a.base, a.cap, raw), a.owners[raw].actual;
            i < SHARDS && DeallocOk(a.shards[i], raw, actual) && Seg(raw, actual, Live) in a.shards[i].segs &&
            a.base + i * ShardSize(a.cap) <= raw < a.base + i * ShardSize(a.cap) + ShardSize(a.cap)
  {
    ReachedInv(start, history, a);
    FreeEndExact(a, raw);
    var i := GetShardIdx(a.base, a.cap, raw);
    assert ShardOk(a.base, a.cap, a.shards[i], i);
    assert BlockOf(a.owners, raw) in Lives(a.shards[i]);
  }

  lemma EndEffect(start: Bytes, history: seq<ArenaStep>, a: Arena, tid: nat, raw: int, scratch: Bytes)
    requires Reached(start, history, a) && raw in a.owners && a.owners[raw].Freeing? && a.owners[raw].tid == tid
    requires var i, actual := GetShardIdx(a.base, a.cap, raw), a.owners[raw].actual;
             i < SHARDS && NodesFreed(a.mem, scratch, a.shards[i], Deallocate(a.shards[i], raw, actual).0, raw, actual)
    ensures var i, actual := GetShardIdx(a.base, a.cap, raw), a.owners[raw].actual;
            Reached(start, history + [FreeEnd(tid, raw, scratch)], a.(
              shards := a.shards[i := Deallocate(a.shards[i], raw, actual).0], mem := scratch,
              owners := a.owners - {raw}))
  {
    ReachedInv(start, history, a);
    FreeEndExact(a, raw);
    Extend(start, history, a, FreeEnd(tid, raw, scratch));
  }

  /** An allocation fails and changes no owner, or adds one block, held with the requested size. */
  ghost predicate Answered(owners: map<int, Owner>, owners': map<int, Owner>, user: int, size: nat, offset: nat) {
    if user == NULL then owners' == owners
    else
      user - offset !in owners && user - offset in owners' && owners'[user - offset].Held? &&
      owners' == owners[user - offset := Held(owners'[user - offset].actual, size, offset)]
  }

  // ------------------------------------------------------------ the object

  class VisualizationArena {
    const base: int
    const cap: nat
    const shards: seq<FreeListAllocator>
    var mem: Bytes
    var threads: map<nat, ShardId>
    var nextShard: nat
    ghost var owners: map<int, Owner>
    ghost const start: Bytes
    ghost var history: seq<ArenaStep>

    ghost predicate Built()
      reads shards, Lists(shards)
    {
      |shards| == SHARDS && Laid(shards, base, ShardSize(cap))
    }

    ghost predicate Valid()
      reads this, shards, Lists(shards)
    {
      Built() && Reached(start, history, State()) && AllStored(mem, Mems())
    }

    ghost function Heaps(): (h: seq<Heap>)
      reads shards
      ensures |h| == |shards| && forall i :: 0 <= i < |shards| ==> h[i] == shards[i].heap
    {
      seq(|shards|, i requires 0 <= i < |shards| reads shards => shards[i].heap)
    }

    ghost function Mems(): (m: seq<Memory>)
      reads shards
      ensures |m| == |shards| && forall i :: 0 <= i < |shards| ==> m[i] == shards[i].mem
    {
      seq(|shards|, i requires 0 <= i < |shards| reads shards => shards[i].mem)
    }

    ghost function State(): Arena
      reads this, shards
    {
      Arena(base, cap, Heaps(), mem, owners, threads, nextShard)
    }

    constructor (base: int, cap: nat, fresh0: Bytes)
      requires CapacityOk(base, cap)
      ensures Valid() && State() == Create(base, cap, mem) && history == []
      ensures fresh(shards) && fresh(Lists(shards))
    {
      ShardsManageable(base, cap);
      var made, b := BuildShards(base, ShardSize(cap), fresh0);
      this.base, this.cap, this.mem := base, cap, b;
      shards, threads, nextShard, owners, start, history := made, map[], 0, map[], b, [];
      new;
      assert Heaps() == Create(base, cap, b).shards;
    }

    /** Assigns shards to threads in turn, wrapping around. */
    method InitTlsContext(tid: nat)
      requires Valid()
      modifies this`threads, this`nextShard, this`history
      ensures Valid() && history == old(history) + [Attach(tid)]
      ensures threads == old(threads)[tid := old(nextShard) % 256] && nextShard == old(nextShard) + 1
    {
      Extend(start, history, State(), Attach(tid));
      var idx := nextShard;
      if idx >= SHARDS { idx := idx % SHARDS; }
      Register(tid, idx, nextShard + 1, history + [Attach(tid)]);
    }

    method Register(tid: nat, idx: ShardId, next: nat, ghost history': seq<ArenaStep>)
      requires Built() && AllStored(mem, Mems())
      requires Reached(start, history', State().(threads := threads[tid := idx], nextShard := next))
      modifies this`threads, this`nextShard, this`history
      ensures Valid() && history == history' && threads == old(threads)[tid := idx] && nextShard == next
    {
      threads, nextShard, history := threads[tid := idx], next, history';
    }

    /** Attaches the thread on first use, then allocates under its shard's lock. */
    method AllocRaw(tid: nat, size: nat, alignment: nat, tag: seq<nat>, junk: Bytes) returns (user: int, ghost scratch: Bytes)
      requires Valid() && AllocOk(Request(size, alignment), alignment)
      modifies this, shards, Lists(shards)
      ensures Valid()
      ensures history == old(history) + (if tid in old(threads) then [] else [Attach(tid)]) +
                         [ArenaStep.AllocRaw(tid, size, alignment, tag, scratch)]
      ensures Answered(old(owners), owners, user, size, OffsetToUser(alignment))
      ensures var i := if tid in old(threads) then old(threads)[tid] else old(nextShard) % SHARDS;
              Delivered(Allocate(old(Heaps())[i], size + OffsetToUser(alignment), alignment).1, user, size, OffsetToUser(alignment), tag)
    {
      EnsureAttached(tid);
      ghost var answer;
      user, scratch, answer := AllocAttached(tid, size, alignment, tag, junk);
      assert Request(size, alignment) == size + OffsetToUser(alignment);
    }

    method EnsureAttached(tid: nat)
      requires Valid()
      modifies this`threads, this`nextShard, this`history
      ensures Valid() && tid in threads && Heaps() == old(Heaps())
      ensures threads[tid] == if tid in old(threads) then old(threads)[tid] else old(nextShard) % SHARDS
      ensures history == old(history) + (if tid in old(threads) then [] else [Attach(tid)])
    {
      if tid !in threads { InitTlsContext(tid); }
      assert Heaps() == old(Heaps());
    }

    /** The allocator's answer `r` reaches the client: null for an error, otherwise the pointer
        `offset` bytes behind the block start, with zeroed bytes and the tag in the header. */
    ghost predicate Delivered(r: Result<AllocationResult>, user: int, size: nat, offset: nat, tag: seq<nat>)
      reads this
    {
      if r.Err? then user == NULL
      else
        user == r.value.ptr + offset && r.value.ptr in owners && owners[r.value.ptr] == Held(r.value.actualSize, size, offset) &&
        Blank(mem, r.value.ptr, size, offset, tag)
    }

    method AllocAttached(tid: nat, size: nat, alignment: nat, tag: seq<nat>, junk: Bytes)
      returns (user: int, ghost scratch: Bytes, ghost answer: Result<AllocationResult>)
      requires Valid() && tid in threads && AllocOk(Request(size, alignment), alignment)
      modifies this, shards, Lists(shards)
      ensures Valid() && history == old(history) + [ArenaStep.AllocRaw(tid, size, alignment, tag, scratch)]
      ensures Answered(old(owners), owners, user, size, OffsetToUser(alignment))
      ensures answer == Allocate(old(Heaps())[old(threads)[tid]], Request(size, alignment), alignment).1
      ensures Delivered(answer, user, size, OffsetToUser(alignment), tag)
    {
      var id := threads[tid];
      var offset := OffsetFor(alignment);
      assert shards[id].freeLists in Lists(shards);
      ghost var a := State();
      assert Shaped(base, cap, Heaps()) by { ReachedInv(start, history, a); }
      var request := size + offset;
      assert request == Request(size, alignment);
      answer := Allocate(Heaps()[id], Request(size, alignment), alignment).1;
      var r, after := Reserve(id, request, alignment, junk);
      assert r == answer;
      scratch := after;
      user := Publish(id, r, size, offset, tag, after, a, ArenaStep.AllocRaw(tid, size, alignment, tag, after));
    }

    /** The rest of an allocation, from the allocator's answer on. */
    method Publish(id: ShardId, r: Result<AllocationResult>, size: nat, offset: nat, tag: seq<nat>, scratch: Bytes,
                   ghost a: Arena, ghost s: ArenaStep) returns (user: int)
      requires Built() && AllStored(scratch, Mems()) && (r.Err? ==> AllStored(mem, Mems()))
      requires Reached(start, history, a) && State() == a.(shards := a.shards[id := Heaps()[id]])
      requires s.AllocRaw? && s.tid in a.threads && a.threads[s.tid] == id && s.size == size && s.tag == tag
      requires s.scratch == scratch && offset == OffsetToUser(s.alignment) && AllocOk(Request(size, s.alignment), s.alignment)
      requires (Heaps()[id], r) == Allocate(a.shards[id], Request(size, s.alignment), s.alignment)
      requires NodesWritten(a.mem, scratch, a.shards[id], Heaps()[id])
      modifies this`mem, this`owners, this`history
      ensures Valid() && history == old(history) + [s] && Answered(old(owners), owners, user, size, offset)
      ensures Delivered(r, user, size, offset, tag)
    {
      AllocEffect(start, history, a, s, Heaps()[id], r);
      if r.Err? {
        Advance(mem, owners, history + [s]);
        return NULL;
      }
      CheckShard(id, r.value.ptr);
      user := WriteMetadata(r.value.ptr, size, r.value.actualSize, offset, tag, scratch, history + [s]);
    }

    /** The allocator's part of an allocation, and the bytes it leaves. */
    method Reserve(id: ShardId, request: nat, alignment: nat, junk: Bytes)
      returns (r: Result<AllocationResult>, scratch: Bytes)
      requires Built() && Shaped(base, cap, Heaps()) && AllStored(mem, Mems()) && AllocOk(request, alignment)
      modifies shards[id], shards[id].freeLists
      ensures Built() && AllStored(scratch, Mems())
      ensures var (h, out) := Allocate(old(Heaps()[id]), request, alignment);
              r == out && Heaps() == old(Heaps())[id := h] && NodesWritten(mem, scratch, old(Heaps()[id]), h)
      ensures r.Err? ==> AllStored(mem, Mems())
    {
      ghost var a, mems := State(), Mems();
      var before := shards[id].mem;
      ShardsHoused(shards, base, ShardSize(cap));
      assert shards[id].Valid() && StoredIn(mem, mems[id]);
      r := AllocateIn(id, request, alignment);
      scratch := Spill(id, before, junk, a.shards[id]);
      AllocKeepsNodes(a, mems, id, Heaps()[id], Mems()[id], scratch);
      assert Mems() == mems[id := Mems()[id]] && (r.Err? ==> mems[id := mems[id]] == mems);
    }

    /** Writes the changed nodes of one shard to memory. */
    method Spill(id: ShardId, before: Memory, junk: Bytes, ghost h: Heap) returns (scratch: Bytes)
      requires Built() && Inv(h) && Housed(before, h) && StoredIn(mem, before)
      ensures StoredIn(scratch, shards[id].mem) && NodesWritten(mem, scratch, h, shards[id].heap)
      ensures Inv(shards[id].heap) && Housed(shards[id].mem, shards[id].heap)
    {
      var after := shards[id].mem;
      assert shards[id].Valid();
      ShardHoused(shards[id]);
      HousedSpaced(after, shards[id].heap);
      DroppedClear(before, h, after);
      scratch := WriteThrough(mem, junk, before, after, before - after.Keys);
      AllocWrites(before, h, after, shards[id].heap, mem, scratch);
    }

    /** Header, footer and zeroed user bytes. */
    method WriteMetadata(raw: int, size: nat, actual: nat, offset: nat, tag: seq<nat>, scratch: Bytes,
                         ghost history': seq<ArenaStep>) returns (user: int)
      requires Built() && AllStored(scratch, Mems()) && raw > 0 && raw !in owners
      requires Reached(start, history', State().(
                 mem := WriteBlock(scratch, raw, size, actual, offset, tag), owners := owners[raw := Held(actual, size, offset)]))
      modifies this`mem, this`owners, this`history
      ensures Valid() && history == history' && user == raw + offset && Answered(old(owners), owners, user, size, offset)
      ensures raw in owners && owners[raw] == Held(actual, size, offset) && Blank(mem, raw, size, offset, tag)
    {
      var b := WriteBlock(scratch, raw, size, actual, offset, tag);
      ghost var owners' := owners[raw := Held(actual, size, offset)];
      ShardsHoused(shards, base, ShardSize(cap));
      MetadataKeepsNodes(start, history', State().(mem := b, owners := owners'), scratch, Mems(), raw, tag);
      MetadataInPlace(start, history', State().(mem := b, owners := owners'), scratch, raw, tag);
      Advance(b, owners', history');
      user := raw + offset;
    }

    /** The end of every step: new bytes, owners and history that belong together. */
    method Advance(b: Bytes, ghost owners': map<int, Owner>, ghost history': seq<ArenaStep>)
      requires Built() && AllStored(b, Mems()) && Reached(start, history', State().(mem := b, owners := owners'))
      modifies this`mem, this`owners, this`history
      ensures Valid() && mem == b && owners == owners' && history == history'
    {
      mem, owners, history := b, owners', history';
    }

    method OffsetFor(alignment: nat) returns (offset: nat)
      ensures offset == OffsetToUser(alignment)
    {
      var overhead, padding := HEADER_SIZE + FOOTER_SIZE, 0;
      if alignment > 0 {
        var remainder := overhead % alignment;
        if remainder != 0 { padding := alignment - remainder; }
      }
      offset := overhead + padding;
    }

    /** The mismatch abort is out of reach for a pointer that maps back to its shard. */
    method CheckShard(id: ShardId, raw: int)
      requires |shards| == SHARDS && Apart(shards) && ShardSize(cap) > 0 && GetShardIdx(base, cap, raw) == id
    {
      var expected := ShardOf(shards[id]);
      if expected != SHARDS && GetShardIdx(base, cap, raw) != expected { assert false; }
    }

    /** Index of an allocator object. */
    method ShardOf(s: FreeListAllocator) returns (i: nat)
      requires |shards| == SHARDS
      ensures i <= SHARDS && (i < SHARDS ==> shards[i] == s) && (i == SHARDS ==> s !in shards)
    {
      i := 0;
      while i < SHARDS
        invariant i <= SHARDS && s !in shards[..i]
      {
        if shards[i] == s { return; }
        i := i + 1;
      }
      assert shards[..SHARDS] == shards;
    }

    /** A client stores a byte through its user pointer. */
    method ClientWrite(user: int, k: nat, value: nat, ghost raw: int)
      requires Valid() && Owns(raw, user) && k < owners[raw].size
      modifies this`mem, this`owners, this`history
      ensures Valid() && history == old(history) + [ArenaStep.ClientWrite(raw, k, value)] && owners == old(owners)
    {
      Extend(start, history, State(), ArenaStep.ClientWrite(raw, k, value));
      ShardsHoused(shards, base, ShardSize(cap));
      ClientKeepsNodes(start, history, State(), Mems(), raw, k, value);
      Advance(mem[user + k := value], owners, history + [ArenaStep.ClientWrite(raw, k, value)]);
    }

    /** The unlocked half of `dealloc_raw`: footer, header, magic.  A user pointer leads to
        its own block, and a second free of it then finds nothing; the null pointer and a
        pointer whose header is gone change nothing. */
    method BeginFree(tid: nat, user: int, ghost raw: int) returns (found: Found)
      requires Valid()
      requires user == NULL || ReadBack(mem, user) == NotFound || Owns(raw, user)
      modifies this`mem, this`owners, this`history
      ensures Valid()
      ensures user != NULL && old(Owns(raw, user)) ==>
                found == Found(raw, old(owners[raw]).actual) && history == old(history) + [FreeBegin(tid, raw)] &&
                owners == old(owners)[raw := Freeing(found.actual, tid)] && ReadBack(mem, user) == NotFound
      ensures user == NULL || old(ReadBack(mem, user)) == NotFound ==>
                found == NotFound && State() == old(State()) && history == old(history)
    {
      if user == NULL { return NotFound; }
      if Owns(raw, user) { OwnedFound(start, history, State(), raw); }
      found := ReadMetadata(user);
      if found == NotFound { return; }
      Invalidate(tid, user, found.raw, found.actual);
    }

    method Invalidate(tid: nat, ghost user: int, raw: int, ghost actual: nat)
      requires Valid() && Owns(raw, user) && actual == owners[raw].actual
      modifies this`mem, this`owners, this`history
      ensures Valid() && history == old(history) + [FreeBegin(tid, raw)] && ReadBack(mem, user) == NotFound
      ensures owners == old(owners)[raw := Freeing(actual, tid)]
    {
      BeginEffect(start, history, State(), tid, raw);
      ShardsHoused(shards, base, ShardSize(cap));
      ClearKeepsNodes(start, history, State(), Mems(), raw, Encode(0, 8));
      Advance(Store(mem, raw + 16, Encode(0, 8)), owners[raw := Freeing(actual, tid)], history + [FreeBegin(tid, raw)]);
    }

    /** From the user pointer to the block start and its size, through memory alone. */
    method ReadMetadata(user: int) returns (found: Found)
      ensures found == ReadBack(mem, user)
    {
      var offset := Decode(Load(mem, user - 4, 4));
      var raw := user - offset;
      var magic := Decode(Load(mem, raw + 16, 8));
      if magic != MAGIC { return NotFound; }
      var actual := Decode(Load(mem, raw + 8, 8));
      found := Found(raw, actual);
    }

    ghost predicate Owns(raw: int, user: int)
      reads this`owners
    {
      raw in owners && owners[raw].Held? && user == raw + owners[raw].offset
    }

    /** The locked half of `dealloc_raw`: find the shard and free there.  The search for
        another owner and the abort are out of reach. */
    method EndFree(tid: nat, raw: int, actual: nat, junk: Bytes) returns (ghost scratch: Bytes)
      requires Valid() && raw in owners && owners[raw] == Freeing(actual, tid)
      modifies this, shards, Lists(shards)
      ensures Valid() && history == old(history) + [FreeEnd(tid, raw, scratch)]
      ensures owners == old(owners) - {raw}
    {
      ghost var a := State();
      OwnedShard(start, history, a, raw);
      assert Shaped(base, cap, Heaps()) by { ReachedInv(start, history, a); }
      var idx := GetShardIdx(base, cap, raw);
      if idx >= SHARDS { assert false; }
      assert shards[idx].freeLists in Lists(shards);
      if !InShard(idx, raw) { assert false; }
      var after := Release(idx, raw, actual, junk);
      scratch := after;
      EndEffect(start, history, a, tid, raw, scratch);
      Advance(after, owners - {raw}, history + [FreeEnd(tid, raw, scratch)]);
    }

    /** The allocator's part of a free, and the bytes it leaves. */
    method Release(id: ShardId, raw: int, actual: nat, junk: Bytes) returns (scratch: Bytes)
      requires Built() && Shaped(base, cap, Heaps()) && AllStored(mem, Mems())
      requires DeallocOk(Heaps()[id], raw, actual) && Seg(raw, actual, Live) in Heaps()[id].segs
      modifies shards[id], shards[id].freeLists
      ensures Built() && AllStored(scratch, Mems())
      ensures var h := Deallocate(old(Heaps()[id]), raw, actual).0;
              Heaps() == old(Heaps())[id := h] && NodesFreed(mem, scratch, old(Heaps()[id]), h, raw, actual)
    {
      ghost var a, mems := State(), Mems();
      var before := shards[id].mem;
      ShardsHoused(shards, base, ShardSize(cap));
      assert shards[id].Valid() && StoredIn(mem, mems[id]);
      FreeIn(id, raw, actual);
      scratch := SpillFreed(id, before, junk, a.shards[id], raw, actual);
      FreeKeepsNodes(a, mems, id, Heaps()[id], Mems()[id], scratch, raw, actual);
    }

    method SpillFreed(id: ShardId, before: Memory, junk: Bytes, ghost h: Heap, raw: int, actual: nat) returns (scratch: Bytes)
      requires Built() && Inv(h) && Housed(before, h) && StoredIn(mem, before) && Seg(raw, actual, Live) in h.segs
      ensures StoredIn(scratch, shards[id].mem) && NodesFreed(mem, scratch, h, shards[id].heap, raw, actual)
      ensures Inv(shards[id].heap) && Housed(shards[id].mem, shards[id].heap)
    {
      var after := shards[id].mem;
      assert shards[id].Valid();
      ShardHoused(shards[id]);
      HousedSpaced(after, shards[id].heap);
      DroppedWithClear(before, h, after, raw, actual);
      scratch := WriteThrough(mem, junk, before, after, DroppedWith(before, after, raw, actual));
      FreeWrites(before, h, after, shards[id].heap, mem, scratch, raw, actual);
    }

    predicate InShard(i: ShardId, ptr: int)
      requires |shards| == SHARDS
    {
      shards[i].base <= ptr < shards[i].base + shards[i].size
    }

    /** Allocation in one shard leaves the others alone. */
    method AllocateIn(id: ShardId, request: nat, alignment: nat) returns (r: Result<AllocationResult>)
      requires Built() && AllocOk(request, alignment)
      modifies shards[id], shards[id].freeLists
      ensures Built()
      ensures var (h, out) := Allocate(old(Heaps()[id]), request, alignment);
              r == out && Heaps() == old(Heaps())[id := h]
      ensures Mems() == old(Mems())[id := shards[id].mem] && (r.Err? ==> shards[id].mem == old(shards[id].mem))
    {
      assert shards[id].Valid();
      r := shards[id].Allocate(request, alignment);
      forall j | 0 <= j < SHARDS && j != id ensures shards[j].Valid() {
        assert shards[j] != shards[id] && shards[j].freeLists != shards[id].freeLists && old(shards[j].Valid());
      }
    }

    method FreeIn(id: ShardId, raw: int, actual: nat)
      requires Built() && DeallocOk(Heaps()[id], raw, actual)
      modifies shards[id], shards[id].freeLists
      ensures Built()
      ensures Heaps() == old(Heaps())[id := Deallocate(old(Heaps()[id]), raw, actual).0]
      ensures Mems() == old(Mems())[id := shards[id].mem]
    {
      assert shards[id].Valid();
      var _ := shards[id].Deallocate(raw, actual);
      forall j | 0 <= j < SHARDS && j != id ensures shards[j].Valid() {
        assert shards[j] != shards[id] && shards[j].freeLists != shards[id].freeLists && old(shards[j].Valid());
      }
    }

    /** Sums over the shards. */
    method BytesAllocated() returns (sum: int)
      requires Valid()
      ensures sum == TotalUsed(Heaps()) && (sum == 0 <==> owners == map[])
    {
      sum := 0;
      for i := 0 to SHARDS
        invariant sum == TotalUsed(Heaps()[..i])
      {
        assert shards[i].Valid() && Heaps()[..i + 1][..i] == Heaps()[..i];
        var n := shards[i].BytesAllocated();
        sum := sum + n;
      }
      assert Heaps()[..SHARDS] == Heaps();
      ReachedInv(start, history, State());
      TotalsExact(State());
    }

    method BytesFree() returns (sum: int)
      requires Valid()
      ensures sum == TotalFree(Heaps()) && sum == cap - TotalUsed(Heaps())
    {
      sum := 0;
      for i := 0 to SHARDS
        invariant sum == TotalFree(Heaps()[..i])
      {
        assert shards[i].Valid() && Heaps()[..i + 1][..i] == Heaps()[..i];
        BytesConserved(shards[i].heap);
        var n := shards[i].BytesFree();
        sum := sum + n;
      }
      assert Heaps()[..SHARDS] == Heaps();
      ReachedInv(start, history, State());
      TotalsExact(State());
    }
  }
}
