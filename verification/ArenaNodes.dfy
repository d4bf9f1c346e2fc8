/** The nodes of all shards in the bytes of the arena: what each step writes, and that no
write of a client or of another shard damages them. */
module ArenaNodes {
  import opened BlockTree
  import opened TreeMemory
  import opened HeapModel
  import opened HeapInvariant
  import opened HeapTheorems
  import opened Coupling
  import opened ArenaBytes
  import opened BlockHeader
  import opened NodeBytes
  import opened ShardedArena

  /** Each shard's records are the nodes of its free blocks. */
  ghost predicate AllHoused(mems: seq<Memory>, shards: seq<Heap>) {
    |mems| == |shards| && forall i {:trigger Housed(mems[i], shards[i])} :: 0 <= i < |mems| ==> Housed(mems[i], shards[i])
  }

  /** The bytes hold every node of every shard. */
  ghost predicate AllStored(b: Bytes, mems: seq<Memory>) {
    forall i {:trigger StoredIn(b, mems[i])} :: 0 <= i < |mems| ==> StoredIn(b, mems[i])
  }

  // ------------------------------------------------------------ writes inside live blocks

  predicate InOwned(owners: map<int, Owner>, x: int) {
    exists raw :: raw in owners && raw <= x < raw + owners[raw].actual
  }

  /** No byte of a live block belongs to a node of any shard. */
  lemma OwnedNotNode(a: Arena, x: int, i: nat)
    requires Shaped(a.base, a.cap, a.shards) && OwnersMatch(a.base, a.cap, a.shards, a.owners)
    requires InOwned(a.owners, x) && i < SHARDS
    ensures !InNode(a.shards[i], x)
  {
    var raw :| raw in a.owners && raw <= x < raw + a.owners[raw].actual;
    var j, c := GetShardIdx(a.base, a.cap, raw), BlockOf(a.owners, raw);
    assert ShardOk(a.base, a.cap, a.shards[i], i);
    if InNode(a.shards[i], x) { NodeSpared(a, i, a.shards[i], a.shards[i], j, c, x); }
  }

  /** Any change of bytes inside live blocks (user data, headers, footers) keeps the nodes of
      every shard. */
  lemma LiveWritesKeepNodes(a: Arena, b: Bytes, mems: seq<Memory>)
    requires Shaped(a.base, a.cap, a.shards) && OwnersMatch(a.base, a.cap, a.shards, a.owners)
    requires AllHoused(mems, a.shards) && AllStored(a.mem, mems)
    requires forall x :: Get(b, x) != Get(a.mem, x) ==> InOwned(a.owners, x)
    ensures AllStored(b, mems)
  {
    forall i | 0 <= i < |mems| ensures StoredIn(b, mems[i]) {
      assert Housed(mems[i], a.shards[i]) && StoredIn(a.mem, mems[i]);
      forall x | Get(b, x) != Get(a.mem, x) ensures !InNode(a.shards[i], x) { OwnedNotNode(a, x, i); }
      StoredFrame(a.mem, b, mems[i], a.shards[i]);
    }
  }

  // ------------------------------------------------------------ the allocator's own writes

  /** A shard's step that stays inside its region keeps the nodes of the other shards. */
  lemma ShardStepKeepsNodes(a: Arena, i: nat, b: Bytes, mems: seq<Memory>, m': Memory)
    requires Shaped(a.base, a.cap, a.shards) && i < SHARDS && AllHoused(mems, a.shards) && AllStored(a.mem, mems)
    requires StoredIn(b, m')
    requires forall x :: Get(b, x) != Get(a.mem, x) ==> Contains(a.shards[i], x)
    ensures AllStored(b, mems[i := m'])
  {
    forall j | 0 <= j < SHARDS && j != i ensures StoredIn(b, mems[j]) {
      assert Housed(mems[j], a.shards[j]) && StoredIn(a.mem, mems[j]);
      forall x | Get(b, x) != Get(a.mem, x) ensures !InNode(a.shards[j], x) {
        if InNode(a.shards[j], x) { NodeOfOther(a, i, j, x); }
      }
      StoredFrame(a.mem, b, mems[j], a.shards[j]);
    }
  }

  lemma NodeOfOther(a: Arena, i: nat, j: nat, x: int)
    requires Shaped(a.base, a.cap, a.shards) && i < SHARDS && j < SHARDS && i != j && InNode(a.shards[j], x)
    ensures !Contains(a.shards[i], x)
  {
    assert ShardOk(a.base, a.cap, a.shards[i], i) && ShardOk(a.base, a.cap, a.shards[j], j);
    NodeInside(a.shards[j], x);
    ShardsApart(ShardSize(a.cap), i, j);
  }

  lemma RecordIsNode(m: Memory, h: Heap, x: int)
    requires Housed(m, h) && InRecord(m - {NIL}, x)
    ensures InNode(h, x)
  {
    var q :| q in m - {NIL} && q <= x < q + Width((m - {NIL})[q]);
    RecordInNode(m, h, q, x);
  }

  /** Records a call drops were nodes before it, apart from those it keeps. */
  lemma DroppedClear(m: Memory, h: Heap, m': Memory)
    requires Inv(h) && Housed(m, h) && NIL in m'
    ensures Clear(m - m'.Keys, m, m')
  {
    HousedSpaced(m, h);
    var gone := m - m'.Keys;
    forall g, q | Recorded(gone, g) && Recorded(m', q) && q in m && q != NIL
      ensures g + Width(gone[g]) <= q || q + Width(m[q]) <= g
    {
      assert Recorded(m, g) && Recorded(m, q);
    }
  }

  /** Dropped records together with the node that a freed block is for a moment. */
  function DroppedWith(m: Memory, m': Memory, raw: int, actual: nat): Memory {
    (m - m'.Keys)[raw := if actual <= MAX_SMALL then FreeNode(NULL) else NIL_CELL]
  }

  lemma DroppedWithClear(m: Memory, h: Heap, m': Memory, raw: int, actual: nat)
    requires Inv(h) && Housed(m, h) && NIL in m' && Seg(raw, actual, Live) in h.segs
    ensures Clear(DroppedWith(m, m', raw, actual), m, m')
  {
    DroppedClear(m, h, m');
    var gone, f := DroppedWith(m, m', raw, actual), Seg(raw, actual, Live);
    forall g, q | Recorded(gone, g) && Recorded(m', q) && q in m && q != NIL
      ensures g + Width(gone[g]) <= q || q + Width(m[q]) <= g
    {
      if g == raw { NodeBeside(m, h, q, f); } else { assert Recorded(m - m'.Keys, g); }
    }
  }

  /** A node lies beside every live block. */
  lemma NodeBeside(m: Memory, h: Heap, q: int, f: Seg)
    requires Inv(h) && Housed(m, h) && q in m && q != NIL && f in h.segs && f.kind == Live
    ensures f.addr + f.size <= q || q + Width(m[q]) <= f.addr
    ensures f.size >= QUANTUM
  {
    assert Recorded(m, q);
    var n :| n in h.segs && n.addr == q && (if m[q].FreeBlock? then n.kind == InTree else n.kind == InList);
    LivesApart(h, f, n);
    LiveInside(h, n);
    LiveInside(h, f);
  }

  /** Bytes written by an allocation belong to nodes before or after it. */
  lemma AllocWrites(m: Memory, h: Heap, m': Memory, h': Heap, b: Bytes, b': Bytes)
    requires Housed(m, h) && Housed(m', h')
    requires forall x :: Get(b', x) != Get(b, x) ==> InRecord(m - m'.Keys, x) || InRecord(m' - {NIL}, x)
    ensures NodesWritten(b, b', h, h')
  {
    forall x | Get(b', x) != Get(b, x) ensures InNode(h, x) || InNode(h', x) {
      if InRecord(m' - {NIL}, x) { RecordIsNode(m', h', x); } else { DroppedIsNode(m, h, m', x); }
    }
  }

  lemma DroppedIsNode(m: Memory, h: Heap, m': Memory, x: int)
    requires Housed(m, h) && NIL in m' && InRecord(m - m'.Keys, x)
    ensures InNode(h, x)
  {
    var q :| q in m - m'.Keys && q <= x < q + Width((m - m'.Keys)[q]);
    RecordInNode(m, h, q, x);
  }

  lemma FreeWrites(m: Memory, h: Heap, m': Memory, h': Heap, b: Bytes, b': Bytes, raw: int, actual: nat)
    requires Housed(m, h) && Housed(m', h')
    requires forall x :: Get(b', x) != Get(b, x) ==> InRecord(DroppedWith(m, m', raw, actual), x) || InRecord(m' - {NIL}, x)
    ensures NodesFreed(b, b', h, h', raw, actual)
  {
    var gone := DroppedWith(m, m', raw, actual);
    forall x | Get(b', x) != Get(b, x) ensures InNode(h, x) || InNode(h', x) || InFreed(raw, actual, x) {
      if InRecord(m' - {NIL}, x) {
        RecordIsNode(m', h', x);
      } else {
        var q :| q in gone && q <= x < q + Width(gone[q]);
        if q != raw {
          assert q in m - m'.Keys;
          DroppedIsNode(m, h, m', x);
        }
      }
    }
  }

  /** Written bytes lie in the shard's region. */
  lemma WrittenInside(h: Heap, h': Heap, b: Bytes, b': Bytes, raw: int, actual: nat)
    requires Inv(h) && Inv(h') && h'.base == h.base && h'.cap == h.cap && NodesFreed(b, b', h, h', raw, actual)
    requires Seg(raw, actual, Live) in h.segs
    ensures forall x :: Get(b', x) != Get(b, x) ==> Contains(h, x)
  {
    LiveInside(h, Seg(raw, actual, Live));
    forall x | Get(b', x) != Get(b, x) ensures Contains(h, x) {
      if InNode(h, x) { NodeInside(h, x); } else if InNode(h', x) { NodeInside(h', x); }
    }
  }

  lemma WrittenInShard(h: Heap, h': Heap, b: Bytes, b': Bytes)
    requires Inv(h) && Inv(h') && h'.base == h.base && h'.cap == h.cap && NodesWritten(b, b', h, h')
    ensures forall x :: Get(b', x) != Get(b, x) ==> Contains(h, x)
  {
    forall x | Get(b', x) != Get(b, x) ensures Contains(h, x) {
      if InNode(h, x) { NodeInside(h, x); } else { NodeInside(h', x); }
    }
  }
}
