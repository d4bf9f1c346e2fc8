/** The arena meets the contract on which the simulator's leak-freedom rests: allocations
yield fresh user pointers, frees give back exactly one, and nothing else changes. */
module ArenaClients {
  import opened BlockTree
  import opened HeapModel
  import opened HeapTheorems
  import opened ArenaBytes
  import opened BlockHeader
  import opened ShardedArena
  import opened FreeList
  import opened ArenaObject
  import opened ServerSimulation

  /** `u` is the user pointer of the block held at `raw`. */
  predicate UserOf(owners: map<int, Owner>, raw: int, u: int) {
    raw in owners && owners[raw].Held? && raw + owners[raw].offset == u
  }

  ghost predicate IsUser(owners: map<int, Owner>, u: int) { exists raw :: UserOf(owners, raw, u) }

  /** `live` maps the user pointer of every held block to its size, and nothing else. */
  ghost predicate Serving(live: map<int, nat>, owners: map<int, Owner>) {
    (forall u {:trigger IsUser(owners, u)} :: IsUser(owners, u) <==> u in live) &&
    (forall raw, u {:trigger UserOf(owners, raw, u)} :: UserOf(owners, raw, u) && u in live ==> live[u] == owners[raw].size)
  }

  /** Different held blocks have different user pointers. */
  lemma UsersDistinct(mem: Bytes, owners: map<int, Owner>, r: int, s: int, u: int)
    requires HeadersOk(mem, owners) && Disjoint(owners) && UserOf(owners, r, u) && UserOf(owners, s, u)
    ensures r == s
  {
    HeldFields(mem, owners, r);
    HeldFields(mem, owners, s);
  }

  lemma AllocServes(live: map<int, nat>, owners: map<int, Owner>, mem: Bytes, owners': map<int, Owner>, user: int, size: nat, offset: nat)
    requires Serving(live, owners) && user != NULL && Answered(owners, owners', user, size, offset)
    requires HeadersOk(mem, owners') && Disjoint(owners')
    ensures user !in live && Serving(live[user := size], owners')
  {
    var raw, live' := user - offset, live[user := size];
    assert UserOf(owners', raw, user);
    forall r, u | UserOf(owners', r, u) ensures u == user <==> r == raw {
      if u == user { UsersDistinct(mem, owners', r, raw, user); }
    }
    forall r, u | r != raw ensures UserOf(owners, r, u) == UserOf(owners', r, u) {}
    forall u ensures IsUser(owners', u) <==> u == user || IsUser(owners, u) {
      if IsUser(owners, u) {
        var r :| UserOf(owners, r, u);
        assert UserOf(owners', r, u);
      }
      if IsUser(owners', u) && u != user {
        var r :| UserOf(owners', r, u);
        assert UserOf(owners, r, u);
      }
    }
    assert !IsUser(owners, user) by {
      forall r ensures !UserOf(owners, r, user) {
        if UserOf(owners, r, user) { UsersDistinct(mem, owners', r, raw, user); }
      }
    }
  }

  lemma FreeServes(live: map<int, nat>, owners: map<int, Owner>, mem: Bytes, raw: int, user: int)
    requires Serving(live, owners) && HeadersOk(mem, owners) && Disjoint(owners) && UserOf(owners, raw, user)
    ensures Serving(live - {user}, owners - {raw})
  {
    var owners' := owners - {raw};
    forall r, u ensures UserOf(owners', r, u) <==> r != raw && UserOf(owners, r, u) {}
    forall u ensures IsUser(owners', u) <==> u != user && IsUser(owners, u) {
      if IsUser(owners', u) {
        var r :| UserOf(owners', r, u);
        assert UserOf(owners, r, u);
        if u == user { UsersDistinct(mem, owners, r, raw, u); }
      }
      if IsUser(owners, u) && u != user {
        var r :| UserOf(owners, r, u);
        assert UserOf(owners', r, u);
      }
    }
  }

  lemma ReachedDisjoint(start: Bytes, history: seq<ArenaStep>, a: Arena)
    requires Reached(start, history, a)
    ensures HeadersOk(a.mem, a.owners) && Disjoint(a.owners)
  {
    ReachedInv(start, history, a);
    OwnedApart(a);
  }

  lemma Overwritten(owners: map<int, Owner>, raw: int, o: Owner)
    ensures owners[raw := o] - {raw} == owners - {raw}
  {}

  lemma NotNull(base: int, ss: nat, i: nat)
    ensures base + i * ss >= base
  {}

  /** The block behind a live user pointer, and what is live once it is freed. */
  lemma BlockBehind(start: Bytes, history: seq<ArenaStep>, a: Arena, live: map<int, nat>, p: int) returns (raw: int)
    requires Reached(start, history, a) && Serving(live, a.owners) && p in live
    ensures UserOf(a.owners, raw, p) && p != NULL && Serving(live - {p}, a.owners - {raw})
  {
    assert IsUser(a.owners, p);
    raw :| UserOf(a.owners, raw, p);
    ReachedDisjoint(start, history, a);
    OwnedShard(start, history, a, raw);
    NotNull(a.base, ShardSize(a.cap), GetShardIdx(a.base, a.cap, raw));
    FreeServes(live, a.owners, a.mem, raw, p);
  }

  /** One client of an arena; `junk` is what the allocator leaves in nodes it gives up. */
  class ArenaClient {
    const arena: VisualizationArena
    const tid: nat
    ghost var live: map<int, nat>

    constructor (arena: VisualizationArena, tid: nat, ghost live: map<int, nat>)
      requires arena.Valid() && Serving(live, arena.owners)
      ensures Valid() && this.arena == arena && this.live == live
    {
      this.arena, this.tid, this.live := arena, tid, live;
    }

    ghost predicate Valid()
      reads this, arena, arena.shards, Lists(arena.shards)
    {
      arena.Valid() && Serving(live, arena.owners)
    }

    method AllocRaw(size: nat, alignment: nat, tag: seq<nat>, junk: Bytes) returns (p: int)
      requires Valid() && AllocOk(ShardedArena.Request(size, alignment), alignment)
      modifies this`live, arena, arena.shards, Lists(arena.shards)
      ensures Valid() && Granted(old(live), live, p, size)
    {
      ghost var owners := arena.owners;
      ghost var scratch;
      p, scratch := arena.AllocRaw(tid, size, alignment, tag, junk);
      if p != NULL {
        ReachedDisjoint(arena.start, arena.history, arena.State());
        AllocServes(live, owners, arena.mem, arena.owners, p, size, OffsetToUser(alignment));
        live := live[p := size];
      }
    }

    method DeallocRaw(p: int, junk: Bytes)
      requires Valid() && p in live
      modifies this`live, arena, arena.shards, Lists(arena.shards)
      ensures Valid() && Returned(old(live), live, p)
    {
      ghost var owners := arena.owners;
      ghost var raw := BlockBehind(arena.start, arena.history, arena.State(), live, p);
      var found := arena.BeginFree(tid, p, raw);
      if found == NotFound { assert false; }
      ghost var scratch := arena.EndFree(tid, found.raw, found.actual, junk);
      live := live - {p};
      Overwritten(owners, raw, Freeing(found.actual, tid));
    }
  }
}
