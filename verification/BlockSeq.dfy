/** Address-sorted sequences of free blocks: the abstract content of the tree. */
module BlockSeq {
  import opened BlockTree

  /** Insert by address. */
  function InsertBlock(s: seq<Block>, b: Block): seq<Block> {
    if s == [] || b.addr < s[0].addr then [b] + s else [s[0]] + InsertBlock(s[1..], b)
  }

  /** Remove the block at address `a`. */
  function RemoveBlock(s: seq<Block>, a: int): seq<Block> {
    if s == [] then [] else if s[0].addr == a then s[1..] else [s[0]] + RemoveBlock(s[1..], a)
  }

  lemma {:induction false} InsertSplit(a: seq<Block>, b: Block, z: seq<Block>)
    requires Sorted(a + [b] + z)
    ensures InsertBlock(a + z, b) == a + [b] + z
  {
    var s := a + [b] + z;
    if a == [] {
      assert a + z == z;
      if z != [] { assert s[0] == b && s[1] == z[0]; }
    } else {
      Uncons(a, b, z);
      assert (a + z)[1..] == a[1..] + z;
      TailSorted(s);
      InsertSplit(a[1..], b, z);
      assert [a[0]] + (a[1..] + [b] + z) == s;
    }
  }

  lemma {:induction false} RemoveSplit(a: seq<Block>, b: Block, z: seq<Block>)
    requires Sorted(a + [b] + z)
    ensures RemoveBlock(a + [b] + z, b.addr) == a + z
  {
    var s := a + [b] + z;
    if a == [] {
      assert s[1..] == z && a + z == z;
    } else {
      Uncons(a, b, z);
      TailSorted(s);
      RemoveSplit(a[1..], b, z);
      assert [a[0]] + (a[1..] + z) == a + z;
    }
  }

  lemma Uncons(a: seq<Block>, b: Block, z: seq<Block>)
    requires a != [] && Sorted(a + [b] + z)
    ensures (a + [b] + z)[0] == a[0] && (a + [b] + z)[1..] == a[1..] + [b] + z && a[0].addr < b.addr
  {
    assert (a + [b] + z)[|a|] == b;
  }

  lemma TailSorted(s: seq<Block>)
    requires Sorted(s) && s != []
    ensures Sorted(s[1..])
  {}

  /** Removing what was inserted gives the sequence back. */
  lemma {:induction false} InsertRemove(s: seq<Block>, b: Block)
    requires b.addr !in Addrs(s)
    ensures RemoveBlock(InsertBlock(s, b), b.addr) == s
  {
    if s != [] && !(b.addr < s[0].addr) {
      assert s[0].addr in Addrs(s);
      forall x | x in Addrs(s[1..]) ensures x in Addrs(s) {
        var i :| 0 <= i < |s[1..]| && s[1..][i].addr == x;
        assert s[i + 1].addr == x;
      }
      InsertRemove(s[1..], b);
    }
  }

  /** Index of the first block of at least `n` bytes, or the length. */
  function FirstFit(s: seq<Block>, n: nat): (i: nat)
    ensures i <= |s|
    ensures i < |s| ==> s[i].size >= n
    ensures forall j :: 0 <= j < i ==> s[j].size < n
  {
    if s == [] then 0 else if s[0].size >= n then 0 else 1 + FirstFit(s[1..], n)
  }

  /** Every other block stays. */
  lemma {:induction false} RemoveKeeps(s: seq<Block>, a: int)
    ensures Addrs(s) <= Addrs(RemoveBlock(s, a)) + {a}
  {
    if s == [] {
    } else {
      assert s == [s[0]] + s[1..];
      AddrsConcat([s[0]], s[1..]);
      assert Addrs([s[0]]) == {s[0].addr} by { assert [s[0]][0].addr == s[0].addr; }
      if s[0].addr != a {
        RemoveKeeps(s[1..], a);
        AddrsConcat([s[0]], RemoveBlock(s[1..], a));
      }
    }
  }

  /** In a sorted sequence the removed address does not occur again. */
  lemma {:induction false} RemoveGone(s: seq<Block>, a: int)
    requires Sorted(s)
    ensures a !in Addrs(RemoveBlock(s, a))
  {
    if s == [] {
    } else {
      TailSorted(s);
      if s[0].addr == a {
        forall i | 0 <= i < |s[1..]| ensures s[1..][i].addr != a { assert s[1..][i] == s[i + 1]; }
      } else {
        RemoveGone(s[1..], a);
        AddrsConcat([s[0]], RemoveBlock(s[1..], a));
      }
    }
  }

  lemma {:induction false} RemoveAddrs(s: seq<Block>, a: int)
    ensures Addrs(RemoveBlock(s, a)) <= Addrs(s)
  {
    if s == [] {
    } else {
      assert s == [s[0]] + s[1..];
      AddrsConcat([s[0]], s[1..]);
      if s[0].addr != a {
        RemoveAddrs(s[1..], a);
        AddrsConcat([s[0]], RemoveBlock(s[1..], a));
      }
    }
  }
}
