/** Bytes in memory: little-endian fields, loads, stores and what they leave alone. */
module ArenaBytes {

  type Bytes = map<int, nat>

  function Get(m: Bytes, x: int): nat { if x in m then m[x] else 0 }

  function ByteAt(v: nat, i: nat): nat { if i == 0 then v % 256 else ByteAt(v / 256, i - 1) }

  /** The `n` low-order bytes of `v`, least significant first. */
  function Encode(v: nat, n: nat): (s: seq<nat>)
    ensures |s| == n
  {
    seq(n, i requires 0 <= i < n => ByteAt(v, i))
  }

  function Decode(s: seq<nat>): nat {
    if s == [] then 0 else s[0] + 256 * Decode(s[1..])
  }

  function Power256(n: nat): nat { if n == 0 then 1 else 256 * Power256(n - 1) }

  /** A field reads back exactly when its value fits. */
  lemma {:induction false} EncodeDecode(v: nat, n: nat)
    ensures Decode(Encode(v, n)) == v <==> v < Power256(n)
    ensures Decode(Encode(v, n)) <= v
    decreases n
  {
    if n == 0 {
    } else {
      EncodeDecode(v / 256, n - 1);
      assert Encode(v, n)[1..] == Encode(v / 256, n - 1);
      assert v == 256 * (v / 256) + v % 256;
    }
  }

  function Load(m: Bytes, a: int, n: nat): (s: seq<nat>)
    ensures |s| == n
  {
    seq<nat>(n, i requires 0 <= i < n => Get(m, a + i))
  }

  function Store(m: Bytes, a: int, s: seq<nat>): Bytes
    decreases s
  {
    if s == [] then m else Store(m[a := s[0]], a + 1, s[1..])
  }

  predicate SameBytes(m: Bytes, m': Bytes, lo: int, hi: int) {
    forall x :: lo <= x < hi ==> Get(m', x) == Get(m, x)
  }

  lemma {:induction false} StoreFrame(m: Bytes, a: int, s: seq<nat>, x: int)
    requires !(a <= x < a + |s|)
    ensures Get(Store(m, a, s), x) == Get(m, x)
    decreases s
  {
    if s == [] {
    } else {
      StoreFrame(m[a := s[0]], a + 1, s[1..], x);
    }
  }

  lemma {:induction false} LoadStore(m: Bytes, a: int, s: seq<nat>)
    ensures Load(Store(m, a, s), a, |s|) == s
    decreases s
  {
    if s == [] {
    } else {
      var m1 := m[a := s[0]];
      LoadStore(m1, a + 1, s[1..]);
      StoreFrame(m1, a + 1, s[1..], a);
      var m' := Store(m, a, s);
      assert s == [s[0]] + s[1..];
      assert Load(m', a, |s|) == [Get(m', a)] + Load(m', a + 1, |s| - 1);
    }
  }

  lemma LoadSame(m: Bytes, m': Bytes, a: int, n: nat)
    requires SameBytes(m, m', a, a + n)
    ensures Load(m', a, n) == Load(m, a, n)
  {}

  /** A store leaves a disjoint range alone. */
  lemma StoreApart(m: Bytes, a: int, s: seq<nat>, lo: int, hi: int)
    requires hi <= a || a + |s| <= lo
    ensures SameBytes(m, Store(m, a, s), lo, hi)
  {
    forall x | lo <= x < hi ensures Get(Store(m, a, s), x) == Get(m, x) { StoreFrame(m, a, s, x); }
  }

  lemma LoadApart(m: Bytes, a: int, s: seq<nat>, b: int, n: nat)
    requires b + n <= a || a + |s| <= b
    ensures Load(Store(m, a, s), b, n) == Load(m, b, n)
  {
    StoreApart(m, a, s, b, b + n);
    LoadSame(m, Store(m, a, s), b, n);
  }

  function Zeros(n: nat): (s: seq<nat>)
    ensures |s| == n
  {
    seq(n, _ => 0)
  }
}
