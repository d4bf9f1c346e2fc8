/** Cache-line utilisation: the accumulation loop against a byte-by-byte meaning. */
module CacheAnalyzer {
  import opened Arithmetic

  datatype BlockMetadata = BlockMetadata(offset: nat, actualSize: nat, tag: string)

  /** What the loop knows about one cache line. */
  datatype Accum = Accum(bytes: nat, split: bool, tags: seq<string>)

  datatype LineInfo = LineInfo(index: nat, offset: nat, used: nat, wasted: nat, split: bool, tags: seq<string>)

  datatype Report = Report(lineSize: nat, totalLines: nat, activeLines: nat, fullyUtilized: nat,
                           splitAllocations: nat, avgUtilization: real, lines: seq<LineInfo>)

  // ------------------------------------------------------------ meaning

  function End(b: BlockMetadata): nat { b.offset + b.actualSize }

  function Max(a: int, b: int): int { if a < b then b else a }

  function Min(a: int, b: int): int { if a < b then a else b }

  /** Number of bytes of `b` between `lo` and `hi`. */
  function OverlapIn(b: BlockMetadata, lo: nat, hi: nat): nat {
    Max(0, Min(End(b), hi) - Max(b.offset, lo))
  }

  /** Number of bytes of `b` on line `l`. */
  function Overlap(b: BlockMetadata, l: nat, w: nat): nat { OverlapIn(b, l * w, l * w + w) }

  function FirstLine(b: BlockMetadata, w: nat): nat
    requires w > 0
  {
    b.offset / w
  }

  function LastLine(b: BlockMetadata, w: nat): nat
    requires w > 0
  {
    if End(b) > 0 then (End(b) - 1) / w else FirstLine(b, w)
  }

  /** The block has bytes on two different lines. */
  ghost predicate Straddles(b: BlockMetadata, w: nat) {
    exists l: nat, k: nat {:trigger OnLine(b, l, w), OnLine(b, k, w)} :: l != k && OnLine(b, l, w) && OnLine(b, k, w)
  }

  /** The block has bytes on line `l`. */
  predicate OnLine(b: BlockMetadata, l: nat, w: nat) { Overlap(b, l, w) > 0 }

  /** Bytes, split flag and tags of a line, over a list of blocks. */
  function LineBytes(blocks: seq<BlockMetadata>, l: nat, w: nat): nat { BytesIn(blocks, l * w, l * w + w) }

  function BytesIn(blocks: seq<BlockMetadata>, lo: nat, hi: nat): nat {
    if blocks == [] then 0
    else BytesIn(blocks[..|blocks| - 1], lo, hi) + OverlapIn(blocks[|blocks| - 1], lo, hi)
  }

  ghost predicate LineSplit(blocks: seq<BlockMetadata>, l: nat, w: nat)
    requires w > 0
  {
    exists i :: 0 <= i < |blocks| && Overlap(blocks[i], l, w) > 0 && Straddles(blocks[i], w)
  }

  function LineTags(blocks: seq<BlockMetadata>, l: nat, w: nat): seq<string> {
    if blocks == [] then []
    else LineTags(blocks[..|blocks| - 1], l, w) + TagOf(blocks[|blocks| - 1], l, w)
  }

  function TagOf(b: BlockMetadata, l: nat, w: nat): seq<string> {
    if Overlap(b, l, w) > 0 && b.tag != "" then [b.tag] else []
  }

  ghost function SplitCount(blocks: seq<BlockMetadata>, w: nat): nat
    requires w > 0
  {
    if blocks == [] then 0
    else SplitCount(blocks[..|blocks| - 1], w) + (if Straddles(blocks[|blocks| - 1], w) then 1 else 0)
  }

  function TotalSize(blocks: seq<BlockMetadata>): nat {
    if blocks == [] then 0 else TotalSize(blocks[..|blocks| - 1]) + blocks[|blocks| - 1].actualSize
  }

  // ------------------------------------------------------------ lines and bytes

  lemma DivMod(x: nat, w: nat)
    requires w > 0
    ensures x / w * w <= x < x / w * w + w
  {
    assert x == w * (x / w) + x % w;
  }

  lemma MulMono(a: nat, b: nat, w: nat)
    requires a <= b
    ensures a * w <= b * w && (a < b ==> a * w + w <= b * w)
  {
    var d := b - a;
    assert b * w == a * w + d * w;
    if d >= 1 { assert d * w == w + (d - 1) * w; }
  }

  /** Lines outside the block's range do not meet it. */
  lemma OutsideRange(b: BlockMetadata, l: nat, w: nat)
    requires w > 0
    ensures l < FirstLine(b, w) ==> Overlap(b, l, w) == 0
    ensures l > LastLine(b, w) ==> Overlap(b, l, w) == 0
    ensures b.actualSize == 0 ==> Overlap(b, l, w) == 0
  {
    DivMod(b.offset, w);
    if l < FirstLine(b, w) { MulMono(l, FirstLine(b, w), w); }
    if End(b) > 0 {
      DivMod(End(b) - 1, w);
      if l > LastLine(b, w) { MulMono(LastLine(b, w), l, w); }
    }
  }

  /** The code's comparison of first and last line decides whether a block straddles,
      blocks of size 0 included. */
  lemma StraddleTest(b: BlockMetadata, w: nat)
    requires w > 0
    ensures Straddles(b, w) <==> LastLine(b, w) > FirstLine(b, w)
  {
    var first, last := FirstLine(b, w), LastLine(b, w);
    if Straddles(b, w) {
      var l: nat, k: nat :| l != k && OnLine(b, l, w) && OnLine(b, k, w);
      OutsideRange(b, l, w);
      OutsideRange(b, k, w);
    }
    if last > first {
      DivMod(b.offset, w);
      DivMod(End(b) - 1, w);
      MulMono(first, last, w);
      assert OnLine(b, first, w) && OnLine(b, last, w);
    }
  }

  /** Bytes of `b` on the lines below `k`: those before byte `k * w`. */
  function Below(b: BlockMetadata, k: nat, w: nat): nat {
    if k == 0 then 0 else Below(b, k - 1, w) + Overlap(b, k - 1, w)
  }

  lemma {:induction false} BelowBytes(b: BlockMetadata, k: nat, w: nat)
    requires w > 0
    ensures Below(b, k, w) == Max(0, Min(End(b), k * w) - b.offset)
    decreases k
  {
    if k == 0 {
    } else {
      BelowBytes(b, k - 1, w);
      assert k * w == (k - 1) * w + w;
    }
  }

  /** Sum of the accumulated bytes of lines 0..k-1. */
  function BytesBelow(blocks: seq<BlockMetadata>, k: nat, w: nat): nat {
    if k == 0 then 0 else BytesBelow(blocks, k - 1, w) + LineBytes(blocks, k - 1, w)
  }

  lemma {:induction false} BytesBelowSplit(blocks: seq<BlockMetadata>, k: nat, w: nat)
    requires blocks != []
    ensures BytesBelow(blocks, k, w) == BytesBelow(blocks[..|blocks| - 1], k, w) + Below(blocks[|blocks| - 1], k, w)
    decreases k
  {
    if k == 0 {
    } else {
      BytesBelowSplit(blocks, k - 1, w);
    }
  }

  lemma {:induction false} NoBytes(k: nat, w: nat)
    ensures BytesBelow([], k, w) == 0
  {
    if k == 0 {
    } else {
      NoBytes(k - 1, w);
    }
  }

  /** Before clamping, the bytes of all lines add up to the total of the block sizes,
      for every list of blocks, overlapping or not. */
  lemma {:induction false} BytesAddUp(blocks: seq<BlockMetadata>, k: nat, w: nat)
    requires w > 0 && forall i :: 0 <= i < |blocks| ==> End(blocks[i]) <= k * w
    ensures BytesBelow(blocks, k, w) == TotalSize(blocks)
    decreases blocks
  {
    if blocks == [] {
      NoBytes(k, w);
    } else {
      var last := blocks[|blocks| - 1];
      BytesAddUp(blocks[..|blocks| - 1], k, w);
      BytesBelowSplit(blocks, k, w);
      BelowBytes(last, k, w);
    }
  }

  // ------------------------------------------------------------ disjoint blocks

  predicate Covers(b: BlockMetadata, x: nat) { b.offset <= x < End(b) }

  predicate Disjoint(blocks: seq<BlockMetadata>) {
    forall i, j :: 0 <= i < j < |blocks| ==> End(blocks[i]) <= blocks[j].offset || End(blocks[j]) <= blocks[i].offset
                                             || blocks[i].actualSize == 0 || blocks[j].actualSize == 0
  }

  predicate Covered(blocks: seq<BlockMetadata>, x: nat) {
    exists i :: 0 <= i < |blocks| && Covers(blocks[i], x)
  }

  function Interval(lo: nat, hi: nat): (s: set<nat>)
    ensures forall x: nat :: x in s <==> lo <= x < hi
  {
    if lo < hi then Interval(lo, hi - 1) + {hi - 1} else {}
  }

  lemma {:induction false} IntervalSize(lo: nat, hi: nat)
    ensures |Interval(lo, hi)| == Max(0, hi - lo)
    decreases hi
  {
    if hi <= lo {
    } else {
      IntervalSize(lo, hi - 1);
    }
  }

  /** The bytes between `lo` and `hi` that some block covers. */
  function CoveredIn(blocks: seq<BlockMetadata>, lo: nat, hi: nat): set<nat> {
    set x | x in Interval(lo, hi) && Covered(blocks, x)
  }

  /** The bytes of line `l` that some block covers. */
  function CoveredOn(blocks: seq<BlockMetadata>, l: nat, w: nat): set<nat> {
    CoveredIn(blocks, l * w, l * w + w)
  }

  /** The bytes of a block that lie between `lo` and `hi`. */
  function Part(b: BlockMetadata, lo: nat, hi: nat): set<nat> {
    Interval(Max(b.offset, lo), Max(Max(b.offset, lo), Min(End(b), hi)))
  }

  /** For disjoint blocks a line's accumulated bytes are the number of its covered bytes,
      hence at most the line size: the clamp changes nothing. */
  lemma DisjointExact(blocks: seq<BlockMetadata>, l: nat, w: nat)
    requires Disjoint(blocks)
    ensures LineBytes(blocks, l, w) == |CoveredOn(blocks, l, w)| <= w
  {
    DisjointCount(blocks, l * w, l * w + w);
    CoveredBounded(blocks, l * w, l * w + w);
  }

  lemma {:induction false} DisjointCount(blocks: seq<BlockMetadata>, lo: nat, hi: nat)
    requires Disjoint(blocks) && lo <= hi
    ensures BytesIn(blocks, lo, hi) == |CoveredIn(blocks, lo, hi)|
    decreases blocks
  {
    if blocks == [] {
      assert CoveredIn(blocks, lo, hi) == {};
    } else {
      var m := |blocks| - 1;
      DisjointCount(blocks[..m], lo, hi);
      CoveredSplit(blocks, lo, hi);
      CoveredApart(blocks, lo, hi);
      PartSize(blocks[m], lo, hi);
    }
  }

  lemma CoveredBounded(blocks: seq<BlockMetadata>, lo: nat, hi: nat)
    requires lo <= hi
    ensures |CoveredIn(blocks, lo, hi)| <= hi - lo
  {
    IntervalSize(lo, hi);
    SubsetSize(CoveredIn(blocks, lo, hi), Interval(lo, hi));
  }

  lemma PartSize(b: BlockMetadata, lo: nat, hi: nat)
    ensures |Part(b, lo, hi)| == OverlapIn(b, lo, hi)
  {
    IntervalSize(Max(b.offset, lo), Max(Max(b.offset, lo), Min(End(b), hi)));
  }

  lemma CoveredSplit(blocks: seq<BlockMetadata>, lo: nat, hi: nat)
    requires blocks != []
    ensures var m := |blocks| - 1;
            CoveredIn(blocks, lo, hi) == CoveredIn(blocks[..m], lo, hi) + Part(blocks[m], lo, hi)
  {
    var m := |blocks| - 1;
    var all, part := CoveredIn(blocks[..m], lo, hi), Part(blocks[m], lo, hi);
    forall x: nat ensures x in CoveredIn(blocks, lo, hi) <==> x in all + part {
      CoveredLast(blocks, x);
      assert x in part <==> lo <= x < hi && Covers(blocks[m], x);
    }
  }

  lemma CoveredLast(blocks: seq<BlockMetadata>, x: nat)
    requires blocks != []
    ensures var m := |blocks| - 1; Covered(blocks, x) <==> Covered(blocks[..m], x) || Covers(blocks[m], x)
  {
    var m := |blocks| - 1;
    if Covered(blocks, x) {
      var i :| 0 <= i < |blocks| && Covers(blocks[i], x);
      if i < m { assert Covers(blocks[..m][i], x); }
    }
    if Covered(blocks[..m], x) {
      var i :| 0 <= i < m && Covers(blocks[..m][i], x);
      assert Covers(blocks[i], x);
    }
  }

  lemma CoveredApart(blocks: seq<BlockMetadata>, lo: nat, hi: nat)
    requires blocks != [] && Disjoint(blocks)
    ensures var m := |blocks| - 1; CoveredIn(blocks[..m], lo, hi) !! Part(blocks[m], lo, hi)
  {
    var m := |blocks| - 1;
    forall x: nat | Covered(blocks[..m], x) ensures !Covers(blocks[m], x) {
      var i :| 0 <= i < m && Covers(blocks[..m][i], x);
      assert blocks[..m][i] == blocks[i];
    }
  }

  lemma {:induction false} SubsetSize(a: set<nat>, b: set<nat>)
    requires a <= b
    ensures |a| <= |b|
  {
    if a == {} {
    } else {
      var x :| x in a;
      SubsetSize(a - {x}, b - {x});
    }
  }

  // ------------------------------------------------------------ the analysis

  /** The map holds exactly the lines with bytes, and their true values, when the blocks
      `done` are complete and `b` has been entered on the lines below `k`. */
  ghost predicate Holds(m: map<nat, Accum>, done: seq<BlockMetadata>, b: BlockMetadata, k: nat, w: nat)
    requires w > 0
  {
    forall l: nat ::
      (l in m <==> PartialBytes(done, b, k, l, w) > 0) &&
      (l in m ==> m[l] == Accum(PartialBytes(done, b, k, l, w), PartialSplit(done, b, k, l, w), PartialTags(done, b, k, l, w)))
  }

  function PartialBytes(done: seq<BlockMetadata>, b: BlockMetadata, k: nat, l: nat, w: nat): nat {
    LineBytes(done, l, w) + (if l < k then Overlap(b, l, w) else 0)
  }

  ghost predicate PartialSplit(done: seq<BlockMetadata>, b: BlockMetadata, k: nat, l: nat, w: nat)
    requires w > 0
  {
    LineSplit(done, l, w) || (l < k && Overlap(b, l, w) > 0 && Straddles(b, w))
  }

  function PartialTags(done: seq<BlockMetadata>, b: BlockMetadata, k: nat, l: nat, w: nat): seq<string> {
    LineTags(done, l, w) + (if l < k then TagOf(b, l, w) else [])
  }

  /** The accumulated map is right for all of `blocks`. */
  ghost predicate Complete(m: map<nat, Accum>, blocks: seq<BlockMetadata>, w: nat)
    requires w > 0
  {
    forall l: nat ::
      (l in m <==> LineBytes(blocks, l, w) > 0) &&
      (l in m ==> m[l] == Accum(LineBytes(blocks, l, w), LineSplit(blocks, l, w), LineTags(blocks, l, w)))
  }

  lemma {:induction false} NoSplitNoTags(blocks: seq<BlockMetadata>, l: nat, w: nat)
    requires w > 0 && LineBytes(blocks, l, w) == 0
    ensures !LineSplit(blocks, l, w) && LineTags(blocks, l, w) == []
    decreases blocks
  {
    if blocks == [] {
    } else {
      var m := |blocks| - 1;
      NoSplitNoTags(blocks[..m], l, w);
      SplitLast(blocks, l, w);
    }
  }

  lemma SplitLast(blocks: seq<BlockMetadata>, l: nat, w: nat)
    requires w > 0 && blocks != []
    ensures var m := |blocks| - 1;
            LineSplit(blocks, l, w) <==>
              LineSplit(blocks[..m], l, w) || (Overlap(blocks[m], l, w) > 0 && Straddles(blocks[m], w))
  {
    var m := |blocks| - 1;
    if LineSplit(blocks, l, w) {
      var i :| 0 <= i < |blocks| && Overlap(blocks[i], l, w) > 0 && Straddles(blocks[i], w);
      if i < m { assert blocks[..m][i] == blocks[i]; }
    }
    if LineSplit(blocks[..m], l, w) {
      var i :| 0 <= i < m && Overlap(blocks[..m][i], l, w) > 0 && Straddles(blocks[..m][i], w);
      assert blocks[..m][i] == blocks[i];
    }
  }

  lemma SplitNext(blocks: seq<BlockMetadata>, i: nat, w: nat)
    requires w > 0 && i < |blocks|
    ensures SplitCount(blocks[..i + 1], w) ==
            SplitCount(blocks[..i], w) + (if LastLine(blocks[i], w) > FirstLine(blocks[i], w) then 1 else 0)
  {
    assert blocks[..i + 1][..i] == blocks[..i];
    StraddleTest(blocks[i], w);
  }

  /** What block `i` adds to a line. */
  lemma NextBlock(blocks: seq<BlockMetadata>, i: nat, l: nat, w: nat)
    requires w > 0 && i < |blocks|
    ensures var done, b, next := blocks[..i], blocks[i], blocks[..i + 1];
            LineBytes(next, l, w) == LineBytes(done, l, w) + Overlap(b, l, w) &&
            LineTags(next, l, w) == LineTags(done, l, w) + TagOf(b, l, w) &&
            (LineSplit(next, l, w) <==> LineSplit(done, l, w) || (Overlap(b, l, w) > 0 && Straddles(b, w)))
  {
    var next := blocks[..i + 1];
    assert next[..i] == blocks[..i] && next[i] == blocks[i];
    SplitLast(next, l, w);
  }

  /** Before a block's first line nothing of it has been entered. */
  lemma BlockBegun(m: map<nat, Accum>, done: seq<BlockMetadata>, b: BlockMetadata, w: nat)
    requires w > 0 && Complete(m, done, w)
    ensures Holds(m, done, b, FirstLine(b, w), w)
  {
    forall l: nat ensures l < FirstLine(b, w) ==> Overlap(b, l, w) == 0 { OutsideRange(b, l, w); }
  }

  /** After a block's last line all of it has been entered. */
  lemma BlockEntered(m: map<nat, Accum>, blocks: seq<BlockMetadata>, i: nat, w: nat)
    requires w > 0 && i < |blocks|
    requires Holds(m, blocks[..i], blocks[i], Max(FirstLine(blocks[i], w), LastLine(blocks[i], w) + 1), w)
    ensures Complete(m, blocks[..i + 1], w)
  {
    forall l: nat
      ensures l > LastLine(blocks[i], w) || l < FirstLine(blocks[i], w) ==> Overlap(blocks[i], l, w) == 0
      ensures LineBytes(blocks[..i + 1], l, w) == LineBytes(blocks[..i], l, w) + Overlap(blocks[i], l, w)
      ensures LineTags(blocks[..i + 1], l, w) == LineTags(blocks[..i], l, w) + TagOf(blocks[i], l, w)
      ensures LineSplit(blocks[..i + 1], l, w) <==>
                LineSplit(blocks[..i], l, w) || (Overlap(blocks[i], l, w) > 0 && Straddles(blocks[i], w))
    {
      OutsideRange(blocks[i], l, w);
      NextBlock(blocks, i, l, w);
    }
  }

  /** The accumulator of line `k` after adding block `b`. */
  function Entered(m: map<nat, Accum>, b: BlockMetadata, k: nat, w: nat, straddles: bool): map<nat, Accum> {
    if Overlap(b, k, w) == 0 then m
    else
      var a := if k in m then m[k] else Accum(0, false, []);
      m[k := Accum(a.bytes + Overlap(b, k, w), a.split || straddles, a.tags + TagOf(b, k, w))]
  }

  /** One line entered: the update of the loop body keeps the map right. */
  lemma LineEntered(m: map<nat, Accum>, done: seq<BlockMetadata>, b: BlockMetadata, k: nat, w: nat)
    requires w > 0 && Holds(m, done, b, k, w)
    ensures Holds(Entered(m, b, k, w, Straddles(b, w)), done, b, k + 1, w)
  {
    var m' := Entered(m, b, k, w, Straddles(b, w));
    forall l: nat
      ensures l in m' <==> PartialBytes(done, b, k + 1, l, w) > 0
      ensures l in m' ==> m'[l] == Accum(PartialBytes(done, b, k + 1, l, w), PartialSplit(done, b, k + 1, l, w),
                                         PartialTags(done, b, k + 1, l, w))
    {
      assert (l in m <==> PartialBytes(done, b, k, l, w) > 0);
      if l == k && k !in m { NoSplitNoTags(done, k, w); }
    }
  }

  predicate StrictlySorted(lines: seq<LineInfo>) {
    forall i, j :: 0 <= i < j < |lines| ==> lines[i].index < lines[j].index
  }

  /** What the report says about line `l`. */
  ghost function Info(blocks: seq<BlockMetadata>, l: nat, w: nat): LineInfo
    requires w > 0
  {
    var used := Min(LineBytes(blocks, l, w), w);
    LineInfo(l, l * w, used, w - used, LineSplit(blocks, l, w), LineTags(blocks, l, w))
  }

  function FullCount(lines: seq<LineInfo>, w: nat): nat {
    if lines == [] then 0 else FullCount(lines[..|lines| - 1], w) + (if lines[|lines| - 1].used == w then 1 else 0)
  }

  /** Bytes used on all lines. */
  function UsedSum(lines: seq<LineInfo>): nat {
    if lines == [] then 0 else UsedSum(lines[..|lines| - 1]) + lines[|lines| - 1].used
  }

  /** Used bytes as a share of the bytes of `n` lines. */
  function Average(used: nat, n: nat, w: nat): real
    requires w > 0
  {
    if n == 0 then 0.0 else used as real / (n * w) as real
  }

  function Share(used: nat, w: nat): real
    requires w > 0
  {
    used as real / w as real
  }

  function ShareSum(lines: seq<LineInfo>, w: nat): real
    requires w > 0
  {
    if lines == [] then 0.0 else ShareSum(lines[..|lines| - 1], w) + Share(lines[|lines| - 1].used, w)
  }

  lemma Shared(a: nat, b: nat, w: nat)
    requires w > 0
    ensures Share(a, w) + Share(b, w) == Share(a + b, w)
  {}

  /** Averaging the shares of the lines is taking the share of the whole. */
  lemma Averaged(used: nat, n: nat, w: nat)
    requires n > 0 && w > 0
    ensures Share(used, w) / n as real == Average(used, n, w)
  {
    var u, r, m := used as real, w as real, n as real;
    assert (n * w) as real == m * r;
    var x := u / r / m;
    assert x * m == u / r;
    assert x * m * r == u;
    assert x * (m * r) == u;
  }

  /** The bytes of a reported line are exactly those from its offset on. */
  lemma LineOffset(blocks: seq<BlockMetadata>, l: nat, w: nat, x: nat)
    requires w > 0
    ensures var info := Info(blocks, l, w);
            info.index == l && info.offset % w == 0 && (x / w == l <==> info.offset <= x < info.offset + w)
  {
    LineStart(l, w, x, l * w);
  }

  lemma LineStart(l: nat, w: nat, x: nat, start: nat)
    requires w > 0 && start == l * w
    ensures start % w == 0 && (x / w == l <==> start <= x < start + w)
  {
    MultipleMod(w, l);
    OnLineBytes(l, w, x);
  }

  lemma OnLineBytes(l: nat, w: nat, x: nat)
    requires w > 0
    ensures x / w == l <==> l * w <= x < l * w + w
  {
    DivMod(x, w);
    if l * w <= x < l * w + w { DivModOf(x, l, x - l * w, w); }
  }

  function TotalLines(cap: nat, w: nat): nat
    requires w > 0
  {
    (cap + w - 1) / w
  }

  /** The lines counted are exactly those that hold a byte of the arena. */
  lemma LinesCover(cap: nat, w: nat, l: nat)
    requires w > 0
    ensures l < TotalLines(cap, w) <==> exists x: nat :: x < cap && x / w == l
  {
    var n := TotalLines(cap, w);
    DivMod(cap + w - 1, w);
    if l < n {
      MulMono(l, n, w);
      DivModOf(l * w, l, 0, w);
      assert l * w < cap && l * w / w == l;
    }
    if x: nat :| x < cap && x / w == l {
      DivMod(x, w);
      if l >= n { MulMono(n, l, w); }
    }
  }

  /** The full lines of the report are counted once each. */
  lemma {:induction false} FullCounted(lines: seq<LineInfo>, w: nat)
    ensures FullCount(lines, w) == |FullOnes(lines, w)|
    decreases lines
  {
    if lines == [] {
      assert FullOnes(lines, w) == {};
    } else {
      FullCounted(lines[..|lines| - 1], w);
      FullSplit(lines, w);
    }
  }

  function FullOnes(lines: seq<LineInfo>, w: nat): set<nat> { set i | 0 <= i < |lines| && lines[i].used == w }

  lemma FullSplit(lines: seq<LineInfo>, w: nat)
    requires lines != []
    ensures var n := |lines| - 1;
            n !in FullOnes(lines[..n], w) &&
            FullOnes(lines, w) == FullOnes(lines[..n], w) + (if lines[n].used == w then {n} else {})
  {}

  lemma {:induction false} UsedAtMost(lines: seq<LineInfo>, w: nat)
    requires forall i :: 0 <= i < |lines| ==> lines[i].used <= w
    ensures UsedSum(lines) <= |lines| * w
    ensures UsedSum(lines) == |lines| * w <==> forall i :: 0 <= i < |lines| ==> lines[i].used == w
    decreases lines
  {
    if lines != [] {
      var n := |lines| - 1;
      UsedAtMost(lines[..n], w);
      assert |lines| * w == n * w + w;
      assert forall i :: 0 <= i < n ==> lines[..n][i] == lines[i];
    }
  }

  /** The average utilisation of the reported lines lies between 0 and 1, and it is 1
      exactly when every line is full. */
  lemma AverageRange(lines: seq<LineInfo>, w: nat)
    requires w > 0 && lines != [] && forall i :: 0 <= i < |lines| ==> lines[i].used + lines[i].wasted == w
    ensures 0.0 <= Average(UsedSum(lines), |lines|, w) <= 1.0
    ensures Average(UsedSum(lines), |lines|, w) == 1.0 <==> forall i :: 0 <= i < |lines| ==> lines[i].wasted == 0
  {
    UsedAtMost(lines, w);
    QuotientRange(UsedSum(lines), |lines|, w, |lines| * w);
  }

  lemma QuotientRange(u: nat, n: nat, w: nat, t: nat)
    requires u <= t == n * w && n > 0 && w > 0
    ensures 0.0 <= Average(u, n, w) <= 1.0 && (Average(u, n, w) == 1.0 <==> u == t)
  {
    RatioRange(u as real, t as real);
  }

  lemma RatioRange(u: real, t: real)
    requires 0.0 <= u <= t && t > 0.0
    ensures 0.0 <= u / t <= 1.0 && (u / t == 1.0 <==> u == t)
  {}

  /** The average times the bytes of the lines gives the used bytes. */
  lemma AverageTimes(u: nat, n: nat, w: nat)
    requires n > 0 && w > 0
    ensures Average(u, n, w) * (n * w) as real == u as real
  {}

  class Analyzer {
    const lineSize: nat

    /** Sizes that are not powers of two fall back to 64. */
    constructor (cacheLineSize: nat)
      ensures lineSize == (if IsPow2(cacheLineSize) then cacheLineSize else 64) && lineSize > 0
    {
      lineSize := if !IsPow2(cacheLineSize) || cacheLineSize == 0 then 64 else cacheLineSize;
    }

    /** The per-line accumulator after all blocks. */
    method Accumulate(blocks: seq<BlockMetadata>) returns (lineMap: map<nat, Accum>, splits: nat)
      requires lineSize > 0
      ensures Complete(lineMap, blocks, lineSize) && splits == SplitCount(blocks, lineSize)
    {
      lineMap, splits := map[], 0;
      for i := 0 to |blocks|
        invariant Complete(lineMap, blocks[..i], lineSize) && splits == SplitCount(blocks[..i], lineSize)
      {
        SplitNext(blocks, i, lineSize);
        if LastLine(blocks[i], lineSize) > FirstLine(blocks[i], lineSize) {
          splits := splits + 1;
        }
        lineMap := EnterNext(lineMap, blocks, i);
      }
      assert blocks[..|blocks|] == blocks;
    }

    /** One round of the outer loop. */
    method EnterNext(lineMap0: map<nat, Accum>, blocks: seq<BlockMetadata>, i: nat) returns (lineMap: map<nat, Accum>)
      requires lineSize > 0 && i < |blocks| && Complete(lineMap0, blocks[..i], lineSize)
      ensures Complete(lineMap, blocks[..i + 1], lineSize)
    {
      BlockBegun(lineMap0, blocks[..i], blocks[i], lineSize);
      lineMap := EnterBlock(lineMap0, blocks[i], blocks[..i]);
      BlockEntered(lineMap, blocks, i, lineSize);
    }

    /** The inner loop over the lines of one block. */
    method EnterBlock(lineMap0: map<nat, Accum>, block: BlockMetadata, ghost done: seq<BlockMetadata>) returns (lineMap: map<nat, Accum>)
      requires lineSize > 0 && Holds(lineMap0, done, block, FirstLine(block, lineSize), lineSize)
      ensures Holds(lineMap, done, block, Max(FirstLine(block, lineSize), LastLine(block, lineSize) + 1), lineSize)
    {
      var start, end := block.offset, block.offset + block.actualSize;
      var firstLine := start / lineSize;
      var lastLine := if end > 0 then (end - 1) / lineSize else firstLine;
      StraddleTest(block, lineSize);
      lineMap := EnterLines(lineMap0, block, firstLine, lastLine, done);
    }

    method EnterLines(lineMap0: map<nat, Accum>, block: BlockMetadata, firstLine: nat, lastLine: nat,
                      ghost done: seq<BlockMetadata>) returns (lineMap: map<nat, Accum>)
      requires lineSize > 0 && Holds(lineMap0, done, block, firstLine, lineSize)
      requires (lastLine > firstLine) == Straddles(block, lineSize)
      ensures Holds(lineMap, done, block, Max(firstLine, lastLine + 1), lineSize)
    {
      lineMap := lineMap0;
      var line := firstLine;
      while line <= lastLine
        invariant line >= firstLine && line <= Max(firstLine, lastLine + 1)
        invariant Holds(lineMap, done, block, line, lineSize)
        decreases lastLine + 1 - line
      {
        LineEntered(lineMap, done, block, line, lineSize);
        lineMap := EnterLine(lineMap, block, line, lastLine > firstLine);
        line := line + 1;
      }
    }

    /** Clamp the block to one line and add what remains. */
    method EnterLine(lineMap0: map<nat, Accum>, block: BlockMetadata, line: nat, straddles: bool) returns (lineMap: map<nat, Accum>)
      ensures lineMap == Entered(lineMap0, block, line, lineSize, straddles)
    {
      lineMap := lineMap0;
      var lineStart := line * lineSize;
      var lineEnd := lineStart + lineSize;
      var overlapStart := Max(block.offset, lineStart);
      var overlapEnd := Min(block.offset + block.actualSize, lineEnd);
      if overlapStart < overlapEnd {
        var accum := if line in lineMap then lineMap[line] else Accum(0, false, []);
        accum := accum.(bytes := accum.bytes + (overlapEnd - overlapStart));
        if straddles { accum := accum.(split := true); }
        assert accum.tags == accum.tags + [];
        if block.tag != "" { accum := accum.(tags := accum.tags + [block.tag]); }
        lineMap := lineMap[line := accum];
      }
    }

    /** The report: one entry per active line, clamped, in increasing order. */
    method Analyze(blocks: seq<BlockMetadata>, arenaCapacity: nat) returns (report: Report)
      requires lineSize > 0
      ensures report.lineSize == lineSize && report.totalLines == TotalLines(arenaCapacity, lineSize)
      ensures blocks == [] || arenaCapacity == 0 ==>
              report.lines == [] && report.activeLines == report.fullyUtilized == report.splitAllocations == 0 &&
              report.avgUtilization == 0.0
      ensures blocks != [] && arenaCapacity != 0 ==>
              report.splitAllocations == SplitCount(blocks, lineSize) && report.activeLines == |report.lines| &&
              report.fullyUtilized == FullCount(report.lines, lineSize) && StrictlySorted(report.lines) &&
              report.avgUtilization == Average(UsedSum(report.lines), |report.lines|, lineSize) &&
              (forall i :: 0 <= i < |report.lines| ==> report.lines[i] == Info(blocks, report.lines[i].index, lineSize)) &&
              (forall l: nat :: LineBytes(blocks, l, lineSize) > 0 <==> exists i :: 0 <= i < |report.lines| && report.lines[i].index == l)
    {
      report := Report(lineSize, (arenaCapacity + lineSize - 1) / lineSize, 0, 0, 0, 0.0, []);
      if blocks == [] || arenaCapacity == 0 {
        return;
      }
      var lineMap, splits := Accumulate(blocks);
      var lines, full, total := Collect(lineMap);
      var average := 0.0;
      if |lines| > 0 {
        average := total / |lines| as real;
        SharesAdd(lines, lineSize);
        Averaged(UsedSum(lines), |lines|, lineSize);
      }
      var sorted := SortLines(lines);
      assert |multiset(sorted)| == |sorted| && |multiset(lines)| == |lines|;
      SumsSame(lines, sorted, lineSize);
      SortedComplete(lines, sorted, lineMap, blocks, lineSize);
      report := report.(splitAllocations := splits, activeLines := |sorted|, fullyUtilized := full,
                        avgUtilization := average, lines := sorted);
    }

    /** Walk the hash map in whatever order it yields its entries. */
    method Collect(lineMap: map<nat, Accum>) returns (lines: seq<LineInfo>, full: nat, total: real)
      requires lineSize > 0
      ensures Tallied(lines, full, total, lineSize) && Listed(lines, lineMap, {}, lineSize)
    {
      lines, full, total := [], 0, 0.0;
      var rest := lineMap.Keys;
      while rest != {}
        invariant rest <= lineMap.Keys && Tallied(lines, full, total, lineSize) && Listed(lines, lineMap, rest, lineSize)
        decreases rest
      {
        var lineIdx :| lineIdx in rest;
        lines, full, total := CollectOne(lines, full, total, lineMap, lineIdx, rest);
        rest := rest - {lineIdx};
      }
    }

    /** One round of the loop. */
    method CollectOne(lines0: seq<LineInfo>, full0: nat, total0: real, lineMap: map<nat, Accum>, lineIdx: nat, ghost rest: set<nat>)
      returns (lines: seq<LineInfo>, full: nat, total: real)
      requires lineSize > 0 && lineIdx in rest && rest <= lineMap.Keys && Listed(lines0, lineMap, rest, lineSize)
      requires Tallied(lines0, full0, total0, lineSize)
      ensures Listed(lines, lineMap, rest - {lineIdx}, lineSize) && Tallied(lines, full, total, lineSize)
    {
      var info := Describe(lineMap, lineIdx);
      CollectStep(lines0, lineMap, rest, lineIdx, lineSize, info);
      lines, full := lines0 + [info], full0;
      if info.used == lineSize { full := full + 1; }
      total := total0 + Share(info.used, lineSize);
    }

    /** Clamped bytes and the rest of the line. */
    method Describe(lineMap: map<nat, Accum>, lineIdx: nat) returns (info: LineInfo)
      requires lineIdx in lineMap
      ensures info == InfoOf(lineMap, lineIdx, lineSize)
    {
      var accum := lineMap[lineIdx];
      var used := Min(accum.bytes, lineSize);
      var wasted := lineSize - used;
      info := LineInfo(lineIdx, lineIdx * lineSize, used, wasted, accum.split, accum.tags);
    }
  }

  /** Full lines and shares of the lines so far. */
  predicate Tallied(lines: seq<LineInfo>, full: nat, total: real, w: nat)
    requires w > 0
  {
    full == FullCount(lines, w) && total == ShareSum(lines, w)
  }

  /** The report entry for an accumulated line. */
  function InfoOf(m: map<nat, Accum>, l: nat, w: nat): LineInfo
    requires l in m
  {
    var used := Min(m[l].bytes, w);
    LineInfo(l, l * w, used, w - used, m[l].split, m[l].tags)
  }

  ghost predicate HasLine(lines: seq<LineInfo>, l: nat) { exists i :: 0 <= i < |lines| && lines[i].index == l }

  /** `lines` holds every entry of `m` outside `rest`, once each. */
  ghost predicate Listed(lines: seq<LineInfo>, m: map<nat, Accum>, rest: set<nat>, w: nat) {
    (forall i :: 0 <= i < |lines| ==>
       lines[i].index in m && lines[i].index !in rest && lines[i] == InfoOf(m, lines[i].index, w)) &&
    (forall l {:trigger HasLine(lines, l)} :: l in m && l !in rest ==> HasLine(lines, l)) &&
    (forall i, j :: 0 <= i < j < |lines| ==> lines[i].index != lines[j].index)
  }

  lemma ListedStep(lines: seq<LineInfo>, m: map<nat, Accum>, rest: set<nat>, l: nat, w: nat)
    requires Listed(lines, m, rest, w) && l in rest && rest <= m.Keys
    ensures Listed(lines + [InfoOf(m, l, w)], m, rest - {l}, w)
  {
    var lines', rest' := lines + [InfoOf(m, l, w)], rest - {l};
    forall x | x in m && x !in rest' ensures HasLine(lines', x) {
      if x == l {
        assert lines'[|lines|].index == x;
      } else {
        assert HasLine(lines, x);
        var i :| 0 <= i < |lines| && lines[i].index == x;
        assert lines'[i].index == x;
      }
    }
  }

  /** Sorting by line index (the library sort), as insertion. */
  method SortLines(lines: seq<LineInfo>) returns (sorted: seq<LineInfo>)
    requires forall i, j :: 0 <= i < j < |lines| ==> lines[i].index != lines[j].index
    ensures StrictlySorted(sorted) && multiset(sorted) == multiset(lines)
  {
    sorted := [];
    for n := 0 to |lines|
      invariant StrictlySorted(sorted) && multiset(sorted) == multiset(lines[..n])
    {
      var x := lines[n];
      var k := InsertionPoint(sorted, x);
      DistinctFromSorted(lines, sorted, n);
      InsertedSorted(sorted, k, x);
      InsertedMultiset(sorted, k, x);
      assert lines[..n + 1] == lines[..n] + [x];
      sorted := sorted[..k] + [x] + sorted[k..];
    }
    assert lines[..|lines|] == lines;
  }

  lemma DistinctFromSorted(lines: seq<LineInfo>, sorted: seq<LineInfo>, n: nat)
    requires n < |lines| && multiset(sorted) == multiset(lines[..n])
    requires forall i, j :: 0 <= i < j < |lines| ==> lines[i].index != lines[j].index
    ensures forall j :: 0 <= j < |sorted| ==> sorted[j].index != lines[n].index
  {
    forall j | 0 <= j < |sorted| ensures sorted[j].index != lines[n].index {
      assert sorted[j] in multiset(sorted);
      assert sorted[j] in lines[..n];
    }
  }

  method InsertionPoint(s: seq<LineInfo>, x: LineInfo) returns (k: nat)
    ensures k <= |s| && (forall j :: 0 <= j < k ==> s[j].index < x.index) && (k < |s| ==> x.index <= s[k].index)
  {
    k := 0;
    while k < |s| && s[k].index < x.index
      invariant 0 <= k <= |s| && forall j :: 0 <= j < k ==> s[j].index < x.index
    {
      k := k + 1;
    }
  }

  lemma InsertedSorted(s: seq<LineInfo>, k: nat, x: LineInfo)
    requires k <= |s| && StrictlySorted(s)
    requires forall j :: 0 <= j < k ==> s[j].index < x.index
    requires k < |s| ==> x.index < s[k].index
    ensures StrictlySorted(s[..k] + [x] + s[k..])
  {
    var t := s[..k] + [x] + s[k..];
    forall j | 0 <= j < |t|
      ensures j < k ==> t[j] == s[j]
      ensures j == k ==> t[j] == x
      ensures j > k ==> t[j] == s[j - 1]
    {}
    forall j | k <= j < |s| ensures x.index < s[j].index {}
  }

  lemma InsertedMultiset(s: seq<LineInfo>, k: nat, x: LineInfo)
    requires k <= |s|
    ensures multiset(s[..k] + [x] + s[k..]) == multiset(s) + multiset{x}
  {
    assert s == s[..k] + s[k..];
  }

  lemma SumsSnoc(s: seq<LineInfo>, x: LineInfo, w: nat)
    ensures FullCount(s + [x], w) == FullCount(s, w) + (if x.used == w then 1 else 0)
    ensures UsedSum(s + [x]) == UsedSum(s) + x.used
  {
    assert (s + [x])[..|s|] == s;
  }

  /** The shares of the lines add up to the share of their bytes. */
  lemma {:induction false} SharesAdd(s: seq<LineInfo>, w: nat)
    requires w > 0
    ensures ShareSum(s, w) == Share(UsedSum(s), w)
  {
    if s == [] {
    } else {
      var front := s[..|s| - 1];
      SharesAdd(front, w);
      Shared(UsedSum(front), s[|s| - 1].used, w);
    }
  }

  lemma CollectStep(lines: seq<LineInfo>, m: map<nat, Accum>, rest: set<nat>, l: nat, w: nat, info: LineInfo)
    requires w > 0 && Listed(lines, m, rest, w) && l in rest && rest <= m.Keys && info == InfoOf(m, l, w)
    ensures Listed(lines + [info], m, rest - {l}, w)
    ensures FullCount(lines + [info], w) == FullCount(lines, w) + (if info.used == w then 1 else 0)
    ensures ShareSum(lines + [info], w) == ShareSum(lines, w) + Share(info.used, w)
  {
    ListedStep(lines, m, rest, l, w);
    SumsSnoc(lines, info, w);
    assert (lines + [info])[..|lines|] == lines;
  }

  lemma RemovedFront(s: seq<LineInfo>, i: nat)
    requires i < |s| - 1
    ensures var t, m := s[..i] + s[i + 1..], |s| - 1;
            |t| == m && t[..m - 1] == s[..m][..i] + s[..m][i + 1..] && t[m - 1] == s[m]
  {}

  lemma {:induction false} SumsRemove(s: seq<LineInfo>, i: nat, w: nat)
    requires i < |s|
    ensures FullCount(s, w) == FullCount(s[..i] + s[i + 1..], w) + (if s[i].used == w then 1 else 0)
    ensures UsedSum(s) == UsedSum(s[..i] + s[i + 1..]) + s[i].used
    decreases |s|
  {
    var m := |s| - 1;
    if i == m {
      assert s[..i] + s[i + 1..] == s[..m];
    } else {
      SumsRemove(s[..m], i, w);
      RemovedFront(s, i);
    }
  }

  lemma WithoutOne(t: seq<LineInfo>, i: nat)
    requires i < |t|
    ensures multiset(t[..i] + t[i + 1..]) == multiset(t) - multiset{t[i]}
  {
    assert t == t[..i] + [t[i]] + t[i + 1..];
  }

  lemma WithoutLast(s: seq<LineInfo>)
    requires s != []
    ensures multiset(s[..|s| - 1]) == multiset(s) - multiset{s[|s| - 1]}
  {
    assert s == s[..|s| - 1] + [s[|s| - 1]];
  }

  /** Full lines and used bytes do not depend on the order. */
  lemma {:induction false} SumsSame(s: seq<LineInfo>, t: seq<LineInfo>, w: nat)
    requires multiset(s) == multiset(t)
    ensures FullCount(s, w) == FullCount(t, w) && UsedSum(s) == UsedSum(t)
    decreases |s|
  {
    assert |s| == |multiset(s)| && |t| == |multiset(t)|;
    if s == [] {
    } else {
      var m := |s| - 1;
      assert s[m] in multiset(t);
      var i :| 0 <= i < |t| && t[i] == s[m];
      WithoutOne(t, i);
      WithoutLast(s);
      SumsSame(s[..m], t[..i] + t[i + 1..], w);
      SumsRemove(t, i, w);
    }
  }

  lemma SortedComplete(lines: seq<LineInfo>, sorted: seq<LineInfo>, m: map<nat, Accum>, blocks: seq<BlockMetadata>, w: nat)
    requires w > 0 && multiset(sorted) == multiset(lines) && Complete(m, blocks, w) && Listed(lines, m, {}, w)
    ensures forall i :: 0 <= i < |sorted| ==> sorted[i] == Info(blocks, sorted[i].index, w)
    ensures forall l: nat :: LineBytes(blocks, l, w) > 0 <==> exists i :: 0 <= i < |sorted| && sorted[i].index == l
  {
    forall i | 0 <= i < |sorted| ensures sorted[i].index in m && sorted[i] == Info(blocks, sorted[i].index, w) {
      assert sorted[i] in multiset(lines);
      var j :| 0 <= j < |lines| && lines[j] == sorted[i];
    }
    forall l: nat | l in m ensures exists i :: 0 <= i < |sorted| && sorted[i].index == l {
      assert HasLine(lines, l);
      var j :| 0 <= j < |lines| && lines[j].index == l;
      assert lines[j] in multiset(sorted);
      var i :| 0 <= i < |sorted| && sorted[i] == lines[j];
    }
  }

  /** For disjoint blocks the report's numbers are byte counts. */
  lemma DisjointReport(blocks: seq<BlockMetadata>, l: nat, w: nat)
    requires w > 0 && Disjoint(blocks)
    ensures Info(blocks, l, w).used == |CoveredOn(blocks, l, w)| == LineBytes(blocks, l, w)
    ensures Info(blocks, l, w).wasted == w - |CoveredOn(blocks, l, w)|
  {
    DisjointExact(blocks, l, w);
  }

  /** For disjoint blocks the used bytes of the report are the blocks' total size, so the
      average utilisation is that size over the size of the touched lines. */
  lemma DisjointAverage(lines: seq<LineInfo>, blocks: seq<BlockMetadata>, w: nat, k: nat)
    requires w > 0 && Disjoint(blocks) && StrictlySorted(lines)
    requires forall i :: 0 <= i < |lines| ==> lines[i] == Info(blocks, lines[i].index, w)
    requires forall l: nat :: LineBytes(blocks, l, w) > 0 <==> exists i :: 0 <= i < |lines| && lines[i].index == l
    requires forall i :: 0 <= i < |blocks| ==> End(blocks[i]) <= k * w
    ensures UsedSum(lines) == TotalSize(blocks)
    ensures Average(UsedSum(lines), |lines|, w) == Average(TotalSize(blocks), |lines|, w)
  {
    BytesAddUp(blocks, k, w);
    forall i | 0 <= i < |lines| ensures lines[i].index < k && lines[i].used == LineBytes(blocks, lines[i].index, w) {
      var l := lines[i].index;
      assert LineBytes(blocks, l, w) > 0;
      DisjointReport(blocks, l, w);
      LineBelow(blocks, l, w, k);
    }
    var f := (l: nat) => LineBytes(blocks, l, w);
    forall l: nat | l !in Indices(lines) ensures f(l) == 0 {
      assert forall i :: 0 <= i < |lines| ==> lines[i].index in Indices(lines);
    }
    SumsBelow(lines, f, k);
    SumToBytes(blocks, f, k, w);
  }

  lemma LineBelow(blocks: seq<BlockMetadata>, l: nat, w: nat, k: nat)
    requires forall i :: 0 <= i < |blocks| ==> End(blocks[i]) <= k * w
    ensures LineBytes(blocks, l, w) > 0 ==> l < k
  {
    if l >= k {
      MulMono(k, l, w);
      NothingBeyond(blocks, l, w, k * w);
    }
  }

  lemma {:induction false} NothingBeyond(blocks: seq<BlockMetadata>, l: nat, w: nat, end: nat)
    requires end <= l * w && forall i :: 0 <= i < |blocks| ==> End(blocks[i]) <= end
    ensures LineBytes(blocks, l, w) == 0
    decreases blocks
  {
    if blocks == [] {
    } else {
      NothingBeyond(blocks[..|blocks| - 1], l, w, end);
    }
  }

  function SumTo(f: nat -> nat, k: nat): nat { if k == 0 then 0 else SumTo(f, k - 1) + f(k - 1) }

  lemma {:induction false} SumToBytes(blocks: seq<BlockMetadata>, f: nat -> nat, k: nat, w: nat)
    requires forall l: nat :: f(l) == LineBytes(blocks, l, w)
    ensures SumTo(f, k) == BytesBelow(blocks, k, w)
  {
    if k == 0 {
    } else {
      SumToBytes(blocks, f, k - 1, w);
    }
  }

  function Indices(lines: seq<LineInfo>): set<nat> { set i | 0 <= i < |lines| :: lines[i].index }

  lemma LastIndex(lines: seq<LineInfo>)
    requires StrictlySorted(lines) && lines != []
    ensures var n := |lines| - 1;
            Indices(lines) == Indices(lines[..n]) + {lines[n].index} && StrictlySorted(lines[..n]) &&
            forall l :: l in Indices(lines) ==> l <= lines[n].index
  {
    var n := |lines| - 1;
    var front := lines[..n];
    forall l | l in Indices(lines) ensures l <= lines[n].index && (l in Indices(front) || l == lines[n].index) {
      var i :| 0 <= i < |lines| && lines[i].index == l;
      if i < n { assert front[i].index == l; }
    }
    forall l | l in Indices(front) ensures l in Indices(lines) {
      var i :| 0 <= i < n && front[i].index == l;
      assert lines[i].index == l;
    }
  }

  lemma {:induction false} ZeroRange(f: nat -> nat, a: nat, b: nat)
    requires a <= b && forall l: nat :: a <= l < b ==> f(l) == 0
    ensures SumTo(f, b) == SumTo(f, a)
    decreases b
  {
    if a == b {
    } else {
      ZeroRange(f, a, b - 1);
    }
  }

  /** `lines` lists, in order, the lines below `k` with their values of `f`, which is 0 elsewhere. */
  ghost predicate Lists(lines: seq<LineInfo>, f: nat -> nat, k: nat) {
    StrictlySorted(lines) &&
    (forall i :: 0 <= i < |lines| ==> lines[i].used == f(lines[i].index) && lines[i].index < k) &&
    (forall l: nat :: l < k && l !in Indices(lines) ==> f(l) == 0)
  }

  /** Summing over the listed lines is summing over all lines. */
  lemma {:induction false} SumsBelow(lines: seq<LineInfo>, f: nat -> nat, k: nat)
    requires Lists(lines, f, k)
    ensures UsedSum(lines) == SumTo(f, k)
    decreases |lines|
  {
    if lines == [] {
      ZeroRange(f, 0, k);
    } else {
      var n := |lines| - 1;
      LastListed(lines, f, k);
      SumsBelow(lines[..n], f, lines[n].index);
    }
  }

  lemma LastListed(lines: seq<LineInfo>, f: nat -> nat, k: nat)
    requires Lists(lines, f, k) && lines != []
    ensures var n := |lines| - 1;
            Lists(lines[..n], f, lines[n].index) && SumTo(f, k) == SumTo(f, lines[n].index) + lines[n].used
  {
    LastIndex(lines);
    ZeroRange(f, lines[|lines| - 1].index + 1, k);
  }
}
