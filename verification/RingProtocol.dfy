/** The single-producer/single-consumer ring buffer as a protocol of atomic steps.

Each load, slot access and store of `push` and `pop` is one step, and the steps of
the two sides interleave freely.  Loading the other side's index may return any value
that index has held since the last one observed (acquire loads are coherent, not
up to date).  Counters of all stores so far are kept beside the wrapped indices; they
are history only and no step's outcome depends on them. */
module RingProtocol {
  import opened Arithmetic

  /** A push: own head read and the tail to be loaded; room seen and the slot to be
      written; slot written and the new head to be stored. */
  datatype Producer<T> = PIdle | PLoadTail(item: T, head: nat) | PWrite(item: T, head: nat) | PStore(item: T, head: nat)

  /** A pop: own tail read and the head to be loaded; item seen and the slot to be read;
      slot read and the new tail to be stored. */
  datatype Consumer<T> = CIdle | CLoadHead(tail: nat) | CRead(tail: nat) | CStore(item: T, tail: nat)

  /** The buffer and both sides, then history: stores to head and tail so far, the latest
      counts each side has observed, and the items offered, accepted and popped. */
  datatype Ring<T> = Ring(
    buffer: seq<T>, head: nat, tail: nat, producer: Producer<T>, consumer: Consumer<T>,
    pushes: nat, pops: nat, seenPops: nat, seenPushes: nat,
    offered: seq<T>, outcomes: seq<bool>, accepted: seq<T>, popped: seq<T>)

  /** The loads return the value the other side's index had after `count` stores. */
  datatype Step<T> = BeginPush(item: T) | LoadTail(count: nat) | WriteSlot | StoreHead
    | BeginPop | LoadHead(count: nat) | ReadSlot | StoreTail

  function Empty<T>(buffer: seq<T>): Ring<T> {
    Ring(buffer, 0, 0, PIdle, CIdle, 0, 0, 0, 0, [], [], [], [])
  }

  predicate Enabled<T>(r: Ring<T>, s: Step<T>) {
    match s
    case BeginPush(_) => r.producer.PIdle?
    case LoadTail(k) => r.producer.PLoadTail? && r.seenPops <= k <= r.pops
    case WriteSlot => r.producer.PWrite?
    case StoreHead => r.producer.PStore?
    case BeginPop => r.consumer.CIdle?
    case LoadHead(k) => r.consumer.CLoadHead? && r.seenPushes <= k <= r.pushes
    case ReadSlot => r.consumer.CRead?
    case StoreTail => r.consumer.CStore?
  }

  function Apply<T>(r: Ring<T>, s: Step<T>): Ring<T>
    requires Enabled(r, s) && |r.buffer| > 0
  {
    var n := |r.buffer|;
    match s
    case BeginPush(item) => r.(producer := PLoadTail(item, r.head), offered := r.offered + [item])
    case LoadTail(k) =>
      var p := r.producer;
      if (p.head + 1) % n != k % n then r.(producer := PWrite(p.item, p.head), seenPops := k)
      else r.(producer := PIdle, seenPops := k, outcomes := r.outcomes + [false])
    case WriteSlot =>
      var p := r.producer;
      r.(producer := PStore(p.item, p.head),
         buffer := if p.head < n then r.buffer[p.head := p.item] else r.buffer)
    case StoreHead =>
      r.(producer := PIdle, head := (r.producer.head + 1) % n, pushes := r.pushes + 1,
         outcomes := r.outcomes + [true], accepted := r.accepted + [r.producer.item])
    case BeginPop => r.(consumer := CLoadHead(r.tail))
    case LoadHead(k) =>
      var c := r.consumer;
      if c.tail == k % n then r.(consumer := CIdle, seenPushes := k)
      else r.(consumer := CRead(c.tail), seenPushes := k)
    case ReadSlot =>
      var c := r.consumer;
      if c.tail < n then r.(consumer := CStore(r.buffer[c.tail], c.tail)) else r
    case StoreTail =>
      r.(consumer := CIdle, tail := (r.consumer.tail + 1) % n, pops := r.pops + 1,
         popped := r.popped + [r.consumer.item])
  }

  predicate Possible<T>(r: Ring<T>, steps: seq<Step<T>>)
    requires |r.buffer| > 0
    decreases steps
  {
    steps == [] ||
    (Enabled(r, steps[0]) && |Apply(r, steps[0]).buffer| > 0 && Possible(Apply(r, steps[0]), steps[1..]))
  }

  function Run<T>(r: Ring<T>, steps: seq<Step<T>>): Ring<T>
    requires |r.buffer| > 0 && Possible(r, steps)
    decreases steps
  {
    if steps == [] then r else Run(Apply(r, steps[0]), steps[1..])
  }

  // ------------------------------------------------------------ invariant

  /** The items whose push ended with `true`. */
  function Select<T>(items: seq<T>, flags: seq<bool>): seq<T>
    requires |flags| <= |items|
  {
    if flags == [] then []
    else Select(items[..|flags| - 1], flags[..|flags| - 1]) + (if flags[|flags| - 1] then [items[|flags| - 1]] else [])
  }

  ghost predicate Counts<T>(r: Ring<T>) {
    |r.buffer| > 0 && r.head == r.pushes % |r.buffer| && r.tail == r.pops % |r.buffer| &&
    r.seenPops <= r.pops <= r.seenPushes <= r.pushes < r.seenPops + |r.buffer| &&
    |r.accepted| == r.pushes && |r.popped| == r.pops
  }

  ghost predicate Slots<T>(r: Ring<T>)
    requires |r.buffer| > 0 && |r.accepted| == r.pushes
  {
    forall i :: r.pops <= i < r.pushes ==> r.buffer[i % |r.buffer|] == r.accepted[i]
  }

  ghost predicate ProducerOk<T>(r: Ring<T>)
    requires |r.buffer| > 0
  {
    match r.producer
    case PIdle => |r.outcomes| == |r.offered|
    case PLoadTail(item, head) => head == r.head && Pending(r, item)
    case PWrite(item, head) => head == r.head && Pending(r, item) && r.pushes + 1 < r.seenPops + |r.buffer|
    case PStore(item, head) =>
      head == r.head && Pending(r, item) && r.pushes + 1 < r.seenPops + |r.buffer| && head < |r.buffer| && r.buffer[head] == item
  }

  ghost predicate Pending<T>(r: Ring<T>, item: T) {
    |r.offered| == |r.outcomes| + 1 && r.offered[|r.outcomes|] == item
  }

  ghost predicate ConsumerOk<T>(r: Ring<T>)
    requires |r.accepted| == r.pushes
  {
    match r.consumer
    case CIdle => true
    case CLoadHead(tail) => tail == r.tail
    case CRead(tail) => tail == r.tail && r.pops < r.seenPushes <= r.pushes
    case CStore(item, tail) => tail == r.tail && r.pops < r.seenPushes <= r.pushes && item == r.accepted[r.pops]
  }

  ghost predicate History<T>(r: Ring<T>) {
    |r.outcomes| <= |r.offered| && r.accepted == Select(r.offered[..|r.outcomes|], r.outcomes) &&
    |r.popped| <= |r.accepted| && r.popped == r.accepted[..|r.popped|]
  }

  ghost predicate Inv<T>(r: Ring<T>) {
    Counts(r) && Slots(r) && ProducerOk(r) && ConsumerOk(r) && History(r)
  }

  lemma InitInv<T>(buffer: seq<T>)
    requires |buffer| > 0
    ensures Inv(Empty(buffer))
  {
    DivModOf(0, 0, 0, |buffer|);
  }

  lemma PushStep<T>(r: Ring<T>, s: Step<T>)
    requires Inv(r) && Enabled(r, s) && (s.BeginPush? || s.LoadTail? || s.WriteSlot? || s.StoreHead?)
    ensures Inv(Apply(r, s))
  {
    var n, r' := |r.buffer|, Apply(r, s);
    match s {
      case BeginPush(item) =>
        assert r'.offered[..|r'.outcomes|] == r.offered[..|r.outcomes|];
      case LoadTail(k) =>
        ModSucc(r.pushes, n);
        if (r.head + 1) % n == k % n {
          assert r'.outcomes[..|r.outcomes|] == r.outcomes;
          assert r'.offered[..|r'.outcomes|][..|r.outcomes|] == r.offered[..|r.outcomes|];
        } else if r.pushes + 1 == k + n {
          assert r.pushes + 1 == n * 1 + k;
          AddMultiple(k, 1, n);
        }
      case WriteSlot =>
        forall i | r'.pops <= i < r'.pushes ensures r'.buffer[i % n] == r'.accepted[i] {
          if i % n == r.head { ModInjective(i, r.pushes, n); }
        }
      case StoreHead =>
        ModSucc(r.pushes, n);
        assert r'.outcomes[..|r.outcomes|] == r.outcomes;
        assert r'.offered[..|r'.outcomes|][..|r.outcomes|] == r.offered[..|r.outcomes|];
    }
  }

  lemma PopStep<T>(r: Ring<T>, s: Step<T>)
    requires Inv(r) && Enabled(r, s) && (s.BeginPop? || s.LoadHead? || s.ReadSlot? || s.StoreTail?)
    ensures Inv(Apply(r, s))
  {
    var n, r' := |r.buffer|, Apply(r, s);
    match s {
      case BeginPop =>
      case LoadHead(k) =>
      case ReadSlot =>
      case StoreTail =>
        ModSucc(r.pops, n);
        assert r.accepted[..r.pops + 1] == r.accepted[..r.pops] + [r.accepted[r.pops]];
    }
  }

  lemma {:induction false} RunInv<T>(r: Ring<T>, steps: seq<Step<T>>)
    requires Inv(r) && Possible(r, steps)
    ensures Inv(Run(r, steps)) && |Run(r, steps).buffer| == |r.buffer|
    decreases steps
  {
    if steps == [] {
    } else {
      var s := steps[0];
      if s.BeginPush? || s.LoadTail? || s.WriteSlot? || s.StoreHead? { PushStep(r, s); } else { PopStep(r, s); }
      RunInv(Apply(r, s), steps[1..]);
    }
  }

  // ------------------------------------------------------------ what users of the buffer get

  /** The items between the indices, oldest first. */
  function Contents<T>(r: Ring<T>): seq<T>
    requires |r.buffer| > 0 && r.pops <= r.pushes
  {
    seq(r.pushes - r.pops, i requires 0 <= i => r.buffer[(r.pops + i) % |r.buffer|])
  }

  /** First in, first out: after every interleaving the accepted items are the popped ones
      followed by the buffer's contents, and at most N - 1 items are held. */
  lemma Fifo<T>(buffer: seq<T>, steps: seq<Step<T>>)
    requires |buffer| > 0 && Possible(Empty(buffer), steps)
    ensures var r := Run(Empty(buffer), steps);
            |r.buffer| == |buffer| && r.pops <= r.pushes &&
            r.accepted == r.popped + Contents(r) && |Contents(r)| <= |buffer| - 1
  {
    InitInv(buffer);
    RunInv(Empty(buffer), steps);
    var r := Run(Empty(buffer), steps);
    ContentsAccepted(r);
    assert r.accepted == r.accepted[..r.pops] + r.accepted[r.pops..];
  }

  /** The contents are the accepted items that have not been popped. */
  lemma ContentsAccepted<T>(r: Ring<T>)
    requires Inv(r)
    ensures Contents(r) == r.accepted[r.pops..]
  {
    var c := Contents(r);
    forall i | 0 <= i < |c| ensures c[i] == r.accepted[r.pops + i] {
      assert c[i] == r.buffer[(r.pops + i) % |r.buffer|];
    }
  }

  /** The slot being written is never the slot being read. */
  lemma NoRace<T>(buffer: seq<T>, steps: seq<Step<T>>)
    requires |buffer| > 0 && Possible(Empty(buffer), steps)
    ensures var r := Run(Empty(buffer), steps);
            r.producer.PWrite? && r.consumer.CRead? ==> r.producer.head != r.consumer.tail
  {
    InitInv(buffer);
    RunInv(Empty(buffer), steps);
    var r := Run(Empty(buffer), steps);
    if r.producer.PWrite? && r.consumer.CRead? && r.producer.head == r.consumer.tail {
      ModInjective(r.pops, r.pushes, |buffer|);
    }
  }

  /** A push is dropped exactly when the tail it observed shows N - 1 held items; with an
      up-to-date observation, exactly when the buffer is full. */
  lemma DropMeansFull<T>(buffer: seq<T>, steps: seq<Step<T>>, k: nat)
    requires |buffer| > 0 && Possible(Empty(buffer), steps)
    requires var r := Run(Empty(buffer), steps); Enabled(r, LoadTail(k))
    ensures var r := Run(Empty(buffer), steps);
            |r.buffer| == |buffer| &&
            (Apply(r, LoadTail(k)).producer.PIdle? <==> r.pushes - k == |buffer| - 1)
  {
    InitInv(buffer);
    RunInv(Empty(buffer), steps);
    var r := Run(Empty(buffer), steps);
    var n := |buffer|;
    ModSucc(r.pushes, n);
    if r.pushes - k == n - 1 {
      AddMultiple(k, 1, n);
    } else if (r.pushes + 1) % n == k % n {
      ModInjective(k, r.pushes + 1, n);
    }
  }

  /** An empty result means that no store the consumer could see was left unread. */
  lemma EmptyMeansDrained<T>(buffer: seq<T>, steps: seq<Step<T>>, k: nat)
    requires |buffer| > 0 && Possible(Empty(buffer), steps)
    requires var r := Run(Empty(buffer), steps); Enabled(r, LoadHead(k))
    ensures var r := Run(Empty(buffer), steps);
            |r.buffer| == |buffer| && (Apply(r, LoadHead(k)).consumer.CIdle? <==> k == r.pops)
  {
    InitInv(buffer);
    RunInv(Empty(buffer), steps);
    var r := Run(Empty(buffer), steps);
    if r.tail == k % |buffer| { ModInjective(r.pops, k, |buffer|); }
  }
}
