/** The sampling tracker: as a protocol over every interleaving of the recording thread
with the draining thread, and as the object whose methods run undisturbed. */
module Tracker {
  import opened Arithmetic
  import opened RingProtocol

  // ------------------------------------------------------------ protocol

  /** Ring buffer of event ids together with the id counter of the recording thread. */
  datatype Tracked = Tracked(ring: Ring<nat>, nextId: nat, sampling: nat)

  datatype TrackStep = Record | Inner(step: Step<nat>)

  predicate CanStep(t: Tracked, s: TrackStep) {
    match s
    case Record => t.ring.producer.PIdle?
    case Inner(step) => !step.BeginPush? && Enabled(t.ring, step)
  }

  /** `record_*` counts the operation and starts a push for every `sampling`-th one. */
  function TakeStep(t: Tracked, s: TrackStep): Tracked
    requires CanStep(t, s) && |t.ring.buffer| > 0 && t.sampling > 0
  {
    match s
    case Record =>
      var id := t.nextId + 1;
      if id % t.sampling != 0 then t.(nextId := id)
      else t.(nextId := id, ring := Apply(t.ring, BeginPush(id)))
    case Inner(step) => t.(ring := Apply(t.ring, step))
  }

  ghost predicate CanRun(t: Tracked, steps: seq<TrackStep>)
    requires |t.ring.buffer| > 0 && t.sampling > 0
    decreases steps
  {
    steps == [] ||
    (CanStep(t, steps[0]) && |TakeStep(t, steps[0]).ring.buffer| > 0 && CanRun(TakeStep(t, steps[0]), steps[1..]))
  }

  ghost function RunTracked(t: Tracked, steps: seq<TrackStep>): Tracked
    requires |t.ring.buffer| > 0 && t.sampling > 0 && CanRun(t, steps)
    decreases steps
  {
    if steps == [] then t else RunTracked(TakeStep(t, steps[0]), steps[1..])
  }

  /** How many operations a run records. */
  function Recorded(steps: seq<TrackStep>): nat {
    if steps == [] then 0 else (if steps[0].Record? then 1 else 0) + Recorded(steps[1..])
  }

  function Fresh(buffer: seq<nat>, sampling: nat): Tracked { Tracked(Empty(buffer), 0, sampling) }

  /** s, 2s, ..., ms. */
  function Multiples(s: nat, m: nat): seq<nat> {
    if m == 0 then [] else Multiples(s, m - 1) + [s * m]
  }

  predicate Increasing(l: seq<nat>) {
    forall i, j :: 0 <= i < j < |l| ==> l[i] < l[j]
  }

  predicate AllMultiples(l: seq<nat>, s: nat)
    requires s > 0
  {
    forall i :: 0 <= i < |l| ==> l[i] % s == 0
  }

  ghost predicate TrackInv(t: Tracked) {
    t.sampling > 0 && Inv(t.ring) && t.ring.offered == Multiples(t.sampling, t.nextId / t.sampling)
  }

  lemma DivStep(x: nat, s: nat)
    requires s > 0
    ensures (x + 1) % s != 0 ==> (x + 1) / s == x / s
    ensures (x + 1) % s == 0 ==> (x + 1) / s == x / s + 1 && s * (x / s + 1) == x + 1
  {
    var q, m := x / s, x % s;
    assert x == s * q + m;
    if m + 1 < s {
      DivModOf(x + 1, q, m + 1, s);
      DivModOf(x + 1, q, m + 1, s);
    } else {
      assert x + 1 == s * (q + 1);
      DivModOf(x + 1, q + 1, 0, s);
      DivModOf(x + 1, q + 1, 0, s);
    }
  }

  lemma TrackStepInv(t: Tracked, s: TrackStep)
    requires TrackInv(t) && CanStep(t, s)
    ensures TrackInv(TakeStep(t, s))
  {
    match s {
      case Record =>
        NextMultiple(t.nextId, t.sampling);
        if (t.nextId + 1) % t.sampling == 0 { PushStep(t.ring, BeginPush(t.nextId + 1)); }
      case Inner(step) => InnerStepInv(t.ring, step);
    }
  }

  lemma InnerStepInv(r: Ring<nat>, step: Step<nat>)
    requires Inv(r) && !step.BeginPush? && Enabled(r, step)
    ensures Inv(Apply(r, step)) && Apply(r, step).offered == r.offered
  {
    if step.LoadTail? || step.WriteSlot? || step.StoreHead? { PushStep(r, step); } else { PopStep(r, step); }
  }

  lemma NextMultiple(x: nat, s: nat)
    requires s > 0
    ensures Multiples(s, (x + 1) / s) == Multiples(s, x / s) + (if (x + 1) % s == 0 then [x + 1] else [])
  {
    DivStep(x, s);
  }

  lemma {:induction false} TrackRunInv(t: Tracked, steps: seq<TrackStep>)
    requires TrackInv(t) && CanRun(t, steps)
    ensures TrackInv(RunTracked(t, steps)) && RunTracked(t, steps).sampling == t.sampling
    ensures RunTracked(t, steps).nextId == t.nextId + Recorded(steps)
    decreases steps
  {
    if steps == [] {
    } else {
      TrackStepInv(t, steps[0]);
      TrackRunInv(TakeStep(t, steps[0]), steps[1..]);
    }
  }

  lemma {:induction false} MultiplesFacts(s: nat, m: nat)
    requires s > 0
    ensures |Multiples(s, m)| == m && Increasing(Multiples(s, m)) && AllMultiples(Multiples(s, m), s)
    ensures forall i :: 0 <= i < m ==> Multiples(s, m)[i] <= s * m
    decreases m
  {
    if m == 0 {
    } else {
      MultiplesFacts(s, m - 1);
      assert s * m == s * (m - 1) + s;
      assert s * m == s * m + 0;
      DivModOf(s * m, m, 0, s);
    }
  }

  /** Selecting keeps order and membership. */
  lemma {:induction false} SelectFacts(items: seq<nat>, flags: seq<bool>, s: nat)
    requires |flags| <= |items| && Increasing(items) && s > 0 && AllMultiples(items, s)
    ensures Increasing(Select(items, flags)) && AllMultiples(Select(items, flags), s)
    ensures forall x :: x in Select(items, flags) ==> x in items[..|flags|]
    decreases flags
  {
    if flags == [] {
    } else {
      var m := |flags| - 1;
      SelectFacts(items[..m], flags[..m], s);
      var before := Select(items[..m], flags[..m]);
      assert items[..m][..m] == items[..m] && items[..|flags|] == items[..m] + [items[m]];
      forall i | 0 <= i < |before| ensures before[i] < items[m] {
        assert before[i] in items[..m];
      }
    }
  }

  predicate AllTrue(flags: seq<bool>) { forall i :: 0 <= i < |flags| ==> flags[i] }

  /** Nothing is lost if and only if every flag is set. */
  lemma {:induction false} SelectAll<T>(items: seq<T>, flags: seq<bool>)
    requires |flags| <= |items|
    ensures |Select(items, flags)| <= |flags|
    ensures |Select(items, flags)| == |flags| <==> AllTrue(flags)
    ensures AllTrue(flags) ==> Select(items, flags) == items[..|flags|]
    decreases flags
  {
    if flags == [] {
    } else {
      var m := |flags| - 1;
      SelectAll(items[..m], flags[..m]);
      assert items[..m][..m] == items[..m] && items[..|flags|] == items[..m] + [items[m]];
      assert AllTrue(flags) <==> AllTrue(flags[..m]) && flags[m] by {
        assert forall i :: 0 <= i < m ==> flags[..m][i] == flags[i];
      }
    }
  }

  /** Over every interleaving, drained ids are strictly increasing multiples of the sampling
      rate.  Between calls of the recording thread, the accepted ids are exactly s, 2s, ... up
      to the number of operations recorded in the run if and only if no push met a full buffer; drained
      ids are a prefix of the accepted ones, and all of them once the buffer is empty. */
  lemma SampledIds(buffer: seq<nat>, sampling: nat, steps: seq<TrackStep>)
    requires |buffer| > 0 && sampling > 0 && CanRun(Fresh(buffer, sampling), steps)
    ensures var t := RunTracked(Fresh(buffer, sampling), steps);
            var r := t.ring;
            Increasing(r.popped) && AllMultiples(r.popped, sampling) &&
            (r.producer.PIdle? ==>
               (AllTrue(r.outcomes) <==> r.accepted == Multiples(sampling, Recorded(steps) / sampling))) &&
            r.popped <= r.accepted && (r.pops == r.pushes ==> r.popped == r.accepted)
  {
    InitInv(buffer);
    var t0 := Fresh(buffer, sampling);
    DivModOf(0, 0, 0, sampling);
    TrackRunInv(t0, steps);
    var t := RunTracked(t0, steps);
    MultiplesFacts(sampling, t.nextId / sampling);
    HistoryIds(t.ring, sampling);
    assert t.ring.accepted[..|t.ring.accepted|] == t.ring.accepted;
  }

  lemma HistoryIds(r: Ring<nat>, s: nat)
    requires s > 0 && History(r) && Increasing(r.offered) && AllMultiples(r.offered, s)
    ensures Increasing(r.popped) && AllMultiples(r.popped, s) && r.popped <= r.accepted
    ensures |r.outcomes| == |r.offered| ==> (AllTrue(r.outcomes) <==> r.accepted == r.offered)
  {
    var done := r.offered[..|r.outcomes|];
    SelectFacts(done, r.outcomes, s);
    SelectAll(done, r.outcomes);
  }

  // ------------------------------------------------------------ undisturbed calls

  /** Buffered ids after operation number `id`, when nothing interferes: every `s`-th operation
      appends its number if fewer than `n - 1` are held. */
  function Sampled(ids: seq<nat>, id: nat, s: nat, n: nat): seq<nat>
    requires s > 0
  {
    if id % s == 0 && |ids| + 1 < n then ids + [id] else ids
  }

  /** The steps of recording one operation without interference. */
  function RecordSteps(t: Tracked): seq<TrackStep>
    requires t.sampling > 0
  {
    var r := t.ring;
    if !Due(t) then [Record] + []
    else if r.pushes - r.pops + 1 < |r.buffer| then
      [Record] + ([Inner(LoadTail(r.pops))] + ([Inner(WriteSlot)] + ([Inner(StoreHead)] + [])))
    else [Record] + ([Inner(LoadTail(r.pops))] + [])
  }

  /** Recording without interference is a run of the protocol, with the effect that
      `LocalTracker.Log` has on its buffer. */
  lemma RecordUndisturbed(t: Tracked)
    requires TrackInv(t) && t.ring.producer.PIdle?
    ensures var steps := RecordSteps(t);
            CanRun(t, steps) && Recorded(steps) == 1 &&
            var t' := RunTracked(t, steps);
            TrackInv(t') && t'.ring.producer.PIdle? && t'.nextId == t.nextId + 1 &&
            Contents(t'.ring) == Sampled(Contents(t.ring), t.nextId + 1, t.sampling, |t.ring.buffer|)
  {
    RecordRun(t);
    TrackRunInv(t, RecordSteps(t));
    BufferAfter(t.ring, RunTracked(t, RecordSteps(t)).ring, Appends(t));
    SampledBy(t, Contents(t.ring));
  }

  lemma SampledBy(t: Tracked, ids: seq<nat>)
    requires t.sampling > 0 && |ids| == t.ring.pushes - t.ring.pops
    ensures Sampled(ids, t.nextId + 1, t.sampling, |t.ring.buffer|) == ids + Appends(t)
  {
    assert ids + [] == ids;
  }

  /** The id that recording adds to the buffer, if any. */
  function Appends(t: Tracked): seq<nat>
    requires t.sampling > 0
  {
    if Due(t) && t.ring.pushes - t.ring.pops + 1 < |t.ring.buffer| then [t.nextId + 1] else []
  }

  lemma RecordRun(t: Tracked)
    requires t.sampling > 0 && Inv(t.ring) && t.ring.producer.PIdle?
    ensures CanRun(t, RecordSteps(t)) && Recorded(RecordSteps(t)) == 1
    ensures Pushed(t.ring, RunTracked(t, RecordSteps(t)).ring, Appends(t))
  {
    if !Due(t) {
      RecordSkipped(t);
    } else {
      StartsPush(t);
      if t.ring.pushes - t.ring.pops + 1 < |t.ring.buffer| { RecordKept(t); } else { RecordDropped(t); }
    }
  }

  /** The next operation is one of those that leave an event. */
  predicate Due(t: Tracked)
    requires t.sampling > 0
  {
    (t.nextId + 1) % t.sampling == 0
  }

  lemma RecordSkipped(t: Tracked)
    requires t.sampling > 0 && Inv(t.ring) && t.ring.producer.PIdle? && !Due(t)
    ensures CanRun(t, [Record] + []) && Recorded([Record] + []) == 1
    ensures Pushed(t.ring, RunTracked(t, [Record] + []).ring, [])
  {
    assert TakeStep(t, Record) == t.(nextId := t.nextId + 1);
    RunCons(t, Record, []);
  }

  ghost predicate Starts(t: Tracked) {
    t.sampling > 0 && |t.ring.buffer| > 0 && t.ring.producer.PIdle? &&
    TakeStep(t, Record) == t.(nextId := t.nextId + 1, ring := Apply(t.ring, BeginPush(t.nextId + 1)))
  }

  lemma StartsPush(t: Tracked)
    requires t.sampling > 0 && |t.ring.buffer| > 0 && t.ring.producer.PIdle? && Due(t)
    ensures Starts(t)
  {}

  /** The push of `items` (one or none) is complete. */
  ghost predicate Pushed(r: Ring<nat>, r': Ring<nat>, items: seq<nat>) {
    Inv(r') && r'.producer.PIdle? && r'.accepted == r.accepted + items && r'.pops == r.pops && |r'.buffer| == |r.buffer|
  }

  lemma BufferAfter(r: Ring<nat>, r': Ring<nat>, items: seq<nat>)
    requires Inv(r) && Pushed(r, r', items)
    ensures Contents(r') == Contents(r) + items && |Contents(r)| == r.pushes - r.pops
  {
    ContentsAccepted(r);
    ContentsAccepted(r');
  }

  lemma RecordKept(t: Tracked)
    requires Starts(t) && Inv(t.ring) && t.ring.pushes - t.ring.pops + 1 < |t.ring.buffer|
    ensures var steps := [Record] + ([Inner(LoadTail(t.ring.pops))] + ([Inner(WriteSlot)] + ([Inner(StoreHead)] + [])));
            CanRun(t, steps) && Recorded(steps) == 1 && Pushed(t.ring, RunTracked(t, steps).ring, [t.nextId + 1])
  {
    var r1 := Began(t.ring, t.nextId + 1);
    var r2 := SawRoom(r1);
    var r3, r4 := Completed(r2);
    InnerThree(t.(nextId := t.nextId + 1, ring := r1), LoadTail(t.ring.pops), WriteSlot, StoreHead, r2, r3, r4);
    RunCons(t, Record, [Inner(LoadTail(t.ring.pops))] + ([Inner(WriteSlot)] + ([Inner(StoreHead)] + [])));
  }

  lemma RecordDropped(t: Tracked)
    requires Starts(t) && Inv(t.ring) && t.ring.pushes - t.ring.pops + 1 >= |t.ring.buffer|
    ensures var steps := [Record] + ([Inner(LoadTail(t.ring.pops))] + []);
            CanRun(t, steps) && Recorded(steps) == 1 && Pushed(t.ring, RunTracked(t, steps).ring, [])
  {
    var r1 := Began(t.ring, t.nextId + 1);
    var r2 := SawFull(r1);
    RunCons(t.(nextId := t.nextId + 1, ring := r1), Inner(LoadTail(t.ring.pops)), []);
    RunCons(t, Record, [Inner(LoadTail(t.ring.pops))] + []);
  }

  lemma InnerThree(t: Tracked, a: Step<nat>, b: Step<nat>, c: Step<nat>, r1: Ring<nat>, r2: Ring<nat>, r3: Ring<nat>)
    requires t.sampling > 0 && |t.ring.buffer| > 0 && |r1.buffer| > 0 && |r2.buffer| > 0 && |r3.buffer| > 0
    requires !a.BeginPush? && !b.BeginPush? && !c.BeginPush?
    requires Enabled(t.ring, a) && r1 == Apply(t.ring, a) && Enabled(r1, b) && r2 == Apply(r1, b) && Enabled(r2, c) && r3 == Apply(r2, c)
    ensures var steps := [Inner(a)] + ([Inner(b)] + ([Inner(c)] + []));
            CanRun(t, steps) && Recorded(steps) == 0 && RunTracked(t, steps) == t.(ring := r3)
  {
    RunCons(t.(ring := r2), Inner(c), []);
    RunCons(t.(ring := r1), Inner(b), [Inner(c)] + []);
    RunCons(t, Inner(a), [Inner(b)] + ([Inner(c)] + []));
  }

  lemma Began(r: Ring<nat>, id: nat) returns (r1: Ring<nat>)
    requires Inv(r) && r.producer.PIdle?
    ensures r1 == Apply(r, BeginPush(id)) && Inv(r1) && r1.producer == PLoadTail(id, r.head) && r1.accepted == r.accepted
    ensures r1.pops == r.pops && r1.pushes == r.pushes && r1.head == r.head && |r1.buffer| == |r.buffer| && r1.seenPops == r.seenPops
  {
    r1 := Apply(r, BeginPush(id));
    PushStep(r, BeginPush(id));
  }

  /** With an up-to-date tail, a push goes on when fewer than N - 1 items are held ... */
  lemma SawRoom(r: Ring<nat>) returns (r2: Ring<nat>)
    requires Inv(r) && r.producer.PLoadTail? && r.pushes - r.pops + 1 < |r.buffer|
    ensures Enabled(r, LoadTail(r.pops)) && r2 == Apply(r, LoadTail(r.pops)) && Inv(r2) && r2.producer.PWrite?
    ensures r2.producer.item == r.producer.item && r2.accepted == r.accepted && r2.pops == r.pops && |r2.buffer| == |r.buffer|
  {
    ModSucc(r.pushes, |r.buffer|);
    if (r.pushes + 1) % |r.buffer| == r.pops % |r.buffer| { ModInjective(r.pops, r.pushes + 1, |r.buffer|); }
    r2 := Apply(r, LoadTail(r.pops));
    PushStep(r, LoadTail(r.pops));
  }

  /** ... and is dropped when N - 1 are. */
  lemma SawFull(r: Ring<nat>) returns (r2: Ring<nat>)
    requires Inv(r) && r.producer.PLoadTail? && r.pushes - r.pops + 1 >= |r.buffer|
    ensures Enabled(r, LoadTail(r.pops)) && r2 == Apply(r, LoadTail(r.pops)) && Inv(r2) && r2.producer.PIdle?
    ensures r2.accepted == r.accepted && r2.pops == r.pops && |r2.buffer| == |r.buffer|
  {
    ModSucc(r.pushes, |r.buffer|);
    AddMultiple(r.pops, 1, |r.buffer|);
    r2 := Apply(r, LoadTail(r.pops));
    PushStep(r, LoadTail(r.pops));
  }

  lemma Completed(r: Ring<nat>) returns (r3: Ring<nat>, r4: Ring<nat>)
    requires Inv(r) && r.producer.PWrite?
    ensures Enabled(r, WriteSlot) && r3 == Apply(r, WriteSlot) && |r3.buffer| == |r.buffer|
    ensures Enabled(r3, StoreHead) && r4 == Apply(r3, StoreHead) && Pushed(r, r4, [r.producer.item])
  {
    r3 := Apply(r, WriteSlot);
    PushStep(r, WriteSlot);
    r4 := Apply(r3, StoreHead);
    PushStep(r3, StoreHead);
  }

  lemma RunCons(t: Tracked, s: TrackStep, rest: seq<TrackStep>)
    requires |t.ring.buffer| > 0 && t.sampling > 0 && CanStep(t, s)
    requires var t1 := TakeStep(t, s); |t1.ring.buffer| > 0 && t1.sampling > 0 && CanRun(t1, rest)
    ensures CanRun(t, [s] + rest) && RunTracked(t, [s] + rest) == RunTracked(TakeStep(t, s), rest)
    ensures Recorded([s] + rest) == (if s.Record? then 1 else 0) + Recorded(rest)
  {
    assert ([s] + rest)[0] == s && ([s] + rest)[1..] == rest;
  }

  lemma NextIndex(i: nat, n: nat)
    requires i < n
    ensures (i + 1) % n == if i + 1 == n then 0 else i + 1
  {
    if i + 1 == n { DivModOf(i + 1, 1, 0, n); } else { DivModOf(i + 1, 0, i + 1, n); }
  }

  /** `RingBuffer` when its methods do not overlap. */
  class RingBuffer<T(0)> {
    const data: array<T>
    var head: nat
    var tail: nat

    ghost predicate Valid()
      reads this
    {
      data.Length > 0 && head < data.Length && tail < data.Length
    }

    /** Items held, oldest first. */
    ghost function Items(): seq<T>
      requires Valid()
      reads this, data
    {
      if tail <= head then data[tail..head] else data[tail..] + data[..head]
    }

    constructor (n: nat)
      requires n > 0
      ensures Valid() && Items() == [] && fresh(data) && data.Length == n
    {
      data := new T[n];
      head, tail := 0, 0;
    }

    /** Append, or drop the item when N - 1 are held. */
    method Push(item: T)
      requires Valid()
      modifies this`head, data
      ensures Valid()
      ensures Items() == if |old(Items())| < data.Length - 1 then old(Items()) + [item] else old(Items())
    {
      NextIndex(head, data.Length);
      var nextHead := (head + 1) % data.Length;
      if nextHead != tail {
        data[head] := item;
        head := nextHead;
      }
    }

    /** Remove the oldest item; `ok` is false exactly when there is none. */
    method Pop(previous: T) returns (ok: bool, item: T)
      requires Valid()
      modifies this`tail
      ensures Valid() && ok == (old(Items()) != [])
      ensures if ok then item == old(Items())[0] && Items() == old(Items())[1..] else item == previous && Items() == []
    {
      if tail == head {
        return false, previous;
      }
      NextIndex(tail, data.Length);
      item := data[tail];
      tail := (tail + 1) % data.Length;
      ok := true;
    }
  }

  datatype Event = Event(isAlloc: bool, offset: int, actualSize: nat, id: nat,
                         totalAllocated: int, totalFree: int, freeBlockCount: int)

  function Ids(events: seq<Event>): (r: seq<nat>)
    ensures |r| == |events| && forall i :: 0 <= i < |r| ==> r[i] == events[i].id
  {
    seq(|events|, i requires 0 <= i < |events| => events[i].id)
  }

  lemma MoveOne(drained: seq<Event>, before: seq<Event>, e: Event, rest: seq<Event>)
    requires before != [] && e == before[0] && rest == before[1..]
    ensures drained + before == (drained + [e]) + rest
  {
    assert before == [e] + rest;
  }

  /** `LocalTracker`; the allocator's statistics arrive as arguments. */
  class LocalTracker {
    const events: RingBuffer<Event>
    const sampling: nat
    var nextEventId: nat

    ghost predicate Valid()
      reads this, events
    {
      events.Valid() && sampling > 0
    }

    constructor (capacity: nat, sampling: nat)
      requires capacity > 0 && sampling > 0
      ensures Valid() && events.Items() == [] && nextEventId == 0 && this.sampling == sampling
      ensures fresh(events) && fresh(events.data) && events.data.Length == capacity
    {
      events := new RingBuffer<Event>(capacity);
      this.sampling := sampling;
      nextEventId := 0;
    }

    /** `record_alloc` and `record_dealloc`: every `sampling`-th operation leaves an event. */
    method Log(isAlloc: bool, offset: int, actualSize: nat, totalAllocated: int, totalFree: int, freeBlockCount: int)
      requires Valid()
      modifies this`nextEventId, events`head, events.data
      ensures Valid() && nextEventId == old(nextEventId) + 1
      ensures var e := Event(isAlloc, offset, actualSize, nextEventId, totalAllocated, totalFree, freeBlockCount);
              events.Items() ==
                if nextEventId % sampling == 0 && |old(events.Items())| < events.data.Length - 1
                then old(events.Items()) + [e] else old(events.Items())
      ensures Ids(events.Items()) == Sampled(old(Ids(events.Items())), nextEventId, sampling, events.data.Length)
    {
      nextEventId := nextEventId + 1;
      if nextEventId % sampling != 0 {
        return;
      }
      events.Push(Event(isAlloc, offset, actualSize, nextEventId, totalAllocated, totalFree, freeBlockCount));
    }

    /** Move every buffered event to the end of `out`, oldest first. */
    method DrainTo(out: seq<Event>) returns (drained: seq<Event>)
      requires Valid()
      modifies events`tail
      ensures Valid() && events.Items() == [] && drained == out + old(events.Items())
    {
      drained := out;
      var evt := Event(false, 0, 0, 0, 0, 0, 0);
      var more := true;
      while more
        invariant Valid() && drained + events.Items() == out + old(events.Items())
        invariant !more ==> events.Items() == []
        decreases more, |events.Items()|
      {
        ghost var before := events.Items();
        more, evt := events.Pop(evt);
        if more {
          MoveOne(drained, before, evt, events.Items());
          drained := drained + [evt];
        }
      }
    }
  }
}
