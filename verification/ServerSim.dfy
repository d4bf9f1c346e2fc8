/** The request simulator: a client of the arena that must not leak, and the generator
that drives it.

The arena is represented by its contract: an allocation fails or yields a pointer that is
not live.  Which of the two, and which pointer, is decided by an arbitrary function
`answer` of the number of calls so far. */
module ServerSimulation {
  import opened BlockTree

  /** An allocation fails and changes nothing, or adds one fresh pointer. */
  ghost predicate Granted(live: map<int, nat>, live': map<int, nat>, p: int, size: nat) {
    if p == NULL then live' == live else p !in live && live' == live[p := size]
  }

  /** A free takes away exactly its pointer. */
  ghost predicate Returned(live: map<int, nat>, live': map<int, nat>, p: int) {
    p in live && live' == live - {p}
  }

  /** Call number `k` yields a pointer when `live` is live. */
  ghost predicate Grants(answer: nat -> int, k: nat, live: map<int, nat>) {
    answer(k) != NULL && answer(k) !in live
  }

  class ArenaContract {
    const answer: nat -> int
    var calls: nat
    var failures: nat
    var live: map<int, nat>
    /** The sizes asked for, in order. */
    ghost var requests: seq<nat>

    constructor (answer: nat -> int, live: map<int, nat>)
      ensures this.answer == answer && this.live == live && calls == 0 && failures == 0 && requests == []
    {
      this.answer, this.live, calls, failures, requests := answer, live, 0, 0, [];
    }

    method AllocRaw(size: nat) returns (p: int)
      modifies this
      ensures calls == old(calls) + 1 && requests == old(requests) + [size]
      ensures p == if Grants(answer, old(calls), old(live)) then answer(old(calls)) else NULL
      ensures Granted(old(live), live, p, size) && failures == old(failures) + (if p == NULL then 1 else 0)
    {
      p := answer(calls);
      calls := calls + 1;
      requests := requests + [size];
      if p == NULL || p in live {
        failures := failures + 1;
        return NULL;
      }
      live := live[p := size];
    }

    /** Only live pointers may be freed. */
    method DeallocRaw(p: int)
      requires p in live
      modifies this`live
      ensures Returned(old(live), live, p)
    {
      live := live - {p};
    }
  }

  datatype RequestType = Get | Post | Put | Delete | Stream

  datatype Request = Request(id: nat, kind: RequestType, payload: nat)

  datatype Status = Success | OutOfMemory

  datatype Response = Response(id: nat, status: Status, body: nat)

  datatype Buffer = Buffer(ptr: int, size: nat)

  datatype Metrics = Metrics(bytesIn: nat, bytesOut: nat, ok: nat, fail: nat)

  /** One handled request. */
  datatype Outcome = Outcome(request: Request, response: Response)

  // ------------------------------------------------------------ what a log means

  function Summary(log: seq<Outcome>): Metrics {
    if log == [] then Metrics(0, 0, 0, 0) else Recorded(Summary(log[..|log| - 1]), log[|log| - 1])
  }

  function Recorded(m: Metrics, o: Outcome): Metrics {
    var good := o.response.status == Success;
    Metrics(m.bytesIn + o.request.payload, m.bytesOut + o.response.body,
            m.ok + (if good then 1 else 0), m.fail + (if good then 0 else 1))
  }

  /** Positions of the successful requests. */
  function Successes(log: seq<Outcome>): set<nat> { set i | 0 <= i < |log| && log[i].response.status == Success }

  lemma SuccessesSplit(log: seq<Outcome>)
    requires log != []
    ensures var n := |log| - 1;
            n !in Successes(log[..n]) &&
            Successes(log) == Successes(log[..n]) + (if log[n].response.status == Success then {n} else {})
  {}

  /** Every request is counted once, as a success or as a failure. */
  lemma {:induction false} CountsExact(log: seq<Outcome>)
    ensures Summary(log).ok == |Successes(log)| && Summary(log).ok + Summary(log).fail == |log|
    decreases log
  {
    if log == [] {
      assert Successes(log) == {};
    } else {
      CountsExact(log[..|log| - 1]);
      SuccessesSplit(log);
    }
  }

  predicate Kept(o: Outcome) { o.response.status == Success && o.request.kind == Stream }

  /** Body sizes of the successful stream requests, oldest first. */
  function StreamBodies(log: seq<Outcome>): seq<nat> {
    if log == [] then []
    else StreamBodies(log[..|log| - 1]) + (if Kept(log[|log| - 1]) then [log[|log| - 1].response.body] else [])
  }

  lemma LogSnoc(log: seq<Outcome>, from: nat, o: Outcome)
    requires from <= |log|
    ensures Summary(log + [o]) == Recorded(Summary(log), o)
    ensures StreamBodies((log + [o])[from..]) == StreamBodies(log[from..]) + (if Kept(o) then [o.response.body] else [])
  {
    assert (log + [o])[..|log|] == log;
    var s := log[from..];
    assert (log + [o])[from..] == s + [o] && (s + [o])[..|s|] == s;
  }

  function Sizes(s: seq<Buffer>): (r: seq<nat>)
    ensures |r| == |s| && forall i :: 0 <= i < |s| ==> r[i] == s[i].size
  {
    seq(|s|, i requires 0 <= i < |s| => s[i].size)
  }

  lemma SizesSnoc(s: seq<Buffer>, b: Buffer)
    ensures Sizes(s + [b]) == Sizes(s) + [b.size]
  {}

  /** The outcome belongs to request `id`: kind, payload and response size are those of the traffic. */
  predicate Handled(o: Outcome, id: nat, traffic: nat -> (RequestType, nat, nat)) {
    o.request == Request(id, traffic(id).0, traffic(id).1) && o.response.id == id &&
    o.response.body == if o.response.status == Success then traffic(id).2 else 0
  }

  /** `after` extends `before` by `n` requests with consecutive ids from `first`. */
  predicate Appended(before: seq<Outcome>, after: seq<Outcome>, first: nat, n: nat, traffic: nat -> (RequestType, nat, nat)) {
    before <= after && |after| == |before| + n && AllHandled(after[|before|..], first, traffic)
  }

  predicate AllHandled(s: seq<Outcome>, first: nat, traffic: nat -> (RequestType, nat, nat)) {
    s == [] || (Handled(s[|s| - 1], first + |s| - 1, traffic) && AllHandled(s[..|s| - 1], first, traffic))
  }

  lemma {:induction false} HandledJoin(s: seq<Outcome>, t: seq<Outcome>, first: nat, traffic: nat -> (RequestType, nat, nat))
    requires AllHandled(s, first, traffic) && AllHandled(t, first + |s|, traffic)
    ensures AllHandled(s + t, first, traffic)
    decreases t
  {
    if t == [] {
      assert s + t == s;
    } else {
      var front := t[..|t| - 1];
      HandledJoin(s, front, first, traffic);
      assert (s + t)[..|s + t| - 1] == s + front;
    }
  }

  lemma AppendedOne(log: seq<Outcome>, o: Outcome, id: nat, traffic: nat -> (RequestType, nat, nat))
    requires Handled(o, id, traffic)
    ensures Appended(log, log + [o], id, 1, traffic)
  {
    assert (log + [o])[|log|..] == [o] && [o][..0] == [];
  }

  /** Every request of the stretch has its id and its traffic. */
  lemma {:induction false} HandledAt(s: seq<Outcome>, first: nat, traffic: nat -> (RequestType, nat, nat), i: nat)
    requires AllHandled(s, first, traffic) && i < |s|
    ensures Handled(s[i], first + i, traffic)
    decreases s
  {
    if i == |s| - 1 {
    } else {
      HandledAt(s[..|s| - 1], first, traffic, i);
    }
  }

  lemma AppendedJoin(a: seq<Outcome>, b: seq<Outcome>, c: seq<Outcome>, first: nat, n: nat, k: nat,
                     traffic: nat -> (RequestType, nat, nat))
    requires Appended(a, b, first, n, traffic) && Appended(b, c, first + n, k, traffic)
    ensures Appended(a, c, first, n + k, traffic)
  {
    HandledJoin(b[|a|..], c[|b|..], first, traffic);
    assert c[|a|..] == b[|a|..] + c[|b|..];
  }

  predicate Distinct(s: seq<Buffer>) {
    forall i, j :: 0 <= i < j < |s| ==> s[i].ptr != s[j].ptr
  }

  /** `live` is `others` together with the buffers, each once. */
  ghost predicate Holds(live: map<int, nat>, others: map<int, nat>, s: seq<Buffer>) {
    Distinct(s) &&
    (forall i :: 0 <= i < |s| ==> s[i].ptr !in others && s[i].ptr in live && live[s[i].ptr] == s[i].size) &&
    (forall p :: p in others ==> p in live && live[p] == others[p]) &&
    (forall p :: p in live ==> p in others || exists i :: 0 <= i < |s| && s[i].ptr == p)
  }

  lemma HoldsNone(live: map<int, nat>, others: map<int, nat>, s: seq<Buffer>)
    requires Holds(live, others, s) && s == []
    ensures live == others
  {
    assert forall p :: p in live <==> p in others;
    assert forall p :: p in live ==> live[p] == others[p];
    assert live.Keys <= others.Keys;
    assert others.Keys <= live.Keys;
  }

  /** A buffer that is allocated and kept. */
  lemma HoldsMore(live: map<int, nat>, others: map<int, nat>, s: seq<Buffer>, b: Buffer)
    requires Holds(live, others, s) && b.ptr !in live
    ensures Holds(live[b.ptr := b.size], others, s + [b])
  {
    var live', s' := live[b.ptr := b.size], s + [b];
    assert s'[|s|] == b;
    forall p | p in live' ensures p in others || exists i :: 0 <= i < |s'| && s'[i].ptr == p {
      if p != b.ptr && p !in others {
        var i :| 0 <= i < |s| && s[i].ptr == p;
        assert s'[i].ptr == p;
      }
    }
  }

  /** A buffer that is allocated and freed again leaves no trace. */
  lemma Undone(live: map<int, nat>, p: int, n: nat)
    requires p !in live
    ensures live[p := n] - {p} == live
  {}

  /** Two buffers, the first freed before the second. */
  lemma UndoneFirst(live: map<int, nat>, p: int, n: nat, q: int, k: nat)
    requires p !in live && q !in live && p != q
    ensures live[p := n][q := k] - {p} == live[q := k]
  {}

  /** Freeing the first buffer leaves the rest. */
  lemma HoldsFewer(live: map<int, nat>, others: map<int, nat>, s: seq<Buffer>)
    requires Holds(live, others, s) && s != []
    ensures Holds(live - {s[0].ptr}, others, s[1..])
  {
    var live', s' := live - {s[0].ptr}, s[1..];
    assert forall i :: 0 <= i < |s'| ==> s'[i] == s[i + 1];
    forall p | p in live' ensures p in others || exists i :: 0 <= i < |s'| && s'[i].ptr == p {
      if p !in others {
        var i :| 0 <= i < |s| && s[i].ptr == p;
        assert i > 0 && s'[i - 1].ptr == p;
      }
    }
  }

  // ------------------------------------------------------------ the server

  class ServerSim {
    const arena: ArenaContract
    var streams: seq<Buffer>
    var metrics: Metrics
    /** Blocks of other clients, every handled request, and how many a clean-up has covered. */
    ghost const others: map<int, nat>
    ghost var log: seq<Outcome>
    ghost var cleaned: nat

    ghost predicate Valid()
      reads this, arena
    {
      Holds(arena.live, others, streams) && metrics == Summary(log) &&
      cleaned <= |log| && Sizes(streams) == StreamBodies(log[cleaned..])
    }

    constructor (arena: ArenaContract)
      ensures Valid() && this.arena == arena && others == arena.live && streams == [] && log == []
    {
      this.arena, streams, metrics := arena, [], Metrics(0, 0, 0, 0);
      others, log, cleaned := arena.live, [], 0;
    }

    /** A request asks for its payload, if any, and then for its response; it succeeds exactly if
        everything it asks for is granted, and leaves behind exactly its stream buffer, if any. */
    method HandleRequest(req: Request, responseSize: nat) returns (r: Response)
      requires Valid()
      modifies this, arena
      ensures Valid() && log == old(log) + [Outcome(req, r)] && cleaned == old(cleaned)
      ensures r == Response(req.id, r.status, if r.status == Success then responseSize else 0)
      ensures arena.failures == old(arena.failures) + (if r.status == Success then 0 else 1)
      ensures metrics.bytesIn == old(metrics.bytesIn) + req.payload && metrics.bytesOut == old(metrics.bytesOut) + r.body
      ensures !Kept(Outcome(req, r)) ==> streams == old(streams) && arena.live == old(arena.live)
      ensures Kept(Outcome(req, r)) ==> |streams| == |old(streams)| + 1 && streams[..|old(streams)|] == old(streams)
      ensures var received := req.payload == 0 || Grants(arena.answer, old(arena.calls), old(arena.live));
              arena.requests == old(arena.requests) + (if req.payload > 0 then [req.payload] else []) +
                                (if received then [responseSize] else []) &&
              arena.calls - old(arena.calls) == |arena.requests| - |old(arena.requests)| &&
              (r.status == Success <==> received && ResponseGranted(arena.answer, old(arena.calls), old(arena.live), req.payload))
    {
      ghost var before := arena.live;
      var ok, reqBuf := Receive(req.payload);
      if !ok {
        r := Response(req.id, OutOfMemory, 0);
        Record(req, r);
        return;
      }
      var respBuf := arena.AllocRaw(responseSize);
      if respBuf == NULL {
        if reqBuf != NULL { arena.DeallocRaw(reqBuf); }
        assert arena.live == before;
        r := Response(req.id, OutOfMemory, 0);
        Record(req, r);
        return;
      }
      r := Response(req.id, Success, responseSize);
      Finish(req, r, reqBuf, respBuf, before);
    }

    /** The request buffer, for a payload that is not empty. */
    method Receive(payload: nat) returns (ok: bool, buf: int)
      modifies arena
      ensures ok == (payload == 0 || Grants(arena.answer, old(arena.calls), old(arena.live)))
      ensures arena.requests == old(arena.requests) + (if payload > 0 then [payload] else [])
      ensures arena.calls == old(arena.calls) + (if payload > 0 then 1 else 0)
      ensures arena.failures == old(arena.failures) + (if ok then 0 else 1)
      ensures buf == (if ok && payload > 0 then arena.answer(old(arena.calls)) else NULL)
      ensures arena.live == (if buf != NULL then old(arena.live)[buf := payload] else old(arena.live))
      ensures (buf != NULL <==> ok && payload > 0) && (buf != NULL ==> buf !in old(arena.live))
    {
      ok, buf := true, NULL;
      if payload > 0 {
        buf := arena.AllocRaw(payload);
        if buf == NULL { ok := false; }
      }
    }

    /** The response is granted after the payload, if any, has been. */
    ghost predicate ResponseGranted(answer: nat -> int, calls: nat, live: map<int, nat>, payload: nat) {
      if payload == 0 then Grants(answer, calls, live) else Grants(answer, calls + 1, live[answer(calls) := payload])
    }

    /** The request buffer goes, the response buffer stays for a stream; `before` is what
        was live when the request came in. */
    method Finish(req: Request, r: Response, reqBuf: int, respBuf: int, ghost before: map<int, nat>)
      requires Holds(before, others, streams) && metrics == Summary(log) && r.status == Success
      requires cleaned <= |log| && Sizes(streams) == StreamBodies(log[cleaned..])
      requires respBuf !in before && reqBuf !in before - {NULL} && reqBuf != respBuf
      requires arena.live == (if reqBuf == NULL then before else before[reqBuf := req.payload])[respBuf := r.body]
      modifies this`streams, this`metrics, this`log, arena`live
      ensures Valid() && log == old(log) + [Outcome(req, r)]
      ensures metrics.bytesIn == old(metrics.bytesIn) + req.payload && metrics.bytesOut == old(metrics.bytesOut) + r.body
      ensures req.kind != Stream ==> streams == old(streams) && arena.live == before
      ensures req.kind == Stream ==> streams == old(streams) + [Buffer(respBuf, r.body)]
    {
      if reqBuf != NULL {
        arena.DeallocRaw(reqBuf);
        UndoneFirst(before, reqBuf, req.payload, respBuf, r.body);
      }
      assert arena.live == before[respBuf := r.body];
      if req.kind == Stream {
        SizesSnoc(streams, Buffer(respBuf, r.body));
        HoldsMore(before, others, streams, Buffer(respBuf, r.body));
        streams := streams + [Buffer(respBuf, r.body)];
      } else {
        arena.DeallocRaw(respBuf);
        Undone(before, respBuf, r.body);
      }
      assert Holds(arena.live, others, streams);
      Record(req, r);
    }

    /** Metrics, and the ghost log they summarise. */
    method Record(req: Request, r: Response)
      requires metrics == Summary(log) && cleaned <= |log|
      modifies this`metrics, this`log
      ensures log == old(log) + [Outcome(req, r)] && metrics == Summary(log)
      ensures metrics.bytesIn == old(metrics.bytesIn) + req.payload && metrics.bytesOut == old(metrics.bytesOut) + r.body
      ensures StreamBodies(log[cleaned..]) ==
              old(StreamBodies(log[cleaned..])) + (if Kept(Outcome(req, r)) then [r.body] else [])
    {
      LogSnoc(log, cleaned, Outcome(req, r));
      Count(req, r);
      log := log + [Outcome(req, r)];
    }

    method Count(req: Request, r: Response)
      modifies this`metrics
      ensures metrics == Recorded(old(metrics), Outcome(req, r))
    {
      if r.status == Success {
        metrics := Metrics(metrics.bytesIn + req.payload, metrics.bytesOut + r.body, metrics.ok + 1, metrics.fail);
      } else {
        metrics := Metrics(metrics.bytesIn + req.payload, metrics.bytesOut + r.body, metrics.ok, metrics.fail + 1);
      }
    }

    /** Every stream buffer is freed once, and nothing else. */
    method CleanupStreams()
      requires Valid()
      modifies this`streams, this`cleaned, arena
      ensures Valid() && streams == [] && arena.live == others && cleaned == |log|
      ensures arena.failures == old(arena.failures)
    {
      for i := 0 to |streams|
        invariant streams == old(streams) && Holds(arena.live, others, streams[i..])
        invariant arena.failures == old(arena.failures)
      {
        assert streams[i..][0] == streams[i] && streams[i..][1..] == streams[i + 1..];
        HoldsFewer(arena.live, others, streams[i..]);
        arena.DeallocRaw(streams[i].ptr);
      }
      assert streams[|streams|..] == [];
      streams := [];
      HoldsNone(arena.live, others, streams);
      cleaned := |log|;
      assert log[cleaned..] == [];
    }
  }

  // ------------------------------------------------------------ the generator

  datatype Pattern = Steady | Burst | Ramp | Mixed

  function Min(a: nat, b: nat): nat { if a < b then a else b }

  /** What is left of `remaining` after `k` rounds of the burst loop. */
  function AfterBursts(remaining: nat, burstSize: nat, k: nat): nat {
    if k == 0 || remaining == 0 then remaining
    else AfterBursts(remaining - Min(burstSize, remaining), burstSize, k - 1)
  }

  /** The burst loop finishes if and only if there is nothing to send or bursts are not empty. */
  lemma {:induction false} BurstsFinish(total: nat, burstSize: nat)
    ensures (exists k :: AfterBursts(total, burstSize, k) == 0) <==> total == 0 || burstSize > 0
  {
    if total > 0 && burstSize == 0 {
      forall k: nat ensures AfterBursts(total, burstSize, k) == total { BurstStuck(total, k); }
    } else {
      BurstDone(total, burstSize);
    }
  }

  lemma {:induction false} BurstStuck(total: nat, k: nat)
    ensures AfterBursts(total, 0, k) == total
    decreases k
  {
    if k == 0 || total == 0 {
    } else {
      BurstStuck(total, k - 1);
    }
  }

  lemma {:induction false} BurstDone(total: nat, burstSize: nat)
    requires total == 0 || burstSize > 0
    ensures AfterBursts(total, burstSize, total) == 0
    decreases total
  {
    if total == 0 {
    } else {
      var next := total - Min(burstSize, total);
      BurstDone(next, burstSize);
      MoreRounds(next, burstSize, next, total - 1);
    }
  }

  lemma {:induction false} MoreRounds(remaining: nat, burstSize: nat, k: nat, n: nat)
    requires k <= n && AfterBursts(remaining, burstSize, k) == 0
    ensures AfterBursts(remaining, burstSize, n) == 0
    decreases k
  {
    if k == 0 || remaining == 0 {
    } else {
      MoreRounds(remaining - Min(burstSize, remaining), burstSize, k - 1, n - 1);
    }
  }

  class RequestGenerator {
    const pattern: Pattern
    const total: nat
    const burstSize: nat
    /** Random choices: kind, payload and response size of each request id. */
    const traffic: nat -> (RequestType, nat, nat)
    var nextId: nat

    constructor (pattern: Pattern, total: nat, burstSize: nat, traffic: nat -> (RequestType, nat, nat))
      ensures this.pattern == pattern && this.total == total && this.burstSize == burstSize && nextId == 1
      ensures this.traffic == traffic
    {
      this.pattern, this.total, this.burstSize, this.traffic, nextId := pattern, total, burstSize, traffic, 1;
    }

    /** Sends `n` requests with consecutive ids. */
    method Send(server: ServerSim, n: nat)
      requires server.Valid()
      modifies this, server, server.arena
      ensures server.Valid() && nextId == old(nextId) + n && server.cleaned == old(server.cleaned)
      ensures Appended(old(server.log), server.log, old(nextId), n, traffic)
    {
      for i := 0 to n
        invariant server.Valid() && nextId == old(nextId) + i && server.cleaned == old(server.cleaned)
        invariant Appended(old(server.log), server.log, old(nextId), i, traffic)
      {
        ghost var log := server.log;
        SendOne(server);
        AppendedJoin(old(server.log), log, server.log, old(nextId), i, 1, traffic);
      }
    }

    method SendOne(server: ServerSim)
      requires server.Valid()
      modifies this, server, server.arena
      ensures server.Valid() && nextId == old(nextId) + 1 && server.cleaned == old(server.cleaned)
      ensures Appended(old(server.log), server.log, old(nextId), 1, traffic)
    {
      var id := nextId;
      nextId := nextId + 1;
      var choice := traffic(id);
      var r := server.HandleRequest(Request(id, choice.0, choice.1), choice.2);
      AppendedOne(old(server.log), Outcome(Request(id, choice.0, choice.1), r), id, traffic);
    }

    method RunBurst(server: ServerSim)
      requires server.Valid() && (total == 0 || burstSize > 0)
      modifies this, server, server.arena
      ensures server.Valid() && nextId == old(nextId) + total
      ensures Appended(old(server.log), server.log, old(nextId), total, traffic)
    {
      var remaining: nat := total;
      while remaining > 0
        invariant remaining <= total && server.Valid() && nextId == old(nextId) + (total - remaining)
        invariant Appended(old(server.log), server.log, old(nextId), total - remaining, traffic)
      {
        var batch := Min(burstSize, remaining);
        ghost var log := server.log;
        Send(server, batch);
        AppendedJoin(old(server.log), log, server.log, old(nextId), total - remaining, batch, traffic);
        remaining := remaining - batch;
      }
    }

    /** Exactly `total` consecutive ids, for every burst size: an empty burst phase is
        followed by a phase that sends at least one request. */
    method RunMixed(server: ServerSim)
      requires server.Valid()
      modifies this, server, server.arena
      ensures server.Valid() && nextId == old(nextId) + total
      ensures Appended(old(server.log), server.log, old(nextId), total, traffic)
    {
      var remaining: nat, phase: nat := total, 0;
      while remaining > 0
        invariant remaining <= total && server.Valid() && nextId == old(nextId) + (total - remaining)
        invariant Appended(old(server.log), server.log, old(nextId), total - remaining, traffic)
        decreases remaining, if phase % 3 == 0 then 1 else 0
      {
        var batch;
        if phase % 3 == 0 {
          batch := Min(burstSize, Min(remaining, Max(1, remaining / 5)));
        } else {
          batch := Min(Max(1, remaining / 10), remaining);
        }
        ghost var log := server.log;
        Send(server, batch);
        AppendedJoin(old(server.log), log, server.log, old(nextId), total - remaining, batch, traffic);
        remaining := remaining - batch;
        phase := phase + 1;
      }
    }

    /** A whole run sends `total` consecutive ids and leaves no buffer behind. */
    method Run(server: ServerSim)
      requires server.Valid() && (pattern == Burst ==> total == 0 || burstSize > 0)
      modifies this, server, server.arena
      ensures server.Valid() && server.streams == [] && server.arena.live == server.others
      ensures Appended(old(server.log), server.log, old(nextId), total, traffic)
    {
      match pattern {
        case Steady => Send(server, total);
        case Burst => RunBurst(server);
        case Ramp => Send(server, total);
        case Mixed => RunMixed(server);
      }
      server.CleanupStreams();
    }
  }
}
