/**
 The packet dispatcher: `Process` initialises every registered stream, routes
 each packet it reads to the stream of its index, then flushes all streams and
 then cleans them up. What other threads do to the stop flag enters as the
 number of reads after which the flag is seen set.
 */
module Transcoder {
  import opened Arith
  import opened Wrappers
  import opened AudioFlow
  import AudioLaws
  import TransState

  /** A registered worker. For video the model keeps the packets that were handed over. */
  datatype Stream =
    | AudioStream(setup: Setup, clock: Clock, worker: Worker)
    | VideoStream(handed: seq<Packet>)

  datatype DemuxPacket = DemuxPacket(index: int, packet: Packet)

  datatype Event =
    | Inited(index: int)
    | Flowed(index: int, packet: Packet)
    | Flushed(index: int)
    | Cleaned(index: int, final: Stream)

  /** The map from stream index to object; a reset pointer stays in it as `None`. */
  type PidMap = map<int, Option<Stream>>

  predicate Usable(s: Stream)
  {
    s.AudioStream? ==> s.setup.Valid() && Progress(s.worker.decoder)
  }

  predicate AllUsable(m: PidMap)
  {
    forall i | i in m :: m[i].Some? && Usable(m[i].value)
  }

  /** The packet can be handed to the stream: an audio packet's duration is a divisor. */
  predicate Accepts(s: Stream, p: Packet) { s.AudioStream? ==> p.duration != 0 }

  /** The packet belongs to no registered stream, or its stream accepts it. */
  predicate Accepted(m: PidMap, p: DemuxPacket)
  {
    p.index in m && m[p.index].Some? ==> Accepts(m[p.index].value, p.packet)
  }

  predicate AllAccepted(m: PidMap, ps: seq<DemuxPacket>)
  {
    forall k | 0 <= k < |ps| :: Accepted(m, ps[k])
  }

  /** The index of the first packet that is not accepted; their number if all are. */
  function FirstRefused(m: PidMap, ps: seq<DemuxPacket>): (k: nat)
    ensures k <= |ps| && AllAccepted(m, ps[..k])
    ensures k < |ps| ==> !Accepted(m, ps[k])
  {
    if ps == [] then 0
    else
      var init := ps[..|ps| - 1];
      var k := FirstRefused(m, init);
      assert init[..k] == ps[..k];
      if k < |init| || !Accepted(m, ps[|ps| - 1]) then k else |ps|
  }

  /** Every entry that is not null can be used; `AllUsable` also wants that none is null. */
  predicate AllWorking(m: PidMap)
  {
    forall i | i in m && m[i].Some? :: Usable(m[i].value)
  }

  predicate HasNull(m: PidMap) { exists i | i in m :: m[i].None? }

  predicate AcceptsAll(s: Stream, ps: seq<Packet>)
  {
    forall k | 0 <= k < |ps| :: Accepts(s, ps[k])
  }

  function InitStream(s: Stream): (s': Stream)
    requires Usable(s)
    ensures Usable(s')
  {
    match s
    case AudioStream(setup, clock, worker) =>
      AudioStream(setup, clock.(ticks := setup.FrameTicks()), worker.(fifo := []))
    case VideoStream(_) => s
  }

  function HandOver(s: Stream, p: Packet): (s': Stream)
    requires Usable(s) && Accepts(s, p)
    ensures Usable(s') && (s'.AudioStream? <==> s.AudioStream?)
  {
    match s
    case AudioStream(setup, clock, worker) => AudioStream(setup, clock, FlowPacket(setup, clock, worker, p).worker)
    case VideoStream(handed) => VideoStream(handed + [p])
  }

  // ---------- the packet loop on values ----------

  /** One turn: the packet goes to its stream; a packet of no registered stream is dropped. */
  function Route(m: PidMap, p: DemuxPacket): (m': PidMap)
    requires AllUsable(m) && AllAccepted(m, [p])
  {
    if p.index in m then
      assert [p][0] == p;
      m[p.index := Some(HandOver(m[p.index].value, p.packet))]
    else m
  }

  function Dispatch(m: PidMap, ps: seq<DemuxPacket>): (m': PidMap)
    requires AllUsable(m) && AllAccepted(m, ps)
    ensures AllUsable(m') && m'.Keys == m.Keys
    ensures forall i | i in m :: m'[i].value.AudioStream? <==> m[i].value.AudioStream?
    decreases |ps|
  {
    if ps == [] then m
    else
      var before := Dispatch(m, ps[..|ps| - 1]);
      var p := ps[|ps| - 1];
      Route(before, p)
  }

  /** The packets of one stream, in order. */
  function Select(ps: seq<DemuxPacket>, i: int): (own: seq<Packet>)
    decreases |ps|
  {
    if ps == [] then []
    else
      var p := ps[|ps| - 1];
      Select(ps[..|ps| - 1], i) + (if p.index == i then [p.packet] else [])
  }

  /** It is the subsequence at exactly the places where the index is `i`. */
  lemma {:induction false} SelectExactly(ps: seq<DemuxPacket>, i: int) returns (at: seq<nat>)
    ensures |at| == |Select(ps, i)|
    ensures forall j | 0 <= j < |at| :: at[j] < |ps| && ps[at[j]].index == i && Select(ps, i)[j] == ps[at[j]].packet
    ensures forall j, k | 0 <= j < k < |at| :: at[j] < at[k]
    ensures forall k: nat | k < |ps| && ps[k].index == i :: k in at
    decreases |ps|
  {
    at := [];
    if ps != [] {
      var n := |ps| - 1;
      at := SelectExactly(ps[..n], i);
      if ps[n].index == i {
        at := at + [n];
      }
    }
  }

  function HandAll(s: Stream, ps: seq<Packet>): (s': Stream)
    requires Usable(s) && AcceptsAll(s, ps)
    ensures Usable(s') && (s'.AudioStream? <==> s.AudioStream?)
    decreases |ps|
  {
    if ps == [] then s
    else
      HandOver(HandAll(s, ps[..|ps| - 1]), ps[|ps| - 1])
  }

  lemma {:induction false} SelectIsAccepted(m: PidMap, ps: seq<DemuxPacket>, i: int)
    requires AllUsable(m) && AllAccepted(m, ps) && i in m
    ensures AcceptsAll(m[i].value, Select(ps, i))
    decreases |ps|
  {
    if ps != [] {
      SelectIsAccepted(m, ps[..|ps| - 1], i);
    }
  }

  /** Each registered stream sees exactly the packets of its index, in order, and nothing else. */
  lemma {:induction false} DispatchIsSelection(m: PidMap, ps: seq<DemuxPacket>, i: int)
    requires AllUsable(m) && AllAccepted(m, ps) && i in m
    ensures AcceptsAll(m[i].value, Select(ps, i))
    ensures Dispatch(m, ps)[i] == Some(HandAll(m[i].value, Select(ps, i)))
    decreases |ps|
  {
    SelectIsAccepted(m, ps, i);
    if ps != [] {
      var init, p := ps[..|ps| - 1], ps[|ps| - 1];
      DispatchIsSelection(m, init, i);
      if p.index == i {
        assert Select(ps, i)[..|Select(ps, i)| - 1] == Select(init, i);
      } else {
        assert Select(ps, i) == Select(init, i);
      }
    }
  }

  lemma {:induction false} AudioHandAll(s: Stream, ps: seq<Packet>)
    requires Usable(s) && s.AudioStream? && AcceptsAll(s, ps)
    ensures forall p | p in ps :: p.duration != 0
    ensures HandAll(s, ps) == AudioStream(s.setup, s.clock, AudioLaws.Run(s.setup, s.clock, s.worker, ps))
    decreases |ps|
  {
    if ps != [] {
      AudioHandAll(s, ps[..|ps| - 1]);
    }
  }

  /** A video stream is handed its packets one after the other. */
  lemma {:induction false} VideoHandAll(s: Stream, ps: seq<Packet>)
    requires Usable(s) && s.VideoStream?
    ensures AcceptsAll(s, ps) && HandAll(s, ps) == VideoStream(s.handed + ps)
    decreases |ps|
  {
    if ps != [] {
      VideoHandAll(s, ps[..|ps| - 1]);
      assert s.handed + ps == s.handed + ps[..|ps| - 1] + [ps[|ps| - 1]];
    } else {
      assert s.handed + ps == s.handed;
    }
  }

  /**
   Two demux orders with the same packets for audio stream `i`, in the same
   order, give the same frames, timestamps, end point and FIFO remainder.
   */
  lemma InterleavingIndependence(m: PidMap, ps: seq<DemuxPacket>, qs: seq<DemuxPacket>, i: int)
    requires AllUsable(m) && AllAccepted(m, ps) && AllAccepted(m, qs)
    requires i in m && m[i].value.AudioStream? && Select(ps, i) == Select(qs, i)
    ensures Dispatch(m, ps)[i] == Dispatch(m, qs)[i]
    ensures forall p | p in Select(ps, i) :: p.duration != 0
    ensures var s := m[i].value;
            Dispatch(m, ps)[i].value.worker == AudioLaws.Run(s.setup, s.clock, s.worker, Select(ps, i))
  {
    DispatchIsSelection(m, ps, i);
    DispatchIsSelection(m, qs, i);
    AudioHandAll(m[i].value, Select(ps, i));
  }

  // ---------- the event trace ----------

  /** `order` runs through the keys of the map, each once, in some order. */
  predicate Iterates(order: seq<int>, keys: set<int>)
  {
    && (forall i, j | 0 <= i < j < |order| :: order[i] != order[j])
    && (forall k | 0 <= k < |order| :: order[k] in keys)
    && (forall i | i in keys :: i in order)
  }

  function InitEvents(order: seq<int>): (t: seq<Event>)
    ensures |t| == |order| && forall k | 0 <= k < |order| :: t[k] == Inited(order[k])
  {
    seq(|order|, k requires 0 <= k < |order| => Inited(order[k]))
  }

  function FlushEvents(order: seq<int>): (t: seq<Event>)
    ensures |t| == |order| && forall k | 0 <= k < |order| :: t[k] == Flushed(order[k])
  {
    seq(|order|, k requires 0 <= k < |order| => Flushed(order[k]))
  }

  function StreamAt(m: PidMap, i: int): (s: Stream)
    requires AllUsable(m) && i in m
  {
    m[i].value
  }

  function CleanEvents(order: seq<int>, m: PidMap): (t: seq<Event>)
    requires AllUsable(m) && Iterates(order, m.Keys)
    ensures |t| == |order| && forall k | 0 <= k < |order| :: t[k] == Cleaned(order[k], StreamAt(m, order[k]))
  {
    seq(|order|, k requires 0 <= k < |order| => Cleaned(order[k], StreamAt(m, order[k])))
  }

  /** The hand-overs, one for each packet of a registered stream. */
  function FlowEvents(keys: set<int>, ps: seq<DemuxPacket>): (t: seq<Event>)
    ensures forall e | e in t :: e.Flowed? && e.index in keys
  {
    if ps == [] then []
    else
      var p := ps[|ps| - 1];
      FlowEvents(keys, ps[..|ps| - 1]) + (if p.index in keys then [Flowed(p.index, p.packet)] else [])
  }

  /** From map `m` and trace `t`, the packet loop has reached `m'` and `t'` with the first `k` packets. */
  predicate Routed(m: PidMap, t: seq<Event>, ps: seq<DemuxPacket>, k: nat, m': PidMap, t': seq<Event>)
  {
    && k <= |ps| && AllUsable(m) && AllAccepted(m, ps[..k])
    && m' == Dispatch(m, ps[..k]) && t' == t + FlowEvents(m.Keys, ps[..k])
  }

  lemma RouteNone(m: PidMap, t: seq<Event>, ps: seq<DemuxPacket>)
    requires AllUsable(m)
    ensures Routed(m, t, ps, 0, m, t)
  {
  }

  /** One turn of the packet loop; a packet that is refused is the first one. */
  lemma RouteTurn(m: PidMap, t: seq<Event>, ps: seq<DemuxPacket>, k: nat, m': PidMap, t': seq<Event>)
    requires Routed(m, t, ps, k, m', t') && k < |ps|
    ensures ps[k].index !in m' ==> Routed(m, t, ps, k + 1, m', t')
    ensures ps[k].index in m' ==>
              var own := m'[ps[k].index];
              && own.Some? && Usable(own.value)
              && (!Accepts(own.value, ps[k].packet) ==> FirstRefused(m, ps) == k)
              && (Accepts(own.value, ps[k].packet) ==>
                    Routed(m, t, ps, k + 1, m'[ps[k].index := Some(HandOver(own.value, ps[k].packet))],
                           t' + [Flowed(ps[k].index, ps[k].packet)]))
  {
    assert ps[..k + 1][..k] == ps[..k];
    if !Accepted(m, ps[k]) {
      FirstRefusedIs(m, ps, k);
    }
  }

  lemma RouteEnd(m: PidMap, t: seq<Event>, ps: seq<DemuxPacket>, k: nat, m': PidMap, t': seq<Event>)
    requires Routed(m, t, ps, k, m', t')
    ensures k <= FirstRefused(m, ps) && AllAccepted(m, ps[..k])
    ensures m' == Dispatch(m, ps[..k]) && t' == t + FlowEvents(m.Keys, ps[..k])
  {
    AcceptedPrefix(m, ps, k);
  }

  lemma AcceptedPrefix(m: PidMap, ps: seq<DemuxPacket>, n: nat)
    requires n <= |ps| && AllAccepted(m, ps[..n])
    ensures forall k | 0 <= k < n :: Accepted(m, ps[k])
  {
    forall k | 0 <= k < n
      ensures Accepted(m, ps[k])
    {
      assert ps[..n][k] == ps[k];
    }
  }

  lemma FirstRefusedIs(m: PidMap, ps: seq<DemuxPacket>, k: nat)
    requires k <= |ps| && AllAccepted(m, ps[..k]) && (k < |ps| ==> !Accepted(m, ps[k]))
    ensures FirstRefused(m, ps) == k
  {
    AcceptedPrefix(m, ps, k);
    AcceptedPrefix(m, ps, FirstRefused(m, ps));
  }

  /** A run of the packet loop is undefined exactly if a packet of an audio stream comes with an unknown duration. */
  lemma {:induction false} RefusedExactly(m: PidMap, ps: seq<DemuxPacket>, n: nat)
    requires n <= |ps|
    ensures FirstRefused(m, ps) < n <==> exists k | 0 <= k < n :: UnknownDuration(m, ps[k])
  {
    AcceptedPrefix(m, ps, FirstRefused(m, ps));
  }

  predicate UnknownDuration(m: PidMap, p: DemuxPacket)
  {
    p.index in m && m[p.index].Some? && m[p.index].value.AudioStream? && p.packet.duration == 0
  }

  function InitAll(m: PidMap): (m': PidMap)
    requires AllUsable(m)
    ensures AllUsable(m') && m'.Keys == m.Keys
    ensures forall i | i in m :: m'[i].value.AudioStream? <==> m[i].value.AudioStream?
  {
    map i | i in m :: Some(InitStream(m[i].value))
  }

  /** The entry had an object, and that is initialised now. */
  predicate Initialised(m: PidMap, m': PidMap, i: int)
  {
    i in m && i in m' && m[i].Some? && Usable(m[i].value) && m'[i] == Some(InitStream(m[i].value))
  }

  lemma AllInitialised(m: PidMap, m': PidMap)
    requires m'.Keys == m.Keys && forall i | i in m :: Initialised(m, m', i)
    ensures AllUsable(m) && m' == InitAll(m)
  {
    forall i | i in m
      ensures m[i].Some? && Usable(m[i].value)
    {
      assert Initialised(m, m', i);
    }
    hide InitStream;
    forall i | i in m'
      ensures m'[i] == InitAll(m)[i]
    {
      assert Initialised(m, m', i);
    }
    assert m' == InitAll(m);
  }

  /** Everything that one run of `Process` does when it reads the packets `ps`. */
  function ProcessTrace(order: seq<int>, m: PidMap, ps: seq<DemuxPacket>): (t: seq<Event>)
    requires AllUsable(m) && AllAccepted(m, ps) && Iterates(order, m.Keys)
  {
    var end := Dispatch(InitAll(m), ps);
    InitEvents(order) + FlowEvents(m.Keys, ps) + FlushEvents(order) + CleanEvents(order, end)
  }

  /** Initialising a usable map keeps what the run needs of it. */
  lemma InitIsReady(order: seq<int>, m: PidMap, ps: seq<DemuxPacket>)
    requires AllUsable(m) && Iterates(order, m.Keys)
    ensures AllUsable(InitAll(m)) && InitAll(m).Keys == m.Keys
    ensures AllAccepted(InitAll(m), ps) <==> AllAccepted(m, ps)
    ensures FirstRefused(InitAll(m), ps) == FirstRefused(m, ps)
  {
    assert forall p: DemuxPacket :: Accepted(InitAll(m), p) <==> Accepted(m, p);
    FirstRefusedIs(m, ps, FirstRefused(InitAll(m), ps));
  }

  lemma TraceIs(before: seq<Event>, order: seq<int>, m: PidMap, ps: seq<DemuxPacket>)
    requires AllUsable(m) && AllAccepted(m, ps) && Iterates(order, m.Keys)
    ensures before + InitEvents(order) + FlowEvents(m.Keys, ps) + FlushEvents(order)
            + CleanEvents(order, Dispatch(InitAll(m), ps)) == before + ProcessTrace(order, m, ps)
  {
  }

  function Phase(e: Event): (n: nat)
  {
    match e case Inited(_) => 0 case Flowed(_, _) => 1 case Flushed(_) => 2 case Cleaned(_, _) => 3
  }

  /** No step of a later phase comes before one of an earlier phase; only hand-overs repeat for a stream. */
  predicate InPhases(t: seq<Event>)
  {
    forall a, b | 0 <= a < b < |t| ::
      Phase(t[a]) <= Phase(t[b]) && (t[a].index == t[b].index && Phase(t[a]) == Phase(t[b]) ==> t[a].Flowed?)
  }

  /** All events of a later phase may follow. */
  lemma PhasesAppend(t: seq<Event>, u: seq<Event>, n: nat)
    requires InPhases(t) && InPhases(u)
    requires (forall a | 0 <= a < |t| :: Phase(t[a]) < n) && forall b | 0 <= b < |u| :: Phase(u[b]) == n
    ensures InPhases(t + u) && forall a | 0 <= a < |t + u| :: Phase((t + u)[a]) < n + 1
  {
  }

  lemma FlowPhase(keys: set<int>, ps: seq<DemuxPacket>)
    ensures forall b | 0 <= b < |FlowEvents(keys, ps)| :: Phase(FlowEvents(keys, ps)[b]) == 1
    ensures InPhases(FlowEvents(keys, ps))
  {
    var t := FlowEvents(keys, ps);
    forall b | 0 <= b < |t|
      ensures t[b].Flowed?
    {
      assert t[b] in t;
    }
  }

  /**
   Whatever the iteration order: every stream is initialised before any packet
   is handed over, nothing is handed over after a flush, and every registered
   stream is initialised, flushed and cleaned exactly once, all flushes first.
   */
  lemma RunInPhases(order: seq<int>, m: PidMap, ps: seq<DemuxPacket>)
    requires AllUsable(m) && AllAccepted(m, ps) && Iterates(order, m.Keys)
    ensures InPhases(ProcessTrace(order, m, ps))
  {
    InitIsReady(order, m, ps);
    var a, b, c := InitEvents(order), FlowEvents(m.Keys, ps), FlushEvents(order);
    var d := CleanEvents(order, Dispatch(InitAll(m), ps));
    assert InPhases(a) && InPhases(c) && InPhases(d);
    FlowPhase(m.Keys, ps);
    hide InPhases, InitEvents, FlowEvents, FlushEvents, CleanEvents;
    PhasesAppend(a, b, 1);
    PhasesAppend(a + b, c, 2);
    PhasesAppend(a + b + c, d, 3);
  }

  /** ... and at the end each stream is what its own packets made of it. */
  lemma RunIsComplete(order: seq<int>, m: PidMap, ps: seq<DemuxPacket>, i: int)
    requires AllUsable(m) && AllAccepted(m, ps) && Iterates(order, m.Keys) && i in m
    ensures Inited(i) in ProcessTrace(order, m, ps) && Flushed(i) in ProcessTrace(order, m, ps)
    ensures AcceptsAll(InitStream(m[i].value), Select(ps, i))
    ensures Cleaned(i, HandAll(InitStream(m[i].value), Select(ps, i))) in ProcessTrace(order, m, ps)
  {
    InitIsReady(order, m, ps);
    DispatchIsSelection(InitAll(m), ps, i);
    var k :| 0 <= k < |order| && order[k] == i;
    var end := Dispatch(InitAll(m), ps);
    assert InitEvents(order)[k] == Inited(i) && FlushEvents(order)[k] == Flushed(i);
    assert CleanEvents(order, end)[k] == Cleaned(i, end[i].value);
  }

  /** An output frame lasts `d` whole ticks. */
  predicate FrameLasts(setup: Setup, d: nat)
  {
    d * setup.outRate <= setup.outFrame * setup.den < (d + 1) * setup.outRate
  }

  /**
   Initialising empties the FIFO of an audio stream and fixes its frame length
   in ticks; a video stream is not changed.
   */
  lemma InitStreamIs(s: Stream, d: nat)
    requires Usable(s) && (s.AudioStream? ==> FrameLasts(s.setup, d))
    ensures InitStream(s) == if s.VideoStream? then s
                             else AudioStream(s.setup, s.clock.(ticks := d), s.worker.(fifo := []))
  {
    if s.AudioStream? {
      assert (d + 1) * s.setup.outRate == d * s.setup.outRate + s.setup.outRate;
      QuotientIs(s.setup.outFrame * s.setup.den, s.setup.outRate, d);
    }
  }

  /** The audio part of a run: what the stream is when it is cleaned up. */
  lemma AudioOfRun(order: seq<int>, m: PidMap, ps: seq<DemuxPacket>, i: int, d: nat)
    requires AllUsable(m) && AllAccepted(m, ps) && Iterates(order, m.Keys) && i in m
    requires m[i].value.AudioStream? && FrameLasts(m[i].value.setup, d)
    ensures forall p | p in Select(ps, i) :: p.duration != 0
    ensures var s := m[i].value;
            var clock := s.clock.(ticks := d);
            Cleaned(i, AudioStream(s.setup, clock, AudioLaws.Run(s.setup, clock, s.worker.(fifo := []), Select(ps, i))))
            in ProcessTrace(order, m, ps)
  {
    RunIsComplete(order, m, ps, i);
    InitStreamIs(m[i].value, d);
    AudioHandAll(InitStream(m[i].value), Select(ps, i));
    hide ProcessTrace, HandAll, AudioLaws.Run;
  }

  /**
   The timestamps that a run of `Process` gives an audio stream which has not
   written anything before, with the clock that set-up gave it and a frame of
   `d` ticks: without drift over steady packets, strictly increasing exactly if
   a frame lasts a tick or there is at most one, and never ahead of the exact time.
   */
  lemma ProcessDoesNotDrift(order: seq<int>, m: PidMap, ps: seq<DemuxPacket>, i: int, d: nat)
    requires AllUsable(m) && AllAccepted(m, ps) && Iterates(order, m.Keys) && i in m
    requires m[i].value.AudioStream? && FrameLasts(m[i].value.setup, d) && m[i].value.worker.written == []
    requires forall p | p in Select(ps, i) :: p.duration != 0
    requires var s := m[i].value;
             AudioLaws.SteadyInput(s.setup, s.clock.(ticks := d), s.worker.(fifo := []), Select(ps, i))
    ensures var s := m[i].value;
            var clock := s.clock.(ticks := d);
            var end := AudioLaws.Run(s.setup, clock, s.worker.(fifo := []), Select(ps, i));
            && Cleaned(i, AudioStream(s.setup, clock, end)) in ProcessTrace(order, m, ps)
            && |end.written| == |Select(ps, i)| * s.setup.inFrame / s.setup.outFrame
            && AudioLaws.OnGrid(end.written, s.clock.muxPts, d)
            && (AudioLaws.Increasing(end.written) <==> d > 0 || |end.written| <= 1)
            && forall k: nat :: 0.0 <= AudioLaws.Lag(s.setup, clock, k)
                                    < (k * s.setup.inFrame) as real / s.setup.outFrame as real + 1.0
  {
    var s := m[i].value;
    var clock := s.clock.(ticks := d);
    AudioOfRun(order, m, ps, i, d);
    AudioLaws.NoDrift(s.setup, clock, s.worker.(fifo := []), Select(ps, i));
    InitStreamIs(s, d);
    forall k: nat
      ensures 0.0 <= AudioLaws.Lag(s.setup, clock, k)
                  < (k * s.setup.inFrame) as real / s.setup.outFrame as real + 1.0
    {
      AudioLaws.TruncationBound(s.setup, clock, k);
    }
    hide *;
  }

  /**
   What a run leaves of an audio stream that has not written anything before:
   the decoded samples in whole frames, and the last `total mod F` samples lost
   in the FIFO, as no flush drains it.
   */
  lemma EndOfStream(m: PidMap, ps: seq<DemuxPacket>, i: int)
    requires AllUsable(m) && AllAccepted(m, ps) && i in m
    requires m[i].value.AudioStream? && m[i].value.worker.written == []
    ensures AllUsable(InitAll(m)) && AllAccepted(InitAll(m), ps)
    ensures var s := InitAll(m)[i].value;
            var e := Dispatch(InitAll(m), ps)[i].value.worker;
            && AudioLaws.Consumes(s.worker, e)
            && var total := AudioLaws.Produced(s.worker, e);
               && |e.fifo| == |total| % s.setup.outFrame
               && AudioLaws.Flat(e.written) == total[..|total| - |e.fifo|]
  {
    var s := InitAll(m)[i].value;
    DispatchIsSelection(InitAll(m), ps, i);
    AudioHandAll(s, Select(ps, i));
    AudioLaws.FramesAreSlices(s.setup, s.clock, s.worker, Select(ps, i));
    AudioLaws.Conservation(s.setup, s.clock, s.worker, Select(ps, i));
    var e := AudioLaws.Run(s.setup, s.clock, s.worker, Select(ps, i));
    hide AudioLaws.Run, Dispatch, HandAll, AudioLaws.IsPiece;
    var total := AudioLaws.Produced(s.worker, e);
    assert AudioLaws.Flat(e.written) + e.fifo == total;
  }

  class Transcoder {
    var pidObject: PidMap
    /** The outputs that set-up opened. */
    var ofmtList: seq<seq<nat>>
    var status: TransState.StateId
    /** What the streams were told to do, for specification. */
    ghost var trace: seq<Event>

    constructor ()
      ensures pidObject == map[] && ofmtList == [] && trace == [] && status == TransState.Initial
    {
      pidObject, ofmtList, trace, status := map[], [], [], TransState.Initial;
    }

    /**
     `order` is the iteration order of the unordered map, the same for all
     three passes as no key changes; `packets` is what the demuxer would give
     until it fails; the stop flag is seen set after `stopAt` reads. The run is
     undefined if an entry is null or an audio packet has no duration.
     */
    method Process(order: seq<int>, packets: seq<DemuxPacket>, stopAt: nat) returns (read: nat, o: Outcome)
      requires AllWorking(pidObject) && Iterates(order, pidObject.Keys)
      modifies this
      ensures o == Undefined || o == Returned(0)
      ensures o == Undefined <==>
                HasNull(old(pidObject)) || FirstRefused(old(pidObject), packets) < Min(stopAt, |packets|)
      ensures o == Returned(0) ==>
                && read == Min(stopAt, |packets|)
                && AllUsable(old(pidObject)) && AllAccepted(old(pidObject), packets[..read])
                && trace == old(trace) + ProcessTrace(order, old(pidObject), packets[..read])
                && pidObject.Keys == old(pidObject).Keys && (forall i | i in pidObject :: pidObject[i].None?)
                && status == TransState.Finished
      ensures ofmtList == old(ofmtList)
    {
      ghost var m, events := pidObject, trace;
      read := 0;
      status := TransState.Process;
      o := InitTools(order);
      if o.Undefined? {
        return;
      }
      InitIsReady(order, m, packets);
      read, o := RoutePackets(packets, stopAt);
      if o.Undefined? {
        return;
      }
      InitIsReady(order, m, packets[..read]);
      TraceIs(events, order, m, packets[..read]);
      hide *;
      FlushAll(order);
      CleanAll(order);
      status := TransState.Finished;
    }

    /** The packet loop: poll the flag, read, look the stream up, hand over. */
    method RoutePackets(packets: seq<DemuxPacket>, stopAt: nat) returns (read: nat, o: Outcome)
      requires AllUsable(pidObject)
      modifies this`pidObject, this`trace
      ensures o == Undefined || o == Returned(0)
      ensures o == Undefined <==> FirstRefused(old(pidObject), packets) < Min(stopAt, |packets|)
      ensures read == Min(FirstRefused(old(pidObject), packets), Min(stopAt, |packets|))
      ensures AllAccepted(old(pidObject), packets[..read])
      ensures pidObject == Dispatch(old(pidObject), packets[..read])
      ensures trace == old(trace) + FlowEvents(old(pidObject).Keys, packets[..read])
    {
      hide HandOver, Usable, Accepts, Routed, AllUsable, AllAccepted, Dispatch, FlowEvents, FirstRefused;
      read, o := 0, Returned(0);
      ghost var m, t := pidObject, trace;
      RouteNone(m, t, packets);
      while read < stopAt && read < |packets|
        invariant read <= stopAt && Routed(m, t, packets, read, pidObject, trace) && read <= |packets|
        invariant o == Returned(0)
      {
        RouteTurn(m, t, packets, read, pidObject, trace);
        var p := packets[read];
        if p.index in pidObject {
          if !Accepts(pidObject[p.index].value, p.packet) {
            o := Undefined;
            break;
          }
          pidObject := pidObject[p.index := Some(HandOver(pidObject[p.index].value, p.packet))];
          trace := trace + [Flowed(p.index, p.packet)];
        }
        read := read + 1;
      }
      RouteEnd(m, t, packets, read, pidObject, trace);
    }

    /** The first null entry in the order ends it. */
    method InitTools(order: seq<int>) returns (o: Outcome)
      requires AllWorking(pidObject) && Iterates(order, pidObject.Keys)
      modifies this`pidObject, this`trace
      ensures o == if HasNull(old(pidObject)) then Undefined else Returned(0)
      ensures o == Returned(0) ==>
                && AllUsable(old(pidObject)) && pidObject == InitAll(old(pidObject))
                && trace == old(trace) + InitEvents(order)
    {
      hide InitStream, Usable;
      for k := 0 to |order|
        invariant pidObject.Keys == old(pidObject).Keys
        invariant forall j | 0 <= j < k :: Initialised(old(pidObject), pidObject, order[j])
        invariant forall j | k <= j < |order| :: pidObject[order[j]] == old(pidObject)[order[j]]
        invariant trace == old(trace) + InitEvents(order)[..k]
      {
        if pidObject[order[k]].None? {
          return Undefined;
        }
        pidObject := pidObject[order[k] := Some(InitStream(pidObject[order[k]].value))];
        trace := trace + [Inited(order[k])];
      }
      assert InitEvents(order)[..|order|] == InitEvents(order);
      forall i | i in pidObject
        ensures Initialised(old(pidObject), pidObject, i)
      {
        assert i in order;
        var k :| 0 <= k < |order| && order[k] == i;
      }
      AllInitialised(old(pidObject), pidObject);
      o := Returned(0);
    }

    method FlushAll(order: seq<int>)
      modifies this`trace
      ensures trace == old(trace) + FlushEvents(order)
    {
      for k := 0 to |order|
        invariant trace == old(trace) + FlushEvents(order)[..k]
      {
        trace := trace + [Flushed(order[k])];
      }
      assert FlushEvents(order)[..|order|] == FlushEvents(order);
    }

    /** Cleans each stream and resets its pointer; the entry stays in the map. */
    method CleanAll(order: seq<int>)
      requires AllUsable(pidObject) && Iterates(order, pidObject.Keys)
      modifies this`pidObject, this`trace
      ensures pidObject.Keys == old(pidObject).Keys && forall i | i in pidObject :: pidObject[i].None?
      ensures trace == old(trace) + CleanEvents(order, old(pidObject))
    {
      ghost var events := CleanEvents(order, pidObject);
      for k := 0 to |order|
        invariant pidObject.Keys == old(pidObject).Keys
        invariant forall j | 0 <= j < k :: pidObject[order[j]].None?
        invariant forall j | k <= j < |order| :: pidObject[order[j]] == old(pidObject)[order[j]]
        invariant trace == old(trace) + events[..k]
      {
        trace := trace + [Cleaned(order[k], pidObject[order[k]].value)];
        pidObject := pidObject[order[k] := None];
      }
      assert events[..|order|] == events;
    }

    /**
     Only clearing the map makes it fit for another set-up and run. `release` is
     what the two releases of the input context before it come to.
     */
    method CleanUp(release: Outcome) returns (o: Outcome)
      modifies this
      ensures o == if release.Undefined? then Undefined else Returned(0)
      ensures o == Returned(0) ==> pidObject == map[] && ofmtList == [] && status == TransState.Idle
      ensures o == Undefined ==> pidObject == old(pidObject) && status == TransState.Reset
      ensures trace == old(trace)
    {
      status := TransState.Reset;
      if release.Undefined? {
        return Undefined;
      }
      ofmtList := [];
      pidObject := map[];
      status := TransState.Idle;
      return Returned(0);
    }
  }
}
