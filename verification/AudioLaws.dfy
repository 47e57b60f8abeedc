/**
 What the audio worker keeps over whole runs: no sample is lost or reordered
 before the final FIFO tail, and the recomputed timestamps never drift.
 */
module AudioLaws {
  import opened Arith
  import opened AudioFlow

  // ---------- reference definitions ----------

  /** All samples of a list of frames, in order. */
  function Flat(frames: seq<Frame>): (s: seq<Sample>)
  {
    if frames == [] then [] else frames[0].samples + Flat(frames[1..])
  }

  function SamplesOf(results: seq<DecodeResult>): (s: seq<Sample>)
  {
    if results == [] then []
    else (if results[0].Decoded? then results[0].samples else []) + SamplesOf(results[1..])
  }

  /** `after` comes from `before` by running part of the decoder script. */
  predicate Consumes(before: Worker, after: Worker)
  {
    |after.decoder| <= |before.decoder| && after.decoder == before.decoder[|before.decoder| - |after.decoder|..]
  }

  /** What the decoder produced between two states. */
  function Produced(before: Worker, after: Worker): (s: seq<Sample>)
    requires Consumes(before, after)
  {
    SamplesOf(before.decoder[..|before.decoder| - |after.decoder|])
  }

  /** Frame `j` of `s` when `s` is cut into pieces of `size`. */
  predicate IsPiece(f: Frame, s: seq<Sample>, size: nat, j: nat)
  {
    j * size <= (j + 1) * size <= |s| && f.samples == s[j * size..(j + 1) * size]
  }

  /** Handing over a list of packets, whatever each flow returns. */
  function Run(setup: Setup, clock: Clock, w: Worker, ps: seq<Packet>): (w': Worker)
    requires setup.Valid() && Progress(w.decoder) && forall p | p in ps :: p.duration != 0
    ensures Progress(w'.decoder)
  {
    if ps == [] then w
    else FlowPacket(setup, clock, Run(setup, clock, w, ps[..|ps| - 1]), ps[|ps| - 1]).worker
  }

  // ---------- one flow ----------

  lemma FlatAppend(a: seq<Frame>, b: seq<Frame>)
    ensures Flat(a + b) == Flat(a) + Flat(b)
  {
    if a == [] {
      assert a + b == b;
    } else {
      assert (a + b)[1..] == a[1..] + b;
    }
  }

  lemma SamplesAppend(a: seq<DecodeResult>, b: seq<DecodeResult>)
    ensures SamplesOf(a + b) == SamplesOf(a) + SamplesOf(b)
  {
    if a == [] {
      assert a + b == b;
    } else {
      assert (a + b)[1..] == a[1..] + b;
    }
  }

  /** Full frames, one frame length apart from `now` on. */
  predicate Timed(frames: seq<Frame>, now: int, size: nat, ticks: nat)
  {
    forall j | 0 <= j < |frames| :: |frames[j].samples| == size && frames[j].pts == now + j * ticks
  }

  /** From `before` to `after` the frames were cut off the FIFO followed by `fed`, with the clock running from `now`. */
  predicate Extends(before: Worker, now: int, frames: seq<Frame>, after: Worker, size: nat, ticks: nat,
                    fed: seq<Sample>)
  {
    && after.written == before.written + frames
    && Flat(frames) + after.fifo == before.fifo + fed
    && Timed(frames, now, size, ticks)
    && after.endpoint == if frames == [] then before.endpoint else now + |frames| * ticks
  }

  /** What two steps put out and keep is what they got, in order. */
  lemma Regroup<T>(f: seq<T>, g: seq<T>, a: seq<T>, b: seq<T>, c: seq<T>, fed: seq<T>, fed': seq<T>)
    requires f + b == a + fed && g + c == b + fed'
    ensures (f + g) + c == a + (fed + fed')
  {
    calc {
      (f + g) + c;
      f + (g + c);
      (f + b) + fed';
      a + (fed + fed');
    }
  }

  lemma TimedAppend(f: seq<Frame>, g: seq<Frame>, now: int, size: nat, ticks: nat)
    requires Timed(f, now, size, ticks) && Timed(g, now + |f| * ticks, size, ticks)
    ensures Timed(f + g, now, size, ticks)
    ensures now + |f| * ticks + |g| * ticks == now + |f + g| * ticks
  {
    forall j | 0 <= j < |f + g|
      ensures |(f + g)[j].samples| == size && (f + g)[j].pts == now + j * ticks
    {
      if j >= |f| {
        assert (f + g)[j] == g[j - |f|];
        assert |f| * ticks + (j - |f|) * ticks == j * ticks;
      }
    }
    assert |f| * ticks + |g| * ticks == (|f| + |g|) * ticks;
  }

  /** Two such steps one after the other are one such step. */
  lemma ExtendsTwice(a: Worker, b: Worker, c: Worker, f: seq<Frame>, g: seq<Frame>,
                     size: nat, ticks: nat, now: int, fed: seq<Sample>, fed': seq<Sample>)
    requires Extends(a, now, f, b, size, ticks, fed) && Extends(b, now + |f| * ticks, g, c, size, ticks, fed')
    ensures Extends(a, now, f + g, c, size, ticks, fed + fed')
    ensures now + |f| * ticks + |g| * ticks == now + |f + g| * ticks
  {
    hide Flat, Timed;
    FlatAppend(f, g);
    Regroup(Flat(f), Flat(g), a.fifo, b.fifo, c.fifo, fed, fed');
    TimedAppend(f, g, now, size, ticks);
    assert a.written + f + g == a.written + (f + g);
  }

  lemma {:induction false} DrainExtends(size: nat, ticks: nat, w: Worker, now: int) returns (frames: seq<Frame>)
    requires size > 0
    ensures Extends(w, now, frames, Drain(size, ticks, w, now).worker, size, ticks, [])
    ensures Drain(size, ticks, w, now).now == now + |frames| * ticks
    decreases |w.fifo|
  {
    if |w.fifo| < size {
      frames := [];
    } else {
      var w' := EncodeOne(size, ticks, w, now);
      var first := [Frame(w.fifo[..size], now)];
      assert Flat(first) == w.fifo[..size] + Flat([]);
      assert Extends(w, now, first, w', size, ticks, []);
      var rest := DrainExtends(size, ticks, w', now + ticks);
      ExtendsTwice(w, w', Drain(size, ticks, w', now + ticks).worker, first, rest, size, ticks, now, [], []);
      frames := first + rest;
    }
  }

  lemma ProducedTwice(a: Worker, b: Worker, c: Worker)
    requires Consumes(a, b) && Consumes(b, c)
    ensures Consumes(a, c) && Produced(a, c) == Produced(a, b) + Produced(b, c)
  {
    var i, j := |a.decoder| - |b.decoder|, |a.decoder| - |c.decoder|;
    assert b.decoder[..j - i] == a.decoder[i..j];
    assert a.decoder[..j] == a.decoder[..i] + a.decoder[i..j];
    SamplesAppend(a.decoder[..i], a.decoder[i..j]);
  }

  lemma OneResult(w: Worker, w': Worker)
    requires w.decoder != [] && w'.decoder == w.decoder[1..]
    ensures Consumes(w, w') && Produced(w, w') == if w.decoder[0].Decoded? then w.decoder[0].samples else []
  {
    assert w.decoder[..1] == [w.decoder[0]];
    assert SamplesOf([w.decoder[0]][1..]) == [];
  }

  /** The decoding step of a pass, before any frame is written. */
  lemma DecodeExtends(size: nat, ticks: nat, w: Worker, now: int)
    ensures DecodeFails(w) ==>
              var w' := AfterFailure(w);
              Consumes(w, w') && Extends(w, now, [], w', size, ticks, Produced(w, w'))
    ensures !DecodeFails(w) ==>
              var w' := AfterDecode(w);
              Consumes(w, w') && Extends(w, now, [], w', size, ticks, Produced(w, w'))
  {
    if w.decoder != [] {
      OneResult(w, if DecodeFails(w) then AfterFailure(w) else AfterDecode(w));
    }
  }

  lemma PassExtends(size: nat, ticks: nat, w: Worker, now: int) returns (frames: seq<Frame>)
    requires size > 0 && (|w.fifo| >= size || !DecodeFails(w))
    ensures var d := Pass(size, ticks, w, now);
            && Consumes(w, d.worker)
            && Extends(w, now, frames, d.worker, size, ticks, Produced(w, d.worker))
            && d.now == now + |frames| * ticks
  {
    var d := Pass(size, ticks, w, now).worker;
    if |w.fifo| < size {
      var w' := AfterDecode(w);
      DecodeExtends(size, ticks, w, now);
      frames := DrainExtends(size, ticks, w', now);
      ExtendsTwice(w, w', d, [], frames, size, ticks, now, Produced(w, w'), []);
      assert [] + frames == frames && Produced(w, w') + [] == Produced(w, d);
    } else {
      frames := DrainExtends(size, ticks, w, now);
    }
  }

  /**
   Handling a packet, whether it succeeds or fails part-way, is cutting frames
   off the FIFO followed by everything the decoder produced, with the clock
   running on from `now`; less than a frame is left.
   */
  lemma {:induction false} FlowExtends(size: nat, ticks: nat, w: Worker, now: int, left: nat)
    returns (frames: seq<Frame>)
    requires size > 0 && Progress(w.decoder)
    ensures var e := FlowLoop(size, ticks, w, now, left).worker;
            && Consumes(w, e) && |e.fifo| < size
            && Extends(w, now, frames, e, size, ticks, Produced(w, e))
    decreases left, if |w.fifo| >= size then 1 else 0
  {
    FlowTurn(size, ticks, w, now, left);
    hide FlowLoop, Pass, Extends, Produced, Consumes, Progress;
    var e := FlowLoop(size, ticks, w, now, left).worker;
    if |w.fifo| < size && DecodeFails(w) {
      DecodeExtends(size, ticks, w, now);
      frames := [];
    } else {
      var d := Pass(size, ticks, w, now);
      var left' := left - BytesUsed(size, w, left);
      frames := PassExtends(size, ticks, w, now);
      PassDrains(size, ticks, w, now);
      if left' > 0 {
        var rest := FlowExtends(size, ticks, d.worker, d.now, left');
        ProducedTwice(w, d.worker, e);
        ExtendsTwice(w, d.worker, e, frames, rest, size, ticks, now, Produced(w, d.worker), Produced(d.worker, e));
        frames := frames + rest;
      }
    }
  }

  lemma PassDrains(size: nat, ticks: nat, w: Worker, now: int)
    requires size > 0 && (|w.fifo| >= size || !DecodeFails(w))
    ensures |Pass(size, ticks, w, now).worker.fifo| < size
  {
  }

  // ---------- which decoder results a packet uses ----------

  /** The bytes that decoder calls use up. */
  function Consumed(results: seq<DecodeResult>): (n: nat)
  {
    if results == [] then 0
    else (if results[0].Decoded? then results[0].consumed else 0) + Consumed(results[1..])
  }

  /** The first `n` calls succeed, and after each of them bytes of a packet of `size` bytes are left. */
  predicate GoesOn(results: seq<DecodeResult>, n: nat, size: nat)
  {
    && n <= |results|
    && (forall j | 0 <= j < n :: results[j].Decoded?)
    && (forall k | 1 <= k <= n :: Consumed(results[..k]) < size)
  }

  lemma ConsumedCons(results: seq<DecodeResult>, n: nat)
    requires 1 <= n <= |results| && results[0].Decoded?
    ensures Consumed(results[..n]) == results[0].consumed + Consumed(results[1..][..n - 1])
  {
    assert results[..n][1..] == results[1..][..n - 1];
  }

  lemma GoesOnCons(results: seq<DecodeResult>, n: nat, size: nat)
    requires results != [] && results[0].Decoded? && results[0].consumed < size
    requires GoesOn(results[1..], n, size - results[0].consumed)
    ensures GoesOn(results, n + 1, size)
  {
    forall k | 1 <= k <= n + 1
      ensures Consumed(results[..k]) < size
    {
      ConsumedCons(results, k);
      assert results[1..][..0] == [];
    }
    assert forall j | 1 <= j < n + 1 :: results[j] == results[1..][j - 1];
  }

  /** With success: the calls are the fewest, but at least one, that use up the packet, and none failed. */
  predicate UsesUp(results: seq<DecodeResult>, n: nat, size: nat)
  {
    && 1 <= n <= |results| && GoesOn(results, n - 1, size)
    && results[n - 1].Decoded? && Consumed(results[..n]) >= size
  }

  /** Without: after `n` calls that go on, the next one fails or there is none, and `left` bytes are left. */
  predicate FailsAfter(results: seq<DecodeResult>, n: nat, size: nat, left: nat)
  {
    && GoesOn(results, n, size)
    && (n < |results| ==> results[n].DecodeFailed?)
    && left + Consumed(results[..n]) == size
  }

  /** How many results of the script lie between two states. */
  function Calls(before: Worker, after: Worker): (n: nat)
    requires Consumes(before, after)
  {
    |before.decoder| - |after.decoder|
  }

  /**
   From a FIFO below a frame, the flow uses exactly the decoder results that
   the packet's bytes ask for: it ends with success at the first call that
   uses up the packet, and without at the first one that fails or is missing.
   */
  predicate FlowIs(w: Worker, r: FlowResult, size: nat)
  {
    && Consumes(w, r.worker)
    && (r.ok ==> UsesUp(w.decoder, Calls(w, r.worker), size) && r.left == 0)
    && (!r.ok ==>
          exists n | 0 <= n <= |w.decoder| ::
            FailsAfter(w.decoder, n, size, r.left) && Calls(w, r.worker) == if n < |w.decoder| then n + 1 else n)
  }

  lemma {:induction false} FlowUses(size: nat, ticks: nat, w: Worker, now: int, left: nat)
    requires size > 0 && Progress(w.decoder) && |w.fifo| < size
    ensures FlowIs(w, FlowLoop(size, ticks, w, now, left), left)
    decreases left
  {
    FlowTurn(size, ticks, w, now, left);
    if DecodeFails(w) {
      FlowFailsAtOnce(w, left);
    } else {
      var d, c := Pass(size, ticks, w, now), w.decoder[0].consumed;
      PassDrains(size, ticks, w, now);
      if left > c {
        FlowUses(size, ticks, d.worker, d.now, left - c);
        FlowIsCons(w, d.worker, FlowLoop(size, ticks, d.worker, d.now, left - c), left);
      } else {
        FlowEndsAtOnce(w, d.worker, left);
      }
    }
  }

  lemma FlowFailsAtOnce(w: Worker, left: nat)
    requires DecodeFails(w)
    ensures FlowIs(w, FlowResult(AfterFailure(w), left, false), left)
  {
    assert w.decoder[..0] == [];
    assert FailsAfter(w.decoder, 0, left, left);
  }

  lemma FlowEndsAtOnce(w: Worker, w': Worker, left: nat)
    requires !DecodeFails(w) && w.decoder[0].consumed >= left && w'.decoder == w.decoder[1..]
    ensures FlowIs(w, FlowResult(w', 0, true), left)
  {
    ConsumedCons(w.decoder, 1);
    assert w.decoder[1..][..0] == [];
  }

  lemma FlowIsCons(w: Worker, w': Worker, r: FlowResult, left: nat)
    requires !DecodeFails(w) && w.decoder[0].consumed < left && w'.decoder == w.decoder[1..]
    requires FlowIs(w', r, left - w.decoder[0].consumed)
    ensures FlowIs(w, r, left)
  {
    var results, c := w.decoder, w.decoder[0].consumed;
    if r.ok {
      var n := Calls(w', r.worker);
      GoesOnCons(results, n - 1, left);
      ConsumedCons(results, n + 1);
      assert results[n] == results[1..][n - 1];
    } else {
      var n :| 0 <= n <= |w'.decoder| && FailsAfter(w'.decoder, n, left - c, r.left)
               && Calls(w', r.worker) == if n < |w'.decoder| then n + 1 else n;
      GoesOnCons(results, n, left);
      ConsumedCons(results, n + 1);
      assert n < |results[1..]| ==> results[n + 1] == results[1..][n];
      assert FailsAfter(results, n + 1, left, r.left);
    }
    hide Consumed, GoesOn;
  }

  /** A full frame that waits first takes one pass without decoding, which uses no bytes. */
  lemma WaitingFrame(size: nat, ticks: nat, w: Worker, now: int, left: nat)
    requires size > 0 && Progress(w.decoder) && |w.fifo| >= size
    ensures var d := Drain(size, ticks, w, now);
            && |d.worker.fifo| < size && d.worker.decoder == w.decoder
            && FlowLoop(size, ticks, w, now, left)
               == if left > 0 then FlowLoop(size, ticks, d.worker, d.now, left) else FlowResult(d.worker, 0, true)
  {
  }

  // ---------- the index of a packet ----------

  /** The packet lies in the `k`-th packet duration after the start, or before the start with `k` zero. */
  predicate HasIndex(clock: Clock, p: Packet, k: nat)
  {
    && p.duration > 0
    && if p.pts < clock.startTime then k == 0
       else k * p.duration <= p.pts - clock.startTime < (k + 1) * p.duration
  }

  /** For packets that last, what `StartPts` counts is that index and no other number. */
  lemma PacketIndexExactly(clock: Clock, p: Packet, k: int)
    requires p.duration > 0
    ensures PacketIndex(clock, p) == k <==> k >= 0 && HasIndex(clock, p, k)
  {
    var x := Max(p.pts - clock.startTime, 0);
    QuotientBounds(x, p.duration);
    QuotientAtLeast(x, p.duration, 0);
    if k >= 0 && HasIndex(clock, p, k) {
      NextMultiple(k, p.duration);
      QuotientIs(x, p.duration, k);
    } else if PacketIndex(clock, p) == k {
      NextMultiple(k, p.duration);
    }
  }

  lemma NextMultiple(k: int, b: int)
    ensures (k + 1) * b == k * b + b
  {
  }

  /** Only the distance from the start counts. */
  lemma IndexIsRelative(clock: Clock, p: Packet, t: int)
    requires p.duration != 0
    ensures PacketIndex(clock.(startTime := clock.startTime + t), p.(pts := p.pts + t)) == PacketIndex(clock, p)
  {
  }

  // ---------- whole runs: conservation ----------

  /** The frames from number `from` on are full. */
  predicate FullFrom(frames: seq<Frame>, from: nat, size: nat)
  {
    forall j | from <= j < |frames| :: |frames[j].samples| == size
  }

  /** `end` has everything that `w` had or was fed, in order, in frames of `size` and a remainder. */
  predicate Conserves(w: Worker, end: Worker, size: nat)
  {
    && Consumes(w, end)
    && w.written <= end.written
    && Flat(end.written) + end.fifo == Flat(w.written) + w.fifo + Produced(w, end)
    && FullFrom(end.written, |w.written|, size)
  }

  lemma FullAppend(f: seq<Frame>, g: seq<Frame>, from: nat, now: int, size: nat, ticks: nat)
    requires FullFrom(f, from, size) && Timed(g, now, size, ticks)
    ensures FullFrom(f + g, from, size)
  {
  }

  lemma ConservesStep(w: Worker, b: Worker, e: Worker, frames: seq<Frame>, size: nat, ticks: nat, now: int)
    requires Conserves(w, b, size) && Consumes(b, e) && Extends(b, now, frames, e, size, ticks, Produced(b, e))
    ensures Conserves(w, e, size)
  {
    ProducedTwice(w, b, e);
    FlatAppend(b.written, frames);
    FullAppend(b.written, frames, |w.written|, now, size, ticks);
    hide Flat, Timed, FullFrom, Consumes, Produced;
    Regroup(Flat(b.written), Flat(frames), Flat(w.written) + w.fifo, b.fifo, e.fifo, Produced(w, b), Produced(b, e));
  }

  /** Sample conservation over any run, including packets whose decoding fails part-way. */
  lemma {:induction false} Conservation(setup: Setup, clock: Clock, w: Worker, ps: seq<Packet>)
    requires setup.Valid() && Progress(w.decoder) && forall p | p in ps :: p.duration != 0
    ensures Conserves(w, Run(setup, clock, w, ps), setup.outFrame)
    ensures ps != [] || |w.fifo| < setup.outFrame ==> |Run(setup, clock, w, ps).fifo| < setup.outFrame
    decreases |ps|
  {
    if ps != [] {
      var init, p := ps[..|ps| - 1], ps[|ps| - 1];
      Conservation(setup, clock, w, init);
      var b := Run(setup, clock, w, init);
      var now := FirstPts(setup, clock, p);
      var frames := FlowExtends(setup.outFrame, clock.ticks, b, now, p.size);
      ConservesStep(w, b, Run(setup, clock, w, ps), frames, setup.outFrame, clock.ticks, now);
    }
  }

  lemma {:induction false} FlatLength(frames: seq<Frame>, size: nat)
    requires forall j | 0 <= j < |frames| :: |frames[j].samples| == size
    ensures |Flat(frames)| == |frames| * size
    decreases |frames|
  {
    if frames != [] {
      FlatLength(frames[1..], size);
      assert (|frames| - 1) * size + size == |frames| * size;
    }
  }

  lemma LaterPiece(f: Frame, head: seq<Sample>, s: seq<Sample>, size: nat, j: nat)
    requires |head| == size && IsPiece(f, s, size, j)
    ensures IsPiece(f, head + s, size, j + 1)
  {
    var lo, hi := j * size, (j + 1) * size;
    assert (j + 1) * size == lo + size && (j + 2) * size == hi + size;
    assert (head + s)[lo + size..hi + size] == s[lo..hi];
  }

  /** Equal-sized frames are determined by their concatenation. */
  lemma {:induction false} PiecesOfFlat(frames: seq<Frame>, tail: seq<Sample>, size: nat)
    requires forall j | 0 <= j < |frames| :: |frames[j].samples| == size
    ensures forall j | 0 <= j < |frames| :: IsPiece(frames[j], Flat(frames) + tail, size, j)
    decreases |frames|
  {
    if frames != [] {
      var rest := frames[1..];
      var s, s' := Flat(frames) + tail, Flat(rest) + tail;
      PiecesOfFlat(rest, tail, size);
      assert s == frames[0].samples + s';
      forall j | 0 <= j < |frames|
        ensures IsPiece(frames[j], s, size, j)
      {
        if j > 0 {
          assert frames[j] == rest[j - 1];
          LaterPiece(frames[j], frames[0].samples, s', size, j - 1);
        }
      }
    }
  }

  /**
   From a fresh worker, the output is exactly the decoded samples cut into
   frames: frame `j` is samples `j * F` to `(j + 1) * F`, and the end of the
   stream loses the last `total mod F` samples, which stay in the FIFO.
   */
  lemma FramesAreSlices(setup: Setup, clock: Clock, w: Worker, ps: seq<Packet>)
    requires setup.Valid() && Progress(w.decoder) && forall p | p in ps :: p.duration != 0
    requires w.written == [] && w.fifo == []
    ensures var e := Run(setup, clock, w, ps);
            && Consumes(w, e)
            && var total := Produced(w, e);
               && |e.written| == |total| / setup.outFrame
               && |e.fifo| == |total| % setup.outFrame
               && e.fifo == total[|total| - |e.fifo|..]
               && forall j | 0 <= j < |e.written| :: IsPiece(e.written[j], total, setup.outFrame, j)
  {
    hide Run, Progress, Consumes, Produced;
    var e := Run(setup, clock, w, ps);
    Conservation(setup, clock, w, ps);
    var total, size := Produced(w, e), setup.outFrame;
    assert Flat(e.written) + e.fifo == total;
    FlatLength(e.written, size);
    PiecesOfFlat(e.written, e.fifo, size);
    DivModIs(|total|, size, |e.written|, |e.fifo|);
  }

  // ---------- whole runs: the clock ----------

  /** For a packet index from 0 on the timestamp is an ordinary quotient; the equal rates cancel. */
  lemma PtsOfIndexIs(setup: Setup, clock: Clock, k: nat)
    requires setup.Valid()
    ensures PtsOfIndex(setup, clock, k) == clock.muxPts + k * setup.inFrame * clock.ticks / setup.outFrame
    ensures k * setup.inFrame * clock.ticks >= 0
  {
    var n, rate := k * setup.inFrame, setup.outRate;
    assert n >= 0;
    assert n * rate * clock.ticks == (n * clock.ticks) * rate;
    assert n * clock.ticks >= 0 && (n * clock.ticks) * rate >= 0;
    QuotientCancel(n * clock.ticks, setup.outFrame, rate);
  }

  /** The timestamp computed for a packet starts its first frame's interval: the FIFO holds under one frame. */
  lemma StartOffset(n: nat, r: nat, size: nat, ticks: nat)
    requires r < size
    ensures n * ticks <= (n * size + r) * ticks / size
    ensures if ticks > 0 then (n * size + r) * ticks / size < n * ticks + ticks
            else (n * size + r) * ticks / size == n * ticks
  {
    assert (n * size + r) * ticks == (n * ticks) * size + r * ticks;
    QuotientShift(n * ticks, r * ticks, size);
    FractionBelow(r, size, ticks);
  }

  /** Packet `k` of the run has index `k` and decodes to one input frame. */
  predicate SteadyInput(setup: Setup, clock: Clock, w: Worker, ps: seq<Packet>)
    requires setup.Valid() && Progress(w.decoder) && forall p | p in ps :: p.duration != 0
  {
    forall k | 0 <= k < |ps| :: HasIndex(clock, ps[k], k) && DecodesAt(setup, clock, w, ps, k) == setup.inFrame
  }

  /** How many samples the decoder produces while packet `k` is handled. */
  function DecodesAt(setup: Setup, clock: Clock, w: Worker, ps: seq<Packet>, k: nat): (n: nat)
    requires setup.Valid() && Progress(w.decoder) && (forall p | p in ps :: p.duration != 0) && k < |ps|
  {
    var before, after := Run(setup, clock, w, ps[..k]), Run(setup, clock, w, ps[..k + 1]);
    if Consumes(before, after) then |Produced(before, after)| else 0
  }

  /** Frame `n` lies in the `n`-th tick interval after the mux start. */
  predicate OnGrid(frames: seq<Frame>, muxPts: int, ticks: nat)
  {
    forall n | 0 <= n < |frames| ::
      && n * ticks <= frames[n].pts - muxPts
      && (frames[n].pts - muxPts < (n + 1) * ticks || ticks == 0 == frames[n].pts - muxPts)
  }

  lemma GridStep(frames: seq<Frame>, more: seq<Frame>, muxPts: int, ticks: nat, start: int)
    requires OnGrid(frames, muxPts, ticks)
    requires |frames| * ticks <= start - muxPts
    requires start - muxPts < |frames| * ticks + ticks || ticks == 0 == start - muxPts
    requires forall j | 0 <= j < |more| :: more[j].pts == start + j * ticks
    ensures OnGrid(frames + more, muxPts, ticks)
  {
    forall n | 0 <= n < |frames + more|
      ensures n * ticks <= (frames + more)[n].pts - muxPts
      ensures (frames + more)[n].pts - muxPts < (n + 1) * ticks || ticks == 0 == (frames + more)[n].pts - muxPts
    {
      if n >= |frames| {
        var j := n - |frames|;
        assert (frames + more)[n] == more[j];
        assert n * ticks == |frames| * ticks + j * ticks && (n + 1) * ticks == n * ticks + ticks;
      }
    }
  }

  /** What a steady run has reached after `k` packets. */
  predicate Steady(setup: Setup, clock: Clock, w: Worker, k: nat)
  {
    && |w.fifo| < setup.outFrame
    && |w.written| * setup.outFrame + |w.fifo| == k * setup.inFrame
    && OnGrid(w.written, clock.muxPts, clock.ticks)
  }

  lemma SteadyStep(setup: Setup, clock: Clock, b: Worker, e: Worker, k: nat, frames: seq<Frame>)
    requires setup.Valid() && Steady(setup, clock, b, k) && |e.fifo| < setup.outFrame
    requires Consumes(b, e) && |Produced(b, e)| == setup.inFrame
    requires Extends(b, PtsOfIndex(setup, clock, k), frames, e, setup.outFrame, clock.ticks, Produced(b, e))
    ensures Steady(setup, clock, e, k + 1)
  {
    SteadyCount(setup, b, e, k, frames, PtsOfIndex(setup, clock, k), clock.ticks);
    PtsOfIndexIs(setup, clock, k);
    StartOffset(|b.written|, |b.fifo|, setup.outFrame, clock.ticks);
    hide PtsOfIndex, Consumes, Produced;
    GridStep(b.written, frames, clock.muxPts, clock.ticks, PtsOfIndex(setup, clock, k));
  }

  lemma SteadyCount(setup: Setup, b: Worker, e: Worker, k: nat, frames: seq<Frame>, now: int, ticks: nat)
    requires |b.written| * setup.outFrame + |b.fifo| == k * setup.inFrame
    requires Consumes(b, e) && |Produced(b, e)| == setup.inFrame
    requires Extends(b, now, frames, e, setup.outFrame, ticks, Produced(b, e))
    ensures |e.written| * setup.outFrame + |e.fifo| == (k + 1) * setup.inFrame
  {
    FlatLength(frames, setup.outFrame);
    assert |Flat(frames) + e.fifo| == |b.fifo + Produced(b, e)|;
    assert (|b.written| + |frames|) * setup.outFrame == |b.written| * setup.outFrame + |frames| * setup.outFrame;
    assert (k + 1) * setup.inFrame == k * setup.inFrame + setup.inFrame;
  }

  /** One packet of a run. */
  lemma RunTurn(setup: Setup, clock: Clock, w: Worker, ps: seq<Packet>, k: nat) returns (frames: seq<Frame>)
    requires setup.Valid() && Progress(w.decoder) && (forall p | p in ps :: p.duration != 0) && k < |ps|
    ensures var b, e := Run(setup, clock, w, ps[..k]), Run(setup, clock, w, ps[..k + 1]);
            && Consumes(b, e) && |e.fifo| < setup.outFrame && DecodesAt(setup, clock, w, ps, k) == |Produced(b, e)|
            && Extends(b, PtsOfIndex(setup, clock, PacketIndex(clock, ps[k])), frames, e,
                       setup.outFrame, clock.ticks, Produced(b, e))
  {
    hide Extends, Consumes, Produced, PtsOfIndex, PacketIndex, FlowLoop;
    var b := Run(setup, clock, w, ps[..k]);
    assert ps[..k + 1][..k] == ps[..k];
    assert Run(setup, clock, w, ps[..k + 1]) == FlowPacket(setup, clock, b, ps[k]).worker;
    frames := FlowExtends(setup.outFrame, clock.ticks, b, FirstPts(setup, clock, ps[k]), ps[k].size);
  }

  lemma SteadyAt(setup: Setup, clock: Clock, w: Worker, ps: seq<Packet>, k: nat)
    requires setup.Valid() && Progress(w.decoder) && forall p | p in ps :: p.duration != 0
    requires SteadyInput(setup, clock, w, ps) && k < |ps|
    ensures PacketIndex(clock, ps[k]) == k && DecodesAt(setup, clock, w, ps, k) == setup.inFrame
  {
    PacketIndexExactly(clock, ps[k], k);
    hide PacketIndex, HasIndex, DecodesAt;
  }

  lemma RunOfNone(setup: Setup, clock: Clock, w: Worker, ps: seq<Packet>)
    requires setup.Valid() && Progress(w.decoder) && forall p | p in ps :: p.duration != 0
    ensures Run(setup, clock, w, ps[..0]) == w
  {
  }

  lemma SteadyStart(setup: Setup, clock: Clock, w: Worker)
    requires setup.Valid() && w.written == [] && w.fifo == []
    ensures Steady(setup, clock, w, 0)
  {
  }

  lemma {:induction false} SteadyRun(setup: Setup, clock: Clock, w: Worker, ps: seq<Packet>, k: nat)
    requires setup.Valid() && Progress(w.decoder) && forall p | p in ps :: p.duration != 0
    requires w.written == [] && w.fifo == [] && SteadyInput(setup, clock, w, ps) && k <= |ps|
    ensures Steady(setup, clock, Run(setup, clock, w, ps[..k]), k)
    decreases k
  {
    hide Steady, Extends, Consumes, Produced, PtsOfIndex, PacketIndex, Run, DecodesAt, SteadyInput;
    SteadyStart(setup, clock, w);
    RunOfNone(setup, clock, w, ps);
    if k > 0 {
      SteadyRun(setup, clock, w, ps, k - 1);
      SteadyAt(setup, clock, w, ps, k - 1);
      var b := Run(setup, clock, w, ps[..k - 1]);
      var e := Run(setup, clock, w, ps[..k]);
      var frames := RunTurn(setup, clock, w, ps, k - 1);
      SteadyStep(setup, clock, b, e, k - 1, frames);
    }
  }

  predicate Increasing(frames: seq<Frame>)
  {
    forall i, j | 0 <= i < j < |frames| :: frames[i].pts < frames[j].pts
  }

  /**
   No drift, however long the run: each frame's timestamp stays in its own
   interval. The timestamps increase exactly when a frame lasts at least one
   tick (or there is at most one frame).
   */
  lemma NoDrift(setup: Setup, clock: Clock, w: Worker, ps: seq<Packet>)
    requires setup.Valid() && Progress(w.decoder) && forall p | p in ps :: p.duration != 0
    requires w.written == [] && w.fifo == [] && SteadyInput(setup, clock, w, ps)
    ensures var frames := Run(setup, clock, w, ps).written;
            && |frames| == |ps| * setup.inFrame / setup.outFrame
            && OnGrid(frames, clock.muxPts, clock.ticks)
            && (Increasing(frames) <==> clock.ticks > 0 || |frames| <= 1)
  {
    SteadyRun(setup, clock, w, ps, |ps|);
    assert ps[..|ps|] == ps;
    hide Run, SteadyInput, Progress, OnGrid, Increasing;
    var e := Run(setup, clock, w, ps);
    var frames := e.written;
    QuotientIs(|ps| * setup.inFrame, setup.outFrame, |frames|);
    GridIncreases(frames, clock.muxPts, clock.ticks);
  }

  /** A packet that decodes to exactly one frame, handed to a worker with an empty FIFO, gives that frame. */
  lemma OneFrameFlow(setup: Setup, clock: Clock, w: Worker, p: Packet)
    requires setup.Valid() && Progress(w.decoder) && p.duration != 0
    requires w.fifo == [] && !DecodeFails(w)
    requires w.decoder[0].consumed >= p.size && |w.decoder[0].samples| == setup.outFrame
    ensures var now := FirstPts(setup, clock, p);
            FlowPacket(setup, clock, w, p).worker
            == Worker([], w.written + [Frame(w.decoder[0].samples, now)], now + clock.ticks, w.decoder[1..])
  {
    var size, now, s := setup.outFrame, FirstPts(setup, clock, p), w.decoder[0].samples;
    hide FirstPts;
    var w' := AfterDecode(w);
    assert w'.fifo == s && s[..size] == s && s[size..] == [];
    DrainTurn(size, clock.ticks, w', now);
    DrainTurn(size, clock.ticks, EncodeOne(size, clock.ticks, w', now), now + clock.ticks);
    FlowTurn(size, clock.ticks, w, now, p.size);
  }

  /** After `k` of two packets that decode to `s` each, if no frame takes a tick. */
  function StillWorker(s: seq<Sample>, k: nat): (w: Worker)
    requires k <= 2
    ensures Progress(w.decoder)
  {
    Worker([], seq(k, _ => Frame(s, 0)), 0, seq(2 - k, _ => Decoded(1, s)))
  }

  lemma StillFlow(setup: Setup, clock: Clock, s: seq<Sample>, p: Packet, k: nat)
    requires setup.Valid() && clock.ticks == 0 && |s| == setup.outFrame && k < 2
    requires p.size == 1 && p.duration != 0 && FirstPts(setup, clock, p) == 0
    ensures FlowPacket(setup, clock, StillWorker(s, k), p).worker == StillWorker(s, k + 1)
    ensures Consumes(StillWorker(s, k), StillWorker(s, k + 1))
    ensures Produced(StillWorker(s, k), StillWorker(s, k + 1)) == s
  {
    hide FirstPts, FlowPacket, Consumes, Produced;
    var w, w' := StillWorker(s, k), StillWorker(s, k + 1);
    assert w.decoder[1..] == w'.decoder && w.written + [Frame(s, 0)] == w'.written;
    OneFrameFlow(setup, clock, w, p);
    OneResult(w, w');
  }

  lemma {:induction false} StillRun(setup: Setup, clock: Clock, s: seq<Sample>, ps: seq<Packet>, k: nat)
    requires setup.Valid() && clock.ticks == 0 && |s| == setup.outFrame && k <= |ps| == 2
    requires forall p | p in ps :: p.size == 1 && p.duration != 0 && FirstPts(setup, clock, p) == 0
    ensures Run(setup, clock, StillWorker(s, 0), ps[..k]) == StillWorker(s, k)
    decreases k
  {
    hide FirstPts, FlowPacket, StillWorker;
    if k > 0 {
      StillRun(setup, clock, s, ps, k - 1);
      StillFlow(setup, clock, s, ps[k - 1], k - 1);
      assert ps[..k][..k - 1] == ps[..k - 1];
    }
  }

  lemma StillSamples(setup: Setup, clock: Clock, s: seq<Sample>, ps: seq<Packet>, k: nat)
    requires setup.Valid() && clock.ticks == 0 && |s| == setup.outFrame && k < |ps| == 2
    requires forall p | p in ps :: p.size == 1 && p.duration != 0 && FirstPts(setup, clock, p) == 0
    ensures DecodesAt(setup, clock, StillWorker(s, 0), ps, k) == |s|
  {
    hide FirstPts, Run, Consumes, Produced, StillWorker;
    StillRun(setup, clock, s, ps, k);
    StillRun(setup, clock, s, ps, k + 1);
    StillFlow(setup, clock, s, ps[k], k);
  }

  /** Two steady packets of one frame each, if a frame takes no tick. */
  lemma StillSteady(setup: Setup, clock: Clock, s: seq<Sample>, ps: seq<Packet>)
    requires setup.Valid() && clock.ticks == clock.muxPts == 0 && |s| == setup.outFrame == setup.inFrame && |ps| == 2
    requires forall k | 0 <= k < 2 :: ps[k].size == 1 && HasIndex(clock, ps[k], k)
    requires forall p | p in ps :: p.duration != 0
    ensures SteadyInput(setup, clock, StillWorker(s, 0), ps)
    ensures Run(setup, clock, StillWorker(s, 0), ps) == StillWorker(s, 2)
  {
    PacketIndexExactly(clock, ps[0], 0);
    PacketIndexExactly(clock, ps[1], 1);
    assert ps[0].duration > 0 && ps[1].duration > 0;
    hide PacketIndex, HasIndex, PtsOfIndex, DecodesAt, Run, StillWorker;
    NoTicksNoTime(setup, clock, 0);
    NoTicksNoTime(setup, clock, 1);
    assert forall p | p in ps :: p == ps[0] || p == ps[1];
    StillSamples(setup, clock, s, ps, 0);
    StillSamples(setup, clock, s, ps, 1);
    StillRun(setup, clock, s, ps, 2);
    assert ps[..2] == ps;
  }

  /**
   A steady run whose timestamps do not increase: at 25 ticks a second a frame
   of 1024 samples at 48000 a second is cut to no tick at all, and the frames
   of two packets get the same timestamp.
   */
  lemma CoarseTicksStandStill(setup: Setup, clock: Clock, ps: seq<Packet>, s: seq<Sample>)
    requires setup == Setup(1024, 48000, 1024, 48000, 25) && clock == Clock(0, 0, setup.FrameTicks())
    requires ps == [Packet(0, 1, 1), Packet(1, 1, 1)] && |s| == 1024
    ensures SteadyInput(setup, clock, StillWorker(s, 0), ps)
    ensures var frames := Run(setup, clock, StillWorker(s, 0), ps).written;
            frames == [Frame(s, 0), Frame(s, 0)] && !Increasing(frames)
  {
    assert setup.FrameTicks() == 0;
    assert HasIndex(clock, ps[0], 0) && HasIndex(clock, ps[1], 1);
    hide Run, StillWorker, SteadyInput, HasIndex;
    StillSteady(setup, clock, s, ps);
    StillFrames(s);
  }

  lemma NoTicksNoTime(setup: Setup, clock: Clock, k: nat)
    requires setup.Valid() && clock.ticks == 0
    ensures PtsOfIndex(setup, clock, k) == clock.muxPts
  {
    PtsOfIndexIs(setup, clock, k);
  }

  lemma StillFrames(s: seq<Sample>)
    ensures StillWorker(s, 2).written == [Frame(s, 0), Frame(s, 0)] && !Increasing(StillWorker(s, 2).written)
  {
    var frames := StillWorker(s, 2).written;
    assert frames[0].pts == frames[1].pts;
  }

  lemma GridIncreases(frames: seq<Frame>, muxPts: int, ticks: nat)
    requires OnGrid(frames, muxPts, ticks)
    ensures Increasing(frames) <==> ticks > 0 || |frames| <= 1
  {
    forall i, j | 0 <= i < j < |frames|
      ensures frames[i].pts < frames[j].pts <==> ticks > 0
    {
      MulMonotone(i + 1, j, ticks);
    }
    assert |frames| > 1 && Increasing(frames) ==> frames[0].pts < frames[1].pts;
  }

  // ---------- packets missing ----------

  /** Packet `k` has index `ks[k]`, these increase, and each packet decodes to at most one input frame. */
  predicate SparseInput(setup: Setup, clock: Clock, w: Worker, ps: seq<Packet>, ks: seq<nat>)
    requires setup.Valid() && Progress(w.decoder) && forall p | p in ps :: p.duration != 0
  {
    && |ks| == |ps|
    && (forall k | 0 <= k < |ps| ::
          HasIndex(clock, ps[k], ks[k]) && DecodesAt(setup, clock, w, ps, k) <= setup.inFrame)
    && (forall j, k | 0 <= j < k < |ps| :: ks[j] < ks[k])
  }

  predicate NonDecreasing(frames: seq<Frame>)
  {
    forall i, j | 0 <= i < j < |frames| :: frames[i].pts <= frames[j].pts
  }

  predicate AllBy(frames: seq<Frame>, limit: int)
  {
    forall i | 0 <= i < |frames| :: frames[i].pts <= limit
  }

  lemma PtsMonotone(setup: Setup, clock: Clock, i: nat, j: nat)
    requires setup.Valid() && i <= j
    ensures PtsOfIndex(setup, clock, i) <= PtsOfIndex(setup, clock, j)
  {
    PtsOfIndexIs(setup, clock, i);
    PtsOfIndexIs(setup, clock, j);
    MulMonotone(i, j, setup.inFrame);
    MulMonotone(i * setup.inFrame, j * setup.inFrame, clock.ticks);
    QuotientMonotone(i * setup.inFrame * clock.ticks, j * setup.inFrame * clock.ticks, setup.outFrame);
  }

  /** The last of the `c` frames that one packet can complete is not later than the next packet's first. */
  lemma PacketFitsItsSlot(setup: Setup, clock: Clock, i: nat, c: nat)
    requires setup.Valid() && c >= 1 && c * setup.outFrame < setup.outFrame + setup.inFrame
    ensures PtsOfIndex(setup, clock, i) + (c - 1) * clock.ticks <= PtsOfIndex(setup, clock, i + 1)
  {
    PtsOfIndexIs(setup, clock, i);
    PtsOfIndexIs(setup, clock, i + 1);
    SlotFits(i * setup.inFrame * clock.ticks, setup.inFrame, setup.outFrame, clock.ticks, c);
    hide PtsOfIndex;
    assert (i + 1) * setup.inFrame * clock.ticks == i * setup.inFrame * clock.ticks + setup.inFrame * clock.ticks;
  }

  lemma SlotFits(x: int, n: nat, size: nat, ticks: nat, c: nat)
    requires size > 0 && c >= 1 && c * size < size + n
    ensures x / size + (c - 1) * ticks <= (x + n * ticks) / size
  {
    var d := c - 1;
    assert d * size <= n;
    MulMonotone(d * size, n, ticks);
    assert (d * ticks) * size == (d * size) * ticks;
    QuotientAtLeast(n * ticks, size, d * ticks);
    QuotientSum(x, n * ticks, size);
  }

  lemma AppendInOrder(frames: seq<Frame>, more: seq<Frame>, start: int, ticks: nat, limit: int)
    requires NonDecreasing(frames) && AllBy(frames, start)
    requires forall j | 0 <= j < |more| :: more[j].pts == start + j * ticks
    requires start <= limit && (|more| > 0 ==> start + (|more| - 1) * ticks <= limit)
    ensures NonDecreasing(frames + more) && AllBy(frames + more, limit)
  {
    var all := frames + more;
    forall j | 0 <= j < |more|
      ensures start <= more[j].pts <= limit
    {
      MulMonotone(0, j, ticks);
      MulMonotone(j, |more| - 1, ticks);
    }
    forall i, j | 0 <= i < j < |all|
      ensures all[i].pts <= all[j].pts
    {
      if i >= |frames| {
        MulMonotone(i - |frames|, j - |frames|, ticks);
        assert all[i] == more[i - |frames|] && all[j] == more[j - |frames|];
      }
    }
  }

  lemma FrameCountBound(b: Worker, e: Worker, frames: seq<Frame>, size: nat, ticks: nat, now: int, most: nat)
    requires |b.fifo| < size && Consumes(b, e) && |Produced(b, e)| <= most
    requires Extends(b, now, frames, e, size, ticks, Produced(b, e))
    ensures |frames| * size < size + most
  {
    FlatLength(frames, size);
    assert |Flat(frames) + e.fifo| == |b.fifo + Produced(b, e)|;
  }

  /** The timestamps so far are in order, and none is later than that of index `next`. */
  predicate Ordered(setup: Setup, clock: Clock, w: Worker, next: nat)
    requires setup.Valid()
  {
    |w.fifo| < setup.outFrame && NonDecreasing(w.written) && AllBy(w.written, PtsOfIndex(setup, clock, next))
  }

  lemma OrderedLater(setup: Setup, clock: Clock, w: Worker, i: nat, j: nat)
    requires setup.Valid() && i <= j && Ordered(setup, clock, w, i)
    ensures Ordered(setup, clock, w, j)
  {
    PtsMonotone(setup, clock, i, j);
  }

  lemma SparseStep(setup: Setup, clock: Clock, b: Worker, e: Worker, i: nat, frames: seq<Frame>)
    requires setup.Valid() && Ordered(setup, clock, b, i) && |e.fifo| < setup.outFrame
    requires Consumes(b, e) && |Produced(b, e)| <= setup.inFrame
    requires Extends(b, PtsOfIndex(setup, clock, i), frames, e, setup.outFrame, clock.ticks, Produced(b, e))
    ensures Ordered(setup, clock, e, i + 1)
  {
    FrameCountBound(b, e, frames, setup.outFrame, clock.ticks, PtsOfIndex(setup, clock, i), setup.inFrame);
    PtsMonotone(setup, clock, i, i + 1);
    if frames != [] {
      PacketFitsItsSlot(setup, clock, i, |frames|);
    }
    hide PtsOfIndex, NonDecreasing, AllBy, Produced, Consumes;
    AppendInOrder(b.written, frames, PtsOfIndex(setup, clock, i), clock.ticks, PtsOfIndex(setup, clock, i + 1));
  }

  /** The first index that packet `k` may have. */
  function NextIndex(ks: seq<nat>, k: nat): (i: nat)
    requires k <= |ks|
  {
    if k == 0 then 0 else ks[k - 1] + 1
  }

  lemma SparseAt(setup: Setup, clock: Clock, w: Worker, ps: seq<Packet>, ks: seq<nat>, k: nat)
    requires setup.Valid() && Progress(w.decoder) && forall p | p in ps :: p.duration != 0
    requires SparseInput(setup, clock, w, ps, ks) && k < |ps|
    ensures |ks| == |ps| && NextIndex(ks, k) <= ks[k] == PacketIndex(clock, ps[k])
    ensures DecodesAt(setup, clock, w, ps, k) <= setup.inFrame
    ensures NextIndex(ks, k + 1) == ks[k] + 1
  {
    PacketIndexExactly(clock, ps[k], ks[k]);
    hide PacketIndex, HasIndex, DecodesAt;
  }

  lemma SparseStart(setup: Setup, clock: Clock, w: Worker, ks: seq<nat>)
    requires setup.Valid() && w.written == [] && |w.fifo| < setup.outFrame
    ensures NextIndex(ks, 0) == 0 && Ordered(setup, clock, w, 0)
  {
  }

  lemma {:induction false} SparseRun(setup: Setup, clock: Clock, w: Worker, ps: seq<Packet>, ks: seq<nat>, k: nat)
    requires setup.Valid() && Progress(w.decoder) && forall p | p in ps :: p.duration != 0
    requires w.written == [] && |w.fifo| < setup.outFrame && SparseInput(setup, clock, w, ps, ks)
    requires k <= |ps| == |ks|
    ensures Ordered(setup, clock, Run(setup, clock, w, ps[..k]), NextIndex(ks, k))
    decreases k
  {
    hide Ordered, Extends, Consumes, Produced, PtsOfIndex, PacketIndex, Run, DecodesAt, SparseInput, NextIndex;
    SparseStart(setup, clock, w, ks);
    RunOfNone(setup, clock, w, ps);
    if k > 0 {
      SparseRun(setup, clock, w, ps, ks, k - 1);
      var b := Run(setup, clock, w, ps[..k - 1]);
      var e := Run(setup, clock, w, ps[..k]);
      SparseAt(setup, clock, w, ps, ks, k - 1);
      var frames := RunTurn(setup, clock, w, ps, k - 1);
      OrderedLater(setup, clock, b, NextIndex(ks, k - 1), ks[k - 1]);
      SparseStep(setup, clock, b, e, ks[k - 1], frames);
    }
  }

  /** Lost packets and packets that decode short never make a timestamp go back. */
  lemma MonotoneDespiteLoss(setup: Setup, clock: Clock, w: Worker, ps: seq<Packet>, ks: seq<nat>)
    requires setup.Valid() && Progress(w.decoder) && forall p | p in ps :: p.duration != 0
    requires w.written == [] && |w.fifo| < setup.outFrame && SparseInput(setup, clock, w, ps, ks)
    ensures NonDecreasing(Run(setup, clock, w, ps).written)
  {
    SparseRun(setup, clock, w, ps, ks, |ps|);
    assert ps[..|ps|] == ps;
  }

  // ---------- the truncated frame length ----------

  /** In whole numbers: `p` ticks never lead the exact time `n * den / rate` of sample `n`. */
  lemma TruncationNeverLeads(n: nat, size: nat, den: nat, rate: nat, ticks: nat, p: nat)
    requires size > 0 && rate > 0 && ticks * rate <= size * den && p * size <= n * ticks
    ensures p * rate <= n * den
  {
    calc <= {
      (p * rate) * size;
      { Swap(p, rate, size); }
      (p * size) * rate;
      { MulMonotone(p * size, n * ticks, rate); }
      (n * ticks) * rate;
      { Swap(n, ticks, rate); }
      (ticks * rate) * n;
      { MulMonotone(ticks * rate, size * den, n); }
      (size * den) * n;
      { Swap(size, den, n); }
      (n * den) * size;
    }
    MulCancel(p * rate, n * den, size);
  }

  lemma TruncationLag(n: nat, size: nat, den: nat, rate: nat, ticks: nat, p: nat)
    requires size > 0 && rate > 0 && size * den < ticks * rate + rate && n * ticks < p * size + size
    ensures (n * den) * size < (p * rate) * size + (n + size) * rate
  {
    Swap(n, den, size);
    MulMonotone(size * den, ticks * rate + rate, n);
    Spread(ticks * rate, rate, n);
    Swap(ticks, rate, n);
    MulMonotone(n * ticks + 1, p * size + size, rate);
    Spread(n * ticks, 1, rate);
    Spread(p * size, size, rate);
    Swap(p, size, rate);
    Spread(n, size, rate);
    LagSum((n * den) * size, (ticks * rate) * n, rate * n, (p * rate) * size, size * rate, rate);
  }

  /** The sum of the two lags, with a name for each product. */
  lemma LagSum(exact: int, cut: int, first: int, stamp: int, second: int, rate: int)
    requires exact <= cut + first && cut + rate <= stamp + second && rate > 0
    ensures exact < stamp + (first + second)
  {
  }

  lemma Swap(a: int, b: int, c: int)
    ensures (a * b) * c == (c * b) * a == (a * c) * b == (c * a) * b && b * c == c * b
  {
  }

  lemma Spread(a: int, b: int, c: int)
    ensures (a + b) * c == a * c + b * c
  {
  }

  /** Both bounds, over the reals, from what the two divisions leave. */
  lemma TruncationCore(n: nat, size: nat, den: nat, rate: nat, ticks: nat, p: nat)
    requires size > 0 && rate > 0
    requires ticks * rate <= size * den < ticks * rate + rate && p * size <= n * ticks < p * size + size
    ensures 0.0 <= (n * den) as real / rate as real - p as real < n as real / size as real + 1.0
  {
    TruncationNeverLeads(n, size, den, rate, ticks, p);
    TruncationLag(n, size, den, rate, ticks, p);
    AsLag(n, n * den, p, size, rate);
  }

  /** How far the timestamp of packet index `k` lies behind the exact time of its first sample, in ticks. */
  function Lag(setup: Setup, clock: Clock, k: nat): (lag: real)
    requires setup.Valid()
  {
    (k * setup.inFrame * setup.den) as real / setup.outRate as real
    - (PtsOfIndex(setup, clock, k) - clock.muxPts) as real
  }

  /**
   With the frame length cut to whole ticks, the timestamp of packet index `k`
   never leads the exact time of its first sample, `k * In * den / rate`, and
   lags it by less than `k * In / F + 1` ticks.
   */
  lemma TruncationBound(setup: Setup, clock: Clock, k: nat)
    requires setup.Valid() && clock.ticks == setup.FrameTicks()
    ensures var n := k * setup.inFrame;
            0.0 <= Lag(setup, clock, k) < n as real / setup.outFrame as real + 1.0
  {
    PtsOfIndexIs(setup, clock, k);
    var n, p := k * setup.inFrame, PtsOfIndex(setup, clock, k) - clock.muxPts;
    QuotientBounds(n * clock.ticks, setup.outFrame);
    QuotientAtLeast(n * clock.ticks, setup.outFrame, 0);
    QuotientBounds(setup.outFrame * setup.den, setup.outRate);
    hide PtsOfIndex;
    TruncationCore(n, setup.outFrame, setup.den, setup.outRate, clock.ticks, p);
  }

  lemma AsLag(n: nat, x: nat, p: nat, size: nat, rate: nat)
    requires size > 0 && rate > 0 && p * rate <= x && x * size < (p * rate) * size + (n + size) * rate
    ensures 0.0 <= x as real / rate as real - p as real < n as real / size as real + 1.0
  {
    var (xr, pr, nr, s, r) := (x as real, p as real, n as real, size as real, rate as real);
    assert pr * r <= xr;
    assert xr * s < pr * r * s + (nr + s) * r;
    RealLag(xr, pr, nr, s, r);
  }

  lemma RealLag(x: real, p: real, n: real, s: real, r: real)
    requires s > 0.0 && r > 0.0 && p * r <= x && x * s < p * r * s + (n + s) * r
    ensures 0.0 <= x / r - p < n / s + 1.0
  {
    var q, f := x / r, n / s;
    assert x == q * r && n == f * s;
    RealCancel(p, q, r);
    var b := r * s;
    assert x * s == q * b;
    assert p * r * s == p * b;
    assert (n + s) * r == f * b + b;
    RealBelow(q, p, f, b, x * s, p * r * s, (n + s) * r);
  }

  lemma RealBelow(q: real, p: real, f: real, b: real, left: real, mid: real, right: real)
    requires b > 0.0 && left == q * b && mid == p * b && right == f * b + b && left < mid + right
    ensures q < p + f + 1.0
  {
    assert (p + f + 1.0) * b == p * b + f * b + b;
    RealCancel(p + f + 1.0, q, b);
  }

  lemma RealCancel(u: real, v: real, b: real)
    requires b > 0.0
    ensures u * b <= v * b ==> u <= v
    ensures v * b < u * b ==> v < u
  {
  }
}
