/**
 The audio worker: decoded samples go into a FIFO, full encoder frames come
 out, and each gets a timestamp that is recomputed from its packet's own one.

 The decoder is a script of results, one for each call; the resampler keeps
 the number of samples, as the original asserts equal rates; the encoder is
 the log of the frames it was given. Timestamps are exact quotients, cut where
 the original converts to an integer.
 */
module AudioFlow {
  import opened Arith
  import opened Wrappers

  /** One sample of all channels. */
  type Sample = int

  /** A frame handed to the encoder, with the timestamp put on its packet. */
  datatype Frame = Frame(samples: seq<Sample>, pts: int)

  /** What one decoder call does: fail, or use up some bytes and give some samples (possibly none yet). */
  datatype DecodeResult = DecodeFailed | Decoded(consumed: nat, samples: seq<Sample>)

  /** Codec parameters: input frame size and rate, output frame size and rate, ticks per second of the output. */
  datatype Setup = Setup(inFrame: nat, inRate: nat, outFrame: nat, outRate: nat, den: nat)
  {
    /** The rates are equal by the assertion in the resampler set-up. */
    predicate Valid() { outFrame > 0 && inRate == outRate > 0 }

    /** An output frame's length in ticks, cut to an integer. */
    function FrameTicks(): (d: nat)
      requires Valid()
    {
      outFrame * den / outRate
    }
  }

  datatype Clock = Clock(startTime: int, muxPts: int, ticks: nat)

  /** A packet as the demuxer delivers it. */
  datatype Packet = Packet(pts: int, duration: int, size: nat)

  datatype Worker = Worker(fifo: seq<Sample>, written: seq<Frame>, endpoint: int, decoder: seq<DecodeResult>)

  /** Each decoder call fails or uses at least one byte. */
  predicate Progress(decoder: seq<DecodeResult>)
  {
    forall r | r in decoder :: r.Decoded? ==> r.consumed >= 1
  }

  // ---------- the clock ----------

  /** The whole number of packet durations since the start; a packet before the start counts as 0. */
  function PacketIndex(clock: Clock, p: Packet): (k: int)
    requires p.duration != 0
  {
    TruncDiv(Max(p.pts - clock.startTime, 0), p.duration)
  }

  function PtsOfIndex(setup: Setup, clock: Clock, k: int): (pts: int)
    requires setup.Valid()
  {
    clock.muxPts + TruncDiv(k * setup.inFrame * setup.outRate * clock.ticks, setup.inRate * setup.outFrame)
  }

  /** The timestamp of the first frame written while packet `p` is handled. */
  function FirstPts(setup: Setup, clock: Clock, p: Packet): (pts: int)
    requires setup.Valid() && p.duration != 0
  {
    PtsOfIndex(setup, clock, PacketIndex(clock, p))
  }

  // ---------- the loops ----------

  datatype Drained = Drained(worker: Worker, now: int)

  /** One turn of the inner loop: the oldest full frame is encoded. */
  function EncodeOne(size: nat, ticks: nat, w: Worker, now: int): (w': Worker)
    requires |w.fifo| >= size
  {
    w.(fifo := w.fifo[size..], written := w.written + [Frame(w.fifo[..size], now)], endpoint := now + ticks)
  }

  /** The inner loop: encode while a full frame is there. */
  function Drain(size: nat, ticks: nat, w: Worker, now: int): (d: Drained)
    requires size > 0
    ensures |d.worker.fifo| < size && d.worker.decoder == w.decoder
    decreases |w.fifo|
  {
    if |w.fifo| < size then Drained(w, now)
    else Drain(size, ticks, EncodeOne(size, ticks, w, now), now + ticks)
  }

  lemma DrainTurn(size: nat, ticks: nat, w: Worker, now: int)
    requires size > 0
    ensures Drain(size, ticks, w, now) ==
            if |w.fifo| < size then Drained(w, now)
            else Drain(size, ticks, EncodeOne(size, ticks, w, now), now + ticks)
  {
  }

  /** `left` is what the packet still holds when the flow ends, with success or without. */
  datatype FlowResult = FlowResult(worker: Worker, left: nat, ok: bool)

  predicate DecodeFails(w: Worker) { w.decoder == [] || w.decoder[0].DecodeFailed? }

  function AfterFailure(w: Worker): (w': Worker)
  {
    if w.decoder == [] then w else w.(decoder := w.decoder[1..])
  }

  function AfterDecode(w: Worker): (w': Worker)
    requires !DecodeFails(w)
  {
    w.(fifo := w.fifo + w.decoder[0].samples, decoder := w.decoder[1..])
  }

  /** The state after one pass of the outer loop that does not fail. */
  function Pass(size: nat, ticks: nat, w: Worker, now: int): (d: Drained)
    requires size > 0 && (|w.fifo| >= size || !DecodeFails(w))
  {
    Drain(size, ticks, if |w.fifo| < size then AfterDecode(w) else w, now)
  }

  function BytesUsed(size: nat, w: Worker, left: nat): (n: nat)
    requires |w.fifo| >= size || !DecodeFails(w)
    ensures n <= left
  {
    if |w.fifo| < size then Min(w.decoder[0].consumed, left) else 0
  }

  /** The outer loop. A pass that finds a full frame waiting decodes nothing and uses no bytes. */
  function FlowLoop(size: nat, ticks: nat, w: Worker, now: int, left: nat): (r: FlowResult)
    requires size > 0 && Progress(w.decoder)
    ensures Progress(r.worker.decoder)
    decreases left, if |w.fifo| >= size then 1 else 0
  {
    if |w.fifo| < size && DecodeFails(w) then FlowResult(AfterFailure(w), left, false)
    else
      var d := Pass(size, ticks, w, now);
      var left' := left - BytesUsed(size, w, left);
      if left' > 0 then FlowLoop(size, ticks, d.worker, d.now, left')
      else FlowResult(d.worker, 0, true)
  }

  lemma FlowTurn(size: nat, ticks: nat, w: Worker, now: int, left: nat)
    requires size > 0 && Progress(w.decoder)
    ensures |w.fifo| < size && DecodeFails(w) ==>
              FlowLoop(size, ticks, w, now, left) == FlowResult(AfterFailure(w), left, false)
    ensures |w.fifo| >= size || !DecodeFails(w) ==>
              var d := Pass(size, ticks, w, now);
              var left' := left - BytesUsed(size, w, left);
              && Progress(d.worker.decoder)
              && (left' > 0 ==> left' < left || |w.fifo| >= size)
              && FlowLoop(size, ticks, w, now, left) ==
                   if left' > 0 then FlowLoop(size, ticks, d.worker, d.now, left') else FlowResult(d.worker, 0, true)
  {
  }

  function FlowPacket(setup: Setup, clock: Clock, w: Worker, p: Packet): (r: FlowResult)
    requires setup.Valid() && p.duration != 0 && Progress(w.decoder)
    ensures Progress(r.worker.decoder)
  {
    FlowLoop(setup.outFrame, clock.ticks, w, FirstPts(setup, clock, p), p.size)
  }

  // ---------- the worker as an object ----------

  class AVPacket {
    const pts: int
    const duration: int
    var data: nat
    var size: nat

    constructor (p: Packet)
      ensures pts == p.pts && duration == p.duration && data == 0 && size == p.size
    {
      pts, duration, data, size := p.pts, p.duration, 0, p.size;
    }
  }

  class Audio {
    const setup: Setup
    var startTime: int
    var muxPts: int
    var endpoint: int
    var packetDuration: nat
    var fifo: seq<Sample>
    var written: seq<Frame>
    var decoder: seq<DecodeResult>

    constructor (setup: Setup, decoder: seq<DecodeResult>)
      ensures this.setup == setup && this.decoder == decoder && written == [] && fifo == []
    {
      this.setup, this.decoder, written, fifo := setup, decoder, [], [];
      startTime, muxPts, endpoint, packetDuration := 0, 0, 0, 0;
    }

    function State(): (w: Worker)
      reads this
    {
      Worker(fifo, written, endpoint, decoder)
    }

    function Time(): (c: Clock)
      reads this
    {
      Clock(startTime, muxPts, packetDuration)
    }

    method SetTime(pts: int, muxpts: int)
      modifies this`startTime, this`muxPts
      ensures Time() == Clock(pts, muxpts, old(packetDuration))
    {
      startTime := pts;
      muxPts := muxpts;
    }

    /** Opens an empty FIFO and fixes the frame length in ticks. */
    method InitalTool()
      requires setup.Valid()
      modifies this`fifo, this`packetDuration
      ensures State() == old(State()).(fifo := [])
      ensures Time() == old(Time()).(ticks := setup.FrameTicks())
    {
      fifo := [];
      packetDuration := setup.outFrame * setup.den / setup.outRate;
    }

    method AudioDecode() returns (ret: int)
      modifies this`fifo, this`decoder
      ensures State() == if old(DecodeFails(State())) then AfterFailure(old(State())) else AfterDecode(old(State()))
      ensures ret == if old(DecodeFails(State())) then -1 else old(decoder)[0].consumed
    {
      if decoder == [] {
        return -1;
      }
      var result := decoder[0];
      decoder := decoder[1..];
      match result
      case DecodeFailed => return -1;
      case Decoded(consumed, samples) =>
        fifo := fifo + samples;
        return consumed;
    }

    /** Takes a frame's worth of samples, or all of them when there are fewer, and encodes them. */
    method LoadEncodeAndWrite(now: int)
      requires setup.Valid()
      modifies this`fifo, this`written
      ensures var n := Min(|old(fifo)|, setup.outFrame);
              State() == old(State()).(fifo := old(fifo)[n..], written := old(written) + [Frame(old(fifo)[..n], now)])
    {
      var frameSize := Min(|fifo|, setup.outFrame);
      written := written + [Frame(fifo[..frameSize], now)];
      fifo := fifo[frameSize..];
    }

    /** The timestamp of the packet's first output frame. */
    method StartPts(packet: AVPacket) returns (now: int)
      requires setup.Valid() && packet.duration != 0
      ensures now == FirstPts(setup, Time(), Packet(packet.pts, packet.duration, packet.size))
    {
      var revised := if packet.pts - startTime < 0 then 0 else packet.pts - startTime;
      now := TruncDiv(TruncDiv(revised, packet.duration) * setup.inFrame * setup.outRate * packetDuration,
                      setup.inRate * setup.outFrame);
      now := now + muxPts;
    }

    /** The inner loop of `Flow`. */
    method EncodeFullFrames(from: int) returns (now: int)
      requires setup.Valid()
      modifies this`fifo, this`written, this`endpoint
      ensures Drained(State(), now) == Drain(setup.outFrame, packetDuration, old(State()), from)
    {
      now := from;
      while |fifo| >= setup.outFrame
        invariant Drain(setup.outFrame, packetDuration, State(), now) ==
                  Drain(setup.outFrame, packetDuration, old(State()), from)
        invariant decoder == old(decoder)
        decreases |fifo|
      {
        DrainTurn(setup.outFrame, packetDuration, State(), now);
        LoadEncodeAndWrite(now);
        now := now + packetDuration;
        endpoint := now;
      }
    }

    /** A packet of unknown duration, which the demuxer gives as 0, is divided by. */
    method Flow(packet: AVPacket) returns (o: Outcome)
      requires setup.Valid() && Progress(decoder)
      modifies this`fifo, this`written, this`endpoint, this`decoder, packet
      ensures o == Undefined <==> packet.duration == 0
      ensures packet.duration == 0 ==> State() == old(State()) && packet.size == old(packet.size)
      ensures packet.duration != 0 ==>
                var p := Packet(packet.pts, packet.duration, old(packet.size));
                var r := FlowPacket(setup, old(Time()), old(State()), p);
                State() == r.worker && packet.size == r.left && o == Returned(if r.ok then 0 else -1)
      ensures packet.data + packet.size == old(packet.data + packet.size)
    {
      if packet.duration == 0 {
        return Undefined;
      }
      var outputFrameSize := setup.outFrame;
      var now := StartPts(packet);
      ghost var first := now;
      hide FirstPts, Drain, FlowLoop, Progress, AfterDecode, AfterFailure, DecodeFails;
      while true
        invariant Progress(decoder)
        invariant FlowLoop(setup.outFrame, packetDuration, State(), now, packet.size) ==
                  FlowLoop(setup.outFrame, packetDuration, old(State()), first, old(packet.size))
        invariant packet.data + packet.size == old(packet.data + packet.size)
        decreases packet.size, if |fifo| >= setup.outFrame then 1 else 0
      {
        FlowTurn(setup.outFrame, packetDuration, State(), now, packet.size);
        var decoded := 0;
        if |fifo| < outputFrameSize {
          var ret := AudioDecode();
          decoded := Min(ret, packet.size);
          if ret < 0 {
            return Returned(-1);
          }
        }
        now := EncodeFullFrames(now);
        packet.data := packet.data + decoded;
        packet.size := packet.size - decoded;
        if packet.size == 0 {
          return Returned(0);
        }
      }
    }

    method ReturnEndPoint() returns (e: int)
      ensures e == endpoint
    {
      return endpoint;
    }
  }
}
