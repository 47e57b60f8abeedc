/**
 Video timestamps: the detour through the encoder's time base, and the repair
 of missing timestamps when packets are only re-muxed. `Rescale` is FFmpeg's
 documented "a * bq / cq, nearest, halves away from zero", on exact integers.
 An unknown timestamp is `None`.
 */
module VideoClock {
  import opened Arith
  import opened Wrappers

  datatype Rational = Rational(num: int, den: int)

  predicate Positive(r: Rational) { r.num > 0 && r.den > 0 }

  /** `n / d` to the nearest integer, halves away from zero. */
  function Round(n: int, d: int): (q: int)
    requires d > 0
  {
    if n >= 0 then (2 * n + d) / (2 * d) else -((-2 * n + d) / (2 * d))
  }

  function Rescale(a: int, from: Rational, to: Rational): (r: int)
    requires Positive(from) && Positive(to)
  {
    MulMonotone(1, from.den, to.num);
    Round(a * (from.num * to.den), from.den * to.num)
  }

  // ---------- rounding ----------

  /** The result is nearest, and of two nearest ones it is the one further from zero. */
  lemma RoundIsNearest(n: int, d: int)
    requires d > 0
    ensures -d <= 2 * (Round(n, d) * d - n) <= d
    ensures n > 0 ==> -d < 2 * (Round(n, d) * d - n)
    ensures n < 0 ==> 2 * (Round(n, d) * d - n) < d
  {
    var m := if n >= 0 then n else -n;
    var q := (2 * m + d) / (2 * d);
    QuotientBounds(2 * m + d, 2 * d);
    TwiceAndNegated(q, d);
    assert Round(n, d) == if n >= 0 then q else -q;
    hide Round;
  }

  lemma TwiceAndNegated(q: int, d: int)
    ensures q * (2 * d) == 2 * (q * d) && (-q) * d == -(q * d)
  {
  }

  /** Anything strictly within half a unit of `q` rounds to `q`. */
  lemma RoundIs(n: int, d: int, q: int)
    requires d > 0 && -d < 2 * (q * d - n) < d
    ensures Round(n, d) == q
  {
    RoundIsNearest(n, d);
    var r := Round(n, d);
    assert -d < r * d - q * d < d;
    MulMonotone(q + 1, r, d);
    MulMonotone(r + 1, q, d);
  }

  lemma RoundMonotone(m: int, n: int, d: int)
    requires d > 0 && m <= n
    ensures Round(m, d) <= Round(n, d)
  {
    if m < 0 && n < 0 {
      QuotientMonotone(-2 * n + d, -2 * m + d, 2 * d);
    } else if m >= 0 {
      QuotientMonotone(2 * m + d, 2 * n + d, 2 * d);
    } else {
      QuotientAtLeast(-2 * m + d, 2 * d, 0);
      QuotientAtLeast(2 * n + d, 2 * d, 0);
    }
  }

  /** Values a whole unit apart never round to the same integer. */
  lemma RoundSeparates(m: int, n: int, d: int)
    requires d > 0 && m + d <= n
    ensures Round(m, d) < Round(n, d)
  {
    RoundIsNearest(m, d);
    RoundIsNearest(n, d);
    var q, r := Round(m, d), Round(n, d);
    assert q * d <= r * d;
    MulCancel(q, r, d);
  }

  // ---------- the detour through the encoder's ticks ----------

  /**
   In units common to both, a stream tick is `p` and an encoder tick is `q`:
   stream time `x` becomes encoder time `Round(x * p, q)` and that becomes
   stream time again.
   */
  function ToEncoder(x: int, p: int, q: int): (y: int)
    requires p > 0 && q > 0
  {
    Round(x * p, q)
  }

  function Detour(x: int, p: int, q: int): (z: int)
    requires p > 0 && q > 0
  {
    Round(ToEncoder(x, p, q) * q, p)
  }

  /** Two roundings in a row: what is lost, in units common to both ticks. */
  lemma TwoRoundings(n: int, q: int, r: int, y: int, z: int)
    requires -q <= 2 * (y - n) <= q && -r <= 2 * (z - y) <= r
    ensures -(q + r) <= 2 * (z - n) <= q + r
  {
  }

  /** At most half an encoder tick plus half a stream tick is lost. */
  lemma DetourMovesLittle(x: int, p: int, q: int)
    requires p > 0 && q > 0
    ensures -(p + q) <= 2 * (Detour(x, p, q) - x) * p <= p + q
  {
    hide Round;
    var y, z := ToEncoder(x, p, q), Detour(x, p, q);
    RoundIsNearest(x * p, q);
    RoundIsNearest(y * q, p);
    hide *;
    TwoRoundings(x * p, q, p, y * q, z * p);
    TwiceApart(z, x, p);
  }

  lemma TwiceApart(z: int, x: int, p: int)
    ensures 2 * (z - x) * p == 2 * (z * p - x * p)
  {
  }

  /** A stream tick that is no finer than the encoder's comes back exactly. */
  lemma NoFinerStreamIsExact(x: int, p: int, q: int)
    requires 0 < q <= p
    ensures Detour(x, p, q) == x
  {
    hide Round;
    if q < p {
      RoundIsNearest(x * p, q);
      RoundIs(ToEncoder(x, p, q) * q, p, x);
    } else {
      RoundIs(x * p, q, x);
    }
  }

  /** Times at least one encoder tick apart never collide, neither in the encoder nor after it. */
  lemma DetourSeparates(x: int, x': int, p: int, q: int)
    requires p > 0 && q > 0 && x * p + q <= x' * p
    ensures ToEncoder(x, p, q) < ToEncoder(x', p, q)
    ensures Detour(x, p, q) < Detour(x', p, q)
  {
    hide Round;
    RoundSeparates(x * p, x' * p, q);
    var y, y' := ToEncoder(x, p, q), ToEncoder(x', p, q);
    if p <= q {
      MulMonotone(y + 1, y', q);
      assert (y + 1) * q == y * q + q;
      RoundSeparates(y * q, y' * q, p);
    } else {
      NoFinerStreamIsExact(x, p, q);
      NoFinerStreamIsExact(x', p, q);
      MulMonotone(x', x, p);
    }
  }

  /** Frame times on the encoder's grid, rounded to stream ticks, always come back exactly. */
  lemma GridTimesAreExact(n: int, p: int, q: int)
    requires p > 0 && q > 0
    ensures Detour(Round(n * q, p), p, q) == Round(n * q, p)
    ensures p <= q ==> ToEncoder(Round(n * q, p), p, q) == n
  {
    var x := Round(n * q, p);
    RoundIsNearest(n * q, p);
    if q <= p {
      NoFinerStreamIsExact(x, p, q);
    }
    if p < q {
      RoundIs(x * p, q, n);
    } else if p == q {
      RoundIs(n * q, p, n);
      RoundIs(x * p, q, n);
    }
  }

  /** If `y` grows less than `x` does over an interval, it stands still somewhere in it. */
  lemma {:induction false} StandsStill(lo: int, hi: int, p: int, q: int) returns (x: int)
    requires p > 0 && q > 0 && lo < hi && ToEncoder(hi, p, q) - ToEncoder(lo, p, q) < hi - lo
    ensures lo <= x < hi && ToEncoder(x, p, q) == ToEncoder(x + 1, p, q)
    decreases hi - lo
  {
    MulMonotone(lo, lo + 1, p);
    RoundMonotone(lo * p, (lo + 1) * p, q);
    if ToEncoder(lo + 1, p, q) == ToEncoder(lo, p, q) {
      x := lo;
    } else {
      x := StandsStill(lo + 1, hi, p, q);
    }
  }

  /** Every stream time survives the detour exactly when the encoder tick is no coarser than the stream tick. */
  lemma DetourIsExactIff(p: int, q: int)
    requires p > 0 && q > 0
    ensures (forall x :: Detour(x, p, q) == x) <==> q <= p
  {
    if q <= p {
      forall x
        ensures Detour(x, p, q) == x
      {
        NoFinerStreamIsExact(x, p, q);
      }
    } else {
      RoundIs(q * p, q, p);
      RoundIs(0, q, 0);
      var x := StandsStill(0, q, p, q);
      assert Detour(x, p, q) == Detour(x + 1, p, q);
    }
  }

  // ---------- the same, in the source's terms ----------

  /** The timestamp part of `TranscodeFlow`: shift, to encoder ticks, to stream ticks, shift. */
  function Transcoded(x: int, start: int, mux: int, stream: Rational, encoder: Rational): (z: int)
    requires Positive(stream) && Positive(encoder)
  {
    Rescale(Rescale(x - start, stream, encoder), encoder, stream) + mux
  }

  /** A stream tick and an encoder tick in units of `1 / (stream.den * encoder.den)` seconds. */
  lemma TranscodedIsDetour(x: int, start: int, mux: int, stream: Rational, encoder: Rational) returns (p: int, q: int)
    requires Positive(stream) && Positive(encoder)
    ensures p == stream.num * encoder.den > 0 && q == encoder.num * stream.den > 0
    ensures Transcoded(x, start, mux, stream, encoder) == Detour(x - start, p, q) + mux
  {
    p, q := stream.num * encoder.den, encoder.num * stream.den;
    MulMonotone(1, stream.num, encoder.den);
    MulMonotone(1, encoder.num, stream.den);
    assert stream.den * encoder.num == q && encoder.den * stream.num == p;
  }

  /** At most half an encoder tick plus half a stream tick is lost, in the source's own units. */
  lemma TranscodedMovesLittle(x: int, start: int, mux: int, stream: Rational, encoder: Rational)
    requires Positive(stream) && Positive(encoder)
    ensures var (p, q) := (stream.num * encoder.den, encoder.num * stream.den);
            -(p + q) <= 2 * (Transcoded(x, start, mux, stream, encoder) - (x - start + mux)) * p <= p + q
  {
    var p, q := TranscodedIsDetour(x, start, mux, stream, encoder);
    DetourMovesLittle(x - start, p, q);
  }

  /** Two packets at least one encoder tick apart never get the same timestamp. */
  lemma TranscodedSeparates(x: int, x': int, start: int, mux: int, stream: Rational, encoder: Rational)
    requires Positive(stream) && Positive(encoder)
    requires (x' - x) * (stream.num * encoder.den) >= encoder.num * stream.den
    ensures Transcoded(x, start, mux, stream, encoder) < Transcoded(x', start, mux, stream, encoder)
  {
    var p, q := TranscodedIsDetour(x, start, mux, stream, encoder);
    var _, _ := TranscodedIsDetour(x', start, mux, stream, encoder);
    assert (x' - start) * p == (x - start) * p + (x' - x) * p;
    DetourSeparates(x - start, x' - start, p, q);
  }

  /** The exact condition, as a comparison of the two time bases. */
  lemma TranscodedIsExactIff(start: int, mux: int, stream: Rational, encoder: Rational)
    requires Positive(stream) && Positive(encoder)
    ensures (forall x :: Transcoded(x, start, mux, stream, encoder) == x - start + mux)
            <==> encoder.num * stream.den <= stream.num * encoder.den
  {
    var p, q := TranscodedIsDetour(0, start, mux, stream, encoder);
    DetourIsExactIff(p, q);
    forall x
      ensures Transcoded(x, start, mux, stream, encoder) == Detour(x - start, p, q) + mux
    {
      var _, _ := TranscodedIsDetour(x, start, mux, stream, encoder);
    }
    if forall x :: Transcoded(x, start, mux, stream, encoder) == x - start + mux {
      forall y
        ensures Detour(y, p, q) == y
      {
        assert Transcoded(y + start, start, mux, stream, encoder) == y + mux;
      }
    }
  }

  /**
   Frame `n` of a video whose frames lie on the encoder's grid, with its time
   rounded to stream ticks, gets exactly that time, whatever the two ticks;
   if the stream tick is no coarser, the encoder sees the frame number.
   */
  lemma FrameTimesAreKept(n: int, start: int, mux: int, stream: Rational, encoder: Rational)
    requires Positive(stream) && Positive(encoder)
    ensures var t := Rescale(n, encoder, stream);
            && Transcoded(start + t, start, mux, stream, encoder) == t + mux
            && (stream.num * encoder.den <= encoder.num * stream.den ==> Rescale(t, stream, encoder) == n)
  {
    var t := Rescale(n, encoder, stream);
    var p, q := TranscodedIsDetour(start + t, start, mux, stream, encoder);
    assert encoder.num * stream.den == q && encoder.den * stream.num == p;
    GridTimesAreExact(n, p, q);
  }

  // ---------- unknown timestamps in arithmetic ----------

  /** The value that stands for an unknown timestamp: the least 64-bit integer. */
  const NOPTS: int := -0x8000_0000_0000_0000

  /** A sum of 64-bit integers as the machine computes it. */
  function Wrap64(t: int): (w: int)
    ensures NOPTS <= w < -NOPTS
  {
    (t - NOPTS) % 0x1_0000_0000_0000_0000 + NOPTS
  }

  /**
   Adding to a timestamp without asking whether it is known. An unknown one
   turns into a meaningless known one, unless nothing is added.
   */
  function Shift(t: Option<int>, d: int): (t': Option<int>)
  {
    match t
    case Some(v) => Some(v + d)
    case None => if Wrap64(NOPTS + d) == NOPTS then None else Some(Wrap64(NOPTS + d))
  }

  /** The meaningless value is the sum modulo 2^64. */
  lemma ShiftOfUnknown(d: int)
    requires NOPTS <= d < -NOPTS
    ensures Shift(None, d) == None <==> d == 0
    ensures d != 0 ==>
              var v := Shift(None, d).value;
              NOPTS < v < -NOPTS && v == if d > 0 then NOPTS + d else d - NOPTS
  {
  }

  function RescaleStamp(t: Option<int>, from: Rational, to: Rational): (t': Option<int>)
    requires Positive(from) && Positive(to)
  {
    match t case None => None case Some(v) => Some(Rescale(v, from, to))
  }

  function RescaleLength(d: int, from: Rational, to: Rational): (d': int)
    requires Positive(from) && Positive(to)
  {
    if d > 0 then Rescale(d, from, to) else d
  }

  /** What the video path makes of a timestamp, known or not; the bases of input and output may differ. */
  function Path(t: Option<int>, start: int, mux: int, input: Rational, encoder: Rational, output: Rational)
    : (t': Option<int>)
    requires Positive(input) && Positive(encoder) && Positive(output)
  {
    Shift(RescaleStamp(RescaleStamp(Shift(t, -start), input, encoder), encoder, output), mux)
  }

  /** A value that a known timestamp can have. */
  predicate Fits64(t: Option<int>) { t.Some? ==> NOPTS < t.value < -NOPTS }

  /** Every value on the path is one that the code can hold. */
  predicate Representable(t: Option<int>, start: int, mux: int, input: Rational, encoder: Rational, output: Rational)
    requires Positive(input) && Positive(encoder) && Positive(output)
  {
    var shifted := Shift(t, -start);
    var encoded := RescaleStamp(shifted, input, encoder);
    && Fits64(shifted) && Fits64(encoded) && Fits64(RescaleStamp(encoded, encoder, output))
    && Fits64(Path(t, start, mux, input, encoder, output))
  }

  /**
   An unknown timestamp stays unknown if neither shift moves it. If every
   value on the way is representable, it stays unknown only then.
   */
  lemma UnknownIsKeptIff(start: int, mux: int, input: Rational, encoder: Rational, output: Rational)
    requires Positive(input) && Positive(encoder) && Positive(output)
    requires NOPTS <= start < -NOPTS && NOPTS <= mux < -NOPTS
    ensures start == 0 && mux == 0 ==> Path(None, start, mux, input, encoder, output) == None
    ensures Representable(None, start, mux, input, encoder, output) ==>
              (Path(None, start, mux, input, encoder, output) == None <==> start == 0 && mux == 0)
  {
  }

  /** A rounding lemma in finer units: `d` and `n` are multiplied by `m`. */
  lemma ScaledRounding(y: int, n: int, d: int, m: int)
    requires d > 0 && m > 0 && y == Round(n, d)
    ensures -(d * m) <= 2 * (y * (d * m) - n * m) <= d * m
  {
    RoundIsNearest(n, d);
    hide Round;
    var e := 2 * (y * d - n);
    MulMonotone(-d, e, m);
    MulMonotone(e, d, m);
    Regrouped(y, d, n, m);
  }

  lemma Regrouped(y: int, d: int, n: int, m: int)
    ensures (2 * (y * d - n)) * m == 2 * (y * (d * m) - n * m) && (-d) * m == -(d * m)
  {
    assert (y * d) * m == y * (d * m);
    assert (2 * (y * d - n)) * m == 2 * ((y * d) * m) - 2 * (n * m);
  }

  /**
   For any three time bases: in units of `1 / (input.den * encoder.den *
   output.den)` seconds a tick of each is an integer, and the output time, less
   the offset, is within half an encoder tick and half an output tick of the
   exact time.
   */
  lemma PathMovesLittle(x: int, start: int, mux: int, input: Rational, encoder: Rational, output: Rational)
    requires Positive(input) && Positive(encoder) && Positive(output)
    ensures Path(Some(x), start, mux, input, encoder, output).Some?
    ensures var z := Path(Some(x), start, mux, input, encoder, output).value - mux;
            var i := (input.num * encoder.den) * output.den;
            var e := (input.den * encoder.num) * output.den;
            var o := (encoder.den * output.num) * input.den;
            -(e + o) <= 2 * (z * o - (x - start) * i) <= e + o
  {
    var a := x - start;
    var y := Rescale(a, input, encoder);
    var z := Rescale(y, encoder, output);
    MulMonotone(1, input.den, encoder.num);
    MulMonotone(1, encoder.den, output.num);
    ScaledRounding(y, a * (input.num * encoder.den), input.den * encoder.num, output.den);
    ScaledRounding(z, y * (encoder.num * output.den), encoder.den * output.num, input.den);
    assert Path(Some(x), start, mux, input, encoder, output) == Some(z + mux);
    hide *;
    SameProduct(a, input.num * encoder.den, output.den);
    SameProduct(y, encoder.num * output.den, input.den);
    SameProduct(y, input.den * encoder.num, output.den);
    assert (encoder.num * output.den) * input.den == (input.den * encoder.num) * output.den;
    var e, o := (input.den * encoder.num) * output.den, (encoder.den * output.num) * input.den;
    TwoRoundings(a * ((input.num * encoder.den) * output.den), e, o, y * e, z * o);
  }

  lemma SameProduct(a: int, b: int, c: int)
    ensures (a * b) * c == a * (b * c)
  {
  }

  // ---------- repair of missing timestamps ----------

  /** A packet's timestamp, if known, and its duration. */
  datatype Stamp = Stamp(known: Option<int>, duration: int)

  /** What `MuxFlow` puts in place, given the last value it kept. */
  function Repair(last: int, s: Stamp): (t: int)
  {
    match s.known case Some(t) => t case None => last + s.duration
  }

  /** The kept value after a run of packets, starting from `last`. */
  function Kept(last: int, ss: seq<Stamp>): (t: int)
    decreases |ss|
  {
    if ss == [] then last else Repair(Kept(last, ss[..|ss| - 1]), ss[|ss| - 1])
  }

  /** One more than the index of the last packet with a known timestamp; 0 if there is none. */
  function SinceKnown(ss: seq<Stamp>): (k: nat)
    ensures k <= |ss|
    ensures k > 0 ==> ss[k - 1].known.Some?
    ensures forall j | k <= j < |ss| :: ss[j].known.None?
    decreases |ss|
  {
    if ss == [] then 0 else if ss[|ss| - 1].known.Some? then |ss| else SinceKnown(ss[..|ss| - 1])
  }

  function DurationSum(ss: seq<Stamp>): (d: int)
  {
    if ss == [] then 0 else ss[0].duration + DurationSum(ss[1..])
  }

  lemma {:induction false} DurationSumLast(ss: seq<Stamp>)
    requires ss != []
    ensures DurationSum(ss) == DurationSum(ss[..|ss| - 1]) + ss[|ss| - 1].duration
    decreases |ss|
  {
    if |ss| > 1 {
      assert ss[1..][..|ss| - 2] == ss[..|ss| - 1][1..];
      DurationSumLast(ss[1..]);
    }
  }

  /** The last known value, or the start value, plus the durations of the unknown packets since. */
  function Predicted(last: int, ss: seq<Stamp>): (t: int)
  {
    var k := SinceKnown(ss);
    (if k == 0 then last else ss[k - 1].known.value) + DurationSum(ss[k..])
  }

  /** Closed form of the repaired timestamp. */
  lemma {:induction false} KeptIsPredicted(last: int, ss: seq<Stamp>)
    ensures Kept(last, ss) == Predicted(last, ss)
    decreases |ss|
  {
    if ss != [] && ss[|ss| - 1].known.None? {
      var init := ss[..|ss| - 1];
      KeptIsPredicted(last, init);
      var k := SinceKnown(ss);
      assert ss[k..][..|ss[k..]| - 1] == init[k..];
      DurationSumLast(ss[k..]);
    }
  }

  /** The timestamps that leave `MuxFlow`, packet by packet. */
  function Output(last: int, ss: seq<Stamp>, from: Rational, to: Rational, k: nat): (t: int)
    requires k < |ss| && Positive(from) && Positive(to)
  {
    Rescale(Kept(last, ss[..k + 1]), from, to)
  }

  /** Packet `k` does not go back: its duration counts from 0 on, or its known value is not before the prediction. */
  predicate GoesOn(last: int, ss: seq<Stamp>, k: nat)
    requires k < |ss|
  {
    match ss[k].known
    case None => ss[k].duration >= 0
    case Some(t) => Predicted(last, ss[..k]) <= t
  }

  predicate NoneGoesBack(last: int, ss: seq<Stamp>) { forall k | 0 <= k < |ss| :: GoesOn(last, ss, k) }

  /** The value kept after packet `k` is not before the one kept before it. */
  predicate KeptInOrder(last: int, ss: seq<Stamp>, k: nat)
    requires k < |ss|
  {
    Kept(last, ss[..k]) <= Kept(last, ss[..k + 1])
  }

  lemma KeptStep(last: int, ss: seq<Stamp>, k: nat)
    requires k < |ss|
    ensures KeptInOrder(last, ss, k) <==> GoesOn(last, ss, k)
  {
    KeptIsPredicted(last, ss[..k]);
    assert ss[..k + 1][..k] == ss[..k];
  }

  /** Exactly then the repaired timestamps never decrease (the start value counts as the first). */
  lemma RepairIsMonotoneIff(last: int, ss: seq<Stamp>)
    ensures (forall k | 0 <= k < |ss| :: KeptInOrder(last, ss, k)) <==> NoneGoesBack(last, ss)
  {
    forall k | 0 <= k < |ss|
      ensures KeptInOrder(last, ss, k) <==> GoesOn(last, ss, k)
    {
      KeptStep(last, ss, k);
    }
  }

  lemma RescaleMonotone(a: int, b: int, from: Rational, to: Rational)
    requires Positive(from) && Positive(to) && a <= b
    ensures Rescale(a, from, to) <= Rescale(b, from, to)
  {
    MulMonotone(1, from.den, to.num);
    MulMonotone(1, from.num, to.den);
    MulMonotone(a, b, from.num * to.den);
    RoundMonotone(a * (from.num * to.den), b * (from.num * to.den), from.den * to.num);
  }

  /** ... and then the rescaled timestamps never decrease either. */
  lemma OutputIsMonotone(last: int, ss: seq<Stamp>, from: Rational, to: Rational)
    requires Positive(from) && Positive(to) && NoneGoesBack(last, ss)
    ensures forall k | 0 < k < |ss| :: Output(last, ss, from, to, k - 1) <= Output(last, ss, from, to, k)
  {
    forall k | 0 < k < |ss|
      ensures Output(last, ss, from, to, k - 1) <= Output(last, ss, from, to, k)
    {
      KeptStep(last, ss, k);
      RescaleMonotone(Kept(last, ss[..k]), Kept(last, ss[..k + 1]), from, to);
    }
  }

  // ---------- the worker ----------

  class AVPacket {
    var pts: Option<int>
    var dts: Option<int>
    var duration: int
    var streamIndex: int

    constructor (pts: Option<int>, dts: Option<int>, duration: int)
      ensures this.pts == pts && this.dts == dts && this.duration == duration && streamIndex == 0
    {
      this.pts, this.dts, this.duration, streamIndex := pts, dts, duration, 0;
    }

    /** Converts the known timestamps, and a positive duration. */
    method RescaleTs(from: Rational, to: Rational)
      requires Positive(from) && Positive(to)
      modifies this`pts, this`dts, this`duration
      ensures pts == RescaleStamp(old(pts), from, to) && dts == RescaleStamp(old(dts), from, to)
      ensures duration == RescaleLength(old(duration), from, to)
    {
      if pts.Some? {
        pts := Some(Rescale(pts.value, from, to));
      }
      if dts.Some? {
        dts := Some(Rescale(dts.value, from, to));
      }
      if duration > 0 {
        duration := Rescale(duration, from, to);
      }
    }
  }

  /** What a decoder call comes to: a frame, none yet, or a failure. */
  datatype DecoderAnswer = DecoderFails | Decoded(gives: bool)

  /** What encoding and writing come to: the packet's timestamps, whether there is a packet, whether it was written. */
  datatype EncoderAnswer =
    | EncoderFails
    | Encoded(pts: Option<int>, dts: Option<int>, length: int, gives: bool, written: bool)

  /** The encoder is called and does not fail. */
  predicate Encodes(decoded: DecoderAnswer, answer: EncoderAnswer)
  {
    decoded.Decoded? && decoded.gives && answer.Encoded?
  }

  class Video {
    const inBase: Rational
    const outBase: Rational
    const encoderBase: Rational
    const index: int
    var startTime: int
    var muxPts: int
    var duration: int
    var endpoint: int
    var gotFrame: bool
    var lastCorrectPts: int
    var lastCorrectDts: int

    ghost predicate Valid() { Positive(inBase) && Positive(outBase) && Positive(encoderBase) }

    constructor (inBase: Rational, outBase: Rational, encoderBase: Rational, index: int)
      requires Positive(inBase) && Positive(outBase) && Positive(encoderBase)
      ensures Valid() && lastCorrectPts == 0 && lastCorrectDts == 0
      ensures this.inBase == inBase && this.outBase == outBase && this.encoderBase == encoderBase && this.index == index
    {
      this.inBase, this.outBase, this.encoderBase, this.index := inBase, outBase, encoderBase, index;
      startTime, muxPts, duration, endpoint, gotFrame := 0, 0, 0, 0, false;
      lastCorrectPts, lastCorrectDts := 0, 0;
    }

    /** Also fixes a frame's length in output ticks per second, cut to an integer. */
    method SetTime(startPts: int, muxPts: int)
      requires Valid()
      modifies this`startTime, this`muxPts, this`duration
      ensures startTime == startPts && this.muxPts == muxPts
      ensures duration * encoderBase.den <= outBase.den * encoderBase.num < (duration + 1) * encoderBase.den
    {
      startTime := startPts;
      this.muxPts := muxPts;
      MulMonotone(1, outBase.den, encoderBase.num);
      duration := outBase.den * encoderBase.num / encoderBase.den;
    }

    method ResetPts(packet: AVPacket)
      modifies packet`pts, packet`dts
      ensures packet.pts == Shift(old(packet.pts), -startTime)
      ensures packet.dts == Shift(old(packet.dts), -startTime)
    {
      packet.pts := Shift(packet.pts, -startTime);
      packet.dts := Shift(packet.dts, -startTime);
    }

    /** Hands over the packet in encoder ticks; without success there is no frame to encode. */
    method VideoDecoder(packet: AVPacket, answer: DecoderAnswer) returns (ret: int)
      requires Valid()
      modifies this`gotFrame, packet`pts, packet`dts, packet`duration
      ensures packet.pts == RescaleStamp(old(packet.pts), inBase, encoderBase)
      ensures packet.dts == RescaleStamp(old(packet.dts), inBase, encoderBase)
      ensures packet.duration == RescaleLength(old(packet.duration), inBase, encoderBase)
      ensures ret == if answer.DecoderFails? then -1 else 0
      ensures gotFrame <==> answer.Decoded? && answer.gives
    {
      packet.RescaleTs(inBase, encoderBase);
      match answer
      case DecoderFails =>
        gotFrame := false;
        return -1;
      case Decoded(gives) =>
        gotFrame := gives;
        return 0;
    }

    /**
     Encodes the frame, if there is one, into `packet` and hands it to the
     muxer. An encoder that gives no packet counts as a failure, but only after
     the empty packet has taken the same way.
     */
    method EncodeWriteFrame(packet: AVPacket, answer: EncoderAnswer) returns (ret: int)
      requires Valid()
      modifies this`endpoint, this`gotFrame, packet
      ensures ret == if !old(gotFrame) || (answer.Encoded? && answer.written && answer.gives) then 0 else -1
      ensures old(gotFrame) && answer.Encoded? ==>
                && packet.pts == Shift(RescaleStamp(answer.pts, encoderBase, outBase), muxPts)
                && packet.dts == RescaleStamp(answer.dts, encoderBase, outBase)
                && packet.duration == RescaleLength(answer.length, encoderBase, outBase)
                && packet.streamIndex == index && gotFrame == answer.gives
                && endpoint == (match answer.pts
                                case None => old(endpoint)
                                case Some(t) => Rescale(t, encoderBase, outBase) + duration)
      ensures !old(gotFrame) || answer.EncoderFails? ==>
                && endpoint == old(endpoint) && packet.pts == old(packet.pts) && packet.dts == old(packet.dts)
                && packet.streamIndex == old(packet.streamIndex) && packet.duration == old(packet.duration)
    {
      if gotFrame {
        match answer
        case EncoderFails => return -1;
        case Encoded(pts, dts, length, gives, written) =>
          packet.pts, packet.dts, packet.duration := pts, dts, length;
          gotFrame := gives;
          packet.streamIndex := index;
          packet.RescaleTs(encoderBase, outBase);
          if packet.pts.Some? {
            endpoint := packet.pts.value + duration;
          }
          packet.pts := Shift(packet.pts, muxPts);
          if !written || !gives {
            return -1;
          }
      }
      return 0;
    }

    /**
     One packet through decoder and encoder, which may hold frames back or
     give them in another order. If the encoder's packet bears the timestamps
     that the decoder was given, they have taken the whole path.
     */
    method TranscodeFlow(packet: AVPacket, decoded: DecoderAnswer, answer: EncoderAnswer)
      returns (ret: int, enc: AVPacket)
      requires Valid()
      modifies this`endpoint, this`gotFrame, packet`pts, packet`dts, packet`duration
      ensures fresh(enc)
      ensures packet.pts == RescaleStamp(Shift(old(packet.pts), -startTime), inBase, encoderBase)
      ensures packet.dts == RescaleStamp(Shift(old(packet.dts), -startTime), inBase, encoderBase)
      ensures packet.duration == RescaleLength(old(packet.duration), inBase, encoderBase)
      ensures ret == 0 <==>
                decoded.Decoded? && (decoded.gives ==> answer.Encoded? && answer.written && answer.gives)
      ensures !Encodes(decoded, answer) ==> endpoint == old(endpoint) && enc.pts == None && enc.dts == None
      ensures Encodes(decoded, answer) ==>
                && enc.pts == Shift(RescaleStamp(answer.pts, encoderBase, outBase), muxPts)
                && enc.dts == RescaleStamp(answer.dts, encoderBase, outBase) && enc.streamIndex == index
                && enc.duration == RescaleLength(answer.length, encoderBase, outBase)
      ensures Encodes(decoded, answer) && answer.pts == packet.pts ==>
                enc.pts == Path(old(packet.pts), startTime, muxPts, inBase, encoderBase, outBase)
      ensures Encodes(decoded, answer) && answer.dts == packet.dts ==>
                enc.dts == Path(old(packet.dts), startTime, 0, inBase, encoderBase, outBase)
      ensures Encodes(decoded, answer) && answer.pts == packet.pts && old(packet.pts).Some? ==>
                endpoint == enc.pts.value - muxPts + duration
      ensures Encodes(decoded, answer) && answer.pts == packet.pts && old(packet.pts).Some? && inBase == outBase ==>
                enc.pts == Some(Transcoded(old(packet.pts).value, startTime, muxPts, inBase, encoderBase))
    {
      enc := new AVPacket(None, None, 0);
      ResetPts(packet);
      ret := VideoDecoder(packet, decoded);
      if ret < 0 {
        return;
      }
      ret := EncodeWriteFrame(enc, answer);
    }

    method MuxFlow(packet: AVPacket)
      requires Valid()
      modifies this`lastCorrectDts, this`lastCorrectPts, packet
      ensures lastCorrectDts == Repair(old(lastCorrectDts), Stamp(old(packet.dts), old(packet.duration)))
      ensures lastCorrectPts == Repair(old(lastCorrectPts), Stamp(old(packet.pts), old(packet.duration)))
      ensures packet.dts == Some(Rescale(lastCorrectDts, inBase, outBase))
      ensures packet.pts == Some(Rescale(lastCorrectPts, inBase, outBase))
      ensures packet.duration == Rescale(old(packet.duration), inBase, outBase) && packet.streamIndex == index
    {
      if packet.dts.None? {
        lastCorrectDts := lastCorrectDts + packet.duration;
        packet.dts := Some(lastCorrectDts);
      } else {
        lastCorrectDts := packet.dts.value;
      }
      if packet.pts.None? {
        lastCorrectPts := lastCorrectPts + packet.duration;
        packet.pts := Some(lastCorrectPts);
      } else {
        lastCorrectPts := packet.pts.value;
      }
      packet.pts := Some(Rescale(packet.pts.value, inBase, outBase));
      packet.dts := Some(Rescale(packet.dts.value, inBase, outBase));
      packet.duration := Rescale(packet.duration, inBase, outBase);
      packet.streamIndex := index;
    }
  }
}
