/**
 What the generated code does for a message, written once for every list of
 int32 and string fields numbered 1, 2, 3, ... up to 15 (so that each known
 tag is one byte). The classes in module TranscodeRpc are proved against these
 functions, and the laws of the format are proved here for all such messages.
 */
module Message {
  import opened Wire
  import WireLaws

  datatype Kind = Int32Kind | StringKind
  datatype Value = IntV(i: Int32) | StrV(s: seq<Byte>)
  type Schema = s: seq<Kind> | |s| <= 15
  type Fields = seq<Value>

  predicate HasKind(v: Value, k: Kind) { v.IntV? <==> k.Int32Kind? }

  predicate Typed(schema: Schema, m: Fields)
  {
    |m| == |schema| && forall i | 0 <= i < |m| :: HasKind(m[i], schema[i])
  }

  /** Two versions of a message agree on the kinds of the fields they share. */
  predicate Compatible(schema: Schema, m: Fields)
  {
    |m| <= 15 && forall i | 0 <= i < |m| && i < |schema| :: HasKind(m[i], schema[i])
  }

  predicate IsZero(v: Value) { v == IntV(0) || v == StrV([]) }
  predicate Utf8(v: Value) { v.StrV? ==> ValidUtf8(v.s) }
  predicate Fits(v: Value) { v.StrV? ==> |v.s| < MAX_STRING_SIZE }
  predicate AllFit(m: Fields) { forall i | 0 <= i < |m| :: Fits(m[i]) }
  predicate AllUtf8(m: Fields) { forall i | 0 <= i < |m| :: Utf8(m[i]) }

  function ZeroOf(k: Kind): (v: Value)
  {
    if k.Int32Kind? then IntV(0) else StrV([])
  }

  function Cleared(schema: Schema): (m: Fields)
    ensures Typed(schema, m) && forall i | 0 <= i < |m| :: IsZero(m[i])
  {
    seq(|schema|, i requires 0 <= i < |schema| => ZeroOf(schema[i]))
  }

  /** `MergeFrom`: a field of the source overwrites unless it is zero or empty. */
  function Merge(m: Fields, from: Fields): (r: Fields)
    ensures |r| == |m|
  {
    MergeAfter(m, from, 0)
  }

  function MergeAfter(m: Fields, from: Fields, k: nat): (r: Fields)
    ensures |r| == |m|
  {
    seq(|m|, i requires 0 <= i < |m| => if k <= i < |from| && !IsZero(from[i]) then from[i] else m[i])
  }

  // ---------- writing ----------

  function WireType(k: Kind): (w: nat) { if k.Int32Kind? then 0 else 2 }

  function KindOf(v: Value): (k: Kind) { if v.IntV? then Int32Kind else StringKind }

  function Tag(i: nat, k: Kind): (t: Byte)
    requires i < 15
  {
    (i + 1) * 8 + WireType(k)
  }

  function Payload(v: Value): (bs: seq<Byte>)
    ensures |bs| >= 1
  {
    match v case IntV(i) => EncodeInt32(i) case StrV(s) => EncodeString(s)
  }

  function Record(i: nat, v: Value): (bs: seq<Byte>)
    requires i < 15
  {
    [Tag(i, KindOf(v))] + Payload(v)
  }

  /** A field with its default value is not written at all. */
  function Written(i: nat, v: Value): (bs: seq<Byte>)
    requires i < 15
  {
    if IsZero(v) then [] else Record(i, v)
  }

  function SerializeFrom(m: Fields, i: nat): (bs: seq<Byte>)
    requires i <= |m| <= 15
    decreases |m| - i
  {
    if i == |m| then [] else Written(i, m[i]) + SerializeFrom(m, i + 1)
  }

  function Serialize(m: Fields): (bs: seq<Byte>)
    requires |m| <= 15
  {
    SerializeFrom(m, 0)
  }

  function WrittenSize(v: Value): (n: nat)
  {
    if IsZero(v) then 0
    else match v
      case IntV(i) => 1 + Int32Size(i)
      case StrV(s) => 1 + VarintSize32(|s|) + |s|
  }

  lemma WrittenSizeIsLength(i: nat, v: Value)
    requires i < 15 && Fits(v)
    ensures |Written(i, v)| == WrittenSize(v)
  {
    match v
    case IntV(n) => Int32SizeIsLength(n);
    case StrV(s) => VarintSizeIsLength(|s|);
  }

  /** Exactly the message with every field at its default is written as nothing. */
  lemma EmptyFormExactly(schema: Schema, m: Fields)
    requires Typed(schema, m)
    ensures Serialize(m) == [] <==> m == Cleared(schema)
    ensures m == Cleared(schema) <==> forall i | 0 <= i < |m| :: m[i] == IntV(0) || m[i] == StrV([])
  {
    EmptyFrom(m, 0);
    assert m == Cleared(schema) <==> forall i | 0 <= i < |m| :: IsZero(m[i]);
  }

  lemma EmptyIsZero(i: nat, v: Value)
    requires i < 15
    ensures Written(i, v) == [] <==> IsZero(v)
  {
    hide Payload, Tag;
  }

  lemma {:induction false} EmptyFrom(m: Fields, i: nat)
    requires i <= |m| <= 15
    ensures SerializeFrom(m, i) == [] <==> forall j | i <= j < |m| :: IsZero(m[j])
    decreases |m| - i
  {
    if i < |m| {
      EmptyIsZero(i, m[i]);
      EmptyFrom(m, i + 1);
      hide Written, IsZero;
    }
  }

  // ---------- reading ----------

  datatype Step = Advance(fields: Fields, rest: seq<Byte>) | Stuck(fields: Fields)

  /** `atEnd` says that parsing stopped because the input was used up, not at a bad or zero tag. */
  datatype Outcome = Stopped(fields: Fields, rest: seq<Byte>, atEnd: bool) | Failed(fields: Fields)

  predicate IsKnown(schema: Schema, tag: nat)
  {
    1 <= tag / 8 <= |schema| && tag % 8 == WireType(schema[tag / 8 - 1])
  }

  /** One turn of the parse loop after its tag was read. */
  function ParseRecord(schema: Schema, m: Fields, tag: nat, bs: seq<Byte>): (s: Step)
    requires Typed(schema, m)
    ensures Typed(schema, s.fields)
    ensures s.Advance? ==> |s.rest| <= |bs|
  {
    if IsKnown(schema, tag) then
      var i := tag / 8 - 1;
      match schema[i]
      case Int32Kind => (
        match ReadInt32(bs)
        case Malformed => Stuck(m)
        case Got(n, rest) => Advance(m[i := IntV(n)], rest))
      case StringKind => (
        match ReadString(bs)
        case Malformed => Stuck(m)
        case Got(s, rest) => if ValidUtf8(s) then Advance(m[i := StrV(s)], rest) else Stuck(m[i := StrV(s)]))
    else
      match Skip(tag, bs)
      case Malformed => Stuck(m)
      case Got(_, rest) => Advance(m, rest)
  }

  function Parse(schema: Schema, m: Fields, bs: seq<Byte>): (o: Outcome)
    requires Typed(schema, m)
    ensures Typed(schema, o.fields)
    decreases |bs|
  {
    if bs == [] then Stopped(m, [], true)
    else
      var TagRead(tag, rest) := ReadTag(bs);
      if tag == 0 then Stopped(m, rest, false)
      else match ParseRecord(schema, m, tag, rest)
        case Stuck(m') => Failed(m')
        case Advance(m', rest') => Parse(schema, m', rest')
  }

  /** The whole input is used up. */
  predicate Clean(o: Outcome) { o.Stopped? && o.atEnd && o.rest == [] }

  // ---------- parsing acts on the message piece by piece ----------

  lemma ParseRecordExtends(schema: Schema, m: Fields, tag: nat, bs: seq<Byte>, more: seq<Byte>)
    requires Typed(schema, m) && ParseRecord(schema, m, tag, bs).Advance?
    ensures ParseRecord(schema, m, tag, bs + more) ==
            Advance(ParseRecord(schema, m, tag, bs).fields, ParseRecord(schema, m, tag, bs).rest + more)
  {
    if IsKnown(schema, tag) {
      match schema[tag / 8 - 1]
      case Int32Kind => DecodeVarintExtends(bs, MAX_VARINT_BYTES, more);
      case StringKind => ReadStringExtends(bs, more);
    } else {
      SkipExtends(tag, bs, more);
    }
  }

  /** For ALL byte strings: what follows a cleanly parsed prefix is parsed from where the prefix left the message. */
  lemma {:induction false} ParseAppend(schema: Schema, m: Fields, a: seq<Byte>, b: seq<Byte>)
    requires Typed(schema, m) && Clean(Parse(schema, m, a))
    ensures Parse(schema, m, a + b) == Parse(schema, Parse(schema, m, a).fields, b)
    decreases |a|
  {
    if a == [] {
      assert a + b == b;
    } else {
      ReadTagExtends(a, b);
      var TagRead(tag, rest) := ReadTag(a);
      ParseRecordExtends(schema, m, tag, rest, b);
      var next := ParseRecord(schema, m, tag, rest);
      ParseAppend(schema, next.fields, next.rest, b);
    }
  }

  // ---------- writing, then reading ----------

  lemma RecordHead(schema: Schema, m: Fields, i: nat, v: Value, more: seq<Byte>)
    requires Typed(schema, m) && i < 15
    ensures ReadTag(Record(i, v) + more) == TagRead(Tag(i, KindOf(v)), Payload(v) + more)
  {
    assert Record(i, v) + more == [Tag(i, KindOf(v))] + (Payload(v) + more);
    ReadTagByte(Tag(i, KindOf(v)), Payload(v) + more);
  }

  lemma PayloadIsRead(schema: Schema, m: Fields, i: nat, v: Value, more: seq<Byte>)
    requires Typed(schema, m) && i < 15 && Fits(v)
    requires i < |schema| ==> HasKind(v, schema[i])
    ensures ParseRecord(schema, m, Tag(i, KindOf(v)), Payload(v) + more) ==
            if i >= |schema| then Advance(m, more)
            else if Utf8(v) then Advance(m[i := v], more)
            else Stuck(m[i := v])
  {
    match v
    case IntV(n) => ReadInt32Inverts(n, more);
    case StrV(s) => ReadStringInverts(s, more);
  }

  lemma WrittenIsRead(schema: Schema, m: Fields, i: nat, v: Value, more: seq<Byte>)
    requires Typed(schema, m) && i < 15 && Fits(v)
    requires i < |schema| ==> HasKind(v, schema[i])
    ensures Parse(schema, m, Written(i, v) + more) ==
            if IsZero(v) || i >= |schema| then Parse(schema, m, more)
            else if Utf8(v) then Parse(schema, m[i := v], more)
            else Failed(m[i := v])
  {
    if IsZero(v) {
      assert Written(i, v) + more == more;
    } else {
      RecordHead(schema, m, i, v, more);
      PayloadIsRead(schema, m, i, v, more);
    }
  }

  /** The shared fields from `k` on are valid UTF-8. */
  predicate SharedUtf8(schema: Schema, v: Fields, k: nat)
  {
    forall i | k <= i < |v| && i < |schema| :: Utf8(v[i])
  }

  /** The effect of reading the fields of `v` from `k` on. */
  function Effect(schema: Schema, m: Fields, v: Fields, k: nat): (o: Outcome)
  {
    Stopped(MergeAfter(m, v, k), [], true)
  }

  /** The message after the field with index `k` of `v` has been read. */
  function AfterField(schema: Schema, m: Fields, v: Fields, k: nat): (m': Fields)
    requires Typed(schema, m) && Compatible(schema, v) && k < |v|
    ensures Typed(schema, m')
  {
    if IsZero(v[k]) || k >= |schema| then m else m[k := v[k]]
  }

  lemma EffectStep(schema: Schema, m: Fields, v: Fields, k: nat)
    requires Typed(schema, m) && Compatible(schema, v) && k < |v|
    ensures Effect(schema, m, v, k) == Effect(schema, AfterField(schema, m, v, k), v, k + 1)
    ensures SharedUtf8(schema, v, k) <==> (k < |schema| ==> Utf8(v[k])) && SharedUtf8(schema, v, k + 1)
  {
    assert MergeAfter(m, v, k) == MergeAfter(AfterField(schema, m, v, k), v, k + 1);
  }

  lemma ParseSerializedStep(schema: Schema, m: Fields, v: Fields, k: nat)
    requires Typed(schema, m) && Compatible(schema, v) && AllFit(v) && k < |v|
    ensures Parse(schema, m, SerializeFrom(v, k)) ==
            if k < |schema| && !Utf8(v[k]) then Failed(AfterField(schema, m, v, k))
            else Parse(schema, AfterField(schema, m, v, k), SerializeFrom(v, k + 1))
  {
    WrittenIsRead(schema, m, k, v[k], SerializeFrom(v, k + 1));
  }

  lemma ParseSerializedEnd(schema: Schema, m: Fields, v: Fields)
    requires Typed(schema, m) && Compatible(schema, v)
    ensures SharedUtf8(schema, v, |v|)
    ensures Parse(schema, m, SerializeFrom(v, |v|)) == Effect(schema, m, v, |v|)
  {
    assert MergeAfter(m, v, |v|) == m;
  }

  lemma {:induction false} ParseSerializedFrom(schema: Schema, m: Fields, v: Fields, k: nat)
    requires Typed(schema, m) && Compatible(schema, v) && AllFit(v) && k <= |v|
    ensures Parse(schema, m, SerializeFrom(v, k)) == Effect(schema, m, v, k) || !SharedUtf8(schema, v, k)
    ensures Parse(schema, m, SerializeFrom(v, k)).Failed? || SharedUtf8(schema, v, k)
    decreases |v| - k
  {
    hide *;
    if k == |v| {
      ParseSerializedEnd(schema, m, v);
    } else {
      ParseSerializedStep(schema, m, v, k);
      EffectStep(schema, m, v, k);
      ParseSerializedFrom(schema, AfterField(schema, m, v, k), v, k + 1);
    }
  }

  /** Reading a written message into any message of the same type is `MergeFrom`. */
  lemma ParseIsMerge(schema: Schema, m: Fields, v: Fields)
    requires Typed(schema, m) && Typed(schema, v) && AllFit(v) && AllUtf8(v)
    ensures Parse(schema, m, Serialize(v)) == Stopped(Merge(m, v), [], true)
  {
    ParseSerializedFrom(schema, m, v, 0);
  }

  /**
   The serializers write a string whether or not it is valid UTF-8 and the
   parser refuses the ones that are not, so the round trip succeeds exactly
   for the messages whose strings are valid.
   */
  lemma RoundTrip(schema: Schema, v: Fields)
    requires Typed(schema, v) && AllFit(v)
    ensures Parse(schema, Cleared(schema), Serialize(v)) == Stopped(v, [], true) <==> AllUtf8(v)
    ensures !AllUtf8(v) ==> Parse(schema, Cleared(schema), Serialize(v)).Failed?
  {
    ParseSerializedFrom(schema, Cleared(schema), v, 0);
    assert forall i | 0 <= i < |v| && IsZero(v[i]) :: Cleared(schema)[i] == v[i];
    assert MergeAfter(Cleared(schema), v, 0) == v;
  }

  /** Reading two written messages one after the other is merging the second into the first. */
  lemma ConcatenationIsMerge(schema: Schema, a: Fields, b: Fields)
    requires Typed(schema, a) && Typed(schema, b)
    requires AllFit(a) && AllFit(b) && AllUtf8(a) && AllUtf8(b)
    ensures Parse(schema, Cleared(schema), Serialize(a) + Serialize(b)) == Stopped(Merge(a, b), [], true)
  {
    RoundTrip(schema, a);
    ParseAppend(schema, Cleared(schema), Serialize(a), Serialize(b));
    ParseIsMerge(schema, a, b);
  }

  /**
   A reader that knows fewer or more fields than the writer: the shared fields
   arrive, unknown ones are skipped unchecked and missing ones stay as they were.
   */
  lemma VersionsInterwork(reader: Schema, m: Fields, v: Fields)
    requires Typed(reader, m) && Compatible(reader, v) && AllFit(v)
    ensures var o := Parse(reader, m, Serialize(v));
            if SharedUtf8(reader, v, 0) then
              Clean(o) && forall i | 0 <= i < |reader| ::
                o.fields[i] == if i < |v| && !IsZero(v[i]) then v[i] else m[i]
            else o.Failed?
  {
    ParseSerializedFrom(reader, m, v, 0);
  }

  // ---------- every input, not only written messages ----------

  /** Parsing only ever stores strings that can be written and read again. */
  lemma {:induction false} ParseKeepsValid(schema: Schema, m: Fields, bs: seq<Byte>)
    requires Typed(schema, m) && AllFit(m) && AllUtf8(m)
    requires Parse(schema, m, bs).Stopped?
    ensures AllFit(Parse(schema, m, bs).fields) && AllUtf8(Parse(schema, m, bs).fields)
    decreases |bs|
  {
    if bs != [] && ReadTag(bs).tag != 0 {
      var next := ParseRecord(schema, m, ReadTag(bs).tag, ReadTag(bs).rest);
      ParseKeepsValid(schema, next.fields, next.rest);
    }
  }

  /** Whatever bytes were accepted, writing the result gives a normal form that reads as the same message. */
  lemma Normalises(schema: Schema, bs: seq<Byte>)
    requires Parse(schema, Cleared(schema), bs).Stopped?
    ensures var v := Parse(schema, Cleared(schema), bs).fields;
            Parse(schema, Cleared(schema), Serialize(v)) == Stopped(v, [], true)
  {
    ParseKeepsValid(schema, Cleared(schema), bs);
    RoundTrip(schema, Parse(schema, Cleared(schema), bs).fields);
  }

  /** `p` and `q` agree on the fields in `touched`; elsewhere they are what `m` and `n` were. */
  predicate Framed(p: Fields, q: Fields, m: Fields, n: Fields, touched: set<nat>)
    requires |p| == |q| == |m| == |n|
  {
    forall i | 0 <= i < |p| :: if i in touched then p[i] == q[i] else p[i] == m[i] && q[i] == n[i]
  }

  function TouchedBy(schema: Schema, tag: nat): (fields: set<nat>)
  {
    if IsKnown(schema, tag) then {tag / 8 - 1} else {}
  }

  /** The fields that some known record of the input sets. */
  function Touched(schema: Schema, bs: seq<Byte>): (fields: set<nat>)
    decreases |bs|
  {
    var TagRead(tag, rest) := ReadTag(bs);
    if bs == [] || tag == 0 then {}
    else match ParseRecord(schema, Cleared(schema), tag, rest)
      case Stuck(_) => {}
      case Advance(_, rest') =>
        TouchedBy(schema, tag) + Touched(schema, rest')
  }

  lemma RecordFrame(schema: Schema, m: Fields, n: Fields, tag: nat, bs: seq<Byte>)
    requires Typed(schema, m) && Typed(schema, n)
    ensures var (p, q) := (ParseRecord(schema, m, tag, bs), ParseRecord(schema, n, tag, bs));
            (p.Advance? <==> q.Advance?) &&
            (p.Advance? ==> p.rest == q.rest && Framed(p.fields, q.fields, m, n, TouchedBy(schema, tag)))
  {
  }

  /** Two runs over the same bytes agree where the bytes set a field; each keeps its own value elsewhere. */
  lemma {:induction false} ParseFrame(schema: Schema, m: Fields, n: Fields, bs: seq<Byte>)
    requires Typed(schema, m) && Typed(schema, n) && Parse(schema, n, bs).Stopped?
    ensures var (p, q) := (Parse(schema, m, bs), Parse(schema, n, bs));
            && p.Stopped? && p.rest == q.rest && p.atEnd == q.atEnd
            && Framed(p.fields, q.fields, m, n, Touched(schema, bs))
    decreases |bs|
  {
    hide ParseRecord;
    if bs != [] && ReadTag(bs).tag != 0 {
      var TagRead(tag, rest) := ReadTag(bs);
      RecordFrame(schema, m, n, tag, rest);
      RecordFrame(schema, n, Cleared(schema), tag, rest);
      var p := ParseRecord(schema, m, tag, rest);
      var q := ParseRecord(schema, n, tag, rest);
      ParseFrame(schema, p.fields, q.fields, q.rest);
    }
  }

  /** Some record of `b` sets a field to zero explicitly although `va` has it non-zero. */
  predicate ResetsAField(schema: Schema, va: Fields, b: seq<Byte>, vb: Fields)
    requires Typed(schema, va) && Typed(schema, vb)
  {
    exists i | 0 <= i < |schema| :: i in Touched(schema, b) && IsZero(vb[i]) && !IsZero(va[i])
  }

  /**
   For arbitrary input, "concatenation is merge" needs one condition: the
   second part must not set a field to zero explicitly that the first part
   left non-zero. A written message never contains such a record.
   */
  lemma ConcatenationIsMergeExactly(schema: Schema, a: seq<Byte>, b: seq<Byte>)
    requires Clean(Parse(schema, Cleared(schema), a)) && Clean(Parse(schema, Cleared(schema), b))
    ensures var (va, vb) := (Parse(schema, Cleared(schema), a).fields, Parse(schema, Cleared(schema), b).fields);
            && Clean(Parse(schema, Cleared(schema), a + b))
            && (Parse(schema, Cleared(schema), a + b).fields == Merge(va, vb) <==> !ResetsAField(schema, va, b, vb))
  {
    var va := Parse(schema, Cleared(schema), a).fields;
    var vb := Parse(schema, Cleared(schema), b).fields;
    ParseAppend(schema, Cleared(schema), a, b);
    ParseFrame(schema, va, Cleared(schema), b);
    MergeDiffers(schema, va, b, vb, Parse(schema, va, b).fields);
  }

  lemma MergeDiffers(schema: Schema, va: Fields, b: seq<Byte>, vb: Fields, r: Fields)
    requires Typed(schema, va) && Typed(schema, vb) && Typed(schema, r)
    requires forall i | 0 <= i < |schema| ::
               if i in Touched(schema, b) then r[i] == vb[i] else r[i] == va[i] && vb[i] == Cleared(schema)[i]
    ensures r == Merge(va, vb) <==> !ResetsAField(schema, va, b, vb)
  {
    forall i | 0 <= i < |schema|
      ensures r[i] == Merge(va, vb)[i] <==> !(i in Touched(schema, b) && IsZero(vb[i]) && !IsZero(va[i]))
    {
      assert HasKind(va[i], schema[i]) && HasKind(vb[i], schema[i]);
    }
    if !ResetsAField(schema, va, b, vb) {
      assert r == Merge(va, vb);
    }
  }

  // ---------- where parsing stops and fails ----------

  /** A zero tag ends the message there, with success and without an end of input. */
  lemma ZeroTagStops(schema: Schema, m: Fields, a: seq<Byte>, b: seq<Byte>)
    requires Typed(schema, m) && Clean(Parse(schema, m, a))
    ensures Parse(schema, m, a + ([0] + b)) == Stopped(Parse(schema, m, a).fields, b, false)
  {
    ParseAppend(schema, m, a, [0] + b);
    ReadTagByte(0, b);
  }

  /** So do bytes that are no varint, as a tag; they are left unread. */
  lemma MalformedTagStops(schema: Schema, m: Fields, a: seq<Byte>, b: seq<Byte>)
    requires Typed(schema, m) && Clean(Parse(schema, m, a))
    requires b != [] && forall j | 0 <= j < |b| && j < 10 :: b[j] >= 128
    ensures Parse(schema, m, a + b) == Stopped(Parse(schema, m, a).fields, b, false)
  {
    ParseAppend(schema, m, a, b);
    WireLaws.DecodeIsSum(b, MAX_VARINT_BYTES);
    hide DecodeVarint, ParseRecord, WireLaws.GroupSum;
  }

  lemma CutPayloadIsRefused(v: Value, n: nat)
    requires Fits(v) && n < |Payload(v)|
    ensures match v
            case IntV(_) => ReadInt32(Payload(v)[..n]).Malformed?
            case StrV(_) => ReadString(Payload(v)[..n]).Malformed?
  {
    var bs := Payload(v);
    assert bs[..n] + bs[n..] == bs && bs + [] == bs;
    match v
    case IntV(i) =>
      ReadInt32Inverts(i, []);
      if ReadVarint(bs[..n]).Got? {
        DecodeVarintExtends(bs[..n], MAX_VARINT_BYTES, bs[n..]);
      }
    case StrV(s) =>
      ReadStringInverts(s, []);
      if ReadString(bs[..n]).Got? {
        ReadStringExtends(bs[..n], bs[n..]);
      }
  }

  /** A known record that is cut off anywhere behind its first byte makes parsing fail. */
  lemma CutRecordFails(schema: Schema, m: Fields, a: seq<Byte>, i: nat, v: Value, n: nat)
    requires Typed(schema, m) && Clean(Parse(schema, m, a))
    requires i < |schema| && HasKind(v, schema[i]) && Fits(v) && 0 < n < |Record(i, v)|
    ensures Parse(schema, m, a + Record(i, v)[..n]).Failed?
  {
    var tag, cut := Tag(i, KindOf(v)), Payload(v)[..n - 1];
    assert Record(i, v)[..n] == [tag] + cut;
    CutPayloadIsRefused(v, n - 1);
    KnownTagFails(schema, Parse(schema, m, a).fields, i, KindOf(v), cut);
    hide *;
    ParseAppend(schema, m, a, [tag] + cut);
  }

  lemma KnownTagFails(schema: Schema, m: Fields, i: nat, k: Kind, cut: seq<Byte>)
    requires Typed(schema, m) && i < |schema| && schema[i] == k
    requires if k.Int32Kind? then ReadInt32(cut).Malformed? else ReadString(cut).Malformed?
    ensures Parse(schema, m, [Tag(i, k)] + cut).Failed?
  {
    ReadTagByte(Tag(i, k), cut);
    assert ParseRecord(schema, m, Tag(i, k), cut) == Stuck(m) by {
      hide ReadInt32, ReadString, ReadTag;
    }
    StuckFails(schema, m, [Tag(i, k)] + cut);
    hide *;
  }

  lemma StuckFails(schema: Schema, m: Fields, bs: seq<Byte>)
    requires Typed(schema, m) && ReadTag(bs).tag != 0
    requires ParseRecord(schema, m, ReadTag(bs).tag, ReadTag(bs).rest).Stuck?
    ensures Parse(schema, m, bs).Failed?
  {
    hide ParseRecord;
  }

  // ---------- unknown fields ----------

  /** One complete record whose number is unknown, or known with another wire type. */
  predicate UnknownRecord(schema: Schema, bs: seq<Byte>)
  {
    var TagRead(tag, body) := ReadTag(bs);
    bs != [] && tag != 0 && !IsKnown(schema, tag) && Skip(tag, body) == Got((), [])
  }

  /** Every field that a writer with other numbers or types may write is such a record, groups included. */
  lemma WrittenFieldIsUnknown(schema: Schema, number: nat, v: WireLaws.Value)
    requires WireLaws.IsNumber(number) && WireLaws.Encodable(v)
    requires !IsKnown(schema, number * 8 + WireLaws.WireTypeOf(v))
    ensures UnknownRecord(schema, WireLaws.TagOf(number, WireLaws.WireTypeOf(v)) + WireLaws.EncodeValue(number, v))
  {
    assert number * 8 + WireLaws.WireTypeOf(v) != 0;
    hide *;
    var tag, body := WireLaws.TagOf(number, WireLaws.WireTypeOf(v)), WireLaws.EncodeValue(number, v);
    WireTypeBelow8(v);
    WireLaws.TagIsRead(number, WireLaws.WireTypeOf(v), body);
    WireLaws.ValueIsSkipped(number, v, []);
    assert body + [] == body;
    RecordIsUnknown(schema, tag + body, number * 8 + WireLaws.WireTypeOf(v), body);
  }

  lemma WireTypeBelow8(v: WireLaws.Value)
    ensures WireLaws.WireTypeOf(v) < 8
  {
  }

  lemma RecordIsUnknown(schema: Schema, bs: seq<Byte>, tag: nat, body: seq<Byte>)
    requires ReadTag(bs) == TagRead(tag, body) && tag != 0 && !IsKnown(schema, tag) && Skip(tag, body) == Got((), [])
    ensures UnknownRecord(schema, bs)
  {
    hide Skip;
  }

  lemma UnknownIsSkipped(schema: Schema, m: Fields, junk: seq<Byte>, more: seq<Byte>)
    requires Typed(schema, m) && UnknownRecord(schema, junk)
    ensures Parse(schema, m, junk + more) == Parse(schema, m, more)
  {
    ReadTagExtends(junk, more);
    SkipExtends(ReadTag(junk).tag, ReadTag(junk).rest, more);
    assert [] + more == more;
  }

  function Join(pieces: seq<seq<Byte>>): (bs: seq<Byte>)
  {
    if pieces == [] then [] else pieces[0] + Join(pieces[1..])
  }

  function WithoutUnknown(schema: Schema, pieces: seq<seq<Byte>>): (kept: seq<seq<Byte>>)
  {
    if pieces == [] then []
    else (if UnknownRecord(schema, pieces[0]) then [] else [pieces[0]]) + WithoutUnknown(schema, pieces[1..])
  }

  /** Any number of unknown records, inserted anywhere between cleanly parsed pieces, changes nothing. */
  lemma {:induction false} UnknownFieldsAreIgnored(schema: Schema, m: Fields, pieces: seq<seq<Byte>>)
    requires Typed(schema, m)
    requires forall p | p in pieces :: UnknownRecord(schema, p) || Clean(Parse(schema, Cleared(schema), p))
    ensures Parse(schema, m, Join(pieces)) == Parse(schema, m, Join(WithoutUnknown(schema, pieces)))
    decreases |pieces|
  {
    if pieces != [] {
      var p, rest := pieces[0], pieces[1..];
      var kept := WithoutUnknown(schema, rest);
      if UnknownRecord(schema, p) {
        UnknownIsSkipped(schema, m, p, Join(rest));
        assert WithoutUnknown(schema, pieces) == kept;
        UnknownFieldsAreIgnored(schema, m, rest);
      } else {
        ParseFrame(schema, m, Cleared(schema), p);
        ParseAppend(schema, m, p, Join(rest));
        ParseAppend(schema, m, p, Join(kept));
        assert WithoutUnknown(schema, pieces)[1..] == kept;
        UnknownFieldsAreIgnored(schema, Parse(schema, m, p).fields, rest);
      }
    }
  }
}
