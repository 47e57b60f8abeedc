/**
 The five messages of the RPC interface: each class has the fields and the
 methods of the generated C++ class, and each method is proved against the
 schema-driven functions of module Message.
 */
module TranscodeRpc {
  import opened Wire
  import opened Message

  const TAG_CUTOFF: nat := 127

  // ---------- the library's streams ----------

  /** What the library writes for an int32 field: its tag, then the value. */
  function Int32Record(number: nat, value: Int32): (bs: seq<Byte>)
  {
    EncodeVarint(number * 8) + EncodeInt32(value)
  }

  function StringRecord(number: nat, value: seq<Byte>): (bs: seq<Byte>)
  {
    EncodeVarint(number * 8 + 2) + EncodeString(value)
  }

  class CodedInputStream {
    var rest: seq<Byte>
    /** Set by a tag read that found no input left: the message ended at a legitimate place. */
    var atEnd: bool

    constructor (bs: seq<Byte>)
      ensures rest == bs && !atEnd
    {
      rest, atEnd := bs, false;
    }

    method ReadTagWithCutoffNoLastTag(cutoff: nat) returns (tag: nat, below: bool)
      modifies this
      ensures TagRead(tag, rest) == ReadTag(old(rest))
      ensures below <==> 1 <= tag <= cutoff
      ensures atEnd <==> old(rest) == []
    {
      atEnd := rest == [];
      var t := ReadTag(rest);
      tag, rest := t.tag, t.rest;
      below := 1 <= tag <= cutoff;
    }

    method NextInt32(current: Int32) returns (ok: bool, value: Int32)
      modifies this
      ensures ok ==> ReadInt32(old(rest)) == Got(value, rest)
      ensures !ok ==> ReadInt32(old(rest)).Malformed? && value == current
      ensures atEnd == old(atEnd)
    {
      match ReadInt32(rest)
      case Malformed => return false, current;
      case Got(n, rest') =>
        rest := rest';
        return true, n;
    }

    method NextString(current: seq<Byte>) returns (ok: bool, value: seq<Byte>)
      modifies this
      ensures ok ==> ReadString(old(rest)) == Got(value, rest)
      ensures !ok ==> ReadString(old(rest)).Malformed? && value == current
      ensures atEnd == old(atEnd)
    {
      match ReadString(rest)
      case Malformed => return false, current;
      case Got(s, rest') =>
        rest := rest';
        return true, s;
    }

    method SkipField(tag: nat) returns (ok: bool)
      modifies this
      ensures ok <==> Skip(tag, old(rest)).Got?
      ensures ok ==> rest == Skip(tag, old(rest)).rest
      ensures atEnd == old(atEnd)
    {
      var r := Skip(tag, rest);
      ok := r.Got?;
      if ok {
        rest := r.rest;
      }
    }
  }

  class CodedOutputStream {
    var written: seq<Byte>

    constructor ()
      ensures written == []
    {
      written := [];
    }

    method WriteInt32(number: nat, value: Int32)
      modifies this
      ensures written == old(written) + Int32Record(number, value)
    {
      written := written + Int32Record(number, value);
    }

    method WriteString(number: nat, value: seq<Byte>)
      modifies this
      ensures written == old(written) + StringRecord(number, value)
    {
      written := written + StringRecord(number, value);
    }
  }

  // ---------- writing into an array ----------

  /** `after` is `before` with `bs` stored from position `at` on. */
  ghost predicate Stored(before: seq<Byte>, after: seq<Byte>, at: nat, bs: seq<Byte>)
  {
    at + |bs| <= |before| && after == before[..at] + bs + before[at + |bs|..]
  }

  lemma StoredNothing(before: seq<Byte>, at: nat)
    requires at <= |before|
    ensures Stored(before, before, at, [])
  {
    assert before == before[..at] + [] + before[at..];
  }

  lemma StoredTwice(before: seq<Byte>, middle: seq<Byte>, after: seq<Byte>, at: nat, a: seq<Byte>, b: seq<Byte>)
    requires Stored(before, middle, at, a) && Stored(middle, after, at + |a|, b)
    ensures Stored(before, after, at, a + b)
  {
    assert middle[..at + |a|] == before[..at] + a;
    assert middle[at + |a| + |b|..] == before[at + |a + b|..];
  }

  lemma StoredThrice(s0: seq<Byte>, s1: seq<Byte>, s2: seq<Byte>, s3: seq<Byte>, at: nat, a: seq<Byte>, b: seq<Byte>,
                     c: seq<Byte>)
    requires Stored(s0, s1, at, a) && Stored(s1, s2, at + |a|, b) && Stored(s2, s3, at + |a| + |b|, c)
    ensures Stored(s0, s3, at, a + b + c)
  {
    hide Stored;
    StoredTwice(s0, s1, s2, at, a, b);
    StoredTwice(s0, s2, s3, at, a + b, c);
  }

  method StoreBytes(target: array<Byte>, at: nat, bs: seq<Byte>) returns (next: nat)
    requires at + |bs| <= target.Length
    modifies target
    ensures next == at + |bs| && Stored(old(target[..]), target[..], at, bs)
  {
    forall i | 0 <= i < |bs| {
      target[at + i] := bs[i];
    }
    next := at + |bs|;
    assert target[..] == target[..at] + target[at..next] + target[next..];
    assert target[at..next] == bs;
  }

  /** The zero test of the array serializers together with the write it guards. */
  method WriteInt32ToArray(number: nat, value: Int32, target: array<Byte>, at: nat, ghost bs: seq<Byte>)
    returns (next: nat)
    requires bs == if value == 0 then [] else Int32Record(number, value)
    requires at + |bs| <= target.Length
    modifies target
    ensures next == at + |bs| && Stored(old(target[..]), target[..], at, bs)
  {
    next := at;
    if value != 0 {
      next := StoreBytes(target, at, Int32Record(number, value));
    } else {
      StoredNothing(target[..], at);
    }
  }

  method WriteStringToArray(number: nat, value: seq<Byte>, target: array<Byte>, at: nat, ghost bs: seq<Byte>)
    returns (next: nat)
    requires bs == if |value| == 0 then [] else StringRecord(number, value)
    requires at + |bs| <= target.Length
    modifies target
    ensures next == at + |bs| && Stored(old(target[..]), target[..], at, bs)
  {
    next := at;
    if |value| > 0 {
      next := StoreBytes(target, at, StringRecord(number, value));
    } else {
      StoredNothing(target[..], at);
    }
  }

  // ---------- what the methods are proved against ----------

  /** A parse method's return value, message and stream are what `Parse` says. */
  ghost predicate Parsed(o: Outcome, ok: bool, fields: Fields, rest: seq<Byte>, atEnd: bool)
  {
    match o
    case Stopped(m, r, end) => ok && fields == m && rest == r && atEnd == end
    case Failed(m) => !ok && fields == m
  }

  /** One turn of the parse loop, case by case. */
  lemma ParseTurn(schema: Schema, m: Fields, bs: seq<Byte>)
    requires Typed(schema, m)
    ensures var TagRead(tag, rest) := ReadTag(bs);
            && (tag == 0 ==> Parse(schema, m, bs) == Stopped(m, rest, bs == []))
            && (tag != 0 && !IsKnown(schema, tag) ==>
                 Parse(schema, m, bs) ==
                   if Skip(tag, rest).Got? then Parse(schema, m, Skip(tag, rest).rest) else Failed(m))
            && (tag != 0 && IsKnown(schema, tag) ==>
                 var i := tag / 8 - 1;
                 Parse(schema, m, bs) ==
                   if schema[i].Int32Kind? then
                     match ReadInt32(rest)
                     case Malformed => Failed(m)
                     case Got(n, rest') => Parse(schema, m[i := IntV(n)], rest')
                   else
                     match ReadString(rest)
                     case Malformed => Failed(m)
                     case Got(s, rest') =>
                       if ValidUtf8(s) then Parse(schema, m[i := StrV(s)], rest') else Failed(m[i := StrV(s)]))
  {
  }

  lemma AppendNothing(w: seq<Byte>)
    ensures w + [] == w
  {
  }

  lemma AppendTwice(w: seq<Byte>, a: seq<Byte>, b: seq<Byte>)
    ensures w + a + b == w + (a + b)
  {
  }

  lemma AppendThrice(w: seq<Byte>, a: seq<Byte>, b: seq<Byte>, c: seq<Byte>)
    ensures w + a + b + c == w + (a + b + c)
  {
  }

  lemma SerializeNone()
    ensures Serialize([]) == []
  {
  }

  lemma SerializeOne(a: Value)
    ensures Serialize([a]) == Written(0, a)
  {
    var m := [a];
    assert SerializeFrom(m, 1) == [];
  }

  lemma SerializeTwo(a: Value, b: Value)
    ensures Serialize([a, b]) == Written(0, a) + Written(1, b)
  {
    var m := [a, b];
    assert SerializeFrom(m, 2) == [];
    assert SerializeFrom(m, 1) == Written(1, b);
  }

  lemma SerializeThree(a: Value, b: Value, c: Value)
    ensures Serialize([a, b, c]) == Written(0, a) + Written(1, b) + Written(2, c)
  {
    hide Written;
    var m := [a, b, c];
    assert SerializeFrom(m, 3) == [];
    assert SerializeFrom(m, 2) == Written(2, c);
    assert SerializeFrom(m, 1) == Written(1, b) + Written(2, c);
    AppendTwice(Written(0, a), Written(1, b), Written(2, c));
  }

  const PIDS_SCHEMA: Schema := [Int32Kind, Int32Kind, StringKind]
  const AVIO_TYPE_SCHEMA: Schema := [Int32Kind, StringKind]
  const STATE_REPLY_SCHEMA: Schema := [StringKind]
  const CHANNEL_LIST_SCHEMA: Schema := [StringKind]
  const EMPTY_SCHEMA: Schema := []

  class PIDS {
    var video: Int32
    var audio: Int32
    var filename: seq<Byte>

    function Fields(): (m: Fields)
      reads this
      ensures Typed(PIDS_SCHEMA, m)
    {
      [IntV(video), IntV(audio), StrV(filename)]
    }

    constructor ()
      ensures Fields() == Cleared(PIDS_SCHEMA)
    {
      video := 0;
      audio := 0;
      filename := [];
    }

    method Clear()
      modifies this
      ensures Fields() == Cleared(PIDS_SCHEMA)
    {
      filename := [];
      video := 0;
      audio := 0;
    }

    method MergeFrom(from: PIDS)
      requires from != this
      modifies this
      ensures Fields() == Merge(old(Fields()), from.Fields())
    {
      if |from.filename| > 0 {
        filename := from.filename;
      }
      if from.video != 0 {
        video := from.video;
      }
      if from.audio != 0 {
        audio := from.audio;
      }
    }

    method CopyFrom(from: PIDS)
      modifies this
      ensures Fields() == old(from.Fields())
    {
      if from == this {
        return;
      }
      Clear();
      MergeFrom(from);
    }

    method MergePartialFromCodedStream(input: CodedInputStream) returns (ok: bool)
      modifies this, input
      ensures Parsed(Parse(PIDS_SCHEMA, old(Fields()), old(input.rest)), ok, Fields(), input.rest, input.atEnd)
    {
      hide Parse, ParseRecord, Skip, ReadTag, ReadInt32, ReadString, ValidUtf8;
      while true
        invariant Parse(PIDS_SCHEMA, Fields(), input.rest) == Parse(PIDS_SCHEMA, old(Fields()), old(input.rest))
        decreases |input.rest|
      {
        ghost var fields := Fields();
        ParseTurn(PIDS_SCHEMA, fields, input.rest);
        var tag, below := input.ReadTagWithCutoffNoLastTag(TAG_CUTOFF);
        if below && tag / 8 == 1 && tag % 0x100 == 8 {
          ok, video := input.NextInt32(video);
          if !ok {
            return;
          }
          assert Fields() == fields[0 := IntV(video)];
        } else if below && tag / 8 == 2 && tag % 0x100 == 16 {
          ok, audio := input.NextInt32(audio);
          if !ok {
            return;
          }
          assert Fields() == fields[1 := IntV(audio)];
        } else if below && tag / 8 == 3 && tag % 0x100 == 26 {
          ok, filename := input.NextString(filename);
          assert Fields() == fields[2 := StrV(filename)];
          if !ok || !ValidUtf8(filename) {
            return false;
          }
        } else {
          if tag == 0 {
            return true;
          }
          ok := input.SkipField(tag);
          if !ok {
            return;
          }
        }
      }
    }

    /** The bytes of the written form, field by field. */
    lemma Layout() returns (a: seq<Byte>, b: seq<Byte>, c: seq<Byte>)
      ensures Serialize(Fields()) == a + b + c
      ensures a == if video == 0 then [] else Int32Record(1, video)
      ensures b == if audio == 0 then [] else Int32Record(2, audio)
      ensures c == if |filename| == 0 then [] else StringRecord(3, filename)
    {
      hide Serialize, SerializeFrom, EncodeInt32, EncodeString;
      a := Written(0, IntV(video));
      b := Written(1, IntV(audio));
      c := Written(2, StrV(filename));
      SerializeThree(IntV(video), IntV(audio), StrV(filename));
    }

    method SerializeWithCachedSizes(output: CodedOutputStream)
      modifies output
      ensures output.written == old(output.written) + Serialize(Fields())
    {
      hide *;
      ghost var a, b, c := Layout();
      ghost var w0 := output.written;
      AppendNothing(w0);
      if video != 0 {
        output.WriteInt32(1, video);
      }
      assert output.written == w0 + a;
      ghost var w1 := output.written;
      AppendNothing(w1);
      if audio != 0 {
        output.WriteInt32(2, audio);
      }
      assert output.written == w1 + b;
      ghost var w2 := output.written;
      AppendNothing(w2);
      if |filename| > 0 {
        output.WriteString(3, filename);
      }
      assert output.written == w2 + c;
      AppendThrice(w0, a, b, c);
    }

    method InternalSerializeWithCachedSizesToArray(target: array<Byte>, at: nat) returns (next: nat)
      requires at + |Serialize(Fields())| <= target.Length
      modifies target
      ensures next == at + |Serialize(Fields())|
      ensures Stored(old(target[..]), target[..], at, Serialize(Fields()))
    {
      hide *;
      ghost var a, b, c := Layout();
      next := at;
      ghost var t0 := target[..];
      next := WriteInt32ToArray(1, video, target, next, a);
      ghost var t1 := target[..];
      next := WriteInt32ToArray(2, audio, target, next, b);
      ghost var t2 := target[..];
      next := WriteStringToArray(3, filename, target, next, c);
      StoredThrice(t0, t1, t2, target[..], at, a, b, c);
    }

    method ByteSizeLong() returns (size: nat)
      requires |filename| < MAX_STRING_SIZE
      ensures size == |Serialize(Fields())|
    {
      SerializeThree(IntV(video), IntV(audio), StrV(filename));
      WrittenSizeIsLength(0, IntV(video));
      WrittenSizeIsLength(1, IntV(audio));
      WrittenSizeIsLength(2, StrV(filename));
      size := 0;
      if |filename| > 0 {
        size := size + 1 + VarintSize32(|filename|) + |filename|;
      }
      if video != 0 {
        size := size + 1 + Int32Size(video);
      }
      if audio != 0 {
        size := size + 1 + Int32Size(audio);
      }
    }
  }

  class AvioType {
    var inputtype: Int32
    var file: seq<Byte>

    function Fields(): (m: Fields)
      reads this
      ensures Typed(AVIO_TYPE_SCHEMA, m)
    {
      [IntV(inputtype), StrV(file)]
    }

    constructor ()
      ensures Fields() == Cleared(AVIO_TYPE_SCHEMA)
    {
      inputtype := 0;
      file := [];
    }

    method Clear()
      modifies this
      ensures Fields() == Cleared(AVIO_TYPE_SCHEMA)
    {
      file := [];
      inputtype := 0;
    }

    method MergeFrom(from: AvioType)
      requires from != this
      modifies this
      ensures Fields() == Merge(old(Fields()), from.Fields())
    {
      if |from.file| > 0 {
        file := from.file;
      }
      if from.inputtype != 0 {
        inputtype := from.inputtype;
      }
    }

    method CopyFrom(from: AvioType)
      modifies this
      ensures Fields() == old(from.Fields())
    {
      if from == this {
        return;
      }
      Clear();
      MergeFrom(from);
    }

    method MergePartialFromCodedStream(input: CodedInputStream) returns (ok: bool)
      modifies this, input
      ensures Parsed(Parse(AVIO_TYPE_SCHEMA, old(Fields()), old(input.rest)), ok, Fields(), input.rest, input.atEnd)
    {
      hide Parse, ParseRecord, Skip, ReadTag, ReadInt32, ReadString, ValidUtf8;
      while true
        invariant Parse(AVIO_TYPE_SCHEMA, Fields(), input.rest)
                  == Parse(AVIO_TYPE_SCHEMA, old(Fields()), old(input.rest))
        decreases |input.rest|
      {
        ghost var fields := Fields();
        ParseTurn(AVIO_TYPE_SCHEMA, fields, input.rest);
        var tag, below := input.ReadTagWithCutoffNoLastTag(TAG_CUTOFF);
        if below && tag / 8 == 1 && tag % 0x100 == 8 {
          ok, inputtype := input.NextInt32(inputtype);
          if !ok {
            return;
          }
          assert Fields() == fields[0 := IntV(inputtype)];
        } else if below && tag / 8 == 2 && tag % 0x100 == 18 {
          ok, file := input.NextString(file);
          assert Fields() == fields[1 := StrV(file)];
          if !ok || !ValidUtf8(file) {
            return false;
          }
        } else {
          if tag == 0 {
            return true;
          }
          ok := input.SkipField(tag);
          if !ok {
            return;
          }
        }
      }
    }

    /** The bytes of the written form, field by field. */
    lemma Layout() returns (a: seq<Byte>, b: seq<Byte>)
      ensures Serialize(Fields()) == a + b
      ensures a == if inputtype == 0 then [] else Int32Record(1, inputtype)
      ensures b == if |file| == 0 then [] else StringRecord(2, file)
    {
      hide Serialize, SerializeFrom, EncodeInt32, EncodeString;
      a := Written(0, IntV(inputtype));
      b := Written(1, StrV(file));
      SerializeTwo(IntV(inputtype), StrV(file));
    }

    method SerializeWithCachedSizes(output: CodedOutputStream)
      modifies output
      ensures output.written == old(output.written) + Serialize(Fields())
    {
      hide *;
      ghost var a, b := Layout();
      ghost var w0 := output.written;
      AppendNothing(w0);
      if inputtype != 0 {
        output.WriteInt32(1, inputtype);
      }
      assert output.written == w0 + a;
      ghost var w1 := output.written;
      AppendNothing(w1);
      if |file| > 0 {
        output.WriteString(2, file);
      }
      assert output.written == w1 + b;
      AppendTwice(w0, a, b);
    }

    method InternalSerializeWithCachedSizesToArray(target: array<Byte>, at: nat) returns (next: nat)
      requires at + |Serialize(Fields())| <= target.Length
      modifies target
      ensures next == at + |Serialize(Fields())|
      ensures Stored(old(target[..]), target[..], at, Serialize(Fields()))
    {
      hide *;
      ghost var a, b := Layout();
      next := at;
      ghost var t0 := target[..];
      next := WriteInt32ToArray(1, inputtype, target, next, a);
      ghost var t1 := target[..];
      next := WriteStringToArray(2, file, target, next, b);
      StoredTwice(t0, t1, target[..], at, a, b);
    }

    method ByteSizeLong() returns (size: nat)
      requires |file| < MAX_STRING_SIZE
      ensures size == |Serialize(Fields())|
    {
      SerializeTwo(IntV(inputtype), StrV(file));
      WrittenSizeIsLength(0, IntV(inputtype));
      WrittenSizeIsLength(1, StrV(file));
      size := 0;
      if |file| > 0 {
        size := size + 1 + VarintSize32(|file|) + |file|;
      }
      if inputtype != 0 {
        size := size + 1 + Int32Size(inputtype);
      }
    }
  }

  class StateReply {
    var reply: seq<Byte>

    function Fields(): (m: Fields)
      reads this
      ensures Typed(STATE_REPLY_SCHEMA, m)
    {
      [StrV(reply)]
    }

    constructor ()
      ensures Fields() == Cleared(STATE_REPLY_SCHEMA)
    {
      reply := [];
    }

    method Clear()
      modifies this
      ensures Fields() == Cleared(STATE_REPLY_SCHEMA)
    {
      reply := [];
    }

    method MergeFrom(from: StateReply)
      requires from != this
      modifies this
      ensures Fields() == Merge(old(Fields()), from.Fields())
    {
      if |from.reply| > 0 {
        reply := from.reply;
      }
    }

    method CopyFrom(from: StateReply)
      modifies this
      ensures Fields() == old(from.Fields())
    {
      if from == this {
        return;
      }
      Clear();
      MergeFrom(from);
    }

    method MergePartialFromCodedStream(input: CodedInputStream) returns (ok: bool)
      modifies this, input
      ensures Parsed(Parse(STATE_REPLY_SCHEMA, old(Fields()), old(input.rest)), ok, Fields(), input.rest, input.atEnd)
    {
      hide Parse, ParseRecord, Skip, ReadTag, ReadInt32, ReadString, ValidUtf8;
      while true
        invariant Parse(STATE_REPLY_SCHEMA, Fields(), input.rest)
                  == Parse(STATE_REPLY_SCHEMA, old(Fields()), old(input.rest))
        decreases |input.rest|
      {
        ghost var fields := Fields();
        ParseTurn(STATE_REPLY_SCHEMA, fields, input.rest);
        var tag, below := input.ReadTagWithCutoffNoLastTag(TAG_CUTOFF);
        if below && tag / 8 == 1 && tag % 0x100 == 10 {
          ok, reply := input.NextString(reply);
          assert Fields() == fields[0 := StrV(reply)];
          if !ok || !ValidUtf8(reply) {
            return false;
          }
        } else {
          if tag == 0 {
            return true;
          }
          ok := input.SkipField(tag);
          if !ok {
            return;
          }
        }
      }
    }

    /** The bytes of the written form, field by field. */
    lemma Layout() returns (a: seq<Byte>)
      ensures Serialize(Fields()) == a
      ensures a == if |reply| == 0 then [] else StringRecord(1, reply)
    {
      hide Serialize, SerializeFrom, EncodeInt32, EncodeString;
      a := Written(0, StrV(reply));
      SerializeOne(StrV(reply));
    }

    method SerializeWithCachedSizes(output: CodedOutputStream)
      modifies output
      ensures output.written == old(output.written) + Serialize(Fields())
    {
      hide *;
      ghost var a := Layout();
      ghost var w0 := output.written;
      AppendNothing(w0);
      if |reply| > 0 {
        output.WriteString(1, reply);
      }
      assert output.written == w0 + a;
    }

    method InternalSerializeWithCachedSizesToArray(target: array<Byte>, at: nat) returns (next: nat)
      requires at + |Serialize(Fields())| <= target.Length
      modifies target
      ensures next == at + |Serialize(Fields())|
      ensures Stored(old(target[..]), target[..], at, Serialize(Fields()))
    {
      hide *;
      ghost var a := Layout();
      next := at;
      ghost var t0 := target[..];
      next := WriteStringToArray(1, reply, target, next, a);
    }

    method ByteSizeLong() returns (size: nat)
      requires |reply| < MAX_STRING_SIZE
      ensures size == |Serialize(Fields())|
    {
      SerializeOne(StrV(reply));
      WrittenSizeIsLength(0, StrV(reply));
      size := 0;
      if |reply| > 0 {
        size := size + 1 + VarintSize32(|reply|) + |reply|;
      }
    }
  }

  class ChannelList {
    var list: seq<Byte>

    function Fields(): (m: Fields)
      reads this
      ensures Typed(CHANNEL_LIST_SCHEMA, m)
    {
      [StrV(list)]
    }

    constructor ()
      ensures Fields() == Cleared(CHANNEL_LIST_SCHEMA)
    {
      list := [];
    }

    method Clear()
      modifies this
      ensures Fields() == Cleared(CHANNEL_LIST_SCHEMA)
    {
      list := [];
    }

    method MergeFrom(from: ChannelList)
      requires from != this
      modifies this
      ensures Fields() == Merge(old(Fields()), from.Fields())
    {
      if |from.list| > 0 {
        list := from.list;
      }
    }

    method CopyFrom(from: ChannelList)
      modifies this
      ensures Fields() == old(from.Fields())
    {
      if from == this {
        return;
      }
      Clear();
      MergeFrom(from);
    }

    method MergePartialFromCodedStream(input: CodedInputStream) returns (ok: bool)
      modifies this, input
      ensures Parsed(Parse(CHANNEL_LIST_SCHEMA, old(Fields()), old(input.rest)), ok, Fields(), input.rest, input.atEnd)
    {
      hide Parse, ParseRecord, Skip, ReadTag, ReadInt32, ReadString, ValidUtf8;
      while true
        invariant Parse(CHANNEL_LIST_SCHEMA, Fields(), input.rest)
                  == Parse(CHANNEL_LIST_SCHEMA, old(Fields()), old(input.rest))
        decreases |input.rest|
      {
        ghost var fields := Fields();
        ParseTurn(CHANNEL_LIST_SCHEMA, fields, input.rest);
        var tag, below := input.ReadTagWithCutoffNoLastTag(TAG_CUTOFF);
        if below && tag / 8 == 1 && tag % 0x100 == 10 {
          ok, list := input.NextString(list);
          assert Fields() == fields[0 := StrV(list)];
          if !ok || !ValidUtf8(list) {
            return false;
          }
        } else {
          if tag == 0 {
            return true;
          }
          ok := input.SkipField(tag);
          if !ok {
            return;
          }
        }
      }
    }

    /** The bytes of the written form, field by field. */
    lemma Layout() returns (a: seq<Byte>)
      ensures Serialize(Fields()) == a
      ensures a == if |list| == 0 then [] else StringRecord(1, list)
    {
      hide Serialize, SerializeFrom, EncodeInt32, EncodeString;
      a := Written(0, StrV(list));
      SerializeOne(StrV(list));
    }

    method SerializeWithCachedSizes(output: CodedOutputStream)
      modifies output
      ensures output.written == old(output.written) + Serialize(Fields())
    {
      hide *;
      ghost var a := Layout();
      ghost var w0 := output.written;
      AppendNothing(w0);
      if |list| > 0 {
        output.WriteString(1, list);
      }
      assert output.written == w0 + a;
    }

    method InternalSerializeWithCachedSizesToArray(target: array<Byte>, at: nat) returns (next: nat)
      requires at + |Serialize(Fields())| <= target.Length
      modifies target
      ensures next == at + |Serialize(Fields())|
      ensures Stored(old(target[..]), target[..], at, Serialize(Fields()))
    {
      hide *;
      ghost var a := Layout();
      next := at;
      ghost var t0 := target[..];
      next := WriteStringToArray(1, list, target, next, a);
    }

    method ByteSizeLong() returns (size: nat)
      requires |list| < MAX_STRING_SIZE
      ensures size == |Serialize(Fields())|
    {
      SerializeOne(StrV(list));
      WrittenSizeIsLength(0, StrV(list));
      size := 0;
      if |list| > 0 {
        size := size + 1 + VarintSize32(|list|) + |list|;
      }
    }
  }

  class Empty {
    function Fields(): (m: Fields)
      ensures Typed(EMPTY_SCHEMA, m)
    {
      []
    }

    constructor ()
      ensures Fields() == Cleared(EMPTY_SCHEMA)
    {
    }

    method Clear()
      ensures Fields() == Cleared(EMPTY_SCHEMA)
    {
    }

    method MergeFrom(from: Empty)
      requires from != this
      ensures Fields() == Merge(Fields(), from.Fields())
    {
    }

    method CopyFrom(from: Empty)
      ensures Fields() == from.Fields()
    {
      if from == this {
        return;
      }
      Clear();
      MergeFrom(from);
    }

    method MergePartialFromCodedStream(input: CodedInputStream) returns (ok: bool)
      modifies input
      ensures Parsed(Parse(EMPTY_SCHEMA, Fields(), old(input.rest)), ok, Fields(), input.rest, input.atEnd)
    {
      hide Parse, ParseRecord, Skip, ReadTag, ReadInt32, ReadString, ValidUtf8;
      while true
        invariant Parse(EMPTY_SCHEMA, Fields(), input.rest) == Parse(EMPTY_SCHEMA, Fields(), old(input.rest))
        decreases |input.rest|
      {
        ParseTurn(EMPTY_SCHEMA, Fields(), input.rest);
        var tag, _ := input.ReadTagWithCutoffNoLastTag(TAG_CUTOFF);
        if tag == 0 {
          return true;
        }
        ok := input.SkipField(tag);
        if !ok {
          return;
        }
      }
    }

    /** The bytes of the written form, field by field. */
    lemma Layout()
      ensures Serialize(Fields()) == []
    {
      SerializeNone();
    }

    method SerializeWithCachedSizes(output: CodedOutputStream)
      modifies output
      ensures output.written == old(output.written) + Serialize(Fields())
    {
      hide *;
      Layout();
      AppendNothing(output.written);
    }

    method InternalSerializeWithCachedSizesToArray(target: array<Byte>, at: nat) returns (next: nat)
      requires at + |Serialize(Fields())| <= target.Length
      modifies target
      ensures next == at + |Serialize(Fields())|
      ensures Stored(old(target[..]), target[..], at, Serialize(Fields()))
    {
      hide *;
      Layout();
      next := at;
      StoredNothing(target[..], at);
    }

    method ByteSizeLong() returns (size: nat)
      ensures size == |Serialize(Fields())|
    {
      SerializeNone();
      size := 0;
    }
  }

  // ---------- one message byte by byte ----------

  /** A PIDS with video 256, audio 3 and the file name "a". */
  lemma PidsBytes(pids: PIDS)
    requires pids.video == 256 && pids.audio == 3 && pids.filename == [0x61]
    ensures Serialize(pids.Fields()) == [8, 0x80, 2, 16, 3, 26, 1, 0x61]
  {
    var a, b, c := pids.Layout();
    SmallVarints();
    hide Serialize, EncodeVarint;
  }

  /** An avio_type with input type 1 and the file "a". */
  lemma AvioTypeBytes(avio: AvioType)
    requires avio.inputtype == 1 && avio.file == [0x61]
    ensures Serialize(avio.Fields()) == [8, 1, 18, 1, 0x61]
  {
    var a, b := avio.Layout();
    SmallVarints();
    hide Serialize, EncodeVarint;
  }

  /** A StateReply with the reply "a"; a channel_list looks the same. */
  lemma StateReplyBytes(reply: StateReply, list: ChannelList)
    requires reply.reply == [0x61] && list.list == [0x61]
    ensures Serialize(reply.Fields()) == Serialize(list.Fields()) == [10, 1, 0x61]
  {
    var a := reply.Layout();
    var b := list.Layout();
    SmallVarints();
    hide Serialize, EncodeVarint;
  }

  lemma SmallVarints()
    ensures forall n: Byte | n < 128 :: EncodeVarint(n) == [n]
    ensures EncodeVarint(256) == [0x80, 2]
  {
    assert EncodeVarint(256 / 128) == [2];
  }

  // ---------- inputs on which the plain laws fail ----------

  /**
   A PIDS whose video is 1, followed by one that sets the video to 0
   explicitly: both parse cleanly, and the whole is not their merge.
   */
  lemma ResettingIsNotMerging()
    ensures var (a, b) := ([8, 1], [8, 0]);
            var (va, vb) := ([IntV(1), IntV(0), StrV([])], [IntV(0), IntV(0), StrV([])]);
            && Parse(PIDS_SCHEMA, Cleared(PIDS_SCHEMA), a) == Stopped(va, [], true)
            && Parse(PIDS_SCHEMA, Cleared(PIDS_SCHEMA), b) == Stopped(vb, [], true)
            && Parse(PIDS_SCHEMA, Cleared(PIDS_SCHEMA), a + b) == Stopped(vb, [], true)
            && Merge(va, vb) == va != vb
  {
    hide Parse, ReadTag, Merge;
    var va, vb := [IntV(1), IntV(0), StrV([])], [IntV(0), IntV(0), StrV([])];
    var c := Cleared(PIDS_SCHEMA);
    assert c == vb;
    VideoIsRead(c, 1, []);
    VideoIsRead(c, 0, []);
    VideoIsRead(c, 1, [8, 0]);
    VideoIsRead(va, 0, []);
    NothingIsRead(va);
    NothingIsRead(vb);
    MergeWithCleared(va);
    var a: seq<Byte>, b: seq<Byte> := [8, 1], [8, 0];
    assert a + [] == a && b + [] == b;
    assert c[0 := IntV(1)] == va && c[0 := IntV(0)] == vb && va[0 := IntV(0)] == vb;
  }

  lemma NothingIsRead(m: Fields)
    requires Typed(PIDS_SCHEMA, m)
    ensures Parse(PIDS_SCHEMA, m, []) == Stopped(m, [], true)
  {
  }

  lemma MergeWithCleared(m: Fields)
    requires Typed(PIDS_SCHEMA, m)
    ensures Merge(m, Cleared(PIDS_SCHEMA)) == m
  {
  }

  lemma VideoIsRead(m: Fields, video: Byte, more: seq<Byte>)
    requires Typed(PIDS_SCHEMA, m) && video < 128
    ensures Parse(PIDS_SCHEMA, m, [8, video] + more) == Parse(PIDS_SCHEMA, m[0 := IntV(video)], more)
  {
    var bs := [8, video] + more;
    ReadTagByte(8, [video] + more);
    assert bs == [8] + ([video] + more);
    OneByteIsRead(video, more);
    hide Parse, ReadTag, ReadInt32;
    ParseTurn(PIDS_SCHEMA, m, bs);
  }

  lemma OneByteIsRead(n: Byte, more: seq<Byte>)
    requires n < 128
    ensures ReadInt32([n] + more) == Got(n, more)
  {
    assert ([n] + more)[1..] == more;
  }

  /** A reply of the one byte 0xFF, which no UTF-8 text contains, is written and then refused. */
  lemma WrittenAndRefused()
    ensures !ValidUtf8([0xFF])
    ensures Parse(STATE_REPLY_SCHEMA, Cleared(STATE_REPLY_SCHEMA), Serialize([StrV([0xFF])])).Failed?
  {
    hide Parse, Serialize;
    assert Utf8Head([0xFF]) == 0;
    assert !Utf8([StrV([0xFF])][0]);
    RoundTrip(STATE_REPLY_SCHEMA, [StrV([0xFF])]);
  }

  // ---------- the Go and C++ sides ----------

  /** The StateReply of the Go side has a second field, `error_code`. */
  const GO_STATE_REPLY_SCHEMA: Schema := [StringKind, Int32Kind]

  /** The C++ side reads the same `reply` out of every reply the Go side writes, whatever the error code. */
  lemma GoStateReplyIsUnderstood(reply: seq<Byte>, errorCode: Int32)
    requires |reply| < MAX_STRING_SIZE && ValidUtf8(reply)
    ensures Parse(STATE_REPLY_SCHEMA, Cleared(STATE_REPLY_SCHEMA), Serialize([StrV(reply), IntV(errorCode)]))
            == Stopped([StrV(reply)], [], true)
  {
    hide Parse, Serialize, ValidUtf8;
    var v := [StrV(reply), IntV(errorCode)];
    VersionsInterwork(STATE_REPLY_SCHEMA, Cleared(STATE_REPLY_SCHEMA), v);
    var o := Parse(STATE_REPLY_SCHEMA, Cleared(STATE_REPLY_SCHEMA), Serialize(v));
    assert o.fields == [StrV(reply)];
  }

  /** And the Go side reads a C++ reply with error code zero. */
  lemma CppStateReplyIsUnderstood(reply: seq<Byte>)
    requires |reply| < MAX_STRING_SIZE && ValidUtf8(reply)
    ensures Parse(GO_STATE_REPLY_SCHEMA, Cleared(GO_STATE_REPLY_SCHEMA), Serialize([StrV(reply)]))
            == Stopped([StrV(reply), IntV(0)], [], true)
  {
    hide Parse, Serialize, ValidUtf8;
    var v := [StrV(reply)];
    VersionsInterwork(GO_STATE_REPLY_SCHEMA, Cleared(GO_STATE_REPLY_SCHEMA), v);
    var o := Parse(GO_STATE_REPLY_SCHEMA, Cleared(GO_STATE_REPLY_SCHEMA), Serialize(v));
    assert o.fields == [StrV(reply), IntV(0)];
  }
}
