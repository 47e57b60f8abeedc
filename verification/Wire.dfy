/**
 The primitives of the Protocol Buffers wire format, as the public encoding
 specification defines them: "Base 128 Varints", "Message Structure", "More
 Integer Types" and "Length-Delimited Records". The generated message code
 calls them; their own C++ source is not part of the repository.
 */
module Wire {

  type Byte = b: int | 0 <= b < 0x100
  type Int32 = i: int | -0x8000_0000 <= i < 0x8000_0000

  /** A 64-bit varint has at most ten bytes. */
  const MAX_VARINT_BYTES: nat := 10
  const TWO_32: nat := 0x1_0000_0000
  const TWO_64: nat := 0x1_0000_0000_0000_0000
  /** A string length is read into a signed 32-bit size. */
  const MAX_STRING_SIZE: nat := 0x8000_0000

  /** The outcome of reading one value from the front of the input. */
  datatype Read<+T> = Got(value: T, rest: seq<Byte>) | Malformed

  /** Tag 0 stands for "no tag": end of input, a zero tag or a malformed one. */
  datatype TagRead = TagRead(tag: nat, rest: seq<Byte>)

  // ---------- Base 128 varints ----------

  function EncodeVarint(n: nat): (bs: seq<Byte>)
    ensures |bs| >= 1
  {
    if n < 128 then [n] else [n % 128 + 128] + EncodeVarint(n / 128)
  }

  /** Reads at most `budget` bytes; the last byte is the first one below 128. */
  function DecodeVarint(bs: seq<Byte>, budget: nat): (r: Read<nat>)
    ensures r.Got? ==> |r.rest| < |bs|
    decreases |bs|
  {
    if bs == [] || budget == 0 then Malformed
    else if bs[0] < 128 then Got(bs[0], bs[1..])
    else match DecodeVarint(bs[1..], budget - 1)
      case Malformed => Malformed
      case Got(v, rest) => Got(bs[0] - 128 + 128 * v, rest)
  }

  function ReadVarint(bs: seq<Byte>): (r: Read<nat>)
    ensures r.Got? ==> |r.rest| < |bs|
  {
    DecodeVarint(bs, MAX_VARINT_BYTES)
  }

  function Pow128(k: nat): (p: nat)
    ensures p >= 1
  {
    if k == 0 then 1 else 128 * Pow128(k - 1)
  }

  /** The encoding has `k` bytes exactly when `k` groups of seven bits are needed. */
  lemma {:induction false} VarintLength(n: nat, k: nat)
    requires k >= 1 && n < Pow128(k) && (k == 1 || Pow128(k - 1) <= n)
    ensures |EncodeVarint(n)| == k
  {
    if k == 1 {
      assert Pow128(1) == 128 * Pow128(0);
    } else {
      assert n >= 128 by { assert Pow128(k - 1) == 128 * Pow128(k - 2); }
      assert Pow128(k) == 128 * Pow128(k - 1);
      assert Pow128(k - 1) == 128 * Pow128(k - 2);
      VarintLength(n / 128, k - 1);
    }
  }

  /** Reading undoes writing, whatever bytes follow. */
  lemma {:induction false} DecodeEncode(n: nat, budget: nat, more: seq<Byte>)
    requires |EncodeVarint(n)| <= budget
    ensures DecodeVarint(EncodeVarint(n) + more, budget) == Got(n, more)
  {
    var bs := EncodeVarint(n) + more;
    if n < 128 {
      assert bs[1..] == more;
    } else {
      assert bs[1..] == EncodeVarint(n / 128) + more;
      DecodeEncode(n / 128, budget - 1, more);
    }
  }

  /** The written form is the shortest of all the forms that read as the same number. */
  lemma {:induction false} EncodeIsShortest(bs: seq<Byte>, budget: nat)
    requires DecodeVarint(bs, budget).Got?
    ensures |EncodeVarint(DecodeVarint(bs, budget).value)| + |DecodeVarint(bs, budget).rest| <= |bs|
  {
    if bs[0] >= 128 {
      EncodeIsShortest(bs[1..], budget - 1);
      var v := DecodeVarint(bs[1..], budget - 1).value;
      var n := bs[0] - 128 + 128 * v;
      assert n / 128 == v;
      if n >= 128 {
        assert |EncodeVarint(n)| == 1 + |EncodeVarint(v)|;
      }
    }
  }

  lemma {:induction false} DecodeVarintExtends(bs: seq<Byte>, budget: nat, more: seq<Byte>)
    requires DecodeVarint(bs, budget).Got?
    ensures DecodeVarint(bs + more, budget) ==
            Got(DecodeVarint(bs, budget).value, DecodeVarint(bs, budget).rest + more)
  {
    assert (bs + more)[1..] == bs[1..] + more;
    if bs[0] >= 128 {
      DecodeVarintExtends(bs[1..], budget - 1, more);
    }
  }

  // ---------- int32 ----------

  /** The number that is written for an int32: a negative one is sign-extended to 64 bits. */
  function VarintOfInt32(i: Int32): (n: nat)
  {
    if i < 0 then i + TWO_64 else i
  }

  /** The value that is kept of a 64-bit varint: its low 32 bits, read as two's complement. */
  function Int32OfVarint(n: nat): (i: Int32)
  {
    var low := n % TWO_32;
    if low < 0x8000_0000 then low else low - TWO_32
  }

  function EncodeInt32(i: Int32): (bs: seq<Byte>)
    ensures |bs| >= 1
  {
    EncodeVarint(VarintOfInt32(i))
  }

  function ReadInt32(bs: seq<Byte>): (r: Read<Int32>)
    ensures r.Got? ==> |r.rest| < |bs|
  {
    match ReadVarint(bs)
    case Malformed => Malformed
    case Got(n, rest) => Got(Int32OfVarint(n), rest)
  }

  /** The size the library computes by comparing against powers of two. */
  function Int32Size(i: Int32): (n: nat)
  {
    if i < 0 then 10
    else VarintSize32(i)
  }

  function VarintSize32(n: nat): (size: nat)
  {
    if n < 0x80 then 1
    else if n < 0x4000 then 2
    else if n < 0x20_0000 then 3
    else if n < 0x1000_0000 then 4
    else 5
  }

  lemma Powers()
    ensures Pow128(1) == 0x80 && Pow128(2) == 0x4000 && Pow128(3) == 0x20_0000 && Pow128(4) == 0x1000_0000
    ensures Pow128(5) == 0x8_0000_0000 && Pow128(9) == 0x8000_0000_0000_0000 && Pow128(10) == 128 * Pow128(9)
  {
    assert Pow128(2) == 128 * Pow128(1);
    assert Pow128(3) == 128 * Pow128(2);
    assert Pow128(4) == 128 * Pow128(3);
    assert Pow128(5) == 128 * Pow128(4);
    assert Pow128(6) == 128 * Pow128(5);
    assert Pow128(7) == 128 * Pow128(6);
    assert Pow128(8) == 128 * Pow128(7);
  }

  lemma VarintSizeIsLength(n: nat)
    requires n < TWO_32
    ensures |EncodeVarint(n)| == VarintSize32(n)
  {
    Powers();
    VarintLength(n, VarintSize32(n));
  }

  /** Every negative int32 takes ten bytes, every other one to five. */
  lemma Int32SizeIsLength(i: Int32)
    ensures |EncodeInt32(i)| == Int32Size(i)
  {
    Powers();
    VarintLength(VarintOfInt32(i), Int32Size(i));
  }

  lemma Int32OfVarintInverts(i: Int32)
    ensures Int32OfVarint(VarintOfInt32(i)) == i
  {
    if i < 0 {
      assert i + TWO_64 == (i + TWO_32) + (TWO_32 - 1) * TWO_32;
    }
  }

  lemma ReadInt32Inverts(i: Int32, more: seq<Byte>)
    ensures ReadInt32(EncodeInt32(i) + more) == Got(i, more)
  {
    Int32SizeIsLength(i);
    DecodeEncode(VarintOfInt32(i), MAX_VARINT_BYTES, more);
    Int32OfVarintInverts(i);
  }

  // ---------- length-delimited strings ----------

  function EncodeString(s: seq<Byte>): (bs: seq<Byte>)
    ensures |bs| >= 1
  {
    EncodeVarint(|s|) + s
  }

  function ReadString(bs: seq<Byte>): (r: Read<seq<Byte>>)
    ensures r.Got? ==> |r.rest| < |bs|
  {
    match ReadVarint(bs)
    case Malformed => Malformed
    case Got(n, rest) =>
      var size := n % TWO_32;
      if size < MAX_STRING_SIZE && size <= |rest| then Got(rest[..size], rest[size..]) else Malformed
  }

  lemma ReadStringInverts(s: seq<Byte>, more: seq<Byte>)
    requires |s| < MAX_STRING_SIZE
    ensures ReadString(EncodeString(s) + more) == Got(s, more)
  {
    VarintSizeIsLength(|s|);
    DecodeEncode(|s|, MAX_VARINT_BYTES, s + more);
    assert EncodeString(s) + more == EncodeVarint(|s|) + (s + more);
    assert (s + more)[..|s|] == s && (s + more)[|s|..] == more;
  }

  lemma ReadStringExtends(bs: seq<Byte>, more: seq<Byte>)
    requires ReadString(bs).Got?
    ensures ReadString(bs + more) == Got(ReadString(bs).value, ReadString(bs).rest + more)
  {
    DecodeVarintExtends(bs, MAX_VARINT_BYTES, more);
    var rest := ReadVarint(bs).rest;
    var size := ReadVarint(bs).value % TWO_32;
    assert (rest + more)[..size] == rest[..size];
    assert (rest + more)[size..] == rest[size..] + more;
  }

  // ---------- UTF-8 (section 4 of RFC 3629) ----------

  predicate Tail(b: Byte) { 0x80 <= b <= 0xBF }

  /** The length of the UTF-8 sequence at the front of `s`, or 0 when there is none. */
  function Utf8Head(s: seq<Byte>): (n: nat)
    ensures n <= |s|
  {
    if s == [] then 0
    else if s[0] <= 0x7F then 1
    else if |s| >= 2 && 0xC2 <= s[0] <= 0xDF && Tail(s[1]) then 2
    else if |s| >= 3 && Tail(s[2]) &&
            ((s[0] == 0xE0 && 0xA0 <= s[1] <= 0xBF) || (0xE1 <= s[0] <= 0xEC && Tail(s[1])) ||
             (s[0] == 0xED && 0x80 <= s[1] <= 0x9F) || (0xEE <= s[0] <= 0xEF && Tail(s[1]))) then 3
    else if |s| >= 4 && Tail(s[2]) && Tail(s[3]) &&
            ((s[0] == 0xF0 && 0x90 <= s[1] <= 0xBF) || (0xF1 <= s[0] <= 0xF3 && Tail(s[1])) ||
             (s[0] == 0xF4 && 0x80 <= s[1] <= 0x8F)) then 4
    else 0
  }

  predicate ValidUtf8(s: seq<Byte>)
    decreases |s|
  {
    s == [] || (Utf8Head(s) > 0 && ValidUtf8(s[Utf8Head(s)..]))
  }

  // ---------- tags and skipping ----------

  /** A tag is a varint cut to 32 bits: field number times eight plus the wire type. */
  function ReadTag(bs: seq<Byte>): (t: TagRead)
    ensures |t.rest| <= |bs|
    ensures t.tag != 0 ==> |t.rest| < |bs|
  {
    match ReadVarint(bs)
    case Malformed => TagRead(0, bs)
    case Got(n, rest) => TagRead(n % TWO_32, rest)
  }

  lemma ReadTagExtends(bs: seq<Byte>, more: seq<Byte>)
    requires ReadTag(bs).tag != 0
    ensures ReadTag(bs + more) == TagRead(ReadTag(bs).tag, ReadTag(bs).rest + more)
  {
    DecodeVarintExtends(bs, MAX_VARINT_BYTES, more);
  }

  lemma ReadTagByte(tag: Byte, more: seq<Byte>)
    requires tag < 128
    ensures ReadTag([tag] + more) == TagRead(tag, more)
  {
    assert ([tag] + more)[1..] == more;
  }

  /** Skips the value of a field by its wire type: varint, 64-bit, length-delimited, group or 32-bit. */
  function Skip(tag: nat, bs: seq<Byte>): (r: Read<()>)
    ensures r.Got? ==> |r.rest| <= |bs|
    decreases |bs|, 1
  {
    if tag / 8 == 0 then Malformed
    else match tag % 8
      case 0 => (match ReadVarint(bs) case Malformed => Malformed case Got(_, rest) => Got((), rest))
      case 1 => if |bs| >= 8 then Got((), bs[8..]) else Malformed
      case 2 => (match ReadString(bs) case Malformed => Malformed case Got(_, rest) => Got((), rest))
      case 3 => SkipGroup(tag / 8, bs)
      case 5 => if |bs| >= 4 then Got((), bs[4..]) else Malformed
      case _ => Malformed
  }

  /** Skips records up to the end-group tag that carries the same field number. */
  function SkipGroup(number: nat, bs: seq<Byte>): (r: Read<()>)
    ensures r.Got? ==> |r.rest| <= |bs|
    decreases |bs|, 0
  {
    var TagRead(tag, rest) := ReadTag(bs);
    if tag == 0 then Malformed
    else if tag % 8 == 4 then (if tag / 8 == number then Got((), rest) else Malformed)
    else match Skip(tag, rest)
      case Malformed => Malformed
      case Got(_, rest') => SkipGroup(number, rest')
  }

  lemma {:induction false} SkipExtends(tag: nat, bs: seq<Byte>, more: seq<Byte>)
    requires Skip(tag, bs).Got?
    ensures Skip(tag, bs + more) == Got((), Skip(tag, bs).rest + more)
    decreases |bs|, 1
  {
    match tag % 8
    case 0 => DecodeVarintExtends(bs, MAX_VARINT_BYTES, more);
    case 1 => assert (bs + more)[8..] == bs[8..] + more;
    case 2 => ReadStringExtends(bs, more);
    case 3 => SkipGroupExtends(tag / 8, bs, more);
    case 5 => assert (bs + more)[4..] == bs[4..] + more;
    case _ =>
  }

  lemma {:induction false} SkipGroupExtends(number: nat, bs: seq<Byte>, more: seq<Byte>)
    requires SkipGroup(number, bs).Got?
    ensures SkipGroup(number, bs + more) == Got((), SkipGroup(number, bs).rest + more)
    decreases |bs|, 0
  {
    ReadTagExtends(bs, more);
    var TagRead(tag, rest) := ReadTag(bs);
    if tag % 8 != 4 {
      SkipExtends(tag, rest, more);
      SkipGroupExtends(number, Skip(tag, rest).rest, more);
    }
  }
}
