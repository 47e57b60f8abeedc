/**
 What the wire primitives mean, without their own definitions: a varint is a
 sum of seven-bit groups, valid UTF-8 is the encoding of a text, and what is
 skipped is one value of the field's wire type.
 */
module WireLaws {
  import opened Wire

  // ---------- varints ----------

  /** A form of a varint: the high bit is set in all bytes but the last. */
  predicate IsForm(bs: seq<Byte>)
  {
    |bs| >= 1 && bs[|bs| - 1] < 128 && forall j | 0 <= j < |bs| - 1 :: bs[j] >= 128
  }

  /** The sum of the low seven bits of byte `j` times 128 to the power of `j`. */
  function GroupSum(bs: seq<Byte>): (n: nat)
  {
    if bs == [] then 0 else GroupSum(bs[..|bs| - 1]) + bs[|bs| - 1] % 128 * Pow128(|bs| - 1)
  }

  lemma NextPower(group: nat, k: nat)
    requires k > 0
    ensures group * Pow128(k) == 128 * (group * Pow128(k - 1))
  {
    var p := Pow128(k - 1);
    assert Pow128(k) == 128 * p;
  }

  lemma {:induction false} GroupSumTail(bs: seq<Byte>)
    requires bs != []
    ensures GroupSum(bs) == bs[0] % 128 + 128 * GroupSum(bs[1..])
    decreases |bs|
  {
    var n := |bs| - 1;
    if n > 0 {
      GroupSumTail(bs[..n]);
      assert bs[..n][1..] == bs[1..][..n - 1];
      NextPower(bs[n] % 128, n);
      hide Pow128;
    } else {
      OneGroup(bs);
    }
  }

  lemma OneGroup(bs: seq<Byte>)
    requires |bs| == 1
    ensures GroupSum(bs) == bs[0] % 128 && GroupSum(bs[1..]) == 0
  {
    assert bs[..0] == [] && bs[1..] == [];
  }

  lemma FormTail(bs: seq<Byte>, n: nat)
    requires 1 < n <= |bs| && bs[0] >= 128 && IsForm(bs[1..][..n - 1])
    ensures IsForm(bs[..n])
  {
    assert bs[..n][1..] == bs[1..][..n - 1];
  }

  /** `n` bytes at the front of the input are a form of `v`, and `rest` is behind them. */
  predicate ReadsForm(bs: seq<Byte>, budget: nat, n: nat, v: nat, rest: seq<Byte>)
  {
    1 <= n <= |bs| && n <= budget && rest == bs[n..] && IsForm(bs[..n]) && v == GroupSum(bs[..n])
  }

  lemma ReadsFormTail(bs: seq<Byte>, budget: nat, n: nat, v: nat, rest: seq<Byte>)
    requires bs != [] && budget > 0 && bs[0] >= 128 && ReadsForm(bs[1..], budget - 1, n, v, rest)
    ensures ReadsForm(bs, budget, n + 1, bs[0] - 128 + 128 * v, rest)
  {
    FormTail(bs, n + 1);
    GroupSumTail(bs[..n + 1]);
    assert bs[..n + 1][1..] == bs[1..][..n];
    assert bs[1..][n..] == bs[n + 1..];
    hide GroupSum, IsForm;
  }

  /**
   Reading takes the first form off the input, if one of at most `budget` bytes
   is there, and gives the sum of its groups; otherwise the first bytes all
   have the high bit set.
   */
  lemma {:induction false} DecodeIsSum(bs: seq<Byte>, budget: nat)
    ensures match DecodeVarint(bs, budget)
            case Got(v, rest) => ReadsForm(bs, budget, |bs| - |rest|, v, rest)
            case Malformed => forall j | 0 <= j < |bs| && j < budget :: bs[j] >= 128
    decreases |bs|
  {
    if bs != [] && budget > 0 {
      if bs[0] < 128 {
        OneGroup(bs[..1]);
      } else {
        DecodeIsSum(bs[1..], budget - 1);
        match DecodeVarint(bs[1..], budget - 1)
        case Malformed =>
          assert forall j | 1 <= j < |bs| :: bs[j] == bs[1..][j - 1];
        case Got(v, rest) => ReadsFormTail(bs, budget, |bs[1..]| - |rest|, v, rest);
      }
    }
  }

  lemma EncodeTurn(n: nat)
    ensures n < 128 ==> EncodeVarint(n) == [n] && IsForm([n]) && GroupSum([n]) == n
    ensures n >= 128 ==>
              var low: Byte := n % 128 + 128;
              EncodeVarint(n) == [low] + EncodeVarint(n / 128) && low % 128 + 128 * (n / 128) == n
  {
    if n < 128 {
      OneGroup([n]);
    }
  }

  /** What is written is one form, and its groups sum to the number. */
  lemma {:induction false} EncodeIsForm(n: nat)
    ensures IsForm(EncodeVarint(n)) && GroupSum(EncodeVarint(n)) == n
  {
    hide *;
    EncodeTurn(n);
    if n >= 128 {
      EncodeIsForm(n / 128);
      FormCons(n % 128 + 128, EncodeVarint(n / 128));
    }
  }

  lemma FormCons(b: Byte, bs: seq<Byte>)
    requires b >= 128 && IsForm(bs)
    ensures IsForm([b] + bs) && GroupSum([b] + bs) == b % 128 + 128 * GroupSum(bs)
  {
    GroupSumTail([b] + bs);
    assert ([b] + bs)[1..] == bs;
  }

  /** In two's complement: the written number is the value modulo 2^64, the value read the number modulo 2^32. */
  lemma Int32IsTwosComplement(i: Int32, n: nat)
    ensures VarintOfInt32(i) < TWO_64 && (VarintOfInt32(i) - i) % TWO_64 == 0
    ensures (Int32OfVarint(n) - n) % TWO_32 == 0
  {
    var high := n / TWO_32;
    assert n == high * TWO_32 + n % TWO_32;
    if n % TWO_32 < 0x8000_0000 {
      assert Int32OfVarint(n) - n == (-high) * TWO_32;
    } else {
      assert Int32OfVarint(n) - n == (-high - 1) * TWO_32;
    }
  }

  /** A tag is the low 32 bits of the first form of the input; without a form there is no tag and nothing is read. */
  lemma TagIsLowBits(bs: seq<Byte>)
    ensures var t := ReadTag(bs);
            || (t == TagRead(0, bs) && forall j | 0 <= j < |bs| && j < 10 :: bs[j] >= 128)
            || (exists n: nat, v: nat | v % TWO_32 == t.tag :: ReadsForm(bs, 10, n, v, t.rest))
  {
    DecodeIsSum(bs, MAX_VARINT_BYTES);
    match DecodeVarint(bs, MAX_VARINT_BYTES)
    case Malformed =>
    case Got(v, rest) => assert ReadsForm(bs, 10, |bs| - |rest|, v, rest);
  }

  // ---------- UTF-8 ----------

  /** A Unicode scalar value: a code point that is no surrogate. */
  predicate IsScalar(u: nat) { u < 0xD800 || 0xE000 <= u < 0x11_0000 }

  /** The bits of a scalar value, spread over one to four bytes with the length marked in the first. */
  function EncodeScalar(u: nat): (bs: seq<Byte>)
    requires IsScalar(u)
    ensures 1 <= |bs| <= 4
  {
    if u < 0x80 then [u]
    else if u < 0x800 then [0xC0 + u / 0x40, 0x80 + u % 0x40]
    else if u < 0x1_0000 then [0xE0 + u / 0x1000, 0x80 + u / 0x40 % 0x40, 0x80 + u % 0x40]
    else [0xF0 + u / 0x4_0000, 0x80 + u / 0x1000 % 0x40, 0x80 + u / 0x40 % 0x40, 0x80 + u % 0x40]
  }

  predicate AllScalar(us: seq<nat>) { forall j | 0 <= j < |us| :: IsScalar(us[j]) }

  function EncodeText(us: seq<nat>): (bs: seq<Byte>)
    requires AllScalar(us)
  {
    if us == [] then [] else EncodeScalar(us[0]) + EncodeText(us[1..])
  }

  /** Two, three and four digits of six bits. */
  lemma Digits2(a: nat, b: nat)
    requires b < 0x40
    ensures (a * 0x40 + b) / 0x40 == a && (a * 0x40 + b) % 0x40 == b
  {
  }

  lemma Digits3(a: nat, b: nat, c: nat)
    requires b < 0x40 && c < 0x40
    ensures var u := a * 0x1000 + b * 0x40 + c;
            u / 0x1000 == a && u / 0x40 % 0x40 == b && u % 0x40 == c && u / 0x40 == a * 0x40 + b
  {
    Digits2(a * 0x40 + b, c);
    Digits2(a, b);
  }

  lemma Digits4(a: nat, b: nat, c: nat, d: nat)
    requires b < 0x40 && c < 0x40 && d < 0x40
    ensures var u := a * 0x4_0000 + b * 0x1000 + c * 0x40 + d;
            u / 0x4_0000 == a && u / 0x1000 % 0x40 == b && u / 0x40 % 0x40 == c && u % 0x40 == d
  {
    Digits3(a * 0x40 + b, c, d);
    Digits2(a, b);
  }

  lemma TwoBytes(s: seq<Byte>) returns (u: nat)
    requires Utf8Head(s) == 2
    ensures IsScalar(u) && EncodeScalar(u) == s[..2]
  {
    var a: nat, b: nat := s[0] - 0xC0, s[1] - 0x80;
    u := a * 0x40 + b;
    Digits2(a, b);
  }

  lemma ThreeBytes(s: seq<Byte>) returns (u: nat)
    requires Utf8Head(s) == 3
    ensures IsScalar(u) && EncodeScalar(u) == s[..3]
  {
    var a: nat, b: nat, c: nat := s[0] - 0xE0, s[1] - 0x80, s[2] - 0x80;
    u := a * 0x1000 + b * 0x40 + c;
    Digits3(a, b, c);
    assert IsScalar(u) && u < 0x1_0000 && u >= 0x800;
    hide Utf8Head;
  }

  lemma FourBytes(s: seq<Byte>) returns (u: nat)
    requires Utf8Head(s) == 4
    ensures IsScalar(u) && EncodeScalar(u) == s[..4]
  {
    var a: nat, b: nat, c: nat, d: nat := s[0] - 0xF0, s[1] - 0x80, s[2] - 0x80, s[3] - 0x80;
    u := a * 0x4_0000 + b * 0x1000 + c * 0x40 + d;
    Digits4(a, b, c, d);
    assert IsScalar(u) && u >= 0x1_0000;
    hide Utf8Head;
  }

  /** The head of a string is the encoding of one scalar value ... */
  lemma HeadIsEncoded(s: seq<Byte>) returns (u: nat)
    requires Utf8Head(s) > 0
    ensures IsScalar(u) && EncodeScalar(u) == s[..Utf8Head(s)]
  {
    match Utf8Head(s)
    case 1 => u := s[0];
    case 2 => u := TwoBytes(s);
    case 3 => u := ThreeBytes(s);
    case _ => u := FourBytes(s);
  }

  /** ... and the encoding of a scalar value is a head, whatever follows. */
  lemma EncodedIsHead(u: nat, more: seq<Byte>)
    requires IsScalar(u)
    ensures Utf8Head(EncodeScalar(u) + more) == |EncodeScalar(u)|
  {
    var s := EncodeScalar(u) + more;
    if u < 0x80 {
      assert s[0] == u;
    } else if u < 0x800 {
      assert 2 <= u / 0x40 < 0x20 && s[0] == 0xC0 + u / 0x40 && s[1] == 0x80 + u % 0x40;
    } else if u < 0x1_0000 {
      ThreeFollow(u);
      assert s[0] == 0xE0 + u / 0x1000 && s[1] == 0x80 + u / 0x40 % 0x40 && s[2] == 0x80 + u % 0x40;
    } else {
      FourFollow(u);
      assert s[0] == 0xF0 + u / 0x4_0000 && s[1] == 0x80 + u / 0x1000 % 0x40;
      assert s[2] == 0x80 + u / 0x40 % 0x40 && s[3] == 0x80 + u % 0x40;
    }
    hide EncodeScalar;
  }

  /** The second of three bytes is limited: below U+0800 two do, and U+D800 to U+DFFF are no scalar values. */
  lemma ThreeFollow(u: nat)
    requires IsScalar(u) && 0x800 <= u < 0x1_0000
    ensures u / 0x1000 < 0x10
    ensures u / 0x1000 == 0 ==> u / 0x40 % 0x40 >= 0x20
    ensures u / 0x1000 == 0xD ==> u / 0x40 % 0x40 < 0x20
  {
    var a, b := u / 0x1000, u / 0x40;
    assert b / 0x40 == a;
    assert b % 0x40 == b - a * 0x40;
  }

  lemma FourFollow(u: nat)
    requires 0x1_0000 <= u < 0x11_0000
    ensures u / 0x4_0000 < 5
    ensures u / 0x4_0000 == 0 ==> u / 0x1000 % 0x40 >= 0x10
    ensures u / 0x4_0000 == 4 ==> u / 0x1000 % 0x40 < 0x10
  {
    var a, b := u / 0x4_0000, u / 0x1000;
    assert b / 0x40 == a;
    assert b % 0x40 == b - a * 0x40;
  }

  lemma {:induction false} TextIsValid(us: seq<nat>)
    requires AllScalar(us)
    ensures ValidUtf8(EncodeText(us))
    decreases |us|
  {
    if us != [] {
      var head, rest := EncodeScalar(us[0]), EncodeText(us[1..]);
      EncodedIsHead(us[0], rest);
      assert (head + rest)[|head|..] == rest;
      TextIsValid(us[1..]);
      hide EncodeScalar, Utf8Head;
    }
  }

  lemma TextCons(u: nat, us: seq<nat>)
    requires IsScalar(u) && AllScalar(us)
    ensures AllScalar([u] + us) && EncodeText([u] + us) == EncodeScalar(u) + EncodeText(us)
  {
    assert ([u] + us)[1..] == us;
  }

  lemma NoText()
    ensures AllScalar([]) && EncodeText([]) == []
  {
  }

  lemma ValidTail(s: seq<Byte>)
    requires ValidUtf8(s) && s != []
    ensures 0 < Utf8Head(s) <= |s| && ValidUtf8(s[Utf8Head(s)..])
  {
  }

  lemma {:induction false} ValidIsText(s: seq<Byte>) returns (us: seq<nat>)
    requires ValidUtf8(s)
    ensures AllScalar(us) && EncodeText(us) == s
    decreases |s|
  {
    hide *;
    NoText();
    us := [];
    if s != [] {
      ValidTail(s);
      var n := Utf8Head(s);
      var u := HeadIsEncoded(s);
      var rest := ValidIsText(s[n..]);
      TextCons(u, rest);
      assert s[..n] + s[n..] == s;
      us := [u] + rest;
    }
  }

  /** A string is valid exactly if it is the encoding of some sequence of scalar values. */
  lemma ValidUtf8Exactly(s: seq<Byte>)
    ensures ValidUtf8(s) <==> exists us :: AllScalar(us) && EncodeText(us) == s
  {
    if ValidUtf8(s) {
      var us := ValidIsText(s);
    }
    forall us | AllScalar(us) && EncodeText(us) == s
      ensures ValidUtf8(s)
    {
      TextIsValid(us);
    }
  }

  // ---------- what is skipped ----------

  /** The value of a field of any wire type; the fields of a group are numbered. */
  datatype Value =
    | VarintV(n: nat)
    | Fixed64V(eight: seq<Byte>)
    | BytesV(s: seq<Byte>)
    | GroupV(fields: Fields)
    | Fixed32V(four: seq<Byte>)

  datatype Fields = NoField | Field(number: nat, value: Value, rest: Fields)

  function WireTypeOf(v: Value): (w: nat)
  {
    match v case VarintV(_) => 0 case Fixed64V(_) => 1 case BytesV(_) => 2 case GroupV(_) => 3 case Fixed32V(_) => 5
  }

  /** A field number that fits a 32-bit tag. */
  predicate IsNumber(number: nat) { 1 <= number < 0x2000_0000 }

  predicate Encodable(v: Value)
  {
    match v
    case VarintV(n) => n < TWO_64
    case Fixed64V(eight) => |eight| == 8
    case BytesV(s) => |s| < MAX_STRING_SIZE
    case GroupV(fields) => AllEncodable(fields)
    case Fixed32V(four) => |four| == 4
  }

  predicate AllEncodable(fields: Fields)
  {
    match fields
    case NoField => true
    case Field(number, value, rest) => IsNumber(number) && Encodable(value) && AllEncodable(rest)
  }

  function TagOf(number: nat, wireType: nat): (bs: seq<Byte>) { EncodeVarint(number * 8 + wireType) }

  /** The bytes of a value behind the tag of field `number`; a group ends with an end tag of its own number. */
  function EncodeValue(number: nat, v: Value): (bs: seq<Byte>)
    decreases v
  {
    match v
    case VarintV(n) => EncodeVarint(n)
    case Fixed64V(eight) => eight
    case BytesV(s) => EncodeVarint(|s|) + s
    case GroupV(fields) => EncodeFields(fields) + TagOf(number, 4)
    case Fixed32V(four) => four
  }

  function EncodeFields(fields: Fields): (bs: seq<Byte>)
    decreases fields
  {
    match fields
    case NoField => []
    case Field(number, value, rest) =>
      TagOf(number, WireTypeOf(value)) + EncodeValue(number, value) + EncodeFields(rest)
  }

  lemma TagIsRead(number: nat, wireType: nat, more: seq<Byte>)
    requires IsNumber(number) && wireType < 8
    ensures ReadTag(TagOf(number, wireType) + more) == TagRead(number * 8 + wireType, more)
    ensures (number * 8 + wireType) / 8 == number && (number * 8 + wireType) % 8 == wireType
  {
    var tag := number * 8 + wireType;
    VarintSizeIsLength(tag);
    DecodeEncode(tag, MAX_VARINT_BYTES, more);
    hide EncodeVarint, DecodeVarint;
  }

  lemma {:induction false} VarintAtMost(n: nat, k: nat)
    requires k >= 1 && n < Pow128(k)
    ensures |EncodeVarint(n)| <= k
  {
    if n >= 128 {
      assert Pow128(k) == 128 * Pow128(k - 1);
      VarintAtMost(n / 128, k - 1);
    }
  }

  lemma VarintIsSkipped(tag: nat, n: nat, more: seq<Byte>)
    requires tag / 8 > 0 && tag % 8 == 0 && n < TWO_64
    ensures Skip(tag, EncodeVarint(n) + more) == Got((), more)
  {
    Powers();
    VarintAtMost(n, 10);
    DecodeEncode(n, MAX_VARINT_BYTES, more);
    hide EncodeVarint, DecodeVarint;
  }

  lemma FixedIsSkipped(tag: nat, bs: seq<Byte>, more: seq<Byte>)
    requires tag / 8 > 0 && (if tag % 8 == 1 then |bs| == 8 else tag % 8 == 5 && |bs| == 4)
    ensures Skip(tag, bs + more) == Got((), more)
  {
    assert (bs + more)[|bs|..] == more;
  }

  lemma BytesAreSkipped(tag: nat, s: seq<Byte>, more: seq<Byte>)
    requires tag / 8 > 0 && tag % 8 == 2 && |s| < MAX_STRING_SIZE
    ensures Skip(tag, EncodeVarint(|s|) + s + more) == Got((), more)
  {
    ReadStringInverts(s, more);
    hide ReadString;
  }

  /** One turn of skipping a group: a field, or the end tag of the group's own number. */
  lemma GroupTurn(group: nat, number: nat, wireType: nat, more: seq<Byte>)
    requires IsNumber(number) && wireType < 8
    ensures wireType == 4 ==>
              SkipGroup(group, TagOf(number, wireType) + more) == if number == group then Got((), more) else Malformed
    ensures wireType != 4 && Skip(number * 8 + wireType, more).Got? ==>
              SkipGroup(group, TagOf(number, wireType) + more)
              == SkipGroup(group, Skip(number * 8 + wireType, more).rest)
  {
    TagIsRead(number, wireType, more);
    hide TagOf, ReadTag, Skip;
  }

  /** Skipping a field of any wire type uses up its value, with groups nested to any depth, and nothing behind it. */
  lemma {:induction false} ValueIsSkipped(number: nat, v: Value, more: seq<Byte>)
    requires IsNumber(number) && Encodable(v)
    ensures Skip(number * 8 + WireTypeOf(v), EncodeValue(number, v) + more) == Got((), more)
    decreases v, 1
  {
    var tag := number * 8 + WireTypeOf(v);
    assert tag / 8 == number && tag % 8 == WireTypeOf(v);
    hide EncodeVarint, SkipGroup, ReadVarint, ReadString, TagOf, EncodeFields, DecodeVarint, AllEncodable, IsNumber;
    match v
    case VarintV(n) => VarintIsSkipped(tag, n, more);
    case Fixed64V(eight) => FixedIsSkipped(tag, eight, more);
    case BytesV(s) => BytesAreSkipped(tag, s, more);
    case GroupV(fields) =>
      var body, end := EncodeFields(fields), TagOf(number, 4);
      assert (body + end) + more == body + (end + more);
      GroupIsSkipped(number, fields, more);
    case Fixed32V(four) => FixedIsSkipped(tag, four, more);
  }

  lemma {:induction false} GroupIsSkipped(number: nat, fields: Fields, more: seq<Byte>)
    requires IsNumber(number) && AllEncodable(fields)
    ensures SkipGroup(number, EncodeFields(fields) + (TagOf(number, 4) + more)) == Got((), more)
    decreases fields, 0
  {
    var end := TagOf(number, 4) + more;
    hide TagOf, Skip, SkipGroup, EncodeValue, IsNumber, Encodable;
    match fields
    case NoField =>
      assert EncodeFields(fields) + end == end;
      GroupTurn(number, number, 4, more);
    case Field(inner, value, rest) =>
      var body := EncodeFields(rest) + end;
      var tag, own := TagOf(inner, WireTypeOf(value)), EncodeValue(inner, value);
      assert EncodeFields(fields) + end == tag + (own + body);
      ValueIsSkipped(inner, value, body);
      GroupTurn(number, inner, WireTypeOf(value), own + body);
      GroupIsSkipped(number, rest, more);
  }

  lemma CutIsRefused(tag: nat, bs: seq<Byte>, n: nat)
    requires Skip(tag, bs) == Got((), []) && n < |bs|
    ensures Skip(tag, bs[..n]).Malformed?
  {
    hide Skip;
    assert bs[..n] + bs[n..] == bs;
    if Skip(tag, bs[..n]).Got? {
      SkipExtends(tag, bs[..n], bs[n..]);
    }
  }

  /** Nothing shorter is skipped: a value that is cut off is malformed. */
  lemma CutValueIsRefused(number: nat, v: Value, n: nat)
    requires IsNumber(number) && Encodable(v) && n < |EncodeValue(number, v)|
    ensures Skip(number * 8 + WireTypeOf(v), EncodeValue(number, v)[..n]).Malformed?
  {
    hide *;
    var bs := EncodeValue(number, v);
    ValueIsSkipped(number, v, []);
    assert bs + [] == bs;
    CutIsRefused(number * 8 + WireTypeOf(v), bs, n);
  }
}
