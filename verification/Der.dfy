/**
 The DER subset of CredSSP: lengths, tag-length-value items and integers (ITU-T X.690 sections 8.1.3, 8.3
 and 10.1).
 */
module Der {
  import opened Bytes

  const TAG_INTEGER := 0x02
  const TAG_OCTET_STRING := 0x04
  const TAG_SEQUENCE := 0x30

  datatype DerError =
    | EmptyLength
    | InvalidLength
    | EndOfData
    | LengthExceeds(length: nat)
    | WrongTag(expected: Byte, got: Byte)
    | IntegerLength(length: nat)
    | BadOid
    | NoToken

  datatype Tlv = Tlv(tag: Byte, value: Bytes, consumed: nat)

  function EncodeLength(len: nat): (b: Bytes)
    ensures 1 <= |b| <= 4
  {
    if len < 0x80 then [len]
    else if len < 0x100 then [0x81, len]
    else if len < 0x10000 then [0x82, len / 256, len % 256]
    else [0x83, len / 0x10000 % 256, len / 256 % 256, len % 256]
  }

  function EncodeTlv(tag: Byte, contents: Bytes): (b: Bytes)
    ensures |b| > |contents|
  {
    [tag] + EncodeLength(|contents|) + contents
  }

  /** `0xA0 | tag`: the bits of 0xA0 that `tag` lacks are added. */
  function ContextTag(tag: Byte): Byte {
    var b := if tag / 128 % 2 == 1 then tag else tag + 128;
    if b / 32 % 2 == 1 then b else b + 32
  }

  function EncodeOctetString(data: Bytes): Bytes {
    EncodeTlv(TAG_OCTET_STRING, data)
  }

  function Trim(b: Bytes): (t: Bytes)
    ensures |t| <= |b|
    ensures t != [] ==> t[0] != 0
  {
    if b != [] && b[0] == 0 then Trim(b[1..]) else b
  }

  type Word = x: int | 0 <= x < U32 witness 0

  /** The contents of an INTEGER: no leading zeros, except one that keeps the sign positive. */
  function IntegerBytes(value: Word): (b: Bytes) {
    if value == 0 then [0] else
      var t := Trim(BeBytes(value, 4));
      if t != [] && t[0] >= 0x80 then [0] + t else t
  }

  function EncodeInteger(value: Word): Bytes {
    EncodeTlv(TAG_INTEGER, IntegerBytes(value))
  }

  /** The length at the start of `data`, and the bytes it takes. */
  function DecodeLength(data: Bytes): (r: Result<(nat, nat), DerError>)
    ensures r.Ok? ==> 1 <= r.value.1 <= |data| && r.value.1 <= 4
  {
    if data == [] then Err(EmptyLength)
    else if data[0] < 0x80 then Ok((data[0], 1))
    else
      var n := data[0] - 0x80;
      if n == 0 || n > 3 || |data| < 1 + n then Err(InvalidLength)
      else Ok((BeValue(data[1..1 + n]), 1 + n))
  }

  method ReadLength(data: Bytes) returns (r: Result<(nat, nat), DerError>)
    ensures r == DecodeLength(data)
  {
    if data == [] {
      return Err(EmptyLength);
    }
    if data[0] < 0x80 {
      return Ok((data[0], 1));
    }
    var numBytes := data[0] % 128;
    if numBytes == 0 || numBytes > 3 || |data| < 1 + numBytes {
      return Err(InvalidLength);
    }
    var len: nat := 0;
    for i := 0 to numBytes
      invariant len == BeValue(data[1..1 + i])
    {
      assert data[1..2 + i][..i] == data[1..1 + i];
      len := 256 * len + data[1 + i] as int;
    }
    return Ok((len, 1 + numBytes));
  }

  /** The item at the start of `data`. */
  function ReadTlv(data: Bytes): (r: Result<Tlv, DerError>)
    ensures r.Ok? ==> 2 + |r.value.value| <= r.value.consumed <= |data|
  {
    if data == [] then Err(EndOfData) else
      match DecodeLength(data[1..])
      case Err(e) => Err(e)
      case Ok((len, lenBytes)) =>
        var start := 1 + lenBytes;
        if start + len > |data| then Err(LengthExceeds(len))
        else Ok(Tlv(data[0], data[start..start + len], start + len))
  }

  /** The value of the first item tagged `target`; the search ends at the first item that cannot be read. */
  function FindItem(data: Bytes, target: Byte): Option<Bytes>
    decreases |data|
  {
    match ReadTlv(data)
    case Err(_) => None
    case Ok(t) => if t.tag == target then Some(t.value) else FindItem(data[t.consumed..], target)
  }

  function FindContextTag(data: Bytes, tag: Byte): Option<Bytes> {
    FindItem(data, ContextTag(tag))
  }

  method SearchContextTag(data: Bytes, tag: Byte) returns (r: Option<Bytes>)
    ensures r == FindContextTag(data, tag)
  {
    hide ReadTlv;
    var target := ContextTag(tag);
    var pos := 0;
    assert data[0..] == data;
    while pos < |data|
      invariant pos <= |data| && FindItem(data, target) == FindItem(data[pos..], target)
    {
      var t := ReadTlv(data[pos..]);
      if t.Err? {
        return None;
      }
      if t.value.tag == target {
        return Some(t.value.value);
      }
      assert data[pos..][t.value.consumed..] == data[pos + t.value.consumed..];
      pos := pos + t.value.consumed;
    }
    NothingFound(target);
    return None;
  }

  lemma NothingFound(target: Byte)
    ensures FindItem([], target) == None
  {
  }

  function DecodeOctetString(data: Bytes): Result<Bytes, DerError> {
    match ReadTlv(data)
    case Err(e) => Err(e)
    case Ok(t) => if t.tag != TAG_OCTET_STRING then Err(WrongTag(TAG_OCTET_STRING, t.tag)) else Ok(t.value)
  }

  function DecodeInteger(data: Bytes): Result<Word, DerError> {
    match ReadTlv(data)
    case Err(e) => Err(e)
    case Ok(t) =>
      if t.tag != TAG_INTEGER then Err(WrongTag(TAG_INTEGER, t.tag))
      else if t.value == [] || |t.value| > 4 then Err(IntegerLength(|t.value|))
      else
        BeSmall(t.value);
        Ok(BeValue(t.value))
  }

  method ReadInteger(data: Bytes) returns (r: Result<Word, DerError>)
    ensures r == DecodeInteger(data)
  {
    hide ReadTlv;
    var t := ReadTlv(data);
    if t.Err? {
      return Err(t.error);
    }
    var val := t.value.value;
    if t.value.tag != TAG_INTEGER {
      return Err(WrongTag(TAG_INTEGER, t.value.tag));
    }
    if val == [] || |val| > 4 {
      return Err(IntegerLength(|val|));
    }
    var result: nat := 0;
    for i := 0 to |val|
      invariant result == BeValue(val[..i])
    {
      assert val[..i + 1][..i] == val[..i];
      result := 256 * result + val[i] as int;
    }
    assert val[..|val|] == val;
    BeSmall(val);
    return Ok(result);
  }

  lemma BeSmall(b: Bytes)
    requires |b| <= 4
    ensures BeValue(b) < U32
  {
    BeInRange(b);
    RangeValues();
    RangeGrows(|b|, 4);
  }

  lemma {:induction false} RangeGrows(m: nat, n: nat)
    requires m <= n
    ensures Range(m) <= Range(n)
  {
    if m < n {
      RangeGrows(m, n - 1);
    }
  }

  // Lengths.

  lemma BeValues(a: Byte, b: Byte, c: Byte)
    ensures BeValue([a]) == a && BeValue([a, b]) == 256 * a + b && BeValue([a, b, c]) == 0x10000 * a + 256 * b + c
  {
    assert [a][..0] == [] && [a, b][..1] == [a] && [a, b, c][..2] == [a, b];
  }

  /** A length is read back, whatever follows, exactly when it is below 2^24. */
  lemma LengthRoundTrip(n: nat, rest: Bytes)
    ensures DecodeLength(EncodeLength(n) + rest) == Ok((n, |EncodeLength(n)|)) <==> n < U24
    ensures DecodeLength(EncodeLength(n) + rest) == Ok((n % U24, |EncodeLength(n)|))
  {
    var e := EncodeLength(n);
    var data := e + rest;
    assert data[1..|e|] == e[1..];
    if n >= 0x80 {
      if n < 0x100 {
        BeValues(e[1], 0, 0);
        assert e[1..] == [e[1]];
      } else if n < 0x10000 {
        BeValues(e[1], e[2], 0);
        assert e[1..] == [e[1], e[2]];
      } else {
        BeValues(e[1], e[2], e[3]);
        assert e[1..] == [e[1], e[2], e[3]];
        ThreeDigits(n);
      }
    }
  }

  lemma ThreeDigits(n: nat)
    ensures 0x10000 * (n / 0x10000 % 256) + 256 * (n / 256 % 256) + n % 256 == n % U24
  {
    LowDigit(n / 256, 256);
    LowDigit(n, 0x10000);
  }

  lemma LowDigit(n: nat, r: nat)
    requires r == 256 || r == 0x10000
    ensures n % 256 + 256 * (n / 256 % r) == n % (256 * r)
    ensures n / 256 / r == n / (256 * r)
  {
    var (q, d) := (n / 256 / r, n / 256 % r);
    assert n == 256 * r * q + (256 * d + n % 256);
    if r == 256 {
      DivisionIs(n, 0x10000, q, 256 * d + n % 256);
    } else {
      DivisionIs(n, 0x100_0000, q, 256 * d + n % 256);
    }
  }

  lemma DivisionIs(n: nat, m: nat, q: nat, d: nat)
    requires m in {0x10000, 0x100_0000} && n == m * q + d && d < m
    ensures n / m == q && n % m == d
  {
  }

  /** No accepted encoding of a length is shorter than the one written. */
  lemma LengthMinimal(data: Bytes)
    requires DecodeLength(data).Ok?
    ensures |EncodeLength(DecodeLength(data).value.0)| <= DecodeLength(data).value.1
  {
    if data[0] >= 0x80 {
      var b := data[1..1 + data[0] - 0x80];
      BeInRange(b);
      RangeValues();
      assert Range(1) == 256 * Range(0) == 256;
    }
  }

  /** An item is read back, whatever follows, exactly when its contents are shorter than 2^24 bytes. */
  lemma TlvRoundTrip(tag: Byte, contents: Bytes, rest: Bytes)
    ensures ReadTlv(EncodeTlv(tag, contents) + rest) == Ok(Tlv(tag, contents, |EncodeTlv(tag, contents)|))
            <==> |contents| < U24
  {
    var e := EncodeLength(|contents|);
    var data := EncodeTlv(tag, contents) + rest;
    LengthRoundTrip(|contents|, contents + rest);
    hide EncodeLength, DecodeLength;
    assert data[1..] == e + (contents + rest);
    if |contents| < U24 {
      assert data[1 + |e|..1 + |e| + |contents|] == contents;
    }
  }

  /** A cut-off item is never read: the error says whether the tag, the length or the contents are missing. */
  lemma TruncatedItem(tag: Byte, contents: Bytes, k: nat)
    requires |contents| < U24 && k < |EncodeTlv(tag, contents)|
    ensures ReadTlv(EncodeTlv(tag, contents)[..k])
         == if k == 0 then Err(EndOfData) else if k == 1 then Err(EmptyLength)
            else if k < 1 + |EncodeLength(|contents|)| then Err(InvalidLength) else Err(LengthExceeds(|contents|))
  {
    var e := EncodeLength(|contents|);
    var whole := EncodeTlv(tag, contents);
    if k >= 1 + |e| {
      LengthRoundTrip(|contents|, contents[..k - 1 - |e|]);
      hide EncodeLength, DecodeLength;
      assert whole[..k][1..] == e + contents[..k - 1 - |e|];
    } else if k > 0 {
      assert whole[..k][1..] == e[..k - 1];
    }
  }

  /** An item with another tag is refused by both readers. */
  lemma WrongTagRefused(tag: Byte, contents: Bytes, rest: Bytes)
    requires |contents| < U24
    ensures tag != 0x02 ==> DecodeInteger(EncodeTlv(tag, contents) + rest) == Err(WrongTag(0x02, tag))
    ensures tag != 0x04 ==> DecodeOctetString(EncodeTlv(tag, contents) + rest) == Err(WrongTag(0x04, tag))
  {
    hide ReadTlv, EncodeTlv;
    TlvRoundTrip(tag, contents, rest);
  }

  datatype Item = Item(tag: Byte, contents: Bytes)

  function EncodeItems(items: seq<Item>): Bytes {
    if items == [] then [] else EncodeTlv(items[0].tag, items[0].contents) + EncodeItems(items[1..])
  }

  /** The contents of the first item with a tag. */
  function FirstMatch(items: seq<Item>, tag: Byte): Option<Bytes> {
    if items == [] then None
    else if items[0].tag == tag then Some(items[0].contents)
    else FirstMatch(items[1..], tag)
  }

  /** Searching written items is looking up the first match; the search goes on behind them. */
  lemma {:induction false} FindFirstMatch(items: seq<Item>, rest: Bytes, tag: Byte)
    requires forall item | item in items :: |item.contents| < U24
    ensures FindItem(EncodeItems(items) + rest, tag)
         == if FirstMatch(items, tag).Some? then FirstMatch(items, tag) else FindItem(rest, tag)
  {
    hide ReadTlv, EncodeTlv;
    if items == [] {
      assert EncodeItems(items) + rest == rest;
    } else {
      var first, behind := items[0], EncodeItems(items[1..]) + rest;
      var e := EncodeTlv(first.tag, first.contents);
      assert first in items;
      TlvRoundTrip(first.tag, first.contents, behind);
      FindFirstMatch(items[1..], rest, tag);
      assert EncodeItems(items) + rest == e + behind;
      assert (e + behind)[|e|..] == behind;
    }
  }

  // Integers.

  lemma {:induction false} LeadingZero(b: Bytes)
    ensures BeValue([0] + b) == BeValue(b)
  {
    if b == [] {
      assert [0][..0] == [];
    } else {
      assert ([0] + b)[..|b|] == [0] + b[..|b| - 1];
      LeadingZero(b[..|b| - 1]);
    }
  }

  lemma {:induction false} TrimKeepsValue(b: Bytes)
    ensures BeValue(Trim(b)) == BeValue(b)
  {
    if b != [] && b[0] == 0 {
      TrimKeepsValue(b[1..]);
      LeadingZero(b[1..]);
      assert b == [0] + b[1..];
    }
  }

  /** A number below 256^k whose leading byte is at least 128 is at least half of 256^k. */
  lemma {:induction false} LeadingByte(b: Bytes)
    requires b != []
    ensures b[0] * Range(|b| - 1) <= BeValue(b) < (b[0] + 1) * Range(|b| - 1)
  {
    if |b| == 1 {
      assert b[..0] == [];
    } else {
      LeadingByte(b[..|b| - 1]);
      LeadingByteStep(b[0], Range(|b| - 2), BeValue(b[..|b| - 1]), b[|b| - 1]);
    }
  }

  lemma LeadingByteStep(a: nat, r: nat, v: nat, low: Byte)
    requires a * r <= v < (a + 1) * r
    ensures a * (256 * r) <= 256 * v + low < (a + 1) * (256 * r)
  {
    assert a * (256 * r) == 256 * (a * r) && (a + 1) * (256 * r) == 256 * ((a + 1) * r);
  }

  /** The contents carry the value, take five bytes exactly from 2^31 on, and are minimal and positive. */
  lemma IntegerContents(value: Word)
    ensures var c := IntegerBytes(value);
            && BeValue(c) == value
            && 1 <= |c| <= 5 && (|c| == 5 <==> value >= 0x8000_0000)
            && c[0] < 0x80 && (|c| > 1 ==> c[0] != 0 || c[1] >= 0x80)
  {
    var b := BeBytes(value, 4);
    RangeValues();
    BeRoundTrip(value, 4);
    TrimKeepsValue(b);
    var t := Trim(b);
    if value == 0 {
      BeValues(0, 0, 0);
    } else {
      hide Trim, BeBytes;
      assert BeValue([]) == 0;
      LeadingByte(t);
      LeadingZero(t);
      FourthByte(t);
    }
  }

  lemma FourthByte(t: Bytes)
    requires t != [] && |t| <= 4
    ensures |t| == 4 && t[0] >= 0x80 <==> BeValue(t) >= 0x8000_0000
  {
    hide BeValue;
    LeadingByte(t);
    RangeValues();
    assert Range(0) == 1 && Range(1) == 256;
  }

  /** An integer is read back exactly when it is below 2^31; above, the decoder refuses its five bytes. */
  lemma IntegerRoundTrip(value: Word, rest: Bytes)
    ensures DecodeInteger(EncodeInteger(value) + rest)
         == if value < 0x8000_0000 then Ok(value) else Err(IntegerLength(5))
  {
    hide ReadTlv, EncodeTlv, IntegerBytes;
    IntegerContents(value);
    TlvRoundTrip(TAG_INTEGER, IntegerBytes(value), rest);
  }

  lemma OctetStringRoundTrip(data: Bytes, rest: Bytes)
    ensures DecodeOctetString(EncodeOctetString(data) + rest) == Ok(data) <==> |data| < U24
  {
    TlvRoundTrip(TAG_OCTET_STRING, data, rest);
    var b := EncodeOctetString(data) + rest;
    LengthRoundTrip(|data|, data + rest);
    assert b[1..] == EncodeLength(|data|) + (data + rest);
    hide EncodeLength, DecodeLength;
  }
}
