/** PSRP fragments (MS-PSRP section 2.2.4) and messages (section 2.2.1): what is written on the wire. */
module Fragments {
  import opened Bytes
  import opened Primitives

  const FRAGMENT_HEADER_LEN := 21
  const MAX_FRAGMENT_PAYLOAD := 32768
  const HEADER_LEN := 40
  const BYTE_ORDER_MARK: Bytes := [0xEF, 0xBB, 0xBF]

  /** A byte string as long as memory allows. */
  type Payload = b: Bytes | |b| < U64 witness []

  type Uuid = b: Bytes | |b| == 16 witness Zeros(16)

  datatype Fragment = Fragment(objectId: nat, fragmentId: nat, start: bool, end: bool, blob: Bytes)

  predicate Encodable(f: Fragment) {
    f.objectId < U64 && f.fragmentId < U64 && |f.blob| < U32
  }

  /** `encode_one_fragment`. */
  function Encode(f: Fragment): (b: Bytes)
    ensures |b| == FRAGMENT_HEADER_LEN + |f.blob|
  {
    BeBytes(f.objectId, 8) + BeBytes(f.fragmentId, 8)
    + [(if f.start then 1 else 0) + (if f.end then 2 else 0)]
    + BeBytes(|f.blob|, 4) + f.blob
  }

  function EncodeAll(fs: seq<Fragment>): (b: Bytes) {
    if fs == [] then [] else Encode(fs[0]) + EncodeAll(fs[1..])
  }

  /** The number of fragments of a payload: one even when it is empty. */
  function Count(payload: Bytes): (n: nat)
    ensures n > 0
    ensures (n - 1) * MAX_FRAGMENT_PAYLOAD <= |payload| <= n * MAX_FRAGMENT_PAYLOAD
  {
    if payload == [] then 1 else (|payload| - 1) / MAX_FRAGMENT_PAYLOAD + 1
  }

  /** The first `k` pieces of a payload. */
  function Taken(payload: Bytes, k: nat): Bytes {
    if k * MAX_FRAGMENT_PAYLOAD < |payload| then payload[..k * MAX_FRAGMENT_PAYLOAD] else payload
  }

  function Piece(payload: Bytes, k: nat): (b: Bytes)
    requires k < Count(payload)
    ensures |b| <= MAX_FRAGMENT_PAYLOAD
    ensures Taken(payload, k + 1) == Taken(payload, k) + b
  {
    var from, to := k * MAX_FRAGMENT_PAYLOAD, (k + 1) * MAX_FRAGMENT_PAYLOAD;
    if to < |payload| then payload[from..to] else payload[from..]
  }

  function FragmentAt(objectId: nat, payload: Bytes, k: nat): Fragment
    requires k < Count(payload)
  {
    Fragment(objectId, k, k == 0, k == Count(payload) - 1, Piece(payload, k))
  }

  /** Every piece but the last is as long as it may be, and the last one is not empty unless the payload is. */
  lemma PieceLengths(payload: Bytes, k: nat)
    requires k < Count(payload)
    ensures k < Count(payload) - 1 ==> |Piece(payload, k)| == 32768
    ensures k == Count(payload) - 1 ==> 0 < |Piece(payload, k)| <= 32768 || payload == []
  {
  }

  /** The fragments of one object. */
  function Split(objectId: nat, payload: Bytes): (fs: seq<Fragment>)
    ensures |fs| == Count(payload)
  {
    seq(Count(payload), k requires 0 <= k < Count(payload) => FragmentAt(objectId, payload, k))
  }

  lemma {:induction false} EncodeAllSum(a: seq<Fragment>, b: seq<Fragment>)
    ensures EncodeAll(a + b) == EncodeAll(a) + EncodeAll(b)
  {
    hide Encode;
    if a == [] {
      assert a + b == b;
    } else {
      assert (a + b)[1..] == a[1..] + b;
      EncodeAllSum(a[1..], b);
    }
  }

  lemma EncodeSnoc(fs: seq<Fragment>, k: nat)
    requires k < |fs|
    ensures EncodeAll(fs[..k + 1]) == EncodeAll(fs[..k]) + Encode(fs[k])
  {
    hide Encode;
    assert fs[..k + 1] == fs[..k] + [fs[k]];
    EncodeAllSum(fs[..k], [fs[k]]);
  }

  /** `encode_fragments`. */
  method EncodeFragments(objectId: nat, payload: Bytes) returns (out: Bytes)
    ensures out == EncodeAll(Split(objectId, payload))
  {
    hide Encode;
    var fs := Split(objectId, payload);
    if payload == [] {
      out := Encode(Fragment(objectId, 0, true, true, []));
      assert fs == [FragmentAt(objectId, payload, 0)];
      EncodeSnoc(fs, 0);
      assert fs[..1] == fs;
      return;
    }
    out := [];
    var last := Count(payload) - 1;
    for i := 0 to last + 1
      invariant out == EncodeAll(fs[..i])
    {
      EncodeSnoc(fs, i);
      out := out + Encode(Fragment(objectId, i, i == 0, i == last, Piece(payload, i)));
    }
    assert fs[..last + 1] == fs;
  }

  /** The first fragment of a buffer and what follows it, once the buffer holds all of it. */
  function Read(buffer: Bytes): (r: Option<(Fragment, Bytes)>)
    ensures r.Some? ==> |r.value.1| + FRAGMENT_HEADER_LEN <= |buffer|
  {
    if |buffer| < FRAGMENT_HEADER_LEN then None else
      var end := FRAGMENT_HEADER_LEN + BeValue(buffer[17..21]);
      if |buffer| < end then None else
        Some((Fragment(BeValue(buffer[..8]), BeValue(buffer[8..16]), buffer[16] % 2 == 1, buffer[16] / 2 % 2 == 1,
                       buffer[FRAGMENT_HEADER_LEN..end]),
              buffer[end..]))
  }

  /** The flags of a fragment are two bits of their byte, whatever the others are. */
  lemma ReadFlags(buffer: Bytes)
    requires Read(buffer).Some?
    ensures var f := Read(buffer).value.0;
            (f.start <==> HasBit(buffer[16], 0)) && (f.end <==> HasBit(buffer[16], 1))
  {
    assert HasBit(buffer[16], 1) == HasBit(buffer[16] / 2, 0);
  }

  lemma Be64(n: nat)
    ensures BeValue(BeBytes(n, 8)) == n <==> n < U64
  {
    RangeValues();
    BeRoundTrip(n, 8);
  }

  lemma Be32(n: nat)
    ensures BeValue(BeBytes(n, 4)) == n <==> n < U32
  {
    RangeValues();
    BeRoundTrip(n, 4);
  }

  /** A written fragment is read back, whatever follows it. */
  lemma ReadEncoded(f: Fragment, rest: Bytes)
    requires Encodable(f)
    ensures Read(Encode(f) + rest) == Some((f, rest))
  {
    hide BeBytes, BeValue;
    var b, buffer := Encode(f), Encode(f) + rest;
    var flags := (if f.start then 1 else 0) + (if f.end then 2 else 0);
    assert b[0..8] == BeBytes(f.objectId, 8);
    assert b[8..16] == BeBytes(f.fragmentId, 8);
    assert b[16] == flags;
    assert b[17..21] == BeBytes(|f.blob|, 4);
    assert b[21..] == f.blob;
    Be64(f.objectId);
    Be64(f.fragmentId);
    Be32(|f.blob|);
    SliceLeft(b, rest, 0, 8);
    SliceLeft(b, rest, 8, 16);
    SliceLeft(b, rest, 17, 21);
    SliceLeft(b, rest, 21, |b|);
    assert buffer[|b|..] == rest;
  }

  /** Bytes that arrive later do not change a fragment that is already complete. */
  lemma ReadStable(buffer: Bytes, more: Bytes)
    requires Read(buffer).Some?
    ensures Read(buffer + more) == Some((Read(buffer).value.0, Read(buffer).value.1 + more))
  {
    hide BeValue;
    var end := FRAGMENT_HEADER_LEN + BeValue(buffer[17..21]);
    SliceLeft(buffer, more, 0, 8);
    SliceLeft(buffer, more, 8, 16);
    SliceLeft(buffer, more, 17, 21);
    SliceLeft(buffer, more, FRAGMENT_HEADER_LEN, end);
    assert (buffer + more)[end..] == buffer[end..] + more;
  }

  datatype Message = Message(messageType: nat, data: Bytes)
  datatype PsrpError = IdMismatch(got: nat, expected: nat) | MessageTooShort(length: nat) | NotUtf8

  /** `encode_psrp_message`; `body` is the UTF-8 of the text. */
  function EncodeMessage(destination: nat, messageType: nat, rpid: Uuid, pid: Uuid, body: Bytes): (b: Bytes)
    ensures |b| == HEADER_LEN + |body|
  {
    LeBytes(destination, 4) + LeBytes(messageType, 4) + rpid + pid + body
  }

  /** `decode_message`. */
  function DecodeMessage(p: Primitives, bytes: Bytes): Result<Message, PsrpError> {
    if |bytes| < HEADER_LEN then Err(MessageTooShort(|bytes|)) else
      var body := bytes[HEADER_LEN..];
      var text := if BYTE_ORDER_MARK <= body then body[3..] else body;
      if p.isUtf8(text) then Ok(Message(LeValue(bytes[4..8]), text)) else Err(NotUtf8)
  }

  /** The header of a message (MS-PSRP section 2.2.1): destination, type, and the ids of runspace and pipeline. */
  lemma MessageHeader(destination: nat, messageType: nat, rpid: Uuid, pid: Uuid, body: Bytes)
    requires destination < U32 && messageType < U32
    ensures var b := EncodeMessage(destination, messageType, rpid, pid, body);
            && LeValue(b[0..4]) == destination && LeValue(b[4..8]) == messageType
            && b[8..24] == rpid && b[24..40] == pid && b[40..] == body
  {
    hide LeBytes, LeValue;
    var b := EncodeMessage(destination, messageType, rpid, pid, body);
    assert b[0..4] == LeBytes(destination, 4) && b[4..8] == LeBytes(messageType, 4);
    Le32(destination);
    Le32(messageType);
  }

  /** The header of a fragment (MS-PSRP section 2.2.4), byte by byte, for small numbers. */
  lemma FragmentHeader(objectId: Byte, fragmentId: Byte, start: bool, end: bool, blob: Bytes)
    requires |blob| < 256
    ensures Encode(Fragment(objectId, fragmentId, start, end, blob))
         == [0, 0, 0, 0, 0, 0, 0, objectId] + [0, 0, 0, 0, 0, 0, 0, fragmentId]
            + [if start && end then 3 else if end then 2 else if start then 1 else 0]
            + [0, 0, 0, |blob|] + blob
  {
    SmallBe(objectId);
    SmallBe(fragmentId);
    SmallBe(|blob|);
    hide BeBytes;
  }

  lemma SmallBe(n: Byte)
    ensures BeBytes(n, 8) == [0, 0, 0, 0, 0, 0, 0, n] && BeBytes(n, 4) == [0, 0, 0, n]
  {
    BeLast(n, 7);
    BeLast(n, 3);
    ZeroBe(7);
    ZeroBe(3);
    hide BeBytes;
    assert Zeros(3) == [0, 0, 0] && Zeros(7) == [0, 0, 0, 0, 0, 0, 0];
  }

  lemma BeLast(n: Byte, width: nat)
    ensures BeBytes(n, width + 1) == BeBytes(0, width) + [n]
  {
  }

  lemma {:induction false} ZeroBe(width: nat)
    ensures BeBytes(0, width) == Zeros(width)
  {
    if width > 0 {
      ZeroBe(width - 1);
    }
  }

  /** Which messages are refused: those without a whole header, and those whose text is not UTF-8 once cut. */
  lemma MessageReasons(p: Primitives, bytes: Bytes)
    ensures var r := DecodeMessage(p, bytes);
            && (r == Err(MessageTooShort(|bytes|)) <==> |bytes| < 40)
            && (r == Err(NotUtf8) <==>
                  |bytes| >= 40 && !p.isUtf8(if [0xEF, 0xBB, 0xBF] <= bytes[40..] then bytes[43..] else bytes[40..]))
  {
    if |bytes| >= 43 {
      assert bytes[40..][3..] == bytes[43..];
    }
  }

  /** A message is decoded to what was encoded exactly when its text does not begin with a byte order mark. */
  lemma MessageRoundTrip(p: Primitives, destination: nat, messageType: nat, rpid: Uuid, pid: Uuid, body: Bytes)
    requires messageType < U32 && p.isUtf8(body)
    ensures DecodeMessage(p, EncodeMessage(destination, messageType, rpid, pid, body)) == Ok(Message(messageType, body))
       <==> !([0xEF, 0xBB, 0xBF] <= body)
  {
    hide LeBytes, LeValue;
    var bytes := EncodeMessage(destination, messageType, rpid, pid, body);
    assert bytes[4..8] == LeBytes(messageType, 4);
    assert bytes[HEADER_LEN..] == body;
    Le32(messageType);
  }
}
