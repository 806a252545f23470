/** Sealed SOAP bodies: the multipart/encrypted framing of MS-WSMV section 2.2.9.1 and its reader. */
module Multipart {
  import opened Bytes
  import opened Primitives
  import opened Rc4
  import opened Search
  import opened Session

  datatype BodyError =
    | MissingMarker
    | Truncated
    | ShortForSignature
    | Unsealing(error: UnsealError)
    | NotUtf8

  const CRLF := Ascii("\r\n")
  const BOUNDARY := Ascii("--") + Ascii("Encrypted Boundary")
  const END_MARKER := BOUNDARY + Ascii("--")
  const OCTET_STREAM := Ascii("application") + Ascii("/") + Ascii("octet-stream\r\n")

  /** `n` in decimal digits. */
  function Decimal(n: nat): (d: Bytes)
    ensures forall c | c in d :: 48 <= c <= 57
  {
    if n < 10 then [48 + n] else Decimal(n / 10) + [48 + n % 10]
  }

  /** The number that decimal digits stand for, the most significant first. */
  function DigitsValue(d: Bytes): int {
    if d == [] then 0 else 10 * DigitsValue(d[..|d| - 1]) + (d[|d| - 1] as int - 48)
  }

  /** A number is written with its own digits, without a leading zero. */
  lemma {:induction false} DecimalReadsBack(n: nat)
    ensures Decimal(n) != [] && DigitsValue(Decimal(n)) == n && (n > 0 ==> Decimal(n)[0] != 48)
  {
    if n < 10 {
      assert [48 + n][..0] == [];
    } else {
      var q, r := n / 10, n % 10;
      assert n == 10 * q + r && 0 < q < n;
      DecimalReadsBack(q);
      assert Decimal(n) == Decimal(q) + [48 + r];
      hide Decimal;
      DigitsSnoc(Decimal(q), 48 + r);
    }
  }

  lemma DigitsSnoc(d: Bytes, c: Byte)
    ensures DigitsValue(d + [c]) == 10 * DigitsValue(d) + (c as int - 48)
  {
    assert (d + [c])[..|d|] == d;
  }

  // The text is cut at each slash, where the octet-stream marker could seem to begin.
  const PROTOCOL_PART := "HTTP-SPNEGO-session-encrypted\r\n"
  const CONTENT_PART := "\tOriginalContent: type=application"
  const CHARSET_PART := "soap+xml;charset=UTF-8;"
  const LENGTH_KEY := Ascii("Length=")

  /** The parts before the length. */
  function OpeningParts(): seq<Bytes> {
    [BOUNDARY,
     Ascii("\r\n\tContent-Type: application"), Ascii("/") + Ascii(PROTOCOL_PART),
     Ascii(CONTENT_PART), Ascii("/") + Ascii(CHARSET_PART)]
  }

  lemma AsciiSum(a: string, b: string)
    ensures Ascii(a + b) == Ascii(a) + Ascii(b)
  {
  }

  lemma {:induction false} JoinAscii(parts: seq<string>)
    ensures Join(seq(|parts|, k requires 0 <= k < |parts| => Ascii(parts[k]))) == Ascii(Join(parts))
  {
    hide Ascii;
    var bytes := seq(|parts|, k requires 0 <= k < |parts| => Ascii(parts[k]));
    if parts == [] {
      EmptyAscii();
    } else {
      var rest := parts[1..];
      assert bytes[1..] == seq(|rest|, k requires 0 <= k < |rest| => Ascii(rest[k]));
      JoinAscii(rest);
      AsciiSum(parts[0], Join(rest));
    }
  }

  lemma EmptyAscii()
    ensures Ascii("") == []
  {
  }

  /** The text before the length. */
  lemma OpeningText()
    ensures Join(OpeningParts())
         == Ascii(Join(["--" + "Encrypted Boundary", "\r\n\tContent-Type: application",
                        "/" + "HTTP-SPNEGO-session-encrypted\r\n", "\tOriginalContent: type=application",
                        "/" + "soap+xml;charset=UTF-8;"]))
  {
    var parts := ["--" + "Encrypted Boundary", "\r\n\tContent-Type: application",
                  "/" + "HTTP-SPNEGO-session-encrypted\r\n", "\tOriginalContent: type=application",
                  "/" + "soap+xml;charset=UTF-8;"];
    AsciiSum("--", "Encrypted Boundary");
    AsciiSum("/", PROTOCOL_PART);
    AsciiSum("/", CHARSET_PART);
    hide Ascii, Join;
    assert OpeningParts() == seq(5, k requires 0 <= k < 5 => Ascii(parts[k]));
    JoinAscii(parts);
  }

  function PreambleParts(length: nat): seq<Bytes> {
    OpeningParts() + [LENGTH_KEY, Decimal(length), CRLF, BOUNDARY, Ascii("\r\n\tContent-Type: ")]
  }

  /** Everything up to the name of the second content type. */
  function Preamble(length: nat): Bytes {
    Join(PreambleParts(length))
  }

  /** The multipart body around `sealed`, for a plaintext of `length` bytes. */
  function Frame(sealed: Bytes, length: nat): Bytes {
    Preamble(length) + OCTET_STREAM + LeBytes(SIGNATURE_LEN, 4) + sealed + END_MARKER + CRLF
  }

  /** The sealed bytes a reader cuts out of a multipart body. */
  function Extract(data: Bytes): Result<Bytes, BodyError> {
    match Find(data, OCTET_STREAM)
    case None => Err(MissingMarker)
    case Some(pos) =>
      var start := pos + |OCTET_STREAM|;
      if start + 4 > |data| then Err(Truncated) else
        var rest := data[start + 4..];
        var end := match Find(rest, END_MARKER) case None => |rest| case Some(p) => p;
        if end < LeValue(data[start..start + 4]) then Err(ShortForSignature) else Ok(rest[..end])
  }

  /** Why no sealed bytes are cut out, and how long they are at least when they are. */
  lemma ExtractReasons(data: Bytes)
    ensures Extract(data) == Err(MissingMarker) <==> !Occurs(data, OCTET_STREAM)
    ensures Find(data, OCTET_STREAM).Some? ==>
              var at := Find(data, OCTET_STREAM).value + |OCTET_STREAM|;
              && (Extract(data) == Err(Truncated) <==> |data| < at + 4)
              && (Extract(data).Ok? ==> LeValue(data[at..at + 4]) <= |Extract(data).value|
                                        && Extract(data).value <= data[at + 4..])
  {
    hide LeValue;
    if Occurs(data, OCTET_STREAM) {
      var q: nat :| q <= |data| && At(data, OCTET_STREAM, q);
    }
  }

  /** `unseal_body` on a receiving direction. */
  function UnsealFrame(p: Primitives, h: Half, data: Bytes): (Result<Bytes, BodyError>, Half) {
    match Extract(data)
    case Err(e) => (Err(e), h)
    case Ok(sealed) =>
      var (r, h') := UnsealMessage(p, h, sealed);
      (match r
       case Err(e) => Err(Unsealing(e))
       case Ok(plaintext) => if p.isUtf8(plaintext) then Ok(plaintext) else Err(NotUtf8),
       h')
  }

  /** The sealed bytes neither hold the closing marker nor run into it. */
  predicate MarkerFree(sealed: Bytes) {
    && !Occurs(sealed, END_MARKER)
    && !EndsWith(sealed, END_MARKER[..20])
    && !EndsWith(sealed, END_MARKER[..21])
  }

  /** No slash is followed by a lower-case o, nor is the last byte a slash. */
  ghost predicate NoSlashO(b: Bytes) {
    forall i :: 0 <= i < |b| && b[i] == 47 ==> i + 1 < |b| && b[i + 1] != 111
  }

  lemma NoSlashOSum(a: Bytes, b: Bytes)
    requires NoSlashO(a) && NoSlashO(b)
    ensures NoSlashO(a + b)
  {
  }

  lemma {:induction false} NoSlashOJoin(parts: seq<Bytes>)
    requires forall part | part in parts :: NoSlashO(part)
    ensures NoSlashO(Join(parts))
  {
    if parts != [] {
      NoSlashOJoin(parts[1..]);
      NoSlashOSum(parts[0], Join(parts[1..]));
    }
  }

  lemma NoSlashOLiteral(s: string)
    requires '/' !in s
    ensures NoSlashO(Ascii(s))
    ensures s != [] && s[0] != 'o' ==> NoSlashO(Ascii("/") + Ascii(s))
  {
    AsciiLacks(s, '/');
  }

  lemma DecimalNoSlash(length: nat)
    ensures NoSlashO(Decimal(length))
  {
  }

  lemma BoundaryNoSlash()
    ensures NoSlashO(BOUNDARY)
  {
    NoSlashOLiteral("--");
    NoSlashOLiteral("Encrypted Boundary");
    NoSlashOSum(Ascii("--"), Ascii("Encrypted Boundary"));
  }

  lemma LiteralsLackSlash()
    ensures '/' !in PROTOCOL_PART && '/' !in CONTENT_PART && '/' !in CHARSET_PART
  {
  }

  lemma PreambleNoSlashO(length: nat)
    ensures NoSlashO(Preamble(length))
  {
    BoundaryNoSlash();
    NoSlashOLiteral("\r\n\tContent-Type: application");
    NoSlashOLiteral("\r\n");
    NoSlashOLiteral("\r\n\tContent-Type: ");
    LiteralsLackSlash();
    NoSlashOLiteral(PROTOCOL_PART);
    NoSlashOLiteral(CONTENT_PART);
    NoSlashOLiteral(CHARSET_PART);
    NoSlashOLiteral("Length=");
    DecimalNoSlash(length);
    hide NoSlashO;
    NoSlashOJoin(PreambleParts(length));
  }

  /** Whatever follows, the octet-stream marker is first met where the preamble ends. */
  lemma MarkerAfterPreamble(pre: Bytes, rest: Bytes)
    requires NoSlashO(pre)
    ensures Find(pre + OCTET_STREAM + rest, OCTET_STREAM) == Some(|pre|)
  {
    var data := pre + OCTET_STREAM + rest;
    assert OCTET_STREAM[11] == 47 && OCTET_STREAM[12] == 111;
    AsciiLacks("application", '/');
    assert At(data, OCTET_STREAM, |pre|);
    forall q: nat | q < |pre|
      ensures !At(data, OCTET_STREAM, q)
    {
    }
    FindIs(data, OCTET_STREAM, |pre|);
  }

  lemma EndMarkerDashes(k: nat)
    requires 2 <= k < 20
    ensures END_MARKER[k] != 45
  {
    AsciiLacks("Encrypted Boundary", '-');
    assert END_MARKER[k] == Ascii("Encrypted Boundary")[k - 2];
  }

  /** The closing marker is first met right after the sealed bytes exactly when they are free of it. */
  lemma ClosingMarkerFound(sealed: Bytes)
    ensures Find(sealed + END_MARKER + CRLF, END_MARKER) == Some(|sealed|) <==> MarkerFree(sealed)
  {
    var data := sealed + END_MARKER + CRLF;
    assert At(data, END_MARKER, |sealed|);
    forall q: nat | q < |sealed|
      ensures At(data, END_MARKER, q) <==>
        || At(sealed, END_MARKER, q)
        || (q + 20 == |sealed| && EndsWith(sealed, END_MARKER[..20]))
        || (q + 21 == |sealed| && EndsWith(sealed, END_MARKER[..21]))
    {
      MarkerAt(sealed, q);
    }
    if MarkerFree(sealed) {
      FindIs(data, END_MARKER, |sealed|);
    } else if Occurs(sealed, END_MARKER) {
      var q: nat :| q <= |sealed| && At(sealed, END_MARKER, q);
      assert At(data, END_MARKER, q);
    } else if EndsWith(sealed, END_MARKER[..20]) {
      assert At(data, END_MARKER, |sealed| - 20);
    } else {
      assert At(data, END_MARKER, |sealed| - 21);
    }
  }

  lemma MarkerAt(sealed: Bytes, q: nat)
    requires q < |sealed|
    ensures At(sealed + END_MARKER + CRLF, END_MARKER, q) <==>
      || At(sealed, END_MARKER, q)
      || (q + 20 == |sealed| && EndsWith(sealed, END_MARKER[..20]))
      || (q + 21 == |sealed| && EndsWith(sealed, END_MARKER[..21]))
  {
    var data := sealed + END_MARKER + CRLF;
    var k := |sealed| - q;
    if k >= 22 {
      assert data[q..q + 22] == sealed[q..q + 22];
    } else {
      assert data[q..q + 22] == sealed[q..] + END_MARKER[..22 - k];
      assert END_MARKER == END_MARKER[..k] + END_MARKER[k..];
      assert At(data, END_MARKER, q) <==> sealed[q..] == END_MARKER[..k] && END_MARKER[..22 - k] == END_MARKER[k..];
      if k < 20 {
        assert END_MARKER[0] == END_MARKER[1] == 45;
        EndMarkerDashes(if k == 1 then 2 else k);
        assert END_MARKER[..22 - k][0] == 45 && END_MARKER[..22 - k][1] == 45;
        assert END_MARKER[k..][0] == END_MARKER[k] && END_MARKER[k..][1] == END_MARKER[k + 1];
      } else {
        assert END_MARKER[20] == END_MARKER[21] == 45;
        assert END_MARKER[..22 - k] == END_MARKER[k..];
      }
    }
  }

  lemma FourParts(a: Bytes, b: Bytes, c: Bytes, d: Bytes)
    ensures var all := a + b + c + d;
            all[|a| + |b|..|a| + |b| + |c|] == c && all[|a| + |b| + |c|..] == d && all == a + b + (c + d)
  {
  }

  /** Where the reader looks in a framed body. */
  lemma FrameLayout(sealed: Bytes, length: nat)
    ensures var data := Frame(sealed, length);
            var start := |Preamble(length)| + |OCTET_STREAM|;
            && Find(data, OCTET_STREAM) == Some(|Preamble(length)|)
            && start + 4 <= |data|
            && LeValue(data[start..start + 4]) == SIGNATURE_LEN
            && data[start + 4..] == sealed + END_MARKER + CRLF
  {
    var pre, size, rest := Preamble(length), LeBytes(SIGNATURE_LEN, 4), sealed + END_MARKER + CRLF;
    PreambleNoSlashO(length);
    hide Preamble, NoSlashO, LeBytes, LeValue, Find;
    assert Frame(sealed, length) == pre + OCTET_STREAM + size + rest;
    FourParts(pre, OCTET_STREAM, size, rest);
    MarkerAfterPreamble(pre, size + rest);
    Le32(SIGNATURE_LEN);
  }

  /** The reader finds the framed bytes again, cut short at the first closing marker it meets. */
  lemma ExtractFrame(sealed: Bytes, length: nat)
    requires |sealed| >= SIGNATURE_LEN
    ensures MarkerFree(sealed) ==> Extract(Frame(sealed, length)) == Ok(sealed)
    ensures !MarkerFree(sealed) ==>
      var r := Extract(Frame(sealed, length));
      r == Err(ShortForSignature) || (r.Ok? && SIGNATURE_LEN <= |r.value| < |sealed| && r.value <= sealed)
  {
    FrameLayout(sealed, length);
    ClosingMarkerFound(sealed);
    hide MarkerFree, Preamble, LeValue, Frame;
    var rest := sealed + END_MARKER + CRLF;
    assert At(rest, END_MARKER, |sealed|);
    assert Find(rest, END_MARKER).Some? && Find(rest, END_MARKER).value <= |sealed|;
    assert rest[..|sealed|] == sealed;
    assert forall end | 0 <= end <= |sealed| :: rest[..end] == sealed[..end];
  }

  /**
   The multipart round trip: a receiver in step with the sender gets the body back exactly when the
   sealed bytes are free of the closing marker.
   */
  lemma BodyRoundTrip(p: Primitives, h: Half, body: Bytes)
    requires p.isUtf8(body)
    ensures var sealed := SealMessage(p, h, body);
            var (r, h') := UnsealFrame(p, h, Frame(sealed, |body|));
            && (r == Ok(body) <==> MarkerFree(sealed))
            && (r == Ok(body) ==> h' == AfterMessage(h, |body|))
  {
    hide UnsealMessage, Frame, Extract, MarkerFree, AfterMessage;
    var sealed := SealMessage(p, h, body);
    ExtractFrame(sealed, |body|);
    SealThenUnseal(p, h, body);
    hide SealMessage;
    var cut := Extract(Frame(sealed, |body|));
    if cut.Ok? {
      UnsealedLength(p, h, cut.value);
    }
  }

  lemma UnsealedLength(p: Primitives, h: Half, sealed: Bytes)
    ensures var r := UnsealMessage(p, h, sealed).0; r.Ok? ==> |r.value| + SIGNATURE_LEN == |sealed|
  {
    hide Crypt, Advance, Checksum, LeValue;
  }

  /**
   The framed message of a sender at another sequence number is refused, wherever its closing marker is
   found, and refusing leaves the receiver as it was.
   */
  lemma OutOfStepFrameRefused(p: Primitives, rx: Half, tx: Half, body: Bytes)
    requires tx.seqNum != rx.seqNum
    ensures var (r, h) := UnsealFrame(p, rx, Frame(SealMessage(p, tx, body), |body|));
            h == rx && (r == Err(Unsealing(BadSequence)) || r == Err(ShortForSignature))
  {
    hide Frame, Extract, MarkerFree, Crypt, LeValue, Checksum;
    var sealed := SealMessage(p, tx, body);
    ExtractFrame(sealed, |body|);
    SealedFields(p, tx, body);
    hide SealMessage;
    var cut := Extract(Frame(sealed, |body|));
    if cut.Ok? {
      assert cut.value[..4] == sealed[..4] && cut.value[12..16] == sealed[12..16];
    }
  }

  /**
   A family of bodies on every session: any text whose ciphertext holds the closing marker somewhere in
   the middle does not come back.
   */
  lemma MarkerInCiphertext(p: Primitives, h: Half, before: Bytes, after: Bytes)
    ensures var body := before + Crypt(Advance(h.cipher, |before|), END_MARKER) + after;
            var sealed := SealMessage(p, h, body);
            !MarkerFree(sealed) && (p.isUtf8(body) ==> UnsealFrame(p, h, Frame(sealed, |body|)).0 != Ok(body))
  {
    var middle := Crypt(Advance(h.cipher, |before|), END_MARKER);
    var body := before + middle + after;
    CryptInverse(Advance(h.cipher, |before|), END_MARKER);
    CryptSplit(h.cipher, before + middle, after);
    CryptSplit(h.cipher, before, middle);
    hide Crypt, UnsealFrame, Frame, Signature, Advance;
    var sealed := SealMessage(p, h, body);
    var (a, c) := (Crypt(h.cipher, before), Crypt(Advance(h.cipher, |before + middle|), after));
    assert sealed[SIGNATURE_LEN..] == a + END_MARKER + c;
    MarkerStands(sealed, a, c);
    hide SealMessage;
    if p.isUtf8(body) {
      BodyRoundTrip(p, h, body);
    }
  }

  lemma MarkerStands(sealed: Bytes, a: Bytes, c: Bytes)
    requires |sealed| >= SIGNATURE_LEN && sealed[SIGNATURE_LEN..] == a + END_MARKER + c
    ensures !MarkerFree(sealed)
  {
    var at := SIGNATURE_LEN + |a|;
    assert (a + END_MARKER + c)[|a|..|a| + |END_MARKER|] == END_MARKER;
    SliceOfSlice(sealed, SIGNATURE_LEN, |sealed|, |a|, |a| + |END_MARKER|);
    assert sealed[SIGNATURE_LEN..] == sealed[SIGNATURE_LEN..|sealed|];
    assert At(sealed, END_MARKER, at);
  }

  /** The original length that a multipart body announces: the digits between `Length=` and the line's end. */
  function AnnouncedLength(data: Bytes): Option<int> {
    match Find(data, LENGTH_KEY)
    case None => None
    case Some(p) =>
      var rest := data[p + |LENGTH_KEY|..];
      match Find(rest, CRLF)
      case None => None
      case Some(end) => if exists c | c in rest[..end] :: !(48 <= c <= 57) then None else Some(DigitsValue(rest[..end]))
  }

  lemma LackL(s: string)
    requires 'L' !in s
    ensures 76 !in Ascii(s)
  {
    AsciiLacks(s, 'L');
  }

  lemma FirstPartsLackL()
    ensures 76 !in BOUNDARY && 76 !in Ascii("\r\n\tContent-Type: application")
  {
    LackL("--");
    LackL("Encrypted Boundary");
    LackL("\r\n\tContent-Type: application");
  }

  lemma ProtocolLacksL()
    ensures 76 !in Ascii("/") + Ascii(PROTOCOL_PART)
  {
    LackL("/");
    LackL(PROTOCOL_PART);
  }

  lemma ContentLacksL()
    ensures 76 !in Ascii(CONTENT_PART) && 76 !in Ascii("/") + Ascii(CHARSET_PART)
  {
    LackL("/");
    LackL(CONTENT_PART);
    LackL(CHARSET_PART);
  }

  lemma {:induction false} JoinLacks(parts: seq<Bytes>, c: Byte)
    requires forall part | part in parts :: c !in part
    ensures c !in Join(parts)
  {
    if parts != [] {
      JoinLacks(parts[1..], c);
    }
  }

  lemma {:induction false} JoinSum(a: seq<Bytes>, b: seq<Bytes>)
    ensures Join(a + b) == Join(a) + Join(b)
  {
    if a == [] {
      assert a + b == b;
    } else {
      assert (a + b)[1..] == a[1..] + b;
      JoinSum(a[1..], b);
    }
  }

  lemma FirstByte(pre: Bytes, needle: Bytes, rest: Bytes)
    requires needle != [] && needle[0] !in pre
    ensures Find(pre + (needle + rest), needle) == Some(|pre|)
    ensures (pre + (needle + rest))[|pre| + |needle|..] == rest
  {
    var data := pre + (needle + rest);
    assert data[|pre|..|pre| + |needle|] == needle;
    assert At(data, needle, |pre|);
    forall q: nat | q < |pre|
      ensures !At(data, needle, q)
    {
      assert data[q] == pre[q];
      if q + |needle| <= |data| {
        assert data[q..q + |needle|][0] == pre[q];
      }
    }
    FindIs(data, needle, |pre|);
    SliceRight(pre, needle + rest, |needle|, |needle + rest|);
  }

  /** Every sealed body announces the length it is given. */
  lemma LengthAnnounced(sealed: Bytes, length: nat)
    ensures AnnouncedLength(Frame(sealed, length)) == Some(length)
  {
    hide LENGTH_KEY, CRLF, Frame, OpeningParts, AfterLength, Join, Decimal, Find, At, DigitsValue, Ascii;
    var pre, digits, rest := Join(OpeningParts()), Decimal(length), AfterLength(sealed);
    FrameAroundLength(sealed, length);
    OpeningLacksL();
    DecimalReadsBack(length);
    KeyBytes();
    FirstByte(pre, LENGTH_KEY, digits + (CRLF + rest));
    FirstByte(digits, CRLF, rest);
    assert (digits + (CRLF + rest))[..|digits|] == digits;
  }

  lemma KeyBytes()
    ensures LENGTH_KEY != [] && LENGTH_KEY[0] == 76 && CRLF != [] && CRLF[0] == 13
  {
  }

  lemma OpeningLacksL()
    ensures 76 !in Join(OpeningParts())
  {
    FirstPartsLackL();
    ProtocolLacksL();
    ContentLacksL();
    hide Ascii, Join;
    JoinLacks(OpeningParts(), 76);
  }

  /** What follows the line of the length. */
  function AfterLength(sealed: Bytes): Bytes {
    BOUNDARY + Ascii("\r\n\tContent-Type: ") + OCTET_STREAM + LeBytes(SIGNATURE_LEN, 4) + sealed + END_MARKER + CRLF
  }

  lemma FrameAroundLength(sealed: Bytes, length: nat)
    ensures Frame(sealed, length)
         == Join(OpeningParts()) + (LENGTH_KEY + (Decimal(length) + (CRLF + AfterLength(sealed))))
  {
    hide Decimal, LeBytes, Ascii, OpeningParts, BOUNDARY, OCTET_STREAM, END_MARKER, CRLF, LENGTH_KEY;
    JoinSum(OpeningParts(), [LENGTH_KEY, Decimal(length), CRLF, BOUNDARY, Ascii("\r\n\tContent-Type: ")]);
    FiveParts(LENGTH_KEY, Decimal(length), CRLF, BOUNDARY, Ascii("\r\n\tContent-Type: "));
    hide Join;
  }

  lemma FiveParts(a: Bytes, b: Bytes, c: Bytes, d: Bytes, e: Bytes)
    ensures Join([a, b, c, d, e]) == a + (b + (c + (d + e)))
  {
    assert [a, b, c, d, e][1..] == [b, c, d, e] && [b, c, d, e][1..] == [c, d, e] && [c, d, e][1..] == [d, e];
    assert [d, e][1..] == [e] && [e][1..] == [] && e + [] == e;
    assert Join([e]) == e;
    assert Join([d, e]) == d + e;
    assert Join([c, d, e]) == c + (d + e);
    assert Join([b, c, d, e]) == b + (c + (d + e));
  }

  const ENCRYPTED_CONTENT_TYPE :=
    "multipart/encrypted;protocol=\"application/HTTP-SPNEGO-session-encrypted\";boundary=\"Encrypted Boundary\""

  /** `seal_body`: `body` is the UTF-8 of the SOAP text. */
  method SealBody(session: NtlmSession, body: Bytes) returns (contentType: string, mimeBody: Bytes)
    requires session.Valid()
    modifies session`clientSeqNum, session.clientSealHandle, session.clientSealHandle.s
    ensures contentType == ENCRYPTED_CONTENT_TYPE
    ensures mimeBody == Frame(SealMessage(session.primitives, old(session.View()).client, body), |body|)
    ensures session.View() == old(session.View()).(client := AfterMessage(old(session.View()).client, |body|))
  {
    var sealed := session.Seal(body);
    var payload := LeBytes(SIGNATURE_LEN, 4);
    payload := payload + sealed;
    mimeBody := Preamble(|body|) + OCTET_STREAM;
    mimeBody := mimeBody + payload;
    mimeBody := mimeBody + (END_MARKER + CRLF);
    contentType := ENCRYPTED_CONTENT_TYPE;
    hide SealMessage, Preamble, LeBytes;
    assert mimeBody == Frame(sealed, |body|);
  }

  /** `unseal_body`. */
  method UnsealBody(session: NtlmSession, data: Bytes) returns (r: Result<Bytes, BodyError>)
    requires session.Valid()
    modifies session`serverSeqNum, session.serverSealHandle, session.serverSealHandle.s
    ensures (r, session.View().server) == UnsealFrame(session.primitives, old(session.View()).server, data)
    ensures session.View().client == old(session.View()).client
  {
    hide UnsealMessage, LeValue;
    var pos := Find(data, OCTET_STREAM);
    if pos == None {
      return Err(MissingMarker);
    }
    var encryptedStart := pos.value + |OCTET_STREAM|;
    if encryptedStart + 4 > |data| {
      return Err(Truncated);
    }
    var sigLen := LeValue(data[encryptedStart..encryptedStart + 4]);
    var sealedStart := encryptedStart + 4;
    var end := Find(data[sealedStart..], END_MARKER);
    var sealedEnd := if end.Some? then sealedStart + end.value else |data|;
    var sealedData := data[sealedStart..sealedEnd];
    assert sealedData == data[sealedStart..][..sealedEnd - sealedStart];
    if |sealedData| < sigLen {
      return Err(ShortForSignature);
    }
    var plaintext := session.Unseal(sealedData);
    if plaintext.Err? {
      return Err(Unsealing(plaintext.error));
    }
    r := if session.primitives.isUtf8(plaintext.value) then Ok(plaintext.value) else Err(NotUtf8);
  }
}
