/** The CredSSP messages: TSRequest (MS-CSSP section 2.2.1) and the SPNEGO tokens inside it (RFC 4178 section 4.2). */
module CredSsp {
  import opened Bytes
  import opened Der

  datatype TsRequest = TsRequest(
    version: Word, negoToken: Option<Bytes>, authInfo: Option<Bytes>, pubKeyAuth: Option<Bytes>,
    errorCode: Option<Word>, clientNonce: Option<Bytes>)

  function EncodeSequence(contents: Bytes): (b: Bytes)
    ensures |b| > |contents|
  {
    EncodeTlv(TAG_SEQUENCE, contents)
  }

  function EncodeContext(tag: Byte, contents: Bytes): (b: Bytes)
    ensures |b| > |contents|
  {
    EncodeTlv(ContextTag(tag), contents)
  }

  function NegoData(token: Bytes): (b: Bytes)
    ensures |b| > |token|
  {
    EncodeSequence(EncodeSequence(EncodeContext(0, EncodeOctetString(token))))
  }

  function Optional(tag: Byte, contents: Option<Bytes>): seq<Item> {
    if contents.Some? then [Item(ContextTag(tag), contents.value)] else []
  }

  function OctetString(data: Option<Bytes>): Option<Bytes> {
    if data.Some? then Some(EncodeOctetString(data.value)) else None
  }

  function Nego(token: Option<Bytes>): Option<Bytes> {
    if token.Some? then Some(NegoData(token.value)) else None
  }

  function Integer(contents: Option<Bytes>): Option<Bytes> {
    if contents.Some? then Some(EncodeTlv(TAG_INTEGER, contents.value)) else None
  }

  /** The fields of a TSRequest in the order they are written by a client, which sends no error code. */
  function Items(version: Word, negoToken: Option<Bytes>, pubKeyAuth: Option<Bytes>, authInfo: Option<Bytes>,
                 clientNonce: Option<Bytes>): seq<Item> {
    ServerItems(Some(IntegerBytes(version)), negoToken, authInfo, pubKeyAuth, None, clientNonce)
  }

  /** The fields a server may write: any of them, with any contents in the two integers. */
  function ServerItems(version: Option<Bytes>, negoToken: Option<Bytes>, authInfo: Option<Bytes>,
                       pubKeyAuth: Option<Bytes>, errorCode: Option<Bytes>, clientNonce: Option<Bytes>): seq<Item> {
    FieldItems(Integer(version), Nego(negoToken), OctetString(authInfo), OctetString(pubKeyAuth), Integer(errorCode),
               OctetString(clientNonce))
  }

  function FieldItems(version: Option<Bytes>, nego: Option<Bytes>, authInfo: Option<Bytes>, pubKeyAuth: Option<Bytes>,
                      errorCode: Option<Bytes>, nonce: Option<Bytes>): seq<Item> {
    Optional(0, version) + Optional(1, nego) + Optional(2, authInfo) + Optional(3, pubKeyAuth)
      + Optional(4, errorCode) + Optional(5, nonce)
  }

  /** `encode_ts_request`. */
  method EncodeTsRequest(version: Word, negoToken: Option<Bytes>, pubKeyAuth: Option<Bytes>, authInfo: Option<Bytes>,
                         clientNonce: Option<Bytes>)
    returns (b: Bytes)
    ensures b == EncodeSequence(EncodeItems(Items(version, negoToken, pubKeyAuth, authInfo, clientNonce)))
  {
    hide EncodeTlv, ContextTag, EncodeItems, NegoData;
    var contents := EncodeContext(0, EncodeInteger(version));
    ghost var items := Optional(0, Some(EncodeInteger(version)));
    OneItem(items[0]);
    if negoToken.Some? {
      contents := contents + EncodeContext(1, NegoData(negoToken.value));
    }
    AddOptional(items, 1, Nego(negoToken));
    items := items + Optional(1, Nego(negoToken));
    if authInfo.Some? {
      contents := contents + EncodeContext(2, EncodeOctetString(authInfo.value));
    }
    AddOptional(items, 2, OctetString(authInfo));
    items := items + Optional(2, OctetString(authInfo));
    if pubKeyAuth.Some? {
      contents := contents + EncodeContext(3, EncodeOctetString(pubKeyAuth.value));
    }
    AddOptional(items, 3, OctetString(pubKeyAuth));
    items := items + Optional(3, OctetString(pubKeyAuth));
    AddOptional(items, 4, None);
    items := items + Optional(4, None);
    if clientNonce.Some? {
      contents := contents + EncodeContext(5, EncodeOctetString(clientNonce.value));
    }
    AddOptional(items, 5, OctetString(clientNonce));
    items := items + Optional(5, OctetString(clientNonce));
    assert items == Items(version, negoToken, pubKeyAuth, authInfo, clientNonce);
    b := EncodeSequence(contents);
  }

  lemma {:induction false} EncodeItemsSum(a: seq<Item>, b: seq<Item>)
    ensures EncodeItems(a + b) == EncodeItems(a) + EncodeItems(b)
  {
    hide EncodeTlv;
    if a == [] {
      assert a + b == b;
    } else {
      assert (a + b)[1..] == a[1..] + b;
      EncodeItemsSum(a[1..], b);
    }
  }

  lemma OneItem(item: Item)
    ensures EncodeItems([item]) == EncodeTlv(item.tag, item.contents)
  {
    hide EncodeTlv;
    assert [item][1..] == [];
  }

  lemma AddOptional(items: seq<Item>, tag: Byte, contents: Option<Bytes>)
    ensures EncodeItems(items + Optional(tag, contents))
         == if contents.Some? then EncodeItems(items) + EncodeContext(tag, contents.value) else EncodeItems(items)
  {
    hide EncodeTlv, ContextTag;
    if contents.Some? {
      EncodeItemsSum(items, Optional(tag, contents));
      OneItem(Item(ContextTag(tag), contents.value));
    } else {
      assert items + [] == items;
    }
  }

  function Required<T>(r: Result<T, DerError>): Option<T> {
    if r.Ok? then Some(r.value) else None
  }

  /** The token in the negoTokens field; anything malformed reads as no token. */
  function DecodeNego(data: Bytes): Option<Bytes> {
    var outer := ReadTlv(data);
    if outer.Err? then None else
      var inner := ReadTlv(outer.value.value);
      if inner.Err? then None else
        var token := FindContextTag(inner.value.value, 0);
        if token.None? then None else Required(DecodeOctetString(token.value))
  }

  /** An optional field: absent, present, or present and malformed. */
  function DecodeOptional<T>(data: Option<Bytes>, decode: Bytes -> Result<T, DerError>): Result<Option<T>, DerError> {
    if data.None? then Ok(None) else
      match decode(data.value)
      case Err(e) => Err(e)
      case Ok(v) => Ok(Some(v))
  }

  /** `decode_ts_request`. */
  function DecodeTsRequest(data: Bytes): Result<TsRequest, DerError> {
    match ReadTlv(data)
    case Err(e) => Err(e)
    case Ok(t) =>
      if t.tag != TAG_SEQUENCE then Err(WrongTag(TAG_SEQUENCE, t.tag)) else DecodeFields(t.value)
  }

  function DecodeFields(d: Bytes): Result<TsRequest, DerError> {
    var version := DecodeOptional(FindContextTag(d, 0), DecodeInteger);
    var nego := FindContextTag(d, 1);
    var authInfo := DecodeOptional(FindContextTag(d, 2), DecodeOctetString);
    var pubKeyAuth := DecodeOptional(FindContextTag(d, 3), DecodeOctetString);
    var errorCode := DecodeOptional(FindContextTag(d, 4), DecodeInteger);
    var clientNonce := DecodeOptional(FindContextTag(d, 5), DecodeOctetString);
    if version.Err? then Err(version.error)
    else if authInfo.Err? then Err(authInfo.error)
    else if pubKeyAuth.Err? then Err(pubKeyAuth.error)
    else if errorCode.Err? then Err(errorCode.error)
    else if clientNonce.Err? then Err(clientNonce.error)
    else Ok(TsRequest(if version.value.Some? then version.value.value else 2,
                      if nego.Some? then DecodeNego(nego.value) else None,
                      authInfo.value, pubKeyAuth.value, errorCode.value, clientNonce.value))
  }

  lemma {:induction false} FirstMatchSum(a: seq<Item>, b: seq<Item>, tag: Byte)
    ensures FirstMatch(a + b, tag) == if FirstMatch(a, tag).Some? then FirstMatch(a, tag) else FirstMatch(b, tag)
  {
    if a == [] {
      assert a + b == b;
    } else {
      assert (a + b)[1..] == a[1..] + b;
      FirstMatchSum(a[1..], b, tag);
    }
  }

  lemma MatchOptional(tag: Byte, contents: Option<Bytes>, target: Byte)
    requires tag < 32 && target < 32
    ensures FirstMatch(Optional(tag, contents), ContextTag(target)) == if tag == target then contents else None
  {
    if contents.Some? {
      assert Optional(tag, contents)[1..] == [];
    }
  }

  /** Every written item is shorter than the whole. */
  lemma {:induction false} ItemsFit(items: seq<Item>)
    ensures forall item | item in items :: |item.contents| < |EncodeItems(items)|
  {
    if items != [] {
      hide EncodeTlv;
      ItemsFit(items[1..]);
      assert forall item | item in items :: item == items[0] || item in items[1..];
    }
  }

  /** Each field is found under its own tag and no other. */
  lemma FieldsFound(version: Option<Bytes>, nego: Option<Bytes>, authInfo: Option<Bytes>, pubKeyAuth: Option<Bytes>,
                    errorCode: Option<Bytes>, nonce: Option<Bytes>, tag: Byte)
    requires tag < 32 && |EncodeItems(FieldItems(version, nego, authInfo, pubKeyAuth, errorCode, nonce))| < U24
    ensures FindContextTag(EncodeItems(FieldItems(version, nego, authInfo, pubKeyAuth, errorCode, nonce)), tag)
         == if tag == 0 then version else if tag == 1 then nego else if tag == 2 then authInfo
            else if tag == 3 then pubKeyAuth else if tag == 4 then errorCode else if tag == 5 then nonce else None
  {
    hide EncodeTlv, EncodeItems, ContextTag;
    var items := FieldItems(version, nego, authInfo, pubKeyAuth, errorCode, nonce);
    ItemsFit(items);
    FindFirstMatch(items, [], ContextTag(tag));
    assert EncodeItems(items) + [] == EncodeItems(items);
    NothingFound(ContextTag(tag));
    FirstField(version, nego, authInfo, pubKeyAuth, errorCode, nonce, tag);
  }

  lemma FirstField(version: Option<Bytes>, nego: Option<Bytes>, authInfo: Option<Bytes>, pubKeyAuth: Option<Bytes>,
                   errorCode: Option<Bytes>, nonce: Option<Bytes>, tag: Byte)
    requires tag < 32
    ensures FirstMatch(FieldItems(version, nego, authInfo, pubKeyAuth, errorCode, nonce), ContextTag(tag))
         == if tag == 0 then version else if tag == 1 then nego else if tag == 2 then authInfo
            else if tag == 3 then pubKeyAuth else if tag == 4 then errorCode else if tag == 5 then nonce else None
  {
    hide ContextTag, FirstMatch, Optional;
    var target := ContextTag(tag);
    var a := Optional(0, version);
    var b := a + Optional(1, nego);
    var c := b + Optional(2, authInfo);
    var d := c + Optional(3, pubKeyAuth);
    var e := d + Optional(4, errorCode);
    FirstMatchSum(e, Optional(5, nonce), target);
    FirstMatchSum(d, Optional(4, errorCode), target);
    FirstMatchSum(c, Optional(3, pubKeyAuth), target);
    FirstMatchSum(b, Optional(2, authInfo), target);
    FirstMatchSum(a, Optional(1, nego), target);
    MatchOptional(0, version, tag);
    MatchOptional(1, nego, tag);
    MatchOptional(2, authInfo, tag);
    MatchOptional(3, pubKeyAuth, tag);
    MatchOptional(4, errorCode, tag);
    MatchOptional(5, nonce, tag);
  }

  /** A single item written alone is found under its tag. */
  lemma OnlyItem(tag: Byte, contents: Bytes)
    requires |EncodeContext(tag, contents)| <= U24
    ensures FindContextTag(EncodeContext(tag, contents), tag) == Some(contents)
  {
    hide EncodeTlv, ContextTag;
    OneItem(Item(ContextTag(tag), contents));
    var items := [Item(ContextTag(tag), contents)];
    FindFirstMatch(items, [], ContextTag(tag));
    assert EncodeItems(items) + [] == EncodeItems(items);
  }

  lemma WholeTlv(tag: Byte, contents: Bytes)
    requires |contents| < U24
    ensures ReadTlv(EncodeTlv(tag, contents)) == Ok(Tlv(tag, contents, |EncodeTlv(tag, contents)|))
  {
    TlvRoundTrip(tag, contents, []);
    hide ReadTlv, EncodeTlv;
    assert EncodeTlv(tag, contents) + [] == EncodeTlv(tag, contents);
  }

  lemma NegoRoundTrip(token: Bytes)
    requires |NegoData(token)| < U24
    ensures DecodeNego(NegoData(token)) == Some(token)
  {
    hide EncodeTlv, ReadTlv, ContextTag, FindContextTag;
    var octets := EncodeOctetString(token);
    var field := EncodeContext(0, octets);
    WholeTlv(TAG_SEQUENCE, EncodeSequence(field));
    WholeTlv(TAG_SEQUENCE, field);
    OnlyItem(0, octets);
    WholeTlv(TAG_OCTET_STRING, token);
  }

  lemma OptionalOctets(data: Option<Bytes>)
    requires data.Some? ==> |data.value| < U24
    ensures DecodeOptional(OctetString(data), DecodeOctetString) == Ok(data)
  {
    hide EncodeTlv, ReadTlv;
    if data.Some? {
      WholeTlv(TAG_OCTET_STRING, data.value);
    }
  }

  /** What an optional INTEGER reads as: one to four bytes of contents are a big-endian number without a sign. */
  function IntegerField(contents: Option<Bytes>): Result<Option<Word>, DerError> {
    if contents.None? then Ok(None)
    else if contents.value == [] || |contents.value| > 4 then Err(IntegerLength(|contents.value|))
    else
      BeSmall(contents.value);
      Ok(Some(BeValue(contents.value)))
  }

  lemma OptionalInteger(contents: Option<Bytes>)
    requires contents.Some? ==> |contents.value| < U24
    ensures DecodeOptional(Integer(contents), DecodeInteger) == IntegerField(contents)
  {
    hide EncodeTlv, ReadTlv;
    if contents.Some? {
      WholeTlv(TAG_INTEGER, contents.value);
    }
  }

  /**
   Whatever fields a server writes, and whatever bytes it puts into the version and the error code, the decoder
   gives back its fields, version 2 when there is none, and both integers without a sign when they have one to
   four bytes; any other length of the version, and then of the error code, is the error.
   */
  lemma ServerRequestRead(version: Option<Bytes>, negoToken: Option<Bytes>, authInfo: Option<Bytes>,
                          pubKeyAuth: Option<Bytes>, errorCode: Option<Bytes>, clientNonce: Option<Bytes>, rest: Bytes)
    requires |EncodeItems(ServerItems(version, negoToken, authInfo, pubKeyAuth, errorCode, clientNonce))| < U24
    ensures DecodeTsRequest(EncodeSequence(EncodeItems(ServerItems(version, negoToken, authInfo, pubKeyAuth, errorCode,
                                                                   clientNonce))) + rest)
         == var (v, e) := (IntegerField(version), IntegerField(errorCode));
            if v.Err? then Err(v.error) else if e.Err? then Err(e.error)
            else Ok(TsRequest(if v.value.Some? then v.value.value else 2, negoToken, authInfo, pubKeyAuth, e.value,
                              clientNonce))
  {
    hide EncodeTlv, ReadTlv, ContextTag, EncodeItems, DecodeInteger, IntegerField;
    hide DecodeOctetString, FindContextTag, DecodeNego, NegoData, DecodeOptional;
    var contents := EncodeItems(ServerItems(version, negoToken, authInfo, pubKeyAuth, errorCode, clientNonce));
    TlvRoundTrip(TAG_SEQUENCE, contents, rest);
    FieldSizes(version, negoToken, authInfo, pubKeyAuth, errorCode, clientNonce);
    var (ver, code) := (Integer(version), Integer(errorCode));
    var nego, info := Nego(negoToken), OctetString(authInfo);
    var auth, nonce := OctetString(pubKeyAuth), OctetString(clientNonce);
    FieldsFound(ver, nego, info, auth, code, nonce, 0);
    FieldsFound(ver, nego, info, auth, code, nonce, 1);
    FieldsFound(ver, nego, info, auth, code, nonce, 2);
    FieldsFound(ver, nego, info, auth, code, nonce, 3);
    FieldsFound(ver, nego, info, auth, code, nonce, 4);
    FieldsFound(ver, nego, info, auth, code, nonce, 5);
    if negoToken.Some? {
      NegoRoundTrip(negoToken.value);
    }
    OptionalInteger(version);
    OptionalInteger(errorCode);
    OptionalOctets(authInfo);
    OptionalOctets(pubKeyAuth);
    OptionalOctets(clientNonce);
  }

  /**
   The TSRequest round trip: whatever optional fields are present, the decoder gives back exactly the
   encoder's fields and no error code when the version is below 2^31, and refuses every other version.
   */
  lemma TsRequestRoundTrip(version: Word, negoToken: Option<Bytes>, pubKeyAuth: Option<Bytes>, authInfo: Option<Bytes>,
                           clientNonce: Option<Bytes>, rest: Bytes)
    requires |EncodeItems(Items(version, negoToken, pubKeyAuth, authInfo, clientNonce))| < U24
    ensures DecodeTsRequest(EncodeSequence(EncodeItems(Items(version, negoToken, pubKeyAuth, authInfo, clientNonce)))
            + rest)
         == if version < 0x8000_0000 then Ok(TsRequest(version, negoToken, authInfo, pubKeyAuth, None, clientNonce))
            else Err(IntegerLength(5))
  {
    hide EncodeSequence, EncodeItems, IntegerBytes, ServerItems, DecodeTsRequest;
    ServerRequestRead(Some(IntegerBytes(version)), negoToken, authInfo, pubKeyAuth, None, clientNonce, rest);
    IntegerContents(version);
  }

  lemma FieldSizes(version: Option<Bytes>, negoToken: Option<Bytes>, authInfo: Option<Bytes>,
                   pubKeyAuth: Option<Bytes>, errorCode: Option<Bytes>, clientNonce: Option<Bytes>)
    requires |EncodeItems(ServerItems(version, negoToken, authInfo, pubKeyAuth, errorCode, clientNonce))| < U24
    ensures version.Some? ==> |version.value| < U24
    ensures negoToken.Some? ==> |NegoData(negoToken.value)| < U24
    ensures authInfo.Some? ==> |authInfo.value| < U24
    ensures pubKeyAuth.Some? ==> |pubKeyAuth.value| < U24
    ensures errorCode.Some? ==> |errorCode.value| < U24
    ensures clientNonce.Some? ==> |clientNonce.value| < U24
  {
    hide EncodeTlv, ContextTag, EncodeItems, NegoData;
    var items := ServerItems(version, negoToken, authInfo, pubKeyAuth, errorCode, clientNonce);
    ItemsFit(items);
    if version.Some? {
      assert Optional(0, Integer(version))[0] in items;
    }
    if negoToken.Some? {
      assert Optional(1, Nego(negoToken))[0] in items;
    }
    if authInfo.Some? {
      assert Optional(2, OctetString(authInfo))[0] in items;
    }
    if pubKeyAuth.Some? {
      assert Optional(3, OctetString(pubKeyAuth))[0] in items;
    }
    if errorCode.Some? {
      assert Optional(4, Integer(errorCode))[0] in items;
    }
    if clientNonce.Some? {
      assert Optional(5, OctetString(clientNonce))[0] in items;
    }
  }

  lemma ShortTlv(tag: Byte, contents: Bytes)
    requires |contents| < 128
    ensures EncodeTlv(tag, contents) == [tag, |contents|] + contents
  {
  }

  /** A short octet string in a context tag. */
  lemma ShortField(tag: Byte, data: Bytes)
    requires tag < 32 && |data| < 126
    ensures EncodeContext(tag, EncodeOctetString(data)) == [0xA0 + tag, |data| + 2] + ([0x04, |data|] + data)
  {
    assert ContextTag(tag) == 0xA0 + tag;
    hide EncodeTlv, ContextTag;
    ShortTlv(0x04, data);
    ShortTlv(0xA0 + tag, EncodeOctetString(data));
  }

  /** The bytes of a short TSRequest (MS-CSSP section 2.2.1) with a token and a nonce. */
  lemma TsRequestBytes(version: Byte, token: Bytes, nonce: Bytes)
    requires version < 128 && |token| + |nonce| < 100
    ensures EncodeSequence(EncodeItems(Items(version, Some(token), None, None, Some(nonce))))
         == [0x30, |token| + |nonce| + 19]
            + (([0xA0, 0x03] + ([0x02, 0x01] + [version]))
               + ([0xA1, |token| + 8] + ([0x30, |token| + 6] + ([0x30, |token| + 4]
                  + ([0xA0, |token| + 2] + ([0x04, |token|] + token)))))
               + ([0xA5, |nonce| + 2] + ([0x04, |nonce|] + nonce)))
  {
    SmallInteger(version);
    assert ContextTag(0) == 0xA0 && ContextTag(1) == 0xA1 && ContextTag(5) == 0xA5;
    hide EncodeTlv, ContextTag, EncodeItems, IntegerBytes;
    var data, last := NegoData(token), EncodeOctetString(nonce);
    NegoBytes(token);
    ShortTlv(0x02, [version]);
    ShortTlv(0xA0, EncodeTlv(0x02, [version]));
    ShortTlv(0xA1, data);
    ShortField(5, nonce);
    var (a, b, c) := (Item(0xA0, EncodeTlv(0x02, [version])), Item(0xA1, data), Item(0xA5, last));
    ItemsAre(version, token, nonce);
    ThreeItems(a, b, c);
    ShortTlv(0x30, EncodeItems([a, b, c]));
  }

  lemma NegoBytes(token: Bytes)
    requires |token| < 100
    ensures NegoData(token)
         == [0x30, |token| + 6] + ([0x30, |token| + 4] + ([0xA0, |token| + 2] + ([0x04, |token|] + token)))
  {
    assert ContextTag(0) == 0xA0;
    hide EncodeTlv, ContextTag;
    var field := EncodeContext(0, EncodeOctetString(token));
    ShortField(0, token);
    ShortTlv(0x30, field);
    ShortTlv(0x30, EncodeSequence(field));
  }

  lemma ItemsAre(version: Word, token: Bytes, nonce: Bytes)
    ensures Items(version, Some(token), None, None, Some(nonce))
         == [Item(ContextTag(0), EncodeInteger(version)), Item(ContextTag(1), NegoData(token)),
             Item(ContextTag(5), EncodeOctetString(nonce))]
  {
    hide EncodeTlv, ContextTag, NegoData;
  }

  lemma SmallInteger(n: Byte)
    requires n < 128
    ensures IntegerBytes(n) == [n]
  {
    IntegerContents(n);
    var c := IntegerBytes(n);
    hide IntegerBytes;
    if |c| > 1 {
      LongContents(c);
    }
    assert c == [c[0]];
    BeValues(c[0], 0, 0);
  }

  lemma LongContents(c: Bytes)
    requires |c| > 1 && (c[0] != 0 || c[1] >= 0x80)
    ensures BeValue(c) >= 0x80
  {
    hide BeValue, Range;
    if c[0] == 0 {
      LeadingZero(c[1..]);
      assert c == [0] + c[1..];
      LeadingByte(c[1..]);
      AtLeast(c[1], Range(|c| - 2));
    } else {
      LeadingByte(c);
      RangeFrom(|c| - 1);
      AtLeast(Range(|c| - 1), c[0]);
    }
  }

  lemma AtLeast(a: nat, b: nat)
    requires b > 0
    ensures a <= a * b
  {
  }

  lemma RangeFrom(n: nat)
    requires n > 0
    ensures Range(n) >= 256
  {
  }

  lemma ThreeItems(a: Item, b: Item, c: Item)
    ensures EncodeItems([a, b, c])
         == EncodeTlv(a.tag, a.contents) + EncodeTlv(b.tag, b.contents) + EncodeTlv(c.tag, c.contents)
  {
    hide EncodeTlv, EncodeItems;
    OneItem(a);
    OneItem(b);
    OneItem(c);
    EncodeItemsSum([a], [b]);
    EncodeItemsSum([a, b], [c]);
    assert [a] + [b] == [a, b] && [a, b] + [c] == [a, b, c];
  }

  // SPNEGO.

  const SPNEGO_OID: Bytes := [0x06, 0x06, 0x2b, 0x06, 0x01, 0x05, 0x05, 0x02]
  const NTLM_OID: Bytes := [0x06, 0x0a, 0x2b, 0x06, 0x01, 0x04, 0x01, 0x82, 0x37, 0x02, 0x02, 0x0a]

  /** `encode_spnego_init`. */
  function EncodeSpnegoInit(token: Bytes): Bytes {
    EncodeTlv(0x60, SPNEGO_OID + EncodeContext(0, EncodeSequence(
      EncodeContext(0, EncodeSequence(NTLM_OID)) + EncodeContext(2, EncodeOctetString(token)))))
  }

  /** `encode_spnego_response`. */
  function EncodeSpnegoResponse(token: Bytes, mechListMic: Option<Bytes>): Bytes {
    EncodeContext(1, EncodeSequence(
      EncodeContext(0, [0x0a, 0x01, 0x01]) + EncodeContext(2, EncodeOctetString(token))
      + if mechListMic.Some? then EncodeContext(3, EncodeOctetString(mechListMic.value)) else []))
  }

  /** The token in field 2 of a sequence. */
  function TokenOf(data: Bytes): Result<Bytes, DerError> {
    match ReadTlv(data)
    case Err(e) => Err(e)
    case Ok(t) =>
      match FindContextTag(t.value, 2)
      case None => Err(NoToken)
      case Some(token) => DecodeOctetString(token)
  }

  /** `decode_spnego_token`. */
  function DecodeSpnegoToken(data: Bytes): Result<Bytes, DerError> {
    match ReadTlv(data)
    case Err(e) => Err(e)
    case Ok(t) =>
      if t.tag == 0x60 then
        var oid := ReadTlv(t.value);
        if oid.Err? then Err(BadOid) else
          match FindContextTag(t.value[oid.value.consumed..], 0)
          case None => Err(NoToken)
          case Some(init) => TokenOf(init)
      else if t.tag == 0xA1 then TokenOf(t.value)
      else Err(WrongTag(0x60, t.tag))
  }

  /** Of any fields the first token field is read. */
  lemma TokenOfItems(items: seq<Item>)
    requires |EncodeItems(items)| < U24
    ensures TokenOf(EncodeSequence(EncodeItems(items)))
         == match FirstMatch(items, ContextTag(2))
            case None => Err(NoToken)
            case Some(token) => DecodeOctetString(token)
  {
    hide EncodeTlv, ReadTlv, ContextTag, FindItem, DecodeOctetString;
    var contents := EncodeItems(items);
    WholeTlv(TAG_SEQUENCE, contents);
    ItemsFit(items);
    FindFirstMatch(items, [], ContextTag(2));
    assert contents + [] == contents;
    NothingFound(ContextTag(2));
  }

  /** A sequence of a first field 0 and a token in field 2, whatever follows. */
  lemma TokenFound(first: Bytes, token: Bytes, more: seq<Item>)
    requires |EncodeContext(0, first) + EncodeContext(2, EncodeOctetString(token)) + EncodeItems(more)| < U24
    ensures TokenOf(EncodeSequence(EncodeContext(0, first) + EncodeContext(2, EncodeOctetString(token))
            + EncodeItems(more))) == Ok(token)
  {
    hide EncodeTlv, ReadTlv, EncodeItems, TokenOf;
    var octets := EncodeOctetString(token);
    var a, b := [Item(ContextTag(0), first)], [Item(ContextTag(2), octets)];
    OneItem(a[0]);
    OneItem(b[0]);
    EncodeItemsSum(a, b);
    EncodeItemsSum(a + b, more);
    TokenOfItems(a + b + more);
    assert (a + b + more)[1..][0] == b[0];
    WholeTlv(TAG_OCTET_STRING, token);
  }

  lemma NoItems()
    ensures EncodeItems([]) == []
  {
  }

  /** The bytes of a short initial message (RFC 4178 section 4.2.1): NTLM is the only mechanism offered. */
  lemma SpnegoInitBytes(token: Bytes)
    requires |token| < 96
    ensures EncodeSpnegoInit(token)
         == [0x60, |token| + 32] + ([0x06, 0x06, 0x2b, 0x06, 0x01, 0x05, 0x05, 0x02]
            + ([0xA0, |token| + 22] + ([0x30, |token| + 20]
            + (([0xA0, 0x0e] + ([0x30, 0x0c]
                  + [0x06, 0x0a, 0x2b, 0x06, 0x01, 0x04, 0x01, 0x82, 0x37, 0x02, 0x02, 0x0a]))
               + ([0xA2, |token| + 2] + ([0x04, |token|] + token))))))
  {
    assert ContextTag(0) == 0xA0;
    hide EncodeTlv, ContextTag;
    var mechs := EncodeSequence(NTLM_OID);
    ShortTlv(0x30, NTLM_OID);
    ShortTlv(0xA0, mechs);
    ShortField(2, token);
    var fields := EncodeContext(0, mechs) + EncodeContext(2, EncodeOctetString(token));
    ShortTlv(0x30, fields);
    ShortTlv(0xA0, EncodeSequence(fields));
    ShortTlv(0x60, SPNEGO_OID + EncodeContext(0, EncodeSequence(fields)));
  }

  /** The bytes of a short response (RFC 4178 section 4.2.2): accept-incomplete, the token, then the MIC if any. */
  lemma SpnegoResponseBytes(token: Bytes, mechListMic: Option<Bytes>)
    requires |token| + (if mechListMic.Some? then |mechListMic.value| else 0) < 100
    ensures EncodeSpnegoResponse(token, mechListMic)
         == (var n := |token| + if mechListMic.Some? then |mechListMic.value| + 4 else 0;
             [0xA1, n + 11] + ([0x30, n + 9] + (([0xA0, 0x03] + [0x0a, 0x01, 0x01])
             + ([0xA2, |token| + 2] + ([0x04, |token|] + token))
             + if mechListMic.None? then [] else
                 [0xA3, |mechListMic.value| + 2] + ([0x04, |mechListMic.value|] + mechListMic.value))))
  {
    ShortField(2, token);
    assert ContextTag(0) == 0xA0 && ContextTag(1) == 0xA1;
    ShortTlv(0xA0, [0x0a, 0x01, 0x01]);
    var mic: Bytes := [];
    if mechListMic.Some? {
      ShortField(3, mechListMic.value);
      mic := EncodeContext(3, EncodeOctetString(mechListMic.value));
    }
    hide EncodeTlv, ContextTag, EncodeOctetString;
    var fields := EncodeContext(0, [0x0a, 0x01, 0x01]) + EncodeContext(2, EncodeOctetString(token)) + mic;
    ShortTlv(0x30, fields);
    ShortTlv(0xA1, EncodeSequence(fields));
  }

  /** The token comes back from the initial SPNEGO message. */
  lemma SpnegoInitRoundTrip(token: Bytes)
    requires |EncodeSpnegoInit(token)| < U24
    ensures DecodeSpnegoToken(EncodeSpnegoInit(token)) == Ok(token)
  {
    hide EncodeTlv, ReadTlv, EncodeItems, TokenOf, FindContextTag, ContextTag;
    var first := EncodeSequence(NTLM_OID);
    var fields := EncodeContext(0, first) + EncodeContext(2, EncodeOctetString(token));
    NoItems();
    assert fields + [] == fields;
    var init := EncodeSequence(fields);
    var wrapped := EncodeContext(0, init);
    WholeTlv(0x60, SPNEGO_OID + wrapped);
    SpnegoOid(wrapped);
    assert (SPNEGO_OID + wrapped)[8..] == wrapped;
    OnlyItem(0, init);
    TokenFound(first, token, []);
  }

  lemma SpnegoOid(rest: Bytes)
    ensures ReadTlv(SPNEGO_OID + rest) == Ok(Tlv(0x06, SPNEGO_OID[2..], 8))
  {
    assert SPNEGO_OID == EncodeTlv(0x06, SPNEGO_OID[2..]);
    TlvRoundTrip(0x06, SPNEGO_OID[2..], rest);
  }

  /** The token comes back from the SPNEGO response, with or without a mechListMIC. */
  lemma SpnegoResponseRoundTrip(token: Bytes, mechListMic: Option<Bytes>)
    requires |EncodeSpnegoResponse(token, mechListMic)| < U24
    ensures DecodeSpnegoToken(EncodeSpnegoResponse(token, mechListMic)) == Ok(token)
  {
    assert ContextTag(1) == 0xA1;
    hide EncodeTlv, ReadTlv, EncodeItems, TokenOf, ContextTag;
    var more := Optional(3, OctetString(mechListMic));
    if mechListMic.Some? {
      OneItem(more[0]);
    } else {
      NoItems();
    }
    var contents := EncodeContext(0, [0x0a, 0x01, 0x01]) + EncodeContext(2, EncodeOctetString(token))
      + EncodeItems(more);
    WholeTlv(0xA1, EncodeSequence(contents));
    TokenFound([0x0a, 0x01, 0x01], token, more);
  }

  /** A message of another kind is refused, whatever it holds and whatever follows. */
  lemma OtherMessagesRefused(tag: Byte, contents: Bytes, rest: Bytes)
    requires |contents| < U24
    ensures tag != 0x30 ==> DecodeTsRequest(EncodeTlv(tag, contents) + rest) == Err(WrongTag(0x30, tag))
    ensures tag !in {0x60, 0xA1} ==> DecodeSpnegoToken(EncodeTlv(tag, contents) + rest) == Err(WrongTag(0x60, tag))
  {
    hide ReadTlv, EncodeTlv;
    TlvRoundTrip(tag, contents, rest);
  }

  lemma ContextTags()
    ensures ContextTag(1) == 0xA1 && ContextTag(2) == 0xA2
  {
  }

  /** A response without a token field is refused, and one whose token field holds something else. */
  lemma ResponseWithoutToken(items: seq<Item>)
    requires |EncodeContext(1, EncodeSequence(EncodeItems(items)))| < U24
    ensures DecodeSpnegoToken(EncodeContext(1, EncodeSequence(EncodeItems(items))))
         == match FirstMatch(items, 0xA2)
            case None => Err(NoToken)
            case Some(token) => DecodeOctetString(token)
  {
    ContextTags();
    hide EncodeTlv, ReadTlv, ContextTag, TokenOf, FirstMatch, EncodeItems, DecodeOctetString;
    WholeTlv(0xA1, EncodeSequence(EncodeItems(items)));
    TokenOfItems(items);
  }

  /** In an initial message whatever stands first is skipped as the OID; the first field 0 behind it is opened. */
  lemma InitContents(oid: Item, items: seq<Item>)
    requires |EncodeItems([oid] + items)| < U24
    ensures DecodeSpnegoToken(EncodeTlv(0x60, EncodeItems([oid] + items)))
         == match FirstMatch(items, 0xA0)
            case None => Err(NoToken)
            case Some(init) => TokenOf(init)
  {
    assert ContextTag(0) == 0xA0;
    hide EncodeTlv, ReadTlv, ContextTag, FirstMatch, FindItem, TokenOf;
    var contents, behind := EncodeItems([oid] + items), EncodeItems(items);
    WholeTlv(0x60, contents);
    OneItem(oid);
    EncodeItemsSum([oid], items);
    ItemsFit([oid] + items);
    assert ([oid] + items)[0] == oid && forall item | item in items :: item in [oid] + items;
    hide EncodeItems;
    var first := EncodeTlv(oid.tag, oid.contents);
    TlvRoundTrip(oid.tag, oid.contents, behind);
    assert (first + behind)[|first|..] == behind;
    FindFirstMatch(items, [], 0xA0);
    assert behind + [] == behind;
    NothingFound(0xA0);
  }

  /** An initial message whose first item cannot be read is refused for its OID. */
  lemma UnreadableOid(contents: Bytes)
    requires |contents| < U24 && ReadTlv(contents).Err?
    ensures DecodeSpnegoToken(EncodeTlv(0x60, contents)) == Err(BadOid)
  {
    hide EncodeTlv, ReadTlv;
    WholeTlv(0x60, contents);
  }
}
