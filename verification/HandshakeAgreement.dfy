/**
 The server's half of the handshake, and the agreement between the two: what the client builds, the
 server accepts, and both end with the same session key.
 */
module HandshakeAgreement {
  import opened Bytes
  import opened Primitives
  import opened Rc4
  import opened AvPairs
  import opened Handshake

  /** A CHALLENGE_MESSAGE as a server lays it out: fixed part, version, target name, target information. */
  function Challenge(targetName: Bytes, flags: Flags, nonce: Nonce, version: Nonce, list: Bytes): Bytes {
    NTLM_SIGNATURE + LeBytes(2, 4) + SecurityBuffer(|targetName|, 56) + LeBytes(flags, 4) + nonce + Zeros(8)
    + SecurityBuffer(|list|, 56 + |targetName|) + version + targetName + list
  }

  /** The payload that the security buffer at `at` points to. */
  function ReadBuffer(message: Bytes, at: nat): Option<Bytes>
    requires at + 8 <= |message|
  {
    var len, offset := LeValue(message[at..at + 2]), LeValue(message[at + 4..at + 8]);
    if offset + len <= |message| then Some(message[offset..offset + len]) else None
  }

  /** Where the integrity check stands, behind the version (MS-NLMP section 2.2.1.3). */
  const MIC_OFFSET := 72

  /** What a server stores of an account: its names and the NT hash of its password. */
  datatype Account = Account(username: string, ntHash: Digest, domain: string)

  /** What a client logs in with. */
  datatype Login = Login(username: string, password: string, domain: string)

  /** The account of a login: the NT hash is the MD4 of the password (NTOWFv1 of MS-NLMP section 3.3.1). */
  function Enrolled(p: Primitives, username: string, password: string, domain: string): Account {
    Account(username, p.md4(p.utf16(password)), domain)
  }

  function AccountOf(p: Primitives, login: Login): Account {
    Enrolled(p, login.username, login.password, login.domain)
  }

  /** NTOWFv2 of MS-NLMP section 3.3.2: keyed by the NT hash, over the upper-cased user name and the domain. */
  function ResponseKey(p: Primitives, account: Account): Digest {
    p.hmacMd5(account.ntHash, p.utf16(p.uppercase(account.username) + account.domain))
  }

  /** The session key a server accepts `message` with, for one account and one challenge it sent. */
  function Accept(p: Primitives, account: Account, nonce: Nonce, type1: Bytes, type2: Bytes,
                  message: Bytes): Option<Digest> {
    if |message| < 64 || message[..8] != NTLM_SIGNATURE || LeValue(message[8..12]) != 3 then None else
      match (ReadBuffer(message, 20), ReadBuffer(message, 28), ReadBuffer(message, 36), ReadBuffer(message, 52))
      case (Some(nt), Some(domain), Some(user), Some(sessionKey)) =>
        LeInRange(message[60..64]);
        RangeValues();
        if !Names(p, account, domain, user) then None
        else AcceptFields(p, account, nonce, type1, type2, message, LeValue(message[60..64]), nt, sessionKey)
      case _ => None
  }

  /** The message names the account it is checked against (MS-NLMP section 3.2.5.1.2). */
  predicate Names(p: Primitives, account: Account, domain: Bytes, user: Bytes) {
    domain == p.utf16(account.domain) && user == p.utf16(account.username)
  }

  /** The integrity check, where the server reads it, is that of this message. */
  predicate CheckHolds(p: Primitives, message: Bytes, key: Digest, type1: Bytes, type2: Bytes) {
    && MIC_OFFSET + 16 <= |message|
    && message[MIC_OFFSET..MIC_OFFSET + 16] == p.hmacMd5(key, type1 + type2 + Patched(message, MIC_OFFSET, Zeros(16)))
  }

  function AcceptFields(p: Primitives, account: Account, nonce: Nonce, type1: Bytes, type2: Bytes, message: Bytes,
                        flags: Flags, nt: Bytes, sessionKey: Bytes): Option<Digest> {
    var hash := ResponseKey(p, account);
    if |nt| < 16 + BLOB_HEADER_LEN || nt[16..18] != [1, 1] then None
    else if nt[..16] != p.hmacMd5(hash, nonce + nt[16..]) then None else
      var baseKey := p.hmacMd5(hash, nt[..16]);
      if HasBit(flags, KEY_EXCH_BIT) && |sessionKey| != 16 then None else
        var exported := if HasBit(flags, KEY_EXCH_BIT) then Crypt(Init(baseKey), sessionKey) else baseKey;
        if !MicAnnounced(Pairs(nt[16 + BLOB_HEADER_LEN..])) then Some(exported)
        else if HasBit(flags, VERSION_BIT) && CheckHolds(p, message, exported, type1, type2) then Some(exported)
        else None
  }

  /** The client reads from the server's challenge what the server put there. */
  lemma ChallengeRoundTrip(p: Primitives, targetName: Bytes, flags: Flags, nonce: Nonce, version: Nonce, list: Bytes)
    requires |targetName| < U16 && |list| < U16
    ensures ParseChallenge(p, Challenge(targetName, flags, nonce, version, list))
         == Ok(ChallengeMessage(nonce, flags, list, DomainOf(p, Pairs(list)), TimestampOf(Pairs(list))))
  {
    hide LeBytes, LeValue, Pairs;
    var data := Challenge(targetName, flags, nonce, version, list);
    assert data[..8] == NTLM_SIGNATURE;
    assert data[8..12] == LeBytes(2, 4);
    assert data[20..24] == LeBytes(flags, 4);
    assert data[24..32] == nonce;
    assert data[40..42] == LeBytes(|list|, 2);
    assert data[44..48] == LeBytes(56 + |targetName|, 4);
    var offset := 56 + |targetName|;
    assert data[offset..offset + |list|] == list;
    Le32(2);
    Le32(flags);
    Le16(|list|);
    Le32(offset);
  }

  /** Which messages the client refuses as a challenge, and why; and when it goes without target information. */
  lemma ChallengeReasons(p: Primitives, data: Bytes)
    ensures var r := ParseChallenge(p, data);
            && (r == Err(ChallengeTooShort) <==> |data| < 32)
            && (r == Err(BadSignature) <==> |data| >= 32 && data[0..8] != Ascii("NTLMSSP\0"))
            && (r.Ok? <==> |data| >= 32 && data[0..8] == Ascii("NTLMSSP\0") && LeValue(data[8..12]) == 2)
            && (r.Ok? ==>
                  r.value.targetInfo
                  == if |data| >= 48 && ReadBuffer(data, 40).Some? then ReadBuffer(data, 40).value else [])
  {
    hide LeValue, Pairs, DomainOf, TimestampOf;
    if |data| >= 32 {
      assert data[0..8] == data[..8];
    }
  }

  lemma {:induction false} BufferAt(fields: seq<Bytes>, o: nat, k: nat)
    requires k < |fields|
    ensures Buffers(fields, o)[8 * k..8 * k + 8] == SecurityBuffer(|fields[k]|, o + |Join(fields[..k])|)
  {
    hide SecurityBuffer;
    if k > 0 {
      BufferAt(fields[1..], o + |fields[0]|, k - 1);
      assert fields[..k][0] == fields[0] && fields[..k][1..] == fields[1..][..k - 1];
      SliceRight(SecurityBuffer(|fields[0]|, o), Buffers(fields[1..], o + |fields[0]|), 8 * k - 8, 8 * k);
    }
  }

  lemma {:induction false} PartAt(parts: seq<Bytes>, k: nat)
    requires k < |parts|
    ensures |Join(parts[..k])| + |parts[k]| <= |Join(parts)|
    ensures Join(parts)[|Join(parts[..k])|..|Join(parts[..k])| + |parts[k]|] == parts[k]
  {
    if k > 0 {
      PartAt(parts[1..], k - 1);
      assert parts[..k][0] == parts[0] && parts[..k][1..] == parts[1..][..k - 1];
      var o := |Join(parts[1..][..k - 1])|;
      SliceRight(parts[0], Join(parts[1..]), o, o + |parts[k]|);
    }
  }

  /** The fixed part and payload of a Type 3 message. */
  ghost predicate LaidOut(message: Bytes, fields: seq<Bytes>, flags: Flags, mic: bool)
    requires |fields| == 6
  {
    var size := HeaderSize(flags, mic);
    && |message| == size + |Join(fields)|
    && message[..8] == NTLM_SIGNATURE
    && message[8..12] == LeBytes(3, 4)
    && message[12..60] == Buffers(fields, size)
    && message[60..64] == LeBytes(flags, 4)
    && (HasBit(flags, VERSION_BIT) ==> message[64..72] == VERSION_FIELD)
    && message[size..] == Join(fields)
  }

  lemma UncheckedLaidOut(fields: seq<Bytes>, flags: Flags, mic: bool)
    requires |fields| == 6
    ensures LaidOut(Unchecked(fields, flags, mic), fields, flags, mic)
  {
    hide Buffers, LeBytes, Join, HasBit;
    var size := HeaderSize(flags, mic);
    var header := Header(fields, flags, mic);
    assert header[..8] == NTLM_SIGNATURE;
    assert header[8..12] == LeBytes(3, 4);
    assert header[12..60] == Buffers(fields, size);
    assert header[60..64] == LeBytes(flags, 4);
    assert HasBit(flags, VERSION_BIT) ==> header[64..72] == VERSION_FIELD;
    hide Header;
    SliceLeft(header, Join(fields), 0, 8);
    SliceLeft(header, Join(fields), 8, 12);
    SliceLeft(header, Join(fields), 12, 60);
    SliceLeft(header, Join(fields), 60, 64);
    if HasBit(flags, VERSION_BIT) {
      SliceLeft(header, Join(fields), 64, 72);
    }
  }

  /** Filling in the integrity check touches nothing else, and zeroing it again undoes it. */
  lemma PatchKeepsLayout(message: Bytes, fields: seq<Bytes>, flags: Flags, mic: Digest)
    requires |fields| == 6 && LaidOut(message, fields, flags, true)
    ensures LaidOut(Patched(message, MicPosition(flags), mic), fields, flags, true)
  {
    hide Buffers, LeBytes, Join, HasBit;
    var at, patched := MicPosition(flags), Patched(message, MicPosition(flags), mic);
    assert patched[..8] == message[..8];
    assert patched[8..12] == message[8..12];
    assert patched[12..60] == message[12..60];
    assert patched[60..64] == message[60..64];
    assert HasBit(flags, VERSION_BIT) ==> patched[64..72] == message[64..72];
    assert patched[at + 16..] == message[at + 16..];
  }

  lemma PatchTwice(message: Bytes, at: nat, mic: Digest)
    requires at + 16 <= |message| && message[at..at + 16] == Zeros(16)
    ensures Patched(message, at, mic)[at..at + 16] == mic
    ensures Patched(Patched(message, at, mic), at, Zeros(16)) == message
  {
    assert message == message[..at] + message[at..at + 16] + message[at + 16..];
  }

  lemma UncheckedZeros(fields: seq<Bytes>, flags: Flags)
    requires |fields| == 6
    ensures var at := MicPosition(flags); Unchecked(fields, flags, true)[at..at + 16] == Zeros(16)
  {
    hide Buffers, LeBytes, Join, HasBit;
    var at := MicPosition(flags);
    var header := Header(fields, flags, true);
    assert header[at..at + 16] == Zeros(16);
    hide Header;
    SliceLeft(header, Join(fields), at, at + 16);
  }

  /** In a message under 4 GiB a security buffer gives its field back exactly when the field fits 16 bits. */
  lemma BufferReadsBack(message: Bytes, fields: seq<Bytes>, flags: Flags, mic: bool, k: nat)
    requires |fields| == 6 && LaidOut(message, fields, flags, mic) && |message| < U32 && k < 6
    ensures ReadBuffer(message, 12 + 8 * k) == Some(fields[k]) <==> |fields[k]| < U16
  {
    hide HasBit, LeBytes, LeValue;
    var size, at := HeaderSize(flags, mic), 12 + 8 * k;
    var offset := size + |Join(fields[..k])|;
    BufferAt(fields, size, k);
    PartAt(fields, k);
    hide Buffers, Join;
    var buffer := SecurityBuffer(|fields[k]|, offset);
    SliceOfSlice(message, 12, 60, 8 * k, 8 * k + 8);
    SliceOfSlice(message, at, at + 8, 0, 2);
    SliceOfSlice(message, at, at + 8, 4, 8);
    assert buffer[0..2] == LeBytes(|fields[k]|, 2);
    assert buffer[4..8] == LeBytes(offset, 4);
    CutTo16(|fields[k]|);
    Le32(offset);
    SliceOfSlice(message, size, |message|, offset - size, offset - size + |fields[k]|);
    assert message[size..] == message[size..|message|];
  }

  /** The list that the client sends back, with the zeros behind it, as the server reads it. */
  function SentPairs(p: Primitives, c: ChallengeMessage, r: Request): seq<AvPair> {
    Pairs(Rewritten(p, c.targetInfo, r.channelBindings, r.micInput.Some?, r.targetName) + Zeros(4))
  }

  /** Every payload field fits its 16-bit length. */
  ghost predicate ShortFields(p: Primitives, c: ChallengeMessage, r: Request, m: Machine) {
    forall field | field in Fields(Respond(p, c, r, m)) :: |field| < U16
  }

  /** The request describes its own message, and every field fits. The challenge may be anything. */
  ghost predicate Proper(p: Primitives, c: ChallengeMessage, r: Request, m: Machine) {
    && (r.withKeyExch <==> HasBit(r.flags, KEY_EXCH_BIT))
    && (r.micInput.Some? ==> HasBit(r.flags, VERSION_BIT))
    && ShortFields(p, c, r, m)
  }

  /** The domain shown in the message is encoded as the one that was hashed. */
  predicate ShowsItsDomain(p: Primitives, r: Request) {
    p.utf16(if r.displayDomain.Some? then r.displayDomain.value else r.domain) == p.utf16(r.domain)
  }

  /** The list that is sent back announces an integrity check only if the message holds a right one. */
  predicate KeepsItsPromise(p: Primitives, c: ChallengeMessage, r: Request, m: Machine, type1: Bytes, type2: Bytes) {
    r.micInput.None? && MicAnnounced(SentPairs(p, c, r)) ==>
      var (message, key) := Authenticate(p, c, r, m);
      HasBit(r.flags, VERSION_BIT) && CheckHolds(p, message, key, type1, type2)
  }

  /** Every message the client builds is laid out as its fields demand, integrity check or not. */
  lemma AuthenticateLaidOut(p: Primitives, c: ChallengeMessage, r: Request, m: Machine)
    ensures LaidOut(Authenticate(p, c, r, m).0, Fields(Respond(p, c, r, m)), r.flags, r.micInput.Some?)
  {
    hide Respond, Header, Buffers, Join, LaidOut;
    var a := Respond(p, c, r, m);
    UncheckedLaidOut(Fields(a), r.flags, r.micInput.Some?);
    if r.micInput.Some? {
      var message := Unchecked(Fields(a), r.flags, true);
      PatchKeepsLayout(message, Fields(a), r.flags,
        p.hmacMd5(a.exported, r.micInput.value.0 + r.micInput.value.1 + message));
    }
  }

  /**
   The six payload fields lie end to end behind the header, and in a message under 4 GiB the server
   reads field `k` back exactly when it is shorter than 2^16 bytes.
   */
  lemma FieldsReadBack(p: Primitives, c: ChallengeMessage, r: Request, m: Machine)
    ensures var message := Authenticate(p, c, r, m).0;
            var size := HeaderSize(r.flags, r.micInput.Some?);
            size <= |message| && message[size..] == Join(Fields(Respond(p, c, r, m)))
    ensures var message := Authenticate(p, c, r, m).0;
            var fields := Fields(Respond(p, c, r, m));
            |message| < U32 ==>
              forall k: nat | k < 6 :: ReadBuffer(message, 12 + 8 * k) == Some(fields[k]) <==> |fields[k]| < U16
  {
    hide Respond, Authenticate, Buffers, Join;
    AuthenticateLaidOut(p, c, r, m);
    var message, fields := Authenticate(p, c, r, m).0, Fields(Respond(p, c, r, m));
    if |message| < U32 {
      forall k: nat | k < 6
        ensures ReadBuffer(message, 12 + 8 * k) == Some(fields[k]) <==> |fields[k]| < U16
      {
        BufferReadsBack(message, fields, r.flags, r.micInput.Some?, k);
      }
    }
  }

  /**
   When the server's list is pairs up to its last four bytes, the list in the client's blob announces an
   integrity check exactly when the message has one or the server's list announced one already.
   */
  lemma MicAnnouncedRight(p: Primitives, c: ChallengeMessage, pairs: seq<AvPair>, r: Request, rest: Bytes)
    requires AllFit(pairs) && Stripped(c.targetInfo) == WriteAll(pairs)
    requires r.micInput.Some? && r.targetName.Some? ==> |p.utf16(r.targetName.value)| < U16
    ensures var info := Rewritten(p, c.targetInfo, r.channelBindings, r.micInput.Some?, r.targetName);
            MicAnnounced(Pairs(info + rest)) <==> r.micInput.Some? || MicAnnounced(pairs)
  {
    hide Pairs, Rewritten, LeBytes, LeValue, WriteAll, Stripped;
    RewrittenPairs(p, pairs, c.targetInfo, r.channelBindings, r.micInput.Some?, r.targetName, rest);
    var added := Injected(p, r.channelBindings, r.micInput.Some?, r.targetName);
    if r.micInput.Some? {
      Le32(AV_FLAG_MIC);
      assert added[|added| - 1] == AvPair(AV_FLAGS, LeBytes(AV_FLAG_MIC, 4));
      assert (pairs + added)[|pairs + added| - 1] in pairs + added;
    } else {
      assert forall pair | pair in pairs + added :: pair in pairs || pair.id == AV_CHANNEL_BINDINGS;
      assert forall pair | pair in pairs :: pair in pairs + added;
    }
  }

  /** A list for which that fails: a pair whose length runs past the end hides the flags behind it. */
  lemma MalformedListHidesFlags(p: Primitives)
    ensures var list := [2, 0, 255, 255] + Zeros(4);
            !MicAnnounced(Pairs(Rewritten(p, list, None, true, None)))
  {
    hide LeBytes;
    var list: Bytes := [2, 0, 255, 255] + Zeros(4);
    var info := Rewritten(p, list, None, true, None);
    assert Stripped(list) == [2, 0, 255, 255];
    var flags := AvPair(AV_FLAGS, LeBytes(AV_FLAG_MIC, 4));
    assert Injected(p, None, true, None) == [flags];
    WriteAllSnoc([], flags);
    assert [] + [flags] == [flags];
    assert |info| == 16 && info[2..4] == [255, 255];
    assert info[2..4][1..] == [255] && info[2..4][1..][1..] == [];
    assert LeValue(info[2..4][1..]) == 255;
    assert LeValue(info[2..4]) == 0xFFFF;
  }

  /** The response, as the server cuts it up. */
  lemma ResponseParts(p: Primitives, c: ChallengeMessage, r: Request, m: Machine)
    ensures var nt := Respond(p, c, r, m).nt;
            var hash := ResponseKey(p, Enrolled(p, r.username, r.password, r.domain));
            var info := Rewritten(p, c.targetInfo, r.channelBindings, r.micInput.Some?, r.targetName);
            && |nt| >= 16 + BLOB_HEADER_LEN && nt[16..18] == [1, 1]
            && nt[..16] == p.hmacMd5(hash, c.serverChallenge + nt[16..])
            && nt[16 + BLOB_HEADER_LEN..] == info + Zeros(4)
  {
    hide Rewritten, Init, Crypt;
    var info := Rewritten(p, c.targetInfo, r.channelBindings, r.micInput.Some?, r.targetName);
    var blob := Blob(if c.timestamp.Some? then c.timestamp.value else m.filetime, m.clientChallenge, info);
    var nt := Respond(p, c, r, m).nt;
    assert nt[16..] == blob && nt[16..18] == blob[..2];
    assert nt[16 + BLOB_HEADER_LEN..] == blob[BLOB_HEADER_LEN..] == info + Zeros(4);
  }

  /** The server unwraps the session key that the client exported. */
  lemma KeyUnwraps(p: Primitives, c: ChallengeMessage, r: Request, m: Machine)
    ensures var a := Respond(p, c, r, m);
            var baseKey := p.hmacMd5(ResponseKey(p, Enrolled(p, r.username, r.password, r.domain)), a.nt[..16]);
            if r.withKeyExch
            then |a.sessionKey| == 16 && Crypt(Init(baseKey), a.sessionKey) == a.exported == m.randomKey
            else a.exported == baseKey
  {
    hide Rewritten, Init, Crypt, Blob;
    var a := Respond(p, c, r, m);
    var baseKey := p.hmacMd5(ResponseKey(p, Enrolled(p, r.username, r.password, r.domain)), a.nt[..16]);
    CryptInverse(Init(baseKey), m.randomKey);
  }

  /**
   For any challenge, the sixteen bytes of the integrity check are the HMAC, under the exported key, of the
   two messages before and of this message with those bytes zeroed.
   */
  lemma CheckCoversMessage(p: Primitives, c: ChallengeMessage, r: Request, m: Machine)
    requires r.micInput.Some?
    ensures var (message, key) := Authenticate(p, c, r, m);
            var ((type1, type2), at) := (r.micInput.value, MicPosition(r.flags));
            && at + 16 <= |message|
            && message[at..at + 16] == p.hmacMd5(key, type1 + type2 + Patched(message, at, Zeros(16)))
    ensures MicPosition(r.flags) == MIC_OFFSET <==> HasBit(r.flags, VERSION_BIT)
  {
    hide Respond, Unchecked, HasBit;
    var a, at := Respond(p, c, r, m), MicPosition(r.flags);
    var message := Unchecked(Fields(a), r.flags, true);
    UncheckedZeros(Fields(a), r.flags);
    UncheckedLaidOut(Fields(a), r.flags, true);
    PatchTwice(message, at, p.hmacMd5(a.exported, r.micInput.value.0 + r.micInput.value.1 + message));
  }

  /** A message with an integrity check passes it, when its flags say that a version stands before it. */
  lemma CheckRight(p: Primitives, c: ChallengeMessage, r: Request, m: Machine)
    requires r.micInput.Some? && HasBit(r.flags, VERSION_BIT)
    ensures var (message, key) := Authenticate(p, c, r, m);
            CheckHolds(p, message, key, r.micInput.value.0, r.micInput.value.1)
  {
    CheckCoversMessage(p, c, r, m);
    hide Authenticate, HasBit, MicPosition, Patched;
  }

  lemma FieldsAccepted(p: Primitives, c: ChallengeMessage, r: Request, m: Machine, type1: Bytes, type2: Bytes)
    requires Proper(p, c, r, m)
    requires r.micInput.Some? ==> r.micInput.value == (type1, type2)
    ensures var (message, key) := Authenticate(p, c, r, m);
            var a := Respond(p, c, r, m);
            AcceptFields(p, Enrolled(p, r.username, r.password, r.domain), c.serverChallenge, type1, type2, message,
                         r.flags, a.nt, a.sessionKey)
            == if KeepsItsPromise(p, c, r, m, type1, type2) then Some(key) else None
  {
    hide Respond, Unchecked, Rewritten, Pairs, HasBit, Crypt, Init, NtlmV2Hash, MicAnnounced, CheckHolds, ShortFields;
    var a := Respond(p, c, r, m);
    ResponseParts(p, c, r, m);
    KeyUnwraps(p, c, r, m);
    assert a.exported == Authenticate(p, c, r, m).1;
    if r.micInput.Some? {
      CheckRight(p, c, r, m);
    }
    hide Authenticate;
  }

  lemma {:induction false} JoinBound(parts: seq<Bytes>)
    requires forall part | part in parts :: |part| < U16
    ensures |Join(parts)| <= U16 * |parts|
  {
    if parts != [] {
      JoinBound(parts[1..]);
      assert parts[0] in parts;
    }
  }

  lemma SizeOfLaidOut(message: Bytes, fields: seq<Bytes>, flags: Flags, mic: bool)
    requires |fields| == 6 && LaidOut(message, fields, flags, mic)
    ensures |message| <= 88 + |Join(fields)|
  {
  }

  lemma LaidOutHeader(message: Bytes, fields: seq<Bytes>, flags: Flags, mic: bool)
    requires |fields| == 6 && LaidOut(message, fields, flags, mic)
    ensures |message| >= 64 && message[..8] == NTLM_SIGNATURE
    ensures LeValue(message[8..12]) == 3 && LeValue(message[60..64]) == flags
  {
    hide LeValue, LeBytes;
    Le32(3);
    Le32(flags);
  }

  /** On a message laid out from short fields the server works with those fields. */
  lemma AcceptReadsFields(p: Primitives, account: Account, nonce: Nonce, type1: Bytes, type2: Bytes, message: Bytes,
                          fields: seq<Bytes>, flags: Flags, mic: bool)
    requires |fields| == 6 && LaidOut(message, fields, flags, mic) && |message| < U32
    requires forall field | field in fields :: |field| < U16
    ensures Accept(p, account, nonce, type1, type2, message)
         == if Names(p, account, fields[2], fields[3])
            then AcceptFields(p, account, nonce, type1, type2, message, flags, fields[1], fields[5]) else None
  {
    hide AcceptFields, Names, LaidOut, LeValue, ReadBuffer;
    LaidOutHeader(message, fields, flags, mic);
    assert fields[1] in fields && fields[2] in fields && fields[3] in fields && fields[5] in fields;
    BufferReadsBack(message, fields, flags, mic, 1);
    BufferReadsBack(message, fields, flags, mic, 2);
    BufferReadsBack(message, fields, flags, mic, 3);
    BufferReadsBack(message, fields, flags, mic, 5);
  }

  lemma ShownNames(p: Primitives, c: ChallengeMessage, r: Request, m: Machine)
    ensures var fields := Fields(Respond(p, c, r, m));
            Names(p, Enrolled(p, r.username, r.password, r.domain), fields[2], fields[3]) <==> ShowsItsDomain(p, r)
  {
    hide Rewritten, Init, Crypt, Blob, NtlmV2Hash;
  }

  /** The fixed bytes of the blob in a response (MS-NLMP section 2.2.2.7). */
  lemma BlobFields(p: Primitives, c: ChallengeMessage, r: Request, m: Machine)
    ensures var nt := Respond(p, c, r, m).nt;
            && |nt| >= 44 && nt[16..18] == [1, 1] && nt[18..24] == Zeros(6)
            && nt[24..32] == (if c.timestamp.Some? then c.timestamp.value else m.filetime)
            && nt[32..40] == m.clientChallenge && nt[40..44] == Zeros(4)
  {
    hide Rewritten, Init, Crypt;
    var info := Rewritten(p, c.targetInfo, r.channelBindings, r.micInput.Some?, r.targetName);
    var nt := Respond(p, c, r, m).nt;
    var time := if c.timestamp.Some? then c.timestamp.value else m.filetime;
    BlobSlices(nt[..16], time, m.clientChallenge, info);
    assert nt == nt[..16] + Blob(time, m.clientChallenge, info);
  }

  lemma BlobSlices(proof: Bytes, time: Nonce, clientChallenge: Nonce, info: Bytes)
    requires |proof| == 16
    ensures var nt := proof + Blob(time, clientChallenge, info);
            && nt[16..18] == [1, 1] && nt[18..24] == Zeros(6) && nt[24..32] == time
            && nt[32..40] == clientChallenge && nt[40..44] == Zeros(4)
  {
  }

  lemma AnswerFields(p: Primitives, c: ChallengeMessage, r: Request, m: Machine)
    ensures var fields := Fields(Respond(p, c, r, m));
            var hash := ResponseKey(p, Enrolled(p, r.username, r.password, r.domain));
            && fields[0] == (if r.micInput.Some? then Zeros(24)
                             else p.hmacMd5(hash, c.serverChallenge + m.clientChallenge) + m.clientChallenge)
            && fields[2] == p.utf16(if r.displayDomain.Some? then r.displayDomain.value else r.domain)
            && fields[3] == p.utf16(r.username)
            && fields[4]
               == (if r.micInput.Some? && m.hostname.Some? then p.utf16(p.uppercase(m.hostname.value)) else [])
            && |fields[5]| == if r.withKeyExch then 16 else 0
  {
    hide Rewritten, Init, Crypt, Blob;
  }

  /** With short fields the server reads each of the six. */
  lemma ShortFieldsRead(p: Primitives, c: ChallengeMessage, r: Request, m: Machine)
    requires ShortFields(p, c, r, m)
    ensures var (message, fields) := (Authenticate(p, c, r, m).0, Fields(Respond(p, c, r, m)));
            && |message| >= 64
            && ReadBuffer(message, 12) == Some(fields[0]) && ReadBuffer(message, 20) == Some(fields[1])
            && ReadBuffer(message, 28) == Some(fields[2]) && ReadBuffer(message, 36) == Some(fields[3])
            && ReadBuffer(message, 44) == Some(fields[4]) && ReadBuffer(message, 52) == Some(fields[5])
  {
    hide Authenticate, Respond, LaidOut, ReadBuffer, HasBit, Join;
    var message, fields := Authenticate(p, c, r, m).0, Fields(Respond(p, c, r, m));
    AuthenticateLaidOut(p, c, r, m);
    JoinBound(fields);
    SizeOfLaidOut(message, fields, r.flags, r.micInput.Some?);
    LaidOutHeader(message, fields, r.flags, r.micInput.Some?);
    FieldsReadBack(p, c, r, m);
    hide Fields;
    var read := (k: nat) requires k < 6 => ReadBuffer(message, 12 + 8 * k);
    assert forall field | field in fields :: |field| < U16;
    assert read(0) == Some(fields[0]) && read(1) == Some(fields[1]) && read(2) == Some(fields[2]);
    assert read(3) == Some(fields[3]) && read(4) == Some(fields[4]) && read(5) == Some(fields[5]);
  }

  /**
   The NTLMv2 response in a message carries the version bytes, the server's time or the machine's, and the
   client challenge where MS-NLMP section 2.2.2.7 puts them.
   */
  lemma ResponseInMessage(p: Primitives, c: ChallengeMessage, r: Request, m: Machine)
    requires ShortFields(p, c, r, m)
    ensures var message := Authenticate(p, c, r, m).0;
            && |message| >= 64 && ReadBuffer(message, 20).Some?
            && var nt := ReadBuffer(message, 20).value;
               && |nt| >= 44 && nt[16..18] == [1, 1] && nt[18..24] == Zeros(6)
               && nt[24..32] == (if c.timestamp.Some? then c.timestamp.value else m.filetime)
               && nt[32..40] == m.clientChallenge && nt[40..44] == Zeros(4)
  {
    ShortFieldsRead(p, c, r, m);
    BlobFields(p, c, r, m);
    hide Authenticate, Respond, ReadBuffer, ShortFields;
  }

  /**
   The other fields in a message: the LM response of MS-NLMP section 3.3.2, or zeros beside an integrity
   check; the domain to show; the user name; the upper-cased workstation beside an integrity check; and a
   wrapped key of sixteen bytes or none.
   */
  lemma FieldsInMessage(p: Primitives, c: ChallengeMessage, r: Request, m: Machine)
    requires ShortFields(p, c, r, m)
    ensures var message := Authenticate(p, c, r, m).0;
            var hash := ResponseKey(p, Enrolled(p, r.username, r.password, r.domain));
            && |message| >= 64
            && ReadBuffer(message, 12) == Some(if r.micInput.Some? then Zeros(24)
                 else p.hmacMd5(hash, c.serverChallenge + m.clientChallenge) + m.clientChallenge)
            && ReadBuffer(message, 28)
               == Some(p.utf16(if r.displayDomain.Some? then r.displayDomain.value else r.domain))
            && ReadBuffer(message, 36) == Some(p.utf16(r.username))
            && ReadBuffer(message, 44) == Some(if r.micInput.Some? && m.hostname.Some?
                                               then p.utf16(p.uppercase(m.hostname.value)) else [])
            && ReadBuffer(message, 52).Some? && |ReadBuffer(message, 52).value| == (if r.withKeyExch then 16 else 0)
  {
    ShortFieldsRead(p, c, r, m);
    AnswerFields(p, c, r, m);
    hide Authenticate, Respond, ReadBuffer, ShortFields, ResponseKey, Enrolled;
  }

  /** Each length is written twice, and the version stands behind the flags. */
  lemma HeaderOfMessage(p: Primitives, c: ChallengeMessage, r: Request, m: Machine)
    ensures var message := Authenticate(p, c, r, m).0;
            && |message| >= 64
            && (forall k: nat | k < 6 :: message[12 + 8 * k..14 + 8 * k] == message[14 + 8 * k..16 + 8 * k])
            && (HasBit(r.flags, 25) ==> |message| >= 72 && message[64..72] == [0, 12, 1, 0, 0, 0, 0, 15])
  {
    var message, fields := Authenticate(p, c, r, m).0, Fields(Respond(p, c, r, m));
    AuthenticateLaidOut(p, c, r, m);
    hide Authenticate, Respond, LaidOut, HasBit, Fields;
    VersionStands(message, fields, r.flags, r.micInput.Some?);
    forall k: nat | k < 6
      ensures message[12 + 8 * k..14 + 8 * k] == message[14 + 8 * k..16 + 8 * k]
    {
      LengthTwice(message, fields, r.flags, r.micInput.Some?, k);
    }
  }

  lemma VersionStands(message: Bytes, fields: seq<Bytes>, flags: Flags, mic: bool)
    requires |fields| == 6 && LaidOut(message, fields, flags, mic)
    ensures |message| >= 64 && (HasBit(flags, 25) ==> |message| >= 72 && message[64..72] == [0, 12, 1, 0, 0, 0, 0, 15])
  {
    hide HasBit;
  }

  lemma LengthTwice(message: Bytes, fields: seq<Bytes>, flags: Flags, mic: bool, k: nat)
    requires |fields| == 6 && LaidOut(message, fields, flags, mic) && k < 6
    ensures |message| >= 60 && message[12 + 8 * k..14 + 8 * k] == message[14 + 8 * k..16 + 8 * k]
  {
    var size := HeaderSize(flags, mic);
    HeaderBuffers(message, fields, flags, mic);
    BufferAt(fields, size, k);
    hide LaidOut, HeaderSize, HasBit, LeBytes, Buffers, Join, SecurityBuffer;
    BufferTwice(|fields[k]|, size + |Join(fields[..k])|);
    SliceOfSlice(message, 12, 60, 8 * k, 8 * k + 8);
    HalvesOf(message, 12 + 8 * k);
  }

  lemma HeaderBuffers(message: Bytes, fields: seq<Bytes>, flags: Flags, mic: bool)
    requires |fields| == 6 && LaidOut(message, fields, flags, mic)
    ensures |message| >= 60 && message[12..60] == Buffers(fields, HeaderSize(flags, mic))
  {
    hide HasBit, LeBytes, Buffers, Join;
  }

  lemma HalvesOf(message: Bytes, at: nat)
    requires at + 8 <= |message| && message[at..at + 8][0..2] == message[at..at + 8][2..4]
    ensures message[at..at + 2] == message[at + 2..at + 4]
  {
    SliceOfSlice(message, at, at + 8, 0, 2);
    SliceOfSlice(message, at, at + 8, 2, 4);
  }

  lemma BufferTwice(length: nat, offset: nat)
    ensures SecurityBuffer(length, offset)[0..2] == SecurityBuffer(length, offset)[2..4]
  {
    hide LeBytes;
    var buffer := SecurityBuffer(length, offset);
    assert buffer[0..2] == LeBytes(length, 2);
    assert buffer[2..4] == LeBytes(length, 2);
  }

  /** User names that are equal in upper case give the same response and the same keys. */
  lemma UserNameCase(p: Primitives, c: ChallengeMessage, r: Request, m: Machine, username: string)
    requires p.uppercase(username) == p.uppercase(r.username)
    ensures var (a, b) := (Respond(p, c, r, m), Respond(p, c, r.(username := username), m));
            a.nt == b.nt && a.lm == b.lm && a.sessionKey == b.sessionKey && a.exported == b.exported
  {
    hide Rewritten, Init, Crypt, Blob;
  }

  /**
   Handshake agreement: for any challenge, credentials and random values the server accepts the client's
   message exactly when it shows the domain it hashed and keeps what its list announces, and then derives
   the session key that the client returned.
   */
  lemma HandshakeAgrees(p: Primitives, c: ChallengeMessage, r: Request, m: Machine, type1: Bytes, type2: Bytes)
    requires Proper(p, c, r, m)
    requires r.micInput.Some? ==> r.micInput.value == (type1, type2)
    ensures var (message, key) := Authenticate(p, c, r, m);
            Accept(p, Enrolled(p, r.username, r.password, r.domain), c.serverChallenge, type1, type2, message)
            == if ShowsItsDomain(p, r) && KeepsItsPromise(p, c, r, m, type1, type2) then Some(key) else None
  {
    var message, fields := Authenticate(p, c, r, m).0, Fields(Respond(p, c, r, m));
    FieldsAccepted(p, c, r, m, type1, type2);
    ShownNames(p, c, r, m);
    AuthenticateLaidOut(p, c, r, m);
    JoinBound(fields);
    hide Respond, Authenticate, AcceptFields, LaidOut, Accept, Join, Names, ShowsItsDomain, KeepsItsPromise;
    assert |message| < U32 by {
      SizeOfLaidOut(message, fields, r.flags, r.micInput.Some?);
    }
    hide Proper;
    AcceptReadsFields(p, Enrolled(p, r.username, r.password, r.domain), c.serverChallenge, type1, type2,
                      message, fields, r.flags, r.micInput.Some?);
  }

  /** The session entry point with an integrity check agrees with the server on every challenge. */
  lemma CheckedSessionAgrees(p: Primitives, c: ChallengeMessage, m: Machine, login: Login, targetName: string,
                             type1: Bytes, type2: Bytes)
    requires ShortFields(p, c, CheckedRequest(c, login, targetName, type1, type2), m)
    ensures var (message, key) := Authenticate(p, c, CheckedRequest(c, login, targetName, type1, type2), m);
            Accept(p, AccountOf(p, login), c.serverChallenge, type1, type2, message) == Some(key)
  {
    EntryPointFlags(c, login.username, login.password, login.domain, None, Some((type1, type2)),
                    Some(targetName), "", [], []);
    hide HasBit, SetBit, Authenticate, Accept, SentPairs, ShortFields;
    HandshakeAgrees(p, c, CheckedRequest(c, login, targetName, type1, type2), m, type1, type2);
  }

  function CheckedRequest(c: ChallengeMessage, login: Login, targetName: string, type1: Bytes,
                          type2: Bytes): Request {
    SessionRequest(c, login.username, login.password, login.domain, None, Some((type1, type2)), Some(targetName))
  }

  /** The entry point with channel bindings: no integrity check, no target name. */
  function BoundRequest(c: ChallengeMessage, login: Login, bindings: Digest): Request {
    SessionRequest(c, login.username, login.password, login.domain, Some(bindings), None, None)
  }

  /**
   The CredSSP entry point shows an empty domain: on every challenge the server accepts it exactly when the
   domain that was hashed is encoded like the empty one.
   */
  lemma CredSspAgrees(p: Primitives, c: ChallengeMessage, m: Machine, login: Login, spn: string,
                      type1: Bytes, type2: Bytes)
    requires var (username, password, domain) := (login.username, login.password, login.domain);
             ShortFields(p, c, CredSspRequest(c, username, password, domain, spn, type1, type2), m)
    ensures var (username, password, domain) := (login.username, login.password, login.domain);
            var r := CredSspRequest(c, username, password, domain, spn, type1, type2);
            var (message, key) := Authenticate(p, c, r, m);
            Accept(p, AccountOf(p, login), c.serverChallenge, type1, type2, message)
            == if p.utf16(domain) == p.utf16("") then Some(key) else None
  {
    EntryPointFlags(c, login.username, login.password, login.domain, None, None, None, spn, type1, type2);
    hide HasBit, SetBit, Authenticate, Accept, SentPairs, ShortFields;
    var r := CredSspRequest(c, login.username, login.password, login.domain, spn, type1, type2);
    HandshakeAgrees(p, c, r, m, type1, type2);
  }

  /**
   The entry point with channel bindings sends no integrity check: on every challenge the server accepts it
   exactly when the list that is sent back announces none, or the bytes of the LM response that stand where
   the check would be happen to be right.
   */
  lemma BoundSessionAgrees(p: Primitives, c: ChallengeMessage, m: Machine, login: Login, bindings: Digest,
                           type1: Bytes, type2: Bytes)
    requires ShortFields(p, c, BoundRequest(c, login, bindings), m)
    ensures var r := BoundRequest(c, login, bindings);
            var (message, key) := Authenticate(p, c, r, m);
            Accept(p, AccountOf(p, login), c.serverChallenge, type1, type2, message)
            == if MicAnnounced(SentPairs(p, c, r)) && !CheckHolds(p, message, key, type1, type2)
               then None else Some(key)
  {
    EntryPointFlags(c, login.username, login.password, login.domain, Some(bindings), None, None, "", [], []);
    hide HasBit, SetBit, Authenticate, Accept, SentPairs, ShortFields, CheckHolds;
    HandshakeAgrees(p, c, BoundRequest(c, login, bindings), m, type1, type2);
  }

  /** The whole exchange: the client reads the server's own challenge, whatever list it carries, and answers it. */
  lemma ExchangeAgrees(p: Primitives, targetName: Bytes, flags: Flags, nonce: Nonce, version: Nonce, list: Bytes,
                       r: Request, m: Machine, type1: Bytes)
    requires |targetName| < U16 && |list| < U16
    requires var type2 := Challenge(targetName, flags, nonce, version, list);
             var parsed := ParseChallenge(p, type2);
             && (parsed.Ok? ==> Proper(p, parsed.value, r, m))
             && (r.micInput.Some? ==> r.micInput.value == (type1, type2))
    ensures var type2 := Challenge(targetName, flags, nonce, version, list);
            var parsed := ParseChallenge(p, type2);
            && parsed.Ok?
            && var (message, key) := Authenticate(p, parsed.value, r, m);
               Accept(p, Enrolled(p, r.username, r.password, r.domain), nonce, type1, type2, message)
               == if ShowsItsDomain(p, r) && KeepsItsPromise(p, parsed.value, r, m, type1, type2)
                  then Some(key) else None
  {
    ChallengeRoundTrip(p, targetName, flags, nonce, version, list);
    hide ParseChallenge, Challenge, Authenticate, Accept, Proper, ShowsItsDomain, KeepsItsPromise;
    var type2 := Challenge(targetName, flags, nonce, version, list);
    HandshakeAgrees(p, ParseChallenge(p, type2).value, r, m, type1, type2);
  }
}
