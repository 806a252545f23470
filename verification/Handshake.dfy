/**
 The NTLM messages of a handshake (MS-NLMP section 2.2.1): reading the server's challenge and building the
 client's answer.
 */
module Handshake {
  import opened Bytes
  import opened Primitives
  import opened Rc4
  import opened AvPairs

  type Flags = x: int | 0 <= x < U32 witness 0
  type Nonce = b: Bytes | |b| == 8 witness Zeros(8)

  const NTLM_SIGNATURE := Ascii("NTLMSSP\0")
  const SIGN_BIT := 4
  const SEAL_BIT := 5
  const VERSION_BIT := 25
  const KEY_EXCH_BIT := 30
  const VERSION_FIELD: Bytes := [0, 12, 1, 0, 0, 0, 0, 15]

  datatype ChallengeMessage = ChallengeMessage(
    serverChallenge: Nonce, negotiateFlags: Flags, targetInfo: Bytes, targetDomain: string, timestamp: Option<Nonce>)

  datatype ChallengeError = ChallengeTooShort | BadSignature | WrongType(messageType: nat)

  /** `parse_challenge`: the target information is empty when its buffer lies outside the message. */
  function ParseChallenge(p: Primitives, data: Bytes): Result<ChallengeMessage, ChallengeError> {
    if |data| < 32 then Err(ChallengeTooShort)
    else if data[..8] != NTLM_SIGNATURE then Err(BadSignature)
    else if LeValue(data[8..12]) != 2 then Err(WrongType(LeValue(data[8..12])))
    else
      LeInRange(data[20..24]);
      RangeValues();
      var len := if |data| >= 48 then LeValue(data[40..42]) else 0;
      var offset := if |data| >= 48 then LeValue(data[44..48]) else 0;
      var list := if |data| >= 48 && offset + len <= |data| then data[offset..offset + len] else [];
      Ok(ChallengeMessage(data[24..32], LeValue(data[20..24]), list, DomainOf(p, Pairs(list)),
        TimestampOf(Pairs(list))))
  }

  function SecurityBuffer(length: nat, offset: nat): (b: Bytes)
    ensures |b| == 8
  {
    LeBytes(length, 2) + LeBytes(length, 2) + LeBytes(offset, 4)
  }

  /** What the caller wants the answer to prove. */
  datatype Request = Request(
    username: string, password: string, domain: string, channelBindings: Option<Digest>,
    flags: Flags, withKeyExch: bool, micInput: Option<(Bytes, Bytes)>, targetName: Option<string>,
    displayDomain: Option<string>)

  function WithBit(n: nat, bit: nat): nat
    decreases bit
  {
    if bit == 0 then (if n % 2 == 1 then n else n + 1) else n % 2 + 2 * WithBit(n / 2, bit - 1)
  }

  lemma {:induction false} WithBitFits(n: nat, bit: nat, width: nat)
    requires bit < width && n < PowerOfTwo(width)
    ensures WithBit(n, bit) < PowerOfTwo(width)
    decreases bit
  {
    var half := PowerOfTwo(width - 1);
    assert PowerOfTwo(width) == 2 * half;
    hide PowerOfTwo;
    if bit > 0 {
      Halves(n, WithBit(n / 2, bit - 1), half);
      WithBitFits(n / 2, bit - 1, width - 1);
    }
  }

  lemma Halves(n: nat, m: nat, half: nat)
    ensures n < 2 * half ==> n / 2 < half
    ensures m < half ==> n % 2 + 2 * m < 2 * half
  {
  }

  /** Setting one bit of a number sets that bit and keeps every other. */
  lemma {:induction false} WithBitSets(n: nat, bit: nat, other: nat)
    ensures HasBit(WithBit(n, bit), other) <==> other == bit || HasBit(n, other)
    decreases bit
  {
    if bit > 0 && other > 0 {
      WithBitSets(n / 2, bit - 1, other - 1);
    }
  }

  lemma Power32()
    ensures PowerOfTwo(32) == U32
  {
    assert PowerOfTwo(32) == 256 * PowerOfTwo(24) by { EightMore(24); }
    EightMore(16);
    EightMore(8);
    EightMore(0);
  }

  lemma EightMore(n: nat)
    ensures PowerOfTwo(n + 8) == 256 * PowerOfTwo(n)
  {
    assert PowerOfTwo(n + 8) == 2 * PowerOfTwo(n + 7) == 4 * PowerOfTwo(n + 6)
        == 8 * PowerOfTwo(n + 5) == 16 * PowerOfTwo(n + 4);
    assert PowerOfTwo(n + 4) == 2 * PowerOfTwo(n + 3) == 4 * PowerOfTwo(n + 2) == 8 * PowerOfTwo(n + 1);
  }

  /** `flags | 1 << bit`. */
  function SetBit(flags: Flags, bit: nat): Flags
    requires bit < 32
  {
    Power32();
    WithBitFits(flags, bit, 32);
    WithBit(flags, bit)
  }

  /** What the machine supplies: randomness, the clock and the host name. */
  datatype Machine = Machine(clientChallenge: Nonce, filetime: Nonce, randomKey: Digest, hostname: Option<string>)

  function NtlmV2Hash(p: Primitives, username: string, password: string, domain: string): Digest {
    p.hmacMd5(p.md4(p.utf16(password)), p.utf16(p.uppercase(username) + domain))
  }

  /** What the session entry points ask for: the server's flags with key exchange and version added. */
  function SessionRequest(c: ChallengeMessage, username: string, password: string, domain: string,
                          channelBindings: Option<Digest>, micInput: Option<(Bytes, Bytes)>,
                          targetName: Option<string>): Request {
    var flags := SetBit(SetBit(c.negotiateFlags, KEY_EXCH_BIT), VERSION_BIT);
    Request(username, password, domain, channelBindings, flags, HasBit(flags, KEY_EXCH_BIT), micInput, targetName, None)
  }

  /** What the CredSSP entry point asks for. */
  function CredSspRequest(c: ChallengeMessage, username: string, password: string, domain: string, spn: string,
                          type1: Bytes, type2: Bytes): Request {
    var flags := SetBit(SetBit(SetBit(SetBit(c.negotiateFlags, KEY_EXCH_BIT), SEAL_BIT), SIGN_BIT), VERSION_BIT);
    Request(username, password, domain, None, flags, true, Some((type1, type2)), Some(spn), Some(""))
  }

  /**
   The flags of the entry points: the server's own and, besides, key exchange (30) and version (25), for
   CredSSP also signing (4) and sealing (5); and the key is wrapped, as they say.
   */
  lemma EntryPointFlags(c: ChallengeMessage, username: string, password: string, domain: string,
                        channelBindings: Option<Digest>, micInput: Option<(Bytes, Bytes)>, targetName: Option<string>,
                        spn: string, type1: Bytes, type2: Bytes)
    ensures var r := SessionRequest(c, username, password, domain, channelBindings, micInput, targetName);
            && r.withKeyExch
            && forall bit: nat :: HasBit(r.flags, bit) <==> bit == 25 || bit == 30 || HasBit(c.negotiateFlags, bit)
    ensures var r := CredSspRequest(c, username, password, domain, spn, type1, type2);
            && r.withKeyExch
            && forall bit: nat :: HasBit(r.flags, bit) <==>
                 bit == 4 || bit == 5 || bit == 25 || bit == 30 || HasBit(c.negotiateFlags, bit)
  {
    hide HasBit, WithBit;
    var f := c.negotiateFlags;
    var keyed := SetBit(f, KEY_EXCH_BIT);
    var sealing := SetBit(keyed, SEAL_BIT);
    var signing := SetBit(sealing, SIGN_BIT);
    forall bit: nat
      ensures HasBit(keyed, bit) <==> bit == 30 || HasBit(f, bit)
      ensures HasBit(SetBit(keyed, VERSION_BIT), bit) <==> bit == 25 || HasBit(keyed, bit)
      ensures HasBit(sealing, bit) <==> bit == 5 || HasBit(keyed, bit)
      ensures HasBit(signing, bit) <==> bit == 4 || HasBit(sealing, bit)
      ensures HasBit(SetBit(signing, VERSION_BIT), bit) <==> bit == 25 || HasBit(signing, bit)
    {
      WithBitSets(f, KEY_EXCH_BIT, bit);
      WithBitSets(keyed, VERSION_BIT, bit);
      WithBitSets(keyed, SEAL_BIT, bit);
      WithBitSets(sealing, SIGN_BIT, bit);
      WithBitSets(signing, VERSION_BIT, bit);
    }
  }

  const BLOB_HEADER_LEN := 28

  /** The NTLMv2 client blob. */
  function Blob(timestamp: Nonce, clientChallenge: Nonce, targetInfo: Bytes): (b: Bytes)
    ensures |b| == BLOB_HEADER_LEN + |targetInfo| + 4
  {
    [1, 1] + Zeros(6) + timestamp + clientChallenge + Zeros(4) + targetInfo + Zeros(4)
  }

  /** The six payload fields of the answer, and the key it exports. */
  datatype Answer = Answer(lm: Bytes, nt: Bytes, domain: Bytes, user: Bytes, workstation: Bytes, sessionKey: Bytes,
                           exported: Digest)

  function Respond(p: Primitives, c: ChallengeMessage, r: Request, m: Machine): Answer {
    var hash := NtlmV2Hash(p, r.username, r.password, r.domain);
    var timestamp := if c.timestamp.Some? then c.timestamp.value else m.filetime;
    var info := Rewritten(p, c.targetInfo, r.channelBindings, r.micInput.Some?, r.targetName);
    var blob := Blob(timestamp, m.clientChallenge, info);
    var proof := p.hmacMd5(hash, c.serverChallenge + blob);
    var baseKey := p.hmacMd5(hash, proof);
    Answer(
      if r.micInput.Some? then Zeros(24)
        else p.hmacMd5(hash, c.serverChallenge + m.clientChallenge) + m.clientChallenge,
      proof + blob,
      p.utf16(if r.displayDomain.Some? then r.displayDomain.value else r.domain),
      p.utf16(r.username),
      if r.micInput.Some? && m.hostname.Some? then p.utf16(p.uppercase(m.hostname.value)) else [],
      if r.withKeyExch then Crypt(Init(baseKey), m.randomKey) else [],
      if r.withKeyExch then m.randomKey else baseKey)
  }

  function Fields(a: Answer): (f: seq<Bytes>)
    ensures |f| == 6
  {
    [a.lm, a.nt, a.domain, a.user, a.workstation, a.sessionKey]
  }

  /** One security buffer for each field, the payloads laid end to end from `offset`. */
  function Buffers(fields: seq<Bytes>, offset: nat): (b: Bytes)
    ensures |b| == 8 * |fields|
  {
    if fields == [] then [] else SecurityBuffer(|fields[0]|, offset) + Buffers(fields[1..], offset + |fields[0]|)
  }

  function MicPosition(flags: Flags): nat {
    64 + if HasBit(flags, VERSION_BIT) then 8 else 0
  }

  function HeaderSize(flags: Flags, mic: bool): nat {
    MicPosition(flags) + if mic then 16 else 0
  }

  /** The message before its integrity check is filled in. */
  function Header(fields: seq<Bytes>, flags: Flags, mic: bool): (b: Bytes)
    requires |fields| == 6
    ensures |b| == HeaderSize(flags, mic)
  {
    NTLM_SIGNATURE + LeBytes(3, 4) + Buffers(fields, HeaderSize(flags, mic)) + LeBytes(flags, 4)
    + (if HasBit(flags, VERSION_BIT) then VERSION_FIELD else []) + (if mic then Zeros(16) else [])
  }

  function Unchecked(fields: seq<Bytes>, flags: Flags, mic: bool): Bytes
    requires |fields| == 6
  {
    Header(fields, flags, mic) + Join(fields)
  }

  /** `message` with the sixteen bytes at `position` replaced. */
  function Patched(message: Bytes, position: nat, mic: Bytes): (b: Bytes)
    requires |mic| == 16 && position + 16 <= |message|
    ensures |b| == |message|
  {
    message[..position] + mic + message[position + 16..]
  }

  /** The Type 3 message and the exported session key. */
  function Authenticate(p: Primitives, c: ChallengeMessage, r: Request, m: Machine): (Bytes, Digest) {
    var a := Respond(p, c, r, m);
    var message := Unchecked(Fields(a), r.flags, r.micInput.Some?);
    (match r.micInput
     case None => message
     case Some((type1, type2)) =>
       Patched(message, MicPosition(r.flags), p.hmacMd5(a.exported, type1 + type2 + message)),
     a.exported)
  }

  method WriteSecurityBuffer(buf: Bytes, length: nat, offset: nat) returns (out: Bytes)
    ensures out == buf + SecurityBuffer(length, offset)
  {
    hide LeBytes;
    out := buf + LeBytes(length, 2);
    out := out + LeBytes(length, 2);
    out := out + LeBytes(offset, 4);
  }

  /** The fields of the answer, computed in the order the client computes them. */
  method PrepareAnswer(p: Primitives, c: ChallengeMessage, r: Request, m: Machine) returns (a: Answer)
    ensures a == Respond(p, c, r, m)
  {
    hide Crypt, Init, Rewritten;
    var ntHash := p.md4(p.utf16(r.password));
    var ntlmv2Hash := p.hmacMd5(ntHash, p.utf16(p.uppercase(r.username) + r.domain));
    var timestamp := if c.timestamp.Some? then c.timestamp.value else m.filetime;
    var targetInfo := RewriteTargetInfo(p, c.targetInfo, r.channelBindings, r.micInput.Some?, r.targetName);
    var blob := Blob(timestamp, m.clientChallenge, targetInfo);
    var ntProofStr := p.hmacMd5(ntlmv2Hash, c.serverChallenge + blob);
    var keyExchangeKey := p.hmacMd5(ntlmv2Hash, ntProofStr);
    var exported, encrypted := keyExchangeKey, [];
    if r.withKeyExch {
      var rc4 := new Rc4State(keyExchangeKey);
      var buffer := new Byte[16](k requires 0 <= k < 16 => m.randomKey[k]);
      assert buffer[..] == m.randomKey;
      rc4.Process(buffer);
      exported, encrypted := m.randomKey, buffer[..];
    }
    var lm := Zeros(24);
    if r.micInput.None? {
      lm := p.hmacMd5(ntlmv2Hash, c.serverChallenge + m.clientChallenge);
      lm := lm + m.clientChallenge;
    }
    var workstation := [];
    if r.micInput.Some? && m.hostname.Some? {
      workstation := p.utf16(p.uppercase(m.hostname.value));
    }
    a := Answer(lm, ntProofStr + blob, p.utf16(if r.displayDomain.Some? then r.displayDomain.value else r.domain),
                p.utf16(r.username), workstation, encrypted, exported);
  }

  /** Header and payload with the integrity check left zero, and where the check goes. */
  method LayOut(a: Answer, flags: Flags, includeMic: bool) returns (message: Bytes, micPos: nat)
    ensures message == Unchecked(Fields(a), flags, includeMic) && micPos == MicPosition(flags)
  {
    hide SecurityBuffer, LeBytes, HasBit;
    var includeVersion := HasBit(flags, VERSION_BIT);
    var headerSize := 64 + (if includeVersion then 8 else 0) + (if includeMic then 16 else 0);
    var offset := headerSize;
    message := NTLM_SIGNATURE + LeBytes(3, 4);
    message := WriteSecurityBuffer(message, |a.lm|, offset);
    offset := offset + |a.lm|;
    message := WriteSecurityBuffer(message, |a.nt|, offset);
    offset := offset + |a.nt|;
    message := WriteSecurityBuffer(message, |a.domain|, offset);
    offset := offset + |a.domain|;
    message := WriteSecurityBuffer(message, |a.user|, offset);
    offset := offset + |a.user|;
    message := WriteSecurityBuffer(message, |a.workstation|, offset);
    offset := offset + |a.workstation|;
    message := WriteSecurityBuffer(message, |a.sessionKey|, offset);
    SixBuffers(a, headerSize);
    hide Buffers;
    assert message == NTLM_SIGNATURE + LeBytes(3, 4) + Buffers(Fields(a), headerSize);
    message := message + LeBytes(flags, 4);
    if includeVersion {
      message := message + VERSION_FIELD;
    }
    micPos := |message|;
    if includeMic {
      message := message + Zeros(16);
    }
    assert message == Header(Fields(a), flags, includeMic);
    hide Header;
    message := message + a.lm;
    message := message + a.nt;
    message := message + a.domain;
    message := message + a.user;
    message := message + a.workstation;
    message := message + a.sessionKey;
    SixPayloads(Header(Fields(a), flags, includeMic), a);
  }

  /** `create_authenticate_message_full`. */
  method CreateAuthenticateMessage(p: Primitives, c: ChallengeMessage, r: Request, m: Machine)
    returns (message: Bytes, exportedSessionKey: Digest)
    ensures (message, exportedSessionKey) == Authenticate(p, c, r, m)
  {
    var a := PrepareAnswer(p, c, r, m);
    hide Respond, HasBit, Header;
    var micPos;
    message, micPos := LayOut(a, r.flags, r.micInput.Some?);
    if r.micInput.Some? {
      var (type1, type2) := r.micInput.value;
      var mic := p.hmacMd5(a.exported, type1 + type2 + message);
      message := message[..micPos] + mic + message[micPos + 16..];
    }
    exportedSessionKey := a.exported;
  }

  lemma SixBuffers(a: Answer, o: nat)
    ensures Buffers(Fields(a), o)
         == SecurityBuffer(|a.lm|, o)
          + SecurityBuffer(|a.nt|, o + |a.lm|)
          + SecurityBuffer(|a.domain|, o + |a.lm| + |a.nt|)
          + SecurityBuffer(|a.user|, o + |a.lm| + |a.nt| + |a.domain|)
          + SecurityBuffer(|a.workstation|, o + |a.lm| + |a.nt| + |a.domain| + |a.user|)
          + SecurityBuffer(|a.sessionKey|, o + |a.lm| + |a.nt| + |a.domain| + |a.user| + |a.workstation|)
  {
    hide SecurityBuffer, Buffers;
    var f := Fields(a);
    FirstBuffer(f, o);
    FirstBuffer(f[1..], o + |a.lm|);
    FirstBuffer(f[2..], o + |a.lm| + |a.nt|);
    FirstBuffer(f[3..], o + |a.lm| + |a.nt| + |a.domain|);
    FirstBuffer(f[4..], o + |a.lm| + |a.nt| + |a.domain| + |a.user|);
    FirstBuffer(f[5..], o + |a.lm| + |a.nt| + |a.domain| + |a.user| + |a.workstation|);
    assert f[1..][1..] == f[2..] && f[2..][1..] == f[3..] && f[3..][1..] == f[4..] && f[4..][1..] == f[5..];
  }

  lemma FirstBuffer(fields: seq<Bytes>, o: nat)
    requires fields != []
    ensures Buffers(fields, o) == SecurityBuffer(|fields[0]|, o) + Buffers(fields[1..], o + |fields[0]|)
    ensures |fields| == 1 ==> Buffers(fields, o) == SecurityBuffer(|fields[0]|, o)
  {
  }

  lemma SixPayloads(header: Bytes, a: Answer)
    ensures header + a.lm + a.nt + a.domain + a.user + a.workstation + a.sessionKey == header + Join(Fields(a))
  {
    var f := Fields(a);
    hide Join;
    FirstPart(f);
    FirstPart(f[1..]);
    FirstPart(f[2..]);
    FirstPart(f[3..]);
    FirstPart(f[4..]);
    FirstPart(f[5..]);
    assert f[1..][1..] == f[2..] && f[2..][1..] == f[3..] && f[3..][1..] == f[4..] && f[4..][1..] == f[5..];
  }

  lemma FirstPart(parts: seq<Bytes>)
    requires parts != []
    ensures Join(parts) == parts[0] + Join(parts[1..])
    ensures |parts| == 1 ==> Join(parts) == parts[0]
  {
  }
}
