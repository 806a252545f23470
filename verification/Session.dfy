/**
 NTLM session security of `NtlmSession`: the pure protocol of one direction, and the class whose
 methods change both directions in place.
 */
module Session {
  import opened Bytes
  import opened Primitives
  import opened Rc4

  type Seq32 = x: int | 0 <= x < U32 witness 0

  /** One direction of a session: its signing key, next sequence number and cipher position. */
  datatype Half = Half(signKey: Digest, seqNum: Seq32, cipher: Cipher)

  /** A session as one party sees it: it sends on `client` and receives on `server`. */
  datatype State = State(client: Half, server: Half)

  datatype UnsealError = TooShort | BadVersion | BadSequence | BadChecksum

  const SIGNATURE_LEN := 16

  /** The peer's session: the two directions change places. */
  function Mirror(st: State): State {
    State(st.server, st.client)
  }

  /** A sequence number `k` messages later: 32-bit addition wraps. */
  function SeqPlus(n: Seq32, k: nat): Seq32 {
    (n + k) % U32
  }

  lemma SeqPlusZero(n: Seq32)
    ensures SeqPlus(n, 0) == n
  {
  }

  lemma SeqPlusSum(n: Seq32, a: nat, b: nat)
    ensures SeqPlus(SeqPlus(n, a), b) == SeqPlus(n, a + b)
  {
  }

  /** Fewer than 2^32 messages apart, sequence numbers differ. */
  lemma SeqPlusDiffers(n: Seq32, a: nat, b: nat)
    requires a < b < a + U32
    ensures SeqPlus(n, a) != SeqPlus(n, b)
  {
  }

  /** A direction moved on by `count` sequence numbers and `used` keystream bytes. */
  function Moved(h: Half, count: nat, used: nat): Half {
    Half(h.signKey, SeqPlus(h.seqNum, count), Advance(h.cipher, used))
  }

  lemma MovedZero(h: Half)
    ensures Moved(h, 0, 0) == h
  {
  }

  lemma MovedSum(h: Half, count: nat, used: nat, count': nat, used': nat)
    ensures Moved(Moved(h, count, used), count', used') == Moved(h, count + count', used + used')
  {
    hide SeqPlus, Advance;
    SeqPlusSum(h.seqNum, count, count');
    AdvanceSum(h.cipher, used, used');
  }

  /** A direction after a message of `n` bytes, signature included. */
  function AfterMessage(h: Half, n: nat): Half {
    Moved(h, 1, n + 8)
  }

  function Checksum(p: Primitives, h: Half, plaintext: Bytes): (c: Bytes)
    ensures |c| == 8
  {
    p.hmacMd5(h.signKey, LeBytes(h.seqNum, 4) + plaintext)[..8]
  }

  /** The signature of `plaintext` once `skip` keystream bytes have gone to the payload. */
  function Signature(p: Primitives, h: Half, plaintext: Bytes, skip: nat): (s: Bytes)
    ensures |s| == SIGNATURE_LEN
  {
    LeBytes(1, 4) + Crypt(Advance(h.cipher, skip), Checksum(p, h, plaintext)) + LeBytes(h.seqNum, 4)
  }

  function SealMessage(p: Primitives, h: Half, plaintext: Bytes): (sealed: Bytes)
    ensures |sealed| == SIGNATURE_LEN + |plaintext|
  {
    Signature(p, h, plaintext, |plaintext|) + Crypt(h.cipher, plaintext)
  }

  /** The header checks that come before any keystream byte is used. */
  function HeaderError(h: Half, sealed: Bytes): Option<UnsealError> {
    if |sealed| < SIGNATURE_LEN then Some(TooShort)
    else if LeValue(sealed[..4]) != 1 then Some(BadVersion)
    else if LeValue(sealed[12..16]) != h.seqNum then Some(BadSequence)
    else None
  }

  /** Unsealing on a receiving direction: the outcome and the direction afterwards. */
  function UnsealMessage(p: Primitives, h: Half, sealed: Bytes): (r: (Result<Bytes, UnsealError>, Half)) {
    if HeaderError(h, sealed).Some? then (Err(HeaderError(h, sealed).value), h) else
      var plaintext := Crypt(h.cipher, sealed[SIGNATURE_LEN..]);
      var position := Advance(h.cipher, |plaintext|);
      var h' := h.(cipher := Advance(position, 8));
      if Crypt(position, sealed[4..12]) != Checksum(p, h, plaintext)
      then (Err(BadChecksum), h')
      else (Ok(plaintext), h'.(seqNum := SeqPlus(h.seqNum, 1)))
  }

  function DeriveKey(p: Primitives, sessionKey: Digest, magic: string): Digest {
    p.md5(sessionKey + Ascii(magic))
  }

  function FromKey(p: Primitives, sessionKey: Digest): State {
    State(
      Half(DeriveKey(p, sessionKey, "session key to client-to-server signing key magic constant\0"), 0,
           Init(DeriveKey(p, sessionKey, "session key to client-to-server sealing key magic constant\0"))),
      Half(DeriveKey(p, sessionKey, "session key to server-to-client signing key magic constant\0"), 0,
           Init(DeriveKey(p, sessionKey, "session key to server-to-client sealing key magic constant\0"))))
  }

  /** The fields of a sealed message, where the receiver reads them. */
  lemma SealedFields(p: Primitives, h: Half, plaintext: Bytes)
    ensures var sealed := SealMessage(p, h, plaintext);
            && LeValue(sealed[..4]) == 1
            && sealed[4..12]
               == Crypt(Advance(h.cipher, |plaintext|), p.hmacMd5(h.signKey, LeBytes(h.seqNum, 4) + plaintext)[..8])
            && LeValue(sealed[12..16]) == h.seqNum
            && sealed[SIGNATURE_LEN..] == Crypt(h.cipher, plaintext)
  {
    hide Crypt, Advance, LeBytes, LeValue;
    var checksum := Crypt(Advance(h.cipher, |plaintext|), Checksum(p, h, plaintext));
    var signature := Signature(p, h, plaintext, |plaintext|);
    ThreeFields(signature, LeBytes(1, 4), checksum, LeBytes(h.seqNum, 4));
    Le32(1);
    Le32(h.seqNum);
    SliceLeft(signature, Crypt(h.cipher, plaintext), 0, 4);
    SliceLeft(signature, Crypt(h.cipher, plaintext), 4, 12);
    SliceLeft(signature, Crypt(h.cipher, plaintext), 12, 16);
  }

  /** What `seal` produces, a receiver at the same position accepts, and both move on alike. */
  lemma SealThenUnseal(p: Primitives, h: Half, plaintext: Bytes)
    ensures UnsealMessage(p, h, SealMessage(p, h, plaintext)) == (Ok(plaintext), AfterMessage(h, |plaintext|))
  {
    hide Crypt, Advance, LeValue, LeBytes;
    SealedFields(p, h, plaintext);
    hide SealMessage;
    CryptInverse(h.cipher, plaintext);
    AdvanceSum(h.cipher, |plaintext|, 8);
    CryptInverse(Advance(h.cipher, |plaintext|), Checksum(p, h, plaintext));
  }

  /** Four bytes hold the value `n` exactly when they are its encoding. */
  lemma FourBytes(b: Bytes, n: Seq32)
    requires |b| == 4
    ensures LeValue(b) == n <==> b == LeBytes(n, 4)
  {
    hide LeBytes, LeValue;
    Le32(n);
    LeUnique(b);
  }

  /** For one direction and one ciphertext, exactly one 16-byte signature is accepted. */
  lemma AcceptedSignature(p: Primitives, h: Half, signature: Bytes, ciphertext: Bytes)
    requires |signature| == SIGNATURE_LEN
    ensures UnsealMessage(p, h, signature + ciphertext).0.Ok?
       <==> signature == Signature(p, h, Crypt(h.cipher, ciphertext), |ciphertext|)
  {
    hide Crypt, Advance, Checksum, LeValue, LeBytes;
    var sealed := signature + ciphertext;
    var plaintext := Crypt(h.cipher, ciphertext);
    var position := Advance(h.cipher, |ciphertext|);
    assert sealed[SIGNATURE_LEN..] == ciphertext;
    SliceLeft(signature, ciphertext, 0, 4);
    SliceLeft(signature, ciphertext, 4, 12);
    SliceLeft(signature, ciphertext, 12, 16);
    FourBytes(signature[..4], 1);
    FourBytes(signature[12..16], h.seqNum);
    CryptInverse(position, signature[4..12]);
    CryptInverse(position, Checksum(p, h, plaintext));
    ThreeFields(signature, LeBytes(1, 4), Crypt(position, Checksum(p, h, plaintext)), LeBytes(h.seqNum, 4));
  }

  lemma ThreeFields(signature: Bytes, version: Bytes, checksum: Bytes, seqNum: Bytes)
    requires |signature| == SIGNATURE_LEN && |version| == 4 && |checksum| == 8 && |seqNum| == 4
    ensures signature == version + checksum + seqNum
       <==> signature[..4] == version && signature[4..12] == checksum && signature[12..16] == seqNum
  {
    assert signature == signature[..4] + signature[4..12] + signature[12..16];
    var all := version + checksum + seqNum;
    assert all[..4] == version && all[4..12] == checksum && all[12..16] == seqNum;
  }

  /** Two different inputs under one key whose checksums are the same. */
  ghost predicate Collision(p: Primitives, key: Digest, x: Bytes, y: Bytes) {
    x != y && p.hmacMd5(key, x)[..8] == p.hmacMd5(key, y)[..8]
  }

  /** The input of the checksum of a message (MS-NLMP section 3.4.4.2). */
  function MacInput(h: Half, message: Bytes): Bytes {
    LeBytes(h.seqNum, 4) + message
  }

  lemma MacInputsDiffer(h: Half, x: Bytes, y: Bytes)
    requires x != y
    ensures MacInput(h, x) != MacInput(h, y)
  {
    hide LeBytes;
    assert MacInput(h, x)[4..] == x && MacInput(h, y)[4..] == y;
  }

  /** An accepted message carries, under the keystream behind its payload, the checksum of its plaintext. */
  lemma AcceptedChecksum(p: Primitives, h: Half, sealed: Bytes)
    requires UnsealMessage(p, h, sealed).0.Ok?
    ensures |sealed| >= SIGNATURE_LEN
    ensures var ciphertext := sealed[SIGNATURE_LEN..];
            && UnsealMessage(p, h, sealed).0 == Ok(Crypt(h.cipher, ciphertext))
            && Crypt(Advance(h.cipher, |ciphertext|), sealed[4..12])
               == p.hmacMd5(h.signKey, MacInput(h, Crypt(h.cipher, ciphertext)))[..8]
  {
    hide Crypt, Advance, LeValue, LeBytes;
  }

  /**
   A signature covers its ciphertext: one that is accepted with two ciphertexts of the same length is a
   collision of the keyed hash.
   */
  lemma TamperEvident(p: Primitives, h: Half, signature: Bytes, c: Bytes, c': Bytes)
    requires |signature| == SIGNATURE_LEN && |c| == |c'| && c != c'
    requires UnsealMessage(p, h, signature + c).0.Ok? && UnsealMessage(p, h, signature + c').0.Ok?
    ensures Collision(p, h.signKey, MacInput(h, Crypt(h.cipher, c)), MacInput(h, Crypt(h.cipher, c')))
  {
    AcceptedChecksum(p, h, signature + c);
    AcceptedChecksum(p, h, signature + c');
    CryptInverse(h.cipher, c);
    CryptInverse(h.cipher, c');
    hide UnsealMessage, Crypt, Advance, LeBytes;
    assert (signature + c)[SIGNATURE_LEN..] == c && (signature + c')[SIGNATURE_LEN..] == c';
    SliceLeft(signature, c, 4, 12);
    SliceLeft(signature, c', 4, 12);
    MacInputsDiffer(h, Crypt(h.cipher, c), Crypt(h.cipher, c'));
  }

  /** A detached signature covers its data: two different data with one signature are a collision. */
  lemma SignCoversData(p: Primitives, h: Half, data: Bytes, data': Bytes)
    requires data != data' && Signature(p, h, data, 0) == Signature(p, h, data', 0)
    ensures Collision(p, h.signKey, MacInput(h, data), MacInput(h, data'))
  {
    var s, s' := Signature(p, h, data, 0), Signature(p, h, data', 0);
    CryptInverse(Advance(h.cipher, 0), p.hmacMd5(h.signKey, MacInput(h, data))[..8]);
    CryptInverse(Advance(h.cipher, 0), p.hmacMd5(h.signKey, MacInput(h, data'))[..8]);
    MacInputsDiffer(h, data, data');
    hide Crypt, Advance, LeBytes;
    assert s[4..12] == Crypt(Advance(h.cipher, 0), p.hmacMd5(h.signKey, MacInput(h, data))[..8]);
    assert s'[4..12] == Crypt(Advance(h.cipher, 0), p.hmacMd5(h.signKey, MacInput(h, data'))[..8]);
  }

  /** Why a message is refused, and that nothing else is. */
  lemma RefusalReasons(p: Primitives, h: Half, sealed: Bytes)
    ensures var r := UnsealMessage(p, h, sealed).0;
            && (r == Err(TooShort) <==> |sealed| < 16)
            && (r == Err(BadVersion) <==> |sealed| >= 16 && LeValue(sealed[0..4]) != 1)
            && (r == Err(BadSequence) <==>
                  |sealed| >= 16 && LeValue(sealed[0..4]) == 1 && LeValue(sealed[12..16]) != h.seqNum)
  {
    hide Crypt, Advance, LeValue, LeBytes;
    if |sealed| >= 16 {
      assert sealed[0..4] == sealed[..4];
    }
  }

  /** SIGNKEY of MS-NLMP section 3.4.5.2. */
  function SignKey(p: Primitives, sessionKey: Digest, fromClient: bool): Digest {
    p.md5(sessionKey + Ascii(if fromClient then "session key to client-to-server signing key magic constant\0"
                             else "session key to server-to-client signing key magic constant\0"))
  }

  /** SEALKEY of MS-NLMP section 3.4.5.3, for 128-bit keys. */
  function SealKey(p: Primitives, sessionKey: Digest, fromClient: bool): Digest {
    p.md5(sessionKey + Ascii(if fromClient then "session key to client-to-server sealing key magic constant\0"
                             else "session key to server-to-client sealing key magic constant\0"))
  }

  /** The session that a server derives for itself. */
  function ServerSession(p: Primitives, sessionKey: Digest): State {
    State(Half(SignKey(p, sessionKey, false), 0, Init(SealKey(p, sessionKey, false))),
          Half(SignKey(p, sessionKey, true), 0, Init(SealKey(p, sessionKey, true))))
  }

  /** From one session key the server derives the mirror image of the client's session. */
  lemma ServerMirrors(p: Primitives, sessionKey: Digest)
    ensures ServerSession(p, sessionKey) == Mirror(FromKey(p, sessionKey))
  {
    hide Init, Ascii;
  }

  /** A message sealed at another sequence number is refused, and refusing leaves the receiver as it was. */
  lemma OutOfStepIsRefused(p: Primitives, rx: Half, tx: Half, plaintext: Bytes)
    requires tx.seqNum != rx.seqNum
    ensures UnsealMessage(p, rx, SealMessage(p, tx, plaintext)) == (Err(BadSequence), rx)
  {
    hide Crypt, Advance, Checksum, LeValue;
    SealedFields(p, tx, plaintext);
    hide SealMessage;
  }

  class NtlmSession {
    const primitives: Primitives
    const clientSignKey: Digest
    const serverSignKey: Digest
    var clientSeqNum: Seq32
    var serverSeqNum: Seq32
    const clientSealHandle: Rc4State
    const serverSealHandle: Rc4State

    ghost predicate Valid() {
      && clientSealHandle.Valid() && serverSealHandle.Valid()
      && clientSealHandle != serverSealHandle
      && clientSealHandle.s != serverSealHandle.s
    }

    ghost function View(): State
      requires Valid()
      reads this, clientSealHandle, clientSealHandle.s, serverSealHandle, serverSealHandle.s
    {
      State(Half(clientSignKey, clientSeqNum, clientSealHandle.View()),
            Half(serverSignKey, serverSeqNum, serverSealHandle.View()))
    }

    constructor FromAuth(p: Primitives, sessionKey: Digest)
      ensures Valid() && fresh(clientSealHandle) && fresh(serverSealHandle)
      ensures fresh(clientSealHandle.s) && fresh(serverSealHandle.s)
      ensures primitives == p && View() == FromKey(p, sessionKey)
    {
      primitives := p;
      var clientSealKey := DeriveKey(p, sessionKey, "session key to client-to-server sealing key magic constant\0");
      clientSignKey := DeriveKey(p, sessionKey, "session key to client-to-server signing key magic constant\0");
      var serverSealKey := DeriveKey(p, sessionKey, "session key to server-to-client sealing key magic constant\0");
      serverSignKey := DeriveKey(p, sessionKey, "session key to server-to-client signing key magic constant\0");
      clientSeqNum, serverSeqNum := 0, 0;
      clientSealHandle := new Rc4State(clientSealKey);
      serverSealHandle := new Rc4State(serverSealKey);
    }

    method Seal(plaintext: Bytes) returns (sealed: Bytes)
      requires Valid()
      modifies this`clientSeqNum, clientSealHandle, clientSealHandle.s
      ensures sealed == SealMessage(primitives, old(View()).client, plaintext)
      ensures View() == old(View()).(client := AfterMessage(old(View()).client, |plaintext|))
    {
      ghost var h := View().client;
      var checksum := primitives.hmacMd5(clientSignKey, LeBytes(clientSeqNum, 4) + plaintext)[..8];
      var ciphertext := Apply(clientSealHandle, plaintext);
      var checksum8 := Apply(clientSealHandle, checksum);
      sealed := LeBytes(1, 4) + checksum8 + LeBytes(clientSeqNum, 4);
      clientSeqNum := SeqPlus(clientSeqNum, 1);
      sealed := sealed + ciphertext;
      AdvanceSum(h.cipher, |plaintext|, 8);
    }

    /** A detached signature over `data`; the payload itself is not encrypted. */
    method Sign(data: Bytes) returns (signature: Bytes)
      requires Valid()
      modifies this`clientSeqNum, clientSealHandle, clientSealHandle.s
      ensures signature == Signature(primitives, old(View()).client, data, 0)
      ensures View() == old(View()).(client := AfterMessage(old(View()).client, 0))
    {
      var checksum := primitives.hmacMd5(clientSignKey, LeBytes(clientSeqNum, 4) + data)[..8];
      var checksum8 := Apply(clientSealHandle, checksum);
      signature := LeBytes(1, 4) + checksum8 + LeBytes(clientSeqNum, 4);
      clientSeqNum := SeqPlus(clientSeqNum, 1);
    }

    method Unseal(sealed: Bytes) returns (r: Result<Bytes, UnsealError>)
      requires Valid()
      modifies this`serverSeqNum, serverSealHandle, serverSealHandle.s
      ensures (r, View().server) == UnsealMessage(primitives, old(View()).server, sealed)
      ensures View().client == old(View()).client
    {
      if |sealed| < SIGNATURE_LEN {
        return Err(TooShort);
      }
      var signature, ciphertext := sealed[..SIGNATURE_LEN], sealed[SIGNATURE_LEN..];
      assert signature[..4] == sealed[..4] && signature[4..12] == sealed[4..12] && signature[12..16] == sealed[12..16];
      if LeValue(signature[..4]) != 1 {
        return Err(BadVersion);
      }
      if LeValue(signature[12..16]) != serverSeqNum {
        return Err(BadSequence);
      }
      var plaintext := Apply(serverSealHandle, ciphertext);
      var sigChecksum := Apply(serverSealHandle, signature[4..12]);
      var expected := primitives.hmacMd5(serverSignKey, LeBytes(serverSeqNum, 4) + plaintext);
      if sigChecksum != expected[..8] {
        return Err(BadChecksum);
      }
      serverSeqNum := SeqPlus(serverSeqNum, 1);
      return Ok(plaintext);
    }
  }

  /** `process` on a copy of `data`. */
  method Apply(rc4: Rc4State, data: Bytes) returns (out: Bytes)
    requires rc4.Valid()
    modifies rc4, rc4.s
    ensures rc4.View() == Advance(old(rc4.View()), |data|)
    ensures out == Crypt(old(rc4.View()), data)
  {
    var buffer := new Byte[|data|](k requires 0 <= k < |data| => data[k]);
    assert buffer[..] == data;
    rc4.Process(buffer);
    out := buffer[..];
  }
}
