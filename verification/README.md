# A verified model of the WinRM client's wire protocols

The client talks to Windows hosts over WinRM. This project models the code that builds and reads its
messages and keeps its session state, and proves what the two ends of each protocol can rely on:

- **NTLM session security**: the RC4 cipher (`Rc4.dfy`), a session's `seal`, `sign` and `unseal`
  (`Session.dfy`), two parties over FIFO links and one party reading arbitrary input (`Channel.dfy`), and
  the multipart framing of sealed bodies (`Multipart.dfy`, over `Search.dfy`).
- **The NTLM handshake**: AV_PAIR lists (`AvPairs.dfy`), the Type 2 reader and Type 3 builder
  (`Handshake.dfy`), and a server that reads what the client wrote (`HandshakeAgreement.dfy`).
- **PSRP**: fragments and messages (`Fragments.dfy`), the reassembler and its independence of chunk
  boundaries (`Reassembly.dfy`), interleaved objects (`Interleaving.dfy`), what the reassembler makes of any
  fragments at all (`Assembly.dfy`), the pipeline driver (`Pipeline.dfy`) and XML escaping (`XmlEscape.dfy`).
- **CredSSP messages**: the DER subset (`Der.dfy`), TSRequest and SPNEGO tokens (`CredSsp.dfy`).
- **The sealed-session cache**: concurrent calls over one mutex-guarded cache, with the server's end of
  every session as a ghost (`SealedCache.dfy`).
- **Receive responses and uploads**: the stream scanner (`Streams.dfy`) and the chunked upload (`Upload.dfy`).

Code that changes state is modelled by classes and methods with loops, each proved against a pure
specification function; the theorems are about those functions. `Bytes.dfy` holds byte strings and integer
encodings. `Primitives.dfy` is a record of the library calls (MD4, MD5, HMAC-MD5, UTF-16, UTF-8, upper case):
the theorems hold for every choice of total functions with those types, with no assumption about collisions.
`dafny verify dfyconfig.toml` checks the project.

## How the source is read

- Integer widths are written out: bytes and RC4 indices wrap modulo 256, sequence numbers and PSRP fragment
  ids wrap modulo 2^32 and 2^64 as in a release build, and length fields are cut to 16 or 32 bits by the casts.
  With wrapping sequence numbers the channel theorems need no bound on the number of messages.
- Random values, the clock, the host name, HTTP responses and the results of polls are parameters. A run of the
  transport is any interleaving of its steps, with any outcome of each request.
- Text that the code handles as UTF-8 bytes is modelled as bytes; where it works by characters (XML escaping,
  the stream scanner, upload scripts) it is modelled as characters.
- Where comments and code disagree, the code is followed. The remote path limit is said to be in characters but
  counts UTF-8 bytes; the path check is said to reject U+0000 to U+001F but rejects U+007F to U+009F too; a file
  chunk is said to fit the command line, which fails for a path with many single quotes (`ValidPathOverflows`).
- Some promises hold only under a condition, and the exact condition is proved: the multipart round trip
  (`BodyRoundTrip`), the text round trip of XML escaping (`EscapeRoundTrip`), the PSRP message round trip, which
  loses a leading byte order mark (`MessageRoundTrip`), the INTEGER round trip, whose decoder refuses values from
  2^31 on (`IntegerRoundTrip`), the CredSSP handshake, which shows an empty domain whatever it hashed
  (`CredSspAgrees`), the upload script, which a typographic quote in the path breaks (`ScriptMeaning`), the upload
  of an empty file, which succeeds and writes nothing (`UploadRebuilds`), and the command-line limit of an upload
  (`UploadFitsExactly`). Two faults of the sealed-session cache are shown: the session that the Type 3 fallback
  caches is never in step after a fallback that went through (`FallbackSessionRefused`), and a lost reply leaves
  a session in the cache on which every later call fails (`LostReplyStrands`).

## Model

| member | source | states |
|---|---|---|
| `Rc4.Rc4State.constructor` | src/ntlm/crypto.rs:238-249 | in-place key setup reaches the state of the key schedule specification, for any non-empty key |
| `Rc4.Rc4State.NextByte` | src/ntlm/crypto.rs:253-257 | one keystream step on the array is one step of the pure cipher and yields its next key byte |
| `Rc4.Rc4State.Process` | src/ntlm/crypto.rs:251-260 | the in-place loop leaves the data XORed with the keystream from the old position, and the cipher moved on by its length |
| `Rc4.SchedulePermutes` | src/ntlm/crypto.rs:238-249 | after any number of key-setup rounds the box is a permutation of 0..255 |
| `Rc4.AdvanceKeepsPermutation` | src/ntlm/crypto.rs:251-260 | no amount of keystream breaks the permutation |
| `Rc4.CryptSplit` | src/ntlm/crypto.rs:251-260 | processing a+b at once equals processing a and then b from where a stopped |
| `Rc4.CryptInverse` | src/ntlm/crypto.rs:251-260 | two ciphers at the same position undo each other |
| `Rc4.XorIsBitwise` | src/ntlm/crypto.rs:258 | the exclusive or of two bytes, stated bit by bit |
| `Rc4.ScheduleVector` | src/ntlm/crypto.rs:238-249 | four rounds of key setup with a three-byte key, swap by swap |
| `Rc4.KeystreamVector` | src/ntlm/crypto.rs:251-257 | the first three keystream bytes from the identity permutation, and the box after them |
| `Session.NtlmSession.FromAuth` | src/ntlm/mod.rs:76-113 | a new session holds the four derived keys, sequence numbers zero and two independent cipher objects |
| `Session.NtlmSession.Seal` | src/ntlm/mod.rs:121-148 | output is the specified sealed message, the sending direction moves on by one number and payload+8 keystream bytes, the other is untouched |
| `Session.NtlmSession.Sign` | src/ntlm/mod.rs:154-170 | a detached signature over the data; the sending direction moves on by one number and 8 keystream bytes |
| `Session.NtlmSession.Unseal` | src/ntlm/mod.rs:185-231 | result, error and receiving direction afterwards are those of the specification; the sending direction is untouched |
| `Session.SealThenUnseal` | src/ntlm/mod.rs:121-231 | a receiver at the sender's position gets exactly the plaintext, and ends at the sender's new position |
| `Session.SealedFields` | src/ntlm/mod.rs:138-147 | where version, encrypted checksum, sequence number and ciphertext stand in a sealed message |
| `Session.AcceptedSignature` | src/ntlm/mod.rs:185-231 | for a given state and ciphertext a 16-byte signature is accepted if and only if it is the one the sender would make |
| `Session.OutOfStepIsRefused` | src/ntlm/mod.rs:199-204 | a message sealed at another sequence number is refused with that error and the receiver does not change |
| `Session.RefusalReasons` | src/ntlm/mod.rs:186-204 | which messages are refused for their length, version or sequence number, each if and only if |
| `Session.AcceptedChecksum` | src/ntlm/mod.rs:206-231 | an accepted message carries, under the keystream behind its payload, the first half of the keyed hash of sequence number and plaintext |
| `Session.TamperEvident` | src/ntlm/mod.rs:206-231 | one signature accepted with two different ciphertexts of the same length is a collision of the keyed hash on two different inputs |
| `Session.SignCoversData` | src/ntlm/mod.rs:154-170 | two different data with one detached signature are a collision of the keyed hash |
| `Session.ServerMirrors` | src/ntlm/mod.rs:76-113 | a server that derives its own session from the same key gets the mirror image of the client's |
| `Channel.ChannelStaysInStep` | src/ntlm/mod.rs:121-231 | for a session and its mirror under any interleaving of sends and FIFO deliveries, everything returned so far is what was sent, and the wire holds consecutive messages from the receiver's position to the sender's |
| `Channel.ChannelDelivers` | src/ntlm/mod.rs:121-231 | what each party has been returned after a run, told from its actions alone: the messages the other sent, as many as were delivered, unchanged and in order |
| `Channel.DrainedLinksAgree` | src/ntlm/mod.rs:121-231 | once a link is empty, all messages sent on it were returned unchanged and both ends are at one position |
| `Channel.PositionAfter` | src/ntlm/mod.rs:121-148 | a sender is ahead of its receiver by the number of messages in flight and the sum of their lengths plus 8 each |
| `Channel.SignLosesPeer` | src/ntlm/mod.rs:154-170 | after a detached signature the peer refuses every further message, however many follow, until numbers wrap |
| `Channel.UnsealEffect` | src/ntlm/mod.rs:185-231 | any input: header rejections change nothing, checksum failures take keystream only, acceptance takes keystream and one number |
| `Channel.UnsealAllState` | src/ntlm/mod.rs:185-231 | over any sequence of inputs the receiver is at the number of acceptances and at the sum of ciphertext+8 over the calls past the header checks |
| `Channel.AcceptedInOrder` | src/ntlm/mod.rs:199-230 | accepted messages carry consecutive sequence numbers, whatever was offered in between |
| `Channel.NoReplay` | src/ntlm/mod.rs:199-230 | no byte string is accepted twice with fewer than 2^32 acceptances from the first to the second, however many refusals lie between |
| `Multipart.SealBody` | src/auth/ntlm.rs:30-57 | content type, framed sealed message and session afterwards |
| `Multipart.UnsealBody` | src/auth/ntlm.rs:63-115 | result or error, and the session afterwards, for any response bytes |
| `Multipart.OpeningText` | src/auth/ntlm.rs:33-45 | the text of the opening lines, up to the original length |
| `Multipart.ExtractFrame` | src/auth/ntlm.rs:68-108 | from a frame the reader cuts out exactly the sealed bytes when they are free of the closing marker, and something shorter or an error otherwise |
| `Multipart.LengthAnnounced` | src/auth/ntlm.rs:41-49 | an independent reader of the `Length=` digits up to the next line end gets the given length from every framed body |
| `Multipart.DecimalReadsBack` | src/auth/ntlm.rs:41-49 | a number is written in its own decimal digits, most significant first, with no leading zero |
| `Multipart.ExtractReasons` | src/auth/ntlm.rs:68-108 | which responses lack the first marker or end before the length field, if and only if; and that bytes cut out are no fewer than the field says |
| `Multipart.ClosingMarkerFound` | src/auth/ntlm.rs:93-101 | the closing marker is first found at the end of the sealed bytes if and only if it is not inside them and they do not end in its first 20 or 21 bytes |
| `Multipart.BodyRoundTrip` | src/auth/ntlm.rs:30-115 | a receiver in step gets the body back if and only if the sealed bytes are free of the closing marker, and is then in step again |
| `Multipart.OutOfStepFrameRefused` | src/auth/ntlm.rs:63-108 | a framed message of a sender at another sequence number is refused wherever its closing marker is found, and the receiver does not change |
| `Multipart.MarkerInCiphertext` | src/auth/ntlm.rs:93-101 | at every cipher position, and around any bytes before and after, the plaintext that encrypts to the closing marker makes a body that does not come back, if that body is text at all |
| `AvPairs.ParseAvPairs` | src/ntlm/crypto.rs:118-151 | the offset loop returns the last domain name and last 8-byte timestamp among the pairs before a terminator or a bad length |
| `AvPairs.RewriteTargetInfo` | src/ntlm/messages.rs:208-237 | stripping, appending and closing the list in place gives the specified list |
| `AvPairs.RewrittenPairs` | src/ntlm/messages.rs:208-237 | a list that is pairs up to its last four bytes (empty, terminated or not) parses afterwards as those pairs then the injected ones, if and only if the SPN is under 2^16 bytes |
| `AvPairs.LongNameCut` | src/ntlm/messages.rs:222-229 | an SPN of 2^16 bytes or more is not read back |
| `AvPairs.InjectedBytes` | src/ntlm/messages.rs:215-233 | the injected pairs byte for byte: channel bindings, target name and the flags that announce a check |
| `AvPairs.RewrittenSummary` | src/ntlm/crypto.rs:118-151 | rewriting changes neither the domain nor the timestamp a reader takes from the list |
| `Handshake.WriteSecurityBuffer` | src/ntlm/crypto.rs:153-157 | length, length and offset appended to the buffer |
| `Handshake.WithBitSets` | src/ntlm/messages.rs:146-150 | setting a flag sets that bit and keeps every other |
| `Handshake.EntryPointFlags` | src/ntlm/messages.rs:137-165 | which bits the flags of each entry point have, for every bit: the server's, key exchange and version, and for CredSSP signing and sealing |
| `Handshake.PrepareAnswer` | src/ntlm/messages.rs:182-320 | the six payload fields and the exported key, computed in the source's order with an in-place cipher |
| `Handshake.LayOut` | src/ntlm/messages.rs:322-376 | the running offset produces one buffer per field and payloads laid end to end behind the header; where the check goes |
| `Handshake.CreateAuthenticateMessage` | src/ntlm/messages.rs:170-418 | the message with its integrity check patched in, and the exported key |
| `HandshakeAgreement.ChallengeRoundTrip` | src/ntlm/messages.rs:84-131 | the client reads from a server's Type 2 message its nonce, flags, list, domain and timestamp |
| `HandshakeAgreement.ChallengeReasons` | src/ntlm/messages.rs:84-121 | which byte strings are refused as a challenge, if and only if, and when the target information is taken as empty |
| `HandshakeAgreement.FieldsReadBack` | src/ntlm/messages.rs:331-376 | the six fields tile the message from the header to its end, and each is read back if and only if it is shorter than 2^16 bytes (message under 4 GiB) |
| `HandshakeAgreement.HeaderOfMessage` | src/ntlm/messages.rs:349-364 | every length stands twice in the header, and the version bytes stand behind the flags when the version bit is set |
| `HandshakeAgreement.ResponseInMessage` | src/ntlm/messages.rs:239-281 | read out of the message, the NTLMv2 response holds its version bytes, the server's time or the machine's, and the client challenge in their places |
| `HandshakeAgreement.FieldsInMessage` | src/ntlm/messages.rs:283-320 | read out of the message, the other five fields are the LM response or zeros, the shown domain, the user name, the upper-cased workstation or nothing, and a wrapped key or nothing |
| `HandshakeAgreement.MicAnnouncedRight` | src/ntlm/messages.rs:221-233 | when the server's list is pairs up to its last four bytes, the list in the blob announces an integrity check if and only if the message carries one or the server's list announced one |
| `HandshakeAgreement.MalformedListHidesFlags` | src/ntlm/messages.rs:208-237 | a malformed list for which the announcement is lost: a pair that runs past the end swallows the flags |
| `HandshakeAgreement.CheckCoversMessage` | src/ntlm/messages.rs:378-387 | for any challenge the sixteen bytes of the integrity check are the HMAC under the exported key of the two messages before and this one zeroed, and stand at offset 72 if and only if the version bit is set |
| `HandshakeAgreement.KeyUnwraps` | src/ntlm/messages.rs:244-276 | a server that recomputes the base key by its own derivation unwraps the random key the client exported |
| `HandshakeAgreement.UserNameCase` | src/ntlm/crypto.rs:84-88 | user names that are equal in upper case give the same responses and the same keys |
| `HandshakeAgreement.HandshakeAgrees` | src/ntlm/messages.rs:170-418 | for any challenge, well-formed or not, a server that holds the account's names and NT hash, derives the response key itself as MS-NLMP section 3.3.2 says, looks the account up by the names in the message and recomputes proof and check accepts if and only if the domain shown is encoded like the one hashed and the list announces no check that does not hold; it then derives the client's key |
| `HandshakeAgreement.CheckedSessionAgrees` | src/ntlm/messages.rs:471-489 | the session entry point with an integrity check agrees with the server on every challenge, all fields under 2^16 bytes |
| `HandshakeAgreement.CredSspAgrees` | src/ntlm/messages.rs:501-528 | the CredSSP entry point, which shows an empty domain, is accepted if and only if the domain it hashes is encoded like the empty one |
| `HandshakeAgreement.BoundSessionAgrees` | src/ntlm/messages.rs:449-465 | the entry point with channel bindings, which sends no check, is accepted if and only if the list it sends back announces none or the bytes standing in the place of the check happen to be right |
| `HandshakeAgreement.ExchangeAgrees` | src/ntlm/messages.rs:84-418 | HandshakeAgrees with the client parsing the server's own challenge first, whatever list it carries |
| `Fragments.EncodeFragments` | src/psrp/protocol.rs:150-190 | the loop writes the fragments of the payload's pieces, numbered from zero, first and last flagged |
| `Fragments.PieceLengths` | src/psrp/protocol.rs:154-165 | every piece but the last has 32768 bytes, and no payload but the empty one has an empty piece |
| `Fragments.ReadEncoded` | src/psrp/protocol.rs:169-226 | a written fragment is read back whatever follows it |
| `Fragments.ReadStable` | src/psrp/protocol.rs:215-226 | later bytes do not change a fragment that is already complete |
| `Fragments.ReadFlags` | src/psrp/protocol.rs:213-226 | start and end are the two lowest bits of the flags, whatever the others are |
| `Fragments.FragmentHeader` | src/psrp/protocol.rs:169-190 | the header of a fragment byte by byte, for numbers below 256 |
| `Fragments.MessageHeader` | src/psrp/protocol.rs:131-146 | destination, type, runspace id, pipeline id and text of a message stand in their places |
| `Fragments.MessageReasons` | src/psrp/protocol.rs:270-292 | which byte strings are refused as a message, and why, if and only if |
| `Fragments.MessageRoundTrip` | src/psrp/protocol.rs:131-292 | a message decodes to its type and text if and only if the text has no leading byte order mark |
| `Reassembly.Reassembler.constructor` | src/psrp/protocol.rs:202-204 | a new reassembler holds nothing |
| `Reassembly.Reassembler.Take` | src/psrp/protocol.rs:228-260 | one round on the in-flight table in place: table, finished payload and failure of the specification |
| `Reassembly.Reassembler.TakeFragments` | src/psrp/protocol.rs:213-261 | the draining loop: finished payloads in order, buffer and table left, and the failure that stopped it |
| `Reassembly.Reassembler.Feed` | src/psrp/protocol.rs:211-268 | messages or error of one call and the state it leaves; an error drops what the call had completed |
| `Reassembly.DecodeCompleted` | src/psrp/protocol.rs:263-267 | all messages decoded in order, or the first decoding error |
| `Reassembly.DrainSplit` | src/psrp/protocol.rs:213-261 | draining a prefix of the bytes and then the rest is draining everything, up to the first failure |
| `Reassembly.FeedSplit` | src/psrp/protocol.rs:211-268 | from any state, feeding a+b succeeds if and only if feeding a then b does, with the same messages and final state |
| `Reassembly.AnyChunks` | src/psrp/protocol.rs:211-268 | any cut of a stream into chunks gives what the whole stream gives in one call |
| `Assembly.AbsorbExact` | src/psrp/protocol.rs:228-260 | from an empty table, for any fragments: nothing fails if and only if every fragment that belongs to a started run carries its place in it; then the finished payloads are the joined runs that ended, and the table holds exactly the open ones |
| `Assembly.RunShape` | src/psrp/protocol.rs:228-260 | a run is the last of its object's fragments without a gap, the first flagged start and no other, none before the last flagged end |
| `Assembly.MismatchFails` | src/psrp/protocol.rs:248-252 | a fragment that is not the one its started object waits for fails the call with its number and the expected one, whatever follows |
| `Assembly.FedExact` | src/psrp/protocol.rs:211-268 | feeding any written fragments yields the messages of the runs that ended, or the mismatch at the first fragment out of place |
| `Assembly.FedExactInChunks` | src/psrp/protocol.rs:211-268 | the same when the bytes come in any chunks |
| `Interleaving.AbsorbMerge` | src/psrp/protocol.rs:228-260 | on any part of a merge of several objects with stray fragments between, nothing fails and exactly the completed payloads come out |
| `Interleaving.ReassembleMerge` | src/psrp/protocol.rs:150-268 | a written merge cut into any chunks yields the messages of its payloads in the order of their last fragments, and leaves the buffer empty and no object started; unstarted entries of stray ids may stay in the table |
| `Interleaving.CompletedByEndOrder` | src/psrp/protocol.rs:228-260 | the k-th payload that comes out is that of the k-th object to end |
| `Interleaving.CompletedOnce` | src/psrp/protocol.rs:228-260 | every object of a merge comes out exactly once |
| `Interleaving.StraysChangeNothing` | src/psrp/protocol.rs:245-247 | taking stray fragments out of a merge leaves a merge of which the same payloads come out |
| `Interleaving.FragmentsRoundTrip` | src/psrp/protocol.rs:150-268 | the reassembler undoes the fragmenter for any payload and any chunks |
| `Pipeline.AnyOpens` | src/psrp/mod.rs:52-59 | whether a poll brought a message that reports the open runspace |
| `Pipeline.OpenMeans` | src/psrp/mod.rs:52-59 | a poll opens the runspace if and only if one of its messages is a state message with state 2 |
| `Pipeline.HandleAll` | src/psrp/mod.rs:94-122 | the message loop of one poll is the fold over its messages, stopping at a terminal state |
| `Pipeline.WaitUntilOpen` | src/psrp/mod.rs:48-69 | the first phase: polls used, reassembler left, or the error, within 64 polls |
| `Pipeline.CollectOutput` | src/psrp/mod.rs:86-136 | the second phase: the output at the pipeline's end, or the error, within 256 polls |
| `Pipeline.RunPowershell` | src/psrp/mod.rs:44-145 | the whole driver refines the specified run |
| `Pipeline.CollectMeaning` | src/psrp/mod.rs:86-122 | up to the first terminal state stdout and stderr are the lines of the output and error messages in order, and the exit code is 1 exactly for state 5 |
| `Pipeline.DoneMeansEnd` | src/psrp/mod.rs:108-119 | the run is finished if and only if some message reports state 4, 5 or 6 |
| `Pipeline.TerminalMeansEnd` | src/psrp/mod.rs:108-119 | a message is terminal if and only if it is a pipeline state message with state 4, 5 or 6 |
| `Pipeline.ResultIgnoresCuts` | src/psrp/mod.rs:92-126 | a stream that ends within 256 polls gives the fold over the messages of the whole stream |
| `Pipeline.CutsAgree` | src/psrp/mod.rs:92-126 | two ways of cutting one stream into polls give one result |
| `Pipeline.OpenedByMessage` | src/psrp/mod.rs:48-63 | the first phase succeeds only after polls that all brought bytes, the last of them the first opening message |
| `Pipeline.OpensAfter` | src/psrp/mod.rs:48-63 | conversely, polls whose bytes open the runspace in the last of them make the first phase succeed there |
| `Pipeline.EndedByStream` | src/psrp/mod.rs:92-126 | the second phase succeeds only after polls that all brought bytes, and returns the fold over their messages |
| `Pipeline.RunOpened` | src/psrp/mod.rs:48-84 | a successful run saw the runspace open, within 64 polls, before it created the pipeline |
| `Pipeline.ServedRunReturns` | src/psrp/mod.rs:44-145 | polls that open the runspace and then report a terminal state, within the limits, make the run return its lines and exit code |
| `Pipeline.RunMeaning` | src/psrp/mod.rs:44-145 | a run succeeds with an output if and only if the pipeline was created after an opening within 64 polls, at most 256 more held a terminal state, stdout and stderr are the lines of the messages before the first one, and the exit code is 1 exactly for state 5 |
| `XmlEscape.EscapeChar` | src/psrp/protocol.rs:114-124 | what one character becomes |
| `XmlEscape.RewrittenControls` | src/psrp/protocol.rs:114-124 | which characters are left as they are, if and only if |
| `XmlEscape.ControlForm` | src/psrp/protocol.rs:120-122 | a control character becomes its number in four hexadecimal digits between `_x` and `_` |
| `XmlEscape.Escape` | src/psrp/protocol.rs:111-127 | the loop writes the escaped form of the text |
| `XmlEscape.EarlyStep` | src/psrp/protocol.rs:349-352 | replacing `&lt;`, `&gt;` and `&amp;` each only restores its own character |
| `XmlEscape.LateStep` | src/psrp/protocol.rs:353-354 | once ampersands are restored, a literal quote entity of the text is replaced as well |
| `XmlEscape.UnescapeEscaped` | src/psrp/protocol.rs:349-355 | what unescaping makes of any escaped text |
| `XmlEscape.EscapeRoundTrip` | src/psrp/protocol.rs:111-355 | text comes back if and only if it holds no rewritten control character and neither literal quote entity |
| `Der.ReadLength` | src/asn1.rs:216-233 | the byte loop decodes the big-endian length, with the error cases |
| `Der.SearchContextTag` | src/asn1.rs:254-268 | the position loop is the search of the specification, on any bytes |
| `Der.ReadInteger` | src/asn1.rs:287-305 | the byte loop decodes the value, with the error cases |
| `Der.LengthRoundTrip` | src/asn1.rs:41-51 | a length is read back, whatever follows, if and only if it is below 2^24; otherwise it is read modulo 2^24 |
| `Der.LengthMinimal` | src/asn1.rs:41-51 | no accepted encoding of a length is shorter than the one written |
| `Der.TruncatedItem` | src/asn1.rs:216-250 | every cut-off item is refused, with the error for a missing tag, a missing or incomplete length, or missing contents |
| `Der.WrongTagRefused` | src/asn1.rs:271-305 | an item with another tag is refused by the integer and octet string readers |
| `Der.TlvRoundTrip` | src/asn1.rs:236-250 | an item is read back, whatever follows, if and only if its contents are below 2^24 bytes |
| `Der.FindFirstMatch` | src/asn1.rs:254-268 | searching written items is first-match lookup, and goes on behind them when there is none |
| `Der.IntegerContents` | src/asn1.rs:72-87 | integer contents carry the value, are minimal and positive, and take five bytes exactly from 2^31 on |
| `Der.IntegerRoundTrip` | src/asn1.rs:287-305 | values below 2^31 are read back; the five bytes of every other value are refused |
| `Der.OctetStringRoundTrip` | src/asn1.rs:271-284 | an octet string is read back if and only if it is below 2^24 bytes |
| `CredSsp.EncodeTsRequest` | src/asn1.rs:92-129 | the encoder writes a sequence of exactly the fields present, in order |
| `CredSsp.FieldsFound` | src/asn1.rs:308-353 | each field is found under its own tag and no other |
| `CredSsp.ServerRequestRead` | src/asn1.rs:308-353 | for any fields a server writes, any contents of its two integers and any bytes behind: the fields come back, version 2 when there is none, integers of one to four bytes without a sign; any other length is the error |
| `CredSsp.TsRequestRoundTrip` | src/asn1.rs:308-353 | for every subset of fields the decoder returns exactly those and no error code when the version is below 2^31, and refuses every other version |
| `CredSsp.TsRequestBytes` | src/asn1.rs:92-129 | the bytes of a short TSRequest with a token and a nonce |
| `CredSsp.SpnegoInitBytes` | src/asn1.rs:167-184 | the bytes of a short initial message: only NTLM is offered |
| `CredSsp.SpnegoResponseBytes` | src/asn1.rs:192-205 | the bytes of a short response: accept-incomplete, the token, and the mechListMIC if any |
| `CredSsp.SpnegoInitRoundTrip` | src/asn1.rs:356-390 | the token comes back from the initial message |
| `CredSsp.SpnegoResponseRoundTrip` | src/asn1.rs:356-390 | the token comes back from the response, with or without a mechListMIC |
| `CredSsp.OtherMessagesRefused` | src/asn1.rs:308-390 | a message with another outer tag is refused by both readers, whatever it holds |
| `CredSsp.ResponseWithoutToken` | src/asn1.rs:376-385 | of any fields in a response the first token field is read, and without one the response is refused |
| `CredSsp.InitContents` | src/asn1.rs:358-375 | of an initial message the first item is skipped and the first field 0 behind it is opened; without one the message is refused |
| `SealedCache.SendSealedBody` | src/transport.rs:389-438 | request bytes, outcome and session afterwards for any response or none |
| `SealedCache.SeenMeans` | src/transport.rs:409-438 | when a response is an answer, and which: a status from 200 to 299 and, if it looks sealed, a body that unseals; a 401 is the refusal |
| `SealedCache.AlwaysSafe` | src/transport.rs:312-386 | in every reachable state of every interleaving: the lock is held exactly by the call out on the cached session, no session has two users, and hosts match |
| `SealedCache.StepRecorded` | src/transport.rs:312-386 | in every step a call's counters go up exactly with a cached send or a handshake, and a session that is new or was sealed on is the one use logged, for the host of a call |
| `SealedCache.CallsKeepToTheirHost` | src/transport.rs:312-386 | each call makes at most one cached send and two handshakes, and every body was sealed on a session established with its host |
| `SealedCache.ExchangesNeverOverlap` | src/transport.rs:319-339 | two calls with requests out use different sessions |
| `SealedCache.IntactExchange` | src/transport.rs:389-438 | an exchange keeps a session intact if and only if the server served it and its text is clear of the closing marker; then the server read the body, the call got the text, and both ends are in step |
| `SealedCache.AlwaysSynced` | src/transport.rs:312-386 | in every reachable state an intact session is in step, or ahead by the one request that is out on it |
| `SealedCache.CachedSessionMirrors` | src/transport.rs:354-361 | whenever the lock is free, an intact cached session mirrors the server's session and belongs to the cached host |
| `SealedCache.LosslessStaysIntact` | src/transport.rs:312-386 | on every run of primary-path steps where every reply is served and no body or text meets the closing marker, all sessions are intact and no call needs the fallback |
| `SealedCache.LosslessCacheMirrors` | src/transport.rs:312-386 | on every such run, whenever the lock is free, the cached session mirrors the server's session and belongs to the cached host |
| `SealedCache.LosslessAnswers` | src/transport.rs:312-386 | on every such run a call that has returned holds exactly the text of the last reply served to it, on the cached session or a fresh one |
| `SealedCache.FirstCallAnswers` | src/transport.rs:312-362 | from any state with a free lock and no session of the host cached, a first call that goes through returns the server's text and leaves its session, in step, in the cache |
| `SealedCache.FirstCallLossless` | src/transport.rs:312-362 | such a call added to a lossless run makes a lossless run, so the theorems about those speak of answered calls |
| `SealedCache.LookElsewhere` | src/transport.rs:319-339 | with no cached session, or one of another host, the call goes to a handshake with the cache cleared and the lock free |
| `SealedCache.HandshakeStarts` | src/transport.rs:344-353 | a handshake starts a session from its key, on which the server is the mirror image, and the body is sealed as its first message |
| `SealedCache.FreshOutcome` | src/transport.rs:354-386 | on a fresh session an answer is published with its text, a refusal leads to the fallback, and any other failure ends the call |
| `SealedCache.CachedOutcome` | src/transport.rs:326-333 | on the cached session an answer is returned, a refusal clears the cache and leads to a handshake, and any other failure keeps the cache |
| `SealedCache.PublishCaches` | src/transport.rs:356-362 | publication caches the session for the call's host and returns the text |
| `SealedCache.FallbackFaulty` | src/transport.rs:363-383 | whatever is seen of a faulty fallback exchange, when the call gets an answer and which |
| `SealedCache.CachedExchangeAnswers` | src/transport.rs:319-333 | on an intact cached session the call returns the server's text, and the session stays cached, in step, with the lock free |
| `SealedCache.OutOfStepCacheRefused` | src/transport.rs:319-339 | when the server expects another sequence number on the cached session, the next call is refused whatever its body, the server does not change, and the call goes on to a handshake with the cache cleared |
| `SealedCache.FallbackSessionRefused` | src/transport.rs:363-383 | after a fallback exchange that went through and its publication the cached session is out of step, and the next call to that host is refused in that way |
| `SealedCache.StrandedExchange` | src/transport.rs:409-438 | when the server has sent messages the client never read, it reads the next body and replies, the client refuses the reply and its receiving half does not move, and the server is one message further ahead |
| `SealedCache.LostReply` | src/transport.rs:332-333 | when the reply of an exchange on an intact cached session is lost, the call fails and the session stays in the cache in that state |
| `SealedCache.LostReplyStrands` | src/transport.rs:319-339 | from then on, over any run of calls to that host in which every request arrives whole and every reply is delivered, no call gets an answer and the cache is never cleared, until 2^32 steps have passed |
| `SealedCache.FurtherCallSteady` | src/transport.rs:319-339 | every further call to the host whose body is clear of the marker is one of the calls this speaks of |
| `Streams.ExtractStreams` | src/soap/parser.rs:234-286 | the scanning loop, on any text |
| `Streams.ScanElement` | src/soap/parser.rs:240-283 | one element after text without a stream tag gives its stream unless blank, and the scan goes on inside its closing tag |
| `Streams.BlankTrims` | src/soap/parser.rs:276 | a text is blank if and only if trimming leaves nothing of it |
| `Streams.DocumentStreams` | src/soap/parser.rs:234-294 | a list of well-formed stream elements, with either prefix and any attributes, gives exactly its non-blank streams in order |
| `Upload.UploadFile` | src/transfer.rs:51-105 | which scripts are sent, in which order, up to the first failure, and the result in every error case |
| `Upload.ChunkLengths` | src/transfer.rs:70-72 | every chunk but the last has 2000 bytes, and none is empty |
| `Upload.PathErrorMeans` | src/transfer.rs:28-40 | a path is refused if and only if it has more than 260 bytes of UTF-8 or a control character other than the tab; which error |
| `Upload.Utf8RoundTrip` | src/transfer.rs:29 | the length that counts is that of the UTF-8 bytes, from which an independent reader gets the path back |
| `Upload.Utf8Only` | src/transfer.rs:29 | that reader accepts nothing but the UTF-8 bytes of a text |
| `Upload.DoubledRoundTrip` | src/transfer.rs:68 | reading a literal as PowerShell does, where U+2018 to U+201B count as quotes too, gives the path back from its doubled form if and only if it holds none of those four |
| `Upload.ScriptMeaning` | src/transfer.rs:68-85 | for any chunk the script replaces or extends the file of its path with that chunk if and only if the path holds no typographic quote |
| `Upload.TypographicPathUnread` | src/transfer.rs:28-40 | a path with U+2019 that passes validation and whose scripts cannot be read |
| `Upload.PrefixRebuilds` | src/transfer.rs:70-86 | for a path without typographic quotes, after k scripts the remote file holds the first k chunks |
| `Upload.UploadRebuilds` | src/transfer.rs:70-86 | for such a path, after all scripts the remote file equals the data and every other file is untouched, and for empty data nothing is written |
| `Upload.EncodePowershellCommand` | src/command.rs:28-34 | base64 of the UTF-16LE units of the script |
| `Upload.CommandReadBack` | src/command.rs:46-59 | every script comes back from its command line: base64, then little-endian UTF-16 with surrogate pairs |
| `Upload.CommandFits` | src/shell.rs:161-165 | the exact condition, in UTF-16 units, for a chunk's command line to be at most 8191 characters |
| `Upload.UploadFits` | src/transfer.rs:13-40 | a path that passes validation with at most eight single quotes keeps every command within the limit |
| `Upload.UploadFitsExactly` | src/transfer.rs:13-19 | the exact condition, for data of any size, for all commands to fit; for two full chunks or more it is that the path with its quotes doubled has at most 268 units |
| `Upload.ValidPathOverflows` | src/transfer.rs:28-40 | a path that passes validation and whose commands do not fit |

## Left out

- HandshakeAgrees: a request given to the full builder must describe its own message (key exchange and version flags as its arguments say), as the entry points' requests do, and every field must be under 2^16 bytes, as the 16-bit casts need. The challenge may be anything.
- MicAnnouncedRight: lists that are not pairs up to their last four bytes; for those the announcement can be lost (`MalformedListHidesFlags`).
- MarkerInCiphertext: no concrete text is given whose ciphertext holds the marker; that depends on the keystream.
- TsRequestRoundTrip: contents under 2^24 bytes, the largest length the encoder can write.
- ServerRequestRead: contents under 2^24 bytes, as for the round trip.
- FragmentHeader: numbers below 256; `ReadEncoded` holds for all.
- TsRequestBytes: fields that fit one-byte lengths; `TsRequestRoundTrip` holds for all.
- SpnegoInitBytes: tokens under 96 bytes, so that every length is one byte.
- SpnegoResponseBytes: token and MIC under 100 bytes together, for the same reason.
- SpnegoInitRoundTrip: tokens whose whole message is under 2^24 bytes.
- SpnegoResponseRoundTrip: tokens whose whole message is under 2^24 bytes.
- NoReplay: messages with 2^32 or more acceptances from the first to the second, since sequence numbers wrap.
- ScriptMeaning: the host is modelled by how it reads these scripts (base64 literal, call, path literal with PowerShell's five single-quote characters); Windows file-name rules are not part of this model.
- UploadRebuilds: base64 is any pair of functions that invert each other with plain output of length 4*ceil(n/3).
- RunPowershell: `extract_output_text` and `extract_named_i32` are arbitrary functions; messages that follow the opening one in the same poll are dropped, as in the source; opening and closing the shell is not part of the model.
- The server's side of the handshake: it follows MS-NLMP as far as the message is read here. The account is looked up by the user and domain names in the message (section 3.2.5.1.2), with no case folding. Some AV_FLAGS pair with the integrity bit announces the check, which is read at offset 72 behind the version (section 2.2.1.3).
- HTTP, TLS, sockets, retries and cancellation of a call in mid-exchange. An exchange has any outcome of `SealedCache.Net`: the server sees any bytes as the request or none, replies or not, and the client sees the reply, any other response or nothing.
- The Type 1 message, channel-binding hashes, `encode_ts_credentials` and `extract_subject_public_key`: constants and fields that would only add easy members.
- The CredSSP conversation on its socket, Kerberos, Basic and certificate authentication.
- SOAP envelope templates, fault and enumeration parsing, CLIXML scraping, `run_in_shell`, `run_wql` and downloads: string handling and short folds with only easy claims.
- Zeroization, constant-time comparison, debug output, environment overrides and tracing have no functional effect here.
