/** AV_PAIR lists (MS-NLMP section 2.2.2.1): the reader, and the list a client sends back. */
module AvPairs {
  import opened Bytes
  import opened Primitives

  const AV_EOL := 0
  const AV_NB_DOMAIN_NAME := 2
  const AV_FLAGS := 6
  const AV_TIMESTAMP := 7
  const AV_TARGET_NAME := 9
  const AV_CHANNEL_BINDINGS := 10
  const AV_FLAG_MIC := 2

  datatype AvPair = AvPair(id: nat, value: Bytes)

  /** A pair whose id is not the terminator's and whose length fits its field. */
  predicate Fits(pair: AvPair) {
    0 < pair.id < U16 && |pair.value| < U16
  }

  predicate AllFit(pairs: seq<AvPair>) {
    forall pair | pair in pairs :: Fits(pair)
  }

  function Write(pair: AvPair): (b: Bytes)
    ensures |b| == 4 + |pair.value|
  {
    LeBytes(pair.id, 2) + LeBytes(|pair.value|, 2) + pair.value
  }

  function WriteAll(pairs: seq<AvPair>): Bytes {
    if pairs == [] then [] else Write(pairs[0]) + WriteAll(pairs[1..])
  }

  function Terminator(): Bytes {
    LeBytes(AV_EOL, 2) + LeBytes(0, 2)
  }

  /** A list as a server sends it: pairs and a terminator. */
  function Terminated(pairs: seq<AvPair>): Bytes {
    WriteAll(pairs) + Terminator()
  }

  /** The pairs a reader meets before a terminator, the end, or a length that runs past the end. */
  function Pairs(data: Bytes): seq<AvPair> {
    if |data| < 4 then [] else
      var id, len := LeValue(data[..2]), LeValue(data[2..4]);
      if id == AV_EOL || 4 + len > |data| then []
      else [AvPair(id, data[4..4 + len])] + Pairs(data[4 + len..])
  }

  /** The value of the last domain-name pair. */
  function DomainOf(p: Primitives, pairs: seq<AvPair>): string {
    if pairs == [] then "" else
      var last := pairs[|pairs| - 1];
      if last.id == AV_NB_DOMAIN_NAME then p.utf16Lossy(last.value) else DomainOf(p, pairs[..|pairs| - 1])
  }

  /** The value of the last timestamp pair of eight bytes. */
  function TimestampOf(pairs: seq<AvPair>): (t: Option<Bytes>)
    ensures t.Some? ==> |t.value| == 8
  {
    if pairs == [] then None else
      var last := pairs[|pairs| - 1];
      if last.id == AV_TIMESTAMP && |last.value| == 8 then Some(last.value) else TimestampOf(pairs[..|pairs| - 1])
  }

  /** What the client takes from a list. */
  function Summary(p: Primitives, pairs: seq<AvPair>): (string, Option<Bytes>) {
    (DomainOf(p, pairs), TimestampOf(pairs))
  }

  /** Some flags pair says that the message carries an integrity check. */
  predicate MicAnnounced(pairs: seq<AvPair>) {
    exists pair | pair in pairs :: pair.id == AV_FLAGS && |pair.value| == 4 && LeValue(pair.value) / 2 % 2 == 1
  }

  /** A later pair replaces what an earlier one said. */
  lemma SummarySnoc(p: Primitives, pairs: seq<AvPair>, pair: AvPair)
    ensures Summary(p, pairs + [pair])
         == (if pair.id == 2 then p.utf16Lossy(pair.value) else Summary(p, pairs).0,
             if pair.id == 7 && |pair.value| == 8 then Some(pair.value) else Summary(p, pairs).1)
  {
    var all := pairs + [pair];
    assert all[..|all| - 1] == pairs;
  }

  /** One round of the reader at `offset`. */
  lemma PairsAt(data: Bytes, offset: nat)
    requires offset + 4 <= |data|
    ensures var id, len := LeValue(data[offset..offset + 2]), LeValue(data[offset + 2..offset + 4]);
            if id == AV_EOL || offset + 4 + len > |data|
            then Pairs(data[offset..]) == []
            else Pairs(data[offset..])
                 == [AvPair(id, data[offset + 4..offset + 4 + len])] + Pairs(data[offset + 4 + len..])
  {
    hide LeValue;
    var rest := data[offset..];
    assert rest[..2] == data[offset..offset + 2];
    assert rest[2..4] == data[offset + 2..offset + 4];
    var len := LeValue(rest[2..4]);
    if 4 + len <= |rest| {
      assert rest[4..4 + len] == data[offset + 4..offset + 4 + len];
      assert rest[4 + len..] == data[offset + 4 + len..];
    }
  }

  lemma ReadPair(data: Bytes, seen: seq<AvPair>, offset: nat)
    requires offset + 4 <= |data| && Pairs(data) == seen + Pairs(data[offset..])
    ensures var id, len := LeValue(data[offset..offset + 2]), LeValue(data[offset + 2..offset + 4]);
            if id == AV_EOL || offset + 4 + len > |data|
            then Pairs(data) == seen
            else Pairs(data)
                 == seen + [AvPair(id, data[offset + 4..offset + 4 + len])] + Pairs(data[offset + 4 + len..])
  {
    hide Pairs, LeValue;
    PairsAt(data, offset);
    assert seen + [] == seen;
    var id, len := LeValue(data[offset..offset + 2]), LeValue(data[offset + 2..offset + 4]);
    if id != AV_EOL && offset + 4 + len <= |data| {
      var pair, rest := AvPair(id, data[offset + 4..offset + 4 + len]), Pairs(data[offset + 4 + len..]);
      assert seen + ([pair] + rest) == seen + [pair] + rest;
    }
  }

  lemma NothingRead(data: Bytes, seen: seq<AvPair>, offset: nat)
    requires offset <= |data| < offset + 4
    ensures seen + Pairs(data[offset..]) == seen
  {
  }

  method ParseAvPairs(p: Primitives, data: Bytes) returns (domain: string, timestamp: Option<Bytes>)
    ensures (domain, timestamp) == Summary(p, Pairs(data))
  {
    domain, timestamp := "", None;
    var offset := 0;
    ghost var seen: seq<AvPair> := [];
    assert data[0..] == data && seen + Pairs(data) == Pairs(data);
    hide Summary, Pairs, LeValue;
    while offset + 4 <= |data|
      invariant offset <= |data| && Pairs(data) == seen + Pairs(data[offset..])
      invariant (domain, timestamp) == Summary(p, seen)
      decreases |data| - offset
    {
      ReadPair(data, seen, offset);
      var avId, avLen := LeValue(data[offset..offset + 2]), LeValue(data[offset + 2..offset + 4]);
      offset := offset + 4;
      if avId == AV_EOL {
        return;
      }
      if offset + avLen > |data| {
        return;
      }
      var value := data[offset..offset + avLen];
      SummarySnoc(p, seen, AvPair(avId, value));
      if avId == AV_NB_DOMAIN_NAME {
        domain := p.utf16Lossy(value);
      } else if avId == AV_TIMESTAMP && avLen == 8 {
        timestamp := Some(value);
      }
      seen := seen + [AvPair(avId, value)];
      offset := offset + avLen;
    }
    NothingRead(data, seen, offset);
  }

  /** One well-formed pair is read back and the reader goes on behind it. */
  lemma ReadOne(pair: AvPair, rest: Bytes)
    requires 0 < pair.id < U16
    requires |pair.value| % U16 <= |pair.value + rest|
    ensures Pairs(Write(pair) + rest)
         == [AvPair(pair.id, (pair.value + rest)[..|pair.value| % U16])]
           + Pairs((pair.value + rest)[|pair.value| % U16..])
  {
    var data, len := Write(pair) + rest, |pair.value| % U16;
    var tail := pair.value + rest;
    Le16(pair.id);
    CutTo16(|pair.value|);
    hide LeBytes, LeValue;
    assert data == LeBytes(pair.id, 2) + LeBytes(|pair.value|, 2) + tail;
    assert data[..2] == LeBytes(pair.id, 2);
    assert data[2..4] == LeBytes(|pair.value|, 2);
    assert data[4..4 + len] == tail[..len];
    assert data[4 + len..] == tail[len..];
  }

  /** A 16-bit field holds the value modulo 2^16. */
  lemma CutTo16(n: nat)
    ensures LeValue(LeBytes(n, 2)) == n % U16
  {
    var b := LeBytes(n, 2);
    assert b[0] == n % 256 && b[1..] == LeBytes(n / 256, 1);
    assert b[1..][0] == n / 256 % 256 && b[1..][1..] == [];
    assert LeValue(b[1..]) == n / 256 % 256;
    TwoBytes(n);
  }

  lemma TwoBytes(n: nat)
    ensures n % 256 + 256 * (n / 256 % 256) == n % U16
  {
  }

  lemma ReadFitting(pair: AvPair, rest: Bytes)
    requires Fits(pair)
    ensures Pairs(Write(pair) + rest) == [pair] + Pairs(rest)
  {
    hide Pairs, Write;
    ReadOne(pair, rest);
    assert (pair.value + rest)[..|pair.value|] == pair.value;
    assert (pair.value + rest)[|pair.value|..] == rest;
  }

  lemma {:induction false} ReadAll(pairs: seq<AvPair>, rest: Bytes)
    requires AllFit(pairs)
    ensures Pairs(WriteAll(pairs) + rest) == pairs + Pairs(rest)
  {
    hide Pairs, Write;
    if pairs == [] {
      assert WriteAll(pairs) + rest == rest;
    } else {
      var first, others := pairs[0], WriteAll(pairs[1..]) + rest;
      ReadAll(pairs[1..], rest);
      assert Fits(first);
      assert WriteAll(pairs) + rest == Write(first) + others;
      ReadFitting(first, others);
      assert pairs == [first] + pairs[1..];
    }
  }

  lemma NothingAfterTerminator(rest: Bytes)
    ensures Pairs(Terminator() + rest) == []
  {
    Le16(0);
    assert (Terminator() + rest)[..2] == LeBytes(0, 2);
  }

  /** The pairs the client adds: channel binding, and with an integrity check the target name and flags. */
  function Injected(p: Primitives, channelBindings: Option<Digest>, mic: bool,
                    targetName: Option<string>): seq<AvPair> {
    (if channelBindings.Some? then [AvPair(AV_CHANNEL_BINDINGS, channelBindings.value)] else [])
    + (if mic && targetName.Some? then [AvPair(AV_TARGET_NAME, p.utf16(targetName.value))] else [])
    + (if mic then [AvPair(AV_FLAGS, LeBytes(AV_FLAG_MIC, 4))] else [])
  }

  /** `list` without its last four bytes, when it has that many. */
  function Stripped(list: Bytes): Bytes {
    if |list| >= 4 then list[..|list| - 4] else list
  }

  /** The target information the client sends: the server's list reopened, extended and closed. */
  method RewriteTargetInfo(p: Primitives, list: Bytes, channelBindings: Option<Digest>, mic: bool,
                           targetName: Option<string>)
    returns (info: Bytes)
    ensures info == Rewritten(p, list, channelBindings, mic, targetName)
  {
    hide LeBytes, WriteAll;
    info := list;
    if |info| >= 4 {
      info := info[..|info| - 4];
    }
    ghost var added := [];
    NothingToWrite();
    assert info == Stripped(list) + WriteAll(added);
    if channelBindings.Some? {
      info := info + (LeBytes(AV_CHANNEL_BINDINGS, 2) + LeBytes(16, 2) + channelBindings.value);
      added := Append(Stripped(list), added, AvPair(AV_CHANNEL_BINDINGS, channelBindings.value));
    }
    if mic {
      if targetName.Some? {
        var spn := p.utf16(targetName.value);
        info := info + (LeBytes(AV_TARGET_NAME, 2) + LeBytes(|spn|, 2) + spn);
        added := Append(Stripped(list), added, AvPair(AV_TARGET_NAME, spn));
      }
      info := info + (LeBytes(AV_FLAGS, 2) + LeBytes(4, 2) + LeBytes(AV_FLAG_MIC, 4));
      added := Append(Stripped(list), added, AvPair(AV_FLAGS, LeBytes(AV_FLAG_MIC, 4)));
    }
    assert added == Injected(p, channelBindings, mic, targetName);
    info := info + Terminator();
  }

  lemma NothingToWrite()
    ensures WriteAll([]) == []
  {
  }

  lemma Append(list: Bytes, added: seq<AvPair>, pair: AvPair) returns (more: seq<AvPair>)
    ensures more == added + [pair]
    ensures list + WriteAll(more) == list + WriteAll(added) + Write(pair)
  {
    more := added + [pair];
    WriteAllSnoc(added, pair);
  }

  function Rewritten(p: Primitives, list: Bytes, channelBindings: Option<Digest>, mic: bool,
                     targetName: Option<string>): Bytes {
    Stripped(list) + WriteAll(Injected(p, channelBindings, mic, targetName)) + Terminator()
  }

  /** The bytes of the injected pairs, by their numbers in MS-NLMP section 2.2.2.1. */
  lemma InjectedBytes(p: Primitives, channelBindings: Option<Digest>, mic: bool, targetName: Option<string>)
    ensures WriteAll(Injected(p, channelBindings, mic, targetName))
         == (if channelBindings.Some? then [10, 0, 16, 0] + channelBindings.value else [])
            + ((if mic && targetName.Some?
                then [9, 0] + LeBytes(|p.utf16(targetName.value)|, 2) + p.utf16(targetName.value) else [])
               + if mic then [6, 0, 4, 0, 2, 0, 0, 0] else [])
  {
    var binding := if channelBindings.Some? then [AvPair(AV_CHANNEL_BINDINGS, channelBindings.value)] else [];
    var name := if mic && targetName.Some? then [AvPair(AV_TARGET_NAME, p.utf16(targetName.value))] else [];
    var flags := if mic then [AvPair(AV_FLAGS, LeBytes(AV_FLAG_MIC, 4))] else [];
    assert Injected(p, channelBindings, mic, targetName) == binding + (name + flags);
    hide LeBytes, WriteAll, Injected;
    WriteAllSum(binding, name + flags);
    WriteAllSum(name, flags);
    NothingToWrite();
    if channelBindings.Some? {
      BindingBytes(channelBindings.value);
    }
    if mic {
      FlagBytes();
      if targetName.Some? {
        NameBytes(p.utf16(targetName.value));
      }
    }
  }

  lemma BindingBytes(bindings: Digest)
    ensures WriteAll([AvPair(AV_CHANNEL_BINDINGS, bindings)]) == [10, 0, 16, 0] + bindings
  {
    WriteOne(AvPair(AV_CHANNEL_BINDINGS, bindings));
    SmallNumbers();
    hide LeBytes, WriteAll;
  }

  lemma NameBytes(spn: Bytes)
    ensures WriteAll([AvPair(AV_TARGET_NAME, spn)]) == [9, 0] + LeBytes(|spn|, 2) + spn
  {
    WriteOne(AvPair(AV_TARGET_NAME, spn));
    SmallNumbers();
    hide LeBytes, WriteAll;
  }

  lemma FlagBytes()
    ensures WriteAll([AvPair(AV_FLAGS, LeBytes(AV_FLAG_MIC, 4))]) == [6, 0, 4, 0, 2, 0, 0, 0]
  {
    WriteOne(AvPair(AV_FLAGS, LeBytes(AV_FLAG_MIC, 4)));
    SmallNumbers();
    hide LeBytes, WriteAll;
  }

  lemma WriteOne(pair: AvPair)
    ensures WriteAll([pair]) == LeBytes(pair.id, 2) + LeBytes(|pair.value|, 2) + pair.value
  {
    hide LeBytes;
    assert [pair][1..] == [];
  }

  lemma SmallNumbers()
    ensures LeBytes(10, 2) == [10, 0] && LeBytes(9, 2) == [9, 0] && LeBytes(6, 2) == [6, 0]
    ensures LeBytes(16, 2) == [16, 0] && LeBytes(4, 2) == [4, 0] && LeBytes(2, 4) == [2, 0, 0, 0]
  {
    assert LeBytes(0, 1) == [0];
    assert LeBytes(0, 2) == [0] + LeBytes(0, 1);
    assert LeBytes(0, 3) == [0] + LeBytes(0, 2);
  }

  lemma {:induction false} WriteAllSum(a: seq<AvPair>, b: seq<AvPair>)
    ensures WriteAll(a + b) == WriteAll(a) + WriteAll(b)
  {
    hide Write;
    if a == [] {
      assert a + b == b;
    } else {
      assert (a + b)[1..] == a[1..] + b;
      WriteAllSum(a[1..], b);
    }
  }

  lemma WriteAllSnoc(a: seq<AvPair>, pair: AvPair)
    ensures WriteAll(a + [pair]) == WriteAll(a) + Write(pair)
  {
    WriteAllSum(a, [pair]);
  }

  /**
   Rewriting a list whose bytes before the last four are pairs: the result holds those pairs and then the
   new ones exactly when the target name, if there is one, fits its 16-bit length.
   */
  lemma RewrittenPairs(p: Primitives, pairs: seq<AvPair>, list: Bytes,
                       channelBindings: Option<Digest>, mic: bool, targetName: Option<string>, rest: Bytes)
    requires AllFit(pairs) && Stripped(list) == WriteAll(pairs)
    ensures Pairs(Rewritten(p, list, channelBindings, mic, targetName) + rest)
         == pairs + Injected(p, channelBindings, mic, targetName)
       <==> (mic && targetName.Some? ==> |p.utf16(targetName.value)| < U16)
  {
    hide Pairs, WriteAll, Terminator;
    var added := Injected(p, channelBindings, mic, targetName);
    hide Stripped;
    var tail := WriteAll(added) + (Terminator() + rest);
    assert Rewritten(p, list, channelBindings, mic, targetName) + rest == WriteAll(pairs) + tail;
    ReadAll(pairs, tail);
    DifferentTails(pairs, Pairs(tail), added);
    NothingAfterTerminator(rest);
    if mic && targetName.Some? && |p.utf16(targetName.value)| >= U16 {
      LongNameCut(p, channelBindings, targetName.value, Terminator() + rest);
    } else {
      ReadAll(added, Terminator() + rest);
    }
  }

  /** An empty list and a terminated one are of that kind. */
  lemma StrippedList(pairs: seq<AvPair>, list: Bytes)
    requires list == Terminated(pairs) || (pairs == [] && list == [])
    ensures Stripped(list) == WriteAll(pairs)
  {
  }

  lemma DifferentTails(a: seq<AvPair>, b: seq<AvPair>, c: seq<AvPair>)
    ensures a + b == a + c <==> b == c
  {
    if a + b == a + c {
      assert b == (a + b)[|a|..] == (a + c)[|a|..] == c;
    }
  }

  /** A target name of 2^16 bytes or more is read back cut to its length modulo 2^16. */
  lemma LongNameCut(p: Primitives, channelBindings: Option<Digest>, targetName: string, rest: Bytes)
    requires |p.utf16(targetName)| >= U16
    ensures Pairs(WriteAll(Injected(p, channelBindings, true, Some(targetName))) + rest)
         != Injected(p, channelBindings, true, Some(targetName))
  {
    hide Pairs, Write, LeBytes;
    var binding := if channelBindings.Some? then [AvPair(AV_CHANNEL_BINDINGS, channelBindings.value)] else [];
    var name := AvPair(AV_TARGET_NAME, p.utf16(targetName));
    var flags := AvPair(AV_FLAGS, LeBytes(AV_FLAG_MIC, 4));
    var added := Injected(p, channelBindings, true, Some(targetName));
    assert added == binding + ([name] + [flags]);
    WriteAllSum(binding, [name] + [flags]);
    WriteAllSum([name], [flags]);
    var tail := WriteAll([flags]) + rest;
    assert WriteAll(added) + rest == WriteAll(binding) + (Write(name) + tail);
    ReadAll(binding, Write(name) + tail);
    ReadOne(name, tail);
    var read := Pairs(WriteAll(added) + rest);
    assert read[|binding|].value != added[|binding|].value;
  }

  /** Rewriting changes neither the domain nor the timestamp a reader takes from the list. */
  lemma RewrittenSummary(p: Primitives, pairs: seq<AvPair>, list: Bytes,
                         channelBindings: Option<Digest>, mic: bool, targetName: Option<string>)
    requires AllFit(pairs)
    requires list == Terminated(pairs) || (pairs == [] && list == [])
    requires mic && targetName.Some? ==> |p.utf16(targetName.value)| < U16
    ensures var info := Rewritten(p, list, channelBindings, mic, targetName);
            Summary(p, Pairs(info)) == Summary(p, Pairs(list))
  {
    StrippedList(pairs, list);
    hide Pairs, WriteAll, LeBytes, Summary, Rewritten, Injected, Stripped;
    var info := Rewritten(p, list, channelBindings, mic, targetName);
    RewrittenPairs(p, pairs, list, channelBindings, mic, targetName, []);
    assert info + [] == info;
    ListPairs(pairs, list);
    InjectedUnread(p, channelBindings, mic, targetName);
    AddedUnread(p, pairs, Injected(p, channelBindings, mic, targetName));
  }

  lemma ListPairs(pairs: seq<AvPair>, list: Bytes)
    requires AllFit(pairs)
    requires list == Terminated(pairs) || (pairs == [] && list == [])
    ensures Pairs(list) == pairs
  {
    if list != [] {
      ReadAll(pairs, Terminator());
      NothingAfterTerminator([]);
      assert Terminator() + [] == Terminator();
    }
  }

  lemma InjectedUnread(p: Primitives, channelBindings: Option<Digest>, mic: bool, targetName: Option<string>)
    ensures forall pair | pair in Injected(p, channelBindings, mic, targetName) ::
              pair.id != AV_NB_DOMAIN_NAME && pair.id != AV_TIMESTAMP
  {
  }

  lemma {:induction false} AddedUnread(p: Primitives, pairs: seq<AvPair>, added: seq<AvPair>)
    requires forall pair | pair in added :: pair.id != AV_NB_DOMAIN_NAME && pair.id != AV_TIMESTAMP
    ensures Summary(p, pairs + added) == Summary(p, pairs)
  {
    hide Summary;
    if added == [] {
      assert pairs + added == pairs;
    } else {
      var init, last := added[..|added| - 1], added[|added| - 1];
      AddedUnread(p, pairs, init);
      assert pairs + added == pairs + init + [last];
      assert last in added;
      SummarySnoc(p, pairs + init, last);
    }
  }
}
