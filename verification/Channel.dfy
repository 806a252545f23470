/**
 Two parties running the session protocol over FIFO links, under any interleaving, and one party
 reading whatever it is given.
 */
module Channel {
  import opened Bytes
  import opened Primitives
  import opened Rc4
  import opened Session

  datatype Party = Client | Server

  datatype Action =
    | Send(from: Party, plaintext: Bytes)
    | Deliver(to: Party)

  /** One direction: sender, wire, receiver, and what was sent and returned so far. */
  datatype Link = Link(tx: Half, wire: seq<Bytes>, rx: Half, sent: seq<Bytes>,
                       received: seq<Result<Bytes, UnsealError>>)

  datatype Net = Net(client: State, server: State,
                     toServer: seq<Bytes>, toClient: seq<Bytes>,
                     sentByClient: seq<Bytes>, sentByServer: seq<Bytes>,
                     atServer: seq<Result<Bytes, UnsealError>>, atClient: seq<Result<Bytes, UnsealError>>)

  function Start(session: State): Net {
    Net(session, Mirror(session), [], [], [], [], [], [])
  }

  /** One step; both parties run the same code, so the server also sends on its `client` half. */
  function Next(p: Primitives, n: Net, a: Action): Net {
    match a
    case Send(Client, m) =>
      n.(toServer := n.toServer + [SealMessage(p, n.client.client, m)],
         client := n.client.(client := AfterMessage(n.client.client, |m|)),
         sentByClient := n.sentByClient + [m])
    case Send(Server, m) =>
      n.(toClient := n.toClient + [SealMessage(p, n.server.client, m)],
         server := n.server.(client := AfterMessage(n.server.client, |m|)),
         sentByServer := n.sentByServer + [m])
    case Deliver(Server) =>
      if n.toServer == [] then n else
        var (r, h) := UnsealMessage(p, n.server.server, n.toServer[0]);
        n.(toServer := n.toServer[1..], server := n.server.(server := h), atServer := n.atServer + [r])
    case Deliver(Client) =>
      if n.toClient == [] then n else
        var (r, h) := UnsealMessage(p, n.client.server, n.toClient[0]);
        n.(toClient := n.toClient[1..], client := n.client.(server := h), atClient := n.atClient + [r])
  }

  function Run(p: Primitives, n: Net, actions: seq<Action>): Net {
    if actions == [] then n else Next(p, Run(p, n, actions[..|actions| - 1]), actions[|actions| - 1])
  }

  function Upstream(n: Net): Link {
    Link(n.client.client, n.toServer, n.server.server, n.sentByClient, n.atServer)
  }

  function Downstream(n: Net): Link {
    Link(n.server.client, n.toClient, n.client.server, n.sentByServer, n.atClient)
  }

  /** `h` after sending `messages` one by one. */
  function AfterMessages(h: Half, messages: seq<Bytes>): Half {
    if messages == [] then h
    else AfterMessage(AfterMessages(h, messages[..|messages| - 1]), |messages[|messages| - 1]|)
  }

  function Delivered(messages: seq<Bytes>): (r: seq<Result<Bytes, UnsealError>>)
    ensures |r| == |messages|
  {
    seq(|messages|, k requires 0 <= k < |messages| => Ok(messages[k]))
  }

  /**
   Every message returned so far is the one sent, in order and without a failure; the rest is on the
   wire, sealed from consecutive positions that start where the receiver stands and end where the
   sender stands.
   */
  ghost predicate InStep(p: Primitives, l: Link) {
    && |l.received| + |l.wire| == |l.sent|
    && l.received == Delivered(l.sent[..|l.received|])
    && l.tx == AfterMessages(l.rx, l.sent[|l.received|..])
    && forall k :: 0 <= k < |l.wire| ==>
         l.wire[k] == SealMessage(p, AfterMessages(l.rx, l.sent[|l.received|..][..k]), l.sent[|l.received| + k])
  }

  lemma {:induction false} AfterMessagesSplit(h: Half, first: Bytes, rest: seq<Bytes>)
    ensures AfterMessages(h, [first] + rest) == AfterMessages(AfterMessage(h, |first|), rest)
  {
    var all := [first] + rest;
    if rest == [] {
      assert all[..0] == [];
    } else {
      assert all[..|all| - 1] == [first] + rest[..|rest| - 1];
      AfterMessagesSplit(h, first, rest[..|rest| - 1]);
    }
  }

  lemma SendKeepsStep(p: Primitives, l: Link, m: Bytes)
    requires InStep(p, l)
    ensures InStep(p, l.(tx := AfterMessage(l.tx, |m|), wire := l.wire + [SealMessage(p, l.tx, m)],
                         sent := l.sent + [m]))
  {
    hide AfterMessage, SealMessage;
    var n := |l.received|;
    var pending := l.sent[n..];
    var pending' := (l.sent + [m])[n..];
    assert pending' == pending + [m] && pending'[..|pending|] == pending;
    assert (l.sent + [m])[..n] == l.sent[..n];
    forall k | 0 <= k < |l.wire|
      ensures pending'[..k] == pending[..k]
    {
    }
  }

  /** Taking the oldest message off the wire, when the receiver returns it and moves past it. */
  lemma ReturnOldest(p: Primitives, l: Link, m: Bytes)
    requires InStep(p, l) && l.wire != [] && m == l.sent[|l.received|]
    ensures InStep(p, l.(rx := AfterMessage(l.rx, |m|), wire := l.wire[1..], received := l.received + [Ok(m)]))
  {
    hide AfterMessage, SealMessage;
    var l' := l.(rx := AfterMessage(l.rx, |m|), wire := l.wire[1..], received := l.received + [Ok(m)]);
    var n := |l.received|;
    var pending, pending' := l.sent[n..], l'.sent[n + 1..];
    assert pending == [m] + pending';
    AfterMessagesSplit(l.rx, m, pending');
    assert l'.received == Delivered(l'.sent[..n + 1]);
    hide AfterMessages;
    forall k | 0 <= k < |l'.wire|
      ensures l'.wire[k] == SealMessage(p, AfterMessages(l'.rx, pending'[..k]), l'.sent[n + 1 + k])
    {
      assert pending[..k + 1] == [m] + pending'[..k];
      AfterMessagesSplit(l.rx, m, pending'[..k]);
      assert l.wire[k + 1] == SealMessage(p, AfterMessages(l.rx, pending[..k + 1]), l.sent[n + (k + 1)]);
    }
  }

  lemma DeliverKeepsStep(p: Primitives, l: Link)
    requires InStep(p, l) && l.wire != []
    ensures var (r, h) := UnsealMessage(p, l.rx, l.wire[0]);
            InStep(p, l.(rx := h, wire := l.wire[1..], received := l.received + [r]))
  {
    var m := l.sent[|l.received|];
    assert l.sent[|l.received|..][..0] == [];
    assert l.wire[0] == SealMessage(p, l.rx, m);
    SealThenUnseal(p, l.rx, m);
    ReturnOldest(p, l, m);
    hide InStep, UnsealMessage, SealMessage, AfterMessage;
  }

  /**
   The two-party channel: from any session and its mirror image, after any number of sends and
   deliveries in any order, both directions are in step.
   */
  lemma {:induction false} ChannelStaysInStep(p: Primitives, session: State, actions: seq<Action>)
    ensures InStep(p, Upstream(Run(p, Start(session), actions)))
    ensures InStep(p, Downstream(Run(p, Start(session), actions)))
  {
    hide AfterMessage, SealMessage, UnsealMessage;
    if actions != [] {
      ChannelStaysInStep(p, session, actions[..|actions| - 1]);
      var n := Run(p, Start(session), actions[..|actions| - 1]);
      match actions[|actions| - 1]
      case Send(Client, m) => SendKeepsStep(p, Upstream(n), m);
      case Send(Server, m) => SendKeepsStep(p, Downstream(n), m);
      case Deliver(Server) => if n.toServer != [] { DeliverKeepsStep(p, Upstream(n)); }
      case Deliver(Client) => if n.toClient != [] { DeliverKeepsStep(p, Downstream(n)); }
    }
  }

  /** What a party sends in a run, in order. */
  function SentBy(actions: seq<Action>, from: Party): seq<Bytes> {
    if actions == [] then [] else
      var (before, last) := (SentBy(actions[..|actions| - 1], from), actions[|actions| - 1]);
      if last.Send? && last.from == from then before + [last.plaintext] else before
  }

  function Other(party: Party): Party {
    if party.Client? then Server else Client
  }

  /** How many messages reach a party: one with each delivery to it while there are any on the way. */
  function Arrived(actions: seq<Action>, to: Party): (n: nat)
    ensures n <= |SentBy(actions, Other(to))|
  {
    if actions == [] then 0 else
      var (init, last) := (actions[..|actions| - 1], actions[|actions| - 1]);
      var before := Arrived(init, to);
      if last == Deliver(to) && before < |SentBy(init, Other(to))| then before + 1 else before
  }

  /** What one step adds to the messages sent and to the messages returned. */
  lemma StepCounts(p: Primitives, n: Net, a: Action)
    ensures var n' := Next(p, n, a);
            && n'.sentByClient == n.sentByClient + (if a.Send? && a.from == Client then [a.plaintext] else [])
            && n'.sentByServer == n.sentByServer + (if a.Send? && a.from == Server then [a.plaintext] else [])
            && |n'.atServer| == |n.atServer| + (if a == Deliver(Server) && n.toServer != [] then 1 else 0)
            && |n'.atClient| == |n.atClient| + (if a == Deliver(Client) && n.toClient != [] then 1 else 0)
            && |n'.toServer| + |n'.atServer| - |n'.sentByClient| == |n.toServer| + |n.atServer| - |n.sentByClient|
            && |n'.toClient| + |n'.atClient| - |n'.sentByServer| == |n.toClient| + |n.atClient| - |n.sentByServer|
  {
    hide AfterMessage, SealMessage, UnsealMessage;
  }

  lemma {:induction false} TrafficCounts(p: Primitives, session: State, actions: seq<Action>)
    ensures var n := Run(p, Start(session), actions);
            && n.sentByClient == SentBy(actions, Client) && n.sentByServer == SentBy(actions, Server)
            && |n.atServer| == Arrived(actions, Server) && |n.atClient| == Arrived(actions, Client)
            && |n.toServer| == |n.sentByClient| - |n.atServer| && |n.toClient| == |n.sentByServer| - |n.atClient|
  {
    if actions != [] {
      hide Next;
      var init := actions[..|actions| - 1];
      TrafficCounts(p, session, init);
      StepCounts(p, Run(p, Start(session), init), actions[|actions| - 1]);
    }
  }

  /**
   What two parties get over a run, told from its actions alone: each message that was delivered, unchanged
   and in order, however sends and deliveries interleave.
   */
  lemma ChannelDelivers(p: Primitives, session: State, actions: seq<Action>)
    ensures var n := Run(p, Start(session), actions);
            && n.atServer == Delivered(SentBy(actions, Client)[..Arrived(actions, Server)])
            && n.atClient == Delivered(SentBy(actions, Server)[..Arrived(actions, Client)])
  {
    hide AfterMessage, SealMessage, UnsealMessage, Run, AfterMessages;
    TrafficCounts(p, session, actions);
    ChannelStaysInStep(p, session, actions);
  }

  /** Total keystream bytes that `messages` take: each payload and its eight-byte checksum. */
  function KeystreamUsed(messages: seq<Bytes>): nat {
    if messages == [] then 0
    else KeystreamUsed(messages[..|messages| - 1]) + |messages[|messages| - 1]| + 8
  }

  /** A sender's position is the receiver's moved on by the messages in flight, counted in closed form. */
  lemma {:induction false} PositionAfter(h: Half, messages: seq<Bytes>)
    ensures AfterMessages(h, messages)
         == Moved(h, |messages|, KeystreamUsed(messages))
  {
    hide Moved;
    MovedZero(h);
    if messages != [] {
      var init, last := messages[..|messages| - 1], messages[|messages| - 1];
      PositionAfter(h, init);
      MovedSum(h, |init|, KeystreamUsed(init), 1, |last| + 8);
    }
  }

  /** Once a wire is empty, everything sent has been returned and both ends stand at the same position. */
  lemma DrainedLinksAgree(p: Primitives, session: State, actions: seq<Action>)
    ensures var n := Run(p, Start(session), actions);
            n.toServer == [] ==> n.atServer == Delivered(n.sentByClient) && n.server.server == n.client.client
    ensures var n := Run(p, Start(session), actions);
            n.toClient == [] ==> n.atClient == Delivered(n.sentByServer) && n.client.server == n.server.client
  {
    ChannelStaysInStep(p, session, actions);
    var n := Run(p, Start(session), actions);
    hide Run;
    assert n.toServer == []
        ==> n.sentByClient[..|n.atServer|] == n.sentByClient && n.sentByClient[|n.atServer|..] == [];
    assert n.toClient == []
        ==> n.sentByServer[..|n.atClient|] == n.sentByServer && n.sentByServer[|n.atClient|..] == [];
  }

  /**
   A detached signature takes a sequence number that no receiver accounts for: from then on the peer
   refuses every message, however many are sealed first, and stays as it was.
   */
  lemma SignLosesPeer(p: Primitives, h: Half, between: seq<Bytes>, plaintext: Bytes)
    requires |between| + 1 < U32
    ensures UnsealMessage(p, h, SealMessage(p, AfterMessages(AfterMessage(h, 0), between), plaintext))
            == (Err(BadSequence), h)
  {
    var tx := AfterMessages(AfterMessage(h, 0), between);
    hide Advance, AfterMessages, SeqPlus;
    PositionAfter(AfterMessage(h, 0), between);
    SeqPlusZero(h.seqNum);
    SeqPlusSum(h.seqNum, 1, |between|);
    SeqPlusDiffers(h.seqNum, 0, 1 + |between|);
    OutOfStepIsRefused(p, h, tx, plaintext);
    hide UnsealMessage, SealMessage;
  }

  /** One receiver given any byte strings: what each call returned, and where the receiver ends. */
  function UnsealAll(p: Primitives, h: Half, inputs: seq<Bytes>): (r: (seq<Result<Bytes, UnsealError>>, Half))
    ensures |r.0| == |inputs|
  {
    if inputs == [] then ([], h) else
      var (results, h') := UnsealAll(p, h, inputs[..|inputs| - 1]);
      var (r, h'') := UnsealMessage(p, h', inputs[|inputs| - 1]);
      (results + [r], h'')
  }

  function Accepted(results: seq<Result<Bytes, UnsealError>>): (n: nat)
    ensures n <= |results|
  {
    if results == [] then 0
    else Accepted(results[..|results| - 1]) + if results[|results| - 1].Ok? then 1 else 0
  }

  /** A call got past the header checks when it used keystream. */
  predicate PastHeader(r: Result<Bytes, UnsealError>) {
    r.Ok? || r == Err(BadChecksum)
  }

  /** Keystream taken by the calls that got past the header checks: ciphertext and checksum of each. */
  function KeystreamTaken(inputs: seq<Bytes>, results: seq<Result<Bytes, UnsealError>>): nat
    requires |inputs| == |results|
  {
    if inputs == [] then 0 else
      var (i, r) := (inputs[|inputs| - 1], results[|results| - 1]);
      KeystreamTaken(inputs[..|inputs| - 1], results[..|results| - 1])
      + if PastHeader(r) && |i| >= SIGNATURE_LEN then |i| - SIGNATURE_LEN + 8 else 0
  }

  lemma UnsealEffect(p: Primitives, h: Half, input: Bytes)
    ensures var r := UnsealMessage(p, h, input).0;
            PastHeader(r) ==> |input| >= SIGNATURE_LEN && LeValue(input[12..16]) == h.seqNum
    ensures var (r, h') := UnsealMessage(p, h, input);
            h' == if !PastHeader(r) then h
                  else Moved(h, if r.Ok? then 1 else 0, |input| - SIGNATURE_LEN + 8)
  {
    hide Advance, Crypt, Checksum, LeValue, SeqPlus;
    var (r, h') := UnsealMessage(p, h, input);
    if HeaderError(h, input).Some? {
      assert r == Err(HeaderError(h, input).value);
    } else {
      SeqPlusZero(h.seqNum);
      AdvanceSum(h.cipher, |input| - SIGNATURE_LEN, 8);
    }
  }

  /** The receiver's state is a function of how many calls succeeded and how much got past the header. */
  lemma {:induction false} UnsealAllState(p: Primitives, h: Half, inputs: seq<Bytes>)
    ensures var (results, h') := UnsealAll(p, h, inputs);
            h' == Moved(h, Accepted(results), KeystreamTaken(inputs, results))
  {
    hide UnsealMessage, Moved;
    MovedZero(h);
    if inputs != [] {
      var init, last := inputs[..|inputs| - 1], inputs[|inputs| - 1];
      UnsealAllState(p, h, init);
      var (results, h') := UnsealAll(p, h, init);
      var all := UnsealAll(p, h, inputs);
      assert all.0[..|inputs| - 1] == results;
      UnsealEffect(p, h', last);
      var r := all.0[|inputs| - 1];
      if PastHeader(r) {
        MovedSum(h, Accepted(results), KeystreamTaken(init, results),
                 if r.Ok? then 1 else 0, |last| - SIGNATURE_LEN + 8);
      }
    }
  }

  lemma {:induction false} UnsealAllPrefix(p: Primitives, h: Half, inputs: seq<Bytes>, k: nat)
    requires k <= |inputs|
    ensures UnsealAll(p, h, inputs).0[..k] == UnsealAll(p, h, inputs[..k]).0
  {
    if k == |inputs| {
      assert inputs[..k] == inputs;
    } else {
      UnsealAllPrefix(p, h, inputs[..|inputs| - 1], k);
      assert inputs[..|inputs| - 1][..k] == inputs[..k];
    }
  }

  /** The accepted messages carry consecutive sequence numbers, whatever was offered in between. */
  lemma AcceptedInOrder(p: Primitives, h: Half, inputs: seq<Bytes>, k: nat)
    requires k < |inputs| && UnsealAll(p, h, inputs).0[k].Ok?
    ensures |inputs[k]| >= SIGNATURE_LEN
    ensures LeValue(inputs[k][12..16]) == SeqPlus(h.seqNum, Accepted(UnsealAll(p, h, inputs).0[..k]))
  {
    hide UnsealMessage, Advance, Accepted, KeystreamTaken;
    UnsealAllPrefix(p, h, inputs, k);
    UnsealAllPrefix(p, h, inputs, k + 1);
    UnsealAllState(p, h, inputs[..k]);
    assert inputs[..k + 1][..k] == inputs[..k];
    var results := UnsealAll(p, h, inputs).0;
    assert results[k] == results[..k + 1][k];
    UnsealEffect(p, UnsealAll(p, h, inputs[..k]).1, inputs[k]);
  }

  lemma {:induction false} AcceptedGrows(results: seq<Result<Bytes, UnsealError>>, j: nat, k: nat)
    requires j < k <= |results| && results[j].Ok?
    ensures Accepted(results[..j]) < Accepted(results[..k]) <= Accepted(results[..j]) + (k - j)
  {
    if k > j + 1 {
      AcceptedGrows(results, j, k - 1);
    }
    assert results[..k][..k - 1] == results[..k - 1];
  }

  /** No message is accepted twice, unless 2^32 or more messages are accepted in between. */
  lemma NoReplay(p: Primitives, h: Half, inputs: seq<Bytes>, j: nat, k: nat)
    requires j < k < |inputs|
    requires var results := UnsealAll(p, h, inputs).0;
             results[j].Ok? && results[k].Ok? && Accepted(results[..k]) < Accepted(results[..j]) + U32
    ensures inputs[j] != inputs[k]
  {
    hide UnsealAll, Accepted, SeqPlus;
    var results := UnsealAll(p, h, inputs).0;
    AcceptedInOrder(p, h, inputs, j);
    AcceptedInOrder(p, h, inputs, k);
    AcceptedGrows(results, j, k);
    SeqPlusDiffers(h.seqNum, Accepted(results[..j]), Accepted(results[..k]));
  }
}
