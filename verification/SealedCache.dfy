/**
 The sealed-session cache of the transport: concurrent calls over one mutex-guarded cache, a network that
 may lose or alter anything, and the server's end of every session as a ghost.
 */
module SealedCache {
  import opened Bytes
  import opened Primitives
  import Rc4
  import opened Search
  import opened Session
  import opened Multipart

  /**
   A session on the client, its peer on the server, and whether the network has left it intact: nothing sent
   on it was lost, altered or run into the closing marker, and neither end was rebuilt.
   */
  datatype Pair = Pair(host: string, client: State, server: State, intact: bool)

  /** What the caller of one exchange sees. */
  datatype Outcome = Answer(text: Bytes) | Denied | Failure

  /** How far the server gets in a faulty exchange: it may see any bytes as the request, and may reply to them. */
  datatype Progress =
    | Untouched
    | Took(request: Bytes)
    | Replied(request: Bytes, text: Bytes)

  /**
   What becomes of an exchange: the server serves it and both messages arrive; or it is faulty, the server
   gets somewhere, and the client sees nothing or any response.
   */
  datatype Net =
    | Served(text: Bytes)
    | Faulty(progress: Progress, seen: Option<(nat, Bytes)>)

  predicate Success(status: nat) {
    200 <= status < 300
  }

  /** The client's reading of a response other than 401; `octet` says whether the second marker counts. */
  function Receive(p: Primitives, h: Half, status: nat, bytes: Bytes, octet: bool): (Outcome, Half) {
    if Occurs(bytes, Ascii("Encrypted Boundary")) || (octet && Occurs(bytes, Ascii("application/octet-stream"))) then
      var (r, h') := UnsealFrame(p, h, bytes);
      (if r.Ok? && Success(status) then Answer(r.value) else Failure, h')
    else (if Success(status) then Answer(p.utf8Lossy(bytes)) else Failure, h)
  }

  /** What the client makes of the response it sees; `None` when the HTTP layer fails. */
  function Seen(p: Primitives, h: Half, response: Option<(nat, Bytes)>, octet: bool): (Outcome, Half) {
    match response
    case None => (Failure, h)
    case Some((status, bytes)) => if status == 401 then (Denied, h) else Receive(p, h, status, bytes, octet)
  }

  /** A response that is to be unsealed; `octet` says whether the second marker counts. */
  predicate LooksSealed(bytes: Bytes, octet: bool) {
    Occurs(bytes, Ascii("Encrypted Boundary")) || (octet && Occurs(bytes, Ascii("application/octet-stream")))
  }

  /**
   When a response is an answer, and which: a status from 200 to 299 and, if it looks sealed, a body that
   unseals to the text. A 401 is a refusal, no response a failure, and only unsealing moves the session.
   */
  lemma SeenMeans(p: Primitives, h: Half, status: nat, bytes: Bytes, octet: bool, text: Bytes)
    ensures Seen(p, h, None, octet) == (Failure, h)
    ensures Seen(p, h, Some((status, bytes)), octet).0 == Denied <==> status == 401
    ensures Seen(p, h, Some((status, bytes)), octet).0 == Answer(text) <==>
              && 200 <= status <= 299
              && if LooksSealed(bytes, octet) then UnsealFrame(p, h, bytes).0 == Ok(text)
                 else text == p.utf8Lossy(bytes)
    ensures Seen(p, h, Some((status, bytes)), octet).1
         == if status != 401 && LooksSealed(bytes, octet) then UnsealFrame(p, h, bytes).1 else h
  {
    hide UnsealFrame, Occurs;
  }

  /** The server's session after what it saw of an exchange; a request it cannot read gets no sealed reply. */
  function Progressed(p: Primitives, server: State, progress: Progress): State {
    match progress
    case Untouched => server
    case Took(request) => server.(server := UnsealFrame(p, server.server, request).1)
    case Replied(request, text) =>
      var (r, rx) := UnsealFrame(p, server.server, request);
      State(if r.Ok? then AfterMessage(server.client, |text|) else server.client, rx)
  }

  /** Whatever the server sees, it sends only on a request that it can read, and reads it by its own session. */
  lemma ProgressedMeans(p: Primitives, server: State, request: Bytes, text: Bytes)
    ensures var (s, r) := (Progressed(p, server, Replied(request, text)), UnsealFrame(p, server.server, request));
            && s.server == r.1 == Progressed(p, server, Took(request)).server
            && s.client == if r.0.Err? then server.client else AfterMessage(server.client, |text|)
  {
    hide UnsealFrame, AfterMessage;
  }

  /** A sealed request: the bytes on the wire and the session behind them. */
  function Send(p: Primitives, s: Pair, body: Bytes): (r: (Bytes, Pair))
    ensures r.1.host == s.host
  {
    (Frame(SealMessage(p, s.client.client, body), |body|),
     s.(client := s.client.(client := AfterMessage(s.client.client, |body|)),
        intact := s.intact && Unharmed(p, s.client.client, body)))
  }

  /** A message that arrives whole can be unsealed: it is text, and the closing marker is where it should be. */
  predicate Unharmed(p: Primitives, h: Half, text: Bytes) {
    p.isUtf8(text) && MarkerFree(SealMessage(p, h, text))
  }

  /** The rest of an exchange once `wire`, which seals `body`, is out. */
  function Complete(p: Primitives, s: Pair, body: Bytes, wire: Bytes, net: Net, octet: bool): (r: (Outcome, Pair))
    ensures r.1.host == s.host
  {
    match net
    case Faulty(progress, seen) =>
      var (o, h) := Seen(p, s.client.server, seen, octet);
      (o, Pair(s.host, s.client.(server := h), Progressed(p, s.server, progress), false))
    case Served(text) =>
      var server := Progressed(p, s.server, Replied(wire, text));
      if UnsealFrame(p, s.server.server, wire).0.Err? then (Denied, s.(server := server, intact := false)) else
        var reply := Frame(SealMessage(p, s.server.client, text), |text|);
        var (o, h) := Seen(p, s.client.server, Some((200, reply)), octet);
        (o, Pair(s.host, s.client.(server := h), server, s.intact && Unharmed(p, s.server.client, text)))
  }

  /**
   `send_sealed_body`: one exchange on a session, whatever comes back for the request (`None` when the HTTP
   layer fails).
   */
  method SendSealedBody(session: NtlmSession, body: Bytes, response: Option<(nat, Bytes)>)
      returns (request: Bytes, outcome: Outcome)
    requires session.Valid()
    modifies session, session.clientSealHandle, session.clientSealHandle.s, session.serverSealHandle,
        session.serverSealHandle.s
    ensures request == Frame(SealMessage(session.primitives, old(session.View()).client, body), |body|)
    ensures session.View().client == AfterMessage(old(session.View()).client, |body|)
    ensures (outcome, session.View().server) == Seen(session.primitives, old(session.View()).server, response, true)
  {
    hide Frame, SealMessage, AfterMessage, UnsealFrame, Rc4.Advance;
    var contentType;
    contentType, request := SealBody(session, body);
    if response == None {
      return request, Failure;
    }
    var (status, bytes) := response.value;
    if status == 401 {
      return request, Denied;
    }
    var marked := Find(bytes, Ascii("Encrypted Boundary"));
    var octets := Find(bytes, Ascii("application/octet-stream"));
    FindMeansOccurs(bytes, Ascii("Encrypted Boundary"));
    FindMeansOccurs(bytes, Ascii("application/octet-stream"));
    if marked.Some? || octets.Some? {
      var r := UnsealBody(session, bytes);
      outcome := if r.Ok? && Success(status) then Answer(r.value) else Failure;
    } else {
      outcome := if Success(status) then Answer(session.primitives.utf8Lossy(bytes)) else Failure;
    }
  }

  lemma FindMeansOccurs(hay: Bytes, needle: Bytes)
    ensures Find(hay, needle).Some? <==> Occurs(hay, needle)
  {
  }

  /** Where a call stands; a call in `Cached` holds the lock. */
  datatype Stage =
    | Ready
    | Cached(wire: Bytes)
    | Handshaking
    | Fresh(session: nat, wire: Bytes)
    | FallingBack
    | Publishing(session: nat, text: Bytes)
    | Returned(result: Option<Bytes>)

  datatype Call = Call(host: string, body: Bytes, stage: Stage, cachedSends: nat, handshakes: nat)

  datatype Entry = Entry(host: string, session: nat)

  /** A body sealed on a session for a call to a host. */
  datatype Use = Use(session: nat, host: string)

  datatype Transport = Transport(
    holder: Option<nat>, cache: Option<Entry>, sessions: map<nat, Pair>, calls: map<nat, Call>, uses: seq<Use>)

  const INITIAL := Transport(None, None, map[], map[], [])

  datatype Action =
    | Begin(call: nat, host: string, body: Bytes)
    | Look(call: nat)
    | CachedReply(call: nat, net: Net)
    | Handshake(call: nat, session: nat, key: Option<Digest>)
    | FreshReply(call: nat, net: Net)
    | Fallback(call: nat, session: nat, key: Option<Digest>, net: Net)
    | Publish(call: nat)

  function Established(p: Primitives, host: string, key: Digest): Pair {
    Pair(host, FromKey(p, key), Mirror(FromKey(p, key)), true)
  }

  function Move(t: Transport, call: nat, stage: Stage): Transport
    requires call in t.calls
  {
    t.(calls := t.calls[call := t.calls[call].(stage := stage)])
  }

  /** Taking the lock and looking at the cache: seal on a matching session, or clear a foreign one and let go. */
  function LookUp(p: Primitives, t: Transport, call: nat): Transport
    requires call in t.calls
  {
    var c := t.calls[call];
    if t.cache.Some? && t.cache.value.host == c.host && t.cache.value.session in t.sessions then
      var id := t.cache.value.session;
      var (wire, s) := Send(p, t.sessions[id], c.body);
      t.(holder := Some(call), sessions := t.sessions[id := s], uses := t.uses + [Use(id, c.host)],
         calls := t.calls[call := c.(stage := Cached(wire), cachedSends := c.cachedSends + 1)])
    else Move(t, call, Handshaking).(cache := None)
  }

  /** The end of an exchange on the cached session; the lock is let go in every case. */
  function AfterCached(p: Primitives, t: Transport, call: nat, net: Net): Transport
    requires call in t.calls && t.calls[call].stage.Cached? && t.cache.Some? && t.cache.value.session in t.sessions
  {
    var c, id := t.calls[call], t.cache.value.session;
    var (o, s) := Complete(p, t.sessions[id], c.body, c.stage.wire, net, true);
    var t' := t.(holder := None, sessions := t.sessions[id := s]);
    match o
    case Answer(text) => Move(t', call, Returned(Some(text)))
    case Denied => Move(t', call, Handshaking).(cache := None)
    case Failure => Move(t', call, Returned(None))
  }

  /** The blank handshake, and the first body sealed on the new session. */
  function AfterHandshake(p: Primitives, t: Transport, call: nat, id: nat, key: Option<Digest>): Transport
    requires call in t.calls
  {
    var c := t.calls[call].(handshakes := t.calls[call].handshakes + 1);
    if key.None? then t.(calls := t.calls[call := c.(stage := Returned(None))]) else
      var (wire, s) := Send(p, Established(p, c.host, key.value), c.body);
      t.(sessions := t.sessions[id := s], uses := t.uses + [Use(id, c.host)],
         calls := t.calls[call := c.(stage := Fresh(id, wire))])
  }

  function AfterFresh(p: Primitives, t: Transport, call: nat, net: Net): Transport
    requires call in t.calls && t.calls[call].stage.Fresh? && t.calls[call].stage.session in t.sessions
  {
    var c, id := t.calls[call], t.calls[call].stage.session;
    var (o, s) := Complete(p, t.sessions[id], c.body, c.stage.wire, net, true);
    var t' := t.(sessions := t.sessions[id := s]);
    match o
    case Answer(text) => Move(t', call, Publishing(id, text))
    case Denied => Move(t', call, FallingBack)
    case Failure => Move(t', call, Returned(None))
  }

  /** A response to a handshake with an empty body is not read. */
  function FallbackOutcome(body: Bytes, net: Net, reply: Outcome): Outcome {
    if body == [] && !(net.Faulty? && net.seen.None?) && !reply.Denied? then Answer([]) else reply
  }

  /**
   The second handshake, with the body sealed in it. The session that is then cached is rebuilt from the
   key, while the server has already used its end once.
   */
  function AfterFallback(p: Primitives, t: Transport, call: nat, id: nat, key: Option<Digest>, net: Net): Transport
    requires call in t.calls
  {
    var c := t.calls[call].(handshakes := t.calls[call].handshakes + 1);
    if key.None? then t.(calls := t.calls[call := c.(stage := Returned(None))]) else
      var started := Established(p, c.host, key.value);
      var (wire, sent) := Send(p, started, c.body);
      var (reply, s) := Complete(p, sent, c.body, wire, net, false);
      var o := FallbackOutcome(c.body, net, reply);
      var rebuilt := s.(client := started.client, intact := false);
      t.(sessions := t.sessions[id := rebuilt], uses := t.uses + [Use(id, c.host)],
         calls := t.calls[call := c.(stage := if o.Answer? then Publishing(id, o.text) else Returned(None))])
  }

  function Published(t: Transport, call: nat): Transport
    requires call in t.calls && t.calls[call].stage.Publishing?
  {
    Move(t, call, Returned(Some(t.calls[call].stage.text)))
    .(cache := Some(Entry(t.calls[call].host, t.calls[call].stage.session)))
  }

  /** One step; an action that is not enabled changes nothing. */
  function Next(p: Primitives, t: Transport, a: Action): Transport {
    match a
    case Begin(call, host, body) =>
      if call in t.calls then t else t.(calls := t.calls[call := Call(host, body, Ready, 0, 0)])
    case Look(call) =>
      if call in t.calls && t.calls[call].stage == Ready && t.holder == None then LookUp(p, t, call) else t
    case CachedReply(call, net) =>
      if call in t.calls && t.calls[call].stage.Cached? && t.cache.Some? && t.cache.value.session in t.sessions
      then AfterCached(p, t, call, net) else t
    case Handshake(call, id, key) =>
      if call in t.calls && t.calls[call].stage == Handshaking && id !in t.sessions
      then AfterHandshake(p, t, call, id, key) else t
    case FreshReply(call, net) =>
      if call in t.calls && t.calls[call].stage.Fresh? && t.calls[call].stage.session in t.sessions
      then AfterFresh(p, t, call, net) else t
    case Fallback(call, id, key, net) =>
      if call in t.calls && t.calls[call].stage == FallingBack && id !in t.sessions
      then AfterFallback(p, t, call, id, key, net) else t
    case Publish(call) =>
      if call in t.calls && t.calls[call].stage.Publishing? && t.holder == None
      then Published(t, call) else t
  }

  function RunFrom(p: Primitives, t: Transport, actions: seq<Action>): Transport {
    if actions == [] then t else Next(p, RunFrom(p, t, actions[..|actions| - 1]), actions[|actions| - 1])
  }

  function Run(p: Primitives, actions: seq<Action>): Transport {
    RunFrom(p, INITIAL, actions)
  }

  /** The session a call holds for itself, before it is published. */
  function Own(c: Call): Option<nat> {
    if c.stage.Fresh? || c.stage.Publishing? then Some(c.stage.session) else None
  }

  /** A request that is out: on which session, sealing which body. */
  datatype Out = Out(session: nat, body: Bytes, wire: Bytes)

  function Exchanging(t: Transport, call: nat): Option<Out>
    requires call in t.calls
  {
    var c := t.calls[call];
    if c.stage.Fresh? then Some(Out(c.stage.session, c.body, c.stage.wire))
    else if c.stage.Cached? && t.cache.Some? then Some(Out(t.cache.value.session, c.body, c.stage.wire))
    else None
  }

  /** The lock is held exactly by the call whose request is out on the cached session, which is for its host. */
  ghost predicate LockInvariant(t: Transport) {
    && (forall c | c in t.calls :: t.calls[c].stage.Cached? <==> t.holder == Some(c))
    && (t.holder.Some? ==>
          t.holder.value in t.calls && t.cache.Some? && t.cache.value.host == t.calls[t.holder.value].host)
  }

  /** Every session in use is the cache's or one call's, and belongs to the host of its user. */
  ghost predicate OwnershipInvariant(t: Transport) {
    && (t.cache.Some? ==>
          t.cache.value.session in t.sessions && t.sessions[t.cache.value.session].host == t.cache.value.host)
    && (forall c | c in t.calls && Own(t.calls[c]).Some? ::
          && Own(t.calls[c]).value in t.sessions
          && t.sessions[Own(t.calls[c]).value].host == t.calls[c].host
          && (t.cache.Some? ==> Own(t.calls[c]).value != t.cache.value.session))
    && (forall c, d | c in t.calls && d in t.calls && c != d && Own(t.calls[c]).Some? ::
          Own(t.calls[c]) != Own(t.calls[d]))
  }

  /** A call's counters, as far as it has come. */
  predicate Counted(c: Call) {
    && c.cachedSends <= 1 && c.handshakes <= 2
    && (c.stage.Ready? ==> c.cachedSends == 0)
    && (c.stage.Ready? || c.stage.Cached? || c.stage.Handshaking? ==> c.handshakes == 0)
    && (c.stage.Fresh? || c.stage.FallingBack? ==> c.handshakes == 1)
  }

  /** Every use of a session was for the host the session was established with. */
  ghost predicate UsesInvariant(t: Transport) {
    forall u | u in t.uses :: u.session in t.sessions && t.sessions[u.session].host == u.host
  }

  ghost predicate Safe(t: Transport) {
    && LockInvariant(t)
    && OwnershipInvariant(t)
    && (forall c | c in t.calls :: Counted(t.calls[c]))
    && UsesInvariant(t)
  }

  ghost predicate HostsKept(a: map<nat, Pair>, b: map<nat, Pair>) {
    forall id | id in a :: id in b && b[id].host == a[id].host
  }

  /** A step of one call: what it may do to the lock, the cache, the sessions and its own standing. */
  ghost predicate StepOf(t: Transport, t': Transport, call: nat) {
    && call in t.calls && call in t'.calls && t'.calls == t.calls[call := t'.calls[call]]
    && t'.calls[call].host == t.calls[call].host && Counted(t'.calls[call])
    && HostsKept(t.sessions, t'.sessions)
    && LockStep(t, t', call) && OwnerStep(t, t', t.calls[call], t'.calls[call]) && UseStep(t, t', t.calls[call].host)
  }

  ghost predicate LockStep(t: Transport, t': Transport, call: nat)
    requires call in t'.calls
  {
    && (t'.calls[call].stage.Cached? <==> t'.holder == Some(call))
    && (t'.holder == t.holder || (t.holder in {None, Some(call)} && t'.holder in {None, Some(call)}))
    && (t'.holder.Some? ==> t'.cache.Some? && t'.cache == t.cache)
    && (t'.holder == Some(call) ==> t'.cache.value.host == t'.calls[call].host)
  }

  ghost predicate OwnerStep(t: Transport, t': Transport, c: Call, c': Call) {
    && (Own(c').Some? ==>
          && (Own(c') == Own(c) || Own(c').value !in t.sessions)
          && Own(c').value in t'.sessions && t'.sessions[Own(c').value].host == c.host)
    && (t'.cache.Some? ==>
          t'.cache == t.cache
            || (t'.cache == Some(Entry(c.host, t'.cache.value.session))
              && Own(c) == Some(t'.cache.value.session) && Own(c').None?))
  }

  ghost predicate UseStep(t: Transport, t': Transport, host: string) {
    || t'.uses == t.uses
    || (t'.uses != [] && t'.uses == t.uses + [t'.uses[|t'.uses| - 1]]
        && var u := t'.uses[|t'.uses| - 1];
           u.host == host && u.session in t'.sessions && t'.sessions[u.session].host == host)
  }

  lemma StepKeepsLock(t: Transport, t': Transport, call: nat)
    requires Safe(t) && StepOf(t, t', call)
    ensures LockInvariant(t')
  {
    hide OwnershipInvariant, UsesInvariant, OwnerStep, UseStep, HostsKept, Counted;
  }

  lemma StepKeepsOwnership(t: Transport, t': Transport, call: nat)
    requires Safe(t) && StepOf(t, t', call)
    ensures OwnershipInvariant(t')
  {
    hide LockInvariant, LockStep, UsesInvariant, UseStep, Counted;
  }

  lemma StepKeepsSafe(t: Transport, t': Transport, call: nat)
    requires Safe(t) && StepOf(t, t', call)
    ensures Safe(t')
  {
    StepKeepsLock(t, t', call);
    StepKeepsOwnership(t, t', call);
    hide LockInvariant, OwnershipInvariant, OwnerStep, LockStep, Counted;
  }

  lemma LookSafe(p: Primitives, t: Transport, call: nat)
    requires Safe(t) && call in t.calls && t.calls[call].stage == Ready && t.holder == None
    ensures Safe(LookUp(p, t, call))
  {
    hide Send;
    assert StepOf(t, LookUp(p, t, call), call);
    hide Safe, StepOf, LookUp;
    StepKeepsSafe(t, LookUp(p, t, call), call);
  }

  lemma CachedReplySafe(p: Primitives, t: Transport, call: nat, net: Net)
    requires Safe(t) && call in t.calls && t.calls[call].stage.Cached? && t.cache.Some?
             && t.cache.value.session in t.sessions
    ensures Safe(AfterCached(p, t, call, net))
  {
    hide Complete;
    assert StepOf(t, AfterCached(p, t, call, net), call);
    hide Safe, StepOf, AfterCached;
    StepKeepsSafe(t, AfterCached(p, t, call, net), call);
  }

  lemma HandshakeSafe(p: Primitives, t: Transport, call: nat, id: nat, key: Option<Digest>)
    requires Safe(t) && call in t.calls && t.calls[call].stage == Handshaking && id !in t.sessions
    ensures Safe(AfterHandshake(p, t, call, id, key))
  {
    hide Send, FromKey;
    assert StepOf(t, AfterHandshake(p, t, call, id, key), call);
    hide Safe, StepOf, AfterHandshake;
    StepKeepsSafe(t, AfterHandshake(p, t, call, id, key), call);
  }

  lemma FreshReplySafe(p: Primitives, t: Transport, call: nat, net: Net)
    requires Safe(t) && call in t.calls && t.calls[call].stage.Fresh? && t.calls[call].stage.session in t.sessions
    ensures Safe(AfterFresh(p, t, call, net))
  {
    hide Complete;
    assert StepOf(t, AfterFresh(p, t, call, net), call);
    hide Safe, StepOf, AfterFresh;
    StepKeepsSafe(t, AfterFresh(p, t, call, net), call);
  }

  lemma FallbackSafe(p: Primitives, t: Transport, call: nat, id: nat, key: Option<Digest>, net: Net)
    requires Safe(t) && call in t.calls && t.calls[call].stage == FallingBack && id !in t.sessions
    ensures Safe(AfterFallback(p, t, call, id, key, net))
  {
    hide Complete, Send, FromKey;
    assert StepOf(t, AfterFallback(p, t, call, id, key, net), call);
    hide Safe, StepOf, AfterFallback;
    StepKeepsSafe(t, AfterFallback(p, t, call, id, key, net), call);
  }

  lemma PublishSafe(t: Transport, call: nat)
    requires Safe(t) && call in t.calls && t.calls[call].stage.Publishing? && t.holder == None
    ensures Safe(Published(t, call))
  {
    assert StepOf(t, Published(t, call), call);
    hide Safe, StepOf, Published;
    StepKeepsSafe(t, Published(t, call), call);
  }

  lemma NextSafe(p: Primitives, t: Transport, a: Action)
    requires Safe(t)
    ensures Safe(Next(p, t, a))
  {
    hide LookUp, AfterCached, AfterHandshake, AfterFresh, AfterFallback, Published;
    match a
    case Begin(call, host, body) =>
    case Look(call) =>
      if call in t.calls && t.calls[call].stage == Ready && t.holder == None { LookSafe(p, t, call); }
    case CachedReply(call, net) =>
      if call in t.calls && t.calls[call].stage.Cached? && t.cache.Some? && t.cache.value.session in t.sessions {
        CachedReplySafe(p, t, call, net);
      }
    case Handshake(call, id, key) =>
      if call in t.calls && t.calls[call].stage == Handshaking && id !in t.sessions {
        HandshakeSafe(p, t, call, id, key);
      }
    case FreshReply(call, net) =>
      if call in t.calls && t.calls[call].stage.Fresh? && t.calls[call].stage.session in t.sessions {
        FreshReplySafe(p, t, call, net);
      }
    case Fallback(call, id, key, net) =>
      if call in t.calls && t.calls[call].stage == FallingBack && id !in t.sessions {
        FallbackSafe(p, t, call, id, key, net);
      }
    case Publish(call) =>
      if call in t.calls && t.calls[call].stage.Publishing? && t.holder == None { PublishSafe(t, call); }
  }

  /** Every reachable state is safe. */
  lemma {:induction false} AlwaysSafe(p: Primitives, actions: seq<Action>)
    ensures Safe(Run(p, actions))
  {
    if actions != [] {
      hide Next, Safe;
      AlwaysSafe(p, actions[..|actions| - 1]);
      NextSafe(p, Run(p, actions[..|actions| - 1]), actions[|actions| - 1]);
    } else {
      assert Safe(INITIAL);
    }
  }

  /** The counters of a call go with its stages: up by one on a cached send, and when a handshake is made. */
  predicate CountsOn(c: Call, c': Call) {
    && c'.host == c.host && c'.body == c.body
    && c'.cachedSends == c.cachedSends + (if c'.stage.Cached? && !c.stage.Cached? then 1 else 0)
    && c'.handshakes
       == c.handshakes + (if (c.stage.Handshaking? || c.stage.FallingBack?) && c'.stage != c.stage then 1 else 0)
  }

  ghost predicate AllCounted(t: Transport, t': Transport) {
    forall d | d in t.calls :: d in t'.calls && CountsOn(t.calls[d], t'.calls[d])
  }

  /** A session that is new, or on which the client has sealed something, is the one use that is added. */
  ghost predicate Logged(t: Transport, t': Transport) {
    forall id | id in t'.sessions
      && (id !in t.sessions || t'.sessions[id].client.client != t.sessions[id].client.client) ::
      exists c :: c in t.calls && t'.uses == t.uses + [Use(id, t.calls[c].host)]
  }

  lemma LookRecorded(p: Primitives, t: Transport, call: nat)
    requires call in t.calls && t.calls[call].stage == Ready
    ensures AllCounted(t, LookUp(p, t, call)) && Logged(t, LookUp(p, t, call))
  {
    hide Frame, SealMessage, AfterMessage, Unharmed;
  }

  lemma CachedReplyRecorded(p: Primitives, t: Transport, call: nat, net: Net)
    requires call in t.calls && t.calls[call].stage.Cached? && t.cache.Some? && t.cache.value.session in t.sessions
    ensures AllCounted(t, AfterCached(p, t, call, net)) && Logged(t, AfterCached(p, t, call, net))
  {
    var c := t.calls[call];
    CompleteKeepsClient(p, t.sessions[t.cache.value.session], c.body, c.stage.wire, net, true);
    hide Complete;
  }

  lemma HandshakeRecorded(p: Primitives, t: Transport, call: nat, id: nat, key: Option<Digest>)
    requires call in t.calls && t.calls[call].stage == Handshaking && id !in t.sessions
    ensures var t' := AfterHandshake(p, t, call, id, key);
            AllCounted(t, t') && Logged(t, t')
  {
    hide Send, FromKey;
  }

  lemma FreshReplyRecorded(p: Primitives, t: Transport, call: nat, net: Net)
    requires call in t.calls && t.calls[call].stage.Fresh? && t.calls[call].stage.session in t.sessions
    ensures AllCounted(t, AfterFresh(p, t, call, net)) && Logged(t, AfterFresh(p, t, call, net))
  {
    var c := t.calls[call];
    CompleteKeepsClient(p, t.sessions[c.stage.session], c.body, c.stage.wire, net, true);
    hide Complete;
  }

  lemma FallbackRecorded(p: Primitives, t: Transport, call: nat, id: nat, key: Option<Digest>, net: Net)
    requires call in t.calls && t.calls[call].stage == FallingBack && id !in t.sessions
    ensures var t' := AfterFallback(p, t, call, id, key, net);
            AllCounted(t, t') && Logged(t, t')
  {
    hide Send, Complete, FromKey, FallbackOutcome;
  }

  /** What the counters and the log of uses mean, for every step: nothing is counted or logged otherwise. */
  lemma StepRecorded(p: Primitives, t: Transport, a: Action)
    ensures AllCounted(t, Next(p, t, a)) && Logged(t, Next(p, t, a))
  {
    hide LookUp, AfterCached, AfterHandshake, AfterFresh, AfterFallback;
    match a
    case Begin(call, host, body) =>
    case Look(call) =>
      if call in t.calls && t.calls[call].stage == Ready && t.holder == None { LookRecorded(p, t, call); }
    case CachedReply(call, net) =>
      if call in t.calls && t.calls[call].stage.Cached? && t.cache.Some? && t.cache.value.session in t.sessions {
        CachedReplyRecorded(p, t, call, net);
      }
    case Handshake(call, id, key) =>
      if call in t.calls && t.calls[call].stage == Handshaking && id !in t.sessions {
        HandshakeRecorded(p, t, call, id, key);
      }
    case FreshReply(call, net) =>
      if call in t.calls && t.calls[call].stage.Fresh? && t.calls[call].stage.session in t.sessions {
        FreshReplyRecorded(p, t, call, net);
      }
    case Fallback(call, id, key, net) =>
      if call in t.calls && t.calls[call].stage == FallingBack && id !in t.sessions {
        FallbackRecorded(p, t, call, id, key, net);
      }
    case Publish(call) =>
  }

  /** Each call makes at most one cached send and two handshakes, and seals only on sessions of its own host. */
  lemma CallsKeepToTheirHost(p: Primitives, actions: seq<Action>)
    ensures var t := Run(p, actions);
            forall c | c in t.calls :: t.calls[c].cachedSends <= 1 && t.calls[c].handshakes <= 2
    ensures var t := Run(p, actions);
            forall u | u in t.uses :: u.session in t.sessions && t.sessions[u.session].host == u.host
  {
    AlwaysSafe(p, actions);
    hide Run, LockInvariant, OwnershipInvariant;
  }

  /** Exchanges on one session never overlap: two calls with requests out use different sessions. */
  lemma ExchangesNeverOverlap(p: Primitives, actions: seq<Action>, c: nat, d: nat)
    requires var t := Run(p, actions);
             c in t.calls && d in t.calls && c != d && Exchanging(t, c).Some? && Exchanging(t, d).Some?
    ensures var t := Run(p, actions); Exchanging(t, c).value.session != Exchanging(t, d).value.session
  {
    AlwaysSafe(p, actions);
    hide Run, Counted, UsesInvariant;
  }

  /** Nothing is out on this session, and both ends stand at the same positions. */
  ghost predicate InStep(s: Pair) {
    s.server == Mirror(s.client)
  }

  /** A request is out: the client is ahead of the server by exactly the message on the wire. */
  ghost predicate MidExchange(p: Primitives, s: Pair, body: Bytes, wire: Bytes) {
    && wire == Frame(SealMessage(p, s.server.server, body), |body|)
    && s.client.client == AfterMessage(s.server.server, |body|)
    && s.client.server == s.server.client
    && (s.intact ==> Unharmed(p, s.server.server, body))
  }

  lemma SendStarts(p: Primitives, s: Pair, body: Bytes)
    requires InStep(s)
    ensures var (wire, s') := Send(p, s, body); MidExchange(p, s', body, wire)
  {
    hide Frame, SealMessage, AfterMessage, Unharmed;
  }

  lemma FrameLooksEncrypted(sealed: Bytes, length: nat)
    ensures Occurs(Frame(sealed, length), Ascii("Encrypted Boundary"))
  {
    var parts := PreambleParts(length);
    assert parts[0] == BOUNDARY;
    var frame := Frame(sealed, length);
    assert frame[..20] == BOUNDARY;
    hide Frame;
    SliceOfSlice(frame, 0, 20, 2, 20);
    assert BOUNDARY[2..20] == Ascii("Encrypted Boundary");
    assert Search.At(frame, Ascii("Encrypted Boundary"), 2);
  }

  /** An unharmed request is read by a server in step, which moves past it. */
  lemma RequestRead(p: Primitives, h: Half, body: Bytes)
    requires Unharmed(p, h, body)
    ensures UnsealFrame(p, h, Frame(SealMessage(p, h, body), |body|)) == (Ok(body), AfterMessage(h, |body|))
  {
    BodyRoundTrip(p, h, body);
    hide UnsealFrame, Frame, SealMessage, AfterMessage, MarkerFree;
  }

  /** A served reply that is unharmed is the answer. */
  lemma ReplyRead(p: Primitives, h: Half, text: Bytes, octet: bool)
    requires Unharmed(p, h, text)
    ensures var reply := Frame(SealMessage(p, h, text), |text|);
            Seen(p, h, Some((200, reply)), octet) == (Answer(text), AfterMessage(h, |text|))
  {
    RequestRead(p, h, text);
    FrameLooksEncrypted(SealMessage(p, h, text), |text|);
    hide UnsealFrame, Frame, SealMessage, AfterMessage, Unharmed, Occurs;
  }

  /**
   An exchange on an intact session that the network leaves intact: the server reads the body it was sent,
   the call gets the text the server replied, and both ends are in step again.
   */
  lemma IntactExchange(p: Primitives, s: Pair, body: Bytes, wire: Bytes, net: Net, octet: bool)
    requires MidExchange(p, s, body, wire)
    ensures var (o, s') := Complete(p, s, body, wire, net, octet);
            && (s'.intact <==> s.intact && net.Served? && Unharmed(p, s.server.client, net.text))
            && (s'.intact ==>
                  UnsealFrame(p, s.server.server, wire).0 == Ok(body) && o == Answer(net.text) && InStep(s'))
  {
    hide Frame, SealMessage, AfterMessage, UnsealFrame, Seen, Unharmed;
    if net.Served? && s.intact && Unharmed(p, s.server.client, net.text) {
      RequestRead(p, s.server.server, body);
      ReplyRead(p, s.server.client, net.text, octet);
    } else if net.Served? && s.intact {
      RequestRead(p, s.server.server, body);
    }
  }

  /** An intact session is in step, or ahead by the one request that is out on it. */
  ghost predicate SyncedAt(p: Primitives, t: Transport, id: nat)
    requires id in t.sessions
  {
    var s := t.sessions[id];
    s.intact ==>
      && (forall c | c in t.calls && OutOn(t, c, id) ::
            MidExchange(p, s, Exchanging(t, c).value.body, Exchanging(t, c).value.wire))
      && ((forall c | c in t.calls :: !OutOn(t, c, id)) ==> InStep(s))
  }

  predicate OutOn(t: Transport, call: nat, id: nat)
    requires call in t.calls
  {
    Exchanging(t, call).Some? && Exchanging(t, call).value.session == id
  }

  ghost predicate Synced(p: Primitives, t: Transport) {
    forall id | id in t.sessions :: SyncedAt(p, t, id)
  }

  /** A step of one call on one session leaves every other session's requests alone. */
  ghost predicate Touches(t: Transport, t': Transport, call: nat, id: nat) {
    && call in t.calls && t'.calls.Keys == t.calls.Keys
    && (forall s | s in t'.sessions && s != id :: s in t.sessions && t'.sessions[s] == t.sessions[s])
    && (forall c | c in t.calls && c != call :: Exchanging(t', c) == Exchanging(t, c) && !OutOn(t, c, id))
    && (Exchanging(t, call).Some? ==> OutOn(t, call, id))
    && (Exchanging(t', call).Some? ==> OutOn(t', call, id))
  }

  /** A step that replaces one call and one session, and the cache only while nobody else holds the lock. */
  lemma UpdateTouches(t: Transport, t': Transport, call: nat, id: nat)
    requires call in t.calls && call in t'.calls && t'.calls == t.calls[call := t'.calls[call]]
    requires id in t'.sessions && t'.sessions == t.sessions[id := t'.sessions[id]]
    requires t'.cache == t.cache || forall d | d in t.calls && d != call :: !t.calls[d].stage.Cached?
    requires forall d | d in t.calls && d != call :: !OutOn(t, d, id)
    requires Exchanging(t, call).Some? ==> OutOn(t, call, id)
    requires Exchanging(t', call).Some? ==> OutOn(t', call, id)
    ensures Touches(t, t', call, id)
  {
  }

  /** A request that is out on an intact session is the one message the server has yet to take. */
  lemma SyncedHere(p: Primitives, t: Transport, call: nat, id: nat)
    requires Synced(p, t) && id in t.sessions && call in t.calls && OutOn(t, call, id) && t.sessions[id].intact
    ensures MidExchange(p, t.sessions[id], Exchanging(t, call).value.body, Exchanging(t, call).value.wire)
  {
    hide MidExchange, InStep;
    assert SyncedAt(p, t, id);
  }

  lemma HolderAlone(t: Transport, call: nat)
    requires Safe(t) && (t.holder == None || t.holder == Some(call))
    ensures forall d | d in t.calls && d != call :: !t.calls[d].stage.Cached?
  {
    hide OwnershipInvariant, UsesInvariant, Counted;
  }

  lemma TouchKeepsSynced(p: Primitives, t: Transport, t': Transport, call: nat, id: nat)
    requires Synced(p, t) && Touches(t, t', call, id) && id in t'.sessions
    requires t'.sessions[id].intact ==>
      if Exchanging(t', call).Some?
      then MidExchange(p, t'.sessions[id], Exchanging(t', call).value.body, Exchanging(t', call).value.wire)
      else InStep(t'.sessions[id])
    ensures Synced(p, t')
  {
    hide MidExchange, InStep, Exchanging;
    forall s | s in t'.sessions
      ensures SyncedAt(p, t', s)
    {
      if s != id {
        assert SyncedAt(p, t, s);
        assert forall c | c in t.calls :: OutOn(t', c, s) <==> OutOn(t, c, s);
      } else {
        assert forall c | c in t.calls && c != call :: !OutOn(t', c, s);
      }
    }
  }

  /** Only the lock holder has a request out on the cached session, and nobody else one on a call's own session. */
  lemma OthersElsewhere(t: Transport, call: nat, id: nat)
    requires Safe(t) && call in t.calls
    requires (t.holder in {None, Some(call)} && t.cache.Some? && id == t.cache.value.session)
             || Own(t.calls[call]) == Some(id) || id !in t.sessions
    ensures forall c | c in t.calls && c != call :: !OutOn(t, c, id)
  {
    hide Counted, UsesInvariant;
  }

  lemma LookSynced(p: Primitives, t: Transport, call: nat)
    requires Safe(t) && Synced(p, t) && call in t.calls && t.calls[call].stage == Ready && t.holder == None
    ensures Synced(p, LookUp(p, t, call))
  {
    var c, t' := t.calls[call], LookUp(p, t, call);
    hide InStep, MidExchange, Send, Safe, Synced;
    HolderAlone(t, call);
    if t.cache.Some? && t.cache.value.host == c.host && t.cache.value.session in t.sessions {
      var id := t.cache.value.session;
      assert Touches(t, t', call, id) by {
        OthersElsewhere(t, call, id);
        UpdateTouches(t, t', call, id);
      }
      hide Touches, OutOn;
      SendKeepsIntact(p, t.sessions[id], c.body);
      if t.sessions[id].intact {
        InStepAlone(p, t, call, id);
        SendStarts(p, t.sessions[id], c.body);
      }
      TouchKeepsSynced(p, t, t', call, id);
    } else {
      SyncedUnchanged(p, t, t');
    }
  }

  lemma InStepAlone(p: Primitives, t: Transport, call: nat, id: nat)
    requires Synced(p, t) && id in t.sessions && t.sessions[id].intact && call in t.calls && Exchanging(t, call).None?
    requires forall d | d in t.calls && d != call :: !OutOn(t, d, id)
    ensures InStep(t.sessions[id])
  {
    hide MidExchange, InStep;
    assert SyncedAt(p, t, id);
  }

  lemma SendKeepsIntact(p: Primitives, s: Pair, body: Bytes)
    ensures Send(p, s, body).1.intact ==> s.intact
  {
    hide Frame, SealMessage, AfterMessage, Unharmed;
  }

  /** A step that changes no session and no request. */
  lemma SyncedUnchanged(p: Primitives, t: Transport, t': Transport)
    requires Synced(p, t) && t'.sessions == t.sessions && t.calls.Keys <= t'.calls.Keys
    requires forall c | c in t'.calls :: Exchanging(t', c) == if c in t.calls then Exchanging(t, c) else None
    ensures Synced(p, t')
  {
    hide MidExchange, InStep, Exchanging;
    forall s | s in t'.sessions
      ensures SyncedAt(p, t', s)
    {
      assert SyncedAt(p, t, s);
      assert forall c | c in t.calls :: OutOn(t', c, s) <==> OutOn(t, c, s);
    }
  }

  /** The session of an exchange once its reply is in. */
  function Answered(p: Primitives, t: Transport, call: nat, net: Net): Pair
    requires call in t.calls && Exchanging(t, call).Some? && Exchanging(t, call).value.session in t.sessions
  {
    var out := Exchanging(t, call).value;
    Complete(p, t.sessions[out.session], out.body, out.wire, net, true).1
  }

  /** Once the reply is in, an intact session is in step. */
  lemma ReplyEndsInStep(p: Primitives, t: Transport, call: nat, id: nat, net: Net)
    requires Synced(p, t) && id in t.sessions && call in t.calls && OutOn(t, call, id)
    ensures Answered(p, t, call, net).intact ==> InStep(Answered(p, t, call, net))
  {
    var out := Exchanging(t, call).value;
    hide Synced, InStep, MidExchange, Complete, Exchanging, Unharmed;
    CompleteNeedsIntact(p, t.sessions[id], out.body, out.wire, net, true);
    if t.sessions[id].intact {
      SyncedHere(p, t, call, id);
      IntactExchange(p, t.sessions[id], out.body, out.wire, net, true);
    }
  }

  lemma CachedReplyTouches(p: Primitives, t: Transport, call: nat, net: Net)
    requires Safe(t) && call in t.calls && t.calls[call].stage.Cached? && t.cache.Some?
             && t.cache.value.session in t.sessions
    ensures var t', id := AfterCached(p, t, call, net), t.cache.value.session;
            && Touches(t, t', call, id) && OutOn(t, call, id) && Exchanging(t', call).None?
            && id in t'.sessions && t'.sessions[id] == Answered(p, t, call, net)
  {
    assert t.holder == Some(call) by { hide OwnershipInvariant, UsesInvariant, Counted; }
    HolderAlone(t, call);
    hide Safe, Complete;
    OthersElsewhere(t, call, t.cache.value.session);
    UpdateTouches(t, AfterCached(p, t, call, net), call, t.cache.value.session);
  }

  lemma CachedReplySynced(p: Primitives, t: Transport, call: nat, net: Net)
    requires Safe(t) && Synced(p, t) && call in t.calls && t.calls[call].stage.Cached?
             && t.cache.Some? && t.cache.value.session in t.sessions
    ensures Synced(p, AfterCached(p, t, call, net))
  {
    var t', id := AfterCached(p, t, call, net), t.cache.value.session;
    CachedReplyTouches(p, t, call, net);
    hide Safe, Synced, Touches, OutOn, InStep, Exchanging, Answered, AfterCached;
    ReplyEndsInStep(p, t, call, id, net);
    TouchKeepsSynced(p, t, t', call, id);
  }

  lemma CompleteNeedsIntact(p: Primitives, s: Pair, body: Bytes, wire: Bytes, net: Net, octet: bool)
    ensures Complete(p, s, body, wire, net, octet).1.intact ==> s.intact
  {
    hide UnsealFrame, Receive, Seen, Progressed, Frame, SealMessage, Unharmed;
  }

  lemma FreshReplyTouches(p: Primitives, t: Transport, call: nat, net: Net)
    requires Safe(t) && call in t.calls && t.calls[call].stage.Fresh? && t.calls[call].stage.session in t.sessions
    ensures var t', id := AfterFresh(p, t, call, net), t.calls[call].stage.session;
            && Touches(t, t', call, id) && OutOn(t, call, id) && Exchanging(t', call).None?
            && id in t'.sessions && t'.sessions[id] == Answered(p, t, call, net)
  {
    hide Safe, Complete;
    OthersElsewhere(t, call, t.calls[call].stage.session);
    UpdateTouches(t, AfterFresh(p, t, call, net), call, t.calls[call].stage.session);
  }

  lemma FreshReplySynced(p: Primitives, t: Transport, call: nat, net: Net)
    requires Safe(t) && Synced(p, t) && call in t.calls && t.calls[call].stage.Fresh?
             && t.calls[call].stage.session in t.sessions
    ensures Synced(p, AfterFresh(p, t, call, net))
  {
    var t', id := AfterFresh(p, t, call, net), t.calls[call].stage.session;
    FreshReplyTouches(p, t, call, net);
    hide Safe, Synced, Touches, OutOn, InStep, Exchanging, Answered, AfterFresh;
    ReplyEndsInStep(p, t, call, id, net);
    TouchKeepsSynced(p, t, t', call, id);
  }

  lemma HandshakeTouches(p: Primitives, t: Transport, call: nat, id: nat, key: Option<Digest>)
    requires Safe(t) && call in t.calls && t.calls[call].stage == Handshaking && id !in t.sessions && key.Some?
    ensures Touches(t, AfterHandshake(p, t, call, id, key), call, id)
  {
    hide Safe, Send, FromKey;
    OthersElsewhere(t, call, id);
    UpdateTouches(t, AfterHandshake(p, t, call, id, key), call, id);
  }

  lemma HandshakeSynced(p: Primitives, t: Transport, call: nat, id: nat, key: Option<Digest>)
    requires Safe(t) && Synced(p, t) && call in t.calls && t.calls[call].stage == Handshaking && id !in t.sessions
    ensures Synced(p, AfterHandshake(p, t, call, id, key))
  {
    var t' := AfterHandshake(p, t, call, id, key);
    hide Safe, Synced, Touches, OutOn, InStep, MidExchange, Send, FromKey;
    if key.Some? {
      HandshakeTouches(p, t, call, id, key);
      EstablishedInStep(p, t.calls[call].host, key.value);
      SendStarts(p, Established(p, t.calls[call].host, key.value), t.calls[call].body);
      TouchKeepsSynced(p, t, t', call, id);
    } else {
      SyncedUnchanged(p, t, t');
    }
  }

  lemma EstablishedInStep(p: Primitives, host: string, key: Digest)
    ensures InStep(Established(p, host, key))
  {
    hide FromKey;
  }

  lemma FallbackTouches(p: Primitives, t: Transport, call: nat, id: nat, key: Option<Digest>, net: Net)
    requires Safe(t) && call in t.calls && t.calls[call].stage == FallingBack && id !in t.sessions && key.Some?
    ensures Touches(t, AfterFallback(p, t, call, id, key, net), call, id)
  {
    hide Safe, Send, Complete, FromKey;
    OthersElsewhere(t, call, id);
    UpdateTouches(t, AfterFallback(p, t, call, id, key, net), call, id);
  }

  lemma FallbackSynced(p: Primitives, t: Transport, call: nat, id: nat, key: Option<Digest>, net: Net)
    requires Safe(t) && Synced(p, t) && call in t.calls && t.calls[call].stage == FallingBack && id !in t.sessions
    ensures Synced(p, AfterFallback(p, t, call, id, key, net))
  {
    var t' := AfterFallback(p, t, call, id, key, net);
    hide Safe, Synced, Touches, OutOn, InStep, MidExchange, Send, Complete, FromKey;
    if key.Some? {
      FallbackTouches(p, t, call, id, key, net);
      TouchKeepsSynced(p, t, t', call, id);
    } else {
      SyncedUnchanged(p, t, t');
    }
  }

  lemma PublishSynced(p: Primitives, t: Transport, call: nat)
    requires Safe(t) && Synced(p, t) && call in t.calls && t.calls[call].stage.Publishing? && t.holder == None
    ensures Synced(p, Published(t, call))
  {
    assert forall c | c in t.calls :: !t.calls[c].stage.Cached?;
    hide InStep, MidExchange, Synced, Safe;
    SyncedUnchanged(p, t, Published(t, call));
  }

  lemma NextSynced(p: Primitives, t: Transport, a: Action)
    requires Safe(t) && Synced(p, t)
    ensures Synced(p, Next(p, t, a))
  {
    hide Synced, Safe, LookUp, AfterCached, AfterHandshake, AfterFresh, AfterFallback, Published;
    match a
    case Begin(call, host, body) =>
      SyncedUnchanged(p, t, Next(p, t, a));
    case Look(call) =>
      if call in t.calls && t.calls[call].stage == Ready && t.holder == None { LookSynced(p, t, call); }
    case CachedReply(call, net) =>
      if call in t.calls && t.calls[call].stage.Cached? && t.cache.Some? && t.cache.value.session in t.sessions {
        CachedReplySynced(p, t, call, net);
      }
    case Handshake(call, id, key) =>
      if call in t.calls && t.calls[call].stage == Handshaking && id !in t.sessions {
        HandshakeSynced(p, t, call, id, key);
      }
    case FreshReply(call, net) =>
      if call in t.calls && t.calls[call].stage.Fresh? && t.calls[call].stage.session in t.sessions {
        FreshReplySynced(p, t, call, net);
      }
    case Fallback(call, id, key, net) =>
      if call in t.calls && t.calls[call].stage == FallingBack && id !in t.sessions {
        FallbackSynced(p, t, call, id, key, net);
      }
    case Publish(call) =>
      if call in t.calls && t.calls[call].stage.Publishing? && t.holder == None { PublishSynced(p, t, call); }
  }

  lemma {:induction false} AlwaysSynced(p: Primitives, actions: seq<Action>)
    ensures Synced(p, Run(p, actions))
  {
    if actions != [] {
      hide Next, Safe, Synced;
      AlwaysSafe(p, actions[..|actions| - 1]);
      AlwaysSynced(p, actions[..|actions| - 1]);
      NextSynced(p, Run(p, actions[..|actions| - 1]), actions[|actions| - 1]);
    }
  }

  /**
   Whenever the lock is free, a cached session on which every exchange went through is the mirror image of
   the server's session.
   */
  lemma CachedSessionMirrors(p: Primitives, actions: seq<Action>)
    requires var t := Run(p, actions); t.holder == None && t.cache.Some?
    ensures var t := Run(p, actions);
            && t.cache.value.session in t.sessions
            && t.sessions[t.cache.value.session].host == t.cache.value.host
            && (t.sessions[t.cache.value.session].intact ==>
                  t.sessions[t.cache.value.session].server == Mirror(t.sessions[t.cache.value.session].client))
  {
    AlwaysSafe(p, actions);
    AlwaysSynced(p, actions);
    hide Run, MidExchange, Counted, UsesInvariant;
    var t := Run(p, actions);
    assert SyncedAt(p, t, t.cache.value.session);
    assert forall c | c in t.calls :: !OutOn(t, c, t.cache.value.session);
  }

  /** A reply that is served, its text clear of the closing marker at the position it is sealed at. */
  predicate LosslessReply(p: Primitives, s: Pair, net: Net) {
    net.Served? && Unharmed(p, s.server.client, net.text)
  }

  /**
   A step of the primary path on which the network loses and alters nothing: no fallback, every body sealed
   clear of the closing marker, every reply served.
   */
  predicate LosslessStep(p: Primitives, t: Transport, a: Action) {
    match a
    case Begin(_, _, _) => true
    case Look(call) =>
      call in t.calls && t.calls[call].stage == Ready && t.holder == None
      && t.cache.Some? && t.cache.value.host == t.calls[call].host && t.cache.value.session in t.sessions
      ==> Unharmed(p, t.sessions[t.cache.value.session].client.client, t.calls[call].body)
    case CachedReply(call, net) =>
      call in t.calls && t.calls[call].stage.Cached? && t.cache.Some? && t.cache.value.session in t.sessions
      ==> LosslessReply(p, t.sessions[t.cache.value.session], net)
    case Handshake(call, id, key) =>
      call in t.calls && t.calls[call].stage == Handshaking && id !in t.sessions && key.Some?
      ==> Unharmed(p, FromKey(p, key.value).client, t.calls[call].body)
    case FreshReply(call, net) =>
      call in t.calls && t.calls[call].stage.Fresh? && t.calls[call].stage.session in t.sessions
      ==> LosslessReply(p, t.sessions[t.calls[call].stage.session], net)
    case Fallback(_, _, _, _) => false
    case Publish(_) => true
  }

  /** A run of lossless steps only. */
  predicate Lossless(p: Primitives, actions: seq<Action>) {
    actions == [] ||
    (Lossless(p, actions[..|actions| - 1]) && LosslessStep(p, Run(p, actions[..|actions| - 1]), actions[|actions| - 1]))
  }

  /** Every session is intact, and no call has come to need the fallback. */
  ghost predicate AllIntact(t: Transport) {
    && (forall id | id in t.sessions :: t.sessions[id].intact)
    && (forall c | c in t.calls :: !t.calls[c].stage.FallingBack?)
  }

  lemma LosslessLook(p: Primitives, t: Transport, call: nat)
    requires AllIntact(t) && call in t.calls && t.calls[call].stage == Ready && t.holder == None
    requires LosslessStep(p, t, Look(call))
    ensures AllIntact(LookUp(p, t, call))
  {
    hide Unharmed, Frame, SealMessage, AfterMessage;
  }

  lemma UpdateKeepsIntact(t: Transport, t': Transport, call: nat, id: nat)
    requires AllIntact(t) && call in t'.calls && t'.calls == t.calls[call := t'.calls[call]]
             && !t'.calls[call].stage.FallingBack?
    requires id in t'.sessions && t'.sessions == t.sessions[id := t'.sessions[id]] && t'.sessions[id].intact
    ensures AllIntact(t')
  {
  }

  /** The reply of a lossless step answers the request that is out, and leaves the session intact. */
  lemma LosslessAnswer(p: Primitives, t: Transport, call: nat, id: nat, net: Net)
    requires Synced(p, t) && id in t.sessions && call in t.calls && OutOn(t, call, id) && t.sessions[id].intact
    requires LosslessReply(p, t.sessions[id], net)
    ensures var out := Exchanging(t, call).value;
            var (o, s) := Complete(p, t.sessions[id], out.body, out.wire, net, true);
            o == Answer(net.text) && s.intact
  {
    var out := Exchanging(t, call).value;
    hide Synced, MidExchange, InStep, Complete, Unharmed, UnsealFrame, Exchanging;
    SyncedHere(p, t, call, id);
    IntactExchange(p, t.sessions[id], out.body, out.wire, net, true);
  }

  lemma LosslessCachedReply(p: Primitives, t: Transport, call: nat, net: Net)
    requires Synced(p, t) && AllIntact(t) && LosslessStep(p, t, CachedReply(call, net))
    requires call in t.calls && t.calls[call].stage.Cached? && t.cache.Some? && t.cache.value.session in t.sessions
    ensures AllIntact(AfterCached(p, t, call, net))
  {
    var id, t' := t.cache.value.session, AfterCached(p, t, call, net);
    assert t.sessions[id].intact;
    LosslessAnswer(p, t, call, id, net);
    hide Synced, Complete, LosslessReply, AllIntact;
    UpdateKeepsIntact(t, t', call, id);
  }

  lemma LosslessHandshake(p: Primitives, t: Transport, call: nat, id: nat, key: Option<Digest>)
    requires AllIntact(t) && LosslessStep(p, t, Handshake(call, id, key))
    requires call in t.calls && t.calls[call].stage == Handshaking && id !in t.sessions
    ensures AllIntact(AfterHandshake(p, t, call, id, key))
  {
    hide Unharmed, Frame, SealMessage, AfterMessage, FromKey;
  }

  lemma LosslessFreshReply(p: Primitives, t: Transport, call: nat, net: Net)
    requires Synced(p, t) && AllIntact(t) && LosslessStep(p, t, FreshReply(call, net))
    requires call in t.calls && t.calls[call].stage.Fresh? && t.calls[call].stage.session in t.sessions
    ensures AllIntact(AfterFresh(p, t, call, net))
  {
    var id, t' := t.calls[call].stage.session, AfterFresh(p, t, call, net);
    assert t.sessions[id].intact;
    LosslessAnswer(p, t, call, id, net);
    hide Synced, Complete, LosslessReply, AllIntact;
    UpdateKeepsIntact(t, t', call, id);
  }

  lemma LosslessNext(p: Primitives, t: Transport, a: Action)
    requires Synced(p, t) && AllIntact(t) && LosslessStep(p, t, a)
    ensures AllIntact(Next(p, t, a))
  {
    hide Synced, LookUp, AfterCached, AfterHandshake, AfterFresh, AfterFallback, Unharmed, FromKey;
    match a
    case Begin(call, host, body) =>
    case Look(call) =>
      if call in t.calls && t.calls[call].stage == Ready && t.holder == None { LosslessLook(p, t, call); }
    case CachedReply(call, net) =>
      if call in t.calls && t.calls[call].stage.Cached? && t.cache.Some? && t.cache.value.session in t.sessions {
        LosslessCachedReply(p, t, call, net);
      }
    case Handshake(call, id, key) =>
      if call in t.calls && t.calls[call].stage == Handshaking && id !in t.sessions {
        LosslessHandshake(p, t, call, id, key);
      }
    case FreshReply(call, net) =>
      if call in t.calls && t.calls[call].stage.Fresh? && t.calls[call].stage.session in t.sessions {
        LosslessFreshReply(p, t, call, net);
      }
    case Publish(call) =>
  }

  /** On every lossless run all sessions stay intact and no call needs the fallback. */
  lemma {:induction false} LosslessStaysIntact(p: Primitives, actions: seq<Action>)
    requires Lossless(p, actions)
    ensures AllIntact(Run(p, actions))
  {
    if actions != [] {
      hide Next, Synced, LosslessStep, AllIntact;
      LosslessStaysIntact(p, actions[..|actions| - 1]);
      AlwaysSynced(p, actions[..|actions| - 1]);
      LosslessNext(p, Run(p, actions[..|actions| - 1]), actions[|actions| - 1]);
    }
  }

  /** On every lossless run, whenever the lock is free, the cached session is the mirror image of the server's. */
  lemma LosslessCacheMirrors(p: Primitives, actions: seq<Action>)
    requires Lossless(p, actions)
    ensures var t := Run(p, actions);
            t.holder == None && t.cache.Some? ==>
              && t.cache.value.session in t.sessions
              && t.sessions[t.cache.value.session].host == t.cache.value.host
              && t.sessions[t.cache.value.session].server == Mirror(t.sessions[t.cache.value.session].client)
  {
    LosslessStaysIntact(p, actions);
    if Run(p, actions).holder == None && Run(p, actions).cache.Some? {
      CachedSessionMirrors(p, actions);
    }
    hide Run, Lossless;
  }

  /** The call that a served reply is for, while a request of that call is out. */
  predicate ServesCall(t: Transport, a: Action, call: nat) {
    match a
    case CachedReply(c, net) =>
      && c == call && net.Served? && c in t.calls && t.calls[c].stage.Cached?
      && t.cache.Some? && t.cache.value.session in t.sessions
    case FreshReply(c, net) =>
      c == call && net.Served? && c in t.calls && t.calls[c].stage.Fresh? && t.calls[c].stage.session in t.sessions
    case _ => false
  }

  /** The text of the last reply that was served to a call in a run. */
  function LastServed(p: Primitives, actions: seq<Action>, call: nat): Option<Bytes> {
    if actions == [] then None else
      var (init, a) := (actions[..|actions| - 1], actions[|actions| - 1]);
      if ServesCall(Run(p, init), a, call) then Some(a.net.text) else LastServed(p, init, call)
  }

  /** What a call holds of the reply that was served to it. */
  predicate Holds(stage: Stage, served: Option<Bytes>) {
    match stage
    case Returned(result) => result == served
    case Publishing(_, text) => served == Some(text)
    case _ => served == None
  }

  /** A lossless step gives a served text to its call, and changes what no other call holds. */
  lemma LosslessStepHolds(p: Primitives, t: Transport, a: Action, call: nat, served: Option<Bytes>)
    requires Synced(p, t) && AllIntact(t) && LosslessStep(p, t, a)
    requires if call in t.calls then Holds(t.calls[call].stage, served) else served == None
    ensures var t' := Next(p, t, a);
            call in t'.calls ==>
              Holds(t'.calls[call].stage, if ServesCall(t, a, call) then Some(a.net.text) else served)
    ensures call !in Next(p, t, a).calls ==> call !in t.calls && !ServesCall(t, a, call)
  {
    hide Synced, Unharmed, Send, Complete, FromKey;
    match a
    case Begin(c, host, body) =>
    case Look(c) =>
    case CachedReply(c, net) =>
      if c in t.calls && t.calls[c].stage.Cached? && t.cache.Some? && t.cache.value.session in t.sessions {
        LosslessAnswer(p, t, c, t.cache.value.session, net);
      }
    case Handshake(c, id, key) =>
    case FreshReply(c, net) =>
      if c in t.calls && t.calls[c].stage.Fresh? && t.calls[c].stage.session in t.sessions {
        LosslessAnswer(p, t, c, t.calls[c].stage.session, net);
      }
    case Publish(c) =>
  }

  /**
   On every lossless run a call that has returned holds exactly the text of the last reply that was served
   to it, on the cached session or a fresh one, and no call returns without a reply unless its handshake
   failed.
   */
  lemma {:induction false} LosslessAnswers(p: Primitives, actions: seq<Action>, call: nat)
    requires Lossless(p, actions)
    ensures var t := Run(p, actions);
            if call in t.calls then Holds(t.calls[call].stage, LastServed(p, actions, call))
            else LastServed(p, actions, call) == None
  {
    if actions != [] {
      hide Next, Synced, AllIntact, LosslessStep, Holds, ServesCall;
      var init, a := actions[..|actions| - 1], actions[|actions| - 1];
      LosslessAnswers(p, init, call);
      LosslessStaysIntact(p, init);
      AlwaysSynced(p, init);
      LosslessStepHolds(p, Run(p, init), a, call, LastServed(p, init, call));
    }
  }

  /** Publication returns the text that the call holds, and caches the session for the call's host. */
  lemma PublishCaches(p: Primitives, t: Transport, call: nat)
    requires call in t.calls && t.calls[call].stage.Publishing? && t.holder == None
    ensures var (c, t') := (t.calls[call], Next(p, t, Publish(call)));
            && t'.cache == Some(Entry(c.host, c.stage.session))
            && t'.calls == t.calls[call := c.(stage := Returned(Some(c.stage.text)))]
            && t'.sessions == t.sessions && t'.holder == None
  {
  }

  /** A cache for another host, or none: the call goes to a handshake, with the cache cleared and the lock free. */
  lemma LookElsewhere(p: Primitives, t: Transport, call: nat)
    requires call in t.calls && t.calls[call].stage == Ready && t.holder == None
    requires t.cache.None? || t.cache.value.host != t.calls[call].host
    ensures Next(p, t, Look(call))
         == t.(cache := None, calls := t.calls[call := t.calls[call].(stage := Handshaking)])
  {
    hide Send;
  }

  /** A handshake that fails ends the call and starts no session. */
  lemma HandshakeFails(p: Primitives, t: Transport, call: nat, id: nat)
    requires call in t.calls && t.calls[call].stage == Handshaking && id !in t.sessions
    ensures var t' := Next(p, t, Handshake(call, id, None));
            && t'.calls == t.calls[call := Call(t.calls[call].host, t.calls[call].body, Returned(None),
                                                t.calls[call].cachedSends, t.calls[call].handshakes + 1)]
            && t'.sessions == t.sessions && t'.cache == t.cache && t'.holder == t.holder
  {
  }

  /**
   A handshake that succeeds starts a session from its key, on which the server is the mirror image, and the
   call's body is sealed as its first message.
   */
  lemma HandshakeStarts(p: Primitives, t: Transport, call: nat, id: nat, key: Digest)
    requires call in t.calls && t.calls[call].stage == Handshaking && id !in t.sessions
    ensures var (c, t') := (t.calls[call], Next(p, t, Handshake(call, id, Some(key))));
            var s := Established(p, c.host, key);
            && t'.calls == t.calls[call := Call(c.host, c.body,
                                                Fresh(id, Frame(SealMessage(p, s.client.client, c.body), |c.body|)),
                                                c.cachedSends, c.handshakes + 1)]
            && t'.sessions == t.sessions[id := Send(p, s, c.body).1]
            && t'.cache == t.cache && t'.holder == t.holder
            && s.host == c.host && s.client == FromKey(p, key) && s.server == ServerSession(p, key)
  {
    ServerMirrors(p, key);
    hide FromKey, ServerSession, Frame, SealMessage, AfterMessage, Unharmed;
  }

  /** What becomes of a call on a fresh session: an answer is to be published, a 401 calls for the fallback. */
  lemma FreshOutcome(p: Primitives, t: Transport, call: nat, net: Net, text: Bytes)
    requires call in t.calls && t.calls[call].stage.Fresh? && t.calls[call].stage.session in t.sessions
    ensures var (c, s) := (t.calls[call], t.sessions[t.calls[call].stage.session]);
            var o := Complete(p, s, c.body, c.stage.wire, net, true).0;
            var stage := AfterFresh(p, t, call, net).calls[call].stage;
            && (stage == Publishing(c.stage.session, text) <==> o == Answer(text))
            && (stage == FallingBack <==> o == Denied)
            && (stage == Returned(None) <==> o == Failure)
  {
    hide Complete;
  }

  lemma BeginStarts(p: Primitives, t: Transport, call: nat, host: string, body: Bytes)
    requires call !in t.calls
    ensures Next(p, t, Begin(call, host, body)) == t.(calls := t.calls[call := Call(host, body, Ready, 0, 0)])
  {
  }

  lemma FreshAnswered(p: Primitives, t: Transport, call: nat, id: nat, net: Net, text: Bytes)
    requires call in t.calls && t.calls[call].stage.Fresh? && t.calls[call].stage.session == id && id in t.sessions
    requires Complete(p, t.sessions[id], t.calls[call].body, t.calls[call].stage.wire, net, true).0 == Answer(text)
    ensures var c := t.calls[call];
            Next(p, t, FreshReply(call, net))
            == t.(sessions := t.sessions[id := Complete(p, t.sessions[id], c.body, c.stage.wire, net, true).1],
               calls := t.calls[call := c.(stage := Publishing(id, text))])
  {
    hide Complete;
  }

  lemma FiveSteps(p: Primitives, t: Transport, a: Action, b: Action, c: Action, d: Action, e: Action)
    ensures RunFrom(p, t, [a, b, c, d, e]) == Next(p, Next(p, Next(p, Next(p, Next(p, t, a), b), c), d), e)
  {
    hide Next;
    assert [a, b, c, d, e][..4] == [a, b, c, d] && [a, b, c, d][..3] == [a, b, c];
    assert [a, b, c][..2] == [a, b] && [a, b][..1] == [a] && [a][..0] == [];
    assert RunFrom(p, t, [a]) == Next(p, t, a);
    assert RunFrom(p, t, [a, b]) == Next(p, RunFrom(p, t, [a]), b);
    assert RunFrom(p, t, [a, b, c]) == Next(p, RunFrom(p, t, [a, b]), c);
    assert RunFrom(p, t, [a, b, c, d]) == Next(p, RunFrom(p, t, [a, b, c]), d);
    assert RunFrom(p, t, [a, b, c, d, e]) == Next(p, RunFrom(p, t, [a, b, c, d]), e);
  }

  /**
   A first call to a host, from any state whose lock is free and whose cache is of another host: it returns
   the server's text, and its session, in step, is the one cached.
   */
  lemma FirstCallAnswers(p: Primitives, t: Transport, call: nat, host: string, body: Bytes, id: nat, key: Digest,
                         text: Bytes)
    requires t.holder == None && call !in t.calls && id !in t.sessions
    requires t.cache.None? || t.cache.value.host != host
    requires Unharmed(p, FromKey(p, key).client, body) && Unharmed(p, FromKey(p, key).server, text)
    ensures var t' := RunFrom(p, t, [Begin(call, host, body), Look(call), Handshake(call, id, Some(key)),
                                     FreshReply(call, Served(text)), Publish(call)]);
            && call in t'.calls && t'.calls[call].stage == Returned(Some(text))
            && t'.cache == Some(Entry(host, id)) && t'.holder == None
            && id in t'.sessions && t'.sessions[id].intact && InStep(t'.sessions[id])
  {
    FiveSteps(p, t, Begin(call, host, body), Look(call), Handshake(call, id, Some(key)),
              FreshReply(call, Served(text)), Publish(call));
    var s := Established(p, host, key);
    var (wire, sent) := Send(p, s, body);
    EstablishedInStep(p, host, key);
    SendStarts(p, s, body);
    IntactExchange(p, sent, body, wire, Served(text), true);
    SentIntact(p, host, key, body);
    BeginStarts(p, t, call, host, body);
    var t1 := Next(p, t, Begin(call, host, body));
    LookElsewhere(p, t1, call);
    var t2 := Next(p, t1, Look(call));
    HandshakeStarts(p, t2, call, id, key);
    var t3 := Next(p, t2, Handshake(call, id, Some(key)));
    hide Next, RunFrom, Send, Complete, Established, InStep, Unharmed, MidExchange, FromKey, Frame, SealMessage;
    FreshAnswered(p, t3, call, id, Served(text), text);
    PublishCaches(p, Next(p, t3, FreshReply(call, Served(text))), call);
  }

  lemma SentIntact(p: Primitives, host: string, key: Digest, body: Bytes)
    requires Unharmed(p, FromKey(p, key).client, body)
    ensures var s := Established(p, host, key);
            var (wire, sent) := Send(p, s, body);
            && sent.intact && sent.server.client == FromKey(p, key).server
            && wire == Frame(SealMessage(p, s.client.client, body), |body|)
  {
    hide FromKey, Unharmed, Frame, SealMessage, AfterMessage;
  }

  lemma LosslessSnoc(p: Primitives, actions: seq<Action>, a: Action)
    requires Lossless(p, actions) && LosslessStep(p, Run(p, actions), a)
    ensures Lossless(p, actions + [a]) && Run(p, actions + [a]) == Next(p, Run(p, actions), a)
  {
    hide Next, LosslessStep;
    assert (actions + [a])[..|actions|] == actions;
  }

  lemma LosslessFive(p: Primitives, actions: seq<Action>, a: Action, b: Action, c: Action, d: Action, e: Action)
    requires Lossless(p, actions) && LosslessStep(p, Run(p, actions), a)
    requires var t1 := Next(p, Run(p, actions), a);
             var t2 := Next(p, t1, b);
             var t3 := Next(p, t2, c);
             && LosslessStep(p, t1, b) && LosslessStep(p, t2, c) && LosslessStep(p, t3, d)
             && LosslessStep(p, Next(p, t3, d), e)
    ensures Lossless(p, actions + [a] + [b] + [c] + [d] + [e])
  {
    hide Next, Run, Lossless, LosslessStep;
    LosslessSnoc(p, actions, a);
    LosslessSnoc(p, actions + [a], b);
    LosslessSnoc(p, actions + [a] + [b], c);
    LosslessSnoc(p, actions + [a] + [b] + [c], d);
    LosslessSnoc(p, actions + [a] + [b] + [c] + [d], e);
  }

  lemma EndsAreLossless(p: Primitives, t: Transport, call: nat, host: string, body: Bytes)
    ensures LosslessStep(p, t, Begin(call, host, body)) && LosslessStep(p, t, Publish(call))
  {
  }

  lemma LookElsewhereIsLossless(p: Primitives, t: Transport, call: nat)
    requires call in t.calls && (t.cache.None? || t.cache.value.host != t.calls[call].host)
    ensures LosslessStep(p, t, Look(call))
  {
  }

  lemma HandshakeIsLossless(p: Primitives, t: Transport, call: nat, id: nat, key: Digest)
    requires call in t.calls && Unharmed(p, FromKey(p, key).client, t.calls[call].body)
    ensures LosslessStep(p, t, Handshake(call, id, Some(key)))
  {
    hide FromKey, Unharmed;
  }

  lemma FreshReplyIsLossless(p: Primitives, t: Transport, call: nat, id: nat, text: Bytes)
    requires call in t.calls && t.calls[call].stage.Fresh? && t.calls[call].stage.session == id && id in t.sessions
    requires Unharmed(p, t.sessions[id].server.client, text)
    ensures LosslessStep(p, t, FreshReply(call, Served(text)))
  {
    hide Unharmed;
  }

  /** Such a call keeps a lossless run lossless. */
  lemma FirstCallLossless(p: Primitives, actions: seq<Action>, call: nat, host: string, body: Bytes, id: nat,
                          key: Digest, text: Bytes)
    requires Lossless(p, actions)
    requires var t := Run(p, actions);
             && t.holder == None && call !in t.calls && id !in t.sessions
             && (t.cache.None? || t.cache.value.host != host)
    requires Unharmed(p, FromKey(p, key).client, body) && Unharmed(p, FromKey(p, key).server, text)
    ensures Lossless(p, actions + [Begin(call, host, body)] + [Look(call)] + [Handshake(call, id, Some(key))]
                        + [FreshReply(call, Served(text))] + [Publish(call)])
  {
    hide Run, Lossless, LosslessStep, Unharmed, FromKey, Send, Established, Frame, SealMessage;
    var t := Run(p, actions);
    SentIntact(p, host, key, body);
    BeginStarts(p, t, call, host, body);
    EndsAreLossless(p, t, call, host, body);
    hide Next;
    var t1 := Next(p, t, Begin(call, host, body));
    LookElsewhereIsLossless(p, t1, call);
    LookElsewhere(p, t1, call);
    var t2 := Next(p, t1, Look(call));
    HandshakeIsLossless(p, t2, call, id, key);
    HandshakeStarts(p, t2, call, id, key);
    var t3 := Next(p, t2, Handshake(call, id, Some(key)));
    FreshReplyIsLossless(p, t3, call, id, text);
    EndsAreLossless(p, Next(p, t3, FreshReply(call, Served(text))), call, host, body);
    LosslessFive(p, actions, Begin(call, host, body), Look(call), Handshake(call, id, Some(key)),
                 FreshReply(call, Served(text)), Publish(call));
  }

  /** What becomes of a call on the cached session: an answer is returned, a 401 clears the cache. */
  lemma CachedOutcome(p: Primitives, t: Transport, call: nat, net: Net, text: Bytes)
    requires call in t.calls && t.calls[call].stage.Cached? && t.cache.Some? && t.cache.value.session in t.sessions
    ensures var (c, s, t') := (t.calls[call], t.sessions[t.cache.value.session], AfterCached(p, t, call, net));
            var (o, stage) := (Complete(p, s, c.body, c.stage.wire, net, true).0, t'.calls[call].stage);
            && (stage == Returned(Some(text)) <==> o == Answer(text))
            && (stage == Handshaking <==> o == Denied) && (t'.cache == None <==> o == Denied)
            && (stage == Returned(None) <==> o == Failure)
            && (o != Denied ==> t'.cache == t.cache) && t'.holder == None
  {
    hide Complete;
  }

  /**
   An exchange on an intact cached session: the server reads the body of the call, the call returns the
   server's text, and the session stays in the cache, in step, with the lock free.
   */
  lemma CachedExchangeAnswers(p: Primitives, actions: seq<Action>, call: nat, text: Bytes)
    requires var t := Run(p, actions);
             && call in t.calls && t.calls[call].stage.Cached? && t.cache.Some? && t.cache.value.session in t.sessions
             && t.sessions[t.cache.value.session].intact
             && Unharmed(p, t.sessions[t.cache.value.session].server.client, text)
    ensures var t := Run(p, actions);
            var (t', id) := (Next(p, t, CachedReply(call, Served(text))), t.cache.value.session);
            && UnsealFrame(p, t.sessions[id].server.server, t.calls[call].stage.wire).0 == Ok(t.calls[call].body)
            && t'.calls[call].stage == Returned(Some(text)) && t'.holder == None && t'.cache == t.cache
            && t'.sessions[id].intact && InStep(t'.sessions[id])
  {
    var t := Run(p, actions);
    var id := t.cache.value.session;
    AlwaysSynced(p, actions);
    hide Run, Synced, MidExchange, InStep, Complete, UnsealFrame, Unharmed;
    SyncedHere(p, t, call, id);
    IntactExchange(p, t.sessions[id], t.calls[call].body, t.calls[call].stage.wire, Served(text), true);
  }

  /** The session that a served fallback leaves behind: it has an answer, and its client starts again at zero. */
  lemma FallbackLeaves(p: Primitives, t: Transport, call: nat, id: nat, key: Digest, text: Bytes)
    requires call in t.calls
    requires Unharmed(p, FromKey(p, key).client, t.calls[call].body) && Unharmed(p, FromKey(p, key).server, text)
    ensures var t' := AfterFallback(p, t, call, id, Some(key), Served(text));
            && t'.calls.Keys == t.calls.Keys
            && t'.calls[call].stage == Publishing(id, if t.calls[call].body == [] then [] else text)
            && t'.calls[call].host == t.calls[call].host && t'.holder == t.holder && t'.cache == t.cache
            && (forall d | d in t.calls && d != call :: t'.calls[d] == t.calls[d])
            && id in t'.sessions && t'.sessions[id].client.client.seqNum != t'.sessions[id].server.server.seqNum
  {
    FallbackExchange(p, t.calls[call].host, key, t.calls[call].body, text);
    hide FromKey, Complete, Send, Unharmed;
  }

  /** A fallback over a faulty exchange: what was read, or nothing for an empty body unless refused or unanswered. */
  lemma FallbackFaulty(p: Primitives, t: Transport, call: nat, id: nat, key: Digest, progress: Progress,
                       seen: Option<(nat, Bytes)>, text: Bytes)
    requires call in t.calls
    ensures var c := t.calls[call];
            var stage := AfterFallback(p, t, call, id, Some(key), Faulty(progress, seen)).calls[call].stage;
            && (stage == Publishing(id, text) <==>
                  if c.body == [] && seen.Some? && seen.value.0 != 401 then text == []
                  else Seen(p, FromKey(p, key).server, seen, false).0 == Answer(text))
            && (!stage.Publishing? ==> stage == Returned(None))
  {
    var c := t.calls[call];
    var (wire, sent) := Send(p, Established(p, c.host, key), c.body);
    FaultySeen(p, Established(p, c.host, key), c.body, progress, seen);
    ReadOutcome(p, FromKey(p, key).server, c.body, progress, seen, text);
    hide FromKey, Send, Complete, Seen, FallbackOutcome;
  }

  lemma FaultySeen(p: Primitives, s: Pair, body: Bytes, progress: Progress, seen: Option<(nat, Bytes)>)
    ensures var (wire, sent) := Send(p, s, body);
            Complete(p, sent, body, wire, Faulty(progress, seen), false).0 == Seen(p, s.client.server, seen, false).0
  {
    hide Seen, Progressed, Frame, SealMessage, AfterMessage, Unharmed;
  }

  lemma ReadOutcome(p: Primitives, h: Half, body: Bytes, progress: Progress, seen: Option<(nat, Bytes)>, text: Bytes)
    ensures FallbackOutcome(body, Faulty(progress, seen), Seen(p, h, seen, false).0) == Answer(text)
       <==> if body == [] && seen.Some? && seen.value.0 != 401 then text == []
            else Seen(p, h, seen, false).0 == Answer(text)
  {
    if seen.Some? {
      SeenMeans(p, h, seen.value.0, seen.value.1, false, text);
    }
    hide Receive, LooksSealed;
  }

  lemma FallbackExchange(p: Primitives, host: string, key: Digest, body: Bytes, text: Bytes)
    requires Unharmed(p, FromKey(p, key).client, body) && Unharmed(p, FromKey(p, key).server, text)
    ensures var started := Established(p, host, key);
            var (wire, sent) := Send(p, started, body);
            var (reply, after) := Complete(p, sent, body, wire, Served(text), false);
            reply == Answer(text) && after.server.server.seqNum != started.client.client.seqNum
  {
    var started := Established(p, host, key);
    var (wire, sent) := Send(p, started, body);
    SendStarts(p, started, body);
    IntactExchange(p, sent, body, wire, Served(text), false);
    CompleteKeepsClient(p, sent, body, wire, Served(text), false);
    SeqAfterMessage(started.client.client, |body|);
    hide FromKey, Complete, Frame, SealMessage, UnsealFrame, Unharmed, Moved;
  }

  /** An exchange on a session whose server expects another sequence number is denied. */
  lemma OutOfStepDenied(p: Primitives, s: Pair, body: Bytes, text: Bytes, octet: bool)
    requires s.client.client.seqNum != s.server.server.seqNum
    ensures var (wire, sent) := Send(p, s, body);
            && UnsealFrame(p, sent.server.server, wire).0.Err?
            && UnsealFrame(p, sent.server.server, wire).1 == sent.server.server
            && Complete(p, sent, body, wire, Served(text), octet).0 == Denied
  {
    OutOfStepFrameRefused(p, s.server.server, s.client.client, body);
    hide UnsealFrame, Frame, SealMessage, Unharmed, AfterMessage, Receive, Seen;
  }

  /**
   Call `next` seals on the cached session; the server refuses that request and stays as it was; and after
   the reply, whatever it would have said, the call faces a handshake with the cache cleared and the lock free.
   */
  ghost predicate TurnedAway(p: Primitives, t: Transport, next: nat, reply: Bytes)
    requires t.cache.Some?
  {
    var (id, sent) := (t.cache.value.session, Next(p, t, Look(next)));
    var after := Next(p, sent, CachedReply(next, Served(reply)));
    && next in sent.calls && sent.calls[next].stage.Cached? && id in t.sessions && id in sent.sessions
    && UnsealFrame(p, sent.sessions[id].server.server, sent.calls[next].stage.wire).0.Err?
    && UnsealFrame(p, sent.sessions[id].server.server, sent.calls[next].stage.wire).1 == t.sessions[id].server.server
    && next in after.calls && after.calls[next].stage == Handshaking && after.cache == None && after.holder == None
  }

  /** A cached session whose server expects another sequence number turns the next call away, whatever its body. */
  lemma OutOfStepCacheRefused(p: Primitives, t: Transport, next: nat, reply: Bytes)
    requires next in t.calls && t.calls[next].stage == Ready && t.holder == None
    requires t.cache.Some? && t.cache.value.host == t.calls[next].host && t.cache.value.session in t.sessions
    requires var s := t.sessions[t.cache.value.session]; s.client.client.seqNum != s.server.server.seqNum
    ensures TurnedAway(p, t, next, reply)
  {
    var s := t.sessions[t.cache.value.session];
    OutOfStepDenied(p, s, t.calls[next].body, reply, true);
    SendKeepsServer(p, s, t.calls[next].body);
    hide Complete, UnsealFrame, Send;
    assert Next(p, t, Look(next)) == LookUp(p, t, next);
  }

  /**
   The session that the fallback caches is out of step: after a fallback that went through and its
   publication, the next call to that host is turned away.
   */
  lemma FallbackSessionRefused(p: Primitives, t: Transport, call: nat, id: nat, key: Digest, text: Bytes, next: nat,
                               reply: Bytes)
    requires call in t.calls && t.calls[call].stage == FallingBack && id !in t.sessions && t.holder == None
    requires Unharmed(p, FromKey(p, key).client, t.calls[call].body) && Unharmed(p, FromKey(p, key).server, text)
    requires next in t.calls && next != call && t.calls[next].stage == Ready && t.calls[next].host == t.calls[call].host
    ensures var published := Next(p, Next(p, t, Fallback(call, id, Some(key), Served(text))), Publish(call));
            && published.cache == Some(Entry(t.calls[call].host, id)) && id in published.sessions
            && !InStep(published.sessions[id])
            && TurnedAway(p, published, next, reply)
  {
    FallbackPublished(p, t, call, id, key, text, next);
    hide Next, Unharmed, FromKey, TurnedAway;
    var fallen := Next(p, t, Fallback(call, id, Some(key), Served(text)));
    OutOfStepCacheRefused(p, Next(p, fallen, Publish(call)), next, reply);
  }

  /** What stands in the cache after a fallback that went through and its publication. */
  lemma FallbackPublished(p: Primitives, t: Transport, call: nat, id: nat, key: Digest, text: Bytes, next: nat)
    requires call in t.calls && t.calls[call].stage == FallingBack && id !in t.sessions && t.holder == None
    requires Unharmed(p, FromKey(p, key).client, t.calls[call].body) && Unharmed(p, FromKey(p, key).server, text)
    requires next in t.calls && next != call
    ensures var published := Next(p, Next(p, t, Fallback(call, id, Some(key), Served(text))), Publish(call));
            && published.cache == Some(Entry(t.calls[call].host, id)) && published.holder == None
            && next in published.calls && published.calls[next] == t.calls[next]
            && id in published.sessions
            && published.sessions[id].client.client.seqNum != published.sessions[id].server.server.seqNum
  {
    FallbackLeaves(p, t, call, id, key, text);
    StepFallback(p, t, call, id, key, Served(text));
    hide AfterFallback, FromKey, Unharmed, Next;
    var fallen := AfterFallback(p, t, call, id, Some(key), Served(text));
    StepPublish(p, fallen, call);
  }

  lemma StepFallback(p: Primitives, t: Transport, call: nat, id: nat, key: Digest, net: Net)
    requires call in t.calls && t.calls[call].stage == FallingBack && id !in t.sessions
    ensures Next(p, t, Fallback(call, id, Some(key), net)) == AfterFallback(p, t, call, id, Some(key), net)
  {
    hide AfterFallback;
  }

  lemma StepPublish(p: Primitives, t: Transport, call: nat)
    requires call in t.calls && t.calls[call].stage.Publishing? && t.holder == None
    ensures Next(p, t, Publish(call)) == Published(t, call)
  {
    hide Published;
  }

  lemma SendKeepsServer(p: Primitives, s: Pair, body: Bytes)
    ensures Send(p, s, body).1.server == s.server
  {
    hide Frame, SealMessage, AfterMessage, Unharmed;
  }

  lemma CompleteKeepsClient(p: Primitives, s: Pair, body: Bytes, wire: Bytes, net: Net, octet: bool)
    ensures Complete(p, s, body, wire, net, octet).1.client.client == s.client.client
  {
    hide UnsealFrame, Receive, Seen, Progressed, Frame, SealMessage;
  }

  lemma SeqAfterMessage(h: Half, n: nat)
    ensures AfterMessage(h, n).seqNum != h.seqNum
  {
    hide Rc4.Advance;
    SeqPlusZero(h.seqNum);
    SeqPlusDiffers(h.seqNum, 0, 1);
  }

  // A reply that is lost.

  /**
   The cache holds a session on which the server has sent `lead` messages that the client never read, while
   requests still get through: the server reads the one that is out, if any.
   */
  ghost predicate Stranded(p: Primitives, t: Transport, entry: Entry, lead: nat) {
    && LockInvariant(t) && t.cache == Some(entry) && entry.session in t.sessions
    && var s := t.sessions[entry.session];
    && 0 < lead && s.server.client.seqNum == SeqPlus(s.client.server.seqNum, lead)
    && match t.holder
       case None => s.server.server == s.client.client
       case Some(call) =>
         call in t.calls && t.calls[call].stage.Cached? && Readable(p, s, t.calls[call].body, t.calls[call].stage.wire)
  }

  /** The server reads the body in `wire`, and then stands where the client stands. */
  predicate Readable(p: Primitives, s: Pair, body: Bytes, wire: Bytes) {
    UnsealFrame(p, s.server.server, wire) == (Ok(body), s.client.client)
  }

  /** A step of calls to the cached host on the cached session, on which the network is at its best. */
  predicate SteadyStep(p: Primitives, t: Transport, entry: Entry, a: Action) {
    match a
    case Begin(_, _, _) => true
    case Look(call) =>
      call in t.calls && t.calls[call].stage == Ready && t.holder == None && entry.session in t.sessions ==>
        && t.calls[call].host == entry.host
        && Unharmed(p, t.sessions[entry.session].client.client, t.calls[call].body)
    case CachedReply(_, net) => net.Served?
    case _ => false
  }

  predicate Steady(p: Primitives, t: Transport, entry: Entry, actions: seq<Action>) {
    actions == [] ||
    (var init := actions[..|actions| - 1];
     Steady(p, t, entry, init) && SteadyStep(p, RunFrom(p, t, init), entry, actions[|actions| - 1]))
  }

  /** A further call on the cached session, with its request whole and its reply delivered, is steady. */
  lemma FurtherCallSteady(p: Primitives, t: Transport, entry: Entry, call: nat, body: Bytes, text: Bytes)
    requires t.holder == None && t.cache == Some(entry) && entry.session in t.sessions && call !in t.calls
    requires Unharmed(p, t.sessions[entry.session].client.client, body)
    ensures Steady(p, t, entry, [Begin(call, entry.host, body), Look(call), CachedReply(call, Served(text))])
  {
    BeginStarts(p, t, call, entry.host, body);
    var (a, b, c) := (Begin(call, entry.host, body), Look(call), CachedReply(call, Served(text)));
    hide Next, Unharmed;
    assert [a, b, c][..2] == [a, b] && [a, b][..1] == [a] && [a][..0] == [];
    assert RunFrom(p, t, [a]) == Next(p, t, a);
    assert Steady(p, t, entry, [a]);
    assert Steady(p, t, entry, [a, b]);
  }

  /** No call that was still to come, or under way on the cached session, has got an answer. */
  ghost predicate NoneAnswered(before: Transport, t: Transport) {
    forall c | c in t.calls && (c in before.calls ==> before.calls[c].stage.Ready? || before.calls[c].stage.Cached?) ::
      t.calls[c].stage in {Ready, Returned(None)} || t.calls[c].stage.Cached?
  }

  /** On a stranded session the server reads the body and replies, and the client refuses the reply. */
  lemma StrandedExchange(p: Primitives, s: Pair, body: Bytes, wire: Bytes, text: Bytes, lead: nat)
    requires Readable(p, s, body, wire)
    requires 0 < lead < U32 && s.server.client.seqNum == SeqPlus(s.client.server.seqNum, lead)
    ensures var (o, s') := Complete(p, s, body, wire, Served(text), true);
            && o == Failure && s'.client == s.client && s'.server.server == s.client.client
            && s'.server.client.seqNum == SeqPlus(s.client.server.seqNum, lead + 1)
  {
    var sealed := SealMessage(p, s.server.client, text);
    SeqPlusZero(s.client.server.seqNum);
    SeqPlusDiffers(s.client.server.seqNum, 0, lead);
    SeqPlusSum(s.client.server.seqNum, lead, 1);
    OutOfStepFrameRefused(p, s.client.server, s.server.client, text);
    FrameLooksEncrypted(sealed, |text|);
    hide UnsealFrame, Frame, SealMessage, SeqPlus, Occurs, Unharmed, Rc4.Advance;
  }

  lemma StrandedLook(p: Primitives, t: Transport, entry: Entry, lead: nat, call: nat)
    requires Stranded(p, t, entry, lead) && SteadyStep(p, t, entry, Look(call))
    requires call in t.calls && t.calls[call].stage == Ready && t.holder == None
    ensures Stranded(p, LookUp(p, t, call), entry, lead)
  {
    var s := t.sessions[entry.session];
    RequestRead(p, s.client.client, t.calls[call].body);
    hide UnsealFrame, Frame, SealMessage, AfterMessage, Unharmed, SeqPlus;
  }

  /** A cached exchange that fails lets go of the lock and keeps the cache. */
  lemma CachedFails(p: Primitives, t: Transport, call: nat, net: Net)
    requires call in t.calls && t.calls[call].stage.Cached? && t.cache.Some? && t.cache.value.session in t.sessions
    requires var c := t.calls[call];
             Complete(p, t.sessions[t.cache.value.session], c.body, c.stage.wire, net, true).0 == Failure
    ensures var (c, id) := (t.calls[call], t.cache.value.session);
            var s := Complete(p, t.sessions[id], c.body, c.stage.wire, net, true).1;
            AfterCached(p, t, call, net)
            == t.(holder := None, sessions := t.sessions[id := s],
                  calls := t.calls[call := c.(stage := Returned(None))])
  {
    hide Complete;
  }

  lemma StrandedReply(p: Primitives, t: Transport, entry: Entry, lead: nat, call: nat, text: Bytes)
    requires Stranded(p, t, entry, lead) && lead < U32 && call in t.calls && t.calls[call].stage.Cached?
    ensures Stranded(p, AfterCached(p, t, call, Served(text)), entry, lead + 1)
    ensures AfterCached(p, t, call, Served(text)).calls == t.calls[call := t.calls[call].(stage := Returned(None))]
  {
    var s, c := t.sessions[entry.session], t.calls[call];
    StrandedExchange(p, s, c.body, c.stage.wire, text, lead);
    hide Readable, SeqPlus, AfterMessage, SealMessage, Frame, UnsealFrame, Unharmed;
    CachedFails(p, t, call, Served(text));
    hide Complete, AfterCached;
  }

  lemma StrandedStep(p: Primitives, t: Transport, entry: Entry, lead: nat, a: Action) returns (lead': nat)
    requires Stranded(p, t, entry, lead) && lead < U32 && SteadyStep(p, t, entry, a)
    ensures lead <= lead' <= lead + 1 && Stranded(p, Next(p, t, a), entry, lead')
  {
    lead' := lead;
    hide LookUp, AfterCached, Readable, SeqPlus, Unharmed;
    match a
    case Begin(call, host, body) =>
    case Look(call) =>
      if call in t.calls && t.calls[call].stage == Ready && t.holder == None { StrandedLook(p, t, entry, lead, call); }
    case CachedReply(call, net) =>
      if call in t.calls && t.calls[call].stage.Cached? {
        StrandedReply(p, t, entry, lead, call, net.text);
        lead' := lead + 1;
      }
  }

  lemma StepAnswersNone(p: Primitives, before: Transport, t: Transport, entry: Entry, lead: nat, a: Action)
    requires Stranded(p, t, entry, lead) && lead < U32 && SteadyStep(p, t, entry, a) && NoneAnswered(before, t)
    requires before.calls.Keys <= t.calls.Keys
    ensures NoneAnswered(before, Next(p, t, a)) && before.calls.Keys <= Next(p, t, a).calls.Keys
  {
    hide AfterCached, Readable, SeqPlus, Unharmed, Send;
    match a
    case Begin(call, host, body) =>
    case Look(call) =>
    case CachedReply(call, net) =>
      if call in t.calls && t.calls[call].stage.Cached? {
        StrandedReply(p, t, entry, lead, call, net.text);
        hide Stranded;
      }
  }

  /** A stranded session strands every later call to its host, for as long as sequence numbers do not wrap. */
  lemma {:induction false} StrandedRun(p: Primitives, t: Transport, entry: Entry, lead: nat, actions: seq<Action>)
      returns (lead': nat)
    requires Stranded(p, t, entry, lead) && Steady(p, t, entry, actions) && lead + |actions| < U32
    ensures lead <= lead' <= lead + |actions| && Stranded(p, RunFrom(p, t, actions), entry, lead')
    ensures t.calls.Keys <= RunFrom(p, t, actions).calls.Keys && NoneAnswered(t, RunFrom(p, t, actions))
  {
    hide Next, Stranded, SteadyStep;
    if actions == [] {
      lead' := lead;
    } else {
      hide NoneAnswered;
      var init, last := actions[..|actions| - 1], actions[|actions| - 1];
      var middle := StrandedRun(p, t, entry, lead, init);
      lead' := StrandedStep(p, RunFrom(p, t, init), entry, middle, last);
      StepAnswersNone(p, t, RunFrom(p, t, init), entry, middle, last);
    }
  }

  /** A reply lost on an intact cached session: the call fails, and the session stays in the cache, stranded. */
  lemma LostReply(p: Primitives, actions: seq<Action>, call: nat, text: Bytes)
    requires var t := Run(p, actions);
             && call in t.calls && t.calls[call].stage.Cached? && t.cache.Some? && t.cache.value.session in t.sessions
             && t.sessions[t.cache.value.session].intact
    ensures var t := Run(p, actions);
            var t' := AfterCached(p, t, call, Faulty(Replied(t.calls[call].stage.wire, text), None));
            t'.calls[call].stage == Returned(None) && Stranded(p, t', t.cache.value, 1)
  {
    var t := Run(p, actions);
    var id, c := t.cache.value.session, t.calls[call];
    AlwaysSafe(p, actions);
    AlwaysSynced(p, actions);
    CachedReplySafe(p, t, call, Faulty(Replied(c.stage.wire, text), None));
    hide Run, Synced, UnsealFrame, Unharmed, Frame, SealMessage;
    SyncedHere(p, t, call, id);
    RequestRead(p, t.sessions[id].server.server, c.body);
    hide OwnershipInvariant, UsesInvariant, Counted;
  }

  /**
   The code does not recover from a lost reply. The call fails, and from then on every call to that host has
   its body read by the server and fails as well, with the session still in the cache, however the calls
   interleave and however good the network is, until 2^32 steps have passed.
   */
  lemma LostReplyStrands(p: Primitives, actions: seq<Action>, call: nat, text: Bytes, later: seq<Action>)
    requires var t := Run(p, actions);
             && call in t.calls && t.calls[call].stage.Cached? && t.cache.Some? && t.cache.value.session in t.sessions
             && t.sessions[t.cache.value.session].intact
    requires var t := Run(p, actions);
             var lost := AfterCached(p, t, call, Faulty(Replied(t.calls[call].stage.wire, text), None));
             Steady(p, lost, t.cache.value, later) && |later| + 1 < U32
    ensures var t := Run(p, actions);
            var lost := AfterCached(p, t, call, Faulty(Replied(t.calls[call].stage.wire, text), None));
            var end := RunFrom(p, lost, later);
            && lost.calls[call].stage == Returned(None)
            && end.cache == t.cache && NoneAnswered(lost, end)
            && exists lead: nat :: lead <= 1 + |later| && Stranded(p, end, t.cache.value, lead)
  {
    var t := Run(p, actions);
    LostReply(p, actions, call, text);
    hide Run, RunFrom, AfterCached, Steady, NoneAnswered;
    var lost := AfterCached(p, t, call, Faulty(Replied(t.calls[call].stage.wire, text), None));
    var lead := StrandedRun(p, lost, t.cache.value, 1, later);
  }
}
