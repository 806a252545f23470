/** The PSRP driver: waiting for the runspace, then collecting output up to the pipeline's end. */
module Pipeline {
  import opened Bytes
  import opened Primitives
  import opened Fragments
  import opened Reassembly

  const RUNSPACE_POOL_STATE := 0x0002_1005
  const PIPELINE_OUTPUT := 0x0004_1004
  const ERROR_RECORD := 0x0004_1005
  const PIPELINE_STATE := 0x0004_1006
  const NEWLINE: Bytes := [10]

  /** What the driver reads out of a message body. */
  datatype Extractors = Extractors(outputText: Bytes -> Bytes, namedI32: (Bytes, string) -> Option<int>)

  /** What one poll brings: the bytes of the stream, or a failure of the transport. */
  datatype Poll = Chunk(bytes: Bytes) | Failed

  datatype RunError = Transport | Protocol(error: PsrpError) | NotOpened | NotFinished

  datatype Output = Output(stdout: Bytes, stderr: Bytes, exitCode: int, done: bool)

  const NOTHING := Output([], [], 0, false)

  predicate Opens(x: Extractors, m: Message) {
    m.messageType == RUNSPACE_POOL_STATE && x.namedI32(m.data, "RunspaceState") == Some(2)
  }

  predicate AnyOpen(x: Extractors, ms: seq<Message>) {
    exists m | m in ms :: Opens(x, m)
  }

  /** The terminal pipeline state a message reports: 4 completed, 5 failed, 6 stopped. */
  function EndState(x: Extractors, m: Message): Option<int> {
    if m.messageType != PIPELINE_STATE then None else
      match x.namedI32(m.data, "PipelineState")
      case Some(s) => if s == 4 || s == 5 || s == 6 then Some(s) else None
      case None => None
  }

  /** `text` at the end of `out`, on a line of its own. */
  function AddLine(out: Bytes, text: Bytes): Bytes {
    var longer := out + text;
    if NEWLINE <= longer[if longer == [] then 0 else |longer| - 1..] then longer else longer + NEWLINE
  }

  function Handle(x: Extractors, o: Output, m: Message): Output {
    if o.done then o
    else if m.messageType == PIPELINE_OUTPUT then o.(stdout := AddLine(o.stdout, x.outputText(m.data)))
    else if m.messageType == ERROR_RECORD then o.(stderr := AddLine(o.stderr, x.outputText(m.data)))
    else match EndState(x, m)
      case None => o
      case Some(s) => o.(exitCode := if s == 5 then 1 else o.exitCode, done := true)
  }

  function Collect(x: Extractors, o: Output, ms: seq<Message>): Output {
    if ms == [] then o else Handle(x, Collect(x, o, ms[..|ms| - 1]), ms[|ms| - 1])
  }

  /** At most `left` polls from number `i`, until the runspace opens. */
  function AwaitOpen(p: Primitives, x: Extractors, polls: nat -> Poll, i: nat, left: nat,
                     st: State): Result<(nat, State), RunError>
    decreases left
  {
    if left == 0 then Err(NotOpened) else
      match polls(i)
      case Failed => Err(Transport)
      case Chunk(bytes) =>
        var (r, st') := Fed(p, st, bytes);
        if r.Err? then Err(Protocol(r.error))
        else if AnyOpen(x, r.value) then Ok((i + 1, st'))
        else AwaitOpen(p, x, polls, i + 1, left - 1, st')
  }

  /** At most `left` polls from number `i`, until the pipeline ends. */
  function AwaitEnd(p: Primitives, x: Extractors, polls: nat -> Poll, i: nat, left: nat, st: State,
                    o: Output): Result<Output, RunError>
    decreases left
  {
    if o.done then Ok(o)
    else if left == 0 then Err(NotFinished)
    else
      match polls(i)
      case Failed => Err(Transport)
      case Chunk(bytes) =>
        var (r, st') := Fed(p, st, bytes);
        if r.Err? then Err(Protocol(r.error))
        else AwaitEnd(p, x, polls, i + 1, left - 1, st', Collect(x, o, r.value))
  }

  const OPEN_POLLS := 64
  const OUTPUT_POLLS := 256

  /** The whole run; `started` says whether the pipeline could be created. */
  function Run(p: Primitives, x: Extractors, polls: nat -> Poll, started: bool): Result<Output, RunError> {
    match AwaitOpen(p, x, polls, 0, OPEN_POLLS, State([], map[]))
    case Err(e) => Err(e)
    case Ok((i, st)) => if !started then Err(Transport) else AwaitEnd(p, x, polls, i, OUTPUT_POLLS, st, NOTHING)
  }

  method AnyOpens(x: Extractors, msgs: seq<Message>) returns (isOpen: bool)
    ensures isOpen <==> AnyOpen(x, msgs)
  {
    isOpen := false;
    for k := 0 to |msgs|
      invariant !isOpen
      invariant forall j | 0 <= j < k :: !Opens(x, msgs[j])
    {
      if Opens(x, msgs[k]) {
        return true;
      }
    }
  }

  /** The loop over the messages of one poll. */
  method HandleAll(x: Extractors, o: Output, msgs: seq<Message>) returns (out: Output)
    requires !o.done
    ensures out == Collect(x, o, msgs)
  {
    hide Handle;
    out := o;
    for k := 0 to |msgs|
      invariant !out.done
      invariant out == Collect(x, o, msgs[..k])
    {
      assert msgs[..k + 1][..k] == msgs[..k];
      out := Handle(x, out, msgs[k]);
      if out.done {
        DoneStays(x, o, msgs, k + 1);
        return;
      }
    }
    assert msgs[..|msgs|] == msgs;
  }

  lemma {:induction false} DoneStays(x: Extractors, o: Output, ms: seq<Message>, k: nat)
    requires k <= |ms| && Collect(x, o, ms[..k]).done
    ensures Collect(x, o, ms) == Collect(x, o, ms[..k])
  {
    if k == |ms| {
      assert ms[..k] == ms;
    } else {
      assert ms[..|ms| - 1][..k] == ms[..k];
      DoneStays(x, o, ms[..|ms| - 1], k);
    }
  }

  /** One round of the first phase. */
  lemma AwaitOpenRound(p: Primitives, x: Extractors, polls: nat -> Poll, i: nat, left: nat, st: State)
    ensures AwaitOpen(p, x, polls, i, left, st)
         == if left == 0 then Err(NotOpened)
            else if polls(i).Failed? then Err(Transport)
            else var (r, st') := Fed(p, st, polls(i).bytes);
              if r.Err? then Err(Protocol(r.error))
              else if AnyOpen(x, r.value) then Ok((i + 1, st'))
              else AwaitOpen(p, x, polls, i + 1, left - 1, st')
  {
    hide Fed, AnyOpen;
  }

  /** Drains the stream until the runspace reports that it is open; returns the number of polls made. */
  method WaitUntilOpen(p: Primitives, x: Extractors, polls: nat -> Poll, reassembler: Reassembler)
    returns (r: Result<nat, RunError>)
    modifies reassembler
    ensures var whole := AwaitOpen(p, x, polls, 0, OPEN_POLLS, old(reassembler.View()));
            match r
            case Ok(n) => whole == Ok((n, reassembler.View()))
            case Err(e) => whole == Err(e)
  {
    hide Fed, AnyOpen, AwaitOpen;
    for k := 0 to OPEN_POLLS
      invariant AwaitOpen(p, x, polls, 0, OPEN_POLLS, old(reassembler.View()))
             == AwaitOpen(p, x, polls, k, OPEN_POLLS - k, reassembler.View())
    {
      AwaitOpenRound(p, x, polls, k, OPEN_POLLS - k, reassembler.View());
      var poll := polls(k);
      if poll.Failed? {
        return Err(Transport);
      }
      var fed := reassembler.Feed(p, poll.bytes);
      if fed.Err? {
        return Err(Protocol(fed.error));
      }
      var isOpen := AnyOpens(x, fed.value);
      if isOpen {
        return Ok(k + 1);
      }
    }
    AwaitOpenRound(p, x, polls, OPEN_POLLS, 0, reassembler.View());
    return Err(NotOpened);
  }

  /** Collects output from poll number `from` until the pipeline ends. */
  method CollectOutput(p: Primitives, x: Extractors, polls: nat -> Poll, from: nat, reassembler: Reassembler)
    returns (r: Result<Output, RunError>)
    modifies reassembler
    ensures r == AwaitEnd(p, x, polls, from, OUTPUT_POLLS, old(reassembler.View()), NOTHING)
  {
    hide Fed, Collect;
    var out := NOTHING;
    for k := 0 to OUTPUT_POLLS
      invariant !out.done
      invariant AwaitEnd(p, x, polls, from, OUTPUT_POLLS, old(reassembler.View()), NOTHING)
             == AwaitEnd(p, x, polls, from + k, OUTPUT_POLLS - k, reassembler.View(), out)
    {
      var poll := polls(from + k);
      if poll.Failed? {
        return Err(Transport);
      }
      var fed := reassembler.Feed(p, poll.bytes);
      if fed.Err? {
        return Err(Protocol(fed.error));
      }
      out := HandleAll(x, out, fed.value);
      if out.done {
        return Ok(out);
      }
    }
    return Err(NotFinished);
  }

  /** `run_powershell`, once the shell is open; `polls` are the results of its receive calls in order. */
  method RunPowershell(p: Primitives, x: Extractors, polls: nat -> Poll, started: bool)
    returns (r: Result<Output, RunError>)
    ensures r == Run(p, x, polls, started)
  {
    hide AwaitOpen, AwaitEnd;
    var reassembler := new Reassembler();
    var ready := WaitUntilOpen(p, x, polls, reassembler);
    if ready.Err? {
      return Err(ready.error);
    }
    if !started {
      return Err(Transport);
    }
    r := CollectOutput(p, x, polls, ready.value, reassembler);
  }

  lemma {:induction false} CollectSum(x: Extractors, o: Output, a: seq<Message>, b: seq<Message>)
    ensures Collect(x, o, a + b) == Collect(x, Collect(x, o, a), b)
  {
    hide Handle;
    if b == [] {
      assert a + b == a;
    } else {
      CollectSum(x, o, a, b[..|b| - 1]);
      assert (a + b)[..|a + b| - 1] == a + b[..|b| - 1];
    }
  }

  lemma CollectDone(x: Extractors, o: Output, ms: seq<Message>)
    requires o.done
    ensures Collect(x, o, ms) == o
  {
    DoneStays(x, o, ms, 0);
  }

  /** The polls from number `i` on begin with `chunks`. */
  ghost predicate Brings(polls: nat -> Poll, i: nat, chunks: seq<Bytes>) {
    forall k: nat | k < |chunks| :: polls(i + k) == Chunk(chunks[k])
  }

  lemma BringsTail(polls: nat -> Poll, i: nat, chunks: seq<Bytes>)
    requires Brings(polls, i, chunks) && chunks != []
    ensures polls(i) == Chunk(chunks[0]) && Brings(polls, i + 1, chunks[1..])
  {
    assert polls(i + 0) == Chunk(chunks[0]);
    forall k: nat | k < |chunks| - 1
      ensures polls(i + 1 + k) == Chunk(chunks[1..][k])
    {
      assert polls(i + (k + 1)) == Chunk(chunks[k + 1]);
    }
  }

  /** The collecting phase over polls whose chunks feed without failure. */
  lemma {:induction false} CollectChunks(p: Primitives, x: Extractors, polls: nat -> Poll, i: nat, left: nat,
                                         st: State, o: Output, chunks: seq<Bytes>)
    requires Brings(polls, i, chunks) && |chunks| <= left
    requires FedAll(p, st, chunks).0.Ok? && Collect(x, o, FedAll(p, st, chunks).0.value).done
    ensures AwaitEnd(p, x, polls, i, left, st, o) == Ok(Collect(x, o, FedAll(p, st, chunks).0.value))
    decreases |chunks|
  {
    var ms := FedAll(p, st, chunks).0.value;
    if o.done {
      CollectDone(x, o, ms);
    } else if chunks != [] {
      hide Fed, Collect;
      var (r, st') := Fed(p, st, chunks[0]);
      var rest := FedAll(p, st', chunks[1..]).0;
      CollectSum(x, o, r.value, rest.value);
      BringsTail(polls, i, chunks);
      hide Brings;
      CollectChunks(p, x, polls, i + 1, left - 1, st', Collect(x, o, r.value), chunks[1..]);
    }
  }

  /**
   The result does not depend on how polls cut the stream: if the bytes of at most 256 polls feed
   without failure and hold an end of the pipeline, the result is the fold over their messages.
   */
  lemma ResultIgnoresCuts(p: Primitives, x: Extractors, polls: nat -> Poll, i: nat, st: State, chunks: seq<Bytes>)
    requires Brings(polls, i, chunks) && 0 < |chunks| <= OUTPUT_POLLS
    requires var r := Fed(p, st, Join(chunks)).0; r.Ok? && Collect(x, NOTHING, r.value).done
    ensures AwaitEnd(p, x, polls, i, OUTPUT_POLLS, st, NOTHING)
            == Ok(Collect(x, NOTHING, Fed(p, st, Join(chunks)).0.value))
  {
    hide Fed, Collect, AwaitEnd;
    AnyChunks(p, st, chunks);
    CollectChunks(p, x, polls, i, OUTPUT_POLLS, st, NOTHING, chunks);
  }

  /** A PIPELINE_STATE message (MS-PSRP section 2.2.2.21) that reports completed, failed or stopped. */
  predicate Terminal(x: Extractors, m: Message) {
    m.messageType == 0x0004_1006 && x.namedI32(m.data, "PipelineState") in {Some(4), Some(5), Some(6)}
  }

  /** The messages handled before the first end of the pipeline. */
  ghost predicate FirstEnd(x: Extractors, ms: seq<Message>, k: nat) {
    k < |ms| && Terminal(x, ms[k]) && forall j | 0 <= j < k :: !Terminal(x, ms[j])
  }

  lemma TerminalMeansEnd(x: Extractors, m: Message)
    ensures Terminal(x, m) <==> EndState(x, m).Some?
    ensures Terminal(x, m) ==> EndState(x, m) == x.namedI32(m.data, "PipelineState")
  {
  }

  function Texts(x: Extractors, ms: seq<Message>, messageType: nat): seq<Bytes> {
    if ms == [] then [] else
      var last := ms[|ms| - 1];
      Texts(x, ms[..|ms| - 1], messageType) + OfType(x, last, messageType)
  }

  /** Texts on lines of their own; an empty text makes a line only where there is none before it. */
  function Lines(texts: seq<Bytes>): Bytes {
    if texts == [] then [] else
      var (before, last) := (Lines(texts[..|texts| - 1]), texts[|texts| - 1]);
      if last == [] then (if before == [] then NEWLINE else before)
      else before + if last[|last| - 1] == 10 then last else last + NEWLINE
  }

  lemma {:induction false} LinesEnd(texts: seq<Bytes>)
    ensures Lines(texts) == [] || Lines(texts)[|Lines(texts)| - 1] == 10
  {
    if texts != [] {
      LinesEnd(texts[..|texts| - 1]);
    }
  }

  lemma AddLineIsLine(texts: seq<Bytes>, text: Bytes)
    ensures AddLine(Lines(texts), text) == Lines(texts + [text])
  {
    LinesEnd(texts);
    assert (texts + [text])[..|texts|] == texts;
    var before := Lines(texts);
    hide Lines;
    if text == [] {
      assert before + text == before;
    } else {
      assert (before + text)[|before + text| - 1] == text[|text| - 1];
      assert before + text + NEWLINE == before + (text + NEWLINE);
    }
  }

  function OfType(x: Extractors, m: Message, messageType: nat): seq<Bytes> {
    if m.messageType == messageType then [x.outputText(m.data)] else []
  }

  lemma HandleLine(x: Extractors, outputs: seq<Bytes>, errors: seq<Bytes>, m: Message)
    requires EndState(x, m).None?
    ensures Handle(x, Output(Lines(outputs), Lines(errors), 0, false), m)
         == Output(Lines(outputs + OfType(x, m, PIPELINE_OUTPUT)), Lines(errors + OfType(x, m, ERROR_RECORD)), 0, false)
  {
    AddLineIsLine(outputs, x.outputText(m.data));
    AddLineIsLine(errors, x.outputText(m.data));
    hide Lines, AddLine, EndState;
    assert outputs + [] == outputs && errors + [] == errors;
  }

  /** Up to an end of the pipeline, the streams are the lines of the messages of their types. */
  lemma {:induction false} CollectLines(x: Extractors, ms: seq<Message>)
    requires forall m | m in ms :: EndState(x, m).None?
    ensures Collect(x, NOTHING, ms)
         == Output(Lines(Texts(x, ms, PIPELINE_OUTPUT)), Lines(Texts(x, ms, ERROR_RECORD)), 0, false)
  {
    hide EndState, Handle, OfType;
    if ms != [] {
      hide Lines;
      var init, last := ms[..|ms| - 1], ms[|ms| - 1];
      assert last in ms && forall m | m in init :: m in ms;
      CollectLines(x, init);
      HandleLine(x, Texts(x, init, PIPELINE_OUTPUT), Texts(x, init, ERROR_RECORD), last);
    }
  }

  /** What a run that finds its first terminal state in message `k` returns. */
  function Result(x: Extractors, ms: seq<Message>, k: nat): Output
    requires k < |ms|
  {
    Output(Lines(Texts(x, ms[..k], 0x0004_1004)), Lines(Texts(x, ms[..k], 0x0004_1005)),
           if x.namedI32(ms[k].data, "PipelineState") == Some(5) then 1 else 0, true)
  }

  /** A finished run: the lines before the first end of the pipeline, and exit code 1 exactly for state 5. */
  lemma CollectMeaning(x: Extractors, ms: seq<Message>, k: nat)
    requires FirstEnd(x, ms, k)
    ensures Collect(x, NOTHING, ms) == Result(x, ms, k)
  {
    TerminalMeansEnd(x, ms[k]);
    NoEndBefore(x, ms, k);
    hide EndState, Terminal, FirstEnd, Lines, Texts;
    CollectLines(x, ms[..k]);
    assert ms[..k + 1][..k] == ms[..k];
    HandleEnd(x, Lines(Texts(x, ms[..k], PIPELINE_OUTPUT)), Lines(Texts(x, ms[..k], ERROR_RECORD)), ms[k]);
    hide Handle;
    DoneStays(x, NOTHING, ms, k + 1);
  }

  lemma NoEndBefore(x: Extractors, ms: seq<Message>, k: nat)
    requires FirstEnd(x, ms, k)
    ensures forall m | m in ms[..k] :: EndState(x, m).None?
  {
    forall j | 0 <= j < k
      ensures EndState(x, ms[..k][j]).None?
    {
      TerminalMeansEnd(x, ms[j]);
    }
  }

  lemma HandleEnd(x: Extractors, stdout: Bytes, stderr: Bytes, m: Message)
    requires EndState(x, m).Some?
    ensures Handle(x, Output(stdout, stderr, 0, false), m)
         == Output(stdout, stderr, if EndState(x, m) == Some(5) then 1 else 0, true)
  {
  }

  /** A run is finished exactly when its messages hold an end of the pipeline. */
  lemma {:induction false} DoneMeansEnd(x: Extractors, ms: seq<Message>)
    ensures Collect(x, NOTHING, ms).done <==> exists k: nat :: FirstEnd(x, ms, k)
  {
    if forall m | m in ms :: EndState(x, m).None? {
      CollectLines(x, ms);
      assert forall k: nat | k < |ms| :: ms[k] in ms;
    } else {
      var k := FindEnd(x, ms, 0);
      CollectMeaning(x, ms, k);
    }
  }

  lemma FindEnd(x: Extractors, ms: seq<Message>, i: nat) returns (k: nat)
    requires exists j :: i <= j < |ms| && EndState(x, ms[j]).Some?
    requires forall j | 0 <= j < i :: EndState(x, ms[j]).None?
    ensures FirstEnd(x, ms, k)
    decreases |ms| - i
  {
    if EndState(x, ms[i]).Some? {
      k := i;
    } else {
      k := FindEnd(x, ms, i + 1);
    }
  }

  /** Feeding `chunks` succeeds, leads to `st'`, and brings an opening message. */
  ghost predicate OpenedBy(p: Primitives, x: Extractors, st: State, st': State, chunks: seq<Bytes>) {
    && FedAll(p, st, chunks).0.Ok? && FedAll(p, st, chunks).1 == st'
    && AnyOpen(x, FedAll(p, st, chunks).0.value)
  }

  /** Some message is a RUNSPACEPOOL_STATE (MS-PSRP section 2.2.2.17) that reports the open state. */
  predicate ReportsOpen(x: Extractors, ms: seq<Message>) {
    exists m | m in ms :: m.messageType == 0x0002_1005 && x.namedI32(m.data, "RunspaceState") == Some(2)
  }

  lemma OpenMeans(x: Extractors, ms: seq<Message>)
    ensures AnyOpen(x, ms) <==> ReportsOpen(x, ms)
  {
    assert forall m | m in ms :: Opens(x, m) <==>
             m.messageType == 0x0002_1005 && x.namedI32(m.data, "RunspaceState") == Some(2);
  }

  /** The first opening message comes in the last of `chunks`. */
  ghost predicate OpensLast(p: Primitives, x: Extractors, st: State, chunks: seq<Bytes>)
    decreases |chunks|
  {
    && chunks != []
    && var (r, st') := Fed(p, st, chunks[0]);
    && r.Ok?
    && (ReportsOpen(x, r.value) <==> |chunks| == 1)
    && (|chunks| > 1 ==> OpensLast(p, x, st', chunks[1..]))
  }

  lemma OpenedNow(p: Primitives, x: Extractors, st: State, bytes: Bytes)
    requires Fed(p, st, bytes).0.Ok? && AnyOpen(x, Fed(p, st, bytes).0.value)
    ensures OpenedBy(p, x, st, Fed(p, st, bytes).1, [bytes]) && OpensLast(p, x, st, [bytes])
  {
    hide Fed, Opens;
    var (r, st') := Fed(p, st, bytes);
    OpenMeans(x, r.value);
    assert [bytes][1..] == [] && r.value + [] == r.value;
    assert FedAll(p, st, [bytes]) == (Ok(r.value), st');
  }

  lemma OpenedLater(p: Primitives, x: Extractors, st: State, st': State, bytes: Bytes, rest: seq<Bytes>)
    requires Fed(p, st, bytes).0.Ok? && OpenedBy(p, x, Fed(p, st, bytes).1, st', rest)
    requires !AnyOpen(x, Fed(p, st, bytes).0.value) && OpensLast(p, x, Fed(p, st, bytes).1, rest)
    ensures OpenedBy(p, x, st, st', [bytes] + rest) && OpensLast(p, x, st, [bytes] + rest)
  {
    hide Fed, Opens;
    OpenMeans(x, Fed(p, st, bytes).0.value);
    assert ([bytes] + rest)[1..] == rest;
    var m :| m in FedAll(p, Fed(p, st, bytes).1, rest).0.value && Opens(x, m);
    assert m in FedAll(p, st, [bytes] + rest).0.value;
  }

  lemma BringsMore(polls: nat -> Poll, i: nat, bytes: Bytes, rest: seq<Bytes>)
    requires polls(i) == Chunk(bytes) && Brings(polls, i + 1, rest)
    ensures Brings(polls, i, [bytes] + rest)
  {
    forall k: nat | k < |rest| + 1
      ensures polls(i + k) == Chunk(([bytes] + rest)[k])
    {
      if k > 0 {
        assert polls(i + 1 + (k - 1)) == Chunk(rest[k - 1]);
      }
    }
  }

  /** When the first phase succeeds, an opening message has come, within 64 polls that all brought bytes. */
  lemma {:induction false} OpenedByMessage(p: Primitives, x: Extractors, polls: nat -> Poll, i: nat, left: nat,
                                           st: State)
      returns (chunks: seq<Bytes>)
    requires AwaitOpen(p, x, polls, i, left, st).Ok?
    ensures var (n, st') := AwaitOpen(p, x, polls, i, left, st).value;
            && i + |chunks| == n <= i + left && Brings(polls, i, chunks)
            && OpenedBy(p, x, st, st', chunks) && OpensLast(p, x, st, chunks)
    decreases left
  {
    hide Fed, FedAll, AnyOpen, OpenedBy, OpensLast, Brings;
    var bytes := polls(i).bytes;
    var (r, st') := Fed(p, st, bytes);
    if AnyOpen(x, r.value) {
      OpenedNow(p, x, st, bytes);
      BringsNothing(polls, i + 1);
      BringsMore(polls, i, bytes, []);
      chunks := [bytes];
      assert [bytes] + [] == [bytes];
    } else {
      var rest := OpenedByMessage(p, x, polls, i + 1, left - 1, st');
      OpenedLater(p, x, st, AwaitOpen(p, x, polls, i, left, st).value.1, bytes, rest);
      BringsMore(polls, i, bytes, rest);
      chunks := [bytes] + rest;
    }
  }

  lemma BringsNothing(polls: nat -> Poll, i: nat)
    ensures Brings(polls, i, [])
  {
  }

  /** Two ways of cutting one stream into polls give one result. */
  lemma CutsAgree(p: Primitives, x: Extractors, polls: nat -> Poll, polls': nat -> Poll, i: nat, i': nat,
                  st: State, chunks: seq<Bytes>, chunks': seq<Bytes>)
    requires Brings(polls, i, chunks) && Brings(polls', i', chunks')
    requires 0 < |chunks| <= OUTPUT_POLLS && 0 < |chunks'| <= OUTPUT_POLLS && Join(chunks) == Join(chunks')
    requires var r := Fed(p, st, Join(chunks)).0; r.Ok? && Collect(x, NOTHING, r.value).done
    ensures AwaitEnd(p, x, polls, i, OUTPUT_POLLS, st, NOTHING) == AwaitEnd(p, x, polls', i', OUTPUT_POLLS, st, NOTHING)
  {
    hide Fed, Collect, AwaitEnd, Brings;
    ResultIgnoresCuts(p, x, polls, i, st, chunks);
    ResultIgnoresCuts(p, x, polls', i', st, chunks');
  }

  /** A successful run saw the runspace open, within 64 polls, before it created the pipeline. */
  lemma RunOpened(p: Primitives, x: Extractors, polls: nat -> Poll, started: bool)
    requires Run(p, x, polls, started).Ok?
    ensures started && exists chunks: seq<Bytes>, st: State ::
              |chunks| <= 64 && Brings(polls, 0, chunks) && OpenedBy(p, x, State([], map[]), st, chunks)
  {
    hide AwaitOpen, AwaitEnd, OpenedBy, OpensLast, Brings;
    var chunks := OpenedByMessage(p, x, polls, 0, OPEN_POLLS, State([], map[]));
  }

  /** Polls whose bytes open the runspace in the last of them make the first phase succeed there. */
  lemma {:induction false} OpensAfter(p: Primitives, x: Extractors, polls: nat -> Poll, i: nat, left: nat, st: State,
                                      chunks: seq<Bytes>)
    requires Brings(polls, i, chunks) && |chunks| <= left && OpensLast(p, x, st, chunks)
    ensures FedAll(p, st, chunks).0.Ok?
    ensures AwaitOpen(p, x, polls, i, left, st) == Ok((i + |chunks|, FedAll(p, st, chunks).1))
    decreases |chunks|
  {
    hide Fed, AnyOpen;
    AwaitOpenRound(p, x, polls, i, left, st);
    BringsTail(polls, i, chunks);
    OpenMeans(x, Fed(p, st, chunks[0]).0.value);
    hide Brings, AwaitOpen, ReportsOpen;
    var st' := Fed(p, st, chunks[0]).1;
    if |chunks| > 1 {
      OpensAfter(p, x, polls, i + 1, left - 1, st', chunks[1..]);
    } else {
      assert chunks[1..] == [];
      assert FedAll(p, st', []) == (Ok([]), st');
    }
  }

  /** When the second phase succeeds, its polls all brought bytes, and its result is the fold over their messages. */
  lemma {:induction false} EndedByStream(p: Primitives, x: Extractors, polls: nat -> Poll, i: nat, left: nat, st: State,
                                         o: Output)
      returns (chunks: seq<Bytes>)
    requires AwaitEnd(p, x, polls, i, left, st, o).Ok?
    ensures |chunks| <= left && Brings(polls, i, chunks) && FedAll(p, st, chunks).0.Ok?
    ensures var r := AwaitEnd(p, x, polls, i, left, st, o).value;
            r.done && r == Collect(x, o, FedAll(p, st, chunks).0.value)
    decreases left
  {
    hide Fed, Collect;
    if o.done {
      chunks := [];
      BringsNothing(polls, i);
      CollectDone(x, o, []);
    } else {
      var bytes := polls(i).bytes;
      var (r, st') := Fed(p, st, bytes);
      var rest := EndedByStream(p, x, polls, i + 1, left - 1, st', Collect(x, o, r.value));
      chunks := [bytes] + rest;
      assert chunks[1..] == rest;
      BringsMore(polls, i, bytes, rest);
      CollectSum(x, o, r.value, FedAll(p, st', rest).0.value);
    }
  }

  /**
   The polls of a successful run: `opening` ends with the runspace opening, within 64 polls; `chunks`, within
   256 more, hold messages of which number `k` is the first to report a terminal state.
   */
  ghost predicate Served(p: Primitives, x: Extractors, polls: nat -> Poll, opening: seq<Bytes>, chunks: seq<Bytes>,
                         k: nat) {
    && |opening| <= 64 && Brings(polls, 0, opening) && OpensLast(p, x, State([], map[]), opening)
    && |chunks| <= 256 && Brings(polls, |opening|, chunks)
    && var fed := FedAll(p, FedAll(p, State([], map[]), opening).1, chunks).0;
    && fed.Ok? && FirstEnd(x, fed.value, k)
  }

  /** The messages of the second phase. */
  function Collected(p: Primitives, opening: seq<Bytes>, chunks: seq<Bytes>): seq<Message> {
    var fed := FedAll(p, FedAll(p, State([], map[]), opening).1, chunks).0;
    if fed.Ok? then fed.value else []
  }

  /** Polls that serve a run make it return the lines before the first terminal state and that state's exit code. */
  lemma ServedRunReturns(p: Primitives, x: Extractors, polls: nat -> Poll, opening: seq<Bytes>, chunks: seq<Bytes>,
                         k: nat)
    requires Served(p, x, polls, opening, chunks, k)
    ensures k < |Collected(p, opening, chunks)|
    ensures Run(p, x, polls, true) == Ok(Result(x, Collected(p, opening, chunks), k))
  {
    hide AwaitOpen, AwaitEnd, FedAll, Brings, OpensLast, Collect, Lines, Texts;
    OpensAfter(p, x, polls, 0, OPEN_POLLS, State([], map[]), opening);
    CollectMeaning(x, Collected(p, opening, chunks), k);
    CollectChunks(p, x, polls, |opening|, OUTPUT_POLLS, FedAll(p, State([], map[]), opening).1, NOTHING, chunks);
  }

  /** Every successful run was served, and returned nothing else. */
  lemma RunWasServed(p: Primitives, x: Extractors, polls: nat -> Poll, started: bool)
      returns (opening: seq<Bytes>, chunks: seq<Bytes>, k: nat)
    requires Run(p, x, polls, started).Ok?
    ensures started && Served(p, x, polls, opening, chunks, k)
    ensures k < |Collected(p, opening, chunks)|
    ensures Run(p, x, polls, started) == Ok(Result(x, Collected(p, opening, chunks), k))
  {
    hide AwaitOpen, AwaitEnd, FedAll, Brings, OpensLast, Collect, Lines, Texts, FirstEnd;
    opening := OpenedByMessage(p, x, polls, 0, OPEN_POLLS, State([], map[]));
    OpensAfter(p, x, polls, 0, OPEN_POLLS, State([], map[]), opening);
    chunks := EndedByStream(p, x, polls, |opening|, OUTPUT_POLLS, FedAll(p, State([], map[]), opening).1, NOTHING);
    var ms := Collected(p, opening, chunks);
    DoneMeansEnd(x, ms);
    k :| FirstEnd(x, ms, k);
    ServedRunReturns(p, x, polls, opening, chunks, k);
  }

  /**
   The driver's result: a run succeeds exactly when its pipeline could be created and its polls served it.
   Then stdout and stderr are the lines of the messages before the first terminal state, and the exit
   code is 1 exactly when that state is 5.
   */
  lemma RunMeaning(p: Primitives, x: Extractors, polls: nat -> Poll, started: bool, out: Output)
    ensures Run(p, x, polls, started) == Ok(out)
       <==> started && exists opening: seq<Bytes>, chunks: seq<Bytes>, k: nat ::
              Served(p, x, polls, opening, chunks, k) && k < |Collected(p, opening, chunks)|
              && out == Result(x, Collected(p, opening, chunks), k)
  {
    hide Run, Served, Collected, Result;
    if Run(p, x, polls, started) == Ok(out) {
      var opening, chunks, k := RunWasServed(p, x, polls, started);
    }
    if started {
      forall opening: seq<Bytes>, chunks: seq<Bytes>, k: nat | Served(p, x, polls, opening, chunks, k)
        ensures k < |Collected(p, opening, chunks)|
                && Run(p, x, polls, true) == Ok(Result(x, Collected(p, opening, chunks), k))
      {
        ServedRunReturns(p, x, polls, opening, chunks, k);
      }
    }
  }
}
