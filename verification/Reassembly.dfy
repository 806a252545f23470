/**
 The PSRP reassembler: a byte buffer and a table of objects in flight, fed in chunks. It does not
 matter where the chunks are cut, nor how the objects are interleaved.
 */
module Reassembly {
  import opened Bytes
  import opened Primitives
  import opened Fragments

  /** An object in flight: payload so far, next fragment id, and whether its start was seen. */
  datatype Entry = Entry(payload: Bytes, next: nat, started: bool)

  type Table = map<nat, Entry>

  datatype State = State(buffer: Bytes, inFlight: Table)

  /** What one fragment does: the table afterwards, and a finished payload or a failure. */
  datatype Effect = Effect(inFlight: Table, finished: Option<Bytes>, failure: Option<PsrpError>)

  function Absorb(m: Table, f: Fragment): Effect {
    if f.start && f.end then Effect(m, Some(f.blob), None) else
      var known := if f.objectId in m then m[f.objectId] else Entry([], 0, false);
      var entry := if f.start then Entry([], 0, true) else known;
      if !entry.started then Effect(m[f.objectId := entry], None, None)
      else if f.fragmentId != entry.next then
        Effect(m[f.objectId := entry], None, Some(IdMismatch(f.fragmentId, entry.next)))
      else if f.end then Effect(m - {f.objectId}, Some(entry.payload + f.blob), None)
      else Effect(m[f.objectId := Entry(entry.payload + f.blob, (entry.next + 1) % U64, true)], None, None)
  }

  /** What a buffer holds: the payloads it finishes, the state it leaves, and the failure that stopped it. */
  datatype Outcome = Outcome(finished: seq<Bytes>, state: State, failure: Option<PsrpError>)

  function Finished(payload: Option<Bytes>): seq<Bytes> {
    if payload.Some? then [payload.value] else []
  }

  /** Takes whole fragments off the buffer until none is left or one fails. */
  function Drain(st: State): Outcome
    decreases |st.buffer|
  {
    match Read(st.buffer)
    case None => Outcome([], st, None)
    case Some((f, rest)) =>
      var e := Absorb(st.inFlight, f);
      if e.failure.Some? then Outcome(Finished(e.finished), State(rest, e.inFlight), e.failure) else
        var o := Drain(State(rest, e.inFlight));
        o.(finished := Finished(e.finished) + o.finished)
  }

  /** An outcome after other payloads. */
  function After(finished: seq<Bytes>, o: Outcome): Outcome {
    o.(finished := finished + o.finished)
  }

  /** One round of the loop. */
  lemma DrainRound(completed: seq<Bytes>, st: State)
    ensures After(completed, Drain(st))
         == match Read(st.buffer)
            case None => Outcome(completed, st, None)
            case Some((f, rest)) =>
              var e := Absorb(st.inFlight, f);
              if e.failure.Some? then Outcome(completed + Finished(e.finished), State(rest, e.inFlight), e.failure)
              else After(completed + Finished(e.finished), Drain(State(rest, e.inFlight)))
  {
    hide Absorb, Read;
    assert completed + [] == completed;
    if Read(st.buffer).Some? {
      var (f, rest) := Read(st.buffer).value;
      var e := Absorb(st.inFlight, f);
      var o := Drain(State(rest, e.inFlight));
      assert completed + (Finished(e.finished) + o.finished) == completed + Finished(e.finished) + o.finished;
    }
  }

  function DecodeAll(p: Primitives, payloads: seq<Bytes>): Result<seq<Message>, PsrpError> {
    if payloads == [] then Ok([]) else
      match (DecodeMessage(p, payloads[0]), DecodeAll(p, payloads[1..]))
      case (Ok(m), Ok(ms)) => Ok([m] + ms)
      case (Err(e), _) => Err(e)
      case (_, Err(e)) => Err(e)
  }

  function Fed(p: Primitives, st: State, chunk: Bytes): (Result<seq<Message>, PsrpError>, State) {
    var o := Drain(State(st.buffer + chunk, st.inFlight));
    (if o.failure.Some? then Err(o.failure.value) else DecodeAll(p, o.finished), o.state)
  }

  /** Feeding chunks one after the other until one fails. */
  function FedAll(p: Primitives, st: State, chunks: seq<Bytes>): (Result<seq<Message>, PsrpError>, State)
    decreases chunks
  {
    if chunks == [] then (Ok([]), st) else
      var (r, st') := Fed(p, st, chunks[0]);
      if r.Err? then (r, st') else
        var (rs, st'') := FedAll(p, st', chunks[1..]);
        (if rs.Ok? then Ok(r.value + rs.value) else rs, st'')
  }

  class Reassembler {
    var buffer: Bytes
    var inFlight: Table

    ghost function View(): State
      reads this
    {
      State(buffer, inFlight)
    }

    constructor ()
      ensures View() == State([], map[])
    {
      buffer, inFlight := [], map[];
    }

    /** One round of the loop, once the fragment is off the buffer. */
    method Take(f: Fragment) returns (finished: Option<Bytes>, failure: Option<PsrpError>)
      modifies this`inFlight
      ensures Effect(inFlight, finished, failure) == Absorb(old(inFlight), f)
    {
      finished, failure := None, None;
      if f.start && f.end {
        return Some(f.blob), None;
      }
      if f.objectId !in inFlight {
        inFlight := inFlight[f.objectId := Entry([], 0, false)];
      }
      var entry := inFlight[f.objectId];
      if f.start {
        entry := Entry([], 0, true);
        inFlight := inFlight[f.objectId := entry];
      }
      assert inFlight == old(inFlight)[f.objectId := entry];
      if !entry.started && !f.start {
        return;
      }
      if f.fragmentId != entry.next {
        return None, Some(IdMismatch(f.fragmentId, entry.next));
      }
      entry := Entry(entry.payload + f.blob, (entry.next + 1) % U64, entry.started);
      inFlight := inFlight[f.objectId := entry];
      if f.end {
        inFlight := inFlight - {f.objectId};
        assert inFlight == old(inFlight) - {f.objectId};
        finished := Some(entry.payload);
      }
    }

    /** The loop that takes fragments off the buffer. */
    method TakeFragments() returns (completed: seq<Bytes>, failure: Option<PsrpError>)
      modifies this
      ensures Outcome(completed, View(), failure) == Drain(old(View()))
    {
      hide Absorb, Read, Drain;
      completed, failure := [], None;
      while true
        invariant After(completed, Drain(View())) == Drain(old(View()))
        decreases |buffer|
      {
        DrainRound(completed, View());
        var next := Read(buffer);
        if next.None? {
          return;
        }
        var (f, rest) := next.value;
        buffer := rest;
        var finished, error := Take(f);
        completed := completed + Finished(finished);
        if error.Some? {
          return completed, error;
        }
      }
    }

    /** `feed`. */
    method Feed(p: Primitives, chunk: Bytes) returns (r: Result<seq<Message>, PsrpError>)
      modifies this
      ensures (r, View()) == Fed(p, old(View()), chunk)
    {
      buffer := buffer + chunk;
      var completed, failure := TakeFragments();
      if failure.Some? {
        return Err(failure.value);
      }
      r := DecodeCompleted(p, completed);
    }
  }

  function Prepend(ms: seq<Message>, r: Result<seq<Message>, PsrpError>): Result<seq<Message>, PsrpError> {
    if r.Ok? then Ok(ms + r.value) else r
  }

  lemma DecodeNext(p: Primitives, payloads: seq<Bytes>, i: nat)
    requires i < |payloads|
    ensures var m, rest := DecodeMessage(p, payloads[i]), DecodeAll(p, payloads[i + 1..]);
            DecodeAll(p, payloads[i..]) == if m.Err? then Err(m.error) else Prepend([m.value], rest)
  {
    assert payloads[i..][1..] == payloads[i + 1..];
  }

  lemma PrependTwice(a: seq<Message>, m: Message, r: Result<seq<Message>, PsrpError>)
    ensures Prepend(a, Prepend([m], r)) == Prepend(a + [m], r)
  {
    if r.Ok? {
      assert a + ([m] + r.value) == a + [m] + r.value;
    }
  }

  /** The loop that decodes what a call has completed. */
  method DecodeCompleted(p: Primitives, completed: seq<Bytes>) returns (r: Result<seq<Message>, PsrpError>)
    ensures r == DecodeAll(p, completed)
  {
    var msgs: seq<Message> := [];
    var all := DecodeAll(p, completed);
    assert completed[0..] == completed && (all.Ok? ==> msgs + all.value == all.value);
    for i := 0 to |completed|
      invariant DecodeAll(p, completed) == Prepend(msgs, DecodeAll(p, completed[i..]))
    {
      hide DecodeAll, DecodeMessage;
      DecodeNext(p, completed, i);
      var m := DecodeMessage(p, completed[i]);
      if m.Err? {
        return Err(m.error);
      }
      PrependTwice(msgs, m.value, DecodeAll(p, completed[i + 1..]));
      msgs := msgs + [m.value];
    }
    assert msgs + [] == msgs;
    return Ok(msgs);
  }

  // Where the bytes are cut.

  /** Draining what arrived, then the rest, is draining everything, up to the first failure. */
  lemma {:induction false} DrainSplit(st: State, more: Bytes)
    ensures var o := Drain(st);
            var all := Drain(st.(buffer := st.buffer + more));
            if o.failure.Some?
            then all == o.(state := o.state.(buffer := o.state.buffer + more))
            else var o' := Drain(o.state.(buffer := o.state.buffer + more));
                 all == o'.(finished := o.finished + o'.finished)
    decreases |st.buffer|
  {
    hide Read, Absorb;
    var st' := st.(buffer := st.buffer + more);
    if Read(st.buffer).Some? {
      var (f, rest) := Read(st.buffer).value;
      ReadStable(st.buffer, more);
      var e := Absorb(st.inFlight, f);
      if e.failure.None? {
        var next := State(rest, e.inFlight);
        DrainSplit(next, more);
        var o := Drain(next);
        if o.failure.None? {
          var o' := Drain(o.state.(buffer := o.state.buffer + more));
          assert Finished(e.finished) + (o.finished + o'.finished) == Finished(e.finished) + o.finished + o'.finished;
        }
      }
    } else {
      assert Drain(st) == Outcome([], st, None);
      var o' := Drain(st');
      assert [] + o'.finished == o'.finished;
    }
  }

  lemma {:induction false} DecodeAllSum(p: Primitives, a: seq<Bytes>, b: seq<Bytes>)
    ensures DecodeAll(p, a + b).Ok? <==> DecodeAll(p, a).Ok? && DecodeAll(p, b).Ok?
    ensures DecodeAll(p, a + b).Ok? ==> DecodeAll(p, a + b).value == DecodeAll(p, a).value + DecodeAll(p, b).value
  {
    if a == [] {
      assert a + b == b;
    } else {
      hide DecodeMessage;
      assert (a + b)[1..] == a[1..] + b;
      DecodeAllSum(p, a[1..], b);
    }
  }

  /**
   Chunk independence: from any state, feeding `a + b` succeeds exactly when feeding `a` and then `b`
   does, and then the messages and the final state are the same.
   */
  lemma FeedSplit(p: Primitives, st: State, a: Bytes, b: Bytes)
    ensures var (whole, end) := Fed(p, st, a + b);
            var (first, mid) := Fed(p, st, a);
            var (second, end') := Fed(p, mid, b);
            && (whole.Ok? <==> first.Ok? && second.Ok?)
            && (whole.Ok? ==> whole.value == first.value + second.value && end == end')
  {
    hide Drain, DecodeAll;
    assert st.buffer + (a + b) == st.buffer + a + b;
    DrainSplit(State(st.buffer + a, st.inFlight), b);
    var o := Drain(State(st.buffer + a, st.inFlight));
    if o.failure.None? {
      DecodeAllSum(p, o.finished, Drain(o.state.(buffer := o.state.buffer + b)).finished);
    }
  }

  /** Any cut of a byte stream into chunks gives what the whole stream gives in one call. */
  lemma {:induction false} AnyChunks(p: Primitives, st: State, chunks: seq<Bytes>)
    requires chunks != []
    ensures var (whole, end) := Fed(p, st, Join(chunks));
            var (parts, end') := FedAll(p, st, chunks);
            && (whole.Ok? <==> parts.Ok?)
            && (whole.Ok? ==> whole == parts && end == end')
    decreases |chunks|
  {
    hide Fed;
    var first, rest := chunks[0], chunks[1..];
    FeedSplit(p, st, first, Join(rest));
    if rest == [] {
      assert Join(chunks) == first + [] == first;
      var (r, st') := Fed(p, st, first);
      if r.Ok? {
        assert r.value + [] == r.value;
      }
    } else {
      AnyChunks(p, Fed(p, st, first).1, rest);
    }
  }
}
