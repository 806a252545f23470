/**
 Interleaved objects: any merge of the fragments of several objects, with stray fragments of other
 objects in between, gives every payload back exactly once, in the order of their last fragments.
 */
module Interleaving {
  import opened Bytes
  import opened Primitives
  import opened Fragments
  import opened Reassembly

  /** The payloads sent, by object id. */
  type Objects = map<nat, Payload>

  function Of(fs: seq<Fragment>, objectId: nat): seq<Fragment> {
    if fs == [] then [] else
      var last := fs[|fs| - 1];
      Of(fs[..|fs| - 1], objectId) + if last.objectId == objectId then [last] else []
  }

  /** Each object's fragments stand in their own order; every other fragment is not the start of anything. */
  ghost predicate Merge(objects: Objects, fs: seq<Fragment>) {
    && (forall o | o in objects :: Of(fs, o) == Split(o, objects[o]))
    && (forall f | f in fs && f.objectId !in objects :: !f.start)
  }

  /** The start of a merge: each object's fragments so far begin its whole list. */
  ghost predicate PartOfMerge(objects: Objects, fs: seq<Fragment>) {
    && (forall o | o in objects :: Of(fs, o) <= Split(o, objects[o]))
    && (forall f | f in fs && f.objectId !in objects :: !f.start)
  }

  /** The payloads whose last fragment has come, in the order it came. */
  function Completed(objects: Objects, fs: seq<Fragment>): seq<Bytes> {
    if fs == [] then [] else
      var last := fs[|fs| - 1];
      Completed(objects, fs[..|fs| - 1]) + if last.end && last.objectId in objects then [objects[last.objectId]] else []
  }

  /** Fragments absorbed one by one. */
  function AbsorbAll(m: Table, fs: seq<Fragment>): Effects {
    if fs == [] then Effects(m, [], None) else
      var before := AbsorbAll(m, fs[..|fs| - 1]);
      if before.failure.Some? then before else
        var e := Absorb(before.inFlight, fs[|fs| - 1]);
        Effects(e.inFlight, before.finished + Finished(e.finished), e.failure)
  }

  datatype Effects = Effects(inFlight: Table, finished: seq<Bytes>, failure: Option<PsrpError>)

  /** No object is in flight. */
  ghost predicate Idle(m: Table) {
    forall o | o in m :: !m[o].started
  }

  /** What the table says of an object of which `n` fragments have come. */
  ghost predicate Tracks(m: Table, o: nat, payload: Bytes, n: nat) {
    if 0 < n < Count(payload) then o in m && m[o] == Entry(Taken(payload, n), n, true)
    else o in m ==> !m[o].started
  }

  ghost predicate TracksAll(objects: Objects, fs: seq<Fragment>, m: Table) {
    && (forall o | o in objects :: Tracks(m, o, objects[o], |Of(fs, o)|))
    && (forall o | o in m && o !in objects :: !m[o].started)
  }

  /** The fragment an object is waiting for moves it on by one piece, and finishes it if it is the last. */
  lemma AbsorbNext(m: Table, o: nat, payload: Payload, n: nat)
    requires n < Count(payload) && Tracks(m, o, payload, n)
    ensures var e := Absorb(m, FragmentAt(o, payload, n));
            && e.failure.None?
            && e.finished == (if n + 1 == Count(payload) then Some(payload) else None)
            && Tracks(e.inFlight, o, payload, n + 1)
            && (forall q | q != o :: (q in e.inFlight <==> q in m) && (q in m ==> e.inFlight[q] == m[q]))
  {
    hide Piece, Taken;
    TakenEnds(payload);
    var f := FragmentAt(o, payload, n);
    assert Taken(payload, n + 1) == Taken(payload, n) + Piece(payload, n);
    if n == 0 {
      assert [] + f.blob == f.blob;
    }
  }

  lemma TakenEnds(payload: Bytes)
    ensures Taken(payload, 0) == [] && Taken(payload, Count(payload)) == payload
  {
  }

  /** A stray fragment leaves every started object alone and finishes nothing. */
  lemma AbsorbStray(m: Table, f: Fragment)
    requires !f.start && (f.objectId in m ==> !m[f.objectId].started)
    ensures var e := Absorb(m, f);
            && e.failure.None? && e.finished.None?
            && f.objectId in e.inFlight && !e.inFlight[f.objectId].started
            && (forall q | q != f.objectId :: (q in e.inFlight <==> q in m) && (q in m ==> e.inFlight[q] == m[q]))
  {
  }

  lemma OfSnoc(fs: seq<Fragment>, f: Fragment, o: nat)
    ensures Of(fs + [f], o) == Of(fs, o) + if f.objectId == o then [f] else []
  {
    assert (fs + [f])[..|fs + [f]| - 1] == fs;
  }

  lemma CompletedSnoc(objects: Objects, fs: seq<Fragment>, f: Fragment)
    ensures Completed(objects, fs + [f])
         == Completed(objects, fs) + if f.end && f.objectId in objects then [objects[f.objectId]] else []
  {
    assert (fs + [f])[..|fs + [f]| - 1] == fs;
  }

  /** One fragment of a merge keeps the table in line with what has come. */
  lemma MergeStep(objects: Objects, fs: seq<Fragment>, f: Fragment, m: Table)
    requires PartOfMerge(objects, fs + [f]) && TracksAll(objects, fs, m)
    ensures var e := Absorb(m, f);
            && e.failure.None?
            && TracksAll(objects, fs + [f], e.inFlight)
            && Completed(objects, fs) + Finished(e.finished) == Completed(objects, fs + [f])
  {
    hide Absorb, FragmentAt, Of, Completed;
    CompletedSnoc(objects, fs, f);
    var o := f.objectId;
    forall q
      ensures Of(fs + [f], q) == Of(fs, q) + if o == q then [f] else []
    {
      OfSnoc(fs, f, q);
    }
    if o in objects {
      var n := |Of(fs, o)|;
      assert Of(fs + [f], o)[n] == f == Split(o, objects[o])[n];
      assert f == FragmentAt(o, objects[o], n);
      EndOfFragment(o, objects[o], n);
      AbsorbNext(m, o, objects[o], n);
    } else {
      assert f in fs + [f];
      AbsorbStray(m, f);
    }
  }

  lemma EndOfFragment(o: nat, payload: Payload, n: nat)
    requires n < Count(payload)
    ensures FragmentAt(o, payload, n).end <==> n + 1 == Count(payload)
  {
  }

  lemma {:induction false} MergePrefix(objects: Objects, fs: seq<Fragment>, f: Fragment)
    requires PartOfMerge(objects, fs + [f])
    ensures PartOfMerge(objects, fs)
  {
    forall o | o in objects
      ensures Of(fs, o) <= Split(o, objects[o])
    {
      OfSnoc(fs, f, o);
    }
    assert forall g | g in fs :: g in fs + [f];
  }

  /** From an idle table no part of a merge fails, and it finishes exactly the completed payloads. */
  lemma {:induction false} AbsorbMerge(objects: Objects, fs: seq<Fragment>, m: Table)
    requires PartOfMerge(objects, fs) && Idle(m)
    ensures var e := AbsorbAll(m, fs);
            e.failure.None? && e.finished == Completed(objects, fs) && TracksAll(objects, fs, e.inFlight)
  {
    if fs != [] {
      hide Absorb, PartOfMerge, TracksAll, Completed;
      var init, last := fs[..|fs| - 1], fs[|fs| - 1];
      assert init + [last] == fs;
      MergePrefix(objects, init, last);
      AbsorbMerge(objects, init, m);
      MergeStep(objects, init, last, AbsorbAll(m, init).inFlight);
    }
  }

  ghost predicate AllEncodable(fs: seq<Fragment>) {
    forall f | f in fs :: Encodable(f)
  }

  lemma AbsorbLast(m: Table, fs: seq<Fragment>)
    requires fs != [] && AbsorbAll(m, fs).failure.None?
    ensures var before := AbsorbAll(m, fs[..|fs| - 1]);
            var e := Absorb(before.inFlight, fs[|fs| - 1]);
            && before.failure.None? && e.failure.None?
            && AbsorbAll(m, fs) == Effects(e.inFlight, before.finished + Finished(e.finished), None)
  {
  }

  /** Draining encoded fragments absorbs them one by one, as long as none fails. */
  lemma {:induction false} DrainEncoded(m: Table, fs: seq<Fragment>)
    requires AllEncodable(fs) && AbsorbAll(m, fs).failure.None?
    ensures Drain(State(EncodeAll(fs), m))
            == Outcome(AbsorbAll(m, fs).finished, State([], AbsorbAll(m, fs).inFlight), None)
  {
    if fs == [] {
      NothingToDrain(m);
    } else {
      var init, last := fs[..|fs| - 1], fs[|fs| - 1];
      hide Absorb, Encode, Drain;
      assert init + [last] == fs && last in fs && forall f | f in init :: f in fs;
      AbsorbLast(m, fs);
      DrainEncoded(m, init);
      EncodeLast(init, last);
      var before := AbsorbAll(m, init);
      hide AbsorbAll, EncodeAll;
      DrainAppend(m, EncodeAll(init), last, before);
    }
  }

  lemma EncodeLast(init: seq<Fragment>, last: Fragment)
    ensures EncodeAll(init + [last]) == EncodeAll(init) + Encode(last)
  {
    hide Encode;
    EncodeAllSum(init, [last]);
  }

  lemma DrainAppend(m: Table, bytes: Bytes, f: Fragment, before: Effects)
    requires Drain(State(bytes, m)) == Outcome(before.finished, State([], before.inFlight), None)
    requires Encodable(f) && Absorb(before.inFlight, f).failure.None?
    ensures var e := Absorb(before.inFlight, f);
            Drain(State(bytes + Encode(f), m))
              == Outcome(before.finished + Finished(e.finished), State([], e.inFlight), None)
  {
    hide Absorb, Encode, Drain;
    DrainSplit(State(bytes, m), Encode(f));
    assert [] + Encode(f) == Encode(f);
    DrainOne(before.inFlight, f);
  }

  lemma DrainOne(m: Table, f: Fragment)
    requires Encodable(f) && Absorb(m, f).failure.None?
    ensures Drain(State(Encode(f), m))
            == Outcome(Finished(Absorb(m, f).finished), State([], Absorb(m, f).inFlight), None)
  {
    hide Absorb, Encode, Read;
    ReadEncoded(f, []);
    assert Encode(f) + [] == Encode(f);
    var e := Absorb(m, f);
    NothingToDrain(e.inFlight);
    assert Finished(e.finished) + [] == Finished(e.finished);
  }

  lemma NothingToDrain(m: Table)
    ensures Drain(State([], m)) == Outcome([], State([], m), None)
  {
  }

  lemma MergeIsPart(objects: Objects, fs: seq<Fragment>)
    requires Merge(objects, fs)
    ensures PartOfMerge(objects, fs)
  {
  }

  /**
   Interleaved reassembly: a merge, written out and cut into any chunks, yields the messages of the
   payloads in the order of their last fragments, and leaves nothing buffered and nothing in flight.
   */
  lemma ReassembleMerge(p: Primitives, objects: Objects, fs: seq<Fragment>, m: Table, chunks: seq<Bytes>)
    requires Merge(objects, fs) && AllEncodable(fs) && Idle(m)
    requires chunks != [] && Join(chunks) == EncodeAll(fs)
    ensures var (r, st) := FedAll(p, State([], m), chunks);
            var messages := DecodeAll(p, Completed(objects, fs));
            && (r.Ok? <==> messages.Ok?)
            && (r.Ok? ==> r == messages && st.buffer == [] && Idle(st.inFlight))
  {
    AnyChunks(p, State([], m), chunks);
    MergeIsPart(objects, fs);
    AbsorbMerge(objects, fs, m);
    DrainEncoded(m, fs);
    FinallyIdle(objects, fs, AbsorbAll(m, fs).inFlight);
    hide FedAll, DecodeAll, Completed, AbsorbAll, Drain, Merge, PartOfMerge, TracksAll, Idle;
    assert [] + EncodeAll(fs) == EncodeAll(fs);
  }

  lemma FinallyIdle(objects: Objects, fs: seq<Fragment>, m: Table)
    requires Merge(objects, fs) && TracksAll(objects, fs, m)
    ensures Idle(m)
  {
  }

  /** The ids of the objects in the order of their last fragments. */
  function EndOrder(objects: Objects, fs: seq<Fragment>): seq<nat> {
    if fs == [] then [] else
      var last := fs[|fs| - 1];
      EndOrder(objects, fs[..|fs| - 1]) + if last.end && last.objectId in objects then [last.objectId] else []
  }

  lemma {:induction false} CompletedByEndOrder(objects: Objects, fs: seq<Fragment>)
    ensures |Completed(objects, fs)| == |EndOrder(objects, fs)|
    ensures forall k | 0 <= k < |EndOrder(objects, fs)| ::
              EndOrder(objects, fs)[k] in objects && Completed(objects, fs)[k] == objects[EndOrder(objects, fs)[k]]
  {
    if fs != [] {
      CompletedByEndOrder(objects, fs[..|fs| - 1]);
    }
  }

  /** The fragments of the objects that are sent, without the strays. */
  function Known(objects: Objects, fs: seq<Fragment>): seq<Fragment> {
    if fs == [] then [] else
      var last := fs[|fs| - 1];
      Known(objects, fs[..|fs| - 1]) + if last.objectId in objects then [last] else []
  }

  lemma {:induction false} KnownOf(objects: Objects, fs: seq<Fragment>, o: nat)
    requires o in objects
    ensures Of(Known(objects, fs), o) == Of(fs, o)
  {
    if fs != [] {
      var init, last := fs[..|fs| - 1], fs[|fs| - 1];
      KnownOf(objects, init, o);
      OfSnoc(Known(objects, init), last, o);
      assert Known(objects, fs)
          == if last.objectId in objects then Known(objects, init) + [last] else Known(objects, init);
      assert Of(init, o) + [] == Of(init, o);
    }
  }

  lemma {:induction false} KnownCompleted(objects: Objects, fs: seq<Fragment>)
    ensures Completed(objects, Known(objects, fs)) == Completed(objects, fs)
  {
    if fs != [] {
      var init, last := fs[..|fs| - 1], fs[|fs| - 1];
      KnownCompleted(objects, init);
      CompletedSnoc(objects, Known(objects, init), last);
      assert Known(objects, fs)
          == if last.objectId in objects then Known(objects, init) + [last] else Known(objects, init);
      assert Completed(objects, init) + [] == Completed(objects, init);
    }
  }

  /** Stray fragments change nothing: without them it is still a merge, and the same payloads come out. */
  lemma StraysChangeNothing(objects: Objects, fs: seq<Fragment>)
    requires Merge(objects, fs)
    ensures Merge(objects, Known(objects, fs)) && Completed(objects, Known(objects, fs)) == Completed(objects, fs)
  {
    hide Of, Known, Completed, Split;
    KnownIds(objects, fs);
    KnownCompleted(objects, fs);
    forall o | o in objects
      ensures Of(Known(objects, fs), o) == Of(fs, o)
    {
      KnownOf(objects, fs, o);
    }
  }

  lemma {:induction false} KnownIds(objects: Objects, fs: seq<Fragment>)
    ensures forall f | f in Known(objects, fs) :: f.objectId in objects
  {
    if fs != [] {
      KnownIds(objects, fs[..|fs| - 1]);
    }
  }

  function Ends(fs: seq<Fragment>): nat {
    if fs == [] then 0 else Ends(fs[..|fs| - 1]) + if fs[|fs| - 1].end then 1 else 0
  }

  lemma EndsSnoc(fs: seq<Fragment>, f: Fragment)
    ensures Ends(fs + [f]) == Ends(fs) + if f.end then 1 else 0
  {
    assert (fs + [f])[..|fs|] == fs;
  }

  lemma {:induction false} EndOrderCounts(objects: Objects, fs: seq<Fragment>, o: nat)
    requires o in objects
    ensures multiset(EndOrder(objects, fs))[o] == Ends(Of(fs, o))
  {
    if fs != [] {
      var init, last := fs[..|fs| - 1], fs[|fs| - 1];
      EndOrderCounts(objects, init, o);
      EndsSnoc(Of(init, o), last);
      hide Ends;
      var ids := EndOrder(objects, init);
      var added := if last.end && last.objectId in objects then [last.objectId] else [];
      assert EndOrder(objects, fs) == ids + added;
      assert multiset(ids + added) == multiset(ids) + multiset(added);
      assert multiset(added)[o] == if last.end && last.objectId == o then 1 else 0;
      assert Of(fs, o) == if last.objectId == o then Of(init, o) + [last] else Of(init, o);
    }
  }

  lemma {:induction false} SplitEnds(o: nat, payload: Payload, k: nat)
    requires k <= Count(payload)
    ensures Ends(Split(o, payload)[..k]) == if k == Count(payload) then 1 else 0
  {
    if k > 0 {
      var fs := Split(o, payload);
      assert fs[..k][..k - 1] == fs[..k - 1];
      SplitEnds(o, payload, k - 1);
      EndOfFragment(o, payload, k - 1);
    }
  }

  /** In a merge every object is completed exactly once, with its own payload. */
  lemma CompletedOnce(objects: Objects, fs: seq<Fragment>)
    requires Merge(objects, fs)
    ensures forall o | o in objects :: multiset(EndOrder(objects, fs))[o] == 1
  {
    forall o | o in objects
      ensures multiset(EndOrder(objects, fs))[o] == 1
    {
      EndOrderCounts(objects, fs, o);
      SplitEnds(o, objects[o], Count(objects[o]));
      assert Split(o, objects[o])[..Count(objects[o])] == Split(o, objects[o]);
    }
  }

  lemma {:induction false} OfOneObject(o: nat, payload: Payload, k: nat)
    requires k <= Count(payload)
    ensures Of(Split(o, payload)[..k], o) == Split(o, payload)[..k]
  {
    if k > 0 {
      var fs := Split(o, payload);
      assert fs[..k][..k - 1] == fs[..k - 1];
      OfOneObject(o, payload, k - 1);
      assert fs[k - 1].objectId == o;
      hide Split;
      assert fs[..k] == fs[..k - 1] + [fs[k - 1]];
    }
  }

  lemma SplitEncodable(o: nat, payload: Payload)
    requires o < U64
    ensures AllEncodable(Split(o, payload))
  {
    forall f | f in Split(o, payload)
      ensures Encodable(f)
    {
      var k :| 0 <= k < Count(payload) && f == FragmentAt(o, payload, k);
    }
  }

  lemma {:induction false} CompletedOne(o: nat, payload: Payload, k: nat)
    requires k <= Count(payload)
    ensures Completed(map[o := payload], Split(o, payload)[..k]) == if k == Count(payload) then [payload] else []
  {
    if k > 0 {
      var fs := Split(o, payload);
      assert fs[..k][..k - 1] == fs[..k - 1];
      CompletedOne(o, payload, k - 1);
      EndOfFragment(o, payload, k - 1);
    }
  }

  lemma MergeOfOne(o: nat, payload: Payload)
    ensures Merge(map[o := payload], Split(o, payload))
    ensures Completed(map[o := payload], Split(o, payload)) == [payload]
  {
    var fs := Split(o, payload);
    assert fs[..Count(payload)] == fs;
    OfOneObject(o, payload, Count(payload));
    CompletedOne(o, payload, Count(payload));
  }

  /** The reassembler undoes the fragmenter: one object, cut into any chunks. */
  lemma FragmentsRoundTrip(p: Primitives, o: nat, payload: Payload, chunks: seq<Bytes>)
    requires o < U64 && DecodeMessage(p, payload).Ok?
    requires chunks != [] && Join(chunks) == EncodeAll(Split(o, payload))
    ensures FedAll(p, State([], map[]), chunks).0 == Ok([DecodeMessage(p, payload).value])
  {
    hide Split, Completed, FedAll, DecodeAll, DecodeMessage, AllEncodable, EncodeAll, Merge, Idle;
    var objects: Objects := map[o := payload];
    MergeOfOne(o, payload);
    SplitEncodable(o, payload);
    NoneInFlight();
    DecodeOne(p, payload);
    ReassembleMerge(p, objects, Split(o, payload), map[], chunks);
  }

  lemma NoneInFlight()
    ensures Idle(map[])
  {
  }

  lemma DecodeOne(p: Primitives, payload: Bytes)
    requires DecodeMessage(p, payload).Ok?
    ensures DecodeAll(p, [payload]) == Ok([DecodeMessage(p, payload).value])
  {
    hide DecodeMessage;
    assert [payload][1..] == [];
    assert DecodeAll(p, []) == Ok([]);
    var m := DecodeMessage(p, payload).value;
    assert [m] + [] == [m];
  }
}
