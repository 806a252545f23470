/**
 What the reassembler makes of any fragments at all: it joins the run of fragments since an object's latest
 start, and nothing else, and fails at the first fragment whose number is not its place in that run.
 */
module Assembly {
  import opened Bytes
  import opened Primitives
  import opened Fragments
  import opened Reassembly
  import opened Interleaving

  /** A fragment that is an object of its own. */
  predicate Whole(f: Fragment) {
    f.start && f.end
  }

  /** An object's fragments since its latest start, up to and with an end; empty when none has started. */
  function Latest(fs: seq<Fragment>, objectId: nat): seq<Fragment> {
    if fs == [] then [] else
      var (before, last) := (Latest(fs[..|fs| - 1], objectId), fs[|fs| - 1]);
      if last.objectId != objectId || Whole(last) then before
      else if last.start then [last]
      else if IsOpen(before) then before + [last]
      else []
  }

  /** A run that has started and not ended. */
  predicate IsOpen(run: seq<Fragment>) {
    run != [] && !run[|run| - 1].end
  }

  /** Every fragment of a run carries its place in it. */
  predicate Numbered(run: seq<Fragment>) {
    forall k | 0 <= k < |run| :: run[k].fragmentId == k % U64
  }

  function Blobs(run: seq<Fragment>): Bytes {
    if run == [] then [] else Blobs(run[..|run| - 1]) + run[|run| - 1].blob
  }

  /** Every fragment that belongs to a run carries its place in it. */
  predicate WellNumbered(fs: seq<Fragment>) {
    fs == [] || (WellNumbered(fs[..|fs| - 1]) && Numbered(Latest(fs, fs[|fs| - 1].objectId)))
  }

  /** The payload that the last fragment finishes: its own, or that of the run it ends. */
  function Ended(fs: seq<Fragment>): seq<Bytes>
    requires fs != []
  {
    var last := fs[|fs| - 1];
    if Whole(last) then [last.blob]
    else if last.end && Latest(fs, last.objectId) != [] then [Blobs(Latest(fs, last.objectId))]
    else []
  }

  /** The payloads of all runs that ended, in the order of their ends. */
  function Assembled(fs: seq<Fragment>): seq<Bytes> {
    if fs == [] then [] else Assembled(fs[..|fs| - 1]) + Ended(fs)
  }

  /** The table holds exactly the open runs. */
  ghost predicate TableIs(m: Table, fs: seq<Fragment>) {
    forall o: nat :: HoldsRun(m, o, Latest(fs, o))
  }

  ghost predicate HoldsRun(m: Table, o: nat, run: seq<Fragment>) {
    if IsOpen(run) then o in m && m[o] == Entry(Blobs(run), |run| % U64, true)
    else o in m ==> !m[o].started
  }

  ghost predicate AllNumbered(fs: seq<Fragment>) {
    forall o: nat :: Numbered(Latest(fs, o))
  }

  lemma LatestSnoc(fs: seq<Fragment>, f: Fragment, o: nat)
    ensures var before := Latest(fs, o);
            Latest(fs + [f], o) == if f.objectId != o || Whole(f) then before else if f.start then [f]
                                   else if IsOpen(before) then before + [f] else []
  {
    assert (fs + [f])[..|fs|] == fs;
  }

  lemma BlobsSnoc(run: seq<Fragment>, f: Fragment)
    ensures Blobs(run + [f]) == Blobs(run) + f.blob
  {
    assert (run + [f])[..|run|] == run;
  }

  lemma BlobsOne(f: Fragment)
    ensures Blobs([f]) == f.blob
  {
    BlobsSnoc([], f);
    assert [] + [f] == [f] && [] + f.blob == f.blob;
  }

  lemma NumberedSnoc(run: seq<Fragment>, f: Fragment)
    requires Numbered(run)
    ensures Numbered(run + [f]) <==> f.fragmentId == |run| % U64
  {
    var longer := run + [f];
    assert longer[|run|] == f;
    assert forall k | 0 <= k < |run| :: longer[k] == run[k];
  }

  lemma AbsorbElsewhere(m: Table, f: Fragment)
    ensures var e := Absorb(m, f);
            forall o | o != f.objectId :: (o in e.inFlight <==> o in m) && (o in m ==> e.inFlight[o] == m[o])
  {
  }

  /** A fragment that starts an object and does not end it. */
  lemma AbsorbStart(m: Table, f: Fragment)
    requires f.start && !f.end
    ensures var e := Absorb(m, f);
            && (e.failure == if f.fragmentId == 0 then None else Some(IdMismatch(f.fragmentId, 0)))
            && (e.failure.None? ==> e.finished.None? && HoldsRun(e.inFlight, f.objectId, [f]))
  {
    BlobsOne(f);
    assert [] + f.blob == f.blob;
    hide Blobs;
  }

  /** A fragment that neither starts an object nor meets an open run. */
  lemma AbsorbOrphan(m: Table, f: Fragment, run: seq<Fragment>)
    requires !f.start && HoldsRun(m, f.objectId, run) && !IsOpen(run)
    ensures var e := Absorb(m, f);
            e.failure.None? && e.finished.None? && HoldsRun(e.inFlight, f.objectId, [])
  {
    hide Blobs;
  }

  /** A fragment that meets an open run. */
  lemma AbsorbPart(m: Table, f: Fragment, run: seq<Fragment>)
    requires !f.start && HoldsRun(m, f.objectId, run) && IsOpen(run)
    ensures var e := Absorb(m, f);
            && (e.failure == if f.fragmentId == |run| % U64 then None else Some(IdMismatch(f.fragmentId, |run| % U64)))
            && (e.failure.None? ==>
                  && e.finished == (if f.end then Some(Blobs(run + [f])) else None)
                  && HoldsRun(e.inFlight, f.objectId, run + [f]))
  {
    BlobsSnoc(run, f);
    hide Blobs;
    NextPlace(|run|);
  }

  lemma NextPlace(n: nat)
    ensures (n % U64 + 1) % U64 == (n + 1) % U64
  {
  }

  /** One fragment, whatever it is. */
  lemma AbsorbStep(m: Table, fs: seq<Fragment>, f: Fragment)
    requires TableIs(m, fs) && AllNumbered(fs)
    ensures var (e, run) := (Absorb(m, f), Latest(fs + [f], f.objectId));
            && (e.failure.None? <==> Numbered(run))
            && (e.failure.Some? ==> run != [] && e.failure == Some(IdMismatch(f.fragmentId, (|run| - 1) % U64)))
            && (e.failure.None? ==> Finished(e.finished) == Ended(fs + [f]) && HoldsRun(e.inFlight, f.objectId, run))
  {
    var o := f.objectId;
    var before := Latest(fs, o);
    LatestSnoc(fs, f, o);
    assert HoldsRun(m, o, before) && Numbered(before);
    hide TableIs, AllNumbered, Latest, HoldsRun, Blobs;
    assert (fs + [f])[|fs + [f]| - 1] == f;
    if Whole(f) {
      hide Numbered;
    } else if f.start {
      NumberedSnoc([], f);
      assert [] + [f] == [f];
      AbsorbStart(m, f);
      hide Absorb, Numbered;
    } else if IsOpen(before) {
      NumberedSnoc(before, f);
      AbsorbPart(m, f, before);
      hide Absorb, Numbered;
    } else {
      AbsorbOrphan(m, f, before);
      hide Absorb;
    }
  }

  lemma StepKeepsTable(m: Table, fs: seq<Fragment>, f: Fragment)
    requires TableIs(m, fs) && AllNumbered(fs) && Absorb(m, f).failure.None?
    ensures TableIs(Absorb(m, f).inFlight, fs + [f]) && AllNumbered(fs + [f])
  {
    AbsorbStep(m, fs, f);
    AbsorbElsewhere(m, f);
    hide Absorb, Numbered, Blobs;
    forall o: nat
      ensures HoldsRun(Absorb(m, f).inFlight, o, Latest(fs + [f], o)) && Numbered(Latest(fs + [f], o))
    {
      LatestSnoc(fs, f, o);
      assert HoldsRun(m, o, Latest(fs, o)) && Numbered(Latest(fs, o));
    }
  }

  /** The reassembler is exactly that: from an empty table, for any fragments in any order. */
  lemma {:induction false} AbsorbExact(fs: seq<Fragment>)
    ensures var e := AbsorbAll(map[], fs);
            && (e.failure.None? <==> WellNumbered(fs))
            && (e.failure.None? ==> e.finished == Assembled(fs) && TableIs(e.inFlight, fs) && AllNumbered(fs))
  {
    if fs != [] {
      var init, last := fs[..|fs| - 1], fs[|fs| - 1];
      assert init + [last] == fs;
      AbsorbExact(init);
      var before := AbsorbAll(map[], init);
      if before.failure.None? {
        AbsorbStep(before.inFlight, init, last);
        if Absorb(before.inFlight, last).failure.None? {
          StepKeepsTable(before.inFlight, init, last);
        }
      }
      hide Absorb, TableIs, AllNumbered, Numbered, Latest, Ended, HoldsRun;
    }
  }

  /** The first fragment out of place. */
  lemma {:induction false} FirstMisplaced(fs: seq<Fragment>) returns (k: nat)
    requires !WellNumbered(fs)
    ensures k < |fs| && WellNumbered(fs[..k]) && !WellNumbered(fs[..k + 1])
  {
    hide Numbered, Latest;
    var init := fs[..|fs| - 1];
    if WellNumbered(init) {
      k := |fs| - 1;
      assert fs[..k + 1] == fs;
    } else {
      k := FirstMisplaced(init);
      assert init[..k] == fs[..k] && init[..k + 1] == fs[..k + 1];
    }
  }

  /** Draining stops at a fragment that fails, whatever follows it. */
  lemma MismatchStops(m: Table, f: Fragment, rest: Bytes)
    requires Encodable(f) && Absorb(m, f).failure.Some?
    ensures Drain(State(Encode(f) + rest, m)).failure == Absorb(m, f).failure
  {
    hide Absorb, Encode, Read;
    ReadEncoded(f, rest);
  }

  /**
   A fragment that is not the one its started object waits for fails the call, whatever follows it, with its
   own number and the expected one.
   */
  lemma MismatchFails(p: Primitives, m: Table, f: Fragment, rest: Bytes)
    requires Encodable(f) && !f.start && f.objectId in m && m[f.objectId].started && f.fragmentId != m[f.objectId].next
    ensures Fed(p, State([], m), Encode(f) + rest).0 == Err(IdMismatch(f.fragmentId, m[f.objectId].next))
  {
    MismatchStops(m, f, rest);
    hide Encode, Drain, DecodeAll;
    assert [] + (Encode(f) + rest) == Encode(f) + rest;
  }

  /** The error of a stream: the number of the first fragment out of place, and the place it is at. */
  ghost predicate FailsAt(fs: seq<Fragment>, k: nat, error: PsrpError) {
    && k < |fs| && WellNumbered(fs[..k]) && !WellNumbered(fs[..k + 1])
    && Latest(fs[..k + 1], fs[k].objectId) != []
    && error == IdMismatch(fs[k].fragmentId, (|Latest(fs[..k + 1], fs[k].objectId)| - 1) % U64)
  }

  /** Draining the fragments before a misplaced one, and then that one. */
  lemma DrainToFailure(fs: seq<Fragment>, k: nat)
    requires AllEncodable(fs) && k < |fs| && WellNumbered(fs[..k]) && !WellNumbered(fs[..k + 1])
    ensures var o := Drain(State(EncodeAll(fs), map[]));
            o.failure.Some? && FailsAt(fs, k, o.failure.value)
  {
    MisplacedFails(fs, k);
    AbsorbExact(fs[..k]);
    hide WellNumbered, Latest, Numbered, TableIs, AllNumbered, AbsorbAll, Absorb, Encode, EncodeAll, Drain, FailsAt;
    PrefixEncodable(fs, k);
    hide AllEncodable;
    DrainEncoded(map[], fs[..k]);
    EncodeAround(fs, k);
    DrainThen(EncodeAll(fs[..k]), AbsorbAll(map[], fs[..k]), fs[k], EncodeAll(fs[k + 1..]));
  }

  lemma PrefixEncodable(fs: seq<Fragment>, k: nat)
    requires AllEncodable(fs) && k < |fs|
    ensures AllEncodable(fs[..k]) && Encodable(fs[k])
  {
    hide Encodable;
    assert fs[k] in fs && forall g | g in fs[..k] :: g in fs;
  }

  lemma DrainThen(bytes: Bytes, before: Effects, f: Fragment, rest: Bytes)
    requires Drain(State(bytes, map[])) == Outcome(before.finished, State([], before.inFlight), None)
    requires Encodable(f) && Absorb(before.inFlight, f).failure.Some?
    ensures Drain(State(bytes + (Encode(f) + rest), map[])).failure == Absorb(before.inFlight, f).failure
  {
    hide Absorb, Encode, Drain;
    MismatchStops(before.inFlight, f, rest);
    DrainSplit(State(bytes, map[]), Encode(f) + rest);
    assert [] + (Encode(f) + rest) == Encode(f) + rest;
  }

  lemma MisplacedFails(fs: seq<Fragment>, k: nat)
    requires k < |fs| && WellNumbered(fs[..k]) && !WellNumbered(fs[..k + 1])
    ensures var e := Absorb(AbsorbAll(map[], fs[..k]).inFlight, fs[k]);
            e.failure.Some? && FailsAt(fs, k, e.failure.value)
  {
    hide Absorb, AbsorbAll, TableIs, AllNumbered, Numbered, Latest, WellNumbered;
    var before, f := fs[..k], fs[k];
    Around(fs, k);
    MisplacedRun(before, f);
    AbsorbExact(before);
    AbsorbStep(AbsorbAll(map[], before).inFlight, before, f);
  }

  lemma MisplacedRun(before: seq<Fragment>, f: Fragment)
    ensures WellNumbered(before + [f]) <==> WellNumbered(before) && Numbered(Latest(before + [f], f.objectId))
  {
    hide Numbered, Latest;
    assert (before + [f])[..|before|] == before;
  }

  lemma Around<T>(s: seq<T>, k: nat)
    requires k < |s|
    ensures s[..k + 1] == s[..k] + [s[k]] && s == s[..k] + ([s[k]] + s[k + 1..])
  {
  }

  lemma EncodeAround(fs: seq<Fragment>, k: nat)
    requires k < |fs|
    ensures EncodeAll(fs) == EncodeAll(fs[..k]) + (Encode(fs[k]) + EncodeAll(fs[k + 1..]))
  {
    hide Encode, EncodeAll;
    Around(fs, k);
    EncodeAllSum(fs[..k], [fs[k]] + fs[k + 1..]);
    EncodeHead(fs[k], fs[k + 1..]);
  }

  lemma EncodeHead(f: Fragment, rest: seq<Fragment>)
    ensures EncodeAll([f] + rest) == Encode(f) + EncodeAll(rest)
  {
    hide Encode;
    assert ([f] + rest)[1..] == rest;
  }

  /**
   Reassembly of any stream of fragments: it succeeds exactly when every fragment that belongs to a run
   carries its place in it and the runs that ended hold messages, and then returns those; a fragment out of
   place fails it with its number and its place.
   */
  lemma FedExact(p: Primitives, fs: seq<Fragment>)
    requires AllEncodable(fs)
    ensures var r := Fed(p, State([], map[]), EncodeAll(fs)).0;
            if WellNumbered(fs) then r == DecodeAll(p, Assembled(fs))
            else r.Err? && exists k :: FailsAt(fs, k, r.error)
  {
    assert [] + EncodeAll(fs) == EncodeAll(fs);
    AbsorbExact(fs);
    if WellNumbered(fs) {
      DrainEncoded(map[], fs);
      hide Drain, AbsorbAll, EncodeAll;
    } else {
      var k := FirstMisplaced(fs);
      DrainToFailure(fs, k);
      hide Drain, AbsorbAll, EncodeAll, FailsAt, WellNumbered;
    }
  }

  /** The same in any chunks. */
  lemma FedExactInChunks(p: Primitives, fs: seq<Fragment>, chunks: seq<Bytes>)
    requires AllEncodable(fs) && chunks != [] && Join(chunks) == EncodeAll(fs)
    ensures var r := FedAll(p, State([], map[]), chunks).0;
            && (r.Ok? <==> WellNumbered(fs) && DecodeAll(p, Assembled(fs)).Ok?)
            && (r.Ok? ==> r == DecodeAll(p, Assembled(fs)))
  {
    FedExact(p, fs);
    AnyChunks(p, State([], map[]), chunks);
    hide Fed, FedAll, DecodeAll, WellNumbered, Assembled;
  }

  /** An object's fragments, without those that are objects of their own. */
  function Parts(fs: seq<Fragment>, objectId: nat): seq<Fragment> {
    if fs == [] then [] else
      var last := fs[|fs| - 1];
      Parts(fs[..|fs| - 1], objectId) + if last.objectId == objectId && !Whole(last) then [last] else []
  }

  ghost predicate Suffix(parts: seq<Fragment>, run: seq<Fragment>) {
    |run| <= |parts| && parts[|parts| - |run|..] == run
  }

  /** The first is a start and no other, and none before the last is an end. */
  ghost predicate Shaped(run: seq<Fragment>) {
    && (run != [] ==> run[0].start)
    && (forall k | 0 < k < |run| :: !run[k].start)
    && (forall k | 0 <= k < |run| - 1 :: !run[k].end)
  }

  /** What a run is: the last of its object's fragments, without a gap, from the one flagged as the start. */
  lemma {:induction false} RunShape(fs: seq<Fragment>, o: nat)
    ensures Suffix(Parts(fs, o), Latest(fs, o)) && Shaped(Latest(fs, o))
  {
    if fs != [] {
      var init, last := fs[..|fs| - 1], fs[|fs| - 1];
      RunShape(init, o);
      assert init + [last] == fs;
      var before, parts := Latest(init, o), Parts(init, o);
      LatestSnoc(init, last, o);
      assert Parts(fs, o) == if last.objectId == o && !Whole(last) then parts + [last] else parts;
      hide Parts, Latest, Suffix, Shaped;
      SuffixSnoc(parts, before, last);
      SuffixSnoc(parts, [], last);
      NoSuffix(parts);
      NoSuffix(parts + [last]);
      assert [] + [last] == [last];
      if last.start {
        ShapedOne(last);
      } else if IsOpen(before) {
        ShapedSnoc(before, last);
      }
      assert Parts(fs, o) == parts + [last] || Parts(fs, o) == parts;
    }
  }

  lemma NoSuffix(parts: seq<Fragment>)
    ensures Suffix(parts, []) && Shaped([])
  {
  }

  lemma ShapedOne(f: Fragment)
    requires f.start
    ensures Shaped([f])
  {
  }

  lemma ShapedSnoc(run: seq<Fragment>, f: Fragment)
    requires Shaped(run) && IsOpen(run) && !f.start
    ensures Shaped(run + [f])
  {
  }

  lemma SuffixSnoc(parts: seq<Fragment>, run: seq<Fragment>, f: Fragment)
    requires Suffix(parts, run) || run == []
    ensures Suffix(parts + [f], run + [f])
  {
    if run != [] {
      assert parts == parts[..|parts| - |run|] + run;
    }
    assert (parts + [f])[|parts + [f]| - |run + [f]|..] == run + [f];
  }
}
