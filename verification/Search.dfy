/** First-occurrence search, as `windows(..).position(..)` and `str::find` perform it. */
module Search {
  import opened Bytes

  predicate At<T(==)>(hay: seq<T>, needle: seq<T>, i: nat) {
    i + |needle| <= |hay| && hay[i..i + |needle|] == needle
  }

  predicate Occurs<T(==)>(hay: seq<T>, needle: seq<T>) {
    exists i: nat | i <= |hay| :: At(hay, needle, i)
  }

  predicate EndsWith<T(==)>(s: seq<T>, suffix: seq<T>) {
    |suffix| <= |s| && s[|s| - |suffix|..] == suffix
  }

  /** The first index not before `i` where `needle` stands. */
  function FindFrom<T(==)>(hay: seq<T>, needle: seq<T>, i: nat): (r: Option<nat>)
    ensures r.Some? ==> i <= r.value && At(hay, needle, r.value)
    ensures forall q :: i <= q && (r.Some? ==> q < r.value) ==> !At(hay, needle, q)
    decreases |hay| - i
  {
    if i + |needle| > |hay| then None
    else if At(hay, needle, i) then Some(i)
    else FindFrom(hay, needle, i + 1)
  }

  function Find<T(==)>(hay: seq<T>, needle: seq<T>): (r: Option<nat>)
    ensures r.Some? ==> At(hay, needle, r.value)
    ensures forall q: nat :: (r.Some? ==> q < r.value) ==> !At(hay, needle, q)
  {
    FindFrom(hay, needle, 0)
  }

  /** A place where `needle` stands, with none before it, is what the search returns. */
  lemma FindIs<T>(hay: seq<T>, needle: seq<T>, p: nat)
    requires At(hay, needle, p) && forall q: nat | q < p :: !At(hay, needle, q)
    ensures Find(hay, needle) == Some(p)
  {
    var r := Find(hay, needle);
    assert r.Some?;
  }
}
