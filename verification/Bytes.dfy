/** Bytes, fixed-width integers in both byte orders, and the two result types every module shares. */
module Bytes {

  type Byte = x: int | 0 <= x < 256
  type Bytes = seq<Byte>

  datatype Option<+T> = None | Some(value: T)

  datatype Result<+T, +E> = Ok(value: T) | Err(error: E)

  /** The byte of an ASCII character; every other character becomes a question mark. */
  function Code(c: char): Byte {
    if c < 128 as char then c as int else 63
  }

  /** The bytes of an ASCII literal. */
  function Ascii(s: string): (b: Bytes)
    ensures |b| == |s|
  {
    seq(|s|, k requires 0 <= k < |s| => Code(s[k]))
  }

  lemma AsciiLacks(s: string, c: char)
    requires c < 128 as char && c != '?' && c !in s
    ensures c as int !in Ascii(s)
  {
  }

  function Zeros(n: nat): (b: Bytes)
    ensures |b| == n
  {
    seq(n, _ => 0)
  }

  /** Bit number `bit` of a number, counted from the lowest. */
  predicate HasBit(n: nat, bit: nat)
    decreases bit
  {
    if bit == 0 then n % 2 == 1 else HasBit(n / 2, bit - 1)
  }

  function Join<T>(parts: seq<seq<T>>): seq<T> {
    if parts == [] then [] else parts[0] + Join(parts[1..])
  }

  lemma SliceLeft<T>(a: seq<T>, b: seq<T>, i: nat, j: nat)
    requires i <= j <= |a|
    ensures (a + b)[i..j] == a[i..j]
  {
  }

  lemma SliceRight<T>(a: seq<T>, b: seq<T>, i: nat, j: nat)
    requires i <= j <= |b|
    ensures (a + b)[|a| + i..|a| + j] == b[i..j]
  {
  }

  lemma SliceOfSlice<T>(s: seq<T>, a: nat, b: nat, i: nat, j: nat)
    requires a <= b <= |s| && i <= j <= b - a
    ensures s[a..b][i..j] == s[a + i..a + j]
  {
    var l, r := s[a..b][i..j], s[a + i..a + j];
    assert |l| == |r| && forall k | 0 <= k < |l| :: l[k] == r[k];
  }

  /** 256 to the power `width`: the number of values of a `width`-byte integer. */
  function Range(width: nat): (r: nat)
    ensures r > 0
  {
    if width == 0 then 1 else 256 * Range(width - 1)
  }

  const U16 := 0x1_0000
  const U24 := 0x100_0000
  const U32 := 0x1_0000_0000
  const U64 := 0x1_0000_0000_0000_0000

  lemma RangeValues()
    ensures Range(2) == U16 && Range(3) == U24 && Range(4) == U32 && Range(8) == U64
  {
    assert Range(4) == 256 * Range(3) == 256 * 256 * Range(2);
    assert Range(8) == 256 * Range(7) == 256 * 256 * Range(6) == 256 * 256 * 256 * Range(5);
  }

  /** `n` as a `width`-byte little-endian integer; higher bytes are cut off, as by an integer cast. */
  function LeBytes(n: nat, width: nat): (b: Bytes)
    ensures |b| == width
    decreases width
  {
    if width == 0 then [] else [n % 256] + LeBytes(n / 256, width - 1)
  }

  function LeValue(b: Bytes): nat {
    if b == [] then 0 else b[0] + 256 * LeValue(b[1..])
  }

  /** `n` as a `width`-byte big-endian integer; higher bytes are cut off. */
  function BeBytes(n: nat, width: nat): (b: Bytes)
    ensures |b| == width
    decreases width
  {
    if width == 0 then [] else BeBytes(n / 256, width - 1) + [n % 256]
  }

  function BeValue(b: Bytes): nat {
    if b == [] then 0 else 256 * BeValue(b[..|b| - 1]) + b[|b| - 1]
  }

  lemma {:induction false} LeInRange(b: Bytes)
    ensures LeValue(b) < Range(|b|)
  {
    if b != [] {
      LeInRange(b[1..]);
    }
  }

  /** A little-endian field reads back as what was written exactly when the value fits. */
  lemma {:induction false} LeRoundTrip(n: nat, width: nat)
    ensures LeValue(LeBytes(n, width)) == n <==> n < Range(width)
    decreases width
  {
    LeInRange(LeBytes(n, width));
    if width > 0 {
      assert LeBytes(n, width)[1..] == LeBytes(n / 256, width - 1);
      LeRoundTrip(n / 256, width - 1);
    }
  }

  lemma Le16(n: nat)
    ensures LeValue(LeBytes(n, 2)) == n <==> n < U16
  {
    RangeValues();
    LeRoundTrip(n, 2);
  }

  lemma Le32(n: nat)
    ensures LeValue(LeBytes(n, 4)) == n <==> n < U32
  {
    RangeValues();
    LeRoundTrip(n, 4);
  }

  /** A field of a given width has one value only, so equal values mean equal bytes. */
  lemma {:induction false} LeUnique(b: Bytes)
    ensures LeBytes(LeValue(b), |b|) == b
  {
    if b != [] {
      LeUnique(b[1..]);
      LowByte(b[0], LeValue(b[1..]));
      assert b == [b[0]] + b[1..];
    }
  }

  lemma LowByte(low: Byte, high: nat)
    ensures (low + 256 * high) % 256 == low && (low + 256 * high) / 256 == high
  {
  }

  lemma {:induction false} BeInRange(b: Bytes)
    ensures BeValue(b) < Range(|b|)
  {
    if b != [] {
      BeInRange(b[..|b| - 1]);
    }
  }

  /** A big-endian field reads back as what was written exactly when the value fits. */
  lemma {:induction false} BeRoundTrip(n: nat, width: nat)
    ensures BeValue(BeBytes(n, width)) == n <==> n < Range(width)
    decreases width
  {
    BeInRange(BeBytes(n, width));
    if width > 0 {
      var b := BeBytes(n, width);
      assert b[..|b| - 1] == BeBytes(n / 256, width - 1);
      BeRoundTrip(n / 256, width - 1);
    }
  }
}
