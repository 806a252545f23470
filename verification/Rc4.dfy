/**
 The RC4 cipher of `Rc4State`: a keystream specification, the in-place class proved against it, and
 the laws the session layer relies on.
 */
module Rc4 {
  import opened Bytes

  type SBox = s: seq<Byte> | |s| == 256 witness Zeros(256)

  /** A cipher position: the permutation and the two indices. */
  datatype Cipher = Cipher(s: SBox, i: Byte, j: Byte)

  /** Wrapping addition of two bytes. */
  function Add(a: int, b: int): Byte {
    (a + b) % 256
  }

  function PowerOfTwo(n: nat): (r: nat)
    ensures r > 0
  {
    if n == 0 then 1 else 2 * PowerOfTwo(n - 1)
  }

  /** Exclusive or of the low `n` bits. */
  function XorBits(a: nat, b: nat, n: nat): (r: nat)
    ensures r < PowerOfTwo(n)
  {
    if n == 0 then 0 else (a + b) % 2 + 2 * XorBits(a / 2, b / 2, n - 1)
  }

  function Xor(a: Byte, b: Byte): Byte {
    assert PowerOfTwo(8) == 2 * 2 * 2 * PowerOfTwo(5) == 2 * 2 * 2 * 2 * 2 * 2 * PowerOfTwo(2);
    XorBits(a, b, 8)
  }

  function Swap(s: SBox, i: Byte, j: Byte): SBox {
    s[i := s[j]][j := s[i]]
  }

  function Step(c: Cipher): Cipher {
    var i := Add(c.i, 1);
    var j := Add(c.j, c.s[i]);
    Cipher(Swap(c.s, i, j), i, j)
  }

  /** The cipher `n` keystream bytes later. */
  function Advance(c: Cipher, n: nat): Cipher {
    if n == 0 then c else Step(Advance(c, n - 1))
  }

  /** Keystream byte number `n` from position `c`. */
  function KeyByte(c: Cipher, n: nat): Byte {
    var d := Advance(c, n + 1);
    d.s[Add(d.s[d.i], d.s[d.j])]
  }

  /** `data` XORed with the keystream that starts at `c`. */
  function Crypt(c: Cipher, data: Bytes): (r: Bytes)
    ensures |r| == |data|
  {
    seq(|data|, k requires 0 <= k < |data| => Xor(data[k], KeyByte(c, k)))
  }

  function Identity(): SBox {
    seq(256, k requires 0 <= k < 256 => k)
  }

  /** The permutation and index after `n` rounds of key setup. */
  function Schedule(key: Bytes, n: nat): (r: (SBox, Byte))
    requires key != [] && n <= 256
  {
    if n == 0 then (Identity(), 0) else
      var (s, j) := Schedule(key, n - 1);
      var j' := Add(Add(j, s[n - 1]), key[(n - 1) % |key|]);
      (Swap(s, n - 1, j'), j')
  }

  function Init(key: Bytes): Cipher
    requires key != []
  {
    Cipher(Schedule(key, 256).0, 0, 0)
  }

  /** Every byte value stands at exactly one index. */
  ghost predicate Permutation(s: SBox) {
    && (forall v: Byte :: v in s)
    && (forall a, b :: 0 <= a < b < 256 ==> s[a] != s[b])
  }

  lemma SwapKeepsPermutation(s: SBox, i: Byte, j: Byte)
    requires Permutation(s)
    ensures Permutation(Swap(s, i, j))
  {
    var t := Swap(s, i, j);
    forall v: Byte ensures v in t {
      assert v in s;
      var k :| 0 <= k < |s| && s[k] == v;
      assert t[if k == i then j else if k == j then i else k] == v;
    }
  }

  /** Key setup yields a permutation of the 256 byte values, whatever the key. */
  lemma {:induction false} SchedulePermutes(key: Bytes, n: nat)
    requires key != [] && n <= 256
    ensures Permutation(Schedule(key, n).0)
  {
    if n == 0 {
      forall v: Byte ensures v in Identity() {
        assert Identity()[v] == v;
      }
    } else {
      SchedulePermutes(key, n - 1);
      var (s, j) := Schedule(key, n - 1);
      SwapKeepsPermutation(s, n - 1, Schedule(key, n).1);
    }
  }

  /** No number of keystream bytes breaks the permutation. */
  lemma {:induction false} AdvanceKeepsPermutation(c: Cipher, n: nat)
    requires Permutation(c.s)
    ensures Permutation(Advance(c, n).s)
  {
    if n > 0 {
      AdvanceKeepsPermutation(c, n - 1);
      var d := Advance(c, n - 1);
      var i := Add(d.i, 1);
      SwapKeepsPermutation(d.s, i, Add(d.j, d.s[i]));
    }
  }

  lemma {:induction false} AdvanceSum(c: Cipher, m: nat, n: nat)
    ensures Advance(Advance(c, m), n) == Advance(c, m + n)
  {
    hide Step;
    if n > 0 {
      AdvanceSum(c, m, n - 1);
    }
  }

  lemma KeyByteShift(c: Cipher, m: nat, n: nat)
    ensures KeyByte(c, m + n) == KeyByte(Advance(c, m), n)
  {
    hide Step, Advance;
    AdvanceSum(c, m, n + 1);
  }

  /** Processing `a + b` at once is processing `a` and then `b` from where `a` left the cipher. */
  lemma CryptSplit(c: Cipher, a: Bytes, b: Bytes)
    ensures Crypt(c, a + b) == Crypt(c, a) + Crypt(Advance(c, |a|), b)
  {
    hide Step, Advance, Xor, KeyByte;
    var d := Advance(c, |a|);
    forall k | 0 <= k < |b|
      ensures Crypt(c, a + b)[|a| + k] == Crypt(d, b)[k]
    {
      KeyByteShift(c, |a|, k);
    }
    assert forall k | 0 <= k < |a| :: Crypt(c, a + b)[k] == Crypt(c, a)[k];
  }

  lemma BitCancels(a: nat, k: nat, rest: nat)
    ensures ((a + k) % 2 + 2 * rest) / 2 == rest
    ensures ((a + k) % 2 + 2 * rest + k) % 2 == a % 2
  {
  }

  /** XOR with the same bits twice is the identity on `n`-bit numbers. */
  lemma {:induction false} XorBitsCancel(a: nat, k: nat, n: nat)
    requires a < PowerOfTwo(n)
    ensures XorBits(XorBits(a, k, n), k, n) == a
  {
    if n > 0 {
      XorBitsCancel(a / 2, k / 2, n - 1);
      BitCancels(a, k, XorBits(a / 2, k / 2, n - 1));
    }
  }

  /** Each bit of the result is set when exactly one of the two is. */
  lemma {:induction false} XorBitsIsBitwise(a: nat, b: nat, n: nat, bit: nat)
    ensures HasBit(XorBits(a, b, n), bit) <==> bit < n && (HasBit(a, bit) <==> !HasBit(b, bit))
    decreases n
  {
    if n == 0 {
      NoBitInZero(bit);
    } else {
      var rest := XorBits(a / 2, b / 2, n - 1);
      BitCancels(a, b, rest);
      if bit > 0 {
        XorBitsIsBitwise(a / 2, b / 2, n - 1, bit - 1);
      }
    }
  }

  lemma {:induction false} NoBitInZero(bit: nat)
    ensures !HasBit(0, bit)
  {
    if bit > 0 {
      NoBitInZero(bit - 1);
    }
  }

  /** `Xor` is the exclusive or of two bytes, bit by bit. */
  lemma XorIsBitwise(a: Byte, b: Byte, bit: nat)
    ensures HasBit(Xor(a, b), bit) <==> bit < 8 && (HasBit(a, bit) <==> !HasBit(b, bit))
  {
    XorBitsIsBitwise(a, b, 8, bit);
  }

  lemma XorCancels(a: Byte, k: Byte)
    ensures Xor(Xor(a, k), k) == a
  {
    assert PowerOfTwo(8) == 2 * 2 * 2 * PowerOfTwo(5) == 2 * 2 * 2 * 2 * 2 * 2 * PowerOfTwo(2);
    XorBitsCancel(a, k, 8);
  }

  /** Two ciphers at the same position undo each other. */
  lemma CryptInverse(c: Cipher, data: Bytes)
    ensures Crypt(c, Crypt(c, data)) == data
  {
    hide KeyByte, Xor;
    forall k | 0 <= k < |data|
      ensures Crypt(c, Crypt(c, data))[k] == data[k]
    {
      XorCancels(data[k], KeyByte(c, k));
    }
  }

  // Known answers, worked out by hand.

  /** The first three keystream bytes from the identity permutation, with the swaps they take. */
  lemma KeystreamVector()
    ensures var c := Cipher(Identity(), 0, 0);
            KeyByte(c, 0) == 2 && KeyByte(c, 1) == 5 && KeyByte(c, 2) == 7
    ensures Advance(Cipher(Identity(), 0, 0), 3) == Cipher(Identity()[2 := 3][3 := 5][5 := 2], 3, 5)
  {
    var c := Cipher(Identity(), 0, 0);
    assert Advance(c, 1) == Step(c) == Cipher(Identity(), 1, 1);
    assert Advance(c, 2) == Step(Advance(c, 1)) == Cipher(Identity()[2 := 3][3 := 2], 2, 3);
    assert Advance(c, 3) == Step(Advance(c, 2));
  }

  /** Four rounds of key setup with the key 1, 2, 3, which comes round again in the fourth. */
  lemma ScheduleVector()
    ensures Schedule([1, 2, 3], 4)
         == (Identity()[0 := 1][1 := 0][1 := 3][3 := 0][2 := 8][8 := 2][3 := 9][9 := 0], 9)
  {
    var key: Bytes, id: SBox := [1, 2, 3], Identity();
    assert id[0] == 0 && id[1] == 1 && id[2] == 2 && id[3] == 3 && id[8] == 8 && id[9] == 9;
    assert Schedule(key, 0) == (id, 0);
    hide Identity, Schedule;
    SwapIs(id, 0, 1, id[0 := 1][1 := 0]);
    NextRound(key, 0, id, 0, 1);
    var one: SBox := id[0 := 1][1 := 0];
    SwapIs(one, 1, 3, one[1 := 3][3 := 0]);
    NextRound(key, 1, one, 1, 3);
    var two: SBox := one[1 := 3][3 := 0];
    SwapIs(two, 2, 8, two[2 := 8][8 := 2]);
    NextRound(key, 2, two, 3, 8);
    var three: SBox := two[2 := 8][8 := 2];
    SwapIs(three, 3, 9, three[3 := 9][9 := 0]);
    NextRound(key, 3, three, 8, 9);
  }

  lemma SwapIs(s: SBox, i: Byte, j: Byte, t: SBox)
    requires t == s[i := s[j]][j := s[i]]
    ensures Swap(s, i, j) == t
  {
  }

  lemma NextRound(key: Bytes, n: nat, s: SBox, j: Byte, next: Byte)
    requires key != [] && n < 256 && Schedule(key, n) == (s, j)
    requires next == Add(Add(j, s[n]), key[n % |key|])
    ensures Schedule(key, n + 1) == (Swap(s, n, next), next)
  {
    hide Add;
  }

  class Rc4State {
    const s: array<Byte>
    var i: Byte
    var j: Byte

    ghost predicate Valid() { s.Length == 256 }

    ghost function View(): Cipher
      requires Valid()
      reads this, s
    {
      Cipher(s[..], i, j)
    }

    constructor (key: Bytes)
      requires key != []
      ensures Valid() && fresh(s)
      ensures View() == Init(key)
    {
      s := new Byte[256](k => if 0 <= k < 256 then k else 0);
      i, j := 0, 0;
      new;
      var acc: Byte := 0;
      assert s[..] == Identity();
      for n := 0 to 256
        invariant (s[..], acc) == Schedule(key, n)
        invariant i == j == 0
      {
        acc := Add(Add(acc, s[n]), key[n % |key|]);
        s[n], s[acc] := s[acc], s[n];
        assert s[..] == Schedule(key, n + 1).0;
      }
    }

    /** The body of the keystream loop: one step, and the byte it yields. */
    method NextByte() returns (k: Byte)
      requires Valid()
      modifies this, s
      ensures View() == Step(old(View()))
      ensures k == KeyByte(old(View()), 0)
    {
      ghost var before := View();
      i := Add(i, 1);
      j := Add(j, s[i]);
      s[i], s[j] := s[j], s[i];
      assert View() == Step(before) == Advance(before, 1);
      k := s[Add(s[i], s[j])];
    }

    /** Encrypts or decrypts `data` in place. */
    method Process(data: array<Byte>)
      requires Valid() && data != s
      modifies this, s, data
      ensures View() == Advance(old(View()), data.Length)
      ensures data[..] == Crypt(old(View()), old(data[..]))
    {
      hide Step, Xor;
      ghost var start := View();
      for n := 0 to data.Length
        invariant View() == Advance(start, n)
        invariant forall k :: 0 <= k < n ==> data[k] == Xor(old(data[k]), KeyByte(start, k))
        invariant forall k :: n <= k < data.Length ==> data[k] == old(data[k])
      {
        KeyByteShift(start, n, 0);
        var k := NextByte();
        data[n] := Xor(data[n], k);
      }
    }
  }
}
