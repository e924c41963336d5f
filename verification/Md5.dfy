/** The streaming MD5 of md5.c: one context updated in place, proved to compute the digest of RFC 1321. */
module Md5 {
  import opened Basics
  import opened Md5Reference

  const S11 := 7
  const S12 := 12
  const S13 := 17
  const S14 := 22
  const S21 := 5
  const S22 := 9
  const S23 := 14
  const S24 := 20
  const S31 := 4
  const S32 := 11
  const S33 := 16
  const S34 := 23
  const S41 := 6
  const S42 := 10
  const S43 := 15
  const S44 := 21

  // ----- the operators of C on unsigned words: shifts multiply and divide, the others work bit by bit

  function ShiftLeft(x: nat, n: nat): Word {
    (x * Pow2(n)) % TWO32
  }

  lemma Quotient(x: nat, p: nat)
    requires p > 0
    ensures x / p >= 0
  {
  }

  function ShiftRight(x: nat, n: nat): nat {
    Quotient(x, Pow2(n));
    x / Pow2(n)
  }

  function Or(x: nat, y: nat): nat {
    if x == 0 && y == 0 then 0 else (if x % 2 == 1 || y % 2 == 1 then 1 else 0) + 2 * Or(x / 2, y / 2)
  }

  function And(x: nat, y: nat): nat {
    if x == 0 || y == 0 then 0 else (if x % 2 == 1 && y % 2 == 1 then 1 else 0) + 2 * And(x / 2, y / 2)
  }

  lemma {:induction false} OrWithZero(x: nat)
    ensures Or(x, 0) == x
  {
    if x == 0 {
    } else {
      OrWithZero(x / 2);
    }
  }

  /** Parts without a common bit: their union is their sum. */
  lemma {:induction false} OrOfParts(h: nat, n: nat, l: nat)
    requires l < Pow2(n)
    ensures Or(h * Pow2(n), l) == h * Pow2(n) + l
  {
    if n == 0 {
      OrWithZero(h);
    } else {
      var x, p := h * Pow2(n), h * Pow2(n - 1);
      assert x == 2 * p;
      OrOfParts(h, n - 1, l / 2);
    }
  }

  /** A mask of n ones takes the remainder. */
  lemma {:induction false} AndWithMask(x: nat, n: nat)
    ensures And(x, Pow2(n) - 1) == x % Pow2(n)
  {
    hide And, Pow2;
    ShortPowers();
    if n == 0 || x == 0 {
      AndNone(x, Pow2(n));
    } else {
      assert Pow2(n) == 2 * Pow2(n - 1) by {
        Doubles(n);
      }
      AndWithMask(x / 2, n - 1);
      LongerMask(x, Pow2(n - 1));
    }
  }

  lemma LongerMask(x: nat, p: nat)
    requires x > 0 && p > 0 && And(x / 2, p - 1) == (x / 2) % p
    ensures And(x, 2 * p - 1) == x % (2 * p)
  {
    hide And;
    AndStep(x, p - 1);
    HalfOfRemainder(x, p);
    assert 2 * (p - 1) + 1 == 2 * p - 1;
  }

  lemma AndNone(x: nat, p: nat)
    requires p > 0
    ensures And(x, 0) == 0 == x % 1 && And(0, p - 1) == 0 == 0 % p
  {
  }

  lemma ShortPowers()
    ensures Pow2(0) == 1
  {
  }

  lemma Doubles(n: nat)
    requires n > 0
    ensures Pow2(n) == 2 * Pow2(n - 1)
  {
  }

  lemma AndStep(x: nat, y: nat)
    requires x > 0
    ensures And(x, 2 * y + 1) == x % 2 + 2 * And(x / 2, y)
  {
    assert (2 * y + 1) / 2 == y && (2 * y + 1) % 2 == 1;
  }

  /** (w >> n) & 0xff. */
  function ByteAt(w: Word, n: nat): (b: Byte)
    ensures b == (w / Pow2(n)) % 0x100
  {
    PowersOfBytes();
    AndWithMask(w / Pow2(n), 8);
    And(ShiftRight(w, n), 0xff)
  }

  /** (c >> 3) & 0x3F. */
  function BufferIndex(c: Word): (i: nat)
    ensures i == (c / 8) % 64
  {
    assert Pow2(3) == 8 && Pow2(6) == 64 by {
      PowSum(3, 3);
    }
    AndWithMask(c / 8, 6);
    And(ShiftRight(c, 3), 0x3F)
  }

  lemma HalfOfRemainder(x: nat, p: nat)
    requires p > 0
    ensures x % (2 * p) == 2 * ((x / 2) % p) + x % 2
  {
    var k, r := (x / 2) / p, (x / 2) % p;
    assert x / 2 == p * k + r;
    assert x == k * (2 * p) + (2 * r + x % 2);
    DivMod(k, 2 * p, 2 * r + x % 2);
  }

  /** The macro: (x << n) | (x >> (32 - n)). */
  function ROTATE_LEFT(x: Word, n: nat): (r: Word)
    requires 0 < n < 32
    ensures r == RotateLeft(x, n)
  {
    RotateIsShifts(x, n);
    Or(ShiftLeft(x, n), ShiftRight(x, 32 - n))
  }

  lemma RotateIsShifts(x: Word, n: nat)
    requires 0 < n < 32
    ensures Or(ShiftLeft(x, n), ShiftRight(x, 32 - n)) == RotateLeft(x, n)
  {
    hide Or, Pow2;
    Shifts(n);
    RotateParts(x, Pow2(n), Pow2(32 - n));
    OrOfParts(x % Pow2(32 - n), n, x / Pow2(32 - n));
  }

  lemma SumOfThree(a: Word, f: Word, x: Word, ac: Word)
    ensures Add(a, Add(Add(f, x), ac)) == (a + (f + x + ac)) % TWO32
  {
    var t := Add(f, x);
    var u := Add(t, ac);
    var k := (f + x) / TWO32 + (t + ac) / TWO32;
    assert f + x + ac == u + TWO32 * k;
    ModShift(a + u, k);
  }

  lemma ModShift(y: int, k: int)
    ensures (y + TWO32 * k) % TWO32 == y % TWO32
  {
  }

  // The four macros. Each turns the state after i steps into the state after i + 1, with the changed word in its
  // new role.

  method FF(a: Word, b: Word, c: Word, d: Word, x: Word, s: nat, ac: Word,
            ghost q: Quad, ghost xs: seq<Word>, ghost i: nat)
      returns (r: Word)
    requires |xs| == 16 && 0 <= i < 16 && After(q, xs, i) == Quad(a, b, c, d)
    requires x == xs[K(i)] && s == S(i) && ac == T(i)
    ensures After(q, xs, i + 1) == Quad(d, r, b, c)
  {
    hide F, K, S, T, RotateLeft, ROTATE_LEFT;
    r := Add(a, Add(Add(F(b, c, d), x), ac));
    SumOfThree(a, F(b, c, d), x, ac);
    r := ROTATE_LEFT(r, s);
    r := Add(r, b);
  }

  method GG(a: Word, b: Word, c: Word, d: Word, x: Word, s: nat, ac: Word,
            ghost q: Quad, ghost xs: seq<Word>, ghost i: nat)
      returns (r: Word)
    requires |xs| == 16 && 16 <= i < 32 && After(q, xs, i) == Quad(a, b, c, d)
    requires x == xs[K(i)] && s == S(i) && ac == T(i)
    ensures After(q, xs, i + 1) == Quad(d, r, b, c)
  {
    hide G, K, S, T, RotateLeft, ROTATE_LEFT;
    r := Add(a, Add(Add(G(b, c, d), x), ac));
    SumOfThree(a, G(b, c, d), x, ac);
    r := ROTATE_LEFT(r, s);
    r := Add(r, b);
  }

  method HH(a: Word, b: Word, c: Word, d: Word, x: Word, s: nat, ac: Word,
            ghost q: Quad, ghost xs: seq<Word>, ghost i: nat)
      returns (r: Word)
    requires |xs| == 16 && 32 <= i < 48 && After(q, xs, i) == Quad(a, b, c, d)
    requires x == xs[K(i)] && s == S(i) && ac == T(i)
    ensures After(q, xs, i + 1) == Quad(d, r, b, c)
  {
    hide H, K, S, T, RotateLeft, ROTATE_LEFT;
    r := Add(a, Add(Add(H(b, c, d), x), ac));
    SumOfThree(a, H(b, c, d), x, ac);
    r := ROTATE_LEFT(r, s);
    r := Add(r, b);
  }

  method II(a: Word, b: Word, c: Word, d: Word, x: Word, s: nat, ac: Word,
            ghost q: Quad, ghost xs: seq<Word>, ghost i: nat)
      returns (r: Word)
    requires |xs| == 16 && 48 <= i < 64 && After(q, xs, i) == Quad(a, b, c, d)
    requires x == xs[K(i)] && s == S(i) && ac == T(i)
    ensures After(q, xs, i + 1) == Quad(d, r, b, c)
  {
    hide I, K, S, T, RotateLeft, ROTATE_LEFT;
    r := Add(a, Add(Add(I(b, c, d), x), ac));
    SumOfThree(a, I(b, c, d), x, ac);
    r := ROTATE_LEFT(r, s);
    r := Add(r, b);
  }

  method Round1(a0: Word, b0: Word, c0: Word, d0: Word, x: seq<Word>, ghost q: Quad)
      returns (a: Word, b: Word, c: Word, d: Word)
    requires |x| == 16 && After(q, x, 0) == Quad(a0, b0, c0, d0)
    ensures After(q, x, 16) == Quad(a, b, c, d)
  {
    hide After, F, G, H, I, T2, T3, T4;
    a, b, c, d := a0, b0, c0, d0;
    a := FF(a, b, c, d, x[0], S11, 0xd76aa478, q, x, 0);
    d := FF(d, a, b, c, x[1], S12, 0xe8c7b756, q, x, 1);
    c := FF(c, d, a, b, x[2], S13, 0x242070db, q, x, 2);
    b := FF(b, c, d, a, x[3], S14, 0xc1bdceee, q, x, 3);
    a := FF(a, b, c, d, x[4], S11, 0xf57c0faf, q, x, 4);
    d := FF(d, a, b, c, x[5], S12, 0x4787c62a, q, x, 5);
    c := FF(c, d, a, b, x[6], S13, 0xa8304613, q, x, 6);
    b := FF(b, c, d, a, x[7], S14, 0xfd469501, q, x, 7);
    a := FF(a, b, c, d, x[8], S11, 0x698098d8, q, x, 8);
    d := FF(d, a, b, c, x[9], S12, 0x8b44f7af, q, x, 9);
    c := FF(c, d, a, b, x[10], S13, 0xffff5bb1, q, x, 10);
    b := FF(b, c, d, a, x[11], S14, 0x895cd7be, q, x, 11);
    a := FF(a, b, c, d, x[12], S11, 0x6b901122, q, x, 12);
    d := FF(d, a, b, c, x[13], S12, 0xfd987193, q, x, 13);
    c := FF(c, d, a, b, x[14], S13, 0xa679438e, q, x, 14);
    b := FF(b, c, d, a, x[15], S14, 0x49b40821, q, x, 15);
  }

  method Round2(a0: Word, b0: Word, c0: Word, d0: Word, x: seq<Word>, ghost q: Quad)
      returns (a: Word, b: Word, c: Word, d: Word)
    requires |x| == 16 && After(q, x, 16) == Quad(a0, b0, c0, d0)
    ensures After(q, x, 32) == Quad(a, b, c, d)
  {
    hide After, F, G, H, I, T1, T3, T4;
    a, b, c, d := a0, b0, c0, d0;
    a := GG(a, b, c, d, x[1], S21, 0xf61e2562, q, x, 16);
    d := GG(d, a, b, c, x[6], S22, 0xc040b340, q, x, 17);
    c := GG(c, d, a, b, x[11], S23, 0x265e5a51, q, x, 18);
    b := GG(b, c, d, a, x[0], S24, 0xe9b6c7aa, q, x, 19);
    a := GG(a, b, c, d, x[5], S21, 0xd62f105d, q, x, 20);
    d := GG(d, a, b, c, x[10], S22, 0x2441453, q, x, 21);
    c := GG(c, d, a, b, x[15], S23, 0xd8a1e681, q, x, 22);
    b := GG(b, c, d, a, x[4], S24, 0xe7d3fbc8, q, x, 23);
    a := GG(a, b, c, d, x[9], S21, 0x21e1cde6, q, x, 24);
    d := GG(d, a, b, c, x[14], S22, 0xc33707d6, q, x, 25);
    c := GG(c, d, a, b, x[3], S23, 0xf4d50d87, q, x, 26);
    b := GG(b, c, d, a, x[8], S24, 0x455a14ed, q, x, 27);
    a := GG(a, b, c, d, x[13], S21, 0xa9e3e905, q, x, 28);
    d := GG(d, a, b, c, x[2], S22, 0xfcefa3f8, q, x, 29);
    c := GG(c, d, a, b, x[7], S23, 0x676f02d9, q, x, 30);
    b := GG(b, c, d, a, x[12], S24, 0x8d2a4c8a, q, x, 31);
  }

  method Round3(a0: Word, b0: Word, c0: Word, d0: Word, x: seq<Word>, ghost q: Quad)
      returns (a: Word, b: Word, c: Word, d: Word)
    requires |x| == 16 && After(q, x, 32) == Quad(a0, b0, c0, d0)
    ensures After(q, x, 48) == Quad(a, b, c, d)
  {
    hide After, F, G, H, I, T1, T2, T4;
    a, b, c, d := a0, b0, c0, d0;
    a := HH(a, b, c, d, x[5], S31, 0xfffa3942, q, x, 32);
    d := HH(d, a, b, c, x[8], S32, 0x8771f681, q, x, 33);
    c := HH(c, d, a, b, x[11], S33, 0x6d9d6122, q, x, 34);
    b := HH(b, c, d, a, x[14], S34, 0xfde5380c, q, x, 35);
    a := HH(a, b, c, d, x[1], S31, 0xa4beea44, q, x, 36);
    d := HH(d, a, b, c, x[4], S32, 0x4bdecfa9, q, x, 37);
    c := HH(c, d, a, b, x[7], S33, 0xf6bb4b60, q, x, 38);
    b := HH(b, c, d, a, x[10], S34, 0xbebfbc70, q, x, 39);
    a := HH(a, b, c, d, x[13], S31, 0x289b7ec6, q, x, 40);
    d := HH(d, a, b, c, x[0], S32, 0xeaa127fa, q, x, 41);
    c := HH(c, d, a, b, x[3], S33, 0xd4ef3085, q, x, 42);
    b := HH(b, c, d, a, x[6], S34, 0x4881d05, q, x, 43);
    a := HH(a, b, c, d, x[9], S31, 0xd9d4d039, q, x, 44);
    d := HH(d, a, b, c, x[12], S32, 0xe6db99e5, q, x, 45);
    c := HH(c, d, a, b, x[15], S33, 0x1fa27cf8, q, x, 46);
    b := HH(b, c, d, a, x[2], S34, 0xc4ac5665, q, x, 47);
  }

  method Round4(a0: Word, b0: Word, c0: Word, d0: Word, x: seq<Word>, ghost q: Quad)
      returns (a: Word, b: Word, c: Word, d: Word)
    requires |x| == 16 && After(q, x, 48) == Quad(a0, b0, c0, d0)
    ensures After(q, x, 64) == Quad(a, b, c, d)
  {
    hide After, F, G, H, I, T1, T2, T3;
    a, b, c, d := a0, b0, c0, d0;
    a := II(a, b, c, d, x[0], S41, 0xf4292244, q, x, 48);
    d := II(d, a, b, c, x[7], S42, 0x432aff97, q, x, 49);
    c := II(c, d, a, b, x[14], S43, 0xab9423a7, q, x, 50);
    b := II(b, c, d, a, x[5], S44, 0xfc93a039, q, x, 51);
    a := II(a, b, c, d, x[12], S41, 0x655b59c3, q, x, 52);
    d := II(d, a, b, c, x[3], S42, 0x8f0ccc92, q, x, 53);
    c := II(c, d, a, b, x[10], S43, 0xffeff47d, q, x, 54);
    b := II(b, c, d, a, x[1], S44, 0x85845dd1, q, x, 55);
    a := II(a, b, c, d, x[8], S41, 0x6fa87e4f, q, x, 56);
    d := II(d, a, b, c, x[15], S42, 0xfe2ce6e0, q, x, 57);
    c := II(c, d, a, b, x[6], S43, 0xa3014314, q, x, 58);
    b := II(b, c, d, a, x[13], S44, 0x4e0811a1, q, x, 59);
    a := II(a, b, c, d, x[4], S41, 0xf7537e82, q, x, 60);
    d := II(d, a, b, c, x[11], S42, 0xbd3af235, q, x, 61);
    c := II(c, d, a, b, x[2], S43, 0x2ad7d2bb, q, x, 62);
    b := II(b, c, d, a, x[9], S44, 0xeb86d391, q, x, 63);
  }

  method MD5_memcpy(output: array<Byte>, outOff: nat, input: array<Byte>, inOff: nat, len: nat)
    requires output != input && outOff + len <= output.Length && inOff + len <= input.Length
    modifies output
    ensures output[..] == old(output[..outOff]) + input[inOff..inOff + len] + old(output[outOff + len..])
  {
    for i := 0 to len
      invariant output[..outOff] == old(output[..outOff]) && output[outOff + i..] == old(output[outOff + i..])
      invariant output[outOff..outOff + i] == input[inOff..inOff + i]
    {
      output[outOff + i] := input[inOff + i];
    }
  }

  /** b0 | b1 << 8 | b2 << 16 | b3 << 24. */
  function Join4(b0: Byte, b1: Byte, b2: Byte, b3: Byte): (w: Word)
    ensures w == Word4([b0, b1, b2, b3])
  {
    JoinIsSum(b0, b1, b2, b3);
    Or(Or(Or(b0, ShiftLeft(b1, 8)), ShiftLeft(b2, 16)), ShiftLeft(b3, 24))
  }

  lemma {:induction false} OrCommutes(x: nat, y: nat)
    ensures Or(x, y) == Or(y, x)
  {
    if x > 0 || y > 0 {
      OrCommutes(x / 2, y / 2);
    }
  }

  lemma PowersOfBytes()
    ensures Pow2(8) == 0x100 && Pow2(16) == 0x1_0000 && Pow2(24) == 0x100_0000
  {
    assert Pow2(4) == 16;
    PowSum(4, 4);
    PowSum(8, 8);
    PowSum(8, 16);
  }

  lemma ByteShifts(b1: Byte, b2: Byte, b3: Byte)
    ensures ShiftLeft(b1, 8) == b1 * Pow2(8) && ShiftLeft(b2, 16) == b2 * Pow2(16) && ShiftLeft(b3, 24) == b3 * Pow2(24)
  {
    PowersOfBytes();
  }

  lemma JoinIsSum(b0: Byte, b1: Byte, b2: Byte, b3: Byte)
    ensures Or(Or(Or(b0, ShiftLeft(b1, 8)), ShiftLeft(b2, 16)), ShiftLeft(b3, 24)) == Word4([b0, b1, b2, b3])
  {
    hide Or, Pow2, ShiftLeft;
    PowersOfBytes();
    ByteShifts(b1, b2, b3);
    var w1: nat := b0 + 0x100 * (b1 as int);
    var w2: nat := w1 + 0x1_0000 * (b2 as int);
    OrOfParts(b1, 8, b0);
    OrCommutes(b0, ShiftLeft(b1, 8));
    OrOfParts(b2, 16, w1);
    OrCommutes(w1, ShiftLeft(b2, 16));
    OrOfParts(b3, 24, w2);
    OrCommutes(w2, ShiftLeft(b3, 24));
  }

  /** Words of the bytes input[off..off + len]. */
  method Decode(output: array<Word>, input: array<Byte>, off: nat, len: nat)
    requires len % 4 == 0 && len / 4 <= output.Length && off + len <= input.Length
    modifies output
    ensures output[..len / 4] == Words(input[off..off + len])
  {
    hide Join4, Word4;
    var i, j := 0, 0;
    ghost var s := input[off..off + len];
    while j < len
      invariant j == 4 * i <= len
      invariant forall k :: 0 <= k < i ==> output[k] == Words(s)[k]
    {
      var b0, b1, b2, b3 := input[off + j], input[off + j + 1], input[off + j + 2], input[off + j + 3];
      assert s[4 * i..4 * i + 4] == [b0, b1, b2, b3];
      output[i] := Join4(b0, b1, b2, b3);
      i, j := i + 1, j + 4;
    }
  }

  /** Bytes of the first words of input. */
  method Encode(output: array<Byte>, input: array<Word>, len: nat)
    requires len % 4 == 0 && len / 4 <= input.Length && len <= output.Length
    modifies output
    ensures output[..len] == Bytes(input[..len / 4])
  {
    hide Bytes4;
    var i, j := 0, 0;
    while j < len
      invariant j == 4 * i <= len
      invariant output[..j] == Bytes(input[..i])
    {
      Put4(output, j, input[i]);
      assert input[..i + 1][..i] == input[..i];
      i, j := i + 1, j + 4;
    }
  }

  lemma BytesOfWord(w: Word)
    ensures Bytes4(w) == [ByteAt(w, 0), ByteAt(w, 8), ByteAt(w, 16), ByteAt(w, 24)]
  {
    hide ByteAt;
    PowersOfBytes();
  }

  method Put4(output: array<Byte>, j: nat, w: Word)
    requires j + 4 <= output.Length
    modifies output
    ensures output[..j + 4] == old(output[..j]) + Bytes4(w)
  {
    hide ByteAt, Bytes4;
    BytesOfWord(w);
    output[j] := ByteAt(w, 0);
    output[j + 1] := ByteAt(w, 8);
    output[j + 2] := ByteAt(w, 16);
    output[j + 3] := ByteAt(w, 24);
    assert output[j..j + 4] == Bytes4(w);
    assert output[..j + 4] == output[..j] + output[j..j + 4];
  }

  /** The sum i + 63 of the block loop stays within 32 bits up to the last block. */
  predicate NoWrap(partLen: nat, inputLen: nat) {
    partLen <= inputLen ==> partLen + (inputLen - partLen) / 64 * 64 + 63 < TWO32
  }

  lemma NoWrapBelow(partLen: nat, inputLen: nat)
    requires inputLen <= 0xFFFF_FFC0
    ensures NoWrap(partLen, inputLen)
  {
  }

  /** The loop test in 32-bit arithmetic tells whether a whole block is left, unless the sum wraps; after the last whole
      block it wraps exactly when NoWrap fails. */
  lemma LoopTest(i: nat, inputLen: nat)
    requires i <= inputLen < TWO32
    ensures i + 63 < TWO32 ==> ((i + 63) % TWO32 < inputLen <==> i + 64 <= inputLen)
    ensures inputLen < i + 64 ==> ((i + 63) % TWO32 < inputLen <==> i + 63 >= TWO32)
  {
  }

  lemma LoopTestHolds(partLen: nat, i: nat, j: nat, inputLen: nat)
    requires partLen <= inputLen < TWO32 && NoWrap(partLen, inputLen) && i == partLen + 64 * j <= inputLen
    ensures (i + 63) % TWO32 < inputLen <==> i + 64 <= inputLen
  {
    var last := (inputLen - partLen) / 64;
    assert j <= last;
    LoopTest(i, inputLen);
  }

  lemma ModOf64(a: nat, r: nat)
    ensures (64 * a + r) % 64 == r % 64
  {
  }

  lemma Index(n: nat)
    ensures ((8 * n) % TWO32 / 8) % 64 == n % 64
  {
    var k, r := n / 0x2000_0000, n % 0x2000_0000;
    assert 8 * n == TWO32 * k + 8 * r && 0 <= 8 * r < TWO32;
    assert (8 * n) % TWO32 == 8 * r;
    assert n == 64 * (0x80_0000 * k) + r;
    ModOf64(0x80_0000 * k, r);
  }

  lemma Tail(n: nat, k: nat, r: nat)
    requires n == 64 * k + r && r < 64
    ensures n / 64 == k && n % 64 == r
  {
  }

  /** The number of processed bits, as two words, after len more bytes: the carry goes to the upper word. */
  lemma CountUpdate(n: nat, len: nat, c0: Word, c1: Word)
    requires len < TWO32 && [c0, c1] == BitCount(n)
    ensures var shifted := (len * 8) % TWO32; var low := (c0 + shifted) % TWO32;
      var high := ((if low < shifted then c1 + 1 else c1) % TWO32 + len / 0x2000_0000) % TWO32;
      [low, high] == BitCount(n + len)
  {
    assert c0 == BitCount(n)[0] && c1 == BitCount(n)[1];
    var h, l := 8 * n / TWO32, len / 0x2000_0000;
    var shifted := (len * 8) % TWO32;
    assert 8 * len == l * TWO32 + shifted;
    var carry := if c0 + shifted >= TWO32 then 1 else 0;
    Sum(h, l, c0, shifted);
    ModSum(h, carry, l);
  }

  lemma ModSum(h: int, carry: int, l: int)
    ensures ((h % TWO32 + carry) % TWO32 + l) % TWO32 == (h + l + carry) % TWO32
  {
  }

  lemma SameSlice(u: seq<Byte>, p: nat, q: nat, s: seq<Byte>, b: nat, d: nat, n: nat)
    requires p <= q <= |u| && b <= |s| && u[p..q] == s[b..] && d + n <= q - p
    ensures u[p + d..p + d + n] == s[b + d..b + d + n]
  {
    var x, y := u[p + d..p + d + n], s[b + d..b + d + n];
    forall i | 0 <= i < n ensures x[i] == y[i] {
      assert x[i] == u[p..q][d + i] && y[i] == s[b..][d + i];
    }
  }

  lemma Sum(h: int, l: int, c0: int, s: int)
    requires 0 <= c0 < TWO32 && 0 <= s < TWO32
    ensures var n := (h * TWO32 + c0) + (l * TWO32 + s); var carry := if c0 + s >= TWO32 then 1 else 0;
      && n / TWO32 == h + l + carry && n % TWO32 == (c0 + s) % TWO32
      && ((c0 + s) % TWO32 < s <==> carry == 1)
  {
  }

  lemma AfterNone(q: Quad, x: seq<Word>)
    requires |x| == 16
    ensures After(q, x, 0) == q
  {
  }

  class MD5_CTX {
    const state: array<Word>
    const count: array<Word>
    const buffer: array<Byte>
    // the bytes taken in so far
    ghost var m: seq<Byte>

    ghost predicate Separate() {
      && state.Length == 4 && count.Length == 2 && buffer.Length == 64
      && state != count
    }

    ghost function State(): Quad
      requires Separate()
      reads state
    {
      Quad(state[0], state[1], state[2], state[3])
    }

    /** The count is the number of bits, the buffer starts with the unprocessed tail, the state is the fold over the
        complete blocks. */
    ghost predicate Valid()
      reads this, state, count, buffer
    {
      && Separate()
      && count[..] == BitCount(|m|)
      && buffer[..|m| % 64] == m[|m| - |m| % 64..]
      && State() == Fold(m, |m| / 64)
    }

    /** MD5Init. */
    constructor ()
      ensures Valid() && m == [] && fresh(state) && fresh(count) && fresh(buffer)
    {
      state := new Word[] [0x67452301, 0xefcdab89, 0x98badcfe, 0x10325476];
      count := new Word[] [0, 0];
      buffer := new Byte[64];
      m := [];
    }

    method MD5Transform(block: array<Byte>, off: nat)
      requires Separate() && off + 64 <= block.Length
      modifies state
      ensures State() == Compress(old(State()), block[off..off + 64])
    {
      hide After, Words;
      var x := new Word[16];
      Decode(x, block, off, 64);
      var xs := x[..];
      ghost var q := State();
      assert xs == Words(block[off..off + 64]);
      AfterNone(q, xs);
      var a, b, c, d := Round1(state[0], state[1], state[2], state[3], xs, q);
      a, b, c, d := Round2(a, b, c, d, xs, q);
      a, b, c, d := Round3(a, b, c, d, xs, q);
      a, b, c, d := Round4(a, b, c, d, xs, q);
      state[0] := Add(state[0], a);
      state[1] := Add(state[1], b);
      state[2] := Add(state[2], c);
      state[3] := Add(state[3], d);
    }

    /** The new count words. */
    method AddCount(inputLen: nat)
      requires Separate() && inputLen < TWO32 && count[..] == BitCount(|m|)
      modifies count
      ensures count[..] == BitCount(|m| + inputLen)
    {
      hide BitCount;
      assert count[..] == [count[0], count[1]];
      CountUpdate(|m|, inputLen, count[0], count[1]);
      var shifted := (inputLen * 8) % TWO32;
      count[0] := (count[0] + shifted) % TWO32;
      if count[0] < shifted {
        count[1] := (count[1] + 1) % TWO32;
      }
      count[1] := (count[1] + inputLen / 0x2000_0000) % TWO32;
      assert count[..] == [count[0], count[1]];
    }

    /** The blocks that are complete in the input itself, from i on. */
    method TransformBlocks(input: array<Byte>, partLen: nat, inputLen: nat, ghost s: seq<Byte>, ghost k0: nat)
        returns (i: nat)
      requires Separate() && partLen <= inputLen <= input.Length && input != buffer
      requires inputLen < TWO32 && NoWrap(partLen, inputLen)
      requires 64 * k0 + inputLen - partLen == |s| && input[..][partLen..inputLen] == s[64 * k0..]
      requires State() == Fold(s, k0)
      modifies state
      ensures partLen <= i <= inputLen < i + 64 && State() == Fold(s, |s| / 64)
      ensures input[i..inputLen] == s[|s| - |s| % 64..] && inputLen - i == |s| % 64
    {
      hide Compress, NoWrap, Fold;
      i := partLen;
      ghost var k := k0;
      LoopTestHolds(partLen, i, 0, inputLen);
      while (i + 63) % TWO32 < inputLen
        invariant partLen <= i <= inputLen && i == partLen + 64 * (k - k0) && k0 <= k
        invariant (i + 63) % TWO32 < inputLen <==> i + 64 <= inputLen
        invariant State() == Fold(s, k)
      {
        SameSlice(input[..], partLen, inputLen, s, 64 * k0, i - partLen, 64);
        assert input[..][i..i + 64] == input[i..i + 64];
        MD5Transform(input, i);
        FoldOne(s, k, input[i..i + 64]);
        i, k := i + 64, k + 1;
        LoopTestHolds(partLen, i, k - k0, inputLen);
      }
      SameSlice(input[..], partLen, inputLen, s, 64 * k0, i - partLen, inputLen - i);
      assert input[..][i..inputLen] == input[i..inputLen];
      Tail(|s|, k, inputLen - i);
    }

    /** The first block is completed in the buffer, the others are taken from the input. */
    method FillAndTransform(input: array<Byte>, inputLen: nat, index: nat, ghost s: seq<Byte>) returns (i: nat)
      requires Separate() && inputLen <= input.Length && input != buffer && inputLen < TWO32
      requires index == |m| % 64 && 64 - index <= inputLen && NoWrap(64 - index, inputLen)
      requires buffer[..index] == m[|m| - index..] && State() == Fold(m, |m| / 64)
      requires s == m + input[..inputLen]
      modifies state, buffer
      ensures i <= inputLen && State() == Fold(s, |s| / 64)
      ensures input[i..inputLen] == s[|s| - |s| % 64..] && inputLen - i == |s| % 64
    {
      hide Fold, Compress, NoWrap;
      var partLen := 64 - index;
      ghost var k := |m| / 64;
      FoldPrefix(m, input[..inputLen], k);
      MD5_memcpy(buffer, index, input, 0, partLen);
      assert buffer[..] == s[64 * k..64 * k + 64];
      MD5Transform(buffer, 0);
      FoldOne(s, k, buffer[0..64]);
      assert input[..][partLen..inputLen] == s[64 * (k + 1)..];
      i := TransformBlocks(input, partLen, inputLen, s, k + 1);
    }

    /** The incomplete last block goes to the buffer. */
    method StoreTail(input: array<Byte>, index: nat, i: nat, inputLen: nat, ghost s: seq<Byte>)
      requires Separate() && i <= inputLen <= input.Length && input != buffer && index + (inputLen - i) == |s| % 64
      requires s[|s| - |s| % 64..] == buffer[..index] + input[i..inputLen]
      requires count[..] == BitCount(|s|) && State() == Fold(s, |s| / 64)
      modifies this`m, buffer
      ensures Valid() && m == s
    {
      hide Fold, BitCount;
      MD5_memcpy(buffer, index, input, i, inputLen - i);
      m := s;
    }

    /** MD5Update: takes in the first inputLen bytes of input. */
    method MD5Update(input: array<Byte>, inputLen: nat)
      requires Valid() && inputLen <= input.Length && input != buffer && inputLen < TWO32
      requires NoWrap(64 - |m| % 64, inputLen)
      modifies this`m, state, count, buffer
      ensures Valid() && m == old(m) + input[..inputLen]
    {
      hide Fold, Compress, NoWrap;
      Index(|m|);
      var index := BufferIndex(count[0]);
      AddCount(inputLen);
      ghost var s := m + input[..inputLen];
      var partLen := 64 - index;
      var i := 0;
      if inputLen >= partLen {
        i := FillAndTransform(input, inputLen, index, s);
        index := 0;
      } else {
        FoldPrefix(m, input[..inputLen], |m| / 64);
        Tail(|s|, |m| / 64, index + inputLen);
        assert s[|s| - |s| % 64..] == buffer[..index] + input[..inputLen];
      }
      assert s[|s| - |s| % 64..] == buffer[..index] + input[i..inputLen];
      StoreTail(input, index, i, inputLen, s);
    }

    /** Pads out to 56 modulo 64. */
    method AppendZeros()
      requires Valid()
      modifies this`m, state, count, buffer
      ensures Valid() && m == old(m) + ([0x80] + Zeros(Filler(|old(m)|)))
    {
      hide Fold, BitCount, NoWrap, Zeros;
      CountIndex();
      var index := BufferIndex(count[0]);
      var padLen := if index < 56 then 56 - index else 120 - index;
      var padding := new Byte[64](i => if i == 0 then 0x80 else 0);
      PaddingParts(|m|, padding[..], padLen);
      assert padding[..][..padLen] == padding[..padLen];
      NoWrapBelow(64 - |m| % 64, padLen);
      MD5Update(padding, padLen);
    }

    /** Pads out to 56 modulo 64, then appends the length before padding. */
    method AppendPadding()
      requires Valid()
      modifies this`m, state, count, buffer
      ensures Valid() && m == Pad(old(m))
    {
      hide Fold, Bytes, BitCount, NoWrap, Pad, Zeros;
      var bits := new Byte[8];
      Encode(bits, count, 8);
      assert count[..2] == count[..];
      AppendZeros();
      NoWrapBelow(64 - |m| % 64, 8);
      MD5Update(bits, 8);
      PadIs(old(m), bits[..8]);
    }

    /** MD5Final: the digest of all bytes taken in; the context is wiped. */
    method MD5Final(digest: array<Byte>)
      requires Valid() && digest.Length >= 16 && digest != buffer
      modifies this`m, state, count, buffer, digest
      ensures digest[..16] == Digest(old(m))
      ensures forall k :: 0 <= k < 64 ==> buffer[k] == 0
      ensures (forall k :: 0 <= k < 4 ==> state[k] == 0) && count[0] == count[1] == 0
    {
      hide Fold, Bytes, BitCount, Pad;
      AppendPadding();
      assert state[..4] == [state[0], state[1], state[2], state[3]];
      Encode(digest, state, 16);
      Wipe();
    }

    lemma CountIndex()
      requires Valid()
      ensures (count[0] / 8) % 64 == |m| % 64
    {
      Index(|m|);
    }

    method Wipe()
      requires Separate()
      modifies state, count, buffer
      ensures forall k :: 0 <= k < 64 ==> buffer[k] == 0
      ensures (forall k :: 0 <= k < 4 ==> state[k] == 0) && count[0] == count[1] == 0
    {
      forall k | 0 <= k < 64 {
        buffer[k] := 0;
      }
      forall k | 0 <= k < 4 {
        state[k] := 0;
      }
      count[0], count[1] := 0, 0;
    }
  }

  lemma PadIs(m: seq<Byte>, bits: seq<Byte>)
    requires bits == Bytes(BitCount(|m|))
    ensures m + ([0x80] + Zeros(Filler(|m|))) + bits == Pad(m)
  {
  }

  lemma PaddingParts(n: nat, padding: seq<Byte>, padLen: nat)
    requires |padding| == 64 && padding[0] == 0x80 && forall k :: 0 < k < 64 ==> padding[k] == 0
    requires padLen == if n % 64 < 56 then 56 - n % 64 else 120 - n % 64
    ensures padding[..padLen] == [0x80] + Zeros(Filler(n))
  {
  }

  lemma FoldOne(s: seq<Byte>, k: nat, block: seq<Byte>)
    requires 64 * k + 64 <= |s| && block == s[64 * k..64 * k + 64]
    ensures Fold(s, k + 1) == Compress(Fold(s, k), block)
  {
    hide Compress;
  }
}
