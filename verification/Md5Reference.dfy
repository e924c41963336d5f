/** MD5 as sections 3.1 to 3.5 of RFC 1321 define it: the message is a byte string, the words are numbers below 2^32. */
module Md5Reference {
  import opened Basics

  const TWO32 := 0x1_0000_0000

  type Word = w: int | 0 <= w < 0x1_0000_0000

  datatype Quad = Quad(a: Word, b: Word, c: Word, d: Word)

  function Add(x: int, y: int): Word {
    (x + y) % TWO32
  }

  // ----- section 3.4: the auxiliary functions, bit by bit

  function BitsF(x: bv32, y: bv32, z: bv32): bv32 {
    (x & y) | (!x & z)
  }

  function BitsG(x: bv32, y: bv32, z: bv32): bv32 {
    (x & z) | (y & !z)
  }

  function BitsH(x: bv32, y: bv32, z: bv32): bv32 {
    x ^ y ^ z
  }

  function BitsI(x: bv32, y: bv32, z: bv32): bv32 {
    y ^ (x | !z)
  }

  function F(x: Word, y: Word, z: Word): Word {
    BitsF(x as bv32, y as bv32, z as bv32) as int
  }

  function G(x: Word, y: Word, z: Word): Word {
    BitsG(x as bv32, y as bv32, z as bv32) as int
  }

  function H(x: Word, y: Word, z: Word): Word {
    BitsH(x as bv32, y as bv32, z as bv32) as int
  }

  function I(x: Word, y: Word, z: Word): Word {
    BitsI(x as bv32, y as bv32, z as bv32) as int
  }

  function Pow2(n: nat): (p: nat)
    ensures p > 0
  {
    if n == 0 then 1 else 2 * Pow2(n - 1)
  }

  /** x <<< n: the two parts have no bit in common, so their union is their sum. */
  function RotateLeft(x: Word, n: nat): Word
    requires 0 < n < 32
  {
    Shifts(n);
    RotateParts(x, Pow2(n), Pow2(32 - n));
    (x * Pow2(n)) % TWO32 + x / Pow2(32 - n)
  }

  /** The function of step i, counted from 0. */
  function Fun(i: nat, x: Word, y: Word, z: Word): Word {
    if i < 16 then F(x, y, z) else if i < 32 then G(x, y, z) else if i < 48 then H(x, y, z) else I(x, y, z)
  }

  /** The word of the block used in step i. */
  function K(i: nat): (k: nat)
    ensures k < 16
  {
    if i < 16 then i else if i < 32 then (1 + 5 * i) % 16 else if i < 48 then (5 + 3 * i) % 16 else (7 * i) % 16
  }

  /** The rotation of step i. */
  function S(i: nat): (s: nat)
    ensures 0 < s < 32
  {
    if i < 16 then (match i % 4 case 0 => 7 case 1 => 12 case 2 => 17 case _ => 22)
    else if i < 32 then (match i % 4 case 0 => 5 case 1 => 9 case 2 => 14 case _ => 20)
    else if i < 48 then (match i % 4 case 0 => 4 case 1 => 11 case 2 => 16 case _ => 23)
    else (match i % 4 case 0 => 6 case 1 => 10 case 2 => 15 case _ => 21)
  }

  /** The integer part of 2^32 times abs(sin(i + 1)). */
  function T(i: nat): Word {
    if i < 16 then T1(i) else if i < 32 then T2(i - 16) else if i < 48 then T3(i - 32) else T4(i - 48)
  }

  function T1(i: nat): Word {
    match i
    case 0 => 0xd76aa478  case 1 => 0xe8c7b756  case 2 => 0x242070db  case 3 => 0xc1bdceee
    case 4 => 0xf57c0faf  case 5 => 0x4787c62a  case 6 => 0xa8304613  case 7 => 0xfd469501
    case 8 => 0x698098d8  case 9 => 0x8b44f7af  case 10 => 0xffff5bb1  case 11 => 0x895cd7be
    case 12 => 0x6b901122  case 13 => 0xfd987193  case 14 => 0xa679438e  case _ => 0x49b40821
  }

  function T2(i: nat): Word {
    match i
    case 0 => 0xf61e2562  case 1 => 0xc040b340  case 2 => 0x265e5a51  case 3 => 0xe9b6c7aa
    case 4 => 0xd62f105d  case 5 => 0x02441453  case 6 => 0xd8a1e681  case 7 => 0xe7d3fbc8
    case 8 => 0x21e1cde6  case 9 => 0xc33707d6  case 10 => 0xf4d50d87  case 11 => 0x455a14ed
    case 12 => 0xa9e3e905  case 13 => 0xfcefa3f8  case 14 => 0x676f02d9  case _ => 0x8d2a4c8a
  }

  function T3(i: nat): Word {
    match i
    case 0 => 0xfffa3942  case 1 => 0x8771f681  case 2 => 0x6d9d6122  case 3 => 0xfde5380c
    case 4 => 0xa4beea44  case 5 => 0x4bdecfa9  case 6 => 0xf6bb4b60  case 7 => 0xbebfbc70
    case 8 => 0x289b7ec6  case 9 => 0xeaa127fa  case 10 => 0xd4ef3085  case 11 => 0x04881d05
    case 12 => 0xd9d4d039  case 13 => 0xe6db99e5  case 14 => 0x1fa27cf8  case _ => 0xc4ac5665
  }

  function T4(i: nat): Word {
    match i
    case 0 => 0xf4292244  case 1 => 0x432aff97  case 2 => 0xab9423a7  case 3 => 0xfc93a039
    case 4 => 0x655b59c3  case 5 => 0x8f0ccc92  case 6 => 0xffeff47d  case 7 => 0x85845dd1
    case 8 => 0x6fa87e4f  case 9 => 0xfe2ce6e0  case 10 => 0xa3014314  case 11 => 0x4e0811a1
    case 12 => 0xf7537e82  case 13 => 0xbd3af235  case 14 => 0x2ad7d2bb  case _ => 0xeb86d391
  }

  /** Step i: a = b + ((a + Fun(b,c,d) + X[K] + T) <<< s), after which the four words change roles. */
  function Step(q: Quad, x: seq<Word>, i: nat): Quad
    requires |x| == 16
  {
    var sum := (q.a + (Fun(i, q.b, q.c, q.d) + x[K(i)] + T(i))) % TWO32;
    Quad(q.d, Add(q.b, RotateLeft(sum, S(i))), q.b, q.c)
  }

  function After(q: Quad, x: seq<Word>, i: nat): Quad
    requires |x| == 16
  {
    if i == 0 then q else Step(After(q, x, i - 1), x, i - 1)
  }

  // ----- bytes and words, low-order byte first

  function Word4(s: seq<Byte>): Word
    requires |s| == 4
  {
    var b0: int, b1: int, b2: int, b3: int := s[0], s[1], s[2], s[3];
    b0 + 0x100 * b1 + 0x1_0000 * b2 + 0x100_0000 * b3
  }

  function Bytes4(w: Word): seq<Byte> {
    [w % 0x100, (w / 0x100) % 0x100, (w / 0x1_0000) % 0x100, w / 0x100_0000]
  }

  function Words(s: seq<Byte>): (ws: seq<Word>)
    requires |s| % 4 == 0
    ensures |ws| == |s| / 4 && forall k :: 0 <= k < |ws| ==> ws[k] == Word4(s[4 * k..4 * k + 4])
  {
    seq(|s| / 4, k requires 0 <= k < |s| / 4 => Word4(s[4 * k..4 * k + 4]))
  }

  function Bytes(ws: seq<Word>): (s: seq<Byte>)
    ensures |s| == 4 * |ws|
  {
    if ws == [] then [] else Bytes(ws[..|ws| - 1]) + Bytes4(ws[|ws| - 1])
  }

  // ----- sections 3.1 to 3.5

  const INITIAL := Quad(0x67452301, 0xefcdab89, 0x98badcfe, 0x10325476)

  function Compress(q: Quad, block: seq<Byte>): Quad
    requires |block| == 64
  {
    var r := After(q, Words(block), 64);
    Quad(Add(q.a, r.a), Add(q.b, r.b), Add(q.c, r.c), Add(q.d, r.d))
  }

  /** The state after the first k blocks of s. */
  function Fold(s: seq<Byte>, k: nat): Quad
    requires 64 * k <= |s|
  {
    if k == 0 then INITIAL else Compress(Fold(s, k - 1), s[64 * k - 64..64 * k])
  }

  function Zeros(n: nat): seq<Byte> {
    seq(n, _ => 0)
  }

  /** The number of bits of the message, modulo 2^64, as two words. */
  function BitCount(n: nat): (ws: seq<Word>)
    ensures |ws| == 2
  {
    [(8 * n) % TWO32, ((8 * n) / TWO32) % TWO32]
  }

  /** The fewest zero bytes that, after n bytes and the one with the first bit of the padding, lead to 56 modulo 64. */
  function Filler(n: nat): (z: nat)
    ensures z < 64 && (n + 1 + z) % 64 == 56
  {
    if n % 64 < 56 then 55 - n % 64 else 119 - n % 64
  }

  /** One bit 1 and zeros up to 56 modulo 64 bytes, then the length. */
  function Pad(m: seq<Byte>): (p: seq<Byte>)
    ensures |p| == |m| + 1 + Filler(|m|) + 8 && |p| % 64 == 0
  {
    m + [0x80] + Zeros(Filler(|m|)) + Bytes(BitCount(|m|))
  }

  function Digest(m: seq<Byte>): seq<Byte> {
    var q := Fold(Pad(m), |Pad(m)| / 64);
    Bytes([q.a, q.b, q.c, q.d])
  }

  // ----- facts

  /** Section 3.3 gives the initial state as the bytes of its words, low-order bytes first. */
  lemma InitialBytes()
    ensures Bytes4(INITIAL.a) + Bytes4(INITIAL.b) == [0x01, 0x23, 0x45, 0x67, 0x89, 0xab, 0xcd, 0xef]
    ensures Bytes4(INITIAL.c) + Bytes4(INITIAL.d) == [0xfe, 0xdc, 0xba, 0x98, 0x76, 0x54, 0x32, 0x10]
  {
  }

  /** F takes the bits of y where x has ones, and those of z elsewhere. */
  lemma ChoiceOfF(x: bv32, y: bv32, z: bv32)
    ensures x & BitsF(x, y, z) == x & y && !x & BitsF(x, y, z) == !x & z
  {
  }

  /** G takes the bits of x where z has ones, and those of y elsewhere. */
  lemma ChoiceOfG(x: bv32, y: bv32, z: bv32)
    ensures z & BitsG(x, y, z) == z & x && !z & BitsG(x, y, z) == !z & y
  {
  }

  /** H is the parity: where x has ones, the complement of the difference of y and z, elsewhere the difference. */
  lemma ParityOfH(x: bv32, y: bv32, z: bv32)
    ensures x & BitsH(x, y, z) == x & !(y ^ z) && !x & BitsH(x, y, z) == !x & (y ^ z)
  {
  }

  /** I complements y where x has ones, and the difference of y and z elsewhere. */
  lemma ChoiceOfI(x: bv32, y: bv32, z: bv32)
    ensures x & BitsI(x, y, z) == x & !y && !x & BitsI(x, y, z) == !x & !(y ^ z)
  {
  }

  lemma {:induction false} PowSum(m: nat, n: nat)
    ensures Pow2(m + n) == Pow2(m) * Pow2(n)
  {
    if m == 0 {
    } else {
      PowSum(m - 1, n);
      var x, y := Pow2(m - 1), Pow2(n);
      assert (2 * x) * y == 2 * (x * y);
    }
  }

  lemma Pow32()
    ensures Pow2(32) == TWO32
  {
    assert Pow2(4) == 16;
    PowSum(4, 4);
    PowSum(8, 8);
    PowSum(16, 16);
  }

  lemma Shifts(n: nat)
    requires n <= 32
    ensures Pow2(n) * Pow2(32 - n) == TWO32
  {
    hide Pow2;
    PowSum(n, 32 - n);
    Pow32();
  }

  lemma Multiple(x: int, m: int)
    requires 0 < m && -m < x * m < m
    ensures x == 0
  {
    assert x >= 1 ==> (x - 1) * m >= 0;
    assert x <= -1 ==> (-1 - x) * m >= 0;
  }

  lemma DivMod(k: nat, m: nat, r: nat)
    requires r < m
    ensures (k * m + r) / m == k && (k * m + r) % m == r
  {
    var n := k * m + r;
    assert n == (n / m) * m + n % m;
    assert (n / m - k) * m == (n / m) * m - k * m;
    Multiple(n / m - k, m);
  }

  lemma RotateParts(x: Word, p: nat, q: nat)
    requires p * q == TWO32
    ensures 0 < q && x / q < p && (x * p) % TWO32 == (x % q) * p && (x % q) * p + x / q < TWO32
  {
    var h, l := x / q, x % q;
    assert x == h * q + l;
    Below(h, q, p);
    assert x * p == h * (p * q) + l * p;
    assert l * p <= (q - 1) * p == TWO32 - p;
    DivMod(h, TWO32, l * p);
  }

  lemma Below(h: nat, q: nat, p: nat)
    requires h * q < p * q
    ensures h < p
  {
    assert h >= p ==> (h - p) * q >= 0;
  }

  // ----- a step can be undone

  function RotateRight(y: Word, n: nat): Word
    requires 0 < n < 32
  {
    Shifts(n);
    RotateParts(y, Pow2(32 - n), Pow2(n));
    y / Pow2(n) + (y * Pow2(32 - n)) % TWO32
  }

  lemma RotateBack(x: Word, n: nat)
    requires 0 < n < 32
    ensures RotateRight(RotateLeft(x, n), n) == x && RotateLeft(RotateRight(x, n), n) == x
  {
    Shifts(n);
    RotatePartsBack(x, Pow2(n), Pow2(32 - n));
    RotatePartsBack(x, Pow2(32 - n), Pow2(n));
  }

  /** Exchanging the two parts of a word twice gives it back. */
  lemma RotatePartsBack(x: Word, p: nat, q: nat)
    requires p * q == TWO32
    ensures 0 < p && 0 < q
    ensures var y := (x * p) % TWO32 + x / q; 0 <= y < TWO32 && y / p + (y * q) % TWO32 == x
  {
    RotateParts(x, p, q);
    Exchanged(x, (x * p) % TWO32 + x / q, p, q, x / q, x % q);
  }

  lemma Exchanged(x: Word, y: Word, p: nat, q: nat, h: nat, l: nat)
    requires 0 < q && q * p == TWO32 && x == h * q + l && y == l * p + h && h < p
    ensures 0 < p && y / p + (y * q) % TWO32 == x
  {
    RotateParts(y, q, p);
    DivMod(l, p, h);
  }

  lemma Undo(a: Word, k: int)
    ensures ((a + k) % TWO32 - k) % TWO32 == a && ((a - k) % TWO32 + k) % TWO32 == a
  {
  }

  function Unstep(q: Quad, x: seq<Word>, i: nat): Quad
    requires |x| == 16
  {
    var sum := RotateRight((q.b - q.c) % TWO32, S(i));
    Quad((sum - (Fun(i, q.c, q.d, q.a) + x[K(i)] + T(i))) % TWO32, q.c, q.d, q.a)
  }

  lemma StepBack(q: Quad, x: seq<Word>, i: nat)
    requires |x| == 16
    ensures Unstep(Step(q, x, i), x, i) == q && Step(Unstep(q, x, i), x, i) == q
  {
    StepForthBack(q, x, i);
    StepBackForth(q, x, i);
  }

  lemma StepForthBack(q: Quad, x: seq<Word>, i: nat)
    requires |x| == 16
    ensures Unstep(Step(q, x, i), x, i) == q
  {
    hide Fun, K, T, S, RotateLeft, RotateRight;
    var k := Fun(i, q.b, q.c, q.d) + x[K(i)] + T(i);
    var sum := (q.a + k) % TWO32;
    RotateBack(sum, S(i));
    Undo(q.a, k);
    Undo(RotateLeft(sum, S(i)), q.b);
    assert Step(q, x, i) == Quad(q.d, Add(q.b, RotateLeft(sum, S(i))), q.b, q.c);
  }

  lemma StepBackForth(q: Quad, x: seq<Word>, i: nat)
    requires |x| == 16
    ensures Step(Unstep(q, x, i), x, i) == q
  {
    hide Fun, K, T, S, RotateLeft, RotateRight;
    var sum := (q.b - q.c) % TWO32;
    RotateBack(sum, S(i));
    Undo(q.b, q.c);
    Undo(RotateRight(sum, S(i)), Fun(i, q.c, q.d, q.a) + x[K(i)] + T(i));
  }

  function Before(q: Quad, x: seq<Word>, i: nat): Quad
    requires |x| == 16
    decreases i
  {
    if i == 0 then q else Before(Unstep(q, x, i - 1), x, i - 1)
  }

  /** For a fixed block, the steps before the final additions are a bijection on the four-word state. */
  lemma {:induction false} StepsAreBijective(q: Quad, x: seq<Word>, i: nat)
    requires |x| == 16
    ensures Before(After(q, x, i), x, i) == q && After(Before(q, x, i), x, i) == q
    decreases i
  {
    hide Step, Unstep;
    if i == 0 {
    } else {
      StepBack(After(q, x, i - 1), x, i - 1);
      StepsAreBijective(q, x, i - 1);
      StepsAreBijective(Unstep(q, x, i - 1), x, i - 1);
      StepBack(q, x, i - 1);
    }
  }

  // ----- words and bytes undo each other; folding goes block by block

  lemma WordBytes(w: Word)
    ensures Word4(Bytes4(w)) == w
  {
    var w1, w2, w3 := w / 0x100, w / 0x1_0000, w / 0x100_0000;
    assert w1 == 0x100 * w2 + w1 % 0x100 by {
      assert w2 == w1 / 0x100;
    }
    assert w2 == 0x100 * w3 + w2 % 0x100 by {
      assert w3 == w2 / 0x100;
    }
  }

  lemma BytesWord(s: seq<Byte>)
    requires |s| == 4
    ensures Bytes4(Word4(s)) == s
  {
    FourBytes(s[0], s[1], s[2], s[3]);
  }

  lemma FourBytes(b0: Byte, b1: Byte, b2: Byte, b3: Byte)
    ensures Bytes4(Word4([b0, b1, b2, b3])) == [b0, b1, b2, b3]
  {
    var n: int, n1: int := b1 + 0x100 * (b2 as int) + 0x1_0000 * (b3 as int), b2 + 0x100 * (b3 as int);
    var w := Word4([b0, b1, b2, b3]);
    assert w == 0x100 * n + b0;
    assert n == 0x100 * n1 + b1;
    assert w / 0x100 == n && w / 0x1_0000 == n1;
  }

  lemma {:induction false} BytesAt(ws: seq<Word>, k: nat)
    requires k < |ws|
    ensures Bytes(ws)[4 * k..4 * k + 4] == Bytes4(ws[k])
  {
    hide Bytes4;
    var n := |ws| - 1;
    assert Bytes(ws)[..4 * n] == Bytes(ws[..n]) && Bytes(ws)[4 * n..] == Bytes4(ws[n]);
    if k < n {
      BytesAt(ws[..n], k);
      assert Bytes(ws)[4 * k..4 * k + 4] == Bytes(ws)[..4 * n][4 * k..4 * k + 4];
    }
  }

  /** Encode and Decode undo each other. */
  lemma WordsOfBytes(ws: seq<Word>)
    ensures Words(Bytes(ws)) == ws
  {
    forall k | 0 <= k < |ws| ensures Words(Bytes(ws))[k] == ws[k] {
      BytesAt(ws, k);
      WordBytes(ws[k]);
    }
  }

  /** Four bytes as a number, low-order byte first. */
  function LowFirst(b0: Byte, b1: Byte, b2: Byte, b3: Byte): int {
    b0 + 0x100 * ((b1 as int) + 0x100 * ((b2 as int) + 0x100 * (b3 as int)))
  }

  lemma FourOf(s: seq<Byte>, k: nat)
    requires 4 * k + 4 <= |s|
    ensures Word4(s[4 * k..4 * k + 4]) == LowFirst(s[4 * k], s[4 * k + 1], s[4 * k + 2], s[4 * k + 3])
  {
  }

  /** Words are read from bytes low-order byte first. */
  lemma WordsLowFirst(s: seq<Byte>, k: nat)
    requires |s| % 4 == 0 && k < |s| / 4
    ensures Words(s)[k] == LowFirst(s[4 * k], s[4 * k + 1], s[4 * k + 2], s[4 * k + 3])
  {
    FourOf(s, k);
  }

  /** And written to them in this order. */
  lemma BytesLowFirst(ws: seq<Word>, k: nat)
    requires k < |ws|
    ensures var b := Bytes(ws); ws[k] == LowFirst(b[4 * k], b[4 * k + 1], b[4 * k + 2], b[4 * k + 3])
  {
    BytesAt(ws, k);
    WordBytes(ws[k]);
    FourOf(Bytes(ws), k);
  }

  lemma Shifted(s: seq<Byte>, front: seq<Byte>, tail: seq<Byte>, k: nat, n: nat)
    requires s == front + tail && |front| + 4 * k == 4 * n && |s| % 4 == 0 && 4 * k + 4 <= |tail|
    ensures |tail| % 4 == 0 && Words(s)[n] == Words(tail)[k]
  {
    hide Word4;
    assert s[4 * n..4 * n + 4] == tail[4 * k..4 * k + 4];
  }

  lemma TailWords(s: seq<Byte>, front: seq<Byte>, ws: seq<Word>, k: nat, n: nat)
    requires s == front + Bytes(ws) && |front| + 4 * k == 4 * n && |s| % 4 == 0 && k < |ws|
    ensures Words(s)[n] == ws[k]
  {
    hide *;
    WordsOfBytes(ws);
    Shifted(s, front, Bytes(ws), k, n);
  }

  lemma TwoWords(n: nat)
    ensures BitCount(n)[0] + TWO32 * BitCount(n)[1] == (8 * n) % 0x1_0000_0000_0000_0000
  {
    var b := 8 * n;
    var h := b / TWO32;
    assert b == 0x1_0000_0000_0000_0000 * (h / TWO32) + (b % TWO32 + TWO32 * (h % TWO32));
  }

  /** The padded message is the message, a byte with the top bit set and zeros, */
  lemma PadFront(m: seq<Byte>)
    ensures var p := Pad(m); var n := |p| - 8;
      && |m| < n <= |m| + 64 && m <= p && p[|m|] == 0x80 && forall k :: |m| < k < n ==> p[k] == 0
  {
    hide Words, Bytes, Filler;
  }

  /** The last two words of p make up n modulo 2^64, low-order word first. */
  predicate EndsIn(p: seq<Byte>, n: nat) {
    && |p| % 4 == 0 && |p| >= 8
    && var ws := Words(p); ws[|ws| - 2] + TWO32 * ws[|ws| - 1] == n % 0x1_0000_0000_0000_0000
  }

  /** and behind them stands the length in bits. */
  lemma PadLength(m: seq<Byte>)
    ensures EndsIn(Pad(m), 8 * |m|)
  {
    hide EndsIn, Words, Bytes, BitCount, Filler;
    LastTwo(Pad(m), m + [0x80] + Zeros(Filler(|m|)), |m|);
  }

  lemma LastTwo(s: seq<Byte>, front: seq<Byte>, n: nat)
    requires s == front + Bytes(BitCount(n)) && |s| % 4 == 0
    ensures EndsIn(s, 8 * n)
  {
    hide BitCount, Words, Bytes;
    var ws, i := BitCount(n), |front| / 4;
    assert |front| == 4 * i && |s| == 4 * i + 8;
    TailWords(s, front, ws, 0, i);
    TailWords(s, front, ws, 1, i + 1);
    TwoWords(n);
  }

  lemma WordsOfPrefix(s: seq<Byte>, n: nat)
    requires |s| % 4 == 0 && n % 4 == 0 && n <= |s|
    ensures Words(s[..n]) == Words(s)[..n / 4]
  {
    forall k | 0 <= k < n / 4 ensures Words(s[..n])[k] == Words(s)[k] {
      assert s[..n][4 * k..4 * k + 4] == s[4 * k..4 * k + 4];
    }
  }

  lemma {:induction false} BytesOfWords(s: seq<Byte>)
    requires |s| % 4 == 0
    ensures Bytes(Words(s)) == s
    decreases |s|
  {
    hide Words, Word4, Bytes4;
    if s == [] {
    } else {
      var n, k := |s| - 4, |s| / 4 - 1;
      BytesOfWords(s[..n]);
      WordsOfPrefix(s, n);
      assert Words(s)[k] == Word4(s[4 * k..4 * k + 4]) && s[4 * k..4 * k + 4] == s[n..];
      BytesWord(s[n..]);
    }
  }

  lemma {:induction false} FoldPrefix(s: seq<Byte>, x: seq<Byte>, k: nat)
    requires 64 * k <= |s|
    ensures Fold(s + x, k) == Fold(s, k)
  {
    hide Compress;
    if k == 0 {
    } else {
      FoldPrefix(s, x, k - 1);
      assert (s + x)[64 * k - 64..64 * k] == s[64 * k - 64..64 * k];
    }
  }
}
