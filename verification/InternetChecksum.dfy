/** in_cksum (ping_api.c) against the one's complement checksum of section 1 of RFC 1071. */
module InternetChecksum {
  import opened Basics

  type Word16 = w: int | 0 <= w < 0x1_0000

  const INT_MAX := 0x7FFF_FFFF

  // ----- RFC 1071

  /** One's complement addition: the carry out of the top is added back at the bottom. */
  function OnesAdd(a: Word16, b: Word16): Word16 {
    if a + b < 0x1_0000 then a + b else a + b - 0xFFFF
  }

  function OnesSum(ws: seq<Word16>): Word16 {
    if ws == [] then 0 else OnesAdd(OnesSum(ws[..|ws| - 1]), ws[|ws| - 1])
  }

  function Checksum(ws: seq<Word16>): Word16 {
    0xFFFF - OnesSum(ws)
  }

  /** The 16-bit words of s as a little-endian machine reads them; a last odd byte is padded with a zero byte. */
  function LittleEndian(s: seq<Byte>): (ws: seq<Word16>)
    ensures |ws| == (|s| + 1) / 2
  {
    seq((|s| + 1) / 2, i requires 0 <= i < (|s| + 1) / 2 => Pair(s[2 * i], ByteAt(s, 2 * i + 1)))
  }

  /** The same words in network order. */
  function BigEndian(s: seq<Byte>): (ws: seq<Word16>)
    ensures |ws| == (|s| + 1) / 2
  {
    seq((|s| + 1) / 2, i requires 0 <= i < (|s| + 1) / 2 => Pair(ByteAt(s, 2 * i + 1), s[2 * i]))
  }

  function ByteAt(s: seq<Byte>, i: nat): Byte {
    if i < |s| then s[i] else 0
  }

  function Pair(low: Byte, high: Byte): Word16 {
    var l: int, h: int := low, high;
    l + 0x100 * h
  }

  // ----- plain sums and their folding

  function Sum(ws: seq<Word16>): nat {
    if ws == [] then 0 else Sum(ws[..|ws| - 1]) + ws[|ws| - 1]
  }

  /** The representative of n modulo 0xFFFF among 1 to 0xFFFF, or 0 for 0. */
  function Folded(n: nat): Word16 {
    if n == 0 then 0 else (n - 1) % 0xFFFF + 1
  }

  lemma FoldedAdd(n: nat, w: Word16)
    ensures OnesAdd(Folded(n), w) == Folded(n + w)
  {
  }

  lemma {:induction false} OnesSumIsFoldedSum(ws: seq<Word16>)
    ensures OnesSum(ws) == Folded(Sum(ws))
  {
    if ws == [] {
    } else {
      OnesSumIsFoldedSum(ws[..|ws| - 1]);
      FoldedAdd(Sum(ws[..|ws| - 1]), ws[|ws| - 1]);
    }
  }

  lemma {:induction false} SumBound(ws: seq<Word16>)
    ensures Sum(ws) <= 0xFFFF * |ws|
  {
    if ws == [] {
    } else {
      SumBound(ws[..|ws| - 1]);
    }
  }

  /** Two folds of a non-negative int are enough. */
  lemma TwoFolds(n: nat)
    requires n <= INT_MAX
    ensures var f := n / 0x1_0000 + n % 0x1_0000; (f + f / 0x1_0000) % 0x1_0000 == Folded(n)
  {
    var f := n / 0x1_0000 + n % 0x1_0000;
    assert n == f + 0xFFFF * (n / 0x1_0000);
    assert f <= 0x17FFE;
    SameFold(n, f, n / 0x1_0000);
  }

  lemma SameFold(n: nat, f: nat, k: nat)
    requires n == f + 0xFFFF * k && (f == 0 ==> k == 0)
    ensures Folded(n) == Folded(f)
  {
  }

  /** The int accumulator holds every sum of n words exactly when n is at most 32768. */
  lemma NoOverflowIff(n: nat)
    ensures (forall ws: seq<Word16> :: |ws| == n ==> Sum(ws) <= INT_MAX) <==> n <= 32768
  {
    if n <= 32768 {
      forall ws: seq<Word16> | |ws| == n ensures Sum(ws) <= INT_MAX {
        SumBound(ws);
      }
    } else {
      var ws: seq<Word16> := Ones(n);
      assert |ws| == n && Sum(ws) > INT_MAX;
    }
  }

  function Ones(n: nat): (ws: seq<Word16>)
    ensures |ws| == n && Sum(ws) == 0xFFFF * n
  {
    if n == 0 then []
    else
      var r := Ones(n - 1);
      assert (r + [0xFFFF])[..n - 1] == r;
      r + [0xFFFF]
  }

  // ----- the C function

  /** in_cksum on a little-endian machine, over the whole of buf. */
  method in_cksum(buf: array<Byte>) returns (answer: Word16)
    requires buf.Length <= 65537
    ensures answer == Checksum(LittleEndian(buf[..]))
  {
    hide OnesSum, Folded;
    ghost var ws := LittleEndian(buf[..]);
    var nleft, w := buf.Length, 0;
    var sum: int := 0;
    while nleft > 1
      invariant 0 <= nleft && 2 * w + nleft == buf.Length && 2 * w <= buf.Length
      invariant sum == Sum(ws[..w]) <= 0xFFFF * w
    {
      var u := Pair(buf[2 * w], buf[2 * w + 1]);
      assert ws[..w + 1][..w] == ws[..w] && ws[w] == u;
      sum := sum + u;
      assert sum <= INT_MAX;
      w := w + 1;
      nleft := nleft - 2;
    }
    if nleft == 1 {
      var u := Pair(buf[2 * w], 0);
      assert ws[..w + 1][..w] == ws[..w] && ws[w] == u;
      sum := sum + u;
      w := w + 1;
    }
    assert ws[..w] == ws && sum <= INT_MAX;
    OnesSumIsFoldedSum(ws);
    TwoFolds(sum);
    sum := sum / 0x1_0000 + sum % 0x1_0000;
    sum := sum + sum / 0x1_0000;
    answer := 0xFFFF - sum % 0x1_0000;
  }

  // ----- what the checksum is for

  lemma {:induction false} SumWith(ws: seq<Word16>, k: nat, w: Word16)
    requires k < |ws| && ws[k] == 0
    ensures Sum(ws[k := w]) == Sum(ws) + w
  {
    var n := |ws| - 1;
    if k < n {
      SumWith(ws[..n], k, w);
      assert ws[k := w][..n] == ws[..n][k := w];
    } else {
      assert ws[k := w][..n] == ws[..n];
    }
  }

  lemma Complement(n: nat)
    ensures Folded(n + (0xFFFF - Folded(n))) == 0xFFFF
  {
    var k := (n - 1) / 0xFFFF;
    assert n > 0 ==> n == 0xFFFF * k + Folded(n);
    assert n > 0 ==> n + (0xFFFF - Folded(n)) == 0xFFFF * (k + 1);
  }

  lemma StoredChecksumVerifies(ws: seq<Word16>, k: nat)
    requires k < |ws| && ws[k] == 0
    ensures Checksum(ws[k := Checksum(ws)]) == 0
  {
    var c := Checksum(ws);
    OnesSumIsFoldedSum(ws);
    OnesSumIsFoldedSum(ws[k := c]);
    SumWith(ws, k, c);
    Complement(Sum(ws));
  }

  /** The checksum written, low byte first, into a zeroed field at an even offset makes the checksum of the buffer 0. */
  lemma StoredBytesVerify(s: seq<Byte>, k: nat)
    requires 2 * k + 1 < |s| && s[2 * k] == 0 && s[2 * k + 1] == 0
    ensures var c := Checksum(LittleEndian(s));
      Checksum(LittleEndian(s[2 * k := c % 0x100][2 * k + 1 := c / 0x100])) == 0
  {
    var c := Checksum(LittleEndian(s));
    assert LittleEndian(s[2 * k := c % 0x100][2 * k + 1 := c / 0x100]) == LittleEndian(s)[k := c];
    StoredChecksumVerifies(LittleEndian(s), k);
  }

  function Swap(w: Word16): Word16 {
    w / 0x100 + 0x100 * (w % 0x100)
  }

  lemma SwapIsTimes256(w: Word16)
    ensures Swap(w) == 0x100 * w - 0xFFFF * (w / 0x100)
  {
  }

  /** A word other than 0 is determined by its residue modulo 0xFFFF. */
  lemma SameResidue(a: int, b: int, k: int)
    requires 0 < a <= 0xFFFF && 0 < b <= 0xFFFF && a - b == 0xFFFF * k
    ensures a == b
  {
  }

  lemma SwapOnesAdd(a: Word16, b: Word16)
    ensures OnesAdd(Swap(a), Swap(b)) == Swap(OnesAdd(a, b))
  {
    SwapIsTimes256(a);
    SwapIsTimes256(b);
    var s := OnesAdd(a, b);
    SwapIsTimes256(s);
    if a > 0 || b > 0 {
      var t := OnesAdd(Swap(a), Swap(b));
      var c := if a + b < 0x1_0000 then 0 else 1;
      var c' := if Swap(a) + Swap(b) < 0x1_0000 then 0 else 1;
      SameResidue(t, Swap(s), 0x100 * c - c' - a / 0x100 - b / 0x100 + s / 0x100);
    }
  }

  lemma {:induction false} SwapOnesSum(ws: seq<Word16>, ws': seq<Word16>)
    requires |ws| == |ws'| && forall i :: 0 <= i < |ws| ==> ws'[i] == Swap(ws[i])
    ensures OnesSum(ws') == Swap(OnesSum(ws))
  {
    if ws == [] {
    } else {
      var n := |ws| - 1;
      SwapOnesSum(ws[..n], ws'[..n]);
      SwapOnesAdd(OnesSum(ws[..n]), ws[n]);
    }
  }

  lemma SwapPair(low: Byte, high: Byte)
    ensures Pair(high, low) == Swap(Pair(low, high))
  {
  }

  lemma SwapComplement(w: Word16)
    ensures 0xFFFF - Swap(w) == Swap(0xFFFF - w)
  {
  }

  /** Byte order independence: the result in network order is the byte swap of the little-endian one. */
  lemma ByteOrderIndependent(s: seq<Byte>)
    ensures Checksum(BigEndian(s)) == Swap(Checksum(LittleEndian(s)))
  {
    hide Swap, Pair, OnesSum;
    var ws, ws' := LittleEndian(s), BigEndian(s);
    forall i | 0 <= i < |ws| ensures ws'[i] == Swap(ws[i]) {
      SwapPair(s[2 * i], ByteAt(s, 2 * i + 1));
    }
    SwapOnesSum(ws, ws');
    SwapComplement(OnesSum(ws));
  }
}
