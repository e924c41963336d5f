/** IPv4 addresses in host order and the DHCP address pool (ip_util.c). */
module AddressPool {
  import opened Basics

  /** Addresses are 32-bit unsigned numbers in host order. */
  const ADDRESSES := 0x1_0000_0000
  const INADDR_ANY := 0
  const INADDR_NONE := 0xFFFF_FFFF

  /** The settings the DHCP code consults. `nLease` is in minutes. `zeroedMacFirst` says where MACCompare
      puts a zeroed MAC: the shipped memcmp puts it first, DHCPDestroyItem is written for the opposite order. */
  datatype Config = Config(
    szAddr: int, nPoolSize: nat, nLease: int,
    bPing: bool, bPXECompatibility: bool, nIgnoreBootp: bool,
    zeroedMacFirst: bool)

  /** Usable host addresses: the last byte is neither 0 nor 255. */
  predicate Usable(a: int) {
    0 < a % 256 < 255
  }

  /** The address that follows, in 32-bit arithmetic, skipping last bytes 255 and 0. */
  function AddrInc(a: int): int {
    if a % 256 == 254 then (a + 3) % ADDRESSES
    else if a % 256 == 255 then (a + 2) % ADDRESSES
    else (a + 1) % ADDRESSES
  }

  predicate AddrFitsPool(c: Config, a: int) {
    c.szAddr <= a < (c.szAddr + c.nPoolSize) % ADDRESSES
  }

  /** The pool as an interval; it coincides with AddrFitsPool for a well-formed configuration. */
  predicate InPool(c: Config, a: int) {
    c.szAddr <= a < c.szAddr + c.nPoolSize
  }

  /** What the configuration has to satisfy: the pool does not wrap around the address space and stays clear
      of INADDR_ANY and INADDR_NONE, and the lease time is positive and its seconds fit an int. */
  ghost predicate WellFormed(c: Config) {
    && 0 < c.szAddr
    && c.szAddr + c.nPoolSize < ADDRESSES
    && 0 < c.nLease && c.nLease * 60 < 0x8000_0000
  }

  /** No address of the pool is skipped by AddrInc. */
  ghost predicate GapFree(c: Config) {
    forall a :: InPool(c, a) && InPool(c, a + 1) ==> AddrInc(a) == a + 1
  }

  /** A pool between .1 and .254 of one /24 network is gap free. */
  lemma OneSubnetIsGapFree(c: Config)
    requires 0 < c.szAddr && 0 < c.nPoolSize && c.szAddr + c.nPoolSize < ADDRESSES
    requires Usable(c.szAddr) && Usable(c.szAddr + c.nPoolSize - 1)
    requires c.szAddr / 256 == (c.szAddr + c.nPoolSize - 1) / 256
    ensures GapFree(c)
  {
  }

  /** AddrInc is the successor on usable addresses: nothing usable lies strictly between. */
  lemma AddrIncIsSuccessor(a: int, b: int)
    requires 0 <= a && Usable(a) && a + 3 < ADDRESSES
    ensures a < AddrInc(a) && Usable(AddrInc(a))
    ensures Usable(b) && a < b ==> AddrInc(a) <= b
  {
    var h, l, k, m := a / 256, a % 256, b / 256, b % 256;
    assert a == 256 * h + l && b == 256 * k + m;
    assert AddrInc(a) == if l == 254 then 256 * (h + 1) + 1 else a + 1;
    if l == 254 && Usable(b) && a < b {
      assert h < k;
    }
  }

  // ----- the search for a hole

  /** The scan continues as long as each address follows the one before it. */
  function ScanFrom(ips: seq<int>, k: nat): int
    requires 0 < k <= |ips|
    decreases |ips| - k
  {
    if k < |ips| && ips[k] == AddrInc(ips[k - 1]) then ScanFrom(ips, k + 1) else AddrInc(ips[k - 1])
  }

  /** The new address the allocator picks, given the held addresses in order. */
  function Hole(start: int, ips: seq<int>): int {
    if |ips| > 0 && ips[0] == start then ScanFrom(ips, 1) else start
  }

  ghost predicate AllUsable(ips: seq<int>) {
    forall i :: 0 <= i < |ips| ==> 0 <= ips[i] && Usable(ips[i]) && ips[i] + 3 < ADDRESSES
  }

  lemma {:induction false} ScanIsLeastUsable(start: int, ips: seq<int>, k: nat, b: int)
    requires 0 < k <= |ips| && Increasing(ips) && AllUsable(ips)
    requires start <= b && Usable(b) && b !in ips && forall i :: 0 <= i < k ==> ips[i] < b
    ensures var h := ScanFrom(ips, k); Usable(h) && h !in ips && ips[k - 1] < h <= b
    decreases |ips| - k
  {
    AddrIncIsSuccessor(ips[k - 1], b);
    if k < |ips| {
      AddrIncIsSuccessor(ips[k - 1], ips[k]);
      if ips[k] == AddrInc(ips[k - 1]) {
        assert ips[k] in ips;
        ScanIsLeastUsable(start, ips, k + 1, b);
      }
    }
  }

  /** When the held addresses are usable and none is below the pool start, the allocator picks the least usable
      address from the pool start on that nobody holds. */
  lemma HoleIsLeastUsable(start: int, ips: seq<int>, b: int)
    requires Usable(start) && Increasing(ips) && AllUsable(ips) && forall i :: 0 <= i < |ips| ==> start <= ips[i]
    requires start <= b && Usable(b) && b !in ips
    ensures var h := Hole(start, ips); start <= h <= b && Usable(h) && h !in ips
  {
    if |ips| > 0 && ips[0] == start {
      assert start in ips;
      ScanIsLeastUsable(start, ips, 1, b);
    }
  }

  /** a is the least address of the pool that is not in ips. */
  ghost predicate IsLeastFree(c: Config, ips: seq<int>, a: int) {
    InPool(c, a) && a !in ips && forall b :: InPool(c, b) && b !in ips ==> a <= b
  }

  ghost predicate HeldInPool(c: Config, ips: seq<int>) {
    Increasing(ips) && |ips| < c.nPoolSize && forall i :: 0 <= i < |ips| ==> InPool(c, ips[i])
  }

  lemma {:induction false} ScanIsLeastFree(c: Config, ips: seq<int>, k: nat)
    requires GapFree(c) && HeldInPool(c, ips) && 0 < k <= |ips|
    requires forall i :: 0 <= i < k ==> ips[i] == c.szAddr + i
    ensures IsLeastFree(c, ips, ScanFrom(ips, k))
    decreases |ips| - k
  {
    var a := ips[k - 1];
    assert InPool(c, a) && InPool(c, a + 1);
    if k < |ips| && ips[k] == AddrInc(a) {
      ScanIsLeastFree(c, ips, k + 1);
    } else {
      forall b | InPool(c, b) && b <= a ensures b in ips {
        assert ips[b - c.szAddr] == b;
      }
      assert a + 1 !in ips;
    }
  }

  lemma HoleIsLeastFree(c: Config, ips: seq<int>)
    requires GapFree(c) && HeldInPool(c, ips)
    ensures IsLeastFree(c, ips, Hole(c.szAddr, ips))
  {
    if |ips| > 0 && ips[0] == c.szAddr {
      ScanIsLeastFree(c, ips, 1);
    }
  }

  function Upto(start: int, n: nat): seq<int> {
    seq(n, i => start + i)
  }

  lemma {:induction false} ScanUpto(c: Config, n: nat, k: nat)
    requires 0 < k <= n
    requires forall a :: c.szAddr <= a < c.szAddr + n - 1 ==> AddrInc(a) == a + 1
    ensures ScanFrom(Upto(c.szAddr, n), k) == AddrInc(c.szAddr + n - 1)
    decreases n - k
  {
    if k < n {
      assert AddrInc(c.szAddr + (k - 1)) == c.szAddr + k;
      ScanUpto(c, n, k + 1);
    }
  }

  /** The pools for which the allocator always finds the least free pool address are exactly the gap-free ones: in any
      other pool it steps over an address when those before it are held. */
  lemma HoleIsLeastFreeIffGapFree(c: Config)
    requires 0 < c.szAddr && c.szAddr + c.nPoolSize < ADDRESSES
    ensures GapFree(c) <==> forall ips :: HeldInPool(c, ips) ==> IsLeastFree(c, ips, Hole(c.szAddr, ips))
  {
    if GapFree(c) {
      forall ips | HeldInPool(c, ips) ensures IsLeastFree(c, ips, Hole(c.szAddr, ips)) {
        HoleIsLeastFree(c, ips);
      }
    } else {
      var n := FirstGap(c, 1);
      var ips := Upto(c.szAddr, n);
      ScanUpto(c, n, 1);
      assert HeldInPool(c, ips);
      assert InPool(c, c.szAddr + n) && c.szAddr + n !in ips;
      assert forall a :: InPool(c, a) && a < c.szAddr + n ==> ips[a - c.szAddr] == a;
    }
  }

  /** The allocator's choice cannot be used: somebody holds the address, or it is not in the pool. */
  ghost predicate BadHole(c: Config, ips: seq<int>) {
    Hole(c.szAddr, ips) in ips || !InPool(c, Hole(c.szAddr, ips))
  }

  lemma {:induction false} ScanStops(c: Config, n: nat, rest: seq<int>, k: nat)
    requires 0 < k <= n
    requires forall a :: c.szAddr <= a < c.szAddr + n - 1 ==> AddrInc(a) == a + 1
    requires rest == [] || rest[0] != AddrInc(c.szAddr + n - 1)
    ensures ScanFrom(Upto(c.szAddr, n) + rest, k) == AddrInc(c.szAddr + n - 1)
    decreases n - k
  {
    if k < n {
      assert AddrInc(c.szAddr + (k - 1)) == c.szAddr + k;
      ScanStops(c, n, rest, k + 1);
    }
  }

  /** The first address of a gap that can be jumped over inside the pool is .254, or .255 at the pool's start. */
  lemma GapAt(c: Config, n: nat)
    requires 0 < c.szAddr && c.szAddr + c.nPoolSize < ADDRESSES && 0 < n < c.nPoolSize
    requires AddrInc(c.szAddr + n - 1) != c.szAddr + n
    requires forall a :: c.szAddr <= a < c.szAddr + n - 1 ==> AddrInc(a) == a + 1
    ensures var x := c.szAddr + n - 1; var h := AddrInc(x);
      c.szAddr <= h <= x || !InPool(c, h) || h == x + 3 || (h == x + 2 && x % 256 == 255 && n == 1)
  {
    var x := c.szAddr + n - 1;
    assert n > 1 ==> AddrInc(x - 1) == x;
  }

  lemma MisledByHeld(c: Config, n: nat, h: int)
    requires 0 < n && n + 2 < c.nPoolSize && h == AddrInc(c.szAddr + n - 1)
    requires c.szAddr + n < h < c.szAddr + c.nPoolSize
    requires forall a :: c.szAddr <= a < c.szAddr + n - 1 ==> AddrInc(a) == a + 1
    ensures var ips := Upto(c.szAddr, n) + [c.szAddr + n, h]; HeldInPool(c, ips) && BadHole(c, ips)
  {
    var ips := Upto(c.szAddr, n) + [c.szAddr + n, h];
    ScanStops(c, n, [c.szAddr + n, h], 1);
    assert ips[0] == c.szAddr && ips[n + 1] == h;
  }

  lemma MisledByNext(c: Config, n: nat, h: int)
    requires 0 < n < c.nPoolSize && h == AddrInc(c.szAddr + n - 1) && (c.szAddr <= h < c.szAddr + n || !InPool(c, h))
    requires forall a :: c.szAddr <= a < c.szAddr + n - 1 ==> AddrInc(a) == a + 1
    ensures HeldInPool(c, Upto(c.szAddr, n)) && BadHole(c, Upto(c.szAddr, n))
  {
    ScanUpto(c, n, 1);
    assert c.szAddr <= h < c.szAddr + n ==> Upto(c.szAddr, n)[h - c.szAddr] == h;
  }

  /** In every pool with a gap some set of held addresses misleads the allocator. */
  lemma GapMisleads(c: Config) returns (ips: seq<int>)
    requires 0 < c.szAddr && c.szAddr + c.nPoolSize < ADDRESSES && !GapFree(c)
    ensures HeldInPool(c, ips) && BadHole(c, ips)
  {
    hide BadHole, HeldInPool, GapFree;
    var n := FirstGap(c, 1);
    var h := AddrInc(c.szAddr + n - 1);
    GapAt(c, n);
    if c.szAddr <= h < c.szAddr + n || !InPool(c, h) {
      MisledByNext(c, n, h);
      ips := Upto(c.szAddr, n);
    } else if n + 2 < c.nPoolSize {
      MisledByHeld(c, n, h);
      ips := Upto(c.szAddr, n) + [c.szAddr + n, h];
    } else {
      MisledAtEnd(c);
      ips := [c.szAddr, c.szAddr + 2];
    }
  }

  /** The pool .255, .0, .1. */
  lemma MisledAtEnd(c: Config)
    requires 0 < c.szAddr && c.szAddr % 256 == 255 && c.nPoolSize == 3 && c.szAddr + 3 < ADDRESSES
    ensures var ips := [c.szAddr, c.szAddr + 2]; HeldInPool(c, ips) && BadHole(c, ips)
  {
    var ips := [c.szAddr, c.szAddr + 2];
    assert ScanFrom(ips, 1) == ScanFrom(ips, 2) == c.szAddr + 3;
  }

  /** The pools in which no set of held addresses misleads the allocator are exactly the gap-free ones. */
  lemma NeverMisledIffGapFree(c: Config)
    requires 0 < c.szAddr && c.szAddr + c.nPoolSize < ADDRESSES
    ensures GapFree(c) <==> forall ips :: HeldInPool(c, ips) ==> !BadHole(c, ips)
  {
    if GapFree(c) {
      forall ips | HeldInPool(c, ips) ensures !BadHole(c, ips) {
        HoleIsLeastFree(c, ips);
      }
    } else {
      var ips := GapMisleads(c);
    }
  }

  lemma {:induction false} FirstGap(c: Config, k: nat) returns (n: nat)
    requires 0 < c.szAddr && c.szAddr + c.nPoolSize < ADDRESSES && !GapFree(c)
    requires 0 < k && forall a :: c.szAddr <= a < c.szAddr + k - 1 ==> AddrInc(a) == a + 1
    ensures 0 < n < c.nPoolSize && AddrInc(c.szAddr + n - 1) != c.szAddr + n
    ensures forall a :: c.szAddr <= a < c.szAddr + n - 1 ==> AddrInc(a) == a + 1
    decreases c.nPoolSize - k
  {
    hide AddrInc;
    var x :| InPool(c, x) && InPool(c, x + 1) && AddrInc(x) != x + 1;
    assert x >= c.szAddr + k - 1;
    if AddrInc(c.szAddr + k - 1) != c.szAddr + k {
      n := k;
    } else {
      n := FirstGap(c, k + 1);
    }
  }
}
