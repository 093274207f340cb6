/** Enumeration of the host addresses of a CIDR block and of an IPv4 range. */
module Enumerate {
  import opened Arith
  import opened Address
  import opened Bytes
  import opened Reserved
  import opened Wrappers

  /** The `k` addresses from `lo` upwards. */
  function Upwards(bits: nat, lo: nat, k: nat): (r: seq<Ip>)
    ensures |r| == k
    ensures forall i :: 0 <= i < k ==> r[i] == Canon(bits, lo + i)
  {
    seq(k, i requires 0 <= i => Canon(bits, lo + i))
  }

  lemma UpwardsSnoc(bits: nat, lo: nat, k: nat)
    ensures Upwards(bits, lo, k + 1) == Upwards(bits, lo, k) + [Canon(bits, lo + k)]
  {
  }

  lemma UpwardsSlice(bits: nat, lo: nat, k: nat, i: nat, j: nat)
    requires i <= j <= k
    ensures Upwards(bits, lo, k)[i..j] == Upwards(bits, lo + i, j - i)
  {
    assert forall m :: 0 <= m < j - i ==> Upwards(bits, lo, k)[i..j][m] == Canon(bits, lo + (i + m));
  }

  lemma UpwardsMember(bits: nat, lo: nat, k: nat, ip: Ip)
    ensures ip in Upwards(bits, lo, k) <==> exists v :: lo <= v < lo + k && ip == Canon(bits, v)
  {
    if v :| lo <= v < lo + k && ip == Canon(bits, v) {
      assert Upwards(bits, lo, k)[v - lo] == ip;
    }
  }

  /** The block ends the IPv4 loop; a 16-byte loop also stops where addresses turn into IPv4 ones. */
  function EnumEnd(n: Net): nat
    requires ValidNet(n)
  {
    if n.bits == 128 && n.base < MAPPED_LO < n.base + n.Size() then MAPPED_LO else n.base + n.Size()
  }

  /** v4ReservedBounds: the first and last address are dropped for IPv4 blocks wider than /31. */
  predicate Trimmed(n: Net) { n.bits == 32 && n.prefix < 31 }

  function HostLo(n: Net): nat { if Trimmed(n) then n.base + 1 else n.base }

  lemma TrimFits(n: Net)
    requires ValidNet(n)
    ensures HostLo(n) + 1 <= EnumEnd(n) && (Trimmed(n) ==> HostLo(n) + 2 < EnumEnd(n) + 1)
  {
    assert Pow2(2) == 4 && Pow2(0) == 1;
    Pow2Mono(if Trimmed(n) then 2 else 0, n.HostBits());
  }

  function HostHi(n: Net): (hi: nat)
    requires ValidNet(n)
    ensures HostLo(n) < hi
  {
    TrimFits(n);
    if Trimmed(n) then EnumEnd(n) - 1 else EnumEnd(n)
  }

  /** The host addresses of a block, in ascending order. */
  function HostList(n: Net): seq<Ip>
    requires ValidNet(n)
  {
    Upwards(n.bits, HostLo(n), HostHi(n) - HostLo(n))
  }

  predicate WholeV4(n: Net) { n.bits == 32 && n.prefix == 0 }

  /** The value the odometer shows `k` steps after the base. */
  function Shown(n: Net, k: nat): nat { if n.base + k == Pow2(n.bits) then 0 else n.base + k }

  /**
   The loop guard of enumerateCIDR holds at step k exactly while k is short of the end,
   also when the block ends at the all-ones address and the odometer wraps to zero.
   */
  lemma Guard(n: Net, k: nat)
    requires ValidNet(n) && !WholeV4(n) && n.base + k <= EnumEnd(n)
    ensures Contains(n, Canon(n.bits, Shown(n, k))) <==> n.base + k < EnumEnd(n)
  {
    BlockFits(n);
    Pow2Values();
    if n.bits == 32 {
      Pow2Mono(n.HostBits(), 31);
    } else if MAPPED_LO <= n.base < MAPPED_HI {
      MappedBlock(n);
      Pow2Wide();
    } else {
      Pow2Wide();
      Straddle(n);
    }
  }

  /** A block that starts below the mapped range and reaches it covers all of it. */
  lemma Straddle(n: Net)
    requires V6Block(n)
    ensures n.base < MAPPED_LO < n.base + n.Size() ==> MAPPED_HI <= n.base + n.Size()
    ensures n.base + n.Size() <= MAPPED_LO || n.base < MAPPED_LO || n.base >= MAPPED_HI
  {
    Pow2Values();
    if n.base < MAPPED_LO < n.base + n.Size() {
      MappedIsBlock();
      Nested(n.base, n.HostBits(), MAPPED_LO, 32, MAPPED_LO);
    }
  }

  /** With prefix 0 an IPv4 loop never exits: the guard holds for every address it can show. */
  lemma WholeV4NeverExits(n: Net, v: nat)
    requires ValidNet(n) && WholeV4(n) && v < TWO32
    ensures Contains(n, Canon(32, v))
  {
    Pow2Values();
    BlockFits(n);
  }

  /** enumerateCIDR: step the odometer from the base while it stays in the block, then trim. */
  method EnumerateCidr(n: Net) returns (ips: seq<Ip>)
    requires ValidNet(n) && !WholeV4(n)
    ensures ips == HostList(n)
  {
    if n.prefix == n.bits {
      SingleHost(n);
      return [Canon(n.bits, n.base)];
    }
    ips := EnumerateBlock(n);
    if Trimmed(n) {
      TrimEnds(n, ips);
      ips := ips[1..];
      ips := ips[..|ips| - 1];
    }
  }

  lemma SingleHost(n: Net)
    requires ValidNet(n) && n.prefix == n.bits
    ensures HostList(n) == [Canon(n.bits, n.base)]
  {
    UpwardsSnoc(n.bits, n.base, 0);
  }

  lemma TrimEnds(n: Net, ips: seq<Ip>)
    requires ValidNet(n) && Trimmed(n) && ips == Upwards(n.bits, n.base, EnumEnd(n) - n.base)
    ensures |ips| >= 2 && ips[1..][..|ips| - 2] == HostList(n)
  {
    var k := |ips|;
    assert HostLo(n) < HostHi(n);
    UpwardsSlice(n.bits, n.base, k, 1, k - 1);
    assert ips[1..][..k - 2] == ips[1..k - 1];
  }

  method EnumerateBlock(n: Net) returns (ips: seq<Ip>)
    requires ValidNet(n) && !WholeV4(n)
    ensures ips == Upwards(n.bits, n.base, EnumEnd(n) - n.base)
  {
    var cur := Copy(ToBytes(n.base, n.bits / 8));
    ips := [];
    OdometerStart(n);
    ghost var end, k := EnumEnd(n), 0;
    var inside := Inside(n, cur, k);
    while inside
      invariant fresh(cur)
      invariant AtStep(n, cur[..], k)
      invariant inside <==> n.base + k < end
      invariant ips == Upwards(n.bits, n.base, k)
      decreases end - n.base - k
    {
      BlockStep(n, cur[..], k);
      ips := ips + [Canon(n.bits, Val(cur[..]))];
      IncIP(cur);
      k := k + 1;
      inside := Inside(n, cur, k);
    }
  }

  /** The loop guard ipNet.Contains(ip). */
  method Inside(n: Net, cur: array<Byte>, ghost k: nat) returns (b: bool)
    requires ValidNet(n) && !WholeV4(n) && AtStep(n, cur[..], k)
    ensures b == Contains(n, Canon(n.bits, Val(cur[..])))
    ensures b <==> n.base + k < EnumEnd(n)
  {
    Guard(n, k);
    b := Contains(n, Canon(n.bits, Val(cur[..])));
  }

  /** The odometer bytes `k` steps into the block. */
  ghost predicate AtStep(n: Net, cur: seq<Byte>, k: nat)
    requires ValidNet(n)
  {
    8 * |cur| == n.bits && n.base + k <= EnumEnd(n) && Val(cur) == Shown(n, k)
  }

  lemma OdometerStart(n: Net)
    requires ValidNet(n)
    ensures AtStep(n, ToBytes(n.base, n.bits / 8), 0)
  {
    BaseBytes(n);
  }

  lemma OdometerStep(n: Net, cur: seq<Byte>, k: nat)
    requires ValidNet(n) && AtStep(n, cur, k) && n.base + k < EnumEnd(n)
    ensures AtStep(n, Inc(cur), k + 1) && Val(cur) == n.base + k
  {
    BlockFits(n);
    IncVal(cur);
  }

  lemma BlockStep(n: Net, cur: seq<Byte>, k: nat)
    requires ValidNet(n) && AtStep(n, cur, k) && n.base + k < EnumEnd(n)
    ensures AtStep(n, Inc(cur), k + 1)
    ensures Upwards(n.bits, n.base, k + 1) == Upwards(n.bits, n.base, k) + [Canon(n.bits, Val(cur))]
  {
    OdometerStep(n, cur, k);
    UpwardsSnoc(n.bits, n.base, k);
  }

  /** The 16-byte block runs across all of ::ffff:0:0/96. */
  predicate Straddles(n: Net)
    requires ValidNet(n)
  {
    n.bits == 128 && n.base < MAPPED_LO < n.base + n.Size()
  }

  /** How many addresses are dropped at either end. */
  function Trim(n: Net): nat { if Trimmed(n) then 1 else 0 }

  /** Without a straddle the hosts are one interval of the family the block is matched in. */
  lemma HostsAreInterval(n: Net, ip: Ip)
    requires ValidNet(n) && !Straddles(n)
    ensures var a, t := Norm(n), Trim(n);
            ip in HostList(n) <==> ip.Bits() == a.bits && a.base + t <= ip.v < a.base + a.Size() - t
  {
    UpwardsMember(n.bits, HostLo(n), HostHi(n) - HostLo(n), ip);
    var a, t := Norm(n), Trim(n);
    if n.bits == 128 && MAPPED_LO <= n.base < MAPPED_HI { MappedBlock(n); }
    if ip.Bits() == a.bits && a.base + t <= ip.v < a.base + a.Size() - t {
      var v := if a.bits != n.bits then ip.v + MAPPED_LO else ip.v;
      assert ip == Canon(n.bits, v);
    }
  }

  /** A host address of the block, by Go's own containment test and the trimming rule. */
  ghost predicate IsHost(n: Net, ip: Ip)
    requires ValidNet(n)
  {
    ValidIp(ip) && Contains(n, ip) && !(Trimmed(n) && (ip.v == n.base || ip.v == n.Last()))
  }

  /** The 16-byte blocks the enumeration leaves unfinished. */
  predicate CutShort(n: Net) { n.bits == 128 && n.base == 0 && n.prefix < 80 }

  lemma StraddleEnd(n: Net)
    requires ValidNet(n) && Straddles(n)
    ensures CutShort(n) || n.base + n.Size() == MAPPED_HI
  {
    MappedIsBlock();
    Straddle(n);
    Nested(n.base, n.HostBits(), MAPPED_LO, 32, MAPPED_LO);
    AroundMapped(n.base, n.HostBits());
  }

  lemma HostExactStraddling(n: Net, ip: Ip)
    requires ValidNet(n) && !CutShort(n) && Straddles(n)
    ensures ip in HostList(n) <==> IsHost(n, ip)
  {
    StraddleEnd(n);
    UpwardsMember(128, n.base, MAPPED_LO - n.base, ip);
    assert Pow2(128) > MAPPED_HI by { Pow2Wide(); }
    if IsHost(n, ip) { assert ip == Canon(128, ip.v); }
  }

  lemma HostExactPlain(n: Net, ip: Ip)
    requires ValidNet(n) && !Straddles(n)
    ensures ip in HostList(n) <==> IsHost(n, ip)
  {
    BlockFits(Norm(n));
    Pow2Values();
    HostsAreInterval(n, ip);
    if V6Block(n) { Straddle(n); }
  }

  lemma HostExact(n: Net, ip: Ip)
    requires ValidNet(n) && !CutShort(n)
    ensures ip in HostList(n) <==> IsHost(n, ip)
  {
    if Straddles(n) { HostExactStraddling(n, ip); } else { HostExactPlain(n, ip); }
  }

  lemma CutShortMisses(n: Net)
    requires ValidNet(n) && CutShort(n)
    ensures IsHost(n, V6(MAPPED_HI)) && V6(MAPPED_HI) !in HostList(n)
  {
    assert n.Size() >= 2 * MAPPED_HI && Pow2(128) > MAPPED_HI by {
      Pow2Values();
      Pow2Wide();
      Pow2Mono(49, n.HostBits());
      assert Pow2(49) == 2 * MAPPED_HI;
    }
    UpwardsMember(128, n.base, MAPPED_LO - n.base, V6(MAPPED_HI));
  }

  /**
   enumerateCIDR lists exactly the hosts of the block, except for ::/p with p < 80, where the
   loop stops at ::ffff:0:0 because Contains refuses a 4-byte address.
   */
  lemma HostsExactly(n: Net)
    requires ValidNet(n)
    ensures (forall ip :: ip in HostList(n) <==> IsHost(n, ip)) <==> !CutShort(n)
  {
    if CutShort(n) {
      CutShortMisses(n);
    } else {
      forall ip ensures ip in HostList(n) <==> IsHost(n, ip) { HostExact(n, ip); }
    }
  }

  /** How many hosts there are, and in what order they come. */
  lemma HostsCountAndOrder(n: Net)
    requires ValidNet(n)
    ensures n.bits == 32 && n.prefix <= 30 ==> |HostList(n)| == Pow2(32 - n.prefix) - 2
    ensures n.bits == 32 && n.prefix == 31 ==> |HostList(n)| == 2
    ensures n.prefix == n.bits ==> |HostList(n)| == 1
    ensures n.bits == 128 && !Straddles(n) ==> |HostList(n)| == n.Size()
    ensures Straddles(n) ==> |HostList(n)| == MAPPED_LO - n.base
    ensures forall i, j :: 0 <= i < j < |HostList(n)| ==> HostList(n)[i].v < HostList(n)[j].v
    ensures |HostList(n)| <= n.Size()
  {
    Pow2Values();
    if n.bits == 128 && MAPPED_LO <= n.base < MAPPED_HI {
      MappedBlock(n);
    } else if n.bits == 128 {
      Straddle(n);
    }
  }

  /** Hosts of a block the two-endpoint check accepts, and that does not leak, are all ordinary. */
  lemma {:induction false} HostsOrdinary(n: Net, ip: Ip)
    requires ValidNet(n) && NetPasses(n) && !Leaks(n) && ip in HostList(n)
    ensures !IsReserved(ip)
  {
    UpwardsMember(n.bits, HostLo(n), HostHi(n) - HostLo(n), ip);
  }

  // ---------------------------------------------------------------- ranges

  const MAX_RANGE_IPS: nat := 65536

  /** The addresses of an IPv4 range; none when it is longer than the cap. */
  function RangeList(a: nat, b: nat): Option<seq<Ip>>
    requires a < TWO32 && b < TWO32
  {
    // endU - startU is computed in 32 bits before it is widened
    if (b - a) % TWO32 + 1 > MAX_RANGE_IPS then None
    else if a > b then Some([])
    else Some(Upwards(32, a, b - a + 1))
  }

  /** enumerateRange: refuse an oversized range, otherwise step the odometer from start to end. */
  method EnumerateRange(a: nat, b: nat) returns (r: Option<seq<Ip>>)
    requires a < TWO32 && b < TWO32
    ensures r == RangeList(a, b)
  {
    if (b - a) % TWO32 + 1 > MAX_RANGE_IPS {
      return None;
    }
    var ips := StepUp(a, b);
    r := Some(ips);
  }

  method StepUp(a: nat, b: nat) returns (ips: seq<Ip>)
    requires a < TWO32 && b < TWO32
    ensures ips == if a > b then [] else Upwards(32, a, b - a + 1)
  {
    RangeStart(a);
    var cur := Copy(ToBytes(a, 4));
    var curU := a;
    ips := [];
    ghost var k := 0;
    while curU <= b
      invariant fresh(cur) && cur.Length == 4 && Val(cur[..]) == curU == a + k
      invariant if a <= b then a + k <= b else k == 0
      invariant ips == Upwards(32, a, k)
      decreases b - curU
    {
      UpwardsSnoc(32, a, k);
      ips := ips + [Canon(32, Val(cur[..]))];
      k := k + 1;
      if curU == b {
        break;
      }
      RangeNext(cur[..], b);
      IncIP(cur);
      curU := Val(cur[..]);
    }
    assert a > b ==> ips == [];
  }

  lemma RangeStart(a: nat)
    requires a < TWO32
    ensures Val(ToBytes(a, 4)) == a
  {
    Pow2Values();
    ValOfToBytes(a, 4);
  }

  lemma RangeNext(cur: seq<Byte>, b: nat)
    requires |cur| == 4 && Val(cur) < b < TWO32
    ensures Val(Inc(cur)) == Val(cur) + 1
  {
    Pow2Values();
    IncVal(cur);
  }

  /** An accepted range holds every address from start to end once, and no reserved one. */
  lemma RangeOrdinary(a: nat, b: nat, ip: Ip)
    requires a <= b < TWO32 && RangeList(a, b).Some?
    ensures ip in RangeList(a, b).value <==> ip.V4? && a <= ip.v <= b
    ensures !IsReserved(V4(a)) && !IsReserved(V4(b)) && ip in RangeList(a, b).value ==> !IsReserved(ip)
  {
    UpwardsMember(32, a, b - a + 1, ip);
    if ip.V4? && a <= ip.v <= b {
      assert ip == Canon(32, ip.v);
      if !IsReserved(V4(a)) && !IsReserved(V4(b)) && IsReserved(ip) { RangeLeakIsLong(a, b, ip.v); }
    }
  }

  // ---------------------------------------------------------------- against a network

  /** Every host of `n` lies in `net`. */
  ghost predicate AllIn(n: Net, net: Net)
    requires ValidNet(n) && ValidNet(net)
  {
    forall ip :: ip in HostList(n) ==> Contains(net, ip)
  }

  lemma InsideImpliesAllIn(n: Net, net: Net)
    requires ValidNet(n) && ValidNet(net) && !Straddles(n) && Within(n, net)
    ensures AllIn(n, net)
  {
    forall ip | ip in HostList(n) ensures Contains(net, ip) {
      HostsAreInterval(n, ip);
    }
  }

  function Mk(bits: nat, v: nat): Ip { if bits == 32 then V4(v) else V6(v) }

  /** A strictly smaller aligned block cannot hold all hosts of a trimmed one. */
  lemma TrimmedTooWide(a: nat, ha: nat, b: nat, hb: nat)
    requires 2 <= ha && hb < ha && Aligned(a, ha) && Aligned(b, hb)
    ensures !(b <= a + 1 && a + Pow2(ha) - 1 <= b + Pow2(hb))
  {
    Pow2Mono(hb, ha);
    Pow2Mono(2, ha);
    assert Pow2(2) == 4;
    assert b <= a + 1 && a + Pow2(ha) - 1 <= b + Pow2(hb) ==> Pow2(ha) == 4 && Pow2(hb) == 2 && b == a + 1;
  }

  /** Holding everything but `t` addresses at either end of an aligned block means holding all of it. */
  lemma HoldsAll(a: nat, ha: nat, b: nat, hb: nat, t: nat)
    requires Aligned(a, ha) && Aligned(b, hb) && (t == 0 || (t == 1 && 2 <= ha))
    requires b <= a + t && a + Pow2(ha) - t <= b + Pow2(hb)
    ensures b <= a && a + Pow2(ha) <= b + Pow2(hb)
  {
    if t == 1 {
      assert Pow2(2) == 4;
      Pow2Mono(2, ha);
      if ha <= hb { Laminar(a, ha, b, hb); } else { TrimmedTooWide(a, ha, b, hb); }
    }
  }

  lemma AllInEnds(n: Net, net: Net)
    requires ValidNet(n) && ValidNet(net) && !Straddles(n) && AllIn(n, net)
    ensures Norm(n).bits == Norm(net).bits
    ensures Norm(net).base <= Norm(n).base + Trim(n)
    ensures Norm(n).base + n.Size() - Trim(n) <= Norm(net).base + net.Size()
  {
    var a := Norm(n);
    var first, last := Mk(a.bits, a.base + Trim(n)), Mk(a.bits, a.base + a.Size() - Trim(n) - 1);
    assert first in HostList(n) && last in HostList(n) by {
      assert Pow2(2) == 4;
      if Trimmed(n) { Pow2Mono(2, n.HostBits()); }
      HostsAreInterval(n, first);
      HostsAreInterval(n, last);
    }
  }

  lemma AllInImpliesInside(n: Net, net: Net)
    requires ValidNet(n) && ValidNet(net) && !Straddles(n) && AllIn(n, net)
    ensures Within(n, net)
  {
    AllInEnds(n, net);
    NormBlock(n);
    NormBlock(net);
    HoldsAll(Norm(n).base, n.HostBits(), Norm(net).base, net.HostBits(), Trim(n));
  }

  /** Dropping the first and last address never weakens the boundary test. */
  lemma AllInExactly(n: Net, net: Net)
    requires ValidNet(n) && ValidNet(net) && !Straddles(n)
    ensures AllIn(n, net) <==> Within(n, net)
  {
    if AllIn(n, net) { AllInImpliesInside(n, net); }
    if Within(n, net) { InsideImpliesAllIn(n, net); }
  }

  /** Some hosts in and some out happens only when the network lies strictly inside the target. */
  lemma MixedMeansInside(n: Net, net: Net, ip: Ip)
    requires ValidNet(n) && ValidNet(net) && !Straddles(n)
    requires ip in HostList(n) && Contains(net, ip) && !AllIn(n, net)
    ensures Within(net, n) && !Within(n, net)
  {
    AllInExactly(n, net);
    Meet(n, net, ip);
    NormBlock(n);
    NormBlock(net);
    var a, b, i, j := Norm(n).base, Norm(net).base, n.HostBits(), net.HostBits();
    if i <= j {
      Laminar(a, i, b, j);
    } else {
      Laminar(b, j, a, i);
    }
  }

  /** A host of the target that lies in the network makes the two blocks overlap. */
  lemma Meet(n: Net, net: Net, ip: Ip)
    requires ValidNet(n) && ValidNet(net) && !Straddles(n)
    requires ip in HostList(n) && Contains(net, ip)
    ensures var a, b := Norm(n), Norm(net);
            a.bits == b.bits && a.base < b.base + b.Size() && b.base < a.base + a.Size()
  {
    HostsAreInterval(n, ip);
  }

  /** For a network strictly inside, some host is in unless the network is one trimmed address. */
  lemma InsideIsMixed(n: Net, net: Net)
    requires ValidNet(n) && ValidNet(net) && !Straddles(n)
    requires Within(net, n) && !Within(n, net)
    ensures !AllIn(n, net)
    ensures (exists ip :: ip in HostList(n) && Contains(net, ip)) <==>
            !(Trimmed(n) && net.Size() == 1 && (Norm(net).base == n.base || Norm(net).base == n.Last()))
  {
    AllInExactly(n, net);
    var a, b := Norm(n), Norm(net);
    if ip :| ip in HostList(n) && Contains(net, ip) {
      HostsAreInterval(n, ip);
    }
    if !(Trimmed(n) && net.Size() == 1 && (b.base == n.base || b.base == n.Last())) {
      var v := if Trimmed(n) && b.base == n.base then b.base + 1 else b.base;
      var ip := Mk(a.bits, v);
      HostsAreInterval(n, ip);
      assert ip in HostList(n) && Contains(net, ip);
    }
  }
}
