/** Reserved address classes and the two-endpoint check that target parts must pass. */
module Reserved {
  import opened Arith
  import opened Address
  import opened Bytes
  import opened Wrappers

  datatype Class = Ordinary | Unspecified | Loopback | LinkLocalUnicast | Multicast | LimitedBroadcast | Reserved240

  const LOOPBACK4: nat := 0x7f00_0000         // 127.0.0.0
  const LINK_LOCAL4: nat := 0xa9fe_0000       // 169.254.0.0
  const MULTICAST4: nat := 0xe000_0000        // 224.0.0.0
  const RESERVED4: nat := 0xf000_0000         // 240.0.0.0
  const FE00: nat := 0xfe00_0000_0000_0000_0000_0000_0000_0000
  const LINK_LOCAL6: nat := 0xfe80_0000_0000_0000_0000_0000_0000_0000
  const LINK_LOCAL6_END: nat := 0xfec0_0000_0000_0000_0000_0000_0000_0000
  const MULTICAST6: nat := 0xff00_0000_0000_0000_0000_0000_0000_0000

  /** reservedClass: the first class of the switch that applies. */
  function ReservedClass(ip: Ip): Class {
    match ip
    case V4(v) =>
      if v == 0 then Unspecified
      else if LOOPBACK4 <= v < LOOPBACK4 + 0x100_0000 then Loopback
      else if LINK_LOCAL4 <= v < LINK_LOCAL4 + 0x1_0000 then LinkLocalUnicast
      else if MULTICAST4 <= v < RESERVED4 then Multicast
      else if v == TWO32 - 1 then LimitedBroadcast
      else if v >= RESERVED4 then Reserved240
      else Ordinary
    case V6(v) =>
      if v == 0 then Unspecified
      else if v == 1 then Loopback
      else if LINK_LOCAL6 <= v < LINK_LOCAL6_END then LinkLocalUnicast
      else if v >= MULTICAST6 then Multicast
      else Ordinary
  }

  predicate IsReserved(ip: Ip) { ReservedClass(ip) != Ordinary }

  // ---------------------------------------------------------------- the classes by octets

  /** The class by the octets of the address, four or sixteen of them, in the order of the switch. */
  function ClassOfBytes(s: seq<Byte>): Class
    requires |s| == 4 || |s| == 16
  {
    if forall i :: 0 <= i < |s| ==> s[i] == 0 then Unspecified
    else if |s| == 4 then
      if s[0] == 127 then Loopback
      else if s[0] == 169 && s[1] == 254 then LinkLocalUnicast
      else if 224 <= s[0] <= 239 then Multicast
      else if s == [255, 255, 255, 255] then LimitedBroadcast
      else if s[0] >= 240 then Reserved240
      else Ordinary
    else
      if (forall i :: 0 <= i < 15 ==> s[i] == 0) && s[15] == 1 then Loopback
      else if s[0] == 0xfe && 0x80 <= s[1] <= 0xbf then LinkLocalUnicast
      else if s[0] == 0xff then Multicast
      else Ordinary
  }

  lemma {:induction false} ZeroBytes(s: seq<Byte>)
    ensures Val(s) == 0 <==> forall i :: 0 <= i < |s| ==> s[i] == 0
  {
    if s == [] {
    } else {
      ZeroBytes(s[..|s| - 1]);
    }
  }

  lemma {:induction false} ValHead(s: seq<Byte>)
    requires s != []
    ensures Val(s) == s[0] * Pow2(8 * (|s| - 1)) + Val(s[1..])
  {
    if |s| == 1 {
      assert s[..0] == [] && s[1..] == [];
    } else {
      var init, last := s[..|s| - 1], s[|s| - 1];
      ValHead(init);
      HeadStep(s[0], Pow2(8 * (|s| - 2)), Val(init[1..]), last);
      Pow2Byte(|s| - 1);
      ValSnoc(init[1..], last);
      assert s[1..] == init[1..] + [last];
    }
  }

  lemma HeadStep(a: nat, p: nat, r: nat, x: nat)
    ensures (a * p + r) * 256 + x == a * (256 * p) + (r * 256 + x)
  {
    assert a * (256 * p) == (a * p) * 256;
  }

  lemma TwoBytes(x: Byte, y: Byte)
    ensures var a: nat, b: nat := x, y; Val([x, y]) == a * 256 + b
  {
    ValSnoc([], x);
    ValSnoc([x], y);
    assert [] + [x] == [x] && [x] + [y] == [x, y];
  }

  lemma FourBytes(s: seq<Byte>)
    requires |s| == 4
    ensures var a: nat, b: nat, c: nat, d: nat := s[0], s[1], s[2], s[3];
            Val(s) == a * 0x100_0000 + b * 0x1_0000 + c * 0x100 + d
  {
    var u := [s[0], s[1]];
    assert s == (u + [s[2]]) + [s[3]];
    TwoBytes(s[0], s[1]);
    ValSnoc(u, s[2]);
    ValSnoc(u + [s[2]], s[3]);
  }

  /** The top two octets of a 16-byte address and the bound of the rest. */
  lemma TopOctets(s: seq<Byte>) returns (rest: nat)
    requires |s| == 16
    ensures rest < 0x1_0000_0000_0000_0000_0000_0000_0000
    ensures var a: nat, b: nat := s[0], s[1];
            Val(s) == a * 0x100_0000_0000_0000_0000_0000_0000_0000 + b * 0x1_0000_0000_0000_0000_0000_0000_0000 + rest
  {
    ValHead(s);
    ValHead(s[1..]);
    rest := Val(s[1..][1..]);
    ValBound(s[1..][1..]);
    assert Pow2(120) == 0x100_0000_0000_0000_0000_0000_0000_0000 by { Pow2Wide(); }
    assert Pow2(112) == 0x1_0000_0000_0000_0000_0000_0000_0000 by { Pow2Wide(); Pow2Shift(120); }
  }

  lemma ClassByOctets4(s: seq<Byte>)
    requires |s| == 4
    ensures ReservedClass(V4(Val(s))) == ClassOfBytes(s)
  {
    FourBytes(s);
    ZeroBytes(s);
    if Val(s) == TWO32 - 1 { assert s == [255, 255, 255, 255]; }
  }

  lemma ClassByOctets6(s: seq<Byte>)
    requires |s| == 16
    ensures ReservedClass(V6(Val(s))) == ClassOfBytes(s)
  {
    var rest := TopOctets(s);
    ZeroBytes(s);
    ZeroBytes(s[..15]);
    assert Val(s) == Val(s[..15]) * 256 + s[15];
  }

  /** The class of an address is the class its octets have, for every address of either family. */
  lemma ClassByOctets(ip: Ip)
    requires ValidIp(ip)
    ensures ReservedClass(ip) == ClassOfBytes(ToBytes(ip.v, if ip.V4? then 4 else 16))
  {
    Pow2Values();
    Pow2Wide();
    if ip.V4? {
      ValOfToBytes(ip.v, 4);
      ClassByOctets4(ToBytes(ip.v, 4));
    } else {
      ValOfToBytes(ip.v, 16);
      ClassByOctets6(ToBytes(ip.v, 16));
    }
  }

  /** The top of the block, none for a single host. */
  function LastOf(n: Net): Option<Ip>
    requires ValidNet(n)
  {
    if n.prefix == n.bits then None else Some(Canon(n.bits, n.Last()))
  }

  /** lastAddress: the top of the block, computed byte by byte; none for a single host. */
  method LastAddress(n: Net) returns (last: Option<Ip>)
    requires ValidNet(n)
    ensures last == LastOf(n)
  {
    if n.prefix >= n.bits {
      return None;
    }
    TopBytes(n);
    var bytes := Copy(ToBytes(n.base, n.bits / 8));
    FillHostBits(bytes, n.prefix);
    last := Some(Canon(n.bits, Val(bytes[..])));
  }

  lemma BaseBytes(n: Net)
    requires ValidNet(n)
    ensures var s := ToBytes(n.base, n.bits / 8); 8 * |s| == n.bits && Val(s) == n.base
  {
    assert 8 * (n.bits / 8) == n.bits;
    ValOfToBytes(n.base, n.bits / 8);
  }

  lemma TopBytes(n: Net)
    requires ValidNet(n)
    ensures Val(LastBytes(ToBytes(n.base, n.bits / 8), n.prefix)) == n.Last()
  {
    BaseBytes(n);
    LastVal(ToBytes(n.base, n.bits / 8), n.prefix);
  }

  /** checkReserved: the class of the first endpoint that is reserved. */
  function CheckReserved(first: Ip, last: Option<Ip>): (c: Class)
    ensures c == Ordinary <==> !IsReserved(first) && (last.Some? ==> !IsReserved(last.value))
    ensures IsReserved(first) ==> c == ReservedClass(first)
    ensures !IsReserved(first) && last.Some? && IsReserved(last.value) ==> c == ReservedClass(last.value)
  {
    if IsReserved(first) then ReservedClass(first)
    else if last.Some? then ReservedClass(last.value)
    else Ordinary
  }

  predicate NetPasses(n: Net)
    requires ValidNet(n)
  {
    CheckReserved(Canon(n.bits, n.base), LastOf(n)) == Ordinary
  }

  /** The check accepts the block although some address in it is reserved. */
  ghost predicate Leaks(n: Net)
    requires ValidNet(n)
  {
    NetPasses(n) && exists v :: n.base <= v < n.base + n.Size() && IsReserved(Canon(n.bits, v))
  }

  /** Two blocks that share `x`: the smaller one is inside the larger one. */
  lemma Nested(base: nat, h: nat, rb: nat, rh: nat, x: nat)
    requires Aligned(base, h) && Aligned(rb, rh)
    requires base <= x < base + Pow2(h) && rb <= x < rb + Pow2(rh)
    ensures h <= rh ==> rb <= base < rb + Pow2(rh)
    ensures h > rh ==> base <= rb && rb + Pow2(rh) <= base + Pow2(h)
  {
    if h <= rh { Laminar(base, h, rb, rh); } else { Laminar(rb, rh, base, h); }
  }

  /** A block of which `top` is an interior or final boundary, with `top` aligned to it, ends at `top`. */
  lemma EndsAt(base: nat, h: nat, top: nat)
    requires Aligned(base, h) && Aligned(top, h) && base < top <= base + Pow2(h)
    ensures base + Pow2(h) == top
  {
    AlignedGap(base, top, h);
  }

  /** The reserved IPv4 classes are blocks: 127/8 and 169.254/16, also 169.254/15 at the same base. */
  lemma ClassBlocks4()
    ensures Aligned(LOOPBACK4, 24) && Aligned(LINK_LOCAL4, 16) && Aligned(LINK_LOCAL4, 17)
    ensures Aligned(0x8000_0000, 31)
  {
    Pow2Values();
    AlignedMod(LOOPBACK4, 24);
    AlignedMod(LINK_LOCAL4, 16);
    AlignedMod(LINK_LOCAL4, 17);
    AlignedMod(0x8000_0000, 31);
  }

  /** So is fe80::/10, and so are the blocks right above it. */
  lemma ClassBlocks6()
    ensures Aligned(LINK_LOCAL6, 118) && Aligned(LINK_LOCAL6, 119)
    ensures Aligned(FE00, 120) && Aligned(FE00, 121)
  {
    Pow2Wide();
    AlignedMod(LINK_LOCAL6, 118);
    AlignedMod(LINK_LOCAL6, 119);
    AlignedMod(FE00, 120);
    AlignedMod(FE00, 121);
  }

  predicate V4Block(n: Net) { ValidNet(n) && n.bits == 32 }
  predicate V6Block(n: Net) { ValidNet(n) && n.bits == 128 && !(MAPPED_LO <= n.base < MAPPED_HI) }

  /** An IPv4 block the check accepts holds no loopback address. */
  lemma NoLoopback(n: Net, x: nat)
    requires V4Block(n) && NetPasses(n) && n.base <= x < n.base + n.Size()
    ensures !(LOOPBACK4 <= x < LOOPBACK4 + 0x100_0000)
  {
    if LOOPBACK4 <= x < LOOPBACK4 + 0x100_0000 {
      Pow2Values();
      var h := n.HostBits();
      ClassBlocks4();
      Nested(n.base, h, LOOPBACK4, 24, x);
      if h == 32 {
        BlockFits(n);
      } else if h > 24 {
        Pow2Aligned(31, h);
        EndsAt(n.base, h, 0x8000_0000);
      }
    }
  }

  /** Nor one from 224.0.0.0 up. */
  lemma NoHigh(n: Net, x: nat)
    requires V4Block(n) && NetPasses(n) && n.base <= x < n.base + n.Size()
    ensures x < MULTICAST4
  {
    Pow2Values();
    BlockFits(n);
  }

  /** A link-local address survives the check only inside a strictly wider block of prefix 2 to 14. */
  lemma LinkLocalWide(n: Net, x: nat)
    requires V4Block(n) && NetPasses(n) && n.base <= x < n.base + n.Size()
    requires LINK_LOCAL4 <= x < LINK_LOCAL4 + 0x1_0000
    ensures 2 <= n.prefix <= 14 && n.base <= LINK_LOCAL4 < n.base + n.Size()
  {
    Pow2Values();
    var h := n.HostBits();
    BlockFits(n);
    ClassBlocks4();
    Nested(n.base, h, LINK_LOCAL4, 16, x);
    if h == 17 { Nested(n.base, h, LINK_LOCAL4, 17, x); }
    if h == 31 { Nested(n.base, h, 0x8000_0000, 31, x); }
  }

  lemma WideFrame()
    ensures Pow2(30) == 0x4000_0000 && Aligned(0x8000_0000, 30)
  {
    Pow2Values();
    AlignedMod(0x8000_0000, 30);
  }

  /** Where such a block can lie: inside 128.0.0.0/2, on boundaries 169.254.0.0/16 does not have. */
  lemma WidePlace(base: nat, h: nat)
    requires 18 <= h <= 30 && Aligned(base, h) && base <= LINK_LOCAL4 < base + Pow2(h)
    ensures 0x8000_0000 <= base && base + Pow2(h) <= 0xc000_0000
    ensures Aligned(base, 18) && Aligned(base + Pow2(h), 18)
  {
    WideFrame();
    Laminar(base, h, 0x8000_0000, 30);
    AlignedDown(base, h, 18);
    Pow2Aligned(h, 18);
    AlignedSum(base, Pow2(h), 18);
  }

  /** Conversely every such block passes. */
  lemma WidePasses(n: Net)
    requires V4Block(n) && 2 <= n.prefix <= 14 && n.base <= LINK_LOCAL4 < n.base + n.Size()
    ensures NetPasses(n)
  {
    WidePlace(n.base, n.HostBits());
    WideStart(n.base);
    WideEnd(n.base + n.Size());
  }

  lemma WideStart(b: nat)
    requires Aligned(b, 18) && 0x8000_0000 <= b <= LINK_LOCAL4
    ensures !IsReserved(V4(b)) && b < LINK_LOCAL4
  {
    Pow2Values();
    AlignedMod(b, 18);
  }

  lemma WideEnd(e: nat)
    requires Aligned(e, 18) && LINK_LOCAL4 < e <= 0xc000_0000
    ensures !IsReserved(V4(e - 1)) && LINK_LOCAL4 < e - 1
  {
    Pow2Values();
    AlignedMod(e, 18);
  }

  /** For IPv4 the check is wrong exactly on the blocks of prefix 2 to 14 around 169.254.0.0. */
  lemma LeaksV4(n: Net)
    requires V4Block(n)
    ensures Leaks(n) <==> 2 <= n.prefix <= 14 && n.base <= LINK_LOCAL4 < n.base + n.Size()
  {
    if Leaks(n) {
      var x :| n.base <= x < n.base + n.Size() && IsReserved(Canon(n.bits, x));
      NoLoopback(n, x);
      NoHigh(n, x);
      if x > 0 { LinkLocalWide(n, x); }
    }
    if 2 <= n.prefix <= 14 && n.base <= LINK_LOCAL4 < n.base + n.Size() {
      WidePasses(n);
      assert IsReserved(Canon(n.bits, LINK_LOCAL4));
    }
  }

  /** A block around ::ffff:0:0/96 starts at :: or ends where the mapped range ends. */
  lemma AroundMapped(base: nat, h: nat)
    requires h > 32 && Aligned(base, h) && base <= MAPPED_LO && MAPPED_HI <= base + Pow2(h)
    ensures h >= 48 ==> base == 0
    ensures h <= 48 ==> base + Pow2(h) == MAPPED_HI
  {
    Pow2Values();
    if h >= 48 {
      AlignedDown(base, h, 48);
      AlignedMod(base, 48);
    }
    if h <= 48 {
      Pow2Aligned(48, h);
      EndsAt(base, h, MAPPED_HI);
    }
  }

  /** An IPv6 block that reaches into ::ffff:0:0/96 without lying inside it is always rejected. */
  lemma NoMapped(n: Net, x: nat)
    requires V6Block(n) && NetPasses(n) && n.base <= x < n.base + n.Size()
    ensures !(MAPPED_LO <= x < MAPPED_HI)
  {
    if MAPPED_LO <= x < MAPPED_HI {
      MappedIsBlock();
      Nested(n.base, n.HostBits(), MAPPED_LO, 32, x);
      AroundMapped(n.base, n.HostBits());
    }
  }

  lemma NoLow6(n: Net, x: nat)
    requires V6Block(n) && NetPasses(n) && n.base <= x < n.base + n.Size()
    ensures x > 1
  {
    Pow2Values();
    if n.HostBits() > 0 { AlignedDown(n.base, n.HostBits(), 1); }
  }

  lemma NoMulticast6(n: Net, x: nat)
    requires V6Block(n) && NetPasses(n) && n.base <= x < n.base + n.Size()
    ensures x < MULTICAST6
  {
    Pow2Wide();
    BlockFits(n);
  }

  /** The one IPv6 block around fe80::/10 that both endpoints miss. */
  lemma LinkLocal6Wide(n: Net, x: nat)
    requires V6Block(n) && NetPasses(n) && n.base <= x < n.base + n.Size()
    requires LINK_LOCAL6 <= x < LINK_LOCAL6_END
    ensures n == Net(128, FE00, 8)
  {
    Pow2Wide();
    var h := n.HostBits();
    BlockFits(n);
    ClassBlocks6();
    Nested(n.base, h, LINK_LOCAL6, 118, x);
    if h == 119 {
      Nested(n.base, h, LINK_LOCAL6, 119, x);
    } else if h == 120 {
      Nested(n.base, h, FE00, 120, x);
      Nested(FE00, 120, n.base, h, x);
    } else if h > 120 {
      Nested(n.base, h, FE00, 121, x);
    }
  }

  lemma LeaksV6(n: Net)
    requires V6Block(n)
    ensures Leaks(n) <==> n == Net(128, FE00, 8)
  {
    if Leaks(n) {
      var x :| n.base <= x < n.base + n.Size() && IsReserved(Canon(n.bits, x));
      NoMapped(n, x);
      NoLow6(n, x);
      NoMulticast6(n, x);
      LinkLocal6Wide(n, x);
    }
    if n == Net(128, FE00, 8) {
      Pow2Wide();
      assert IsReserved(Canon(n.bits, LINK_LOCAL6));
    }
  }

  /** A block based in the mapped range stays in it, address for address with its IPv4 form. */
  lemma MappedBlock(n: Net)
    requires ValidNet(n) && n.bits == 128 && MAPPED_LO <= n.base < MAPPED_HI
    ensures V4Block(Norm(n)) && n.base + n.Size() <= MAPPED_HI
    ensures forall v :: n.base <= v < n.base + n.Size() ==> Canon(128, v) == Canon(32, v - MAPPED_LO)
  {
    MappedPrefix(n);
    Pow2Values();
    MappedIsBlock();
    Laminar(n.base, n.HostBits(), MAPPED_LO, 32);
  }

  lemma MappedEnds(n: Net)
    requires ValidNet(n) && n.bits == 128 && MAPPED_LO <= n.base < MAPPED_HI
    ensures var m := Norm(n); Canon(m.bits, m.base) == Canon(n.bits, n.base) && LastOf(m) == LastOf(n)
  {
    MappedBlock(n);
  }

  lemma MappedPasses(n: Net)
    requires ValidNet(n) && n.bits == 128 && MAPPED_LO <= n.base < MAPPED_HI
    ensures NetPasses(n) <==> NetPasses(Norm(n))
  {
    MappedEnds(n);
  }

  lemma LeaksMapped(n: Net)
    requires ValidNet(n) && n.bits == 128 && MAPPED_LO <= n.base < MAPPED_HI
    ensures Leaks(n) <==> Leaks(Norm(n))
  {
    MappedPasses(n);
    MappedBlock(n);
    var m := Norm(n);
    if x :| n.base <= x < n.base + n.Size() && IsReserved(Canon(n.bits, x)) {
      assert Canon(m.bits, x - MAPPED_LO) == Canon(n.bits, x);
    }
    if x :| m.base <= x < m.base + m.Size() && IsReserved(Canon(m.bits, x)) {
      assert Canon(n.bits, x + MAPPED_LO) == Canon(m.bits, x);
    }
  }

  /**
   The two-endpoint check over every CIDR block of either family. It accepts a block that
   holds a reserved address exactly for the IPv4 (or IPv4-mapped) blocks of prefix 2 to 14
   around 169.254.0.0 and for the IPv6 block fe00::/8.
   */
  lemma LeaksExactly(n: Net)
    requires ValidNet(n)
    ensures Leaks(n) <==>
            || n == Net(128, FE00, 8)
            || (var m := Norm(n);
                m.bits == 32 && 2 <= m.prefix <= 14 && m.base <= LINK_LOCAL4 < m.base + m.Size())
  {
    if n.bits == 32 {
      LeaksV4(n);
    } else if MAPPED_LO <= n.base < MAPPED_HI {
      LeaksMapped(n);
      MappedBlock(n);
      LeaksV4(Norm(n));
    } else {
      LeaksV6(n);
    }
  }

  /**
   A range both of whose ends are ordinary but which holds a reserved address in between
   spans at least 65538 addresses, so a cap of 65536 makes the endpoint check complete.
   */
  lemma RangeLeakIsLong(a: nat, b: nat, x: nat)
    requires a <= x <= b < TWO32
    requires !IsReserved(V4(a)) && !IsReserved(V4(b)) && IsReserved(V4(x))
    ensures b - a + 1 >= 65538
  {
  }
}
