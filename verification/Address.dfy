/**
 IP addresses and networks as Go's `net` package presents them to cidrutil.

 An address is either a 4-byte or a 16-byte big-endian string. The package treats a
 16-byte address inside ::ffff:0:0/96 as its 4-byte form (`To4`), and the text printed
 for both is the same. `Ip` is that canonical form. A network keeps the width of its
 mask, because the host-trimming rule looks at the width and not at the canonical form.
 */
module Address {
  import opened Arith

  const TWO32: nat := 0x1_0000_0000
  /** ::ffff:0:0 as a number, and the first number after ::ffff:255.255.255.255. */
  const MAPPED_LO: nat := 0xffff_0000_0000
  const MAPPED_HI: nat := 0x1_0000_0000_0000

  datatype Ip = V4(v: nat) | V6(v: nat) {
    function Bits(): nat { if V4? then 32 else 128 }
  }

  /** A canonical address: a V6 value is never in the IPv4-mapped range. */
  predicate ValidIp(ip: Ip) {
    match ip
    case V4(v) => v < TWO32
    case V6(v) => v < Pow2(128) && !(MAPPED_LO <= v < MAPPED_HI)
  }

  datatype Net = Net(bits: nat, base: nat, prefix: nat) {
    function HostBits(): nat requires prefix <= bits { bits - prefix }
    function Size(): nat requires prefix <= bits { Pow2(bits - prefix) }
    function Last(): nat requires prefix <= bits { base + Pow2(bits - prefix) - 1 }
  }

  /** What `net.ParseCIDR` returns: a 4- or 16-byte network whose host bits are zero. */
  predicate ValidNet(n: Net) {
    && (n.bits == 32 || n.bits == 128)
    && n.prefix <= n.bits
    && n.base < Pow2(n.bits)
    && Aligned(n.base, n.bits - n.prefix)
  }

  /** The canonical address whose big-endian value, in `bits` bits, is `v`. */
  function Canon(bits: nat, v: nat): Ip {
    if bits == 32 then V4(v)
    else if MAPPED_LO <= v < MAPPED_HI then V4(v - MAPPED_LO)
    else V6(v)
  }

  /** A network inside ::ffff:0:0/96 is matched as the IPv4 network it maps. */
  function Norm(n: Net): (m: Net)
    requires ValidNet(n)
    ensures ValidNet(m)
    ensures m.Size() == n.Size()
    ensures m.bits == 128 ==> m == n
  {
    if n.bits == 128 && MAPPED_LO <= n.base < MAPPED_HI then
      MappedNet(n);
      Net(32, n.base - MAPPED_LO, n.prefix - 96)
    else n
  }

  /** ::ffff:0:0/96 is a block. */
  lemma MappedIsBlock()
    ensures Aligned(MAPPED_LO, 32) && Pow2(32) == MAPPED_HI - MAPPED_LO
  {
    Pow2Values();
    AlignedMod(MAPPED_LO, 32);
  }

  lemma NormBlock(n: Net)
    requires ValidNet(n)
    ensures Aligned(Norm(n).base, n.HostBits()) && Norm(n).HostBits() == n.HostBits()
    ensures Norm(n).Size() == n.Size() == Pow2(n.HostBits())
  {
  }

  /** Only a prefix of at least 96 leaves a masked base inside the mapped range. */
  lemma MappedPrefix(n: Net)
    requires ValidNet(n) && n.bits == 128 && MAPPED_LO <= n.base < MAPPED_HI
    ensures n.prefix >= 96
  {
    Pow2Values();
    if n.prefix < 96 {
      AlignedDown(n.base, 128 - n.prefix, 33);
      AlignedMod(n.base, 33);
    }
  }

  lemma MappedAligned(n: Net)
    requires ValidNet(n) && n.bits == 128 && MAPPED_LO <= n.base < MAPPED_HI && n.prefix >= 96
    ensures Aligned(n.base - MAPPED_LO, 128 - n.prefix)
    ensures n.base - MAPPED_LO < Pow2(32)
  {
    Pow2Values();
    MappedIsBlock();
    AlignedDown(MAPPED_LO, 32, 128 - n.prefix);
    AlignedSum(n.base, MAPPED_LO, 128 - n.prefix);
  }

  lemma MappedNet(n: Net)
    requires ValidNet(n) && n.bits == 128 && MAPPED_LO <= n.base < MAPPED_HI
    ensures n.prefix >= 96 && ValidNet(Net(32, n.base - MAPPED_LO, n.prefix - 96))
    ensures Net(32, n.base - MAPPED_LO, n.prefix - 96).Size() == n.Size()
  {
    MappedPrefix(n);
    MappedAligned(n);
  }

  /**
   Go's IPNet.Contains on a canonical address: the widths agree and the address lies in the block.
   `ContainsIsMasked` is the comparison under the mask that Go makes.
   */
  predicate Contains(n: Net, ip: Ip)
    requires ValidNet(n)
  {
    var m := Norm(n);
    ip.Bits() == m.bits && m.base <= ip.v < m.base + m.Size()
  }

  /** Masking with `prefix` leading ones clears the low host bits; the result is the network number. */
  lemma ContainsIsMasked(n: Net, ip: Ip)
    requires ValidNet(n)
    ensures Contains(n, ip) <==> ip.Bits() == Norm(n).bits && ip.v - ip.v % n.Size() == Norm(n).base
  {
    TruncIsBlock(ip.v, Norm(n).base, Norm(n).HostBits());
  }

  /** The block of `inner` lies inside the block of `outer`, both as matched. */
  ghost predicate Within(inner: Net, outer: Net)
    requires ValidNet(inner) && ValidNet(outer)
  {
    var a, b := Norm(inner), Norm(outer);
    a.bits == b.bits && b.base <= a.base && a.base + a.Size() <= b.base + b.Size()
  }

  /** A block never runs past the end of its address space. */
  lemma BlockFits(n: Net)
    requires ValidNet(n)
    ensures n.base + n.Size() <= Pow2(n.bits)
  {
    Pow2Aligned(n.bits, n.HostBits());
    AlignedGap(n.base, Pow2(n.bits), n.HostBits());
  }
}
