/** What expansion and partition guarantee, over every spec. */
module TargetTheorems {
  import opened Arith
  import opened Address
  import opened Bytes
  import opened Reserved
  import opened Enumerate
  import opened Targets
  import opened Wrappers

  /** Writing a range backwards gives the same range. */
  lemma SwappedRange(a: Ip, b: Ip)
    requires ValidIp(a) && ValidIp(b) && a.V4? && b.V4?
    ensures RangeBounds(Some(a), EndIp(b)) == RangeBounds(Some(b), EndIp(a))
    ensures forall allow :: ExpandPart(RangePart(Some(a), EndIp(b)), allow)
                         == ExpandPart(RangePart(Some(b), EndIp(a)), allow)
  {
  }

  /** "a.b.c.d-n" is the range to the address whose last byte is n and whose other bytes are the start's. */
  lemma OctetReplacesLastByte(a: Ip, n: Byte)
    requires ValidIp(a) && a.V4?
    ensures var b := V4(Val(ToBytes(a.v, 4)[3 := n]));
            ValidIp(b) && RangeBounds(Some(a), EndOctet(n)) == RangeBounds(Some(a), EndIp(b))
  {
    var s := ToBytes(a.v, 4);
    RangeStart(a.v);
    assert s == s[..3] + [s[3]] && s[3 := n] == s[..3] + [n];
    ValSnoc(s[..3], s[3]);
    ValSnoc(s[..3], n);
  }

  /** Keep is a filter. */
  lemma {:induction false} KeepFilter(ips: seq<Ip>, net: Net, inside: bool, ip: Ip)
    requires ValidNet(net)
    ensures ip in Keep(ips, net, inside) <==> ip in ips && Contains(net, ip) == inside
  {
    if ips == [] {
    } else {
      var init, last := ips[..|ips| - 1], ips[|ips| - 1];
      KeepFilter(init, net, inside, ip);
      assert ips == init + [last];
    }
  }

  lemma Snoc(a: seq<Ip>, b: seq<Ip>, c: seq<Ip>, x: Ip)
    requires multiset(a) + multiset(b) == multiset(c)
    ensures multiset(a + [x]) + multiset(b) == multiset(c + [x])
    ensures multiset(a) + multiset(b + [x]) == multiset(c + [x])
  {
  }

  lemma KeepSnoc(init: seq<Ip>, last: Ip, net: Net)
    requires ValidNet(net)
    ensures var a, b := Keep(init, net, true), Keep(init, net, false);
            && Keep(init + [last], net, true) == (if Contains(net, last) then a + [last] else a)
            && Keep(init + [last], net, false) == (if Contains(net, last) then b else b + [last])
  {
    assert (init + [last])[..|init|] == init;
  }

  lemma ConservesStep(init: seq<Ip>, last: Ip, net: Net)
    requires ValidNet(net)
    requires multiset(Keep(init, net, true)) + multiset(Keep(init, net, false)) == multiset(init)
    ensures multiset(Keep(init + [last], net, true)) + multiset(Keep(init + [last], net, false)) == multiset(init + [last])
  {
    KeepSnoc(init, last, net);
    Snoc(Keep(init, net, true), Keep(init, net, false), init, last);
  }

  lemma SnocView(ips: seq<Ip>) returns (init: seq<Ip>, last: Ip)
    requires ips != []
    ensures ips == init + [last] && |init| < |ips|
  {
    init, last := ips[..|ips| - 1], ips[|ips| - 1];
  }

  /** The two sides together are the whole list. */
  lemma {:induction false} KeepConserves(ips: seq<Ip>, net: Net)
    requires ValidNet(net)
    ensures multiset(Keep(ips, net, true)) + multiset(Keep(ips, net, false)) == multiset(ips)
    decreases |ips|
  {
    if ips == [] {
    } else {
      var init, last := SnocView(ips);
      KeepConserves(init, net);
      ConservesStep(init, last, net);
    }
  }

  lemma KeepFilters(ips: seq<Ip>, net: Net)
    requires ValidNet(net)
    ensures forall ip :: ip in Keep(ips, net, true) <==> ip in ips && Contains(net, ip)
    ensures forall ip :: ip in Keep(ips, net, false) <==> ip in ips && !Contains(net, ip)
  {
    forall ip, side ensures ip in Keep(ips, net, side) <==> ip in ips && Contains(net, ip) == side {
      KeepFilter(ips, net, side, ip);
    }
  }

  /** A block that passes the check does not run across the IPv4-mapped range. */
  lemma PassingDoesNotStraddle(n: Net)
    requires ValidNet(n) && NetPasses(n)
    ensures !Straddles(n)
  {
    if Straddles(n) { NoMapped(n, MAPPED_LO); }
  }

  lemma SingleCidr(n: Net, net: Net)
    requires ValidNet(n) && ValidNet(net)
    requires PartitionSpec([CidrPart(n)], Some(net)).Ok?
    ensures NetPasses(n) && !Straddles(n)
    ensures PartitionSpec([CidrPart(n)], Some(net)).value ==
            Partition(Keep(HostList(n), net, true), Keep(HostList(n), net, false))
  {
    assert [CidrPart(n)][0] == CidrPart(n);
    PassingDoesNotStraddle(n);
  }

  /**
   The boundary test on a CIDR target is exact: nothing is reported outside exactly when the
   whole block lies in the network, although the first and last address were dropped first.
   */
  lemma BoundaryExact(n: Net, net: Net)
    requires ValidNet(n) && ValidNet(net)
    requires PartitionSpec([CidrPart(n)], Some(net)).Ok?
    ensures PartitionSpec([CidrPart(n)], Some(net)).value.outside == [] <==> Within(n, net)
  {
    SingleCidr(n, net);
    KeepFilters(HostList(n), net);
    var out := Keep(HostList(n), net, false);
    if out != [] { assert out[0] in out; }
    AllInExactly(n, net);
  }

  /** A partition with both sides populated occurs only for a network strictly inside the target. */
  lemma MixedPartition(n: Net, net: Net)
    requires ValidNet(n) && ValidNet(net)
    requires PartitionSpec([CidrPart(n)], Some(net)).Ok?
    ensures var p := PartitionSpec([CidrPart(n)], Some(net)).value;
            p.inside != [] && p.outside != [] ==> Within(net, n) && !Within(n, net)
  {
    SingleCidr(n, net);
    KeepFilters(HostList(n), net);
    var p := PartitionSpec([CidrPart(n)], Some(net)).value;
    if p.inside != [] && p.outside != [] {
      assert p.inside[0] in p.inside && p.outside[0] in p.outside;
      MixedMeansInside(n, net, p.inside[0]);
    }
  }

  /** The expansion of a list holds exactly the addresses of its parts, if every part expands. */
  lemma {:induction false} ExpandAllMember(parts: seq<Part>, allow: bool)
    requires forall p :: p in parts ==> ValidPart(p)
    ensures ExpandAll(parts, allow).Ok? <==> forall p :: p in parts ==> ExpandPart(p, allow).Ok?
    ensures ExpandAll(parts, allow).Ok? ==> forall ip :: ip in ExpandAll(parts, allow).value <==>
              exists p :: p in parts && ip in ExpandPart(p, allow).value
  {
    if parts == [] {
    } else {
      var init, last := parts[..|parts| - 1], parts[|parts| - 1];
      ExpandAllMember(init, allow);
      assert parts == init + [last];
    }
  }

  lemma ExpandSpecMember(parts: seq<Part>, allow: bool)
    requires ValidSpec(parts) && ExpandSpec(parts, allow).Ok?
    ensures forall p :: p in parts ==> ExpandPart(p, allow).Ok?
    ensures forall ip :: ip in ExpandSpec(parts, allow).value <==>
              exists p :: p in parts && ip in ExpandPart(p, allow).value
  {
    if |parts| == 1 {
      assert parts == [parts[0]];
    } else {
      ExpandAllMember(parts, allow);
    }
  }

  /** Whatever expands also validates. */
  lemma ExpandImpliesValid(parts: seq<Part>, allow: bool)
    requires ValidSpec(parts) && ExpandSpec(parts, allow).Ok?
    ensures ValidateSpec(parts, allow) == None
  {
    ExpandSpecMember(parts, allow);
    NoFirstError(parts, allow);
  }

  lemma {:induction false} NoFirstError(parts: seq<Part>, allow: bool)
    requires forall p :: p in parts ==> ValidPart(p)
    ensures FirstError(parts, allow) == None <==> forall p :: p in parts ==> CheckPart(p, allow) == None
  {
    if parts == [] {
    } else {
      NoFirstError(parts[1..], allow);
      assert parts == [parts[0]] + parts[1..];
    }
  }

  /** A range within the cap of 65536 addresses. */
  predicate ShortRange(p: Part)
    requires ValidPart(p)
  {
    p.RangePart? && RangeBounds(p.start, p.end).Ok? ==>
      var (a, b) := RangeBounds(p.start, p.end).value;
      b - a + 1 <= 65536
  }

  lemma HostsNonEmpty(n: Net)
    requires ValidNet(n)
    ensures HostList(n) != []
  {
    HostsCountAndOrder(n);
    assert Pow2(2) == 4;
    if n.bits == 32 && n.prefix <= 30 { Pow2Mono(2, 32 - n.prefix); }
  }

  /** A part expands iff it validates and is no long range, and then to nothing only if it is blank. */
  lemma PartExpands(p: Part, allow: bool)
    requires ValidPart(p)
    ensures ExpandPart(p, allow).Ok? <==> CheckPart(p, allow) == None && ShortRange(p)
    ensures ExpandPart(p, allow).Ok? ==> (ExpandPart(p, allow).value == [] <==> p == Blank)
    ensures ExpandPart(p, allow).Err? ==>
            ExpandPart(p, allow).error == match CheckPart(p, allow) case Some(e) => e case None => TargetRangeTooLarge
  {
    if p.CidrPart? { HostsNonEmpty(p.net); }
  }

  /** The parts validate, some part is not blank, and no range is over the cap. */
  ghost predicate Passes(parts: seq<Part>, allow: bool)
    requires ValidSpec(parts)
  {
    && ValidateSpec(parts, allow) == None
    && (exists p :: p in parts && p != Blank)
    && (forall p :: p in parts ==> ShortRange(p))
  }

  lemma OnePartExpands(parts: seq<Part>, allow: bool)
    requires ValidSpec(parts) && |parts| == 1
    ensures ExpandSpec(parts, allow).Ok? <==> Passes(parts, allow)
  {
    var p := parts[0];
    assert parts == [p] && p in parts;
    PartExpands(p, allow);
    NoFirstError(parts, allow);
  }

  lemma ManyPartsExpand(parts: seq<Part>, allow: bool)
    requires ValidSpec(parts) && |parts| > 1
    ensures ExpandSpec(parts, allow).Ok? <==> Passes(parts, allow)
  {
    NoFirstError(parts, allow);
    ExpandAllMember(parts, allow);
    forall p | p in parts ensures ExpandPart(p, allow).Ok? <==> CheckPart(p, allow) == None && ShortRange(p) {
      PartExpands(p, allow);
    }
    if ExpandAll(parts, allow).Ok? { NonEmptyExpansion(parts, allow); }
  }

  /** Validation and expansion agree on every spec, but for the blank parts and the long ranges. */
  lemma ExpandExactly(parts: seq<Part>, allow: bool)
    requires ValidSpec(parts)
    ensures ExpandSpec(parts, allow).Ok? <==>
            && ValidateSpec(parts, allow) == None
            && (exists p :: p in parts && p != Blank)
            && (forall p :: p in parts ==> ShortRange(p))
  {
    if |parts| == 1 { OnePartExpands(parts, allow); } else { ManyPartsExpand(parts, allow); }
  }

  lemma NonEmptyExpansion(parts: seq<Part>, allow: bool)
    requires (forall p :: p in parts ==> ValidPart(p)) && ExpandAll(parts, allow).Ok?
    ensures ExpandAll(parts, allow).value != [] <==> exists p :: p in parts && p != Blank
  {
    ExpandAllMember(parts, allow);
    var all := ExpandAll(parts, allow).value;
    if all != [] {
      assert all[0] in all;
    }
    if p :| p in parts && p != Blank {
      PartExpands(p, allow);
      assert ExpandPart(p, allow).value[0] in all;
    }
  }

  /** A leaking block really does put a reserved address on the list. */
  lemma LeakIsListed(n: Net) returns (ip: Ip)
    requires ValidNet(n) && Leaks(n)
    ensures ip in HostList(n) && IsReserved(ip)
  {
    LeaksExactly(n);
    PassingDoesNotStraddle(n);
    if n == Net(128, FE00, 8) {
      Pow2Wide();
      ip := V6(LINK_LOCAL6);
    } else {
      ip := V4(LINK_LOCAL4);
      LeakInterior(n);
    }
    HostsAreInterval(n, ip);
  }

  lemma LeakInterior(n: Net)
    requires ValidNet(n) && Leaks(n) && n != Net(128, FE00, 8)
    ensures Norm(n).bits == 32
    ensures Norm(n).base < LINK_LOCAL4 < Norm(n).base + n.Size() - 1
  {
    LeaksExactly(n);
    var m := Norm(n);
    WidePlace(m.base, m.HostBits());
    WideStart(m.base);
    WideEnd(m.base + m.Size());
  }

  /** Single addresses and ranges that expand with the check on hold no reserved address. */
  lemma PartOrdinary(p: Part, ip: Ip)
    requires ValidPart(p) && ExpandPart(p, false).Ok? && ip in ExpandPart(p, false).value
    requires p.CidrPart? ==> !Leaks(p.net)
    ensures !IsReserved(ip)
  {
    match p {
      case CidrPart(n) => HostsOrdinary(n, ip);
      case RangePart(start, end) =>
        var (a, b) := RangeBounds(start, end).value;
        RangeOrdinary(a, b, ip);
      case _ =>
    }
  }

  /**
   With the reserved check on, an expanded spec holds a reserved address exactly when one of
   its CIDR parts is among the leaking blocks; ranges and single addresses never add one.
   */
  lemma ReservedExactlyByLeak(parts: seq<Part>)
    requires ValidSpec(parts) && ExpandSpec(parts, false).Ok?
    ensures (exists ip :: ip in ExpandSpec(parts, false).value && IsReserved(ip)) <==>
            (exists p :: p in parts && p.CidrPart? && Leaks(p.net))
  {
    if ip :| ip in ExpandSpec(parts, false).value && IsReserved(ip) {
      var p := ReservedHasLeak(parts, ip);
    }
    if p :| p in parts && p.CidrPart? && Leaks(p.net) {
      var ip := LeakHasReserved(parts, p);
    }
  }

  lemma ReservedHasLeak(parts: seq<Part>, ip: Ip) returns (p: Part)
    requires ValidSpec(parts) && ExpandSpec(parts, false).Ok?
    requires ip in ExpandSpec(parts, false).value && IsReserved(ip)
    ensures p in parts && p.CidrPart? && Leaks(p.net)
  {
    ExpandSpecMember(parts, false);
    p :| p in parts && ip in ExpandPart(p, false).value;
    if !(p.CidrPart? && Leaks(p.net)) { PartOrdinary(p, ip); }
  }

  lemma LeakHasReserved(parts: seq<Part>, p: Part) returns (ip: Ip)
    requires ValidSpec(parts) && ExpandSpec(parts, false).Ok? && p in parts && p.CidrPart? && Leaks(p.net)
    ensures ip in ExpandSpec(parts, false).value && IsReserved(ip)
  {
    ExpandSpecMember(parts, false);
    ip := LeakIsListed(p.net);
    assert ip in ExpandPart(p, false).value;
  }
}
