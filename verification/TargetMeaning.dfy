/**
 What a target text means, said from its parts alone, and that validation, expansion and
 partition compute exactly that.
 */
module TargetMeaning {
  import opened Arith
  import opened Address
  import opened Reserved
  import opened Enumerate
  import opened Targets
  import opened TargetTheorems
  import opened Sequences
  import opened Wrappers

  // ---------------------------------------------------------------- the addresses of a part

  /** The address is one of those the part stands for. */
  ghost predicate Names(p: Part, ip: Ip)
    requires ValidPart(p)
  {
    match p
    case Blank => false
    case Junk => false
    case IpPart(q) => ip == q
    case CidrPart(n) => IsHost(n, ip)
    case RangePart(start, end) =>
      && start.Some? && start.value.V4? && EndOf(start.value.v, end).Some? && ip.V4?
      && var a, b := start.value.v, EndOf(start.value.v, end).value;
         a <= ip.v <= b || b <= ip.v <= a
  }

  lemma CutShortListsHosts(n: Net, ip: Ip)
    requires ValidNet(n) && CutShort(n) && ip in HostList(n)
    ensures IsHost(n, ip)
  {
    assert n.Size() > MAPPED_HI && Pow2(128) > MAPPED_HI by {
      Pow2Values();
      Pow2Wide();
      Pow2Mono(49, n.HostBits());
      assert Pow2(49) == 2 * MAPPED_HI;
    }
    UpwardsMember(128, n.base, MAPPED_LO - n.base, ip);
  }

  lemma CidrNames(n: Net, ip: Ip)
    requires ValidNet(n)
    ensures ip in HostList(n) ==> IsHost(n, ip)
    ensures !CutShort(n) ==> (ip in HostList(n) <==> IsHost(n, ip))
  {
    if CutShort(n) {
      if ip in HostList(n) { CutShortListsHosts(n, ip); }
    } else {
      HostExact(n, ip);
    }
  }

  lemma RangeNames(start: Option<Ip>, end: RangeEnd, ip: Ip)
    requires ValidPart(RangePart(start, end)) && RangeBounds(start, end).Ok?
    ensures var (a, b) := RangeBounds(start, end).value;
            RangeList(a, b).Some? ==> (ip in RangeList(a, b).value <==> Names(RangePart(start, end), ip))
  {
    RangeBoundsExactly(start, end);
    var (a, b) := RangeBounds(start, end).value;
    if RangeList(a, b).Some? { RangeOrdinary(a, b, ip); }
  }

  /** Expansion of a part lists the addresses it names; ::/p with p < 80 is the one block it leaves unfinished. */
  lemma PartNames(p: Part, allow: bool, ip: Ip)
    requires ValidPart(p) && ExpandPart(p, allow).Ok?
    ensures ip in ExpandPart(p, allow).value ==> Names(p, ip)
    ensures !(p.CidrPart? && CutShort(p.net)) ==> (ip in ExpandPart(p, allow).value <==> Names(p, ip))
    ensures !allow ==> (ip in ExpandPart(p, allow).value <==> Names(p, ip))
  {
    match p {
      case CidrPart(n) =>
        CidrNames(n, ip);
        if CutShort(n) { assert IsReserved(Canon(n.bits, n.base)); }
      case RangePart(start, end) => RangeNames(start, end, ip);
      case _ =>
    }
  }

  /** Each address once, lowest first. */
  ghost predicate Rising(ips: seq<Ip>) { forall i, j :: 0 <= i < j < |ips| ==> ips[i].v < ips[j].v }

  lemma PartRises(p: Part, allow: bool)
    requires ValidPart(p) && ExpandPart(p, allow).Ok?
    ensures Rising(ExpandPart(p, allow).value)
  {
    if p.CidrPart? { HostsCountAndOrder(p.net); }
  }

  // ---------------------------------------------------------------- which parts validate

  /** The lowest and the highest address of a part, network and broadcast address included. */
  function EndsOf(p: Part): Option<(Ip, Ip)>
    requires ValidPart(p)
  {
    match p
    case IpPart(ip) => Some((ip, ip))
    case CidrPart(n) => Some((Canon(n.bits, n.base), Canon(n.bits, n.Last())))
    case RangePart(Some(V4(a)), end) =>
      (match EndOf(a, end)
       case None => None
       case Some(b) => Some(if a <= b then (V4(a), V4(b)) else (V4(b), V4(a))))
    case _ => None
  }

  /**
   A part validates exactly when it is blank or parses and, unless the check is off, has ordinary ends;
   a refusal names the class of the first end that is reserved.
   */
  lemma CheckPartExactly(p: Part, allow: bool)
    requires ValidPart(p)
    ensures CheckPart(p, allow) == None <==>
            p == Blank || (EndsOf(p).Some? && (allow || !(IsReserved(EndsOf(p).value.0) || IsReserved(EndsOf(p).value.1))))
    ensures EndsOf(p).Some? && CheckPart(p, allow).Some? ==>
            var (lo, hi) := EndsOf(p).value;
            CheckPart(p, allow) == Some(ReservedTarget(ReservedClass(if IsReserved(lo) then lo else hi)))
    ensures EndsOf(p).None? && p != Blank ==>
            CheckPart(p, allow) == Some(if p == Junk then InvalidTarget
                                        else if p.start.Some? && p.start.value.V6? then IPv6RangeUnsupported
                                        else InvalidIPRange)
  {
    match p {
      case CidrPart(n) =>
        if n.prefix == n.bits { assert Pow2(0) == 1; }
      case RangePart(start, end) => RangeBoundsExactly(start, end);
      case _ =>
    }
  }

  /** The verdict on a spec is the verdict on its first failing part. */
  lemma {:induction false} FirstErrorIsFirst(parts: seq<Part>, allow: bool) returns (i: nat)
    requires (forall p :: p in parts ==> ValidPart(p)) && FirstError(parts, allow).Some?
    ensures i < |parts| && FirstError(parts, allow) == CheckPart(parts[i], allow)
    ensures forall j :: 0 <= j < i ==> CheckPart(parts[j], allow) == None
  {
    if CheckPart(parts[0], allow).Some? {
      i := 0;
    } else {
      var k := FirstErrorIsFirst(parts[1..], allow);
      i := k + 1;
      forall j | 0 <= j < i ensures CheckPart(parts[j], allow) == None {
        if j > 0 { assert parts[j] == parts[1..][j - 1]; }
      }
    }
  }

  /** Over every spec: validation accepts exactly when there is more than a blank text and every part validates. */
  lemma ValidateExactly(parts: seq<Part>, allow: bool)
    requires ValidSpec(parts)
    ensures ValidateSpec(parts, allow) == None <==> parts != [Blank] && forall p :: p in parts ==> CheckPart(p, allow) == None
    ensures ValidateSpec(parts, allow) == Some(EmptyTargets) <==> parts == [Blank]
  {
    NoFirstError(parts, allow);
    if FirstError(parts, allow).Some? {
      var i := FirstErrorIsFirst(parts, allow);
      assert parts[i] in parts;
      CheckPartExactly(parts[i], allow);
    }
  }

  // ---------------------------------------------------------------- expansion of a spec

  /** Expansion goes part by part, left to right: it commutes with joining specs. */
  function Joined(a: Result<seq<Ip>, TargetError>, b: Result<seq<Ip>, TargetError>): Result<seq<Ip>, TargetError> {
    if a.Err? then a else if b.Err? then b else Ok(a.value + b.value)
  }

  lemma ExpandOne(p: Part, allow: bool)
    requires ValidPart(p)
    ensures ExpandAll([p], allow) == ExpandPart(p, allow)
  {
    assert [p][..0] == [];
    if ExpandPart(p, allow).Ok? { assert [] + ExpandPart(p, allow).value == ExpandPart(p, allow).value; }
  }

  lemma {:induction false} ExpandJoins(a: seq<Part>, b: seq<Part>, allow: bool)
    requires (forall p :: p in a ==> ValidPart(p)) && (forall p :: p in b ==> ValidPart(p))
    ensures ExpandAll(a + b, allow) == Joined(ExpandAll(a, allow), ExpandAll(b, allow))
  {
    if b == [] {
      assert a + b == a;
      if ExpandAll(a, allow).Ok? { assert ExpandAll(a, allow).value + [] == ExpandAll(a, allow).value; }
    } else {
      var init, last := b[..|b| - 1], b[|b| - 1];
      ExpandJoins(a, init, allow);
      assert (a + b)[..|a + b| - 1] == a + init && last in b;
      JoinAssociates(ExpandAll(a, allow), ExpandAll(init, allow), ExpandPart(last, allow));
    }
  }

  lemma JoinAssociates(a: Result<seq<Ip>, TargetError>, b: Result<seq<Ip>, TargetError>, c: Result<seq<Ip>, TargetError>)
    ensures Joined(Joined(a, b), c) == Joined(a, Joined(b, c))
  {
    if a.Ok? && b.Ok? && c.Ok? { assert (a.value + b.value) + c.value == a.value + (b.value + c.value); }
  }

  /** A failing expansion reports the first part that fails. */
  lemma {:induction false} ExpandErrorIsFirst(parts: seq<Part>, allow: bool) returns (i: nat)
    requires (forall p :: p in parts ==> ValidPart(p)) && ExpandAll(parts, allow).Err?
    ensures i < |parts| && ExpandAll(parts, allow) == ExpandPart(parts[i], allow)
    ensures forall j :: 0 <= j < i ==> ExpandPart(parts[j], allow).Ok?
  {
    var init := parts[..|parts| - 1];
    if ExpandAll(init, allow).Err? {
      i := ExpandErrorIsFirst(init, allow);
    } else {
      i := |init|;
      ExpandAllMember(init, allow);
      assert forall j :: 0 <= j < i ==> parts[j] in init;
    }
  }

  /** With the reserved check on a spec expands to exactly the addresses its parts name. */
  lemma SpecNames(parts: seq<Part>, ip: Ip)
    requires ValidSpec(parts) && ExpandSpec(parts, false).Ok?
    ensures ip in ExpandSpec(parts, false).value <==> exists p :: p in parts && Names(p, ip)
  {
    ExpandSpecMember(parts, false);
    forall p | p in parts ensures ip in ExpandPart(p, false).value <==> Names(p, ip) {
      PartNames(p, false, ip);
    }
  }

  /** When there is nothing to expand, and what is reported then. */
  lemma NothingToExpand(parts: seq<Part>, allow: bool)
    requires ValidSpec(parts)
    ensures ExpandSpec(parts, allow) == Err(EmptyTargets) <==> parts == [Blank]
    ensures ExpandSpec(parts, allow) == Err(NoValidTargets) <==> |parts| > 1 && forall p :: p in parts ==> p == Blank
  {
    forall p | p in parts ensures ExpandPart(p, allow) != Err(EmptyTargets) && ExpandPart(p, allow) != Err(NoValidTargets) {
      CheckPartExactly(p, allow);
    }
    if |parts| == 1 {
      assert parts == [parts[0]];
    } else if ExpandAll(parts, allow).Ok? {
      NonEmptyExpansion(parts, allow);
    } else {
      var i := ExpandErrorIsFirst(parts, allow);
      assert parts[i] in parts;
      PartExpands(parts[i], allow);
      CheckPartExactly(Blank, allow);
    }
  }

  // ---------------------------------------------------------------- the partition

  /** The partition over every spec: nothing without a network, the expansion's own error, or the named addresses by side. */
  lemma PartitionExactly(parts: seq<Part>, net: Net, ip: Ip)
    requires ValidSpec(parts) && ValidNet(net)
    ensures PartitionSpec(parts, None) == Ok(Partition([], []))
    ensures ExpandSpec(parts, false).Err? ==> PartitionSpec(parts, Some(net)) == Err(ExpandSpec(parts, false).error)
    ensures ExpandSpec(parts, false).Ok? ==>
            && PartitionSpec(parts, Some(net)).Ok?
            && var p := PartitionSpec(parts, Some(net)).value;
               && (ip in p.inside <==> Contains(net, ip) && exists q :: q in parts && Names(q, ip))
               && (ip in p.outside <==> !Contains(net, ip) && exists q :: q in parts && Names(q, ip))
  {
    if ExpandSpec(parts, false).Ok? {
      SpecNames(parts, ip);
      KeepFilters(ExpandSpec(parts, false).value, net);
    }
  }

  lemma KeepOrderStep(init: seq<Ip>, last: Ip, net: Net, inside: bool)
    requires ValidNet(net) && Subseq(Keep(init, net, inside), init)
    ensures Subseq(Keep(init + [last], net, inside), init + [last])
  {
    KeepSnoc(init, last, net);
    if Contains(net, last) == inside {
      SubseqBoth(Keep(init, net, inside), init, last);
    } else {
      SubseqExtend(Keep(init, net, inside), init, last);
    }
  }

  /** Each side of a partition keeps the order of the expansion. */
  lemma {:induction false} KeepInOrder(ips: seq<Ip>, net: Net, inside: bool)
    requires ValidNet(net)
    ensures Subseq(Keep(ips, net, inside), ips)
  {
    if ips == [] {
    } else {
      var init, last := ips[..|ips| - 1], ips[|ips| - 1];
      KeepInOrder(init, net, inside);
      KeepOrderStep(init, last, net, inside);
      assert ips == init + [last];
    }
  }
}
