/**
 Target specs: validation, expansion and partition against a network.

 A spec is the list of its comma-separated parts. Each part carries what the library
 parsers say about its text: a CIDR, an address, two sides of a '-', or none of these.
 A spec with no comma is a one-part list, and the blank spec is `[Blank]`.
 */
module Targets {
  import opened Arith
  import opened Address
  import opened Reserved
  import opened Enumerate
  import opened Wrappers

  datatype TargetError =
    | EmptyTargets | NoValidTargets | InvalidTarget | InvalidIPRange
    | IPv6RangeUnsupported | TargetRangeTooLarge | ReservedTarget(class_: Class)

  /** The text after the '-': an address, a number, or neither. */
  datatype RangeEnd = EndIp(ip: Ip) | EndOctet(n: int) | EndJunk

  datatype Part =
    | Blank
    | CidrPart(net: Net)
    | IpPart(ip: Ip)
    | RangePart(start: Option<Ip>, end: RangeEnd)
    | Junk

  predicate ValidPart(p: Part) {
    match p
    case CidrPart(n) => ValidNet(n)
    case IpPart(ip) => ValidIp(ip)
    case RangePart(start, end) =>
      (start.Some? ==> ValidIp(start.value)) && (end.EndIp? ==> ValidIp(end.ip))
    case _ => true
  }

  /** strings.Split never returns an empty list. */
  predicate ValidSpec(parts: seq<Part>) {
    |parts| >= 1 && forall p :: p in parts ==> ValidPart(p)
  }

  /** rangeBounds: the two IPv4 endpoints, put in order. */
  function RangeBounds(start: Option<Ip>, end: RangeEnd): (r: Result<(nat, nat), TargetError>)
    requires ValidPart(RangePart(start, end))
    ensures r.Ok? ==> r.value.0 <= r.value.1 < TWO32
  {
    if start.None? then Err(InvalidIPRange)
    else if start.value.V6? then Err(IPv6RangeUnsupported)
    else
      var a := start.value.v;
      match end
      case EndIp(V4(b)) => Ok(if a > b then (b, a) else (a, b))
      case EndOctet(n) =>
        if n < 0 || n > 255 then Err(InvalidIPRange)
        else
          var b := a - a % 256 + n;
          Ok(if a > b then (b, a) else (a, b))
      case _ => Err(InvalidIPRange)
  }

  /** The endpoint the text after the '-' stands for: an IPv4 address, or the start with its last octet replaced. */
  function EndOf(a: nat, end: RangeEnd): Option<nat> {
    match end
    case EndIp(V4(b)) => Some(b)
    case EndOctet(n) => if 0 <= n <= 255 then Some(a - a % 256 + n) else None
    case _ => None
  }

  /** The bounds are the two endpoints the text names, whichever way round, and each failure has its error. */
  lemma RangeBoundsExactly(start: Option<Ip>, end: RangeEnd)
    requires ValidPart(RangePart(start, end))
    ensures var r := RangeBounds(start, end);
            && (r == Err(IPv6RangeUnsupported) <==> start.Some? && start.value.V6?)
            && (r == Err(InvalidIPRange) <==> start.None? || (start.value.V4? && EndOf(start.value.v, end).None?))
            && (r.Ok? <==> start.Some? && start.value.V4? && EndOf(start.value.v, end).Some?)
            && (r.Ok? ==> multiset{r.value.0, r.value.1} == multiset{start.value.v, EndOf(start.value.v, end).value})
            && (r.Ok? ==> r.value.0 <= r.value.1 < TWO32)
  {
  }

  /** The endpoint classification of one part; `allow` switches the reserved check off. */
  function CheckPart(p: Part, allow: bool): Option<TargetError>
    requires ValidPart(p)
  {
    match p
    case Blank => None
    case CidrPart(n) => Refuse(allow, CheckReserved(Canon(n.bits, n.base), LastOf(n)))
    case IpPart(ip) => Refuse(allow, ReservedClass(ip))
    case RangePart(start, end) =>
      (match RangeBounds(start, end)
       case Err(e) => Some(e)
       case Ok((a, b)) => Refuse(allow, CheckReserved(V4(a), Some(V4(b)))))
    case Junk => Some(InvalidTarget)
  }

  function Refuse(allow: bool, c: Class): Option<TargetError> {
    if allow || c == Ordinary then None else Some(ReservedTarget(c))
  }

  /** The first part that fails, scanning left to right. */
  function FirstError(parts: seq<Part>, allow: bool): Option<TargetError>
    requires forall p :: p in parts ==> ValidPart(p)
  {
    if parts == [] then None
    else if CheckPart(parts[0], allow).Some? then CheckPart(parts[0], allow)
    else FirstError(parts[1..], allow)
  }

  function ValidateSpec(parts: seq<Part>, allow: bool): Option<TargetError>
    requires ValidSpec(parts)
  {
    if parts == [Blank] then Some(EmptyTargets) else FirstError(parts, allow)
  }

  /** ValidateTargetsFor. */
  method ValidateTargetsFor(parts: seq<Part>, allow: bool) returns (err: Option<TargetError>)
    requires ValidSpec(parts)
    ensures err == ValidateSpec(parts, allow)
  {
    if parts == [Blank] {
      return Some(EmptyTargets);
    }
    var i := 0;
    while i < |parts|
      invariant i <= |parts|
      invariant FirstError(parts, allow) == FirstError(parts[i..], allow)
    {
      var part := parts[i];
      assert part in parts;
      err := CheckPartBody(part, allow);
      if err.Some? {
        return;
      }
      assert parts[i..][1..] == parts[i + 1..];
      i := i + 1;
    }
    err := None;
  }

  /** One turn of the validation loop, with the top of a block computed from its bytes. */
  method CheckPartBody(p: Part, allow: bool) returns (err: Option<TargetError>)
    requires ValidPart(p)
    ensures err == CheckPart(p, allow)
  {
    match p {
      case CidrPart(n) =>
        if allow {
          return None;
        }
        var last := LastAddress(n);
        err := Refuse(allow, CheckReserved(Canon(n.bits, n.base), last));
      case _ =>
        err := CheckPart(p, allow);
    }
  }

  /** The expansion of one part terminates: 0.0.0.0/0 is only ever enumerated with the flag on. */
  predicate Expandable(p: Part, allow: bool) {
    !(allow && p.CidrPart? && WholeV4(p.net))
  }

  predicate ExpandableSpec(parts: seq<Part>, allow: bool) {
    ValidSpec(parts) && forall p :: p in parts ==> Expandable(p, allow)
  }

  /** Expansion gets past every part but the ones it ends on: no 0.0.0.0/0 is reached with the flag on. */
  ghost predicate Returns(parts: seq<Part>, allow: bool)
    requires ValidSpec(parts)
  {
    forall i :: 0 <= i < |parts| && !Expandable(parts[i], allow) ==> ExpandAll(parts[..i], allow).Err?
  }

  /** expandSingle, as a value. */
  function ExpandPart(p: Part, allow: bool): Result<seq<Ip>, TargetError>
    requires ValidPart(p)
  {
    if CheckPart(p, allow).Some? then Err(CheckPart(p, allow).value)
    else
      match p
      case Blank => Ok([])
      case CidrPart(n) => Ok(HostList(n))
      case IpPart(ip) => Ok([ip])
      case RangePart(start, end) =>
        var (a, b) := RangeBounds(start, end).value;
        (match RangeList(a, b) case Some(ips) => Ok(ips) case None => Err(TargetRangeTooLarge))
  }

  function ExpandAll(parts: seq<Part>, allow: bool): Result<seq<Ip>, TargetError>
    requires forall p :: p in parts ==> ValidPart(p)
  {
    if parts == [] then Ok([])
    else
      match ExpandAll(parts[..|parts| - 1], allow)
      case Err(e) => Err(e)
      case Ok(ips) =>
        match ExpandPart(parts[|parts| - 1], allow)
        case Err(e) => Err(e)
        case Ok(more) => Ok(ips + more)
  }

  function ExpandSpec(parts: seq<Part>, allow: bool): Result<seq<Ip>, TargetError>
    requires ValidSpec(parts)
  {
    if parts == [Blank] then Err(EmptyTargets)
    else if |parts| == 1 then ExpandPart(parts[0], allow)
    else
      var r := ExpandAll(parts, allow);
      if r == Ok([]) then Err(NoValidTargets) else r
  }

  method ExpandSingle(p: Part, allow: bool) returns (r: Result<seq<Ip>, TargetError>)
    requires ValidPart(p) && Expandable(p, allow) && p != Blank
    ensures r == ExpandPart(p, allow)
  {
    var err := CheckPartBody(p, allow);
    if err.Some? {
      return Err(err.value);
    }
    match p {
      case CidrPart(n) =>
        WholeV4IsReserved(n);
        var ips := EnumerateCidr(n);
        r := Ok(ips);
      case IpPart(ip) =>
        r := Ok([ip]);
      case RangePart(start, end) =>
        var (a, b) := RangeBounds(start, end).value;
        var ips := EnumerateRange(a, b);
        r := if ips.Some? then Ok(ips.value) else Err(TargetRangeTooLarge);
    }
  }

  lemma WholeV4IsReserved(n: Net)
    requires ValidNet(n)
    ensures WholeV4(n) ==> !NetPasses(n)
  {
    Pow2Values();
    if WholeV4(n) { BlockFits(n); }
  }

  lemma {:induction false} ErrSticks(parts: seq<Part>, k: nat, allow: bool)
    requires k <= |parts| && forall p :: p in parts ==> ValidPart(p)
    requires ExpandAll(parts[..k], allow).Err?
    ensures ExpandAll(parts, allow) == ExpandAll(parts[..k], allow)
    decreases |parts| - k
  {
    if k == |parts| {
      assert parts[..k] == parts;
    } else {
      assert parts[..k + 1][..k] == parts[..k];
      ErrSticks(parts, k + 1, allow);
    }
  }

  /** ExpandTargetsFor. */
  method ExpandTargetsFor(parts: seq<Part>, allow: bool) returns (r: Result<seq<Ip>, TargetError>)
    requires ValidSpec(parts) && Returns(parts, allow)
    ensures r == ExpandSpec(parts, allow)
  {
    if parts == [Blank] {
      return Err(EmptyTargets);
    }
    if |parts| == 1 {
      assert parts == [parts[0]] && parts[..0] == [];
      r := ExpandSingle(parts[0], allow);
      return;
    }
    var ips := [];
    var i := 0;
    while i < |parts|
      invariant i <= |parts|
      invariant ExpandAll(parts[..i], allow) == Ok(ips)
    {
      var part := parts[i];
      assert part in parts && parts[..i + 1][..i] == parts[..i];
      if part != Blank {
        var e := ExpandSingle(part, allow);
        if e.Err? {
          ErrSticks(parts, i + 1, allow);
          return e;
        }
        ips := ips + e.value;
      } else {
        assert ips + [] == ips;
      }
      i := i + 1;
    }
    assert parts[..i] == parts;
    r := if ips == [] then Err(NoValidTargets) else Ok(ips);
  }

  /** The addresses on one side of the network, in expansion order. */
  function Keep(ips: seq<Ip>, net: Net, inside: bool): seq<Ip>
    requires ValidNet(net)
  {
    if ips == [] then []
    else
      var last := ips[|ips| - 1];
      Keep(ips[..|ips| - 1], net, inside) + if Contains(net, last) == inside then [last] else []
  }

  datatype Partition = Partition(inside: seq<Ip>, outside: seq<Ip>)

  /** PartitionTargets, which always expands with the reserved check on. */
  method PartitionTargets(parts: seq<Part>, network: Option<Net>) returns (r: Result<Partition, TargetError>)
    requires ValidSpec(parts) && (network.Some? ==> ValidNet(network.value))
    ensures r == PartitionSpec(parts, network)
  {
    if network.None? {
      return Ok(Partition([], []));
    }
    var e := ExpandTargetsFor(parts, false);
    if e.Err? {
      return Err(e.error);
    }
    var ips := e.value;
    var inside, outside := [], [];
    var i := 0;
    while i < |ips|
      invariant i <= |ips|
      invariant inside == Keep(ips[..i], network.value, true)
      invariant outside == Keep(ips[..i], network.value, false)
    {
      assert ips[..i + 1][..i] == ips[..i];
      if Contains(network.value, ips[i]) {
        inside := inside + [ips[i]];
      } else {
        outside := outside + [ips[i]];
      }
      i := i + 1;
    }
    assert ips[..i] == ips;
    r := Ok(Partition(inside, outside));
  }

  function PartitionSpec(parts: seq<Part>, network: Option<Net>): Result<Partition, TargetError>
    requires ValidSpec(parts) && (network.Some? ==> ValidNet(network.value))
  {
    if network.None? then Ok(Partition([], []))
    else
      match ExpandSpec(parts, false)
      case Err(e) => Err(e)
      case Ok(ips) => Ok(Partition(Keep(ips, network.value, true), Keep(ips, network.value, false)))
  }

  /** A networks.cidr column: nothing, an unusable text, a CIDR, or a bare address. */
  datatype NetText = NoCidr | BadCidr | CidrText(net: Net) | BareIp(ip: Ip) | BareMapped(v: nat)

  predicate ValidNetText(t: NetText) {
    match t
    case CidrText(n) => ValidNet(n)
    case BareIp(ip) => ValidIp(ip)
    case BareMapped(v) => v < TWO32
    case _ => true
  }

  datatype NetError = EmptyCidr | InvalidCidr

  /** ParseNetwork. A bare address gets "/32" when it has a 4-byte form, even if written with 16 bytes. */
  function ParseNetwork(t: NetText): (r: Result<Net, NetError>)
    requires ValidNetText(t)
    ensures r.Ok? ==> ValidNet(r.value)
  {
    match t
    case NoCidr => Err(EmptyCidr)
    case BadCidr => Err(InvalidCidr)
    case CidrText(n) => Ok(n)
    case BareIp(V4(v)) => Pow2Values(); Ok(Net(32, v, 32))
    case BareIp(V6(v)) => Ok(Net(128, v, 128))
    case BareMapped(_) => AlignedZero(96); Ok(Net(128, 0, 32))
  }

  /**
   What the network of a column matches: a CIDR its block, a bare address itself alone, except in
   ::ffff:a.b.c.d form, which misses it. Only a missing or unusable text has no network.
   */
  lemma ParsedNetworks(t: NetText, ip: Ip)
    requires ValidNetText(t) && ValidIp(ip)
    ensures ParseNetwork(t) == Err(EmptyCidr) <==> t == NoCidr
    ensures ParseNetwork(t) == Err(InvalidCidr) <==> t == BadCidr
    ensures t.CidrText? ==> (Contains(ParseNetwork(t).value, ip) <==> Contains(t.net, ip))
    ensures t.BareIp? ==> (Contains(ParseNetwork(t).value, ip) <==> ip == t.ip)
    ensures t.BareMapped? ==> (Contains(ParseNetwork(t).value, ip) <==> ip.V6? && ip.v < Pow2(96))
  {
  }
}
