/** Admission of a scan task: the second, separately written target counter. */
module ScanTask {
  import opened Arith
  import opened Address
  import opened Reserved
  import opened Enumerate
  import opened Targets
  import opened TargetTheorems
  import opened Wrappers

  const MAX_TARGET_IPS: nat := 4096

  /** countIPRange: unlike rangeBounds it refuses a reversed range, and it counts in 32 bits. */
  function CountIPRange(start: Option<Ip>, end: RangeEnd): Option<nat>
    requires ValidPart(RangePart(start, end))
  {
    if start.None? || start.value.V6? then None
    else
      var a := start.value.v;
      match end
      case EndIp(V4(b)) => CountUp(a, b)
      case EndOctet(n) => if n < 0 || n > 255 then None else CountUp(a, a - a % 256 + n)
      case _ => None
  }

  function CountUp(a: nat, b: nat): Option<nat> {
    if b < a then None else Some((b - a + 1) % TWO32)
  }

  /** The number countTargetIPs adds for one part; none when the part is an error. */
  function CountPart(p: Part): Option<nat>
    requires ValidPart(p)
  {
    match p
    case Blank => Some(0)
    case CidrPart(n) => if n.bits > 32 then None else Some(Pow2(n.bits - n.prefix))
    case RangePart(start, end) => CountIPRange(start, end)
    case IpPart(_) => Some(1)
    case Junk => None
  }

  /** The running total from `total` on, with the early return once the limit is passed. */
  function CountFrom(parts: seq<Part>, total: nat): Option<nat>
    requires forall p :: p in parts ==> ValidPart(p)
  {
    if parts == [] then Some(total)
    else
      match CountPart(parts[0])
      case None => None
      case Some(c) =>
        if parts[0] != Blank && total + c > MAX_TARGET_IPS then Some(total + c)
        else CountFrom(parts[1..], total + c)
  }

  /** countTargetIPs. */
  method CountTargetIPs(parts: seq<Part>) returns (r: Option<nat>)
    requires ValidSpec(parts)
    ensures r == CountFrom(parts, 0)
  {
    var total: nat := 0;
    var i := 0;
    while i < |parts|
      invariant i <= |parts|
      invariant CountFrom(parts, 0) == CountFrom(parts[i..], total)
    {
      var part := parts[i];
      assert part in parts && parts[i..][1..] == parts[i + 1..];
      if part != Blank {
        var c := CountPart(part);
        if c.None? {
          return None;
        }
        total := total + c.value;
        if total > MAX_TARGET_IPS {
          return Some(total);
        }
      }
      i := i + 1;
    }
    r := Some(total);
  }

  datatype Rejection = TargetsRequired | BadTargets | TooManyIPs(count: nat) | Target(error: TargetError)

  /** The targets part of ValidateScanTaskRequest. */
  method ValidateScanTask(parts: seq<Part>, allow: bool) returns (r: Option<Rejection>)
    requires ValidSpec(parts)
    ensures r.None? <==> Accepted(parts, allow)
    ensures r == Some(TargetsRequired) <==> parts == [Blank]
    ensures r == Some(BadTargets) <==> parts != [Blank] && CountFrom(parts, 0).None?
    ensures r.Some? && r.value.TooManyIPs? <==>
              parts != [Blank] && CountFrom(parts, 0).Some? && CountFrom(parts, 0).value > MAX_TARGET_IPS
    ensures r.Some? && r.value.TooManyIPs? ==> CountFrom(parts, 0) == Some(r.value.count)
    ensures r.Some? && r.value.Target? ==> ValidateSpec(parts, allow) == Some(r.value.error)
  {
    if parts == [Blank] {
      return Some(TargetsRequired);
    }
    var total := CountTargetIPs(parts);
    if total.None? {
      return Some(BadTargets);
    }
    if total.value > MAX_TARGET_IPS {
      return Some(TooManyIPs(total.value));
    }
    var err := ValidateTargetsFor(parts, allow);
    r := if err.Some? then Some(Target(err.value)) else None;
  }

  predicate Accepted(parts: seq<Part>, allow: bool)
    requires ValidSpec(parts)
  {
    && parts != [Blank]
    && CountFrom(parts, 0).Some?
    && CountFrom(parts, 0).value <= MAX_TARGET_IPS
    && ValidateSpec(parts, allow).None?
  }

  /** 0.0.0.0-255.255.255.255, whose 2^32 addresses the 32-bit count shows as 0. */
  predicate FullRange(p: Part) {
    p == RangePart(Some(V4(0)), EndIp(V4(TWO32 - 1)))
  }

  /** A count within the limit was reached without the early return, so every part was counted. */
  lemma {:induction false} CountedParts(parts: seq<Part>, total: nat)
    requires forall p :: p in parts ==> ValidPart(p)
    requires total <= MAX_TARGET_IPS
    requires CountFrom(parts, total).Some? && CountFrom(parts, total).value <= MAX_TARGET_IPS
    ensures forall p :: p in parts ==> CountPart(p).Some? && CountPart(p).value <= MAX_TARGET_IPS
    ensures total <= CountFrom(parts, total).value
  {
    if parts == [] {
    } else {
      CountedParts(parts[1..], total + CountPart(parts[0]).value);
      assert parts == [parts[0]] + parts[1..];
    }
  }

  // ---------------------------------------------------------------- what one part counts

  /** The two addresses a CIDR part counts and does not list. */
  function TrimmedOf(p: Part): nat { if p.CidrPart? && Trimmed(p.net) then 2 else 0 }

  lemma CidrCount(n: Net)
    requires ValidNet(n)
    ensures CountPart(CidrPart(n)) == if n.bits == 32 then Some(|HostList(n)| + TrimmedOf(CidrPart(n))) else None
  {
    HostsCountAndOrder(n);
    assert Pow2(0) == 1 && Pow2(1) == 2 && Pow2(2) == 4;
  }

  /**
   What the counter adds: one for an address, the listed addresses and the two dropped ones for an IPv4
   block, first to last for a range that does not run backwards, with the full range alone shown as 0.
   Everything else is an error.
   */
  lemma CountExactly(p: Part)
    requires ValidPart(p)
    ensures p == Blank ==> CountPart(p) == Some(0)
    ensures p.IpPart? ==> CountPart(p) == Some(1)
    ensures p.CidrPart? ==> CountPart(p) == if p.net.bits == 32 then Some(|HostList(p.net)| + TrimmedOf(p)) else None
    ensures p.RangePart? ==>
            var b := if p.start.Some? && p.start.value.V4? then EndOf(p.start.value.v, p.end) else None;
            && (CountPart(p).Some? <==> b.Some? && p.start.value.v <= b.value)
            && (CountPart(p).Some? ==>
                  CountPart(p).value == if FullRange(p) then 0 else b.value - p.start.value.v + 1)
    ensures p == Junk ==> CountPart(p) == None
  {
    if p.CidrPart? { CidrCount(p.net); }
  }

  lemma CidrAgrees(n: Net)
    requires ValidNet(n) && n.bits == 32 && n.Size() <= MAX_TARGET_IPS
    ensures n.prefix >= 20 && |HostList(n)| >= 1
    ensures !Leaks(n)
  {
    Pow2Values();
    assert Pow2(13) == 0x2000;
    if n.prefix < 20 { Pow2Mono(13, n.HostBits()); }
    HostsNonEmpty(n);
    LeaksExactly(n);
  }

  lemma RangeAgrees(a: nat, b: nat)
    requires a <= b < TWO32 && (b - a + 1) % TWO32 <= MAX_TARGET_IPS
    ensures RangeList(a, b).Some? <==> !(a == 0 && b == TWO32 - 1)
    ensures RangeList(a, b).Some? ==> |RangeList(a, b).value| == (b - a + 1) % TWO32 == b - a + 1
  {
  }

  lemma RangePartAgrees(start: Option<Ip>, end: RangeEnd)
    requires ValidPart(RangePart(start, end))
    requires CountIPRange(start, end).Some? && CountIPRange(start, end).value <= MAX_TARGET_IPS
    ensures RangeBounds(start, end).Ok?
    ensures var (a, b) := RangeBounds(start, end).value;
            CountIPRange(start, end).value == (b - a + 1) % TWO32
    ensures FullRange(RangePart(start, end)) <==> RangeBounds(start, end).value == (0, TWO32 - 1)
  {
  }

  /** Counter and enumerator on one part: success, at least one address, and exactly the counted number. */
  lemma PartAgrees(p: Part, allow: bool)
    requires ValidPart(p) && p != Blank && CheckPart(p, allow).None?
    requires CountPart(p).Some? && CountPart(p).value <= MAX_TARGET_IPS
    ensures Expandable(p, allow)
    ensures ExpandPart(p, allow).Ok? <==> !FullRange(p)
    ensures !FullRange(p) ==>
              var k := |ExpandPart(p, allow).value|;
              1 <= k && k + TrimmedOf(p) == CountPart(p).value
    ensures !allow ==> !FullRange(p) && !(p.CidrPart? && Leaks(p.net))
  {
    match p {
      case CidrPart(n) =>
        CidrAgrees(n);
        CidrCount(n);
        Pow2Values();
      case RangePart(start, end) =>
        RangePartExpands(start, end, allow);
      case _ =>
    }
  }

  lemma RangePartExpands(start: Option<Ip>, end: RangeEnd, allow: bool)
    requires var p := RangePart(start, end);
             && ValidPart(p) && CheckPart(p, allow).None?
             && CountPart(p).Some? && CountPart(p).value <= MAX_TARGET_IPS
    ensures var p := RangePart(start, end);
            && (ExpandPart(p, allow).Ok? <==> !FullRange(p))
            && (!FullRange(p) ==> 1 <= |ExpandPart(p, allow).value| == CountPart(p).value)
            && (!allow ==> !FullRange(p))
  {
    RangePartAgrees(start, end);
    var (a, b) := RangeBounds(start, end).value;
    RangeAgrees(a, b);
  }

  // ---------------------------------------------------------------- what a spec counts

  /** The sum over parts, an uncountable one adding nothing. */
  function SumOf(parts: seq<Part>): nat
    requires forall p :: p in parts ==> ValidPart(p)
  {
    if parts == [] then 0
    else (match CountPart(parts[0]) case None => 0 case Some(c) => c) + SumOf(parts[1..])
  }

  /** The first `k` parts are countable. */
  ghost predicate Countable(parts: seq<Part>, k: nat)
    requires (forall p :: p in parts ==> ValidPart(p)) && k <= |parts|
  {
    forall j :: 0 <= j < k ==> CountPart(parts[j]).Some?
  }

  /** The sum passes the limit at part `k`, for the first time, and every part so far is countable. */
  ghost predicate Passing(parts: seq<Part>, total: nat, k: nat)
    requires (forall p :: p in parts ==> ValidPart(p)) && k < |parts|
  {
    Countable(parts, k + 1) && total + SumOf(parts[..k]) <= 4096 < total + SumOf(parts[..k + 1])
  }

  /** Part `k` cannot be counted and the sum is within the limit until then. */
  ghost predicate Blocking(parts: seq<Part>, total: nat, k: nat)
    requires (forall p :: p in parts ==> ValidPart(p)) && k < |parts|
  {
    Countable(parts, k) && CountPart(parts[k]).None? && total + SumOf(parts[..k]) <= MAX_TARGET_IPS
  }

  lemma SumSlices(parts: seq<Part>, k: nat)
    requires (forall p :: p in parts ==> ValidPart(p)) && 0 < k <= |parts| && CountPart(parts[0]).Some?
    ensures SumOf(parts[..k]) == CountPart(parts[0]).value + SumOf(parts[1..][..k - 1])
  {
    assert parts[..k][1..] == parts[1..][..k - 1];
  }

  /** The outcome of the counting loop at the step where it is decided. */
  datatype Outcome = Passed(at: nat) | Blocked(at: nat) | Finished

  ghost predicate Decides(parts: seq<Part>, total: nat, o: Outcome)
    requires forall p :: p in parts ==> ValidPart(p)
  {
    match o
    case Passed(k) =>
      k < |parts| && Passing(parts, total, k) && CountFrom(parts, total) == Some(total + SumOf(parts[..k + 1]))
    case Blocked(k) => k < |parts| && Blocking(parts, total, k) && CountFrom(parts, total) == None
    case Finished =>
      && Countable(parts, |parts|) && total + SumOf(parts) <= MAX_TARGET_IPS
      && CountFrom(parts, total) == Some(total + SumOf(parts))
  }

  lemma {:induction false} CountDecides(parts: seq<Part>, total: nat) returns (o: Outcome)
    requires (forall p :: p in parts ==> ValidPart(p)) && total <= MAX_TARGET_IPS
    ensures Decides(parts, total, o)
  {
    if parts == [] {
      o := Finished;
    } else if CountPart(parts[0]).None? {
      o := Blocked(0);
      assert parts[..0] == [];
    } else if total + CountPart(parts[0]).value > MAX_TARGET_IPS {
      o := Passed(0);
      FirstPasses(parts, total);
    } else {
      var r := CountDecides(parts[1..], total + CountPart(parts[0]).value);
      match r {
        case Finished => o := Finished;
        case Passed(k) => o := Passed(k + 1); LaterPasses(parts, total, k);
        case Blocked(k) => o := Blocked(k + 1); LaterBlocks(parts, total, k);
      }
    }
  }

  lemma FirstPasses(parts: seq<Part>, total: nat)
    requires (forall p :: p in parts ==> ValidPart(p)) && total <= MAX_TARGET_IPS
    requires parts != [] && CountPart(parts[0]).Some? && total + CountPart(parts[0]).value > MAX_TARGET_IPS
    ensures Decides(parts, total, Passed(0))
  {
    SumSlices(parts, 1);
    assert parts[1..][..0] == [] && parts[..0] == [];
  }

  lemma LaterPasses(parts: seq<Part>, total: nat, k: nat)
    requires (forall p :: p in parts ==> ValidPart(p)) && parts != [] && CountPart(parts[0]).Some?
    requires total + CountPart(parts[0]).value <= MAX_TARGET_IPS
    requires Decides(parts[1..], total + CountPart(parts[0]).value, Passed(k))
    ensures Decides(parts, total, Passed(k + 1))
  {
    SumSlices(parts, k + 1);
    SumSlices(parts, k + 2);
    assert forall j :: 1 <= j < |parts| ==> parts[j] == parts[1..][j - 1];
  }

  lemma LaterBlocks(parts: seq<Part>, total: nat, k: nat)
    requires (forall p :: p in parts ==> ValidPart(p)) && parts != [] && CountPart(parts[0]).Some?
    requires total + CountPart(parts[0]).value <= MAX_TARGET_IPS
    requires Decides(parts[1..], total + CountPart(parts[0]).value, Blocked(k))
    ensures Decides(parts, total, Blocked(k + 1))
  {
    SumSlices(parts, k + 1);
    assert forall j :: 1 <= j < |parts| ==> parts[j] == parts[1..][j - 1];
  }

  lemma {:induction false} SumMono(parts: seq<Part>, j: nat, k: nat)
    requires (forall p :: p in parts ==> ValidPart(p)) && j <= k <= |parts|
    ensures SumOf(parts[..j]) <= SumOf(parts[..k])
    decreases k - j
  {
    if j == k {
    } else {
      SumMono(parts, j, k - 1);
      SumSnoc(parts[..k - 1], parts[k - 1]);
      assert parts[..k] == parts[..k - 1] + [parts[k - 1]];
    }
  }

  lemma {:induction false} SumSnoc(init: seq<Part>, last: Part)
    requires (forall p :: p in init ==> ValidPart(p)) && ValidPart(last)
    ensures SumOf(init + [last]) == SumOf(init) + match CountPart(last) case None => 0 case Some(c) => c
  {
    if init == [] {
      assert init + [last] == [last];
    } else {
      assert (init + [last])[1..] == init[1..] + [last];
      SumSnoc(init[1..], last);
    }
  }

  /**
   The counter over every spec. It is past the limit exactly when the sum passes 4096 at some part before
   any uncountable one, an error exactly when an uncountable part comes first, and the sum otherwise.
   */
  lemma CountFromExactly(parts: seq<Part>)
    requires forall p :: p in parts ==> ValidPart(p)
    ensures CountFrom(parts, 0).Some? && CountFrom(parts, 0).value > MAX_TARGET_IPS <==>
            exists k :: 0 <= k < |parts| && Passing(parts, 0, k)
    ensures forall k :: 0 <= k < |parts| && Passing(parts, 0, k) ==> CountFrom(parts, 0) == Some(SumOf(parts[..k + 1]))
    ensures CountFrom(parts, 0) == None <==> exists k :: 0 <= k < |parts| && Blocking(parts, 0, k)
    ensures CountFrom(parts, 0).Some? && CountFrom(parts, 0).value <= MAX_TARGET_IPS ==>
              CountFrom(parts, 0).value == SumOf(parts)
  {
    var o := CountDecides(parts, 0);
    PassedIff(parts, o);
    BlockedIff(parts, o);
  }

  lemma PassedIff(parts: seq<Part>, o: Outcome)
    requires (forall p :: p in parts ==> ValidPart(p)) && Decides(parts, 0, o)
    ensures CountFrom(parts, 0).Some? && CountFrom(parts, 0).value > MAX_TARGET_IPS <==> o.Passed?
    ensures o.Passed? <==> exists k :: 0 <= k < |parts| && Passing(parts, 0, k)
    ensures forall k :: 0 <= k < |parts| && Passing(parts, 0, k) ==> CountFrom(parts, 0) == Some(SumOf(parts[..k + 1]))
  {
    forall k | 0 <= k < |parts| && Passing(parts, 0, k)
      ensures o == Passed(k) && CountFrom(parts, 0) == Some(SumOf(parts[..k + 1]))
    {
      PassingIsDecided(parts, k, o);
    }
  }

  lemma BlockedIff(parts: seq<Part>, o: Outcome)
    requires (forall p :: p in parts ==> ValidPart(p)) && Decides(parts, 0, o)
    ensures CountFrom(parts, 0) == None <==> o.Blocked?
    ensures o.Blocked? <==> exists k :: 0 <= k < |parts| && Blocking(parts, 0, k)
    ensures o.Finished? ==> CountFrom(parts, 0) == Some(SumOf(parts))
  {
    forall k | 0 <= k < |parts| && Blocking(parts, 0, k) ensures o == Blocked(k) {
      BlockingIsDecided(parts, k, o);
    }
  }

  lemma PassingIsDecided(parts: seq<Part>, k: nat, o: Outcome)
    requires (forall p :: p in parts ==> ValidPart(p)) && k < |parts| && Passing(parts, 0, k) && Decides(parts, 0, o)
    ensures o == Passed(k)
  {
    assert parts[..|parts|] == parts;
    SumMono(parts, k + 1, |parts|);
    if o.Passed? {
      if o.at < k { SumMono(parts, o.at + 1, k); }
      if k < o.at { SumMono(parts, k + 1, o.at); }
    } else if o.Blocked? {
      if k < o.at { SumMono(parts, k + 1, o.at); }
    }
  }

  lemma BlockingIsDecided(parts: seq<Part>, k: nat, o: Outcome)
    requires (forall p :: p in parts ==> ValidPart(p)) && k < |parts| && Blocking(parts, 0, k) && Decides(parts, 0, o)
    ensures o == Blocked(k)
  {
    if o.Passed? && o.at < k { SumMono(parts, o.at + 1, k); }
  }

  // ---------------------------------------------------------------- count against expansion

  /** How many addresses of the spec are counted and not listed. */
  function TrimmedIn(parts: seq<Part>): nat {
    if parts == [] then 0 else TrimmedIn(parts[..|parts| - 1]) + TrimmedOf(parts[|parts| - 1])
  }

  lemma {:induction false} ListAgrees(parts: seq<Part>, allow: bool)
    requires forall p :: p in parts ==> ValidPart(p) && CheckPart(p, allow).None? && !FullRange(p)
    requires CountFrom(parts, 0).Some? && CountFrom(parts, 0).value <= MAX_TARGET_IPS
    ensures ExpandAll(parts, allow).Ok?
    ensures |ExpandAll(parts, allow).value| + TrimmedIn(parts) == CountFrom(parts, 0).value
    ensures ExpandAll(parts, allow).value != [] <==> exists p :: p in parts && p != Blank
  {
    CountedParts(parts, 0);
    CountFromExactly(parts);
    forall p | p in parts && p != Blank
      ensures ExpandPart(p, allow).Ok? && |ExpandPart(p, allow).value| + TrimmedOf(p) == CountPart(p).value
    {
      PartAgrees(p, allow);
    }
    Sum(parts, allow);
    NonEmptyExpansion(parts, allow);
  }

  /** Totals of per-part facts, taken from the right as the expansion is built. */
  lemma {:induction false} Sum(parts: seq<Part>, allow: bool)
    requires forall p :: p in parts ==> ValidPart(p) && CheckPart(p, allow).None? && CountPart(p).Some?
    requires forall p :: p in parts && p != Blank ==>
               ExpandPart(p, allow).Ok? && |ExpandPart(p, allow).value| + TrimmedOf(p) == CountPart(p).value
    ensures ExpandAll(parts, allow).Ok?
    ensures |ExpandAll(parts, allow).value| + TrimmedIn(parts) == SumOf(parts)
  {
    if parts == [] {
    } else {
      var init, last := parts[..|parts| - 1], parts[|parts| - 1];
      assert parts == init + [last];
      Sum(init, allow);
      SumSnoc(init, last);
    }
  }

  /**
   Counter, validator and enumerator agree on every accepted task. The expansion ends and
   succeeds exactly when the spec has a part at all and none is the full range; then it has
   exactly the counted number less two per trimmed block, and so at most 4096.
   */
  lemma AcceptedTaskExpands(parts: seq<Part>, allow: bool)
    requires ValidSpec(parts) && Accepted(parts, allow)
    ensures ExpandableSpec(parts, allow)
    ensures ExpandSpec(parts, allow).Ok? <==>
            (exists p :: p in parts && p != Blank) && forall p :: p in parts ==> !FullRange(p)
    ensures ExpandSpec(parts, allow).Ok? ==>
            && 1 <= |ExpandSpec(parts, allow).value| <= 4096
            && |ExpandSpec(parts, allow).value| + TrimmedIn(parts) == CountFrom(parts, 0).value
  {
    CountedParts(parts, 0);
    NoFirstError(parts, allow);
    forall p | p in parts && p != Blank
      ensures Expandable(p, allow) && (ExpandPart(p, allow).Ok? <==> !FullRange(p))
    {
      PartAgrees(p, allow);
    }
    ExpandAllMember(parts, allow);
    if forall p :: p in parts ==> !FullRange(p) { ListAgrees(parts, allow); }
    if |parts| == 1 {
      assert parts == [parts[0]] && parts[..0] == [];
      assert ExpandAll(parts[..0], allow) == Ok([]);
    }
  }

  /** With the reserved check on, an accepted task expands to ordinary addresses only. */
  lemma AcceptedTaskIsOrdinary(parts: seq<Part>)
    requires ValidSpec(parts) && Accepted(parts, false)
    ensures ExpandSpec(parts, false).Ok? <==> exists p :: p in parts && p != Blank
    ensures ExpandSpec(parts, false).Ok? ==> forall ip :: ip in ExpandSpec(parts, false).value ==> !IsReserved(ip)
  {
    AcceptedTaskExpands(parts, false);
    CountedParts(parts, 0);
    NoFirstError(parts, false);
    forall p | p in parts && p != Blank ensures !FullRange(p) && !(p.CidrPart? && Leaks(p.net)) {
      PartAgrees(p, false);
    }
    if ExpandSpec(parts, false).Ok? { ReservedExactlyByLeak(parts); }
  }

  /** With the reserved check off, the full range is accepted as 0 addresses and then refused. */
  lemma FullRangeSlipsThrough()
    ensures var parts := [RangePart(Some(V4(0)), EndIp(V4(TWO32 - 1)))];
            && ValidSpec(parts) && Accepted(parts, true)
            && ExpandSpec(parts, true) == Err(TargetRangeTooLarge)
  {
    var p := RangePart(Some(V4(0)), EndIp(V4(TWO32 - 1)));
    assert CountPart(p) == Some(0);
    assert [p][1..] == [];
    assert CountFrom([p], 0) == Some(0);
    assert FirstError([p], true) == None;
  }

  /** A spec of nothing but commas is accepted and has no expansion. */
  lemma CommasOnly()
    ensures ValidSpec([Blank, Blank]) && Accepted([Blank, Blank], false)
    ensures ExpandSpec([Blank, Blank], false) == Err(NoValidTargets)
  {
    assert [Blank, Blank][1..] == [Blank] && [Blank][1..] == [] && [Blank, Blank][..1] == [Blank] && [Blank][..0] == [];
    assert CountFrom([Blank], 0) == Some(0);
    assert CountFrom([Blank, Blank], 0) == Some(0);
    assert ExpandPart(Blank, false) == Ok([]);
    var none: seq<Ip> := [];
    assert none + none == none;
    assert ExpandAll([], false) == Ok(none);
    assert ExpandAll([Blank], false) == Ok([]);
    assert FirstError([Blank], false) == None;
  }
}
