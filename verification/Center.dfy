/** The network boundary as one theorem over targets, tokens and commands. */
module Center {
  import opened Address
  import opened Reserved
  import opened Enumerate
  import opened Targets
  import opened TargetTheorems
  import opened TargetMeaning
  import opened Tables
  import opened AgentCommands
  import opened Runs
  import opened TokenRuns
  import opened CommandRuns
  import opened CommandHistory
  import opened Wrappers

  /** The network the agent is bound to, with the CIDR its row holds. */
  ghost predicate BoundTo(t: Tables, agent: AgentId, n: int, net: Net)
    requires ValidTables(t)
  {
    agent != "" && Stamped(t, n, agent) && ParseNetwork(CidrOf(t, n)) == Ok(net)
  }

  /**
   The spec is one that can be scanned with the reserved check on, every address a part of it names
   lies in `net`, and every CIDR part lies in it whole.
   */
  ghost predicate Confined(parts: seq<Part>, net: Net)
    requires ValidSpec(parts) && ValidNet(net)
  {
    && Passes(parts, false)
    && (forall p, ip :: p in parts && Names(p, ip) ==> Contains(net, ip))
    && (forall p :: p in parts && p.CidrPart? ==> Within(p.net, net))
  }

  lemma NothingOutsideIsConfined(parts: seq<Part>, net: Net)
    requires ValidSpec(parts) && ValidNet(net)
    requires PartitionSpec(parts, Some(net)).Ok? && PartitionSpec(parts, Some(net)).value.outside == []
    ensures Confined(parts, net)
  {
    var ips := ExpandSpec(parts, false).value;
    ExpandExactly(parts, false);
    KeepFilters(ips, net);
    ExpandSpecMember(parts, false);
    forall p, ip | p in parts && Names(p, ip) ensures Contains(net, ip) {
      SpecNames(parts, ip);
      assert ip !in Keep(ips, net, false);
    }
    forall p | p in parts && p.CidrPart? ensures Within(p.net, net) {
      assert ExpandPart(p, false).Ok?;
      PassingDoesNotStraddle(p.net);
      assert AllIn(p.net, net) by {
        forall ip | ip in HostList(p.net) ensures Contains(net, ip) {
          assert ip in ExpandPart(p, false).value;
          assert ip in ips;
          assert ip !in Keep(ips, net, false);
        }
      }
      AllInExactly(p.net, net);
    }
  }

  lemma {:induction false} NoneOutside(ips: seq<Ip>, net: Net)
    requires ValidNet(net) && forall ip :: ip in ips ==> Contains(net, ip)
    ensures Keep(ips, net, false) == []
  {
    if ips == [] {
    } else {
      assert ips[|ips| - 1] in ips;
      NoneOutside(ips[..|ips| - 1], net);
    }
  }

  /** A network with a usable CIDR takes exactly the scans that are confined to it, whatever the reserved flag. */
  lemma BoundaryDecides(t: Tables, cfg: Config, parts: seq<Part>, n: int, net: Net)
    requires ValidTables(t) && ValidSpec(parts) && n in t.networks && ParseNetwork(CidrOf(t, n)) == Ok(net)
    ensures AcceptsTargets(t, cfg, parts, Some(n)) <==> parts == [Blank] || Confined(parts, net)
  {
    var p := PartitionSpec(parts, Some(net));
    if p.Ok? && p.value.outside == [] {
      NothingOutsideIsConfined(parts, net);
      ValidWhenAllowed(parts, cfg.allowReserved);
    }
    if Confined(parts, net) {
      ExpandExactly(parts, false);
      forall ip | ip in ExpandSpec(parts, false).value ensures Contains(net, ip) {
        SpecNames(parts, ip);
      }
      NoneOutside(ExpandSpec(parts, false).value, net);
      ValidWhenAllowed(parts, cfg.allowReserved);
    }
  }

  lemma ValidWhenAllowed(parts: seq<Part>, allow: bool)
    requires ValidSpec(parts) && ExpandSpec(parts, false).Ok?
    ensures ValidateSpec(parts, allow) == None
  {
    ExpandImpliesValid(parts, false);
    NoFirstError(parts, true);
    NoFirstError(parts, false);
  }

  /** In an unambiguous state the lookup can only return the agent's own network. */
  lemma LookupIsForced(t: Tables, agent: AgentId, n: int, found: Option<int>)
    requires OneNetwork(t) && agent != "" && Stamped(t, n, agent) && Resolves(t, agent, found)
    ensures found == Some(n)
  {
  }

  /**
   The boundary theorem. After any run that strands no stamp, a scan with targets that is
   accepted for an agent bound to a network with a usable CIDR is stored (or found stored) pending
   with exactly that payload, and every address its targets name lies in that one network.
   */
  lemma AcceptedScanStaysInNetwork(cfg: Config, steps: seq<Step>, s: Step, n: int, net: Net)
    requires ValidRun(steps) && Strandless(cfg, steps, 0, false)
    requires ValidStep(s) && s.Enqueue? && KindOf(s.req) == Some(Scan) && s.payload.targets != [Blank]
    requires var t := Run(cfg, steps);
             BoundTo(t, s.agent, n, net) && Resolves(t, s.agent, s.found) && Reply(t, cfg, s).1.Ok?
    ensures s.found == Some(n)
    ensures var c := Reply(Run(cfg, steps), cfg, s).1.value;
            && c in Apply(Run(cfg, steps), cfg, s).commands
            && PendingOf(c, s.agent, Scan) && c.payload == s.payload
            && Confined(c.payload.targets, net)
  {
    var t := Run(cfg, steps);
    StampsAreUnambiguous(cfg, steps);
    LookupIsForced(t, s.agent, n, s.found);
    AcceptedScanIsPending(t, cfg, s);
    NothingOutsideIsConfined(s.payload.targets, net);
  }

  /** After any run that strands no stamp, a bound agent's scan is admitted exactly when it is confined to its network. */
  lemma ScanAdmittedExactly(cfg: Config, steps: seq<Step>, s: Step, n: int, net: Net)
    requires ValidRun(steps) && Strandless(cfg, steps, 0, false)
    requires ValidStep(s) && s.Enqueue? && KindOf(s.req) == Some(Scan)
    requires BoundTo(Run(cfg, steps), s.agent, n, net) && Resolves(Run(cfg, steps), s.agent, s.found)
    ensures AdmitsAny(Run(cfg, steps), cfg, s) <==> s.payload.targets == [Blank] || Confined(s.payload.targets, net)
  {
    StampsAreUnambiguous(cfg, steps);
    LookupIsForced(Run(cfg, steps), s.agent, n, s.found);
    BoundaryDecides(Run(cfg, steps), cfg, s.payload.targets, n, net);
  }

  /** Conversely a scan that names one address outside the network is refused and nothing is stored. */
  lemma StrayScanIsRefused(cfg: Config, steps: seq<Step>, s: Step, n: int, net: Net, p: Part, ip: Ip)
    requires ValidRun(steps) && Strandless(cfg, steps, 0, false)
    requires ValidStep(s) && s.Enqueue? && KindOf(s.req) == Some(Scan) && s.payload.targets != [Blank]
    requires BoundTo(Run(cfg, steps), s.agent, n, net) && Resolves(Run(cfg, steps), s.agent, s.found)
    requires p in s.payload.targets && ValidPart(p) && Names(p, ip) && !Contains(net, ip)
    ensures Reply(Run(cfg, steps), cfg, s) == (Run(cfg, steps), Err(BoundaryError))
  {
    ScanAdmittedExactly(cfg, steps, s, n, net);
  }

  /** Switching the reserved check off makes no difference to an agent whose network has a usable CIDR. */
  lemma EscapeHatchIsInert(t: Tables, parts: seq<Part>, n: int, net: Net, ops: bool)
    requires ValidTables(t) && ValidSpec(parts) && n in t.networks && ParseNetwork(CidrOf(t, n)) == Ok(net)
    ensures AcceptsTargets(t, Config(ops, true), parts, Some(n)) <==> AcceptsTargets(t, Config(ops, false), parts, Some(n))
  {
    BoundaryDecides(t, Config(ops, true), parts, n, net);
    BoundaryDecides(t, Config(ops, false), parts, n, net);
  }

  /**
   Every scan row in the table, at any time: some earlier step admitted it, and if that agent was then
   bound to a network with a usable CIDR and the lookup answered, the row stays inside that network.
   */
  lemma EveryStoredScanWasConfined(cfg: Config, steps: seq<Step>, c: Command) returns (i: nat)
    requires ValidRun(steps) && Strandless(cfg, steps, 0, false)
    requires c in Run(cfg, steps).commands && c.kind == Scan && c.payload.targets != [Blank]
    ensures AdmittedAt(cfg, steps, c, i)
    ensures ValidSpec(c.payload.targets)
    ensures forall n, net :: var t := Run(cfg, steps[..i]);
              BoundTo(t, c.agent, n, net) && Resolves(t, c.agent, steps[i].found) ==> Confined(c.payload.targets, net)
  {
    i := EveryRowWasAdmitted(cfg, steps, c);
    var t := Run(cfg, steps[..i]);
    assert steps[i] in steps;
    StrandlessPrefix(cfg, steps, i, false);
    StampsAreUnambiguous(cfg, steps[..i]);
    forall n, net | BoundTo(t, c.agent, n, net) && Resolves(t, c.agent, steps[i].found)
      ensures Confined(c.payload.targets, net)
    {
      LookupIsForced(t, c.agent, n, steps[i].found);
      NothingOutsideIsConfined(c.payload.targets, net);
    }
  }

  /**
   With the reserved check on, every stored scan with targets passed it, bound to a network or not;
   so it can reach a reserved address only through one of the leaking CIDR blocks.
   */
  lemma StoredScansAvoidReserved(cfg: Config, steps: seq<Step>, c: Command)
    requires ValidRun(steps) && !cfg.allowReserved
    requires c in Run(cfg, steps).commands && c.kind == Scan && c.payload.targets != [Blank]
    ensures ValidSpec(c.payload.targets) && ValidateSpec(c.payload.targets, false).None?
    ensures ExpandSpec(c.payload.targets, false).Ok? ==>
              ((exists ip :: ip in ExpandSpec(c.payload.targets, false).value && IsReserved(ip)) <==>
               (exists p :: p in c.payload.targets && p.CidrPart? && Leaks(p.net)))
  {
    var i := EveryRowWasAdmitted(cfg, steps, c);
    assert steps[i] in steps;
    if ExpandSpec(c.payload.targets, false).Ok? { ReservedExactlyByLeak(c.payload.targets); }
  }
}
