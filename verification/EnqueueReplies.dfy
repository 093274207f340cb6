/** What Enqueue answers and stores, case by case, over every state and every request. */
module EnqueueReplies {
  import opened Targets
  import opened Tables
  import opened AgentCommands
  import opened Runs
  import opened Wrappers

  /** The request asks for this kind, by name or, for a scan, by naming none. */
  predicate Wants(req: Request, kind: Kind) { req == Named(kind) || (req == Unnamed && kind == Scan) }

  /** An empty command is a scan in every respect. */
  lemma UnnamedIsScan(t: Tables, cfg: Config, s: Step)
    requires ValidTables(t) && ValidStep(s) && s.Enqueue? && s.req == Unnamed
    ensures Reply(t, cfg, s) == Reply(t, cfg, s.(req := Named(Scan)))
  {
  }

  /** Which requests are turned away before the queue, and as what; nothing is stored for them. */
  lemma RefusedExactly(t: Tables, cfg: Config, s: Step)
    requires ValidTables(t) && ValidStep(s) && s.Enqueue?
    ensures var r := Reply(t, cfg, s).1;
            && (r == Err(AgentIDRequired) <==> s.agent == "")
            && (r == Err(UnknownCommand) <==> s.agent != "" && s.req.Unlisted?)
            && (r == Err(RemoteOpsDisabled) <==>
                  s.agent != "" && !cfg.remoteOps
                  && (Wants(s.req, Restart) || Wants(s.req, ConfigReload) || Wants(s.req, LogsTail)))
            && (r == Err(BoundaryError) <==>
                  s.agent != "" && Wants(s.req, Scan) && !AcceptsTargets(t, cfg, s.payload.targets, Pick(t, s.found)))
    ensures !AdmitsAny(t, cfg, s) <==> Reply(t, cfg, s).1.Err? && Reply(t, cfg, s).1.error != StoreError
    ensures !AdmitsAny(t, cfg, s) ==> Reply(t, cfg, s).0 == t
  {
  }

  /** The agent has an identical pending scan and the lookup for it answers. */
  ghost predicate Coalesces(t: Tables, s: Step)
    requires s.Enqueue?
  {
    && Wants(s.req, Scan) && s.faults.lookupOk
    && exists c :: c in t.commands && PendingOf(c, s.agent, Scan) && c.payload == s.payload
  }

  /** A coalesced scan is answered with a row that was already there, and changes nothing. */
  lemma CoalescedScan(t: Tables, cfg: Config, s: Step)
    requires ValidTables(t) && ValidStep(s) && AdmitsAny(t, cfg, s) && Coalesces(t, s)
    ensures Reply(t, cfg, s).0 == t && Reply(t, cfg, s).1.Ok?
    ensures var c := Reply(t, cfg, s).1.value;
            c in t.commands && PendingOf(c, s.agent, Scan) && c.payload == s.payload
  {
  }

  /**
   Any other admitted command is inserted: the answer is the new pending row, last in the table under the
   next id, after the rows that were there less the probes a probe sweeps. Only a failed insert is an error.
   */
  lemma AdmittedIsStored(t: Tables, cfg: Config, s: Step, kind: Kind)
    requires ValidTables(t) && ValidStep(s) && AdmitsAny(t, cfg, s) && Wants(s.req, kind) && !Coalesces(t, s)
    ensures var (u, r) := Reply(t, cfg, s);
            var kept := if kind == Probe && s.faults.sweepOk then Sweep(t.commands, s.agent, Probe) else t.commands;
            if s.faults.insertOk then
              && r.Ok? && u.commands == kept + [r.value] && u.nextCommand == t.nextCommand + 1
              && r.value.id == t.nextCommand && r.value.agent == s.agent && r.value.kind == kind
              && r.value.payload == s.payload && r.value.status == Pending && r.value.result == ""
            else
              r == Err(StoreError) && u.commands == kept && u.nextCommand == t.nextCommand
  {
  }

  /**
   Where the boundary check has nothing to check against it is open: with no network found, or one without
   a CIDR, targets are accepted as far as they validate; an unusable CIDR refuses them all.
   */
  lemma OpenWithoutCidr(t: Tables, cfg: Config, parts: seq<Part>, found: Option<int>)
    requires ValidTables(t) && ValidSpec(parts) && (found.Some? ==> found.value in t.networks)
    ensures found.None? || t.networks[found.value].cidr == NoCidr ==>
              (AcceptsTargets(t, cfg, parts, found) <==> parts == [Blank] || ValidateSpec(parts, cfg.allowReserved) == None)
    ensures found.Some? && t.networks[found.value].cidr == BadCidr ==>
              (AcceptsTargets(t, cfg, parts, found) <==> parts == [Blank])
  {
  }
}
