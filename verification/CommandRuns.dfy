/** What coalescing guarantees about the pending queue, over every run. */
module CommandRuns {
  import opened Tables
  import opened AgentCommands
  import opened Runs
  import opened Sequences
  import opened Wrappers

  // ---------------------------------------------------------------- views of the queue

  /** The plans of an agent's pending probes, oldest first. */
  function PendingPlans(rows: seq<Command>, agent: AgentId): seq<Payload> {
    if rows == [] then []
    else
      var c := rows[|rows| - 1];
      PendingPlans(rows[..|rows| - 1], agent) + if PendingOf(c, agent, Probe) then [c.payload] else []
  }

  /** The payloads of an agent's pending scans, with multiplicity. */
  function PendingScans(rows: seq<Command>, agent: AgentId): multiset<Payload> {
    if rows == [] then multiset{}
    else
      var c := rows[|rows| - 1];
      PendingScans(rows[..|rows| - 1], agent) + if PendingOf(c, agent, Scan) then multiset{c.payload} else multiset{}
  }

  predicate PendingOps(c: Command, agent: AgentId) { c.agent == agent && c.status == Pending && IsOps(c.kind) }

  function CountOps(rows: seq<Command>, agent: AgentId): nat {
    if rows == [] then 0
    else CountOps(rows[..|rows| - 1], agent) + if PendingOps(rows[|rows| - 1], agent) then 1 else 0
  }

  function CountPending(rows: seq<Command>, agent: AgentId): nat {
    if rows == [] then 0
    else
      var c := rows[|rows| - 1];
      CountPending(rows[..|rows| - 1], agent) + if c.agent == agent && c.status == Pending then 1 else 0
  }

  /** Each pending row is counted in exactly one view. */
  lemma {:induction false} PendingSplits(rows: seq<Command>, agent: AgentId)
    ensures CountPending(rows, agent) ==
            |PendingPlans(rows, agent)| + |PendingScans(rows, agent)| + CountOps(rows, agent)
  {
    if rows == [] {
    } else {
      PendingSplits(rows[..|rows| - 1], agent);
    }
  }

  lemma PlansSnoc(rows: seq<Command>, c: Command, agent: AgentId)
    ensures PendingPlans(rows + [c], agent) ==
            PendingPlans(rows, agent) + if PendingOf(c, agent, Probe) then [c.payload] else []
  {
    assert (rows + [c])[..|rows|] == rows;
  }

  lemma ScansSnoc(rows: seq<Command>, c: Command, agent: AgentId)
    ensures PendingScans(rows + [c], agent) ==
            PendingScans(rows, agent) + if PendingOf(c, agent, Scan) then multiset{c.payload} else multiset{}
  {
    assert (rows + [c])[..|rows|] == rows;
  }

  lemma OpsSnoc(rows: seq<Command>, c: Command, agent: AgentId)
    ensures CountOps(rows + [c], agent) == CountOps(rows, agent) + if PendingOps(c, agent) then 1 else 0
  {
    assert (rows + [c])[..|rows|] == rows;
  }

  /** Acknowledging and completing only take rows out of the views. */
  lemma {:induction false} SettlingShrinks(rows: seq<Command>, rows': seq<Command>, agent: AgentId)
    requires AllSettle(rows, rows')
    ensures Subseq(PendingPlans(rows', agent), PendingPlans(rows, agent))
    ensures PendingScans(rows', agent) <= PendingScans(rows, agent)
    ensures CountOps(rows', agent) <= CountOps(rows, agent)
  {
    if rows == [] {
    } else {
      var init, init' := rows[..|rows| - 1], rows'[..|rows| - 1];
      SettlingShrinks(init, init', agent);
      var c := rows[|rows| - 1];
      var p, p' := PendingPlans(init, agent), PendingPlans(init', agent);
      SubseqBoth(p', p, c.payload);
      SubseqExtend(p', p, c.payload);
      assert p + [] == p && p' + [] == p';
    }
  }

  /** A sweep empties the swept agent's plans and leaves every other view alone. */
  lemma {:induction false} SweepPlans(rows: seq<Command>, swept: AgentId, agent: AgentId)
    ensures PendingPlans(Sweep(rows, swept, Probe), agent) == if agent == swept then [] else PendingPlans(rows, agent)
  {
    if rows == [] {
    } else {
      var init, c := rows[..|rows| - 1], rows[|rows| - 1];
      SweepPlans(init, swept, agent);
      SweepPlansStep(init, c, swept, agent);
      assert rows == init + [c];
    }
  }

  lemma SweepPlansStep(init: seq<Command>, c: Command, swept: AgentId, agent: AgentId)
    requires PendingPlans(Sweep(init, swept, Probe), agent) == if agent == swept then [] else PendingPlans(init, agent)
    ensures PendingPlans(Sweep(init + [c], swept, Probe), agent) ==
            if agent == swept then [] else PendingPlans(init + [c], agent)
  {
    SweepSnoc(init, c, swept, Probe);
    PlansSnoc(init, c, agent);
    PlansSnoc(Sweep(init, swept, Probe), c, agent);
    assert PendingPlans(init, agent) + [] == PendingPlans(init, agent);
  }

  lemma {:induction false} SweepScans(rows: seq<Command>, swept: AgentId, agent: AgentId)
    ensures PendingScans(Sweep(rows, swept, Probe), agent) == PendingScans(rows, agent)
  {
    if rows == [] {
    } else {
      var init, c := rows[..|rows| - 1], rows[|rows| - 1];
      SweepScans(init, swept, agent);
      SweepScansStep(init, c, swept, agent);
      assert rows == init + [c];
    }
  }

  lemma SweepScansStep(init: seq<Command>, c: Command, swept: AgentId, agent: AgentId)
    requires PendingScans(Sweep(init, swept, Probe), agent) == PendingScans(init, agent)
    ensures PendingScans(Sweep(init + [c], swept, Probe), agent) == PendingScans(init + [c], agent)
  {
    SweepSnoc(init, c, swept, Probe);
    ScansSnoc(init, c, agent);
    ScansSnoc(Sweep(init, swept, Probe), c, agent);
  }

  lemma {:induction false} SweepOps(rows: seq<Command>, swept: AgentId, agent: AgentId)
    ensures CountOps(Sweep(rows, swept, Probe), agent) == CountOps(rows, agent)
  {
    if rows == [] {
    } else {
      var init, c := rows[..|rows| - 1], rows[|rows| - 1];
      SweepOps(init, swept, agent);
      SweepOpsStep(init, c, swept, agent);
      assert rows == init + [c];
    }
  }

  lemma SweepOpsStep(init: seq<Command>, c: Command, swept: AgentId, agent: AgentId)
    requires CountOps(Sweep(init, swept, Probe), agent) == CountOps(init, agent)
    ensures CountOps(Sweep(init + [c], swept, Probe), agent) == CountOps(init + [c], agent)
  {
    SweepSnoc(init, c, swept, Probe);
    OpsSnoc(init, c, agent);
    OpsSnoc(Sweep(init, swept, Probe), c, agent);
  }

  lemma {:induction false} NotFoundNotPending(rows: seq<Command>, agent: AgentId, p: Payload)
    requires forall c :: c in rows && PendingOf(c, agent, Scan) ==> c.payload != p
    ensures PendingScans(rows, agent)[p] == 0
  {
    if rows == [] {
    } else {
      NotFoundNotPending(rows[..|rows| - 1], agent, p);
      assert rows[|rows| - 1] in rows;
    }
  }

  lemma {:induction false} FoundCounts(rows: seq<Command>, agent: AgentId, p: Payload, c: Command)
    requires c in rows && PendingOf(c, agent, Scan) && c.payload == p
    ensures PendingScans(rows, agent)[p] > 0
  {
    var init, last := rows[..|rows| - 1], rows[|rows| - 1];
    assert rows == init + [last];
    if c == last {
    } else {
      FoundCounts(init, agent, p, c);
    }
  }

  /** The duplicate lookup finds a row exactly when the payload is pending. */
  lemma FoundIsPending(rows: seq<Command>, agent: AgentId, p: Payload)
    ensures FindPending(rows, agent, Scan, p).Some? <==> PendingScans(rows, agent)[p] > 0
  {
    var r := FindPending(rows, agent, Scan, p);
    if r.Some? { FoundCounts(rows, agent, p, r.value); } else { NotFoundNotPending(rows, agent, p); }
  }

  // ---------------------------------------------------------------- what the run enqueued

  function PlansAfter(s: Step, admitted: bool, agent: AgentId, before: seq<Payload>): seq<Payload> {
    if !(admitted && For(s, agent, Probe)) then before
    else (if s.faults.sweepOk then [] else before) + if s.faults.insertOk then [s.payload] else []
  }

  /** The plans enqueued for the agent since its last successful sweep, that one's own included. */
  function Plans(cfg: Config, steps: seq<Step>, agent: AgentId): seq<Payload>
    requires ValidRun(steps)
  {
    if steps == [] then []
    else PlansAfter(Last(steps), AdmitsAny(Run(cfg, Init(steps)), cfg, Last(steps)), agent,
                    Plans(cfg, Init(steps), agent))
  }

  /** How many of the agent's sweeps failed since the last successful one. */
  function FailedSweeps(cfg: Config, steps: seq<Step>, agent: AgentId): nat
    requires ValidRun(steps)
  {
    if steps == [] then 0
    else
      var s, before := Last(steps), FailedSweeps(cfg, Init(steps), agent);
      if !(AdmitsAny(Run(cfg, Init(steps)), cfg, s) && For(s, agent, Probe)) then before
      else if s.faults.sweepOk then 0 else before + 1
  }

  function ScannedAfter(s: Step, admitted: bool, agent: AgentId, before: set<Payload>): set<Payload> {
    if admitted && For(s, agent, Scan) then before + {s.payload} else before
  }

  /** The distinct payloads of the agent's admitted scans. */
  function Scanned(cfg: Config, steps: seq<Step>, agent: AgentId): set<Payload>
    requires ValidRun(steps)
  {
    if steps == [] then {}
    else ScannedAfter(Last(steps), AdmitsAny(Run(cfg, Init(steps)), cfg, Last(steps)), agent,
                      Scanned(cfg, Init(steps), agent))
  }

  function FailedAfter(s: Step, admitted: bool, agent: AgentId, before: multiset<Payload>): multiset<Payload> {
    if admitted && For(s, agent, Scan) && !s.faults.lookupOk then before + multiset{s.payload} else before
  }

  /** The payloads of the agent's admitted scans whose duplicate lookup failed. */
  function FailedLookups(cfg: Config, steps: seq<Step>, agent: AgentId): multiset<Payload>
    requires ValidRun(steps)
  {
    if steps == [] then multiset{}
    else FailedAfter(Last(steps), AdmitsAny(Run(cfg, Init(steps)), cfg, Last(steps)), agent,
                     FailedLookups(cfg, Init(steps), agent))
  }

  predicate ForOps(s: Step, agent: AgentId) {
    s.Enqueue? && s.agent == agent && KindOf(s.req).Some? && IsOps(KindOf(s.req).value)
  }

  /** How many ops commands were admitted for the agent. */
  function OpsEnqueued(cfg: Config, steps: seq<Step>, agent: AgentId): nat
    requires ValidRun(steps)
  {
    if steps == [] then 0
    else OpsEnqueued(cfg, Init(steps), agent)
         + if AdmitsAny(Run(cfg, Init(steps)), cfg, Last(steps)) && ForOps(Last(steps), agent) then 1 else 0
  }

  // ---------------------------------------------------------------- one step

  /** The plans of any agent after an admitted Enqueue. */
  lemma QueuePlans(rows: seq<Command>, sender: AgentId, kind: Kind, p: Payload, faults: Faults, id: nat, agent: AgentId)
    ensures var rows' := QueueRows(rows, sender, kind, p, faults, id);
            PendingPlans(rows', agent) ==
              if agent == sender && kind == Probe
              then (if faults.sweepOk then [] else PendingPlans(rows, agent)) + (if faults.insertOk then [p] else [])
              else PendingPlans(rows, agent)
  {
    var swept := Swept(rows, sender, kind, faults);
    SweepPlans(rows, sender, agent);
    PlansSnoc(swept, Command(id, sender, kind, p, Pending, ""), agent);
    assert PendingPlans(swept, agent) + [] == PendingPlans(swept, agent);
  }

  /** The scans of any agent after an admitted Enqueue. */
  lemma QueueScans(rows: seq<Command>, sender: AgentId, kind: Kind, p: Payload, faults: Faults, id: nat, agent: AgentId)
    ensures var was, now := PendingScans(rows, agent), PendingScans(QueueRows(rows, sender, kind, p, faults, id), agent);
            now == was + if agent == sender && kind == Scan && faults.insertOk && !(faults.lookupOk && was[p] > 0)
                         then multiset{p} else multiset{}
  {
    var swept := Swept(rows, sender, kind, faults);
    SweepScans(rows, sender, agent);
    ScansSnoc(swept, Command(id, sender, kind, p, Pending, ""), agent);
    if kind == Scan && faults.lookupOk { FoundIsPending(rows, sender, p); }
  }

  lemma QueueOps(rows: seq<Command>, sender: AgentId, kind: Kind, p: Payload, faults: Faults, id: nat, agent: AgentId)
    ensures CountOps(QueueRows(rows, sender, kind, p, faults, id), agent) ==
            CountOps(rows, agent) + if agent == sender && IsOps(kind) && faults.insertOk then 1 else 0
  {
    var swept := Swept(rows, sender, kind, faults);
    SweepOps(rows, sender, agent);
    OpsSnoc(swept, Command(id, sender, kind, p, Pending, ""), agent);
  }

  // ---------------------------------------------------------------- whole runs

  /**
   The pending probes of an agent are, in order, some of the plans enqueued since its last
   successful sweep, and there are at most one plus the failed sweeps since then.
   */
  lemma {:induction false} PendingPlansAreRecent(cfg: Config, steps: seq<Step>, agent: AgentId)
    requires ValidRun(steps)
    ensures Subseq(PendingPlans(Run(cfg, steps).commands, agent), Plans(cfg, steps, agent))
    ensures |PendingPlans(Run(cfg, steps).commands, agent)| <= |Plans(cfg, steps, agent)|
                                                            <= 1 + FailedSweeps(cfg, steps, agent)
  {
    if steps == [] {
    } else {
      var t, s := Run(cfg, Init(steps)), Last(steps);
      PendingPlansAreRecent(cfg, Init(steps), agent);
      StepIsRowStep(t, cfg, s);
      PlansStep(t.commands, Apply(t, cfg, s).commands, s, AdmitsAny(t, cfg, s), t.nextCommand, agent,
                Plans(cfg, Init(steps), agent));
    }
    SubseqLength(PendingPlans(Run(cfg, steps).commands, agent), Plans(cfg, steps, agent));
  }

  lemma PlansStep(rows: seq<Command>, rows': seq<Command>, s: Step, admitted: bool, id: nat, agent: AgentId,
                  before: seq<Payload>)
    requires RowStep(rows, rows', s, admitted, id) && Subseq(PendingPlans(rows, agent), before)
    ensures Subseq(PendingPlans(rows', agent), PlansAfter(s, admitted, agent, before))
  {
    if admitted {
      QueuePlans(rows, s.agent, KindOf(s.req).value, s.payload, s.faults, id, agent);
      if For(s, agent, Probe) {
        PlansCombine(PendingPlans(rows, agent), before, s.payload, s.faults.sweepOk, s.faults.insertOk);
      }
    } else {
      SettlingShrinks(rows, rows', agent);
      SubseqTrans(PendingPlans(rows', agent), PendingPlans(rows, agent), before);
    }
  }

  lemma PlansCombine(a: seq<Payload>, b: seq<Payload>, p: Payload, sweep: bool, insert: bool)
    requires Subseq(a, b)
    ensures Subseq((if sweep then [] else a) + (if insert then [p] else []),
                   (if sweep then [] else b) + (if insert then [p] else []))
  {
    var a', b' := if sweep then [] else a, if sweep then [] else b;
    SubseqBoth(a', b', p);
    assert a' + [] == a' && b' + [] == b';
  }

  /** Right after a successful sweep the only pending probe is the plan just enqueued; a failed insert loses it. */
  lemma SweptPlanIsAlone(cfg: Config, steps: seq<Step>, agent: AgentId)
    requires ValidRun(steps) && steps != []
    requires Admits(Run(cfg, Init(steps)), cfg, Last(steps), agent, Probe) && Last(steps).faults.sweepOk
    ensures PendingPlans(Run(cfg, steps).commands, agent) ==
            if Last(steps).faults.insertOk then [Last(steps).payload] else []
  {
    var t, s := Run(cfg, Init(steps)), Last(steps);
    StepIsRowStep(t, cfg, s);
    QueuePlans(t.commands, s.agent, Probe, s.payload, s.faults, t.nextCommand, agent);
  }

  /** The plan of the agent's latest probe that was stored. */
  function NewestPlan(cfg: Config, steps: seq<Step>, agent: AgentId): Option<Payload>
    requires ValidRun(steps)
  {
    if steps == [] then None
    else
      var s := Last(steps);
      if AdmitsAny(Run(cfg, Init(steps)), cfg, s) && For(s, agent, Probe) && s.faults.insertOk then Some(s.payload)
      else NewestPlan(cfg, Init(steps), agent)
  }

  lemma {:induction false} PlansEndWithNewest(cfg: Config, steps: seq<Step>, agent: AgentId)
    requires ValidRun(steps)
    ensures var ps := Plans(cfg, steps, agent);
            ps != [] ==> NewestPlan(cfg, steps, agent) == Some(ps[|ps| - 1])
  {
    if steps == [] {
    } else {
      PlansEndWithNewest(cfg, Init(steps), agent);
    }
  }

  /** With no failed sweep outstanding, a pending probe is the newest plan and there is no other. */
  lemma PendingProbeIsNewest(cfg: Config, steps: seq<Step>, agent: AgentId)
    requires ValidRun(steps) && FailedSweeps(cfg, steps, agent) == 0
    ensures var pending := PendingPlans(Run(cfg, steps).commands, agent);
            pending == [] || (NewestPlan(cfg, steps, agent).Some? && pending == [NewestPlan(cfg, steps, agent).value])
  {
    PendingPlansAreRecent(cfg, steps, agent);
    PlansEndWithNewest(cfg, steps, agent);
    var pending, plans := PendingPlans(Run(cfg, steps).commands, agent), Plans(cfg, steps, agent);
    if pending != [] {
      SubseqMember(pending, plans, pending[0]);
      assert pending == [pending[0]] && plans == [plans[0]];
    }
  }

  /** No payload is pending more often than once plus once per failed duplicate lookup of it. */
  lemma {:induction false} PendingScansAreDistinct(cfg: Config, steps: seq<Step>, agent: AgentId)
    requires ValidRun(steps)
    ensures PendingScans(Run(cfg, steps).commands, agent) <=
            multiset(Scanned(cfg, steps, agent)) + FailedLookups(cfg, steps, agent)
  {
    if steps == [] {
    } else {
      var t, s := Run(cfg, Init(steps)), Last(steps);
      PendingScansAreDistinct(cfg, Init(steps), agent);
      StepIsRowStep(t, cfg, s);
      ScansStep(t.commands, Apply(t, cfg, s).commands, s, AdmitsAny(t, cfg, s), t.nextCommand, agent,
                Scanned(cfg, Init(steps), agent), FailedLookups(cfg, Init(steps), agent));
    }
  }

  lemma ScansStep(rows: seq<Command>, rows': seq<Command>, s: Step, admitted: bool, id: nat, agent: AgentId,
                  scanned: set<Payload>, failed: multiset<Payload>)
    requires RowStep(rows, rows', s, admitted, id) && PendingScans(rows, agent) <= multiset(scanned) + failed
    ensures PendingScans(rows', agent) <=
            multiset(ScannedAfter(s, admitted, agent, scanned)) + FailedAfter(s, admitted, agent, failed)
  {
    if admitted {
      QueueScans(rows, s.agent, KindOf(s.req).value, s.payload, s.faults, id, agent);
    } else {
      SettlingShrinks(rows, rows', agent);
    }
  }

  /** With every duplicate lookup answered, an agent never has two pending scans of one payload. */
  lemma NoDuplicateScans(cfg: Config, steps: seq<Step>, agent: AgentId, p: Payload)
    requires ValidRun(steps) && FailedLookups(cfg, steps, agent) == multiset{}
    ensures PendingScans(Run(cfg, steps).commands, agent)[p] <= 1
  {
    PendingScansAreDistinct(cfg, steps, agent);
  }

  lemma {:induction false} OpsBounded(cfg: Config, steps: seq<Step>, agent: AgentId)
    requires ValidRun(steps)
    ensures CountOps(Run(cfg, steps).commands, agent) <= OpsEnqueued(cfg, steps, agent)
  {
    if steps == [] {
    } else {
      var t, s := Run(cfg, Init(steps)), Last(steps);
      OpsBounded(cfg, Init(steps), agent);
      StepIsRowStep(t, cfg, s);
      OpsStep(t.commands, Apply(t, cfg, s).commands, s, AdmitsAny(t, cfg, s), t.nextCommand, agent);
    }
  }

  lemma OpsStep(rows: seq<Command>, rows': seq<Command>, s: Step, admitted: bool, id: nat, agent: AgentId)
    requires RowStep(rows, rows', s, admitted, id)
    ensures CountOps(rows', agent) <= CountOps(rows, agent) + if admitted && ForOps(s, agent) then 1 else 0
  {
    if admitted {
      QueueOps(rows, s.agent, KindOf(s.req).value, s.payload, s.faults, id, agent);
    } else {
      SettlingShrinks(rows, rows', agent);
    }
  }

  /**
   The backlog an agent faces after any run: one plan, one row per distinct scan, the ops commands,
   and one row per coalescing query that failed. It does not depend on how long the agent was away.
   */
  lemma QueueIsBounded(cfg: Config, steps: seq<Step>, agent: AgentId)
    requires ValidRun(steps)
    ensures CountPending(Run(cfg, steps).commands, agent) <=
            1 + |Scanned(cfg, steps, agent)| + OpsEnqueued(cfg, steps, agent)
            + FailedSweeps(cfg, steps, agent) + |FailedLookups(cfg, steps, agent)|
  {
    var rows := Run(cfg, steps).commands;
    PendingSplits(rows, agent);
    PendingPlansAreRecent(cfg, steps, agent);
    PendingScansAreDistinct(cfg, steps, agent);
    OpsBounded(cfg, steps, agent);
    SubmultisetSize(PendingScans(rows, agent), Scanned(cfg, steps, agent), FailedLookups(cfg, steps, agent));
  }

  lemma SubmultisetSize<T>(a: multiset<T>, b: set<T>, c: multiset<T>)
    requires a <= multiset(b) + c
    ensures |a| <= |b| + |c|
  {
    var large := multiset(b) + c;
    var more := large - a;
    SetSize(b);
    assert large == a + more;
    assert |a + more| == |a| + |more| && |large| == |multiset(b)| + |c|;
  }

  lemma {:induction false} SetSize<T>(b: set<T>)
    ensures |multiset(b)| == |b|
  {
    if b == {} {
    } else {
      var x :| x in b;
      SetSize(b - {x});
      assert multiset(b) == multiset(b - {x}) + multiset{x};
    }
  }

  /** An accepted scan is in the table afterwards, pending, with exactly the requested payload. */
  lemma AcceptedScanIsPending(t: Tables, cfg: Config, s: Step)
    requires ValidTables(t) && ValidStep(s) && s.Enqueue? && KindOf(s.req) == Some(Scan)
    requires Reply(t, cfg, s).1.Ok?
    ensures var c := Reply(t, cfg, s).1.value;
            c in Apply(t, cfg, s).commands && PendingOf(c, s.agent, Scan) && c.payload == s.payload
  {
  }
}
