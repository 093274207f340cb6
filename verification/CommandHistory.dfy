/** The life of a command row over every run: where it came from, what may change, when it may vanish. */
module CommandHistory {
  import opened Tables
  import opened AgentCommands
  import opened Runs
  import opened Wrappers

  /** Rows are in id order and below the counter. */
  ghost predicate Ordered(t: Tables) {
    && (forall c :: c in t.commands ==> c.id < t.nextCommand)
    && Ascending(t.commands)
  }

  ghost predicate Ascending(rows: seq<Command>) {
    forall i, j :: 0 <= i < j < |rows| ==> rows[i].id < rows[j].id
  }

  lemma AscendingSnoc(rows: seq<Command>, c: Command)
    requires Ascending(rows) && forall d :: d in rows ==> d.id < c.id
    ensures Ascending(rows + [c])
  {
    forall i, j | 0 <= i < j < |rows + [c]| ensures (rows + [c])[i].id < (rows + [c])[j].id {
      assert rows[i] in rows;
    }
  }

  lemma AscendingInit(rows: seq<Command>)
    requires Ascending(rows) && rows != []
    ensures Ascending(rows[..|rows| - 1])
    ensures forall d :: d in rows[..|rows| - 1] ==> d.id < rows[|rows| - 1].id
  {
  }

  function Rank(s: Status): nat {
    match s
    case Pending => 0
    case Acknowledged => 1
    case Done => 2
    case Failed => 2
  }

  predicate Superseded(c: Command) { c.kind == Probe && c.status == Pending }

  /** Row `c` may become row `d`. */
  predicate Advances(c: Command, d: Command) {
    c.agent == d.agent && c.kind == d.kind && c.payload == d.payload && Rank(c.status) <= Rank(d.status)
  }

  ghost predicate HasId(t: Tables, id: nat) { exists c :: c in t.commands && c.id == id }

  /** Later tables: rows keep their identity, never step back, and only a pending probe can be gone. */
  ghost predicate Evolves(t: Tables, u: Tables) {
    && t.nextCommand <= u.nextCommand
    && (forall c, d :: c in t.commands && d in u.commands && c.id == d.id ==> Advances(c, d))
    && (forall c :: c in t.commands && !Superseded(c) ==> HasId(u, c.id))
    && (forall d :: d in u.commands && d.id < t.nextCommand ==> HasId(t, d.id))
  }

  lemma {:induction false} SweepAscending(rows: seq<Command>, agent: AgentId, kind: Kind)
    requires Ascending(rows)
    ensures Ascending(Sweep(rows, agent, kind))
  {
    if rows == [] {
    } else {
      var init, last := rows[..|rows| - 1], rows[|rows| - 1];
      var r := Sweep(init, agent, kind);
      AscendingInit(rows);
      SweepAscending(init, agent, kind);
      SweepMembers(init, agent, kind);
      AscendingSnoc(r, last);
      SweepSnoc(init, last, agent, kind);
      assert rows == init + [last];
    }
  }

  lemma OrderedStep(t: Tables, cfg: Config, s: Step)
    requires ValidTables(t) && ValidStep(s) && Ordered(t)
    ensures Ordered(Apply(t, cfg, s))
  {
    var u := Apply(t, cfg, s);
    StepIsRowStep(t, cfg, s);
    RowsStayOrdered(t.commands, u.commands, s, AdmitsAny(t, cfg, s), t.nextCommand);
    CounterStep(t, cfg, s);
  }

  /** Queueing adds one row at most and takes away swept plans at most. */
  lemma QueueMembers(rows: seq<Command>, agent: AgentId, kind: Kind, p: Payload, faults: Faults, id: nat)
    ensures var swept, new_ := Swept(rows, agent, kind, faults), Command(id, agent, kind, p, Pending, "");
            var queued := QueueRows(rows, agent, kind, p, faults, id);
            && (forall c :: c in swept ==> c in rows)
            && (forall c :: c in queued ==> c in rows || (c == new_ && faults.insertOk))
            && (forall c :: c in rows && !(kind == Probe && PendingOf(c, agent, kind)) ==> c in queued)
  {
    SweepMembers(rows, agent, kind);
  }

  /** The counter moves past every id that is handed out, and only then. */
  lemma CounterStep(t: Tables, cfg: Config, s: Step)
    requires ValidTables(t) && ValidStep(s) && Ordered(t)
    ensures t.nextCommand <= Apply(t, cfg, s).nextCommand
    ensures forall c :: c in Apply(t, cfg, s).commands && c.id == t.nextCommand ==>
              t.nextCommand < Apply(t, cfg, s).nextCommand
  {
    if AdmitsAny(t, cfg, s) { QueueMembers(t.commands, s.agent, KindOf(s.req).value, s.payload, s.faults, t.nextCommand); }
  }

  lemma RowsStayOrdered(rows: seq<Command>, rows': seq<Command>, s: Step, admitted: bool, id: nat)
    requires RowStep(rows, rows', s, admitted, id) && Ascending(rows) && forall c :: c in rows ==> c.id < id
    ensures Ascending(rows') && forall c :: c in rows' ==> c.id <= id
    ensures forall c :: c in rows' && c.id == id ==> admitted && c !in rows
  {
    if admitted {
      var kind := KindOf(s.req).value;
      SweepAscending(rows, s.agent, kind);
      QueueMembers(rows, s.agent, kind, s.payload, s.faults, id);
      AscendingSnoc(Swept(rows, s.agent, kind, s.faults), Command(id, s.agent, kind, s.payload, Pending, ""));
    }
  }

  lemma {:induction false} OrderedRun(cfg: Config, steps: seq<Step>)
    requires ValidRun(steps)
    ensures Ordered(Run(cfg, steps))
  {
    if steps == [] {
    } else {
      OrderedRun(cfg, Init(steps));
      OrderedStep(Run(cfg, Init(steps)), cfg, Last(steps));
    }
  }

  lemma SameId(t: Tables, c: Command, d: Command)
    requires Ordered(t) && c in t.commands && d in t.commands && c.id == d.id
    ensures c == d
  {
  }

  /** Rewriting rows in place is an evolution when each row advances under the same id. */
  lemma RowwiseEvolves(t: Tables, u: Tables)
    requires Ordered(t) && t.nextCommand <= u.nextCommand && AllSettle(t.commands, u.commands)
    ensures Evolves(t, u)
  {
    forall i | 0 <= i < |t.commands| ensures HasId(u, t.commands[i].id) && HasId(t, u.commands[i].id) {
      assert u.commands[i] in u.commands && t.commands[i] in t.commands;
    }
    forall c, d | c in t.commands && d in u.commands && c.id == d.id ensures Advances(c, d) {
      SettledAdvances(t, u, c, d);
    }
  }

  lemma SettledAdvances(t: Tables, u: Tables, c: Command, d: Command)
    requires Ordered(t) && AllSettle(t.commands, u.commands)
    requires c in t.commands && d in u.commands && c.id == d.id
    ensures Advances(c, d)
  {
    var i :| 0 <= i < |u.commands| && u.commands[i] == d;
    assert t.commands[i] in t.commands;
    SameId(t, c, t.commands[i]);
  }

  lemma EvolvesStep(t: Tables, cfg: Config, s: Step)
    requires ValidTables(t) && ValidStep(s) && Ordered(t)
    ensures Evolves(t, Apply(t, cfg, s))
  {
    var u := Apply(t, cfg, s);
    StepIsRowStep(t, cfg, s);
    CounterStep(t, cfg, s);
    if AdmitsAny(t, cfg, s) {
      QueueEvolves(t, u, s.agent, KindOf(s.req).value, s.payload, s.faults);
    } else {
      RowwiseEvolves(t, u);
    }
  }

  lemma QueueEvolves(t: Tables, u: Tables, agent: AgentId, kind: Kind, p: Payload, faults: Faults)
    requires Ordered(t) && t.nextCommand <= u.nextCommand
    requires u.commands == QueueRows(t.commands, agent, kind, p, faults, t.nextCommand)
    ensures Evolves(t, u)
  {
    QueueMembers(t.commands, agent, kind, p, faults, t.nextCommand);
    forall c, d | c in t.commands && d in u.commands && c.id == d.id ensures Advances(c, d) {
      if d in t.commands { SameId(t, c, d); }
    }
    forall c | c in t.commands && !Superseded(c) ensures HasId(u, c.id) {
      assert c in u.commands;
    }
    forall d | d in u.commands && d.id < t.nextCommand ensures HasId(t, d.id) {
      assert d in t.commands;
    }
  }

  lemma EvolvesTrans(t: Tables, u: Tables, v: Tables)
    requires Ordered(t) && Evolves(t, u) && Evolves(u, v)
    ensures Evolves(t, v)
  {
    forall c, d | c in t.commands && d in v.commands && c.id == d.id ensures Advances(c, d) {
      assert HasId(u, d.id);
      var m :| m in u.commands && m.id == d.id;
      assert Advances(c, m) && Advances(m, d);
    }
    forall c | c in t.commands && !Superseded(c) ensures HasId(v, c.id) {
      assert HasId(u, c.id);
      var m :| m in u.commands && m.id == c.id;
      assert Advances(c, m) && !Superseded(m);
    }
    forall d | d in v.commands && d.id < t.nextCommand ensures HasId(t, d.id) {
      assert HasId(u, d.id);
      var m :| m in u.commands && m.id == d.id;
    }
  }

  /**
   Between any two moments of a run a command keeps its agent, kind and payload, its status rank
   never goes down, a row is gone only if it was a still-pending probe, and no id comes back.
   */
  lemma {:induction false} CommandsOnlyAdvance(cfg: Config, steps: seq<Step>, k: nat)
    requires ValidRun(steps) && k <= |steps|
    ensures ValidRun(steps[..k]) && Evolves(Run(cfg, steps[..k]), Run(cfg, steps))
    decreases |steps|
  {
    if k == |steps| {
      assert steps[..k] == steps;
      OrderedRun(cfg, steps);
      RowwiseEvolves(Run(cfg, steps), Run(cfg, steps));
    } else {
      assert Init(steps)[..k] == steps[..k];
      CommandsOnlyAdvance(cfg, Init(steps), k);
      OrderedRun(cfg, Init(steps));
      EvolvesStep(Run(cfg, Init(steps)), cfg, Last(steps));
      OrderedRun(cfg, steps[..k]);
      EvolvesTrans(Run(cfg, steps[..k]), Run(cfg, Init(steps)), Run(cfg, steps));
    }
  }

  // ---------------------------------------------------------------- reads

  predicate PendingFor(c: Command, agent: AgentId) { c.agent == agent && c.status == Pending }

  /**
   A poll delivers pending rows of the agent oldest first: it is in id order, full or complete, and
   every pending row it leaves out is newer than all it returns.
   */
  lemma {:induction false} PollIsOldestFirst(rows: seq<Command>, agent: AgentId, limit: nat)
    requires Ascending(rows)
    ensures var r := ListPending(rows, agent, limit);
            && Ascending(r)
            && (forall c :: c in r ==> c in rows && PendingFor(c, agent))
            && (forall c :: c in rows && PendingFor(c, agent) && c !in r ==>
                  |r| == limit && forall d :: d in r ==> d.id < c.id)
  {
    if rows == [] {
    } else {
      var init, last := rows[..|rows| - 1], rows[|rows| - 1];
      AscendingInit(rows);
      PollIsOldestFirst(init, agent, limit);
      var r := ListPending(init, agent, limit);
      AscendingSnoc(r, last);
      assert rows == init + [last];
    }
  }

  lemma {:induction false} NewestMatch(rows: seq<Command>, agent: AgentId, kind: Kind, p: Payload, c: Command)
    requires Ascending(rows) && c in rows && PendingOf(c, agent, kind) && c.payload == p
    ensures FindPending(rows, agent, kind, p).Some? && c.id <= FindPending(rows, agent, kind, p).value.id
  {
    var init, last := rows[..|rows| - 1], rows[|rows| - 1];
    AscendingInit(rows);
    assert rows == init + [last];
    if !(PendingOf(last, agent, kind) && last.payload == p) { NewestMatch(init, agent, kind, p, c); }
  }

  /** The duplicate lookup returns the newest identical pending row, and none iff there is none. */
  lemma LookupIsNewest(rows: seq<Command>, agent: AgentId, kind: Kind, p: Payload)
    requires Ascending(rows)
    ensures var r := FindPending(rows, agent, kind, p);
            && (r.None? <==> forall c :: c in rows && PendingOf(c, agent, kind) ==> c.payload != p)
            && (r.Some? ==>
                  && r.value in rows && PendingOf(r.value, agent, kind) && r.value.payload == p
                  && forall c :: c in rows && PendingOf(c, agent, kind) && c.payload == p ==> c.id <= r.value.id)
  {
    forall c | c in rows && PendingOf(c, agent, kind) && c.payload == p
      ensures FindPending(rows, agent, kind, p).Some? && c.id <= FindPending(rows, agent, kind, p).value.id
    {
      NewestMatch(rows, agent, kind, p, c);
    }
  }

  /** Acknowledging touches only a pending row of that id; completing decides the row for good. */
  lemma OutcomeOfAckAndComplete(t: Tables, cfg: Config, id: nat, report: Report, result: string, i: nat)
    requires ValidTables(t) && Ordered(t) && i < |t.commands|
    ensures var c := t.commands[i];
            var a, d := Apply(t, cfg, Ack(id)).commands[i], Apply(t, cfg, Complete(id, report, result)).commands[i];
            && (c.id != id ==> a == c && d == c)
            && (c.id == id ==>
                  && Rank(d.status) == 2 && (d.status == Failed <==> report == SaysFailed) && d.result == result
                  && (c.status == Pending ==> a.status == Acknowledged) && (c.status != Pending ==> a == c))
  {
  }

  /** Step i of the run was an Enqueue that admitted this very command. */
  ghost predicate AdmittedAt(cfg: Config, steps: seq<Step>, c: Command, i: nat)
    requires ValidRun(steps)
  {
    && i < |steps|
    && Admits(Run(cfg, steps[..i]), cfg, steps[i], c.agent, c.kind)
    && steps[i].payload == c.payload
  }

  /** Every row of the table was admitted, with its payload, by some step of the run. */
  lemma {:induction false} EveryRowWasAdmitted(cfg: Config, steps: seq<Step>, c: Command) returns (i: nat)
    requires ValidRun(steps) && c in Run(cfg, steps).commands
    ensures AdmittedAt(cfg, steps, c, i)
  {
    var t, s := Run(cfg, Init(steps)), Last(steps);
    assert Init(steps) == steps[..|steps| - 1];
    StepIsRowStep(t, cfg, s);
    var d := Origin(t.commands, Run(cfg, steps).commands, s, AdmitsAny(t, cfg, s), t.nextCommand, c);
    if d.None? {
      i := |steps| - 1;
    } else {
      i := EveryRowWasAdmitted(cfg, Init(steps), d.value);
      assert Init(steps)[..i] == steps[..i];
    }
  }

  /** The row `c` was before the step; none when the step itself admitted it. */
  lemma Origin(rows: seq<Command>, rows': seq<Command>, s: Step, admitted: bool, id: nat, c: Command)
    returns (d: Option<Command>)
    requires RowStep(rows, rows', s, admitted, id) && c in rows'
    ensures d.None? ==> admitted && For(s, c.agent, c.kind) && s.payload == c.payload
    ensures d.Some? ==> d.value in rows && d.value.agent == c.agent && d.value.kind == c.kind && d.value.payload == c.payload
  {
    if c in rows {
      d := Some(c);
    } else if admitted {
      d := None;
      QueueMembers(rows, s.agent, KindOf(s.req).value, s.payload, s.faults, id);
    } else {
      var i :| 0 <= i < |rows'| && rows'[i] == c;
      d := Some(rows[i]);
    }
  }

  /** With the centre switch off no ops command is ever stored, and no command without an agent. */
  lemma OpsNeedTheSwitch(cfg: Config, steps: seq<Step>, c: Command)
    requires ValidRun(steps) && c in Run(cfg, steps).commands
    ensures c.agent != ""
    ensures c.kind == Restart || c.kind == ConfigReload || c.kind == LogsTail ==> cfg.remoteOps
  {
    var i := EveryRowWasAdmitted(cfg, steps, c);
  }
}
