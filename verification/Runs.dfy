/** Runs of the command channel: every sequence of token, network and command steps. */
module Runs {
  import opened Targets
  import opened Tables
  import opened AgentTokens
  import opened AgentCommands
  import opened Wrappers

  /** One call, together with the store faults that hit it and the row its network lookup returned. */
  datatype Step =
    | CreateToken(agent: AgentId, network: int, hash: string, stampOk: bool)
    | RevokeToken(token: int, clearOk: bool)
    | DeleteToken(token: int, clearOk: bool)
    | NewNetwork(cidr: NetText)
    | EditNetwork(net: int, cidr: NetText)
    | DropNetwork(net: int)
    | Enqueue(agent: AgentId, req: Request, payload: Payload, found: Option<int>, faults: Faults)
    | Ack(id: nat)
    | Complete(id: nat, report: Report, result: string)

  predicate ValidStep(s: Step) {
    match s
    case NewNetwork(cidr) => ValidNetText(cidr)
    case EditNetwork(_, cidr) => ValidNetText(cidr)
    case Enqueue(_, _, payload, _, _) => ValidSpec(payload.targets)
    case _ => true
  }

  /** A lookup result that names no network counts as a failed lookup. */
  function Pick(t: Tables, found: Option<int>): (p: Option<int>)
    ensures p.Some? ==> p.value in t.networks
  {
    if found.Some? && found.value in t.networks then found else None
  }

  function Reply(t: Tables, cfg: Config, s: Step): (Tables, Result<Command, EnqueueError>)
    requires ValidTables(t) && ValidStep(s) && s.Enqueue?
  {
    EnqueueTables(t, cfg, s.agent, s.req, s.payload, Pick(t, s.found), s.faults)
  }

  function Apply(t: Tables, cfg: Config, s: Step): (t': Tables)
    requires ValidTables(t) && ValidStep(s)
    ensures ValidTables(t')
  {
    match s
    case CreateToken(agent, network, hash, stampOk) => CreateTables(t, agent, network, hash, stampOk)
    case RevokeToken(id, clearOk) => RevokeTables(t, id, clearOk)
    case DeleteToken(id, clearOk) => DeleteTables(t, id, clearOk)
    case NewNetwork(cidr) =>
      t.(networks := t.networks[t.nextNetwork := Network(cidr, "")], nextNetwork := t.nextNetwork + 1)
    case EditNetwork(n, cidr) =>
      if n in t.networks then t.(networks := t.networks[n := t.networks[n].(cidr := cidr)]) else t
    case DropNetwork(n) => t.(networks := t.networks - {n})
    case Enqueue(_, _, _, _, _) => Reply(t, cfg, s).0
    case Ack(id) => t.(commands := AckRows(t.commands, id))
    case Complete(id, report, result) => t.(commands := CompleteRows(t.commands, id, StatusOf(report), result))
  }

  /** Commands never touch tokens or networks. */
  lemma EnqueueKeepsOthers(t: Tables, cfg: Config, s: Step)
    requires ValidTables(t) && ValidStep(s) && s.Enqueue?
    ensures Apply(t, cfg, s) == t.(commands := Apply(t, cfg, s).commands, nextCommand := Apply(t, cfg, s).nextCommand)
  {
  }

  predicate ValidRun(steps: seq<Step>) { forall s :: s in steps ==> ValidStep(s) }

  /** The tables after a run from the empty store. */
  function Run(cfg: Config, steps: seq<Step>): (t: Tables)
    requires ValidRun(steps)
    ensures ValidTables(t)
  {
    if steps == [] then EMPTY else Apply(Run(cfg, Init(steps)), cfg, Last(steps))
  }

  function Init(steps: seq<Step>): (r: seq<Step>)
    requires steps != []
    ensures forall s :: s in r ==> s in steps
  {
    steps[..|steps| - 1]
  }

  function Last(steps: seq<Step>): (s: Step)
    requires steps != []
    ensures s in steps
  {
    steps[|steps| - 1]
  }

  /** The step is an Enqueue that passes every gate. */
  predicate AdmitsAny(t: Tables, cfg: Config, s: Step)
    requires ValidTables(t) && ValidStep(s)
  {
    s.Enqueue? && Gate(t, cfg, s.agent, s.req, s.payload, Pick(t, s.found)).None?
  }

  predicate For(s: Step, agent: AgentId, kind: Kind) {
    s.Enqueue? && s.agent == agent && KindOf(s.req) == Some(kind)
  }

  /** It passes as a command of this kind for this agent. */
  predicate Admits(t: Tables, cfg: Config, s: Step, agent: AgentId, kind: Kind)
    requires ValidTables(t) && ValidStep(s)
  {
    AdmitsAny(t, cfg, s) && For(s, agent, kind)
  }

  /** Row `c` became `d`: only its status and result changed, and it did not become pending. */
  predicate Settles(c: Command, d: Command) {
    && d.id == c.id && d.agent == c.agent && d.kind == c.kind && d.payload == c.payload
    && (d.status == Pending ==> c.status == Pending)
    && (c.status.Done? || c.status.Failed? ==> d.status.Done? || d.status.Failed?)
  }

  ghost predicate AllSettle(rows: seq<Command>, rows': seq<Command>) {
    |rows| == |rows'| && forall i :: 0 <= i < |rows| ==> Settles(rows[i], rows'[i])
  }

  /** What a step does to the command rows, given whether it is an admitted Enqueue. */
  ghost predicate RowStep(rows: seq<Command>, rows': seq<Command>, s: Step, admitted: bool, id: nat) {
    if admitted then
      && s.Enqueue? && KindOf(s.req).Some?
      && rows' == QueueRows(rows, s.agent, KindOf(s.req).value, s.payload, s.faults, id)
    else AllSettle(rows, rows')
  }

  lemma StepIsRowStep(t: Tables, cfg: Config, s: Step)
    requires ValidTables(t) && ValidStep(s)
    ensures RowStep(t.commands, Apply(t, cfg, s).commands, s, AdmitsAny(t, cfg, s), t.nextCommand)
  {
  }
}
