/** Enqueueing, acknowledging and completing agent commands. */
module AgentCommands {
  import opened Targets
  import opened Tables
  import opened Store
  import opened Wrappers

  /** The command text of a request: empty, on the whitelist, or neither. */
  datatype Request = Unnamed | Named(kind: Kind) | Unlisted(text: string)

  datatype Config = Config(remoteOps: bool, allowReserved: bool)

  /** Which of the queue calls inside one Enqueue succeed. */
  datatype Faults = Faults(sweepOk: bool, lookupOk: bool, insertOk: bool)

  datatype EnqueueError = AgentIDRequired | UnknownCommand | RemoteOpsDisabled | BoundaryError | StoreError

  predicate IsOps(kind: Kind) { kind.Restart? || kind.ConfigReload? || kind.LogsTail? }

  function KindOf(req: Request): Option<Kind> {
    match req
    case Unnamed => Some(Scan)
    case Named(k) => Some(k)
    case Unlisted(_) => None
  }

  predicate ValidTables(t: Tables) {
    forall n :: n in t.networks ==> ValidNetText(t.networks[n].cidr)
  }

  function CidrOf(t: Tables, n: int): (c: NetText)
    requires ValidTables(t) && n in t.networks
    ensures ValidNetText(c)
  {
    t.networks[n].cidr
  }

  /** validateScanTargets: true when the scan may be stored. `found` is the network the lookup returned. */
  predicate AcceptsTargets(t: Tables, cfg: Config, parts: seq<Part>, found: Option<int>)
    requires ValidTables(t) && ValidSpec(parts) && (found.Some? ==> found.value in t.networks)
  {
    parts == [Blank] ||
    (&& ValidateSpec(parts, cfg.allowReserved).None?
     && (found.Some? ==>
           match ParseNetwork(CidrOf(t, found.value))
           case Err(EmptyCidr) => true
           case Err(InvalidCidr) => false
           case Ok(net) =>
             var p := PartitionSpec(parts, Some(net));
             p.Ok? && p.value.outside == []))
  }

  /** The gates before the queue is touched, in the order of the source. */
  function Gate(t: Tables, cfg: Config, agent: AgentId, req: Request, payload: Payload, found: Option<int>):
      Option<EnqueueError>
    requires ValidTables(t) && ValidSpec(payload.targets) && (found.Some? ==> found.value in t.networks)
  {
    if agent == "" then Some(AgentIDRequired)
    else
      match KindOf(req)
      case None => Some(UnknownCommand)
      case Some(kind) =>
        if IsOps(kind) && !cfg.remoteOps then Some(RemoteOpsDisabled)
        else if kind == Scan && !AcceptsTargets(t, cfg, payload.targets, found) then Some(BoundaryError)
        else None
  }

  /** The rows left by the coalescing sweep, and the identical pending scan if the lookup finds one. */
  function Swept(rows: seq<Command>, agent: AgentId, kind: Kind, faults: Faults): seq<Command> {
    if kind == Probe && faults.sweepOk then Sweep(rows, agent, kind) else rows
  }

  function Duplicate(rows: seq<Command>, agent: AgentId, kind: Kind, payload: Payload, faults: Faults): Option<Command> {
    if kind == Scan && faults.lookupOk then FindPending(rows, agent, kind, payload) else None
  }

  /** The command rows after an admitted Enqueue: coalesce, then insert under `id`. */
  function QueueRows(rows: seq<Command>, agent: AgentId, kind: Kind, payload: Payload, faults: Faults, id: nat):
      seq<Command>
  {
    if Duplicate(rows, agent, kind, payload, faults).Some? then rows
    else if !faults.insertOk then Swept(rows, agent, kind, faults)
    else Swept(rows, agent, kind, faults) + [Command(id, agent, kind, payload, Pending, "")]
  }

  /** The tables and the reply once the gates are passed. */
  function Queue(t: Tables, agent: AgentId, kind: Kind, payload: Payload, faults: Faults):
      (Tables, Result<Command, EnqueueError>)
  {
    var rows := QueueRows(t.commands, agent, kind, payload, faults, t.nextCommand);
    var dup := Duplicate(t.commands, agent, kind, payload, faults);
    if dup.Some? then (t, Ok(dup.value))
    else if !faults.insertOk then (t.(commands := rows), Err(StoreError))
    else (t.(commands := rows, nextCommand := t.nextCommand + 1),
          Ok(Command(t.nextCommand, agent, kind, payload, Pending, "")))
  }

  function EnqueueTables(t: Tables, cfg: Config, agent: AgentId, req: Request, payload: Payload,
                         found: Option<int>, faults: Faults): (Tables, Result<Command, EnqueueError>)
    requires ValidTables(t) && ValidSpec(payload.targets) && (found.Some? ==> found.value in t.networks)
  {
    var gate := Gate(t, cfg, agent, req, payload, found);
    if gate.Some? then (t, Err(gate.value))
    else Queue(t, agent, KindOf(req).value, payload, faults)
  }

  /** Completion status as reported by the agent; anything but "failed" is stored as done. */
  datatype Report = SaysDone | SaysFailed | SaysOther(text: string)

  function StatusOf(r: Report): Status { if r.SaysFailed? then Failed else Done }

  class AgentCommandService {
    const db: Store
    const cfg: Config

    constructor (db: Store, cfg: Config)
      ensures this.db == db && this.cfg == cfg
    {
      this.db, this.cfg := db, cfg;
    }

    /** `found` is the network the boundary check looked up, None when there was none or the lookup failed. */
    method Enqueue(agent: AgentId, req: Request, payload: Payload, networkOk: bool, faults: Faults)
      returns (r: Result<Command, EnqueueError>, ghost found: Option<int>)
      requires ValidSpec(payload.targets) && ValidTables(db.Snapshot())
      modifies db
      ensures found.Some? ==> Stamped(old(db.Snapshot()), found.value, agent)
      ensures networkOk && KindOf(req) == Some(Scan) && payload.targets != [Blank] && r.Ok? ==>
                Resolves(old(db.Snapshot()), agent, found)
      ensures (db.Snapshot(), r) == EnqueueTables(old(db.Snapshot()), cfg, agent, req, payload, found, faults)
    {
      found := None;
      if agent == "" {
        return Err(AgentIDRequired), None;
      }
      if req.Unlisted? {
        return Err(UnknownCommand), None;
      }
      var kind := KindOf(req).value;
      if IsOps(kind) && !cfg.remoteOps {
        return Err(RemoteOpsDisabled), None;
      }
      if kind == Scan {
        var ok, f := ValidateScanTargets(agent, payload.targets, networkOk);
        found := f;
        if !ok {
          return Err(BoundaryError), found;
        }
      }
      match kind {
        case Probe =>
          if faults.sweepOk {
            db.DeletePendingAgentCommandsByCommand(agent, kind);
          }
        case Scan =>
          if faults.lookupOk {
            var existing := db.GetPendingAgentCommandByPayload(agent, kind, payload);
            if existing.Some? {
              return Ok(existing.value), found;
            }
          }
        case _ =>
      }
      if !faults.insertOk {
        return Err(StoreError), found;
      }
      var c := db.CreateAgentCommand(agent, kind, payload);
      r := Ok(c);
    }

    method ValidateScanTargets(agent: AgentId, parts: seq<Part>, networkOk: bool) returns (ok: bool, found: Option<int>)
      requires ValidSpec(parts) && ValidTables(db.Snapshot())
      ensures found.Some? ==> Stamped(db.Snapshot(), found.value, agent)
      ensures networkOk && ok && parts != [Blank] ==> Resolves(db.Snapshot(), agent, found)
      ensures ok == AcceptsTargets(db.Snapshot(), cfg, parts, found)
    {
      found := None;
      if parts == [Blank] {
        return true, None;
      }
      var err := ValidateTargetsFor(parts, cfg.allowReserved);
      if err.Some? {
        return false, None;
      }
      if networkOk {
        found := db.GetNetworkByAgentID(agent);
      }
      if found.None? {
        return true, None;
      }
      var net := ParseNetwork(db.networks[found.value].cidr);
      if net == Err(EmptyCidr) {
        return true, found;
      }
      if net.Err? {
        return false, found;
      }
      var p := PartitionTargets(parts, Some(net.value));
      ok := p.Ok? && p.value.outside == [];
    }

    method Ack(id: nat)
      modifies db
      ensures db.Snapshot() == old(db.Snapshot()).(commands := AckRows(old(db.commands), id))
    {
      db.AckAgentCommand(id);
      assert db.commands == AckRows(old(db.commands), id);
    }

    method Complete(id: nat, report: Report, result: string)
      modifies db
      ensures db.Snapshot() ==
              old(db.Snapshot()).(commands := CompleteRows(old(db.commands), id, StatusOf(report), result))
    {
      var status := if report.SaysFailed? then Failed else Done;
      db.CompleteAgentCommand(id, status, result);
      assert db.commands == CompleteRows(old(db.commands), id, status, result);
    }
  }
}
