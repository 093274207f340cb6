/**
 The three tables behind the centre-to-agent command channel, and the SQL the services run
 on them. Ids come from AUTOINCREMENT counters, so an id is never used twice. SQLite's
 foreign keys are off, so dropping a network leaves the tokens bound to it untouched.
 */
module Tables {
  import opened Sequences
  import opened Targets
  import opened Wrappers

  type AgentId = string

  /** `stamp` is networks.agent_id; "" stands for NULL and for the empty string alike. */
  datatype Network = Network(cidr: NetText, stamp: AgentId)

  datatype Token = Token(agent: AgentId, hash: string, network: Option<int>, revoked: bool)

  datatype Kind = Scan | Probe | Restart | ConfigReload | LogsTail

  datatype Status = Pending | Acknowledged | Done | Failed

  /**
   A command payload: `text` is the whole marshalled JSON and `targets` the spec its "targets" entry
   parses to (`[Blank]` if missing). The text determines the targets, so it decides equality: the
   same targets written in two ways are two payloads.
   */
  datatype Payload = Payload(targets: seq<Part>, text: string)

  datatype Command = Command(id: nat, agent: AgentId, kind: Kind, payload: Payload, status: Status, result: string)

  datatype Tables = Tables(
    networks: map<int, Network>,
    tokens: map<int, Token>,
    commands: seq<Command>,
    nextNetwork: nat,
    nextToken: nat,
    nextCommand: nat)

  const EMPTY := Tables(map[], map[], [], 1, 1, 1)

  // ---------------------------------------------------------------- agent_commands

  /** UPDATE ... SET status = 'acknowledged' WHERE id = ? AND status = 'pending'. */
  function AckRow(c: Command, id: nat): Command {
    if c.id == id && c.status == Pending then c.(status := Acknowledged) else c
  }

  /** UPDATE ... SET status = ?, result = ? WHERE id = ?. */
  function CompleteRow(c: Command, id: nat, status: Status, result: string): Command {
    if c.id == id then c.(status := status, result := result) else c
  }

  function AckRows(rows: seq<Command>, id: nat): (r: seq<Command>)
    ensures |r| == |rows|
    ensures forall i :: 0 <= i < |r| ==> r[i] == AckRow(rows[i], id)
  {
    seq(|rows|, i requires 0 <= i < |rows| => AckRow(rows[i], id))
  }

  function CompleteRows(rows: seq<Command>, id: nat, status: Status, result: string): (r: seq<Command>)
    ensures |r| == |rows|
    ensures forall i :: 0 <= i < |r| ==> r[i] == CompleteRow(rows[i], id, status, result)
  {
    seq(|rows|, i requires 0 <= i < |rows| => CompleteRow(rows[i], id, status, result))
  }

  predicate PendingOf(c: Command, agent: AgentId, kind: Kind) {
    c.agent == agent && c.kind == kind && c.status == Pending
  }

  /** DELETE ... WHERE agent_id = ? AND command = ? AND status = 'pending'. */
  function Sweep(rows: seq<Command>, agent: AgentId, kind: Kind): seq<Command> {
    if rows == [] then []
    else
      var last := rows[|rows| - 1];
      Sweep(rows[..|rows| - 1], agent, kind) + if PendingOf(last, agent, kind) then [] else [last]
  }

  lemma SweepSnoc(init: seq<Command>, last: Command, agent: AgentId, kind: Kind)
    ensures var r := Sweep(init, agent, kind);
            Sweep(init + [last], agent, kind) == if PendingOf(last, agent, kind) then r else r + [last]
  {
    assert (init + [last])[..|init|] == init;
    assert Sweep(init, agent, kind) + [] == Sweep(init, agent, kind);
  }

  lemma {:induction false} SweepMembers(rows: seq<Command>, agent: AgentId, kind: Kind)
    ensures forall c :: c in Sweep(rows, agent, kind) <==> c in rows && !PendingOf(c, agent, kind)
  {
    if rows == [] {
    } else {
      var init, last := rows[..|rows| - 1], rows[|rows| - 1];
      SweepMembers(init, agent, kind);
      SweepSnoc(init, last, agent, kind);
      assert rows == init + [last];
    }
  }

  /** Appending a row to both lists, or to the longer one alone if it is dropped. */
  lemma DropOrder(kept: seq<Command>, init: seq<Command>, last: Command, dropped: bool)
    requires Subseq(kept, init)
    ensures Subseq(if dropped then kept else kept + [last], init + [last])
  {
    if dropped { SubseqExtend(kept, init, last); } else { SubseqBoth(kept, init, last); }
  }

  /** The sweep keeps the other rows in order ... */
  lemma {:induction false} SweepKeepsOrder(rows: seq<Command>, agent: AgentId, kind: Kind)
    ensures Subseq(Sweep(rows, agent, kind), rows)
  {
    if rows == [] {
    } else {
      var init, last := rows[..|rows| - 1], rows[|rows| - 1];
      SweepKeepsOrder(init, agent, kind);
      SweepSnoc(init, last, agent, kind);
      DropOrder(Sweep(init, agent, kind), init, last, PendingOf(last, agent, kind));
      assert rows == init + [last];
    }
  }

  /** How often a row occurs. */
  function Occurs(rows: seq<Command>, c: Command): nat {
    if rows == [] then 0
    else Occurs(rows[..|rows| - 1], c) + if rows[|rows| - 1] == c then 1 else 0
  }

  lemma OccursSnoc(init: seq<Command>, last: Command, c: Command)
    ensures Occurs(init + [last], c) == Occurs(init, c) + if last == c then 1 else 0
  {
    assert (init + [last])[..|init|] == init;
  }

  lemma DropCount(kept: seq<Command>, init: seq<Command>, last: Command, c: Command, dropped: bool, gone: bool)
    requires Occurs(kept, c) == (if gone then 0 else Occurs(init, c)) && (last == c ==> dropped == gone)
    ensures Occurs(if dropped then kept else kept + [last], c) == if gone then 0 else Occurs(init + [last], c)
  {
    OccursSnoc(init, last, c);
    if !dropped { OccursSnoc(kept, last, c); }
  }

  lemma SweepCountStep(init: seq<Command>, last: Command, agent: AgentId, kind: Kind, c: Command)
    requires Occurs(Sweep(init, agent, kind), c) == if PendingOf(c, agent, kind) then 0 else Occurs(init, c)
    ensures Occurs(Sweep(init + [last], agent, kind), c) ==
            if PendingOf(c, agent, kind) then 0 else Occurs(init + [last], c)
  {
    SweepSnoc(init, last, agent, kind);
    DropCount(Sweep(init, agent, kind), init, last, c, PendingOf(last, agent, kind), PendingOf(c, agent, kind));
  }

  /** ... and each as often as before. */
  lemma {:induction false} SweepKeepsCount(rows: seq<Command>, agent: AgentId, kind: Kind, c: Command)
    ensures Occurs(Sweep(rows, agent, kind), c) == if PendingOf(c, agent, kind) then 0 else Occurs(rows, c)
  {
    if rows == [] {
    } else {
      var init, last := rows[..|rows| - 1], rows[|rows| - 1];
      SweepKeepsCount(init, agent, kind, c);
      SweepCountStep(init, last, agent, kind, c);
      assert rows == init + [last];
    }
  }

  /** SELECT ... WHERE agent_id, command, payload match AND status = 'pending' ORDER BY id DESC LIMIT 1. */
  function FindPending(rows: seq<Command>, agent: AgentId, kind: Kind, payload: Payload): (r: Option<Command>)
    ensures r.None? <==> forall c :: c in rows && PendingOf(c, agent, kind) ==> c.payload != payload
    ensures r.Some? ==> r.value in rows && PendingOf(r.value, agent, kind) && r.value.payload == payload
  {
    if rows == [] then None
    else
      var last := rows[|rows| - 1];
      if PendingOf(last, agent, kind) && last.payload == payload then Some(last)
      else FindPending(rows[..|rows| - 1], agent, kind, payload)
  }

  /** SELECT ... WHERE agent_id = ? AND status = 'pending' ORDER BY id LIMIT ?. */
  function ListPending(rows: seq<Command>, agent: AgentId, limit: nat): (r: seq<Command>)
    ensures |r| <= limit
  {
    if rows == [] then []
    else
      var r, last := ListPending(rows[..|rows| - 1], agent, limit), rows[|rows| - 1];
      if last.agent == agent && last.status == Pending && |r| < limit then r + [last] else r
  }

  // ---------------------------------------------------------------- networks

  predicate Stamped(t: Tables, n: int, agent: AgentId) {
    n in t.networks && t.networks[n].stamp == agent
  }

  /** UPDATE networks SET agent_id = ? WHERE id = ?. */
  function SetStamp(t: Tables, n: int, agent: AgentId): Tables {
    if n in t.networks then t.(networks := t.networks[n := t.networks[n].(stamp := agent)]) else t
  }

  /** SELECT ... WHERE agent_id = ? LIMIT 1: some stamped network if there is one. */
  ghost predicate Resolves(t: Tables, agent: AgentId, found: Option<int>) {
    match found
    case Some(n) => Stamped(t, n, agent)
    case None => forall n :: !Stamped(t, n, agent)
  }
}

module Store {
  import opened Sequences
  import opened Tables
  import opened Wrappers

  class Store {
    var networks: map<int, Network>
    var tokens: map<int, Token>
    var commands: seq<Command>
    var nextNetwork: nat
    var nextToken: nat
    var nextCommand: nat

    constructor ()
      ensures Snapshot() == EMPTY
    {
      networks, tokens, commands := map[], map[], [];
      nextNetwork, nextToken, nextCommand := 1, 1, 1;
    }

    function Snapshot(): Tables
      reads this
    {
      Tables(networks, tokens, commands, nextNetwork, nextToken, nextCommand)
    }

    // -------------------------------------------------------------- agent_commands

    method AckAgentCommand(id: nat)
      modifies this`commands
      ensures |commands| == |old(commands)|
      ensures forall i :: 0 <= i < |commands| ==> var c := old(commands)[i];
                commands[i] == if c.id == id && c.status == Pending then c.(status := Acknowledged) else c
    {
      commands := AckRows(commands, id);
    }

    method CompleteAgentCommand(id: nat, status: Status, result: string)
      modifies this`commands
      ensures |commands| == |old(commands)|
      ensures forall i :: 0 <= i < |commands| ==> var c := old(commands)[i];
                commands[i] == if c.id == id then c.(status := status, result := result) else c
    {
      commands := CompleteRows(commands, id, status, result);
    }

    method CreateAgentCommand(agent: AgentId, kind: Kind, payload: Payload) returns (c: Command)
      modifies this`commands, this`nextCommand
      ensures c == Command(old(nextCommand), agent, kind, payload, Pending, "")
      ensures commands == old(commands) + [c] && nextCommand == old(nextCommand) + 1
    {
      c := Command(nextCommand, agent, kind, payload, Pending, "");
      commands := commands + [c];
      nextCommand := nextCommand + 1;
    }

    method DeletePendingAgentCommandsByCommand(agent: AgentId, kind: Kind)
      modifies this`commands
      ensures commands == Sweep(old(commands), agent, kind)
      ensures Subseq(commands, old(commands))
      ensures forall c :: Occurs(commands, c) == if PendingOf(c, agent, kind) then 0 else Occurs(old(commands), c)
    {
      SweepKeepsOrder(commands, agent, kind);
      forall c {
        SweepKeepsCount(commands, agent, kind, c);
      }
      commands := Sweep(commands, agent, kind);
    }

    method GetPendingAgentCommandByPayload(agent: AgentId, kind: Kind, payload: Payload) returns (c: Option<Command>)
      ensures c == FindPending(commands, agent, kind, payload)
      ensures c.None? <==> forall d :: d in commands && PendingOf(d, agent, kind) ==> d.payload != payload
      ensures c.Some? ==> c.value in commands && PendingOf(c.value, agent, kind) && c.value.payload == payload
    {
      c := FindPending(commands, agent, kind, payload);
    }

    // -------------------------------------------------------------- networks

    method GetNetworkByAgentID(agent: AgentId) returns (found: Option<int>)
      ensures Resolves(Snapshot(), agent, found)
    {
      if n :| n in networks && networks[n].stamp == agent {
        found := Some(n);
      } else {
        found := None;
      }
    }

    method SetNetworkAgentID(n: int, agent: AgentId)
      modifies this`networks
      ensures Snapshot() == SetStamp(old(Snapshot()), n, agent)
    {
      if n in networks {
        networks := networks[n := networks[n].(stamp := agent)];
      }
    }

    // -------------------------------------------------------------- agent_tokens

    /** The INSERT fails on UNIQUE(agent_id) and on UNIQUE(token_hash). */
    method CreateAgentToken(agent: AgentId, hash: string, network: int) returns (id: Option<int>)
      modifies this`tokens, this`nextToken
      ensures id.None? <==> exists k :: k in old(tokens) && (old(tokens)[k].agent == agent || old(tokens)[k].hash == hash)
      ensures id.None? ==> tokens == old(tokens) && nextToken == old(nextToken)
      ensures id.Some? ==> id.value == old(nextToken) && nextToken == old(nextToken) + 1
      ensures id.Some? ==> tokens == old(tokens)[old(nextToken) := Token(agent, hash, Some(network), false)]
    {
      if k :| k in tokens && (tokens[k].agent == agent || tokens[k].hash == hash) {
        return None;
      }
      id := Some(nextToken);
      tokens := tokens[nextToken := Token(agent, hash, Some(network), false)];
      nextToken := nextToken + 1;
    }

    /** Touches the row only while revoked_at is NULL, and says how many rows it touched. */
    method RevokeAgentToken(id: int) returns (n: nat)
      modifies this`tokens
      ensures n == if id in old(tokens) && !old(tokens)[id].revoked then 1 else 0
      ensures tokens == if n == 1 then old(tokens)[id := old(tokens)[id].(revoked := true)] else old(tokens)
    {
      n := 0;
      if id in tokens && !tokens[id].revoked {
        tokens := tokens[id := tokens[id].(revoked := true)];
        n := 1;
      }
    }

    method DeleteAgentToken(id: int) returns (n: nat)
      modifies this`tokens
      ensures n == if id in old(tokens) then 1 else 0
      ensures tokens == old(tokens) - {id}
    {
      n := if id in tokens then 1 else 0;
      tokens := tokens - {id};
    }
  }
}
