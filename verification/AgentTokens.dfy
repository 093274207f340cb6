/** The write path for agent tokens, and what it keeps true of the network stamps. */
module AgentTokens {
  import opened Tables
  import opened Store
  import opened Wrappers

  datatype TokenError = AgentIDRequired | NetworkIDInvalid | AgentIDTaken | AgentTokenNotFound

  predicate Taken(t: Tables, agent: AgentId, hash: string) {
    exists k :: k in t.tokens && (t.tokens[k].agent == agent || t.tokens[k].hash == hash)
  }

  predicate Creates(t: Tables, agent: AgentId, network: int, hash: string) {
    agent != "" && network > 0 && network in t.networks && !Taken(t, agent, hash)
  }

  /** The tables after Create; the stamp write may fail without undoing the token. */
  function CreateTables(t: Tables, agent: AgentId, network: int, hash: string, stampOk: bool): Tables {
    if !Creates(t, agent, network, hash) then t
    else
      var t' := t.(tokens := t.tokens[t.nextToken := Token(agent, hash, Some(network), false)],
                   nextToken := t.nextToken + 1);
      if stampOk then SetStamp(t', network, agent) else t'
  }

  /** clearNetworkAgentID: empty the bound network's stamp, but only if it is this token's agent. */
  function ClearStamp(t: Tables, tok: Token): Tables {
    if tok.network.None? || !Stamped(t, tok.network.value, tok.agent) then t
    else SetStamp(t, tok.network.value, "")
  }

  function RevokeTables(t: Tables, id: int, clearOk: bool): Tables {
    if id !in t.tokens || t.tokens[id].revoked then t
    else
      var t' := t.(tokens := t.tokens[id := t.tokens[id].(revoked := true)]);
      if clearOk then ClearStamp(t', t.tokens[id]) else t'
  }

  function DeleteTables(t: Tables, id: int, clearOk: bool): Tables {
    if id !in t.tokens then t
    else
      var t' := t.(tokens := t.tokens - {id});
      if clearOk then ClearStamp(t', t.tokens[id]) else t'
  }

  class AgentTokenService {
    const db: Store

    constructor (db: Store)
      ensures this.db == db
    {
      this.db := db;
    }

    method Create(agent: AgentId, network: int, hash: string, stampOk: bool) returns (r: Result<int, TokenError>)
      modifies db
      ensures db.Snapshot() == CreateTables(old(db.Snapshot()), agent, network, hash, stampOk)
      ensures r.Ok? <==> Creates(old(db.Snapshot()), agent, network, hash)
      ensures r.Ok? ==> r.value == old(db.nextToken)
      ensures r.Err? ==> r.error == (if agent == "" then AgentIDRequired
                                     else if network <= 0 || network !in old(db.networks) then NetworkIDInvalid
                                     else AgentIDTaken)
    {
      if agent == "" {
        return Err(AgentIDRequired);
      }
      if network <= 0 || network !in db.networks {
        return Err(NetworkIDInvalid);
      }
      var id := db.CreateAgentToken(agent, hash, network);
      if id.None? {
        return Err(AgentIDTaken);
      }
      if stampOk {
        db.SetNetworkAgentID(network, agent);
      }
      r := Ok(id.value);
    }

    method Revoke(id: int, clearOk: bool) returns (r: Result<(), TokenError>)
      modifies db
      ensures db.Snapshot() == RevokeTables(old(db.Snapshot()), id, clearOk)
      ensures r == if id in old(db.tokens) && !old(db.tokens)[id].revoked then Ok(()) else Err(AgentTokenNotFound)
    {
      if id !in db.tokens {
        return Err(AgentTokenNotFound);
      }
      var tok := db.tokens[id];
      var n := db.RevokeAgentToken(id);
      if n == 0 {
        return Err(AgentTokenNotFound);
      }
      if clearOk {
        ClearNetworkAgentID(tok);
      }
      r := Ok(());
    }

    method Delete(id: int, clearOk: bool) returns (r: Result<(), TokenError>)
      modifies db
      ensures db.Snapshot() == DeleteTables(old(db.Snapshot()), id, clearOk)
      ensures r == if id in old(db.tokens) then Ok(()) else Err(AgentTokenNotFound)
    {
      if id !in db.tokens {
        return Err(AgentTokenNotFound);
      }
      var tok := db.tokens[id];
      var n := db.DeleteAgentToken(id);
      if n == 0 {
        return Err(AgentTokenNotFound);
      }
      if clearOk {
        ClearNetworkAgentID(tok);
      }
      r := Ok(());
    }

    method ClearNetworkAgentID(tok: Token)
      modifies db
      ensures db.Snapshot() == ClearStamp(old(db.Snapshot()), tok)
    {
      if tok.network.None? || tok.network.value !in db.networks {
        return;
      }
      if db.networks[tok.network.value].stamp != tok.agent {
        return;
      }
      db.SetNetworkAgentID(tok.network.value, "");
    }
  }
}
