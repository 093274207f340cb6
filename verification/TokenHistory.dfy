/** Where tokens and networks come from and what becomes of them, over every run. */
module TokenHistory {
  import opened Targets
  import opened Tables
  import opened AgentTokens
  import opened AgentCommands
  import opened Runs
  import opened TokenRuns
  import opened Wrappers

  // ---------------------------------------------------------------- one Create

  /**
   Create stores a token exactly when there is an agent id, the network exists and neither the agent nor the
   hash is in use; whether another agent already stamps the network does not matter.
   */
  lemma CreateExactly(t: Tables, agent: AgentId, n: int, hash: string, stampOk: bool)
    requires Keys(t)
    ensures var u := CreateTables(t, agent, n, hash, stampOk);
            if agent != "" && n in t.networks &&
               forall k :: k in t.tokens ==> t.tokens[k].agent != agent && t.tokens[k].hash != hash
            then u.tokens == t.tokens[t.nextToken := Token(agent, hash, Some(n), false)] && u.nextToken == t.nextToken + 1
            else u == t
    ensures !stampOk ==> CreateTables(t, agent, n, hash, stampOk).networks == t.networks
  {
  }

  /** A new token takes the network over: its stamp is overwritten, and nothing else of any network changes. */
  lemma CreateTakesOver(t: Tables, agent: AgentId, n: int, hash: string)
    requires Keys(t) && Creates(t, agent, n, hash)
    ensures var u := CreateTables(t, agent, n, hash, true);
            && u.networks.Keys == t.networks.Keys && Stamped(u, n, agent) && u.networks[n].cidr == t.networks[n].cidr
            && (forall m :: m in t.networks && m != n ==> u.networks[m] == t.networks[m])
            && (forall other :: other != agent ==> !Stamped(u, n, other))
  {
  }

  // ---------------------------------------------------------------- the life of a token

  /** Step i of the run created token `k`. */
  ghost predicate MintedAt(cfg: Config, steps: seq<Step>, k: int, i: nat)
    requires ValidRun(steps)
  {
    && i < |steps| && steps[i].CreateToken?
    && var t := Run(cfg, steps[..i]);
       t.nextToken == k && Creates(t, steps[i].agent, steps[i].network, steps[i].hash)
  }

  /** Every token was created by a step of the run, with the agent, the hash and the network it asked for. */
  lemma {:induction false} TokenWasMinted(cfg: Config, steps: seq<Step>, k: int) returns (i: nat)
    requires ValidRun(steps) && k in Run(cfg, steps).tokens
    ensures MintedAt(cfg, steps, k, i)
    ensures var tok := Run(cfg, steps).tokens[k];
            tok.agent == steps[i].agent && tok.hash == steps[i].hash && tok.network == Some(steps[i].network)
  {
    var init, s := Init(steps), Last(steps);
    var t := Run(cfg, init);
    KeysRun(cfg, init);
    assert init == steps[..|steps| - 1];
    TokenStep(t, cfg, s, k);
    if k in t.tokens {
      i := TokenWasMinted(cfg, init, k);
      assert init[..i] == steps[..i];
    } else {
      i := |steps| - 1;
    }
  }

  predicate Removes(s: Step, k: int) { s.DeleteToken? && s.token == k }
  predicate Revokes(s: Step, k: int) { s.RevokeToken? && s.token == k }

  /** What one step does to token `k`. */
  lemma TokenStep(t: Tables, cfg: Config, s: Step, k: int)
    requires ValidTables(t) && ValidStep(s) && Keys(t)
    ensures var u := Apply(t, cfg, s);
            && t.nextToken <= u.nextToken
            && (k in t.tokens ==>
                  && (k in u.tokens <==> !Removes(s, k))
                  && (k in u.tokens ==> u.tokens[k] == t.tokens[k].(revoked := t.tokens[k].revoked || Revokes(s, k))))
            && (k !in t.tokens ==>
                  && (k in u.tokens <==> s.CreateToken? && Creates(t, s.agent, s.network, s.hash) && k == t.nextToken)
                  && (k in u.tokens ==> u.tokens[k] == Token(s.agent, s.hash, Some(s.network), false)))
  {
    if !IsTokenStep(s) { OtherStepsAreQuiet(t, cfg, s); }
  }

  /** A step after step i deleted token `k`, or revoked it. */
  ghost predicate RemovedSince(steps: seq<Step>, i: nat, k: int) { exists j :: i < j < |steps| && Removes(steps[j], k) }
  ghost predicate RevokedSince(steps: seq<Step>, i: nat, k: int) { exists j :: i < j < |steps| && Revokes(steps[j], k) }

  lemma SinceSnoc(init: seq<Step>, s: Step, i: nat, k: int)
    requires i < |init|
    ensures RemovedSince(init + [s], i, k) <==> RemovedSince(init, i, k) || Removes(s, k)
    ensures RevokedSince(init + [s], i, k) <==> RevokedSince(init, i, k) || Revokes(s, k)
  {
    var steps := init + [s];
    assert steps[|init|] == s && forall j :: 0 <= j < |init| ==> steps[j] == init[j];
  }

  /** A created token is there until it is deleted, and is revoked exactly when it was revoked since. */
  lemma {:induction false} TokenFate(cfg: Config, steps: seq<Step>, k: int, i: nat)
    requires ValidRun(steps) && MintedAt(cfg, steps, k, i)
    ensures var t := Run(cfg, steps);
            && k < t.nextToken
            && (k in t.tokens <==> !RemovedSince(steps, i, k))
            && (k in t.tokens ==> (t.tokens[k].revoked <==> RevokedSince(steps, i, k)))
    decreases |steps|
  {
    var init, s := Init(steps), Last(steps);
    KeysRun(cfg, init);
    TokenStep(Run(cfg, init), cfg, s, k);
    assert steps == init + [s];
    if i == |init| {
      assert steps[..i] == init;
    } else {
      assert init[..i] == steps[..i];
      TokenFate(cfg, init, k, i);
      SinceSnoc(init, s, i, k);
    }
  }

  /** UNIQUE(token_hash), over every run. */
  lemma {:induction false} HashesAreUnique(cfg: Config, steps: seq<Step>, j: int, k: int)
    requires ValidRun(steps)
    requires var t := Run(cfg, steps).tokens; j in t && k in t && t[j].hash == t[k].hash
    ensures j == k
  {
    var init, s := Init(steps), Last(steps);
    KeysRun(cfg, init);
    TokenStep(Run(cfg, init), cfg, s, j);
    TokenStep(Run(cfg, init), cfg, s, k);
    if j in Run(cfg, init).tokens && k in Run(cfg, init).tokens { HashesAreUnique(cfg, init, j, k); }
  }

  // ---------------------------------------------------------------- the life of a network

  /** How many networks the run added. */
  function Added(steps: seq<Step>): nat {
    if steps == [] then 0 else Added(steps[..|steps| - 1]) + if steps[|steps| - 1].NewNetwork? then 1 else 0
  }

  /** The CIDR last written for network `n`: by the step that added it, or an edit since; none if it is not there. */
  function CidrWritten(steps: seq<Step>, n: int): Option<NetText> {
    if steps == [] then None
    else
      var init, s := steps[..|steps| - 1], steps[|steps| - 1];
      var before := CidrWritten(init, n);
      match s
      case NewNetwork(cidr) => if n == Added(init) + 1 then Some(cidr) else before
      case EditNetwork(m, cidr) => if m == n && before.Some? then Some(cidr) else before
      case DropNetwork(m) => if m == n then None else before
      case _ => before
  }

  lemma NetworkStep(t: Tables, cfg: Config, s: Step, n: int)
    requires ValidTables(t) && ValidStep(s) && Keys(t)
    ensures var u := Apply(t, cfg, s);
            && u.nextNetwork == t.nextNetwork + (if s.NewNetwork? then 1 else 0)
            && (n in u.networks <==> (n in t.networks && s != DropNetwork(n)) || (s.NewNetwork? && n == t.nextNetwork))
            && (n in u.networks ==>
                  u.networks[n].cidr ==
                    if s.NewNetwork? && n == t.nextNetwork then s.cidr
                    else if s.EditNetwork? && s.net == n then s.cidr
                    else t.networks[n].cidr)
  {
    if s.Enqueue? { EnqueueKeepsOthers(t, cfg, s); }
  }

  /** Over every run a network exists and has a CIDR exactly as last written; no token step touches it. */
  lemma {:induction false} NetworkIsLastWritten(cfg: Config, steps: seq<Step>, n: int)
    requires ValidRun(steps)
    ensures var t := Run(cfg, steps);
            && t.nextNetwork == Added(steps) + 1
            && (n in t.networks <==> CidrWritten(steps, n).Some?)
            && (n in t.networks ==> t.networks[n].cidr == CidrWritten(steps, n).value)
  {
    if steps == [] {
    } else {
      var init := Init(steps);
      NetworkIsLastWritten(cfg, init, n);
      KeysRun(cfg, init);
      NetworkStep(Run(cfg, init), cfg, Last(steps), n);
    }
  }
}
