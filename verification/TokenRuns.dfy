/** What the token steps keep true of the network stamps, over every run. */
module TokenRuns {
  import opened Targets
  import opened Tables
  import opened AgentTokens
  import opened AgentCommands
  import opened Runs
  import opened Wrappers

  /** Ids are below their counters and UNIQUE(agent_id) holds. */
  ghost predicate Keys(t: Tables) {
    && (forall k :: k in t.tokens ==> k < t.nextToken && t.tokens[k].agent != "")
    && 0 < t.nextNetwork && (forall n :: n in t.networks ==> 0 < n < t.nextNetwork)
    && (forall j, k :: j in t.tokens && k in t.tokens && t.tokens[j].agent == t.tokens[k].agent ==> j == k)
  }

  ghost predicate Backs(t: Tables, k: int, n: int, agent: AgentId) {
    k in t.tokens && t.tokens[k].agent == agent && t.tokens[k].network == Some(n)
  }

  /** Every non-empty stamp has a token of that agent bound to that network, not revoked if `live` is asked. */
  ghost predicate Backed(t: Tables, live: bool) {
    forall n :: n in t.networks && t.networks[n].stamp != "" ==>
      exists k :: Backs(t, k, n, t.networks[n].stamp) && (live ==> !t.tokens[k].revoked)
  }

  /** An agent id stamps at most one network. */
  ghost predicate OneNetwork(t: Tables) {
    forall m, n, a :: a != "" && Stamped(t, m, a) && Stamped(t, n, a) ==> m == n
  }

  /** A removal whose clear fails on a stamp that was its own: the stamp outlives its token, or its live token. */
  predicate Strands(t: Tables, s: Step, live: bool) {
    (s.DeleteToken? || (live && s.RevokeToken?)) && !s.clearOk && OwnStamp(t, s.token)
  }

  /** The token is there and its network carries its agent's stamp. */
  predicate OwnStamp(t: Tables, k: int) {
    k in t.tokens && t.tokens[k].network.Some? && Stamped(t, t.tokens[k].network.value, t.tokens[k].agent)
  }

  predicate RemovalClears(s: Step) { s.DeleteToken? || s.RevokeToken? ==> s.clearOk }
  predicate CreateStamps(s: Step) { s.CreateToken? ==> s.stampOk }

  predicate IsTokenStep(s: Step) { s.CreateToken? || s.RevokeToken? || s.DeleteToken? }

  /** Tokens are as before, and networks too, except that some are gone or new and unstamped. */
  ghost predicate Quiet(t: Tables, u: Tables) {
    && u.tokens == t.tokens && u.nextToken == t.nextToken && t.nextNetwork <= u.nextNetwork
    && forall n :: n in u.networks ==>
         if n in t.networks then u.networks[n].stamp == t.networks[n].stamp
         else t.nextNetwork <= n < u.nextNetwork && u.networks[n].stamp == ""
  }

  lemma OtherStepsAreQuiet(t: Tables, cfg: Config, s: Step)
    requires ValidTables(t) && ValidStep(s) && Keys(t) && !IsTokenStep(s)
    ensures Quiet(t, Apply(t, cfg, s))
  {
    if s.Enqueue? { EnqueueKeepsOthers(t, cfg, s); }
  }

  lemma KeysStep(t: Tables, cfg: Config, s: Step)
    requires ValidTables(t) && ValidStep(s) && Keys(t)
    ensures Keys(Apply(t, cfg, s))
  {
    match s {
      case CreateToken(agent, network, hash, stampOk) => KeysCreate(t, agent, network, hash, stampOk);
      case RevokeToken(_, _) =>
      case DeleteToken(_, _) =>
      case _ => OtherStepsAreQuiet(t, cfg, s);
    }
  }

  lemma KeysCreate(t: Tables, agent: AgentId, network: int, hash: string, stampOk: bool)
    requires Keys(t)
    ensures Keys(CreateTables(t, agent, network, hash, stampOk))
  {
  }

  lemma BackedQuiet(t: Tables, u: Tables, live: bool)
    requires Quiet(t, u) && Backed(t, live)
    ensures Backed(u, live)
  {
    forall n, k | n in t.networks && Backs(t, k, n, t.networks[n].stamp) ensures Backs(u, k, n, t.networks[n].stamp) {
    }
  }

  /** What Create does to the tokens behind the stamps. */
  lemma BackedCreate(t: Tables, agent: AgentId, network: int, hash: string, stampOk: bool, live: bool)
    requires Keys(t) && Backed(t, live)
    ensures Backed(CreateTables(t, agent, network, hash, stampOk), live)
  {
    var u := CreateTables(t, agent, network, hash, stampOk);
    forall n, k | n in t.networks && Backs(t, k, n, t.networks[n].stamp)
      ensures Backs(u, k, n, t.networks[n].stamp) && u.tokens[k] == t.tokens[k]
    {
    }
    if u != t { assert Backs(u, t.nextToken, network, agent); }
  }

  /** Removing token `id` with its clear: a stamp that survives was another token's. */
  lemma ClearSpares(t: Tables, u: Tables, id: int, n: int, k: int)
    requires Keys(t) && id in t.tokens && n in u.networks && u.networks[n].stamp != ""
    requires u.networks == ClearStamp(t, t.tokens[id]).networks
    requires Backs(t, k, n, u.networks[n].stamp)
    ensures k != id
  {
  }

  lemma BackedDelete(t: Tables, id: int, clearOk: bool, live: bool)
    requires Keys(t) && Backed(t, live) && (clearOk || !OwnStamp(t, id))
    ensures Backed(DeleteTables(t, id, clearOk), live)
  {
    var u := DeleteTables(t, id, clearOk);
    if id in t.tokens {
      assert u.networks == ClearStamp(t, t.tokens[id]).networks;
      forall n, k | n in u.networks && u.networks[n].stamp != "" && Backs(t, k, n, u.networks[n].stamp)
        ensures Backs(u, k, n, u.networks[n].stamp) && u.tokens[k] == t.tokens[k]
      {
        ClearSpares(t, u, id, n, k);
      }
      assert forall n :: n in u.networks && u.networks[n].stamp != "" ==> u.networks[n] == t.networks[n];
    }
  }

  lemma BackedRevoke(t: Tables, id: int, clearOk: bool, live: bool)
    requires Keys(t) && Backed(t, live) && (live ==> clearOk || !OwnStamp(t, id))
    ensures Backed(RevokeTables(t, id, clearOk), live)
  {
    var u := RevokeTables(t, id, clearOk);
    if u != t {
      assert live ==> u.networks == ClearStamp(t, t.tokens[id]).networks;
      forall n, k | n in u.networks && u.networks[n].stamp != "" && Backs(t, k, n, u.networks[n].stamp)
        ensures Backs(u, k, n, u.networks[n].stamp) && (live ==> u.tokens[k] == t.tokens[k])
      {
        if live { ClearSpares(t, u, id, n, k); }
      }
      assert forall n :: n in u.networks && u.networks[n].stamp != "" ==> u.networks[n] == t.networks[n];
    }
  }

  lemma BackedKept(t: Tables, cfg: Config, s: Step, live: bool)
    requires ValidTables(t) && ValidStep(s) && Keys(t) && Backed(t, live) && !Strands(t, s, live)
    ensures Backed(Apply(t, cfg, s), live)
  {
    match s {
      case CreateToken(agent, network, hash, stampOk) => BackedCreate(t, agent, network, hash, stampOk, live);
      case RevokeToken(id, clearOk) => BackedRevoke(t, id, clearOk, live);
      case DeleteToken(id, clearOk) => BackedDelete(t, id, clearOk, live);
      case _ =>
        OtherStepsAreQuiet(t, cfg, s);
        BackedQuiet(t, Apply(t, cfg, s), live);
    }
  }

  /** A stranded stamp has no such token: the removed one was the only token of its agent. */
  lemma StrandedIsUnbacked(t: Tables, cfg: Config, s: Step, live: bool)
    requires ValidTables(t) && ValidStep(s) && Keys(t) && Strands(t, s, live)
    ensures !Backed(Apply(t, cfg, s), live)
  {
    var tok, u := t.tokens[s.token], Apply(t, cfg, s);
    var n := tok.network.value;
    forall k ensures !(Backs(u, k, n, tok.agent) && (live ==> !u.tokens[k].revoked)) {
    }
    assert n in u.networks && u.networks[n].stamp == tok.agent != "";
  }

  /** A step leaves every stamp with its token exactly when it does not strand one. */
  lemma BackedStep(t: Tables, cfg: Config, s: Step, live: bool)
    requires ValidTables(t) && ValidStep(s) && Keys(t) && Backed(t, live)
    ensures Backed(Apply(t, cfg, s), live) <==> !Strands(t, s, live)
  {
    if Strands(t, s, live) { StrandedIsUnbacked(t, cfg, s, live); } else { BackedKept(t, cfg, s, live); }
  }

  lemma {:induction false} KeysRun(cfg: Config, steps: seq<Step>)
    requires ValidRun(steps)
    ensures Keys(Run(cfg, steps))
  {
    if steps == [] {
    } else {
      KeysRun(cfg, Init(steps));
      KeysStep(Run(cfg, Init(steps)), cfg, Last(steps));
    }
  }

  /** From step number `from` on, no step of the run strands a stamp. */
  ghost predicate Strandless(cfg: Config, steps: seq<Step>, from: nat, live: bool)
    requires ValidRun(steps)
  {
    |steps| <= from ||
    (Strandless(cfg, Init(steps), from, live) && !Strands(Run(cfg, Init(steps)), Last(steps), live))
  }

  lemma {:induction false} StrandlessPrefix(cfg: Config, steps: seq<Step>, i: nat, live: bool)
    requires ValidRun(steps) && i <= |steps| && Strandless(cfg, steps, 0, live)
    ensures Strandless(cfg, steps[..i], 0, live)
    decreases |steps|
  {
    if i == |steps| {
      assert steps[..i] == steps;
    } else {
      assert Init(steps)[..i] == steps[..i];
      StrandlessPrefix(cfg, Init(steps), i, live);
    }
  }

  /** A run that is not strandless has a step that strands. */
  lemma {:induction false} StrandingStep(cfg: Config, steps: seq<Step>, live: bool) returns (i: nat)
    requires ValidRun(steps) && !Strandless(cfg, steps, 0, live)
    ensures i < |steps| && Strands(Run(cfg, steps[..i]), steps[i], live)
  {
    var init := Init(steps);
    if Strands(Run(cfg, init), Last(steps), live) {
      i := |init|;
      assert steps[..i] == init;
    } else {
      i := StrandingStep(cfg, init, live);
      assert steps[..i] == init[..i];
    }
  }

  lemma RunSnoc(cfg: Config, steps: seq<Step>, s: Step)
    requires ValidRun(steps) && ValidStep(s)
    ensures ValidRun(steps + [s]) && Run(cfg, steps + [s]) == Apply(Run(cfg, steps), cfg, s)
  {
    assert Init(steps + [s]) == steps;
  }

  /** While nothing is stranded, stamps stay backed. */
  lemma {:induction false} BackedContinues(cfg: Config, steps: seq<Step>, more: seq<Step>, live: bool)
    requires ValidRun(steps) && ValidRun(more)
    requires Backed(Run(cfg, steps), live) && Strandless(cfg, steps + more, |steps|, live)
    ensures Backed(Run(cfg, steps + more), live)
    decreases |more|
  {
    var all := steps + more;
    if more == [] {
      assert all == steps;
    } else {
      assert Init(all) == steps + Init(more);
      BackedContinues(cfg, steps, Init(more), live);
      KeysRun(cfg, Init(all));
      BackedStep(Run(cfg, Init(all)), cfg, Last(all), live);
    }
  }

  lemma StrandlessIsBacked(cfg: Config, steps: seq<Step>, live: bool)
    requires ValidRun(steps) && Strandless(cfg, steps, 0, live)
    ensures Backed(Run(cfg, steps), live)
  {
    assert [] + steps == steps;
    BackedContinues(cfg, [], steps, live);
  }

  /** Every stamp has its token (its live token), at every moment of the run, iff no step strands a stamp. */
  lemma StampsAreBacked(cfg: Config, steps: seq<Step>, live: bool)
    requires ValidRun(steps)
    ensures Strandless(cfg, steps, 0, live) <==> forall i :: 0 <= i <= |steps| ==> Backed(Run(cfg, steps[..i]), live)
  {
    if Strandless(cfg, steps, 0, live) {
      forall i | 0 <= i <= |steps| ensures Backed(Run(cfg, steps[..i]), live) {
        StrandlessPrefix(cfg, steps, i, live);
        StrandlessIsBacked(cfg, steps[..i], live);
      }
    } else {
      var i := StrandingStep(cfg, steps, live);
      StrandBreaks(cfg, steps, i, live);
    }
  }

  lemma StrandBreaks(cfg: Config, steps: seq<Step>, i: nat, live: bool)
    requires ValidRun(steps) && i < |steps| && Strands(Run(cfg, steps[..i]), steps[i], live)
    ensures !Backed(Run(cfg, steps[..i + 1]), live)
  {
    assert steps[..i + 1] == steps[..i] + [steps[i]];
    KeysRun(cfg, steps[..i]);
    RunSnoc(cfg, steps[..i], steps[i]);
    StrandedIsUnbacked(Run(cfg, steps[..i]), cfg, steps[i], live);
  }

  /**
   Over every run that strands no stamp, each stamp is backed by a token bound to that very
   network, so an agent id never stamps two networks.
   */
  lemma StampsAreUnambiguous(cfg: Config, steps: seq<Step>)
    requires ValidRun(steps) && Strandless(cfg, steps, 0, false)
    ensures Backed(Run(cfg, steps), false) && OneNetwork(Run(cfg, steps))
  {
    StrandlessIsBacked(cfg, steps, false);
    KeysRun(cfg, steps);
    BackedIsOneNetwork(Run(cfg, steps));
  }

  lemma BackedIsOneNetwork(t: Tables)
    requires Keys(t) && Backed(t, false)
    ensures OneNetwork(t)
  {
    forall m, n, a | a != "" && Stamped(t, m, a) && Stamped(t, n, a) ensures m == n {
      var j :| Backs(t, j, m, a);
      var k :| Backs(t, k, n, a);
    }
  }

  /** Removing a token touches no stamp but its own agent's. */
  lemma RemovalSparesOthers(t: Tables, cfg: Config, s: Step, n: int)
    requires ValidTables(t) && ValidStep(s) && (s.RevokeToken? || s.DeleteToken?)
    requires n in t.networks
    ensures var t' := Apply(t, cfg, s);
            && n in t'.networks
            && (t'.networks[n] == t.networks[n] ||
                (s.token in t.tokens && t.networks[n].stamp == t.tokens[s.token].agent && t'.networks[n].stamp == ""))
  {
  }

  // ---------------------------------------------------------------- when an agent can end up on two networks

  /** Every stamp write and every clear of the run holds. */
  ghost predicate Faultless(steps: seq<Step>) {
    forall s :: s in steps ==> CreateStamps(s) && RemovalClears(s)
  }

  lemma {:induction false} FaultlessIsStrandless(cfg: Config, steps: seq<Step>, more: seq<Step>)
    requires ValidRun(steps) && ValidRun(more) && Faultless(more)
    ensures Strandless(cfg, steps + more, |steps|, false)
    decreases |more|
  {
    if more == [] {
    } else {
      var init, s := steps + Init(more), Last(more);
      FaultlessIsStrandless(cfg, steps, Init(more));
      assert CreateStamps(s) && RemovalClears(s);
      assert steps + more == init + [s];
      StrandlessSnoc(cfg, init, s, |steps|);
    }
  }

  lemma StrandlessSnoc(cfg: Config, steps: seq<Step>, s: Step, from: nat)
    requires ValidRun(steps) && ValidStep(s) && Strandless(cfg, steps, from, false) && !Strands(Run(cfg, steps), s, false)
    ensures ValidRun(steps + [s]) && Strandless(cfg, steps + [s], from, false)
  {
    assert Init(steps + [s]) == steps;
  }

  /** Some hash is not in use. */
  lemma {:induction false} FreshHash(tokens: map<int, Token>, ks: set<int>) returns (hash: string)
    requires ks <= tokens.Keys
    ensures forall k :: k in ks ==> |tokens[k].hash| < |hash|
    decreases ks
  {
    if k :| k in ks {
      var h := FreshHash(tokens, ks - {k});
      hash := h + tokens[k].hash + "0";
    } else {
      hash := "0";
    }
  }

  ghost predicate Tokenless(t: Tables, a: AgentId) { forall k :: k in t.tokens ==> t.tokens[k].agent != a }

  /** An unbacked stamp stays when the agent's token, if it has one, is deleted in good order. */
  lemma DeleteSparesUnbacked(t: Tables, n: int, k: int)
    requires Keys(t) && n in t.networks && k in t.tokens
    requires t.tokens[k].agent == t.networks[n].stamp && !Backs(t, k, n, t.networks[n].stamp)
    ensures var a, u := t.networks[n].stamp, DeleteTables(t, k, true);
            Stamped(u, n, a) && Tokenless(u, a)
  {
  }

  lemma RetireAgent(cfg: Config, steps: seq<Step>, n: int, a: AgentId) returns (more: seq<Step>)
    requires ValidRun(steps) && Stamped(Run(cfg, steps), n, a)
    requires forall k :: !Backs(Run(cfg, steps), k, n, a)
    ensures ValidRun(more) && Faultless(more)
    ensures Stamped(Run(cfg, steps + more), n, a) && Tokenless(Run(cfg, steps + more), a)
  {
    var t := Run(cfg, steps);
    KeysRun(cfg, steps);
    if k :| k in t.tokens && t.tokens[k].agent == a {
      more := [DeleteToken(k, true)];
      RunSnoc(cfg, steps, DeleteToken(k, true));
      DeleteSparesUnbacked(t, n, k);
    } else {
      more := [];
      assert steps + more == steps;
    }
  }

  /** An agent that has a stamp and no token gets a second network by being created for a new one. */
  lemma SecondNetwork(t: Tables, cfg: Config, n: int, a: AgentId, hash: string)
    requires ValidTables(t) && Keys(t) && a != "" && Stamped(t, n, a) && Tokenless(t, a)
    requires forall k :: k in t.tokens ==> t.tokens[k].hash != hash
    ensures var u := Apply(t, cfg, NewNetwork(NoCidr));
            !OneNetwork(Apply(u, cfg, CreateToken(a, t.nextNetwork, hash, true)))
  {
    var m := t.nextNetwork;
    var u := Apply(t, cfg, NewNetwork(NoCidr));
    assert m != n && m in u.networks && !Taken(u, a, hash);
    var v := Apply(u, cfg, CreateToken(a, m, hash, true));
    assert Stamped(v, n, a) && Stamped(v, m, a);
  }

  lemma Regroup(a: seq<Step>, b: seq<Step>, c: seq<Step>)
    ensures a + b + c == a + (b + c)
  {
  }

  lemma UnbackedStamp(t: Tables) returns (n: int, a: AgentId)
    requires !Backed(t, false)
    ensures a != "" && Stamped(t, n, a) && forall k :: !Backs(t, k, n, a)
  {
    n :| n in t.networks && t.networks[n].stamp != "" && forall k :: !Backs(t, k, n, t.networks[n].stamp);
    a := t.networks[n].stamp;
  }

  /**
   A stamp without a token is ambiguity waiting to happen: delete the agent's token if it has one,
   add a network, create the agent there. No fault is needed.
   */
  lemma UnbackedBecomesAmbiguous(cfg: Config, steps: seq<Step>) returns (more: seq<Step>)
    requires ValidRun(steps) && !Backed(Run(cfg, steps), false)
    ensures ValidRun(more) && Faultless(more) && !OneNetwork(Run(cfg, steps + more))
  {
    var n, a := UnbackedStamp(Run(cfg, steps));
    var retire := RetireAgent(cfg, steps, n, a);
    var rest := MintElsewhere(cfg, steps + retire, n, a);
    more := retire + rest;
    Regroup(steps, retire, rest);
  }

  lemma MintElsewhere(cfg: Config, steps: seq<Step>, n: int, a: AgentId) returns (more: seq<Step>)
    requires ValidRun(steps) && a != "" && Stamped(Run(cfg, steps), n, a) && Tokenless(Run(cfg, steps), a)
    ensures ValidRun(more) && Faultless(more) && !OneNetwork(Run(cfg, steps + more))
  {
    var t := Run(cfg, steps);
    KeysRun(cfg, steps);
    var hash := FreshHash(t.tokens, t.tokens.Keys);
    forall k | k in t.tokens ensures t.tokens[k].hash != hash {
      assert k in t.tokens.Keys && |t.tokens[k].hash| < |hash|;
    }
    var add, mint := NewNetwork(NoCidr), CreateToken(a, t.nextNetwork, hash, true);
    SecondNetwork(t, cfg, n, a, hash);
    RunSnoc(cfg, steps, add);
    RunSnoc(cfg, steps + [add], mint);
    more := [add, mint];
    assert steps + [add] + [mint] == steps + more;
  }

  /** However the run goes on, as long as it strands nothing, no agent is ever on two networks. */
  ghost predicate StaysUnambiguous(cfg: Config, steps: seq<Step>)
    requires ValidRun(steps)
  {
    forall more :: ValidRun(more) && Strandless(cfg, steps + more, |steps|, false) ==> OneNetwork(Run(cfg, steps + more))
  }

  /** The stamps of a state stay unambiguous exactly when each has its token. */
  lemma AmbiguityExactly(cfg: Config, steps: seq<Step>)
    requires ValidRun(steps)
    ensures StaysUnambiguous(cfg, steps) <==> Backed(Run(cfg, steps), false)
  {
    if Backed(Run(cfg, steps), false) {
      forall more | ValidRun(more) && Strandless(cfg, steps + more, |steps|, false)
        ensures OneNetwork(Run(cfg, steps + more))
      {
        BackedContinues(cfg, steps, more, false);
        KeysRun(cfg, steps + more);
        BackedIsOneNetwork(Run(cfg, steps + more));
      }
    } else {
      var more := UnbackedBecomesAmbiguous(cfg, steps);
      FaultlessIsStrandless(cfg, steps, more);
    }
  }

  /**
   So an agent id maps to at most one network, at every moment of a run and however it goes on
   from there, exactly when no step of the run strands a stamp.
   */
  lemma StrandingExactly(cfg: Config, steps: seq<Step>)
    requires ValidRun(steps)
    ensures Strandless(cfg, steps, 0, false) <==> forall i :: 0 <= i <= |steps| ==> StaysUnambiguous(cfg, steps[..i])
  {
    StampsAreBacked(cfg, steps, false);
    forall i | 0 <= i <= |steps| ensures StaysUnambiguous(cfg, steps[..i]) <==> Backed(Run(cfg, steps[..i]), false) {
      AmbiguityExactly(cfg, steps[..i]);
    }
  }

  /** Wherever a delete strands a stamp, the run can go on without a fault to two networks for one agent. */
  lemma FailedClearIsAmbiguous(cfg: Config, steps: seq<Step>, s: Step) returns (more: seq<Step>)
    requires ValidRun(steps) && ValidStep(s) && Strands(Run(cfg, steps), s, false)
    ensures ValidRun(steps + [s] + more) && Faultless(more) && !OneNetwork(Run(cfg, steps + [s] + more))
  {
    KeysRun(cfg, steps);
    RunSnoc(cfg, steps, s);
    StrandedIsUnbacked(Run(cfg, steps), cfg, s, false);
    more := UnbackedBecomesAmbiguous(cfg, steps + [s]);
  }

  /** Three calls are enough: a network, a token for it, and a delete whose clear fails. */
  const STRANDING_RUN: seq<Step> := [NewNetwork(NoCidr), CreateToken("a", 1, "h", true), DeleteToken(1, false)]

  lemma StampedByTwoCalls(cfg: Config)
    ensures ValidRun(STRANDING_RUN[..2])
    ensures Strands(Run(cfg, STRANDING_RUN[..2]), STRANDING_RUN[2], false)
  {
    var add, mint := STRANDING_RUN[0], STRANDING_RUN[1];
    RunSnoc(cfg, [], add);
    RunSnoc(cfg, [add], mint);
    assert [] + [add] == [add] && [add] + [mint] == STRANDING_RUN[..2];
    assert Run(cfg, []) == EMPTY;
    assert Creates(Run(cfg, [add]), "a", 1, "h");
  }

  /** Stranding does happen: from the empty store, this run strands and goes on to two networks for one agent. */
  lemma StrandingIsReachable(cfg: Config) returns (more: seq<Step>)
    ensures ValidRun(STRANDING_RUN) && !Strandless(cfg, STRANDING_RUN, 0, false)
    ensures ValidRun(STRANDING_RUN + more) && Faultless(more) && !OneNetwork(Run(cfg, STRANDING_RUN + more))
  {
    StampedByTwoCalls(cfg);
    assert Init(STRANDING_RUN) == STRANDING_RUN[..2];
    assert STRANDING_RUN[..2] + [STRANDING_RUN[2]] == STRANDING_RUN;
    more := FailedClearIsAmbiguous(cfg, STRANDING_RUN[..2], STRANDING_RUN[2]);
  }

  // ---------------------------------------------------------------- whose stamp it is

  /** The token most recently created for network `n` in the run. */
  function Newest(cfg: Config, steps: seq<Step>, n: int): Option<int>
    requires ValidRun(steps)
  {
    if steps == [] then None
    else NewestAfter(Run(cfg, Init(steps)), Last(steps), n, Newest(cfg, Init(steps), n))
  }

  predicate IsLive(t: Tables, k: Option<int>) {
    k.Some? && k.value in t.tokens && !t.tokens[k.value].revoked
  }

  /** The stamp the newest token accounts for. */
  function StampFor(t: Tables, k: Option<int>): AgentId {
    if IsLive(t, k) then t.tokens[k.value].agent else ""
  }

  /** How the newest token of `n` fares in one step. */
  function NewestAfter(t: Tables, s: Step, n: int, k: Option<int>): Option<int> {
    if s.CreateToken? && s.network == n && Creates(t, s.agent, s.network, s.hash) then Some(t.nextToken) else k
  }

  /** The token is below the counter and, while it exists, bound to `n`. */
  ghost predicate BelongsTo(t: Tables, k: Option<int>, n: int) {
    k.Some? ==> k.value < t.nextToken && n < t.nextNetwork
                && (k.value in t.tokens ==> t.tokens[k.value].network == Some(n))
  }

  lemma BoundStep(t: Tables, cfg: Config, s: Step, n: int, k: Option<int>)
    requires ValidTables(t) && ValidStep(s) && Keys(t) && BelongsTo(t, k, n)
    ensures BelongsTo(Apply(t, cfg, s), NewestAfter(t, s, n, k), n)
  {
    if !IsTokenStep(s) { OtherStepsAreQuiet(t, cfg, s); }
  }

  lemma StampStep(t: Tables, cfg: Config, s: Step, n: int, k: Option<int>)
    requires ValidTables(t) && ValidStep(s) && Keys(t) && CreateStamps(s) && RemovalClears(s) && BelongsTo(t, k, n)
    requires n in t.networks ==> t.networks[n].stamp == StampFor(t, k)
    ensures var u := Apply(t, cfg, s);
            n in u.networks ==> u.networks[n].stamp == StampFor(u, NewestAfter(t, s, n, k))
  {
    if !IsTokenStep(s) { OtherStepsAreQuiet(t, cfg, s); }
  }

  lemma {:induction false} NewestIsBound(cfg: Config, steps: seq<Step>, n: int)
    requires ValidRun(steps)
    ensures BelongsTo(Run(cfg, steps), Newest(cfg, steps, n), n)
  {
    if steps == [] {
    } else {
      NewestIsBound(cfg, Init(steps), n);
      KeysRun(cfg, Init(steps));
      BoundStep(Run(cfg, Init(steps)), cfg, Last(steps), n, Newest(cfg, Init(steps), n));
    }
  }

  /**
   With every stamp write succeeding, a network's stamp is exactly the agent of the token most
   recently created for it while that token is live, and empty otherwise. In particular an
   older token that is still live does not get the stamp back when a newer one is removed.
   */
  lemma {:induction false} StampIsNewestToken(cfg: Config, steps: seq<Step>, n: int)
    requires ValidRun(steps) && forall s :: s in steps ==> CreateStamps(s) && RemovalClears(s)
    ensures var t := Run(cfg, steps);
            n in t.networks ==> t.networks[n].stamp == StampFor(t, Newest(cfg, steps, n))
  {
    if steps == [] {
    } else {
      StampIsNewestToken(cfg, Init(steps), n);
      NewestIsBound(cfg, Init(steps), n);
      KeysRun(cfg, Init(steps));
      StampStep(Run(cfg, Init(steps)), cfg, Last(steps), n, Newest(cfg, Init(steps), n));
    }
  }

  /** A live token's agent is the one on its network exactly when no newer token was created for it. */
  lemma LiveTokenIsStamped(cfg: Config, steps: seq<Step>, k: int, n: int)
    requires ValidRun(steps) && forall s :: s in steps ==> CreateStamps(s) && RemovalClears(s)
    requires var t := Run(cfg, steps);
             n in t.networks && k in t.tokens && !t.tokens[k].revoked && t.tokens[k].network == Some(n)
    ensures Stamped(Run(cfg, steps), n, Run(cfg, steps).tokens[k].agent) <==> Newest(cfg, steps, n) == Some(k)
  {
    StampIsNewestToken(cfg, steps, n);
    KeysRun(cfg, steps);
    StampNamesToken(Run(cfg, steps), Newest(cfg, steps, n), k, n);
  }

  lemma StampNamesToken(t: Tables, newest: Option<int>, k: int, n: int)
    requires Keys(t) && n in t.networks && t.networks[n].stamp == StampFor(t, newest)
    requires k in t.tokens && !t.tokens[k].revoked
    ensures Stamped(t, n, t.tokens[k].agent) <==> newest == Some(k)
  {
    if Stamped(t, n, t.tokens[k].agent) {
      assert StampFor(t, newest) == t.tokens[k].agent != "";
      var j := newest.value;
      assert t.tokens[j].agent == t.tokens[k].agent;
      assert j == k;
    }
  }
}
