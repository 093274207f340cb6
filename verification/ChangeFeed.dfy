/** Recorder and watcher together: what a subscriber sees of the change log, over every run. */
module ChangeFeed {
  import opened Sequences
  import R = Recorder
  import W = Watcher

  /** A call of Record, or a subscriber coming, going or taking a row. */
  datatype Act = Record(call: R.Call) | Subscribe | Unsubscribe(c: nat) | Receive(c: nat)

  type WatcherStep = W.Step<R.LogRow>

  /** The recorder after the calls of a run. */
  function Recorded(cooldown: R.Time, acts: seq<Act>): R.Rec {
    if acts == [] then R.Rec(map[], [])
    else
      var before, a := Recorded(cooldown, acts[..|acts| - 1]), acts[|acts| - 1];
      if a.Record? then R.RecordCall(before, cooldown, a.call) else before
  }

  /** The row an act adds to the log, if it adds one. */
  function NewRows(rec: R.Rec, cooldown: R.Time, a: Act): seq<R.LogRow> {
    if a.Record? && R.Logs(rec, cooldown, a.call) then [R.RowOf(a.call.ev, a.call.write)] else []
  }

  /** What one act does to the watcher: a logged call pushes its row. */
  function StepsOf(rec: R.Rec, cooldown: R.Time, a: Act): seq<WatcherStep> {
    match a
    case Record(_) => if NewRows(rec, cooldown, a) == [] then [] else [W.Push(NewRows(rec, cooldown, a)[0])]
    case Subscribe => [W.Subscribe]
    case Unsubscribe(c) => [W.Unsubscribe(c)]
    case Receive(c) => [W.Receive(c)]
  }

  function Steps(cooldown: R.Time, acts: seq<Act>): seq<WatcherStep> {
    if acts == [] then []
    else
      var init := acts[..|acts| - 1];
      Steps(cooldown, init) + StepsOf(Recorded(cooldown, init), cooldown, acts[|acts| - 1])
  }

  function Channels(cooldown: R.Time, acts: seq<Act>): (w: W.State<R.LogRow>)
    ensures W.Valid(w)
  {
    W.Run(Steps(cooldown, acts))
  }

  function Log(cooldown: R.Time, acts: seq<Act>): seq<R.LogRow> { Recorded(cooldown, acts).log }

  /** The log rows written since channel `c` was subscribed. */
  function Since(cooldown: R.Time, acts: seq<Act>, c: nat): seq<R.LogRow> {
    if acts == [] then []
    else
      var init, a := acts[..|acts| - 1], acts[|acts| - 1];
      if c >= |Channels(cooldown, init).chans| then []
      else Since(cooldown, init, c) + NewRows(Recorded(cooldown, init), cooldown, a)
  }

  ghost predicate Suffix(a: seq<R.LogRow>, b: seq<R.LogRow>) { |a| <= |b| && b[|b| - |a|..] == a }

  lemma SuffixGrows(a: seq<R.LogRow>, b: seq<R.LogRow>, more: seq<R.LogRow>)
    requires Suffix(a, b)
    ensures Suffix(a + more, b + more) && Suffix([], b + more)
  {
    assert b == b[..|b| - |a|] + a;
    assert b + more == b[..|b| - |a|] + (a + more);
  }

  /** They are the end of the log. */
  lemma {:induction false} SinceIsSuffix(cooldown: R.Time, acts: seq<Act>, c: nat)
    ensures Suffix(Since(cooldown, acts, c), Log(cooldown, acts))
  {
    if acts == [] {
    } else {
      var init, a := acts[..|acts| - 1], acts[|acts| - 1];
      var rows := NewRows(Recorded(cooldown, init), cooldown, a);
      SinceIsSuffix(cooldown, init, c);
      SuffixGrows(Since(cooldown, init, c), Log(cooldown, init), rows);
      assert Log(cooldown, acts) == Log(cooldown, init) + rows;
    }
  }

  lemma SnocRun(steps: seq<WatcherStep>, s: WatcherStep, c: nat)
    ensures W.Run(steps + [s]) == W.Apply(W.Run(steps), s)
    ensures W.Offered(steps + [s], c) ==
            W.Offered(steps, c) + if s.Push? && c in W.Run(steps).subs then [s.row] else []
  {
    assert (steps + [s])[..|steps|] == steps;
  }

  /** Only Subscribe adds a subscriber, under a new name. */
  lemma StepSubs(w: W.State<R.LogRow>, s: WatcherStep, c: nat)
    requires W.Valid(w)
    ensures |w.chans| <= |W.Apply(w, s).chans|
    ensures c in W.Apply(w, s).subs ==> c in w.subs || c >= |w.chans|
  {
  }

  /** The rows a watcher step offers to channel `c`. */
  function OfferedBy(w: W.State<R.LogRow>, more: seq<WatcherStep>, c: nat): seq<R.LogRow> {
    if more != [] && more[0].Push? && c in w.subs then [more[0].row] else []
  }

  lemma MoreOffers(steps: seq<WatcherStep>, more: seq<WatcherStep>, c: nat)
    requires |more| <= 1
    ensures W.Offered(steps + more, c) == W.Offered(steps, c) + OfferedBy(W.Run(steps), more, c)
    ensures |W.Run(steps).chans| <= |W.Run(steps + more).chans|
    ensures c in W.Run(steps + more).subs ==> c in W.Run(steps).subs || c >= |W.Run(steps).chans|
  {
    if more == [] {
      assert steps + more == steps;
    } else {
      assert more == [more[0]];
      SnocRun(steps, more[0], c);
      StepSubs(W.Run(steps), more[0], c);
    }
  }

  lemma RowsAreOffered(rec: R.Rec, cooldown: R.Time, a: Act, w: W.State<R.LogRow>, c: nat)
    ensures OfferedBy(w, StepsOf(rec, cooldown, a), c) == if c in w.subs then NewRows(rec, cooldown, a) else []
  {
  }

  /** The offers are the first of the rows since, all of them while the channel is subscribed. */
  ghost predicate Tracks(offered: seq<R.LogRow>, since: seq<R.LogRow>, w: W.State<R.LogRow>, c: nat) {
    && offered <= since
    && (c in w.subs ==> offered == since)
    && (c >= |w.chans| ==> since == [])
  }

  /** Offers keep up with the rows while the channel is subscribed, and fall behind after. */
  lemma TracksStep(offered: seq<R.LogRow>, since: seq<R.LogRow>, w: W.State<R.LogRow>, u: W.State<R.LogRow>,
                   rows: seq<R.LogRow>, c: nat)
    requires W.Valid(w) && Tracks(offered, since, w, c)
    requires |w.chans| <= |u.chans| && (c in u.subs ==> c in w.subs || c >= |w.chans|)
    ensures Tracks(offered + (if c in w.subs then rows else []), if c >= |w.chans| then [] else since + rows, u, c)
  {
    if c in w.subs {
    } else {
      assert offered + [] == offered;
    }
  }

  /** What is offered to a channel is what was logged since it was subscribed, up to its leaving. */
  lemma {:induction false} OffersAreLogged(cooldown: R.Time, acts: seq<Act>, c: nat)
    ensures Tracks(W.Offered(Steps(cooldown, acts), c), Since(cooldown, acts, c), Channels(cooldown, acts), c)
  {
    if acts == [] {
    } else {
      var init, a := acts[..|acts| - 1], acts[|acts| - 1];
      var rec, w, steps := Recorded(cooldown, init), Channels(cooldown, init), Steps(cooldown, init);
      OffersAreLogged(cooldown, init, c);
      MoreOffers(steps, StepsOf(rec, cooldown, a), c);
      RowsAreOffered(rec, cooldown, a, w, c);
      TracksStep(W.Offered(steps, c), Since(cooldown, init, c), w, Channels(cooldown, acts), NewRows(rec, cooldown, a), c);
    }
  }

  /**
   Over every run, what a subscriber took plus what waits for it is an in-order subsequence of the
   log rows since it subscribed; and while it is subscribed it is exactly those rows iff none was
   dropped against its full buffer.
   */
  lemma SubscriberSeesTheLog(cooldown: R.Time, acts: seq<Act>, c: nat)
    ensures var steps, since := Steps(cooldown, acts), Since(cooldown, acts, c);
            && Suffix(since, Log(cooldown, acts))
            && Subseq(W.Kept(steps, c), since)
            && (c in W.Run(steps).subs ==> (W.Kept(steps, c) == since <==> W.Dropped(steps, c) == []))
  {
    var steps := Steps(cooldown, acts);
    SinceIsSuffix(cooldown, acts, c);
    OffersAreLogged(cooldown, acts, c);
    W.FanOutConserves(steps, c);
    W.LosslessExactly(steps, c);
    SubseqPrefix(W.Kept(steps, c), W.Offered(steps, c), Since(cooldown, acts, c));
  }

  lemma {:induction false} SubseqPrefix(a: seq<R.LogRow>, b: seq<R.LogRow>, whole: seq<R.LogRow>)
    requires Subseq(a, b) && b <= whole
    ensures Subseq(a, whole)
    decreases |whole|
  {
    if b == whole {
    } else {
      var init, last := whole[..|whole| - 1], whole[|whole| - 1];
      SubseqPrefix(a, b, init);
      SubseqExtend(a, init, last);
      assert whole == init + [last];
    }
  }
}
