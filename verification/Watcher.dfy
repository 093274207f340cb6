/** The in-process fan-out of change rows to bounded subscriber channels. */
module Watcher {
  import opened Sequences
  import opened Wrappers

  const CAPACITY: nat := 64

  /** A buffered channel; a closed one can still be drained. */
  datatype Chan<Row> = Chan(buf: seq<Row>, closed: bool)

  /** Channels are named by the order of their creation. `subs` are the subscribers. */
  datatype State<Row> = State(subs: set<nat>, chans: seq<Chan<Row>>)

  /** A subscriber is exactly an open channel, and no buffer is over capacity. */
  ghost predicate Valid<Row>(w: State<Row>) {
    && (forall c :: c in w.subs ==> c < |w.chans|)
    && (forall c :: 0 <= c < |w.chans| ==> (w.chans[c].closed <==> c !in w.subs))
    && (forall c :: 0 <= c < |w.chans| ==> |w.chans[c].buf| <= CAPACITY)
  }

  /** A non-blocking send: dropped against a full buffer. */
  function Offer<Row>(ch: Chan<Row>, row: Row): Chan<Row> {
    if |ch.buf| < CAPACITY then ch.(buf := ch.buf + [row]) else ch
  }

  function SubscribeState<Row>(w: State<Row>): State<Row> {
    State(w.subs + {|w.chans|}, w.chans + [Chan([], false)])
  }

  function UnsubscribeState<Row>(w: State<Row>, c: nat): State<Row>
    requires c in w.subs ==> c < |w.chans|
  {
    if c in w.subs then State(w.subs - {c}, w.chans[c := w.chans[c].(closed := true)]) else w
  }

  function PushState<Row>(w: State<Row>, row: Row): (w': State<Row>)
    ensures |w'.chans| == |w.chans|
    ensures forall c :: 0 <= c < |w.chans| ==>
              w'.chans[c] == if c in w.subs then Offer(w.chans[c], row) else w.chans[c]
  {
    w.(chans := seq(|w.chans|, c requires 0 <= c < |w.chans| =>
                               if c in w.subs then Offer(w.chans[c], row) else w.chans[c]))
  }

  function ReceiveState<Row>(w: State<Row>, c: nat): State<Row> {
    if c < |w.chans| && w.chans[c].buf != []
    then w.(chans := w.chans[c := w.chans[c].(buf := w.chans[c].buf[1..])])
    else w
  }

  class Watcher<Row(!new)> {
    var subscribers: set<nat>
    var chans: seq<Chan<Row>>

    constructor ()
      ensures View() == State({}, []) && Valid(View())
    {
      subscribers, chans := {}, [];
    }

    function View(): State<Row>
      reads this
    {
      State(subscribers, chans)
    }

    method Subscribe() returns (c: nat)
      requires Valid(View())
      modifies this
      ensures Valid(View()) && View() == SubscribeState(old(View())) && c == |old(chans)|
    {
      c := |chans|;
      chans := chans + [Chan([], false)];
      subscribers := subscribers + {c};
    }

    /** Look for the channel among the subscribers; close it once it is found. */
    method Unsubscribe(c: nat)
      requires Valid(View())
      modifies this
      ensures Valid(View()) && View() == UnsubscribeState(old(View()), c)
    {
      var todo := subscribers;
      while todo != {}
        invariant todo <= subscribers == old(subscribers) && chans == old(chans)
        invariant c in subscribers ==> c in todo
        decreases todo
      {
        var sub :| sub in todo;
        if sub == c {
          subscribers := subscribers - {sub};
          Close(sub);
          return;
        }
        todo := todo - {sub};
      }
    }

    /** Closing a closed channel would panic. */
    method Close(c: nat)
      requires c < |chans| && !chans[c].closed
      modifies this`chans
      ensures chans == old(chans)[c := old(chans)[c].(closed := true)]
    {
      chans := chans[c := chans[c].(closed := true)];
    }

    /** A send on a closed channel would panic; on a full one the select takes its default branch. */
    method TrySend(c: nat, row: Row)
      requires c < |chans| && !chans[c].closed
      modifies this`chans
      ensures chans == old(chans)[c := Offer(old(chans)[c], row)]
    {
      if |chans[c].buf| < CAPACITY {
        chans := chans[c := chans[c].(buf := chans[c].buf + [row])];
      }
    }

    /** Fan one row out to all subscribers, in whatever order the map yields them. */
    method Push(row: Row)
      requires Valid(View())
      modifies this
      ensures Valid(View()) && View() == PushState(old(View()), row)
    {
      var todo := subscribers;
      while todo != {}
        invariant todo <= subscribers == old(subscribers) && |chans| == |old(chans)|
        invariant forall c :: 0 <= c < |chans| ==>
                    chans[c] == if c in subscribers && c !in todo then Offer(old(chans)[c], row) else old(chans)[c]
        decreases todo
      {
        var c :| c in todo;
        TrySend(c, row);
        todo := todo - {c};
      }
      assert chans == PushState(old(View()), row).chans;
    }

    method Receive(c: nat) returns (row: Option<Row>)
      requires Valid(View())
      modifies this
      ensures Valid(View()) && View() == ReceiveState(old(View()), c)
      ensures row == if c < |old(chans)| && old(chans)[c].buf != [] then Some(old(chans)[c].buf[0]) else None
    {
      row := None;
      if c < |chans| && chans[c].buf != [] {
        row := Some(chans[c].buf[0]);
        chans := chans[c := chans[c].(buf := chans[c].buf[1..])];
      }
    }
  }

  // ---------------------------------------------------------------- runs

  datatype Step<Row> = Subscribe | Unsubscribe(c: nat) | Push(row: Row) | Receive(c: nat)

  function Apply<Row>(w: State<Row>, s: Step<Row>): State<Row>
    requires forall c :: c in w.subs ==> c < |w.chans|
  {
    match s
    case Subscribe => SubscribeState(w)
    case Unsubscribe(c) => UnsubscribeState(w, c)
    case Push(row) => PushState(w, row)
    case Receive(c) => ReceiveState(w, c)
  }

  lemma ValidStep<Row>(w: State<Row>, s: Step<Row>)
    requires Valid(w)
    ensures Valid(Apply(w, s))
  {
  }

  function Run<Row>(steps: seq<Step<Row>>): (w: State<Row>)
    ensures Valid(w)
  {
    if steps == [] then State({}, [])
    else
      var before := Run(steps[..|steps| - 1]);
      ValidStep(before, steps[|steps| - 1]);
      Apply(before, steps[|steps| - 1])
  }

  /** The rows pushed while channel `c` was subscribed. */
  function Offered<Row>(steps: seq<Step<Row>>, c: nat): seq<Row> {
    if steps == [] then []
    else
      var init, s := steps[..|steps| - 1], steps[|steps| - 1];
      Offered(init, c) + if s.Push? && c in Run(init).subs then [s.row] else []
  }

  /** The rows channel `c` lost: those pushed against its full buffer. */
  function Dropped<Row>(steps: seq<Step<Row>>, c: nat): seq<Row> {
    if steps == [] then []
    else
      var init, s := steps[..|steps| - 1], steps[|steps| - 1];
      var w := Run(init);
      Dropped(init, c) + if s.Push? && c in w.subs && |Buffered(w, c)| == CAPACITY then [s.row] else []
  }

  /** The rows the consumer of channel `c` has taken. */
  function Received<Row>(steps: seq<Step<Row>>, c: nat): seq<Row> {
    if steps == [] then []
    else
      var init, s := steps[..|steps| - 1], steps[|steps| - 1];
      var w := Run(init);
      Received(init, c) + if s == Receive(c) && Buffered(w, c) != [] then [Buffered(w, c)[0]] else []
  }

  function Buffered<Row>(w: State<Row>, c: nat): seq<Row> {
    if c < |w.chans| then w.chans[c].buf else []
  }

  /** Received and still buffered, in order: everything the channel let through. */
  function Kept<Row>(steps: seq<Step<Row>>, c: nat): seq<Row> {
    Received(steps, c) + Buffered(Run(steps), c)
  }

  predicate LetsThrough<Row>(w: State<Row>, s: Step<Row>, c: nat) {
    s.Push? && c in w.subs && |Buffered(w, c)| < CAPACITY
  }

  lemma BufferStep<Row>(w: State<Row>, s: Step<Row>, c: nat)
    requires Valid(w)
    ensures var b := Buffered(w, c);
            Buffered(Apply(w, s), c) ==
              if LetsThrough(w, s, c) then b + [s.row] else if s == Receive(c) && b != [] then b[1..] else b
  {
  }

  lemma Regroup<Row>(a: seq<Row>, b: seq<Row>, c: seq<Row>)
    ensures a + (b + c) == (a + b) + c && a + b + [] == a + b && a + [] == a
  {
  }

  lemma TakeFirst<Row>(a: seq<Row>, b: seq<Row>)
    requires b != []
    ensures (a + [b[0]]) + b[1..] == a + b + []
  {
    assert b == [b[0]] + b[1..];
  }

  /** What one step adds to the rows let through. */
  lemma KeptStep<Row>(steps: seq<Step<Row>>, c: nat)
    requires steps != []
    ensures var init, s := steps[..|steps| - 1], steps[|steps| - 1];
            Kept(steps, c) == Kept(init, c) + if LetsThrough(Run(init), s, c) then [s.row] else []
  {
    var init, s := steps[..|steps| - 1], steps[|steps| - 1];
    var r, b := Received(init, c), Buffered(Run(init), c);
    BufferStep(Run(init), s, c);
    if LetsThrough(Run(init), s, c) {
      Regroup(r, b, [s.row]);
    } else if s == Receive(c) && b != [] {
      TakeFirst(r, b);
    } else {
      Regroup(r, b, []);
    }
  }

  lemma {:induction false} KeptInOrder<Row>(steps: seq<Step<Row>>, c: nat)
    ensures Subseq(Kept(steps, c), Offered(steps, c))
  {
    if steps == [] {
    } else {
      var init, s := steps[..|steps| - 1], steps[|steps| - 1];
      var k, o := Kept(init, c), Offered(init, c);
      KeptInOrder(init, c);
      KeptStep(steps, c);
      assert k + [] == k && o + [] == o;
      if LetsThrough(Run(init), s, c) {
        SubseqBoth(k, o, s.row);
      } else if s.Push? {
        SubseqExtend(k, o, s.row);
      }
    }
  }

  lemma Balance<Row>(o: seq<Row>, k: seq<Row>, d: seq<Row>, x: Row)
    requires multiset(o) == multiset(k) + multiset(d)
    ensures multiset(o + [x]) == multiset(k + [x]) + multiset(d)
    ensures multiset(o + [x]) == multiset(k) + multiset(d + [x])
  {
  }

  lemma {:induction false} KeptOrDropped<Row>(steps: seq<Step<Row>>, c: nat)
    ensures multiset(Offered(steps, c)) == multiset(Kept(steps, c)) + multiset(Dropped(steps, c))
    ensures |Offered(steps, c)| == |Kept(steps, c)| + |Dropped(steps, c)|
  {
    if steps == [] {
    } else {
      var init, s := steps[..|steps| - 1], steps[|steps| - 1];
      KeptOrDropped(init, c);
      KeptStep(steps, c);
      var k, o, d := Kept(init, c), Offered(init, c), Dropped(init, c);
      if s.Push? && c in Run(init).subs {
        Balance(o, k, d, s.row);
        if LetsThrough(Run(init), s, c) {
          assert Dropped(steps, c) == d;
        } else {
          assert Kept(steps, c) == k;
        }
      } else {
        assert Kept(steps, c) == k && Dropped(steps, c) == d;
      }
    }
  }

  /**
   Every channel, after every run: what was received plus what is buffered is an in-order
   subsequence of what was offered, and offered = received + buffered + dropped, row for row.
   */
  lemma FanOutConserves<Row>(steps: seq<Step<Row>>, c: nat)
    ensures Subseq(Received(steps, c) + Buffered(Run(steps), c), Offered(steps, c))
    ensures multiset(Offered(steps, c)) ==
            multiset(Received(steps, c)) + multiset(Buffered(Run(steps), c)) + multiset(Dropped(steps, c))
    ensures |Offered(steps, c)| == |Received(steps, c)| + |Buffered(Run(steps), c)| + |Dropped(steps, c)|
    ensures |Buffered(Run(steps), c)| <= 64
  {
    KeptInOrder(steps, c);
    KeptOrDropped(steps, c);
  }

  /** A push is lost on a channel exactly when 64 rows are waiting in it. */
  lemma DroppedExactlyWhenFull<Row>(steps: seq<Step<Row>>, c: nat, row: Row)
    requires c in Run(steps).subs
    ensures var before, after := Run(steps).chans[c].buf, Run(steps + [Push(row)]).chans[c].buf;
            after == if |before| < 64 then before + [row] else before
  {
    RunSnoc(steps, Push(row), c);
  }

  /** Nothing was lost exactly when the consumer holds or still has coming the pushes verbatim. */
  lemma LosslessExactly<Row>(steps: seq<Step<Row>>, c: nat)
    ensures Dropped(steps, c) == [] <==> Kept(steps, c) == Offered(steps, c)
  {
    KeptInOrder(steps, c);
    KeptOrDropped(steps, c);
    if Dropped(steps, c) == [] { SubseqFull(Kept(steps, c), Offered(steps, c)); }
  }

  lemma {:induction false} SubseqFull<T>(a: seq<T>, b: seq<T>)
    requires Subseq(a, b) && |a| == |b|
    ensures a == b
    decreases |b|
  {
    if a == [] {
    } else {
      if a[|a| - 1] == b[|b| - 1] {
        SubseqFull(a[..|a| - 1], b[..|b| - 1]);
      } else {
        SubseqLength(a, b[..|b| - 1]);
      }
    }
  }

  // ---------------------------------------------------------------- coming and going

  lemma RunSnoc<Row>(steps: seq<Step<Row>>, s: Step<Row>, c: nat)
    ensures Run(steps + [s]) == Apply(Run(steps), s)
    ensures Offered(steps + [s], c) == Offered(steps, c) + if s.Push? && c in Run(steps).subs then [s.row] else []
  {
    assert (steps + [s])[..|steps|] == steps;
  }

  /** Every channel but `c` is as it was. */
  ghost predicate OthersKept<Row>(w: State<Row>, u: State<Row>, c: nat) {
    forall d: nat :: d < |w.chans| && d != c ==> d < |u.chans| && u.chans[d] == w.chans[d] && (d in u.subs <==> d in w.subs)
  }

  /** Subscribing opens a new, empty channel; the next push reaches it. */
  lemma SubscribeOpens<Row>(steps: seq<Step<Row>>, row: Row)
    ensures var w := Run(steps);
            var c, u := |w.chans|, Run(steps + [Subscribe]);
            && c in u.subs && |u.chans| == c + 1 && u.chans[c] == Chan([], false) && OthersKept(w, u, c)
            && Run(steps + [Subscribe] + [Push(row)]).chans[c].buf == [row]
  {
    RunSnoc(steps, Subscribe, 0);
    RunSnoc(steps + [Subscribe], Push(row), 0);
  }

  /** Unsubscribing ends the subscription and closes the channel, rows still in it included; others are untouched. */
  lemma UnsubscribeCloses<Row>(steps: seq<Step<Row>>, c: nat)
    ensures var w, u := Run(steps), Run(steps + [Unsubscribe(c)]);
            && c !in u.subs && |u.chans| == |w.chans| && OthersKept(w, u, c)
            && (c < |w.chans| ==> u.chans[c].closed && u.chans[c].buf == w.chans[c].buf)
  {
    RunSnoc(steps, Unsubscribe(c), c);
  }

  lemma ClosedStep<Row>(w: State<Row>, s: Step<Row>, c: nat)
    requires Valid(w) && c < |w.chans| && c !in w.subs
    ensures c < |Apply(w, s).chans| && c !in Apply(w, s).subs
  {
  }

  lemma ClosedExtend<Row>(steps: seq<Step<Row>>, s: Step<Row>, c: nat)
    requires Left(steps, c)
    ensures Left(steps + [s], c) && Offered(steps + [s], c) == Offered(steps, c)
  {
    RunSnoc(steps, s, c);
    ClosedStep(Run(steps), s, c);
    assert Offered(steps, c) + [] == Offered(steps, c);
  }

  lemma SplitLast<T>(all: seq<T>, k: nat) returns (init: seq<T>, last: T)
    requires k < |all|
    ensures all == init + [last] && |init| < |all| && k <= |init| && init[..k] == all[..k]
  {
    init, last := all[..|all| - 1], all[|all| - 1];
  }

  ghost predicate Left<Row>(steps: seq<Step<Row>>, c: nat) { c < |Run(steps).chans| && c !in Run(steps).subs }

  /** A channel that exists and is not a subscriber stays so and is offered nothing more. */
  lemma {:induction false} ClosedStaysClosed<Row>(all: seq<Step<Row>>, k: nat, c: nat)
    requires k <= |all| && Left(all[..k], c)
    ensures Left(all, c) && Offered(all, c) == Offered(all[..k], c)
    decreases |all|
  {
    if k == |all| {
      assert all[..k] == all;
    } else {
      var init, s := SplitLast(all, k);
      ClosedStaysClosed(init, k, c);
      ClosedExtend(init, s, c);
    }
  }

  /** After its consumer leaves, a channel is never offered a row again, whatever follows. */
  lemma NothingAfterLeaving<Row>(steps: seq<Step<Row>>, more: seq<Step<Row>>, c: nat)
    requires c < |Run(steps).chans|
    ensures Offered(steps + [Unsubscribe(c)] + more, c) == Offered(steps, c)
  {
    var all := steps + [Unsubscribe(c)] + more;
    UnsubscribeCloses(steps, c);
    RunSnoc(steps, Unsubscribe(c), c);
    assert Offered(steps, c) + [] == Offered(steps, c);
    assert all[..|steps| + 1] == steps + [Unsubscribe(c)];
    ClosedStaysClosed(all, |steps| + 1, c);
  }
}
