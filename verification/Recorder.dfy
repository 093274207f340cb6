/** The change recorder: a cooldown cache in front of an append-only log. */
module Recorder {
  import opened Arith
  import opened Wrappers
  import W = Watcher

  type Time = int

  datatype ChangeType = DeviceAdded | DeviceChanged | DeviceLost | DeviceRecovered | OtherChange(name: string)

  datatype Event = Event(change: ChangeType, device: int, data: string)

  /** A change_log row; entity 0 is stored as NULL. */
  datatype LogRow = LogRow(change: ChangeType, entity: Option<int>, data: string, at: Time)

  datatype Bucket = Unthrottled | Liveness | Changed

  /** dedupKind. */
  function BucketOf(c: ChangeType): Bucket {
    match c
    case DeviceLost => Liveness
    case DeviceRecovered => Liveness
    case DeviceChanged => Changed
    case _ => Unthrottled
  }

  datatype Key = Key(device: int, bucket: Bucket)

  function KeyOfEvent(ev: Event): Key { Key(ev.device, BucketOf(ev.change)) }

  function KeyOfRow(r: LogRow): Key {
    Key(if r.entity.Some? then r.entity.value else 0, BucketOf(r.change))
  }

  function RowOf(ev: Event, at: Time): (r: LogRow)
    ensures KeyOfRow(r) == KeyOfEvent(ev)
  {
    LogRow(ev.change, if ev.device == 0 then None else Some(ev.device), ev.data, at)
  }

  /** One call of Record: when the cache was consulted, when the row was stamped, whether the write held. */
  datatype Call = Call(ev: Event, check: Time, write: Time, ok: bool)

  datatype Rec = Rec(last: map<Key, Time>, log: seq<LogRow>)

  /** shouldEmit, at time `check`. */
  predicate ShouldEmit(r: Rec, cooldown: Time, ev: Event, check: Time) {
    var key := KeyOfEvent(ev);
    cooldown <= 0 || key.bucket == Unthrottled || key !in r.last || check - r.last[key] >= cooldown
  }

  /** markEmitted. */
  function Mark(r: Rec, cooldown: Time, ev: Event, at: Time): Rec {
    if cooldown <= 0 || BucketOf(ev.change) == Unthrottled then r else r.(last := r.last[KeyOfEvent(ev) := at])
  }

  predicate Logs(r: Rec, cooldown: Time, c: Call) { ShouldEmit(r, cooldown, c.ev, c.check) && c.ok }

  function RecordCall(r: Rec, cooldown: Time, c: Call): Rec {
    if !Logs(r, cooldown, c) then r
    else Mark(r.(log := r.log + [RowOf(c.ev, c.write)]), cooldown, c.ev, c.write)
  }

  class DBRecorder {
    const cooldown: Time
    const watcher: W.Watcher?<LogRow>
    var lastEmitted: map<Key, Time>
    var log: seq<LogRow>

    constructor (cooldown: Time, watcher: W.Watcher?<LogRow>)
      ensures this.cooldown == cooldown && this.watcher == watcher && View() == Rec(map[], [])
    {
      this.cooldown, this.watcher := cooldown, watcher;
      lastEmitted, log := map[], [];
    }

    function View(): Rec
      reads this
    {
      Rec(lastEmitted, log)
    }

    method IsDue(ev: Event, check: Time) returns (due: bool)
      ensures due == ShouldEmit(View(), cooldown, ev, check)
    {
      if cooldown <= 0 {
        return true;
      }
      var kind := BucketOf(ev.change);
      if kind == Unthrottled {
        return true;
      }
      var key := Key(ev.device, kind);
      if key in lastEmitted {
        if check - lastEmitted[key] < cooldown {
          return false;
        }
      }
      return true;
    }

    /** Record: the row reaches the log and the subscribers, or neither. */
    method Record(c: Call)
      requires watcher != null ==> W.Valid(watcher.View())
      modifies this, watcher
      ensures View() == RecordCall(old(View()), cooldown, c)
      ensures watcher != null ==>
                && W.Valid(watcher.View())
                && watcher.View() == if Logs(old(View()), cooldown, c)
                                     then W.PushState(old(watcher.View()), RowOf(c.ev, c.write))
                                     else old(watcher.View())
    {
      var due := IsDue(c.ev, c.check);
      if !due {
        return;
      }
      if !c.ok {
        return;
      }
      var row := RowOf(c.ev, c.write);
      log := log + [row];
      if cooldown > 0 && BucketOf(c.ev.change) != Unthrottled {
        lastEmitted := lastEmitted[KeyOfEvent(c.ev) := c.write];
      }
      if watcher != null {
        watcher.Push(row);
      }
    }
  }

  // ---------------------------------------------------------------- runs

  function Run(cooldown: Time, calls: seq<Call>): Rec {
    if calls == [] then Rec(map[], [])
    else RecordCall(Run(cooldown, calls[..|calls| - 1]), cooldown, calls[|calls| - 1])
  }

  /** Calls come one after another on a clock that does not go back. */
  ghost predicate Clocked(calls: seq<Call>) {
    && (forall i :: 0 <= i < |calls| ==> calls[i].check <= calls[i].write)
    && (forall i, j :: 0 <= i < j < |calls| ==> calls[i].write <= calls[j].check)
  }

  lemma ClockedInit(calls: seq<Call>)
    requires Clocked(calls) && calls != []
    ensures Clocked(calls[..|calls| - 1])
  {
  }

  /** The time of the last row logged in a bucket. */
  function LastAt(log: seq<LogRow>, key: Key): Option<Time> {
    if log == [] then None
    else if KeyOfRow(log[|log| - 1]) == key then Some(log[|log| - 1].at)
    else LastAt(log[..|log| - 1], key)
  }

  lemma LastAtSnoc(log: seq<LogRow>, row: LogRow, key: Key)
    ensures LastAt(log + [row], key) == if KeyOfRow(row) == key then Some(row.at) else LastAt(log, key)
  {
    assert (log + [row])[..|log|] == log;
  }

  function CacheAt(r: Rec, key: Key): Option<Time> { if key in r.last then Some(r.last[key]) else None }

  /** The cache is a summary of the log: for every bucket it holds the time of the last logged row. */
  lemma {:induction false} CacheIsLastRow(cooldown: Time, calls: seq<Call>, key: Key)
    requires cooldown > 0 && key.bucket != Unthrottled
    ensures CacheAt(Run(cooldown, calls), key) == LastAt(Run(cooldown, calls).log, key)
  {
    if calls == [] {
    } else {
      var init, c := calls[..|calls| - 1], calls[|calls| - 1];
      CacheIsLastRow(cooldown, init, key);
      LastAtSnoc(Run(cooldown, init).log, RowOf(c.ev, c.write), key);
    }
  }

  ghost predicate InOrder(log: seq<LogRow>) {
    forall i, j :: 0 <= i < j < |log| ==> log[i].at <= log[j].at
  }

  ghost predicate NoneAfter(log: seq<LogRow>, t: Time) {
    forall i :: 0 <= i < |log| ==> log[i].at <= t
  }

  /** Rows are logged in time order, none later than the last call. */
  lemma {:induction false} LogIsOrdered(cooldown: Time, calls: seq<Call>)
    requires Clocked(calls)
    ensures InOrder(Run(cooldown, calls).log)
    ensures if calls == [] then Run(cooldown, calls).log == []
            else NoneAfter(Run(cooldown, calls).log, calls[|calls| - 1].write)
  {
    if calls == [] {
    } else {
      var init, c := calls[..|calls| - 1], calls[|calls| - 1];
      ClockedInit(calls);
      LogIsOrdered(cooldown, init);
      assert init != [] ==> calls[|init| - 1].write <= calls[|init|].check;
      assert NoneAfter(Run(cooldown, init).log, c.check);
    }
  }

  /** In an ordered log the last row of a bucket is its newest. */
  lemma {:induction false} LastIsNewest(log: seq<LogRow>, key: Key)
    requires InOrder(log)
    ensures LastAt(log, key).None? <==> forall r :: r in log ==> KeyOfRow(r) != key
    ensures LastAt(log, key).Some? ==> exists r :: r in log && KeyOfRow(r) == key && r.at == LastAt(log, key).value
    ensures forall r :: r in log && KeyOfRow(r) == key ==> r.at <= LastAt(log, key).value
  {
    if log == [] {
    } else {
      var init, last := log[..|log| - 1], log[|log| - 1];
      LastIsNewest(init, key);
      assert log == init + [last];
    }
  }

  /**
   An event is suppressed exactly when its bucket is throttled and the log already holds a row of
   that bucket less than a cooldown old. A call whose write failed leaves no trace.
   */
  lemma {:induction false} SuppressedExactly(cooldown: Time, calls: seq<Call>, ev: Event, check: Time)
    requires Clocked(calls) && cooldown > 0
    ensures var r := Run(cooldown, calls);
            !ShouldEmit(r, cooldown, ev, check) <==>
            (&& BucketOf(ev.change) != Unthrottled
             && exists row :: row in r.log && KeyOfRow(row) == KeyOfEvent(ev) && check - row.at < cooldown)
  {
    var r, key := Run(cooldown, calls), KeyOfEvent(ev);
    if key.bucket != Unthrottled {
      CacheIsLastRow(cooldown, calls, key);
      LogIsOrdered(cooldown, calls);
      LastIsNewest(r.log, key);
    }
  }

  /** Two rows of one throttled bucket are at least a cooldown apart. */
  lemma {:induction false} RowsAreSpaced(cooldown: Time, calls: seq<Call>, i: nat, j: nat)
    requires Clocked(calls) && cooldown > 0
    requires var log := Run(cooldown, calls).log;
             i < j < |log| && KeyOfRow(log[i]) == KeyOfRow(log[j]) && KeyOfRow(log[i]).bucket != Unthrottled
    ensures Run(cooldown, calls).log[j].at - Run(cooldown, calls).log[i].at >= cooldown
  {
    var init, c := calls[..|calls| - 1], calls[|calls| - 1];
    var before := Run(cooldown, init);
    ClockedInit(calls);
    if j < |before.log| {
      RowsAreSpaced(cooldown, init, i, j);
    } else {
      SuppressedExactly(cooldown, init, c.ev, c.check);
      assert before.log[i] in before.log;
    }
  }

  /** How many rows of a bucket lie in the window from `lo` to `hi`. */
  function CountIn(log: seq<LogRow>, key: Key, lo: Time, hi: Time): nat {
    if log == [] then 0
    else
      var r := log[|log| - 1];
      CountIn(log[..|log| - 1], key, lo, hi) + if KeyOfRow(r) == key && lo <= r.at <= hi then 1 else 0
  }

  ghost predicate Spaced(log: seq<LogRow>, key: Key, gap: Time) {
    forall i, j :: 0 <= i < j < |log| && KeyOfRow(log[i]) == key && KeyOfRow(log[j]) == key ==>
      log[j].at - log[i].at >= gap
  }

  lemma {:induction false} CountNarrow(log: seq<LogRow>, key: Key, lo: Time, hi: Time, mid: Time)
    requires mid <= hi && forall r :: r in log && KeyOfRow(r) == key ==> r.at <= mid
    ensures CountIn(log, key, lo, hi) == CountIn(log, key, lo, mid)
  {
    if log == [] {
    } else {
      assert log[|log| - 1] in log;
      CountNarrow(log[..|log| - 1], key, lo, hi, mid);
    }
  }

  lemma {:induction false} SpacedCount(log: seq<LogRow>, key: Key, lo: Time, hi: Time, gap: Time)
    requires gap > 0 && Spaced(log, key, gap)
    ensures CountIn(log, key, lo, hi) > 0 ==> (CountIn(log, key, lo, hi) - 1) * gap <= hi - lo
  {
    if log == [] {
    } else {
      var init, r := log[..|log| - 1], log[|log| - 1];
      if KeyOfRow(r) == key && lo <= r.at <= hi {
        forall x | x in init && KeyOfRow(x) == key ensures x.at <= r.at - gap {
          var i :| 0 <= i < |init| && init[i] == x;
          assert log[i] == x;
        }
        CountNarrow(init, key, lo, hi, r.at - gap);
        SpacedInit(log, key, gap);
        SpacedCount(init, key, lo, r.at - gap, gap);
        OneMore(CountIn(init, key, lo, r.at - gap), gap, r.at - gap - lo, hi - lo);
      } else {
        SpacedInit(log, key, gap);
        SpacedCount(init, key, lo, hi, gap);
      }
    }
  }

  lemma SpacedInit(log: seq<LogRow>, key: Key, gap: Time)
    requires Spaced(log, key, gap) && log != []
    ensures Spaced(log[..|log| - 1], key, gap)
  {
  }

  lemma OneMore(k: nat, gap: Time, a: Time, b: Time)
    requires 0 <= b && a + gap <= b && (k > 0 ==> (k - 1) * gap <= a)
    ensures k * gap <= b
  {
    assert k * gap == (k - 1) * gap + gap;
  }

  /** Any window of length W holds at most W / cooldown + 1 rows of one throttled bucket. */
  lemma WindowIsBounded(cooldown: Time, calls: seq<Call>, key: Key, lo: Time, w: nat)
    requires Clocked(calls) && cooldown > 0 && key.bucket != Unthrottled
    ensures CountIn(Run(cooldown, calls).log, key, lo, lo + w) <= w / cooldown + 1
  {
    var log := Run(cooldown, calls).log;
    forall i, j | 0 <= i < j < |log| && KeyOfRow(log[i]) == key && KeyOfRow(log[j]) == key
      ensures log[j].at - log[i].at >= cooldown
    {
      RowsAreSpaced(cooldown, calls, i, j);
    }
    SpacedCount(log, key, lo, lo + w, cooldown);
    var k := CountIn(log, key, lo, lo + w);
    if k > 0 { DivBound(k - 1, cooldown, w); }
  }

  lemma DivBound(k: nat, c: nat, w: nat)
    requires c > 0 && k * c <= w
    ensures k <= w / c
  {
    if k > w / c { MulMono(c, w / c + 1, k); }
  }

  /**
   The two liveness events share one bucket, so only the first of a lost/recovered pair inside
   the window is recorded: after a logged loss the recovery is dropped until the cooldown is over.
   */
  lemma LivenessPairCollapses(cooldown: Time, calls: seq<Call>, device: int, data: string, lost: Call, check: Time)
    requires Clocked(calls) && cooldown > 0 && lost.ev.change == DeviceLost && lost.ev.device == device
    requires Logs(Run(cooldown, calls), cooldown, lost)
    ensures var r := RecordCall(Run(cooldown, calls), cooldown, lost);
            ShouldEmit(r, cooldown, Event(DeviceRecovered, device, data), check) <==> check - lost.write >= cooldown
  {
  }

  // ---------------------------------------------------------------- which rows there are

  /** The row is what this call reports, field by field. */
  predicate Reports(c: Call, row: LogRow) {
    && row.change == c.ev.change && row.data == c.ev.data && row.at == c.write
    && row.entity == if c.ev.device == 0 then None else Some(c.ev.device)
  }

  /** The calls of a run that were due and whose write held, in order. */
  function LoggedCalls(cooldown: Time, calls: seq<Call>): seq<Call> {
    if calls == [] then []
    else
      var init, c := calls[..|calls| - 1], calls[|calls| - 1];
      LoggedCalls(cooldown, init) + if c.ok && ShouldEmit(Run(cooldown, init), cooldown, c.ev, c.check) then [c] else []
  }

  /** Over every run the log is, row for row and in order, what those calls report. */
  lemma {:induction false} LogReportsCalls(cooldown: Time, calls: seq<Call>)
    ensures var log, logged := Run(cooldown, calls).log, LoggedCalls(cooldown, calls);
            |log| == |logged| && forall i :: 0 <= i < |log| ==> logged[i].ok && Reports(logged[i], log[i])
  {
    if calls == [] {
    } else {
      LogReportsCalls(cooldown, calls[..|calls| - 1]);
    }
  }

  /** A row of the log is about the device of this event. */
  predicate SameDevice(row: LogRow, ev: Event) {
    row.entity == if ev.device == 0 then None else Some(ev.device)
  }

  /** The kinds that share a cooldown: a change with changes, the liveness pair with itself. */
  predicate SameConcern(a: ChangeType, b: ChangeType) {
    || (a == DeviceChanged && b == DeviceChanged)
    || ((a == DeviceLost || a == DeviceRecovered) && (b == DeviceLost || b == DeviceRecovered))
  }

  lemma RowsNameDevices(cooldown: Time, calls: seq<Call>, row: LogRow)
    requires row in Run(cooldown, calls).log
    ensures row.entity != Some(0)
  {
    LogReportsCalls(cooldown, calls);
    var i :| 0 <= i < |Run(cooldown, calls).log| && Run(cooldown, calls).log[i] == row;
    assert Reports(LoggedCalls(cooldown, calls)[i], row);
  }

  /**
   Suppression said by change types. An event is suppressed exactly when the log holds a row less than a
   cooldown old about the same device and the same concern. So additions, and kinds unknown to the recorder,
   are never suppressed, a change only by a change, a loss or recovery only by a loss or recovery, and
   nothing at all without a cooldown.
   */
  lemma SuppressedByType(cooldown: Time, calls: seq<Call>, ev: Event, check: Time)
    requires Clocked(calls)
    ensures var r := Run(cooldown, calls);
            !ShouldEmit(r, cooldown, ev, check) <==>
            (&& cooldown > 0
             && exists row :: row in r.log && SameDevice(row, ev) && SameConcern(ev.change, row.change)
                              && check - row.at < cooldown)
  {
    if cooldown > 0 {
      SuppressedExactly(cooldown, calls, ev, check);
      forall row | row in Run(cooldown, calls).log
        ensures BucketOf(ev.change) != Unthrottled && KeyOfRow(row) == KeyOfEvent(ev) <==>
                SameDevice(row, ev) && SameConcern(ev.change, row.change)
      {
        RowsNameDevices(cooldown, calls, row);
      }
    }
  }
}
