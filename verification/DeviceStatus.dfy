/** The bulk device-status write, its per-device form, and what offline_since records over a run. */
module DeviceStatus {
  import opened Wrappers

  type Time = int

  datatype Status = Online | Offline | Unknown

  datatype Device = Device(status: Status, offlineSince: Option<Time>, updatedAt: Time)

  type Devices = map<int, Device>

  /** The SET clause with its CASE, which sees the row's status before the update. */
  function UpdateRow(d: Device, status: Status, now: Time): Device {
    Device(
      status,
      if status == Offline && d.status != Offline then Some(now) else if status == Online then None else d.offlineSince,
      now)
  }

  /** UPDATE devices ... WHERE id = ?. */
  function UpdateOne(ds: Devices, id: int, status: Status, now: Time): Devices {
    if id in ds then ds[id := UpdateRow(ds[id], status, now)] else ds
  }

  /** UPDATE devices ... WHERE id IN (...). */
  function UpdateMany(ds: Devices, ids: set<int>, status: Status, now: Time): Devices {
    map i | i in ds :: if i in ids then UpdateRow(ds[i], status, now) else ds[i]
  }

  function Fold(ds: Devices, ids: seq<int>, status: Status, now: Time): Devices {
    if ids == [] then ds else UpdateOne(Fold(ds, ids[..|ids| - 1], status, now), ids[|ids| - 1], status, now)
  }

  function Elements(ids: seq<int>): set<int> { set i | i in ids }

  /** The set-based update is the per-device update applied along the list, repeats included. */
  lemma {:induction false} BulkIsFold(ds: Devices, ids: seq<int>, status: Status, now: Time)
    ensures UpdateMany(ds, Elements(ids), status, now) == Fold(ds, ids, status, now)
  {
    if ids == [] {
      assert UpdateMany(ds, {}, status, now) == ds;
    } else {
      var init, last := ids[..|ids| - 1], ids[|ids| - 1];
      BulkIsFold(ds, init, status, now);
      assert ids == init + [last];
      assert Elements(ids) == Elements(init) + {last};
    }
  }

  /** So neither the order of the list nor repeats in it matter. */
  lemma OrderAndRepeatsDoNotMatter(ds: Devices, a: seq<int>, b: seq<int>, status: Status, now: Time)
    requires forall i :: i in a <==> i in b
    ensures Fold(ds, a, status, now) == Fold(ds, b, status, now)
  {
    BulkIsFold(ds, a, status, now);
    BulkIsFold(ds, b, status, now);
    forall i ensures i in Elements(a) <==> i in Elements(b) {
      assert i in a <==> i in b;
    }
    assert Elements(a) == Elements(b);
  }

  datatype StatusText = Known(status: Status) | Bogus(text: string)

  datatype BatchError = RemoteManagedDevice | BatchEmptyIDs | BatchInvalidStatus

  class DeviceStore {
    var rows: Devices

    constructor (rows: Devices)
      ensures this.rows == rows
    {
      this.rows := rows;
    }

    method UpdateDeviceStatus(id: int, status: Status, now: Time)
      modifies this
      ensures rows == UpdateOne(old(rows), id, status, now)
    {
      if id in rows {
        rows := rows[id := UpdateRow(rows[id], status, now)];
      }
    }

    /** `remote` is how many of the devices are agent-managed, None when that could not be found out. */
    method UpdateDeviceStatuses(ids: seq<int>, text: StatusText, remote: Option<nat>, now: Time)
      returns (r: Result<nat, BatchError>)
      modifies this
      ensures r.Err? ==> rows == old(rows)
      ensures r.Ok? <==> !(remote.Some? && remote.value > 0) && ids != [] && text.Known?
      ensures r.Err? ==> r.error == (if remote.Some? && remote.value > 0 then RemoteManagedDevice
                                     else if ids == [] then BatchEmptyIDs else BatchInvalidStatus)
      ensures r.Ok? ==> rows == Fold(old(rows), ids, text.status, now)
      ensures r.Ok? ==> r.value == |Elements(ids) * old(rows).Keys|
    {
      if remote.Some? && remote.value > 0 {
        return Err(RemoteManagedDevice);
      }
      if ids == [] {
        return Err(BatchEmptyIDs);
      }
      if text.Bogus? {
        return Err(BatchInvalidStatus);
      }
      var args: set<int> := {};
      for i := 0 to |ids|
        invariant args == Elements(ids[..i])
      {
        assert ids[..i + 1] == ids[..i] + [ids[i]];
        args := args + {ids[i]};
      }
      assert ids[..|ids|] == ids;
      BulkIsFold(rows, ids, text.status, now);
      r := Ok(|args * rows.Keys|);
      rows := UpdateMany(rows, args, text.status, now);
    }
  }

  // ---------------------------------------------------------------- runs

  /** One update statement: a single id or a batch. */
  datatype Write = Write(ids: set<int>, status: Status, now: Time)

  function Run(start: Devices, writes: seq<Write>): (ds: Devices)
    ensures ds.Keys == start.Keys
  {
    if writes == [] then start
    else
      var w := writes[|writes| - 1];
      UpdateMany(Run(start, writes[..|writes| - 1]), w.ids, w.status, w.now)
  }

  /** The status last written to a device, or the one it started with. */
  function StatusAt(start: Device, writes: seq<Write>, id: int): Status {
    if writes == [] then start.status
    else if id in writes[|writes| - 1].ids then writes[|writes| - 1].status
    else StatusAt(start, writes[..|writes| - 1], id)
  }

  /** The time of the latest write that took the device from not-offline to offline. */
  function LastFlip(start: Device, writes: seq<Write>, id: int): Option<Time> {
    if writes == [] then start.offlineSince
    else
      var init, w := writes[..|writes| - 1], writes[|writes| - 1];
      if id in w.ids && w.status == Offline && StatusAt(start, init, id) != Offline then Some(w.now)
      else LastFlip(start, init, id)
  }

  /** An Online write touched the device since its latest flip. */
  predicate Cleared(start: Device, writes: seq<Write>, id: int) {
    writes != [] &&
    var init, w := writes[..|writes| - 1], writes[|writes| - 1];
    if id !in w.ids then Cleared(start, init, id)
    else if w.status == Offline && StatusAt(start, init, id) != Offline then false
    else w.status == Online || Cleared(start, init, id)
  }

  /** The time of the last write that touched the device. */
  function LastTouch(start: Device, writes: seq<Write>, id: int): Time {
    if writes == [] then start.updatedAt
    else if id in writes[|writes| - 1].ids then writes[|writes| - 1].now
    else LastTouch(start, writes[..|writes| - 1], id)
  }

  predicate Consistent(d: Device) { d.status == Online ==> d.offlineSince.None? }

  /**
   Along every run: offline_since is the time of the latest flip to offline, unless an Online write
   came after it, and then it is empty. So from a consistent table an online device has none and an
   offline device always has its flip.
   */
  lemma {:induction false} OfflineSinceIsLastFlip(start: Devices, writes: seq<Write>, id: int)
    requires id in start
    ensures var d := Run(start, writes)[id];
            && d.status == StatusAt(start[id], writes, id) && d.updatedAt == LastTouch(start[id], writes, id)
            && d.offlineSince == (if Cleared(start[id], writes, id) then None else LastFlip(start[id], writes, id))
            && (d.status == Offline ==> d.offlineSince == LastFlip(start[id], writes, id))
            && (Consistent(start[id]) && d.status == Online ==> d.offlineSince.None?)
  {
    if writes == [] {
    } else {
      OfflineSinceIsLastFlip(start, writes[..|writes| - 1], id);
    }
  }
}
