/** The bounded DHCP option walk of the packet filter against an unbounded reading of the list. */
module DhcpOptions {
  import opened Bytes

  const MAX_ENTRIES: nat := 48
  const VENDOR_WINDOW: nat := 32
  const REQUEST_WINDOW: nat := 12
  /** The options start after the 236-byte bootp header and the 4-byte cookie. */
  const COOKIE_AT: nat := 236
  const OPTIONS_AT: nat := 240

  /** What the walk collects: option 60, option 55 with its count, option 53. */
  datatype Fields = Fields(vendor: seq<Byte>, requested: seq<Byte>, requestedLen: nat, msgType: Byte)

  /** bpf_skb_load_bytes succeeds when the window lies in the packet. */
  predicate Fits(pkt: seq<Byte>, at: nat, n: nat) { at + n <= |pkt| }

  function Min(a: nat, b: nat): nat { if a < b then a else b }

  /** A 32-byte window cut off at the option's own length; zeros when the window leaves the packet. */
  function Captured(pkt: seq<Byte>, at: nat, len: nat): (v: seq<Byte>)
    ensures |v| == VENDOR_WINDOW
  {
    seq(VENDOR_WINDOW, k requires 0 <= k < VENDOR_WINDOW =>
      if Fits(pkt, at, VENDOR_WINDOW) && k < len then pkt[at + k] else 0)
  }

  /** The effect of one option whose value starts at `at`. */
  function Absorb(pkt: seq<Byte>, e: Entry, f: Fields): Fields {
    match e
    case Pad => f
    case Opt(code, len, at) =>
      if IsType(pkt, e) then f.(msgType := pkt[at])
      else if IsVendor(e) then f.(vendor := Captured(pkt, at, len))
      else if IsRequest(pkt, e) then
        f.(requested := pkt[at..at + REQUEST_WINDOW], requestedLen := Min(len, REQUEST_WINDOW))
      else f
  }

  // ---------------------------------------------------------------- the unbounded reading

  datatype Entry = Pad | Opt(code: Byte, len: Byte, at: nat)

  predicate IsType(pkt: seq<Byte>, e: Entry) { e.Opt? && e.code == 53 && e.len >= 1 && Fits(pkt, e.at, 1) }
  predicate IsVendor(e: Entry) { e.Opt? && e.code == 60 && e.len >= 1 }
  predicate IsRequest(pkt: seq<Byte>, e: Entry) {
    e.Opt? && e.code == 55 && e.len >= 1 && Fits(pkt, e.at, REQUEST_WINDOW)
  }

  /** The option list from `pos`: pad is one octet, end stops, anything else is code, length, value (RFC 2132). */
  function Entries(pkt: seq<Byte>, pos: nat): seq<Entry>
    decreases |pkt| - pos
  {
    if pos >= |pkt| || pkt[pos] == 255 then []
    else if pkt[pos] == 0 then [Pad] + Entries(pkt, pos + 1)
    else if pos + 1 >= |pkt| then []
    else [Opt(pkt[pos], pkt[pos + 1], pos + 2)] + Entries(pkt, pos + 2 + pkt[pos + 1])
  }

  function Interpret(pkt: seq<Byte>, es: seq<Entry>, f: Fields): Fields {
    if es == [] then f else Interpret(pkt, es[1..], Absorb(pkt, es[0], f))
  }

  // ---------------------------------------------------------------- the bounded walk

  /** The loop from `pos` with `turns` turns left. */
  function Walk(pkt: seq<Byte>, pos: nat, turns: nat, f: Fields): Fields
    decreases turns
  {
    if turns == 0 || !Fits(pkt, pos, 2) || pkt[pos] == 255 then f
    else if pkt[pos] == 0 then Walk(pkt, pos + 1, turns - 1, f)
    else
      var e := Opt(pkt[pos], pkt[pos + 1], pos + 2);
      if e.code == 53 && e.len >= 1 && !Fits(pkt, e.at, 1) then f
      else Walk(pkt, pos + 2 + e.len, turns - 1, Absorb(pkt, e, f))
  }

  predicate IsDhcp(pkt: seq<Byte>, off: nat) {
    Fits(pkt, off + COOKIE_AT, 4) && pkt[off + COOKIE_AT..off + COOKIE_AT + 4] == [0x63, 0x82, 0x53, 0x63]
  }

  /** parse_dhcp: fills the caller's buffers in place and says whether anything was collected. */
  method ParseDhcp(pkt: seq<Byte>, off: nat, vendor: array<Byte>, requested: array<Byte>, len0: nat, type0: Byte)
    returns (found: bool, requestedLen: nat, msgType: Byte)
    requires vendor.Length >= VENDOR_WINDOW && requested.Length >= REQUEST_WINDOW && vendor != requested
    modifies vendor, requested
    ensures var f0 := Fields(old(vendor[..VENDOR_WINDOW]), old(requested[..REQUEST_WINDOW]), len0, type0);
            var f := Fields(vendor[..VENDOR_WINDOW], requested[..REQUEST_WINDOW], requestedLen, msgType);
            && f == (if IsDhcp(pkt, off) then Walk(pkt, off + OPTIONS_AT, MAX_ENTRIES, f0) else f0)
            && found == (IsDhcp(pkt, off) && (f.msgType != 0 || f.vendor[0] != 0 || f.requestedLen != 0))
    ensures vendor[VENDOR_WINDOW..] == old(vendor[VENDOR_WINDOW..])
    ensures requested[REQUEST_WINDOW..] == old(requested[REQUEST_WINDOW..])
  {
    requestedLen, msgType := len0, type0;
    if !Fits(pkt, off + COOKIE_AT, 4) {
      return false, len0, type0;
    }
    if pkt[off + COOKIE_AT..off + COOKIE_AT + 4] != [0x63, 0x82, 0x53, 0x63] {
      return false, len0, type0;
    }
    ghost var goal := Walk(pkt, off + OPTIONS_AT, MAX_ENTRIES,
                           Fields(vendor[..VENDOR_WINDOW], requested[..REQUEST_WINDOW], len0, type0));
    var pos: nat := off + OPTIONS_AT;
    for i := 0 to MAX_ENTRIES
      invariant goal == Walk(pkt, pos, MAX_ENTRIES - i,
                             Fields(vendor[..VENDOR_WINDOW], requested[..REQUEST_WINDOW], requestedLen, msgType))
      invariant vendor[VENDOR_WINDOW..] == old(vendor[VENDOR_WINDOW..])
      invariant requested[REQUEST_WINDOW..] == old(requested[REQUEST_WINDOW..])
    {
      if !Fits(pkt, pos, 2) {
        break;
      }
      if pkt[pos] == 0 {
        pos := pos + 1;
        continue;
      }
      if pkt[pos] == 255 {
        break;
      }
      var code, olen := pkt[pos], pkt[pos + 1];
      if code == 53 && olen >= 1 && !Fits(pkt, pos + 2, 1) {
        break;
      }
      requestedLen, msgType := TakeOption(pkt, pos, vendor, requested, requestedLen, msgType);
      pos := pos + 2 + olen;
    }
    found := msgType != 0 || vendor[0] != 0 || requestedLen != 0;
  }

  /** The body of one turn for the option whose header is at `pos`. */
  method TakeOption(pkt: seq<Byte>, pos: nat, vendor: array<Byte>, requested: array<Byte>, len0: nat, type0: Byte)
    returns (requestedLen: nat, msgType: Byte)
    requires Fits(pkt, pos, 2) && !(pkt[pos] == 53 && pkt[pos + 1] >= 1 && !Fits(pkt, pos + 2, 1))
    requires vendor.Length >= VENDOR_WINDOW && requested.Length >= REQUEST_WINDOW && vendor != requested
    modifies vendor, requested
    ensures Fields(vendor[..VENDOR_WINDOW], requested[..REQUEST_WINDOW], requestedLen, msgType) ==
            Absorb(pkt, Opt(pkt[pos], pkt[pos + 1], pos + 2),
                   Fields(old(vendor[..VENDOR_WINDOW]), old(requested[..REQUEST_WINDOW]), len0, type0))
    ensures vendor[VENDOR_WINDOW..] == old(vendor[VENDOR_WINDOW..])
    ensures requested[REQUEST_WINDOW..] == old(requested[REQUEST_WINDOW..])
  {
    requestedLen, msgType := len0, type0;
    var code, olen := pkt[pos], pkt[pos + 1];
    if code == 53 && olen >= 1 {
      msgType := pkt[pos + 2];
    } else if code == 60 && olen >= 1 {
      FillVendor(pkt, pos + 2, olen, vendor);
    } else if code == 55 && olen >= 1 {
      if Fits(pkt, pos + 2, REQUEST_WINDOW) {
        CopyWindow(pkt, pos + 2, requested);
        requestedLen := Min(olen, REQUEST_WINDOW);
      }
    }
  }

  /** Load the window (zeros on failure), then zero every byte from the option's length on. */
  method FillVendor(pkt: seq<Byte>, at: nat, olen: Byte, vendor: array<Byte>)
    requires vendor.Length >= VENDOR_WINDOW
    modifies vendor
    ensures vendor[..VENDOR_WINDOW] == Captured(pkt, at, olen)
    ensures vendor[VENDOR_WINDOW..] == old(vendor[VENDOR_WINDOW..])
  {
    var ok := Fits(pkt, at, VENDOR_WINDOW);
    var vn := if olen > VENDOR_WINDOW then VENDOR_WINDOW else olen;
    for k := 0 to VENDOR_WINDOW
      invariant forall j :: 0 <= j < k ==> vendor[j] == if ok then pkt[at + j] else 0
      invariant forall j :: VENDOR_WINDOW <= j < vendor.Length ==> vendor[j] == old(vendor[j])
    {
      vendor[k] := if ok then pkt[at + k] else 0;
    }
    for k := 0 to VENDOR_WINDOW
      invariant forall j :: 0 <= j < VENDOR_WINDOW ==>
                  vendor[j] == if ok && !(j < k && j >= vn) then pkt[at + j] else 0
      invariant forall j :: VENDOR_WINDOW <= j < vendor.Length ==> vendor[j] == old(vendor[j])
    {
      if k >= vn {
        vendor[k] := 0;
      }
    }
  }

  method CopyWindow(pkt: seq<Byte>, at: nat, out: array<Byte>)
    requires Fits(pkt, at, REQUEST_WINDOW) && out.Length >= REQUEST_WINDOW
    modifies out
    ensures out[..REQUEST_WINDOW] == pkt[at..at + REQUEST_WINDOW]
    ensures out[REQUEST_WINDOW..] == old(out[REQUEST_WINDOW..])
  {
    for k := 0 to REQUEST_WINDOW
      invariant forall j :: 0 <= j < k ==> out[j] == pkt[at + j]
      invariant forall j :: REQUEST_WINDOW <= j < out.Length ==> out[j] == old(out[j])
    {
      out[k] := pkt[at + k];
    }
  }

  // ---------------------------------------------------------------- bounded against unbounded

  /** On every packet the walk is the unbounded reading cut off after `turns` entries. */
  lemma {:induction false} WalkIsPrefixReading(pkt: seq<Byte>, pos: nat, turns: nat, f: Fields)
    ensures Walk(pkt, pos, turns, f) == Interpret(pkt, Entries(pkt, pos)[..Min(turns, |Entries(pkt, pos)|)], f)
    decreases turns
  {
    var es := Entries(pkt, pos);
    if turns > 0 && es != [] {
      var rest := es[1..];
      var cut := es[..Min(turns, |es|)];
      assert cut[1..] == rest[..Min(turns - 1, |rest|)];
      if es[0].Pad? {
        assert rest == Entries(pkt, pos + 1);
        WalkIsPrefixReading(pkt, pos + 1, turns - 1, f);
        if !Fits(pkt, pos, 2) { assert rest == []; }
      } else {
        assert rest == Entries(pkt, pos + 2 + es[0].len);
        WalkIsPrefixReading(pkt, pos + 2 + es[0].len, turns - 1, Absorb(pkt, es[0], f));
        if !Fits(pkt, pos + 2, 1) { assert rest == []; }
      }
    }
  }

  /** A list of at most 48 entries is read completely. */
  lemma ShortListIsReadWhole(pkt: seq<Byte>, pos: nat, f: Fields)
    requires |Entries(pkt, pos)| <= 48
    ensures Walk(pkt, pos, MAX_ENTRIES, f) == Interpret(pkt, Entries(pkt, pos), f)
  {
    WalkIsPrefixReading(pkt, pos, MAX_ENTRIES, f);
    assert Entries(pkt, pos)[..|Entries(pkt, pos)|] == Entries(pkt, pos);
  }

  lemma {:induction false} InterpretSplit(pkt: seq<Byte>, a: seq<Entry>, b: seq<Entry>, f: Fields)
    ensures Interpret(pkt, a + b, f) == Interpret(pkt, b, Interpret(pkt, a, f))
  {
    if a == [] {
      assert a + b == b;
    } else {
      assert (a + b)[1..] == a[1..] + b;
      InterpretSplit(pkt, a[1..], b, Absorb(pkt, a[0], f));
    }
  }

  /** Entries of the other kinds leave a field alone. */
  lemma {:induction false} Untouched(pkt: seq<Byte>, es: seq<Entry>, f: Fields)
    ensures (forall e :: e in es ==> !IsType(pkt, e)) ==> Interpret(pkt, es, f).msgType == f.msgType
    ensures (forall e :: e in es ==> !IsVendor(e)) ==> Interpret(pkt, es, f).vendor == f.vendor
    ensures (forall e :: e in es ==> !IsRequest(pkt, e)) ==>
              Interpret(pkt, es, f).requested == f.requested && Interpret(pkt, es, f).requestedLen == f.requestedLen
  {
    if es == [] {
    } else {
      assert es == [es[0]] + es[1..];
      Untouched(pkt, es[1..], Absorb(pkt, es[0], f));
    }
  }

  /** The vendor bytes are the value of `e`, zero from its length on, or all zero if its window left the packet. */
  ghost predicate DecidesVendor(pkt: seq<Byte>, e: Entry, r: Fields)
    requires IsVendor(e)
  {
    && |r.vendor| == 32
    && (forall k :: Min(e.len, 32) <= k < 32 ==> r.vendor[k] == 0)
    && (Fits(pkt, e.at, 32) ==>
          forall k :: 0 <= k < Min(e.len, 32) ==> r.vendor[k] == pkt[e.at + k])
    && (!Fits(pkt, e.at, 32) ==> forall k :: 0 <= k < 32 ==> r.vendor[k] == 0)
  }

  ghost predicate DecidesRequest(pkt: seq<Byte>, e: Entry, r: Fields)
    requires IsRequest(pkt, e)
  {
    r.requested == pkt[e.at..e.at + 12] && r.requestedLen == Min(e.len, 12)
  }

  /**
   Each field comes from the last option of its kind. The vendor bytes are that option's value up
   to min(length, 32) and zero after it, so nothing of the next option shows through; a last option
   whose window leaves the packet erases what an earlier one left.
   */
  lemma LastOccurrenceWins(pkt: seq<Byte>, before: seq<Entry>, e: Entry, after: seq<Entry>, f: Fields)
    ensures var r := Interpret(pkt, before + [e] + after, f);
            && (IsType(pkt, e) && (forall x :: x in after ==> !IsType(pkt, x)) ==> r.msgType == pkt[e.at])
            && (IsRequest(pkt, e) && (forall x :: x in after ==> !IsRequest(pkt, x)) ==> DecidesRequest(pkt, e, r))
            && (IsVendor(e) && (forall x :: x in after ==> !IsVendor(x)) ==> DecidesVendor(pkt, e, r))
  {
    var mid := Interpret(pkt, before, f);
    InterpretSplit(pkt, before + [e], after, f);
    InterpretSplit(pkt, before, [e], f);
    assert [e][1..] == [];
    assert Interpret(pkt, [e], mid) == Absorb(pkt, e, mid);
    Untouched(pkt, after, Absorb(pkt, e, mid));
  }

  /** The entries of the packet's list that the walk gets to. */
  function Reached(pkt: seq<Byte>, off: nat): seq<Entry> {
    var es := Entries(pkt, off + OPTIONS_AT);
    es[..Min(48, |es|)]
  }

  /**
   What the walk leaves of a packet: each field is decided by the last entry of its kind among the
   first 48 ...
   */
  lemma WalkFields(pkt: seq<Byte>, off: nat, f: Fields, i: nat)
    requires i < |Reached(pkt, off)|
    ensures var es, r := Reached(pkt, off), Walk(pkt, off + OPTIONS_AT, MAX_ENTRIES, f);
            && (IsType(pkt, es[i]) && (forall x :: x in es[i + 1..] ==> !IsType(pkt, x)) ==> r.msgType == pkt[es[i].at])
            && (IsRequest(pkt, es[i]) && (forall x :: x in es[i + 1..] ==> !IsRequest(pkt, x)) ==>
                  DecidesRequest(pkt, es[i], r))
            && (IsVendor(es[i]) && (forall x :: x in es[i + 1..] ==> !IsVendor(x)) ==> DecidesVendor(pkt, es[i], r))
  {
    var es := Reached(pkt, off);
    WalkIsPrefixReading(pkt, off + OPTIONS_AT, MAX_ENTRIES, f);
    assert es == es[..i] + [es[i]] + es[i + 1..];
    LastOccurrenceWins(pkt, es[..i], es[i], es[i + 1..], f);
  }

  /** ... and is as the caller left it when there is none. */
  lemma WalkLeavesRest(pkt: seq<Byte>, off: nat, f: Fields)
    ensures var es, r := Reached(pkt, off), Walk(pkt, off + OPTIONS_AT, MAX_ENTRIES, f);
            && ((forall e :: e in es ==> !IsType(pkt, e)) ==> r.msgType == f.msgType)
            && ((forall e :: e in es ==> !IsRequest(pkt, e)) ==>
                  r.requested == f.requested && r.requestedLen == f.requestedLen)
            && ((forall e :: e in es ==> !IsVendor(e)) ==> r.vendor == f.vendor)
  {
    WalkIsPrefixReading(pkt, off + OPTIONS_AT, MAX_ENTRIES, f);
    Untouched(pkt, Reached(pkt, off), f);
  }

  // ---------------------------------------------------------------- packets as they are written

  datatype Item = PadItem | Option(code: Byte, data: seq<Byte>)

  predicate ValidItem(x: Item) { x.Option? ==> 0 < x.code < 255 && |x.data| < 256 }

  ghost predicate AllValid(xs: seq<Item>) { forall x :: x in xs ==> ValidItem(x) }

  function Write(x: Item): seq<Byte>
    requires ValidItem(x)
  {
    match x
    case PadItem => [0]
    case Option(code, data) => [code, |data|] + data
  }

  ghost function WriteAll(xs: seq<Item>): seq<Byte>
    requires AllValid(xs)
  {
    if xs == [] then [] else Write(xs[0]) + WriteAll(xs[1..])
  }

  /** The entry is this item, with its data at the place the entry gives. */
  ghost predicate IsItem(pkt: seq<Byte>, e: Entry, x: Item) {
    match x
    case PadItem => e == Pad
    case Option(code, data) =>
      e.Opt? && e.code == code && e.len == |data| && Fits(pkt, e.at, e.len) && pkt[e.at..e.at + e.len] == data
  }

  ghost predicate AreItems(pkt: seq<Byte>, es: seq<Entry>, xs: seq<Item>) {
    |es| == |xs| && forall i :: 0 <= i < |xs| ==> IsItem(pkt, es[i], xs[i])
  }

  lemma ItemsCons(pkt: seq<Byte>, es: seq<Entry>, xs: seq<Item>)
    requires es != [] && xs != [] && IsItem(pkt, es[0], xs[0]) && AreItems(pkt, es[1..], xs[1..])
    ensures AreItems(pkt, es, xs)
  {
    assert forall i :: 1 <= i < |xs| ==> es[i] == es[1..][i - 1] && xs[i] == xs[1..][i - 1];
  }

  predicate Holds(pkt: seq<Byte>, pos: nat, b: seq<Byte>) { pos + |b| <= |pkt| && pkt[pos..pos + |b|] == b }

  /** The items stand one after the other from `pos` on, closed by the end mark. */
  ghost predicate Written(pkt: seq<Byte>, pos: nat, xs: seq<Item>)
    decreases |xs|
  {
    if xs == [] then pos < |pkt| && pkt[pos] == 255
    else ValidItem(xs[0]) && Holds(pkt, pos, Write(xs[0])) && Written(pkt, pos + |Write(xs[0])|, xs[1..])
  }

  lemma HoldsSplit(pkt: seq<Byte>, pos: nat, a: seq<Byte>, b: seq<Byte>)
    requires pos <= |pkt| && pkt[pos..] == a + b
    ensures Holds(pkt, pos, a) && pkt[pos + |a|..] == b
  {
    assert pkt[pos..pos + |a|] == pkt[pos..][..|a|];
    assert pkt[pos + |a|..] == pkt[pos..][|a|..];
  }

  /** The bytes from `pos` on are the items and then `end`. */
  ghost predicate Spells(pkt: seq<Byte>, pos: nat, xs: seq<Item>, end: seq<Byte>) {
    AllValid(xs) && pos <= |pkt| && pkt[pos..] == WriteAll(xs) + end
  }

  lemma {:induction false} WrittenOut(pkt: seq<Byte>, pos: nat, xs: seq<Item>, end: seq<Byte>)
    requires Spells(pkt, pos, xs, end) && end != [] && end[0] == 255
    ensures Written(pkt, pos, xs)
    decreases |xs|
  {
    if xs == [] {
      assert pkt[pos..][0] == 255;
    } else {
      HeadWritten(pkt, pos, xs, end);
      WrittenOut(pkt, pos + |Write(xs[0])|, xs[1..], end);
      WrittenCons(pkt, pos, xs);
    }
  }

  lemma HeadWritten(pkt: seq<Byte>, pos: nat, xs: seq<Item>, end: seq<Byte>)
    requires Spells(pkt, pos, xs, end) && xs != []
    ensures ValidItem(xs[0]) && Holds(pkt, pos, Write(xs[0])) && Spells(pkt, pos + |Write(xs[0])|, xs[1..], end)
  {
    WriteCons(xs, end);
    HoldsSplit(pkt, pos, Write(xs[0]), WriteAll(xs[1..]) + end);
  }

  lemma WrittenCons(pkt: seq<Byte>, pos: nat, xs: seq<Item>)
    requires xs != [] && ValidItem(xs[0])
    ensures Written(pkt, pos, xs) <==> Holds(pkt, pos, Write(xs[0])) && Written(pkt, pos + |Write(xs[0])|, xs[1..])
  {
  }

  lemma WriteCons(xs: seq<Item>, end: seq<Byte>)
    requires xs != [] && AllValid(xs)
    ensures ValidItem(xs[0]) && AllValid(xs[1..])
    ensures WriteAll(xs) + end == Write(xs[0]) + (WriteAll(xs[1..]) + end)
  {
    var a, b := Write(xs[0]), WriteAll(xs[1..]);
    assert (a + b) + end == a + (b + end);
  }

  lemma {:induction false} EntriesReadBack(pkt: seq<Byte>, pos: nat, xs: seq<Item>)
    requires Written(pkt, pos, xs)
    ensures AreItems(pkt, Entries(pkt, pos), xs)
    decreases |xs|
  {
    if xs == [] {
    } else {
      WrittenCons(pkt, pos, xs);
      EntriesReadBack(pkt, pos + |Write(xs[0])|, xs[1..]);
      EntriesStep(pkt, pos, xs);
    }
  }

  lemma EntriesStep(pkt: seq<Byte>, pos: nat, xs: seq<Item>)
    requires xs != [] && ValidItem(xs[0]) && Holds(pkt, pos, Write(xs[0]))
    requires AreItems(pkt, Entries(pkt, pos + |Write(xs[0])|), xs[1..])
    ensures AreItems(pkt, Entries(pkt, pos), xs)
  {
    HeadItem(pkt, pos, xs[0]);
    ItemsCons(pkt, Entries(pkt, pos), xs);
  }

  lemma HeadItem(pkt: seq<Byte>, pos: nat, x: Item)
    requires ValidItem(x) && Holds(pkt, pos, Write(x))
    ensures var es := Entries(pkt, pos);
            es != [] && IsItem(pkt, es[0], x) && es[1..] == Entries(pkt, pos + |Write(x)|)
  {
    forall i | 0 <= i < |Write(x)| ensures pkt[pos + i] == Write(x)[i] {
      assert pkt[pos..pos + |Write(x)|][i] == Write(x)[i];
    }
    match x {
      case PadItem =>
        assert pkt[pos + 0] == Write(x)[0];
      case Option(code, data) =>
        OptionAt(pkt, pos, code, data);
    }
  }

  lemma OptionAt(pkt: seq<Byte>, pos: nat, code: Byte, data: seq<Byte>)
    requires 0 < code < 255 && |data| < 256 && pos + 2 + |data| <= |pkt|
    requires forall i :: 0 <= i < |data| + 2 ==> pkt[pos + i] == ([code, |data|] + data)[i]
    ensures var es := Entries(pkt, pos);
            es != [] && IsItem(pkt, es[0], Option(code, data)) && es[1..] == Entries(pkt, pos + 2 + |data|)
  {
    var whole := [code, |data|] + data;
    assert pkt[pos + 0] == whole[0] && pkt[pos + 1] == whole[1];
    forall k | 0 <= k < |data| ensures pkt[pos + 2 + k] == data[k] {
      assert pkt[pos + (k + 2)] == whole[k + 2];
    }
    assert pkt[pos + 2..pos + 2 + |data|] == data;
  }

  /** A packet is taken for a DHCP message exactly by the cookie after the 236 octets of the fixed header. */
  lemma CookieDecides(pkt: seq<Byte>, off: nat)
    ensures IsDhcp(pkt, off) <==>
            && off + 240 <= |pkt|
            && pkt[off + 236] == 99 && pkt[off + 237] == 130 && pkt[off + 238] == 83 && pkt[off + 239] == 99
  {
    if off + 240 <= |pkt| {
      var s := pkt[off + 236..off + 240];
      assert s == [pkt[off + 236], pkt[off + 237], pkt[off + 238], pkt[off + 239]];
    }
  }

  lemma CookieAt(front: seq<Byte>, header: seq<Byte>, tail: seq<Byte>)
    requires |header| == 236
    ensures IsDhcp(front + header + [99, 130, 83, 99] + tail, |front|)
  {
    var pkt := front + header + [99, 130, 83, 99] + tail;
    assert pkt[|front| + 236..|front| + 240] == [99, 130, 83, 99];
  }

  /**
   A DHCP message as RFC 2131 and RFC 2132 lay it out, the fixed header, the cookie, the options and the end
   mark, is recognised, and its list reads back as the options that were written.
   */
  lemma MessageReadsBack(front: seq<Byte>, header: seq<Byte>, xs: seq<Item>, post: seq<Byte>)
    requires |header| == 236 && AllValid(xs)
    ensures var pkt := front + header + [99, 130, 83, 99] + (WriteAll(xs) + ([255] + post));
            IsDhcp(pkt, |front|) && AreItems(pkt, Entries(pkt, |front| + OPTIONS_AT), xs)
  {
    var pre := front + header + [99, 130, 83, 99];
    var pkt := pre + (WriteAll(xs) + ([255] + post));
    assert pkt[|pre|..] == WriteAll(xs) + ([255] + post);
    WrittenOut(pkt, |pre|, xs, [255] + post);
    EntriesReadBack(pkt, |pre|, xs);
    CookieAt(front, header, WriteAll(xs) + ([255] + post));
  }

  /** The last option of this code with any data. */
  ghost predicate IsLastOf(xs: seq<Item>, i: nat, code: Byte) {
    && i < |xs| && xs[i].Option? && xs[i].code == code && xs[i].data != []
    && forall j :: i < j < |xs| ==> !(xs[j].Option? && xs[j].code == code && xs[j].data != [])
  }

  /**
   What the filter reports of a written message with at most 48 items: the message type is the first octet of
   the last option 53; the vendor bytes are the data of the last option 60 up to 32 and zero after it; the
   request list starts with the data of the last option 55 up to 12. Options 60 and 55 need the packet to
   go on for their whole window.
   */
  lemma MessageFields(pkt: seq<Byte>, off: nat, xs: seq<Item>, i: nat, f: Fields)
    requires |xs| <= 48 && AreItems(pkt, Entries(pkt, off + OPTIONS_AT), xs)
    ensures var r := Walk(pkt, off + OPTIONS_AT, MAX_ENTRIES, f);
            && (IsLastOf(xs, i, 53) ==> r.msgType == xs[i].data[0])
            && (IsLastOf(xs, i, 60) && Fits(pkt, Entries(pkt, off + OPTIONS_AT)[i].at, 32) ==>
                  && |r.vendor| == 32
                  && forall k :: 0 <= k < 32 ==> r.vendor[k] == if k < |xs[i].data| then xs[i].data[k] else 0)
            && (IsLastOf(xs, i, 55) && Fits(pkt, Entries(pkt, off + OPTIONS_AT)[i].at, 12) ==>
                  && |r.requested| == 12 && r.requestedLen == Min(|xs[i].data|, 12)
                  && forall k :: 0 <= k < r.requestedLen ==> r.requested[k] == xs[i].data[k])
  {
    var es := Entries(pkt, off + OPTIONS_AT);
    assert Reached(pkt, off) == es;
    if i < |xs| {
      WalkFields(pkt, off, f, i);
      NoLater(pkt, es, xs, i);
      if xs[i].Option? { ItemBytes(pkt, es[i], xs[i]); }
    }
  }

  lemma NoLater(pkt: seq<Byte>, es: seq<Entry>, xs: seq<Item>, i: nat)
    requires AreItems(pkt, es, xs) && i < |xs|
    ensures IsLastOf(xs, i, 53) ==> IsType(pkt, es[i]) && forall x :: x in es[i + 1..] ==> !IsType(pkt, x)
    ensures IsLastOf(xs, i, 60) ==> IsVendor(es[i]) && forall x :: x in es[i + 1..] ==> !IsVendor(x)
    ensures IsLastOf(xs, i, 55) && Fits(pkt, es[i].at, 12) ==>
              IsRequest(pkt, es[i]) && forall x :: x in es[i + 1..] ==> !IsRequest(pkt, x)
  {
    assert IsItem(pkt, es[i], xs[i]);
    forall x | x in es[i + 1..]
      ensures IsLastOf(xs, i, 53) ==> !IsType(pkt, x)
      ensures IsLastOf(xs, i, 60) ==> !IsVendor(x)
      ensures IsLastOf(xs, i, 55) ==> !IsRequest(pkt, x)
    {
      var k :| 0 <= k < |es[i + 1..]| && es[i + 1..][k] == x;
      assert es[i + 1 + k] == x && IsItem(pkt, x, xs[i + 1 + k]);
    }
  }

  lemma ItemBytes(pkt: seq<Byte>, e: Entry, x: Item)
    requires x.Option? && IsItem(pkt, e, x)
    ensures forall k :: 0 <= k < |x.data| ==> pkt[e.at + k] == x.data[k]
  {
    forall k | 0 <= k < |x.data| ensures pkt[e.at + k] == x.data[k] {
      assert pkt[e.at..e.at + e.len][k] == x.data[k];
    }
  }
}
