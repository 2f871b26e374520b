/** The soft bus table: ten slots of fifty devices in fixed memory, refilled in place by every message
    of the platform. What the message does not write stays from the message before. */
module SoftBusTable {
  import opened CString

  const TOTAL_LEN: nat := 10   // SOFTBUS_TOTAL_LEN
  const INFO_LEN: nat := 50    // SOFTBUS_INFO_LEN
  const MISSING: string := "-1"

  // ----- the table; a null pointer is None -----

  datatype Device = Device(id: Option<string>, ip: Option<string>)

  type Devices = d: seq<Device> | |d| == INFO_LEN witness seq(INFO_LEN, _ => Device(None, None))

  datatype Slot = Slot(count: nat, key: Option<string>, busId: Option<string>, devices: Devices)

  datatype Table = Table(slots: seq<Slot>, count: nat)

  predicate WellFormed(t: Table) {
    && |t.slots| == TOTAL_LEN && t.count <= TOTAL_LEN
    && forall i :: 0 <= i < TOTAL_LEN ==> t.slots[i].count <= INFO_LEN
  }

  const EMPTY_SLOT := Slot(0, None, None, seq(INFO_LEN, _ => Device(None, None)))

  /** The table in static memory. */
  function Zeroed(): (t: Table)
    ensures WellFormed(t)
  {
    Table(seq(TOTAL_LEN, _ => EMPTY_SLOT), 0)
  }

  /** The devices a bus counts. */
  function Members(t: Table, k: nat): seq<Device>
    requires WellFormed(t) && k < TOTAL_LEN
  {
    t.slots[k].devices[..t.slots[k].count]
  }

  /** The device in the first place, counted or not. */
  function Head(t: Table, k: nat): Option<string>
    requires WellFormed(t) && k < TOTAL_LEN
  {
    t.slots[k].devices[0].id
  }

  // ----- the message; an absent field is None -----

  datatype DeviceInfo = DeviceInfo(id: Option<string>, ip: Option<string>)
  datatype BusInfo = BusInfo(key: Option<string>, busId: Option<string>, devices: seq<DeviceInfo>)

  function Field(f: Option<string>): string {
    if f.Some? then f.value else MISSING
  }

  /** CombineStrings of one string: a copy, or null for the empty string. */
  function Combine(s: string): Option<string> {
    if s == "" then None else Some(s)
  }

  predicate Usable(d: DeviceInfo) {
    Field(d.id) != MISSING && Field(d.ip) != MISSING
  }

  /** What is kept of one device: an entry if it is usable. */
  function KeptOne(d: DeviceInfo): (kept: seq<Device>)
    ensures |kept| <= 1
  {
    if Usable(d) then [Device(Combine(Field(d.id)), Combine(Field(d.ip)))] else []
  }

  /** The usable devices among the first `n` of a bus, in order. */
  function KeptOf(ds: seq<DeviceInfo>, n: nat): (kept: seq<Device>)
    requires n <= |ds|
    ensures |kept| <= n
  {
    if n == 0 then [] else KeptOf(ds, n - 1) + KeptOne(ds[n - 1])
  }

  /** Those of them there is room for. */
  function Stored(ds: seq<DeviceInfo>): (stored: seq<Device>)
    ensures |stored| <= INFO_LEN
  {
    var kept := KeptOf(ds, |ds|);
    if |kept| <= INFO_LEN then kept else kept[..INFO_LEN]
  }

  function Overlay(prior: Devices, stored: seq<Device>): Devices
    requires |stored| <= INFO_LEN
  {
    stored + prior[|stored|..]
  }

  function Loaded(bs: seq<BusInfo>): nat {
    if |bs| < TOTAL_LEN then |bs| else TOTAL_LEN
  }

  /** What a message makes of slot `i`. The loop leaves before it names the bus in the last slot. */
  function LoadSlot(s: Slot, b: BusInfo, i: nat): Slot {
    var stored := Stored(b.devices);
    var filled := s.(count := |stored|, devices := Overlay(s.devices, stored));
    if i + 1 < TOTAL_LEN then filled.(key := Combine(Field(b.key)), busId := Combine(Field(b.busId))) else filled
  }

  /** What a message makes of the table. */
  function Load(t: Table, bs: seq<BusInfo>): (u: Table)
    requires WellFormed(t)
    ensures WellFormed(u)
  {
    Table(seq(TOTAL_LEN, i requires 0 <= i < TOTAL_LEN =>
                if i < Loaded(bs) then LoadSlot(t.slots[i], bs[i], i) else t.slots[i]),
          Loaded(bs))
  }

  /** The next device of a message is stored behind the ones before it. */
  lemma OverlayNext(prior: Devices, ds: seq<DeviceInfo>, m: nat)
    requires m < |ds| && |KeptOf(ds, m)| < INFO_LEN
    ensures |KeptOf(ds, m + 1)| == |KeptOf(ds, m)| + |KeptOne(ds[m])|
    ensures var now := Overlay(prior, KeptOf(ds, m));
            Overlay(prior, KeptOf(ds, m + 1)) ==
            if Usable(ds[m]) then now[|KeptOf(ds, m)| := KeptOne(ds[m])[0]] else now
  {
    OverlayOne(prior, KeptOf(ds, m), ds[m]);
  }

  lemma OverlayOne(prior: Devices, stored: seq<Device>, d: DeviceInfo)
    requires |stored| < INFO_LEN
    ensures Overlay(prior, stored + KeptOne(d)) ==
            if Usable(d) then Overlay(prior, stored)[|stored| := KeptOne(d)[0]] else Overlay(prior, stored)
  {
    if !Usable(d) {
      assert stored + KeptOne(d) == stored;
    }
  }

  /** When the room is used up, what is stored is decided. */
  lemma StoredWhenFull(ds: seq<DeviceInfo>, m: nat)
    requires m <= |ds| && |KeptOf(ds, m)| == INFO_LEN
    ensures Stored(ds) == KeptOf(ds, m)
  {
    KeptPrefix(ds, m, |ds|);
  }

  lemma {:induction false} KeptPrefix(ds: seq<DeviceInfo>, m: nat, n: nat)
    requires m <= n <= |ds|
    ensures KeptOf(ds, m) <= KeptOf(ds, n)
  {
    if m < n {
      KeptPrefix(ds, m, n - 1);
    }
  }

  // ----- what is kept, place by place -----

  /** The places, among the first `n`, of the devices that give both fields, neither of them as "-1". */
  function UsablePlaces(ds: seq<DeviceInfo>, n: nat): seq<nat>
    requires n <= |ds|
  {
    if n == 0 then []
    else
      var d := ds[n - 1];
      UsablePlaces(ds, n - 1)
      + if d.id.Some? && d.id.value != "-1" && d.ip.Some? && d.ip.value != "-1" then [n - 1] else []
  }

  /** These places increase and are complete. */
  lemma {:induction false} UsablePlacesInOrder(ds: seq<DeviceInfo>, n: nat)
    requires n <= |ds|
    ensures var ps := UsablePlaces(ds, n);
            && (forall i :: 0 <= i < |ps| ==> ps[i] < n)
            && (forall i, j :: 0 <= i < j < |ps| ==> ps[i] < ps[j])
            && (forall p: nat :: p < n ==>
                  (p in ps <==> ds[p].id.Some? && ds[p].id.value != "-1" && ds[p].ip.Some? && ds[p].ip.value != "-1"))
  {
    if n > 0 {
      UsablePlacesInOrder(ds, n - 1);
    }
  }

  /** `e` is the entry of device `d`: its fields, and a null pointer for an empty one. */
  predicate EntryOf(e: Device, d: DeviceInfo) {
    && d.id.Some? && e.id == (if d.id.value == "" then None else Some(d.id.value))
    && d.ip.Some? && e.ip == (if d.ip.value == "" then None else Some(d.ip.value))
  }

  /** The `i`-th entry kept is that of the device in the `i`-th of these places, and no other is kept. */
  lemma {:induction false} KeptPlaceByPlace(ds: seq<DeviceInfo>, n: nat)
    requires n <= |ds|
    ensures var kept, ps := KeptOf(ds, n), UsablePlaces(ds, n);
            |kept| == |ps| && forall i :: 0 <= i < |ps| ==> ps[i] < n && EntryOf(kept[i], ds[ps[i]])
  {
    if n > 0 {
      KeptPlaceByPlace(ds, n - 1);
    }
  }

  /** The first fifty of them are stored. */
  lemma StoredPlaceByPlace(ds: seq<DeviceInfo>)
    ensures var stored, ps := Stored(ds), UsablePlaces(ds, |ds|);
            && |stored| == (if |ps| <= 50 then |ps| else 50)
            && forall i :: 0 <= i < |stored| ==> ps[i] < |ds| && EntryOf(stored[i], ds[ps[i]])
  {
    KeptPlaceByPlace(ds, |ds|);
  }

  /** The message alone decides whom a bus counts: the devices in the first fifty usable places of the
      message, in order, and nothing of an older message. */
  lemma MembersAreTheMessage(t: Table, bs: seq<BusInfo>, k: nat)
    requires WellFormed(t) && k < Loaded(bs)
    ensures var members, ds := Members(Load(t, bs), k), bs[k].devices;
            var ps := UsablePlaces(ds, |ds|);
            && |members| == (if |ps| <= 50 then |ps| else 50)
            && forall i :: 0 <= i < |members| ==> ps[i] < |ds| && EntryOf(members[i], ds[ps[i]])
    ensures Members(Load(t, bs), k) == Stored(bs[k].devices)
    ensures Stored(bs[k].devices) != [] ==> Head(Load(t, bs), k) == Stored(bs[k].devices)[0].id
    ensures Stored(bs[k].devices) == [] ==> Head(Load(t, bs), k) == Head(t, k)
  {
    var stored := Stored(bs[k].devices);
    assert Overlay(t.slots[k].devices, stored)[..|stored|] == stored;
    StoredPlaceByPlace(bs[k].devices);
  }

  // ----- messages in a row -----

  type Message = Option<seq<BusInfo>>

  /** The table after a run of messages; a message without bus list changes nothing. */
  function TableAfter(ms: seq<Message>): (t: Table)
    ensures WellFormed(t)
  {
    if ms == [] then Zeroed()
    else
      var before := TableAfter(ms[..|ms| - 1]);
      var m := ms[|ms| - 1];
      if m.Some? then Load(before, m.value) else before
  }

  /** The bus list in force: that of the last message with one. */
  function LastList(ms: seq<Message>): seq<BusInfo> {
    if ms == [] then []
    else if ms[|ms| - 1].Some? then ms[|ms| - 1].value
    else LastList(ms[..|ms| - 1])
  }

  /** What the last message that listed bus `k` said about it. */
  function LastListing(ms: seq<Message>, k: nat): Option<BusInfo> {
    if ms == [] then None
    else
      var m := ms[|ms| - 1];
      if m.Some? && k < Loaded(m.value) then Some(m.value[k]) else LastListing(ms[..|ms| - 1], k)
  }

  /** A message lists more than `j` usable devices for bus `k`. */
  predicate Reaches(m: Message, k: nat, j: nat) {
    m.Some? && k < Loaded(m.value) && j < |Stored(m.value[k].devices)|
  }

  /** What the last message that reached place `j` of bus `k` put there. */
  function ListedDevice(ms: seq<Message>, k: nat, j: nat): Device {
    if ms == [] then Device(None, None)
    else
      var m := ms[|ms| - 1];
      if Reaches(m, k, j) then Stored(m.value[k].devices)[j] else ListedDevice(ms[..|ms| - 1], k, j)
  }

  /** The first usable device of bus `k` in the last message that lists one. */
  function ListedHead(ms: seq<Message>, k: nat): Option<string> {
    ListedDevice(ms, k, 0).id
  }

  /** A name as it is stored: "-1" where the message has none, and a null pointer for an empty one. */
  predicate NamedAs(stored: Option<string>, f: Option<string>) {
    match f
    case None => stored == Some("-1")
    case Some(name) => stored == if name == "" then None else Some(name)
  }

  /** The whole table after any run of messages, counted or not. How many buses count is said by the last
      list; a slot is named and counted by the last message that listed its bus, the tenth is never named;
      and each place holds the device of the last message that reached it. */
  lemma {:induction false} TableOfTheMessages(ms: seq<Message>, k: nat, j: nat)
    requires k < 10 && j < 50
    ensures TableAfter(ms).count == if |LastList(ms)| <= 10 then |LastList(ms)| else 10
    ensures TableAfter(ms).slots[k].devices[j] == ListedDevice(ms, k, j)
    ensures var s, b := TableAfter(ms).slots[k], LastListing(ms, k);
            && s.count == (if b.Some? then |Stored(b.value.devices)| else 0)
            && (b.Some? && k < 9 ==> NamedAs(s.key, b.value.key) && NamedAs(s.busId, b.value.busId))
            && (b.None? || k == 9 ==> s.key == None && s.busId == None)
  {
    if ms != [] {
      TableOfTheMessages(ms[..|ms| - 1], k, j);
    }
  }

  /** A bus of the last list was listed last by that list. */
  lemma {:induction false} ListedInForce(ms: seq<Message>, k: nat)
    requires k < Loaded(LastList(ms))
    ensures LastListing(ms, k) == Some(LastList(ms)[k])
    ensures Stored(LastList(ms)[k].devices) != [] ==> ListedHead(ms, k) == Stored(LastList(ms)[k].devices)[0].id
  {
    if ms[|ms| - 1].None? {
      ListedInForce(ms[..|ms| - 1], k);
    }
  }

  /** Members and names of the counted buses are those of the last list; heads can be older. */
  lemma {:induction false} BusesInForce(ms: seq<Message>, k: nat)
    requires k < TOTAL_LEN
    ensures var t, bs := TableAfter(ms), LastList(ms);
            && t.count == Loaded(bs)
            && Head(t, k) == ListedHead(ms, k)
            && (k < Loaded(bs) ==> Members(t, k) == Stored(bs[k].devices))
            && (k < Loaded(bs) && k < TOTAL_LEN - 1 ==> t.slots[k].key == Combine(Field(bs[k].key)))
            && (k == TOTAL_LEN - 1 ==> t.slots[k].key.None?)
  {
    TableOfTheMessages(ms, k, 0);
    if k < Loaded(LastList(ms)) {
      ListedInForce(ms, k);
      MembersInForce(ms, k);
    }
  }

  lemma {:induction false} MembersInForce(ms: seq<Message>, k: nat)
    requires k < Loaded(LastList(ms))
    ensures Members(TableAfter(ms), k) == Stored(LastList(ms)[k].devices)
  {
    var n := |ms| - 1;
    if ms[n].None? {
      MembersInForce(ms[..n], k);
    } else {
      MembersAreTheMessage(TableAfter(ms[..n]), ms[n].value, k);
    }
  }

  /** Every counted bus has a head to compare. */
  ghost predicate HasHeads(t: Table)
    requires WellFormed(t)
  {
    forall k: nat :: k < t.count ==> Head(t, k).Some?
  }

  /** For each bus of the list in force the last message that listed a usable device put one with a
      non-empty id first. */
  ghost predicate ListsHeads(ms: seq<Message>) {
    forall k: nat :: k < Loaded(LastList(ms)) ==> ListedHead(ms, k).Some?
  }

  /** The messages alone decide whether every counted bus has a head. */
  lemma EveryBusHasAHeadExactly(ms: seq<Message>)
    ensures HasHeads(TableAfter(ms)) <==> ListsHeads(ms)
  {
    var t := TableAfter(ms);
    BusesInForce(ms, 0);
    if k: nat :| k < Loaded(LastList(ms)) && ListedHead(ms, k).None? {
      BusesInForce(ms, k);
      assert Head(t, k).None?;
    } else {
      forall k: nat | k < t.count
        ensures Head(t, k).Some?
      {
        BusesInForce(ms, k);
      }
    }
  }

  /** A message whose buses all list a usable device, the first with a non-empty id, is enough. */
  lemma AFullListHasHeads(ms: seq<Message>, bs: seq<BusInfo>, k: nat)
    requires k < Loaded(bs) && Stored(bs[k].devices) != []
    ensures ListedHead(ms + [Some(bs)], k) == Stored(bs[k].devices)[0].id
  {
    assert Reaches(Some(bs), k, 0);
  }
}
