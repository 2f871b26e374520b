/** One device of a soft bus: its copy of the table, the messages that refill it, and what it does
    with the table: take a role, broadcast, look up keys. */
module SoftBusNode {
  import opened CString
  import opened SoftBusTable

  const UNSET: int := -1
  const INIT_SERVICE: int := 0
  const INIT_CLIENT: int := 1

  type uint32 = x: int | 0 <= x < 0x1_0000_0000

  /** A call returns, or it hands a null pointer to strcmp and nothing is promised any more. */
  datatype Outcome<+T> = Undefined | Returned(value: T)

  /** A uint32_t code returned as int. */
  function ToInt(code: uint32): int {
    if code < 0x8000_0000 then code else code - 0x1_0000_0000
  }

  /** The code of the n-th call; the environment answers 0 where nothing else is given. */
  function Answer(answers: seq<uint32>, n: nat): uint32 {
    if n < |answers| then answers[n] else 0
  }

  datatype KitCall = Destroy | Server(ip: Option<string>) | Client(ip: Option<string>)
  datatype Sent = Sent(to: string, data: string, dataLen: int)

  // ----- what the operations compute -----

  predicate InRange(t: Table, k: int) {
    0 <= k < t.count
  }

  /** The devices a broadcast goes to, in table order: everybody with an id but the sender. */
  function Recipients(members: seq<Device>, own: string): seq<string> {
    if members == [] then []
    else
      var d := members[|members| - 1];
      Recipients(members[..|members| - 1], own) + if d.id.Some? && d.id.value != own then [d.id.value] else []
  }

  /** The device may broadcast on bus `k`: the bus exists and the device is its head. */
  predicate Leads(t: Table, own: string, k: int)
    requires WellFormed(t)
  {
    InRange(t, k) && Head(t, k) == Some(own)
  }

  /** What a broadcast to `n` devices returns: the code of the last call, read as a signed number of 32 bits,
      or 0 without a call. */
  predicate Returns(ret: int, n: nat, answers: seq<uint32>) {
    if n == 0 then ret == 0
    else
      var last: int := if n <= |answers| then answers[n - 1] else 0;
      -0x8000_0000 <= ret < 0x8000_0000 && (ret == last || ret == last - 0x1_0000_0000)
  }

  /** One call per device, in this order and with this data, behind what was sent before. */
  ghost predicate SentInOrder(before: seq<Sent>, sent: seq<Sent>, to: seq<string>, data: string, dataLen: int) {
    && |sent| == |before| + |to| && before <= sent
    && forall i :: 0 <= i < |to| ==> sent[|before| + i] == Sent(to[i], data, dataLen)
  }

  function Calls(ids: seq<string>, data: string, dataLen: int): seq<Sent> {
    if ids == [] then [] else Calls(ids[..|ids| - 1], data, dataLen) + [Sent(ids[|ids| - 1], data, dataLen)]
  }

  /** The first bus the device heads, looking at the first `n` buses. */
  function FirstBus(t: Table, id: string, n: nat): (r: Option<nat>)
    requires WellFormed(t) && n <= TOTAL_LEN
    ensures r.Some? ==> r.value < n && Head(t, r.value) == Some(id)
    ensures r.Some? ==> forall j :: 0 <= j < r.value ==> Head(t, j) != Some(id)
    ensures r.None? ==> forall j :: 0 <= j < n ==> Head(t, j) != Some(id)
  {
    if n == 0 then None
    else if FirstBus(t, id, n - 1).Some? then FirstBus(t, id, n - 1)
    else if Head(t, n - 1) == Some(id) then Some(n - 1)
    else None
  }

  function AuthKey(t: Table, id: string): Option<string>
    requires WellFormed(t)
  {
    var r := FirstBus(t, id, t.count);
    if r.Some? then t.slots[r.value].key else None
  }

  /** A bus whose head is null stands in front of the first bus the device heads. */
  ghost predicate NullInFront(t: Table, id: string)
    requires WellFormed(t)
  {
    exists i: nat :: i < t.count && Head(t, i).None? && FirstBus(t, id, i).None?
  }

  /** What the lookup of a key comes to: undefined with a null head in front, otherwise the key if any. */
  ghost function Lookup(t: Table, id: string): Outcome<Option<string>>
    requires WellFormed(t)
  {
    if NullInFront(t, id) then Undefined else Returned(AuthKey(t, id))
  }

  /** How many buses, of the first `n`, stand in front of the first one without head. */
  function Headed(t: Table, n: nat): (m: nat)
    requires WellFormed(t) && n <= TOTAL_LEN
    ensures m <= n && (m < n ==> Head(t, m).None?)
    ensures forall i: nat :: i < m ==> Head(t, i).Some?
  {
    if n == 0 then 0
    else
      var m := Headed(t, n - 1);
      if m == n - 1 && Head(t, m).Some? then n else m
  }

  /** What a broadcast on bus `k` sends. */
  function Broadcast(t: Table, own: string, k: int, data: Option<string>, dataLen: int): seq<Sent>
    requires WellFormed(t)
  {
    if data.Some? && dataLen > 0 && Leads(t, own, k)
    then Calls(Recipients(Members(t, k), own), data.value, dataLen)
    else []
  }

  class Node {
    const deviceId: string     // getDeviceId()
    const slots: array<Slot>   // g_soft_bus_total.g_soft_bus_info
    var count: nat             // g_soft_bus_total.count
    var softBusType: int
    var kits: seq<KitCall>
    var sent: seq<Sent>

    ghost function View(): Table
      reads this, slots
    {
      Table(slots[..], count)
    }

    ghost predicate Valid()
      reads this, slots
    {
      slots.Length == TOTAL_LEN && WellFormed(View())
    }

    constructor (deviceId: string)
      ensures Valid() && View() == Zeroed() && fresh(slots)
      ensures this.deviceId == deviceId && softBusType == UNSET && kits == [] && sent == []
    {
      this.deviceId := deviceId;
      slots := new Slot[TOTAL_LEN](_ => EMPTY_SLOT);
      count, softBusType, kits, sent := 0, UNSET, [], [];
      new;
      assert slots[..] == Zeroed().slots;
    }

    /** Stores one device of a message at place `j` of slot `i`, if it is usable; `k` is the next place. */
    method StoreDevice(i: nat, j: nat, d: DeviceInfo) returns (k: nat)
      requires i < slots.Length && j < INFO_LEN
      modifies slots
      ensures k == j + |KeptOne(d)|
      ensures slots[i] == old(slots[i]).(devices := if Usable(d) then old(slots[i].devices)[j := KeptOne(d)[0]]
                                                    else old(slots[i].devices))
      ensures forall x :: 0 <= x < slots.Length && x != i ==> slots[x] == old(slots[x])
    {
      var deviceId, deviceIp := Field(d.id), Field(d.ip);
      if deviceId == MISSING || deviceIp == MISSING {
        return j;
      }
      var entry := Device(Combine(deviceId), Combine(deviceIp));
      slots[i] := slots[i].(devices := slots[i].devices[j := entry]);
      return j + 1;
    }

    /** Refills the devices of slot `i` until the message or the room ends; `j` of them are new. */
    method LoadDevices(i: nat, devices: seq<DeviceInfo>) returns (j: nat)
      requires i < slots.Length
      modifies slots
      ensures j == |Stored(devices)|
      ensures slots[i] == old(slots[i]).(devices := Overlay(old(slots[i].devices), Stored(devices)))
      ensures forall x :: 0 <= x < slots.Length && x != i ==> slots[x] == old(slots[x])
    {
      j := 0;
      ghost var slot := slots[i];
      assert Overlay(slot.devices, KeptOf(devices, 0)) == slot.devices;
      for m := 0 to |devices|
        invariant j == |KeptOf(devices, m)| < INFO_LEN
        invariant slots[i] == slot.(devices := Overlay(slot.devices, KeptOf(devices, m)))
        invariant forall x :: 0 <= x < slots.Length && x != i ==> slots[x] == old(slots[x])
      {
        j := StoreDevice(i, j, devices[m]);
        OverlayNext(slot.devices, devices, m);
        if j >= INFO_LEN {
          StoredWhenFull(devices, m + 1);
          return;
        }
      }
    }

    /** Takes the table of a message over. The name of a bus is stored behind the test for the last slot. */
    method ParasToTotal(paras: Option<seq<BusInfo>>) returns (ret: int)
      requires Valid()
      modifies this`count, slots
      ensures Valid() && ret == if paras.None? then -1 else 0
      ensures View() == if paras.None? then old(View()) else Load(old(View()), paras.value)
    {
      if paras.None? {
        return -1;
      }
      var busInfos := paras.value;
      ghost var before := View();
      var i := 0;
      for m := 0 to |busInfos|
        invariant i == m < TOTAL_LEN || (m == 0 && i == 0)
        invariant forall x :: 0 <= x < TOTAL_LEN ==>
                    slots[x] == if x < i then LoadSlot(before.slots[x], busInfos[x], x) else before.slots[x]
      {
        var slot := i;
        var j := LoadDevices(slot, busInfos[m].devices);
        slots[slot] := slots[slot].(count := j);
        i := i + 1;
        if i >= TOTAL_LEN {
          break;
        }
        slots[slot] := slots[slot].(key := Combine(Field(busInfos[m].key)), busId := Combine(Field(busInfos[m].busId)));
      }
      count := i;
      assert slots[..] == Load(before, busInfos).slots;
      ret := 0;
    }

    /** Takes the role on one bus: the head serves, everybody else is a client. `code` is what the kit answers. */
    method SoftBusInit(softBusInfoNumber: int, code: int) returns (ret: Outcome<int>)
      requires Valid()
      modifies this`softBusType, this`kits
      ensures !(0 <= softBusInfoNumber < count) ==> ret == Returned(-1)
      ensures 0 <= softBusInfoNumber < count ==> (ret.Undefined? <==> slots[softBusInfoNumber].devices[0].id == None)
      ensures !(0 <= softBusInfoNumber < count) || ret.Undefined? ==>
                softBusType == old(softBusType) && kits == old(kits)
      ensures 0 <= softBusInfoNumber < count && ret.Returned? ==>
                var head := slots[softBusInfoNumber].devices[0];
                && ret.value == (if code == 0 then 0 else -1)
                && softBusType == (if head.id == Some(deviceId) then INIT_SERVICE else INIT_CLIENT)
                && kits == old(kits) + [if head.id == Some(deviceId) then Server(head.ip) else Client(head.ip)]
    {
      if softBusInfoNumber >= count || softBusInfoNumber < 0 {
        return Returned(-1);
      }
      var head := slots[softBusInfoNumber].devices[0];
      if head.id.None? {
        return Undefined;
      }
      if head.id.value == deviceId {
        kits := kits + [Server(head.ip)];
        softBusType := INIT_SERVICE;
      } else {
        kits := kits + [Client(head.ip)];
        softBusType := INIT_CLIENT;
      }
      if code != 0 {
        return Returned(-1);
      }
      return Returned(0);
    }

    /** Broadcasts on one bus. `answers` are the codes DConnSendData returns, call by call. */
    method SendDataToAllInfoDevice(softBusInfoNumber: int, data: Option<string>, dataLen: int, answers: seq<uint32>)
      returns (ret: int)
      requires Valid()
      modifies this`sent
      ensures sent == old(sent) + Broadcast(View(), deviceId, softBusInfoNumber, data, dataLen)
      ensures var k := softBusInfoNumber;
              var accepted := data.Some? && dataLen > 0 && 0 <= k < count && slots[k].devices[0].id == Some(deviceId);
              if !accepted then ret == -1 && sent == old(sent)
              else
                var to := Recipients(slots[k].devices[..slots[k].count], deviceId);
                SentInOrder(old(sent), sent, to, data.value, dataLen) && Returns(ret, |to|, answers)
    {
      if data.None? || dataLen <= 0 {
        return -1;
      }
      if softBusInfoNumber >= count || softBusInfoNumber < 0 || slots[softBusInfoNumber].devices[0].id.None? {
        return -1;
      }
      if slots[softBusInfoNumber].devices[0].id.value != deviceId {
        return -1;
      }
      var members := slots[softBusInfoNumber].devices[..slots[softBusInfoNumber].count];
      CallsInOrder(sent, Recipients(members, deviceId), data.value, dataLen);
      var code := SendToOthers(members, data.value, dataLen, answers);
      return ToInt(code);
    }

    /** The loop of a broadcast over the members of a bus; the last code wins. */
    method SendToOthers(members: seq<Device>, data: string, dataLen: int, answers: seq<uint32>) returns (code: uint32)
      modifies this`sent
      ensures var to := Recipients(members, deviceId);
              && sent == old(sent) + Calls(to, data, dataLen)
              && code == if to == [] then 0 else Answer(answers, |to| - 1)
    {
      code := 0;
      ghost var to := [];
      var n := 0;
      for j := 0 to |members|
        invariant to == Recipients(members[..j], deviceId) && n == |to|
        invariant sent == old(sent) + Calls(to, data, dataLen)
        invariant code == if n == 0 then 0 else Answer(answers, n - 1)
      {
        RecipientsNext(members, j, deviceId);
        var id := members[j].id;
        if id.None? || id.value == deviceId {
          continue;
        }
        CallsNext(old(sent), to, id.value, data, dataLen);
        DConnSendData(id.value, data, dataLen);
        to := to + [id.value];
        code := Answer(answers, n);
        n := n + 1;
      }
      assert members[..|members|] == members;
    }

    method DConnSendData(to: string, data: string, dataLen: int)
      modifies this`sent
      ensures sent == old(sent) + [Sent(to, data, dataLen)]
    {
      sent := sent + [Sent(to, data, dataLen)];
    }

    /** The key of the first bus the target heads, unless a head compared on the way is null. */
    method GetSlaveAuthKey(target: Option<string>) returns (key: Outcome<Option<string>>)
      requires Valid()
      ensures key == if target.None? then Returned(None) else Lookup(View(), target.value)
    {
      if target.None? {
        return Returned(None);
      }
      for i := 0 to count
        invariant FirstBus(View(), target.value, i).None?
        invariant forall x: nat :: x < i ==> Head(View(), x).Some?
      {
        var slaveDeviceId := slots[i].devices[0].id;
        if slaveDeviceId.None? {
          assert Head(View(), i).None?;
          return Undefined;
        }
        if slaveDeviceId.value != target.value {
          continue;
        }
        FirstBusStays(View(), target.value, i + 1, count);
        NothingInFront(View(), target.value, i);
        return Returned(slots[i].key);
      }
      return Returned(None);
    }

    /** The handler of a soft bus event: takes all connections down, then takes the role on every bus in
        turn, so the last bus decides the role the device remembers. It stops at a bus without head. */
    method HandleEventSoftBus(code: nat -> int) returns (done: bool)
      requires Valid()
      modifies this`softBusType, this`kits
      ensures done <==> HasHeads(View())
      ensures var n := Headed(View(), count);
              && |kits| == |old(kits)| + 1 + n && old(kits) + [Destroy] <= kits
              && (forall i: nat :: i < n ==>
                    kits[|old(kits)| + 1 + i] ==
                    if slots[i].devices[0].id == Some(deviceId) then Server(slots[i].devices[0].ip)
                    else Client(slots[i].devices[0].ip))
              && softBusType == if n == 0 then old(softBusType)
                                else if slots[n - 1].devices[0].id == Some(deviceId) then INIT_SERVICE else INIT_CLIENT
    {
      kits := kits + [Destroy];
      ghost var n := Headed(View(), count);
      for i := 0 to count
        invariant i <= n && |kits| == |old(kits)| + 1 + i && old(kits) + [Destroy] <= kits
        invariant forall x: nat :: x < i ==>
                    kits[|old(kits)| + 1 + x] ==
                    if slots[x].devices[0].id == Some(deviceId) then Server(slots[x].devices[0].ip)
                    else Client(slots[x].devices[0].ip)
        invariant softBusType == if i == 0 then old(softBusType)
                                 else if slots[i - 1].devices[0].id == Some(deviceId) then INIT_SERVICE else INIT_CLIENT
      {
        var ret := SoftBusInit(i, code(i));
        if ret.Undefined? {
          assert Head(View(), i).None?;
          return false;
        }
      }
      return true;
    }
  }

  lemma NothingInFront(t: Table, id: string, i: nat)
    requires WellFormed(t) && i < t.count && Head(t, i) == Some(id)
    requires forall x: nat :: x < i ==> Head(t, x).Some?
    ensures !NullInFront(t, id)
  {
    forall x: nat | x < t.count && Head(t, x).None?
      ensures FirstBus(t, id, x).Some?
    {
      assert x > i;
    }
  }

  lemma RecipientsNext(members: seq<Device>, j: nat, own: string)
    requires j < |members|
    ensures Recipients(members[..j + 1], own) ==
            if members[j].id.Some? && members[j].id.value != own
            then Recipients(members[..j], own) + [members[j].id.value] else Recipients(members[..j], own)
  {
    assert members[..j + 1][..j] == members[..j];
  }

  lemma {:induction false} CallsInOrder(before: seq<Sent>, ids: seq<string>, data: string, dataLen: int)
    ensures SentInOrder(before, before + Calls(ids, data, dataLen), ids, data, dataLen)
  {
    if ids != [] {
      CallsInOrder(before, ids[..|ids| - 1], data, dataLen);
    }
  }

  lemma CallsNext(before: seq<Sent>, ids: seq<string>, id: string, data: string, dataLen: int)
    ensures before + Calls(ids + [id], data, dataLen) == before + Calls(ids, data, dataLen) + [Sent(id, data, dataLen)]
  {
    assert (ids + [id])[..|ids|] == ids;
    assert before + (Calls(ids, data, dataLen) + [Sent(id, data, dataLen)])
        == before + Calls(ids, data, dataLen) + [Sent(id, data, dataLen)];
  }

  /** Looking further does not change a bus already found. */
  lemma {:induction false} FirstBusStays(t: Table, id: string, m: nat, n: nat)
    requires WellFormed(t) && m <= n <= TOTAL_LEN && FirstBus(t, id, m).Some?
    ensures FirstBus(t, id, n) == FirstBus(t, id, m)
  {
    if m < n {
      FirstBusStays(t, id, m, n - 1);
    }
  }
}
