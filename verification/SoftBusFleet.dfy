/** Many devices, one message: who becomes the server of a bus, whom a broadcast reaches, and whether
    the role a device has and the key it is looked up by agree. */
module SoftBusFleet {
  import opened CString
  import opened SoftBusTable
  import opened SoftBusNode

  // ----- election -----

  /** A device of the fleet: who it is, and whatever table it had before the message. */
  datatype Peer = Peer(id: string, before: Table)

  ghost predicate Fleet(ps: seq<Peer>) {
    && (forall i :: 0 <= i < |ps| ==> WellFormed(ps[i].before))
    && (forall i, j :: 0 <= i < j < |ps| ==> ps[i].id != ps[j].id)
  }

  predicate Serves(p: Peer, bs: seq<BusInfo>, k: nat)
    requires WellFormed(p.before)
  {
    Leads(Load(p.before, bs), p.id, k)
  }

  /** All devices that got the same message agree: on a bus with a usable device exactly the first one
      listed serves, whatever the devices had in their tables before. */
  lemma UniqueServer(ps: seq<Peer>, bs: seq<BusInfo>, k: nat, h: nat)
    requires Fleet(ps) && k < Loaded(bs) && Stored(bs[k].devices) != []
    requires h < |ps| && Stored(bs[k].devices)[0].id == Some(ps[h].id)
    ensures forall i :: 0 <= i < |ps| ==> (Serves(ps[i], bs, k) <==> i == h)
  {
    forall i | 0 <= i < |ps|
      ensures Serves(ps[i], bs, k) <==> i == h
    {
      MembersAreTheMessage(ps[i].before, bs, k);
      assert ps[i].id == ps[h].id <==> i == h;
    }
  }

  // ----- election after histories of messages -----

  /** A device that got these messages since it started. */
  function Started(id: string, ms: seq<Message>): (p: Peer)
    ensures WellFormed(p.before)
  {
    Peer(id, TableAfter(ms))
  }

  function HeadSeen(ms: seq<Message>, bs: seq<BusInfo>, k: nat): Option<string>
    requires k < TOTAL_LEN
  {
    Head(Load(TableAfter(ms), bs), k)
  }

  /** Whatever messages came before, no two devices both take themselves for the server of bus `k`. */
  ghost predicate AtMostOneServes(bs: seq<BusInfo>, k: nat) {
    forall a, b, ms, ns :: Serves(Started(a, ms), bs, k) && Serves(Started(b, ns), bs, k) ==> a == b
  }

  /** Whatever messages came before, every two devices see the same head of bus `k`. */
  ghost predicate HeadsAgree(bs: seq<BusInfo>, k: nat)
    requires k < Loaded(bs)
  {
    forall ms, ns :: HeadSeen(ms, bs, k) == HeadSeen(ns, bs, k)
  }

  predicate Named(id: string) {
    id != "" && id != MISSING
  }

  /** A bus list that names one device on the first `n` buses. */
  function Listing(id: string, n: nat): (bs: seq<BusInfo>) {
    seq(n, _ => BusInfo(None, None, [DeviceInfo(Some(id), Some("ip"))]))
  }

  lemma ListingStores(id: string, n: nat, k: nat)
    requires Named(id) && k < n
    ensures Stored(Listing(id, n)[k].devices) == [Device(Some(id), Some("ip"))]
  {
    var ds := [DeviceInfo(Some(id), Some("ip"))];
    assert "ip"[0] != MISSING[0];
    assert KeptOf(ds, 1) == KeptOf(ds, 0) + KeptOne(ds[0]);
  }

  /** One message that listed the device, and the device leads a bus the next message lists nobody for. */
  lemma HeadOfTheListing(id: string, bs: seq<BusInfo>, k: nat)
    requires Named(id) && k < Loaded(bs) && Stored(bs[k].devices) == []
    ensures HeadSeen([Some(Listing(id, k + 1))], bs, k) == Some(id)
  {
    var ms := [Some(Listing(id, k + 1))];
    ListingStores(id, k + 1, k);
    AFullListHasHeads([], Listing(id, k + 1), k);
    assert [] + ms == ms;
    BusesInForce(ms, k);
    MembersAreTheMessage(TableAfter(ms), bs, k);
  }

  /** On a bus the message lists no usable device for, any two devices can both take themselves for the
      server: one earlier message to each is enough. */
  lemma TwoServers(bs: seq<BusInfo>, k: nat, a: string, b: string)
    requires k < Loaded(bs) && Stored(bs[k].devices) == []
    requires Named(a) && Named(b) && a != b
    ensures var p, q := Started(a, [Some(Listing(a, k + 1))]), Started(b, [Some(Listing(b, k + 1))]);
            Fleet([p, q]) && Serves(p, bs, k) && Serves(q, bs, k)
  {
    HeadOfTheListing(a, bs, k);
    HeadOfTheListing(b, bs, k);
  }

  /** At most one device serves a bus exactly if the message lists a usable device for it. */
  lemma AtMostOneServesExactly(bs: seq<BusInfo>, k: nat)
    requires k < Loaded(bs)
    ensures AtMostOneServes(bs, k) <==> Stored(bs[k].devices) != []
  {
    if Stored(bs[k].devices) == [] {
      assert "a"[0] != "b"[0];
      TwoServers(bs, k, "a", "b");
    } else {
      forall a, b, ms, ns | Serves(Started(a, ms), bs, k) && Serves(Started(b, ns), bs, k)
        ensures a == b
      {
        MembersAreTheMessage(TableAfter(ms), bs, k);
        MembersAreTheMessage(TableAfter(ns), bs, k);
      }
    }
  }

  /** And exactly then all devices see the same head. */
  lemma HeadsAgreeExactly(bs: seq<BusInfo>, k: nat)
    requires k < Loaded(bs)
    ensures HeadsAgree(bs, k) <==> Stored(bs[k].devices) != []
  {
    if Stored(bs[k].devices) == [] {
      assert "a"[0] != "b"[0];
      HeadOfTheListing("a", bs, k);
      HeadOfTheListing("b", bs, k);
    } else {
      forall ms, ns
        ensures HeadSeen(ms, bs, k) == HeadSeen(ns, bs, k)
      {
        MembersAreTheMessage(TableAfter(ms), bs, k);
        MembersAreTheMessage(TableAfter(ns), bs, k);
      }
    }
  }

  // ----- broadcast -----

  /** The places of a member list a broadcast serves. */
  function Places(members: seq<Device>, own: string): seq<nat> {
    if members == [] then []
    else
      var n := |members| - 1;
      Places(members[..n], own) + if members[n].id.Some? && members[n].id.value != own then [n] else []
  }

  lemma {:induction false} PlacesMatch(members: seq<Device>, own: string)
    ensures var ps, to := Places(members, own), Recipients(members, own);
            |to| == |ps| && forall i :: 0 <= i < |ps| ==>
              ps[i] < |members| && members[ps[i]].id == Some(to[i]) && to[i] != own
  {
    if members != [] {
      PlacesMatch(members[..|members| - 1], own);
    }
  }

  lemma {:induction false} PlacesIncrease(members: seq<Device>, own: string)
    ensures var ps := Places(members, own);
            forall i, j :: 0 <= i < j < |ps| ==> ps[i] < ps[j]
  {
    if members != [] {
      PlacesIncrease(members[..|members| - 1], own);
      PlacesMatch(members[..|members| - 1], own);
    }
  }

  lemma {:induction false} PlacesComplete(members: seq<Device>, own: string, p: nat)
    requires p < |members| && members[p].id.Some? && members[p].id.value != own
    ensures p in Places(members, own)
  {
    var n := |members| - 1;
    if p < n {
      PlacesComplete(members[..n], own, p);
    }
  }

  /** Exactly once and in table order: the places served increase, they are all the places of other
      members that have an id, and place for place the recipients are the members there. */
  lemma BroadcastServesEveryPlaceOnce(members: seq<Device>, own: string)
    ensures var ps, to := Places(members, own), Recipients(members, own);
            && |to| == |ps|
            && (forall i :: 0 <= i < |ps| ==> ps[i] < |members| && members[ps[i]].id == Some(to[i]) && to[i] != own)
            && (forall i, j :: 0 <= i < j < |ps| ==> ps[i] < ps[j])
            && (forall p: nat :: p < |members| && members[p].id.Some? && members[p].id.value != own ==> p in ps)
  {
    PlacesMatch(members, own);
    PlacesIncrease(members, own);
    forall p: nat | p < |members| && members[p].id.Some? && members[p].id.value != own
      ensures p in Places(members, own)
    {
      PlacesComplete(members, own, p);
    }
  }

  ghost predicate Distinct(members: seq<Device>) {
    forall i, j :: 0 <= i < j < |members| && members[i].id.Some? ==> members[i].id != members[j].id
  }

  lemma NobodyIsServedTwice(members: seq<Device>, own: string)
    requires Distinct(members)
    ensures var to := Recipients(members, own);
            forall i, j :: 0 <= i < j < |to| ==> to[i] != to[j]
  {
    PlacesMatch(members, own);
    PlacesIncrease(members, own);
    var ps, to := Places(members, own), Recipients(members, own);
    forall i, j | 0 <= i < j < |to|
      ensures to[i] != to[j]
    {
      assert ps[i] < ps[j];
      assert members[ps[i]].id == Some(to[i]) && members[ps[j]].id == Some(to[j]);
    }
  }

  lemma ServedIsOtherMember(members: seq<Device>, own: string, id: string)
    ensures id in Recipients(members, own) <==>
            id != own && exists p :: 0 <= p < |members| && members[p].id == Some(id)
  {
    PlacesMatch(members, own);
    var ps, to := Places(members, own), Recipients(members, own);
    if id in to {
      var i :| 0 <= i < |to| && to[i] == id;
      assert members[ps[i]].id == Some(id);
    }
    if p :| id != own && 0 <= p < |members| && members[p].id == Some(id) {
      PlacesComplete(members, own, p);
      var i :| 0 <= i < |ps| && ps[i] == p;
      assert to[i] == id;
    }
  }

  /** With distinct ids every other member is served exactly once, and the sender never. */
  lemma BroadcastReachesEachOtherOnce(members: seq<Device>, own: string)
    requires Distinct(members)
    ensures var to := Recipients(members, own);
            forall i, j :: 0 <= i < j < |to| ==> to[i] != to[j]
    ensures forall id :: id in Recipients(members, own) <==>
              id != own && exists p :: 0 <= p < |members| && members[p].id == Some(id)
  {
    NobodyIsServedTwice(members, own);
    forall id
      ensures id in Recipients(members, own) <==>
              id != own && exists p :: 0 <= p < |members| && members[p].id == Some(id)
    {
      ServedIsOtherMember(members, own, id);
    }
  }

  /** What a device sends after any run of messages: nothing unless it is the head of a bus in force, and
      then to the devices of the list in force only. One whose headship is older than that list sends nothing. */
  lemma BroadcastOfTheMessages(ms: seq<Message>, own: string, k: nat, data: string, dataLen: int)
    requires dataLen > 0
    ensures var bs := LastList(ms);
            Broadcast(TableAfter(ms), own, k, Some(data), dataLen)
            == if k < Loaded(bs) && Stored(bs[k].devices) != [] && Stored(bs[k].devices)[0].id == Some(own)
               then Calls(Recipients(Stored(bs[k].devices), own), data, dataLen) else []
  {
    var bs := LastList(ms);
    BusesInForce(ms, 0);
    if k < Loaded(bs) {
      BusesInForce(ms, k);
      if Stored(bs[k].devices) != [] {
        ListedInForce(ms, k);
      }
    }
  }

  // ----- roles and keys -----

  /** The buses in front of bus `i` all have a head. */
  ghost predicate HeadsInFront(t: Table, i: nat)
    requires WellFormed(t) && i <= TOTAL_LEN
  {
    forall j: nat :: j < i ==> Head(t, j).Some?
  }

  lemma FirstBusIs(t: Table, d: string, i: nat)
    requires WellFormed(t) && i < t.count && Head(t, i) == Some(d)
    requires forall j: nat :: j < i ==> Head(t, j) != Some(d)
    ensures FirstBus(t, d, t.count) == Some(i)
    ensures NullInFront(t, d) <==> !HeadsInFront(t, i)
  {
    if j: nat :| j < i && Head(t, j).None? {
      assert FirstBus(t, d, j).None?;
    }
  }

  /** On the first bus it heads, a device is looked up to the key of that bus, exactly if every bus in front
      has a head. */
  lemma KeyOfTheBus(t: Table, i: nat)
    requires WellFormed(t) && i < t.count && Head(t, i).Some?
    requires forall j: nat :: j < i ==> Head(t, j) != Head(t, i)
    ensures Lookup(t, Head(t, i).value) == if HeadsInFront(t, i) then Returned(t.slots[i].key) else Undefined
  {
    FirstBusIs(t, Head(t, i).value, i);
  }

  /** Bus `i` is the first of the list in force the messages made `d` the head of. */
  ghost predicate FirstListed(ms: seq<Message>, d: string, i: nat) {
    && i < Loaded(LastList(ms)) && ListedHead(ms, i) == Some(d)
    && forall j: nat :: j < i ==> ListedHead(ms, j) != Some(d)
  }

  /** The messages gave each bus in front of bus `i` a head. */
  ghost predicate ListedInFront(ms: seq<Message>, i: nat) {
    forall j: nat :: j < i ==> ListedHead(ms, j).Some?
  }

  /** The list in force has a key for that bus, and its slot is not the last one. */
  predicate HasKey(ms: seq<Message>, i: nat)
    requires i < Loaded(LastList(ms))
  {
    i < TOTAL_LEN - 1 && Field(LastList(ms)[i].key) != ""
  }

  lemma HeadsOfTheMessages(ms: seq<Message>, n: nat)
    requires n <= TOTAL_LEN
    ensures TableAfter(ms).count == Loaded(LastList(ms))
    ensures forall j: nat :: j < n ==> Head(TableAfter(ms), j) == ListedHead(ms, j)
    ensures HeadsInFront(TableAfter(ms), n) <==> ListedInFront(ms, n)
  {
    BusesInForce(ms, 0);
    forall j: nat | j < n
      ensures Head(TableAfter(ms), j) == ListedHead(ms, j)
    {
      BusesInForce(ms, j);
    }
  }

  /** What the lookup of a device comes to that the messages made the head of a bus: it leads the first one
      of them, and the lookup ends there, with the listed key if that can be kept, unless it meets a null head. */
  lemma KeyOfTheMessages(ms: seq<Message>, d: string, i: nat)
    requires FirstListed(ms, d, i)
    ensures Leads(TableAfter(ms), d, i)
    ensures Lookup(TableAfter(ms), d) ==
            if !ListedInFront(ms, i) then Undefined
            else if HasKey(ms, i) then Returned(Some(Field(LastList(ms)[i].key))) else Returned(None)
  {
    HeadsOfTheMessages(ms, TOTAL_LEN);
    HeadsOfTheMessages(ms, i);
    BusesInForce(ms, i);
    FirstBusIs(TableAfter(ms), d, i);
  }

  /** What it comes to for any other device: it leads no bus, and the lookup finds no key, unless it meets a
      null head. */
  lemma NoKeyWithoutBus(ms: seq<Message>, d: string)
    requires forall i: nat :: !FirstListed(ms, d, i)
    ensures forall k: nat :: !Leads(TableAfter(ms), d, k)
    ensures Lookup(TableAfter(ms), d) == if ListsHeads(ms) then Returned(None) else Undefined
  {
    var t := TableAfter(ms);
    var r := FirstBus(t, d, t.count);
    HeadsOfTheMessages(ms, TOTAL_LEN);
    assert r.Some? ==> FirstListed(ms, d, r.value);
    if i: nat :| i < Loaded(LastList(ms)) && ListedHead(ms, i).None? {
      FirstBusStaysAway(t, d, i);
      assert Head(t, i).None?;
    }
  }

  lemma FirstBusStaysAway(t: Table, d: string, n: nat)
    requires WellFormed(t) && n <= t.count && FirstBus(t, d, t.count).None?
    ensures FirstBus(t, d, n).None?
  {
    if FirstBus(t, d, n).Some? {
      FirstBusStays(t, d, n, t.count);
    }
  }

  /** A device that may broadcast is one that gets a key, and the other way round, after any run of messages
      exactly if the first bus they made it the head of is not the tenth, is listed with a non-empty key, and
      has no bus without head in front. */
  lemma RoleAndKeyAgreeExactly(ms: seq<Message>, d: string)
    ensures var t := TableAfter(ms);
            ((exists k: nat :: Leads(t, d, k)) <==> Lookup(t, d).Returned? && Lookup(t, d).value.Some?)
            <==> (forall i: nat :: FirstListed(ms, d, i) ==> HasKey(ms, i) && ListedInFront(ms, i))
  {
    if i: nat :| FirstListed(ms, d, i) {
      KeyOfTheMessages(ms, d, i);
      forall x: nat | FirstListed(ms, d, x)
        ensures x == i
      {
        assert !(x < i) && !(i < x);
      }
    } else {
      NoKeyWithoutBus(ms, d);
    }
  }

  /** A device that is head of the tenth bus only may broadcast there and never gets a key, whatever was sent. */
  lemma TenthBusHasNoKey(ms: seq<Message>, d: string)
    requires FirstListed(ms, d, TOTAL_LEN - 1)
    ensures Leads(TableAfter(ms), d, TOTAL_LEN - 1)
    ensures Lookup(TableAfter(ms), d) == if ListedInFront(ms, TOTAL_LEN - 1) then Returned(None) else Undefined
  {
    KeyOfTheMessages(ms, d, TOTAL_LEN - 1);
  }

  lemma KeptOfOne(d: DeviceInfo)
    ensures Stored([d]) == KeptOne(d)
  {
    assert KeptOf([d], 1) == KeptOf([d], 0) + KeptOne(d);
  }

  /** A key is not enough: behind a bus whose first device has an empty id, a listed device leads its bus,
      the table holds its key, and the lookup is undefined. */
  lemma KeyBehindANullHead(d: string, key: string)
    requires Named(d)
    ensures var bs := [BusInfo(None, None, [DeviceInfo(Some(""), Some("ip"))]),
                       BusInfo(Some(key), None, [DeviceInfo(Some(d), Some("ip"))])];
            var t := TableAfter([Some(bs)]);
            Leads(t, d, 1) && t.slots[1].key == Combine(key) && Lookup(t, d).Undefined?
  {
    var none, some := DeviceInfo(Some(""), Some("ip")), DeviceInfo(Some(d), Some("ip"));
    var bs := [BusInfo(None, None, [none]), BusInfo(Some(key), None, [some])];
    var ms: seq<Message> := [Some(bs)];
    KeptOfOne(none);
    KeptOfOne(some);
    assert "ip"[0] != MISSING[0];
    assert LastList(ms) == bs;
    ListedInForce(ms, 0);
    ListedInForce(ms, 1);
    assert ListedHead(ms, 0) == None && ListedHead(ms, 1) == Some(d);
    assert FirstListed(ms, d, 1) && !ListedInFront(ms, 1);
    KeyOfTheMessages(ms, d, 1);
    BusesInForce(ms, 1);
  }
}
