/** The gateway process as it runs: the client loop with its 125-byte receive buffer, the platform's
    callback, and the 128-byte global they share. */
module GatewayServer {
  import opened CString
  import opened GatewayProtocol
  import GatewayBatches
  import GatewaySafety

  /** The service events HandleSubDeviceManagerEvents switches on. */
  datatype ServiceEvent =
    | AddNotify(devices: seq<string>)
    | DeleteNotify(devices: seq<string>)
    | UpdateStatusResponse(updated: seq<string>, failed: seq<string>)
    | AddDeviceResponse(added: seq<string>, failed: seq<string>)
    | DelDeviceResponse(deleted: seq<string>)

  class Server {
    const gSubDeviceId: array<char>
    const productId: string
    var batch: seq<string>          // where the callback thread stands in its list
    var copied: bool                // and whether the head of that list is already in the global
    var events: seq<Event>          // what the outside world will still do
    var out: seq<Output>
    ghost var history: seq<Event>   // what it has done so far
    ghost var taken: nat            // the client connections taken up so far

    /** The session the memory stands for. */
    ghost function View(conn: Option<nat>): Gateway
      reads this, gSubDeviceId
    {
      Gateway(Str(gSubDeviceId[..]), batch, copied, conn, out)
    }

    ghost predicate Stored()
      reads gSubDeviceId
    {
      gSubDeviceId.Length == ID_CAP && Terminated(gSubDeviceId[..])
    }

    /** The server is where the protocol says it is after everything that has happened. */
    ghost predicate Valid(c: Config, conn: Option<nat>)
      reads this, gSubDeviceId
    {
      && Stored() && c.productId == productId
      && View(conn) == Run(c, INITIAL, history) && Coherent(View(conn))
      && taken == Connections(c, history)
    }

    /** How a client loop started with the buffer `sub` reports data. */
    ghost predicate Reports(c: Config, sub: array<char>)
      reads sub
    {
      Terminated(sub[..]) && c.reportAs == if sub == gSubDeviceId then None else Some(Str(sub[..]))
    }

    constructor (productId: string, events: seq<Event>)
      ensures forall c: Config :: c.productId == productId ==> Valid(c, None)
      ensures fresh(gSubDeviceId) && this.productId == productId
      ensures history == [] && this.events == events && out == []
    {
      gSubDeviceId := new char[ID_CAP](_ => NUL);
      this.productId, this.events, batch, copied, out, history, taken := productId, events, [], false, [], [], 0;
      new;
      StrEnds(gSubDeviceId[..], 0);
    }

    /** The next thing the world does becomes history. */
    ghost method Pass(c: Config, e: Event)
      modifies this`history
      ensures history == old(history) + [e]
      ensures Run(c, INITIAL, history) == Step(c, Run(c, INITIAL, old(history)), e)
      ensures Coherent(Run(c, INITIAL, history))
      ensures Connections(c, history) ==
              Connections(c, old(history)) + if e.Accept? && Run(c, INITIAL, old(history)).conn.None? then 1 else 0
    {
      RunSnoc(c, INITIAL, history, e);
      assert (history + [e])[..|history|] == history;
      history := history + [e];
      CoherentRun(c, INITIAL, history);
    }

    // ----- the callback -----

    method UpdateSubDeviceStatus(deviceId: array?<char>, isOnline: bool)
      requires deviceId != null ==> Terminated(deviceId[..])
      modifies this`out
      ensures out == old(out) + if deviceId == null then [] else [Status(Str(deviceId[..]), isOnline)]
    {
      if deviceId == null {
        return;
      }
      assert deviceId[0..] == deviceId[..];
      var id := ReadString(deviceId, 0);
      out := out + [Status(id, isOnline)];
    }

    /** First half of an iteration: the id of the next added device goes into the global. */
    method CopyNext(ghost c: Config, ghost conn: Option<nat>)
      requires Valid(c, conn) && !copied && batch != []
      modifies this`copied, this`history, gSubDeviceId
      ensures Valid(c, conn) && copied && history == old(history) + [CopyId]
    {
      var deviceId := NewString(batch[0]);
      assert deviceId[0..] == deviceId[..];
      var n := StrLen(deviceId, 0);
      var _ := StrNCpyS(gSubDeviceId, deviceId, 0, n);
      copied := true;
      BoundedWhole(Str(deviceId[..]), ID_CAP);
      assert View(conn) == Step(c, old(View(conn)), CopyId);
      Pass(c, CopyId);
    }

    /** Second half: what the global holds is reported ONLINE. */
    method ReportCopied(ghost c: Config, ghost conn: Option<nat>)
      requires Valid(c, conn) && copied && batch != []
      modifies this`batch, this`copied, this`out, this`history
      ensures Valid(c, conn) && !copied && batch == old(batch[1..]) && history == old(history) + [ReportOnline]
    {
      ReportStep(c, View(conn));
      UpdateSubDeviceStatus(gSubDeviceId, true);
      batch, copied := batch[1..], false;
      Pass(c, ReportOnline);
    }

    /** One iteration of the loop over the successful devices. */
    method AddNext(ghost c: Config, ghost conn: Option<nat>)
      requires Valid(c, conn) && !copied && batch != []
      modifies this`batch, this`copied, this`out, this`history, gSubDeviceId
      ensures Valid(c, conn) && !copied && batch == old(batch[1..])
      ensures history == old(history) + [CopyId, ReportOnline]
    {
      CopyNext(c, conn);
      ReportCopied(c, conn);
    }

    /** The loop over the successful devices. */
    method AddAll(added: seq<string>, ghost c: Config, ghost conn: Option<nat>)
      requires Valid(c, conn) && !copied && batch == added
      modifies this`batch, this`copied, this`out, this`history, gSubDeviceId
      ensures Valid(c, conn) && !copied && batch == []
      ensures history == old(history) + GatewayBatches.Handling(|added|)
    {
      var j := 0;
      while |added| > j
        invariant 0 <= j <= |added| && batch == added[j..] && !copied && Valid(c, conn)
        invariant history == old(history) + GatewayBatches.Handling(j)
      {
        AddNext(c, conn);
        j := j + 1;
      }
    }

    /** The callback on an add response nobody interrupts: one ONLINE report per added device, in list
        order, and the last of them is current; the failed devices are only logged. */
    method AddSubDeviceResponse(added: seq<string>, failed: seq<string>, ghost c: Config, ghost conn: Option<nat>)
      requires Valid(c, conn) && !copied && batch == []
      modifies this`batch, this`copied, this`out, this`history, gSubDeviceId
      ensures Valid(c, conn) && !copied && batch == []
      ensures history == old(history) + [AddResponse(added, failed)] + GatewayBatches.Handling(|added|)
      ensures out == old(out) + GatewayBatches.OnlineReports(added)
      ensures Str(gSubDeviceId[..]) == GatewayBatches.LastOr(added, old(Str(gSubDeviceId[..])))
    {
      GatewayBatches.HandledResponse(c, history, added, failed);
      batch := added;
      Pass(c, AddResponse(added, failed));
      AddAll(added, c, conn);
    }

    /** The switch over service events; only add responses change anything here, and a deleted
        device stays current. */
    method HandleSubDeviceManagerEvents(event: ServiceEvent, ghost c: Config, ghost conn: Option<nat>)
      requires Valid(c, conn) && !copied && batch == []
      modifies this`batch, this`copied, this`out, this`history, gSubDeviceId
      ensures Valid(c, conn) && !copied && batch == []
      ensures event.AddDeviceResponse? ==>
                history == old(history) + [AddResponse(event.added, event.failed)]
                           + GatewayBatches.Handling(|event.added|)
      ensures event.DelDeviceResponse? ==> history == old(history) + [DelResponse(event.deleted)]
      ensures !event.AddDeviceResponse? ==> out == old(out) && Str(gSubDeviceId[..]) == old(Str(gSubDeviceId[..]))
      ensures !event.AddDeviceResponse? && !event.DelDeviceResponse? ==> history == old(history)
    {
      match event
      case AddDeviceResponse(added, failed) => AddSubDeviceResponse(added, failed, c, conn);
      case DelDeviceResponse(deleted) => Pass(c, DelResponse(deleted));
      case _ =>
    }

    // ----- the client loop -----

    method TestGtwAddSubDevice(nodeId: array<char>, off: nat)
      requires off <= nodeId.Length && Terminated(nodeId[off..])
      modifies this`out
      ensures out == old(out) + [AddSent(Str(nodeId[off..]), productId)]
    {
      var node := ReadString(nodeId, off);
      out := out + [AddSent(node, productId)];
    }

    method TestGtwDelSubDevice(subDeviceId: array?<char>)
      requires subDeviceId != null ==> Terminated(subDeviceId[..])
      modifies this`out
      ensures out == old(out) + if subDeviceId == null then [] else [DeleteSent(Str(subDeviceId[..]))]
    {
      if subDeviceId == null {
        return;
      }
      assert subDeviceId[0..] == subDeviceId[..];
      var id := ReadString(subDeviceId, 0);
      out := out + [DeleteSent(id)];
    }

    method TestBatchPropertiesReport(subDeviceId: array<char>, recvBuf: array<char>)
      requires Terminated(subDeviceId[..]) && Terminated(recvBuf[..])
      modifies this`out
      ensures out == old(out) + if Str(subDeviceId[..]) == "" then []
                                else [PropertiesSent(Str(subDeviceId[..]), Payload(Str(recvBuf[..])))]
    {
      assert subDeviceId[0..] == subDeviceId[..] && recvBuf[0..] == recvBuf[..];
      var n := StrLen(subDeviceId, 0);
      if n == 0 {
        return;
      }
      var id := ReadString(subDeviceId, 0);
      var text := ReadString(recvBuf, 0);
      out := out + [PropertiesSent(id, PAYLOAD_HEAD + text + PAYLOAD_TAIL)];
    }

    /** The branches of the client loop on one received, terminated text. */
    method Dispatch(recvbuf: array<char>, sub: array<char>, ghost c: Config)
      requires Stored() && Terminated(recvbuf[..]) && Reports(c, sub) && c.productId == productId
      modifies this`out
      ensures var r := Request(c, old(View(None)), Classify(Str(recvbuf[..])));
              out == old(out) + if r.Some? then [r.value] else []
    {
      assert recvbuf[0..] == recvbuf[..];
      var len := StrLen(recvbuf, 0);
      Branches(recvbuf[..]);
      if len > 6 && recvbuf[0] == 'I' && recvbuf[1] == 'D' && recvbuf[2] == ':' {
        StrSuffix(recvbuf[..], 3);
        assert recvbuf[3..] == recvbuf[..][3..];
        TestGtwAddSubDevice(recvbuf, 3);
      } else if len == 4 && recvbuf[0] == 'e' && recvbuf[1] == 'x' && recvbuf[2] == 'i' && recvbuf[3] == 't' {
        UpdateSubDeviceStatus(gSubDeviceId, false);
      } else if len == 3 && recvbuf[0] == 'd' && recvbuf[1] == 'e' && recvbuf[2] == 'l' {
        TestGtwDelSubDevice(gSubDeviceId);
      } else if len > 0 {
        TestBatchPropertiesReport(sub, recvbuf);
      }
    }

    method SendMessageToSubDevice(payload: string)
      modifies this`out
      ensures out == old(out) + [Reply(payload)]
    {
      out := out + [Reply(payload)];
    }

    /** One received frame, as one event of the run. */
    method HandleFrame(recvbuf: array<char>, sub: array<char>, ghost c: Config, ghost n: nat, ghost bytes: seq<char>)
      requires Valid(c, Some(n)) && Reports(c, sub) && 1 <= |bytes| < RECV_CAP
      requires Terminated(recvbuf[..]) && Str(recvbuf[..]) == Str(bytes)
      modifies this`out, this`history
      ensures Valid(c, Counted(n + 1)) && history == old(history) + [Chunk(bytes)]
    {
      FrameStep(c, View(Some(n)), bytes);
      Dispatch(recvbuf, sub, c);
      SendMessageToSubDevice(OK);
      Pass(c, Chunk(bytes));
    }

    /** Another add response queues up behind the list in work. */
    method Queue(added: seq<string>, failed: seq<string>, ghost c: Config, ghost conn: Option<nat>)
      requires Valid(c, conn)
      modifies this`batch, this`history
      ensures Valid(c, conn) && history == old(history) + [AddResponse(added, failed)]
    {
      batch := batch + added;
      Pass(c, AddResponse(added, failed));
    }

    /** What the callback thread does while the client thread waits. */
    method Meanwhile(e: Event, ghost c: Config, ghost conn: Option<nat>)
      requires Valid(c, conn)
      requires e.AddResponse? || e.DelResponse? || e.CopyId? || e.ReportOnline?
      modifies this`batch, this`copied, this`out, this`history, gSubDeviceId
      ensures Valid(c, conn) && history == old(history) + [e]
    {
      if e.AddResponse? {
        Queue(e.added, e.failed, c, conn);
      } else if e.CopyId? && !copied && batch != [] {
        CopyNext(c, conn);
      } else if e.ReportOnline? && copied {
        ReportCopied(c, conn);
      } else {
        Pass(c, e);
      }
    }

    /** recv: the callback may run first; then bytes arrive in `buf`, or the connection is over. */
    method Recv(buf: array<char>, ghost c: Config, ghost n: nat) returns (len: int, ghost bytes: seq<char>)
      requires Valid(c, Some(n)) && buf.Length == RECV_CAP && buf != gSubDeviceId
      modifies this, gSubDeviceId, buf
      ensures taken == old(taken)
      ensures len <= 0 ==> Valid(c, None) && old(history + events) <= history + events
      ensures len > 0 ==> Valid(c, Some(n)) && len == |bytes| <= 124 && bytes <= buf[..]
      ensures len > 0 ==> old(history + events) <= history + [Chunk(bytes)] + events
    {
      bytes := [];
      while events != []
        invariant Valid(c, Some(n)) && taken == old(taken) && history + events == old(history + events)
        decreases |events|
      {
        var e := events[0];
        events := events[1..];
        assert history + [e] + events == old(history + events);
        match e
        case Chunk(b) =>
          Put(buf, 0, b);
          return |b|, b;
        case Closed =>
          Pass(c, e);
          return -1, bytes;
        case Accept =>
          Pass(c, e);
        case _ =>
          Meanwhile(e, c, Some(n));
      }
      assert old(history + events) == history;
      Pass(c, Closed);
      return -1, bytes;
    }

    /** Clears the buffer, receives into it and terminates what came. */
    method Receive(recvbuf: array<char>, ghost c: Config, ghost n: nat) returns (recvLen: int, ghost bytes: seq<char>)
      requires Valid(c, Some(n)) && recvbuf.Length == RECV_CAP && recvbuf != gSubDeviceId
      modifies this, gSubDeviceId, recvbuf
      ensures taken == old(taken)
      ensures recvLen <= 0 ==> Valid(c, None) && old(history + events) <= history + events
      ensures recvLen > 0 ==> Valid(c, Some(n)) && 1 <= |bytes| < RECV_CAP
      ensures recvLen > 0 ==> old(history + events) <= history + [Chunk(bytes)] + events
      ensures recvLen > 0 ==> Terminated(recvbuf[..]) && Str(recvbuf[..]) == Str(bytes)
    {
      MemZero(recvbuf);
      recvLen, bytes := Recv(recvbuf, c, n);
      if recvLen > 0 {
        recvbuf[recvLen] := NUL;
        ReceivedText(recvbuf[..], bytes);
      }
    }

    /** One round of the client loop: one frame is received and served, or the connection is over. */
    method ServeFrame(recvbuf: array<char>, sub: array<char>, ghost c: Config, ghost n: nat) returns (alive: bool)
      requires Valid(c, Some(n)) && Reports(c, sub)
      requires recvbuf.Length == RECV_CAP && recvbuf != gSubDeviceId && recvbuf != sub
      modifies this, gSubDeviceId, recvbuf
      ensures Valid(c, if alive then Counted(n + 1) else None) && Reports(c, sub)
      ensures taken == old(taken) && old(history + events) <= history + events
    {
      var recvLen, bytes := Receive(recvbuf, c, n);
      if recvLen <= 0 {
        return false;
      }
      HandleFrame(recvbuf, sub, c, n, bytes);
      alive := true;
    }

    /** One client connection: at most 1000 frames, or until recv fails. */
    method ProcessMessageFromClient(sub: array<char>, ghost c: Config)
      requires Valid(c, Some(0)) && Reports(c, sub)
      modifies this, gSubDeviceId
      ensures Valid(c, None) && Reports(c, sub) && taken == old(taken) && old(history + events) <= history + events
    {
      var recvbuf := new char[RECV_CAP](_ => NUL);
      var i := 0;
      while i < MAX_FRAMES
        invariant i <= MAX_FRAMES && Valid(c, Counted(i)) && Reports(c, sub) && taken == old(taken)
        invariant old(history + events) <= history + events
      {
        var alive := ServeFrame(recvbuf, sub, c, i);
        if !alive {
          return;
        }
        i := i + 1;
      }
    }

    /** A connection is taken up: a known device is reported ONLINE again. */
    method TakeUp(ghost c: Config)
      requires Valid(c, None)
      modifies this`out, this`history, this`taken
      ensures Valid(c, Some(0)) && taken == old(taken) + 1 && history == old(history) + [Accept]
    {
      assert gSubDeviceId[0..] == gSubDeviceId[..];
      var n := StrLen(gSubDeviceId, 0);
      if n != 0 {
        UpdateSubDeviceStatus(gSubDeviceId, true);
      }
      Pass(c, Accept);
      taken := taken + 1;
    }

    /** accept: waits for the next connection. */
    method AcceptClient(ghost c: Config) returns (accepted: bool)
      requires Valid(c, None)
      modifies this, gSubDeviceId
      ensures Valid(c, if accepted then Some(0) else None)
      ensures history + events == old(history + events)
      ensures if accepted then taken == old(taken) + 1 else taken == old(taken) && events == []
    {
      while events != []
        invariant Valid(c, None) && taken == old(taken) && history + events == old(history + events)
        decreases |events|
      {
        var e := events[0];
        events := events[1..];
        assert history + [e] + events == old(history + events);
        match e
        case Accept =>
          TakeUp(c);
          return true;
        case Chunk(_) =>
          Pass(c, e);
        case Closed =>
          Pass(c, e);
        case _ =>
          Meanwhile(e, c, None);
      }
      accepted := false;
    }

    /** The server's main loop, started with the pointer from getTcpDeviceId: one connection after the
        other, until `limit` of them were served or the world has nothing more to do. In every interleaving
        a request about the current device comes after its ONLINE report or before the next one, which is
        its own; no device goes down before it was reported ONLINE exactly unless a frame comes early. */
    method ServeClients(limit: nat, ghost c: Config) returns (count: nat)
      requires Valid(c, None) && c.reportAs == None
      modifies this, gSubDeviceId
      ensures Valid(c, None) && old(history + events) <= history + events
      ensures taken == old(taken) + count && count <= limit && (count < limit ==> events == [])
      ensures GatewaySafety.Anchored(c, View(None))
      ensures GatewaySafety.OnlineFirst(out) <==> GatewaySafety.NeverEarly(c, history)
    {
      count := 0;
      while count < limit
        invariant count <= limit && taken == old(taken) + count
        invariant Valid(c, None) && old(history + events) <= history + events
      {
        var accepted := AcceptClient(c);
        if !accepted {
          break;
        }
        ProcessMessageFromClient(gSubDeviceId, c);
        count := count + 1;
      }
      GatewaySafety.EveryRunIsAnchored(c, history);
      GatewaySafety.OnlineFirstExactly(c, history);
    }
  }

  /** A report as the callback makes it. */
  lemma ReportStep(c: Config, g: Gateway)
    requires g.copied && g.batch != []
    ensures Step(c, g, ReportOnline) ==
            g.(batch := g.batch[1..], copied := false, out := g.out + [Status(g.current, true)])
  {
  }

  /** A frame as the loop handles it: the request, if any, then the answer. */
  lemma FrameStep(c: Config, g: Gateway, bytes: Received)
    requires g.conn.Some?
    ensures var r := Request(c, g.(conn := None), Classify(Str(bytes)));
            Step(c, g, Chunk(bytes)) == g.(conn := Counted(g.conn.value + 1),
                                           out := g.out + (if r.Some? then [r.value] else []) + [Reply(OK)])
  {
    var r := Request(c, g, Classify(Str(bytes)));
    assert r == Request(c, g.(conn := None), Classify(Str(bytes)));
    if r.Some? {
      assert g.out + [r.value, Reply(OK)] == g.out + [r.value] + [Reply(OK)];
    } else {
      assert g.out + [] == g.out;
    }
  }

  /** The character tests of the branches, read as tests on the whole text. */
  lemma Branches(m: seq<char>)
    requires Terminated(m)
    ensures var s := Str(m);
            && (|s| == 4 && m[0] == 'e' && m[1] == 'x' && m[2] == 'i' && m[3] == 't' <==> s == "exit")
            && (|s| == 3 && m[0] == 'd' && m[1] == 'e' && m[2] == 'l' <==> s == "del")
            && (|s| > 6 && m[0] == 'I' && m[1] == 'D' && m[2] == ':' <==> Classify(s).Add?)
  {
    var s := Str(m);
    assert forall k :: 0 <= k < |s| ==> m[k] == s[k];
  }
}
