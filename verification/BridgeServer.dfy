/** The bridge process as it runs: two 128-byte globals, a 125-byte receive buffer that is
    cleared and refilled for every frame, and a login frame that is split in place. */
module BridgeServer {
  import opened CString
  import opened BridgeProtocol
  import BridgeRuns

  class Server {
    const gBridgeDeviceId: array<char>
    const gBridgePassword: array<char>
    var events: seq<Event>          // what the outside world will still do
    var out: seq<Output>
    ghost var history: seq<Event>   // what it has done so far
    ghost var taken: nat            // the client connections taken up so far

    /** Both globals hold a C string. */
    ghost predicate Stored()
      reads gBridgeDeviceId, gBridgePassword
    {
      && gBridgeDeviceId != gBridgePassword
      && gBridgeDeviceId.Length == gBridgePassword.Length == GLOBAL_CAP
      && Terminated(gBridgeDeviceId[..]) && Terminated(gBridgePassword[..])
    }

    /** The session the memory stands for; bytes behind the terminators do not show. */
    ghost function View(conn: Option<nat>): Bridge
      reads this, gBridgeDeviceId, gBridgePassword
    {
      Bridge(Str(gBridgeDeviceId[..]), Str(gBridgePassword[..]), conn, out)
    }

    /** The server is where the protocol says it is after everything that has happened. */
    ghost predicate Valid(conn: Option<nat>)
      reads this, gBridgeDeviceId, gBridgePassword
    {
      Stored() && View(conn) == Run(INITIAL, history) && taken == Connections(history)
    }

    constructor (events: seq<Event>)
      ensures Valid(None) && fresh(gBridgeDeviceId) && fresh(gBridgePassword)
      ensures history == [] && this.events == events && out == []
    {
      gBridgeDeviceId := new char[GLOBAL_CAP](_ => NUL);
      gBridgePassword := new char[GLOBAL_CAP](_ => NUL);
      this.events, out, history, taken := events, [], [], 0;
      new;
      StrEnds(gBridgeDeviceId[..], 0);
      StrEnds(gBridgePassword[..], 0);
      assert gBridgeDeviceId[..][0] == NUL && gBridgePassword[..][0] == NUL;
    }

    /** The next thing the world does becomes history. */
    ghost method Pass(e: Event)
      modifies this`history
      ensures history == old(history) + [e]
      ensures Run(INITIAL, history) == Step(Run(INITIAL, old(history)), e)
      ensures Connections(history) ==
              Connections(old(history)) + if e.Accept? && Run(INITIAL, old(history)).conn.None? then 1 else 0
    {
      RunSnoc(INITIAL, history, e);
      assert (history + [e])[..|history|] == history;
      history := history + [e];
    }

    method SetTcpPassword(newSecret: array?<char>) returns (ret: int)
      requires gBridgePassword.Length == GLOBAL_CAP
      requires newSecret != null ==> newSecret != gBridgePassword && Terminated(newSecret[..])
      modifies gBridgePassword
      ensures ret == if newSecret == null then -1 else 0
      ensures newSecret == null ==> gBridgePassword[..] == old(gBridgePassword[..])
      ensures newSecret != null ==>
                Terminated(gBridgePassword[..]) && Str(gBridgePassword[..]) == Fit(Str(newSecret[..]), GLOBAL_CAP)
    {
      if newSecret != null {
        MemZero(gBridgePassword);
        assert newSecret[0..] == newSecret[..];
        var n := StrLen(newSecret, 0);
        var _ := StrNCpyS(gBridgePassword, newSecret, 0, n);
        BoundedWhole(Str(newSecret[..]), GLOBAL_CAP);
        return 0;
      }
      return -1;
    }

    /** The reset-secret callback of the platform, called while the client thread waits. */
    method HandleRotation(secret: Option<string>, ghost conn: Option<nat>)
      requires Valid(conn)
      modifies this`history, gBridgePassword
      ensures Valid(conn) && history == old(history) + [Rotate(secret)]
    {
      var newSecret: array?<char> := null;
      if secret.Some? {
        newSecret := NewString(secret.value);
      }
      var _ := SetTcpPassword(newSecret);
      Pass(Rotate(secret));
    }

    /** recv: the platform may call back first; then bytes arrive in `buf`, or the connection is over. */
    method Recv(buf: array<char>, ghost n: nat) returns (len: int, ghost bytes: seq<char>)
      requires Valid(Some(n))
      requires buf.Length == RECV_CAP && buf != gBridgeDeviceId && buf != gBridgePassword
      modifies this`events, this`history, gBridgePassword, buf
      ensures len <= 0 ==> Valid(None) && old(history + events) <= history + events
      ensures len > 0 ==> Valid(Some(n)) && len == |bytes| <= 124
      ensures len > 0 ==> buf[..] == bytes + old(buf[..])[len..]
      ensures len > 0 ==> old(history + events) <= history + [Chunk(bytes)] + events
    {
      bytes := [];
      while events != []
        invariant Valid(Some(n))
        invariant history + events == old(history + events)
        invariant buf[..] == old(buf[..])
        decreases |events|
      {
        var e := events[0];
        events := events[1..];
        assert history + [e] + events == old(history + events);
        match e
        case Chunk(b) =>
          Put(buf, 0, b);
          bytes := b;
          return |b|, bytes;
        case Closed =>
          Pass(e);
          return -1, bytes;
        case Accept =>
          Pass(e);
        case Rotate(secret) =>
          HandleRotation(secret, Some(n));
      }
      assert old(history + events) == history;
      Pass(Closed);
      return -1, bytes;
    }

    method TestBridgeLogin(recvbuf: array<char>, deviceId: nat, password: nat)
      requires recvbuf != gBridgeDeviceId && recvbuf != gBridgePassword && gBridgeDeviceId != gBridgePassword
      requires gBridgeDeviceId.Length == gBridgePassword.Length == GLOBAL_CAP
      requires deviceId <= recvbuf.Length && Terminated(recvbuf[deviceId..])
      requires password <= recvbuf.Length && Terminated(recvbuf[password..])
      modifies this`out, gBridgeDeviceId, gBridgePassword
      ensures Terminated(gBridgeDeviceId[..]) && Terminated(gBridgePassword[..])
      ensures Str(gBridgeDeviceId[..]) == Fit(Str(recvbuf[deviceId..]), GLOBAL_CAP)
      ensures Str(gBridgePassword[..]) == Fit(Str(recvbuf[password..]), GLOBAL_CAP)
      ensures out == old(out) + [LoginSent(Str(recvbuf[deviceId..]), Str(recvbuf[password..]))]
    {
      var n := StrLen(recvbuf, deviceId);
      var _ := StrNCpyS(gBridgeDeviceId, recvbuf, deviceId, n);
      var m := StrLen(recvbuf, password);
      var _ := StrNCpyS(gBridgePassword, recvbuf, password, m);
      BoundedWhole(Str(recvbuf[deviceId..]), GLOBAL_CAP);
      BoundedWhole(Str(recvbuf[password..]), GLOBAL_CAP);
      var id := ReadString(recvbuf, deviceId);
      var pw := ReadString(recvbuf, password);
      out := out + [LoginSent(id, pw)];
    }

    method TestBridgeLogout(deviceId: array<char>)
      requires Terminated(deviceId[..])
      modifies this`out
      ensures out == old(out) + [LogoutSent(Str(deviceId[..]))]
    {
      assert deviceId[0..] == deviceId[..];
      var id := ReadString(deviceId, 0);
      out := out + [LogoutSent(id)];
    }

    method TestBridgeResetSecret(deviceId: array<char>, recvbuf: array<char>, newSecret: nat)
      requires Terminated(deviceId[..]) && Terminated(gBridgeDeviceId[..]) && Terminated(gBridgePassword[..])
      requires newSecret <= recvbuf.Length && Terminated(recvbuf[newSecret..])
      modifies this`out
      ensures var known := Str(deviceId[..]) == Str(gBridgeDeviceId[..]);
              var oldSecret := if known then Some(Str(gBridgePassword[..])) else None;
              out == old(out) + [ResetSent(Str(deviceId[..]), oldSecret, Str(recvbuf[newSecret..]))]
    {
      assert deviceId[0..] == deviceId[..] && gBridgePassword[0..] == gBridgePassword[..];
      var oldSecret: Option<string> := None;
      var c := StrCmp(deviceId, gBridgeDeviceId);
      if c == 0 {
        var pw := ReadString(gBridgePassword, 0);
        oldSecret := Some(pw);
      }
      var id := ReadString(deviceId, 0);
      var secret := ReadString(recvbuf, newSecret);
      out := out + [ResetSent(id, oldSecret, secret)];
    }

    method TestPropertiesReport(deviceId: array<char>, recvbuf: array<char>)
      requires Terminated(deviceId[..]) && Terminated(recvbuf[..])
      modifies this`out
      ensures var text := Payload(Str(recvbuf[..]));
              out == old(out) + if |text| < SERVICE_CAP then [PropertiesSent(Str(deviceId[..]), text)] else []
    {
      var service := new char[SERVICE_CAP](_ => NUL);
      var ret := SprintfS(service, PAYLOAD_HEAD, recvbuf, PAYLOAD_TAIL);
      if ret < 0 {
        return;
      }
      assert deviceId[0..] == deviceId[..] && service[0..] == service[..];
      var id := ReadString(deviceId, 0);
      var properties := ReadString(service, 0);
      out := out + [PropertiesSent(id, properties)];
    }

    method SendMessageToSubDevice(payload: string)
      modifies this`out
      ensures out == old(out) + [Reply(payload)]
    {
      out := out + [Reply(payload)];
    }

    /** `buf` starts with the literal `word`: strstr finds it at the very start. */
    method StartsWith(buf: array<char>, word: string) returns (yes: bool)
      requires Terminated(buf[..]) && word != ""
      ensures yes <==> word <= Str(buf[..])
    {
      var r := StrInStr(buf, word);
      yes := r == Some(0);
      assert OccursAt(Str(buf[..]), word, 0) <==> word <= Str(buf[..]);
    }

    /** The branches of the client loop on one received text; `false` where the code leaves the loop. */
    method Dispatch(recvbuf: array<char>) returns (alive: bool)
      requires Stored()
      requires recvbuf != gBridgeDeviceId && recvbuf != gBridgePassword
      requires Terminated(recvbuf[..]) && |Str(recvbuf[..])| < RECV_CAP
      modifies this`out, gBridgeDeviceId, gBridgePassword, recvbuf
      ensures Stored()
      ensures alive <==> !Classify(Str(old(recvbuf[..]))).Unsplit?
      ensures View(None) == Handle(old(View(None)), Str(old(recvbuf[..])))
    {
      assert recvbuf[0..] == recvbuf[..];
      var len := StrLen(recvbuf, 0);
      var login := StartsWith(recvbuf, LOGIN);
      if len > |LOGIN| && login {
        alive := HandleLogin(recvbuf);
        if !alive {
          return;
        }
      } else {
        HandleOther(recvbuf, len);
      }
      SendMessageToSubDevice(OK);
      alive := true;
    }

    /** The branches behind the login branch. */
    method HandleOther(recvbuf: array<char>, len: nat)
      requires Stored() && Terminated(recvbuf[..]) && len == |Str(recvbuf[..])|
      requires !(len > |LOGIN| && LOGIN <= Str(recvbuf[..]))
      modifies this`out
      ensures View(None) == Effect(old(View(None)), Str(recvbuf[..]))
      ensures !Classify(Str(recvbuf[..])).Unsplit?
    {
      ghost var text := Str(recvbuf[..]);
      Branches(text);
      var logout := StartsWith(recvbuf, LOGOUT);
      if len == |LOGOUT| && logout {
        TestBridgeLogout(gBridgeDeviceId);
        return;
      }
      var reset := StartsWith(recvbuf, NEW_SECRET);
      if len > |NEW_SECRET| && reset {
        StrSuffix(recvbuf[..], |NEW_SECRET|);
        assert recvbuf[|NEW_SECRET|..] == recvbuf[..][|NEW_SECRET|..];
        TestBridgeResetSecret(gBridgeDeviceId, recvbuf, |NEW_SECRET|);
      } else {
        TestPropertiesReport(gBridgeDeviceId, recvbuf);
      }
    }

    /** Finds the first ';' of a login frame and overwrites it, leaving two strings behind. */
    method SplitLogin(recvbuf: array<char>) returns (sum: Option<nat>)
      requires Terminated(recvbuf[..]) && |LOGIN| < |Str(recvbuf[..])| && LOGIN <= Str(recvbuf[..])
      modifies recvbuf
      ensures sum.None? ==> Classify(Str(old(recvbuf[..]))).Unsplit?
      ensures sum.Some? ==>
                && |LOGIN| <= sum.value < recvbuf.Length
                && Terminated(recvbuf[|LOGIN|..]) && Terminated(recvbuf[sum.value + 1..])
                && Classify(Str(old(recvbuf[..]))) == Login(Str(recvbuf[|LOGIN|..]), Str(recvbuf[sum.value + 1..]))
    {
      ghost var before := recvbuf[..];
      ghost var text := Str(before);
      LoginUnsplit(text);
      sum := StrChr(recvbuf, ';');
      if sum.Some? {
        var k := sum.value;
        StringAt(before, k);
        LoginSplit(text, k);
        recvbuf[k] := NUL;
        assert recvbuf[..] == before[k := NUL];
        SplitInPlace(before, k, |LOGIN|);
        assert recvbuf[|LOGIN|..] == recvbuf[..][|LOGIN|..] && recvbuf[k + 1..] == recvbuf[..][k + 1..];
      }
    }

    /** The login branch: split in place, then log in with what stands around the ';'. */
    method HandleLogin(recvbuf: array<char>) returns (alive: bool)
      requires Stored()
      requires recvbuf != gBridgeDeviceId && recvbuf != gBridgePassword
      requires Terminated(recvbuf[..]) && |LOGIN| < |Str(recvbuf[..])| < RECV_CAP && LOGIN <= Str(recvbuf[..])
      modifies this`out, gBridgeDeviceId, gBridgePassword, recvbuf
      ensures Stored()
      ensures alive <==> !Classify(Str(old(recvbuf[..]))).Unsplit?
      ensures View(None) == Effect(old(View(None)), Str(old(recvbuf[..])))
    {
      if Classify(Str(recvbuf[..])).Login? {
        LoginFits(Str(recvbuf[..]));
      }
      var sum := SplitLogin(recvbuf);
      alive := sum.Some?;
      if alive {
        TestBridgeLogin(recvbuf, |LOGIN|, sum.value + 1);
      }
    }

    /** One received frame, as one event of the run. */
    method HandleFrame(recvbuf: array<char>, ghost n: nat, ghost bytes: seq<char>) returns (alive: bool)
      requires Valid(Some(n)) && 1 <= |bytes| < RECV_CAP
      requires recvbuf != gBridgeDeviceId && recvbuf != gBridgePassword
      requires Terminated(recvbuf[..]) && Str(recvbuf[..]) == Str(bytes)
      modifies this`out, this`history, gBridgeDeviceId, gBridgePassword, recvbuf
      ensures history == old(history) + [Chunk(bytes)]
      ensures Valid(if alive then Counted(n + 1) else None)
    {
      FrameStep(View(Some(n)), bytes);
      alive := Dispatch(recvbuf);
      Pass(Chunk(bytes));
    }

    /** Clears the buffer, receives into it and terminates what came. */
    method Receive(recvbuf: array<char>, ghost n: nat) returns (recvLen: int, ghost bytes: seq<char>)
      requires Valid(Some(n))
      requires recvbuf.Length == RECV_CAP && recvbuf != gBridgeDeviceId && recvbuf != gBridgePassword
      modifies this`events, this`history, gBridgePassword, recvbuf
      ensures recvLen <= 0 ==> Valid(None) && old(history + events) <= history + events
      ensures recvLen > 0 ==> Valid(Some(n)) && 1 <= |bytes| < RECV_CAP
      ensures recvLen > 0 ==> old(history + events) <= history + [Chunk(bytes)] + events
      ensures recvLen > 0 ==> Terminated(recvbuf[..]) && Str(recvbuf[..]) == Str(bytes)
    {
      MemZero(recvbuf);
      recvLen, bytes := Recv(recvbuf, n);
      if recvLen > 0 {
        recvbuf[recvLen] := NUL;
        ReceivedText(recvbuf[..], bytes);
      }
    }

    /** One round of the client loop: one frame is received and served, or the connection is over. */
    method ServeFrame(recvbuf: array<char>, ghost n: nat) returns (alive: bool)
      requires Valid(Some(n))
      requires recvbuf.Length == RECV_CAP && recvbuf != gBridgeDeviceId && recvbuf != gBridgePassword
      modifies this, gBridgeDeviceId, gBridgePassword, recvbuf
      ensures Valid(if alive then Counted(n + 1) else None) && taken == old(taken)
      ensures old(history + events) <= history + events
    {
      var recvLen, bytes := Receive(recvbuf, n);
      if recvLen <= 0 {
        return false;
      }
      alive := HandleFrame(recvbuf, n, bytes);
    }

    /** One client connection: at most 1000 frames, until recv fails or a login cannot be split. */
    method ProcessMessageFromClient()
      requires Valid(Some(0))
      modifies this, gBridgeDeviceId, gBridgePassword
      ensures Valid(None) && taken == old(taken) && old(history + events) <= history + events
    {
      var recvbuf := new char[RECV_CAP](_ => NUL);
      var i := 0;
      while i < MAX_FRAMES
        invariant i <= MAX_FRAMES && Valid(Counted(i)) && taken == old(taken)
        invariant old(history + events) <= history + events
      {
        var alive := ServeFrame(recvbuf, i);
        if !alive {
          return;
        }
        i := i + 1;
      }
    }

    /** accept: waits for the next connection; frames nobody reads are dropped. */
    method AcceptClient() returns (accepted: bool)
      requires Valid(None)
      modifies this`events, this`history, this`taken, gBridgePassword
      ensures Valid(if accepted then Some(0) else None)
      ensures history + events == old(history + events)
      ensures if accepted then taken == old(taken) + 1 else taken == old(taken) && events == []
    {
      while events != []
        invariant Valid(None) && taken == old(taken) && history + events == old(history + events)
        decreases |events|
      {
        var e := events[0];
        events := events[1..];
        assert history + [e] + events == old(history + events);
        match e
        case Accept =>
          Pass(e);
          taken := taken + 1;
          return true;
        case Rotate(secret) =>
          HandleRotation(secret, None);
        case _ =>
          Pass(e);
      }
      accepted := false;
    }

    /** The server's main loop: one client connection after the other, the globals kept from each to the
        next, until `limit` of them were served or the world has nothing more to do. Everything it sends
        speaks for the last login, and every request is answered. */
    method ServeClients(limit: nat) returns (count: nat)
      requires Valid(None)
      modifies this, gBridgeDeviceId, gBridgePassword
      ensures Valid(None) && old(history + events) <= history + events
      ensures taken == old(taken) + count && count <= limit && (count < limit ==> events == [])
      ensures BridgeRuns.Attributed(out) && BridgeRuns.Answered(out)
    {
      count := 0;
      while count < limit
        invariant count <= limit && taken == old(taken) + count
        invariant Valid(None) && old(history + events) <= history + events
      {
        var accepted := AcceptClient();
        if !accepted {
          break;
        }
        ProcessMessageFromClient();
        count := count + 1;
      }
      BridgeRuns.RequestsSpeakForTheLastLogin(history);
      BridgeRuns.EveryRequestIsAnswered(history);
    }
  }

  /** A frame as the loop handles it, its counter aside. */
  lemma FrameStep(b: Bridge, bytes: Received)
    requires b.conn.Some?
    ensures var text := Str(bytes);
            Step(b, Chunk(bytes)) == Handle(b.(conn := None), text).(
              conn := if Classify(text).Unsplit? then None else Counted(b.conn.value + 1))
  {
  }

  /** The keyword has no ';', so a login frame has one exactly if its rest has. */
  lemma LoginUnsplit(text: string)
    requires |text| > |LOGIN| && LOGIN <= text
    ensures Classify(text).Unsplit? <==> ';' !in text
    ensures forall i :: 0 <= i < |LOGIN| ==> text[i] != ';'
  {
    assert text == text[..|LOGIN|] + text[|LOGIN|..];
    assert text[..|LOGIN|] == LOGIN;
    assert forall i :: 0 <= i < |LOGIN| ==> text[i] == LOGIN[i];
  }

  /** The first ';' of a login frame lies behind the keyword, and the two halves around it are the fields. */
  lemma LoginSplit(text: string, k: nat)
    requires |text| > |LOGIN| && LOGIN <= text
    requires k < |text| && text[k] == ';' && ';' !in text[..k]
    ensures k >= |LOGIN| && Classify(text) == Login(text[|LOGIN|..k], text[k + 1..])
  {
    LoginUnsplit(text);
    var rest, j := text[|LOGIN|..], k - |LOGIN|;
    assert rest[..j] == text[..k][|LOGIN|..];
    FirstIndex(rest, ';', j);
  }

  /** Overwriting position `k` of a stored text by NUL leaves two strings, one on each side. */
  lemma SplitInPlace(m: seq<char>, k: nat, off: nat)
    requires Terminated(m) && off <= k < |Str(m)|
    ensures var cut := m[k := NUL];
            && Terminated(cut[off..]) && Str(cut[off..]) == Str(m)[off..k]
            && Terminated(cut[k + 1..]) && Str(cut[k + 1..]) == Str(m)[k + 1..]
  {
    var cut := m[k := NUL];
    assert cut[off..][k - off] == NUL;
    assert cut[off..][..k - off] == Str(m)[off..k];
    StrEnds(cut[off..], k - off);
    assert cut[k + 1..] == m[k + 1..];
    StrSuffix(m, k + 1);
  }
}
