/** The bridge protocol on values: what a frame means, what one event does to the session,
    and what a run of events does. The byte-level server in BridgeServer refines this. */
module BridgeProtocol {
  import opened CString

  const LOGIN: string := "Login:"
  const LOGOUT: string := "Logout"
  const NEW_SECRET: string := "newSecret:"
  const PAYLOAD_HEAD: string := "{\"Smoke_value\": "
  const PAYLOAD_TAIL: string := "}"
  const OK: string := "OK!"

  const RECV_CAP: nat := 125     // MAX_MESSAGE_BUF_LEN
  const GLOBAL_CAP: nat := 128   // gBridgeDeviceId, gBridgePassword
  const SERVICE_CAP: nat := 100  // the properties text
  const MAX_FRAMES: nat := 1000  // frames served on one connection

  // ----- frames -----

  datatype Frame =
    | Login(id: string, password: string)
    | Unsplit(text: string)    // a login frame without ';'
    | Logout
    | NewSecret(secret: string)
    | Data(text: string)

  function IndexOf(s: string, c: char): (r: Option<nat>)
    ensures r.None? ==> c !in s
    ensures r.Some? ==> r.value < |s| && s[r.value] == c && c !in s[..r.value]
  {
    if s == [] then None
    else if s[0] == c then Some(0)
    else
      match IndexOf(s[1..], c)
      case None => None
      case Some(k) => Some(k + 1)
  }

  /** An occurrence with none before it is the index. */
  lemma FirstIndex(s: string, c: char, k: nat)
    requires k < |s| && s[k] == c && c !in s[..k]
    ensures IndexOf(s, c) == Some(k)
  {
    if k > 0 {
      assert s[0] in s[..k];
      assert s[1..][..k - 1] == s[..k][1..];
      FirstIndex(s[1..], c, k - 1);
    }
  }

  /** The frame a received text is taken for. */
  function Classify(s: string): Frame {
    if |s| > |LOGIN| && LOGIN <= s then
      var rest := s[|LOGIN|..];
      match IndexOf(rest, ';')
      case None => Unsplit(rest)
      case Some(k) => Login(rest[..k], rest[k + 1..])
    else if |s| == |LOGOUT| && LOGOUT <= s then Logout
    else if |s| > |NEW_SECRET| && NEW_SECRET <= s then NewSecret(s[|NEW_SECRET|..])
    else Data(s)
  }

  /** Which texts take which branch behind the login branch. */
  lemma Branches(s: string)
    requires !(|s| > |LOGIN| && LOGIN <= s)
    ensures Classify(s) == if s == LOGOUT then Logout
                           else if |s| > |NEW_SECRET| && NEW_SECRET <= s then NewSecret(s[|NEW_SECRET|..])
                           else Data(s)
  {
    assert |s| == |LOGOUT| && LOGOUT <= s <==> s == LOGOUT;
  }

  /** A login frame that recv can deliver is short enough for both globals, with room to spare. */
  lemma LoginFits(s: string)
    requires |s| < RECV_CAP && Classify(s).Login?
    ensures |Classify(s).id| + |Classify(s).password| <= 117
    ensures Fit(Classify(s).id, GLOBAL_CAP) == Classify(s).id
    ensures Fit(Classify(s).password, GLOBAL_CAP) == Classify(s).password
  {
  }

  // ----- sessions -----

  /** What leaves the bridge: requests to the platform and replies to the TCP client. */
  datatype Output =
    | LoginSent(id: string, password: string)
    | LogoutSent(id: string)
    | ResetSent(id: string, oldSecret: Option<string>, newSecret: string)
    | PropertiesSent(id: string, payload: string)
    | Reply(text: string)

  /** What one call of recv delivers. */
  type Received = b: seq<char> | 1 <= |b| < RECV_CAP witness "x"

  /** What happens to the bridge process, in the order in which it happens. */
  datatype Event =
    | Accept                           // a client connection is taken up
    | Chunk(bytes: Received)           // recv delivers bytes
    | Closed                           // recv fails or the peer is gone
    | Rotate(secret: Option<string>)   // the platform hands over a new secret; None is a null pointer

  /** The two globals, the frames already served on the open connection (if any), and everything sent. */
  datatype Bridge = Bridge(id: string, secret: string, conn: Option<nat>, out: seq<Output>)

  const INITIAL := Bridge("", "", None, [])

  function Payload(text: string): string {
    PAYLOAD_HEAD + text + PAYLOAD_TAIL
  }

  function Send(b: Bridge, os: seq<Output>): Bridge {
    b.(out := b.out + os)
  }

  /** What a frame does before it is answered: the globals it sets and the request it sends. */
  function Effect(b: Bridge, text: string): Bridge {
    match Classify(text)
    case Login(id, pw) => Send(b.(id := id, secret := pw), [LoginSent(id, pw)])
    case Unsplit(_) => b
    case Logout => Send(b, [LogoutSent(b.id)])
    case NewSecret(s) => Send(b, [ResetSent(b.id, Some(b.secret), s)])
    case Data(t) => if |Payload(t)| < SERVICE_CAP then Send(b, [PropertiesSent(b.id, Payload(t))]) else b
  }

  /** One frame, apart from the frame counter: its effect, then the answer; an unsplit login gets none. */
  function Handle(b: Bridge, text: string): Bridge {
    if Classify(text).Unsplit? then b else Send(Effect(b, text), [Reply(OK)])
  }

  function Counted(n: nat): Option<nat> {
    if n < MAX_FRAMES then Some(n) else None
  }

  function Step(b: Bridge, e: Event): Bridge {
    match e
    case Accept => if b.conn.None? then b.(conn := Some(0)) else b
    case Closed => b.(conn := None)
    case Rotate(s) => if s.Some? then b.(secret := Fit(Str(s.value), GLOBAL_CAP)) else b
    case Chunk(bytes) =>
      if b.conn.None? then b
      else
        var text := Str(bytes);
        Handle(b, text).(conn := if Classify(text).Unsplit? then None else Counted(b.conn.value + 1))
  }

  function Run(b: Bridge, es: seq<Event>): Bridge {
    if es == [] then b else Step(Run(b, es[..|es| - 1]), es[|es| - 1])
  }

  lemma RunSnoc(b: Bridge, es: seq<Event>, e: Event)
    ensures Run(b, es + [e]) == Step(Run(b, es), e)
  {
    assert (es + [e])[..|es|] == es;
  }

  /** The client connections taken up in a run. */
  function Connections(es: seq<Event>): nat {
    if es == [] then 0
    else
      var n := |es| - 1;
      Connections(es[..n]) + if es[n].Accept? && Run(INITIAL, es[..n]).conn.None? then 1 else 0
  }
}
