/** The gateway on values. Two threads share the current sub-device id: the client loop reads it,
    the platform's callback writes it, one successful device at a time: first the copy into the
    global, then the ONLINE report of what the global holds. */
module GatewayProtocol {
  import opened CString

  const OK: string := "OK!"
  const PAYLOAD_HEAD: string := "{\"Smoke_value\":"
  const PAYLOAD_TAIL: string := "}"
  const RECV_CAP: nat := 125     // MAX_MESSAGE_BUF_LEN
  const ID_CAP: nat := 128       // gSubDeviceId
  const MAX_FRAMES: nat := 1000  // frames served on one connection

  datatype Frame =
    | Add(nodeId: string)
    | Exit
    | Del
    | Data(text: string)
    | Empty

  /** The frame a received text is taken for; "ID:" with at most three characters behind it is data. */
  function Classify(s: string): Frame {
    if |s| > 6 && s[0] == 'I' && s[1] == 'D' && s[2] == ':' then Add(s[3..])
    else if s == "exit" then Exit
    else if s == "del" then Del
    else if s != "" then Data(s)
    else Empty
  }

  function Show(f: Frame): string {
    match f
    case Add(node) => "ID:" + node
    case Exit => "exit"
    case Del => "del"
    case Data(text) => text
    case Empty => ""
  }

  /** The frames a client can mean; "ID:" needs more than three characters behind it. */
  predicate Canonical(f: Frame) {
    match f
    case Add(node) => |node| > 3
    case Data(text) => text !in ["", "exit", "del"] && !("ID:" <= text && |text| > 6)
    case _ => true
  }

  /** A text is read as `f` exactly when it prints `f`. */
  lemma FrameRoundTrip(s: string, f: Frame)
    ensures Classify(s) == f <==> Canonical(f) && s == Show(f)
  {
    assert "ID:" <= s ==> s == "ID:" + s[3..];
    if f.Add? {
      assert Show(f)[3..] == f.nodeId;
    }
  }

  /** What leaves the gateway: requests and reports to the platform, and replies to the TCP client. */
  datatype Output =
    | AddSent(nodeId: string, productId: string)
    | Status(id: string, online: bool)
    | DeleteSent(id: string)
    | PropertiesSent(id: string, payload: string)
    | Reply(text: string)

  type Received = b: seq<char> | 1 <= |b| < RECV_CAP witness "x"

  datatype Event =
    | Accept                                                // a client connection is taken up
    | Chunk(bytes: Received)                                // recv delivers bytes
    | Closed                                                // recv fails or the peer is gone
    | AddResponse(added: seq<string>, failed: seq<string>)  // the platform answers an add request
    | DelResponse(deleted: seq<string>)                     // the platform answers a delete request
    | CopyId                                                // the callback copies the next added id
    | ReportOnline                                          // the callback reports the copied id

  /** How the client loop was started: the product of new sub-devices, and the id data frames are
      reported under. None stands for the pointer from getTcpDeviceId, which follows the current id. */
  datatype Config = Config(productId: string, reportAs: Option<string>)

  /** The current id, the ids the callback has yet to report, whether the first of them is already
      copied, the frames served on the open connection (if any), and everything sent. */
  datatype Gateway = Gateway(current: string, batch: seq<string>, copied: bool, conn: Option<nat>, out: seq<Output>)

  const INITIAL := Gateway("", [], false, None, [])

  /** What the 128-byte global keeps of an id: nothing if it does not fit. */
  function Kept(id: string): string {
    Fit(Str(id), ID_CAP)
  }

  function Payload(text: string): string {
    PAYLOAD_HEAD + text + PAYLOAD_TAIL
  }

  /** The id data frames are reported under right now. */
  function Reporter(c: Config, g: Gateway): string {
    if c.reportAs.Some? then c.reportAs.value else g.current
  }

  /** The request a frame makes, if it makes one. */
  function Request(c: Config, g: Gateway, f: Frame): Option<Output> {
    match f
    case Add(node) => Some(AddSent(node, c.productId))
    case Exit => Some(Status(g.current, false))
    case Del => Some(DeleteSent(g.current))
    case Data(t) => if Reporter(c, g) == "" then None else Some(PropertiesSent(Reporter(c, g), Payload(t)))
    case Empty => None
  }

  function Counted(n: nat): Option<nat> {
    if n < MAX_FRAMES then Some(n) else None
  }

  /** What an event adds to the trace. */
  function Emitted(c: Config, g: Gateway, e: Event): seq<Output> {
    match e
    case Chunk(bytes) =>
      if g.conn.None? then []
      else
        var r := Request(c, g, Classify(Str(bytes)));
        if r.Some? then [r.value, Reply(OK)] else [Reply(OK)]
    case Accept => if g.conn.None? && g.current != "" then [Status(g.current, true)] else []
    case ReportOnline => if g.copied then [Status(g.current, true)] else []
    case _ => []
  }

  /** A frame's request comes with its answer; any other output is one ONLINE report of the current id. */
  lemma EmittedShape(c: Config, g: Gateway, e: Event)
    ensures var os := Emitted(c, g, e);
            if e.Chunk? && g.conn.Some? then
              var r := Request(c, g, Classify(Str(e.bytes)));
              && os == (if r.Some? then [r.value, Reply(OK)] else [Reply(OK)])
              && (r.Some? ==> !r.value.Reply? && !(r.value.Status? && r.value.online))
            else os == [] || os == [Status(g.current, true)]
  {
  }

  function Step(c: Config, g: Gateway, e: Event): Gateway {
    var h := g.(out := g.out + Emitted(c, g, e));
    match e
    case Accept => if g.conn.None? then h.(conn := Some(0)) else h
    case Chunk(_) => if g.conn.None? then h else h.(conn := Counted(g.conn.value + 1))
    case Closed => h.(conn := None)
    case AddResponse(added, _) => h.(batch := g.batch + added)
    case DelResponse(_) => h
    case CopyId => if g.copied || g.batch == [] then h else h.(current := Kept(g.batch[0]), copied := true)
    case ReportOnline => if g.copied && g.batch != [] then h.(batch := g.batch[1..], copied := false) else h
  }

  function Run(c: Config, g: Gateway, es: seq<Event>): Gateway {
    if es == [] then g else Step(c, Run(c, g, es[..|es| - 1]), es[|es| - 1])
  }

  lemma RunSnoc(c: Config, g: Gateway, es: seq<Event>, e: Event)
    ensures Run(c, g, es + [e]) == Step(c, Run(c, g, es), e)
  {
    assert (es + [e])[..|es|] == es;
  }

  /** The client connections taken up in a run. */
  function Connections(c: Config, es: seq<Event>): nat {
    if es == [] then 0
    else
      var n := |es| - 1;
      Connections(c, es[..n]) + if es[n].Accept? && Run(c, INITIAL, es[..n]).conn.None? then 1 else 0
  }

  lemma {:induction false} RunCat(c: Config, g: Gateway, xs: seq<Event>, ys: seq<Event>)
    ensures Run(c, g, xs + ys) == Run(c, Run(c, g, xs), ys)
  {
    if ys == [] {
      assert xs + ys == xs;
    } else {
      var n := |ys| - 1;
      assert xs + ys == xs + ys[..n] + [ys[n]];
      RunSnoc(c, g, xs + ys[..n], ys[n]);
      RunCat(c, g, xs, ys[..n]);
    }
  }

  lemma RunTwo(c: Config, g: Gateway, x: Event, y: Event)
    ensures Run(c, g, [x, y]) == Step(c, Step(c, g, x), y)
  {
    RunSnoc(c, g, [], x);
    RunSnoc(c, g, [x], y);
    assert [] + [x] == [x] && [x] + [y] == [x, y];
  }

  /** What every step keeps: a copied id waits for its report at the head of the batch. */
  predicate Coherent(g: Gateway) {
    g.copied ==> g.batch != [] && g.current == Kept(g.batch[0])
  }

  lemma CoherentStep(c: Config, g: Gateway, e: Event)
    requires Coherent(g)
    ensures Coherent(Step(c, g, e))
  {
  }

  lemma {:induction false} CoherentRun(c: Config, g: Gateway, es: seq<Event>)
    requires Coherent(g)
    ensures Coherent(Run(c, g, es))
  {
    if es != [] {
      CoherentRun(c, g, es[..|es| - 1]);
      CoherentStep(c, Run(c, g, es[..|es| - 1]), es[|es| - 1]);
    }
  }
}
