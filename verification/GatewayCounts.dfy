/** Conservation over every run of the gateway: replies and requests against frames. */
module GatewayCounts {
  import opened CString
  import opened GatewayProtocol

  datatype Kind = Adds | Offlines | Deletes | Reports

  function KindOf(o: Output): Option<Kind> {
    match o
    case AddSent(_, _) => Some(Adds)
    case Status(_, online) => if online then None else Some(Offlines)
    case DeleteSent(_) => Some(Deletes)
    case PropertiesSent(_, _) => Some(Reports)
    case Reply(_) => None
  }

  /** The class of a frame: data counts when a non-empty device id is there to report it under. */
  function FrameKind(c: Config, g: Gateway, f: Frame): Option<Kind> {
    match f
    case Add(_) => Some(Adds)
    case Exit => Some(Offlines)
    case Del => Some(Deletes)
    case Data(_) => if Reporter(c, g) != "" then Some(Reports) else None
    case Empty => None
  }

  function Count(out: seq<Output>, kind: Kind): nat {
    if out == [] then 0
    else Count(out[..|out| - 1], kind) + if KindOf(out[|out| - 1]) == Some(kind) then 1 else 0
  }

  function Replies(out: seq<Output>): nat {
    if out == [] then 0 else Replies(out[..|out| - 1]) + if out[|out| - 1].Reply? then 1 else 0
  }

  /** Frames received on an open connection. */
  function Frames(c: Config, g: Gateway, es: seq<Event>): nat {
    if es == [] then 0
    else
      var n := |es| - 1;
      Frames(c, g, es[..n]) + if es[n].Chunk? && Run(c, g, es[..n]).conn.Some? then 1 else 0
  }

  /** Those of them that are of a given class when they arrive. */
  function FramesOf(c: Config, g: Gateway, es: seq<Event>, kind: Kind): nat {
    if es == [] then 0
    else
      var n := |es| - 1;
      var h := Run(c, g, es[..n]);
      FramesOf(c, g, es[..n], kind)
      + if es[n].Chunk? && h.conn.Some? && FrameKind(c, h, Classify(Str(es[n].bytes))) == Some(kind) then 1 else 0
  }

  lemma {:induction false} CountCat(out: seq<Output>, os: seq<Output>, kind: Kind)
    ensures Count(out + os, kind) == Count(out, kind) + Count(os, kind)
    ensures Replies(out + os) == Replies(out) + Replies(os)
  {
    if os == [] {
      assert out + os == out;
    } else {
      assert (out + os)[..|out| + |os| - 1] == out + os[..|os| - 1];
      CountCat(out, os[..|os| - 1], kind);
    }
  }

  lemma CountFew(x: Output, y: Output, kind: Kind)
    ensures Count([x], kind) == (if KindOf(x) == Some(kind) then 1 else 0)
    ensures Replies([x]) == (if x.Reply? then 1 else 0)
    ensures Count([x, y], kind) == Count([x], kind) + Count([y], kind)
    ensures Replies([x, y]) == Replies([x]) + Replies([y])
  {
    assert [x, y] == [x] + [y];
    CountCat([x], [y], kind);
    assert [x][..0] == [];
  }

  /** A request and its answer count as one reply and one request of the frame's class. */
  lemma AnswerCounts(c: Config, g: Gateway, f: Frame, kind: Kind)
    ensures var r := Request(c, g, f);
            var os := if r.Some? then [r.value, Reply(OK)] else [Reply(OK)];
            Replies(os) == 1 && Count(os, kind) == if FrameKind(c, g, f) == Some(kind) then 1 else 0
  {
    var r := Request(c, g, f);
    CountFew(if r.Some? then r.value else Reply(OK), Reply(OK), kind);
    CountFew(Reply(OK), Reply(OK), kind);
  }

  lemma StepCounts(c: Config, g: Gateway, e: Event, kind: Kind)
    ensures Replies(Step(c, g, e).out) == Replies(g.out) + if e.Chunk? && g.conn.Some? then 1 else 0
    ensures Count(Step(c, g, e).out, kind) == Count(g.out, kind)
            + if e.Chunk? && g.conn.Some? && FrameKind(c, g, Classify(Str(e.bytes))) == Some(kind) then 1 else 0
  {
    EmittedShape(c, g, e);
    CountCat(g.out, Emitted(c, g, e), kind);
    if e.Chunk? && g.conn.Some? {
      AnswerCounts(c, g, Classify(Str(e.bytes)), kind);
    } else if Emitted(c, g, e) != [] {
      CountFew(Status(g.current, true), Reply(OK), kind);
    }
  }

  /** One reply per frame, and one request of each class per frame of that class. */
  lemma {:induction false} Conservation(c: Config, g: Gateway, es: seq<Event>, kind: Kind)
    ensures Replies(Run(c, g, es).out) == Replies(g.out) + Frames(c, g, es)
    ensures Count(Run(c, g, es).out, kind) == Count(g.out, kind) + FramesOf(c, g, es, kind)
  {
    if es != [] {
      var n := |es| - 1;
      Conservation(c, g, es[..n], kind);
      StepCounts(c, Run(c, g, es[..n]), es[n], kind);
    }
  }

  /** A connection serves at most 1000 frames. */
  lemma {:induction false} ConnectionBound(c: Config, g: Gateway, es: seq<Event>)
    requires g.conn == Some(0)
    requires forall k :: 0 <= k < |es| ==> !es[k].Accept?
    ensures Frames(c, g, es) <= MAX_FRAMES
    ensures Run(c, g, es).conn.Some? ==> Run(c, g, es).conn.value == Frames(c, g, es) < MAX_FRAMES
  {
    if es != [] {
      ConnectionBound(c, g, es[..|es| - 1]);
    }
  }

  /** How often recv delivers bytes. */
  function Chunks(es: seq<Event>): nat {
    if es == [] then 0 else Chunks(es[..|es| - 1]) + if es[|es| - 1].Chunk? then 1 else 0
  }

  /** `n` frames were received on the connection, after `before` replies. */
  predicate Served(g: Gateway, before: nat, n: nat) {
    && Replies(g.out) == before + (if n <= 1000 then n else 1000)
    && g.conn == if n < 1000 then Some(n) else None
  }

  lemma ServedStep(c: Config, g: Gateway, e: Event, before: nat, n: nat)
    requires Served(g, before, n) && !e.Accept? && !e.Closed?
    ensures Served(Step(c, g, e), before, if e.Chunk? then n + 1 else n)
  {
    StepCounts(c, g, e, Adds);
  }

  /** A connection serves all its frames up to the thousandth, and ends with that one, whatever the
      callback does in between. */
  lemma {:induction false} ConnectionServes(c: Config, g: Gateway, es: seq<Event>)
    requires g.conn == Some(0)
    requires forall k :: 0 <= k < |es| ==> !es[k].Accept? && !es[k].Closed?
    ensures Served(Run(c, g, es), Replies(g.out), Chunks(es))
  {
    if es != [] {
      var n := |es| - 1;
      ConnectionServes(c, g, es[..n]);
      ServedStep(c, Run(c, g, es[..n]), es[n], Replies(g.out), Chunks(es[..n]));
    }
  }

  /** No connection got more than 1000 answers, the open one no more than it counts. */
  predicate WithinBound(g: Gateway, connections: nat) {
    if g.conn.None? then Replies(g.out) <= MAX_FRAMES * connections
    else g.conn.value < MAX_FRAMES && Replies(g.out) <= MAX_FRAMES * (connections - 1) + g.conn.value
  }

  lemma BoundStep(c: Config, g: Gateway, e: Event, connections: nat)
    requires WithinBound(g, connections)
    ensures WithinBound(Step(c, g, e), connections + if e.Accept? && g.conn.None? then 1 else 0)
  {
    StepCounts(c, g, e, Adds);
  }

  /** However many connections a run takes up, it never answers more than 1000 frames on each. */
  lemma {:induction false} RepliesPerConnection(c: Config, es: seq<Event>)
    ensures WithinBound(Run(c, INITIAL, es), Connections(c, es))
  {
    if es != [] {
      var n := |es| - 1;
      RepliesPerConnection(c, es[..n]);
      BoundStep(c, Run(c, INITIAL, es[..n]), es[n], Connections(c, es[..n]));
    }
  }
}
