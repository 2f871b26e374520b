/** What every run of the bridge keeps: who its requests speak for, which secret they carry,
    and how many there are. */
module BridgeRuns {
  import opened CString
  import opened BridgeProtocol

  // ----- what one event sends -----

  /** The request a frame makes, if it makes one. */
  function Request(b: Bridge, f: Frame): Option<Output> {
    match f
    case Login(id, pw) => Some(LoginSent(id, pw))
    case Unsplit(_) => None
    case Logout => Some(LogoutSent(b.id))
    case NewSecret(s) => Some(ResetSent(b.id, Some(b.secret), s))
    case Data(t) => if |t| <= 82 then Some(PropertiesSent(b.id, Payload(t))) else None
  }

  /** What an event adds to the trace: a request and its answer, an answer alone, or nothing. */
  function Emitted(b: Bridge, e: Event): seq<Output> {
    if !e.Chunk? || b.conn.None? then []
    else
      var f := Classify(Str(e.bytes));
      if f.Unsplit? then []
      else if Request(b, f).Some? then [Request(b, f).value, Reply(OK)]
      else [Reply(OK)]
  }

  /** The trace grows by exactly that; the bound of 82 characters is that of the wrapper in 100 bytes. */
  lemma StepEmits(b: Bridge, e: Event)
    ensures Step(b, e).out == b.out + Emitted(b, e)
    ensures e.Chunk? && b.conn.Some? && Classify(Str(e.bytes)).Login? ==> Step(b, e).id == Classify(Str(e.bytes)).id
    ensures !(e.Chunk? && b.conn.Some? && Classify(Str(e.bytes)).Login?) ==> Step(b, e).id == b.id
  {
    if e.Chunk? && b.conn.Some? {
      var text := Str(e.bytes);
      var f := Classify(text);
      assert f.Data? ==> |Payload(f.text)| == |f.text| + 17;
      if Request(b, f).Some? {
        assert b.out + [Request(b, f).value] + [Reply(OK)] == b.out + [Request(b, f).value, Reply(OK)];
      }
    }
  }

  // ----- who the requests speak for -----

  predicate SpeaksFor(o: Output) {
    o.LogoutSent? || o.ResetSent? || o.PropertiesSent?
  }

  /** The id of the last login in a trace, or the empty id. */
  function LastLogin(out: seq<Output>): string {
    if out == [] then ""
    else
      var o := out[|out| - 1];
      if o.LoginSent? then o.id else LastLogin(out[..|out| - 1])
  }

  /** Every logout, reset and property request carries the id of the login before it. */
  ghost predicate Attributed(out: seq<Output>) {
    forall k :: 0 <= k < |out| && SpeaksFor(out[k]) ==> out[k].id == LastLogin(out[..k])
  }

  lemma AttributedSnoc(out: seq<Output>, o: Output)
    requires Attributed(out) && (SpeaksFor(o) ==> o.id == LastLogin(out))
    ensures Attributed(out + [o])
    ensures LastLogin(out + [o]) == if o.LoginSent? then o.id else LastLogin(out)
  {
    var more := out + [o];
    assert more[..|out|] == out;
    forall k | 0 <= k < |more| && SpeaksFor(more[k])
      ensures more[k].id == LastLogin(more[..k])
    {
      if k < |out| {
        assert more[..k] == out[..k];
      }
    }
  }

  /** A request speaks for the stored id, except that a login stores the id it sends. */
  lemma EmittedSpeaks(b: Bridge, e: Event)
    ensures var os := Emitted(b, e);
            || (os == [] && Step(b, e).id == b.id)
            || (os == [Reply(OK)] && Step(b, e).id == b.id)
            || (|os| == 2 && os[1] == Reply(OK)
                && if os[0].LoginSent? then Step(b, e).id == os[0].id
                   else Step(b, e).id == b.id && (SpeaksFor(os[0]) ==> os[0].id == b.id))
  {
    StepEmits(b, e);
  }

  lemma AttributedAnswered(out: seq<Output>, o: Output)
    requires Attributed(out) && (SpeaksFor(o) ==> o.id == LastLogin(out))
    ensures Attributed(out + [o, Reply(OK)])
    ensures LastLogin(out + [o, Reply(OK)]) == if o.LoginSent? then o.id else LastLogin(out)
  {
    AttributedSnoc(out, o);
    AttributedSnoc(out + [o], Reply(OK));
    assert out + [o, Reply(OK)] == out + [o] + [Reply(OK)];
  }

  lemma AttributedStep(b: Bridge, e: Event)
    requires Attributed(b.out) && b.id == LastLogin(b.out)
    ensures Attributed(Step(b, e).out) && Step(b, e).id == LastLogin(Step(b, e).out)
  {
    StepEmits(b, e);
    EmittedSpeaks(b, e);
    var os := Emitted(b, e);
    if |os| == 2 {
      assert os == [os[0], Reply(OK)];
      AttributedAnswered(b.out, os[0]);
    } else if |os| == 1 {
      AttributedSnoc(b.out, Reply(OK));
    } else {
      assert b.out + os == b.out;
    }
  }

  /** Over every run, across client connections, logouts and rotations alike. */
  lemma {:induction false} RequestsSpeakForTheLastLogin(es: seq<Event>)
    ensures Attributed(Run(INITIAL, es).out)
    ensures Run(INITIAL, es).id == LastLogin(Run(INITIAL, es).out)
  {
    if es != [] {
      RequestsSpeakForTheLastLogin(es[..|es| - 1]);
      AttributedStep(Run(INITIAL, es[..|es| - 1]), es[|es| - 1]);
    }
  }

  // ----- which secret they carry -----

  /** The secret an event stores, if it stores one: a rotation does (an overlong one the empty
      secret), and a login that is accepted on an open connection. */
  function Stored(b: Bridge, e: Event): Option<string> {
    match e
    case Rotate(s) => if s.Some? then Some(Fit(Str(s.value), GLOBAL_CAP)) else None
    case Chunk(bytes) =>
      if b.conn.Some? && Classify(Str(bytes)).Login? then Some(Classify(Str(bytes)).password) else None
    case _ => None
  }

  /** What each event of a run stores. */
  function StoredBy(es: seq<Event>): (stored: seq<Option<string>>)
    ensures |stored| == |es|
  {
    if es == [] then []
    else
      var n := |es| - 1;
      StoredBy(es[..n]) + [Stored(Run(INITIAL, es[..n]), es[n])]
  }

  /** `v` is the last value stored, or empty when none was. */
  ghost predicate Newest(stored: seq<Option<string>>, v: string) {
    || (v == "" && forall j :: 0 <= j < |stored| ==> stored[j] == None)
    || exists j :: 0 <= j < |stored| && stored[j] == Some(v) && forall i :: j < i < |stored| ==> stored[i] == None
  }

  lemma NewestSnoc(stored: seq<Option<string>>, s: Option<string>, v: string)
    requires Newest(stored, v)
    ensures Newest(stored + [s], if s.Some? then s.value else v)
  {
    var more := stored + [s];
    if s.Some? {
      assert more[|stored|] == s;
    } else if j :| 0 <= j < |stored| && stored[j] == Some(v) && forall i :: j < i < |stored| ==> stored[i] == None {
      assert more[j] == Some(v);
    }
  }

  lemma StepStores(b: Bridge, e: Event)
    ensures Step(b, e).secret == if Stored(b, e).Some? then Stored(b, e).value else b.secret
  {
  }

  lemma {:induction false} SecretIsNewest(es: seq<Event>)
    ensures Newest(StoredBy(es), Run(INITIAL, es).secret)
  {
    if es != [] {
      var n := |es| - 1;
      SecretIsNewest(es[..n]);
      StepStores(Run(INITIAL, es[..n]), es[n]);
      NewestSnoc(StoredBy(es[..n]), Stored(Run(INITIAL, es[..n]), es[n]), Run(INITIAL, es[..n]).secret);
    }
  }

  /** Position `p` of the final trace was written by event `k`. */
  ghost predicate WrittenBy(es: seq<Event>, k: nat, p: nat) {
    k < |es| && |Run(INITIAL, es[..k]).out| <= p < |Run(INITIAL, es[..k + 1]).out|
  }

  lemma EmittedReset(b: Bridge, e: Event, i: nat)
    requires i < |Emitted(b, e)| && Emitted(b, e)[i].ResetSent?
    ensures Emitted(b, e)[i].oldSecret == Some(b.secret)
  {
  }

  /** Every reset request of every run carries, never null, the secret stored most recently before it. */
  lemma {:induction false} OldSecretIsCurrent(es: seq<Event>, p: nat)
    requires p < |Run(INITIAL, es).out| && Run(INITIAL, es).out[p].ResetSent?
    ensures exists k: nat :: WrittenBy(es, k, p)
              && Run(INITIAL, es).out[p].oldSecret.Some?
              && Newest(StoredBy(es[..k]), Run(INITIAL, es).out[p].oldSecret.value)
  {
    var n := |es| - 1;
    var front := es[..n];
    var b := Run(INITIAL, front);
    StepEmits(b, es[n]);
    if p < |b.out| {
      OldSecretIsCurrent(front, p);
      var k: nat :| WrittenBy(front, k, p) && b.out[p].oldSecret.Some?
                     && Newest(StoredBy(front[..k]), b.out[p].oldSecret.value);
      assert front[..k] == es[..k] && front[..k + 1] == es[..k + 1];
      assert WrittenBy(es, k, p);
    } else {
      SecretIsNewest(front);
      EmittedReset(b, es[n], p - |b.out|);
      assert es[..n + 1] == es;
      assert WrittenBy(es, n, p);
    }
  }

  // ----- how many there are -----

  function Replies(out: seq<Output>): nat {
    if out == [] then 0 else Replies(out[..|out| - 1]) + if out[|out| - 1].Reply? then 1 else 0
  }

  function Requests(out: seq<Output>): int {
    |out| - Replies(out)
  }

  /** Frames received on an open connection, the unsplit logins among them, and the data frames too long to report. */
  ghost function Frames(b: Bridge, es: seq<Event>): nat {
    CountFrames(b, es, (f: Frame) => true)
  }

  ghost function CountFrames(b: Bridge, es: seq<Event>, p: Frame -> bool): nat {
    if es == [] then 0
    else
      var n := |es| - 1;
      var e := es[n];
      CountFrames(b, es[..n], p)
      + if e.Chunk? && Run(b, es[..n]).conn.Some? && p(Classify(Str(e.bytes))) then 1 else 0
  }

  predicate UnsplitLogin(f: Frame) {
    f.Unsplit?
  }

  predicate LongData(f: Frame) {
    f.Data? && |f.text| > 82
  }

  lemma RepliesSnoc(out: seq<Output>, o: Output)
    ensures Replies(out + [o]) == Replies(out) + if o.Reply? then 1 else 0
  {
    assert (out + [o])[..|out|] == out;
  }

  /** A frame on an open connection is answered unless it is an unsplit login. */
  predicate Answers(b: Bridge, e: Event) {
    e.Chunk? && b.conn.Some? && !Classify(Str(e.bytes)).Unsplit?
  }

  /** An answer comes with one request, unless the frame is long data. */
  lemma EmittedShape(b: Bridge, e: Event)
    ensures var os := Emitted(b, e);
            if !Answers(b, e) then os == []
            else if LongData(Classify(Str(e.bytes))) then os == [Reply(OK)]
            else |os| == 2 && !os[0].Reply? && os[1] == Reply(OK)
  {
  }

  lemma StepCounts(b: Bridge, e: Event)
    ensures Replies(Step(b, e).out) == Replies(b.out) + if Answers(b, e) then 1 else 0
    ensures Requests(Step(b, e).out) ==
            Requests(b.out) + if Answers(b, e) && !LongData(Classify(Str(e.bytes))) then 1 else 0
  {
    StepEmits(b, e);
    EmittedShape(b, e);
    var os := Emitted(b, e);
    if |os| == 2 {
      assert b.out + os == b.out + [os[0]] + [os[1]];
      RepliesSnoc(b.out, os[0]);
      RepliesSnoc(b.out + [os[0]], os[1]);
    } else if |os| == 1 {
      RepliesSnoc(b.out, os[0]);
    } else {
      assert b.out + os == b.out;
    }
  }

  /** One answer per frame except an unsplit login; one request per answer except for long data. */
  lemma {:induction false} Conservation(b: Bridge, es: seq<Event>)
    ensures Replies(Run(b, es).out) == Replies(b.out) + Frames(b, es) - CountFrames(b, es, UnsplitLogin)
    ensures Requests(Run(b, es).out) - Requests(b.out)
            == Replies(Run(b, es).out) - Replies(b.out) - CountFrames(b, es, LongData)
  {
    if es != [] {
      var n := |es| - 1;
      Conservation(b, es[..n]);
      StepCounts(Run(b, es[..n]), es[n]);
    }
  }

  /** A connection serves at most 1000 frames, and at most its last one is an unsplit login. */
  lemma {:induction false} ConnectionBound(b: Bridge, es: seq<Event>)
    requires b.conn == Some(0)
    requires forall k :: 0 <= k < |es| ==> !es[k].Accept?
    ensures Frames(b, es) <= MAX_FRAMES && CountFrames(b, es, UnsplitLogin) <= 1
    ensures Run(b, es).conn.Some? ==>
              Run(b, es).conn.value == Frames(b, es) < MAX_FRAMES && CountFrames(b, es, UnsplitLogin) == 0
  {
    if es != [] {
      ConnectionBound(b, es[..|es| - 1]);
    }
  }

  /** How often recv delivers bytes. */
  function Chunks(es: seq<Event>): nat {
    if es == [] then 0 else Chunks(es[..|es| - 1]) + if es[|es| - 1].Chunk? then 1 else 0
  }

  /** An event that does not end a connection: a rotation, or a frame other than a login without ';'. */
  predicate GoesOn(e: Event) {
    e.Rotate? || (e.Chunk? && var text := Str(e.bytes); !("Login:" <= text && |text| > 6 && ';' !in text))
  }

  lemma GoesOnIsSplit(text: string)
    requires Classify(text).Unsplit?
    ensures "Login:" <= text && |text| > 6 && ';' !in text
  {
    assert text == "Login:" + text[6..] && ';' !in "Login:";
  }

  /** `n` frames were received on the connection, after `before` replies. */
  predicate Served(b: Bridge, before: nat, n: nat) {
    && Replies(b.out) == before + (if n <= 1000 then n else 1000)
    && b.conn == if n < 1000 then Some(n) else None
  }

  lemma ServedStep(b: Bridge, e: Event, before: nat, n: nat)
    requires Served(b, before, n) && GoesOn(e)
    ensures Served(Step(b, e), before, if e.Chunk? then n + 1 else n)
  {
    StepCounts(b, e);
    if e.Chunk? && Classify(Str(e.bytes)).Unsplit? {
      GoesOnIsSplit(Str(e.bytes));
    }
  }

  /** A connection serves all its frames up to the thousandth, and ends with that one. */
  lemma {:induction false} ConnectionServes(b: Bridge, es: seq<Event>)
    requires b.conn == Some(0)
    requires forall k :: 0 <= k < |es| ==> GoesOn(es[k])
    ensures Served(Run(b, es), Replies(b.out), Chunks(es))
  {
    if es != [] {
      var n := |es| - 1;
      ConnectionServes(b, es[..n]);
      ServedStep(Run(b, es[..n]), es[n], Replies(b.out), Chunks(es[..n]));
    }
  }

  /** No connection got more than 1000 answers, the open one no more than it counts. */
  predicate WithinBound(b: Bridge, connections: nat) {
    if b.conn.None? then Replies(b.out) <= MAX_FRAMES * connections
    else b.conn.value < MAX_FRAMES && Replies(b.out) <= MAX_FRAMES * (connections - 1) + b.conn.value
  }

  lemma BoundStep(b: Bridge, e: Event, connections: nat)
    requires WithinBound(b, connections)
    ensures WithinBound(Step(b, e), connections + if e.Accept? && b.conn.None? then 1 else 0)
  {
    StepCounts(b, e);
  }

  /** However many connections a run takes up, it never answers more than 1000 frames on each. */
  lemma {:induction false} RepliesPerConnection(es: seq<Event>)
    ensures WithinBound(Run(INITIAL, es), Connections(es))
  {
    if es != [] {
      var n := |es| - 1;
      RepliesPerConnection(es[..n]);
      BoundStep(Run(INITIAL, es[..n]), es[n], Connections(es[..n]));
    }
  }

  /** Every request is answered at once: "OK!" stands right behind it, and nothing else is ever replied. */
  ghost predicate Answered(out: seq<Output>) {
    forall k :: 0 <= k < |out| ==>
      if out[k].Reply? then out[k].text == OK else k + 1 < |out| && out[k + 1].Reply?
  }

  lemma {:induction false} EveryRequestIsAnswered(es: seq<Event>)
    ensures Answered(Run(INITIAL, es).out)
  {
    if es != [] {
      var n := |es| - 1;
      EveryRequestIsAnswered(es[..n]);
      StepEmits(Run(INITIAL, es[..n]), es[n]);
    }
  }
}
