/** Safety over every interleaving of the client loop and the platform's callback: which device the
    requests are about, and what happens to a device that is no longer current. */
module GatewaySafety {
  import opened CString
  import opened GatewayProtocol
  import opened GatewayBatches

  // ----- which device the requests are about -----

  /** The id of the last ONLINE report of a trace, or the empty id. */
  function LastOnline(out: seq<Output>): string {
    if out == [] then ""
    else
      var o := out[|out| - 1];
      if o.Status? && o.online then o.id else LastOnline(out[..|out| - 1])
  }

  /** The id of the first ONLINE report of a trace. */
  function FirstOnline(out: seq<Output>): Option<string> {
    if out == [] then None
    else if out[0].Status? && out[0].online then Some(out[0].id)
    else FirstOnline(out[1..])
  }

  /** OFFLINE reports and deletions are about the current device, and so are property reports
      of a loop that was started with the pointer from getTcpDeviceId. */
  predicate AboutCurrent(c: Config, o: Output) {
    (o.Status? && !o.online) || o.DeleteSent? || (c.reportAs.None? && o.PropertiesSent?)
  }

  /** Everything about the current device is about the device reported ONLINE last. */
  ghost predicate Tracked(c: Config, out: seq<Output>) {
    forall k :: 0 <= k < |out| && AboutCurrent(c, out[k]) ==> out[k].id == LastOnline(out[..k])
  }

  /** A device is reported OFFLINE or deleted. */
  predicate IsDown(o: Output) {
    ((o.Status? && !o.online) || o.DeleteSent?) && o.id != ""
  }

  /** No device is reported OFFLINE or deleted that was not reported ONLINE before. */
  ghost predicate OnlineFirst(out: seq<Output>) {
    forall k :: 0 <= k < |out| && IsDown(out[k]) ==> Status(out[k].id, true) in out[..k]
  }

  lemma {:induction false} LastOnlineWasReported(out: seq<Output>)
    requires LastOnline(out) != ""
    ensures Status(LastOnline(out), true) in out
  {
    var n := |out| - 1;
    if !(out[n].Status? && out[n].online) {
      LastOnlineWasReported(out[..n]);
    }
  }

  lemma TrackedIsOnlineFirst(c: Config, out: seq<Output>)
    requires Tracked(c, out)
    ensures OnlineFirst(out)
  {
    forall k | 0 <= k < |out| && IsDown(out[k])
      ensures Status(out[k].id, true) in out[..k]
    {
      assert AboutCurrent(c, out[k]);
      LastOnlineWasReported(out[..k]);
    }
  }

  lemma LastOnlineSnoc(out: seq<Output>, o: Output)
    ensures LastOnline(out + [o]) == if o.Status? && o.online then o.id else LastOnline(out)
  {
    assert (out + [o])[..|out|] == out;
  }

  /** Outside a copy and its report, the current device is the one reported ONLINE last. */
  predicate Settled(g: Gateway) {
    !g.copied ==> g.current == LastOnline(g.out)
  }

  /** The last ONLINE report of a trace that grows by one event. */
  lemma LastOnlineStep(c: Config, g: Gateway, e: Event)
    ensures LastOnline(Step(c, g, e).out) ==
            if Announces(g, e) then g.current else LastOnline(g.out)
  {
    var os := Emitted(c, g, e);
    EmittedShape(c, g, e);
    if |os| == 2 {
      LastOnlineSnoc(g.out, os[0]);
      LastOnlineSnoc(g.out + [os[0]], os[1]);
      assert g.out + os == g.out + [os[0]] + [os[1]];
    } else if |os| == 1 {
      LastOnlineSnoc(g.out, os[0]);
    } else {
      assert g.out + os == g.out;
    }
  }

  lemma SettledStep(c: Config, g: Gateway, e: Event)
    requires Coherent(g) && Settled(g)
    ensures Settled(Step(c, g, e))
  {
    LastOnlineStep(c, g, e);
  }

  // ----- what the events say about a copied id -----

  /** The client thread takes a connection up and reports the non-empty current id ONLINE again. */
  predicate Greets(g: Gateway, e: Event) {
    e.Accept? && g.conn.None? && g.current != ""
  }

  /** The events that report the current id ONLINE. */
  predicate Announces(g: Gateway, e: Event) {
    Greets(g, e) || (e.ReportOnline? && g.copied)
  }

  predicate Copies(g: Gateway, e: Event) {
    e.CopyId? && !g.copied && g.batch != []
  }

  /** A connection was taken up since the last copy. */
  predicate GreetedSinceCopy(c: Config, es: seq<Event>) {
    if es == [] then false
    else
      var n := |es| - 1;
      var g := Run(c, INITIAL, es[..n]);
      if Copies(g, es[n]) then false else Greets(g, es[n]) || GreetedSinceCopy(c, es[..n])
  }

  /** The id the callback reported last. */
  function LastReport(c: Config, es: seq<Event>): string {
    var reports := CallbackReports(c, es);
    if reports == [] then "" else reports[|reports| - 1]
  }

  /** What the last callback report and the greetings since the copy tell about the current id. */
  predicate Told(g: Gateway, last: string, greeted: bool) {
    && Coherent(g)
    && (!g.copied ==> g.current == last == LastOnline(g.out))
    && (g.copied ==> LastOnline(g.out) == if greeted then g.current else last)
  }

  lemma ToldStep(c: Config, g: Gateway, e: Event, last: string, greeted: bool)
    requires Told(g, last, greeted)
    ensures Told(Step(c, g, e), if e.ReportOnline? && g.copied then g.current else last,
                 if Copies(g, e) then false else Greets(g, e) || greeted)
  {
    CoherentStep(c, g, e);
    LastOnlineStep(c, g, e);
  }

  /** The current id and the last ONLINE report, told by the events: a copied id is current before it is
      reported, and only a new connection reports it in the meantime. */
  lemma {:induction false} CurrentByEvents(c: Config, es: seq<Event>)
    ensures Told(Run(c, INITIAL, es), LastReport(c, es), GreetedSinceCopy(c, es))
  {
    if es != [] {
      var n := |es| - 1;
      CurrentByEvents(c, es[..n]);
      ToldStep(c, Run(c, INITIAL, es[..n]), es[n], LastReport(c, es[..n]), GreetedSinceCopy(c, es[..n]));
    }
  }

  lemma TrackedSnoc(c: Config, out: seq<Output>, o: Output)
    requires Tracked(c, out)
    ensures Tracked(c, out + [o]) <==> (AboutCurrent(c, o) ==> o.id == LastOnline(out))
  {
    var more := out + [o];
    assert more[..|out|] == out;
    assert forall k :: 0 <= k < |out| ==> more[..k] == out[..k];
  }

  /** A frame that speaks about the current device on an open connection. */
  predicate SpeaksAboutCurrent(c: Config, g: Gateway, e: Event) {
    && e.Chunk? && g.conn.Some?
    && var r := Request(c, g, Classify(Str(e.bytes)));
       r.Some? && AboutCurrent(c, r.value)
  }

  /** The same for a request and its answer together. */
  lemma TrackedAnswered(c: Config, out: seq<Output>, o: Output)
    requires Tracked(c, out)
    ensures Tracked(c, out + [o, Reply(OK)]) <==> (AboutCurrent(c, o) ==> o.id == LastOnline(out))
  {
    var two := out + [o, Reply(OK)];
    assert two == out + [o] + [Reply(OK)] && two[..|out| + 1] == out + [o];
    TrackedSnoc(c, out, o);
    if Tracked(c, out + [o]) {
      TrackedSnoc(c, out + [o], Reply(OK));
    } else {
      var k :| 0 <= k < |out| + 1 && AboutCurrent(c, (out + [o])[k])
               && (out + [o])[k].id != LastOnline((out + [o])[..k]);
      assert two[k] == (out + [o])[k] && two[..k] == (out + [o])[..k];
    }
  }

  lemma TrackedPrefix(c: Config, out: seq<Output>, os: seq<Output>)
    requires Tracked(c, out + os)
    ensures Tracked(c, out)
  {
    assert forall k :: 0 <= k < |out| ==> (out + os)[k] == out[k] && (out + os)[..k] == out[..k];
  }

  /** A frame about the current device, served while the callback stands between copy and report: the
      copied id is another than the one reported before, and no connection was taken up since the copy. */
  predicate InTheWindow(c: Config, es: seq<Event>, e: Event) {
    var g := Run(c, INITIAL, es);
    && g.copied && SpeaksAboutCurrent(c, g, e)
    && g.current != LastReport(c, es) && !GreetedSinceCopy(c, es)
  }

  /** The one step that can break tracking, and exactly when it does. */
  lemma TrackedStep(c: Config, es: seq<Event>, e: Event)
    ensures var g := Run(c, INITIAL, es);
            Tracked(c, Step(c, g, e).out) <==> Tracked(c, g.out) && !InTheWindow(c, es, e)
  {
    var g := Run(c, INITIAL, es);
    CurrentByEvents(c, es);
    if Tracked(c, g.out) {
      TrackedExtension(c, g, e);
    } else if Tracked(c, g.out + Emitted(c, g, e)) {
      TrackedPrefix(c, g.out, Emitted(c, g, e));
    }
  }

  lemma TrackedExtension(c: Config, g: Gateway, e: Event)
    requires Tracked(c, g.out)
    ensures Tracked(c, Step(c, g, e).out) <==> (SpeaksAboutCurrent(c, g, e) ==> g.current == LastOnline(g.out))
  {
    var os := Emitted(c, g, e);
    EmittedShape(c, g, e);
    if |os| == 2 {
      TrackedAnswered(c, g.out, os[0]);
    } else if |os| == 1 {
      TrackedSnoc(c, g.out, os[0]);
    } else {
      assert g.out + os == g.out;
    }
  }

  ghost predicate NeverInTheWindow(c: Config, es: seq<Event>) {
    es == [] || (NeverInTheWindow(c, es[..|es| - 1]) && !InTheWindow(c, es[..|es| - 1], es[|es| - 1]))
  }

  /** Whatever a run says about the current device is about the one reported ONLINE last, exactly if
      no frame falls into the window. */
  lemma {:induction false} TrackedExactly(c: Config, es: seq<Event>)
    ensures Tracked(c, Run(c, INITIAL, es).out) <==> NeverInTheWindow(c, es)
  {
    if es != [] {
      TrackedExactly(c, es[..|es| - 1]);
      TrackedStep(c, es[..|es| - 1], es[|es| - 1]);
    }
  }

  // ----- ONLINE before OFFLINE -----

  /** An "exit" or "del" on an open connection. */
  predicate TakesDown(g: Gateway, e: Event) {
    e.Chunk? && g.conn.Some? && Classify(Str(e.bytes)) in {Exit, Del}
  }

  /** An "exit" or "del" while the callback stands between copy and report of a non-empty id: the callback
      never reported that id before, and no connection was taken up since the copy. */
  predicate Early(c: Config, es: seq<Event>, e: Event) {
    var g := Run(c, INITIAL, es);
    && g.copied && TakesDown(g, e)
    && g.current != "" && g.current !in CallbackReports(c, es) && !GreetedSinceCopy(c, es)
  }

  ghost predicate NeverEarly(c: Config, es: seq<Event>) {
    es == [] || (NeverEarly(c, es[..|es| - 1]) && !Early(c, es[..|es| - 1], es[|es| - 1]))
  }

  /** The ids reported ONLINE in a trace, told by the events. */
  lemma {:induction false} AnnouncedByEvents(c: Config, es: seq<Event>, id: string)
    requires id != ""
    ensures var g := Run(c, INITIAL, es);
            Status(id, true) in g.out <==>
            id in CallbackReports(c, es) || (g.copied && GreetedSinceCopy(c, es) && id == g.current)
  {
    if es != [] {
      var n := |es| - 1;
      var g := Run(c, INITIAL, es[..n]);
      AnnouncedByEvents(c, es[..n], id);
      CurrentByEvents(c, es[..n]);
      AnnouncedStep(c, g, es[n], id);
    }
  }

  lemma AnnouncedStep(c: Config, g: Gateway, e: Event, id: string)
    ensures Status(id, true) in Step(c, g, e).out <==> Status(id, true) in g.out || (Announces(g, e) && id == g.current)
  {
    EmittedShape(c, g, e);
  }

  lemma OnlineFirstSnoc(out: seq<Output>, o: Output)
    ensures OnlineFirst(out + [o]) <==> OnlineFirst(out) && (IsDown(o) ==> Status(o.id, true) in out)
  {
    var more := out + [o];
    assert more[..|out|] == out && more[|out|] == o;
    assert forall k :: 0 <= k < |out| ==> more[k] == out[k] && more[..k] == out[..k];
  }

  lemma OnlineFirstAnswered(out: seq<Output>, o: Output)
    ensures OnlineFirst(out + [o, Reply(OK)]) <==> OnlineFirst(out) && (IsDown(o) ==> Status(o.id, true) in out)
  {
    assert out + [o, Reply(OK)] == out + [o] + [Reply(OK)];
    OnlineFirstSnoc(out, o);
    OnlineFirstSnoc(out + [o], Reply(OK));
  }

  lemma OnlineFirstStep(c: Config, g: Gateway, e: Event)
    ensures OnlineFirst(Step(c, g, e).out) <==>
            OnlineFirst(g.out) && (TakesDown(g, e) && g.current != "" ==> Status(g.current, true) in g.out)
  {
    var os := Emitted(c, g, e);
    EmittedShape(c, g, e);
    if |os| == 2 {
      OnlineFirstAnswered(g.out, os[0]);
      assert os == [os[0], Reply(OK)];
    } else if |os| == 1 {
      OnlineFirstSnoc(g.out, os[0]);
    } else {
      assert g.out + os == g.out;
    }
  }

  /** In a run no device is reported OFFLINE or deleted before it is reported ONLINE, exactly if no "exit"
      or "del" comes early. */
  lemma {:induction false} OnlineFirstExactly(c: Config, es: seq<Event>)
    ensures OnlineFirst(Run(c, INITIAL, es).out) <==> NeverEarly(c, es)
  {
    if es != [] {
      var n := |es| - 1;
      var g := Run(c, INITIAL, es[..n]);
      OnlineFirstExactly(c, es[..n]);
      OnlineFirstStep(c, g, es[n]);
      CurrentByEvents(c, es[..n]);
      if g.current != "" {
        AnnouncedByEvents(c, es[..n], g.current);
      }
    }
  }

  /** No frame is served between a copy and its report. */
  ghost predicate Calm(c: Config, es: seq<Event>) {
    es == [] || (Calm(c, es[..|es| - 1]) && (es[|es| - 1].Chunk? ==> !Run(c, INITIAL, es[..|es| - 1]).copied))
  }

  lemma {:induction false} CalmIsOutside(c: Config, es: seq<Event>)
    requires Calm(c, es)
    ensures NeverInTheWindow(c, es)
  {
    if es != [] {
      CalmIsOutside(c, es[..|es| - 1]);
    }
  }

  /** In every interleaving that keeps copy and report together no device is reported OFFLINE, deleted or
      reported on unless it is the one reported ONLINE last. */
  lemma CalmRunsAreTracked(c: Config, es: seq<Event>)
    requires Calm(c, es)
    ensures Tracked(c, Run(c, INITIAL, es).out) && OnlineFirst(Run(c, INITIAL, es).out)
  {
    CalmIsOutside(c, es);
    TrackedExactly(c, es);
    TrackedIsOnlineFirst(c, Run(c, INITIAL, es).out);
  }

  lemma RunFour(c: Config, g: Gateway, e0: Event, e1: Event, e2: Event, e3: Event)
    ensures Run(c, g, [e0, e1, e2, e3]) == Step(c, Step(c, Step(c, Step(c, g, e0), e1), e2), e3)
  {
    assert [e0, e1, e2, e3] == [e0, e1] + [e2, e3];
    RunCat(c, g, [e0, e1], [e2, e3]);
    RunTwo(c, g, e0, e1);
    RunTwo(c, Run(c, g, [e0, e1]), e2, e3);
  }

  /** Copy and report are two steps of another thread: an "exit" between them is reported OFFLINE
      for a device the platform has not seen ONLINE, whatever id the platform gave it. */
  lemma ExitInTheWindow(c: Config, id: string, exit: Received)
    requires Kept(id) != "" && Classify(Str(exit)) == Exit
    ensures var es := [Accept, AddResponse([id], []), CopyId, Chunk(exit)];
            && Run(c, INITIAL, es).out == [Status(Kept(id), false), Reply(OK)]
            && !OnlineFirst(Run(c, INITIAL, es).out)
  {
    RunFour(c, INITIAL, Accept, AddResponse([id], []), CopyId, Chunk(exit));
    var g := Step(c, Step(c, Step(c, INITIAL, Accept), AddResponse([id], [])), CopyId);
    assert g == Gateway(Kept(id), [id], true, Some(0), []) by {
      var h := Step(c, INITIAL, Accept);
      assert h == INITIAL.(conn := Some(0));
      assert Step(c, h, AddResponse([id], [])) == h.(batch := [id]);
    }
    var out := Step(c, g, Chunk(exit)).out;
    assert out == [Status(Kept(id), false), Reply(OK)];
    assert out[0].id != "" && out[..0] == [];
  }

  // ----- every interleaving: at worst one report early -----

  /** What is said at position `k` about the current device is said after its ONLINE report, or while that
      report is the next one to come: either the last ONLINE report names it, or the next one does, or the run stands
      between its copy and its report. */
  predicate AnchoredAt(g: Gateway, k: nat, id: string)
    requires k < |g.out|
  {
    || id == LastOnline(g.out[..k])
    || FirstOnline(g.out[k..]) == Some(id)
    || (FirstOnline(g.out[k..]) == None && g.copied && id == g.current)
  }

  ghost predicate Anchored(c: Config, g: Gateway) {
    forall k: nat :: k < |g.out| && AboutCurrent(c, g.out[k]) ==> AnchoredAt(g, k, g.out[k].id)
  }

  lemma {:induction false} FirstOnlineCat(xs: seq<Output>, ys: seq<Output>)
    ensures FirstOnline(xs + ys) == if FirstOnline(xs).Some? then FirstOnline(xs) else FirstOnline(ys)
  {
    if xs == [] {
      assert xs + ys == ys;
    } else {
      assert (xs + ys)[1..] == xs[1..] + ys;
      FirstOnlineCat(xs[1..], ys);
    }
  }

  /** The ONLINE report an event makes, if it makes one, names the device it leaves current. */
  lemma EmittedOnline(c: Config, g: Gateway, e: Event)
    ensures FirstOnline(Emitted(c, g, e)).Some? ==> FirstOnline(Emitted(c, g, e)) == Some(g.current)
    ensures e.ReportOnline? && g.copied ==> FirstOnline(Emitted(c, g, e)) == Some(g.current)
    ensures Emitted(c, g, e) != [] && AboutCurrent(c, Emitted(c, g, e)[0]) ==>
              Emitted(c, g, e)[0].id == g.current && FirstOnline(Emitted(c, g, e)) == None
  {
    var os := Emitted(c, g, e);
    EmittedShape(c, g, e);
    if |os| == 2 {
      assert os[1..] == [Reply(OK)];
      assert FirstOnline([Reply(OK)]) == FirstOnline([Reply(OK)][1..]) == None;
    } else if |os| == 1 {
      assert os[1..] == [];
    }
  }

  /** A copied id stays copied and current until an event reports it. */
  lemma CopiedStays(c: Config, g: Gateway, e: Event)
    requires g.copied && g.batch != []
    ensures FirstOnline(Emitted(c, g, e)).None? ==> Step(c, g, e).copied && Step(c, g, e).current == g.current
  {
    EmittedOnline(c, g, e);
  }

  lemma AnchoredStep(c: Config, g: Gateway, e: Event)
    requires Coherent(g) && Settled(g) && Anchored(c, g)
    ensures Anchored(c, Step(c, g, e))
  {
    var h := Step(c, g, e);
    var os := Emitted(c, g, e);
    assert h.out == g.out + os;
    EmittedOnline(c, g, e);
    EmittedShape(c, g, e);
    if g.copied {
      CopiedStays(c, g, e);
    }
    forall k: nat | k < |h.out| && AboutCurrent(c, h.out[k])
      ensures AnchoredAt(h, k, h.out[k].id)
    {
      if k < |g.out| {
        assert AnchoredAt(g, k, g.out[k].id);
        assert h.out[..k] == g.out[..k] && h.out[k..] == g.out[k..] + os;
        FirstOnlineCat(g.out[k..], os);
      } else {
        assert k == |g.out| && h.out[k] == os[0];
        assert h.out[..k] == g.out && h.out[k..] == os;
      }
    }
  }

  /** No assumption on the interleaving at all. */
  lemma {:induction false} EveryRunIsAnchored(c: Config, es: seq<Event>)
    ensures Anchored(c, Run(c, INITIAL, es)) && Settled(Run(c, INITIAL, es))
  {
    if es != [] {
      var n := |es| - 1;
      var g := Run(c, INITIAL, es[..n]);
      EveryRunIsAnchored(c, es[..n]);
      CoherentRun(c, INITIAL, es[..n]);
      AnchoredStep(c, g, es[n]);
      SettledStep(c, g, es[n]);
    }
  }

  // ----- superseded devices -----

  predicate Mentions(c: Config, o: Output, d: string) {
    && (o.Status? || o.DeleteSent? || (c.reportAs.None? && o.PropertiesSent?))
    && o.id == d
  }

  /** The status last reported for a device. */
  function LastStatus(out: seq<Output>, d: string): Option<bool> {
    if out == [] then None
    else
      var o := out[|out| - 1];
      if o.Status? && o.id == d then Some(o.online) else LastStatus(out[..|out| - 1], d)
  }

  /** No id of the list is stored as `d`. */
  ghost predicate NotAmong(d: string, ids: seq<string>) {
    forall x :: x in ids ==> Kept(x) != d
  }

  /** `d` is neither current nor waiting to become it. */
  ghost predicate Superseded(g: Gateway, d: string) {
    g.current != d && NotAmong(d, g.batch)
  }

  lemma SupersededStep(c: Config, g: Gateway, e: Event, d: string)
    requires Superseded(g, d) && (e.AddResponse? ==> NotAmong(d, e.added))
    ensures Superseded(Step(c, g, e), d)
    ensures Step(c, g, e).out == g.out + Emitted(c, g, e)
    ensures forall o :: o in Emitted(c, g, e) ==> !Mentions(c, o, d)
  {
    EmittedShape(c, g, e);
  }

  lemma {:induction false} LastStatusCat(c: Config, out: seq<Output>, os: seq<Output>, d: string)
    requires forall o :: o in os ==> !Mentions(c, o, d)
    ensures LastStatus(out + os, d) == LastStatus(out, d)
  {
    if os == [] {
      assert out + os == out;
    } else {
      var n := |os| - 1;
      assert (out + os)[..|out| + n] == out + os[..n];
      assert os[n] in os;
      LastStatusCat(c, out, os[..n], d);
    }
  }

  /** A superseded device is left alone: until the platform reports it added again, no frame, event or
      interleaving reports on it, deletes it or changes its last reported status. */
  lemma {:induction false} SupersededIsFrozen(c: Config, g: Gateway, es: seq<Event>, d: string)
    requires Superseded(g, d)
    requires forall e :: e in es && e.AddResponse? ==> NotAmong(d, e.added)
    ensures Superseded(Run(c, g, es), d)
    ensures g.out <= Run(c, g, es).out
    ensures forall o :: o in Run(c, g, es).out[|g.out|..] ==> !Mentions(c, o, d)
    ensures LastStatus(Run(c, g, es).out, d) == LastStatus(g.out, d)
  {
    if es != [] {
      var n := |es| - 1;
      var h := Run(c, g, es[..n]);
      var os := Emitted(c, h, es[n]);
      SupersededIsFrozen(c, g, es[..n], d);
      assert es[n] in es;
      SupersededStep(c, h, es[n], d);
      LastStatusCat(c, h.out, os, d);
      assert (h.out + os)[|g.out|..] == h.out[|g.out|..] + os;
    }
  }
}
