/** The callback's lists of added devices: every entry is reported once and in order. */
module GatewayBatches {
  import opened CString
  import opened GatewayProtocol

  /** The ids as the 128-byte global stores them. */
  function FitAll(ids: seq<string>): (stored: seq<string>)
    ensures |stored| == |ids|
  {
    if ids == [] then [] else FitAll(ids[..|ids| - 1]) + [Kept(ids[|ids| - 1])]
  }

  lemma {:induction false} FitAllCat(xs: seq<string>, ys: seq<string>)
    ensures FitAll(xs + ys) == FitAll(xs) + FitAll(ys)
  {
    if ys == [] {
      assert xs + ys == xs;
    } else {
      var n := |ys| - 1;
      assert (xs + ys)[..|xs| + n] == xs + ys[..n];
      FitAllCat(xs, ys[..n]);
    }
  }

  lemma FitAllHead(ids: seq<string>)
    requires ids != []
    ensures FitAll(ids) == [Kept(ids[0])] + FitAll(ids[1..])
  {
    assert ids == [ids[0]] + ids[1..];
    FitAllCat([ids[0]], ids[1..]);
    assert [ids[0]][..0] == [];
  }

  /** What a step adds to the ids to report, and what it reports. */
  function AddedBy(e: Event): seq<string> {
    if e.AddResponse? then e.added else []
  }

  function ReportedBy(g: Gateway, e: Event): seq<string> {
    if e.ReportOnline? && g.copied then [g.current] else []
  }

  lemma BatchStep(c: Config, g: Gateway, e: Event)
    requires Coherent(g)
    ensures ReportedBy(g, e) + FitAll(Step(c, g, e).batch) == FitAll(g.batch) + FitAll(AddedBy(e))
  {
    if e.AddResponse? {
      FitAllCat(g.batch, e.added);
    } else if e.ReportOnline? && g.copied {
      FitAllHead(g.batch);
    }
  }

  /** All ids the platform reported as added, in order. */
  function AddedIds(es: seq<Event>): seq<string> {
    if es == [] then [] else AddedIds(es[..|es| - 1]) + AddedBy(es[|es| - 1])
  }

  /** All ids the callback has reported ONLINE, in order. */
  function CallbackReports(c: Config, es: seq<Event>): seq<string> {
    if es == [] then []
    else CallbackReports(c, es[..|es| - 1]) + ReportedBy(Run(c, INITIAL, es[..|es| - 1]), es[|es| - 1])
  }

  lemma Regroup(done: seq<string>, now: seq<string>, rest: seq<string>, before: seq<string>, more: seq<string>)
    requires now + rest == before + more
    ensures done + now + rest == done + before + more
  {
    assert done + now + rest == done + (now + rest);
    assert done + before + more == done + (before + more);
  }

  /** In every interleaving the callback reports every added id exactly once and in order: what it has
      reported and what it still holds are together all that was ever added. */
  lemma {:induction false} BatchesAreConserved(c: Config, es: seq<Event>)
    ensures CallbackReports(c, es) + FitAll(Run(c, INITIAL, es).batch) == FitAll(AddedIds(es))
  {
    if es != [] {
      var n := |es| - 1;
      var e, g := es[n], Run(c, INITIAL, es[..n]);
      var reported, added := CallbackReports(c, es[..n]), AddedIds(es[..n]);
      BatchesAreConserved(c, es[..n]);
      CoherentRun(c, INITIAL, es[..n]);
      BatchStep(c, g, e);
      FitAllCat(added, AddedBy(e));
      Regroup(reported, ReportedBy(g, e), FitAll(Step(c, g, e).batch), FitAll(g.batch), FitAll(AddedBy(e)));
    }
  }

  /** The steps of the callback for `n` devices in a row. */
  function Handling(n: nat): seq<Event> {
    if n == 0 then [] else Handling(n - 1) + [CopyId, ReportOnline]
  }

  function OnlineReports(ids: seq<string>): (reports: seq<Output>)
    ensures |reports| == |ids| && forall k :: 0 <= k < |ids| ==> reports[k] == Status(Kept(ids[k]), true)
  {
    if ids == [] then [] else OnlineReports(ids[..|ids| - 1]) + [Status(Kept(ids[|ids| - 1]), true)]
  }

  function LastOr(ids: seq<string>, current: string): string {
    if ids == [] then current else Kept(ids[|ids| - 1])
  }

  /** A batch nobody interrupts: one ONLINE report per entry in list order, and the last entry current;
      the failed entries leave no mark. */
  lemma {:induction false} UninterruptedBatch(c: Config, g: Gateway, n: nat)
    requires !g.copied && n <= |g.batch|
    ensures Run(c, g, Handling(n)) ==
            g.(batch := g.batch[n..], current := LastOr(g.batch[..n], g.current),
               out := g.out + OnlineReports(g.batch[..n]))
  {
    if n == 0 {
      assert g.out + OnlineReports(g.batch[..0]) == g.out;
    } else {
      var m := n - 1;
      var h := Run(c, g, Handling(m));
      UninterruptedBatch(c, g, m);
      RunCat(c, g, Handling(m), [CopyId, ReportOnline]);
      CopyAndReport(c, h);
      assert g.batch[..n][..m] == g.batch[..m];
      assert g.batch[m..][1..] == g.batch[n..];
    }
  }

  lemma CopyAndReport(c: Config, g: Gateway)
    requires !g.copied && g.batch != []
    ensures var id := Kept(g.batch[0]);
            Run(c, g, [CopyId, ReportOnline]) ==
            g.(batch := g.batch[1..], current := id, out := g.out + [Status(id, true)])
  {
    RunTwo(c, g, CopyId, ReportOnline);
  }

  lemma QueuedResponse(c: Config, g: Gateway, added: seq<string>, failed: seq<string>)
    requires g.batch == []
    ensures Step(c, g, AddResponse(added, failed)) == g.(batch := added)
  {
    assert [] + added == added && g.out + [] == g.out;
  }

  /** The same for a whole add response that finds the callback idle. */
  lemma HandledResponse(c: Config, es: seq<Event>, added: seq<string>, failed: seq<string>)
    requires var g := Run(c, INITIAL, es); !g.copied && g.batch == []
    ensures var g := Run(c, INITIAL, es);
            Run(c, INITIAL, es + [AddResponse(added, failed)] + Handling(|added|)) ==
            g.(current := LastOr(added, g.current), out := g.out + OnlineReports(added))
  {
    var g, begun := Run(c, INITIAL, es), es + [AddResponse(added, failed)];
    RunSnoc(c, INITIAL, es, AddResponse(added, failed));
    QueuedResponse(c, g, added, failed);
    var h := g.(batch := added);
    assert Run(c, INITIAL, begun) == h;
    RunCat(c, INITIAL, begun, Handling(|added|));
    UninterruptedBatch(c, h, |added|);
    assert added[..|added|] == added && added[|added|..] == [];
  }

  /** The reports name the added devices exactly when every id fits the 128-byte global. */
  lemma ReportsNameTheDevices(ids: seq<string>)
    requires forall k :: 0 <= k < |ids| ==> NUL !in ids[k]
    ensures (forall k :: 0 <= k < |ids| ==> OnlineReports(ids)[k] == Status(ids[k], true))
            <==> (forall k :: 0 <= k < |ids| ==> |ids[k]| < 128)
  {
    forall k | 0 <= k < |ids|
      ensures OnlineReports(ids)[k] == Status(ids[k], true) <==> |ids[k]| < 128
    {
      StrEnds(ids[k], |ids[k]|);
      assert ids[k][..|ids[k]|] == ids[k];
    }
  }
}
