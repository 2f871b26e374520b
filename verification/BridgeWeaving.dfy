/** Whole runs of frames with freely interleaved halves of rotations: what each reset request carries, and
    which of these runs are runs of whole frames and whole rotations. */
module BridgeWeaving {
  import opened CString
  import opened BridgeProtocol
  import opened BridgeInterleaving

  // ----- a frame among accesses of the callback -----

  datatype Woven = Woven(text: string, gaps: seq<seq<Turn>>)

  /** A frame, with what the callback does in the gaps around and between its accesses. A rotation may
      clear in one round and copy in a later one. */
  type Round = r: Woven | |r.gaps| == |Accesses(Classify(r.text))| + 1 witness Woven("", [[], [], []])

  function Play(b: Bridge, r: Round): Bridge {
    Weave(b, Accesses(Classify(r.text)), r.gaps)
  }

  function PlayAll(b: Bridge, rounds: seq<Round>): Bridge {
    if rounds == [] then b else Play(PlayAll(b, rounds[..|rounds| - 1]), rounds[|rounds| - 1])
  }

  function Texts(rounds: seq<Round>): seq<string> {
    if rounds == [] then [] else Texts(rounds[..|rounds| - 1]) + [rounds[|rounds| - 1].text]
  }

  function AllTurns(rounds: seq<Round>): seq<Turn> {
    if rounds == [] then [] else AllTurns(rounds[..|rounds| - 1]) + Flat(rounds[|rounds| - 1].gaps)
  }

  /** What the callback does before the frame touches the secret, and what it does then. */
  function Front(r: Round): seq<Turn> {
    Flat(r.gaps)[..Ahead(Accesses(Classify(r.text)), r.gaps)]
  }

  function Back(r: Round): seq<Turn> {
    Flat(r.gaps)[Ahead(Accesses(Classify(r.text)), r.gaps)..]
  }

  lemma PlayShape(b: Bridge, r: Round)
    ensures Play(b, r) == TakeAll(Handle(TakeAll(b, Front(r)), r.text), Back(r))
  {
    AccessesMakeTheFrame(TakeAll(b, Front(r)), r.text);
    WeaveTogether(b, Accesses(Classify(r.text)), r.gaps);
  }

  // ----- the secret, told by the accesses -----

  /** The secret stored last by a login or a copy, and whether the last access was a clearing. */
  datatype Secret = Secret(newest: string, torn: bool)

  /** What the memory holds. */
  function Read(s: Secret): string {
    if s.torn then "" else s.newest
  }

  function Turned(s: Secret, turns: seq<Turn>): Secret {
    if turns == [] then s
    else
      var n := |turns| - 1;
      match turns[n]
      case Clear => Turned(s, turns[..n]).(torn := true)
      case Copy(r) => Secret(Fit(Str(r), GLOBAL_CAP), false)
  }

  function Framed(s: Secret, text: string): Secret {
    if Classify(text).Login? then Secret(Classify(text).password, false) else s
  }

  function Passed(s: Secret, r: Round): Secret {
    Turned(Framed(Turned(s, Front(r)), r.text), Back(r))
  }

  function PassedAll(s: Secret, rounds: seq<Round>): Secret {
    if rounds == [] then s else Passed(PassedAll(s, rounds[..|rounds| - 1]), rounds[|rounds| - 1])
  }

  /** What frame `i` finds. */
  function Found(s: Secret, rounds: seq<Round>, i: nat): Secret
    requires i < |rounds|
  {
    Turned(PassedAll(s, rounds[..i]), Front(rounds[i]))
  }

  lemma TurnedIsRead(b: Bridge, s: Secret, turns: seq<Turn>)
    requires b.secret == Read(s)
    ensures TakeAll(b, turns) == b.(secret := Read(Turned(s, turns)))
  {
    TakeAllIsTheLast(b, turns);
  }

  lemma HandleShape(b: Bridge, text: string)
    ensures |Handle(b, text).out| >= |b.out| && Handle(b, text).out[..|b.out|] == b.out
    ensures Classify(text).Login? ==> Handle(b, text).secret == Classify(text).password
    ensures !Classify(text).Login? ==> Handle(b, text).secret == b.secret
    ensures Classify(text).NewSecret? ==>
              Handle(b, text).out == b.out + [ResetSent(b.id, Some(b.secret), Classify(text).secret)] + [Reply(OK)]
  {
  }

  lemma PlayReads(b: Bridge, s: Secret, r: Round)
    requires b.secret == Read(s)
    ensures Play(b, r).secret == Read(Passed(s, r))
    ensures Play(b, r).out == Handle(b.(secret := Read(Turned(s, Front(r)))), r.text).out
    ensures b.out <= Play(b, r).out
  {
    PlayShape(b, r);
    TurnedIsRead(b, s, Front(r));
    var c := TakeAll(b, Front(r));
    HandleShape(c, r.text);
    TurnedIsRead(Handle(c, r.text), Framed(Turned(s, Front(r)), r.text), Back(r));
  }

  lemma {:induction false} PlayAllReads(b: Bridge, s: Secret, rounds: seq<Round>)
    requires b.secret == Read(s)
    ensures PlayAll(b, rounds).secret == Read(PassedAll(s, rounds))
  {
    if rounds != [] {
      var n := |rounds| - 1;
      PlayAllReads(b, s, rounds[..n]);
      PlayReads(PlayAll(b, rounds[..n]), PassedAll(s, rounds[..n]), rounds[n]);
    }
  }

  lemma {:induction false} PlayAllExtends(b: Bridge, rounds: seq<Round>, i: nat)
    requires i <= |rounds|
    ensures PlayAll(b, rounds[..i]).out <= PlayAll(b, rounds).out
  {
    var n := |rounds| - 1;
    if i == |rounds| {
      assert rounds[..i] == rounds;
    } else {
      var c := PlayAll(b, rounds[..n]);
      PlayAllExtends(b, rounds[..n], i);
      assert rounds[..n][..i] == rounds[..i];
      PlayReads(c, Secret(c.secret, false), rounds[n]);
    }
  }

  /** Wherever the halves of rotations fall in a run, finished or not, each reset request carries the secret
      stored last by a login or a copy, or the empty one if a clearing came since. */
  lemma ResetCarries(b: Bridge, s: Secret, rounds: seq<Round>, i: nat)
    requires b.secret == Read(s) && i < |rounds| && Classify(rounds[i].text).NewSecret?
    ensures var p, out := |PlayAll(b, rounds[..i]).out|, PlayAll(b, rounds).out;
            var found := Found(s, rounds, i);
            && p + 1 < |out| && out[p].ResetSent? && out[p].newSecret == Classify(rounds[i].text).secret
            && out[p].oldSecret == Some(if found.torn then "" else found.newest)
            && out[p + 1] == Reply(OK)
  {
    var c := PlayAll(b, rounds[..i]);
    var found := Found(s, rounds, i);
    PlayAllReads(b, s, rounds[..i]);
    PlayReads(c, PassedAll(s, rounds[..i]), rounds[i]);
    HandleShape(c.(secret := Read(found)), rounds[i].text);
    assert rounds[..i + 1][..i] == rounds[..i];
    PlayAllExtends(b, rounds, i + 1);
  }

  /** Frame `i` is a reset, and its request stands at position `p`. */
  predicate SendsAt(b: Bridge, rounds: seq<Round>, i: nat, p: nat) {
    i < |rounds| && Classify(rounds[i].text).NewSecret? && p == |PlayAll(b, rounds[..i]).out|
  }

  /** And no reset request comes from anywhere else. */
  lemma {:induction false} ResetsComeFromFrames(b: Bridge, rounds: seq<Round>, p: nat)
    requires |b.out| <= p < |PlayAll(b, rounds).out| && PlayAll(b, rounds).out[p].ResetSent?
    ensures exists i: nat :: SendsAt(b, rounds, i, p)
  {
    if rounds != [] {
      var n := |rounds| - 1;
      var c := PlayAll(b, rounds[..n]);
      ResetOfTheRound(c, rounds[n], p);
      if p < |c.out| {
        ResetsComeFromFrames(b, rounds[..n], p);
        var i: nat :| SendsAt(b, rounds[..n], i, p);
        assert rounds[..n][..i] == rounds[..i];
        assert SendsAt(b, rounds, i, p);
      } else {
        assert SendsAt(b, rounds, n, p);
      }
    }
  }

  lemma ResetOfTheRound(b: Bridge, r: Round, p: nat)
    requires p < |Play(b, r).out| && Play(b, r).out[p].ResetSent?
    ensures if p < |b.out| then b.out[p] == Play(b, r).out[p] else Classify(r.text).NewSecret? && p == |b.out|
  {
    var s := Secret(b.secret, false);
    PlayReads(b, s, r);
    if p >= |b.out| {
      OneReset(b.(secret := Read(Turned(s, Front(r)))), r.text, p);
    }
  }

  lemma OneReset(b: Bridge, text: string, p: nat)
    requires |b.out| <= p < |Handle(b, text).out| && Handle(b, text).out[p].ResetSent?
    ensures Classify(text).NewSecret? && p == |b.out|
  {
  }

  // ----- runs of whole frames and whole rotations -----

  datatype Whole = WholeFrame(text: string) | WholeRotation(secret: string)

  function PlayWhole(b: Bridge, ws: seq<Whole>): Bridge {
    if ws == [] then b
    else
      var n := |ws| - 1;
      match ws[n]
      case WholeFrame(text) => Handle(PlayWhole(b, ws[..n]), text)
      case WholeRotation(r) => Step(PlayWhole(b, ws[..n]), Rotate(Some(r)))
  }

  function FramesOf(ws: seq<Whole>): seq<string> {
    if ws == [] then []
    else
      var w := ws[|ws| - 1];
      FramesOf(ws[..|ws| - 1]) + if w.WholeFrame? then [w.text] else []
  }

  function RotationsOf(ws: seq<Whole>): seq<string> {
    if ws == [] then []
    else
      var w := ws[|ws| - 1];
      RotationsOf(ws[..|ws| - 1]) + if w.WholeRotation? then [w.secret] else []
  }

  /** A rotation takes place at its copy. */
  function AtTheCopies(turns: seq<Turn>): seq<Whole> {
    if turns == [] then []
    else
      var t := turns[|turns| - 1];
      AtTheCopies(turns[..|turns| - 1]) + if t.Copy? then [WholeRotation(t.secret)] else []
  }

  /** And a frame where it touches the secret. */
  function InPlace(r: Round): seq<Whole> {
    AtTheCopies(Front(r)) + [WholeFrame(r.text)] + AtTheCopies(Back(r))
  }

  function Order(rounds: seq<Round>): seq<Whole> {
    if rounds == [] then [] else Order(rounds[..|rounds| - 1]) + InPlace(rounds[|rounds| - 1])
  }

  lemma {:induction false} PlayWholeCat(b: Bridge, xs: seq<Whole>, ys: seq<Whole>)
    ensures PlayWhole(b, xs + ys) == PlayWhole(PlayWhole(b, xs), ys)
  {
    if ys == [] {
      assert xs + ys == xs;
    } else {
      CutLast(xs, ys);
      PlayWholeCat(b, xs, ys[..|ys| - 1]);
    }
  }

  lemma {:induction false} KeptCat(xs: seq<Whole>, ys: seq<Whole>)
    ensures FramesOf(xs + ys) == FramesOf(xs) + FramesOf(ys)
    ensures RotationsOf(xs + ys) == RotationsOf(xs) + RotationsOf(ys)
  {
    if ys == [] {
      assert xs + ys == xs;
    } else {
      CutLast(xs, ys);
      KeptCat(xs, ys[..|ys| - 1]);
    }
  }

  lemma CutLast(xs: seq<Whole>, ys: seq<Whole>)
    requires ys != []
    ensures var n := |xs + ys| - 1;
            (xs + ys)[..n] == xs + ys[..|ys| - 1] && (xs + ys)[n] == ys[|ys| - 1]
  {
  }

  lemma OneFrame(b: Bridge, text: string)
    ensures PlayWhole(b, [WholeFrame(text)]) == Handle(b, text)
    ensures FramesOf([WholeFrame(text)]) == [text] && RotationsOf([WholeFrame(text)]) == []
  {
    assert [WholeFrame(text)][..0] == [];
  }

  lemma OneRotation(b: Bridge, r: string)
    ensures PlayWhole(b, [WholeRotation(r)]) == Step(b, Rotate(Some(r)))
    ensures FramesOf([WholeRotation(r)]) == [] && RotationsOf([WholeRotation(r)]) == [r]
  {
    assert [WholeRotation(r)][..0] == [];
  }

  lemma {:induction false} RotationsAtTheCopies(b: Bridge, s: Secret, turns: seq<Turn>)
    requires b.secret == s.newest
    ensures PlayWhole(b, AtTheCopies(turns)) == b.(secret := Turned(s, turns).newest)
    ensures FramesOf(AtTheCopies(turns)) == []
  {
    if turns != [] {
      var n := |turns| - 1;
      RotationsAtTheCopies(b, s, turns[..n]);
      if turns[n].Copy? {
        PlayWholeCat(b, AtTheCopies(turns[..n]), [WholeRotation(turns[n].secret)]);
        KeptCat(AtTheCopies(turns[..n]), [WholeRotation(turns[n].secret)]);
        OneRotation(PlayWhole(b, AtTheCopies(turns[..n])), turns[n].secret);
      } else {
        assert AtTheCopies(turns) == AtTheCopies(turns[..n]);
      }
    }
  }

  // ----- the woven run beside the whole one -----

  /** Two sessions that differ at most in a torn secret and in what was sent. */
  predicate Beside(c: Bridge, a: Bridge, s: Secret) {
    && c.secret == Read(s) && |a.out| == |c.out|
    && a == c.(secret := s.newest, out := a.out)
  }

  /** Frame `r` is a reset that finds a torn secret in place of a non-empty one. */
  predicate Harmed(s: Secret, r: Round) {
    Classify(r.text).NewSecret? && Turned(s, Front(r)).torn && Turned(s, Front(r)).newest != ""
  }

  lemma HandleBeside(c: Bridge, a: Bridge, s: Secret, text: string)
    requires Beside(c, a, s)
    ensures Beside(Handle(c, text), Handle(a, text), Framed(s, text))
    ensures Handle(a, text).out == Handle(c, text).out
            <==> a.out == c.out && (Classify(text).NewSecret? && s.torn ==> s.newest == "")
  {
    var f := Classify(text);
    var u, v := Handle(c, text).out, Handle(a, text).out;
    if f.NewSecret? {
      HandleShape(c, text);
      HandleShape(a, text);
      assert u[|c.out|].oldSecret == Some(c.secret) && v[|c.out|].oldSecret == Some(a.secret);
      assert u[..|c.out|] == c.out && v[..|c.out|] == a.out;
    } else if !f.Unsplit? {
      var more := u[|c.out|..];
      assert u == c.out + more && v == a.out + more by {
        SameRequest(c, a, text);
      }
      assert u[..|c.out|] == c.out && v[..|c.out|] == a.out;
    }
  }

  lemma SameRequest(c: Bridge, a: Bridge, text: string)
    requires c.id == a.id && !Classify(text).NewSecret?
    ensures Handle(c, text).out == c.out + Handle(c, text).out[|c.out|..]
    ensures Handle(a, text).out == a.out + Handle(c, text).out[|c.out|..]
  {
    var e := Effect(c.(out := []), text).out;
    if !Classify(text).Unsplit? {
      assert Handle(c, text).out == c.out + (e + [Reply(OK)]);
      assert Handle(a, text).out == a.out + (e + [Reply(OK)]);
    }
  }

  lemma PlayInPlace(a: Bridge, r: Round)
    ensures PlayWhole(a, InPlace(r)) ==
            PlayWhole(Handle(PlayWhole(a, AtTheCopies(Front(r))), r.text), AtTheCopies(Back(r)))
  {
    PlayWholeCat(a, AtTheCopies(Front(r)) + [WholeFrame(r.text)], AtTheCopies(Back(r)));
    PlayWholeCat(a, AtTheCopies(Front(r)), [WholeFrame(r.text)]);
    OneFrame(PlayWhole(a, AtTheCopies(Front(r))), r.text);
  }

  lemma RoundBeside(c: Bridge, a: Bridge, s: Secret, r: Round)
    requires Beside(c, a, s)
    ensures Beside(Play(c, r), PlayWhole(a, InPlace(r)), Passed(s, r))
    ensures PlayWhole(a, InPlace(r)).out == Play(c, r).out <==> a.out == c.out && !Harmed(s, r)
  {
    PlayInPlace(a, r);
    var t := Turned(s, Front(r));
    PlayShape(c, r);
    TurnedIsRead(c, s, Front(r));
    RotationsAtTheCopies(a, s, Front(r));
    var c1, a1 := TakeAll(c, Front(r)), PlayWhole(a, AtTheCopies(Front(r)));
    HandleBeside(c1, a1, t, r.text);
    TurnedIsRead(Handle(c1, r.text), Framed(t, r.text), Back(r));
    RotationsAtTheCopies(Handle(a1, r.text), Framed(t, r.text), Back(r));
  }

  /** No reset of the run is harmed. */
  predicate Unharmed(s: Secret, rounds: seq<Round>) {
    rounds == [] || (Unharmed(s, rounds[..|rounds| - 1])
                     && !Harmed(PassedAll(s, rounds[..|rounds| - 1]), rounds[|rounds| - 1]))
  }

  lemma {:induction false} RunsBeside(b: Bridge, rounds: seq<Round>)
    ensures var s := Secret(b.secret, false);
            && Beside(PlayAll(b, rounds), PlayWhole(b, Order(rounds)), PassedAll(s, rounds))
            && (PlayWhole(b, Order(rounds)).out == PlayAll(b, rounds).out <==> Unharmed(s, rounds))
  {
    if rounds != [] {
      var n := |rounds| - 1;
      RunsBeside(b, rounds[..n]);
      PlayWholeCat(b, Order(rounds[..n]), InPlace(rounds[n]));
      RoundBeside(PlayAll(b, rounds[..n]), PlayWhole(b, Order(rounds[..n])),
                  PassedAll(Secret(b.secret, false), rounds[..n]), rounds[n]);
    }
  }

  // ----- which woven runs are runs of whole frames and whole rotations -----

  lemma {:induction false} CopiesCat(xs: seq<Turn>, ys: seq<Turn>)
    ensures AtTheCopies(xs + ys) == AtTheCopies(xs) + AtTheCopies(ys)
  {
    if ys == [] {
      assert xs + ys == xs;
    } else {
      var n := |ys| - 1;
      assert (xs + ys)[..|xs| + n] == xs + ys[..n];
      CopiesCat(xs, ys[..n]);
    }
  }

  lemma CopyOfOne(r: string)
    ensures AtTheCopies([Clear, Copy(r)]) == [WholeRotation(r)]
  {
    assert [Clear, Copy(r)][..1] == [Clear] && [Clear][..0] == [];
    assert AtTheCopies([Clear]) == AtTheCopies([]) == [];
  }

  lemma RotationBehind(ws: seq<Whole>, r: string)
    ensures RotationsOf(ws + [WholeRotation(r)]) == RotationsOf(ws) + [r]
  {
    assert (ws + [WholeRotation(r)])[..|ws|] == ws;
  }

  lemma {:induction false} CopiesOfTurns(rs: seq<string>)
    ensures RotationsOf(AtTheCopies(Turns(rs))) == rs
  {
    if rs != [] {
      var n := |rs| - 1;
      var turns := Turns(rs[..n]);
      CopiesOfTurns(rs[..n]);
      CopiesCat(turns, [Clear, Copy(rs[n])]);
      CopyOfOne(rs[n]);
      RotationBehind(AtTheCopies(turns), rs[n]);
    }
  }

  lemma NoFrames(turns: seq<Turn>)
    ensures FramesOf(AtTheCopies(turns)) == []
  {
    RotationsAtTheCopies(INITIAL, Secret(INITIAL.secret, false), turns);
  }

  /** One frame, and rotations around it. */
  lemma FrameAmongRotations(y: seq<Whole>, text: string, z: seq<Whole>)
    requires FramesOf(y) == FramesOf(z) == []
    ensures FramesOf(y + [WholeFrame(text)] + z) == [text]
    ensures RotationsOf(y + [WholeFrame(text)] + z) == RotationsOf(y + z)
  {
    KeptCat(y, [WholeFrame(text)]);
    KeptCat(y + [WholeFrame(text)], z);
    KeptCat(y, z);
    OneFrame(INITIAL, text);
  }

  lemma InPlaceKeeps(r: Round)
    ensures FramesOf(InPlace(r)) == [r.text]
    ensures RotationsOf(InPlace(r)) == RotationsOf(AtTheCopies(Flat(r.gaps)))
  {
    NoFrames(Front(r));
    NoFrames(Back(r));
    FrameAmongRotations(AtTheCopies(Front(r)), r.text, AtTheCopies(Back(r)));
    FrontAndBack(r);
    CopiesCat(Front(r), Back(r));
  }

  lemma FrontAndBack(r: Round)
    ensures Front(r) + Back(r) == Flat(r.gaps)
  {
  }

  /** The order keeps the frames and the rotations, each in their own order. */
  lemma {:induction false} OrderKeeps(rounds: seq<Round>)
    ensures FramesOf(Order(rounds)) == Texts(rounds)
    ensures RotationsOf(Order(rounds)) == RotationsOf(AtTheCopies(AllTurns(rounds)))
  {
    if rounds != [] {
      var n := |rounds| - 1;
      var x, y := AllTurns(rounds[..n]), Flat(rounds[n].gaps);
      OrderKeeps(rounds[..n]);
      InPlaceKeeps(rounds[n]);
      KeptCat(Order(rounds[..n]), InPlace(rounds[n]));
      CopiesCat(x, y);
      KeptCat(AtTheCopies(x), AtTheCopies(y));
    }
  }

  /** The last of the turns is a clearing. */
  predicate EndsTorn(turns: seq<Turn>) {
    turns != [] && turns[|turns| - 1].Clear?
  }

  lemma EndsTornCat(x: seq<Turn>, y: seq<Turn>)
    ensures EndsTorn(x + y) <==> if y == [] then EndsTorn(x) else EndsTorn(y)
  {
    assert y == [] ==> x + y == x;
  }

  lemma TornRound(s: Secret, r: Round)
    requires Passed(s, r).torn
    ensures if Flat(r.gaps) == [] then s.torn else EndsTorn(Flat(r.gaps))
  {
    FrontAndBack(r);
    EndsTornCat(Front(r), Back(r));
  }

  lemma {:induction false} TornByTheLast(s: Secret, rounds: seq<Round>)
    requires !s.torn && PassedAll(s, rounds).torn
    ensures EndsTorn(AllTurns(rounds))
  {
    var n := |rounds| - 1;
    var x, y := AllTurns(rounds[..n]), Flat(rounds[n].gaps);
    TornRound(PassedAll(s, rounds[..n]), rounds[n]);
    EndsTornCat(x, y);
    if y == [] {
      TornByTheLast(s, rounds[..n]);
    }
  }

  /** The woven run of whole frames and the two halves of these rotations. */
  predicate Weaves(rounds: seq<Round>, rs: seq<string>) {
    AllTurns(rounds) == Turns(rs)
  }

  /** However the halves of all rotations fall between the accesses of all frames, the run is the one in
      which each rotation takes place at its copy and each frame where it touches the secret, exactly
      unless a reset finds a clearing in place of a non-empty secret. */
  lemma WovenRunIsOrderedExactly(b: Bridge, rounds: seq<Round>, rs: seq<string>)
    requires Weaves(rounds, rs)
    ensures FramesOf(Order(rounds)) == Texts(rounds) && RotationsOf(Order(rounds)) == rs
    ensures PlayWhole(b, Order(rounds)) == PlayAll(b, rounds) <==> Unharmed(Secret(b.secret, false), rounds)
  {
    var s := Secret(b.secret, false);
    OrderKeeps(rounds);
    CopiesOfTurns(rs);
    RunsBeside(b, rounds);
    if PassedAll(s, rounds).torn {
      TornByTheLast(s, rounds);
      assert false;
    }
  }

  /** Every secret there is, is stored as a non-empty one. */
  ghost predicate NoEmptySecret(secret: string, texts: seq<string>, rs: seq<string>) {
    && secret != ""
    && (forall t :: t in texts && Classify(t).Login? ==> Classify(t).password != "")
    && (forall r :: r in rs ==> Fit(Str(r), GLOBAL_CAP) != "")
  }

  predicate EmptyReset(o: Output) {
    o.ResetSent? && o.oldSecret == Some("")
  }

  ghost predicate NoEmptyReset(out: seq<Output>, from: nat) {
    from <= |out| && forall p :: from <= p < |out| ==> !EmptyReset(out[p])
  }

  lemma EmptyResetStays(out: seq<Output>, more: seq<Output>, from: nat)
    requires from <= |out| && out <= more && !NoEmptyReset(out, from)
    ensures !NoEmptyReset(more, from)
  {
    var p :| from <= p < |out| && EmptyReset(out[p]);
    assert EmptyReset(more[p]);
  }

  lemma HandleSends(b: Bridge, text: string, from: nat)
    requires b.secret != "" && NoEmptyReset(b.out, from)
    ensures NoEmptyReset(Handle(b, text).out, from)
  {
  }

  lemma {:induction false} WholeRunsSendNoEmptySecret(b: Bridge, ws: seq<Whole>)
    requires NoEmptySecret(b.secret, FramesOf(ws), RotationsOf(ws))
    ensures PlayWhole(b, ws).secret != "" && NoEmptyReset(PlayWhole(b, ws).out, |b.out|)
  {
    if ws != [] {
      var n := |ws| - 1;
      var c := PlayWhole(b, ws[..n]);
      WholeRunsSendNoEmptySecret(b, ws[..n]);
      if ws[n].WholeFrame? {
        assert ws[n].text in FramesOf(ws);
        HandleSends(c, ws[n].text, |b.out|);
        HandleShape(c, ws[n].text);
      } else {
        assert ws[n].secret in RotationsOf(ws);
      }
    }
  }

  lemma {:induction false} HarmShows(b: Bridge, rounds: seq<Round>)
    requires !Unharmed(Secret(b.secret, false), rounds)
    ensures !NoEmptyReset(PlayAll(b, rounds).out, |b.out|)
  {
    var s, n := Secret(b.secret, false), |rounds| - 1;
    if Harmed(PassedAll(s, rounds[..n]), rounds[n]) {
      PlayAllExtends(b, rounds[..n], 0);
      assert rounds[..n][..0] == [];
      ResetCarries(b, s, rounds, n);
      assert EmptyReset(PlayAll(b, rounds).out[|PlayAll(b, rounds[..n]).out|]);
    } else {
      HarmShows(b, rounds[..n]);
      PlayAllExtends(b, rounds, n);
      PlayAllExtends(b, rounds[..n], 0);
      assert rounds[..n][..0] == [];
      EmptyResetStays(PlayAll(b, rounds[..n]).out, PlayAll(b, rounds).out, |b.out|);
    }
  }

  /** Some order of whole frames and whole rotations explains the run. */
  ghost predicate Serial(b: Bridge, rounds: seq<Round>, rs: seq<string>) {
    exists ws :: FramesOf(ws) == Texts(rounds) && RotationsOf(ws) == rs && PlayWhole(b, ws) == PlayAll(b, rounds)
  }

  /** A run without a harmed reset has such an order. Where no secret is empty, a harmed run has none. */
  lemma WovenRunIsSerialExactly(b: Bridge, rounds: seq<Round>, rs: seq<string>)
    requires Weaves(rounds, rs)
    ensures Unharmed(Secret(b.secret, false), rounds) ==> Serial(b, rounds, rs)
    ensures NoEmptySecret(b.secret, Texts(rounds), rs) && Serial(b, rounds, rs)
            ==> Unharmed(Secret(b.secret, false), rounds)
  {
    WovenRunIsOrderedExactly(b, rounds, rs);
    if !Unharmed(Secret(b.secret, false), rounds) && NoEmptySecret(b.secret, Texts(rounds), rs) {
      HarmShows(b, rounds);
      forall ws | FramesOf(ws) == Texts(rounds) && RotationsOf(ws) == rs
        ensures PlayWhole(b, ws) != PlayAll(b, rounds)
      {
        WholeRunsSendNoEmptySecret(b, ws);
      }
    }
  }
}
