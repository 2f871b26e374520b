/** The platform's callbacks run on another thread. Frames and rotations are broken into their accesses to
    the shared globals, which interleave freely; the woven run is compared with the runs in which every
    frame and every rotation stays in one piece. */
module BridgeInterleaving {
  import opened CString
  import opened BridgeProtocol

  /** The accesses a frame makes to the shared globals and to the outside, one at a time. */
  datatype Access =
    | StoreId(id: string)
    | StoreSecret(secret: string)
    | SendLogin(id: string, password: string)
    | SendLogout
    | SendReset(newSecret: string)
    | SendData(text: string)
    | Answer

  function Accesses(f: Frame): seq<Access> {
    match f
    case Login(id, pw) => [StoreId(id), StoreSecret(pw), SendLogin(id, pw), Answer]
    case Unsplit(_) => []
    case Logout => [SendLogout, Answer]
    case NewSecret(s) => [SendReset(s), Answer]
    case Data(t) => if |Payload(t)| < SERVICE_CAP then [SendData(t), Answer] else [Answer]
  }

  function Do(b: Bridge, a: Access): Bridge {
    match a
    case StoreId(id) => b.(id := id)
    case StoreSecret(s) => b.(secret := s)
    case SendLogin(id, pw) => Send(b, [LoginSent(id, pw)])
    case SendLogout => Send(b, [LogoutSent(b.id)])
    case SendReset(s) => Send(b, [ResetSent(b.id, Some(b.secret), s)])
    case SendData(t) => Send(b, [PropertiesSent(b.id, Payload(t))])
    case Answer => Send(b, [Reply(OK)])
  }

  /** The two accesses of setTcpPassword: it clears the buffer, then it copies the new secret. */
  datatype Turn = Clear | Copy(secret: string)

  function Turns(rs: seq<string>): (turns: seq<Turn>)
    ensures |turns| == 2 * |rs|
  {
    if rs == [] then [] else Turns(rs[..|rs| - 1]) + [Clear, Copy(rs[|rs| - 1])]
  }

  function Take(b: Bridge, t: Turn): Bridge {
    b.(secret := if t.Clear? then "" else Fit(Str(t.secret), GLOBAL_CAP))
  }

  function TakeAll(b: Bridge, turns: seq<Turn>): Bridge {
    if turns == [] then b else Take(TakeAll(b, turns[..|turns| - 1]), turns[|turns| - 1])
  }

  function DoAll(b: Bridge, steps: seq<Access>): Bridge
    decreases |steps|
  {
    if steps == [] then b else DoAll(Do(b, steps[0]), steps[1..])
  }

  /** Rotations in one piece. */
  function Rotations(b: Bridge, rs: seq<string>): Bridge {
    if rs == [] then b else Step(Rotations(b, rs[..|rs| - 1]), Rotate(Some(rs[|rs| - 1])))
  }

  /** The accesses of a frame with accesses of the callback in every gap between them. */
  function Weave(b: Bridge, steps: seq<Access>, gaps: seq<seq<Turn>>): Bridge
    requires |gaps| == |steps| + 1
    decreases |steps|
  {
    var c := TakeAll(b, gaps[0]);
    if steps == [] then c else Weave(Do(c, steps[0]), steps[1..], gaps[1..])
  }

  function Flat(gaps: seq<seq<Turn>>): seq<Turn> {
    if gaps == [] then [] else gaps[0] + Flat(gaps[1..])
  }

  /** The gaps are filled with the accesses of exactly these rotations, cut anywhere. */
  predicate Splits(gaps: seq<seq<Turn>>, f: Frame, rs: seq<string>) {
    |gaps| == |Accesses(f)| + 1 && Flat(gaps) == Turns(rs)
  }

  /** The run in which the frame and all rotations stay in one piece, `cut` rotations before the frame. */
  function Serial(b: Bridge, text: string, rs: seq<string>, cut: nat): Bridge
    requires cut <= |rs|
  {
    Rotations(Handle(Rotations(b, rs[..cut]), text), rs[cut..])
  }

  // ----- accesses that commute -----

  predicate TouchesSecret(a: Access) {
    a.StoreSecret? || a.SendReset?
  }

  predicate TouchesOnce(steps: seq<Access>) {
    steps == [] || if TouchesSecret(steps[0]) then Untouched(steps[1..]) else TouchesOnce(steps[1..])
  }

  predicate Untouched(steps: seq<Access>) {
    steps == [] || (!TouchesSecret(steps[0]) && Untouched(steps[1..]))
  }

  /** Only the last access of the callback shows. */
  function SecretAfter(secret: string, turns: seq<Turn>): string {
    if turns == [] then secret
    else
      var t := turns[|turns| - 1];
      if t.Clear? then "" else Fit(Str(t.secret), GLOBAL_CAP)
  }

  lemma {:induction false} TakeAllIsTheLast(b: Bridge, turns: seq<Turn>)
    ensures TakeAll(b, turns) == b.(secret := SecretAfter(b.secret, turns))
  {
    if turns != [] {
      TakeAllIsTheLast(b, turns[..|turns| - 1]);
    }
  }

  lemma TakeAllCat(b: Bridge, xs: seq<Turn>, ys: seq<Turn>)
    ensures TakeAll(b, xs + ys) == TakeAll(TakeAll(b, xs), ys)
  {
    TakeAllIsTheLast(b, xs);
    TakeAllIsTheLast(TakeAll(b, xs), ys);
    TakeAllIsTheLast(b, xs + ys);
  }

  lemma TakeAllCommutes(b: Bridge, turns: seq<Turn>, a: Access)
    requires !TouchesSecret(a)
    ensures TakeAll(Do(b, a), turns) == Do(TakeAll(b, turns), a)
  {
    TakeAllIsTheLast(b, turns);
    TakeAllIsTheLast(Do(b, a), turns);
  }

  lemma {:induction false} DoAllCommutes(b: Bridge, steps: seq<Access>, turns: seq<Turn>)
    requires Untouched(steps)
    ensures DoAll(TakeAll(b, turns), steps) == TakeAll(DoAll(b, steps), turns)
    decreases |steps|
  {
    if steps != [] {
      TakeAllCommutes(b, turns, steps[0]);
      DoAllCommutes(Do(b, steps[0]), steps[1..], turns);
    }
  }

  /** The accesses of the callback that run before the access to the secret; all of them if there is none. */
  function Ahead(steps: seq<Access>, gaps: seq<seq<Turn>>): (n: nat)
    requires |gaps| == |steps| + 1
    ensures n <= |Flat(gaps)|
    decreases |steps|
  {
    if steps == [] || TouchesSecret(steps[0]) then |gaps[0]| else |gaps[0]| + Ahead(steps[1..], gaps[1..])
  }

  lemma {:induction false} WeaveUntouched(b: Bridge, steps: seq<Access>, gaps: seq<seq<Turn>>)
    requires |gaps| == |steps| + 1 && Untouched(steps)
    ensures Weave(b, steps, gaps) == TakeAll(DoAll(b, steps), Flat(gaps))
    decreases |steps|
  {
    var c := TakeAll(b, gaps[0]);
    if steps == [] {
      assert Flat(gaps) == gaps[0] + Flat(gaps[1..]) == gaps[0];
    } else {
      WeaveUntouched(Do(c, steps[0]), steps[1..], gaps[1..]);
      TakeAllCommutes(b, gaps[0], steps[0]);
      DoAllCommutes(Do(b, steps[0]), steps[1..], gaps[0]);
      TakeAllCat(DoAll(b, steps), gaps[0], Flat(gaps[1..]));
    }
  }

  lemma TakeBehind(b: Bridge, g: seq<Turn>, rest: seq<Turn>, n: nat, a: Access)
    requires n <= |rest| && !TouchesSecret(a)
    ensures TakeAll(Do(TakeAll(b, g), a), rest[..n]) == Do(TakeAll(b, (g + rest)[..|g| + n]), a)
    ensures (g + rest)[|g| + n..] == rest[n..]
  {
    TakeAllCommutes(TakeAll(b, g), rest[..n], a);
    TakeAllCat(b, g, rest[..n]);
    assert (g + rest)[..|g| + n] == g + rest[..n];
  }

  /** Only the place of the access to the secret among the accesses of the callback matters. */
  lemma {:induction false} WeaveTogether(b: Bridge, steps: seq<Access>, gaps: seq<seq<Turn>>)
    requires |gaps| == |steps| + 1 && TouchesOnce(steps)
    ensures var n, turns := Ahead(steps, gaps), Flat(gaps);
            Weave(b, steps, gaps) == TakeAll(DoAll(TakeAll(b, turns[..n]), steps), turns[n..])
    decreases |steps|
  {
    var g, rest := gaps[0], Flat(gaps[1..]);
    var c := TakeAll(b, g);
    if steps == [] {
      CutBetween(g, rest);
    } else if TouchesSecret(steps[0]) {
      WeaveUntouched(Do(c, steps[0]), steps[1..], gaps[1..]);
      CutBetween(g, rest);
    } else {
      var n := Ahead(steps[1..], gaps[1..]);
      WeaveTogether(Do(c, steps[0]), steps[1..], gaps[1..]);
      TakeBehind(b, g, rest, n, steps[0]);
    }
  }

  /** Done without interruption the accesses are the frame, and at most one of them touches the secret. */
  lemma AccessesMakeTheFrame(b: Bridge, text: string)
    ensures DoAll(b, Accesses(Classify(text))) == Handle(b, text)
    ensures TouchesOnce(Accesses(Classify(text)))
  {
    var steps := Accesses(Classify(text));
    if |steps| == 4 {
      assert steps[1..] == [steps[1], steps[2], steps[3]];
      assert steps[1..][1..] == [steps[2], steps[3]];
      DoTwo(Do(Do(b, steps[0]), steps[1]), steps[2], steps[3]);
    } else if |steps| == 2 {
      DoTwo(b, steps[0], steps[1]);
    } else if |steps| == 1 {
      assert steps[1..] == [];
    }
  }

  lemma DoTwo(b: Bridge, x: Access, y: Access)
    ensures DoAll(b, [x, y]) == Do(Do(b, x), y)
    ensures Untouched([x, y]) <==> !TouchesSecret(x) && !TouchesSecret(y)
    ensures TouchesOnce([x, y]) <==> !(TouchesSecret(x) && TouchesSecret(y))
  {
    assert [x, y][1..] == [y] && [y][1..] == [];
    assert Untouched([y]) <==> !TouchesSecret(y);
    assert TouchesOnce([y]);
    assert DoAll(Do(b, x), [y]) == Do(Do(b, x), y);
  }

  /** A login among accesses of the callback: it stores its secret behind its id and before its request, so
      what the callback does from then on decides the secret that stays. */
  lemma LoginAmongTurns(b: Bridge, id: string, pw: string, g: seq<seq<Turn>>)
    requires |g| == 5
    ensures Weave(b, Accesses(Login(id, pw)), g) ==
            Bridge(id, SecretAfter(pw, g[2] + g[3] + g[4]), b.conn, b.out + [LoginSent(id, pw)] + [Reply("OK!")])
  {
    var steps := Accesses(Login(id, pw));
    assert steps[1..] == [StoreSecret(pw), SendLogin(id, pw), Answer] && g[1..] == [g[1], g[2], g[3], g[4]];
    var c := TakeAll(Do(TakeAll(b, g[0]), StoreId(id)), g[1]);
    TakeAllIsTheLast(b, g[0]);
    TakeAllIsTheLast(Do(TakeAll(b, g[0]), StoreId(id)), g[1]);
    var rest := [SendLogin(id, pw), Answer];
    assert steps[1..][1..] == rest && g[1..][1..] == [g[2], g[3], g[4]];
    DoTwo(Do(c, StoreSecret(pw)), SendLogin(id, pw), Answer);
    WeaveUntouched(Do(c, StoreSecret(pw)), rest, [g[2], g[3], g[4]]);
    FlatThree(g[2], g[3], g[4]);
    TakeAllIsTheLast(DoAll(Do(c, StoreSecret(pw)), rest), g[2] + g[3] + g[4]);
  }

  /** A reset among them: it sends what they left in front of it, before its answer. */
  lemma ResetAmongTurns(b: Bridge, secret: string, g: seq<seq<Turn>>)
    requires |g| == 3
    ensures var found := SecretAfter(b.secret, g[0]);
            Weave(b, Accesses(NewSecret(secret)), g) ==
            Bridge(b.id, SecretAfter(found, g[1] + g[2]), b.conn,
                   b.out + [ResetSent(b.id, Some(found), secret)] + [Reply("OK!")])
  {
    var c := Do(TakeAll(b, g[0]), SendReset(secret));
    assert Accesses(NewSecret(secret))[1..] == [Answer] && g[1..] == [g[1], g[2]];
    TakeAllIsTheLast(b, g[0]);
    assert [Answer][1..] == [] && [g[1], g[2]][1..] == [g[2]] && [g[2]][1..] == [];
    WeaveUntouched(c, [Answer], [g[1], g[2]]);
    assert Flat([g[2]]) == g[2] + [] == g[2];
    assert DoAll(c, [Answer]) == Do(c, Answer);
    TakeAllIsTheLast(Do(c, Answer), g[1] + g[2]);
  }

  // ----- rotations in one piece and in two -----

  /** The stored secret after some rotations. */
  function RotatedSecret(secret: string, rs: seq<string>): string {
    if rs == [] then secret else Fit(Str(rs[|rs| - 1]), GLOBAL_CAP)
  }

  lemma {:induction false} RotationsAreTurns(b: Bridge, rs: seq<string>)
    ensures Rotations(b, rs) == b.(secret := RotatedSecret(b.secret, rs)) == TakeAll(b, Turns(rs))
  {
    if rs != [] {
      RotationsAreTurns(b, rs[..|rs| - 1]);
      TakeAllIsTheLast(b, Turns(rs));
    }
  }

  lemma TurnsOfOne(r: string)
    ensures Turns([r]) == [Clear, Copy(r)]
  {
    assert [r][..0] == [] && Turns([]) == [];
  }

  lemma {:induction false} TurnsCat(xs: seq<string>, ys: seq<string>)
    ensures Turns(xs + ys) == Turns(xs) + Turns(ys)
  {
    if ys == [] {
      assert xs + ys == xs;
    } else {
      var n := |ys| - 1;
      assert (xs + ys)[..|xs| + n] == xs + ys[..n];
      TurnsCat(xs, ys[..n]);
    }
  }

  lemma CutBetween(x: seq<Turn>, y: seq<Turn>)
    ensures (x + y)[..|x|] == x && (x + y)[|x|..] == y
  {
  }

  /** The accesses of rotations are cut between two rotations, */
  lemma TurnsCutBetween(rs: seq<string>, k: nat)
    requires k <= |rs|
    ensures Turns(rs)[..2 * k] == Turns(rs[..k]) && Turns(rs)[2 * k..] == Turns(rs[k..])
  {
    assert rs[..k] + rs[k..] == rs;
    TurnsCat(rs[..k], rs[k..]);
    CutBetween(Turns(rs[..k]), Turns(rs[k..]));
  }

  lemma TurnsAround(xs: seq<string>, r: string, ys: seq<string>)
    ensures var turns, n := Turns(xs + [r] + ys), 2 * |xs| + 1;
            turns[..n] == Turns(xs) + [Clear] && turns[n..] == [Copy(r)] + Turns(ys)
  {
    var turns, x, y := Turns(xs + [r] + ys), Turns(xs) + [Clear], [Copy(r)] + Turns(ys);
    TurnsCat(xs + [r], ys);
    TurnsCat(xs, [r]);
    TurnsOfOne(r);
    Regroup(Turns(xs), Clear, Copy(r), Turns(ys));
    CutBetween(x, y);
  }

  lemma Regroup(x: seq<Turn>, s: Turn, t: Turn, y: seq<Turn>)
    ensures x + [s, t] + y == (x + [s]) + ([t] + y)
  {
  }

  lemma Around(rs: seq<string>, k: nat)
    requires k < |rs|
    ensures rs[..k] + [rs[k]] + rs[k + 1..] == rs
  {
  }

  /** or inside one. */
  lemma TurnsCutInside(rs: seq<string>, k: nat)
    requires k < |rs|
    ensures Turns(rs)[..2 * k + 1] == Turns(rs[..k]) + [Clear]
    ensures Turns(rs)[2 * k + 1..] == [Copy(rs[k])] + Turns(rs[k + 1..])
  {
    Around(rs, k);
    TurnsAround(rs[..k], rs[k], rs[k + 1..]);
  }

  // ----- when the woven run is a serial one -----

  /** The reset request goes out between the clearing and the copy of a rotation. */
  predicate ResetInside(f: Frame, gaps: seq<seq<Turn>>)
    requires gaps != []
  {
    f.NewSecret? && gaps[0] != [] && gaps[0][|gaps[0]| - 1].Clear?
  }

  /** The secret stored before, or one of the rotated ones, is stored as the empty secret. */
  predicate SomeSecretIsEmpty(secret: string, rs: seq<string>) {
    secret == "" || exists i :: 0 <= i < |rs| && Fit(Str(rs[i]), GLOBAL_CAP) == ""
  }

  lemma EmptyAtSomeCut(secret: string, rs: seq<string>)
    ensures SomeSecretIsEmpty(secret, rs) <==> exists cut: nat :: cut <= |rs| && RotatedSecret(secret, rs[..cut]) == ""
  {
    if secret == "" {
      assert RotatedSecret(secret, rs[..0]) == "";
    } else if i :| 0 <= i < |rs| && Fit(Str(rs[i]), GLOBAL_CAP) == "" {
      assert RotatedSecret(secret, rs[..i + 1]) == "";
    }
    if cut: nat :| cut <= |rs| && RotatedSecret(secret, rs[..cut]) == "" {
      assert secret == "" || (cut > 0 && Fit(Str(rs[cut - 1]), GLOBAL_CAP) == "");
    }
  }

  lemma {:induction false} AheadOfNothing(steps: seq<Access>, gaps: seq<seq<Turn>>)
    requires |gaps| == |steps| + 1 && Untouched(steps)
    ensures Ahead(steps, gaps) == |Flat(gaps)|
    decreases |steps|
  {
    if steps == [] {
      assert Flat(gaps) == gaps[0] + Flat(gaps[1..]) == gaps[0];
    } else {
      AheadOfNothing(steps[1..], gaps[1..]);
    }
  }

  lemma UntouchedFrames(f: Frame)
    requires !f.Login? && !f.NewSecret?
    ensures Untouched(Accesses(f))
  {
    var steps := Accesses(f);
    if |steps| == 2 {
      DoTwo(INITIAL, steps[0], steps[1]);
    } else if |steps| == 1 {
      assert steps[1..] == [];
    }
  }

  /** The woven run in which the callback stands between rotations when the secret is touched. */
  lemma WeaveBetween(b: Bridge, text: string, rs: seq<string>, gaps: seq<seq<Turn>>, k: nat)
    requires Splits(gaps, Classify(text), rs)
    requires Ahead(Accesses(Classify(text)), gaps) == 2 * k
    ensures k <= |rs| && Weave(b, Accesses(Classify(text)), gaps) == Serial(b, text, rs, k)
  {
    var steps := Accesses(Classify(text));
    assert k <= |rs|;
    var a := Rotations(b, rs[..k]);
    AccessesMakeTheFrame(a, text);
    WeaveTogether(b, steps, gaps);
    TurnsCutBetween(rs, k);
    RotationsAreTurns(b, rs[..k]);
    RotationsAreTurns(Handle(a, text), rs[k..]);
  }

  /** And the one in which it stands inside a rotation: the frame sees the empty secret. */
  lemma WeaveInside(b: Bridge, text: string, rs: seq<string>, gaps: seq<seq<Turn>>, k: nat)
    requires Splits(gaps, Classify(text), rs)
    requires Ahead(Accesses(Classify(text)), gaps) == 2 * k + 1
    ensures k < |rs| && Weave(b, Accesses(Classify(text)), gaps)
                        == Handle(b.(secret := ""), text).(secret := RotatedSecret(b.secret, rs))
  {
    var steps, turns := Accesses(Classify(text)), Turns(rs);
    var n := 2 * k + 1;
    assert k < |rs|;
    AccessesMakeTheFrame(b.(secret := ""), text);
    WeaveTogether(b, steps, gaps);
    TurnsCutInside(rs, k);
    TakeAllIsTheLast(b, turns[..n]);
    TakeAllIsTheLast(Handle(b.(secret := ""), text), turns[n..]);
    assert turns[n..][|turns[n..]| - 1] == turns[|turns| - 1] == Copy(rs[|rs| - 1]);
  }

  /** A serial run sends what the frame finds after the rotations ahead of it; the last rotation stays. */
  lemma SerialShape(b: Bridge, text: string, rs: seq<string>, cut: nat)
    requires cut <= |rs|
    ensures var h := Handle(b.(secret := RotatedSecret(b.secret, rs[..cut])), text);
            Serial(b, text, rs, cut) == h.(secret := RotatedSecret(h.secret, rs[cut..]))
  {
    RotationsAreTurns(b, rs[..cut]);
    RotationsAreTurns(Handle(Rotations(b, rs[..cut]), text), rs[cut..]);
  }

  lemma ResetHandled(b: Bridge, text: string)
    requires Classify(text).NewSecret?
    ensures Handle(b, text) ==
            b.(out := b.out + [ResetSent(b.id, Some(b.secret), Classify(text).secret)] + [Reply(OK)])
  {
  }

  /** A login inside a rotation is the login before it. */
  lemma LoginInside(b: Bridge, text: string, rs: seq<string>, gaps: seq<seq<Turn>>, k: nat)
    requires Splits(gaps, Classify(text), rs) && Classify(text).Login?
    requires Ahead(Accesses(Classify(text)), gaps) == 2 * k + 1
    ensures k < |rs| && Weave(b, Accesses(Classify(text)), gaps) == Serial(b, text, rs, k)
  {
    WeaveInside(b, text, rs, gaps, k);
    SerialShape(b, text, rs, k);
    assert rs[k..][|rs[k..]| - 1] == rs[|rs| - 1];
  }

  /** A reset inside a rotation is a reset in a serial run exactly if that run finds the empty secret. */
  lemma ResetInsideAt(b: Bridge, text: string, rs: seq<string>, gaps: seq<seq<Turn>>, k: nat, cut: nat)
    requires Splits(gaps, Classify(text), rs) && Classify(text).NewSecret? && cut <= |rs|
    requires Ahead(Accesses(Classify(text)), gaps) == 2 * k + 1
    ensures Weave(b, Accesses(Classify(text)), gaps) == Serial(b, text, rs, cut)
            <==> RotatedSecret(b.secret, rs[..cut]) == ""
  {
    var found := RotatedSecret(b.secret, rs[..cut]);
    WeaveInside(b, text, rs, gaps, k);
    SerialShape(b, text, rs, cut);
    ResetHandled(b.(secret := ""), text);
    ResetHandled(b.(secret := found), text);
    assert cut < |rs| ==> rs[cut..][|rs[cut..]| - 1] == rs[|rs| - 1];
    assert cut == |rs| ==> rs[..cut] == rs;
    assert Handle(b.(secret := found), text).out[|b.out|].oldSecret == Some(found);
    assert Handle(b.(secret := ""), text).out[|b.out|].oldSecret == Some("");
  }

  /** The callback stands inside a rotation at the access to the secret: only a reset notices. */
  lemma InsideOnlyForResets(f: Frame, rs: seq<string>, gaps: seq<seq<Turn>>)
    requires Splits(gaps, f, rs)
    ensures !f.Login? && !f.NewSecret? ==> Ahead(Accesses(f), gaps) % 2 == 0
    ensures f.NewSecret? ==> (Ahead(Accesses(f), gaps) % 2 == 1 <==> ResetInside(f, gaps))
  {
    if !f.Login? && !f.NewSecret? {
      UntouchedFrames(f);
      AheadOfNothing(Accesses(f), gaps);
    } else if f.NewSecret? {
      var n := |gaps[0]|;
      assert Flat(gaps)[..n] == gaps[0] == Turns(rs)[..n];
      if n % 2 == 0 {
        TurnsCutBetween(rs, n / 2);
      } else {
        TurnsCutInside(rs, n / 2);
      }
    }
  }

  /** However the accesses of a frame and of any rotations fall between each other, the run equals one in
      which frame and rotations stay in one piece, exactly unless a reset goes out inside a rotation and
      no secret around it is empty. */
  lemma SerialExactly(b: Bridge, text: string, rs: seq<string>, gaps: seq<seq<Turn>>)
    requires Splits(gaps, Classify(text), rs)
    ensures (exists cut: nat :: cut <= |rs| && Weave(b, Accesses(Classify(text)), gaps) == Serial(b, text, rs, cut))
            <==> (ResetInside(Classify(text), gaps) ==> SomeSecretIsEmpty(b.secret, rs))
  {
    var f := Classify(text);
    var n := Ahead(Accesses(f), gaps);
    InsideOnlyForResets(f, rs, gaps);
    if n % 2 == 0 {
      WeaveBetween(b, text, rs, gaps, n / 2);
    } else if f.Login? {
      LoginInside(b, text, rs, gaps, n / 2);
    } else {
      EmptyAtSomeCut(b.secret, rs);
      forall cut: nat | cut <= |rs|
        ensures Weave(b, Accesses(f), gaps) == Serial(b, text, rs, cut) <==> RotatedSecret(b.secret, rs[..cut]) == ""
      {
        ResetInsideAt(b, text, rs, gaps, n / 2, cut);
      }
    }
  }

  // ----- rotations that stay in one piece -----

  function Joined(gaps: seq<seq<string>>): seq<string> {
    if gaps == [] then [] else gaps[0] + Joined(gaps[1..])
  }

  function TurnsOfGaps(gaps: seq<seq<string>>): (turns: seq<seq<Turn>>)
    ensures |turns| == |gaps|
  {
    if gaps == [] then [] else [Turns(gaps[0])] + TurnsOfGaps(gaps[1..])
  }

  lemma {:induction false} WholeGaps(gaps: seq<seq<string>>)
    ensures Flat(TurnsOfGaps(gaps)) == Turns(Joined(gaps))
  {
    if gaps != [] {
      WholeGaps(gaps[1..]);
      TurnsCat(gaps[0], Joined(gaps[1..]));
    }
  }

  /** With every rotation in one piece somewhere between the accesses of a frame, the frame is atomic. */
  lemma FrameIsAtomic(b: Bridge, text: string, gaps: seq<seq<string>>)
    requires |gaps| == |Accesses(Classify(text))| + 1
    ensures exists cut: nat :: cut <= |Joined(gaps)|
              && Weave(b, Accesses(Classify(text)), TurnsOfGaps(gaps)) == Serial(b, text, Joined(gaps), cut)
  {
    WholeGaps(gaps);
    assert Turns(gaps[0]) != [] ==> Turns(gaps[0])[|Turns(gaps[0])| - 1].Copy?;
    SerialExactly(b, text, Joined(gaps), TurnsOfGaps(gaps));
  }

  lemma FlatThree(x: seq<Turn>, y: seq<Turn>, z: seq<Turn>)
    ensures Flat([x, y, z]) == x + y + z
  {
    assert [x, y, z][1..] == [y, z] && [y, z][1..] == [z] && [z][1..] == [];
    assert Flat([z]) == z + [] == z;
    assert x + (y + z) == x + y + z;
  }

  lemma ResetText(n: string)
    requires n != ""
    ensures Classify(NEW_SECRET + n) == NewSecret(n)
  {
    var text := NEW_SECRET + n;
    assert text[0] != LOGIN[0] && text[|NEW_SECRET|..] == n;
    Branches(text);
  }

  /** A run that is not serial: "newSecret:n" between the clearing and the copy of a rotation to `r`. */
  lemma TornRotation(b: Bridge, n: string, r: string)
    requires n != "" && b.secret != "" && Str(r) == r && 0 < |r| < GLOBAL_CAP
    ensures var text, gaps := NEW_SECRET + n, [[Clear], [Copy(r)], []];
            && Splits(gaps, Classify(text), [r])
            && !exists cut: nat :: cut <= 1 && Weave(b, Accesses(Classify(text)), gaps) == Serial(b, text, [r], cut)
  {
    ResetText(n);
    FlatThree([Clear], [Copy(r)], []);
    TurnsOfOne(r);
    assert [Clear] + [Copy(r)] + [] == [Clear, Copy(r)];
    SerialExactly(b, NEW_SECRET + n, [r], [[Clear], [Copy(r)], []]);
  }
}
