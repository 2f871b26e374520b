/** Frames and their printed form: every text is read as the one frame that prints it. */
module BridgeFrames {
  import opened CString
  import opened BridgeProtocol

  function Show(f: Frame): string {
    match f
    case Login(id, pw) => LOGIN + id + ";" + pw
    case Unsplit(text) => LOGIN + text
    case Logout => LOGOUT
    case NewSecret(s) => NEW_SECRET + s
    case Data(text) => text
  }

  /** The frames a client can mean: fields that do not run into the keywords and separators. */
  predicate Canonical(f: Frame) {
    match f
    case Login(id, _) => ';' !in id
    case Unsplit(text) => text != "" && ';' !in text
    case Logout => true
    case NewSecret(s) => s != ""
    case Data(text) =>
      && !(|text| > |LOGIN| && LOGIN <= text)
      && text != LOGOUT
      && !(|text| > |NEW_SECRET| && NEW_SECRET <= text)
  }

  /** Printing and classifying are inverse to each other: a text is read as `f` exactly when it prints `f`. */
  lemma FrameRoundTrip(s: string, f: Frame)
    ensures Classify(s) == f <==> Canonical(f) && s == Show(f)
  {
    ShowClassify(s);
    if Canonical(f) {
      ClassifyShow(f);
    }
  }

  lemma ShowClassify(s: string)
    ensures Canonical(Classify(s)) && Show(Classify(s)) == s
  {
    if |s| > |LOGIN| && LOGIN <= s {
      var rest := s[|LOGIN|..];
      assert s == LOGIN + rest;
      match IndexOf(rest, ';')
      case None =>
      case Some(k) =>
        Rejoin(LOGIN, rest, k);
    } else {
      Branches(s);
      if |s| > |NEW_SECRET| && NEW_SECRET <= s {
        assert s == NEW_SECRET + s[|NEW_SECRET|..];
      }
    }
  }

  lemma Rejoin(word: string, rest: string, k: nat)
    requires k < |rest| && rest[k] == ';'
    ensures word + rest == word + rest[..k] + ";" + rest[k + 1..]
  {
    assert rest == rest[..k] + ";" + rest[k + 1..];
  }

  lemma ClassifyShow(f: Frame)
    requires Canonical(f)
    ensures Classify(Show(f)) == f
  {
    var s := Show(f);
    match f
    case Login(id, pw) =>
      var rest := s[|LOGIN|..];
      assert rest == id + ";" + pw;
      FirstIndex(rest, ';', |id|);
      assert rest[..|id|] == id && rest[|id| + 1..] == pw;
    case Unsplit(text) =>
      assert s[|LOGIN|..] == text;
    case Logout =>
      Branches(s);
    case NewSecret(t) =>
      assert s[0] != LOGIN[0];
      Branches(s);
      assert s[|NEW_SECRET|..] == t;
    case Data(_) =>
      Branches(s);
  }

  // ----- on the wire: what each received text does, and nothing else -----

  /** A login stores and sends exactly the printed pair. */
  lemma LoginOnTheWire(b: Bridge, id: string, pw: string, chunk: seq<char>)
    requires b.conn.Some? && ';' !in id && Carries(chunk, "Login:" + id + ";" + pw)
    ensures Step(b, Chunk(chunk)) ==
            Bridge(id, pw, if b.conn.value < 999 then Some(b.conn.value + 1) else None,
                   b.out + [LoginSent(id, pw), Reply("OK!")])
  {
    Carried(chunk, "Login:" + id + ";" + pw);
    ClassifyShow(Login(id, pw));
    assert b.out + [LoginSent(id, pw)] + [Reply(OK)] == b.out + [LoginSent(id, pw), Reply(OK)];
  }

  /** A login that cannot be split ends the connection and does nothing else. */
  lemma UnsplitOnTheWire(b: Bridge, text: string, chunk: seq<char>)
    requires b.conn.Some? && text != "" && ';' !in text && Carries(chunk, "Login:" + text)
    ensures Step(b, Chunk(chunk)) == b.(conn := None)
  {
    Carried(chunk, "Login:" + text);
    ClassifyShow(Unsplit(text));
  }

  lemma LogoutOnTheWire(b: Bridge, chunk: seq<char>)
    requires b.conn.Some? && Carries(chunk, "Logout")
    ensures Step(b, Chunk(chunk)) ==
            b.(conn := if b.conn.value < 999 then Some(b.conn.value + 1) else None,
               out := b.out + [LogoutSent(b.id), Reply("OK!")])
  {
    Carried(chunk, "Logout");
    ClassifyShow(Logout);
    assert b.out + [LogoutSent(b.id)] + [Reply(OK)] == b.out + [LogoutSent(b.id), Reply(OK)];
  }

  /** A reset sends the stored secret along and leaves it stored. */
  lemma NewSecretOnTheWire(b: Bridge, secret: string, chunk: seq<char>)
    requires b.conn.Some? && secret != "" && Carries(chunk, "newSecret:" + secret)
    ensures Step(b, Chunk(chunk)) ==
            b.(conn := if b.conn.value < 999 then Some(b.conn.value + 1) else None,
               out := b.out + [ResetSent(b.id, Some(b.secret), secret), Reply("OK!")])
  {
    Carried(chunk, "newSecret:" + secret);
    ClassifyShow(NewSecret(secret));
    var request := ResetSent(b.id, Some(b.secret), secret);
    assert b.out + [request] + [Reply(OK)] == b.out + [request, Reply(OK)];
  }

  /** Every other text is reported in its wrapper up to 82 characters, and answered in any case. */
  lemma DataOnTheWire(b: Bridge, text: string, chunk: seq<char>)
    requires b.conn.Some? && Carries(chunk, text)
    requires !("Login:" <= text && |text| > 6) && text != "Logout" && !("newSecret:" <= text && |text| > 10)
    ensures Step(b, Chunk(chunk)) ==
            b.(conn := if b.conn.value < 999 then Some(b.conn.value + 1) else None,
               out := b.out + (if |text| <= 82 then [PropertiesSent(b.id, "{\"Smoke_value\": " + text + "}"),
                                                     Reply("OK!")]
                               else [Reply("OK!")]))
  {
    Carried(chunk, text);
    ClassifyShow(Data(text));
    var request := PropertiesSent(b.id, "{\"Smoke_value\": " + text + "}");
    assert Payload(text) == request.payload && |Payload(text)| == |text| + 17;
    assert b.out + [request] + [Reply(OK)] == b.out + [request, Reply(OK)];
  }

  /** A rotation stores the new secret if it has at most 127 characters, otherwise the empty one. */
  lemma RotationIsStored(b: Bridge, secret: string)
    requires NUL !in secret
    ensures Step(b, Rotate(Some(secret))) == b.(secret := if |secret| < 128 then secret else "")
    ensures Step(b, Rotate(None)) == b
  {
    assert secret[..|secret|] == secret;
    StrEnds(secret, |secret|);
  }
}
