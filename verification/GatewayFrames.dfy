/** Frames of the gateway on the wire: what each received text does, and nothing else. */
module GatewayFrames {
  import opened CString
  import opened GatewayProtocol

  /** "ID:" and more than three characters ask the platform to add exactly the device behind the prefix. */
  lemma AddOnTheWire(c: Config, g: Gateway, node: string, chunk: seq<char>)
    requires g.conn.Some? && |node| > 3 && Carries(chunk, "ID:" + node)
    ensures Step(c, g, Chunk(chunk)) ==
            g.(conn := if g.conn.value < 999 then Some(g.conn.value + 1) else None,
               out := g.out + [AddSent(node, c.productId), Reply("OK!")])
  {
    Carried(chunk, "ID:" + node);
    FrameRoundTrip("ID:" + node, Add(node));
  }

  /** "exit" reports the current device OFFLINE, */
  lemma ExitOnTheWire(c: Config, g: Gateway, chunk: seq<char>)
    requires g.conn.Some? && Carries(chunk, "exit")
    ensures Step(c, g, Chunk(chunk)) ==
            g.(conn := if g.conn.value < 999 then Some(g.conn.value + 1) else None,
               out := g.out + [Status(g.current, false), Reply("OK!")])
  {
    Carried(chunk, "exit");
  }

  /** "del" deletes it, and both leave it current. */
  lemma DelOnTheWire(c: Config, g: Gateway, chunk: seq<char>)
    requires g.conn.Some? && Carries(chunk, "del")
    ensures Step(c, g, Chunk(chunk)) ==
            g.(conn := if g.conn.value < 999 then Some(g.conn.value + 1) else None,
               out := g.out + [DeleteSent(g.current), Reply("OK!")])
  {
    Carried(chunk, "del");
  }

  /** Every other non-empty text is reported in its wrapper, under the current id if the loop was started
      with that pointer and else under the id it was started with, unless that id is empty. */
  lemma DataOnTheWire(c: Config, g: Gateway, text: string, chunk: seq<char>)
    requires g.conn.Some? && Carries(chunk, text)
    requires text != "" && text != "exit" && text != "del" && !("ID:" <= text && |text| > 6)
    ensures var id := if c.reportAs == None then g.current else c.reportAs.value;
            Step(c, g, Chunk(chunk)) ==
            g.(conn := if g.conn.value < 999 then Some(g.conn.value + 1) else None,
               out := g.out + if id == "" then [Reply("OK!")]
                              else [PropertiesSent(id, "{\"Smoke_value\":" + text + "}"), Reply("OK!")])
  {
    Carried(chunk, text);
    FrameRoundTrip(text, Data(text));
  }

  /** A text that is empty, because NUL comes first, is only answered. */
  lemma EmptyOnTheWire(c: Config, g: Gateway, chunk: seq<char>)
    requires g.conn.Some? && Carries(chunk, "")
    ensures Step(c, g, Chunk(chunk)) ==
            g.(conn := if g.conn.value < 999 then Some(g.conn.value + 1) else None, out := g.out + [Reply("OK!")])
  {
    Carried(chunk, "");
  }

  /** A connection taken up starts to count its frames, and reports a device that is current ONLINE. */
  lemma AcceptIsReported(c: Config, g: Gateway)
    requires g.conn == None
    ensures Step(c, g, Accept) ==
            g.(conn := Some(0), out := g.out + if g.current == "" then [] else [Status(g.current, true)])
  {
  }

  /** The callback copies the next id if it has at most 127 characters, otherwise the empty one. */
  lemma CopyIsStored(c: Config, g: Gateway, id: string)
    requires !g.copied && g.batch != [] && g.batch[0] == id && NUL !in id
    ensures Step(c, g, CopyId) == g.(current := if |id| < 128 then id else "", copied := true)
  {
    assert id[..|id|] == id;
    StrEnds(id, |id|);
    assert g.out + [] == g.out;
  }
}
