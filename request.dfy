/** The request parser of handle_connection.c (httprequest): verb, target and
    protocol version are cut from the NUL-terminated buffer with strsep, header
    lines are skipped up to the line that is exactly "\r", and the next line is
    the body. A target of "/" names the default document "/index.html". */
module Request {
  import opened CStrings

  /** struct httprequest. An invalid request carries no fields: the C code leaves them unset. */
  datatype HttpRequest =
    | Invalid
    | Valid(verb: string, target: string, protocolVer: string, body: string)

  const IndexDocument: string := "/index.html"

  /** The default-document rewrite applied to the parsed target. */
  function DefaultDocument(target: string): (r: string)
    ensures target == "/" ==> r == IndexDocument
    ensures target != "/" ==> r == target
  {
    if target == "/" then IndexDocument else target
  }

  lemma DefaultDocumentIdempotent(target: string)
    ensures DefaultDocument(DefaultDocument(target)) == DefaultDocument(target)
    ensures DefaultDocument(target) != "/"
  {
  }

  /** Position `x` of `h` begins a line. */
  predicate LineStart(h: string, x: int) {
    x == 0 || (0 < x <= |h| && h[x - 1] == '\n')
  }

  /** A line that is exactly "\r" (and its '\n') starts at position `x` of `h`. */
  predicate CrLfAt(h: string, x: int) {
    0 <= x && x + 1 < |h| && h[x] == '\r' && h[x + 1] == '\n'
  }

  /** A block of header lines: each line ends in '\n' and none of them is exactly "\r". */
  predicate HeaderBlock(h: string) {
    (|h| > 0 ==> h[|h| - 1] == '\n') && forall x :: 0 <= x < |h| && LineStart(h, x) ==> !CrLfAt(h, x)
  }

  /** Prepending one more header line keeps a header block. */
  lemma HeaderBlockCons(line: string, rest: string)
    requires '\n' !in line && line != "\r"
    requires HeaderBlock(rest)
    ensures HeaderBlock(line + ("\n" + rest))
  {
    var h := line + ("\n" + rest);
    assert |line| == 1 ==> line[0] != '\r' by {
      if |line| == 1 {
        assert line == [line[0]];
      }
    }
    forall x | 0 <= x < |h| && LineStart(h, x)
      ensures !CrLfAt(h, x)
    {
      if x < |line| {
        assert h[x] == line[x];
        assert x + 1 < |line| ==> h[x + 1] == line[x + 1];
      } else if x > |line| {
        var y := x - |line| - 1;
        assert h[x] == rest[y];
        assert y + 1 < |rest| ==> h[x + 1] == rest[y + 1];
        assert y > 0 ==> h[x - 1] == rest[y - 1];
        assert LineStart(rest, y);
      }
    }
  }

  /** What follows a line break inside a header block is a header block. */
  lemma HeaderBlockTail(h: string, e: nat)
    requires HeaderBlock(h) && e < |h| && h[e] == '\n'
    ensures HeaderBlock(h[e + 1..])
  {
    var t := h[e + 1..];
    forall x | 0 <= x < |t| && LineStart(t, x)
      ensures !CrLfAt(t, x)
    {
      assert t[x] == h[x + e + 1];
      assert x + 1 < |t| ==> t[x + 1] == h[x + e + 2];
      assert x > 0 ==> t[x - 1] == h[x + e];
      assert LineStart(h, x + e + 1);
    }
  }

  /** strcmp(line, "\r") == 0, for the line cut at the first '\n' at `e`. */
  lemma CrLine(t: string, e: nat)
    requires e <= |t|
    ensures t[..e] == "\r" <==> e == 1 && t[0] == '\r'
  {
    if t[..e] == "\r" {
      assert t[..e][0] == t[0];
    }
  }

  /** The header-skipping loop of httprequest as a search: what is left of the buffer after
      the first line that is exactly "\r". None when no such line ends in '\n': either the
      buffer runs out of lines or the "\r" line is the last piece of the buffer, the two
      cases the C code leaves undefined (strcmp of NULL, strdup of NULL). */
  function SkipLines(t: string): (r: Cursor)
    ensures r.Some? ==> |r.value| + 2 <= |t|
    decreases |t|
  {
    match IndexOf(t, '\n', 0)
    case None => None
    case Some(e) =>
      if e == 1 && t[0] == '\r' then Some(t[2..])
      else SkipLines(t[e + 1..])
  }

  /** One turn of the header loop, in terms of the line strsep cuts off: a line other than
      "\r" is passed over, the line "\r" ends the search, and a last line without '\n'
      leaves nothing to find. */
  lemma SkipLinesStep(p: string)
    ensures Strsep(Some(p), '\n').rest.None? ==> SkipLines(p) == None
    ensures Strsep(Some(p), '\n').rest.Some? && Strsep(Some(p), '\n').token == Some("\r") ==>
              SkipLines(p) == Strsep(Some(p), '\n').rest
    ensures Strsep(Some(p), '\n').rest.Some? && Strsep(Some(p), '\n').token != Some("\r") ==>
              SkipLines(p) == SkipLines(Strsep(Some(p), '\n').rest.value)
  {
    match IndexOf(p, '\n', 0)
    case None =>
    case Some(e) => CrLine(p, e);
  }

  /** What httprequest makes of the C string `s`: the verb up to the first space, the
      target up to the next, the version up to the end of the line; then the header lines
      are passed over up to the line "\r", and the body is the line after it. A missing
      piece, or a "\r" line that never comes or comes last, makes the request invalid. */
  function Parse(s: string): HttpRequest {
    var verb := Strsep(Some(s), ' ');
    var target := Strsep(verb.rest, ' ');
    var version := Strsep(target.rest, '\n');
    if target.token.None? || version.token.None? || version.rest.None? then Invalid
    else
      match SkipLines(version.rest.value)
      case None => Invalid
      case Some(after) =>
        Valid(verb.token.value, DefaultDocument(target.token.value), version.token.value,
              Strsep(Some(after), '\n').token.value)
  }

  /** The header-skipping loop of httprequest: strsep hands out lines until one is exactly
      "\r". Returns false where the C code would compare a NULL token (no such line is
      left); otherwise the cursor just past the "\r" line, NULL when that line was the
      last piece of the buffer. */
  method SkipHeaders(start: Cursor) returns (found: bool, cur: Cursor)
    ensures found && cur.Some? <==> start.Some? && SkipLines(start.value).Some?
    ensures found && cur.Some? ==> cur == SkipLines(start.value)
  {
    ghost var p: string := if start.Some? then start.value else [];
    ghost var blank: Cursor := if start.Some? then SkipLines(p) else None;
    var split := Strsep(start, '\n');
    var token := split.token;
    cur := split.rest;
    while token != Some("\r")
      invariant token.None? ==> blank == None
      invariant token.Some? ==> Split(token, cur) == Strsep(Some(p), '\n') && SkipLines(p) == blank
      decreases (if cur.Some? then |cur.value| + 1 else 0) + (if token.Some? then 1 else 0)
    {
      if token.None? {
        // strcmp(NULL, "\r"): no line "\r" before the end of the buffer
        return false, None;
      }
      SkipLinesStep(p);
      if cur.Some? {
        p := cur.value;
      }
      split := Strsep(cur, '\n');
      token := split.token;
      cur := split.rest;
    }
    SkipLinesStep(p);
    found := true;
  }

  /** httprequest: the request line cut with strsep, the header lines skipped, the body
      taken as the next line, and the "/" target rewritten. */
  method ParseRequest(s: string) returns (req: HttpRequest)
    ensures req == Parse(s)
  {
    var isValid := true;
    var cur: Cursor := Some(s);
    var split := Strsep(cur, ' ');
    var verb := split.token;
    cur := split.rest;
    if verb.None? { isValid := false; }
    split := Strsep(cur, ' ');
    var target := split.token;
    cur := split.rest;
    if target.None? { isValid := false; }
    split := Strsep(cur, '\n');
    var protocolVer := split.token;
    cur := split.rest;
    if protocolVer.None? { isValid := false; }

    if !isValid {
      return Invalid;
    }

    var found;
    found, cur := SkipHeaders(cur);
    if !found {
      return Invalid;
    }
    split := Strsep(cur, '\n');
    if split.token.None? {
      // strdup(NULL): the "\r" line was the last piece of the buffer
      return Invalid;
    }
    var t := target.value;
    if t == "/" {
      t := IndexDocument;
    }
    req := Valid(verb.value, t, protocolVer.value, split.token.value);
  }

  /** The pieces a well-formed request is made of. */
  predicate RequestParts(verb: string, target: string, protocolVer: string, headers: string, body: string, rest: string) {
    ' ' !in verb && ' ' !in target && '\n' !in protocolVer
    && HeaderBlock(headers) && '\n' !in body && (rest == [] || rest[0] == '\n')
  }

  /** The buffer a client sends: request line, header lines, the line "\r", the body line
      and whatever follows it. */
  function Compose(verb: string, target: string, protocolVer: string, headers: string, body: string, rest: string): string {
    verb + (" " + (target + (" " + (protocolVer + ("\n" + (headers + ("\r\n" + (body + rest))))))))
  }

  /** A header line other than "\r" is passed over. */
  lemma NextLine(line: string, rest: string)
    requires '\n' !in line && line != "\r"
    ensures SkipLines(line + ("\n" + rest)) == SkipLines(rest)
  {
    StrsepCut(line, '\n', rest);
    SkipLinesStep(line + ("\n" + rest));
  }

  /** The first line of a non-empty header block: free of '\n', not "\r", and followed by
      a header block. */
  lemma FirstHeaderLine(headers: string) returns (line: string, tail: string)
    requires HeaderBlock(headers) && headers != []
    ensures '\n' !in line && line != "\r" && HeaderBlock(tail)
    ensures headers == line + ("\n" + tail)
  {
    IndexOfFirst(headers, '\n', 0);
    assert IndexOf(headers, '\n', 0).Some? by {
      assert headers[|headers| - 1] == '\n';
    }
    var e := IndexOf(headers, '\n', 0).value;
    line, tail := headers[..e], headers[e + 1..];
    IndexOfSlices(headers, '\n', 0);
    assert headers[0..e] == line;
    assert line != "\r" by {
      CrLine(headers, e);
      assert LineStart(headers, 0);
      assert !CrLfAt(headers, 0);
    }
    HeaderBlockTail(headers, e);
  }

  /** Skipping a header block stops at the "\r" line that follows it. */
  lemma {:induction false} SkipHeaderBlock(headers: string, rest: string)
    requires HeaderBlock(headers)
    ensures SkipLines(headers + ("\r\n" + rest)) == Some(rest)
    decreases |headers|
  {
    if headers == [] {
      assert headers + ("\r\n" + rest) == "\r" + ("\n" + rest);
      StrsepCut("\r", '\n', rest);
      SkipLinesStep("\r" + ("\n" + rest));
    } else {
      var line, tail := FirstHeaderLine(headers);
      Regroup(line, tail, rest);
      NextLine(line, tail + ("\r\n" + rest));
      SkipHeaderBlock(tail, rest);
    }
  }

  /** One more line in front of a header block and what follows it. */
  lemma Regroup(line: string, h: string, r: string)
    ensures line + ("\n" + (h + ("\r\n" + r))) == (line + ("\n" + h)) + ("\r\n" + r)
  {
  }

  /** Conversely, whatever the header loop passes over is a header block. */
  lemma {:induction false} HeaderSplit(t: string) returns (headers: string)
    requires SkipLines(t).Some?
    ensures HeaderBlock(headers) && t == headers + ("\r\n" + SkipLines(t).value)
    decreases |t|
  {
    var e := IndexOf(t, '\n', 0).value;
    if e == 1 && t[0] == '\r' {
      headers := [];
      assert t == "\r\n" + t[2..];
    } else {
      var line := t[..e];
      var tail := t[e + 1..];
      IndexOfSlices(t, '\n', 0);
      assert t[0..e] == line;
      CrLine(t, e);
      var h := HeaderSplit(tail);
      HeaderBlockCons(line, h);
      headers := line + ("\n" + h);
      assert t == line + ("\n" + tail);
      Regroup(line, h, SkipLines(t).value);
    }
  }

  /** The body line is handed out whole by the last strsep. */
  lemma BodyLine(body: string, rest: string)
    requires '\n' !in body && (rest == [] || rest[0] == '\n')
    ensures Strsep(Some(body + rest), '\n').token == Some(body)
  {
    if rest == [] {
      assert body + rest == body;
      StrsepWhole(body, '\n');
    } else {
      assert body + rest == body + (['\n'] + rest[1..]);
      StrsepCut(body, '\n', rest[1..]);
    }
  }

  /** Round trip: a request assembled from well-formed pieces parses back to those pieces
      (with "/" rewritten to the default document). */
  lemma {:induction false} ParseCompose(verb: string, target: string, protocolVer: string, headers: string, body: string, rest: string)
    requires RequestParts(verb, target, protocolVer, headers, body, rest)
    ensures Parse(Compose(verb, target, protocolVer, headers, body, rest))
            == Valid(verb, DefaultDocument(target), protocolVer, body)
  {
    StrsepCut(verb, ' ', target + (" " + (protocolVer + ("\n" + (headers + ("\r\n" + (body + rest)))))));
    StrsepCut(target, ' ', protocolVer + ("\n" + (headers + ("\r\n" + (body + rest)))));
    StrsepCut(protocolVer, '\n', headers + ("\r\n" + (body + rest)));
    SkipHeaderBlock(headers, body + rest);
    BodyLine(body, rest);
  }

  /** Conversely, every valid request is the parse of such pieces: the verb is the text
      before the first space, the target the text between the first two spaces and the
      version the rest of that line. */
  lemma {:induction false} ParseDecompose(s: string) returns (target: string, headers: string, rest: string)
    requires Parse(s).Valid?
    ensures RequestParts(Parse(s).verb, target, Parse(s).protocolVer, headers, Parse(s).body, rest)
    ensures s == Compose(Parse(s).verb, target, Parse(s).protocolVer, headers, Parse(s).body, rest)
    ensures Parse(s).target == DefaultDocument(target)
  {
    var verb := Strsep(Some(s), ' ');
    var tgt := Strsep(verb.rest, ' ');
    var version := Strsep(tgt.rest, '\n');
    StrsepTokenFree(Some(s), ' ');
    StrsepTokenFree(verb.rest, ' ');
    StrsepTokenFree(tgt.rest, '\n');
    var after := SkipLines(version.rest.value).value;
    headers := HeaderSplit(version.rest.value);
    var body := Strsep(Some(after), '\n');
    StrsepTokenFree(Some(after), '\n');
    target := tgt.token.value;
    if body.rest.Some? {
      rest := ['\n'] + body.rest.value;
    } else {
      rest := [];
      assert after == body.token.value + rest;
    }
  }

  /** The three strsep calls of the request line all hand out a token, which is when the
      C code keeps is_valid set. */
  predicate RequestLineCut(s: string) {
    Strsep(Strsep(Strsep(Some(s), ' ').rest, ' ').rest, '\n').token.Some?
  }

  /** strsep's bookkeeping of the delimiter: a cut removes one, and a buffer it does not
      cut holds none. */
  lemma DelimiterCount(t: string, delim: char)
    ensures Strsep(Some(t), delim).rest.Some? ==>
              multiset(t)[delim] == multiset(Strsep(Some(t), delim).rest.value)[delim] + 1
    ensures Strsep(Some(t), delim).rest.None? ==> multiset(t)[delim] == 0
  {
    StrsepTokenFree(Some(t), delim);
  }

  /** is_valid stays set exactly when the buffer holds two spaces (a '\n' is not needed:
      without one the version is the rest of the buffer), and a valid request passed it. */
  lemma {:induction false} RequestLineCutIffTwoSpaces(s: string)
    ensures RequestLineCut(s) <==> multiset(s)[' '] >= 2
    ensures Parse(s).Valid? ==> RequestLineCut(s)
  {
    var verb := Strsep(Some(s), ' ');
    DelimiterCount(s, ' ');
    if verb.rest.Some? {
      DelimiterCount(verb.rest.value, ' ');
    }
  }
}
