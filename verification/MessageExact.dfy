/**
 Exactly which texts the message parser accepts, as what, and for what it refuses the others.  A text is described
 by its lines and by what its headers announce; no step of the parser is mentioned.
 */
module MessageExactness {
  import opened Wrappers
  import opened Ascii
  import opened Numerals
  import opened AsyncIo
  import opened MessageSyntax
  import opened Framing

  // Header lines

  /** A header line: the value stands between blanks that do not belong to it. */
  datatype Line = Line(name: string, before: string, value: string, after: string)

  predicate Blanks(s: string) {
    forall k :: 0 <= k < |s| ==> IsBlank(s[k])
  }

  predicate Bare(value: string) {
    && (forall k :: 0 <= k < |value| ==> IsVchar(value[k]) || IsBlank(value[k]))
    && (value != "" ==> !IsBlank(value[0]) && !IsBlank(value[|value| - 1]))
  }

  predicate LineOk(l: Line) {
    ValidName(l.name) && Blanks(l.before) && Bare(l.value) && Blanks(l.after)
  }

  function LineText(l: Line): string {
    l.name + ":" + l.before + l.value + l.after
  }

  function HeaderOf(l: Line): Header {
    Header(l.name, l.value)
  }

  /** Well-formed lines that fit the buffer, the return before the line feed included. */
  predicate LinesOk(cfg: Config, ls: seq<Line>) {
    forall l <- ls :: LineOk(l) && |LineText(l)| + 1 <= cfg.bufferLimit
  }

  function LinesText(ls: seq<Line>): string {
    if ls == [] then "" else LineText(ls[0]) + CRLF + LinesText(ls[1..])
  }

  function HeadersOf(ls: seq<Line>): (hs: seq<Header>)
    ensures |hs| == |ls|
  {
    if ls == [] then [] else [HeaderOf(ls[0])] + HeadersOf(ls[1..])
  }

  // What headers announce

  predicate IsLength(h: Header) { EqualNoCase(h.name, "Content-Length") }

  predicate IsEncoding(h: Header) { EqualNoCase(h.name, "Transfer-Encoding") }

  predicate IsHost(h: Header) { EqualNoCase(h.name, "Host") }

  /** A length that reads, no coding but chunked, and the syntax of its own a header may have. */
  predicate HeaderTaken(cfg: Config, h: Header) {
    && (IsLength(h) ==> ReadDigits(10, 0, h.value).Some?)
    && (IsEncoding(h) ==> h.value == "chunked")
    && (IsHost(h) || IsSpecial(h.name) ==> cfg.special(h.name, h.value).None?)
  }

  ghost predicate HasHost(hs: seq<Header>) {
    exists h <- hs :: IsHost(h)
  }

  ghost predicate OneHost(hs: seq<Header>) {
    hs == [] || (OneHost(hs[1..]) && (IsHost(hs[0]) ==> !HasHost(hs[1..])))
  }

  ghost predicate HeadersTaken(cfg: Config, hs: seq<Header>) {
    (forall h <- hs :: HeaderTaken(cfg, h)) && OneHost(hs)
  }

  /** The length announced last. */
  function LengthOf(hs: seq<Header>): Option<nat> {
    if hs == [] then None
    else if LengthOf(hs[1..]).Some? then LengthOf(hs[1..])
    else if IsLength(hs[0]) then ReadDigits(10, 0, hs[0].value)
    else None
  }

  ghost predicate IsChunked(hs: seq<Header>) {
    exists h <- hs :: IsEncoding(h)
  }

  /** A body, and what is left unread behind it. */
  datatype Tail = Tail(body: Option<string>, rest: string)

  /** The body behind the headers: of the announced length, or in chunks, or all there is. */
  ghost function BodyOf(cfg: Config, hs: seq<Header>, text: string, ending: Ending): Option<Tail> {
    if !cfg.hasBody then Some(Tail(None, text))
    else if LengthOf(hs).Some? then
      var n := LengthOf(hs).value;
      if n == 0 || (n <= |text| && n <= cfg.bodyLimit && n - 1 <= cfg.bufferLimit) then
        Some(Tail(Some(text[..n]), text[n..]))
      else None
    else if IsChunked(hs) then
      match Dechunk(cfg, "", text)
      case Some(d) => Some(Tail(Some(d.body), d.rest))
      case None => None
    else if ending == Ended && |text| <= cfg.bodyLimit && |text| <= cfg.bufferLimit then Some(Tail(Some(text), ""))
    else None
  }

  /** The text begins with these header lines and the empty line, and `tail` is behind it. */
  ghost predicate Heads(cfg: Config, text: string, ls: seq<Line>, tail: string) {
    && cfg.bufferLimit >= 1
    && text == LinesText(ls) + CRLF + tail
    && LinesOk(cfg, ls)
    && HeadersTaken(cfg, HeadersOf(ls))
  }

  ghost predicate IsMessage(cfg: Config, text: string, ending: Ending, m: Message, rest: string) {
    exists ls, tail | Heads(cfg, text, ls, tail) ::
      m.headers == HeadersOf(ls) && BodyOf(cfg, m.headers, tail, ending) == Some(Tail(m.body, rest))
  }

  // One line

  lemma {:induction false} TrimFrontBlanks(s: string, t: string)
    requires Blanks(s) && (t != "" ==> !IsBlank(t[0]))
    ensures TrimFront(s + t) == t
  {
    if s == "" {
      assert s + t == t;
    } else {
      assert (s + t)[1..] == s[1..] + t;
      TrimFrontBlanks(s[1..], t);
    }
  }

  lemma {:induction false} TrimBackBlanks(t: string, s: string)
    requires Blanks(s) && (t != "" ==> !IsBlank(t[|t| - 1]))
    ensures TrimBack(t + s) == t
    decreases |s|
  {
    if s == "" {
      assert t + s == t;
    } else {
      assert (t + s)[..|t + s| - 1] == t + s[..|s| - 1];
      TrimBackBlanks(t, s[..|s| - 1]);
    }
  }

  lemma TrimFrontAll(s: string)
    requires Blanks(s)
    ensures TrimFront(s) == ""
  {
    TrimFrontBlanks(s, "");
    assert s + "" == s;
  }

  /** Trimming takes blanks away at both ends and nothing else. */
  lemma TrimValue(before: string, value: string, after: string)
    requires Blanks(before) && Bare(value) && Blanks(after)
    ensures TrimBack(TrimFront(before + value + after)) == value
  {
    if value == "" {
      assert before + value + after == before + after && Blanks(before + after);
      TrimFrontAll(before + after);
    } else {
      Associate(before, value, after);
      TrimFrontBlanks(before, value + after);
      TrimBackBlanks(value, after);
    }
  }

  lemma {:induction false} TrimFrontSplit(s: string) returns (blanks: string)
    ensures Blanks(blanks) && s == blanks + TrimFront(s)
    ensures TrimFront(s) != "" ==> !IsBlank(TrimFront(s)[0])
  {
    if s != "" && IsBlank(s[0]) {
      blanks := TrimFrontSplit(s[1..]);
      blanks := [s[0]] + blanks;
    } else {
      blanks := "";
    }
  }

  lemma {:induction false} TrimBackSplit(s: string) returns (blanks: string)
    ensures Blanks(blanks) && s == TrimBack(s) + blanks
    ensures TrimBack(s) != "" ==> s != "" && TrimBack(s)[0] == s[0]
    decreases |s|
  {
    if s != "" && IsBlank(s[|s| - 1]) {
      blanks := TrimBackSplit(s[..|s| - 1]);
      blanks := blanks + [s[|s| - 1]];
    } else {
      blanks := "";
    }
  }

  /** A well-formed line is taken as its header. */
  lemma TakeLineText(cfg: Config, st: State, l: Line)
    requires LineOk(l)
    ensures TakeHeader(cfg, st, LineText(l)) ==
      match HeaderEffect(cfg, st, l.name, l.value)
      case More(s) => More(s.(headers := s.headers + [HeaderOf(l)], buffer := ""))
      case o => o
  {
    var line, tail := LineText(l), l.before + l.value + l.after;
    assert line == l.name + [':'] + tail;
    FindBehind(l.name, ':', tail);
    assert line[..|l.name|] == l.name && line[|l.name| + 1..] == tail;
    TrimValue(l.before, l.value, l.after);
    hide HeaderEffect, Find, TrimFront, TrimBack;
  }

  lemma HeaderMalformed(cfg: Config, st: State, line: string)
    requires var k := Find(line, ':', 0);
      k == |line| || !ValidName(line[..k]) || !ValidValue(TrimBack(TrimFront(line[k + 1..])))
    ensures TakeHeader(cfg, st, line) == Failed(Malformed)
  {
    hide HeaderEffect, TrimFront, TrimBack, ValidName, ValidValue, Find;
  }

  /** Any other line is malformed. */
  lemma SplitLine(cfg: Config, st: State, line: string) returns (l: Option<Line>)
    ensures l.Some? ==> LineOk(l.value) && LineText(l.value) == line
    ensures l.None? ==> TakeHeader(cfg, st, line) == Failed(Malformed)
  {
    hide TakeHeader, TrimFront, TrimBack;
    var k := Find(line, ':', 0);
    if k == |line| {
      HeaderMalformed(cfg, st, line);
      return None;
    }
    var name, text := line[..k], line[k + 1..];
    var before := TrimFrontSplit(text);
    var after := TrimBackSplit(TrimFront(text));
    var value := TrimBack(TrimFront(text));
    if !ValidName(name) || !ValidValue(value) {
      HeaderMalformed(cfg, st, line);
      return None;
    }
    hide Find, ValidName, Blanks;
    l := Some(Line(name, before, value, after));
    assert Bare(value);
    LineJoin(line, k, l.value);
  }

  lemma LineJoin(line: string, k: nat, l: Line)
    requires k < |line| && line[k] == ':' && line[..k] == l.name && line[k + 1..] == l.before + (l.value + l.after)
    ensures LineText(l) == line
  {
    Associate(l.before, l.value, l.after);
    assert line == l.name + ":" + line[k + 1..];
    Associate(l.name + ":", l.before, l.value);
    Associate(l.name + ":", l.before + l.value, l.after);
  }

  lemma LineIsPlain(l: Line)
    requires LineOk(l)
    ensures forall k :: 0 <= k < |LineText(l)| ==> LineText(l)[k] != '\r'
    ensures LineText(l) != ""
  {
    var line := LineText(l);
    forall k | 0 <= k < |line| ensures line[k] != '\r' {
      assert line[k] in l.name || line[k] == ':' || line[k] in l.before || line[k] in l.value || line[k] in l.after;
    }
  }

  // What headers change

  /** Why a header is refused once its line is well formed, `hostSet` telling whether a Host came before. */
  function Refusal(cfg: Config, h: Header, hostSet: bool): Option<Error> {
    if IsLength(h) then if ReadDigits(10, 0, h.value).None? then Some(Malformed) else None
    else if IsEncoding(h) then if h.value != "chunked" then Some(BadTransferEncoding) else None
    else if (IsHost(h) || IsSpecial(h.name)) && cfg.special(h.name, h.value).Some? then cfg.special(h.name, h.value)
    else if IsHost(h) && hostSet then Some(Malformed)
    else None
  }

  lemma NamesDiffer(h: Header)
    ensures IsLength(h) ==> !IsEncoding(h) && !IsHost(h) && !IsSpecial(h.name)
    ensures IsEncoding(h) ==> !IsHost(h) && !IsSpecial(h.name)
    ensures IsHost(h) ==> !IsSpecial(h.name)
  {
    assert IsLength(h) ==> ToLower(h.name[0]) == 'c' && |h.name| == 14;
    if EqualNoCase(h.name, "Accept-Charset") {
      assert ToLower(h.name[0]) == 'a';
    }
  }

  lemma RefusalExact(cfg: Config, h: Header, hostSet: bool)
    ensures Refusal(cfg, h, hostSet).None? <==> HeaderTaken(cfg, h) && !(IsHost(h) && hostSet)
  {
    NamesDiffer(h);
    hide EqualNoCase, IsSpecial, ReadDigits;
  }

  lemma EffectExact(cfg: Config, st: State, h: Header)
    ensures Refusal(cfg, h, st.hostSet).Some? ==>
              HeaderEffect(cfg, st, h.name, h.value) == Failed(Refusal(cfg, h, st.hostSet).value)
    ensures Refusal(cfg, h, st.hostSet).None? ==>
              var length := if IsLength(h) then ReadDigits(10, 0, h.value) else st.contentLength;
              HeaderEffect(cfg, st, h.name, h.value) == More(st.(contentLength := length,
                isChunkBody := st.isChunkBody || IsEncoding(h), hostSet := st.hostSet || IsHost(h)))
  {
    NamesDiffer(h);
    hide EqualNoCase, IsSpecial, ReadDigits;
  }

  lemma HeadersUnfold(cfg: Config, hs: seq<Header>)
    requires hs != []
    ensures HasHost(hs) <==> IsHost(hs[0]) || HasHost(hs[1..])
    ensures IsChunked(hs) <==> IsEncoding(hs[0]) || IsChunked(hs[1..])
    ensures HeadersTaken(cfg, hs) <==>
            HeaderTaken(cfg, hs[0]) && HeadersTaken(cfg, hs[1..]) && (IsHost(hs[0]) ==> !HasHost(hs[1..]))
  {
    hide IsHost, IsEncoding, HeaderTaken;
    assert hs == [hs[0]] + hs[1..];
  }

  /** The headers are accepted exactly when each is and at most one is a Host, and what they leave is what they
      announce. */
  lemma {:induction false} EffectsExact(cfg: Config, st: State, hs: seq<Header>)
    ensures Effects(cfg, st, hs).More? <==> HeadersTaken(cfg, hs) && !(st.hostSet && HasHost(hs))
    ensures Effects(cfg, st, hs).More? ==>
      var s := Effects(cfg, st, hs).state;
      && s.headers == st.headers + hs
      && s.contentLength == (if LengthOf(hs).Some? then LengthOf(hs) else st.contentLength)
      && s.isChunkBody == (st.isChunkBody || IsChunked(hs))
      && s.hostSet == (st.hostSet || HasHost(hs))
      && s.phase == st.phase && s.decodedBody == st.decodedBody && s.canEof == st.canEof
      && (hs != [] || st.buffer == "" ==> s.buffer == "")
    decreases |hs|
  {
    hide HeaderTaken, IsHost, IsLength, IsEncoding, HasHost, IsChunked, HeadersTaken, HeaderEffect, ReadDigits, Refusal;
    if hs == [] {
      NoHeaders(cfg);
      assert st.headers + hs == st.headers;
    } else {
      var h := hs[0];
      HeadersUnfold(cfg, hs);
      EffectExact(cfg, st, h);
      RefusalExact(cfg, h, st.hostSet);
      var o := HeaderEffect(cfg, st, h.name, h.value);
      if o.More? {
        EffectsExact(cfg, o.state.(headers := o.state.headers + [h], buffer := ""), hs[1..]);
        Associate(st.headers, [h], hs[1..]);
        assert [h] + hs[1..] == hs;
        LengthRead(cfg, hs);
      }
    }
  }

  lemma NoHeaders(cfg: Config)
    ensures HeadersTaken(cfg, []) && !HasHost([]) && !IsChunked([]) && LengthOf([]) == None
  {
  }

  lemma LengthRead(cfg: Config, hs: seq<Header>)
    requires hs != [] && HeaderTaken(cfg, hs[0])
    ensures IsLength(hs[0]) ==> ReadDigits(10, 0, hs[0].value).Some?
  {
    hide ReadDigits, IsLength;
  }

  // The head

  lemma LinesUnfold(cfg: Config, ls: seq<Line>)
    requires ls != []
    ensures HeadersOf(ls)[0] == HeaderOf(ls[0]) && HeadersOf(ls)[1..] == HeadersOf(ls[1..])
    ensures LinesOk(cfg, ls) <==>
            LineOk(ls[0]) && |LineText(ls[0])| + 1 <= cfg.bufferLimit && LinesOk(cfg, ls[1..])
  {
    hide LineOk, LineText;
    assert ls == [ls[0]] + ls[1..];
  }

  lemma FeedOneLine(cfg: Config, st: State, line: string, rest: string)
    requires ReadsLines(st) && st.buffer == "" && |line| + 1 <= cfg.bufferLimit
    requires forall k :: 0 <= k < |line| ==> line[k] != '\r'
    ensures FeedAll(cfg, st, line + CRLF + rest) == Continue(cfg, TakeLine(cfg, st, line), rest)
  {
    hide FindCrlf, FeedAll, TakeLine;
    var bytes := line + CRLF + rest;
    FindCrlfBehind(line, rest);
    FeedLine(cfg, st, bytes);
    Cut(line + CRLF, rest);
    Associate(line, CRLF, rest);
    Cut(line, CRLF + rest);
  }

  /** One header line. */
  lemma FeedLineText(cfg: Config, st: State, l: Line, rest: string)
    requires st.phase.HeaderLine? && st.buffer == "" && LineOk(l) && |LineText(l)| + 1 <= cfg.bufferLimit
    ensures var o, text := HeaderEffect(cfg, st, l.name, l.value), LineText(l) + CRLF + rest;
      && !o.Done?
      && (o.More? ==>
            FeedAll(cfg, st, text) ==
            FeedAll(cfg, o.state.(headers := o.state.headers + [HeaderOf(l)], buffer := ""), rest))
      && (o.Failed? ==> FeedAll(cfg, st, text) == Run(Failed(o.error), ""))
  {
    LineIsPlain(l);
    TakeLineText(cfg, st, l);
    EffectExact(cfg, st, HeaderOf(l));
    hide LineText, HeaderEffect, FeedAll, TakeHeader, Refusal;
    FeedOneLine(cfg, st, LineText(l), rest);
  }

  /** Well-formed lines are taken one after the other. */
  lemma {:induction false} FeedLines(cfg: Config, st: State, ls: seq<Line>, rest: string)
    requires st.phase.HeaderLine? && st.buffer == "" && LinesOk(cfg, ls)
    requires Effects(cfg, st, HeadersOf(ls)).More?
    ensures FeedAll(cfg, st, LinesText(ls) + rest) == FeedAll(cfg, Effects(cfg, st, HeadersOf(ls)).state, rest)
    decreases |ls|
  {
    hide LinesOk, LineOk, LineText, HeaderEffect, FeedAll, HeadersOf;
    if ls == [] {
      assert HeadersOf(ls) == [] && LinesText(ls) + rest == rest;
    } else {
      LinesUnfold(cfg, ls);
      var l, after := ls[0], LinesText(ls[1..]) + rest;
      Associate(LineText(l) + CRLF, LinesText(ls[1..]), rest);
      FeedLineText(cfg, st, l, after);
      EffectKeepsFrame(cfg, st, HeaderOf(l));
      var s := HeaderEffect(cfg, st, l.name, l.value).state;
      FeedLines(cfg, s.(headers := s.headers + [HeaderOf(l)], buffer := ""), ls[1..], rest);
    }
  }

  /** The verdict of a run. */
  function Ends(run: Run, ending: Ending): Verdict {
    match run.outcome
    case Done(m) => Accepted(m, run.rest)
    case Failed(e) => Refused(e)
    case More(s) =>
      match ending
      case Open => Waiting(s)
      case Broken => Refused(ReadFault)
      case Ended => if s.canEof then Accepted(Message(s.headers, Some(s.buffer)), "") else Refused(UnexpectedEof)
  }

  lemma JudgeEnds(cfg: Config, st: State, bytes: string, ending: Ending)
    requires |st.buffer| <= cfg.bufferLimit
    ensures Judge(cfg, st, bytes, ending) == Ends(FeedAll(cfg, st, bytes), ending)
  {
    hide FeedAll;
  }

  /** A line that does not end is only kept. */
  lemma FeedOpenLine(cfg: Config, st: State, text: string)
    requires ReadsLines(st) && st.buffer == "" && FindCrlf(text) == |text|
    ensures FeedAll(cfg, st, text) == Run(More(st.(buffer := text)), "") ||
            FeedAll(cfg, st, text).outcome == Failed(ExceededBuffer)
  {
    assert "" + text == text && text + "" == text;
    FeedPartialLine(cfg, st, text, "");
  }

  /** What is accepted begins with well-formed lines and the empty line. */
  lemma {:induction false} SoundHead(cfg: Config, st: State, text: string, ending: Ending)
    returns (ls: seq<Line>, tail: string)
    requires st.phase.HeaderLine? && st.buffer == "" && !st.canEof
    requires Ends(FeedAll(cfg, st, text), ending).Accepted?
    ensures cfg.bufferLimit >= 1 && text == LinesText(ls) + CRLF + tail && LinesOk(cfg, ls)
    ensures Effects(cfg, st, HeadersOf(ls)).More?
    decreases |text|
  {
    hide FeedAll, FindCrlf, TakeHeader, EndHeaders, LinesOk, LineOk, LineText, HeaderEffect;
    var k := FindCrlf(text);
    FeedLine(cfg, st, text);
    if k == |text| {
      FeedOpenLine(cfg, st, text);
      assert false;
    } else {
      var line, rest := text[..k], text[k + 2..];
      assert text == line + CRLF + rest;
      if line == "" {
        ls, tail := [], rest;
        assert LinesText([]) + CRLF + tail == text;
        NoLines(cfg);
      } else {
        var l := SplitLine(cfg, st, line);
        assert l.Some?;
        TakeLineText(cfg, st, l.value);
        EffectExact(cfg, st, HeaderOf(l.value));
        EffectKeepsFrame(cfg, st, HeaderOf(l.value));
        var s := HeaderEffect(cfg, st, l.value.name, l.value.value).state;
        var next := s.(headers := s.headers + [HeaderOf(l.value)], buffer := "");
        ls, tail := SoundHead(cfg, next, rest, ending);
        var all := [l.value] + ls;
        assert all[1..] == ls;
        LinesUnfold(cfg, all);
        Associate(line + CRLF, LinesText(ls) + CRLF, tail);
        Associate(line + CRLF, LinesText(ls), CRLF);
        ls := all;
      }
    }
  }

  lemma NoLines(cfg: Config)
    ensures LinesOk(cfg, []) && HeadersOf([]) == [] && LinesText([]) == ""
  {
  }

  // The body

  /** Once the head is read, only the way the message ends can change. */
  lemma {:induction false} EndStays(cfg: Config, st: State, bytes: string)
    requires !st.phase.HeaderLine?
    ensures FeedAll(cfg, st, bytes).outcome.More? ==> FeedAll(cfg, st, bytes).outcome.state.canEof == st.canEof
    decreases |bytes|
  {
    if bytes != "" {
      EndStaysOnce(cfg, st, bytes[0]);
      hide Feed;
      var o := Feed(cfg, st, bytes[0]);
      if o.More? {
        EndStays(cfg, o.state, bytes[1..]);
      }
    }
  }

  lemma EndStaysOnce(cfg: Config, st: State, c: char)
    requires !st.phase.HeaderLine?
    ensures Feed(cfg, st, c).More? ==>
              Feed(cfg, st, c).state.canEof == st.canEof && !Feed(cfg, st, c).state.phase.HeaderLine?
  {
    hide TakeHeader, Find, ReadHex, ValidExtension;
  }

  /** A body without framing is all there is, within the limits; the smaller one is reported. */
  lemma {:induction false} FeedRest(cfg: Config, st: State, bytes: string)
    requires st.phase.Body? && st.canEof && |st.buffer| <= cfg.bodyLimit && |st.buffer| <= cfg.bufferLimit
    ensures var all := st.buffer + bytes;
      FeedAll(cfg, st, bytes) ==
      if |all| <= cfg.bodyLimit && |all| <= cfg.bufferLimit then Run(More(st.(buffer := all)), "")
      else Run(Failed(if cfg.bodyLimit <= cfg.bufferLimit then BodyExceededLimit else ExceededBuffer), "")
    decreases |bytes|
  {
    if bytes == "" {
      assert st.buffer + bytes == st.buffer;
    } else {
      FeedOne(cfg, st, bytes);
      var next := st.(buffer := st.buffer + [bytes[0]]);
      Associate(st.buffer, [bytes[0]], bytes[1..]);
      assert [bytes[0]] + bytes[1..] == bytes;
      hide FeedAll;
      if |next.buffer| <= cfg.bodyLimit && |next.buffer| <= cfg.bufferLimit {
        FeedRest(cfg, next, bytes[1..]);
      }
    }
  }

  /** What the empty line makes of a state that the headers have left. */
  ghost predicate Announces(st: State, hs: seq<Header>) {
    && st.phase.HeaderLine? && st.buffer == "" && !st.canEof && st.decodedBody == None
    && st.headers == hs && st.contentLength == LengthOf(hs) && st.isChunkBody == IsChunked(hs)
  }

  lemma FeedEmptyLine(cfg: Config, st: State, tail: string)
    requires st.phase.HeaderLine? && st.buffer == "" && cfg.bufferLimit >= 1
    ensures FeedAll(cfg, st, CRLF + tail) == Continue(cfg, EndHeaders(cfg, st), tail)
  {
    hide EndHeaders, FeedAll;
    FeedBlankLine(cfg, st, tail);
  }

  lemma AfterHeadNoBody(cfg: Config, st: State, hs: seq<Header>, tail: string)
    requires Announces(st, hs) && cfg.bufferLimit >= 1
    requires !cfg.hasBody || LengthOf(hs) == Some(0)
    ensures FeedAll(cfg, st, CRLF + tail) ==
      Run(Done(Message(hs, if cfg.hasBody then Some("") else None)), tail)
  {
    hide FeedAll, LengthOf, IsChunked;
    FeedEmptyLine(cfg, st, tail);
  }

  /** A body of announced length: complete, or waiting for the rest, or over a limit. */
  function SizedRun(cfg: Config, st: State, n: nat, text: string): Run {
    if n <= |text| && n <= cfg.bodyLimit && n - 1 <= cfg.bufferLimit then
      Run(Done(Message(st.headers, Some(text[..n]))), text[n..])
    else if |text| < n && |text| <= cfg.bodyLimit && |text| <= cfg.bufferLimit then
      Run(More(st.(phase := Body, buffer := text)), "")
    else Run(Failed(if cfg.bodyLimit <= cfg.bufferLimit then BodyExceededLimit else ExceededBuffer), "")
  }

  lemma {:induction false} FeedSized(cfg: Config, st: State, bytes: string)
    requires st.phase.Body? && !st.canEof && st.contentLength.Some? && |st.buffer| < st.contentLength.value
    requires |st.buffer| <= cfg.bodyLimit && |st.buffer| <= cfg.bufferLimit
    ensures FeedAll(cfg, st, bytes) == SizedRun(cfg, st, st.contentLength.value, st.buffer + bytes)
    decreases |bytes|
  {
    var n, all := st.contentLength.value, st.buffer + bytes;
    if bytes == "" {
      assert all == st.buffer;
    } else {
      FeedOne(cfg, st, bytes);
      var next := st.(buffer := st.buffer + [bytes[0]]);
      Associate(st.buffer, [bytes[0]], bytes[1..]);
      assert [bytes[0]] + bytes[1..] == bytes;
      assert all == next.buffer + bytes[1..];
      Cut(next.buffer, bytes[1..]);
      hide FeedAll;
      if |next.buffer| < n && |next.buffer| <= cfg.bodyLimit && |next.buffer| <= cfg.bufferLimit {
        FeedSized(cfg, next, bytes[1..]);
      }
    }
  }

  lemma AfterHeadSized(cfg: Config, st: State, hs: seq<Header>, tail: string)
    requires Announces(st, hs) && cfg.bufferLimit >= 1
    requires cfg.hasBody && LengthOf(hs).Some? && LengthOf(hs).value > 0
    ensures FeedAll(cfg, st, CRLF + tail) == SizedRun(cfg, st, LengthOf(hs).value, tail)
  {
    hide FeedAll, LengthOf, IsChunked;
    FeedEmptyLine(cfg, st, tail);
    FeedSized(cfg, st.(phase := Body, buffer := ""), tail);
    assert "" + tail == tail;
  }

  lemma AfterHeadChunked(cfg: Config, st: State, hs: seq<Header>, tail: string)
    requires Announces(st, hs) && cfg.bufferLimit >= 1 && LimitsFit(cfg)
    requires cfg.hasBody && LengthOf(hs).None? && IsChunked(hs)
    ensures var run, decoded := FeedAll(cfg, st, CRLF + tail), Dechunk(cfg, "", tail);
      if decoded.Some? then run == Run(Done(Message(hs, Some(decoded.value.body))), decoded.value.rest)
      else !run.outcome.Done? && (run.outcome.More? ==> !run.outcome.state.canEof)
  {
    hide FeedAll, LengthOf, IsChunked, Dechunk;
    FeedEmptyLine(cfg, st, tail);
    var s := st.(phase := ChunkedBodySize, buffer := "");
    FeedDechunks(cfg, s, tail);
    EndStays(cfg, s, tail);
  }

  lemma AfterHeadUnframed(cfg: Config, st: State, hs: seq<Header>, tail: string)
    requires Announces(st, hs) && cfg.bufferLimit >= 1
    requires cfg.hasBody && LengthOf(hs).None? && !IsChunked(hs)
    ensures FeedAll(cfg, st, CRLF + tail) ==
      if |tail| <= cfg.bodyLimit && |tail| <= cfg.bufferLimit
      then Run(More(st.(phase := Body, canEof := true, buffer := tail)), "")
      else Run(Failed(if cfg.bodyLimit <= cfg.bufferLimit then BodyExceededLimit else ExceededBuffer), "")
  {
    hide FeedAll, LengthOf, IsChunked;
    FeedEmptyLine(cfg, st, tail);
    FeedRest(cfg, st.(phase := Body, buffer := "", canEof := true), tail);
    assert "" + tail == tail;
  }

  lemma AfterHead(cfg: Config, st: State, hs: seq<Header>, tail: string, ending: Ending)
    requires Announces(st, hs) && cfg.bufferLimit >= 1 && LimitsFit(cfg)
    ensures var body, verdict := BodyOf(cfg, hs, tail, ending), Ends(FeedAll(cfg, st, CRLF + tail), ending);
      && (body.Some? ==> verdict == Accepted(Message(hs, body.value.body), body.value.rest))
      && (body.None? ==> !verdict.Accepted?)
  {
    hide FeedAll, LengthOf, IsChunked, Dechunk;
    if !cfg.hasBody || LengthOf(hs) == Some(0) {
      AfterHeadNoBody(cfg, st, hs, tail);
      assert tail[..0] == "" && tail[0..] == tail;
    } else if LengthOf(hs).Some? {
      AfterHeadSized(cfg, st, hs, tail);
    } else if IsChunked(hs) {
      AfterHeadChunked(cfg, st, hs, tail);
    } else {
      AfterHeadUnframed(cfg, st, hs, tail);
    }
  }

  /** The state behind the header lines, and the run from there. */
  lemma FeedHead(cfg: Config, ls: seq<Line>, rest: string) returns (st: State)
    requires LinesOk(cfg, ls) && HeadersTaken(cfg, HeadersOf(ls))
    ensures Announces(st, HeadersOf(ls)) && st.hostSet == HasHost(HeadersOf(ls))
    ensures FeedAll(cfg, INITIAL, LinesText(ls) + rest) == FeedAll(cfg, st, rest)
  {
    hide FeedAll, HeadersTaken, LinesOk, LengthOf, IsChunked, HasHost, Effects;
    var hs := HeadersOf(ls);
    EffectsExact(cfg, INITIAL, hs);
    FeedLines(cfg, INITIAL, ls, rest);
    st := Effects(cfg, INITIAL, hs).state;
    assert [] + hs == hs;
  }

  lemma HeadVerdict(cfg: Config, text: string, ls: seq<Line>, tail: string, ending: Ending)
    requires LimitsFit(cfg) && Heads(cfg, text, ls, tail)
    ensures var hs, verdict := HeadersOf(ls), Judge(cfg, INITIAL, text, ending);
      var body := BodyOf(cfg, hs, tail, ending);
      && (body.Some? ==> verdict == Accepted(Message(hs, body.value.body), body.value.rest))
      && (body.None? ==> !verdict.Accepted?)
  {
    hide FeedAll, LengthOf, IsChunked, LinesOk, HeadersTaken, Judge, BodyOf, Announces, HeadersOf, LinesText;
    Associate(LinesText(ls), CRLF, tail);
    var st := FeedHead(cfg, ls, CRLF + tail);
    AfterHead(cfg, st, HeadersOf(ls), tail, ending);
    JudgeEnds(cfg, INITIAL, text, ending);
  }

  lemma AcceptedHeads(cfg: Config, text: string, ending: Ending) returns (ls: seq<Line>, tail: string)
    requires Judge(cfg, INITIAL, text, ending).Accepted?
    ensures Heads(cfg, text, ls, tail)
  {
    hide FeedAll, LinesOk, HeadersTaken, Judge, Effects, HeadersOf, LinesText;
    JudgeEnds(cfg, INITIAL, text, ending);
    ls, tail := SoundHead(cfg, INITIAL, text, ending);
    EffectsExact(cfg, INITIAL, HeadersOf(ls));
  }

  /** Exactly which texts are accepted, as which message, with what left unread. */
  lemma MessageExact(cfg: Config, text: string, ending: Ending, m: Message, rest: string)
    requires LimitsFit(cfg)
    ensures Judge(cfg, INITIAL, text, ending) == Accepted(m, rest) <==> IsMessage(cfg, text, ending, m, rest)
  {
    hide Judge, Heads, BodyOf, HeadersOf;
    if Judge(cfg, INITIAL, text, ending) == Accepted(m, rest) {
      var ls, tail := AcceptedHeads(cfg, text, ending);
      HeadVerdict(cfg, text, ls, tail, ending);
    }
    forall ls, tail | Heads(cfg, text, ls, tail) && m.headers == HeadersOf(ls)
                      && BodyOf(cfg, m.headers, tail, ending) == Some(Tail(m.body, rest))
      ensures Judge(cfg, INITIAL, text, ending) == Accepted(m, rest)
    {
      HeadVerdict(cfg, text, ls, tail, ending);
    }
  }

  // Printed messages

  function LinesOf(hs: seq<Header>): (ls: seq<Line>)
    ensures |ls| == |hs|
  {
    if hs == [] then [] else [Line(hs[0].name, " ", hs[0].value, "")] + LinesOf(hs[1..])
  }

  lemma PrintedLine(cfg: Config, h: Header)
    requires Printable(h, cfg.bufferLimit)
    ensures var l := Line(h.name, " ", h.value, "");
      LineOk(l) && HeaderOf(l) == h && LineText(l) + CRLF == PrintHeader(h) && |LineText(l)| + 1 <= cfg.bufferLimit
  {
    var l := Line(h.name, " ", h.value, "");
    assert LineText(l) == h.name + ": " + h.value;
  }

  lemma {:induction false} PrintedLines(cfg: Config, hs: seq<Header>)
    requires forall h <- hs :: Printable(h, cfg.bufferLimit)
    ensures LinesOk(cfg, LinesOf(hs)) && HeadersOf(LinesOf(hs)) == hs && LinesText(LinesOf(hs)) == PrintHeaders(hs)
  {
    hide Printable, LineOk, LineText, LinesOk, PrintHeader;
    if hs == [] {
      NoLines(cfg);
    } else {
      var ls := LinesOf(hs);
      PrintedLine(cfg, hs[0]);
      PrintedLines(cfg, hs[1..]);
      assert ls[1..] == LinesOf(hs[1..]);
      LinesUnfold(cfg, ls);
      assert HeadersOf(ls) == [HeaderOf(ls[0])] + HeadersOf(ls[1..]);
      assert [hs[0]] + hs[1..] == hs;
    }
  }

  /** A printed message with acceptable headers, whatever they announce, is judged by what stands behind them. */
  lemma PrintedHeads(cfg: Config, hs: seq<Header>, tail: string)
    requires cfg.bufferLimit >= 1 && HeadersTaken(cfg, hs) && forall h <- hs :: Printable(h, cfg.bufferLimit)
    ensures Heads(cfg, PrintHeaders(hs) + CRLF + tail, LinesOf(hs), tail) && HeadersOf(LinesOf(hs)) == hs
  {
    hide Printable, HeadersTaken, LinesOk;
    PrintedLines(cfg, hs);
  }

  /** A message that announces neither a length nor chunks has for its body all that follows, when the input
      ends; until then it waits for more. */
  lemma UnframedRoundTrip(cfg: Config, hs: seq<Header>, body: string, ending: Ending)
    requires cfg.bufferLimit >= 1 && cfg.hasBody && HeadersTaken(cfg, hs)
    requires forall h <- hs :: Printable(h, cfg.bufferLimit)
    requires LengthOf(hs) == None && !IsChunked(hs)
    ensures var verdict := Judge(cfg, INITIAL, PrintHeaders(hs) + CRLF + body, ending);
      if |body| > cfg.bodyLimit || |body| > cfg.bufferLimit
      then verdict == Refused(if cfg.bodyLimit <= cfg.bufferLimit then BodyExceededLimit else ExceededBuffer)
      else
        && (ending == Ended ==> verdict == Accepted(Message(hs, Some(body)), ""))
        && (ending == Open ==> verdict.Waiting?)
        && (ending == Broken ==> verdict == Refused(ReadFault))
  {
    hide FeedAll, LengthOf, IsChunked, LinesOk, HeadersTaken, Judge, HeadersOf, LinesText, LinesOf, Printable;
    PrintedLines(cfg, hs);
    var text := PrintHeaders(hs) + CRLF + body;
    Associate(PrintHeaders(hs), CRLF, body);
    var st := FeedHead(cfg, LinesOf(hs), CRLF + body);
    AfterHeadUnframed(cfg, st, hs, body);
    JudgeEnds(cfg, INITIAL, text, ending);
  }

  /** A message that announces a length waits for exactly that many bytes, unless a limit is passed before. */
  lemma SizedVerdict(cfg: Config, hs: seq<Header>, body: string, ending: Ending)
    requires cfg.bufferLimit >= 1 && cfg.hasBody && HeadersTaken(cfg, hs)
    requires forall h <- hs :: Printable(h, cfg.bufferLimit)
    requires LengthOf(hs).Some?
    ensures var n, verdict := LengthOf(hs).value, Judge(cfg, INITIAL, PrintHeaders(hs) + CRLF + body, ending);
      if n == 0 || (n <= |body| && n <= cfg.bodyLimit && n - 1 <= cfg.bufferLimit)
      then n <= |body| && verdict == Accepted(Message(hs, Some(body[..n])), body[n..])
      else if n <= |body| || |body| > cfg.bodyLimit || |body| > cfg.bufferLimit
      then verdict == Refused(if cfg.bodyLimit <= cfg.bufferLimit then BodyExceededLimit else ExceededBuffer)
      else
        && (ending == Ended ==> verdict == Refused(UnexpectedEof))
        && (ending == Open ==> verdict.Waiting?)
        && (ending == Broken ==> verdict == Refused(ReadFault))
  {
    hide FeedAll, LengthOf, IsChunked, LinesOk, HeadersTaken, Judge, HeadersOf, LinesText, LinesOf, Printable;
    PrintedLines(cfg, hs);
    var text := PrintHeaders(hs) + CRLF + body;
    Associate(PrintHeaders(hs), CRLF, body);
    var st := FeedHead(cfg, LinesOf(hs), CRLF + body);
    JudgeEnds(cfg, INITIAL, text, ending);
    if LengthOf(hs) == Some(0) {
      AfterHeadNoBody(cfg, st, hs, body);
      assert body[..0] == "" && body[0..] == body;
    } else {
      AfterHeadSized(cfg, st, hs, body);
    }
  }

  /** A message that can have no body ends with the empty line; the rest is left unread. */
  lemma BodilessRoundTrip(cfg: Config, hs: seq<Header>, rest: string, ending: Ending)
    requires cfg.bufferLimit >= 1 && !cfg.hasBody && HeadersTaken(cfg, hs)
    requires forall h <- hs :: Printable(h, cfg.bufferLimit)
    ensures Judge(cfg, INITIAL, PrintHeaders(hs) + CRLF + rest, ending) == Accepted(Message(hs, None), rest)
  {
    hide FeedAll, LengthOf, IsChunked, LinesOk, HeadersTaken, Judge, HeadersOf, LinesText, LinesOf, Printable;
    PrintedLines(cfg, hs);
    Associate(PrintHeaders(hs), CRLF, rest);
    var st := FeedHead(cfg, LinesOf(hs), CRLF + rest);
    AfterHeadNoBody(cfg, st, hs, rest);
    JudgeEnds(cfg, INITIAL, PrintHeaders(hs) + CRLF + rest, ending);
  }

  // Refusals

  /** The first line that is not well formed, or whose header is not accepted, is why a text is refused. */
  lemma LineRefused(cfg: Config, ls: seq<Line>, line: string, rest: string, ending: Ending)
    requires LinesOk(cfg, ls) && HeadersTaken(cfg, HeadersOf(ls))
    requires line != "" && (forall k :: 0 <= k < |line| ==> line[k] != '\r') && |line| + 1 <= cfg.bufferLimit
    ensures var verdict := Judge(cfg, INITIAL, LinesText(ls) + (line + CRLF + rest), ending);
      && ((forall l | LineOk(l) :: LineText(l) != line) ==> verdict == Refused(Malformed))
      && (forall l | LineOk(l) && LineText(l) == line ::
            var refusal := Refusal(cfg, HeaderOf(l), HasHost(HeadersOf(ls)));
            refusal.Some? ==> verdict == Refused(refusal.value))
  {
    hide FeedAll, LinesOk, HeadersTaken, Judge, HeadersOf, LinesText, LineOk, LineText, Refusal, HeaderEffect,
      TakeHeader, HasHost, LengthOf, IsChunked;
    var text := line + CRLF + rest;
    var st := FeedHead(cfg, ls, text);
    JudgeEnds(cfg, INITIAL, LinesText(ls) + text, ending);
    FeedOneLine(cfg, st, line, rest);
    var split := SplitLine(cfg, st, line);
    forall l | LineOk(l) && LineText(l) == line && Refusal(cfg, HeaderOf(l), HasHost(HeadersOf(ls))).Some?
      ensures FeedAll(cfg, st, text) == Run(Failed(Refusal(cfg, HeaderOf(l), HasHost(HeadersOf(ls))).value), "")
    {
      FeedLineText(cfg, st, l, rest);
      EffectExact(cfg, st, HeaderOf(l));
    }
  }

  /** A message cut short by the end of input is an unexpected end, unless that is how its body ends. */
  lemma CutShort(cfg: Config, text: string)
    requires LimitsFit(cfg) && Judge(cfg, INITIAL, text, Open).Waiting?
    ensures Judge(cfg, INITIAL, text, Broken) == Refused(ReadFault)
    ensures var verdict := Judge(cfg, INITIAL, text, Ended);
      if exists m :: IsMessage(cfg, text, Ended, m, "") then verdict.Accepted? && verdict.rest == ""
      else verdict == Refused(UnexpectedEof)
  {
    hide FeedAll, IsMessage;
    var verdict := Judge(cfg, INITIAL, text, Ended);
    if verdict.Accepted? {
      MessageExact(cfg, text, Ended, verdict.message, verdict.rest);
    }
    if m :| IsMessage(cfg, text, Ended, m, "") {
      MessageExact(cfg, text, Ended, m, "");
    }
  }

  /** Why a chunk is refused: its header line does not read, its size passes the limit of the body, or its data
      is not closed by CRLF. */
  lemma ChunkRefused(cfg: Config, st: State, line: string, after: string)
    requires LimitsFit(cfg) && st.phase.ChunkedBodySize? && st.buffer == "" && DecodedSize(st) <= cfg.bodyLimit
    requires (forall k :: 0 <= k < |line| ==> line[k] != '\r') && |line| + 1 <= cfg.bufferLimit
    ensures var o, size := FeedAll(cfg, st, line + CRLF + after).outcome, LineSize(line);
      && (size.None? ==> o == Failed(Malformed))
      && (size.Some? && size.value > 0 && (DecodedSize(st) + size.value) % U64 > cfg.bodyLimit ==>
            o == Failed(BodyExceededLimit))
      && (size.Some? && size.value > 0 && (DecodedSize(st) + size.value) % U64 <= cfg.bodyLimit
          && size.value + 1 <= cfg.bufferLimit && size.value + 2 <= |after| && !CrlfAt(after, size.value) ==>
            o == Failed(Malformed))
  {
    hide FeedAll, LineSize, FindCrlf, TakeChunkSize;
    FeedOneLine(cfg, st, line, after);
    TakeSizeLine(cfg, st, line);
    if LineSize(line).Some? && LineSize(line).value > 0 {
      var n := LineSize(line).value;
      var chunk := st.(phase := ChunkedBodyData, buffer := "", lastChunkSize := n);
      if n + 1 <= cfg.bufferLimit && n + 2 <= |after| && !CrlfAt(after, n) {
        FeedWholeChunk(cfg, chunk, after, after[..n + 1], after[n + 1..]);
      }
    }
  }
}
