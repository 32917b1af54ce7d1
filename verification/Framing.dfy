/**
 What the byte fold of `MessageSyntax` accepts, in terms of whole lines and whole chunks, and the
 round trip with the printed form of a message.
 */
module Framing {
  import opened Wrappers
  import opened Ascii
  import opened Numerals
  import opened AsyncIo
  import opened MessageSyntax

  const CRLF := "\r\n"

  predicate CrlfAt(s: string, m: nat) {
    m + 1 < |s| && s[m] == '\r' && s[m + 1] == '\n'
  }

  /** Position of the first CRLF, or the length of `s` when there is none. */
  function FindCrlf(s: string): (k: nat)
    ensures k <= |s|
    ensures k < |s| ==> CrlfAt(s, k)
    ensures forall m: nat | m < k :: !CrlfAt(s, m)
  {
    if |s| < 2 then |s|
    else if CrlfAt(s, 0) then 0
    else
      assert forall m: nat | 0 < m < |s| :: CrlfAt(s, m) == CrlfAt(s[1..], m - 1);
      1 + FindCrlf(s[1..])
  }

  ghost predicate NoCrlf(s: string) {
    forall m: nat | m < |s| :: !CrlfAt(s, m)
  }

  ghost predicate ReadsLines(st: State) {
    st.phase.HeaderLine? || st.phase.ChunkedBodySize?
  }

  /** What a line-reading phase makes of a whole line. */
  function TakeLine(cfg: Config, st: State, line: string): Outcome
    requires ReadsLines(st)
  {
    if st.phase.ChunkedBodySize? then TakeChunkSize(cfg, st, line)
    else if line == "" then EndHeaders(cfg, st)
    else TakeHeader(cfg, st, line)
  }

  /** Goes on after one step of the fold. */
  function Continue(cfg: Config, o: Outcome, bytes: string): Run {
    match Check(cfg, o)
    case More(s) => FeedAll(cfg, s, bytes)
    case Done(m) => Run(Done(m), bytes)
    case Failed(e) => Run(Failed(e), "")
  }

  lemma FeedOne(cfg: Config, st: State, bytes: string)
    requires bytes != "" && !st.phase.AppendToBody?
    ensures FeedAll(cfg, st, bytes) == Continue(cfg, Take(cfg, st, bytes[0]), bytes[1..])
  {
    hide Take;
  }

  /** Bytes up to the end of a line only fill the buffer. */
  lemma {:induction false} FeedPartialLine(cfg: Config, st: State, part: string, rest: string)
    requires ReadsLines(st) && NoCrlf(st.buffer + part)
    ensures if |st.buffer + part| > cfg.bufferLimit && part != ""
            then FeedAll(cfg, st, part + rest).outcome == Failed(ExceededBuffer)
            else FeedAll(cfg, st, part + rest) == FeedAll(cfg, st.(buffer := st.buffer + part), rest)
    decreases |part|
  {
    if part == "" {
      assert part + rest == rest && st.buffer + part == st.buffer;
    } else {
      var bytes := part + rest;
      var next := st.(buffer := st.buffer + [part[0]]);
      assert bytes[0] == part[0] && bytes[1..] == part[1..] + rest;
      var all := st.buffer + part;
      if st.buffer != "" {
        assert all[|st.buffer| - 1] == st.buffer[|st.buffer| - 1] && all[|st.buffer|] == part[0];
        assert !CrlfAt(all, |st.buffer| - 1);
      }
      assert !EndsLine(st.buffer, part[0]);
      FeedOne(cfg, st, bytes);
      assert next.buffer + part[1..] == all;
      hide Feed, Take;
      if |next.buffer| <= cfg.bufferLimit {
        FeedPartialLine(cfg, next, part[1..], rest);
      }
    }
  }

  lemma HeaderIgnoresBuffer(cfg: Config, st: State, buffer: string, line: string)
    ensures TakeHeader(cfg, st.(buffer := buffer), line) == TakeHeader(cfg, st, line)
  {
    hide Find, ValidName, ValidValue, TrimBack, TrimFront, ReadDigits, EqualNoCase, IsSpecial;
  }

  lemma ChunkSizeIgnoresBuffer(cfg: Config, st: State, buffer: string, line: string)
    ensures TakeChunkSize(cfg, st.(buffer := buffer), line) == TakeChunkSize(cfg, st, line)
  {
    hide Find, ValidExtension, ReadHex;
  }

  lemma NewlineEndsLine(cfg: Config, st: State, line: string)
    requires ReadsLines(st)
    ensures Take(cfg, st.(buffer := line + "\r"), '\n') == TakeLine(cfg, st, line)
  {
    hide TakeHeader, TakeChunkSize;
    HeaderIgnoresBuffer(cfg, st, line + "\r", line);
    ChunkSizeIgnoresBuffer(cfg, st, line + "\r", line);
    assert (line + "\r")[..|line|] == line;
  }

  lemma FeedNewline(cfg: Config, st: State, line: string, rest: string)
    requires ReadsLines(st) && st.buffer == ""
    ensures FeedAll(cfg, st.(buffer := line + "\r"), "\n" + rest) == Continue(cfg, TakeLine(cfg, st, line), rest)
  {
    hide Take, TakeLine;
    NewlineEndsLine(cfg, st, line);
    assert ("\n" + rest)[1..] == rest;
    FeedOne(cfg, st.(buffer := line + "\r"), "\n" + rest);
  }

  /** A line-reading phase with an empty buffer takes its input one line at a time. */
  lemma FeedLine(cfg: Config, st: State, bytes: string)
    requires ReadsLines(st) && st.buffer == ""
    ensures var k := FindCrlf(bytes);
      if k == |bytes| then FeedAll(cfg, st, bytes).outcome.More?
           || FeedAll(cfg, st, bytes).outcome == Failed(ExceededBuffer)
      else if k + 1 > cfg.bufferLimit then FeedAll(cfg, st, bytes).outcome == Failed(ExceededBuffer)
      else FeedAll(cfg, st, bytes) == Continue(cfg, TakeLine(cfg, st, bytes[..k]), bytes[k + 2..])
  {
    var k := FindCrlf(bytes);
    hide FindCrlf, Take, Feed, TakeLine;
    if k == |bytes| {
      assert "" + bytes == bytes && bytes + "" == bytes;
      FeedPartialLine(cfg, st, bytes, "");
    } else {
      var line, rest := bytes[..k], bytes[k + 2..];
      var part := line + "\r";
      assert "" + part == part && part + ("\n" + rest) == bytes;
      assert NoCrlf(part) by {
        assert forall m: nat | m < |part| :: CrlfAt(part, m) ==> CrlfAt(bytes, m);
      }
      FeedPartialLine(cfg, st, part, "\n" + rest);
      FeedNewline(cfg, st, line, rest);
    }
  }

  ghost predicate FillsOnly(st: State, part: string) {
    !(|st.buffer| < (st.lastChunkSize + 2) % U64 <= |st.buffer| + |part|)
  }

  /** Bytes before the end of a chunk only fill the buffer. */
  lemma {:induction false} FeedPartialChunk(cfg: Config, st: State, part: string, rest: string)
    requires st.phase.ChunkedBodyData? && FillsOnly(st, part)
    ensures if |st.buffer + part| > cfg.bufferLimit && part != ""
            then FeedAll(cfg, st, part + rest).outcome == Failed(ExceededBuffer)
            else FeedAll(cfg, st, part + rest) == FeedAll(cfg, st.(buffer := st.buffer + part), rest)
    decreases |part|
  {
    if part == "" {
      assert part + rest == rest && st.buffer + part == st.buffer;
    } else {
      var bytes := part + rest;
      var next := st.(buffer := st.buffer + [part[0]]);
      assert bytes[0] == part[0] && bytes[1..] == part[1..] + rest;
      assert Take(cfg, st, part[0]) == More(next);
      FeedOne(cfg, st, bytes);
      assert next.buffer + part[1..] == st.buffer + part;
      hide Feed, Take;
      if |next.buffer| <= cfg.bufferLimit {
        FeedPartialChunk(cfg, next, part[1..], rest);
      }
    }
  }

  /** The chunk phase with an empty buffer takes a whole chunk and the CRLF behind it. */
  lemma FeedChunk(cfg: Config, st: State, bytes: string)
    requires st.phase.ChunkedBodyData? && st.buffer == "" && st.lastChunkSize > 0
    requires cfg.bufferLimit + 2 < U64 && st.lastChunkSize < U64
    ensures var n := st.lastChunkSize;
      if |bytes| < n + 2 || n + 1 > cfg.bufferLimit || !CrlfAt(bytes, n) then !FeedAll(cfg, st, bytes).outcome.Done?
      else FeedAll(cfg, st, bytes) == FeedAll(cfg, st.(phase := AppendToBody, buffer := bytes[..n]), bytes[n + 2..])
  {
    var n := st.lastChunkSize;
    hide Take, Feed, FeedAll;
    if n + 2 >= U64 {
      FeedHugeChunk(cfg, st, bytes);
    } else if |bytes| < n + 2 {
      assert bytes + "" == bytes;
      FeedPartialChunk(cfg, st, bytes, "");
      FeedNothing(cfg, st.(buffer := st.buffer + bytes));
    } else {
      FeedWholeChunk(cfg, st, bytes, bytes[..n + 1], bytes[n + 1..]);
    }
  }

  lemma FeedWholeChunk(cfg: Config, st: State, bytes: string, part: string, rest: string)
    requires st.phase.ChunkedBodyData? && st.buffer == "" && st.lastChunkSize > 0
    requires cfg.bufferLimit + 2 < U64 && st.lastChunkSize + 2 < U64 && st.lastChunkSize + 2 <= |bytes|
    requires part == bytes[..st.lastChunkSize + 1] && rest == bytes[st.lastChunkSize + 1..]
    ensures var n := st.lastChunkSize;
      if n + 1 > cfg.bufferLimit then FeedAll(cfg, st, bytes).outcome == Failed(ExceededBuffer)
      else if !CrlfAt(bytes, n) then FeedAll(cfg, st, bytes).outcome == Failed(Malformed)
      else FeedAll(cfg, st, bytes) == FeedAll(cfg, st.(phase := AppendToBody, buffer := bytes[..n]), bytes[n + 2..])
  {
    hide Take, Feed, FeedAll, EndsLine;
    var n := st.lastChunkSize;
    assert part + rest == bytes && st.buffer + part == part;
    FeedPartialChunk(cfg, st, part, rest);
    if n + 1 <= cfg.bufferLimit {
      FeedLastOfChunk(cfg, st.(buffer := part), rest);
      WholeChunkEnds(st, bytes, part, rest);
    }
  }

  lemma WholeChunkEnds(st: State, bytes: string, part: string, rest: string)
    requires st.lastChunkSize + 2 <= |bytes|
    requires part == bytes[..st.lastChunkSize + 1] && rest == bytes[st.lastChunkSize + 1..]
    ensures var n := st.lastChunkSize;
      part[..n] == bytes[..n] && rest[1..] == bytes[n + 2..] && (EndsLine(part, rest[0]) <==> CrlfAt(bytes, n))
  {
    var n := st.lastChunkSize;
    assert rest[0] == bytes[n + 1] && part[n] == bytes[n];
  }

  lemma FeedNothing(cfg: Config, st: State)
    ensures FeedAll(cfg, st, "").outcome == More(st)
  {
  }

  lemma LastOfChunk(cfg: Config, st: State, c: char)
    requires st.phase.ChunkedBodyData? && |st.buffer| == st.lastChunkSize + 1 && st.lastChunkSize + 2 < U64
    ensures Take(cfg, st, c) ==
            if EndsLine(st.buffer, c) then More(st.(phase := AppendToBody, buffer := st.buffer[..st.lastChunkSize]))
            else Failed(Malformed)
  {
  }

  /** The last byte of a chunk and its CRLF. */
  lemma FeedLastOfChunk(cfg: Config, st: State, rest: string)
    requires st.phase.ChunkedBodyData? && |st.buffer| == st.lastChunkSize + 1 && st.lastChunkSize + 2 < U64
    requires |st.buffer| <= cfg.bufferLimit && rest != ""
    ensures if EndsLine(st.buffer, rest[0])
            then FeedAll(cfg, st, rest)
                 == FeedAll(cfg, st.(phase := AppendToBody, buffer := st.buffer[..st.lastChunkSize]), rest[1..])
            else FeedAll(cfg, st, rest).outcome == Failed(Malformed)
  {
    hide Take, Feed, FeedAll, EndsLine;
    FeedOne(cfg, st, rest);
    LastOfChunk(cfg, st, rest[0]);
  }

  lemma FeedHugeChunk(cfg: Config, st: State, bytes: string)
    requires st.phase.ChunkedBodyData? && st.buffer == ""
    requires U64 - 2 <= st.lastChunkSize < U64
    ensures !FeedAll(cfg, st, bytes).outcome.Done?
  {
    if st.lastChunkSize == U64 - 2 {
      assert bytes + "" == bytes;
      FeedPartialChunk(cfg, st, bytes, "");
    } else if bytes != "" {
      FeedOne(cfg, st, bytes);
    }
  }

  lemma FeedAppend(cfg: Config, st: State, bytes: string)
    requires st.phase.AppendToBody?
    ensures bytes == "" ==> FeedAll(cfg, st, bytes).outcome == More(st)
    ensures bytes != "" && Append(cfg, st).More? ==>
              FeedAll(cfg, st, bytes) == FeedAll(cfg, Append(cfg, st).state, bytes)
    ensures bytes != "" && !Append(cfg, st).More? ==> FeedAll(cfg, st, bytes).outcome == Failed(BodyExceededLimit)
  {
    hide Take;
  }

  datatype Decoded = Decoded(body: string, rest: string)

  /** The size a chunk header line announces, its extensions being valid. */
  function LineSize(line: string): Option<nat> {
    var separator := Find(line, ';', 0);
    if ValidExtension(line[separator..]) then ReadHex(line[..separator]) else None
  }

  predicate ChunkFits(cfg: Config, before: nat, size: nat, after: string) {
    && before + size <= cfg.bodyLimit && size + 1 <= cfg.bufferLimit
    && |after| >= size + 2 && CrlfAt(after, size)
  }

  /** A decoder of the chunked coding that works on whole lines and chunks: `prefix` is the body so far. */
  function Dechunk(cfg: Config, prefix: string, text: string): Option<Decoded>
    decreases |text|
  {
    var k := FindCrlf(text);
    if k == |text| || k + 1 > cfg.bufferLimit then None
    else
      var after := text[k + 2..];
      match LineSize(text[..k])
      case None => None
      case Some(size) =>
        if size == 0 then Some(Decoded(prefix, after))
        else if !ChunkFits(cfg, |prefix|, size, after) then None
        else Dechunk(cfg, prefix + after[..size], after[size + 2..])
  }

  lemma TakeSizeLine(cfg: Config, st: State, line: string)
    ensures match LineSize(line)
      case None => TakeChunkSize(cfg, st, line) == Failed(Malformed)
      case Some(n) =>
        && n < U64
        && TakeChunkSize(cfg, st, line) ==
          if n == 0 then Done(Message(st.headers, Some(Prefix(st))))
          else if (DecodedSize(st) + n) % U64 > cfg.bodyLimit then Failed(BodyExceededLimit)
          else More(st.(phase := ChunkedBodyData, buffer := "", lastChunkSize := n))
  {
    ReadDigitsBound(0, line[..Find(line, ';', 0)]);
    hide Find, ReadDigits, ValidExtension;
  }

  function Prefix(st: State): string {
    if st.decodedBody.Some? then st.decodedBody.value else ""
  }

  ghost predicate LimitsFit(cfg: Config) {
    cfg.bufferLimit + cfg.bodyLimit + 2 < U64
  }

  /** A finished run delivers exactly what the decoder decoded; with nothing decoded it does not finish. */
  predicate Delivers(run: Run, headers: seq<Header>, decoded: Option<Decoded>) {
    match decoded
    case None => !run.outcome.Done?
    case Some(d) => run == Run(Done(Message(headers, Some(d.body))), d.rest)
  }

  /** The byte fold decodes a chunked body exactly as the decoder by lines and chunks does: the same
      inputs are complete, with the same body and the same bytes left unread. */
  lemma {:induction false} FeedDechunks(cfg: Config, st: State, text: string)
    requires LimitsFit(cfg) && st.phase.ChunkedBodySize? && st.buffer == "" && DecodedSize(st) <= cfg.bodyLimit
    ensures Delivers(FeedAll(cfg, st, text), st.headers, Dechunk(cfg, Prefix(st), text))
    decreases |text|
  {
    hide FindCrlf, FeedAll, LineSize, TakeChunkSize, ChunkFits, ReadsLines, TakeLine, Dechunk;
    FeedSizeLine(cfg, st, text);
    DechunkLine(cfg, Prefix(st), text);
    var k := FindCrlf(text);
    if k < |text| && k + 1 <= cfg.bufferLimit {
      var after, size := text[k + 2..], LineSize(text[..k]);
      if size.Some? && size.value > 0 {
        var n := size.value;
        FeedSizedChunk(cfg, st, n, after);
        if ChunkFits(cfg, DecodedSize(st), n, after) {
          var next := WithChunk(st, n, after[..n]);
          FeedDechunks(cfg, next, after[n + 2..]);
          assert Prefix(next) == Prefix(st) + after[..n] && next.headers == st.headers;
        }
      }
    }
  }

  /** One line and one chunk of the decoder. */
  lemma DechunkLine(cfg: Config, prefix: string, text: string)
    ensures var k := FindCrlf(text);
      if k == |text| || k + 1 > cfg.bufferLimit || LineSize(text[..k]).None? then Dechunk(cfg, prefix, text) == None
      else
        var n, after := LineSize(text[..k]).value, text[k + 2..];
        Dechunk(cfg, prefix, text) ==
        if n == 0 then Some(Decoded(prefix, after))
        else if ChunkFits(cfg, |prefix|, n, after) then Dechunk(cfg, prefix + after[..n], after[n + 2..])
        else None
  {
    hide FindCrlf, LineSize;
  }

  /** A size line ends the body, announces a chunk, or fails. */
  lemma FeedSizeLine(cfg: Config, st: State, text: string)
    requires st.phase.ChunkedBodySize? && st.buffer == ""
    ensures var k := FindCrlf(text);
      if k == |text| || k + 1 > cfg.bufferLimit || LineSize(text[..k]).None? then !FeedAll(cfg, st, text).outcome.Done?
      else
        var n, after := LineSize(text[..k]).value, text[k + 2..];
        && n < U64
        && (n == 0 ==> FeedAll(cfg, st, text) == Run(Done(Message(st.headers, Some(Prefix(st)))), after))
        && (n > 0 && (DecodedSize(st) + n) % U64 > cfg.bodyLimit ==> !FeedAll(cfg, st, text).outcome.Done?)
        && (n > 0 && (DecodedSize(st) + n) % U64 <= cfg.bodyLimit ==>
              FeedAll(cfg, st, text)
              == FeedAll(cfg, st.(phase := ChunkedBodyData, buffer := "", lastChunkSize := n), after))
  {
    hide FindCrlf, FeedAll, LineSize, TakeChunkSize;
    var k := FindCrlf(text);
    FeedLine(cfg, st, text);
    if k < |text| {
      TakeSizeLine(cfg, st, text[..k]);
    }
  }

  function WithChunk(st: State, size: nat, data: string): State {
    st.(phase := ChunkedBodySize, buffer := "", lastChunkSize := size, decodedBody := Some(Prefix(st) + data))
  }

  lemma FeedSizedChunk(cfg: Config, st: State, n: nat, after: string)
    requires LimitsFit(cfg) && st.phase.ChunkedBodySize? && st.buffer == "" && DecodedSize(st) <= cfg.bodyLimit
    requires 0 < n < U64
    ensures var chunk := st.(phase := ChunkedBodyData, buffer := "", lastChunkSize := n);
      if ChunkFits(cfg, DecodedSize(st), n, after)
      then (DecodedSize(st) + n) % U64 <= cfg.bodyLimit
           && |after| >= n + 2
           && DecodedSize(WithChunk(st, n, after[..n])) <= cfg.bodyLimit
           && SameIfDone(FeedAll(cfg, chunk, after), FeedAll(cfg, WithChunk(st, n, after[..n]), after[n + 2..]))
      else !FeedAll(cfg, chunk, after).outcome.Done?
  {
    hide FeedAll;
    var chunk := st.(phase := ChunkedBodyData, buffer := "", lastChunkSize := n);
    FeedChunk(cfg, chunk, after);
    if |after| >= n + 2 && n + 1 <= cfg.bufferLimit && CrlfAt(after, n) {
      var rest := after[n + 2..];
      FeedAppend(cfg, chunk.(phase := AppendToBody, buffer := after[..n]), rest);
      if rest == "" { FeedNothing(cfg, WithChunk(st, n, after[..n])); }
    }
  }

  ghost predicate SameIfDone(a: Run, b: Run) {
    (a.outcome.Done? || b.outcome.Done?) ==> a == b
  }

  // Headers

  function PrintHeader(h: Header): string {
    h.name + ": " + h.value + CRLF
  }

  function PrintHeaders(headers: seq<Header>): string {
    if headers == [] then "" else PrintHeader(headers[0]) + PrintHeaders(headers[1..])
  }

  /** A header that survives being printed on one line of at most `limit` bytes. */
  ghost predicate Printable(h: Header, limit: nat) {
    && ValidName(h.name) && ValidValue(h.value)
    && (h.value != "" ==> !IsBlank(h.value[0]))
    && |h.name| + 2 + |h.value| + 1 <= limit
  }

  /** What a list of headers changes in the parser, one after the other. */
  function Effects(cfg: Config, st: State, headers: seq<Header>): Outcome
    decreases |headers|
  {
    if headers == [] then More(st)
    else
      match HeaderEffect(cfg, st, headers[0].name, headers[0].value)
      case More(s) => Effects(cfg, s.(headers := s.headers + [headers[0]], buffer := ""), headers[1..])
      case o => o
  }

  lemma FindBehind(s: string, c: char, rest: string)
    requires forall k :: 0 <= k < |s| ==> s[k] != c
    ensures Find(s + [c] + rest, c, 0) == |s|
  {
    FindAt(s + [c] + rest, c, 0, |s|);
  }

  lemma {:induction false} FindCrlfBehind(line: string, rest: string)
    requires forall k :: 0 <= k < |line| ==> line[k] != '\r'
    ensures FindCrlf(line + CRLF + rest) == |line|
  {
    var s := line + CRLF + rest;
    assert CrlfAt(s, |line|);
    assert forall m: nat | m < |line| :: !CrlfAt(s, m) by {
      forall m: nat | m < |line| ensures !CrlfAt(s, m) { assert s[m] == line[m]; }
    }
  }

  lemma TakePrintedHeader(cfg: Config, st: State, h: Header)
    requires ValidName(h.name) && ValidValue(h.value) && (h.value != "" ==> !IsBlank(h.value[0]))
    ensures TakeHeader(cfg, st, h.name + ": " + h.value) ==
      match HeaderEffect(cfg, st, h.name, h.value)
      case More(s) => More(s.(headers := s.headers + [h], buffer := ""))
      case o => o
  {
    var line := h.name + ": " + h.value;
    assert line == h.name + [':'] + (" " + h.value);
    FindBehind(h.name, ':', " " + h.value);
    assert line[..|h.name|] == h.name;
    var tail := line[|h.name| + 1..];
    assert tail == " " + h.value && tail[1..] == h.value;
    assert TrimFront(tail) == h.value;
    assert TrimBack(h.value) == h.value;
    hide HeaderEffect, Find;
  }

  lemma {:induction false} FeedHeaders(cfg: Config, st: State, headers: seq<Header>, rest: string)
    requires st.phase.HeaderLine? && st.buffer == ""
    requires forall h <- headers :: Printable(h, cfg.bufferLimit)
    requires Effects(cfg, st, headers).More?
    ensures FeedAll(cfg, st, PrintHeaders(headers) + rest) == FeedAll(cfg, Effects(cfg, st, headers).state, rest)
    ensures var s := Effects(cfg, st, headers).state;
      s.phase.HeaderLine? && s.buffer == "" && s.headers == st.headers + headers
      && s.decodedBody == st.decodedBody && s.canEof == st.canEof
    decreases |headers|
  {
    hide HeaderEffect, FeedAll, PrintHeader, Printable;
    if headers == [] {
      assert PrintHeaders(headers) + rest == rest;
    } else {
      var h := headers[0];
      var after := PrintHeaders(headers[1..]) + rest;
      assert PrintHeaders(headers) + rest == PrintHeader(h) + after;
      assert Printable(h, cfg.bufferLimit);
      EffectKeepsFrame(cfg, st, h);
      FeedHeader(cfg, st, h, after);
      var next := HeaderEffect(cfg, st, h.name, h.value).state;
      FeedHeaders(cfg, next.(headers := next.headers + [h], buffer := ""), headers[1..], rest);
      assert st.headers + [h] + headers[1..] == st.headers + headers;
    }
  }

  lemma FeedHeader(cfg: Config, st: State, h: Header, after: string)
    requires st.phase.HeaderLine? && st.buffer == "" && Printable(h, cfg.bufferLimit)
    requires HeaderEffect(cfg, st, h.name, h.value).More?
    ensures var s := HeaderEffect(cfg, st, h.name, h.value).state;
      FeedAll(cfg, st, PrintHeader(h) + after) == FeedAll(cfg, s.(headers := s.headers + [h], buffer := ""), after)
  {
    var line := h.name + ": " + h.value;
    var bytes := PrintHeader(h) + after;
    assert bytes == line + CRLF + after;
    assert forall k :: 0 <= k < |line| ==> line[k] != '\r';
    hide FeedAll, FindCrlf, TakeHeader, HeaderEffect;
    FindCrlfBehind(line, after);
    FeedLine(cfg, st, bytes);
    assert bytes[..|line|] == line && bytes[|line| + 2..] == after;
    TakePrintedHeader(cfg, st, h);
  }

  lemma EffectKeepsFrame(cfg: Config, st: State, h: Header)
    ensures HeaderEffect(cfg, st, h.name, h.value).More? ==>
      var s := HeaderEffect(cfg, st, h.name, h.value).state;
      && s.phase == st.phase && s.buffer == st.buffer && s.headers == st.headers
      && s.decodedBody == st.decodedBody && s.canEof == st.canEof
  {
  }

  lemma FeedBlankLine(cfg: Config, st: State, rest: string)
    requires st.phase.HeaderLine? && st.buffer == "" && cfg.bufferLimit >= 1
    ensures FeedAll(cfg, st, CRLF + rest) == Continue(cfg, EndHeaders(cfg, st), rest)
  {
    hide FeedAll, FindCrlf;
    assert "" + CRLF + rest == CRLF + rest;
    FindCrlfBehind("", rest);
    FeedLine(cfg, st, CRLF + rest);
    assert (CRLF + rest)[2..] == rest;
  }

  // Bodies

  function PrintChunks(chunks: seq<string>): string {
    if chunks == [] then "0" + CRLF + CRLF
    else Hex(|chunks[0]|) + CRLF + chunks[0] + CRLF + PrintChunks(chunks[1..])
  }

  ghost predicate ChunkOk(cfg: Config, chunk: string) {
    chunk != "" && |chunk| + 1 <= cfg.bufferLimit && |Hex(|chunk|)| + 1 <= cfg.bufferLimit
  }

  lemma {:induction false} HexIsPlain(n: nat)
    ensures forall k :: 0 <= k < |Hex(n)| ==> Hex(n)[k] != '\r' && Hex(n)[k] != ';'
  {
    if n >= 16 { HexIsPlain(n / 16); }
  }

  lemma PrintedSizeLine(n: nat)
    requires n < U64
    ensures LineSize(Hex(n)) == Some(n)
  {
    HexIsPlain(n);
    ReadPrintedHex(n);
    var s := Hex(n);
    hide Hex, ReadHex;
    assert Find(s, ';', 0) == |s|;
    assert s[|s|..] == "" && s[..|s|] == s;
  }

  lemma {:induction false} DechunkPrinted(cfg: Config, prefix: string, chunks: seq<string>, tail: string)
    requires LimitsFit(cfg) && cfg.bufferLimit >= 2
    requires forall c <- chunks :: ChunkOk(cfg, c)
    requires |prefix| + |Concat(chunks)| <= cfg.bodyLimit
    ensures Dechunk(cfg, prefix, PrintChunks(chunks) + tail) == Some(Decoded(prefix + Concat(chunks), CRLF + tail))
    decreases |chunks|
  {
    hide Dechunk, ChunkOk, Hex;
    if chunks == [] {
      DechunkLast(cfg, prefix, tail);
      assert PrintChunks(chunks) + tail == "0" + CRLF + (CRLF + tail);
      assert prefix + "" == prefix;
    } else {
      var c := chunks[0];
      var next := PrintChunks(chunks[1..]) + tail;
      assert PrintChunks(chunks) + tail == Hex(|c|) + CRLF + (c + CRLF + next);
      DechunkOne(cfg, prefix, c, next);
      DechunkPrinted(cfg, prefix + c, chunks[1..], tail);
      assert prefix + c + Concat(chunks[1..]) == prefix + Concat(chunks);
    }
  }

  lemma DechunkLast(cfg: Config, prefix: string, tail: string)
    requires cfg.bufferLimit >= 2
    ensures Dechunk(cfg, prefix, "0" + CRLF + (CRLF + tail)) == Some(Decoded(prefix, CRLF + tail))
  {
    var text := "0" + CRLF + (CRLF + tail);
    assert Hex(0) == "0";
    PrintedSize(0, CRLF + tail);
    hide Hex, FindCrlf, LineSize;
    assert text[..1] == Hex(0) && text[3..] == CRLF + tail;
  }

  lemma PrintedSize(n: nat, after: string)
    requires n < U64
    ensures FindCrlf(Hex(n) + CRLF + after) == |Hex(n)| && LineSize(Hex(n)) == Some(n)
  {
    PrintedSizeLine(n);
    HexIsPlain(n);
    FindCrlfBehind(Hex(n), after);
  }

  lemma DechunkOne(cfg: Config, prefix: string, c: string, next: string)
    requires LimitsFit(cfg) && ChunkOk(cfg, c) && |prefix| + |c| <= cfg.bodyLimit
    ensures Dechunk(cfg, prefix, Hex(|c|) + CRLF + (c + CRLF + next)) == Dechunk(cfg, prefix + c, next)
  {
    var after := c + CRLF + next;
    var line := Hex(|c|);
    var text := line + CRLF + after;
    PrintedSize(|c|, after);
    hide Hex, FindCrlf, LineSize;
    assert text[..|line|] == line && text[|line| + 2..] == after by {
      Cut(line + CRLF, after);
      Cut(line, CRLF + after);
      Associate(line, CRLF, after);
    }
    assert after[|c|] == '\r' && after[|c| + 1] == '\n' && after[..|c|] == c && after[|c| + 2..] == next;
  }

  /** A body of announced length ends after exactly that many bytes. */
  lemma {:induction false} FeedBody(cfg: Config, st: State, bytes: string)
    requires st.phase.Body? && !st.canEof && st.contentLength.Some? && |st.buffer| < st.contentLength.value
    requires |st.buffer| <= cfg.bufferLimit
    ensures var n := st.contentLength.value - |st.buffer|;
      if |bytes| >= n && st.contentLength.value <= cfg.bodyLimit && st.contentLength.value - 1 <= cfg.bufferLimit
      then FeedAll(cfg, st, bytes) == Run(Done(Message(st.headers, Some(st.buffer + bytes[..n]))), bytes[n..])
      else !FeedAll(cfg, st, bytes).outcome.Done?
    decreases |bytes|
  {
    if bytes != "" {
      FeedOne(cfg, st, bytes);
      var next := st.(buffer := st.buffer + [bytes[0]]);
      var n := st.contentLength.value - |st.buffer|;
      hide FeedAll;
      if n > 1 && |next.buffer| <= cfg.bodyLimit && |next.buffer| <= cfg.bufferLimit {
        FeedBody(cfg, next, bytes[1..]);
        if |bytes| >= n {
          assert st.buffer + bytes[..n] == next.buffer + bytes[1..][..n - 1];
          assert bytes[1..][n - 1..] == bytes[n..];
        }
      } else if n == 1 {
        assert st.buffer + bytes[..1] == next.buffer;
      }
    }
  }

  /** Round trip of a chunked message: headers and body come back, and exactly the CRLF that closes the
      chunked coding is left unread, whatever follows and however the input ends. */
  lemma ChunkedRoundTrip(cfg: Config, headers: seq<Header>, chunks: seq<string>, tail: string, ending: Ending)
    requires LimitsFit(cfg) && cfg.bufferLimit >= 2 && cfg.hasBody
    requires forall h <- headers :: Printable(h, cfg.bufferLimit)
    requires forall c <- chunks :: ChunkOk(cfg, c)
    requires |Concat(chunks)| <= cfg.bodyLimit
    requires var o := Effects(cfg, INITIAL, headers); o.More? && o.state.contentLength == None && o.state.isChunkBody
    ensures Judge(cfg, INITIAL, PrintHeaders(headers) + CRLF + PrintChunks(chunks) + tail, ending)
            == Accepted(Message(headers, Some(Concat(chunks))), CRLF + tail)
  {
    hide FeedAll, PrintHeaders, PrintChunks, Dechunk, Effects, Printable, ChunkOk, Concat, Hex;
    var body := PrintChunks(chunks) + tail;
    var st := Effects(cfg, INITIAL, headers).state;
    Reassociate(PrintHeaders(headers), CRLF, PrintChunks(chunks), tail);
    FeedHeaders(cfg, INITIAL, headers, CRLF + body);
    FeedBlankLine(cfg, st, body);
    var sized := st.(phase := ChunkedBodySize, buffer := "");
    assert EndHeaders(cfg, st) == More(sized);
    FeedDechunks(cfg, sized, body);
    DechunkPrinted(cfg, "", chunks, tail);
    assert "" + Concat(chunks) == Concat(chunks) && INITIAL.headers + headers == headers;
  }

  lemma Reassociate(a: string, b: string, c: string, d: string)
    ensures a + b + c + d == a + (b + (c + d))
  {
  }

  /** Round trip of a message with a Content-Length: the body is what follows the headers, to the byte. */
  lemma LengthRoundTrip(cfg: Config, headers: seq<Header>, body: string, tail: string, ending: Ending)
    requires cfg.bufferLimit >= 1 && cfg.hasBody
    requires forall h <- headers :: Printable(h, cfg.bufferLimit)
    requires |body| <= cfg.bodyLimit && |body| - 1 <= cfg.bufferLimit
    requires var o := Effects(cfg, INITIAL, headers); o.More? && o.state.contentLength == Some(|body|)
    ensures Judge(cfg, INITIAL, PrintHeaders(headers) + CRLF + body + tail, ending)
            == Accepted(Message(headers, Some(body)), tail)
  {
    hide FeedAll, PrintHeaders, Effects, Printable;
    var st := Effects(cfg, INITIAL, headers).state;
    Reassociate(PrintHeaders(headers), CRLF, body, tail);
    FeedHeaders(cfg, INITIAL, headers, CRLF + (body + tail));
    FeedBlankLine(cfg, st, body + tail);
    assert INITIAL.headers + headers == headers;
    if body == "" {
      assert body + tail == tail;
    } else {
      FeedBody(cfg, st.(phase := Body, buffer := ""), body + tail);
      assert "" + (body + tail)[..|body|] == body && (body + tail)[|body|..] == tail;
    }
  }

  /** Headers none of which is checked or counted specially, apart from `Transfer-Encoding: chunked`. */
  ghost predicate PlainHeader(h: Header) {
    && !EqualNoCase(h.name, "Content-Length") && !EqualNoCase(h.name, "Host") && !IsSpecial(h.name)
    && (EqualNoCase(h.name, "Transfer-Encoding") ==> h.value == "chunked")
  }

  lemma {:induction false} PlainHeadersAccepted(cfg: Config, st: State, headers: seq<Header>)
    requires forall h <- headers :: PlainHeader(h)
    ensures var o := Effects(cfg, st, headers);
      && o.More? && o.state.contentLength == st.contentLength
      && (o.state.isChunkBody <==> st.isChunkBody || exists h <- headers :: EqualNoCase(h.name, "Transfer-Encoding"))
    decreases |headers|
  {
    if headers != [] {
      var h := headers[0];
      assert PlainHeader(h);
      var next := HeaderEffect(cfg, st, h.name, h.value).state;
      PlainHeadersAccepted(cfg, next.(headers := next.headers + [h], buffer := ""), headers[1..]);
      hide EqualNoCase;
      assert headers == [h] + headers[1..];
    }
  }

  // Limits

  ghost predicate WithinLimits(cfg: Config, st: State) {
    && |st.buffer| <= cfg.bufferLimit
    && DecodedSize(st) <= cfg.bodyLimit
    && (st.phase.Body? ==> |st.buffer| <= cfg.bodyLimit)
    && (st.canEof ==> st.phase.Body?)
  }

  ghost predicate BodyWithinLimit(cfg: Config, m: Message) {
    m.body.Some? ==> |m.body.value| <= cfg.bodyLimit
  }

  lemma TakeKeepsLimits(cfg: Config, st: State, c: char)
    requires WithinLimits(cfg, st) && !st.phase.AppendToBody?
    ensures var o := Check(cfg, Take(cfg, st, c));
      && (o.More? ==> WithinLimits(cfg, o.state))
      && (o.Done? ==> BodyWithinLimit(cfg, o.message))
  {
    hide Find, TrimBack, TrimFront, ReadDigits, ValidExtension, EqualNoCase, IsSpecial;
  }

  /** Every state the parser can reach respects the limits, and so does the body of every message it completes. */
  lemma {:induction false} LimitsHold(cfg: Config, st: State, bytes: string)
    requires WithinLimits(cfg, st)
    ensures var o := FeedAll(cfg, st, bytes).outcome;
      && (o.More? ==> WithinLimits(cfg, o.state))
      && (o.Done? ==> BodyWithinLimit(cfg, o.message))
    decreases |bytes|
  {
    if bytes != "" {
      if st.phase.AppendToBody? {
        if Append(cfg, st).More? { TakeKeepsLimits(cfg, Append(cfg, st).state, bytes[0]); }
      } else {
        TakeKeepsLimits(cfg, st, bytes[0]);
      }
      hide Take;
      var o := Feed(cfg, st, bytes[0]);
      if o.More? { LimitsHold(cfg, o.state, bytes[1..]); }
    }
  }

  /** A message the parser accepts, ended by its framing or by the end of input, has a body within the limit. */
  lemma AcceptedWithinLimit(cfg: Config, bytes: string, ending: Ending)
    requires Judge(cfg, INITIAL, bytes, ending).Accepted?
    ensures BodyWithinLimit(cfg, Judge(cfg, INITIAL, bytes, ending).message)
  {
    LimitsHold(cfg, INITIAL, bytes);
  }
}
