/**
 What the message parser does with each byte, as a fold over the bytes of a message.  The
 parser object of `MessageParser` refines this fold; `Framing` proves what it accepts.
 */
module MessageSyntax {
  import opened Wrappers
  import opened Ascii
  import opened Numerals
  import opened AsyncIo

  datatype Header = Header(name: string, value: string)

  datatype Message = Message(headers: seq<Header>, body: Option<string>)

  // `SyntaxError` stands for whatever the check of one header's own syntax throws, `ReadFault` for a failed read.
  datatype Error = BodyExceededLimit | ExceededBuffer | Malformed
    | UnexpectedEof | BadTransferEncoding | SyntaxError | ReadFault

  /** `special` is the check of the syntax of a Host, User-Agent, Referer, Accept-Charset or
      Accept-Language value: the error it throws, if any. */
  datatype Config = Config(bufferLimit: nat, bodyLimit: nat, hasBody: bool, special: (string, string) -> Option<Error>)

  datatype Phase = HeaderLine | Body | ChunkedBodySize | ChunkedBodyData | AppendToBody

  datatype State = State(
    phase: Phase,
    buffer: string,
    headers: seq<Header>,
    contentLength: Option<nat>,
    isChunkBody: bool,
    hostSet: bool,
    lastChunkSize: nat,
    decodedBody: Option<string>,
    canEof: bool)

  const INITIAL := State(HeaderLine, "", [], None, false, false, 0, None, false)

  datatype Outcome = More(state: State) | Done(message: Message) | Failed(error: Error)

  predicate ValidName(name: string) {
    name != "" && forall k :: 0 <= k < |name| ==> IsTchar(name[k])
  }

  function TrimFront(s: string): string {
    if s != "" && IsBlank(s[0]) then TrimFront(s[1..]) else s
  }

  function TrimBack(s: string): string {
    if s != "" && IsBlank(s[|s| - 1]) then TrimBack(s[..|s| - 1]) else s
  }

  predicate ValidValue(value: string) {
    && (forall k :: 0 <= k < |value| ==> IsVchar(value[k]) || IsBlank(value[k]))
    && (value != "" ==> !IsBlank(value[|value| - 1]))
  }

  predicate IsSpecial(name: string) {
    || EqualNoCase(name, "User-Agent") || EqualNoCase(name, "Referer")
    || EqualNoCase(name, "Accept-Charset") || EqualNoCase(name, "Accept-Language")
  }

  /** What a named header with a valid value changes, before it is recorded. */
  function HeaderEffect(cfg: Config, st: State, name: string, value: string): Outcome {
    if EqualNoCase(name, "Content-Length") then
      match ReadDigits(10, 0, value)
      case None => Failed(Malformed)
      case Some(n) => More(st.(contentLength := Some(n)))
    else if EqualNoCase(name, "Transfer-Encoding") then
      if value != "chunked" then Failed(BadTransferEncoding) else More(st.(isChunkBody := true))
    else if EqualNoCase(name, "Host") then
      match cfg.special(name, value)
      case Some(e) => Failed(e)
      case None => if st.hostSet then Failed(Malformed) else More(st.(hostSet := true))
    else if IsSpecial(name) then
      match cfg.special(name, value)
      case Some(e) => Failed(e)
      case None => More(st)
    else More(st)
  }

  function TakeHeader(cfg: Config, st: State, line: string): Outcome {
    var separator := Find(line, ':', 0);
    if separator == |line| then Failed(Malformed)
    else
      var name := line[..separator];
      var value := TrimBack(TrimFront(line[separator + 1..]));
      if !ValidName(name) || !ValidValue(value) then Failed(Malformed)
      else
        match HeaderEffect(cfg, st, name, value)
        case More(s) => More(s.(headers := s.headers + [Header(name, value)], buffer := ""))
        case o => o
  }

  /** The empty line after the headers decides how the body is framed. */
  function EndHeaders(cfg: Config, st: State): Outcome {
    if !cfg.hasBody then Done(Message(st.headers, None))
    else if st.contentLength == Some(0) then Done(Message(st.headers, Some("")))
    else if st.contentLength.Some? then More(st.(phase := Body, buffer := ""))
    else if st.isChunkBody then More(st.(phase := ChunkedBodySize, buffer := ""))
    else More(st.(phase := Body, buffer := "", canEof := true))
  }

  predicate ValidExtension(s: string) {
    forall k :: 0 <= k < |s| ==> IsTchar(s[k]) || s[k] == ';'
  }

  function DecodedSize(st: State): nat {
    if st.decodedBody.Some? then |st.decodedBody.value| else 0
  }

  function TakeChunkSize(cfg: Config, st: State, line: string): Outcome {
    var separator := Find(line, ';', 0);
    if !ValidExtension(line[separator..]) then Failed(Malformed)
    else
      match ReadHex(line[..separator])
      case None => Failed(Malformed)
      case Some(size) =>
        if size == 0 then
          Done(Message(st.headers, Some(if st.decodedBody.Some? then st.decodedBody.value else "")))
        else if (DecodedSize(st) + size) % U64 > cfg.bodyLimit then Failed(BodyExceededLimit)
        else More(st.(phase := ChunkedBodyData, buffer := "", lastChunkSize := size))
  }

  predicate EndsLine(buffer: string, c: char) {
    c == '\n' && buffer != "" && buffer[|buffer| - 1] == '\r'
  }

  /** One byte in any phase but `AppendToBody`. */
  function Take(cfg: Config, st: State, c: char): Outcome
    requires !st.phase.AppendToBody?
  {
    match st.phase
    case HeaderLine =>
      if !EndsLine(st.buffer, c) then More(st.(buffer := st.buffer + [c]))
      else
        var line := st.buffer[..|st.buffer| - 1];
        if line == "" then EndHeaders(cfg, st) else TakeHeader(cfg, st, line)
    case Body =>
      var buffer := st.buffer + [c];
      if |buffer| > cfg.bodyLimit then Failed(BodyExceededLimit)
      else if !st.canEof && st.contentLength == Some(|buffer|) then Done(Message(st.headers, Some(buffer)))
      else More(st.(buffer := buffer))
    case ChunkedBodySize =>
      if !EndsLine(st.buffer, c) then More(st.(buffer := st.buffer + [c]))
      else TakeChunkSize(cfg, st, st.buffer[..|st.buffer| - 1])
    case ChunkedBodyData =>
      var buffer := st.buffer + [c];
      if |buffer| != (st.lastChunkSize + 2) % U64 then More(st.(buffer := buffer))
      else if !EndsLine(st.buffer, c) then Failed(Malformed)
      else More(st.(phase := AppendToBody, buffer := st.buffer[..|st.buffer| - 1]))
  }

  /** Once a further byte has arrived, a complete chunk joins the body; that byte is put back. */
  function Append(cfg: Config, st: State): Outcome {
    if DecodedSize(st) + |st.buffer| > cfg.bodyLimit then Failed(BodyExceededLimit)
    else
      var body := (if st.decodedBody.Some? then st.decodedBody.value else "") + st.buffer;
      More(st.(phase := ChunkedBodySize, buffer := "", decodedBody := Some(body)))
  }

  /** The buffer is checked before every byte, so also right after each one. */
  function Check(cfg: Config, o: Outcome): Outcome {
    if o.More? && |o.state.buffer| > cfg.bufferLimit then Failed(ExceededBuffer) else o
  }

  function Feed(cfg: Config, st: State, c: char): Outcome {
    if st.phase.AppendToBody? then
      match Append(cfg, st)
      case More(s) => Check(cfg, Take(cfg, s, c))
      case o => o
    else Check(cfg, Take(cfg, st, c))
  }

  datatype Run = Run(outcome: Outcome, rest: string)

  /** Feeds bytes until the message is complete or refused; `rest` is what a complete message leaves unread. */
  function FeedAll(cfg: Config, st: State, bytes: string): Run
    decreases |bytes|
  {
    if bytes == "" then Run(More(st), "")
    else
      match Feed(cfg, st, bytes[0])
      case More(s) => FeedAll(cfg, s, bytes[1..])
      case Done(m) => Run(Done(m), bytes[1..])
      case Failed(e) => Run(Failed(e), "")
  }

  /** End of input completes only a message whose body runs to the end of input. */
  function AtEof(st: State): Outcome {
    if st.canEof then Done(Message(st.headers, Some(st.buffer))) else Failed(UnexpectedEof)
  }

  /** What becomes of a message when `bytes` arrive and the input then ends as `ending` says. */
  datatype Verdict = Waiting(state: State) | Accepted(message: Message, rest: string) | Refused(error: Error)

  function Judge(cfg: Config, st: State, bytes: string, ending: Ending): Verdict {
    if |st.buffer| > cfg.bufferLimit then Refused(ExceededBuffer)
    else
      var run := FeedAll(cfg, st, bytes);
      match run.outcome
      case Done(m) => Accepted(m, run.rest)
      case Failed(e) => Refused(e)
      case More(s) =>
        match ending
        case Open => Waiting(s)
        case Broken => Refused(ReadFault)
        case Ended =>
          match AtEof(s)
          case Done(m) => Accepted(m, "")
          case Failed(e) => Refused(e)
          case More(_) => Waiting(s)
  }

  /** Taking one byte does not change what the message comes to. */
  lemma JudgeTake(cfg: Config, st: State, c: char, rest: string, ending: Ending)
    requires |st.buffer| <= cfg.bufferLimit && !st.phase.AppendToBody?
    ensures match Take(cfg, st, c)
      case More(s) => Judge(cfg, st, [c] + rest, ending) == Judge(cfg, s, rest, ending)
      case Done(m) => Judge(cfg, st, [c] + rest, ending) == Accepted(m, rest)
      case Failed(e) => Judge(cfg, st, [c] + rest, ending) == Refused(e)
  {
    hide Take;
    assert ([c] + rest)[1..] == rest;
  }

  /** Neither does copying a finished chunk, once another byte has arrived. */
  lemma JudgeAppend(cfg: Config, st: State, bytes: string, ending: Ending)
    requires |st.buffer| <= cfg.bufferLimit && st.phase.AppendToBody? && bytes != ""
    ensures match Append(cfg, st)
      case More(s) => Judge(cfg, st, bytes, ending) == Judge(cfg, s, bytes, ending)
      case Failed(e) => Judge(cfg, st, bytes, ending) == Refused(e)
      case Done(_) => false
  {
    hide Take;
  }

  lemma JudgeEnd(cfg: Config, st: State, ending: Ending)
    requires |st.buffer| <= cfg.bufferLimit
    ensures ending == Ended && st.canEof ==>
              Judge(cfg, st, "", ending) == Accepted(Message(st.headers, Some(st.buffer)), "")
    ensures ending == Ended && !st.canEof ==> Judge(cfg, st, "", ending) == Refused(UnexpectedEof)
    ensures ending == Broken ==> Judge(cfg, st, "", ending) == Refused(ReadFault)
    ensures ending == Open ==> Judge(cfg, st, "", ending) == Waiting(st)
  {
  }
}
