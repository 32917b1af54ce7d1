/**
 The message printer: readers that hand out a message in pieces as large as the caller's buffer.
 `out` is what a poll writes to the front of that buffer, which has room for `size` bytes.
 */
module MessageReaders {
  import opened Wrappers
  import opened Ascii
  import opened Numerals
  import opened AsyncIo
  import opened MessageSyntax
  import opened Framing

  datatype HeaderPart = Name | Splitter | Value | Clrf

  /** What is printed from header `k` on after the CRLF of the one before.  A write of no bytes is an
      end of file, so an empty name ends the output. */
  function HeaderTail(headers: seq<Header>, k: nat): string
    requires k <= |headers|
    decreases |headers| - k, 2
  {
    if k == |headers| || headers[k].name == "" then "" else headers[k].name + AfterName(headers, k)
  }

  /** What is printed behind a name; an empty value ends the output as well. */
  function AfterName(headers: seq<Header>, k: nat): string
    requires k < |headers|
    decreases |headers| - k, 1
  {
    ": " + AfterSplitter(headers, k)
  }

  function AfterSplitter(headers: seq<Header>, k: nat): string
    requires k < |headers|
    decreases |headers| - k, 0
  {
    if headers[k].value == "" then "" else headers[k].value + CRLF + HeaderTail(headers, k + 1)
  }

  /** What is printed behind a part of header `k`; before the first header, `k` is -1. */
  function AfterPart(headers: seq<Header>, part: HeaderPart, k: int): string
    requires -1 <= k < |headers| && (k == -1 ==> part.Clrf?)
  {
    match part
    case Name => AfterName(headers, k)
    case Splitter => AfterSplitter(headers, k)
    case Value => CRLF + HeaderTail(headers, k + 1)
    case Clrf => HeaderTail(headers, k + 1)
  }

  lemma AfterPartStep(headers: seq<Header>, part: HeaderPart, k: int)
    requires -1 <= k < |headers| && (k == -1 ==> part.Clrf?)
    ensures part.Name? ==> AfterPart(headers, part, k) == ": " + AfterPart(headers, Splitter, k)
    ensures part.Splitter? ==>
      var v := headers[k].value;
      AfterPart(headers, part, k) == if v == "" then "" else v + AfterPart(headers, Value, k)
    ensures part.Value? ==> AfterPart(headers, part, k) == CRLF + AfterPart(headers, Clrf, k)
    ensures part.Clrf? ==>
      AfterPart(headers, part, k) == if k + 1 == |headers| || headers[k + 1].name == "" then ""
                                     else headers[k + 1].name + AfterPart(headers, Name, k + 1)
  {
    if part.Splitter? && headers[k].value != "" {
      Associate(headers[k].value, CRLF, HeaderTail(headers, k + 1));
    }
  }

  /** Everything the header printer prints. */
  function HeaderText(headers: seq<Header>): string {
    if headers == [] then "" else headers[0].name + AfterName(headers, 0)
  }

  class HeadersReader {
    const headers: seq<Header>
    var part: HeaderPart
    var current: string
    var it: int

    ghost predicate Valid()
      reads this`part, this`it
    {
      -1 <= it < |headers| && (it == -1 ==> part.Clrf?)
    }

    ghost function Left(): string
      requires Valid()
      reads this
    {
      current + Later()
    }

    /** What is left behind the current part. */
    ghost function Later(): string
      requires Valid()
      reads this`part, this`it
    {
      AfterPart(headers, part, it)
    }

    constructor (headers: seq<Header>)
      ensures this.headers == headers && Valid() && Left() == HeaderText(headers)
    {
      this.headers := headers;
      if headers != [] {
        part, current, it := Name, headers[0].name, 0;
      } else {
        part, current, it := Clrf, "", -1;
      }
    }

    /** Moves on to the next part when the current one is used up; false after the last. */
    method SelectPart() returns (more: bool)
      requires Valid()
      modifies this
      ensures more ==> Valid() && (current != "" ==> Left() == old(Left()))
      ensures !more || current == "" ==> old(Left()) == ""
    {
      if current != "" {
        return true;
      }
      AfterPartStep(headers, part, it);
      assert Left() == Later();
      hide AfterPart;
      match part {
        case Name => part, current := Splitter, ": ";
        case Splitter => part, current := Value, headers[it].value;
        case Value => part, current := Clrf, CRLF;
        case Clrf =>
          it := it + 1;
          if it == |headers| {
            return false;
          }
          part, current := Name, headers[it].name;
      }
      return true;
    }

    method PollRead(size: nat) returns (r: IoResult, out: string)
      requires Valid() && size > 0
      modifies this
      ensures r.Success? || r.Eof?
      ensures r.Success? ==> Valid() && 0 < |out| == r.count <= size && old(Left()) == out + Left()
      ensures r.Eof? ==> old(Left()) == ""
    {
      var more := SelectPart();
      if !more {
        return Eof, "";
      }
      hide Later;
      var written := Min(|current|, size);
      assert current == current[..written] + current[written..];
      Associate(current[..written], current[written..], Later());
      out, current := current[..written], current[written..];
      return Transferred(written), out;
    }
  }

  /** Exactly when nothing is cut off: no value is empty, and no name but the first. */
  ghost predicate NothingEmpty(headers: seq<Header>) {
    && (forall k :: 0 <= k < |headers| ==> headers[k].value != "")
    && (forall k :: 1 <= k < |headers| ==> headers[k].name != "")
  }

  lemma {:induction false} TailIsPrinted(headers: seq<Header>, k: nat)
    requires k < |headers|
    ensures var all := headers[k].name + AfterName(headers, k); var printed := PrintHeaders(headers[k..]);
      && |all| <= |printed|
      && (all == printed <==> NothingEmpty(headers[k..]))
    decreases |headers| - k
  {
    var h, rest := headers[k], headers[k + 1..];
    assert headers[k..][0] == h && headers[k..][1..] == rest;
    var printed := PrintHeaders(headers[k..]);
    assert printed == h.name + ": " + h.value + CRLF + PrintHeaders(rest);
    if k + 1 < |headers| { TailIsPrinted(headers, k + 1); }
    NothingEmptyCons(h, rest);
    assert headers[k..] == [h] + rest;
    if h.value != "" {
      var tail := HeaderTail(headers, k + 1);
      assert h.name + AfterName(headers, k) == h.name + ": " + h.value + CRLF + tail;
      CancelPrefix(h.name + ": " + h.value + CRLF, tail, PrintHeaders(rest));
    }
  }

  lemma CancelPrefix(a: string, s: string, t: string)
    ensures a + s == a + t <==> s == t
  {
    if a + s == a + t {
      assert s == (a + s)[|a|..] && t == (a + t)[|a|..];
    }
  }

  lemma NothingEmptyCons(h: Header, rest: seq<Header>)
    ensures NothingEmpty([h] + rest) <==>
            h.value != "" && (rest == [] || (rest[0].name != "" && NothingEmpty(rest)))
  {
    var all := [h] + rest;
    assert all[0] == h;
    if rest != [] { assert all[1] == rest[0]; }
    if h.value != "" && (rest == [] || (rest[0].name != "" && NothingEmpty(rest))) {
      forall k | 1 <= k < |all| ensures all[k].value != "" && all[k].name != "" {
        assert all[k] == rest[k - 1];
      }
    }
    if NothingEmpty(all) {
      forall k | 0 <= k < |rest| ensures rest[k].value != "" && rest[k].name != "" {
        assert rest[k] == all[k + 1];
      }
    }
  }

  /** The header printer prints every header in full if and only if no value and no later name is empty. */
  lemma HeadersPrintedInFull(headers: seq<Header>)
    ensures HeaderText(headers) == PrintHeaders(headers) <==> NothingEmpty(headers)
  {
    if headers != [] {
      TailIsPrinted(headers, 0);
      assert headers[0..] == headers;
    }
  }

  // Chunked bodies

  const DATA_BUFFER: nat := 512

  datatype ChunkPart = ChunkSize | Clrf1 | ChunkData | Clrf2 | EofPart

  /** The chunks a body source is cut into: one for each read into a buffer of 512 bytes. */
  function ChunksOf(script: seq<ReadEvent>): seq<string>
    decreases Work(script)
  {
    if script == [] then []
    else
      match script[0]
      case NotReady => ChunksOf(script[1..])
      case Bytes(data) =>
        if data == "" then []
        else
          var n := Min(|data|, DATA_BUFFER);
          assert Work(AfterBytes(script, n)) < Work(script) by { SplitEvent(script, n); }
          [data[..n]] + ChunksOf(AfterBytes(script, n))
      case _ => []
  }

  function PrintOpenChunks(chunks: seq<string>): string {
    if chunks == [] then ""
    else Hex(|chunks[0]|) + CRLF + chunks[0] + CRLF + PrintOpenChunks(chunks[1..])
  }

  /** What the chunked printer prints: the closing chunk comes only after the end of the source. */
  function ChunkText(script: seq<ReadEvent>): string {
    PrintOpenChunks(ChunksOf(script)) + if EndingOf(script).Ended? then "0\r\n\r\n" else ""
  }

  lemma ChunkTextStep(script: seq<ReadEvent>)
    requires script != []
    ensures script[0].NotReady? ==> ChunkText(script) == ChunkText(script[1..])
    ensures script[0].Bytes? && script[0].data != "" ==>
      var n := Min(|script[0].data|, DATA_BUFFER); var chunk := script[0].data[..n];
      ChunkText(script) == Hex(|chunk|) + CRLF + chunk + CRLF + ChunkText(AfterBytes(script, n))
  {
    if script[0].Bytes? && script[0].data != "" {
      var n := Min(|script[0].data|, DATA_BUFFER);
      SplitEvent(script, n);
      assert ChunksOf(script)[1..] == ChunksOf(AfterBytes(script, n));
    }
  }

  lemma ChunkTextEnd(script: seq<ReadEvent>)
    requires Delivered(script) == ""
    ensures EndingOf(script) == Ended ==> ChunkText(script) == "0\r\n\r\n"
    ensures EndingOf(script) == Broken ==> ChunkText(script) == ""
  {
    NoChunks(script);
  }

  lemma {:induction false} NoChunks(script: seq<ReadEvent>)
    requires Delivered(script) == ""
    ensures ChunksOf(script) == []
  {
    if script != [] && script[0].NotReady? { NoChunks(script[1..]); }
  }

  lemma ChunkRegroup(size: string, chunk: string, rest: string)
    ensures size + CRLF + chunk + CRLF + rest == size + (CRLF + chunk + CRLF + rest)
  {
  }

  class ChunkedBodyReader {
    const body: Reader
    const dataBuf: array<char>
    var part: ChunkPart
    var current: string
    var currentBody: string

    ghost predicate Valid()
      reads this
    {
      && dataBuf.Length == DATA_BUFFER
      && (part.ChunkSize? || part.Clrf1? ==> currentBody != "")
    }

    ghost function Left(): string
      reads this, body
    {
      current + match part
        case ChunkSize => CRLF + currentBody + CRLF + ChunkText(body.script)
        case Clrf1 => currentBody + CRLF + ChunkText(body.script)
        case ChunkData => CRLF + ChunkText(body.script)
        case Clrf2 => ChunkText(body.script)
        case EofPart => ""
    }

    constructor (body: Reader)
      ensures this.body == body && Valid() && fresh(dataBuf)
      ensures Left() == ChunkText(body.script) && part.Clrf2? && current == ""
    {
      this.body := body;
      dataBuf := new char[DATA_BUFFER];
      part, current, currentBody := Clrf2, "", "";
    }

    /** Fetches the next chunk from the source, or learns that there is none. */
    method PollBody() returns (poll: Poll<IoResult>)
      requires Valid() && current == "" && part.Clrf2?
      modifies this, dataBuf, body
      ensures Valid() && EndingOf(body.script) == old(EndingOf(body.script))
      ensures poll != Ready(Error) ==> Left() == old(Left())
      ensures poll.Pending? ==> old(body.script) == [] || Work(body.script) < old(Work(body.script))
      ensures Work(body.script) <= old(Work(body.script))
      ensures poll.Ready? && poll.value != Error ==> current != ""
      ensures poll == Ready(Error) ==> old(Left()) == "" && EndingOf(body.script) == Broken
    {
      hide Delivered, Work, Hex, ChunkText, EndingOf, AfterBytes;
      ghost var was := body.script;
      if was != [] { ChunkTextStep(was); }
      poll := body.PollRead(dataBuf, 0, dataBuf.Length);
      match poll {
        case Pending =>
        case Ready(Eof) =>
          ChunkTextEnd(was);
          current, part := "0\r\n\r\n", EofPart;
        case Ready(Error) =>
          ChunkTextEnd(was);
        case Ready(Success(n)) =>
          currentBody := dataBuf[..n];
          assert dataBuf[0..0 + n] == currentBody;
          current := Uint64ToHexstring(n);
          part := ChunkSize;
          ChunkRegroup(current, currentBody, ChunkText(body.script));
      }
    }

    method PollRead(size: nat) returns (r: Poll<IoResult>, out: string)
      requires Valid() && size > 0
      modifies this, dataBuf, body
      ensures Valid() && EndingOf(body.script) == old(EndingOf(body.script))
      ensures r.Pending? ==> Left() == old(Left())
      ensures r.Pending? ==> old(body.script) == [] || Work(body.script) < old(Work(body.script))
      ensures r.Ready? && r.value.Success? ==> 0 < |out| == r.value.count <= size && old(Left()) == out + Left()
      ensures Work(body.script) <= old(Work(body.script)) && (r.Pending? ==> old(current) == "")
      ensures r == Ready(Eof) ==> old(Left()) == "" && part.EofPart?
      ensures r == Ready(Error) ==> old(Left()) == "" && EndingOf(body.script) == Broken
      decreases current == ""
    {
      hide ChunkText, Work;
      if current == "" {
        match part {
          case ChunkSize =>
            current, part := CRLF, Clrf1;
            r, out := PollRead(size);
            return;
          case Clrf1 =>
            current, part := currentBody, ChunkData;
            r, out := PollRead(size);
            return;
          case ChunkData =>
            current, part := CRLF, Clrf2;
            r, out := PollRead(size);
            return;
          case Clrf2 =>
            var poll := PollBody();
            if poll == Pending {
              return Pending, "";
            }
            if poll == Ready(Error) {
              return Ready(Error), "";
            }
            r, out := PollRead(size);
            return;
          case EofPart =>
            return Ready(Eof), "";
        }
      }
      var written := Min(|current|, size);
      assert current == current[..written] + current[written..];
      out, current := current[..written], current[written..];
      return Ready(Transferred(written)), out;
    }
  }

  // Whole messages

  ghost function BodyText(raw: bool, script: seq<ReadEvent>): string {
    if raw then Delivered(script) else ChunkText(script)
  }

  predicate HasContentLength(headers: seq<Header>) {
    exists k :: 0 <= k < |headers| && EqualNoCase(headers[k].name, "Content-Length")
  }

  datatype MessagePart = HeaderState | HeaderTerminatorState | BodyState | ChunkedBodyState

  /** Prints headers, a blank line and the body: raw when a Content-Length header announces its size,
      chunked otherwise.  `body` is null for a message without one. */
  class MessageReader {
    const header: HeadersReader
    const body: Reader?
    const chunked: ChunkedBodyReader?
    const hasContentLength: bool
    var part: MessagePart
    var terminator: string

    ghost predicate Valid()
      reads this, header, chunked
    {
      && (body != null <==> chunked != null)
      && (chunked != null ==> chunked.Valid() && chunked.body == body)
      && (part.HeaderState? ==> header.Valid())
      && (part.BodyState? || part.ChunkedBodyState? ==> body != null)
      && (part.BodyState? ==> hasContentLength)
      && (part.ChunkedBodyState? ==> !hasContentLength)
      && (chunked != null && !part.ChunkedBodyState? ==> chunked.part.Clrf2? && chunked.current == "")
    }

    ghost function BodyLeft(): string
      requires Valid()
      reads this, header, chunked, body
    {
      if body == null then ""
      else if hasContentLength then Delivered(body.script)
      else chunked.Left()
    }

    /** Everything still to be printed. */
    ghost function Left(): string
      requires Valid()
      reads this, header, chunked, body
    {
      match part
      case HeaderState => header.Left() + CRLF + BodyLeft()
      case HeaderTerminatorState => terminator + BodyLeft()
      case _ => BodyLeft()
    }

    ghost function BodyEnd(): Ending
      reads this, body
    {
      if body == null then Ended else EndingOf(body.script)
    }

    /** What else can happen before the message ends, besides handing out its bytes. */
    ghost function Effort(): nat
      reads this, body
    {
      (if body == null then 0 else Work(body.script))
      + match part
        case HeaderState => 2
        case HeaderTerminatorState => 1
        case _ => 0
    }

    constructor (headers: seq<Header>, body: Reader?)
      ensures Valid() && this.body == body
      ensures fresh(header) && (chunked != null ==> fresh(chunked) && fresh(chunked.dataBuf))
      ensures Left() == HeaderText(headers) + CRLF
                        + if body == null then "" else BodyText(HasContentLength(headers), body.script)
      ensures Effort() == 2 + if body == null then 0 else Work(body.script)
    {
      header := new HeadersReader(headers);
      this.body := body;
      hasContentLength := HasContentLength(headers);
      part, terminator := HeaderState, CRLF;
      if body == null {
        chunked := null;
      } else {
        chunked := new ChunkedBodyReader(body);
      }
    }

    ghost function Footprint(): set<object>
      reads this, chunked
    {
      {this, header} + (if body == null then {} else {body})
      + (if chunked == null then {} else {chunked, chunked.dataBuf})
    }

    /** The header lines and the blank line behind them. */
    method PollHead(size: nat) returns (r: Poll<IoResult>, out: string)
      requires Valid() && 0 < size && (part.HeaderState? || part.HeaderTerminatorState?)
      modifies this, header
      ensures r != Ready(Eof) ==> Valid()
      ensures r.Pending? ==> Left() == old(Left())
      ensures r.Ready? && r.value.Success? ==> 0 < |out| == r.value.count <= size && old(Left()) == out + Left()
      ensures r == Ready(Eof) ==> old(Left()) == ""
      ensures r != Ready(Error)
      ensures if r.Pending? then Effort() < old(Effort()) else Effort() <= old(Effort())
    {
      hide Delivered, ChunkText, EndingOf, Work, ChunkedBodyReader.Left, HeadersReader.Left;
      if part.HeaderState? {
        var io, text := header.PollRead(size);
        if io.Eof? {
          terminator := CRLF;
          part := HeaderTerminatorState;
          return Pending, "";
        }
        return Ready(io), text;
      }
      r, out := PollTerminator(size);
    }

    /** The blank line behind the headers, then the body. */
    method PollTerminator(size: nat) returns (r: Poll<IoResult>, out: string)
      requires Valid() && 0 < size && part.HeaderTerminatorState?
      modifies this
      ensures r != Ready(Eof) ==> Valid()
      ensures r.Pending? ==> Left() == old(Left())
      ensures r.Ready? && r.value.Success? ==> 0 < |out| == r.value.count <= size && old(Left()) == out + Left()
      ensures r == Ready(Eof) ==> old(Left()) == ""
      ensures r != Ready(Error)
      ensures if r.Pending? then Effort() < old(Effort()) else Effort() <= old(Effort())
    {
      hide Delivered, ChunkText, EndingOf, Work, ChunkedBodyReader.Left, HeadersReader.Left;
      var written := Min(|terminator|, size);
      assert terminator == terminator[..written] + terminator[written..];
      out, terminator := terminator[..written], terminator[written..];
      if Transferred(written).Eof? {
        if body == null {
          return Ready(Eof), "";
        }
        part := if hasContentLength then BodyState else ChunkedBodyState;
        return Pending, "";
      }
      return Ready(Transferred(written)), out;
    }

    /** The body, from its source or in chunks. */
    method PollTail(buffer: array<char>, size: nat) returns (r: Poll<IoResult>, out: string)
      requires Valid() && 0 < size <= buffer.Length && buffer !in Footprint()
      requires part.BodyState? || part.ChunkedBodyState?
      modifies Footprint(), buffer
      ensures Valid() && Footprint() == old(Footprint()) && part == old(part) && BodyEnd() == old(BodyEnd())
      ensures r.Pending? ==> Left() == old(Left())
      ensures r.Ready? && r.value.Success? ==> 0 < |out| == r.value.count <= size && old(Left()) == out + Left()
      ensures r == Ready(Eof) ==> old(Left()) == "" && (part.BodyState? ==> BodyEnd() == Ended)
      ensures r == Ready(Error) ==> old(Left()) == "" && BodyEnd() == Broken
      ensures Effort() <= old(Effort())
      ensures r.Pending? && BodyEnd() != Open ==> Effort() < old(Effort())
    {
      assert body.script == [] ==> BodyEnd() == Open;
      hide Delivered, Work, ChunkText, EndingOf, ChunkedBodyReader.Left, HeadersReader.Left;
      if part.BodyState? {
        r := body.PollRead(buffer, 0, size);
        out := if r.Ready? && r.value.Success? then buffer[..r.value.count] else "";
      } else {
        r, out := chunked.PollRead(size);
      }
    }

    method PollRead(buffer: array<char>, size: nat) returns (r: Poll<IoResult>, out: string)
      requires Valid() && 0 < size <= buffer.Length && buffer !in Footprint()
      modifies Footprint(), buffer
      ensures r != Ready(Eof) ==> Valid() && Footprint() == old(Footprint())
      ensures BodyEnd() == old(BodyEnd())
      ensures r.Pending? ==> Left() == old(Left())
      ensures r.Ready? && r.value.Success? ==> 0 < |out| == r.value.count <= size && old(Left()) == out + Left()
      ensures r == Ready(Eof) ==> old(Left()) == "" && (old(part).BodyState? ==> BodyEnd() == Ended)
      ensures r == Ready(Error) ==> old(Left()) == "" && BodyEnd() == Broken
      ensures Effort() <= old(Effort())
      ensures r.Pending? && BodyEnd() != Open ==> Effort() < old(Effort())
    {
      hide Left, EndingOf, Effort;
      match part {
        case HeaderState => r, out := PollHead(size);
        case HeaderTerminatorState => r, out := PollHead(size);
        case _ => r, out := PollTail(buffer, size);
      }
    }
  }

  /** Polls with buffers of the given sizes, for as long as the message lasts.  What comes out does not
      depend on the sizes: it is the message, or the beginning of it.  Enough buffers get to the end of it,
      unless its body never ends. */
  method Drain(m: MessageReader, buffer: array<char>, sizes: seq<nat>) returns (emitted: string, finished: bool)
    requires m.Valid() && buffer !in m.Footprint()
    requires forall s <- sizes :: 0 < s <= buffer.Length
    modifies m.Footprint(), buffer
    ensures finished ==> emitted == old(m.Left())
    ensures !finished ==> m.Valid() && emitted + m.Left() == old(m.Left())
    ensures !finished && old(m.BodyEnd()) != Open ==> |sizes| <= old(|m.Left()| + m.Effort())
  {
    hide MessageReader.Left, MessageReader.Valid, MessageReader.BodyEnd, MessageReader.Effort;
    emitted, finished := "", false;
    ghost var all := m.Left();
    for k := 0 to |sizes|
      invariant m.Valid() && m.Footprint() == old(m.Footprint())
      invariant emitted + m.Left() == all && m.BodyEnd() == old(m.BodyEnd())
      invariant m.BodyEnd() != Open ==> k + |m.Left()| + m.Effort() <= old(|m.Left()| + m.Effort())
    {
      assert sizes[k] in sizes;
      var r, out := m.PollRead(buffer, sizes[k]);
      match r {
        case Pending =>
        case Ready(Success(_)) => emitted := emitted + out;
        case Ready(_) =>
          assert emitted + "" == emitted;
          return emitted, true;
      }
    }
  }

  lemma {:induction false} ClosedChunks(chunks: seq<string>)
    ensures PrintOpenChunks(chunks) + "0\r\n\r\n" == PrintChunks(chunks)
  {
    if chunks == [] {
      assert "0" + CRLF + CRLF == "0\r\n\r\n";
    } else {
      ClosedChunks(chunks[1..]);
      var head := Hex(|chunks[0]|) + CRLF + chunks[0] + CRLF;
      assert head + PrintOpenChunks(chunks[1..]) + "0\r\n\r\n" == head + (PrintOpenChunks(chunks[1..]) + "0\r\n\r\n");
    }
  }

  lemma {:induction false} ChunksCarryBody(script: seq<ReadEvent>)
    ensures Concat(ChunksOf(script)) == Delivered(script)
    ensures forall c <- ChunksOf(script) :: 0 < |c| <= DATA_BUFFER
    decreases Work(script)
  {
    if script != [] {
      match script[0] {
        case NotReady => ChunksCarryBody(script[1..]);
        case Bytes(data) =>
          if data != "" {
            var n := Min(|data|, DATA_BUFFER);
            SplitEvent(script, n);
            ChunksCarryBody(AfterBytes(script, n));
            assert ChunksOf(script)[1..] == ChunksOf(AfterBytes(script, n));
          }
        case _ =>
      }
    }
  }

  lemma SmallChunkOk(cfg: Config, c: string)
    requires 0 < |c| <= DATA_BUFFER && cfg.bufferLimit >= DATA_BUFFER + 1
    ensures ChunkOk(cfg, c)
  {
    assert |Hex(|c| / 16 / 16)| == 1;
    assert |Hex(|c| / 16)| <= 2;
    assert |Hex(|c|)| <= 3;
  }

  /** An accepted Content-Length header leaves a length, which no later header removes, and nothing else does. */
  lemma {:induction false} LengthStays(cfg: Config, st: State, headers: seq<Header>)
    requires Effects(cfg, st, headers).More?
    ensures HasContentLength(headers) || st.contentLength.Some? <==>
            Effects(cfg, st, headers).state.contentLength.Some?
    decreases |headers|
  {
    if headers != [] {
      var s := HeaderEffect(cfg, st, headers[0].name, headers[0].value).state;
      LengthStays(cfg, s.(headers := s.headers + [headers[0]], buffer := ""), headers[1..]);
      assert headers == [headers[0]] + headers[1..];
    }
  }

  /** What the printer prints for a message with a chunked body, whatever the schedule of its body source,
      is parsed back into the same headers and body; the CRLF closing the chunked coding stays unread. */
  lemma PrintedMessageParses(cfg: Config, headers: seq<Header>, script: seq<ReadEvent>, ending: Ending)
    requires LimitsFit(cfg) && cfg.hasBody && cfg.bufferLimit >= DATA_BUFFER + 1
    requires NothingEmpty(headers) && forall h <- headers :: Printable(h, cfg.bufferLimit)
    requires var o := Effects(cfg, INITIAL, headers);
      o.More? && o.state.contentLength == None && o.state.isChunkBody
    requires EndingOf(script) == Ended && |Delivered(script)| <= cfg.bodyLimit
    ensures Judge(cfg, INITIAL, HeaderText(headers) + CRLF + BodyText(HasContentLength(headers), script), ending)
            == Accepted(Message(headers, Some(Delivered(script))), CRLF)
  {
    HeadersPrintedInFull(headers);
    LengthStays(cfg, INITIAL, headers);
    var chunks := ChunksOf(script);
    ClosedChunks(chunks);
    ChunksCarryBody(script);
    forall c <- chunks ensures ChunkOk(cfg, c) { SmallChunkOk(cfg, c); }
    ChunkedRoundTrip(cfg, headers, chunks, "", ending);
    assert PrintHeaders(headers) + CRLF + PrintChunks(chunks) + ""
        == PrintHeaders(headers) + CRLF + PrintChunks(chunks);
    assert CRLF + "" == CRLF;
  }

  /** The same for a message whose Content-Length announces the size of its body. */
  lemma PrintedSizedMessageParses(cfg: Config, headers: seq<Header>, script: seq<ReadEvent>, ending: Ending)
    requires cfg.hasBody && cfg.bufferLimit >= 1
    requires NothingEmpty(headers) && forall h <- headers :: Printable(h, cfg.bufferLimit)
    requires var o := Effects(cfg, INITIAL, headers); o.More? && o.state.contentLength == Some(|Delivered(script)|)
    requires |Delivered(script)| <= cfg.bodyLimit && |Delivered(script)| - 1 <= cfg.bufferLimit
    ensures Judge(cfg, INITIAL, HeaderText(headers) + CRLF + BodyText(HasContentLength(headers), script), ending)
            == Accepted(Message(headers, Some(Delivered(script))), "")
  {
    HeadersPrintedInFull(headers);
    LengthStays(cfg, INITIAL, headers);
    var body := Delivered(script);
    LengthRoundTrip(cfg, headers, body, "", ending);
    assert PrintHeaders(headers) + CRLF + body + "" == PrintHeaders(headers) + CRLF + body;
  }
}
