/**
 The message parser object.  Each poll pulls bytes from its stream until the message is complete,
 refused, or nothing is available.  Copying a finished chunk into the body may itself be pending or fail;
 `copies` says when, and like the reader's script it is arbitrary.
 */
module MessageParsers {
  import opened Wrappers
  import opened Ascii
  import opened Numerals
  import opened AsyncIo
  import opened CharacterStreams
  import opened MessageSyntax

  // What copying a chunk into the body can come to: it is done, it waits, or the body's file fails.
  datatype CopyEvent = Copies | Delays | Breaks

  // `CopyFailed` is the exception of a copy that breaks, which no byte of the message is to blame for.
  datatype CallState = CallPending | Running | Completed(message: Message) | Failure(error: Error) | CopyFailed

  method ValidateFieldName(name: string) returns (ok: bool)
    ensures ok <==> ValidName(name)
  {
    if name == "" {
      return false;
    }
    for k := 0 to |name|
      invariant forall m :: 0 <= m < k ==> IsTchar(name[m])
    {
      if !IsTchar(name[k]) {
        return false;
      }
    }
    return true;
  }

  method TrimFieldValue(text: string) returns (value: string)
    ensures value == TrimBack(TrimFront(text))
  {
    value := text;
    while value != "" && IsBlank(value[0])
      invariant TrimFront(text) == TrimFront(value)
      decreases |value|
    {
      value := value[1..];
    }
    while value != "" && IsBlank(value[|value| - 1])
      invariant TrimBack(TrimFront(text)) == TrimBack(value)
      decreases |value|
    {
      value := value[..|value| - 1];
    }
  }

  method ValidateFieldValue(value: string) returns (ok: bool)
    ensures ok <==> ValidValue(value)
  {
    var lastWasSeparator := false;
    for k := 0 to |value|
      invariant forall m :: 0 <= m < k ==> IsVchar(value[m]) || IsBlank(value[m])
      invariant lastWasSeparator <==> k > 0 && IsBlank(value[k - 1])
    {
      if IsVchar(value[k]) {
        lastWasSeparator := false;
      } else if IsBlank(value[k]) {
        lastWasSeparator := true;
      } else {
        return false;
      }
    }
    return !lastWasSeparator;
  }

  lemma DryScript(script: seq<ReadEvent>)
    ensures script == [] ==> Delivered(script) == "" && EndingOf(script) == Open
  {
  }

  lemma TakeData(cfg: Config, st: State, c: char)
    requires st.phase.ChunkedBodyData?
    ensures Take(cfg, st, c) ==
            if |st.buffer| + 1 != (st.lastChunkSize + 2) % U64 then More(st.(buffer := st.buffer + [c]))
            else if !EndsLine(st.buffer, c) then Failed(Malformed)
            else More(st.(phase := AppendToBody, buffer := st.buffer[..|st.buffer| - 1]))
  {
    hide TakeHeader, EndHeaders, TakeChunkSize;
  }

  class MessageParser {
    const stream: CharacterStream
    const config: Config
    var phase: Phase
    var buffer: string
    var headers: seq<Header>
    var contentLength: Option<nat>
    var isChunkBody: bool
    var hostSet: bool
    var lastChunkSize: nat
    var decodedBody: Option<string>
    var canEof: bool
    var copies: seq<CopyEvent>

    ghost function Abstract(): State
      reads this
    {
      State(phase, buffer, headers, contentLength, isChunkBody, hostSet, lastChunkSize, decodedBody, canEof)
    }

    ghost predicate Valid()
      reads this, stream
    {
      && stream.Valid()
      && |buffer| <= config.bufferLimit + 1
    }

    ghost function Input(): string
      requires Valid()
      reads this, stream, stream.buffer, stream.reader
    {
      stream.Remaining()
    }

    /** What the message being parsed will come to. */
    ghost function Prospect(): Verdict
      requires Valid()
      reads this, stream, stream.buffer, stream.reader
    {
      Judge(config, Abstract(), Input(), stream.End())
    }

    constructor (stream: CharacterStream, config: Config, copies: seq<CopyEvent>)
      requires stream.Valid()
      ensures this.stream == stream && this.config == config && Valid()
      ensures Abstract() == INITIAL && this.copies == copies
    {
      this.stream, this.config, this.copies := stream, config, copies;
      phase, buffer, headers, contentLength := HeaderLine, "", [], None;
      isChunkBody, hostSet, lastChunkSize, decodedBody, canEof := false, false, 0, None, false;
    }

    /** Checks a header line and records it. */
    method TakeHeaderLine(line: string) returns (r: CallState)
      modifies this
      ensures phase == old(phase) && copies == old(copies) && |buffer| <= |old(buffer)|
      ensures r.Running? || r.Failure?
      ensures r.Running? ==> TakeHeader(config, old(Abstract()), line) == More(Abstract())
      ensures r.Failure? ==> TakeHeader(config, old(Abstract()), line) == Failed(r.error)
    {
      hide ValidName, ValidValue, TrimFront, TrimBack, EqualNoCase, IsSpecial, ReadDigits;
      var separator := Find(line, ':', 0);
      if separator == |line| {
        return Failure(Malformed);
      }
      var name := line[..separator];
      var nameOk := ValidateFieldName(name);
      var value := TrimFieldValue(line[separator + 1..]);
      var valueOk := ValidateFieldValue(value);
      if !nameOk || !valueOk {
        return Failure(Malformed);
      }
      if EqualNoCase(name, "Content-Length") {
        var length := StringToUint64(value);
        if length.None? {
          return Failure(Malformed);
        }
        contentLength := length;
      } else if EqualNoCase(name, "Transfer-Encoding") {
        if value != "chunked" {
          return Failure(BadTransferEncoding);
        }
        isChunkBody := true;
      } else if EqualNoCase(name, "Host") {
        var refused := config.special(name, value);
        if refused.Some? {
          return Failure(refused.value);
        }
        if hostSet {
          return Failure(Malformed);
        }
        hostSet := true;
      } else if IsSpecial(name) {
        var refused := config.special(name, value);
        if refused.Some? {
          return Failure(refused.value);
        }
      }
      headers := headers + [Header(name, value)];
      buffer := "";
      return Running;
    }

    /** Reads the size of the next chunk from its header line. */
    method TakeSizeLine(line: string) returns (r: CallState)
      modifies this
      ensures copies == old(copies) && !r.CallPending? && !r.CopyFailed? && |buffer| <= |old(buffer)|
      ensures r.Running? ==> TakeChunkSize(config, old(Abstract()), line) == More(Abstract())
      ensures r.Completed? ==> TakeChunkSize(config, old(Abstract()), line) == Done(r.message)
      ensures r.Failure? ==> TakeChunkSize(config, old(Abstract()), line) == Failed(r.error)
    {
      var separator := Find(line, ';', 0);
      for k := separator to |line|
        invariant forall m :: separator <= m < k ==> IsTchar(line[m]) || line[m] == ';'
      {
        if !IsTchar(line[k]) && line[k] != ';' {
          assert line[separator..][k - separator] == line[k];
          return Failure(Malformed);
        }
      }
      var size := HexstringToUint64(line[..separator]);
      if size.None? {
        return Failure(Malformed);
      }
      if size.value == 0 {
        return Completed(Message(headers, Some(if decodedBody.Some? then decodedBody.value else "")));
      }
      var before := if decodedBody.Some? then |decodedBody.value| else 0;
      if (before + size.value) % U64 > config.bodyLimit {
        return Failure(BodyExceededLimit);
      }
      lastChunkSize := size.value;
      buffer := "";
      phase := ChunkedBodyData;
      return Running;
    }

    /** One byte of chunk data: the last two must be CRLF, which are cut off. */
    method TakeDataByte(c: char) returns (r: CallState)
      requires phase == ChunkedBodyData
      modifies this
      ensures copies == old(copies) && (r.Running? || r.Failure?) && |buffer| <= |old(buffer)| + 1
      ensures r.Running? ==> Take(config, old(Abstract()), c) == More(Abstract())
      ensures r.Failure? ==> Take(config, old(Abstract()), c) == Failed(r.error)
    {
      ghost var was, before := Abstract(), buffer;
      hide Take;
      TakeData(config, was, c);
      Cut(before, [c]);
      buffer := buffer + [c];
      if |buffer| != (lastChunkSize + 2) % U64 {
        return Running;
      }
      if buffer[|buffer| - 1] != '\n' {
        return Failure(Malformed);
      }
      buffer := buffer[..|buffer| - 1];
      assert buffer == before;
      if buffer == "" || buffer[|buffer| - 1] != '\r' {
        return Failure(Malformed);
      }
      buffer := buffer[..|buffer| - 1];
      phase := AppendToBody;
      return Running;
    }

    /** One byte while no chunk waits to be copied. */
    method TakeByte(c: char) returns (r: CallState)
      requires phase != AppendToBody
      modifies this
      ensures copies == old(copies) && !r.CallPending? && !r.CopyFailed? && |buffer| <= |old(buffer)| + 1
      ensures r.Running? ==> Take(config, old(Abstract()), c) == More(Abstract())
      ensures r.Completed? ==> Take(config, old(Abstract()), c) == Done(r.message)
      ensures r.Failure? ==> Take(config, old(Abstract()), c) == Failed(r.error)
    {
      match phase {
        case HeaderLine =>
          if !EndsLine(buffer, c) {
            buffer := buffer + [c];
            return Running;
          }
          var line := buffer[..|buffer| - 1];
          if line != "" {
            r := TakeHeaderLine(line);
            return;
          }
          buffer := line;
          if !config.hasBody {
            return Completed(Message(headers, None));
          }
          if contentLength.Some? {
            if contentLength.value == 0 {
              return Completed(Message(headers, Some("")));
            }
            phase := Body;
          } else if isChunkBody {
            phase := ChunkedBodySize;
          } else {
            canEof := true;
            phase := Body;
          }
          return Running;
        case Body =>
          buffer := buffer + [c];
          if |buffer| > config.bodyLimit {
            return Failure(BodyExceededLimit);
          }
          if !canEof && contentLength == Some(|buffer|) {
            return Completed(Message(headers, Some(buffer)));
          }
          return Running;
        case ChunkedBodySize =>
          if !EndsLine(buffer, c) {
            buffer := buffer + [c];
            return Running;
          }
          var line := buffer[..|buffer| - 1];
          r := TakeSizeLine(line);
        case ChunkedBodyData =>
          r := TakeDataByte(c);
      }
    }

    /** A whole chunk is in the buffer: copy it to the body, which may take several polls. */
    method AppendChunk() returns (r: CallState)
      requires phase == AppendToBody
      modifies this
      ensures r.CallPending? ==> Abstract() == old(Abstract()) && |copies| < |old(copies)|
      ensures r.Running? ==> Append(config, old(Abstract())) == More(Abstract()) && phase != AppendToBody
      ensures r.Failure? ==> Append(config, old(Abstract())) == Failed(r.error)
      ensures var next := if old(copies) == [] then Copies else old(copies)[0];
        if Append(config, old(Abstract())).Failed? then r.Failure?
        else (r.CopyFailed? <==> next.Breaks?) && (r.CallPending? <==> next.Delays?) && (r.Running? <==> next.Copies?)
      ensures Breaks in copies || r.CopyFailed? ==> Breaks in old(copies)
      ensures |copies| <= |old(copies)| && |buffer| <= |old(buffer)|
    {
      var before := if decodedBody.Some? then decodedBody.value else "";
      if |before| + |buffer| > config.bodyLimit {
        return Failure(BodyExceededLimit);
      }
      if copies != [] {
        var event := copies[0];
        copies := copies[1..];
        match event {
          case Delays => return CallPending;
          case Breaks => return CopyFailed;
          case Copies =>
        }
      }
      decodedBody := Some(before + buffer);
      buffer := "";
      phase := ChunkedBodySize;
      return Running;
    }

    ghost function WorkLeft(): nat
      requires Valid()
      reads this, stream, stream.buffer, stream.reader
    {
      2 * |Input()| + (if phase == AppendToBody then 1 else 0)
    }

    /** Events still to come from the environment. */
    ghost function Fuel(): nat
      reads this, stream, stream.reader
    {
      |copies| + Work(stream.reader.script)
    }

    /** Deals with a byte just taken from the stream. */
    method HandleByte(c: char) returns (r: CallState)
      requires Valid() && stream.lastChar == None && !stream.finished && |buffer| <= config.bufferLimit
      modifies this, stream`lastChar
      ensures Valid() && Fuel() <= old(Fuel())
      ensures var before := Judge(config, old(Abstract()), [c] + old(Input()), old(stream.End()));
        match r
        case CallPending => Prospect() == before && Fuel() < old(Fuel()) && stream.lastChar.Some?
        case Running => Prospect() == before
                          && WorkLeft() < 2 + 2 * |old(Input())| + (if old(phase) == AppendToBody then 1 else 0)
        case Completed(m) => before == Accepted(m, Input())
        case Failure(e) => before == Refused(e)
        case CopyFailed => Breaks in old(copies)
      ensures Breaks in copies ==> Breaks in old(copies)
    {
      hide Judge, Take, Append, Work, EndingOf, Delivered;
      if phase == AppendToBody {
        JudgeAppend(config, Abstract(), [c] + Input(), stream.End());
        stream.ShiftBack(c);
        r := AppendChunk();
      } else {
        JudgeTake(config, Abstract(), c, Input(), stream.End());
        r := TakeByte(c);
      }
    }

    method InnerPoll() returns (r: CallState)
      requires Valid()
      modifies this, stream, stream.buffer, stream.reader
      ensures !r.Failure? ==> Valid()
      ensures r.CallPending? || r.Running? ==> Prospect() == old(Prospect())
      ensures r.Completed? ==> old(Prospect()) == Accepted(r.message, Input())
      ensures r.Failure? ==> old(Prospect()) == Refused(r.error)
      ensures r.CopyFailed? ==> Breaks in old(copies)
      ensures Breaks in copies ==> Breaks in old(copies)
      ensures r.Running? ==> WorkLeft() < old(WorkLeft())
      ensures Fuel() <= old(Fuel())
      ensures r.CallPending? ==> Fuel() < old(Fuel()) || (stream.reader.script == [] && Input() == "")
      ensures r.CallPending? && stream.reader.script == [] && stream.lastChar == None ==> Prospect().Waiting?
    {
      if |buffer| > config.bufferLimit {
        return Failure(ExceededBuffer);
      }
      hide Judge, Work, EndingOf, Delivered;
      JudgeEnd(config, Abstract(), stream.End());
      var poll := stream.PollNext();
      match poll {
        case Pending =>
          DryScript(stream.reader.script);
          return CallPending;
        case Finished =>
          if canEof {
            return Completed(Message(headers, Some(buffer)));
          }
          return Failure(UnexpectedEof);
        case Thrown =>
          return Failure(ReadFault);
        case Ready(c) =>
          r := HandleByte(c);
      }
    }

    /** Polls until the message is decided or nothing more is available. */
    method Poll() returns (r: CallState)
      requires Valid()
      modifies this, stream, stream.buffer, stream.reader
      ensures !r.Running? && (!r.Failure? ==> Valid())
      ensures r.CallPending? ==> Prospect() == old(Prospect())
      ensures r.Completed? ==> old(Prospect()) == Accepted(r.message, Input())
      ensures r.Failure? ==> old(Prospect()) == Refused(r.error)
      ensures r.CopyFailed? ==> Breaks in old(copies)
      ensures Breaks in copies ==> Breaks in old(copies)
      ensures Fuel() <= old(Fuel())
      ensures r.CallPending? ==> Fuel() < old(Fuel()) || (stream.reader.script == [] && Input() == "")
      ensures r.CallPending? && stream.reader.script == [] && stream.lastChar == None ==> Prospect().Waiting?
    {
      r := Running;
      while r.Running?
        invariant !r.Failure? ==> Valid()
        invariant r.CallPending? || r.Running? ==> Prospect() == old(Prospect())
        invariant r.Completed? ==> old(Prospect()) == Accepted(r.message, Input())
        invariant r.Failure? ==> old(Prospect()) == Refused(r.error)
        invariant (r.CopyFailed? ==> Breaks in old(copies)) && (Breaks in copies ==> Breaks in old(copies))
        invariant Fuel() <= old(Fuel())
        invariant r.CallPending? ==> Fuel() < old(Fuel()) || (stream.reader.script == [] && Input() == "")
        invariant r.CallPending? && stream.reader.script == [] && stream.lastChar == None ==> Prospect().Waiting?
        decreases r.Running?, if r.Running? then WorkLeft() else 0
      {
        r := InnerPoll();
      }
    }

    /** What an executor does with the parser: poll it again for as long as there is anything left to happen.
        The result depends on the delivered bytes and the way they end, not on how they arrived. */
    method Settle() returns (r: CallState)
      requires Valid()
      modifies this, stream, stream.buffer, stream.reader
      ensures r.Completed? ==> Valid() && old(Prospect()) == Accepted(r.message, Input())
      ensures r.Failure? ==> old(Prospect()) == Refused(r.error)
      ensures r.CopyFailed? ==> Breaks in old(copies)
      ensures Breaks in copies ==> Breaks in old(copies)
      ensures r.CallPending? ==> old(Prospect()).Waiting?
      ensures !r.Running?
    {
      while true
        invariant Valid() && Prospect() == old(Prospect())
        invariant Breaks in copies ==> Breaks in old(copies)
        decreases Fuel()
      {
        r := Poll();
        if !r.CallPending? {
          return;
        }
        if stream.reader.script == [] && stream.lastChar == None {
          return;
        }
      }
    }
  }
}
