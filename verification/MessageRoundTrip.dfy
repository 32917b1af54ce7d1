/** A message from the printer of one program to the parser of another, byte by byte in any pieces. */
module MessageRoundTrip {
  import opened Wrappers
  import opened AsyncIo
  import opened CharacterStreams
  import opened MessageSyntax
  import opened MessageParsers
  import opened Framing
  import opened MessageExactness
  import opened MessageReaders

  /** Parses what arrives, whatever the pieces and delays: unless copying to the body breaks, the outcome is the
      fold over the delivered bytes. */
  method Receive(cfg: Config, arrival: seq<ReadEvent>, copies: seq<CopyEvent>)
    returns (result: CallState, ghost unread: string)
    ensures result.Completed? ==>
              Judge(cfg, INITIAL, Delivered(arrival), EndingOf(arrival)) == Accepted(result.message, unread)
    ensures result.Failure? ==> Judge(cfg, INITIAL, Delivered(arrival), EndingOf(arrival)) == Refused(result.error)
    ensures result.CallPending? ==> Judge(cfg, INITIAL, Delivered(arrival), EndingOf(arrival)).Waiting?
    ensures result.CopyFailed? ==> Breaks in copies
    ensures !result.Running?
  {
    var reader := new Reader(arrival);
    var stream := new CharacterStream(reader);
    var parser := new MessageParser(stream, cfg, copies);
    unread := "";
    assert parser.Prospect() == Judge(cfg, INITIAL, Delivered(arrival), EndingOf(arrival));
    hide Judge;
    result := parser.Settle();
    if result.Completed? {
      unread := parser.Input();
    }
  }

  /** Prints a message into buffers of the given sizes; enough of them get to the end of it. */
  method Send(headers: seq<Header>, script: seq<ReadEvent>, buffer: array<char>, sizes: seq<nat>)
    returns (sent: string, finished: bool)
    requires forall s <- sizes :: 0 < s <= buffer.Length
    modifies buffer
    ensures var text := HeaderText(headers) + CRLF + BodyText(HasContentLength(headers), script);
      && (finished ==> sent == text)
      && (EndingOf(script) != Open && |sizes| > |text| + Work(script) + 2 ==> finished)
  {
    var body := new Reader(script);
    var message := new MessageReader(headers, body);
    sent, finished := Drain(message, buffer, sizes);
  }

  /** Headers the parser accepts, which ask for chunks. */
  ghost predicate Chunked(cfg: Config, headers: seq<Header>) {
    && LimitsFit(cfg) && cfg.bufferLimit >= DATA_BUFFER + 1
    && HeadersTaken(cfg, headers) && LengthOf(headers) == None && IsChunked(headers)
  }

  /** Headers the parser accepts, with a Content-Length of `size`. */
  ghost predicate Sized(cfg: Config, headers: seq<Header>, size: nat) {
    && cfg.bufferLimit >= 1 && size - 1 <= cfg.bufferLimit
    && HeadersTaken(cfg, headers) && LengthOf(headers) == Some(size)
  }

  /** Prints a message into buffers of the given sizes and parses what comes out.  `arrival` is how the bytes
      reach the parser: in any pieces, with any delays and any ending.  If the printer got to its end, which it
      does with enough buffers, and these are its bytes, the parser completes the same message, and no more
      than the CRLF closing the chunked coding is left unread. */
  method Transmit(cfg: Config, headers: seq<Header>, script: seq<ReadEvent>, buffer: array<char>, sizes: seq<nat>,
                  arrival: seq<ReadEvent>, copies: seq<CopyEvent>)
    returns (sent: string, finished: bool, result: CallState, ghost unread: string)
    requires cfg.hasBody && NothingEmpty(headers) && forall h <- headers :: Framing.Printable(h, cfg.bufferLimit)
    requires Chunked(cfg, headers) || Sized(cfg, headers, |Delivered(script)|)
    requires EndingOf(script) == Ended && |Delivered(script)| <= cfg.bodyLimit
    requires forall s <- sizes :: 0 < s <= buffer.Length
    modifies buffer
    ensures var text := HeaderText(headers) + CRLF + BodyText(HasContentLength(headers), script);
      |sizes| > |text| + Work(script) + 2 ==> finished
    ensures finished && Delivered(arrival) == sent ==>
              if result.CopyFailed? then Breaks in copies
              else
                && result == Completed(Message(headers, Some(Delivered(script))))
                && unread == if Sized(cfg, headers, |Delivered(script)|) then "" else CRLF
  {
    hide Judge;
    sent, finished := Send(headers, script, buffer, sizes);
    EffectsExact(cfg, INITIAL, headers);
    if Sized(cfg, headers, |Delivered(script)|) {
      PrintedSizedMessageParses(cfg, headers, script, EndingOf(arrival));
    } else {
      PrintedMessageParses(cfg, headers, script, EndingOf(arrival));
    }
    result, unread := Receive(cfg, arrival, copies);
  }
}
