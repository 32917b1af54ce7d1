/** One client connection: it listens for a request, waits for the response and sends it. */
module Connections {
  import opened Wrappers
  import opened AsyncIo
  import opened SpanReaders
  import opened IoCopyFutures

  type Status = nat

  // The exceptions the connection tells apart.
  datatype Failure =
    | UndeterminedLength | UriExceededBuffer | BodyExceededLimit | GenericExceededBuffer
    | InvalidMethod | UnsupportedVersion | MalformedMessage | UnexpectedEof | BadTransferEncoding
    | TimedOut | FileNotFound | CgiError | HandlerStatus(status: Status) | Other

  /** Three parser errors inherit privately, so no handler for a base class or for themselves within one matches. */
  predicate Escapes(f: Failure) {
    f.UriExceededBuffer? || f.InvalidMethod? || f.UnsupportedVersion?
  }

  /** The status of the error page before any response exists. */
  function ListenStatus(f: Failure): Status {
    match f
    case UndeterminedLength => 411
    case UriExceededBuffer => 414
    case BodyExceededLimit => 413
    case GenericExceededBuffer => 431
    case InvalidMethod => 501
    case UnsupportedVersion => 505
    case MalformedMessage => 400
    case UnexpectedEof => 400
    case BadTransferEncoding => 501
    case TimedOut => 408
    case FileNotFound => 404
    case CgiError => 502
    case HandlerStatus(status) => status
    case Other => 500
  }

  /** The status of the error page that replaces a response. */
  function RecoveryStatus(f: Failure): Status {
    match f
    case CgiError => 502
    case TimedOut => 504
    case _ => 500
  }

  // What a response prints, with its body and without.
  datatype Response = Response(full: seq<ReadEvent>, bare: seq<ReadEvent>)

  function Script(response: Response, head: bool): seq<ReadEvent> {
    if head then response.bare else response.full
  }

  function Serialization(response: Response, head: bool): string {
    Delivered(Script(response, head))
  }

  datatype ParseEvent = NotYet | Request(head: bool) | Rejected(failure: Failure)

  datatype AnswerEvent = Later | Answer(response: Response) | Fails(failure: Failure)

  datatype State = Listen | PollResponse | Respond

  datatype ConnectionPoll = Idle | Closed | Escaped

  function Rank(s: State): nat {
    match s
    case Listen => 0
    case PollResponse => 1
    case Respond => 2
  }

  /** Whether the request that comes is a HEAD request; None when none comes. */
  function FirstRequest(parses: seq<ParseEvent>): Option<bool> {
    if parses == [] || parses[0].Rejected? then None
    else if parses[0].Request? then Some(parses[0].head)
    else FirstRequest(parses[1..])
  }

  /** The answer that comes, if the handler gives one. */
  function FirstAnswer(answers: seq<AnswerEvent>): Option<Response> {
    if answers == [] || answers[0].Fails? then None
    else if answers[0].Answer? then Some(answers[0].response)
    else FirstAnswer(answers[1..])
  }

  // A response the peer is to get, and whether to a HEAD request.
  datatype Promise = Promise(response: Response, head: bool)

  class ConnectionFuture {
    const socket: FileDescriptor
    var state: State
    var response: Option<Response>
    var request: Option<bool>
    var copier: IoCopyFuture?
    var isRecovering: bool
    var byteActivity: nat
    // What the environment will do: the parser, the handler, the answer, the error pages, the copier, the timers.
    var parses: seq<ParseEvent>
    const handler: Option<Failure>
    var answers: seq<AnswerEvent>
    const errorPage: (Status, nat) -> Option<Response>
    var pages: nat
    // Whether what the copier throws comes from starting a CGI program.
    const copyIsCgi: bool
    var timers: seq<bool>
    ghost var Repr: set<object>

    predicate IsHead()
      reads this
    {
      request == Some(true)
    }

    /** While responding, the socket holds what the copier of this very response has written. */
    ghost predicate Responding()
      reads this, Repr
    {
      && copier != null && copier.Repr() <= Repr && this !in copier.Repr()
      && copier.Valid() && copier.writer == socket
      && response.Some? && copier.before == ""
      && copier.total == Serialization(response.value, IsHead())
    }

    ghost predicate Valid()
      reads this, Repr
    {
      && this in Repr && socket in Repr && socket.AtEnd()
      && (state.Respond? ==> Responding())
      && (!state.Respond? ==> socket.contents == "" && response.None? && !isRecovering)
    }

    /** Something is about to go wrong: the body or the socket will fail, or the timer fire. */
    ghost predicate Troubled()
      requires Valid() && state.Respond?
      reads this, Repr
    {
      CopyMayFail() || FiresNext()
    }

    ghost predicate CopyMayFail()
      requires Valid() && state.Respond?
      reads this, Repr
    {
      copier.source.End() == Broken || Faults in socket.turns
    }

    predicate FiresNext()
      reads this
    {
      timers != [] && timers[0]
    }

    /** What fails in the next poll before there is an answer: the parser, the handler, the timer, or the answer
        itself when it comes at once. */
    function NextFailure(): Option<Failure>
      reads this
    {
      if parses == [] || parses[0].NotYet? then (if FiresNext() then Some(TimedOut) else None)
      else if parses[0].Rejected? then Some(parses[0].failure)
      else if handler.Some? then handler
      else AnswerFailure()
    }

    function AnswerFailure(): Option<Failure>
      reads this
    {
      if answers != [] && answers[0].Fails? then Some(answers[0].failure) else None
    }

    /** Whether the next poll ends in an exception.  What fails while listening becomes a page unless it is one
        of the three; what fails later has nobody to catch it. */
    predicate EscapesNext()
      reads this
    {
      match state
      case Listen => NextFailure().Some? && Escapes(NextFailure().value)
      case PollResponse => AnswerFailure().Some?
      case Respond => false
    }

    /** The response the connection is to send, as long as nothing goes wrong. */
    ghost function Promised(): Option<Promise>
      reads this
    {
      match state
      case Listen =>
        if handler.Some? || FirstRequest(parses).None? || FirstAnswer(answers).None? then None
        else Some(Promise(FirstAnswer(answers).value, FirstRequest(parses).value))
      case PollResponse =>
        if FirstAnswer(answers).None? then None else Some(Promise(FirstAnswer(answers).value, IsHead()))
      case Respond =>
        if response.None? then None else Some(Promise(response.value, IsHead()))
    }

    /** Nothing will go wrong: a response that ends is on its way, the timer stays quiet and the socket does not
        fail. */
    ghost predicate Quiet()
      requires Valid()
      reads this, Repr
    {
      && Promised().Some? && true !in timers && Faults !in socket.turns
      && EndOfPromise() == Ended
    }

    ghost function EndOfPromise(): Ending
      requires Valid() && Promised().Some?
      reads this, Repr
    {
      if state.Respond? then copier.source.End() else EndingOf(Script(Promised().value.response, Promised().value.head))
    }

    /** What sending the response may still cost besides its bytes. */
    ghost function Debt(): nat
      requires Valid() && Promised().Some?
      reads this, Repr
    {
      if state.Respond? then copier.Debt() else Work(Script(Promised().value.response, Promised().value.head))
    }

    /** The socket takes more useful turns than the response can need. */
    ghost predicate Supplied()
      requires Valid() && Promised().Some?
      reads this, Repr
    {
      var p := Promised().value;
      Useful(socket.turns) + |socket.contents| > |Serialization(p.response, p.head)| + Debt()
    }

    /** The polls that may be idle before the response is out. */
    ghost function Patience(): nat
      reads this, socket
    {
      (if state.Listen? then |parses| else 0) + (if state.Respond? then 0 else |answers|) + |socket.turns|
    }

    /** The next poll gets the answer. */
    predicate AnswerComes()
      reads this
    {
      && answers != [] && answers[0].Answer?
      && (state.PollResponse? || (state.Listen? && parses != [] && parses[0].Request? && handler.None?))
    }

    constructor (socket: FileDescriptor, parses: seq<ParseEvent>, handler: Option<Failure>, answers: seq<AnswerEvent>,
                 errorPage: (Status, nat) -> Option<Response>, copyIsCgi: bool, timers: seq<bool>)
      requires socket.AtEnd() && socket.contents == ""
      ensures Valid() && state == Listen && this.socket == socket && fresh(Repr - {socket})
      ensures this.parses == parses && this.answers == answers && this.timers == timers
      ensures this.handler == handler && this.errorPage == errorPage && this.copyIsCgi == copyIsCgi && pages == 0
    {
      this.socket, this.parses, this.handler, this.answers := socket, parses, handler, answers;
      this.errorPage, this.copyIsCgi, this.timers := errorPage, copyIsCgi, timers;
      state, response, request, copier, isRecovering, byteActivity, pages := Listen, None, None, null, false, 0, 0;
      Repr := {this, socket};
    }

    /** A response to a HEAD request loses its body before anything is printed. */
    method SwitchToRespondMode(next: Response)
      requires this in Repr && socket in Repr && socket.AtEnd() && socket.contents == ""
      modifies this`response, this`copier, this`state, this`Repr
      ensures Valid() && state == Respond && response == Some(next) && fresh(Repr - old(Repr))
      ensures copier.total == Delivered(if request == Some(true) then next.bare else next.full)
      ensures copier.source.End() == EndingOf(Script(next, IsHead())) && copier.Debt() == Work(Script(next, IsHead()))
    {
      hide Delivered, EndingOf, Work, IoCopyFuture.Valid, IoCopyFuture.Debt;
      response := Some(next);
      var reader := new Reader(Script(next, IsHead()));
      copier := new IoCopyFuture(Source.Scripted(reader), socket);
      Repr := Repr + copier.Repr();
      state := Respond;
    }

    method PollTimer() returns (fired: bool)
      requires Valid()
      modifies this`timers
      ensures Valid() && fired == (old(timers) != [] && old(timers)[0])
      ensures timers == if old(timers) == [] then [] else old(timers)[1..]
    {
      fired := timers != [] && timers[0];
      timers := if timers == [] then [] else timers[1..];
    }

    /** Sends the page for `status`, unless the page handler fails. */
    method RespondWithPage(status: Status) returns (ok: bool)
      requires this in Repr && socket in Repr && socket.AtEnd() && socket.contents == ""
      modifies this`response, this`copier, this`state, this`Repr, this`pages
      ensures pages == old(pages) + 1 && ok == errorPage(status, old(pages)).Some?
      ensures ok ==> Valid() && state == Respond && response == errorPage(status, old(pages))
      ensures !ok ==> unchanged(this`response, this`copier, this`state, this`Repr)
      ensures fresh(Repr - old(Repr))
    {
      var page := errorPage(status, pages);
      pages := pages + 1;
      if page.None? {
        return false;
      }
      SwitchToRespondMode(page.value);
      return true;
    }

    /** How a poll in a quiet state ends: the response is out, or the poll waits and still has what it takes. */
    twostate predicate Served(r: ConnectionPoll, complete: bool)
      requires old(Valid()) && old(Quiet()) && Valid()
      reads this, Repr
    {
      && Promised() == old(Promised())
      && ((r.Closed? && complete) || r.Idle?)
      && (r.Idle? ==> Quiet() && (old(Supplied()) ==> Supplied() && Patience() < old(Patience())))
    }

    /** What every poll keeps: the state never goes back, recovery happens at most once and only before the
        first byte, and once a byte is out the response is fixed. */
    twostate predicate Advanced()
      reads this, Repr
    {
      && Valid()
      && Rank(old(state)) <= Rank(state) && (old(isRecovering) ==> isRecovering)
      && old(socket.contents) <= socket.contents
      && (old(socket.contents) != "" ==> response == old(response) && copier == old(copier) && request == old(request))
      && (old(state).Respond? ==> request == old(request))
      && (old(state).Respond? && (response != old(response) || copier != old(copier))
          ==> !old(isRecovering) && isRecovering)
    }

    method CopySome() returns (copy: CopyPoll)
      requires Valid() && state.Respond? && copier != null
      modifies copier.Repr()
      ensures Valid() && old(socket.contents) <= socket.contents
      ensures copy.Complete? ==> response.Some? && socket.contents == Serialization(response.value, IsHead())
      ensures copier.bytesWritten == |socket.contents|
      ensures copy.Threw? ==> old(CopyMayFail())
      ensures copy.Waiting? ==> old(socket.turns) == [] || socket.turns != old(socket.turns)
      ensures Used(socket.turns, old(socket.turns)) && copier.source.End() == old(copier.source.End())
      ensures copier.source.End() == Ended && !copy.Threw? ==>
                Useful(old(socket.turns)) + |old(socket.contents)| + copier.Debt()
                <= Useful(socket.turns) + |socket.contents| + old(copier.Debt()) + if copy.Complete? then 1 else 0
    {
      hide IoCopyFuture.Valid, Source.Left, Source.End, Serialization, IoCopyFuture.Debt, Useful, Used;
      copy := copier.Poll();
      BytesWritten(copier);
    }

    /** Bytes written since the last poll restart the inactivity timer. */
    method NoteActivity()
      requires Valid() && state.Respond? && copier != null
      modifies this`byteActivity
      ensures Valid() && byteActivity == copier.bytesWritten
    {
      if byteActivity != copier.bytesWritten {
        byteActivity := copier.bytesWritten;
      }
    }

    /** The copier failed or the timer fired: a response of which nothing is out gives way to an error page,
        once. */
    method Recover(failure: Failure) returns (ok: bool)
      requires Valid() && state.Respond? && copier != null && copier.bytesWritten == |socket.contents|
      modifies this`response, this`copier, this`state, this`Repr, this`pages, this`isRecovering
      ensures Valid() && state.Respond? && fresh(Repr - old(Repr))
      ensures ok <==>
                !old(isRecovering) && socket.contents == ""
                && errorPage(RecoveryStatus(failure), old(pages)).Some?
      ensures ok ==> isRecovering && response == errorPage(RecoveryStatus(failure), old(pages))
      ensures !ok ==> unchanged(this`response, this`copier, this`state, this`Repr, this`isRecovering)
    {
      hide IoCopyFuture.Valid, Serialization;
      if isRecovering || copier.bytesWritten > 0 {
        return false;
      }
      ok := RespondWithPage(RecoveryStatus(failure));
      if ok {
        isRecovering := true;
      }
    }

    /** Copies, and polls the timer if the copy is not over; None means there is nothing to do but wait. */
    method CopyOrTimeOut() returns (complete: bool, failure: Option<Failure>)
      requires Valid() && state.Respond?
      modifies Repr
      ensures Valid() && copier != null && copier.bytesWritten == |socket.contents|
      ensures old(socket.contents) <= socket.contents && Repr == old(Repr)
      ensures unchanged(this`state, this`response, this`request, this`copier, this`isRecovering, this`pages)
      ensures complete ==> response.Some? && socket.contents == Serialization(response.value, IsHead())
      ensures failure == Some(TimedOut) ==> old(FiresNext())
      ensures failure.Some? && failure != Some(TimedOut) ==>
                old(CopyMayFail()) && failure.value == if copyIsCgi then CgiError else Other
      ensures !complete && failure.None? ==>
                && !old(FiresNext()) && byteActivity == |socket.contents|
                && (old(socket.turns) == [] || socket.turns != old(socket.turns))
      ensures Used(socket.turns, old(socket.turns)) && copier.source.End() == old(copier.source.End())
      ensures timers == old(timers) || (old(timers) != [] && timers == old(timers)[1..])
      ensures copier.source.End() == Ended && !complete && failure.None? ==>
                Useful(old(socket.turns)) + |old(socket.contents)| + copier.Debt()
                <= Useful(socket.turns) + |socket.contents| + old(copier.Debt())
    {
      assert copier != null && copier.Repr() <= Repr && this !in copier.Repr();
      hide Responding, Serialization, Valid, IoCopyFuture.Repr, CopyMayFail, IoCopyFuture.Debt, Useful, Used;
      var copy := CopySome();
      match copy {
        case Complete => return true, None;
        case Threw => return false, Some(if copyIsCgi then CgiError else Other);
        case Waiting =>
          NoteActivity();
          var fired := PollTimer();
          return false, if fired then Some(TimedOut) else None;
      }
    }

    lemma QuietRespond()
      requires Valid() && state.Respond?
      ensures copier != null && (CopyMayFail() || FiresNext() ==> Troubled() && !Quiet())
      ensures Quiet() ==> copier.source.End() == Ended
    {
    }

    /** A copy that has to wait leaves a quiet connection quiet. */
    twostate lemma StaysQuiet()
      requires old(Valid()) && old(state).Respond? && old(Quiet()) && old(copier) != null
      requires Valid() && unchanged(`state, `response, `request, `copier)
      requires timers == old(timers) || (old(timers) != [] && timers == old(timers)[1..])
      requires Used(socket.turns, old(socket.turns)) && copier.source.End() == old(copier.source.End())
      requires old(socket.turns) == [] || socket.turns != old(socket.turns)
      requires Useful(old(socket.turns)) + |old(socket.contents)| + copier.Debt()
               <= Useful(socket.turns) + |socket.contents| + old(copier.Debt())
      ensures Served(Idle, false)
    {
      hide Valid, Responding, Serialization, IoCopyFuture.Debt, Source.End, Used;
      UsedMembers(socket.turns, old(socket.turns));
      assert forall t <- timers :: t in old(timers);
      NothingBeyond(this);
    }

    twostate lemma CopyAdvances()
      requires Valid() && unchanged(`state, `response, `request, `copier, `isRecovering)
      requires old(socket.contents) <= socket.contents
      ensures Advanced()
    {
      hide Valid;
    }

    twostate lemma ServedWhole()
      requires old(Valid()) && old(state).Respond? && old(Quiet())
      requires Valid() && unchanged(`state, `response, `request)
      ensures Served(Closed, true)
    {
      hide Valid, Quiet, Supplied, Patience;
    }

    /** The same, told by what it means: a failure is trouble that was coming, and without one a quiet connection
        has been served. */
    method CopyOn() returns (complete: bool, failure: Option<Failure>)
      requires Valid() && state.Respond?
      modifies Repr
      ensures Advanced() && copier != null && copier.bytesWritten == |socket.contents|
      ensures unchanged(this`state, this`response, this`request, this`copier, this`isRecovering) && Repr == old(Repr)
      ensures complete ==> response.Some? && socket.contents == Serialization(response.value, IsHead())
      ensures failure.Some? ==> old(Troubled()) && !old(Quiet())
      ensures Used(socket.turns, old(socket.turns))
      ensures !complete && failure.None? ==> old(socket.turns) == [] || socket.turns != old(socket.turns)
      ensures old(Quiet()) && failure.None? ==> Served(if complete then Closed else Idle, complete)
    {
      assert this in Repr && socket in Repr && copier != null;
      QuietRespond();
      hide Responding, Serialization, Valid, IoCopyFuture.Repr, CopyMayFail, Quiet, Supplied, Used, Useful,
        Source.End, IoCopyFuture.Debt, Served, Promised, Patience, Advanced, FiresNext, Troubled;
      complete, failure := CopyOrTimeOut();
      CopyAdvances();
      if complete {
        if old(Quiet()) {
          ServedWhole();
        }
      } else if failure.None? {
        if old(Quiet()) {
          StaysQuiet();
        }
      }
    }

    /** Copies until the response is out, there is nothing to do but wait, or trouble: then the connection closes or
        an error page takes over, once. */
    method PollRespond() returns (r: ConnectionPoll, complete: bool)
      requires Valid() && state.Respond?
      modifies Repr
      ensures Advanced() && state.Respond? && !r.Escaped? && fresh(Repr - old(Repr))
      ensures complete ==> r.Closed? && state.Respond? && response.Some?
      ensures complete ==> socket.contents == Serialization(response.value, IsHead())
      ensures (r.Closed? && !complete) || response != old(response) ==> old(Troubled())
      ensures Used(socket.turns, old(socket.turns))
      ensures r.Idle? ==> old(socket.turns) == [] || socket.turns != old(socket.turns)
      ensures old(Quiet()) ==> Served(r, complete)
      decreases !isRecovering, 1
    {
      assert this in Repr && socket in Repr;
      hide Responding, Serialization, Valid, IoCopyFuture.Repr, Troubled, Quiet, Supplied, Used, Served;
      var failure;
      complete, failure := CopyOn();
      if complete {
        return Closed, true;
      }
      if failure.None? {
        return Idle, false;
      }
      ghost var turns := socket.turns;
      r, complete := TakeOver(failure.value);
      UsedTwice(socket.turns, turns, old(socket.turns));
      UsedMembers(turns, old(socket.turns));
    }

    /** Goes on with the error page, or closes if there is none to be had. */
    method TakeOver(failure: Failure) returns (r: ConnectionPoll, complete: bool)
      requires Valid() && state.Respond? && copier != null && copier.bytesWritten == |socket.contents|
      modifies Repr
      ensures Advanced() && state.Respond? && !r.Escaped? && fresh(Repr - old(Repr))
      ensures complete ==> r.Closed? && state.Respond? && response.Some?
      ensures complete ==> socket.contents == Serialization(response.value, IsHead())
      ensures Used(socket.turns, old(socket.turns))
      ensures r.Idle? ==> old(socket.turns) == [] || socket.turns != old(socket.turns)
      decreases !isRecovering, 0
    {
      assert this in Repr && socket in Repr;
      hide Responding, Serialization, Valid, IoCopyFuture.Repr, Quiet, Supplied;
      var ok := Recover(failure);
      if !ok {
        return Closed, false;
      }
      r, complete := PollRespond();
    }

    /** A wait for the answer leaves a quiet connection quiet. */
    twostate lemma AnswerAwaited()
      requires old(Valid()) && old(state).PollResponse? && old(Quiet()) && old(answers) != [] && old(answers)[0].Later?
      requires Valid() && unchanged(`state, `response, `request, `timers, socket) && answers == old(answers)[1..]
      ensures Served(Idle, false)
    {
      hide Valid, Serialization, Work, EndingOf;
    }

    /** The answer starts the copy of what was promised. */
    twostate lemma AnswerGiven(next: Response)
      requires old(Valid()) && !old(state).Respond? && old(Quiet())
      requires Valid() && state.Respond? && response == Some(next) && unchanged(`timers, socket)
      requires old(Promised()) == Some(Promise(next, IsHead()))
      requires copier.source.End() == EndingOf(Script(next, IsHead())) && copier.Debt() == Work(Script(next, IsHead()))
      ensures Quiet() && Promised() == old(Promised()) && Supplied() == old(Supplied())
      ensures Patience() <= old(Patience())
    {
      hide Valid, Responding, Serialization, Work, EndingOf, Script, IoCopyFuture.Debt, Source.End;
    }

    /** The answer is there: it becomes the response, and the copy begins. */
    method TakeAnswer() returns (r: ConnectionPoll, complete: bool)
      requires Valid() && state.PollResponse? && answers != [] && answers[0].Answer?
      modifies Repr
      ensures Advanced() && state.Respond? && !r.Escaped? && fresh(Repr - old(Repr))
      ensures complete ==> r.Closed? && response.Some?
      ensures complete ==> socket.contents == Serialization(response.value, IsHead())
      ensures request == old(request) && (isRecovering || response == Some(old(answers)[0].response))
      ensures old(Quiet()) ==> Served(r, complete)
    {
      assert this in Repr;
      hide Responding, Serialization, Valid, IoCopyFuture.Repr, Quiet, Supplied, Promised, Patience;
      BeginAnswer();
      r, complete := PollRespond();
    }

    method BeginAnswer()
      requires Valid() && state.PollResponse? && answers != [] && answers[0].Answer?
      modifies this`answers, this`response, this`copier, this`state, this`Repr
      ensures Valid() && state.Respond? && response == Some(old(answers)[0].response) && fresh(Repr - old(Repr))
      ensures socket.contents == "" && !isRecovering
      ensures old(Quiet()) ==>
                && Quiet() && Promised() == old(Promised()) && Patience() <= old(Patience())
                && Supplied() == old(Supplied())
    {
      var next := answers[0].response;
      answers := answers[1..];
      SwitchToRespondMode(next);
      if old(Quiet()) {
        AnswerGiven(next);
      }
    }

    /** Waits for the answer; a failure leaves the poll as an exception. */
    method PollAnswer() returns (r: ConnectionPoll, complete: bool, failure: Failure)
      requires Valid() && state.PollResponse?
      modifies Repr
      ensures Advanced() && !state.Listen? && fresh(Repr - old(Repr))
      ensures complete ==> r.Closed? && state.Respond? && response.Some?
      ensures complete ==> socket.contents == Serialization(response.value, IsHead())
      ensures r.Escaped? ==> state.PollResponse? && pages == old(pages)
      ensures r.Escaped? <==> old(AnswerFailure()).Some?
      ensures r.Escaped? ==> failure == old(AnswerFailure()).value
      ensures old(AnswerComes()) ==>
                state.Respond? && (isRecovering || response == Some(old(answers)[0].response))
      ensures !old(AnswerComes()) ==> state.PollResponse? && unchanged(socket)
      ensures request == old(request)
      ensures old(Quiet()) ==> Served(r, complete)
    {
      failure := Other;
      complete := false;
      var event := if answers == [] then Later else answers[0];
      match event {
        case Answer(_) =>
          hide Responding, Serialization, Valid, Quiet, Supplied, Promised, Patience;
          r, complete := TakeAnswer();
        case Later =>
          answers := if answers == [] then [] else answers[1..];
          if old(Quiet()) {
            AnswerAwaited();
          }
          return Idle, false, failure;
        case Fails(f) =>
          answers := answers[1..];
          return Escaped, false, f;
      }
    }

    /** The parser's event, with the handler's refusal and the timer counted as failures. */
    method Hear() returns (event: ParseEvent)
      requires Valid() && state.Listen?
      modifies this`parses, this`timers, this`request, this`state
      ensures Valid() && Rank(old(state)) <= Rank(state)
      ensures event.Rejected? || event.NotYet? ==> state.Listen?
      ensures event.Request? ==> state.PollResponse? && request == Some(event.head) && handler.None?
      ensures old(parses) != [] && old(parses)[0].Rejected? ==> event == old(parses)[0]
      ensures old(parses) != [] && old(parses)[0].Request? ==>
                event == if handler.Some? then Rejected(handler.value) else old(parses)[0]
      ensures parses == if old(parses) == [] then [] else old(parses)[1..]
      ensures old(parses) != [] && old(parses)[0].Request? ==>
                request == Some(old(parses)[0].head) && timers == old(timers)
      ensures event.NotYet? ==> request == old(request) && timers == if old(timers) == [] then [] else old(timers)[1..]
      ensures old(parses) == [] || old(parses)[0].NotYet? ==>
                event == if old(timers) != [] && old(timers)[0] then Rejected(TimedOut) else NotYet
    {
      event := if parses == [] then NotYet else parses[0];
      parses := if parses == [] then [] else parses[1..];
      match event {
        case Rejected(_) =>
        case Request(head) =>
          request := Some(head);
          if handler.Some? {
            return Rejected(handler.value);
          }
          state := PollResponse;
        case NotYet =>
          var fired := PollTimer();
          if fired {
            return Rejected(TimedOut);
          }
      }
    }

    /** Before a response exists, a failure is answered by its page, unless it escapes the handlers. */
    method Answered(failure: Failure) returns (r: ConnectionPoll, complete: bool)
      requires Valid() && !state.Respond?
      modifies Repr
      ensures Advanced() && fresh(Repr - old(Repr))
      ensures complete ==> r.Closed? && state.Respond? && response.Some?
      ensures complete ==> socket.contents == Serialization(response.value, IsHead())
      ensures r.Escaped? <==> Escapes(failure)
      ensures state.Respond? <==> !Escapes(failure) && errorPage(ListenStatus(failure), old(pages)).Some?
      ensures state.Respond? && !isRecovering ==> response == errorPage(ListenStatus(failure), old(pages))
    {
      assert this in Repr && socket in Repr;
      if Escapes(failure) {
        return Escaped, false;
      }
      var ok := RespondWithPage(ListenStatus(failure));
      if !ok {
        return Closed, false;
      }
      assert socket.contents == "";
      hide Responding, Serialization, Valid, IoCopyFuture.Repr;
      r, complete := PollRespond();
    }

    /** A wait for the request leaves a quiet connection quiet. */
    twostate lemma RequestAwaited()
      requires old(Valid()) && old(state).Listen? && old(Quiet()) && old(parses) != [] && old(parses)[0].NotYet?
      requires Valid() && unchanged(`state, `response, `request, `answers, socket) && parses == old(parses)[1..]
      requires timers == if old(timers) == [] then [] else old(timers)[1..]
      ensures Served(Idle, false)
    {
      hide Valid, Serialization, Work, EndingOf, FirstAnswer;
    }

    /** So does the request. */
    twostate lemma RequestHeard()
      requires old(Valid()) && old(state).Listen? && old(Quiet()) && old(parses) != [] && old(parses)[0].Request?
      requires Valid() && state.PollResponse? && unchanged(`response, `answers, `timers, socket)
      requires request == Some(old(parses)[0].head)
      ensures Quiet() && Promised() == old(Promised()) && Supplied() == old(Supplied())
      ensures Patience() <= old(Patience())
    {
      hide Valid, Serialization, Work, EndingOf, FirstAnswer;
    }

    /** The parser's event, which leaves a quiet connection quiet. */
    method HearOn() returns (event: ParseEvent)
      requires Valid() && state.Listen?
      modifies this`parses, this`timers, this`request, this`state
      ensures Valid() && Rank(old(state)) <= Rank(state)
      ensures event.Rejected? || event.NotYet? ==> state.Listen?
      ensures event.Request? ==> state.PollResponse? && request == Some(event.head) && handler.None?
      ensures old(parses) != [] && old(parses)[0].Rejected? ==> event == old(parses)[0]
      ensures old(parses) != [] && old(parses)[0].Request? ==>
                event == if handler.Some? then Rejected(handler.value) else old(parses)[0]
      ensures old(parses) == [] || old(parses)[0].NotYet? ==>
                event == if old(FiresNext()) then Rejected(TimedOut) else NotYet
      ensures old(Quiet()) ==> !event.Rejected? && (event.NotYet? ==> Served(Idle, false))
      ensures old(Quiet()) && event.Request? ==>
                && Quiet() && Promised() == old(Promised()) && Supplied() == old(Supplied())
                && Patience() <= old(Patience())
    {
      event := Hear();
      if old(Quiet()) {
        if event.NotYet? {
          RequestAwaited();
        } else {
          RequestHeard();
        }
      }
    }

    method PollListen() returns (r: ConnectionPoll, complete: bool)
      requires Valid() && state.Listen?
      modifies Repr
      ensures Advanced() && fresh(Repr - old(Repr)) && (r.Escaped? ==> !state.Respond?)
      ensures complete ==> r.Closed? && state.Respond? && response.Some?
      ensures complete ==> socket.contents == Serialization(response.value, IsHead())
      ensures old(parses) != [] && old(parses)[0].Rejected? ==>
                var f, page := old(parses)[0].failure, errorPage(ListenStatus(old(parses)[0].failure), old(pages));
                && (r.Escaped? <==> Escapes(f)) && (state.Respond? <==> !Escapes(f) && page.Some?)
                && (state.Respond? && !isRecovering ==> response == page)
      ensures r.Escaped? <==> old(EscapesNext())
      ensures old(AnswerComes()) ==>
                && state.Respond? && request == Some(old(parses)[0].head)
                && (isRecovering || response == Some(old(answers)[0].response))
      ensures old(Quiet()) ==> Served(r, complete)
    {
      assert this in Repr && socket in Repr && socket.contents == "";
      hide Responding, Serialization, Valid, IoCopyFuture.Repr, Quiet, Supplied, Promised, Patience;
      var event := HearOn();
      match event {
        case NotYet => return Idle, false;
        case Rejected(failure) => r, complete := Answered(failure);
        case Request(_) =>
          var failure;
          r, complete, failure := PollAnswer();
          if r.Escaped? {
            r, complete := Answered(failure);
          }
      }
    }

    /** One poll of the connection.  Closed ends it; what escapes leaves nothing on the socket.  A response is cut
        off or replaced only after trouble. */
    method Poll() returns (r: ConnectionPoll, complete: bool)
      requires Valid()
      modifies Repr
      ensures Advanced() && fresh(Repr - old(Repr)) && (r.Escaped? ==> !state.Respond?)
      ensures complete ==> r.Closed? && state.Respond? && response.Some?
      ensures complete ==> socket.contents == Serialization(response.value, IsHead())
      ensures old(state).Respond? && ((r.Closed? && !complete) || response != old(response)) ==> old(Troubled())
      ensures r.Escaped? <==> old(EscapesNext())
      ensures old(AnswerComes()) ==>
                && state.Respond? && (isRecovering || response == Some(old(answers)[0].response))
                && request == if old(state).Listen? then Some(old(parses)[0].head) else old(request)
      ensures old(state).Respond? && r.Idle? ==> old(socket.turns) == [] || socket.turns != old(socket.turns)
      ensures old(Quiet()) ==> Served(r, complete)
    {
      hide Responding, Serialization, IoCopyFuture.Repr, CopyMayFail;
      match state {
        case Listen =>
          r, complete := PollListen();
        case PollResponse =>
          var failure;
          r, complete, failure := PollAnswer();
        case Respond =>
          r, complete := PollRespond();
      }
    }
  }

  /** At any time the peer has seen a prefix of the response in force, and nothing before there is one. */
  lemma SeenIsPrefix(connection: ConnectionFuture)
    requires connection.Valid()
    ensures connection.socket.contents != "" ==> connection.response.Some?
    ensures connection.response.Some? ==>
              connection.socket.contents <= Serialization(connection.response.value, connection.IsHead())
  {
    if connection.state.Respond? {
      var copier := connection.copier;
      assert copier.before + copier.total == copier.total;
      assert copier.writer.contents + copier.Unsent() + copier.source.Left() == copier.total;
    }
  }

  lemma PrintsWhole(p: Promise)
    ensures Serialization(p.response, p.head) == Delivered(if p.head then p.response.bare else p.response.full)
  {
  }

  lemma QuietPromises(connection: ConnectionFuture)
    requires connection.Valid()
    ensures connection.Quiet() ==> connection.Promised().Some?
  {
  }

  /** Without a useful turn left and with the response not out, something is still owed. */
  lemma NothingBeyond(connection: ConnectionFuture)
    requires connection.Valid() && connection.Promised().Some?
    ensures var p := connection.Promised().value;
      |connection.socket.contents| <= |Serialization(p.response, p.head)|
  {
    SeenIsPrefix(connection);
  }

  /** Polls a connection `rounds` times or until it is over.  Everything the peer saw along the way is a prefix
      of one response: the last one. */
  method Serve(connection: ConnectionFuture, rounds: nat) returns (over: bool, complete: bool, ghost seen: seq<string>)
    requires connection.Valid()
    modifies connection.Repr
    ensures connection.Valid()
    ensures over || |seen| == rounds + 1
    ensures seen != [] && seen[0] == old(connection.socket.contents)
    ensures seen[|seen| - 1] == connection.socket.contents
    ensures forall i | 0 <= i < |seen| :: seen[i] <= connection.socket.contents
    ensures connection.socket.contents != "" ==>
              && connection.response.Some?
              && forall i | 0 <= i < |seen| :: seen[i] <= Serialization(connection.response.value, connection.IsHead())
    ensures complete ==>
              && connection.response.Some?
              && seen[|seen| - 1] == Serialization(connection.response.value, connection.IsHead())
    ensures old(connection.Quiet() && connection.Supplied()) && rounds > old(connection.Patience()) ==>
              var p := old(connection.Promised()).value;
              && over && complete
              && connection.socket.contents == Delivered(if p.head then p.response.bare else p.response.full)
  {
    hide ConnectionFuture.Valid, ConnectionFuture.Responding, Serialization, ConnectionFuture.Quiet,
      ConnectionFuture.Supplied, ConnectionFuture.Patience, ConnectionFuture.EndOfPromise, ConnectionFuture.Debt;
    QuietPromises(connection);
    if old(connection.Promised()).Some? {
      PrintsWhole(old(connection.Promised()).value);
    }
    seen := [connection.socket.contents];
    over, complete := false, false;
    var k := 0;
    while k < rounds && !over
      invariant connection.Valid() && fresh(connection.Repr - old(connection.Repr))
      invariant k <= rounds && (!over ==> |seen| == k + 1)
      invariant old(connection.Quiet()) ==>
                  && old(connection.Promised()).Some? && connection.Promised() == old(connection.Promised())
                  && (over ==> complete)
                  && (!over ==> connection.Quiet())
                  && (old(connection.Supplied()) && !over ==>
                        connection.Supplied() && k + connection.Patience() <= old(connection.Patience()))
      invariant seen != [] && seen[0] == old(connection.socket.contents)
      invariant seen[|seen| - 1] == connection.socket.contents
      invariant forall i | 0 <= i < |seen| :: seen[i] <= connection.socket.contents
      invariant complete ==>
                  && over && connection.state.Respond? && connection.response.Some?
                  && connection.socket.contents == Serialization(connection.response.value, connection.IsHead())
    {
      var r;
      r, complete := connection.Poll();
      over := !r.Idle?;
      seen := seen + [connection.socket.contents];
      k := k + 1;
    }
    SeenIsPrefix(connection);
  }

  lemma BytesWritten(copier: IoCopyFuture)
    requires copier.Valid()
    ensures |copier.writer.contents| == |copier.before| + copier.bytesWritten && copier.writer.AtEnd()
  {
  }
}
