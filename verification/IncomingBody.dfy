/** A message body that moves from memory to a temporary file once it grows large. */
module IncomingBodies {
  import opened AsyncIo
  import opened SpanReaders
  import opened IoCopyFutures

  const SWITCH_TEMPORARY_SIZE: nat := 3000000

  datatype BodyType = VectorBody | TemporaryBody

  // What a poll gives the caller: it waits, it has a result, or the copy to the file failed.
  datatype WritePoll = Waits | Done(result: IoResult) | Failed

  class IncomingBody {
    var bodyType: BodyType
    var size: nat
    var converting: bool
    var vector: string
    var span: SpanReader?
    var file: FileDescriptor?
    var copy: IoCopyFuture?
    var shouldRewind: bool
    // The turns the temporary file will take once it is opened.
    const fileTurns: seq<Turn>
    // Whether reading has begun, and how far it has come.
    ghost var reading: bool
    ghost var position: nat

    ghost var Repr: set<object>

    /** The bytes accepted so far. */
    ghost function Contents(): string
      reads this, file
    {
      if bodyType.VectorBody? || file == null then vector else file.contents
    }

    ghost predicate CopyValid()
      reads this, Repr
    {
      && copy != null && file != null && span != null
      && copy.Repr() <= Repr && this !in copy.Repr() && copy.Valid() && copy.Rested()
      && copy.writer == file && copy.source == Source.Span(span)
      && copy.before == "" && copy.total == vector
    }

    ghost predicate Valid()
      reads this, Repr
    {
      && this in Repr && (span != null ==> span in Repr) && (file != null ==> file in Repr)
      && size == |Contents()|
      && position <= size && (!reading ==> position == 0)
      && (converting ==> bodyType.VectorBody? && !reading && shouldRewind && CopyValid())
      && (bodyType.VectorBody? && !converting ==> copy == null && file == null)
      && (bodyType.VectorBody? && !converting ==> (reading <==> span != null))
      && (bodyType.VectorBody? && reading ==> span.inner == vector[position..])
      && (bodyType.TemporaryBody? ==> copy == null && span == null && file != null && file.Valid())
      && (bodyType.TemporaryBody? && !reading ==> shouldRewind && file.AtEnd())
      && (bodyType.TemporaryBody? && reading ==> !shouldRewind && file.offset == position)
    }

    /** The turns still to come, on the file that is open or on the one that would be. */
    function Turns(): seq<Turn>
      reads this, file
    {
      if file == null then fileTurns else file.turns
    }

    /** The useful turns beyond those it takes to move what is in memory to the file. */
    ghost function Slack(): int
      reads this, file
    {
      Useful(Turns())
      - if bodyType.VectorBody? then |vector| - (if file == null then 0 else |file.contents|) + 1 else 0
    }

    constructor (buffer: string, fileTurns: seq<Turn>)
      ensures Valid() && fresh(Repr) && vector == Contents() == buffer && !reading && !converting
      ensures bodyType == VectorBody && Turns() == fileTurns && Slack() == Useful(fileTurns) - |buffer| - 1
    {
      bodyType, size, converting, vector, shouldRewind := VectorBody, |buffer|, false, buffer, false;
      span, file, copy := null, null, null;
      this.fileTurns := fileTurns;
      reading, position, Repr := false, 0, {this};
    }

    /** Opens the file and sets up a copy of the vector to it. */
    method OpenCopy()
      requires this in Repr
      modifies this`span, this`file, this`copy, this`Repr
      ensures CopyValid() && span in Repr && this in Repr && fresh(Repr - old(Repr))
      ensures file != null && file.turns == fileTurns && file.contents == ""
    {
      hide IoCopyFuture.Valid, IoCopyFuture.Conserved;
      span := new SpanReader(vector);
      file := new FileDescriptor(fileTurns);
      copy := new IoCopyFuture(Source.Span(span), file);
      Repr := Repr + {span, file} + copy.Repr();
    }

    /** From now on the vector is being copied to a file. */
    method BeginConverting()
      requires Valid() && bodyType.VectorBody? && !converting && !reading && shouldRewind
      modifies this
      ensures Valid() && converting && !reading && Contents() == old(Contents()) && fresh(Repr - old(Repr))
      ensures Turns() == old(Turns()) && Slack() == old(Slack()) && shouldRewind
    {
      hide IoCopyFuture.Valid, Useful;
      converting := true;
      OpenCopy();
      assert file in Repr;
      hide CopyValid;
    }

    /** Drives the copy; once it is complete the file holds exactly the vector and takes its place. */
    method Convert() returns (r: CopyPoll)
      requires Valid() && converting
      modifies Repr
      ensures r.Threw? ==> Faults in old(Turns())
      ensures !r.Threw? ==> Valid() && !reading && shouldRewind && Contents() == old(Contents())
      ensures r.Waiting? ==> old(Turns()) == [] || Turns() != old(Turns())
      ensures if r.Complete? then bodyType.TemporaryBody? else converting && bodyType == old(bodyType)
      ensures !r.Threw? ==> Slack() >= old(Slack())
      ensures Repr <= old(Repr) && Used(Turns(), old(Turns()))
    {
      hide Source.Left, IoCopyFuture.Conserved, Useful;
      r := copy.Poll();
      if r.Complete? {
        converting := false;
        bodyType := TemporaryBody;
        vector := "";
        span, copy := null, null;
      }
    }

    /** In memory the whole buffer is appended. */
    method WriteToVector(buffer: array<char>)
      requires Valid() && bodyType.VectorBody? && !converting && !reading
      modifies this`vector, this`size
      ensures Valid() && Contents() == old(Contents()) + buffer[..] && Slack() + buffer.Length == old(Slack())
    {
      vector := vector + buffer[..];
      size := size + buffer.Length;
    }

    /** The file accepts a prefix of the buffer; the count of a failed transfer is never set. */
    method WriteToFile(buffer: array<char>) returns (r: Poll<IoResult>)
      requires Valid() && bodyType.TemporaryBody? && !reading
      modifies file, this`size
      ensures r != Ready(Error) ==> Valid()
      ensures r.Pending? || r == Ready(Error) ==> Contents() == old(Contents())
      ensures r.Ready? && r.value != Error ==>
                var n := if r.value.Success? then r.value.count else 0;
                n <= buffer.Length && (r.value.Success? ==> 0 < n) && Contents() == old(Contents()) + buffer[..n]
      ensures r == Ready(Error) ==> Faults in old(Turns())
      ensures Turns() == if old(Turns()) == [] then [] else old(Turns())[1..]
      ensures buffer.Length > 0 && r != Ready(Error) ==> Slack() + |Contents()| >= old(Slack() + |Contents()|)
    {
      r := file.PollWrite(buffer, 0, buffer.Length);
      if r.Ready? {
        match r.value {
          case Eof =>
          case Success(count) => size := size + count;
          case Error =>
            var count: nat :| true;
            size := size + count;
        }
      }
    }

    /** What a write does: it waits with the contents unchanged, or appends a prefix of the buffer, in memory
        the whole of it; only a refusal by the file makes it fail. */
    twostate predicate Written(buffer: array<char>, r: WritePoll)
      reads this, Repr, file, buffer
    {
      && Used(Turns(), old(Turns()))
      && (r.Failed? || r == Done(Error) ==> Faults in old(Turns()))
      && (!r.Failed? && r != Done(Error) ==> Valid() && !reading)
      && (r.Waits? ==> Contents() == old(Contents()))
      && (r.Waits? || (r == Done(Eof) && buffer.Length > 0) ==> old(Turns()) == [] || Turns() != old(Turns()))
      && (r.Done? && r.result != Error ==>
            var n := if r.result.Success? then r.result.count else 0;
            && n <= buffer.Length && (r.result.Success? ==> 0 < n)
            && Contents() == old(Contents()) + buffer[..n]
            && !converting && (bodyType.VectorBody? ==> n == buffer.Length))
      && (buffer.Length > 0 && !r.Failed? && r != Done(Error) ==>
            Slack() + |Contents()| >= old(Slack() + |Contents()|))
      && (old(bodyType.VectorBody? && !converting && |vector| + buffer.Length < SWITCH_TEMPORARY_SIZE) ==>
            r == Done(Transferred(buffer.Length)) && bodyType.VectorBody? && vector == old(vector) + buffer[..])
      && (old(Moving(buffer.Length)) && !r.Failed? && r != Done(Error) ==> bodyType.TemporaryBody? || converting)
    }

    /** On its way to the file, there already, or too large with `more` bytes to stay in memory. */
    predicate Moving(more: nat)
      reads this
    {
      bodyType.TemporaryBody? || converting || |vector| + more >= SWITCH_TEMPORARY_SIZE
    }

    method WriteConverting(buffer: array<char>) returns (r: WritePoll)
      requires Valid() && !reading && shouldRewind && buffer !in Repr && converting
      modifies Repr
      ensures Repr <= old(Repr) && Written(buffer, r)
      decreases 1, 0
    {
      hide Valid, CopyValid, IoCopyFuture.Repr, Used, Contents, Turns, Slack;
      ghost var turns := Turns();
      var poll := Convert();
      if poll.Threw? {
        return Failed;
      }
      if poll.Complete? {
        ghost var next := Turns();
        r := Write(buffer);
        UsedTwice(Turns(), next, turns);
        return;
      }
      return Waits;
    }

    method Write(buffer: array<char>) returns (r: WritePoll)
      requires Valid() && !reading && shouldRewind && buffer !in Repr
      modifies Repr
      ensures fresh(Repr - old(Repr)) && Written(buffer, r)
      ensures old(bodyType.TemporaryBody? || converting) ==> Repr <= old(Repr)
      decreases if bodyType.VectorBody? then 1 else 0, if converting then 1 else 2
    {
      assert bodyType.TemporaryBody? ==> file != null && file in Repr;
      assert this in Repr;
      hide Valid, CopyValid, IoCopyFuture.Repr, Slack;
      match bodyType {
        case VectorBody =>
          if converting {
            r := WriteConverting(buffer);
            return;
          }
          if buffer.Length + |vector| >= SWITCH_TEMPORARY_SIZE {
            BeginConverting();
            r := WriteConverting(buffer);
            return;
          }
          WriteToVector(buffer);
          assert buffer[..] == buffer[..buffer.Length];
          return Done(Transferred(buffer.Length));
        case TemporaryBody =>
          var poll := WriteToFile(buffer);
          if poll.Pending? {
            return Waits;
          }
          return Done(poll.value);
      }
    }

    /** A write of the client; without an error from the file the size is the number of bytes accepted. */
    method PollWrite(buffer: array<char>) returns (r: WritePoll)
      requires Valid() && !reading && buffer !in Repr
      modifies Repr
      ensures fresh(Repr - old(Repr)) && Written(buffer, r)
    {
      shouldRewind := true;
      assert Valid() && Repr == old(Repr) && Turns() == old(Turns()) && Contents() == old(Contents());
      hide Valid, Turns, Contents, Used, Slack;
      r := Write(buffer);
    }

    method BeginReading()
      requires Valid() && !converting
      modifies this, file
      ensures Valid() && !converting && reading && Contents() == old(Contents()) && position == old(position)
      ensures bodyType == old(bodyType) && file == old(file) && Turns() == old(Turns())
      ensures fresh(Repr - old(Repr))
    {
      match bodyType {
        case VectorBody =>
          if span == null {
            span := new SpanReader(vector[..size]);
            Repr := Repr + {span};
          }
        case TemporaryBody =>
          if shouldRewind {
            shouldRewind := false;
            file.Rewind();
          }
      }
      reading := true;
    }

    method ReadVector(buffer: array<char>) returns (r: Poll<IoResult>)
      requires Valid() && reading && bodyType.VectorBody? && !converting
      modifies span, this`position, buffer
      ensures Valid() && position <= size == |Contents()|
      ensures r.Ready? && r.value.Success? ==>
                && 0 < r.value.count <= buffer.Length && position == old(position) + r.value.count
                && buffer[..r.value.count] == Contents()[old(position)..position]
      ensures !(r.Ready? && r.value.Success?) ==> position == old(position)
      ensures r.Ready? && (r.value == Eof ==> buffer.Length == 0 || position == size) && r.value != Error
    {
      r := span.PollRead(buffer, 0, buffer.Length);
      if r.value.Success? {
        position := position + r.value.count;
      }
    }

    method ReadFile(buffer: array<char>) returns (r: Poll<IoResult>)
      requires Valid() && reading && bodyType.TemporaryBody?
      modifies file, this`position, buffer
      ensures Valid() && Contents() == old(Contents()) && position <= size == |Contents()|
      ensures r.Ready? && r.value.Success? ==>
                && 0 < r.value.count <= buffer.Length && position == old(position) + r.value.count
                && buffer[..r.value.count] == Contents()[old(position)..position]
      ensures !(r.Ready? && r.value.Success?) ==> position == old(position)
      ensures r == Ready(Eof) ==> buffer.Length == 0 || position == size
      ensures r == Ready(Error) ==> Faults in old(Turns())
      ensures Turns() == if old(Turns()) == [] then [] else old(Turns())[1..]
      ensures Useful(old(Turns())) + old(position) <= Useful(Turns()) + position + if r == Ready(Eof) then 1 else 0
    {
      r := file.PollRead(buffer);
      if r.Ready? && r.value.Success? {
        position := position + r.value.count;
      }
    }

    /** Reads the accepted bytes in order from the beginning. */
    method PollRead(buffer: array<char>) returns (r: Poll<IoResult>)
      requires Valid() && !converting && buffer !in Repr
      modifies Repr, buffer
      ensures Valid() && !converting && reading && Contents() == old(Contents()) && fresh(Repr - old(Repr))
      ensures r.Ready? && r.value.Success? ==>
                && 0 < r.value.count <= buffer.Length && position == old(position) + r.value.count
                && buffer[..r.value.count] == Contents()[old(position)..position]
      ensures !(r.Ready? && r.value.Success?) ==> position == old(position)
      ensures position <= |Contents()| && (r == Ready(Eof) ==> buffer.Length == 0 || position == |Contents()|)
      ensures r == Ready(Error) ==> Faults in old(Turns())
      ensures bodyType == old(bodyType) && (bodyType.VectorBody? ==> r.Ready? && r.value != Error)
      ensures Used(Turns(), old(Turns())) && (r.Pending? ==> old(Turns()) == [] || Turns() != old(Turns()))
      ensures Useful(old(Turns())) + old(position) <= Useful(Turns()) + position + if r == Ready(Eof) then 1 else 0
    {
      assert bodyType.VectorBody? ==> file == null;
      BeginReading();
      assert bodyType.VectorBody? ==> span != null && file == null;
      assert bodyType.TemporaryBody? ==> file != null;
      assert position <= size == |Contents()|;
      hide Valid, CopyValid, IoCopyFuture.Repr, Useful;
      match bodyType {
        case VectorBody =>
          r := ReadVector(buffer);
        case TemporaryBody =>
          r := ReadFile(buffer);
      }
    }
  }

  // How a driver ends: everything moved, the file's turns used up, or an error.
  datatype Outcome = Moved | Stuck | Broke

  /** Offers the bytes once; tells how many were taken. */
  method Offer(body: IncomingBody, rest: string) returns (r: WritePoll, n: nat)
    requires body.Valid() && !body.reading && rest != ""
    modifies body.Repr
    ensures fresh(body.Repr - old(body.Repr))
    ensures |body.Turns()| <= |old(body.Turns())| && (Faults in body.Turns() ==> Faults in old(body.Turns()))
    ensures n == 0 && !r.Failed? && r != Done(Error) ==> old(body.Turns()) == [] || |body.Turns()| < |old(body.Turns())|
    ensures r.Failed? || r == Done(Error) ==> n == 0 && Faults in old(body.Turns())
    ensures !r.Failed? && r != Done(Error) ==>
              && body.Valid() && !body.reading && n <= |rest|
              && body.Contents() == old(body.Contents()) + rest[..n]
    ensures n == if r.Done? && r.result.Success? then r.result.count else 0
    ensures n > 0 ==> !body.converting
    ensures !r.Failed? && r != Done(Error) ==> body.Slack() + n >= old(body.Slack())
    ensures old(InMemory(body, |rest|)) ==>
              r == Done(Success(|rest|)) && InMemory(body, 0) && body.vector == old(body.vector) + rest
  {
    hide IncomingBody.Valid, IncomingBody.Contents, IncomingBody.Turns, IncomingBody.Slack, Used;
    ghost var turns := body.Turns();
    var buffer := new char[|rest|](i requires 0 <= i < |rest| => rest[i]);
    assert buffer[..] == rest;
    r := body.PollWrite(buffer);
    assert buffer[..] == rest;
    UsedMembers(body.Turns(), turns);
    n := if r.Done? && r.result.Success? then r.result.count else 0;
    if n > 0 {
      assert buffer[..n] == buffer[..][..n];
    } else {
      assert body.Contents() == old(body.Contents()) || r.Failed? || r == Done(Error);
      assert rest[..n] == "";
    }
  }

  /** The body is in memory and stays there if `more` bytes are added. */
  ghost predicate InMemory(body: IncomingBody, more: nat)
    reads body
  {
    body.bodyType.VectorBody? && !body.converting && |body.vector| + more < SWITCH_TEMPORARY_SIZE
  }

  lemma NothingUseful(body: IncomingBody)
    requires body.Valid() && body.Turns() == []
    ensures body.Slack() <= 0
  {
    if body.converting {
      assert body.copy.Valid();
      assert body.copy.Conserved(body.file.contents);
    }
  }

  /** Offers every byte, and the rest again after a partial write. */
  method WriteAll(body: IncomingBody, data: string) returns (outcome: Outcome)
    requires body.Valid() && !body.reading
    modifies body.Repr
    ensures fresh(body.Repr - old(body.Repr))
    ensures outcome.Moved? ==> body.Valid() && !body.reading && body.Contents() == old(body.Contents()) + data
    ensures outcome.Moved? && (data != "" || !old(body.converting)) ==> !body.converting
    ensures outcome.Broke? ==> Faults in old(body.Turns())
    ensures Faults in body.Turns() ==> Faults in old(body.Turns())
    ensures outcome.Moved? ==> body.Slack() + |data| >= old(body.Slack())
    ensures outcome.Stuck? ==> body.Turns() == [] && old(body.Slack()) < |data|
    ensures old(InMemory(body, |data|)) ==>
              outcome.Moved? && InMemory(body, 0) && body.vector == old(body.vector) + data
    decreases |data|, |body.Turns()|
  {
    if data == "" {
      return Moved;
    }
    hide IncomingBody.Valid, IncomingBody.Contents, IncomingBody.Turns, IncomingBody.Slack, InMemory;
    ghost var contents := body.Contents();
    var r, n := Offer(body, data);
    if r.Failed? || r == Done(Error) {
      return Broke;
    }
    assert contents + data[..n] + data[n..] == contents + data;
    if n == |data| {
      assert data[..n] == data;
      return Moved;
    }
    if n == 0 && body.Turns() == [] {
      NothingUseful(body);
      return Stuck;
    }
    outcome := WriteAll(body, data[n..]);
  }

  /** One read of at most `room` bytes. */
  method ReadSome(body: IncomingBody, room: nat) returns (r: Poll<IoResult>, piece: string)
    requires body.Valid() && !body.converting && 0 < room
    modifies body.Repr
    ensures body.Valid() && !body.converting && body.Contents() == old(body.Contents())
    ensures fresh(body.Repr - old(body.Repr)) && old(body.position) <= body.position == old(body.position) + |piece|
    ensures body.position <= |body.Contents()| && piece == body.Contents()[old(body.position)..body.position]
    ensures r == Ready(Eof) ==> body.position == |body.Contents()|
    ensures piece != "" <==> r.Ready? && r.value.Success?
    ensures |body.Turns()| <= |old(body.Turns())| && (Faults in body.Turns() ==> Faults in old(body.Turns()))
    ensures r.Pending? ==> old(body.Turns()) == [] || |body.Turns()| < |old(body.Turns())|
    ensures r == Ready(Error) ==> Faults in old(body.Turns())
    ensures body.bodyType == old(body.bodyType) && (body.bodyType.VectorBody? ==> r.Ready? && r.value != Error)
    ensures Useful(old(body.Turns())) + old(body.position)
            <= Useful(body.Turns()) + body.position + if r == Ready(Eof) then 1 else 0
  {
    hide IncomingBody.Contents, IncomingBody.Valid, IncomingBody.Turns, Used, Useful;
    ghost var turns := body.Turns();
    var buffer := new char[room];
    r := body.PollRead(buffer);
    UsedMembers(body.Turns(), turns);
    piece := "";
    if r.Ready? && r.value.Success? {
      piece := buffer[..r.value.count];
    }
  }

  /** Reads from where the last read ended to the end of the body. */
  method ReadAll(body: IncomingBody, room: nat) returns (outcome: Outcome, data: string)
    requires body.Valid() && !body.converting && 0 < room
    modifies body.Repr
    ensures body.Valid() && body.Contents() == old(body.Contents())
    ensures old(body.position) <= |body.Contents()|
    ensures data <= body.Contents()[old(body.position)..]
    ensures outcome.Moved? ==> data == body.Contents()[old(body.position)..]
    ensures outcome.Broke? ==> Faults in old(body.Turns())
    ensures old(body.bodyType).VectorBody? ==> outcome.Moved?
    ensures outcome.Stuck? ==>
              body.Turns() == [] && Useful(old(body.Turns())) <= |body.Contents()| - old(body.position)
    decreases |body.Contents()| - body.position, |body.Turns()|
  {
    assert Useful([]) == 0;
    hide IncomingBody.Valid, IncomingBody.Contents, IncomingBody.Turns, Useful;
    var r, piece := ReadSome(body, room);
    if r.Pending? {
      if body.Turns() == [] {
        return Stuck, "";
      }
      outcome, data := ReadAll(body, room);
      return;
    }
    match r.value {
      case Error => return Broke, "";
      case Eof =>
        assert old(body.position) == |body.Contents()|;
        return Moved, "";
      case Success(n) =>
        ghost var from, position, contents := old(body.position), body.position, body.Contents();
        outcome, data := ReadAll(body, room);
        assert contents[from..] == piece + contents[position..];
        data := piece + data;
    }
  }

  method WriteEach(body: IncomingBody, chunks: seq<string>) returns (outcome: Outcome)
    requires body.Valid() && !body.reading && !body.converting
    modifies body.Repr
    ensures fresh(body.Repr - old(body.Repr)) && (Faults in body.Turns() ==> Faults in old(body.Turns()))
    ensures outcome.Moved? ==>
              && body.Valid() && !body.reading && !body.converting
              && body.Contents() == old(body.Contents()) + Concat(chunks)
    ensures outcome.Broke? ==> Faults in old(body.Turns())
    ensures outcome.Moved? ==> body.Slack() + |Concat(chunks)| >= old(body.Slack())
    ensures outcome.Stuck? ==> body.Turns() == [] && old(body.Slack()) < |Concat(chunks)|
    ensures old(InMemory(body, |Concat(chunks)|)) ==> outcome.Moved? && InMemory(body, 0)
    decreases |chunks|
  {
    if chunks == [] {
      return Moved;
    }
    hide IncomingBody.Valid, IncomingBody.Turns, IncomingBody.Contents, IncomingBody.Slack;
    ghost var contents := body.Contents();
    outcome := WriteAll(body, chunks[0]);
    if outcome.Moved? {
      outcome := WriteEach(body, chunks[1..]);
      assert contents + chunks[0] + Concat(chunks[1..]) == contents + Concat(chunks);
    }
  }

  /** Whatever is written in whatever pieces is read back unchanged, from memory or from the file.  A body that
      stays below the threshold never touches the file; any other comes through unless the file fails or takes
      too few turns that move anything: two for each byte, once to write and once to read, and two to find the
      ends are always enough. */
  method WriteThenRead(chunks: seq<string>, turns: seq<Turn>, room: nat) returns (outcome: Outcome, data: string)
    requires 0 < room
    ensures outcome.Moved? ==> data == Concat(chunks)
    ensures outcome.Broke? ==> Faults in turns
    ensures |Concat(chunks)| < SWITCH_TEMPORARY_SIZE ==> outcome.Moved?
    ensures Faults !in turns && Useful(turns) >= 2 * |Concat(chunks)| + 2 ==> outcome.Moved?
  {
    var body := new IncomingBody("", turns);
    outcome := WriteEach(body, chunks);
    if outcome.Moved? {
      assert body.Contents() == Concat(chunks) && body.position == 0;
      assert body.bodyType.TemporaryBody? ==> Useful(body.Turns()) + |Concat(chunks)| + 1 >= Useful(turns);
      hide IncomingBody.Valid, IncomingBody.Turns, IncomingBody.Contents, IncomingBody.Slack, Concat;
      outcome, data := ReadAll(body, room);
    } else {
      data := "";
    }
  }
}
