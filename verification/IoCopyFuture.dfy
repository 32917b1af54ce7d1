/** The future that copies a reader to a writer through a fixed buffer. */
module IoCopyFutures {
  import opened AsyncIo
  import opened SpanReaders

  const COPY_BUFFER: nat := 4096

  datatype CopyPoll = Waiting | Complete | Threw

  datatype State = Reading | Writing

  class IoCopyFuture {
    const buffer: array<char>
    const source: Source
    const writer: FileDescriptor
    var state: State
    var head: nat
    // The unsent part of the buffer while writing.
    var spanStart: nat
    var spanEnd: nat
    var readFinished: bool
    var bytesWritten: nat
    // What the writer held before the copy, and all the source will ever deliver.
    ghost const before: string
    ghost const total: string

    ghost function Repr(): set<object> {
      {this, buffer, writer} + source.Footprint()
    }

    /** The bytes read and not yet accepted. */
    ghost function Unsent(): string
      requires InBounds()
      reads this, buffer
    {
      if state.Reading? then buffer[..head] else buffer[spanStart..spanEnd]
    }

    ghost predicate InBounds()
      reads this
    {
      buffer.Length == COPY_BUFFER && head <= COPY_BUFFER && spanStart <= spanEnd <= COPY_BUFFER
    }

    /** Bytes accepted, then bytes unsent, then bytes still to be read: always the same string. */
    ghost predicate Conserved(contents: string)
      requires InBounds()
      reads this, buffer, source.Footprint()
    {
      && contents + Unsent() + source.Left() == before + total
      && |contents| == |before| + bytesWritten
    }

    ghost predicate Valid()
      reads Repr()
    {
      && InBounds()
      && writer !in source.Footprint() && this !in source.Footprint() && buffer !in source.Footprint()
      && (state.Reading? ==> head < COPY_BUFFER && !readFinished)
      && (readFinished ==> source.Left() == "" && source.End() == Ended)
      && writer.AtEnd()
      && Conserved(writer.contents)
    }

    /** Between polls, a copy from memory writes nothing only at its end. */
    ghost predicate Rested()
      reads this
    {
      source.Span? && state.Writing? && spanStart == spanEnd ==> readFinished
    }

    /** What the source may still cost: its own steps, and the empty write after a read that gave nothing. */
    ghost function Debt(): nat
      reads this, source.Footprint()
    {
      source.Effort() + if state.Writing? && spanStart == spanEnd && !readFinished then 1 else 0
    }

    /** Reading, with the buffer possibly full. */
    ghost predicate Filling()
      reads Repr()
    {
      && InBounds()
      && writer !in source.Footprint() && this !in source.Footprint() && buffer !in source.Footprint()
      && state.Reading? && !readFinished
      && writer.AtEnd()
      && Conserved(writer.contents)
    }

    constructor (source: Source, writer: FileDescriptor)
      requires writer.AtEnd()
      ensures Valid() && Rested() && fresh(this) && fresh(buffer) && this.source == source && this.writer == writer
      ensures before == writer.contents && total == source.Left() && bytesWritten == 0
      ensures Debt() == source.Effort()
    {
      this.source, this.writer := source, writer;
      buffer := new char[COPY_BUFFER];
      state, head, spanStart, spanEnd, readFinished, bytesWritten := Reading, 0, 0, 0, false, 0;
      before, total := writer.contents, source.Left();
      new;
      assert Unsent() == "";
    }

    /** One read behind the bytes already in the buffer. */
    method Read() returns (r: Poll<IoResult>)
      requires Valid() && state.Reading?
      modifies this`head, buffer, source.Footprint()
      ensures source.End() == old(source.End()) && old(head) <= head <= COPY_BUFFER
      ensures Filling()
      ensures !(r.Ready? && r.value.Success?) ==> head == old(head)
      ensures r == Ready(Eof) ==> source.Left() == "" && source.End() == Ended
      ensures r == Ready(Error) ==> source.Left() == "" && source.End() == Broken
      ensures r.Ready? && r.value.Success? ==> source.Effort() < old(source.Effort())
      ensures source.Span? ==> r.Ready? && r.value != Error
      ensures source.Effort() <= old(source.Effort())
      ensures r.Pending? && source.End() == Ended ==> source.Effort() < old(source.Effort())
    {
      hide Source.Left, Source.End, Source.Effort;
      ghost var unsent := buffer[..head];
      r := source.Poll(buffer, head, COPY_BUFFER - head);
      assert buffer[..head] == unsent;
      if r.Ready? && r.value.Success? {
        var n := r.value.count;
        assert buffer[..head + n] == unsent + buffer[head..head + n];
        Regroup(writer.contents, unsent, buffer[head..head + n], source.Left());
        head := head + n;
      }
    }

    /** What is in the buffer becomes the span to write. */
    method StartWriting(finished: bool)
      requires Filling() && (finished ==> source.Left() == "" && source.End() == Ended)
      modifies this`state, this`spanStart, this`spanEnd, this`readFinished
      ensures Valid() && state.Writing? && readFinished == finished && spanStart == 0 && spanEnd == head
    {
      hide Source.Left, Source.End;
      readFinished := finished;
      state, spanStart, spanEnd := Writing, 0, head;
    }

    /** Reads until the buffer is full, the source has ended or nothing is ready; then writing begins. */
    method Fill() returns (threw: bool)
      requires Valid() && state.Reading?
      modifies this`head, this`state, this`spanStart, this`spanEnd, this`readFinished, buffer, source.Footprint()
      ensures Valid() && source.End() == old(source.End())
      ensures threw ==> source.End() == Broken
      ensures !threw ==> state.Writing? && Rested()
      ensures source.Span? ==> !threw
      ensures !threw && source.End() == Ended ==> Debt() <= old(source.Effort())
    {
      while true
        invariant Filling() && head < COPY_BUFFER && source.End() == old(source.End())
        invariant source.Effort() <= old(source.Effort())
        decreases source.Effort()
      {
        hide Source.Left, Source.End, Source.Effort, Conserved;
        var r := Read();
        if r.Ready? && r.value.Error? {
          return true;
        }
        if r.Ready? && r.value.Success? && head < COPY_BUFFER {
          continue;
        }
        StartWriting(r == Ready(Eof));
        return false;
      }
    }

    /** One write of the unsent bytes. */
    method Write() returns (r: Poll<IoResult>)
      requires Valid() && state.Writing?
      modifies writer, this`spanStart, this`bytesWritten
      ensures Valid() && state.Writing? && spanStart <= spanEnd && old(writer.contents) <= writer.contents
      ensures writer.turns == if old(writer.turns) == [] then [] else old(writer.turns)[1..]
      ensures r.Pending? <==> old(writer.turns) == [] || old(writer.turns)[0].Blocked?
      ensures r == Ready(Error) <==> old(writer.turns) != [] && old(writer.turns)[0].Faults?
      ensures old(spanStart) <= spanStart && (r.Pending? ==> spanStart == old(spanStart))
      ensures Useful(old(writer.turns)) + |old(writer.contents)|
              <= Useful(writer.turns) + |writer.contents| + if r.Ready? && old(spanStart) == spanEnd then 1 else 0
    {
      hide Source.Left, Source.End, Source.Effort, Conserved, Unsent;
      ghost var contents := writer.contents;
      r := writer.PollWrite(buffer, spanStart, spanEnd);
      if r.Ready? && !r.value.Error? {
        var n := if r.value.Success? then r.value.count else 0;
        Accept(n, contents);
      }
    }

    /** Takes bytes the writer has accepted off the front of the span. */
    method Accept(n: nat, ghost contents: string)
      requires InBounds() && Conserved(contents) && state.Writing? && spanStart + n <= spanEnd
      requires this !in source.Footprint()
      modifies this`spanStart, this`bytesWritten
      ensures InBounds() && spanStart == old(spanStart) + n
      ensures Conserved(contents + buffer[old(spanStart)..spanStart])
    {
      ghost var unsent, left := Unsent(), source.Left();
      assert contents + unsent + left == before + total;
      CutSpan(buffer[spanStart..spanEnd], n);
      assert buffer[spanStart + n..spanEnd] == unsent[n..] && buffer[spanStart..spanStart + n] == unsent[..n];
      hide Source.Left;
      bytesWritten := bytesWritten + n;
      spanStart := spanStart + n;
      Regroup(contents, unsent[..n], unsent[n..], left);
    }

    /** An empty span ends the copy if the source has ended, and starts the next read otherwise. */
    method Finish() returns (complete: bool)
      requires Valid() && state.Writing? && spanStart == spanEnd
      modifies this`state, this`head
      ensures Valid() && (!complete ==> state.Reading?)
      ensures complete ==> readFinished && source.End() == Ended && writer.contents == before + total
      ensures Debt() == if complete then old(Debt()) else source.Effort()
    {
      if readFinished {
        return true;
      }
      state, head := Reading, 0;
      return false;
    }

    /** One write and what follows from it: the copy waits, fails, is complete, or goes on reading. */
    method WriteOnce() returns (goesOn: bool, r: CopyPoll)
      requires Valid() && state.Writing?
      modifies writer, this`spanStart, this`bytesWritten, this`state, this`head
      ensures Valid() && source.End() == old(source.End()) && old(writer.contents) <= writer.contents
      ensures writer.turns == if old(writer.turns) == [] then [] else old(writer.turns)[1..]
      ensures goesOn ==> state.Reading? && old(writer.turns) != []
      ensures !goesOn && r.Complete? ==> source.End() == Ended && writer.contents == before + total
      ensures !goesOn && r.Threw? ==> Faults in old(writer.turns)
      ensures old(Rested()) && source.Span? && (goesOn || !r.Threw?) ==>
                && Rested()
                && Useful(old(writer.turns)) + |old(writer.contents)|
                   <= Useful(writer.turns) + |writer.contents| + if !goesOn && r.Complete? then 1 else 0
      ensures goesOn || !r.Threw? ==>
                Useful(old(writer.turns)) + |old(writer.contents)| + Debt()
                <= Useful(writer.turns) + |writer.contents| + old(Debt()) + if !goesOn && r.Complete? then 1 else 0
    {
      assert writer !in source.Footprint() && this !in source.Footprint();
      hide Source.Left, Source.End, Source.Effort, Valid, Useful;
      goesOn := false;
      var poll := Write();
      if poll.Pending? {
        return false, Waiting;
      }
      if poll.value.Error? {
        return false, Threw;
      }
      if spanStart < spanEnd {
        return false, Waiting;
      }
      var complete := Finish();
      return !complete, Complete;
    }

    /** Complete only when the source has ended and the writer has accepted everything it delivered. */
    method Poll() returns (r: CopyPoll)
      requires Valid()
      modifies Repr()
      ensures Valid() && source.End() == old(source.End())
      ensures old(writer.contents) <= writer.contents
      ensures r.Complete? ==> source.End() == Ended && writer.contents == before + total
      ensures r.Threw? ==> source.End() == Broken || Faults in old(writer.turns)
      ensures Used(writer.turns, old(writer.turns))
              && (r.Waiting? ==> old(writer.turns) == [] || writer.turns != old(writer.turns))
      ensures old(Rested()) && source.Span? && !r.Threw? ==>
                && Rested()
                && Useful(old(writer.turns)) + |old(writer.contents)|
                   <= Useful(writer.turns) + |writer.contents| + if r.Complete? then 1 else 0
      ensures source.End() == Ended && !r.Threw? ==>
                Useful(old(writer.turns)) + |old(writer.contents)| + Debt()
                <= Useful(writer.turns) + |writer.contents| + old(Debt()) + if r.Complete? then 1 else 0
      decreases |writer.turns|, if state.Reading? then 1 else 0
    {
      hide Source.Left, Source.End, Source.Effort, Valid, Useful;
      match state {
        case Reading =>
          var threw := Fill();
          if threw {
            return Threw;
          }
          r := Poll();
        case Writing =>
          ghost var turns := writer.turns;
          var goesOn;
          goesOn, r := WriteOnce();
          if goesOn {
            r := Poll();
            UsedTwice(writer.turns, turns[1..], turns);
          }
      }
    }
  }

  /** What is left of a schedule once part of it is used. */
  ghost predicate Used<T>(turns: seq<T>, was: seq<T>) {
    |turns| <= |was| && turns == was[|was| - |turns|..]
  }

  lemma UsedTwice<T>(turns: seq<T>, next: seq<T>, was: seq<T>)
    requires Used(turns, next) && Used(next, was)
    ensures Used(turns, was) && (turns == was ==> next == was)
    ensures forall turn <- next :: turn in was
  {
  }

  lemma UsedMembers<T>(turns: seq<T>, was: seq<T>)
    requires Used(turns, was)
    ensures |turns| <= |was| && (turns != was ==> |turns| < |was|) && forall turn <- turns :: turn in was
  {
  }

  lemma CutSpan(span: string, n: nat)
    requires n <= |span|
    ensures span[..n] + span[n..] == span
  {
  }

  lemma Regroup(a: string, b: string, c: string, d: string)
    ensures a + b + (c + d) == a + (b + c) + d
    ensures (a + b) + c + d == a + (b + c) + d
  {
  }

  lemma WrittenBound(copy: IoCopyFuture)
    requires copy.Valid()
    ensures |copy.writer.contents| <= |copy.before| + |copy.total|
  {
  }

  /** Polls until the copy is over or the writer's schedule has run out.  On a source that ends and a writer
      that never fails, a copy that is over has moved every byte. */
  method CopyAll(copy: IoCopyFuture) returns (r: CopyPoll)
    requires copy.Valid()
    modifies copy.Repr()
    ensures copy.Valid() && copy.source.End() == old(copy.source.End())
    ensures r.Waiting? ==> copy.writer.turns == []
    ensures r.Complete? ==> copy.writer.contents == copy.before + copy.total
    ensures r.Threw? ==> copy.source.End() == Broken || Faults in old(copy.writer.turns)
    ensures copy.source.End() == Ended
            && old(Useful(copy.writer.turns) + |copy.writer.contents|) > |copy.before| + |copy.total| + old(copy.Debt())
            ==> !r.Waiting?
  {
    hide Source.Left, Source.End, IoCopyFuture.Valid, IoCopyFuture.Rested, IoCopyFuture.Debt, Used;
    ghost var turns := copy.writer.turns;
    r := copy.Poll();
    UsedMembers(copy.writer.turns, turns);
    while r.Waiting? && copy.writer.turns != []
      invariant copy.Valid() && copy.source.End() == old(copy.source.End())
      invariant r.Complete? ==> copy.writer.contents == copy.before + copy.total
      invariant r.Threw? ==> copy.source.End() == Broken || Faults in turns
      invariant Faults in copy.writer.turns ==> Faults in turns
      invariant r.Waiting? && copy.source.End() == Ended ==>
                  Useful(turns) + old(|copy.writer.contents|) + copy.Debt()
                  <= Useful(copy.writer.turns) + |copy.writer.contents| + old(copy.Debt())
      decreases |copy.writer.turns|, r.Waiting?
    {
      ghost var was := copy.writer.turns;
      r := copy.Poll();
      UsedMembers(copy.writer.turns, was);
    }
    WrittenBound(copy);
  }
}
