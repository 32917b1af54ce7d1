/** A stream of single bytes over a reader, with one byte of push-back. */
module CharacterStreams {
  import opened Wrappers
  import opened AsyncIo

  const STREAM_BUFFER: nat := 8192

  datatype StreamPoll = Pending | Ready(c: char) | Finished | Thrown

  class CharacterStream {
    const reader: Reader
    const buffer: array<char>
    var head: nat
    var max: nat
    var exhausted: bool
    var finished: bool
    var lastChar: Option<char>

    ghost predicate Valid()
      reads this
    {
      && buffer.Length == STREAM_BUFFER
      && head <= max <= STREAM_BUFFER
      && (exhausted ==> !finished)
      && (!exhausted && !finished ==> head < max)
      && (finished ==> lastChar == None)
    }

    /** The bytes this stream will still deliver. */
    ghost function Remaining(): string
      requires Valid()
      reads this, buffer, reader
    {
      (if lastChar.Some? then [lastChar.value] else "")
      + (if exhausted || finished then "" else buffer[head..max])
      + (if finished then "" else Delivered(reader.script))
    }

    ghost function End(): Ending
      reads this, reader
    {
      if finished then Ended else EndingOf(reader.script)
    }

    constructor (reader: Reader)
      ensures Valid() && this.reader == reader && fresh(buffer)
      ensures Remaining() == Delivered(reader.script) && End() == EndingOf(reader.script)
    {
      this.reader := reader;
      buffer := new char[STREAM_BUFFER];
      head, max, exhausted, finished, lastChar := 0, 0, true, false, None;
    }

    method PollNext() returns (r: StreamPoll)
      requires Valid()
      modifies this, buffer, reader
      ensures !r.Thrown? ==> Valid() && End() == old(End())
      ensures r.Pending? ==>
                Remaining() == old(Remaining()) == Delivered(reader.script) && lastChar == None && !finished
      ensures r.Pending? ==>
                if old(reader.script) == [] then reader.script == []
                else Work(reader.script) < old(Work(reader.script))
      ensures r.Ready? ==> old(Remaining()) == [r.c] + Remaining() && lastChar == None && !finished
      ensures Work(reader.script) <= old(Work(reader.script))
      ensures r.Finished? ==> old(Remaining()) == Remaining() == "" && End() == Ended
      ensures r.Thrown? ==> old(Remaining()) == "" && old(End()) == Broken
    {
      hide Delivered, Work, EndingOf, AfterBytes;
      if finished {
        return Finished;
      }
      if lastChar.Some? {
        var c := lastChar.value;
        lastChar := None;
        return StreamPoll.Ready(c);
      }
      if exhausted {
        r := Refill();
        return;
      }
      r := TakeFront();
    }

    /** The next character of the buffer. */
    method TakeFront() returns (r: StreamPoll)
      requires head < max <= buffer.Length == STREAM_BUFFER && !exhausted && !finished && lastChar == None
      modifies this`head, this`exhausted
      ensures Valid() && r.Ready? && buffer[old(head)..max] + Delivered(reader.script) == [r.c] + Remaining()
    {
      hide Delivered;
      var c := buffer[head];
      head := head + 1;
      exhausted := head == max;
      assert buffer[old(head)..max] == [c] + buffer[head..max];
      Associate([c], buffer[head..max], Delivered(reader.script));
      return StreamPoll.Ready(c);
    }

    /** Reads into the used-up buffer and takes the first character. */
    method Refill() returns (r: StreamPoll)
      requires Valid() && exhausted && lastChar == None
      modifies this`head, this`max, this`exhausted, this`finished, buffer, reader
      ensures !r.Thrown? ==> Valid() && End() == old(End())
      ensures r.Pending? ==> Remaining() == old(Remaining()) == Delivered(reader.script) && !finished
      ensures r.Pending? ==>
                if old(reader.script) == [] then reader.script == []
                else Work(reader.script) < old(Work(reader.script))
      ensures r.Ready? ==> old(Remaining()) == [r.c] + Remaining() && !finished
      ensures Work(reader.script) <= old(Work(reader.script))
      ensures r.Finished? ==> old(Remaining()) == Remaining() == "" && End() == Ended
      ensures r.Thrown? ==> old(Remaining()) == "" && old(End()) == Broken
    {
      hide Delivered, Work, EndingOf, AfterBytes;
      var poll := reader.PollRead(buffer, 0, buffer.Length);
      if poll.Pending? {
        return StreamPoll.Pending;
      }
      exhausted := false;
      head := 0;
      if poll.value.Error? {
        return Thrown;
      }
      max := if poll.value.Success? then poll.value.count else 0;
      if max == 0 {
        finished := true;
        return Finished;
      }
      r := TakeFront();
    }

    method ShiftBack(c: char)
      requires Valid() && lastChar == None && !finished
      modifies this`lastChar
      ensures Valid() && Remaining() == [c] + old(Remaining()) && End() == old(End())
      ensures lastChar == Some(c)
    {
      lastChar := Some(c);
    }
  }
}
