/** A reader over bytes in memory, and the sources a copy can read from. */
module SpanReaders {
  import opened AsyncIo

  class SpanReader {
    var inner: string
    var bytesRead: nat

    constructor (inner: string)
      ensures this.inner == inner && bytesRead == 0
    {
      this.inner, bytesRead := inner, 0;
    }

    /** Moves bytes from the front of the span into the buffer; never pending, never an error. */
    method PollRead(buffer: array<char>, start: nat, room: nat) returns (r: Poll<IoResult>)
      requires start + room <= buffer.Length
      modifies this, buffer
      ensures r == Ready(Transferred(Min(|old(inner)|, room)))
      ensures var n := Min(|old(inner)|, room);
        && old(inner) == buffer[start..start + n] + inner
        && bytesRead == old(bytesRead) + n
        && buffer[..start] == old(buffer[..start]) && buffer[start + n..] == old(buffer[start + n..])
    {
      var n := Min(|inner|, room);
      var copy := inner[..n];
      inner := inner[n..];
      if n == 0 {
        return Ready(Eof);
      }
      bytesRead := bytesRead + n;
      forall k | 0 <= k < n {
        buffer[start + k] := copy[k];
      }
      assert buffer[start..start + n] == copy;
      return Ready(Transferred(n));
    }
  }

  // The two kinds of source that are polled through the common reader interface.
  datatype Source = Scripted(reader: Reader) | Span(span: SpanReader) {
    ghost function Footprint(): set<object> {
      if Scripted? then {reader} else {span}
    }

    /** The bytes still to come. */
    ghost function Left(): string
      reads Footprint()
    {
      if Scripted? then Delivered(reader.script) else span.inner
    }

    ghost function End(): Ending
      reads Footprint()
    {
      if Scripted? then EndingOf(reader.script) else Ended
    }

    ghost function Effort(): nat
      reads Footprint()
    {
      if Scripted? then Work(reader.script) else |span.inner|
    }

    method Poll(buffer: array<char>, start: nat, room: nat) returns (r: Poll<IoResult>)
      requires start + room <= buffer.Length && 0 < room
      modifies Footprint(), buffer
      ensures End() == old(End()) && buffer[..start] == old(buffer[..start])
      ensures r.Pending? || r == Ready(Eof) || r == Ready(Error) ==> Left() == old(Left())
      ensures r.Ready? && r.value.Success? ==>
                && 0 < r.value.count <= room
                && old(Left()) == buffer[start..start + r.value.count] + Left()
                && Effort() < old(Effort())
      ensures r == Ready(Eof) ==> Left() == "" && End() == Ended
      ensures r == Ready(Error) ==> Left() == "" && End() == Broken
      ensures Span? ==> r.Ready? && r.value != Error
      ensures Effort() <= old(Effort()) && (r.Pending? && End() == Ended ==> Effort() < old(Effort()))
    {
      match this {
        case Scripted(reader) =>
          hide Delivered, EndingOf, Work, AfterBytes;
          r := reader.PollRead(buffer, start, room);
        case Span(span) =>
          r := span.PollRead(buffer, start, room);
      }
    }
  }
}
