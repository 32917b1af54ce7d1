/**
 Asynchronous byte sources and sinks.  A source is a script of the results its environment will
 return; since a script is arbitrary, what is proved about all scripts holds for every schedule
 of pending, partial, complete and failed reads.
 */
module AsyncIo {
  import opened Wrappers

  datatype Poll<+T> = Pending | Ready(value: T)

  // A transfer of zero bytes is an end of file.
  datatype IoResult = Error | Eof | Success(count: nat)

  /** The result of a transfer of `n` bytes. */
  function Transferred(n: nat): IoResult { if n == 0 then Eof else Success(n) }

  datatype ReadEvent = NotReady | Bytes(data: string) | EndOfFile | Fault

  // How a script ends: it may stay open, reach the end of the file, or fail.
  datatype Ending = Open | Ended | Broken

  /** The bytes a script delivers before it ends. */
  function Delivered(script: seq<ReadEvent>): string {
    if script == [] then ""
    else
      match script[0]
      case NotReady => Delivered(script[1..])
      case Bytes(data) => if data == "" then "" else data + Delivered(script[1..])
      case _ => ""
  }

  function EndingOf(script: seq<ReadEvent>): Ending {
    if script == [] then Open
    else
      match script[0]
      case NotReady => EndingOf(script[1..])
      case Bytes(data) => if data == "" then Ended else EndingOf(script[1..])
      case EndOfFile => Ended
      case Fault => Broken
  }

  /** Results still to come, counting every byte. */
  function Work(script: seq<ReadEvent>): nat {
    if script == [] then 0
    else 1 + (if script[0].Bytes? then |script[0].data| else 0) + Work(script[1..])
  }

  function Concat(chunks: seq<string>): string {
    if chunks == [] then "" else chunks[0] + Concat(chunks[1..])
  }

  lemma {:induction false} ConcatSnoc(chunks: seq<string>, last: string)
    ensures Concat(chunks + [last]) == Concat(chunks) + last
  {
    if chunks == [] {
      assert chunks + [last] == [last];
    } else {
      assert (chunks + [last])[1..] == chunks[1..] + [last];
      ConcatSnoc(chunks[1..], last);
    }
  }

  function Min(a: nat, b: nat): nat { if a <= b then a else b }

  /** A script whose first event has delivered `n` of its bytes. */
  function AfterBytes(script: seq<ReadEvent>, n: nat): seq<ReadEvent>
    requires script != [] && script[0].Bytes? && n <= |script[0].data|
  {
    if n < |script[0].data| then [Bytes(script[0].data[n..])] + script[1..] else script[1..]
  }

  lemma BytesFirst(data: string, rest: seq<ReadEvent>)
    requires data != ""
    ensures var script := [Bytes(data)] + rest;
      && Delivered(script) == data + Delivered(rest)
      && EndingOf(script) == EndingOf(rest)
      && Work(script) == 1 + |data| + Work(rest)
  {
    assert ([Bytes(data)] + rest)[1..] == rest;
  }

  lemma SplitEvent(script: seq<ReadEvent>, n: nat)
    requires script != [] && script[0].Bytes? && 0 < n <= |script[0].data|
    ensures var next := AfterBytes(script, n);
      && Delivered(script) == script[0].data[..n] + Delivered(next)
      && EndingOf(script) == EndingOf(next)
      && Work(next) < Work(script)
  {
    var data, rest := script[0].data, script[1..];
    hide Delivered, EndingOf, Work;
    BytesFirst(data, rest);
    assert [Bytes(data)] + rest == script;
    if n < |data| {
      BytesFirst(data[n..], rest);
      Associate(data[..n], data[n..], Delivered(rest));
      assert data == data[..n] + data[n..];
    } else {
      assert data[..n] == data;
    }
  }

  class Reader {
    var script: seq<ReadEvent>

    constructor (script: seq<ReadEvent>)
      ensures this.script == script
    {
      this.script := script;
    }

    /** Reads into `buffer[start..start + room]`; a longer event is split. */
    method PollRead(buffer: array<char>, start: nat, room: nat) returns (r: Poll<IoResult>)
      requires start + room <= buffer.Length
      modifies this, buffer
      ensures EndingOf(script) == old(EndingOf(script))
      ensures buffer[..start] == old(buffer[..start])
      ensures r.Pending? ==> buffer[..] == old(buffer[..]) && Delivered(script) == old(Delivered(script))
      ensures r.Pending? ==> old(script) == [] || (old(script)[0].NotReady? && script == old(script)[1..])
      ensures r.Pending? ==> if old(script) == [] then script == [] else Work(script) < old(Work(script))
      ensures r.Ready? && r.value.Success? ==>
        var n := r.value.count;
        && 0 < n <= room
        && old(Delivered(script)) == buffer[start..start + n] + Delivered(script)
        && buffer[start + n..] == old(buffer[start + n..])
        && Work(script) < old(Work(script))
      ensures r.Ready? && r.value.Success? ==>
        var n, was := r.value.count, old(script);
        && was != [] && was[0].Bytes?
        && n == Min(|was[0].data|, room)
        && script == AfterBytes(was, n) && buffer[start..start + n] == was[0].data[..n]
      ensures r.Ready? && !r.value.Success? ==> script == old(script) && buffer[..] == old(buffer[..])
      ensures r == Ready(Eof) ==> room == 0 || (Delivered(script) == "" && EndingOf(script) == Ended)
      ensures r == Ready(Error) ==> Delivered(script) == "" && EndingOf(script) == Broken
    {
      if script == [] {
        return Pending;
      }
      match script[0] {
        case NotReady =>
          script := script[1..];
          return Pending;
        case EndOfFile => return Ready(Eof);
        case Fault => return Ready(Error);
        case Bytes(data) =>
          var n := Min(|data|, room);
          if n == 0 {
            return Ready(Eof);
          }
          hide Delivered, EndingOf, Work, AfterBytes;
          PutBytes(buffer, start, data[..n]);
          SplitEvent(script, n);
          script := AfterBytes(script, n);
          return Ready(Success(n));
      }
    }
  }

  method PutBytes(buffer: array<char>, start: nat, data: string)
    requires start + |data| <= buffer.Length
    modifies buffer
    ensures buffer[start..start + |data|] == data
    ensures buffer[..start] == old(buffer[..start]) && buffer[start + |data|..] == old(buffer[start + |data|..])
  {
    forall k | 0 <= k < |data| {
      buffer[start + k] := data[k];
    }
  }

  // What a descriptor does with the next transfer: it is not ready, moves at most `room` bytes, or fails.
  datatype Turn = Blocked | Moves(room: nat) | Faults

  /** The turns that move something if there is something to move. */
  function Useful(turns: seq<Turn>): nat {
    if turns == [] then 0 else (if turns[0].Moves? && turns[0].room > 0 then 1 else 0) + Useful(turns[1..])
  }

  /** A file or a socket, with the turns its environment will take and everything written to it. */
  class FileDescriptor {
    var turns: seq<Turn>
    var contents: string
    var offset: nat

    ghost predicate Valid()
      reads this
    {
      offset <= |contents|
    }

    ghost predicate AtEnd()
      reads this
    {
      offset == |contents|
    }

    constructor (turns: seq<Turn>)
      ensures Valid() && AtEnd() && contents == "" && this.turns == turns
    {
      this.turns, contents, offset := turns, "", 0;
    }

    /** Appends bytes of `buffer[start..end]`, which may be none. */
    method PollWrite(buffer: array<char>, start: nat, end: nat) returns (r: Poll<IoResult>)
      requires start <= end <= buffer.Length && AtEnd()
      modifies this
      ensures AtEnd()
      ensures turns == if old(turns) == [] then [] else old(turns)[1..]
      ensures r.Pending? || r == Ready(Error) ==> contents == old(contents)
      ensures r.Ready? && !r.value.Error? ==>
                var n := if r.value.Success? then r.value.count else 0;
                n <= end - start && contents == old(contents) + buffer[start..start + n]
      ensures r.Pending? <==> old(turns) == [] || old(turns)[0].Blocked?
      ensures r == Ready(Error) <==> old(turns) != [] && old(turns)[0].Faults?
      ensures old(turns) != [] && old(turns)[0].Moves? ==>
                r == Ready(Transferred(Min(old(turns)[0].room, end - start)))
    {
      if turns == [] {
        return Pending;
      }
      var turn := turns[0];
      turns := turns[1..];
      match turn {
        case Blocked => return Pending;
        case Faults => return Ready(Error);
        case Moves(room) =>
          var n := Min(room, end - start);
          contents := contents + buffer[start..start + n];
          offset := offset + n;
          return Ready(Transferred(n));
      }
    }

    method Rewind()
      modifies this`offset
      ensures offset == 0
    {
      offset := 0;
    }

    /** Reads from the offset on; only the end of the file or an empty buffer gives no bytes. */
    method PollRead(buffer: array<char>) returns (r: Poll<IoResult>)
      requires Valid()
      modifies this`turns, this`offset, buffer
      ensures Valid()
      ensures !(r.Ready? && r.value.Success?) ==> offset == old(offset) && buffer[..] == old(buffer[..])
      ensures r.Ready? && r.value.Success? ==>
                var n := r.value.count;
                && 0 < n <= buffer.Length && offset == old(offset) + n
                && buffer[..n] == contents[old(offset)..offset] && buffer[n..] == old(buffer[n..])
      ensures r == Ready(Eof) ==> buffer.Length == 0 || AtEnd()
      ensures r.Pending? <==> old(turns) == [] || old(turns)[0].Blocked?
      ensures r == Ready(Error) <==> old(turns) != [] && old(turns)[0].Faults?
      ensures turns == if old(turns) == [] then [] else old(turns)[1..]
    {
      if turns == [] {
        return Pending;
      }
      var turn := turns[0];
      turns := turns[1..];
      match turn {
        case Blocked => return Pending;
        case Faults => return Ready(Error);
        case Moves(room) =>
          var n := Min(Min(if room == 0 then 1 else room, buffer.Length), |contents| - offset);
          forall k | 0 <= k < n {
            buffer[k] := contents[offset + k];
          }
          offset := offset + n;
          return Ready(Transferred(n));
      }
    }
  }
}
