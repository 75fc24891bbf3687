/** The seekable, growing byte stream the other streams are built on. */
module Streams {
  import opened FixedWidth
  import opened ByteOrder
  import opened TypedValues

  datatype State = State(data: seq<Byte>, pos: int)

  /** Far below the range of a 64-bit position, so that adding a 32-bit count to one cannot wrap. */
  const MAX_STREAM: int := INT64_MAX / 2

  ghost predicate Ready(s: State) {
    0 <= s.pos <= MAX_STREAM && |s.data| <= MAX_STREAM
  }

  /** What is left to read, at most `count` bytes. */
  function Available(s: State, count: nat): (n: nat)
    requires s.pos >= 0
    ensures n <= count && s.pos + n <= if n > 0 then |s.data| else s.pos
  {
    if s.pos >= |s.data| then 0 else if count <= |s.data| - s.pos then count else |s.data| - s.pos
  }

  /** A buffer argument is a place in a buffer with room for `count` bytes. */
  predicate ValidRange(bufferLength: nat, at: int, count: int) {
    0 <= at && 0 <= count <= bufferLength - at
  }

  function ReadAt(s: State, count: nat): seq<Byte>
    requires s.pos >= 0
  {
    var n := Available(s, count);
    if n == 0 then [] else s.data[s.pos..s.pos + n]
  }

  function Zeros(n: nat): seq<Byte> {
    seq(n, _ => 0 as Byte)
  }

  /** Bytes written at a position, after zeros if the position lies past the end. */
  function WrittenAt(data: seq<Byte>, pos: nat, bs: seq<Byte>): seq<Byte> {
    if bs == [] then data
    else if pos > |data| then data + Zeros(pos - |data|) + bs
    else data[..pos] + bs + if pos + |bs| <= |data| then data[pos + |bs|..] else []
  }

  /** What is read: as many bytes from the position on as are asked for and there. */
  lemma ReadAtExact(s: State, count: nat)
    requires 0 <= s.pos
    ensures s.pos + count <= |s.data| ==> ReadAt(s, count) == s.data[s.pos..s.pos + count]
    ensures s.pos <= |s.data| < s.pos + count ==> ReadAt(s, count) == s.data[s.pos..]
    ensures |s.data| <= s.pos ==> ReadAt(s, count) == []
  {
  }

  /** What a write of some bytes leaves: the bytes at the position, zeros between the old end and it, the rest unchanged. */
  lemma WrittenAtExact(data: seq<Byte>, pos: nat, bs: seq<Byte>)
    requires bs != []
    ensures var t := WrittenAt(data, pos, bs);
      && |t| == (if pos + |bs| <= |data| then |data| else pos + |bs|)
      && (forall i :: 0 <= i < |bs| ==> t[pos + i] == bs[i])
      && (forall j :: 0 <= j < |t| && !(pos <= j < pos + |bs|) ==> t[j] == if j < |data| then data[j] else 0)
    ensures WrittenAt(data, pos, []) == data
  {
  }

  class Stream {
    var data: seq<Byte>
    var position: int
    const canSeek: bool

    constructor (data: seq<Byte>, canSeek: bool)
      ensures this.data == data && position == 0 && this.canSeek == canSeek
    {
      this.data := data;
      this.position := 0;
      this.canSeek := canSeek;
    }

    function View(): State
      reads this
    {
      State(data, position)
    }

    /** Fills `buffer[at..]`; `None` when the arguments were rejected. */
    method Read(buffer: array<Byte>, at: int, count: int) returns (n: Option<nat>)
      requires Ready(View())
      modifies this`position, buffer
      ensures n == if ValidRange(buffer.Length, at, count) then Some(|ReadAt(old(View()), count)|) else None
      ensures n.None? ==> buffer[..] == old(buffer[..]) && View() == old(View())
      ensures n.Some? ==>
        && View() == State(old(data), old(position) + n.value)
        && buffer[..] == old(buffer[..])[..at] + ReadAt(old(View()), count) + old(buffer[..])[at + n.value..]
    {
      if !(0 <= at && 0 <= count <= buffer.Length - at) {
        return None;
      }
      var bytes := ReadAt(State(data, position), count);
      forall i | 0 <= i < |bytes| {
        buffer[at + i] := bytes[i];
      }
      position := position + |bytes|;
      return Some(|bytes|);
    }

    /** Writes `buffer[at..at + count]`; false when the arguments were rejected. */
    method Write(buffer: seq<Byte>, at: int, count: int) returns (ok: bool)
      requires Ready(View())
      modifies this
      ensures ok <==> ValidRange(|buffer|, at, count)
      ensures View() == if ok then State(WrittenAt(old(data), old(position), buffer[at..at + count]), old(position) + count)
        else old(View())
    {
      if !(0 <= at && 0 <= count <= |buffer| - at) {
        return false;
      }
      data := WrittenAt(data, position, buffer[at..at + count]);
      position := position + count;
      return true;
    }

    /** A negative position is rejected. */
    method SetPosition(value: int) returns (ok: bool)
      modifies this`position
      ensures ok <==> value >= 0
      ensures position == if ok then value else old(position)
    {
      if value < 0 {
        return false;
      }
      position := value;
      return true;
    }

    /** Cuts the stream, or extends it with zeros. */
    method SetLength(length: nat)
      modifies this
      ensures data == if length <= |old(data)| then old(data)[..length] else old(data) + Zeros(length - |old(data)|)
      ensures position == if old(position) > length then length else old(position)
    {
      data := if length <= |data| then data[..length] else data + Zeros(length - |data|);
      if position > length {
        position := length;
      }
    }
  }
}
