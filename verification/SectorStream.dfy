/** Blocks written at sector boundaries. */
module SectorStreams {
  import opened FixedWidth
  import opened ByteOrder
  import opened TypedValues
  import opened Streams

  /** Bytes to the next sector boundary; a whole sector when already on one. */
  function Remaining(sector: int, pos: int): (n: int)
    requires sector > 0
    ensures 1 <= n <= sector
  {
    sector - pos % sector
  }

  function Filled(n: nat, padding: Byte): (bs: seq<Byte>)
    ensures |bs| == n && forall i :: 0 <= i < n ==> bs[i] == padding
  {
    seq(n, _ => padding)
  }

  /** `PadSector`: move to the next boundary, padding first if the stream does not reach past it. */
  function Padded(sector: int, padding: Byte, s: State): State
    requires sector > 0 && s.pos >= 0
  {
    var remaining := Remaining(sector, s.pos);
    var next := s.pos + remaining;
    State(if |s.data| <= next then WrittenAt(s.data, s.pos, Filled(remaining, padding)) else s.data, next)
  }

  /** What a write call contributes: a range that is rejected, after the padding, contributes no bytes. */
  function Accepted(buffer: seq<Byte>, at: int, count: int): seq<Byte> {
    if ValidRange(|buffer|, at, count) then buffer[at..at + count] else []
  }

  /** The bytes a call writes and the padding in force. A rejected call counts as a block without bytes. */
  datatype Block = Block(bytes: seq<Byte>, padding: Byte)

  function WriteBlock(sector: int, s: State, b: Block): (t: State)
    requires sector > 0 && s.pos >= 0
    ensures t.pos >= 0
  {
    var p := Padded(sector, b.padding, s);
    State(WrittenAt(p.data, p.pos, b.bytes), p.pos + |b.bytes|)
  }

  function Run(sector: int, s: State, blocks: seq<Block>): (t: State)
    requires sector > 0 && s.pos >= 0
    ensures t.pos >= 0
  {
    if blocks == [] then s
    else WriteBlock(sector, Run(sector, s, blocks[..|blocks| - 1]), blocks[|blocks| - 1])
  }

  /** Where the block written after `end` bytes starts. */
  function StartAfter(sector: int, end: nat): (start: nat)
    requires sector > 0
    ensures end < start <= end + sector
  {
    end + Remaining(sector, end)
  }

  /** From the end of the stream, a block is appended after a gap of padding. */
  lemma BlockAppends(sector: int, s: State, b: Block)
    requires sector > 0 && s.pos == |s.data|
    ensures WriteBlock(sector, s, b).data == s.data + Filled(StartAfter(sector, |s.data|) - |s.data|, b.padding) + b.bytes
    ensures WriteBlock(sector, s, b).pos == |WriteBlock(sector, s, b).data|
  {
  }

  /** A call contributes the range of the buffer it names, or nothing. */
  lemma AcceptedExact(buffer: seq<Byte>, at: int, count: int)
    ensures 0 <= at && 0 <= count && at + count <= |buffer| ==> Accepted(buffer, at, count) == buffer[at..at + count]
    ensures !(0 <= at && 0 <= count && at + count <= |buffer|) ==> Accepted(buffer, at, count) == []
  {
  }

  /** From anywhere, padding stops at the first sector multiple strictly past the position. A stream that reaches past it
      keeps its bytes; else everything from the position on is padding up to there, whatever stood there before. */
  lemma PaddedExact(sector: int, padding: Byte, s: State)
    requires sector > 0 && s.pos >= 0
    ensures var t := Padded(sector, padding, s);
      && t.pos % sector == 0 && s.pos < t.pos <= s.pos + sector
      && (|s.data| > t.pos ==> t.data == s.data)
      && (|s.data| <= t.pos ==>
        && |t.data| == t.pos && (forall i :: s.pos <= i < t.pos ==> t.data[i] == padding)
        && (forall i :: 0 <= i < s.pos ==> t.data[i] == if i < |s.data| then s.data[i] else 0))
  {
    StartIsBoundary(sector, s.pos);
    var gap := Filled(Remaining(sector, s.pos), padding);
    assert gap != [];
    hide WrittenAt, Filled, Remaining;
    WrittenAtExact(s.data, s.pos, gap);
    var t := Padded(sector, padding, s);
    if |s.data| <= t.pos {
      forall i | s.pos <= i < t.pos ensures t.data[i] == padding {
        var j := i - s.pos;
        assert t.data[s.pos + j] == gap[j];
      }
    }
  }

  lemma StartIsBoundary(sector: int, end: nat)
    requires sector > 0
    ensures StartAfter(sector, end) % sector == 0
    ensures StartAfter(sector, end) / sector * sector == StartAfter(sector, end)
  {
    var q := end / sector;
    assert end == q * sector + end % sector;
    assert (q + 1) * sector == q * sector + sector;
    ModUnique(StartAfter(sector, end), sector, q + 1, 0);
    var start := StartAfter(sector, end);
    assert start == start / sector * sector + start % sector;
  }

  lemma RunStep(sector: int, s: State, blocks: seq<Block>, i: nat)
    requires sector > 0 && s.pos >= 0 && i < |blocks|
    ensures Run(sector, s, blocks[..i + 1]) == WriteBlock(sector, Run(sector, s, blocks[..i]), blocks[i])
  {
    hide WriteBlock;
    assert blocks[..i + 1][..i] == blocks[..i];
  }

  /** A run only appends: whatever was there, and after any prefix of the run, stays. */
  lemma {:induction false} RunAppends(sector: int, s: State, blocks: seq<Block>, i: nat, j: nat)
    requires sector > 0 && s.pos == |s.data| && i <= j <= |blocks|
    ensures Run(sector, s, blocks[..j]).pos == |Run(sector, s, blocks[..j]).data|
    ensures Run(sector, s, blocks[..i]).data <= Run(sector, s, blocks[..j]).data
    decreases j
  {
    hide WriteBlock, Filled;
    if j == 0 {
      assert blocks[..j] == [];
    } else {
      RunStep(sector, s, blocks, j - 1);
      RunAppends(sector, s, blocks, if i < j then i else j - 1, j - 1);
      BlockAppends(sector, Run(sector, s, blocks[..j - 1]), blocks[j - 1]);
    }
  }

  /** In `final`, block `b` stands at the first boundary strictly past the bytes `before`, after a gap of padding, and
      moving to its sector and reading recovers it. */
  ghost predicate Placed(sector: int, before: seq<Byte>, final: seq<Byte>, b: Block)
    requires sector > 0
  {
    var end, start := |before|, StartAfter(sector, |before|);
    && start % sector == 0 && end < start <= end + sector
    && start + |b.bytes| <= |final|
    && before == final[..end]
    && (forall i :: end <= i < start ==> final[i] == b.padding)
    && final[start..start + |b.bytes|] == b.bytes
    && ReadAt(State(final, start / sector * sector), |b.bytes|) == b.bytes
  }

  lemma AppendedIsPlaced(sector: int, before: seq<Byte>, mid: seq<Byte>, final: seq<Byte>, b: Block)
    requires sector > 0 && mid <= final
    requires mid == before + Filled(StartAfter(sector, |before|) - |before|, b.padding) + b.bytes
    ensures Placed(sector, before, final, b)
  {
    hide ReadAt, StartAfter;
    var start := StartAfter(sector, |before|);
    var gap := Filled(start - |before|, b.padding);
    StartIsBoundary(sector, |before|);
    PrefixSlices(final, mid, before, gap, b.bytes);
    forall i | |before| <= i < start ensures final[i] == b.padding {
      assert final[|before|..start][i - |before|] == gap[i - |before|];
    }
    ReadsBack(final, start, b.bytes);
  }

  /** Over any run from the end of a stream, rejected calls included, every block is placed so at the end of the run. */
  lemma BlockLayout(sector: int, s: State, blocks: seq<Block>, i: nat)
    requires sector > 0 && s.pos == |s.data| && i < |blocks|
    ensures s.data <= Run(sector, s, blocks).data
    ensures Placed(sector, Run(sector, s, blocks[..i]).data, Run(sector, s, blocks).data, blocks[i])
  {
    hide WriteBlock, Filled, Placed, StartAfter;
    assert blocks[..|blocks|] == blocks && blocks[..0] == [];
    RunAppends(sector, s, blocks, 0, |blocks|);
    RunAppends(sector, s, blocks, i + 1, |blocks|);
    RunAppends(sector, s, blocks, i, i);
    RunStep(sector, s, blocks, i);
    BlockAppends(sector, Run(sector, s, blocks[..i]), blocks[i]);
    AppendedIsPlaced(sector, Run(sector, s, blocks[..i]).data, Run(sector, s, blocks[..i + 1]).data,
      Run(sector, s, blocks).data, blocks[i]);
  }

  lemma ReadsBack(data: seq<Byte>, start: nat, bs: seq<Byte>)
    requires start + |bs| <= |data| && data[start..start + |bs|] == bs
    ensures ReadAt(State(data, start), |bs|) == bs
  {
  }

  lemma PrefixSlices(final: seq<Byte>, mid: seq<Byte>, a: seq<Byte>, gap: seq<Byte>, b: seq<Byte>)
    requires mid <= final && mid == a + gap + b
    ensures final[..|a|] == a && final[|a|..|a| + |gap|] == gap && final[|a| + |gap|..|mid|] == b
  {
    assert mid == final[..|mid|];
    assert final[..|a|] == mid[..|a|];
    assert final[|a|..|a| + |gap|] == mid[|a|..|a| + |gap|];
    assert final[|a| + |gap|..|mid|] == mid[|a| + |gap|..|mid|];
  }

  lemma SectorOf(value: int, sector: int)
    requires value >= 0 && sector > 0
    ensures value * sector >= 0 && value * sector / sector == value
  {
    QuotientUnique(value * sector, sector, value, 0);
  }

  class SectorStream {
    const baseStream: Stream
    const sectorSize: int
    var padding: Byte

    ghost predicate Valid()
      reads this, baseStream
    {
      0 < sectorSize <= INT32_MAX && Ready(baseStream.View())
    }

    constructor (baseStream: Stream, sectorSize: int)
      requires 0 < sectorSize <= INT32_MAX && Ready(baseStream.View())
      ensures Valid() && this.baseStream == baseStream && this.sectorSize == sectorSize && padding == 0
    {
      this.baseStream := baseStream;
      this.sectorSize := sectorSize;
      this.padding := 0;
    }

    /** The sector the base stream is in. */
    function Position(): int
      requires Valid()
      reads this, baseStream
    {
      baseStream.position / sectorSize
    }

    method SetPosition(value: int) returns (ok: bool)
      requires Valid() && IsInt64(value)
      modifies baseStream`position
      ensures ok <==> WrapInt64(value * sectorSize) >= 0
      ensures baseStream.position == if ok then WrapInt64(value * sectorSize) else old(baseStream.position)
      ensures 0 <= value && value * sectorSize <= MAX_STREAM ==> ok && Valid() && Position() == value
    {
      ok := baseStream.SetPosition(WrapInt64(value * sectorSize));
      if 0 <= value && value * sectorSize <= MAX_STREAM {
        SectorOf(value, sectorSize);
      }
    }

    method PadSector()
      requires Valid()
      modifies baseStream
      ensures baseStream.View() == Padded(sectorSize, padding, old(baseStream.View()))
    {
      var remainder := baseStream.position % sectorSize;
      var remaining := sectorSize - remainder;
      var nextPosition := baseStream.position + remaining;
      if |baseStream.data| <= nextPosition {
        var bytes := new Byte[remaining](_ => 0);
        if padding != 0 {
          for i := 0 to remaining
            invariant forall j :: 0 <= j < i ==> bytes[j] == padding
            invariant baseStream.View() == old(baseStream.View())
          {
            bytes[i] := padding;
          }
        }
        assert bytes[..] == Filled(remaining, padding);
        assert bytes[..][0..remaining] == bytes[..];
        var written := baseStream.Write(bytes[..], 0, remaining);
      }
      var moved := baseStream.SetPosition(nextPosition);
    }

    /** Rejected arguments are noticed after the padding. */
    method WriteAligned(buffer: seq<Byte>, at: int, count: int) returns (ok: bool)
      requires Valid() && baseStream.position + sectorSize <= MAX_STREAM && |baseStream.data| + sectorSize <= MAX_STREAM
      modifies baseStream
      ensures ok <==> ValidRange(|buffer|, at, count)
      ensures baseStream.View() ==
        WriteBlock(sectorSize, old(baseStream.View()), Block(Accepted(buffer, at, count), padding))
    {
      PadSector();
      ok := baseStream.Write(buffer, at, count);
    }

    /** The byte count is a 32-bit product. */
    method WriteSectors(buffer: seq<Byte>, at: int, sectorCount: int) returns (ok: bool)
      requires Valid() && baseStream.position + sectorSize <= MAX_STREAM && |baseStream.data| + sectorSize <= MAX_STREAM
      modifies baseStream
      ensures var count := WrapInt32(sectorCount * sectorSize);
        && (ok <==> ValidRange(|buffer|, at, count))
        && baseStream.View() ==
          WriteBlock(sectorSize, old(baseStream.View()), Block(Accepted(buffer, at, count), padding))
    {
      PadSector();
      ok := baseStream.Write(buffer, at, WrapInt32(sectorCount * sectorSize));
    }

    /** An unaligned read of the base stream. */
    method Read(buffer: array<Byte>, at: int, count: int) returns (n: Option<nat>)
      requires Valid()
      modifies baseStream`position, buffer
      ensures n == if ValidRange(buffer.Length, at, count) then Some(|ReadAt(old(baseStream.View()), count)|) else None
      ensures n.None? ==> buffer[..] == old(buffer[..]) && baseStream.View() == old(baseStream.View())
      ensures n.Some? ==>
        && baseStream.View() == State(old(baseStream.data), old(baseStream.position) + n.value)
        && buffer[..] == old(buffer[..])[..at] + ReadAt(old(baseStream.View()), count) + old(buffer[..])[at + n.value..]
    {
      n := baseStream.Read(buffer, at, count);
    }
  }
}
