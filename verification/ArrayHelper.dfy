/** Copies of spans with every element byte-swapped. */
module ArrayHelper {
  import opened ByteOrder
  import opened ReaderMachine

  /** Every number of `w` bytes swapped. */
  function AllSwapped(w: nat, span: seq<nat>): (r: seq<nat>)
    ensures |r| == |span| && forall i :: 0 <= i < |span| ==> r[i] == ReverseEndianness(w, span[i])
  {
    seq(|span|, i requires 0 <= i < |span| => ReverseEndianness(w, span[i]))
  }

  method GetEndianReversedCopy(w: nat, span: seq<nat>) returns (copy: seq<nat>)
    ensures copy == AllSwapped(w, span)
  {
    var filled := ToEndianReversedArray(w, span);
    copy := filled[..];
  }

  method ToEndianReversedArray(w: nat, span: seq<nat>) returns (filled: array<nat>)
    ensures fresh(filled) && filled[..] == AllSwapped(w, span)
  {
    var count := |span|;
    filled := new nat[count](_ => 0);
    for i := 0 to count
      invariant forall j :: 0 <= j < i ==> filled[j] == ReverseEndianness(w, span[j])
    {
      filled[i] := ReverseEndianness(w, span[i]);
    }
  }

  /** Swapping a copy of a copy gives the numbers back. */
  lemma SwappedTwice(w: nat, span: seq<nat>)
    requires forall i :: 0 <= i < |span| ==> span[i] < Pow256(w)
    ensures AllSwapped(w, AllSwapped(w, span)) == span
  {
    forall i | 0 <= i < |span| ensures AllSwapped(w, AllSwapped(w, span))[i] == span[i] {
      SwapTwice(w, span[i]);
    }
  }

  /** The numbers of one host, swapped, are the numbers of the other. */
  lemma {:induction false} SwappedNumbers(hostLittle: bool, w: nat, bs: seq<Byte>)
    requires w > 0
    ensures AllSwapped(w, HostNumbers(hostLittle, w, bs)) == HostNumbers(!hostLittle, w, bs)
  {
    hide HostValue;
    if |bs| >= w {
      var first, rest := HostValue(hostLittle, bs[..w]), HostNumbers(hostLittle, w, bs[w..]);
      SwappedNumbers(hostLittle, w, bs[w..]);
      SwappedValue(hostLittle, bs[..w]);
      assert AllSwapped(w, [first] + rest) == [ReverseEndianness(w, first)] + AllSwapped(w, rest);
    }
  }

  lemma SwappedValue(hostLittle: bool, bs: seq<Byte>)
    ensures ReverseEndianness(|bs|, HostValue(hostLittle, bs)) == HostValue(!hostLittle, bs)
  {
    LoadIsHostIndependent(hostLittle, hostLittle, bs);
  }
}
