/** Bytes, byte orders and the value-level byte swap.

    `Little` and `Big` are the two canonical encodings of an unsigned value of `w` bytes.
    `HostImage` is what an unmanaged value of `w` bytes looks like in the memory of a host;
    `HostValue` is the value the host sees in such an image. */
module ByteOrder {

  type Byte = b: int | 0 <= b < 256

  function Pow256(n: nat): (p: nat)
    ensures p > 0
  {
    if n == 0 then 1 else 256 * Pow256(n - 1)
  }

  function Little(w: nat, v: nat): (bs: seq<Byte>)
    ensures |bs| == w
  {
    if w == 0 then [] else [v % 256] + Little(w - 1, v / 256)
  }

  function Big(w: nat, v: nat): (bs: seq<Byte>)
    ensures |bs| == w
  {
    if w == 0 then [] else Big(w - 1, v / 256) + [v % 256]
  }

  /** The canonical encoding a caller asks for by setting `BigEndian`. */
  function Canonical(bigEndian: bool, w: nat, v: nat): (bs: seq<Byte>)
    ensures |bs| == w
  {
    if bigEndian then Big(w, v) else Little(w, v)
  }

  function FromLittle(bs: seq<Byte>): nat {
    if bs == [] then 0 else bs[0] + 256 * FromLittle(bs[1..])
  }

  function FromBig(bs: seq<Byte>): nat {
    if bs == [] then 0 else 256 * FromBig(bs[..|bs| - 1]) + bs[|bs| - 1]
  }

  function FromCanonical(bigEndian: bool, bs: seq<Byte>): nat {
    if bigEndian then FromBig(bs) else FromLittle(bs)
  }

  function HostImage(hostLittle: bool, w: nat, v: nat): (bs: seq<Byte>)
    ensures |bs| == w
  {
    if hostLittle then Little(w, v) else Big(w, v)
  }

  function HostValue(hostLittle: bool, bs: seq<Byte>): nat {
    if hostLittle then FromLittle(bs) else FromBig(bs)
  }

  /** `BinaryPrimitives.ReverseEndianness` on a value of `w` bytes: the lowest byte becomes the highest. */
  function ReverseEndianness(w: nat, v: nat): nat {
    if w == 0 then 0 else (v % 256) * Pow256(w - 1) + ReverseEndianness(w - 1, v / 256)
  }

  function Reversed<T>(s: seq<T>): (r: seq<T>)
    ensures |r| == |s|
  {
    if s == [] then [] else Reversed(s[1..]) + [s[0]]
  }

  // ----- Decoding undoes encoding -----

  lemma {:induction false} FromLittleBound(bs: seq<Byte>)
    ensures FromLittle(bs) < Pow256(|bs|)
  {
    if bs != [] { FromLittleBound(bs[1..]); }
  }

  lemma {:induction false} FromLittleOfLittle(w: nat, v: nat)
    requires v < Pow256(w)
    ensures FromLittle(Little(w, v)) == v
  {
    if w != 0 {
      FromLittleOfLittle(w - 1, v / 256);
      assert Little(w, v)[1..] == Little(w - 1, v / 256);
    }
  }

  lemma {:induction false} LittleOfFromLittle(bs: seq<Byte>)
    ensures Little(|bs|, FromLittle(bs)) == bs
  {
    if bs != [] {
      LittleOfFromLittle(bs[1..]);
      var v := FromLittle(bs);
      assert v % 256 == bs[0] && v / 256 == FromLittle(bs[1..]);
    }
  }

  // ----- Big is Little read backwards -----

  lemma {:induction false} ReversedAppend<T>(s: seq<T>, x: T)
    ensures Reversed(s + [x]) == [x] + Reversed(s)
  {
    if s != [] {
      assert (s + [x])[1..] == s[1..] + [x];
      ReversedAppend(s[1..], x);
    }
  }

  lemma {:induction false} ReversedTwice<T>(s: seq<T>)
    ensures Reversed(Reversed(s)) == s
  {
    if s != [] {
      ReversedTwice(s[1..]);
      ReversedAppend(Reversed(s[1..]), s[0]);
    }
  }

  lemma {:induction false} BigIsReversedLittle(w: nat, v: nat)
    ensures Big(w, v) == Reversed(Little(w, v))
  {
    if w != 0 {
      BigIsReversedLittle(w - 1, v / 256);
      assert Little(w, v)[1..] == Little(w - 1, v / 256);
    }
  }

  lemma {:induction false} FromBigIsFromLittleReversed(bs: seq<Byte>)
    ensures FromBig(bs) == FromLittle(Reversed(bs))
  {
    if bs != [] {
      var init := bs[..|bs| - 1];
      FromBigIsFromLittleReversed(init);
      assert bs == init + [bs[|bs| - 1]];
      ReversedAppend(init, bs[|bs| - 1]);
      assert Reversed(bs)[1..] == Reversed(init);
    }
  }

  lemma FromBigOfBig(w: nat, v: nat)
    requires v < Pow256(w)
    ensures FromBig(Big(w, v)) == v
  {
    BigIsReversedLittle(w, v);
    FromBigIsFromLittleReversed(Big(w, v));
    ReversedTwice(Little(w, v));
    FromLittleOfLittle(w, v);
  }

  lemma FromCanonicalBound(bigEndian: bool, bs: seq<Byte>)
    ensures FromCanonical(bigEndian, bs) < Pow256(|bs|)
  {
    FromLittleBound(bs);
    FromLittleBound(Reversed(bs));
    FromBigIsFromLittleReversed(bs);
  }

  lemma CanonicalRoundTrip(bigEndian: bool, w: nat, v: nat)
    requires v < Pow256(w)
    ensures FromCanonical(bigEndian, Canonical(bigEndian, w, v)) == v
  {
    FromBigOfBig(w, v);
    FromLittleOfLittle(w, v);
  }

  lemma CanonicalOfFromCanonical(bigEndian: bool, bs: seq<Byte>)
    ensures Canonical(bigEndian, |bs|, FromCanonical(bigEndian, bs)) == bs
  {
    LittleOfFromLittle(bs);
    if bigEndian {
      FromBigIsFromLittleReversed(bs);
      LittleOfFromLittle(Reversed(bs));
      BigIsReversedLittle(|bs|, FromBig(bs));
      ReversedTwice(bs);
    }
  }

  // ----- The byte swap exchanges the two orders -----

  lemma LowByteApart(p: nat, low: nat)
    ensures (256 * p + low) % 256 == low % 256 && (256 * p + low) / 256 == p + low / 256
  {
  }

  lemma {:induction false} LittleAppendsTopByte(w: nat, low: nat, top: Byte)
    requires low < Pow256(w)
    ensures Little(w + 1, top * Pow256(w) + low) == Little(w, low) + [top]
  {
    if w == 0 {
      assert Little(0, top / 256) == [];
    } else {
      var p := top * Pow256(w - 1);
      assert top * Pow256(w) == 256 * p;
      LowByteApart(p, low);
      LittleAppendsTopByte(w - 1, low / 256, top);
    }
  }

  lemma {:induction false} SwapBound(w: nat, v: nat)
    ensures ReverseEndianness(w, v) < Pow256(w)
  {
    if w != 0 {
      SwapBound(w - 1, v / 256);
      TopByteBound(v % 256, Pow256(w - 1));
    }
  }

  lemma TopByteBound(top: Byte, p: nat)
    ensures top * p <= 255 * p
  {
    assert (255 - top) * p >= 0;
  }

  lemma {:induction false} LittleOfSwap(w: nat, v: nat)
    ensures Little(w, ReverseEndianness(w, v)) == Big(w, v)
  {
    if w != 0 {
      assert ReverseEndianness(w, v) == (v % 256) * Pow256(w - 1) + ReverseEndianness(w - 1, v / 256);
      assert Big(w, v) == Big(w - 1, v / 256) + [v % 256];
      hide Pow256, ReverseEndianness, Little, Big;
      SwapBound(w - 1, v / 256);
      LittleAppendsTopByte(w - 1, ReverseEndianness(w - 1, v / 256), v % 256);
      LittleOfSwap(w - 1, v / 256);
    }
  }

  lemma BigOfSwap(w: nat, v: nat)
    ensures Big(w, ReverseEndianness(w, v)) == Little(w, v)
  {
    BigIsReversedLittle(w, ReverseEndianness(w, v));
    LittleOfSwap(w, v);
    BigIsReversedLittle(w, v);
    ReversedTwice(Little(w, v));
  }

  /** Swapping twice gives the value back, for every width. */
  lemma SwapTwice(w: nat, v: nat)
    requires v < Pow256(w)
    ensures ReverseEndianness(w, ReverseEndianness(w, v)) == v
  {
    var r := ReverseEndianness(w, v);
    SwapBound(w, r);
    LittleOfSwap(w, r);
    BigOfSwap(w, v);
    FromLittleOfLittle(w, v);
    FromLittleOfLittle(w, ReverseEndianness(w, r));
  }

  // ----- What the endian-aware code does on a host -----

  /** `BigEndian != !BitConverter.IsLittleEndian`. */
  predicate MustSwap(hostLittle: bool, bigEndian: bool) {
    bigEndian != !hostLittle
  }

  /** The bytes `WriteEndian` stores: swap the value when the orders differ, then store the host image. */
  function StoredBytes(hostLittle: bool, bigEndian: bool, w: nat, v: nat): (bs: seq<Byte>)
    ensures |bs| == w
  {
    HostImage(hostLittle, w, if MustSwap(hostLittle, bigEndian) then ReverseEndianness(w, v) else v)
  }

  /** The value `ReadEndian` returns for the bytes at the cursor. */
  function LoadedValue(hostLittle: bool, bigEndian: bool, bs: seq<Byte>): nat {
    var raw := HostValue(hostLittle, bs);
    if MustSwap(hostLittle, bigEndian) then ReverseEndianness(|bs|, raw) else raw
  }

  /** Whatever the host, the bytes stored are the canonical encoding chosen by `BigEndian`. */
  lemma StoreIsHostIndependent(hostLittle: bool, bigEndian: bool, w: nat, v: nat)
    ensures StoredBytes(hostLittle, bigEndian, w, v) == Canonical(bigEndian, w, v)
  {
    LittleOfSwap(w, v);
    BigOfSwap(w, v);
  }

  /** Whatever the host, the value loaded is the canonical decoding chosen by `BigEndian`. */
  lemma LoadIsHostIndependent(hostLittle: bool, bigEndian: bool, bs: seq<Byte>)
    ensures LoadedValue(hostLittle, bigEndian, bs) == FromCanonical(bigEndian, bs)
    ensures LoadedValue(hostLittle, bigEndian, bs) < Pow256(|bs|)
  {
    FromCanonicalBound(bigEndian, bs);
    FromCanonicalBound(!bigEndian, bs);
    if MustSwap(hostLittle, bigEndian) {
      var w := |bs|;
      var raw := HostValue(hostLittle, bs);
      // the swapped value re-encodes, in the requested order, to the very bytes that were read
      CanonicalOfFromCanonical(!bigEndian, bs);
      LittleOfSwap(w, raw);
      BigOfSwap(w, raw);
      SwapBound(w, raw);
      CanonicalRoundTrip(bigEndian, w, ReverseEndianness(w, raw));
    }
  }

  // ----- Place values -----

  lemma DivideTwice(v: nat, p: nat)
    requires p > 0
    ensures v / 256 / p == v / (256 * p)
  {
    var q := v / 256 / p;
    var r := v / 256 - q * p;
    var rest := v - 256 * (v / 256);
    assert 0 <= r < p && 0 <= rest < 256;
    assert v == q * (256 * p) + (256 * r + rest);
    assert 256 * r + rest < 256 * p;
    QuotientUnique(v, 256 * p, q, 256 * r + rest);
  }

  lemma QuotientUnique(n: int, p: int, q: int, r: int)
    requires p > 0 && 0 <= r < p && n == q * p + r
    ensures n / p == q
  {
    var d := n / p - q;
    assert n == (n / p) * p + n % p;
    assert d * p == r - n % p;
    MultipleApart(d, p);
  }

  lemma MultipleApart(d: int, p: int)
    requires p > 0
    ensures d == 0 || d * p >= p || d * p <= -p
  {
    if d >= 1 {
      assert (d - 1) * p >= 0;
    } else if d <= -1 {
      assert (-d - 1) * p >= 0;
    }
  }

  /** Byte `i` of the little-endian encoding is digit `i` in base 256. */
  lemma {:induction false} LittlePlace(w: nat, v: nat, i: nat)
    requires i < w
    ensures Little(w, v)[i] == v / Pow256(i) % 256
  {
    if i > 0 {
      LittlePlace(w - 1, v / 256, i - 1);
      DivideTwice(v, Pow256(i - 1));
    }
  }

  /** Byte `i` of the big-endian encoding is digit `w - 1 - i` in base 256. */
  lemma {:induction false} BigPlace(w: nat, v: nat, i: nat)
    requires i < w
    ensures Big(w, v)[i] == v / Pow256(w - 1 - i) % 256
  {
    if i < w - 1 {
      BigPlace(w - 1, v / 256, i);
      DivideTwice(v, Pow256(w - 2 - i));
    }
  }
}
