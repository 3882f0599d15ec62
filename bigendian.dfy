/**
 * Python's `v.to_bytes(2, byteorder="big", signed=False)`, which the
 * assembler applies to each instruction value (assembler.py, line 30), and
 * the concatenation of such pairs that makes up a `.ch8` image.
 */
module BigEndian {
  import opened Options

  type byte = x: int | 0 <= x < 256

  /** What fits in two unsigned bytes; anything else makes `to_bytes` raise `OverflowError`. */
  predicate Fits(v: int) {
    0 <= v <= 0xFFFF
  }

  predicate AllFit(vs: seq<int>) {
    forall i :: 0 <= i < |vs| ==> Fits(vs[i])
  }

  /** The value a high and a low byte stand for. */
  function Word(hi: byte, lo: byte): (v: int)
    ensures Fits(v)
  {
    hi * 256 + lo
  }

  /** `v.to_bytes(2, "big", signed=False)`: two bytes, high first, or `None` for `OverflowError`. */
  function ToBytes(v: int): (r: Option<seq<byte>>)
    ensures r.Some? <==> Fits(v)
    ensures r.Some? ==> |r.value| == 2 && Word(r.value[0], r.value[1]) == v
  {
    if Fits(v) then Some([v / 256, v % 256]) else None
  }

  /** The bytes of `vs` written one value after the other, each as `ToBytes` gives it: two per value. */
  function Image(vs: seq<int>): (bs: seq<byte>)
    requires AllFit(vs)
    ensures |bs| == 2 * |vs|
    decreases |vs|
  {
    if vs == [] then [] else ToBytes(vs[0]).value + Image(vs[1..])
  }

  /** Reads an image back as 16-bit big-endian values, one per byte pair. */
  function Decode(bs: seq<byte>): (vs: seq<int>)
    requires |bs| % 2 == 0
    ensures |vs| == |bs| / 2
    ensures forall k :: 0 <= k < |vs| ==> vs[k] == Word(bs[2 * k], bs[2 * k + 1])
    decreases |bs|
  {
    if bs == [] then []
    else
      var rest := Decode(bs[2..]);
      var vs := [Word(bs[0], bs[1])] + rest;
      assert forall k :: 1 <= k < |vs| ==> vs[k] == rest[k - 1] && bs[2..][2 * (k - 1)] == bs[2 * k];
      vs
  }

  /**
   * Round trip one way: decoding an image gives back the values it was made
   * of, in order; so bytes 2k and 2k+1 of the image, read as high * 256 +
   * low, are value k.
   */
  lemma {:induction false} DecodeImage(vs: seq<int>)
    requires AllFit(vs)
    ensures Decode(Image(vs)) == vs
    ensures forall k :: 0 <= k < |vs| ==> Word(Image(vs)[2 * k], Image(vs)[2 * k + 1]) == vs[k]
    decreases |vs|
  {
    if vs != [] {
      var first := ToBytes(vs[0]).value;
      var rest := Image(vs[1..]);
      DecodeImage(vs[1..]);
      assert (first + rest)[2..] == rest;
      assert vs == [vs[0]] + vs[1..];
    }
  }

  /** Round trip the other way: every byte sequence of even length is the image of its decoding. */
  lemma {:induction false} ImageDecode(bs: seq<byte>)
    requires |bs| % 2 == 0
    ensures Image(Decode(bs)) == bs
    decreases |bs|
  {
    if bs != [] {
      var vs := Decode(bs);
      ImageDecode(bs[2..]);
      assert vs[1..] == Decode(bs[2..]);
      var pair := ToBytes(vs[0]).value;
      WordInjective(pair[0], pair[1], bs[0], bs[1]);
      assert pair == bs[..2];
      assert bs == bs[..2] + bs[2..];
    }
  }

  /** A value has only one pair of bytes. */
  lemma WordInjective(hi: byte, lo: byte, hi': byte, lo': byte)
    requires Word(hi, lo) == Word(hi', lo')
    ensures hi == hi' && lo == lo'
  {
  }

  /** The image of a concatenation is the concatenation of the images. */
  lemma {:induction false} ImageAppend(xs: seq<int>, ys: seq<int>)
    requires AllFit(xs) && AllFit(ys)
    ensures AllFit(xs + ys) && Image(xs + ys) == Image(xs) + Image(ys)
    decreases |xs|
  {
    if xs == [] {
      assert xs + ys == ys;
    } else {
      assert (xs + ys)[0] == xs[0];
      assert (xs + ys)[1..] == xs[1..] + ys;
      ImageAppend(xs[1..], ys);
    }
  }
}
