/** Bytes and fixed-width integer layouts: Python's `int.to_bytes(k, "big")`
    and numpy's `int32` `tobytes()` in the machine's native byte order. */
module Bytes {
  import opened Wrappers

  type Byte = x: int | 0 <= x < 256

  /** numpy's machine-native byte order, which the source does not fix. */
  datatype ByteOrder = Little | Big

  function Pow256(k: nat): (r: nat)
    ensures r > 0
  {
    if k == 0 then 1 else 256 * Pow256(k - 1)
  }

  /** The numeric value of a big-endian byte string. */
  function DecodeBE(bs: seq<Byte>): (r: nat)
    ensures r < Pow256(|bs|)
  {
    if |bs| == 0 then 0 else 256 * DecodeBE(bs[..|bs| - 1]) + bs[|bs| - 1]
  }

  /** `x` written as exactly `k` big-endian bytes. */
  function EncodeBE(x: nat, k: nat): (r: seq<Byte>)
    requires x < Pow256(k)
    ensures |r| == k
    ensures DecodeBE(r) == x
  {
    if k == 0 then []
    else
      var r := EncodeBE(x / 256, k - 1) + [x % 256];
      assert r[..k - 1] == EncodeBE(x / 256, k - 1);
      r
  }

  /** Two byte strings of one width with the same value are the same string. */
  lemma {:induction false} DecodeBEInjective(a: seq<Byte>, b: seq<Byte>)
    requires |a| == |b|
    requires DecodeBE(a) == DecodeBE(b)
    ensures a == b
  {
    if |a| > 0 {
      var n := |a| - 1;
      assert a[n] == b[n] && DecodeBE(a[..n]) == DecodeBE(b[..n]) by {
        SplitByte(DecodeBE(a[..n]), a[n]);
        SplitByte(DecodeBE(b[..n]), b[n]);
      }
      DecodeBEInjective(a[..n], b[..n]);
      assert a == a[..n] + [a[n]] && b == b[..n] + [b[n]];
    }
  }

  /** The last digit and the rest of a base-256 number are determined by it. */
  lemma SplitByte(hi: nat, lo: Byte)
    ensures (256 * hi + lo) / 256 == hi && (256 * hi + lo) % 256 == lo
  {
  }

  lemma EncodeDecodeBE(bs: seq<Byte>)
    ensures EncodeBE(DecodeBE(bs), |bs|) == bs
  {
    DecodeBEInjective(EncodeBE(DecodeBE(bs), |bs|), bs);
  }

  const NegativeToUnsigned: string := "OverflowError: can't convert negative int to unsigned"
  const IntTooBig: string := "OverflowError: int too big to convert"

  /** Python's `x.to_bytes(k, "big")` (unsigned): raises OverflowError for a
      negative `x` and for one that does not fit in `k` bytes. */
  function ToBytesBig(x: int, k: nat): (r: Result<seq<Byte>>)
    ensures r.Ok? <==> 0 <= x < Pow256(k)
    ensures r.Ok? ==> |r.value| == k && DecodeBE(r.value) == x
  {
    if x < 0 then Raise(NegativeToUnsigned)
    else if x >= Pow256(k) then Raise(IntTooBig)
    else Ok(EncodeBE(x, k))
  }

  const Two32: nat := 0x1_0000_0000
  const Two31: nat := 0x8000_0000

  predicate IsInt32(x: int) {
    -(Two31 as int) <= x < Two31
  }

  function Reverse<T>(s: seq<T>): (r: seq<T>)
    ensures |r| == |s|
    ensures forall i | 0 <= i < |s| :: r[i] == s[|s| - 1 - i]
  {
    if |s| == 0 then [] else Reverse(s[1..]) + [s[0]]
  }

  lemma ReverseReverse<T>(s: seq<T>)
    ensures Reverse(Reverse(s)) == s
  {
  }

  function InOrder(order: ByteOrder, bs: seq<Byte>): seq<Byte> {
    if order == Big then bs else Reverse(bs)
  }

  /** One `int32` element as `tobytes()` lays it out: the value wrapped to
      32 bits, in two's complement, in the native byte order. */
  function Int32Bytes(order: ByteOrder, x: int): (r: seq<Byte>)
    ensures |r| == 4
  {
    assert Pow256(4) == Two32;
    InOrder(order, EncodeBE(x % Two32, 4))
  }

  /** Reads back one `int32` element from its four bytes. */
  function Int32FromBytes(order: ByteOrder, bs: seq<Byte>): (r: int)
    requires |bs| == 4
    ensures IsInt32(r)
  {
    assert Pow256(4) == Two32;
    var u := DecodeBE(InOrder(order, bs));
    if u < Two31 then u else u - Two32
  }

  lemma Int32RoundTrip(order: ByteOrder, x: int)
    requires IsInt32(x)
    ensures Int32FromBytes(order, Int32Bytes(order, x)) == x
  {
    assert Pow256(4) == Two32;
    var u := x % Two32;
    var be := EncodeBE(u, 4);
    assert DecodeBE(InOrder(order, Int32Bytes(order, x))) == u by {
      assert InOrder(order, InOrder(order, be)) == be by {
        if order == Little {
          ReverseReverse(be);
        }
      }
    }
    assert (if u < Two31 then u else u - Two32) == x;
  }

  /** `tobytes()` of a one-dimensional `int32` array. */
  function Int32sBytes(order: ByteOrder, xs: seq<int>): (r: seq<Byte>)
    ensures |r| == 4 * |xs|
  {
    if |xs| == 0 then [] else Int32Bytes(order, xs[0]) + Int32sBytes(order, xs[1..])
  }

  /** Reads an `int32` array back from its `tobytes()` image; a trailing
      group of fewer than four bytes is ignored. */
  function Int32sFromBytes(order: ByteOrder, bs: seq<Byte>): (r: seq<int>)
    ensures AllInt32(r)
  {
    if |bs| < 4 then []
    else [Int32FromBytes(order, bs[..4])] + Int32sFromBytes(order, bs[4..])
  }

  predicate AllInt32(xs: seq<int>) {
    forall i | 0 <= i < |xs| :: IsInt32(xs[i])
  }

  lemma {:induction false} Int32sRoundTrip(order: ByteOrder, xs: seq<int>)
    requires AllInt32(xs)
    ensures Int32sFromBytes(order, Int32sBytes(order, xs)) == xs
  {
    if |xs| > 0 {
      var head, tail := Int32Bytes(order, xs[0]), Int32sBytes(order, xs[1..]);
      var bs := head + tail;
      assert Int32sFromBytes(order, bs) == [Int32FromBytes(order, head)] + Int32sFromBytes(order, tail) by {
        assert bs[..4] == head && bs[4..] == tail;
      }
      assert Int32FromBytes(order, head) == xs[0] by {
        Int32RoundTrip(order, xs[0]);
      }
      assert Int32sFromBytes(order, tail) == xs[1..] by {
        assert AllInt32(xs[1..]) by {
          assert forall i | 0 <= i < |xs[1..]| :: xs[1..][i] == xs[i + 1];
        }
        Int32sRoundTrip(order, xs[1..]);
      }
      assert xs == [xs[0]] + xs[1..];
    }
  }
}
