/** `serialize_pk`: the public-key layout the KEM layer hashes, and its
    inverse, so that equal encodings mean equal keys. */
module PkCodec {
  import opened Wrappers
  import opened Bytes
  import opened Lwe

  const PkTag: seq<Byte> := [80, 75]  // b"PK"

  /** Row-major (C order) flattening, as `tobytes()` walks a 2-D array. */
  function Flatten(rows: seq<seq<int>>): (xs: seq<int>) {
    if |rows| == 0 then [] else rows[0] + Flatten(rows[1..])
  }

  function Unflatten(xs: seq<int>, rows: nat, cols: nat): seq<seq<int>> {
    if rows == 0 || |xs| < cols then []
    else [xs[..cols]] + Unflatten(xs[cols..], rows - 1, cols)
  }

  /** `rows · cols`, by repeated addition. */
  function Product(rows: nat, cols: nat): nat {
    if rows == 0 then 0 else cols + Product(rows - 1, cols)
  }

  predicate HasShape(a: seq<seq<int>>, rows: nat, cols: nat) {
    |a| == rows && forall i | 0 <= i < |a| :: |a[i]| == cols
  }

  lemma {:induction false} FlattenUnflatten(a: seq<seq<int>>, rows: nat, cols: nat)
    requires HasShape(a, rows, cols)
    ensures |Flatten(a)| == Product(rows, cols)
    ensures Unflatten(Flatten(a), rows, cols) == a
  {
    if rows > 0 {
      FlattenUnflatten(a[1..], rows - 1, cols);
      var xs := Flatten(a);
      assert xs[..cols] == a[0] && xs[cols..] == Flatten(a[1..]);
      assert a == [a[0]] + a[1..];
    }
  }

  /** The fixed-width header: `"PK"`, `n` (2 bytes), `q` (4 bytes), `m`
      (2 bytes), all big-endian; an out-of-range field raises OverflowError. */
  function PkHeaderBytes(n: int, q: int, m: int): (r: Result<seq<Byte>>)
    ensures r.Ok? <==> 0 <= n < Pow256(2) && 0 <= q < Pow256(4) && 0 <= m < Pow256(2)
  {
    var nb :- ToBytesBig(n, 2);
    var qb :- ToBytesBig(q, 4);
    var mb :- ToBytesBig(m, 2);
    Ok(PkTag + nb + qb + mb)
  }

  /** `serialize_pk`: the header, then `A` and `b` as native `int32` arrays. */
  function SerializePk(order: ByteOrder, pk: PublicKey, n: int, q: int, m: int): (r: Result<seq<Byte>>)
    ensures r.Ok? <==> 0 <= n < Pow256(2) && 0 <= q < Pow256(4) && 0 <= m < Pow256(2)
  {
    var header :- PkHeaderBytes(n, q, m);
    Ok(header + Int32sBytes(order, Flatten(pk.a)) + Int32sBytes(order, pk.b))
  }

  datatype PkImage = PkImage(n: nat, q: nat, m: nat, pk: PublicKey)

  /** Inverse of `serialize_pk`: the header fixes the shapes of `A` and `b`. */
  function ParsePk(order: ByteOrder, bs: seq<Byte>): Option<PkImage> {
    if |bs| < 10 || bs[..2] != PkTag then None
    else
      var n := DecodeBE(bs[2..4]);
      var q := DecodeBE(bs[4..8]);
      var m := DecodeBE(bs[8..10]);
      var body := bs[10..];
      var aLen := 4 * Product(m, n);
      if |body| != aLen + 4 * m then None
      else
        var a := Unflatten(Int32sFromBytes(order, body[..aLen]), m, n);
        Some(PkImage(n, q, m, PublicKey(a, Int32sFromBytes(order, body[aLen..]))))
  }

  /** The header of a `serialize_pk` output reads back as `n`, `q`, `m`. */
  lemma PkHeaderFields(n: nat, q: nat, m: nat)
    requires n < Pow256(2) && q < Pow256(4) && m < Pow256(2)
    ensures var h := PkHeaderBytes(n, q, m).value;
      && |h| == 10 && h[..2] == PkTag
      && DecodeBE(h[2..4]) == n && DecodeBE(h[4..8]) == q && DecodeBE(h[8..10]) == m
  {
    var nb, qb, mb := ToBytesBig(n, 2).value, ToBytesBig(q, 4).value, ToBytesBig(m, 2).value;
    var h := PkHeaderBytes(n, q, m).value;
    assert h == PkTag + nb + qb + mb;
    assert h[2..4] == nb && h[4..8] == qb && h[8..10] == mb;
  }

  /** What `ParsePk` returns once the header and body length are known. */
  lemma ParsePkOf(order: ByteOrder, bs: seq<Byte>, n: nat, q: nat, m: nat)
    requires |bs| >= 10 && bs[..2] == PkTag
    requires DecodeBE(bs[2..4]) == n && DecodeBE(bs[4..8]) == q && DecodeBE(bs[8..10]) == m
    requires |bs[10..]| == 4 * Product(m, n) + 4 * m
    ensures ParsePk(order, bs) == Some(PkImage(n, q, m, PublicKey(
      Unflatten(Int32sFromBytes(order, bs[10..][..4 * Product(m, n)]), m, n),
      Int32sFromBytes(order, bs[10..][4 * Product(m, n)..]))))
  {
  }

  /** The body of a `serialize_pk` output reads back as `A` and `b`. */
  lemma PkBody(order: ByteOrder, pk: PublicKey, n: nat, m: nat)
    requires HasShape(pk.a, m, n) && |pk.b| == m
    requires AllInt32(Flatten(pk.a)) && AllInt32(pk.b)
    ensures var fa := Int32sBytes(order, Flatten(pk.a));
      var body := fa + Int32sBytes(order, pk.b);
      && |fa| == 4 * Product(m, n) && |body| == 4 * Product(m, n) + 4 * m
      && Unflatten(Int32sFromBytes(order, body[..4 * Product(m, n)]), m, n) == pk.a
      && Int32sFromBytes(order, body[4 * Product(m, n)..]) == pk.b
  {
    var fa := Int32sBytes(order, Flatten(pk.a));
    var fb := Int32sBytes(order, pk.b);
    var body := fa + fb;
    FlattenUnflatten(pk.a, m, n);
    assert body[..|fa|] == fa && body[|fa|..] == fb;
    Int32sRoundTrip(order, Flatten(pk.a));
    Int32sRoundTrip(order, pk.b);
  }

  /** Parsing inverts `serialize_pk` for a key whose shape matches the
      header and whose entries are `int32` values. */
  lemma ParseSerializePk(order: ByteOrder, pk: PublicKey, n: nat, q: nat, m: nat)
    requires n < Pow256(2) && q < Pow256(4) && m < Pow256(2)
    requires HasShape(pk.a, m, n) && |pk.b| == m
    requires AllInt32(Flatten(pk.a)) && AllInt32(pk.b)
    ensures SerializePk(order, pk, n, q, m).Ok?
    ensures ParsePk(order, SerializePk(order, pk, n, q, m).value) == Some(PkImage(n, q, m, pk))
  {
    var header := PkHeaderBytes(n, q, m).value;
    var fa, fb := Int32sBytes(order, Flatten(pk.a)), Int32sBytes(order, pk.b);
    var body := fa + fb;
    var bs := header + body;
    assert SerializePk(order, pk, n, q, m) == Ok(bs) by {
      assert header + fa + fb == bs;
    }
    PkHeaderFields(n, q, m);
    assert bs[..2] == header[..2] && bs[10..] == body;
    assert bs[2..4] == header[2..4] && bs[4..8] == header[4..8] && bs[8..10] == header[8..10];
    assert |body| == 4 * Product(m, n) + 4 * m
      && Unflatten(Int32sFromBytes(order, body[..4 * Product(m, n)]), m, n) == pk.a
      && Int32sFromBytes(order, body[4 * Product(m, n)..]) == pk.b by {
      PkBody(order, pk, n, m);
    }
    ParsePkOf(order, bs, n, q, m);
  }

  /** Two public keys of one shape with the same encoding are the same key. */
  lemma SerializePkInjective(order: ByteOrder, pk1: PublicKey, pk2: PublicKey, n: nat, q: nat, m: nat)
    requires n < Pow256(2) && q < Pow256(4) && m < Pow256(2)
    requires HasShape(pk1.a, m, n) && |pk1.b| == m && AllInt32(Flatten(pk1.a)) && AllInt32(pk1.b)
    requires HasShape(pk2.a, m, n) && |pk2.b| == m && AllInt32(Flatten(pk2.a)) && AllInt32(pk2.b)
    requires SerializePk(order, pk1, n, q, m) == SerializePk(order, pk2, n, q, m)
    ensures pk1 == pk2
  {
    ParseSerializePk(order, pk1, n, q, m);
    ParseSerializePk(order, pk2, n, q, m);
  }
}
