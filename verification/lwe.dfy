/** Regev-style LWE bit encryption (`LWEEncryption` in
    src/algorithem/LWE_wrapper.py) over mathematical integers.

    Every random choice is an explicit argument: the secret `s`, the matrix
    `A`, the reduced noise vector `e` (the Gaussian sampler's output taken
    mod q) and, for every plaintext bit, the row subset `S` that
    `random.sample` picked. */
module Lwe {
  import opened Wrappers
  import opened BitCodec
  import opened ModArith

  const Int32Max: int := 0x7FFF_FFFF

  const KeysNotGenerated: string := "ValueError: Keys not generated. Call generate_keys() first."
  const NoPrivateKey: string := "ValueError: Private key not available."
  const ShapesNotAligned: string := "ValueError: shapes not aligned"

  datatype PublicKey = PublicKey(a: seq<seq<int>>, b: seq<int>)

  /** One ciphertext element: the vector `u` and the scalar `v`. */
  datatype CtPair = CtPair(u: seq<int>, v: int)

  /** An `LWEEncryption` object: dimension `n`, modulus `q` and the keys
      once `generate_keys` has run. `sigma` only feeds the noise sampler. */
  datatype Lwe = Lwe(n: nat, q: nat, privateKey: Option<seq<int>>, publicKey: Option<PublicKey>) {
    /** Number of public samples, `self.m = n + 50`. */
    function M(): nat {
      n + 50
    }
  }

  /** A freshly constructed object holds the given dimension and modulus
      and no keys; `sigma` only feeds the noise sampler. */
  function NewLwe(n: nat, q: nat): (lwe: Lwe)
    ensures lwe.n == n && lwe.q == q
    ensures lwe.privateKey.None? && lwe.publicKey.None?
    ensures lwe.M() == n + 50
  {
    Lwe(n, q, None, None)
  }

  /** The constructor's defaults, `n = 128`, `q = 2053`. */
  const DefaultLwe: Lwe := NewLwe(128, 2053)

  /** The default parameters keep key generation's `int32` arithmetic exact. */
  lemma DefaultLweFitsInt32()
    ensures FitsInt32(DefaultLwe.n, DefaultLwe.q) && DefaultLwe.M() == 178
  {
  }

  predicate IsVector(v: seq<int>, len: nat, q: int) {
    |v| == len && forall j | 0 <= j < |v| :: 0 <= v[j] < q
  }

  predicate IsMatrix(a: seq<seq<int>>, rows: nat, cols: nat, q: int) {
    |a| == rows && forall i | 0 <= i < rows :: IsVector(a[i], cols, q)
  }

  predicate IsBinary(s: seq<int>, n: nat) {
    |s| == n && forall j | 0 <= j < n :: s[j] == 0 || s[j] == 1
  }

  /** The numpy `int32` arithmetic of key generation cannot overflow. */
  predicate FitsInt32(n: nat, q: nat) {
    0 < q && (n + 1) * q <= Int32Max
  }

  predicate WellFormedKey(pk: PublicKey, m: nat, n: nat, q: nat) {
    IsMatrix(pk.a, m, n, q) && IsVector(pk.b, m, q)
  }

  /** The shapes that only `generate_keys` installs. */
  predicate Valid(lwe: Lwe) {
    && FitsInt32(lwe.n, lwe.q)
    && (lwe.privateKey.Some? ==> IsBinary(lwe.privateKey.value, lwe.n))
    && (lwe.publicKey.Some? ==> WellFormedKey(lwe.publicKey.value, lwe.M(), lwe.n, lwe.q))
  }

  function Dot(u: seq<int>, s: seq<int>): int
    requires |u| == |s|
  {
    if |u| == 0 then 0 else Dot(u[..|u| - 1], s[..|s| - 1]) + u[|u| - 1] * s[|s| - 1]
  }

  /** With a 0/1 secret the inner product is a sum of at most `n` entries. */
  lemma {:induction false} DotBound(u: seq<int>, s: seq<int>, q: nat)
    requires IsVector(u, |s|, q) && IsBinary(s, |s|) && q > 0
    ensures 0 <= Dot(u, s) <= |s| * (q - 1)
  {
    if |u| > 0 {
      var k := |u| - 1;
      assert 0 <= Dot(u[..k], s[..k]) <= k * (q - 1) by {
        DotBound(u[..k], s[..k], q);
      }
      assert 0 <= u[k] * s[k] <= q - 1 by {
        if s[k] == 0 {
          assert u[k] * s[k] == 0;
        } else {
          assert u[k] * s[k] == u[k];
        }
      }
      assert k * (q - 1) + (q - 1) == |s| * (q - 1);
    }
  }

  // ---------------------------------------------------------------------
  // generate_keys
  // ---------------------------------------------------------------------

  /** `generate_keys` with its random draws as arguments: `b = (A·s + e) mod q`.
      Returns the updated object, the secret key and the public key. */
  function GenerateKeys(lwe: Lwe, s: seq<int>, a: seq<seq<int>>, e: seq<int>): (r: (Lwe, seq<int>, PublicKey))
    requires FitsInt32(lwe.n, lwe.q)
    requires IsBinary(s, lwe.n)
    requires IsMatrix(a, lwe.M(), lwe.n, lwe.q)
    requires IsVector(e, lwe.M(), lwe.q)
    ensures Valid(r.0)
    ensures r.0.privateKey == Some(r.1) && r.0.publicKey == Some(r.2)
    ensures r.1 == s && r.2.a == a
    ensures r.0.n == lwe.n && r.0.q == lwe.q
    ensures forall i | 0 <= i < lwe.M() :: 0 <= Dot(a[i], s) + e[i] <= Int32Max
  {
    var q := lwe.q;
    forall i | 0 <= i < lwe.M()
      ensures 0 <= Dot(a[i], s) + e[i] <= Int32Max
    {
      DotBound(a[i], s, q);
      assert lwe.n * (q - 1) + (q - 1) <= (lwe.n + 1) * q;
    }
    var b := seq(lwe.M(), i requires 0 <= i < lwe.M() => (Dot(a[i], s) + e[i]) % q);
    var pk := PublicKey(a, b);
    (lwe.(privateKey := Some(s), publicKey := Some(pk)), s, pk)
  }

  // ---------------------------------------------------------------------
  // encrypt
  // ---------------------------------------------------------------------

  /** What `random.sample(range(m), randint(n // 2, n))` can return. */
  predicate IsSample(S: seq<nat>, n: nat, m: nat) {
    && n / 2 <= |S| <= n
    && IndicesBelow(S, m)
    && (forall k, l | 0 <= k < l < |S| :: S[k] != S[l])
  }

  predicate IndicesBelow(S: seq<nat>, m: nat) {
    forall k | 0 <= k < |S| :: S[k] < m
  }

  /** The inner loop `for i in S: u = (u + A[i]) % q; v = (v + b[i]) % q`. */
  function Accumulate(pk: PublicKey, n: nat, q: nat, S: seq<nat>): (r: (seq<int>, int))
    requires q > 0 && WellFormedKey(pk, |pk.a|, n, q) && IndicesBelow(S, |pk.a|)
    ensures IsVector(r.0, n, q) && 0 <= r.1 < q
  {
    if |S| == 0 then (seq(n, _ => 0), 0)
    else
      var (u, v) := Accumulate(pk, n, q, S[..|S| - 1]);
      var i := S[|S| - 1];
      (seq(n, j requires 0 <= j < n => (u[j] + pk.a[i][j]) % q), (v + pk.b[i]) % q)
  }

  /** One plaintext bit: the subset sums plus `bit * (q // 2)` on `v`. */
  function EncryptBit(pk: PublicKey, n: nat, q: nat, S: seq<nat>, bit: Bit): (c: CtPair)
    requires q > 0 && WellFormedKey(pk, |pk.a|, n, q) && IndicesBelow(S, |pk.a|)
    ensures IsVector(c.u, n, q) && 0 <= c.v < q
  {
    var (u, v) := Accumulate(pk, n, q, S);
    CtPair(u, (v + bit * (q / 2)) % q)
  }

  predicate WellFormedCt(ct: seq<CtPair>, n: nat, q: nat) {
    forall k | 0 <= k < |ct| :: IsVector(ct[k].u, n, q) && 0 <= ct[k].v < q
  }

  /** `encrypt`: one `(u, v)` pair per bit of `_string_to_bits(plaintext)`,
      bit `k` using row subset `subsets[k]`. */
  function Encrypt(lwe: Lwe, plaintext: seq<PyChar>, subsets: seq<seq<nat>>): (r: Result<seq<CtPair>>)
    requires Valid(lwe)
    requires |subsets| == |StringToBits(plaintext)|
    requires forall k | 0 <= k < |subsets| :: IsSample(subsets[k], lwe.n, lwe.M())
    ensures r.Ok? <==> lwe.publicKey.Some?
    ensures r.Ok? ==> |r.value| == |StringToBits(plaintext)| && WellFormedCt(r.value, lwe.n, lwe.q)
    ensures r.Ok? && IsLatin1(plaintext) ==> |r.value| == 8 * |plaintext|
  {
    if lwe.publicKey.None? then Raise(KeysNotGenerated)
    else
      var pk := lwe.publicKey.value;
      assert |pk.a| == lwe.M();
      var bits := StringToBits(plaintext);
      forall k | 0 <= k < |bits|
        ensures IndicesBelow(subsets[k], |pk.a|)
      {
        assert IsSample(subsets[k], lwe.n, lwe.M());
      }
      assert IsLatin1(plaintext) ==> |bits| == 8 * |plaintext| by {
        if IsLatin1(plaintext) {
          StringToBitsLatin1(plaintext);
        }
      }
      Ok(seq(|bits|, k requires 0 <= k < |bits| => EncryptBit(pk, lwe.n, lwe.q, subsets[k], bits[k])))
  }

  // ---------------------------------------------------------------------
  // decrypt
  // ---------------------------------------------------------------------

  /** `(v - <u, s> mod q) mod q`, the quantity decryption thresholds. */
  function Diff(s: seq<int>, q: nat, c: CtPair): (d: int)
    requires q > 0 && |c.u| == |s|
    ensures 0 <= d < q
  {
    (c.v - Dot(c.u, s) % q) % q
  }

  /** Decodes one pair: 0 near 0 (mod q), 1 near q/2. */
  function DecryptBit(s: seq<int>, q: nat, c: CtPair): (bit: Bit)
    requires q > 0 && |c.u| == |s|
    ensures bit == 0 <==> var diff := (c.v - Dot(c.u, s) % q) % q; diff < q / 4 || diff > 3 * q / 4
  {
    var diff := Diff(s, q, c);
    if diff < q / 4 || diff > 3 * q / 4 then 0 else 1
  }

  predicate Aligned(ct: seq<CtPair>, n: nat) {
    forall k | 0 <= k < |ct| :: |ct[k].u| == n
  }

  function DecryptBits(s: seq<int>, q: nat, ct: seq<CtPair>): (bits: seq<Bit>)
    requires q > 0 && Aligned(ct, |s|)
    ensures |bits| == |ct|
    ensures forall k | 0 <= k < |ct| ::
      (bits[k] == 0 <==> Diff(s, q, ct[k]) < q / 4 || Diff(s, q, ct[k]) > 3 * q / 4)
  {
    seq(|ct|, k requires 0 <= k < |ct| => DecryptBit(s, q, ct[k]))
  }

  /** `decrypt`: threshold every pair, then `_bits_to_string`. A missing
      private key raises; so does numpy's `dot` on a `u` of the wrong length. */
  function Decrypt(lwe: Lwe, ct: seq<CtPair>): (r: Result<seq<PyChar>>)
    requires Valid(lwe)
    ensures r.Ok? <==> lwe.privateKey.Some? && Aligned(ct, lwe.n)
    ensures r.Ok? ==> NonNulBytes(r.value) && |r.value| <= (|ct| + 7) / 8
  {
    if lwe.privateKey.None? then Raise(NoPrivateKey)
    else if !Aligned(ct, lwe.n) then Raise(ShapesNotAligned)
    else Ok(BitsToString(DecryptBits(lwe.privateKey.value, lwe.q, ct)))
  }

  // ---------------------------------------------------------------------
  // Correctness
  // ---------------------------------------------------------------------

  /** The representative of `x mod q` in `(-q/2, q/2]`. */
  function Centre(x: int, q: nat): (c: int)
    requires q > 0
    ensures Cong(c, x, q)
    ensures -(q as int) < 2 * c <= q
  {
    var r := x % q;
    CongMod(x, q);
    if r <= q / 2 then r
    else
      ModShift(r, -1, q);
      r - q
  }

  /** The reduced noise entries of the rows a subset picks, summed. */
  function NoiseSum(e: seq<int>, S: seq<nat>): int
    requires IndicesBelow(S, |e|)
  {
    if |S| == 0 then 0 else NoiseSum(e, S[..|S| - 1]) + e[S[|S| - 1]]
  }

  /** The accumulated noise is small once centred: `|E| < q // 4`. */
  predicate SmallNoise(e: seq<int>, S: seq<nat>, q: nat) {
    && q > 0
    && IndicesBelow(S, |e|)
    && var c := Centre(NoiseSum(e, S), q);
      -(q / 4) < c < q / 4
  }

  function VecAdd(x: seq<int>, y: seq<int>): (z: seq<int>)
    requires |x| == |y|
    ensures |z| == |x| && forall j | 0 <= j < |z| :: z[j] == x[j] + y[j]
  {
    seq(|x|, j requires 0 <= j < |x| => x[j] + y[j])
  }

  /** Column sums `Σ_{i∈S} A[i]` without reduction. */
  function ColumnSums(a: seq<seq<int>>, n: nat, S: seq<nat>): (c: seq<int>)
    requires IndicesBelow(S, |a|) && forall i | 0 <= i < |a| :: |a[i]| == n
    ensures |c| == n
  {
    if |S| == 0 then seq(n, _ => 0)
    else VecAdd(ColumnSums(a, n, S[..|S| - 1]), a[S[|S| - 1]])
  }

  /** `Σ_{i∈S} <A[i], s>`. */
  function RowDots(a: seq<seq<int>>, s: seq<int>, S: seq<nat>): int
    requires IndicesBelow(S, |a|) && forall i | 0 <= i < |a| :: |a[i]| == |s|
  {
    if |S| == 0 then 0 else RowDots(a, s, S[..|S| - 1]) + Dot(a[S[|S| - 1]], s)
  }

  /** `Σ_{i∈S} b[i]` without reduction. */
  function EntrySum(b: seq<int>, S: seq<nat>): int
    requires IndicesBelow(S, |b|)
  {
    if |S| == 0 then 0 else EntrySum(b, S[..|S| - 1]) + b[S[|S| - 1]]
  }

  /** The loop keeps `u` and `v` congruent to the unreduced sums. */
  lemma {:induction false} AccumulateSums(pk: PublicKey, n: nat, q: nat, S: seq<nat>)
    requires q > 0 && WellFormedKey(pk, |pk.a|, n, q) && IndicesBelow(S, |pk.a|)
    ensures var (u, v) := Accumulate(pk, n, q, S);
      && (forall j | 0 <= j < n :: Cong(u[j], ColumnSums(pk.a, n, S)[j], q))
      && Cong(v, EntrySum(pk.b, S), q)
  {
    if |S| > 0 {
      var S' := S[..|S| - 1];
      var i := S[|S| - 1];
      AccumulateSums(pk, n, q, S');
      var (u0, v0) := Accumulate(pk, n, q, S');
      var c0 := ColumnSums(pk.a, n, S');
      var (u, v) := Accumulate(pk, n, q, S);
      forall j | 0 <= j < n
        ensures Cong(u[j], ColumnSums(pk.a, n, S)[j], q)
      {
        CongAdd(u0[j], c0[j], pk.a[i][j], pk.a[i][j], q);
        CongMod(u0[j] + pk.a[i][j], q);
      }
      CongAdd(v0, EntrySum(pk.b, S'), pk.b[i], pk.b[i], q);
      CongMod(v0 + pk.b[i], q);
    }
  }

  /** Congruent vectors have congruent inner products with a 0/1 secret. */
  lemma {:induction false} DotCong(u: seq<int>, w: seq<int>, s: seq<int>, q: nat)
    requires q > 0 && |u| == |w| == |s| && IsBinary(s, |s|)
    requires forall j | 0 <= j < |u| :: Cong(u[j], w[j], q)
    ensures Cong(Dot(u, s), Dot(w, s), q)
  {
    if |u| > 0 {
      var k := |u| - 1;
      var du, dw := Dot(u[..k], s[..k]), Dot(w[..k], s[..k]);
      DotCong(u[..k], w[..k], s[..k], q);
      assert Dot(u, s) == du + u[k] * s[k] && Dot(w, s) == dw + w[k] * s[k];
      if s[k] == 1 {
        assert u[k] * s[k] == u[k] && w[k] * s[k] == w[k];
        CongAdd(du, dw, u[k], w[k], q);
      } else {
        assert u[k] * s[k] == 0 && w[k] * s[k] == 0;
        CongAdd(du, dw, 0, 0, q);
      }
    }
  }

  lemma {:induction false} DotVecAdd(x: seq<int>, y: seq<int>, s: seq<int>)
    requires |x| == |y| == |s|
    ensures Dot(VecAdd(x, y), s) == Dot(x, s) + Dot(y, s)
  {
    if |x| > 0 {
      var k := |x| - 1;
      assert VecAdd(x, y)[..k] == VecAdd(x[..k], y[..k]);
      DotVecAdd(x[..k], y[..k], s[..k]);
      assert (x[k] + y[k]) * s[k] == x[k] * s[k] + y[k] * s[k];
    }
  }

  lemma {:induction false} DotZeros(n: nat, s: seq<int>)
    requires |s| == n
    ensures Dot(seq(n, _ => 0), s) == 0
  {
    if n > 0 {
      assert seq(n, _ => 0)[..n - 1] == seq(n - 1, _ => 0);
      DotZeros(n - 1, s[..n - 1]);
    }
  }

  /** Summing rows first and then taking the inner product equals summing
      the rows' inner products. */
  lemma {:induction false} ColumnSumsDot(a: seq<seq<int>>, s: seq<int>, S: seq<nat>)
    requires IndicesBelow(S, |a|) && forall i | 0 <= i < |a| :: |a[i]| == |s|
    ensures Dot(ColumnSums(a, |s|, S), s) == RowDots(a, s, S)
  {
    if |S| == 0 {
      DotZeros(|s|, s);
    } else {
      var S' := S[..|S| - 1];
      ColumnSumsDot(a, s, S');
      DotVecAdd(ColumnSums(a, |s|, S'), a[S[|S| - 1]], s);
    }
  }

  /** With `b = A·s + e (mod q)`, the sum of the picked `b` entries is the
      sum of the picked rows' inner products plus the picked noise. */
  lemma {:induction false} EntrySumCong(pk: PublicKey, s: seq<int>, e: seq<int>, q: nat, S: seq<nat>)
    requires q > 0 && |pk.a| == |pk.b| == |e| && IndicesBelow(S, |pk.a|)
    requires forall i | 0 <= i < |pk.a| :: |pk.a[i]| == |s|
    requires forall i | 0 <= i < |pk.b| :: pk.b[i] == (Dot(pk.a[i], s) + e[i]) % q
    ensures Cong(EntrySum(pk.b, S), RowDots(pk.a, s, S) + NoiseSum(e, S), q)
  {
    if |S| > 0 {
      var S' := S[..|S| - 1];
      var i := S[|S| - 1];
      EntrySumCong(pk, s, e, q, S');
      CongMod(Dot(pk.a[i], s) + e[i], q);
      CongAdd(EntrySum(pk.b, S'), RowDots(pk.a, s, S') + NoiseSum(e, S'),
              pk.b[i], Dot(pk.a[i], s) + e[i], q);
    }
  }

  /** The decryption difference is the subset's noise plus `bit * (q // 2)`. */
  lemma DiffIsNoise(pk: PublicKey, s: seq<int>, e: seq<int>, n: nat, q: nat, S: seq<nat>, bit: Bit)
    requires q > 0 && WellFormedKey(pk, |pk.a|, n, q) && IsBinary(s, n)
    requires |e| == |pk.a| && IndicesBelow(S, |pk.a|)
    requires forall i | 0 <= i < |pk.b| :: pk.b[i] == (Dot(pk.a[i], s) + e[i]) % q
    ensures Cong(Diff(s, q, EncryptBit(pk, n, q, S, bit)), NoiseSum(e, S) + bit * (q / 2), q)
  {
    var (u, v) := Accumulate(pk, n, q, S);
    var c := EncryptBit(pk, n, q, S, bit);
    var cols := ColumnSums(pk.a, n, S);
    var rows := RowDots(pk.a, s, S);
    var noise := NoiseSum(e, S);
    assert Cong(Dot(u, s) % q, rows, q) by {
      AccumulateSums(pk, n, q, S);
      DotCong(u, cols, s, q);
      ColumnSumsDot(pk.a, s, S);
      CongMod(Dot(u, s), q);
    }
    // v ≡ Σ <A[i], s> + noise + bit * (q // 2)
    assert Cong(c.v, rows + noise + bit * (q / 2), q) by {
      AccumulateSums(pk, n, q, S);
      EntrySumCong(pk, s, e, q, S);
      CongAdd(v, rows + noise, bit * (q / 2), bit * (q / 2), q);
      CongMod(v + bit * (q / 2), q);
    }
    CongSub(c.v, rows + noise + bit * (q / 2), Dot(u, s) % q, rows, q);
    CongMod(c.v - Dot(u, s) % q, q);
  }

  /** The threshold rule recovers the bit from a difference whose centred
      noise is below a quarter of the modulus. */
  lemma Threshold(q: nat, noise: int, bit: Bit)
    requires q > 0 && -(q / 4) < noise < q / 4
    ensures var diff := (noise + bit * (q / 2)) % q;
      (diff < q / 4 || diff > 3 * q / 4) <==> bit == 0
  {
    var x := noise + bit * (q / 2);
    if bit == 0 {
      if noise >= 0 {
        ModUnique(x, q, 0, x);
      } else {
        ModUnique(x, q, -1, x + q);
      }
    } else {
      ModUnique(x, q, 0, x);
    }
  }

  /** The public key `generate_keys` builds satisfies `b = A·s + e (mod q)`. */
  lemma KeyRelation(lwe: Lwe, s: seq<int>, a: seq<seq<int>>, e: seq<int>)
    requires FitsInt32(lwe.n, lwe.q) && IsBinary(s, lwe.n)
    requires IsMatrix(a, lwe.M(), lwe.n, lwe.q) && IsVector(e, lwe.M(), lwe.q)
    ensures var pk := GenerateKeys(lwe, s, a, e).2;
      && WellFormedKey(pk, lwe.M(), lwe.n, lwe.q) && |e| == |pk.a|
      && forall i | 0 <= i < |pk.b| :: pk.b[i] == (Dot(pk.a[i], s) + e[i]) % lwe.q
  {
  }

  /** One bit round-trips through `encrypt` and `decrypt` under keys from
      `generate_keys`, whenever the subset's noise is small. */
  lemma EncryptDecryptBit(lwe: Lwe, s: seq<int>, a: seq<seq<int>>, e: seq<int>, S: seq<nat>, bit: Bit)
    requires FitsInt32(lwe.n, lwe.q) && IsBinary(s, lwe.n)
    requires IsMatrix(a, lwe.M(), lwe.n, lwe.q) && IsVector(e, lwe.M(), lwe.q)
    requires IndicesBelow(S, lwe.M()) && SmallNoise(e, S, lwe.q)
    ensures var pk := GenerateKeys(lwe, s, a, e).2;
      DecryptBit(s, lwe.q, EncryptBit(pk, lwe.n, lwe.q, S, bit)) == bit
  {
    var pk := GenerateKeys(lwe, s, a, e).2;
    KeyRelation(lwe, s, a, e);
    DecryptBitOfNoise(pk, s, e, lwe.n, lwe.q, S, bit);
  }

  lemma DecryptBitOfNoise(pk: PublicKey, s: seq<int>, e: seq<int>, n: nat, q: nat, S: seq<nat>, bit: Bit)
    requires q > 0 && WellFormedKey(pk, |pk.a|, n, q) && IsBinary(s, n)
    requires |e| == |pk.a| && IndicesBelow(S, |pk.a|)
    requires forall i | 0 <= i < |pk.b| :: pk.b[i] == (Dot(pk.a[i], s) + e[i]) % q
    requires SmallNoise(e, S, q)
    ensures DecryptBit(s, q, EncryptBit(pk, n, q, S, bit)) == bit
  {
    var c := EncryptBit(pk, n, q, S, bit);
    var noise := NoiseSum(e, S);
    var centred := Centre(noise, q);
    DiffIsNoise(pk, s, e, n, q, S, bit);
    CongAdd(noise, centred, bit * (q / 2), bit * (q / 2), q);
    CongInRange(Diff(s, q, c), centred + bit * (q / 2), q);
    Threshold(q, centred, bit);
  }

  /** Every plaintext bit survives when every subset's noise is small, so
      `decrypt(encrypt(t))` is `_bits_to_string(_string_to_bits(t))`. */
  lemma DecryptEncryptBits(lwe: Lwe, s: seq<int>, a: seq<seq<int>>, e: seq<int>,
                           plaintext: seq<PyChar>, subsets: seq<seq<nat>>)
    requires FitsInt32(lwe.n, lwe.q) && IsBinary(s, lwe.n)
    requires IsMatrix(a, lwe.M(), lwe.n, lwe.q) && IsVector(e, lwe.M(), lwe.q)
    requires |subsets| == |StringToBits(plaintext)|
    requires forall k | 0 <= k < |subsets| :: IsSample(subsets[k], lwe.n, lwe.M())
    requires forall k | 0 <= k < |subsets| :: SmallNoise(e, subsets[k], lwe.q)
    ensures var keyed := GenerateKeys(lwe, s, a, e).0;
      var ct := Encrypt(keyed, plaintext, subsets);
      ct.Ok? && Decrypt(keyed, ct.value) == Ok(BitsToString(StringToBits(plaintext)))
  {
    var keyed := GenerateKeys(lwe, s, a, e).0;
    var ct := Encrypt(keyed, plaintext, subsets).value;
    var bits := StringToBits(plaintext);
    var decoded := DecryptBits(s, lwe.q, ct);
    forall k | 0 <= k < |bits|
      ensures decoded[k] == bits[k]
    {
      EncryptDecryptBit(lwe, s, a, e, subsets[k], bits[k]);
    }
    assert decoded == bits;
  }

  /** For Latin-1 text without NUL the whole message comes back. */
  lemma DecryptEncrypt(lwe: Lwe, s: seq<int>, a: seq<seq<int>>, e: seq<int>,
                       plaintext: seq<PyChar>, subsets: seq<seq<nat>>)
    requires FitsInt32(lwe.n, lwe.q) && IsBinary(s, lwe.n)
    requires IsMatrix(a, lwe.M(), lwe.n, lwe.q) && IsVector(e, lwe.M(), lwe.q)
    requires IsLatin1(plaintext) && NoNul(plaintext)
    requires |subsets| == |StringToBits(plaintext)|
    requires forall k | 0 <= k < |subsets| :: IsSample(subsets[k], lwe.n, lwe.M())
    requires forall k | 0 <= k < |subsets| :: SmallNoise(e, subsets[k], lwe.q)
    ensures var keyed := GenerateKeys(lwe, s, a, e).0;
      var ct := Encrypt(keyed, plaintext, subsets);
      ct.Ok? && Decrypt(keyed, ct.value) == Ok(plaintext)
  {
    DecryptEncryptBits(lwe, s, a, e, plaintext, subsets);
    BitsToStringOfStringToBits(plaintext);
  }
}
