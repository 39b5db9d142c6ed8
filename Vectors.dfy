/**
 * The vector helpers of the embedding engine: flattening the encoder's output tensor
 * (ToVector), L2 normalisation in place (NormalizeInPlace) and the similarity of two
 * embeddings (Cosine). Single-precision values are modelled as reals, so sums and
 * quotients are exact; the square root is a parameter.
 */
module Vectors {
  import opened Common

  type Vector = seq<real>

  /** A dense tensor: its dimensions and its flat buffer. */
  datatype Tensor = Tensor(dimensions: seq<int>, buffer: seq<real>)

  // ---------------------------------------------------------------- ToVector

  /** dims.Aggregate(acc, (a, b) => a * b): a left fold of the dimensions. */
  function Aggregate(acc: int, dims: seq<int>): int
    decreases |dims|
  {
    if dims == [] then acc else Aggregate(acc * dims[0], dims[1..])
  }

  /** The number of elements of a tensor with these dimensions. */
  function Product(dims: seq<int>): int
    decreases |dims|
  {
    if dims == [] then 1 else dims[0] * Product(dims[1..])
  }

  lemma {:induction false} AggregateIsProduct(acc: int, dims: seq<int>)
    ensures Aggregate(acc, dims) == acc * Product(dims)
    decreases |dims|
  {
    if dims != [] {
      AggregateIsProduct(acc * dims[0], dims[1..]);
      assert acc * dims[0] * Product(dims[1..]) == acc * (dims[0] * Product(dims[1..]));
    }
  }

  /**
   * ToVector: allocates an array of the product of the dimensions and copies the buffer
   * into it. Allocating a negative length throws, and so does copying a buffer longer
   * than the array; a shorter buffer leaves the tail zero.
   */
  function ToVector(t: Tensor): Outcome<Vector>
  {
    var d := Aggregate(1, t.dimensions);
    if d < 0 || |t.buffer| > d then Threw
    else Returned(t.buffer + seq(d - |t.buffer|, _ => 0.0))
  }

  /**
   * For a well-formed dense tensor (its buffer holds exactly the product of its
   * dimensions) ToVector returns the buffer, whose length is that product; for the
   * shapes [1, D] and [D] the length is D.
   */
  lemma ToVectorOfDenseTensor(t: Tensor)
    requires |t.buffer| == Product(t.dimensions)
    ensures ToVector(t) == Returned(t.buffer)
    ensures |ToVector(t).value| == Product(t.dimensions)
    ensures |t.dimensions| == 2 && t.dimensions[0] == 1 ==> |ToVector(t).value| == t.dimensions[1]
    ensures |t.dimensions| == 1 ==> |ToVector(t).value| == t.dimensions[0]
  {
    AggregateIsProduct(1, t.dimensions);
    assert t.buffer + seq(0, _ => 0.0) == t.buffer;
    if |t.dimensions| == 2 {
      var rest := t.dimensions[1..];
      assert rest[1..] == [];
      assert Product(rest) == rest[0] * Product(rest[1..]);
      assert Product(t.dimensions) == t.dimensions[0] * Product(rest);
    }
    if |t.dimensions| == 1 {
      assert t.dimensions[1..] == [];
    }
  }

  // ------------------------------------------------------- NormalizeInPlace

  /** The sum of the squares of s, accumulated from the front. */
  function SumOfSquares(s: seq<real>): real
    decreases |s|
  {
    if s == [] then 0.0 else SumOfSquares(s[..|s| - 1]) + s[|s| - 1] * s[|s| - 1]
  }

  /** The effect of NormalizeInPlace once the norm is known: division by a positive norm, else nothing. */
  function Normalized(s: seq<real>, norm: real): Vector
  {
    if norm <= 0.0 then s else seq(|s|, i requires 0 <= i < |s| => s[i] / norm)
  }

  predicate IsZero(s: seq<real>) {
    forall i :: 0 <= i < |s| ==> s[i] == 0.0
  }

  /**
   * NormalizeInPlace: sums the squares, takes the square root (`sqrt` stands for the
   * runtime's single-precision square root) and, unless that norm is not positive,
   * divides every element by it.
   */
  method NormalizeInPlace(v: array<real>, sqrt: real -> real)
    modifies v
    ensures v[..] == Normalized(old(v[..]), sqrt(SumOfSquares(old(v[..]))))
  {
    var sumSq := 0.0;
    for i := 0 to v.Length
      invariant sumSq == SumOfSquares(v[..i])
    {
      assert v[..i + 1][..i] == v[..i];
      sumSq := sumSq + v[i] * v[i];
    }
    assert v[..v.Length] == v[..];
    var norm := sqrt(sumSq);
    if norm <= 0.0 {
      return;
    }
    for i := 0 to v.Length
      invariant forall k :: 0 <= k < i ==> v[k] == old(v[k]) / norm
      invariant forall k :: i <= k < v.Length ==> v[k] == old(v[k])
    {
      v[i] := v[i] / norm;
    }
  }

  lemma QuotientSquared(x: real, n: real)
    requires n != 0.0
    ensures (x / n) * (x / n) == (x * x) * ((1.0 / n) * (1.0 / n))
  {
    var r := 1.0 / n;
    assert x / n == x * r;
  }

  lemma ReciprocalSquared(n: real)
    requires n != 0.0
    ensures (n * n) * ((1.0 / n) * (1.0 / n)) == 1.0
  {
    var r := 1.0 / n;
    assert n * r == 1.0;
    assert (n * n) * (r * r) == (n * r) * (n * r);
  }

  lemma {:induction false} SumOfSquaresScaled(s: seq<real>, n: real)
    requires n != 0.0
    ensures SumOfSquares(seq(|s|, i requires 0 <= i < |s| => s[i] / n))
         == SumOfSquares(s) * ((1.0 / n) * (1.0 / n))
    decreases |s|
  {
    var t := seq(|s|, i requires 0 <= i < |s| => s[i] / n);
    if s != [] {
      var init := s[..|s| - 1];
      SumOfSquaresScaled(init, n);
      assert t[..|t| - 1] == seq(|init|, i requires 0 <= i < |init| => init[i] / n);
      QuotientSquared(s[|s| - 1], n);
    }
  }

  /**
   * Normalisation never changes the length, leaves every zero element zero (so the
   * all-zero vector stays all-zero whatever the computed norm), and when the norm is
   * the exact square root of the sum of squares the result has unit length.
   */
  lemma NormalizedProperties(s: seq<real>, norm: real)
    ensures |Normalized(s, norm)| == |s|
    ensures forall i :: 0 <= i < |s| && s[i] == 0.0 ==> Normalized(s, norm)[i] == 0.0
    ensures IsZero(s) ==> IsZero(Normalized(s, norm))
    ensures norm > 0.0 && norm * norm == SumOfSquares(s) ==> SumOfSquares(Normalized(s, norm)) == 1.0
  {
    if norm > 0.0 && norm * norm == SumOfSquares(s) {
      SumOfSquaresScaled(s, norm);
      ReciprocalSquared(norm);
    }
  }

  // ----------------------------------------------------------------- Cosine

  function Min(a: int, b: int): int {
    if a <= b then a else b
  }

  /** The dot product of the first n elements of a and b. */
  function Dot(a: seq<real>, b: seq<real>, n: nat): real
    requires n <= |a| && n <= |b|
    decreases n
  {
    if n == 0 then 0.0 else Dot(a, b, n - 1) + a[n - 1] * b[n - 1]
  }

  /** What Cosine returns: the dot product over the shorter of the two lengths. */
  function Similarity(a: Vector, b: Vector): real {
    Dot(a, b, Min(|a|, |b|))
  }

  /** Cosine: accumulates the dot product over the first min(|a|, |b|) elements. */
  method Cosine(a: Vector, b: Vector) returns (dot: real)
    ensures dot == Similarity(a, b)
  {
    var n := Min(|a|, |b|);
    dot := 0.0;
    for i := 0 to n
      invariant dot == Dot(a, b, i)
    {
      dot := dot + a[i] * b[i];
    }
  }

  lemma {:induction false} DotSymmetric(a: seq<real>, b: seq<real>, n: nat)
    requires n <= |a| && n <= |b|
    ensures Dot(a, b, n) == Dot(b, a, n)
    decreases n
  {
    if n > 0 {
      DotSymmetric(a, b, n - 1);
    }
  }

  lemma {:induction false} DotOfPrefixes(a: seq<real>, b: seq<real>, a': seq<real>, b': seq<real>, n: nat)
    requires n <= |a| && n <= |b| && n <= |a'| && n <= |b'|
    requires a[..n] == a'[..n] && b[..n] == b'[..n]
    ensures Dot(a, b, n) == Dot(a', b', n)
    decreases n
  {
    if n > 0 {
      assert a[n - 1] == a[..n][n - 1] && a'[n - 1] == a'[..n][n - 1];
      assert b[n - 1] == b[..n][n - 1] && b'[n - 1] == b'[..n][n - 1];
      assert a[..n - 1] == a[..n][..n - 1] && a'[..n - 1] == a'[..n][..n - 1];
      assert b[..n - 1] == b[..n][..n - 1] && b'[..n - 1] == b'[..n][..n - 1];
      DotOfPrefixes(a, b, a', b', n - 1);
    }
  }

  lemma {:induction false} DotWithZero(a: seq<real>, b: seq<real>, n: nat)
    requires n <= |a| && n <= |b| && IsZero(a)
    ensures Dot(a, b, n) == 0.0
    decreases n
  {
    if n > 0 {
      DotWithZero(a, b, n - 1);
    }
  }

  lemma {:induction false} DotWithItself(a: seq<real>, n: nat)
    requires n <= |a|
    ensures Dot(a, a, n) == SumOfSquares(a[..n])
    decreases n
  {
    if n > 0 {
      DotWithItself(a, n - 1);
      assert a[..n][..n - 1] == a[..n - 1];
    }
  }

  /**
   * Similarity is symmetric; only the first min(|a|, |b|) elements matter, so a
   * longer vector is read as its prefix; the zero vector has similarity 0 with
   * everything; and a vector's similarity with itself is its squared length, 1 for a
   * unit vector.
   */
  lemma SimilarityProperties(a: Vector, b: Vector)
    ensures Similarity(a, b) == Similarity(b, a)
    ensures |a| <= |b| ==> Similarity(a, b) == Similarity(a, b[..|a|])
    ensures IsZero(a) ==> Similarity(a, b) == 0.0
    ensures Similarity(a, a) == SumOfSquares(a)
  {
    DotSymmetric(a, b, Min(|a|, |b|));
    if |a| <= |b| {
      DotOfPrefixes(a, b, a, b[..|a|], |a|);
    }
    if IsZero(a) {
      DotWithZero(a, b, Min(|a|, |b|));
    }
    DotWithItself(a, |a|);
    assert a[..|a|] == a;
  }
}
