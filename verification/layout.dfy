/** The flat storage layout of the grid: a coordinate (x, y, z) lives at
    linear index x + y*width + z*width*height, so x varies fastest, then y,
    then z. */
module Layout {

  /** All three coordinates are inside the grid. */
  predicate InBounds(width: nat, height: nat, depth: nat, x: int, y: int, z: int)
  {
    0 <= x < width && 0 <= y < height && 0 <= z < depth
  }

  /** The linear index of a coordinate, exactly as the grid computes it. */
  function Index(width: nat, height: nat, x: int, y: int, z: int): int
  {
    x + y * width + z * width * height
  }

  /** The coordinate stored at linear index i (inverse of Index). */
  function Decode(width: nat, height: nat, i: nat): (int, int, int)
    requires width > 0 && height > 0
  {
    var plane := width * height;
    var rest := i % plane;
    (rest % width, rest / width, i / plane)
  }

  /** Euclidean division is determined by any quotient/remainder pair. */
  lemma DivModUnique(n: int, m: int, q: int, r: int)
    requires m > 0 && 0 <= r < m && n == q * m + r
    ensures n / m == q && n % m == r
  {
    var q', r' := n / m, n % m;
    assert (q' - q) * m == r - r';
    if q' > q {
      MulAtLeast(q' - q, m);
    } else if q' < q {
      MulAtLeast(q - q', m);
    }
  }

  lemma MulAtLeast(k: int, m: int)
    requires k >= 1 && m > 0
    ensures k * m >= m
  {
    assert k * m == (k - 1) * m + m;
    MulNonNeg(k - 1, m);
  }

  lemma MulNonNeg(a: int, b: int)
    requires a >= 0 && b >= 0
    ensures a * b >= 0
  {
  }

  lemma MulLeft(a: int, b: int, c: int)
    requires a <= b && c >= 0
    ensures a * c <= b * c
  {
    MulNonNeg(b - a, c);
    assert (b - a) * c == b * c - a * c;
  }

  /** The index regrouped: the offset within a plane plus the plane's start. */
  lemma IndexSplit(width: nat, height: nat, x: int, y: int, z: int)
    ensures Index(width, height, x, y, z) == (x + y * width) + z * (width * height)
  {
    assert z * width * height == z * (width * height);
  }

  /** Every in-bounds coordinate has an index inside the storage. */
  lemma IndexInRange(width: nat, height: nat, depth: nat, x: int, y: int, z: int)
    requires InBounds(width, height, depth, x, y, z)
    ensures 0 <= Index(width, height, x, y, z) < width * height * depth
  {
    var plane := width * height;
    MulNonNeg(y, width);
    MulNonNeg(z, plane);
    assert z * width * height == z * plane;
    MulLeft(y, height - 1, width);
    assert (height - 1) * width == plane - width;
    MulLeft(z, depth - 1, plane);
    assert (depth - 1) * plane == plane * depth - plane;
    assert plane * depth == width * height * depth;
  }

  /** Decoding the index of an in-bounds coordinate gives the coordinate back. */
  lemma DecodeIndex(width: nat, height: nat, depth: nat, x: int, y: int, z: int)
    requires InBounds(width, height, depth, x, y, z)
    ensures Index(width, height, x, y, z) >= 0
    ensures Decode(width, height, Index(width, height, x, y, z)) == (x, y, z)
  {
    IndexInRange(width, height, depth, x, y, z);
    var plane := width * height;
    var rest := x + y * width;
    MulLeft(y, height - 1, width);
    assert (height - 1) * width == plane - width;
    assert 0 <= rest < plane;
    assert Index(width, height, x, y, z) == z * plane + rest;
    DivModUnique(Index(width, height, x, y, z), plane, z, rest);
    DivModUnique(rest, width, y, x);
  }

  /** Distinct in-bounds coordinates never share a storage slot. */
  lemma IndexInjective(width: nat, height: nat, depth: nat,
                       x: int, y: int, z: int, x': int, y': int, z': int)
    requires InBounds(width, height, depth, x, y, z)
    requires InBounds(width, height, depth, x', y', z')
    ensures Index(width, height, x, y, z) == Index(width, height, x', y', z')
            <==> (x, y, z) == (x', y', z')
  {
    DecodeIndex(width, height, depth, x, y, z);
    DecodeIndex(width, height, depth, x', y', z');
  }

  /** Every storage slot holds exactly the coordinate Decode names. */
  lemma IndexDecode(width: nat, height: nat, depth: nat, i: int)
    requires 0 <= i < width * height * depth
    ensures width > 0 && height > 0
    ensures InBounds(width, height, depth, Decode(width, height, i).0,
                     Decode(width, height, i).1, Decode(width, height, i).2)
    ensures Index(width, height, Decode(width, height, i).0,
                  Decode(width, height, i).1, Decode(width, height, i).2) == i
  {
    PositiveFactors(width, height, depth);
    var plane := width * height;
    var rest := i % plane;
    DivBelow(i, plane, depth);
    DivBelow(rest, width, height);
    assert i == (i / plane) * plane + rest;
    assert rest == (rest / width) * width + rest % width;
    assert (i / plane) * width * height == (i / plane) * plane;
  }

  lemma PositiveFactors(a: nat, b: nat, c: nat)
    requires a * b * c > 0
    ensures a > 0 && b > 0 && c > 0
  {
    if a == 0 || b == 0 || c == 0 {
      ZeroFactor(a, b, c);
    }
  }

  lemma ZeroFactor(a: nat, b: nat, c: nat)
    requires a == 0 || b == 0 || c == 0
    ensures a * b * c == 0
  {
  }

  /** A number below k*m has quotient below k. */
  lemma DivBelow(n: int, m: int, k: int)
    requires m > 0 && 0 <= n < m * k
    ensures 0 <= n / m < k
  {
    if n / m >= k {
      MulLeft(k, n / m, m);
    }
  }
}
