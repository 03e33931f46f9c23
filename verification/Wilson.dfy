/** The Wilson score interval over the reals. */
module Wilson {

  const Z: real := 1.96

  /** root is the square root of x. */
  predicate IsSqrt(root: real, x: real) {
    root >= 0.0 && root * root == x
  }

  function Div(a: real, m: real): (r: real)
    requires m > 0.0
    ensures r * m == a
  {
    a / m
  }

  function Max(a: real, b: real): real { if a < b then b else a }
  function Min(a: real, b: real): real { if b < a then b else a }

  datatype Interval = Interval(p: real, lo: real, hi: real)

  /** What the interval takes the square root of, for k successes in n trials. */
  function Radicand(k: int, n: nat, z: real): real
    requires n > 0
  {
    var N := n as real;
    var p := Div(k as real, N);
    Div(p * (1.0 - p), N) + Div(z * z, 4.0 * (N * N))
  }

  function Centre(k: int, n: nat, z: real): real
    requires n > 0
  {
    var N := n as real;
    Div(Div(k as real, N) + Div(z * z, 2.0 * N), 1.0 + Div(z * z, N))
  }

  function HalfWidth(n: nat, z: real, root: real): real
    requires n > 0
  {
    Div(z * root, 1.0 + Div(z * z, n as real))
  }

  /** The clamped interval; `root` stands for the square root the source computes. */
  function Wilson(k: int, n: nat, z: real, root: real): Interval
    requires n > 0 ==> IsSqrt(root, Radicand(k, n, z))
  {
    if n == 0 then Interval(0.0, 0.0, 0.0) else
    Interval(Div(k as real, n as real),
             Max(0.0, Centre(k, n, z) - HalfWidth(n, z, root)),
             Min(1.0, Centre(k, n, z) + HalfWidth(n, z, root)))
  }

  // ----- the interval with its denominators cleared -----

  /** With c = z^2/n and R = z * root, the bounds are (p + c/2 -/+ R) / (1 + c). */
  ghost predicate Scaled(p: real, c: real, R: real) {
    && 0.0 <= p <= 1.0
    && c > 0.0
    && IsSqrt(R, c * (p * (1.0 - p)) + c * c / 4.0)
  }

  lemma ProductPositive(a: real, b: real)
    requires a > 0.0 && b > 0.0
    ensures a * b > 0.0
  {
  }

  lemma ProductNonNegative(a: real, b: real)
    requires a >= 0.0 && b >= 0.0
    ensures a * b >= 0.0
  {
  }

  lemma ProductOrder(a: real, b: real, m: real)
    requires a <= b && m >= 0.0
    ensures a * m <= b * m
  {
    ProductNonNegative(b - a, m);
    assert (b - a) * m == b * m - a * m;
  }

  lemma CancelOrder(a: real, b: real, m: real)
    requires a * m <= b * m && m > 0.0
    ensures a <= b
  {
    assert (a - b) * m == a * m - b * m;
    if b < a {
      ProductPositive(a - b, m);
    }
  }

  lemma Cancel(a: real, b: real, m: real)
    requires a * m == b * m && m > 0.0
    ensures a == b
  {
    CancelOrder(a, b, m);
    CancelOrder(b, a, m);
  }

  lemma SquaresOrder(a: real, b: real)
    requires b >= 0.0 && a * a <= b * b
    ensures a <= b
  {
    assert (a - b) * (a + b) == a * a - b * b;
    if a > b {
      ProductPositive(a - b, a + b);
    }
  }

  lemma SquareNonNegative(a: real)
    ensures a * a >= 0.0
  {
  }

  lemma BetweenIdentity(p: real, c: real)
    ensures c * (p * (1.0 - p)) + c * c / 4.0
         == c * (p - 0.5) * (c * (p - 0.5)) + (c + c * c) * (p * (1.0 - p))
  {
  }

  /** The lower bound is not negative. */
  lemma ScaledLow(p: real, c: real, R: real)
    requires Scaled(p, c, R)
    ensures R <= p + c / 2.0
  {
    var b := p + c / 2.0;
    assert b * b == p * p + c * p + c * c / 4.0;
    assert c * (p * (1.0 - p)) == c * p - c * (p * p);
    SquareNonNegative(p);
    ProductNonNegative(c, p * p);
    SquaresOrder(R, b);
  }

  /** The root is at least c times the distance of p from one half. */
  lemma ScaledRoot(p: real, c: real, R: real)
    requires Scaled(p, c, R)
    ensures c * (p - 0.5) <= R && -(c * (p - 0.5)) <= R
  {
    var m := c * (p - 0.5);
    BetweenIdentity(p, c);
    ProductNonNegative(p, 1.0 - p);
    SquareNonNegative(c);
    ProductNonNegative(c + c * c, p * (1.0 - p));
    SquaresOrder(m, R);
    assert (-m) * (-m) == m * m;
    SquaresOrder(-m, R);
  }

  lemma ScaledBounds(p: real, c: real, R: real)
    requires Scaled(p, c, R)
    ensures 0.0 <= p + c / 2.0 - R <= p * (1.0 + c) <= p + c / 2.0 + R <= 1.0 + c
  {
    ScaledLow(p, c, R);
    ScaledRoot(p, c, R);
    assert c * (p - 0.5) == c * p - c / 2.0;
    assert (1.0 - p) * (1.0 - (1.0 - p)) == p * (1.0 - p);
    ScaledLow(1.0 - p, c, R);
  }

  /** A larger proportion has a larger upper bound. */
  lemma ScaledMonotone(p: real, R: real, q: real, S: real, c: real)
    requires Scaled(p, c, R) && Scaled(q, c, S) && p <= q
    ensures p + R <= q + S && p - R <= q - S
  {
    ScaledSum(p, R, q, S, c);
    RootsIdentity(p, R, q, S, c);
    var m := c * (p + q - 1.0);
    RootsClose(R - S, R + S, q - p, m);
    RootsClose(S - R, R + S, q - p, -m);
  }

  lemma ScaledSum(p: real, R: real, q: real, S: real, c: real)
    requires Scaled(p, c, R) && Scaled(q, c, S)
    ensures c * (p + q - 1.0) <= R + S && -(c * (p + q - 1.0)) <= R + S
  {
    ScaledRoot(p, c, R);
    ScaledRoot(q, c, S);
    assert c * (p + q - 1.0) == c * (p - 0.5) + c * (q - 0.5);
  }

  lemma RootsIdentity(p: real, R: real, q: real, S: real, c: real)
    requires Scaled(p, c, R) && Scaled(q, c, S)
    ensures (R - S) * (R + S) == (q - p) * (c * (p + q - 1.0))
    ensures (S - R) * (R + S) == (q - p) * -(c * (p + q - 1.0))
  {
    assert (R - S) * (R + S) == R * R - S * S;
    assert p * (1.0 - p) - q * (1.0 - q) == (q - p) * (p + q - 1.0);
    assert c * (p * (1.0 - p)) - c * (q * (1.0 - q)) == c * ((q - p) * (p + q - 1.0));
  }

  lemma RootsClose(x: real, sum: real, d: real, m: real)
    requires d >= 0.0 && sum >= m && sum >= x
    requires x * sum == d * m
    ensures x <= d
  {
    ProductNonNegative(d, sum - m);
    assert d * (sum - m) == d * sum - d * m;
    assert (x - d) * sum == x * sum - d * sum;
    if x > d {
      ProductPositive(x - d, sum);
    }
  }

  // ----- from the scaled form to the interval -----

  lemma PositiveProduct(a: real, b: real) returns (y: real)
    requires a > 0.0 && b > 0.0
    ensures y == a * b && y > 0.0
  {
    y := a * b;
  }

  lemma ScaledSquare(N: real, y: real, q: real, a: real, b: real, c: real, z: real, root: real)
    requires N > 0.0 && y == z * z && root * root == a + b
    requires a * N == q && b * (4.0 * (N * N)) == y && c * N == y
    ensures z * root * (z * root) == c * q + c * c / 4.0
  {
    assert z * root * (z * root) == y * (a + b);
    assert y * a == c * (a * N);
    var NN := PositiveProduct(N, N);
    assert 4.0 * (y * b) * NN == y * y;
    assert c * c * NN == c * N * (c * N);
    Cancel(4.0 * (y * b), c * c, NN);
  }

  lemma CancelTwo(d: real, c: real, N: real, y: real)
    requires N > 0.0 && d * (2.0 * N) == y && c * N == y
    ensures d == c / 2.0
  {
    Cancel(2.0 * d, c, N);
  }

  /** u and v in the order of their multiples U and V. */
  lemma OrderOf(u: real, v: real, m: real, U: real, V: real)
    requires u * m == U && v * m == V && U <= V && m > 0.0
    ensures u <= v
  {
    CancelOrder(u, v, m);
  }

  lemma SquareMonotone(a: real, b: real)
    requires 0.0 <= a <= b
    ensures a * a <= b * b
  {
    ProductOrder(a, b, a);
    ProductOrder(a, b, b);
  }

  lemma ScalingRoot(k: int, n: nat, z: real, root: real) returns (p: real, c: real, R: real)
    requires 0 <= k <= n && n > 0 && z > 0.0 && IsSqrt(root, Radicand(k, n, z))
    ensures p == Div(k as real, n as real) && c == Div(z * z, n as real) && R == z * root && Scaled(p, c, R)
  {
    hide Div;
    var N := n as real;
    var y := PositiveProduct(z, z);
    p, c, R := Div(k as real, N), Div(y, N), z * root;
    CancelOrder(0.0, p, N);
    CancelOrder(p, 1.0, N);
    CancelOrder(0.0, c, N);
    ProductNonNegative(z, root);
    var q := p * (1.0 - p);
    ScaledSquare(N, y, q, Div(q, N), Div(y, 4.0 * (N * N)), c, z, root);
  }

  lemma ScalingCentre(k: int, n: nat, z: real)
    requires n > 0 && z > 0.0
    ensures var p, c := Div(k as real, n as real), Div(z * z, n as real);
      c > 0.0 && Centre(k, n, z) * (1.0 + c) == p + c / 2.0
  {
    hide Div;
    var N := n as real;
    var y := PositiveProduct(z, z);
    CancelOrder(0.0, Div(y, N), N);
    CancelTwo(Div(y, 2.0 * N), Div(y, N), N, y);
  }

  /** The interval's parts in the scaled form. */
  lemma Scaling(k: int, n: nat, z: real, root: real) returns (p: real, c: real, R: real, centre: real, half: real)
    requires 0 <= k <= n && n > 0 && z > 0.0 && IsSqrt(root, Radicand(k, n, z))
    ensures p * n as real == k as real && p == Div(k as real, n as real)
    ensures c == Div(z * z, n as real) && c * n as real == z * z
    ensures c > 0.0 && Scaled(p, c, R)
    ensures centre == Centre(k, n, z) && centre * (1.0 + c) == p + c / 2.0
    ensures half == HalfWidth(n, z, root) && half * (1.0 + c) == R
  {
    hide Div, IsSqrt, Radicand, Centre;
    p, c, R := ScalingRoot(k, n, z, root);
    ScalingCentre(k, n, z);
    centre, half := Centre(k, n, z), HalfWidth(n, z, root);
  }

  /** The bounds lie in [0, 1] around the proportion, so the clamps never act. */
  lemma BoundsAroundProportion(k: int, n: nat, z: real, root: real)
    requires 0 <= k <= n && n > 0 && z > 0.0 && IsSqrt(root, Radicand(k, n, z))
    ensures var i := Wilson(k, n, z, root);
      && i.lo == Centre(k, n, z) - HalfWidth(n, z, root)
      && i.hi == Centre(k, n, z) + HalfWidth(n, z, root)
      && 0.0 <= i.lo <= i.p <= i.hi <= 1.0
  {
    hide Div, Radicand, Centre, HalfWidth, IsSqrt;
    var p, c, R, centre, half := Scaling(k, n, z, root);
    ScaledBounds(p, c, R);
    ScaledToBounds(p, c, R, centre, half);
  }

  lemma ScaledToBounds(p: real, c: real, R: real, centre: real, half: real)
    requires c > 0.0 && centre * (1.0 + c) == p + c / 2.0 && half * (1.0 + c) == R
    requires 0.0 <= p + c / 2.0 - R <= p * (1.0 + c) <= p + c / 2.0 + R <= 1.0 + c
    ensures 0.0 <= centre - half <= p <= centre + half <= 1.0
  {
    var m := 1.0 + c;
    assert (centre - half) * m == p + c / 2.0 - R;
    assert (centre + half) * m == p + c / 2.0 + R;
    CancelOrder(0.0, centre - half, m);
    CancelOrder(centre - half, p, m);
    CancelOrder(p, centre + half, m);
    CancelOrder(centre + half, 1.0, m);
  }

  /** More successes move both bounds up. */
  lemma BoundsMonotone(k: int, root: real, k': int, root': real, n: nat, z: real)
    requires 0 <= k <= k' <= n && n > 0 && z > 0.0
    requires IsSqrt(root, Radicand(k, n, z)) && IsSqrt(root', Radicand(k', n, z))
    ensures var i, i' := Wilson(k, n, z, root), Wilson(k', n, z, root');
      i.p <= i'.p && i.lo <= i'.lo && i.hi <= i'.hi
  {
    hide Div, Radicand, Centre, HalfWidth, IsSqrt, Scaled;
    var p, c, R, centre, half := Scaling(k, n, z, root);
    var p', c', R', centre', half' := Scaling(k', n, z, root');
    OrderOf(p, p', n as real, k as real, k' as real);
    ScaledMonotone(p, R, p', R', c);
    CompareBounds(p, R, centre, half, p', R', centre', half', c);
  }

  lemma CompareBounds(p: real, R: real, x: real, h: real, p': real, R': real, x': real, h': real, c: real)
    requires c > 0.0 && x * (1.0 + c) == p + c / 2.0 && h * (1.0 + c) == R
    requires x' * (1.0 + c) == p' + c / 2.0 && h' * (1.0 + c) == R'
    requires p - R <= p' - R' && p + R <= p' + R'
    ensures x - h <= x' - h' && x + h <= x' + h'
  {
    var m := 1.0 + c;
    assert (x - h) * m == p + c / 2.0 - R && (x + h) * m == p + c / 2.0 + R;
    assert (x' - h') * m == p' + c / 2.0 - R' && (x' + h') * m == p' + c / 2.0 + R';
    CancelOrder(x - h, x' - h', m);
    CancelOrder(x + h, x' + h', m);
  }

  /** With 381 trials the half-width is at most five percentage points, whatever the rate. */
  lemma NarrowFrom381(k: int, n: nat, root: real)
    requires 0 <= k <= n && n >= 381 && IsSqrt(root, Radicand(k, n, Z))
    ensures HalfWidth(n, Z, root) <= 0.05
  {
    hide Div, Radicand, Centre, HalfWidth;
    var p, c, R, centre, half := Scaling(k, n, Z, root);
    ProductOrder(381.0, n as real, c);
    assert 381.0 * c <= 3.8416;
    assert 99.0 * c <= 1.0;
    ScaledNarrow(p, c, R);
    CancelOrder(half, 0.05, 1.0 + c);
  }

  lemma ScaledNarrow(p: real, c: real, R: real)
    requires Scaled(p, c, R) && 99.0 * c <= 1.0
    ensures R <= 0.05 * (1.0 + c)
  {
    var m := 1.0 + c;
    assert p * (1.0 - p) == 0.25 - (p - 0.5) * (p - 0.5);
    SquareNonNegative(p - 0.5);
    ProductOrder(p * (1.0 - p), 0.25, c);
    ProductOrder(99.0 * c, 1.0, m);
    NarrowSquare(R, c);
    SquaresOrder(R, 0.05 * m);
  }

  lemma NarrowSquare(R: real, c: real)
    requires R * R <= 0.25 * c + c * c / 4.0 && 99.0 * c * (1.0 + c) <= 1.0 + c && c > 0.0
    ensures R * R <= 0.05 * (1.0 + c) * (0.05 * (1.0 + c))
  {
    var m := 1.0 + c;
    assert m * m == m + c * m && 0.05 * m * (0.05 * m) == 0.0025 * (m * m);
    assert 0.25 * c + c * c / 4.0 == 0.25 * (c * m);
    assert 99.0 * c * m == 99.0 * (c * m);
  }

  /** How far the middle rate of n trials lies from one half. */
  lemma MiddleRate(n: nat, N: real, d: real, c: real)
    requires 0 < n <= 380 && N == n as real && d * N == (n / 2) as real - N / 2.0 && c * N == 3.8416
    ensures 99.0 * c > 1.0
    ensures d == 0.0 || (d == -c / 7.6832 && 3.8416 / 379.0 <= c <= 3.8416)
  {
    CancelOrder(3.8416 / 380.0, c, N);
    if n % 2 == 0 {
      assert (n / 2) as real == N / 2.0;
      assert d * N == 0.0 && 0.0 * N == 0.0;
      Cancel(d, 0.0, N);
    } else {
      assert (n / 2) as real == N / 2.0 - 0.5;
      assert -c / 7.6832 * N == -(c * N) / 7.6832;
      Cancel(d, -c / 7.6832, N);
      CancelOrder(3.8416 / 379.0, c, N);
      CancelOrder(c, 3.8416, N);
    }
  }

  lemma Powers(c: real) returns (square: real, cube: real)
    requires 3.8416 / 379.0 <= c <= 3.8416
    ensures square == c * c && cube == c * square
    ensures square >= 3.8416 / 379.0 * c && cube <= 3.8416 * square
  {
    square := c * c;
    cube := c * square;
    ProductOrder(3.8416 / 379.0, c, c);
    SquareNonNegative(c);
    ProductOrder(c, 3.8416, square);
  }

  /** There the root's square is too large. */
  lemma WideSquare(c: real, d: real)
    requires 99.0 * c > 1.0 && (d == 0.0 || (d == -c / 7.6832 && 3.8416 / 379.0 <= c <= 3.8416))
    ensures c * (0.25 - d * d) + c * c / 4.0 > 0.0025 * (1.0 + 2.0 * c + c * c)
  {
    if d == 0.0 {
      ProductOrder(1.0, 99.0 * c, c);
      assert 99.0 * c * c == 99.0 * (c * c);
    } else {
      var square, cube := Powers(c);
      assert d * d == square / 59.03156224;
      assert c * (0.25 - d * d) == 0.25 * c - cube / 59.03156224;
      WideLinear(c, square, cube);
    }
  }

  lemma WideLinear(c: real, square: real, cube: real)
    requires c >= 3.8416 / 379.0 && square >= 3.8416 / 379.0 * c && cube <= 3.8416 * square
    ensures 0.25 * c - cube / 59.03156224 + square / 4.0 > 0.0025 * (1.0 + 2.0 * c + square)
  {
  }

  lemma TooWide(c: real, d: real, R: real, half: real)
    requires c > 0.0 && R >= 0.0 && R * R == c * (0.25 - d * d) + c * c / 4.0 && half * (1.0 + c) == R
    requires c * (0.25 - d * d) + c * c / 4.0 > 0.0025 * (1.0 + 2.0 * c + c * c)
    ensures half > 0.05
  {
    var right := 0.05 * (1.0 + c);
    assert right * right == 0.0025 * (1.0 + 2.0 * c + c * c);
    if half <= 0.05 {
      ProductOrder(half, 0.05, 1.0 + c);
      SquareMonotone(R, right);
    }
  }

  /** The bound is sharp: up to 380 trials the interval of the middle rate is wider than that. */
  lemma WideUpTo380(n: nat, root: real)
    requires 0 < n <= 380 && IsSqrt(root, Radicand(n / 2, n, Z))
    ensures HalfWidth(n, Z, root) > 0.05
  {
    hide Div, Radicand, Centre, HalfWidth;
    var p, c, R, centre, half := Scaling(n / 2, n, Z, root);
    var N, d := n as real, p - 0.5;
    assert d * N == p * N - 0.5 * N;
    assert p * (1.0 - p) == 0.25 - d * d;
    MiddleRate(n, N, d, c);
    WideSquare(c, d);
    TooWide(c, d, R, half);
  }

  /** And its upper bound is at least one half. */
  lemma MiddleHigh(n: nat, root: real)
    requires 0 < n <= 380 && IsSqrt(root, Radicand(n / 2, n, Z))
    ensures Centre(n / 2, n, Z) + HalfWidth(n, Z, root) >= 0.5
  {
    hide Div, Radicand, Centre, HalfWidth;
    var p, c, R, centre, half := Scaling(n / 2, n, Z, root);
    var N, d := n as real, p - 0.5;
    assert d * N == p * N - 0.5 * N;
    MiddleRate(n, N, d, c);
    ProductNonNegative(p, 1.0 - p);
    ProductNonNegative(c, p * (1.0 - p));
    SquaresOrder(c / 2.0, R);
    AtLeastHalf(p, c, R, centre, half);
  }

  lemma AtLeastHalf(p: real, c: real, R: real, centre: real, half: real)
    requires c > 0.0 && centre * (1.0 + c) == p + c / 2.0 && half * (1.0 + c) == R
    requires R >= c / 2.0 && p - 0.5 >= -c / 2.0
    ensures centre + half >= 0.5
  {
    assert (centre + half) * (1.0 + c) == p + c / 2.0 + R;
    CancelOrder(0.5, centre + half, 1.0 + c);
  }

  /** So every rate is resolved to five points exactly from 381 trials on. */
  lemma NarrowIff(n: nat, k: int, root: real, middleRoot: real)
    requires n > 0 && 0 <= k <= n && IsSqrt(root, Radicand(k, n, Z)) && IsSqrt(middleRoot, Radicand(n / 2, n, Z))
    ensures n >= 381 ==> HalfWidth(n, Z, root) <= 0.05
    ensures HalfWidth(n, Z, middleRoot) <= 0.05 <==> n >= 381
  {
    if n >= 381 {
      NarrowFrom381(k, n, root);
      NarrowFrom381(n / 2, n, middleRoot);
    } else {
      WideUpTo380(n, middleRoot);
    }
  }

  // ----- which proportions the interval rules out -----

  /** n trials with the proportion p rule out a true proportion of q or more: the score test rejects it. */
  predicate Rejects(p: real, q: real, n: nat) {
    p < q && n as real * ((q - p) * (q - p)) > Z * Z * (q * (1.0 - q))
  }

  lemma ScoreIdentity(p: real, c: real, q: real, T: real)
    requires T == q * (1.0 + c) - p - c / 2.0
    ensures T * T - (c * (p * (1.0 - p)) + c * c / 4.0) == (1.0 + c) * ((q - p) * (q - p) - c * (q * (1.0 - q)))
  {
    var u, v := q - p, q - 0.5;
    assert T == u + c * v;
    assert T * T == u * u + 2.0 * (c * (u * v)) + c * c * (v * v);
    assert v * v == 0.25 - q * (1.0 - q);
    assert c * c * (v * v) == c * c / 4.0 - c * (c * (q * (1.0 - q)));
    assert 2.0 * (u * v) - p * (1.0 - p) == u * u - q * (1.0 - q);
    assert c * (2.0 * (u * v) - p * (1.0 - p)) == c * (u * u) - c * (q * (1.0 - q));
  }

  lemma SquaresStrict(a: real, b: real)
    requires b >= 0.0
    ensures a > b || a < -b <==> a * a > b * b
  {
    var x, y := a - b, a + b;
    assert a * a - b * b == x * y;
    SignsOfProduct(x, y, x * y);
  }

  lemma SignsOfProduct(x: real, y: real, product: real)
    requires product == x * y && x <= y
    ensures x > 0.0 || y < 0.0 <==> product > 0.0
  {
    if x > 0.0 {
      ProductPositive(x, y);
    } else if y < 0.0 {
      ProductPositive(-x, -y);
      assert -x * -y == product;
    } else {
      ProductNonNegative(-x, y);
      assert -x * y == -product;
    }
  }

  lemma SignOfProduct(m: real, x: real)
    requires m > 0.0
    ensures m * x > 0.0 <==> x > 0.0
  {
    if x > 0.0 {
      ProductPositive(m, x);
    } else {
      ProductNonNegative(m, -x);
      assert m * -x == -(m * x);
    }
  }

  lemma CancelStrict(a: real, b: real, m: real)
    requires m > 0.0
    ensures a * m < b * m <==> a < b
  {
    SignOfProduct(m, b - a);
    assert m * (b - a) == b * m - a * m;
  }

  /** p is further from q than the standard error under q. */
  predicate Far(p: real, c: real, q: real) {
    (q - p) * (q - p) > c * (q * (1.0 - q))
  }

  lemma BeyondRoot(p: real, c: real, R: real, q: real, T: real)
    requires Scaled(p, c, R) && T == q * (1.0 + c) - p - c / 2.0
    ensures T > R || T < -R <==> Far(p, c, q)
  {
    var D := (q - p) * (q - p) - c * (q * (1.0 - q));
    ScoreIdentity(p, c, q, T);
    SquaresStrict(T, R);
    SignOfProduct(1.0 + c, D);
  }

  /** The scaled upper bound misses q exactly when p is below q by more than its standard error under q. */
  lemma ScaledRejects(p: real, c: real, R: real, q: real, qm: real)
    requires Scaled(p, c, R) && qm == q * (1.0 + c)
    ensures p + c / 2.0 + R < qm <==> p < q && Far(p, c, q)
  {
    hide Far, Scaled;
    var pm := p * (1.0 + c);
    ScaledBounds(p, c, R);
    ScaledPositive(p, c, R);
    BeyondRoot(p, c, R, q, qm - p - c / 2.0);
    OrderScaled(p, pm, q, qm, 1.0 + c);
    SideOfRoot(pm, qm, p + c / 2.0, R, Far(p, c, q));
  }

  lemma OrderScaled(p: real, pm: real, q: real, qm: real, m: real)
    requires m > 0.0 && pm == p * m && qm == q * m
    ensures pm < qm <==> p < q
  {
    CancelStrict(p, q, m);
  }

  lemma SideOfRoot(pm: real, qm: real, mid: real, R: real, far: bool)
    requires 0.0 <= mid - R <= pm <= mid + R
    requires qm - mid > R || qm - mid < -R <==> far
    ensures mid + R < qm <==> pm < qm && far
  {
  }

  lemma PerTrial(n: nat, c: real, d: real, v: real)
    requires n > 0 && c * n as real == Z * Z
    ensures d > c * v <==> n as real * d > Z * Z * v
  {
    var N := n as real;
    CancelStrict(c * v, d, N);
    assert c * v * N == c * N * v;
  }

  /** The parts of an interval for n trials, in the scaled form. */
  ghost predicate Parts(n: nat, p: real, c: real, R: real, centre: real, half: real) {
    && n > 0 && c * n as real == Z * Z && Scaled(p, c, R)
    && centre * (1.0 + c) == p + c / 2.0 && half * (1.0 + c) == R
  }

  lemma PartsOf(k: int, n: nat, root: real) returns (p: real, c: real, R: real, centre: real, half: real)
    requires 0 <= k <= n && n > 0 && IsSqrt(root, Radicand(k, n, Z))
    ensures p == Div(k as real, n as real) && Parts(n, p, c, R, centre, half)
    ensures var i := Wilson(k, n, Z, root);
      i.lo == centre - half && i.hi == centre + half && centre - half <= p <= centre + half
  {
    hide Div, Radicand, Centre, HalfWidth, IsSqrt, Scaled, Wilson;
    p, c, R, centre, half := Scaling(k, n, Z, root);
    BoundsAroundProportion(k, n, Z, root);
    WilsonProportion(k, n, root);
  }

  lemma WilsonProportion(k: int, n: nat, root: real)
    requires n > 0 && IsSqrt(root, Radicand(k, n, Z))
    ensures Wilson(k, n, Z, root).p == Div(k as real, n as real)
  {
    hide Div, Radicand, Centre, HalfWidth, IsSqrt;
  }

  /** The upper bound lies below q exactly when the trials rule q out. */
  lemma HighBelow(k: int, n: nat, root: real, q: real)
    requires 0 <= k <= n && n > 0 && IsSqrt(root, Radicand(k, n, Z))
    ensures Wilson(k, n, Z, root).hi < q <==> Rejects(Div(k as real, n as real), q, n)
  {
    hide Div, Radicand, IsSqrt, Wilson, Rejects, Parts;
    var p, c, R, centre, half := PartsOf(k, n, root);
    PartsReject(n, p, c, R, centre, half, q);
  }

  lemma PartsReject(n: nat, p: real, c: real, R: real, centre: real, half: real, q: real)
    requires Parts(n, p, c, R, centre, half)
    ensures centre + half < q <==> Rejects(p, q, n)
  {
    hide Rejects, Scaled;
    ScaledRejects(p, c, R, q, q * (1.0 + c));
    RejectsScaled(p, c, q, n);
    ScaledPositive(p, c, R);
    SumBelow(centre, half, q, 1.0 + c, p + c / 2.0, R);
  }

  lemma ScaledPositive(p: real, c: real, R: real)
    requires Scaled(p, c, R)
    ensures c > 0.0
  {
    hide IsSqrt;
  }

  lemma RejectsScaled(p: real, c: real, q: real, n: nat)
    requires n > 0 && c * n as real == Z * Z
    ensures Rejects(p, q, n) <==> p < q && Far(p, c, q)
  {
    PerTrial(n, c, (q - p) * (q - p), q * (1.0 - q));
  }

  lemma SumBelow(x: real, h: real, q: real, m: real, X: real, R: real)
    requires m > 0.0 && x * m == X && h * m == R
    ensures x + h < q <==> X + R < q * m
  {
    assert (x + h) * m == X + R;
    CancelStrict(x + h, q, m);
  }

  /** The interval around the proportion p is wider than w on each side. */
  predicate Unresolved(p: real, w: real, n: nat) {
    var N, y := n as real, Z * Z;
    w < 0.0 || y * (N * (p * (1.0 - p))) + y * y / 4.0 > w * (N + y) * (w * (N + y))
  }

  lemma WideIdentity(N: real, c: real, x: real, w: real, y: real)
    requires c * N == y
    ensures (c * x + c * c / 4.0) * (N * N) == y * (N * x) + y * y / 4.0
    ensures w * (1.0 + c) * (w * (1.0 + c)) * (N * N) == w * (N + y) * (w * (N + y))
  {
    assert c * x * (N * N) == c * N * (N * x);
    assert c * c * (N * N) == c * N * (c * N);
    assert (1.0 + c) * N == N + y;
    assert w * (1.0 + c) * (w * (1.0 + c)) * (N * N) == w * ((1.0 + c) * N) * (w * ((1.0 + c) * N));
  }

  lemma ScaledWide(p: real, c: real, R: real, w: real, N: real, y: real)
    requires Scaled(p, c, R) && w >= 0.0 && N > 0.0 && c * N == y
    ensures R > w * (1.0 + c) <==> y * (N * (p * (1.0 - p))) + y * y / 4.0 > w * (N + y) * (w * (N + y))
  {
    var W, x := w * (1.0 + c), p * (1.0 - p);
    ProductNonNegative(w, 1.0 + c);
    SquaresStrict(R, W);
    assert R > W <==> c * x + c * c / 4.0 > W * W;
    var NN := PositiveProduct(N, N);
    CancelStrict(W * W, c * x + c * c / 4.0, NN);
    WideIdentity(N, c, x, w, y);
  }

  /** The interval's half-width, from the counts alone. */
  lemma WiderThan(k: int, n: nat, root: real, w: real)
    requires 0 <= k <= n && n > 0 && IsSqrt(root, Radicand(k, n, Z))
    ensures var i := Wilson(k, n, Z, root); (i.hi - i.lo) / 2.0 > w <==> Unresolved(Div(k as real, n as real), w, n)
  {
    hide Div, Radicand, IsSqrt, Wilson, Unresolved, Parts;
    var p, c, R, centre, half := PartsOf(k, n, root);
    PartsWide(n, p, c, R, centre, half, w);
  }

  lemma PartsWide(n: nat, p: real, c: real, R: real, centre: real, half: real, w: real)
    requires Parts(n, p, c, R, centre, half) && half >= 0.0
    ensures half > w <==> Unresolved(p, w, n)
  {
    hide Scaled;
    if w >= 0.0 {
      ScaledPositive(p, c, R);
      CancelStrict(w, half, 1.0 + c);
      ScaledWide(p, c, R, w, n as real, Z * Z);
    }
  }
}
