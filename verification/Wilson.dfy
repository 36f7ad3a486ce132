/** The Wilson score interval over exact reals. The square root is a parameter: any non-negative real
    whose square is the radicand. Rounding to four digits is not modelled. */
module Wilson {
  import opened Sequences

  datatype Interval = Interval(lo: real, hi: real)

  function Proportion(k: nat, n: nat): real
    requires n > 0
  {
    k as real / n as real
  }

  function Radicand(k: nat, n: nat, z: real): real
    requires n > 0
  {
    var p, m := Proportion(k, n), n as real;
    p * (1.0 - p) / m + z * z / (4.0 * m * m)
  }

  function Denominator(n: nat, z: real): (d: real)
    requires n > 0
    ensures d >= 1.0
  {
    Nonneg(z, n as real);
    1.0 + z * z / n as real
  }

  function Center(k: nat, n: nat, z: real): real
    requires n > 0
  {
    (Proportion(k, n) + z * z / (2.0 * n as real)) / Denominator(n, z)
  }

  function Half(n: nat, z: real, root: real): real
    requires n > 0
  {
    z * root / Denominator(n, z)
  }

  /** The interval as the code returns it, clamps included; None for an empty sample. */
  function Ci(k: nat, n: nat, z: real, root: real): Option<Interval> {
    if n == 0 then None
    else
      var lo, hi := Center(k, n, z) - Half(n, z, root), Center(k, n, z) + Half(n, z, root);
      Some(Interval(if lo < 0.0 then 0.0 else lo, if hi > 1.0 then 1.0 else hi))
  }

  // ---------------------------------------------------------------- signs

  lemma ProductSign(u: real, v: real)
    ensures u >= 0.0 && v >= 0.0 ==> u * v >= 0.0
    ensures u > 0.0 && v > 0.0 ==> u * v > 0.0
    ensures u < 0.0 && v > 0.0 ==> u * v < 0.0
    ensures u == 0.0 ==> u * v == 0.0
  {
  }

  lemma Cancel(u: real, v: real, d: real)
    requires d > 0.0 && u * d == v * d
    ensures u == v
  {
    ProductSign(u - v, d);
    ProductSign(v - u, d);
    assert (u - v) * d == 0.0;
  }

  lemma QuotientSign(u: real, m: real)
    requires m > 0.0 && u >= 0.0
    ensures u / m >= 0.0
  {
    ProductSign(u / m, m);
    assert u / m * m == u;
  }

  lemma Nonneg(z: real, m: real)
    requires m > 0.0
    ensures z * z / m >= 0.0
  {
    ProductSign(z, z);
    ProductSign(-z, -z);
    assert (-z) * (-z) == z * z;
    QuotientSign(z * z, m);
  }

  lemma SquareOrder(u: real, h: real)
    requires h >= 0.0
    ensures u * u <= h * h <==> -h <= u <= h
  {
    assert h * h - u * u == (h - u) * (h + u);
    ProductSign(h - u, h + u);
    ProductSign(h + u, h - u);
  }

  // ---------------------------------------------------------------- the score test

  /** The score test the interval inverts, with a = z*z/n: is x compatible with the observed p? */
  ghost predicate Compatible(p: real, a: real, x: real) {
    (p - x) * (p - x) <= a * (x * (1.0 - x))
  }

  /** c and h are the centre and half width for p and a. */
  ghost predicate Fits(p: real, a: real, c: real, h: real) {
    && a >= 0.0 && 0.0 <= p <= 1.0 && h >= 0.0
    && c * (1.0 + a) == p + a / 2.0
    && h * h * (1.0 + a) * (1.0 + a) == a * p * (1.0 - p) + a * a / 4.0
  }

  lemma CompletedSquare(p: real, a: real, c: real, x: real)
    requires c * (1.0 + a) == p + a / 2.0
    ensures (x - c) * (x - c) * (1.0 + a) * (1.0 + a)
            == x * x * (1.0 + a) * (1.0 + a) - 2.0 * x * (1.0 + a) * (p + a / 2.0) + (p + a / 2.0) * (p + a / 2.0)
  {
    var d, q := 1.0 + a, p + a / 2.0;
    assert (x - c) * (x - c) * d * d == (x * d - c * d) * (x * d - c * d);
  }

  /** A scaled distance from the centre is the score test. */
  lemma ScoreIdentity(p: real, a: real, c: real, h: real, x: real)
    requires c * (1.0 + a) == p + a / 2.0
    requires h * h * (1.0 + a) * (1.0 + a) == a * p * (1.0 - p) + a * a / 4.0
    ensures ((x - c) * (x - c) - h * h) * (1.0 + a) * (1.0 + a)
            == (1.0 + a) * ((p - x) * (p - x) - a * (x * (1.0 - x)))
  {
    var d, q := 1.0 + a, p + a / 2.0;
    CompletedSquare(p, a, c, x);
    assert q * q == p * p + p * a + a * a / 4.0;
    assert a * p * (1.0 - p) == a * p - a * p * p;
    assert 2.0 * x * d * q == d * (2.0 * x * p + x * a);
    assert d * ((p - x) * (p - x) - a * (x * (1.0 - x)))
        == d * (p * p - 2.0 * p * x + x * x - a * x + a * x * x);
    assert x * x * d * d == d * (x * x + a * x * x);
    assert p * p + p * a - a * p + a * p * p == d * (p * p);
  }

  lemma SameSign(u: real, v: real, d: real)
    requires d > 0.0 && u * d * d == d * v
    ensures u <= 0.0 <==> v <= 0.0
  {
    Cancel(u * d, v, d);
    ProductSign(u, d);
    ProductSign(-u, d);
    assert (-u) * d == -v;
  }

  lemma Inversion(p: real, a: real, c: real, h: real, x: real)
    requires Fits(p, a, c, h)
    ensures c - h <= x <= c + h <==> Compatible(p, a, x)
  {
    ScoreIdentity(p, a, c, h, x);
    SameSign((x - c) * (x - c) - h * h, (p - x) * (p - x) - a * (x * (1.0 - x)), 1.0 + a);
    SquareOrder(x - c, h);
  }

  lemma ContainsP(p: real, a: real, c: real, h: real)
    requires Fits(p, a, c, h)
    ensures c - h <= p <= c + h
  {
    ProductSign(p, 1.0 - p);
    ProductSign(a, p * (1.0 - p));
    Inversion(p, a, c, h, p);
  }

  /** A compatible proportion lies in [0, 1]. */
  lemma CompatibleInUnit(p: real, a: real, x: real)
    requires a >= 0.0 && 0.0 <= p <= 1.0 && Compatible(p, a, x)
    ensures 0.0 <= x <= 1.0
  {
    if x < 0.0 {
      ProductSign(x, 1.0 - x);
      ProductSign(a, -(x * (1.0 - x)));
      ProductSign(p - x, p - x);
    } else if x > 1.0 {
      ProductSign(1.0 - x, x);
      ProductSign(a, -(x * (1.0 - x)));
      ProductSign(x - p, x - p);
    }
  }

  lemma InUnit(p: real, a: real, c: real, h: real, x: real)
    requires Fits(p, a, c, h) && c - h <= x <= c + h
    ensures 0.0 <= x <= 1.0
  {
    Inversion(p, a, c, h, x);
    CompatibleInUnit(p, a, x);
  }

  lemma CloserStillCompatible(p: real, q: real, a: real, x: real)
    requires x < p <= q || q <= p < x
    requires Compatible(q, a, x)
    ensures Compatible(p, a, x)
  {
    SquareOrder(p - x, if q >= x then q - x else x - q);
    assert (x - q) * (x - q) == (q - x) * (q - x);
  }

  lemma EndsMonotone(p: real, q: real, a: real, c: real, h: real, c': real, h': real)
    requires Fits(p, a, c, h) && Fits(q, a, c', h') && p <= q
    ensures c - h <= c' - h' && c + h <= c' + h'
  {
    ContainsP(p, a, c, h);
    ContainsP(q, a, c', h');
    if c' - h' < p {
      Inversion(q, a, c', h', c' - h');
      CloserStillCompatible(p, q, a, c' - h');
      Inversion(p, a, c, h, c' - h');
    }
    if c + h > q {
      Inversion(p, a, c, h, c + h);
      CloserStillCompatible(q, p, a, c + h);
      Inversion(q, a, c', h', c + h);
    }
  }

  // ---------------------------------------------------------------- the code's centre and half width

  lemma RadicandScaled(e: real, m: real, zz: real, a: real, u: real, v: real)
    requires m > 0.0 && a * m == zz && u * m == e && v * (4.0 * m * m) == zz
    ensures zz * (u + v) == a * e + a * a / 4.0
  {
    assert (4.0 * v * m) * m == a * m;
    Cancel(4.0 * v * m, a, m);
    assert zz * u == a * (m * u);
    assert zz * v == a * (m * v);
  }

  lemma Squares(h: real, d: real, z: real, root: real)
    requires h * d == z * root
    ensures h * h * d * d == z * z * (root * root)
  {
    assert h * h * d * d == (h * d) * (h * d);
    assert (z * root) * (z * root) == z * z * (root * root);
  }

  lemma HalfSquared(k: nat, n: nat, z: real, root: real)
    requires n > 0 && root * root == Radicand(k, n, z)
    ensures
      var a, p, h := z * z / n as real, Proportion(k, n), Half(n, z, root);
      h * h * (1.0 + a) * (1.0 + a) == a * p * (1.0 - p) + a * a / 4.0
  {
    var m := n as real;
    var a, p := z * z / m, Proportion(k, n);
    var e := p * (1.0 - p);
    Squares(Half(n, z, root), Denominator(n, z), z, root);
    RadicandScaled(e, m, z * z, a, e / m, z * z / (4.0 * m * m));
    assert a * p * (1.0 - p) == a * e;
  }

  lemma HalvedShare(zz: real, m: real)
    requires m > 0.0
    ensures zz / (2.0 * m) == zz / m / 2.0
  {
    assert zz / (2.0 * m) * (2.0 * m) == zz;
    assert zz / m * m == zz;
    Cancel(2.0 * (zz / (2.0 * m)), zz / m, m);
  }

  lemma CenterScaled(k: nat, n: nat, z: real)
    requires n > 0
    ensures Center(k, n, z) * (1.0 + z * z / n as real) == Proportion(k, n) + z * z / n as real / 2.0
  {
    HalvedShare(z * z, n as real);
  }

  lemma ProportionScaled(k: nat, n: nat)
    requires n > 0
    ensures Proportion(k, n) * n as real == k as real
  {
  }

  lemma ProportionBounds(k: nat, n: nat)
    requires n > 0 && k <= n
    ensures 0.0 <= Proportion(k, n) <= 1.0
  {
    ProportionScaled(k, n);
    ProductSign(Proportion(k, n), n as real);
    ProductSign(1.0 - Proportion(k, n), n as real);
    assert (1.0 - Proportion(k, n)) * n as real == n as real - k as real;
  }

  lemma CodeFits(k: nat, n: nat, z: real, root: real)
    requires n > 0 && k <= n && z >= 0.0 && root >= 0.0 && root * root == Radicand(k, n, z)
    ensures Fits(Proportion(k, n), z * z / n as real, Center(k, n, z), Half(n, z, root))
  {
    Nonneg(z, n as real);
    ProportionBounds(k, n);
    CenterScaled(k, n, z);
    HalfSquared(k, n, z, root);
    ProductSign(z, root);
    QuotientSign(z * root, Denominator(n, z));
  }

  // ---------------------------------------------------------------- theorems

  /** The unclamped interval is the set of proportions the score test accepts: nothing more, nothing less. */
  lemma IntervalInvertsScoreTest(k: nat, n: nat, z: real, root: real, x: real)
    requires n > 0 && k <= n && z >= 0.0 && root >= 0.0 && root * root == Radicand(k, n, z)
    ensures Center(k, n, z) - Half(n, z, root) <= x <= Center(k, n, z) + Half(n, z, root)
            <==> Compatible(Proportion(k, n), z * z / n as real, x)
  {
    CodeFits(k, n, z, root);
    Inversion(Proportion(k, n), z * z / n as real, Center(k, n, z), Half(n, z, root), x);
  }

  /** The interval contains k/n and lies in [0, 1], so the clamps never act. */
  lemma IntervalIsSound(k: nat, n: nat, z: real, root: real)
    requires n > 0 && k <= n && z >= 0.0 && root >= 0.0 && root * root == Radicand(k, n, z)
    ensures
      var lo, hi := Center(k, n, z) - Half(n, z, root), Center(k, n, z) + Half(n, z, root);
      && 0.0 <= lo <= Proportion(k, n) <= hi <= 1.0
      && Ci(k, n, z, root) == Some(Interval(lo, hi))
  {
    var p, a, c, h := Proportion(k, n), z * z / n as real, Center(k, n, z), Half(n, z, root);
    CodeFits(k, n, z, root);
    ContainsP(p, a, c, h);
    InUnit(p, a, c, h, c - h);
    InUnit(p, a, c, h, c + h);
  }

  lemma MirrorProportion(k: nat, n: nat)
    requires n > 0 && k <= n
    ensures Proportion(n - k, n) == 1.0 - Proportion(k, n)
  {
    hide Proportion;
    ProportionScaled(k, n);
    ProportionScaled(n - k, n);
    Complement(Proportion(k, n), Proportion(n - k, n), n as real, k as real);
  }

  lemma Complement(p: real, q: real, m: real, k: real)
    requires m > 0.0 && p * m == k && q * m == m - k
    ensures q == 1.0 - p
  {
    assert (1.0 - p) * m == m - p * m;
    Cancel(q, 1.0 - p, m);
  }

  lemma MirrorRadicand(k: nat, n: nat, z: real)
    requires n > 0 && k <= n
    ensures Radicand(n - k, n, z) == Radicand(k, n, z)
  {
    MirrorProportion(k, n);
    var p, q := Proportion(k, n), Proportion(n - k, n);
    assert q * (1.0 - q) == p * (1.0 - p);
  }

  lemma MirrorCenter(p: real, a: real, c: real, c': real)
    requires a >= 0.0 && c * (1.0 + a) == p + a / 2.0 && c' * (1.0 + a) == 1.0 - p + a / 2.0
    ensures c' == 1.0 - c
  {
    assert (1.0 - c) * (1.0 + a) == (1.0 + a) - c * (1.0 + a);
    Cancel(c', 1.0 - c, 1.0 + a);
  }

  lemma CentersMirror(k: nat, n: nat, z: real)
    requires n > 0 && k <= n
    ensures Center(n - k, n, z) == 1.0 - Center(k, n, z)
  {
    MirrorProportion(k, n);
    CenterScaled(k, n, z);
    CenterScaled(n - k, n, z);
    Nonneg(z, n as real);
    MirrorCenter(Proportion(k, n), z * z / n as real, Center(k, n, z), Center(n - k, n, z));
  }

  /** Counting failures instead of successes needs the same root and mirrors the interval at one half. */
  lemma IntervalMirrors(k: nat, n: nat, z: real, root: real)
    requires n > 0 && k <= n && z >= 0.0 && root >= 0.0 && root * root == Radicand(k, n, z)
    ensures Radicand(n - k, n, z) == Radicand(k, n, z)
    ensures
      && Ci(n - k, n, z, root).Some? && Ci(k, n, z, root).Some?
      && Ci(n - k, n, z, root).value.lo == 1.0 - Ci(k, n, z, root).value.hi
      && Ci(n - k, n, z, root).value.hi == 1.0 - Ci(k, n, z, root).value.lo
  {
    MirrorRadicand(k, n, z);
    IntervalIsSound(k, n, z, root);
    IntervalIsSound(n - k, n, z, root);
    CentersMirror(k, n, z);
  }

  lemma ProportionMonotone(k: nat, l: nat, n: nat)
    requires n > 0 && k <= l
    ensures Proportion(k, n) <= Proportion(l, n)
  {
    ProportionScaled(k, n);
    ProportionScaled(l, n);
    var u, m := Proportion(l, n) - Proportion(k, n), n as real;
    assert u * m == l as real - k as real;
    ProductSign(u, m);
  }

  /** More successes never lower either end of the interval. */
  lemma IntervalMonotone(k: nat, l: nat, n: nat, z: real, rootK: real, rootL: real)
    requires n > 0 && k <= l <= n && z >= 0.0
    requires rootK >= 0.0 && rootK * rootK == Radicand(k, n, z)
    requires rootL >= 0.0 && rootL * rootL == Radicand(l, n, z)
    ensures
      && Ci(k, n, z, rootK).Some? && Ci(l, n, z, rootL).Some?
      && Ci(k, n, z, rootK).value.lo <= Ci(l, n, z, rootL).value.lo
      && Ci(k, n, z, rootK).value.hi <= Ci(l, n, z, rootL).value.hi
  {
    IntervalIsSound(k, n, z, rootK);
    IntervalIsSound(l, n, z, rootL);
    CodeFits(k, n, z, rootK);
    CodeFits(l, n, z, rootL);
    ProportionMonotone(k, l, n);
    EndsMonotone(Proportion(k, n), Proportion(l, n), z * z / n as real,
                 Center(k, n, z), Half(n, z, rootK), Center(l, n, z), Half(n, z, rootL));
  }
}
