/** X25519 of libdotnet/Ed25519.cpp: the lazily swapped Montgomery ladder, against the
    chord-and-tangent group of B v^2 = u^3 + A u^2 + u for any B (the curve and its twist). */
module Montgomery {
  import opened Bytes
  import opened Field25519
  import opened PointCodec
  import E = Ed25519

  const A: int := 486662

  // ---------------------------------------------------------------------------------------
  // The group
  // ---------------------------------------------------------------------------------------

  datatype Point = Infinity | Finite(u: int, v: int)

  function Cubic(u: int): int {
    u * (u * u) + A * (u * u) + u
  }

  predicate OnCurve(b: int, p: Point) {
    p.Finite? ==> 0 <= p.u < Q && 0 <= p.v < Q && Cong(b * (p.v * p.v), Cubic(p.u))
  }

  /** The slope of the chord, or of the tangent. */
  ghost function Slope(b: int, p: Point, r: Point): int
    requires p.Finite? && r.Finite?
  {
    if p.u != r.u then (r.v - p.v) * Inverse(r.u - p.u)
    else (3 * (p.u * p.u) + 2 * A * p.u + 1) * Inverse(2 * b * p.v)
  }

  ghost function Add(b: int, p: Point, r: Point): Point {
    if p.Infinity? then r
    else if r.Infinity? then p
    else if p.u == r.u && (p.v + r.v) % Q == 0 then Infinity
    else
      var l := Slope(b, p, r);
      var u := (b * (l * l) - A - p.u - r.u) % Q;
      Finite(u, (l * (p.u - u) - p.v) % Q)
  }

  /** The base point of section 4.1 of RFC 7748 is on the curve. */
  lemma BasePointOnCurve()
    ensures Cubic(9) == 39420360 && OnCurve(1, Finite(9, 14781619447589544791020593568409986887264606134616475288964881837755586237401))
  {
    var v := 14781619447589544791020593568409986887264606134616475288964881837755586237401;
    CongNumbers(v * v, 39420360, 3773941293097298634799158394344131590250402624247855264280139529679695560109);
    ModulusIs();
  }

  function Neg(p: Point): Point {
    if p.Infinity? then p else Finite(p.u, -p.v % Q)
  }

  ghost function Smul(b: int, n: nat, p: Point): Point {
    if n == 0 then Infinity else Add(b, Smul(b, n - 1, p), p)
  }

  predicate Members(b: int, p: Point, r: Point, s: Point) {
    OnCurve(b, p) && OnCurve(b, r) && OnCurve(b, s)
  }

  /** The facts the ladder rests on: q is prime, and chord-and-tangent addition on the points of
      the curve is a commutative and associative operation. */
  ghost predicate GroupFacts(b: int) {
    && PrimeField() && !Cong(b, 0)
    && (forall p, r, s {:trigger Members(b, p, r, s)} :: Members(b, p, r, s) ==>
          && OnCurve(b, Add(b, p, r))
          && Add(b, p, r) == Add(b, r, p)
          && Add(b, Add(b, p, r), s) == Add(b, p, Add(b, r, s)))
  }

  lemma Laws(b: int, p: Point, r: Point, s: Point)
    requires GroupFacts(b) && OnCurve(b, p) && OnCurve(b, r) && OnCurve(b, s)
    ensures PrimeField() && !Cong(b, 0) && OnCurve(b, Add(b, p, r)) && Add(b, p, r) == Add(b, r, p)
    ensures Add(b, Add(b, p, r), s) == Add(b, p, Add(b, r, s))
  {
    hide Add, PrimeField, OnCurve;
    assert Members(b, p, r, s);
  }

  lemma {:induction false} SmulOnCurve(b: int, n: nat, p: Point)
    requires GroupFacts(b) && OnCurve(b, p)
    ensures OnCurve(b, Smul(b, n, p))
  {
    hide Add, GroupFacts;
    if n > 0 {
      SmulOnCurve(b, n - 1, p);
      Laws(b, Smul(b, n - 1, p), p, p);
    }
  }

  lemma {:induction false} SmulAdd(b: int, m: nat, n: nat, p: Point)
    requires GroupFacts(b) && OnCurve(b, p)
    ensures Smul(b, m + n, p) == Add(b, Smul(b, m, p), Smul(b, n, p))
    decreases n
  {
    hide GroupFacts, OnCurve, Slope;
    if n > 0 {
      SmulAdd(b, m, n - 1, p);
      SmulOnCurve(b, m, p); SmulOnCurve(b, n - 1, p);
      Laws(b, Smul(b, m, p), Smul(b, n - 1, p), p);
    }
  }

  lemma NegOnCurve(b: int, p: Point)
    requires OnCurve(b, p)
    ensures OnCurve(b, Neg(p)) && Add(b, p, Neg(p)) == Infinity
  {
    if p.Finite? {
      var v := -p.v % Q;
      assert Cong(v + p.v, 0) by { hide Cong; Reduced(-p.v); Same(p.v, p.v); Plus(v, -p.v, p.v, p.v); }
      hide Cong;
      Reduced(-p.v);
      Times(v, -p.v, v, -p.v);
      assert -p.v * -p.v == p.v * p.v;
      Same(b, b);
      Times(b, b, v * v, p.v * p.v);
      Chain(b * (v * v), b * (p.v * p.v), Cubic(p.u));
    }
  }

  // ---------------------------------------------------------------------------------------
  // Projective u-coordinates
  // ---------------------------------------------------------------------------------------

  /** (x : z) is the projective u-coordinate of p; z is zero exactly at infinity. */
  ghost predicate OnLine(p: Point, x: int, z: int) {
    if p.Infinity? then Cong(z, 0) && !Cong(x, 0) else !Cong(z, 0) && Cong(x, p.u * z)
  }

  function DoubleX(x: int, z: int): int { (x * x - z * z) * (x * x - z * z) }
  function DoubleZ(x: int, z: int): int { 4 * (x * z) * (x * x + A * (x * z) + z * z) }

  lemma NonzeroProduct(a: int, b: int)
    requires PrimeField() && !Cong(a, 0) && !Cong(b, 0)
    ensures !Cong(a * b, 0)
  {
    if Cong(a * b, 0) {
      NoZeroDivisors(a, b);
    }
  }

  lemma TimesZero(a: int, b: int)
    requires Cong(b, 0)
    ensures Cong(a * b, 0) && Cong(b * a, 0)
  {
    hide Cong;
    Same(a, a);
    Times(a, a, b, 0);
  }

  lemma ScaledSquare(x: int, u: int, z: int)
    requires Cong(x, u * z)
    ensures Cong(x * x, u * u * (z * z)) && Cong(x * z, u * (z * z))
  {
    hide Cong;
    Same(z, z);
    Times(x, u * z, x, u * z);
    Regroup4(u, z, u, z);
    Times(x, u * z, z, z);
    Regroup(u, z, z);
  }

  lemma ScaledDouble(x: int, u: int, z: int)
    requires Cong(x, u * z)
    ensures Cong(DoubleX(x, z), (u * u - 1) * (u * u - 1) * (z * z * (z * z)))
    ensures Cong(DoubleZ(x, z), 4 * Cubic(u) * (z * z * (z * z)))
  {
    hide Cong;
    var w := z * z;
    ScaledSquare(x, u, z);
    Same(w, w); Same(4, 4); Same(A, A);
    Minus(x * x, u * u * w, w, w);
    Factor(u * u, w);
    Times(x * x - w, (u * u - 1) * w, x * x - w, (u * u - 1) * w);
    Regroup4(u * u - 1, w, u * u - 1, w);
    Times(A, A, x * z, u * w);
    Plus(x * x, u * u * w, A * (x * z), A * (u * w));
    Plus(x * x + A * (x * z), u * u * w + A * (u * w), w, w);
    Times(4, 4, x * z, u * w);
    Times(4 * (x * z), 4 * (u * w), x * x + A * (x * z) + w, u * u * w + A * (u * w) + w);
    CubicTimes(u, w);
  }

  lemma Factor(uu: int, w: int)
    ensures uu * w - w == (uu - 1) * w
  {
  }

  lemma CubicTimes(u: int, w: int)
    ensures 4 * (u * w) * (u * u * w + A * (u * w) + w) == 4 * Cubic(u) * (w * w)
  {
    var t := u * u + A * u + 1;
    assert u * u * w + A * (u * w) + w == t * w;
    assert 4 * (u * w) * (t * w) == 4 * u * t * (w * w) by { Regroup4(4 * u, w, t, w); assert 4 * (u * w) == 4 * u * w; }
    CubicFactor(u);
  }

  lemma CubicFactor(u: int)
    ensures 4 * u * (u * u + A * u + 1) == 4 * Cubic(u)
  {
  }

  /** A point of order two never has u^2 == 1, since A^2 is not 4. */
  lemma TwoTorsion(u: int)
    requires Cong(Cubic(u), 0)
    ensures !Cong(u * u, 1)
  {
    hide Cong, Cubic;
    if Cong(u * u, 1) {
      TwoTorsionSquare(u);
      AKnown();
    }
  }

  lemma TwoTorsionSquare(u: int)
    requires Cong(Cubic(u), 0) && Cong(u * u, 1)
    ensures Cong(A * A, 4)
  {
    var r := u * u;
    hide Cong;
    Same(u, u); Same(A, A);
    Times(u, u, r, 1);
    Times(A, A, r, 1);
    Plus(u * r, u, A * r, A);
    Plus(u * r + A * r, u + A, u, u);
    Flip(Cubic(u), u + A + u);
    Chain(u + A + u, Cubic(u), 0);
    OpposedSquares(u, A);
  }

  lemma OpposedSquares(u: int, k: int)
    requires Cong(u + k + u, 0) && Cong(u * u, 1)
    ensures Cong(k * k, 4)
  {
    hide Cong;
    var n := 2 * u;
    Same(n, n);
    Minus(n, n, u + k + u, 0);
    assert n - (u + k + u) == -k;
    Times(-k, n, -k, n);
    MinusSquare(k, 0);
    TwiceSquared(n, u);
    Same(4, 4);
    Times(4, 4, u * u, 1);
    Chain(k * k, 4 * (u * u), 4);
  }

  lemma TangentIdentity(u: int, k: int)
    ensures (3 * (u * u) + 2 * k * u + 1) * (3 * (u * u) + 2 * k * u + 1) - 4 * (u * (u * u) + k * (u * u) + u) * (k + u + u)
         == (u * u - 1) * (u * u - 1)
  {
    TangentCubic(u, k);
    TangentOf(u, k, u * (u * u) + k * (u * u) + u, u * u, k * u);
  }

  lemma TangentOf(u: int, k: int, f: int, s: int, m: int)
    requires s == u * u && m == k * u && f * u == s * s + s * m + s && f * k == s * m + m * m + m
    ensures (3 * s + 2 * k * u + 1) * (3 * s + 2 * k * u + 1) - 4 * f * (k + u + u) == (s - 1) * (s - 1)
  {
    assert 4 * f * (k + u + u) == 4 * (f * k + 2 * (f * u)) by { Spread4(f, k, u); }
    assert 2 * k * u == 2 * m;
    TangentExpanded(s, m, f, f * u, f * k);
  }

  lemma Spread4(f: int, k: int, u: int)
    ensures 4 * f * (k + u + u) == 4 * (f * k + 2 * (f * u))
  {
  }

  lemma TangentCubic(u: int, k: int)
    ensures (u * (u * u) + k * (u * u) + u) * u == u * u * (u * u) + u * u * (k * u) + u * u
    ensures (u * (u * u) + k * (u * u) + u) * k == u * u * (k * u) + k * u * (k * u) + k * u
  {
    Regroup4(k, u, k, u);
    Regroup3(k, u, u * u); Regroup3(u, k, u * u);
    Regroup3(u, u * u, u);
  }

  lemma TangentExpanded(s: int, m: int, f: int, fu: int, fk: int)
    requires fu == s * s + s * m + s && fk == s * m + m * m + m
    ensures (3 * s + 2 * m + 1) * (3 * s + 2 * m + 1) - 4 * (fk + 2 * fu) == (s - 1) * (s - 1)
  {
    assert (3 * s + 2 * m + 1) * (3 * s + 2 * m + 1) == 9 * (s * s) + 12 * (s * m) + 6 * s + 4 * (m * m) + 4 * m + 1;
  }

  lemma AKnown()
    ensures !Cong(A * A, 4) && !Cong(4, 0)
  {
    ModulusIs();
    if Cong(A * A, 4) { ReducedEqual(A * A, 4); }
    if Cong(4, 0) { ReducedEqual(4, 0); }
  }

  /** A slope n/m squared, cleared of its denominator. */
  lemma SlopeSquare(n: int, m: int, r: int)
    requires Cong(m * r, 1)
    ensures Cong(n * r * (n * r) * (m * m), n * n)
  {
    hide Cong;
    var l := n * r;
    Same(n, n);
    Times(n, n, m * r, 1);
    assert n * (m * r) == l * m by { Regroup3(n, m, r); Regroup3(n, r, m); Swapped(m, r); }
    Times(l * m, n, l * m, n);
    Regroup4(l, m, l, m);
  }

  /** The u-coordinate a line of slope n/m gives, cleared of its denominator. */
  lemma LineU(b: int, n: int, m: int, w: int, u: int)
    requires Unit(m) && Cong(u, b * (n * Inverse(m) * (n * Inverse(m))) - w)
    ensures Cong(u * (m * m), b * (n * n) - w * (m * m))
  {
    hide Cong, Inverse;
    SlopeSquare(n, m, Inverse(m));
    LineUOf(b, n * Inverse(m) * (n * Inverse(m)), m * m, n * n, w, u);
  }

  lemma LineUOf(b: int, ll: int, mm: int, nn: int, w: int, u: int)
    requires Cong(u, b * ll - w) && Cong(ll * mm, nn)
    ensures Cong(u * mm, b * nn - w * mm)
  {
    hide Cong;
    Same(b, b); Same(mm, mm); Same(w * mm, w * mm);
    Times(b, b, ll * mm, nn);
    Regroup(b, ll, mm);
    Times(u, b * ll - w, mm, mm);
    Minus(b * ll * mm, b * nn, w * mm, w * mm);
    SpreadLeft(b * ll, w, mm);
    Chain(u * mm, (b * ll - w) * mm, b * nn - w * mm);
  }

  lemma SpreadLeft(x: int, w: int, m: int)
    ensures (x - w) * m == x * m - w * m
  {
  }

  lemma OddModulus(v: int)
    requires 0 <= v < Q && (v + v) % Q == 0
    ensures v == 0
  {
    ModulusIs();
    ModOf(v + v, if v + v < Q then 0 else 1, if v + v < Q then v + v else v + v - Q);
  }

  /** Doubling a point with v != 0, on its u-coordinate. */
  lemma DoubleU(b: int, p: Point)
    requires PrimeField() && !Cong(b, 0) && p.Finite? && OnCurve(b, p) && p.v != 0
    ensures Add(b, p, p).Finite? && !Cong(4 * Cubic(p.u), 0)
    ensures Cong(Add(b, p, p).u * (4 * Cubic(p.u)), (p.u * p.u - 1) * (p.u * p.u - 1))
  {
    if (p.v + p.v) % Q == 0 { OddModulus(p.v); }
    assert !Cong(p.v, 0) by { ModOf(p.v, 0, p.v); }
    AKnown();
    DoubleUOf(b, p.u, p.v, Add(b, p, p).u);
  }

  lemma DoubleUOf(b: int, u: int, v: int, r: int)
    requires PrimeField() && !Cong(b, 0) && !Cong(v, 0) && !Cong(4, 0) && Cong(b * (v * v), Cubic(u))
    requires r == (b * ((3 * (u * u) + 2 * A * u + 1) * Inverse(2 * b * v) * ((3 * (u * u) + 2 * A * u + 1) * Inverse(2 * b * v))) - A - u - u) % Q
    ensures !Cong(4 * Cubic(u), 0) && Cong(r * (4 * Cubic(u)), (u * u - 1) * (u * u - 1))
  {
    hide Cong, Cubic, Inverse;
    var m, n, w, f := 2 * b * v, 3 * (u * u) + 2 * A * u + 1, A + u + u, Cubic(u);
    NonzeroProduct(b, v);
    Two();
    NonzeroProduct(2, b * v);
    assert m == 2 * (b * v);
    NonzeroIsUnit(m); NonzeroIsUnit(b);
    Reduced(b * (n * Inverse(m) * (n * Inverse(m))) - A - u - u);
    assert b * (n * Inverse(m) * (n * Inverse(m))) - A - u - u == b * (n * Inverse(m) * (n * Inverse(m))) - w;
    LineU(b, n, m, w, r);
    var g := b * (v * v);
    assert m * m == b * (4 * g) by { SquareOfDouble(b, v); }
    assert r * (m * m) == b * (r * (4 * g)) by { Regroup3(b, r, 4 * g); Regroup3(r, b, 4 * g); }
    assert w * (m * m) == b * (w * (4 * g)) by { Regroup3(b, w, 4 * g); Regroup3(w, b, 4 * g); }
    assert b * (n * n) - b * (w * (4 * g)) == b * (n * n - w * (4 * g));
    Cancel(b, r * (4 * g), n * n - w * (4 * g));
    Same(4, 4); Same(r, r); Same(w, w); Same(n * n, n * n);
    Times(4, 4, g, f);
    Times(r, r, 4 * g, 4 * f);
    Times(w, w, 4 * g, 4 * f);
    Minus(n * n, n * n, w * (4 * g), w * (4 * f));
    Flip(r * (4 * g), r * (4 * f));
    Chain(r * (4 * f), r * (4 * g), n * n - w * (4 * g));
    Chain(r * (4 * f), n * n - w * (4 * g), n * n - w * (4 * f));
    TangentSquare(u);
    // 4 b v^2 is not zero
    NonzeroProduct(v, v); NonzeroProduct(b, v * v); NonzeroProduct(4, g);
    Flip(4 * g, 4 * f);
    NonzeroCong(4 * g, 4 * f);
  }

  lemma Two()
    ensures !Cong(2, 0)
  {
  }

  lemma NonzeroCong(a: int, b: int)
    requires !Cong(a, 0) && Cong(a, b)
    ensures !Cong(b, 0)
  {
  }

  lemma SquareOfDouble(b: int, v: int)
    ensures 2 * b * v * (2 * b * v) == b * (4 * (b * (v * v)))
  {
    Regroup4(b, v, b, v);
    assert 2 * b * v == 2 * (b * v);
    Regroup3(b, b, v * v);
  }

  lemma TangentSquare(u: int)
    ensures (3 * (u * u) + 2 * A * u + 1) * (3 * (u * u) + 2 * A * u + 1) - (A + u + u) * (4 * Cubic(u))
         == (u * u - 1) * (u * u - 1)
  {
    TangentIdentity(u, A);
    Swapped(4 * Cubic(u), A + u + u);
  }

  lemma Swapped(a: int, b: int)
    ensures a * b == b * a
  {
  }

  /** Doubling, on any projective u-coordinate of any point. */
  lemma DoubleLaw(b: int, p: Point, x: int, z: int)
    requires PrimeField() && !Cong(b, 0) && OnCurve(b, p) && OnLine(p, x, z)
    ensures OnLine(Add(b, p, p), DoubleX(x, z), DoubleZ(x, z))
  {
    if p.Infinity? {
      DoubleInfinity(x, z);
    } else {
      var w := z * z * (z * z);
      hide Cong, Slope;
      NonzeroProduct(z, z); NonzeroProduct(z * z, z * z);
      ScaledDouble(x, p.u, z);
      if p.v == 0 {
        DoubleOrderTwo(b, p.u, x, z);
        assert Add(b, p, p) == Infinity;
      } else {
        DoubleU(b, p);
        FiniteOnLine(Add(b, p, p).u, (p.u * p.u - 1) * (p.u * p.u - 1), 4 * Cubic(p.u), w, DoubleX(x, z), DoubleZ(x, z));
      }
    }
  }

  lemma DoubleInfinity(x: int, z: int)
    requires PrimeField() && Cong(z, 0) && !Cong(x, 0)
    ensures Cong(DoubleZ(x, z), 0) && !Cong(DoubleX(x, z), 0)
  {
    hide Cong;
    TimesZero(x, z); TimesZero(z, z);
    TimesZero(4, x * z);
    TimesZero(x * x + A * (x * z) + z * z, 4 * (x * z));
    NonzeroProduct(x, x);
    Same(x * x, x * x);
    Minus(x * x, x * x, z * z, 0);
    Flip(x * x - z * z, x * x);
    NonzeroCong(x * x, x * x - z * z);
    NonzeroProduct(x * x - z * z, x * x - z * z);
  }

  lemma DoubleOrderTwo(b: int, u: int, x: int, z: int)
    requires PrimeField() && Cong(b * (0 * 0), Cubic(u)) && !Cong(z * z * (z * z), 0)
    requires Cong(DoubleX(x, z), (u * u - 1) * (u * u - 1) * (z * z * (z * z)))
    requires Cong(DoubleZ(x, z), 4 * Cubic(u) * (z * z * (z * z)))
    ensures Cong(DoubleZ(x, z), 0) && !Cong(DoubleX(x, z), 0)
  {
    var w := z * z * (z * z);
    hide Cong, DoubleX, DoubleZ, Cubic;
    Flip(0, Cubic(u));
    TimesZero(4, Cubic(u));
    TimesZero(w, 4 * Cubic(u));
    Chain(DoubleZ(x, z), 4 * Cubic(u) * w, 0);
    TwoTorsion(u);
    NonzeroDifference(u * u, 1);
    NonzeroProduct(u * u - 1, u * u - 1);
    NonzeroProduct((u * u - 1) * (u * u - 1), w);
    Flip(DoubleX(x, z), (u * u - 1) * (u * u - 1) * w);
    NonzeroCong((u * u - 1) * (u * u - 1) * w, DoubleX(x, z));
  }

  lemma NonzeroDifference(a: int, b: int)
    requires !Cong(a, b)
    ensures !Cong(a - b, 0)
  {
    if Cong(a - b, 0) {
      Same(b, b);
      Plus(a - b, 0, b, b);
    }
  }

  /** From u n == m up to congruence to the scaled coordinates. */
  lemma FiniteOnLine(u: int, m: int, n: int, w: int, x: int, z: int)
    requires PrimeField() && Cong(u * n, m) && !Cong(n, 0) && !Cong(w, 0)
    requires Cong(x, m * w) && Cong(z, n * w)
    ensures !Cong(z, 0) && Cong(x, u * z)
  {
    hide Cong;
    NonzeroProduct(n, w);
    Flip(z, n * w);
    NonzeroCong(n * w, z);
    Same(u, u); Same(w, w);
    Times(u, u, n * w, z);
    Times(u * n, m, w, w);
    Regroup(u, n, w);
    Flip(u * n * w, m * w);
    Chain(x, m * w, u * n * w);
    Chain(x, u * (n * w), u * z);
  }

  // ---------------------------------------------------------------------------------------
  // Differential addition
  // ---------------------------------------------------------------------------------------

  function SumX(x2: int, z2: int, x3: int, z3: int): int {
    4 * ((x2 * x3 - z2 * z3) * (x2 * x3 - z2 * z3))
  }

  function SumZ(u: int, x2: int, z2: int, x3: int, z3: int): int {
    u * (4 * ((x2 * z3 - z2 * x3) * (x2 * z3 - z2 * x3)))
  }

  lemma ChordIdentity(s: int, p: int, w: int)
    ensures (s * w - p + 1) * (s * w - p + 1) - 2 * w * (w * (s * s - 2 * p) + s * (1 - p)) + w * w * (s * s - 4 * p)
         == (1 - p) * (1 - p)
  {
    var m, k := s * w, 1 - p;
    assert (m + k) * (m + k) == m * m + 2 * (m * k) + k * k;
    assert m * m == w * w * (s * s) by { Regroup4(s, w, s, w); }
    assert 2 * w * (w * (s * s - 2 * p) + s * k) == 2 * (w * w * (s * s - 2 * p)) + 2 * (m * k) by {
      Regroup(w, w, s * s - 2 * p); Regroup(w, s, k);
      Spread2(w, w * (s * s - 2 * p), s * k);
    }
    assert w * w * (s * s - 2 * p) == w * w * (s * s) - 2 * (w * w * p) by { Spread3(w * w, s * s, p, 2); }
    assert w * w * (s * s - 4 * p) == w * w * (s * s) - 4 * (w * w * p) by { Spread3(w * w, s * s, p, 4); }
  }

  lemma Spread2(w: int, x: int, y: int)
    ensures 2 * w * (x + y) == 2 * (w * x) + 2 * (w * y)
  {
  }

  lemma Spread3(w: int, x: int, p: int, n: int)
    ensures w * (x - n * p) == w * x - n * (w * p)
  {
  }

  // f(c) - f(a) and f(a) + f(c) in terms of s = a + c and p = a c.
  lemma CubicDifference(a: int, c: int, k: int, s: int, p: int)
    requires s == a + c && p == a * c
    ensures c * (c * c) + k * (c * c) + c - (a * (a * a) + k * (a * a) + a) == (c - a) * (s * (k + s) - p + 1)
  {
    var x, y := a * a, c * c;
    CubesDifference(a, c, x, y, p);
    SquareDifference(c, a);
    Regroup3(k, c - a, s); Swapped(k, c - a);
    SquareOfSum(a, c);
    CubicDifferenceOf(a, c, k, s, p, x, y, c * y, a * x);
  }

  lemma SquareOfSum(a: int, c: int)
    ensures (a + c) * (a + c) == a * a + 2 * (a * c) + c * c
  {
  }

  lemma CubicDifferenceOf(a: int, c: int, k: int, s: int, p: int, x: int, y: int, yc: int, xa: int)
    requires (c - a) * (x + p + y) == yc - xa && (c - a) * (k * s) == k * (y - x) && s * s == x + 2 * p + y
    ensures yc + k * y + c - (xa + k * x + a) == (c - a) * (s * (k + s) - p + 1)
  {
    assert s * (k + s) - p + 1 == (x + p + y) + k * s + 1;
    Spread5(c - a, x + p + y, k * s);
  }

  lemma CubesDifference(a: int, c: int, x: int, y: int, p: int)
    requires x == a * a && y == c * c && p == a * c
    ensures (c - a) * (x + p + y) == c * y - a * x
  {
    assert c * x == a * p && a * y == c * p by { Regroup3(a, c, a); Regroup3(a, c, c); Swapped(c, x); }
    Spread6(c, a, x, p, y);
  }

  lemma Spread5(m: int, x: int, y: int)
    ensures m * (x + y + 1) == m * x + m * y + m
  {
  }

  lemma Spread6(c: int, a: int, x: int, y: int, z: int)
    ensures (c - a) * (x + y + z) == c * x + c * y + c * z - a * x - a * y - a * z
  {
  }

  lemma CubicSum(a: int, c: int, k: int, s: int, p: int)
    requires s == a + c && p == a * c
    ensures a * (a * a) + k * (a * a) + a + (c * (c * c) + k * (c * c) + c) == (k + s) * (s * s - 2 * p) + s * (1 - p)
  {
    var x, y := a * a, c * c;
    assert s * s - 2 * p == x + y;
    assert c * x == a * p && a * y == c * p by { Regroup3(a, c, a); Regroup3(a, c, c); Swapped(c, x); }
    Spread7(a, c, x, y);
    assert s * p == a * p + c * p;
    CubicSumOf(s, p, k, x, y, a * x, c * y);
  }

  lemma CubicSumOf(s: int, p: int, k: int, x: int, y: int, xa: int, yc: int)
    requires s * (x + y) == xa + yc + s * p
    ensures xa + k * x + (yc + k * y) + s == (k + s) * (x + y) + s * (1 - p)
  {
    assert (k + s) * (x + y) == k * x + k * y + s * (x + y);
    assert s * (1 - p) == s - s * p;
  }

  lemma Spread7(a: int, c: int, x: int, y: int)
    ensures (a + c) * (x + y) == a * x + c * y + c * x + a * y
  {
  }

  // (x - k)(y - k) for the two chords through (a, v) and (c, d), (c, -d).
  lemma ChordPair(b: int, v: int, d: int, k: int, f: int, g: int)
    requires f == b * (v * v) && g == b * (d * d)
    ensures (b * ((d - v) * (d - v)) - k) * (b * ((d + v) * (d + v)) - k) == (g - f) * (g - f) - 2 * (k * (f + g)) + k * k
  {
    var m, n := f + g - k, 2 * (b * (v * d));
    assert b * ((d - v) * (d - v)) == f + g - n && b * ((d + v) * (d + v)) == f + g + n by {
      assert (d - v) * (d - v) == d * d - 2 * (v * d) + v * v && (d + v) * (d + v) == d * d + 2 * (v * d) + v * v;
      Spread8(b, d * d, v * d, v * v);
    }
    assert n * n == 4 * (f * g) by {
      Regroup4(b, v * d, b, v * d); Regroup4(v, d, v, d); Regroup4(b, v * v, b, d * d);
    }
    ChordPairOf(f, g, k, n);
  }

  lemma Spread8(b: int, x: int, y: int, z: int)
    ensures b * (x - 2 * y + z) == b * x - 2 * (b * y) + b * z && b * (x + 2 * y + z) == b * x + 2 * (b * y) + b * z
  {
  }

  lemma ChordPairOf(f: int, g: int, k: int, n: int)
    requires n * n == 4 * (f * g)
    ensures (f + g - n - k) * (f + g + n - k) == (g - f) * (g - f) - 2 * (k * (f + g)) + k * k
  {
    assert (f + g - k - n) * (f + g - k + n) == (f + g - k) * (f + g - k) - n * n;
    assert (f + g - k) * (f + g - k) == (f + g) * (f + g) - 2 * (k * (f + g)) + k * k;
    assert (f + g) * (f + g) == (g - f) * (g - f) + 4 * (f * g);
  }

  lemma ChordCubics(a: int, c: int)
    ensures (Cubic(c) - Cubic(a)) * (Cubic(c) - Cubic(a)) - 2 * ((A + a + c) * ((c - a) * (c - a)) * (Cubic(a) + Cubic(c)))
          + (A + a + c) * ((c - a) * (c - a)) * ((A + a + c) * ((c - a) * (c - a)))
         == (c - a) * (c - a) * ((1 - a * c) * (1 - a * c))
  {
    hide Cubic;
    CubicsAre(a, c);
    ChordCubicsAt(a, c, A + a + c, Cubic(a), Cubic(c));
  }

  lemma ChordCubicsAt(a: int, c: int, w: int, f: int, g: int)
    requires g - f == (c - a) * ((a + c) * w - a * c + 1)
    requires f + g == w * ((a + c) * (a + c) - 2 * (a * c)) + (a + c) * (1 - a * c)
    ensures (g - f) * (g - f) - 2 * (w * ((c - a) * (c - a)) * (f + g)) + w * ((c - a) * (c - a)) * (w * ((c - a) * (c - a)))
         == (c - a) * (c - a) * ((1 - a * c) * (1 - a * c))
  {
    var s, p := a + c, a * c;
    ChordIdentity(s, p, w);
    ChordCubicsFrom(a, c, s, p, w, f, g);
  }

  lemma CubicsAre(a: int, c: int)
    ensures Cubic(c) - Cubic(a) == (c - a) * ((a + c) * (A + a + c) - a * c + 1)
    ensures Cubic(a) + Cubic(c) == (A + a + c) * ((a + c) * (a + c) - 2 * (a * c)) + (a + c) * (1 - a * c)
  {
    CubicDifference(a, c, A, a + c, a * c);
    CubicSum(a, c, A, a + c, a * c);
  }

  lemma ChordCubicsFrom(a: int, c: int, s: int, p: int, w: int, f: int, g: int)
    requires s == a + c && p == a * c && g - f == (c - a) * (s * w - p + 1)
    requires f + g == w * (s * s - 2 * p) + s * (1 - p)
    requires (s * w - p + 1) * (s * w - p + 1) - 2 * w * (w * (s * s - 2 * p) + s * (1 - p)) + w * w * (s * s - 4 * p)
          == (1 - p) * (1 - p)
    ensures (g - f) * (g - f) - 2 * (w * ((c - a) * (c - a)) * (f + g)) + w * ((c - a) * (c - a)) * (w * ((c - a) * (c - a)))
         == (c - a) * (c - a) * ((1 - p) * (1 - p))
  {
    var h, t := s * w - p + 1, w * (s * s - 2 * p) + s * (1 - p);
    SquareOfGap(a, c);
    DoubleProduct(w, t);
    ChordCubicsOf(f, g, c - a, h, w, t, (1 - p) * (1 - p));
  }

  lemma SquareOfGap(a: int, c: int)
    ensures (c - a) * (c - a) == (a + c) * (a + c) - 4 * (a * c)
  {
  }

  lemma ChordCubicsOf(f: int, g: int, m: int, h: int, w: int, t: int, r: int)
    requires g - f == m * h && f + g == t && h * h - 2 * (w * t) + w * w * (m * m) == r
    ensures (g - f) * (g - f) - 2 * (w * (m * m) * (f + g)) + w * (m * m) * (w * (m * m)) == m * m * r
  {
    var e := m * m;
    Regroup4(m, h, m, h);
    Regroup4(w, e, w, e);
    assert e * (h * h - 2 * (w * t) + w * w * e) == e * (h * h) - 2 * (w * e * t) + w * w * (e * e) by {
      Spread9(e, h * h, w * t, w * w * e);
      Regroup3(w, e, t); Regroup3(e, w, t); Regroup3(e, w * w, e); Swapped(w * w, e); Swapped(w, e);
      Regroup3(w * w, e, e);
    }
  }

  lemma DoubleProduct(w: int, t: int)
    ensures 2 * w * t == 2 * (w * t)
  {
  }

  lemma Spread9(e: int, x: int, y: int, z: int)
    ensures e * (x - 2 * y + z) == e * x - 2 * (e * y) + e * z
  {
  }

  lemma PairCong(f: int, g: int, f': int, g': int, k: int)
    requires Cong(f, f') && Cong(g, g')
    ensures Cong((g - f) * (g - f) - 2 * (k * (f + g)) + k * k, (g' - f') * (g' - f') - 2 * (k * (f' + g')) + k * k)
  {
    hide Cong;
    Minus(g, g', f, f');
    Plus(f, f', g, g');
    Times(g - f, g' - f', g - f, g' - f');
    Same(k, k); Same(2, 2); Same(k * k, k * k);
    Times(k, k, f + g, f' + g');
    Times(2, 2, k * (f + g), k * (f' + g'));
    Minus((g - f) * (g - f), (g' - f') * (g' - f'), 2 * (k * (f + g)), 2 * (k * (f' + g')));
    Plus((g - f) * (g - f) - 2 * (k * (f + g)), (g' - f') * (g' - f') - 2 * (k * (f' + g')), k * k, k * k);
  }

  /** The u-coordinates of s + t and of t - s multiply to ((1 - a c) / (c - a))^2. */
  lemma ChordProduct(b: int, a: int, v: int, c: int, d: int, up: int, um: int)
    requires PrimeField() && !Cong(c - a, 0) && Cong(b * (v * v), Cubic(a)) && Cong(b * (d * d), Cubic(c))
    requires Cong(up * ((c - a) * (c - a)), b * ((d - v) * (d - v)) - (A + a + c) * ((c - a) * (c - a)))
    requires Cong(um * ((c - a) * (c - a)), b * ((d + v) * (d + v)) - (A + a + c) * ((c - a) * (c - a)))
    ensures !Cong((c - a) * (c - a), 0) && Cong(up * (um * ((c - a) * (c - a))), (1 - a * c) * (1 - a * c))
  {
    hide Cong, Cubic;
    var e, k := (c - a) * (c - a), (A + a + c) * ((c - a) * (c - a));
    var f, g, r := b * (v * v), b * (d * d), (1 - a * c) * (1 - a * c);
    Times(up * e, b * ((d - v) * (d - v)) - k, um * e, b * ((d + v) * (d + v)) - k);
    ChordPair(b, v, d, k, f, g);
    PairCong(f, g, Cubic(a), Cubic(c), k);
    ChordCubics(a, c);
    Chain(up * e * (um * e), (g - f) * (g - f) - 2 * (k * (f + g)) + k * k, e * r);
    assert up * e * (um * e) == e * (up * (um * e)) by { Regroup3(up, e, um * e); }
    NonzeroProduct(c - a, c - a);
    NonzeroIsUnit(e);
    Cancel(e, up * (um * e), r);
  }

  lemma DistinctReduced(a: int, c: int)
    requires 0 <= a < Q && 0 <= c < Q && a != c
    ensures !Cong(c - a, 0)
  {
    if Cong(c - a, 0) {
      Same(a, a);
      Plus(c - a, 0, a, a);
      ReducedEqual(c, a);
    }
  }

  /** Adding points with different u-coordinates. */
  lemma AddU(b: int, p: Point, r: Point)
    requires PrimeField() && p.Finite? && r.Finite? && 0 <= p.u < Q && 0 <= r.u < Q && p.u != r.u
    ensures Add(b, p, r).Finite? && !Cong(r.u - p.u, 0)
    ensures Cong(Add(b, p, r).u * ((r.u - p.u) * (r.u - p.u)),
                 b * ((r.v - p.v) * (r.v - p.v)) - (A + p.u + r.u) * ((r.u - p.u) * (r.u - p.u)))
  {
    DistinctReduced(p.u, r.u);
    NonzeroIsUnit(r.u - p.u);
    var n, m, w := r.v - p.v, r.u - p.u, A + p.u + r.u;
    var l := n * Inverse(m);
    Reduced(b * (l * l) - A - p.u - r.u);
    hide Cong;
    assert b * (l * l) - A - p.u - r.u == b * (l * l) - w;
    LineU(b, n, m, w, Add(b, p, r).u);
  }

  // The chord through (c, d) and (a, -v).
  lemma NegatedChord(b: int, v: int, d: int, k: int, w: int, x: int)
    requires Cong(x, b * ((-v % Q - d) * (-v % Q - d)) - w * k)
    ensures Cong(x, b * ((d + v) * (d + v)) - w * k)
  {
    var n := -v % Q - d;
    hide Cong;
    Reduced(-v); Same(d, d); Same(b, b); Same(w * k, w * k);
    Minus(-v % Q, -v, d, d);
    Times(n, -v - d, n, -v - d);
    MinusSquare(v, d);
    Times(b, b, n * n, (d + v) * (d + v));
    Minus(b * (n * n), b * ((d + v) * (d + v)), w * k, w * k);
    Chain(x, b * (n * n) - w * k, b * ((d + v) * (d + v)) - w * k);
  }

  lemma MinusSquare(v: int, d: int)
    ensures (-v - d) * (-v - d) == (d + v) * (d + v) && (v - d) * (v - d) == (d - v) * (d - v)
  {
  }

  /** The u-coordinates of s + t and t - s for two points that differ in u. */
  lemma SumAndDifference(b: int, s: Point, t: Point)
    requires PrimeField() && !Cong(b, 0) && OnCurve(b, s) && OnCurve(b, t)
    requires s.Finite? && t.Finite? && s.u != t.u
    ensures Add(b, s, t).Finite? && Add(b, t, Neg(s)).Finite? && !Cong((t.u - s.u) * (t.u - s.u), 0)
    ensures Cong(Add(b, s, t).u * (Add(b, t, Neg(s)).u * ((t.u - s.u) * (t.u - s.u))), (1 - s.u * t.u) * (1 - s.u * t.u))
  {
    AddU(b, s, t);
    AddU(b, t, Neg(s));
    ChordsOf(b, s.u, s.v, t.u, t.v, Add(b, s, t).u, Add(b, t, Neg(s)).u);
  }

  lemma ChordsOf(b: int, a: int, v: int, c: int, d: int, up: int, um: int)
    requires PrimeField() && !Cong(c - a, 0) && Cong(b * (v * v), Cubic(a)) && Cong(b * (d * d), Cubic(c))
    requires Cong(up * ((c - a) * (c - a)), b * ((d - v) * (d - v)) - (A + a + c) * ((c - a) * (c - a)))
    requires Cong(um * ((a - c) * (a - c)), b * ((-v % Q - d) * (-v % Q - d)) - (A + c + a) * ((a - c) * (a - c)))
    ensures !Cong((c - a) * (c - a), 0) && Cong(up * (um * ((c - a) * (c - a))), (1 - a * c) * (1 - a * c))
  {
    hide Cong, Cubic;
    MinusSquare(a, c);
    NegatedChord(b, v, d, (a - c) * (a - c), A + c + a, um * ((a - c) * (a - c)));
    ChordProduct(b, a, v, c, d, up, um);
  }

  lemma SquaresCancel(b: int, v: int, d: int, f: int)
    requires PrimeField() && !Cong(b, 0) && Cong(b * (v * v), f) && Cong(b * (d * d), f)
    ensures Cong(v - d, 0) || Cong(v + d, 0)
  {
    hide Cong;
    Flip(b * (d * d), f);
    Chain(b * (v * v), f, b * (d * d));
    NonzeroIsUnit(b);
    Cancel(b, v * v, d * d);
    Same(d * d, d * d);
    Minus(v * v, d * d, d * d, d * d);
    SquareDifference(v, d);
    NoZeroDivisors(v - d, v + d);
  }

  lemma SquareDifference(v: int, d: int)
    ensures (v - d) * (v + d) == v * v - d * d
  {
  }

  /** Two curve points with the same u-coordinate are equal or opposite. */
  lemma SameU(b: int, s: Point, t: Point)
    requires PrimeField() && !Cong(b, 0) && OnCurve(b, s) && OnCurve(b, t)
    requires s.Finite? && t.Finite? && s.u == t.u
    ensures s == t || (s.v + t.v) % Q == 0
  {
    var v, d := s.v, t.v;
    SquaresCancel(b, v, d, Cubic(s.u));
    if Cong(v - d, 0) {
      Same(d, d);
      Plus(v - d, 0, d, d);
      ReducedEqual(v, d);
    }
  }

  // ---- the law itself ----

  lemma ScaledSum(u: int, a: int, c: int, x2: int, z2: int, x3: int, z3: int)
    requires Cong(x2, a * z2) && Cong(x3, c * z3)
    ensures Cong(SumX(x2, z2, x3, z3), 4 * ((1 - a * c) * (1 - a * c)) * (z2 * z3 * (z2 * z3)))
    ensures Cong(SumZ(u, x2, z2, x3, z3), u * (4 * ((a - c) * (a - c))) * (z2 * z3 * (z2 * z3)))
  {
    hide Cong;
    var w := z2 * z3;
    Same(w, w); Same(z2, z2); Same(z3, z3); Same(4, 4); Same(u, u);
    Times(x2, a * z2, x3, c * z3);
    Regroup4(a, z2, c, z3);
    Minus(x2 * x3, a * c * w, w, w);
    Factor(a * c, w);
    SquareScaled(x2 * x3 - w, a * c - 1, w);
    Times(4, 4, (x2 * x3 - w) * (x2 * x3 - w), (a * c - 1) * (a * c - 1) * (w * w));
    assert (a * c - 1) * (a * c - 1) == (1 - a * c) * (1 - a * c);
    Regroup(4, (1 - a * c) * (1 - a * c), w * w);
    Times(x2, a * z2, z3, z3);
    Times(z2, z2, x3, c * z3);
    Regroup(a, z2, z3); Regroup3(c, z2, z3); Swapped(z2, c); Regroup(z2, c, z3);
    Minus(x2 * z3, a * w, z2 * x3, c * w);
    SpreadLeft(a, c, w);
    SquareScaled(x2 * z3 - z2 * x3, a - c, w);
    var h, y := (a - c) * (a - c), (x2 * z3 - z2 * x3) * (x2 * z3 - z2 * x3);
    Times(4, 4, y, h * (w * w));
    Times(u, u, 4 * y, 4 * (h * (w * w)));
    Regroup(4, h, w * w); Regroup(u, 4 * h, w * w);
  }

  lemma SquareScaled(x: int, m: int, w: int)
    requires Cong(x, m * w)
    ensures Cong(x * x, m * m * (w * w))
  {
    hide Cong;
    Times(x, m * w, x, m * w);
    Regroup4(m, w, m, w);
  }

  /** With one of the points at infinity, the sum is the other up to sign: (x : z) = (u : 1). */
  lemma SumWithInfinity(u: int, x2: int, z2: int, x3: int, z3: int)
    requires PrimeField() && !Cong(u, 0) && Cong(z2, 0) && !Cong(x2, 0) && !Cong(z3, 0) && Cong(x3, u * z3)
    ensures !Cong(SumZ(u, x2, z2, x3, z3), 0) && Cong(SumX(x2, z2, x3, z3), u * SumZ(u, x2, z2, x3, z3))
    ensures !Cong(SumZ(u, x3, z3, x2, z2), 0) && Cong(SumX(x3, z3, x2, z2), u * SumZ(u, x3, z3, x2, z2))
  {
    hide Cong;
    TimesZero(z3, z2); TimesZero(x3, z2);
    Same(x2, x2); Same(u, u); Same(4, 4);
    // x2 x3 - z2 z3 = u (x2 z3)
    Times(x2, x2, x3, u * z3);
    Minus(x2 * x3, x2 * (u * z3), z2 * z3, 0);
    var y := x2 * z3;
    assert x2 * (u * z3) == u * y by { Regroup3(u, x2, z3); Regroup3(x2, u, z3); Swapped(x2, u); }
    SquareScaled(x2 * x3 - z2 * z3, u, y);
    // x2 z3 - z2 x3 = x2 z3
    Same(y, y);
    Minus(y, y, z2 * x3, 0);
    var n := y - z2 * x3;
    SquareCong(n, y);
    NonzeroProduct(x2, z3); NonzeroProduct(y, y);
    Flip(n * n, y * y);
    NonzeroCong(y * y, n * n);
    AKnown();
    NonzeroProduct(4, n * n); NonzeroProduct(u, 4 * (n * n));
    // 4 u^2 y^2 = u (u (4 y^2))
    Times(4, 4, n * n, y * y);
    Times(u, u, 4 * (n * n), 4 * (y * y));
    Times(u, u, u * (4 * (n * n)), u * (4 * (y * y)));
    var m := x2 * x3 - z2 * z3;
    Times(4, 4, m * m, u * u * (y * y));
    assert 4 * (u * u * (y * y)) == u * (u * (4 * (y * y))) by { FourSquares(u, y * y); }
    Flip(u * (u * (4 * (n * n))), u * (u * (4 * (y * y))));
    Chain(4 * (m * m), u * (u * (4 * (y * y))), u * (u * (4 * (n * n))));
    // the other order gives the same numbers
    OtherOrder(x2, z2, x3, z3);
  }

  lemma FourSquares(u: int, y: int)
    ensures 4 * (u * u * y) == u * (u * (4 * y))
  {
    Regroup3(u, u, 4 * y);
    assert 4 * (u * u * y) == u * u * (4 * y);
  }

  lemma SquareCong(n: int, y: int)
    requires Cong(n, y - 0)
    ensures Cong(n * n, y * y)
  {
    Times(n, y, n, y);
  }

  lemma OtherOrder(x2: int, z2: int, x3: int, z3: int)
    ensures x3 * x2 - z3 * z2 == x2 * x3 - z2 * z3
    ensures (x3 * z2 - z3 * x2) * (x3 * z2 - z3 * x2) == (x2 * z3 - z2 * x3) * (x2 * z3 - z2 * x3)
  {
    assert x3 * z2 - z3 * x2 == -(x2 * z3 - z2 * x3);
  }

  lemma SumsInEitherOrder(u: int, x2: int, z2: int, x3: int, z3: int)
    ensures SumX(x3, z3, x2, z2) == SumX(x2, z2, x3, z3) && SumZ(u, x3, z3, x2, z2) == SumZ(u, x2, z2, x3, z3)
  {
    OtherOrder(x2, z2, x3, z3);
  }

  /** s, and s + p with its own difference p taken away again. */
  lemma Difference(b: int, s: Point, p: Point)
    requires GroupFacts(b) && OnCurve(b, s) && OnCurve(b, p)
    ensures Add(b, Add(b, s, p), Neg(s)) == p && OnCurve(b, Neg(s)) && OnCurve(b, Add(b, s, p))
  {
    hide GroupFacts, OnCurve, Slope;
    NegOnCurve(b, s);
    Laws(b, p, s, Neg(s));
    Laws(b, s, p, p);
    assert Add(b, p, Infinity) == p;
  }

  /** Differential addition: from s and s + p, and the u-coordinate of p, to s + (s + p). */
  lemma DifferentialLaw(b: int, s: Point, p: Point, x2: int, z2: int, x3: int, z3: int)
    requires GroupFacts(b) && OnCurve(b, s) && OnCurve(b, p) && p.Finite? && p.u != 0
    requires OnLine(s, x2, z2) && OnLine(Add(b, s, p), x3, z3)
    ensures OnLine(Add(b, s, Add(b, s, p)), SumX(x2, z2, x3, z3), SumZ(p.u, x2, z2, x3, z3))
  {
    var t := Add(b, s, p);
    var u := p.u;
    assert PrimeField() && !Cong(b, 0) && !Cong(u, 0) by { ModOf(u, 0, u); }
    Difference(b, s, p);
    hide GroupFacts, Cong, Slope, OnCurve, SumX, SumZ, PrimeField;
    if s.Infinity? {
      SumWithInfinity(u, x2, z2, x3, z3);
    } else if t.Infinity? {
      assert s.u == u;
      SumWithInfinity(u, x3, z3, x2, z2);
    } else if s.u != t.u {
      DifferentialGeneric(b, s, t, u, x2, z2, x3, z3);
    } else {
      DifferentialSameU(b, s, p, x2, z2, x3, z3);
    }
  }

  lemma DifferentialGeneric(b: int, s: Point, t: Point, u: int, x2: int, z2: int, x3: int, z3: int)
    requires PrimeField() && !Cong(b, 0) && OnCurve(b, s) && OnCurve(b, t) && s.Finite? && t.Finite? && s.u != t.u
    requires !Cong(u, 0) && Add(b, t, Neg(s)).Finite? && Add(b, t, Neg(s)).u == u
    requires OnLine(s, x2, z2) && OnLine(t, x3, z3)
    ensures OnLine(Add(b, s, t), SumX(x2, z2, x3, z3), SumZ(u, x2, z2, x3, z3))
  {
    hide Cong, Add, OnCurve, SumX, SumZ, PrimeField, Neg;
    SumAndDifference(b, s, t);
    MinusSquare(s.u, t.u);
    var e, r, w := (s.u - t.u) * (s.u - t.u), (1 - s.u * t.u) * (1 - s.u * t.u), z2 * z3 * (z2 * z3);
    var up := Add(b, s, t).u;
    ScaledSum(u, s.u, t.u, x2, z2, x3, z3);
    NonzeroProduct(z2, z3); NonzeroProduct(z2 * z3, z2 * z3);
    AKnown();
    NonzeroProduct(4, e); NonzeroProduct(u, 4 * e);
    Same(4, 4);
    Times(4, 4, up * (u * e), r);
    assert 4 * (up * (u * e)) == up * (u * (4 * e)) by { FourInside(up, u, e); }
    FiniteOnLine(up, 4 * r, u * (4 * e), w, SumX(x2, z2, x3, z3), SumZ(u, x2, z2, x3, z3));
  }

  lemma FourInside(p: int, u: int, e: int)
    ensures 4 * (p * (u * e)) == p * (u * (4 * e))
  {
    var k := u * e;
    assert u * (4 * e) == 4 * k;
    assert p * (4 * k) == 4 * (p * k);
  }

  /** s and s + p have the same u only when they are opposite; then p is -2 s and s + t is infinity. */
  lemma DifferentialSameU(b: int, s: Point, p: Point, x2: int, z2: int, x3: int, z3: int)
    requires GroupFacts(b) && OnCurve(b, s) && OnCurve(b, p) && p.Finite? && !Cong(p.u, 0)
    requires s.Finite? && Add(b, s, p).Finite? && s.u == Add(b, s, p).u
    requires OnLine(s, x2, z2) && OnLine(Add(b, s, p), x3, z3)
    ensures OnLine(Add(b, s, Add(b, s, p)), SumX(x2, z2, x3, z3), SumZ(p.u, x2, z2, x3, z3))
  {
    var t, n := Add(b, s, p), Neg(s);
    assert PrimeField() && !Cong(b, 0);
    Difference(b, s, p);
    NegOnCurve(b, s);
    SameU(b, s, t);
    hide GroupFacts, Cong, Slope, Cubic, SumX, SumZ, PrimeField;
    if (s.v + t.v) % Q == 0 {
      assert Add(b, s, t) == Infinity;
      Opposite(s.v, t.v);
      assert t == n;
      DifferentialOpposite(b, n, p, s.u, x2, z2, x3, z3);
    } else {
      assert false;
    }
  }

  lemma Opposite(v: int, d: int)
    requires 0 <= v < Q && 0 <= d < Q && (v + d) % Q == 0
    ensures d == -v % Q
  {
    Same(v, v);
    assert Cong(v + d, 0);
    Minus(v + d, 0, v, v);
    Reduced(-v);
    Flip(-v % Q, -v);
    Chain(d, -v, -v % Q);
    ReducedEqual(d, -v % Q);
  }

  lemma DifferentialOpposite(b: int, n: Point, p: Point, a: int, x2: int, z2: int, x3: int, z3: int)
    requires PrimeField() && !Cong(b, 0) && OnCurve(b, n) && n.Finite? && n.u == a
    requires Add(b, n, n) == p && p.Finite? && !Cong(p.u, 0)
    requires !Cong(z2, 0) && Cong(x2, a * z2) && !Cong(z3, 0) && Cong(x3, a * z3)
    ensures OnLine(Infinity, SumX(x2, z2, x3, z3), SumZ(p.u, x2, z2, x3, z3))
  {
    hide Cong, Add, OnCurve, SumX, SumZ, PrimeField;
    var u := p.u;
    assert OnLine(n, a, 1) by { One(); Same(a, a); }
    DoubleLaw(b, n, a, 1);
    NonzeroProduct(u, DoubleZ(a, 1));
    Flip(DoubleX(a, 1), u * DoubleZ(a, 1));
    NonzeroCong(u * DoubleZ(a, 1), DoubleX(a, 1));
    assert DoubleX(a, 1) == (1 - a * a) * (1 - a * a);
    ScaledSum(u, a, a, x2, z2, x3, z3);
    var w, r := z2 * z3 * (z2 * z3), (1 - a * a) * (1 - a * a);
    NonzeroProduct(z2, z3); NonzeroProduct(z2 * z3, z2 * z3);
    AKnown();
    NonzeroProduct(4, r); NonzeroProduct(4 * r, w);
    Flip(SumX(x2, z2, x3, z3), 4 * r * w);
    NonzeroCong(4 * r * w, SumX(x2, z2, x3, z3));
    NothingLeft(u, a, w);
  }

  lemma NothingLeft(u: int, a: int, w: int)
    ensures u * (4 * ((a - a) * (a - a))) * w == 0
  {
  }

  lemma One()
    ensures !Cong(1, 0)
  {
    if Cong(1, 0) { ReducedEqual(1, 0); }
  }

  // ---------------------------------------------------------------------------------------
  // One step of the ladder
  // ---------------------------------------------------------------------------------------

  method LadderStep(x1: int, a2: int, b2: int, a3: int, b3: int) returns (x2: int, z2: int, x3: int, z3: int)
    ensures 0 <= z2 < Q && 0 <= z3 < Q
    ensures Cong(x2, DoubleX(a2, b2)) && Cong(z2, DoubleZ(a2, b2))
    ensures Cong(x3, SumX(a2, b2, a3, b3)) && Cong(z3, SumZ(x1, a2, b2, a3, b3))
  {
    hide Cong, DoubleX, DoubleZ, SumX, SumZ;
    x2, z2, x3, z3 := a2, b2, a3, b3;
    var tmp0 := (x3 - z3) % Q;
    var tmp1 := (x2 - z2) % Q;
    x2 := (x2 + z2) % Q;
    z2 := (x3 + z3) % Q;
    Reduced(a3 - b3); Reduced(a2 - b2); Reduced(a2 + b2); Reduced(a3 + b3);
    z3 := tmp0 * x2 % Q;
    z2 := z2 * tmp1 % Q;
    ghost var da, cb := (a3 - b3) * (a2 + b2), (a3 + b3) * (a2 - b2);
    MulMod(tmp0, a3 - b3, x2, a2 + b2);
    MulMod((a3 + b3) % Q, a3 + b3, tmp1, a2 - b2);
    ghost var aa, bb := (a2 + b2) * (a2 + b2), (a2 - b2) * (a2 - b2);
    MulMod(tmp1, a2 - b2, tmp1, a2 - b2);
    MulMod(x2, a2 + b2, x2, a2 + b2);
    tmp0 := tmp1 * tmp1 % Q;
    tmp1 := x2 * x2 % Q;
    AddMod(z3, da, z2, cb);
    x3 := (z3 + z2) % Q;
    z2 := (z3 - z2) % Q;
    MulMod(tmp1, aa, tmp0, bb);
    x2 := tmp1 * tmp0 % Q;
    AddMod(tmp1, aa, tmp0, bb);
    tmp1 := (tmp1 - tmp0) % Q;
    MulMod(z2, da - cb, z2, da - cb);
    z2 := z2 * z2 % Q;
    Same(121666, 121666);
    MulMod(tmp1, aa - bb, 121666, 121666);
    z3 := tmp1 * 121666 % Q;
    MulMod(x3, da + cb, x3, da + cb);
    x3 := x3 * x3 % Q;
    AddMod(tmp0, bb, z3, (aa - bb) * 121666);
    tmp0 := (tmp0 + z3) % Q;
    Same(x1, x1);
    MulMod(x1, x1, z2, (da - cb) * (da - cb));
    z3 := x1 * z2 % Q;
    MulMod(tmp1, aa - bb, tmp0, bb + (aa - bb) * 121666);
    z2 := tmp1 * tmp0 % Q;
    StepFormulas(x1, a2, b2, a3, b3);
  }

  lemma MulMod(a: int, x: int, b: int, y: int)
    requires Cong(a, x) && Cong(b, y)
    ensures Cong(a * b % Q, x * y) && 0 <= a * b % Q < Q
  {
    hide Cong;
    Times(a, x, b, y);
    Reduced(a * b);
    Chain(a * b % Q, a * b, x * y);
  }

  lemma AddMod(a: int, x: int, b: int, y: int)
    requires Cong(a, x) && Cong(b, y)
    ensures Cong((a + b) % Q, x + y) && Cong((a - b) % Q, x - y)
  {
    hide Cong;
    Plus(a, x, b, y);
    Minus(a, x, b, y);
    Reduced(a + b); Reduced(a - b);
    Chain((a + b) % Q, a + b, x + y);
    Chain((a - b) % Q, a - b, x - y);
  }

  /** What the eighteen operations of a step amount to. */
  lemma StepFormulas(u: int, x2: int, z2: int, x3: int, z3: int)
    ensures var aa, bb := (x2 + z2) * (x2 + z2), (x2 - z2) * (x2 - z2);
            var da, cb := (x3 - z3) * (x2 + z2), (x3 + z3) * (x2 - z2);
      && aa * bb == DoubleX(x2, z2) && (aa - bb) * (bb + (aa - bb) * 121666) == DoubleZ(x2, z2)
      && (da + cb) * (da + cb) == SumX(x2, z2, x3, z3) && u * ((da - cb) * (da - cb)) == SumZ(u, x2, z2, x3, z3)
  {
    var aa, bb := (x2 + z2) * (x2 + z2), (x2 - z2) * (x2 - z2);
    SquareDifference(x2, z2);
    Regroup4(x2 + z2, x2 - z2, x2 + z2, x2 - z2);
    Swapped(x2 - z2, x2 + z2);
    var e := x2 * z2;
    assert aa == x2 * x2 + 2 * e + z2 * z2 && bb == x2 * x2 - 2 * e + z2 * z2;
    assert aa - bb == 4 * e && bb + (aa - bb) * 121666 == x2 * x2 + A * e + z2 * z2;
    CrossProducts(x2, z2, x3, z3);
  }

  lemma CrossProducts(x2: int, z2: int, x3: int, z3: int)
    ensures var da, cb := (x3 - z3) * (x2 + z2), (x3 + z3) * (x2 - z2);
      && (da + cb) * (da + cb) == SumX(x2, z2, x3, z3)
      && (da - cb) * (da - cb) == 4 * ((x2 * z3 - z2 * x3) * (x2 * z3 - z2 * x3))
  {
    var da, cb := (x3 - z3) * (x2 + z2), (x3 + z3) * (x2 - z2);
    assert da == x2 * x3 + z2 * x3 - x2 * z3 - z2 * z3;
    assert cb == x2 * x3 - z2 * x3 + x2 * z3 - z2 * z3;
    TwiceSquared(da + cb, x2 * x3 - z2 * z3);
    TwiceSquared(da - cb, z2 * x3 - x2 * z3);
    MinusSquare(x2 * z3, z2 * x3);
  }

  lemma TwiceSquared(n: int, m: int)
    requires n == 2 * m
    ensures n * n == 4 * (m * m)
  {
  }

  // ---------------------------------------------------------------------------------------
  // The ladder
  // ---------------------------------------------------------------------------------------

  /** u is the u-coordinate, reduced or not, of the point p of the curve with coefficient b. */
  ghost predicate Fits(b: int, p: Point, u: int) {
    GroupFacts(b) && OnCurve(b, p) && p.Finite? && Cong(u, p.u)
  }

  /** (x2 : z2) is n p and (x3 : z3) is (n + 1) p. At the point of order two with u = 0, where the
      differential addition degenerates, one of x and z is zero in both pairs. */
  ghost predicate Tracks(b: int, p: Point, n: nat, x2: int, z2: int, x3: int, z3: int) {
    p.Finite? && (
      if p.u == 0 then Cong(x2 * z2, 0) && Cong(x3 * z3, 0)
      else OnLine(Smul(b, n, p), x2, z2) && OnLine(Smul(b, n + 1, p), x3, z3))
  }

  lemma StartTracks(b: int, p: Point, u: int)
    requires Fits(b, p, u)
    ensures Tracks(b, p, 0, 1, 0, u, 1)
  {
    assert Smul(b, 0, p) == Infinity && Smul(b, 1, p) == p;
  }

  lemma OnLineCong(p: Point, x: int, z: int, x': int, z': int)
    requires OnLine(p, x, z) && Cong(x', x) && Cong(z', z)
    ensures OnLine(p, x', z')
  {
    if p.Finite? {
      hide Cong;
      Same(p.u, p.u);
      Flip(z', z);
      Times(p.u, p.u, z, z');
      NonzeroCong(z, z');
      Chain(x', x, p.u * z);
      Chain(x', p.u * z, p.u * z');
    }
  }

  /** After a step the first pair is 2 n p and the second (2 n + 1) p. */
  lemma StepTracks(b: int, p: Point, u: int, n: nat, a2: int, b2: int, a3: int, b3: int, x2: int, z2: int, x3: int, z3: int)
    requires Fits(b, p, u) && Tracks(b, p, n, a2, b2, a3, b3)
    requires Cong(x2, DoubleX(a2, b2)) && Cong(z2, DoubleZ(a2, b2))
    requires Cong(x3, SumX(a2, b2, a3, b3)) && Cong(z3, SumZ(u, a2, b2, a3, b3))
    ensures Tracks(b, p, 2 * n, x2, z2, x3, z3)
  {
    if p.u == 0 {
      StepAtZero(u, a2, b2, a3, b3, x2, z2, x3, z3);
    } else {
      StepCurve(b, p, n, a2, b2, a3, b3);
      assert PrimeField() && Cong(u, p.u);
      hide OnLine, GroupFacts, OnCurve, DoubleX, DoubleZ, SumX, PrimeField, Smul;
      OnLineCong(Smul(b, 2 * n, p), DoubleX(a2, b2), DoubleZ(a2, b2), x2, z2);
      SumZCong(u, p.u, a2, b2, a3, b3);
      Chain(z3, SumZ(u, a2, b2, a3, b3), SumZ(p.u, a2, b2, a3, b3));
      OnLineCong(Smul(b, 2 * n + 1, p), SumX(a2, b2, a3, b3), SumZ(p.u, a2, b2, a3, b3), x3, z3);
    }
  }

  lemma SumZCong(u: int, u': int, x2: int, z2: int, x3: int, z3: int)
    requires Cong(u, u')
    ensures Cong(SumZ(u, x2, z2, x3, z3), SumZ(u', x2, z2, x3, z3))
  {
    hide Cong;
    var y := 4 * ((x2 * z3 - z2 * x3) * (x2 * z3 - z2 * x3));
    Same(y, y);
    Times(u, u', y, y);
  }

  lemma {:induction false} StepCurve(b: int, p: Point, n: nat, a2: int, b2: int, a3: int, b3: int)
    requires GroupFacts(b) && OnCurve(b, p) && p.Finite? && p.u != 0 && Tracks(b, p, n, a2, b2, a3, b3)
    ensures OnLine(Smul(b, 2 * n, p), DoubleX(a2, b2), DoubleZ(a2, b2))
    ensures OnLine(Smul(b, 2 * n + 1, p), SumX(a2, b2, a3, b3), SumZ(p.u, a2, b2, a3, b3))
  {
    var s := Smul(b, n, p);
    assert PrimeField() && !Cong(b, 0) && Smul(b, n + 1, p) == Add(b, s, p);
    hide GroupFacts, OnCurve, OnLine, DoubleX, DoubleZ, SumX, SumZ, Cong, PrimeField, Smul, Add;
    SmulOnCurve(b, n, p);
    SmulAdd(b, n, n, p);
    SmulAdd(b, n, n + 1, p);
    assert n + n == 2 * n && n + (n + 1) == 2 * n + 1;
    DoubleLaw(b, s, a2, b2);
    DifferentialLaw(b, s, p, a2, b2, a3, b3);
  }

  lemma StepAtZero(u: int, a2: int, b2: int, a3: int, b3: int, x2: int, z2: int, x3: int, z3: int)
    requires Cong(u, 0) && Cong(a2 * b2, 0)
    requires Cong(z2, DoubleZ(a2, b2)) && Cong(z3, SumZ(u, a2, b2, a3, b3))
    ensures Cong(x2 * z2, 0) && Cong(x3 * z3, 0)
  {
    hide Cong;
    TimesZero(4, a2 * b2);
    TimesZero(a2 * a2 + A * (a2 * b2) + b2 * b2, 4 * (a2 * b2));
    Chain(z2, DoubleZ(a2, b2), 0);
    TimesZero(x2, z2);
    TimesZero(4 * ((a2 * b3 - b2 * a3) * (a2 * b3 - b2 * a3)), u);
    Chain(z3, SumZ(u, a2, b2, a3, b3), 0);
    TimesZero(x3, z3);
  }

  /** Exchanging the pairs before the step and after it moves the second one to (2 n + 2) p. */
  lemma SwappedStepTracks(b: int, p: Point, u: int, n: nat, a2: int, b2: int, a3: int, b3: int, x2: int, z2: int, x3: int, z3: int)
    requires Fits(b, p, u) && Tracks(b, p, n, a2, b2, a3, b3)
    requires Cong(x2, DoubleX(a3, b3)) && Cong(z2, DoubleZ(a3, b3))
    requires Cong(x3, SumX(a3, b3, a2, b2)) && Cong(z3, SumZ(u, a3, b3, a2, b2))
    ensures Tracks(b, p, 2 * n + 1, x3, z3, x2, z2)
  {
    if p.u == 0 {
      StepAtZero(u, a3, b3, a2, b2, x2, z2, x3, z3);
    } else {
      SumsInEitherOrder(u, a2, b2, a3, b3);
      SumsInEitherOrder(p.u, a2, b2, a3, b3);
      StepCurve(b, p, n, a2, b2, a3, b3);
      StepCurveUpper(b, p, n, a2, b2, a3, b3);
      assert Cong(u, p.u);
      hide OnLine, GroupFacts, OnCurve, DoubleX, DoubleZ, SumX, PrimeField, Smul;
      OnLineCong(Smul(b, 2 * n + 2, p), DoubleX(a3, b3), DoubleZ(a3, b3), x2, z2);
      SumZCong(u, p.u, a3, b3, a2, b2);
      Chain(z3, SumZ(u, a3, b3, a2, b2), SumZ(p.u, a3, b3, a2, b2));
      OnLineCong(Smul(b, 2 * n + 1, p), SumX(a3, b3, a2, b2), SumZ(p.u, a3, b3, a2, b2), x3, z3);
    }
  }

  lemma {:induction false} StepCurveUpper(b: int, p: Point, n: nat, a2: int, b2: int, a3: int, b3: int)
    requires GroupFacts(b) && OnCurve(b, p) && p.Finite? && p.u != 0 && Tracks(b, p, n, a2, b2, a3, b3)
    ensures OnLine(Smul(b, 2 * n + 2, p), DoubleX(a3, b3), DoubleZ(a3, b3))
  {
    assert PrimeField() && !Cong(b, 0);
    hide GroupFacts, OnCurve, OnLine, DoubleX, DoubleZ, Cong, PrimeField, Smul, Add;
    SmulOnCurve(b, n + 1, p);
    SmulAdd(b, n + 1, n + 1, p);
    assert (n + 1) + (n + 1) == 2 * n + 2;
    DoubleLaw(b, Smul(b, n + 1, p), a3, b3);
  }

  function UCoord(p: Point): int {
    if p.Infinity? then 0 else p.u
  }

  /** r is the u-coordinate of k times any point with u-coordinate u; zero stands for infinity. */
  ghost predicate IsProduct(u: int, k: nat, r: int) {
    forall b, p :: Fits(b, p, u) ==> r == UCoord(Smul(b, k, p))
  }

  /** Once a point is the point itself: the number is the coordinate modulo q. */
  lemma {:induction false} ProductByOne(u: int, r: int)
    requires CurveGroups()
    ensures IsProduct(u, 1, r) <==> r == u % Q
  {
    hide CurveGroups, Add;
    forall b, p | Fits(b, p, u) ensures UCoord(Smul(b, 1, p)) == u % Q {
      OneTime(b, p);
      FitsMeans(b, p, u);
    }
    var b, p := EveryU(u);
    assert Fits(b, p, u);
  }

  lemma {:induction false} OneTime(b: int, p: Point)
    ensures Smul(b, 1, p) == p
  {
    assert Smul(b, 0, p) == Infinity;
  }

  lemma FitsMeans(b: int, p: Point, u: int)
    requires Fits(b, p, u)
    ensures p.Finite? && UCoord(p) == u % Q
  {
    ModOf(p.u, 0, p.u);
  }

  lemma {:induction false} OrderTwo(b: int, n: nat, p: Point)
    requires PrimeField() && !Cong(b, 0) && OnCurve(b, p) && p.Finite? && p.u == 0
    ensures Smul(b, n, p) == if n % 2 == 0 then Infinity else p
  {
    hide PrimeField, OnCurve, Cong, Add;
    if n > 0 {
      OrderTwo(b, n - 1, p);
      DoubleOrderTwoPoint(b, p);
      AddToInfinity(b, p);
    }
  }

  lemma AddToInfinity(b: int, p: Point)
    ensures Add(b, Infinity, p) == p
  {
  }

  lemma DoubleOrderTwoPoint(b: int, p: Point)
    requires PrimeField() && !Cong(b, 0) && OnCurve(b, p) && p.Finite? && p.u == 0
    ensures Add(b, p, p) == Infinity
  {
    VanishingV(b, p.v);
    hide PrimeField, OnCurve, Cong, Slope;
  }

  lemma VanishingV(b: int, v: int)
    requires PrimeField() && !Cong(b, 0) && 0 <= v < Q && Cong(b * (v * v), Cubic(0))
    ensures v == 0
  {
    NoZeroDivisors(b, v * v);
    NoZeroDivisors(v, v);
    ReducedEqual(v, 0);
  }

  lemma {:induction false} FinalCoordinate(b: int, p: Point, u: int, k: nat, x2: int, z2: int, x3: int, z3: int, inverse: int -> int)
    requires Fits(b, p, u) && Tracks(b, p, k, x2, z2, x3, z3) && ModInverse(inverse) && 0 <= z2 < Q
    ensures x2 * (if z2 == 0 then 0 else inverse(z2)) % Q == UCoord(Smul(b, k, p))
  {
    assert Cong(z2, 0) ==> z2 == 0 by { if Cong(z2, 0) { ReducedEqual(z2, 0); } }
    assert PrimeField() && OnCurve(b, p) && !Cong(b, 0);
    SmulOnCurve(b, k, p);
    var r := Smul(b, k, p);
    assert r.Finite? ==> 0 <= r.u < Q;
    hide GroupFacts, OnCurve, Smul, PrimeField;
    if p.u == 0 {
      OrderTwo(b, k, p);
      if z2 != 0 {
        NoZeroDivisors(x2, z2);
        var i := inverse(z2);
        hide Cong;
        TimesZero(i, x2);
        ZeroMod(x2 * i);
      }
    } else if z2 != 0 {
      var i := inverse(z2);
      NonzeroIsUnit(z2);
      hide Cong;
      Same(i, i); Same(r.u, r.u);
      Times(x2, r.u * z2, i, i);
      Times(r.u, r.u, z2 * i, 1);
      Regroup(r.u, z2, i);
      Chain(x2 * i, r.u * z2 * i, r.u * 1);
      Reduced(x2 * i);
      Chain(x2 * i % Q, x2 * i, r.u);
      ReducedEqual(x2 * i % Q, r.u);
    }
  }

  lemma ZeroMod(a: int)
    requires Cong(a, 0)
    ensures a % Q == 0
  {
  }

  /** What the ladder has computed after reading the bit prefix n of the scalar. */
  ghost predicate Prefix(u: int, n: nat, x2: int, z2: int, x3: int, z3: int) {
    forall b, p :: Fits(b, p, u) ==> Tracks(b, p, n, x2, z2, x3, z3)
  }

  lemma StartPrefix(u: int)
    ensures Prefix(u, 0, 1, 0, u, 1)
  {
    hide Fits, Tracks;
    forall b, p | Fits(b, p, u) ensures Tracks(b, p, 0, 1, 0, u, 1) { StartTracks(b, p, u); }
  }

  lemma StepPrefix(u: int, n: nat, a2: int, b2: int, a3: int, b3: int, x2: int, z2: int, x3: int, z3: int)
    requires Prefix(u, n, a2, b2, a3, b3)
    requires Cong(x2, DoubleX(a2, b2)) && Cong(z2, DoubleZ(a2, b2))
    requires Cong(x3, SumX(a2, b2, a3, b3)) && Cong(z3, SumZ(u, a2, b2, a3, b3))
    ensures Prefix(u, 2 * n, x2, z2, x3, z3)
  {
    hide Tracks, Fits, Cong, DoubleX, DoubleZ, SumX, SumZ;
    forall b, p | Fits(b, p, u) ensures Tracks(b, p, 2 * n, x2, z2, x3, z3) {
      StepTracks(b, p, u, n, a2, b2, a3, b3, x2, z2, x3, z3);
    }
  }

  lemma SwappedStepPrefix(u: int, n: nat, a2: int, b2: int, a3: int, b3: int, x2: int, z2: int, x3: int, z3: int)
    requires Prefix(u, n, a2, b2, a3, b3)
    requires Cong(x2, DoubleX(a3, b3)) && Cong(z2, DoubleZ(a3, b3))
    requires Cong(x3, SumX(a3, b3, a2, b2)) && Cong(z3, SumZ(u, a3, b3, a2, b2))
    ensures Prefix(u, 2 * n + 1, x3, z3, x2, z2)
  {
    hide Tracks, Fits, Cong, DoubleX, DoubleZ, SumX, SumZ;
    forall b, p | Fits(b, p, u) ensures Tracks(b, p, 2 * n + 1, x3, z3, x2, z2) {
      SwappedStepTracks(b, p, u, n, a2, b2, a3, b3, x2, z2, x3, z3);
    }
  }

  lemma FinalProduct(u: int, k: nat, x2: int, z2: int, x3: int, z3: int, inverse: int -> int)
    requires Prefix(u, k, x2, z2, x3, z3) && ModInverse(inverse) && 0 <= z2 < Q
    ensures IsProduct(u, k, x2 * (if z2 == 0 then 0 else inverse(z2)) % Q)
  {
    hide Tracks, Fits, ModInverse;
    forall b, p | Fits(b, p, u) ensures x2 * (if z2 == 0 then 0 else inverse(z2)) % Q == UCoord(Smul(b, k, p)) {
      FinalCoordinate(b, p, u, k, x2, z2, x3, z3, inverse);
    }
  }

  /** ScalarMul: swap keeps the last bit read, so a run of equal bits exchanges nothing. */
  method ScalarMul(u: int, k: nat, inverse: int -> int) returns (res: int)
    requires ModInverse(inverse)
    ensures 0 <= res < Q && IsProduct(u, k, res)
  {
    hide Prefix, IsProduct, Cong, DoubleX, DoubleZ, SumX, SumZ, ModInverse, Pow2, E.NumBits;
    var x2, z2, x3, z3 := 1, 0, u, 1;
    var swap := false;
    var bits := E.NumBits(k);
    E.NumBitsBound(k);
    StartPrefix(u);
    while bits > 0
      invariant 0 <= z2 < Q && 0 <= z3 < Q
      invariant if swap then Prefix(u, k / Pow2(bits), x3, z3, x2, z2) else Prefix(u, k / Pow2(bits), x2, z2, x3, z3)
    {
      bits := bits - 1;
      var bit := k / Pow2(bits) % 2 == 1;
      E.NextBit(k, bits);
      swap := swap != bit;
      if swap {
        x2, x3 := x3, x2;
        z2, z3 := z3, z2;
      }
      swap := bit;
      ghost var a2, b2, a3, b3 := x2, z2, x3, z3;
      x2, z2, x3, z3 := LadderStep(u, x2, z2, x3, z3);
      if bit {
        SwappedStepPrefix(u, k / Pow2(bits + 1), a3, b3, a2, b2, x2, z2, x3, z3);
      } else {
        StepPrefix(u, k / Pow2(bits + 1), a2, b2, a3, b3, x2, z2, x3, z3);
      }
    }
    E.AllBits(k);
    if swap {
      x2, x3 := x3, x2;
      z2, z3 := z3, z2;
    }
    FinalProduct(u, k, x2, z2, x3, z3, inverse);
    // BN_mod_inverse fails on zero and then leaves its argument alone
    z2 := if z2 == 0 then 0 else inverse(z2);
    res := x2 * z2 % Q;
    Reduced(x2 * z2);
  }

  // ---------------------------------------------------------------------------------------
  // Key agreement
  // ---------------------------------------------------------------------------------------

  /** Every curve b v^2 = u^3 + A u^2 + u with b nonzero is a commutative group. */
  ghost predicate CurveGroups() {
    forall b :: !Cong(b, 0) ==> GroupFacts(b)
  }

  /** Every number is the u-coordinate of a point, of the curve or of a twist. */
  lemma EveryU(u: int) returns (b: int, p: Point)
    requires CurveGroups()
    ensures Fits(b, p, u)
  {
    var r := u % Q;
    Reduced(u);
    Flip(r, u);
    if Cong(Cubic(r), 0) {
      b, p := 1, Finite(r, 0);
      One();
      Flip(Cubic(r), 0);
    } else {
      b, p := Cubic(r), Finite(r, 1);
      Same(b * (1 * 1), Cubic(r));
    }
    hide Cong, Cubic;
    assert GroupFacts(b);
  }

  lemma {:induction false} SmulInfinity(b: int, n: nat)
    ensures Smul(b, n, Infinity) == Infinity
  {
    if n > 0 { SmulInfinity(b, n - 1); }
  }

  lemma {:induction false} SmulSmul(b: int, m: nat, n: nat, p: Point)
    requires GroupFacts(b) && OnCurve(b, p)
    ensures m * n >= 0 && Smul(b, m * n, p) == Smul(b, m, Smul(b, n, p))
    decreases m
  {
    hide GroupFacts, OnCurve, Add;
    if m > 0 {
      SmulSmul(b, m - 1, n, p);
      assert m * n == (m - 1) * n + n;
      SmulAdd(b, (m - 1) * n, n, p);
    }
  }

  /** Two ladders in a row multiply by the product of the scalars, even through infinity: an even
      multiple of the point (0, 0), which the first result 0 denotes, is infinity again. */
  lemma {:induction false} ProductTwice(b: int, p: Point, u: int, k: nat, l: nat, r: int, s: int)
    requires Fits(b, p, u) && IsProduct(u, k, r) && IsProduct(r, l, s) && l % 2 == 0
    ensures l * k >= 0 && s == UCoord(Smul(b, l * k, p))
  {
    var m := Smul(b, k, p);
    assert GroupFacts(b) && PrimeField() && !Cong(b, 0) && OnCurve(b, p);
    hide GroupFacts, OnCurve, Cong, Smul, PrimeField;
    SmulSmul(b, l, k, p);
    SmulOnCurve(b, k, p);
    if m.Finite? {
      Same(r, m.u);
      assert Fits(b, m, r);
    } else {
      var o := Finite(0, 0);
      ZeroOnCurve(b);
      Same(r, 0);
      assert Fits(b, o, r);
      OrderTwo(b, l, o);
      SmulInfinity(b, l);
    }
  }

  lemma ZeroOnCurve(b: int)
    ensures OnCurve(b, Finite(0, 0))
  {
    assert b * (0 * 0) == 0 && Cubic(0) == 0;
  }

  /** Both orders of two even scalars give the same shared value. */
  lemma DiffieHellman(u: int, k: nat, l: nat, uk: int, ul: int, s: int, t: int)
    requires CurveGroups() && k % 2 == 0 && l % 2 == 0
    requires IsProduct(u, k, uk) && IsProduct(u, l, ul) && IsProduct(uk, l, s) && IsProduct(ul, k, t)
    ensures s == t
  {
    var b, p := EveryU(u);
    hide IsProduct, Fits;
    ProductTwice(b, p, u, k, l, uk, s);
    ProductTwice(b, p, u, l, k, ul, t);
    Swapped(k, l);
  }

  /** k[0] &= 248; k[31] &= 127; k[31] |= 64 */
  function Clamp(e: seq<byte>): (k: seq<byte>)
    requires |e| == 32
    ensures |k| == 32
  {
    e[0 := e[0] - e[0] % 8][31 := e[31] % 64 + 64]
  }

  /** Clamping clears bits 0, 1, 2 and 255 of the number, sets bit 254 and keeps all others. */
  lemma ClampIs(e: seq<byte>)
    requires |e| == 32
    ensures LE(e) >= 0 && LE(Clamp(e)) == 64 * Pow256(31) + LE(e) % (64 * Pow256(31)) - LE(e) % 8 >= 0
  {
    hide LE, Pow256;
    LEBound(e); LEBound(Clamp(e)); LEBound(e[..31]);
    ClampBytes(e);
    LowByte(e[..31], e[0]);
    EightDivides(30);
    hide *;
    ClampedParts(LE(e[..31]), e[0], e[31], Pow256(31), LE(e), LE(Clamp(e)));
  }

  lemma {:induction false} ClampBytes(e: seq<byte>)
    requires |e| == 32
    ensures LE(e) == LE(e[..31]) + e[31] * Pow256(31)
    ensures LE(Clamp(e)) == LE(e[..31]) - e[0] % 8 + (e[31] % 64 + 64) * Pow256(31)
  {
    hide LE, Pow256, Shift;
    var c := Clamp(e);
    LowByte(e[..31], e[0] - e[0] % 8);
    assert c[..31] == e[..31][0 := e[0] - e[0] % 8] && c[31] == e[31] % 64 + 64;
    TopByte32(e); TopByte32(c);
  }

  lemma {:induction false} TopByte32(s: seq<byte>)
    requires |s| == 32
    ensures LE(s) == LE(s[..31]) + s[31] * Pow256(31)
  {
    hide LE, Pow256, Shift;
    assert s[..32] == s;
    LEStep(s, 31);
    ShiftIsProduct(s[31], 31);
  }

  lemma {:induction false} LowByte(s: seq<byte>, x: byte)
    requires |s| == 31
    ensures LE(s[0 := x]) == LE(s) - s[0] + x && LE(s) % 8 == s[0] % 8
  {
    var r := s[1..];
    assert s == [s[0]] + r && s[0 := x] == [x] + r;
    OneByte(s[0]); OneByte(x);
    assert Shift(LE(r), 1) == 256 * LE(r);
    hide LE, Shift;
    LEConcat([s[0]], r); LEConcat([x], r);
    MultipleOfEight(s[0], LE(r));
  }

  lemma {:induction false} OneByte(x: byte)
    ensures LE([x]) == x
  {
    assert [x][..0] == [];
  }

  lemma {:induction false} EightDivides(n: nat)
    ensures Pow256(n + 1) % 8 == 0
  {
    ModUnique(Pow256(n + 1), 8, 32 * Pow256(n), 0);
  }

  lemma MultipleOfEight(x: byte, r: int)
    ensures (x + 256 * r) % 8 == x % 8
  {
    ModUnique(x + 256 * r, 8, 32 * r + x / 8, x % 8);
  }

  lemma ClampedParts(low: nat, x: byte, y: byte, top: nat, n: nat, c: int)
    requires low < top && low % 8 == x % 8 && top % 8 == 0 && n == low + y * top
    requires c == low - x % 8 + (y % 64 + 64) * top
    ensures c == 64 * top + n % (64 * top) - n % 8
  {
    var a, b, t := y / 64, y % 64, top / 8;
    MulMono(0, b, top); MulMono(b, 63, top);
    ProductParts(low, y, a, b, top, t);
    ModUnique(n, 64 * top, a, low + b * top);
    ModUnique(n, 8, low / 8 + y * t, low % 8);
  }

  lemma ProductParts(low: int, y: int, a: int, b: int, top: int, t: int)
    requires y == 64 * a + b && top == 8 * t
    ensures low + y * top == (64 * top) * a + (low + b * top)
    ensures low + y * top == low + 8 * (y * t) && (b + 64) * top == b * top + 64 * top
  {
  }

  /** A clamped scalar is a multiple of the cofactor with its top bit in a fixed place. */
  lemma ClampedScalar(e: seq<byte>)
    requires |e| == 32
    ensures LE(Clamp(e)) >= 0 && LE(Clamp(e)) % 8 == 0
    ensures 64 * Pow256(31) <= LE(Clamp(e)) < 128 * Pow256(31)
  {
    ClampedLow(Clamp(e), e[0]);
    ClampedHigh(Clamp(e));
  }

  lemma {:induction false} ClampedLow(k: seq<byte>, x: byte)
    requires |k| == 32 && k[0] == x - x % 8
    ensures LE(k) % 8 == 0
  {
    assert k == [k[0]] + k[1..];
    LEConcat([k[0]], k[1..]);
    assert LE([k[0]]) == k[0] by { assert [k[0]][..0] == []; }
    hide LE;
    assert Shift(LE(k[1..]), 1) == 256 * LE(k[1..]);
    hide Shift;
    assert LE(k) == 8 * (x / 8 + 32 * LE(k[1..]));
  }

  lemma {:induction false} ClampedHigh(k: seq<byte>)
    requires |k| == 32 && 64 <= k[31] < 128
    ensures 64 * Pow256(31) <= LE(k) < 128 * Pow256(31)
  {
    assert k[..32] == k;
    hide LE, Pow256, Shift;
    LEStep(k, 31);
    LEBound(k[..31]);
    ShiftIsProduct(k[31], 31);
    MulMono(64, k[31], Pow256(31));
    MulMono(k[31], 127, Pow256(31));
  }

  lemma {:induction false} BelowModulus(r: int)
    requires 0 <= r < Q
    ensures LE(ToLE(r, 32)) == r
  {
    hide LE, ToLE;
    LEToLE(r, 32);
    Pow256Values();
    ModulusIs();
    ModUnique(r, Pow256(32), 0, r);
  }

  /** ScalarMul on 32-byte strings; DecodeBN keeps all 256 bits of the point. */
  method X25519(p: seq<byte>, e: seq<byte>, inverse: int -> int) returns (buf: seq<byte>)
    requires |p| == 32 && |e| == 32 && ModInverse(inverse)
    ensures |buf| == 32 && 0 <= LE(buf) < Q && LE(e) >= 0
    ensures IsProduct(LE(p), 64 * Pow256(31) + LE(e) % (64 * Pow256(31)) - LE(e) % 8, LE(buf))
  {
    hide LE, ToLE, IsProduct, Clamp, Pow256, ModInverse;
    ClampIs(e);
    LEBound(p);
    var r := ScalarMul(LE(p), LE(Clamp(e)), inverse);
    buf := ToLE(r, 32);
    BelowModulus(r);
  }

  /** ScalarMulB: the public key of a private key. */
  method X25519Base(e: seq<byte>, inverse: int -> int) returns (buf: seq<byte>)
    requires |e| == 32 && ModInverse(inverse)
    ensures |buf| == 32 && 0 <= LE(buf) < Q && LE(e) >= 0
    ensures IsProduct(9, 64 * Pow256(31) + LE(e) % (64 * Pow256(31)) - LE(e) % 8, LE(buf))
  {
    hide LE, ToLE, IsProduct, Clamp, Pow256, ModInverse;
    ClampIs(e);
    var r := ScalarMul(9, LE(Clamp(e)), inverse);
    buf := ToLE(r, 32);
    BelowModulus(r);
  }

  /** Whoever multiplies first, both parties get the same 32 bytes. */
  method Agree(e: seq<byte>, f: seq<byte>, inverse: int -> int) returns (alice: seq<byte>, bob: seq<byte>)
    requires |e| == 32 && |f| == 32 && ModInverse(inverse) && CurveGroups()
    ensures alice == bob && |alice| == 32
  {
    hide LE, IsProduct, CurveGroups, Clamp, Pow256, ModInverse;
    var pubE := X25519Base(e, inverse);
    var pubF := X25519Base(f, inverse);
    alice := X25519(pubF, e, inverse);
    bob := X25519(pubE, f, inverse);
    ClampedScalar(e); ClampedScalar(f);
    ClampIs(e); ClampIs(f);
    EvenFromEight(LE(Clamp(e))); EvenFromEight(LE(Clamp(f)));
    DiffieHellman(9, LE(Clamp(e)), LE(Clamp(f)), LE(pubE), LE(pubF), LE(bob), LE(alice));
    LEInjective(alice, bob);
  }

  lemma EvenFromEight(n: int)
    requires n % 8 == 0
    ensures n % 2 == 0
  {
    var k := n / 8;
    assert n == 2 * (4 * k);
  }

  /** RFC 7748 (section 5) has the receiver clear bit 255 of the point before using it; DecodeBN
      does not, so the two agree on the field element exactly when that bit is clear. */
  lemma TopBitKept(p: seq<byte>)
    requires |p| == 32
    ensures Cong(LE(p), LE(p[31 := p[31] % 128])) <==> p[31] < 128
  {
    var m := p[31 := p[31] % 128];
    assert m[..31] == p[..31] && p[..32] == p && m[..32] == m;
    LEStep(p, 31);
    LEStep(m, 31);
    if p[31] < 128 {
      assert m == p;
      Same(LE(p), LE(m));
    } else {
      ShiftAdd(m[31], 128, 31);
      Bit255();
      assert LE(p) == LE(m) + Q + 19;
      hide LE;
      if Cong(LE(p), LE(m)) {
        Same(LE(m), LE(m));
        Minus(LE(p), LE(m), LE(m), LE(m));
        Nineteen();
      }
    }
  }

  lemma Nineteen()
    ensures !Cong(Q + 19, 0)
  {
    ModulusIs();
    ModOf(Q + 19, 1, 19);
    ModOf(0, 0, 0);
  }

  lemma Bit255()
    ensures Shift(128, 31) == Q + 19
  {
    ModulusIs();
    ShiftAdd(128, 128, 31);
    ShiftOnce(1, 31);
    ShiftZeroOne(32);
    Pow256Values();
  }
}
