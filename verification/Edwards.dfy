/** The twisted Edwards curve -x^2 + y^2 = 1 + d x^2 y^2 of libdotnet/Ed25519.cpp: the point
    formulas on extended coordinates, and the affine group they compute in. */
module Edwards {
  import opened Wrappers
  import opened Field25519

  // BN_mod_inverse: 121666 times this is 1 + 77955 q.
  const INVERSE_121666: int := (1 + 77955 * Q) / 121666
  const D: int := -121665 * INVERSE_121666

  lemma ConstantIs()
    ensures D == -4513249062541557337682894930092624173785641285191125241628941591882900924598840740
  {
    ModulusIs();
  }

  /** The constructor's d is -121665/121666. */
  lemma CurveConstant()
    ensures Cong(121666 * INVERSE_121666, 1) && Cong(121666 * D, -121665)
  {
    ModulusIs();
    CongFrom(121666 * INVERSE_121666, 1, 77955);
    CongFrom(121666 * D, -121665, -121665 * 77955);
  }

  datatype Affine = Affine(x: int, y: int)

  const ZERO := Affine(0, 1)

  /** d x1 x2 y1 y2 */
  function K(a: Affine, b: Affine): int {
    D * (a.x * b.x * (a.y * b.y))
  }

  predicate OnCurve(a: Affine) {
    Cong(a.y * a.y - a.x * a.x, 1 + D * (a.x * a.y * (a.x * a.y)))
  }

  /** c is the sum of a and b by the affine addition law, with its denominators multiplied out. */
  predicate IsSum(a: Affine, b: Affine, c: Affine) {
    && Cong(c.x * (1 + K(a, b)), a.x * b.y + a.y * b.x)
    && Cong(c.y * (1 - K(a, b)), a.y * b.y + a.x * b.x)
  }

  // ---------------------------------------------------------------------------------------
  // Extended coordinates
  // ---------------------------------------------------------------------------------------

  /** EDDSAPoint: a missing z means one, a missing t means x*y. */
  datatype Point = Point(x: int, y: int, z: Option<int>, t: Option<int>) {
    function Z(): int { if z.Some? then z.value else 1 }
    function T(): int { if t.Some? then t.value else x * y }
  }

  /** Ed25519::Sum, with the products in the order the code forms them. */
  function Sum(p: Point, q: Point): Point {
    var a, b := p.x * q.x, p.y * q.y;
    var c := p.T() * q.T() * D;
    var dd := if p.z.Some? then (if q.z.Some? then p.z.value * q.z.value else p.z.value)
              else (if q.z.Some? then q.z.value else 1);
    var e := (p.x + p.y) * (q.x + q.y) - a - b;
    var f, g, h := dd - c, dd + c, b + a;
    Point(e * f % Q, g * h % Q, Some(f * g % Q), Some(e * h % Q))
  }

  /** Ed25519::Double on the value of its point. */
  function Doubled(p: Point): Point {
    var a, b := p.x * p.x, p.y * p.y;
    var c := (if p.t.Some? then p.t.value * p.t.value else p.x * p.y * (p.x * p.y)) * D;
    var dd := if p.z.Some? then p.z.value * p.z.value else 1;
    var e := 2 * (p.x * p.y);
    var f, g, h := dd - c, dd + c, b + a;
    Point(e * f % Q, g * h % Q, Some(f * g % Q), Some(e * h % Q))
  }

  /** operator-: x and t change sign. */
  function Negated(p: Point): Point {
    Point(-p.x, p.y, p.z, if p.t.Some? then Some(-p.t.value) else None)
  }

  /** Double gives the same residues as Sum of the point with itself. */
  lemma DoubleIsSum(p: Point)
    ensures Doubled(p) == Sum(p, p)
  {
    CrossTerm(p.x, p.y, p.x, p.y);
  }

  lemma CrossTerm(x1: int, y1: int, x2: int, y2: int)
    ensures (x1 + y1) * (x2 + y2) - x1 * x2 - y1 * y2 == x1 * y2 + y1 * x2
  {
  }

  /** The factors E, F, G and H of the sum. */
  function E(p: Point, q: Point): int { p.x * q.y + p.y * q.x }
  function F(p: Point, q: Point): int { p.Z() * q.Z() - p.T() * q.T() * D }
  function G(p: Point, q: Point): int { p.Z() * q.Z() + p.T() * q.T() * D }
  function H(p: Point, q: Point): int { p.y * q.y + p.x * q.x }

  lemma SumFactors(p: Point, q: Point)
    ensures Sum(p, q) == Point(E(p, q) * F(p, q) % Q, G(p, q) * H(p, q) % Q,
                               Some(F(p, q) * G(p, q) % Q), Some(E(p, q) * H(p, q) % Q))
  {
    CrossTerm(p.x, p.y, q.x, q.y);
  }

  /** The extended point stands for the affine point a. */
  ghost predicate Represents(p: Point, a: Affine) {
    && Unit(p.Z())
    && Cong(p.x, a.x * p.Z())
    && Cong(p.y, a.y * p.Z())
    && Cong(p.T(), a.x * a.y * p.Z())
  }

  lemma ScaledProduct(a: int, x: int, z: int, b: int, y: int, w: int)
    requires Cong(a, x * z) && Cong(b, y * w)
    ensures Cong(a * b, (x * y) * (z * w))
  {
    Times(a, x * z, b, y * w);
    Regroup4(x, z, y, w);
  }

  lemma ScaledPlus(a: int, b: int, x: int, y: int, w: int)
    requires Cong(a, x * w) && Cong(b, y * w)
    ensures Cong(a + b, (x + y) * w) && Cong(a - b, (x - y) * w)
  {
    Plus(a, x * w, b, y * w);
    Minus(a, x * w, b, y * w);
    assert x * w + y * w == (x + y) * w && x * w - y * w == (x - y) * w;
  }

  /** Each factor of the sum is its affine counterpart times z1 z2. */
  lemma FactorsScale(p: Point, a: Affine, q: Point, b: Affine)
    requires Represents(p, a) && Represents(q, b)
    ensures Cong(E(p, q), (a.x * b.y + a.y * b.x) * (p.Z() * q.Z()))
    ensures Cong(H(p, q), (a.y * b.y + a.x * b.x) * (p.Z() * q.Z()))
    ensures Cong(F(p, q), (1 - K(a, b)) * (p.Z() * q.Z()))
    ensures Cong(G(p, q), (1 + K(a, b)) * (p.Z() * q.Z()))
  {
    hide Cong, Unit;
    var z, w := p.Z(), q.Z();
    ScaledProduct(p.x, a.x, z, q.y, b.y, w);
    ScaledProduct(p.y, a.y, z, q.x, b.x, w);
    ScaledProduct(p.x, a.x, z, q.x, b.x, w);
    ScaledProduct(p.y, a.y, z, q.y, b.y, w);
    ScaledPlus(p.x * q.y, p.y * q.x, a.x * b.y, a.y * b.x, z * w);
    ScaledPlus(p.y * q.y, p.x * q.x, a.y * b.y, a.x * b.x, z * w);
    ScaledProduct(p.T(), a.x * a.y, z, q.T(), b.x * b.y, w);
    Regroup4(a.x, a.y, b.x, b.y);
    TimesD(p.T() * q.T(), a.x * b.x * (a.y * b.y), z * w);
    Same(z * w, 1 * (z * w));
    ScaledPlus(z * w, p.T() * q.T() * D, 1, K(a, b), z * w);
  }

  lemma TimesD(t: int, k: int, w: int)
    requires Cong(t, k * w)
    ensures Cong(t * D, D * k * w)
  {
    hide Cong;
    Same(D, D);
    Times(t, k * w, D, D);
    Rotate(k, w, D);
  }

  lemma Rotate(k: int, w: int, d: int)
    ensures k * w * d == d * k * w
  {
  }

  /** Cong(c.x * (1+k), s) and e, g scaled by w give e == c.x * g. */
  lemma Solve(x: int, k: int, s: int, w: int, e: int, g: int)
    requires Cong(x * k, s) && Cong(e, s * w) && Cong(g, k * w)
    ensures Cong(e, x * g)
  {
    hide Cong;
    Same(w, w); Same(x, x);
    Times(x * k, s, w, w);
    Times(x, x, g, k * w);
    assert x * (k * w) == x * k * w by { Regroup(x, k, w); }
    Flip(x * k * w, s * w);
    Chain(e, s * w, x * k * w);
    Flip(x * g, x * k * w);
    Chain(e, x * k * w, x * g);
  }

  /** Sum represents the affine sum whenever F and G are units. */
  lemma SumRepresents(p: Point, a: Affine, q: Point, b: Affine, c: Affine)
    requires Represents(p, a) && Represents(q, b) && IsSum(a, b, c)
    requires Unit(F(p, q)) && Unit(G(p, q))
    ensures Represents(Sum(p, q), c)
  {
    hide Cong, Unit, K, E, F, G, H;
    FactorsScale(p, a, q, b);
    var w := p.Z() * q.Z();
    var e, f, g, h := E(p, q), F(p, q), G(p, q), H(p, q);
    Solve(c.x, 1 + K(a, b), a.x * b.y + a.y * b.x, w, e, g);
    Solve(c.y, 1 - K(a, b), a.y * b.y + a.x * b.x, w, h, f);
    SumFactors(p, q);
    UnitTimes(f, g);
    ReducedUnit(f * g);
    Coordinates(c.x, c.y, e, f, g, h);
  }

  lemma ReducedUnit(a: int)
    requires Unit(a)
    ensures Unit(a % Q)
  {
    Reduced(a);
    UnitCong(a, a % Q);
  }

  lemma Coordinates(x: int, y: int, e: int, f: int, g: int, h: int)
    requires Cong(e, x * g) && Cong(h, y * f)
    ensures Cong(e * f % Q, x * (f * g % Q))
    ensures Cong(g * h % Q, y * (f * g % Q))
    ensures Cong(e * h % Q, x * y * (f * g % Q))
  {
    hide Cong;
    Same(f, f); Same(g, g);
    Times(e, x * g, f, f);
    assert x * g * f == x * (f * g) by { Regroup3(x, g, f); }
    Times(g, g, h, y * f);
    assert g * (y * f) == y * (f * g) by { Regroup3(g, y, f); }
    Times(e, x * g, h, y * f);
    assert x * g * (y * f) == x * y * (f * g) by { Regroup4(x, g, y, f); assert g * f == f * g; }
    ReduceBoth(e * f, x, f * g);
    ReduceBoth(g * h, y, f * g);
    ReduceBoth(e * h, x * y, f * g);
  }

  lemma ReduceBoth(a: int, x: int, z: int)
    requires Cong(a, x * z)
    ensures Cong(a % Q, x * (z % Q))
  {
    hide Cong;
    Reduced(a); Reduced(z);
    Flip(z % Q, z);
    Same(x, x);
    Times(x, x, z, z % Q);
    Chain(a, x * z, x * (z % Q));
    Chain(a % Q, a, x * (z % Q));
  }

  // ---------------------------------------------------------------------------------------
  // The sum stays on the curve
  // ---------------------------------------------------------------------------------------

  /** The curve equation and X Y = Z T in extended coordinates. */
  predicate OnExtendedCurve(p: Point) {
    && Cong(p.y * p.y - p.x * p.x, p.Z() * p.Z() + D * (p.T() * p.T()))
    && Cong(p.x * p.y, p.Z() * p.T())
  }

  lemma DifferenceOfSquares(x1: int, y1: int, x2: int, y2: int)
    ensures (y1 * y2 + x1 * x2) * (y1 * y2 + x1 * x2) - (x1 * y2 + y1 * x2) * (x1 * y2 + y1 * x2)
         == (y1 * y1 - x1 * x1) * (y2 * y2 - x2 * x2)
  {
  }

  lemma SumOfSquares(x1: int, y1: int, x2: int, y2: int)
    ensures (y1 * y2 + x1 * x2) * (y1 * y2 + x1 * x2) + (x1 * y2 + y1 * x2) * (x1 * y2 + y1 * x2)
         == (y1 * y1 + x1 * x1) * (y2 * y2 + x2 * x2) + 4 * (x1 * y1 * (x2 * y2))
  {
  }

  lemma SquareOfSum(x: int, y: int)
    ensures (y * y + x * x) * (y * y + x * x) == (y * y - x * x) * (y * y - x * x) + 4 * (x * y * (x * y))
  {
  }

  /** e^2 h^2 from e^2 + h^2 = v1 v2 + 4 m and h^2 - e^2 = u1 u2, where v_i^2 = u_i^2 + 4 p_i and m^2 = p1 p2. */
  lemma ProductOfSquares(ee: int, hh: int, u1: int, u2: int, v1: int, v2: int, p1: int, p2: int, m: int)
    requires hh - ee == u1 * u2 && hh + ee == v1 * v2 + 4 * m
    requires v1 * v1 == u1 * u1 + 4 * p1 && v2 * v2 == u2 * u2 + 4 * p2 && m * m == p1 * p2
    ensures ee * hh == p1 * (u2 * u2) + p2 * (u1 * u1) + 8 * (p1 * p2) + 2 * (m * (v1 * v2))
  {
    var s := v1 * v2;
    assert s * s == (u1 * u1 + 4 * p1) * (u2 * u2 + 4 * p2) by { assert s * s == (v1 * v1) * (v2 * v2) by { Regroup4(v1, v2, v1, v2); } }
    assert (u1 * u2) * (u1 * u2) == (u1 * u1) * (u2 * u2) by { Regroup4(u1, u2, u1, u2); }
    FourTimes(ee, hh);
    Binomial(s, m);
    Expand(u1 * u1, p1, u2 * u2, p2);
  }

  lemma FourTimes(ee: int, hh: int)
    ensures 4 * (ee * hh) == (hh + ee) * (hh + ee) - (hh - ee) * (hh - ee)
  {
  }

  lemma Binomial(s: int, m: int)
    ensures (s + 4 * m) * (s + 4 * m) == s * s + 8 * (m * s) + 16 * (m * m)
  {
  }

  lemma Expand(a: int, p: int, b: int, q: int)
    ensures (a + 4 * p) * (b + 4 * q) == a * b + 4 * (p * b) + 4 * (q * a) + 16 * (p * q)
  {
  }

  /** The curve polynomial of the sum before any congruence is used. */
  lemma SumPolynomial(ee: int, hh: int, z: int, k: int, u: int, v: int)
    requires hh - ee == u && hh + ee == v
    ensures (z + k) * (z + k) * hh - ee * ((z - k) * (z - k)) == (z * z + k * k) * u + 2 * (z * k * v)
  {
    assert (z + k) * (z + k) == z * z + 2 * (z * k) + k * k;
    assert (z - k) * (z - k) == z * z - 2 * (z * k) + k * k;
    Gather(z * z + k * k, z * k, ee, hh);
  }

  lemma Gather(q: int, r: int, ee: int, hh: int)
    ensures (q + 2 * r) * hh - ee * (q - 2 * r) == q * (hh - ee) + 2 * (r * (hh + ee))
  {
  }

  lemma Vanishing(a1: int, b1: int, a2: int, b2: int)
    ensures (a1 * a2 + b1 * b2) * ((a1 + b1) * (a2 + b2)) - (a1 * a2 - b1 * b2) * (a1 * a2 - b1 * b2)
         == a1 * b1 * ((a2 + b2) * (a2 + b2)) + a2 * b2 * ((a1 + b1) * (a1 + b1))
  {
  }

  /** g^2 h^2 - e^2 f^2 == f^2 g^2 + d e^2 h^2 modulo q, for the factors of a sum of two curve points. */
  lemma SumEquation(p: Point, q: Point)
    requires OnExtendedCurve(p) && OnExtendedCurve(q)
    ensures Cong(G(p, q) * G(p, q) * (H(p, q) * H(p, q)) - E(p, q) * E(p, q) * (F(p, q) * F(p, q)),
                 F(p, q) * G(p, q) * (F(p, q) * G(p, q)) + D * (E(p, q) * E(p, q) * (H(p, q) * H(p, q))))
  {
    hide Cong;
    var (z1, t1, z2, t2) := (p.Z(), p.T(), q.Z(), q.T());
    var (z, k) := (z1 * z2, t1 * t2 * D);
    var (ee, hh) := (E(p, q) * E(p, q), H(p, q) * H(p, q));
    var (u1, u2) := (p.y * p.y - p.x * p.x, q.y * q.y - q.x * q.x);
    var (v1, v2) := (p.y * p.y + p.x * p.x, q.y * q.y + q.x * q.x);
    var (n1, n2) := (p.x * p.y, q.x * q.y);
    var m := n1 * n2;
    DifferenceOfSquares(p.x, p.y, q.x, q.y);
    SumOfSquares(p.x, p.y, q.x, q.y);
    SquareOfSum(p.x, p.y); SquareOfSum(q.x, q.y);
    Regroup4(n1, n2, n1, n2);
    ProductOfSquares(ee, hh, u1, u2, v1, v2, n1 * n1, n2 * n2, m);
    SumPolynomial(ee, hh, z, k, u1 * u2, v1 * v2 + 4 * m);
    Remainder(z1, t1, z2, t2, D, u1, u2, n1, n2, v1 * v2, ee * hh);
  }

  /** The polynomial is congruent to one in a_i = z_i^2 and b_i = d t_i^2, where it vanishes. */
  lemma Remainder(z1: int, t1: int, z2: int, t2: int, d: int, u1: int, u2: int, n1: int, n2: int, s: int, eh: int)
    requires Cong(u1, z1 * z1 + d * (t1 * t1)) && Cong(u2, z2 * z2 + d * (t2 * t2))
    requires Cong(n1, z1 * t1) && Cong(n2, z2 * t2)
    requires eh == n1 * n1 * (u2 * u2) + n2 * n2 * (u1 * u1) + 8 * (n1 * n1 * (n2 * n2)) + 2 * (n1 * n2 * s)
    ensures var z, k := z1 * z2, t1 * t2 * d;
      Cong((z * z + k * k) * (u1 * u2) + 2 * (z * k * (s + 4 * (n1 * n2))), (z - k) * (z + k) * ((z - k) * (z + k)) + d * eh)
  {
    hide Cong;
    var z, k, m := z1 * z2, t1 * t2 * d, n1 * n2;
    var a1, b1, a2, b2 := z1 * z1, d * (t1 * t1), z2 * z2, d * (t2 * t2);
    Squares(z1, t1, z2, t2, d);
    MiddleTerm(z1, t1, z2, t2, d, n1, n2);
    Regroup4(n1, n2, n1, n2);
    var top := 2 * (d * m * (s + 4 * m));
    Cross(z * k, d * m, s + 4 * m);
    LeftSide(a1 * a2 + b1 * b2, u1, a1 + b1, u2, a2 + b2, 2 * (z * k * (s + 4 * m)), top);
    ScaledSquare(d, n1, z1, t1); ScaledSquare(d, n2, z2, t2);
    SplitD(d, n1 * n1, u2 * u2, n2 * n2, u1 * u1, m, s);
    RightSide(d * (n1 * n1), a1 * b1, u2, a2 + b2, d * (n2 * n2), a2 * b2, u1, a1 + b1, top);
    Vanishing(a1, b1, a2, b2);
    var mid := (a1 * a2 - b1 * b2) * (a1 * a2 - b1 * b2);
    Same(mid, mid);
    var r := a1 * b1 * ((a2 + b2) * (a2 + b2)) + a2 * b2 * ((a1 + b1) * (a1 + b1)) + top;
    Flip(d * eh, r);
    Plus(mid, mid, r, d * eh);
    Chain((z * z + k * k) * (u1 * u2) + 2 * (z * k * (s + 4 * m)), mid + r, mid + d * eh);
  }

  lemma Squares(z1: int, t1: int, z2: int, t2: int, d: int)
    ensures var z, k := z1 * z2, t1 * t2 * d;
      && z * z == z1 * z1 * (z2 * z2) && k * k == d * (t1 * t1) * (d * (t2 * t2))
      && (z - k) * (z + k) == z1 * z1 * (z2 * z2) - d * (t1 * t1) * (d * (t2 * t2))
  {
    Regroup4(z1, z2, z1, z2);
    var t := t1 * t2;
    assert t * t == t1 * t1 * (t2 * t2) by { Regroup4(t1, t2, t1, t2); }
    assert t * d * (t * d) == t * t * (d * d) by { Regroup4(t, d, t, d); }
    assert d * (t1 * t1) * (d * (t2 * t2)) == d * d * (t1 * t1 * (t2 * t2)) by { Regroup4(d, t1 * t1, d, t2 * t2); }
  }

  lemma Cross(a: int, b: int, c: int)
    requires Cong(b, a)
    ensures Cong(2 * (a * c), 2 * (b * c))
  {
    hide Cong;
    Flip(b, a);
    Same(c, c); Same(2, 2);
    Times(a, b, c, c);
    Times(2, 2, a * c, b * c);
  }

  lemma LeftSide(q: int, u1: int, w1: int, u2: int, w2: int, x: int, y: int)
    requires Cong(u1, w1) && Cong(u2, w2) && Cong(x, y)
    ensures Cong(q * (u1 * u2) + x, q * (w1 * w2) + y)
  {
    hide Cong;
    Same(q, q);
    Times(u1, w1, u2, w2);
    Times(q, q, u1 * u2, w1 * w2);
    Plus(q * (u1 * u2), q * (w1 * w2), x, y);
  }

  lemma ScaledSquare(d: int, n: int, z: int, t: int)
    requires Cong(n, z * t)
    ensures Cong(d * (n * n), z * z * (d * (t * t)))
  {
    hide Cong;
    Same(d, d);
    Times(n, z * t, n, z * t);
    Regroup4(z, t, z, t);
    Times(d, d, n * n, z * z * (t * t));
    Swap(d, z * z, t * t);
    assert t * t * d == d * (t * t);
  }

  lemma SplitD(d: int, p1: int, q2: int, p2: int, q1: int, m: int, s: int)
    requires p1 * p2 == m * m
    ensures d * (p1 * q2 + p2 * q1 + 8 * (p1 * p2) + 2 * (m * s)) == d * p1 * q2 + d * p2 * q1 + 2 * (d * m * (s + 4 * m))
  {
    Quadruple(d, m);
    Spread(d * m, s, 4 * m);
    Regroup(d, p1, q2); Regroup(d, p2, q1); Regroup(d, m, s);
    Spread4(d, p1 * q2, p2 * q1, 8 * (p1 * p2), 2 * (m * s));
  }

  lemma Quadruple(d: int, m: int)
    ensures d * m * (4 * m) == 4 * (d * (m * m))
  {
  }

  lemma Spread(a: int, b: int, c: int)
    ensures a * (b + c) == a * b + a * c
  {
  }

  lemma Spread4(d: int, a: int, b: int, c: int, e: int)
    ensures d * (a + b + c + e) == d * a + d * b + d * c + d * e
  {
  }

  lemma RightSide(p1: int, c1: int, u2: int, w2: int, p2: int, c2: int, u1: int, w1: int, top: int)
    requires Cong(p1, c1) && Cong(u2, w2) && Cong(p2, c2) && Cong(u1, w1)
    ensures Cong(p1 * (u2 * u2) + p2 * (u1 * u1) + top, c1 * (w2 * w2) + c2 * (w1 * w1) + top)
  {
    hide Cong;
    Same(top, top);
    Times(u1, w1, u1, w1);
    Times(u2, w2, u2, w2);
    Times(p1, c1, u2 * u2, w2 * w2);
    Times(p2, c2, u1 * u1, w1 * w1);
    Plus(p1 * (u2 * u2), c1 * (w2 * w2), p2 * (u1 * u1), c2 * (w1 * w1));
    Plus(p1 * (u2 * u2) + p2 * (u1 * u1), c1 * (w2 * w2) + c2 * (w1 * w1), top, top);
  }

  /** d n1 n2 and z k are congruent. */
  lemma MiddleTerm(z1: int, t1: int, z2: int, t2: int, d: int, n1: int, n2: int)
    requires Cong(n1, z1 * t1) && Cong(n2, z2 * t2)
    ensures Cong(d * (n1 * n2), z1 * z2 * (t1 * t2 * d))
  {
    hide Cong;
    Times(n1, z1 * t1, n2, z2 * t2);
    Regroup4(z1, t1, z2, t2);
    Same(d, d);
    Times(d, d, n1 * n2, z1 * z2 * (t1 * t2));
    assert d * (z1 * z2 * (t1 * t2)) == z1 * z2 * (t1 * t2 * d) by { Swap(d, z1 * z2, t1 * t2); }
  }

  lemma Swap(d: int, a: int, b: int)
    ensures d * (a * b) == a * (b * d)
  {
  }

  /** Sum keeps the curve equation and X Y = Z T, with no condition on its factors. */
  lemma SumOnCurve(p: Point, q: Point)
    requires OnExtendedCurve(p) && OnExtendedCurve(q)
    ensures OnExtendedCurve(Sum(p, q))
  {
    hide Cong, E, F, G, H;
    var e, f, g, h := E(p, q), F(p, q), G(p, q), H(p, q);
    SumFactors(p, q);
    SumEquation(p, q);
    Regroup4(g, h, g, h); Regroup4(e, f, e, f); Regroup4(e, h, e, h);
    ReducedProduct(g * h, g * h); ReducedProduct(e * f, e * f);
    ReducedProduct(f * g, f * g); ReducedProduct(e * h, e * h);
    ReducedProduct(e * f, g * h); ReducedProduct(f * g, e * h);
    ReducedEquation(g * h, e * f, f * g, e * h);
    assert e * f * (g * h) == f * g * (e * h) by { FactorSwap(e, f, g, h); }
    Flip(f * g % Q * (e * h % Q), f * g * (e * h));
    Chain(e * f % Q * (g * h % Q), e * f * (g * h), f * g % Q * (e * h % Q));
  }

  lemma FactorSwap(e: int, f: int, g: int, h: int)
    ensures e * f * (g * h) == f * g * (e * h)
  {
    Regroup4(e, f, g, h); Regroup4(f, g, e, h);
    assert e * g * (f * h) == (f * e) * (g * h) by { Regroup4(e, g, f, h); }
  }

  lemma ReducedProduct(a: int, b: int)
    ensures Cong(a % Q * (b % Q), a * b)
  {
    hide Cong;
    Reduced(a); Reduced(b);
    Times(a % Q, a, b % Q, b);
  }

  lemma ReducedEquation(y: int, x: int, z: int, t: int)
    requires Cong(y * y - x * x, z * z + D * (t * t))
    ensures Cong(y % Q * (y % Q) - x % Q * (x % Q), z % Q * (z % Q) + D * (t % Q * (t % Q)))
  {
    hide Cong;
    ReducedProduct(y, y); ReducedProduct(x, x); ReducedProduct(z, z); ReducedProduct(t, t);
    Minus(y % Q * (y % Q), y * y, x % Q * (x % Q), x * x);
    Same(D, D);
    Times(D, D, t % Q * (t % Q), t * t);
    Plus(z % Q * (z % Q), z * z, D * (t % Q * (t % Q)), D * (t * t));
    Flip(z % Q * (z % Q) + D * (t % Q * (t % Q)), z * z + D * (t * t));
    Chain(y % Q * (y % Q) - x % Q * (x % Q), y * y - x * x, z * z + D * (t * t));
    Chain(y % Q * (y % Q) - x % Q * (x % Q), z * z + D * (t * t), z % Q * (z % Q) + D * (t % Q * (t % Q)));
  }
}
