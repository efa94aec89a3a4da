/** The affine group that the point formulas of libdotnet/Ed25519.cpp compute in. Completeness,
    closure, commutativity, identity and inverses are proved; associativity is taken as a fact. */
module EdwardsGroup {
  import opened Wrappers
  import opened Field25519
  import opened Edwards

  /** The constructor's 2^((q-1)/4). */
  const I: int := Power(2, (Q - 1) / 4) % Q

  // A known square root of -1, to compute with.
  const ROOT: int := 19681161376707505956807079304988542015446066515923890162744021073123829784752

  /** I squares to -1: 2 times ROOT is the square of 1 + ROOT, which Fermat raises to one, and the odd power
      (q-1)/4 of ROOT squared is -1. */
  lemma SquareRootOfMinusOne()
    requires PrimeField()
    ensures Cong(I * I, -1)
  {
    hide Cong, Power;
    var k := (Q - 1) / 4;
    assert 4 * k == Q - 1 && k % 2 == 1 by { ModulusIs(); }
    var x, y := Power(2, 2 * k), Power(ROOT, 2 * k);
    Reduced(Power(2, k));
    Times(I, Power(2, k), I, Power(2, k));
    PowerAdd(2, k, k);
    RootPower(k);
    TwiceRoot(k);
    PowerProduct(2, ROOT, 2 * k);
    Same(x, x); Same(-1, -1);
    Times(x, x, y, -1);
    Flip(x * y, x * -1);
    Chain(x * -1, x * y, 1);
    Times(x * -1, 1, -1, -1);
    Chain(I * I, x, -1);
  }

  lemma RootPower(k: nat)
    requires k % 2 == 1
    ensures Cong(Power(ROOT, 2 * k), -1)
  {
    hide Cong, Power;
    CongNumbers(ROOT * ROOT, -1, 6690407189080634018507799843845558368979872843924222843531373839242004886245);
    PowerSquare(ROOT, k);
    PowerCong(ROOT * ROOT, -1, k);
    OddPower(k);
  }

  lemma {:induction false} OddPower(k: nat)
    ensures Power(-1, k) == if k % 2 == 1 then -1 else 1
  {
    if k > 0 { OddPower(k - 1); }
  }

  lemma TwiceRoot(k: nat)
    requires PrimeField() && 4 * k == Q - 1
    ensures Cong(Power(2 * ROOT, 2 * k), 1)
  {
    var s := 1 + ROOT;
    if Cong(s, 0) {
      ModulusIs();
      ReducedEqual(s, 0);
    }
    hide Cong, Power;
    CongNumbers(s * s, 2 * ROOT, 6690407189080634018507799843845558368979872843924222843531373839242004886245);
    PowerSquare(s, 2 * k);
    PowerCong(s * s, 2 * ROOT, 2 * k);
    Flip(Power(s * s, 2 * k), Power(2 * ROOT, 2 * k));
    Chain(Power(2 * ROOT, 2 * k), Power(s, Q - 1), 1);
  }

  lemma {:induction false} PowerProduct(a: int, b: int, n: nat)
    ensures Power(a * b, n) == Power(a, n) * Power(b, n)
  {
    if n > 0 {
      PowerProduct(a, b, n - 1);
      Regroup4(a, b, Power(a, n - 1), Power(b, n - 1));
    }
  }

  /** Number-theoretic facts about q and d: q is prime and d is not a square modulo q. */
  ghost predicate FieldFacts() {
    PrimeField() && forall x: int :: !Cong(x * x, D)
  }

  /** A reduced affine point of the curve. */
  predicate Member(a: Affine) {
    0 <= a.x < Q && 0 <= a.y < Q && OnCurve(a)
  }

  // ---------------------------------------------------------------------------------------
  // Completeness: the denominators never vanish
  // ---------------------------------------------------------------------------------------

  /** d x1^2 y1^2 (y2^2 - x2^2) == y1^2 - x1^2 when k^2 == 1. */
  lemma Collapse(a: Affine, b: Affine)
    requires OnCurve(a) && OnCurve(b) && Cong(K(a, b) * K(a, b), 1)
    ensures Cong(D * (a.x * a.y * (a.x * a.y)) * (b.y * b.y - b.x * b.x), a.y * a.y - a.x * a.x)
  {
    hide Cong;
    var p, r := a.x * a.y * (a.x * a.y), b.x * b.y * (b.x * b.y);
    var u := b.y * b.y - b.x * b.x;
    assert Cong(u, 1 + D * r) && Cong(a.y * a.y - a.x * a.x, 1 + D * p) by { assert OnCurve(a) && OnCurve(b); }
    Same(D * p, D * p); Same(D * p, D * p);
    Times(D * p, D * p, u, 1 + D * r);
    KSquared(a.x, a.y, b.x, b.y, D);
    assert D * p * (1 + D * r) == D * p + K(a, b) * K(a, b);
    Plus(D * p, D * p, K(a, b) * K(a, b), 1);
    Chain(D * p * u, D * p * (1 + D * r), 1 + D * p);
    Flip(a.y * a.y - a.x * a.x, 1 + D * p);
    Chain(D * p * u, 1 + D * p, a.y * a.y - a.x * a.x);
  }

  lemma KSquared(x1: int, y1: int, x2: int, y2: int, d: int)
    ensures d * (x1 * x2 * (y1 * y2)) * (d * (x1 * x2 * (y1 * y2))) == d * (x1 * y1 * (x1 * y1)) * (d * (x2 * y2 * (x2 * y2)))
    ensures d * (x1 * y1 * (x1 * y1)) * (1 + d * (x2 * y2 * (x2 * y2)))
         == d * (x1 * y1 * (x1 * y1)) + d * (x1 * x2 * (y1 * y2)) * (d * (x1 * x2 * (y1 * y2)))
  {
    var m, n := x1 * y1, x2 * y2;
    assert x1 * x2 * (y1 * y2) == m * n by { Regroup4(x1, x2, y1, y2); }
    Regroup4(d, m * n, d, m * n); Regroup4(m, n, m, n); Regroup4(d, m * m, d, n * n);
    Spread(d * (m * m), 1, d * (n * n));
  }

  lemma ImaginarySquare(y: int, x: int, s: int)
    requires Cong(s * s, -1)
    ensures Cong((y + s * x) * (y + s * x), y * y - x * x + 2 * (s * (x * y)))
  {
    hide Cong;
    Same(x * x, x * x);
    Times(s * s, -1, x * x, x * x);
    var rest := y * y + 2 * (s * (x * y));
    Same(rest, rest);
    Plus(rest, rest, s * s * (x * x), -1 * (x * x));
    ExpandSquare(y, x, s);
  }

  lemma ExpandSquare(y: int, x: int, s: int)
    ensures (y + s * x) * (y + s * x) == y * y + 2 * (s * (x * y)) + s * s * (x * x)
  {
  }

  /** (y1 + s k x1)^2 == d (x1 y1 (y2 + s x2))^2 for s a square root of -1. */
  lemma TwoSquares(a: Affine, b: Affine, s: int)
    requires OnCurve(a) && OnCurve(b) && Cong(K(a, b) * K(a, b), 1) && Cong(s * s, -1)
    ensures var w := a.x * a.y * (b.y + s * b.x);
      Cong((a.y + s * (K(a, b) * a.x)) * (a.y + s * (K(a, b) * a.x)), D * (w * w))
  {
    hide Cong, OnCurve;
    var k, n := K(a, b), a.x * a.y;
    var w := n * (b.y + s * b.x);
    var l := (a.y + s * (k * a.x)) * (a.y + s * (k * a.x));
    var mid := a.y * a.y - a.x * a.x + 2 * (s * (k * n));
    Collapse(a, b);
    Regroup4(a.x, b.x, a.y, b.y);
    hide K;
    LeftSquare(a, k, s);
    RightSquare(D, n, a.y * a.y - a.x * a.x, b, s, k);
    Flip(D * (w * w), mid);
    Chain(l, mid, D * (w * w));
  }

  lemma LeftSquare(a: Affine, k: int, s: int)
    requires Cong(k * k, 1) && Cong(s * s, -1)
    ensures Cong((a.y + s * (k * a.x)) * (a.y + s * (k * a.x)), a.y * a.y - a.x * a.x + 2 * (s * (k * (a.x * a.y))))
  {
    hide Cong;
    ImaginarySquare(a.y, k * a.x, s);
    Regroup(k, a.x, a.y);
    ReplaceSquare(a.y * a.y + 2 * (s * (k * (a.x * a.y))), k, a.x);
    Chain((a.y + s * (k * a.x)) * (a.y + s * (k * a.x)),
          a.y * a.y + 2 * (s * (k * (a.x * a.y))) - k * a.x * (k * a.x),
          a.y * a.y + 2 * (s * (k * (a.x * a.y))) - a.x * a.x);
  }

  lemma ReplaceSquare(rest: int, k: int, x: int)
    requires Cong(k * k, 1)
    ensures Cong(rest - k * x * (k * x), rest - x * x)
  {
    hide Cong;
    Regroup4(k, x, k, x);
    Same(x * x, x * x);
    Times(k * k, 1, x * x, x * x);
    Same(rest, rest);
    Minus(rest, rest, k * x * (k * x), x * x);
  }

  lemma RightSquare(d: int, n: int, u: int, b: Affine, s: int, k: int)
    requires Cong(s * s, -1) && Cong(d * (n * n) * (b.y * b.y - b.x * b.x), u)
    requires k == d * (n * (b.x * b.y))
    ensures var w := n * (b.y + s * b.x); Cong(d * (w * w), u + 2 * (s * (k * n)))
  {
    hide Cong;
    var v := b.y + s * b.x;
    var e := d * (n * n);
    ImaginarySquare(b.y, b.x, s);
    Same(e, e);
    Times(e, e, v * v, b.y * b.y - b.x * b.x + 2 * (s * (b.x * b.y)));
    Spread(e, b.y * b.y - b.x * b.x, 2 * (s * (b.x * b.y)));
    assert e * (2 * (s * (b.x * b.y))) == 2 * (s * (k * n)) by { Shuffle(d, n, b.x * b.y, s); }
    Same(2 * (s * (k * n)), 2 * (s * (k * n)));
    Plus(e * (b.y * b.y - b.x * b.x), u, 2 * (s * (k * n)), 2 * (s * (k * n)));
    Chain(e * (v * v), e * (b.y * b.y - b.x * b.x) + 2 * (s * (k * n)), u + 2 * (s * (k * n)));
    assert d * (n * v * (n * v)) == e * (v * v) by { Regroup4(n, v, n, v); Regroup(d, n * n, v * v); }
  }

  lemma Shuffle(d: int, n: int, m: int, s: int)
    ensures d * (n * n) * (2 * (s * m)) == 2 * (s * (d * (n * m) * n))
  {
    assert d * (n * m) * n == d * (n * n) * m;
    var e := d * (n * n);
    assert e * (2 * (s * m)) == 2 * (s * (e * m));
  }

  lemma Ratio(w: int, v: int, i: int)
    requires Cong(w * i, 1) && Cong(v * v, D * (w * w))
    ensures Cong(v * i * (v * i), D)
  {
    hide Cong;
    Times(w * i, 1, w * i, 1);
    Regroup4(w, i, w, i); Regroup4(v, i, v, i);
    RatioOfSquares(w * w, i * i, v * v);
  }

  lemma RatioOfSquares(ww: int, ii: int, vv: int)
    requires Cong(ww * ii, 1) && Cong(vv, D * ww)
    ensures Cong(vv * ii, D)
  {
    hide Cong;
    Same(ii, ii); Same(D, D);
    Times(vv, D * ww, ii, ii);
    Regroup(D, ww, ii);
    Times(D, D, ww * ii, 1);
    Chain(vv * ii, D * (ww * ii), D);
  }

  /** If d w^2 is a square then w is zero, since d is not one. */
  lemma SquareTimesD(w: int, v: int)
    requires FieldFacts() && Cong(v * v, D * (w * w))
    ensures Cong(w, 0)
  {
    if !Cong(w, 0) {
      NonzeroIsUnit(w);
      var i :| Inverts(w, i);
      Ratio(w, v, i);
    }
  }

  /** The denominators 1 + k and 1 - k of the addition law are units for all curve points. */
  lemma Complete(a: Affine, b: Affine)
    requires FieldFacts() && OnCurve(a) && OnCurve(b)
    ensures Unit(1 + K(a, b)) && Unit(1 - K(a, b))
  {
    var k := K(a, b);
    KSquareIsNotOne(a, b);
    if Cong(1 + k, 0) || Cong(1 - k, 0) {
      UnitSquare(k);
    } else {
      NonzeroIsUnit(1 + k);
      NonzeroIsUnit(1 - k);
    }
  }

  lemma UnitSquare(k: int)
    requires Cong(1 + k, 0) || Cong(1 - k, 0)
    ensures Cong(k * k, 1)
  {
    hide Cong;
    assert (1 + k) * (1 - k) == 1 - k * k;
    Same(1 - k, 1 - k); Same(1 + k, 1 + k);
    if Cong(1 + k, 0) { Times(1 + k, 0, 1 - k, 1 - k); } else { Times(1 + k, 1 + k, 1 - k, 0); }
    Same(1, 1);
    Minus(1, 1, 1 - k * k, 0);
  }

  lemma KSquareIsNotOne(a: Affine, b: Affine)
    requires FieldFacts() && OnCurve(a) && OnCurve(b)
    ensures !Cong(K(a, b) * K(a, b), 1)
  {
    if Cong(K(a, b) * K(a, b), 1) {
      SecondFactorVanishes(a, b);
      KVanishes(a, b);
    }
  }

  lemma SecondFactorVanishes(a: Affine, b: Affine)
    requires FieldFacts() && OnCurve(a) && OnCurve(b) && Cong(K(a, b) * K(a, b), 1)
    ensures Cong(a.x * a.y * b.y, 0)
  {
    SquareRootOfMinusOne();
    hide Cong, OnCurve, K, FieldFacts;
    assert -I * -I == I * I;
    TwoSquares(a, b, I); TwoSquares(a, b, -I);
    SquareTimesD(a.x * a.y * (b.y + I * b.x), a.y + I * (K(a, b) * a.x));
    SquareTimesD(a.x * a.y * (b.y + -I * b.x), a.y + -I * (K(a, b) * a.x));
    BothVanish(a.x * a.y, b, I);
  }

  /** n (y + s x) == 0 and n (y - s x) == 0 leave n y == 0. */
  lemma BothVanish(n: int, b: Affine, s: int)
    requires Cong(n * (b.y + s * b.x), 0) && Cong(n * (b.y + -s * b.x), 0)
    ensures Cong(n * b.y, 0)
  {
    hide Cong;
    Plus(n * (b.y + s * b.x), 0, n * (b.y + -s * b.x), 0);
    Doubles(n, b.y, s * b.x);
    assert -s * b.x == -(s * b.x);
    assert 2 * (n * b.y) == n * (b.y + s * b.x) + n * (b.y + -s * b.x);
    Halve(n * b.y);
  }

  lemma Doubles(n: int, y: int, t: int)
    ensures n * (y + t) + n * (y + -t) == 2 * (n * y)
  {
  }

  lemma Halve(a: int)
    requires Cong(2 * a, 0)
    ensures Cong(a, 0)
  {
    ModulusIs();
    CongFrom(2 * ((Q + 1) / 2), 1, 1);
    assert Inverts(2, (Q + 1) / 2);
    Cancel(2, a, 0);
  }

  lemma KVanishes(a: Affine, b: Affine)
    requires Cong(a.x * a.y * b.y, 0)
    ensures Cong(K(a, b) * K(a, b), 0)
  {
    hide Cong;
    Factor(a.x, a.y, b.x, b.y, D);
    Same(D * b.x, D * b.x);
    Times(D * b.x, D * b.x, a.x * a.y * b.y, 0);
    Times(K(a, b), 0, K(a, b), 0);
  }

  lemma Factor(x1: int, y1: int, x2: int, y2: int, d: int)
    ensures d * (x1 * x2 * (y1 * y2)) == d * x2 * (x1 * y1 * y2)
  {
    assert x1 * x2 * (y1 * y2) == x2 * (x1 * y1 * y2);
  }

  // ---------------------------------------------------------------------------------------
  // The group
  // ---------------------------------------------------------------------------------------

  ghost function Add(a: Affine, b: Affine): Affine {
    var k := K(a, b);
    Affine((a.x * b.y + a.y * b.x) * Inverse(1 + k) % Q, (a.y * b.y + a.x * b.x) * Inverse(1 - k) % Q)
  }

  function Neg(a: Affine): Affine {
    Affine(-a.x % Q, a.y)
  }

  lemma AddIsSum(a: Affine, b: Affine)
    requires Unit(1 + K(a, b)) && Unit(1 - K(a, b))
    ensures IsSum(a, b, Add(a, b))
  {
    hide Cong, K;
    Quotient(a.x * b.y + a.y * b.x, 1 + K(a, b));
    Quotient(a.y * b.y + a.x * b.x, 1 - K(a, b));
  }

  lemma Quotient(n: int, u: int)
    requires Unit(u)
    ensures Cong(n * Inverse(u) % Q * u, n)
  {
    hide Cong, Inverse;
    var i := Inverse(u);
    Reduced(n * i);
    Same(u, u); Same(n, n);
    Times(n * i % Q, n * i, u, u);
    Times(n, n, u * i, 1);
    assert n * i * u == n * (u * i);
    Chain(n * i % Q * u, n * i * u, n);
  }

  lemma AddCommutes(a: Affine, b: Affine)
    ensures Add(a, b) == Add(b, a)
  {
    assert a.x * b.x == b.x * a.x && a.y * b.y == b.y * a.y;
  }

  lemma ZeroMember()
    ensures Member(ZERO)
  {
  }

  lemma InverseOfOne()
    ensures Inverse(1) == 1
  {
    assert Inverts(1, 1);
    ReducedEqual(Inverse(1), 1);
  }

  lemma AddZero(a: Affine)
    requires Member(a)
    ensures Add(a, ZERO) == a
  {
    InverseOfOne();
    assert K(a, ZERO) == 0 by { assert a.x * 0 == 0; }
    ModOf(a.x, 0, a.x); ModOf(a.y, 0, a.y);
  }

  /** The affine sum of two curve points is a curve point. */
  lemma AddMember(a: Affine, b: Affine)
    requires FieldFacts() && Member(a) && Member(b)
    ensures Member(Add(a, b))
  {
    hide Cong, Add, K, E, F, G, H, Unit;
    var p, q, c := Point(a.x, a.y, None, None), Point(b.x, b.y, None, None), Add(a, b);
    AddReduced(a, b);
    AffineRepresents(a); AffineRepresents(b);
    SumOnCurve(p, q);
    SumOfMembers(p, a, q, b);
    ExtendedIsAffine(Sum(p, q), c);
  }

  lemma AddReduced(a: Affine, b: Affine)
    ensures 0 <= Add(a, b).x < Q && 0 <= Add(a, b).y < Q
  {
  }

  lemma AffineRepresents(a: Affine)
    requires OnCurve(a)
    ensures Represents(Point(a.x, a.y, None, None), a) && OnExtendedCurve(Point(a.x, a.y, None, None))
  {
    assert Inverts(1, 1);
  }

  /** On curve points Sum represents the group operation: its F and G never vanish. */
  lemma SumOfMembers(p: Point, a: Affine, q: Point, b: Affine)
    requires FieldFacts() && OnCurve(a) && OnCurve(b) && Represents(p, a) && Represents(q, b)
    ensures Represents(Sum(p, q), Add(a, b))
  {
    hide Cong, Add, K, E, F, G, H, OnCurve;
    Complete(a, b);
    AddIsSum(a, b);
    FactorsScale(p, a, q, b);
    var w := p.Z() * q.Z();
    UnitTimes(p.Z(), q.Z());
    UnitTimes(1 + K(a, b), w); UnitTimes(1 - K(a, b), w);
    Flip(G(p, q), (1 + K(a, b)) * w); Flip(F(p, q), (1 - K(a, b)) * w);
    UnitCong((1 + K(a, b)) * w, G(p, q));
    UnitCong((1 - K(a, b)) * w, F(p, q));
    SumRepresents(p, a, q, b, Add(a, b));
  }

  /** An extended point on the curve represents an affine point on the curve. */
  lemma ExtendedIsAffine(p: Point, a: Affine)
    requires Represents(p, a) && OnExtendedCurve(p)
    ensures OnCurve(a)
  {
    hide Cong, Unit;
    var z := p.Z();
    SquareScaled(p.y, a.y, z); SquareScaled(p.x, a.x, z); SquareScaled(p.T(), a.x * a.y, z);
    Minus(p.y * p.y, a.y * a.y * (z * z), p.x * p.x, a.x * a.x * (z * z));
    Same(D, D); Same(z * z, z * z);
    Times(D, D, p.T() * p.T(), a.x * a.y * (a.x * a.y) * (z * z));
    Plus(z * z, z * z, D * (p.T() * p.T()), D * (a.x * a.y * (a.x * a.y) * (z * z)));
    Collect(z * z, a.y * a.y, a.x * a.x, D, a.x * a.y * (a.x * a.y));
    var l, r := a.y * a.y - a.x * a.x, 1 + D * (a.x * a.y * (a.x * a.y));
    Flip(p.y * p.y - p.x * p.x, z * z * l);
    Chain(z * z * l, p.y * p.y - p.x * p.x, z * z + D * (p.T() * p.T()));
    Chain(z * z * l, z * z + D * (p.T() * p.T()), z * z * r);
    UnitTimes(z, z);
    Cancel(z * z, l, r);
  }

  lemma SquareScaled(p: int, a: int, z: int)
    requires Cong(p, a * z)
    ensures Cong(p * p, a * a * (z * z))
  {
    hide Cong;
    Times(p, a * z, p, a * z);
    Regroup4(a, z, a, z);
  }

  lemma Collect(zz: int, yy: int, xx: int, d: int, m: int)
    ensures yy * zz - xx * zz == zz * (yy - xx)
    ensures zz + d * (m * zz) == zz * (1 + d * m)
  {
    Regroup(d, m, zz);
  }

  lemma NegMember(a: Affine)
    requires Member(a)
    ensures Member(Neg(a))
  {
    hide Cong;
    var x := -a.x % Q;
    Reduced(-a.x);
    Times(x, -a.x, x, -a.x);
    Same(a.y, a.y);
    Times(x, -a.x, a.y, a.y);
    Times(x * a.y, -a.x * a.y, x * a.y, -a.x * a.y);
    Signs(a.x, a.y);
    NegEquation(a, x);
  }

  lemma Signs(x: int, y: int)
    ensures -x * -x == x * x && -x * y * (-x * y) == x * y * (x * y)
  {
    assert -x * y == -(x * y);
  }

  lemma NegEquation(a: Affine, x: int)
    requires OnCurve(a) && Cong(x * x, a.x * a.x) && Cong(x * a.y * (x * a.y), a.x * a.y * (a.x * a.y))
    ensures OnCurve(Affine(x, a.y))
  {
    hide Cong;
    Same(a.y * a.y, a.y * a.y); Same(D, D); Same(1, 1);
    Minus(a.y * a.y, a.y * a.y, x * x, a.x * a.x);
    Times(D, D, x * a.y * (x * a.y), a.x * a.y * (a.x * a.y));
    Plus(1, 1, D * (x * a.y * (x * a.y)), D * (a.x * a.y * (a.x * a.y)));
    Flip(1 + D * (x * a.y * (x * a.y)), 1 + D * (a.x * a.y * (a.x * a.y)));
    Chain(a.y * a.y - x * x, a.y * a.y - a.x * a.x, 1 + D * (a.x * a.y * (a.x * a.y)));
    Chain(a.y * a.y - x * x, 1 + D * (a.x * a.y * (a.x * a.y)), 1 + D * (x * a.y * (x * a.y)));
  }

  lemma NegatedProduct(x: int, y: int)
    ensures -x * y == -(x * y)
  {
  }

  /** -x is congruent to (-a % q) z when x is to a z. */
  lemma NegatedScale(x: int, a: int, z: int)
    requires Cong(x, a * z)
    ensures Cong(-x, -a % Q * z)
  {
    hide Cong;
    Reduced(-a);
    Flip(-a % Q, -a);
    Same(0, 0); Same(z, z);
    Minus(0, 0, x, a * z);
    NegatedProduct(a, z);
    Times(-a, -a % Q, z, z);
    Chain(-x, -a * z, -a % Q * z);
  }

  /** operator- represents the group inverse. */
  lemma NegRepresents(p: Point, a: Affine)
    requires Represents(p, a)
    ensures Represents(Negated(p), Neg(a))
  {
    hide Cong, Unit;
    var z := p.Z();
    NegatedScale(p.x, a.x, z);
    NegatedProduct(p.x, p.y);
    assert Negated(p).T() == -p.T();
    Regroup3(a.x, a.y, z);
    NegatedScale(p.T(), a.x, a.y * z);
    Regroup3(-a.x % Q, a.y, z);
  }

  lemma AddNeg(a: Affine)
    requires FieldFacts() && Member(a)
    ensures Add(a, Neg(a)) == ZERO
  {
    hide Cong, K, OnCurve, Add;
    var b, c := Neg(a), Add(a, Neg(a));
    NegMember(a);
    Complete(a, b);
    AddIsSum(a, b);
    AddReduced(a, b);
    NegSum(a, c);
    ReducedEqual(c.x, 0); ReducedEqual(c.y, 1);
  }

  lemma NegSum(a: Affine, c: Affine)
    requires OnCurve(a) && IsSum(a, Neg(a), c)
    requires Unit(1 + K(a, Neg(a))) && Unit(1 - K(a, Neg(a)))
    ensures Cong(c.x, 0) && Cong(c.y, 1)
  {
    hide Cong, Unit, K;
    var b := Neg(a);
    var k := K(a, b);
    Reduced(-a.x);
    NegCross(a.x, a.y, b.x);
    Chain(c.x * (1 + k), a.x * a.y + a.y * b.x, 0);
    ZeroFactor(1 + k, c.x);
    NegDenominator(a, b);
    NegSquares(a, b.x);
    Chain(c.y * (1 - k), a.y * a.y + a.x * b.x, a.y * a.y - a.x * a.x);
    Chain(c.y * (1 - k), a.y * a.y - a.x * a.x, 1 + D * (a.x * a.y * (a.x * a.y)));
    Flip(1 - k, 1 + D * (a.x * a.y * (a.x * a.y)));
    Chain(c.y * (1 - k), 1 + D * (a.x * a.y * (a.x * a.y)), 1 - k);
    OneFactor(1 - k, c.y);
  }

  lemma ZeroFactor(u: int, c: int)
    requires Unit(u) && Cong(c * u, 0)
    ensures Cong(c, 0)
  {
    hide Cong, Unit;
    assert c * u == u * c && u * 0 == 0;
    Cancel(u, c, 0);
  }

  lemma OneFactor(u: int, c: int)
    requires Unit(u) && Cong(c * u, u)
    ensures Cong(c, 1)
  {
    hide Cong, Unit;
    assert c * u == u * c && u * 1 == u;
    Cancel(u, c, 1);
  }

  lemma NegCross(x: int, y: int, nx: int)
    requires Cong(nx, -x)
    ensures Cong(x * y + y * nx, 0)
  {
    hide Cong;
    Same(y, y); Same(x * y, x * y);
    Times(y, y, nx, -x);
    Plus(x * y, x * y, y * nx, y * -x);
    assert y * -x == -(x * y);
  }

  lemma NegSquares(a: Affine, nx: int)
    requires Cong(nx, -a.x)
    ensures Cong(a.y * a.y + a.x * nx, a.y * a.y - a.x * a.x)
  {
    hide Cong;
    Same(a.x, a.x); Same(a.y * a.y, a.y * a.y);
    Times(a.x, a.x, nx, -a.x);
    Plus(a.y * a.y, a.y * a.y, a.x * nx, a.x * -a.x);
    assert a.x * -a.x == -(a.x * a.x);
  }

  lemma NegDenominator(a: Affine, b: Affine)
    requires b.y == a.y && Cong(b.x, -a.x)
    ensures Cong(1 - K(a, b), 1 + D * (a.x * a.y * (a.x * a.y)))
  {
    hide Cong;
    var yy := a.y * a.y;
    Same(a.x, a.x); Same(yy, yy); Same(D, D); Same(1, 1);
    Times(a.x, a.x, b.x, -a.x);
    Times(a.x * b.x, a.x * -a.x, yy, yy);
    Times(D, D, a.x * b.x * yy, a.x * -a.x * yy);
    Minus(1, 1, K(a, b), D * (a.x * -a.x * yy));
    NegatedSquare(a.x, a.y, D);
  }

  lemma NegatedSquare(x: int, y: int, d: int)
    ensures 1 - d * (x * -x * (y * y)) == 1 + d * (x * y * (x * y))
  {
    Regroup4(x, y, x, y);
    assert x * -x * (y * y) == -(x * x * (y * y)) by { assert x * -x == -(x * x); }
  }
}
