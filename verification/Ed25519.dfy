/** Scalar multiplication, point encoding, signatures and key blinding of libdotnet/Ed25519.cpp,
    on the extended coordinates of module Edwards. */
module Ed25519 {
  import opened Wrappers
  import opened Bytes
  import opened Field25519
  import opened Edwards
  import opened EdwardsGroup
  import opened ScalarMultiples
  import opened PointCodec

  // ---------------------------------------------------------------------------------------
  // Points that the code computes with
  // ---------------------------------------------------------------------------------------

  /** p stands for the curve point a, and is reduced when it has no z to divide by. */
  ghost predicate Stands(p: Point, a: Affine) {
    Represents(p, a) && Member(a) && (p.z.None? ==> 0 <= p.x < Q && 0 <= p.y < Q)
  }

  lemma SumStands(p: Point, a: Affine, q: Point, b: Affine)
    requires GroupFacts() && Stands(p, a) && Represents(q, b) && Member(b)
    ensures Stands(Sum(p, q), Add(a, b))
  {
    hide Represents, OnCurve, Add, Smul, FieldFacts;
    SumOfMembers(p, a, q, b);
    AddMember(a, b);
    assert Sum(p, q).z.Some?;
  }

  const IDENTITY := Point(0, 1, None, None)

  lemma IdentityStands()
    ensures Stands(IDENTITY, ZERO)
  {
    AffineRepresents(ZERO);
    ZeroMember();
  }

  lemma BaseStands()
    ensures Stands(Point(B.x, B.y, None, None), B)
  {
    BaseMember();
    AffineRepresents(B);
  }

  // ---------------------------------------------------------------------------------------
  // Double-and-add: Ed25519::Mul
  // ---------------------------------------------------------------------------------------

  /** EDDSAPoint as an object: Double overwrites its coordinates. */
  class EDDSAPoint {
    var x: int
    var y: int
    var z: Option<int>
    var t: Option<int>

    constructor (p: Point)
      ensures Value() == p
    {
      x, y, z, t := p.x, p.y, p.z, p.t;
    }

    ghost function Value(): Point
      reads this
    {
      Point(x, y, z, t)
    }

    method Assign(p: Point)
      modifies this
      ensures Value() == p
    {
      x, y, z, t := p.x, p.y, p.z, p.t;
    }

    method Read() returns (p: Point)
      ensures p == Value()
    {
      p := Point(x, y, z, t);
    }
  }

  /** Ed25519::Double, in place. */
  method Double(p: EDDSAPoint)
    modifies p
    ensures p.Value() == Sum(old(p.Value()), old(p.Value()))
  {
    DoubleIsSum(p.Value());
    var x2, y2 := p.x * p.x, p.y * p.y;
    var t := if p.t.Some? then p.t.value else p.x * p.y;
    var t2 := t * t * D;
    var z2 := if p.z.Some? then p.z.value * p.z.value else 1;
    var e := 2 * (p.x * p.y);
    var f, g, h := z2 - t2, z2 + t2, y2 + x2;
    p.x := e * f % Q;
    p.y := g * h % Q;
    p.z := Some(f * g % Q);
    p.t := Some(e * h % Q);
  }

  function NumBits(e: nat): nat {
    if e == 0 then 0 else 1 + NumBits(e / 2)
  }

  lemma {:induction false} NumBitsBound(e: nat)
    ensures e / Pow2(NumBits(e)) == 0
  {
    if e > 0 {
      NumBitsBound(e / 2);
      DivTwice(e, Pow2(NumBits(e / 2)));
    }
  }

  lemma DivTwice(e: nat, p: nat)
    requires p > 0
    ensures e / (2 * p) == e / 2 / p
  {
    var a := e / 2;
    var q, r := a / p, a % p;
    assert e == 2 * (p * q + r) + e % 2;
    assert e == (2 * p) * q + (2 * r + e % 2);
    ModUnique(e, 2 * p, q, 2 * r + e % 2);
  }

  lemma NextBit(e: nat, i: nat)
    ensures e / Pow2(i) == 2 * (e / Pow2(i + 1)) + e / Pow2(i) % 2
  {
    DivTwoWays(e, Pow2(i));
  }

  lemma DivTwoWays(e: nat, p: nat)
    requires p > 0
    ensures e / (2 * p) == e / p / 2
  {
    var a := e / p;
    var q, r := a / 2, a % 2;
    assert e == p * (2 * q + r) + e % p;
    assert p * (2 * q + r) == (2 * p) * q + p * r;
    assert p * r + e % p < 2 * p by { if r == 0 { assert p * r == 0; } else { assert p * r == p; } }
    ModUnique(e, 2 * p, q, p * r + e % p);
  }

  lemma {:induction false} DoubleStep(p: Point, n: nat, a: Affine)
    requires GroupFacts() && Member(a) && Stands(p, Smul(n, a))
    ensures Stands(Sum(p, p), Smul(2 * n, a))
  {
    hide Represents, Add, GroupFacts, Sum, Smul;
    SumStands(p, Smul(n, a), p, Smul(n, a));
    SmulAdd(n, n, a);
    assert n + n == 2 * n;
  }

  lemma AddStep(p: Point, n: nat, q: Point, a: Affine)
    requires GroupFacts() && Member(a) && Represents(q, a) && Stands(p, Smul(n, a))
    ensures Stands(Sum(p, q), Smul(n + 1, a))
  {
    hide Represents, Add, GroupFacts, Sum, Member;
    SumStands(p, Smul(n, a), q, a);
  }

  /** p times e, most significant bit first. */
  method Mul(p: Point, e: nat, ghost a: Affine) returns (res: Point)
    requires GroupFacts() && Represents(p, a) && Member(a)
    ensures Stands(res, Smul(e, a))
  {
    hide *;
    var r := new EDDSAPoint(IDENTITY);
    ghost var v := r.Value();
    NoBitsYet(e, a);
    var i := NumBits(e);
    while i > 0
      invariant r.Value() == v && Stands(v, Smul(e / Pow2(i), a))
    {
      i := i - 1;
      ghost var n := e / Pow2(i + 1);
      NextBit(e, i);
      DoubleStep(v, n, a);
      Double(r);
      v := Sum(v, v);
      if e / Pow2(i) % 2 == 1 {
        AddStep(v, 2 * n, p, a);
        var value := r.Read();
        v := Sum(v, p);
        r.Assign(Sum(value, p));
      }
    }
    AllBits(e);
    res := r.Read();
  }

  lemma {:induction false} NoBitsYet(e: nat, a: Affine)
    ensures Stands(IDENTITY, Smul(e / Pow2(NumBits(e)), a))
  {
    hide Stands;
    NumBitsBound(e);
    IdentityStands();
    assert Smul(0, a) == ZERO;
  }

  lemma AllBits(e: nat)
    ensures e / Pow2(0) == e
  {
    assert Pow2(0) == 1;
  }

  // ---------------------------------------------------------------------------------------
  // The table of multiples and MulB
  // ---------------------------------------------------------------------------------------

  /** m * 256^i * B */
  ghost function Multiple(m: nat, i: nat): Affine {
    ShiftMono(0, m, i);
    ShiftZeroOne(i);
    Smul(Shift(m, i), B)
  }

  lemma MultipleAdd(m: nat, n: nat, i: nat)
    requires GroupFacts()
    ensures Multiple(m + n, i) == Add(Multiple(m, i), Multiple(n, i))
  {
    hide GroupFacts, Smul, Add, Member;
    Facts();
    ShiftMono(0, m, i); ShiftMono(0, n, i); ShiftZeroOne(i);
    ShiftAdd(m, n, i);
    SmulAdd(Shift(m, i), Shift(n, i), B);
  }

  lemma MultipleCarry(i: nat)
    ensures Multiple(256, i) == Multiple(1, i + 1)
  {
    ShiftOnce(1, i);
  }

  /** bi256[i, j] stands for (j+1) * 256^i * B. */
  ghost predicate Row(bi256: array2<Point>, i: nat, n: nat)
    requires bi256.Length0 == 32 && bi256.Length1 == 128 && i < 32 && n <= 128
    reads bi256
  {
    forall j :: 0 <= j < n ==> Stands(bi256[i, j], Multiple(j + 1, i))
  }

  ghost predicate Table(bi256: array2<Point>)
    reads bi256
  {
    bi256.Length0 == 32 && bi256.Length1 == 128 && forall i :: 0 <= i < 32 ==> Row(bi256, i, 128)
  }

  /** The table loop of the constructor: the running point steps from 256^i * B to 256^(i+1) * B. */
  method BuildTable(bi256: array2<Point>) returns (carry: Point)
    requires GroupFacts() && bi256.Length0 == 32 && bi256.Length1 == 128
    modifies bi256
    ensures Table(bi256) && Stands(carry, Multiple(1, 32))
  {
    hide Stands, GroupFacts, Smul, Shift, Sum;
    carry := Point(B.x, B.y, None, None);
    BaseIsFirst();
    for i := 0 to 32
      invariant Stands(carry, Multiple(1, i))
      invariant forall k :: 0 <= k < i ==> Row(bi256, k, 128)
    {
      label L:
      carry := BuildRow(bi256, i, carry);
      forall k | 0 <= k < i ensures Row(bi256, k, 128) {
        assert old@L(Row(bi256, k, 128));
        assert forall j :: 0 <= j < 128 ==> bi256[k, j] == old@L(bi256[k, j]);
      }
    }
  }

  lemma BaseIsFirst()
    requires GroupFacts()
    ensures Stands(Point(B.x, B.y, None, None), Multiple(1, 0))
  {
    hide Stands, Add, GroupFacts;
    BaseStands();
    Facts();
    SmulOne(B);
    assert Shift(1, 0) == 1;
  }

  /** One more copy of 256^i * B. */
  lemma OneMore(p: Point, m: nat, first: Point, i: nat)
    requires GroupFacts() && Stands(p, Multiple(m, i)) && Stands(first, Multiple(1, i))
    ensures Stands(Sum(p, first), Multiple(m + 1, i))
  {
    hide Represents, Member, Add, GroupFacts, Multiple, Sum;
    var a, b := Multiple(m, i), Multiple(1, i);
    SumStands(p, a, first, b);
    MultipleAdd(m, 1, i);
    assert Multiple(m + 1, i) == Add(a, b);
  }

  method BuildRow(bi256: array2<Point>, i: nat, first: Point) returns (carry: Point)
    requires GroupFacts() && bi256.Length0 == 32 && bi256.Length1 == 128 && i < 32
    requires Stands(first, Multiple(1, i))
    modifies bi256
    ensures Row(bi256, i, 128) && Stands(carry, Multiple(1, i + 1))
    ensures forall k, j :: 0 <= k < 32 && k != i && 0 <= j < 128 ==> bi256[k, j] == old(bi256[k, j])
  {
    hide Stands, GroupFacts, Multiple, Sum;
    bi256[i, 0] := first;
    for j := 1 to 128
      invariant bi256[i, 0] == first && Row(bi256, i, j)
      invariant forall k, l :: 0 <= k < 32 && k != i && 0 <= l < 128 ==> bi256[k, l] == old(bi256[k, l])
    {
      label L:
      assert Stands(bi256[i, j - 1], Multiple(j - 1 + 1, i));
      OneMore(bi256[i, j - 1], j, first, i);
      bi256[i, j] := Sum(bi256[i, j - 1], bi256[i, 0]);
      forall l | 0 <= l < j + 1 ensures Stands(bi256[i, l], Multiple(l + 1, i)) {
        if l < j { assert bi256[i, l] == old@L(bi256[i, l]); }
      }
    }
    assert Stands(bi256[i, 127], Multiple(127 + 1, i));
    carry := StepUp(bi256[i, 127], bi256[i, 0], i);
  }

  /** Add the first point of a row 128 more times to its last. */
  method StepUp(last: Point, first: Point, i: nat) returns (carry: Point)
    requires GroupFacts() && Stands(last, Multiple(128, i)) && Stands(first, Multiple(1, i))
    ensures Stands(carry, Multiple(1, i + 1))
  {
    hide Stands, GroupFacts, Multiple, Sum;
    carry := last;
    for j := 128 to 256
      invariant Stands(carry, Multiple(j, i))
    {
      OneMore(carry, j, first, i);
      carry := Sum(carry, first);
    }
    MultipleCarry(i);
  }

  /** The signed digit and carry that MulB makes of one byte and the incoming carry. */
  function Digit(x: byte, carry: bool): (d: int)
    ensures -127 <= d <= 128
    ensures x + (if carry then 1 else 0) == d + (if CarryOut(x, carry) then 256 else 0)
  {
    var t := x + (if carry then 1 else 0);
    if t <= 128 then t else t - 256
  }

  function CarryOut(x: byte, carry: bool): bool {
    x + (if carry then 1 else 0) > 128
  }

  function Bit(b: bool): nat { if b then 1 else 0 }

  /** What MulB has accumulated after i bytes: together with the pending carry it is e[..i] * B. */
  ghost predicate Accumulated(acc: Affine, carry: bool, e: seq<byte>, i: nat)
    requires i <= |e|
  {
    LEBound(e[..i]);
    Member(acc) && Add(acc, Multiple(Bit(carry), i)) == Smul(LE(e[..i]), B)
  }

  /** acc moved by the signed digit d. */
  ghost function Moved(acc: Affine, d: int, i: nat): Affine {
    if d == 0 then acc else if d > 0 then Add(acc, Multiple(d, i)) else Add(acc, Neg(Multiple(-d, i)))
  }

  lemma MultipleMember(m: nat, i: nat)
    requires GroupFacts()
    ensures Member(Multiple(m, i))
  {
    hide GroupFacts, Smul, Member;
    Facts();
    ShiftMono(0, m, i); ShiftZeroOne(i);
    SmulMember(Shift(m, i), B);
  }

  lemma MultipleZero(i: nat)
    ensures Multiple(0, i) == ZERO
  {
    ShiftZeroOne(i);
  }

  lemma MultipleSub(acc: Affine, m: nat, n: nat, i: nat)
    requires GroupFacts() && Member(acc)
    ensures Add(Add(acc, Neg(Multiple(m, i))), Multiple(m + n, i)) == Add(acc, Multiple(n, i))
  {
    hide GroupFacts, Smul, Member, Add, Neg;
    Facts();
    ShiftMono(0, m, i); ShiftMono(0, n, i); ShiftZeroOne(i);
    ShiftAdd(m, n, i);
    SubThenAdd(acc, Shift(m, i), Shift(n, i), B);
  }

  lemma AddMultiples(acc: Affine, m: nat, n: nat, i: nat)
    requires GroupFacts() && Member(acc)
    ensures Add(Add(acc, Multiple(m, i)), Multiple(n, i)) == Add(acc, Multiple(m + n, i))
  {
    hide GroupFacts, Multiple, Member, Add;
    MultipleMember(m, i); MultipleMember(n, i);
    Assoc(acc, Multiple(m, i), Multiple(n, i));
    MultipleAdd(m, n, i);
  }

  lemma MovedMember(acc: Affine, d: int, i: nat)
    requires GroupFacts() && Member(acc)
    ensures Member(Moved(acc, d, i))
  {
    hide GroupFacts, Multiple, Member, Add, Neg;
    Facts();
    if d > 0 {
      MultipleMember(d, i);
      AddMember(acc, Multiple(d, i));
    } else if d < 0 {
      MultipleMember(-d, i);
      NegMember(Multiple(-d, i));
      AddMember(acc, Neg(Multiple(-d, i)));
    }
  }

  /** The signed digit and its carry together add the unsigned amount. */
  lemma MovedThenCarry(acc: Affine, d: int, out: bool, i: nat)
    requires GroupFacts() && Member(acc) && d + 256 * Bit(out) >= 0 && d > -256
    ensures Add(Moved(acc, d, i), Multiple(256 * Bit(out), i)) == Add(acc, Multiple(d + 256 * Bit(out), i))
  {
    hide GroupFacts, Multiple, Member, Add, Neg;
    if d > 0 {
      AddMultiples(acc, d, 256 * Bit(out), i);
    } else if d < 0 {
      MultipleSub(acc, -d, d + 256, i);
    }
  }

  lemma MovedAccumulates(acc: Affine, carry: bool, e: seq<byte>, i: nat)
    requires GroupFacts() && i < |e| && Accumulated(acc, carry, e, i)
    ensures Accumulated(Moved(acc, Digit(e[i], carry), i), CarryOut(e[i], carry), e, i + 1)
  {
    hide GroupFacts, Multiple, Member, Add, Neg, Moved, Smul;
    var d, out := Digit(e[i], carry), CarryOut(e[i], carry);
    MovedMember(acc, d, i);
    MovedThenCarry(acc, d, out, i);
    CarryScales(out, i);
    AddMultiples(acc, Bit(carry), e[i], i);
    NextByte(e, i);
  }

  lemma CarryScales(out: bool, i: nat)
    ensures Multiple(256 * Bit(out), i) == Multiple(Bit(out), i + 1)
  {
    MultipleCarry(i);
    MultipleZero(i); MultipleZero(i + 1);
  }

  lemma NextByte(e: seq<byte>, i: nat)
    requires GroupFacts() && i < |e|
    ensures LE(e[..i]) >= 0 && LE(e[..i + 1]) >= 0
    ensures Smul(LE(e[..i + 1]), B) == Add(Smul(LE(e[..i]), B), Multiple(e[i], i))
  {
    hide GroupFacts, Smul, Member, Add, Shift, LE;
    Facts();
    LEBound(e[..i]); LEBound(e[..i + 1]);
    LEStep(e, i);
    ShiftMono(0, e[i], i); ShiftZeroOne(i);
    SmulAdd(LE(e[..i]), Shift(e[i], i), B);
  }

  // ---------------------------------------------------------------------------------------
  // The constants
  // ---------------------------------------------------------------------------------------

  lemma {:induction false} OrderIs()
    ensures L == Pow2(252) + 27742317777372353535851937790883648493
  {
    Pow2Byte();
    hide Pow2;
    Pow2Add(32, 32); Pow2Add(64, 64); Pow2Add(128, 64); Pow2Add(192, 32); Pow2Add(224, 16); Pow2Add(240, 8);
    Pow2Add(248, 4);
    FourBits();
  }

  lemma {:induction false} FourBits()
    ensures Pow2(4) == 16
  {
  }

  /** The base point of section 5.1 of RFC 8032 encodes as 58 66 66 .. 66. */
  lemma {:induction false} BaseEncodes()
    ensures EncodePoint(B) == [0x58] + seq(31, _ => 0x66)
  {
    hide LE, ToLE, Pow256;
    var s: seq<byte> := [0x58] + seq(31, _ => 0x66);
    assert s[..32] == s;
    Repeated(s, 32);
    BaseMember();
    EncodingIs(B);
    Pow256Values();
    assert 5 * B.y == 2 * Pow256(32) - 72;
    assert B.x % 2 == 0;
    LEInjective(s, EncodePoint(B));
  }

  lemma {:induction false} Repeated(s: seq<byte>, n: nat)
    requires 1 <= n <= |s| && s[0] == 0x58 && forall i :: 1 <= i < |s| ==> s[i] == 0x66
    ensures 5 * LE(s[..n]) == 2 * Pow256(n) - 72
  {
    if n == 1 {
      LEStep(s, 0);
      assert s[..0] == [];
    } else {
      Repeated(s, n - 1);
      LEStep(s, n - 1);
      ShiftIsProduct(0x66, n - 1);
    }
  }

  // ---------------------------------------------------------------------------------------
  // The class: table, signatures, blinding
  // ---------------------------------------------------------------------------------------

  /** The signature equation: sig is accepted for digest under public key point a. */
  ghost predicate Accepts(a: Affine, digest: seq<byte>, sig: seq<byte>)
    requires |digest| == 64 && |sig| == 64
  {
    LEBound(digest); LEBound(sig[32..]);
    EncodesTo(Add(Smul(LE(sig[32..]), B), Neg(Smul(LE(digest) % L, a))), sig[..32])
  }

  /** What acceptance means: S B == R + h A, where R is the point that the first half encodes. */
  lemma AcceptsMeans(a: Affine, digest: seq<byte>, sig: seq<byte>)
    requires GroupFacts() && Member(a) && |digest| == 64 && |sig| == 64
    ensures 0 <= LE(digest) && 0 <= LE(sig[32..])
    ensures Accepts(a, digest, sig)
      <==> exists r :: EncodesTo(r, sig[..32]) && Smul(LE(sig[32..]), B) == Add(r, Smul(LE(digest) % L, a))
  {
    hide GroupFacts, Member, Smul, Add, Neg, LE, EncodesTo;
    LEBound(digest); LEBound(sig[32..]);
    Facts();
    SmulMember(LE(sig[32..]), B);
    CommitmentIs(Smul(LE(sig[32..]), B), LE(digest) % L, a, sig[..32]);
  }

  lemma CommitmentIs(s: Affine, h: nat, a: Affine, buf: seq<byte>)
    requires GroupFacts() && Member(s) && Member(a)
    ensures EncodesTo(Add(s, Neg(Smul(h, a))), buf) <==> exists r :: EncodesTo(r, buf) && s == Add(r, Smul(h, a))
  {
    hide GroupFacts, Member, Smul, Add, Neg, EncodesTo;
    var t := Smul(h, a);
    SmulMember(h, a);
    SubThenAdd(s, h, 0, a);
    MultipleOfNone(a); ZeroAdd(s);
    assert Add(Add(s, Neg(t)), t) == s;
    forall r | EncodesTo(r, buf) && s == Add(r, t) ensures Add(s, Neg(t)) == r {
      EncodesMember(r, buf);
      AddThenSub(r, t);
    }
  }

  lemma {:induction false} MultipleOfNone(a: Affine)
    ensures Smul(0, a) == ZERO
  {
  }

  lemma EncodesMember(a: Affine, buf: seq<byte>)
    requires EncodesTo(a, buf)
    ensures Member(a)
  {
  }

  ghost predicate EncodesTo(a: Affine, buf: seq<byte>) {
    Member(a) && buf == EncodePoint(a)
  }

  class Ed25519 {
    const bi256: array2<Point>
    const bi256Carry: Point
    const modInverse: int -> int          // BN_mod_inverse modulo q
    const sha512: seq<byte> -> seq<byte>

    ghost predicate Valid()
      reads bi256
    {
      Table(bi256) && Stands(bi256Carry, Multiple(1, 32)) && Primitives(modInverse, sha512)
    }

    constructor (inverse: int -> int, hash: seq<byte> -> seq<byte>)
      requires GroupFacts() && Primitives(inverse, hash)
      ensures Valid() && fresh(bi256) && modInverse == inverse && sha512 == hash
    {
      hide Table, GroupFacts, Stands, Primitives;
      modInverse, sha512 := inverse, hash;
      var table := new Point[32, 128]((_, _) => IDENTITY);
      var carry := BuildTable(table);
      bi256, bi256Carry := table, carry;
    }

    method MulB(e: seq<byte>) returns (res: Point)
      requires Valid() && GroupFacts() && |e| == 32
      ensures LE(e) >= 0 && Stands(res, Smul(LE(e), B))
    {
      hide GroupFacts, Stands, Multiple, Accumulated, Moved, LE, Smul, Sum, Digit, CarryOut, Primitives, Table, Add;
      res := IDENTITY;
      var carry := false;
      ghost var acc := ZERO;
      NothingAccumulated(e);
      for i := 0 to 32
        invariant Stands(res, acc) && Accumulated(acc, carry, e, i)
      {
        MovedAccumulates(acc, carry, e, i);
        ghost var next := Moved(acc, Digit(e[i], carry), i);
        res, carry := AddByte(e[i], carry, i, res, acc);
        acc := next;
      }
      AllAccumulated(acc, carry, e);
      if carry {
        AddStands(res, acc, bi256Carry, Multiple(1, 32));
        res := Sum(res, bi256Carry);
      }
    }

    /** One byte of MulB. */
    method AddByte(b: byte, carry: bool, i: nat, point: Point, ghost acc: Affine) returns (res: Point, out: bool)
      requires Valid() && GroupFacts() && i < 32 && Stands(point, acc)
      ensures Stands(res, Moved(acc, Digit(b, carry), i)) && out == CarryOut(b, carry)
    {
      hide GroupFacts, Stands, Multiple, Sum, Primitives, Table, Negated, Add, Neg;
      var x := b;
      res, out := point, carry;
      if out {
        if x < 255 {
          x := x + 1;
          out := false;
        } else {
          x := 0;
        }
      }
      if x > 0 {
        if x <= 128 {
          Entry(bi256, i, x - 1);
          AddStands(res, acc, bi256[i, x - 1], Multiple(x - 1 + 1, i));
          res := Sum(res, bi256[i, x - 1]);
        } else {
          Entry(bi256, i, 255 - x);
          Subtract(res, acc, bi256[i, 255 - x], Multiple(255 - x + 1, i));
          res := Sum(res, Negated(bi256[i, 255 - x]));
          out := true;
        }
      }
    }

    /** EncodePoint (Normalize (p)). */
    method Encode(p: Point, ghost a: Affine) returns (buf: seq<byte>)
      requires Valid() && Stands(p, a)
      ensures EncodesTo(a, buf) && |buf| == 32
    {
      hide EncodePoint, Table, Multiple;
      NormalizeRepresents(p, a, modInverse);
      buf := EncodePoint(Normalize(p, modInverse));
    }

    /** DecodeBN<len>: least significant byte first. */
    function DecodeBN(buf: seq<byte>): (n: nat) {
      LEBound(buf);
      LE(buf)
    }

    method Verify(publicKey: Point, digest: seq<byte>, signature: seq<byte>, ghost a: Affine) returns (passed: bool)
      requires Valid() && GroupFacts() && |digest| == 64 && |signature| == 64
      requires Represents(publicKey, a) && Member(a)
      ensures passed <==> Accepts(a, digest, signature)
    {
      hide GroupFacts, Stands, Represents, Member, Add, Neg, Smul, Table, Multiple, Primitives, LE, EncodePoint;
      var h := DecodeBN(digest);
      var Bs := MulB(signature[32..]);
      h := h % L;
      var PKh := Mul(publicKey, h, a);
      ghost var s, t := Smul(LE(signature[32..]), B), Smul(h, a);
      Subtract(Bs, s, PKh, t);
      var diff := Encode(Sum(Bs, Negated(PKh)), Add(s, Neg(t)));
      passed := signature[..32] == diff;
    }

    /** Both signers: commit to r, then answer r + h a. */
    method Answer(r: nat, digest: seq<byte>, privateKey: seq<byte>, publicKeyEncoded: seq<byte>, buf: seq<byte>)
        returns (signature: seq<byte>)
      requires Valid() && GroupFacts() && |digest| == 32 && LE(digest) == r && |privateKey| == 32
      ensures |signature| == 64 && EncodesTo(Smul(r, B), signature[..32])
      ensures signature[32..]
           == ToLE((DecodeBN(sha512(signature[..32] + publicKeyEncoded + buf)) * DecodeBN(privateKey) + r) % L, 32)
    {
      hide GroupFacts, Stands, Smul, Table, Multiple, Primitives, LE, EncodesTo, ToLE;
      var commitment := MulB(digest);
      var R := Encode(commitment, Smul(r, B));
      var h := DecodeBN(sha512(R + publicKeyEncoded + buf));
      var a := DecodeBN(privateKey);
      Response(h, a, r);
      h := (h * a) % L;
      h := (h + r) % L;
      signature := R + ToLE(h, 32);
      assert signature[..32] == R && signature[32..] == ToLE(h, 32);
    }

    method Sign(expandedPrivateKey: seq<byte>, publicKeyEncoded: seq<byte>, buf: seq<byte>) returns (signature: seq<byte>)
      requires Valid() && GroupFacts() && |expandedPrivateKey| == 64
      ensures |signature| == 64
      ensures EncodesTo(Smul(DecodeBN(sha512(expandedPrivateKey[32..] + buf)[..32]), B), signature[..32])
      ensures var h := DecodeBN(sha512(signature[..32] + publicKeyEncoded + buf));
        signature[32..] == ToLE((h * DecodeBN(expandedPrivateKey[..32]) + DecodeBN(sha512(expandedPrivateKey[32..] + buf)[..32])) % L, 32)
      ensures var digest := sha512(signature[..32] + publicKeyEncoded + buf);
        |digest| == 64 && Accepts(Smul(DecodeBN(expandedPrivateKey[..32]), B), digest, signature)
    {
      hide GroupFacts, Stands, Smul, Table, Multiple, LE, EncodesTo, ToLE;
      var digest := sha512(expandedPrivateKey[32..] + buf)[..32];
      var r := DecodeBN(digest);
      signature := Answer(r, digest, expandedPrivateKey[..32], publicKeyEncoded, buf);
      VerifyAccepts(expandedPrivateKey[..32], publicKeyEncoded, buf, signature, r);
    }

    /** T is the 80 random bytes. */
    method SignRedDSA(privateKey: seq<byte>, publicKeyEncoded: seq<byte>, buf: seq<byte>, T: seq<byte>)
        returns (signature: seq<byte>)
      requires Valid() && GroupFacts() && |privateKey| == 32
      ensures |signature| == 64
      ensures EncodesTo(Smul(DecodeBN(sha512(T + publicKeyEncoded + buf)) % L, B), signature[..32])
      ensures var h := DecodeBN(sha512(signature[..32] + publicKeyEncoded + buf));
        signature[32..] == ToLE((h * DecodeBN(privateKey) + DecodeBN(sha512(T + publicKeyEncoded + buf)) % L) % L, 32)
      ensures var digest := sha512(signature[..32] + publicKeyEncoded + buf);
        |digest| == 64 && Accepts(Smul(DecodeBN(privateKey), B), digest, signature)
    {
      hide GroupFacts, Stands, Smul, Table, Multiple, LE, EncodesTo, ToLE;
      var r := DecodeBN(sha512(T + publicKeyEncoded + buf));
      r := r % L;
      ScalarFits(r);
      signature := Answer(r, ToLE(r, 32), privateKey, publicKeyEncoded, buf);
      VerifyAccepts(privateKey, publicKeyEncoded, buf, signature, r);
    }

    /** Every signature made with secret a is accepted under the public key a * B, whatever r was. */
    lemma {:induction false} VerifyAccepts(privateKey: seq<byte>, publicKeyEncoded: seq<byte>, buf: seq<byte>, signature: seq<byte>, r: nat)
      requires Valid() && GroupFacts() && |signature| == 64
      requires EncodesTo(Smul(r, B), signature[..32])
      requires signature[32..]
            == ToLE((DecodeBN(sha512(signature[..32] + publicKeyEncoded + buf)) * DecodeBN(privateKey) + r) % L, 32)
      ensures |sha512(signature[..32] + publicKeyEncoded + buf)| == 64
      ensures Accepts(Smul(DecodeBN(privateKey), B), sha512(signature[..32] + publicKeyEncoded + buf), signature)
    {
      hide GroupFacts, Stands, Smul, Table, Multiple, LE, EncodesTo, ToLE, Add, Neg;
      var digest := sha512(signature[..32] + publicKeyEncoded + buf);
      var h, a := DecodeBN(digest), DecodeBN(privateKey);
      var s := (h * a + r) % L;
      assert h * a >= 0 by { MulMono(0, h, a); }
      ScalarFits(s);
      SignatureEquation(h, a, r, h * a);
    }

    /** A + alpha B, with alpha the seed modulo l; pub must encode a curve point. */
    method BlindPublicKey(pub: seq<byte>, seed: seq<byte>, ghost a: Affine) returns (blinded: seq<byte>)
      requires Valid() && GroupFacts() && |seed| == 64 && EncodesTo(a, pub)
      ensures EncodesTo(Add(a, Smul(DecodeBN(seed) % L, B)), blinded) && |blinded| == 32
    {
      hide GroupFacts, Stands, Smul, Table, Multiple, LE, ToLE, Add, Member, Represents, DecodePoint, EncodePoint;
      var alpha := DecodeBN(seed) % L;
      var priv := ToLE(alpha, 32);
      ScalarFits(alpha);
      DecodedKey(pub, a);
      var shift := MulB(priv);
      var A := DecodePoint(pub, modInverse);
      AddStands(A, a, shift, Smul(alpha, B));
      blinded := Encode(Sum(A, shift), Add(a, Smul(alpha, B)));
    }

    lemma DecodedKey(pub: seq<byte>, a: Affine)
      requires Valid() && GroupFacts() && EncodesTo(a, pub)
      ensures |pub| == 32 && Stands(DecodePoint(pub, modInverse), a)
    {
      hide GroupFacts, Smul, Table, Multiple, DecodePoint, EncodePoint, OnCurve;
      Facts();
      DecodeEncode(a, modInverse);
    }

    method BlindPrivateKey(priv: seq<byte>, seed: seq<byte>) returns (blindedPriv: seq<byte>, blindedPub: seq<byte>)
      requires Valid() && GroupFacts() && |seed| == 64 && |priv| == 32
      ensures |blindedPriv| == 32 && DecodeBN(blindedPriv) == (DecodeBN(seed) % L + DecodeBN(priv)) % L
      ensures EncodesTo(Smul(DecodeBN(blindedPriv), B), blindedPub) && |blindedPub| == 32
    {
      hide GroupFacts, Stands, Smul, Table, Multiple, LE, ToLE, EncodesTo;
      var alpha := DecodeBN(seed) % L;
      var p := DecodeBN(priv);
      alpha := (alpha + p) % L;
      ScalarFits(alpha);
      blindedPriv := ToLE(alpha, 32);
      var A := MulB(blindedPriv);
      blindedPub := Encode(A, Smul(alpha, B));
    }

    /** The two blindings of one key pair meet: the public one gives the key of the private one. */
    lemma BlindingsAgree(priv: seq<byte>, seed: seq<byte>)
      requires GroupFacts() && |seed| == 64
      ensures Add(Smul(DecodeBN(priv), B), Smul(DecodeBN(seed) % L, B))
           == Smul((DecodeBN(seed) % L + DecodeBN(priv)) % L, B)
    {
      hide GroupFacts, Smul, LE, Member, Add;
      Facts();
      SmulAdd(DecodeBN(priv), DecodeBN(seed) % L, B);
      SmulModOrder(DecodeBN(priv) + DecodeBN(seed) % L);
    }
  }

  /** A scalar below l survives its 32-byte encoding. */
  lemma {:induction false} ScalarFits(n: nat)
    requires n < L
    ensures LE(ToLE(n, 32)) == n
  {
    hide LE, ToLE, Pow256;
    LEToLE(n, 32);
    Pow256Values();
    ModUnique(n, Pow256(32), 0, n);
  }

  /** The reductions modulo l of BN_mod_mul and BN_mod_add. */
  lemma Response(h: nat, a: nat, r: nat)
    ensures ((h * a) % L + r) % L == (h * a + r) % L
  {
    var n := h * a;
    MulMono(0, h, a);
    var q := n / L;
    ModUnique(n + r, L, q + (n % L + r) / L, (n % L + r) % L);
  }

  lemma {:induction false} PublicSide(h: nat, a: nat, n: nat)
    requires GroupFacts() && n == h * a
    ensures Smul(h % L, Smul(a, B)) == Smul(n, B)
  {
    hide GroupFacts, Smul, Member;
    Facts();
    MulMono(0, h, a); MulMono(0, h % L, a);
    SmulSmul(h % L, a, B);
    SmulModOrder(n); SmulModOrder(h % L * a);
    SameResidue(h, a);
  }

  /** (h a + r) B - (h mod l) (a B) == r B. */
  lemma SignatureEquation(h: nat, a: nat, r: nat, n: nat)
    requires GroupFacts() && n == h * a
    ensures Add(Smul((n + r) % L, B), Neg(Smul(h % L, Smul(a, B)))) == Smul(r, B)
  {
    hide *;
    PublicSide(h, a, n);
    CancelSecret(r, n);
  }

  lemma {:induction false} CancelSecret(r: nat, n: nat)
    requires GroupFacts()
    ensures Add(Smul((n + r) % L, B), Neg(Smul(n, B))) == Smul(r, B)
  {
    hide GroupFacts, Smul, Add, Neg, Member;
    Facts();
    SmulModOrder(n + r);
    SmulAdd(r, n, B);
    SmulMember(r, B); SmulMember(n, B);
    AddThenSub(Smul(r, B), Smul(n, B));
  }

  lemma SameResidue(h: nat, a: nat)
    ensures (h % L * a) % L == (h * a) % L
  {
    var q := h / L;
    calc {
      h * a;
      (L * q + h % L) * a;
      L * (q * a) + h % L * a;
    }
    ModUnique(h * a, L, q * a + (h % L * a) / L, (h % L * a) % L);
  }

  ghost predicate Primitives(inverse: int -> int, hash: seq<byte> -> seq<byte>) {
    ModInverse(inverse) && forall m :: |hash(m)| == 64
  }

  lemma Entry(bi256: array2<Point>, i: nat, j: nat)
    requires Table(bi256) && i < 32 && j < 128
    ensures bi256.Length0 == 32 && bi256.Length1 == 128
    ensures Stands(bi256[i, j], Multiple(j + 1, i))
  {
    hide Stands, Multiple;
    assert Row(bi256, i, 128);
  }

  lemma Subtract(p: Point, acc: Affine, q: Point, b: Affine)
    requires GroupFacts() && Stands(p, acc) && Stands(q, b)
    ensures Stands(Sum(p, Negated(q)), Add(acc, Neg(b)))
  {
    hide GroupFacts, Represents, Member, Sum, Add, Neg, Negated;
    NegRepresents(q, b);
    NegMember(b);
    SumStands(p, acc, Negated(q), Neg(b));
  }

  lemma AddStands(p: Point, acc: Affine, q: Point, b: Affine)
    requires GroupFacts() && Stands(p, acc) && Stands(q, b)
    ensures Stands(Sum(p, q), Add(acc, b))
  {
    hide GroupFacts, Represents, Member, Sum, Add;
    SumStands(p, acc, q, b);
  }

  lemma NothingAccumulated(e: seq<byte>)
    ensures Stands(IDENTITY, ZERO) && Accumulated(ZERO, false, e, 0)
  {
    hide Stands, Add, Multiple;
    IdentityStands();
    ZeroMember();
    ZeroAdd(ZERO);
    MultipleZero(0);
    assert e[..0] == [];
    assert LE([]) == 0;
    assert Smul(0, B) == ZERO;
  }

  lemma {:induction false} AllAccumulated(acc: Affine, carry: bool, e: seq<byte>)
    requires |e| == 32 && Accumulated(acc, carry, e, 32)
    ensures LE(e) >= 0 && Member(acc)
    ensures Smul(LE(e), B) == if carry then Add(acc, Multiple(1, 32)) else acc
  {
    hide Add, Multiple, Member, Smul, LE;
    LEBound(e);
    assert e[..32] == e;
    if !carry {
      MultipleZero(32);
      ZeroAdd(acc);
    }
  }
}
