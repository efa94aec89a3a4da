/** Multiples of curve points: the group-level meaning of Mul, MulB and the scalar arithmetic modulo l. */
module ScalarMultiples {
  import opened Field25519
  import opened Edwards
  import opened EdwardsGroup

  // The order of the base point: 2^252 + 27742317777372353535851937790883648493.
  const L: int := 7237005577332262213973186563042994240857116359379907606001950938285454250989

  // The base point: y is 4/5, x the even square root.
  const B := Affine(15112221349535400772501151409588531511454012693041857206046113283949847762202,
    46316835694926478169428394003475163141307993866256225615783033603165251855960)

  lemma BaseMember()
    ensures Member(B) && Cong(5 * B.y, 4)
  {
    var xx, yy, xy := 26187595835145689230469591415084376402084551887632582719101735842039498021991, 37053468555941182535542715202780130513046395093004980492626426882532201484768, 46827403850823179245072216630277197565144205554125654976674165829533817101731;
    CongNumbers(B.x * B.x, xx, 3944643120641682540557488748386534817562863454810087094083181913524639656337);
    CongNumbers(B.y * B.y, yy, 37053468555941182535542715202780130513046395093004980492626426882532201484768);
    CongNumbers(B.x * B.y, xy, 12089777079628320618000921127670825209163210154433485764836890627159878209761);
    CongNumbers(5 * B.y, 4, 4);
    var mm := 30655112042971184558329056706696549839726511367961720624960021019854854290862;
    ConstantIs();
    CongNumbers(xy * xy, mm, 37874880155481576743800675453736195947824682036213940185119870298671986566951);
    CongNumbers(yy - xx, 1 + D * mm, 2389699617674034579849194973603048319328277117397034963620869802842271935060692144);
    ModulusIs();
    hide Cong;
    Minus(B.y * B.y, yy, B.x * B.x, xx);
    Times(B.x * B.y, xy, B.x * B.y, xy);
    Chain(B.x * B.y * (B.x * B.y), xy * xy, mm);
    Same(D, D); Same(1, 1);
    Times(D, D, B.x * B.y * (B.x * B.y), mm);
    Plus(1, 1, D * (B.x * B.y * (B.x * B.y)), D * mm);
    Flip(1 + D * (B.x * B.y * (B.x * B.y)), 1 + D * mm);
    Chain(B.y * B.y - B.x * B.x, yy - xx, 1 + D * mm);
    Chain(B.y * B.y - B.x * B.x, 1 + D * mm, 1 + D * (B.x * B.y * (B.x * B.y)));
  }

  ghost function Smul(n: nat, a: Affine): Affine {
    if n == 0 then ZERO else Add(Smul(n - 1, a), a)
  }

  predicate Members(a: Affine, b: Affine, c: Affine) {
    Member(a) && Member(b) && Member(c)
  }

  /** The facts about the curve group that the code rests on: the addition law is associative on
      curve points, and the base point has order l. */
  ghost predicate GroupFacts() {
    && FieldFacts()
    && (forall a, b, c {:trigger Members(a, b, c)} :: Members(a, b, c) ==> Add(Add(a, b), c) == Add(a, Add(b, c)))
    && Smul(L, B) == ZERO
  }

  lemma Assoc(a: Affine, b: Affine, c: Affine)
    requires GroupFacts() && Member(a) && Member(b) && Member(c)
    ensures Add(Add(a, b), c) == Add(a, Add(b, c))
  {
    hide Add, Member, Smul, FieldFacts;
    assert Members(a, b, c);
  }

  lemma Facts()
    requires GroupFacts()
    ensures FieldFacts() && Smul(L, B) == ZERO && Member(B) && Member(ZERO)
  {
    hide Smul, Add, FieldFacts;
    BaseMember();
    ZeroMember();
  }

  lemma {:induction false} SmulMember(n: nat, a: Affine)
    requires GroupFacts() && Member(a)
    ensures Member(Smul(n, a))
  {
    hide Member, Add, GroupFacts;
    Facts();
    if n > 0 {
      SmulMember(n - 1, a);
      AddMember(Smul(n - 1, a), a);
    }
  }

  lemma ZeroAdd(a: Affine)
    requires Member(a)
    ensures Add(ZERO, a) == a && Add(a, ZERO) == a
  {
    hide Member, Add;
    AddZero(a);
    AddCommutes(a, ZERO);
  }

  lemma {:induction false} SmulAdd(m: nat, n: nat, a: Affine)
    requires GroupFacts() && Member(a)
    ensures Smul(m + n, a) == Add(Smul(m, a), Smul(n, a))
    decreases n
  {
    hide Member, Add, GroupFacts;
    SmulMember(m, a);
    if n == 0 {
      ZeroAdd(Smul(m, a));
    } else {
      SmulMember(n - 1, a);
      SmulAdd(m, n - 1, a);
      Assoc(Smul(m, a), Smul(n - 1, a), a);
    }
  }

  lemma {:induction false} SmulSmul(m: nat, n: nat, a: Affine)
    requires GroupFacts() && Member(a)
    ensures m * n >= 0 && Smul(m * n, a) == Smul(m, Smul(n, a))
    decreases m
  {
    hide Member, Add, GroupFacts;
    if m > 0 {
      SmulSmul(m - 1, n, a);
      assert m * n == (m - 1) * n + n;
      SmulAdd((m - 1) * n, n, a);
    }
  }

  lemma {:induction false} SmulZero(n: nat)
    ensures Smul(n, ZERO) == ZERO
  {
    hide Add;
    if n > 0 {
      SmulZero(n - 1);
      ZeroMember();
      ZeroAdd(ZERO);
    }
  }

  lemma {:induction false} SmulOne(a: Affine)
    requires Member(a)
    ensures Smul(1, a) == a
  {
    hide Member, Add;
    assert Smul(0, a) == ZERO;
    ZeroAdd(a);
  }

  /** Multiples of the base point depend on the scalar modulo l only. */
  lemma {:induction false} SmulModOrder(n: nat)
    requires GroupFacts()
    ensures Smul(n, B) == Smul(n % L, B)
  {
    hide Smul, Member, Add, GroupFacts;
    Facts();
    var q, r := n / L, n % L;
    assert n == q * L + r && q * L >= 0;
    SmulAdd(q * L, r, B);
    SmulSmul(q, L, B);
    SmulZero(q);
    SmulMember(r, B);
    ZeroAdd(Smul(r, B));
  }

  /** Removing m copies and adding m + n leaves n more. */
  lemma SubThenAdd(p: Affine, m: nat, n: nat, a: Affine)
    requires GroupFacts() && Member(p) && Member(a)
    ensures Add(Add(p, Neg(Smul(m, a))), Smul(m + n, a)) == Add(p, Smul(n, a))
  {
    hide Smul, Member, Add, GroupFacts, Neg;
    Facts();
    var s, t := Smul(m, a), Smul(n, a);
    SmulMember(m, a); SmulMember(n, a); SmulMember(m + n, a);
    NegMember(s);
    SmulAdd(m, n, a);
    Assoc(p, Neg(s), Smul(m + n, a));
    Assoc(Neg(s), s, t);
    AddCommutes(Neg(s), s);
    AddNeg(s);
    ZeroAdd(t);
  }

  /** Taking away what was added last. */
  lemma AddThenSub(p: Affine, q: Affine)
    requires GroupFacts() && Member(p) && Member(q)
    ensures Add(Add(p, q), Neg(q)) == p
  {
    hide Member, Add, GroupFacts, Neg;
    Facts();
    NegMember(q);
    Assoc(p, q, Neg(q));
    AddNeg(q);
    ZeroAdd(p);
  }
}
