/** ElGamal encryption of libdotnet/Crypto.cpp, with the windowed table of powers in Montgomery form.
    BIGNUM operations are arithmetic on naturals. */
module ElGamal {
  import opened Wrappers
  import opened Bytes

  type Hash = s: seq<byte> | |s| == 32 witness Zeros(32)

  /** The 2048-bit modulus, the generator, and the Montgomery radix with its inverse. */
  datatype Group = Group(p: nat, g: nat, r: nat, rInverse: nat)

  function Power(b: nat, e: nat): (x: nat) {
    if e == 0 then 1 else b * Power(b, e - 1)
  }

  /** Facts about the constants: p takes 256 bytes, g^(p-1) is one (Fermat), r has its inverse. */
  predicate Sound(G: Group) {
    && Pow256(255) < G.p < Pow256(256)
    && Power(G.g, G.p - 1) % G.p == 1
    && G.r * G.rInverse % G.p == 1
  }

  // ---------------------------------------------------------------------------------------
  // Powers modulo p
  // ---------------------------------------------------------------------------------------

  predicate Same(a: nat, b: nat, p: nat)
    requires p > 0
  {
    a % p == b % p
  }

  lemma SameTimes(a: nat, b: nat, c: nat, d: nat, p: nat)
    requires p > 0 && Same(a, b, p) && Same(c, d, p)
    ensures Same(a * c, b * d, p)
  {
    TimesMod(a, c, p);
    TimesMod(b, d, p);
  }

  lemma TimesMod(a: nat, c: nat, p: nat)
    requires p > 0
    ensures a * c % p == (a % p) * (c % p) % p
  {
    var i, x, j, y := a / p, a % p, c / p, c % p;
    var q, r := x * y / p, x * y % p;
    calc {
      a * c;
      (p * i + x) * (p * j + y);
      { ExpandProduct(p, i, x, j, y); }
      p * (i * (p * j + y) + x * j) + x * y;
      { Regroup(p, i * (p * j + y) + x * j, q, r); }
      p * (i * (p * j + y) + x * j + q) + r;
    }
    ModUnique(a * c, p, i * (p * j + y) + x * j + q, r);
  }

  lemma ExpandProduct(p: int, i: int, x: int, j: int, y: int)
    ensures (p * i + x) * (p * j + y) == p * (i * (p * j + y) + x * j) + x * y
  {
    var c := p * j + y;
    assert (p * i + x) * c == p * i * c + x * c;
    assert x * c == p * (x * j) + x * y;
    assert p * i * c == p * (i * c);
  }

  lemma Regroup(p: int, m: int, q: int, r: int)
    ensures p * m + (p * q + r) == p * (m + q) + r
  {
  }

  lemma Reduced(a: nat, p: nat)
    requires p > 0
    ensures Same(a % p, a, p)
  {
    ModUnique(a % p, p, 0, a % p);
  }

  lemma {:induction false} PowerAdd(b: nat, m: nat, n: nat)
    ensures Power(b, m + n) == Power(b, m) * Power(b, n)
    decreases m
  {
    if m > 0 {
      PowerAdd(b, m - 1, n);
      assert b * (Power(b, m - 1) * Power(b, n)) == b * Power(b, m - 1) * Power(b, n);
    }
  }

  lemma {:induction false} PowerPower(b: nat, m: nat, n: nat)
    ensures Power(Power(b, m), n) == Power(b, m * n)
    decreases n
  {
    if n > 0 {
      PowerPower(b, m, n - 1);
      PowerAdd(b, m, m * (n - 1));
      assert m + m * (n - 1) == m * n;
    } else {
      assert m * n == 0;
    }
  }

  lemma {:induction false} PowerSame(a: nat, b: nat, n: nat, p: nat)
    requires p > 0 && Same(a, b, p)
    ensures Same(Power(a, n), Power(b, n), p)
  {
    if n > 0 {
      PowerSame(a, b, n - 1, p);
      SameTimes(a, b, Power(a, n - 1), Power(b, n - 1), p);
    }
  }

  /** BN_mod_exp */
  function ModExp(b: nat, e: nat, p: nat): (x: nat)
    requires p > 0
    ensures x < p
  {
    Power(b, e) % p
  }

  lemma ModExpTwice(b: nat, m: nat, n: nat, p: nat)
    requires p > 0
    ensures ModExp(ModExp(b, m, p), n, p) == ModExp(b, m * n, p)
  {
    Reduced(Power(b, m), p);
    PowerSame(ModExp(b, m, p), Power(b, m), n, p);
    PowerPower(b, m, n);
  }

  /** Both sides of a key agreement get the same secret. */
  lemma Agree(G: Group, a: nat, b: nat)
    requires G.p > 0
    ensures ModExp(ModExp(G.g, a, G.p), b, G.p) == ModExp(ModExp(G.g, b, G.p), a, G.p)
  {
    ModExpTwice(G.g, a, b, G.p);
    ModExpTwice(G.g, b, a, G.p);
    assert a * b == b * a;
  }

  // ---------------------------------------------------------------------------------------
  // Montgomery form and the table
  // ---------------------------------------------------------------------------------------

  function ToMontgomery(G: Group, x: nat): nat
    requires G.p > 0
  {
    x * G.r % G.p
  }

  function FromMontgomery(G: Group, x: nat): nat
    requires G.p > 0
  {
    x * G.rInverse % G.p
  }

  /** BN_mod_mul_montgomery */
  function MulMontgomery(G: Group, x: nat, y: nat): nat
    requires G.p > 0
  {
    x * y * G.rInverse % G.p
  }

  lemma MontgomeryProduct(G: Group, x: nat, y: nat)
    requires Sound(G)
    ensures MulMontgomery(G, ToMontgomery(G, x), ToMontgomery(G, y)) == ToMontgomery(G, x * y)
  {
    hide Power, Pow256;
    var p, r, s := G.p, G.r, G.rInverse;
    Reduced(x * r, p);
    Reduced(y * r, p);
    SameTimes(x * r % p, x * r, y * r % p, y * r, p);
    SameTimes((x * r % p) * (y * r % p), x * r * (y * r), s, s, p);
    FourFactors(x, y, r, s);
    ModUnique(1, p, 0, 1);
    SameTimes(x * y * r, x * y * r, r * s, 1, p);
  }

  lemma FourFactors(x: int, y: int, r: int, s: int)
    ensures x * r * (y * r) * s == x * y * r * (r * s) && x * y * r * 1 == x * y * r
  {
    assert x * r * (y * r) == x * y * r * r;
    assert x * y * r * r * s == x * y * r * (r * s);
  }

  lemma MontgomeryBack(G: Group, x: nat)
    requires Sound(G)
    ensures FromMontgomery(G, ToMontgomery(G, x)) == x % G.p
  {
    hide Power, Pow256;
    var p, r, s := G.p, G.r, G.rInverse;
    Reduced(x * r, p);
    SameTimes(x * r % p, x * r, s, s, p);
    assert x * r * s == x * (r * s) && x * 1 == x;
    ModUnique(1, p, 0, 1);
    SameTimes(x, x, r * s, 1, p);
  }

  /** e at byte position n of an exponent. */
  function Placed(e: nat, n: nat): nat {
    e * Pow256(n)
  }

  /** g^n in Montgomery form. */
  function Raised(G: Group, n: nat): nat
    requires G.p > 0
  {
    ToMontgomery(G, Power(G.g, n))
  }

  lemma RaisedAdd(G: Group, m: nat, n: nat)
    requires Sound(G)
    ensures MulMontgomery(G, Raised(G, m), Raised(G, n)) == Raised(G, m + n)
  {
    hide Power, Pow256, Sound;
    PowerAdd(G.g, m, n);
    MontgomeryProduct(G, Power(G.g, m), Power(G.g, n));
  }

  /** Entry j of row i is g^((j+1) 256^i). */
  ghost predicate Row(G: Group, table: array2<nat>, i: nat, n: nat)
    requires G.p > 0 && i < table.Length0 && n <= table.Length1 == 255
    reads table
  {
    forall j {:trigger table[i, j]} :: 0 <= j < n ==> table[i, j] == Raised(G, Placed(j + 1, i))
  }

  ghost predicate Table(G: Group, table: array2<nat>, n: nat)
    requires G.p > 0 && n <= table.Length0 && table.Length1 == 255
    reads table
  {
    forall i {:trigger Row(G, table, i, 255)} :: 0 <= i < n ==> Row(G, table, i, 255)
  }

  lemma PositiveModulus(G: Group)
    requires Sound(G)
    ensures G.p > 0
  {
  }

  method PrecalculateElggTable(G: Group, table: array2<nat>)
    requires Sound(G) && table.Length1 == 255
    modifies table
    ensures Sound(G) && G.p > 0 && Table(G, table, table.Length0)
  {
    hide Sound, Raised, MulMontgomery, Pow256;
    PositiveModulus(G);
    for i := 0 to table.Length0
      invariant Table(G, table, i)
    {
      label before:
      if i == 0 {
        FirstEntry(G);
        table[0, 0] := ToMontgomery(G, G.g);
      } else {
        assert Row(G, table, i - 1, 255);
        FirstOfRow(G, i - 1);
        table[i, 0] := MulMontgomery(G, table[i - 1, 254], table[i - 1, 0]);
      }
      FillRow(G, table, i);
      forall k | 0 <= k < i ensures Row(G, table, k, 255) {
        assert old@before(Row(G, table, k, 255));
      }
    }
  }

  method FillRow(G: Group, table: array2<nat>, i: nat)
    requires Sound(G) && G.p > 0 && table.Length1 == 255 && i < table.Length0 && table[i, 0] == Raised(G, Placed(1, i))
    modifies table
    ensures Row(G, table, i, 255)
    ensures forall k, j {:trigger table[k, j]} :: 0 <= k < table.Length0 && k != i && 0 <= j < 255 ==> table[k, j] == old(table[k, j])
  {
    hide Sound, Raised, MulMontgomery, Pow256;
    for j := 1 to 255
      invariant Row(G, table, i, j) && table[i, 0] == Raised(G, Placed(1, i))
      invariant forall k, l {:trigger table[k, l]} :: 0 <= k < table.Length0 && k != i && 0 <= l < 255 ==> table[k, l] == old(table[k, l])
    {
      NextEntry(G, i, j);
      table[i, j] := MulMontgomery(G, table[i, j - 1], table[i, 0]);
    }
  }

  lemma FirstEntry(G: Group)
    requires G.p > 0
    ensures ToMontgomery(G, G.g) == Raised(G, Placed(1, 0))
  {
    assert Power(G.g, 1) == G.g * Power(G.g, 0) == G.g;
  }

  lemma NextEntry(G: Group, i: nat, j: nat)
    requires Sound(G) && G.p > 0
    ensures MulMontgomery(G, Raised(G, Placed(j, i)), Raised(G, Placed(1, i))) == Raised(G, Placed(j + 1, i))
  {
    hide Sound, Raised, MulMontgomery, Pow256;
    RaisedAdd(G, Placed(j, i), Placed(1, i));
  }

  /** 255 and one more times 256^i. */
  lemma FirstOfRow(G: Group, i: nat)
    requires Sound(G) && G.p > 0
    ensures MulMontgomery(G, Raised(G, Placed(255, i)), Raised(G, Placed(1, i))) == Raised(G, Placed(1, i + 1))
  {
    assert Pow256(i + 1) == 256 * Pow256(i);
    hide Sound, Raised, MulMontgomery, Pow256;
    RaisedAdd(G, Placed(255, i), Placed(1, i));
  }

  /** ElggPow: one table entry for every nonzero byte of the exponent, most significant first. None
      stands for the null pointer: no factor at all. */
  method ElggPow(G: Group, exp: seq<byte>, table: array2<nat>) returns (res: Option<nat>)
    requires Sound(G) && G.p > 0 && table.Length1 == 255 && |exp| <= table.Length0 && Table(G, table, table.Length0)
    ensures 0 <= BE(exp)
    ensures res == if BE(exp) == 0 then None else Some(ModExp(G.g, BE(exp), G.p))
  {
    hide Sound, Raised, MulMontgomery, Placed, BE, ToMontgomery, FromMontgomery;
    res := None;
    EmptyExponent(exp);
    for i := 0 to |exp|
      invariant 0 <= BE(exp[..i])
      invariant res == if BE(exp[..i]) == 0 then None else Some(Raised(G, Placed(BE(exp[..i]), |exp| - i)))
    {
      NextByte(G, exp, i);
      if exp[i] > 0 { assert Row(G, table, |exp| - 1 - i, 255); }
      if res.Some? {
        if exp[i] > 0 {
          res := Some(MulMontgomery(G, res.value, table[|exp| - 1 - i, exp[i] - 1]));
        }
      } else if exp[i] > 0 {
        res := Some(table[|exp| - 1 - i, exp[i] - 1]);
      }
    }
    assert exp[..|exp|] == exp;
    if res.Some? {
      WholeExponent(G, BE(exp), |exp| - |exp|);
      res := Some(FromMontgomery(G, res.value));
    }
  }

  lemma EmptyExponent(exp: seq<byte>)
    ensures BE(exp[..0]) == 0
  {
  }

  /** One more byte of the exponent multiplies by its own power. */
  lemma NextByte(G: Group, exp: seq<byte>, i: nat)
    requires Sound(G) && G.p > 0 && i < |exp|
    ensures 0 <= BE(exp[..i]) && BE(exp[..i + 1]) == 256 * BE(exp[..i]) + exp[i]
    ensures Placed(0, |exp| - i - 1) == 0
    ensures var n := |exp| - i - 1;
      && Placed(BE(exp[..i]), n + 1) + Placed(exp[i], n) == Placed(BE(exp[..i + 1]), n)
      && MulMontgomery(G, Raised(G, Placed(BE(exp[..i]), n + 1)), Raised(G, Placed(exp[i], n))) == Raised(G, Placed(BE(exp[..i + 1]), n))
  {
    var n := |exp| - i - 1;
    assert exp[..i + 1][..i] == exp[..i];
    BEBound(exp[..i]);
    SplitExponent(BE(exp[..i]), exp[i], n);
    hide Sound, Raised, MulMontgomery, Placed;
    RaisedAdd(G, Placed(BE(exp[..i]), n + 1), Placed(exp[i], n));
  }

  lemma SplitExponent(x: nat, e: nat, n: nat)
    ensures Placed(x, n + 1) + Placed(e, n) == Placed(256 * x + e, n) && Placed(0, n) == 0
  {
    assert Pow256(n + 1) == 256 * Pow256(n);
    hide Pow256;
    assert x * (256 * Pow256(n)) == 256 * x * Pow256(n);
  }

  lemma WholeExponent(G: Group, n: nat, zero: nat)
    requires Sound(G) && G.p > 0 && zero == 0
    ensures FromMontgomery(G, Raised(G, Placed(n, zero))) == ModExp(G.g, n, G.p)
  {
    assert Placed(n, 0) == n;
    hide Sound, Power, Pow256, Placed;
    MontgomeryBack(G, Power(G.g, n));
  }

  /** BN_bn2bin: the bytes of a number without leading zeros. */
  function NumberBytes(n: nat): (s: seq<byte>) {
    if n == 0 then [] else NumberBytes(n / 256) + [n % 256]
  }

  lemma {:induction false} NumberBytesValue(n: nat)
    ensures BE(NumberBytes(n)) == n
  {
    if n > 0 {
      NumberBytesValue(n / 256);
      assert NumberBytes(n)[..|NumberBytes(n)| - 1] == NumberBytes(n / 256);
    }
  }

  lemma {:induction false} NumberBytesLength(n: nat, k: nat)
    requires n < Pow256(k)
    ensures |NumberBytes(n)| <= k
    decreases k
  {
    if n > 0 && k > 0 { NumberBytesLength(n / 256, k - 1); }
  }

  /** g^k modulo p by the table: the null pointer for k = 0, which nothing here guards against. */
  method ElggPowNumber(G: Group, k: nat, table: array2<nat>) returns (res: Option<nat>)
    requires Sound(G) && G.p > 0 && table.Length1 == 255 && Table(G, table, table.Length0) && k < Pow256(table.Length0)
    ensures res == if k == 0 then None else Some(ModExp(G.g, k, G.p))
  {
    hide Sound, Pow256, BE, Table;
    NumberBytesValue(k);
    NumberBytesLength(k, table.Length0);
    res := ElggPow(G, NumberBytes(k), table);
  }

  // ---------------------------------------------------------------------------------------
  // Encryption
  // ---------------------------------------------------------------------------------------

  /** bn2buf: None when the number needs more than len bytes; the buffer is then left as it was. */
  function Bn2Buf(n: nat, len: nat): (s: Option<seq<byte>>)
    ensures s.Some? ==> |s.value| == len
  {
    if n < Pow256(len) then Some(ToBE(n, len)) else None
  }

  /** 0xFF, the hash of the data, the data. */
  function Envelope(sha256: seq<byte> -> Hash, data: seq<byte>): (m: seq<byte>)
    requires |data| == 222
    ensures |m| == 255
  {
    [0xff] + sha256(data) + data
  }

  function Number(s: seq<byte>): (n: nat)
    ensures n < Pow256(|s|)
  {
    BEBound(s);
    BE(s)
  }

  function PublicKey(G: Group, x: nat): (key: seq<byte>)
    requires G.p > 0
    ensures |key| == 256
  {
    ToBE(ModExp(G.g, x, G.p), 256)
  }

  /** The two numbers of a ciphertext in a row, with a zero byte before each if padded. */
  function Packed(a: seq<byte>, b: seq<byte>, zeroPadding: bool): seq<byte> {
    if zeroPadding then [0] + a + [0] + b else a + b
  }

  function Encrypted(G: Group, sha256: seq<byte> -> Hash, key: seq<byte>, data: seq<byte>, k: nat, zeroPadding: bool): (c: seq<byte>)
    requires G.p > 0 && |key| == 256 && |data| == 222
    ensures |c| == if zeroPadding then 514 else 512
  {
    Packed(ToBE(ModExp(G.g, k, G.p), 256),
      ToBE(ModExp(Number(key), k, G.p) * Number(Envelope(sha256, data)) % G.p, 256), zeroPadding)
  }

  /** The two numbers of the ciphertext, most significant byte first: g^k, and y^k times the number of 255 bytes
      that are ff, the hash of the data and the data. */
  lemma {:induction false} EncryptedIs(G: Group, sha256: seq<byte> -> Hash, key: seq<byte>, data: seq<byte>, k: nat, zeroPadding: bool)
    requires Sound(G) && G.p > 0 && |key| == 256 && |data| == 222
    ensures var c := Encrypted(G, sha256, key, data, k, zeroPadding);
      var a, b := if zeroPadding then c[1..257] else c[..256], if zeroPadding then c[258..] else c[256..];
      && BE(a) == Power(G.g, k) % G.p && BE(key) >= 0
      && BE(b) == Power(BE(key), k) * BE([0xff] + sha256(data) + data) % G.p
      && (zeroPadding ==> c[0] == 0 && c[257] == 0)
  {
    hide BE, ToBE, Power, Pow256;
    BEBound(key);
    var x, y := ModExp(G.g, k, G.p), ModExp(Number(key), k, G.p) * Number(Envelope(sha256, data)) % G.p;
    NumberReads(G, x); NumberReads(G, y);
    BEBound([0xff] + sha256(data) + data);
    ProductOfRemainder(Power(BE(key), k), BE([0xff] + sha256(data) + data), G.p);
    var s, t := ToBE(x, 256), ToBE(y, 256);
    assert ([0] + s + [0] + t)[1..257] == s && ([0] + s + [0] + t)[258..] == t;
    assert (s + t)[..256] == s && (s + t)[256..] == t;
  }

  lemma {:induction false} NumberReads(G: Group, n: nat)
    requires Sound(G) && n < G.p
    ensures BE(ToBE(n, 256)) == n
  {
    hide BE, ToBE, Pow256;
    BERoundTrip(n, 256);
  }

  lemma ProductOfRemainder(a: nat, b: nat, p: nat)
    requires p > 0
    ensures a % p * b % p == a * b % p
  {
    var q, r := a / p, a % p;
    assert a * b == p * (q * b) + r * b;
    MulMono(0, r, b);
    ModUnique(a * b, p, q * b + r * b / p, r * b % p);
  }

  /** The exponent k stands for the random number, which is odd; without a table g is raised directly. */
  method ElGamalEncrypt(G: Group, sha256: seq<byte> -> Hash, table: array2?<nat>, key: seq<byte>, data: seq<byte>, k: nat, zeroPadding: bool)
      returns (encrypted: seq<byte>)
    requires Sound(G) && G.p > 0 && |key| == 256 && |data| == 222 && k % 2 == 1
    requires table != null ==> table.Length1 == 255 && Table(G, table, table.Length0) && k < Pow256(table.Length0)
    ensures encrypted == Encrypted(G, sha256, key, data, k, zeroPadding)
  {
    hide Sound, Pow256, Table, BE, ToBE, ModExp;
    var a: nat;
    if table != null {
      var power := ElggPowNumber(G, k, table);
      a := power.value;
    } else {
      a := ModExp(G.g, k, G.p);
    }
    var b1 := ModExp(Number(key), k, G.p);
    var m := [0xff] + sha256(data) + data;
    var b := b1 * Number(m) % G.p;
    Fits(G, a);
    Fits(G, b);
    var aBytes, bBytes := Bn2Buf(a, 256), Bn2Buf(b, 256);
    encrypted := if zeroPadding then [0] + aBytes.value + [0] + bBytes.value else aBytes.value + bBytes.value;
  }

  lemma {:induction false} Fits(G: Group, n: nat)
    requires Sound(G) && n < G.p
    ensures Bn2Buf(n, 256) == Some(ToBE(n, 256))
  {
  }

  /** The decrypted number, or what happens to be in the buffer when it does not fit. */
  function Opened(G: Group, x: nat, a: nat, b: nat, garbage: seq<byte>): (m: seq<byte>)
    requires x < G.p && |garbage| == 255
    ensures |m| == 255
  {
    var m := Bn2Buf(b * ModExp(a, G.p - 1 - x, G.p) % G.p, 255);
    if m.Some? then m.value else garbage
  }

  function Decrypted(G: Group, sha256: seq<byte> -> Hash, key: seq<byte>, encrypted: seq<byte>, zeroPadding: bool, garbage: seq<byte>): Option<seq<byte>>
    requires |key| == 256 && Number(key) < G.p && |encrypted| == (if zeroPadding then 514 else 512) && |garbage| == 255
  {
    var (a, b) := if zeroPadding then (encrypted[1..257], encrypted[258..514]) else (encrypted[..256], encrypted[256..]);
    var m := Opened(G, Number(key), Number(a), Number(b), garbage);
    if m[1..33] == sha256(m[33..]) then Some(m[33..]) else None
  }

  /** x = p - x - 1, then b * a^x mod p. A private key beyond the modulus, which would make the exponent
      negative, is not part of the model. */
  method ElGamalDecrypt(G: Group, sha256: seq<byte> -> Hash, key: seq<byte>, encrypted: seq<byte>, zeroPadding: bool, garbage: seq<byte>)
      returns (data: Option<seq<byte>>)
    requires |key| == 256 && Number(key) < G.p && |encrypted| == (if zeroPadding then 514 else 512) && |garbage| == 255
    ensures data == Decrypted(G, sha256, key, encrypted, zeroPadding, garbage)
  {
    hide Pow256, BE, ToBE, ModExp;
    var x := G.p - Number(key) - 1;
    var a := Number(if zeroPadding then encrypted[1..257] else encrypted[..256]);
    var b := Number(if zeroPadding then encrypted[258..514] else encrypted[256..]);
    x := ModExp(a, x, G.p);
    b := b * x % G.p;
    var buf := Bn2Buf(b, 255);
    var m := if buf.Some? then buf.value else garbage;
    if m[1..33] != sha256(m[33..]) { return None; }
    data := Some(m[33..]);
  }

  /** (g^k)^(p-1-x) undoes (g^x)^k. */
  lemma SecretCancels(G: Group, x: nat, k: nat)
    requires Sound(G) && x < G.p
    ensures ModExp(ModExp(G.g, x, G.p), k, G.p) * ModExp(ModExp(G.g, k, G.p), G.p - 1 - x, G.p) % G.p == 1
  {
    hide Pow256, Power;
    var p, g := G.p, G.g;
    MulMono(0, x, k); MulMono(0, k, p - 1 - x);
    ModExpTwice(g, x, k, p);
    ModExpTwice(g, k, p - 1 - x, p);
    TimesMod(Power(g, x * k), Power(g, k * (p - 1 - x)), p);
    PowerAdd(g, x * k, k * (p - 1 - x));
    Exponents(x, k, p - 1);
    PowerPower(g, p - 1, k);
    ModUnique(1, p, 0, 1);
    PowerSame(Power(g, p - 1), 1, k, p);
    OnePower(k);
  }

  lemma Exponents(x: nat, k: nat, n: nat)
    requires x <= n
    ensures x * k + k * (n - x) == n * k
  {
  }

  lemma {:induction false} OnePower(k: nat)
    ensures Power(1, k) == 1
  {
    if k > 0 { OnePower(k - 1); }
  }

  lemma Reorder(u: int, m: int, v: int)
    ensures u * m * v == u * v * m && 1 * m == m
  {
  }

  lemma UnblindedMessage(u: nat, v: nat, m: nat, p: nat)
    requires p > 1 && m < p && u * v % p == 1
    ensures (u * m % p) * v % p == m
  {
    Reduced(u * m, p);
    SameTimes(u * m % p, u * m, v, v, p);
    Reorder(u, m, v);
    ModUnique(1, p, 0, 1);
    SameTimes(u * v, 1, m, m, p);
    ModUnique(m, p, 0, m);
  }

  lemma OpensTo(G: Group, x: nat, k: nat, m: seq<byte>, garbage: seq<byte>)
    requires Sound(G) && G.p > 0 && x < G.p && |m| == 255 && |garbage| == 255
    ensures Opened(G, x, ModExp(G.g, k, G.p), ModExp(ModExp(G.g, x, G.p), k, G.p) * Number(m) % G.p, garbage) == m
  {
    Modulus(G);
    EnvelopeFits(G, m);
    SecretCancels(G, x, k);
    hide *;
    var u, v := ModExp(ModExp(G.g, x, G.p), k, G.p), ModExp(ModExp(G.g, k, G.p), G.p - 1 - x, G.p);
    UnblindedMessage(u, v, Number(m), G.p);
    OpenedAs(G, x, ModExp(G.g, k, G.p), u * Number(m) % G.p, m, garbage);
  }

  lemma OpenedAs(G: Group, x: nat, a: nat, b: nat, m: seq<byte>, garbage: seq<byte>)
    requires x < G.p && |m| == 255 && |garbage| == 255
    requires Bn2Buf(Number(m), 255) == Some(m) && b * ModExp(a, G.p - 1 - x, G.p) % G.p == Number(m)
    ensures Opened(G, x, a, b, garbage) == m
  {
    hide Bn2Buf, ModExp, Number;
  }

  /** Decryption inverts encryption, for every key pair, random exponent and padding. */
  lemma DecryptEncrypt(G: Group, sha256: seq<byte> -> Hash, key: seq<byte>, data: seq<byte>, k: nat, zeroPadding: bool, garbage: seq<byte>)
    requires Sound(G) && G.p > 0 && |key| == 256 && Number(key) < G.p && |data| == 222 && |garbage| == 255
    ensures Decrypted(G, sha256, key, Encrypted(G, sha256, PublicKey(G, Number(key)), data, k, zeroPadding), zeroPadding, garbage) == Some(data)
  {
    var x, y := Number(key), ModExp(G.g, Number(key), G.p);
    var m := Envelope(sha256, data);
    var a, b := ModExp(G.g, k, G.p), ModExp(y, k, G.p) * Number(m) % G.p;
    Modulus(G);
    hide Sound, Pow256, ModExp, BE, ToBE, Number, Envelope, Opened, Packed;
    NumberBack(y); NumberBack(a); NumberBack(b);
    Unpacked(ToBE(a, 256), ToBE(b, 256));
    OpensTo(G, x, k, m, garbage);
    EnvelopeParts(sha256, data);
  }

  lemma Modulus(G: Group)
    requires Sound(G)
    ensures 1 < G.p < Pow256(256)
  {
    assert Pow256(255) >= 1;
  }

  lemma {:induction false} NumberBack(n: nat)
    requires n < Pow256(256)
    ensures Number(ToBE(n, 256)) == n
  {
    BERoundTrip(n, 256);
  }

  /** An envelope is a number of 255 bytes, below the modulus. */
  lemma EnvelopeFits(G: Group, m: seq<byte>)
    requires Sound(G) && |m| == 255
    ensures Number(m) < G.p && Bn2Buf(Number(m), 255) == Some(m)
  {
    ToBEBE(m);
  }

  lemma Unpacked(a: seq<byte>, b: seq<byte>)
    requires |a| == |b| == 256
    ensures var c := Packed(a, b, true); |c| == 514 && c[1..257] == a && c[258..514] == b
    ensures var c := Packed(a, b, false); |c| == 512 && c[..256] == a && c[256..] == b
  {
  }

  lemma EnvelopeParts(sha256: seq<byte> -> Hash, data: seq<byte>)
    requires |data| == 222
    ensures var m := Envelope(sha256, data); m[1..33] == sha256(data) && m[33..] == data
  {
  }
}
