/** GOST R 34.11-2012 of libdotnet/Gost.cpp: 512-bit arithmetic on big-endian blocks, the one-shot
    hash, and the streaming hash of the same message in the opposite byte order. */
module Gost {
  import opened Bytes

  /** GOST3411Block, most significant byte first. */
  type Block = s: seq<byte> | |s| == 64 witness Zeros(64)

  /** The S-box, permutation and linear step together, and the twelve round constants. */
  datatype Cipher = Cipher(f: Block -> Block, c: seq<Block>)

  predicate Complete(p: Cipher) {
    |p.c| == 12
  }

  // ---------------------------------------------------------------------------------------
  // Arithmetic modulo 2^512
  // ---------------------------------------------------------------------------------------

  /** A block as a number. */
  function Value(b: Block): (n: nat)
    ensures n < Pow256(64)
  {
    BEBound(b);
    BE(b)
  }

  lemma {:induction false} BECons(x: int, rest: seq<int>)
    ensures BE([x] + rest) == x * Pow256(|rest|) + BE(rest)
    decreases |rest|
  {
    if rest == [] {
      assert [x] + rest == [x];
      assert BE([x]) == 256 * BE([x][..0]) + x;
      assert [x][..0] == [];
    } else {
      var n := |rest| - 1;
      var s := [x] + rest;
      assert s[..|s| - 1] == [x] + rest[..n];
      BECons(x, rest[..n]);
      Distribute(x, Pow256(n), BE(rest[..n]));
    }
  }

  lemma Distribute(x: int, p: int, r: int)
    ensures 256 * (x * p + r) == x * (256 * p) + 256 * r
  {
  }

  lemma BEFrom(s: seq<int>, i: nat)
    requires i < |s|
    ensures BE(s[i..]) == s[i] * Pow256(|s| - 1 - i) + BE(s[i + 1..])
  {
    assert s[i..] == [s[i]] + s[i + 1..];
    BECons(s[i], s[i + 1..]);
  }

  lemma CarryStep(x: int, p: nat, low: int, r: int, carry: int)
    requires low == r + carry * p
    ensures x * p + low == (x + carry) % 256 * p + r + (x + carry) / 256 * (256 * p)
  {
    var t := x + carry;
    var q, m := t / 256, t % 256;
    assert t == 256 * q + m;
    assert x * p + low == t * p + r;
    assert (256 * q + m) * p == q * (256 * p) + m * p;
  }

  /** The low bytes of a and b add up to those of ret and the carry. */
  predicate Added(a: Block, b: Block, ret: Block, i: nat, carry: nat) {
    i <= 64 && carry <= 1 && BE(a[i..]) + BE(b[i..]) == BE(ret[i..]) + carry * Pow256(64 - i)
  }

  /** operator+ */
  method Plus(a: Block, b: Block) returns (ret: Block)
    ensures Value(ret) == (Value(a) + Value(b)) % Pow256(64)
  {
    hide Added, BE, Pow256;
    ret := Zeros(64);
    var carry: nat := 0;
    var i := 64;
    AddedStart(a, b, ret);
    while i > 0
      invariant i <= 64 && carry <= 1 && Added(a, b, ret, i, carry)
    {
      i := i - 1;
      var sum: nat := a[i] + b[i] + carry;
      AddedStep(a, b, ret, i, carry);
      ret := ret[i := sum % 256];
      carry := sum / 256;
    }
    AddedEnd(a, b, ret, carry);
  }

  lemma AddedStart(a: Block, b: Block, ret: Block)
    ensures Added(a, b, ret, 64, 0)
  {
    EmptySuffix(a); EmptySuffix(b); EmptySuffix(ret);
  }

  lemma AddedEnd(a: Block, b: Block, ret: Block, carry: nat)
    requires Added(a, b, ret, 0, carry)
    ensures Value(ret) == (Value(a) + Value(b)) % Pow256(64)
  {
    assert a[0..] == a && b[0..] == b && ret[0..] == ret;
    hide BE, Pow256;
    WholeSum(Value(ret), Value(a) + Value(b), carry);
  }

  lemma AddedStep(a: Block, b: Block, ret: Block, i: nat, carry: nat)
    requires i < 64 && Added(a, b, ret, i + 1, carry)
    ensures var sum: nat := a[i] + b[i] + carry; Added(a, b, ret[i := sum % 256], i, sum / 256)
  {
    hide BE, Pow256;
    var sum: nat := a[i] + b[i] + carry;
    var r: seq<int> := ret[i := sum % 256];
    BEFrom(a, i); BEFrom(b, i); BEFrom(r, i);
    assert r[i + 1..] == ret[i + 1..];
    var p, x: int, y: int := Pow256(63 - i), a[i], b[i];
    CarryStep(x + y, p, BE(a[i + 1..]) + BE(b[i + 1..]), BE(ret[i + 1..]), carry);
    TwoDigits(x, y, p);
    PowNext(63 - i);
  }

  lemma TwoDigits(x: int, y: int, p: int)
    ensures (x + y) * p == x * p + y * p
  {
  }

  lemma EmptySuffix(a: Block)
    ensures BE(a[64..]) == 0 && Pow256(0) == 1
  {
  }

  lemma PowNext(n: nat)
    ensures Pow256(n + 1) == 256 * Pow256(n)
  {
  }

  lemma WholeSum(r: nat, sum: nat, carry: nat)
    requires sum == r + carry * Pow256(64) && r < Pow256(64)
    ensures r == sum % Pow256(64)
  {
    hide Pow256;
    assert carry * Pow256(64) == Pow256(64) * carry;
    ModUnique(sum, Pow256(64), carry, r);
  }

  /** Add: stops as soon as nothing is left to carry. The first sum may pass 32 bits; what goes
      beyond is lost, and nothing is left to carry then. */
  method Add(buf: Block, n: u32) returns (ret: Block)
    ensures n + buf[63] < 0x1_0000_0000 ==> Value(ret) == (Value(buf) + n) % Pow256(64)
    ensures n + buf[63] >= 0x1_0000_0000 ==> Value(ret) == Value(buf) + n - 0x1_0000_0000
  {
    hide Carried, BE, Pow256;
    ret := buf;
    var c: u32 := n;
    var i := 64;
    ghost var wraps := n + buf[63] >= 0x1_0000_0000;
    CarriedStart(buf, n);
    while i > 0 && c != 0
      invariant i <= 64 && (if i == 64 then c == n && ret == buf else c <= 0x100_0000)
      invariant i < 64 && wraps ==> c == 0 && ret == buf[63 := n + buf[63] - 0x1_0000_0000]
      invariant !wraps ==> Carried(buf, n, ret, i, c)
    {
      i := i - 1;
      if !wraps { CarriedByte(buf, n, ret, i, c); }
      LowSum(c, ret[i]);
      c := (c + ret[i]) % 0x1_0000_0000;
      if !wraps { CarriedStep(buf, n, ret, i, c); }
      ret := ret[i := c % 256];
      c := c / 256;
    }
    if wraps {
      LastByte(buf, n + buf[63] - 0x1_0000_0000);
    } else {
      CarriedEnd(buf, n, ret, i, c);
    }
  }

  lemma LowSum(c: u32, x: byte)
    ensures var sum := (c + x) % 0x1_0000_0000;
      && sum / 256 < 0x100_0000
      && (c + x < 0x1_0000_0000 ==> sum == c + x)
      && (c + x >= 0x1_0000_0000 ==> sum == c + x - 0x1_0000_0000 && sum / 256 == 0 && sum % 256 == sum)
  {
  }

  lemma LastByte(buf: Block, x: byte)
    ensures Value(buf[63 := x]) == Value(buf) - buf[63] + x
  {
  }

  /** The low bytes of buf and n add up to those of ret and the carry; the rest is untouched. */
  predicate Carried(buf: Block, n: nat, ret: Block, i: nat, c: nat) {
    i <= 64 && ret[..i] == buf[..i] && BE(buf[i..]) + n == BE(ret[i..]) + c * Pow256(64 - i)
  }

  lemma CarriedStart(buf: Block, n: nat)
    ensures Carried(buf, n, buf, 64, n)
  {
    EmptySuffix(buf);
  }

  lemma CarriedByte(buf: Block, n: nat, ret: Block, i: nat, c: nat)
    requires i < 64 && Carried(buf, n, ret, i + 1, c)
    ensures ret[i] == buf[i]
  {
    assert ret[..i + 1][i] == buf[..i + 1][i];
  }

  lemma CarriedStep(buf: Block, n: nat, ret: Block, i: nat, sum: nat)
    requires i < 64 && sum >= buf[i] && Carried(buf, n, ret, i + 1, sum - buf[i])
    ensures Carried(buf, n, ret[i := sum % 256], i, sum / 256)
  {
    hide BE, Pow256;
    var r: seq<int> := ret[i := sum % 256];
    BEFrom(buf, i); BEFrom(r, i);
    assert r[i + 1..] == ret[i + 1..];
    assert r[..i] == ret[..i + 1][..i] && buf[..i] == buf[..i + 1][..i];
    var x: int := buf[i];
    CarryStep(x, Pow256(63 - i), BE(buf[i + 1..]) + n, BE(ret[i + 1..]), sum - x);
    PowNext(63 - i);
  }

  lemma CarriedEnd(buf: Block, n: nat, ret: Block, i: nat, c: nat)
    requires Carried(buf, n, ret, i, c) && (i == 0 || c == 0)
    ensures Value(ret) == (Value(buf) + n) % Pow256(64)
  {
    SamePrefix(buf, ret, i);
    assert buf[0..] == buf && ret[0..] == ret;
    assert Value(buf) + n == Value(ret) + c * Pow256(64 - i);
    hide *;
    NoCarryLeft(Value(ret), Value(buf) + n, c, i);
  }

  lemma NoCarryLeft(r: nat, sum: nat, c: nat, i: nat)
    requires i <= 64 && (i == 0 || c == 0) && sum == r + c * Pow256(64 - i) && r < Pow256(64)
    ensures r == sum % Pow256(64)
  {
    hide Pow256;
    if c == 0 {
      ZeroTimes(Pow256(64 - i)); ZeroTimes(Pow256(64));
    }
    WholeSum(r, sum, c);
  }

  lemma ZeroTimes(p: int)
    ensures 0 * p == 0
  {
  }

  /** Equal leading bytes: the numbers differ as the tails do. */
  lemma {:induction false} SamePrefix(a: seq<int>, b: seq<int>, k: nat)
    requires |a| == |b| && k <= |a| && a[..k] == b[..k]
    ensures BE(a[0..]) - BE(a[k..]) == BE(b[0..]) - BE(b[k..])
    decreases k
  {
    if k > 0 {
      assert a[..k - 1] == a[..k][..k - 1] && b[..k - 1] == b[..k][..k - 1];
      SamePrefix(a, b, k - 1);
      assert a[k - 1] == a[..k][k - 1] && b[k - 1] == b[..k][k - 1];
      BEFrom(a, k - 1); BEFrom(b, k - 1);
    }
  }

  // ---------------------------------------------------------------------------------------
  // The compression function
  // ---------------------------------------------------------------------------------------

  function XorBlock(a: Block, b: Block): Block {
    XorSeq(a, b)
  }

  /** n rounds of E: the text goes through F, the key through F of the key and a constant. */
  function Rounds(p: Cipher, k: Block, m: Block, n: nat): (r: (Block, Block))
    requires Complete(p) && n <= 12
  {
    if n == 0 then (k, XorBlock(k, m))
    else
      var (key, res) := Rounds(p, k, m, n - 1);
      var next := p.f(XorBlock(key, p.c[n - 1]));
      (next, XorBlock(next, p.f(res)))
  }

  /** The key of round i: F of the key before it and a constant. */
  function RoundKey(p: Cipher, k: Block, i: nat): Block
    requires Complete(p) && i <= 12
  {
    if i == 0 then k else p.f(XorBlock(RoundKey(p, k, i - 1), p.c[i - 1]))
  }

  /** The rounds backwards: off with a key, then the inverse g of F. */
  function Unrounds(p: Cipher, g: Block -> Block, k: Block, c: Block, n: nat): Block
    requires Complete(p) && n <= 12
    decreases n
  {
    var b := XorBlock(RoundKey(p, k, n), c);
    if n == 0 then b else Unrounds(p, g, k, g(b), n - 1)
  }

  /** E is a cipher: with the round keys at hand its rounds can be undone. */
  lemma {:induction false} RoundsUndone(p: Cipher, g: Block -> Block, k: Block, m: Block, n: nat)
    requires Complete(p) && n <= 12 && forall b: Block {:trigger p.f(b)} :: g(p.f(b)) == b
    ensures Rounds(p, k, m, n).0 == RoundKey(p, k, n) && Unrounds(p, g, k, Rounds(p, k, m, n).1, n) == m
    decreases n
  {
    hide XorBlock;
    if n == 0 {
      XorTwice(k, m);
    } else {
      RoundsUndone(p, g, k, m, n - 1);
      XorTwice(RoundKey(p, k, n), p.f(Rounds(p, k, m, n - 1).1));
    }
  }

  lemma XorTwice(a: Block, b: Block)
    ensures XorBlock(a, XorBlock(a, b)) == b && XorBlock(XorBlock(b, a), a) == b
  {
    forall i | 0 <= i < 64 ensures XorBlock(a, XorBlock(a, b))[i] == b[i] && XorBlock(XorBlock(b, a), a)[i] == b[i] {
      XorCommutes(a[i], b[i]); XorCommutes(a[i], XorBlock(a, b)[i]);
      XorInvolutive(b[i], a[i]);
    }
  }

  /** The compression function is that cipher under F of N and h, with both inputs added to its output. */
  lemma {:induction false} CompressionIs(p: Cipher, g: Block -> Block, N: Block, h: Block, m: Block)
    requires Complete(p) && forall b: Block {:trigger p.f(b)} :: g(p.f(b)) == b
    ensures Unrounds(p, g, p.f(XorBlock(N, h)), XorBlock(XorBlock(GN(p, N, h, m), m), h), 12) == m
  {
    hide XorBlock, Rounds, Unrounds;
    var c := Rounds(p, p.f(XorBlock(N, h)), m, 12).1;
    RoundsUndone(p, g, p.f(XorBlock(N, h)), m, 12);
    XorTwice(m, XorBlock(c, h));
    XorTwice(h, c);
  }

  method E(p: Cipher, k0: Block, m: Block) returns (res: Block)
    requires Complete(p)
    ensures res == Rounds(p, k0, m, 12).1
  {
    hide XorBlock;
    var k := k0;
    res := XorBlock(k, m);
    for i := 0 to 12
      invariant (k, res) == Rounds(p, k0, m, i)
    {
      res := p.f(res);
      k := XorBlock(k, p.c[i]);
      k := p.f(k);
      res := XorBlock(k, res);
    }
  }

  /** g_N(h, m) of RFC 6986, section 8. */
  function GN(p: Cipher, N: Block, h: Block, m: Block): Block
    requires Complete(p)
  {
    XorBlock(XorBlock(Rounds(p, p.f(XorBlock(N, h)), m, 12).1, h), m)
  }

  method Gn(p: Cipher, N: Block, h: Block, m: Block) returns (res: Block)
    requires Complete(p)
    ensures res == GN(p, N, h, m)
  {
    hide XorBlock, Rounds;
    res := XorBlock(N, h);
    res := p.f(res);
    res := E(p, res, m);
    res := XorBlock(res, h);
    res := XorBlock(res, m);
  }

  // ---------------------------------------------------------------------------------------
  // The hash
  // ---------------------------------------------------------------------------------------

  datatype State = State(h: Block, N: Block, s: Block)

  function Sum(b: Block, n: nat): Block {
    ToBE((Value(b) + n) % Pow256(64), 64)
  }

  lemma SumIs(b: Block, n: nat, r: Block)
    requires Value(r) == (Value(b) + n) % Pow256(64)
    ensures r == Sum(b, n)
  {
    ToBEBE(r);
  }

  lemma SumValue(b: Block, n: nat)
    ensures Value(Sum(b, n)) == (Value(b) + n) % Pow256(64)
  {
    hide BE, ToBE, Pow256;
    BERoundTrip((Value(b) + n) % Pow256(64), 64);
  }

  /** One block of the message, of which bits belong to it. */
  function Absorb(p: Cipher, st: State, m: Block, bits: nat): State
    requires Complete(p)
  {
    State(GN(p, st.N, st.h, m), Sum(st.N, bits), Sum(st.s, Value(m)))
  }

  function Pad(tail: seq<byte>): Block
    requires |tail| < 64
  {
    Zeros(63 - |tail|) + [1] + tail
  }

  /** The state after every block, the last ones of the buffer first. */
  function Absorbed(p: Cipher, st: State, buf: seq<byte>): State
    requires Complete(p)
    decreases |buf|
  {
    if |buf| < 64 then Absorb(p, st, Pad(buf), 8 * |buf|)
    else Absorbed(p, Absorb(p, st, buf[|buf| - 64..], 512), buf[..|buf| - 64])
  }

  function Closed(p: Cipher, st: State): Block
    requires Complete(p)
  {
    var zero := Zeros(64);
    GN(p, zero, GN(p, zero, st.h, st.N), st.s)
  }

  function Initial(iv: Block): State {
    State(iv, Zeros(64), Zeros(64))
  }

  /** The one-shot hash of a buffer in the byte order of the standard's numbers. */
  function Hash(p: Cipher, iv: Block, buf: seq<byte>): Block
    requires Complete(p)
  {
    Closed(p, Absorbed(p, Initial(iv), buf))
  }

  /** The numbers the blocks of a message stand for, added up. */
  function BlockSum(buf: seq<byte>): nat
    decreases |buf|
  {
    if |buf| < 64 then Value(Pad(buf)) else Value(buf[|buf| - 64..]) + BlockSum(buf[..|buf| - 64])
  }

  function Mod512(n: nat): nat {
    n % Pow256(64)
  }

  /** N counts the bits of the message and s sums its blocks, modulo 2^512. */
  lemma {:induction false} AbsorbedCounts(p: Cipher, st: State, buf: seq<byte>)
    requires Complete(p)
    ensures Value(Absorbed(p, st, buf).N) == Mod512(Value(st.N) + 8 * |buf|)
    ensures Value(Absorbed(p, st, buf).s) == Mod512(Value(st.s) + BlockSum(buf))
    decreases |buf|
  {
    hide GN, Value, Sum, Pad, Pow256, Absorb, Mod512;
    if |buf| < 64 {
      AbsorbCounts(p, st, Pad(buf), 8 * |buf|);
    } else {
      var m: Block, rest := buf[|buf| - 64..], buf[..|buf| - 64];
      AbsorbedCounts(p, Absorb(p, st, m, 512), rest);
      AbsorbCounts(p, st, m, 512);
      ModTwice512(Value(st.N), 512, 8 * |rest|);
      ModTwice512(Value(st.s), Value(m), BlockSum(rest));
    }
  }

  lemma ModTwice512(a: nat, b: nat, c: nat)
    ensures Mod512(Mod512(a + b) + c) == Mod512(a + b + c)
  {
    hide Pow256;
    ModTwice(a, b, c, Pow256(64));
  }

  lemma AbsorbCounts(p: Cipher, st: State, m: Block, bits: nat)
    requires Complete(p)
    ensures Value(Absorb(p, st, m, bits).N) == Mod512(Value(st.N) + bits)
    ensures Value(Absorb(p, st, m, bits).s) == Mod512(Value(st.s) + Value(m))
  {
    hide GN, Value, Sum, Pow256;
    SumValue(st.N, bits);
    SumValue(st.s, Value(m));
  }

  lemma ModTwice(a: nat, b: nat, c: nat, m: nat)
    requires m > 0
    ensures ((a + b) % m + c) % m == (a + b + c) % m
  {
    var q, r := (a + b) / m, (a + b) % m;
    var k, s := (r + c) / m, (r + c) % m;
    assert a + b + c == m * q + r + c == m * q + (m * k + s);
    assert m * q + m * k == m * (q + k);
    ModUnique(a + b + c, m, q + k, s);
  }

  // The hash as section 8 of RFC 6986 has it: block after block with the number of bits before it.

  /** Block i from the end; the last is what is left, padded. */
  function BlockAt(buf: seq<byte>, i: nat): Block
    requires i <= |buf| / 64
  {
    var end := |buf| - 64 * i;
    if end >= 64 then buf[end - 64..end] else Pad(buf[..end])
  }

  /** A 512-bit number. */
  function Vector(n: nat): Block {
    ToBE(n % Pow256(64), 64)
  }

  function Chain(p: Cipher, iv: Block, buf: seq<byte>, i: nat): Block
    requires Complete(p) && i <= |buf| / 64 + 1
  {
    if i == 0 then iv else GN(p, Vector(512 * (i - 1)), Chain(p, iv, buf, i - 1), BlockAt(buf, i - 1))
  }

  /** The padded block stands for its bytes behind a one. */
  lemma {:induction false} PadIs(tail: seq<byte>)
    requires |tail| < 64
    ensures Value(Pad(tail)) == Pow256(|tail|) + BE(tail)
  {
    hide Pow256;
    BEFrom(Pad(tail), 63 - |tail|);
    assert Pad(tail)[63 - |tail| + 1..] == tail && Pad(tail)[63 - |tail|] == 1;
    LeadingZeros(Pad(tail), 63 - |tail|);
  }

  lemma {:induction false} LeadingZeros(s: seq<int>, k: nat)
    requires k <= |s| && forall i :: 0 <= i < k ==> s[i] == 0
    ensures BE(s) == BE(s[k..])
    decreases k
  {
    if k == 0 {
      assert s[0..] == s;
    } else {
      LeadingZeros(s, k - 1);
      BEFrom(s, k - 1);
    }
  }

  /** The digest closes the chain with the bit length and then the sum of all blocks. */
  lemma {:induction false} HashIs(p: Cipher, iv: Block, buf: seq<byte>)
    requires Complete(p)
    ensures Hash(p, iv, buf)
      == GN(p, Zeros(64), GN(p, Zeros(64), Chain(p, iv, buf, |buf| / 64 + 1), Vector(8 * |buf|)), Vector(BlockSum(buf)))
  {
    hide GN, Sum, Pad, Pow256, Absorb, BlockSum;
    var st := Initial(iv);
    ZeroVector();
    AbsorbedChain(p, iv, buf, 0, st);
    assert buf[..|buf|] == buf;
    AbsorbedCounts(p, st, buf);
    VectorOf(Absorbed(p, st, buf).N, 8 * |buf|);
    VectorOf(Absorbed(p, st, buf).s, BlockSum(buf));
  }

  lemma {:induction false} ZeroVector()
    ensures Value(Zeros(64)) == 0 && Vector(0) == Zeros(64)
  {
    hide Pow256;
    LeadingZeros(Zeros(64), 64);
    VectorOf(Zeros(64), 0);
  }

  lemma VectorOf(b: Block, n: nat)
    requires Value(b) == Mod512(n)
    ensures b == Vector(n)
  {
    hide BE, ToBE, Pow256;
    ToBEBE(b);
  }

  lemma {:induction false} AbsorbedChain(p: Cipher, iv: Block, buf: seq<byte>, i: nat, st: State)
    requires Complete(p) && i <= |buf| / 64 && st.h == Chain(p, iv, buf, i) && st.N == Vector(512 * i)
    ensures Absorbed(p, st, buf[..|buf| - 64 * i]).h == Chain(p, iv, buf, |buf| / 64 + 1)
    decreases |buf| / 64 - i
  {
    hide GN, Absorb, Chain, Pad, Vector;
    var rest := buf[..|buf| - 64 * i];
    ChainStep(p, iv, buf, i, st, if |rest| >= 64 then 512 else 8 * |rest|);
    if |rest| >= 64 {
      assert rest[|rest| - 64..] == BlockAt(buf, i) && rest[..|rest| - 64] == buf[..|buf| - 64 * (i + 1)];
      AbsorbedChain(p, iv, buf, i + 1, Absorb(p, st, BlockAt(buf, i), 512));
    }
  }

  lemma {:induction false} ChainStep(p: Cipher, iv: Block, buf: seq<byte>, i: nat, st: State, bits: nat)
    requires Complete(p) && i <= |buf| / 64 && st.h == Chain(p, iv, buf, i) && st.N == Vector(512 * i)
    ensures Absorb(p, st, BlockAt(buf, i), bits).h == Chain(p, iv, buf, i + 1)
    ensures bits == 512 ==> Absorb(p, st, BlockAt(buf, i), bits).N == Vector(512 * (i + 1))
  {
    hide GN, Sum, BlockAt, Vector, Value;
    NextVector(512 * i, 512);
  }

  lemma NextVector(n: nat, k: nat)
    ensures Sum(Vector(n), k) == Vector(n + k)
  {
    hide Value, Vector, Sum, Mod512;
    VectorValue(n);
    ModTwice512(n, 0, k);
    SumMod(Vector(n), k);
    VectorOf(Sum(Vector(n), k), n + k);
  }

  lemma VectorValue(n: nat)
    ensures Value(Vector(n)) == Mod512(n)
  {
    hide BE, ToBE, Pow256;
    BERoundTrip(n % Pow256(64), 64);
  }

  lemma SumMod(b: Block, k: nat)
    ensures Value(Sum(b, k)) == Mod512(Value(b) + k)
  {
    hide Value, Sum, Pow256;
    SumValue(b, k);
  }

  /** One more block: compression, counter and checksum. */
  method Compress(p: Cipher, st: State, m: Block, bits: u32) returns (next: State)
    requires Complete(p) && bits <= 512
    ensures next == Absorb(p, st, m, bits)
  {
    hide GN, Value, Pow256, Sum;
    var h := Gn(p, st.N, st.h, m);
    var N := Add(st.N, bits);
    var s := Plus(m, st.s);
    SumIs(st.N, bits, N);
    SumIs(st.s, Value(m), s);
    next := State(h, N, s);
  }

  method Close(p: Cipher, st: State) returns (h: Block)
    requires Complete(p)
    ensures h == Closed(p, st)
  {
    hide GN;
    h := Gn(p, Zeros(64), st.h, st.N);
    h := Gn(p, Zeros(64), h, st.s);
  }

  /** H: whole blocks from the end of the buffer to its beginning. */
  method H(p: Cipher, iv: Block, buf: seq<byte>) returns (digest: Block)
    requires Complete(p)
    ensures digest == Hash(p, iv, buf)
  {
    hide Absorb, Pad, Closed;
    var st := Initial(iv);
    var l := |buf|;
    assert buf[..l] == buf;
    while l >= 64
      invariant l <= |buf| && Absorbed(p, Initial(iv), buf) == Absorbed(p, st, buf[..l])
    {
      var m: Block := buf[l - 64..l];
      assert buf[..l][l - 64..] == m && buf[..l][..l - 64] == buf[..l - 64];
      st := Compress(p, st, m, 512);
      l := l - 64;
    }
    st := Compress(p, st, Pad(buf[..l]), l * 8);
    digest := Close(p, st);
  }

  method GOSTR3411_2012_256(p: Cipher, buf: seq<byte>) returns (digest: seq<byte>)
    requires Complete(p)
    ensures digest == Hash(p, seq(64, _ => 1), buf)[..32]
  {
    var h := H(p, seq(64, _ => 1), buf);
    digest := h[..32];
  }

  method GOSTR3411_2012_512(p: Cipher, buf: seq<byte>) returns (digest: seq<byte>)
    requires Complete(p)
    ensures digest == Hash(p, Zeros(64), buf)
  {
    digest := H(p, Zeros(64), buf);
  }

  // ---------------------------------------------------------------------------------------
  // Streaming
  // ---------------------------------------------------------------------------------------

  lemma {:induction false} ReverseConcat<T>(a: seq<T>, b: seq<T>)
    ensures Reverse(a + b) == Reverse(b) + Reverse(a)
  {
    var r := Reverse(a + b);
    forall k | 0 <= k < |a + b| ensures r[k] == (Reverse(b) + Reverse(a))[k] {}
  }

  /** Blocks of data in order, each turned around. */
  function Streamed(p: Cipher, st: State, data: seq<byte>): State
    requires Complete(p) && |data| % 64 == 0
    decreases |data|
  {
    if data == [] then st
    else
      OneBlockLess(|data|);
      Streamed(p, Absorb(p, st, Reverse(data[..64]), 512), data[64..])
  }

  lemma OneBlockLess(n: nat)
    requires n % 64 == 0 && n > 0
    ensures n >= 64 && (n - 64) % 64 == 0
  {
  }

  lemma {:induction false} StreamedNext(p: Cipher, st: State, data: seq<byte>, b: Block)
    requires Complete(p) && |data| % 64 == 0
    ensures Streamed(p, st, data + b) == Absorb(p, Streamed(p, st, data), Reverse(b), 512)
    decreases |data|
  {
    hide Absorb;
    if data == [] {
      assert data + b == b && b[..64] == b && b[64..] == [];
      assert Streamed(p, Absorb(p, st, Reverse(b), 512), []) == Absorb(p, st, Reverse(b), 512);
    } else {
      assert (data + b)[..64] == data[..64] && (data + b)[64..] == data[64..] + b;
      StreamedNext(p, Absorb(p, st, Reverse(data[..64]), 512), data[64..], b);
    }
  }

  lemma {:induction false} StreamedConcat(p: Cipher, st: State, a: seq<byte>, b: seq<byte>)
    requires Complete(p) && |a| % 64 == 0 && |b| % 64 == 0
    ensures Streamed(p, st, a + b) == Streamed(p, Streamed(p, st, a), b)
    decreases |a|
  {
    hide Absorb;
    if a == [] {
      assert a + b == b;
    } else {
      OneBlockLess(|a|);
      assert (a + b)[..64] == a[..64] && (a + b)[64..] == a[64..] + b;
      StreamedConcat(p, Absorb(p, st, Reverse(a[..64]), 512), a[64..], b);
    }
  }

  lemma AlignedSum(a: nat, b: nat)
    requires a % 64 == 0
    ensures b / 64 * 64 % 64 == 0 && (a + b / 64 * 64) % 64 == 0 && (a + b) / 64 * 64 == a + b / 64 * 64
  {
    var k := a / 64;
    assert a == 64 * k;
    ModUnique(a + b, 64, k + b / 64, b % 64);
  }

  /** An aligned stream grows by the blocks of the next piece. */
  lemma {:induction false} StreamedGrows(p: Cipher, st: State, fed: seq<byte>, data: seq<byte>, n: nat)
    requires Complete(p) && |fed| % 64 == 0 && n == |data| / 64 * 64 && n % 64 == 0 && (|fed| + n) % 64 == 0
    ensures (fed + data)[|fed| + n..] == data[n..]
    ensures Streamed(p, st, (fed + data)[..|fed| + n]) == Streamed(p, Streamed(p, st, fed), data[..n])
  {
    hide Streamed;
    assert (fed + data)[..|fed| + n] == fed + data[..n];
    StreamedConcat(p, st, fed, data[..n]);
  }

  /** Streaming whole blocks and then hashing the tail is hashing the reversal of both. */
  lemma {:induction false} StreamedIsAbsorbed(p: Cipher, st: State, data: seq<byte>, tail: seq<byte>)
    requires Complete(p) && |data| % 64 == 0 && |tail| < 64
    ensures Absorbed(p, Streamed(p, st, data), Reverse(tail)) == Absorbed(p, st, Reverse(data + tail))
    decreases |data|
  {
    hide Absorb, Pad;
    if data == [] {
      assert data + tail == tail;
    } else {
      var b, rest := data[..64], data[64..] + tail;
      assert data + tail == b + rest;
      ReverseConcat(b, rest);
      var r := Reverse(data + tail);
      assert r[|r| - 64..] == Reverse(b) && r[..|r| - 64] == Reverse(rest);
      StreamedIsAbsorbed(p, Absorb(p, st, Reverse(b), 512), data[64..], tail);
    }
  }

  class GOSTR3411_2012_CTX {
    const cipher: Cipher
    const is512: bool
    var h: Block
    var N: Block
    var s: Block
    var m: Block
    var len: nat
    ghost var fed: seq<byte>

    function Iv(): Block {
      if is512 then Zeros(64) else seq(64, _ => 1)
    }

    function Now(): State
      reads this`h, this`N, this`s
    {
      State(h, N, s)
    }

    /** Everything fed so far: whole blocks absorbed, the rest turned around in m. */
    ghost predicate Valid()
      reads this
    {
      var n := |fed| / 64 * 64;
      && Complete(cipher) && len == |fed| - n
      && Now() == Streamed(cipher, Initial(Iv()), fed[..n]) && m[..len] == Reverse(fed[n..])
    }

    constructor (p: Cipher, wide: bool)
      requires Complete(p)
      ensures Valid() && fed == [] && cipher == p && is512 == wide
    {
      cipher, is512 := p, wide;
      h, N, s, m, len, fed := if wide then Zeros(64) else seq(64, _ => 1), Zeros(64), Zeros(64), Zeros(64), 0, [];
    }

    method CompressBlock()
      requires Complete(cipher)
      modifies this`h, this`N, this`s
      ensures Now() == Absorb(cipher, old(Now()), m, 512)
    {
      hide Absorb;
      var next := Compress(cipher, Now(), m, 512);
      h, N, s := next.h, next.N, next.s;
    }

    /** The contract is about pieces that begin on a block boundary. A piece after an incomplete
        block is put in place and compressed at once, whether or not it fills the block. */
    method Update(data: seq<byte>)
      requires Complete(cipher) && len < 64
      modifies this
      ensures len < 64
      ensures old(Valid()) && (old(len) == 0 || data == []) ==> Valid() && fed == old(fed) + data
      ensures 0 < old(len) && 0 < |data| < 64 - old(len) ==> len == 0 && N == Sum(old(N), 512)
    {
      hide Streamed, Absorb, Sum;
      ghost var was := fed;
      fed := fed + data;
      if data == [] {
        assert fed == was;
        return;
      }
      var buf := data;
      if len > 0 {
        buf := TopUp(data);
        Blocks(buf);
      } else {
        assert |was| % 64 == 0 ==> was[..|was| / 64 * 64] == was;
        AppendBlocks(data, was);
      }
    }

    method AppendBlocks(data: seq<byte>, ghost was: seq<byte>)
      requires Complete(cipher) && len == 0 && fed == was + data
      modifies this`h, this`N, this`s, this`m, this`len
      ensures len < 64
      ensures |was| % 64 == 0 && old(Now()) == Streamed(cipher, Initial(Iv()), was) ==> Valid()
    {
      hide Streamed, Absorb;
      if |was| % 64 == 0 {
        AlignedSum(|was|, |data|);
        StreamedGrows(cipher, Initial(Iv()), was, data, |data| / 64 * 64);
      }
      Blocks(data);
    }

    /** The first branch of Update, for what was left of the piece before. */
    method TopUp(data: seq<byte>) returns (rest: seq<byte>)
      requires Complete(cipher) && 0 < len < 64
      modifies this`h, this`N, this`s, this`m
      ensures rest == data[if |data| < 64 - len then |data| else 64 - len..] && N == Sum(old(N), 512)
    {
      hide Absorb, Sum;
      var l := 64 - len;
      if |data| < l { l := |data|; }
      m := m[..len] + Reverse(data[..l]) + m[len + l..];
      CompressBlock();
      CountIs(cipher, old(Now()), m, Now());
      rest := data[l..];
    }

    /** The loop over whole blocks, and the remainder. */
    method Blocks(data: seq<byte>)
      requires Complete(cipher)
      modifies this`h, this`N, this`s, this`m, this`len
      ensures len == |data| % 64 && m[..len] == Reverse(data[|data| / 64 * 64..])
      ensures Now() == Streamed(cipher, old(Now()), data[..|data| / 64 * 64])
      ensures |data| < 64 ==> Now() == old(Now())
    {
      hide Streamed, Absorb;
      ghost var st := Now();
      NothingStreamed(cipher, st);
      var i := 0;
      assert data[..0] == [];
      while |data| - i >= 64
        invariant 0 <= i <= |data| && i % 64 == 0 && Now() == Streamed(cipher, st, data[..i])
      {
        var b: Block := data[i..i + 64];
        m := Reverse(b);
        StreamedNext(cipher, st, data[..i], b);
        assert data[..i] + b == data[..i + 64];
        i := i + 64;
        CompressBlock();
      }
      assert i == |data| / 64 * 64;
      var rest := data[i..];
      m := Reverse(rest) + m[|rest|..];
      len := |rest|;
    }

    method Finish() returns (digest: seq<byte>)
      requires Complete(cipher) && len < 64
      modifies this`h, this`N, this`s
      ensures digest == Reverse(Closed(cipher, Absorbed(cipher, old(Now()), m[..len]))[..if is512 then 64 else 32])
      ensures old(Valid()) ==> digest == Reverse(Hash(cipher, Iv(), Reverse(fed))[..if is512 then 64 else 32])
    {
      hide Absorb, Streamed, Closed, Pad;
      ghost var n := |fed| / 64 * 64;
      if Valid() {
        StreamedIsAbsorbed(cipher, Initial(Iv()), fed[..n], fed[n..]);
        assert fed[..n] + fed[n..] == fed;
      }
      assert |m[..len]| == len;
      var next := Compress(cipher, Now(), Pad(m[..len]), len * 8);
      h, N, s := next.h, next.N, next.s;
      h := Close(cipher, next);
      var sz := if is512 then 64 else 32;
      digest := Reverse(h[..sz]);
    }
  }

  lemma {:induction false} NothingStreamed(p: Cipher, st: State)
    requires Complete(p)
    ensures Streamed(p, st, []) == st
  {
  }

  lemma CountIs(p: Cipher, st: State, m: Block, next: State)
    requires Complete(p) && next == Absorb(p, st, m, 512)
    ensures next.N == Sum(st.N, 512)
  {
  }
}
