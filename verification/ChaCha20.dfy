/** The stream cipher of libdotnet/ChaCha20.cpp: the block function of section 2.3 of RFC 8439
    and in-place encryption with a carried block offset. */
module ChaCha20 {
  import opened Bytes

  const TWO_32: int := 0x1_0000_0000

  // ---------------------------------------------------------------------------------------
  // The block function
  // ---------------------------------------------------------------------------------------

  function Add32(x: u32, y: u32): u32 {
    (x + y) % TWO_32
  }

  function Xor32(x: u32, y: u32): u32 {
    XorFits(x, y);
    Xor(x, y)
  }

  /** Left rotation by n: the bits shifted out at the top come back at the bottom. */
  function Rotl32(x: u32, n: nat): u32
    requires n <= 32
  {
    (x * Pow2(n) + x / Pow2(32 - n)) % TWO_32
  }

  type State = s: seq<u32> | |s| == 16 witness seq(16, _ => 0)

  /** One add, exclusive or and rotate step on words a, b and d. */
  function Mix(s: State, a: nat, b: nat, d: nat, n: nat): State
    requires a < 16 && b < 16 && d < 16 && n <= 32
  {
    var t := s[a := Add32(s[a], s[b])];
    t[d := Rotl32(Xor32(t[d], t[a]), n)]
  }

  /** Section 2.1 of RFC 8439. */
  function QuarterRound(s: State, a: nat, b: nat, c: nat, d: nat): State
    requires a < 16 && b < 16 && c < 16 && d < 16
  {
    Mix(Mix(Mix(Mix(s, a, b, d, 16), c, d, b, 12), a, b, d, 8), c, d, b, 7)
  }

  function DoubleRound(s: State): State {
    var c := QuarterRound(QuarterRound(QuarterRound(QuarterRound(s, 0, 4, 8, 12), 1, 5, 9, 13), 2, 6, 10, 14), 3, 7, 11, 15);
    QuarterRound(QuarterRound(QuarterRound(QuarterRound(c, 0, 5, 10, 15), 1, 6, 11, 12), 2, 7, 8, 13), 3, 4, 9, 14)
  }

  function DoubleRounds(s: State, n: nat): State {
    if n == 0 then s else DoubleRound(DoubleRounds(s, n - 1))
  }

  function AddState(s: State, t: State): State {
    seq(16, i requires 0 <= i < 16 => Add32(s[i], t[i]))
  }

  function Serialize(s: seq<u32>): (b: seq<byte>)
    ensures |b| == 4 * |s|
  {
    if s == [] then [] else Serialize(s[..|s| - 1]) + ToLE(s[|s| - 1], 4)
  }

  /** Byte b of word i stands at 4 i + b and has the weight 256^b. */
  lemma {:induction false} SerializedAt(s: seq<u32>, i: nat)
    requires i < |s|
    ensures var b: seq<int> := Serialize(s);
      s[i] == b[4 * i] + 0x100 * b[4 * i + 1] + 0x1_0000 * b[4 * i + 2] + 0x100_0000 * b[4 * i + 3]
    decreases |s|
  {
    var n := |s| - 1;
    if i < n {
      SerializedAt(s[..n], i);
    } else {
      LowBytes(s[n]);
      FourDigits(s[n]);
    }
  }

  lemma FourDigits(v: u32)
    ensures v == v % 256 + 0x100 * (v / 0x100 % 256) + 0x1_0000 * (v / 0x1_0000 % 256) + 0x100_0000 * (v / 0x100_0000 % 256)
  {
    var a, b := v / 256, v / 256 / 256;
    assert v / 0x1_0000 == b && v / 0x100_0000 == b / 256;
    assert b / 256 < 256;
  }

  /** The 64 key-stream bytes of a state, section 2.3 of RFC 8439. */
  function KeyBlock(s: State): (b: seq<byte>)
    ensures |b| == 64
  {
    Serialize(AddState(DoubleRounds(s, 10), s))
  }

  method Quarterround(x: array<u32>, a: nat, b: nat, c: nat, d: nat)
    requires x.Length == 16 && a < 16 && b < 16 && c < 16 && d < 16
    modifies x
    ensures x[..] == QuarterRound(old(x[..]), a, b, c, d)
  {
    MixInPlace(x, a, b, d, 16);
    MixInPlace(x, c, d, b, 12);
    MixInPlace(x, a, b, d, 8);
    MixInPlace(x, c, d, b, 7);
  }

  method MixInPlace(x: array<u32>, a: nat, b: nat, d: nat, n: nat)
    requires x.Length == 16 && a < 16 && b < 16 && d < 16 && n <= 32
    modifies x
    ensures x[..] == Mix(old(x[..]), a, b, d, n)
  {
    x[a] := Add32(x[a], x[b]);
    x[d] := Rotl32(Xor32(x[d], x[a]), n);
  }

  /** chacha::block: ten double rounds on a copy of the state, then the feed-forward. */
  method Block(data: array<u32>, block: array<byte>)
    requires data.Length == 16 && block.Length == 64
    modifies block
    ensures block[..] == KeyBlock(data[..])
  {
    hide QuarterRound, Add32, KeyBlock, Serialize;
    var x := new u32[16](i requires 0 <= i < 16 reads data => data[i]);
    ghost var input := data[..];
    assert x[..] == input;
    var i := 20;
    while i > 0
      invariant 0 <= i <= 20 && i % 2 == 0
      invariant x[..] == DoubleRounds(input, (20 - i) / 2)
    {
      TwoRounds(x);
      i := i - 2;
    }
    ghost var rounds := x[..];
    for k := 0 to 16
      invariant forall j :: 0 <= j < k ==> x[j] == Add32(rounds[j], input[j])
      invariant forall j :: k <= j < 16 ==> x[j] == rounds[j]
    {
      x[k] := Add32(x[k], data[k]);
    }
    assert x[..] == AddState(rounds, input);
    WriteWords(x, block);
    KeyBlockUnfold(input);
  }

  lemma {:induction false} KeyBlockUnfold(s: State)
    ensures KeyBlock(s) == Serialize(AddState(DoubleRounds(s, 10), s))
  {
  }

  method TwoRounds(x: array<u32>)
    requires x.Length == 16
    modifies x
    ensures x[..] == DoubleRound(old(x[..]))
  {
    hide QuarterRound;
    Quarterround(x, 0, 4, 8, 12);
    Quarterround(x, 1, 5, 9, 13);
    Quarterround(x, 2, 6, 10, 14);
    Quarterround(x, 3, 7, 11, 15);
    Quarterround(x, 0, 5, 10, 15);
    Quarterround(x, 1, 6, 11, 12);
    Quarterround(x, 2, 7, 8, 13);
    Quarterround(x, 3, 4, 9, 14);
  }

  /** operator<<: the sixteen words, each least significant byte first. */
  method WriteWords(x: array<u32>, block: array<byte>)
    requires x.Length == 16 && block.Length == 64
    modifies block
    ensures block[..] == Serialize(x[..])
  {
    for i := 0 to 16
      invariant block[..4 * i] == Serialize(x[..i])
    {
      ghost var done := block[..4 * i];
      WriteWord(x[i], block, 4 * i);
      assert x[..i + 1][..i] == x[..i];
      assert block[..4 * i + 4] == done + ToLE(x[i], 4);
    }
    assert x[..16] == x[..] && block[..64] == block[..];
  }

  /** u32t8le */
  method WriteWord(v: u32, p: array<byte>, off: nat)
    requires off + 4 <= p.Length
    modifies p
    ensures p[..off] == old(p[..off])
    ensures p[off..off + 4] == ToLE(v, 4)
  {
    LowBytes(v);
    p[off] := v % 256;
    p[off + 1] := v / 0x100 % 256;
    p[off + 2] := v / 0x1_0000 % 256;
    p[off + 3] := v / 0x100_0000 % 256;
  }

  lemma {:induction false} LowBytes(v: u32)
    ensures ToLE(v, 4) == [v % 256, v / 0x100 % 256, v / 0x1_0000 % 256, v / 0x100_0000 % 256]
  {
    assert Pow256(0) == 1 && Pow256(1) == 0x100;
    assert Pow256(2) == 0x1_0000;
    assert Pow256(3) == 0x100_0000;
    assert ToLE(v, 1) == [v % 256];
    assert ToLE(v, 2) == ToLE(v, 1) + [v / 0x100 % 256];
    assert ToLE(v, 3) == ToLE(v, 2) + [v / 0x1_0000 % 256];
    assert ToLE(v, 4) == ToLE(v, 3) + [v / 0x100_0000 % 256];
  }

  // ---------------------------------------------------------------------------------------
  // The key stream and its offset
  // ---------------------------------------------------------------------------------------

  /** The state whose block counter is n blocks after that of s; the counter is a 32-bit word. */
  function AtBlock(s: State, n: nat): State {
    s[12 := (s[12] + n) % TWO_32]
  }

  function StreamByte(s: State, i: nat): byte {
    KeyBlock(AtBlock(s, i / 64))[i % 64]
  }

  /** n key-stream bytes from byte position p. */
  function Stream(s: State, p: nat, n: nat): (b: seq<byte>)
    ensures |b| == n
  {
    seq<byte>(n, i requires 0 <= i < n => StreamByte(s, p + i))
  }

  /** A message is encrypted and decrypted by exclusive or with the stream. */
  function Crypt(s: State, p: nat, m: seq<byte>): (c: seq<byte>)
    ensures |c| == |m|
  {
    XorSeq(m, Stream(s, p, |m|))
  }

  /** Block by block the stream is the key blocks of consecutive counters. */
  lemma StreamBlock(s: State, k: nat)
    ensures Stream(s, 64 * k, 64) == KeyBlock(s[12 := (s[12] + k) % 0x1_0000_0000])
  {
    hide KeyBlock;
    forall i | 0 <= i < 64 ensures Stream(s, 64 * k, 64)[i] == KeyBlock(s[12 := (s[12] + k) % 0x1_0000_0000])[i] {
      ModUnique(64 * k + i, 64, k, i);
      assert Stream(s, 64 * k, 64)[i] == StreamByte(s, 64 * k + i) == KeyBlock(AtBlock(s, k))[i];
    }
  }

  lemma StreamConcat(s: State, p: nat, m: nat, n: nat)
    ensures Stream(s, p, m + n) == Stream(s, p, m) + Stream(s, p + m, n)
  {
    hide StreamByte;
    var t := Stream(s, p, m + n);
    assert t[..m] == Stream(s, p, m);
    assert t[m..] == Stream(s, p + m, n);
  }

  /** The stream does not depend on how the message is cut into pieces. */
  lemma CryptConcat(s: State, p: nat, a: seq<byte>, b: seq<byte>)
    ensures Crypt(s, p, a + b) == Crypt(s, p, a) + Crypt(s, p + |a|, b)
  {
    hide StreamByte, XorByte;
    StreamConcat(s, p, |a|, |b|);
    XorSeqConcat(a, b, Stream(s, p, |a|), Stream(s, p + |a|, |b|));
  }

  lemma CryptInvolutive(s: State, p: nat, m: seq<byte>)
    ensures Crypt(s, p, Crypt(s, p, m)) == m
  {
    XorSeqInvolutive(m, Stream(s, p, |m|));
  }

  /** A zero message shows the stream itself. */
  lemma CryptZeros(s: State, p: nat, n: nat)
    ensures Crypt(s, p, Zeros(n)) == Stream(s, p, n)
  {
    hide StreamByte;
    forall i | 0 <= i < n ensures XorByte(0, Stream(s, p, n)[i]) == Stream(s, p, n)[i] {
      XorZero(Stream(s, p, n)[i]);
    }
  }

  /** The initial state, section 2.3 of RFC 8439: constants, key, counter, nonce. */
  function InitState(key: seq<byte>, nonce: seq<byte>, counter: u32): State
    requires |key| == 32 && |nonce| == 12
  {
    seq(16, i requires 0 <= i < 16 =>
      if i == 0 then 0x61707865 else if i == 1 then 0x3320646e
      else if i == 2 then 0x79622d32 else if i == 3 then 0x6b206574
      else if i < 12 then Word(key, i - 4)
      else if i == 12 then counter
      else Word(nonce, i - 13))
  }

  /** u8t32le at word i. */
  function Word(b: seq<byte>, i: nat): u32
    requires 4 * i + 4 <= |b|
  {
    var x0: int, x1: int, x2: int, x3: int := b[4 * i], b[4 * i + 1], b[4 * i + 2], b[4 * i + 3];
    x0 + 0x100 * x1 + 0x1_0000 * x2 + 0x100_0000 * x3
  }

  method LoadState(data: array<u32>, key: seq<byte>, nonce: seq<byte>, counter: u32)
    requires data.Length == 16 && |key| == 32 && |nonce| == 12
    modifies data
    ensures data[..] == InitState(key, nonce, counter)
  {
    hide Word;
    ghost var s := InitState(key, nonce, counter);
    data[0], data[1], data[2], data[3] := 0x61707865, 0x3320646e, 0x79622d32, 0x6b206574;
    for i := 0 to 8
      invariant data[..4 + i] == s[..4 + i]
    {
      data[4 + i] := Word(key, i);
      assert s[..5 + i] == s[..4 + i] + [Word(key, i)];
    }
    data[12] := counter;
    assert s[..13] == s[..12] + [counter];
    for i := 0 to 3
      invariant data[..13 + i] == s[..13 + i]
    {
      data[13 + i] := Word(nonce, i);
      assert s[..14 + i] == s[..13 + i] + [Word(nonce, i)];
    }
    assert data[..16] == data[..] && s[..16] == s;
  }

  class Chacha20State {
    const data: array<u32>
    const block: array<byte>
    var offset: nat
    ghost var start: State  // the state when the counter was last set
    ghost var pos: nat      // bytes produced since then

    ghost predicate Valid()
      reads this, data, block
    {
      && data.Length == 16 && block.Length == 64
      && offset == pos % 64
      && data[..] == AtBlock(start, (pos + 63) / 64)
      && (offset > 0 ==> block[..] == KeyBlock(AtBlock(start, pos / 64)))
    }

    /** Construction and Chacha20Init, which leaves the offset at zero. */
    constructor (key: seq<byte>, nonce: seq<byte>, counter: u32)
      requires |key| == 32 && |nonce| == 12
      ensures Valid() && fresh(data) && fresh(block)
      ensures start == InitState(key, nonce, counter) && pos == 0
    {
      hide KeyBlock, InitState;
      data, block := new u32[16](_ => 0), new byte[64](_ => 0);
      offset, start, pos := 0, InitState(key, nonce, counter), 0;
      new;
      LoadState(data, key, nonce, counter);
    }

    method SetCounter(counter: u32)
      requires Valid()
      modifies this, data
      ensures Valid() && start == old(start)[12 := counter] && pos == 0
    {
      hide KeyBlock;
      data[12] := counter;
      offset := 0;
      start, pos := data[..], 0;
    }

    /** buf[o + i] ^= block[from + i] for k bytes. */
    method XorBlock(buf: array<byte>, o: nat, k: nat, from: nat)
      requires block.Length == 64 && o + k <= buf.Length && from + k <= 64 && buf != block
      modifies buf
      ensures buf[o..o + k] == XorSeq(old(buf[o..o + k]), block[from..from + k])
      ensures buf[..o] == old(buf[..o]) && buf[o + k..] == old(buf[o + k..])
    {
      hide KeyBlock, AtBlock, XorByte;
      ghost var m := buf[o..o + k];
      ghost var x := XorSeq(m, block[from..from + k]);
      for i := 0 to k
        invariant buf[..o] == old(buf[..o]) && buf[o + k..] == old(buf[o + k..])
        invariant forall j :: 0 <= j < i ==> buf[o + j] == x[j]
        invariant forall j :: i <= j < k ==> buf[o + j] == m[j]
      {
        buf[o + i] := XorByte(buf[o + i], block[from + i]);
      }
      assert buf[o..o + k] == x;
    }

    /** First part of Chacha20Encrypt: the rest of the previous block. */
    method FinishBlock(buf: array<byte>, off: nat, sz: nat) returns (s: nat)
      requires Valid() && offset > 0 && off + sz <= buf.Length && buf != block
      modifies this, buf
      ensures Valid() && start == old(start) && s <= sz && pos == old(pos) + s
      ensures offset == 0 || s == sz
      ensures buf[off..off + s] == Crypt(start, old(pos), old(buf[off..off + s]))
      ensures buf[..off] == old(buf[..off]) && buf[off + s..] == old(buf[off + s..])
    {
      hide KeyBlock, AtBlock, XorByte;
      s := 64 - offset;
      if sz < s { s := sz; }
      BlockIsStream(start, pos, s);
      XorBlock(buf, off, s, offset);
      SameBlock(pos, s);
      offset := offset + s;
      if offset >= 64 { offset := 0; }
      pos := pos + s;
    }

    /** Generate the next block and step the counter word. */
    method NextBlock()
      requires Valid() && offset == 0
      modifies data, block
      ensures block[..] == KeyBlock(AtBlock(start, pos / 64))
      ensures data[..] == AtBlock(start, pos / 64 + 1)
    {
      hide KeyBlock;
      Block(data, block);
      data[12] := (data[12] + 1) % TWO_32;
      CounterStep(start, pos / 64);
    }

    /** One round of the main loop: a fresh block, of which k bytes are used. */
    method FreshBlock(buf: array<byte>, o: nat, k: nat)
      requires Valid() && offset == 0 && 0 < k <= 64 && o + k <= buf.Length && buf != block
      modifies this, data, block, buf
      ensures Valid() && start == old(start) && pos == old(pos) + k
      ensures k == 64 ==> offset == 0
      ensures buf[o..o + k] == Crypt(start, old(pos), old(buf[o..o + k]))
      ensures buf[..o] == old(buf[..o]) && buf[o + k..] == old(buf[o + k..])
    {
      hide KeyBlock, AtBlock, XorByte;
      NextBlock();
      BlockIsStream(start, pos, k);
      ghost var current := block[..];
      XorBlock(buf, o, k, 0);
      if k < 64 { offset := k % 64; }
      pos := pos + k;
      assert block[..] == current;
    }

    /** Encrypt sz bytes of buf in place, continuing the stream where the last call stopped. */
    method Encrypt(buf: array<byte>, off: nat, sz: nat)
      requires Valid() && off + sz <= buf.Length && buf != block
      modifies this, data, block, buf
      ensures Valid() && start == old(start) && pos == old(pos) + sz
      ensures buf[off..off + sz] == Crypt(start, old(pos), old(buf[off..off + sz]))
      ensures buf[..off] == old(buf[..off]) && buf[off + sz..] == old(buf[off + sz..])
    {
      hide *;
      ghost var p, before := pos, buf[..];
      var s := 0;
      CryptNothing(start, pos);
      if offset > 0 {
        s := FinishBlock(buf, off, sz);
      }
      var i := s;
      while i < sz
        invariant Valid() && start == old(start) && s <= i <= sz && pos == p + i
        invariant i < sz ==> offset == 0
        invariant buf[off..off + i] == Crypt(start, p, before[off..off + i])
        invariant buf[..off] == before[..off] && buf[off + i..] == before[off + i..]
        decreases sz - i
      {
        var k := if sz - i < 64 then sz - i else 64;
        ghost var mid := buf[..];
        FreshBlock(buf, off + i, k);
        NextPiece(before, mid, buf[..], off, i, k, start, p);
        i := i + k;
      }
    }
  }

  /** One more encrypted piece extends the encrypted prefix. */
  lemma NextPiece(before: seq<byte>, mid: seq<byte>, after: seq<byte>, off: nat, i: nat, k: nat, s: State, p: nat)
    requires |before| == |mid| == |after| && off + i + k <= |before|
    requires mid[off..off + i] == Crypt(s, p, before[off..off + i])
    requires mid[..off] == before[..off] && mid[off + i..] == before[off + i..]
    requires after[off + i..off + i + k] == Crypt(s, p + i, mid[off + i..off + i + k])
    requires after[..off + i] == mid[..off + i] && after[off + i + k..] == mid[off + i + k..]
    ensures after[off..off + i + k] == Crypt(s, p, before[off..off + i + k])
    ensures after[..off] == before[..off] && after[off + i + k..] == before[off + i + k..]
  {
    hide Crypt;
    CryptConcat(s, p, before[off..off + i], before[off + i..off + i + k]);
    JoinSlice(before, off, off + i, off + i + k);
    JoinSlice(after, off, off + i, off + i + k);
    TakeSlice(after, off + i, off, off + i); TakeSlice(mid, off + i, off, off + i);
    DropSlice(mid, off + i, 0, k); DropSlice(before, off + i, 0, k);
    TakeSlice(after, off + i, 0, off); TakeSlice(mid, off + i, 0, off);
    DropDrop(mid, off + i, k); DropDrop(before, off + i, k);
  }

  lemma CryptNothing(s: State, p: nat)
    ensures Crypt(s, p, []) == []
  {
  }

  /** Within one block the stream is a slice of the key block. */
  lemma BlockIsStream(s: State, p: nat, k: nat)
    requires p % 64 + k <= 64
    ensures Stream(s, p, k) == KeyBlock(AtBlock(s, p / 64))[p % 64..p % 64 + k]
  {
    hide KeyBlock;
    var t, b := Stream(s, p, k), KeyBlock(AtBlock(s, p / 64))[p % 64..p % 64 + k];
    forall i | 0 <= i < k ensures t[i] == b[i] {
      SameQuotient(p, i);
      assert t[i] == StreamByte(s, p + i);
    }
  }

  lemma SameQuotient(p: nat, i: nat)
    requires p % 64 + i < 64
    ensures (p + i) / 64 == p / 64 && (p + i) % 64 == p % 64 + i
  {
  }

  lemma SameBlock(p: nat, k: nat)
    requires 0 < p % 64 && p % 64 + k <= 64
    ensures (p + k + 63) / 64 == (p + 63) / 64
    ensures (p + k) % 64 == (if p % 64 + k == 64 then 0 else p % 64 + k)
    ensures p % 64 + k < 64 ==> (p + k) / 64 == p / 64
  {
  }

  lemma CounterStep(s: State, q: nat)
    ensures AtBlock(s, q)[12 := (AtBlock(s, q)[12] + 1) % TWO_32] == AtBlock(s, q + 1)
  {
  }
}
