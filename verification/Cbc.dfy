/** AES-256-CBC of libdotnet/Crypto.cpp over an uninterpreted block function: the in-place
    encryption and decryption loops, and the doubly encrypted IV of tunnel messages. */
module Cbc {
  import opened Bytes

  type Block = s: seq<byte> | |s| == 16 witness Zeros(16)

  datatype Aes = Aes(enc: (seq<byte>, Block) -> Block, dec: (seq<byte>, Block) -> Block)

  /** D(E(b)) == b and E(D(b)) == b under every key. */
  ghost predicate Permutation(aes: Aes) {
    forall key: seq<byte>, b: Block {:trigger aes.enc(key, b)} {:trigger aes.dec(key, b)} ::
      aes.dec(key, aes.enc(key, b)) == b && aes.enc(key, aes.dec(key, b)) == b
  }

  function XorBlock(a: Block, b: Block): Block {
    XorSeq(a, b)
  }

  // ---------------------------------------------------------------------------------------
  // The mode
  // ---------------------------------------------------------------------------------------

  function Encrypted(aes: Aes, key: seq<byte>, iv: Block, m: seq<byte>): (c: seq<byte>)
    requires |m| % 16 == 0
    ensures |c| == |m|
    decreases |m|
  {
    if m == [] then []
    else
      var b := aes.enc(key, XorBlock(iv, m[..16]));
      b + Encrypted(aes, key, b, m[16..])
  }

  function Decrypted(aes: Aes, key: seq<byte>, iv: Block, c: seq<byte>): (m: seq<byte>)
    requires |c| % 16 == 0
    ensures |m| == |c|
    decreases |c|
  {
    if c == [] then []
    else XorBlock(aes.dec(key, c[..16]), iv) + Decrypted(aes, key, c[..16], c[16..])
  }

  /** Each ciphertext block is the encryption of its plaintext block and the ciphertext block before it. */
  lemma {:induction false} CipherBlocks(aes: Aes, key: seq<byte>, iv: Block, m: seq<byte>, i: nat)
    requires |m| % 16 == 0 && 16 * i + 16 <= |m|
    ensures var c := Encrypted(aes, key, iv, m);
      c[16 * i..16 * i + 16] == aes.enc(key, XorBlock(if i == 0 then iv else c[16 * i - 16..16 * i], m[16 * i..16 * i + 16]))
    decreases i
  {
    hide XorBlock;
    var b, rest := aes.enc(key, XorBlock(iv, m[..16])), m[16..];
    var c, d := Encrypted(aes, key, iv, m), Encrypted(aes, key, b, m[16..]);
    assert c == b + d;
    if i > 0 {
      CipherBlocks(aes, key, b, rest, i - 1);
      var j := 16 * (i - 1);
      DropSlice(m, 16, j, j + 16); DropSlice(c, 16, j, j + 16);
      assert c[16..] == d;
      if i > 1 { DropSlice(c, 16, j - 16, j); } else { assert c[0..16] == b; }
    }
  }

  /** And each plaintext block the decryption of its ciphertext block with the one before it. */
  lemma {:induction false} PlainBlocks(aes: Aes, key: seq<byte>, iv: Block, c: seq<byte>, i: nat)
    requires |c| % 16 == 0 && 16 * i + 16 <= |c|
    ensures Decrypted(aes, key, iv, c)[16 * i..16 * i + 16]
      == XorBlock(aes.dec(key, c[16 * i..16 * i + 16]), if i == 0 then iv else c[16 * i - 16..16 * i])
    decreases i
  {
    hide XorBlock;
    var m, d := Decrypted(aes, key, iv, c), Decrypted(aes, key, c[..16], c[16..]);
    assert m == XorBlock(aes.dec(key, c[..16]), iv) + d;
    if i > 0 {
      PlainBlocks(aes, key, c[..16], c[16..], i - 1);
      var j := 16 * (i - 1);
      DropSlice(m, 16, j, j + 16); DropSlice(c, 16, j, j + 16);
      assert m[16..] == d;
      if i > 1 { DropSlice(c, 16, j - 16, j); } else { assert c[0..16] == c[..16]; }
    }
  }

  /** The chaining value after ciphertext c: its last block. */
  function Last(iv: Block, c: seq<byte>): Block
    requires |c| % 16 == 0
  {
    if c == [] then iv else c[|c| - 16..]
  }

  lemma XorBack(a: Block, b: Block)
    ensures XorBlock(XorBlock(a, b), a) == b && XorBlock(XorBlock(b, a), a) == b
    ensures XorBlock(a, XorBlock(b, a)) == b
  {
    XorSeqInvolutive(b, a);
    XorBlockCommutes(a, b);
    XorBlockCommutes(a, XorBlock(b, a));
  }

  lemma XorBlockCommutes(a: Block, b: Block)
    ensures XorBlock(a, b) == XorBlock(b, a)
  {
    forall k | 0 <= k < 16 ensures XorBlock(a, b)[k] == XorBlock(b, a)[k] { XorCommutes(a[k], b[k]); }
  }

  lemma {:induction false} FirstBlock(aes: Aes, key: seq<byte>, iv: Block, b: Block, rest: seq<byte>)
    requires |rest| % 16 == 0
    ensures Encrypted(aes, key, iv, b + rest) ==
      aes.enc(key, XorBlock(iv, b)) + Encrypted(aes, key, aes.enc(key, XorBlock(iv, b)), rest)
    ensures Decrypted(aes, key, iv, b + rest) == XorBlock(aes.dec(key, b), iv) + Decrypted(aes, key, b, rest)
  {
    assert (b + rest)[..16] == b && (b + rest)[16..] == rest;
  }

  lemma {:induction false} DecryptedEncrypted(aes: Aes, key: seq<byte>, iv: Block, m: seq<byte>)
    requires Permutation(aes) && |m| % 16 == 0
    ensures Decrypted(aes, key, iv, Encrypted(aes, key, iv, m)) == m
    decreases |m|
  {
    hide Encrypted, Decrypted, XorBlock;
    if m == [] {
      NothingYet(aes, key, iv);
    } else {
      var a: Block, rest := m[..16], m[16..];
      assert m == a + rest;
      var b := aes.enc(key, XorBlock(iv, a));
      FirstBlock(aes, key, iv, a, rest);
      FirstBlock(aes, key, iv, b, Encrypted(aes, key, b, rest));
      XorBack(iv, a);
      DecryptedEncrypted(aes, key, b, rest);
    }
  }

  lemma {:induction false} EncryptedDecrypted(aes: Aes, key: seq<byte>, iv: Block, c: seq<byte>)
    requires Permutation(aes) && |c| % 16 == 0
    ensures Encrypted(aes, key, iv, Decrypted(aes, key, iv, c)) == c
    decreases |c|
  {
    hide Encrypted, Decrypted, XorBlock;
    if c == [] {
      NothingYet(aes, key, iv);
    } else {
      var b: Block, rest := c[..16], c[16..];
      assert c == b + rest;
      FirstBlock(aes, key, iv, b, rest);
      FirstBlock(aes, key, iv, XorBlock(aes.dec(key, b), iv), Decrypted(aes, key, b, rest));
      XorBack(iv, aes.dec(key, b));
      EncryptedDecrypted(aes, key, b, rest);
    }
  }

  /** Encrypting in pieces is encrypting at once, if the chaining value is carried over. */
  lemma {:induction false} EncryptedConcat(aes: Aes, key: seq<byte>, iv: Block, a: seq<byte>, b: seq<byte>)
    requires |a| % 16 == 0 && |b| % 16 == 0
    ensures Encrypted(aes, key, iv, a + b)
         == Encrypted(aes, key, iv, a) + Encrypted(aes, key, Last(iv, Encrypted(aes, key, iv, a)), b)
    decreases |a|
  {
    hide Encrypted, XorBlock, Last;
    NothingYet(aes, key, iv);
    if a == [] {
      assert a + b == b;
    } else {
      var h: Block, rest := a[..16], a[16..];
      var c := aes.enc(key, XorBlock(iv, h));
      assert a == h + rest && a + b == h + (rest + b);
      FirstBlock(aes, key, iv, h, rest);
      FirstBlock(aes, key, iv, h, rest + b);
      EncryptedConcat(aes, key, c, rest, b);
      LastConcat(iv, c, Encrypted(aes, key, c, rest));
      LastBlock(iv, c);
    }
  }

  lemma LastBlock(iv: Block, b: Block)
    ensures Last(iv, b) == b
  {
  }

  lemma LastConcat(iv: Block, a: seq<byte>, b: seq<byte>)
    requires |a| % 16 == 0 && |b| % 16 == 0
    ensures Last(iv, a + b) == Last(Last(iv, a), b)
  {
    if b == [] { assert a + b == a; }
  }

  lemma {:induction false} DecryptedConcat(aes: Aes, key: seq<byte>, iv: Block, a: seq<byte>, b: seq<byte>)
    requires |a| % 16 == 0 && |b| % 16 == 0
    ensures Decrypted(aes, key, iv, a + b) == Decrypted(aes, key, iv, a) + Decrypted(aes, key, Last(iv, a), b)
    decreases |a|
  {
    hide Decrypted, XorBlock, Last;
    NothingYet(aes, key, iv);
    if a == [] {
      assert a + b == b;
    } else {
      var h: Block, rest := a[..16], a[16..];
      assert a == h + rest && a + b == h + (rest + b);
      FirstBlock(aes, key, iv, h, rest);
      FirstBlock(aes, key, iv, h, rest + b);
      DecryptedConcat(aes, key, h, rest, b);
      LastConcat(iv, h, rest);
      LastBlock(iv, h);
    }
  }

  lemma {:induction false} OneBlock(aes: Aes, key: seq<byte>, iv: Block, b: Block)
    ensures Encrypted(aes, key, iv, b) == aes.enc(key, XorBlock(iv, b))
    ensures Decrypted(aes, key, iv, b) == XorBlock(aes.dec(key, b), iv)
    ensures Last(iv, b) == b
  {
    assert b[..16] == b && b[16..] == [];
  }

  // ---------------------------------------------------------------------------------------
  // The in-place loops
  // ---------------------------------------------------------------------------------------

  method ReadBlock(mem: array<byte>, at: nat) returns (b: Block)
    requires at + 16 <= mem.Length
    ensures b == mem[at..at + 16]
  {
    b := mem[at..at + 16];
  }

  method WriteBlock(mem: array<byte>, at: nat, b: Block)
    requires at + 16 <= mem.Length
    modifies mem
    ensures mem[at..at + 16] == b && mem[..at] == old(mem[..at]) && mem[at + 16..] == old(mem[at + 16..])
  {
    for i := 0 to 16
      invariant mem[..at] == old(mem[..at]) && mem[at + 16..] == old(mem[at + 16..])
      invariant mem[at..at + i] == b[..i]
    {
      mem[at + i] := b[i];
      assert mem[at..at + i + 1] == mem[at..at + i] + [mem[at + i]];
    }
  }

  /** What writing one block keeps: everything before it, and the input not yet read. */
  lemma BlockWritten(before: seq<byte>, after: seq<byte>, src: nat, dst: nat, n: nat, i: nat)
    requires |before| == |after| && i + 16 <= n && src + n <= |before| && dst + n <= |before|
    requires src == dst || src + n <= dst || dst + n <= src
    requires after[..dst + i] == before[..dst + i] && after[dst + i + 16..] == before[dst + i + 16..]
    ensures after[..dst] == before[..dst] && after[dst + n..] == before[dst + n..]
    ensures after[dst..dst + i] == before[dst..dst + i]
    ensures after[src + i + 16..src + n] == before[src + i + 16..src + n]
  {
    TakeSlice(after, dst + i, 0, dst); TakeSlice(before, dst + i, 0, dst);
    TakeSlice(after, dst + i, dst, dst + i); TakeSlice(before, dst + i, dst, dst + i);
    DropDrop(after, dst + i + 16, n - i - 16); DropDrop(before, dst + i + 16, n - i - 16);
    if src == dst || dst + n <= src {
      var k := src - dst;
      DropSlice(after, dst + i + 16, k, k + n - i - 16);
      DropSlice(before, dst + i + 16, k, k + n - i - 16);
    } else {
      TakeSlice(after, dst + i, src + i + 16, src + n);
      TakeSlice(before, dst + i, src + i + 16, src + n);
    }
  }

  class CBCEncryption {
    const aes: Aes
    var key: seq<byte>
    var lastBlock: Block

    constructor (cipher: Aes)
      ensures aes == cipher && lastBlock == Zeros(16)
    {
      aes, key, lastBlock := cipher, [], Zeros(16);
    }

    method SetKey(k: seq<byte>)
      modifies this`key
      ensures key == k
    {
      key := k;
    }

    method SetIV(iv: Block)
      modifies this`lastBlock
      ensures lastBlock == iv
    {
      lastBlock := iv;
    }

    method GetIV() returns (iv: Block)
      ensures iv == lastBlock
    {
      iv := lastBlock;
    }

    method EncryptBlock(mem: array<byte>, src: nat, dst: nat)
      requires src + 16 <= mem.Length && dst + 16 <= mem.Length
      modifies this`lastBlock, mem
      ensures mem[dst..dst + 16] == lastBlock == aes.enc(key, XorBlock(old(lastBlock), old(mem[src..src + 16])))
      ensures mem[..dst] == old(mem[..dst]) && mem[dst + 16..] == old(mem[dst + 16..])
    {
      hide XorBlock;
      var b := ReadBlock(mem, src);
      lastBlock := XorBlock(lastBlock, b);
      lastBlock := aes.enc(key, lastBlock);
      WriteBlock(mem, dst, lastBlock);
    }

    method EncryptNext(mem: array<byte>, src: nat, dst: nat, ghost n: nat, i: nat, ghost iv: Block, ghost before: seq<byte>)
      requires Encrypting(aes, key, iv, lastBlock, before, mem[..], src, dst, n, i) && i < n
      modifies this`lastBlock, mem
      ensures Encrypting(aes, key, iv, lastBlock, before, mem[..], src, dst, n, i + 16)
    {
      hide Encrypted, Last, XorBlock;
      ghost var was, last := mem[..], lastBlock;
      EncryptBlock(mem, src + i, dst + i);
      hide Encrypting;
      EncryptingStep(aes, key, iv, last, before, was, mem[..], src, dst, n, i);
    }

    /** Encrypts len / 16 blocks from src to dst, which may be the same place; leaves a tail alone. */
    method Encrypt(mem: array<byte>, src: nat, len: nat, dst: nat)
      requires src + len <= mem.Length && dst + len <= mem.Length
      requires src == dst || src + len <= dst || dst + len <= src
      modifies this`lastBlock, mem
      ensures var n := len / 16 * 16;
        && mem[dst..dst + n] == Encrypted(aes, key, old(lastBlock), old(mem[src..src + n]))
        && mem[..dst] == old(mem[..dst]) && mem[dst + n..] == old(mem[dst + n..])
        && lastBlock == Last(old(lastBlock), mem[dst..dst + n])
    {
      hide Encrypting, Encrypted, Last, XorBlock;
      ghost var iv, before := lastBlock, mem[..];
      var numBlocks := len / 16;
      EncryptingStart(aes, key, iv, before, src, dst, 16 * numBlocks);
      for i := 0 to numBlocks
        invariant Encrypting(aes, key, iv, lastBlock, before, mem[..], src, dst, 16 * numBlocks, 16 * i)
      {
        EncryptNext(mem, src, dst, 16 * numBlocks, 16 * i, iv, before);
      }
      EncryptingEnd(aes, key, iv, lastBlock, before, mem[..], src, dst, 16 * numBlocks);
    }
  }

  ghost predicate Encrypting(aes: Aes, key: seq<byte>, iv: Block, last: Block, before: seq<byte>, mem: seq<byte>,
      src: nat, dst: nat, n: nat, i: nat)
  {
    && |mem| == |before| && src + n <= |mem| && dst + n <= |mem| && n % 16 == i % 16 == 0 && i <= n
    && (src == dst || src + n <= dst || dst + n <= src)
    && mem[..dst] == before[..dst] && mem[dst + n..] == before[dst + n..]
    && mem[src + i..src + n] == before[src..src + n][i..]
    && mem[dst..dst + i] == Encrypted(aes, key, iv, before[src..src + n][..i])
    && last == Last(iv, mem[dst..dst + i])
  }

  lemma EncryptingStart(aes: Aes, key: seq<byte>, iv: Block, before: seq<byte>, src: nat, dst: nat, n: nat)
    requires n % 16 == 0 && src + n <= |before| && dst + n <= |before|
    requires src == dst || src + n <= dst || dst + n <= src
    ensures Encrypting(aes, key, iv, iv, before, before, src, dst, n, 0)
  {
    assert before[dst..dst] == [] && before[src..src + n][..0] == [];
    NothingYet(aes, key, iv);
  }

  lemma EncryptingStep(aes: Aes, key: seq<byte>, iv: Block, last: Block, before: seq<byte>, was: seq<byte>, mem: seq<byte>,
      src: nat, dst: nat, n: nat, i: nat)
    requires Encrypting(aes, key, iv, last, before, was, src, dst, n, i) && i < n && |mem| == |was|
    requires mem[..dst + i] == was[..dst + i] && mem[dst + i + 16..] == was[dst + i + 16..]
    requires mem[dst + i..dst + i + 16] == aes.enc(key, XorBlock(last, was[src + i..src + i + 16]))
    ensures Encrypting(aes, key, iv, mem[dst + i..dst + i + 16], before, mem, src, dst, n, i + 16)
  {
    hide Encrypted, Last, XorBlock;
    var m := before[src..src + n];
    NextInput(was, src, n, i, m);
    BlockWritten(was, mem, src, dst, n, i);
    EncryptStep(aes, key, iv, m, i, was[dst..dst + i], m[i..i + 16]);
    JoinSlice(mem, dst, dst + i, dst + i + 16);
  }

  lemma {:induction false} EncryptingEnd(aes: Aes, key: seq<byte>, iv: Block, last: Block, before: seq<byte>, mem: seq<byte>,
      src: nat, dst: nat, n: nat)
    requires Encrypting(aes, key, iv, last, before, mem, src, dst, n, n)
    ensures mem[..dst] == before[..dst] && mem[dst + n..] == before[dst + n..]
    ensures mem[dst..dst + n] == Encrypted(aes, key, iv, before[src..src + n]) && last == Last(iv, mem[dst..dst + n])
  {
    assert before[src..src + n][..n] == before[src..src + n];
  }

  lemma {:induction false} NothingYet(aes: Aes, key: seq<byte>, iv: Block)
    ensures Encrypted(aes, key, iv, []) == [] && Decrypted(aes, key, iv, []) == [] && Last(iv, []) == iv
  {
  }

  lemma NextInput(mem: seq<byte>, src: nat, n: nat, i: nat, m: seq<byte>)
    requires src + n <= |mem| && i + 16 <= n && |m| == n && mem[src + i..src + n] == m[i..]
    ensures mem[src + i..src + i + 16] == m[i..i + 16] && mem[src + i + 16..src + n] == m[i + 16..]
  {
    assert mem[src + i..src + i + 16] == mem[src + i..src + n][..16];
    assert mem[src + i + 16..src + n] == mem[src + i..src + n][16..];
  }

  lemma {:induction false} EncryptStep(aes: Aes, key: seq<byte>, iv: Block, m: seq<byte>, i: nat, done: seq<byte>, b: Block)
    requires |m| % 16 == 0 && i % 16 == 0 && i + 16 <= |m| && b == m[i..i + 16]
    requires done == Encrypted(aes, key, iv, m[..i])
    ensures done + aes.enc(key, XorBlock(Last(iv, done), b)) == Encrypted(aes, key, iv, m[..i + 16])
    ensures Last(iv, done + aes.enc(key, XorBlock(Last(iv, done), b))) == aes.enc(key, XorBlock(Last(iv, done), b))
  {
    hide Encrypted, Last, XorBlock;
    assert m[..i + 16] == m[..i] + b;
    EncryptedConcat(aes, key, iv, m[..i], b);
    OneBlock(aes, key, Last(iv, done), b);
    LastConcat(iv, done, aes.enc(key, XorBlock(Last(iv, done), b)));
    OneBlock(aes, key, Last(iv, done), aes.enc(key, XorBlock(Last(iv, done), b)));
  }

  class CBCDecryption {
    const aes: Aes
    var key: seq<byte>
    var iv: Block

    constructor (cipher: Aes)
      ensures aes == cipher && iv == Zeros(16)
    {
      aes, key, iv := cipher, [], Zeros(16);
    }

    method SetKey(k: seq<byte>)
      modifies this`key
      ensures key == k
    {
      key := k;
    }

    method SetIV(v: Block)
      modifies this`iv
      ensures iv == v
    {
      iv := v;
    }

    method GetIV() returns (v: Block)
      ensures v == iv
    {
      v := iv;
    }

    method DecryptBlock(mem: array<byte>, src: nat, dst: nat)
      requires src + 16 <= mem.Length && dst + 16 <= mem.Length
      modifies this`iv, mem
      ensures iv == old(mem[src..src + 16]) && mem[dst..dst + 16] == XorBlock(aes.dec(key, iv), old(iv))
      ensures mem[..dst] == old(mem[..dst]) && mem[dst + 16..] == old(mem[dst + 16..])
    {
      hide XorBlock;
      var tmp := ReadBlock(mem, src);
      WriteBlock(mem, dst, XorBlock(aes.dec(key, tmp), iv));
      iv := tmp;
    }

    method DecryptNext(mem: array<byte>, src: nat, dst: nat, ghost n: nat, i: nat, ghost start: Block, ghost before: seq<byte>)
      requires Decrypting(aes, key, start, iv, before, mem[..], src, dst, n, i) && i < n
      modifies this`iv, mem
      ensures Decrypting(aes, key, start, iv, before, mem[..], src, dst, n, i + 16)
    {
      hide Decrypted, Last, XorBlock;
      ghost var was, last := mem[..], iv;
      DecryptBlock(mem, src + i, dst + i);
      hide Decrypting;
      DecryptingStep(aes, key, start, last, before, was, mem[..], src, dst, n, i);
    }

    method Decrypt(mem: array<byte>, src: nat, len: nat, dst: nat)
      requires src + len <= mem.Length && dst + len <= mem.Length
      requires src == dst || src + len <= dst || dst + len <= src
      modifies this`iv, mem
      ensures var n := len / 16 * 16;
        && mem[dst..dst + n] == Decrypted(aes, key, old(iv), old(mem[src..src + n]))
        && mem[..dst] == old(mem[..dst]) && mem[dst + n..] == old(mem[dst + n..])
        && iv == Last(old(iv), old(mem[src..src + n]))
    {
      hide Decrypting, Decrypted, Last, XorBlock;
      ghost var start, before := iv, mem[..];
      var numBlocks := len / 16;
      DecryptingStart(aes, key, iv, before, src, dst, 16 * numBlocks);
      for i := 0 to numBlocks
        invariant Decrypting(aes, key, start, iv, before, mem[..], src, dst, 16 * numBlocks, 16 * i)
      {
        DecryptNext(mem, src, dst, 16 * numBlocks, 16 * i, start, before);
      }
      DecryptingEnd(aes, key, start, iv, before, mem[..], src, dst, 16 * numBlocks);
    }
  }

  ghost predicate Decrypting(aes: Aes, key: seq<byte>, start: Block, iv: Block, before: seq<byte>, mem: seq<byte>,
      src: nat, dst: nat, n: nat, i: nat)
  {
    && |mem| == |before| && src + n <= |mem| && dst + n <= |mem| && n % 16 == i % 16 == 0 && i <= n
    && (src == dst || src + n <= dst || dst + n <= src)
    && mem[..dst] == before[..dst] && mem[dst + n..] == before[dst + n..]
    && mem[src + i..src + n] == before[src..src + n][i..]
    && mem[dst..dst + i] == Decrypted(aes, key, start, before[src..src + n][..i])
    && iv == Last(start, before[src..src + n][..i])
  }

  lemma DecryptingStart(aes: Aes, key: seq<byte>, iv: Block, before: seq<byte>, src: nat, dst: nat, n: nat)
    requires n % 16 == 0 && src + n <= |before| && dst + n <= |before|
    requires src == dst || src + n <= dst || dst + n <= src
    ensures Decrypting(aes, key, iv, iv, before, before, src, dst, n, 0)
  {
    assert before[dst..dst] == [] && before[src..src + n][..0] == [];
    NothingYet(aes, key, iv);
  }

  lemma DecryptingStep(aes: Aes, key: seq<byte>, start: Block, last: Block, before: seq<byte>, was: seq<byte>, mem: seq<byte>,
      src: nat, dst: nat, n: nat, i: nat)
    requires Decrypting(aes, key, start, last, before, was, src, dst, n, i) && i < n && |mem| == |was|
    requires mem[..dst + i] == was[..dst + i] && mem[dst + i + 16..] == was[dst + i + 16..]
    requires mem[dst + i..dst + i + 16] == XorBlock(aes.dec(key, was[src + i..src + i + 16]), last)
    ensures Decrypting(aes, key, start, was[src + i..src + i + 16], before, mem, src, dst, n, i + 16)
  {
    hide Decrypted, Last, XorBlock;
    var c := before[src..src + n];
    NextInput(was, src, n, i, c);
    BlockWritten(was, mem, src, dst, n, i);
    DecryptStep(aes, key, start, c, i, c[i..i + 16]);
    JoinSlice(mem, dst, dst + i, dst + i + 16);
  }

  lemma {:induction false} DecryptingEnd(aes: Aes, key: seq<byte>, start: Block, iv: Block, before: seq<byte>, mem: seq<byte>,
      src: nat, dst: nat, n: nat)
    requires Decrypting(aes, key, start, iv, before, mem, src, dst, n, n)
    ensures mem[..dst] == before[..dst] && mem[dst + n..] == before[dst + n..]
    ensures mem[dst..dst + n] == Decrypted(aes, key, start, before[src..src + n]) && iv == Last(start, before[src..src + n])
  {
    assert before[src..src + n][..n] == before[src..src + n];
  }

  lemma {:induction false} DecryptStep(aes: Aes, key: seq<byte>, iv: Block, c: seq<byte>, i: nat, b: Block)
    requires |c| % 16 == 0 && i % 16 == 0 && i + 16 <= |c| && b == c[i..i + 16]
    ensures Decrypted(aes, key, iv, c[..i]) + XorBlock(aes.dec(key, b), Last(iv, c[..i])) == Decrypted(aes, key, iv, c[..i + 16])
    ensures Last(iv, c[..i + 16]) == b
  {
    hide Decrypted, Last, XorBlock;
    assert c[..i + 16] == c[..i] + b;
    DecryptedConcat(aes, key, iv, c[..i], b);
    OneBlock(aes, key, Last(iv, c[..i]), b);
    LastConcat(iv, c[..i], b);
  }

  // ---------------------------------------------------------------------------------------
  // Tunnel messages: 16 bytes of IV, encrypted twice, and 1008 bytes of data
  // ---------------------------------------------------------------------------------------

  const TUNNEL_DATA_ENCRYPTED_SIZE := 1008

  function TunnelEncrypted(aes: Aes, layerKey: seq<byte>, ivKey: seq<byte>, m: seq<byte>): (c: seq<byte>)
    requires |m| == 1024
    ensures |c| == 1024
  {
    var iv := aes.enc(ivKey, m[..16]);
    aes.enc(ivKey, iv) + Encrypted(aes, layerKey, iv, m[16..])
  }

  function TunnelDecrypted(aes: Aes, layerKey: seq<byte>, ivKey: seq<byte>, c: seq<byte>): (m: seq<byte>)
    requires |c| == 1024
    ensures |m| == 1024
  {
    var iv := aes.dec(ivKey, c[..16]);
    aes.dec(ivKey, iv) + Decrypted(aes, layerKey, iv, c[16..])
  }

  /** A hop and the tunnel's owner undo each other, whoever goes first. */
  lemma TunnelRoundTrip(aes: Aes, layerKey: seq<byte>, ivKey: seq<byte>, m: seq<byte>)
    requires Permutation(aes) && |m| == 1024
    ensures TunnelDecrypted(aes, layerKey, ivKey, TunnelEncrypted(aes, layerKey, ivKey, m)) == m
    ensures TunnelEncrypted(aes, layerKey, ivKey, TunnelDecrypted(aes, layerKey, ivKey, m)) == m
  {
    hide Encrypted, Decrypted;
    var iv, vi := aes.enc(ivKey, m[..16]), aes.dec(ivKey, m[..16]);
    var c, d := TunnelEncrypted(aes, layerKey, ivKey, m), TunnelDecrypted(aes, layerKey, ivKey, m);
    assert c[..16] == aes.enc(ivKey, iv) && c[16..] == Encrypted(aes, layerKey, iv, m[16..]);
    assert d[..16] == aes.dec(ivKey, vi) && d[16..] == Decrypted(aes, layerKey, vi, m[16..]);
    DecryptedEncrypted(aes, layerKey, iv, m[16..]);
    EncryptedDecrypted(aes, layerKey, vi, m[16..]);
    assert m == m[..16] + m[16..];
  }

  /** The data bytes survive the write of the first block; the result is that block and the data. */
  lemma TunnelSlices(before: seq<byte>, mid: seq<byte>, data: seq<byte>, after: seq<byte>, src: nat, dst: nat)
    requires |before| == |mid| == |data| == |after| && src + 1024 <= |before| && dst + 1024 <= |before|
    requires src == dst || src + 1024 <= dst || dst + 1024 <= src
    requires mid[..dst] == before[..dst] && mid[dst + 16..] == before[dst + 16..]
    requires data[..dst + 16] == mid[..dst + 16] && data[dst + 1024..] == mid[dst + 1024..]
    requires after[..dst] == data[..dst] && after[dst + 16..] == data[dst + 16..]
    ensures mid[src + 16..src + 1024] == before[src..src + 1024][16..]
    ensures data[dst..dst + 16] == mid[dst..dst + 16]
    ensures after[dst..dst + 1024] == after[dst..dst + 16] + data[dst + 16..dst + 1024]
    ensures after[..dst] == before[..dst] && after[dst + 1024..] == before[dst + 1024..]
  {
    BlockWritten(before, mid, src, dst, 1024, 0);
    assert before[src..src + 1024][16..] == before[src + 16..src + 1024];
    TakeSlice(data, dst + 16, dst, dst + 16); TakeSlice(mid, dst + 16, dst, dst + 16);
    TakeSlice(data, dst + 16, 0, dst); TakeSlice(mid, dst + 16, 0, dst);
    BlockWritten(data, after, dst, dst, 1024, 0);
    JoinSlice(after, dst, dst + 16, dst + 1024);
  }

  class TunnelEncryption {
    const aes: Aes
    const ivKey: seq<byte>
    const layerEncryption: CBCEncryption

    constructor (cipher: Aes, layerKey: seq<byte>, iv: seq<byte>)
      ensures aes == cipher && ivKey == iv && fresh(layerEncryption)
      ensures layerEncryption.aes == cipher && layerEncryption.key == layerKey
    {
      aes, ivKey := cipher, iv;
      var layer := new CBCEncryption(cipher);
      layer.SetKey(layerKey);
      layerEncryption := layer;
    }

    method Encrypt(mem: array<byte>, src: nat, dst: nat)
      requires layerEncryption.aes == aes && src + 1024 <= mem.Length && dst + 1024 <= mem.Length
      requires src == dst || src + 1024 <= dst || dst + 1024 <= src
      modifies mem, layerEncryption`lastBlock
      ensures mem[dst..dst + 1024] == TunnelEncrypted(aes, layerEncryption.key, ivKey, old(mem[src..src + 1024]))
      ensures mem[..dst] == old(mem[..dst]) && mem[dst + 1024..] == old(mem[dst + 1024..])
    {
      hide Encrypted, Last;
      ghost var before := mem[..];
      var b := ReadBlock(mem, src);
      WriteBlock(mem, dst, aes.enc(ivKey, b));
      ghost var mid := mem[..];
      var iv := ReadBlock(mem, dst);
      layerEncryption.SetIV(iv);
      layerEncryption.Encrypt(mem, src + 16, TUNNEL_DATA_ENCRYPTED_SIZE, dst + 16);
      ghost var data := mem[..];
      b := ReadBlock(mem, dst);
      WriteBlock(mem, dst, aes.enc(ivKey, b));
      TunnelSlices(before, mid, data, mem[..], src, dst);
      DropSlice(before, src, 0, 16);
      assert before[src..src + 1024][..16] == before[src..src + 16];
    }
  }

  class TunnelDecryption {
    const aes: Aes
    const ivKey: seq<byte>
    const layerDecryption: CBCDecryption

    constructor (cipher: Aes, layerKey: seq<byte>, iv: seq<byte>)
      ensures aes == cipher && ivKey == iv && fresh(layerDecryption)
      ensures layerDecryption.aes == cipher && layerDecryption.key == layerKey
    {
      aes, ivKey := cipher, iv;
      var layer := new CBCDecryption(cipher);
      layer.SetKey(layerKey);
      layerDecryption := layer;
    }

    method Decrypt(mem: array<byte>, src: nat, dst: nat)
      requires layerDecryption.aes == aes && src + 1024 <= mem.Length && dst + 1024 <= mem.Length
      requires src == dst || src + 1024 <= dst || dst + 1024 <= src
      modifies mem, layerDecryption`iv
      ensures mem[dst..dst + 1024] == TunnelDecrypted(aes, layerDecryption.key, ivKey, old(mem[src..src + 1024]))
      ensures mem[..dst] == old(mem[..dst]) && mem[dst + 1024..] == old(mem[dst + 1024..])
    {
      hide Decrypted, Last;
      ghost var before := mem[..];
      var b := ReadBlock(mem, src);
      WriteBlock(mem, dst, aes.dec(ivKey, b));
      ghost var mid := mem[..];
      var v := ReadBlock(mem, dst);
      layerDecryption.SetIV(v);
      layerDecryption.Decrypt(mem, src + 16, TUNNEL_DATA_ENCRYPTED_SIZE, dst + 16);
      ghost var data := mem[..];
      b := ReadBlock(mem, dst);
      WriteBlock(mem, dst, aes.dec(ivKey, b));
      TunnelSlices(before, mid, data, mem[..], src, dst);
      assert before[src..src + 1024][..16] == before[src..src + 16];
    }
  }
}
