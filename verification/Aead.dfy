/** Authenticated encryption, libdotnet/Crypto.cpp: the single-buffer form with associated data and
    the in-place multi-buffer form without. Pointers are positions in one flat memory. */
module Aead {
  import opened Wrappers
  import opened Bytes
  import C = ChaCha20
  import P = Poly1305

  /** size bytes of memory at position at. */
  datatype Span = Span(at: nat, size: nat) {
    function End(): nat { at + size }
    predicate Apart(other: Span) { End() <= other.at || other.End() <= at }
  }

  // ---------------------------------------------------------------------------------------
  // The reference: section 2.8 of RFC 8439
  // ---------------------------------------------------------------------------------------

  function Pad16(n: nat): (s: seq<byte>)
    ensures (n + |s|) % 16 == 0 && |s| < 16
  {
    Zeros(if n % 16 == 0 then 0 else 16 - n % 16)
  }

  function MacData(ad: seq<byte>, ct: seq<byte>): seq<byte> {
    ad + Pad16(|ad|) + ct + Pad16(|ct|) + ToLE(|ad|, 8) + ToLE(|ct|, 8)
  }

  function OneTimeKey(key: seq<byte>, nonce: seq<byte>): (k: seq<byte>)
    requires |key| == 32 && |nonce| == 12
    ensures |k| == 64
  {
    C.Stream(C.InitState(key, nonce, 0), 0, 64)
  }

  function Encrypted(key: seq<byte>, nonce: seq<byte>, m: seq<byte>): (c: seq<byte>)
    requires |key| == 32 && |nonce| == 12
    ensures |c| == |m|
  {
    C.Crypt(C.InitState(key, nonce, 1), 0, m)
  }

  function Tag(key: seq<byte>, nonce: seq<byte>, ad: seq<byte>, ct: seq<byte>): (t: seq<byte>)
    requires |key| == 32 && |nonce| == 12
    ensures |t| == 16
  {
    P.Mac(OneTimeKey(key, nonce), MacData(ad, ct))
  }

  function Seal(key: seq<byte>, nonce: seq<byte>, ad: seq<byte>, m: seq<byte>): (c: seq<byte>)
    requires |key| == 32 && |nonce| == 12
    ensures |c| == |m| + 16
  {
    var ct := Encrypted(key, nonce, m);
    ct + Tag(key, nonce, ad, ct)
  }

  function Open(key: seq<byte>, nonce: seq<byte>, ad: seq<byte>, c: seq<byte>): Option<seq<byte>>
    requires |key| == 32 && |nonce| == 12 && |c| >= 16
  {
    var ct := c[..|c| - 16];
    if c[|c| - 16..] == Tag(key, nonce, ad, ct) then Some(Encrypted(key, nonce, ct)) else None
  }

  /** The ciphertext, and behind it Poly1305 of associated data and ciphertext under the key block with
      counter 0. */
  lemma SealedParts(key: seq<byte>, nonce: seq<byte>, ad: seq<byte>, m: seq<byte>)
    requires |key| == 32 && |nonce| == 12
    ensures Seal(key, nonce, ad, m)[..|m|] == Encrypted(key, nonce, m)
    ensures Seal(key, nonce, ad, m)[|m|..]
      == P.Mac(C.KeyBlock(C.InitState(key, nonce, 0)), MacData(ad, Seal(key, nonce, ad, m)[..|m|]))
  {
    hide C.KeyBlock, P.Mac, MacData, C.InitState, OneTimeKey, Encrypted;
    var ct := Encrypted(key, nonce, m);
    assert Seal(key, nonce, ad, m)[..|m|] == ct && Seal(key, nonce, ad, m)[|m|..] == Tag(key, nonce, ad, ct);
    FirstKeyBlock(key, nonce);
  }

  /** Byte i of the ciphertext is byte i of the message under the key block with counter 1 + i / 64. */
  lemma CryptedByte(key: seq<byte>, nonce: seq<byte>, m: seq<byte>, i: nat)
    requires |key| == 32 && |nonce| == 12 && i < |m|
    ensures Encrypted(key, nonce, m)[i] == XorByte(m[i], C.KeyBlock(C.InitState(key, nonce, (1 + i / 64) % 0x1_0000_0000))[i % 64])
  {
    hide C.KeyBlock, XorByte;
    CounterFrom(key, nonce, i / 64);
    hide C.InitState, C.AtBlock;
    assert Encrypted(key, nonce, m)[i] == XorByte(m[i], C.StreamByte(C.InitState(key, nonce, 1), i));
  }

  lemma CounterFrom(key: seq<byte>, nonce: seq<byte>, n: nat)
    requires |key| == 32 && |nonce| == 12
    ensures C.AtBlock(C.InitState(key, nonce, 1), n) == C.InitState(key, nonce, (1 + n) % 0x1_0000_0000)
  {
    hide C.Word;
  }

  lemma FirstKeyBlock(key: seq<byte>, nonce: seq<byte>)
    requires |key| == 32 && |nonce| == 12
    ensures OneTimeKey(key, nonce) == C.KeyBlock(C.InitState(key, nonce, 0))
  {
    hide C.KeyBlock, C.Word;
    C.StreamBlock(C.InitState(key, nonce, 0), 0);
    assert C.InitState(key, nonce, 0)[12 := 0] == C.InitState(key, nonce, 0);
  }

  /** Each part in place, padded to whole blocks, and both lengths behind them. */
  lemma {:induction false} MacDataParts(ad: seq<byte>, ct: seq<byte>)
    requires |ad| < 0x1_0000_0000_0000_0000 && |ct| < 0x1_0000_0000_0000_0000
    ensures var d := MacData(ad, ct); var n, at := |d|, |ad| + |Pad16(|ad|)|;
      && n % 16 == 0 && n == at + |ct| + |Pad16(|ct|)| + 16
      && d[..|ad|] == ad && d[at..at + |ct|] == ct && LE(d[n - 16..n - 8]) == |ad| && LE(d[n - 8..]) == |ct|
  {
    hide LE, ToLE, Pow256, Pad16;
    Pow256Values();
    LEToLE(|ad|, 8); LEToLE(|ct|, 8);
    ModUnique(|ad|, Pow256(8), 0, |ad|); ModUnique(|ct|, Pow256(8), 0, |ct|);
    var d, n := MacData(ad, ct), |MacData(ad, ct)|;
    assert d[n - 16..n - 8] == ToLE(|ad|, 8) && d[n - 8..] == ToLE(|ct|, 8);
    WholeBlocks(|ad| + |Pad16(|ad|)|, |ct| + |Pad16(|ct|)|);
  }

  lemma WholeBlocks(a: nat, b: nat)
    requires a % 16 == 0 && b % 16 == 0
    ensures (a + b + 16) % 16 == 0
  {
  }

  /** What is authenticated determines both the associated data and the ciphertext. */
  lemma MacDataInjective(ad: seq<byte>, ct: seq<byte>, ad': seq<byte>, ct': seq<byte>)
    requires |ad| < 0x1_0000_0000_0000_0000 && |ct| < 0x1_0000_0000_0000_0000
    requires |ad'| < 0x1_0000_0000_0000_0000 && |ct'| < 0x1_0000_0000_0000_0000
    requires MacData(ad, ct) == MacData(ad', ct')
    ensures ad == ad' && ct == ct'
  {
    hide MacData, LE, Pad16;
    MacDataParts(ad, ct);
    MacDataParts(ad', ct');
  }

  /** Decryption inverts encryption. */
  lemma OpenSeal(key: seq<byte>, nonce: seq<byte>, ad: seq<byte>, m: seq<byte>)
    requires |key| == 32 && |nonce| == 12
    ensures Open(key, nonce, ad, Seal(key, nonce, ad, m)) == Some(m)
  {
    hide Tag;
    var ct := Encrypted(key, nonce, m);
    var c := Seal(key, nonce, ad, m);
    assert c[..|c| - 16] == ct && c[|c| - 16..] == Tag(key, nonce, ad, ct);
    C.CryptInvolutive(C.InitState(key, nonce, 1), 0, m);
  }

  /** What opens is exactly what was sealed: an accepted ciphertext is the seal of its plaintext. */
  lemma SealOpen(key: seq<byte>, nonce: seq<byte>, ad: seq<byte>, c: seq<byte>)
    requires |key| == 32 && |nonce| == 12 && |c| >= 16
    requires Open(key, nonce, ad, c).Some?
    ensures Seal(key, nonce, ad, Open(key, nonce, ad, c).value) == c
  {
    hide Tag;
    C.CryptInvolutive(C.InitState(key, nonce, 1), 0, c[..|c| - 16]);
  }

  lemma CounterOne(key: seq<byte>, nonce: seq<byte>)
    requires |key| == 32 && |nonce| == 12
    ensures C.InitState(key, nonce, 0)[12 := 1] == C.InitState(key, nonce, 1)
  {
  }

  // ---------------------------------------------------------------------------------------
  // The code
  // ---------------------------------------------------------------------------------------

  /** Set up the cipher and the one-time authenticator, and leave the counter at one. */
  method Start(key: seq<byte>, nonce: seq<byte>) returns (state: C.Chacha20State, poly: P.Poly1305)
    requires |key| == 32 && |nonce| == 12
    ensures state.Valid() && state.start == C.InitState(key, nonce, 1) && state.pos == 0
    ensures poly.Valid() && poly.key == OneTimeKey(key, nonce) && poly.fed == []
    ensures fresh(state) && fresh(state.data) && fresh(state.block)
    ensures fresh(poly) && fresh(poly.h) && fresh(poly.msg) && fresh(poly.hr) && fresh(poly.buffer)
    ensures state.block != poly.h && state.block != poly.msg && state.block != poly.buffer && state.data != poly.hr
  {
    hide *;
    state := new C.Chacha20State(key, nonce, 0);
    var polyKey := new byte[64](_ => 0);
    assert polyKey[0..64] == Zeros(64) by { ZeroArray(polyKey); }
    state.Encrypt(polyKey, 0, 64);
    C.CryptZeros(C.InitState(key, nonce, 0), 0, 64);
    assert polyKey[..] == polyKey[0..64];
    OneTimeKeyIs(key, nonce);
    poly := new P.Poly1305(polyKey[..]);
    state.SetCounter(1);
    CounterOne(key, nonce);
  }

  lemma ZeroArray(a: array<byte>)
    requires a.Length == 64 && forall i :: 0 <= i < 64 ==> a[i] == 0
    ensures a[0..64] == Zeros(64)
  {
  }

  lemma OneTimeKeyIs(key: seq<byte>, nonce: seq<byte>)
    requires |key| == 32 && |nonce| == 12
    ensures OneTimeKey(key, nonce) == C.Stream(C.InitState(key, nonce, 0), 0, 64)
  {
  }

  /** The memory is none of the cipher's and the authenticator's own arrays. */
  ghost predicate Separate(mem: array<byte>, state: C.Chacha20State, poly: P.Poly1305) {
    && mem != state.block && mem != poly.h && mem != poly.msg && mem != poly.buffer
    && state.block != poly.h && state.block != poly.msg && state.block != poly.buffer && state.data != poly.hr
  }

  lemma ShowSeparate(mem: array<byte>, state: C.Chacha20State, poly: P.Poly1305)
    requires mem != state.block && mem != poly.h && mem != poly.msg && mem != poly.buffer
    requires state.block != poly.h && state.block != poly.msg && state.block != poly.buffer && state.data != poly.hr
    ensures Separate(mem, state, poly)
  {
  }

  /** Zero padding of n authenticated bytes to a multiple of sixteen. */
  method AbsorbPadding(poly: P.Poly1305, n: nat)
    requires poly.Valid()
    modifies poly, poly.h, poly.msg, poly.hr, poly.buffer
    ensures poly.Valid() && poly.fed == old(poly.fed) + Pad16(n)
  {
    hide P.Accumulate, LE, P.Clamp;
    var padding := new byte[16](_ => 0);
    var rem := n % 16;
    if rem > 0 {
      rem := 16 - rem;
      assert padding[0..rem] == Pad16(n);
      poly.Update(padding, 0, rem);
    } else {
      assert Pad16(n) == [];
    }
  }

  /** The two 64-bit lengths that end the authenticated data. */
  method AbsorbLengths(poly: P.Poly1305, adLen: nat, msgLen: nat)
    requires poly.Valid()
    modifies poly, poly.h, poly.msg, poly.hr, poly.buffer
    ensures poly.Valid() && poly.fed == old(poly.fed) + ToLE(adLen, 8) + ToLE(msgLen, 8)
  {
    hide P.Accumulate, LE, P.Clamp, ToLE;
    var lengths := ToLE(adLen, 8) + ToLE(msgLen, 8);
    var padding := new byte[16](i requires 0 <= i < 16 => lengths[i]);
    assert padding[0..16] == lengths;
    poly.Update(padding, 0, 16);
    assert old(poly.fed) + lengths == old(poly.fed) + ToLE(adLen, 8) + ToLE(msgLen, 8);
  }

  function AdBytes(mem: seq<byte>, ad: Option<Span>): seq<byte>
    requires ad.Some? ==> ad.value.End() <= |mem|
  {
    if ad.None? then [] else mem[ad.value.at..ad.value.End()]
  }

  method AbsorbAd(poly: P.Poly1305, mem: array<byte>, ad: Option<Span>)
    requires poly.Valid() && poly.fed == []
    requires mem != poly.h && mem != poly.msg && mem != poly.buffer
    requires ad.Some? ==> ad.value.End() <= mem.Length
    modifies poly, poly.h, poly.msg, poly.hr, poly.buffer
    ensures poly.Valid() && poly.fed == AdBytes(mem[..], ad) + Pad16(|AdBytes(mem[..], ad)|)
  {
    hide P.Poly1305.Valid, Pad16;
    if ad.Some? {
      var at, n := ad.value.at, ad.value.size;
      poly.Update(mem, at, n);
      assert mem[..][at..at + n] == mem[at..at + n];
      assert [] + mem[at..at + n] == mem[at..at + n];
      AbsorbPadding(poly, n);
    } else {
      NoPadding();
    }
  }

  lemma NoPadding()
    ensures Pad16(0) == []
  {
  }

  /** memcpy (buf, msg, msgLen) when the two differ. */
  method Move(mem: array<byte>, msg: nat, buf: nat, n: nat)
    requires msg + n <= mem.Length && buf + n <= mem.Length
    requires msg == buf || msg + n <= buf || buf + n <= msg
    modifies mem
    ensures mem[buf..buf + n] == old(mem[msg..msg + n])
    ensures mem[..buf] == old(mem[..buf]) && mem[buf + n..] == old(mem[buf + n..])
  {
    if buf != msg {
      ghost var m := mem[msg..msg + n];
      for i := 0 to n
        invariant mem[msg..msg + n] == m && mem[buf..buf + i] == m[..i]
        invariant mem[..buf] == old(mem[..buf]) && mem[buf + n..] == old(mem[buf + n..])
      {
        assert mem[msg + i] == m[i];
        mem[buf + i] := mem[msg + i];
        assert mem[buf..buf + i + 1] == mem[buf..buf + i] + [mem[buf + i]];
      }
    }
  }

  /** Everything hashed: the padded associated data, the padded ciphertext and both lengths. */
  method AbsorbRest(poly: P.Poly1305, mem: array<byte>, at: nat, n: nat, ghost ad: seq<byte>, adLen: nat)
    requires poly.Valid() && poly.fed == ad + Pad16(|ad|) && |ad| == adLen
    requires mem != poly.h && mem != poly.msg && mem != poly.buffer && at + n <= mem.Length
    modifies poly, poly.h, poly.msg, poly.hr, poly.buffer
    ensures poly.Valid() && poly.fed == MacData(ad, mem[at..at + n])
  {
    hide P.Poly1305.Valid, Pad16;
    poly.Update(mem, at, n);
    AbsorbPadding(poly, n);
    AbsorbLengths(poly, adLen, n);
  }

  method SealInPlace(mem: array<byte>, state: C.Chacha20State, poly: P.Poly1305,
      ghost key: seq<byte>, ghost nonce: seq<byte>, ghost ad: seq<byte>, adLen: nat, buf: nat, n: nat)
    requires |key| == 32 && |nonce| == 12 && Separate(mem, state, poly)
    requires state.Valid() && state.start == C.InitState(key, nonce, 1) && state.pos == 0
    requires poly.Valid() && poly.key == OneTimeKey(key, nonce)
    requires poly.fed == ad + Pad16(|ad|) && |ad| == adLen && buf + n + 16 <= mem.Length
    modifies mem, state, state.data, state.block, poly, poly.h, poly.msg, poly.hr, poly.buffer
    ensures mem[buf..buf + n + 16] == Seal(key, nonce, ad, old(mem[buf..buf + n]))
    ensures mem[..buf] == old(mem[..buf]) && mem[buf + n + 16..] == old(mem[buf + n + 16..])
  {
    hide C.Chacha20State.Valid, P.Poly1305.Valid, P.Mac, C.Crypt, OneTimeKey, MacData, C.InitState, Pad16;
    ghost var before := mem[..];
    state.Encrypt(mem, buf, n);
    AbsorbRest(poly, mem, buf, n, ad, adLen);
    ghost var sealed := mem[..];
    poly.Finish(mem, buf + n);
    Written(before, sealed, mem[..], buf, n, P.Mac(OneTimeKey(key, nonce), poly.fed));
    assert before[buf..buf + n] == old(mem[buf..buf + n]);
  }

  lemma Written(before: seq<byte>, mid: seq<byte>, after: seq<byte>, buf: nat, n: nat, tag: seq<byte>)
    requires |before| == |mid| && buf + n + 16 <= |before| && |tag| == 16
    requires mid[..buf] == before[..buf] && mid[buf + n..] == before[buf + n..]
    requires after == mid[..buf + n] + tag + mid[buf + n + 16..]
    ensures after[buf..buf + n + 16] == mid[buf..buf + n] + tag
    ensures after[..buf] == before[..buf] && after[buf + n + 16..] == before[buf + n + 16..]
  {
    assert after[..buf] == mid[..buf];
    assert after[buf + n + 16..] == mid[buf + n + 16..];
    DropDrop(mid, buf + n, 16);
    DropDrop(before, buf + n, 16);
  }

  method OpenInPlace(mem: array<byte>, state: C.Chacha20State, poly: P.Poly1305,
      ghost key: seq<byte>, ghost nonce: seq<byte>, ghost ad: seq<byte>, adLen: nat, buf: nat, n: nat, tagAt: nat)
      returns (ret: bool)
    requires |key| == 32 && |nonce| == 12 && Separate(mem, state, poly)
    requires state.Valid() && state.start == C.InitState(key, nonce, 1) && state.pos == 0
    requires poly.Valid() && poly.key == OneTimeKey(key, nonce)
    requires poly.fed == ad + Pad16(|ad|) && |ad| == adLen
    requires buf + n <= mem.Length && tagAt + 16 <= mem.Length && (buf + n <= tagAt || tagAt + 16 <= buf)
    modifies mem, state, state.data, state.block, poly, poly.h, poly.msg, poly.hr, poly.buffer
    ensures mem[buf..buf + n] == Encrypted(key, nonce, old(mem[buf..buf + n]))
    ensures mem[..buf] == old(mem[..buf]) && mem[buf + n..] == old(mem[buf + n..])
    ensures ret <==> old(mem[tagAt..tagAt + 16]) == Tag(key, nonce, ad, old(mem[buf..buf + n]))
  {
    hide C.Chacha20State.Valid, P.Poly1305.Valid, P.Mac, C.Crypt, OneTimeKey, MacData, C.InitState, Pad16;
    ghost var before := mem[..];
    AbsorbRest(poly, mem, buf, n, ad, adLen);
    state.Encrypt(mem, buf, n);
    MoveKeeps(before, mem[..], buf, n, tagAt);
    var tag := new byte[32](_ => 0);
    poly.Finish(tag, 0);
    assert tag[..16] == P.Mac(poly.key, poly.fed);
    ret := tag[..16] == mem[tagAt..tagAt + 16];
  }

  method Encrypt(mem: array<byte>, msg: nat, msgLen: nat, ad: Option<Span>, key: seq<byte>, nonce: seq<byte>, buf: nat)
    requires |key| == 32 && |nonce| == 12
    requires ad.Some? ==> ad.value.End() <= mem.Length
    requires msg + msgLen <= mem.Length && buf + msgLen + 16 <= mem.Length
    requires msg == buf || buf + msgLen <= msg || msg + msgLen <= buf
    modifies mem
    ensures mem[buf..buf + msgLen + 16] == Seal(key, nonce, AdBytes(old(mem[..]), ad), old(mem[msg..msg + msgLen]))
    ensures mem[..buf] == old(mem[..buf]) && mem[buf + msgLen + 16..] == old(mem[buf + msgLen + 16..])
  {
    hide *;
    var state, poly := Start(key, nonce);
    ShowSeparate(mem, state, poly);
    AbsorbAd(poly, mem, ad);
    var adLen := AdLength(mem, ad);
    Move(mem, msg, buf, msgLen);
    ghost var moved := mem[..];
    SealInPlace(mem, state, poly, key, nonce, AdBytes(old(mem[..]), ad), adLen, buf, msgLen);
    DropDrop(moved, buf + msgLen, 16);
    DropDrop(old(mem[..]), buf + msgLen, 16);
  }

  method Decrypt(mem: array<byte>, msg: nat, msgLen: nat, ad: Option<Span>, key: seq<byte>, nonce: seq<byte>, buf: nat)
      returns (ret: bool)
    requires |key| == 32 && |nonce| == 12
    requires ad.Some? ==> ad.value.End() <= mem.Length
    requires msg + msgLen + 16 <= mem.Length && buf + msgLen <= mem.Length
    requires msg == buf || buf + msgLen <= msg || msg + msgLen + 16 <= buf
    modifies mem
    ensures mem[buf..buf + msgLen] == Encrypted(key, nonce, old(mem[msg..msg + msgLen]))
    ensures mem[..buf] == old(mem[..buf]) && mem[buf + msgLen..] == old(mem[buf + msgLen..])
    ensures ret <==> Open(key, nonce, AdBytes(old(mem[..]), ad), old(mem[msg..msg + msgLen + 16])).Some?
  {
    hide *;
    var state, poly := Start(key, nonce);
    ShowSeparate(mem, state, poly);
    AbsorbAd(poly, mem, ad);
    var adLen := AdLength(mem, ad);
    ghost var before := mem[..];
    Move(mem, msg, buf, msgLen);
    ghost var moved := mem[..];
    MoveKeeps(before, moved, buf, msgLen, msg + msgLen);
    ret := OpenInPlace(mem, state, poly, key, nonce, AdBytes(before, ad), adLen, buf, msgLen, msg + msgLen);
    OpenMeaning(key, nonce, AdBytes(before, ad), before[msg..msg + msgLen], before[msg + msgLen..msg + msgLen + 16]);
    JoinSlice(before, msg, msg + msgLen, msg + msgLen + 16);
  }

  method AdLength(mem: array<byte>, ad: Option<Span>) returns (n: nat)
    requires ad.Some? ==> ad.value.End() <= mem.Length
    ensures n == |AdBytes(mem[..], ad)|
  {
    n := if ad.Some? then ad.value.size else 0;
  }

  /** AEADChaCha20Poly1305: msgLen is without the tag, len is the room at buf. */
  method AEADChaCha20Poly1305(mem: array<byte>, msg: nat, msgLen: nat, ad: Option<Span>,
      key: seq<byte>, nonce: seq<byte>, buf: nat, len: nat, encrypt: bool) returns (ret: bool)
    requires |key| == 32 && |nonce| == 12
    requires ad.Some? ==> ad.value.End() <= mem.Length
    requires msg + msgLen + (if encrypt then 0 else 16) <= mem.Length && buf + len <= mem.Length
    requires msg == buf || buf + msgLen <= msg || msg + msgLen + (if encrypt then 0 else 16) <= buf
    modifies mem
    ensures len < msgLen + (if encrypt then 16 else 0) ==> !ret && mem[..] == old(mem[..])
    ensures len >= msgLen + 16 && encrypt ==>
      && ret
      && mem[buf..buf + msgLen + 16] == Seal(key, nonce, AdBytes(old(mem[..]), ad), old(mem[msg..msg + msgLen]))
      && mem[..buf] == old(mem[..buf]) && mem[buf + msgLen + 16..] == old(mem[buf + msgLen + 16..])
    ensures len >= msgLen && !encrypt ==>
      && mem[buf..buf + msgLen] == Encrypted(key, nonce, old(mem[msg..msg + msgLen]))
      && mem[..buf] == old(mem[..buf]) && mem[buf + msgLen..] == old(mem[buf + msgLen..])
      && (ret <==> Open(key, nonce, AdBytes(old(mem[..]), ad), old(mem[msg..msg + msgLen + 16])).Some?)
  {
    hide *;
    if len < msgLen { return false; }
    if encrypt && len < msgLen + 16 { return false; }
    if encrypt {
      Encrypt(mem, msg, msgLen, ad, key, nonce, buf);
      ret := true;
    } else {
      ret := Decrypt(mem, msg, msgLen, ad, key, nonce, buf);
    }
  }

  lemma MoveKeeps(before: seq<byte>, after: seq<byte>, buf: nat, n: nat, at: nat)
    requires |before| == |after| && buf + n <= |before| && at + 16 <= |before|
    requires after[..buf] == before[..buf] && after[buf + n..] == before[buf + n..]
    requires buf + n <= at || at + 16 <= buf
    ensures after[at..at + 16] == before[at..at + 16]
  {
    SliceKept(before, after, Span(buf, n), Span(at, 16));
  }

  lemma OpenMeaning(key: seq<byte>, nonce: seq<byte>, ad: seq<byte>, ct: seq<byte>, tag: seq<byte>)
    requires |key| == 32 && |nonce| == 12 && |tag| == 16
    ensures Open(key, nonce, ad, ct + tag).Some? <==> tag == Tag(key, nonce, ad, ct)
  {
    hide Tag;
    assert (ct + tag)[..|ct + tag| - 16] == ct && (ct + tag)[|ct + tag| - 16..] == tag;
  }

  // ---------------------------------------------------------------------------------------
  // The multi-buffer form
  // ---------------------------------------------------------------------------------------

  ghost predicate Buffers(length: nat, bufs: seq<Span>) {
    && (forall i :: 0 <= i < |bufs| ==> bufs[i].End() <= length)
    && (forall i, j :: 0 <= i < j < |bufs| ==> bufs[i].Apart(bufs[j]))
  }

  /** The bytes of all buffers, in list order. */
  ghost function Gather(mem: seq<byte>, bufs: seq<Span>): seq<byte>
    requires forall i :: 0 <= i < |bufs| ==> bufs[i].End() <= |mem|
  {
    if bufs == [] then [] else
      var n := |bufs| - 1;
      assert bufs[n].at <= bufs[n].End();
      Gather(mem, bufs[..n]) + mem[bufs[n].at..bufs[n].End()]
  }

  ghost predicate OnlyChanged(before: seq<byte>, after: seq<byte>, b: Span) {
    |before| == |after| && b.End() <= |before| && after[..b.at] == before[..b.at] && after[b.End()..] == before[b.End()..]
  }

  lemma SliceKept(before: seq<byte>, after: seq<byte>, b: Span, other: Span)
    requires OnlyChanged(before, after, b) && b.Apart(other) && other.End() <= |before|
    ensures after[other.at..other.End()] == before[other.at..other.End()]
  {
    if b.End() <= other.at {
      DropSlice(after, b.End(), other.at - b.End(), other.End() - b.End());
      DropSlice(before, b.End(), other.at - b.End(), other.End() - b.End());
    } else {
      TakeSlice(after, b.at, other.at, other.End());
      TakeSlice(before, b.at, other.at, other.End());
    }
  }

  lemma {:induction false} GatherKept(before: seq<byte>, after: seq<byte>, b: Span, bufs: seq<Span>)
    requires OnlyChanged(before, after, b)
    requires forall i :: 0 <= i < |bufs| ==> bufs[i].End() <= |before| && bufs[i].Apart(b)
    ensures Gather(after, bufs) == Gather(before, bufs)
    decreases |bufs|
  {
    if bufs != [] {
      var n := |bufs| - 1;
      GatherKept(before, after, b, bufs[..n]);
      SliceKept(before, after, b, bufs[n]);
    }
  }

  lemma {:induction false} GatherStep(mem: seq<byte>, bufs: seq<Span>, i: nat)
    requires i < |bufs| && forall k :: 0 <= k < |bufs| ==> bufs[k].End() <= |mem|
    ensures Gather(mem, bufs[..i + 1]) == Gather(mem, bufs[..i]) + mem[bufs[i].at..bufs[i].End()]
  {
    assert bufs[..i + 1][..i] == bufs[..i];
  }

  /** The state of the loop after the first i buffers. */
  ghost predicate Progress(before: seq<byte>, mem: seq<byte>, bufs: seq<Span>, i: nat, s: C.State)
    requires i <= |bufs| && |mem| == |before| && Buffers(|mem|, bufs)
  {
    && Gather(mem, bufs[..i]) == C.Crypt(s, 0, Gather(before, bufs[..i]))
    && (forall k :: i <= k < |bufs| ==> mem[bufs[k].at..bufs[k].End()] == before[bufs[k].at..bufs[k].End()])
    && (forall p :: 0 <= p < |mem| && (forall k :: 0 <= k < i ==> !(bufs[k].at <= p < bufs[k].End())) ==> mem[p] == before[p])
  }

  lemma {:induction false} ProgressStep(before: seq<byte>, mid: seq<byte>, after: seq<byte>, bufs: seq<Span>, i: nat, s: C.State)
    requires i < |bufs| && |before| == |mid| == |after| && Buffers(|before|, bufs)
    requires Progress(before, mid, bufs, i, s) && OnlyChanged(mid, after, bufs[i])
    requires after[bufs[i].at..bufs[i].End()]
          == C.Crypt(s, |Gather(mid, bufs[..i])|, mid[bufs[i].at..bufs[i].End()])
    ensures Progress(before, after, bufs, i + 1, s)
    ensures Gather(after, bufs[..i + 1]) == Gather(mid, bufs[..i]) + after[bufs[i].at..bufs[i].End()]
  {
    hide C.Crypt, Gather;
    var b := bufs[i];
    GatherKept(mid, after, b, bufs[..i]);
    GatherStep(after, bufs, i);
    GatherStep(before, bufs, i);
    C.CryptConcat(s, 0, Gather(before, bufs[..i]), before[b.at..b.End()]);
    forall k | i + 1 <= k < |bufs| ensures after[bufs[k].at..bufs[k].End()] == before[bufs[k].at..bufs[k].End()] {
      SliceKept(mid, after, b, bufs[k]);
    }
    forall p | 0 <= p < |after| && (forall k :: 0 <= k < i + 1 ==> !(bufs[k].at <= p < bufs[k].End()))
      ensures after[p] == before[p]
    {
      assert !(b.at <= p < b.End());
      if p < b.at {
        assert after[p] == after[..b.at][p] == mid[..b.at][p];
      } else {
        assert after[p] == after[b.End()..][p - b.End()] == mid[b.End()..][p - b.End()];
      }
    }
  }

  /** Encrypt one buffer where the stream stands, then authenticate its ciphertext. */
  method OneBuffer(mem: array<byte>, state: C.Chacha20State, poly: P.Poly1305, b: Span)
    requires state.Valid() && poly.Valid() && Separate(mem, state, poly) && b.End() <= mem.Length
    modifies mem, state, state.data, state.block, poly, poly.h, poly.msg, poly.hr, poly.buffer
    ensures state.Valid() && state.start == old(state.start) && state.pos == old(state.pos) + b.size
    ensures poly.Valid() && poly.fed == old(poly.fed) + mem[b.at..b.End()]
    ensures mem[b.at..b.End()] == C.Crypt(state.start, old(state.pos), old(mem[b.at..b.End()]))
    ensures OnlyChanged(old(mem[..]), mem[..], b)
  {
    hide C.Chacha20State.Valid, P.Poly1305.Valid, C.Crypt;
    state.Encrypt(mem, b.at, b.size);
    poly.Update(mem, b.at, b.size);
  }

  /** AEADChaCha20Poly1305Encrypt: all buffers in place under one key stream and one tag at mac. */
  method AEADChaCha20Poly1305Encrypt(mem: array<byte>, bufs: seq<Span>, key: seq<byte>, nonce: seq<byte>, mac: nat)
    requires |key| == 32 && |nonce| == 12 && mac + 16 <= mem.Length && Buffers(mem.Length, bufs)
    requires forall i :: 0 <= i < |bufs| ==> bufs[i].Apart(Span(mac, 16))
    modifies mem
    ensures bufs == [] ==> mem[..] == old(mem[..])
    ensures bufs != [] ==>
      Gather(mem[..], bufs) + mem[mac..mac + 16] == Seal(key, nonce, [], Gather(old(mem[..]), bufs))
    ensures forall p :: 0 <= p < mem.Length && !(mac <= p < mac + 16)
                     && (forall k :: 0 <= k < |bufs| ==> !(bufs[k].at <= p < bufs[k].End()))
                     ==> mem[p] == old(mem[p])
  {
    hide *;
    if bufs == [] { return; }
    ghost var before := mem[..];
    var poly, size := EncryptAll(mem, bufs, key, nonce);
    ghost var mid := mem[..];
    MacOfBuffers(mem, poly, bufs, key, nonce, mac, size);
    SealedBuffers(before, mid, mem[..], bufs, key, nonce, mac);
  }

  lemma {:induction false} SealedBuffers(before: seq<byte>, mid: seq<byte>, after: seq<byte>, bufs: seq<Span>, key: seq<byte>, nonce: seq<byte>, mac: nat)
    requires |key| == 32 && |nonce| == 12 && |before| == |mid| == |after| && Buffers(|before|, bufs) && mac + 16 <= |before|
    requires Progress(before, mid, bufs, |bufs|, C.InitState(key, nonce, 1))
    requires after[mac..mac + 16] == Tag(key, nonce, [], Gather(after, bufs))
    requires Gather(after, bufs) == Gather(mid, bufs)
    requires forall p :: 0 <= p < |after| && !(mac <= p < mac + 16) ==> after[p] == mid[p]
    ensures Gather(after, bufs) + after[mac..mac + 16] == Seal(key, nonce, [], Gather(before, bufs))
    ensures forall p :: 0 <= p < |after| && !(mac <= p < mac + 16)
                     && (forall k :: 0 <= k < |bufs| ==> !(bufs[k].at <= p < bufs[k].End()))
                     ==> after[p] == before[p]
  {
    hide C.Crypt, Gather, Tag, C.InitState;
    assert bufs[..|bufs|] == bufs;
  }

  method EncryptAll(mem: array<byte>, bufs: seq<Span>, key: seq<byte>, nonce: seq<byte>)
      returns (poly: P.Poly1305, size: nat)
    requires |key| == 32 && |nonce| == 12 && Buffers(mem.Length, bufs)
    modifies mem
    ensures Progress(old(mem[..]), mem[..], bufs, |bufs|, C.InitState(key, nonce, 1))
    ensures poly.Valid() && poly.key == OneTimeKey(key, nonce) && poly.fed == Gather(mem[..], bufs)
    ensures fresh(poly) && fresh(poly.h) && fresh(poly.msg) && fresh(poly.hr) && fresh(poly.buffer)
    ensures size == |Gather(mem[..], bufs)|
  {
    hide C.Chacha20State.Valid, P.Poly1305.Valid, C.Crypt, Gather, Progress, OnlyChanged, C.InitState, OneTimeKey;
    ghost var before := mem[..];
    var state;
    state, poly := Start(key, nonce);
    size := 0;
    ProgressStart(before, bufs, state.start);
    for i := 0 to |bufs|
      invariant state.Valid() && poly.Valid() && Separate(mem, state, poly)
      invariant fresh(state) && fresh(state.data) && fresh(state.block)
      invariant fresh(poly) && fresh(poly.h) && fresh(poly.msg) && fresh(poly.hr) && fresh(poly.buffer)
      invariant state.start == C.InitState(key, nonce, 1) && size == state.pos == |Gather(mem[..], bufs[..i])|
      invariant poly.key == OneTimeKey(key, nonce) && poly.fed == Gather(mem[..], bufs[..i])
      invariant Progress(before, mem[..], bufs, i, state.start)
    {
      ghost var mid := mem[..];
      OneBuffer(mem, state, poly, bufs[i]);
      assert mem[..][bufs[i].at..bufs[i].End()] == mem[bufs[i].at..bufs[i].End()];
      ProgressStep(before, mid, mem[..], bufs, i, state.start);
      size := size + bufs[i].size;
    }
    assert bufs[..|bufs|] == bufs;
  }

  lemma {:induction false} ProgressStart(mem: seq<byte>, bufs: seq<Span>, s: C.State)
    requires Buffers(|mem|, bufs)
    ensures Progress(mem, mem, bufs, 0, s) && Gather(mem, bufs[..0]) == []
  {
  }

  method MacOfBuffers(mem: array<byte>, poly: P.Poly1305, ghost bufs: seq<Span>, ghost key: seq<byte>, ghost nonce: seq<byte>, mac: nat, size: nat)
    requires |key| == 32 && |nonce| == 12 && mac + 16 <= mem.Length && Buffers(mem.Length, bufs)
    requires forall i :: 0 <= i < |bufs| ==> bufs[i].Apart(Span(mac, 16))
    requires mem != poly.h && mem != poly.msg && mem != poly.buffer
    requires poly.Valid() && poly.key == OneTimeKey(key, nonce) && poly.fed == Gather(mem[..], bufs)
    requires size == |Gather(mem[..], bufs)|
    modifies mem, poly, poly.h, poly.msg, poly.hr, poly.buffer
    ensures mem[mac..mac + 16] == Tag(key, nonce, [], Gather(mem[..], bufs))
    ensures Gather(mem[..], bufs) == old(Gather(mem[..], bufs))
    ensures forall p :: 0 <= p < mem.Length && !(mac <= p < mac + 16) ==> mem[p] == old(mem[p])
  {
    hide P.Poly1305.Valid, Gather, OneTimeKey, P.Mac, Pad16;
    ghost var before := mem[..];
    AbsorbPadding(poly, size);
    AbsorbLengths(poly, 0, size);
    NoAd(Gather(before, bufs));
    poly.Finish(mem, mac);
    ghost var tag := P.Mac(poly.key, poly.fed);
    assert mem[..] == before[..mac] + tag + before[mac + 16..];
    assert mem[mac..mac + 16] == tag;
    GatherKept(before, mem[..], Span(mac, 16), bufs);
  }

  lemma {:induction false} NoAd(ct: seq<byte>)
    ensures MacData([], ct) == ct + Pad16(|ct|) + ToLE(0, 8) + ToLE(|ct|, 8)
  {
    hide Pad16;
    NoPadding();
    assert [] + [] + ct == ct;
  }
}
