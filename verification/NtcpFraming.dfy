/** The block framing of libdotnet/NTCPSession.cpp: messages and time syncs as checksummed, padded
    runs of CBC blocks, and their reassembly from a stream that arrives in arbitrary pieces. */
module NtcpFraming {
  import opened Wrappers
  import opened Bytes
  import opened Cbc
  import D = DnnpMessage

  const NTCP_MAX_MESSAGE_SIZE := 16384
  const NTCP_BUFFER_SIZE := 1028

  /** zlib's checksum, and whether a message has expired by the receiver's clock. */
  datatype Environment = Environment(adler32: seq<byte> -> u32, expired: seq<byte> -> bool)

  // ---------------------------------------------------------------------------------------
  // Frames
  // ---------------------------------------------------------------------------------------

  datatype Item = Message(msg: seq<byte>, padding: seq<byte>) | TimeSync(seconds: u32, padding: seq<byte>)

  /** Padding up to whole blocks, with six bytes for size and checksum. */
  function PaddingLength(len: nat): (n: nat)
    ensures (len + 6 + n) % 16 == 0 && n < 16
  {
    if (len + 6) % 16 > 0 then 16 - (len + 6) % 16 else 0
  }

  function Body(i: Item): seq<byte> {
    match i case Message(m, _) => m case TimeSync(t, _) => ToBE(t, 4)
  }

  predicate Padded(i: Item) {
    |i.padding| == PaddingLength(|Body(i)|)
  }

  /** A size of zero announces a time sync. */
  function Unchecked(i: Item): (s: seq<byte>)
    ensures |s| == 2 + |Body(i)| + |i.padding|
  {
    ToBE(if i.Message? then |i.msg| % 0x1_0000 else 0, 2) + Body(i) + i.padding
  }

  function Frame(env: Environment, i: Item): (s: seq<byte>)
    ensures Padded(i) ==> |s| % 16 == 0
    ensures |s| == 6 + |Body(i)| + |i.padding|
  {
    Unchecked(i) + ToBE(env.adler32(Unchecked(i)), 4)
  }

  /** Size, message, less than a block of padding, and the checksum of all that; a time sync has size zero. */
  lemma FrameLayout(env: Environment, i: Item)
    requires Padded(i) && |Body(i)| < 0x1_0000
    ensures var f, n := Frame(env, i), |Frame(env, i)|;
      && n % 16 == 0 && n < |Body(i)| + 22
      && BE(f[..2]) == (if i.Message? then |i.msg| else 0) && f[2..2 + |Body(i)|] == Body(i)
      && BE(f[n - 4..]) == env.adler32(f[..n - 4]) && (i.TimeSync? ==> BE(Body(i)) == i.seconds)
  {
    hide BE, ToBE, Pow256;
    Pow256Values();
    var size := if i.Message? then |i.msg| else 0;
    ModUnique(size, 0x1_0000, 0, size);
    var f, n := Frame(env, i), |Frame(env, i)|;
    assert f[..n - 4] == Unchecked(i) && f[n - 4..] == ToBE(env.adler32(Unchecked(i)), 4);
    assert f[..2] == ToBE(size, 2);
    BERoundTrip(size, 2); BERoundTrip(env.adler32(Unchecked(i)), 4);
    if i.TimeSync? { BERoundTrip(i.seconds, 4); }
  }

  predicate AllPadded(items: seq<Item>) {
    forall k :: 0 <= k < |items| ==> Padded(items[k])
  }

  function Frames(env: Environment, items: seq<Item>): (s: seq<byte>)
    requires AllPadded(items)
    ensures |s| % 16 == 0
  {
    if items == [] then []
    else
      SumOfBlocks(|Frame(env, items[0])|, |Frames(env, items[1..])|);
      Frame(env, items[0]) + Frames(env, items[1..])
  }

  lemma SumOfBlocks(a: nat, b: nat)
    requires a % 16 == 0 && b % 16 == 0
    ensures (a + b) % 16 == 0
  {
  }

  // ---------------------------------------------------------------------------------------
  // Reassembly of plaintext blocks
  // ---------------------------------------------------------------------------------------

  /** A message under way: its announced size and the blocks so far. */
  datatype Partial = Partial(size: nat, bytes: seq<byte>)

  /** ok turns false, for good, when the session has to be terminated. */
  datatype State = State(next: Option<Partial>, delivered: seq<seq<byte>>, ok: bool)

  const START := State(None, [], true)

  /** The message is complete once its blocks cover size, body and checksum. */
  function Finish(env: Environment, s: State, p: Partial): State {
    if |p.bytes| < p.size + 6 then s.(next := Some(p))
    else
      var n := |p.bytes| - 4;
      if p.bytes[n..] == ToBE(env.adler32(p.bytes[..n]), 4) && !env.expired(p.bytes[2..2 + p.size])
      then s.(next := None, delivered := s.delivered + [p.bytes[2..2 + p.size]])
      else s.(next := None)
  }

  function NextBlock(env: Environment, s: State, b: Block): State {
    if !s.ok then s
    else if s.next.Some? then Finish(env, s, s.next.value.(bytes := s.next.value.bytes + b))
    else
      var dataSize := D.Field16(b[..2]);
      if dataSize == 0 then s
      else if dataSize + 16 + 15 > NTCP_MAX_MESSAGE_SIZE - 2 then s.(ok := false)
      else Finish(env, s, Partial(dataSize, b))
  }

  function Feed(env: Environment, s: State, plain: seq<byte>): State
    requires |plain| % 16 == 0
    decreases |plain|
  {
    if plain == [] then s else Feed(env, NextBlock(env, s, plain[..16]), plain[16..])
  }

  lemma {:induction false} FeedConcat(env: Environment, s: State, a: seq<byte>, b: seq<byte>)
    requires |a| % 16 == 0 && |b| % 16 == 0
    ensures Feed(env, s, a + b) == Feed(env, Feed(env, s, a), b)
    decreases |a|
  {
    hide NextBlock;
    if a == [] {
      assert a + b == b;
    } else {
      assert (a + b)[..16] == a[..16] && (a + b)[16..] == a[16..] + b;
      FeedConcat(env, NextBlock(env, s, a[..16]), a[16..], b);
    }
  }

  lemma {:induction false} FeedOne(env: Environment, s: State, b: Block)
    ensures Feed(env, s, b) == NextBlock(env, s, b)
  {
    hide NextBlock;
    assert b[..16] == b && b[16..] == [];
    assert Feed(env, NextBlock(env, s, b), []) == NextBlock(env, s, b);
  }

  // ---------------------------------------------------------------------------------------
  // Reassembly undoes framing
  // ---------------------------------------------------------------------------------------

  /** What an item adds to the messages delivered. */
  function Delivers(env: Environment, i: Item): seq<seq<byte>> {
    if i.Message? && !env.expired(i.msg) then [i.msg] else []
  }

  function DeliversAll(env: Environment, items: seq<Item>): seq<seq<byte>> {
    if items == [] then [] else Delivers(env, items[0]) + DeliversAll(env, items[1..])
  }

  /** Within the size limit: neither empty, which would read as a time sync, nor too long. */
  predicate Acceptable(i: Item) {
    i.Message? ==> 0 < |i.msg| && |i.msg| + 31 <= NTCP_MAX_MESSAGE_SIZE - 2
  }

  /** A message in progress takes the blocks that are left of its frame. */
  lemma {:induction false} FeedRest(env: Environment, s: State, m: seq<byte>, frame: seq<byte>, k: nat)
    requires s.ok && 0 < k && 16 * k <= |frame| && |frame| % 16 == 0 && |m| + 6 <= |frame| < |m| + 22
    requires s.next == if 16 * k < |frame| then Some(Partial(|m|, frame[..16 * k])) else None
    requires 16 * k < |frame|
    ensures Feed(env, s, frame[16 * k..]) == Finish(env, s.(next := None), Partial(|m|, frame))
    decreases |frame| - 16 * k
  {
    hide Finish;
    var rest := frame[16 * k..];
    assert rest[..16] == frame[16 * k..16 * (k + 1)] && rest[16..] == frame[16 * (k + 1)..];
    var p := Partial(|m|, frame[..16 * (k + 1)]);
    assert frame[..16 * k] + rest[..16] == p.bytes;
    assert NextBlock(env, s, rest[..16]) == Finish(env, s, p);
    FinishIgnoresNext(env, s, p);
    if 16 * (k + 1) == |frame| {
      assert p.bytes == frame && rest[16..] == [];
      assert Feed(env, Finish(env, s, p), []) == Finish(env, s, p);
    } else {
      FinishWaits(env, s, p);
      var t := Finish(env, s, p);
      FeedRest(env, t, m, frame, k + 1);
      assert t.(next := None) == s.(next := None);
    }
  }

  lemma FinishIgnoresNext(env: Environment, s: State, p: Partial)
    ensures Finish(env, s, p) == Finish(env, s.(next := None), p)
  {
  }

  lemma FinishWaits(env: Environment, s: State, p: Partial)
    requires |p.bytes| < p.size + 6
    ensures Finish(env, s, p) == s.(next := Some(p))
  {
  }

  lemma FinishFrame(env: Environment, s: State, i: Item)
    requires i.Message? && Padded(i) && |i.msg| < 0x1_0000
    ensures Finish(env, s, Partial(|i.msg|, Frame(env, i))) == s.(next := None, delivered := s.delivered + Delivers(env, i))
  {
    hide ToBE;
    var f, n := Frame(env, i), |Frame(env, i)| - 4;
    assert f[..n] == Unchecked(i) && f[n..] == ToBE(env.adler32(Unchecked(i)), 4);
    assert f[2..2 + |i.msg|] == i.msg;
  }

  lemma SizeField(env: Environment, i: Item)
    requires Padded(i)
    ensures |Frame(env, i)| >= 16
    ensures D.Field16(Frame(env, i)[..16][..2]) == if i.Message? then |i.msg| % 0x1_0000 else 0
  {
    hide ToBE, D.Field16;
    assert |Frame(env, i)| % 16 == 0 && |Frame(env, i)| > 0;
    var size := if i.Message? then |i.msg| % 0x1_0000 else 0;
    assert Frame(env, i)[..16][..2] == ToBE(size, 2);
    D.Field16ToBE(size);
  }

  lemma {:induction false} FeedFrame(env: Environment, s: State, i: Item)
    requires s.ok && s.next.None? && Padded(i) && Acceptable(i)
    ensures Feed(env, s, Frame(env, i)) == s.(delivered := s.delivered + Delivers(env, i))
  {
    hide Finish, Frame, ToBE, D.Field16;
    var f := Frame(env, i);
    SizeField(env, i);
    var b: Block := f[..16];
    assert Feed(env, s, f) == Feed(env, NextBlock(env, s, b), f[16..]);
    if i.TimeSync? {
      assert |f| == 16 && f[16..] == [];
      assert Feed(env, s, []) == s;
    } else {
      ModUnique(|i.msg|, 0x1_0000, 0, |i.msg|);
      var p := Partial(|i.msg|, b);
      assert NextBlock(env, s, b) == Finish(env, s, p);
      FinishFrame(env, s, i);
      if |f| == 16 {
        assert b == f && f[16..] == [];
        assert Feed(env, Finish(env, s, p), []) == Finish(env, s, p);
      } else {
        FinishWaits(env, s, p);
        var t := s.(next := Some(p));
        assert f[..16 * 1] == b;
        FeedRest(env, t, i.msg, f, 1);
        assert t.(next := None) == s;
      }
    }
  }

  lemma {:induction false} FeedFrames(env: Environment, s: State, items: seq<Item>)
    requires s.ok && s.next.None? && AllPadded(items) && forall k :: 0 <= k < |items| ==> Acceptable(items[k])
    ensures Feed(env, s, Frames(env, items)) == s.(delivered := s.delivered + DeliversAll(env, items))
    decreases |items|
  {
    hide Frame, NextBlock;
    if items == [] {
    } else {
      var f := Frame(env, items[0]);
      assert Padded(items[0]);
      FeedConcat(env, s, f, Frames(env, items[1..]));
      FeedFrame(env, s, items[0]);
      FeedFrames(env, s.(delivered := s.delivered + Delivers(env, items[0])), items[1..]);
      assert s.delivered + Delivers(env, items[0]) + DeliversAll(env, items[1..]) == s.delivered + DeliversAll(env, items);
    }
  }

  /** The first block of a message over the limit ends the session. */
  lemma TooLong(env: Environment, s: State, i: Item)
    requires s.ok && s.next.None? && Padded(i) && i.Message? && |i.msg| < 0x1_0000
    requires |i.msg| + 31 > NTCP_MAX_MESSAGE_SIZE - 2
    ensures !NextBlock(env, s, Frame(env, i)[..16]).ok
  {
    hide Frame, D.Field16;
    SizeField(env, i);
    ModUnique(|i.msg|, 0x1_0000, 0, |i.msg|);
  }

  // ---------------------------------------------------------------------------------------
  // The receiving session
  // ---------------------------------------------------------------------------------------

  /** What a stream of ciphertext amounts to: its whole blocks, decrypted and reassembled. */
  function Reassembled(env: Environment, aes: Aes, key: seq<byte>, iv: Block, stream: seq<byte>): State {
    Feed(env, START, Decrypted(aes, key, iv, stream[..|stream| / 16 * 16]))
  }

  class NTCPReceiver {
    const env: Environment
    const aes: Aes
    const key: seq<byte>
    const receiveBuffer: array<byte>
    var iv: Block
    var receiveBufferOffset: nat
    var next: Option<Partial>
    var delivered: seq<seq<byte>>
    var ok: bool
    ghost const start: Block
    ghost var stream: seq<byte>

    constructor (e: Environment, a: Aes, k: seq<byte>, v: Block)
      ensures Valid() && Now() == START && stream == [] && fresh(receiveBuffer)
      ensures env == e && aes == a && key == k && start == v
    {
      env, aes, key, iv, start, stream := e, a, k, v, v, [];
      receiveBuffer := new byte[NTCP_BUFFER_SIZE + 16](_ => 0);
      receiveBufferOffset, next, delivered, ok := 0, None, [], true;
    }

    function Now(): State
      reads this`next, this`delivered, this`ok
    {
      State(next, delivered, ok)
    }

    /** The buffer holds the incomplete block at the end of the stream. */
    ghost predicate Valid()
      reads this, receiveBuffer
    {
      var n := |stream| / 16 * 16;
      && receiveBuffer.Length == NTCP_BUFFER_SIZE + 16 && receiveBufferOffset == |stream| - n
      && receiveBuffer[..receiveBufferOffset] == stream[n..]
      && Now() == Reassembled(env, aes, key, start, stream)
      && (ok ==> iv == Last(start, stream[..n]))
    }

    /** One block, by the branches of the source. */
    method DecryptNextBlock(encrypted: Block) returns (more: bool)
      requires ok
      modifies this`iv, this`next, this`ok, this`delivered
      ensures iv == encrypted && more == ok
      ensures Now() == NextBlock(env, old(Now()), XorBlock(aes.dec(key, encrypted), old(iv)))
    {
      hide XorBlock, D.Field16;
      var buf := XorBlock(aes.dec(key, encrypted), iv);
      iv := encrypted;
      if next.None? {
        var dataSize := D.Field16(buf[..2]);
        if dataSize != 0 {
          if dataSize + 16 + 15 > NTCP_MAX_MESSAGE_SIZE - 2 {
            ok := false;
            return false;
          }
          next := Some(Partial(dataSize, buf));
        } else {
          return true;
        }
      } else {
        next := Some(next.value.(bytes := next.value.bytes + buf));
      }
      var p := next.value;
      if |p.bytes| >= p.size + 6 {
        var n := |p.bytes| - 4;
        if p.bytes[n..] == ToBE(env.adler32(p.bytes[..n]), 4) {
          var msg := p.bytes[2..2 + p.size];
          if !env.expired(msg) { delivered := delivered + [msg]; }
        }
        next := None;
      }
      more := true;
    }

    /** The blocks in the first count bytes of buf; rest is where the incomplete one begins. */
    method ProcessBlocks(buf: array<byte>, count: nat) returns (more: bool, rest: nat)
      requires ok && count <= buf.Length
      modifies this`iv, this`next, this`ok, this`delivered
      ensures more == ok && (more ==> rest == count / 16 * 16 && iv == Last(old(iv), buf[..count / 16 * 16]))
      ensures Now() == Feed(env, old(Now()), Decrypted(aes, key, old(iv), buf[..count / 16 * 16]))
    {
      hide Feed, Decrypted, Last, NextBlock, XorBlock;
      var offset := count;
      rest := 0;
      NothingFed(env, aes, key, iv, Now());
      ghost var n, iv0, s := count / 16 * 16, iv, Now();
      assert buf[..0] == [];
      while offset >= 16
        invariant ok && rest + offset == count && rest % 16 == 0 && rest <= n
        invariant iv == Last(iv0, buf[..rest]) && Now() == Feed(env, s, Decrypted(aes, key, iv0, buf[..rest]))
      {
        var block: Block := buf[rest..rest + 16];
        FeedBlock(env, aes, key, iv0, s, buf[..], rest);
        more := DecryptNextBlock(block);
        if !more {
          FeedStopped(env, aes, key, iv0, s, buf[..], rest + 16, n);
          return false, rest;
        }
        rest := rest + 16;
        offset := offset - 16;
      }
      assert rest == n;
      more := true;
    }

    /** A read of up to the room that is left, and whatever more is available right after it. */
    method HandleReceived(chunk: seq<byte>, more: seq<byte>)
      requires Valid() && ok && |chunk| <= NTCP_BUFFER_SIZE - receiveBufferOffset
      modifies this, receiveBuffer
      ensures Now() == Reassembled(env, aes, key, start, old(stream) + chunk + more)
      ensures ok ==> Valid() && stream == old(stream) + chunk + more && receiveBufferOffset < 16
    {
      hide Reassembled, Last;
      var c := ReadInto(receiveBuffer, chunk);
      if !c {
        StoppedStays(env, aes, key, start, old(stream) + chunk, more);
        return;
      }
      if more != [] {
        if |more| + receiveBufferOffset > NTCP_BUFFER_SIZE {
          var buf := new byte[|more| + receiveBufferOffset](_ => 0);
          D.Put(buf, 0, receiveBuffer[..receiveBufferOffset]);
          c := ReadInto(buf, more);
        } else {
          c := ReadInto(receiveBuffer, more);
        }
      } else {
        assert stream + more == stream;
      }
      assert old(stream) + chunk + more == (old(stream) + chunk) + more;
    }

    /** read_some behind the leftover in buf, the loop over its blocks, and the new leftover moved to
        the front of the receive buffer. */
    method ReadInto(buf: array<byte>, piece: seq<byte>) returns (more: bool)
      requires Valid() && ok && receiveBufferOffset + |piece| <= buf.Length
      requires buf == receiveBuffer || buf[..receiveBufferOffset] == receiveBuffer[..receiveBufferOffset]
      modifies this, buf, receiveBuffer
      ensures Now() == Reassembled(env, aes, key, start, old(stream) + piece) && more == ok
      ensures ok ==> Valid() && stream == old(stream) + piece
    {
      hide Feed, Decrypted, Last, Reassembled;
      D.Put(buf, receiveBufferOffset, piece);
      Pending(stream, piece, buf[..], receiveBufferOffset);
      more := Consume(buf, receiveBufferOffset + |piece|, stream + piece);
    }

    /** The loop over the blocks of buf, which holds what follows the processed part of all. */
    method Consume(buf: array<byte>, count: nat, ghost all: seq<byte>) returns (more: bool)
      requires ok && count <= buf.Length && receiveBuffer.Length == NTCP_BUFFER_SIZE + 16
      requires Now() == Reassembled(env, aes, key, start, stream) && iv == Last(start, stream[..|stream| / 16 * 16])
      requires Loaded(stream, buf[..], count, all)
      modifies this, receiveBuffer
      ensures Now() == Reassembled(env, aes, key, start, all) && more == ok
      ensures ok ==> Valid() && stream == all
    {
      FeedPending(env, aes, key, start, stream, all, |stream| / 16 * 16, Now());
      hide Feed, Decrypted, Last, Reassembled;
      LoadedBlocks(stream, buf[..], count, all);
      var rest;
      more, rest := ProcessBlocks(buf, count);
      if more {
        MoveDown(buf, rest, count);
        receiveBufferOffset := count - rest;
        stream := all;
      }
    }

    /** memcpy of the incomplete block to the front of the receive buffer. */
    method MoveDown(buf: array<byte>, rest: nat, count: nat)
      requires rest == count / 16 * 16 && count <= buf.Length && receiveBuffer.Length >= 16
      modifies receiveBuffer
      ensures receiveBuffer[..count - rest] == old(buf[rest..count])
    {
      D.Put(receiveBuffer, 0, buf[rest..count]);
      assert receiveBuffer[..count - rest] == receiveBuffer[0..0 + (count - rest)];
    }
  }

  lemma {:induction false} NothingFed(env: Environment, aes: Aes, key: seq<byte>, iv: Block, s: State)
    ensures Feed(env, s, Decrypted(aes, key, iv, [])) == s && Last(iv, []) == iv
  {
  }

  lemma {:induction false} FeedBlock(env: Environment, aes: Aes, key: seq<byte>, iv: Block, s: State, buf: seq<byte>, at: nat)
    requires at % 16 == 0 && at + 16 <= |buf|
    ensures Feed(env, s, Decrypted(aes, key, iv, buf[..at + 16]))
      == NextBlock(env, Feed(env, s, Decrypted(aes, key, iv, buf[..at])), XorBlock(aes.dec(key, buf[at..at + 16]), Last(iv, buf[..at])))
    ensures Last(iv, buf[..at + 16]) == buf[at..at + 16]
  {
    hide Feed, Decrypted, NextBlock, XorBlock, Last;
    var b: Block := buf[at..at + 16];
    assert buf[..at + 16] == buf[..at] + b;
    DecryptedConcat(aes, key, iv, buf[..at], b);
    OneBlock(aes, key, Last(iv, buf[..at]), b);
    FeedConcat(env, s, Decrypted(aes, key, iv, buf[..at]), XorBlock(aes.dec(key, b), Last(iv, buf[..at])));
    FeedOne(env, Feed(env, s, Decrypted(aes, key, iv, buf[..at])), XorBlock(aes.dec(key, b), Last(iv, buf[..at])));
    LastConcat(iv, buf[..at], b);
    LastBlock(Last(iv, buf[..at]), b);
  }

  lemma {:induction false} StoppedFeed(env: Environment, s: State, plain: seq<byte>)
    requires |plain| % 16 == 0 && !s.ok
    ensures Feed(env, s, plain) == s
    decreases |plain|
  {
    if plain != [] { StoppedFeed(env, s, plain[16..]); }
  }

  lemma {:induction false} FeedStopped(env: Environment, aes: Aes, key: seq<byte>, iv: Block, s: State, buf: seq<byte>, at: nat, n: nat)
    requires at % 16 == n % 16 == 0 && at <= n <= |buf| && !Feed(env, s, Decrypted(aes, key, iv, buf[..at])).ok
    ensures Feed(env, s, Decrypted(aes, key, iv, buf[..n])) == Feed(env, s, Decrypted(aes, key, iv, buf[..at]))
  {
    hide Feed, Decrypted, Last;
    assert buf[..n] == buf[..at] + buf[at..n];
    DecryptedConcat(aes, key, iv, buf[..at], buf[at..n]);
    FeedConcat(env, s, Decrypted(aes, key, iv, buf[..at]), Decrypted(aes, key, Last(iv, buf[..at]), buf[at..n]));
    StoppedFeed(env, Feed(env, s, Decrypted(aes, key, iv, buf[..at])), Decrypted(aes, key, Last(iv, buf[..at]), buf[at..n]));
  }

  lemma StoppedStays(env: Environment, aes: Aes, key: seq<byte>, iv: Block, stream: seq<byte>, more: seq<byte>)
    requires !Reassembled(env, aes, key, iv, stream).ok
    ensures Reassembled(env, aes, key, iv, stream + more) == Reassembled(env, aes, key, iv, stream)
  {
    hide Feed, Decrypted;
    var n, m := |stream| / 16 * 16, |stream + more| / 16 * 16;
    assert (stream + more)[..n] == stream[..n];
    FeedStopped(env, aes, key, iv, START, stream + more, n, m);
  }

  /** The first count bytes of buf are the part of all behind the whole blocks of stream. */
  predicate Loaded(stream: seq<byte>, buf: seq<byte>, count: nat, all: seq<byte>) {
    var n := |stream| / 16 * 16;
    count <= |buf| && |all| == n + count && all[..n] == stream[..n] && buf[..count] == all[n..]
  }

  lemma Pending(stream: seq<byte>, piece: seq<byte>, buf: seq<byte>, offset: nat)
    requires offset == |stream| - |stream| / 16 * 16 && offset + |piece| <= |buf|
    requires buf[..offset] == stream[|stream| / 16 * 16..] && buf[offset..offset + |piece|] == piece
    ensures Loaded(stream, buf, offset + |piece|, stream + piece)
  {
    JoinSlice(buf, 0, offset, offset + |piece|);
  }

  lemma LoadedBlocks(stream: seq<byte>, buf: seq<byte>, count: nat, all: seq<byte>)
    requires Loaded(stream, buf, count, all)
    ensures var n, m := |stream| / 16 * 16, count / 16 * 16;
      |all| / 16 * 16 == n + m && buf[..m] == all[n..n + m] && buf[m..count] == all[n + m..]
  {
    var n, m := |stream| / 16 * 16, count / 16 * 16;
    TakeSlice(buf, count, 0, m); TakeSlice(buf, count, m, count);
    DropSlice(all, n, 0, m); DropSlice(all, n, m, count);
  }

  lemma {:induction false} FeedPending(env: Environment, aes: Aes, key: seq<byte>, iv: Block, stream: seq<byte>, all: seq<byte>, n: nat, s: State)
    requires n == |stream| / 16 * 16 && n <= |all| / 16 * 16 && all[..n] == stream[..n]
    requires s == Feed(env, START, Decrypted(aes, key, iv, stream[..n]))
    ensures var m := |all| / 16 * 16;
      && Feed(env, s, Decrypted(aes, key, Last(iv, stream[..n]), all[n..m])) == Reassembled(env, aes, key, iv, all)
      && Last(Last(iv, stream[..n]), all[n..m]) == Last(iv, all[..m])
  {
    hide Feed, Decrypted, Last;
    var m := |all| / 16 * 16;
    assert all[..m] == stream[..n] + all[n..m];
    DecryptedConcat(aes, key, iv, stream[..n], all[n..m]);
    FeedConcat(env, START, Decrypted(aes, key, iv, stream[..n]), Decrypted(aes, key, Last(iv, stream[..n]), all[n..m]));
    LastConcat(iv, stream[..n], all[n..m]);
  }

  // ---------------------------------------------------------------------------------------
  // The sending side
  // ---------------------------------------------------------------------------------------

  /** CreateMsgBuffer: the message stands at at + 2 in its buffer, with room around it for size,
      padding and checksum; the whole is encrypted where it stands. padding stands for the random
      generator. Returns how many bytes there are to send. */
  method CreateMsgBuffer(env: Environment, encryption: CBCEncryption, mem: array<byte>, at: nat, len: nat, padding: seq<byte>) returns (l: nat)
    requires at + 2 + len + |padding| + 4 <= mem.Length && |padding| == PaddingLength(len)
    modifies mem, encryption`lastBlock
    ensures l == len + |padding| + 6
    ensures var i := Message(old(mem[at + 2..at + 2 + len]), padding);
      && mem[at..at + l] == Encrypted(encryption.aes, encryption.key, old(encryption.lastBlock), Frame(env, i))
      && encryption.lastBlock == Last(old(encryption.lastBlock), mem[at..at + l])
  {
    hide Encrypted, Last, Frame;
    l := FillMsgBuffer(env, mem, at, len, padding);
    assert l / 16 * 16 == l;
    encryption.Encrypt(mem, at, l, at);
  }

  method FillMsgBuffer(env: Environment, mem: array<byte>, at: nat, len: nat, padding: seq<byte>) returns (l: nat)
    requires at + 2 + len + |padding| + 4 <= mem.Length && |padding| == PaddingLength(len)
    modifies mem
    ensures l == len + |padding| + 6 && l % 16 == 0
    ensures mem[at..at + l] == Frame(env, Message(old(mem[at + 2..at + 2 + len]), padding))
  {
    ghost var i := Message(mem[at + 2..at + 2 + len], padding);
    hide ToBE, PaddingLength, Frame, Unchecked;
    FillBody(mem, at, len, padding);
    var n := len + 2 + |padding|;
    ghost var b := mem[..];
    var checksum := env.adler32(mem[at..at + n]);
    D.Put(mem, at + n, ToBE(checksum, 4));
    D.Untouched(b, mem[..], at + n, 4, at, at + n);
    JoinSlice(mem[..], at, at + n, at + n + 4);
    FrameIs(env, i);
    l := n + 4;
  }

  method FillBody(mem: array<byte>, at: nat, len: nat, padding: seq<byte>)
    requires at + 2 + len + |padding| <= mem.Length
    modifies mem
    ensures mem[at..at + len + 2 + |padding|] == Unchecked(Message(old(mem[at + 2..at + 2 + len]), padding))
  {
    hide ToBE, Unchecked;
    ghost var i := Message(mem[at + 2..at + 2 + len], padding);
    ghost var b0 := mem[..];
    D.Put(mem, at, ToBE(len % 0x1_0000, 2));
    ghost var b1 := mem[..];
    D.Put(mem, at + 2 + len, padding);
    BodyInPlace(b0, b1, mem[..], at, len, |padding|);
    UncheckedIs(i);
  }

  lemma UncheckedIs(i: Item)
    requires i.Message?
    ensures Unchecked(i) == ToBE(|i.msg| % 0x1_0000, 2) + i.msg + i.padding
  {
  }

  lemma FrameIs(env: Environment, i: Item)
    ensures Frame(env, i) == Unchecked(i) + ToBE(env.adler32(Unchecked(i)), 4)
  {
  }

  /** Size, message and padding end up side by side. */
  lemma BodyInPlace(b0: seq<byte>, b1: seq<byte>, b2: seq<byte>, at: nat, len: nat, k: nat)
    requires |b0| == |b1| == |b2| && at + 2 + len + k <= |b0|
    requires b1[at + 2..] == b0[at + 2..] && b2[..at + 2 + len] == b1[..at + 2 + len]
    ensures b2[at..at + len + 2 + k] == b1[at..at + 2] + b0[at + 2..at + 2 + len] + b2[at + 2 + len..at + 2 + len + k]
  {
    DropSlice(b1, at + 2, 0, len); DropSlice(b0, at + 2, 0, len);
    TakeSlice(b2, at + 2 + len, at, at + 2); TakeSlice(b1, at + 2 + len, at, at + 2);
    TakeSlice(b2, at + 2 + len, at + 2, at + 2 + len); TakeSlice(b1, at + 2 + len, at + 2, at + 2 + len);
    JoinSlice(b2, at, at + 2, at + 2 + len);
    JoinSlice(b2, at, at + 2 + len, at + 2 + len + k);
  }

  /** The time sync goes through a sixteen byte buffer of its own. */
  method CreateTimeSync(env: Environment, encryption: CBCEncryption, mem: array<byte>, seconds: u32, padding: seq<byte>)
    requires mem.Length == 16 && |padding| == 6
    modifies mem, encryption`lastBlock
    ensures mem[..] == Encrypted(encryption.aes, encryption.key, old(encryption.lastBlock), Frame(env, TimeSync(seconds, padding)))
    ensures encryption.lastBlock == Last(old(encryption.lastBlock), mem[..])
  {
    hide Encrypted, Last, ToBE;
    ghost var i := TimeSync(seconds, padding);
    D.Put(mem, 0, ToBE(0, 2) + ToBE(seconds, 4) + padding);
    ghost var b := mem[..];
    D.Put(mem, 12, ToBE(env.adler32(mem[0..12]), 4));
    D.Untouched(b, mem[..], 12, 4, 0, 12);
    JoinSlice(mem[..], 0, 12, 16);
    assert mem[0..16] == Frame(env, i);
    encryption.Encrypt(mem, 0, 16, 0);
    assert mem[..] == mem[0..16];
  }

  // ---------------------------------------------------------------------------------------
  // From frames to messages, however the stream is cut
  // ---------------------------------------------------------------------------------------

  /** What one read delivers, and what was available right after it. */
  datatype Read = Read(chunk: seq<byte>, more: seq<byte>)

  function Joined(pieces: seq<Read>): seq<byte> {
    if pieces == [] then [] else Joined(pieces[..|pieces| - 1]) + pieces[|pieces| - 1].chunk + pieces[|pieces| - 1].more
  }

  /** Every read fits behind the incomplete block left over from the ones before. */
  predicate Fitting(pieces: seq<Read>) {
    forall k :: 0 <= k < |pieces| ==> |pieces[k].chunk| <= NTCP_BUFFER_SIZE - |Joined(pieces[..k])| % 16
  }

  /** Every sequence of acceptable messages and time syncs, under every split of their ciphertext into
      reads, comes out as exactly those messages, in order, with less than a block left over. */
  method Receive(env: Environment, aes: Aes, key: seq<byte>, iv: Block, ghost items: seq<Item>, pieces: seq<Read>)
      returns (delivered: seq<seq<byte>>, left: nat)
    requires Permutation(aes) && AllPadded(items) && (forall k :: 0 <= k < |items| ==> Acceptable(items[k]))
    requires Fitting(pieces) && Joined(pieces) == Encrypted(aes, key, iv, Frames(env, items))
    ensures delivered == DeliversAll(env, items) && left < 16
  {
    hide Reassembled, Frames, Encrypted, Joined, AllPadded, DeliversAll;
    var session := new NTCPReceiver(env, aes, key, iv);
    NothingJoined();
    assert pieces[..0] == [];
    var k := 0;
    while k < |pieces| && session.ok
      invariant 0 <= k <= |pieces| && session.env == env && session.aes == aes && session.key == key && session.start == iv
      invariant fresh(session) && fresh(session.receiveBuffer)
      invariant session.Now() == Reassembled(env, aes, key, iv, Joined(pieces[..k]))
      invariant session.ok ==> session.Valid() && session.stream == Joined(pieces[..k])
    {
      NextRead(pieces, k);
      session.HandleReceived(pieces[k].chunk, pieces[k].more);
      k := k + 1;
    }
    AllRead(pieces, k);
    var n := |Joined(pieces)| / 16 * 16;
    WholeStream(env, aes, key, iv, items, Joined(pieces));
    if !session.ok {
      StoppedStays(env, aes, key, iv, Joined(pieces[..k]), Joined(pieces)[|Joined(pieces[..k])|..]);
      assert false;
    }
    assert pieces[..k] == pieces;
    delivered, left := session.delivered, session.receiveBufferOffset;
  }

  lemma NothingJoined()
    ensures Joined([]) == []
  {
  }

  lemma NextRead(pieces: seq<Read>, k: nat)
    requires k < |pieces|
    ensures Joined(pieces[..k + 1]) == Joined(pieces[..k]) + pieces[k].chunk + pieces[k].more
  {
    assert pieces[..k + 1][..k] == pieces[..k];
  }

  lemma {:induction false} AllRead(pieces: seq<Read>, k: nat)
    requires k <= |pieces|
    ensures |Joined(pieces[..k])| <= |Joined(pieces)|
    ensures Joined(pieces) == Joined(pieces[..k]) + Joined(pieces)[|Joined(pieces[..k])|..]
    decreases |pieces|
  {
    if k == |pieces| {
      assert pieces[..k] == pieces;
    } else {
      var r := pieces[..|pieces| - 1];
      AllRead(r, k);
      assert r[..k] == pieces[..k];
    }
  }

  lemma {:induction false} WholeStream(env: Environment, aes: Aes, key: seq<byte>, iv: Block, items: seq<Item>, stream: seq<byte>)
    requires Permutation(aes) && AllPadded(items) && (forall k :: 0 <= k < |items| ==> Acceptable(items[k]))
    requires stream == Encrypted(aes, key, iv, Frames(env, items))
    ensures Reassembled(env, aes, key, iv, stream) == State(None, DeliversAll(env, items), true)
  {
    hide Feed, Encrypted, Decrypted, Frames, DeliversAll;
    assert stream[..|stream| / 16 * 16] == stream;
    DecryptedEncrypted(aes, key, iv, Frames(env, items));
    FeedFrames(env, START, items);
    assert [] + DeliversAll(env, items) == DeliversAll(env, items);
  }
}
