/** The NTCP2 data phase of libdotnet/NTCP2.cpp: framing, padding, length obfuscation, nonces and
    the send queue, from the sender's queue to the receiver's messages over an ordered channel. */
module Ntcp2Data {
  import opened Wrappers
  import opened Bytes
  import opened DnnpMessage
  import Aead
  import H = Ntcp2Handshake

  const NTCP2_UNENCRYPTED_FRAME_MAX_SIZE := 65519
  const NTCP2_MAX_PADDING_RATIO := 6
  const BLK_DNNP_MESSAGE: byte := 3
  const BLK_TERMINATION: byte := 4
  const BLK_PADDING: byte := 254
  const SIZE_T := 0x1_0000_0000_0000_0000

  // ---------------------------------------------------------------------------------------
  // Length obfuscation
  // ---------------------------------------------------------------------------------------

  type Iv = s: seq<byte> | |s| == 8 witness Zeros(8)

  /** SipHash-2-4 with an 8-byte result. */
  type Siphash = (H.Key, Iv) -> Iv

  /** The 16-bit mask that the first two bytes of the chain value stand for. */
  function Mask(iv: Iv): u16 {
    LEBound(iv[..2]);
    Pow256Values();
    LE(iv[..2])
  }

  /** htobe16buf (lengthBuf, frameLen ^ mask): what does not fit 16 bits is lost. */
  function LengthField(frameLen: nat, iv: Iv): (b: seq<byte>)
    ensures |b| == 2
  {
    ToBE(Xor(frameLen, Mask(iv)) % 0x1_0000, 2)
  }

  function Unmasked(field: seq<byte>, iv: Iv): nat
    requires |field| == 2
  {
    Xor(Field16(field), Mask(iv))
  }

  /** Byte by byte: the first byte of the chain value masks the low byte of the length, the second the high. */
  lemma {:induction false} LengthFieldIs(frameLen: u16, iv: Iv)
    ensures LengthField(frameLen, iv) == [XorByte(frameLen / 256, iv[1]), XorByte(frameLen % 256, iv[0])]
  {
    hide Xor;
    var hi, lo := frameLen / 256, frameLen % 256;
    MaskIs(iv);
    assert Pow2(8) == 256;
    XorJoin(lo, hi, iv[0], iv[1], 8);
    XorFits(lo, iv[0]); XorFits(hi, iv[1]);
    TwoBytes(Xor(hi, iv[1]), Xor(lo, iv[0]));
  }

  lemma {:induction false} MaskIs(iv: Iv)
    ensures var s: seq<int> := iv; Mask(iv) == s[0] + 256 * s[1]
  {
    var s: seq<int> := iv[..2];
    assert s[..0] == [] && s[..1] == [s[0]] && s[..2] == s;
    LEStep(s, 0); LEStep(s, 1);
    assert Shift(s[1], 1) == 256 * s[1];
  }

  lemma {:induction false} TwoBytes(hi: byte, lo: byte)
    ensures ToBE((lo + 256 * hi) % 0x1_0000, 2) == [hi, lo]
  {
    var n := lo + 256 * hi;
    ModUnique(n, 0x1_0000, 0, n);
    ModUnique(n, 256, hi, lo);
    assert ToBE(hi, 1) == ToBE(hi / 256, 0) + [hi % 256];
    ModUnique(hi, 256, 0, hi);
  }

  lemma {:induction false} XorLow(a: nat, b: nat, n: nat)
    requires b < Pow2(n)
    ensures Xor(a, b) % Pow2(n) == Xor(a % Pow2(n), b)
    decreases n
  {
    hide Xor;
    if n == 0 {
      XorZero(a); XorZero(0);
      assert a % 1 == 0;
    } else {
      var p := Pow2(n - 1);
      XorStep(a, b); XorStep(a % (2 * p), b);
      XorLow(a / 2, b / 2, n - 1);
      HalfMod(a, p); HalfMod(Xor(a, b), p);
    }
  }

  lemma HalfMod(a: nat, p: nat)
    requires p > 0
    ensures a % (2 * p) / 2 == a / 2 % p && a % (2 * p) % 2 == a % 2
    ensures a % (2 * p) == 2 * (a / 2 % p) + a % 2
  {
    var b := a / 2;
    var q, r := b / p, b % p;
    assert a == 2 * (p * q + r) + a % 2;
    assert a == (2 * p) * q + (2 * r + a % 2);
    ModUnique(a, 2 * p, q, 2 * r + a % 2);
  }

  /** The receiver recovers the frame length modulo 2^16, so exactly the lengths below 2^16. */
  lemma LengthRecovered(frameLen: nat, iv: Iv)
    ensures Unmasked(LengthField(frameLen, iv), iv) == frameLen % 0x1_0000
    ensures Unmasked(LengthField(frameLen, iv), iv) == frameLen <==> frameLen < 0x1_0000
  {
    hide Xor, Pow2, ToBE, Mask;
    var m, x := Mask(iv), Xor(frameLen, Mask(iv)) % 0x1_0000;
    Pow2Byte();
    XorLow(frameLen, m, 16);
    Field16ToBE(x);
    XorInvolutive(frameLen % 0x1_0000, m);
    LowWord(frameLen);
  }

  lemma LowWord(n: nat)
    ensures n % 0x1_0000 == n <==> n < 0x1_0000
  {
  }

  // ---------------------------------------------------------------------------------------
  // Blocks and padding
  // ---------------------------------------------------------------------------------------

  datatype Block = Block(blk: byte, data: seq<byte>)

  function BlockBytes(b: Block): (s: seq<byte>)
    ensures |s| == |b.data| + 3
  {
    [b.blk] + ToBE(|b.data| % 0x1_0000, 2) + b.data
  }

  /** Type, size, data. */
  lemma BlockLayout(b: Block)
    requires |b.data| < 0x1_0000
    ensures var s := BlockBytes(b); s[0] == b.blk && BE(s[1..3]) == |b.data| && s[3..] == b.data
  {
    hide BE, ToBE;
    ModUnique(|b.data|, 0x1_0000, 0, |b.data|);
    Pow256Values();
    BERoundTrip(|b.data|, 2);
    assert BlockBytes(b)[1..3] == ToBE(|b.data|, 2);
  }

  function Frame(blocks: seq<Block>): seq<byte> {
    if blocks == [] then [] else BlockBytes(blocks[0]) + Frame(blocks[1..])
  }

  lemma {:induction false} FrameConcat(a: seq<Block>, b: seq<Block>)
    ensures Frame(a + b) == Frame(a) + Frame(b)
    decreases |a|
  {
    if a == [] {
      assert a + b == b;
    } else {
      assert (a + b)[0] == a[0] && (a + b)[1..] == a[1..] + b;
      FrameConcat(a[1..], b);
    }
  }

  /** CreatePaddingBlock for msgLen bytes of blocks and len bytes of room; random stands for rand ().
      None when there is no room for a block header. The subtraction is in size_t. */
  function PaddingSize(msgLen: nat, len: nat, random: nat): (padding: Option<nat>)
    ensures padding.None? <==> len < 3
    ensures padding.Some? ==> padding.value <= len - 3
  {
    if len < 3 then None
    else
      var m := if msgLen < 256 then 256 else msgLen;
      var wanted := m * NTCP2_MAX_PADDING_RATIO / 100;
      var size := if m + wanted + 3 > NTCP2_UNENCRYPTED_FRAME_MAX_SIZE
                  then (NTCP2_UNENCRYPTED_FRAME_MAX_SIZE - m - 3) % SIZE_T else wanted;
      var capped := if size > len - 3 then len - 3 else size;
      Some(if capped > 0 then random % capped else 0)
  }

  /** The sizes that come up: anything below 6 percent of the message (of 256 bytes at least) that also stays
      below the room for the block and the frame, and zero. */
  lemma PaddingRange(msgLen: nat, len: nat, v: nat)
    requires msgLen <= 65516 && len >= 3
    ensures var m := if msgLen < 256 then 256 else msgLen;
      (exists random: nat :: PaddingSize(msgLen, len, random).value == v)
      <==> v == 0 || (v < m * 6 / 100 && m + v + 3 < NTCP2_UNENCRYPTED_FRAME_MAX_SIZE && v < len - 3)
  {
    hide PaddingSize;
    var m := if msgLen < 256 then 256 else msgLen;
    var wanted, left := m * 6 / 100, NTCP2_UNENCRYPTED_FRAME_MAX_SIZE - m - 3;
    var size := if wanted < left then wanted else left;
    var capped := if size < len - 3 then size else len - 3;
    forall random: nat ensures PaddingSize(msgLen, len, random).value == if capped > 0 then random % capped else 0 {
      PaddingIs(msgLen, len, random);
    }
    if v == 0 {
      assert PaddingSize(msgLen, len, 0).value == 0;
    } else if v < capped {
      ModUnique(v, capped, 0, v);
      assert PaddingSize(msgLen, len, v).value == v;
    }
  }

  lemma PaddingIs(msgLen: nat, len: nat, random: nat)
    requires msgLen <= 65516 && len >= 3
    ensures var m := if msgLen < 256 then 256 else msgLen;
      var wanted, left := m * 6 / 100, NTCP2_UNENCRYPTED_FRAME_MAX_SIZE - m - 3;
      var size := if wanted < left then wanted else left;
      var capped := if size < len - 3 then size else len - 3;
      PaddingSize(msgLen, len, random) == Some(if capped > 0 then random % capped else 0)
  {
    var left := NTCP2_UNENCRYPTED_FRAME_MAX_SIZE - (if msgLen < 256 then 256 else msgLen) - 3;
    ModUnique(left, SIZE_T, 0, left);
  }

  /** The room CreatePaddingBlock is offered: the rest of the last message's buffer when that also
      holds the MAC, otherwise a buffer of its own. */
  function PaddingRoom(room: int): (len: nat) {
    if room > 16 then room - 16 else 287 - 16
  }

  function PaddingBlocks(padding: Option<nat>): seq<Block> {
    if padding.None? then [] else [Block(BLK_PADDING, Zeros(padding.value))]
  }

  function FrameLength(total: nat, room: int, random: nat): nat {
    total + |Frame(PaddingBlocks(PaddingSize(total, PaddingRoom(room), random)))| + 16
  }

  lemma PaddingFrame(padding: Option<nat>)
    ensures |Frame(PaddingBlocks(padding))| == if padding.None? then 0 else padding.value + 3
  {
    if padding.Some? {
      var b := Block(BLK_PADDING, Zeros(padding.value));
      assert [b][1..] == [];
      assert Frame([b]) == BlockBytes(b) + Frame([]);
    }
  }

  /** The queue may fill a frame to 65519 bytes of blocks, but the padding header is then no longer
      accounted for: the length of the frame fits its 16-bit field exactly when at most 65516 bytes
      are used, or the last buffer has no room left for a padding header. */
  lemma FrameFits(total: nat, room: int, random: nat)
    requires total <= NTCP2_UNENCRYPTED_FRAME_MAX_SIZE
    ensures FrameLength(total, room, random) < 0x1_0000 <==> total <= 65516 || 16 < room < 19
  {
    hide Frame;
    var p := PaddingSize(total, PaddingRoom(room), random);
    PaddingFrame(p);
    if total <= 65516 && p.Some? {
      PaddingWithin(total, PaddingRoom(room), random);
    }
  }

  lemma PaddingWithin(total: nat, len: nat, random: nat)
    requires total <= 65516 && len >= 3
    ensures total + PaddingSize(total, len, random).value + 3 <= NTCP2_UNENCRYPTED_FRAME_MAX_SIZE
  {
    var m := if total < 256 then 256 else total;
    var left := NTCP2_UNENCRYPTED_FRAME_MAX_SIZE - m - 3;
    ModUnique(left, SIZE_T, 0, left);
  }

  // ---------------------------------------------------------------------------------------
  // Messages
  // ---------------------------------------------------------------------------------------

  /** A queued message; room is what its buffer has left behind the payload (maxLen - len). */
  datatype Queued = Queued(msg: Message, room: int) {
    /** GetNTCP2Length () */
    function Length(): nat { |msg.payload| + 9 }
  }

  function MessageBlock(q: Queued): Block {
    Block(BLK_DNNP_MESSAGE, ToNtcp2(q.msg))
  }

  function MessageBlocks(msgs: seq<Queued>): (b: seq<Block>)
    ensures |b| == |msgs| && forall i :: 0 <= i < |msgs| ==> b[i] == MessageBlock(msgs[i])
  {
    seq(|msgs|, i requires 0 <= i < |msgs| => MessageBlock(msgs[i]))
  }

  /** Bytes of blocks that messages take. */
  function Total(msgs: seq<Queued>): nat {
    if msgs == [] then 0 else Total(msgs[..|msgs| - 1]) + msgs[|msgs| - 1].Length() + 3
  }

  lemma {:induction false} TotalIsFrame(msgs: seq<Queued>)
    ensures |Frame(MessageBlocks(msgs))| == Total(msgs)
    decreases |msgs|
  {
    hide MessageBlock;
    if msgs != [] {
      var q := msgs[|msgs| - 1];
      assert MessageBlocks(msgs) == MessageBlocks(msgs[..|msgs| - 1]) + [MessageBlock(q)];
      FrameConcat(MessageBlocks(msgs[..|msgs| - 1]), [MessageBlock(q)]);
      TotalIsFrame(msgs[..|msgs| - 1]);
      OneBlock(MessageBlock(q));
      BlockLength(q);
    }
  }

  lemma BlockLength(q: Queued)
    ensures |BlockBytes(MessageBlock(q))| == q.Length() + 3
  {
  }

  lemma OneBlock(b: Block)
    ensures Frame([b]) == BlockBytes(b)
  {
    assert [b][1..] == [];
    assert Frame([b]) == BlockBytes(b) + Frame([]);
  }

  /** What the receiver hands on: the message blocks in order, up to the size it takes, with the
      expiration cut to seconds. */
  function Delivered(blocks: seq<Block>): seq<Message> {
    if blocks == [] then [] else
      var rest := Delivered(blocks[1..]);
      var b := blocks[0];
      if b.blk == BLK_DNNP_MESSAGE && 9 <= |b.data| <= DNNP_MAX_MESSAGE_SIZE then [FromNtcp2(b.data)] + rest else rest
  }

  function Arriving(msgs: seq<Queued>): seq<Message> {
    if msgs == [] then [] else
      var rest := Arriving(msgs[1..]);
      var q := msgs[0];
      if q.Length() <= DNNP_MAX_MESSAGE_SIZE then [q.msg.(expiration := Seconds(q.msg.expiration) * 1000)] + rest else rest
  }

  lemma {:induction false} DeliveredMessages(msgs: seq<Queued>, padding: Option<nat>)
    ensures Delivered(MessageBlocks(msgs) + PaddingBlocks(padding)) == Arriving(msgs)
    decreases |msgs|
  {
    hide FromNtcp2, ToNtcp2, Seconds;
    var blocks := MessageBlocks(msgs) + PaddingBlocks(padding);
    if msgs == [] {
      if padding.Some? {
        assert blocks[1..] == [];
        assert Delivered(blocks) == Delivered(blocks[1..]);
      }
    } else {
      assert blocks[1..] == MessageBlocks(msgs[1..]) + PaddingBlocks(padding);
      DeliveredMessages(msgs[1..], padding);
      Ntcp2RoundTrip(msgs[0].msg);
    }
  }

  // ---------------------------------------------------------------------------------------
  // The session
  // ---------------------------------------------------------------------------------------

  function AllBlocks(msgs: seq<Queued>, random: nat): seq<Block>
    requires msgs != []
  {
    MessageBlocks(msgs) + PaddingBlocks(PaddingSize(Total(msgs), PaddingRoom(msgs[|msgs| - 1].room), random))
  }

  /** A frame on the wire: its masked length, then the sealed blocks. */
  function Wire(frame: seq<byte>, key: H.Key, seqn: u64, iv: Iv): seq<byte> {
    LengthField(|frame| + 16, iv) + Aead.Seal(key, H.Nonce(seqn), [], frame)
  }

  /** The first frame of a stream and what follows it; None when the length is below a MAC or
      beyond the stream, or the MAC is wrong. */
  function NextFrame(stream: seq<byte>, key: H.Key, seqn: u64, iv: Iv): Option<(seq<byte>, seq<byte>)>
    requires |stream| >= 2
  {
    var len := Unmasked(stream[..2], iv);
    if len < 16 || len > |stream| - 2 then None
    else
      var plain := Aead.Open(key, H.Nonce(seqn), [], stream[2..2 + len]);
      if plain.None? then None else Some((plain.value, stream[2 + len..]))
  }

  /** Messages whose block fits an empty frame. */
  function Sendable(msgs: seq<Queued>): seq<Queued> {
    if msgs == [] then []
    else if msgs[0].Length() + 3 <= NTCP2_UNENCRYPTED_FRAME_MAX_SIZE then [msgs[0]] + Sendable(msgs[1..])
    else Sendable(msgs[1..])
  }

  lemma {:induction false} SendableConcat(a: seq<Queued>, b: seq<Queued>)
    ensures Sendable(a + b) == Sendable(a) + Sendable(b)
    decreases |a|
  {
    if a == [] {
      assert a + b == b;
    } else {
      assert (a + b)[0] == a[0] && (a + b)[1..] == a[1..] + b;
      SendableConcat(a[1..], b);
    }
  }

  lemma SendableOne(q: Queued)
    ensures Sendable([q]) == if q.Length() + 3 <= NTCP2_UNENCRYPTED_FRAME_MAX_SIZE then [q] else []
  {
    assert [q][1..] == [];
    assert Sendable([q][1..]) == [];
  }

  /** Every block has a true 16-bit size, and message blocks hold at least a header. */
  predicate WellFormed(blocks: seq<Block>) {
    forall i :: 0 <= i < |blocks| ==> |blocks[i].data| < 0x1_0000 && (blocks[i].blk == BLK_DNNP_MESSAGE ==> |blocks[i].data| >= 9)
  }

  class NTCP2Session {
    const siphash: Siphash
    var sendKey: H.Key
    var receiveKey: H.Key
    var sendSipKey: H.Key
    var receiveSipKey: H.Key
    var sendIV: Iv
    var receiveIV: Iv
    var sendSequenceNumber: u64
    var receiveSequenceNumber: u64
    var sendQueue: seq<Queued>
    var isSending: bool

    constructor (sip: Siphash, keys: H.SessionKeys)
      requires |keys.sendIV| == |keys.receiveIV| == 8
      ensures siphash == sip && sendKey == keys.sendKey && receiveKey == keys.receiveKey
      ensures sendSipKey == keys.sendSipKey && receiveSipKey == keys.receiveSipKey
      ensures sendIV == keys.sendIV && receiveIV == keys.receiveIV
      ensures sendSequenceNumber == receiveSequenceNumber == 0 && sendQueue == [] && !isSending
    {
      siphash := sip;
      sendKey, receiveKey, sendSipKey, receiveSipKey := keys.sendKey, keys.receiveKey, keys.sendSipKey, keys.receiveSipKey;
      sendIV, receiveIV := keys.sendIV, keys.receiveIV;
      sendSequenceNumber, receiveSequenceNumber := 0, 0;
      sendQueue, isSending := [], false;
    }

    method SetNextSentFrameLength(frameLen: nat) returns (lengthBuf: seq<byte>)
      modifies this`sendIV
      ensures sendIV == siphash(sendSipKey, old(sendIV)) && lengthBuf == LengthField(frameLen, sendIV)
    {
      hide LengthField;
      sendIV := siphash(sendSipKey, sendIV);
      lengthBuf := LengthField(frameLen, sendIV);
    }

    /** One frame for all of msgs; padding goes behind the last message or into a buffer of its own. */
    method SendDNNPMsgs(msgs: seq<Queued>, random: nat) returns (wire: seq<byte>)
      requires msgs != []
      modifies this`sendSequenceNumber, this`sendIV, this`isSending
      ensures isSending && sendSequenceNumber == (old(sendSequenceNumber) + 1) % SIZE_T
      ensures sendIV == siphash(sendSipKey, old(sendIV))
      ensures wire == Wire(Frame(AllBlocks(msgs, random)), sendKey, old(sendSequenceNumber), sendIV)
    {
      hide Frame, LengthField, Aead.Seal, PaddingSize, H.Nonce, BlockBytes, MessageBlock;
      var totalLen := 0;
      var frame: seq<byte> := [];
      var macPlaced := false;
      NoBlocks(msgs);
      for i := 0 to |msgs|
        modifies {}
        invariant totalLen == Total(msgs[..i]) + (if macPlaced then |Frame(PaddingBlocks(PaddingSize(Total(msgs), PaddingRoom(msgs[|msgs| - 1].room), random)))| else 0)
        invariant macPlaced ==> i == |msgs| && msgs[|msgs| - 1].room > 16 && frame == Frame(AllBlocks(msgs, random))
        invariant !macPlaced ==> frame == Frame(MessageBlocks(msgs[..i])) && (i == |msgs| ==> msgs[|msgs| - 1].room <= 16)
      {
        var it := msgs[i];
        AppendBlock(msgs, i);
        frame := frame + BlockBytes(MessageBlock(it));
        totalLen := totalLen + (it.Length() + 3);
        if i == |msgs| - 1 {
          assert msgs[..i + 1] == msgs;
          if it.room > 16 {
            var padding := PaddingSize(totalLen, it.room - 16, random);
            AppendPadding(msgs, random);
            frame := frame + Frame(PaddingBlocks(padding));
            totalLen := totalLen + |Frame(PaddingBlocks(padding))|;
            macPlaced := true;
          }
        }
      }
      assert msgs[..|msgs|] == msgs;
      if !macPlaced {
        var padding := PaddingSize(totalLen, 287 - 16, random);
        AppendPadding(msgs, random);
        frame := frame + Frame(PaddingBlocks(padding));
        totalLen := totalLen + |Frame(PaddingBlocks(padding))|;
      }
      TotalIsFrame(msgs);
      AppendPadding(msgs, random);
      var sealed := Aead.Seal(sendKey, H.Nonce(sendSequenceNumber), [], frame);
      sendSequenceNumber := (sendSequenceNumber + 1) % SIZE_T;
      var lengthBuf := SetNextSentFrameLength(totalLen + 16);
      isSending := true;
      wire := lengthBuf + sealed;
    }

    /** Takes as many messages off the queue as one frame holds. sent says which, consumed also
        counts what was dropped. */
    method SendQueue(random: nat) returns (wire: seq<byte>, sent: seq<Queued>, ghost consumed: seq<Queued>)
      modifies this`sendQueue, this`sendSequenceNumber, this`sendIV, this`isSending
      ensures old(sendQueue) == consumed + sendQueue && sent == Sendable(consumed)
      ensures Total(sent) <= NTCP2_UNENCRYPTED_FRAME_MAX_SIZE
      ensures old(sendQueue) != [] ==> consumed != []
      ensures sendQueue != [] ==> sent != [] && Total(sent) + sendQueue[0].Length() + 3 > NTCP2_UNENCRYPTED_FRAME_MAX_SIZE
      ensures sendQueue != [] ==> sendQueue[0].Length() + 3 <= NTCP2_UNENCRYPTED_FRAME_MAX_SIZE
      ensures sent == [] ==> wire == [] && unchanged(`sendSequenceNumber, `sendIV)
      ensures sent != [] ==>
        && sendSequenceNumber == (old(sendSequenceNumber) + 1) % SIZE_T && sendIV == siphash(sendSipKey, old(sendIV))
        && wire == Wire(Frame(AllBlocks(sent, random)), sendKey, old(sendSequenceNumber), sendIV)
    {
      hide Wire, AllBlocks, Sendable, Total;
      consumed, sent, wire := [], [], [];
      var s := 0;
      NothingQueued();
      var full := false;
      while sendQueue != [] && !full
        invariant old(sendQueue) == consumed + sendQueue && sent == Sendable(consumed) && s == Total(sent)
        invariant s <= NTCP2_UNENCRYPTED_FRAME_MAX_SIZE && (sent != [] <==> s > 0)
        invariant full ==> sendQueue != [] && consumed != [] && sendQueue[0].Length() + 3 <= NTCP2_UNENCRYPTED_FRAME_MAX_SIZE
        invariant full ==> s + sendQueue[0].Length() + 3 > NTCP2_UNENCRYPTED_FRAME_MAX_SIZE
        decreases |sendQueue|, !full
        modifies this`sendQueue
      {
        var msg := sendQueue[0];
        var len := msg.Length();
        SendableConcat(consumed, [msg]);
        SendableOne(msg);
        if s + len + 3 <= NTCP2_UNENCRYPTED_FRAME_MAX_SIZE {
          TotalSnoc(sent, msg);
          sent := sent + [msg];
          s := s + (len + 3);
          sendQueue := sendQueue[1..];
          consumed := consumed + [msg];
        } else if len + 3 > NTCP2_UNENCRYPTED_FRAME_MAX_SIZE {
          sendQueue := sendQueue[1..];
          consumed := consumed + [msg];
        } else {
          full := true;
        }
      }
      if sent != [] {
        wire := SendDNNPMsgs(sent, random);
      }
    }

    /** HandleReceivedLength and HandleReceived: the next frame of the stream, opened. */
    method ReceiveFrame(stream: seq<byte>) returns (ok: bool, frame: seq<byte>, rest: seq<byte>)
      requires |stream| >= 2
      modifies this`receiveIV, this`receiveSequenceNumber
      ensures receiveIV == siphash(receiveSipKey, old(receiveIV))
      ensures var f := NextFrame(stream, receiveKey, old(receiveSequenceNumber), receiveIV);
        (ok <==> f.Some?) && (ok ==> f == Some((frame, rest)))
      ensures ok ==> receiveSequenceNumber == (old(receiveSequenceNumber) + 1) % SIZE_T
    {
      hide Unmasked, Aead.Open, H.Nonce;
      frame, rest := [], [];
      receiveIV := siphash(receiveSipKey, receiveIV);
      var nextReceivedLen := Unmasked(stream[..2], receiveIV);
      if nextReceivedLen < 16 || nextReceivedLen > |stream| - 2 { return false, frame, rest; }
      var nonce := H.Nonce(receiveSequenceNumber);
      receiveSequenceNumber := (receiveSequenceNumber + 1) % SIZE_T;
      var plain := Aead.Open(receiveKey, nonce, [], stream[2..2 + nextReceivedLen]);
      if plain.None? { return false, frame, rest; }
      ok, frame, rest := true, plain.value, stream[2 + nextReceivedLen..];
    }

    /** Walks the blocks of a frame. shift is the misalignment of the buffers it allocates. */
    method ProcessNextFrame(frame: seq<byte>, ghost blocks: seq<Block>, shift: nat) returns (msgs: seq<Message>, terminate: bool)
      requires WellFormed(blocks) && frame == Frame(blocks) && shift < 12
      ensures msgs == Delivered(blocks)
      ensures terminate <==> exists i :: 0 <= i < |blocks| && blocks[i].blk == BLK_TERMINATION && |blocks[i].data| >= 9
    {
      hide Frame, Delivered, FromNtcp2, BlockBytes, Field16;
      var len := |frame|;
      var offset := 0;
      msgs, terminate := [], false;
      ghost var k := 0;
      NothingDelivered();
      assert blocks[..0] == [] && frame[0..] == frame;
      while offset < len
        invariant 0 <= k <= |blocks| && 0 <= offset <= len && frame[offset..] == Frame(blocks[k..])
        invariant msgs == Delivered(blocks[..k])
        invariant terminate <==> exists i :: 0 <= i < k && blocks[i].blk == BLK_TERMINATION && |blocks[i].data| >= 9
      {
        ghost var b := blocks[k..];
        NextBlock(b, frame, offset);
        DeliveredNext(blocks, k);
        var blk := frame[offset];
        offset := offset + 1;
        var size: nat := Field16(frame[offset..offset + 2]);
        offset := offset + 2;
        if size > len { assert false; break; }
        if blk == BLK_DNNP_MESSAGE {
          if size <= DNNP_MAX_MESSAGE_SIZE {
            var nextMsg := Received(frame[offset..offset + size], shift);
            msgs := msgs + [nextMsg.Contents()];
          }
        } else if blk == BLK_TERMINATION {
          if size >= 9 { terminate := true; }
        }
        offset := offset + size;
        k := k + 1;
      }
      NoMoreBlocks(blocks[k..]);
      assert blocks[..k] == blocks;
    }
  }

  lemma NothingQueued()
    ensures Sendable([]) == [] && Total([]) == 0
  {
  }

  lemma {:induction false} TotalSnoc(msgs: seq<Queued>, q: Queued)
    ensures Total(msgs + [q]) == Total(msgs) + q.Length() + 3
  {
    assert (msgs + [q])[..|msgs|] == msgs;
  }

  lemma NoBlocks(msgs: seq<Queued>)
    ensures Frame(MessageBlocks(msgs[..0])) == [] && Total(msgs[..0]) == 0
  {
    assert msgs[..0] == [];
    assert MessageBlocks(msgs[..0]) == [];
  }

  lemma AppendBlock(msgs: seq<Queued>, i: nat)
    requires i < |msgs|
    ensures Frame(MessageBlocks(msgs[..i + 1])) == Frame(MessageBlocks(msgs[..i])) + BlockBytes(MessageBlock(msgs[i]))
    ensures Total(msgs[..i + 1]) == Total(msgs[..i]) + msgs[i].Length() + 3
  {
    hide Frame, BlockBytes, MessageBlock;
    assert msgs[..i + 1] == msgs[..i] + [msgs[i]];
    TotalSnoc(msgs[..i], msgs[i]);
    assert MessageBlocks(msgs[..i + 1]) == MessageBlocks(msgs[..i]) + [MessageBlock(msgs[i])];
    FrameConcat(MessageBlocks(msgs[..i]), [MessageBlock(msgs[i])]);
    OneBlock(MessageBlock(msgs[i]));
  }

  lemma {:induction false} AppendPadding(msgs: seq<Queued>, random: nat)
    requires msgs != []
    ensures var p := PaddingBlocks(PaddingSize(Total(msgs), PaddingRoom(msgs[|msgs| - 1].room), random));
      Frame(AllBlocks(msgs, random)) == Frame(MessageBlocks(msgs)) + Frame(p)
  {
    FrameConcat(MessageBlocks(msgs), PaddingBlocks(PaddingSize(Total(msgs), PaddingRoom(msgs[|msgs| - 1].room), random)));
  }

  lemma NothingDelivered()
    ensures Delivered([]) == [] && Frame([]) == []
  {
  }

  lemma {:induction false} FrameNotEmpty(b: seq<Block>)
    requires b != []
    ensures |Frame(b)| >= 3
  {
  }

  lemma {:induction false} NoMoreBlocks(b: seq<Block>)
    requires Frame(b) == []
    ensures b == []
  {
    if b != [] { FrameNotEmpty(b); }
  }

  lemma BlockParts(b: Block, rest: seq<byte>)
    requires |b.data| < 0x1_0000
    ensures var t, n := BlockBytes(b) + rest, |b.data|;
      t[0] == b.blk && t[1..3] == ToBE(n, 2) && t[3..3 + n] == b.data && t[3 + n..] == rest
  {
    hide ToBE;
    var n := |b.data|;
    ModUnique(n, 0x1_0000, 0, n);
    var t := BlockBytes(b) + rest;
    assert t == [b.blk] + (ToBE(n, 2) + (b.data + rest));
    assert t[1..] == ToBE(n, 2) + (b.data + rest);
    assert t[1..3] == t[1..][..2];
  }

  lemma {:induction false} NextBlock(b: seq<Block>, frame: seq<byte>, offset: nat)
    requires offset < |frame| && frame[offset..] == Frame(b) && WellFormed(b)
    ensures b != [] && frame[offset] == b[0].blk && offset + 3 + |b[0].data| <= |frame|
    ensures Field16(frame[offset + 1..offset + 3]) == |b[0].data|
    ensures frame[offset + 3..offset + 3 + |b[0].data|] == b[0].data
    ensures frame[offset + 3 + |b[0].data|..] == Frame(b[1..])
  {
    assert b != [];
    var n := |b[0].data|;
    assert frame[offset..] == BlockBytes(b[0]) + Frame(b[1..]);
    hide BlockBytes, ToBE, Field16, Frame;
    BlockParts(b[0], Frame(b[1..]));
    DropSlice(frame, offset, 1, 3); DropSlice(frame, offset, 3, 3 + n); DropDrop(frame, offset, 3 + n);
    Field16ToBE(n);
  }

  lemma {:induction false} DeliveredConcat(a: seq<Block>, b: seq<Block>)
    ensures Delivered(a + b) == Delivered(a) + Delivered(b)
    decreases |a|
  {
    hide FromNtcp2;
    if a == [] {
      assert a + b == b;
    } else {
      assert (a + b)[0] == a[0] && (a + b)[1..] == a[1..] + b;
      DeliveredConcat(a[1..], b);
    }
  }

  lemma DeliveredNext(blocks: seq<Block>, k: nat)
    requires k < |blocks|
    ensures Delivered(blocks[..k + 1]) == Delivered(blocks[..k]) + (
      if blocks[k].blk == BLK_DNNP_MESSAGE && 9 <= |blocks[k].data| <= DNNP_MAX_MESSAGE_SIZE then [FromNtcp2(blocks[k].data)] else [])
    ensures blocks[k..][1..] == blocks[k + 1..]
  {
    hide FromNtcp2;
    assert blocks[..k + 1] == blocks[..k] + [blocks[k]];
    DeliveredConcat(blocks[..k], [blocks[k]]);
    assert [blocks[k]][1..] == [];
    assert Delivered([blocks[k]][1..]) == [];
  }

  // ---------------------------------------------------------------------------------------
  // From queue to messages
  // ---------------------------------------------------------------------------------------

  /** The receiver finds the frame at the head of the stream exactly when its length, MAC included,
      fits the 16-bit field. */
  lemma WireOpens(frame: seq<byte>, key: H.Key, seqn: u64, iv: Iv, rest: seq<byte>)
    ensures NextFrame(Wire(frame, key, seqn, iv) + rest, key, seqn, iv) == Some((frame, rest)) <==> |frame| + 16 < 0x1_0000
  {
    hide LengthField, Unmasked, Aead.Open, Aead.Seal, H.Nonce;
    var c := Aead.Seal(key, H.Nonce(seqn), [], frame);
    var stream := LengthField(|frame| + 16, iv) + c + rest;
    assert Wire(frame, key, seqn, iv) + rest == stream && stream[..2] == LengthField(|frame| + 16, iv);
    LengthRecovered(|frame| + 16, iv);
    var len := Unmasked(stream[..2], iv);
    if |frame| + 16 < 0x1_0000 {
      assert stream[2..2 + len] == c && stream[2 + len..] == rest;
      Aead.OpenSeal(key, H.Nonce(seqn), [], frame);
    } else if 16 <= len <= |stream| - 2 {
      OpenedLength(key, seqn, stream[2..2 + len]);
    }
  }

  lemma OpenedLength(key: H.Key, seqn: u64, c: seq<byte>)
    requires |c| >= 16
    ensures var o := Aead.Open(key, H.Nonce(seqn), [], c); o.Some? ==> |o.value| == |c| - 16
  {
    hide Aead.Tag;
  }

  /** a's sending half and b's receiving half are at the same point. */
  ghost predicate Synced(a: NTCP2Session, b: NTCP2Session)
    reads a, b
  {
    && a != b && a.siphash == b.siphash && a.sendKey == b.receiveKey && a.sendSipKey == b.receiveSipKey
    && a.sendIV == b.receiveIV && a.sendSequenceNumber == b.receiveSequenceNumber
  }

  /** Every message came out of a DNNP buffer, so its length fits 16 bits. */
  predicate Buffered(msgs: seq<Queued>) {
    forall i :: 0 <= i < |msgs| ==> msgs[i].Length() < 0x1_0000
  }

  /** The two sides of a finished handshake start in step, in both directions. */
  method Connect(sip: Siphash, keys: H.SessionKeys, peerKeys: H.SessionKeys) returns (a: NTCP2Session, b: NTCP2Session)
    requires H.CrossMatch(keys, peerKeys)
    ensures fresh(a) && fresh(b) && Synced(a, b) && Synced(b, a)
  {
    a := new NTCP2Session(sip, keys);
    b := new NTCP2Session(sip, peerKeys);
  }

  lemma {:induction false} BlocksWellFormed(msgs: seq<Queued>, random: nat)
    requires msgs != [] && Buffered(msgs)
    requires |Frame(AllBlocks(msgs, random))| + 16 < 0x1_0000
    ensures WellFormed(AllBlocks(msgs, random)) && Delivered(AllBlocks(msgs, random)) == Arriving(msgs)
  {
    hide Frame, PaddingSize, Delivered, Arriving, ToNtcp2;
    var p := PaddingSize(Total(msgs), PaddingRoom(msgs[|msgs| - 1].room), random);
    DeliveredMessages(msgs, p);
    FrameConcat(MessageBlocks(msgs), PaddingBlocks(p));
    PaddingFrame(p);
  }

  /** One frame, from the sender's messages to the receiver's. */
  method Deliver(a: NTCP2Session, b: NTCP2Session, wire: seq<byte>, ghost msgs: seq<Queued>, ghost random: nat, shift: nat)
      returns (delivered: seq<Message>)
    requires a != b && a.siphash == b.siphash && a.sendKey == b.receiveKey && a.sendSipKey == b.receiveSipKey
    requires msgs != [] && Buffered(msgs) && shift < 12
    requires a.sendIV == b.siphash(b.receiveSipKey, b.receiveIV) && a.sendSequenceNumber == (b.receiveSequenceNumber + 1) % SIZE_T
    requires wire == Wire(Frame(AllBlocks(msgs, random)), b.receiveKey, b.receiveSequenceNumber, a.sendIV)
    requires |Frame(AllBlocks(msgs, random))| + 16 < 0x1_0000
    modifies b`receiveIV, b`receiveSequenceNumber
    ensures Synced(a, b) && delivered == Arriving(msgs)
  {
    hide Frame, Wire, NextFrame, AllBlocks, Buffered, Arriving, Delivered, WellFormed;
    ghost var blocks := AllBlocks(msgs, random);
    WireOpens(Frame(blocks), b.receiveKey, b.receiveSequenceNumber, a.sendIV, []);
    assert wire + [] == wire;
    WireLength(Frame(blocks), b.receiveKey, b.receiveSequenceNumber, a.sendIV);
    var ok, frame, rest := b.ReceiveFrame(wire);
    BlocksWellFormed(msgs, random);
    var terminate;
    delivered, terminate := b.ProcessNextFrame(frame, blocks, shift);
  }

  lemma WireLength(frame: seq<byte>, key: H.Key, seqn: u64, iv: Iv)
    ensures |Wire(frame, key, seqn, iv)| == |frame| + 18
  {
    hide Aead.Seal, LengthField;
  }

  /** How many messages SendQueue puts into the first frame: the longest prefix that fits. */
  function FrameCount(msgs: seq<Queued>): (n: nat)
    ensures n <= |msgs| && Total(msgs[..n]) <= NTCP2_UNENCRYPTED_FRAME_MAX_SIZE
  {
    if Total(msgs) <= NTCP2_UNENCRYPTED_FRAME_MAX_SIZE then
      assert msgs[..|msgs|] == msgs; |msgs|
    else
      var front := msgs[..|msgs| - 1];
      var n := FrameCount(front);
      assert msgs[..n] == front[..n]; n
  }

  /** The condition of FrameFits, for the messages of a frame. */
  predicate Fits(batch: seq<Queued>)
    requires batch != []
  {
    Total(batch) <= 65516 || 16 < batch[|batch| - 1].room < 19
  }

  /** Every frame that SendQueue makes of sendable messages fits its length field. */
  predicate AllFit(msgs: seq<Queued>)
    decreases |msgs|
  {
    var n := FrameCount(msgs);
    n > 0 ==> Fits(msgs[..n]) && AllFit(msgs[n..])
  }

  lemma {:induction false} FrameCountIs(sent: seq<Queued>, left: seq<Queued>)
    requires Total(sent) <= NTCP2_UNENCRYPTED_FRAME_MAX_SIZE
    requires left != [] ==> Total(sent) + left[0].Length() + 3 > NTCP2_UNENCRYPTED_FRAME_MAX_SIZE
    ensures FrameCount(sent + left) == |sent|
    decreases |left|
  {
    if left == [] {
      assert sent + left == sent;
    } else {
      var front := left[..|left| - 1];
      assert (sent + left)[..|sent + left| - 1] == sent + front;
      TotalAtLeast(sent, left);
      FrameCountIs(sent, front);
    }
  }

  lemma {:induction false} TotalAtLeast(sent: seq<Queued>, left: seq<Queued>)
    requires left != []
    ensures Total(sent + left) >= Total(sent) + left[0].Length() + 3
    decreases |left|
  {
    var front, q := left[..|left| - 1], left[|left| - 1];
    assert sent + left == (sent + front) + [q];
    TotalSnoc(sent + front, q);
    if front == [] {
      assert sent + front == sent;
    } else {
      TotalAtLeast(sent, front);
    }
  }

  /** The receiver finds the frame of a batch exactly when the batch meets the condition. */
  lemma {:induction false} BatchOpens(batch: seq<Queued>, random: nat, key: H.Key, seqn: u64, iv: Iv, rest: seq<byte>)
    requires batch != [] && Total(batch) <= NTCP2_UNENCRYPTED_FRAME_MAX_SIZE
    ensures Fits(batch) <==> |Frame(AllBlocks(batch, random))| + 16 < 0x1_0000
    ensures var frame := Frame(AllBlocks(batch, random));
      Fits(batch) <==> NextFrame(Wire(frame, key, seqn, iv) + rest, key, seqn, iv) == Some((frame, rest))
  {
    hide Frame, Total, PaddingSize, Wire, NextFrame;
    FrameFits(Total(batch), batch[|batch| - 1].room, random);
    TotalIsFrame(batch);
    AppendPadding(batch, random);
    WireOpens(Frame(AllBlocks(batch, random)), key, seqn, iv, rest);
  }

  lemma {:induction false} NextBatch(sent: seq<Queued>, left: seq<Queued>)
    requires AllFit(sent + left) && sent != [] && Total(sent) <= NTCP2_UNENCRYPTED_FRAME_MAX_SIZE
    requires left != [] ==> Total(sent) + left[0].Length() + 3 > NTCP2_UNENCRYPTED_FRAME_MAX_SIZE
    ensures Fits(sent) && AllFit(left)
  {
    FrameCountIs(sent, left);
    assert (sent + left)[..|sent|] == sent && (sent + left)[|sent|..] == left;
  }

  lemma {:induction false} ArrivingConcat(a: seq<Queued>, b: seq<Queued>)
    ensures Arriving(a + b) == Arriving(a) + Arriving(b)
    decreases |a|
  {
    hide Seconds;
    if a == [] {
      assert a + b == b;
    } else {
      assert (a + b)[0] == a[0] && (a + b)[1..] == a[1..] + b;
      ArrivingConcat(a[1..], b);
    }
  }

  /** What the sender drops the receiver would not take either. */
  lemma {:induction false} ArrivingSendable(msgs: seq<Queued>)
    ensures Arriving(Sendable(msgs)) == Arriving(msgs)
    decreases |msgs|
  {
    hide Seconds;
    if msgs != [] {
      ArrivingSendable(msgs[1..]);
      if msgs[0].Length() + 3 <= NTCP2_UNENCRYPTED_FRAME_MAX_SIZE {
        var s := Sendable(msgs);
        assert s[0] == msgs[0] && s[1..] == Sendable(msgs[1..]);
      }
    }
  }

  lemma {:induction false} SendableIn(msgs: seq<Queued>)
    requires Buffered(msgs)
    ensures Buffered(Sendable(msgs))
    decreases |msgs|
  {
    if msgs != [] { SendableIn(msgs[1..]); }
  }

  /** The queue drains: frame after frame, everything the receiver takes comes out in queue order,
      with type, id and payload intact and the expiration cut to seconds. rand is the sequence of
      random numbers the padding draws on. */
  method Drain(a: NTCP2Session, b: NTCP2Session, rand: nat -> nat, shift: nat) returns (delivered: seq<Message>)
    requires Synced(a, b) && shift < 12 && Buffered(a.sendQueue) && AllFit(Sendable(a.sendQueue))
    modifies a, b
    ensures Synced(a, b) && a.sendQueue == [] && delivered == Arriving(old(a.sendQueue))
  {
    hide Buffered, AllFit, Fits, NextFrame, Sendable, Arriving, Wire, Frame, AllBlocks, Total;
    ghost var queue, done, gone := a.sendQueue, [], [];
    delivered := [];
    var n := 0;
    NothingArrives();
    NothingQueued();
    while a.sendQueue != []
      invariant Synced(a, b) && queue == gone + a.sendQueue && done == Sendable(gone) && delivered == Arriving(done)
      invariant AllFit(Sendable(a.sendQueue))
      decreases |a.sendQueue|
    {
      ghost var before, key, seqn := a.sendQueue, b.receiveKey, b.receiveSequenceNumber;
      var wire, sent; ghost var consumed;
      wire, sent, consumed := a.SendQueue(rand(n));
      SendableConcat(gone, consumed);
      SendableConcat(consumed, a.sendQueue);
      SendableFirst(a.sendQueue);
      assert queue == gone + consumed + a.sendQueue;
      if sent != [] {
        NextBatch(sent, Sendable(a.sendQueue));
        BatchOpens(sent, rand(n), key, seqn, a.sendIV, []);
        PartBuffered(queue, gone, consumed, a.sendQueue);
        SendableIn(consumed);
        var msgs := Deliver(a, b, wire, sent, rand(n), shift);
        delivered := delivered + msgs;
        ArrivingConcat(done, sent);
      } else {
        assert done + sent == done && before == consumed;
      }
      done := done + sent;
      gone := gone + consumed;
      n := n + 1;
    }
    assert queue == gone;
    ArrivingSendable(queue);
  }

  lemma {:induction false} SendableFirst(msgs: seq<Queued>)
    requires msgs != [] ==> msgs[0].Length() + 3 <= NTCP2_UNENCRYPTED_FRAME_MAX_SIZE
    ensures msgs == [] ==> Sendable(msgs) == []
    ensures msgs != [] ==> Sendable(msgs) != [] && Sendable(msgs)[0] == msgs[0]
  {
  }

  lemma NothingArrives()
    ensures Arriving([]) == []
  {
  }

  lemma PartBuffered(all: seq<Queued>, x: seq<Queued>, y: seq<Queued>, z: seq<Queued>)
    requires Buffered(all) && all == x + y + z
    ensures Buffered(y)
  {
    forall i | 0 <= i < |y| ensures y[i].Length() < 0x1_0000 { assert y[i] == all[|x| + i]; }
  }

  /** Two messages of legal size whose frame, by this arithmetic, announces a wrong length. */
  lemma OverrunExample(random: nat)
    ensures var p, q := Queued(Message(20, 1, 0, Zeros(62000)), 100), Queued(Message(20, 2, 0, Zeros(3493)), 100);
      && p.Length() <= DNNP_MAX_MESSAGE_SIZE && q.Length() <= DNNP_MAX_MESSAGE_SIZE
      && Total([p, q]) == 65517 && FrameLength(65517, q.room, random) >= 0x1_0000 && !AllFit([p, q])
  {
    hide PaddingSize, Frame;
    var p, q := Queued(Message(20, 1, 0, Zeros(62000)), 100), Queued(Message(20, 2, 0, Zeros(3493)), 100);
    NothingQueued();
    assert [] + [p] == [p] && [p] + [q] == [p, q];
    TotalSnoc([], p);
    TotalSnoc([p], q);
    FrameFits(65517, q.room, random);
    assert FrameCount([p, q]) == 2 && [p, q][..2] == [p, q];
  }
}
