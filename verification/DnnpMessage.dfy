/** libdotnet/DNNPProtocol.h: a message in its buffer, and the in-place conversions between the
    16-byte DNNP header and the shorter headers of NTCP2 and SSU that overlap it. */
module DnnpMessage {
  import opened Bytes

  const DNNP_HEADER_SIZE := 16          // type, message id, expiration in ms, size, checksum
  const DNNP_NTCP2_HEADER_SIZE := 9     // type, message id, expiration in s
  const DNNP_SHORT_HEADER_SIZE := 5     // type, expiration in s
  const DNNP_MAX_MESSAGE_SIZE := 62708
  const DNNP_MAX_SHORT_MESSAGE_SIZE := 4096

  datatype Message = Message(typeID: byte, msgID: u32, expiration: u64, payload: seq<byte>)

  /** Milliseconds as the seconds field of a short header carries them. */
  function Seconds(expiration: u64): u32 {
    expiration / 1000 % 0x1_0000_0000
  }

  function ToNtcp2(m: Message): (b: seq<byte>)
    ensures |b| == |m.payload| + 9
  {
    [m.typeID] + ToBE(m.msgID, 4) + ToBE(Seconds(m.expiration), 4) + m.payload
  }

  function ToSsu(m: Message): (b: seq<byte>)
    ensures |b| == |m.payload| + 5
  {
    [m.typeID] + ToBE(Seconds(m.expiration), 4) + m.payload
  }

  /** A number read from k bytes. */
  function Field(s: seq<byte>, k: nat): (n: nat)
    requires |s| == k
    ensures n < Pow256(k)
  {
    BEBound(s);
    BE(s)
  }

  function Field16(s: seq<byte>): (n: u16)
    requires |s| == 2
  {
    Pow256Values();
    Field(s, 2)
  }

  function Field32(s: seq<byte>): (n: u32)
    requires |s| == 4
  {
    Pow256Values();
    Field(s, 4)
  }

  function Field64(s: seq<byte>): (n: u64)
    requires |s| == 8
  {
    Pow256Values();
    Field(s, 8)
  }

  function FromNtcp2(b: seq<byte>): Message
    requires |b| >= 9
  {
    Message(b[0], Field32(b[1..5]), Field32(b[5..9]) * 1000, b[9..])
  }

  function FromSsu(b: seq<byte>, msgID: u32): Message
    requires |b| >= 5
  {
    Message(b[0], msgID, Field32(b[1..5]) * 1000, b[5..])
  }

  lemma {:induction false} Field32ToBE(n: u32)
    ensures Field32(ToBE(n, 4)) == n
  {
    Pow256Values();
    BERoundTrip(n, 4);
  }

  lemma {:induction false} Field64ToBE(n: u64)
    ensures Field64(ToBE(n, 8)) == n
  {
    Pow256Values();
    BERoundTrip(n, 8);
  }

  /** Both short headers: type, message id (not in SSU), and the expiration in seconds, most significant byte
      first, before the payload. */
  lemma HeaderLayouts(m: Message)
    ensures var b := ToNtcp2(m);
      b[0] == m.typeID && BE(b[1..5]) == m.msgID && BE(b[5..9]) == m.expiration / 1000 % 0x1_0000_0000 && b[9..] == m.payload
    ensures var b := ToSsu(m); b[0] == m.typeID && BE(b[1..5]) == m.expiration / 1000 % 0x1_0000_0000 && b[5..] == m.payload
  {
    hide BE, ToBE, Pow256;
    Pow256Values();
    var s := m.expiration / 1000 % 0x1_0000_0000;
    BERoundTrip(m.msgID, 4); BERoundTrip(s, 4);
    var b, c := ToNtcp2(m), ToSsu(m);
    assert b[1..5] == ToBE(m.msgID, 4) && b[5..9] == ToBE(s, 4) && c[1..5] == ToBE(s, 4);
  }

  /** What a trip through NTCP2 keeps: everything, and the expiration down to the second. */
  lemma Ntcp2RoundTrip(m: Message)
    ensures FromNtcp2(ToNtcp2(m)) == m.(expiration := Seconds(m.expiration) * 1000)
  {
    hide ToBE, Field32, Seconds;
    var b := ToNtcp2(m);
    assert b[1..5] == ToBE(m.msgID, 4) && b[5..9] == ToBE(Seconds(m.expiration), 4) && b[9..] == m.payload;
    Field32ToBE(m.msgID); Field32ToBE(Seconds(m.expiration));
  }

  lemma SsuRoundTrip(m: Message)
    ensures FromSsu(ToSsu(m), m.msgID) == m.(expiration := Seconds(m.expiration) * 1000)
  {
    hide ToBE, Field32, Seconds;
    var b := ToSsu(m);
    assert b[1..5] == ToBE(Seconds(m.expiration), 4) && b[5..] == m.payload;
    Field32ToBE(Seconds(m.expiration));
  }

  /** The trip is exact just for whole seconds that fit 32 bits; otherwise the time moves back. */
  lemma ExpirationKept(expiration: u64)
    ensures Seconds(expiration) * 1000 <= expiration
    ensures Seconds(expiration) * 1000 == expiration <==> expiration % 1000 == 0 && expiration / 1000 < 0x1_0000_0000
  {
    var s := expiration / 1000;
    var q := s / 0x1_0000_0000;
    assert s == 0x1_0000_0000 * q + Seconds(expiration);
  }

  // ---------------------------------------------------------------------------------------
  // The buffer
  // ---------------------------------------------------------------------------------------

  /** memcpy into buf. */
  method Put(buf: array<byte>, at: nat, s: seq<byte>)
    requires at + |s| <= buf.Length
    modifies buf
    ensures buf[at..at + |s|] == s && buf[..at] == old(buf[..at]) && buf[at + |s|..] == old(buf[at + |s|..])
  {
    for i := 0 to |s|
      invariant buf[..at] == old(buf[..at]) && buf[at + |s|..] == old(buf[at + |s|..])
      invariant buf[at..at + i] == s[..i]
    {
      buf[at + i] := s[i];
      assert buf[at..at + i + 1] == buf[at..at + i] + [buf[at + i]];
    }
  }

  /** A slice on one side of a write is not touched by it. */
  lemma Untouched(before: seq<byte>, after: seq<byte>, at: nat, n: nat, a: nat, b: nat)
    requires |before| == |after| && at + n <= |before| && a <= b <= |before|
    requires after[..at] == before[..at] && after[at + n..] == before[at + n..]
    requires b <= at || at + n <= a
    ensures after[a..b] == before[a..b]
  {
    if b <= at {
      TakeSlice(after, at, a, b); TakeSlice(before, at, a, b);
    } else {
      DropSlice(after, at + n, a - at - n, b - at - n); DropSlice(before, at + n, a - at - n, b - at - n);
    }
  }

  class DNNPMessage {
    const buf: array<byte>
    const maxLen: nat
    var len: nat
    var offset: nat

    ghost predicate Valid()
      reads this
    {
      offset + DNNP_HEADER_SIZE <= len <= buf.Length
    }

    /** A fresh buffer of sz bytes and 32 more, with room for two bytes before the header. */
    constructor (sz: nat)
      requires sz >= 18
      ensures Valid() && fresh(buf) && buf.Length == sz + 32 && maxLen == sz && offset == 2 && len == 18
    {
      buf := new byte[sz + 32](_ => 0);
      maxLen, len, offset := sz, DNNP_HEADER_SIZE + 2, 2;
    }

    /** The message the header and the payload bytes spell out. */
    function Contents(): Message
      requires Valid()
      reads this, buf
    {
      var h := buf[offset..offset + 16];
      Message(h[0], Field32(h[1..5]), Field64(h[5..13]), buf[offset + 16..len])
    }

    function GetSize(): u16
      requires Valid()
      reads this, buf
    {
      Field16(buf[offset + 13..offset + 15])
    }

    method SetMsgID(msgID: u32)
      requires Valid()
      modifies buf
      ensures buf[offset + 1..offset + 5] == ToBE(msgID, 4)
      ensures buf[..offset + 1] == old(buf[..offset + 1]) && buf[offset + 5..] == old(buf[offset + 5..])
    {
      Put(buf, offset + 1, ToBE(msgID, 4));
    }

    method SetExpiration(expiration: u64)
      requires Valid()
      modifies buf
      ensures buf[offset + 5..offset + 13] == ToBE(expiration, 8)
      ensures buf[..offset + 5] == old(buf[..offset + 5]) && buf[offset + 13..] == old(buf[offset + 13..])
    {
      Put(buf, offset + 5, ToBE(expiration, 8));
    }

    method SetSize(size: u16)
      requires Valid()
      modifies buf
      ensures buf[offset + 13..offset + 15] == ToBE(size, 2)
      ensures buf[..offset + 13] == old(buf[..offset + 13]) && buf[offset + 15..] == old(buf[offset + 15..])
    {
      Put(buf, offset + 13, ToBE(size, 2));
    }

    method SetChks(chks: byte)
      requires Valid()
      modifies buf
      ensures buf[offset + 15..offset + 16] == [chks]
      ensures buf[..offset + 15] == old(buf[..offset + 15]) && buf[offset + 16..] == old(buf[offset + 16..])
    {
      Put(buf, offset + 15, [chks]);
    }

    /** Where the 9-byte header starts: its last four bytes are the old tail of the long one. */
    function NTCP2Header(): nat
      reads this
    {
      offset + DNNP_HEADER_SIZE - DNNP_NTCP2_HEADER_SIZE
    }

    function SSUHeader(): nat
      reads this
    {
      offset + DNNP_HEADER_SIZE - DNNP_SHORT_HEADER_SIZE
    }

    /** The short header is written over the expiration it is computed from. */
    method ToNTCP2()
      requires Valid()
      modifies buf
      ensures buf[NTCP2Header()..len] == ToNtcp2(old(Contents()))
      ensures buf[..NTCP2Header()] == old(buf[..NTCP2Header()]) && buf[len..] == old(buf[len..])
    {
      hide Field32, Field64, ToBE, Seconds;
      ghost var b0, m := buf[..], Contents();
      var ntcp2, o := NTCP2Header(), offset;
      var expiration := Field64(buf[o + 5..o + 13]);
      HeaderSlices(b0, o);
      Put(buf, ntcp2 + 5, ToBE(Seconds(expiration), 4));
      ghost var b1 := buf[..];
      Untouched(b0, b1, o + 12, 4, o, o + 5);
      Put(buf, ntcp2, buf[o..o + 5]);
      ShortHeader(b0, b1, buf[..], o, 7, len);
      TypeAndId(b0, o, m.msgID);
    }

    /** The reverse: the expiration is read before the long header overwrites it. */
    method FromNTCP2()
      requires Valid()
      modifies buf
      ensures Contents() == FromNtcp2(old(buf[NTCP2Header()..len]))
      ensures buf[offset + 13..offset + 16] == ToBE((len - offset - 16) % 0x1_0000, 2) + [0]
      ensures buf[..offset] == old(buf[..offset]) && buf[len..] == old(buf[len..])
    {
      hide Field32, Field64, ToBE;
      ghost var b0 := buf[..];
      var ntcp2, o := NTCP2Header(), offset;
      Put(buf, o, buf[ntcp2..ntcp2 + 5]);
      ghost var b1 := buf[..];
      Untouched(b0, b1, o, 5, o + 12, o + 16); Untouched(b0, b1, o, 5, o + 16, |b0|);
      var seconds: int := Field32(buf[ntcp2 + 5..ntcp2 + 9]);
      FinishHeader(seconds * 1000);
      Finished(b0, b1, buf[..], o, len);
      ShortSlices(b0, o, len);
      LongHeader(buf[..], o, b0[o + 7..o + 12], seconds * 1000);
    }

    /** SetExpiration, SetSize and SetChks together rewrite bytes 5 to 15 of the header. */
    method FinishHeader(expiration: u64)
      requires Valid()
      modifies buf
      ensures buf[offset + 5..offset + 13] == ToBE(expiration, 8)
      ensures buf[offset + 13..offset + 16] == ToBE((len - offset - 16) % 0x1_0000, 2) + [0]
      ensures buf[..offset + 5] == old(buf[..offset + 5]) && buf[offset + 16..] == old(buf[offset + 16..])
    {
      hide ToBE;
      ghost var b0 := buf[..];
      SetExpiration(expiration);
      ghost var b1 := buf[..];
      SetSize((len - offset - DNNP_HEADER_SIZE) % 0x1_0000);
      ghost var b2 := buf[..];
      SetChks(0);
      ThreeFields(b0, b1, b2, buf[..], offset);
    }

    /** The message with as much payload as the size field says. */
    function Announced(): Message
      requires Valid() && offset + DNNP_HEADER_SIZE + GetSize() <= buf.Length
      reads this, buf
    {
      Contents().(payload := buf[offset + 16..offset + 16 + GetSize()])
    }

    /** Returns the message id, which the SSU header does not carry; the SSU message is then the
        GetLength () bytes from GetSSUHeader () on. */
    method ToSSU() returns (msgID: u32)
      requires Valid() && offset + DNNP_HEADER_SIZE + GetSize() <= buf.Length
      modifies this`len, buf
      ensures msgID == old(Contents()).msgID && len - offset == old(GetSize()) + 5
      ensures SSUHeader() + len - offset <= buf.Length
      ensures buf[SSUHeader()..SSUHeader() + len - offset] == ToSsu(old(Announced()))
      ensures old(GetSize() == len - offset - 16) ==> old(Announced()) == old(Contents())
    {
      hide Field16, Field32, Field64, ToBE, Seconds;
      ghost var b0, end := buf[..], offset + DNNP_HEADER_SIZE + GetSize();
      var ssu, o := SSUHeader(), offset;
      var header := buf[o..o + 16];
      HeaderSlices(b0, o);
      Put(buf, ssu, [header[0]]);
      ghost var b1 := buf[..];
      Put(buf, ssu + 1, ToBE(Seconds(Field64(header[5..13])), 4));
      SsuBytes(b0, b1, buf[..], o, end);
      var size := Field16(header[13..15]);
      len := offset + DNNP_SHORT_HEADER_SIZE + size;
      msgID := Field32(header[1..5]);
    }

    method FromSSU(msgID: u32)
      requires Valid()
      modifies buf
      ensures Contents() == FromSsu(old(buf[SSUHeader()..len]), msgID)
      ensures buf[..offset] == old(buf[..offset]) && buf[len..] == old(buf[len..])
    {
      hide Field32, Field64, ToBE;
      ghost var b0 := buf[..];
      var ssu, o := SSUHeader(), offset;
      Put(buf, o, [buf[ssu]]);
      ghost var b1 := buf[..];
      SetMsgID(msgID);
      ghost var b2 := buf[..];
      TypeThenId(b0, b1, b2, o, len);
      var seconds: int := Field32(buf[ssu + 1..ssu + 5]);
      FinishHeader(seconds * 1000);
      Finished(b0, b2, buf[..], o, len);
      ShortSlices(b0, o, len);
      Field32ToBE(msgID);
      LongHeader(buf[..], o, [b0[o + 11]] + ToBE(msgID, 4), seconds * 1000);
    }
  }

  lemma SsuBytes(b0: seq<byte>, b1: seq<byte>, b2: seq<byte>, o: nat, end: nat)
    requires |b0| == |b1| == |b2| && o + 16 <= end <= |b0|
    requires b1[..o + 11] == b0[..o + 11] && b1[o + 12..] == b0[o + 12..]
    requires b2[..o + 12] == b1[..o + 12] && b2[o + 16..] == b1[o + 16..]
    ensures b2[o + 11..end] == b1[o + 11..o + 12] + b2[o + 12..o + 16] + b0[o + 16..end]
  {
    Untouched(b1, b2, o + 12, 4, o + 11, o + 12);
    Untouched(b0, b1, o + 11, 1, o + 16, end); Untouched(b1, b2, o + 12, 4, o + 16, end);
    JoinSlice(b2, o + 11, o + 12, end); JoinSlice(b2, o + 12, o + 16, end);
  }

  lemma TypeThenId(b0: seq<byte>, b1: seq<byte>, b2: seq<byte>, o: nat, len: nat)
    requires |b0| == |b1| == |b2| && o + 16 <= len <= |b0|
    requires b1[..o] == b0[..o] && b1[o + 1..] == b0[o + 1..]
    requires b2[..o + 1] == b1[..o + 1] && b2[o + 5..] == b1[o + 5..]
    ensures b2[o..o + 5] == b1[o..o + 1] + b2[o + 1..o + 5] && b2[o + 12..o + 16] == b0[o + 12..o + 16]
    ensures b2[..o] == b0[..o] && b2[o + 16..] == b0[o + 16..]
  {
    Untouched(b1, b2, o + 1, 4, o, o + 1); JoinSlice(b2, o, o + 1, o + 5);
    Untouched(b0, b1, o, 1, o + 12, o + 16); Untouched(b1, b2, o + 1, 4, o + 12, o + 16);
    Untouched(b1, b2, o + 1, 4, 0, o);
    Untouched(b0, b1, o, 1, o + 16, |b0|); Untouched(b1, b2, o + 1, 4, o + 16, |b0|);
  }

  /** FinishHeader rewrites bytes 5 to 15 only. */
  lemma Finished(b0: seq<byte>, b1: seq<byte>, b2: seq<byte>, o: nat, len: nat)
    requires |b0| == |b1| == |b2| && o + 16 <= len <= |b0|
    requires b1[..o] == b0[..o] && b1[o + 16..] == b0[o + 16..]
    requires b2[..o + 5] == b1[..o + 5] && b2[o + 16..] == b1[o + 16..]
    ensures b2[o..o + 5] == b1[o..o + 5] && b2[o + 16..len] == b0[o + 16..len]
    ensures b2[..o] == b0[..o] && b2[len..] == b0[len..]
  {
    Untouched(b1, b2, o + 5, 11, o, o + 5); Untouched(b1, b2, o + 5, 11, 0, o);
    DropSlice(b2, o + 16, 0, len - o - 16); DropSlice(b0, o + 16, 0, len - o - 16);
    DropDrop(b2, o + 16, len - o - 16); DropDrop(b0, o + 16, len - o - 16);
  }

  lemma ThreeFields(b0: seq<byte>, b1: seq<byte>, b2: seq<byte>, b3: seq<byte>, o: nat)
    requires |b0| == |b1| == |b2| == |b3| && o + 16 <= |b0|
    requires b1[..o + 5] == b0[..o + 5] && b1[o + 13..] == b0[o + 13..]
    requires b2[..o + 13] == b1[..o + 13] && b2[o + 15..] == b1[o + 15..]
    requires b3[..o + 15] == b2[..o + 15] && b3[o + 16..] == b2[o + 16..]
    ensures b3[o + 5..o + 13] == b1[o + 5..o + 13]
    ensures b3[o + 13..o + 16] == b2[o + 13..o + 15] + b3[o + 15..o + 16]
    ensures b3[..o + 5] == b0[..o + 5] && b3[o + 16..] == b0[o + 16..]
  {
    Untouched(b1, b2, o + 13, 2, o + 5, o + 13); Untouched(b2, b3, o + 15, 1, o + 5, o + 13);
    Untouched(b2, b3, o + 15, 1, o + 13, o + 15);
    Untouched(b1, b2, o + 13, 2, 0, o + 5); Untouched(b2, b3, o + 15, 1, 0, o + 5);
    Untouched(b0, b1, o + 5, 8, o + 16, |b0|); Untouched(b1, b2, o + 13, 2, o + 16, |b0|);
    JoinSlice(b3, o + 13, o + 15, o + 16);
  }

  /** After the expiration at 12 and the bytes before it from k on have been written. */
  lemma ShortHeader(b0: seq<byte>, b1: seq<byte>, b2: seq<byte>, o: nat, k: nat, len: nat)
    requires |b0| == |b1| == |b2| && o + 16 <= len <= |b0| && 5 <= k <= 12
    requires b1[..o + 12] == b0[..o + 12] && b1[o + 16..] == b0[o + 16..]
    requires b2[..o + k] == b1[..o + k] && b2[o + 12..] == b1[o + 12..]
    ensures b2[o + k..len] == b2[o + k..o + 12] + b1[o + 12..o + 16] + b0[o + 16..len]
    ensures b2[..o + k] == b0[..o + k] && b2[len..] == b0[len..]
  {
    DropSlice(b2, o + 12, 0, 4); DropSlice(b1, o + 12, 0, 4);
    DropDrop(b2, o + 12, 4); DropDrop(b1, o + 12, 4);
    DropSlice(b2, o + 16, 0, len - o - 16); DropSlice(b0, o + 16, 0, len - o - 16);
    DropDrop(b2, o + 16, len - o - 16); DropDrop(b0, o + 16, len - o - 16);
    TakeSlice(b1, o + 12, 0, o + k); TakeSlice(b0, o + 12, 0, o + k);
    JoinSlice(b2, o + k, o + 12, len); JoinSlice(b2, o + 12, o + 16, len);
  }

  lemma HeaderSlices(b: seq<byte>, o: nat)
    requires o + 16 <= |b|
    ensures b[o..o + 16][1..5] == b[o + 1..o + 5] && b[o..o + 16][5..13] == b[o + 5..o + 13]
    ensures b[o..o + 16][13..15] == b[o + 13..o + 15] && b[o..o + 16][0] == b[o]
  {
    SubSlice(b, o, o + 16, 1, 5); SubSlice(b, o, o + 16, 5, 13); SubSlice(b, o, o + 16, 13, 15);
  }

  lemma ShortSlices(b: seq<byte>, o: nat, len: nat)
    requires o + 16 <= len <= |b|
    ensures var s := b[o + 7..len]; s[0] == b[o + 7] && s[1..5] == b[o + 8..o + 12] && s[5..9] == b[o + 12..o + 16] && s[9..] == b[o + 16..len]
    ensures var s := b[o + 11..len]; s[0] == b[o + 11] && s[1..5] == b[o + 12..o + 16] && s[5..] == b[o + 16..len]
    ensures b[o + 7..o + 12] == [b[o + 7]] + b[o + 8..o + 12]
  {
    SubSlice(b, o + 7, len, 1, 5); SubSlice(b, o + 7, len, 5, 9); SubSlice(b, o + 7, len, 9, len - o - 7);
    SubSlice(b, o + 11, len, 1, 5); SubSlice(b, o + 11, len, 5, len - o - 11);
  }

  lemma {:induction false} TypeAndId(b: seq<byte>, o: nat, msgID: u32)
    requires o + 16 <= |b| && msgID == Field32(b[o + 1..o + 5])
    ensures b[o..o + 5] == [b[o]] + ToBE(msgID, 4)
  {
    ToBEBE(b[o + 1..o + 5]);
    assert b[o..o + 5] == [b[o]] + b[o + 1..o + 5];
  }

  /** Reading a long header back from its type, id and expiration bytes. */
  lemma {:induction false} LongHeader(b: seq<byte>, o: nat, first: seq<byte>, expiration: u64)
    requires o + 16 <= |b| && |first| == 5 && b[o..o + 5] == first && b[o + 5..o + 13] == ToBE(expiration, 8)
    ensures var h := b[o..o + 16]; h[0] == first[0] && h[1..5] == first[1..] && Field64(h[5..13]) == expiration
  {
    HeaderSlices(b, o);
    assert b[o + 1..o + 5] == b[o..o + 5][1..];
    assert b[o] == b[o..o + 5][0];
    Field64ToBE(expiration);
  }

  /** NewDNNPMessage (size), Align (12) and FromNTCP2: what the receiver of an NTCP2 block does with
      it. shift is how far the buffer's address is from a multiple of twelve. */
  method Received(data: seq<byte>, shift: nat) returns (msg: DNNPMessage)
    requires 9 <= |data| <= DNNP_MAX_MESSAGE_SIZE && shift < 12
    ensures fresh(msg) && msg.Valid() && msg.Contents() == FromNtcp2(data) && msg.GetSize() == |data| - 9
  {
    hide Field16, Field32, Field64, FromNtcp2, ToBE;
    msg := NewDNNPMessage(|data|, shift);
    msg.len := msg.offset + |data| + 7;
    Put(msg.buf, msg.NTCP2Header(), data);
    assert msg.buf[msg.NTCP2Header()..msg.len] == data;
    msg.FromNTCP2();
    ModUnique(|data| - 9, 0x1_0000, 0, |data| - 9);
    SizeField(msg.buf[..], msg.offset, |data| - 9);
  }

  method NewDNNPMessage(len: nat, shift: nat) returns (msg: DNNPMessage)
    requires shift < 12 && len <= DNNP_MAX_MESSAGE_SIZE
    ensures fresh(msg) && fresh(msg.buf) && msg.offset + len + 7 <= msg.buf.Length && msg.offset >= 2
  {
    var sz := if len < DNNP_MAX_SHORT_MESSAGE_SIZE - DNNP_HEADER_SIZE - 2 then DNNP_MAX_SHORT_MESSAGE_SIZE else DNNP_MAX_MESSAGE_SIZE;
    msg := new DNNPMessage(sz);
    if msg.len + 12 <= msg.maxLen {
      msg.offset := msg.offset + shift;
      msg.len := msg.len + shift;
    }
  }

  lemma {:induction false} SizeField(b: seq<byte>, o: nat, size: u16)
    requires o + 16 <= |b| && b[o + 13..o + 16] == ToBE(size, 2) + [0]
    ensures Field16(b[o + 13..o + 15]) == size
  {
    hide ToBE;
    SubSlice(b, o + 13, o + 16, 0, 2);
    assert b[o + 13..o + 15] == ToBE(size, 2);
    hide Field16;
    Field16ToBE(size);
  }

  lemma {:induction false} Field16ToBE(n: u16)
    ensures Field16(ToBE(n, 2)) == n
  {
    hide ToBE, BE;
    Pow256Values();
    BERoundTrip(n, 2);
  }
}
