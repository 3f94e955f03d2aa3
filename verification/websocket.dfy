/**
 * WebSocket framing over an accumulating buffer: spool, deliver_websocket_frame, the delivery loop and
 * mg_websocket_write of lib/mongoose/mongoose.c, against sections 5.2 and 5.3 of RFC 6455.
 */
module WebSockets {
  import opened Words
  import opened Chunks
  import opened Streams

  /** One call of the handler: first frame byte, announced length, content. */
  datatype Delivery = Delivery(first: Byte, length: int, content: seq<Byte>)

  // ---------- decoding ----------

  /** Header length (0 while the header is incomplete), mask length and data length, as the C int they are kept in. */
  datatype Header = Header(headerLen: nat, maskLen: nat, dataLen: int)

  /** The number in network byte order, most significant octet first (htons, htonl). */
  function BigEndian(n: nat, octets: nat): (bytes: seq<Byte>)
    ensures |bytes| == octets
  {
    if octets == 0 then [] else BigEndian(n / 256, octets - 1) + [n % 256]
  }

  function FromBigEndian(bytes: seq<Byte>): nat {
    if bytes == [] then 0 else FromBigEndian(bytes[..|bytes| - 1]) * 256 + bytes[|bytes| - 1]
  }

  lemma {:induction false} BigEndianRoundTrip(n: nat, octets: nat, limit: nat)
    requires n < limit && limit <= Power2(8 * octets)
    ensures FromBigEndian(BigEndian(n, octets)) == n
  {
    if octets != 0 {
      Power2Sum(8, 8 * (octets - 1));
      Power2Of64();
      BigEndianRoundTrip(n / 256, octets - 1, Power2(8 * (octets - 1)));
      assert BigEndian(n, octets)[..octets - 1] == BigEndian(n / 256, octets - 1);
    }
  }

  /** A uint32_t converted to int. */
  function ToInt32(n: nat): int {
    if n < 0x8000_0000 then n else n - 0x1_0000_0000
  }

  function ParseHeader(buf: seq<Byte>): (h: Header)
    ensures h.headerLen > 0 ==> h.maskLen + 2 <= h.headerLen
    ensures h.maskLen == 0 || h.maskLen == 4
  {
    if |buf| < 2 then Header(0, 0, 0)
    else
      var len, mask := buf[1] % 128, if buf[1] >= 128 then 4 else 0;
      if len < 126 && |buf| >= mask then Header(2 + mask, mask, len)
      else if len == 126 && |buf| >= 4 + mask then Header(4 + mask, mask, FromBigEndian(buf[2..4]))
      else if |buf| >= 10 + mask then Header(10 + mask, mask, ToInt32(FromBigEndian(buf[6..10])))
      else Header(0, mask, 0)
  }

  function FrameLen(buf: seq<Byte>): int {
    ParseHeader(buf).headerLen + ParseHeader(buf).dataLen
  }

  /** A whole frame is buffered. */
  predicate Buffered(buf: seq<Byte>) {
    0 < FrameLen(buf) <= |buf|
  }

  function XorByte(a: Byte, b: Byte): Byte {
    XorOfBytes(a, b);
    Xor(a, b)
  }

  lemma XorOfBytes(a: Byte, b: Byte)
    ensures 0 <= Xor(a, b) < 256
  {
    Power2Of64();
    XorFits(a, b, 8);
  }

  /** Section 5.3: octet i is combined with octet i modulo 4 of the key. */
  function Masked(data: seq<Byte>, key: seq<Byte>): (masked: seq<Byte>)
    requires |key| == 4
    ensures |masked| == |data|
  {
    seq(|data|, i requires 0 <= i < |data| => XorByte(data[i], key[i % 4]))
  }

  lemma MaskedTwice(data: seq<Byte>, key: seq<Byte>)
    requires |key| == 4
    ensures Masked(Masked(data, key), key) == data
  {
    forall i | 0 <= i < |data|
      ensures Masked(Masked(data, key), key)[i] == data[i]
    {
      XorCancels(data[i], key[i % 4]);
    }
  }

  /** x has exactly the bits in which a and b differ. */
  ghost predicate Differ(x: Byte, a: Byte, b: Byte) {
    forall k: nat :: Bit(x, k) == 1 <==> Bit(a, k) != Bit(b, k)
  }

  lemma XorByteIs(x: Byte, a: Byte, b: Byte)
    ensures Differ(x, a, b) <==> x == XorByte(a, b)
  {
    forall k: nat
      ensures Bit(XorByte(a, b), k) == 1 <==> Bit(a, k) != Bit(b, k)
    {
      XorBits(a, b, k);
    }
    if Differ(x, a, b) {
      Power2Of64();
      forall k: nat | k < 8
        ensures Bit(x, k) == Bit(XorByte(a, b), k)
      {
        assert Bit(x, k) == 1 <==> Bit(a, k) != Bit(b, k);
      }
      BitsDetermine(x, XorByte(a, b), 8);
    }
  }

  /** Octet i of the masked data has the bits in which octet i of the data and octet i modulo 4 of the key differ. */
  lemma MaskedOctets(data: seq<Byte>, key: seq<Byte>, masked: seq<Byte>)
    requires |key| == 4
    ensures masked == Masked(data, key) <==>
            |masked| == |data| && forall i :: 0 <= i < |data| ==> Differ(masked[i], data[i], key[i % 4])
  {
    forall i | 0 <= i < |data| && i < |masked|
      ensures Differ(masked[i], data[i], key[i % 4]) <==> masked[i] == Masked(data, key)[i]
    {
      XorByteIs(masked[i], data[i], key[i % 4]);
    }
  }

  /** A frame of this shape lies within the buffer. */
  predicate Fits(buf: seq<Byte>, h: Header) {
    && 0 < h.headerLen + h.dataLen <= |buf|
    && h.maskLen + 2 <= h.headerLen && (h.maskLen == 0 || h.maskLen == 4)
  }

  function Content(buf: seq<Byte>, h: Header): seq<Byte>
    requires Fits(buf, h)
  {
    if h.dataLen <= 0 then []
    else if h.maskLen == 0 then buf[h.headerLen..h.headerLen + h.dataLen]
    else Masked(buf[h.headerLen..h.headerLen + h.dataLen], buf[h.headerLen - 4..h.headerLen])
  }

  /** What the handler sees of a masked frame, octet by octet and bit by bit. */
  lemma ContentOctets(buf: seq<Byte>, h: Header)
    requires Fits(buf, h)
    ensures |Content(buf, h)| == if h.dataLen > 0 then h.dataLen else 0
    ensures forall i :: 0 <= i < h.dataLen ==>
              if h.maskLen == 0 then Content(buf, h)[i] == buf[h.headerLen + i]
              else Differ(Content(buf, h)[i], buf[h.headerLen + i], buf[h.headerLen - 4 + i % 4])
  {
    if h.dataLen > 0 && h.maskLen == 4 {
      MaskedOctets(buf[h.headerLen..h.headerLen + h.dataLen], buf[h.headerLen - 4..h.headerLen], Content(buf, h));
    }
  }

  function Delivered(buf: seq<Byte>): Delivery
    requires Buffered(buf)
  {
    Delivery(buf[0], ParseHeader(buf).dataLen, Content(buf, ParseHeader(buf)))
  }

  function ParseFrame(buf: seq<Byte>): Parsed<Delivery> {
    if Buffered(buf) then Complete(FrameLen(buf), Delivered(buf)) else Incomplete
  }

  // ---------- chunking ----------

  lemma SliceInFront(x: seq<Byte>, y: seq<Byte>, i: nat, j: nat)
    requires i <= j <= |x|
    ensures (x + y)[i..j] == x[i..j]
  {
  }

  /** Bytes that arrive behind a complete frame do not change it. */
  lemma FrameIsStable(x: seq<Byte>, y: seq<Byte>)
    requires Buffered(x)
    ensures ParseHeader(x + y) == ParseHeader(x)
    ensures Buffered(x + y) && Delivered(x + y) == Delivered(x)
  {
    var h := ParseHeader(x);
    if |x| >= 10 {
      SliceInFront(x, y, 6, 10);
    }
    if |x| >= 4 {
      SliceInFront(x, y, 2, 4);
    }
    assert ParseHeader(x + y) == h;
    if h.dataLen > 0 {
      SliceInFront(x, y, h.headerLen, h.headerLen + h.dataLen);
      SliceInFront(x, y, h.headerLen - h.maskLen, h.headerLen);
    }
  }

  lemma FramesAreStable()
    ensures Stable(ParseFrame) && ParseFrame([]) == Incomplete
  {
    forall x: seq<Byte>, y: seq<Byte>
      ensures StableAt(ParseFrame, x, y)
    {
      if Buffered(x) {
        FrameIsStable(x, y);
      }
    }
  }

  // ---------- encoding ----------

  /** A frame to send: first byte, masking key of four octets or none, application data. */
  datatype Message = Message(first: Byte, key: seq<Byte>, data: seq<Byte>)

  predicate Encodable(m: Message) {
    (m.key == [] || |m.key| == 4) && |m.data| < TWO64
  }

  /** The whole frame fits a buffer whose length is a C int. */
  predicate Sendable(m: Message) {
    (m.key == [] || |m.key| == 4) && |m.data| + 14 < 0x8000_0000
  }

  /** Second byte and extended length, section 5.2; the 64-bit form is written as two 32-bit words. */
  function LengthBytes(n: Word, maskBit: Byte): seq<Byte>
    requires maskBit == 0 || maskBit == 128
  {
    if n < 126 then [maskBit + n]
    else if n <= 0xFFFF then [maskBit + 126] + BigEndian(n, 2)
    else [maskBit + 127] + BigEndian(High(n), 4) + BigEndian(Low(n), 4)
  }

  /** The shortest form that holds the length, most significant octet first. */
  lemma LengthOctets(n: Word, maskBit: Byte)
    requires maskBit == 0 || maskBit == 128
    ensures LengthBytes(n, maskBit) ==
            if n < 126 then [maskBit + n]
            else if n < 0x1_0000 then [maskBit + 126, n / 0x100, n % 0x100]
            else [maskBit + 127,
                  n / 0x100_0000_0000_0000, n / 0x1_0000_0000_0000 % 0x100, n / 0x100_0000_0000 % 0x100,
                  n / 0x1_0000_0000 % 0x100, n / 0x100_0000 % 0x100, n / 0x1_0000 % 0x100, n / 0x100 % 0x100, n % 0x100]
  {
    if n < 0x1_0000 {
      TwoOctets(n);
    } else {
      EightOctets(n);
      assert LengthBytes(n, maskBit) == [maskBit + 127] + (BigEndian(High(n), 4) + BigEndian(Low(n), 4));
    }
  }

  lemma EightOctets(n: Word)
    ensures BigEndian(High(n), 4) + BigEndian(Low(n), 4) ==
            [n / 0x100_0000_0000_0000, n / 0x1_0000_0000_0000 % 0x100, n / 0x100_0000_0000 % 0x100,
             n / 0x1_0000_0000 % 0x100, n / 0x100_0000 % 0x100, n / 0x1_0000 % 0x100, n / 0x100 % 0x100, n % 0x100]
  {
    HighFour(n);
    LowFour(n);
  }

  lemma HighFour(n: Word)
    ensures BigEndian(High(n), 4) ==
            [n / 0x100_0000_0000_0000, n / 0x1_0000_0000_0000 % 0x100, n / 0x100_0000_0000 % 0x100, n / 0x1_0000_0000 % 0x100]
  {
    FourOctets(High(n));
    HighOctets(n);
    assert High(n) / 0x100_0000 % 0x100 == n / 0x100_0000_0000_0000;
  }

  lemma LowFour(n: Word)
    ensures BigEndian(Low(n), 4) == [n / 0x100_0000 % 0x100, n / 0x1_0000 % 0x100, n / 0x100 % 0x100, n % 0x100]
  {
    FourOctets(Low(n));
    LowOctets(n);
  }

  lemma HighOctets(n: Word)
    ensures High(n) == n / 0x1_0000_0000 && High(n) / 0x100_0000 == n / 0x100_0000_0000_0000 < 0x100
    ensures High(n) / 0x1_0000 == n / 0x1_0000_0000_0000 && High(n) / 0x100 == n / 0x100_0000_0000
  {
  }

  lemma LowOctets(n: Word)
    ensures Low(n) / 0x100_0000 % 0x100 == n / 0x100_0000 % 0x100
    ensures Low(n) / 0x1_0000 % 0x100 == n / 0x1_0000 % 0x100
    ensures Low(n) / 0x100 % 0x100 == n / 0x100 % 0x100 && Low(n) % 0x100 == n % 0x100
  {
    LowQuotients(High(n), Low(n));
    assert n == 0x1_0000_0000 * High(n) + Low(n);
    SameOctet(0x1 * High(n), Low(n) / 0x100_0000);
    SameOctet(0x100 * High(n), Low(n) / 0x1_0000);
    SameOctet(0x1_0000 * High(n), Low(n) / 0x100);
    SameOctet(0x100_0000 * High(n), Low(n));
  }

  lemma LowQuotients(h: nat, l: nat)
    ensures (0x1_0000_0000 * h + l) / 0x100_0000 == 0x100 * h + l / 0x100_0000
    ensures (0x1_0000_0000 * h + l) / 0x1_0000 == 0x1_0000 * h + l / 0x1_0000
    ensures (0x1_0000_0000 * h + l) / 0x100 == 0x100_0000 * h + l / 0x100
  {
  }

  lemma SameOctet(x: nat, y: nat)
    ensures (0x100 * x + y) % 0x100 == y % 0x100
  {
  }

  lemma TwoOctets(n: nat)
    ensures BigEndian(n, 2) == [n / 0x100 % 0x100, n % 0x100]
  {
    assert BigEndian(n / 0x100, 1) == BigEndian(n / 0x100 / 0x100, 0) + [n / 0x100 % 0x100];
  }

  lemma FourOctets(n: nat)
    ensures BigEndian(n, 4) == [n / 0x100_0000 % 0x100, n / 0x1_0000 % 0x100, n / 0x100 % 0x100, n % 0x100]
  {
    NestedQuotients(n);
    TwoOctets(n / 0x1_0000);
    NestedQuotients(n / 0x1_0000);
    assert BigEndian(n / 0x100, 3) == BigEndian(n / 0x1_0000, 2) + [n / 0x100 % 0x100];
    assert BigEndian(n, 4) == BigEndian(n / 0x100, 3) + [n % 0x100];
  }

  lemma NestedQuotients(n: nat)
    ensures n / 0x100 / 0x100 == n / 0x1_0000 && n / 0x1_0000 / 0x100 == n / 0x100_0000
  {
  }

  function Encode(m: Message): seq<Byte>
    requires Encodable(m)
  {
    [m.first] + LengthBytes(|m.data|, if m.key == [] then 0 else 128) + m.key
    + if m.key == [] then m.data else Masked(m.data, m.key)
  }

  /** mg_websocket_write: an unmasked frame built in a fresh buffer; without memory nothing is sent. */
  method WebSocketWrite(opcode: nat, data: seq<Byte>, memory: bool) returns (sent: bool, frame: seq<Byte>)
    requires |data| + 10 < TWO64
    ensures sent == memory
    ensures sent ==> frame == Encode(Message(0x80 + opcode % 16, [], data))
  {
    if !memory {
      return false, [];
    }
    var n := |data|;
    var copy := new Byte[n + 10](i => 0);
    var headerLen;
    copy[0] := 0x80 + opcode % 16;
    if n < 126 {
      copy[1] := n;
      headerLen := 2;
    } else if n <= 0xFFFF {
      copy[1] := 126;
      PutBytes(copy, 2, BigEndian(n, 2));
      headerLen := 4;
    } else {
      copy[1] := 127;
      PutBytes(copy, 2, BigEndian(High(n), 4));
      PutBytes(copy, 6, BigEndian(Low(n), 4));
      assert copy[2..10] == BigEndian(High(n), 4) + BigEndian(Low(n), 4);
      headerLen := 10;
    }
    ghost var head := copy[..headerLen];
    assert head == [copy[0]] + LengthBytes(n, 0);
    PutBytes(copy, headerLen, data);
    assert copy[..headerLen] == head;
    return true, copy[..headerLen + n];
  }

  /** memcpy. */
  method PutBytes(buffer: array<Byte>, at: nat, bytes: seq<Byte>)
    requires at + |bytes| <= buffer.Length
    modifies buffer
    ensures buffer[at..at + |bytes|] == bytes
    ensures forall i :: 0 <= i < buffer.Length && !(at <= i < at + |bytes|) ==> buffer[i] == old(buffer[i])
  {
    forall i | 0 <= i < |bytes| {
      buffer[at + i] := bytes[i];
    }
  }

  lemma MediumParses(first: Byte, second: Byte, bytes: seq<Byte>, rest: seq<Byte>, n: nat)
    requires (second == 126 || second == 254) && |bytes| == 2 && FromBigEndian(bytes) == n
    requires second >= 128 ==> |rest| >= 4
    ensures var mask := if second >= 128 then 4 else 0;
      ParseHeader([first, second] + bytes + rest) == Header(4 + mask, mask, n)
  {
    assert ([first, second] + bytes + rest)[2..4] == bytes;
  }

  lemma LongParses(first: Byte, second: Byte, high: seq<Byte>, low: seq<Byte>, rest: seq<Byte>, n: int)
    requires (second == 127 || second == 255) && |high| == |low| == 4 && ToInt32(FromBigEndian(low)) == n
    requires second >= 128 ==> |rest| >= 4
    ensures var mask := if second >= 128 then 4 else 0;
      ParseHeader([first, second] + high + low + rest) == Header(10 + mask, mask, n)
  {
    var buf := [first, second] + high + low + rest;
    assert buf[6..10] == low;
  }

  /** The length survives, whichever of the three forms it takes. */
  lemma LengthParses(first: Byte, n: nat, maskBit: Byte, rest: seq<Byte>)
    requires n + 14 < 0x8000_0000 && (maskBit == 0 || maskBit == 128)
    requires maskBit == 128 ==> |rest| >= 4
    ensures var bytes, mask := LengthBytes(n, maskBit), if maskBit == 128 then 4 else 0;
      ParseHeader([first] + bytes + rest) == Header(1 + |bytes| + mask, mask, n)
  {
    if n < 126 {
      ShortParses(first, n, maskBit, rest);
    } else if n <= 0xFFFF {
      MediumRoundTrip(n);
      MediumParses(first, maskBit + 126, BigEndian(n, 2), rest, n);
      assert [first] + ([maskBit + 126] + BigEndian(n, 2)) + rest == [first, maskBit + 126] + BigEndian(n, 2) + rest;
    } else {
      LongRoundTrip(n);
      var high, low := BigEndian(High(n), 4), BigEndian(Low(n), 4);
      LongParses(first, maskBit + 127, high, low, rest, n);
      assert [first] + ([maskBit + 127] + high + low) + rest == [first, maskBit + 127] + high + low + rest;
    }
  }

  /** A 64-bit length survives exactly below 2^31: the receiver keeps its lower half, as an int. */
  lemma LongLengthParsesIff(first: Byte, n: Word, maskBit: Byte, rest: seq<Byte>)
    requires n > 0xFFFF && (maskBit == 0 || maskBit == 128)
    requires maskBit == 128 ==> |rest| >= 4
    ensures ParseHeader([first] + LengthBytes(n, maskBit) + rest).dataLen == n <==> n < 0x8000_0000
  {
    var high, low := BigEndian(High(n), 4), BigEndian(Low(n), 4);
    assert maskBit + 127 == 127 || maskBit + 127 == 255;
    LowRoundTrip(n);
    LowHalfIff(n);
    LongParses(first, maskBit + 127, high, low, rest, ToInt32(Low(n)));
    assert [first] + ([maskBit + 127] + high + low) + rest == [first, maskBit + 127] + high + low + rest;
  }

  lemma LowHalfIff(n: Word)
    ensures ToInt32(Low(n)) == n <==> n < 0x8000_0000
  {
  }

  lemma MediumRoundTrip(n: nat)
    requires n <= 0xFFFF
    ensures FromBigEndian(BigEndian(n, 2)) == n
  {
    Power2Of64();
    Power2Sum(8, 8);
    BigEndianRoundTrip(n, 2, 0x1_0000);
  }

  lemma LongRoundTrip(n: Word)
    requires n < 0x8000_0000
    ensures ToInt32(FromBigEndian(BigEndian(Low(n), 4))) == n
  {
    LowRoundTrip(n);
  }

  lemma LowRoundTrip(n: Word)
    ensures FromBigEndian(BigEndian(Low(n), 4)) == Low(n)
  {
    Power2Of64();
    Power2Sum(8, 8);
    Power2Sum(16, 16);
    BigEndianRoundTrip(Low(n), 4, 0x1_0000_0000);
  }

  lemma ShortParses(first: Byte, n: nat, maskBit: Byte, rest: seq<Byte>)
    requires n < 126 && (maskBit == 0 || maskBit == 128)
    requires maskBit == 128 ==> |rest| >= 4
    ensures var mask := if maskBit == 128 then 4 else 0;
      ParseHeader([first] + [maskBit + n] + rest) == Header(2 + mask, mask, n)
  {
    assert ([first] + [maskBit + n] + rest)[1] == maskBit + n;
  }

  /** A frame laid out: first byte, length, key, body; behind it whatever follows. */
  lemma FrameParses(m: Message, bytes: seq<Byte>, body: seq<Byte>, frame: seq<Byte>, rest: seq<Byte>)
    requires |body| == |m.data| && frame == [m.first] + bytes + m.key + body
    requires ParseHeader([m.first] + bytes + (m.key + body + rest)) == Header(1 + |bytes| + |m.key|, |m.key|, |m.data|)
    ensures var n := |frame| - |m.data|;
      && ParseHeader(frame + rest) == Header(n, |m.key|, |m.data|)
      && (frame + rest)[n - |m.key|..n] == m.key
      && (frame + rest)[n..n + |m.data|] == body
  {
    var head := [m.first] + bytes;
    assert frame + rest == head + m.key + body + rest;
    assert head + m.key + body + rest == head + (m.key + body + rest);
    Parts(head, m.key, body, rest);
  }

  lemma EncodeHeader(m: Message, rest: seq<Byte>)
    requires Sendable(m)
    ensures var n := |Encode(m)| - |m.data|;
      && ParseHeader(Encode(m) + rest) == Header(n, |m.key|, |m.data|)
      && (Encode(m) + rest)[n - |m.key|..n] == m.key
      && (Encode(m) + rest)[n..n + |m.data|] == (if m.key == [] then m.data else Masked(m.data, m.key))
  {
    var bit := if m.key == [] then 0 else 128;
    var body := if m.key == [] then m.data else Masked(m.data, m.key);
    LengthParses(m.first, |m.data|, bit, m.key + body + rest);
    FrameParses(m, LengthBytes(|m.data|, bit), body, Encode(m), rest);
  }

  lemma Parts(a: seq<Byte>, b: seq<Byte>, c: seq<Byte>, d: seq<Byte>)
    ensures (a + b + c + d)[|a|..|a + b|] == b && (a + b + c + d)[|a + b|..|a + b + c|] == c
  {
  }

  lemma PrefixSlice(all: seq<Byte>, n: nat, i: nat, j: nat)
    requires i <= j <= n <= |all|
    ensures all[..n][i..j] == all[i..j]
  {
  }

  /** A frame at the front of the buffer is delivered as it was sent. */
  lemma FrameRoundTrip(m: Message, rest: seq<Byte>)
    requires Sendable(m)
    ensures Buffered(Encode(m) + rest) && FrameLen(Encode(m) + rest) == |Encode(m)|
    ensures Delivered(Encode(m) + rest) == Delivery(m.first, |m.data|, m.data)
  {
    var buf, n := Encode(m) + rest, |Encode(m)| - |m.data|;
    EncodeHeader(m, rest);
    assert buf[0] == m.first;
    assert FrameLen(buf) == |Encode(m)|;
    var body := buf[n..n + |m.data|];
    if m.key == [] {
      assert body == m.data;
    } else {
      assert body == Masked(m.data, m.key) && buf[n - 4..n] == m.key;
      MaskedTwice(m.data, m.key);
    }
    assert Content(buf, ParseHeader(buf)) == m.data;
  }

  /** The unmasked text frame "Hello" of section 5.7 of RFC 6455. */
  lemma HelloFrame()
    ensures Encode(Message(0x81, [], [0x48, 0x65, 0x6c, 0x6c, 0x6f])) == [0x81, 0x05, 0x48, 0x65, 0x6c, 0x6c, 0x6f]
  {
    assert LengthBytes(5, 0) == [0x05];
  }

  function Stream(ms: seq<Message>): seq<Byte>
    requires forall m :: m in ms ==> Sendable(m)
  {
    if ms == [] then [] else
      assert Sendable(ms[0]);
      Encode(ms[0]) + Stream(ms[1..])
  }

  function Deliveries(ms: seq<Message>): (ds: seq<Delivery>)
    ensures |ds| == |ms|
  {
    seq(|ms|, i requires 0 <= i < |ms| => Delivery(ms[i].first, |ms[i].data|, ms[i].data))
  }

  lemma {:induction false} StreamRoundTrip(ms: seq<Message>)
    requires forall m :: m in ms ==> Sendable(m)
    ensures Decode(ParseFrame, Stream(ms)) == Decoded(Deliveries(ms), [])
  {
    if ms == [] {
      FramesAreStable();
    } else {
      var item, rest := Delivery(ms[0].first, |ms[0].data|, ms[0].data), Stream(ms[1..]);
      FrameRoundTrip(ms[0], rest);
      assert ParseFrame(Encode(ms[0]) + rest) == Complete(|Encode(ms[0])|, item);
      DecodeFront(ParseFrame, Encode(ms[0]), rest, item);
      StreamRoundTrip(ms[1..]);
      DeliveriesFirst(ms);
    }
  }

  lemma DeliveriesFirst(ms: seq<Message>)
    requires ms != []
    ensures Deliveries(ms) == [Delivery(ms[0].first, |ms[0].data|, ms[0].data)] + Deliveries(ms[1..])
  {
  }

  /** For any bytes at all, framed correctly or not, how they are cut into reads makes no difference. */
  lemma ReadsDoNotMatter(chunks: seq<seq<Byte>>)
    ensures Fed(ParseFrame, chunks) == Decode(ParseFrame, Concat(chunks))
  {
    FramesAreStable();
    ChunkingIsIrrelevant(ParseFrame, chunks);
  }

  /** Any messages, cut into reads in any way, come out exactly as sent and in order, and nothing is left over. */
  lemma MessagesSurviveChunking(ms: seq<Message>, chunks: seq<seq<Byte>>)
    requires forall m :: m in ms ==> Sendable(m)
    requires Concat(chunks) == Stream(ms)
    ensures Fed(ParseFrame, chunks) == Decoded(Deliveries(ms), [])
  {
    ReadsDoNotMatter(chunks);
    StreamRoundTrip(ms);
  }

  /** While part of the stream is still to come, a prefix of the messages has been delivered. */
  lemma PartialDelivery(ms: seq<Message>, chunks: seq<seq<Byte>>, missing: seq<Byte>)
    requires forall m :: m in ms ==> Sendable(m)
    requires Concat(chunks) + missing == Stream(ms)
    ensures Fed(ParseFrame, chunks).items <= Deliveries(ms)
  {
    ReadsDoNotMatter(chunks);
    FramesAreStable();
    DecodeInTwo(ParseFrame, Concat(chunks), missing);
    StreamRoundTrip(ms);
  }

  // ---------- the connection ----------

  lemma UnmaskedIs(before: seq<Byte>, after: seq<Byte>, at: nat, n: nat)
    requires 4 < at && at + n <= |before| == |after|
    requires forall i :: 0 <= i < n ==> after[at + i] == XorByte(before[at + i], before[at - 4 + i % 4])
    ensures after[at..at + n] == Masked(before[at..at + n], before[at - 4..at])
    ensures forall i :: 0 <= i < n ==> Differ(after[at + i], before[at + i], before[at - 4 + i % 4])
  {
    forall i | 0 <= i < n
      ensures Differ(after[at + i], before[at + i], before[at - 4 + i % 4])
    {
      XorByteIs(after[at + i], before[at + i], before[at - 4 + i % 4]);
    }
  }

  class Connection {
    /** local_iobuf: a buffer and how much of it is in use. */
    var buf: array<Byte>
    var len: nat
    /** The handler calls made so far. */
    var calls: seq<Delivery>

    ghost predicate Valid()
      reads this
    {
      len <= buf.Length
    }

    ghost function Contents(): seq<Byte>
      requires Valid()
      reads this, buf
    {
      buf[..len]
    }

    constructor ()
      ensures Valid() && Contents() == [] && calls == [] && fresh(buf)
    {
      buf := new Byte[0];
      len, calls := 0, [];
    }

    /** Append to the buffer, growing it by a fifth when full; without memory the chunk is dropped. */
    method Spool(chunk: seq<Byte>, memory: bool) returns (spooled: nat)
      requires Valid()
      modifies this, buf
      ensures Valid() && calls == old(calls) && (buf == old(buf) || fresh(buf))
      ensures (spooled == |chunk| && Contents() == old(Contents()) + chunk)
              || (spooled == 0 && Contents() == old(Contents()) && !memory)
    {
      var newLen := len + |chunk|;
      if |chunk| == 0 {
        assert old(Contents()) + chunk == old(Contents());
        return 0;
      }
      if newLen >= buf.Length {
        if !memory {
          return 0;
        }
        var size := (newLen as real * 1.2).Floor;
        assert newLen as real * 1.2 >= newLen as real;
        var bigger := new Byte[size](i => 0);
        forall i | 0 <= i < len {
          bigger[i] := buf[i];
        }
        buf := bigger;
      }
      forall i | 0 <= i < |chunk| {
        buf[len + i] := chunk[i];
      }
      len := newLen;
      return |chunk|;
    }

    /** Deliver one frame if a whole one is buffered: unmask in place, call the handler, move the rest down. */
    method DeliverFrame() returns (buffered: bool)
      requires Valid()
      modifies this, buf
      ensures Valid() && buf == old(buf)
      ensures buffered <==> Buffered(old(Contents()))
      ensures buffered ==> calls == old(calls) + [Delivered(old(Contents()))]
                           && Contents() == old(Contents())[FrameLen(old(Contents()))..] && len < old(len)
      ensures !buffered ==> calls == old(calls) && Contents() == old(Contents())
    {
      ghost var bytes := Contents();
      var headerLen, maskLen, dataLen := FindHeader();
      var frameLen := headerLen + dataLen;
      buffered := 0 < frameLen <= len;
      if buffered {
        var content := TakeContent(headerLen, maskLen, dataLen);
        calls := calls + [Delivery(buf[0], dataLen, content)];
        MoveDown(frameLen);
      }
    }

    /** The content as the handler sees it, unmasked in place. */
    method TakeContent(headerLen: nat, maskLen: nat, dataLen: int) returns (content: seq<Byte>)
      requires Valid() && Fits(Contents(), Header(headerLen, maskLen, dataLen))
      modifies buf
      ensures content == Content(old(Contents()), Header(headerLen, maskLen, dataLen))
      ensures buf[0] == old(buf[0])
      ensures forall i :: headerLen + dataLen <= i < len ==> buf[i] == old(buf[i])
    {
      if dataLen > 0 {
        PrefixSlice(buf[..], len, headerLen, headerLen + dataLen);
        PrefixSlice(buf[..], len, headerLen - maskLen, headerLen);
      }
      if maskLen > 0 {
        Unmask(headerLen, dataLen);
      }
      content := if dataLen <= 0 then [] else buf[headerLen..headerLen + dataLen];
    }

    /** Where the data of the first frame starts and how long it is. */
    method FindHeader() returns (headerLen: nat, maskLen: nat, dataLen: int)
      requires Valid()
      ensures Header(headerLen, maskLen, dataLen) == ParseHeader(Contents())
    {
      if len >= 10 {
        PrefixSlice(buf[..], len, 6, 10);
      }
      if len >= 4 {
        PrefixSlice(buf[..], len, 2, 4);
      }
      headerLen, maskLen, dataLen := 0, 0, 0;
      if len >= 2 {
        var n := buf[1] % 128;
        maskLen := if buf[1] >= 128 then 4 else 0;
        if n < 126 && len >= maskLen {
          dataLen, headerLen := n, 2 + maskLen;
        } else if n == 126 && len >= 4 + maskLen {
          headerLen, dataLen := 4 + maskLen, FromBigEndian(buf[2..4]);
        } else if len >= 10 + maskLen {
          headerLen, dataLen := 10 + maskLen, ToInt32(FromBigEndian(buf[6..10]));
        }
      }
    }

    /** memmove: drop the first n bytes. */
    method MoveDown(n: nat)
      requires Valid() && n <= len
      modifies buf, this`len
      ensures Valid() && Contents() == old(buf[n..len])
    {
      forall i | 0 <= i < len - n {
        buf[i] := buf[n + i];
      }
      len := len - n;
    }

    /** Combine each data byte with the key in front of the data. */
    method Unmask(headerLen: nat, dataLen: int)
      requires Valid() && 4 < headerLen && (dataLen > 0 ==> headerLen + dataLen <= len)
      modifies buf
      ensures forall i :: 0 <= i < buf.Length && !(headerLen <= i < headerLen + dataLen) ==> buf[i] == old(buf[i])
      ensures forall i :: 0 <= i < dataLen ==>
                Differ(buf[headerLen + i], old(buf[headerLen + i]), old(buf[headerLen - 4 + i % 4]))
      ensures dataLen > 0 ==>
                buf[headerLen..headerLen + dataLen]
                == Masked(old(buf[headerLen..headerLen + dataLen]), old(buf[headerLen - 4..headerLen]))
    {
      var i := 0;
      while i < dataLen
        invariant 0 <= i <= if dataLen > 0 then dataLen else 0
        invariant forall j :: 0 <= j < buf.Length && !(headerLen <= j < headerLen + i) ==> buf[j] == old(buf[j])
        invariant forall j :: 0 <= j < i ==> buf[headerLen + j] == XorByte(old(buf[headerLen + j]), old(buf[headerLen - 4 + j % 4]))
      {
        buf[headerLen + i] := XorByte(buf[headerLen + i], buf[headerLen - 4 + i % 4]);
        i := i + 1;
      }
      if dataLen > 0 {
        UnmaskedIs(old(buf[..]), buf[..], headerLen, dataLen);
      }
    }

    /** Deliver frames until none is complete. */
    method DeliverAll()
      requires Valid()
      modifies this, buf
      ensures Valid() && buf == old(buf)
      ensures old(calls) <= calls
      ensures Decode(ParseFrame, old(Contents())) == Decoded(calls[|old(calls)|..], Contents())
    {
      ghost var before, bytes := calls, Contents();
      ghost var done: seq<Delivery> := [];
      RemainsAtFirst(ParseFrame, bytes);
      var more := true;
      while more
        invariant Valid() && buf == old(buf) && calls == before + done
        invariant Remains(ParseFrame, bytes, done, Contents())
        invariant !more ==> !Buffered(Contents())
        decreases more, len
      {
        ghost var now := Contents();
        more := DeliverFrame();
        if more {
          RemainsNext(ParseFrame, bytes, done, now);
          done := done + [Delivered(now)];
        }
      }
      RemainsAtLast(ParseFrame, bytes, done, Contents());
    }

    /** The state after reading `chunks` one by one. */
    ghost predicate HasRead(chunks: seq<seq<Byte>>)
      requires Valid()
      reads this, buf
    {
      Fed(ParseFrame, chunks) == Decoded(calls, Contents())
    }

    /** A read: spool the bytes, then deliver what is complete. */
    method OnRead(chunk: seq<Byte>, memory: bool) returns (spooled: nat)
      requires Valid()
      modifies this, buf
      ensures Valid() && (buf == old(buf) || fresh(buf))
      ensures memory ==> spooled == |chunk|
      ensures spooled == |chunk| ==>
                && old(calls) <= calls
                && Decode(ParseFrame, old(Contents()) + chunk) == Decoded(calls[|old(calls)|..], Contents())
                && forall chunks :: old(HasRead(chunks)) ==> HasRead(chunks + [chunk])
    {
      ghost var before := Decoded(calls, Contents());
      spooled := Spool(chunk, memory);
      DeliverAll();
      forall chunks | before == Fed(ParseFrame, chunks) && spooled == |chunk|
        ensures HasRead(chunks + [chunk])
      {
        assert (chunks + [chunk])[..|chunks|] == chunks;
        assert before.items + calls[|before.items|..] == calls;
      }
    }
  }
}
