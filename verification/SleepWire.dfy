// The 60-byte signed sleep packet: big-endian layout, boat-sleepd's struct format and
// the TypeScript client's buffer writes. HMAC-SHA256 is the parameter `hmac`.
module SleepWire {
  import opened Basics

  const HEADER_LEN := 28
  const MAC_LEN := 32
  const PACKET_LEN := 60
  const VERSION: byte := 1
  const OP_SLEEP: byte := 1
  const MAGIC: Bytes := [66, 79, 65, 84, 83, 76, 80, 49]   // "BOATSLP1"
  const TWO_64 := 0x1_0000_0000_0000_0000

  type Hmac = (Bytes, Bytes) -> Bytes

  function Pow256(width: nat): nat {
    if width == 0 then 1 else 256 * Pow256(width - 1)
  }

  // The low `width` bytes of n, most significant first.
  function BigEndian(n: nat, width: nat): (s: Bytes)
    ensures |s| == width
  {
    if width == 0 then [] else BigEndian(n / 256, width - 1) + [n % 256]
  }

  function FromBigEndian(s: Bytes): nat {
    if s == [] then 0 else FromBigEndian(s[..|s| - 1]) * 256 + s[|s| - 1]
  }

  lemma {:induction false} EncodeDecode(n: nat, width: nat)
    requires n < Pow256(width)
    ensures FromBigEndian(BigEndian(n, width)) == n
  {
    if width == 0 {
    } else {
      EncodeDecode(n / 256, width - 1);
      assert BigEndian(n, width)[..width - 1] == BigEndian(n / 256, width - 1);
    }
  }

  lemma {:induction false} DecodeEncode(s: Bytes)
    ensures FromBigEndian(s) < Pow256(|s|)
    ensures BigEndian(FromBigEndian(s), |s|) == s
  {
    if s == [] {
    } else {
      DecodeEncode(s[..|s| - 1]);
      assert s == s[..|s| - 1] + [s[|s| - 1]];
    }
  }

  lemma SixtyFourBits()
    ensures Pow256(8) == TWO_64
  {
    assert Pow256(4) == 256 * Pow256(3) == 0x1_0000_0000;
    assert Pow256(6) == 256 * Pow256(5) == 0x1_0000_0000_0000;
  }

  // --- boat-sleepd: struct.pack and struct.unpack of "!8sBBHQQ" ---

  function Header(opcode: byte, timestamp: nat, nonce: nat): (h: Bytes)
    ensures |h| == HEADER_LEN
  {
    MAGIC + [VERSION, opcode] + BigEndian(0, 2) + BigEndian(timestamp, 8) + BigEndian(nonce, 8)
  }

  function HeaderOpcode(h: Bytes): byte
    requires |h| == HEADER_LEN
  {
    h[9]
  }

  function HeaderTimestamp(h: Bytes): nat
    requires |h| == HEADER_LEN
  {
    FromBigEndian(h[12..20])
  }

  function HeaderNonce(h: Bytes): nat
    requires |h| == HEADER_LEN
  {
    FromBigEndian(h[20..28])
  }

  // struct.pack raises struct.error for a field that does not fit.
  function BuildPacket(hmac: Hmac, key: Bytes, opcode: int, timestamp: int, nonce: int): Result<Bytes> {
    if 0 <= opcode < 256 && 0 <= timestamp < TWO_64 && 0 <= nonce < TWO_64 then
      var header := Header(opcode, timestamp, nonce);
      Success(header + hmac(key, header))
    else
      Failure("struct.error")
  }

  // Unpacking a built packet gives back every field.
  lemma UnpackBuilt(hmac: Hmac, key: Bytes, opcode: int, timestamp: int, nonce: int)
    requires BuildPacket(hmac, key, opcode, timestamp, nonce).Success?
    requires forall h: Bytes :: |hmac(key, h)| == MAC_LEN
    ensures var p := BuildPacket(hmac, key, opcode, timestamp, nonce).value;
            && |p| == PACKET_LEN
            && p[..8] == MAGIC && p[8] == VERSION
            && HeaderOpcode(p[..HEADER_LEN]) == opcode
            && HeaderTimestamp(p[..HEADER_LEN]) == timestamp
            && HeaderNonce(p[..HEADER_LEN]) == nonce
            && p[HEADER_LEN..] == hmac(key, p[..HEADER_LEN])
  {
    var h := Header(opcode, timestamp, nonce);
    var p := BuildPacket(hmac, key, opcode, timestamp, nonce).value;
    assert p[..HEADER_LEN] == h;
    assert h[12..20] == BigEndian(timestamp, 8);
    assert h[20..28] == BigEndian(nonce, 8);
    SixtyFourBits();
    EncodeDecode(timestamp, 8);
    EncodeDecode(nonce, 8);
  }

  // A header with the protocol's magic, version and zero reserved bytes is the one boat-sleepd
  // packs from the fields it unpacks: nothing else in the 28 bytes is left unread.
  lemma PackUnpacked(h: Bytes)
    requires |h| == HEADER_LEN && h[..8] == MAGIC && h[8] == VERSION && h[10..12] == [0, 0]
    ensures Header(HeaderOpcode(h), HeaderTimestamp(h), HeaderNonce(h)) == h
    ensures HeaderTimestamp(h) < TWO_64 && HeaderNonce(h) < TWO_64
  {
    SixtyFourBits();
    DecodeEncode(h[12..20]);
    DecodeEncode(h[20..28]);
    assert BigEndian(0, 2) == [0, 0] by { assert BigEndian(0, 1) == [0]; }
    assert h == h[..8] + [h[8], h[9]] + h[10..12] + h[12..20] + h[20..28];
  }

  // --- the TypeScript client: a Buffer filled in place ---

  // Buffer.writeBigUInt64BE for a value that fits.
  method WriteBigUInt64BE(buffer: array<byte>, value: nat, offset: nat)
    requires offset + 8 <= buffer.Length && value < TWO_64
    modifies buffer
    ensures buffer[..] == old(buffer[..offset]) + BigEndian(value, 8) + old(buffer[offset + 8..])
  {
    var rest, i := value, 8;
    while i > 0
      invariant 0 <= i <= 8
      invariant BigEndian(value, 8) == BigEndian(rest, i) + buffer[offset + i..offset + 8]
      invariant buffer[..offset] == old(buffer[..offset])
      invariant buffer[offset + 8..] == old(buffer[offset + 8..])
    {
      ghost var before := buffer[offset + i..offset + 8];
      i := i - 1;
      buffer[offset + i] := rest % 256;
      rest := rest / 256;
      assert buffer[offset + i..offset + 8] == [buffer[offset + i]] + before;
    }
    assert buffer[..] == buffer[..offset] + buffer[offset..offset + 8] + buffer[offset + 8..];
  }

  // Buffer.copy into a buffer with room for it.
  method CopyInto(source: Bytes, buffer: array<byte>, offset: nat)
    requires offset + |source| <= buffer.Length
    modifies buffer
    ensures buffer[..] == old(buffer[..offset]) + source + old(buffer[offset + |source|..])
  {
    for i := 0 to |source|
      invariant buffer[..] == old(buffer[..offset]) + source[..i] + old(buffer[offset + i..])
    {
      buffer[offset + i] := source[i];
    }
    assert source[..|source|] == source;
  }

  // buildSleepPacket: the bytes boat-sleepd builds for the same key, timestamp and nonce,
  // and a RangeError exactly where struct.pack raises.
  method BuildSleepPacket(hmac: Hmac, key: Bytes, timestamp: int, nonce: Bytes) returns (packet: Result<Bytes>)
    requires |nonce| == 8
    ensures packet.Success? <==> 0 <= timestamp < TWO_64
    ensures packet.Success? ==>
              packet == BuildPacket(hmac, key, OP_SLEEP, timestamp, FromBigEndian(nonce))
  {
    if !(0 <= timestamp < TWO_64) {
      return Failure("RangeError");
    }
    var header := new byte[HEADER_LEN](_ => 0);
    CopyInto(MAGIC, header, 0);
    header[8], header[9], header[10], header[11] := VERSION, OP_SLEEP, 0, 0;
    ghost var front := header[..12];
    assert front[..8] == MAGIC && front[8..12] == [VERSION, OP_SLEEP, 0, 0];
    WriteBigUInt64BE(header, timestamp, 12);
    assert header[..12] == front && header[12..20] == BigEndian(timestamp, 8);
    CopyInto(nonce, header, 20);
    assert header[..12] == front && header[12..20] == BigEndian(timestamp, 8) && header[20..28] == nonce;
    assert header[..8] == front[..8] && header[8..12] == front[8..12];
    HeaderParts(timestamp, nonce, header[..]);
    packet := Success(header[..] + hmac(key, header[..]));
  }

  lemma HeaderParts(timestamp: nat, nonce: Bytes, h: Bytes)
    requires |h| == HEADER_LEN && |nonce| == 8
    requires h[..8] == MAGIC && h[8..12] == [VERSION, OP_SLEEP, 0, 0]
    requires h[12..20] == BigEndian(timestamp, 8) && h[20..28] == nonce
    ensures FromBigEndian(nonce) < TWO_64
    ensures h == Header(OP_SLEEP, timestamp, FromBigEndian(nonce))
  {
    SixtyFourBits();
    DecodeEncode(nonce);
    assert BigEndian(0, 2) == [0, 0] by { assert BigEndian(0, 1) == [0]; }
    FourParts(h);
    assert h[8..12] == [VERSION, OP_SLEEP] + BigEndian(0, 2);
  }

  lemma FourParts(h: Bytes)
    requires |h| == HEADER_LEN
    ensures h == h[..8] + h[8..12] + h[12..20] + h[20..28]
  {
  }
}
