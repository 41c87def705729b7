// The byte format that src/net/packet.cpp gets from bitsery
// (libs/bitsery/details/adapter_common.h and libs/bitsery/adapter/buffer.h).
module Bitsery {
  import opened Bits
  import opened Wrappers

  // writeSize: 1, 2 or 4 bytes, the form flagged in the top bits of the first.
  function SizeBytes(n: nat): (s: seq<byte>)
    requires n < 0x4000_0000
    ensures 1 <= |s| <= 4
    ensures n < 0x4000 ==> |s| <= 2
  {
    if n < 0x80 then [n]
    else if n < 0x4000 then [n / 0x100 + 0x80, n % 0x100]
    else [n / 0x100_0000 + 0xc0, n / 0x1_0000 % 0x100] + ToLE(n % 0x1_0000, 2)
  }

  // readSize: the size and how many bytes it took.
  function ReadSize(s: seq<byte>): Option<(nat, nat)> {
    if |s| < 1 then None
    else
      var hb: nat := s[0];
      if hb < 0x80 then Some((hb, 1))
      else if |s| < 2 then None
      else
        var lb: nat := s[1];
        if hb / 0x40 % 2 == 1 then
          if |s| < 4 then None else Some(((hb % 0x40 * 0x100 + lb) * 0x1_0000 + LE(s[2..4]), 4))
        else Some((hb % 0x80 * 0x100 + lb, 2))
  }

  lemma LongForm(n: nat)
    requires 0x4000 <= n < 0x4000_0000
    ensures var hb := n / 0x100_0000 + 0xc0;
      hb % 0x40 == n / 0x100_0000 && hb / 0x40 % 2 == 1 && 0xc0 <= hb < 0x100
    ensures (n / 0x100_0000 * 0x100 + n / 0x1_0000 % 0x100) * 0x1_0000 + n % 0x1_0000 == n
  {}

  lemma SizeRoundTrip(n: nat, rest: seq<byte>)
    requires n < 0x4000_0000
    ensures ReadSize(SizeBytes(n) + rest) == Some((n, |SizeBytes(n)|))
  {
    var s := SizeBytes(n) + rest;
    if n >= 0x4000 {
      hide LE;
      hide ToLE;
      LongForm(n);
      assert Pow256(1) == 0x100;
      LERoundTrip(n % 0x1_0000, 2);
      assert s[2..4] == ToLE(n % 0x1_0000, 2);
    }
  }

  // Bytes as one number, the first most significant, except that the last two of four are
  // little-endian.
  function SizeNumber(s: seq<byte>): nat
    requires |s| == 2 || |s| == 4
  {
    var a: nat, b: nat := s[0], s[1];
    if |s| == 2 then 0x100 * a + b else 0x100_0000 * a + 0x1_0000 * b + LE(s[2..])
  }

  // The three forms of a size, each with its marker added on top.
  lemma SizeBytesIs(n: nat)
    requires n < 0x4000_0000
    ensures var s := SizeBytes(n);
      && (n < 0x80 ==> s == [n])
      && (0x80 <= n < 0x4000 ==> |s| == 2 && SizeNumber(s) == 0x8000 + n)
      && (0x4000 <= n ==> |s| == 4 && SizeNumber(s) == 0xc000_0000 + n)
  {
    if n >= 0x4000 {
      assert Pow256(1) == 0x100;
      LERoundTrip(n % 0x1_0000, 2);
      hide ToLE;
      hide LE;
      assert SizeBytes(n)[2..] == ToLE(n % 0x1_0000, 2);
    }
  }

  // readSize on any bytes, shortest form or not.
  lemma ReadSizeIs(s: seq<byte>, v: nat, used: nat)
    ensures ReadSize(s) == Some((v, used)) <==>
      || (used == 1 <= |s| && s[0] < 0x80 && v == s[0])
      || (used == 2 <= |s| && 0x80 <= s[0] < 0xc0 && v == SizeNumber(s[..2]) - 0x8000)
      || (used == 4 <= |s| && 0xc0 <= s[0] && v == SizeNumber(s[..4]) - 0xc000_0000)
  {
    hide LE;
    if |s| >= 1 { FirstByte(s[0]); }
    if |s| >= 4 { assert s[..4][2..] == s[2..4]; }
  }

  lemma FirstByte(b: byte)
    ensures b >= 0x80 ==> (b / 0x40 % 2 == 1 <==> b >= 0xc0)
    ensures 0x80 <= b < 0xc0 ==> b % 0x80 == b - 0x80
    ensures b >= 0xc0 ==> b % 0x40 == b - 0xc0
  {}

  // capacity() of a vector whose size is n: its own choice, but 0 for a new vector.
  ghost predicate IsCapacity(capacity: nat -> nat) {
    capacity(0) == 0 && forall n :: capacity(n) >= n
  }

  // OutputBufferAdapter over a resizable vector that starts empty.
  class OutputBuffer {
    var buffer: seq<byte>
    var offset: nat
    const capacity: nat -> nat

    ghost predicate Valid()
      reads this
    {
      && IsCapacity(capacity)
      && offset <= |buffer|
      && (forall i :: offset <= i < |buffer| ==> buffer[i] == 0)
    }

    constructor (capacity: nat -> nat)
      requires IsCapacity(capacity)
      ensures Valid() && this.capacity == capacity && buffer == [] && offset == 0
    {
      buffer, offset := [], 0;
      this.capacity := capacity;
    }

    // increaseBufferSize
    static function GrownSize(size: nat, minSize: nat, capacity: nat): (r: nat)
      ensures r >= minSize && r >= capacity
    {
      var newSize := size * 3 / 2 + 128;
      var newSize := newSize - newSize % 64;
      var newSize := if newSize > minSize then newSize else minSize;
      if newSize > capacity then newSize else capacity
    }

    // The largest of what is needed, what is allocated, and half as much again and 128 bytes,
    // rounded down to whole cache lines.
    static lemma GrownSizeIs(size: nat, minSize: nat, capacity: nat, g: nat)
      requires g % 64 == 0 && size * 3 / 2 + 64 < g <= size * 3 / 2 + 128
      ensures var r := GrownSize(size, minSize, capacity);
        (r == minSize || r == capacity || r == g) && r >= minSize && r >= capacity && r >= g
    {}

    method Write(data: seq<byte>)
      requires Valid()
      modifies this`buffer, this`offset
      ensures Valid() && offset == old(offset) + |data|
      ensures buffer[..offset] == old(buffer[..offset]) + data
      ensures |buffer| == if old(offset) + |data| <= old(|buffer|) then old(|buffer|)
                          else GrownSize(old(|buffer|), old(offset) + |data|, capacity(old(|buffer|)))
    {
      var newOffset := offset + |data|;
      if newOffset > |buffer| {
        var size := GrownSize(|buffer|, newOffset, capacity(|buffer|));
        buffer := buffer + seq(size - |buffer|, _ => 0);
      }
      buffer := buffer[..offset] + data + buffer[newOffset..];
      offset := newOffset;
    }
  }
}

// src/net/packet.cpp
module Packet {
  import opened Bits
  import opened Wrappers
  import opened Bitsery
  import opened AeadSpec
  import ChaCha20Spec
  import Aead

  type u16 = x: int | 0 <= x < 0x1_0000

  const PAYLOAD_SIZE_MAX: nat := 512
  const TOTAL_PACKET_SIZE: nat := 568 // payload, sizeof(Header) == 40, tag
  const TIMESTAMP_LIMIT: nat := 30

  datatype Header = Header(version: u16, flags: u32, timestamp: u64, messageId: u64, messageSize: u32, nonce: u64)
  datatype Packet = Packet(header: Header, payload: seq<byte>)

  // `Aborted` is not an error code: it is a failed assertion of the cipher, about the
  // length of the key or of the ciphertext.
  datatype Error = InvalidTimestamp | InvalidMessageLength | InvalidTag | InvalidSerialization | InvalidArguments
                 | Aborted

  predicate NoCrypto(flags: u32) {
    flags % 2 == 1
  }

  // The lowest bit; test messages (0xff) have it, handshakes (2) and plain packets (0) do not.
  lemma NoCryptoBit(flags: u32)
    ensures NoCrypto(flags) <==> And(flags, 1) == 1
    ensures NoCrypto(0xff) && NoCrypto(1) && !NoCrypto(2) && !NoCrypto(0)
  {
    if flags != 0 {
      AndDigit(flags, 1);
      AndZero(flags / 2);
    }
  }

  // ---- serialize ----

  function HeaderBytes(h: Header): (s: seq<byte>)
    ensures |s| == 34
  {
    ToLE(h.version, 2) + ToLE(h.flags, 4) + ToLE(h.timestamp, 8) + ToLE(h.messageId, 8) + ToLE(h.messageSize, 4)
    + ToLE(h.nonce, 8)
  }

  function ParseHeader(s: seq<byte>): Header
    requires |s| >= 34
  {
    Pow256Values();
    assert Pow256(2) == 0x1_0000;
    LEBound(s[0..2]);
    LEBound(s[2..6]);
    LEBound(s[6..14]);
    LEBound(s[14..22]);
    LEBound(s[22..26]);
    LEBound(s[26..34]);
    Header(LE(s[0..2]), LE(s[2..6]), LE(s[6..14]), LE(s[14..22]), LE(s[22..26]), LE(s[26..34]))
  }

  lemma HeaderRoundTrip(h: Header, rest: seq<byte>)
    ensures ParseHeader(HeaderBytes(h) + rest) == h
  {
    hide LE;
    hide ToLE;
    Pow256Values();
    assert Pow256(2) == 0x1_0000;
    LERoundTrip(h.version, 2);
    LERoundTrip(h.flags, 4);
    LERoundTrip(h.timestamp, 8);
    LERoundTrip(h.messageId, 8);
    LERoundTrip(h.messageSize, 4);
    LERoundTrip(h.nonce, 8);
    var s := HeaderBytes(h) + rest;
    assert s[0..2] == ToLE(h.version, 2);
    assert s[2..6] == ToLE(h.flags, 4);
    assert s[6..14] == ToLE(h.timestamp, 8);
    assert s[14..22] == ToLE(h.messageId, 8);
    assert s[22..26] == ToLE(h.messageSize, 4);
    assert s[26..34] == ToLE(h.nonce, 8);
  }

  // Where every field is, little-endian.
  lemma HeaderLayout(h: Header)
    ensures var s := HeaderBytes(h);
      && LE(s[0..2]) == h.version && LE(s[2..6]) == h.flags && LE(s[6..14]) == h.timestamp
      && LE(s[14..22]) == h.messageId && LE(s[22..26]) == h.messageSize && LE(s[26..34]) == h.nonce
  {
    HeaderRoundTrip(h, []);
    hide LE;
    hide HeaderBytes;
    assert HeaderBytes(h) + [] == HeaderBytes(h);
  }

  // Any 34 bytes are the encoding of what they parse to.
  lemma HeaderParseBack(s: seq<byte>)
    requires |s| >= 34
    ensures HeaderBytes(ParseHeader(s)) == s[..34]
  {
    ToLERoundTrip(s[0..2]);
    ToLERoundTrip(s[2..6]);
    ToLERoundTrip(s[6..14]);
    ToLERoundTrip(s[14..22]);
    ToLERoundTrip(s[22..26]);
    ToLERoundTrip(s[26..34]);
    hide LE;
    hide ToLE;
    assert s[..34] == s[0..2] + s[2..6] + s[6..14] + s[14..22] + s[22..26] + s[26..34];
  }

  function PacketBytes(p: Packet): seq<byte>
    requires |p.payload| < 0x4000_0000
  {
    HeaderBytes(p.header) + SizeBytes(|p.payload|) + p.payload
  }

  // quickDeserialization: any overrun, and a size above message_size, is an error.
  function Deserialize(buffer: seq<byte>): (r: Option<Packet>)
    ensures r.Some? ==> |r.value.payload| <= r.value.header.messageSize
  {
    if |buffer| < 34 then None
    else
      var h := ParseHeader(buffer);
      match ReadSize(buffer[34..])
      case None => None
      case Some((size, used)) =>
        if size > h.messageSize || 34 + used + size > |buffer| then None
        else Some(Packet(h, buffer[34 + used..34 + used + size]))
  }

  // Decoding inverts encoding and does not look at what follows.
  lemma DeserializeSerialize(p: Packet, rest: seq<byte>)
    requires |p.payload| <= p.header.messageSize && |p.payload| < 0x4000_0000
    ensures Deserialize(PacketBytes(p) + rest) == Some(p)
  {
    hide HeaderBytes;
    hide ParseHeader;
    hide SizeBytes;
    hide ReadSize;
    var size := SizeBytes(|p.payload|);
    var buffer := PacketBytes(p) + rest;
    assert buffer == HeaderBytes(p.header) + (size + (p.payload + rest));
    HeaderRoundTrip(p.header, size + (p.payload + rest));
    assert buffer[34..] == size + (p.payload + rest);
    SizeRoundTrip(|p.payload|, p.payload + rest);
    assert buffer[34 + |size|..] == p.payload + rest;
  }

  // Which buffers decode, and to what: header, any form of the size, that many bytes, at most
  // as many as message_size says.
  lemma DeserializeIs(buffer: seq<byte>, p: Packet, used: nat)
    requires |buffer| >= 34 && ReadSize(buffer[34..]) == Some((|p.payload|, used))
    ensures Deserialize(buffer) == Some(p)
       <==> HeaderBytes(p.header) == buffer[..34] && |p.payload| <= p.header.messageSize
            && 34 + used + |p.payload| <= |buffer| && buffer[34 + used..34 + used + |p.payload|] == p.payload
  {
    HeaderParseBack(buffer);
    HeaderRoundTrip(p.header, buffer[34..]);
    hide HeaderBytes;
    hide ParseHeader;
    hide ReadSize;
    assert buffer == buffer[..34] + buffer[34..];
  }

  // Everything else is refused.
  lemma DeserializeRefuses(buffer: seq<byte>)
    ensures |buffer| < 34 || ReadSize(buffer[34..]) == None ==> Deserialize(buffer) == None
    ensures |buffer| >= 34 && ReadSize(buffer[34..]).Some? ==>
      var size, used := ReadSize(buffer[34..]).value.0, ReadSize(buffer[34..]).value.1;
      Deserialize(buffer) == None <==> size > LE(buffer[22..26]) || 34 + used + size > |buffer|
  {
    hide ReadSize;
    hide LE;
  }

  method WriteHeader(out: OutputBuffer, h: Header)
    requires out.Valid() && out.buffer == []
    modifies out`buffer, out`offset
    ensures out.Valid() && out.offset == 34 && |out.buffer| == 128
    ensures out.buffer[..34] == HeaderBytes(h)
  {
    hide ToLE;
    hide IsCapacity;
    assert out.capacity(0) == 0 by { CapacityOfNew(out.capacity); }
    out.Write(ToLE(h.version, 2));
    out.Write(ToLE(h.flags, 4));
    out.Write(ToLE(h.timestamp, 8));
    out.Write(ToLE(h.messageId, 8));
    out.Write(ToLE(h.messageSize, 4));
    out.Write(ToLE(h.nonce, 8));
  }

  lemma CapacityOfNew(capacity: nat -> nat)
    requires IsCapacity(capacity)
    ensures capacity(0) == 0
  {}

  // quickSerialization of a header alone. The vector grows once, to 128 bytes, and
  // is handed on untrimmed: 34 bytes of header and 94 zeros.
  method SerializeHeader(h: Header, capacity: nat -> nat) returns (s: seq<byte>)
    requires IsCapacity(capacity)
    ensures s == HeaderBytes(h) + Zeros(94)
  {
    hide HeaderBytes;
    var out := new OutputBuffer(capacity);
    WriteHeader(out, h);
    s := out.buffer;
    assert s == s[..34] + s[34..];
  }

  function HeaderAad(h: Header): seq<byte> {
    HeaderBytes(h) + Zeros(94)
  }

  method SerializePacket(p: Packet, capacity: nat -> nat) returns (s: seq<byte>)
    requires IsCapacity(capacity)
    requires |p.payload| < 0x4000_0000
    ensures |s| >= |PacketBytes(p)| && s[..|PacketBytes(p)|] == PacketBytes(p)
    ensures forall i :: |PacketBytes(p)| <= i < |s| ==> s[i] == 0
  {
    hide HeaderBytes;
    hide SizeBytes;
    hide OutputBuffer.GrownSize;
    var out := new OutputBuffer(capacity);
    WriteHeader(out, p.header);
    out.Write(SizeBytes(|p.payload|));
    if p.payload != [] {
      out.Write(p.payload);
    }
    s := out.buffer;
  }

  // ---- CreatePacket ----

  // The AEAD nonce: the 64-bit counter is cut to the 32-bit first word.
  function NonceOf(counter: u64): Nonce {
    Nonce(counter % 0x1_0000_0000, 0)
  }

  // Counters give the same nonce exactly if they differ by a multiple of 2^32, such as the
  // first one and number 2^32.
  lemma NonceRepeats(a: u64, b: u64)
    ensures NonceOf(a) == NonceOf(b) <==> (a - b) % TWO32 == 0
    ensures NonceOf(TWO32) == NonceOf(0)
  {
    Mod32(a % TWO32 - b % TWO32, a / TWO32 - b / TWO32);
  }

  // The last 16 bytes of the cipher input: block counter, low half of the counter, zeros.
  lemma NonceOfBytes(key: Key, counter: u64, block: u32)
    ensures var s := ChaCha20Spec.Serialize(InputAt(key, NonceOf(counter), block));
      |s| == 48 && s[32..] == ToLE(block, 4) + ToLE(counter, 4) + Zeros(8)
  {
    InputAtBytes(key, NonceOf(counter), block);
    LowWord(counter);
    ZeroBytes();
    assert NonceOf(counter) == Nonce(counter % TWO32, 0);
    hide *;
    Tail(ChaCha20Spec.Serialize(key), ToLE(block, 4), ToLE(counter, 4), Zeros(8));
  }

  lemma Tail(a: seq<byte>, b: seq<byte>, c: seq<byte>, e: seq<byte>)
    ensures (a + b + c + e)[|a|..] == b + c + e
  {}

  lemma LowWord(counter: nat)
    ensures ToLE(counter % TWO32, 4) == ToLE(counter, 4)
  {
    Pow256Values();
    ToLEModulo(counter, 4);
  }

  lemma ZeroBytes()
    ensures ToLE(0, 8) == Zeros(8)
  {
    LEZeros(Zeros(8));
    ToLERoundTrip(Zeros(8));
  }

  // Only encryption looks at the key.
  predicate Usable(flags: u32, key: seq<byte>) {
    |key| > 0 && (NoCrypto(flags) || |key| == 32)
  }

  function MadeHeader(size: nat, version: u16, flags: u32, nonce: u64, messageId: u64, now: u64): Header
    requires size <= PAYLOAD_SIZE_MAX
  {
    Header(version, flags, now, messageId, if NoCrypto(flags) then size else size + 16, nonce)
  }

  function MadePacket(payload: seq<byte>, version: u16, flags: u32, nonce: u64, messageId: u64, key: seq<byte>,
                      now: u64): (p: Packet)
    requires |payload| <= PAYLOAD_SIZE_MAX && Usable(flags, key)
    ensures |p.payload| == p.header.messageSize <= PAYLOAD_SIZE_MAX + 16
  {
    var h := MadeHeader(|payload|, version, flags, nonce, messageId, now);
    Packet(h, if NoCrypto(flags) then payload
              else Seal(Aead.KeyWords(key), NonceOf(nonce), HeaderAad(h), payload))
  }

  // What is sent: the fields in clear, and a payload that is sealed under the low half of the
  // counter, with the encoded header and 94 zeros as associated data.
  lemma MadePacketIs(payload: seq<byte>, version: u16, flags: u32, nonce: u64, messageId: u64, key: seq<byte>, now: u64)
    requires |payload| <= 512 && |key| > 0 && (NoCrypto(flags) || |key| == 32)
    ensures MadePacket(payload, version, flags, nonce, messageId, key, now)
         == if NoCrypto(flags) then Packet(Header(version, flags, now, messageId, |payload|, nonce), payload)
            else
              var h := Header(version, flags, now, messageId, |payload| + 16, nonce);
              Packet(h, Seal(Aead.KeyWords(key), Nonce(nonce % TWO32, 0), HeaderBytes(h) + Zeros(94), payload))
  {
    hide Seal;
    hide HeaderBytes;
    hide Aead.KeyWords;
  }

  // The result is the encoded packet followed by whatever zeros the buffer ends with.
  method CreatePacket(payload: seq<byte>, version: u16, flags: u32, nonce: u64, messageId: u64, key: seq<byte>,
                      now: u64, capacity: nat -> nat) returns (r: Result<seq<byte>, Error>)
    requires IsCapacity(capacity)
    ensures |payload| > 512 || |key| == 0 ==> r == Err(InvalidArguments)
    ensures |payload| <= 512 && |key| > 0 && !NoCrypto(flags) && |key| != 32 ==> r == Err(Aborted)
    ensures |payload| <= 512 && |key| > 0 && (NoCrypto(flags) || |key| == 32) ==>
      && r.Ok?
      && var w := PacketBytes(MadePacket(payload, version, flags, nonce, messageId, key, now));
         |r.value| >= |w| && r.value[..|w|] == w && forall i :: |w| <= i < |r.value| ==> r.value[i] == 0
  {
    hide Seal;
    hide HeaderBytes;
    hide PacketBytes;
    hide Aead.KeyWords;
    if |payload| > PAYLOAD_SIZE_MAX || |key| == 0 {
      return Err(InvalidArguments);
    }
    var size: u32 := if NoCrypto(flags) then |payload| else |payload| + 16;
    var header := Header(version, flags, now, messageId, size, nonce);
    var aad := SerializeHeader(header, capacity);
    var body: seq<byte>;
    if !NoCrypto(flags) {
      if |key| != 32 {
        return Err(Aborted);
      }
      var cc20 := new Aead.AEADChaCha20Poly1305(key);
      var cipher := new byte[size];
      assert payload + [] == payload;
      cc20.Encrypt(payload, [], aad, NonceOf(nonce), cipher);
      body := cipher[..];
    } else {
      body := payload;
    }
    var bytes := SerializePacket(Packet(header, body), capacity);
    return Ok(bytes);
  }

  // ---- ReadPacket ----

  // The result of ReadPacket as a function of its arguments and the clock.
  function Reading(buffer: seq<byte>, nonce: u64, key: seq<byte>, now: u64): Result<Packet, Error> {
    if |key| == 0 then Err(InvalidArguments)
    else
      match Deserialize(buffer)
      case None => Err(InvalidSerialization)
      case Some(p) =>
        var plain := if NoCrypto(p.header.flags) then Ok(p) else Deciphered(p, nonce, key);
        if plain.Err? then plain else Checked(plain.value, now)
  }

  function Deciphered(p: Packet, nonce: u64, key: seq<byte>): Result<Packet, Error> {
    if |key| != 32 || p.header.messageSize < 16 || |p.payload| != p.header.messageSize then Err(Aborted)
    else
      match Open(Aead.KeyWords(key), NonceOf(nonce), HeaderAad(p.header), p.payload)
      case Forged => Err(InvalidTag)
      case Plain(text) => Ok(Packet(p.header.(messageSize := p.header.messageSize - 16), text))
  }

  // The unsigned difference also rejects every timestamp in the future.
  function Checked(p: Packet, now: u64): Result<Packet, Error> {
    if (now - p.header.timestamp) % TWO64 > TIMESTAMP_LIMIT then Err(InvalidTimestamp)
    else if p.header.messageSize != |p.payload| then Err(InvalidMessageLength)
    else Ok(p)
  }

  // A fresh cipher object, one decryption into one buffer.
  method OpenOnce(key: seq<byte>, nonce: Nonce, aad: seq<byte>, cipher: seq<byte>) returns (r: Opened)
    requires |key| == 32 && |cipher| >= 16
    ensures r == Open(Aead.KeyWords(key), nonce, aad, cipher)
  {
    hide *;
    var payload, none := new byte[|cipher| - 16], new byte[0];
    var cc20 := new Aead.AEADChaCha20Poly1305(key);
    var ok := cc20.Decrypt(cipher, aad, nonce, payload, none);
    assert payload[..] + none[..] == payload[..];
    r := if ok then Plain(payload[..]) else Forged;
  }

  // The branch that decrypts the payload.
  method Decipher(packet: Packet, nonce: u64, key: seq<byte>, aad: seq<byte>) returns (r: Result<Packet, Error>)
    requires |packet.payload| <= packet.header.messageSize && aad == HeaderAad(packet.header)
    ensures r == Deciphered(packet, nonce, key)
  {
    hide Open;
    hide HeaderBytes;
    hide Aead.KeyWords;
    var size: u32 := (packet.header.messageSize - 16) % 0x1_0000_0000;
    if |key| != 32 || |packet.payload| != size + 16 {
      return Err(Aborted);
    }
    var result := OpenOnce(key, NonceOf(nonce), aad, packet.payload);
    if result.Forged? {
      return Err(InvalidTag);
    }
    r := Ok(Packet(packet.header.(messageSize := (packet.header.messageSize - 16) % 0x1_0000_0000), result.text));
  }

  method ReadPacket(buffer: seq<byte>, nonce: u64, key: seq<byte>, now: u64, capacity: nat -> nat)
    returns (r: Result<Packet, Error>)
    requires IsCapacity(capacity)
    ensures r == Reading(buffer, nonce, key, now)
  {
    hide Deciphered;
    hide HeaderBytes;
    hide Deserialize;
    if |key| == 0 {
      return Err(InvalidArguments);
    }
    var parsed := Deserialize(buffer);
    if parsed.None? {
      return Err(InvalidSerialization);
    }
    var packet := parsed.value;
    var aad := SerializeHeader(packet.header, capacity);
    if !NoCrypto(packet.header.flags) {
      var plain := Decipher(packet, nonce, key, aad);
      if plain.Err? {
        return plain;
      }
      packet := plain.value;
    }
    if (now - packet.header.timestamp) % TWO64 > TIMESTAMP_LIMIT {
      return Err(InvalidTimestamp);
    }
    if packet.header.messageSize != |packet.payload| {
      return Err(InvalidMessageLength);
    }
    return Ok(packet);
  }

  // ---- what the pair promises ----

  // A created packet, followed by any bytes, reads back as the original payload
  // under a header that differs only in message_size, now the payload length --
  // exactly when the clock difference, taken modulo 2^64, is at most 30 seconds.
  // The counters must agree in their low 32 bits, unless nothing is encrypted.
  lemma PacketRoundTrip(payload: seq<byte>, version: u16, flags: u32, nonce: u64, messageId: u64, key: seq<byte>,
                        sent: u64, rest: seq<byte>, nonce': u64, now: u64)
    requires |payload| <= 512 && Usable(flags, key)
    requires NoCrypto(flags) || nonce % 0x1_0000_0000 == nonce' % 0x1_0000_0000
    ensures Reading(PacketBytes(MadePacket(payload, version, flags, nonce, messageId, key, sent)) + rest,
                    nonce', key, now)
         == if (now - sent) % TWO64 > 30 then Err(InvalidTimestamp)
            else Ok(Packet(Header(version, flags, sent, messageId, |payload|, nonce), payload))
  {
    hide Open;
    hide Seal;
    hide HeaderBytes;
    hide PacketBytes;
    hide Deserialize;
    hide Aead.KeyWords;
    var p := MadePacket(payload, version, flags, nonce, messageId, key, sent);
    DeserializeSerialize(p, rest);
    if !NoCrypto(flags) {
      OpenSeal(Aead.KeyWords(key), NonceOf(nonce), HeaderAad(p.header), payload);
    }
  }

  // Nothing else is ever read: an encrypted packet q reads as p exactly if its payload is
  // the sealing of p's under this key, nonce and header, and the clock agrees.
  lemma ReadsWhatWasSealed(buffer: seq<byte>, nonce: u64, key: seq<byte>, now: u64, q: Packet, p: Packet)
    requires |key| == 32 && Deserialize(buffer) == Some(q) && !NoCrypto(q.header.flags)
    ensures Reading(buffer, nonce, key, now) == Ok(p)
       <==> && p.header.messageSize == |p.payload| && q.header.messageSize == |p.payload| + 16
            && q.header == p.header.(messageSize := q.header.messageSize)
            && q.payload == Seal(Aead.KeyWords(key), Nonce(nonce % TWO32, 0), HeaderBytes(q.header) + Zeros(94),
                                 p.payload)
            && (now - p.header.timestamp) % TWO64 <= 30
  {
    hide Open;
    hide Seal;
    hide HeaderBytes;
    hide Deserialize;
    hide Aead.KeyWords;
    var words, n, aad := Aead.KeyWords(key), NonceOf(nonce), HeaderAad(q.header);
    if q.payload == Seal(words, n, aad, p.payload) {
      OpenSeal(words, n, aad, p.payload);
    }
    if Deciphered(q, nonce, key).Ok? {
      SealOpen(words, n, aad, q.payload);
    }
  }

  // Without encryption: what was decoded, if sizes and clock agree.
  lemma ReadsInClear(buffer: seq<byte>, nonce: u64, key: seq<byte>, now: u64, q: Packet, p: Packet)
    requires |key| > 0 && Deserialize(buffer) == Some(q) && NoCrypto(q.header.flags)
    ensures Reading(buffer, nonce, key, now) == Ok(p)
       <==> p == q && q.header.messageSize == |q.payload| && (now - q.header.timestamp) % TWO64 <= 30
  {
    hide Deserialize;
    hide Deciphered;
  }

  // When each error is reported, in this order of precedence.
  lemma ReadErrors(buffer: seq<byte>, nonce: u64, key: seq<byte>, now: u64)
    ensures var r, d := Reading(buffer, nonce, key, now), Deserialize(buffer);
      && (r == Err(InvalidArguments) <==> key == [])
      && (r == Err(InvalidSerialization) <==> key != [] && d == None)
      && (key != [] && d.Some? ==>
          var q := d.value;
          var size, clear := q.header.messageSize, NoCrypto(q.header.flags);
          var broken := !clear && (|key| != 32 || size < 16 || |q.payload| != size);
          var forged := !clear && !broken && Open(Aead.KeyWords(key), Nonce(nonce % TWO32, 0),
                                                  HeaderBytes(q.header) + Zeros(94), q.payload) == Forged;
          var late := (now - q.header.timestamp) % TWO64 > 30;
          && (r == Err(Aborted) <==> broken)
          && (r == Err(InvalidTag) <==> forged)
          && (r == Err(InvalidTimestamp) <==> !broken && !forged && late)
          && (r == Err(InvalidMessageLength) <==> clear && !late && size != |q.payload|))
  {
    hide Open;
    hide HeaderBytes;
    hide Deserialize;
    hide Aead.KeyWords;
  }

  // Every encoded packet fits the fixed read buffer, so the reader may cut the
  // stream there without losing a meaningful byte.
  lemma ReadBufferSuffices(p: Packet, stream: seq<byte>)
    requires |p.payload| <= 512 + 16
    requires |stream| >= 568 && PacketBytes(p) <= stream
    ensures exists rest :: stream[..568] == PacketBytes(p) + rest
  {
    hide SizeBytes;
    hide HeaderBytes;
    var n := |PacketBytes(p)|;
    assert n <= TOTAL_PACKET_SIZE;
    assert stream[..TOTAL_PACKET_SIZE] == PacketBytes(p) + stream[n..TOTAL_PACKET_SIZE];
  }

  function GetTag(p: Packet): seq<byte> {
    if |p.payload| > 16 then p.payload[|p.payload| - 16..] else []
  }

  function GetPayloadAsString(p: Packet): seq<byte> {
    if |p.payload| > 16 then p.payload[..|p.payload| - 16] else []
  }

  // On an encrypted packet as created, GetTag is the authentication tag exactly
  // when the payload is not empty.
  lemma TagOfCreated(payload: seq<byte>, version: u16, flags: u32, nonce: u64, messageId: u64, key: seq<byte>, now: u64)
    requires |payload| <= PAYLOAD_SIZE_MAX && |key| == 32 && !NoCrypto(flags)
    ensures var p := MadePacket(payload, version, flags, nonce, messageId, key, now);
      GetTag(p) == Authenticate(Aead.KeyWords(key), NonceOf(nonce), HeaderAad(p.header), GetPayloadAsString(p))
      <==> payload != []
  {
    hide Authenticate;
    hide HeaderBytes;
    hide Aead.KeyWords;
    var p := MadePacket(payload, version, flags, nonce, messageId, key, now);
    SealIs(Aead.KeyWords(key), NonceOf(nonce), HeaderAad(p.header), payload);
  }

  // On a packet that ReadPacket returned the tag is gone already, so
  // GetPayloadAsString cuts off data: it is the payload only if that is empty.
  lemma PayloadStringAfterRead(buffer: seq<byte>, nonce: u64, key: seq<byte>, now: u64)
    requires Reading(buffer, nonce, key, now).Ok?
    ensures var p := Reading(buffer, nonce, key, now).value;
      && p.header.messageSize == |p.payload|
      && (GetPayloadAsString(p) == p.payload <==> p.header.messageSize == 0)
  {
    hide Open;
    hide Deserialize;
    hide HeaderBytes;
    hide Aead.KeyWords;
  }

  // Inputs on which these three promises fail. The empty payload: GetTag gives nothing.
  lemma TagOfEmpty(version: u16, nonce: u64, messageId: u64, key: seq<byte>, now: u64)
    requires |key| == 32
    ensures var p := MadePacket([], version, 0, nonce, messageId, key, now); |p.payload| == 16 && GetTag(p) == []
  {}

  // One byte, sent and read in the same second: GetPayloadAsString gives nothing.
  lemma PayloadLost(version: u16, nonce: u64, messageId: u64, key: seq<byte>, now: u64)
    requires |key| == 32
    ensures var r := Reading(PacketBytes(MadePacket([7], version, 0, nonce, messageId, key, now)), nonce, key, now);
      r.Ok? && r.value.payload == [7] && GetPayloadAsString(r.value) == []
  {
    var w := PacketBytes(MadePacket([7], version, 0, nonce, messageId, key, now));
    hide *;
    PacketRoundTrip([7], version, 0, nonce, messageId, key, now, [], nonce, now);
    assert w + [] == w;
    ShortPayload(Packet(Header(version, 0, now, messageId, 1, nonce), [7]));
  }

  lemma ShortPayload(p: Packet)
    requires |p.payload| <= 16
    ensures GetPayloadAsString(p) == []
  {}

  // A sender whose clock is one second ahead.
  lemma FutureRejected(payload: seq<byte>, version: u16, flags: u32, nonce: u64, messageId: u64, key: seq<byte>,
                       sent: u64, now: u64)
    requires |payload| <= PAYLOAD_SIZE_MAX && Usable(flags, key) && sent == now + 1
    ensures Reading(PacketBytes(MadePacket(payload, version, flags, nonce, messageId, key, sent)), nonce, key, now)
         == Err(InvalidTimestamp)
  {
    var w := PacketBytes(MadePacket(payload, version, flags, nonce, messageId, key, sent));
    hide *;
    PacketRoundTrip(payload, version, flags, nonce, messageId, key, sent, [], nonce, now);
    assert w + [] == w;
    OneBehind(now);
  }

  lemma OneBehind(now: nat)
    ensures (now - (now + 1)) % TWO64 == TWO64 - 1
  {}
}
