/** The packet codec of the QY smart-cube protocol: framing, the command builders and the
    decoder with its opcode dispatch. */
module Protocol {
  import opened Base

  /** The shared AES-128 key. The cipher itself is symbolic (see Ciphertext), so the key is
      recorded for reference only. */
  const AesKey: seq<byte> := [87, 177, 249, 171, 205, 90, 232, 167, 156, 185, 140, 231, 87, 140, 81, 8]
  const MagicByte: byte := 0xfe

  // CubeOperations
  const CubeHello: byte := 0x2
  const CubeState: byte := 0x3
  const CubeSync: byte := 0x4
  const CubeFreshState: byte := 0x5

  /** CRC-16/MODBUS, supplied by a checksum library outside the model. */
  type Checksum = seq<byte> -> Word16

  /** A block under AES-128-ECB with AesKey. ECB decryption under a fixed key is a bijection
      on 16-byte-aligned byte strings, so a ciphertext is represented by the plaintext it
      decrypts to; its length is the plaintext's length. */
  datatype Ciphertext = Sealed(plain: seq<byte>)

  /** `crypter.encrypt(block)`. */
  function Encrypt(block: seq<byte>): (c: Ciphertext)
    requires |block| % 16 == 0
    ensures Decrypt(c) == Some(block)
  {
    Sealed(block)
  }

  /** `crypter.decrypt(c)`: refuses a ciphertext whose length is not a multiple of 16. */
  function Decrypt(c: Ciphertext): (r: Option<seq<byte>>)
    ensures r.Some? <==> |c.plain| % 16 == 0
  {
    if |c.plain| % 16 == 0 then Some(c.plain) else None
  }

  // ---------------------------------------------------------------------------------------
  // Framing
  // ---------------------------------------------------------------------------------------

  /** magic (1) + length (1) + message (n) + checksum (2) */
  function PacketLength(n: nat): nat { 1 + 1 + n + 2 }

  /** The zero padding after the checksum: never empty, and it aligns the frame to 16. */
  function Padding(packetLength: nat): (pad: nat)
    ensures 1 <= pad <= 16
    ensures (packetLength + pad) % 16 == 0
  {
    16 - packetLength % 16
  }

  /** The plaintext frame that getPacket encrypts. */
  function Frame(crc: Checksum, message: seq<byte>): (p: seq<byte>)
    ensures |p| == PacketLength(|message|) + Padding(PacketLength(|message|))
    ensures |p| % 16 == 0
    ensures p[0] == MagicByte && p[1] == ToUint8(|message| + 4)
    ensures p[2..2 + |message|] == message
    ensures p[|message| + 2] == crc(p[..|message| + 2]) % 256
    ensures p[|message| + 3] == crc(p[..|message| + 2]) / 256
    ensures forall i :: |message| + 4 <= i < |p| ==> p[i] == 0
  {
    var packetLength := PacketLength(|message|);
    var head := [MagicByte, ToUint8(packetLength)] + message;
    var checksum := crc(head);
    assert (head + [checksum % 256, checksum / 256] + Zeros(Padding(packetLength)))[..|message| + 2] == head;
    head + [checksum % 256, checksum / 256] + Zeros(Padding(packetLength))
  }

  /** The bytes a Uint8Array stores when a list of numbers is written into it. */
  function ToUint8s(values: seq<int>): (r: seq<byte>)
    ensures |r| == |values|
    ensures forall i :: 0 <= i < |values| ==> r[i] == ToUint8(values[i])
  {
    seq(|values|, i requires 0 <= i < |values| => ToUint8(values[i]))
  }

  lemma BytesStoreUnchanged(s: seq<byte>)
    ensures ToUint8s(s) == s
  {
    assert forall i :: 0 <= i < |s| ==> ToUint8s(s)[i] == s[i];
  }

  /** `target.set(values, offset)`: each value is truncated to 8 bits; the rest of the array
      is left as it was. */
  method SetBytes(target: array<byte>, values: seq<int>, offset: nat)
    requires offset + |values| <= target.Length
    modifies target
    ensures target[..] == old(target[..offset]) + ToUint8s(values) + old(target[offset + |values|..])
  {
    for i := 0 to |values|
      invariant forall j :: 0 <= j < target.Length ==>
        target[j] == if offset <= j < offset + i then ToUint8(values[j - offset]) else old(target[j])
    {
      target[offset + i] := ToUint8(values[i]);
    }
    assert target[..] == old(target[..offset]) + ToUint8s(values) + old(target[offset + |values|..]) by {
      var expected := old(target[..offset]) + ToUint8s(values) + old(target[offset + |values|..]);
      assert |expected| == target.Length;
      forall j | 0 <= j < target.Length ensures target[j] == expected[j] {
        if j < offset {
        } else if j < offset + |values| {
          assert expected[j] == ToUint8s(values)[j - offset];
        } else {
          assert expected[j] == old(target[offset + |values|..])[j - offset - |values|];
        }
      }
    }
  }

  /** `getPacket(message)`: frames the message in a fresh zero-filled array and encrypts it. */
  method GetPacket(crc: Checksum, message: array<byte>) returns (block: Ciphertext)
    ensures block == Encrypt(Frame(crc, message[..]))
  {
    var packet := BuildFrame(crc, message);
    block := Encrypt(packet[..]);
  }

  /** The framing half of getPacket: the fresh array, filled by three `set` calls. */
  method BuildFrame(crc: Checksum, message: array<byte>) returns (packet: array<byte>)
    ensures fresh(packet) && packet[..] == Frame(crc, message[..])
  {
    var packetLength := 1 + 1 + message.Length + 2;
    var padding := 16 - (packetLength % 16);
    packet := new byte[packetLength + padding](_ => 0);
    ghost var zeros := packet[..];
    SetBytes(packet, [MagicByte as int, packetLength], 0);
    ghost var header := packet[..];
    assert header == [MagicByte, ToUint8(packetLength)] + zeros[2..];
    SetBytes(packet, message[..], 2);
    BytesStoreUnchanged(message[..]);
    ghost var head := [MagicByte, ToUint8(packetLength)] + message[..];
    assert packet[..] == head + zeros[packetLength - 2..] by {
      assert header[..2] == [MagicByte, ToUint8(packetLength)];
      assert header[2 + message.Length..] == zeros[packetLength - 2..];
    }
    assert packet[..packetLength - 2] == head;
    var checksum := crc(packet[..packetLength - 2]);
    // checksum & 0xff, (checksum >> 8) & 0xff
    SetBytes(packet, [checksum % 256, (checksum / 256) % 256], packetLength - 2);
    assert packet[..] == Frame(crc, message[..]) by {
      assert ToUint8s([checksum % 256, (checksum / 256) % 256]) == [checksum % 256, checksum / 256];
      assert zeros[packetLength..] == Zeros(padding);
    }
  }

  // ---------------------------------------------------------------------------------------
  // Command builders
  // ---------------------------------------------------------------------------------------

  /** `mac.reverse()`: Array.prototype.reverse works in place on the caller's array. */
  method ReverseInPlace(a: array<byte>)
    modifies a
    ensures a[..] == Reverse(old(a[..]))
  {
    var i := 0;
    while i < a.Length / 2
      invariant 0 <= i <= a.Length / 2
      invariant forall k :: 0 <= k < a.Length ==>
        a[k] == if k < i || a.Length - i <= k then old(a[a.Length - 1 - k]) else old(a[k])
    {
      a[i], a[a.Length - 1 - i] := a[a.Length - 1 - i], a[i];
      i := i + 1;
    }
  }

  /** `helloPacket(mac)`: 11 zero bytes, then the MAC in reverse order. The caller's array is
      left reversed. */
  method HelloPacket(crc: Checksum, mac: array<byte>) returns (block: Ciphertext)
    modifies mac
    ensures mac[..] == Reverse(old(mac[..]))
    ensures block == Encrypt(Frame(crc, Zeros(11) + Reverse(old(mac[..]))))
  {
    var message := new byte[11 + mac.Length](_ => 0);
    ghost var zeros := message[..];
    ReverseInPlace(mac);
    ghost var reversed := mac[..];
    SetBytes(message, mac[..], 11);
    BytesStoreUnchanged(reversed);
    assert message[..] == zeros[..11] + reversed + zeros[11 + |reversed|..];
    assert zeros[..11] == Zeros(11) && zeros[11 + |reversed|..] == [];
    assert message[..] == Zeros(11) + reversed;
    block := GetPacket(crc, message);
  }

  /** The acknowledgement message: `originalMessage.slice(2, 7)`. */
  function AckMessage(original: seq<byte>): seq<byte>
  {
    Slice(original, 2, 7)
  }

  /** `ackPacket(originalMessage)`. */
  method AckPacket(crc: Checksum, original: array<byte>) returns (block: Ciphertext)
    ensures block == Encrypt(Frame(crc, AckMessage(original[..])))
  {
    var part := Slice(original[..], 2, 7);
    var ackPart := new byte[|part|](i requires 0 <= i < |part| => part[i]);
    assert ackPart[..] == part;
    block := GetPacket(crc, ackPart);
  }

  /** The first five bytes of a sync message, as written in the source: the last one does not
      fit a byte and is stored truncated. */
  const SyncHeader: seq<int> := [0x04, 0x17, 0x88, 0x8b, 0x31d]

  /** The sync message, byte by byte: header, target state, two zero bytes. */
  function SyncMessage(state: seq<byte>): seq<byte>
  {
    [0x04, 0x17, 0x88, 0x8b, 0x1d] + state + [0, 0]
  }

  /** `syncPacket(state)`. */
  method SyncPacket(crc: Checksum, state: array<byte>) returns (block: Ciphertext)
    ensures block == Encrypt(Frame(crc, SyncMessage(state[..])))
  {
    var message := new byte[state.Length + 7](_ => 0);
    ghost var zeros := message[..];
    SetBytes(message, SyncHeader, 0);
    assert ToUint8s(SyncHeader) == [0x04, 0x17, 0x88, 0x8b, 0x1d];
    SetBytes(message, state[..], 5);
    BytesStoreUnchanged(state[..]);
    SetBytes(message, [0x00, 0x00], state.Length + 5);
    assert ToUint8s([0x00, 0x00]) == [0, 0];
    assert message[..] == SyncMessage(state[..]);
    block := GetPacket(crc, message);
  }

  /** `freshStatePacket()`. */
  method FreshStatePacket(crc: Checksum) returns (block: Ciphertext)
    ensures block == Encrypt(Frame(crc, [5, 5, 5, 5, 5]))
  {
    var message := new byte[5](_ => 5);
    assert message[..] == [5, 5, 5, 5, 5];
    block := GetPacket(crc, message);
  }

  // ---------------------------------------------------------------------------------------
  // Decoding
  // ---------------------------------------------------------------------------------------

  /** The fields every decoded packet has (`defaultHandler`). */
  datatype Header = Header(
    raw: seq<byte>,
    length: byte,
    opcode: byte,
    timestamp: int,
    battery: Option<byte>,
    wholeData: seq<byte>)

  /** The fields an opcode handler adds; UnknownData is a packet left to defaultHandler. */
  datatype Body =
    | HelloData(initialState: seq<byte>)
    | StateData(cubeState: seq<byte>, move: Option<byte>, previousMoves: seq<byte>, ackFlag: bool)
    | SyncData(cubeState: seq<byte>)
    | FreshStateData(cubeState: seq<byte>)
    | UnknownData

  datatype Packet = Packet(header: Header, body: Body)
  {
    /** `data.needsAck`; a packet without the field reads as false. */
    predicate NeedsAck()
      ensures NeedsAck() <==> body.HelloData? || (body.StateData? && body.ackFlag)
    {
      match body
      case HelloData(_) => true
      case StateData(_, _, _, flag) => flag
      case SyncData(_) => false
      case FreshStateData(_) => false
      case UnknownData => false
    }
  }

  datatype DecodeError = InvalidCiphertextSize | InvalidMagicByte

  /** `defaultHandler(packet)`. It reads bytes 1 to 6 as numbers; every caller passes a
      decrypted, non-empty block, which has at least 16 bytes. */
  function DefaultHandler(packet: seq<byte>): (h: Header)
    requires 7 <= |packet|
    ensures h.raw == packet && h.length == packet[1] && h.opcode == packet[2]
    ensures h.timestamp == Int32BE(packet[3], packet[4], packet[5], packet[6])
    ensures h.battery == At(packet, 35)
    ensures h.wholeData == Slice(packet, 7, |packet| - 2)
    ensures 9 <= |packet| ==> |h.wholeData| == |packet| - 9 && h.wholeData == packet[7..|packet| - 2]
  {
    Header(packet, packet[1], packet[2], Int32BE(packet[3], packet[4], packet[5], packet[6]),
           At(packet, 35), Slice(packet, 7, |packet| - 2))
  }

  /** `(opHandlers[opcode] ?? defaultHandler)(packet)`. */
  function HandleOpcode(packet: seq<byte>): (p: Packet)
    requires 7 <= |packet|
    ensures p.header == DefaultHandler(packet)
    ensures p.body.UnknownData? <==> !(CubeHello <= packet[2] <= CubeFreshState)
    ensures packet[2] == CubeHello ==> p.body == HelloData(Slice(packet, 7, 34))
    ensures packet[2] == CubeState ==>
      p.body == StateData(Slice(packet, 7, 34), At(packet, 34), Slice(packet, 36, 91), At(packet, 91) == Some(1))
    ensures packet[2] == CubeSync ==> p.body == SyncData(Slice(packet, 7, 34))
    ensures packet[2] == CubeFreshState ==> p.body == FreshStateData(Slice(packet, 7, 34))
    ensures 92 <= |packet| && p.body.StateData? ==>
      p.body.cubeState == packet[7..34] && p.body.move == Some(packet[34]) &&
      p.body.previousMoves == packet[36..91] && (p.body.ackFlag <==> packet[91] == 1)
    ensures 34 <= |packet| && p.body.HelloData? ==> p.body.initialState == packet[7..34]
    ensures 34 <= |packet| && (p.body.SyncData? || p.body.FreshStateData?) ==> p.body.cubeState == packet[7..34]
  {
    var header := DefaultHandler(packet);
    var opcode := packet[2];
    if opcode == CubeHello then
      Packet(header, HelloData(Slice(packet, 7, 34)))
    else if opcode == CubeState then
      Packet(header, StateData(Slice(packet, 7, 34), At(packet, 34), Slice(packet, 36, 91), At(packet, 91) == Some(1)))
    else if opcode == CubeSync then
      Packet(header, SyncData(Slice(packet, 7, 34)))
    else if opcode == CubeFreshState then
      Packet(header, FreshStateData(Slice(packet, 7, 34)))
    else
      Packet(header, UnknownData)
  }

  /** `decodePacket(encryptedPkt)`. The checksum is never verified; the only rejection of
      the codec itself is a first byte other than the magic byte. */
  function DecodePacket(c: Ciphertext): (r: Result<Packet, DecodeError>)
    ensures r == Failure(InvalidCiphertextSize) <==> |c.plain| % 16 != 0
    ensures r == Failure(InvalidMagicByte) <==>
      |c.plain| % 16 == 0 && (|c.plain| == 0 || c.plain[0] != MagicByte)
    ensures r.Success? ==> 16 <= |c.plain| && r.value == HandleOpcode(c.plain)
  {
    match Decrypt(c)
    case None => Failure(InvalidCiphertextSize)
    case Some(packet) =>
      if At(packet, 0) != Some(MagicByte) then Failure(InvalidMagicByte)
      else Success(HandleOpcode(packet))
  }

  // ---------------------------------------------------------------------------------------
  // Properties of the codec
  // ---------------------------------------------------------------------------------------

  /** The acknowledgement flag: always for Hello, byte 91 equal to 1 for State, never
      otherwise. */
  lemma NeedsAckOfDecoded(c: Ciphertext)
    requires DecodePacket(c).Success?
    ensures var p := DecodePacket(c).value;
      p.NeedsAck() <==>
        (p.header.opcode == CubeHello || (p.header.opcode == CubeState && At(c.plain, 91) == Some(1)))
  {
  }

  /** Decoding what getPacket produced never fails, and gives back the length byte, the
      opcode (the first message byte) and the timestamp (message bytes 1 to 4). */
  lemma {:induction false} DecodeOfGetPacket(crc: Checksum, message: seq<byte>)
    ensures DecodePacket(Encrypt(Frame(crc, message))).Success?
    ensures var h := DecodePacket(Encrypt(Frame(crc, message))).value.header;
      && h.raw == Frame(crc, message)
      && h.raw[2..2 + |message|] == message
      && h.length == ToUint8(|message| + 4)
      && (1 <= |message| ==> h.opcode == message[0])
      && (5 <= |message| ==> h.timestamp == Int32BE(message[1], message[2], message[3], message[4]))
  {
    var p := Frame(crc, message);
    forall i | 0 <= i < |message| ensures p[2 + i] == message[i] {
      assert p[2..2 + |message|][i] == p[2 + i];
    }
  }

  /** The acknowledgement of a decoded packet is five bytes long and echoes its opcode and
      timestamp back to the device. */
  lemma AckEchoesOpcodeAndTimestamp(crc: Checksum, c: Ciphertext)
    requires DecodePacket(c).Success?
    ensures var p := DecodePacket(c).value;
      && AckMessage(p.header.raw) == p.header.raw[2..7]
      && var ack := DecodePacket(Encrypt(Frame(crc, AckMessage(p.header.raw))));
      && ack.Success?
      && ack.value.header.length == 9
      && ack.value.header.opcode == p.header.opcode
      && ack.value.header.timestamp == p.header.timestamp
  {
    var p := DecodePacket(c).value;
    var m := AckMessage(p.header.raw);
    DecodeOfGetPacket(crc, m);
  }

  /** The device's decoding of a sync command for a 27-byte state: a Sync packet that carries
      exactly that state and asks for no acknowledgement. */
  lemma SyncPacketDecodesToSync(crc: Checksum, state: seq<byte>)
    requires |state| == 27
    ensures var r := DecodePacket(Encrypt(Frame(crc, SyncMessage(state))));
      && r.Success?
      && r.value.header.opcode == CubeSync
      && r.value.body == SyncData(state)
      && !r.value.NeedsAck()
      && r.value.header.timestamp == Int32BE(0x17, 0x88, 0x8b, 0x1d)
  {
    var m := SyncMessage(state);
    var p := Frame(crc, m);
    DecodeOfGetPacket(crc, m);
    assert p[2..2 + |m|] == m;
    assert Slice(p, 7, 34) == state by {
      forall i | 0 <= i < 27 ensures p[7 + i] == state[i] {
        assert p[2..2 + |m|][5 + i] == m[5 + i];
      }
    }
  }
}
