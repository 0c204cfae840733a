/**
 * The wire format of one LoRa packet: a ten-byte big-endian header (kind,
 * file id, sequence number, total packet count, payload length, CRC-16 of the
 * payload) followed by the payload bytes.
 *
 * The sender builds the header with the seven-field format '>BBHHHHH' (the
 * last field a zero pad) and keeps the first ten bytes. The receiver unpacks
 * the same seven-field format from a ten-byte slice, which `struct` always
 * refuses, so the receiver as written accepts no frame at all. `ParseLiteral`
 * models that decoder; `ParseIntended` models the documented ten-byte layout
 * and is the one the reassembler is driven by.
 */
module Codec {
  import opened Wrappers
  import opened Struct
  import opened Crc

  /** The radio's largest payload; a packet carries at most this minus the header. */
  const MaxPayload := 250
  /** The header length the sender cuts to and the receiver slices off. */
  const HeaderSize := 10

  const PktFileStart := 1
  const PktFileData := 2
  const PktFileEnd := 3
  const PktManifest := 4
  /** Defined by both ends but never sent and never handled. */
  const PktAckRequest := 5

  /** '>BBHHHHH': the format the sender packs and the receiver unpacks. */
  const PacketFormat: seq<nat> := [1, 1, 2, 2, 2, 2, 2]
  /** '>BBHHHH': the ten-byte header layout the sender's documentation describes. */
  const HeaderFormat: seq<nat> := [1, 1, 2, 2, 2, 2]

  /** A decoded packet: the fields the receiver's handlers are given. */
  datatype Packet = Packet(kind: nat, fileId: nat, seqNo: nat, total: nat, data: seq<byte>)

  /** `struct.error` raised by `create_packet` for a field wider than its slot. */
  datatype EncodeError = StructError

  /** A two-byte big-endian field's value. */
  function Be16(hi: byte, lo: byte): nat
  {
    hi as int * 256 + lo as int
  }

  /** Python's `s[i:j]` for non-negative bounds: both ends clamp to the length. */
  function PySlice(s: seq<byte>, i: nat, j: nat): (r: seq<byte>)
    ensures i <= j <= |s| ==> r == s[i..j]
    ensures i <= |s| < j ==> r == s[i..]
    ensures j <= i ==> r == []
  {
    var lo := if i < |s| then i else |s|;
    var hi := if j < lo then lo else if j < |s| then j else |s|;
    s[lo..hi]
  }

  /** The two formats' sizes: twelve bytes for the packed format, ten for the documented header. */
  lemma FormatSizes()
    ensures Size(PacketFormat) == 12
    ensures Size(HeaderFormat) == 10
    ensures PacketFormat == HeaderFormat + [2]
  {
  }

  /** The values `create_packet` hands to `struct.pack` fit iff every field is in range. */
  lemma FitsPacketFormat(values: seq<int>)
    requires |values| == 7
    ensures Fits(PacketFormat, values)
        <==> (&& 0 <= values[0] < 256 && 0 <= values[1] < 256 && 0 <= values[2] < 0x10000
              && 0 <= values[3] < 0x10000 && 0 <= values[4] < 0x10000
              && 0 <= values[5] < 0x10000 && 0 <= values[6] < 0x10000)
  {
    FitsEach(PacketFormat, values);
    assert Pow256(1) == 256 && Pow256(2) == 0x10000;
    assert forall i :: 0 <= i < 7 ==> Pow256(PacketFormat[i]) == if i < 2 then 256 else 0x10000;
  }

  /** `struct.pack` with the packet format succeeds iff each field fits, and yields twelve bytes. */
  lemma PackPacketFormat(values: seq<int>)
    requires |values| == 7
    ensures Pack(PacketFormat, values).Some?
        <==> (&& 0 <= values[0] < 256 && 0 <= values[1] < 256 && 0 <= values[2] < 0x10000
              && 0 <= values[3] < 0x10000 && 0 <= values[4] < 0x10000
              && 0 <= values[5] < 0x10000 && 0 <= values[6] < 0x10000)
    ensures Pack(PacketFormat, values).Some? ==> |Pack(PacketFormat, values).value| == 12
  {
    FitsPacketFormat(values);
    FormatSizes();
  }

  /** The header fields a packet is built from are all in range. */
  predicate Encodable(kind: int, fileId: int, seqNo: int, total: int, data: seq<byte>)
  {
    && 0 <= kind < 256 && 0 <= fileId < 256
    && 0 <= seqNo < 0x10000 && 0 <= total < 0x10000 && |data| < 0x10000
  }

  /**
   * `create_packet`: packs the seven header fields, keeps the first ten bytes
   * (dropping the zero pad) and appends the payload. It raises exactly when a
   * field does not fit its slot; it does not itself cap the payload at 240 bytes.
   */
  function CreatePacket(kind: int, fileId: int, seqNo: int, total: int, data: seq<byte>)
    : (r: Result<seq<byte>, EncodeError>)
    ensures r.Success? <==> (&& 0 <= kind < 256 && 0 <= fileId < 256
                             && 0 <= seqNo < 0x10000 && 0 <= total < 0x10000 && |data| < 0x10000)
    ensures r.Success? ==> |r.value| == HeaderSize + |data| && r.value[HeaderSize..] == data
  {
    var values := [kind, fileId, seqNo, total, |data|, Crc16(data), 0];
    PackPacketFormat(values);
    var p := Pack(PacketFormat, values);
    if p.None? then Failure(StructError)
    else Success(p.value[..HeaderSize] + data)
  }

  /**
   * What `parse_packet` does with the unpacked header fields: slice out the
   * declared payload (silently cut to the bytes present) and accept it only when
   * its CRC equals the header's. Both formats unpack at least six fields, so the
   * short-header case never arises.
   */
  function Interpret(frame: seq<byte>, header: seq<nat>): (r: Option<Packet>)
  {
    if |header| < 6 then None
    else
      var data := PySlice(frame, HeaderSize, HeaderSize + header[4]);
      if Crc16(data) != header[5] then None
      else Some(Packet(header[0], header[1], header[2], header[3], data))
  }

  /**
   * `parse_packet` as written: frames shorter than the header are refused, and
   * every other frame's ten-byte slice is unpacked with the twelve-byte format,
   * whose `struct.error` is caught and turned into `None`.
   */
  function ParseLiteral(frame: seq<byte>): Option<Packet>
  {
    if |frame| < HeaderSize then None
    else
      match Unpack(PacketFormat, frame[..HeaderSize])
      case None => None
      case Some(header) => Interpret(frame, header)
  }

  /** The payload a frame declares: bytes 10 onwards, as many as the length field says, cut to what is there. */
  function Payload(frame: seq<byte>): seq<byte>
    requires |frame| >= HeaderSize
  {
    PySlice(frame, HeaderSize, HeaderSize + Be16(frame[6], frame[7]))
  }

  /** A format beginning 'BBHHHH'. */
  predicate HeaderPrefix(format: seq<nat>)
  {
    && |format| >= 6 && format[0] == 1 && format[1] == 1
    && format[2] == 2 && format[3] == 2 && format[4] == 2 && format[5] == 2
  }

  /** Where the fields of a format beginning 'BBHHHH' sit: offsets 0, 1, 2, 4, 6 and 8. */
  lemma HeaderPrefixOffsets(format: seq<nat>)
    requires HeaderPrefix(format)
    ensures Size(format[..0]) == 0 && Size(format[..1]) == 1 && Size(format[..2]) == 2
    ensures Size(format[..3]) == 4 && Size(format[..4]) == 6 && Size(format[..5]) == 8
  {
    assert format[..0] == [];
    PrefixSizeNext(format, 0);
    PrefixSizeNext(format, 1);
    PrefixSizeNext(format, 2);
    PrefixSizeNext(format, 3);
    PrefixSizeNext(format, 4);
  }

  /** Each field of the documented header, read from its bytes. */
  lemma HeaderFieldValues(buf: seq<byte>)
    requires |buf| == HeaderSize
    ensures Size(HeaderFormat) == HeaderSize
    ensures var u := UnpackFields(HeaderFormat, buf);
      && u[0] == buf[0] && u[1] == buf[1] && u[2] == Be16(buf[2], buf[3]) && u[3] == Be16(buf[4], buf[5])
      && u[4] == Be16(buf[6], buf[7]) && u[5] == Be16(buf[8], buf[9])
  {
    FormatSizes();
    assert HeaderPrefix(HeaderFormat);
    HeaderPrefixOffsets(HeaderFormat);
    var f := HeaderFormat;
    UnpackByteField(f, buf, 0, 0);
    UnpackByteField(f, buf, 1, 1);
    UnpackShortField(f, buf, 2, 2);
    UnpackShortField(f, buf, 3, 4);
    UnpackShortField(f, buf, 4, 6);
    UnpackShortField(f, buf, 5, 8);
  }

  /** The documented header unpacks into its six big-endian fields. */
  lemma UnpackHeader(buf: seq<byte>)
    requires |buf| == HeaderSize
    ensures Unpack(HeaderFormat, buf)
         == Some([buf[0], buf[1], Be16(buf[2], buf[3]), Be16(buf[4], buf[5]),
                  Be16(buf[6], buf[7]), Be16(buf[8], buf[9])])
  {
    HeaderFieldValues(buf);
    var u := UnpackFields(HeaderFormat, buf);
    assert |u| == 6;
    var fields: seq<nat> := [buf[0], buf[1], Be16(buf[2], buf[3]), Be16(buf[4], buf[5]),
                             Be16(buf[6], buf[7]), Be16(buf[8], buf[9])];
    assert u == fields;
  }

  /**
   * The receiver as documented: a frame is accepted iff it holds a full header and
   * the CRC of its declared payload (cut to the bytes present) equals the header's
   * checksum; the accepted packet carries the header's fields and that payload.
   */
  function ParseIntended(frame: seq<byte>): (r: Option<Packet>)
    ensures r.Some? <==> |frame| >= HeaderSize && Crc16(Payload(frame)) == Be16(frame[8], frame[9])
    ensures r.Some? ==> r.value == Packet(frame[0], frame[1], Be16(frame[2], frame[3]),
                                          Be16(frame[4], frame[5]), Payload(frame))
  {
    if |frame| < HeaderSize then None
    else
      UnpackHeader(frame[..HeaderSize]);
      match Unpack(HeaderFormat, frame[..HeaderSize])
      case None => None
      case Some(header) => Interpret(frame, header)
  }

  /**
   * Packing with a format beginning 'BBHHHH' puts the first six values in the
   * first ten bytes: two single bytes, then four big-endian pairs. Read off by
   * unpacking what was packed.
   */
  lemma PackedHeaderFields(format: seq<nat>, values: seq<int>)
    requires Fits(format, values) && HeaderPrefix(format)
    ensures var h := Pack(format, values).value;
      && |h| >= HeaderSize && h[0] == values[0] && h[1] == values[1]
      && Be16(h[2], h[3]) == values[2] && Be16(h[4], h[5]) == values[3]
      && Be16(h[6], h[7]) == values[4] && Be16(h[8], h[9]) == values[5]
  {
    UnpackPack(format, values);
    var h := Pack(format, values).value;
    HeaderPrefixOffsets(format);
    UnpackByteField(format, h, 0, 0);
    UnpackByteField(format, h, 1, 1);
    UnpackShortField(format, h, 2, 2);
    UnpackShortField(format, h, 3, 4);
    UnpackShortField(format, h, 4, 6);
    UnpackShortField(format, h, 5, 8);
  }

  /**
   * The header `create_packet` writes: kind and file id in one byte each, then
   * sequence number, total, payload length and the payload's CRC-16 as big-endian
   * two-byte fields.
   */
  lemma CreatePacketLayout(kind: int, fileId: int, seqNo: int, total: int, data: seq<byte>)
    requires Encodable(kind, fileId, seqNo, total, data)
    ensures var frame := CreatePacket(kind, fileId, seqNo, total, data).value;
      && frame[0] == kind && frame[1] == fileId
      && Be16(frame[2], frame[3]) == seqNo && Be16(frame[4], frame[5]) == total
      && Be16(frame[6], frame[7]) == |data| && Be16(frame[8], frame[9]) == Crc16(data)
  {
    var values := [kind, fileId, seqNo, total, |data|, Crc16(data), 0];
    FitsPacketFormat(values);
    PackPacketFormat(values);
    assert HeaderPrefix(PacketFormat);
    PackedHeaderFields(PacketFormat, values);
    var header := Pack(PacketFormat, values).value;
    var frame := CreatePacket(kind, fileId, seqNo, total, data).value;
    assert frame[..HeaderSize] == header[..HeaderSize];
  }

  /** A frame holding exactly the payload its length field declares yields that payload. */
  lemma PayloadOfExactFrame(frame: seq<byte>, data: seq<byte>)
    requires |frame| == HeaderSize + |data| && frame[HeaderSize..] == data
    requires Be16(frame[6], frame[7]) == |data|
    ensures Payload(frame) == data
  {
  }

  /** The payload the documented decoder reads back from a created frame is the one put in. */
  lemma CreatedPayload(kind: int, fileId: int, seqNo: int, total: int, data: seq<byte>)
    requires Encodable(kind, fileId, seqNo, total, data)
    ensures var frame := CreatePacket(kind, fileId, seqNo, total, data).value;
      |frame| >= HeaderSize && Payload(frame) == data
  {
    CreatePacketLayout(kind, fileId, seqNo, total, data);
    PayloadOfExactFrame(CreatePacket(kind, fileId, seqNo, total, data).value, data);
  }

  /** The documented decoder inverts `create_packet` for every encodable packet. */
  lemma ParseCreateRoundTrip(kind: int, fileId: int, seqNo: int, total: int, data: seq<byte>)
    requires Encodable(kind, fileId, seqNo, total, data)
    ensures CreatePacket(kind, fileId, seqNo, total, data).Success?
    ensures ParseIntended(CreatePacket(kind, fileId, seqNo, total, data).value)
         == Some(Packet(kind, fileId, seqNo, total, data))
  {
    CreatePacketLayout(kind, fileId, seqNo, total, data);
    CreatedPayload(kind, fileId, seqNo, total, data);
  }

  /** `parse_packet` as written returns `None` for every frame. */
  lemma ParseLiteralRejectsAll(frame: seq<byte>)
    ensures ParseLiteral(frame) == None
  {
    FormatSizes();
  }

  /**
   * The discrepancy: a frame `create_packet` built, which the documented decoder
   * accepts, is dropped by `parse_packet` as written.
   */
  lemma ParseLiteralDropsValidFrame(kind: int, fileId: int, seqNo: int, total: int, data: seq<byte>)
    requires Encodable(kind, fileId, seqNo, total, data)
    ensures ParseIntended(CreatePacket(kind, fileId, seqNo, total, data).value).Some?
    ensures ParseLiteral(CreatePacket(kind, fileId, seqNo, total, data).value) == None
  {
    ParseCreateRoundTrip(kind, fileId, seqNo, total, data);
    ParseLiteralRejectsAll(CreatePacket(kind, fileId, seqNo, total, data).value);
  }

  /** Changing one payload byte of a frame whose checksum field is right makes the checksum wrong. */
  lemma CorruptedFrameRejected(frame: seq<byte>, data: seq<byte>, i: nat, b: byte)
    requires |frame| == HeaderSize + |data| && frame[HeaderSize..] == data
    requires Be16(frame[6], frame[7]) == |data| && Be16(frame[8], frame[9]) == Crc16(data)
    requires i < |data| && b != data[i]
    ensures ParseIntended(frame[HeaderSize + i := b]) == None
  {
    var bad := frame[HeaderSize + i := b];
    var p, q := data[..i], data[i + 1..];
    assert data == p + [data[i]] + q;
    assert bad[HeaderSize..] == p + [b] + q;
    PayloadOfExactFrame(bad, p + [b] + q);
    SingleByteChangeDetected(p, data[i], b, q);
  }

  /** A created frame whose payload had one byte changed in transit fails the CRC check. */
  lemma CorruptedPayloadRejected(kind: int, fileId: int, seqNo: int, total: int, data: seq<byte>,
                                 i: nat, b: byte)
    requires Encodable(kind, fileId, seqNo, total, data)
    requires i < |data| && b != data[i]
    ensures ParseIntended(CreatePacket(kind, fileId, seqNo, total, data).value[HeaderSize + i := b]) == None
  {
    CreatePacketLayout(kind, fileId, seqNo, total, data);
    CorruptedFrameRejected(CreatePacket(kind, fileId, seqNo, total, data).value, data, i, b);
  }

  /** Bytes after the declared payload do not change what the documented decoder returns. */
  lemma TrailingBytesIgnored(frame: seq<byte>, extra: seq<byte>)
    requires |frame| >= HeaderSize && HeaderSize + Be16(frame[6], frame[7]) <= |frame|
    ensures ParseIntended(frame + extra) == ParseIntended(frame)
  {
    var n := HeaderSize + Be16(frame[6], frame[7]);
    assert (frame + extra)[..HeaderSize] == frame[..HeaderSize];
    assert Payload(frame + extra) == (frame + extra)[HeaderSize..n] == frame[HeaderSize..n] == Payload(frame);
  }
}
