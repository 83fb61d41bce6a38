/**
 * Assembling and parsing whole packets (src/Ccsds_packets.cpp).
 *
 * A telemetry packet is the 6-byte primary header, the 6-byte secondary
 * header, the payload and a 2-byte CRC; a telecommand carries a 2-byte packet
 * id at offset 6 and its payload from offset 8.  The parsers read fresh copies
 * out of the packet, so they are functions over the packet's bytes; the
 * assembler fills a fresh array step by step, so it is a method.
 */
module CcsdsPackets {
  import opened Wrappers
  import opened Bytes
  import opened Crc16
  import opened CcsdsHeaders
  import opened CcsdsPayload

  /** Primary and secondary header together. */
  const HEADERS_LENGTH: nat := 12

  /** Where a telecommand's payload starts: primary header and packet id. */
  const TELECOMMAND_DATA_OFFSET: nat := 8

  /** A telemetry packet without its CRC: the two headers, then the payload. */
  function TelemetryFrame(apid: bv16, sequenceCount: bv16, gpsEpochTime: bv32, subseconds: bv16, payload: seq<bv8>): (f: seq<bv8>)
    requires |payload| < 0x1_0000
    ensures |f| == HEADERS_LENGTH + |payload|
    ensures f[HEADERS_LENGTH..] == payload
  {
    PrimaryHeader(apid, sequenceCount, Word16(|payload|)) + SecondaryHeader(gpsEpochTime, subseconds) + payload
  }

  /** The telemetry packet: the frame stamped with its CRC. */
  function TelemetryPacket(apid: bv16, sequenceCount: bv16, gpsEpochTime: bv32, subseconds: bv16, payload: seq<bv8>): (p: seq<bv8>)
    requires |payload| < 0x1_0000
    ensures |p| == HEADERS_LENGTH + |payload| + 2
    ensures CrcValid(p)
  {
    StampedIsValid(TelemetryFrame(apid, sequenceCount, gpsEpochTime, subseconds, payload));
    Stamped(TelemetryFrame(apid, sequenceCount, gpsEpochTime, subseconds, payload))
  }

  /** `memcpy(dst + offset, src, |src|)`. */
  method Memcpy(dst: array<bv8>, offset: nat, src: seq<bv8>)
    requires offset + |src| <= dst.Length
    modifies dst
    ensures forall j :: 0 <= j < offset ==> dst[j] == old(dst[j])
    ensures forall j :: offset <= j < offset + |src| ==> dst[j] == src[j - offset]
    ensures forall j :: offset + |src| <= j < dst.Length ==> dst[j] == old(dst[j])
  {
    var i := 0;
    while i < |src|
      invariant i <= |src|
      invariant forall j :: 0 <= j < offset ==> dst[j] == old(dst[j])
      invariant forall j :: offset <= j < offset + i ==> dst[j] == src[j - offset]
      invariant forall j :: offset + i <= j < dst.Length ==> dst[j] == old(dst[j])
    {
      dst[offset + i] := src[i];
      i := i + 1;
    }
  }

  /**
   * `create_ccsds_telemetry_packet`: serialise the text into the 244-byte
   * buffer, then assemble the packet around the bytes written.
   */
  method CreateTelemetryPacket(apid: bv16, sequenceCount: bv16, gpsEpochTime: bv32, subseconds: bv16, data: seq<bv8>,
                               toInt: seq<bv8> -> bv32, toFloatBits: seq<bv8> -> bv32)
    returns (packet: array<bv8>, packetLength: nat)
    requires |data| < 0xFFFF
    requires |SerializedData(data, toInt, toFloatBits)| <= PACKET_DATA_CAPACITY
    ensures fresh(packet)
    ensures packetLength == packet.Length == HEADERS_LENGTH + |SerializedData(data, toInt, toFloatBits)| + 2
    ensures packet[..] == TelemetryPacket(apid, sequenceCount, gpsEpochTime, subseconds, SerializedData(data, toInt, toFloatBits))
  {
    var packetData := new bv8[PACKET_DATA_CAPACITY];
    var packetDataLength := SerializeData(data, toInt, toFloatBits, packetData);
    assert packetData[..packetDataLength] == SerializedData(data, toInt, toFloatBits);
    packet, packetLength := AssemblePacket(apid, sequenceCount, gpsEpochTime, subseconds, packetData[..packetDataLength]);
  }

  /**
   * The second half of `create_ccsds_telemetry_packet`: build both headers,
   * copy them and the payload into a fresh packet of `12 + n + 2` bytes and
   * stamp the CRC into its last two bytes.
   */
  method AssemblePacket(apid: bv16, sequenceCount: bv16, gpsEpochTime: bv32, subseconds: bv16, payload: seq<bv8>)
    returns (packet: array<bv8>, packetLength: nat)
    requires |payload| < 0x1_0000
    ensures fresh(packet)
    ensures packetLength == packet.Length == HEADERS_LENGTH + |payload| + 2
    ensures packet[..] == TelemetryPacket(apid, sequenceCount, gpsEpochTime, subseconds, payload)
  {
    var primaryHeader := PrimaryHeader(apid, sequenceCount, Word16(|payload|));
    var secondaryHeader := SecondaryHeader(gpsEpochTime, subseconds);
    packet := new bv8[HEADERS_LENGTH + |payload| + 2];
    Memcpy(packet, 0, primaryHeader);
    Memcpy(packet, 6, secondaryHeader);
    Memcpy(packet, HEADERS_LENGTH, payload);
    packetLength := HEADERS_LENGTH + |payload| + 2;
    FrameLaidOut(packet, apid, sequenceCount, gpsEpochTime, subseconds, payload);
    AddCrc(packet, packetLength);
    assert packet[..] == Stamped(TelemetryFrame(apid, sequenceCount, gpsEpochTime, subseconds, payload)) + [];
  }

  /** Headers at 0 and 6 and the payload at 12 make up the frame. */
  lemma FrameLaidOut(packet: array<bv8>, apid: bv16, sequenceCount: bv16, gpsEpochTime: bv32, subseconds: bv16, payload: seq<bv8>)
    requires |payload| < 0x1_0000 && packet.Length == HEADERS_LENGTH + |payload| + 2
    requires forall j :: 0 <= j < 6 ==> packet[j] == PrimaryHeader(apid, sequenceCount, Word16(|payload|))[j]
    requires forall j :: 6 <= j < HEADERS_LENGTH ==> packet[j] == SecondaryHeader(gpsEpochTime, subseconds)[j - 6]
    requires forall j :: HEADERS_LENGTH <= j < HEADERS_LENGTH + |payload| ==> packet[j] == payload[j - HEADERS_LENGTH]
    ensures packet[..packet.Length - 2] == TelemetryFrame(apid, sequenceCount, gpsEpochTime, subseconds, payload)
  {
    var f := TelemetryFrame(apid, sequenceCount, gpsEpochTime, subseconds, payload);
    forall j | 0 <= j < |f|
      ensures packet[j] == f[j]
    {
      if j < 6 {
        assert f[j] == PrimaryHeader(apid, sequenceCount, Word16(|payload|))[j];
      } else if j < HEADERS_LENGTH {
        assert f[j] == SecondaryHeader(gpsEpochTime, subseconds)[j - 6];
      } else {
        assert f[j] == f[HEADERS_LENGTH..][j - HEADERS_LENGTH];
      }
    }
  }

  /** What `parse_ccsds_telemetry` hands back. */
  datatype TelemetryFields = TelemetryFields(
    apid: bv16,
    sequenceCount: bv16,
    gpsEpochTime: bv32,
    subseconds: bv16,
    data: Option<seq<bv8>>,
    dataLength: bv16)

  /**
   * `parse_ccsds_telemetry`: the masked APID and sequence count, the time and
   * subseconds, and a copy of the `dataLength` bytes at offset 12 (none when
   * the length is zero).  The packet must hold the bytes its header announces.
   */
  function ParseTelemetry(packet: seq<bv8>): (t: TelemetryFields)
    requires |packet| >= HEADERS_LENGTH
    requires |packet| >= HEADERS_LENGTH + ReadDataLength(packet) as nat
    ensures t.apid <= APID_MASK && t.sequenceCount <= SEQUENCE_COUNT_MASK
    ensures t.data.None? <==> t.dataLength == 0
    ensures t.data.Some? ==> |t.data.value| == t.dataLength as nat
  {
    var dataLength := ReadDataLength(packet);
    TelemetryFields(
      ReadApid(packet),
      ReadSequenceCount(packet),
      FromBE32(packet[6..10]),
      FromBE16(packet[10], packet[11]),
      if dataLength == 0 then None else Some(packet[HEADERS_LENGTH..HEADERS_LENGTH + dataLength as nat]),
      dataLength)
  }

  /** The payload as the parsers hand it back: none when it is empty. */
  function DataOf(payload: seq<bv8>): Option<seq<bv8>>
  {
    if |payload| == 0 then None else Some(payload)
  }

  /**
   * Parsing an assembled telemetry packet recovers the APID and sequence
   * count cut to 11 and 14 bits, the time, the subseconds and the payload.
   */
  lemma ParseTelemetryPacket(apid: bv16, sequenceCount: bv16, gpsEpochTime: bv32, subseconds: bv16, payload: seq<bv8>)
    requires |payload| < 0x1_0000
    ensures var p := TelemetryPacket(apid, sequenceCount, gpsEpochTime, subseconds, payload);
      && |p| >= HEADERS_LENGTH + ReadDataLength(p) as nat
      && ParseTelemetry(p)
         == TelemetryFields(apid & APID_MASK, sequenceCount & SEQUENCE_COUNT_MASK, gpsEpochTime, subseconds,
                            DataOf(payload), Word16(|payload|))
  {
    var p := TelemetryPacket(apid, sequenceCount, gpsEpochTime, subseconds, payload);
    var h := PrimaryHeader(apid, sequenceCount, Word16(|payload|));
    TelemetryLayout(apid, sequenceCount, gpsEpochTime, subseconds, payload);
    SamePrimaryReads(p, h);
    ReadPrimaryHeader(apid, sequenceCount, Word16(|payload|));
    FromBE32OfBE32(gpsEpochTime);
  }

  /** Where each part of the frame sits in the stamped packet. */
  lemma TelemetryLayout(apid: bv16, sequenceCount: bv16, gpsEpochTime: bv32, subseconds: bv16, payload: seq<bv8>)
    requires |payload| < 0x1_0000
    ensures var p := TelemetryPacket(apid, sequenceCount, gpsEpochTime, subseconds, payload);
      && p[..6] == PrimaryHeader(apid, sequenceCount, Word16(|payload|))
      && p[6..10] == BE32(gpsEpochTime)
      && FromBE16(p[10], p[11]) == subseconds
      && p[HEADERS_LENGTH..HEADERS_LENGTH + |payload|] == payload
  {
    var f := TelemetryFrame(apid, sequenceCount, gpsEpochTime, subseconds, payload);
    var p := TelemetryPacket(apid, sequenceCount, gpsEpochTime, subseconds, payload);
    FrameLayout(apid, sequenceCount, gpsEpochTime, subseconds, payload);
    assert p[..|f|] == f;
    assert p[..6] == f[..6] && p[6..10] == f[6..10] && p[10] == f[10] && p[11] == f[11];
    assert p[HEADERS_LENGTH..HEADERS_LENGTH + |payload|] == f[HEADERS_LENGTH..];
  }

  /** Where each part sits in the frame. */
  lemma FrameLayout(apid: bv16, sequenceCount: bv16, gpsEpochTime: bv32, subseconds: bv16, payload: seq<bv8>)
    requires |payload| < 0x1_0000
    ensures var f := TelemetryFrame(apid, sequenceCount, gpsEpochTime, subseconds, payload);
      && f[..6] == PrimaryHeader(apid, sequenceCount, Word16(|payload|))
      && f[6..10] == BE32(gpsEpochTime)
      && FromBE16(f[10], f[11]) == subseconds
  {
    var f := TelemetryFrame(apid, sequenceCount, gpsEpochTime, subseconds, payload);
    var s := SecondaryHeader(gpsEpochTime, subseconds);
    assert f[6..12] == s;
    assert s[..4] == BE32(gpsEpochTime);
  }

  /** The parsers' header reads see only the first six bytes. */
  lemma SamePrimaryReads(p: seq<bv8>, h: seq<bv8>)
    requires |p| >= 6 && |h| == 6 && p[..6] == h
    ensures ReadApid(p) == ReadApid(h)
    ensures ReadSequenceCount(p) == ReadSequenceCount(h)
    ensures ReadDataLength(p) == ReadDataLength(h)
  {
    assert p[0] == h[0] && p[1] == h[1] && p[2] == h[2] && p[3] == h[3] && p[4] == h[4] && p[5] == h[5];
  }

  /**
   * Conversely, a packet with the fixed header bits this codec writes, a
   * valid CRC and exactly the length its header announces is the packet
   * assembled from the fields it parses to.
   */
  lemma TelemetryPacketOfParsed(p: seq<bv8>)
    requires |p| >= HEADERS_LENGTH + 2 && HasTelemetryPrimaryBits(p) && CrcValid(p)
    requires |p| == HEADERS_LENGTH + ReadDataLength(p) as nat + 2
    ensures var t := ParseTelemetry(p);
      p == TelemetryPacket(t.apid, t.sequenceCount, t.gpsEpochTime, t.subseconds, p[HEADERS_LENGTH..|p| - 2])
  {
    ParsedFrame(p);
    ValidIsStamped(p);
  }

  /** The packet less its CRC is the frame built from the fields it parses to. */
  lemma ParsedFrame(p: seq<bv8>)
    requires |p| >= HEADERS_LENGTH + 2 && HasTelemetryPrimaryBits(p)
    requires |p| == HEADERS_LENGTH + ReadDataLength(p) as nat + 2
    ensures var t := ParseTelemetry(p);
      p[..|p| - 2] == TelemetryFrame(t.apid, t.sequenceCount, t.gpsEpochTime, t.subseconds, p[HEADERS_LENGTH..|p| - 2])
  {
    var t := ParseTelemetry(p);
    var f := p[..|p| - 2];
    var payload := p[HEADERS_LENGTH..|p| - 2];
    RebuildPrimaryHeader(p);
    RebuildSecondaryHeader(p);
    Word16OfValue(ReadDataLength(p));
    assert Word16(|payload|) == ReadDataLength(p);
    assert f[..6] == p[..6] && f[6..12] == p[6..12] && f[HEADERS_LENGTH..] == payload;
    FrameOfParts(f, t.apid, t.sequenceCount, t.gpsEpochTime, t.subseconds, payload);
  }

  /** The secondary header rebuilt from the time and subseconds read out of bytes 6 to 11. */
  lemma RebuildSecondaryHeader(p: seq<bv8>)
    requires |p| >= HEADERS_LENGTH
    ensures SecondaryHeader(FromBE32(p[6..10]), FromBE16(p[10], p[11])) == p[6..12]
  {
    FromBE32Bytes(p[6..10]);
    FromBE16Bytes(p[10], p[11]);
    assert p[6..12] == p[6..10] + [p[10], p[11]];
  }

  /** A frame is the headers and payload it is made of. */
  lemma FrameOfParts(f: seq<bv8>, apid: bv16, sequenceCount: bv16, gpsEpochTime: bv32, subseconds: bv16, payload: seq<bv8>)
    requires |payload| < 0x1_0000 && |f| == HEADERS_LENGTH + |payload|
    requires f[..6] == PrimaryHeader(apid, sequenceCount, Word16(|payload|))
    requires f[6..12] == SecondaryHeader(gpsEpochTime, subseconds)
    requires f[HEADERS_LENGTH..] == payload
    ensures f == TelemetryFrame(apid, sequenceCount, gpsEpochTime, subseconds, payload)
  {
    assert f == f[..6] + f[6..12] + f[HEADERS_LENGTH..];
  }

  /** What `parse_ccsds_telecommand` hands back. */
  datatype TelecommandFields = TelecommandFields(
    apid: bv16,
    sequenceCount: bv16,
    packetId: bv16,
    data: Option<seq<bv8>>,
    dataLength: bv16)

  /**
   * `parse_ccsds_telecommand`: the masked APID and sequence count, the packet
   * id from bytes 6 and 7, and a copy of the `dataLength` bytes at offset 8
   * (none when the length is zero).
   */
  function ParseTelecommand(packet: seq<bv8>): (t: TelecommandFields)
    requires |packet| >= TELECOMMAND_DATA_OFFSET
    requires |packet| >= TELECOMMAND_DATA_OFFSET + ReadDataLength(packet) as nat
    ensures t.apid <= APID_MASK && t.sequenceCount <= SEQUENCE_COUNT_MASK
    ensures t.data.None? <==> t.dataLength == 0
    ensures t.data.Some? ==> |t.data.value| == t.dataLength as nat
  {
    var dataLength := ReadDataLength(packet);
    TelecommandFields(
      ReadApid(packet),
      ReadSequenceCount(packet),
      FromBE16(packet[6], packet[7]),
      if dataLength == 0 then None else Some(packet[TELECOMMAND_DATA_OFFSET..TELECOMMAND_DATA_OFFSET + dataLength as nat]),
      dataLength)
  }

  /**
   * A telecommand laid out as a primary header, the big-endian packet id and
   * the payload parses back to its masked APID and count, its id and payload.
   */
  lemma ParseTelecommandPacket(apid: bv16, sequenceCount: bv16, packetId: bv16, payload: seq<bv8>)
    requires |payload| < 0x1_0000
    ensures var p := PrimaryHeader(apid, sequenceCount, Word16(|payload|)) + BE16(packetId) + payload;
      && |p| >= TELECOMMAND_DATA_OFFSET + ReadDataLength(p) as nat
      && ParseTelecommand(p)
         == TelecommandFields(apid & APID_MASK, sequenceCount & SEQUENCE_COUNT_MASK, packetId, DataOf(payload), Word16(|payload|))
  {
    ReadPrimaryHeader(apid, sequenceCount, Word16(|payload|));
    ParseTelecommandOfParts(PrimaryHeader(apid, sequenceCount, Word16(|payload|)), packetId, payload);
  }

  /** A telecommand made of a header announcing the payload's length, an id and the payload parses to them. */
  lemma ParseTelecommandOfParts(h: seq<bv8>, packetId: bv16, payload: seq<bv8>)
    requires |h| == 6 && ReadDataLength(h) as nat == |payload|
    ensures var p := h + BE16(packetId) + payload;
      && |p| >= TELECOMMAND_DATA_OFFSET + ReadDataLength(p) as nat
      && ParseTelecommand(p)
         == TelecommandFields(ReadApid(h), ReadSequenceCount(h), packetId, DataOf(payload), ReadDataLength(h))
  {
    var p := h + BE16(packetId) + payload;
    TelecommandLayout(h, packetId, payload);
    SamePrimaryReads(p, h);
    assert p[TELECOMMAND_DATA_OFFSET..TELECOMMAND_DATA_OFFSET + |payload|] == payload;
  }

  /** Where each part of a telecommand sits. */
  lemma TelecommandLayout(h: seq<bv8>, packetId: bv16, payload: seq<bv8>)
    requires |h| == 6
    ensures var p := h + BE16(packetId) + payload;
      && p[..6] == h
      && FromBE16(p[6], p[7]) == packetId
      && p[TELECOMMAND_DATA_OFFSET..] == payload
  {
    var p := h + BE16(packetId) + payload;
    assert p[..6] == h;
    assert p[6] == BE16(packetId)[0] && p[7] == BE16(packetId)[1];
    assert p[TELECOMMAND_DATA_OFFSET..] == payload;
  }
}
