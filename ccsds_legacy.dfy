/**
 * The older packet functions kept in include/Ccsds_packets.h.
 *
 * `create_ccsds_packet` serialises exactly as the telemetry assembler does but
 * appends no CRC: the packet is the 12 header bytes and the payload.
 * `parse_ccsds` reads the same header fields and always hands back a copy of
 * the announced data, an empty one when the length is zero.  The header
 * builders, the value extractor and `read_position` in that file are the same
 * code as in src/Ccsds_packets.cpp and are modelled once, in CcsdsHeaders and
 * CcsdsExtract.
 */
module CcsdsLegacy {
  import opened Wrappers
  import opened Bytes
  import opened CcsdsHeaders
  import opened CcsdsPayload
  import opened CcsdsPackets

  /**
   * `create_ccsds_packet`: serialise the text, then copy both headers and the
   * payload into a fresh packet of `12 + n` bytes.
   */
  method CreatePacket(apid: bv16, sequenceCount: bv16, gpsEpochTime: bv32, subseconds: bv16, data: seq<bv8>,
                      toInt: seq<bv8> -> bv32, toFloatBits: seq<bv8> -> bv32)
    returns (packet: array<bv8>, packetLength: nat)
    requires |data| < 0xFFFF
    requires |SerializedData(data, toInt, toFloatBits)| <= PACKET_DATA_CAPACITY
    ensures fresh(packet)
    ensures packetLength == packet.Length == HEADERS_LENGTH + |SerializedData(data, toInt, toFloatBits)|
    ensures packet[..] == TelemetryFrame(apid, sequenceCount, gpsEpochTime, subseconds, SerializedData(data, toInt, toFloatBits))
  {
    var packetData := new bv8[PACKET_DATA_CAPACITY];
    var packetDataLength := SerializeData(data, toInt, toFloatBits, packetData);
    assert packetData[..packetDataLength] == SerializedData(data, toInt, toFloatBits);
    packet, packetLength := AssembleFrame(apid, sequenceCount, gpsEpochTime, subseconds, packetData[..packetDataLength]);
  }

  /** The copying half of `create_ccsds_packet`. */
  method AssembleFrame(apid: bv16, sequenceCount: bv16, gpsEpochTime: bv32, subseconds: bv16, payload: seq<bv8>)
    returns (packet: array<bv8>, packetLength: nat)
    requires |payload| < 0x1_0000
    ensures fresh(packet)
    ensures packetLength == packet.Length == HEADERS_LENGTH + |payload|
    ensures packet[..] == TelemetryFrame(apid, sequenceCount, gpsEpochTime, subseconds, payload)
  {
    var primaryHeader := PrimaryHeader(apid, sequenceCount, Word16(|payload|));
    var secondaryHeader := SecondaryHeader(gpsEpochTime, subseconds);
    packet := new bv8[HEADERS_LENGTH + |payload|];
    Memcpy(packet, 0, primaryHeader);
    Memcpy(packet, 6, secondaryHeader);
    Memcpy(packet, HEADERS_LENGTH, payload);
    packetLength := HEADERS_LENGTH + |payload|;
    FrameCopied(packet, apid, sequenceCount, gpsEpochTime, subseconds, payload);
  }

  /** Headers at 0 and 6 and the payload at 12 make up the whole frame. */
  lemma FrameCopied(packet: array<bv8>, apid: bv16, sequenceCount: bv16, gpsEpochTime: bv32, subseconds: bv16, payload: seq<bv8>)
    requires |payload| < 0x1_0000 && packet.Length == HEADERS_LENGTH + |payload|
    requires forall j :: 0 <= j < 6 ==> packet[j] == PrimaryHeader(apid, sequenceCount, Word16(|payload|))[j]
    requires forall j :: 6 <= j < HEADERS_LENGTH ==> packet[j] == SecondaryHeader(gpsEpochTime, subseconds)[j - 6]
    requires forall j :: HEADERS_LENGTH <= j < HEADERS_LENGTH + |payload| ==> packet[j] == payload[j - HEADERS_LENGTH]
    ensures packet[..] == TelemetryFrame(apid, sequenceCount, gpsEpochTime, subseconds, payload)
  {
    var f := TelemetryFrame(apid, sequenceCount, gpsEpochTime, subseconds, payload);
    forall j | 0 <= j < |f|
      ensures packet[j] == f[j]
    {
      if j < 6 {
        assert f[j] == PrimaryHeader(apid, sequenceCount, Word16(|payload|))[j];
      } else if j < HEADERS_LENGTH {
        assert f[j] == SecondaryHeader(gpsEpochTime, subseconds)[j - 6];
      } else {
        assert f[j] == f[HEADERS_LENGTH..][j - HEADERS_LENGTH];
      }
    }
  }

  /**
   * `parse_ccsds`: the same fields as `parse_ccsds_telemetry`, but the data is
   * always a copy of the `dataLength` bytes at offset 12, even when there are
   * none.
   */
  function ParseCcsds(packet: seq<bv8>): (t: TelemetryFields)
    requires |packet| >= HEADERS_LENGTH
    requires |packet| >= HEADERS_LENGTH + ReadDataLength(packet) as nat
    ensures t.apid <= APID_MASK && t.sequenceCount <= SEQUENCE_COUNT_MASK
    ensures t.data.Some? && |t.data.value| == t.dataLength as nat
  {
    var dataLength := ReadDataLength(packet);
    TelemetryFields(
      ReadApid(packet),
      ReadSequenceCount(packet),
      FromBE32(packet[6..10]),
      FromBE16(packet[10], packet[11]),
      Some(packet[HEADERS_LENGTH..HEADERS_LENGTH + dataLength as nat]),
      dataLength)
  }

  /**
   * The two parsers agree on every field, and on the data too unless the
   * packet announces none: then the telemetry parser hands back nothing and
   * the legacy one an empty copy.
   */
  lemma ParsersAgree(packet: seq<bv8>)
    requires |packet| >= HEADERS_LENGTH
    requires |packet| >= HEADERS_LENGTH + ReadDataLength(packet) as nat
    ensures ParseTelemetry(packet)
         == if ReadDataLength(packet) == 0 then ParseCcsds(packet).(data := None) else ParseCcsds(packet)
    ensures ReadDataLength(packet) == 0 ==> ParseCcsds(packet).data == Some([])
  {
  }

  /**
   * Parsing a packet made by `create_ccsds_packet` recovers the masked APID
   * and sequence count, the time, the subseconds and the payload.
   */
  lemma ParseCcsdsFrame(apid: bv16, sequenceCount: bv16, gpsEpochTime: bv32, subseconds: bv16, payload: seq<bv8>)
    requires |payload| < 0x1_0000
    ensures var f := TelemetryFrame(apid, sequenceCount, gpsEpochTime, subseconds, payload);
      && |f| >= HEADERS_LENGTH + ReadDataLength(f) as nat
      && ParseCcsds(f)
         == TelemetryFields(apid & APID_MASK, sequenceCount & SEQUENCE_COUNT_MASK, gpsEpochTime, subseconds,
                            Some(payload), Word16(|payload|))
  {
    var f := TelemetryFrame(apid, sequenceCount, gpsEpochTime, subseconds, payload);
    var h := PrimaryHeader(apid, sequenceCount, Word16(|payload|));
    FrameLayout(apid, sequenceCount, gpsEpochTime, subseconds, payload);
    SamePrimaryReads(f, h);
    ReadPrimaryHeader(apid, sequenceCount, Word16(|payload|));
    FromBE32OfBE32(gpsEpochTime);
    assert f[HEADERS_LENGTH..HEADERS_LENGTH + |payload|] == payload;
  }

  /**
   * Conversely, a packet with the codec's fixed header bits and exactly the
   * length its header announces is the frame built from what it parses to.
   */
  lemma FrameOfParsed(p: seq<bv8>)
    requires |p| >= HEADERS_LENGTH && HasTelemetryPrimaryBits(p)
    requires |p| == HEADERS_LENGTH + ReadDataLength(p) as nat
    ensures var t := ParseCcsds(p);
      p == TelemetryFrame(t.apid, t.sequenceCount, t.gpsEpochTime, t.subseconds, t.data.value)
  {
    var t := ParseCcsds(p);
    RebuildPrimaryHeader(p);
    RebuildSecondaryHeader(p);
    Word16OfValue(ReadDataLength(p));
    FrameOfParts(p, t.apid, t.sequenceCount, t.gpsEpochTime, t.subseconds, t.data.value);
  }
}
