/**
 * The two CCSDS headers of src/Ccsds_packets.cpp.
 *
 * Primary header (6 bytes), after the Packet Primary Header of the CCSDS Space
 * Packet Protocol (CCSDS 133.0-B-1, section 4.1.2): 3-bit version (0), 1-bit
 * type (0, telemetry), 1-bit secondary-header flag (1), 11-bit APID, 2-bit
 * sequence flags (binary 11), 14-bit sequence count, 16-bit data length.
 * The code stores in the data length the payload byte count itself, not the
 * standard's "length of the data field minus one".
 *
 * Secondary header (6 bytes): 32-bit GPS epoch time, then 16-bit subseconds,
 * both big-endian.
 */
module CcsdsHeaders {
  import opened Bytes

  const PACKET_VERSION_NUMBER: bv16 := 0
  const PACKET_TYPE: bv16 := 0
  const SECONDARY_HEADER_FLAG: bv16 := 1
  const PACKET_SEQUENCE_FLAG: bv16 := 3
  const APID_MASK: bv16 := 0x7FF
  const SEQUENCE_COUNT_MASK: bv16 := 0x3FFF

  /**
   * `create_ccsds_primary_header`.  The APID is silently cut to 11 bits and
   * the sequence count to 14; the fixed fields take their constant values.
   */
  function PrimaryHeader(apid: bv16, sequenceCount: bv16, dataLength: bv16): (h: seq<bv8>)
    ensures |h| == 6
    ensures h[0] >> 5 == 0                      // version number 0
    ensures (h[0] >> 4) & 1 == 0                // packet type: telemetry
    ensures (h[0] >> 3) & 1 == 1                // secondary header present
    ensures FromBE16(h[0] & 0x07, h[1]) == apid & APID_MASK
    ensures h[2] >> 6 == 3                      // sequence flags: unsegmented
    ensures FromBE16(h[2] & 0x3F, h[3]) == sequenceCount & SEQUENCE_COUNT_MASK
    ensures FromBE16(h[4], h[5]) == dataLength
  {
    var packetIdentificationField := PacketIdentificationField(apid);
    var packetSequenceControl := PacketSequenceControl(sequenceCount);
    [ ((PACKET_VERSION_NUMBER << 5) | ((packetIdentificationField >> 8) & 0x1F)) as bv8,
      (packetIdentificationField & 0xFF) as bv8,
      ((packetSequenceControl >> 8) & 0xFF) as bv8,
      (packetSequenceControl & 0xFF) as bv8,
      ((dataLength >> 8) & 0xFF) as bv8,
      (dataLength & 0xFF) as bv8 ]
  }

  /** The 13-bit packet identification: type, secondary-header flag, APID cut to 11 bits. */
  function PacketIdentificationField(apid: bv16): bv16
  {
    var apidBinary := apid & APID_MASK;
    (PACKET_TYPE << 12) | (SECONDARY_HEADER_FLAG << 11) | apidBinary
  }

  /** The 16-bit packet sequence control: sequence flags, count cut to 14 bits. */
  function PacketSequenceControl(sequenceCount: bv16): bv16
  {
    var packetSequenceCount := sequenceCount & SEQUENCE_COUNT_MASK;
    (PACKET_SEQUENCE_FLAG << 14) | packetSequenceCount
  }

  /** `create_ccsds_secondary_header`: the time, then the subseconds, most significant byte first. */
  function SecondaryHeader(gpsEpochTime: bv32, subseconds: bv16): (h: seq<bv8>)
    ensures |h| == 6
    ensures h == BE32(gpsEpochTime) + BE16(subseconds)
    ensures FromBE32(h[..4]) == gpsEpochTime && FromBE16(h[4], h[5]) == subseconds
  {
    [ ((gpsEpochTime >> 24) & 0xFF) as bv8,
      ((gpsEpochTime >> 16) & 0xFF) as bv8,
      ((gpsEpochTime >> 8) & 0xFF) as bv8,
      (gpsEpochTime & 0xFF) as bv8,
      ((subseconds >> 8) & 0xFF) as bv8,
      (subseconds & 0xFF) as bv8 ]
  }

  /** The APID as the parsers read it: the low 3 bits of byte 0, then byte 1. */
  function ReadApid(p: seq<bv8>): (apid: bv16)
    requires |p| >= 2
    ensures apid <= APID_MASK
  {
    (((p[0] & 0x1F) & 0x07) as bv16 << 8) | p[1] as bv16
  }

  /** The sequence count as the parsers read it: bytes 2 and 3, cut to 14 bits. */
  function ReadSequenceCount(p: seq<bv8>): (count: bv16)
    requires |p| >= 4
    ensures count <= SEQUENCE_COUNT_MASK
  {
    ((p[2] as bv16 << 8) | p[3] as bv16) & SEQUENCE_COUNT_MASK
  }

  /** The data length field: bytes 4 and 5. */
  function ReadDataLength(p: seq<bv8>): bv16
    requires |p| >= 6
  {
    FromBE16(p[4], p[5])
  }

  /** The fixed bits of a primary header built by this codec: 000 0 1 in byte 0, 11 in byte 2. */
  predicate HasTelemetryPrimaryBits(p: seq<bv8>)
    requires |p| >= 6
  {
    p[0] & 0xF8 == 0x08 && p[2] & 0xC0 == 0xC0
  }

  /** Reading a built primary header gives back the masked fields. */
  lemma ReadPrimaryHeader(apid: bv16, sequenceCount: bv16, dataLength: bv16)
    ensures var h := PrimaryHeader(apid, sequenceCount, dataLength);
      && HasTelemetryPrimaryBits(h)
      && ReadApid(h) == apid & APID_MASK
      && ReadSequenceCount(h) == sequenceCount & SEQUENCE_COUNT_MASK
      && ReadDataLength(h) == dataLength
  {
  }

  /** The primary header is three big-endian words: identification, sequence control, data length. */
  lemma PrimaryHeaderWords(apid: bv16, sequenceCount: bv16, dataLength: bv16)
    ensures PrimaryHeader(apid, sequenceCount, dataLength)
         == BE16(PacketIdentificationField(apid)) + BE16(PacketSequenceControl(sequenceCount)) + BE16(dataLength)
  {
  }

  /** Rebuilding from the fields read out of a header with the codec's fixed bits gives the header back. */
  lemma RebuildPrimaryHeader(p: seq<bv8>)
    requires |p| >= 6 && HasTelemetryPrimaryBits(p)
    ensures PrimaryHeader(ReadApid(p), ReadSequenceCount(p), ReadDataLength(p)) == p[..6]
  {
    RebuildIdentification(p);
    RebuildSequenceControl(p);
    PrimaryHeaderWords(ReadApid(p), ReadSequenceCount(p), ReadDataLength(p));
    WordsBytes(p[0], p[1], p[2], p[3], p[4], p[5]);
    assert p[..6] == [p[0], p[1], p[2], p[3], p[4], p[5]];
  }

  lemma RebuildIdentification(p: seq<bv8>)
    requires |p| >= 2 && p[0] & 0xF8 == 0x08
    ensures PacketIdentificationField(ReadApid(p)) == FromBE16(p[0], p[1])
  {
  }

  lemma RebuildSequenceControl(p: seq<bv8>)
    requires |p| >= 4 && p[2] & 0xC0 == 0xC0
    ensures PacketSequenceControl(ReadSequenceCount(p)) == FromBE16(p[2], p[3])
  {
  }

  lemma WordsBytes(b0: bv8, b1: bv8, b2: bv8, b3: bv8, b4: bv8, b5: bv8)
    ensures BE16(FromBE16(b0, b1)) + BE16(FromBE16(b2, b3)) + BE16(FromBE16(b4, b5)) == [b0, b1, b2, b3, b4, b5]
  {
    FromBE16Bytes(b0, b1);
    FromBE16Bytes(b2, b3);
    FromBE16Bytes(b4, b5);
  }

  /** Out-of-range values are masked, never rejected: APID 0xFFFF, count 0xFFFF, length 10. */
  lemma MaskingExample()
    ensures PrimaryHeader(0xFFFF, 0xFFFF, 10) == [0x0F, 0xFF, 0xFF, 0xFF, 0x00, 0x0A]
  {
  }
}
