/** The datagrams of the audio and control channels: RTP audio packets (header of section 5.1 of
    RFC 3550), resend responses that wrap one, and resend requests. */
module RtpPackets {
  import opened Wrappers
  import opened RtpQueue

  const RTP_HEADER_LEN := 12
  const RTP_PT_AUDIO := 0x60
  const RESEND_RESP_TYPE := 0x56
  const RESEND_RESP_HDR := 4

  datatype RtpHeader = RtpHeader(payloadType: nat, marker: bool, seqNo: nat, timestamp: nat, ssrc: nat, payload: Bytes)

  function Be16(p: Bytes): (v: nat)
    requires |p| >= 2
    ensures v < 0x1_0000
  {
    var a: int, b: int := p[0], p[1];
    a * 0x100 + b
  }

  function Be32(p: Bytes): (v: nat)
    requires |p| >= 4
    ensures v < 0x1_0000_0000
  {
    Be16(p[..2]) * 0x1_0000 + Be16(p[2..])
  }

  function RtpParse(pkt: Bytes): Option<RtpHeader> {
    if |pkt| < RTP_HEADER_LEN then None
    else
      Some(RtpHeader(pkt[1] % 0x80, pkt[1] >= 0x80, Be16(pkt[2..]), Be32(pkt[4..]), Be32(pkt[8..]),
                     pkt[RTP_HEADER_LEN..]))
  }

  /** The packet inside a resend response. */
  function Unwrap(pkt: Bytes): Option<Bytes> {
    if |pkt| < RESEND_RESP_HDR + RTP_HEADER_LEN then None
    else if pkt[1] % 0x80 != RESEND_RESP_TYPE then None
    else Some(pkt[RESEND_RESP_HDR..])
  }

  /** The 8-byte request for `count` packets from `first` on. */
  function ResendRequest(first: nat, count: nat): (r: Bytes)
    ensures |r| == 8
  {
    [0x80, 0xD5, 0x00, 0x01] + Put16(first) + Put16(count)
  }

  function Put16(v: nat): (p: Bytes)
    ensures |p| == 2
  {
    [v / 0x100 % 0x100, v % 0x100]
  }

  function Put32(v: nat): (p: Bytes)
    ensures |p| == 4
  {
    Put16(v / 0x1_0000) + Put16(v % 0x1_0000)
  }

  // ----- the sender's side -----

  /** An audio packet as a sender builds it. */
  function AudioPacket(marker: bool, seqNo: nat, timestamp: nat, ssrc: nat, payload: Bytes): Bytes {
    [0x80, if marker then 0xE0 else 0x60] + Put16(seqNo) + Put32(timestamp) + Put32(ssrc) + payload
  }

  /** The same packet in answer to a resend request. */
  function ResendResponse(pkt: Bytes): Bytes {
    [0x80, 0xD6, 0x00, 0x01] + pkt
  }

  lemma Get16(v: nat, rest: Bytes)
    requires v < 0x1_0000
    ensures Be16(Put16(v) + rest) == v
  {
    assert v / 0x100 < 0x100;
    assert v == v / 0x100 * 0x100 + v % 0x100;
  }

  lemma Get32(v: nat, rest: Bytes)
    requires v < 0x1_0000_0000
    ensures Be32(Put32(v) + rest) == v
  {
    var p := Put32(v) + rest;
    assert v / 0x1_0000 < 0x1_0000;
    assert v == v / 0x1_0000 * 0x1_0000 + v % 0x1_0000;
    hide Be16, Put16;
    assert p[..2] == Put16(v / 0x1_0000) + [];
    assert p[2..] == Put16(v % 0x1_0000) + rest;
    Get16(v / 0x1_0000, []);
    Get16(v % 0x1_0000, rest);
  }

  /** Parsing an audio packet gives back its fields, whether it came directly or was resent. */
  lemma PacketRoundTrip(marker: bool, seqNo: nat, timestamp: nat, ssrc: nat, payload: Bytes)
    requires seqNo < 0x1_0000 && timestamp < 0x1_0000_0000 && ssrc < 0x1_0000_0000
    ensures var pkt := AudioPacket(marker, seqNo, timestamp, ssrc, payload);
            && RtpParse(pkt) == Some(RtpHeader(RTP_PT_AUDIO, marker, seqNo, timestamp, ssrc, payload))
            && Unwrap(ResendResponse(pkt)) == Some(pkt)
  {
    hide Be16, Be32, Put16, Put32;
    var pkt := AudioPacket(marker, seqNo, timestamp, ssrc, payload);
    assert pkt[2..] == Put16(seqNo) + (Put32(timestamp) + Put32(ssrc) + payload);
    assert pkt[4..] == Put32(timestamp) + (Put32(ssrc) + payload);
    assert pkt[8..] == Put32(ssrc) + payload;
    assert pkt[RTP_HEADER_LEN..] == payload;
    Get16(seqNo, Put32(timestamp) + Put32(ssrc) + payload);
    Get32(timestamp, Put32(ssrc) + payload);
    Get32(ssrc, payload);
    assert ResendResponse(pkt)[RESEND_RESP_HDR..] == pkt;
  }

  /** The fields of any datagram, byte by byte: twelve bytes are a packet, sixteen of the right type wrap one
      behind four. */
  lemma FieldsExactly(pkt: Bytes)
    ensures RtpParse(pkt).Some? <==> |pkt| >= 12
    ensures RtpParse(pkt).Some? ==>
      var h := RtpParse(pkt).value;
      && h.payloadType + (if h.marker then 128 else 0) == pkt[1] && h.payloadType < 128
      && h.seqNo == 256 * (pkt[2] as int) + pkt[3]
      && h.timestamp == 0x100_0000 * (pkt[4] as int) + 0x1_0000 * (pkt[5] as int) + 0x100 * (pkt[6] as int) + pkt[7]
      && h.ssrc == 0x100_0000 * (pkt[8] as int) + 0x1_0000 * (pkt[9] as int) + 0x100 * (pkt[10] as int) + pkt[11]
      && h.payload == pkt[12..]
    ensures Unwrap(pkt) ==
      if |pkt| >= 16 && (pkt[1] == 0x56 || pkt[1] == 0xD6) then Some(pkt[4..]) else None
  {
    if |pkt| >= 12 {
      Be32Is(pkt, 4);
      Be32Is(pkt, 8);
      hide Be32;
    }
  }

  lemma Be32Is(p: Bytes, i: nat)
    requires i + 4 <= |p|
    ensures Be32(p[i..]) == 0x100_0000 * (p[i] as int) + 0x1_0000 * (p[i + 1] as int) + 0x100 * (p[i + 2] as int)
                           + p[i + 3]
  {
  }

  /** A resend request carries its range unharmed. */
  lemma RequestRoundTrip(first: nat, count: nat)
    requires first < 0x1_0000 && count < 0x1_0000
    ensures var r := ResendRequest(first, count);
      && r[0] == 0x80 && r[1] % 0x80 == 0x55 && r[2] == 0 && r[3] == 1
      && r[4] == first / 0x100 && r[5] == first % 0x100 && r[6] == count / 0x100 && r[7] == count % 0x100
      && Be16(r[4..]) == first && Be16(r[6..]) == count
  {
    hide Be16;
    assert ResendRequest(first, count)[4..] == Put16(first) + Put16(count);
    assert ResendRequest(first, count)[6..] == Put16(count) + [];
    Get16(first, Put16(count));
    Get16(count, []);
  }
}
