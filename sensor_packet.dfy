/**
 * struct sensor_packet, shared by the sensor node (which fills and sends it) and the coordinator
 * (which receives and decodes it). The struct is packed, every field travels in network byte order,
 * and the model works on its 16-byte wire image.
 */
module SensorPacket {
  import opened Wrappers
  import opened CInt

  /** sizeof(struct sensor_packet) with __packed__: 2+2+2+2+4+2+2 bytes. */
  const PacketSize: nat := 16

  /** The host-order field values, each within the range of its declared C type. */
  datatype Packet = Packet(
    nodeId: uint16,
    light: uint16,          // lux, 100x scale
    temperature: int16,     // degrees C, 100x scale
    humidityAir: uint16,    // percent, 100x scale
    humidityGround: uint32, // percent
    rxDrift: int16,
    txDrift: int16)

  /**
   * The node's packet fill: each global is cast to the field's declared type and stored with
   * UIP_HTONS / UIP_HTONL, so memory holds the big-endian bytes.
   */
  function Encode(p: Packet): (wire: seq<byte>)
    ensures |wire| == PacketSize
  {
    BigEndian16(p.nodeId) + BigEndian16(p.light) + BigEndian16(ToU16(p.temperature))
    + BigEndian16(p.humidityAir) + BigEndian32(p.humidityGround)
    + BigEndian16(ToU16(p.rxDrift)) + BigEndian16(ToU16(p.txDrift))
  }

  /** The node's casts of its `int` globals to the declared field types. */
  function FromNodeGlobals(nodeId: uint16, optValue: int, tempValue: int, humidValue: int,
                           moisture: int, rxDrift: int, txDrift: int): (p: Packet)
    ensures (p.light - optValue) % U16 == 0 && (p.temperature - tempValue) % U16 == 0
    ensures (p.humidityAir - humidValue) % U16 == 0 && (p.humidityGround - moisture) % U32 == 0
    ensures (p.rxDrift - rxDrift) % U16 == 0 && (p.txDrift - txDrift) % U16 == 0
    ensures 0 <= moisture <= 100 ==> p.humidityGround == moisture
  {
    Packet(nodeId, ToU16(optValue), ToS16(tempValue), ToU16(humidValue), ToU32(moisture),
           ToS16(rxDrift), ToS16(txDrift))
  }

  /**
   * The coordinator's receive path: only a payload of exactly sizeof(struct sensor_packet) bytes is
   * decoded; each field is converted from network byte order (UIP_HTONS, UIP_HTONL), and the three
   * int16_t locals take the converted value as signed.
   */
  function Decode(data: seq<byte>): (r: Option<Packet>)
    ensures r.Some? <==> |data| == PacketSize
  {
    if |data| != PacketSize then None
    else
      Some(Packet(
        ReadBigEndian16(data[0], data[1]),
        ReadBigEndian16(data[2], data[3]),
        ToS16(ReadBigEndian16(data[4], data[5])),
        ReadBigEndian16(data[6], data[7]),
        ReadBigEndian32(data[8..12]),
        ToS16(ReadBigEndian16(data[12], data[13])),
        ToS16(ReadBigEndian16(data[14], data[15]))))
  }

  lemma SignedFieldRoundTrip(v: int16)
    ensures ToS16(ReadBigEndian16(BigEndian16(ToU16(v))[0], BigEndian16(ToU16(v))[1])) == v
  {
    BigEndian16RoundTrip(ToU16(v));
  }

  /** Decoding what the node encoded gives back every field. */
  lemma {:induction false} DecodeEncode(p: Packet)
    ensures Decode(Encode(p)) == Some(p)
  {
    var w := Encode(p);
    BigEndian16RoundTrip(p.nodeId);
    BigEndian16RoundTrip(p.light);
    SignedFieldRoundTrip(p.temperature);
    BigEndian16RoundTrip(p.humidityAir);
    BigEndian32RoundTrip(p.humidityGround);
    SignedFieldRoundTrip(p.rxDrift);
    SignedFieldRoundTrip(p.txDrift);
    assert w[8..12] == BigEndian32(p.humidityGround);
  }

  lemma SignedFieldInverse(hi: byte, lo: byte)
    ensures BigEndian16(ToU16(ToS16(ReadBigEndian16(hi, lo)))) == [hi, lo]
  {
    ReadBigEndian16Inverse(hi, lo);
  }

  /** Every 16-byte payload is the node's encoding of the packet decoded from it. */
  lemma {:induction false} EncodeDecode(data: seq<byte>)
    requires |data| == PacketSize
    ensures Encode(Decode(data).value) == data
  {
    var p := Decode(data).value;
    assert BigEndian16(p.nodeId) == data[0..2] by { ReadBigEndian16Inverse(data[0], data[1]); }
    assert BigEndian16(p.light) == data[2..4] by { ReadBigEndian16Inverse(data[2], data[3]); }
    assert BigEndian16(ToU16(p.temperature)) == data[4..6] by { SignedFieldInverse(data[4], data[5]); }
    assert BigEndian16(p.humidityAir) == data[6..8] by { ReadBigEndian16Inverse(data[6], data[7]); }
    assert BigEndian32(p.humidityGround) == data[8..12] by { ReadBigEndian32Inverse(data[8..12]); }
    assert BigEndian16(ToU16(p.rxDrift)) == data[12..14] by { SignedFieldInverse(data[12], data[13]); }
    assert BigEndian16(ToU16(p.txDrift)) == data[14..16] by { SignedFieldInverse(data[14], data[15]); }
    assert data == data[0..2] + data[2..4] + data[4..6] + data[6..8] + data[8..12]
                   + data[12..14] + data[14..16];
  }
}
