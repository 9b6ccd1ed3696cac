/**
 * The final-project sensor node: the soil-moisture conversion of the DFRobot capacitive probe read
 * through an ADS1115 over I2C, the latching of the TSCH clock drift of the last transmitted or
 * received frame, and the packet filled and sent on every sensor-timer expiry.
 *
 * The node's statics are the fields of `SoilNode.Node`. The I2C transfers, the HDC1000/OPT3001
 * drivers and the routing layer are inputs: a transfer's outcome and the bytes it read, a sensor's
 * value, and whether the node is reachable with a known root address are method parameters.
 */
module SoilNode {
  import opened CInt
  import opened SensorPacket

  /** The probe's calibration, in millivolts. */
  const DryVoltageMv: int := 2900
  const WetVoltageMv: int := 0
  const VoltageRangeMv: int := DryVoltageMv - WetVoltageMv

  /** The ADS1115 full scale (4.096 V as millivolts) and its largest positive code. */
  const FullScaleMv: int := 4096
  const MaxCode: int := 32767

  /**
   * `(read_buf[0] << 8) | read_buf[1]` stored in the int16_t `adc_value`: the conversion register
   * arrives most significant byte first and is a two's-complement code.
   */
  function AdcOf(hi: byte, lo: byte): (adc: int16)
    ensures ToU16(adc) == ReadBigEndian16(hi, lo)
    ensures hi < 0x80 <==> adc >= 0
  {
    ToS16(hi as int * 0x100 + lo)
  }

  /** The ADC value keeps every bit of the two bytes read: its network-order image is those bytes. */
  lemma AdcKeepsBytes(hi: byte, lo: byte)
    ensures BigEndian16(ToU16(AdcOf(hi, lo))) == [hi, lo]
  {
    ReadBigEndian16Inverse(hi, lo);
  }

  /**
   * `voltage_mV = (adc_value * 4096L) / 32767`: the product fits a 32-bit long, and the quotient is
   * truncated toward zero.
   */
  function VoltageOf(adc: int16): (mv: int32)
    ensures -FullScaleMv <= mv <= FullScaleMv
    ensures adc >= 0 ==> 0 <= adc * FullScaleMv - mv * MaxCode < MaxCode
    ensures adc < 0 ==> -MaxCode < adc * FullScaleMv - mv * MaxCode <= 0
  {
    TruncDiv(adc * FullScaleMv, MaxCode)
  }

  /**
   * The moisture percentage: 0 at or above the dry voltage, 100 at or below the wet voltage, and
   * in between the linear interpolation rounded toward zero.
   */
  function MoistureOf(mv: int): (pct: int)
    ensures 0 <= pct <= 100
    ensures mv >= DryVoltageMv ==> pct == 0
    ensures mv <= WetVoltageMv ==> pct == 100
    ensures WetVoltageMv < mv < DryVoltageMv ==>
              pct * VoltageRangeMv <= (DryVoltageMv - mv) * 100 < (pct + 1) * VoltageRangeMv
  {
    if mv >= DryVoltageMv then 0
    else if mv <= WetVoltageMv then 100
    else TruncDiv((DryVoltageMv - mv) * 100, VoltageRangeMv)
  }

  /** A wetter probe (lower voltage) never reads as drier. */
  lemma MoistureMonotone(v1: int, v2: int)
    requires v1 <= v2
    ensures MoistureOf(v1) >= MoistureOf(v2)
  {
  }

  /** The voltage conversion is monotone: a larger ADC code never gives a lower voltage. */
  lemma VoltageMonotone(a1: int16, a2: int16)
    requires a1 <= a2
    ensures VoltageOf(a1) <= VoltageOf(a2)
  {
  }

  /** The whole conversion chain is monotone: a larger ADC code never gives a higher moisture. */
  lemma MoistureOfCodeMonotone(a1: int16, a2: int16)
    requires a1 <= a2
    ensures MoistureOf(VoltageOf(a1)) >= MoistureOf(VoltageOf(a2))
  {
    VoltageMonotone(a1, a2);
    MoistureMonotone(VoltageOf(a1), VoltageOf(a2));
  }

  /** A negative conversion code (a probe output below ground) is reported as fully wet. */
  lemma NegativeCodeReadsWet(hi: byte, lo: byte)
    requires hi >= 0x80
    ensures MoistureOf(VoltageOf(AdcOf(hi, lo))) == 100
  {
  }

  /** A TSCH log entry as far as the drift hook looks at it. */
  datatype TschLog =
    | TxLog(driftUsed: bool, drift: int32)
    | RxLog(driftUsed: bool, drift: int32)
    | OtherLog

  /** The node's statics (the values the packet is filled from, and the packet itself). */
  class Node {
    const nodeId: uint16
    var optValue: int32
    var tempValue: int32
    var humidValue: int32
    var adcValue: int16
    var voltageMv: int32
    var moisturePercentage: int32
    var status: bool
    var rxDrift: int32
    var txDrift: int32
    /** The static `pkt`, in host byte order; its memory image is `Encode(pkt)`. */
    var pkt: Packet
    /** The UDP payloads handed to simple_udp_sendto, oldest first. */
    var sent: seq<seq<byte>>

    /** The moisture global always holds a percentage. */
    ghost predicate Valid()
      reads this
    {
      0 <= moisturePercentage <= 100 && -FullScaleMv <= voltageMv <= FullScaleMv
    }

    /** Statics start zeroed; nothing has been sent. */
    constructor(id: uint16)
      ensures Valid()
      ensures nodeId == id && optValue == 0 && tempValue == 0 && humidValue == 0
      ensures adcValue == 0 && voltageMv == 0 && moisturePercentage == 0 && !status
      ensures rxDrift == 0 && txDrift == 0 && pkt == Packet(0, 0, 0, 0, 0, 0, 0) && sent == []
    {
      nodeId := id;
      optValue, tempValue, humidValue := 0, 0, 0;
      adcValue, voltageMv, moisturePercentage, status := 0, 0, 0, false;
      rxDrift, txDrift := 0, 0;
      pkt := Packet(0, 0, 0, 0, 0, 0, 0);
      sent := [];
    }

    /** The OPT3001 event: the light value is stored for the next packet. */
    method GetLightReading(value: int32)
      modifies this
      ensures optValue == value
      ensures tempValue == old(tempValue) && humidValue == old(humidValue)
      ensures adcValue == old(adcValue) && status == old(status) && pkt == old(pkt)
      ensures moisturePercentage == old(moisturePercentage) && voltageMv == old(voltageMv)
      ensures rxDrift == old(rxDrift) && txDrift == old(txDrift) && sent == old(sent)
    {
      optValue := value;
    }

    /** The HDC1000 event: temperature and air humidity are stored for the next packet. */
    method GetHdcReading(temperature: int32, humidity: int32)
      modifies this
      ensures tempValue == temperature && humidValue == humidity
      ensures optValue == old(optValue)
      ensures adcValue == old(adcValue) && status == old(status) && pkt == old(pkt)
      ensures moisturePercentage == old(moisturePercentage) && voltageMv == old(voltageMv)
      ensures rxDrift == old(rxDrift) && txDrift == old(txDrift) && sent == old(sent)
    {
      tempValue, humidValue := temperature, humidity;
    }

    /**
     * dfrobot_sensor: write the configuration, then read the conversion register. `configOk` and
     * `readOk` are the two I2C_transfer results and `hi`, `lo` the bytes the read leaves in
     * read_buf. Either failure returns early and leaves the ADC, voltage and moisture globals as
     * they were; `status` always holds the last transfer's result.
     */
    method DfrobotSensor(configOk: bool, readOk: bool, hi: byte, lo: byte)
      requires Valid()
      modifies this
      ensures Valid()
      ensures status == (configOk && readOk)
      ensures configOk && readOk ==>
                adcValue == AdcOf(hi, lo) && voltageMv == VoltageOf(adcValue)
                && moisturePercentage == MoistureOf(voltageMv)
      ensures !(configOk && readOk) ==>
                adcValue == old(adcValue) && voltageMv == old(voltageMv)
                && moisturePercentage == old(moisturePercentage)
      ensures optValue == old(optValue) && tempValue == old(tempValue)
      ensures humidValue == old(humidValue) && rxDrift == old(rxDrift) && txDrift == old(txDrift)
      ensures pkt == old(pkt) && sent == old(sent)
    {
      status := configOk;
      if !status {
        return;
      }
      status := readOk;
      if !status {
        return;
      }
      adcValue := AdcOf(hi, lo);
      voltageMv := VoltageOf(adcValue);
      if voltageMv >= DryVoltageMv {
        moisturePercentage := 0;
      } else if voltageMv <= WetVoltageMv {
        moisturePercentage := 100;
      } else {
        moisturePercentage := TruncDiv((DryVoltageMv - voltageMv) * 100, VoltageRangeMv);
      }
    }

    /**
     * send_drift_if_tx: a TX entry that used drift latches it into `tx_drift`, an RX entry that
     * used drift into `rx_drift`, and only while the node is reachable and knows the root.
     */
    method SendDriftIfTx(log: TschLog, reachable: bool, hasRoot: bool)
      modifies this
      ensures log.TxLog? && log.driftUsed && reachable && hasRoot ==> txDrift == log.drift
      ensures log.RxLog? && log.driftUsed && reachable && hasRoot ==> rxDrift == log.drift
      ensures !(log.TxLog? && log.driftUsed && reachable && hasRoot) ==> txDrift == old(txDrift)
      ensures !(log.RxLog? && log.driftUsed && reachable && hasRoot) ==> rxDrift == old(rxDrift)
      ensures optValue == old(optValue) && tempValue == old(tempValue)
      ensures humidValue == old(humidValue) && adcValue == old(adcValue)
      ensures voltageMv == old(voltageMv) && moisturePercentage == old(moisturePercentage)
      ensures status == old(status) && pkt == old(pkt) && sent == old(sent)
    {
      if log.TxLog? && log.driftUsed {
        if reachable && hasRoot {
          txDrift := log.drift;
        }
      } else if log.RxLog? && log.driftUsed {
        if reachable && hasRoot {
          rxDrift := log.drift;
        }
      }
    }

    /**
     * The packet fill of the sensor-timer branch: every global is cast to its field's declared
     * width, field by field, and stored in network byte order.
     */
    method FillPacket()
      modifies this
      ensures pkt == FromNodeGlobals(nodeId, optValue, tempValue, humidValue,
                                     moisturePercentage, rxDrift, txDrift)
      ensures optValue == old(optValue) && tempValue == old(tempValue)
      ensures humidValue == old(humidValue) && adcValue == old(adcValue)
      ensures voltageMv == old(voltageMv) && moisturePercentage == old(moisturePercentage)
      ensures status == old(status) && rxDrift == old(rxDrift) && txDrift == old(txDrift)
      ensures sent == old(sent)
    {
      pkt := pkt.(nodeId := nodeId);
      pkt := pkt.(light := ToU16(optValue));
      pkt := pkt.(temperature := ToS16(tempValue));
      pkt := pkt.(humidityAir := ToU16(humidValue));
      pkt := pkt.(humidityGround := ToU32(moisturePercentage));
      pkt := pkt.(rxDrift := ToS16(rxDrift));
      pkt := pkt.(txDrift := ToS16(txDrift));
    }

    /** send_data: the packet's 16 bytes go out only if the node is reachable and knows the root. */
    method SendData(reachable: bool, hasRoot: bool)
      modifies this
      ensures sent == old(sent) + (if reachable && hasRoot then [Encode(pkt)] else [])
      ensures optValue == old(optValue) && tempValue == old(tempValue)
      ensures humidValue == old(humidValue) && adcValue == old(adcValue)
      ensures voltageMv == old(voltageMv) && moisturePercentage == old(moisturePercentage)
      ensures status == old(status) && rxDrift == old(rxDrift) && txDrift == old(txDrift)
      ensures pkt == old(pkt)
    {
      if reachable && hasRoot {
        sent := sent + [Encode(pkt)];
      }
    }

    /**
     * The sensor-timer branch of the process: sample the soil probe, fill the packet from the
     * globals as they now are, and send it if the network is ready.
     */
    method OnSensorTimer(configOk: bool, readOk: bool, hi: byte, lo: byte,
                         reachable: bool, hasRoot: bool)
      requires Valid()
      modifies this
      ensures Valid()
      ensures status == (configOk && readOk)
      ensures configOk && readOk ==>
                adcValue == AdcOf(hi, lo) && voltageMv == VoltageOf(adcValue)
                && moisturePercentage == MoistureOf(voltageMv)
      ensures !(configOk && readOk) ==>
                adcValue == old(adcValue) && voltageMv == old(voltageMv)
                && moisturePercentage == old(moisturePercentage)
      ensures optValue == old(optValue) && tempValue == old(tempValue) && humidValue == old(humidValue)
      ensures rxDrift == old(rxDrift) && txDrift == old(txDrift)
      ensures pkt == FromNodeGlobals(nodeId, old(optValue), old(tempValue), old(humidValue),
                                     moisturePercentage, old(rxDrift), old(txDrift))
      ensures pkt.humidityGround == moisturePercentage
      ensures sent == old(sent) + (if reachable && hasRoot then [Encode(pkt)] else [])
    {
      DfrobotSensor(configOk, readOk, hi, lo);
      FillPacket();
      SendData(reachable, hasRoot);
    }
  }
}
