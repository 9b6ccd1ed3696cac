/**
 * The coordinator's UDP receive callback: size check, conversion from network byte order, and the
 * one text line it prints on the serial console for the gateway to read.
 */
module Coordinator {
  import opened Wrappers
  import opened CInt
  import opened Decimal
  import opened SensorPacket

  function Abs(v: int): nat {
    if v < 0 then -v else v
  }

  /**
   * `%d.%02d` of `v/100` and `v%100` as the callback prints light, temperature and air humidity.
   * Both C operators truncate toward zero, so for a negative v both parts carry the sign.
   */
  function FormatCentiAsWritten(v: int): (r: string)
    ensures |r| > 0 && (r[0] == '-' <==> v <= -100)
  {
    IntToString(TruncDiv(v, 100)) + "." + Pad2(TruncMod(v, 100))
  }

  /** The fixed-point text the callback evidently means: the sign once, then |v|/100 "." |v|%100. */
  function FormatCenti(v: int): string {
    (if v < 0 then "-" else "") + NatToString(Abs(v) / 100) + "." + Pad2(Abs(v) % 100)
  }

  /** Splitting a into hundreds and a two-digit remainder loses nothing. */
  lemma CentiSplit(a: nat)
    ensures (a / 100) as real + (a % 100) as real / 100.0 == a as real / 100.0
  {
    assert a == 100 * (a / 100) + a % 100;
  }

  /** Digits, a point and two digits read back as the value they spell in hundredths. */
  lemma FixedPointCenti(w: string, f: string, a: nat)
    requires |w| > 0 && AllDigits(w) && |f| == 2 && AllDigits(f)
    requires DigitsValue(w) == a / 100 && DigitsValue(f) == a % 100
    ensures UnsignedDecimal(w + "." + f) == Some(a as real / 100.0)
  {
    UnsignedDecimalOfFixedPoint(w, f);
    FixedPointHundredths(w, f, a);
  }

  /** The value of digits and a two-digit fraction is the number of hundredths they spell, over 100. */
  lemma FixedPointHundredths(w: string, f: string, a: nat)
    requires AllDigits(w) && |f| == 2 && AllDigits(f)
    requires DigitsValue(w) == a / 100 && DigitsValue(f) == a % 100
    ensures FixedPointValue(w, f) == a as real / 100.0
  {
    assert Pow10(|f|) == 100;
    CentiSplit(a);
  }

  lemma UnsignedCentiReadsBack(a: nat)
    ensures UnsignedDecimal(NatToString(a / 100) + "." + Pad2(a % 100)) == Some(a as real / 100.0)
  {
    FixedPointCenti(NatToString(a / 100), Pad2(a % 100), a);
  }

  /** The corrected text reads back, through Python's float(), as exactly v/100. */
  lemma FormatCentiReadsBack(v: int)
    ensures PyFloat(FormatCenti(v)) == Some(v as real / 100.0)
  {
    if v < 0 {
      ReadsBackNegative(v);
    } else {
      ReadsBackNonNegative(v);
    }
  }

  lemma ReadsBackNegative(v: int)
    requires v < 0
    ensures PyFloat(FormatCenti(v)) == Some(v as real / 100.0)
  {
    var a := Abs(v);
    var t := NatToString(a / 100) + "." + Pad2(a % 100);
    UnsignedCentiReadsBack(a);
    FormatCentiShape(v);
    PyFloatOfNegative(t);
    assert PyFloat(FormatCenti(v)) == Some(-(a as real / 100.0));
    assert -(a as real / 100.0) == v as real / 100.0;
  }

  lemma ReadsBackNonNegative(v: int)
    requires v >= 0
    ensures PyFloat(FormatCenti(v)) == Some(v as real / 100.0)
  {
    var t := NatToString(v / 100) + "." + Pad2(v % 100);
    UnsignedCentiReadsBack(v);
    FormatCentiShape(v);
    PyFloatOfUnsigned(t);
  }

  lemma FormatCentiShape(v: int)
    ensures var t := NatToString(Abs(v) / 100) + "." + Pad2(Abs(v) % 100);
            FormatCenti(v) == if v < 0 then "-" + t else t
  {
  }

  lemma PyFloatOfUnsigned(t: string)
    requires |t| > 0 && IsDigit(t[0])
    ensures PyFloat(t) == UnsignedDecimal(t)
  {
  }

  lemma PyFloatOfNegative(t: string)
    ensures PyFloat("-" + t) == match UnsignedDecimal(t) case None => None case Some(x) => Some(-x)
  {
    assert ("-" + t)[1..] == t;
  }

  /** For v >= 0 the corrected text is exactly what the callback prints. */
  lemma FormatCentiAgreesWhenNonNegative(v: int)
    requires v >= 0
    ensures FormatCenti(v) == FormatCentiAsWritten(v)
  {
  }

  /**
   * The callback's own text reads back as v/100 exactly when v >= 0 or v is a whole number of
   * units; any other negative value puts a `-` after the point, which float() rejects.
   */
  lemma FormatCentiAsWrittenReadsBackIff(v: int)
    ensures PyFloat(FormatCentiAsWritten(v)) == Some(v as real / 100.0)
            <==> v >= 0 || TruncMod(v, 100) == 0
  {
    var q, m := TruncDiv(v, 100), TruncMod(v, 100);
    var s := FormatCentiAsWritten(v);
    if v >= 0 {
      FormatCentiAgreesWhenNonNegative(v);
      FormatCentiReadsBack(v);
    } else if m == 0 {
      assert s == FormatCenti(v) by {
        assert Abs(v) / 100 == -q && Abs(v) % 100 == 0;
      }
      FormatCentiReadsBack(v);
    } else {
      AsWrittenRejectedWhenFractionNegative(v);
    }
  }

  /** A fraction part that starts with `-` is not digits, so the text after the sign is rejected. */
  lemma UnsignedRejectsSignedFraction(d: string, f: string)
    requires AllDigits(d) && |f| > 0 && f[0] == '-'
    ensures UnsignedDecimal(d + "." + f) == None
  {
    var s := d + "." + f;
    IndexOfPastDigits(d, f);
    assert s[|d| + 1..] == f;
    assert !AllDigits(f) by { assert !IsDigit(f[0]); }
  }

  /** float() of digits, a point and a fraction that starts with `-`, with or without a leading `-`. */
  lemma PyFloatRejectsSignedFraction(neg: bool, d: string, f: string)
    requires |d| > 0 && AllDigits(d) && |f| > 0 && f[0] == '-'
    ensures PyFloat((if neg then "-" else "") + (d + "." + f)) == None
  {
    var t := d + "." + f;
    UnsignedRejectsSignedFraction(d, f);
    if neg {
      var s := "-" + t;
      assert s[0] == '-' && s[1..] == t;
      assert UnsignedDecimal(s[1..]) == None;
    } else {
      assert t[0] == d[0] && IsDigit(d[0]);
      assert ("" + t) == t;
      assert '0' <= t[0] <= '9';
      assert t[0] != '-' && t[0] != '+';
      assert !IsSign(t[0]);
    }
  }

  /** The as-written text: the sign (only when the whole part is nonzero), the digits, the fraction. */
  lemma AsWrittenShape(v: int)
    requires v < 0
    ensures var q := TruncDiv(v, 100);
            FormatCentiAsWritten(v)
            == (if q < 0 then "-" else "") + (NatToString(Abs(q)) + "." + Pad2(TruncMod(v, 100)))
  {
  }

  lemma AsWrittenRejectedWhenFractionNegative(v: int)
    requires v < 0 && TruncMod(v, 100) != 0
    ensures PyFloat(FormatCentiAsWritten(v)) == None
  {
    var q, m := TruncDiv(v, 100), TruncMod(v, 100);
    AsWrittenShape(v);
    PyFloatRejectsSignedFraction(q < 0, NatToString(Abs(q)), Pad2(m));
  }

  /** The counterexample: -2.50 degrees is printed as `-2.-50`, which float() rejects. */
  lemma NegativeTemperatureGarbled()
    ensures FormatCentiAsWritten(-250) == "-2.-50"
    ensures PyFloat(FormatCentiAsWritten(-250)) == None
    ensures FormatCenti(-250) == "-2.50"
  {
    AsWrittenRejectedWhenFractionNegative(-250);
  }

  /**
   * The line the callback prints for a decoded packet, with the fixed-point fields in the
   * corrected form (identical to the printed text whenever they are non-negative). `%ld` of the
   * uint32_t humidity_ground shows it as a signed 32-bit long.
   */
  function FormatLine(p: Packet): string {
    "Node " + IntToString(p.nodeId)
    + ": Light=" + FormatCenti(p.light)
    + ", Temp=" + FormatCenti(p.temperature)
    + ", Humid_air=" + FormatCenti(p.humidityAir)
    + ", Humid_ground=" + IntToString(ToS32(p.humidityGround))
    + "%, RX_drift=" + IntToString(p.rxDrift)
    + ", TX_drift=" + IntToString(p.txDrift) + "\n"
  }

  /** The line exactly as the callback's printf writes it, with the truncating `%d.%02d` fields. */
  function FormatLineAsWritten(p: Packet): (r: string)
    ensures |r| > 0 && r[|r| - 1] == '\n'
  {
    "Node " + IntToString(p.nodeId)
    + ": Light=" + FormatCentiAsWritten(p.light)
    + ", Temp=" + FormatCentiAsWritten(p.temperature)
    + ", Humid_air=" + FormatCentiAsWritten(p.humidityAir)
    + ", Humid_ground=" + IntToString(ToS32(p.humidityGround))
    + "%, RX_drift=" + IntToString(p.rxDrift)
    + ", TX_drift=" + IntToString(p.txDrift) + "\n"
  }

  function InvalidSizeMessage(len: nat): string {
    "Invalid packet size received: " + IntToString(len) + " bytes\n"
  }

  /** The printed line and the corrected one differ only when the temperature is negative. */
  lemma FormatLineAgreesWhenNonNegative(p: Packet)
    requires p.temperature >= 0
    ensures FormatLineAsWritten(p) == FormatLine(p)
  {
    FormatCentiAgreesWhenNonNegative(p.light);
    FormatCentiAgreesWhenNonNegative(p.temperature);
    FormatCentiAgreesWhenNonNegative(p.humidityAir);
  }

  /** What the callback prints for one UDP payload, as written. */
  function UdpRxCallback(data: seq<byte>): (out: string)
    ensures |data| == PacketSize ==> out == FormatLineAsWritten(Decode(data).value)
    ensures |data| != PacketSize ==> out == InvalidSizeMessage(|data|)
  {
    match Decode(data)
    case Some(p) => FormatLineAsWritten(p)
    case None => InvalidSizeMessage(|data|)
  }

  /** The callback with the sign printed once, as the fixed-point fields were evidently meant. */
  function UdpRxCallbackCorrected(data: seq<byte>): (out: string)
    ensures |data| == PacketSize ==> out == FormatLine(Decode(data).value)
    ensures |data| != PacketSize ==> out == InvalidSizeMessage(|data|)
    ensures |data| == PacketSize && Decode(data).value.temperature >= 0 ==> out == UdpRxCallback(data)
  {
    match Decode(data)
    case Some(p) =>
      if p.temperature >= 0 then FormatLineAgreesWhenNonNegative(p); FormatLine(p) else FormatLine(p)
    case None => InvalidSizeMessage(|data|)
  }
}
