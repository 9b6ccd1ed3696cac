/**
 * The sensor-data path across its components: the node's packet, the coordinator's decode and
 * printed line, the gateway's parse of that line, and the collector's handling of what the gateway
 * posts.
 */
module EndToEnd {
  import opened Wrappers
  import opened CInt
  import opened Decimal
  import opened SensorPacket
  import opened LineParser
  import opened JsonValue
  import Coordinator
  import Gateway
  import Collector

  /** The whitespace runs of the coordinator's line: one space before each field. */
  const SingleSpaces: seq<string> := [" ", " ", " ", " ", " ", " ", " "]

  /** The seven pieces of the coordinator's line that the gateway's pattern captures. */
  function LineGroups(p: Packet): (g: seq<string>)
    ensures |g| == Fields
  {
    [IntToString(p.nodeId), Coordinator.FormatCenti(p.light), Coordinator.FormatCenti(p.temperature),
     Coordinator.FormatCenti(p.humidityAir), IntToString(ToS32(p.humidityGround)),
     IntToString(p.rxDrift), IntToString(p.txDrift)]
  }

  /** LayoutFrom on the slots from j on: field j, then the slots after it. */
  lemma LayoutFromAt(p: seq<Slot>, spaces: seq<string>, groups: seq<string>, tail: string, j: nat)
    requires |spaces| == |p| && |groups| == |p| && j < |p|
    ensures LayoutFrom(p[j..], spaces[j..], groups[j..], tail)
            == spaces[j] + p[j].key + groups[j] + p[j].close
               + LayoutFrom(p[j + 1..], spaces[j + 1..], groups[j + 1..], tail)
  {
    assert p[j..][1..] == p[j + 1..];
    assert spaces[j..][1..] == spaces[j + 1..];
    assert groups[j..][1..] == groups[j + 1..];
  }

  /** The text of a line with the coordinator's punctuation and the given seven fields. */
  function LineText(g: seq<string>): string
    requires |g| == Fields
  {
    "Node " + g[0] + ": Light=" + g[1] + ", Temp=" + g[2] + ", Humid_air=" + g[3]
    + ", Humid_ground=" + g[4] + "%, RX_drift=" + g[5] + ", TX_drift=" + g[6]
  }

  /**
   * Moving one field of the pattern's right-nested layout onto a left-nested prefix: the literal
   * before it, its run and its key join the prefix as one literal, then its group, and its closing
   * literal starts the rest.
   */
  lemma Shift(a: string, c: string, s: string, k: string, lit: string, g: string, d: string, l: string)
    requires (c + s) + k == lit
    ensures a + (c + ((((s + k) + g) + d) + l)) == ((a + lit) + g) + (d + l)
  {
  }

  /** Each literal of the coordinator's format is the pattern's literals with one space between. */
  lemma FormatLiterals()
    ensures ("Node" + " ") + "" == "Node "
    ensures (":" + " ") + "Light=" == ": Light="
    ensures ("," + " ") + "Temp=" == ", Temp="
    ensures ("," + " ") + "Humid_air=" == ", Humid_air="
    ensures ("," + " ") + "Humid_ground=" == ", Humid_ground="
    ensures ("%," + " ") + "RX_drift=" == "%, RX_drift="
    ensures ("," + " ") + "TX_drift=" == ", TX_drift="
  {
  }

  /** The right-nested fields of the pattern, joined with single spaces, are the coordinator's text. */
  lemma Regroup(g0: string, g1: string, g2: string, g3: string, g4: string, g5: string, g6: string,
                l0: string, l1: string, l2: string, l3: string, l4: string, l5: string, l6: string)
    requires l6 == " " + "TX_drift=" + g6 + "" + []
    requires l5 == " " + "RX_drift=" + g5 + "," + l6
    requires l4 == " " + "Humid_ground=" + g4 + "%," + l5
    requires l3 == " " + "Humid_air=" + g3 + "," + l4
    requires l2 == " " + "Temp=" + g2 + "," + l3
    requires l1 == " " + "Light=" + g1 + "," + l2
    requires l0 == " " + "" + g0 + ":" + l1
    ensures "Node" + l0
            == "Node " + g0 + ": Light=" + g1 + ", Temp=" + g2 + ", Humid_air=" + g3
               + ", Humid_ground=" + g4 + "%, RX_drift=" + g5 + ", TX_drift=" + g6
  {
    FormatLiterals();
    var a0 := "";
    Shift(a0, "Node", " ", "", "Node ", g0, ":", l1);
    var a1 := (a0 + "Node ") + g0;
    Shift(a1, ":", " ", "Light=", ": Light=", g1, ",", l2);
    var a2 := (a1 + ": Light=") + g1;
    Shift(a2, ",", " ", "Temp=", ", Temp=", g2, ",", l3);
    var a3 := (a2 + ", Temp=") + g2;
    Shift(a3, ",", " ", "Humid_air=", ", Humid_air=", g3, ",", l4);
    var a4 := (a3 + ", Humid_air=") + g3;
    Shift(a4, ",", " ", "Humid_ground=", ", Humid_ground=", g4, "%,", l5);
    var a5 := (a4 + ", Humid_ground=") + g4;
    Shift(a5, "%,", " ", "RX_drift=", "%, RX_drift=", g5, ",", l6);
    var a6 := (a5 + "%, RX_drift=") + g5;
    Shift(a6, ",", " ", "TX_drift=", ", TX_drift=", g6, "", []);
    var a7 := (a6 + ", TX_drift=") + g6;
    assert "Node" + l0 == a0 + ("Node" + l0);
    assert a7 + ("" + []) == a7;
    assert a1 == "Node " + g0;
    calc {
      "Node" + l0;
      a1 + (":" + l1);
      a2 + ("," + l2);
      a3 + ("," + l3);
      a4 + ("," + l4);
      a5 + ("%," + l5);
      a6 + ("," + l6);
      a7;
    }
  }

  /** The keys and closing literals of the pattern's seven slots. */
  lemma PatternLiterals()
    ensures Pattern[0].key == "" && Pattern[0].close == ":"
    ensures Pattern[1].key == "Light=" && Pattern[1].close == ","
    ensures Pattern[2].key == "Temp=" && Pattern[2].close == ","
    ensures Pattern[3].key == "Humid_air=" && Pattern[3].close == ","
    ensures Pattern[4].key == "Humid_ground=" && Pattern[4].close == "%,"
    ensures Pattern[5].key == "RX_drift=" && Pattern[5].close == ","
    ensures Pattern[6].key == "TX_drift=" && Pattern[6].close == ""
  {
  }

  /** Field j of the pattern laid out with a single space before its key. */
  lemma SingleSpaceField(g: seq<string>, j: nat, key: string, close: string)
    requires |g| == Fields && j < Fields && Pattern[j].key == key && Pattern[j].close == close
    ensures LayoutFrom(Pattern[j..], SingleSpaces[j..], g[j..], [])
            == " " + key + g[j] + close + LayoutFrom(Pattern[j + 1..], SingleSpaces[j + 1..], g[j + 1..], [])
  {
    LayoutFromAt(Pattern, SingleSpaces, g, [], j);
  }

  /** Single spaces and the coordinator's punctuation lay out the pattern. */
  lemma LineTextIsLayout(g: seq<string>)
    requires |g| == Fields
    ensures Layout(Match(SingleSpaces, g, [])) == LineText(g)
  {
    var p, sp := Pattern, SingleSpaces;
    assert p[0..] == p && sp[0..] == sp && g[0..] == g;
    assert LayoutFrom(p[7..], sp[7..], g[7..], []) == [];
    PatternLiterals();
    SingleSpaceField(g, 0, "", ":");
    SingleSpaceField(g, 1, "Light=", ",");
    SingleSpaceField(g, 2, "Temp=", ",");
    SingleSpaceField(g, 3, "Humid_air=", ",");
    SingleSpaceField(g, 4, "Humid_ground=", "%,");
    SingleSpaceField(g, 5, "RX_drift=", ",");
    SingleSpaceField(g, 6, "TX_drift=", "");
    Regroup(g[0], g[1], g[2], g[3], g[4], g[5], g[6],
            LayoutFrom(p, sp, g, []),
            LayoutFrom(p[1..], sp[1..], g[1..], []),
            LayoutFrom(p[2..], sp[2..], g[2..], []),
            LayoutFrom(p[3..], sp[3..], g[3..], []),
            LayoutFrom(p[4..], sp[4..], g[4..], []),
            LayoutFrom(p[5..], sp[5..], g[5..], []),
            LayoutFrom(p[6..], sp[6..], g[6..], []));
  }

  /** Digits belong to each of the pattern's three classes. */
  lemma DigitsInEveryClass(s: string)
    requires AllDigits(s)
    ensures AllInClass(s, Digits) && AllInClass(s, DigitsPoint) && AllInClass(s, DigitsMinus)
  {
  }

  /** The corrected fixed-point text of a non-negative value is a `[0-9.]+` group. */
  lemma CentiInPointClass(v: int)
    requires v >= 0
    ensures |Coordinator.FormatCenti(v)| > 0 && AllInClass(Coordinator.FormatCenti(v), DigitsPoint)
  {
    var w, f := NatToString(v / 100), Pad2(v % 100);
    assert Coordinator.FormatCenti(v) == "" + w + "." + f;
    DigitsInEveryClass(w);
    DigitsInEveryClass(f);
  }

  /** `%d` of any value is a `[0-9-]+` group. */
  lemma SignedInMinusClass(i: int)
    ensures |IntToString(i)| > 0 && AllInClass(IntToString(i), DigitsMinus)
  {
    if i < 0 {
      DigitsInEveryClass(NatToString(-i));
    } else {
      DigitsInEveryClass(NatToString(i));
    }
  }

  /** The gateway's numbers for a packet: the fixed-point fields scaled by 1/100, the rest as is. */
  function ReadingOf(p: Packet): Reading {
    Reading(p.nodeId, p.light as real / 100.0, p.temperature as real / 100.0,
            p.humidityAir as real / 100.0, p.humidityGround, p.rxDrift, p.txDrift)
  }

  /** Seven groups that each fit their slot, set out with single spaces, form a well-formed match. */
  lemma GroupsWellFormed(g: seq<string>)
    requires |g| == Fields && forall j | 0 <= j < Fields :: |g[j]| > 0
    requires AllInClass(g[0], Digits) && AllInClass(g[1], DigitsPoint) && AllInClass(g[2], DigitsPoint)
    requires AllInClass(g[3], DigitsPoint) && AllInClass(g[4], Digits)
    requires AllInClass(g[5], DigitsMinus) && AllInClass(g[6], DigitsMinus)
    ensures WellFormed(Match(SingleSpaces, g, []))
  {
    var m := Match(SingleSpaces, g, []);
    forall j | 0 <= j < Fields
      ensures |m.spaces[j]| > 0 && AllSpace(m.spaces[j])
      ensures |m.groups[j]| > 0 && AllInClass(m.groups[j], Pattern[j].kind)
    {
      assert m.spaces[j] == " ";
    }
    WellFormedFromEach(Pattern, m);
  }

  /** A line laid out from well-formed groups, ended by a newline, parses to their conversion. */
  lemma LineTextParses(g: seq<string>)
    requires |g| == Fields && WellFormed(Match(SingleSpaces, g, []))
    ensures Parse(LineText(g) + "\n") == Convert(g)
  {
    var m := Match(SingleSpaces, g, []);
    LineTextIsLayout(g);
    assert LineText(g) + "\n" == "" + Layout(m) + "\n";
    ParseOfLayout(m, "", "\n");
  }

  /** Seven groups, each in its slot's class, set out with single spaces form a well-formed match. */
  lemma SevenGroupsWellFormed(g0: string, g1: string, g2: string, g3: string, g4: string,
                              g5: string, g6: string)
    requires |g0| > 0 && |g1| > 0 && |g2| > 0 && |g3| > 0 && |g4| > 0 && |g5| > 0 && |g6| > 0
    requires AllInClass(g0, Digits) && AllInClass(g1, DigitsPoint) && AllInClass(g2, DigitsPoint)
    requires AllInClass(g3, DigitsPoint) && AllInClass(g4, Digits)
    requires AllInClass(g5, DigitsMinus) && AllInClass(g6, DigitsMinus)
    ensures WellFormed(Match(SingleSpaces, [g0, g1, g2, g3, g4, g5, g6], []))
  {
    var g := [g0, g1, g2, g3, g4, g5, g6];
    assert g[0] == g0 && g[1] == g1 && g[2] == g2 && g[3] == g3;
    assert g[4] == g4 && g[5] == g5 && g[6] == g6;
    GroupsWellFormed(g);
  }

  /** The groups printed for non-negative values (the drifts of any sign) form a well-formed match. */
  lemma ValueGroupsWellFormed(n: nat, l: nat, t: nat, ha: nat, hg: nat, rx: int, tx: int)
    ensures WellFormed(Match(SingleSpaces, [IntToString(n), Coordinator.FormatCenti(l),
                                            Coordinator.FormatCenti(t), Coordinator.FormatCenti(ha),
                                            IntToString(hg), IntToString(rx), IntToString(tx)], []))
  {
    DigitsInEveryClass(NatToString(n));
    CentiInPointClass(l);
    CentiInPointClass(t);
    CentiInPointClass(ha);
    DigitsInEveryClass(NatToString(hg));
    SignedInMinusClass(rx);
    SignedInMinusClass(tx);
    SevenGroupsWellFormed(IntToString(n), Coordinator.FormatCenti(l), Coordinator.FormatCenti(t),
                          Coordinator.FormatCenti(ha), IntToString(hg), IntToString(rx),
                          IntToString(tx));
  }

  /**
   * With a non-negative temperature (and humidity_ground within the signed range `%ld` shows as
   * is) the coordinator's groups fit the gateway's pattern.
   */
  lemma LineGroupsWellFormed(p: Packet)
    requires p.temperature >= 0 && p.humidityGround < 0x8000_0000
    ensures WellFormed(Match(SingleSpaces, LineGroups(p), []))
  {
    ValueGroupsWellFormed(p.nodeId, p.light, p.temperature, p.humidityAir, p.humidityGround,
                          p.rxDrift, p.txDrift);
  }

  /** Each group printed for a value converts back to that value. */
  lemma ValueGroupsRead(n: int, l: int, t: int, ha: int, hg: int, rx: int, tx: int)
    ensures PyInt(IntToString(n)) == Some(n) && PyInt(IntToString(hg)) == Some(hg)
    ensures PyInt(IntToString(rx)) == Some(rx) && PyInt(IntToString(tx)) == Some(tx)
    ensures PyFloat(Coordinator.FormatCenti(l)) == Some(l as real / 100.0)
    ensures PyFloat(Coordinator.FormatCenti(t)) == Some(t as real / 100.0)
    ensures PyFloat(Coordinator.FormatCenti(ha)) == Some(ha as real / 100.0)
  {
    PyIntOfIntToString(n);
    PyIntOfIntToString(hg);
    PyIntOfIntToString(rx);
    PyIntOfIntToString(tx);
    Coordinator.FormatCentiReadsBack(l);
    Coordinator.FormatCentiReadsBack(t);
    Coordinator.FormatCentiReadsBack(ha);
  }

  /** int() and float() of the groups printed for any values give back those values. */
  lemma ValueGroupsConvert(n: int, l: int, t: int, ha: int, hg: int, rx: int, tx: int)
    ensures ConvertFields(IntToString(n), Coordinator.FormatCenti(l), Coordinator.FormatCenti(t),
                          Coordinator.FormatCenti(ha), IntToString(hg), IntToString(rx),
                          IntToString(tx))
            == Some(Reading(n, l as real / 100.0, t as real / 100.0, ha as real / 100.0, hg, rx, tx))
  {
    ValueGroupsRead(n, l, t, ha, hg, rx, tx);
    var g0, g1, g2, g3, g4, g5, g6 := IntToString(n), Coordinator.FormatCenti(l),
      Coordinator.FormatCenti(t), Coordinator.FormatCenti(ha), IntToString(hg), IntToString(rx),
      IntToString(tx);
    assert !(PyInt(g0).None? || PyFloat(g1).None? || PyFloat(g2).None? || PyFloat(g3).None?
             || PyInt(g4).None? || PyInt(g5).None? || PyInt(g6).None?);
    assert ConvertFields(g0, g1, g2, g3, g4, g5, g6)
           == Some(Reading(PyInt(g0).value, PyFloat(g1).value, PyFloat(g2).value,
                           PyFloat(g3).value, PyInt(g4).value, PyInt(g5).value, PyInt(g6).value));
    assert PyFloat(g1).value == l as real / 100.0;
    assert PyFloat(g2).value == t as real / 100.0;
    assert PyFloat(g3).value == ha as real / 100.0;
    assert PyInt(g0).value == n && PyInt(g4).value == hg;
    assert PyInt(g5).value == rx && PyInt(g6).value == tx;
    assert Reading(PyInt(g0).value, PyFloat(g1).value, PyFloat(g2).value, PyFloat(g3).value,
                   PyInt(g4).value, PyInt(g5).value, PyInt(g6).value)
           == Reading(n, l as real / 100.0, t as real / 100.0, ha as real / 100.0, hg, rx, tx);
  }

  /** int() and float() of the coordinator's groups give back the packet's numbers. */
  lemma LineGroupsConvert(p: Packet)
    requires p.humidityGround < 0x8000_0000
    ensures Convert(LineGroups(p)) == Some(ReadingOf(p))
  {
    ValueGroupsConvert(p.nodeId, p.light, p.temperature, p.humidityAir, p.humidityGround,
                       p.rxDrift, p.txDrift);
    var g := LineGroups(p);
    assert Convert(g) == ConvertFields(g[0], g[1], g[2], g[3], g[4], g[5], g[6]);
    assert g[0] == IntToString(p.nodeId) && g[4] == IntToString(p.humidityGround);
    assert g[5] == IntToString(p.rxDrift) && g[6] == IntToString(p.txDrift);
    assert g[1] == Coordinator.FormatCenti(p.light);
    assert g[2] == Coordinator.FormatCenti(p.temperature);
    assert g[3] == Coordinator.FormatCenti(p.humidityAir);
    assert ReadingOf(p) == Reading(p.nodeId, p.light as real / 100.0, p.temperature as real / 100.0,
                                   p.humidityAir as real / 100.0, p.humidityGround, p.rxDrift,
                                   p.txDrift);
  }

  /**
   * Print, then parse: for a non-negative temperature the gateway reads from the coordinator's
   * line exactly the packet's values, the fixed-point ones scaled by 1/100.
   */
  lemma CoordinatorLineParses(p: Packet)
    requires p.temperature >= 0 && p.humidityGround < 0x8000_0000
    ensures Parse(Coordinator.FormatLine(p)) == Some(ReadingOf(p))
  {
    var g := LineGroups(p);
    assert Coordinator.FormatLine(p) == LineText(g) + "\n";
    LineGroupsWellFormed(p);
    LineTextParses(g);
    LineGroupsConvert(p);
  }

  /** The line as the coordinator prints it parses the same way: for a non-negative temperature it is the corrected one (FormatLineAgreesWhenNonNegative). */
  lemma PrintedLineParses(p: Packet)
    requires p.temperature >= 0 && p.humidityGround < 0x8000_0000
    ensures Parse(Coordinator.FormatLineAsWritten(p)) == Some(ReadingOf(p))
  {
    Coordinator.FormatLineAgreesWhenNonNegative(p);
    CoordinatorLineParses(p);
  }

  /**
   * Radio to serial to gateway: the 16 bytes of a packet with a non-negative temperature are
   * decoded by the coordinator, and the line it prints is parsed back into the packet's values.
   */
  lemma PacketReachesGateway(p: Packet)
    requires p.temperature >= 0 && p.humidityGround < 0x8000_0000
    ensures Parse(Coordinator.UdpRxCallback(Encode(p))) == Some(ReadingOf(p))
  {
    DecodeEncode(p);
    assert Coordinator.UdpRxCallback(Encode(p)) == Coordinator.FormatLineAsWritten(p);
    PrintedLineParses(p);
  }

  /** Radio to serial to gateway: the line printed for a packet with a negative temperature is dropped. */
  lemma NegativePacketDropped(p: Packet)
    requires p.temperature < 0
    ensures Parse(Coordinator.UdpRxCallback(Encode(p))) == None
  {
    DecodeEncode(p);
    assert Coordinator.UdpRxCallback(Encode(p)) == Coordinator.FormatLineAsWritten(p);
    AsWrittenNegativeTemperatureDropped(p);
  }

  /**
   * The numbers the gateway reads for the packet a node fills from its globals: each global cast
   * to its packet field's width, the fixed-point ones scaled by 1/100, and the soil moisture as the
   * percentage itself.
   */
  lemma NodeGlobalsReading(nodeId: uint16, optValue: int, tempValue: int, humidValue: int,
                           moisture: int, rxDrift: int, txDrift: int)
    requires 0 <= moisture <= 100
    ensures var p := FromNodeGlobals(nodeId, optValue, tempValue, humidValue, moisture, rxDrift, txDrift);
            && p.temperature == ToS16(tempValue) && p.humidityGround < 0x8000_0000
            && ReadingOf(p)
               == Reading(nodeId, ToU16(optValue) as real / 100.0, ToS16(tempValue) as real / 100.0,
                          ToU16(humidValue) as real / 100.0, moisture, ToS16(rxDrift), ToS16(txDrift))
  {
  }

  /**
   * Node to gateway: the packet the node fills from its globals reaches the gateway as the values
   * those globals held, each cast to its packet field's width, with the soil moisture as the
   * percentage itself.
   */
  lemma NodeReadingReachesGateway(nodeId: uint16, optValue: int, tempValue: int, humidValue: int,
                                  moisture: int, rxDrift: int, txDrift: int)
    requires 0 <= moisture <= 100 && ToS16(tempValue) >= 0
    ensures var p := FromNodeGlobals(nodeId, optValue, tempValue, humidValue, moisture, rxDrift, txDrift);
            Parse(Coordinator.UdpRxCallback(Encode(p)))
            == Some(Reading(nodeId, ToU16(optValue) as real / 100.0, ToS16(tempValue) as real / 100.0,
                            ToU16(humidValue) as real / 100.0, moisture, ToS16(rxDrift), ToS16(txDrift)))
  {
    NodeGlobalsReading(nodeId, optValue, tempValue, humidValue, moisture, rxDrift, txDrift);
    PacketReachesGateway(FromNodeGlobals(nodeId, optValue, tempValue, humidValue, moisture,
                                         rxDrift, txDrift));
  }

  /**
   * A line with the coordinator's punctuation whose Temp text holds a '-' (and no ',') does not
   * match the gateway's pattern: the `[0-9.]+` run stops at the '-', where the ',' is missing.
   */
  lemma MinusInTempRejected(g: seq<string>)
    requires |g| == Fields
    requires |g[0]| > 0 && AllInClass(g[0], Digits) && |g[1]| > 0 && AllInClass(g[1], DigitsPoint)
    requires '-' in g[2] && ',' !in g[2]
    ensures MatchLine(Layout(Match(SingleSpaces, g, []))) == None
  {
    var i :| 0 <= i < |g[2]| && g[2][i] == '-';
    var p := Pattern;
    var l0, l1, l2, l3 := LeadingLayout(g);
    FirstThreeFields(g[0], g[1], g[2], l1, l2, l3, i);
    PatternLiterals();
    assert p[0].kind == Digits && p[1].kind == DigitsPoint && p[2].kind == DigitsPoint;
    assert p[1..][0] == p[1] && p[1..][1..] == p[2..] && p[2..][0] == p[2];
    ScanFromFails(p[2..], l2);
    ScanFromFails(p[1..], l1);
    ScanFromFails(p, l0);
  }

  /** The single-space layout of a line, taken apart at its first three fields. */
  lemma LeadingLayout(g: seq<string>) returns (l0: string, l1: string, l2: string, l3: string)
    requires |g| == Fields
    ensures MatchLine(Layout(Match(SingleSpaces, g, []))) == ScanFrom(Pattern, l0)
    ensures l0 == " " + "" + g[0] + ":" + l1
    ensures l1 == " " + "Light=" + g[1] + "," + l2
    ensures l2 == " " + "Temp=" + g[2] + "," + l3
  {
    var p, sp := Pattern, SingleSpaces;
    l0 := LayoutFrom(p, sp, g, []);
    l1 := LayoutFrom(p[1..], sp[1..], g[1..], []);
    l2 := LayoutFrom(p[2..], sp[2..], g[2..], []);
    l3 := LayoutFrom(p[3..], sp[3..], g[3..], []);
    assert p[0..] == p && sp[0..] == sp && g[0..] == g;
    PatternLiterals();
    SingleSpaceField(g, 0, "", ":");
    SingleSpaceField(g, 1, "Light=", ",");
    SingleSpaceField(g, 2, "Temp=", ",");
    PrefixSplit("Node", l0);
  }

  /** The scan of the first three fields when the Temp text has a '-' at position i and no ','. */
  lemma FirstThreeFields(g0: string, g1: string, g2: string, l1: string, l2: string, l3: string, i: nat)
    requires |g0| > 0 && AllInClass(g0, Digits) && |g1| > 0 && AllInClass(g1, DigitsPoint)
    requires i < |g2| && g2[i] == '-' && ',' !in g2
    ensures ScanField("", Digits, ":", " " + "" + g0 + ":" + l1) == Some(Field(" ", g0, l1))
    ensures ScanField("Light=", DigitsPoint, ",", " " + "Light=" + g1 + "," + l2) == Some(Field(" ", g1, l2))
    ensures ScanField("Temp=", DigitsPoint, ",", " " + "Temp=" + g2 + "," + l3) == None
  {
    ScanFieldComplete("", Digits, ":", Field(" ", g0, l1));
    ScanFieldComplete("Light=", DigitsPoint, ",", Field(" ", g1, l2));
    ScanFieldRejectsForeign("Temp=", DigitsPoint, ",", " ", g2, l3, i);
  }

  /** Such a line, ended by a newline, is rejected by parse_sensor_data. */
  lemma MinusInTempDropped(g: seq<string>)
    requires |g| == Fields
    requires |g[0]| > 0 && AllInClass(g[0], Digits) && |g[1]| > 0 && AllInClass(g[1], DigitsPoint)
    requires '-' in g[2] && ',' !in g[2]
    requires |g[6]| > 0 && AllInClass(g[6], DigitsMinus)
    ensures Parse(LineText(g) + "\n") == None
  {
    MinusInTempRejected(g);
    var t := LineText(g);
    LineTextIsLayout(g);
    assert MatchLine(t) == None;
    assert t[0] == 'N';
    assert t[|t| - 1] == g[6][|g[6]| - 1];
    ClassExcludesSpace(g[6][|g[6]| - 1], DigitsMinus);
    StripPadded("", t, "\n");
    assert "" + t + "\n" == t + "\n";
  }

  /** The corrected text of a negative value: a '-' first, then only digits and one point. */
  lemma NegativeCentiText(v: int)
    requires v < 0
    ensures '-' in Coordinator.FormatCenti(v) && ',' !in Coordinator.FormatCenti(v)
  {
    var n, f := NatToString(Coordinator.Abs(v) / 100), Pad2(Coordinator.Abs(v) % 100);
    assert Coordinator.FormatCenti(v) == "-" + n + "." + f;
    assert Coordinator.FormatCenti(-v) == "" + n + "." + f;
    CentiInPointClass(-v);
    SignBeforeClass(n, f);
  }

  /** A '-' before a `[0-9.]` text: the '-' is there and no ',' is. */
  lemma SignBeforeClass(n: string, f: string)
    requires AllInClass("" + n + "." + f, DigitsPoint)
    ensures '-' in "-" + n + "." + f && ',' !in "-" + n + "." + f
  {
    var u, s := "" + n + "." + f, "-" + n + "." + f;
    assert s == "-" + u;
    assert s[0] == '-';
    forall j | 0 <= j < |s|
      ensures s[j] != ','
    {
      if j > 0 {
        assert s[j] == u[j - 1];
      }
    }
  }

  /** `%02d` of any value: digits, after a '-' when the value is negative. */
  lemma Pad2InMinusClass(i: int)
    ensures AllInClass(Pad2(i), DigitsMinus)
  {
    SignedInMinusClass(i);
  }

  /**
   * The printed text of a negative value holds a '-' (first, or after "0." when the value is above
   * -100) and otherwise only digits and the point.
   */
  lemma AsWrittenNegativeText(v: int)
    requires v < 0
    ensures '-' in Coordinator.FormatCentiAsWritten(v) && ',' !in Coordinator.FormatCentiAsWritten(v)
  {
    var q, m := TruncDiv(v, 100), TruncMod(v, 100);
    SignedInMinusClass(q);
    Pad2InMinusClass(m);
    assert q < 0 || m < 0;
    MinusClassJoined(IntToString(q), Pad2(m));
  }

  /** Two `[0-9-]` texts joined by a point, one of them signed: a '-' and no ','. */
  lemma MinusClassJoined(w: string, f: string)
    requires |w| > 0 && |f| > 0 && AllInClass(w, DigitsMinus) && AllInClass(f, DigitsMinus)
    requires w[0] == '-' || f[0] == '-'
    ensures '-' in w + "." + f && ',' !in w + "." + f
  {
    var s := w + "." + f;
    if w[0] == '-' {
      assert s[0] == '-';
    } else {
      assert s[|w| + 1] == f[0];
    }
    forall j | 0 <= j < |s|
      ensures s[j] != ','
    {
      if j < |w| {
        assert s[j] == w[j];
      } else if j > |w| {
        assert s[j] == f[j - |w| - 1];
      }
    }
  }

  /** The seven groups of the line as printed, with the truncating fixed-point fields. */
  function LineGroupsAsWritten(p: Packet): (g: seq<string>)
    ensures |g| == Fields
  {
    [IntToString(p.nodeId), Coordinator.FormatCentiAsWritten(p.light),
     Coordinator.FormatCentiAsWritten(p.temperature), Coordinator.FormatCentiAsWritten(p.humidityAir),
     IntToString(ToS32(p.humidityGround)), IntToString(p.rxDrift), IntToString(p.txDrift)]
  }

  /** The node id and light groups fit the pattern whatever the packet holds. */
  lemma LeadingGroupsFit(p: Packet)
    ensures |IntToString(p.nodeId)| > 0 && AllInClass(IntToString(p.nodeId), Digits)
    ensures |Coordinator.FormatCenti(p.light)| > 0 && AllInClass(Coordinator.FormatCenti(p.light), DigitsPoint)
    ensures |IntToString(p.txDrift)| > 0 && AllInClass(IntToString(p.txDrift), DigitsMinus)
  {
    DigitsInEveryClass(NatToString(p.nodeId));
    CentiInPointClass(p.light);
    SignedInMinusClass(p.txDrift);
  }

  /**
   * The coordinator's line for a packet with a negative temperature, as it prints it ("-2.-50"),
   * never reaches the collector: the gateway rejects it at the Temp group.
   */
  lemma AsWrittenNegativeTemperatureDropped(p: Packet)
    requires p.temperature < 0
    ensures Parse(Coordinator.FormatLineAsWritten(p)) == None
  {
    var g := LineGroupsAsWritten(p);
    assert Coordinator.FormatLineAsWritten(p) == LineText(g) + "\n";
    LeadingGroupsFit(p);
    Coordinator.FormatCentiAgreesWhenNonNegative(p.light);
    AsWrittenNegativeText(p.temperature);
    MinusInTempDropped(g);
  }

  /**
   * With the corrected formatter the text reads back ("-2.50"), but the gateway's `[0-9.]+` Temp
   * group has no '-', so a negative temperature is still rejected.
   */
  lemma NegativeTemperatureDropped(p: Packet)
    requires p.temperature < 0
    ensures Parse(Coordinator.FormatLine(p)) == None
  {
    var g := LineGroups(p);
    assert Coordinator.FormatLine(p) == LineText(g) + "\n";
    LeadingGroupsFit(p);
    NegativeCentiText(p.temperature);
    MinusInTempDropped(g);
  }

  /** What json.dumps and json.loads are assumed to do for a document: a non-empty text that reads back. */
  predicate RoundTrips(loads: string -> Option<Json>, dumps: Json -> string, doc: Json) {
    dumps(doc) != [] && loads(dumps(doc)) == Some(doc)
  }

  /** Every integer field of a reading fits the 64-bit integers sqlite binds. */
  predicate FitsSqlite(r: Reading) {
    && Int64Min <= r.nodeId <= Int64Max && Int64Min <= r.humidityGround <= Int64Max
    && Int64Min <= r.rxDrift <= Int64Max && Int64Min <= r.txDrift <= Int64Max
  }

  /**
   * Gateway to collector: the body the gateway posts for a parsed reading is accepted by
   * receive_data, which stores the seven numbers of the reading with the timestamp of the POST
   * envelope, not the one parse_sensor_data put inside the document.
   */
  lemma PostedReadingStored(r: Reading, innerStamp: string, postStamp: string, now: string,
                            loads: string -> Option<Json>, dumps: Json -> string)
    requires RoundTrips(loads, dumps, Gateway.SensorJson(r, innerStamp)) && FitsSqlite(r)
    ensures var body := Gateway.PayloadJson(Gateway.Payload(dumps(Gateway.SensorJson(r, innerStamp)), postStamp));
            Collector.DecideData(Some(body), now, loads)
            == Collector.StoreSensor(Collector.SensorRecord(
                 JInt(r.nodeId), JFloat(r.light), JFloat(r.temperature), JFloat(r.humidityAir),
                 JInt(r.humidityGround), JInt(r.rxDrift), JInt(r.txDrift), JString(postStamp)))
  {
    var doc := Gateway.SensorJson(r, innerStamp);
    var body := Gateway.PayloadJson(Gateway.Payload(dumps(doc), postStamp));
    assert Collector.AcceptableData(Some(body), now, loads) by {
      assert Collector.HasRequiredFields(doc.fields);
    }
    Collector.DecideDataStoresIff(Some(body), now, loads);
    Collector.StoredRowSources(Some(body), now, loads);
  }

  /** A packet's numbers are small enough for sqlite. */
  lemma PacketFitsSqlite(p: Packet)
    ensures FitsSqlite(ReadingOf(p))
  {
  }
}
