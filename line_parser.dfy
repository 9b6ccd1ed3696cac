/**
 * The gateway's parse_sensor_data: strip the line, re.match it against the fixed sensor-line
 * pattern, and convert the seven captured groups with int() and float().
 *
 * The pattern is
 *   Node\s+(\d+):\s+Light=([0-9.]+),\s+Temp=([0-9.]+),\s+Humid_air=([0-9.]+),
 *   \s+Humid_ground=([0-9]+)%,\s+RX_drift=([0-9-]+),\s+TX_drift=([0-9-]+)
 * Every repeated class in it is followed by a character outside that class, so the regex engine
 * never backtracks into a run: a greedy left-to-right scan finds the same match.
 */
module LineParser {
  import opened Wrappers
  import opened Decimal

  /** The characters Python's str.isspace() accepts; `\s` in a str pattern matches the same set. */
  predicate IsSpace(c: char) {
    c == ' ' || ('\t' <= c <= '\r') || ('\U{1c}' <= c <= '\U{1f}') || c == '\U{85}' || c == '\U{a0}'
    || c == '\U{1680}' || ('\U{2000}' <= c <= '\U{200a}') || c == '\U{2028}' || c == '\U{2029}'
    || c == '\U{202f}' || c == '\U{205f}' || c == '\U{3000}'
  }

  predicate AllSpace(s: string) {
    forall i | 0 <= i < |s| :: IsSpace(s[i])
  }

  function StripLeft(s: string): (r: string)
    ensures |r| <= |s| && r == s[|s| - |r|..] && AllSpace(s[..|s| - |r|])
    ensures r == [] || !IsSpace(r[0])
  {
    if |s| > 0 && IsSpace(s[0]) then
      var r := StripLeft(s[1..]);
      assert s[..|s| - |r|] == [s[0]] + s[1..][..|s| - 1 - |r|];
      r
    else s
  }

  function StripRight(s: string): (r: string)
    ensures |r| <= |s| && r == s[..|r|] && AllSpace(s[|r|..])
    ensures r == [] || !IsSpace(r[|r| - 1])
  {
    if |s| > 0 && IsSpace(s[|s| - 1]) then
      var r := StripRight(s[..|s| - 1]);
      assert s[|r|..] == s[..|s| - 1][|r|..] + [s[|s| - 1]];
      r
    else s
  }

  /** Python's str.strip(): drop leading and trailing whitespace. */
  function Strip(s: string): (r: string)
    ensures r == [] || (!IsSpace(r[0]) && !IsSpace(r[|r| - 1]))
  {
    var l := StripLeft(s);
    var r := StripRight(l);
    assert r != [] ==> r[0] == l[0];
    r
  }

  /** Stripping `a + t + b` with whitespace margins and a trimmed middle gives the middle back. */
  lemma {:induction false} StripPadded(a: string, t: string, b: string)
    requires AllSpace(a) && AllSpace(b)
    requires t == [] || (!IsSpace(t[0]) && !IsSpace(t[|t| - 1]))
    ensures Strip(a + t + b) == t
  {
    if t == [] {
      var ab := a + b;
      assert a + t + b == ab + [];
      assert AllSpace(ab) by {
        forall i | 0 <= i < |ab|
          ensures IsSpace(ab[i])
        {
          if i < |a| { assert ab[i] == a[i]; } else { assert ab[i] == b[i - |a|]; }
        }
      }
      StripLeftPadded(ab, []);
    } else {
      assert a + t + b == a + (t + b);
      StripLeftPadded(a, t + b);
      StripRightPadded(t, b);
    }
  }

  lemma {:induction false} StripLeftPadded(a: string, u: string)
    requires AllSpace(a) && (u == [] || !IsSpace(u[0]))
    ensures StripLeft(a + u) == u
    decreases |a|
  {
    if a != [] {
      assert (a + u)[1..] == a[1..] + u;
      StripLeftPadded(a[1..], u);
    } else {
      assert a + u == u;
    }
  }

  lemma {:induction false} StripRightPadded(t: string, b: string)
    requires AllSpace(b) && (t == [] || !IsSpace(t[|t| - 1]))
    ensures StripRight(t + b) == t
    decreases |b|
  {
    if b != [] {
      assert (t + b)[..|t + b| - 1] == t + b[..|b| - 1];
      StripRightPadded(t, b[..|b| - 1]);
    } else {
      assert t + b == t;
    }
  }

  /** The three character classes the groups use: `\d` and `[0-9]`, `[0-9.]`, `[0-9-]`. */
  datatype CharClass = Digits | DigitsPoint | DigitsMinus

  predicate InClass(c: char, k: CharClass) {
    match k
    case Digits => IsDigit(c)
    case DigitsPoint => IsDigit(c) || c == '.'
    case DigitsMinus => IsDigit(c) || c == '-'
  }

  predicate AllInClass(s: string, k: CharClass) {
    forall i | 0 <= i < |s| :: InClass(s[i], k)
  }

  /** Length of the longest whitespace prefix: what a greedy `\s+` consumes. */
  function SpanSpace(s: string): (n: nat)
    ensures n <= |s| && AllSpace(s[..n]) && (n == |s| || !IsSpace(s[n]))
  {
    if s != [] && IsSpace(s[0]) then
      var n := 1 + SpanSpace(s[1..]);
      assert s[..n] == [s[0]] + s[1..][..n - 1];
      n
    else 0
  }

  /** Length of the longest prefix in class k: what a greedy `[...]+` consumes. */
  function SpanClass(s: string, k: CharClass): (n: nat)
    ensures n <= |s| && AllInClass(s[..n], k) && (n == |s| || !InClass(s[n], k))
  {
    if s != [] && InClass(s[0], k) then
      var n := 1 + SpanClass(s[1..], k);
      assert s[..n] == [s[0]] + s[1..][..n - 1];
      n
    else 0
  }

  lemma {:induction false} SpanSpaceExact(a: string, b: string)
    requires AllSpace(a) && (b == [] || !IsSpace(b[0]))
    ensures SpanSpace(a + b) == |a|
    decreases |a|
  {
    if a != [] {
      assert (a + b)[1..] == a[1..] + b;
      SpanSpaceExact(a[1..], b);
    } else {
      assert a + b == b;
    }
  }

  lemma {:induction false} SpanClassExact(a: string, b: string, k: CharClass)
    requires AllInClass(a, k) && (b == [] || !InClass(b[0], k))
    ensures SpanClass(a + b, k) == |a|
    decreases |a|
  {
    if a != [] {
      assert (a + b)[1..] == a[1..] + b;
      SpanClassExact(a[1..], b, k);
    } else {
      assert a + b == b;
    }
  }

  predicate StartsWith(s: string, p: string) {
    |p| <= |s| && s[..|p|] == p
  }

  /** One `\s+ key (group) close` piece of the pattern: its literal key, group class and closing literal. */
  datatype Slot = Slot(key: string, kind: CharClass, close: string)

  /**
   * The sensor-line pattern after its leading "Node": the first slot has no key, the last no closing
   * literal.
   */
  const Pattern: seq<Slot> := [
    Slot("", Digits, ":"),
    Slot("Light=", DigitsPoint, ","),
    Slot("Temp=", DigitsPoint, ","),
    Slot("Humid_air=", DigitsPoint, ","),
    Slot("Humid_ground=", Digits, "%,"),
    Slot("RX_drift=", DigitsMinus, ","),
    Slot("TX_drift=", DigitsMinus, "")]

  /** Number of capture groups. */
  const Fields: nat := 7

  /** What re.match found: the whitespace runs, the seven groups, and the text after the match. */
  datatype Match = Match(spaces: seq<string>, groups: seq<string>, tail: string)

  /** One field `\s+ key (group) close` matched at the start of a text, and the text after it. */
  datatype Field = Field(space: string, group: string, rest: string)

  /** Matches `([k]+) close` at the start of t, greedily: the group and the text after close. */
  function ScanGroup(k: CharClass, close: string, t: string): Option<(string, string)>
  {
    var g := SpanClass(t, k);
    if g == 0 || !StartsWith(t[g..], close) then None
    else Some((t[..g], t[g..][|close|..]))
  }

  /** Matches `\s+ key ([k]+) close` at the start of s, greedily. */
  function ScanField(key: string, k: CharClass, close: string, s: string): Option<Field>
  {
    var w := SpanSpace(s);
    if w == 0 || !StartsWith(s[w..], key) then None
    else
      match ScanGroup(k, close, s[w..][|key|..])
      case None => None
      case Some((g, rest)) => Some(Field(s[..w], g, rest))
  }

  /** The conditions under which a field lays out as `space key group close rest`. */
  predicate FieldFits(k: CharClass, close: string, f: Field) {
    && |f.space| > 0 && AllSpace(f.space)
    && |f.group| > 0 && AllInClass(f.group, k)
    && (close == [] ==> f.rest == [] || !InClass(f.rest[0], k))
  }

  lemma PrefixSplit(p: string, t: string)
    ensures StartsWith(p + t, p) && (p + t)[|p|..] == t && (p + t)[..|p|] == p
  {
  }

  lemma ScanGroupSound(k: CharClass, close: string, t: string)
    requires ScanGroup(k, close, t).Some?
    ensures var (g, rest) := ScanGroup(k, close, t).value;
            |g| > 0 && AllInClass(g, k) && t == g + close + rest
            && (close == [] ==> rest == [] || !InClass(rest[0], k))
  {
    var n := SpanClass(t, k);
    var after := t[n..];
    var rest := after[|close|..];
    assert after == close + rest;
    assert t == t[..n] + after;
  }

  lemma ScanFieldSound(key: string, k: CharClass, close: string, s: string)
    requires ScanField(key, k, close, s).Some?
    ensures var f := ScanField(key, k, close, s).value;
            FieldFits(k, close, f) && s == f.space + key + f.group + close + f.rest
  {
    var w := SpanSpace(s);
    var afterSpace := s[w..];
    var afterKey := afterSpace[|key|..];
    ScanGroupSound(k, close, afterKey);
    var (g, rest) := ScanGroup(k, close, afterKey).value;
    SplitAt(s, w);
    SplitAt(afterSpace, |key|);
    Reassociate(s[..w], key, g, close, rest);
  }

  lemma SplitAt(s: string, n: nat)
    requires n <= |s|
    ensures s == s[..n] + s[n..]
  {
  }

  lemma Reassociate(a: string, b: string, c: string, d: string, e: string)
    ensures a + (b + (c + d + e)) == a + b + c + d + e
  {
  }

  lemma ClassExcludesSpace(c: char, k: CharClass)
    requires InClass(c, k)
    ensures !IsSpace(c)
  {
  }

  lemma ScanGroupComplete(k: CharClass, close: string, g: string, rest: string)
    requires |g| > 0 && AllInClass(g, k)
    requires close == [] || !InClass(close[0], k)
    requires close == [] ==> rest == [] || !InClass(rest[0], k)
    ensures ScanGroup(k, close, g + (close + rest)) == Some((g, rest))
  {
    var after := close + rest;
    assert after == [] || !InClass(after[0], k) by {
      if close != [] {
        assert after[0] == close[0];
      } else {
        assert after == rest;
      }
    }
    SpanClassExact(g, after, k);
    PrefixSplit(g, after);
    PrefixSplit(close, rest);
  }

  lemma ScanFieldComplete(key: string, k: CharClass, close: string, f: Field)
    requires FieldFits(k, close, f)
    requires key == [] || !IsSpace(key[0])
    requires close == [] || !InClass(close[0], k)
    ensures ScanField(key, k, close, f.space + key + f.group + close + f.rest) == Some(f)
  {
    var afterKey := f.group + (close + f.rest);
    var after := key + afterKey;
    var s := f.space + key + f.group + close + f.rest;
    assert s == f.space + after;
    assert !IsSpace(after[0]) by {
      if key == [] {
        assert after[0] == f.group[0];
        ClassExcludesSpace(f.group[0], k);
      } else {
        assert after[0] == key[0];
      }
    }
    ScanGroupComplete(k, close, f.group, f.rest);
    ScanFieldAfterSpace(key, k, close, f.space, afterKey);
  }

  /** ScanField on `space key t` is the group scan of t, once the run of whitespace is exact. */
  lemma ScanFieldAfterSpace(key: string, k: CharClass, close: string, space: string, t: string)
    requires |space| > 0 && AllSpace(space)
    requires key + t != [] && !IsSpace((key + t)[0])
    requires ScanGroup(k, close, t).Some?
    ensures ScanField(key, k, close, space + (key + t))
            == Some(Field(space, ScanGroup(k, close, t).value.0, ScanGroup(k, close, t).value.1))
  {
    var after := key + t;
    SpanSpaceExact(space, after);
    PrefixSplit(space, after);
    PrefixSplit(key, t);
  }

  /**
   * A field whose group text holds a character outside the class, before any occurrence of the
   * closing literal's first character, does not match: the greedy run stops at that character and
   * the closing literal is not there.
   */
  lemma ScanFieldRejectsForeign(key: string, k: CharClass, close: string, space: string, g: string,
                                rest: string, i: nat)
    requires |space| > 0 && AllSpace(space) && key != [] && !IsSpace(key[0])
    requires close != [] && i < |g| && !InClass(g[i], k)
    requires forall j | 0 <= j <= i :: g[j] != close[0]
    ensures ScanField(key, k, close, space + key + g + close + rest) == None
  {
    var t := g + (close + rest);
    var after := key + t;
    assert space + key + g + close + rest == space + after;
    SpanSpaceExact(space, after);
    PrefixSplit(space, after);
    PrefixSplit(key, t);
    ScanGroupRejectsForeign(k, close, g, rest, i);
  }

  /** The group part of the above: `[k]+` stops at g[i], where the closing literal is missing. */
  lemma ScanGroupRejectsForeign(k: CharClass, close: string, g: string, rest: string, i: nat)
    requires close != [] && i < |g| && !InClass(g[i], k)
    requires forall j | 0 <= j <= i :: g[j] != close[0]
    ensures ScanGroup(k, close, g + (close + rest)) == None
  {
    var t := g + (close + rest);
    var n := SpanClass(t, k);
    assert t[i] == g[i];
    assert n <= i;
    if n > 0 {
      assert t[n..][0] == g[n];
    }
  }

  /** The scan fails where its first slot fails, or after a first slot whose rest fails. */
  lemma ScanFromFails(p: seq<Slot>, s: string)
    requires p != []
    requires match ScanField(p[0].key, p[0].kind, p[0].close, s)
             case None => true
             case Some(f) => ScanFrom(p[1..], f.rest).None?
    ensures ScanFrom(p, s) == None
  {
  }

  /**
   * A pattern the greedy scan reads exactly: no key starts with whitespace, no closing literal starts
   * inside its group's class, and only the last slot may have no closing literal.
   */
  predicate Separates(p: seq<Slot>) {
    forall j | 0 <= j < |p| ::
      && (p[j].key == [] || !IsSpace(p[j].key[0]))
      && (p[j].close == [] || !InClass(p[j].close[0], p[j].kind))
      && (j < |p| - 1 ==> p[j].close != [])
  }

  lemma PatternSeparates()
    ensures Separates(Pattern) && |Pattern| == Fields
  {
  }

  /** Matches the slots of p one after the other at the start of s, greedily. */
  function ScanFrom(p: seq<Slot>, s: string): (r: Option<Match>)
    ensures r.Some? ==> |r.value.spaces| == |p| && |r.value.groups| == |p|
  {
    if p == [] then Some(Match([], [], s))
    else
      match ScanField(p[0].key, p[0].kind, p[0].close, s)
      case None => None
      case Some(f) =>
        match ScanFrom(p[1..], f.rest)
        case None => None
        case Some(m) => Some(Match([f.space] + m.spaces, [f.group] + m.groups, m.tail))
  }

  /** re.match(pattern, s): anchored at the start only, so text after the last group is allowed. */
  function MatchLine(s: string): (r: Option<Match>)
    ensures r.Some? ==> |r.value.spaces| == Fields && |r.value.groups| == Fields
  {
    if StartsWith(s, "Node") then ScanFrom(Pattern, s[4..]) else None
  }

  /** The text the slots of p lay out to for the given runs, groups and tail. */
  function LayoutFrom(p: seq<Slot>, spaces: seq<string>, groups: seq<string>, tail: string): string
    requires |spaces| == |p| && |groups| == |p|
  {
    if p == [] then tail
    else spaces[0] + p[0].key + groups[0] + p[0].close + LayoutFrom(p[1..], spaces[1..], groups[1..], tail)
  }

  /** The reference reading of the pattern: the text a match describes. */
  function Layout(m: Match): string
    requires |m.spaces| == Fields && |m.groups| == Fields
  {
    "Node" + LayoutFrom(Pattern, m.spaces, m.groups, m.tail)
  }

  /** The match of the slots after the first. */
  function Next(m: Match): Match
    requires |m.spaces| > 0 && |m.groups| > 0
  {
    Match(m.spaces[1..], m.groups[1..], m.tail)
  }

  /**
   * A match of the slots of p: non-empty whitespace runs, non-empty groups within their classes, and
   * a tail that does not extend a last group that has no closing literal.
   */
  predicate WellFormedFrom(p: seq<Slot>, m: Match) {
    && |m.spaces| == |p| && |m.groups| == |p|
    && (p != [] ==>
          && |m.spaces[0]| > 0 && AllSpace(m.spaces[0])
          && |m.groups[0]| > 0 && AllInClass(m.groups[0], p[0].kind)
          && (|p| == 1 && p[0].close == [] ==> m.tail == [] || !InClass(m.tail[0], p[0].kind))
          && WellFormedFrom(p[1..], Next(m)))
  }

  predicate WellFormed(m: Match) {
    WellFormedFrom(Pattern, m)
  }

  lemma SeparatesTail(p: seq<Slot>)
    requires p != [] && Separates(p)
    ensures Separates(p[1..])
  {
    forall j | 0 <= j < |p| - 1
      ensures p[1..][j] == p[j + 1]
    {
    }
  }

  /** Whatever the scan returns is a well-formed match that lays out to exactly the scanned text. */
  lemma {:induction false} ScanFromSound(p: seq<Slot>, s: string)
    requires ScanFrom(p, s).Some?
    ensures WellFormedFrom(p, ScanFrom(p, s).value)
    ensures var m := ScanFrom(p, s).value; LayoutFrom(p, m.spaces, m.groups, m.tail) == s
    decreases |p|
  {
    if p != [] {
      var f := ScanField(p[0].key, p[0].kind, p[0].close, s).value;
      ScanFieldSound(p[0].key, p[0].kind, p[0].close, s);
      ScanFromSound(p[1..], f.rest);
      var m' := ScanFrom(p[1..], f.rest).value;
      var m := ScanFrom(p, s).value;
      assert Next(m) == m';
      if |p| == 1 {
        assert m'.tail == f.rest;
      }
    }
  }

  /** One step of the scan: the first slot, then the others. */
  lemma ScanFromStep(p: seq<Slot>, s: string, m: Match)
    requires p != [] && |m.spaces| > 0 && |m.groups| > 0
    requires ScanField(p[0].key, p[0].kind, p[0].close, s).Some?
    requires var f := ScanField(p[0].key, p[0].kind, p[0].close, s).value;
             f.space == m.spaces[0] && f.group == m.groups[0] && ScanFrom(p[1..], f.rest) == Some(Next(m))
    ensures ScanFrom(p, s) == Some(m)
  {
    var f := ScanField(p[0].key, p[0].kind, p[0].close, s).value;
    var n := Next(m);
    assert m == Match([f.space] + n.spaces, [f.group] + n.groups, n.tail) by {
      assert [m.spaces[0]] + m.spaces[1..] == m.spaces;
      assert [m.groups[0]] + m.groups[1..] == m.groups;
    }
  }

  /** The text a well-formed match lays out to starts with its first field, which the field scan finds. */
  lemma LayoutFieldScans(p: seq<Slot>, m: Match)
    requires p != [] && Separates(p) && WellFormedFrom(p, m)
    ensures ScanField(p[0].key, p[0].kind, p[0].close, LayoutFrom(p, m.spaces, m.groups, m.tail))
            == Some(Field(m.spaces[0], m.groups[0], LayoutFrom(p[1..], m.spaces[1..], m.groups[1..], m.tail)))
  {
    var rest := LayoutFrom(p[1..], m.spaces[1..], m.groups[1..], m.tail);
    var f := Field(m.spaces[0], m.groups[0], rest);
    assert FieldFits(p[0].kind, p[0].close, f) by {
      if p[0].close == [] {
        assert |p| == 1;
        assert rest == m.tail;
      }
    }
    ScanFieldComplete(p[0].key, p[0].kind, p[0].close, f);
  }

  /** Every well-formed match is found by the scan of the text it lays out to. */
  lemma {:induction false} ScanFromComplete(p: seq<Slot>, m: Match)
    requires Separates(p) && WellFormedFrom(p, m)
    ensures ScanFrom(p, LayoutFrom(p, m.spaces, m.groups, m.tail)) == Some(m)
    decreases |p|
  {
    if p != [] {
      SeparatesTail(p);
      ScanFromComplete(p[1..], Next(m));
      LayoutFieldScans(p, m);
      ScanFromStep(p, LayoutFrom(p, m.spaces, m.groups, m.tail), m);
    }
  }

  /** Soundness of re.match: a match describes the whole matched text, tail included. */
  lemma MatchLineSound(s: string)
    requires MatchLine(s).Some?
    ensures WellFormed(MatchLine(s).value) && Layout(MatchLine(s).value) == s
  {
    ScanFromSound(Pattern, s[4..]);
    SplitAt(s, 4);
  }

  /** Completeness of re.match: every text laid out by a well-formed match is matched, that way. */
  lemma MatchLineComplete(m: Match)
    requires WellFormed(m)
    ensures MatchLine(Layout(m)) == Some(m)
  {
    PatternSeparates();
    ScanFromComplete(Pattern, m);
    PrefixSplit("Node", LayoutFrom(Pattern, m.spaces, m.groups, m.tail));
  }

  lemma {:induction false} LayoutAppend(p: seq<Slot>, spaces: seq<string>, groups: seq<string>, tail: string, extra: string)
    requires |spaces| == |p| && |groups| == |p|
    ensures LayoutFrom(p, spaces, groups, tail) + extra == LayoutFrom(p, spaces, groups, tail + extra)
    decreases |p|
  {
    if p != [] {
      LayoutAppend(p[1..], spaces[1..], groups[1..], tail, extra);
    }
  }

  /** Text appended after a scan that left a non-empty tail extends that tail and nothing else. */
  lemma ScanFromAppend(p: seq<Slot>, s: string, extra: string)
    requires Separates(p) && ScanFrom(p, s).Some? && ScanFrom(p, s).value.tail != []
    ensures ScanFrom(p, s + extra) == Some(ScanFrom(p, s).value.(tail := ScanFrom(p, s).value.tail + extra))
  {
    var m := ScanFrom(p, s).value;
    ScanFromSound(p, s);
    var m' := m.(tail := m.tail + extra);
    WellFormedWithTail(p, m, m.tail + extra);
    LayoutAppend(p, m.spaces, m.groups, m.tail, extra);
    ScanFromComplete(p, m');
  }

  /** re.match anchors only at the start: text appended after a match leaves the groups unchanged. */
  lemma TrailingTextIgnored(s: string, extra: string)
    requires MatchLine(s).Some? && MatchLine(s).value.tail != []
    ensures MatchLine(s + extra) == Some(MatchLine(s).value.(tail := MatchLine(s).value.tail + extra))
  {
    PatternSeparates();
    ScanFromAppend(Pattern, s[4..], extra);
    PrefixAppend(s, extra);
  }

  /** Appending text keeps the `Node` prefix and appends to what follows it. */
  lemma PrefixAppend(s: string, extra: string)
    requires StartsWith(s, "Node")
    ensures StartsWith(s + extra, "Node") && (s + extra)[4..] == s[4..] + extra
  {
    assert (s + extra)[..4] == s[..4];
  }

  /** Well-formedness depends on the tail only through its first character. */
  lemma {:induction false} WellFormedWithTail(p: seq<Slot>, m: Match, tail: string)
    requires WellFormedFrom(p, m) && m.tail != [] && tail != [] && tail[0] == m.tail[0]
    ensures WellFormedFrom(p, m.(tail := tail))
    decreases |p|
  {
    if p != [] {
      WellFormedWithTail(p[1..], Next(m), tail);
      assert Next(m).(tail := tail) == Next(m.(tail := tail));
    }
  }

  /** The j-th run and group of a well-formed match obey slot j. */
  lemma {:induction false} WellFormedAt(p: seq<Slot>, m: Match, j: nat)
    requires WellFormedFrom(p, m) && j < |p|
    ensures |m.spaces[j]| > 0 && AllSpace(m.spaces[j])
    ensures |m.groups[j]| > 0 && AllInClass(m.groups[j], p[j].kind)
    decreases j
  {
    if j > 0 {
      WellFormedAt(p[1..], Next(m), j - 1);
    }
  }

  /** A match whose every run and group obeys its slot is well formed: the converse of WellFormedAt. */
  lemma {:induction false} WellFormedFromEach(p: seq<Slot>, m: Match)
    requires |m.spaces| == |p| && |m.groups| == |p|
    requires forall j | 0 <= j < |p| :: |m.spaces[j]| > 0 && AllSpace(m.spaces[j])
    requires forall j | 0 <= j < |p| :: |m.groups[j]| > 0 && AllInClass(m.groups[j], p[j].kind)
    requires p != [] && p[|p| - 1].close == [] ==> m.tail == [] || !InClass(m.tail[0], p[|p| - 1].kind)
    ensures WellFormedFrom(p, m)
    decreases |p|
  {
    if p != [] {
      var n := Next(m);
      forall j | 0 <= j < |p| - 1
        ensures |n.spaces[j]| > 0 && AllSpace(n.spaces[j])
        ensures |n.groups[j]| > 0 && AllInClass(n.groups[j], p[1..][j].kind)
      {
        assert n.spaces[j] == m.spaces[j + 1] && n.groups[j] == m.groups[j + 1];
        assert p[1..][j] == p[j + 1];
      }
      WellFormedFromEach(p[1..], n);
    }
  }

  /** With no tail, the layout ends with the last character of the last group. */
  lemma {:induction false} LayoutEndsInGroup(p: seq<Slot>, m: Match)
    requires p != [] && WellFormedFrom(p, m) && m.tail == [] && p[|p| - 1].close == []
    ensures var t := LayoutFrom(p, m.spaces, m.groups, m.tail);
            t != [] && InClass(t[|t| - 1], p[|p| - 1].kind)
    decreases |p|
  {
    var t := LayoutFrom(p, m.spaces, m.groups, m.tail);
    if |p| == 1 {
      assert LayoutFrom(p[1..], m.spaces[1..], m.groups[1..], m.tail) == [];
      assert t == m.spaces[0] + p[0].key + m.groups[0];
      assert t[|t| - 1] == m.groups[0][|m.groups[0]| - 1];
    } else {
      LayoutEndsInGroup(p[1..], Next(m));
      var u := LayoutFrom(p[1..], m.spaces[1..], m.groups[1..], m.tail);
      assert t == (m.spaces[0] + p[0].key + m.groups[0] + p[0].close) + u;
      assert t[|t| - 1] == u[|u| - 1];
    }
  }

  /** The text of a well-formed match neither starts nor, unless its tail does, ends with whitespace. */
  lemma LayoutTrimmed(m: Match)
    requires WellFormed(m) && (m.tail == [] || !IsSpace(m.tail[|m.tail| - 1]))
    ensures var t := Layout(m); t != [] && !IsSpace(t[0]) && !IsSpace(t[|t| - 1])
  {
    var t := Layout(m);
    var body := LayoutFrom(Pattern, m.spaces, m.groups, m.tail);
    assert t == "Node" + body;
    assert t[0] == 'N';
    if m.tail == [] {
      LayoutEndsInGroup(Pattern, m);
      assert t[|t| - 1] == body[|body| - 1];
      ClassExcludesSpace(body[|body| - 1], Pattern[Fields - 1].kind);
    } else {
      var bare := LayoutFrom(Pattern, m.spaces, m.groups, []);
      LayoutAppend(Pattern, m.spaces, m.groups, [], m.tail);
      assert [] + m.tail == m.tail;
      assert t == ("Node" + bare) + m.tail;
      assert t[|t| - 1] == m.tail[|m.tail| - 1];
    }
  }

  /** One sensor reading, the numbers parse_sensor_data puts into its JSON object. */
  datatype Reading = Reading(
    nodeId: int, light: real, temperature: real, humidityAir: real,
    humidityGround: int, rxDrift: int, txDrift: int)

  /** int() or float() of each of the seven groups, in order; any conversion that raises gives None. */
  function ConvertFields(nodeId: string, light: string, temperature: string, humidityAir: string,
                         humidityGround: string, rxDrift: string, txDrift: string): Option<Reading>
  {
    if PyInt(nodeId).None? || PyFloat(light).None? || PyFloat(temperature).None?
       || PyFloat(humidityAir).None? || PyInt(humidityGround).None? || PyInt(rxDrift).None?
       || PyInt(txDrift).None?
    then None
    else Some(Reading(PyInt(nodeId).value, PyFloat(light).value, PyFloat(temperature).value,
                      PyFloat(humidityAir).value, PyInt(humidityGround).value,
                      PyInt(rxDrift).value, PyInt(txDrift).value))
  }

  /** The conversions of a match's groups. */
  function Convert(g: seq<string>): Option<Reading>
    requires |g| == Fields
  {
    ConvertFields(g[0], g[1], g[2], g[3], g[4], g[5], g[6])
  }

  /** parse_sensor_data, apart from the timestamp it adds: None for any line it rejects. */
  function Parse(line: string): (r: Option<Reading>)
    ensures r.Some? ==> StartsWith(Strip(line), "Node")
  {
    match MatchLine(Strip(line))
    case None => None
    case Some(m) => Convert(m.groups)
  }

  /**
   * A line that is a well-formed match between whitespace margins is parsed into the conversions of
   * its groups. This covers a trailing newline and, through a non-empty tail, text after TX_drift.
   */
  lemma ParseOfLayout(m: Match, a: string, b: string)
    requires WellFormed(m) && AllSpace(a) && AllSpace(b)
    requires m.tail == [] || !IsSpace(m.tail[|m.tail| - 1])
    ensures Parse(a + Layout(m) + b) == Convert(m.groups)
  {
    LayoutTrimmed(m);
    StripPadded(a, Layout(m), b);
    MatchLineComplete(m);
  }

  /** Whatever parses was, once stripped, a well-formed match, and its reading is that match's conversion. */
  lemma ParseSound(line: string)
    requires Parse(line).Some?
    ensures var m := MatchLine(Strip(line)).value;
            WellFormed(m) && Layout(m) == Strip(line) && Parse(line) == Convert(m.groups)
  {
    MatchLineSound(Strip(line));
  }

  /** A group of `[0-9.]` characters converts, if at all, to a non-negative number. */
  lemma PointGroupNonNegative(g: string)
    requires |g| > 0 && AllInClass(g, DigitsPoint) && PyFloat(g).Some?
    ensures PyFloat(g).value >= 0.0
  {
    assert !IsSign(g[0]);
    UnsignedDecimalNonNegative(g);
  }

  /** A group of `[0-9]` characters always converts, to a non-negative number. */
  lemma DigitGroupNonNegative(g: string)
    requires |g| > 0 && AllInClass(g, Digits)
    ensures PyInt(g).Some? && PyInt(g).value >= 0
  {
    PyIntOfDigits(g);
  }

  /**
   * None of node_id, light, temperature, humidity_air and humidity_ground can be negative in a parsed
   * reading: their groups admit no minus sign. Only the two drift fields can be.
   */
  lemma ParsedReadingNonNegative(line: string)
    requires Parse(line).Some?
    ensures var r := Parse(line).value;
            r.nodeId >= 0 && r.light >= 0.0 && r.temperature >= 0.0 && r.humidityAir >= 0.0
            && r.humidityGround >= 0
  {
    ParseSound(line);
    var m := MatchLine(Strip(line)).value;
    var g := m.groups;
    WellFormedAt(Pattern, m, 0);
    WellFormedAt(Pattern, m, 1);
    WellFormedAt(Pattern, m, 2);
    WellFormedAt(Pattern, m, 3);
    WellFormedAt(Pattern, m, 4);
    DigitGroupNonNegative(g[0]);
    PointGroupNonNegative(g[1]);
    PointGroupNonNegative(g[2]);
    PointGroupNonNegative(g[3]);
    DigitGroupNonNegative(g[4]);
  }

  /** A float group with two decimal points (such as `Light=1.2.3`) makes the whole line parse to None. */
  lemma ConvertRejectsTwoPoints(g: seq<string>, k: nat, i: nat, j: nat)
    requires |g| == Fields && 1 <= k <= 3
    requires i < j < |g[k]| && g[k][i] == '.' && g[k][j] == '.'
    ensures Convert(g) == None
  {
    PyFloatRejectsSecondPoint(g[k], i, j);
    if k == 1 {
      assert PyFloat(g[1]).None?;
    } else if k == 2 {
      assert PyFloat(g[2]).None?;
    } else {
      assert PyFloat(g[3]).None?;
    }
  }

  /** An int group with a sign after its first character (such as `RX_drift=5-3`) makes the line parse to None. */
  lemma ConvertRejectsInnerSign(g: seq<string>, k: nat, i: nat)
    requires |g| == Fields && (k == 0 || 4 <= k < Fields)
    requires 0 < i < |g[k]| && g[k][i] == '-'
    ensures Convert(g) == None
  {
    PyIntRejectsInnerSign(g[k], i);
    if k == 0 {
      assert PyInt(g[0]).None?;
    } else if k == 4 {
      assert PyInt(g[4]).None?;
    } else if k == 5 {
      assert PyInt(g[5]).None?;
    } else {
      assert PyInt(g[6]).None?;
    }
  }

  /**
   * A line the regex accepts whose light, temperature or humidity_air group has two decimal points
   * (`Light=1.2.3`) parses to None: float() raises and parse_sensor_data returns None.
   */
  lemma ParseRejectsTwoPoints(m: Match, a: string, b: string, k: nat, i: nat, j: nat)
    requires WellFormed(m) && AllSpace(a) && AllSpace(b)
    requires m.tail == [] || !IsSpace(m.tail[|m.tail| - 1])
    requires 1 <= k <= 3 && i < j < |m.groups[k]| && m.groups[k][i] == '.' && m.groups[k][j] == '.'
    ensures Parse(a + Layout(m) + b) == None
  {
    ParseOfLayout(m, a, b);
    ConvertRejectsTwoPoints(m.groups, k, i, j);
  }

  /**
   * A line the regex accepts whose node_id, humidity_ground or drift group has a minus sign after its
   * first character (`RX_drift=5-3`, which `[0-9-]+` admits) parses to None: int() raises.
   */
  lemma ParseRejectsInnerMinus(m: Match, a: string, b: string, k: nat, i: nat)
    requires WellFormed(m) && AllSpace(a) && AllSpace(b)
    requires m.tail == [] || !IsSpace(m.tail[|m.tail| - 1])
    requires (k == 0 || 4 <= k < Fields) && 0 < i < |m.groups[k]| && m.groups[k][i] == '-'
    ensures Parse(a + Layout(m) + b) == None
  {
    ParseOfLayout(m, a, b);
    ConvertRejectsInnerSign(m.groups, k, i);
  }
}
