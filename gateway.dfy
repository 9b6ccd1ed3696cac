/**
 * The Raspberry Pi gateway (SensorDataSender): it cuts the serial stream into lines, parses each
 * sensor line, forwards it to the collector over HTTP, keeps what it could not send in a local
 * offline table, and drains that table, oldest first, after every successful send.
 *
 * The outside world is reduced to oracles: the HTTP server answers the k-th POST with `script(k)`,
 * the clock's k-th reading is `stamp(k)`, and the k-th INSERT into the offline table fails when
 * `saveFails(k)`. json.dumps and json.loads are the functions `dumps` and `loads`.
 */
module Gateway {
  import opened Wrappers
  import opened JsonValue
  import opened Decimal
  import opened LineParser

  /** The body send_to_server POSTs: the unchanged JSON text and its timestamp. */
  datatype Payload =
    | Payload(data: string, timestamp: string)
    /** The `{'test': 'connection'}` body check_connection posts when the ping GET gets no answer. */
    | ConnectionTest

  /** What requests.post produced: a response with a status code, or a RequestException. */
  datatype Reply = Status(code: int) | TransportError

  /** The HTTP server as seen by the gateway: every POST is recorded and answered by the script. */
  class Network {
    /** The body of every POST made so far, in order. */
    var posted: seq<Payload>
    /** The answer to the k-th POST. */
    const script: nat -> Reply

    constructor(script: nat -> Reply)
      ensures posted == [] && this.script == script
    {
      posted := [];
      this.script := script;
    }

    method Post(payload: Payload) returns (reply: Reply)
      modifies this
      ensures posted == old(posted) + [payload]
      ensures reply == script(|old(posted)|)
    {
      reply := script(|posted|);
      posted := posted + [payload];
    }
  }

  /** datetime.now().isoformat(): the k-th reading of the clock is stamp(k). */
  class Clock {
    var readings: nat
    const stamp: nat -> string

    constructor(stamp: nat -> string)
      ensures readings == 0 && this.stamp == stamp
    {
      readings := 0;
      this.stamp := stamp;
    }

    method Now() returns (ts: string)
      modifies this
      ensures ts == stamp(old(readings)) && readings == old(readings) + 1
    {
      ts := stamp(readings);
      readings := readings + 1;
    }
  }

  /** A row of the offline_data table: AUTOINCREMENT id, the JSON text, and its send timestamp. */
  datatype OfflineRow = OfflineRow(id: nat, data: string, timestamp: string)

  /**
   * The payload as the JSON object requests sends: {'data': data, 'timestamp': timestamp} for a
   * reading, {'test': 'connection'} for the connection test.
   */
  function PayloadJson(p: Payload): (j: Json)
    ensures j.JObject?
    ensures p.Payload? ==> j.fields.Keys == {"data", "timestamp"}
    ensures p.Payload? ==> j.fields["data"] == JString(p.data) && j.fields["timestamp"] == JString(p.timestamp)
    ensures p.ConnectionTest? ==> j.fields.Keys == {"test"} && j.fields["test"] == JString("connection")
  {
    match p
    case Payload(data, timestamp) => JObject(map["data" := JString(data), "timestamp" := JString(timestamp)])
    case ConnectionTest => JObject(map["test" := JString("connection")])
  }

  /** The parsed_data dict parse_sensor_data serialises. */
  function SensorJson(r: Reading, timestamp: string): Json
  {
    JObject(map[
      "node_id" := JInt(r.nodeId), "light" := JFloat(r.light), "temperature" := JFloat(r.temperature),
      "humidity_air" := JFloat(r.humidityAir), "humidity_ground" := JInt(r.humidityGround),
      "rx_drift" := JInt(r.rxDrift), "tx_drift" := JInt(r.txDrift), "timestamp" := JString(timestamp)])
  }

  /** The payload of a stored row. */
  function PayloadOf(row: OfflineRow): Payload {
    Payload(row.data, row.timestamp)
  }

  /** The payloads posted for a run of offline rows, in order. */
  function Payloads(rows: seq<OfflineRow>): (r: seq<Payload>)
    ensures |r| == |rows|
    ensures forall i | 0 <= i < |rows| :: r[i] == PayloadOf(rows[i])
  {
    if rows == [] then [] else [PayloadOf(rows[0])] + Payloads(rows[1..])
  }

  /** One row goes through send_to_server with True: its text is JSON and the server answers 200. */
  predicate Delivered(row: OfflineRow, loads: string -> Option<Json>, reply: Reply) {
    loads(row.data).Some? && reply == Status(200)
  }

  /**
   * How many rows, from the first, the drain delivers when the first of its POSTs is the k-th one
   * overall: the loop stops at the first row send_to_server refuses.
   */
  function DrainSent(rows: seq<OfflineRow>, loads: string -> Option<Json>, script: nat -> Reply, k: nat): (n: nat)
    ensures n <= |rows|
  {
    if rows == [] || !Delivered(rows[0], loads, script(k)) then 0
    else 1 + DrainSent(rows[1..], loads, script, k + 1)
  }

  /** The POSTs the drain makes: one per delivered row, plus the failing one if it got as far as posting. */
  function DrainAttempts(rows: seq<OfflineRow>, loads: string -> Option<Json>, script: nat -> Reply, k: nat): (n: nat)
    ensures n <= |rows|
  {
    var sent := DrainSent(rows, loads, script, k);
    if sent < |rows| && loads(rows[sent].data).Some? then sent + 1 else sent
  }

  /**
   * The drain delivers exactly the longest prefix of rows that are JSON and answered with 200: every
   * row before `sent` was, and the row at `sent`, if any, was not.
   */
  lemma {:induction false} DrainSentIsFirstFailure(rows: seq<OfflineRow>, loads: string -> Option<Json>, script: nat -> Reply, k: nat)
    ensures var sent := DrainSent(rows, loads, script, k);
            && (forall j | 0 <= j < sent :: Delivered(rows[j], loads, script(k + j)))
            && (sent < |rows| ==> !Delivered(rows[sent], loads, script(k + sent)))
    decreases |rows|
  {
    if rows != [] && Delivered(rows[0], loads, script(k)) {
      DrainSentIsFirstFailure(rows[1..], loads, script, k + 1);
      var sent := DrainSent(rows, loads, script, k);
      forall j | 1 <= j < sent
        ensures Delivered(rows[j], loads, script(k + j))
      {
        assert rows[j] == rows[1..][j - 1];
      }
      if sent < |rows| {
        assert rows[sent] == rows[1..][sent - 1];
      }
    }
  }

  /** The ids of rows, in order. */
  function Ids(rows: seq<OfflineRow>): (ids: seq<nat>)
    ensures |ids| == |rows| && forall i | 0 <= i < |rows| :: ids[i] == rows[i].id
  {
    if rows == [] then [] else [rows[0].id] + Ids(rows[1..])
  }

  /** DELETE FROM offline_data WHERE id IN ids. */
  function RemoveIds(rows: seq<OfflineRow>, ids: seq<nat>): (r: seq<OfflineRow>)
  {
    if rows == [] then []
    else if rows[0].id in ids then RemoveIds(rows[1..], ids)
    else [rows[0]] + RemoveIds(rows[1..], ids)
  }

  /** Ids strictly increasing along the table, as AUTOINCREMENT and ORDER BY id give them. */
  predicate Increasing(rows: seq<OfflineRow>) {
    forall i, j | 0 <= i < j < |rows| :: rows[i].id < rows[j].id
  }

  lemma {:induction false} RemoveNone(rows: seq<OfflineRow>, ids: seq<nat>)
    requires forall i | 0 <= i < |rows| :: rows[i].id !in ids
    ensures RemoveIds(rows, ids) == rows
  {
    if rows != [] {
      assert forall i | 0 <= i < |rows[1..]| :: rows[1..][i] == rows[i + 1];
      RemoveNone(rows[1..], ids);
      assert [rows[0]] + rows[1..] == rows;
    }
  }

  /**
   * Deleting the ids of the first n rows of a table with increasing ids removes exactly those rows:
   * the later rows have larger ids, so none of them is deleted.
   */
  lemma {:induction false} RemoveSentPrefix(rows: seq<OfflineRow>, n: nat)
    requires Increasing(rows) && n <= |rows|
    ensures RemoveIds(rows, Ids(rows[..n])) == rows[n..]
  {
    var ids := Ids(rows[..n]);
    RemovePrefixOf(rows, ids, n);
  }

  lemma {:induction false} RemovePrefixOf(rows: seq<OfflineRow>, ids: seq<nat>, n: nat)
    requires Increasing(rows) && n <= |rows|
    requires forall i | 0 <= i < n :: rows[i].id in ids
    requires forall x | x in ids :: exists i | 0 <= i < n :: rows[i].id == x
    ensures RemoveIds(rows, ids) == rows[n..]
    decreases n
  {
    if n == 0 {
      forall i | 0 <= i < |rows|
        ensures rows[i].id !in ids
      {
      }
      RemoveNone(rows, ids);
    } else {
      var rest := rows[1..];
      assert rows[0].id in ids;
      assert RemoveIds(rows, ids) == RemoveIds(rest, ids);
      assert Increasing(rest) by {
        assert forall i | 0 <= i < |rest| :: rest[i] == rows[i + 1];
      }
      // Within rest, ids matches the first n - 1 rows once rows[0].id, smaller than every id of rest,
      // is taken out of it.
      var ids' := RemoveValue(ids, rows[0].id);
      forall i | 0 <= i < n - 1
        ensures rest[i].id in ids'
      {
        assert rest[i] == rows[i + 1];
      }
      forall x | x in ids'
        ensures exists i | 0 <= i < n - 1 :: rest[i].id == x
      {
        var i :| 0 <= i < n && rows[i].id == x;
        assert i != 0;
        assert rest[i - 1] == rows[i];
      }
      RemovePrefixOf(rest, ids', n - 1);
      RemoveIgnoresSmaller(rest, ids, rows[0].id);
      assert rows[n..] == rest[n - 1..];
    }
  }

  /** ids without the value v. */
  function RemoveValue(ids: seq<nat>, v: nat): (r: seq<nat>)
    ensures forall x | x in r :: x in ids && x != v
    ensures forall x | x in ids && x != v :: x in r
  {
    if ids == [] then []
    else if ids[0] == v then RemoveValue(ids[1..], v)
    else [ids[0]] + RemoveValue(ids[1..], v)
  }

  /** A value smaller than every id of the table does not change what is deleted. */
  lemma {:induction false} RemoveIgnoresSmaller(rows: seq<OfflineRow>, ids: seq<nat>, v: nat)
    requires forall i | 0 <= i < |rows| :: v < rows[i].id
    ensures RemoveIds(rows, ids) == RemoveIds(rows, RemoveValue(ids, v))
  {
    if rows != [] {
      assert rows[0].id in ids <==> rows[0].id in RemoveValue(ids, v);
      assert forall i | 0 <= i < |rows[1..]| :: rows[1..][i] == rows[i + 1];
      RemoveIgnoresSmaller(rows[1..], ids, v);
    }
  }

  /** str.split('\n', 1) on a str that contains '\n': the part before the first one and the rest. */
  function SplitAtNewline(s: string): (r: (string, string))
    requires '\n' in s
    ensures |r.1| < |s|
  {
    var k := IndexOf(s, '\n');
    (s[..k], s[k + 1..])
  }

  /** The split cuts at the first newline and drops only that newline. */
  lemma SplitAtNewlineJoin(s: string)
    requires '\n' in s
    ensures '\n' !in SplitAtNewline(s).0 && SplitAtNewline(s).0 + "\n" + SplitAtNewline(s).1 == s
  {
    var k := IndexOf(s, '\n');
    assert s == s[..k] + "\n" + s[k + 1..];
  }

  /**
   * The lines the `while '\n' in buffer` loop cuts from a text, and the partial line it leaves: the
   * reference for what the loop emits.
   */
  function SplitLines(s: string): (r: (seq<string>, string))
    ensures forall i | 0 <= i < |r.0| :: '\n' !in r.0[i]
    ensures '\n' !in r.1
    decreases |s|
  {
    if '\n' !in s then ([], s)
    else
      var (line, rest) := SplitAtNewline(s);
      var (lines, tail) := SplitLines(rest);
      ([line] + lines, tail)
  }

  /** Each line followed by its newline, concatenated. */
  function JoinLines(lines: seq<string>): string {
    if lines == [] then [] else lines[0] + "\n" + JoinLines(lines[1..])
  }

  predicate NoNewline(lines: seq<string>) {
    forall i | 0 <= i < |lines| :: '\n' !in lines[i]
  }

  /**
   * The split loses and invents nothing: the lines, each followed by '\n', then the partial line give
   * back the text; no line and not the partial line holds a '\n'.
   */
  lemma {:induction false} SplitLinesJoin(s: string)
    ensures JoinLines(SplitLines(s).0) + SplitLines(s).1 == s
    ensures NoNewline(SplitLines(s).0) && '\n' !in SplitLines(s).1
    decreases |s|
  {
    if '\n' in s {
      var line, rest := SplitAtNewline(s).0, SplitAtNewline(s).1;
      SplitAtNewlineJoin(s);
      SplitLinesJoin(rest);
      var lines, tail := SplitLines(rest).0, SplitLines(rest).1;
      assert SplitLines(s) == ([line] + lines, tail);
      JoinCons(line, lines, tail, rest, s);
      NoNewlineCons(line, lines);
    } else {
      assert SplitLines(s) == ([], s);
      assert JoinLines([]) + s == s;
    }
  }

  lemma JoinCons(line: string, lines: seq<string>, tail: string, rest: string, s: string)
    requires JoinLines(lines) + tail == rest && line + "\n" + rest == s
    ensures JoinLines([line] + lines) + tail == s
  {
    var all := [line] + lines;
    assert all[0] == line && all[1..] == lines;
    var joined := JoinLines(lines);
    assert JoinLines(all) == line + "\n" + joined;
    Associative(line + "\n", joined, tail);
  }

  lemma NoNewlineCons(line: string, lines: seq<string>)
    requires '\n' !in line && NoNewline(lines)
    ensures NoNewline([line] + lines)
  {
    var all := [line] + lines;
    forall i | 0 <= i < |all|
      ensures '\n' !in all[i]
    {
      if i > 0 {
        assert all[i] == lines[i - 1];
      }
    }
  }

  /**
   * Splitting does not depend on how the serial stream is chunked: splitting a, then the partial line
   * followed by b, emits the same lines as splitting a + b at once.
   */
  lemma {:induction false} SplitLinesChunked(a: string, b: string)
    ensures SplitLines(a + b) == (SplitLines(a).0 + SplitLines(SplitLines(a).1 + b).0, SplitLines(SplitLines(a).1 + b).1)
    decreases |a|
  {
    if '\n' in a {
      SplitLinesChunked(SplitAtNewline(a).1, b);
      SplitLinesChunkedStep(a, b);
    } else {
      assert SplitLines(a) == ([], a);
      assert [] + SplitLines(a + b).0 == SplitLines(a + b).0;
    }
  }

  lemma SplitLinesChunkedStep(a: string, b: string)
    requires '\n' in a
    requires var rest := SplitAtNewline(a).1;
             SplitLines(rest + b) == (SplitLines(rest).0 + SplitLines(SplitLines(rest).1 + b).0, SplitLines(SplitLines(rest).1 + b).1)
    ensures SplitLines(a + b) == (SplitLines(a).0 + SplitLines(SplitLines(a).1 + b).0, SplitLines(SplitLines(a).1 + b).1)
  {
    var line, rest := SplitAtNewline(a).0, SplitAtNewline(a).1;
    SplitAtNewlinePrefix(a, b);
    var l1, r1 := SplitLines(rest).0, SplitLines(rest).1;
    var l2, r2 := SplitLines(r1 + b).0, SplitLines(r1 + b).1;
    assert SplitLines(a) == ([line] + l1, r1);
    assert SplitLines(a + b) == ([line] + SplitLines(rest + b).0, SplitLines(rest + b).1);
    Associative([line], l1, l2);
  }

  lemma Associative<T>(x: seq<T>, y: seq<T>, z: seq<T>)
    ensures x + (y + z) == (x + y) + z
  {
  }

  /** Text after the first newline does not change where the first line ends. */
  lemma SplitAtNewlinePrefix(a: string, b: string)
    requires '\n' in a
    ensures '\n' in a + b
    ensures SplitAtNewline(a + b) == (SplitAtNewline(a).0, SplitAtNewline(a).1 + b)
  {
    var k := IndexOf(a, '\n');
    assert (a + b)[k] == a[k];
    IndexOfPrefix(a, b, '\n');
    assert (a + b)[..k] == a[..k];
    assert (a + b)[k + 1..] == a[k + 1..] + b;
  }

  lemma {:induction false} IndexOfPrefix(a: string, b: string, c: char)
    requires c in a
    ensures IndexOf(a + b, c) == IndexOf(a, c)
  {
    if a[0] != c {
      assert (a + b)[1..] == a[1..] + b;
      IndexOfPrefix(a[1..], b, c);
    }
  }

  /** The gateway's durable state and what it has sent: the offline table, its id counter, the number
   * of INSERTs tried so far and every payload POSTed. */
  datatype Store = Store(offline: seq<OfflineRow>, nextId: nat, saves: nat, posted: seq<Payload>)

  /** The table keeps ids in order, and every id is below the one AUTOINCREMENT hands out next. */
  predicate StoreValid(s: Store) {
    TableValid(s.offline, s.nextId)
  }

  predicate TableValid(rows: seq<OfflineRow>, nextId: nat) {
    Increasing(rows) && forall i | 0 <= i < |rows| :: rows[i].id < nextId
  }

  /** send_offline_data: the delivered prefix leaves the table, and every attempted row was POSTed. */
  function DrainStore(s: Store, loads: string -> Option<Json>, script: nat -> Reply): Store {
    var k := |s.posted|;
    var sent := DrainSent(s.offline, loads, script, k);
    var attempts := DrainAttempts(s.offline, loads, script, k);
    Store(s.offline[sent..], s.nextId, s.saves, s.posted + Payloads(s.offline[..attempts]))
  }

  /** save_to_database: the next INSERT either appends the row or fails and loses it. */
  function SaveStore(s: Store, saveFails: nat -> bool, data: string, timestamp: string): Store {
    if saveFails(s.saves) then s.(saves := s.saves + 1)
    else Store(s.offline + [OfflineRow(s.nextId, data, timestamp)], s.nextId + 1, s.saves + 1, s.posted)
  }

  /**
   * What the run loop does with one reading: send it; if the server took it, drain the table,
   * otherwise store it. Text that is not JSON is stored without a POST.
   */
  function DeliverStore(s: Store, loads: string -> Option<Json>, script: nat -> Reply, saveFails: nat -> bool,
                        data: string, timestamp: string): Store
  {
    if loads(data).None? then SaveStore(s, saveFails, data, timestamp)
    else
      var s1 := s.(posted := s.posted + [Payload(data, timestamp)]);
      if script(|s.posted|) == Status(200) then DrainStore(s1, loads, script)
      else SaveStore(s1, saveFails, data, timestamp)
  }

  /** What check_connection reports when its POSTs so far number k. */
  predicate ConnectionUp(pingAnswered: bool, script: nat -> Reply, k: nat) {
    pingAnswered || script(k) != TransportError
  }

  /** run's start-up: the connection check, then one drain when the server is up. */
  function StartStore(s: Store, loads: string -> Option<Json>, script: nat -> Reply, pingAnswered: bool): Store {
    var s1 := if pingAnswered then s else s.(posted := s.posted + [ConnectionTest]);
    if ConnectionUp(pingAnswered, script, |s.posted|) then DrainStore(s1, loads, script) else s1
  }

  /**
   * The start-up drain delivers the rows an earlier run left, in id order, up to the first failure,
   * and keeps the rest; when the server is down the table is untouched. Nothing is inserted.
   */
  lemma StartDrainsEarlierRows(s: Store, loads: string -> Option<Json>, script: nat -> Reply, pingAnswered: bool)
    requires StoreValid(s)
    ensures var t := StartStore(s, loads, script, pingAnswered);
            var k := |s.posted| + if pingAnswered then 0 else 1;
            && StoreValid(t) && t.nextId == s.nextId && t.saves == s.saves
            && (ConnectionUp(pingAnswered, script, |s.posted|) ==>
                  t.offline == s.offline[DrainSent(s.offline, loads, script, k)..]
                  && (forall j | 0 <= j < DrainSent(s.offline, loads, script, k) ::
                        Delivered(s.offline[j], loads, script(k + j))))
            && (!ConnectionUp(pingAnswered, script, |s.posted|) ==> t.offline == s.offline)
  {
    var s1 := if pingAnswered then s else s.(posted := s.posted + [ConnectionTest]);
    if ConnectionUp(pingAnswered, script, |s.posted|) {
      DrainStoreValid(s1, loads, script);
      DrainSentIsFirstFailure(s1.offline, loads, script, |s1.posted|);
    }
  }

  /** Draining an empty table sends nothing and deletes nothing. */
  lemma DrainEmpty(s: Store, loads: string -> Option<Json>, script: nat -> Reply)
    requires s.offline == []
    ensures DrainStore(s, loads, script) == s
  {
    assert s.posted + Payloads([]) == s.posted;
  }

  /** The drain keeps the table's ids increasing and below the next id. */
  lemma DrainStoreValid(s: Store, loads: string -> Option<Json>, script: nat -> Reply)
    requires StoreValid(s)
    ensures StoreValid(DrainStore(s, loads, script))
  {
    var sent := DrainSent(s.offline, loads, script, |s.posted|);
    SuffixIncreasing(s.offline, sent);
    assert forall i | 0 <= i < |s.offline[sent..]| :: s.offline[sent..][i] == s.offline[sent + i];
  }

  /** An INSERT takes the next id, which is above every id in the table. */
  lemma SaveStoreValid(s: Store, saveFails: nat -> bool, data: string, timestamp: string)
    requires StoreValid(s)
    ensures StoreValid(SaveStore(s, saveFails, data, timestamp))
  {
    if !saveFails(s.saves) {
      var rows := s.offline + [OfflineRow(s.nextId, data, timestamp)];
      assert forall i | 0 <= i < |s.offline| :: rows[i] == s.offline[i];
    }
  }

  lemma DeliverStoreValid(s: Store, loads: string -> Option<Json>, script: nat -> Reply, saveFails: nat -> bool,
                          data: string, timestamp: string)
    requires StoreValid(s)
    ensures StoreValid(DeliverStore(s, loads, script, saveFails, data, timestamp))
  {
    var s1 := s.(posted := s.posted + [Payload(data, timestamp)]);
    if loads(data).None? {
      SaveStoreValid(s, saveFails, data, timestamp);
    } else if script(|s.posted|) == Status(200) {
      DrainStoreValid(s1, loads, script);
    } else {
      SaveStoreValid(s1, saveFails, data, timestamp);
    }
  }

  /**
   * A reading is never silently dropped except by a failing INSERT: either the server answered its
   * POST with 200, or it is the newest row of the table, or the INSERT that should have kept it failed.
   */
  lemma ReadingNotLost(s: Store, loads: string -> Option<Json>, script: nat -> Reply, saveFails: nat -> bool,
                       data: string, timestamp: string)
    ensures var t := DeliverStore(s, loads, script, saveFails, data, timestamp);
            || (loads(data).Some? && script(|s.posted|) == Status(200)
                && |s.posted| < |t.posted| && t.posted[|s.posted|] == Payload(data, timestamp))
            || (|t.offline| > 0 && t.offline[|t.offline| - 1] == OfflineRow(s.nextId, data, timestamp))
            || saveFails(s.saves)
  {
    var t := DeliverStore(s, loads, script, saveFails, data, timestamp);
    if loads(data).Some? && script(|s.posted|) == Status(200) {
      var s1 := s.(posted := s.posted + [Payload(data, timestamp)]);
      assert t.posted[..|s1.posted|] == s1.posted;
      assert t.posted[|s.posted|] == s1.posted[|s.posted|];
    }
  }

  /** The stripped, non-empty lines, in order: those the run loop passes on to parse_sensor_data. */
  function Dispatched(lines: seq<string>): (r: seq<string>)
    ensures forall i | 0 <= i < |r| :: r[i] != []
  {
    if lines == [] then []
    else
      var s := Strip(lines[0]);
      (if s == [] then [] else [s]) + Dispatched(lines[1..])
  }

  /** The gateway process: its offline table and the oracles it talks to. */
  class SensorDataSender {
    /** The offline_data table, in id order. */
    var offline: seq<OfflineRow>
    /** The next id AUTOINCREMENT hands out. */
    var nextId: nat
    /** INSERT attempts so far; the k-th fails when saveFails(k). */
    var saves: nat
    /** The stripped non-empty lines handed to parse_sensor_data so far. */
    ghost var dispatched: seq<string>

    const net: Network
    const clock: Clock
    const loads: string -> Option<Json>
    const dumps: Json -> string
    const saveFails: nat -> bool
    /** The match-and-convert step of parse_sensor_data; the constructor fixes it to LineParser.Parse. */
    const parse: string -> Option<Reading>

    ghost function Snapshot(): Store
      reads this, net
    {
      Store(offline, nextId, saves, net.posted)
    }

    ghost predicate Valid()
      reads this
    {
      TableValid(offline, nextId)
    }

    /**
     * init_database: offline_data is only created if missing, so the table opens with the rows and
     * the AUTOINCREMENT sequence an earlier run left behind.
     */
    constructor(net: Network, clock: Clock, loads: string -> Option<Json>, dumps: Json -> string,
                saveFails: nat -> bool, rows: seq<OfflineRow>, next: nat)
      requires TableValid(rows, next)
      ensures Valid()
      ensures offline == rows && nextId == next && dispatched == [] && saves == 0
      ensures this.net == net && this.clock == clock && this.loads == loads && this.dumps == dumps
      ensures this.saveFails == saveFails && parse == Parse
    {
      offline := rows;
      nextId := next;
      saves := 0;
      dispatched := [];
      this.net := net;
      this.clock := clock;
      this.loads := loads;
      this.dumps := dumps;
      this.saveFails := saveFails;
      parse := Parse;
    }

    /** send_to_server: refuse non-JSON text without a POST, otherwise POST and report status 200. */
    method SendToServer(data: string, timestamp: string) returns (ok: bool)
      modifies net
      ensures loads(data).None? ==> !ok && net.posted == old(net.posted)
      ensures loads(data).Some? ==>
                && net.posted == old(net.posted) + [Payload(data, timestamp)]
                && ok == (net.script(|old(net.posted)|) == Status(200))
    {
      if loads(data).None? {
        return false;
      }
      var reply := net.Post(Payload(data, timestamp));
      ok := reply == Status(200);
    }

    /**
     * send_offline_data: POST the rows in id order, stop at the first failure, then delete exactly
     * the rows that were delivered.
     */
    method SendOfflineData()
      requires Valid()
      modifies this, net
      ensures Valid()
      ensures Snapshot() == DrainStore(old(Snapshot()), loads, net.script)
      ensures dispatched == old(dispatched)
    {
      var rows := offline;
      if rows == [] {
        assert rows[..0] == [];
        return;
      }
      var successfulIds := PostInOrder(rows);
      if successfulIds != [] {
        offline := RemoveIds(offline, successfulIds);
      }
      ghost var sent := DrainSent(rows, loads, net.script, |old(net.posted)|);
      RemoveSentPrefix(rows, sent);
      SuffixIncreasing(rows, sent);
    }

    /**
     * The for loop of send_offline_data: send the rows in order and collect the ids of those
     * delivered, stopping at the first row send_to_server refuses.
     */
    method PostInOrder(rows: seq<OfflineRow>) returns (successfulIds: seq<nat>)
      modifies net
      ensures var k := |old(net.posted)|;
              && successfulIds == Ids(rows[..DrainSent(rows, loads, net.script, k)])
              && net.posted == old(net.posted) + Payloads(rows[..DrainAttempts(rows, loads, net.script, k)])
    {
      ghost var k := |net.posted|;
      ghost var attempts := 0;
      successfulIds := [];
      var i := 0;
      while i < |rows|
        invariant i <= |rows| && attempts == i
        invariant successfulIds == Ids(rows[..i])
        invariant net.posted == old(net.posted) + Payloads(rows[..i])
        invariant forall j | 0 <= j < i :: Delivered(rows[j], loads, net.script(k + j))
      {
        var ok := SendToServer(rows[i].data, rows[i].timestamp);
        PayloadsAppend(rows, i);
        Associative(old(net.posted), Payloads(rows[..i]), [PayloadOf(rows[i])]);
        if !ok {
          attempts := if loads(rows[i].data).Some? then i + 1 else i;
          break;
        }
        IdsAppend(rows, i);
        successfulIds := successfulIds + [rows[i].id];
        i := i + 1;
        attempts := i;
      }
      DrainSentOfFirstFailure(rows, loads, net.script, k, i);
    }

    /** save_to_database: append one row, unless the INSERT fails, in which case the reading is lost. */
    method SaveToDatabase(data: string, timestamp: string)
      requires Valid()
      modifies this
      ensures net.posted == old(net.posted)
      ensures Valid()
      ensures Snapshot() == SaveStore(old(Snapshot()), saveFails, data, timestamp)
      ensures dispatched == old(dispatched)
    {
      if !saveFails(saves) {
        offline := offline + [OfflineRow(nextId, data, timestamp)];
        nextId := nextId + 1;
      }
      saves := saves + 1;
    }

    /**
     * What parse_sensor_data returns for a line when the clock's next reading is the r-th: the
     * serialised reading, stamped with that reading, or None when the line does not parse.
     */
    function ParsedText(line: string, r: nat): Option<string> {
      match parse(line)
      case None => None
      case Some(reading) => Some(dumps(SensorJson(reading, clock.stamp(r))))
    }

    /** parse_sensor_data: the clock is read only for a line that parses. */
    method ParseSensorData(line: string) returns (text: Option<string>)
      modifies clock
      ensures text == ParsedText(line, old(clock.readings))
      ensures clock.readings == old(clock.readings) + if text.Some? then 1 else 0
    {
      var reading := parse(line);
      if reading.None? {
        return None;
      }
      var now := clock.Now();
      text := Some(dumps(SensorJson(reading.value, now)));
    }

    /**
     * The effect of the run loop's body on one stripped, non-empty line, given the state and the
     * clock's reading count: parse it; if that gives non-empty text, take a timestamp and deliver it;
     * otherwise nothing but the clock changes.
     */
    ghost function HandleStep(st: (Store, nat), line: string): (Store, nat) {
      AfterParse(st, ParsedText(line, st.1))
    }

    /** What lines 219-229 do with the result of parse_sensor_data. */
    ghost function AfterParse(st: (Store, nat), text: Option<string>): (Store, nat) {
      if text.None? then st
      else if text.value == [] then (st.0, st.1 + 1)
      else (DeliverStore(st.0, loads, net.script, saveFails, text.value, clock.stamp(st.1 + 1)), st.1 + 2)
    }

    /** HandleStep over a run of lines, in order. */
    ghost function RunLines(st: (Store, nat), lines: seq<string>): (Store, nat)
      decreases |lines|
    {
      if lines == [] then st else HandleStep(RunLines(st, lines[..|lines| - 1]), lines[|lines| - 1])
    }

    /** Lines 217-229 of the run loop for one stripped, non-empty line. */
    method HandleLine(line: string)
      requires Valid()
      modifies this, net, clock
      ensures Valid()
      ensures (Snapshot(), clock.readings) == HandleStep((old(Snapshot()), old(clock.readings)), line)
      ensures dispatched == old(dispatched)
    {
      ghost var s0, r0 := Snapshot(), clock.readings;
      var parsed := ParseSensorData(line);
      assert Snapshot() == s0;
      assert HandleStep((s0, r0), line) == AfterParse((s0, r0), parsed);
      if parsed.None? || parsed.value == [] {
        return;
      }
      var timestamp := clock.Now();
      ghost var after := DeliverStore(s0, loads, net.script, saveFails, parsed.value, timestamp);
      assert AfterParse((s0, r0), parsed) == (after, r0 + 2) by {
        assert timestamp == clock.stamp(r0 + 1);
      }
      Deliver(parsed.value, timestamp);
    }

    /**
     * Lines 224-229 of the run loop: send one reading; if the server took it, drain the offline
     * table, otherwise store the reading there.
     */
    method Deliver(data: string, timestamp: string)
      requires Valid()
      modifies this, net
      ensures Valid()
      ensures Snapshot() == DeliverStore(old(Snapshot()), loads, net.script, saveFails, data, timestamp)
      ensures dispatched == old(dispatched)
    {
      ghost var s0 := Snapshot();
      var ok := SendToServer(data, timestamp);
      ghost var s1 := Snapshot();
      if ok {
        SendOfflineData();
        assert DeliverStore(s0, loads, net.script, saveFails, data, timestamp) == DrainStore(s1, loads, net.script);
      } else {
        SaveToDatabase(data, timestamp);
        assert DeliverStore(s0, loads, net.script, saveFails, data, timestamp) == SaveStore(s1, saveFails, data, timestamp);
      }
    }

    /**
     * One pass of the run loop with data waiting on the serial port: append the chunk to the buffer,
     * then cut and dispatch every complete line, keeping the partial one in the buffer.
     */
    method OnSerialData(pending: string, chunk: string) returns (lines: seq<string>, buffer: string)
      requires Valid()
      modifies this, net, clock
      ensures Valid()
      ensures (lines, buffer) == SplitLines(pending + chunk)
      ensures dispatched == old(dispatched) + Dispatched(lines)
      ensures (Snapshot(), clock.readings) == RunLines((old(Snapshot()), old(clock.readings)), Dispatched(lines))
    {
      buffer := pending + chunk;
      ghost var text := buffer;
      lines := [];
      assert [] + SplitLines(buffer).0 == SplitLines(buffer).0;
      while '\n' in buffer
        invariant Valid()
        invariant SplitLines(text) == (lines + SplitLines(buffer).0, SplitLines(buffer).1)
        invariant dispatched == old(dispatched) + Dispatched(lines)
        invariant (Snapshot(), clock.readings) == RunLines((old(Snapshot()), old(clock.readings)), Dispatched(lines))
        decreases |buffer|
      {
        var line;
        ghost var before := buffer;
        line, buffer := SplitAtNewline(buffer).0, SplitAtNewline(buffer).1;
        assert SplitLines(before) == ([line] + SplitLines(buffer).0, SplitLines(buffer).1);
        Associative(lines, [line], SplitLines(buffer).0);
        DispatchedAppend(lines, line);
        ghost var kept := if Strip(line) == [] then [] else [Strip(line)];
        Associative(old(dispatched), Dispatched(lines), kept);
        RunLinesAppend((old(Snapshot()), old(clock.readings)), Dispatched(lines), kept);
        lines := lines + [line];
        DispatchLine(line);
      }
      assert lines + [] == lines;
    }

    /** Lines 213-217 of the run loop: strip the line and hand it on unless it is empty. */
    method DispatchLine(line: string)
      requires Valid()
      modifies this, net, clock
      ensures Valid()
      ensures dispatched == old(dispatched) + if Strip(line) == [] then [] else [Strip(line)]
      ensures (Snapshot(), clock.readings) ==
                if Strip(line) == [] then (old(Snapshot()), old(clock.readings))
                else HandleStep((old(Snapshot()), old(clock.readings)), Strip(line))
    {
      var stripped := Strip(line);
      if stripped != [] {
        dispatched := dispatched + [stripped];
        HandleLine(stripped);
      }
    }

    lemma RunLinesAppend(st: (Store, nat), lines: seq<string>, kept: seq<string>)
      requires |kept| <= 1
      ensures RunLines(st, lines + kept) == if kept == [] then RunLines(st, lines) else HandleStep(RunLines(st, lines), kept[0])
    {
      if kept == [] {
        assert lines + kept == lines;
      } else {
        assert (lines + kept)[..|lines|] == lines;
      }
    }

    /**
     * check_connection: the server counts as up when the GET of /ping got any answer
     * (`pingAnswered`); otherwise the connection test is POSTed and any answer to it counts.
     */
    method CheckConnection(pingAnswered: bool) returns (up: bool)
      modifies net
      ensures net.posted == old(net.posted) + if pingAnswered then [] else [ConnectionTest]
      ensures up == ConnectionUp(pingAnswered, net.script, |old(net.posted)|)
    {
      if pingAnswered {
        return true;
      }
      var reply := net.Post(ConnectionTest);
      up := reply != TransportError;
    }

    /** Start-up: check the connection, and if the server is up drain the offline table once. */
    method Start(pingAnswered: bool)
      requires Valid()
      modifies this, net
      ensures Valid()
      ensures Snapshot() == StartStore(old(Snapshot()), loads, net.script, pingAnswered)
      ensures dispatched == old(dispatched)
    {
      var up := CheckConnection(pingAnswered);
      if up {
        SendOfflineData();
      }
    }
  }

  lemma PayloadsAppend(rows: seq<OfflineRow>, i: nat)
    requires i < |rows|
    ensures Payloads(rows[..i + 1]) == Payloads(rows[..i]) + [PayloadOf(rows[i])]
  {
    var a := Payloads(rows[..i + 1]);
    var b := Payloads(rows[..i]) + [PayloadOf(rows[i])];
    forall j | 0 <= j < |a|
      ensures a[j] == b[j]
    {
      assert rows[..i + 1][j] == rows[j];
      if j < i {
        assert rows[..i][j] == rows[j];
      }
    }
  }

  lemma {:induction false} DispatchedConcat(a: seq<string>, b: seq<string>)
    ensures Dispatched(a + b) == Dispatched(a) + Dispatched(b)
  {
    if a != [] {
      var s := Strip(a[0]);
      var h := if s == [] then [] else [s];
      assert (a + b)[0] == a[0];
      assert (a + b)[1..] == a[1..] + b;
      assert Dispatched(a + b) == h + Dispatched(a[1..] + b);
      DispatchedConcat(a[1..], b);
      var d, e := Dispatched(a[1..]), Dispatched(b);
      Associative(h, d, e);
    } else {
      assert a + b == b;
    }
  }

  lemma DispatchedAppend(lines: seq<string>, line: string)
    ensures Dispatched(lines + [line]) == Dispatched(lines) + (if Strip(line) == [] then [] else [Strip(line)])
  {
    DispatchedConcat(lines, [line]);
    var s := Strip(line);
    var h := if s == [] then [] else [s];
    assert [line][0] == line && [line][1..] == [];
    assert Dispatched([line]) == h + Dispatched([]);
    assert h + [] == h;
  }

  lemma SuffixIncreasing(rows: seq<OfflineRow>, n: nat)
    requires Increasing(rows) && n <= |rows|
    ensures Increasing(rows[n..])
  {
    forall i, j | 0 <= i < j < |rows| - n
      ensures rows[n..][i].id < rows[n..][j].id
    {
      assert rows[n..][i] == rows[n + i] && rows[n..][j] == rows[n + j];
    }
  }

  /**
   * The converse of DrainSentIsFirstFailure: when the first i rows were delivered and row i, if there
   * is one, was not, the drain delivers exactly i rows.
   */
  lemma {:induction false} DrainSentOfFirstFailure(rows: seq<OfflineRow>, loads: string -> Option<Json>, script: nat -> Reply, k: nat, i: nat)
    requires i <= |rows|
    requires forall j | 0 <= j < i :: Delivered(rows[j], loads, script(k + j))
    requires i < |rows| ==> !Delivered(rows[i], loads, script(k + i))
    ensures DrainSent(rows, loads, script, k) == i
    ensures DrainAttempts(rows, loads, script, k) == if i < |rows| && loads(rows[i].data).Some? then i + 1 else i
    decreases i
  {
    if i > 0 {
      assert Delivered(rows[0], loads, script(k));
      forall j | 0 <= j < i - 1
        ensures Delivered(rows[1..][j], loads, script(k + 1 + j))
      {
        assert rows[1..][j] == rows[j + 1];
        assert Delivered(rows[j + 1], loads, script(k + (j + 1)));
      }
      if i < |rows| {
        assert rows[1..][i - 1] == rows[i];
        assert k + 1 + (i - 1) == k + i;
      }
      DrainSentOfFirstFailure(rows[1..], loads, script, k + 1, i - 1);
    }
  }

  lemma IdsAppend(rows: seq<OfflineRow>, i: nat)
    requires i < |rows|
    ensures Ids(rows[..i + 1]) == Ids(rows[..i]) + [rows[i].id]
  {
  }
}
