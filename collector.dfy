/**
 * The collector's ingestion endpoints: POST /data (receive_data), POST /error (receive_error) and the
 * two clearing endpoints. Each request is first decided by a pure chain of early returns (400 for a
 * rejected request, 500 for any exception the handler catches, otherwise one row to insert); the
 * Collector class then applies the decision to its two tables.
 *
 * The request body is the document Flask's get_json() returned, or None when get_json() raised (a
 * malformed body, or a content type other than JSON): the call sits inside the handler's `try`, so
 * that exception is answered with 500. A JSON `null` body is Some(JNull). The clock is the `now`
 * string the handler would use as the default timestamp; json.loads is the function `loads`.
 */
module Collector {
  import opened Wrappers
  import opened JsonValue

  /** The inner fields receive_data requires, in the order it checks them. */
  const RequiredFields: seq<string> :=
    ["node_id", "light", "temperature", "humidity_air", "humidity_ground", "rx_drift", "tx_drift"]

  /** Why a request was answered with 400. */
  datatype Reason = NoJsonBody | EmptyData | InvalidJson | MissingField(name: string) | MissingErrorFields

  /** One sensor_data row's values, id aside; each column holds the JSON value bound to it. */
  datatype SensorRecord = SensorRecord(
    nodeId: Json, light: Json, temperature: Json, humidityAir: Json,
    humidityGround: Json, rxDrift: Json, txDrift: Json, timestamp: Json)

  /** One error_logs row's values, id aside. */
  datatype ErrorRecord = ErrorRecord(errorType: Json, errorMessage: Json, timestamp: Json)

  /** A table row: the AUTOINCREMENT id and the values. */
  datatype Row<T> = Row(id: nat, record: T)

  /** What a request handler decides. */
  datatype Outcome =
    | BadRequest(reason: Reason)
    | ServerError
    | StoreSensor(sensor: SensorRecord)
    | StoreError(error: ErrorRecord)

  /** The HTTP status the handler returns for a decision. */
  function StatusOf(o: Outcome): (code: int)
    ensures code == 400 <==> o.BadRequest?
    ensures code == 500 <==> o.ServerError?
    ensures code == 200 <==> (o.StoreSensor? || o.StoreError?)
  {
    match o
    case BadRequest(_) => 400
    case ServerError => 500
    case _ => 200
  }

  /** Result of the required-field loop: all present, the first missing one, or `in` raised. */
  datatype Presence = AllPresent | Missing(field: string) | NotContainer

  /** The `for field in required_fields: if field not in sensor_data` loop. */
  function FirstMissing(doc: Json, fields: seq<string>): Presence
  {
    if fields == [] then AllPresent
    else
      match In(fields[0], doc)
      case None => NotContainer
      case Some(false) => Missing(fields[0])
      case Some(true) => FirstMissing(doc, fields[1..])
  }

  /** The document holds every required field. */
  predicate HasRequiredFields(doc: map<string, Json>) {
    && "node_id" in doc && "light" in doc && "temperature" in doc && "humidity_air" in doc
    && "humidity_ground" in doc && "rx_drift" in doc && "tx_drift" in doc
  }

  lemma RequiredKeys(doc: map<string, Json>)
    requires forall k | 0 <= k < |RequiredFields| :: RequiredFields[k] in doc
    ensures HasRequiredFields(doc)
  {
    assert RequiredFields[0] in doc && RequiredFields[1] in doc && RequiredFields[2] in doc;
    assert RequiredFields[3] in doc && RequiredFields[4] in doc && RequiredFields[5] in doc;
    assert RequiredFields[6] in doc;
  }

  /** The row receive_data binds, once the document is a dict holding every required field. */
  function SensorRecordOf(doc: map<string, Json>, timestamp: Json): SensorRecord
    requires HasRequiredFields(doc)
  {
    SensorRecord(
      doc["node_id"], doc["light"], doc["temperature"], doc["humidity_air"],
      doc["humidity_ground"], doc["rx_drift"], doc["tx_drift"], timestamp)
  }

  /** The INSERT succeeds: every value can be bound and the NOT NULL columns get a value. */
  predicate SensorInsertable(r: SensorRecord) {
    && Bindable(r.nodeId) && Bindable(r.light) && Bindable(r.temperature) && Bindable(r.humidityAir)
    && Bindable(r.humidityGround) && Bindable(r.rxDrift) && Bindable(r.txDrift) && Bindable(r.timestamp)
    && r.nodeId != JNull && r.timestamp != JNull
  }

  predicate ErrorInsertable(r: ErrorRecord) {
    && Bindable(r.errorType) && Bindable(r.errorMessage) && Bindable(r.timestamp)
    && r.errorType != JNull && r.errorMessage != JNull && r.timestamp != JNull
  }

  /** receive_data: the chain of checks before the insert. */
  function DecideData(body: Option<Json>, now: string, loads: string -> Option<Json>): (o: Outcome)
    ensures !o.StoreError?
    ensures o.StoreSensor? ==> body.Some? && body.value.JObject?
  {
    if body.None? then ServerError
    else if !Truthy(body.value) then BadRequest(NoJsonBody)
    else if !body.value.JObject? then ServerError
    else
      var envelope := body.value.fields;
      var data := Get(envelope, "data", JString(""));
      var timestamp := Get(envelope, "timestamp", JString(now));
      if !Truthy(data) then BadRequest(EmptyData)
      else if !data.JString? then ServerError
      else
        match loads(data.s)
        case None => BadRequest(InvalidJson)
        case Some(doc) =>
          match FirstMissing(doc, RequiredFields)
          case NotContainer => ServerError
          case Missing(f) => BadRequest(MissingField(f))
          case AllPresent =>
            if !doc.JObject? then ServerError
            else
              AllPresentInDict(doc.fields, RequiredFields);
              var record := SensorRecordOf(doc.fields, timestamp);
              if SensorInsertable(record) then StoreSensor(record) else ServerError
  }

  /** receive_error: the chain of checks before the insert. */
  function DecideError(body: Option<Json>, now: string): (o: Outcome)
    ensures !o.StoreSensor?
    ensures o.StoreError? ==> body.Some? && body.value.JObject?
  {
    if body.None? then ServerError
    else if !Truthy(body.value) then BadRequest(NoJsonBody)
    else if !body.value.JObject? then ServerError
    else
      var envelope := body.value.fields;
      var errorType := Get(envelope, "error_type", JString(""));
      var errorMessage := Get(envelope, "error_message", JString(""));
      var timestamp := Get(envelope, "timestamp", JString(now));
      if !Truthy(errorType) || !Truthy(errorMessage) then BadRequest(MissingErrorFields)
      else
        var record := ErrorRecord(errorType, errorMessage, timestamp);
        if ErrorInsertable(record) then StoreError(record) else ServerError
  }

  /** For a dict, the field loop finds nothing missing exactly when every field is a key. */
  lemma {:induction false} AllPresentInDict(doc: map<string, Json>, fields: seq<string>)
    requires FirstMissing(JObject(doc), fields).AllPresent?
    ensures forall k | 0 <= k < |fields| :: fields[k] in doc
    ensures fields == RequiredFields ==> HasRequiredFields(doc)
  {
    if fields != [] {
      AllPresentInDict(doc, fields[1..]);
      assert forall k | 1 <= k < |fields| :: fields[k] == fields[1..][k - 1];
    }
    if fields == RequiredFields {
      RequiredKeys(doc);
    }
  }

  /** The loop reports the first field `in` denies, after all earlier ones were found. */
  lemma {:induction false} FirstMissingIsFirst(doc: Json, fields: seq<string>)
    requires FirstMissing(doc, fields).Missing?
    ensures exists k | 0 <= k < |fields| ::
              && fields[k] == FirstMissing(doc, fields).field
              && In(fields[k], doc) == Some(false)
              && forall j | 0 <= j < k :: In(fields[j], doc) == Some(true)
  {
    if In(fields[0], doc) == Some(true) {
      FirstMissingIsFirst(doc, fields[1..]);
      var k :| 0 <= k < |fields[1..]|
                 && fields[1..][k] == FirstMissing(doc, fields[1..]).field
                 && In(fields[1..][k], doc) == Some(false)
                 && forall j | 0 <= j < k :: In(fields[1..][j], doc) == Some(true);
      assert forall j | 1 <= j < k + 1 :: fields[j] == fields[1..][j - 1];
      assert fields[k + 1] == fields[1..][k];
    } else {
      assert In(fields[0], doc) == Some(false);
    }
  }

  /** A field loop over fields that `in` all accepts finds nothing missing. */
  lemma {:induction false} AllFoundMeansAllPresent(doc: Json, fields: seq<string>)
    requires forall k | 0 <= k < |fields| :: In(fields[k], doc) == Some(true)
    ensures FirstMissing(doc, fields) == AllPresent
  {
    if fields != [] {
      assert forall k | 1 <= k < |fields| :: fields[1..][k - 1] == fields[k];
      AllFoundMeansAllPresent(doc, fields[1..]);
    }
  }

  /**
   * The reference description of a request receive_data stores: a dict envelope whose `data` is a
   * non-empty str that json.loads reads as a dict holding every required field, with values sqlite3
   * can bind, a non-null node_id, and a bindable non-null timestamp (the envelope's, or now).
   */
  predicate AcceptableData(body: Option<Json>, now: string, loads: string -> Option<Json>) {
    && body.Some? && body.value.JObject?
    && "data" in body.value.fields
    && body.value.fields["data"].JString? && body.value.fields["data"].s != []
    && loads(body.value.fields["data"].s).Some?
    && loads(body.value.fields["data"].s).value.JObject?
    && var doc := loads(body.value.fields["data"].s).value.fields;
       && HasRequiredFields(doc)
       && SensorInsertable(SensorRecordOf(doc, Get(body.value.fields, "timestamp", JString(now))))
  }

  /** receive_data answers 200 and inserts a row exactly for the acceptable requests. */
  lemma DecideDataStoresIff(body: Option<Json>, now: string, loads: string -> Option<Json>)
    ensures DecideData(body, now, loads).StoreSensor? <==> AcceptableData(body, now, loads)
  {
    if AcceptableData(body, now, loads) {
      var envelope := body.value.fields;
      assert Truthy(body.value) by {
        assert "data" in envelope;
      }
      var doc := loads(envelope["data"].s).value;
      forall k | 0 <= k < |RequiredFields|
        ensures In(RequiredFields[k], doc) == Some(true)
      {
      }
      AllFoundMeansAllPresent(doc, RequiredFields);
    }
    if DecideData(body, now, loads).StoreSensor? {
      var envelope := body.value.fields;
      assert "data" in envelope;
      var doc := loads(envelope["data"].s).value;
      AllPresentInDict(doc.fields, RequiredFields);
    }
  }

  /**
   * A stored row takes its seven values from the inner document and its timestamp from the envelope
   * (or from now when the envelope has none), never from a timestamp inside the document.
   */
  lemma StoredRowSources(body: Option<Json>, now: string, loads: string -> Option<Json>)
    requires DecideData(body, now, loads).StoreSensor?
    ensures AcceptableData(body, now, loads)
    ensures var envelope := body.value.fields;
            var doc := loads(envelope["data"].s).value.fields;
            var r := DecideData(body, now, loads).sensor;
            && r.nodeId == doc["node_id"] && r.light == doc["light"] && r.temperature == doc["temperature"]
            && r.humidityAir == doc["humidity_air"] && r.humidityGround == doc["humidity_ground"]
            && r.rxDrift == doc["rx_drift"] && r.txDrift == doc["tx_drift"]
            && r.timestamp == (if "timestamp" in envelope then envelope["timestamp"] else JString(now))
  {
    DecideDataStoresIff(body, now, loads);
  }

  /**
   * A 400 for a missing field names the first required field, in the fixed order, that the document
   * lacks; every field before it is present.
   */
  lemma MissingFieldIsFirst(body: Option<Json>, now: string, loads: string -> Option<Json>, f: string)
    requires DecideData(body, now, loads) == BadRequest(MissingField(f))
    ensures var doc := loads(body.value.fields["data"].s).value;
            exists k | 0 <= k < |RequiredFields| ::
              && RequiredFields[k] == f && In(f, doc) == Some(false)
              && forall j | 0 <= j < k :: In(RequiredFields[j], doc) == Some(true)
  {
    var envelope := body.value.fields;
    assert "data" in envelope;
    var doc := loads(envelope["data"].s).value;
    FirstMissingIsFirst(doc, RequiredFields);
  }

  /**
   * receive_error stores exactly when the body is a dict whose error_type and error_message are truthy
   * and whose row can be bound.
   */
  lemma DecideErrorStoresIff(body: Option<Json>, now: string)
    ensures DecideError(body, now).StoreError? <==>
            && body.Some? && body.value.JObject?
            && "error_type" in body.value.fields && Truthy(body.value.fields["error_type"])
            && "error_message" in body.value.fields && Truthy(body.value.fields["error_message"])
            && ErrorInsertable(ErrorRecord(body.value.fields["error_type"], body.value.fields["error_message"],
                                           Get(body.value.fields, "timestamp", JString(now))))
  {
    if body.Some? && body.value.JObject? && "error_type" in body.value.fields {
      assert Truthy(body.value) by {
        assert "error_type" in body.value.fields;
      }
    }
  }

  /** The ids of a table are strictly increasing and below the next id AUTOINCREMENT will hand out. */
  ghost predicate IdsBelow<T>(rows: seq<Row<T>>, next: nat) {
    && (forall i, j | 0 <= i < j < |rows| :: rows[i].id < rows[j].id)
    && (forall i | 0 <= i < |rows| :: rows[i].id < next)
  }

  /** The collector's two databases: the sensor_data table and the error_logs table. */
  class Collector {
    var sensorRows: seq<Row<SensorRecord>>
    var nextSensorId: nat
    var errorRows: seq<Row<ErrorRecord>>
    var nextErrorId: nat
    const loads: string -> Option<Json>

    ghost predicate Valid()
      reads this
    {
      IdsBelow(sensorRows, nextSensorId) && IdsBelow(errorRows, nextErrorId)
    }

    /**
     * Start-up: sensor_data is dropped and created afresh, so it is empty and its AUTOINCREMENT
     * sequence starts over; error_logs is only created if missing, so it keeps the rows and the
     * sequence left by earlier runs.
     */
    constructor(loads: string -> Option<Json>, errors: seq<Row<ErrorRecord>>, nextError: nat)
      requires IdsBelow(errors, nextError)
      ensures Valid()
      ensures sensorRows == [] && nextSensorId == 1
      ensures errorRows == errors && nextErrorId == nextError && this.loads == loads
    {
      sensorRows := [];
      nextSensorId := 1;
      errorRows := errors;
      nextErrorId := nextError;
      this.loads := loads;
    }

    /** POST /data: at most one row is appended, exactly when the decision is to store. */
    method ReceiveData(body: Option<Json>, now: string) returns (status: int)
      requires Valid()
      modifies this
      ensures Valid()
      ensures status == StatusOf(DecideData(body, now, loads))
      ensures DecideData(body, now, loads).StoreSensor? ==>
                && sensorRows == old(sensorRows) + [Row(old(nextSensorId), DecideData(body, now, loads).sensor)]
                && nextSensorId == old(nextSensorId) + 1
      ensures !DecideData(body, now, loads).StoreSensor? ==>
                sensorRows == old(sensorRows) && nextSensorId == old(nextSensorId)
      ensures errorRows == old(errorRows) && nextErrorId == old(nextErrorId)
    {
      var outcome := DecideData(body, now, loads);
      if outcome.StoreSensor? {
        sensorRows := sensorRows + [Row(nextSensorId, outcome.sensor)];
        nextSensorId := nextSensorId + 1;
      }
      status := StatusOf(outcome);
    }

    /** POST /error: at most one row is appended, exactly when the decision is to store. */
    method ReceiveError(body: Option<Json>, now: string) returns (status: int)
      requires Valid()
      modifies this
      ensures Valid()
      ensures status == StatusOf(DecideError(body, now))
      ensures DecideError(body, now).StoreError? ==>
                && errorRows == old(errorRows) + [Row(old(nextErrorId), DecideError(body, now).error)]
                && nextErrorId == old(nextErrorId) + 1
      ensures !DecideError(body, now).StoreError? ==>
                errorRows == old(errorRows) && nextErrorId == old(nextErrorId)
      ensures sensorRows == old(sensorRows) && nextSensorId == old(nextSensorId)
    {
      var outcome := DecideError(body, now);
      if outcome.StoreError? {
        errorRows := errorRows + [Row(nextErrorId, outcome.error)];
        nextErrorId := nextErrorId + 1;
      }
      status := StatusOf(outcome);
    }

    /** POST /api/clear: every sensor row is deleted and their number returned; ids are not reused. */
    method ClearData() returns (status: int, deletedCount: nat)
      requires Valid()
      modifies this
      ensures Valid()
      ensures status == 200 && deletedCount == |old(sensorRows)| && sensorRows == []
      ensures nextSensorId == old(nextSensorId)
      ensures errorRows == old(errorRows) && nextErrorId == old(nextErrorId)
    {
      deletedCount := |sensorRows|;
      sensorRows := [];
      status := 200;
    }

    /** POST /api/clear_errors: every error row is deleted and their number returned. */
    method ClearErrors() returns (status: int, deletedCount: nat)
      requires Valid()
      modifies this
      ensures Valid()
      ensures status == 200 && deletedCount == |old(errorRows)| && errorRows == []
      ensures nextErrorId == old(nextErrorId)
      ensures sensorRows == old(sensorRows) && nextSensorId == old(nextSensorId)
    {
      deletedCount := |errorRows|;
      errorRows := [];
      status := 200;
    }
  }
}
