/** The vault's durable store: one `items` table whose columns are all text,
    keyed by the item id. `init` creates the table when it is missing;
    `save_item` encodes an item into a row and upserts it. */
module Storage {
  import opened Results
  import Json
  import Rfc3339
  import opened LifeGraph

  // ---------------------------------------------------------------------------
  // Rows and the table
  // ---------------------------------------------------------------------------

  /** The text columns of one row of `items`, all but the key `id`. */
  datatype Row = Row(
    sourceId: string,
    connectorId: string,
    kind: string,
    timestamp: string,
    ingestedAt: string,
    properties: string,
    rawPayload: string)

  /** The `items` table: the `id` primary key maps to the rest of the row. */
  type Table = map<string, Row>

  /** The database file: the `items` table has been created or not. */
  datatype Database = Database(items: Option<Table>)

  /** Whether `Connection::open` succeeds on this call; opening the file is
      outside the model. */
  datatype Connection = Opens | FailsToOpen

  datatype StorageError =
    | OpenFailed    // the database file could not be opened
    | NoItemsTable  // the statement names a table that does not exist

  /** The database after an operation, with what the operation returned. */
  datatype Outcome = Outcome(db: Database, result: Result<(), StorageError>)

  /** `after` is `before` with the row under `id` set to `row`: every other
      row kept, no row dropped, at most the one key added. */
  predicate Upserted(before: Table, after: Table, id: string, row: Row) {
    && after.Keys == before.Keys + {id}
    && after[id] == row
    && forall k :: k in before && k != id ==> after[k] == before[k]
  }

  // ---------------------------------------------------------------------------
  // Encoding an item as a row
  // ---------------------------------------------------------------------------

  /** The text stored for the raw payload: its JSON text, or `null` when
      there is none. */
  function PayloadText(p: Option<Json.Value>): (r: string)
    ensures r == "null" <==> p == None || p == Some(Json.Null)
  {
    match p
    case Some(v) =>
      Json.TextInjective(v, Json.Null);
      Json.Text(v)
    case None => "null"
  }

  /** The columns written for an item: the kind and the two structured
      values as compact JSON, the two instants as RFC 3339 text. */
  function EncodeRow(item: Item): (r: Row)
    ensures r.sourceId == item.sourceId && r.connectorId == item.connectorId
    ensures r.rawPayload == "null" <==> item.rawPayload == None || item.rawPayload == Some(Json.Null)
  {
    Row(item.sourceId,
        item.connectorId,
        EncodeKind(item.kind),
        Rfc3339.ToRfc3339(item.timestamp),
        Rfc3339.ToRfc3339(item.ingestedAt),
        Json.Text(item.properties),
        PayloadText(item.rawPayload))
  }

  /** Reading a stored timestamp column. */
  function DecodeTimestamp(s: string): Option<Rfc3339.Timestamp> {
    match Rfc3339.ReadRfc3339(s)
    case Some(t) => Some(t)
    case None => None
  }

  /** Reading a raw payload column: the JSON `null` means no payload. */
  function DecodePayload(s: string): Option<Option<Json.Value>> {
    var v :- Json.Parse(s);
    if v.Null? then Some(None) else Some(Some(v))
  }

  /** Reading a row back into an item; nothing when a column does not hold
      what the encoder writes. */
  function DecodeRow(id: string, row: Row): Option<Item> {
    var kind :- DecodeKind(row.kind);
    var timestamp :- DecodeTimestamp(row.timestamp);
    var ingestedAt :- DecodeTimestamp(row.ingestedAt);
    var properties :- Json.Parse(row.properties);
    var payload :- DecodePayload(row.rawPayload);
    Some(Item(id, row.sourceId, row.connectorId, kind, timestamp, ingestedAt, properties, payload))
  }

  /** A payload of JSON `null` is stored exactly like a missing one, so the
      table cannot tell the two apart. */
  function Normalized(item: Item): Item {
    if item.rawPayload == Some(Json.Null) then item.(rawPayload := None) else item
  }

  /** The payload column holds `null` exactly when there is no payload or the
      payload is JSON `null`; otherwise it holds the payload's JSON text. */
  lemma PayloadTextIsNull(p: Option<Json.Value>)
    ensures PayloadText(p) == "null" <==> p == None || p == Some(Json.Null)
  {
    if p.Some? {
      Json.TextInjective(p.value, Json.Null);
    }
  }

  /** A stored timestamp column reads back as the timestamp. */
  lemma DecodeTimestampOfText(t: Rfc3339.Timestamp)
    ensures DecodeTimestamp(Rfc3339.ToRfc3339(t)) == Some(t)
  {
  }

  /** A stored payload column reads back as the payload, except that a
      `null` payload reads back as none. */
  lemma DecodePayloadOfText(p: Option<Json.Value>)
    ensures DecodePayload(PayloadText(p)) == Some(if p == Some(Json.Null) then None else p)
  {
    match p
    case None => Json.ParseText(Json.Null);
    case Some(v) => Json.ParseText(v);
  }

  /** Reading an encoded row gives the item back, up to a `null` payload
      becoming a missing one. */
  lemma DecodeEncodeRow(item: Item)
    ensures DecodeRow(item.id, EncodeRow(item)) == Some(Normalized(item))
  {
    DecodeEncodeKind(item.kind);
    DecodeTimestampOfText(item.timestamp);
    DecodeTimestampOfText(item.ingestedAt);
    Json.ParseText(item.properties);
    DecodePayloadOfText(item.rawPayload);
  }

  /** Two items with the same id are stored as the same row exactly when they
      agree on everything but the `null`/missing payload distinction. */
  lemma EncodeRowInjective(a: Item, b: Item)
    requires a.id == b.id
    ensures EncodeRow(a) == EncodeRow(b) <==> Normalized(a) == Normalized(b)
  {
    DecodeEncodeRow(a);
    DecodeEncodeRow(b);
    if Normalized(a) == Normalized(b) {
      PayloadTextIsNull(a.rawPayload);
      PayloadTextIsNull(b.rawPayload);
    }
  }

  // ---------------------------------------------------------------------------
  // The Storage operations
  // ---------------------------------------------------------------------------

  /** `Storage::init`: open the database and create the empty `items` table
      if it does not exist yet. */
  function Init(db: Database, conn: Connection): (s: Outcome)
    ensures s.result.Ok? <==> conn == Opens
    ensures s.result.Err? ==> s.result.error == OpenFailed && s.db == db
    ensures s.result.Ok? ==> s.db.items.Some?
    ensures db.items.Some? ==> s.db == db
    ensures db.items.None? && s.result.Ok? ==> s.db.items == Some(map[])
  {
    match conn
    case FailsToOpen => Outcome(db, Err(OpenFailed))
    case Opens =>
      if db.items.Some? then Outcome(db, Ok(()))
      else Outcome(Database(Some(map[])), Ok(()))
  }

  /** `Storage::save_item`: open the database, encode the item, and insert its
      row, replacing any row with the same id. */
  function SaveItem(db: Database, conn: Connection, item: Item): (s: Outcome)
    ensures s.result.Ok? <==> conn == Opens && db.items.Some?
    ensures s.result == Err(OpenFailed) <==> conn == FailsToOpen
    ensures s.result.Err? ==> s.db == db
    ensures s.result.Ok? ==> s.db.items.Some?
                             && Upserted(db.items.value, s.db.items.value, item.id, EncodeRow(item))
    ensures s.result.Ok? ==> |s.db.items.value| == |db.items.value| + (if item.id in db.items.value then 0 else 1)
  {
    match conn
    case FailsToOpen => Outcome(db, Err(OpenFailed))
    case Opens =>
      // Encoding the kind cannot fail, so the write is the only step left.
      var row := EncodeRow(item);
      match db.items
      case None => Outcome(db, Err(NoItemsTable))
      case Some(table) => Outcome(Database(Some(table[item.id := row])), Ok(()))
  }

  // ---------------------------------------------------------------------------
  // Properties of the operations
  // ---------------------------------------------------------------------------

  /** Creating the table twice is creating it once. */
  lemma InitIdempotent(db: Database, conn: Connection)
    ensures Init(Init(db, conn).db, conn) == Init(db, conn)
  {
  }

  /** Writing the same row twice under one key is writing it once. */
  lemma UpsertTwice(t: Table, id: string, row: Row)
    ensures t[id := row][id := row] == t[id := row]
  {
  }

  /** Saving the same item twice leaves the same table as saving it once. */
  lemma SaveItemIdempotent(db: Database, conn: Connection, item: Item)
    ensures SaveItem(SaveItem(db, conn, item).db, conn, item) == SaveItem(db, conn, item)
  {
    if conn == Opens && db.items.Some? {
      UpsertTwice(db.items.value, item.id, EncodeRow(item));
    }
  }

  /** Writing a row under a key forgets whatever the key held before. */
  lemma UpsertForgets(t1: Table, t2: Table, id: string, row: Row)
    requires forall k :: k != id ==> (k in t1 <==> k in t2)
    requires forall k :: k in t1 && k in t2 && k != id ==> t1[k] == t2[k]
    ensures t1[id := row] == t2[id := row]
  {
    assert t1[id := row].Keys == t2[id := row].Keys;
  }

  /** The write replaces the whole row rather than merging into it: what was
      stored under the item's id before makes no difference afterwards. */
  lemma SaveItemReplacesRow(t1: Table, t2: Table, conn: Connection, item: Item)
    requires forall k :: k != item.id ==> (k in t1 <==> k in t2)
    requires forall k :: k in t1 && k in t2 && k != item.id ==> t1[k] == t2[k]
    ensures conn == Opens
            ==> SaveItem(Database(Some(t1)), conn, item) == SaveItem(Database(Some(t2)), conn, item)
  {
    if conn == Opens {
      UpsertForgets(t1, t2, item.id, EncodeRow(item));
    }
  }

  /** A saved item can be read back from the row stored under its id. */
  lemma SavedItemReadsBack(db: Database, conn: Connection, item: Item)
    ensures SaveItem(db, conn, item).result.Ok?
            ==> DecodeRow(item.id, SaveItem(db, conn, item).db.items.value[item.id]) == Some(Normalized(item))
  {
    DecodeEncodeRow(item);
  }

  /** The properties of the stored person, `{"name": "Alice"}`. */
  const AliceProperties := Json.Object([Json.Member("name", Json.String("Alice"))])

  /** `{"name": "Alice"}` is written compactly as `{"name":"Alice"}`. */
  lemma AlicePropertiesText()
    ensures Json.Text(AliceProperties) == "{\"name\":\"Alice\"}"
  {
    Json.SingleMemberText("name", Json.String("Alice"));
    Json.QuotePlain("name");
    Json.QuotePlain("Alice");
    AliceLiteral(Json.Quote("name"), Json.Quote("Alice"));
  }

  lemma AliceLiteral(key: string, value: string)
    requires key == "\"" + "name" + "\"" && value == "\"" + "Alice" + "\""
    ensures "{" + (key + ":" + value) + "}" == "{\"name\":\"Alice\"}"
  {
  }

  /** `Person` is stored as `"person"`, quotes included. */
  lemma PersonKindText()
    ensures EncodeKind(Person) == "\"person\""
  {
    EncodeUnitKind(Person);
    assert "\"" + "person" + "\"" == "\"person\"";
  }

  /** Saving into a freshly initialised database leaves exactly the item's row. */
  lemma SaveIntoFreshDatabase(item: Item)
    ensures SaveItem(Init(Database(None), Opens).db, Opens, item)
            == Outcome(Database(Some(map[item.id := EncodeRow(item)])), Ok(()))
  {
  }

  /** Initialising a fresh database and saving a `Person` item stores a
      single row, under the item's id, whose kind column is `"person"` and
      whose properties column is `{"name":"Alice"}`. */
  lemma SavePersonScenario(freshId: string, now: Rfc3339.Timestamp, later: Rfc3339.Timestamp)
    ensures
      var init := Init(Database(None), Opens);
      var item := NewItem(freshId, now, later, "test_src_1", "test_conn", Person, AliceProperties);
      var saved := SaveItem(init.db, Opens, item);
      && init.result.Ok? && saved.result.Ok?
      && saved.db.items.value.Keys == {freshId}
      && saved.db.items.value[freshId].kind == "\"person\""
      && saved.db.items.value[freshId].properties == "{\"name\":\"Alice\"}"
  {
    var item := NewItem(freshId, now, later, "test_src_1", "test_conn", Person, AliceProperties);
    SaveIntoFreshDatabase(item);
    PersonKindText();
    AlicePropertiesText();
  }

  /** The mock connector's message survives a save: the row under its id
      reads back as a `Message` whose `subject` is "Hello World". */
  lemma MockSyncThenSave(db: Database, c: Connector, freshId: string,
                         now: Rfc3339.Timestamp, later: Rfc3339.Timestamp)
    requires db.items.Some?
    ensures
      var item := FullSync(c, freshId, now, later).value[0];
      var saved := SaveItem(db, Opens, item);
      && saved.result.Ok?
      && var back := DecodeRow(freshId, saved.db.items.value[freshId]);
      && back.Some?
      && back.value.kind == Message
      && Json.Lookup(back.value.properties, "subject") == Some(Json.String(MockSubject))
  {
    var item := FullSync(c, freshId, now, later).value[0];
    DecodeEncodeRow(item);
  }
}
