# LifeGraph vault core in Dafny

This project models the ingestion-and-persistence core of the WackyTheorem
desktop vault.

- **The LifeGraph ontology.** The `ItemKind` sum type has seven fixed kinds and
  an open `Other(tag)`. Every fact is an `Item` record, built by `Item::new`.
  Connectors are specified by the `Connector` contract; `MockConnector` is its
  only implementation.
- **The DuckDB storage engine.** `DuckDbStorage::init` creates the `items`
  table if it does not exist. `DuckDbStorage::save_item` turns an item into an
  all-text row and writes it with `INSERT OR REPLACE`, keyed on the item id.

Every operation is a pure function over immutable data. The table is a
`map<string, Row>` from the primary key `id` to the other seven columns. The
database is either without the table or with one. Opening the database file
is a `Connection` value passed in, and it either opens or fails. The fresh
UUID and the two clock readings of `Item::new` are parameters too.

The row encoder is modelled concretely, so the contracts say what is actually
stored:

- `Json` models `serde_json::Value` and the compact text that `to_string` /
  `serde_json::to_string` write. This covers string escapes and the
  externally tagged enum form. Object members are written in the order the
  value lists them.
- `Rfc3339` models `DateTime<Utc>` and chrono's `to_rfc3339()` text: the
  date, the time of day, a 0/3/6/9-digit fraction, a leap second and the
  `+00:00` offset.
- `TimestampOrder` shows that the two timestamp columns, although TEXT,
  sort chronologically for years 0 to 9999, and not beyond.
- `Decimal` holds the digit strings that both writers are built on.
- `LifeGraph` and `Storage` follow `lifegraph.rs` and `storage.rs`.

Three readers exist only for the proofs and have no counterpart in the
source: `Json.Parse`, `Rfc3339.ReadRfc3339` and `Storage.DecodeRow`. Each is a
left inverse of its writer, which shows that the stored text loses nothing
(up to the `null` payload noted below). None of them models a parser the
repository uses. Each also accepts some texts its writer never produces.

## Model

| member | source | states |
|---|---|---|
| LifeGraph.KindEqualityIsStructural | desktop/wkyt/src-tauri/src/lifegraph.rs:7-18 | Two kinds are equal exactly when they are the same variant and, for `Other`, carry equal tags; distinct fixed variants are unequal |
| LifeGraph.UnitKindNamed | desktop/wkyt/src-tauri/src/lifegraph.rs:8-16 | A snake_case name read back names a fixed (not `Other`) kind whose serde name is that name |
| LifeGraph.KindToJson | desktop/wkyt/src-tauri/src/lifegraph.rs:7-18 | Serde's externally tagged form: a JSON string exactly for the fixed kinds, holding the snake_case name; `Other(tag)` is the one-member object `{"other": tag}` |
| LifeGraph.KindFromJson | desktop/wkyt/src-tauri/src/lifegraph.rs:7-8 | The derived `Deserialize`, for the forms the writer produces: whatever it accepts is exactly the serialized form of the kind it returns |
| LifeGraph.KindJsonRoundTrip | desktop/wkyt/src-tauri/src/lifegraph.rs:7-8 | Deserializing a kind's JSON form gives the kind back (the derived Serialize/Deserialize pair agree) |
| LifeGraph.EncodeKind | desktop/wkyt/src-tauri/src/storage.rs:51-52 | Definition of `serde_json::to_string(&kind)`. `LifeGraph.DecodeEncodeKind`, `LifeGraph.EncodeKindInjective`, `LifeGraph.EncodeUnitKind` and `LifeGraph.EncodeOtherKind` state its properties |
| LifeGraph.DecodeEncodeKind | desktop/wkyt/src-tauri/src/storage.rs:51-52 | The text stored in the `kind` column parses and deserializes back to the item's kind |
| LifeGraph.EncodeKindInjective | desktop/wkyt/src-tauri/src/storage.rs:51-52 | Two kinds get the same `kind` column text if and only if they are equal |
| LifeGraph.EncodeUnitKind | desktop/wkyt/src-tauri/src/storage.rs:51-52 | A fixed kind is stored as its snake_case name in double quotes, e.g. `"person"` |
| LifeGraph.EncodeOtherKind | desktop/wkyt/src-tauri/src/lifegraph.rs:17 | `Other(tag)` is stored as `{"other":` followed by the quoted, escaped tag and `}` |
| LifeGraph.NewItem | desktop/wkyt/src-tauri/src/lifegraph.rs:49-65 | The new item carries the given source id, connector id, kind and properties unchanged, the fresh id, the first clock reading as `timestamp`, the second as `ingested_at`, and no raw payload |
| LifeGraph.NewItemDependsOnlyOnInputs | desktop/wkyt/src-tauri/src/lifegraph.rs:55-63 | Two items built from the same source data differ at most in id, `timestamp` and `ingested_at` |
| LifeGraph.Id | desktop/wkyt/src-tauri/src/lifegraph.rs:91-93 | The connector's id is the id the mock connector was built with |
| LifeGraph.Init | desktop/wkyt/src-tauri/src/lifegraph.rs:95-98 | Initialising the mock connector always succeeds |
| LifeGraph.FullSync | desktop/wkyt/src-tauri/src/lifegraph.rs:100-111 | A full sync of the mock succeeds with exactly one item: a `Message` with source id `mock_msg_1`, tagged with the connector's id, whose `subject` is "Hello World" and `body` is the test sentence, with no raw payload |
| LifeGraph.IncrementalSync | desktop/wkyt/src-tauri/src/lifegraph.rs:113-115 | An incremental sync of the mock succeeds with no items, whatever the starting instant |
| LifeGraph.MockKeepsContract | desktop/wkyt/src-tauri/src/lifegraph.rs:100-115 | Every item either sync of the mock returns names the mock as its producing connector |
| LifeGraph.FullSyncRepeats | desktop/wkyt/src-tauri/src/lifegraph.rs:100-111 | Repeated full syncs produce the same fact each time; only the generated id and the clock readings differ |
| Storage.PayloadText | desktop/wkyt/src-tauri/src/storage.rs:54-58 | The payload column text is `null` exactly when the payload is missing or is JSON `null`; `Storage.DecodePayloadOfText` states its round trip |
| Storage.EncodeRow | desktop/wkyt/src-tauri/src/storage.rs:50-72 | The row written for an item copies the source and connector ids, and its payload column is `null` exactly when the payload is missing or JSON `null`. `Storage.DecodeEncodeRow` and `Storage.EncodeRowInjective` state its round trip |
| Storage.PayloadTextIsNull | desktop/wkyt/src-tauri/src/storage.rs:54-58 | The `raw_payload` column holds `null` exactly when the payload is missing or is itself JSON `null` |
| Storage.DecodeTimestampOfText | desktop/wkyt/src-tauri/src/storage.rs:68-69 | A stored `timestamp` / `ingested_at` column reads back as the instant |
| Storage.DecodePayloadOfText | desktop/wkyt/src-tauri/src/storage.rs:54-58 | A stored `raw_payload` column reads back as the payload, with a JSON `null` payload reading back as none |
| Storage.DecodeEncodeRow | desktop/wkyt/src-tauri/src/storage.rs:50-72 | Every column of an encoded row decodes, and together they rebuild the item, up to a `null` payload becoming a missing one |
| Storage.EncodeRowInjective | desktop/wkyt/src-tauri/src/storage.rs:50-72 | Two items with the same id give the same row if and only if they agree on every field (a `null` and a missing payload counted alike) |
| Storage.Init | desktop/wkyt/src-tauri/src/storage.rs:28-45 | `init` succeeds exactly when the database opens. On failure it reports the open error and changes nothing. On success the table exists; an existing table is left as it was, and a missing one is created empty |
| Storage.SaveItem | desktop/wkyt/src-tauri/src/storage.rs:47-76 | `save_item` succeeds exactly when the database opens and the table exists. An open failure is reported as such. Any failure leaves the database unchanged. On success the item's id maps to the item's encoded row, every other row is kept, none is dropped, and the row count grows by one for a new id and by none for an existing one |
| Storage.InitIdempotent | desktop/wkyt/src-tauri/src/storage.rs:30-31 | Calling `init` twice has the same effect and result as calling it once |
| Storage.SaveItemIdempotent | desktop/wkyt/src-tauri/src/storage.rs:61 | Saving the same item twice gives the same database and result as saving it once |
| Storage.SaveItemReplacesRow | desktop/wkyt/src-tauri/src/storage.rs:61-62 | Replace, not merge: two tables that differ only in the row under the item's id (or its absence) are identical after the save |
| Storage.SavedItemReadsBack | desktop/wkyt/src-tauri/src/storage.rs:60-73 | After a successful save, the row under the item's id decodes back to the item (a `null` payload as missing) |
| Storage.PersonKindText | desktop/wkyt/src-tauri/src/storage.rs:121 | `Person` is stored in the `kind` column as the five letters of `person` in double quotes |
| Storage.AlicePropertiesText | desktop/wkyt/src-tauri/src/storage.rs:122 | The properties `{"name": "Alice"}` are stored as the compact text `{"name":"Alice"}` |
| Storage.SaveIntoFreshDatabase | desktop/wkyt/src-tauri/src/storage.rs:97-106 | Initialising a new database and then saving an item succeeds and leaves exactly one row, the item's, under its id |
| Storage.SavePersonScenario | desktop/wkyt/src-tauri/src/storage.rs:96-122 | In the storage test scenario, `init` and `save_item` both succeed, the table holds only the new id, its `kind` column is `"person"` and its `properties` column is `{"name":"Alice"}` |
| Storage.MockSyncThenSave | desktop/wkyt/src-tauri/src/storage.rs:47-76 | Saving the mock's synced message into an existing table succeeds, and the stored row reads back as a `Message` whose `subject` is "Hello World" |
| Json.ParseText | desktop/wkyt/src-tauri/src/storage.rs:53 | The compact text written for any JSON value parses back to exactly that value |
| Json.TextInjective | desktop/wkyt/src-tauri/src/storage.rs:53 | Two JSON values are written as the same text if and only if they are equal |
| Json.Text | desktop/wkyt/src-tauri/src/storage.rs:53 | Definition of `Value::to_string`. Its contract: the text is never empty, and its first character tells a string, array, object or number apart from the other values. `Json.ParseText` and `Json.TextInjective` state its round trip |
| Rfc3339.ToRfc3339 | desktop/wkyt/src-tauri/src/storage.rs:68-69 | The RFC 3339 text written for any representable instant, leap seconds included, reads back as that instant |
| Rfc3339.ToRfc3339Injective | desktop/wkyt/src-tauri/src/storage.rs:68-69 | Two instants get the same RFC 3339 text if and only if they are equal |
| TimestampOrder.TextOrderIsChronological | desktop/wkyt/src-tauri/src/storage.rs:36-37 | For years 0 to 9999, one TEXT timestamp sorts before another exactly when its instant is earlier, even though the fractional part varies in length |
| TimestampOrder.TextOrderBreaksAfterYear9999 | desktop/wkyt/src-tauri/src/storage.rs:68-69 | A counterexample: the last second of year 9999 is earlier than the first of year 10000, but its text sorts after |

## Left out

- I/O: the database file, its path, `Connection::open` and the test's file
  cleanup. Whether opening succeeds is the `Connection` parameter.
- `DuckDbStorage::new` only stores the path, which the model does not need.
- A failing `CREATE TABLE` (storage.rs:43) and engine faults during the
  insert other than a missing table. The engine is not modelled.
- The `?` after `serde_json::to_string(&item.kind)` (storage.rs:51-52). The
  error path is unreachable: serializing this enum cannot fail. So no
  encoding failure can come before the write, and `SaveItem` encodes
  unconditionally.
- UUID generation and `Utc::now()`. These are parameters of `NewItem` and
  `FullSync`.
- The `println!` in `MockConnector::init` is output only.
- `async`, `Send + Sync` and threading. These concern concurrency, not
  behaviour.
- `#[cfg(debug_assertions)]` on the mock connector is a build switch.
- google_auth.rs and lib.rs are not part of this model: OAuth glue and the
  Tauri application wiring.
- storage.rs creates no index on `timestamp` and has no batch save and no
  read path. The model covers `init` and `save_item`.
- `to_rfc3339()` writes a fraction of 0, 3, 6 or 9 digits.
  `TimestampOrder.TextOrderIsChronological` shows that the text still sorts
  chronologically for years 0 to 9999.
- `Json.Value`: numbers are integers of any size. Floating-point numbers are
  not modelled, nor are the i64/u64 limits of serde_json's `Number`.
- `Json.Parse` is a left inverse of `Json.Text` (`Json.ParseText`). It also
  accepts some texts `Json.Text` never writes:
  - a `\uXXXX` escape outside the surrogate range for any character;
  - the `\/` escape;
  - `-0`.

  It accepts no whitespace and no surrogate pairs. It does not model
  serde_json's reader.
- `Json.Value`: an object keeps its members in the order the value lists
  them. It neither sorts nor deduplicates keys as serde_json's default map
  does. The mock's properties are therefore listed with `body` before
  `subject`, the order that map iterates them.
- `LifeGraph.KindFromJson` decodes only the canonical forms the writer
  produces, not every form serde accepts.
- `Rfc3339.Valid` does not bound the year to chrono's representable range.
  Years outside 0 to 9999 are written with a sign and at least four digits,
  as chrono writes them.
- `Rfc3339.ReadRfc3339` is a left inverse of `Rfc3339.ToRfc3339`. It also
  accepts some texts `to_rfc3339()` never writes:
  - a signed year inside 0 to 9999, as in `+0001`;
  - extra leading zeros in a year written with a sign;
  - fraction digit groups that the writer would drop as zero, as in `.000`
    or `.100000`.
- `TimestampOrder.TextOrderIsChronological` holds only for years 0 to 9999.
  `TimestampOrder.TextOrderBreaksAfterYear9999` shows why.
- `Storage.DecodeEncodeRow` and `Storage.SavedItemReadsBack` hold only up to
  normalising the payload. A payload of JSON `null` is stored as `null`, like
  a missing payload, so the two cannot be told apart once stored.
