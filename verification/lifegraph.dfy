/** The LifeGraph ontology: the kinds of fact the vault holds, the `Item`
    record every connector produces, and the connector contract with its mock
    implementation. */
module LifeGraph {
  import opened Results
  import Json
  import Rfc3339

  // ---------------------------------------------------------------------------
  // Item kinds
  // ---------------------------------------------------------------------------

  /** Seven fixed kinds plus an open variant carrying a free-form tag. */
  datatype ItemKind =
    | Person
    | Organization
    | Transaction
    | Message
    | File
    | Metric
    | Event
    | Other(tag: string)

  /** The snake_case name serde gives each variant. */
  function VariantName(k: ItemKind): string {
    match k
    case Person => "person"
    case Organization => "organization"
    case Transaction => "transaction"
    case Message => "message"
    case File => "file"
    case Metric => "metric"
    case Event => "event"
    case Other(_) => "other"
  }

  /** The fixed kind with the given name; `"other"` names no unit variant. */
  function UnitKindNamed(name: string): (r: Option<ItemKind>)
    ensures r.Some? ==> !r.value.Other? && VariantName(r.value) == name
  {
    if name == "person" then Some(Person)
    else if name == "organization" then Some(Organization)
    else if name == "transaction" then Some(Transaction)
    else if name == "message" then Some(Message)
    else if name == "file" then Some(File)
    else if name == "metric" then Some(Metric)
    else if name == "event" then Some(Event)
    else None
  }

  /** Kind equality is structural: two kinds are equal exactly when they are
      the same variant and, for `Other`, carry the same tag. */
  lemma KindEqualityIsStructural(a: ItemKind, b: ItemKind)
    ensures a == b <==> VariantName(a) == VariantName(b) && (a.Other? ==> a.tag == b.tag)
  {
  }

  /** Serde's externally tagged form of a kind: a unit variant is its name as
      a string; `Other(tag)` is a one-member object `{"other": tag}`. */
  function KindToJson(k: ItemKind): (v: Json.Value)
    ensures v.String? <==> !k.Other?
    ensures v.String? ==> v.s == VariantName(k)
    ensures k.Other? ==> v == Json.Object([Json.Member(VariantName(k), Json.String(k.tag))])
  {
    match k
    case Other(tag) => Json.Object([Json.Member("other", Json.String(tag))])
    case _ => Json.String(VariantName(k))
  }

  /** Serde's reading of a kind back from its externally tagged form. */
  function KindFromJson(v: Json.Value): (r: Option<ItemKind>)
    ensures r.Some? ==> KindToJson(r.value) == v
  {
    match v
    case String(name) => UnitKindNamed(name)
    case Object(ms) =>
      if |ms| == 1 && ms[0].key == "other" && ms[0].value.String?
      then Some(Other(ms[0].value.s))
      else None
    case _ => None
  }

  /** Reading a kind's JSON form gives the kind back. */
  lemma KindJsonRoundTrip(k: ItemKind)
    ensures KindFromJson(KindToJson(k)) == Some(k)
  {
  }

  /** `serde_json::to_string(&kind)`: the kind's compact JSON text. */
  function EncodeKind(k: ItemKind): string {
    Json.Text(KindToJson(k))
  }

  /** `serde_json::from_str::<ItemKind>`, for the compact text form. */
  function DecodeKind(s: string): Option<ItemKind> {
    var v :- Json.Parse(s);
    KindFromJson(v)
  }

  /** Decoding the stored kind text gives the kind back. */
  lemma DecodeEncodeKind(k: ItemKind)
    ensures DecodeKind(EncodeKind(k)) == Some(k)
  {
    Json.ParseText(KindToJson(k));
    KindJsonRoundTrip(k);
  }

  /** Two kinds are stored as the same text exactly when they are equal. */
  lemma EncodeKindInjective(a: ItemKind, b: ItemKind)
    ensures EncodeKind(a) == EncodeKind(b) <==> a == b
  {
    DecodeEncodeKind(a);
    DecodeEncodeKind(b);
  }

  /** A unit kind is stored as its quoted snake_case name: `"person"` for
      `Person`. */
  lemma EncodeUnitKind(k: ItemKind)
    requires !k.Other?
    ensures EncodeKind(k) == "\"" + VariantName(k) + "\""
  {
    VariantNameIsPlain(k);
    Json.QuotePlain(VariantName(k));
  }

  /** No variant name needs escaping. */
  lemma VariantNameIsPlain(k: ItemKind)
    ensures Json.Plain(VariantName(k))
  {
    match k
    case Person => assert Json.Plain("person");
    case Organization => assert Json.Plain("organization");
    case Transaction => assert Json.Plain("transaction");
    case Message => assert Json.Plain("message");
    case File => assert Json.Plain("file");
    case Metric => assert Json.Plain("metric");
    case Event => assert Json.Plain("event");
    case Other(_) => assert Json.Plain("other");
  }

  /** The open kind is stored as the one-member object `{"other":<tag>}`. */
  lemma EncodeOtherKind(tag: string)
    ensures EncodeKind(Other(tag)) == "{\"other\":" + Json.Quote(tag) + "}"
  {
    Json.SingleMemberText("other", Json.String(tag));
    Json.QuotePlain("other");
    OtherPrefix(Json.Quote("other"), Json.Quote(tag));
  }

  lemma OtherPrefix(key: string, value: string)
    requires key == "\"" + "other" + "\""
    ensures "{" + (key + ":" + value) + "}" == "{\"other\":" + value + "}"
  {
  }

  // ---------------------------------------------------------------------------
  // Items
  // ---------------------------------------------------------------------------

  /** One normalized fact in the vault. */
  datatype Item = Item(
    id: string,
    sourceId: string,
    connectorId: string,
    kind: ItemKind,
    timestamp: Rfc3339.Timestamp,
    ingestedAt: Rfc3339.Timestamp,
    properties: Json.Value,
    rawPayload: Option<Json.Value>)

  /** `Item::new`. The fresh UUID and the two successive readings of the UTC
      clock (for `timestamp`, then `ingested_at`) are supplied by the caller. */
  function NewItem(freshId: string, now: Rfc3339.Timestamp, later: Rfc3339.Timestamp,
                   sourceId: string, connectorId: string, kind: ItemKind,
                   properties: Json.Value): (item: Item)
    ensures item.sourceId == sourceId && item.connectorId == connectorId
    ensures item.kind == kind && item.properties == properties
    ensures item.id == freshId
    ensures item.timestamp == now && item.ingestedAt == later
    ensures item.rawPayload.None?
  {
    Item(freshId, sourceId, connectorId, kind, now, later, properties, None)
  }

  /** Two items built from the same source data differ at most in the
      generated id and the clock readings. */
  lemma NewItemDependsOnlyOnInputs(id1: string, now1: Rfc3339.Timestamp, later1: Rfc3339.Timestamp,
                                   id2: string, now2: Rfc3339.Timestamp, later2: Rfc3339.Timestamp,
                                   sourceId: string, connectorId: string, kind: ItemKind,
                                   properties: Json.Value)
    ensures NewItem(id1, now1, later1, sourceId, connectorId, kind, properties)
            == NewItem(id2, now2, later2, sourceId, connectorId, kind, properties)
                 .(id := id1, timestamp := now1, ingestedAt := later1)
  {
  }

  // ---------------------------------------------------------------------------
  // Connectors
  // ---------------------------------------------------------------------------

  /** The failure a connector may report. */
  datatype ConnectorError = ConnectorError(message: string)

  /** The connector implementations: only the mock one exists. */
  datatype Connector = MockConnector(id: string)

  /** What every connector owes its caller: each item it produces is tagged
      with the connector's own id. */
  predicate TagsItsItems(c: Connector, items: seq<Item>) {
    forall i :: 0 <= i < |items| ==> items[i].connectorId == Id(c)
  }

  /** `Connector::id`; the mock returns the id it was built with. */
  function Id(c: Connector): (r: string)
    ensures c == MockConnector(r)
  {
    match c
    case MockConnector(id) => id
  }

  /** `Connector::init`; the mock only announces itself, and never fails. */
  function Init(c: Connector): (r: Result<(), ConnectorError>)
    ensures r.Ok?
  {
    match c
    case MockConnector(_) => Ok(())
  }

  const MockSourceId := "mock_msg_1"
  const MockSubject := "Hello World"
  const MockBody := "This is a test message from the mock connector."

  /** The mock message's properties; serde_json's default map keeps its keys
      sorted, so `body` precedes `subject`. */
  const MockProperties := Json.Object([
    Json.Member("body", Json.String(MockBody)),
    Json.Member("subject", Json.String(MockSubject))])

  /** `Connector::full_sync`; the mock returns one synthetic message, built
      with `Item::new` from the given fresh id and clock readings. */
  function FullSync(c: Connector, freshId: string, now: Rfc3339.Timestamp, later: Rfc3339.Timestamp)
    : (r: Result<seq<Item>, ConnectorError>)
    ensures r.Ok? && |r.value| == 1
    ensures r.value[0].kind == Message
    ensures r.value[0].sourceId == MockSourceId
    ensures r.value[0].connectorId == Id(c)
    ensures Json.Lookup(r.value[0].properties, "subject") == Some(Json.String(MockSubject))
    ensures Json.Lookup(r.value[0].properties, "body") == Some(Json.String(MockBody))
    ensures r.value[0].id == freshId && r.value[0].rawPayload.None?
  {
    assert "body" != "subject" by { assert "body"[0] != "subject"[0]; }
    assert MockProperties.members[1..] == [Json.Member("subject", Json.String(MockSubject))];
    assert Json.LookupMember(MockProperties.members, "subject")
        == Json.LookupMember(MockProperties.members[1..], "subject");
    match c
    case MockConnector(id) =>
      Ok([NewItem(freshId, now, later, MockSourceId, id, Message, MockProperties)])
  }

  /** `Connector::incremental_sync`; the mock has nothing new, whatever the
      starting point. */
  function IncrementalSync(c: Connector, since: Rfc3339.Timestamp): (r: Result<seq<Item>, ConnectorError>)
    ensures r == Ok([])
  {
    match c
    case MockConnector(_) => Ok([])
  }

  /** Both sync operations of the mock keep the connector contract. */
  lemma MockKeepsContract(c: Connector, freshId: string, now: Rfc3339.Timestamp,
                          later: Rfc3339.Timestamp, since: Rfc3339.Timestamp)
    ensures TagsItsItems(c, FullSync(c, freshId, now, later).value)
    ensures TagsItsItems(c, IncrementalSync(c, since).value)
  {
  }

  /** Repeated full syncs of the mock yield the same fact each time: only the
      generated id and the clock readings differ. */
  lemma FullSyncRepeats(c: Connector, id1: string, now1: Rfc3339.Timestamp, later1: Rfc3339.Timestamp,
                        id2: string, now2: Rfc3339.Timestamp, later2: Rfc3339.Timestamp)
    ensures FullSync(c, id1, now1, later1).value[0]
            == FullSync(c, id2, now2, later2).value[0].(id := id1, timestamp := now1, ingestedAt := later1)
  {
  }
}
