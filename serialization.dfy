/** The JSON encoder, kept abstract. A stored table file holds the
    `DataContractJsonSerializer` rendering of a `Table<T>` object, whose only
    data member is its "Entities" list (which may be `null`). The text itself
    is not modelled character by character: a file's text is the empty
    string, the JSON literal `null`, a well-formed rendering of a table
    object, or anything else. */
module Serialization {
  import opened Wrappers
  import opened Records

  datatype Text =
    | EmptyText
    | JsonNull
    | TableJson(entities: Option<seq<Entity>>)
    | Malformed(raw: string)

  /** A deserialized `Table<T>` object: the value of its `_entities` field. */
  datatype StoredTable = StoredTable(entities: Option<seq<Entity>>)

  /** `SerializationHelper.JsonSerializer` applied to a table whose backing
      list is `entities`. */
  function Serialize(entities: Option<seq<Entity>>): (t: Text)
    ensures t != EmptyText && t != JsonNull && !t.Malformed?
  {
    TableJson(entities)
  }

  /** `SerializationHelper.JsonDeserialize<Table<T>>`: the empty string and
      the literal `null` give a `null` table (`None`), a table rendering gives
      that table, anything else makes the serializer throw. */
  function Deserialize(t: Text): (r: Result<Option<StoredTable>, Error>)
    ensures r.Err? <==> t.Malformed?
    ensures r == Ok(None) <==> t == EmptyText || t == JsonNull
  {
    match t
    case EmptyText => Ok(None)
    case JsonNull => Ok(None)
    case TableJson(es) => Ok(Some(StoredTable(es)))
    case Malformed(_) => Err(DecodeError)
  }

  /** The encoder is lossless: what is written is what is read back, a
      `null` list included. */
  lemma RoundTrip(entities: Option<seq<Entity>>)
    ensures Deserialize(Serialize(entities)) == Ok(Some(StoredTable(entities)))
  {
  }
}
