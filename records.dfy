/** Record types, records and the exception kinds the database can raise. */
module Records {
  import opened Wrappers

  /** A CLR record class: the assembly it lives in, its namespace-qualified
      name and its base class (`None` when it derives directly from `object`). */
  datatype RecordType = RecordType(assembly: string, fullName: string, baseType: Option<RecordType>)

  /** An instance of a record class. Records are compared by value here; see
      README for the difference from reference equality. */
  datatype Entity = Entity(recordType: RecordType, fields: seq<(string, string)>)

  /** The C# `as` test: `t` is `target` or derives from it. */
  predicate IsAssignableTo(t: RecordType, target: RecordType)
  {
    t == target || (t.baseType.Some? && IsAssignableTo(t.baseType.value, target))
  }

  /** `Type.ToString()` of a non-generic class: its namespace-qualified name.
      The assembly is not part of it, so two classes of the same name in two
      assemblies share a key. */
  function TypeKey(t: RecordType): string
  {
    t.fullName
  }

  /** The exceptions the core throws, one constructor per distinct cause. */
  datatype Error =
    | ArgumentNull(paramName: string)   // ArgumentNullException
    | NotInitialized                    // InvalidOperationException "Table is not initialized"
    | WrongEntityType                   // InvalidOperationException "The entity is not of the correct type."
    | NotATable                         // InvalidOperationException "type is not marked as table"
    | InvalidCast                       // InvalidCastException of the (Table<TEntity>) cast
    | KeyNotFound                       // KeyNotFoundException "key not found!"
    | FolderExists                      // the storage API's collision failure on folder creation
    | DecodeError                       // the JSON serializer rejecting a stored payload

  type Status = Outcome<Error>
}
