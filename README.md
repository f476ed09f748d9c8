# RolerDB core in Dafny

A model of the core of RolerDB, an embedded single-process document store for
Windows apps. An application subclasses `RolerDatabase` and declares public
`Table<T>` fields. The database binds each such field to one shared table per
record type. A table starts uninitialized, with a `null` backing list.
`InitializeTable<T>` loads it lazily from a JSON file named after the type.
`SubmitChanges` writes every initialized table back, each to its own file,
replacing the file whole.

Modules:

- `Wrappers`: `Option`, `Result` and `Outcome`. Thrown exceptions become
  `Err`/`Fail` values of the `Records.Error` type.
- `Records`: record types, with their base type so that the `as TEntity`
  check accepts subclasses; entities; the type key (`Type.ToString()`, the
  full name).
- `Serialization`: the JSON text, kept abstract. It is either empty, `null`,
  an encoded table or malformed. `Serialize` and `Deserialize` follow
  `SerializationHelper`: an empty string decodes to `null`.
- `EntityLists`: the `List<T>` semantics the tables rely on. This covers
  `Remove`, which drops the first equal element; deleting a sequence of
  elements in order; and the first element a bulk call rejects.
- `Tables`: `Table<TEntity>` as a class. Its `entities` field is `None` while
  the table is uninitialized. It has the typed and the `ITable` (object)
  insert/delete operations, the bulk forms, the enumerator and the
  initialization check.
- `Storage`: the app's local folder as a map from folder name to a map from
  file name to text. It also has the pure read, write and open-or-create
  operations on that map.
- `Database`: `RolerDatabase` as a class.
  - The registry `_tables` is a map from type key to table.
  - The declared fields are an explicit list of `FieldDecl` together with
    their current values.
  - The module also holds the pure functions that specify `InitializeTable`
    (`InitializeStep`) and `SubmitChanges` (`SubmitWrites`, `ApplyWrites`),
    and the lemmas relating them.
- `Sample`: the sample app's `SampleDatabase`, with one `Books` field, and
  its main page's first launch. On that launch the page creates the folder,
  initializes the book table, inserts a book and submits. The stored file
  then holds exactly that book, and a later session reloads it.

Behaviour the model keeps as the code has it:

- `InsertAllOnSubmit` and `DeleteAllOnSubmit` are not all-or-nothing. A
  `null` element (or, on the `ITable` path, a wrongly typed one) makes the
  call fail after the elements before it were applied. The model states the
  resulting list exactly: the old list with the accepted prefix appended, or
  removed element by element.
- `InitializeTable` on an uninitialized table opens the database folder with
  `OpenIfExists`, so it creates the folder if it is missing. On an
  initialized table it does nothing. It never writes a file.
- A stored file whose encoded list is `null` leaves the table uninitialized
  after `InitializeTable`. A missing file, an empty file or a stored `null`
  gives an empty, initialized table.
- `SubmitChanges` touches the folder only when some table is initialized. It
  writes one file per initialized table and leaves every other file alone.
- `GetTable<T>` casts the registered table to `Table<T>`. The key is the
  type's full name, so two types with the same full name from different
  assemblies share a key, and the cast then fails (`InvalidCast`).

## Model

| member | source | states |
|---|---|---|
| Tables.Table.constructor | RolerDBSolution/RolerFramework.Universal/Database/TableGeneric.cs:37-39 | a new table has no backing list, so it is not initialized |
| Tables.Table.IsInitialized | RolerDBSolution/RolerFramework.Universal/Database/TableGeneric.cs:26-29 | a table is initialized exactly when its backing list exists |
| Tables.Table.CheckInitialized | RolerDBSolution/RolerFramework.Universal/Database/TableGeneric.cs:192-198 | passes exactly when the backing list exists (`IsInitialied`), and otherwise fails with the not-initialized error |
| Tables.Table.Adopt | RolerDBSolution/RolerFramework.Universal/Database/RolerDataBase.cs:61-66 | the reflective write of `_entities`: the table's list becomes exactly the given one |
| Tables.Table.InsertOnSubmit | RolerDBSolution/RolerFramework.Universal/Database/TableGeneric.cs:115-124 | `null` fails with ArgumentNull("entity") and changes nothing; an uninitialized table fails and stays uninitialized; otherwise the entity is appended at the end; an initialized table stays initialized |
| Tables.Table.DeleteOnSubmit | RolerDBSolution/RolerFramework.Universal/Database/TableGeneric.cs:126-135 | the same two errors as insert; otherwise only the first equal element is removed, and an absent entity leaves the list unchanged without error |
| Tables.Table.InsertObjectOnSubmit | RolerDBSolution/RolerFramework.Universal/Database/TableGeneric.cs:47-61 | `null` and an entity not assignable to the table's type are rejected before the list is touched; otherwise it behaves as the typed insert |
| Tables.Table.DeleteObjectOnSubmit | RolerDBSolution/RolerFramework.Universal/Database/TableGeneric.cs:79-93 | `null` and a wrongly typed entity are rejected before the list is touched; otherwise it behaves as the typed delete |
| Tables.Table.InsertAllOnSubmit | RolerDBSolution/RolerFramework.Universal/Database/TableGeneric.cs:164-176 | a `null` collection or an uninitialized table fails with nothing changed; otherwise the elements before the first `null` are appended in input order, and the call fails exactly when there is such a `null` |
| Tables.Table.DeleteAllOnSubmit | RolerDBSolution/RolerFramework.Universal/Database/TableGeneric.cs:178-190 | the same guards; otherwise each element before the first `null` is removed in order, at most one occurrence per listing, and absent ones are ignored |
| Tables.Table.InsertAllObjectsOnSubmit | RolerDBSolution/RolerFramework.Universal/Database/TableGeneric.cs:63-77 | the same guards; the elements before the first `null` or wrongly typed one are appended, and the call fails with that element's rejection |
| Tables.Table.DeleteAllObjectsOnSubmit | RolerDBSolution/RolerFramework.Universal/Database/TableGeneric.cs:95-109 | the same guards; the elements before the first rejected one are removed in order, and the call fails with that element's rejection |
| Tables.Table.GetEnumerator | RolerDBSolution/RolerFramework.Universal/Database/TableGeneric.cs:157-162 | fails exactly when the table is uninitialized; otherwise yields the stored entities in stored order |
| EntityLists.RemoveFirst | RolerDBSolution/RolerFramework.Universal/Database/TableGeneric.cs:134 | `List.Remove`: one element shorter exactly when the element is present, otherwise the same length |
| EntityLists.IndexOf | RolerDBSolution/RolerFramework.Universal/Database/TableGeneric.cs:134 | the position `List.Remove` acts on: an occurrence of the element with no earlier occurrence |
| EntityLists.RemoveFirstAbsent | RolerDBSolution/RolerFramework.Universal/Database/TableGeneric.cs:134 | removing an element that is not in the list leaves the list unchanged |
| EntityLists.RemoveFirstAt | RolerDBSolution/RolerFramework.Universal/Database/TableGeneric.cs:134 | removing a present element cuts out exactly its first occurrence and keeps the order of the rest |
| EntityLists.RemoveFirstMultiset | RolerDBSolution/RolerFramework.Universal/Database/TableGeneric.cs:134 | removal takes away exactly one copy of the element when it is present, and nothing else |
| EntityLists.RemoveFirstAfter | RolerDBSolution/RolerFramework.Universal/Database/TableGeneric.cs:134 | a prefix free of the element is untouched by its removal |
| EntityLists.AppendThenRemove | RolerDBSolution/RolerFramework.Universal/Database/TableGeneric.cs:115-135 | inserting an entity and then deleting it restores the list when the entity was absent; otherwise the earlier copy is removed and the new one stays at the end |
| EntityLists.RemoveEach | RolerDBSolution/RolerFramework.Universal/Database/TableGeneric.cs:186-189 | one `Remove` per listed element, in order; each listing removes at most one element |
| EntityLists.RemoveEachCons | RolerDBSolution/RolerFramework.Universal/Database/TableGeneric.cs:186-189 | deleting a list deletes its first element first, then the rest |
| EntityLists.RemoveEachSnoc | RolerDBSolution/RolerFramework.Universal/Database/TableGeneric.cs:186-189 | deleting one more listed element removes it from the result of deleting the earlier ones |
| EntityLists.RemoveEachMultiset | RolerDBSolution/RolerFramework.Universal/Database/TableGeneric.cs:178-190 | a bulk delete takes away exactly the listed copies that are present: the multiset difference |
| EntityLists.RemoveEachAppended | RolerDBSolution/RolerFramework.Universal/Database/TableGeneric.cs:164-190 | bulk-inserting new entities and then bulk-deleting the same list restores the original list |
| EntityLists.Admit | RolerDBSolution/RolerFramework.Universal/Database/TableGeneric.cs:47-58 | the `ITable` checks: accepted exactly when non-null and assignable to the table's type; `null` gives ArgumentNull("entity") |
| EntityLists.FirstRejected | RolerDBSolution/RolerFramework.Universal/Database/TableGeneric.cs:172-175 | the element where a bulk call stops: every earlier element is accepted, and it is rejected unless it is past the end |
| EntityLists.TypedRejectionIsNull | RolerDBSolution/RolerFramework.Universal/Database/TableGeneric.cs:164-176 | on the typed path, where every element has the right type, a bulk call can only stop at a `null` |
| EntityLists.Values | RolerDBSolution/RolerFramework.Universal/Database/TableGeneric.cs:172-175 | the accepted prefix of a bulk call as entities, element by element in input order |
| Serialization.Serialize | RolerDBSolution/RolerFramework.Universal/Database/SerializationHelper.cs:31-43 | encoding a table gives an encoded table, never an empty, `null` or malformed text |
| Serialization.Deserialize | RolerDBSolution/RolerFramework.Universal/Database/SerializationHelper.cs:14-24 | fails exactly on malformed text; yields `null` exactly for the empty string or a JSON `null` |
| Serialization.RoundTrip | RolerDBSolution/RolerFramework.Universal/Database/SerializationHelper.cs:14-43 | decoding an encoded table gives back the same list, the encoding being lossless |
| Storage.OpenOrCreate | RolerDBSolution/RolerFramework.Universal/Database/RolerDataBase.cs:220 | the folder exists afterwards with the files it had (none if new), and other folders are unchanged |
| Storage.ReadFile | RolerDBSolution/RolerFramework.Universal/Database/RolerDataBase.cs:223-232 | a file is found exactly when its folder and the file exist |
| Storage.WriteFile | RolerDBSolution/RolerFramework.Universal/Database/RolerDataBase.cs:257-262 | the written file reads back as the text, whole; the folder's other files and other folders are unchanged |
| Storage.ApplyWrites | RolerDBSolution/RolerFramework.Universal/Database/RolerDataBase.cs:257-262 | a batch of whole-file writes: the folder exists afterwards unless nothing is written, and other folders are unchanged |
| Storage.WriteAfterWrites | RolerDBSolution/RolerFramework.Universal/Database/RolerDataBase.cs:172-177 | writing one more file after a batch of writes equals the batch with that file added |
| Storage.FilesAfterWrites | RolerDBSolution/RolerFramework.Universal/Database/RolerDataBase.cs:172-177 | after a batch of writes the folder holds its old files overridden by the written ones |
| Storage.ReadAfterWrites | RolerDBSolution/RolerFramework.Universal/Database/RolerDataBase.cs:250-263 | a written file reads as its new text; every other file reads as before |
| Storage.ApplyWritesIdempotent | RolerDBSolution/RolerFramework.Universal/Database/RolerDataBase.cs:250-263 | replacing files whole means writing the same batch twice equals writing it once |
| Database.DeclaredKeysSpec | RolerDBSolution/RolerFramework.Universal/Database/RolerDataBase.cs:72-90 | the registered keys are exactly the keys of the public `null` `Table<T>` fields; fields that already held a table register nothing |
| Database.BoundToGrows | RolerDBSolution/RolerFramework.Universal/Database/RolerDataBase.cs:80-86 | a field bound to the registry stays bound when later fields add tables |
| Database.GetTableKey | RolerDBSolution/RolerFramework.Universal/Database/RolerDataBase.cs:181-189 | a `null` type fails with ArgumentNull("tableType"); otherwise the key is the type key |
| Database.SubmitWrites | RolerDBSolution/RolerFramework.Universal/Database/RolerDataBase.cs:172-177 | the files a submit writes: one per visited initialized table, holding its encoded list, and none for any other key |
| Database.SubmitWritesStep | RolerDBSolution/RolerFramework.Universal/Database/RolerDataBase.cs:172-177 | visiting one more key adds its encoded table to the writes exactly when that table is initialized |
| Database.ReadStored | RolerDBSolution/RolerFramework.Universal/Database/RolerDataBase.cs:217-242 | a missing file reads as a `null` table; otherwise the file's text is decoded |
| Database.InitializeStep | RolerDBSolution/RolerFramework.Universal/Database/RolerDataBase.cs:51-67 | an initialized table is left alone with storage untouched; otherwise the folder is opened, a failure can only be a decode error and leaves the table uninitialized, and a missing file gives an empty list |
| Database.InitializeIdempotent | RolerDBSolution/RolerFramework.Universal/Database/RolerDataBase.cs:48-70 | initializing twice gives the same list, storage and outcome as initializing once |
| Database.InitializeWritesNothing | RolerDBSolution/RolerFramework.Universal/Database/RolerDataBase.cs:48-70 | initialization writes no file; at most it creates the database folder |
| Database.InitializeWithoutData | RolerDBSolution/RolerFramework.Universal/Database/RolerDataBase.cs:58-61 | with no file, an empty file or a stored `null`, an uninitialized table becomes initialized and empty |
| Database.InitializeAdopts | RolerDBSolution/RolerFramework.Universal/Database/RolerDataBase.cs:63-67 | with a stored table, the decoded list is adopted exactly |
| Database.InitializeRejectsMalformed | RolerDBSolution/RolerFramework.Universal/Database/RolerDataBase.cs:238-239 | an undecodable file fails and leaves the table uninitialized |
| Database.SubmitThenReload | RolerDBSolution/RolerFramework.Universal/Database/RolerDataBase.cs:170-179 | durability: after a submit, initializing a fresh table for a submitted key reloads exactly the submitted list |
| Database.SubmitSkipsUninitialized | RolerDBSolution/RolerFramework.Universal/Database/RolerDataBase.cs:172-177 | a submit leaves the file of an uninitialized or unregistered table as it was |
| Database.RolerDatabase.constructor | RolerDBSolution/RolerFramework.Universal/Database/RolerDataBase.cs:22-28 | the registry holds exactly the declared keys, each with a fresh uninitialized table; every bound field holds its type's registry table, and other fields keep their values |
| Database.RolerDatabase.InitTables | RolerDBSolution/RolerFramework.Universal/Database/RolerDataBase.cs:72-90 | the same, starting from an empty registry |
| Database.RolerDatabase.BindField | RolerDBSolution/RolerFramework.Universal/Database/RolerDataBase.cs:77-86 | one field: a public `null` `Table<T>` field gets the registry table for `T`, and other fields and existing entries are unchanged |
| Database.RolerDatabase.GetOrCreateTable | RolerDBSolution/RolerFramework.Universal/Database/RolerDataBase.cs:92-116 | `null` fails; a registered key returns its table with the registry unchanged; otherwise exactly one fresh uninitialized table is added under the key |
| Database.RolerDatabase.IsInTables | RolerDBSolution/RolerFramework.Universal/Database/RolerDataBase.cs:118-122 | a type is in the registry exactly when its key is registered |
| Database.RolerDatabase.GetTable | RolerDBSolution/RolerFramework.Universal/Database/RolerDataBase.cs:34-46 | an unregistered type fails (`IsInTables`); a key held by another type's table fails the cast; otherwise it returns the registered instance and changes nothing |
| Database.RolerDatabase.ReadTableFromFile | RolerDBSolution/RolerFramework.Universal/Database/RolerDataBase.cs:217-242 | opens or creates the folder and returns the stored table for the type's key |
| Database.RolerDatabase.InitializeTable | RolerDBSolution/RolerFramework.Universal/Database/RolerDataBase.cs:48-70 | fails as `GetTable<T>` does with nothing changed; otherwise the table and storage move as `InitializeStep` says, and every other table is unchanged |
| Database.RolerDatabase.SaveTableToFile | RolerDBSolution/RolerFramework.Universal/Database/RolerDataBase.cs:250-263 | an unregistered key fails with KeyNotFound and no change; otherwise the key's file is replaced by the encoded table |
| Database.RolerDatabase.SubmitChanges | RolerDBSolution/RolerFramework.Universal/Database/RolerDataBase.cs:170-179 | the folder ends up as before plus one file per initialized table holding its encoded list, and nothing else changes |
| Database.RolerDatabase.CreateDatabase | RolerDBSolution/RolerFramework.Universal/Database/RolerDataBase.cs:126-129 | an existing folder fails with no change; otherwise an empty folder is added |
| Database.RolerDatabase.ResetDatabase | RolerDBSolution/RolerFramework.Universal/Database/RolerDataBase.cs:131-134 | afterwards the folder exists and is empty, and other folders are unchanged |
| Database.RolerDatabase.DatabaseExists | RolerDBSolution/RolerFramework.Universal/Database/RolerDataBase.cs:136-148 | true exactly when the folder exists; an absent folder is false, not an error |
| Database.RolerDatabase.DeleteDatabase | RolerDBSolution/RolerFramework.Universal/Database/RolerDataBase.cs:150-162 | the folder is gone afterwards; an absent folder is not an error |
| Sample.NewSampleDatabase | RolerDBSolution/RolerDB.Sample/RolerDB.Sample.Shared/Model/SampleDatabase.cs:5-15 | the one `Books` field is bound to the only registered table, a fresh uninitialized `Table<Book>` |
| Sample.AddFirstBook | RolerDBSolution/RolerDB.Sample/RolerDB.Sample.Shared/MainPage.xaml.cs:30-43 | on a first launch the folder is created empty and the book table ends up holding just the inserted book |
| Sample.FirstLaunch | RolerDBSolution/RolerDB.Sample/RolerDB.Sample.Shared/MainPage.xaml.cs:26-48 | after the submit, the folder holds exactly one file, the encoded book list, and a later initialization reloads `[book]` |

## Left out

- Entity equality is value equality. `List.Remove` uses `Equals`, which for the sample's classes is reference equality. Aliasing between entities is not modelled.
- The typed API's compile-time check (`TEntity`, `TSubEntity : TEntity`) is a precondition that every non-null entity is assignable to the table's type.
- Database.RolerDatabase.constructor, Database.RolerDatabase.InitTables, Database.RolerDatabase.BindField: require that no two bound fields share a type key with different types. With such fields, `field.SetValue` would throw on the cast, and that exception is not modelled.
- The "no internal constructor" error of the private `GetTable(Type)` cannot happen, because `Table<T>` always declares its constructor. The `field != null` test in `InitializeTable` always holds, because `_entities` always exists.
- Reflection is replaced by an explicit list of declared fields. Field discovery reads only the class's own declared fields, and the list stands for exactly those.
- `CreateInstance`, `Dispose` and `Table.ToString` are left out: the first is never called, and the other two have no effect on state.
- `async`/`await` is modelled as sequential calls. Concurrency, and a collection changing while it is enumerated, are left out.
- Real storage failures are not modelled: I/O errors, access denied, and failures swallowed by the `catch` blocks other than a missing file or folder.
- Serialization.Deserialize: decoding does not depend on the table's record type. `JsonDeserialize<Table<TEntity>>` only ever builds `TEntity` objects, but the model adopts whatever entities the stored text holds. So the model does not promise that a table initialized from a file holds only entities assignable to its type, and no well-typedness invariant is kept on `Table`.
- Serialization.Serialize: it is total. `DataContractJsonSerializer` throws on an instance of a derived type that is not declared as a known type, and the model does not capture that failure of `SubmitChanges`.
- File and folder names on the platform are matched case-insensitively. The registry and the model's folder and file maps are case-sensitive. Two record types whose full names differ only in case get two tables in both the source and the model. In the source they share one file, so submitting one overwrites the other; in the model they get separate files. Database.SubmitThenReload and Database.SubmitSkipsUninitialized therefore hold in the model for such keys but not in the source: submitting an initialized table replaces the file of the uninitialized one.
- The JSON text and the `DataContractJsonSerializer` are abstract. Their round trip is taken as lossless, and `null` elements inside a stored list are not modelled.
- EntityLists.Admit: only single class inheritance is modelled. A record type has one optional base class, and no interfaces. With `TEntity` an interface or `object`, which `where TEntity : class` allows, the `as` test accepts every implementing class or every object. The model cannot express that, so `Table<object>` and a class that passes two unrelated interface checks are not modelled.
- `ITable.cs` and `ITableGeneric.cs` are interfaces with no behaviour of their own. Their members are modelled through `Table`.
