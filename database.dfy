/** `RolerDatabase`: the registry from type key to table, the binding of the
    declared `Table<T>` fields, lazy initialization from storage and the bulk
    save. */
module Database {
  import opened Wrappers
  import opened Records
  import opened Serialization
  import opened Storage
  import opened Tables

  /** A field declared by the concrete database class, as reflection sees it:
      its name, whether it is public, and `Some(T)` when its type is
      `Table<T>`. */
  datatype FieldDecl = FieldDecl(name: string, isPublic: bool, tableOf: Option<RecordType>)

  /** The fields `InitTables` binds: public `Table<T>` fields that are still
      `null` when the base constructor runs. */
  predicate Binds(d: FieldDecl, v: Table?)
  {
    d.isPublic && d.tableOf.Some? && v == null
  }

  /** Two bound fields whose record types share a key declare the same type
      (the key is not checked for collisions; see README). */
  predicate KeysDistinct(decls: seq<FieldDecl>, initial: seq<Table?>)
    requires |initial| == |decls|
  {
    forall i, j ::
      (0 <= i < |decls| && 0 <= j < |decls| &&
       Binds(decls[i], initial[i]) && Binds(decls[j], initial[j]) &&
       TypeKey(decls[i].tableOf.value) == TypeKey(decls[j].tableOf.value)) ==>
      decls[i].tableOf == decls[j].tableOf
  }

  /** The keys `InitTables` registers while scanning the first `n` fields. */
  function DeclaredKeys(decls: seq<FieldDecl>, initial: seq<Table?>, n: nat): set<string>
    requires n <= |decls| == |initial|
  {
    if n == 0 then {}
    else if Binds(decls[n - 1], initial[n - 1]) then
      DeclaredKeys(decls, initial, n - 1) + {TypeKey(decls[n - 1].tableOf.value)}
    else DeclaredKeys(decls, initial, n - 1)
  }

  /** A key is registered exactly when some bound field declares a record
      type with that key: fields that already held a table register
      nothing. */
  lemma {:induction false} DeclaredKeysSpec(decls: seq<FieldDecl>, initial: seq<Table?>, n: nat, k: string)
    requires n <= |decls| == |initial|
    ensures k in DeclaredKeys(decls, initial, n) <==>
      exists j :: 0 <= j < n && Binds(decls[j], initial[j]) && TypeKey(decls[j].tableOf.value) == k
  {
    if n > 0 {
      DeclaredKeysSpec(decls, initial, n - 1, k);
      if Binds(decls[n - 1], initial[n - 1]) && TypeKey(decls[n - 1].tableOf.value) == k {
        assert k in DeclaredKeys(decls, initial, n);
      }
    }
  }

  /** A `Table<T>` field holds the registry's table for `T`. */
  predicate BoundTo(d: FieldDecl, v: Table?, tables: map<string, Table>)
    requires d.tableOf.Some?
  {
    var key := TypeKey(d.tableOf.value);
    key in tables && v == tables[key] && tables[key].elementType == d.tableOf.value
  }

  /** A binding survives the registry gaining entries. */
  lemma BoundToGrows(d: FieldDecl, v: Table?, before: map<string, Table>, after: map<string, Table>)
    requires d.tableOf.Some? && BoundTo(d, v, before)
    requires forall k :: k in before ==> k in after && after[k] == before[k]
    ensures BoundTo(d, v, after)
  {
  }

  /** `GetTableKey`: a `null` type throws. */
  function GetTableKey(t: Option<RecordType>): (r: Result<string, Error>)
    ensures r.Err? <==> t.None?
    ensures r.Err? ==> r.error == ArgumentNull("tableType")
    ensures r.Ok? ==> r.value == TypeKey(t.value)
  {
    if t.None? then Err(ArgumentNull("tableType")) else Ok(TypeKey(t.value))
  }

  /** The abstract value of the registry: each registered key's backing
      list (`None` for an uninitialized table). */
  type TableStates = map<string, Option<seq<Entity>>>

  /** The files `SubmitChanges` writes once it has visited the keys in
      `visited`: one per initialized table, holding its encoded list. */
  function SubmitWrites(states: TableStates, visited: set<string>): (r: Files)
    ensures r.Keys <= visited
    ensures forall k :: k in r ==> k in states && states[k].Some? && r[k] == Serialize(states[k])
    ensures forall k :: k in visited && k in states && states[k].Some? ==> k in r
  {
    map k | k in visited && k in states && states[k].Some? :: Serialize(states[k])
  }

  /** Visiting one more key writes its file exactly when its table is
      initialized. */
  lemma SubmitWritesStep(states: TableStates, visited: set<string>, k: string)
    requires k in states
    ensures SubmitWrites(states, visited + {k}) ==
      if states[k].Some? then SubmitWrites(states, visited)[k := Serialize(states[k])]
      else SubmitWrites(states, visited)
  {
  }

  /** `ReadTableFromFile<T>`: opens (creating if needed) the database folder,
      then decodes the table's file; no file reads as a `null` table. */
  function ReadStored(folders: Folders, name: string, key: string): (r: Result<Option<StoredTable>, Error>)
    ensures ReadFile(folders, name, key).None? ==> r == Ok(None)
    ensures ReadFile(folders, name, key).Some? ==> r == Deserialize(ReadFile(folders, name, key).value)
  {
    var file := ReadFile(OpenOrCreate(folders, name), name, key);
    if file.None? then Ok(None) else Deserialize(file.value)
  }

  /** The effect of `InitializeTable<T>` on one table and the storage. */
  datatype InitResult = InitResult(status: Status, entities: Option<seq<Entity>>, folders: Folders)

  /** `InitializeTable<T>` once the table is found: an initialized table is
      left alone; otherwise the stored table is read and its list adopted,
      a missing or empty file giving an empty list. */
  function InitializeStep(current: Option<seq<Entity>>, folders: Folders, name: string, key: string): (r: InitResult)
    ensures current.Some? ==> r == InitResult(Pass, current, folders)
    ensures current.None? ==> r.folders == OpenOrCreate(folders, name)
    ensures r.status.Fail? ==> r.status == Fail(DecodeError) && r.entities.None?
    ensures current.None? && ReadFile(folders, name, key).None? ==> r.entities == Some([])
  {
    if current.Some? then InitResult(Pass, current, folders)
    else
      var reopened := OpenOrCreate(folders, name);
      match ReadStored(folders, name, key)
      case Err(e) => InitResult(Fail(e), None, reopened)
      case Ok(None) => InitResult(Pass, Some([]), reopened)
      case Ok(Some(stored)) => InitResult(Pass, stored.entities, reopened)
  }

  /** Initializing twice leaves the same state, and reports the same, as
      initializing once. */
  lemma InitializeIdempotent(current: Option<seq<Entity>>, folders: Folders, name: string, key: string)
    ensures var once := InitializeStep(current, folders, name, key);
      InitializeStep(once.entities, once.folders, name, key) == once
  {
    var once := InitializeStep(current, folders, name, key);
    if current.None? {
      assert OpenOrCreate(once.folders, name) == once.folders;
      assert ReadStored(once.folders, name, key) == ReadStored(folders, name, key);
    }
  }

  /** Initialization never writes a file; at most it creates the folder. */
  lemma InitializeWritesNothing(current: Option<seq<Entity>>, folders: Folders, name: string, key: string)
    ensures var s := InitializeStep(current, folders, name, key);
      s.folders == folders || s.folders == OpenOrCreate(folders, name)
  {
  }

  /** An uninitialized table with no stored file, an empty file or a stored
      `null` becomes initialized with an empty list. */
  lemma InitializeWithoutData(folders: Folders, name: string, key: string)
    requires ReadFile(folders, name, key) in {None, Some(EmptyText), Some(JsonNull)}
    ensures InitializeStep(None, folders, name, key) == InitResult(Pass, Some([]), OpenOrCreate(folders, name))
  {
  }

  /** With a stored table, the decoded list is adopted exactly; a stored
      table whose list is `null` leaves the table uninitialized. */
  lemma InitializeAdopts(folders: Folders, name: string, key: string, stored: Option<seq<Entity>>)
    requires ReadFile(folders, name, key) == Some(TableJson(stored))
    ensures InitializeStep(None, folders, name, key) == InitResult(Pass, stored, OpenOrCreate(folders, name))
  {
  }

  /** A file the serializer rejects makes initialization throw, leaving the
      table uninitialized. */
  lemma InitializeRejectsMalformed(folders: Folders, name: string, key: string, raw: string)
    requires ReadFile(folders, name, key) == Some(Malformed(raw))
    ensures InitializeStep(None, folders, name, key) == InitResult(Fail(DecodeError), None, OpenOrCreate(folders, name))
  {
  }

  /** Durability: after a submit, a fresh uninitialized table for any key
      that was initialized reloads exactly the submitted list. */
  lemma SubmitThenReload(states: TableStates, folders: Folders, name: string, key: string)
    requires key in states && states[key].Some?
    ensures var after := ApplyWrites(folders, name, SubmitWrites(states, states.Keys));
      InitializeStep(None, after, name, key) == InitResult(Pass, states[key], OpenOrCreate(after, name))
  {
    var writes := SubmitWrites(states, states.Keys);
    assert key in writes;
    ReadAfterWrites(folders, name, writes, key);
    RoundTrip(states[key]);
  }

  /** A submit never touches the file of an uninitialized table (nor any
      file whose key is not registered). */
  lemma SubmitSkipsUninitialized(states: TableStates, folders: Folders, name: string, key: string)
    requires key !in states || states[key].None?
    ensures ReadFile(ApplyWrites(folders, name, SubmitWrites(states, states.Keys)), name, key)
         == ReadFile(folders, name, key)
  {
    ReadAfterWrites(folders, name, SubmitWrites(states, states.Keys), key);
  }

  class RolerDatabase {
    /** `_dbName`: the name of this database's folder. */
    const dbName: string
    /** `localFolder`. */
    const localFolder: LocalFolder
    /** The fields the concrete database class declares, in declaration order. */
    const fieldDecls: seq<FieldDecl>
    /** The current value of each declared field that has a table type. */
    var fieldValues: seq<Table?>
    /** `_tables`. */
    var tables: map<string, Table>

    /** Every registered table sits under its own record type's key. */
    ghost predicate Valid()
      reads this
    {
      |fieldValues| == |fieldDecls| &&
      forall k :: k in tables ==> TypeKey(tables[k].elementType) == k
    }

    ghost function States(): TableStates
      reads this, tables.Values
    {
      map k | k in tables :: tables[k].entities
    }

    /** The constructor: an empty registry, then `InitTables`. */
    constructor (dbName: string, localFolder: LocalFolder, fieldDecls: seq<FieldDecl>, initial: seq<Table?>)
      requires |initial| == |fieldDecls|
      requires KeysDistinct(fieldDecls, initial)
      ensures Valid()
      ensures this.dbName == dbName && this.localFolder == localFolder && this.fieldDecls == fieldDecls
      ensures tables.Keys == DeclaredKeys(fieldDecls, initial, |fieldDecls|)
      ensures forall k :: k in tables ==> fresh(tables[k]) && !tables[k].IsInitialized()
      ensures forall i :: 0 <= i < |fieldDecls| ==>
        if Binds(fieldDecls[i], initial[i]) then BoundTo(fieldDecls[i], fieldValues[i], tables)
        else fieldValues[i] == initial[i]
    {
      this.dbName := dbName;
      this.localFolder := localFolder;
      this.fieldDecls := fieldDecls;
      fieldValues := initial;
      tables := map[];
      new;
      InitTables();
    }

    /** `InitTables`: binds every public `Table<T>` field that is `null` to
        the registry's table for `T`, creating it on first use; other fields
        are left alone. */
    method InitTables()
      requires Valid() && tables == map[]
      requires KeysDistinct(fieldDecls, fieldValues)
      modifies this
      ensures Valid()
      ensures tables.Keys == DeclaredKeys(fieldDecls, old(fieldValues), |fieldDecls|)
      ensures forall k :: k in tables ==> fresh(tables[k]) && !tables[k].IsInitialized()
      ensures forall i :: 0 <= i < |fieldDecls| ==>
        if Binds(fieldDecls[i], old(fieldValues)[i]) then BoundTo(fieldDecls[i], fieldValues[i], tables)
        else fieldValues[i] == old(fieldValues)[i]
    {
      ghost var initial := fieldValues;
      var i := 0;
      while i < |fieldDecls|
        invariant 0 <= i <= |fieldDecls|
        invariant Valid()
        invariant tables.Keys == DeclaredKeys(fieldDecls, initial, i)
        invariant forall k :: k in tables ==> fresh(tables[k]) && !tables[k].IsInitialized()
        invariant forall j :: 0 <= j < i && Binds(fieldDecls[j], initial[j]) ==>
          BoundTo(fieldDecls[j], fieldValues[j], tables)
        invariant forall j :: 0 <= j < |fieldDecls| && (i <= j || !Binds(fieldDecls[j], initial[j])) ==>
          fieldValues[j] == initial[j]
      {
        BindField(i, initial);
        i := i + 1;
      }
    }

    /** One pass of the `InitTables` loop: field `i`, if it is a public
        `null` `Table<T>` field, is set to the registry's table for `T`. */
    method BindField(i: nat, ghost initial: seq<Table?>)
      requires Valid() && i < |fieldDecls| == |initial|
      requires KeysDistinct(fieldDecls, initial)
      requires tables.Keys == DeclaredKeys(fieldDecls, initial, i)
      requires forall j :: 0 <= j < i && Binds(fieldDecls[j], initial[j]) ==>
        BoundTo(fieldDecls[j], fieldValues[j], tables)
      requires fieldValues[i] == initial[i]
      modifies this
      ensures Valid()
      ensures tables.Keys == DeclaredKeys(fieldDecls, initial, i + 1)
      ensures forall k :: k in old(tables) ==> k in tables && tables[k] == old(tables)[k]
      ensures forall k :: k in tables && k !in old(tables) ==> fresh(tables[k]) && !tables[k].IsInitialized()
      ensures forall j :: 0 <= j <= i && Binds(fieldDecls[j], initial[j]) ==>
        BoundTo(fieldDecls[j], fieldValues[j], tables)
      ensures forall j :: 0 <= j < |fieldDecls| && (j != i || !Binds(fieldDecls[j], initial[j])) ==>
        fieldValues[j] == old(fieldValues)[j]
    {
      var d := fieldDecls[i];
      if d.isPublic && d.tableOf.Some? && fieldValues[i] == null {
        ghost var key, before, valuesBefore := TypeKey(d.tableOf.value), tables, fieldValues;
        var r := GetOrCreateTable(d.tableOf);
        fieldValues := fieldValues[i := r.value];
        if key in before {
          DeclaredKeysSpec(fieldDecls, initial, i, key);
          ghost var j :| 0 <= j < i && Binds(fieldDecls[j], initial[j]) && TypeKey(fieldDecls[j].tableOf.value) == key;
          assert BoundTo(fieldDecls[j], valuesBefore[j], before);
        }
        assert BoundTo(d, fieldValues[i], tables);
        forall j | 0 <= j < i && Binds(fieldDecls[j], initial[j])
          ensures BoundTo(fieldDecls[j], fieldValues[j], tables)
        {
          assert BoundTo(fieldDecls[j], valuesBefore[j], before);
          BoundToGrows(fieldDecls[j], valuesBefore[j], before, tables);
        }
      } else {
        assert !Binds(d, initial[i]);
      }
    }

    /** The private `GetTable(Type)`: returns the table registered under
        the type's key, registering a fresh uninitialized one first if there
        is none. */
    method GetOrCreateTable(t: Option<RecordType>) returns (r: Result<Table, Error>)
      requires Valid()
      modifies this`tables
      ensures Valid()
      ensures t.None? ==> r == Err(ArgumentNull("type")) && tables == old(tables)
      ensures t.Some? && TypeKey(t.value) in old(tables) ==>
        r == Ok(old(tables)[TypeKey(t.value)]) && tables == old(tables)
      ensures t.Some? && TypeKey(t.value) !in old(tables) ==>
        r.Ok? && fresh(r.value) && r.value.elementType == t.value && !r.value.IsInitialized() &&
        tables == old(tables)[TypeKey(t.value) := r.value]
    {
      if t.None? {
        return Err(ArgumentNull("type"));
      }
      var key := GetTableKey(t).value;
      if key in tables {
        r := Ok(tables[key]);
      } else {
        var table := new Table(t.value);
        tables := tables[key := table];
        r := Ok(table);
      }
    }

    /** `IsInTables`: whether `t`'s key is registered. */
    predicate IsInTables(t: RecordType)
      reads this
      ensures IsInTables(t) <==> GetTableKey(Some(t)).value in tables.Keys
    {
      TypeKey(t) in tables
    }

    /** `GetTable<T>`: the registered table for `T`, the same instance on
        every call. A type that was never registered throws; so does a
        registered key whose table is for another type with the same name
        (the cast). The registry is not changed: the inner get-or-create
        always finds the key here. */
    method GetTable(t: RecordType) returns (r: Result<Table, Error>)
      ensures !IsInTables(t) ==> r == Err(NotATable)
      ensures IsInTables(t) && tables[TypeKey(t)].elementType != t ==> r == Err(InvalidCast)
      ensures IsInTables(t) && tables[TypeKey(t)].elementType == t ==> r == Ok(tables[TypeKey(t)])
    {
      if !IsInTables(t) {
        return Err(NotATable);
      }
      var table := tables[TypeKey(t)];
      r := if table.elementType == t then Ok(table) else Err(InvalidCast);
    }

    /** `ReadTableFromFile<T>`: the folder is opened (created if missing)
        and the stored table for `T`'s key is read as `ReadStored` says. */
    method ReadTableFromFile(t: RecordType) returns (r: Result<Option<StoredTable>, Error>)
      modifies localFolder
      ensures localFolder.folders == OpenOrCreate(old(localFolder.folders), dbName)
      ensures r == ReadStored(old(localFolder.folders), dbName, TypeKey(t))
    {
      r := ReadStored(localFolder.folders, dbName, GetTableKey(Some(t)).value);
      localFolder.folders := OpenOrCreate(localFolder.folders, dbName);
    }

    /** `InitializeTable<T>`: a no-op on an initialized table; otherwise the
        table adopts the list read from storage, or an empty list when there
        is no stored table. */
    method InitializeTable(t: RecordType) returns (r: Status)
      requires Valid()
      modifies tables.Values, localFolder
      ensures Valid()
      ensures !IsInTables(t) ==> r == Fail(NotATable) && unchanged(localFolder) && unchanged(tables.Values)
      ensures IsInTables(t) && tables[TypeKey(t)].elementType != t ==>
        r == Fail(InvalidCast) && unchanged(localFolder) && unchanged(tables.Values)
      ensures IsInTables(t) && tables[TypeKey(t)].elementType == t ==>
        var s := InitializeStep(old(tables[TypeKey(t)].entities), old(localFolder.folders), dbName, TypeKey(t));
        r == s.status && localFolder.folders == s.folders && tables[TypeKey(t)].entities == s.entities &&
        forall k :: k in tables && k != TypeKey(t) ==> unchanged(tables[k])
    {
      var g := GetTable(t);
      if g.Err? {
        return Fail(g.error);
      }
      var table := g.value;
      if !table.IsInitialized() {
        var stored := ReadTableFromFile(t);
        if stored.Err? {
          return Fail(stored.error);
        }
        if stored.value.None? {
          table.Adopt(Some([]));
        } else {
          table.Adopt(stored.value.value.entities);
        }
      }
      r := Pass;
    }

    /** `SaveTableToFile`: replaces the key's file with the encoded table;
        an unregistered key throws. */
    method SaveTableToFile(key: string) returns (r: Status)
      modifies localFolder
      ensures key !in tables ==> r == Fail(KeyNotFound) && unchanged(localFolder)
      ensures key in tables ==>
        r == Pass && localFolder.folders == WriteFile(old(localFolder.folders), dbName, key, Serialize(tables[key].entities))
    {
      if key !in tables {
        return Fail(KeyNotFound);
      }
      localFolder.folders := WriteFile(localFolder.folders, dbName, key, Serialize(tables[key].entities));
      r := Pass;
    }

    /** `SubmitChanges`: saves every initialized table, in no particular
        order, and no uninitialized one. */
    method SubmitChanges()
      requires Valid()
      modifies localFolder
      ensures localFolder.folders == ApplyWrites(old(localFolder.folders), dbName, SubmitWrites(old(States()), tables.Keys))
    {
      ghost var states, before := States(), localFolder.folders;
      var pending := tables.Keys;
      ghost var visited: set<string> := {};
      assert SubmitWrites(states, visited) == map[];
      while pending != {}
        invariant pending + visited == tables.Keys && pending !! visited
        invariant localFolder.folders == ApplyWrites(before, dbName, SubmitWrites(states, visited))
        decreases pending
      {
        var key :| key in pending;
        SubmitWritesStep(states, visited, key);
        assert states[key] == tables[key].entities;
        if tables[key].IsInitialized() {
          WriteAfterWrites(before, dbName, SubmitWrites(states, visited), key, Serialize(tables[key].entities));
          var _ := SaveTableToFile(key);
        }
        pending := pending - {key};
        visited := visited + {key};
      }
    }

    /** `CreateDatabase`: creating a folder that exists throws. */
    method CreateDatabase() returns (r: Status)
      modifies localFolder
      ensures dbName in old(localFolder.folders) ==> r == Fail(FolderExists) && unchanged(localFolder)
      ensures dbName !in old(localFolder.folders) ==>
        r == Pass && localFolder.folders == old(localFolder.folders)[dbName := map[]]
    {
      if dbName in localFolder.folders {
        return Fail(FolderExists);
      }
      localFolder.folders := localFolder.folders[dbName := map[]];
      r := Pass;
    }

    /** `ResetDatabase`: the folder exists and is empty afterwards. */
    method ResetDatabase()
      modifies localFolder
      ensures localFolder.folders == old(localFolder.folders)[dbName := map[]]
    {
      localFolder.folders := localFolder.folders[dbName := map[]];
    }

    /** `DatabaseExists`: false, not an error, when the folder is absent. */
    method DatabaseExists() returns (r: bool)
      ensures r <==> dbName in localFolder.folders
    {
      r := dbName in localFolder.folders;
    }

    /** `DeleteDatabase`: removes the folder; returns normally when it is
        absent. */
    method DeleteDatabase()
      modifies localFolder
      ensures localFolder.folders == old(localFolder.folders) - {dbName}
    {
      localFolder.folders := localFolder.folders - {dbName};
    }
  }
}
