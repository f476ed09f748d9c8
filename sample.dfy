/** The sample application: a database named "RolerDB" with one
    `Table<Book>` field, used the way its main page uses it on a first
    launch. */
module Sample {
  import opened Wrappers
  import opened Records
  import opened Serialization
  import opened Storage
  import opened Tables
  import opened Database

  const BookType := RecordType("RolerDB.Sample", "RolerDB.Sample.Model.Book", None)
  const DatabaseName := "RolerDB"

  /** `SampleDatabase`: the single public field `Books`, `null` until the
      base constructor binds it. */
  method NewSampleDatabase(folder: LocalFolder) returns (db: RolerDatabase)
    ensures db.Valid() && db.dbName == DatabaseName && db.localFolder == folder
    ensures db.tables.Keys == {TypeKey(BookType)}
    ensures fresh(db.tables[TypeKey(BookType)])
    ensures db.fieldValues == [db.tables[TypeKey(BookType)]]
    ensures db.tables[TypeKey(BookType)].elementType == BookType
    ensures !db.tables[TypeKey(BookType)].IsInitialized()
  {
    var decls := [FieldDecl("Books", true, Some(BookType))];
    db := new RolerDatabase(DatabaseName, folder, decls, [null]);
    assert Binds(decls[0], null);
    assert DeclaredKeys(decls, [null], 1) == {TypeKey(BookType)};
  }

  /** The main page up to the submit: create the folder if it is missing,
      initialize the book table (there is no stored file yet, so it starts
      empty) and insert one book through `GetTable<Book>()`. */
  method AddFirstBook(db: RolerDatabase, book: Entity) returns (r: Status)
    requires db.Valid() && db.dbName == DatabaseName && DatabaseName !in db.localFolder.folders
    requires db.tables.Keys == {TypeKey(BookType)}
    requires db.tables[TypeKey(BookType)].elementType == BookType
    requires !db.tables[TypeKey(BookType)].IsInitialized()
    requires book.recordType == BookType
    modifies db.localFolder, db.tables.Values
    ensures r == Pass && db.Valid()
    ensures db.localFolder.folders == old(db.localFolder.folders)[DatabaseName := map[]]
    ensures db.States() == map[TypeKey(BookType) := Some([book])]
  {
    var isExists := db.DatabaseExists();
    if !isExists {
      r := db.CreateDatabase();
    }
    InitializeWithoutData(db.localFolder.folders, DatabaseName, TypeKey(BookType));
    r := db.InitializeTable(BookType);
    assert db.tables[TypeKey(BookType)].entities == Some([]);
    var books := db.GetTable(BookType);
    assert books == Ok(db.tables[TypeKey(BookType)]);
    r := books.value.InsertOnSubmit(Some(book));
    assert [] + [book] == [book];
    assert db.tables[TypeKey(BookType)].entities == Some([book]);
  }

  /** The main page on a first launch: the book is then the only entry of
      the stored table, and a later session reloads it. */
  method FirstLaunch(folder: LocalFolder, book: Entity) returns (r: Status)
    requires DatabaseName !in folder.folders
    requires book.recordType == BookType
    modifies folder
    ensures r == Pass
    ensures folder.folders == old(folder.folders)[DatabaseName := map[TypeKey(BookType) := Serialize(Some([book]))]]
    ensures InitializeStep(None, folder.folders, DatabaseName, TypeKey(BookType)).entities == Some([book])
  {
    var db := NewSampleDatabase(folder);
    r := AddFirstBook(db, book);
    ghost var states := map[TypeKey(BookType) := Some([book])];
    ghost var created := old(folder.folders)[DatabaseName := map[]];
    ghost var writes := SubmitWrites(states, {TypeKey(BookType)});
    assert writes == map[TypeKey(BookType) := Serialize(Some([book]))];
    assert FilesOf(created, DatabaseName) + writes == writes;
    assert ApplyWrites(created, DatabaseName, writes) == old(folder.folders)[DatabaseName := writes];
    assert db.tables.Keys == {TypeKey(BookType)} && db.localFolder.folders == created;
    db.SubmitChanges();
    assert folder.folders == ApplyWrites(created, DatabaseName, writes);
    SubmitThenReload(states, created, DatabaseName, TypeKey(BookType));
  }
}
