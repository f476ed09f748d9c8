/** The application's local folder, reduced to what the database uses: named
    sub-folders, each mapping a file name to the file's text. The asynchronous
    calls become sequential updates; lookups that the source wraps in a
    blanket `catch` become "absent". */
module Storage {
  import opened Wrappers
  import opened Serialization

  type Files = map<string, Text>
  type Folders = map<string, Files>

  /** `ApplicationData.Current.LocalFolder`. */
  class LocalFolder {
    var folders: Folders

    constructor (folders: Folders)
      ensures this.folders == folders
    {
      this.folders := folders;
    }
  }

  /** The files of folder `name`; an absent folder holds none. */
  function FilesOf(folders: Folders, name: string): Files
  {
    if name in folders then folders[name] else map[]
  }

  /** `CreateFolderAsync(name, OpenIfExists)`: the folder exists afterwards
      and nothing that existed changes. */
  function OpenOrCreate(folders: Folders, name: string): (r: Folders)
    ensures r.Keys == folders.Keys + {name}
    ensures r[name] == FilesOf(folders, name)
    ensures forall other :: other in folders ==> r[other] == folders[other]
  {
    if name in folders then folders else folders[name := map[]]
  }

  /** `GetFileAsync` then `FileIO.ReadTextAsync`; a missing folder or file
      reads as absent. */
  function ReadFile(folders: Folders, name: string, file: string): (r: Option<Text>)
    ensures r.Some? <==> name in folders && file in folders[name]
  {
    if file in FilesOf(folders, name) then Some(FilesOf(folders, name)[file]) else None
  }

  /** `CreateFolderAsync(name, OpenIfExists)`, `CreateFileAsync(file,
      ReplaceExisting)`, `FileIO.WriteTextAsync`: the file holds `text`
      whole, whatever it held before. */
  function WriteFile(folders: Folders, name: string, file: string, text: Text): (r: Folders)
    ensures ReadFile(r, name, file) == Some(text)
    ensures forall f :: f != file ==> ReadFile(r, name, f) == ReadFile(folders, name, f)
    ensures forall other :: other != name ==> (other in r <==> other in folders)
    ensures forall other :: other != name && other in folders ==> r[other] == folders[other]
  {
    folders[name := FilesOf(folders, name)[file := text]]
  }

  /** The effect of writing every file of `writes` into folder `name`; when
      there is nothing to write the folder is not even opened. */
  function ApplyWrites(folders: Folders, name: string, writes: Files): (r: Folders)
    ensures r.Keys == if writes == map[] then folders.Keys else folders.Keys + {name}
    ensures forall other :: other != name && other in folders ==> r[other] == folders[other]
  {
    if writes == map[] then folders else folders[name := FilesOf(folders, name) + writes]
  }

  /** Writing one more file extends the batch of writes. */
  lemma WriteAfterWrites(folders: Folders, name: string, writes: Files, file: string, text: Text)
    ensures WriteFile(ApplyWrites(folders, name, writes), name, file, text)
         == ApplyWrites(folders, name, writes[file := text])
  {
    var base, more := FilesOf(folders, name), writes[file := text];
    assert file in more;
    FilesAfterWrites(folders, name, writes);
    assert (base + writes)[file := text] == base + more;
  }

  /** The folder's files after a batch of writes. */
  lemma FilesAfterWrites(folders: Folders, name: string, writes: Files)
    ensures FilesOf(ApplyWrites(folders, name, writes), name) == FilesOf(folders, name) + writes
  {
    if writes == map[] {
      assert FilesOf(folders, name) + writes == FilesOf(folders, name);
    }
  }

  /** What a batch of writes leaves in each file of the folder. */
  lemma ReadAfterWrites(folders: Folders, name: string, writes: Files, file: string)
    ensures ReadFile(ApplyWrites(folders, name, writes), name, file)
         == if file in writes then Some(writes[file]) else ReadFile(folders, name, file)
  {
  }

  /** Submitting the same batch twice leaves the same files as once. */
  lemma ApplyWritesIdempotent(folders: Folders, name: string, writes: Files)
    ensures ApplyWrites(ApplyWrites(folders, name, writes), name, writes)
         == ApplyWrites(folders, name, writes)
  {
    if writes != map[] {
      var once := FilesOf(folders, name) + writes;
      assert once + writes == once;
    }
  }
}
