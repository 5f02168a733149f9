/** The image store's persisted state as a value, and each of its
    operations as a function from one state to the next. The class in
    module ImageStoreService performs these operations step by step and is
    proved to compute exactly these functions; the properties of the store
    are proved here, once, about the functions. */
module ImageStoreSpec {
  import opened Wrappers
  import OrderedSets

  /** The name under which a blob is stored: the hash of its content. */
  type Index = string
  type MimeType = string

  datatype OnWriteExistStrategy = Ignore | Replace

  /** A row of the `ImageStore_extension` table. */
  datatype ImageExtension = ImageExtension(imageIndex: Index, extension: string)

  /** A row of the `ImageStore_thumbnail` table. */
  datatype Thumbnail = Thumbnail(imageIndex: Index, thumbnailIndex: Index)

  /** The persisted part of the store: the files of its root directory
      (file name to base64 content) and its two tables, in row order. */
  datatype Store = Store(
    files: map<string, string>,
    extensionTable: seq<ImageExtension>,
    thumbnailTable: seq<Thumbnail>)

  /** The collaborators the store calls but whose code is not part of this
      model: the SHA-256 digest of a base64 string, the MIME-type to
      file-extension table, and the image downscaler (base64 in, base64 out). */
  datatype Env = Env(
    sha256: string -> Index,
    toExtension: MimeType -> string,
    reduce: (string, MimeType) -> string)

  /** The filesystem plugin's error for a path that does not exist. */
  datatype StoreError = FileNotFound(path: string)

  /** What `toDataUrl` wraps: a base64 payload with its MIME type. */
  datatype DataUrl = DataUrl(mimeType: MimeType, base64: string)

  const ThumbnailSize := 100

  function ExtensionRowIndex(row: ImageExtension): Index { row.imageIndex }
  function ThumbnailRowIndex(row: Thumbnail): Index { row.imageIndex }

  /** `rows.find(row => row.imageIndex === index)`: the first matching row. */
  function Find<T>(rows: seq<T>, key: T -> Index, index: Index): (r: Option<T>)
    ensures r.None? <==> forall k :: 0 <= k < |rows| ==> key(rows[k]) != index
    ensures r.Some? ==> exists k :: 0 <= k < |rows| && rows[k] == r.value && key(r.value) == index
                                    && forall j :: 0 <= j < k ==> key(rows[j]) != index
  {
    if rows == [] then None
    else if key(rows[0]) == index then Some(rows[0])
    else
      var rest := Find(rows[1..], key, index);
      assert rest.Some? ==> exists k :: 1 <= k < |rows| && rows[k] == rest.value && key(rest.value) == index
                                        && forall j :: 0 <= j < k ==> key(rows[j]) != index by {
        if rest.Some? {
          var k :| 0 <= k < |rows[1..]| && rows[1..][k] == rest.value && key(rest.value) == index
                   && forall j :: 0 <= j < k ==> key(rows[1..][j]) != index;
          assert rows[k + 1] == rest.value;
        }
      }
      rest
  }

  /** Appending a row never changes which row `find` returns for an index
      that already had one: the first recorded row wins. */
  lemma {:induction false} FindAppend<T>(rows: seq<T>, row: T, key: T -> Index, index: Index)
    ensures Find(rows + [row], key, index)
         == if Find(rows, key, index).Some? then Find(rows, key, index)
            else if key(row) == index then Some(row) else None
  {
    if rows != [] {
      assert (rows + [row])[1..] == rows[1..] + [row];
      FindAppend(rows[1..], row, key, index);
    }
  }

  function FindExtension(table: seq<ImageExtension>, index: Index): Option<ImageExtension> {
    Find(table, ExtensionRowIndex, index)
  }

  function FindThumbnail(table: seq<Thumbnail>, index: Index): Option<Thumbnail> {
    Find(table, ThumbnailRowIndex, index)
  }

  /** `getExtension`: the extension of the first row recorded for `index`. */
  function ExtensionOf(s: Store, index: Index): Option<string> {
    match FindExtension(s.extensionTable, index)
    case Some(row) => Some(row.extension)
    case None => None
  }

  /** The file name `${index}.${extension}`; JavaScript renders a missing
      extension as the text "undefined". */
  function FileName(index: Index, extension: Option<string>): string {
    index + "." + (if extension.Some? then extension.value else "undefined")
  }

  /** The file that `read`, `exists` and `delete` address for `index`. */
  function PathOf(s: Store, index: Index): string {
    FileName(index, ExtensionOf(s, index))
  }

  /** `exists(index)`: the root directory lists `index.extension`. */
  predicate Exists(s: Store, index: Index) {
    PathOf(s, index) in s.files
  }

  /** `read(index)`: the content of `index.extension`, or the plugin's error. */
  function Read(s: Store, index: Index): Result<string, StoreError> {
    if PathOf(s, index) in s.files then Ok(s.files[PathOf(s, index)])
    else Err(FileNotFound(PathOf(s, index)))
  }

  /** `_write`: records the extension row with IGNORE, then writes the file
      named after the extension just passed (the row the insert returns). */
  function WriteEntry(s: Store, index: Index, base64: string, extension: string): Store {
    Store(s.files[FileName(index, Some(extension)) := base64],
          OrderedSets.Insert(s.extensionTable, ImageExtension(index, extension)),
          s.thumbnailTable)
  }

  /** `write`: the returned index and the new state. */
  function Write(env: Env, s: Store, base64: string, mimeType: MimeType, strategy: OnWriteExistStrategy)
    : (Index, Store)
  {
    var index := env.sha256(base64);
    if strategy == Replace || !Exists(s, index) then
      (index, WriteEntry(s, index, base64, env.toExtension(mimeType)))
    else
      (index, s)
  }

  /** `deleteImageExtension`: drops the first row recorded for `index`. */
  function DeleteImageExtension(table: seq<ImageExtension>, index: Index): seq<ImageExtension> {
    match FindExtension(table, index)
    case None => table
    case Some(row) => OrderedSets.Remove(table, row)
  }

  /** The locked part of `delete`: remove the file, then the extension row. */
  function DeleteFileAndExtension(s: Store, index: Index): (Result<Index, StoreError>, Store) {
    var path := PathOf(s, index);
    if path !in s.files then (Err(FileNotFound(path)), s)
    else (Ok(index), s.(files := s.files - {path},
                        extensionTable := DeleteImageExtension(s.extensionTable, index)))
  }

  /** `delete(index)`: first the thumbnail, then the blob and its row. */
  function Delete(s: Store, index: Index): (Result<Index, StoreError>, Store)
    decreases |s.thumbnailTable|, 1
  {
    var (r, s1) := DeleteThumbnail(s, index);
    if r.Err? then (r, s1) else DeleteFileAndExtension(s1, index)
  }

  /** `deleteThumbnail(index)`: drops the first thumbnail row of `index`
      and deletes the thumbnail's own blob. The row is removed before the
      recursive delete, which therefore sees a smaller table. */
  function DeleteThumbnail(s: Store, index: Index): (Result<Index, StoreError>, Store)
    decreases |s.thumbnailTable|, 0
  {
    match FindThumbnail(s.thumbnailTable, index)
    case None => (Ok(index), s)
    case Some(t) =>
      var s1 := s.(thumbnailTable := OrderedSets.Remove(s.thumbnailTable, t));
      var (r, s2) := Delete(s1, t.thumbnailIndex);
      if r.Err? then (r, s2) else (Ok(index), s2)
  }

  /** `getThumbnailUrl(index, mimeType)`: the cached thumbnail if a row
      exists; otherwise read the image, downscale it, write the result with
      the default REPLACE strategy and record the thumbnail row. */
  function GetThumbnailUrl(env: Env, s: Store, index: Index, mimeType: MimeType)
    : (Result<DataUrl, StoreError>, Store)
  {
    match FindThumbnail(s.thumbnailTable, index)
    case Some(t) =>
      (match Read(s, t.thumbnailIndex)
       case Ok(b) => Ok(DataUrl(mimeType, b))
       case Err(e) => Err(e), s)
    case None =>
      match Read(s, index)
      case Err(e) => (Err(e), s)
      case Ok(image) =>
        var thumbnail := env.reduce(image, mimeType);
        var (thumbnailIndex, s1) := Write(env, s, thumbnail, mimeType, Replace);
        (Ok(DataUrl(mimeType, thumbnail)),
         s1.(thumbnailTable := OrderedSets.Insert(s1.thumbnailTable, Thumbnail(index, thumbnailIndex))))
  }

  /** No two rows of `rows` share an image index. */
  ghost predicate KeysUnique<T>(rows: seq<T>, key: T -> Index) {
    forall i, j :: 0 <= i < j < |rows| ==> key(rows[i]) != key(rows[j])
  }

  /** Every index has at most one row in each table. */
  ghost predicate Unique(s: Store) {
    KeysUnique(s.extensionTable, ExtensionRowIndex) && KeysUnique(s.thumbnailTable, ThumbnailRowIndex)
  }

  /** In a table with unique keys, a row is the only one with its key. */
  lemma OnlyRow<T>(rows: seq<T>, key: T -> Index, t: T)
    requires KeysUnique(rows, key) && t in rows
    ensures forall row :: row in rows && key(row) == key(t) ==> row == t
  {
    forall row | row in rows && key(row) == key(t) ensures row == t {
      var m :| 0 <= m < |rows| && rows[m] == row;
      var k :| 0 <= k < |rows| && rows[k] == t;
      assert m == k;
    }
  }

  /** `t` keeps a subset of the files of `s`, unchanged, and a subset of its
      rows; every extension row it dropped has lost its file as well. */
  ghost predicate Shrunk(s: Store, t: Store) {
    && t.files.Keys <= s.files.Keys
    && (forall p :: p in t.files ==> t.files[p] == s.files[p])
    && (forall row :: row in t.extensionTable ==> row in s.extensionTable)
    && (forall row :: row in t.thumbnailTable ==> row in s.thumbnailTable)
    && (forall row :: row in s.extensionTable && row !in t.extensionTable ==>
          FileName(row.imageIndex, Some(row.extension)) !in t.files)
  }

  lemma ShrunkTransitive(s: Store, t: Store, u: Store)
    requires Shrunk(s, t) && Shrunk(t, u)
    ensures Shrunk(s, u)
  {
  }

  /** Deletion only ever removes: no file is written, no row added, and the
      file of every extension row it drops is gone too. */
  lemma {:induction false} DeleteShrinks(s: Store, index: Index)
    ensures Shrunk(s, Delete(s, index).1)
    decreases |s.thumbnailTable|, 1
  {
    DeleteThumbnailShrinks(s, index);
    var (r, s1) := DeleteThumbnail(s, index);
    if r.Ok? {
      DeleteFileAndExtensionShrinks(s1, index);
      ShrunkTransitive(s, s1, DeleteFileAndExtension(s1, index).1);
    }
  }

  lemma {:induction false} DeleteThumbnailShrinks(s: Store, index: Index)
    ensures Shrunk(s, DeleteThumbnail(s, index).1)
    decreases |s.thumbnailTable|, 0
  {
    match FindThumbnail(s.thumbnailTable, index)
    case None =>
    case Some(t) =>
      var s1 := s.(thumbnailTable := OrderedSets.Remove(s.thumbnailTable, t));
      assert Shrunk(s, s1);
      DeleteShrinks(s1, t.thumbnailIndex);
      ShrunkTransitive(s, s1, Delete(s1, t.thumbnailIndex).1);
  }

  /** With at most one row per index, a successful `delete(index)` leaves no
      extension row and no thumbnail row for `index`, and the file the
      extension row named is gone. */
  lemma DeleteLeavesNoTrace(s: Store, index: Index)
    requires Unique(s)
    requires Delete(s, index).0.Ok?
    ensures FindExtension(Delete(s, index).1.extensionTable, index).None?
    ensures FindThumbnail(Delete(s, index).1.thumbnailTable, index).None?
    ensures ExtensionOf(s, index).Some? ==>
              FileName(index, ExtensionOf(s, index)) !in Delete(s, index).1.files
  {
    DeleteDropsThumbnailRow(s, index);
    DeleteDropsExtensionRow(s, index);
  }

  /** The one thumbnail row of `index` is dropped before the recursion,
      which only removes rows. */
  lemma DeleteDropsThumbnailRow(s: Store, index: Index)
    requires Unique(s)
    ensures FindThumbnail(Delete(s, index).1.thumbnailTable, index).None?
  {
    var s1 := DeleteThumbnail(s, index).1;
    // The final step does not touch the thumbnail table.
    assert Delete(s, index).1.thumbnailTable == s1.thumbnailTable;
    match FindThumbnail(s.thumbnailTable, index)
    case None =>
    case Some(t) =>
      OnlyRow(s.thumbnailTable, ThumbnailRowIndex, t);
      var s0 := s.(thumbnailTable := OrderedSets.Remove(s.thumbnailTable, t));
      assert s1 == Delete(s0, t.thumbnailIndex).1;
      DeleteShrinks(s0, t.thumbnailIndex);
  }

  /** The one extension row of `index` is dropped, with its file: by the
      recursion if it reached `index`, otherwise by the final step. */
  lemma DeleteDropsExtensionRow(s: Store, index: Index)
    requires Unique(s)
    requires Delete(s, index).0.Ok?
    ensures FindExtension(Delete(s, index).1.extensionTable, index).None?
    ensures ExtensionOf(s, index).Some? ==>
              FileName(index, ExtensionOf(s, index)) !in Delete(s, index).1.files
  {
    var s1 := DeleteThumbnail(s, index).1;
    var s2 := Delete(s, index).1;
    DeleteThumbnailShrinks(s, index);
    DeleteShrinks(s, index);
    match FindExtension(s.extensionTable, index)
    case None =>
    case Some(e) =>
      OnlyRow(s.extensionTable, ExtensionRowIndex, e);
      if e in s1.extensionTable {
        assert FindExtension(s1.extensionTable, index) == Some(e);
      }
      assert e !in s2.extensionTable;
      assert FileName(index, ExtensionOf(s, index)) == FileName(e.imageIndex, Some(e.extension));
  }

  /** A successful `delete(index)` cascades to the thumbnail: the
      thumbnail's own blob is gone and no extension row is left for it. */
  lemma DeleteRemovesThumbnailBlob(s: Store, index: Index, t: Thumbnail)
    requires Unique(s)
    requires Delete(s, index).0.Ok?
    requires FindThumbnail(s.thumbnailTable, index) == Some(t)
    ensures FindExtension(Delete(s, index).1.extensionTable, t.thumbnailIndex).None?
    ensures ExtensionOf(s, t.thumbnailIndex).Some? ==>
              FileName(t.thumbnailIndex, ExtensionOf(s, t.thumbnailIndex)) !in Delete(s, index).1.files
  {
    var s0 := s.(thumbnailTable := OrderedSets.Remove(s.thumbnailTable, t));
    RemoveKeepsKeysUnique(s.thumbnailTable, ThumbnailRowIndex, t);
    var s1 := DeleteThumbnail(s, index).1;
    assert s1 == Delete(s0, t.thumbnailIndex).1;
    assert Delete(s0, t.thumbnailIndex).0.Ok?;
    assert ExtensionOf(s0, t.thumbnailIndex) == ExtensionOf(s, t.thumbnailIndex);
    DeleteDropsExtensionRow(s0, t.thumbnailIndex);
    DeleteFileAndExtensionShrinks(s1, index);
  }

  /** The final step of `delete` only removes. */
  lemma DeleteFileAndExtensionShrinks(s: Store, index: Index)
    ensures Shrunk(s, DeleteFileAndExtension(s, index).1)
  {
    var path := PathOf(s, index);
    if path in s.files {
      match FindExtension(s.extensionTable, index)
      case None =>
      case Some(row) =>
        assert FileName(row.imageIndex, Some(row.extension)) == path;
    }
  }

  /** After a successful `delete(index)`, `exists(index)` is false (unless
      a file `index.undefined` was there all along). */
  lemma DeleteThenNotExists(s: Store, index: Index)
    requires Unique(s)
    requires Delete(s, index).0.Ok?
    requires FileName(index, None) !in s.files
    ensures !Exists(Delete(s, index).1, index)
  {
    DeleteDropsExtensionRow(s, index);
    DeleteShrinks(s, index);
  }

  /** Removing rows keeps at most one row per index. */
  lemma {:induction false} RemoveKeepsKeysUnique<T(!new)>(rows: seq<T>, key: T -> Index, x: T)
    requires KeysUnique(rows, key)
    ensures KeysUnique(OrderedSets.Remove(rows, x), key)
    decreases |rows|
  {
    if rows != [] {
      var tail := rows[1..];
      assert forall i, j :: 0 <= i < j < |tail| ==> tail[i] == rows[i + 1] && tail[j] == rows[j + 1];
      RemoveKeepsKeysUnique(tail, key, x);
      if rows[0] != x {
        var rest := OrderedSets.Remove(tail, x);
        var r := [rows[0]] + rest;
        forall y | y in rest ensures key(y) != key(rows[0]) {
          var k :| 0 <= k < |tail| && tail[k] == y;
          assert rows[k + 1] == y;
        }
        forall i, j | 0 <= i < j < |r| ensures key(r[i]) != key(r[j]) {
          assert r[j] == rest[j - 1];
          if i > 0 {
            assert r[i] == rest[i - 1];
          }
        }
      }
    }
  }

  /** `delete` keeps at most one row per index in each table. */
  lemma {:induction false} DeleteKeepsUnique(s: Store, index: Index)
    requires Unique(s)
    ensures Unique(Delete(s, index).1)
    decreases |s.thumbnailTable|, 1
  {
    DeleteThumbnailKeepsUnique(s, index);
    var (r, s1) := DeleteThumbnail(s, index);
    if r.Ok? && PathOf(s1, index) in s1.files {
      match FindExtension(s1.extensionTable, index)
      case None =>
      case Some(row) => RemoveKeepsKeysUnique(s1.extensionTable, ExtensionRowIndex, row);
    }
  }

  lemma {:induction false} DeleteThumbnailKeepsUnique(s: Store, index: Index)
    requires Unique(s)
    ensures Unique(DeleteThumbnail(s, index).1)
    decreases |s.thumbnailTable|, 0
  {
    match FindThumbnail(s.thumbnailTable, index)
    case None =>
    case Some(t) =>
      var s1 := s.(thumbnailTable := OrderedSets.Remove(s.thumbnailTable, t));
      RemoveKeepsKeysUnique(s.thumbnailTable, ThumbnailRowIndex, t);
      DeleteKeepsUnique(s1, t.thumbnailIndex);
  }

  /** A write keeps at most one extension row per index exactly when it
      writes nothing or the index has no extension yet or the same one: a
      write under a second extension appends a second row for the index. */
  lemma WriteKeepsUnique(env: Env, s: Store, base64: string, mimeType: MimeType, strategy: OnWriteExistStrategy)
    requires Unique(s)
    ensures var index := env.sha256(base64);
            Unique(Write(env, s, base64, mimeType, strategy).1)
            <==> (strategy == Ignore && Exists(s, index))
                 || ExtensionOf(s, index) in {None, Some(env.toExtension(mimeType))}
  {
    var index := env.sha256(base64);
    var extension := env.toExtension(mimeType);
    var row := ImageExtension(index, extension);
    var table := s.extensionTable;
    if !(strategy == Ignore && Exists(s, index)) {
      match FindExtension(table, index)
      case None =>
        assert forall k :: 0 <= k < |table| ==> table[k].imageIndex != index;
      case Some(e) =>
        var k :| 0 <= k < |table| && table[k] == e && e.imageIndex == index;
        if e.extension == extension {
          assert row in table;
        } else {
          OnlyRow(table, ExtensionRowIndex, e);
          var t := OrderedSets.Insert(table, row);
          assert t == table + [row] && t[k] == e && t[|table|] == row;
        }
    }
  }

  /** `getThumbnailUrl` keeps at most one row per index in each table,
      provided the thumbnail's own index had no extension yet or the same
      one (the condition under which its REPLACE write keeps one row). */
  lemma GetThumbnailUrlKeepsUnique(env: Env, s: Store, index: Index, mimeType: MimeType)
    requires Unique(s)
    requires Read(s, index).Ok? ==>
               var thumbnailIndex := env.sha256(env.reduce(Read(s, index).value, mimeType));
               ExtensionOf(s, thumbnailIndex) in {None, Some(env.toExtension(mimeType))}
    ensures Unique(GetThumbnailUrl(env, s, index, mimeType).1)
  {
    if FindThumbnail(s.thumbnailTable, index).None? && Read(s, index).Ok? {
      var thumbnail := env.reduce(Read(s, index).value, mimeType);
      WriteKeepsUnique(env, s, thumbnail, mimeType, Replace);
      var s1 := Write(env, s, thumbnail, mimeType, Replace).1;
      var table := s1.thumbnailTable;
      assert forall k :: 0 <= k < |table| ==> table[k].imageIndex != index;
    }
  }

  /** Two REPLACE writes of the same bytes under two MIME types with
      different extensions leave two extension rows for one index; a
      `delete` of that index then succeeds, yet the second blob survives
      and `exists` still reports the index. */
  lemma TwoExtensionsSurviveDelete(env: Env, base64: string, first: MimeType, second: MimeType)
    requires env.toExtension(first) != env.toExtension(second)
    ensures var index := env.sha256(base64);
            var s1 := Write(env, Store(map[], [], []), base64, first, Replace).1;
            var s2 := Write(env, s1, base64, second, Replace).1;
            && !Unique(s2)
            && Delete(s2, index).0 == Ok(index)
            && Exists(Delete(s2, index).1, index)
  {
    var index := env.sha256(base64);
    var e1 := env.toExtension(first);
    var e2 := env.toExtension(second);
    var s1 := Write(env, Store(map[], [], []), base64, first, Replace).1;
    var s2 := Write(env, s1, base64, second, Replace).1;
    assert s1.extensionTable == [ImageExtension(index, e1)];
    assert ImageExtension(index, e2) !in s1.extensionTable;
    assert s2.extensionTable == [ImageExtension(index, e1), ImageExtension(index, e2)];
    assert FileName(index, Some(e1))[|index| + 1..] == e1;
    assert FileName(index, Some(e2))[|index| + 1..] == e2;
    assert s2.files == map[FileName(index, Some(e1)) := base64, FileName(index, Some(e2)) := base64];
    assert DeleteThumbnail(s2, index) == (Ok(index), s2);
    assert ExtensionOf(s2, index) == Some(e1);
    var r1, r2 := ImageExtension(index, e1), ImageExtension(index, e2);
    assert [r1, r2][1..] == [r2];
    assert OrderedSets.Remove([r1, r2], r1) == [r2];
    var s3 := Delete(s2, index).1;
    assert s3.extensionTable == [ImageExtension(index, e2)];
    assert s3.files == map[FileName(index, Some(e2)) := base64];
  }

  /** With no rows for `index` and no file `index.undefined`, `delete`
      fails with the plugin's not-found error and changes nothing. */
  lemma DeleteUnknownFails(s: Store, index: Index)
    requires FindExtension(s.extensionTable, index).None?
    requires FindThumbnail(s.thumbnailTable, index).None?
    requires FileName(index, None) !in s.files
    ensures Delete(s, index) == (Err(FileNotFound(FileName(index, None))), s)
  {
  }

  /** `_write` keeps the first extension recorded for an index: only an
      index without a row gets the new extension, no other index changes. */
  lemma FirstExtensionWins(s: Store, index: Index, base64: string, extension: string, other: Index)
    ensures ExtensionOf(WriteEntry(s, index, base64, extension), other)
         == if other == index && ExtensionOf(s, index).None? then Some(extension)
            else ExtensionOf(s, other)
  {
    var row := ImageExtension(index, extension);
    if row !in s.extensionTable {
      FindAppend(s.extensionTable, row, ExtensionRowIndex, other);
    } else if other == index {
      assert FindExtension(s.extensionTable, index).Some? by {
        var k :| 0 <= k < |s.extensionTable| && s.extensionTable[k] == row;
      }
    }
  }

  /** `write` returns the content hash; with IGNORE and an existing blob it
      changes nothing; and reading the index back yields the written bytes
      whenever the index had no extension or the same one. A REPLACE under
      a different extension is invisible to `read`, which keeps using the
      first recorded extension. */
  lemma WriteThenRead(env: Env, s: Store, base64: string, mimeType: MimeType, strategy: OnWriteExistStrategy)
    ensures Write(env, s, base64, mimeType, strategy).0 == env.sha256(base64)
    ensures strategy == Ignore && Exists(s, env.sha256(base64)) ==>
              Write(env, s, base64, mimeType, strategy).1 == s
    ensures (strategy == Replace || !Exists(s, env.sha256(base64))) &&
            ExtensionOf(s, env.sha256(base64)) in {None, Some(env.toExtension(mimeType))} ==>
              Read(Write(env, s, base64, mimeType, strategy).1, env.sha256(base64)) == Ok(base64)
    ensures ExtensionOf(s, env.sha256(base64)).Some? &&
            ExtensionOf(s, env.sha256(base64)) != Some(env.toExtension(mimeType)) ==>
              Read(Write(env, s, base64, mimeType, strategy).1, env.sha256(base64))
              == Read(s, env.sha256(base64))
  {
    var index := env.sha256(base64);
    var extension := env.toExtension(mimeType);
    FirstExtensionWins(s, index, base64, extension, index);
    if ExtensionOf(s, index).Some? && ExtensionOf(s, index) != Some(extension) {
      var e := ExtensionOf(s, index).value;
      assert PathOf(s, index)[|index| + 1..] == e;
      assert FileName(index, Some(extension))[|index| + 1..] == extension;
    }
  }

  /** Writing the same bytes twice with IGNORE returns the same index and
      leaves the recorded extension as the first write left it. */
  lemma WriteIgnoreTwice(env: Env, s: Store, base64: string, first: MimeType, second: MimeType)
    ensures var (i1, s1) := Write(env, s, base64, first, Ignore);
            var (i2, s2) := Write(env, s1, base64, second, Ignore);
            i1 == i2 && ExtensionOf(s2, i2) == ExtensionOf(s1, i1)
  {
    var index := env.sha256(base64);
    var s1 := Write(env, s, base64, first, Ignore).1;
    if !Exists(s, index) {
      FirstExtensionWins(s, index, base64, env.toExtension(first), index);
    }
    if !Exists(s1, index) {
      FirstExtensionWins(s1, index, base64, env.toExtension(second), index);
    }
  }

  /** Writing the same bytes twice with REPLACE leaves the store as one
      write does: a single blob and a single row for the index. */
  lemma WriteReplaceTwice(env: Env, s: Store, base64: string, mimeType: MimeType)
    ensures var s1 := Write(env, s, base64, mimeType, Replace).1;
            Write(env, s1, base64, mimeType, Replace).1 == s1
  {
  }

  /** What the store relies on from SHA-256 and the MIME table: distinct
      contents get distinct digests (collision resistance, idealised), a
      digest is hexadecimal and so has no '.', and neither has an extension. */
  ghost predicate ContentHashing(env: Env) {
    && (forall a, b :: env.sha256(a) == env.sha256(b) ==> a == b)
    && (forall a :: '.' !in env.sha256(a))
    && (forall m :: '.' !in env.toExtension(m))
  }

  /** The part of a file name before its first '.'. */
  function Stem(name: string): (r: string)
    ensures '.' !in r
    ensures r <= name
  {
    if name == [] || name[0] == '.' then [] else [name[0]] + Stem(name[1..])
  }

  /** The stem of `index.extension` is the index, when the index has no '.'. */
  lemma {:induction false} StemOfFileName(index: Index, extension: Option<string>)
    requires '.' !in index
    ensures Stem(FileName(index, extension)) == index
  {
    var x := if extension.Some? then extension.value else "undefined";
    if index != [] {
      assert FileName(index, extension)[1..] == FileName(index[1..], extension);
      StemOfFileName(index[1..], extension);
      assert index == [index[0]] + index[1..];
    }
  }

  /** A name with exactly one '.' splits one way only. */
  lemma SplitAtOnlyDot(i: string, e: string, j: string, f: string)
    requires '.' !in i && '.' !in e
    ensures i + "." + e == j + "." + f ==> j == i && f == e
  {
    var n := i + "." + e;
    if n == j + "." + f {
      assert forall k :: 0 <= k < |i| ==> n[k] == i[k];
      assert forall k :: |i| < k < |n| ==> n[k] == e[k - |i| - 1];
      assert n[|j|] == '.';
      assert j == n[..|j|] && i == n[..|i|];
      assert f == n[|j| + 1..] && e == n[|i| + 1..];
    }
  }

  /** Every file holds content whose digest is the file's stem: what
      `write` guarantees by naming each blob after its hash. */
  ghost predicate ContentAddressed(env: Env, s: Store) {
    forall name :: name in s.files ==> env.sha256(s.files[name]) == Stem(name)
  }

  /** Every extension row names a file that is present, and neither its
      index nor its extension has a '.'. */
  ghost predicate RowsHaveFiles(s: Store) {
    forall row :: row in s.extensionTable ==>
      && '.' !in row.imageIndex && '.' !in row.extension
      && FileName(row.imageIndex, Some(row.extension)) in s.files
  }

  ghost predicate Consistent(env: Env, s: Store) {
    ContentAddressed(env, s) && RowsHaveFiles(s)
  }

  /** The store `clear` leaves, and the one a first run starts from. */
  lemma EmptyStoreConsistent(env: Env)
    ensures Consistent(env, Store(map[], [], []))
  {
  }

  /** In a content-addressed store, whatever `read(index)` returns hashes
      to `index`. */
  lemma ReadHashesToIndex(env: Env, s: Store, index: Index)
    requires ContentAddressed(env, s) && '.' !in index
    ensures Read(s, index).Ok? ==> env.sha256(Read(s, index).value) == index
  {
    StemOfFileName(index, ExtensionOf(s, index));
  }

  /** `write` keeps the store consistent. */
  lemma WriteKeepsConsistent(env: Env, s: Store, base64: string, mimeType: MimeType, strategy: OnWriteExistStrategy)
    requires ContentHashing(env) && Consistent(env, s)
    ensures Consistent(env, Write(env, s, base64, mimeType, strategy).1)
  {
    var index := env.sha256(base64);
    StemOfFileName(index, Some(env.toExtension(mimeType)));
  }

  /** Reading back what was written yields the written bytes, for either
      strategy and whatever extension the index already had: an IGNORE hit
      and a REPLACE under another extension both address a blob whose
      content hashes to the same index, so it holds the same bytes. */
  lemma WriteThenReadAlways(env: Env, s: Store, base64: string, mimeType: MimeType, strategy: OnWriteExistStrategy)
    requires ContentHashing(env) && Consistent(env, s)
    ensures Read(Write(env, s, base64, mimeType, strategy).1, env.sha256(base64)) == Ok(base64)
  {
    var index := env.sha256(base64);
    var extension := env.toExtension(mimeType);
    var s1 := Write(env, s, base64, mimeType, strategy).1;
    WriteKeepsConsistent(env, s, base64, mimeType, strategy);
    if !(strategy == Ignore && Exists(s, index)) {
      FirstExtensionWins(s, index, base64, extension, index);
      match FindExtension(s1.extensionTable, index)
      case None =>
      case Some(row) =>
        assert row in s1.extensionTable;
        assert PathOf(s1, index) == FileName(row.imageIndex, Some(row.extension));
    }
    assert Read(s1, index).Ok?;
    ReadHashesToIndex(env, s1, index);
  }

  /** The final step of `delete` keeps every surviving row's file: the one
      file it removes belongs to the row it drops, or to no row at all. */
  lemma DeleteFileAndExtensionKeepsRows(s: Store, index: Index)
    requires RowsHaveFiles(s)
    ensures RowsHaveFiles(DeleteFileAndExtension(s, index).1)
  {
    var path := PathOf(s, index);
    if path in s.files {
      var t := DeleteFileAndExtension(s, index).1;
      forall r | r in t.extensionTable
        ensures FileName(r.imageIndex, Some(r.extension)) in t.files
      {
        assert r in s.extensionTable;
        match FindExtension(s.extensionTable, index)
        case None =>
          var k :| 0 <= k < |s.extensionTable| && s.extensionTable[k] == r;
          SplitAtOnlyDot(r.imageIndex, r.extension, index, "undefined");
        case Some(row) =>
          SplitAtOnlyDot(r.imageIndex, r.extension, index, row.extension);
      }
    }
  }

  /** `delete`, cascade included, keeps the store consistent. */
  lemma {:induction false} DeleteKeepsConsistent(env: Env, s: Store, index: Index)
    requires Consistent(env, s)
    ensures Consistent(env, Delete(s, index).1)
    decreases |s.thumbnailTable|, 1
  {
    DeleteThumbnailKeepsConsistent(env, s, index);
    var (r, s1) := DeleteThumbnail(s, index);
    if r.Ok? {
      DeleteFileAndExtensionKeepsRows(s1, index);
      DeleteFileAndExtensionShrinks(s1, index);
    }
  }

  lemma {:induction false} DeleteThumbnailKeepsConsistent(env: Env, s: Store, index: Index)
    requires Consistent(env, s)
    ensures Consistent(env, DeleteThumbnail(s, index).1)
    decreases |s.thumbnailTable|, 0
  {
    match FindThumbnail(s.thumbnailTable, index)
    case None =>
    case Some(t) =>
      var s1 := s.(thumbnailTable := OrderedSets.Remove(s.thumbnailTable, t));
      DeleteKeepsConsistent(env, s1, t.thumbnailIndex);
  }

  /** `getThumbnailUrl` keeps the store consistent. */
  lemma GetThumbnailUrlKeepsConsistent(env: Env, s: Store, index: Index, mimeType: MimeType)
    requires ContentHashing(env) && Consistent(env, s)
    ensures Consistent(env, GetThumbnailUrl(env, s, index, mimeType).1)
  {
    if FindThumbnail(s.thumbnailTable, index).None? && Read(s, index).Ok? {
      WriteKeepsConsistent(env, s, env.reduce(Read(s, index).value, mimeType), mimeType, Replace);
    }
  }

  /** The thumbnail is generated only once: after a successful first call
      for an index without a thumbnail row, a row exists, and a second call
      returns the same data URL from the cached blob and changes nothing. */
  lemma ThumbnailGeneratedOnce(env: Env, s: Store, index: Index, mimeType: MimeType)
    requires ContentHashing(env) && Consistent(env, s)
    requires FindThumbnail(s.thumbnailTable, index).None?
    requires GetThumbnailUrl(env, s, index, mimeType).0.Ok?
    ensures var (url, s1) := GetThumbnailUrl(env, s, index, mimeType);
            && FindThumbnail(s1.thumbnailTable, index).Some?
            && GetThumbnailUrl(env, s1, index, mimeType) == (url, s1)
  {
    var image := Read(s, index).value;
    var thumbnail := env.reduce(image, mimeType);
    var (thumbnailIndex, s1) := Write(env, s, thumbnail, mimeType, Replace);
    WriteThenReadAlways(env, s, thumbnail, mimeType, Replace);
    var row := Thumbnail(index, thumbnailIndex);
    assert forall r :: r in s1.thumbnailTable ==> r.imageIndex != index;
    FindAppend(s1.thumbnailTable, row, ThumbnailRowIndex, index);
  }
}
