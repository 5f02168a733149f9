/** The content-addressed image store: a root directory of blobs named
    `<index>.<extension>`, an extension table and a thumbnail table, and a
    one-shot flag that guards the creation of the root directory. Each
    public operation is one atomic step; the mutex that serialises them in
    the program is therefore not modelled. */
module ImageStoreService {
  import opened Wrappers
  import OrderedSets
  import opened ImageStoreSpec

  class ImageStore {
    const env: Env
    /** Set once the root directory is known to exist. */
    var hasInitialized: bool
    /** Whether the `ImageStore` directory exists in the data directory. */
    var rootDirExists: bool
    /** The files of the root directory: name to base64 content. */
    var files: map<string, string>
    var extensionTable: seq<ImageExtension>
    var thumbnailTable: seq<Thumbnail>

    ghost predicate Valid()
      reads this
    {
      && (hasInitialized ==> rootDirExists)
      && (!rootDirExists ==> files == map[])
    }

    /** The persisted state as a value of the specification. */
    function Contents(): Store
      reads this
    {
      Store(files, extensionTable, thumbnailTable)
    }

    /** Opens a store over what earlier runs persisted. */
    constructor (env: Env, persisted: Store, rootDirExists: bool)
      requires !rootDirExists ==> persisted.files == map[]
      ensures Valid() && this.env == env && !hasInitialized
      ensures Contents() == persisted && this.rootDirExists == rootDirExists
    {
      this.env := env;
      hasInitialized := false;
      this.rootDirExists := rootDirExists;
      files := persisted.files;
      extensionTable := persisted.extensionTable;
      thumbnailTable := persisted.thumbnailTable;
    }

    /** `initialize`: creates the root directory at most once, and only when
        it is missing; `madeRootDir` tells whether `mkdir` was issued. */
    method Initialize() returns (madeRootDir: bool)
      requires Valid()
      modifies this`hasInitialized, this`rootDirExists
      ensures Valid() && hasInitialized && rootDirExists
      ensures madeRootDir <==> !old(hasInitialized) && !old(rootDirExists)
      ensures old(hasInitialized) ==> rootDirExists == old(rootDirExists)
    {
      madeRootDir := false;
      if hasInitialized {
        return;
      }
      if !rootDirExists {
        rootDirExists := true;
        madeRootDir := true;
      }
      hasInitialized := true;
    }

    /** `read(index)`. */
    method Read(index: Index) returns (r: Result<string, StoreError>)
      requires Valid()
      modifies this`hasInitialized, this`rootDirExists
      ensures Valid() && hasInitialized && rootDirExists && Contents() == old(Contents())
      ensures r == ImageStoreSpec.Read(Contents(), index)
    {
      var _ := Initialize();
      var extension := ExtensionOf(Contents(), index);
      var path := FileName(index, extension);
      if path in files {
        r := Ok(files[path]);
      } else {
        r := Err(FileNotFound(path));
      }
    }

    /** `setImageExtension`: inserts the row with IGNORE and returns the
        row that was passed in. */
    method SetImageExtension(index: Index, mimeType: MimeType) returns (row: ImageExtension)
      modifies this`extensionTable
      ensures row == ImageExtension(index, env.toExtension(mimeType))
      ensures extensionTable == OrderedSets.Insert(old(extensionTable), row)
    {
      row := ImageExtension(index, env.toExtension(mimeType));
      extensionTable := OrderedSets.Insert(extensionTable, row);
    }

    /** `deleteImageExtension`: a no-op returning `index` when no row exists. */
    method DeleteImageExtension(index: Index) returns (r: Index)
      modifies this`extensionTable
      ensures r == index
      ensures extensionTable == ImageStoreSpec.DeleteImageExtension(old(extensionTable), index)
      ensures FindExtension(old(extensionTable), index).None? ==> extensionTable == old(extensionTable)
    {
      var row := FindExtension(extensionTable, index);
      if row.None? {
        return index;
      }
      extensionTable := OrderedSets.Remove(extensionTable, row.value);
      r := index;
    }

    /** `_write`: records the extension, then writes the blob. */
    method WriteEntry(index: Index, base64: string, mimeType: MimeType) returns (r: Index)
      requires Valid()
      modifies this
      ensures Valid() && hasInitialized && rootDirExists
      ensures r == index
      ensures Contents() == ImageStoreSpec.WriteEntry(old(Contents()), index, base64, env.toExtension(mimeType))
    {
      var _ := Initialize();
      var row := SetImageExtension(index, mimeType);
      files := files[FileName(index, Some(row.extension)) := base64];
      r := index;
    }

    /** `exists(index)`: the listing of the root directory holds the file
        named after the first recorded extension of `index`. */
    method Exists(index: Index) returns (b: bool)
      requires Valid()
      modifies this`hasInitialized, this`rootDirExists
      ensures Valid() && hasInitialized && rootDirExists && Contents() == old(Contents())
      ensures b <==> FileName(index, ExtensionOf(Contents(), index)) in files
    {
      var _ := Initialize();
      var listing := files.Keys;
      var extension := ExtensionOf(Contents(), index);
      b := FileName(index, extension) in listing;
    }

    /** `write(base64, mimeType, strategy)`: always returns the content
        hash; with IGNORE an existing blob is left untouched. */
    method Write(base64: string, mimeType: MimeType, strategy: OnWriteExistStrategy) returns (index: Index)
      requires Valid()
      modifies this
      ensures Valid() && hasInitialized && rootDirExists
      ensures index == env.sha256(base64)
      ensures (index, Contents()) == ImageStoreSpec.Write(env, old(Contents()), base64, mimeType, strategy)
      ensures strategy == Ignore && ImageStoreSpec.Exists(old(Contents()), index) ==>
                Contents() == old(Contents())
    {
      index := env.sha256(base64);
      var _ := Initialize();
      if strategy == Replace {
        index := WriteEntry(index, base64, mimeType);
        return;
      }
      var present := Exists(index);
      if present {
        return;
      }
      index := WriteEntry(index, base64, mimeType);
    }

    /** `delete(index)`: deletes the thumbnail first, then the blob and its
        extension row. */
    method Delete(index: Index) returns (r: Result<Index, StoreError>)
      requires Valid()
      modifies this
      ensures Valid() && hasInitialized && rootDirExists
      ensures (r, Contents()) == ImageStoreSpec.Delete(old(Contents()), index)
      decreases |thumbnailTable|, 1
    {
      var _ := Initialize();
      var t := DeleteThumbnail(index);
      if t.Err? {
        return t;
      }
      var extension := ExtensionOf(Contents(), index);
      var path := FileName(index, extension);
      if path !in files {
        return Err(FileNotFound(path));
      }
      files := files - {path};
      var _ := DeleteImageExtension(index);
      r := Ok(index);
    }

    /** `deleteThumbnail(index)`: a no-op returning `index` when no
        thumbnail row exists; otherwise drops the row and deletes the
        thumbnail's blob. */
    method DeleteThumbnail(index: Index) returns (r: Result<Index, StoreError>)
      requires Valid()
      modifies this
      ensures Valid()
      ensures (r, Contents()) == ImageStoreSpec.DeleteThumbnail(old(Contents()), index)
      ensures FindThumbnail(old(thumbnailTable), index).None? ==>
                && r == Ok(index) && Contents() == old(Contents())
                && hasInitialized == old(hasInitialized) && rootDirExists == old(rootDirExists)
      ensures FindThumbnail(old(thumbnailTable), index).Some? ==> hasInitialized && rootDirExists
      decreases |thumbnailTable|, 0
    {
      var thumbnail := FindThumbnail(thumbnailTable, index);
      if thumbnail.None? {
        return Ok(index);
      }
      thumbnailTable := OrderedSets.Remove(thumbnailTable, thumbnail.value);
      var d := Delete(thumbnail.value.thumbnailIndex);
      if d.Err? {
        return d;
      }
      r := Ok(index);
    }

    /** `storeThumbnail`: writes the thumbnail blob (REPLACE), then records
        the thumbnail row with IGNORE. */
    method StoreThumbnail(index: Index, thumbnailBase64: string, mimeType: MimeType) returns (r: string)
      requires Valid()
      modifies this
      ensures Valid() && hasInitialized && rootDirExists
      ensures r == thumbnailBase64
      ensures var (thumbnailIndex, s1) := ImageStoreSpec.Write(env, old(Contents()), thumbnailBase64, mimeType, Replace);
              Contents() == s1.(thumbnailTable := OrderedSets.Insert(s1.thumbnailTable, Thumbnail(index, thumbnailIndex)))
    {
      var thumbnailIndex := Write(thumbnailBase64, mimeType, Replace);
      thumbnailTable := OrderedSets.Insert(thumbnailTable, Thumbnail(index, thumbnailIndex));
      r := thumbnailBase64;
    }

    /** `makeThumbnail`: downscales the stored image. */
    method MakeThumbnail(index: Index, mimeType: MimeType) returns (r: Result<string, StoreError>)
      requires Valid()
      modifies this`hasInitialized, this`rootDirExists
      ensures Valid() && hasInitialized && rootDirExists && Contents() == old(Contents())
      ensures r == match ImageStoreSpec.Read(Contents(), index)
                   case Ok(image) => Ok(env.reduce(image, mimeType))
                   case Err(e) => Err(e)
    {
      var image := Read(index);
      if image.Err? {
        return Err(image.error);
      }
      r := Ok(env.reduce(image.value, mimeType));
    }

    /** `setThumbnail`: makes and stores a thumbnail, returning its base64. */
    method SetThumbnail(index: Index, mimeType: MimeType) returns (r: Result<string, StoreError>)
      requires Valid()
      modifies this
      ensures Valid() && hasInitialized && rootDirExists
      ensures ImageStoreSpec.Read(old(Contents()), index).Err? ==>
                r == Err(ImageStoreSpec.Read(old(Contents()), index).error) && Contents() == old(Contents())
      ensures ImageStoreSpec.Read(old(Contents()), index).Ok? ==>
                var thumbnail := env.reduce(ImageStoreSpec.Read(old(Contents()), index).value, mimeType);
                var (thumbnailIndex, s1) := ImageStoreSpec.Write(env, old(Contents()), thumbnail, mimeType, Replace);
                && r == Ok(thumbnail)
                && Contents() == s1.(thumbnailTable := OrderedSets.Insert(s1.thumbnailTable, Thumbnail(index, thumbnailIndex)))
    {
      var thumbnail := MakeThumbnail(index, mimeType);
      if thumbnail.Err? {
        return thumbnail;
      }
      var stored := StoreThumbnail(index, thumbnail.value, mimeType);
      r := Ok(stored);
    }

    /** `getThumbnailUrl(index, mimeType)`: reads the cached thumbnail when a
        row exists, and only otherwise makes a new one. */
    method GetThumbnailUrl(index: Index, mimeType: MimeType) returns (r: Result<DataUrl, StoreError>)
      requires Valid()
      modifies this
      ensures Valid() && hasInitialized && rootDirExists
      ensures (r, Contents()) == ImageStoreSpec.GetThumbnailUrl(env, old(Contents()), index, mimeType)
      ensures FindThumbnail(old(thumbnailTable), index).Some? ==> Contents() == old(Contents())
    {
      var thumbnail := FindThumbnail(thumbnailTable, index);
      if thumbnail.Some? {
        var data := Read(thumbnail.value.thumbnailIndex);
        r := if data.Ok? then Ok(DataUrl(mimeType, data.value)) else Err(data.error);
        return;
      }
      var made := SetThumbnail(index, mimeType);
      r := if made.Ok? then Ok(DataUrl(mimeType, made.value)) else Err(made.error);
    }

    /** `clear`: empties both tables, resets the flag and removes the root
        directory with everything in it. */
    method Clear()
      requires Valid()
      modifies this
      ensures Valid()
      ensures Contents() == Store(map[], [], [])
      ensures !hasInitialized && !rootDirExists
    {
      var _ := Initialize();
      extensionTable := [];
      thumbnailTable := [];
      hasInitialized := false;
      rootDirExists := false;
      files := map[];
    }

    /** `drop`: `clear`, then the tables themselves are dropped, which in
        this model leaves them as empty as `clear` does. */
    method Drop()
      requires Valid()
      modifies this
      ensures Valid()
      ensures Contents() == Store(map[], [], [])
      ensures !hasInitialized && !rootDirExists
    {
      Clear();
      extensionTable := [];
      thumbnailTable := [];
    }
  }
}
