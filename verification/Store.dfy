/** Tables on disk: schemas, fragments, manifests, and the object store that holds them. */
module Store {
  import opened Common
  import opened ByteOrder
  import opened Columns

  datatype Field = Field(id: int, name: string, dataType: DataType, dimension: int)

  datatype Schema = Schema(fields: seq<Field>)

  /** Paths are injective in what they name. */
  datatype Path =
    | ManifestPath(version: int)
    | LatestPath
    | DataPath(fragmentId: int, columnId: int)

  datatype DataFile = DataFile(path: Path, columnId: int, numRows: nat, fileSize: nat)

  datatype Fragment = Fragment(id: int, numRows: nat, dataFiles: seq<DataFile>, physicalRows: nat)

  datatype Manifest = Manifest(version: int, schema: Schema, fragments: seq<Fragment>, maxFragmentId: int)

  /** The contents of a file; manifests and version numbers stand for their serialised form. */
  datatype Content =
    | ManifestContent(manifest: Manifest)
    | VersionContent(version: int)
    | DataContent(bytes: seq<Byte>)

  type Files = map<Path, Content>

  /** after differs from before at most at the given paths. */
  ghost predicate ChangedOnly(before: Files, after: Files, paths: set<Path>) {
    forall p :: p !in paths ==> (p in before <==> p in after) && (p in before ==> before[p] == after[p])
  }

  lemma ChangedMore(before: Files, middle: Files, after: Files, paths: set<Path>, more: set<Path>)
    requires ChangedOnly(before, middle, paths) && ChangedOnly(middle, after, more) && more <= paths
    ensures ChangedOnly(before, after, paths)
  {
  }

  /** The first field with the given ID. */
  function FieldByID(s: Schema, id: int): (r: Option<Field>)
    ensures r.Some? ==> r.value in s.fields && r.value.id == id
    ensures r.None? ==> forall f <- s.fields :: f.id != id
  {
    FindByID(s.fields, id)
  }

  function FindByID(fields: seq<Field>, id: int): (r: Option<Field>)
    ensures r.Some? ==> r.value in fields && r.value.id == id
    ensures r.None? ==> forall f <- fields :: f.id != id
  {
    if fields == [] then None else if fields[0].id == id then Some(fields[0]) else FindByID(fields[1..], id)
  }

  /** The first field with the given name. */
  function FieldByName(s: Schema, name: string): (r: Option<Field>)
    ensures r.Some? ==> r.value in s.fields && r.value.name == name
    ensures r.None? ==> forall f <- s.fields :: f.name != name
  {
    FindByName(s.fields, name)
  }

  function FindByName(fields: seq<Field>, name: string): (r: Option<Field>)
    ensures r.Some? ==> r.value in fields && r.value.name == name
    ensures r.None? ==> forall f <- fields :: f.name != name
  {
    if fields == [] then None else if fields[0].name == name then Some(fields[0]) else FindByName(fields[1..], name)
  }

  /** A storage backend. Any write may fail: a failed write of a manifest or of the latest
      pointer leaves no trace, a failed data write may leave anything at its own path. */
  class ObjectStore {
    var files: Files

    constructor ()
      ensures files == map[]
    {
      files := map[];
    }

    method Write(path: Path, content: Content) returns (ok: bool)
      modifies this
      ensures ok ==> files == old(files)[path := content]
      ensures !ok && !path.DataPath? ==> files == old(files)
      ensures ChangedOnly(old(files), files, {path})
    {
      if * {
        files := files[path := content];
        return true;
      } else if path.DataPath? {
        var damaged: Content := *;
        if * {
          files := files[path := damaged];
        }
      }
      return false;
    }

    /** The size of a data file; asking may fail. */
    method Size(path: Path) returns (r: Option<nat>)
      ensures r.Some? ==> path in files && files[path].DataContent? && r.value == |files[path].bytes|
    {
      if path in files && files[path].DataContent? {
        if * {
          return Some(|files[path].bytes|);
        }
      }
      return None;
    }
  }
}
