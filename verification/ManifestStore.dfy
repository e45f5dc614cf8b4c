/** Manifest files: one per version, and compare-and-swap commits over a latest pointer. */
module ManifestStore {
  import opened Common
  import opened Store
  import opened Versions

  /** The versions that have a manifest file. */
  function VersionsOf(files: Files): (r: set<int>)
    ensures forall v :: v in r <==> ManifestPath(v) in files
  {
    set p <- files.Keys | p.ManifestPath? :: p.version
  }

  function ReadManifest(files: Files, version: int): Option<Manifest> {
    if ManifestPath(version) in files && files[ManifestPath(version)].ManifestContent?
    then Some(files[ManifestPath(version)].manifest)
    else None
  }

  /** The number in the latest pointer; 0 without one. */
  function LatestPointer(files: Files): Option<int> {
    if LatestPath !in files then Some(0)
    else if files[LatestPath].VersionContent? then Some(files[LatestPath].version)
    else None
  }

  datatype CommitResult = Committed | Conflict | ManifestFailed | PointerFailed | PointerUnreadable

  /** The store after each way a commit can end. */
  ghost predicate CommitEffect(before: Files, after: Files, m: Manifest, expected: int, r: CommitResult) {
    var written := before[ManifestPath(m.version) := ManifestContent(m)];
    match r
    case PointerUnreadable => LatestPointer(before).None? && after == before
    case Conflict => LatestPointer(before).Some? && LatestPointer(before).value != expected && after == before
    case ManifestFailed => LatestPointer(before) == Some(expected) && after == before
    case PointerFailed => LatestPointer(before) == Some(expected) && after == written
    case Committed =>
      LatestPointer(before) == Some(expected) && after == written[LatestPath := VersionContent(m.version)]
  }

  class ManifestStore {
    const store: ObjectStore

    constructor (store: ObjectStore)
      ensures this.store == store
    {
      this.store := store;
    }

    method Write(m: Manifest) returns (ok: bool)
      modifies store
      ensures store.files ==
              if ok then old(store.files)[ManifestPath(m.version) := ManifestContent(m)] else old(store.files)
    {
      ok := store.Write(ManifestPath(m.version), ManifestContent(m));
    }

    method Read(version: int) returns (r: Option<Manifest>)
      ensures r == ReadManifest(store.files, version)
    {
      r := ReadManifest(store.files, version);
    }

    /** All versions on disk, ascending. */
    method ListVersions() returns (versions: seq<int>)
      ensures Lists(versions, VersionsOf(store.files))
    {
      versions := SortedVersions(VersionsOf(store.files));
    }

    method LatestVersion() returns (r: Option<int>)
      ensures r == if VersionsOf(store.files) == {} then None else Some(Newest(VersionsOf(store.files)))
    {
      var versions := ListVersions();
      ListsExtremes(versions, VersionsOf(store.files));
      if |versions| == 0 {
        return None;
      }
      return Some(versions[|versions| - 1]);
    }

    /** The version the pointer holds: 0 before the first commit, none if it is no number. */
    method ReadLatest() returns (r: Option<int>)
      ensures LatestPath !in store.files ==> r == Some(0)
      ensures r.None? <==> LatestPath in store.files && !store.files[LatestPath].VersionContent?
      ensures r == LatestPointer(store.files)
      ensures forall v :: LatestPath in store.files && store.files[LatestPath] == VersionContent(v) ==> r == Some(v)
    {
      if LatestPath !in store.files {
        return Some(0);
      }
      match store.files[LatestPath]
      case VersionContent(version) => return Some(version);
      case _ => return None;
    }

    method Commit(m: Manifest, expected: int) returns (r: CommitResult)
      modifies store
      ensures CommitEffect(old(store.files), store.files, m, expected, r)
    {
      var current := ReadLatest();
      if current.None? {
        return PointerUnreadable;
      }
      if current.value != expected {
        return Conflict;
      }
      var written := Write(m);
      if !written {
        return ManifestFailed;
      }
      var moved := store.Write(LatestPath, VersionContent(m.version));
      if !moved {
        return PointerFailed;
      }
      return Committed;
    }
  }
}
