/** The proof repository: one JSON file per proof under `proof/`, named
    after the proof's hash, raw media files under `raw/`, and an in-memory
    cache of the parsed proofs that only a full re-read of `proof/` ever
    replaces. Each operation returns what the first subscription to its
    observable yields. JSON serialisation is taken to be lossless, so a
    proof file holds the proof itself. */
module ProofRepositorySpec {
  import opened Wrappers

  datatype MimeType = MimeType(name: string, extension: string)

  datatype Proof = Proof(hash: string, mimeType: MimeType, timestamp: int)

  datatype RepositoryError =
    | FileDoesNotExist(path: string)  // the filesystem plugin rejects a missing path
    | UndefinedProof                  // `proof.hash` read on `undefined`

  /** One subscription to an observable: it emits a value, completes
      without emitting (as `forkJoin([])` does), or errors. */
  datatype Observed<+T> = Emits(value: T) | Completes | Fails(error: RepositoryError)

  /** The argument of `getRawFile$`: a proof, or the hash of one. */
  datatype ProofOrHash = AProof(proof: Proof) | AHash(hash: string)

  const ProofFolderName := "proof"
  const RawFileFolderName := "raw"

  function ProofFileName(hash: string): string { hash + ".json" }
  function ProofPath(hash: string): string { ProofFolderName + "/" + ProofFileName(hash) }
  function RawFileName(hash: string, extension: string): string { hash + "." + extension }
  function RawPath(hash: string, extension: string): string {
    RawFileFolderName + "/" + RawFileName(hash, extension)
  }

  /** The repository's state: the `proof/` folder (file name to proof), the
      `raw/` folder (file name to base64), and the cache `proofList$`. */
  datatype Repo = Repo(proofFiles: map<string, Proof>, rawFiles: map<string, string>, cache: set<Proof>)

  /** Every proof file is named after the hash of the proof it holds. */
  ghost predicate WellNamed(files: map<string, Proof>) {
    forall name :: name in files ==> name == ProofFileName(files[name].hash)
  }

  ghost predicate HashesUnique(proofs: set<Proof>) {
    forall p, q :: p in proofs && q in proofs && p.hash == q.hash ==> p == q
  }

  /** The cache holds exactly the proofs of the `proof/` folder. */
  ghost predicate CacheMirrorsFolder(r: Repo) {
    r.cache == r.proofFiles.Values
  }

  function NamesOf(proofs: seq<Proof>): set<string> {
    set p | p in proofs :: ProofFileName(p.hash)
  }

  lemma ProofFileNameInjective(h1: string, h2: string)
    ensures ProofFileName(h1) == ProofFileName(h2) ==> h1 == h2
  {
    if ProofFileName(h1) == ProofFileName(h2) {
      assert |h1| == |h2|;
      assert h1 == ProofFileName(h1)[..|h1|];
      assert h2 == ProofFileName(h2)[..|h2|];
    }
  }

  /** One file per hash: a well-named folder never holds two different
      proofs with the same hash. */
  lemma WellNamedHashesUnique(files: map<string, Proof>)
    requires WellNamed(files)
    ensures HashesUnique(files.Values)
  {
    forall p, q | p in files.Values && q in files.Values && p.hash == q.hash ensures p == q {
      var n :| n in files && files[n] == p;
      var m :| m in files && files[m] == q;
      assert n == m;
    }
  }

  /** `refresh$` as written: list `proof/`, read and parse every file, and
      replace the cache with the result. When the folder is empty,
      `forkJoin([])` completes without emitting, so the cache is left as
      it was. */
  function Refresh(r: Repo): (Observed<set<Proof>>, Repo) {
    if r.proofFiles == map[] then (Completes, r)
    else (Emits(r.proofFiles.Values), r.(cache := r.proofFiles.Values))
  }

  /** `refresh$` as evidently intended: an empty folder yields an empty cache. */
  function RefreshCorrected(r: Repo): (Observed<set<Proof>>, Repo) {
    (Emits(r.proofFiles.Values), r.(cache := r.proofFiles.Values))
  }

  /** The file writes of `add$`, in argument order: each proof is written to
      `proof/<hash>.json`, so a later proof with the same hash overwrites
      the earlier file instead of adding a second one. */
  function SaveProofFiles(files: map<string, Proof>, proofs: seq<Proof>): (r: map<string, Proof>)
    ensures r.Keys == files.Keys + NamesOf(proofs)
    ensures forall name :: name in files && name !in NamesOf(proofs) ==> r[name] == files[name]
    ensures WellNamed(files) ==> WellNamed(r)
    decreases |proofs|
  {
    if proofs == [] then files
    else
      var init := proofs[..|proofs| - 1];
      var last := proofs[|proofs| - 1];
      assert NamesOf(proofs) == NamesOf(init) + {ProofFileName(last.hash)} by {
        assert proofs == init + [last];
      }
      SaveProofFiles(files, init)[ProofFileName(last.hash) := last]
  }

  /** Each proof file holds the last proof given with its hash. */
  lemma {:induction false} SaveProofFilesLastWriterWins(files: map<string, Proof>, proofs: seq<Proof>, i: int)
    requires 0 <= i < |proofs|
    requires forall j :: i < j < |proofs| ==> proofs[j].hash != proofs[i].hash
    ensures ProofFileName(proofs[i].hash) in SaveProofFiles(files, proofs)
    ensures SaveProofFiles(files, proofs)[ProofFileName(proofs[i].hash)] == proofs[i]
    decreases |proofs|
  {
    var init := proofs[..|proofs| - 1];
    var last := proofs[|proofs| - 1];
    var saved := SaveProofFiles(files, init);
    assert SaveProofFiles(files, proofs) == saved[ProofFileName(last.hash) := last];
    if i < |proofs| - 1 {
      assert init[i] == proofs[i];
      assert forall j :: i < j < |init| ==> init[j] == proofs[j];
      SaveProofFilesLastWriterWins(files, init, i);
      ProofFileNameInjective(last.hash, proofs[i].hash);
    }
  }

  /** The file deletions of `remove$`, in argument order: the paths found
      missing, and the folder afterwards, which has lost exactly the files
      of the given proofs. */
  function DeleteProofFiles(files: map<string, Proof>, proofs: seq<Proof>): (r: (seq<string>, map<string, Proof>))
    ensures r.1 == files - NamesOf(proofs)
    decreases |proofs|
  {
    if proofs == [] then ([], files)
    else
      var init := proofs[..|proofs| - 1];
      var last := proofs[|proofs| - 1];
      var name := ProofFileName(last.hash);
      var (missing, left) := DeleteProofFiles(files, init);
      assert NamesOf(proofs) == NamesOf(init) + {name} by {
        assert proofs == init + [last];
      }
      if name in left then (missing, left - {name})
      else (missing + [ProofPath(last.hash)], left)
  }

  /** No deletion fails exactly when every proof's file exists and no hash
      is given twice (a second deletion of the same file fails). */
  lemma {:induction false} DeleteProofFilesMissing(files: map<string, Proof>, proofs: seq<Proof>)
    ensures DeleteProofFiles(files, proofs).0 == [] <==>
              && (forall i :: 0 <= i < |proofs| ==> ProofFileName(proofs[i].hash) in files)
              && (forall i, j :: 0 <= i < j < |proofs| ==> proofs[i].hash != proofs[j].hash)
    decreases |proofs|
  {
    if proofs != [] {
      var init := proofs[..|proofs| - 1];
      var last := proofs[|proofs| - 1];
      var name := ProofFileName(last.hash);
      DeleteProofFilesMissing(files, init);
      var left := DeleteProofFiles(files, init).1;
      assert name in NamesOf(init) <==> exists i :: 0 <= i < |init| && init[i].hash == last.hash by {
        forall i | 0 <= i < |init| { ProofFileNameInjective(last.hash, init[i].hash); }
      }
      assert forall i :: 0 <= i < |init| ==> proofs[i] == init[i];
    }
  }

  /** `getAll$`: the refreshed cache. */
  function GetAll(r: Repo): (Observed<set<Proof>>, Repo) {
    var (refreshed, r1) := Refresh(r);
    (if refreshed.Emits? then Emits(r1.cache) else Completes, r1)
  }

  /** `[...proofSet].find(proof => proof.hash === hash)`. */
  ghost function ProofWithHash(proofs: set<Proof>, hash: string): (r: Option<Proof>)
    ensures r.Some? ==> r.value in proofs && r.value.hash == hash
    ensures r.None? <==> forall p :: p in proofs ==> p.hash != hash
  {
    if exists p :: p in proofs && p.hash == hash then
      Some(var p :| p in proofs && p.hash == hash; p)
    else None
  }

  /** `getByHash$(hash)`: refresh, then look the hash up in the cache. */
  ghost function GetByHash(r: Repo, hash: string): (Observed<Option<Proof>>, Repo) {
    var (refreshed, r1) := Refresh(r);
    (if refreshed.Emits? then Emits(ProofWithHash(r1.cache, hash)) else Completes, r1)
  }

  /** The URIs of the proof files of `proofs`, in argument order. */
  function ProofUris(proofs: seq<Proof>): (uris: seq<string>)
    ensures |uris| == |proofs|
    ensures forall i :: 0 <= i < |proofs| ==> uris[i] == ProofPath(proofs[i].hash)
    decreases |proofs|
  {
    if proofs == [] then [] else ProofUris(proofs[..|proofs| - 1]) + [ProofPath(proofs[|proofs| - 1].hash)]
  }

  /** `add$(...proofs)`: the URIs of the proof files, in argument order. */
  function Add(r: Repo, proofs: seq<Proof>): (Observed<seq<string>>, Repo) {
    if proofs == [] then (Completes, r)
    else
      var uris := ProofUris(proofs);
      var (refreshed, r1) := Refresh(r.(proofFiles := SaveProofFiles(r.proofFiles, proofs)));
      (if refreshed.Emits? then Emits(uris) else Completes, r1)
  }

  /** `remove$(...proofs)`: delete every file, then refresh; a missing file
      fails the whole call after the other deletions took effect. */
  function Remove(r: Repo, proofs: seq<Proof>): (Observed<set<Proof>>, Repo) {
    if proofs == [] then (Completes, r)
    else
      var (missing, left) := DeleteProofFiles(r.proofFiles, proofs);
      if missing != [] then (Fails(FileDoesNotExist(missing[0])), r.(proofFiles := left))
      else Refresh(r.(proofFiles := left))
  }

  /** `remove$` with the corrected refresh. */
  function RemoveCorrected(r: Repo, proofs: seq<Proof>): (Observed<set<Proof>>, Repo) {
    if proofs == [] then (Completes, r)
    else
      var (missing, left) := DeleteProofFiles(r.proofFiles, proofs);
      if missing != [] then (Fails(FileDoesNotExist(missing[0])), r.(proofFiles := left))
      else RefreshCorrected(r.(proofFiles := left))
  }

  /** Reads `raw/<hash>.<extension>` of a proof. */
  function ReadRawFile(r: Repo, proof: Proof): Observed<string> {
    var name := RawFileName(proof.hash, proof.mimeType.extension);
    if name in r.rawFiles then Emits(r.rawFiles[name])
    else Fails(FileDoesNotExist(RawPath(proof.hash, proof.mimeType.extension)))
  }

  /** `getRawFile$(proofOrHash)`. */
  ghost function GetRawFile(r: Repo, target: ProofOrHash): (Observed<string>, Repo) {
    match target
    case AProof(proof) => (ReadRawFile(r, proof), r)
    case AHash(hash) =>
      var (found, r1) := GetByHash(r, hash);
      match found
      case Emits(Some(proof)) => (ReadRawFile(r1, proof), r1)
      case Emits(None) => (Fails(UndefinedProof), r1)
      case _ => (Completes, r1)
  }

  /** `addRawFile$(rawBase64, mimeType)`: the URI of `raw/<sha256>.<extension>`. */
  function AddRawFile(sha256: string -> string, r: Repo, rawBase64: string, mimeType: MimeType): (string, Repo) {
    var hash := sha256(rawBase64);
    (RawPath(hash, mimeType.extension),
     r.(rawFiles := r.rawFiles[RawFileName(hash, mimeType.extension) := rawBase64]))
  }

  /** `removeRawFile$(proof)`. */
  function RemoveRawFile(r: Repo, proof: Proof): (Observed<()>, Repo) {
    var name := RawFileName(proof.hash, proof.mimeType.extension);
    if name in r.rawFiles then (Emits(()), r.(rawFiles := r.rawFiles - {name}))
    else (Fails(FileDoesNotExist(RawPath(proof.hash, proof.mimeType.extension))), r)
  }

  /** `add$` returns one URI per argument, in order; the folder gains exactly
      the files named after the proofs' hashes (a stored hash is
      overwritten, not duplicated); each file holds the last proof given
      with its hash; and the refreshed cache mirrors the folder. */
  lemma AddStoresOneFilePerHash(r: Repo, proofs: seq<Proof>)
    requires proofs != []
    ensures var (o, r1) := Add(r, proofs);
            && o.Emits? && |o.value| == |proofs|
            && (forall i :: 0 <= i < |proofs| ==> o.value[i] == ProofPath(proofs[i].hash))
            && r1.proofFiles.Keys == r.proofFiles.Keys + NamesOf(proofs)
            && (forall i :: 0 <= i < |proofs| && (forall j :: i < j < |proofs| ==> proofs[j].hash != proofs[i].hash)
                  ==> r1.proofFiles[ProofFileName(proofs[i].hash)] == proofs[i])
            && CacheMirrorsFolder(r1)
            && r1.rawFiles == r.rawFiles
  {
    var files := SaveProofFiles(r.proofFiles, proofs);
    assert ProofFileName(proofs[0].hash) in files;
    forall i | 0 <= i < |proofs| && (forall j :: i < j < |proofs| ==> proofs[j].hash != proofs[i].hash)
      ensures files[ProofFileName(proofs[i].hash)] == proofs[i]
    {
      SaveProofFilesLastWriterWins(r.proofFiles, proofs, i);
    }
  }

  /** `remove$` deletes exactly the files of the given proofs and leaves
      every other proof file alone; it succeeds iff each of those files
      existed and no hash was given twice; after success the cache mirrors
      the folder unless the folder became empty. */
  lemma RemoveDeletesExactly(r: Repo, proofs: seq<Proof>)
    requires proofs != []
    ensures var (o, r1) := Remove(r, proofs);
            && r1.proofFiles == r.proofFiles - NamesOf(proofs)
            && r1.rawFiles == r.rawFiles
            && (o.Fails? <==> (exists i :: 0 <= i < |proofs| && ProofFileName(proofs[i].hash) !in r.proofFiles)
                              || (exists i, j :: 0 <= i < j < |proofs| && proofs[i].hash == proofs[j].hash))
            && (!o.Fails? && r1.proofFiles != map[] ==> o == Emits(r1.cache) && CacheMirrorsFolder(r1))
  {
    DeleteProofFilesMissing(r.proofFiles, proofs);
  }

  /** The discrepancy of `refresh$` as written: removing the last proof
      leaves the folder empty but the removed proof in the cache, and the
      call completes without emitting. */
  lemma StaleCacheAfterRemovingLastProof(p: Proof)
    ensures var r := Repo(map[ProofFileName(p.hash) := p], map[], {p});
            var (o, r1) := Remove(r, [p]);
            && o == Completes
            && r1.proofFiles == map[]
            && r1.cache == {p}
            && !CacheMirrorsFolder(r1)
  {
    var r := Repo(map[ProofFileName(p.hash) := p], map[], {p});
    assert NamesOf([p]) == {ProofFileName(p.hash)};
    var left := DeleteProofFiles(r.proofFiles, [p]).1;
    assert left == map[];
    DeleteProofFilesMissing(r.proofFiles, [p]);
  }

  /** With the corrected refresh, a successful `remove$` always leaves the
      cache equal to the folder's contents, and it emits them. */
  lemma RemoveCorrectedMirrorsFolder(r: Repo, proofs: seq<Proof>)
    requires proofs != []
    ensures var (o, r1) := RemoveCorrected(r, proofs);
            && r1.proofFiles == r.proofFiles - NamesOf(proofs)
            && (!o.Fails? ==> o == Emits(r1.cache) && CacheMirrorsFolder(r1))
  {
  }

  /** `getByHash$` finds the one cached proof with the hash, or none. */
  lemma GetByHashFindsTheProof(r: Repo, hash: string)
    requires WellNamed(r.proofFiles) && r.proofFiles != map[]
    ensures var (o, r1) := GetByHash(r, hash);
            && o.Emits?
            && (o.value.Some? <==> exists name :: name in r.proofFiles && r.proofFiles[name].hash == hash)
            && (o.value.Some? ==> o.value.value == r.proofFiles[ProofFileName(hash)])
  {
    WellNamedHashesUnique(r.proofFiles);
    var o := GetByHash(r, hash).0;
    if o.value.Some? {
      var p := o.value.value;
      var name :| name in r.proofFiles && r.proofFiles[name] == p;
    }
  }

  /** A raw file added for some bytes is found again from a proof carrying
      their hash and MIME type, and is gone once removed. */
  lemma RawFileRoundTrip(sha256: string -> string, r: Repo, rawBase64: string, mimeType: MimeType, timestamp: int)
    ensures var (uri, r1) := AddRawFile(sha256, r, rawBase64, mimeType);
            var proof := Proof(sha256(rawBase64), mimeType, timestamp);
            && uri == RawPath(proof.hash, mimeType.extension)
            && GetRawFile(r1, AProof(proof)).0 == Emits(rawBase64)
            && RemoveRawFile(r1, proof).0 == Emits(())
            && GetRawFile(RemoveRawFile(r1, proof).1, AProof(proof)).0.Fails?
  {
  }

  /** `[...proofSet].find(proof => proof.hash === hash)` over the cache. */
  method FindByHash(proofs: set<Proof>, hash: string) returns (r: Option<Proof>)
    ensures r.Some? ==> r.value in proofs && r.value.hash == hash
    ensures r.None? <==> forall p :: p in proofs ==> p.hash != hash
  {
    var rest := proofs;
    while rest != {}
      invariant rest <= proofs
      invariant forall p :: p in proofs - rest ==> p.hash != hash
      decreases rest
    {
      var p :| p in rest;
      if p.hash == hash {
        return Some(p);
      }
      rest := rest - {p};
    }
    return None;
  }
}

/** The repository as the service object the app injects. */
module ProofRepositoryService {
  import opened Wrappers
  import opened ProofRepositorySpec

  class ProofRepository {
    const sha256: string -> string
    var proofFiles: map<string, Proof>
    var rawFiles: map<string, string>
    /** `proofList$`. */
    var cache: set<Proof>

    ghost predicate Valid()
      reads this
    {
      WellNamed(proofFiles) && HashesUnique(cache)
    }

    function State(): Repo
      reads this
    {
      Repo(proofFiles, rawFiles, cache)
    }

    /** Opens the repository over the persisted folders; the cache starts empty. */
    constructor (sha256: string -> string, proofFiles: map<string, Proof>, rawFiles: map<string, string>)
      requires WellNamed(proofFiles)
      ensures Valid() && this.sha256 == sha256
      ensures State() == Repo(proofFiles, rawFiles, {})
    {
      this.sha256 := sha256;
      this.proofFiles := proofFiles;
      this.rawFiles := rawFiles;
      cache := {};
    }

    /** `refresh$`. */
    method Refresh() returns (o: Observed<set<Proof>>)
      requires Valid()
      modifies this`cache
      ensures Valid()
      ensures (o, State()) == ProofRepositorySpec.Refresh(old(State()))
    {
      var fileNames := proofFiles.Keys;
      if fileNames == {} {
        return Completes;
      }
      var parsed := set name | name in fileNames :: proofFiles[name];
      assert parsed == proofFiles.Values;
      WellNamedHashesUnique(proofFiles);
      cache := parsed;
      o := Emits(parsed);
    }

    /** `getAll$`. */
    method GetAll() returns (o: Observed<set<Proof>>)
      requires Valid()
      modifies this`cache
      ensures Valid()
      ensures (o, State()) == ProofRepositorySpec.GetAll(old(State()))
    {
      var refreshed := Refresh();
      o := if refreshed.Emits? then Emits(cache) else Completes;
    }

    /** `getByHash$(hash)`. */
    method GetByHash(hash: string) returns (o: Observed<Option<Proof>>)
      requires Valid()
      modifies this`cache
      ensures Valid()
      ensures (o, State()) == ProofRepositorySpec.GetByHash(old(State()), hash)
    {
      var refreshed := Refresh();
      if !refreshed.Emits? {
        return Completes;
      }
      var found := FindByHash(cache, hash);
      assert found == ProofWithHash(cache, hash) by {
        if found.Some? {
          var chosen := ProofWithHash(cache, hash);
          assert chosen.Some? && chosen.value.hash == found.value.hash;
        }
      }
      o := Emits(found);
    }

    /** `add$(...proofs)`. */
    method Add(proofs: seq<Proof>) returns (o: Observed<seq<string>>)
      requires Valid()
      modifies this`proofFiles, this`cache
      ensures Valid()
      ensures (o, State()) == ProofRepositorySpec.Add(old(State()), proofs)
    {
      if |proofs| == 0 {
        return Completes;
      }
      var uris := [];
      for i := 0 to |proofs|
        invariant proofFiles == SaveProofFiles(old(proofFiles), proofs[..i])
        invariant uris == ProofUris(proofs[..i])
        invariant cache == old(cache)
      {
        assert proofs[..i + 1][..i] == proofs[..i];
        proofFiles := proofFiles[ProofFileName(proofs[i].hash) := proofs[i]];
        uris := uris + [ProofPath(proofs[i].hash)];
      }
      assert proofs[..|proofs|] == proofs;
      var refreshed := Refresh();
      o := if refreshed.Emits? then Emits(uris) else Completes;
    }

    /** `remove$(...proofs)`. */
    method Remove(proofs: seq<Proof>) returns (o: Observed<set<Proof>>)
      requires Valid()
      modifies this`proofFiles, this`cache
      ensures Valid()
      ensures (o, State()) == ProofRepositorySpec.Remove(old(State()), proofs)
    {
      if |proofs| == 0 {
        return Completes;
      }
      var missing := [];
      for i := 0 to |proofs|
        invariant (missing, proofFiles) == DeleteProofFiles(old(proofFiles), proofs[..i])
        invariant cache == old(cache)
        invariant WellNamed(proofFiles)
      {
        assert proofs[..i + 1][..i] == proofs[..i];
        var name := ProofFileName(proofs[i].hash);
        if name in proofFiles {
          proofFiles := proofFiles - {name};
        } else {
          missing := missing + [ProofPath(proofs[i].hash)];
        }
      }
      assert proofs[..|proofs|] == proofs;
      if missing != [] {
        return Fails(FileDoesNotExist(missing[0]));
      }
      o := Refresh();
    }

    /** `getRawFile$(proofOrHash)`. */
    method GetRawFile(target: ProofOrHash) returns (o: Observed<string>)
      requires Valid()
      modifies this`cache
      ensures Valid()
      ensures (o, State()) == ProofRepositorySpec.GetRawFile(old(State()), target)
    {
      var proof: Proof;
      match target {
        case AProof(p) =>
          proof := p;
        case AHash(hash) =>
          var found := GetByHash(hash);
          if !found.Emits? {
            return Completes;
          }
          if found.value.None? {
            return Fails(UndefinedProof);
          }
          proof := found.value.value;
      }
      var name := RawFileName(proof.hash, proof.mimeType.extension);
      if name in rawFiles {
        o := Emits(rawFiles[name]);
      } else {
        o := Fails(FileDoesNotExist(RawPath(proof.hash, proof.mimeType.extension)));
      }
    }

    /** `addRawFile$(rawBase64, mimeType)`: stored under the content hash. */
    method AddRawFile(rawBase64: string, mimeType: MimeType) returns (uri: string)
      requires Valid()
      modifies this`rawFiles
      ensures Valid()
      ensures (uri, State()) == ProofRepositorySpec.AddRawFile(sha256, old(State()), rawBase64, mimeType)
    {
      var hash := sha256(rawBase64);
      rawFiles := rawFiles[RawFileName(hash, mimeType.extension) := rawBase64];
      uri := RawPath(hash, mimeType.extension);
    }

    /** `removeRawFile$(proof)`. */
    method RemoveRawFile(proof: Proof) returns (o: Observed<()>)
      requires Valid()
      modifies this`rawFiles
      ensures Valid()
      ensures (o, State()) == ProofRepositorySpec.RemoveRawFile(old(State()), proof)
    {
      var name := RawFileName(proof.hash, proof.mimeType.extension);
      if name !in rawFiles {
        return Fails(FileDoesNotExist(RawPath(proof.hash, proof.mimeType.extension)));
      }
      rawFiles := rawFiles - {name};
      o := Emits(());
    }
  }
}
