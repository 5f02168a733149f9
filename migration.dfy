/** The migration service: a run-once migration to version 0.15.0, guarded
    by the persisted `TO_0_15_0` flag, that deletes the local proofs the
    backend knows as "post captures" (assets not originally owned by this
    device), then sets the flag, announces completion and records the app
    version. The backend's asset list, the app version and the legacy-proof
    adapter `getOldProof` are inputs. */
module Migration {
  import opened Wrappers
  import OrderedSets

  /** A backend asset, reduced to the field the migration reads. */
  datatype Asset = Asset(proofHash: string)

  const PageLimit := 100

  function Min(a: int, b: int): int { if a <= b then a else b }

  /** The backend's page for `fetchAllNotOriginallyOwned$(offset, limit)`:
      the assets of the (stable) remote list from `offset` on, at most
      `limit` of them. */
  function Page(remote: seq<Asset>, offset: nat, limit: nat): (page: seq<Asset>)
    ensures |page| <= limit
    ensures |page| == 0 <==> offset >= |remote| || limit == 0
    ensures offset <= |remote| ==> page == remote[offset..Min(offset + limit, |remote|)]
  {
    if offset >= |remote| then [] else remote[offset..Min(offset + limit, |remote|)]
  }

  /** `fetchAllNotOriginallyOwned`: requests pages of 100 from offset 0,
      advancing by each page's length, until a page comes back empty.
      `offsets` lists the offsets requested, in order. */
  method FetchAllNotOriginallyOwned(remote: seq<Asset>) returns (all: seq<Asset>, offsets: seq<nat>)
    ensures all == remote
    ensures |offsets| >= 1 && offsets[|offsets| - 1] == |remote|
    ensures forall k :: 0 <= k < |offsets| ==> offsets[k] == Min(k * PageLimit, |remote|)
    ensures (|offsets| - 1) * PageLimit >= |remote|
    ensures |offsets| == 1 || (|offsets| - 2) * PageLimit < |remote|
  {
    var currentOffset: nat := 0;
    all := [];
    offsets := [];
    while true
      invariant currentOffset == |all| <= |remote|
      invariant all == remote[..currentOffset]
      invariant currentOffset == Min(|offsets| * PageLimit, |remote|)
      invariant forall k :: 0 <= k < |offsets| ==> offsets[k] == Min(k * PageLimit, |remote|)
      invariant forall k :: 0 <= k < |offsets| ==> offsets[k] < |remote|
      decreases |remote| - currentOffset
    {
      offsets := offsets + [currentOffset];
      var page := Page(remote, currentOffset, PageLimit);
      if |page| == 0 {
        break;
      }
      all := all + page;
      currentOffset := currentOffset + |page|;
    }
    assert offsets[|offsets| - 1] == |remote|;
    if |offsets| > 1 {
      assert offsets[|offsets| - 2] == Min((|offsets| - 2) * PageLimit, |remote|) < |remote|;
    }
  }

  function ProofHashes(assets: seq<Asset>): (hashes: seq<string>)
    ensures |hashes| == |assets|
    ensures forall i :: 0 <= i < |assets| ==> hashes[i] == assets[i].proofHash
  {
    seq(|assets|, i requires 0 <= i < |assets| => assets[i].proofHash)
  }

  /** The proofs of `proofs`, in order, whose legacy hash `oldHash(proof)`
      is the proof hash of some asset. */
  function LocalPostCaptures<P(==,!new)>(proofs: seq<P>, assets: seq<Asset>, oldHash: P -> string): (r: seq<P>)
    ensures forall p :: p in r <==> p in proofs && oldHash(p) in ProofHashes(assets)
    ensures |r| <= |proofs|
    decreases |proofs|
  {
    if proofs == [] then []
    else
      var rest := LocalPostCaptures(proofs[1..], assets, oldHash);
      if oldHash(proofs[0]) in ProofHashes(assets) then [proofs[0]] + rest else rest
  }

  /** `LocalPostCaptures` is `Array.prototype.filter`: it keeps a single
      proof exactly when its legacy hash is listed, and it distributes over
      concatenation, so the kept proofs stay in their original order. */
  lemma {:induction false} LocalPostCapturesIsFilter<P(!new)>(a: seq<P>, b: seq<P>, assets: seq<Asset>,
                                                             oldHash: P -> string)
    ensures LocalPostCaptures(a + b, assets, oldHash)
            == LocalPostCaptures(a, assets, oldHash) + LocalPostCaptures(b, assets, oldHash)
    ensures forall p :: LocalPostCaptures([p], assets, oldHash)
                        == if oldHash(p) in ProofHashes(assets) then [p] else []
    decreases |a|
  {
    if a == [] {
      assert a + b == b;
    } else {
      var kept := if oldHash(a[0]) in ProofHashes(assets) then [a[0]] else [];
      assert (a + b)[0] == a[0] && (a + b)[1..] == a[1..] + b;
      assert LocalPostCaptures(a + b, assets, oldHash) == kept + LocalPostCaptures(a[1..] + b, assets, oldHash);
      assert LocalPostCaptures(a, assets, oldHash) == kept + LocalPostCaptures(a[1..], assets, oldHash);
      LocalPostCapturesIsFilter(a[1..], b, assets, oldHash);
    }
  }

  /** The persisted and in-memory state the migration touches. */
  datatype MigrationState<P> = MigrationState(
    migratedTo0150: bool,             // the `TO_0_15_0` preference
    hasMigrated: bool,                // the value of `hasMigrated$`
    previousVersion: Option<string>,  // the `PREVIOUS_VERSION` preference
    proofs: seq<P>)                   // the proof repository's proofs

  /** `migrate$()` run to completion. */
  function Migrated<P(==,!new)>(s: MigrationState<P>, remote: seq<Asset>, appVersion: string, oldHash: P -> string)
    : MigrationState<P>
  {
    if s.migratedTo0150 then s
    else MigrationState(true, true, Some(appVersion),
                        OrderedSets.RemoveAll(s.proofs, LocalPostCaptures(s.proofs, remote, oldHash)))
  }

  /** A completed migration removes exactly the local post captures and
      keeps every other proof, sets the flag, announces completion and
      records the version; with the flag already set nothing changes. */
  lemma MigrateRemovesExactlyPostCaptures<P(!new)>(s: MigrationState<P>, remote: seq<Asset>, appVersion: string,
                                             oldHash: P -> string)
    ensures var t := Migrated(s, remote, appVersion, oldHash);
            && (s.migratedTo0150 ==> t == s)
            && (!s.migratedTo0150 ==>
                  && t.migratedTo0150 && t.hasMigrated && t.previousVersion == Some(appVersion)
                  && (forall p :: p in t.proofs <==> p in s.proofs && oldHash(p) !in ProofHashes(remote)))
  {
  }

  /** Running the migration twice deletes only once: the second run, with
      whatever backend list and app version, changes nothing. */
  lemma MigrateTwiceIsOnce<P(!new)>(s: MigrationState<P>, remote: seq<Asset>, laterRemote: seq<Asset>,
                              appVersion: string, laterVersion: string, oldHash: P -> string)
    ensures var once := Migrated(s, remote, appVersion, oldHash);
            Migrated(once, laterRemote, laterVersion, oldHash) == once
  {
  }

  /** `hasMigrated$` becomes true only through a migration that ran. */
  lemma HasMigratedOnlyWhenRun<P(!new)>(s: MigrationState<P>, remote: seq<Asset>, appVersion: string, oldHash: P -> string)
    ensures Migrated(s, remote, appVersion, oldHash).hasMigrated <==> s.hasMigrated || !s.migratedTo0150
  {
  }

  /** The flag is written only after the deletions: a run interrupted after
      deleting some of the post captures leaves the flag unset, and the next
      run leaves the same proofs as an uninterrupted run would have. */
  lemma InterruptedRunRetriedInFull<P(!new)>(s: MigrationState<P>, remote: seq<Asset>, appVersion: string,
                                       oldHash: P -> string, done: nat)
    requires !s.migratedTo0150
    requires done <= |LocalPostCaptures(s.proofs, remote, oldHash)|
    ensures var interrupted := s.(proofs := OrderedSets.RemoveAll(s.proofs, LocalPostCaptures(s.proofs, remote, oldHash)[..done]));
            var retried := Migrated(interrupted, remote, appVersion, oldHash);
            var uninterrupted := Migrated(s, remote, appVersion, oldHash);
            && retried.migratedTo0150 == uninterrupted.migratedTo0150
            && retried.previousVersion == uninterrupted.previousVersion
            && (forall p :: p in retried.proofs <==> p in uninterrupted.proofs)
  {
    var local := LocalPostCaptures(s.proofs, remote, oldHash);
    forall p | p in local[..done] ensures p in local {
    }
  }

  /** What the migration does to the outside world, in order. */
  datatype Effect<P> =
    | RemovedProof(proof: P)
    | SetMigrationFlag
    | AnnouncedMigrated
    | SetPreviousVersion(version: string)

  /** One removal per proof, in order. */
  function Removals<P>(proofs: seq<P>): (r: seq<Effect<P>>)
    ensures |r| == |proofs|
    ensures forall i :: 0 <= i < |proofs| ==> r[i] == RemovedProof(proofs[i])
    decreases |proofs|
  {
    if proofs == [] then [] else Removals(proofs[..|proofs| - 1]) + [RemovedProof(proofs[|proofs| - 1])]
  }

  class MigrationService<P(==, !new)> {
    /** `getOldProof(proof).hash`. */
    const oldHash: P -> string
    var migratedTo0150: bool
    var hasMigrated: bool
    var previousVersion: Option<string>
    var proofs: seq<P>
    /** The effects performed so far, in order. */
    ghost var effects: seq<Effect<P>>

    function State(): MigrationState<P>
      reads this
    {
      MigrationState(migratedTo0150, hasMigrated, previousVersion, proofs)
    }

    /** `hasMigrated$` starts false; the preferences and proofs are whatever
        earlier runs persisted. */
    constructor (oldHash: P -> string, migratedTo0150: bool, previousVersion: Option<string>, proofs: seq<P>)
      ensures this.oldHash == oldHash && effects == []
      ensures State() == MigrationState(migratedTo0150, false, previousVersion, proofs)
    {
      this.oldHash := oldHash;
      this.migratedTo0150 := migratedTo0150;
      hasMigrated := false;
      this.previousVersion := previousVersion;
      this.proofs := proofs;
      effects := [];
    }

    /** `removeLocalPostCaptures`: deletes, one by one, the proofs whose
        legacy hash the backend lists. */
    method RemoveLocalPostCaptures(remote: seq<Asset>)
      modifies this`proofs, this`effects
      ensures proofs == OrderedSets.RemoveAll(old(proofs), LocalPostCaptures(old(proofs), remote, oldHash))
      ensures effects == old(effects) + Removals(LocalPostCaptures(old(proofs), remote, oldHash))
    {
      var assets, _ := FetchAllNotOriginallyOwned(remote);
      var allProofs := proofs;
      var local := LocalPostCaptures(allProofs, assets, oldHash);
      RemoveProofs(local);
    }

    /** `proofRepository.remove(postCapture)` for each post capture, in order. */
    method RemoveProofs(local: seq<P>)
      modifies this`proofs, this`effects
      ensures proofs == OrderedSets.RemoveAll(old(proofs), local)
      ensures effects == old(effects) + Removals(local)
    {
      for i := 0 to |local|
        invariant proofs == OrderedSets.RemoveAll(old(proofs), local[..i])
        invariant effects == old(effects) + Removals(local[..i])
      {
        assert local[..i + 1][..i] == local[..i];
        proofs := OrderedSets.Remove(proofs, local[i]);
        effects := effects + [RemovedProof(local[i])];
      }
      assert local[..|local|] == local;
    }

    /** `migrate$()`: skipped when the flag is set; otherwise the deletions,
        then the flag, then `hasMigrated$`, then the previous version. */
    method Migrate(remote: seq<Asset>, appVersion: string)
      modifies this`migratedTo0150, this`hasMigrated, this`previousVersion, this`proofs, this`effects
      ensures State() == Migrated(old(State()), remote, appVersion, oldHash)
      ensures old(migratedTo0150) ==> effects == old(effects)
      ensures !old(migratedTo0150) ==>
                effects == old(effects) + Removals(LocalPostCaptures(old(proofs), remote, oldHash))
                           + [SetMigrationFlag, AnnouncedMigrated, SetPreviousVersion(appVersion)]
    {
      if migratedTo0150 {
        return;
      }
      RemoveLocalPostCaptures(remote);
      migratedTo0150 := true;
      effects := effects + [SetMigrationFlag];
      hasMigrated := true;
      effects := effects + [AnnouncedMigrated];
      previousVersion := Some(appVersion);
      effects := effects + [SetPreviousVersion(appVersion)];
    }
  }
}
