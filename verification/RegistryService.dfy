/** The registry's handlers, each run to its end with nothing in between, over its tables and its store. */
module RegistryService {
  import opened Wrappers
  import opened Registry
  import opened RegistryCleanup
  import opened RegistryProtocol

  datatype Status = Recorded(packageId: Id) | Conflict | Failed

  datatype BackfillStatus = NotFound | AlreadyBuilt(debug: Digest) | Ambiguous | BuildFailed | Failure | Built(debug: Digest)

  datatype DebugStatus = NoBuild | DebugFailed | DebugStored

  /** Which awaited calls of a handler fail: the put of a release build, the transaction, the put of a debug build, and the updates of its row. */
  datatype Faults = Faults(release: bool, transaction: bool, debug: bool, row: bool, entrypoint: bool)

  datatype Counts = Counts(components: nat, accounts: nat, notes: nat, packages: nat, masps: nat)

  /** The tables and the artifacts. */
  datatype Contents = Contents(db: Db, store: set<Artifact>)

  /** The tables are consistent and no row is without an artifact it needs. */
  ghost predicate Sound(s: Contents) {
    s.db.Consistent() && HasArtifacts(s.db, s.store)
  }

  ghost function StatusOf(o: Outcome): Status {
    match o
    case Committed(_, p) => Recorded(p)
    case AlreadyVerified => Conflict
    case ConstraintFailed => Failed
  }

  // --- What each handler leaves, whichever of its calls fails ---

  function DebugOutcome(debug: Option<Digest>, faults: Faults): DebugStatus {
    if debug.None? then NoBuild else if faults.debug || faults.row then DebugFailed else DebugStored
  }

  /** A debug build put, then recorded on its row; when that fails the artifact stays, with no row that needs it. */
  function AfterDebug(s: Contents, package: Id, commitment: Digest, debug: Option<Digest>, faults: Faults): Contents {
    if debug.None? || faults.debug then s
    else Contents(if faults.row then s.db else SetDebug(s.db, package, debug.value), s.store + {Artifact(commitment, Debug)})
  }

  ghost function RecordOutcome(s: Contents, stored: Option<Id>, v: Verification, ids: NewIds, faults: Faults): Status {
    if faults.transaction then Failed else StatusOf(Registry.Recorded(s.db, stored, v.recording, ids))
  }

  /** A verified build recorded whole or not at all, and after that its debug build. */
  ghost function AfterRecord(s: Contents, stored: Option<Id>, v: Verification, ids: NewIds, faults: Faults): Contents {
    if faults.transaction then s
    else
      match Registry.Recorded(s.db, stored, v.recording, ids)
      case Committed(db, p) =>
        if HasDebugBuild(s.db, stored) then Contents(db, s.store)
        else AfterDebug(Contents(db, s.store), p, v.recording.commitment, v.debug, faults)
      case _ => s
  }

  predicate HasDebugBuild(db: Db, stored: Option<Id>) {
    stored.Some? && stored.value in db.packages && db.packages[stored.value].debugCommitment.Some?
  }

  ghost function VerifyOutcome(s: Contents, v: Verification, ids: NewIds, faults: Faults): Status {
    var stored := s.db.FindPackage(v.recording.commitment);
    if stored.None? && faults.release then Failed else RecordOutcome(s, stored, v, ids, faults)
  }

  ghost function AfterVerify(s: Contents, v: Verification, ids: NewIds, faults: Faults): Contents {
    var stored := s.db.FindPackage(v.recording.commitment);
    if stored.None? && faults.release then s else AfterRecord(AfterPut(s, stored, v), stored, v, ids, faults)
  }

  /** The release artifact of a new package is put before anything is recorded. */
  function AfterPut(s: Contents, stored: Option<Id>, v: Verification): Contents {
    if stored.Some? then s else Contents(s.db, s.store + {Artifact(v.recording.commitment, Release)})
  }

  /** How a backfill ends: the first thing that stops it, or the build. */
  function BackfillOutcome(packages: map<Id, PackageRow>, found: Option<Id>, inferred: Option<string>, build: Option<Digest>, faults: Faults): BackfillStatus
    requires found.Some? ==> found.value in packages
  {
    if found.None? then NotFound
    else
      var row := packages[found.value];
      if row.debugCommitment.Some? then AlreadyBuilt(row.debugCommitment.value)
      else if row.entrypoint.None? && inferred.None? then Ambiguous
      else if build.None? then BuildFailed
      else if faults.debug || faults.row || (row.entrypoint.None? && faults.entrypoint) then Failure
      else Built(build.value)
  }

  ghost function AfterBackfill(s: Contents, commitment: Digest, inferred: Option<string>, build: Option<Digest>, faults: Faults): Contents {
    match s.db.FindPackage(commitment)
    case None => s
    case Some(p) =>
      var row := s.db.packages[p];
      if row.debugCommitment.Some? || (row.entrypoint.None? && inferred.None?) then s
      else
        var after := AfterDebug(s, p, commitment, build, faults);
        if build.Some? && !faults.debug && !faults.row && row.entrypoint.None? && !faults.entrypoint
        then Contents(SetEntrypoint(after.db, p, inferred.value), after.store) else after
  }

  /** Both artifacts of every package of a set. */
  ghost function ArtifactsOfAll(packages: map<Id, PackageRow>, ids: set<Id>): set<Artifact> {
    set p, variant: Variant | p in ids && p in packages && variant in {Release, Debug} :: Artifact(packages[p].commitment, variant)
  }

  /** A cleanup that completes. */
  ghost function AfterCleanup(s: Contents, cutoff: int): Contents {
    var r := CleanUp(s.db, cutoff);
    Contents(r.db, s.store - ArtifactsOfAll(s.db.packages, r.packages))
  }

  class Service {
    var packages: map<Id, PackageRow>
    var accounts: map<Id, AccountRow>
    var components: map<Id, ComponentRow>
    var notes: map<Id, NoteRow>
    var store: set<Artifact>

    constructor ()
      ensures Tables() == Db(map[], map[], map[], map[]) && store == {}
    {
      packages, accounts, components, notes, store := map[], map[], map[], map[], {};
    }

    function Tables(): Db
      reads this
    {
      Db(packages, accounts, components, notes)
    }

    function Now(): Contents
      reads this
    {
      Contents(Tables(), store)
    }

    ghost predicate Valid()
      reads this
    {
      Sound(Now())
    }

    /** The package's id, read by commitment. */
    method GetPackage(commitment: Digest) returns (found: Option<Id>)
      requires UniquePackages(packages)
      ensures found == Tables().FindPackage(commitment)
    {
      found := None;
      if p :| p in packages && packages[p].commitment == commitment {
        found := Some(p);
        assert Tables().HasCommitment(p, commitment);
      }
    }

    method InsertPackage(r: Recording, id: Id) returns (p: Option<Id>)
      requires UniquePackages(packages)
      modifies this`packages
      ensures var inserted := PackageInserted(old(Tables()), r, id);
              if inserted.None? then p == None && Tables() == old(Tables())
              else p == Some(inserted.value.1) && Tables() == inserted.value.0
    {
      p := GetPackage(r.commitment);
      if p.None? && id !in packages {
        packages := packages[id := PackageRow(r.commitment, Some(r.entrypoint), None)];
        p := Some(id);
      }
    }

    method InsertAccountComponent(r: Recording, packageId: Id, ids: NewIds) returns (status: Status)
      requires UniqueAccounts(accounts)
      modifies this`accounts, this`components
      ensures status == StatusOf(ComponentInserted(old(Tables()), r, packageId, ids))
      ensures status.Recorded? ==> Tables() == ComponentInserted(old(Tables()), r, packageId, ids).db
    {
      var account := AccountRow(r.networkId, r.root);
      var accountId := ids.account;
      if a :| a in accounts && accounts[a] == account {
        accountId := a;
      } else if accountId in accounts {
        return Failed;
      } else {
        accounts := accounts[accountId := account];
      }
      ghost var middle := AccountInserted(old(Tables()), account, ids.account).value;
      assert middle.0 == Tables() && middle.1 == accountId;
      if exists c :: c in components && components[c].accountId == accountId && components[c].packageCommitment == r.commitment {
        return Conflict;
      }
      if ids.record in components || packageId !in packages {
        return Failed;
      }
      components := components[ids.record := ComponentRow(accountId, packageId, r.commitment, r.source, r.now)];
      status := Recorded(packageId);
    }

    method InsertNote(r: Recording, packageId: Id, ids: NewIds) returns (status: Status)
      modifies this`notes
      ensures status == StatusOf(NoteInserted(old(Tables()), r, packageId, ids))
      ensures status.Recorded? ==> Tables() == NoteInserted(old(Tables()), r, packageId, ids).db
    {
      if exists n :: n in notes && notes[n].networkId == r.networkId && notes[n].script == r.root {
        return Conflict;
      }
      if ids.record in notes || packageId !in packages {
        return Failed;
      }
      notes := notes[ids.record := NoteRow(r.networkId, r.root, r.source, packageId, r.commitment, r.now)];
      status := Recorded(packageId);
    }

    /** The transaction: whole or rolled back. */
    method Record(stored: Option<Id>, r: Recording, ids: NewIds) returns (status: Status)
      requires Tables().Consistent()
      modifies this`packages, this`accounts, this`components, this`notes
      ensures status == StatusOf(Registry.Recorded(old(Tables()), stored, r, ids))
      ensures Tables() == AfterRecording(old(Tables()), stored, r, ids)
    {
      var before := Tables();
      var packageId := stored;
      if stored.None? {
        packageId := InsertPackage(r, ids.package);
      }
      if packageId.None? {
        return Failed;
      }
      if r.isAccount {
        status := InsertAccountComponent(r, packageId.value, ids);
      } else {
        status := InsertNote(r, packageId.value, ids);
      }
      if !status.Recorded? {
        packages, accounts, components, notes := before.packages, before.accounts, before.components, before.notes;
      }
    }

    /** The artifact first, then the row. */
    method StoreDebugBuild(package: Id, commitment: Digest, debug: Option<Digest>, faults: Faults) returns (status: DebugStatus)
      modifies this`packages, this`store
      ensures status == DebugOutcome(debug, faults)
      ensures Now() == AfterDebug(old(Now()), package, commitment, debug, faults)
    {
      if debug.None? { return NoBuild; }
      if faults.debug { return DebugFailed; }
      store := store + {Artifact(commitment, Debug)};
      if faults.row { return DebugFailed; }
      if package in packages {
        packages := packages[package := packages[package].(debugCommitment := Some(debug.value))];
      }
      status := DebugStored;
    }

    /**
     A verified build, whichever call fails on the way: the record is made whole or
     not at all, and no row is left without its artifacts.
     */
    method VerifyResource(v: Verification, ids: NewIds, faults: Faults) returns (status: Status)
      requires Valid()
      modifies this
      ensures Valid()
      ensures status == VerifyOutcome(old(Now()), v, ids, faults)
      ensures Now() == AfterVerify(old(Now()), v, ids, faults)
    {
      VerifyKeepsSound(Now(), v, ids, faults);
      var stored := GetPackage(v.recording.commitment);
      if stored.None? {
        if faults.release { return Failed; }
        store := store + {Artifact(v.recording.commitment, Release)};
      }
      status := RecordVerified(stored, v, ids, faults);
    }

    /** The rest of it, once the release artifact is there. */
    method RecordVerified(stored: Option<Id>, v: Verification, ids: NewIds, faults: Faults) returns (status: Status)
      requires Tables().Consistent()
      modifies this
      ensures status == RecordOutcome(old(Now()), stored, v, ids, faults)
      ensures Now() == AfterRecord(old(Now()), stored, v, ids, faults)
    {
      if faults.transaction { return Failed; }
      var hasDebug := HasDebugBuild(Tables(), stored);
      status := Record(stored, v.recording, ids);
      if status.Recorded? && !hasDebug {
        var added := StoreDebugBuild(status.packageId, v.recording.commitment, v.debug, faults);
      }
    }

    /** The debug build of a stored package that has none, from the entrypoint it has or its files give. */
    method Backfill(commitment: Digest, inferred: Option<string>, build: Option<Digest>, faults: Faults) returns (status: BackfillStatus)
      requires Valid()
      modifies this`packages, this`store
      ensures Valid()
      ensures status == BackfillOutcome(old(packages), old(Tables()).FindPackage(commitment), inferred, build, faults)
      ensures Now() == AfterBackfill(old(Now()), commitment, inferred, build, faults)
    {
      BackfillKeepsSound(Now(), commitment, inferred, build, faults);
      var found := GetPackage(commitment);
      if found.None? { return NotFound; }
      var row := packages[found.value];
      if row.debugCommitment.Some? { return AlreadyBuilt(row.debugCommitment.value); }
      var entrypoint := if row.entrypoint.Some? then row.entrypoint else inferred;
      if entrypoint.None? { return Ambiguous; }
      if build.None? { return BuildFailed; }
      var stored := StoreDebugBuild(found.value, commitment, build, faults);
      if stored != DebugStored { return Failure; }
      if row.entrypoint.None? {
        if faults.entrypoint { return Failure; }
        packages := packages[found.value := packages[found.value].(entrypoint := entrypoint)];
      }
      status := Built(build.value);
    }

    /** The cleanup's transaction: four statements, the later ones limited to what the earlier ones returned. */
    method CleanupRecords(cutoff: int) returns (deleted: Counts, gone: set<Id>)
      modifies this`packages, this`accounts, this`components, this`notes
      ensures var r := CleanUp(old(Tables()), cutoff);
              && Tables() == r.db && gone == r.packages
              && deleted == Counts(|r.components|, |r.accounts|, |r.notes|, |r.packages|, |r.packages|)
    {
      var deletedComponents := ExpiredComponents(Tables(), cutoff);
      var deletedNotes := ExpiredNotes(Tables(), cutoff);
      var accountIds := AccountIds(Tables(), deletedComponents);
      var packageIds := PackageIds(Tables(), deletedComponents, deletedNotes);
      components := components - deletedComponents;
      notes := notes - deletedNotes;
      var deletedAccounts := UnusedAccounts(Tables(), accountIds);
      var without := WithoutAccounts(Tables(), deletedAccounts);
      accounts, components := without.accounts, without.components;
      gone := UnusedPackages(Tables(), packageIds);
      without := WithoutPackages(Tables(), gone);
      packages, components, notes := without.packages, without.components, without.notes;
      deleted := Counts(|deletedComponents|, |deletedAccounts|, |deletedNotes|, |gone|, |gone|);
    }

    method DeleteArtifacts(removed: map<Id, PackageRow>, gone: set<Id>)
      requires gone <= removed.Keys
      modifies this`store
      ensures store == old(store) - ArtifactsOfAll(removed, gone)
    {
      var remaining := gone;
      assert store == old(store) - ArtifactsOfAll(removed, gone - remaining);
      while remaining != {}
        invariant remaining <= gone && store == old(store) - ArtifactsOfAll(removed, gone - remaining)
        decreases |remaining|
      {
        var p :| p in remaining;
        ghost var done := gone - remaining;
        remaining := remaining - {p};
        store := store - {Artifact(removed[p].commitment, Release)};
        store := store - {Artifact(removed[p].commitment, Debug)};
        assert gone - remaining == done + {p};
      }
      assert gone - {} == gone;
    }

    /** Deletes the expired records and what only they used, then those packages' artifacts, exactly. */
    method CleanupPlayground(now: int) returns (counts: Counts)
      requires Valid()
      modifies this
      ensures Valid()
      ensures var r := CleanUp(old(Tables()), now - 24 * 60 * 60_000);
              && Now() == AfterCleanup(old(Now()), now - 24 * 60 * 60_000)
              && counts == Counts(|r.components|, |r.accounts|, |r.notes|, |r.packages|, |r.packages|)
    {
      var removed := packages;
      CleanupKeepsArtifacts(Tables(), store, now - PLAYGROUND_TTL_MS);
      var gone;
      counts, gone := CleanupRecords(now - PLAYGROUND_TTL_MS);
      DeleteArtifacts(removed, gone);
    }
  }

  lemma RecordingKeepsArtifacts(db: Db, store: set<Artifact>, stored: Option<Id>, r: Recording, ids: NewIds)
    requires db.Consistent() && HasArtifacts(db, store) && Names(db, stored, r.commitment)
    requires stored.None? ==> Artifact(r.commitment, Release) in store
    ensures AfterRecording(db, stored, r, ids).Consistent() && HasArtifacts(AfterRecording(db, stored, r, ids), store)
    ensures Registry.Recorded(db, stored, r, ids).Committed? ==>
              Names(AfterRecording(db, stored, r, ids), Some(Registry.Recorded(db, stored, r, ids).packageId), r.commitment)
  {
    var after := AfterRecording(db, stored, r, ids);
    RecordingKeepsConsistent(db, stored, r, ids);
    RecordingAddsAtMost(db, stored, r, ids);
  }

  lemma DebugKeepsSound(s: Contents, package: Id, commitment: Digest, debug: Option<Digest>, faults: Faults)
    requires Sound(s) && Names(s.db, Some(package), commitment)
    ensures Sound(AfterDebug(s, package, commitment, debug, faults))
  {}

  lemma EntrypointKeepsSound(s: Contents, package: Id, entrypoint: string)
    requires Sound(s)
    ensures Sound(Contents(SetEntrypoint(s.db, package, entrypoint), s.store))
  {
    SettingContinues(s.db, s.db.packages.Keys, package, 0, entrypoint);
  }

  lemma RecordKeepsSound(s: Contents, stored: Option<Id>, v: Verification, ids: NewIds, faults: Faults)
    requires Sound(s) && Names(s.db, stored, v.recording.commitment)
    requires stored.None? ==> Artifact(v.recording.commitment, Release) in s.store
    ensures Sound(AfterRecord(s, stored, v, ids, faults))
  {
    RecordingKeepsArtifacts(s.db, s.store, stored, v.recording, ids);
    var outcome := Registry.Recorded(s.db, stored, v.recording, ids);
    if outcome.Committed? {
      DebugKeepsSound(Contents(outcome.db, s.store), outcome.packageId, v.recording.commitment, v.debug, faults);
    }
  }

  /** Whichever of its calls fails, a verification leaves no row without its artifacts. */
  lemma VerifyKeepsSound(s: Contents, v: Verification, ids: NewIds, faults: Faults)
    requires Sound(s)
    ensures Sound(AfterVerify(s, v, ids, faults))
  {
    var stored := s.db.FindPackage(v.recording.commitment);
    RecordKeepsSound(AfterPut(s, stored, v), stored, v, ids, faults);
  }

  lemma BackfillKeepsSound(s: Contents, commitment: Digest, inferred: Option<string>, build: Option<Digest>, faults: Faults)
    requires Sound(s)
    ensures Sound(AfterBackfill(s, commitment, inferred, build, faults))
  {
    var found := s.db.FindPackage(commitment);
    if found.Some? {
      DebugKeepsSound(s, found.value, commitment, build, faults);
      if inferred.Some? {
        EntrypointKeepsSound(AfterDebug(s, found.value, commitment, build, faults), found.value, inferred.value);
      }
    }
  }

  lemma CleanupKeepsArtifacts(db: Db, store: set<Artifact>, cutoff: int)
    requires db.Consistent() && HasArtifacts(db, store)
    ensures var r := CleanUp(db, cutoff);
            r.db.Consistent() && HasArtifacts(r.db, store - ArtifactsOfAll(db.packages, r.packages))
  {
    CleanUpKeepsConsistent(db, cutoff);
    NothingCascades(db, cutoff);
  }
}
