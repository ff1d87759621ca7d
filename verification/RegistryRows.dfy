/**
 What the registry's handlers leave, row by row and artifact by artifact: which
 call failing gives which answer, and what each row then holds.
 */
module RegistryRows {
  import opened Wrappers
  import opened Registry
  import opened RegistryCleanup
  import opened RegistryProtocol
  import opened RegistryService

  /** All rows are as before, but for what one package's row says of its debug build and its entrypoint. */
  ghost predicate OnlyRowChanges(before: Db, after: Db, p: Id) {
    && after.accounts == before.accounts && after.components == before.components && after.notes == before.notes
    && after.packages.Keys == before.packages.Keys
    && (forall q | q in before.packages && q != p :: after.packages[q] == before.packages[q])
    && (p in before.packages ==> after.packages[p].commitment == before.packages[p].commitment)
  }

  /**
   A debug build is stored exactly when there is one and neither its put nor the
   update of its row fails. Its own commitment is then on that row, and nothing
   else has changed but for the artifact, which is there whenever the put worked.
   */
  lemma DebugIsRecorded(s: Contents, package: Id, commitment: Digest, debug: Option<Digest>, faults: Faults)
    ensures var after := AfterDebug(s, package, commitment, debug, faults);
      && (DebugOutcome(debug, faults) == DebugStored <==> debug.Some? && !faults.debug && !faults.row)
      && (DebugOutcome(debug, faults) == NoBuild <==> debug.None?)
      && OnlyRowChanges(s.db, after.db, package)
      && (package in s.db.packages ==>
            && after.db.packages[package].entrypoint == s.db.packages[package].entrypoint
            && after.db.packages[package].debugCommitment ==
                 if DebugOutcome(debug, faults) == DebugStored then debug else s.db.packages[package].debugCommitment)
      && after.store == s.store + if debug.Some? && !faults.debug then {Artifact(commitment, Debug)} else {}
  {}

  // --- A verification ---

  /** A package of this commitment is on record. */
  ghost predicate Known(db: Db, commitment: Digest) {
    exists p :: p in db.packages && db.packages[p].commitment == commitment
  }

  /** The debug build a package's row had, if there was one. */
  ghost function DebugOf(db: Db, p: Id): Option<Digest> {
    if p in db.packages then db.packages[p].debugCommitment else None
  }

  /** The tables with that put back. */
  ghost function DebugReset(db: Db, p: Id, debug: Option<Digest>): Db
    requires p in db.packages
  {
    db.(packages := db.packages[p := PackageRow(db.packages[p].commitment, db.packages[p].entrypoint, debug)])
  }

  /** How a verification is answered, by what fails and by what is on record. */
  ghost predicate AnswersVerification(s: Contents, v: Verification, faults: Faults, status: Status) {
    if (faults.release && !Known(s.db, v.recording.commitment)) || faults.transaction then status == Failed
    else if Verified(s.db, v.recording) then status == Conflict
    else status.Recorded?
  }

  /**
   A verification, with new ids drawn. One that is recorded adds its record and
   the rows that were missing, and its package ends with the debug build it had,
   or else with this one's when neither call for that fails. One that is not
   leaves the tables as they were. A release artifact is put for a package not
   on record; a debug artifact only after a record, for a package without one.
   */
  lemma VerificationExactly(s: Contents, v: Verification, ids: NewIds, faults: Faults)
    requires s.db.Consistent() && Unused(s.db, ids)
    ensures var status, after := VerifyOutcome(s, v, ids, faults), AfterVerify(s, v, ids, faults);
      && AnswersVerification(s, v, faults, status)
      && (!status.Recorded? ==>
            && after.db == s.db
            && after.store == s.store + if !Known(s.db, v.recording.commitment) && !faults.release
                                        then {Artifact(v.recording.commitment, Release)} else {})
      && (status.Recorded? ==>
            var p, had := status.packageId, DebugOf(s.db, status.packageId);
            var puts := had.None? && v.debug.Some? && !faults.debug;
            && p in after.db.packages
            && AddsRecord(s.db, DebugReset(after.db, p, had), p, v.recording, ids.record)
            && after.db.packages[p].debugCommitment == (if puts && !faults.row then v.debug else had)
            && after.store == s.store
                 + (if Known(s.db, v.recording.commitment) then {} else {Artifact(v.recording.commitment, Release)})
                 + (if puts then {Artifact(v.recording.commitment, Debug)} else {}))
  {
    var r := v.recording;
    var stored := s.db.FindPackage(r.commitment);
    assert Known(s.db, r.commitment) <==> stored.Some? by {
      if p :| p in s.db.packages && s.db.packages[p].commitment == r.commitment { assert s.db.HasCommitment(p, r.commitment); }
      if stored.Some? { assert s.db.packages[stored.value].commitment == r.commitment; }
    }
    RecordedExactly(s.db, r, ids);
    if VerifyOutcome(s, v, ids, faults).Recorded? {
      var outcome := Registry.Recorded(s.db, stored, r, ids);
      RecordedHasDebug(s.db, stored, r, ids);
      var middle := Contents(outcome.db, AfterPut(s, stored, v).store);
      if !HasDebugBuild(s.db, stored) {
        DebugIsRecorded(middle, outcome.packageId, r.commitment, v.debug, faults);
      }
      ResetIsAsBefore(outcome.db, AfterVerify(s, v, ids, faults).db, outcome.packageId);
    }
  }

  /** The row a verification is recorded for has a debug build exactly when the one read before it had. */
  lemma RecordedHasDebug(db: Db, stored: Option<Id>, r: Recording, ids: NewIds)
    requires db.Consistent() && Unused(db, ids) && stored == db.FindPackage(r.commitment)
    requires Registry.Recorded(db, stored, r, ids).Committed?
    ensures var outcome := Registry.Recorded(db, stored, r, ids);
      && outcome.packageId in outcome.db.packages
      && outcome.db.packages[outcome.packageId].debugCommitment == DebugOf(db, outcome.packageId)
      && (HasDebugBuild(db, stored) <==> DebugOf(db, outcome.packageId).Some?)
  {
    RecordingAddsAtMost(db, stored, r, ids);
    RecordedExactly(db, r, ids);
  }

  lemma ResetIsAsBefore(before: Db, after: Db, p: Id)
    requires p in before.packages && OnlyRowChanges(before, after, p)
    requires after.packages[p].entrypoint == before.packages[p].entrypoint
    ensures DebugReset(after, p, before.packages[p].debugCommitment) == before
  {
    assert DebugReset(after, p, before.packages[p].debugCommitment).packages == before.packages;
  }

  // --- A backfill ---

  /** How the backfill of a row ends, and what it leaves on it: the build's own commitment and, when it had none, the inferred entrypoint. */
  ghost predicate Backfilled(
      row: PackageRow, after: PackageRow, inferred: Option<string>, build: Option<Digest>, faults: Faults, status: BackfillStatus) {
    if row.debugCommitment.Some? then status == AlreadyBuilt(row.debugCommitment.value) && after == row
    else if row.entrypoint == None && inferred == None then status == Ambiguous && after == row
    else if build == None then status == BuildFailed && after == row
    else if faults.debug || faults.row then status == Failure && after == row
    else
      && after.debugCommitment == build
      && if row.entrypoint.Some? then status == Built(build.value) && after.entrypoint == row.entrypoint
         else if faults.entrypoint then status == Failure && after.entrypoint == None
         else status == Built(build.value) && after.entrypoint == inferred
  }

  /** A backfill changes no row but its own, and puts its artifact once everything up to the put has worked. */
  lemma BackfillExactly(s: Contents, p: Id, inferred: Option<string>, build: Option<Digest>, faults: Faults)
    requires s.db.Consistent() && p in s.db.packages
    ensures var row := s.db.packages[p];
      var status, after := BackfillOutcome(s.db.packages, s.db.FindPackage(row.commitment), inferred, build, faults),
                           AfterBackfill(s, row.commitment, inferred, build, faults);
      && OnlyRowChanges(s.db, after.db, p)
      && Backfilled(row, after.db.packages[p], inferred, build, faults, status)
      && after.store == s.store +
           if status.Built? || (status.Failure? && !faults.debug) then {Artifact(row.commitment, Debug)} else {}
  {
    var row := s.db.packages[p];
    FoundByCommitment(s.db, p);
    DebugIsRecorded(s, p, row.commitment, build, faults);
  }

  lemma FoundByCommitment(db: Db, p: Id)
    requires UniquePackages(db.packages) && p in db.packages
    ensures db.FindPackage(db.packages[p].commitment) == Some(p)
  {
    assert db.HasCommitment(p, db.packages[p].commitment);
  }

  lemma NothingToBackfill(s: Contents, commitment: Digest, inferred: Option<string>, build: Option<Digest>, faults: Faults)
    requires !Known(s.db, commitment)
    ensures BackfillOutcome(s.db.packages, s.db.FindPackage(commitment), inferred, build, faults) == NotFound
    ensures AfterBackfill(s, commitment, inferred, build, faults) == s
  {
    var found := s.db.FindPackage(commitment);
    assert found.Some? ==> Known(s.db, commitment);
  }

  // --- A cleanup ---

  /** A completed cleanup takes along exactly both artifacts of each package whose row it removed. */
  lemma CleanupTakesArtifacts(s: Contents, cutoff: int, a: Artifact)
    requires s.db.Consistent()
    ensures var after := AfterCleanup(s, cutoff);
      a in after.store <==>
        && a in s.store
        && !exists p :: p in s.db.packages && p !in after.db.packages && s.db.packages[p].commitment == a.commitment
  {
    CleanUpIsExact(s.db, cutoff);
    NothingCascades(s.db, cutoff);
    var r := CleanUp(s.db, cutoff);
    assert a == Artifact(a.commitment, if a.variant == Release then Release else Debug);
    assert a in ArtifactsOfAll(s.db.packages, r.packages) <==>
           exists p :: p in r.packages && p in s.db.packages && s.db.packages[p].commitment == a.commitment;
  }
}
