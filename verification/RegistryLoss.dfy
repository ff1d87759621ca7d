/**
 When a row loses an artifact it needs, exactly: when a request is about to make the
 row need it while the artifact is gone, or about to be deleted.
 */
module RegistryLoss {
  import opened Wrappers
  import opened Reachability
  import opened Registry
  import opened RegistryCleanup
  import opened RegistryProtocol

  /** The artifacts the rows need: every release build, and the debug builds they record. */
  ghost function Needs(db: Db, variant: Variant): set<Artifact> {
    match variant
    case Release => set p | p in db.packages :: Artifact(db.packages[p].commitment, Release)
    case Debug => set p | p in db.packages && db.packages[p].debugCommitment.Some? :: Artifact(db.packages[p].commitment, Debug)
  }

  lemma NeedsExactly(db: Db, store: set<Artifact>)
    ensures HasRelease(db, store) <==> Needs(db, Release) <= store
    ensures HasDebug(db, store) <==> Needs(db, Debug) <= store
  {
    if HasRelease(db, store) {
      assert Needs(db, Release) <= store;
    }
    if Needs(db, Release) <= store {
      forall p | p in db.packages ensures Artifact(db.packages[p].commitment, Release) in store {
        assert Artifact(db.packages[p].commitment, Release) in Needs(db, Release);
      }
    }
    if Needs(db, Debug) <= store {
      forall p | p in db.packages && db.packages[p].debugCommitment.Some?
        ensures Artifact(db.packages[p].commitment, Debug) in store
      {
        assert Artifact(db.packages[p].commitment, Debug) in Needs(db, Debug);
      }
    }
  }

  // --- Deletions still to come ---

  ghost predicate Pending(w: World, a: Artifact) {
    exists id :: id in w.requests && w.requests[id].CleanupArtifacts? && a in w.requests[id].pending
  }

  /** Gone, or about to be deleted. */
  ghost predicate AtRisk(w: World, a: Artifact) {
    a !in w.store || Pending(w, a)
  }

  /** Whatever the cleanups in flight still delete, the artifacts stay. */
  ghost predicate Safe(w: World, needed: set<Artifact>) {
    forall a | a in needed :: a in w.store && !Pending(w, a)
  }

  ghost predicate Deletion(w: World, w': World) {
    exists id, ids :: id in w.requests && w.requests[id].CleanupArtifacts? && RequestStep(w, id, w', ids)
  }

  ghost function Deletions(): (World, World) -> bool {
    (w: World, w': World) => Deletion(w, w')
  }

  lemma {:induction false} UnusedNumber(used: set<nat>) returns (n: nat)
    ensures forall m | m in used :: m < n
  {
    n := 0;
    if used != {} {
      var m :| m in used;
      var above := UnusedNumber(used - {m});
      n := if above <= m then m + 1 else above;
      assert forall k | k in used :: k == m || k in used - {m};
    }
  }

  /** New row ids can always be drawn. */
  lemma UnusedIds(w: World) returns (ids: NewIds)
    ensures FreshIds(w, ids) && Unused(w.db, ids)
  {
    var n := UnusedNumber(
      w.issued + w.db.packages.Keys + w.db.accounts.Keys + w.db.components.Keys + w.db.notes.Keys);
    ids := NewIds(n, n, n);
  }

  /** The world after one step of a request. */
  function Stepped(w: World, id: RequestId, db: Db, store: set<Artifact>, next: Request, ids: NewIds): World {
    World(db, store, w.requests[id := next], w.issued + {ids.package, ids.account, ids.record})
  }

  /** A cleanup in flight can always delete the next of its artifacts. */
  lemma CanDelete(w: World, id: RequestId) returns (after: World)
    requires id in w.requests && w.requests[id].CleanupArtifacts? && w.requests[id].pending != []
    ensures Deletion(w, after) && after.db == w.db && after.store == w.store - {w.requests[id].pending[0]}
    ensures id in after.requests && after.requests[id] == CleanupArtifacts(w.requests[id].pending[1..])
  {
    var ids := UnusedIds(w);
    var pending := w.requests[id].pending;
    after := Stepped(w, id, w.db, w.store - {pending[0]}, CleanupArtifacts(pending[1..]), ids);
    assert CleanupStep(w, w.requests[id], after.db, after.store, after.requests[id]);
    assert RequestStep(w, id, after, ids);
  }

  /** What is pending can be deleted by the cleanup's own steps. */
  lemma {:induction false} CanDrain(w: World, id: RequestId, a: Artifact) returns (after: World)
    requires id in w.requests && w.requests[id].CleanupArtifacts? && a in w.requests[id].pending
    ensures Reaches(Deletions(), w, after) && after.db == w.db && a !in after.store
    decreases |w.requests[id].pending|
  {
    var pending := w.requests[id].pending;
    var next := CanDelete(w, id);
    ReachesSelf(Deletions(), w);
    ReachesNext(Deletions(), w, w, next);
    if a in pending[1..] {
      after := CanDrain(next, id, a);
      ReachesOn(Deletions(), w, next, after);
    } else {
      assert pending == [pending[0]] + pending[1..];
      after := next;
    }
  }

  ghost predicate KeptByDeletions(w: World, needed: set<Artifact>) {
    forall after | Reaches(Deletions(), w, after) :: needed <= after.store
  }

  /** Safe is what no deletion in flight can undo. */
  lemma SafeExactly(w: World, needed: set<Artifact>)
    ensures Safe(w, needed) <==> KeptByDeletions(w, needed)
  {
    if Safe(w, needed) {
      var safe := (x: World) => Safe(x, needed);
      forall a, b | safe(a) && Deletions()(a, b) ensures safe(b) {}
      forall after | Reaches(Deletions(), w, after) ensures needed <= after.store { Kept(Deletions(), safe, w, after); }
    } else {
      var a :| a in needed && !(a in w.store && !Pending(w, a));
      if a !in w.store {
        ReachesSelf(Deletions(), w);
      } else {
        var id :| id in w.requests && w.requests[id].CleanupArtifacts? && a in w.requests[id].pending;
        var after := CanDrain(w, id, a);
      }
    }
  }

  // --- What a step makes a row need ---

  /** What the next step of a request makes a row need that it may not have needed. */
  ghost predicate AddsNeed(db: Db, r: Request, a: Artifact) {
    match r
    case VerifyRecord(v, stored, _) =>
      // A package the registry does not have, unless its verification is refused.
      && stored.None? && db.FindPackage(v.recording.commitment).None? && !Verified(db, v.recording)
      && a == Artifact(v.recording.commitment, Release)
    case VerifySetDebug(v, p) => v.debug.Some? && p in db.packages && a == Artifact(db.packages[p].commitment, Debug)
    case BackfillSetDebug(_, p, _, _) => p in db.packages && a == Artifact(db.packages[p].commitment, Debug)
    case _ => false
  }

  /** A request is about to make a row need an artifact that is gone, or is about to be deleted. */
  ghost predicate Exposed(w: World, variant: Variant) {
    exists id, a :: id in w.requests && AddsNeed(w.db, w.requests[id], a) && a.variant == variant && AtRisk(w, a)
  }

  /** What a request's step does: no row needs more than it did or the step makes it need, and only what the request deletes is lost. */
  ghost predicate Bounded(w: World, r: Request, db: Db, store: set<Artifact>, next: Request, variant: Variant) {
    && (forall a | a in Needs(db, variant) :: a in Needs(w.db, variant) || AddsNeed(w.db, r, a))
    && (forall a | a in w.store && a !in store :: r.CleanupArtifacts? && a in r.pending)
    && (forall a | next.CleanupArtifacts? && a in next.pending :: (r.CleanupArtifacts? && a in r.pending) || a !in Needs(db, variant))
  }

  lemma RecordNeeds(w: World, v: Verification, stored: Option<Id>, hasDebug: bool, ids: NewIds, variant: Variant)
    requires w.db.Consistent()
    ensures forall a | a in Needs(AfterRecording(w.db, stored, v.recording, ids), variant) ::
              a in Needs(w.db, variant) || AddsNeed(w.db, VerifyRecord(v, stored, hasDebug), a)
  {
    var r := v.recording;
    var after := AfterRecording(w.db, stored, r, ids);
    RecordingAddsAtMost(w.db, stored, r, ids);
    forall a | a in Needs(after, variant) && a !in Needs(w.db, variant) ensures AddsNeed(w.db, VerifyRecord(v, stored, hasDebug), a) {}
  }

  lemma VerifyIsBounded(w: World, r: Request, db: Db, store: set<Artifact>, next: Request, ids: NewIds, variant: Variant)
    requires Ready(w, r, ids) && VerifyStep(w, r, db, store, next, ids)
    ensures Bounded(w, r, db, store, next, variant)
  {
    if r.VerifyRecord? { RecordNeeds(w, r.v, r.stored, r.hasDebug, ids, variant); }
  }

  lemma CleanupIsBounded(w: World, r: Request, db: Db, store: set<Artifact>, next: Request, ids: NewIds, variant: Variant)
    requires Ready(w, r, ids) && CleanupStep(w, r, db, store, next)
    ensures Bounded(w, r, db, store, next, variant)
  {
    if r.CleanupRecords? {
      CleanedContinues(w.db, w.issued, r.cutoff);
      var removed := CleanUp(w.db, r.cutoff).packages;
      var order :| Orders(order, removed) && next.pending == ArtifactsOf(w.db, order);
      forall a | a in next.pending ensures a !in Needs(db, variant) {
        var i :| 0 <= i < |next.pending| && next.pending[i] == a;
        ListedWereRemoved(w.db, order, i);
      }
    }
  }

  lemma RequestIsBounded(w: World, r: Request, db: Db, store: set<Artifact>, next: Request, ids: NewIds, variant: Variant)
    requires Ready(w, r, ids)
    requires VerifyStep(w, r, db, store, next, ids) || BackfillStep(w, r, db, store, next)
             || CleanupStep(w, r, db, store, next) || StopStep(w, db, store, next)
    ensures Bounded(w, r, db, store, next, variant)
  {
    if VerifyStep(w, r, db, store, next, ids) {
      VerifyIsBounded(w, r, db, store, next, ids, variant);
    } else if BackfillStep(w, r, db, store, next) {
    } else if CleanupStep(w, r, db, store, next) {
      CleanupIsBounded(w, r, db, store, next, ids, variant);
    }
  }

  /** A bounded step of a request exposed to nothing leaves what is then needed safe. */
  lemma BoundedKeepsSafe(w: World, id: RequestId, w': World, variant: Variant)
    requires Safe(w, Needs(w.db, variant)) && !Exposed(w, variant)
    requires id in w.requests && id in w'.requests && w'.requests == w.requests[id := w'.requests[id]]
    requires Bounded(w, w.requests[id], w'.db, w'.store, w'.requests[id], variant)
    ensures Safe(w', Needs(w'.db, variant))
  {
    forall a | a in Needs(w'.db, variant) ensures a in w'.store && !Pending(w', a) {
      assert a.variant == variant;
      assert a in w.store && !Pending(w, a);
    }
  }

  lemma StepKeepsSafe(w: World, w': World, variant: Variant)
    requires Tables(w) && Safe(w, Needs(w.db, variant)) && !Exposed(w, variant) && Step(w, w')
    ensures Safe(w', Needs(w'.db, variant))
  {
    if id :| ArriveStep(w, id, w') {
    } else {
      var id, ids :| RequestStep(w, id, w', ids);
      RequestIsBounded(w, w.requests[id], w'.db, w'.store, w'.requests[id], ids, variant);
      BoundedKeepsSafe(w, id, w', variant);
    }
  }

  // --- What exposure costs ---

  lemma RecordingAddsNeed(w: World, id: RequestId, a: Artifact) returns (after: World)
    requires Tables(w) && id in w.requests && w.requests[id].VerifyRecord? && AddsNeed(w.db, w.requests[id], a)
    ensures Step(w, after) && a in Needs(after.db, Release) && after.store == w.store
    ensures id in after.requests && after.requests == w.requests[id := after.requests[id]]
  {
    var ids := UnusedIds(w);
    var r := w.requests[id];
    RecordedExactly(w.db, r.v.recording, ids);
    var outcome := Recorded(w.db, None, r.v.recording, ids);
    var next := if r.hasDebug || r.v.debug.None? then Finished else VerifyPutDebug(r.v, outcome.packageId);
    after := Stepped(w, id, outcome.db, w.store, next, ids);
    assert VerifyStep(w, r, after.db, after.store, next, ids);
    assert RequestStep(w, id, after, ids);
    assert outcome.db.packages[outcome.packageId].commitment == r.v.recording.commitment;
  }

  lemma SettingDebugAddsNeed(w: World, id: RequestId, a: Artifact) returns (after: World)
    requires id in w.requests && !w.requests[id].VerifyRecord? && AddsNeed(w.db, w.requests[id], a)
    ensures Step(w, after) && a in Needs(after.db, Debug) && after.store == w.store
    ensures id in after.requests && after.requests == w.requests[id := after.requests[id]]
  {
    var ids := UnusedIds(w);
    var r := w.requests[id];
    if r.VerifySetDebug? {
      after := Stepped(w, id, SetDebug(w.db, r.package, r.v.debug.value), w.store, Finished, ids);
      assert VerifyStep(w, r, after.db, after.store, Finished, ids);
    } else {
      var next := match r.newEntrypoint case Some(e) => BackfillSetEntrypoint(r.commitment, r.package, e) case None => Finished;
      after := Stepped(w, id, SetDebug(w.db, r.package, r.build), w.store, next, ids);
      assert BackfillStep(w, r, after.db, after.store, next);
    }
    assert RequestStep(w, id, after, ids);
    assert r.package in after.db.packages && after.db.packages[r.package].debugCommitment.Some?;
  }

  lemma NeedIsAdded(w: World, id: RequestId, a: Artifact) returns (after: World)
    requires Tables(w) && id in w.requests && AddsNeed(w.db, w.requests[id], a)
    ensures Step(w, after) && a in Needs(after.db, a.variant) && after.store == w.store
    ensures id in after.requests && after.requests == w.requests[id := after.requests[id]]
  {
    if w.requests[id].VerifyRecord? {
      after := RecordingAddsNeed(w, id, a);
    } else {
      after := SettingDebugAddsNeed(w, id, a);
    }
  }

  lemma PendingStays(w: World, id: RequestId, after: World, a: Artifact)
    requires id in w.requests && !w.requests[id].CleanupArtifacts? && id in after.requests
    requires after.requests == w.requests[id := after.requests[id]] && Pending(w, a)
    ensures Pending(after, a)
  {
    var k :| k in w.requests && w.requests[k].CleanupArtifacts? && a in w.requests[k].pending;
    assert k in after.requests && after.requests[k] == w.requests[k];
  }

  lemma PendingIsLost(w: World, a: Artifact) returns (lost: World)
    requires AtRisk(w, a)
    ensures Reaches(Deletions(), w, lost) && lost.db == w.db && a !in lost.store
  {
    if a !in w.store {
      lost := w;
      ReachesSelf(Deletions(), w);
    } else {
      var k :| k in w.requests && w.requests[k].CleanupArtifacts? && a in w.requests[k].pending;
      lost := CanDrain(w, k, a);
    }
  }

  /** An exposed request's own next step, then deletions already in flight, lose what a row needs. */
  lemma ExposureLoses(w: World, variant: Variant) returns (after: World, lost: World)
    requires Tables(w) && Exposed(w, variant)
    ensures Step(w, after) && Reaches(Deletions(), after, lost) && lost.db == after.db && !(Needs(lost.db, variant) <= lost.store)
  {
    var id, a :| id in w.requests && AddsNeed(w.db, w.requests[id], a) && a.variant == variant && AtRisk(w, a);
    after := NeedIsAdded(w, id, a);
    if Pending(w, a) { PendingStays(w, id, after, a); }
    lost := PendingIsLost(after, a);
  }

  /** After one step of any request or arrival, no deletion in flight takes what a row needs. */
  ghost predicate NextIsSafe(w: World, variant: Variant) {
    forall after | Step(w, after) :: KeptByDeletions(after, Needs(after.db, variant))
  }

  /**
   The exact condition, for the release and the debug artifacts each: from a
   state whose artifacts no deletion in flight can take, the next step keeps it
   so exactly when no request is exposed.
   */
  lemma LossExactly(w: World, variant: Variant)
    requires Tables(w) && Safe(w, Needs(w.db, variant))
    ensures NextIsSafe(w, variant) <==> !Exposed(w, variant)
  {
    if Exposed(w, variant) {
      var after, lost := ExposureLoses(w, variant);
    } else {
      forall after | Step(w, after) ensures KeptByDeletions(after, Needs(after.db, variant)) {
        StepKeepsSafe(w, after, variant);
        SafeExactly(after, Needs(after.db, variant));
      }
    }
  }

  ghost function UnexposedSteps(variant: Variant): (World, World) -> bool {
    (w: World, w': World) => !Exposed(w, variant) && Step(w, w')
  }

  /**
   So a run none of whose states exposes a request never loses what a row needs,
   and from the first state of a run that does, a loss can follow.
   */
  lemma RunLosesExactly(w: World, w': World, variant: Variant)
    requires Tables(w) && Safe(w, Needs(w.db, variant)) && Reaches(UnexposedSteps(variant), w, w')
    ensures Tables(w') && (if variant == Release then HasRelease(w'.db, w'.store) else HasDebug(w'.db, w'.store))
    ensures NextIsSafe(w', variant) <==> !Exposed(w', variant)
  {
    var safe := (x: World) => Tables(x) && Safe(x, Needs(x.db, variant));
    forall a, b | safe(a) && UnexposedSteps(variant)(a, b) ensures safe(b) {
      StepKeepsTables(a, b);
      StepKeepsSafe(a, b, variant);
    }
    Kept(UnexposedSteps(variant), safe, w, w');
    NeedsExactly(w'.db, w'.store);
    LossExactly(w', variant);
  }

  // --- Races of cleanups and verifications ---

  /** A verification about to record anew a package whose artifact a cleanup in flight deletes, and not refused. */
  ghost predicate Race(w: World, j: RequestId, a: Artifact) {
    && j in w.requests && w.requests[j].RecordsNew(a.commitment) && !Verified(w.db, w.requests[j].v.recording)
    && Pending(w, a)
  }

  lemma ExposedIsRace(w: World, id: RequestId, a: Artifact)
    requires Artifacts(w) && id in w.requests && AddsNeed(w.db, w.requests[id], a) && AtRisk(w, a)
    ensures Race(w, id, a) && a.variant == Release
  {
    assert Stored(w.db, w.store, w.requests[id]) && Known(w.db, w.issued, w.requests[id]);
  }

  lemma RaceIsExposed(w: World, id: RequestId, a: Artifact)
    requires Artifacts(w) && Race(w, id, a) && a.variant == Release
    ensures AddsNeed(w.db, w.requests[id], a)
  {
  }

  ghost predicate ReleaseRace(w: World) {
    exists j, a :: Race(w, j, a) && a.variant == Release
  }

  lemma ExposedExactly(w: World, variant: Variant)
    requires Artifacts(w)
    ensures Exposed(w, variant) <==> variant == Release && ReleaseRace(w)
  {
    if Exposed(w, variant) {
      var id, a :| id in w.requests && AddsNeed(w.db, w.requests[id], a) && a.variant == variant && AtRisk(w, a);
      ExposedIsRace(w, id, a);
    }
    if variant == Release && ReleaseRace(w) {
      var j, a :| Race(w, j, a) && a.variant == Release;
      RaceIsExposed(w, j, a);
    }
  }

  /**
   In the states quiet runs go through, the next step can cost a row its release
   artifact exactly when a race over one is on, and no row its debug artifact.
   */
  lemma RaceExactly(w: World)
    requires Artifacts(w)
    ensures NextIsSafe(w, Release) <==> !ReleaseRace(w)
    ensures NextIsSafe(w, Debug)
  {
    forall variant: Variant ensures NextIsSafe(w, variant) <==> !(variant == Release && ReleaseRace(w)) {
      ExposedExactly(w, variant);
      LossExactly(w, variant);
    }
  }

  lemma DeletionsAreSteps(w: World, w': World)
    requires Reaches(Deletions(), w, w')
    ensures Reaches(Steps(), w, w')
  {
    var reached := (x: World) => Reaches(Steps(), w, x);
    ReachesSelf(Steps(), w);
    forall a, b | reached(a) && Deletions()(a, b) ensures reached(b) { ReachesNext(Steps(), w, a, b); }
    Kept(Deletions(), reached, w, w');
  }

  lemma ExposureIsReached(w: World, exposed: World, variant: Variant) returns (lost: World)
    requires Tables(w) && Reaches(Steps(), w, exposed) && Exposed(exposed, variant)
    ensures Reaches(Steps(), w, lost) && Tables(lost) && !(Needs(lost.db, variant) <= lost.store)
  {
    RunKeepsTables(w, exposed);
    var after;
    after, lost := ExposureLoses(exposed, variant);
    ReachesNext(Steps(), w, exposed, after);
    DeletionsAreSteps(after, lost);
    ReachesOn(Steps(), w, after, lost);
    RunKeepsTables(w, lost);
  }

  // --- Every race can lose its artifact ---

  lemma RequestStepped(w: World, id: RequestId, db: Db, store: set<Artifact>, next: Request, ids: NewIds)
    requires id in w.requests && FreshIds(w, ids)
    requires VerifyStep(w, w.requests[id], db, store, next, ids) || BackfillStep(w, w.requests[id], db, store, next)
    ensures Step(w, Stepped(w, id, db, store, next, ids))
  {
    assert RequestStep(w, id, Stepped(w, id, db, store, next, ids), ids);
  }

  lemma BackfillTo(w: World, from: World, id: RequestId, store: set<Artifact>, next: Request) returns (to: World)
    requires Reaches(Steps(), w, from) && id in from.requests && !from.requests[id].CleanupArtifacts?
    requires BackfillStep(from, from.requests[id], from.db, store, next)
    ensures Reaches(Steps(), w, to) && to.db == from.db && id in to.requests && to.requests[id] == next
    ensures forall a | Pending(from, a) :: Pending(to, a)
  {
    var ids := UnusedIds(from);
    to := Stepped(from, id, from.db, store, next, ids);
    RequestStepped(from, id, from.db, store, next, ids);
    ReachesNext(Steps(), w, from, to);
    forall a | Pending(from, a) ensures Pending(to, a) { PendingStays(from, id, to, a); }
  }

  lemma BackfillArrives(w: World, commitment: Digest) returns (arrived: World, id: RequestId)
    ensures Reaches(Steps(), w, arrived) && arrived.db == w.db && arrived.store == w.store
    ensures id in arrived.requests && arrived.requests[id] == BackfillRead(commitment, Some("."))
    ensures forall a | Pending(w, a) :: Pending(arrived, a)
  {
    id := UnusedNumber(w.requests.Keys);
    arrived := w.(requests := w.requests[id := BackfillRead(commitment, Some("."))]);
    assert ArriveStep(w, id, arrived);
    ReachesSelf(Steps(), w);
    ReachesNext(Steps(), w, w, arrived);
    forall a | Pending(w, a) ensures Pending(arrived, a) {
      var k :| k in w.requests && w.requests[k].CleanupArtifacts? && a in w.requests[k].pending;
      assert k in arrived.requests && arrived.requests[k] == w.requests[k];
    }
  }

  /** A row without a debug build can come to need one: a backfill arrives and gets as far as recording it. */
  lemma BackfillIsExposed(w: World, p: Id, a: Artifact) returns (exposed: World)
    requires a.variant == Debug && Pending(w, a) && w.db.FindPackage(a.commitment) == Some(p)
    requires w.db.packages[p].debugCommitment.None?
    ensures Reaches(Steps(), w, exposed) && Exposed(exposed, Debug)
  {
    var entrypoint := if w.db.packages[p].entrypoint.Some? then None else Some(".");
    var arrived, id := BackfillArrives(w, a.commitment);
    var read := BackfillTo(w, arrived, id, arrived.store, BackfillBuild(a.commitment, p, entrypoint));
    var built := BackfillTo(w, read, id, read.store, BackfillPut(a.commitment, p, entrypoint, 0));
    exposed := BackfillTo(w, built, id, built.store + {a}, BackfillSetDebug(a.commitment, p, entrypoint, 0));
    assert AddsNeed(exposed.db, exposed.requests[id], a) && AtRisk(exposed, a);
  }

  lemma NeededRow(db: Db, commitment: Digest) returns (p: Id)
    requires Artifact(commitment, Release) in Needs(db, Release)
    ensures db.FindPackage(commitment) == Some(p) && db.HasCommitment(p, commitment)
  {
    var q :| q in db.packages && db.packages[q].commitment == commitment;
    assert db.HasCommitment(q, commitment);
    p := db.FindPackage(commitment).value;
  }

  lemma PendingDebugCanBeLost(w: World, a: Artifact) returns (lost: World)
    requires Tables(w) && a.variant == Debug && Pending(w, a) && Artifact(a.commitment, Release) in Needs(w.db, Release)
    ensures Reaches(Steps(), w, lost) && Tables(lost) && !(Needs(lost.db, Debug) <= lost.store)
  {
    var p := NeededRow(w.db, a.commitment);
    if w.db.packages[p].debugCommitment.Some? {
      lost := PendingIsLost(w, a);
      DeletionsAreSteps(w, lost);
      RunKeepsTables(w, lost);
      assert a in Needs(lost.db, Debug);
    } else {
      var exposed := BackfillIsExposed(w, p, a);
      lost := ExposureIsReached(w, exposed, Debug);
    }
  }

  /**
   From every state quiet runs go through in which a race is on, over a release or
   a debug artifact, some run loses that artifact to a row that needs it.
   */
  lemma RaceCanLose(w: World, j: RequestId, a: Artifact) returns (lost: World)
    requires Artifacts(w) && Race(w, j, a)
    ensures Reaches(Steps(), w, lost) && Tables(lost) && !(Needs(lost.db, a.variant) <= lost.store)
    ensures !HasArtifacts(lost.db, lost.store)
  {
    var release := Artifact(a.commitment, Release);
    ReachesSelf(Steps(), w);
    assert AddsNeed(w.db, w.requests[j], release);
    if a == release {
      assert Exposed(w, Release);
      lost := ExposureIsReached(w, w, Release);
    } else {
      var recorded := NeedIsAdded(w, j, release);
      PendingStays(w, j, recorded, a);
      ReachesNext(Steps(), w, w, recorded);
      StepKeepsTables(w, recorded);
      lost := PendingDebugCanBeLost(recorded, a);
      ReachesOn(Steps(), w, recorded, lost);
    }
  }
}
