/**
 The registry's requests interleaved at their awaits, each free to stop anywhere:
 verifications, backfills of debug builds, and cleanups, over the tables and the
 artifact store.
 */
module RegistryProtocol {
  import opened Wrappers
  import opened Reachability
  import opened Registry
  import opened RegistryCleanup

  type RequestId = nat

  /** What a verification is for and what its build came to; `debug` is the debug build's commitment. */
  datatype Verification = Verification(recording: Recording, debug: Option<Digest>)

  /**
   Where a request stands, named after what it is about to do. `package` is the
   id of the row it works on.
   */
  datatype Request =
    // A verified build: read the package, store its artifact if it is new, record it, add a debug build if it has none.
    | VerifyRead(v: Verification)
    | VerifyPut(v: Verification)
    | VerifyRecord(v: Verification, stored: Option<Id>, hasDebug: bool)
    | VerifyPutDebug(v: Verification, package: Id)
    | VerifySetDebug(v: Verification, package: Id)
    // The debug build of a stored package; `inferred` is the entrypoint its files give, when they give one.
    | BackfillRead(commitment: Digest, inferred: Option<string>)
    | BackfillBuild(commitment: Digest, package: Id, newEntrypoint: Option<string>)
    | BackfillPut(commitment: Digest, package: Id, newEntrypoint: Option<string>, build: Digest)
    | BackfillSetDebug(commitment: Digest, package: Id, newEntrypoint: Option<string>, build: Digest)
    | BackfillSetEntrypoint(commitment: Digest, package: Id, entrypoint: string)
    // The cleanup: its transaction, then its artifacts, one at a time.
    | CleanupRecords(cutoff: int)
    | CleanupArtifacts(pending: seq<Artifact>)
    | Finished
  {
    /** About to record a package the registry did not have. */
    predicate RecordsNew(commitment: Digest) {
      VerifyRecord? && stored.None? && v.recording.commitment == commitment
    }

    predicate Deletes(commitment: Digest) {
      CleanupArtifacts? && exists i :: 0 <= i < |pending| && pending[i].commitment == commitment
    }
  }

  /** `issued` holds every row id ever drawn: they are never drawn twice. */
  datatype World = World(db: Db, store: set<Artifact>, requests: map<RequestId, Request>, issued: set<Id>)

  function SetDebug(db: Db, package: Id, build: Digest): Db {
    if package in db.packages
    then db.(packages := db.packages[package := db.packages[package].(debugCommitment := Some(build))]) else db
  }

  function SetEntrypoint(db: Db, package: Id, entrypoint: string): Db {
    if package in db.packages
    then db.(packages := db.packages[package := db.packages[package].(entrypoint := Some(entrypoint))]) else db
  }

  /** Both artifacts of each package, package after package. */
  function ArtifactsOf(db: Db, order: seq<Id>): seq<Artifact>
    requires forall i | 0 <= i < |order| :: order[i] in db.packages
  {
    if order == [] then []
    else
      var commitment := db.packages[order[0]].commitment;
      [Artifact(commitment, Release), Artifact(commitment, Debug)] + ArtifactsOf(db, order[1..])
  }

  /** The rows of a set, in whatever order the database returns them. */
  ghost predicate Orders(order: seq<Id>, ids: set<Id>) {
    && (forall i, j | 0 <= i < j < |order| :: order[i] != order[j])
    && (forall i | 0 <= i < |order| :: order[i] in ids)
    && (forall id | id in ids :: id in order)
  }

  ghost predicate ListsArtifacts(pending: seq<Artifact>, db: Db, packages: set<Id>)
    requires packages <= db.packages.Keys
  {
    exists order :: Orders(order, packages) && pending == ArtifactsOf(db, order)
  }

  // --- One request's next step: what it does, and where it then stands ---

  ghost predicate VerifyStep(w: World, r: Request, db: Db, store: set<Artifact>, next: Request, ids: NewIds) {
    match r
    case VerifyRead(v) =>
      && db == w.db && store == w.store
      && next == (match w.db.FindPackage(v.recording.commitment)
                  case None => VerifyPut(v)
                  case Some(p) => VerifyRecord(v, Some(p), w.db.packages[p].debugCommitment.Some?))
    case VerifyPut(v) =>
      db == w.db && store == w.store + {Artifact(v.recording.commitment, Release)} && next == VerifyRecord(v, None, false)
    case VerifyRecord(v, stored, hasDebug) =>
      && db == AfterRecording(w.db, stored, v.recording, ids) && store == w.store
      && next == (match Recorded(w.db, stored, v.recording, ids)
                  case Committed(_, p) => if hasDebug || v.debug.None? then Finished else VerifyPutDebug(v, p)
                  case _ => Finished)
    case VerifyPutDebug(v, p) =>
      db == w.db && store == w.store + {Artifact(v.recording.commitment, Debug)} && next == VerifySetDebug(v, p)
    case VerifySetDebug(v, p) =>
      v.debug.Some? && db == SetDebug(w.db, p, v.debug.value) && store == w.store && next == Finished
    case _ => false
  }

  ghost predicate BackfillStep(w: World, r: Request, db: Db, store: set<Artifact>, next: Request) {
    match r
    case BackfillRead(c, inferred) =>
      && db == w.db && store == w.store
      && next == (match w.db.FindPackage(c)
                  case None => Finished
                  case Some(p) =>
                    var row := w.db.packages[p];
                    if row.debugCommitment.Some? || (row.entrypoint.None? && inferred.None?) then Finished
                    else BackfillBuild(c, p, if row.entrypoint.Some? then None else inferred))
    case BackfillBuild(c, p, entrypoint) =>
      db == w.db && store == w.store && next.BackfillPut? && next == BackfillPut(c, p, entrypoint, next.build)
    case BackfillPut(c, p, entrypoint, build) =>
      db == w.db && store == w.store + {Artifact(c, Debug)} && next == BackfillSetDebug(c, p, entrypoint, build)
    case BackfillSetDebug(c, p, entrypoint, build) =>
      && db == SetDebug(w.db, p, build) && store == w.store
      && next == (match entrypoint case Some(e) => BackfillSetEntrypoint(c, p, e) case None => Finished)
    case BackfillSetEntrypoint(c, p, e) => db == SetEntrypoint(w.db, p, e) && store == w.store && next == Finished
    case _ => false
  }

  ghost predicate CleanupStep(w: World, r: Request, db: Db, store: set<Artifact>, next: Request) {
    match r
    case CleanupRecords(cutoff) =>
      && db == CleanUp(w.db, cutoff).db && store == w.store
      && next.CleanupArtifacts?
      && var removed := CleanUp(w.db, cutoff).packages;
         removed <= w.db.packages.Keys && ListsArtifacts(next.pending, w.db, removed)
    case CleanupArtifacts(pending) =>
      && db == w.db
      && if pending == [] then store == w.store && next == Finished
         else store == w.store - {pending[0]} && next == CleanupArtifacts(pending[1..])
    case _ => false
  }

  /** A request can stop at any await: it is never heard of again. */
  ghost predicate StopStep(w: World, db: Db, store: set<Artifact>, next: Request) {
    db == w.db && store == w.store && next == Finished
  }

  predicate FreshIds(w: World, ids: NewIds) {
    ids.package !in w.issued && ids.account !in w.issued && ids.record !in w.issued
  }

  ghost predicate RequestStep(w: World, id: RequestId, w': World, ids: NewIds) {
    && id in w.requests && id in w'.requests && w'.requests == w.requests[id := w'.requests[id]]
    && FreshIds(w, ids) && w'.issued == w.issued + {ids.package, ids.account, ids.record}
    && var r, next := w.requests[id], w'.requests[id];
       || VerifyStep(w, r, w'.db, w'.store, next, ids)
       || BackfillStep(w, r, w'.db, w'.store, next)
       || CleanupStep(w, r, w'.db, w'.store, next)
       || StopStep(w, w'.db, w'.store, next)
  }

  ghost predicate Starts(r: Request) {
    r.VerifyRead? || r.BackfillRead? || r.CleanupRecords?
  }

  ghost predicate ArriveStep(w: World, id: RequestId, w': World) {
    id !in w.requests && id in w'.requests && Starts(w'.requests[id]) && w' == w.(requests := w.requests[id := w'.requests[id]])
  }

  ghost predicate Step(w: World, w': World) {
    || (exists id :: ArriveStep(w, id, w'))
    || (exists id, ids :: RequestStep(w, id, w', ids))
  }

  ghost function Steps(): (World, World) -> bool {
    (w: World, w': World) => Step(w, w')
  }

  // --- What holds with no assumption on the schedule ---

  /** A row id a request holds: drawn before, and if the row is still there, of this commitment. */
  ghost predicate PackageIs(db: Db, issued: set<Id>, p: Id, commitment: Digest) {
    p in issued && Names(db, Some(p), commitment)
  }

  ghost predicate Known(db: Db, issued: set<Id>, r: Request) {
    match r
    case VerifyRecord(v, stored, _) => stored.Some? ==> PackageIs(db, issued, stored.value, v.recording.commitment)
    case VerifyPutDebug(v, p) => PackageIs(db, issued, p, v.recording.commitment)
    case VerifySetDebug(v, p) => PackageIs(db, issued, p, v.recording.commitment)
    case BackfillBuild(c, p, _) => PackageIs(db, issued, p, c)
    case BackfillPut(c, p, _, _) => PackageIs(db, issued, p, c)
    case BackfillSetDebug(c, p, _, _) => PackageIs(db, issued, p, c)
    case BackfillSetEntrypoint(c, p, _) => PackageIs(db, issued, p, c)
    case _ => true
  }

  ghost predicate Tables(w: World) {
    && w.db.Consistent() && w.db.packages.Keys <= w.issued
    && forall id | id in w.requests :: Known(w.db, w.issued, w.requests[id])
  }

  /** Rows drawn earlier only disappear or keep their commitment. */
  ghost predicate Continues(db: Db, issued: set<Id>, db': Db, issued': set<Id>) {
    && issued <= issued'
    && forall p | p in issued && p in db'.packages :: p in db.packages && db'.packages[p].commitment == db.packages[p].commitment
  }

  /** The transaction leaves the packages alone or adds one row, of the commitment, that was not there. */
  ghost predicate AddsAtMost(packages: map<Id, PackageRow>, after: map<Id, PackageRow>, id: Id, row: PackageRow) {
    after == packages || (id !in packages && after == packages[id := row])
  }

  lemma RecordingAddsAtMost(db: Db, stored: Option<Id>, r: Recording, ids: NewIds)
    ensures AddsAtMost(db.packages, AfterRecording(db, stored, r, ids).packages,
                       ids.package, PackageRow(r.commitment, Some(r.entrypoint), None))
    ensures stored.Some? ==> AfterRecording(db, stored, r, ids).packages == db.packages
    ensures Recorded(db, stored, r, ids).Committed? ==>
              var p := Recorded(db, stored, r, ids).packageId;
              if stored.Some? then p == stored.value else AfterRecording(db, stored, r, ids).HasCommitment(p, r.commitment)
  {}

  lemma RecordedContinues(db: Db, issued: set<Id>, stored: Option<Id>, r: Recording, ids: NewIds)
    requires db.Consistent() && db.packages.Keys <= issued && ids.package !in issued
    requires stored.Some? ==> PackageIs(db, issued, stored.value, r.commitment)
    ensures var db' := AfterRecording(db, stored, r, ids);
            && db'.Consistent() && db'.packages.Keys <= issued + {ids.package}
            && Continues(db, issued, db', issued + {ids.package})
            && (Recorded(db, stored, r, ids).Committed? ==>
                  PackageIs(db', issued + {ids.package}, Recorded(db, stored, r, ids).packageId, r.commitment))
  {
    RecordingKeepsConsistent(db, stored, r, ids);
    RecordingAddsAtMost(db, stored, r, ids);
  }

  lemma CleanedContinues(db: Db, issued: set<Id>, cutoff: int)
    requires db.Consistent() && db.packages.Keys <= issued
    ensures var r := CleanUp(db, cutoff);
            && r.db.Consistent() && r.db.packages == db.packages - r.packages && r.packages <= db.packages.Keys
            && Continues(db, issued, r.db, issued)
  {
    CleanUpKeepsConsistent(db, cutoff);
    NothingCascades(db, cutoff);
  }

  /** A row changed in something other than its commitment. */
  ghost predicate ChangesRow(db: Db, db': Db) {
    && db' == db.(packages := db'.packages) && db'.packages.Keys == db.packages.Keys
    && forall p | p in db.packages :: db'.packages[p].commitment == db.packages[p].commitment
  }

  lemma SettingChangesRow(db: Db, package: Id, build: Digest, entrypoint: string)
    ensures ChangesRow(db, SetDebug(db, package, build)) && ChangesRow(db, SetEntrypoint(db, package, entrypoint))
  {}

  lemma SettingContinues(db: Db, issued: set<Id>, package: Id, build: Digest, entrypoint: string)
    requires db.Consistent() && db.packages.Keys <= issued
    ensures var db' := SetDebug(db, package, build);
            db'.Consistent() && db'.packages.Keys <= issued && Continues(db, issued, db', issued)
    ensures var db' := SetEntrypoint(db, package, entrypoint);
            db'.Consistent() && db'.packages.Keys <= issued && Continues(db, issued, db', issued)
  {
    SettingChangesRow(db, package, build, entrypoint);
  }

  function Drawn(w: World, ids: NewIds): set<Id> {
    w.issued + {ids.package, ids.account, ids.record}
  }

  /** What one step of a request does to the tables, and what it then knows. */
  ghost predicate Proceeds(w: World, db: Db, next: Request, ids: NewIds) {
    && db.Consistent() && db.packages.Keys <= Drawn(w, ids)
    && Continues(w.db, w.issued, db, Drawn(w, ids)) && Known(db, Drawn(w, ids), next)
  }

  ghost predicate Ready(w: World, r: Request, ids: NewIds) {
    w.db.Consistent() && w.db.packages.Keys <= w.issued && Known(w.db, w.issued, r) && FreshIds(w, ids)
  }

  lemma VerifyProceeds(w: World, r: Request, db: Db, store: set<Artifact>, next: Request, ids: NewIds)
    requires Ready(w, r, ids) && VerifyStep(w, r, db, store, next, ids)
    ensures Proceeds(w, db, next, ids)
  {
    match r
    case VerifyRecord(v, stored, _) => RecordedContinues(w.db, w.issued, stored, v.recording, ids);
    case VerifySetDebug(v, p) => SettingContinues(w.db, w.issued, p, v.debug.value, "");
    case _ =>
  }

  lemma BackfillProceeds(w: World, r: Request, db: Db, store: set<Artifact>, next: Request, ids: NewIds)
    requires Ready(w, r, ids) && BackfillStep(w, r, db, store, next)
    ensures Proceeds(w, db, next, ids)
  {
    match r
    case BackfillSetDebug(_, p, _, build) => SettingContinues(w.db, w.issued, p, build, "");
    case BackfillSetEntrypoint(_, p, e) => SettingContinues(w.db, w.issued, p, 0, e);
    case _ =>
  }

  lemma CleanupProceeds(w: World, r: Request, db: Db, store: set<Artifact>, next: Request, ids: NewIds)
    requires Ready(w, r, ids) && CleanupStep(w, r, db, store, next)
    ensures Proceeds(w, db, next, ids)
  {
    if r.CleanupRecords? { CleanedContinues(w.db, w.issued, r.cutoff); }
  }

  lemma StepProceeds(w: World, r: Request, db: Db, store: set<Artifact>, next: Request, ids: NewIds)
    requires Ready(w, r, ids)
    requires VerifyStep(w, r, db, store, next, ids) || BackfillStep(w, r, db, store, next)
             || CleanupStep(w, r, db, store, next) || StopStep(w, db, store, next)
    ensures Proceeds(w, db, next, ids)
  {
    if VerifyStep(w, r, db, store, next, ids) {
      VerifyProceeds(w, r, db, store, next, ids);
    } else if BackfillStep(w, r, db, store, next) {
      BackfillProceeds(w, r, db, store, next, ids);
    } else if CleanupStep(w, r, db, store, next) {
      CleanupProceeds(w, r, db, store, next, ids);
    }
  }

  /**
   Whatever the schedule, cleanups racing verifications included, every step
   keeps the tables consistent.
   */
  lemma StepKeepsTables(w: World, w': World)
    requires Tables(w) && Step(w, w')
    ensures Tables(w')
  {
    if id :| ArriveStep(w, id, w') {
      forall k | k in w'.requests ensures Known(w'.db, w'.issued, w'.requests[k]) {}
    } else {
      var id, ids :| RequestStep(w, id, w', ids);
      StepProceeds(w, w.requests[id], w'.db, w'.store, w'.requests[id], ids);
    }
  }

  lemma RunKeepsTables(w: World, w': World)
    requires Tables(w) && Reaches(Steps(), w, w')
    ensures Tables(w')
  {
    var tables := (x: World) => Tables(x);
    forall a, b | tables(a) && Steps()(a, b) ensures tables(b) {
      StepKeepsTables(a, b);
    }
    Kept(Steps(), tables, w, w');
  }

  // --- Rows and their artifacts ---

  ghost predicate HasRelease(db: Db, store: set<Artifact>) {
    forall p | p in db.packages :: Artifact(db.packages[p].commitment, Release) in store
  }

  ghost predicate HasDebug(db: Db, store: set<Artifact>) {
    forall p | p in db.packages && db.packages[p].debugCommitment.Some? :: Artifact(db.packages[p].commitment, Debug) in store
  }

  ghost predicate HasArtifacts(db: Db, store: set<Artifact>) {
    HasRelease(db, store) && HasDebug(db, store)
  }

  /** What a request has put in the store and still relies on, or has left no row for. */
  ghost predicate Stored(db: Db, store: set<Artifact>, r: Request) {
    match r
    case VerifyRecord(v, stored, _) => stored.None? ==> Artifact(v.recording.commitment, Release) in store
    case VerifySetDebug(v, p) => p in db.packages ==> Artifact(v.recording.commitment, Debug) in store
    case BackfillSetDebug(c, p, _, _) => p in db.packages ==> Artifact(c, Debug) in store
    case CleanupArtifacts(pending) => forall p | p in db.packages :: !r.Deletes(db.packages[p].commitment)
    case _ => true
  }

  /** No verification is about to record anew a package whose artifacts a cleanup in flight deletes. */
  ghost predicate Quiet(w: World) {
    forall i, j, c | i in w.requests && j in w.requests :: w.requests[i].Deletes(c) ==> !w.requests[j].RecordsNew(c)
  }

  ghost predicate Artifacts(w: World) {
    && Tables(w) && HasArtifacts(w.db, w.store)
    && forall id | id in w.requests :: Stored(w.db, w.store, w.requests[id])
  }

  /** New rows are of a commitment the request records; artifacts lost are of one it deletes. */
  ghost predicate ChangesOwn(w: World, r: Request, db: Db, store: set<Artifact>) {
    && (forall p | p in db.packages && p !in w.issued :: r.RecordsNew(db.packages[p].commitment))
    && (forall a | a in w.store && a !in store :: r.Deletes(a.commitment))
  }

  /** Each row is an old one, with the debug build it had or one just stored, or a new one with its artifact. */
  ghost predicate RowsCovered(w: World, db: Db, store: set<Artifact>) {
    forall p | p in db.packages ::
      var row := db.packages[p];
      if p in w.db.packages then row.debugCommitment == w.db.packages[p].debugCommitment || Artifact(row.commitment, Debug) in store
      else Artifact(row.commitment, Release) in store && row.debugCommitment.None?
  }

  lemma VerifyStores(w: World, r: Request, db: Db, store: set<Artifact>, next: Request, ids: NewIds)
    requires Ready(w, r, ids) && Stored(w.db, w.store, r) && VerifyStep(w, r, db, store, next, ids)
    ensures ChangesOwn(w, r, db, store) && RowsCovered(w, db, store) && Stored(db, store, next)
  {
    if r.VerifyRecord? {
      RecordingAddsAtMost(w.db, r.stored, r.v.recording, ids);
    }
  }

  lemma {:induction false} ListedWereRemoved(db: Db, order: seq<Id>, i: nat)
    requires (forall k | 0 <= k < |order| :: order[k] in db.packages) && i < |ArtifactsOf(db, order)|
    ensures exists k :: 0 <= k < |order| && ArtifactsOf(db, order)[i].commitment == db.packages[order[k]].commitment
  {
    if i < 2 {
      assert ArtifactsOf(db, order)[i].commitment == db.packages[order[0]].commitment;
    } else {
      ListedWereRemoved(db, order[1..], i - 2);
      var k :| 0 <= k < |order[1..]| && ArtifactsOf(db, order[1..])[i - 2].commitment == db.packages[order[1..][k]].commitment;
      assert order[k + 1] == order[1..][k];
    }
  }

  lemma CleanupStores(w: World, r: Request, db: Db, store: set<Artifact>, next: Request, ids: NewIds)
    requires Ready(w, r, ids) && Stored(w.db, w.store, r) && CleanupStep(w, r, db, store, next)
    ensures ChangesOwn(w, r, db, store) && RowsCovered(w, db, store) && Stored(db, store, next)
  {
    if r.CleanupRecords? {
      CleanedContinues(w.db, w.issued, r.cutoff);
      var removed := CleanUp(w.db, r.cutoff).packages;
      var order :| Orders(order, removed) && next.pending == ArtifactsOf(w.db, order);
      forall p, i | p in db.packages && 0 <= i < |next.pending| ensures next.pending[i].commitment != db.packages[p].commitment {
        ListedWereRemoved(w.db, order, i);
      }
    } else if r.pending != [] {
      assert r.Deletes(r.pending[0].commitment);
      forall c | next.Deletes(c) ensures r.Deletes(c) {
        var i :| 0 <= i < |next.pending| && next.pending[i].commitment == c;
        assert r.pending[i + 1].commitment == c;
      }
    }
  }

  /** A request that did not move keeps what it relies on. */
  lemma OthersKeepStored(w: World, r: Request, db: Db, store: set<Artifact>, next: Request, ids: NewIds, other: Request)
    requires Ready(w, r, ids) && Stored(w.db, w.store, r)
    requires Proceeds(w, db, next, ids) && ChangesOwn(w, r, db, store)
    requires Known(w.db, w.issued, other) && Stored(w.db, w.store, other)
    requires forall c :: (other.Deletes(c) ==> !r.RecordsNew(c)) && (r.Deletes(c) ==> !other.RecordsNew(c))
    ensures Stored(db, store, other)
  {}

  lemma StepStores(w: World, r: Request, db: Db, store: set<Artifact>, next: Request, ids: NewIds)
    requires Ready(w, r, ids) && Stored(w.db, w.store, r)
    requires VerifyStep(w, r, db, store, next, ids) || BackfillStep(w, r, db, store, next)
             || CleanupStep(w, r, db, store, next) || StopStep(w, db, store, next)
    ensures ChangesOwn(w, r, db, store) && RowsCovered(w, db, store) && Stored(db, store, next)
  {
    if VerifyStep(w, r, db, store, next, ids) {
      VerifyStores(w, r, db, store, next, ids);
    } else if BackfillStep(w, r, db, store, next) {
    } else if CleanupStep(w, r, db, store, next) {
      CleanupStores(w, r, db, store, next, ids);
    }
  }

  lemma StepKeepsArtifacts(w: World, w': World)
    requires Artifacts(w) && Quiet(w) && Step(w, w')
    ensures Artifacts(w')
  {
    StepKeepsTables(w, w');
    if id :| ArriveStep(w, id, w') {
      forall k | k in w'.requests ensures Stored(w'.db, w'.store, w'.requests[k]) {}
    } else {
      var id, ids :| RequestStep(w, id, w', ids);
      var r, next := w.requests[id], w'.requests[id];
      StepProceeds(w, r, w'.db, w'.store, next, ids);
      StepStores(w, r, w'.db, w'.store, next, ids);
      forall k | k in w'.requests ensures Stored(w'.db, w'.store, w'.requests[k]) {
        if k != id {
          OthersKeepStored(w, r, w'.db, w'.store, next, ids, w.requests[k]);
        }
      }
    }
  }

  ghost function QuietSteps(): (World, World) -> bool {
    (w: World, w': World) => Quiet(w) && Step(w, w')
  }

  /**
   In every state reached by interleaving requests at their awaits, each free to
   stop anywhere, every package row has its release artifact, and its debug
   artifact when it has a debug commitment, so long as no verification is about
   to record a removed commitment anew during the cleanup that removed it. With
   no cleanups at all that holds of itself.
   */
  lemma RunKeepsArtifacts(w: World, w': World)
    requires Artifacts(w) && Reaches(QuietSteps(), w, w')
    ensures HasArtifacts(w'.db, w'.store) && Artifacts(w')
  {
    var artifacts := (x: World) => Artifacts(x);
    forall a, b | artifacts(a) && QuietSteps()(a, b) ensures artifacts(b) {
      StepKeepsArtifacts(a, b);
    }
    Kept(QuietSteps(), artifacts, w, w');
  }

  ghost predicate NoCleanups(w: World) {
    forall id | id in w.requests :: !w.requests[id].CleanupRecords? && !w.requests[id].CleanupArtifacts?
  }

  /** Verifications and backfills alone never leave a row without its artifacts. */
  lemma RunWithoutCleanupsKeepsArtifacts(w: World, w': World)
    requires Artifacts(w) && Reaches((a: World, b: World) => NoCleanups(a) && Step(a, b), w, w')
    ensures HasArtifacts(w'.db, w'.store)
  {
    var artifacts := (x: World) => Artifacts(x);
    var steps := (a: World, b: World) => NoCleanups(a) && Step(a, b);
    forall a, b | artifacts(a) && steps(a, b) ensures artifacts(b) {
      StepKeepsArtifacts(a, b);
    }
    Kept(steps, artifacts, w, w');
  }
}
