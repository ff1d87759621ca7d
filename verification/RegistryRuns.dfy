/**
 What the handlers leave, run to their end with nothing in between, is what a run of
 the protocol's steps leaves: a call that fails is a request that stops there.
 */
module RegistryRuns {
  import opened Wrappers
  import opened Reachability
  import opened Registry
  import opened RegistryCleanup
  import opened RegistryProtocol
  import opened RegistryLoss
  import opened RegistryService

  function ContentsOf(w: World): Contents {
    Contents(w.db, w.store)
  }

  /** Row ids nobody has drawn, other than those put aside. */
  lemma OtherIds(w: World, aside: NewIds) returns (ids: NewIds)
    ensures FreshIds(w, ids)
    ensures {ids.package, ids.account, ids.record} !! {aside.package, aside.account, aside.record}
  {
    var n := UnusedNumber(w.issued + {aside.package, aside.account, aside.record});
    ids := NewIds(n, n, n);
  }

  /** One more step of a run, drawing no row id put aside. */
  lemma OneMore(w: World, from: World, id: RequestId, db: Db, store: set<Artifact>, next: Request, aside: NewIds) returns (to: World)
    requires Reaches(Steps(), w, from) && id in from.requests && FreshIds(from, aside)
    requires !from.requests[id].VerifyRecord?
    requires VerifyStep(from, from.requests[id], db, store, next, aside) || BackfillStep(from, from.requests[id], db, store, next)
             || CleanupStep(from, from.requests[id], db, store, next) || StopStep(from, db, store, next)
    ensures Reaches(Steps(), w, to) && to.db == db && to.store == store && FreshIds(to, aside)
    ensures id in to.requests && to.requests[id] == next
  {
    var ids := OtherIds(from, aside);
    to := Stepped(from, id, db, store, next, ids);
    assert RequestStep(from, id, to, ids);
    ReachesNext(Steps(), w, from, to);
  }

  lemma RecordStep(w: World, from: World, id: RequestId, next: Request, ids: NewIds) returns (to: World)
    requires Reaches(Steps(), w, from) && id in from.requests && FreshIds(from, ids) && from.requests[id].VerifyRecord?
    requires var r := from.requests[id]; VerifyStep(from, r, AfterRecording(from.db, r.stored, r.v.recording, ids), from.store, next, ids)
    ensures Reaches(Steps(), w, to) && to.store == from.store && id in to.requests && to.requests[id] == next
    ensures to.db == AfterRecording(from.db, from.requests[id].stored, from.requests[id].v.recording, ids)
  {
    to := Stepped(from, id, AfterRecording(from.db, from.requests[id].stored, from.requests[id].v.recording, ids), from.store, next, ids);
    assert RequestStep(from, id, to, ids);
    ReachesNext(Steps(), w, from, to);
  }

  lemma AnyIds(w: World) returns (ids: NewIds)
    ensures FreshIds(w, ids)
  {
    ids := UnusedIds(w);
  }

  /** The debug build of a verification: put and set, or stopped before either. */
  lemma VerifyDebugRun(w: World, from: World, id: RequestId, v: Verification, p: Id, faults: Faults) returns (to: World)
    requires Reaches(Steps(), w, from) && id in from.requests && from.requests[id] == VerifyPutDebug(v, p) && v.debug.Some?
    ensures Reaches(Steps(), w, to) && ContentsOf(to) == AfterDebug(ContentsOf(from), p, v.recording.commitment, v.debug, faults)
  {
    var aside := AnyIds(from);
    if faults.debug {
      to := OneMore(w, from, id, from.db, from.store, Finished, aside);
    } else {
      var put := OneMore(w, from, id, from.db, from.store + {Artifact(v.recording.commitment, Debug)}, VerifySetDebug(v, p), aside);
      if faults.row {
        to := put;
      } else {
        to := OneMore(w, put, id, SetDebug(put.db, p, v.debug.value), put.store, Finished, aside);
      }
    }
  }

  /** From where the package is about to be recorded. */
  lemma RecordRun(w: World, from: World, id: RequestId, v: Verification, stored: Option<Id>, ids: NewIds, faults: Faults) returns (to: World)
    requires Reaches(Steps(), w, from) && id in from.requests && FreshIds(from, ids)
    requires from.requests[id] == VerifyRecord(v, stored, HasDebugBuild(from.db, stored))
    ensures Reaches(Steps(), w, to) && ContentsOf(to) == AfterRecord(ContentsOf(from), stored, v, ids, faults)
  {
    if faults.transaction {
      to := from;
    } else {
      var outcome := Registry.Recorded(from.db, stored, v.recording, ids);
      var next :=
        if !outcome.Committed? || HasDebugBuild(from.db, stored) || v.debug.None? then Finished
        else VerifyPutDebug(v, outcome.packageId);
      to := RecordStep(w, from, id, next, ids);
      if next.VerifyPutDebug? { to := VerifyDebugRun(w, to, id, v, outcome.packageId, faults); }
    }
  }

  /** What `VerifyResource` leaves, some run of the verification's own steps leaves. */
  lemma VerifyIsARun(w: World, id: RequestId, v: Verification, ids: NewIds, faults: Faults) returns (end: World)
    requires id in w.requests && w.requests[id] == VerifyRead(v) && FreshIds(w, ids)
    ensures Reaches(Steps(), w, end) && ContentsOf(end) == AfterVerify(ContentsOf(w), v, ids, faults)
  {
    ReachesSelf(Steps(), w);
    var stored := w.db.FindPackage(v.recording.commitment);
    if stored.Some? {
      end := OneMore(w, w, id, w.db, w.store, VerifyRecord(v, stored, HasDebugBuild(w.db, stored)), ids);
    } else {
      end := OneMore(w, w, id, w.db, w.store, VerifyPut(v), ids);
      if faults.release { return; }
      end := OneMore(w, end, id, end.db, end.store + {Artifact(v.recording.commitment, Release)}, VerifyRecord(v, None, false), ids);
    }
    end := RecordRun(w, end, id, v, stored, ids, faults);
  }

  /** From where the debug build is about to be recorded. */
  lemma BackfillSetRun(w: World, from: World, id: RequestId, c: Digest, p: Id, entrypoint: Option<string>, build: Digest, stops: bool)
      returns (to: World)
    requires Reaches(Steps(), w, from) && id in from.requests && from.requests[id] == BackfillSetDebug(c, p, entrypoint, build)
    ensures Reaches(Steps(), w, to) && to.store == from.store
    ensures var recorded := SetDebug(from.db, p, build);
            to.db == if entrypoint.Some? && !stops then SetEntrypoint(recorded, p, entrypoint.value) else recorded
  {
    var aside := AnyIds(from);
    var next := match entrypoint case Some(e) => BackfillSetEntrypoint(c, p, e) case None => Finished;
    to := OneMore(w, from, id, SetDebug(from.db, p, build), from.store, next, aside);
    if entrypoint.Some? && !stops {
      to := OneMore(w, to, id, SetEntrypoint(to.db, p, entrypoint.value), to.store, Finished, aside);
    }
  }

  /** From where the debug build is about to be put. */
  lemma BackfillPutRun(w: World, from: World, id: RequestId, c: Digest, p: Id, entrypoint: Option<string>, build: Digest, faults: Faults)
      returns (to: World)
    requires Reaches(Steps(), w, from) && id in from.requests && from.requests[id] == BackfillPut(c, p, entrypoint, build)
    ensures Reaches(Steps(), w, to)
    ensures var after := AfterDebug(ContentsOf(from), p, c, Some(build), faults);
            ContentsOf(to) == if !faults.debug && !faults.row && entrypoint.Some? && !faults.entrypoint
                              then Contents(SetEntrypoint(after.db, p, entrypoint.value), after.store) else after
  {
    var aside := AnyIds(from);
    if faults.debug { return from; }
    to := OneMore(w, from, id, from.db, from.store + {Artifact(c, Debug)}, BackfillSetDebug(c, p, entrypoint, build), aside);
    if faults.row { return; }
    to := BackfillSetRun(w, to, id, c, p, entrypoint, build, faults.entrypoint);
  }

  /** What `Backfill` leaves, some run of the backfill's own steps leaves. */
  lemma BackfillIsARun(w: World, id: RequestId, c: Digest, inferred: Option<string>, build: Option<Digest>, faults: Faults) returns (end: World)
    requires id in w.requests && w.requests[id] == BackfillRead(c, inferred)
    ensures Reaches(Steps(), w, end) && ContentsOf(end) == AfterBackfill(ContentsOf(w), c, inferred, build, faults)
  {
    ReachesSelf(Steps(), w);
    var aside := AnyIds(w);
    var found := w.db.FindPackage(c);
    if found.None? { return w; }
    var p, row := found.value, w.db.packages[found.value];
    if row.debugCommitment.Some? || (row.entrypoint.None? && inferred.None?) || build.None? { return w; }
    var entrypoint := if row.entrypoint.Some? then None else inferred;
    end := OneMore(w, w, id, w.db, w.store, BackfillBuild(c, p, entrypoint), aside);
    end := OneMore(w, end, id, end.db, end.store, BackfillPut(c, p, entrypoint, build.value), aside);
    end := BackfillPutRun(w, end, id, c, p, entrypoint, build.value, faults);
  }

  // --- The cleanup ---

  lemma {:induction false} SomeOrder(ids: set<Id>) returns (order: seq<Id>)
    ensures Orders(order, ids)
  {
    order := [];
    if ids != {} {
      var id :| id in ids;
      var rest := SomeOrder(ids - {id});
      order := [id] + rest;
      assert forall k | k in ids :: k == id || k in rest;
    }
  }

  lemma {:induction false} ListedAre(db: Db, order: seq<Id>, a: Artifact)
    requires forall i | 0 <= i < |order| :: order[i] in db.packages
    ensures a in ArtifactsOf(db, order) <==> exists i :: 0 <= i < |order| && db.packages[order[i]].commitment == a.commitment
  {
    if order != [] {
      ListedAre(db, order[1..], a);
      var c := db.packages[order[0]].commitment;
      assert ArtifactsOf(db, order) == [Artifact(c, Release), Artifact(c, Debug)] + ArtifactsOf(db, order[1..]);
      assert c == a.commitment <==> a in [Artifact(c, Release), Artifact(c, Debug)] by {
        assert a == Artifact(a.commitment, if a.variant == Release then Release else Debug);
      }
      assert order == [order[0]] + order[1..];
    }
  }

  function ElementsOf(pending: seq<Artifact>): set<Artifact> {
    set a | a in pending
  }

  /** A cleanup deletes what is pending, one artifact after another. */
  lemma {:induction false} DrainRun(w: World, from: World, id: RequestId) returns (to: World)
    requires Reaches(Steps(), w, from) && id in from.requests && from.requests[id].CleanupArtifacts?
    ensures Reaches(Steps(), w, to) && to.db == from.db && to.store == from.store - ElementsOf(from.requests[id].pending)
    decreases |from.requests[id].pending|
  {
    var pending := from.requests[id].pending;
    if pending == [] {
      to := from;
    } else {
      var aside := AnyIds(from);
      var next := OneMore(w, from, id, from.db, from.store - {pending[0]}, CleanupArtifacts(pending[1..]), aside);
      to := DrainRun(w, next, id);
      assert ElementsOf(pending) == {pending[0]} + ElementsOf(pending[1..]) by { assert pending == [pending[0]] + pending[1..]; }
    }
  }

  lemma ListedAreAll(db: Db, order: seq<Id>, removed: set<Id>)
    requires removed <= db.packages.Keys && Orders(order, removed)
    ensures ElementsOf(ArtifactsOf(db, order)) == ArtifactsOfAll(db.packages, removed)
  {
    forall a ensures a in ElementsOf(ArtifactsOf(db, order)) <==> a in ArtifactsOfAll(db.packages, removed) {
      ListedAre(db, order, a);
      assert a in ArtifactsOfAll(db.packages, removed) <==> exists p :: p in removed && db.packages[p].commitment == a.commitment by {
        assert a == Artifact(a.commitment, if a.variant == Release then Release else Debug);
      }
    }
  }

  lemma CleanupStarts(w: World, id: RequestId, cutoff: int, order: seq<Id>) returns (to: World)
    requires w.db.Consistent() && id in w.requests && w.requests[id] == CleanupRecords(cutoff)
    requires CleanUp(w.db, cutoff).packages <= w.db.packages.Keys && Orders(order, CleanUp(w.db, cutoff).packages)
    ensures Reaches(Steps(), w, to) && to.db == CleanUp(w.db, cutoff).db && to.store == w.store
    ensures id in to.requests && to.requests[id] == CleanupArtifacts(ArtifactsOf(w.db, order))
  {
    ReachesSelf(Steps(), w);
    var aside := AnyIds(w);
    assert ListsArtifacts(ArtifactsOf(w.db, order), w.db, CleanUp(w.db, cutoff).packages);
    to := OneMore(w, w, id, CleanUp(w.db, cutoff).db, w.store, CleanupArtifacts(ArtifactsOf(w.db, order)), aside);
  }

  /** What `CleanupPlayground` leaves, some run of the cleanup's own steps leaves. */
  lemma CleanupIsARun(w: World, id: RequestId, cutoff: int) returns (end: World)
    requires w.db.Consistent() && id in w.requests && w.requests[id] == CleanupRecords(cutoff)
    ensures Reaches(Steps(), w, end) && ContentsOf(end) == AfterCleanup(ContentsOf(w), cutoff)
  {
    var removed := CleanUp(w.db, cutoff).packages;
    CleanedContinues(w.db, w.db.packages.Keys, cutoff);
    var order := SomeOrder(removed);
    end := CleanupStarts(w, id, cutoff, order);
    end := DrainRun(w, end, id);
    ListedAreAll(w.db, order, removed);
  }
}
