/** A cleanup racing a verification of what it removes can leave a row without its artifact. */
module RegistryRace {
  import opened Wrappers
  import opened Reachability
  import opened Registry
  import opened RegistryCleanup
  import opened RegistryProtocol

  const COMMITMENT: Digest := 7

  /** A note the playground verified at time 0. */
  const OLD: NoteRow := NoteRow("mtst", 7, PLAYGROUND_SOURCE, 1, COMMITMENT, 0)
  const ROW: PackageRow := PackageRow(COMMITMENT, Some("."), None)
  const BEFORE: Db := Db(map[1 := ROW], map[], map[], map[2 := OLD])
  const EMPTY: Db := Db(map[], map[], map[], map[])

  /** The same note verified again. */
  const AGAIN: Recording := Recording(false, "mtst", 7, COMMITMENT, ".", "miden-verify", 10)
  const NEW: Db := Db(map[5 := ROW], map[], map[], map[7 := NoteRow("mtst", 7, "miden-verify", 5, COMMITMENT, 10)])
  const V: Verification := Verification(AGAIN, None)

  const RELEASE: Artifact := Artifact(COMMITMENT, Release)
  const DEBUG: Artifact := Artifact(COMMITMENT, Debug)

  function At(db: Db, store: set<Artifact>, cleanup: Request, verification: Request, issued: set<Id>): World {
    World(db, store, map[0 := cleanup, 1 := verification], issued)
  }

  const W0: World := At(BEFORE, {RELEASE}, CleanupRecords(1), VerifyRead(V), {1, 2})
  const W1: World := At(EMPTY, {RELEASE}, CleanupArtifacts([RELEASE, DEBUG]), VerifyRead(V), {1, 2, 3})
  const W2: World := At(EMPTY, {RELEASE}, CleanupArtifacts([RELEASE, DEBUG]), VerifyPut(V), {1, 2, 3, 4})
  const W3: World := At(EMPTY, {RELEASE}, CleanupArtifacts([RELEASE, DEBUG]), VerifyRecord(V, None, false), {1, 2, 3, 4, 9})
  const W4: World := At(NEW, {RELEASE}, CleanupArtifacts([RELEASE, DEBUG]), Finished, {1, 2, 3, 4, 9, 5, 6, 7})
  const W5: World := At(NEW, {}, CleanupArtifacts([DEBUG]), Finished, {1, 2, 3, 4, 9, 5, 6, 7, 8})

  lemma Removed()
    ensures CleanUp(BEFORE, 1) == Cleaned(EMPTY, {}, {2}, {}, {1})
  {
    var r := CleanUp(BEFORE, 1);
    NothingCascades(BEFORE, 1);
    assert BEFORE.Consistent() by {
      assert 2 in BEFORE.notes && BEFORE.notes[2].packageId == 1;
      assert PackageUsed(1, BEFORE.components, BEFORE.notes);
    }
    CleanUpIsExact(BEFORE, 1);
    assert ExpiredNote(BEFORE.notes, 2, 1) && 2 in r.notes && r.notes == {2};
    assert OnlyExpiredRecords(BEFORE, 1, 1) && r.packages == {1};
    assert r.components == {} && r.accounts == {};
    assert r.db.packages == map[] && r.db.notes == map[];
    assert r.db.accounts == map[] && r.db.components == map[];
  }

  lemma CleanupTakesRow()
    ensures Step(W0, W1)
  {
    Removed();
    assert ArtifactsOf(BEFORE, [1]) == [RELEASE, DEBUG] + ArtifactsOf(BEFORE, []) by { assert [1][1..] == []; }
    assert [RELEASE, DEBUG] + [] == [RELEASE, DEBUG];
    assert Orders([1], {1}) && ListsArtifacts([RELEASE, DEBUG], BEFORE, {1});
    assert W1.requests == W0.requests[0 := W1.requests[0]];
    assert RequestStep(W0, 0, W1, NewIds(3, 3, 3));
  }

  lemma VerificationFindsNothing()
    ensures Step(W1, W2)
  {
    assert W2.requests == W1.requests[1 := W2.requests[1]];
    assert RequestStep(W1, 1, W2, NewIds(4, 4, 4));
  }

  lemma VerificationStores()
    ensures Step(W2, W3)
  {
    assert W3.requests == W2.requests[1 := W3.requests[1]];
    assert RequestStep(W2, 1, W3, NewIds(9, 9, 9));
  }

  lemma VerificationCommits()
    ensures Step(W3, W4)
  {
    assert W4.requests == W3.requests[1 := W4.requests[1]];
    assert RequestStep(W3, 1, W4, NewIds(5, 6, 7));
  }

  lemma CleanupTakesArtifact()
    ensures Step(W4, W5)
  {
    assert [RELEASE, DEBUG][1..] == [DEBUG];
    assert W5.requests == W4.requests[0 := W5.requests[0]];
    assert RequestStep(W4, 0, W5, NewIds(8, 8, 8));
  }

  lemma Continue(a: World, b: World, c: World)
    requires Reaches(Steps(), a, b) && Step(b, c)
    ensures Reaches(Steps(), a, c)
  {
    ReachesNext(Steps(), a, b, c);
  }

  lemma AllIsWellAtFirst()
    ensures Artifacts(W0)
  {
    assert PackageUsed(1, BEFORE.components, BEFORE.notes) by {
      assert 2 in BEFORE.notes && BEFORE.notes[2].packageId == 1;
    }
  }

  lemma RaceHappens()
    ensures Reaches(Steps(), W0, W5)
  {
    ReachesSelf(Steps(), W0);
    CleanupTakesRow();
    Continue(W0, W0, W1);
    VerificationFindsNothing();
    Continue(W0, W1, W2);
    VerificationStores();
    Continue(W0, W2, W3);
    VerificationCommits();
    Continue(W0, W3, W4);
    CleanupTakesArtifact();
    Continue(W0, W4, W5);
  }

  /**
   The cleanup's transaction removes a package; its verification, in flight,
   finds none, stores the artifact and records it anew; then the cleanup
   deletes the artifact. All was well at first, and the tables still are.
   */
  lemma RaceLosesArtifact()
    ensures Artifacts(W0) && Reaches(Steps(), W0, W5)
    ensures Tables(W5) && !HasArtifacts(W5.db, W5.store)
  {
    AllIsWellAtFirst();
    RaceHappens();
    RunKeepsTables(W0, W5);
    assert 5 in W5.db.packages;
  }
}
