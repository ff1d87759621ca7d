/** The cleanup of the playground's verifications: what its transaction deletes, exactly. */
module RegistryCleanup {
  import opened Wrappers
  import opened Registry

  predicate Expired(source: string, createdAt: int, cutoff: int) {
    source == PLAYGROUND_SOURCE && createdAt < cutoff
  }

  predicate ExpiredComponent(components: map<Id, ComponentRow>, c: Id, cutoff: int) {
    c in components && Expired(components[c].source, components[c].createdAt, cutoff)
  }

  predicate ExpiredNote(notes: map<Id, NoteRow>, n: Id, cutoff: int) {
    n in notes && Expired(notes[n].source, notes[n].createdAt, cutoff)
  }

  /** The tables after the transaction, and the rows each statement returned. */
  datatype Cleaned = Cleaned(db: Db, components: set<Id>, notes: set<Id>, accounts: set<Id>, packages: set<Id>)

  // --- The four statements ---

  function ExpiredComponents(db: Db, cutoff: int): set<Id> {
    set c | c in db.components && ExpiredComponent(db.components, c, cutoff)
  }

  function ExpiredNotes(db: Db, cutoff: int): set<Id> {
    set n | n in db.notes && ExpiredNote(db.notes, n, cutoff)
  }

  /** Of `ids`, the accounts no component is left for. */
  function UnusedAccounts(db: Db, ids: set<Id>): set<Id> {
    set a | a in ids && a in db.accounts && !AccountUsed(a, db.components)
  }

  function UnusedPackages(db: Db, ids: set<Id>): set<Id> {
    set p | p in ids && p in db.packages && !PackageUsed(p, db.components, db.notes)
  }

  /** Deleting account rows takes the components that refer to them along. */
  function WithoutAccounts(db: Db, ids: set<Id>): Db {
    db.(accounts := db.accounts - ids,
        components := map c | c in db.components && db.components[c].accountId !in ids :: db.components[c])
  }

  /** Deleting package rows takes every record that refers to them along. */
  function WithoutPackages(db: Db, ids: set<Id>): Db {
    db.(packages := db.packages - ids,
        components := map c | c in db.components && db.components[c].packageId !in ids :: db.components[c],
        notes := map n | n in db.notes && db.notes[n].packageId !in ids :: db.notes[n])
  }

  function AccountIds(db: Db, components: set<Id>): set<Id> {
    set c | c in components && c in db.components :: db.components[c].accountId
  }

  function PackageIds(db: Db, components: set<Id>, notes: set<Id>): set<Id> {
    (set c | c in components && c in db.components :: db.components[c].packageId) +
    (set n | n in notes && n in db.notes :: db.notes[n].packageId)
  }

  function CleanUp(db: Db, cutoff: int): Cleaned {
    var components := ExpiredComponents(db, cutoff);
    var notes := ExpiredNotes(db, cutoff);
    var kept := db.(components := db.components - components, notes := db.notes - notes);
    var accounts := UnusedAccounts(kept, AccountIds(db, components));
    var withoutAccounts := WithoutAccounts(kept, accounts);
    var packages := UnusedPackages(withoutAccounts, PackageIds(db, components, notes));
    Cleaned(WithoutPackages(withoutAccounts, packages), components, notes, accounts, packages)
  }

  // --- What they come to ---

  /** Every component of the account has expired. */
  ghost predicate OnlyExpiredComponents(db: Db, a: Id, cutoff: int) {
    forall c | c in db.components && db.components[c].accountId == a :: ExpiredComponent(db.components, c, cutoff)
  }

  /** Every record of the package has expired. */
  ghost predicate OnlyExpiredRecords(db: Db, p: Id, cutoff: int) {
    && (forall c | c in db.components && db.components[c].packageId == p :: ExpiredComponent(db.components, c, cutoff))
    && (forall n | n in db.notes && db.notes[n].packageId == p :: ExpiredNote(db.notes, n, cutoff))
  }

  lemma NothingCascades(db: Db, cutoff: int)
    ensures var r := CleanUp(db, cutoff);
            && r.db.components == db.components - r.components
            && r.db.notes == db.notes - r.notes
            && r.db.accounts == db.accounts - r.accounts
            && r.db.packages == db.packages - r.packages
  {}

  /**
   The transaction deletes exactly the playground's expired records, then
   exactly the account codes and packages all of whose records those were.
   */
  lemma CleanUpIsExact(db: Db, cutoff: int)
    requires db.Consistent()
    ensures var r := CleanUp(db, cutoff);
            && (forall c :: c in r.components <==>
                  c in db.components && db.components[c].source == "miden-playground" && db.components[c].createdAt < cutoff)
            && (forall n :: n in r.notes <==>
                  n in db.notes && db.notes[n].source == "miden-playground" && db.notes[n].createdAt < cutoff)
            && (forall a :: a in r.accounts <==>
                  a in db.accounts && forall c | c in db.components && db.components[c].accountId == a :: c in r.components)
            && (forall p :: p in r.packages <==>
                  && p in db.packages && (forall c | c in db.components && db.components[c].packageId == p :: c in r.components)
                  && (forall n | n in db.notes && db.notes[n].packageId == p :: n in r.notes))
  {
    var r := CleanUp(db, cutoff);
    forall a ensures a in r.accounts <==> a in db.accounts && OnlyExpiredComponents(db, a, cutoff) {
      AccountIsExact(db, a, cutoff);
    }
    forall p ensures p in r.packages <==> p in db.packages && OnlyExpiredRecords(db, p, cutoff) {
      PackageIsExact(db, p, cutoff);
    }
  }

  lemma KeptAreUsed(db: Db, cutoff: int)
    ensures var r := CleanUp(db, cutoff);
            var kept := db.(components := db.components - r.components, notes := db.notes - r.notes);
            WithoutAccounts(kept, r.accounts).components == kept.components
  {}

  lemma AccountIsExact(db: Db, a: Id, cutoff: int)
    requires db.Consistent()
    ensures a in CleanUp(db, cutoff).accounts <==> a in db.accounts && OnlyExpiredComponents(db, a, cutoff)
  {
    var r := CleanUp(db, cutoff);
    var kept := db.components - r.components;
    if a in db.accounts {
      assert AccountUsed(a, db.components);
      var c :| c in db.components && db.components[c].accountId == a;
      if OnlyExpiredComponents(db, a, cutoff) {
        assert c in r.components;
        assert a in AccountIds(db, r.components);
        assert !AccountUsed(a, kept);
      } else {
        var d :| d in db.components && db.components[d].accountId == a && !ExpiredComponent(db.components, d, cutoff);
        assert d in kept && kept[d].accountId == a;
      }
    }
  }

  lemma RemovedPackage(db: Db, p: Id, cutoff: int)
    ensures var r := CleanUp(db, cutoff);
            p in r.packages <==>
              && p in db.packages && p in PackageIds(db, r.components, r.notes)
              && !PackageUsed(p, db.components - r.components, db.notes - r.notes)
  {
    KeptAreUsed(db, cutoff);
  }

  lemma UnusedOnceExpired(db: Db, p: Id, cutoff: int)
    ensures OnlyExpiredRecords(db, p, cutoff) <==>
              !PackageUsed(p, db.components - ExpiredComponents(db, cutoff), db.notes - ExpiredNotes(db, cutoff))
  {
    var kept, keptNotes := db.components - ExpiredComponents(db, cutoff), db.notes - ExpiredNotes(db, cutoff);
    if !OnlyExpiredRecords(db, p, cutoff) {
      if d :| d in db.components && db.components[d].packageId == p && !ExpiredComponent(db.components, d, cutoff) {
        assert d in kept && kept[d].packageId == p;
      } else {
        var n :| n in db.notes && db.notes[n].packageId == p && !ExpiredNote(db.notes, n, cutoff);
        assert n in keptNotes && keptNotes[n].packageId == p;
      }
    }
  }

  lemma PackageIsExact(db: Db, p: Id, cutoff: int)
    requires db.Consistent()
    ensures p in CleanUp(db, cutoff).packages <==> p in db.packages && OnlyExpiredRecords(db, p, cutoff)
  {
    RemovedPackage(db, p, cutoff);
    UnusedOnceExpired(db, p, cutoff);
    if p in db.packages && OnlyExpiredRecords(db, p, cutoff) {
      assert PackageUsed(p, db.components, db.notes);
      if c :| c in db.components && db.components[c].packageId == p {
        assert c in ExpiredComponents(db, cutoff);
      } else {
        var n :| n in db.notes && db.notes[n].packageId == p;
        assert n in ExpiredNotes(db, cutoff);
      }
    }
  }

  lemma KeptPackagesAreUsed(db: Db, cutoff: int)
    requires db.Consistent()
    ensures var r := CleanUp(db, cutoff);
            PackagesUsed(db.packages.Keys - r.packages, db.components - r.components, db.notes - r.notes)
  {
    var r := CleanUp(db, cutoff);
    forall p | p in db.packages.Keys - r.packages ensures PackageUsed(p, db.components - r.components, db.notes - r.notes) {
      PackageIsExact(db, p, cutoff);
      UnusedOnceExpired(db, p, cutoff);
    }
  }

  lemma KeptAccountsAreUsed(db: Db, cutoff: int)
    requires db.Consistent()
    ensures var r := CleanUp(db, cutoff); AccountsUsed(db.accounts.Keys - r.accounts, db.components - r.components)
  {
    var r := CleanUp(db, cutoff);
    forall a | a in db.accounts.Keys - r.accounts ensures AccountUsed(a, db.components - r.components) {
      AccountIsExact(db, a, cutoff);
      var d :| d in db.components && db.components[d].accountId == a && !ExpiredComponent(db.components, d, cutoff);
      assert d in db.components - r.components;
    }
  }

  lemma KeptStillRefer(db: Db, cutoff: int)
    requires db.Consistent()
    ensures var r := CleanUp(db, cutoff);
            && ComponentsRefer(db.components - r.components, db.accounts.Keys - r.accounts, db.packages - r.packages)
            && NotesRefer(db.notes - r.notes, db.packages - r.packages)
  {
    var r := CleanUp(db, cutoff);
    forall c | c in db.components - r.components
      ensures db.components[c].accountId !in r.accounts && db.components[c].packageId !in r.packages
    {
      AccountIsExact(db, db.components[c].accountId, cutoff);
      PackageIsExact(db, db.components[c].packageId, cutoff);
    }
    forall n | n in db.notes - r.notes ensures db.notes[n].packageId !in r.packages {
      PackageIsExact(db, db.notes[n].packageId, cutoff);
    }
  }

  lemma CleanUpKeepsConsistent(db: Db, cutoff: int)
    requires db.Consistent()
    ensures CleanUp(db, cutoff).db.Consistent()
  {
    var r := CleanUp(db, cutoff);
    NothingCascades(db, cutoff);
    KeptPackagesAreUsed(db, cutoff);
    KeptAccountsAreUsed(db, cutoff);
    KeptStillRefer(db, cutoff);
    assert r.db.packages.Keys == db.packages.Keys - r.packages && r.db.accounts.Keys == db.accounts.Keys - r.accounts;
  }

  lemma NothingToCleanUp(db: Db, cutoff: int)
    requires ExpiredComponents(db, cutoff) == {} && ExpiredNotes(db, cutoff) == {}
    ensures CleanUp(db, cutoff) == Cleaned(db, {}, {}, {}, {})
  {
    var r := CleanUp(db, cutoff);
    assert AccountIds(db, {}) == {} && PackageIds(db, {}, {}) == {};
    assert r.accounts == {} && r.packages == {};
    NothingCascades(db, cutoff);
    assert db.components - {} == db.components && db.notes - {} == db.notes;
    assert db.accounts - {} == db.accounts && db.packages - {} == db.packages;
  }

  /** A second run at the same time finds nothing to remove. */
  lemma CleanUpIsIdempotent(db: Db, cutoff: int)
    ensures var once := CleanUp(db, cutoff).db; CleanUp(once, cutoff) == Cleaned(once, {}, {}, {}, {})
  {
    var r := CleanUp(db, cutoff);
    NothingCascades(db, cutoff);
    assert ExpiredComponents(r.db, cutoff) == {} by {
      forall c | c in r.db.components ensures !ExpiredComponent(r.db.components, c, cutoff) { assert c !in r.components; }
    }
    assert ExpiredNotes(r.db, cutoff) == {} by {
      forall n | n in r.db.notes ensures !ExpiredNote(r.db.notes, n, cutoff) { assert n !in r.notes; }
    }
    NothingToCleanUp(r.db, cutoff);
  }

  /** The reported counts are the differences in the tables' sizes. */
  lemma CountsAreDifferences(db: Db, cutoff: int)
    ensures var r := CleanUp(db, cutoff);
            && |r.components| == |db.components| - |r.db.components|
            && |r.notes| == |db.notes| - |r.db.notes|
            && |r.accounts| == |db.accounts| - |r.db.accounts|
            && |r.packages| == |db.packages| - |r.db.packages|
  {
    var r := CleanUp(db, cutoff);
    NothingCascades(db, cutoff);
  }
}
