/**
 The registry's tables and artifact store, and the transactions on them:
 recording a verification, and cleaning up after the playground.
 */
module Registry {
  import opened Wrappers

  /** A commitment, a code root or a script root. */
  type Digest = nat

  type Id = nat

  datatype PackageRow = PackageRow(commitment: Digest, entrypoint: Option<string>, debugCommitment: Option<Digest>)

  datatype AccountRow = AccountRow(networkId: string, code: Digest)

  datatype ComponentRow = ComponentRow(
    accountId: Id, packageId: Id, packageCommitment: Digest, source: string, createdAt: int)

  datatype NoteRow = NoteRow(
    networkId: string, script: Digest, source: string, packageId: Id, packageCommitment: Digest, createdAt: int)

  datatype Variant = Release | Debug

  datatype Artifact = Artifact(commitment: Digest, variant: Variant)

  const PLAYGROUND_SOURCE := "miden-playground"

  const PLAYGROUND_TTL_MS: int := 24 * 60 * 60 * 1000

  // --- What the tables keep ---

  /** The unique indexes. */
  ghost predicate UniquePackages(packages: map<Id, PackageRow>) {
    forall p, q | p in packages && q in packages :: packages[p].commitment == packages[q].commitment ==> p == q
  }

  ghost predicate UniqueAccounts(accounts: map<Id, AccountRow>) {
    forall a, b | a in accounts && b in accounts :: accounts[a] == accounts[b] ==> a == b
  }

  ghost predicate UniqueNotes(notes: map<Id, NoteRow>) {
    forall n, m | n in notes && m in notes ::
      notes[n].networkId == notes[m].networkId && notes[n].script == notes[m].script ==> n == m
  }

  /** No index says this one: no package is recorded twice as a component of one account code. */
  ghost predicate UniqueComponents(components: map<Id, ComponentRow>) {
    forall c, d | c in components && d in components ::
      components[c].accountId == components[d].accountId && components[c].packageCommitment == components[d].packageCommitment
      ==> c == d
  }

  /** The foreign keys, with the commitment copied from the package referred to. */
  ghost predicate ComponentsRefer(components: map<Id, ComponentRow>, accounts: set<Id>, packages: map<Id, PackageRow>) {
    forall c | c in components ::
      && components[c].accountId in accounts && components[c].packageId in packages
      && components[c].packageCommitment == packages[components[c].packageId].commitment
  }

  ghost predicate NotesRefer(notes: map<Id, NoteRow>, packages: map<Id, PackageRow>) {
    forall n | n in notes ::
      notes[n].packageId in packages && notes[n].packageCommitment == packages[notes[n].packageId].commitment
  }

  predicate PackageUsed(p: Id, components: map<Id, ComponentRow>, notes: map<Id, NoteRow>) {
    (exists c :: c in components && components[c].packageId == p) || (exists n :: n in notes && notes[n].packageId == p)
  }

  predicate AccountUsed(a: Id, components: map<Id, ComponentRow>) {
    exists c :: c in components && components[c].accountId == a
  }

  ghost predicate PackagesUsed(packages: set<Id>, components: map<Id, ComponentRow>, notes: map<Id, NoteRow>) {
    forall p {:trigger PackageUsed(p, components, notes)} | p in packages :: PackageUsed(p, components, notes)
  }

  ghost predicate AccountsUsed(accounts: set<Id>, components: map<Id, ComponentRow>) {
    forall a {:trigger AccountUsed(a, components)} | a in accounts :: AccountUsed(a, components)
  }

  datatype Db = Db(
    packages: map<Id, PackageRow>, accounts: map<Id, AccountRow>,
    components: map<Id, ComponentRow>, notes: map<Id, NoteRow>)
  {
    /** Keys are unique, references hold, and nothing is kept that no record uses. */
    ghost predicate Consistent() {
      && UniquePackages(packages) && UniqueAccounts(accounts) && UniqueNotes(notes) && UniqueComponents(components)
      && ComponentsRefer(components, accounts.Keys, packages) && NotesRefer(notes, packages)
      && PackagesUsed(packages.Keys, components, notes) && AccountsUsed(accounts.Keys, components)
    }

    ghost predicate HasCommitment(p: Id, commitment: Digest) {
      p in packages && packages[p].commitment == commitment
    }

    ghost function FindPackage(commitment: Digest): (r: Option<Id>)
      ensures r.Some? ==> HasCommitment(r.value, commitment)
      ensures r.None? ==> forall p :: !HasCommitment(p, commitment)
    {
      if exists p :: HasCommitment(p, commitment) then var p :| HasCommitment(p, commitment); Some(p) else None
    }

    ghost function FindAccount(account: AccountRow): (r: Option<Id>)
      ensures r.Some? ==> r.value in accounts && accounts[r.value] == account
      ensures r.None? ==> forall a | a in accounts :: accounts[a] != account
    {
      if exists a :: a in accounts && accounts[a] == account then var a :| a in accounts && accounts[a] == account; Some(a)
      else None
    }

    ghost predicate HasComponent(accountId: Id, commitment: Digest) {
      exists c :: c in components && components[c].accountId == accountId && components[c].packageCommitment == commitment
    }

    ghost predicate HasNote(networkId: string, script: Digest) {
      exists n :: n in notes && notes[n].networkId == networkId && notes[n].script == script
    }
  }

  // --- Recording a verification ---

  /** Identifiers drawn for the rows a transaction may insert. */
  datatype NewIds = NewIds(package: Id, account: Id, record: Id)

  /** What a verified build and its resource ask to be recorded. */
  datatype Recording = Recording(
    isAccount: bool, networkId: string, root: Digest, commitment: Digest, entrypoint: string, source: string, now: int)

  /** A transaction commits whole, or refuses with 409, or fails on a constraint; only the first changes anything. */
  datatype Outcome = Committed(db: Db, packageId: Id) | AlreadyVerified | ConstraintFailed

  /** The row found by commitment, or a new one; `None` when the insert breaks the primary key. */
  ghost function PackageInserted(db: Db, r: Recording, id: Id): Option<(Db, Id)> {
    match db.FindPackage(r.commitment)
    case Some(existing) => Some((db, existing))
    case None =>
      if id in db.packages then None
      else Some((db.(packages := db.packages[id := PackageRow(r.commitment, Some(r.entrypoint), None)]), id))
  }

  ghost function AccountInserted(db: Db, account: AccountRow, id: Id): Option<(Db, Id)> {
    match db.FindAccount(account)
    case Some(existing) => Some((db, existing))
    case None => if id in db.accounts then None else Some((db.(accounts := db.accounts[id := account]), id))
  }

  ghost function ComponentInserted(db: Db, r: Recording, packageId: Id, ids: NewIds): Outcome {
    match AccountInserted(db, AccountRow(r.networkId, r.root), ids.account)
    case None => ConstraintFailed
    case Some((after, accountId)) =>
      if after.HasComponent(accountId, r.commitment) then AlreadyVerified
      else if ids.record in after.components || packageId !in after.packages then ConstraintFailed
      else Committed(
        after.(components := after.components[ids.record := ComponentRow(accountId, packageId, r.commitment, r.source, r.now)]),
        packageId)
  }

  ghost function NoteInserted(db: Db, r: Recording, packageId: Id, ids: NewIds): Outcome {
    if db.HasNote(r.networkId, r.root) then AlreadyVerified
    else if ids.record in db.notes || packageId !in db.packages then ConstraintFailed
    else Committed(
      db.(notes := db.notes[ids.record := NoteRow(r.networkId, r.root, r.source, packageId, r.commitment, r.now)]),
      packageId)
  }

  /** The transaction; `stored` is the package as it was read before it, maybe gone since. */
  ghost function Recorded(db: Db, stored: Option<Id>, r: Recording, ids: NewIds): Outcome {
    var start: Option<(Db, Id)> := if stored.Some? then Some((db, stored.value)) else PackageInserted(db, r, ids.package);
    match start
    case None => ConstraintFailed
    case Some((after, packageId)) =>
      if r.isAccount then ComponentInserted(after, r, packageId, ids) else NoteInserted(after, r, packageId, ids)
  }

  ghost function AfterRecording(db: Db, stored: Option<Id>, r: Recording, ids: NewIds): Db {
    match Recorded(db, stored, r, ids)
    case Committed(after, _) => after
    case _ => db
  }

  /** An id read earlier, if its row is still there, is the row of this commitment. */
  ghost predicate Names(db: Db, stored: Option<Id>, commitment: Digest) {
    stored.Some? && stored.value in db.packages ==> db.packages[stored.value].commitment == commitment
  }

  /** Every use stands when a record is added, and the record makes its own. */
  lemma NewComponentUses(db: Db, id: Id, row: ComponentRow)
    requires id !in db.components
    requires PackagesUsed(db.packages.Keys - {row.packageId}, db.components, db.notes)
    requires AccountsUsed(db.accounts.Keys - {row.accountId}, db.components)
    ensures PackagesUsed(db.packages.Keys, db.components[id := row], db.notes)
    ensures AccountsUsed(db.accounts.Keys, db.components[id := row])
  {
    var after := db.components[id := row];
    assert id in after && after[id] == row;
    forall p | p in db.packages ensures PackageUsed(p, after, db.notes) {
      if p != row.packageId {
        assert PackageUsed(p, db.components, db.notes);
        if c :| c in db.components && db.components[c].packageId == p {
          assert c in after && after[c].packageId == p;
        }
      }
    }
    forall a | a in db.accounts ensures AccountUsed(a, after) {
      if a != row.accountId {
        assert AccountUsed(a, db.components);
        var c :| c in db.components && db.components[c].accountId == a;
        assert c in after && after[c].accountId == a;
      }
    }
  }

  lemma NewNoteUses(db: Db, id: Id, row: NoteRow)
    requires id !in db.notes && PackagesUsed(db.packages.Keys - {row.packageId}, db.components, db.notes)
    ensures PackagesUsed(db.packages.Keys, db.components, db.notes[id := row])
  {
    var after := db.notes[id := row];
    assert id in after && after[id] == row;
    forall p | p in db.packages ensures PackageUsed(p, db.components, after) {
      if p != row.packageId {
        assert PackageUsed(p, db.components, db.notes);
        if n :| n in db.notes && db.notes[n].packageId == p {
          assert n in after && after[n].packageId == p;
        }
      }
    }
  }

  /** Consistent but for the one package, whose record is still to come. */
  ghost predicate Awaits(db: Db, packageId: Id) {
    && UniquePackages(db.packages) && UniqueAccounts(db.accounts) && UniqueNotes(db.notes) && UniqueComponents(db.components)
    && ComponentsRefer(db.components, db.accounts.Keys, db.packages) && NotesRefer(db.notes, db.packages)
    && PackagesUsed(db.packages.Keys - {packageId}, db.components, db.notes) && AccountsUsed(db.accounts.Keys, db.components)
  }

  lemma PackageInsertKeeps(db: Db, r: Recording, id: Id)
    requires db.Consistent() && PackageInserted(db, r, id).Some?
    ensures var inserted := PackageInserted(db, r, id).value;
            Awaits(inserted.0, inserted.1) && inserted.0.HasCommitment(inserted.1, r.commitment)
  {
    var found := db.FindPackage(r.commitment);
    if found.None? {
      forall p | p in db.packages ensures db.packages[p].commitment != r.commitment {
        assert !db.HasCommitment(p, r.commitment);
      }
    }
  }

  lemma ComponentInsertKeeps(db: Db, r: Recording, packageId: Id, ids: NewIds)
    requires Awaits(db, packageId) && Names(db, Some(packageId), r.commitment)
    requires ComponentInserted(db, r, packageId, ids).Committed?
    ensures ComponentInserted(db, r, packageId, ids).db.Consistent()
  {
    var account := AccountRow(r.networkId, r.root);
    var (middle, accountId) := AccountInserted(db, account, ids.account).value;
    var row := ComponentRow(accountId, packageId, r.commitment, r.source, r.now);
    assert middle == db.(accounts := middle.accounts) && middle.accounts.Keys == db.accounts.Keys + {accountId};
    NewComponentUses(middle, ids.record, row);
  }

  lemma NoteInsertKeeps(db: Db, r: Recording, packageId: Id, ids: NewIds)
    requires Awaits(db, packageId) && Names(db, Some(packageId), r.commitment)
    requires NoteInserted(db, r, packageId, ids).Committed?
    ensures NoteInserted(db, r, packageId, ids).db.Consistent()
  {
    var row := NoteRow(r.networkId, r.root, r.source, packageId, r.commitment, r.now);
    NewNoteUses(db, ids.record, row);
  }

  /**
   Recorded, refused or rolled back, a verification leaves the tables
   consistent, also when the package it read beforehand is gone.
   */
  lemma RecordingKeepsConsistent(db: Db, stored: Option<Id>, r: Recording, ids: NewIds)
    requires db.Consistent() && Names(db, stored, r.commitment)
    ensures AfterRecording(db, stored, r, ids).Consistent()
  {
    if Recorded(db, stored, r, ids).Committed? {
      var before, packageId := db, 0;
      if stored.Some? {
        packageId := stored.value;
      } else {
        PackageInsertKeeps(db, r, ids.package);
        before := PackageInserted(db, r, ids.package).value.0;
        packageId := PackageInserted(db, r, ids.package).value.1;
      }
      if r.isAccount {
        ComponentInsertKeeps(before, r, packageId, ids);
      } else {
        NoteInsertKeeps(before, r, packageId, ids);
      }
    }
  }

  // --- What a recording adds, and when it is refused ---

  /** The account row is that of the code verified. */
  ghost predicate IsOfAccount(db: Db, a: Id, r: Recording) {
    a in db.accounts && db.accounts[a].networkId == r.networkId && db.accounts[a].code == r.root
  }

  /** The package is recorded for the resource already. */
  ghost predicate Verified(db: Db, r: Recording) {
    if r.isAccount then
      exists c :: c in db.components && db.components[c].packageCommitment == r.commitment && IsOfAccount(db, db.components[c].accountId, r)
    else exists n :: n in db.notes && db.notes[n].networkId == r.networkId && db.notes[n].script == r.root
  }

  /** `after` has one more row than `before`, unless it had it. */
  ghost predicate HasOneMore<V(!new)>(before: map<Id, V>, after: map<Id, V>, id: Id, row: V) {
    after == before[id := row] && (id in before ==> before[id] == row)
  }

  /** The package found or new, the account code found or new, and one new record of the one for the other. */
  ghost predicate AddsRecord(db: Db, after: Db, packageId: Id, r: Recording, id: Id) {
    && AddsPackage(db, after, packageId, r)
    && id !in db.components && id !in db.notes
    && if r.isAccount then
         && after.notes == db.notes
         && exists a :: HasOneMore(db.accounts, after.accounts, a, AccountRow(r.networkId, r.root))
                     && after.components == db.components[id := ComponentRow(a, packageId, r.commitment, r.source, r.now)]
       else
         && after.accounts == db.accounts && after.components == db.components
         && after.notes == db.notes[id := NoteRow(r.networkId, r.root, r.source, packageId, r.commitment, r.now)]
  }

  ghost predicate Unused(db: Db, ids: NewIds) {
    ids.package !in db.packages && ids.account !in db.accounts && ids.record !in db.components && ids.record !in db.notes
  }

  /** The package found by commitment, or added. */
  ghost predicate AddsPackage(db: Db, after: Db, packageId: Id, r: Recording) {
    && packageId in after.packages && after.packages[packageId].commitment == r.commitment
    && HasOneMore(db.packages, after.packages, packageId, after.packages[packageId])
    && (packageId !in db.packages ==> after.packages[packageId] == PackageRow(r.commitment, Some(r.entrypoint), None))
  }

  lemma PackageExactly(db: Db, r: Recording, id: Id)
    requires id !in db.packages
    ensures var inserted := PackageInserted(db, r, id);
            && inserted.Some? && inserted.value.0 == db.(packages := inserted.value.0.packages)
            && AddsPackage(db, inserted.value.0, inserted.value.1, r)
    ensures db.FindPackage(r.commitment).Some? ==> PackageInserted(db, r, id) == Some((db, db.FindPackage(r.commitment).value))
  {}

  lemma FoundPackageIsThere(db: Db, r: Recording, ids: NewIds)
    requires Unused(db, ids)
    ensures var inserted := PackageInserted(db, r, ids.package);
            inserted.Some? && Recorded(db, db.FindPackage(r.commitment), r, ids)
              == (if r.isAccount then ComponentInserted(inserted.value.0, r, inserted.value.1, ids)
                  else NoteInserted(inserted.value.0, r, inserted.value.1, ids))
  {}

  /** With new ids drawn, a verification is refused exactly when the package is recorded for the resource already; otherwise it adds its record and nothing else. */
  lemma RecordedExactly(db: Db, r: Recording, ids: NewIds)
    requires db.Consistent() && Unused(db, ids)
    ensures var outcome := Recorded(db, db.FindPackage(r.commitment), r, ids);
            if Verified(db, r) then outcome == AlreadyVerified
            else outcome.Committed? && AddsRecord(db, outcome.db, outcome.packageId, r, ids.record)
  {
    FoundPackageIsThere(db, r, ids);
    PackageExactly(db, r, ids.package);
    VerifiedIsFound(db, r);
  }

  lemma VerifiedIsFound(db: Db, r: Recording)
    requires db.Consistent()
    ensures r.isAccount ==> (Verified(db, r) <==>
      exists a :: a in db.accounts && db.accounts[a] == AccountRow(r.networkId, r.root) && db.HasComponent(a, r.commitment))
    ensures !r.isAccount ==> (Verified(db, r) <==> db.HasNote(r.networkId, r.root))
  {
    if r.isAccount && Verified(db, r) {
      var c :| c in db.components && db.components[c].packageCommitment == r.commitment && IsOfAccount(db, db.components[c].accountId, r);
      assert db.HasComponent(db.components[c].accountId, r.commitment);
    }
  }

  /** So the same verification again is refused. */
  lemma RepeatIsRefused(db: Db, r: Recording, ids: NewIds, again: NewIds)
    requires db.Consistent() && Unused(db, ids) && !Verified(db, r)
    ensures var outcome := Recorded(db, db.FindPackage(r.commitment), r, ids);
            && outcome.Committed?
            && (Unused(outcome.db, again) ==>
                  Recorded(outcome.db, outcome.db.FindPackage(r.commitment), r, again) == AlreadyVerified)
  {
    RecordedExactly(db, r, ids);
    var outcome := Recorded(db, db.FindPackage(r.commitment), r, ids);
    RecordedIsVerified(db, outcome.db, outcome.packageId, r, ids.record);
    RecordingKeepsConsistent(db, db.FindPackage(r.commitment), r, ids);
    if Unused(outcome.db, again) { RecordedExactly(outcome.db, r, again); }
  }

  lemma RecordedIsVerified(db: Db, after: Db, packageId: Id, r: Recording, id: Id)
    requires AddsRecord(db, after, packageId, r, id)
    ensures Verified(after, r)
  {
    if r.isAccount {
      var a :| HasOneMore(db.accounts, after.accounts, a, AccountRow(r.networkId, r.root))
            && after.components == db.components[id := ComponentRow(a, packageId, r.commitment, r.source, r.now)];
      assert id in after.components && after.components[id].accountId == a;
      assert a in after.accounts && IsOfAccount(after, a, r);
    } else {
      assert id in after.notes;
    }
  }

}
