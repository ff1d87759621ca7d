/**
 The directories of builds, on top of the limiter: each build gets a temporary
 directory and an output directory of its own, both deleted when the build throws
 or when whoever uses it is done, whichever step fails.
 */
module Builds {
  import opened Reachability
  import L = Limiter

  type TaskId = L.TaskId

  datatype Dir = ProjectDir(name: string) | TargetDir(name: string)

  const PREFIX := "miden-project-"

  /** The output directory's name: the temporary directory's, with each `-` an `_`. */
  function OutputName(name: string): (r: string)
    ensures |r| == |name|
    ensures forall i | 0 <= i < |name| :: r[i] == if name[i] == '-' then '_' else name[i]
  {
    if name == "" then "" else [if name[0] == '-' then '_' else name[0]] + OutputName(name[1..])
  }

  /** The names the system draws: the prefix and characters that are neither `-` nor `_`. */
  ghost predicate Drawn(name: string) {
    && PREFIX <= name
    && forall i | |PREFIX| <= i < |name| :: name[i] != '-' && name[i] != '_'
  }

  /** What a request with directories is doing. While building or cleaning up after a throw it holds its slot. */
  datatype Stage = Building | Throwing | Using | Cleaning

  datatype Holding = Holding(name: string, stage: Stage)

  /**
   `leaked` are the directories left when the wait for their deletion ended: a
   failure is only logged, and ends the wait for the other deletion as well, which
   may still succeed later.
   */
  datatype World = World(tasks: L.State, held: map<TaskId, Holding>, disk: set<Dir>, leaked: set<Dir>)

  function Owned(name: string): set<Dir> {
    {ProjectDir(name), TargetDir(OutputName(name))}
  }

  datatype Event =
    | Request(id: TaskId, hasSignal: bool, alreadyAborted: bool)
    | ClientAborts(id: TaskId)
    | TempDirFails(id: TaskId)
    | TempDirMade(id: TaskId, name: string)
    | TargetDirMade(id: TaskId)
    | BuildThrows(id: TaskId)
    | BuildReturns(id: TaskId)
    | UseEnds(id: TaskId)
    | Removed(id: TaskId, removed: set<Dir>)
    | RemovedLate(dir: Dir)

  predicate HasSlot(w: World, id: TaskId) {
    id in w.tasks.fates && w.tasks.fates[id] == L.Running
  }

  predicate At(w: World, id: TaskId, stage: Stage) {
    id in w.held && w.held[id].stage == stage
  }

  ghost predicate Enabled(w: World, e: Event) {
    match e
    case Request(id, hasSignal, alreadyAborted) => L.Enabled(w.tasks, L.Arrive(id, hasSignal, alreadyAborted))
    case ClientAborts(_) => true
    case TempDirFails(id) => HasSlot(w, id) && id !in w.held
    case TempDirMade(id, name) => HasSlot(w, id) && id !in w.held && Drawn(name) && ProjectDir(name) !in w.disk
    case TargetDirMade(id) => At(w, id, Building)
    case BuildThrows(id) => At(w, id, Building)
    case BuildReturns(id) => At(w, id, Building)
    case UseEnds(id) => At(w, id, Using)
    case Removed(id, removed) => (At(w, id, Throwing) || At(w, id, Cleaning)) && removed <= Owned(w.held[id].name)
    case RemovedLate(dir) => dir in w.leaked
  }

  function Moved(w: World, id: TaskId, stage: Stage): World
    requires id in w.held
  {
    w.(held := w.held[id := w.held[id].(stage := stage)])
  }

  /** The removal waited for: what is left of the two directories stays behind. */
  function AfterRemoval(w: World, id: TaskId, removed: set<Dir>): World
    requires id in w.held
  {
    w.(disk := w.disk - removed, leaked := (w.leaked + w.disk * Owned(w.held[id].name)) - removed, held := w.held - {id})
  }

  function Next(limits: L.Limits, w: World, e: Event): World
    requires Enabled(w, e)
  {
    match e
    case Request(id, hasSignal, alreadyAborted) => w.(tasks := L.Next(limits, w.tasks, L.Arrive(id, hasSignal, alreadyAborted)))
    case ClientAborts(id) => w.(tasks := L.Next(limits, w.tasks, L.Abort(id)))
    case TempDirFails(id) => w.(tasks := L.Next(limits, w.tasks, L.Finish(id)))
    case TempDirMade(id, name) => w.(held := w.held[id := Holding(name, Building)], disk := w.disk + {ProjectDir(name)})
    case TargetDirMade(id) => w.(disk := w.disk + {TargetDir(OutputName(w.held[id].name))})
    case BuildThrows(id) => Moved(w, id, Throwing)
    case BuildReturns(id) =>
      // The slot is released before the build is handed to `use`.
      Moved(w, id, Using).(tasks := L.Next(limits, w.tasks, L.Finish(id)))
    case UseEnds(id) => Moved(w, id, Cleaning)
    case Removed(id, removed) =>
      var after := AfterRemoval(w, id, removed);
      if At(w, id, Throwing) then after.(tasks := L.Next(limits, w.tasks, L.Finish(id))) else after
    case RemovedLate(dir) => w.(disk := w.disk - {dir}, leaked := w.leaked - {dir})
  }

  // --- What every event keeps ---

  /** A build that has not returned holds its slot; one in use has given it back. */
  ghost predicate SlotsMatch(w: World) {
    forall id | id in w.held ::
      && id in w.tasks.fates
      && w.tasks.fates[id] == (if w.held[id].stage == Building || w.held[id].stage == Throwing then L.Running else L.Done)
  }

  /** Every build has its temporary directory, under a name of its own. */
  ghost predicate Housed(held: map<TaskId, Holding>, disk: set<Dir>) {
    && (forall id | id in held :: Drawn(held[id].name) && ProjectDir(held[id].name) in disk)
    && (forall a, b | a in held && b in held && a != b :: held[a].name != held[b].name)
  }

  ghost predicate NoneLeaked(held: map<TaskId, Holding>, leaked: set<Dir>) {
    forall id | id in held :: ProjectDir(held[id].name) !in leaked
  }

  ghost predicate HasOwner(held: map<TaskId, Holding>, d: Dir) {
    exists id :: id in held && d in Owned(held[id].name)
  }

  ghost predicate Explained(held: map<TaskId, Holding>, leaked: set<Dir>, d: Dir) {
    d in leaked || HasOwner(held, d)
  }

  /** Every directory is some build's, or one whose deletion failed. */
  ghost predicate Accounted(held: map<TaskId, Holding>, disk: set<Dir>, leaked: set<Dir>) {
    && leaked <= disk
    && forall d {:trigger Explained(held, leaked, d)} | d in disk :: Explained(held, leaked, d)
  }

  ghost predicate Tracked(w: World) {
    SlotsMatch(w) && Housed(w.held, w.disk) && NoneLeaked(w.held, w.leaked) && Accounted(w.held, w.disk, w.leaked)
  }

  ghost predicate Sound(limits: L.Limits, w: World) {
    L.Safe(limits, w.tasks) && Tracked(w)
  }

  /** What the limiter does to one task leaves the others' slots alone. */
  lemma OthersKeepFates(limits: L.Limits, s: L.State, e: L.Event, id: TaskId)
    requires L.Safe(limits, s) && L.Enabled(s, e) && id in s.fates && (s.fates[id] == L.Running || s.fates[id] == L.Done)
    requires e != L.Finish(id)
    ensures id in L.Next(limits, s, e).fates && L.Next(limits, s, e).fates[id] == s.fates[id]
  {}

  lemma LimiterStepIsSound(limits: L.Limits, w: World, e: L.Event)
    requires Sound(limits, w) && L.Enabled(w.tasks, e) && (e.Finish? ==> e.id !in w.held)
    ensures Sound(limits, w.(tasks := L.Next(limits, w.tasks, e)))
  {
    L.NextIsSafe(limits, w.tasks, e);
    forall id | id in w.held ensures id in L.Next(limits, w.tasks, e).fates && L.Next(limits, w.tasks, e).fates[id] == w.tasks.fates[id] {
      OthersKeepFates(limits, w.tasks, e, id);
    }
  }

  /** The build's slot is given back while its directories stay with `use`, or go with them. */
  lemma FinishKeepsOthers(limits: L.Limits, w: World, id: TaskId)
    requires Sound(limits, w) && HasSlot(w, id)
    ensures L.Safe(limits, L.Next(limits, w.tasks, L.Finish(id)))
    ensures var fates := L.Next(limits, w.tasks, L.Finish(id)).fates;
            && id in fates && fates[id] == L.Done
            && forall other | other in w.held && other != id :: other in fates && fates[other] == w.tasks.fates[other]
  {
    L.NextIsSafe(limits, w.tasks, L.Finish(id));
    forall other | other in w.held && other != id
      ensures var fates := L.Next(limits, w.tasks, L.Finish(id)).fates; other in fates && fates[other] == w.tasks.fates[other]
    {
      OthersKeepFates(limits, w.tasks, L.Finish(id), other);
    }
  }

  lemma RemovalIsTracked(w: World, id: TaskId, removed: set<Dir>)
    requires Tracked(w) && id in w.held && removed <= Owned(w.held[id].name)
    ensures Tracked(AfterRemoval(w, id, removed))
  {
    RemovalIsAccounted(w, id, removed);
  }

  lemma RemovalIsAccounted(w: World, id: TaskId, removed: set<Dir>)
    requires Accounted(w.held, w.disk, w.leaked) && id in w.held
    ensures var after := AfterRemoval(w, id, removed); Accounted(after.held, after.disk, after.leaked)
  {
    var after := AfterRemoval(w, id, removed);
    forall d | d in after.disk ensures Explained(after.held, after.leaked, d) {
      assert Explained(w.held, w.leaked, d);
      if d !in after.leaked { OwnerStays(w.held, after.held, d); }
    }
  }

  lemma SlotsStillMatch(w: World, tasks: L.State, id: TaskId)
    requires SlotsMatch(w) && id in w.held && id in tasks.fates && tasks.fates[id] == L.Done
    requires forall other | other in w.held && other != id :: other in tasks.fates && tasks.fates[other] == w.tasks.fates[other]
    ensures SlotsMatch(Moved(w, id, Using).(tasks := tasks))
  {}

  lemma ReturnIsSound(limits: L.Limits, w: World, id: TaskId)
    requires Sound(limits, w) && At(w, id, Building)
    ensures Sound(limits, Moved(w, id, Using).(tasks := L.Next(limits, w.tasks, L.Finish(id))))
  {
    FinishKeepsOthers(limits, w, id);
    SlotsStillMatch(w, L.Next(limits, w.tasks, L.Finish(id)), id);
    MoveKeepsDirs(w, id, Using);
  }

  lemma ThrownRemovalIsSound(limits: L.Limits, w: World, id: TaskId, removed: set<Dir>)
    requires Sound(limits, w) && At(w, id, Throwing) && removed <= Owned(w.held[id].name)
    ensures Sound(limits, AfterRemoval(w, id, removed).(tasks := L.Next(limits, w.tasks, L.Finish(id))))
  {
    RemovalIsTracked(w, id, removed);
    LimiterStepIsSound(limits, AfterRemoval(w, id, removed), L.Finish(id));
  }

  lemma DirectoryEventIsSound(limits: L.Limits, w: World, e: Event)
    requires Sound(limits, w) && Enabled(w, e)
    requires e.TempDirMade? || e.TargetDirMade? || e.BuildThrows? || e.UseEnds? || e.RemovedLate?
    ensures Sound(limits, Next(limits, w, e))
  {
    match e
    case TempDirMade(id, name) => TempDirIsTracked(w, id, name);
    case TargetDirMade(id) =>
    case BuildThrows(id) => MoveIsTracked(w, id, Throwing);
    case UseEnds(id) => MoveIsTracked(w, id, Cleaning);
    case RemovedLate(dir) => LateRemovalIsTracked(w, dir);
  }

  lemma LateRemovalIsTracked(w: World, dir: Dir)
    requires Tracked(w) && dir in w.leaked
    ensures Tracked(w.(disk := w.disk - {dir}, leaked := w.leaked - {dir}))
  {
    forall d | d in w.disk - {dir} ensures Explained(w.held, w.leaked - {dir}, d) { assert Explained(w.held, w.leaked, d); }
  }

  lemma NextIsSound(limits: L.Limits, w: World, e: Event)
    requires Sound(limits, w) && Enabled(w, e)
    ensures Sound(limits, Next(limits, w, e))
  {
    match e
    case Request(id, hasSignal, alreadyAborted) => LimiterStepIsSound(limits, w, L.Arrive(id, hasSignal, alreadyAborted));
    case ClientAborts(id) => LimiterStepIsSound(limits, w, L.Abort(id));
    case TempDirFails(id) => LimiterStepIsSound(limits, w, L.Finish(id));
    case BuildReturns(id) => ReturnIsSound(limits, w, id);
    case Removed(id, removed) =>
      if At(w, id, Throwing) { ThrownRemovalIsSound(limits, w, id, removed); } else { RemovalIsTracked(w, id, removed); }
    case _ => DirectoryEventIsSound(limits, w, e);
  }

  lemma TempDirIsTracked(w: World, id: TaskId, name: string)
    requires Tracked(w) && HasSlot(w, id) && id !in w.held && Drawn(name) && ProjectDir(name) !in w.disk
    ensures Tracked(w.(held := w.held[id := Holding(name, Building)], disk := w.disk + {ProjectDir(name)}))
  {
    TempDirIsAccounted(w.held, w.disk, w.leaked, id, name);
  }

  lemma OwnerStays(held: map<TaskId, Holding>, after: map<TaskId, Holding>, d: Dir)
    requires HasOwner(held, d) && forall id | id in held && d in Owned(held[id].name) :: id in after && after[id].name == held[id].name
    ensures HasOwner(after, d)
  {
    var owner :| owner in held && d in Owned(held[owner].name);
    assert owner in after && d in Owned(after[owner].name);
  }

  lemma TempDirIsAccounted(held: map<TaskId, Holding>, disk: set<Dir>, leaked: set<Dir>, id: TaskId, name: string)
    requires Accounted(held, disk, leaked) && id !in held
    ensures Accounted(held[id := Holding(name, Building)], disk + {ProjectDir(name)}, leaked)
  {
    var after := held[id := Holding(name, Building)];
    assert id in after && ProjectDir(name) in Owned(after[id].name);
    forall d | d in disk + {ProjectDir(name)} ensures Explained(after, leaked, d) {
      if d in disk {
        assert Explained(held, leaked, d);
        if d !in leaked { OwnerStays(held, after, d); }
      }
    }
  }

  lemma MoveKeepsDirs(w: World, id: TaskId, stage: Stage)
    requires Housed(w.held, w.disk) && Accounted(w.held, w.disk, w.leaked) && id in w.held
    ensures var after := Moved(w, id, stage); Housed(after.held, after.disk) && Accounted(after.held, after.disk, after.leaked)
  {
    var after := Moved(w, id, stage).held;
    forall d | d in w.disk ensures Explained(after, w.leaked, d) {
      assert Explained(w.held, w.leaked, d);
      if d !in w.leaked { OwnerStays(w.held, after, d); }
    }
  }

  lemma MoveIsTracked(w: World, id: TaskId, stage: Stage)
    requires Tracked(w) && id in w.held
    requires (stage == Building || stage == Throwing) <==> (w.held[id].stage == Building || w.held[id].stage == Throwing)
    ensures Tracked(Moved(w, id, stage))
  {
    MoveKeepsDirs(w, id, stage);
  }

  // --- Schedules ---

  ghost function Steps(limits: L.Limits): (World, World) -> bool {
    (a: World, b: World) => exists e :: Enabled(a, e) && b == Next(limits, a, e)
  }

  /** Every removal takes both directories. */
  ghost function CleanSteps(limits: L.Limits): (World, World) -> bool {
    (a: World, b: World) =>
      exists e :: Enabled(a, e) && b == Next(limits, a, e) && (e.Removed? ==> e.removed == Owned(a.held[e.id].name))
  }

  const EMPTY: World := World(L.INITIAL, map[], {}, {})

  /** No two builds share a directory. */
  lemma DirectoriesAreApart(limits: L.Limits, w: World, a: TaskId, b: TaskId)
    requires Reaches(Steps(limits), EMPTY, w) && a in w.held && b in w.held && a != b
    ensures Owned(w.held[a].name) !! Owned(w.held[b].name)
  {
    EveryScheduleIsSound(limits, w);
  }

  /** No more builds at once than the limit, counting those still deleting what a failed build left. */
  lemma BuildsAreLimited(limits: L.Limits, w: World, building: set<TaskId>)
    requires Reaches(Steps(limits), EMPTY, w)
    requires forall id | id in building :: At(w, id, Building) || At(w, id, Throwing)
    ensures |building| <= limits.concurrency
  {
    EveryScheduleIsSound(limits, w);
    SubsetIsNoLarger(building, L.RunningTasks(w.tasks.fates));
  }

  lemma SubsetIsNoLarger(a: set<TaskId>, b: set<TaskId>)
    requires a <= b
    ensures |a| <= |b|
  {
    assert b == a + (b - a);
  }

  lemma EveryScheduleIsSound(limits: L.Limits, w: World)
    requires Reaches(Steps(limits), EMPTY, w)
    ensures Sound(limits, w)
  {
    L.InitiallySafe(limits);
    var sound := (x: World) => Sound(limits, x);
    forall a, b | sound(a) && Steps(limits)(a, b) ensures sound(b) {
      var e :| Enabled(a, e) && b == Next(limits, a, e);
      NextIsSound(limits, a, e);
    }
    Kept(Steps(limits), sound, EMPTY, w);
  }

  /** Once all requests have ended, the directories on disk are exactly those whose deletion failed. */
  lemma WhatIsLeftIsLeaked(limits: L.Limits, w: World)
    requires Reaches(Steps(limits), EMPTY, w) && w.held == map[]
    ensures w.disk == w.leaked
  {
    EveryScheduleIsSound(limits, w);
    forall d | d in w.disk ensures d in w.leaked { assert Explained(w.held, w.leaked, d); }
  }

  /**
   Whichever step throws, the directories on disk are those of requests building
   or in use, each with its own; so none remain once all requests have ended.
   */
  lemma NothingIsLeftBehind(limits: L.Limits, w: World)
    requires Reaches(CleanSteps(limits), EMPTY, w)
    ensures forall d {:trigger HasOwner(w.held, d)} | d in w.disk :: HasOwner(w.held, d)
    ensures forall id | id in w.held :: ProjectDir(w.held[id].name) in w.disk
    ensures w.held == map[] ==> w.disk == {}
  {
    CleanIsAStep(limits, w);
    EveryScheduleIsSound(limits, w);
    NothingIsLeaked(limits, w);
    forall d | d in w.disk ensures HasOwner(w.held, d) { assert Explained(w.held, w.leaked, d); }
  }

  lemma CleanStepLeaksNothing(limits: L.Limits, w: World, e: Event)
    requires Enabled(w, e) && w.leaked == {} && (e.Removed? ==> e.removed == Owned(w.held[e.id].name))
    ensures Next(limits, w, e).leaked == {}
  {}

  lemma NothingIsLeaked(limits: L.Limits, w: World)
    requires Reaches(CleanSteps(limits), EMPTY, w)
    ensures w.leaked == {}
  {
    var clean := (x: World) => x.leaked == {};
    forall a, b | clean(a) && CleanSteps(limits)(a, b) ensures clean(b) {
      var e :| Enabled(a, e) && b == Next(limits, a, e) && (e.Removed? ==> e.removed == Owned(a.held[e.id].name));
      CleanStepLeaksNothing(limits, a, e);
    }
    Kept(CleanSteps(limits), clean, EMPTY, w);
  }

  lemma CleanIsAStep(limits: L.Limits, w: World)
    requires Reaches(CleanSteps(limits), EMPTY, w)
    ensures Reaches(Steps(limits), EMPTY, w)
  {
    var reached := (x: World) => Reaches(Steps(limits), EMPTY, x);
    ReachesSelf(Steps(limits), EMPTY);
    forall a, b | reached(a) && CleanSteps(limits)(a, b) ensures reached(b) {
      ReachesNext(Steps(limits), EMPTY, a, b);
    }
    Kept(CleanSteps(limits), reached, EMPTY, w);
  }
}
