/**
 One request's build, step by step: its directories are created, the project built,
 the build handed to `use`, and the directories deleted, whichever step throws.
 */
module Compile {
  import opened Wrappers
  import opened Reachability
  import opened Builds
  import L = Limiter

  datatype Failure = NoTempDir | BuildThrew | UseThrew

  /**
   How each awaited step goes: the name drawn if any, which steps throw, which
   deletions fail, and which are slow enough to be under way when another fails.
   */
  datatype Course = Course(
    name: Option<string>, targetMade: bool, buildThrows: bool, useThrows: bool, failing: set<Dir>, slow: set<Dir>)

  /** The step that fails first, if any. */
  function Outcome(c: Course): Result<(), Failure> {
    if c.name.None? then Err(NoTempDir)
    else if c.buildThrows then Err(BuildThrew)
    else if c.useThrows then Err(UseThrew)
    else Ok(())
  }

  function Made(c: Course): set<Dir> {
    if c.name.None? then {}
    else {ProjectDir(c.name.value)} + if c.targetMade then {TargetDir(OutputName(c.name.value))} else {}
  }

  /** What is gone when the wait for the deletions ends: everything, or what is deleted by the first failure. */
  function Gone(dirs: set<Dir>, failing: set<Dir>, slow: set<Dir>): set<Dir> {
    if dirs !! failing then dirs else dirs - failing - slow
  }

  /** Deletions a failure leaves under way. */
  function UnderWay(dirs: set<Dir>, failing: set<Dir>, slow: set<Dir>): set<Dir> {
    if dirs !! failing then {} else dirs * slow - failing
  }

  function Deleted(c: Course): set<Dir> {
    if c.name.None? then {} else Gone(Owned(c.name.value), c.failing, c.slow)
  }

  function StillDeleting(c: Course): set<Dir> {
    if c.name.None? then {} else UnderWay(Owned(c.name.value), c.failing, c.slow)
  }

  /**
   What is left of one request. Of its two directories, one that was there stays
   when its own deletion fails, or, being slow, when the other's does, and in the
   second case alone it is still being deleted; no other directory is touched.
   */
  lemma CourseLeaves(c: Course, before: set<Dir>, d: Dir)
    ensures c.name.None? ==> Outcome(c) == Err(NoTempDir) && Made(c) == Deleted(c) == StillDeleting(c) == {}
    ensures c.name.Some? ==>
      var temp, output := ProjectDir(c.name.value), TargetDir(OutputName(c.name.value));
      var fails := temp in c.failing || output in c.failing;
      && (Outcome(c) == Ok(()) <==> !c.buildThrows && !c.useThrows) && (Outcome(c) == Err(BuildThrew) <==> c.buildThrows)
      && (d in before + Made(c) - Deleted(c) <==>
            || (d in before && d != temp && d != output)
            || ((d == temp || (d == output && (c.targetMade || d in before))) && (d in c.failing || (d in c.slow && fails))))
      && (d in StillDeleting(c) <==> (d == temp || d == output) && d in c.slow && d !in c.failing && fails)
  {}

  class Compiler {
    var disk: set<Dir>
    /** The directories being deleted that nobody waits for any more. */
    var deleting: set<Dir>
    /** How often a slot was given back. */
    var releases: nat
    /** What was on disk, and the slots given back, each time a build was used. */
    ghost var uses: seq<(set<Dir>, nat)>

    /** Both deletions at once: a failure is only logged, and ends the wait for the other. */
    method RemoveDirs(dirs: set<Dir>, failing: set<Dir>, slow: set<Dir>)
      modifies this`disk, this`deleting
      ensures disk == old(disk) - Gone(dirs, failing, slow)
      ensures deleting == old(deleting) + UnderWay(dirs, failing, slow)
    {
      if dirs !! failing {
        disk := disk - dirs;
      } else {
        disk := disk - (dirs - failing - slow);
        deleting := deleting + (dirs * slow - failing);
      }
    }

    /** A deletion left under way ends. */
    method DeletionEnds(dir: Dir)
      requires dir in deleting
      modifies this`disk, this`deleting
      ensures disk == old(disk) - {dir} && deleting == old(deleting) - {dir}
    {
      disk, deleting := disk - {dir}, deleting - {dir};
    }

    /** The directories a build leaves to its caller, which are gone already if it throws. */
    method Compile(c: Course) returns (r: Result<set<Dir>, Failure>)
      modifies this`disk, this`deleting
      ensures r.Ok? <==> c.name.Some? && !c.buildThrows
      ensures r.Ok? ==> r.value == Owned(c.name.value) && disk == old(disk) + Made(c) && deleting == old(deleting)
      ensures r.Err? ==> Outcome(c) == Err(r.error)
      ensures r.Err? ==> disk == old(disk) + Made(c) - Deleted(c) && deleting == old(deleting) + StillDeleting(c)
    {
      if c.name.None? {
        return Err(NoTempDir);
      }
      disk := disk + {ProjectDir(c.name.value)};
      var target := TargetDir(OutputName(c.name.value));
      if c.targetMade {
        disk := disk + {target};
      }
      if c.buildThrows {
        RemoveDirs({ProjectDir(c.name.value), target}, c.failing, c.slow);
        return Err(BuildThrew);
      }
      return Ok({ProjectDir(c.name.value), target});
    }

    /**
     With a slot granted: it is given back once, before the build is used, the build
     is used exactly when it returns, on top of its directories, and all that stays
     is what could not be deleted or is still being deleted.
     */
    method QueueCompile(c: Course) returns (r: Result<(), Failure>)
      modifies this
      ensures r == Outcome(c)
      ensures releases == old(releases) + 1
      ensures disk == old(disk) + Made(c) - Deleted(c) && deleting == old(deleting) + StillDeleting(c)
      ensures uses == old(uses) + if c.name.Some? && !c.buildThrows then [(old(disk) + Made(c), old(releases) + 1)] else []
    {
      var built := Compile(c);
      releases := releases + 1;
      if built.Err? {
        return Err(built.error);
      }
      uses := uses + [(disk, releases)];
      r := if c.useThrows then Err(UseThrew) else Ok(());
      RemoveDirs(built.value, c.failing, c.slow);
    }
  }

  // --- A request's course is one of the schedules that interleave ---

  function Removal(w: World, id: TaskId, c: Course): Event
    requires id in w.held
  {
    Event.Removed(id, Gone(Owned(w.held[id].name), c.failing, c.slow))
  }

  lemma Follows(limits: L.Limits, from: World, w: World, e: Event)
    requires Enabled(w, e)
    ensures Reaches(Steps(limits), from, w) ==> Reaches(Steps(limits), from, Next(limits, w, e))
  {
    if Reaches(Steps(limits), from, w) { ReachesNext(Steps(limits), from, w, Next(limits, w, e)); }
  }

  function AfterDirs(w: World, id: TaskId, c: Course): World
    requires c.name.Some?
  {
    w.(held := w.held[id := Holding(c.name.value, Building)], disk := w.disk + Made(c))
  }

  lemma DirsAreMade(limits: L.Limits, w: World, id: TaskId, c: Course)
    requires HasSlot(w, id) && id !in w.held && c.name.Some? && Drawn(c.name.value) && ProjectDir(c.name.value) !in w.disk
    ensures Reaches(Steps(limits), w, AfterDirs(w, id, c))
  {
    ReachesSelf(Steps(limits), w);
    var first := Event.TempDirMade(id, c.name.value);
    Follows(limits, w, w, first);
    var made := Next(limits, w, first);
    if c.targetMade {
      Follows(limits, w, made, TargetDirMade(id));
      assert Next(limits, made, TargetDirMade(id)) == AfterDirs(w, id, c);
    } else {
      assert made == AfterDirs(w, id, c);
    }
  }

  lemma ThrownBuildIsScheduled(limits: L.Limits, w: World, built: World, id: TaskId, c: Course) returns (end: World)
    requires Reaches(Steps(limits), w, built) && At(built, id, Building)
    ensures Reaches(Steps(limits), w, end) && end.tasks == L.Next(limits, built.tasks, L.Finish(id))
    ensures id !in end.held && end.disk == built.disk - Gone(Owned(built.held[id].name), c.failing, c.slow)
  {
    Follows(limits, w, built, BuildThrows(id));
    var thrown := Next(limits, built, BuildThrows(id));
    Follows(limits, w, thrown, Removal(thrown, id, c));
    end := Next(limits, thrown, Removal(thrown, id, c));
  }

  lemma UsedBuildIsScheduled(limits: L.Limits, w: World, built: World, id: TaskId, c: Course) returns (end: World)
    requires Reaches(Steps(limits), w, built) && At(built, id, Building)
    ensures Reaches(Steps(limits), w, end) && end.tasks == L.Next(limits, built.tasks, L.Finish(id))
    ensures id !in end.held && end.disk == built.disk - Gone(Owned(built.held[id].name), c.failing, c.slow)
  {
    Follows(limits, w, built, BuildReturns(id));
    var using := Next(limits, built, BuildReturns(id));
    Follows(limits, w, using, UseEnds(id));
    var used := Next(limits, using, UseEnds(id));
    Follows(limits, w, used, Removal(used, id, c));
    end := Next(limits, used, Removal(used, id, c));
  }

  /** What `QueueCompile` does to the disk is what some schedule of the request's own steps does. */
  lemma CourseIsScheduled(limits: L.Limits, w: World, id: TaskId, c: Course) returns (end: World)
    requires HasSlot(w, id) && id !in w.held
    requires c.name.Some? ==> Drawn(c.name.value) && ProjectDir(c.name.value) !in w.disk
    ensures Reaches(Steps(limits), w, end) && id !in end.held
    ensures end.tasks == L.Next(limits, w.tasks, L.Finish(id)) && end.disk == w.disk + Made(c) - Deleted(c)
  {
    if c.name.None? {
      ReachesSelf(Steps(limits), w);
      Follows(limits, w, w, TempDirFails(id));
      end := Next(limits, w, TempDirFails(id));
    } else {
      DirsAreMade(limits, w, id, c);
      if c.buildThrows {
        end := ThrownBuildIsScheduled(limits, w, AfterDirs(w, id, c), id, c);
      } else {
        end := UsedBuildIsScheduled(limits, w, AfterDirs(w, id, c), id, c);
      }
    }
  }
}
