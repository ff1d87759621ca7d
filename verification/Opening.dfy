/** Opening a submitted files map as a project, and finding the entrypoint of a stored one. */
module Opening {
  import opened Wrappers
  import opened Paths
  import opened Project

  /** What reading a `Cargo.toml` yields. */
  datatype Manifest = NotToml | NoPackage | Package(name: string)

  type Reader = string -> Manifest

  const CARGO := "Cargo.toml"
  const MIDEN := "miden-project.toml"

  datatype Error =
    | MissingFiles | InvalidPath(path: string) | InvalidContent(path: string)
    | InvalidEntrypoint | MissingCargo | MissingMiden | InvalidToml(path: string) | WithoutPackage(path: string)

  datatype Opened = Opened(files: seq<Entry>, entrypoint: string, name: string)

  function ProjectPath(dir: string, file: string): string {
    if dir == "." then file else dir + "/" + file
  }

  function Get(entries: seq<Entry>, path: string): (r: Option<Value>)
    ensures r.Some? ==> Entry(path, r.value) in entries
    ensures r.None? ==> forall e | e in entries :: e.path != path
  {
    if entries == [] then None else if entries[0].path == path then Some(entries[0].content) else Get(entries[1..], path)
  }

  predicate Acceptable(entry: Entry) {
    Clean(entry.path) && entry.content.Text?
  }

  predicate AllAcceptable(entries: seq<Entry>) {
    forall i | 0 <= i < |entries| :: Acceptable(entries[i])
  }

  ghost predicate FirstRefused(entries: seq<Entry>, i: nat) {
    i < |entries| && !Acceptable(entries[i]) && forall k | 0 <= k < i :: Acceptable(entries[k])
  }

  function Complaint(entry: Entry): Error {
    if !Clean(entry.path) then InvalidPath(entry.path) else InvalidContent(entry.path)
  }

  /** What an entrypoint's directory holds, once the files are accepted. */
  function OpenAt(read: Reader, entries: seq<Entry>, dir: string): Result<Opened, Error> {
    var cargo := Get(entries, ProjectPath(dir, CARGO));
    if cargo.None? || !cargo.value.Text? then Err(MissingCargo)
    else if Get(entries, ProjectPath(dir, MIDEN)).None? then Err(MissingMiden)
    else
      match read(cargo.value.text)
      case NotToml => Err(InvalidToml(ProjectPath(dir, CARGO)))
      case NoPackage => Err(WithoutPackage(ProjectPath(dir, CARGO)))
      case Package(name) => Ok(Opened(entries, dir, name))
  }

  /** A files map is opened, or the first thing wrong with it is said: its files in their order, then its entrypoint, then what is there. */
  ghost predicate Judged(read: Reader, files: Value, at: Option<string>, r: Result<Opened, Error>) {
    if !files.Object? then r == Err(MissingFiles)
    else if !AllAcceptable(files.entries) then
      exists i: nat :: FirstRefused(files.entries, i) && r == Err(Complaint(files.entries[i]))
    else
      match at
      case None => r == Err(InvalidEntrypoint)
      case Some(dir) => r == OpenAt(read, files.entries, dir)
  }

  ghost predicate OpensTo(read: Reader, files: Value, entrypoint: Value, r: Result<Opened, Error>) {
    Judged(read, files, Normalized(entrypoint), r)
  }

  method OpenProject(read: Reader, files: Value, entrypoint: Value) returns (r: Result<Opened, Error>)
    ensures OpensTo(read, files, entrypoint, r)
  {
    if !files.Object? {
      return Err(MissingFiles);
    }
    var entries := files.entries;
    for i := 0 to |entries|
      invariant forall k | 0 <= k < i :: Acceptable(entries[k])
    {
      assert !Acceptable(entries[i]) ==> FirstRefused(entries, i);
      if !Clean(entries[i].path) {
        return Err(InvalidPath(entries[i].path));
      }
      if !entries[i].content.Text? {
        return Err(InvalidContent(entries[i].path));
      }
    }
    var dir := NormalizeEntrypoint(entrypoint);
    if dir.None? {
      return Err(InvalidEntrypoint);
    }
    var cargoPath := ProjectPath(dir.value, CARGO);
    var cargo := Get(entries, cargoPath);
    if cargo.None? {
      return Err(MissingCargo);
    }
    if Get(entries, ProjectPath(dir.value, MIDEN)).None? {
      return Err(MissingMiden);
    }
    match read(cargo.value.text)
    case NotToml => return Err(InvalidToml(cargoPath));
    case NoPackage => return Err(WithoutPackage(cargoPath));
    case Package(name) => return Ok(Opened(entries, dir.value, name));
  }

  // --- Which complaint is made of what ---

  /** The files hold one at `file` under `dir`, with this content. */
  ghost predicate HasFile(entries: seq<Entry>, dir: string, file: string, content: Value) {
    exists e :: e in entries && e.content == content && e.path == if dir == "." then file else dir + "/" + file
  }

  ghost predicate LacksFile(entries: seq<Entry>, dir: string, file: string) {
    forall content :: !HasFile(entries, dir, file, content)
  }

  lemma GetExactly(entries: seq<Entry>, dir: string, file: string, content: Value)
    requires DistinctPaths(entries)
    ensures Get(entries, ProjectPath(dir, file)) == Some(content) <==> HasFile(entries, dir, file, content)
  {
    var found := Get(entries, ProjectPath(dir, file));
    if HasFile(entries, dir, file, content) {
      var e :| e in entries && e.content == content && e.path == ProjectPath(dir, file);
      var i :| 0 <= i < |entries| && entries[i] == e;
      var j :| 0 <= j < |entries| && entries[j] == Entry(e.path, found.value);
      assert i == j;
    }
  }

  lemma LacksExactly(entries: seq<Entry>, dir: string, file: string)
    requires DistinctPaths(entries)
    ensures Get(entries, ProjectPath(dir, file)) == None <==> LacksFile(entries, dir, file)
  {
    var found := Get(entries, ProjectPath(dir, file));
    if found.Some? {
      GetExactly(entries, dir, file, found.value);
    } else {
      forall content ensures !HasFile(entries, dir, file, content) { GetExactly(entries, dir, file, content); }
    }
  }

  lemma ReadAtDirectory(read: Reader, entries: seq<Entry>, dir: string)
    requires Get(entries, ProjectPath(dir, CARGO)).Some? && Get(entries, ProjectPath(dir, CARGO)).value.Text?
    requires Get(entries, ProjectPath(dir, MIDEN)).Some?
    ensures ReadsAs(read(Get(entries, ProjectPath(dir, CARGO)).value.text), entries, dir, OpenAt(read, entries, dir))
  {}

  /** At a directory: its `Cargo.toml`, then its `miden-project.toml`, then what the first of them reads as. */
  lemma DirectoryExactly(read: Reader, entries: seq<Entry>, dir: string)
    requires AllAcceptable(entries) && DistinctPaths(entries)
    ensures var r := OpenAt(read, entries, dir);
      if LacksFile(entries, dir, "Cargo.toml") then r == Err(MissingCargo)
      else if LacksFile(entries, dir, "miden-project.toml") then r == Err(MissingMiden)
      else exists text :: HasFile(entries, dir, "Cargo.toml", Text(text)) && ReadsAs(read(text), entries, dir, r)
  {
    LacksExactly(entries, dir, "Cargo.toml");
    LacksExactly(entries, dir, "miden-project.toml");
    var cargo := Get(entries, ProjectPath(dir, CARGO));
    if cargo.Some? {
      GetExactly(entries, dir, "Cargo.toml", cargo.value);
      assert Acceptable(Entry(ProjectPath(dir, CARGO), cargo.value));
      if Get(entries, ProjectPath(dir, MIDEN)).Some? { ReadAtDirectory(read, entries, dir); }
    }
  }

  ghost predicate ReadsAs(manifest: Manifest, entries: seq<Entry>, dir: string, r: Result<Opened, Error>) {
    match manifest
    case NotToml => r == Err(InvalidToml(if dir == "." then "Cargo.toml" else dir + "/" + "Cargo.toml"))
    case NoPackage => r == Err(WithoutPackage(if dir == "." then "Cargo.toml" else dir + "/" + "Cargo.toml"))
    case Package(name) => r.Ok? && r.value.files == entries && r.value.entrypoint == dir && r.value.name == name
  }

  /** A file whose path is refused, or whose content is while its path is not; all before it are fine. */
  ghost predicate FirstFault(entries: seq<Entry>, i: nat, ofPath: bool) {
    && i < |entries| && (if ofPath then !Clean(entries[i].path) else Clean(entries[i].path) && !entries[i].content.Text?)
    && forall k | 0 <= k < i :: Clean(entries[k].path) && entries[k].content.Text?
  }

  lemma OneFault(entries: seq<Entry>, i: nat, j: nat, ofPath: bool)
    requires FirstRefused(entries, i) && FirstFault(entries, j, ofPath)
    ensures i == j && Complaint(entries[i]) == if ofPath then InvalidPath(entries[i].path) else InvalidContent(entries[i].path)
  {
    var fine := Acceptable(entries[j]);
  }

  lemma FaultIsRefused(entries: seq<Entry>, j: nat, ofPath: bool)
    requires FirstFault(entries, j, ofPath)
    ensures !AllAcceptable(entries)
  {
    assert !Acceptable(entries[j]);
  }

  /** The first file at fault is complained of, by its path. */
  lemma FaultExactly(read: Reader, entries: seq<Entry>, at: Option<string>, r: Result<Opened, Error>, j: nat, ofPath: bool)
    requires Judged(read, Object(entries), at, r) && FirstFault(entries, j, ofPath)
    ensures r == Err(if ofPath then InvalidPath(entries[j].path) else InvalidContent(entries[j].path))
  {
    FaultIsRefused(entries, j, ofPath);
    var i: nat :| FirstRefused(entries, i) && r == Err(Complaint(entries[i]));
    OneFault(entries, i, j, ofPath);
  }

  /** Before any directory is looked at: whether there are files, the first file at fault, and the entrypoint. */
  lemma ComplaintExactly(read: Reader, files: Value, entrypoint: Value, r: Result<Opened, Error>)
    requires OpensTo(read, files, entrypoint, r)
    ensures !files.Object? ==> r == Err(MissingFiles)
    ensures files.Object? ==> forall i: nat, ofPath | FirstFault(files.entries, i, ofPath) ::
      r == Err(if ofPath then InvalidPath(files.entries[i].path) else InvalidContent(files.entries[i].path))
    ensures files.Object? && (forall e | e in files.entries :: Clean(e.path) && e.content.Text?) ==>
      r == match Normalized(entrypoint) case None => Err(InvalidEntrypoint) case Some(dir) => OpenAt(read, files.entries, dir)
  {
    if files.Object? {
      forall i: nat, ofPath | FirstFault(files.entries, i, ofPath)
        ensures r == Err(if ofPath then InvalidPath(files.entries[i].path) else InvalidContent(files.entries[i].path))
      {
        FaultExactly(read, files.entries, Normalized(entrypoint), r, i, ofPath);
      }
    }
  }

  // --- Finding the entrypoint again ---

  predicate EndsWith(text: string, end: string) {
    |end| <= |text| && text[|text| - |end|..] == end
  }

  predicate IsCargo(path: string) {
    path == CARGO || EndsWith(path, "/" + CARGO)
  }

  function DirOf(path: string): string
    requires IsCargo(path)
  {
    if path == CARGO then "." else path[..|path| - (|CARGO| + 1)]
  }

  predicate IsProjectAt(read: Reader, all: seq<Entry>, entry: Entry, name: string) {
    && IsCargo(entry.path) && entry.content.Text?
    && Get(all, ProjectPath(DirOf(entry.path), MIDEN)).Some?
    && read(entry.content.text) == Package(name)
  }

  function Entrypoints(read: Reader, all: seq<Entry>, entries: seq<Entry>, name: string): seq<string> {
    if entries == [] then []
    else
      (if IsProjectAt(read, all, entries[0], name) then [DirOf(entries[0].path)] else [])
      + Entrypoints(read, all, entries[1..], name)
  }

  function InferEntrypoint(read: Reader, entries: seq<Entry>, name: string): Option<string> {
    var entrypoints := Entrypoints(read, entries, entries, name);
    if |entrypoints| == 1 then Some(entrypoints[0]) else None
  }

  ghost predicate DistinctPaths(entries: seq<Entry>) {
    forall i, j | 0 <= i < j < |entries| :: entries[i].path != entries[j].path
  }

  /** Some entrypoint, meaning what `means` says, opens the files as the project of this name at `dir`. */
  ghost predicate OpensBy(means: Value -> Option<string>, read: Reader, entries: seq<Entry>, dir: string, name: string) {
    exists v :: Judged(read, Object(entries), means(v), Ok(Opened(entries, dir, name)))
  }

  ghost predicate OpensAs(read: Reader, entries: seq<Entry>, dir: string, name: string) {
    OpensBy(Normalized, read, entries, dir, name)
  }

  ghost predicate IsDir(dir: string) {
    dir == "." || Clean(dir)
  }

  lemma JudgedExactly(read: Reader, entries: seq<Entry>, at: Option<string>, dir: string, name: string)
    requires AllAcceptable(entries)
    ensures Judged(read, Object(entries), at, Ok(Opened(entries, dir, name)))
       <==> at == Some(dir) && OpenAt(read, entries, dir) == Ok(Opened(entries, dir, name))
  {}

  lemma OpensByExactly(means: Value -> Option<string>, read: Reader, entries: seq<Entry>, dir: string, name: string)
    requires AllAcceptable(entries)
    ensures OpensBy(means, read, entries, dir, name)
       <==> (exists v :: means(v) == Some(dir)) && OpenAt(read, entries, dir) == Ok(Opened(entries, dir, name))
  {
    forall v ensures Judged(read, Object(entries), means(v), Ok(Opened(entries, dir, name)))
                <==> means(v) == Some(dir) && OpenAt(read, entries, dir) == Ok(Opened(entries, dir, name))
    {
      JudgedExactly(read, entries, means(v), dir, name);
    }
  }

  lemma MeantExactly(dir: string)
    ensures (exists v :: Normalized(v) == Some(dir)) <==> IsDir(dir)
  {
    if v :| Normalized(v) == Some(dir) { NormalizingIsIdempotent(v); }
    if IsDir(dir) { DirIsNormalized(dir); }
  }

  /** Some entrypoint opens accepted files at a directory exactly when that is the root or clean, and the manifests there read so. */
  lemma OpensAsExactly(read: Reader, entries: seq<Entry>, dir: string, name: string)
    requires AllAcceptable(entries)
    ensures OpensAs(read, entries, dir, name) <==> IsDir(dir) && OpenAt(read, entries, dir) == Ok(Opened(entries, dir, name))
  {
    OpensByExactly(Normalized, read, entries, dir, name);
    MeantExactly(dir);
  }

  lemma DirIsNormalized(dir: string)
    requires IsDir(dir)
    ensures Normalized(Text(dir)) == Some(dir)
  {
    if dir == "." {
      RootSpellingIsNormalized(".") by { assert "." == Times("./", 0) + "."; }
    } else {
      SpellingIsNormalized(dir, dir) by { assert dir == Times("./", 0) + dir + Times("/", 0); }
    }
  }

  lemma CargoPathOfDir(dir: string)
    requires IsDir(dir)
    ensures IsCargo(ProjectPath(dir, CARGO)) && DirOf(ProjectPath(dir, CARGO)) == dir
  {}

  lemma DirOfCargoPath(path: string)
    requires Clean(path) && IsCargo(path)
    ensures IsDir(DirOf(path)) && ProjectPath(DirOf(path), CARGO) == path
  {
    if path != CARGO {
      var dir := DirOf(path);
      assert path == dir + "/" + CARGO;
      CleanAround(dir, CARGO);
      CleanEnds(dir);
    }
  }

  /** The entrypoints listed are those of the entries that are projects of this name. */
  lemma {:induction false} Listed(read: Reader, all: seq<Entry>, entries: seq<Entry>, name: string, dir: string)
    ensures dir in Entrypoints(read, all, entries, name)
       <==> exists e :: e in entries && IsProjectAt(read, all, e, name) && DirOf(e.path) == dir
  {
    if entries != [] {
      Listed(read, all, entries[1..], name, dir);
      assert entries == [entries[0]] + entries[1..];
    }
  }

  lemma ListedOpens(read: Reader, entries: seq<Entry>, name: string, e: Entry)
    requires AllAcceptable(entries) && DistinctPaths(entries) && e in entries && IsProjectAt(read, entries, e, name)
    ensures OpensAs(read, entries, DirOf(e.path), name)
  {
    DirOfCargoPath(e.path);
    OpensAsExactly(read, entries, DirOf(e.path), name);
  }

  lemma OpenAtExactly(read: Reader, entries: seq<Entry>, dir: string, name: string)
    ensures OpenAt(read, entries, dir) == Ok(Opened(entries, dir, name)) <==>
            var cargo := Get(entries, ProjectPath(dir, CARGO));
            && cargo.Some? && cargo.value.Text? && read(cargo.value.text) == Package(name)
            && Get(entries, ProjectPath(dir, MIDEN)).Some?
  {}

  lemma ProjectIsThere(read: Reader, entries: seq<Entry>, name: string, dir: string, path: string) returns (e: Entry)
    requires IsCargo(path) && DirOf(path) == dir && path == ProjectPath(dir, CARGO)
    requires OpenAt(read, entries, dir) == Ok(Opened(entries, dir, name))
    ensures e in entries && IsProjectAt(read, entries, e, name) && DirOf(e.path) == dir
  {
    OpenAtExactly(read, entries, dir, name);
    e := Entry(path, Get(entries, path).value);
  }

  lemma OpensListed(read: Reader, entries: seq<Entry>, name: string, dir: string) returns (e: Entry)
    requires AllAcceptable(entries) && OpensAs(read, entries, dir, name)
    ensures e in entries && IsProjectAt(read, entries, e, name) && DirOf(e.path) == dir
  {
    OpensAsExactly(read, entries, dir, name);
    CargoPathOfDir(dir);
    e := ProjectIsThere(read, entries, name, dir, ProjectPath(dir, CARGO));
  }

  lemma ListedExactly(read: Reader, entries: seq<Entry>, name: string, dir: string)
    requires AllAcceptable(entries) && DistinctPaths(entries)
    ensures dir in Entrypoints(read, entries, entries, name) <==> OpensAs(read, entries, dir, name)
  {
    Listed(read, entries, entries, name, dir);
    if OpensAs(read, entries, dir, name) {
      var e := OpensListed(read, entries, name, dir);
    }
    if dir in Entrypoints(read, entries, entries, name) {
      var e :| e in entries && IsProjectAt(read, entries, e, name) && DirOf(e.path) == dir;
      ListedOpens(read, entries, name, e);
    }
  }

  ghost predicate Distinct(dirs: seq<string>) {
    forall i, j | 0 <= i < j < |dirs| :: dirs[i] != dirs[j]
  }

  lemma FirstIsNew(read: Reader, all: seq<Entry>, entries: seq<Entry>, name: string)
    requires AllAcceptable(entries) && DistinctPaths(entries) && entries != [] && IsProjectAt(read, all, entries[0], name)
    ensures DirOf(entries[0].path) !in Entrypoints(read, all, entries[1..], name)
  {
    var dir := DirOf(entries[0].path);
    Listed(read, all, entries[1..], name, dir);
    DirOfCargoPath(entries[0].path);
    forall e | e in entries[1..] && IsProjectAt(read, all, e, name) ensures DirOf(e.path) != dir {
      DirOfCargoPath(e.path);
    }
  }

  lemma {:induction false} ListedOnce(read: Reader, all: seq<Entry>, entries: seq<Entry>, name: string)
    requires AllAcceptable(entries) && DistinctPaths(entries)
    ensures Distinct(Entrypoints(read, all, entries, name))
  {
    if entries != [] {
      ListedOnce(read, all, entries[1..], name);
      if IsProjectAt(read, all, entries[0], name) { FirstIsNew(read, all, entries, name); }
    }
  }

  lemma OneExactly(dirs: seq<string>, dir: string)
    requires Distinct(dirs)
    ensures |dirs| == 1 && dirs[0] == dir <==> dir in dirs && forall other | other in dirs :: other == dir
  {
    assert |dirs| > 1 ==> dirs[0] != dirs[1];
    if dir in dirs && forall other | other in dirs :: other == dir {
      forall k | 0 <= k < |dirs| ensures dirs[k] == dir { assert dirs[k] in dirs; }
    }
  }

  /** An entrypoint is inferred exactly when it is the only one with which the files open as the project of that name. */
  lemma InferInvertsOpen(read: Reader, entries: seq<Entry>, name: string, dir: string)
    requires AllAcceptable(entries) && DistinctPaths(entries)
    ensures InferEntrypoint(read, entries, name) == Some(dir)
       <==> OpensAs(read, entries, dir, name) && forall other :: OpensAs(read, entries, other, name) ==> other == dir
  {
    var dirs := Entrypoints(read, entries, entries, name);
    ListedOnce(read, entries, entries, name);
    forall other ensures other in dirs <==> OpensAs(read, entries, other, name) { ListedExactly(read, entries, name, other); }
    OneExactly(dirs, dir);
  }

  lemma OpenedWasAccepted(read: Reader, files: Value, at: Option<string>, project: Opened)
    requires Judged(read, files, at, Ok(project))
    ensures files == Object(project.files) && AllAcceptable(project.files)
  {}

  lemma InferredUnlessShared(read: Reader, entries: seq<Entry>, dir: string, name: string)
    requires AllAcceptable(entries) && DistinctPaths(entries) && OpensAs(read, entries, dir, name)
    ensures InferEntrypoint(read, entries, name)
         == if exists other :: other != dir && OpensAs(read, entries, other, name) then None else Some(dir)
  {
    var inferred := InferEntrypoint(read, entries, name);
    InferInvertsOpen(read, entries, name, dir);
    if inferred.Some? { InferInvertsOpen(read, entries, name, inferred.value); }
  }

  /** A project opened and stored gets its own entrypoint back, or none when another directory would open under its name. */
  lemma OpenedIsInferred(read: Reader, files: Value, entrypoint: Value, project: Opened)
    requires OpensTo(read, files, entrypoint, Ok(project)) && DistinctPaths(project.files)
    ensures InferEntrypoint(read, project.files, project.name)
         == if exists other :: other != project.entrypoint && OpensAs(read, project.files, other, project.name) then None
            else Some(project.entrypoint)
  {
    OpenedWasAccepted(read, files, Normalized(entrypoint), project);
    assert OpensBy(Normalized, read, project.files, project.entrypoint, project.name);
    InferredUnlessShared(read, project.files, project.entrypoint, project.name);
  }
}
