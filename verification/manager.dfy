/**
 * The file system as a whole (FileSystemManager): a root
 * directory and a current directory, the path-resolving operations that
 * navigate between directories, the entry operations applied to the
 * current directory, copying and moving, searching file contents, and the
 * JSON rendering of a directory.
 *
 * A state names its current directory by the path from the root. Every
 * operation is a function from a state to a new state or to the one
 * failure it raises; a failing operation changes nothing.
 */
module Manager {
  import opened Errors
  import opened Tree
  import opened PathUtils
  import Directory
  import FileNode

  datatype FileSystem = FileSystem(root: Node, cwd: seq<string>)

  /** A state the operations accept: the root is a directory whose
      directories below carry valid names, and the current directory exists. */
  predicate Valid(fs: FileSystem) {
    fs.root.Dir? && WellNamed(fs.root) && IsDirAt(fs.root, fs.cwd)
  }

  /** The constructor: an empty root, which is also the current directory. */
  function Init(): (fs: FileSystem)
    ensures Valid(fs) && fs.cwd == [] && Descendants(fs.root) == {}
  {
    FileSystem(Dir(map[]), [])
  }

  // ---------------------------------------------------------------------
  // Resolving paths
  // ---------------------------------------------------------------------

  /** The loop that climbs `ups` parent links from the directory at `p`,
      stopping early at the root. */
  function Ascend(p: seq<string>, ups: nat): (r: seq<string>)
    ensures r <= p
    ensures |r| == if ups >= |p| then 0 else |p| - ups
    decreases ups
  {
    if p == [] || ups == 0 then p else Ascend(p[..|p| - 1], ups - 1)
  }

  /** Where a scanned path starts: the root for an absolute path, otherwise
      `start` climbed by the number of ".." steps. */
  function Base(start: seq<string>, pp: PathPrefix): (r: seq<string>)
    ensures r <= start
    ensures pp.start == Root ==> r == []
    ensures pp.start != Root ==> |r| == if pp.ups >= |start| then 0 else |start| - pp.ups
  {
    if pp.start == Root then [] else Ascend(start, pp.ups)
  }

  /** The walk over the names of a path from the directory at `at`, as
      navigateToDirectory and resolveDestination do it: every name must be an
      entry, and every entry a directory. A missing entry raises `missing`,
      an entry that is a file raises InvalidPath. */
  function Walk(root: Node, at: seq<string>, names: seq<string>, missing: FsError): (r: Result<seq<string>>)
    requires IsDirAt(root, at)
    ensures r.Ok? <==> IsDirAt(root, at + names)
    ensures r.Ok? ==> r.value == at + names
    ensures r.Err? ==> r.error == missing || r.error == InvalidPath
    decreases |names|
  {
    if names == [] then
      assert at + names == at;
      Ok(at)
    else
      var m := DirAt(root, at);
      StepLookup(root, at, names);
      StepLookup(root, at, [names[0]]);
      if names[0] !in m then
        Err(missing)
      else if m[names[0]].File? then
        assert Lookup(root, at + names) == Lookup(m[names[0]], names[1..]);
        Err(InvalidPath)
      else
        assert at + [names[0]] + names[1..] == at + names;
        Walk(root, at + [names[0]], names[1..], missing)
  }

  /** The walk stops on a file, and raises InvalidPath, exactly when some
      leading part of the names leads to a file. */
  lemma {:induction false} WalkMeetsFile(root: Node, at: seq<string>, names: seq<string>, missing: FsError)
    requires IsDirAt(root, at) && missing != InvalidPath
    ensures Walk(root, at, names, missing) == Err(InvalidPath) <==>
              exists i :: 0 < i <= |names| && IsFileAt(root, at + names[..i])
    decreases |names|
  {
    if names != [] {
      var m := DirAt(root, at);
      var n0 := names[0];
      if n0 !in m {
        forall i | 0 < i <= |names|
          ensures !IsFileAt(root, at + names[..i])
        {
          StepLookup(root, at, names[..i]);
        }
      } else if m[n0].File? {
        StepLookup(root, at, names[..1]);
        assert IsFileAt(root, at + names[..1]);
      } else {
        var at' := at + [n0];
        StepLookup(root, at, [n0]);
        WalkMeetsFile(root, at', names[1..], missing);
        forall i | 0 < i <= |names|
          ensures IsFileAt(root, at + names[..i]) <==>
                    1 < i && IsFileAt(root, at' + names[1..][..i - 1])
        {
          if i == 1 {
            assert at + names[..1] == at';
          } else {
            assert at + names[..i] == at' + names[1..][..i - 1];
          }
        }
        if Walk(root, at', names[1..], missing) == Err(InvalidPath) {
          var j :| 0 < j <= |names[1..]| && IsFileAt(root, at' + names[1..][..j]);
          assert IsFileAt(root, at + names[..j + 1]);
        }
      }
    }
  }

  /** The path a non-empty path text names from `start`: the scanned start
      followed by the names of the rest. */
  function Target(start: seq<string>, path: string): seq<string>
    requires path != ""
  {
    var pp := ValidatePath(path).value;
    Base(start, pp) + Split(pp.rest)
  }

  /** Some leading part of the names of a non-empty path, read from where the
      path starts, leads to a file. */
  ghost predicate FileInTheWay(root: Node, start: seq<string>, path: string)
    requires path != ""
  {
    var pp := ValidatePath(path).value;
    var names := Split(pp.rest);
    exists i :: 0 < i <= |names| && IsFileAt(root, Base(start, pp) + names[..i])
  }

  /** The scan, the climb and the walk together: the directory a path names
      when resolution starts at `start`. */
  function Locate(root: Node, start: seq<string>, path: string, missing: FsError): (r: Result<seq<string>>)
    requires root.Dir? && IsDirAt(root, start)
    ensures path == "" ==> r == Err(InvalidPath)
    ensures path != "" ==> (r.Ok? <==> IsDirAt(root, Target(start, path)))
    ensures r.Ok? ==> r.value == Target(start, path) && IsDirAt(root, r.value)
    ensures r.Err? ==> r.error == missing || r.error == InvalidPath
    ensures missing != InvalidPath && path != "" ==>
              && (r == Err(InvalidPath) <==> FileInTheWay(root, start, path))
              && (r == Err(missing) <==> !IsDirAt(root, Target(start, path)) && !FileInTheWay(root, start, path))
  {
    var pp :- ValidatePath(path);
    var base := Base(start, pp);
    AncestorIsDir(root, start, base);
    if missing != InvalidPath then
      WalkMeetsFile(root, base, Split(pp.rest), missing);
      Walk(root, base, Split(pp.rest), missing)
    else
      Walk(root, base, Split(pp.rest), missing)
  }

  /** FileSystemManager::navigateToDirectory: a missing name raises DirectoryDoesNotExist. */
  function Navigate(root: Node, start: seq<string>, path: string): (r: Result<seq<string>>)
    requires root.Dir? && IsDirAt(root, start)
    ensures path == "" ==> r == Err(InvalidPath)
    ensures path != "" ==> (r.Ok? <==> IsDirAt(root, Target(start, path)))
    ensures r.Ok? ==> r.value == Target(start, path) && IsDirAt(root, r.value)
    ensures r.Err? ==> r.error == DirectoryDoesNotExist || r.error == InvalidPath
    ensures path != "" ==>
              && (r == Err(InvalidPath) <==> FileInTheWay(root, start, path))
              && (r == Err(DirectoryDoesNotExist) <==>
                    !IsDirAt(root, Target(start, path)) && !FileInTheWay(root, start, path))
  {
    Locate(root, start, path, DirectoryDoesNotExist)
  }

  /** FileSystemManager::resolveDestination: every failure is InvalidPath. */
  function ResolveDestination(fs: FileSystem, dstPath: string): (r: Result<seq<string>>)
    requires Valid(fs)
    ensures dstPath == "" ==> r == Err(InvalidPath)
    ensures dstPath != "" ==> (r.Ok? <==> IsDirAt(fs.root, Target(fs.cwd, dstPath)))
    ensures r.Ok? ==> r.value == Target(fs.cwd, dstPath) && IsDirAt(fs.root, r.value)
    ensures r.Err? ==> r.error == InvalidPath
  {
    Locate(fs.root, fs.cwd, dstPath, InvalidPath)
  }

  /** Navigation and destination resolution accept the same paths and reach
      the same directory; they differ only in the failure a missing name raises. */
  lemma NavigateIsResolveDestination(fs: FileSystem, path: string)
    requires Valid(fs)
    ensures Navigate(fs.root, fs.cwd, path).Ok? <==> ResolveDestination(fs, path).Ok?
    ensures Navigate(fs.root, fs.cwd, path).Ok? ==> Navigate(fs.root, fs.cwd, path) == ResolveDestination(fs, path)
  {
  }
  // ---------------------------------------------------------------------
  // pwd, cd, ls
  // ---------------------------------------------------------------------

  /** The names on a path to a directory of a valid tree are all non-empty. */
  lemma NamesAreNonEmpty(root: Node, q: seq<string>)
    requires WellNamed(root) && IsDirAt(root, q)
    ensures NonEmpty([""] + q) == q
    ensures forall i :: 0 <= i < |q| ==> IsSegment(q[i]) && ValidName(q[i])
  {
    DirPathIsValid(root, q);
    NonEmptyOfSegments(q);
    assert ([""] + q)[1..] == q;
  }

  lemma {:induction false} NonEmptyOfSegments(xs: seq<string>)
    requires forall i :: 0 <= i < |xs| ==> ValidName(xs[i])
    ensures NonEmpty(xs) == xs
    decreases |xs|
  {
    if xs != [] {
      NonEmptyOfSegments(xs[1..]);
    }
  }

  /** FileSystemManager::pwd: the full path of the current directory, whose
      chain of names is the root's empty name followed by the current path. */
  method Pwd(fs: FileSystem) returns (path: string)
    requires Valid(fs)
    ensures path == "/" + Join(fs.cwd)
    ensures Split(path) == fs.cwd
  {
    NamesAreNonEmpty(fs.root, fs.cwd);
    path := Directory.FullPath([""] + fs.cwd);
    SplitJoin(fs.cwd);
    assert Split(path) == SplitFrom(Join(fs.cwd), "");
  }

  /** FileSystemManager::cd. */
  function Cd(fs: FileSystem, path: string): (r: Result<FileSystem>)
    requires Valid(fs)
    ensures path == "" ==> r == Err(InvalidPath)
    ensures path != "" ==> (r.Ok? <==> IsDirAt(fs.root, Target(fs.cwd, path)))
    ensures r.Ok? ==> r.value == fs.(cwd := Target(fs.cwd, path)) && Valid(r.value)
    ensures r.Err? ==> r.error == DirectoryDoesNotExist || r.error == InvalidPath
    ensures path != "" ==>
              && (r == Err(InvalidPath) <==> FileInTheWay(fs.root, fs.cwd, path))
              && (r == Err(DirectoryDoesNotExist) <==>
                    !IsDirAt(fs.root, Target(fs.cwd, path)) && !FileInTheWay(fs.root, fs.cwd, path))
  {
    var p :- Navigate(fs.root, fs.cwd, path);
    Ok(fs.(cwd := p))
  }

  /** The text `pwd` prints leads `cd` back to the same directory, from anywhere. */
  lemma CdPwd(fs: FileSystem, from: seq<string>)
    requires Valid(fs) && IsDirAt(fs.root, from)
    ensures Cd(fs.(cwd := from), "/" + Join(fs.cwd)) == Ok(fs)
  {
    LocateAbsolute(fs.root, from, fs.cwd, DirectoryDoesNotExist);
  }

  /** The absolute path text of a directory of a valid tree is scanned as
      anchored at the root, with all of its names left for the walk. */
  lemma ScanAbsolute(root: Node, q: seq<string>)
    requires WellNamed(root) && IsDirAt(root, q)
    ensures ValidatePath("/" + Join(q)) == Ok(PathPrefix(Root, 0, Join(q)))
    ensures Split(Join(q)) == q
  {
    var path := "/" + Join(q);
    NamesAreNonEmpty(root, q);
    SplitJoin(q);
    assert path[1..] == Join(q);
    assert !StartsWithStep(Join(q)) by {
      if q != [] {
        JoinStartsWithFirst(q);
      }
    }
    ConsumeStop(Join(q));
  }

  /** An absolute path names the same directory from anywhere. */
  lemma LocateAbsolute(root: Node, start: seq<string>, q: seq<string>, missing: FsError)
    requires root.Dir? && WellNamed(root) && IsDirAt(root, start) && IsDirAt(root, q)
    ensures Locate(root, start, "/" + Join(q), missing) == Ok(q)
  {
    ScanAbsolute(root, q);
    assert [] + q == q;
  }

  lemma {:induction false} JoinStartsWithFirst(segs: seq<string>)
    requires segs != [] && segs[0] != ""
    ensures Join(segs) != "" && Join(segs)[0] == segs[0][0]
  {
  }

  /** `cd ..` goes to the parent, and stays put at the root. */
  lemma CdUp(fs: FileSystem)
    requires Valid(fs)
    ensures Cd(fs, "..") == Ok(fs.(cwd := if fs.cwd == [] then [] else fs.cwd[..|fs.cwd| - 1]))
  {
    ScanDotDot();
    var up := Ascend(fs.cwd, 1);
    assert up == if fs.cwd == [] then [] else fs.cwd[..|fs.cwd| - 1];
    assert Base(fs.cwd, PathPrefix(Current, 1, "")) == up;
    assert Split("") == [];
    AncestorIsDir(fs.root, fs.cwd, up);
    assert Walk(fs.root, up, [], DirectoryDoesNotExist) == Ok(up + []);
    assert up + [] == up;
    assert Navigate(fs.root, fs.cwd, "..") == Ok(up);
  }

  /** A relative path that does not begin with '.' is scanned as it stands. */
  lemma ScanPlain(path: string)
    requires path != "" && path[0] != '.' && path[0] != '/'
    ensures ValidatePath(path) == Ok(PathPrefix(Current, 0, path))
  {
    ConsumeStop(path);
  }

  /** A '.' or '..' inside a path is not folded away: it is looked up as a
      name, which no directory can carry, so "a/./b" never reaches a/b. */
  lemma InnerDotIsNotFolded(fs: FileSystem, a: string, b: string, dots: string)
    requires Valid(fs) && ValidName(a) && IsSegment(b) && (dots == "." || dots == "..")
    ensures Cd(fs, a + "/" + dots + "/" + b).Err?
  {
    var path := a + "/" + dots + "/" + b;
    var segs := [a, dots, b];
    assert segs[1..] == [dots, b] && [dots, b][1..] == [b];
    assert Join([dots, b]) == dots + "/" + b;
    assert Join(segs) == path;
    SplitJoin(segs);
    ScanPlain(path);
    var full := fs.cwd + segs;
    assert Navigate(fs.root, fs.cwd, path) == Walk(fs.root, fs.cwd, segs, DirectoryDoesNotExist);
    assert full[|fs.cwd| + 1] == dots;
    InvalidNameBlocksDirs(fs.root, full, |fs.cwd| + 1);
  }

  /** FileSystemManager::ls: the names in the current directory, or in the one
      `path` names when it is not empty (the order of FileSystemManager::ls's vector is
      the hash map's and is not modelled). */
  function Ls(fs: FileSystem, path: string): (r: Result<set<string>>)
    requires Valid(fs)
    ensures path == "" ==> r == Ok(DirAt(fs.root, fs.cwd).Keys)
    ensures r.Err? ==> r.error == DirectoryDoesNotExist || r.error == InvalidPath
  {
    if path == "" then Ok(DirAt(fs.root, fs.cwd).Keys)
    else
      var p :- Navigate(fs.root, fs.cwd, path);
      Ok(DirAt(fs.root, p).Keys)
  }

  /** Listing a path is changing to it and listing there. */
  lemma LsIsCdThenLs(fs: FileSystem, path: string)
    requires Valid(fs) && path != ""
    ensures Ls(fs, path).Ok? <==> Cd(fs, path).Ok?
    ensures Cd(fs, path).Ok? ==> Ls(fs, path) == Ls(Cd(fs, path).value, "")
  {
  }
  // ---------------------------------------------------------------------
  // Operations on the current directory's entries
  // ---------------------------------------------------------------------

  /** The entries of the current directory. */
  function CwdEntries(fs: FileSystem): Directory.Children
    requires Valid(fs)
  {
    DirAt(fs.root, fs.cwd)
  }

  lemma CwdWellNamed(fs: FileSystem)
    requires Valid(fs)
    ensures WellNamed(Dir(CwdEntries(fs)))
  {
    WellNamedSubtree(fs.root, fs.cwd);
  }

  /** The state with the current directory's entries replaced by `m'`: the
      current directory stays where it is, and nothing off its path changes. */
  function AtCwd(fs: FileSystem, m': Directory.Children): (r: FileSystem)
    requires Valid(fs) && WellNamed(Dir(m'))
    ensures Valid(r) && r.cwd == fs.cwd && CwdEntries(r) == m'
    ensures SameOff(r.root, fs.root, fs.cwd)
  {
    ReplaceFacts(fs.root, fs.cwd, Dir(m'));
    ReplaceKeepsWellNamed(fs.root, fs.cwd, Dir(m'));
    fs.(root := Replace(fs.root, fs.cwd, Dir(m')))
  }

  /** FileSystemManager::mkdir. */
  function Mkdir(fs: FileSystem, name: string): (r: Result<FileSystem>)
    requires Valid(fs)
    ensures !ValidName(name) ==> r == Err(InvalidName)
    ensures ValidName(name) && name in CwdEntries(fs) ==> r == Err(DirectoryAlreadyExists)
    ensures r.Ok? <==> ValidName(name) && name !in CwdEntries(fs)
    ensures r.Ok? ==> Valid(r.value) && r.value.cwd == fs.cwd && SameOff(r.value.root, fs.root, fs.cwd)
    ensures r.Ok? ==> Directory.AddsOnly(CwdEntries(fs), CwdEntries(r.value), name, Dir(map[]))
  {
    var m' :- Directory.Mkdir(CwdEntries(fs), name);
    CwdWellNamed(fs);
    Directory.AddKeepsWellNamed(CwdEntries(fs), m', name, Dir(map[]));
    Ok(AtCwd(fs, m'))
  }

  /** FileSystemManager::rmdir: only an empty directory, unless recursive. */
  function Rmdir(fs: FileSystem, name: string, recursive: bool): (r: Result<FileSystem>)
    requires Valid(fs)
    ensures name !in CwdEntries(fs) ==> r == Err(DirectoryDoesNotExist)
    ensures name in CwdEntries(fs) && CwdEntries(fs)[name].File? ==> r == Err(InvalidOperation)
    ensures !recursive && name in CwdEntries(fs) && CwdEntries(fs)[name].Dir? && CwdEntries(fs)[name].children != map[] ==>
              r == Err(DirectoryNotEmpty)
    ensures r.Ok? <==> name in CwdEntries(fs) && CwdEntries(fs)[name].Dir? && (recursive || CwdEntries(fs)[name].children == map[])
    ensures r.Ok? ==> Valid(r.value) && r.value.cwd == fs.cwd && SameOff(r.value.root, fs.root, fs.cwd)
    ensures r.Ok? ==> Directory.RemovesOnly(CwdEntries(fs), CwdEntries(r.value), name)
  {
    var m' :- if !recursive then Directory.RmEmptyDir(CwdEntries(fs), name)
              else Directory.RmEntireDir(CwdEntries(fs), name);
    CwdWellNamed(fs);
    Directory.RemoveKeepsWellNamed(CwdEntries(fs), m', name);
    Ok(AtCwd(fs, m'))
  }

  /** FileSystemManager::rm. */
  function Rm(fs: FileSystem, name: string): (r: Result<FileSystem>)
    requires Valid(fs)
    ensures name !in CwdEntries(fs) ==> r == Err(FileDoesNotExist)
    ensures name in CwdEntries(fs) && CwdEntries(fs)[name].Dir? ==> r == Err(InvalidOperation)
    ensures r.Ok? <==> name in CwdEntries(fs) && CwdEntries(fs)[name].File?
    ensures r.Ok? ==> Valid(r.value) && r.value.cwd == fs.cwd && SameOff(r.value.root, fs.root, fs.cwd)
    ensures r.Ok? ==> Directory.RemovesOnly(CwdEntries(fs), CwdEntries(r.value), name)
  {
    var m' :- Directory.RmFile(CwdEntries(fs), name);
    CwdWellNamed(fs);
    Directory.RemoveKeepsWellNamed(CwdEntries(fs), m', name);
    Ok(AtCwd(fs, m'))
  }

  /** FileSystemManager::touch. */
  function Touch(fs: FileSystem, name: string): (r: Result<FileSystem>)
    requires Valid(fs)
    ensures r.Err? <==> name in CwdEntries(fs) && CwdEntries(fs)[name].Dir?
    ensures r.Err? ==> r.error == InvalidOperation
    ensures r.Ok? ==> Valid(r.value) && r.value.cwd == fs.cwd && SameOff(r.value.root, fs.root, fs.cwd)
    ensures r.Ok? && name in CwdEntries(fs) ==> CwdEntries(r.value) == CwdEntries(fs)
    ensures r.Ok? && name !in CwdEntries(fs) ==> Directory.AddsOnly(CwdEntries(fs), CwdEntries(r.value), name, File(""))
  {
    var m' :- Directory.CreateOrUpdateFile(CwdEntries(fs), name);
    CwdWellNamed(fs);
    if name in CwdEntries(fs) then
      Ok(AtCwd(fs, m'))
    else
      Directory.AddKeepsWellNamed(CwdEntries(fs), m', name, File(""));
      Ok(AtCwd(fs, m'))
  }

  /** The text a file in the current directory holds, or "" when there is no such entry. */
  function TextOf(fs: FileSystem, name: string): string
    requires Valid(fs)
  {
    if name in CwdEntries(fs) && CwdEntries(fs)[name].File? then CwdEntries(fs)[name].content else ""
  }

  /** FileSystemManager::writeToFile: a missing file is created first; a
      directory of that name is refused. */
  function WriteToFile(fs: FileSystem, name: string, message: string, append: bool): (r: Result<FileSystem>)
    requires Valid(fs)
    ensures r.Err? <==> name in CwdEntries(fs) && CwdEntries(fs)[name].Dir?
    ensures r.Err? ==> r.error == InvalidPath
    ensures r.Ok? ==> Valid(r.value) && r.value.cwd == fs.cwd && SameOff(r.value.root, fs.root, fs.cwd)
    ensures r.Ok? ==> Directory.AddsOnly(CwdEntries(fs), CwdEntries(r.value), name,
                                         File(FileNode.Write(TextOf(fs, name), message, append)))
  {
    var m := CwdEntries(fs);
    var m1 := if name in m then m else Directory.CreateOrUpdateFile(m, name).value;
    if m1[name].Dir? then
      Err(InvalidPath)
    else
      var m' := m1[name := File(FileNode.Write(m1[name].content, message, append))];
      CwdWellNamed(fs);
      Directory.AddKeepsWellNamed(m, m', name, m'[name]);
      Ok(AtCwd(fs, m'))
  }

  /** FileSystemManager::readFile. */
  function ReadFile(fs: FileSystem, name: string): (r: Result<string>)
    requires Valid(fs)
    ensures name !in CwdEntries(fs) ==> r == Err(FileDoesNotExist)
    ensures name in CwdEntries(fs) && CwdEntries(fs)[name].Dir? ==> r == Err(InvalidPath)
    ensures r.Ok? <==> name in CwdEntries(fs) && CwdEntries(fs)[name].File?
    ensures r.Ok? ==> CwdEntries(fs)[name] == File(r.value)
  {
    var m := CwdEntries(fs);
    if name !in m then Err(FileDoesNotExist)
    else if m[name].Dir? then Err(InvalidPath)
    else Ok(m[name].content)
  }

  /** `cat` after `echo`: the file holds the message on its own line,
      after the earlier text when appending. */
  lemma WriteThenRead(fs: FileSystem, name: string, message: string, append: bool)
    requires Valid(fs) && WriteToFile(fs, name, message, append).Ok?
    ensures ReadFile(WriteToFile(fs, name, message, append).value, name)
              == Ok(FileNode.Write(TextOf(fs, name), message, append))
  {
  }

  /** `rmdir` undoes `mkdir`, restoring the whole state. */
  lemma MkdirThenRmdir(fs: FileSystem, name: string, recursive: bool)
    requires Valid(fs) && Mkdir(fs, name).Ok?
    ensures Rmdir(Mkdir(fs, name).value, name, recursive) == Ok(fs)
  {
    var m := CwdEntries(fs);
    var m' := m[name := Dir(map[])];
    assert m' - {name} == m;
    ReplaceTwice(fs.root, fs.cwd, Dir(m'), Dir(m));
    ReplaceSame(fs.root, fs.cwd);
  }

  /** `rm` undoes creating a file with `touch`. */
  lemma TouchThenRm(fs: FileSystem, name: string)
    requires Valid(fs) && name !in CwdEntries(fs)
    ensures Touch(fs, name).Ok?
    ensures Rm(Touch(fs, name).value, name) == Ok(fs)
  {
    var m := CwdEntries(fs);
    var m' := m[name := File("")];
    assert m' - {name} == m;
    ReplaceTwice(fs.root, fs.cwd, Dir(m'), Dir(m));
    ReplaceSame(fs.root, fs.cwd);
  }

  /** `touch` on an existing file changes nothing. */
  lemma TouchExisting(fs: FileSystem, name: string)
    requires Valid(fs) && name in CwdEntries(fs) && CwdEntries(fs)[name].File?
    ensures Touch(fs, name) == Ok(fs)
  {
    ReplaceSame(fs.root, fs.cwd);
  }
  // ---------------------------------------------------------------------
  // Resolving the source of cp and mv
  // ---------------------------------------------------------------------

  /** What resolveSource finds: a file, given by the directory holding it
      and its name, or a directory, given by its path. */
  datatype Source = SourceFile(parent: seq<string>, name: string) | SourceDir(path: seq<string>)

  /** The walk of resolveSource: a missing name raises InvalidPath; a file
      ends the walk and is accepted only as the last name. */
  function WalkSource(root: Node, at: seq<string>, names: seq<string>): (r: Result<Source>)
    requires IsDirAt(root, at)
    ensures r.Ok? <==> Lookup(root, at + names).Some?
    ensures r.Ok? && r.value.SourceDir? ==> r.value.path == at + names && IsDirAt(root, at + names)
    ensures r.Ok? && r.value.SourceFile? ==>
              && r.value.parent + [r.value.name] == at + names
              && IsDirAt(root, r.value.parent)
              && r.value.name in DirAt(root, r.value.parent)
              && DirAt(root, r.value.parent)[r.value.name].File?
    ensures r.Err? ==> r.error == InvalidPath || r.error == InvalidOperation
    decreases |names|
  {
    if names == [] then
      assert at + names == at;
      Ok(SourceDir(at))
    else
      var m := DirAt(root, at);
      StepLookup(root, at, names);
      if names[0] !in m then
        Err(InvalidPath)
      else if m[names[0]].File? then
        if |names| != 1 then
          assert Lookup(root, at + names) == Lookup(m[names[0]], names[1..]);
          Err(InvalidOperation)
        else
          assert at + names == at + [names[0]];
          Ok(SourceFile(at, names[0]))
      else
        StepLookup(root, at, [names[0]]);
        assert at + [names[0]] + names[1..] == at + names;
        WalkSource(root, at + [names[0]], names[1..])
  }

  /** Some name before the last one leads to a file. */
  ghost predicate FileOnTheWay(root: Node, at: seq<string>, names: seq<string>) {
    exists i :: 0 < i < |names| && IsFileAt(root, at + names[..i])
  }

  /** The walk of resolveSource stops on a file, and raises InvalidOperation,
      exactly when a name before the last one leads to a file; every other
      failure is a missing name, raised as InvalidPath. */
  lemma {:induction false} WalkSourceMeetsFile(root: Node, at: seq<string>, names: seq<string>)
    requires IsDirAt(root, at)
    ensures WalkSource(root, at, names) == Err(InvalidOperation) <==> FileOnTheWay(root, at, names)
    decreases |names|
  {
    if names != [] {
      var m := DirAt(root, at);
      var n0 := names[0];
      if n0 !in m {
        forall i | 0 < i < |names|
          ensures !IsFileAt(root, at + names[..i])
        {
          StepLookup(root, at, names[..i]);
        }
      } else if m[n0].File? {
        if |names| != 1 {
          StepLookup(root, at, names[..1]);
          assert IsFileAt(root, at + names[..1]);
        }
      } else {
        var at' := at + [n0];
        StepLookup(root, at, [n0]);
        WalkSourceMeetsFile(root, at', names[1..]);
        forall i | 0 < i < |names|
          ensures IsFileAt(root, at + names[..i]) <==>
                    1 < i && IsFileAt(root, at' + names[1..][..i - 1])
        {
          if i == 1 {
            assert at + names[..1] == at';
          } else {
            assert at + names[..i] == at' + names[1..][..i - 1];
          }
        }
        if FileOnTheWay(root, at', names[1..]) {
          var j :| 0 < j < |names[1..]| && IsFileAt(root, at' + names[1..][..j]);
          assert IsFileAt(root, at + names[..j + 1]);
        }
      }
    }
  }

  /** FileSystemManager::resolveSource: the walk, then the check that a file
      is copied or moved without the recursive flag and a directory with it. */
  function ResolveSource(fs: FileSystem, srcPath: string, recursive: bool): (r: Result<Source>)
    requires Valid(fs)
    ensures srcPath == "" ==> r == Err(InvalidPath)
    ensures r.Ok? ==> SourcePath(r.value) == Target(fs.cwd, srcPath)
    ensures srcPath != "" ==>
              var pp := ValidatePath(srcPath).value;
              var t := Target(fs.cwd, srcPath);
              var onTheWay := FileOnTheWay(fs.root, Base(fs.cwd, pp), Split(pp.rest));
              && (r.Ok? <==> Lookup(fs.root, t).Some? && (Lookup(fs.root, t).value.Dir? <==> recursive))
              && (r == Err(InvalidPath) <==> Lookup(fs.root, t).None? && !onTheWay)
              && (r == Err(InvalidOperation) <==>
                    onTheWay || (Lookup(fs.root, t).Some? && (Lookup(fs.root, t).value.Dir? <==> !recursive)))
    ensures r.Ok? ==> (r.value.SourceFile? <==> !recursive)
    ensures r.Ok? && r.value.SourceDir? ==> IsDirAt(fs.root, r.value.path)
    ensures r.Ok? && r.value.SourceFile? ==>
              && IsDirAt(fs.root, r.value.parent)
              && r.value.name in DirAt(fs.root, r.value.parent)
              && DirAt(fs.root, r.value.parent)[r.value.name].File?
    ensures r.Err? ==> r.error == InvalidPath || r.error == InvalidOperation
  {
    var pp :- ValidatePath(srcPath);
    var base := Base(fs.cwd, pp);
    AncestorIsDir(fs.root, fs.cwd, base);
    WalkSourceMeetsFile(fs.root, base, Split(pp.rest));
    var src :- WalkSource(fs.root, base, Split(pp.rest));
    if src.SourceFile? then
      StepLookup(fs.root, src.parent, [src.name]);
      if recursive then Err(InvalidOperation) else Ok(src)
    else if !recursive then Err(InvalidOperation)
    else Ok(src)
  }

  // ---------------------------------------------------------------------
  // The checks on a directory copy or move
  // ---------------------------------------------------------------------

  /** The loop of validateCopyOrMove that walks the parent links up from
      `current` to the root, looking for `src`. */
  function MeetsOnWayUp(src: seq<string>, current: seq<string>): (r: bool)
    ensures r <==> src <= current
    decreases |current|
  {
    if current == src then true
    else if current == [] then false
    else MeetsOnWayUp(src, current[..|current| - 1])
  }

  /** The last name of a path. */
  function Last(p: seq<string>): string
    requires p != []
  {
    p[|p| - 1]
  }

  /** FileSystemManager::validateCopyOrMove: the source may not be the
      destination, the root, or an ancestor of the destination, and its
      name must be free in the destination. */
  function ValidateCopyOrMove(root: Node, src: seq<string>, dst: seq<string>): (r: Outcome)
    requires IsDirAt(root, dst)
    ensures r.Pass? <==> !(src <= dst) && Last(src) !in DirAt(root, dst)
    ensures r.Fail? ==> r.error == InvalidOperation
  {
    if src == dst then Fail(InvalidOperation)
    else if src == [] then Fail(InvalidOperation)
    else if MeetsOnWayUp(src, dst) then Fail(InvalidOperation)
    else if Last(src) in DirAt(root, dst) then Fail(InvalidOperation)
    else Pass
  }

  // ---------------------------------------------------------------------
  // The four ways of copying and moving, on the tree
  // ---------------------------------------------------------------------

  /** FileSystemManager::copyDirectory: a fresh node for every node below,
      each with the name and, for a file, the text of the original. */
  function CopyTree(n: Node): (r: Node)
    ensures r == n
  {
    match n
    case File(c) => File(c)
    case Dir(m) =>
      var m' := map k | k in m :: CopyTree(m[k]);
      assert m' == m;
      Dir(m')
  }

  /** The file branch of cp: a copy of the file goes into the destination
      under its own name, replacing whatever entry had that name. */
  function CopyFile(root: Node, parent: seq<string>, name: string, dst: seq<string>): Node
    requires IsDirAt(root, parent) && name in DirAt(root, parent) && IsDirAt(root, dst)
  {
    PutChild(root, dst, name, DirAt(root, parent)[name])
  }

  /** The directory branch of cp, once the checks passed. */
  function CopyDir(root: Node, p: seq<string>, dst: seq<string>): Node
    requires IsDirAt(root, p) && p != [] && IsDirAt(root, dst)
  {
    PutChild(root, dst, Last(p), CopyTree(Lookup(root, p).value))
  }

  /** The file branch of mv: the entry leaves its directory and goes into
      the destination, replacing whatever entry had that name. */
  function MoveFile(root: Node, parent: seq<string>, name: string, dst: seq<string>): Node
    requires IsDirAt(root, parent) && name in DirAt(root, parent) && DirAt(root, parent)[name].File?
    requires IsDirAt(root, dst)
  {
    StepLookup(root, parent, [name]);
    FileIsLeaf(root, parent + [name], dst);
    LookupRemoveChild(root, parent, name, dst);
    PutChild(RemoveChild(root, parent, name), dst, name, DirAt(root, parent)[name])
  }

  /** The directory branch of mv, once the checks passed: the directory node
      itself is re-attached, so everything below it keeps its content. */
  function MoveDir(root: Node, p: seq<string>, dst: seq<string>): Node
    requires IsDirAt(root, p) && p != [] && IsDirAt(root, dst) && !(p <= dst)
  {
    var parent := p[..|p| - 1];
    assert p == parent + [Last(p)];
    AncestorIsDir(root, p, parent);
    LookupRemoveChild(root, parent, Last(p), dst);
    PutChild(RemoveChild(root, parent, Last(p)), dst, Last(p), Lookup(root, p).value)
  }

  /** Where the current directory ends up after a directory move: the
      source keeps its node, so a current directory inside it moves along. */
  function FollowCwd(cwd: seq<string>, p: seq<string>, dst: seq<string>): (r: seq<string>)
    requires p != []
    ensures p <= cwd ==> |r| == |cwd| - |p| + |dst| + 1 && r[..|dst| + 1] == dst + [Last(p)]
    ensures p <= cwd ==> r[|dst| + 1..] == cwd[|p|..]
    ensures !(p <= cwd) ==> r == cwd
  {
    if p <= cwd then dst + [Last(p)] + cwd[|p|..] else cwd
  }

  // ---------------------------------------------------------------------
  // cp and mv
  // ---------------------------------------------------------------------

  /** The path of the entry a source names. */
  function SourcePath(src: Source): seq<string> {
    match src
    case SourceFile(parent, name) => parent + [name]
    case SourceDir(p) => p
  }

  /** FileSystemManager::cp. */
  function Cp(fs: FileSystem, srcPath: string, dstPath: string, recursive: bool): (r: Result<FileSystem>)
    requires Valid(fs)
    ensures r.Ok? ==> r.value.cwd == fs.cwd
    ensures r.Err? ==> r.error == InvalidPath || r.error == InvalidOperation
    ensures ResolveSource(fs, srcPath, recursive).Err? ==> r == Err(ResolveSource(fs, srcPath, recursive).error)
    ensures ResolveSource(fs, srcPath, recursive).Ok? && ResolveDestination(fs, dstPath).Err? ==> r == Err(InvalidPath)
    ensures && ResolveSource(fs, srcPath, recursive).Ok? && ResolveSource(fs, srcPath, recursive).value.SourceDir?
            && ResolveDestination(fs, dstPath).Ok?
            && ValidateCopyOrMove(fs.root, ResolveSource(fs, srcPath, recursive).value.path,
                                  ResolveDestination(fs, dstPath).value).Fail?
            ==> r == Err(InvalidOperation)
  {
    var src :- ResolveSource(fs, srcPath, recursive);
    var dst :- ResolveDestination(fs, dstPath);
    match src
    case SourceFile(parent, name) =>
      Ok(fs.(root := CopyFile(fs.root, parent, name, dst)))
    case SourceDir(p) =>
      :- ValidateCopyOrMove(fs.root, p, dst);
      Ok(fs.(root := CopyDir(fs.root, p, dst)))
  }

  /** FileSystemManager::mv. */
  function Mv(fs: FileSystem, srcPath: string, dstPath: string, recursive: bool): (r: Result<FileSystem>)
    requires Valid(fs)
    ensures r.Err? ==> r.error == InvalidPath || r.error == InvalidOperation
    ensures ResolveSource(fs, srcPath, recursive).Err? ==> r == Err(ResolveSource(fs, srcPath, recursive).error)
    ensures ResolveSource(fs, srcPath, recursive).Ok? && ResolveDestination(fs, dstPath).Err? ==> r == Err(InvalidPath)
    ensures && ResolveSource(fs, srcPath, recursive).Ok? && ResolveSource(fs, srcPath, recursive).value.SourceDir?
            && ResolveDestination(fs, dstPath).Ok?
            && ValidateCopyOrMove(fs.root, ResolveSource(fs, srcPath, recursive).value.path,
                                  ResolveDestination(fs, dstPath).value).Fail?
            ==> r == Err(InvalidOperation)
  {
    var src :- ResolveSource(fs, srcPath, recursive);
    var dst :- ResolveDestination(fs, dstPath);
    match src
    case SourceFile(parent, name) =>
      Ok(fs.(root := MoveFile(fs.root, parent, name, dst)))
    case SourceDir(p) =>
      :- ValidateCopyOrMove(fs.root, p, dst);
      Ok(FileSystem(MoveDir(fs.root, p, dst), FollowCwd(fs.cwd, p, dst)))
  }
  // ---------------------------------------------------------------------
  // What copying and moving do to the tree
  // ---------------------------------------------------------------------

  /** A tree the operations accept, with the current directory left open. */
  predicate GoodTree(root: Node) {
    root.Dir? && WellNamed(root)
  }

  /** Storing a well-named node under a name keeps the tree well named, as
      long as a directory goes under a valid name. */
  lemma PutKeepsGood(root: Node, q: seq<string>, name: string, c: Node)
    requires GoodTree(root) && IsDirAt(root, q) && WellNamed(c) && (c.Dir? ==> ValidName(name))
    ensures GoodTree(PutChild(root, q, name, c))
  {
    var m := DirAt(root, q);
    WellNamedSubtree(root, q);
    Directory.AddKeepsWellNamed(m, m[name := c], name, c);
    ReplaceKeepsWellNamed(root, q, Dir(m[name := c]));
  }

  lemma RemoveKeepsGood(root: Node, q: seq<string>, name: string)
    requires GoodTree(root) && IsDirAt(root, q)
    ensures GoodTree(RemoveChild(root, q, name))
  {
    var m := DirAt(root, q);
    WellNamedSubtree(root, q);
    Directory.RemoveKeepsWellNamed(m, m - {name}, name);
    ReplaceKeepsWellNamed(root, q, Dir(m - {name}));
  }

  /** A file copied into a directory: the copy sits under the file's name,
      nothing off that path changes, and a directory survives exactly when
      the copy did not overwrite it or one of its ancestors. */
  lemma CopyFileFacts(root: Node, parent: seq<string>, name: string, dst: seq<string>, x: seq<string>)
    requires GoodTree(root) && IsDirAt(root, parent) && name in DirAt(root, parent) && DirAt(root, parent)[name].File?
    requires IsDirAt(root, dst)
    ensures Lookup(CopyFile(root, parent, name, dst), dst + [name]) == Some(DirAt(root, parent)[name])
    ensures SameOff(CopyFile(root, parent, name, dst), root, dst + [name])
    ensures GoodTree(CopyFile(root, parent, name, dst))
    ensures IsDirAt(root, x) ==> (IsDirAt(CopyFile(root, parent, name, dst), x) <==> !(dst + [name] <= x))
  {
    var f := DirAt(root, parent)[name];
    var r := CopyFile(root, parent, name, dst);
    LookupPutChild(root, dst, name, f, dst + [name]);
    assert (dst + [name])[|dst| + 1..] == [];
    forall y | !(y <= dst + [name]) && !(dst + [name] <= y)
      ensures Lookup(r, y) == Lookup(root, y)
    {
      LookupPutChild(root, dst, name, f, y);
    }
    PutKeepsGood(root, dst, name, f);
    LookupPutChild(root, dst, name, f, x);
  }

  /** Copying a file into the directory that holds it changes nothing. */
  lemma CopyFileInPlace(root: Node, parent: seq<string>, name: string)
    requires IsDirAt(root, parent) && name in DirAt(root, parent)
    ensures CopyFile(root, parent, name, parent) == root
  {
    var m := DirAt(root, parent);
    assert m[name := m[name]] == m;
    ReplaceSame(root, parent);
  }

  /** A file moved into a directory: it sits there under its name, it is gone
      from where it was, and a directory survives exactly when the move did
      not overwrite it or one of its ancestors. */
  lemma MoveFileFacts(root: Node, parent: seq<string>, name: string, dst: seq<string>, x: seq<string>)
    requires GoodTree(root) && IsDirAt(root, parent) && name in DirAt(root, parent) && DirAt(root, parent)[name].File?
    requires IsDirAt(root, dst)
    ensures Lookup(MoveFile(root, parent, name, dst), dst + [name]) == Some(DirAt(root, parent)[name])
    ensures dst != parent ==> Lookup(MoveFile(root, parent, name, dst), parent + [name]).None?
    ensures GoodTree(MoveFile(root, parent, name, dst))
    ensures IsDirAt(root, x) ==> (IsDirAt(MoveFile(root, parent, name, dst), x) <==> !(dst + [name] <= x))
  {
    var f := DirAt(root, parent)[name];
    var r1 := RemoveChild(root, parent, name);
    StepLookup(root, parent, [name]);
    FileIsLeaf(root, parent + [name], dst);
    FileIsLeaf(root, parent + [name], x);
    LookupRemoveChild(root, parent, name, dst);
    LookupRemoveChild(root, parent, name, x);
    LookupPutChild(r1, dst, name, f, dst + [name]);
    assert (dst + [name])[|dst| + 1..] == [];
    LookupPutChild(r1, dst, name, f, parent + [name]);
    LookupRemoveChild(root, parent, name, parent + [name]);
    LookupPutChild(r1, dst, name, f, x);
    if dst != parent && dst + [name] <= parent + [name] {
      assert dst == (dst + [name])[..|dst|] == (parent + [name])[..|dst|] == parent[..|dst|];
      assert (parent + [name])[|dst| + 1..] != [];
    }
    RemoveKeepsGood(root, parent, name);
    PutKeepsGood(r1, dst, name, f);
  }

  /** Moving a file into the directory that holds it changes nothing. */
  lemma MoveFileInPlace(root: Node, parent: seq<string>, name: string)
    requires IsDirAt(root, parent) && name in DirAt(root, parent) && DirAt(root, parent)[name].File?
    ensures MoveFile(root, parent, name, parent) == root
  {
    PutRemoveCancel(root, parent, name);
  }
  /** A directory copied into a directory that does not hold its name: the
      copy equals the original, nothing off its path changes, exactly its
      nodes are added, and every directory that existed still does. */
  lemma CopyDirFacts(root: Node, p: seq<string>, dst: seq<string>, x: seq<string>)
    requires GoodTree(root) && IsDirAt(root, p) && IsDirAt(root, dst)
    requires ValidateCopyOrMove(root, p, dst).Pass?
    ensures Lookup(CopyDir(root, p, dst), dst + [Last(p)]) == Lookup(root, p)
    ensures SameOff(CopyDir(root, p, dst), root, dst + [Last(p)])
    ensures Descendants(CopyDir(root, p, dst)) == Descendants(root) + Graft(dst + [Last(p)], Lookup(root, p).value)
    ensures |Descendants(CopyDir(root, p, dst))| == |Descendants(root)| + 1 + |Descendants(Lookup(root, p).value)|
    ensures GoodTree(CopyDir(root, p, dst))
    ensures IsDirAt(root, x) ==> IsDirAt(CopyDir(root, p, dst), x)
  {
    var n := Last(p);
    var c := Lookup(root, p).value;
    var r := CopyDir(root, p, dst);
    LookupPutChild(root, dst, n, c, dst + [n]);
    assert (dst + [n])[|dst| + 1..] == [];
    forall y | !(y <= dst + [n]) && !(dst + [n] <= y)
      ensures Lookup(r, y) == Lookup(root, y)
    {
      LookupPutChild(root, dst, n, c, y);
    }
    DescendantsPutChild(root, dst, n, c);
    GraftCard(dst + [n], c);
    WellNamedSubtree(root, p);
    DirPathIsValid(root, p);
    PutKeepsGood(root, dst, n, c);
    LookupPutChild(root, dst, n, c, x);
    AbsentBlocks(root, dst, n, x);
  }

  /** The two steps of a directory move: erase the entry from the parent,
      store the same node in the destination, which the erasure left alone. */
  lemma MoveDirSteps(root: Node, p: seq<string>, dst: seq<string>)
    requires IsDirAt(root, p) && IsDirAt(root, dst) && ValidateCopyOrMove(root, p, dst).Pass?
    ensures p == p[..|p| - 1] + [Last(p)]
    ensures IsDirAt(root, p[..|p| - 1]) && Last(p) in DirAt(root, p[..|p| - 1])
    ensures DirAt(root, p[..|p| - 1])[Last(p)] == Lookup(root, p).value
    ensures IsDirAt(RemoveChild(root, p[..|p| - 1], Last(p)), dst)
    ensures Last(p) !in DirAt(RemoveChild(root, p[..|p| - 1], Last(p)), dst)
    ensures MoveDir(root, p, dst) ==
              PutChild(RemoveChild(root, p[..|p| - 1], Last(p)), dst, Last(p), Lookup(root, p).value)
  {
    var parent := p[..|p| - 1];
    assert p == parent + [Last(p)];
    AncestorIsDir(root, p, parent);
    LookupAppend(root, parent, [Last(p)]);
    assert dst != parent;
    RemoveChildKeys(root, parent, Last(p), dst);
  }

  /** A directory moved into a directory that does not hold its name sits
      there whole and is gone from where it was. */
  lemma MoveDirRelocates(root: Node, p: seq<string>, dst: seq<string>)
    requires IsDirAt(root, p) && IsDirAt(root, dst) && ValidateCopyOrMove(root, p, dst).Pass?
    ensures Lookup(MoveDir(root, p, dst), dst + [Last(p)]) == Lookup(root, p)
    ensures Lookup(MoveDir(root, p, dst), p).None?
  {
    MoveDirSteps(root, p, dst);
    var n, parent, c := Last(p), p[..|p| - 1], Lookup(root, p).value;
    var r1 := RemoveChild(root, parent, n);
    LookupPutChild(r1, dst, n, c, dst + [n]);
    assert (dst + [n])[|dst| + 1..] == [];
    AbsentBlocks(root, dst, n, p);
    LookupRemoveChild(root, parent, n, p);
    LookupPutChild(r1, dst, n, c, p);
  }

  /** A directory move neither adds nor loses nodes. */
  lemma MoveDirCount(root: Node, p: seq<string>, dst: seq<string>)
    requires IsDirAt(root, p) && IsDirAt(root, dst) && ValidateCopyOrMove(root, p, dst).Pass?
    ensures |Descendants(MoveDir(root, p, dst))| == |Descendants(root)|
  {
    MoveDirSteps(root, p, dst);
    var n, parent, c := Last(p), p[..|p| - 1], Lookup(root, p).value;
    var r1 := RemoveChild(root, parent, n);
    DescendantsRemoveChild(root, parent, n);
    DescendantsPutChild(r1, dst, n, c);
    GraftCard(p, c);
    GraftCard(dst + [n], c);
  }

  /** A directory move keeps the tree well named, and the current directory,
      followed along, still exists. */
  lemma MoveDirKeepsValid(root: Node, p: seq<string>, dst: seq<string>, cwd: seq<string>)
    requires GoodTree(root) && IsDirAt(root, p) && IsDirAt(root, dst) && IsDirAt(root, cwd)
    requires ValidateCopyOrMove(root, p, dst).Pass?
    ensures GoodTree(MoveDir(root, p, dst))
    ensures IsDirAt(MoveDir(root, p, dst), FollowCwd(cwd, p, dst))
    ensures p <= cwd ==> Lookup(MoveDir(root, p, dst), FollowCwd(cwd, p, dst)) == Lookup(root, cwd)
  {
    MoveDirSteps(root, p, dst);
    var n, parent, c := Last(p), p[..|p| - 1], Lookup(root, p).value;
    var r1 := RemoveChild(root, parent, n);
    WellNamedSubtree(root, p);
    DirPathIsValid(root, p);
    RemoveKeepsGood(root, parent, n);
    PutKeepsGood(r1, dst, n, c);
    if p <= cwd {
      var rest := cwd[|p|..];
      assert cwd == p + rest;
      LookupAppend(root, p, rest);
      var cwd' := FollowCwd(cwd, p, dst);
      assert cwd' == dst + [n] + rest;
      LookupPutChild(r1, dst, n, c, cwd');
      assert cwd'[|dst| + 1..] == rest;
    } else {
      AbsentBlocks(root, dst, n, cwd);
      LookupRemoveChild(root, parent, n, cwd);
      LookupPutChild(r1, dst, n, c, cwd);
    }
  }

  /** Erasing an entry and storing a node under the same name elsewhere
      leaves every path alone that neither leads to nor passes through the
      old or the new spot. */
  lemma RemovePutFrame(root: Node, parent: seq<string>, name: string, dst: seq<string>, c: Node, x: seq<string>)
    requires IsDirAt(root, parent) && IsDirAt(RemoveChild(root, parent, name), dst)
    requires !(x <= dst + [name]) && !(dst + [name] <= x)
    requires !(x <= parent + [name]) && !(parent + [name] <= x)
    ensures Lookup(PutChild(RemoveChild(root, parent, name), dst, name, c), x) == Lookup(root, x)
  {
    LookupPutChild(RemoveChild(root, parent, name), dst, name, c, x);
    LookupRemoveChild(root, parent, name, x);
  }

  /** A file move changes nothing away from the file's old and new spots. */
  lemma MoveFileFrame(root: Node, parent: seq<string>, name: string, dst: seq<string>)
    requires IsDirAt(root, parent) && name in DirAt(root, parent) && DirAt(root, parent)[name].File?
    requires IsDirAt(root, dst)
    ensures forall x :: !(x <= dst + [name]) && !(dst + [name] <= x) && !(x <= parent + [name]) && !(parent + [name] <= x) ==>
              Lookup(MoveFile(root, parent, name, dst), x) == Lookup(root, x)
  {
    StepLookup(root, parent, [name]);
    FileIsLeaf(root, parent + [name], dst);
    LookupRemoveChild(root, parent, name, dst);
    forall x | !(x <= dst + [name]) && !(dst + [name] <= x) && !(x <= parent + [name]) && !(parent + [name] <= x)
      ensures Lookup(MoveFile(root, parent, name, dst), x) == Lookup(root, x)
    {
      RemovePutFrame(root, parent, name, dst, DirAt(root, parent)[name], x);
    }
  }

  /** A directory move changes nothing away from the directory's old and new spots. */
  lemma MoveDirFrame(root: Node, p: seq<string>, dst: seq<string>)
    requires IsDirAt(root, p) && IsDirAt(root, dst) && ValidateCopyOrMove(root, p, dst).Pass?
    ensures forall x :: !(x <= dst + [Last(p)]) && !(dst + [Last(p)] <= x) && !(x <= p) && !(p <= x) ==>
              Lookup(MoveDir(root, p, dst), x) == Lookup(root, x)
  {
    MoveDirSteps(root, p, dst);
    forall x | !(x <= dst + [Last(p)]) && !(dst + [Last(p)] <= x) && !(x <= p) && !(p <= x)
      ensures Lookup(MoveDir(root, p, dst), x) == Lookup(root, x)
    {
      RemovePutFrame(root, p[..|p| - 1], Last(p), dst, Lookup(root, p).value, x);
    }
  }

  /** Moving a file back where it came from restores the tree, provided the
      first move overwrote nothing. */
  lemma MoveFileBack(root: Node, parent: seq<string>, name: string, dst: seq<string>)
    requires GoodTree(root) && IsDirAt(root, parent) && name in DirAt(root, parent) && DirAt(root, parent)[name].File?
    requires IsDirAt(root, dst) && name !in DirAt(root, dst)
    ensures var r := MoveFile(root, parent, name, dst);
            && IsDirAt(r, dst) && name in DirAt(r, dst) && DirAt(r, dst)[name].File? && IsDirAt(r, parent)
            && MoveFile(r, dst, name, parent) == root
  {
    var f := DirAt(root, parent)[name];
    var r1 := RemoveChild(root, parent, name);
    var r := MoveFile(root, parent, name, dst);
    StepLookup(root, parent, [name]);
    FileIsLeaf(root, parent + [name], dst);
    assert dst != parent;
    RemoveChildKeys(root, parent, name, dst);
    LookupPutChild(r1, dst, name, f, dst);
    AbsentBlocks(root, dst, name, parent);
    LookupRemoveChild(root, parent, name, parent);
    LookupPutChild(r1, dst, name, f, parent);
    RemovePutCancel(r1, dst, name, f);
    PutRemoveCancel(root, parent, name);
  }

  /** Moving a directory back where it came from restores the whole state,
      current directory included. */
  lemma MoveDirBack(root: Node, p: seq<string>, dst: seq<string>, cwd: seq<string>)
    requires GoodTree(root) && IsDirAt(root, p) && IsDirAt(root, dst) && IsDirAt(root, cwd)
    requires ValidateCopyOrMove(root, p, dst).Pass?
    ensures var r := MoveDir(root, p, dst);
            var back := p[..|p| - 1];
            && IsDirAt(r, dst + [Last(p)]) && IsDirAt(r, back)
            && ValidateCopyOrMove(r, dst + [Last(p)], back).Pass?
            && MoveDir(r, dst + [Last(p)], back) == root
            && FollowCwd(FollowCwd(cwd, p, dst), dst + [Last(p)], back) == cwd
  {
    var n := Last(p);
    var parent := p[..|p| - 1];
    var c := Lookup(root, p).value;
    assert p == parent + [n];
    AncestorIsDir(root, p, parent);
    LookupAppend(root, parent, [n]);
    assert DirAt(root, parent)[n] == c;
    var r1 := RemoveChild(root, parent, n);
    var r := MoveDir(root, p, dst);
    assert dst != parent;
    RemoveChildKeys(root, parent, n, dst);
    // the moved directory and the old parent in the new tree
    LookupPutChild(r1, dst, n, c, dst + [n]);
    assert (dst + [n])[|dst| + 1..] == [];
    AbsentBlocks(root, dst, n, parent);
    LookupRemoveChild(root, parent, n, parent);
    LookupPutChild(r1, dst, n, c, parent);
    assert IsDirAt(r, parent);
    // the way back is allowed
    if parent != dst {
      PutChildKeys(r1, dst, n, c, parent);
    }
    assert n == Last(dst + [n]);
    assert (dst + [n])[..|dst + [n]| - 1] == dst;
    assert !(dst + [n] <= parent);
    // and undoes the way there
    RemovePutCancel(r1, dst, n, c);
    PutRemoveCancel(root, parent, n);
    FollowBack(root, p, dst, cwd);
  }

  /** The current directory, followed along a directory move and back, is
      where it was. */
  lemma FollowBack(root: Node, p: seq<string>, dst: seq<string>, cwd: seq<string>)
    requires IsDirAt(root, p) && IsDirAt(root, dst) && IsDirAt(root, cwd)
    requires ValidateCopyOrMove(root, p, dst).Pass?
    ensures FollowCwd(FollowCwd(cwd, p, dst), dst + [Last(p)], p[..|p| - 1]) == cwd
  {
    var n := Last(p);
    assert p == p[..|p| - 1] + [n];
    if p <= cwd {
      assert cwd == p + cwd[|p|..];
    } else {
      AbsentBlocks(root, dst, n, cwd);
    }
  }

  // ---------------------------------------------------------------------
  // What cp and mv do to the whole state
  // ---------------------------------------------------------------------

  /** A successful cp: the entry the source path names now also sits in the
      destination under its own name, nothing off that path changes, and
      the state stays valid unless a file copy overwrote the current
      directory or one of its ancestors. */
  lemma CpEffect(fs: FileSystem, srcPath: string, dstPath: string, recursive: bool)
    requires Valid(fs) && Cp(fs, srcPath, dstPath, recursive).Ok?
    ensures var r := Cp(fs, srcPath, dstPath, recursive).value;
            var src := ResolveSource(fs, srcPath, recursive).value;
            var dst := ResolveDestination(fs, dstPath).value;
            var at := dst + [Last(SourcePath(src))];
            && Lookup(r.root, at) == Lookup(fs.root, SourcePath(src))
            && SameOff(r.root, fs.root, at)
            && GoodTree(r.root)
            && (Valid(r) <==> src.SourceDir? || !(at <= fs.cwd))
  {
    var src := ResolveSource(fs, srcPath, recursive).value;
    var dst := ResolveDestination(fs, dstPath).value;
    match src
    case SourceFile(parent, name) =>
      assert Last(parent + [name]) == name;
      StepLookup(fs.root, parent, [name]);
      CopyFileFacts(fs.root, parent, name, dst, fs.cwd);
    case SourceDir(p) =>
      CopyDirFacts(fs.root, p, dst, fs.cwd);
  }

  /** A successful mv: the entry the source path names now sits in the
      destination under its own name and is gone from where it was, and the
      state stays valid unless a file move overwrote the current directory or
      one of its ancestors. A directory move keeps every node and carries a
      current directory inside it along. */
  lemma MvEffect(fs: FileSystem, srcPath: string, dstPath: string, recursive: bool)
    requires Valid(fs) && Mv(fs, srcPath, dstPath, recursive).Ok?
    ensures var r := Mv(fs, srcPath, dstPath, recursive).value;
            var src := ResolveSource(fs, srcPath, recursive).value;
            var dst := ResolveDestination(fs, dstPath).value;
            var at := dst + [Last(SourcePath(src))];
            && Lookup(r.root, at) == Lookup(fs.root, SourcePath(src))
            && (SourcePath(src) != at ==> Lookup(r.root, SourcePath(src)).None?)
            && GoodTree(r.root)
            && (Valid(r) <==> src.SourceDir? || !(at <= fs.cwd))
            && (forall x :: !(x <= at) && !(at <= x) && !(x <= SourcePath(src)) && !(SourcePath(src) <= x) ==>
                  Lookup(r.root, x) == Lookup(fs.root, x))
            && (src.SourceDir? ==>
                  && r.cwd == FollowCwd(fs.cwd, src.path, dst)
                  && (src.path <= fs.cwd ==> Lookup(r.root, r.cwd) == Lookup(fs.root, fs.cwd))
                  && |Descendants(r.root)| == |Descendants(fs.root)|)
  {
    var src := ResolveSource(fs, srcPath, recursive).value;
    var dst := ResolveDestination(fs, dstPath).value;
    match src
    case SourceFile(parent, name) =>
      assert Last(parent + [name]) == name;
      StepLookup(fs.root, parent, [name]);
      MoveFileFacts(fs.root, parent, name, dst, fs.cwd);
      MoveFileFrame(fs.root, parent, name, dst);
    case SourceDir(p) =>
      MoveDirRelocates(fs.root, p, dst);
      MoveDirCount(fs.root, p, dst);
      MoveDirKeepsValid(fs.root, p, dst, fs.cwd);
      MoveDirFrame(fs.root, p, dst);
  }

  /** When cp and mv go ahead: both paths resolve, and a directory source
      passes the checks of validateCopyOrMove; a file source needs no more. */
  lemma CpMvSucceed(fs: FileSystem, srcPath: string, dstPath: string, recursive: bool)
    requires Valid(fs)
    ensures Cp(fs, srcPath, dstPath, recursive).Ok? <==>
              && ResolveSource(fs, srcPath, recursive).Ok?
              && ResolveDestination(fs, dstPath).Ok?
              && (ResolveSource(fs, srcPath, recursive).value.SourceDir? ==>
                    ValidateCopyOrMove(fs.root, ResolveSource(fs, srcPath, recursive).value.path,
                                       ResolveDestination(fs, dstPath).value).Pass?)
    ensures Mv(fs, srcPath, dstPath, recursive).Ok? <==> Cp(fs, srcPath, dstPath, recursive).Ok?
  {
  }
}
