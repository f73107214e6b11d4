/**
 * The operations of one directory on its own entries (the Directory
 * class): creating and removing entries, counting what lies
 * below, listing names, and rendering the directory's absolute path.
 * A directory is represented by its children map; an operation returns
 * the new map, or the one failure it raises with the map left as it was.
 */
module Directory {
  import opened Errors
  import opened Tree
  import opened PathUtils

  type Children = map<string, Node>

  /** `m'` is `m` with an entry `name` holding `c`; every other entry is kept. */
  predicate AddsOnly(m: Children, m': Children, name: string, c: Node) {
    && m'.Keys == m.Keys + {name}
    && m'[name] == c
    && forall k :: k in m && k != name ==> m'[k] == m[k]
  }

  /** `m'` is `m` without the entry `name`; every other entry is kept. */
  predicate RemovesOnly(m: Children, m': Children, name: string) {
    && m'.Keys == m.Keys - {name}
    && forall k :: k in m' ==> m'[k] == m[k]
  }

  /** The number `getSize` reports: a file's length in characters; for a
      directory, how many entries lie below it at any depth (not only its
      direct children, although the header describes it that way). */
  function Size(n: Node): nat {
    match n
    case File(c) => |c|
    case Dir(_) => |Descendants(n)|
  }

  // ---------------------------------------------------------------------
  // getSize
  // ---------------------------------------------------------------------

  /** Taking one entry out of a directory removes that entry and everything below it. */
  lemma TakeEntry(m: Children, k: string)
    requires k in m
    ensures |Descendants(Dir(m))| == |Descendants(Dir(m - {k}))| + 1 + |Descendants(m[k])|
  {
    DescendantsRemoveChild(Dir(m), [], k);
    assert RemoveChild(Dir(m), [], k) == Dir(m - {k});
    assert [] + [k] == [k];
    GraftCard([k], m[k]);
  }

  /** One entry of getSize's loop: the entry itself and, for a directory,
      its own size. */
  lemma SizeStep(rest: Children, k: string, size: nat, below: nat, total: nat)
    requires k in rest && size + |Descendants(Dir(rest))| == total
    requires below == if rest[k].Dir? then Size(rest[k]) else 0
    ensures size + 1 + below + |Descendants(Dir(rest - {k}))| == total
  {
    TakeEntry(rest, k);
  }

  /** Directory::getSize: one for every entry, plus, for an entry that is a
      directory, that directory's own size. Files contribute only their entry. */
  method GetSize(n: Node) returns (size: nat)
    ensures size == Size(n)
  {
    match n {
      case File(c) =>
        size := |c|;
      case Dir(m) =>
        size := 0;
        var rest := m;
        while rest != map[]
          invariant forall k :: k in rest ==> k in m && rest[k] == m[k]
          invariant size + |Descendants(Dir(rest))| == |Descendants(n)|
          decreases |rest.Keys|
        {
          var k :| k in rest;
          var child := rest[k];
          var below := 0;
          if child.Dir? {
            below := GetSize(child);
          }
          SizeStep(rest, k, size, below, |Descendants(n)|);
          size := size + 1 + below;
          assert (rest - {k}).Keys == rest.Keys - {k};
          rest := rest - {k};
        }
        assert Descendants(Dir(rest)) == {};
    }
  }

  /** A directory has size zero exactly when it has no entries. */
  lemma SizeZeroIffEmpty(m: Children)
    ensures Size(Dir(m)) == 0 <==> m == map[]
  {
    if m != map[] {
      var k :| k in m;
      DescendantsAreLookups(Dir(m), [k]);
    }
  }

  // ---------------------------------------------------------------------
  // Creating and removing entries
  // ---------------------------------------------------------------------

  /** Directory::mkdir: the name is checked first, then its freshness. */
  function Mkdir(m: Children, name: string): (r: Result<Children>)
    ensures !ValidName(name) ==> r == Err(InvalidName)
    ensures ValidName(name) && name in m ==> r == Err(DirectoryAlreadyExists)
    ensures r.Ok? <==> ValidName(name) && name !in m
    ensures r.Ok? ==> AddsOnly(m, r.value, name, Dir(map[]))
  {
    if !ValidName(name) then Err(InvalidName)
    else if name in m then Err(DirectoryAlreadyExists)
    else Ok(m[name := Dir(map[])])
  }

  /** Directory::rmEmptyDir: the entry must exist, be a directory, and have size zero. */
  function RmEmptyDir(m: Children, name: string): (r: Result<Children>)
    ensures name !in m ==> r == Err(DirectoryDoesNotExist)
    ensures name in m && m[name].File? ==> r == Err(InvalidOperation)
    ensures name in m && m[name].Dir? && m[name].children != map[] ==> r == Err(DirectoryNotEmpty)
    ensures r.Ok? <==> name in m && m[name] == Dir(map[])
    ensures r.Ok? ==> RemovesOnly(m, r.value, name)
  {
    if name !in m then Err(DirectoryDoesNotExist)
    else if !m[name].Dir? then Err(InvalidOperation)
    else
      SizeZeroIffEmpty(m[name].children);
      if Size(m[name]) > 0 then Err(DirectoryNotEmpty)
      else Ok(m - {name})
  }

  /** Directory::rmEntireDir: the entry must exist and be a directory; its contents go with it. */
  function RmEntireDir(m: Children, name: string): (r: Result<Children>)
    ensures name !in m ==> r == Err(DirectoryDoesNotExist)
    ensures name in m && m[name].File? ==> r == Err(InvalidOperation)
    ensures r.Ok? <==> name in m && m[name].Dir?
    ensures r.Ok? ==> RemovesOnly(m, r.value, name)
  {
    if name !in m then Err(DirectoryDoesNotExist)
    else if !m[name].Dir? then Err(InvalidOperation)
    else Ok(m - {name})
  }

  /** Directory::rmFile: the entry must exist and be a file. */
  function RmFile(m: Children, name: string): (r: Result<Children>)
    ensures name !in m ==> r == Err(FileDoesNotExist)
    ensures name in m && m[name].Dir? ==> r == Err(InvalidOperation)
    ensures r.Ok? <==> name in m && m[name].File?
    ensures r.Ok? ==> RemovesOnly(m, r.value, name)
  {
    if name !in m then Err(FileDoesNotExist)
    else if m[name].Dir? then Err(InvalidOperation)
    else Ok(m - {name})
  }

  /** Directory::createOrUpdateFile: an existing file is left untouched, a
      missing one is created empty; the name itself is never checked. */
  function CreateOrUpdateFile(m: Children, name: string): (r: Result<Children>)
    ensures r.Err? <==> name in m && m[name].Dir?
    ensures r.Err? ==> r.error == InvalidOperation
    ensures r.Ok? && name in m ==> r.value == m
    ensures r.Ok? && name !in m ==> AddsOnly(m, r.value, name, File(""))
  {
    if name in m then
      if m[name].Dir? then Err(InvalidOperation) else Ok(m)
    else Ok(m[name := File("")])
  }

  /** Directory::addChild: attaches a node under a fresh name. */
  function AddChild(m: Children, name: string, c: Node): (r: Result<Children>)
    ensures r.Err? <==> name in m
    ensures r.Err? ==> r.error == InvalidOperation
    ensures r.Ok? ==> AddsOnly(m, r.value, name, c)
  {
    if name in m then Err(InvalidOperation) else Ok(m[name := c])
  }

  // ---------------------------------------------------------------------
  // Laws relating the entry operations
  // ---------------------------------------------------------------------

  /** `rmdir` undoes `mkdir`. */
  lemma MkdirThenRmEmptyDir(m: Children, name: string)
    requires Mkdir(m, name).Ok?
    ensures RmEmptyDir(Mkdir(m, name).value, name) == Ok(m)
  {
    assert Mkdir(m, name).value - {name} == m;
  }

  /** `mkdir` of a name that was just created fails. */
  lemma MkdirTwice(m: Children, name: string)
    requires Mkdir(m, name).Ok?
    ensures Mkdir(Mkdir(m, name).value, name) == Err(DirectoryAlreadyExists)
  {
  }

  /** `touch` twice is `touch` once. */
  lemma CreateOrUpdateFileIdempotent(m: Children, name: string)
    requires CreateOrUpdateFile(m, name).Ok?
    ensures CreateOrUpdateFile(CreateOrUpdateFile(m, name).value, name) == CreateOrUpdateFile(m, name)
  {
  }

  /** Removing an entry of either kind, whichever operation succeeds, gives the same map. */
  lemma RemovalsAgree(m: Children, name: string)
    requires RmEmptyDir(m, name).Ok?
    ensures RmEntireDir(m, name) == RmEmptyDir(m, name)
    ensures RmFile(m, name) == Err(InvalidOperation)
  {
  }

  /** Creating a directory and then adding a node under that name is refused. */
  lemma AddChildAfterMkdir(m: Children, name: string, c: Node)
    requires Mkdir(m, name).Ok?
    ensures AddChild(Mkdir(m, name).value, name, c) == Err(InvalidOperation)
    ensures AddChild(m, name, c).Ok?
  {
  }

  // ---------------------------------------------------------------------
  // Keeping directory names valid
  // ---------------------------------------------------------------------

  /** An entry operation keeps the directory well named when what it stores
      is a file or a well-named directory under a valid name. */
  lemma AddKeepsWellNamed(m: Children, m': Children, name: string, c: Node)
    requires WellNamed(Dir(m)) && AddsOnly(m, m', name, c)
    requires WellNamed(c) && (c.Dir? ==> ValidName(name))
    ensures WellNamed(Dir(m'))
  {
  }

  lemma RemoveKeepsWellNamed(m: Children, m': Children, name: string)
    requires WellNamed(Dir(m)) && RemovesOnly(m, m', name)
    ensures WellNamed(Dir(m'))
  {
  }

  // ---------------------------------------------------------------------
  // ls
  // ---------------------------------------------------------------------

  /** Directory::ls: every entry name once, in whatever order the map yields them. */
  method ListNames(m: Children) returns (names: seq<string>)
    ensures forall k :: k in names <==> k in m
    ensures forall i, j :: 0 <= i < j < |names| ==> names[i] != names[j]
    ensures |names| == |m|
  {
    names := [];
    var rest := m.Keys;
    while rest != {}
      invariant rest <= m.Keys
      invariant forall k :: k in names <==> k in m && k !in rest
      invariant forall i, j :: 0 <= i < j < |names| ==> names[i] != names[j]
      invariant |names| + |rest| == |m.Keys|
      decreases |rest|
    {
      var k :| k in rest;
      names := names + [k];
      rest := rest - {k};
    }
  }

  // ---------------------------------------------------------------------
  // getFullPath
  // ---------------------------------------------------------------------

  /** Each name followed by '/'. */
  function Slashed(segs: seq<string>): string {
    if segs == [] then "" else segs[0] + "/" + Slashed(segs[1..])
  }

  lemma {:induction false} SlashedSnoc(segs: seq<string>, x: string)
    ensures Slashed(segs + [x]) == Slashed(segs) + x + "/"
    decreases |segs|
  {
    if segs == [] {
      assert Slashed([x]) == x + "/" + Slashed([]);
    } else {
      assert (segs + [x])[1..] == segs[1..] + [x];
      SlashedSnoc(segs[1..], x);
    }
  }

  lemma {:induction false} SlashedIsJoin(segs: seq<string>)
    requires segs != []
    ensures Slashed(segs) == Join(segs) + "/"
    decreases |segs|
  {
    if |segs| > 1 {
      SlashedIsJoin(segs[1..]);
    }
  }

  lemma {:induction false} NonEmptySnoc(xs: seq<string>, x: string)
    ensures NonEmpty(xs + [x]) == NonEmpty(xs) + (if x == "" then [] else [x])
    decreases |xs|
  {
    if xs == [] {
      assert NonEmpty([x]) == (if x == "" then [] else [x]) + NonEmpty([]);
    } else {
      assert (xs + [x])[1..] == xs[1..] + [x];
      NonEmptySnoc(xs[1..], x);
    }
  }

  /** Directory::getFullPath. `chain` holds the names met walking from the
      root down to this directory, root first (Directory::getFullPath collects them
      walking up the parent links, then reads them back in reverse). Empty
      names, such as the root's, are skipped; the trailing '/' is dropped
      unless the result is "/" alone. */
  method FullPath(chain: seq<string>) returns (path: string)
    ensures path == "/" + Join(NonEmpty(chain))
  {
    path := "/";
    var i := 0;
    while i < |chain|
      invariant 0 <= i <= |chain|
      invariant path == "/" + Slashed(NonEmpty(chain[..i]))
    {
      var done := NonEmpty(chain[..i]);
      assert chain[..i + 1] == chain[..i] + [chain[i]];
      NonEmptySnoc(chain[..i], chain[i]);
      if chain[i] != "" {
        SlashedSnoc(done, chain[i]);
        path := path + chain[i] + "/";
      } else {
        assert NonEmpty(chain[..i + 1]) == done + [] == done;
      }
      i := i + 1;
    }
    assert chain[..i] == chain;
    if |path| > 1 {
      SlashedIsJoin(NonEmpty(chain));
      path := path[..|path| - 1];
    }
  }
}
