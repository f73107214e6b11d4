/**
 * The search command (FileSystemManager::grep and dfsAndGrep): the files
 * whose text contains a pattern, either among the entries of one directory
 * or anywhere below it. A hit is reported as a path of names; dfsAndGrep
 * glues those names together with '/' when it prints them.
 */
module Search {
  import opened Errors
  import opened Tree
  import opened Kmp
  import opened Manager

  /** A file whose text contains the pattern. */
  predicate IsHit(n: Node, pattern: string) {
    n.File? && Occurs(n.content, pattern)
  }

  /** The path `x`, relative to `n`, names a file whose text contains the pattern. */
  predicate HitAt(n: Node, x: seq<string>, pattern: string) {
    Lookup(n, x).Some? && IsHit(Lookup(n, x).value, pattern)
  }

  /** No file at any depth below `n` contains the pattern. */
  ghost predicate NoFileMatches(n: Node, pattern: string) {
    forall x :: x != [] ==> !HitAt(n, x, pattern)
  }

  /** Reference definition of a recursive search: the paths, relative to
      `n`, of every file at any depth below `n` whose text contains the pattern. */
  function MatchingFiles(n: Node, pattern: string): set<seq<string>> {
    set x | x in Descendants(n) && HitAt(n, x, pattern)
  }

  /** The same, counting `n` itself as the empty path. */
  function RelHits(n: Node, pattern: string): set<seq<string>> {
    (if IsHit(n, pattern) then {[]} else {}) + MatchingFiles(n, pattern)
  }

  /** Reference definition of a flat search: the names of the files directly
      in `m` whose text contains the pattern. */
  function DirectHits(m: map<string, Node>, pattern: string): set<string> {
    set k | k in m && IsHit(m[k], pattern)
  }

  /** Every path of `s`, put below `r`. */
  function Under(r: seq<string>, s: set<seq<string>>): set<seq<string>> {
    set y | y in s :: r + y
  }

  /** The name a directory reports for itself: the root's name is empty. */
  function DirName(q: seq<string>): string {
    if q == [] then "" else Last(q)
  }

  // ---------------------------------------------------------------------
  // Facts about the reference definitions
  // ---------------------------------------------------------------------

  lemma UnderMember(r: seq<string>, s: set<seq<string>>, x: seq<string>)
    ensures x in Under(r, s) <==> r <= x && x[|r|..] in s
  {
    if r <= x {
      assert x == r + x[|r|..];
    }
  }

  /** A recursive hit is exactly a non-empty path to a matching file. */
  lemma MatchingIsHits(n: Node, pattern: string, x: seq<string>)
    ensures x in MatchingFiles(n, pattern) <==> x != [] && HitAt(n, x, pattern)
  {
    DescendantsAreLookups(n, x);
  }

  lemma RelHitsMember(n: Node, pattern: string, y: seq<string>)
    ensures y in RelHits(n, pattern) <==> HitAt(n, y, pattern)
  {
    MatchingIsHits(n, pattern, y);
  }

  /** The hits below a directory split into those below one entry and those
      below the others. */
  lemma TakeHits(m: map<string, Node>, k: string, pattern: string, path: seq<string>)
    requires k in m
    ensures Under(path, MatchingFiles(Dir(m), pattern)) ==
              Under(path, MatchingFiles(Dir(m - {k}), pattern)) + Under(path + [k], RelHits(m[k], pattern))
  {
    forall x
      ensures x in Under(path, MatchingFiles(Dir(m), pattern)) <==>
              x in Under(path, MatchingFiles(Dir(m - {k}), pattern)) + Under(path + [k], RelHits(m[k], pattern))
    {
      UnderMember(path, MatchingFiles(Dir(m), pattern), x);
      UnderMember(path, MatchingFiles(Dir(m - {k}), pattern), x);
      UnderMember(path + [k], RelHits(m[k], pattern), x);
      if path <= x {
        var y := x[|path|..];
        MatchingIsHits(Dir(m), pattern, y);
        MatchingIsHits(Dir(m - {k}), pattern, y);
        if y != [] && y[0] in m {
          RelHitsMember(m[y[0]], pattern, y[1..]);
          assert x[|path| + 1..] == y[1..];
          assert path + [k] <= x <==> y[0] == k;
        }
      }
    }
  }

  /** What one entry adds to a recursive search: itself when it is a
      matching file, the hits below it when it is a directory. */
  lemma EntryHits(c: Node, pattern: string, at: seq<string>)
    ensures c.File? && IsHit(c, pattern) ==> Under(at, RelHits(c, pattern)) == {at}
    ensures c.File? && !IsHit(c, pattern) ==> Under(at, RelHits(c, pattern)) == {}
    ensures c.Dir? ==> Under(at, RelHits(c, pattern)) == Under(at, MatchingFiles(c, pattern))
  {
    if c.File? {
      assert Descendants(c) == {};
      assert at + [] == at;
    }
  }

  /** One entry of the search loop: its hits join those already found. */
  lemma DfsStep(n: Node, rest: map<string, Node>, k: string, pattern: string, path: seq<string>,
                found: set<seq<string>>, found': set<seq<string>>)
    requires k in rest
    requires found + Under(path, MatchingFiles(Dir(rest), pattern)) == Under(path, MatchingFiles(n, pattern))
    requires found' == found + Under(path + [k], RelHits(rest[k], pattern))
    ensures found' + Under(path, MatchingFiles(Dir(rest - {k}), pattern)) == Under(path, MatchingFiles(n, pattern))
  {
    TakeHits(rest, k, pattern, path);
  }

  /** One entry of the flat search loop: a matching file joins the names found. */
  lemma FlatStep(rest: map<string, Node>, k: string, pattern: string, found: set<string>, found': set<string>, all: set<string>)
    requires k in rest && found + DirectHits(rest, pattern) == all
    requires found' == if IsHit(rest[k], pattern) then found + {k} else found
    ensures found' + DirectHits(rest - {k}, pattern) == all
  {
    assert DirectHits(rest, pattern) == DirectHits(rest - {k}, pattern) + (if IsHit(rest[k], pattern) then {k} else {});
  }

  /** A flat search finds exactly the recursive hits one level down. */
  lemma FlatHitsAreShallow(m: map<string, Node>, pattern: string, k: string)
    ensures k in DirectHits(m, pattern) <==> [k] in MatchingFiles(Dir(m), pattern)
  {
    MatchingIsHits(Dir(m), pattern, [k]);
    assert [k][1..] == [];
    assert Lookup(Dir(m), [k]) == if k in m then Some(m[k]) else None;
  }

  // ---------------------------------------------------------------------
  // The two searches
  // ---------------------------------------------------------------------

  /** The test grep applies to an entry: a file is searched with the KMP
      test, a directory never matches. */
  method Test(child: Node, pattern: string) returns (found: bool)
    requires |pattern| > 0
    ensures found <==> IsHit(child, pattern)
  {
    found := false;
    if child.File? {
      found := Solve(child.content, pattern);
    }
  }

  /** The flat branch of grep: every entry that is a file is searched with
      the KMP test. */
  method GrepFlat(m: map<string, Node>, pattern: string) returns (names: set<string>)
    requires |pattern| > 0
    ensures names == DirectHits(m, pattern)
  {
    names := {};
    var rest := m;
    while rest != map[]
      invariant names + DirectHits(rest, pattern) == DirectHits(m, pattern)
      decreases |rest.Keys|
    {
      var k :| k in rest;
      var found := Test(rest[k], pattern);
      FlatStep(rest, k, pattern, names, if found then names + {k} else names, DirectHits(m, pattern));
      if found {
        names := names + {k};
      }
      assert (rest - {k}).Keys == rest.Keys - {k};
      rest := rest - {k};
    }
    assert DirectHits(rest, pattern) == {};
  }

  /** FileSystemManager::dfsAndGrep: `path` holds the names of the directories
      from the searched one down to `n`; every entry of `n` is visited. */
  method DfsGrep(n: Node, path: seq<string>, pattern: string) returns (res: set<seq<string>>)
    requires n.Dir? && |pattern| > 0
    ensures res == Under(path, MatchingFiles(n, pattern))
    decreases n, 1
  {
    res := {};
    var rest := n.children;
    while rest != map[]
      invariant forall k :: k in rest ==> k in n.children && rest[k] == n.children[k]
      invariant res + Under(path, MatchingFiles(Dir(rest), pattern)) == Under(path, MatchingFiles(n, pattern))
      decreases |rest.Keys|
    {
      var k :| k in rest;
      var hits := DfsEntry(rest[k], path + [k], pattern);
      DfsStep(n, rest, k, pattern, path, res, res + hits);
      res := res + hits;
      assert (rest - {k}).Keys == rest.Keys - {k};
      rest := rest - {k};
    }
    assert MatchingFiles(Dir(rest), pattern) == {};
  }

  /** One entry of dfsAndGrep's loop, found at `at`: a file is searched with
      the KMP test and reported when it matches; a directory is searched in turn. */
  method DfsEntry(child: Node, at: seq<string>, pattern: string) returns (hits: set<seq<string>>)
    requires |pattern| > 0
    ensures hits == Under(at, RelHits(child, pattern))
    decreases child, 2
  {
    EntryHits(child, pattern, at);
    if child.File? {
      var found := Test(child, pattern);
      hits := if found then {at} else {};
    } else {
      hits := DfsGrep(child, at, pattern);
    }
  }

  /** What grep reports for the directory at `q`: the flat hits as single
      names, or the recursive hits below the directory's own name; nothing
      at all when there is no hit. */
  function Expected(root: Node, q: seq<string>, pattern: string, recursive: bool): Option<set<seq<string>>>
    requires IsDirAt(root, q)
  {
    var hits := if recursive then Under([DirName(q)], MatchingFiles(Lookup(root, q).value, pattern))
                else set k | k in DirectHits(DirAt(root, q), pattern) :: [k];
    if hits == {} then None else Some(hits)
  }

  /** FileSystemManager::grep. */
  method Grep(fs: FileSystem, path: string, pattern: string, recursive: bool) returns (r: Result<Option<set<seq<string>>>>)
    requires Valid(fs) && |pattern| > 0
    ensures Navigate(fs.root, fs.cwd, path).Err? ==> r == Err(Navigate(fs.root, fs.cwd, path).error)
    ensures Navigate(fs.root, fs.cwd, path).Ok? ==>
              r == Ok(Expected(fs.root, Navigate(fs.root, fs.cwd, path).value, pattern, recursive))
  {
    var q :- Navigate(fs.root, fs.cwd, path);
    var hits;
    if !recursive {
      var names := GrepFlat(DirAt(fs.root, q), pattern);
      hits := set k | k in names :: [k];
    } else {
      hits := DfsGrep(Lookup(fs.root, q).value, [DirName(q)], pattern);
    }
    if hits == {} {
      return Ok(None);
    }
    return Ok(Some(hits));
  }

  // ---------------------------------------------------------------------
  // What a search reports
  // ---------------------------------------------------------------------

  /** A recursive hit is the searched directory's name followed by the path
      of a file below it whose text contains the pattern, and every such
      file is reported. */
  lemma RecursiveHits(root: Node, q: seq<string>, pattern: string, x: seq<string>)
    requires IsDirAt(root, q)
    ensures x in Under([DirName(q)], MatchingFiles(Lookup(root, q).value, pattern)) <==>
              |x| > 1 && x[0] == DirName(q) && HitAt(root, q + x[1..], pattern)
  {
    UnderMember([DirName(q)], MatchingFiles(Lookup(root, q).value, pattern), x);
    if |x| > 0 {
      MatchingIsHits(Lookup(root, q).value, pattern, x[1..]);
      LookupAppend(root, q, x[1..]);
    }
  }

  /** A flat hit is a single name, that of a matching file directly in the
      directory, and every such file is reported. */
  lemma FlatHits(root: Node, q: seq<string>, pattern: string, x: seq<string>)
    requires IsDirAt(root, q)
    ensures x in (set k | k in DirectHits(DirAt(root, q), pattern) :: [k]) <==>
              |x| == 1 && HitAt(root, q + x, pattern)
  {
    if |x| == 1 {
      assert x == [x[0]];
      LookupAppend(root, q, x);
    }
  }

  /** No recursive hit below a directory exactly when no file below it matches. */
  lemma NoHitBelow(n: Node, pattern: string, name: string)
    ensures Under([name], MatchingFiles(n, pattern)) == {} <==> NoFileMatches(n, pattern)
  {
    var hits := Under([name], MatchingFiles(n, pattern));
    if exists x :: x != [] && HitAt(n, x, pattern) {
      var x :| x != [] && HitAt(n, x, pattern);
      MatchingIsHits(n, pattern, x);
      UnderMember([name], MatchingFiles(n, pattern), [name] + x);
      assert ([name] + x)[1..] == x;
    }
    if hits != {} {
      var z :| z in hits;
      UnderMember([name], MatchingFiles(n, pattern), z);
      MatchingIsHits(n, pattern, z[1..]);
    }
  }

  /** grep reports nothing exactly when no file it looks at matches. */
  lemma NothingFound(root: Node, q: seq<string>, pattern: string, recursive: bool)
    requires IsDirAt(root, q)
    ensures recursive ==>
              (Expected(root, q, pattern, recursive).None? <==>
               NoFileMatches(Lookup(root, q).value, pattern))
    ensures !recursive ==>
              (Expected(root, q, pattern, recursive).None? <==>
               forall k :: k in DirAt(root, q) ==> !IsHit(DirAt(root, q)[k], pattern))
  {
    var m := DirAt(root, q);
    if recursive {
      NoHitBelow(Lookup(root, q).value, pattern, DirName(q));
    } else {
      var hits := set k | k in DirectHits(m, pattern) :: [k];
      if exists k :: k in m && IsHit(m[k], pattern) {
        var k :| k in m && IsHit(m[k], pattern);
        assert [k] in hits;
      }
      if hits != {} {
        var z :| z in hits;
        var k :| k in DirectHits(m, pattern) && z == [k];
        assert k in m && IsHit(m[k], pattern);
      }
      assert Expected(root, q, pattern, recursive) == if hits == {} then None else Some(hits);
    }
  }

  /** After `echo` into a file of the current directory, a flat search of the
      current directory for the message reports that file. */
  lemma WrittenIsGrepped(fs: FileSystem, name: string, message: string, append: bool)
    requires Valid(fs) && WriteToFile(fs, name, message, append).Ok?
    ensures var fs' := WriteToFile(fs, name, message, append).value;
            var found := Expected(fs'.root, fs'.cwd, message, false);
            found.Some? && [name] in found.value
  {
    var fs' := WriteToFile(fs, name, message, append).value;
    FileNode.WrittenIsFound(TextOf(fs, name), message, append);
    assert CwdEntries(fs')[name] == File(FileNode.Write(TextOf(fs, name), message, append));
    assert IsHit(CwdEntries(fs')[name], message);
    assert name in DirectHits(CwdEntries(fs'), message);
    var hits := set k | k in DirectHits(DirAt(fs'.root, fs'.cwd), message) :: [k];
    assert [name] in hits;
    assert Expected(fs'.root, fs'.cwd, message, false) == Some(hits);
  }
}
