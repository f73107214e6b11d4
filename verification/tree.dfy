/**
 * The directory tree as a value. A node is either a file holding its text
 * or a directory holding a name-keyed map of children (the
 * FileSystemNode / File / Directory classes, with the child's name being
 * its key). A node is addressed by the sequence of names leading to it from
 * a given directory; the root's own name is the empty string.
 *
 * This module holds the path-level machinery every operation shares:
 * looking a path up, replacing the node at a path, the set of descendants,
 * and the naming invariant directories keep.
 */
module Tree {
  import opened Errors

  datatype Node = File(content: string) | Dir(children: map<string, Node>)

  /** A name `Directory::mkdir` accepts: non-empty, not starting with '.', no '/'. */
  predicate ValidName(name: string) {
    name != "" && name[0] != '.' && '/' !in name
  }

  /** Every directory below `n` carries a valid name. File names are never checked. */
  predicate WellNamed(n: Node) {
    match n
    case File(_) => true
    case Dir(m) => forall k :: k in m ==> (m[k].Dir? ==> ValidName(k)) && WellNamed(m[k])
  }

  /** The node reached from `n` by following the names of `p`. */
  function Lookup(n: Node, p: seq<string>): Option<Node>
    decreases |p|
  {
    if p == [] then Some(n)
    else match n
      case File(_) => None
      case Dir(m) => if p[0] in m then Lookup(m[p[0]], p[1..]) else None
  }

  predicate IsDirAt(n: Node, p: seq<string>) {
    Lookup(n, p).Some? && Lookup(n, p).value.Dir?
  }

  predicate IsFileAt(n: Node, p: seq<string>) {
    Lookup(n, p).Some? && Lookup(n, p).value.File?
  }

  /** The children of the directory at `p`. */
  function DirAt(n: Node, p: seq<string>): map<string, Node>
    requires IsDirAt(n, p)
  {
    Lookup(n, p).value.children
  }

  /** `n` with the node at `p` replaced by `d`; nothing off that path changes. */
  function Replace(n: Node, p: seq<string>, d: Node): Node
    requires Lookup(n, p).Some?
    decreases |p|
  {
    if p == [] then d
    else Dir(n.children[p[0] := Replace(n.children[p[0]], p[1..], d)])
  }

  /** `n` with `c` stored under `name` in the directory at `q` (any entry of that name is replaced). */
  function PutChild(n: Node, q: seq<string>, name: string, c: Node): Node
    requires IsDirAt(n, q)
  {
    Replace(n, q, Dir(DirAt(n, q)[name := c]))
  }

  /** `n` with the entry `name` erased from the directory at `q`. */
  function RemoveChild(n: Node, q: seq<string>, name: string): Node
    requires IsDirAt(n, q)
  {
    Replace(n, q, Dir(DirAt(n, q) - {name}))
  }

  /** The paths, relative to `n`, of every node strictly below `n`. */
  function Descendants(n: Node): set<seq<string>> {
    match n
    case File(_) => {}
    case Dir(m) => set k, y | k in m && y in {[]} + Descendants(m[k]) :: [k] + y
  }

  /** The paths of `c` and of everything below it, once `c` sits at path `r`. */
  function Graft(r: seq<string>, c: Node): set<seq<string>> {
    set y | y in {[]} + Descendants(c) :: r + y
  }

  // ---------------------------------------------------------------------
  // Lookup along composed paths.
  // ---------------------------------------------------------------------

  lemma {:induction false} LookupAppend(n: Node, a: seq<string>, b: seq<string>)
    requires Lookup(n, a).Some?
    ensures Lookup(n, a + b) == Lookup(Lookup(n, a).value, b)
    decreases |a|
  {
    if a != [] {
      assert (a + b)[0] == a[0] && (a + b)[1..] == a[1..] + b;
      LookupAppend(n.children[a[0]], a[1..], b);
    } else {
      assert a + b == b;
    }
  }

  /** Everything on the way to an existing node exists, and is a directory. */
  lemma PrefixIsDir(n: Node, a: seq<string>, b: seq<string>)
    requires Lookup(n, a + b).Some? && b != []
    ensures IsDirAt(n, a)
  {
    if Lookup(n, a).None? {
      NoneExtends(n, a, b);
    } else {
      LookupAppend(n, a, b);
    }
  }

  lemma {:induction false} NoneExtends(n: Node, a: seq<string>, b: seq<string>)
    requires Lookup(n, a).None?
    ensures Lookup(n, a + b).None?
    decreases |a|
  {
    assert a != [];
    assert (a + b)[0] == a[0] && (a + b)[1..] == a[1..] + b;
    if n.Dir? && a[0] in n.children {
      NoneExtends(n.children[a[0]], a[1..], b);
    }
  }

  /** The node at a path that only extends `p` is found inside the replacement;
      a path that branches away from `p` sees the old tree; the directories on
      the way to `p` keep their names. */
  lemma {:induction false} LookupReplace(n: Node, p: seq<string>, d: Node, x: seq<string>)
    requires Lookup(n, p).Some?
    ensures p <= x ==> Lookup(Replace(n, p, d), x) == Lookup(d, x[|p|..])
    ensures !(p <= x) && !(x <= p) ==> Lookup(Replace(n, p, d), x) == Lookup(n, x)
    ensures x <= p && x != p ==>
              IsDirAt(n, x) && IsDirAt(Replace(n, p, d), x) && DirAt(Replace(n, p, d), x).Keys == DirAt(n, x).Keys
    decreases |p|
  {
    if p == [] {
      assert x[|p|..] == x;
    } else {
      var m := n.children;
      var r := Replace(n, p, d);
      if x == [] {
        assert r.children.Keys == m.Keys;
      } else if x[0] == p[0] {
        LookupReplace(m[p[0]], p[1..], d, x[1..]);
        assert p <= x <==> p[1..] <= x[1..];
        assert x <= p <==> x[1..] <= p[1..];
        if p <= x {
          assert x[|p|..] == x[1..][|p[1..]|..];
        }
      } else {
        assert !(p <= x) && !(x <= p);
      }
    }
  }

  /** `a` and `b` agree at every path that neither leads to `p` nor passes through it. */
  ghost predicate SameOff(a: Node, b: Node, p: seq<string>) {
    forall x :: !(x <= p) && !(p <= x) ==> Lookup(a, x) == Lookup(b, x)
  }

  /** Replacing the node at `p` puts `d` there and leaves every path off `p` alone. */
  lemma ReplaceFacts(n: Node, p: seq<string>, d: Node)
    requires Lookup(n, p).Some?
    ensures Lookup(Replace(n, p, d), p) == Some(d)
    ensures SameOff(Replace(n, p, d), n, p)
  {
    LookupReplace(n, p, d, p);
    assert p[|p|..] == [];
    forall x | !(x <= p) && !(p <= x)
      ensures Lookup(Replace(n, p, d), x) == Lookup(n, x)
    {
      LookupReplace(n, p, d, x);
    }
  }

  /** A second replacement at the same path overrides the first. */
  lemma {:induction false} ReplaceTwice(n: Node, p: seq<string>, d1: Node, d2: Node)
    requires Lookup(n, p).Some?
    ensures Lookup(Replace(n, p, d1), p).Some?
    ensures Replace(Replace(n, p, d1), p, d2) == Replace(n, p, d2)
    decreases |p|
  {
    LookupReplace(n, p, d1, p);
    assert p[|p|..] == [];
    if p != [] {
      ReplaceTwice(n.children[p[0]], p[1..], d1, d2);
    }
  }

  /** Putting back the node already at `p` changes nothing. */
  lemma {:induction false} ReplaceSame(n: Node, p: seq<string>)
    requires Lookup(n, p).Some?
    ensures Replace(n, p, Lookup(n, p).value) == n
    decreases |p|
  {
    if p != [] {
      ReplaceSame(n.children[p[0]], p[1..]);
    }
  }

  // ---------------------------------------------------------------------
  // Descendants.
  // ---------------------------------------------------------------------

  /** A path names a descendant exactly when it is non-empty and leads somewhere. */
  lemma {:induction false} DescendantsAreLookups(n: Node, x: seq<string>)
    ensures x in Descendants(n) <==> x != [] && Lookup(n, x).Some?
    decreases |x|
  {
    if x != [] && n.Dir? {
      var m := n.children;
      assert x == [x[0]] + x[1..];
      if x[0] in m {
        DescendantsAreLookups(m[x[0]], x[1..]);
        if x[1..] != [] && Lookup(m[x[0]], x[1..]).Some? {
          assert x[1..] in Descendants(m[x[0]]);
        }
      }
      if x in Descendants(n) {
        var k, y :| k in m && y in {[]} + Descendants(m[k]) && x == [k] + y;
        assert k == x[0] && y == x[1..];
      }
    }
  }

  lemma GraftMembers(r: seq<string>, c: Node, x: seq<string>)
    ensures x in Graft(r, c) <==> r <= x && Lookup(c, x[|r|..]).Some?
  {
    if r <= x {
      var y := x[|r|..];
      assert x == r + y;
      DescendantsAreLookups(c, y);
      if Lookup(c, y).Some? {
        assert y in {[]} + Descendants(c);
      }
    }
    if x in Graft(r, c) {
      var y :| y in {[]} + Descendants(c) && x == r + y;
      assert x[|r|..] == y;
      DescendantsAreLookups(c, y);
    }
  }

  lemma {:induction false} PrefixCard(r: seq<string>, s: set<seq<string>>)
    ensures |set y | y in s :: r + y| == |s|
    decreases |s|
  {
    if s != {} {
      var y0 :| y0 in s;
      var rest := s - {y0};
      PrefixCard(r, rest);
      var img := set y | y in s :: r + y;
      var imgRest := set y | y in rest :: r + y;
      assert img == imgRest + {r + y0};
      forall y | y in rest
        ensures r + y != r + y0
      {
        assert (r + y)[|r|..] == y && (r + y0)[|r|..] == y0;
      }
      assert r + y0 !in imgRest;
    } else {
      assert (set y | y in s :: r + y) == {};
    }
  }

  /** A grafted subtree brings itself and each of its descendants, once each. */
  lemma GraftCard(r: seq<string>, c: Node)
    ensures |Graft(r, c)| == 1 + |Descendants(c)|
  {
    PrefixCard(r, {[]} + Descendants(c));
    assert [] !in Descendants(c) by {
      DescendantsAreLookups(c, []);
    }
  }

  /** How a path below the directory at `q` splits into the entry it enters
      and what follows inside that entry. */
  lemma SplitBelow(n: Node, q: seq<string>, x: seq<string>)
    requires IsDirAt(n, q) && q <= x
    ensures x == q + x[|q|..]
    ensures Lookup(n, x) == Lookup(Dir(DirAt(n, q)), x[|q|..])
  {
    assert x == q + x[|q|..];
    LookupAppend(n, q, x[|q|..]);
  }

  /** Storing `c` under a fresh name adds exactly its graft to the descendants. */
  lemma DescendantsPutChild(n: Node, q: seq<string>, name: string, c: Node)
    requires IsDirAt(n, q) && name !in DirAt(n, q)
    ensures Descendants(PutChild(n, q, name, c)) == Descendants(n) + Graft(q + [name], c)
    ensures Descendants(n) !! Graft(q + [name], c)
  {
    var r := q + [name];
    var n' := PutChild(n, q, name, c);
    var d := Dir(DirAt(n, q)[name := c]);
    forall x
      ensures x in Descendants(n') <==> x in Descendants(n) || x in Graft(r, c)
      ensures !(x in Descendants(n) && x in Graft(r, c))
    {
      DescendantsAreLookups(n', x);
      DescendantsAreLookups(n, x);
      GraftMembers(r, c, x);
      LookupReplace(n, q, d, x);
      if q <= x {
        SplitBelow(n, q, x);
        var y := x[|q|..];
        if y != [] && y[0] == name {
          assert r <= x && x[|r|..] == y[1..];
        } else {
          assert !(r <= x);
        }
      } else {
        assert !(r <= x);
      }
    }
  }

  /** Erasing an entry removes exactly its graft from the descendants. */
  lemma DescendantsRemoveChild(n: Node, q: seq<string>, name: string)
    requires IsDirAt(n, q) && name in DirAt(n, q)
    ensures Graft(q + [name], DirAt(n, q)[name]) <= Descendants(n)
    ensures Descendants(RemoveChild(n, q, name)) == Descendants(n) - Graft(q + [name], DirAt(n, q)[name])
  {
    var r := q + [name];
    var c := DirAt(n, q)[name];
    var n' := RemoveChild(n, q, name);
    var d := Dir(DirAt(n, q) - {name});
    forall x
      ensures x in Graft(r, c) ==> x in Descendants(n)
      ensures x in Descendants(n') <==> x in Descendants(n) && x !in Graft(r, c)
    {
      DescendantsAreLookups(n', x);
      DescendantsAreLookups(n, x);
      GraftMembers(r, c, x);
      LookupReplace(n, q, d, x);
      if q <= x {
        SplitBelow(n, q, x);
        var y := x[|q|..];
        if y != [] && y[0] == name {
          assert r <= x && x[|r|..] == y[1..];
        } else {
          assert !(r <= x);
        }
      } else {
        assert !(r <= x);
      }
    }
  }

  // ---------------------------------------------------------------------
  // Single steps, ancestors and subtrees.
  // ---------------------------------------------------------------------

  /** One step down from the directory at `at`. */
  lemma StepLookup(n: Node, at: seq<string>, names: seq<string>)
    requires IsDirAt(n, at) && names != []
    ensures Lookup(n, at + names) ==
              if names[0] in DirAt(n, at) then Lookup(DirAt(n, at)[names[0]], names[1..]) else None
  {
    LookupAppend(n, at, names);
  }

  /** Every ancestor of a directory is a directory. */
  lemma AncestorIsDir(n: Node, p: seq<string>, a: seq<string>)
    requires IsDirAt(n, p) && a <= p
    ensures IsDirAt(n, a)
  {
    if a != p {
      assert p == a + p[|a|..];
      PrefixIsDir(n, a, p[|a|..]);
    }
  }

  /** What sits below a path of a well-named tree is well named. */
  lemma {:induction false} WellNamedSubtree(n: Node, p: seq<string>)
    requires WellNamed(n) && Lookup(n, p).Some?
    ensures WellNamed(Lookup(n, p).value)
    decreases |p|
  {
    if p != [] {
      WellNamedSubtree(n.children[p[0]], p[1..]);
    }
  }

  /** Where `PutChild` changes the tree: at and below the new entry the tree
      is `c`; the directory it goes into gains the entry; off that path
      nothing changes, and the directories on the way stay directories. */
  lemma LookupPutChild(n: Node, q: seq<string>, name: string, c: Node, x: seq<string>)
    requires IsDirAt(n, q)
    ensures IsDirAt(PutChild(n, q, name, c), q) && DirAt(PutChild(n, q, name, c), q) == DirAt(n, q)[name := c]
    ensures q + [name] <= x ==> Lookup(PutChild(n, q, name, c), x) == Lookup(c, x[|q| + 1..])
    ensures !(q + [name] <= x) && !(x <= q) ==> Lookup(PutChild(n, q, name, c), x) == Lookup(n, x)
    ensures x <= q ==> IsDirAt(PutChild(n, q, name, c), x) && IsDirAt(n, x)
  {
    var d := Dir(DirAt(n, q)[name := c]);
    LookupReplace(n, q, d, x);
    LookupReplace(n, q, d, q);
    assert q[|q|..] == [];
    if x <= q {
      AncestorIsDir(n, q, x);
    } else if q <= x {
      SplitBelow(n, q, x);
      var y := x[|q|..];
      assert y != [];
      if y[0] == name {
        assert q + [name] <= x && x[|q| + 1..] == y[1..];
      } else {
        assert !(q + [name] <= x);
      }
    } else {
      assert !(q + [name] <= x);
    }
  }

  /** Where `RemoveChild` changes the tree: nothing is left at or below the
      erased entry; off that path nothing changes. */
  lemma LookupRemoveChild(n: Node, q: seq<string>, name: string, x: seq<string>)
    requires IsDirAt(n, q)
    ensures IsDirAt(RemoveChild(n, q, name), q) && DirAt(RemoveChild(n, q, name), q) == DirAt(n, q) - {name}
    ensures q + [name] <= x ==> Lookup(RemoveChild(n, q, name), x).None?
    ensures !(q + [name] <= x) && !(x <= q) ==> Lookup(RemoveChild(n, q, name), x) == Lookup(n, x)
    ensures x <= q ==> IsDirAt(RemoveChild(n, q, name), x) && IsDirAt(n, x)
  {
    var d := Dir(DirAt(n, q) - {name});
    LookupReplace(n, q, d, x);
    LookupReplace(n, q, d, q);
    assert q[|q|..] == [];
    if x <= q {
      AncestorIsDir(n, q, x);
    } else if q <= x {
      SplitBelow(n, q, x);
      var y := x[|q|..];
      assert y != [];
      if y[0] == name {
        assert q + [name] <= x;
      } else {
        assert !(q + [name] <= x);
      }
    } else {
      assert !(q + [name] <= x);
    }
  }

  // ---------------------------------------------------------------------
  // The naming invariant under replacement.
  // ---------------------------------------------------------------------

  /** Replacing a directory by a well-named directory keeps the whole tree well named. */
  lemma {:induction false} ReplaceKeepsWellNamed(n: Node, p: seq<string>, d: Node)
    requires WellNamed(n) && IsDirAt(n, p) && d.Dir? && WellNamed(d)
    ensures WellNamed(Replace(n, p, d))
    ensures Replace(n, p, d).Dir?
    decreases |p|
  {
    if p != [] {
      var m := n.children;
      var child := m[p[0]];
      assert Lookup(n, p) == Lookup(child, p[1..]);
      assert child.Dir? by {
        if p[1..] != [] {
          assert [] + p[1..] == p[1..];
          PrefixIsDir(child, [], p[1..]);
        }
      }
      ReplaceKeepsWellNamed(child, p[1..], d);
    }
  }

  /** A path that leads to a directory passes through valid names only. */
  lemma {:induction false} DirPathIsValid(n: Node, p: seq<string>)
    requires WellNamed(n) && IsDirAt(n, p)
    ensures forall i :: 0 <= i < |p| ==> ValidName(p[i])
    decreases |p|
  {
    if p != [] {
      var child := n.children[p[0]];
      assert Lookup(n, p) == Lookup(child, p[1..]);
      assert child.Dir? by {
        if p[1..] != [] {
          assert [] + p[1..] == p[1..];
          PrefixIsDir(child, [], p[1..]);
        }
      }
      DirPathIsValid(child, p[1..]);
      assert forall i :: 1 <= i < |p| ==> p[i] == p[1..][i - 1];
    }
  }

  /** No directory lies on the far side of an invalid name. */
  lemma InvalidNameBlocksDirs(n: Node, p: seq<string>, i: int)
    requires WellNamed(n) && 0 <= i < |p| && !ValidName(p[i])
    ensures !IsDirAt(n, p)
  {
    if IsDirAt(n, p) {
      DirPathIsValid(n, p);
    }
  }

  /** Nothing lies below a file, and a file is not a directory. */
  lemma FileIsLeaf(n: Node, a: seq<string>, x: seq<string>)
    requires IsFileAt(n, a)
    ensures a <= x ==> !IsDirAt(n, x)
  {
    if a <= x {
      assert x == a + x[|a|..];
      LookupAppend(n, a, x[|a|..]);
    }
  }

  /** Nothing lies at or below a name a directory does not hold. */
  lemma AbsentBlocks(n: Node, q: seq<string>, name: string, x: seq<string>)
    requires IsDirAt(n, q) && name !in DirAt(n, q)
    ensures q + [name] <= x ==> Lookup(n, x).None?
  {
    if q + [name] <= x {
      assert x == q + x[|q|..] && x[|q|..][0] == name;
      StepLookup(n, q, x[|q|..]);
    }
  }

  /** Erasing an entry leaves the entries of every other directory off its path as they were. */
  lemma RemoveChildKeys(n: Node, q: seq<string>, name: string, x: seq<string>)
    requires IsDirAt(n, q) && IsDirAt(n, x) && !(q + [name] <= x) && x != q
    ensures IsDirAt(RemoveChild(n, q, name), x)
    ensures DirAt(RemoveChild(n, q, name), x).Keys == DirAt(n, x).Keys
  {
    var d := Dir(DirAt(n, q) - {name});
    LookupReplace(n, q, d, x);
    LookupRemoveChild(n, q, name, x);
  }

  /** Storing an entry leaves the entries of every other directory off its path as they were. */
  lemma PutChildKeys(n: Node, q: seq<string>, name: string, c: Node, x: seq<string>)
    requires IsDirAt(n, q) && IsDirAt(n, x) && !(q + [name] <= x) && x != q
    ensures IsDirAt(PutChild(n, q, name, c), x)
    ensures DirAt(PutChild(n, q, name, c), x).Keys == DirAt(n, x).Keys
  {
    var d := Dir(DirAt(n, q)[name := c]);
    LookupReplace(n, q, d, x);
    LookupPutChild(n, q, name, c, x);
  }

  /** Erasing an entry that was just stored under a fresh name restores the tree. */
  lemma RemovePutCancel(n: Node, q: seq<string>, name: string, c: Node)
    requires IsDirAt(n, q) && name !in DirAt(n, q)
    ensures IsDirAt(PutChild(n, q, name, c), q)
    ensures RemoveChild(PutChild(n, q, name, c), q, name) == n
  {
    var m := DirAt(n, q);
    LookupPutChild(n, q, name, c, q);
    assert m[name := c] - {name} == m;
    ReplaceTwice(n, q, Dir(m[name := c]), Dir(m));
    ReplaceSame(n, q);
  }

  /** Storing back the entry that was just erased restores the tree. */
  lemma PutRemoveCancel(n: Node, q: seq<string>, name: string)
    requires IsDirAt(n, q) && name in DirAt(n, q)
    ensures IsDirAt(RemoveChild(n, q, name), q)
    ensures PutChild(RemoveChild(n, q, name), q, name, DirAt(n, q)[name]) == n
  {
    var m := DirAt(n, q);
    LookupRemoveChild(n, q, name, q);
    assert (m - {name})[name := m[name]] == m;
    ReplaceTwice(n, q, Dir(m - {name}), Dir(m));
    ReplaceSame(n, q);
  }
}
