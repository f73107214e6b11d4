/**
 * The JSON export of a directory (FileSystemManager::convertToJson and
 * directoryToJson): a directory becomes an object keyed by its entries'
 * names, a file becomes the string of its text. The JSON library's value
 * starts out null and only turns into an object when a first key is
 * stored, so an empty directory exports as null.
 */
module Export {
  import opened Errors
  import opened Tree
  import opened Manager

  /** The JSON values the export produces. */
  datatype Json = JNull | JString(s: string) | JObject(members: map<string, Json>)

  /** directoryToJson, extended to files so that the recursion is uniform:
      the value an entry is stored as. */
  function ToJson(n: Node): (j: Json)
    ensures n.File? <==> j.JString?
    ensures n.File? ==> j.s == n.content
    ensures n.Dir? && n.children == map[] <==> j.JNull?
    ensures j.JObject? ==> j.members.Keys == n.children.Keys && j.members != map[]
  {
    match n
    case File(c) => JString(c)
    case Dir(m) =>
      if m == map[] then JNull
      else
        var members := map k | k in m :: ToJson(m[k]);
        assert members.Keys == m.Keys;
        JObject(members)
  }

  /** The reading a JSON value back as a tree: a string is a file, null an
      empty directory, an object a directory of its members. */
  function FromJson(j: Json): (n: Node)
    ensures j.JString? <==> n.File?
    ensures j.JObject? ==> n.children.Keys == j.members.Keys
  {
    match j
    case JString(s) => File(s)
    case JNull => Dir(map[])
    case JObject(members) => Dir(map k | k in members :: FromJson(members[k]))
  }

  /** A value the export can produce: no object is empty, since an empty
      directory is null. */
  predicate Exported(j: Json) {
    match j
    case JString(_) => true
    case JNull => true
    case JObject(members) => members != map[] && forall k :: k in members ==> Exported(members[k])
  }

  /** Reading an export back gives the tree that was exported. */
  lemma {:induction false} ExportThenRead(n: Node)
    ensures FromJson(ToJson(n)) == n
  {
    match n
    case File(_) =>
    case Dir(m) =>
      if m != map[] {
        forall k | k in m
          ensures FromJson(ToJson(m[k])) == m[k]
        {
          ExportThenRead(m[k]);
        }
        var back := FromJson(ToJson(n)).children;
        assert back.Keys == m.Keys;
        assert forall k :: k in m ==> back[k] == m[k];
      }
  }

  /** Every export is of the shape the export can produce, and exporting what
      was read from such a value gives it back. */
  lemma {:induction false} ExportIsExported(n: Node)
    ensures Exported(ToJson(n))
  {
    match n
    case File(_) =>
    case Dir(m) =>
      forall k | k in m
        ensures Exported(ToJson(m[k]))
      {
        ExportIsExported(m[k]);
      }
  }

  lemma {:induction false} ReadThenExport(j: Json)
    requires Exported(j)
    ensures ToJson(FromJson(j)) == j
  {
    match j
    case JString(_) =>
    case JNull =>
    case JObject(members) =>
      forall k | k in members
        ensures ToJson(FromJson(members[k])) == members[k]
      {
        ReadThenExport(members[k]);
      }
      var again := ToJson(FromJson(j)).members;
      assert again.Keys == members.Keys;
      assert forall k :: k in members ==> again[k] == members[k];
  }

  /** Two trees export to the same value only when they are the same tree. */
  lemma ExportIsInjective(a: Node, b: Node)
    ensures ToJson(a) == ToJson(b) <==> a == b
  {
    ExportThenRead(a);
    ExportThenRead(b);
  }

  /** FileSystemManager::convertToJson: the directory a path names, as JSON. */
  function ConvertToJson(fs: FileSystem, path: string): (r: Result<Json>)
    requires Valid(fs)
    ensures Navigate(fs.root, fs.cwd, path).Err? ==> r == Err(Navigate(fs.root, fs.cwd, path).error)
    ensures Navigate(fs.root, fs.cwd, path).Ok? ==> r.Ok?
    ensures r.Ok? ==> !r.value.JString? && Exported(r.value)
    ensures r.Ok? ==> FromJson(r.value) == Lookup(fs.root, Navigate(fs.root, fs.cwd, path).value).value
  {
    var q :- Navigate(fs.root, fs.cwd, path);
    var d := Lookup(fs.root, q).value;
    ExportIsExported(d);
    ExportThenRead(d);
    Ok(ToJson(d))
  }
}
