/** Resolving paths such as folder/../folder/folder2/.. and keeping the full path of the directory reached
    (filesystem_resolveDirPath and filesystem_resolveFilePath). */
module PathResolver {
  import opened DirTree
  import opened Allocation

  datatype Resolved = NotFound | Found(id: DirId)

  /** The segments between slashes, empty ones included; the resolver skips those. */
  function Split(path: string): (r: seq<string>)
    ensures r != []
  {
    if path == "" then [""] else WithFirst(path[0], Split(path[1..]))
  }

  /** The segments when the path has one more character in front. */
  function WithFirst(c: char, names: seq<string>): (r: seq<string>)
    requires names != []
    ensures r != []
  {
    if c == '/' then [""] + names else [[c] + names[0]] + names[1..]
  }

  predicate GoodName(name: string) {
    name != "" && name != "." && name != ".." && '/' !in name
  }

  /** A tree whose names are proper and unique in their directory. */
  ghost predicate NamedTree(dirs: Dirs, depth: map<DirId, nat>) {
    && Ranked(dirs, depth)
    && (forall x :: x in dirs ==> GoodName(dirs[x].name))
    && forall x, y :: x in dirs && y in dirs && dirs[x] == dirs[y] ==> x == y
  }

  ghost function Child(dirs: Dirs, name: string, parent: DirId): (r: Resolved)
    ensures r.Found? ==> r.id in dirs && dirs[r.id] == Dir(name, parent)
  {
    if exists x :: x in dirs && dirs[x] == Dir(name, parent) then
      var x :| x in dirs && dirs[x] == Dir(name, parent);
      Found(x)
    else NotFound
  }

  /** One step of a walk in the tree; the parent of the root is the root. */
  ghost function Step(dirs: Dirs, cur: DirId, name: string): Resolved {
    if name == "" || name == "." then Found(cur)
    else if name == ".." then Found(if cur in dirs then dirs[cur].parentId else cur)
    else Child(dirs, name, cur)
  }

  ghost function Walk(dirs: Dirs, cur: DirId, names: seq<string>): Resolved
    decreases |names|
  {
    if names == [] then Found(cur)
    else match Step(dirs, cur, names[0])
      case NotFound => NotFound
      case Found(x) => Walk(dirs, x, names[1..])
  }

  /** The path the prompt shows for a directory. */
  ghost function FullPath(dirs: Dirs, depth: map<DirId, nat>, d: DirId): string
    requires Ranked(dirs, depth) && Known(dirs, d)
    decreases depth[d]
  {
    if d == ROOT then "/"
    else if dirs[d].parentId == ROOT then "/" + dirs[d].name
    else FullPath(dirs, depth, dirs[d].parentId) + "/" + dirs[d].name
  }

  method GetDirByNameInDir(dirs: Dirs, name: string, parent: DirId) returns (r: Resolved)
    requires forall x, y :: x in dirs && y in dirs && dirs[x] == dirs[y] ==> x == y
    ensures r == Child(dirs, name, parent)
  {
    if x :| x in dirs && dirs[x] == Dir(name, parent) {
      return Found(x);
    }
    return NotFound;
  }

  /** Where a path starts: at the root when it begins with a slash, otherwise in the given directory. */
  function Start(path: string, startingDir: DirId): DirId {
    if path != "" && path[0] == '/' then ROOT else startingDir
  }

  function Names(path: string): seq<string> {
    if path != "" && path[0] == '/' then Split(path[1..]) else Split(path)
  }

  lemma PathOfRoot(dirs: Dirs, depth: map<DirId, nat>)
    requires Ranked(dirs, depth)
    ensures Known(dirs, ROOT) && ROOT !in dirs && FullPath(dirs, depth, ROOT) == "/"
  {
  }

  /** Cutting the last name and its slash off leads to the parent, but for the slash of the root. */
  lemma PathOfParent(dirs: Dirs, depth: map<DirId, nat>, d: DirId)
    requires Ranked(dirs, depth) && d in dirs && d != ROOT
    ensures var parent := dirs[d].parentId;
      && Known(dirs, parent) && |FullPath(dirs, depth, d)| >= |dirs[d].name| + 1
      && FullPath(dirs, depth, parent) ==
        FullPath(dirs, depth, d)[..|FullPath(dirs, depth, d)| - |dirs[d].name| - 1] + if parent == ROOT then "/" else ""
  {
  }

  lemma PathOfChild(dirs: Dirs, depth: map<DirId, nat>, d: DirId)
    requires Ranked(dirs, depth) && d in dirs
    ensures d != ROOT && Known(dirs, d) && Known(dirs, dirs[d].parentId)
    ensures FullPath(dirs, depth, d) ==
      FullPath(dirs, depth, dirs[d].parentId) + (if dirs[d].parentId != ROOT then "/" else "") + dirs[d].name
  {
  }

  lemma WalkStep(dirs: Dirs, cur: DirId, names: seq<string>, i: nat)
    requires i < |names|
    ensures Walk(dirs, cur, names[i..]) == match Step(dirs, cur, names[i])
      case NotFound => NotFound
      case Found(x) => Walk(dirs, x, names[i + 1..])
  {
    assert names[i..][1..] == names[i + 1..];
  }

  lemma WalkEnd(dirs: Dirs, cur: DirId)
    ensures Walk(dirs, cur, []) == Found(cur)
  {
  }

  /** The full path is kept by cutting the last name off and by appending names, and is meaningful when a directory is
      found. */
  method ResolveDirPath(dirs: Dirs, path: string, startingDir: DirId, startingPath: string,
                        ghost depth: map<DirId, nat>)
    returns (r: Resolved, fullPath: string)
    requires NamedTree(dirs, depth)
    requires Known(dirs, startingDir) ==> startingPath == FullPath(dirs, depth, startingDir)
    ensures r == if Known(dirs, Start(path, startingDir)) then Walk(dirs, Start(path, startingDir), Names(path))
      else NotFound
    ensures r.Found? ==> Known(dirs, r.id) && fullPath == FullPath(dirs, depth, r.id)
    ensures path == ".." && startingDir in dirs ==> r == Found(dirs[startingDir].parentId)
    ensures path == ".." && startingDir == ROOT ==> r == Found(ROOT) && fullPath == "/"
    ensures GoodName(path) && Known(dirs, startingDir) ==>
      r == Child(dirs, path, startingDir)
  {
    hide FullPath, Walk, Split, Ranked;
    OneSegment(dirs, path, startingDir);
    PathOfRoot(dirs, depth);
    var names;
    var cur;
    if path != "" && path[0] == '/' {
      fullPath := "/";
      names := Split(path[1..]);
      cur := ROOT;
    } else {
      fullPath := startingPath;
      names := Split(path);
      if startingDir != ROOT && startingDir !in dirs {
        return NotFound, fullPath;
      }
      cur := startingDir;
    }
    var i := 0;
    assert names[0..] == names;
    while i < |names|
      invariant 0 <= i <= |names| && Known(dirs, cur)
      invariant Walk(dirs, cur, names[i..]) == Walk(dirs, Start(path, startingDir), Names(path))
      invariant fullPath == FullPath(dirs, depth, cur)
    {
      var name := names[i];
      WalkStep(dirs, cur, names, i);
      if name != "" {
        if name == ".." {
          if cur != ROOT {
            PathOfParent(dirs, depth, cur);
            fullPath := fullPath[..|fullPath| - |dirs[cur].name| - 1];
            cur := dirs[cur].parentId;
            if cur == ROOT {
              fullPath := fullPath + "/";
            }
          }
        } else if name == "." {
        } else {
          var next := GetDirByNameInDir(dirs, name, cur);
          if next.NotFound? {
            return NotFound, fullPath;
          }
          cur := next.id;
          PathOfChild(dirs, depth, cur);
          if dirs[cur].parentId != ROOT {
            fullPath := fullPath + "/";
          }
          fullPath := fullPath + dirs[cur].name;
        }
      }
      i := i + 1;
    }
    assert names[i..] == [];
    WalkEnd(dirs, cur);
    r := Found(cur);
  }

  /** A path without a slash is one step. */
  lemma OneSegment(dirs: Dirs, path: string, startingDir: DirId)
    ensures '/' !in path ==> Walk(dirs, Start(path, startingDir), Names(path)) == Step(dirs, startingDir, path)
  {
    if '/' !in path {
      SplitName(path);
      WalkOne(dirs, startingDir, path);
    }
  }

  lemma {:induction false} SplitName(name: string)
    requires '/' !in name
    ensures Split(name) == [name]
  {
    if name != "" {
      assert name == [name[0]] + name[1..];
      SplitName(name[1..]);
    }
  }

  lemma ConcatBehind(c: char, names: seq<string>, tail: seq<string>)
    requires names != []
    ensures WithFirst(c, names + tail) == WithFirst(c, names) + tail
  {
    assert (names + tail)[0] == names[0] && (names + tail)[1..] == names[1..] + tail;
    var x, y := if c == '/' then [""] else [[c] + names[0]], if c == '/' then names else names[1..];
    assert x + (y + tail) == x + y + tail;
  }

  /** Splitting at a slash between two parts splits both. */
  lemma {:induction false} SplitConcat(a: string, b: string)
    ensures Split(a + "/" + b) == Split(a) + Split(b)
  {
    var path := a + "/" + b;
    if a == "" {
      assert path[0] == '/' && path[1..] == b;
    } else {
      hide WithFirst;
      assert path[0] == a[0] && path[1..] == a[1..] + "/" + b;
      SplitConcat(a[1..], b);
      ConcatBehind(a[0], Split(a[1..]), Split(b));
    }
  }

  /** The segments with slashes between them. */
  function Slashed(names: seq<string>): string
    requires names != []
  {
    if |names| == 1 then names[0] else names[0] + "/" + Slashed(names[1..])
  }

  /** Splitting is what putting slashes between segments undoes, and no segment has one. */
  lemma {:induction false} SplitIsUndone(path: string)
    ensures Slashed(Split(path)) == path && forall s :: s in Split(path) ==> '/' !in s
  {
    if path != "" {
      SplitIsUndone(path[1..]);
      assert path == [path[0]] + path[1..];
      FirstSlashed(path[0], Split(path[1..]));
    }
  }

  lemma FirstSlashed(c: char, names: seq<string>)
    requires names != []
    ensures Slashed(WithFirst(c, names)) == [c] + Slashed(names)
  {
    var now := WithFirst(c, names);
    if c == '/' {
      assert now[0] == "" && now[1..] == names && "" + "/" + Slashed(names) == [c] + Slashed(names);
    } else {
      assert now[1..] == names[1..];
      if |names| > 1 {
        var x, y, z := [c], names[0], "/" + Slashed(names[1..]);
        assert x + y + z == x + (y + z) && Slashed(now) == now[0] + "/" + Slashed(now[1..]);
        assert now[0] + "/" + Slashed(names[1..]) == x + y + z && Slashed(names) == y + z;
      }
    }
  }

  lemma {:induction false} WalkConcat(dirs: Dirs, cur: DirId, xs: seq<string>, ys: seq<string>)
    ensures Walk(dirs, cur, xs + ys) == match Walk(dirs, cur, xs)
      case NotFound => NotFound
      case Found(x) => Walk(dirs, x, ys)
    decreases |xs|
  {
    if xs == [] {
      assert xs + ys == ys;
    } else {
      assert (xs + ys)[1..] == xs[1..] + ys;
      var next := Step(dirs, cur, xs[0]);
      if next.Found? {
        WalkConcat(dirs, next.id, xs[1..], ys);
      }
    }
  }

  lemma WalkOne(dirs: Dirs, cur: DirId, name: string)
    ensures Walk(dirs, cur, [name]) == Step(dirs, cur, name)
  {
    assert [name][1..] == [];
  }

  /** Where a path leads from a directory. */
  ghost function Leads(dirs: Dirs, path: string, startingDir: DirId): Resolved {
    Walk(dirs, Start(path, startingDir), Names(path))
  }

  lemma LeadsOn(dirs: Dirs, a: string, b: string, startingDir: DirId)
    requires a != ""
    ensures Leads(dirs, a + "/" + b, startingDir) == match Leads(dirs, a, startingDir)
      case NotFound => NotFound
      case Found(x) => Walk(dirs, x, Split(b))
  {
    var path := a + "/" + b;
    assert path[0] == a[0];
    if a[0] == '/' {
      assert path[1..] == a[1..] + "/" + b;
      SplitConcat(a[1..], b);
      WalkConcat(dirs, ROOT, Split(a[1..]), Split(b));
    } else {
      SplitConcat(a, b);
      WalkConcat(dirs, startingDir, Split(a), Split(b));
    }
  }

  /** Resolving the full path of a directory from anywhere leads back to the directory. */
  lemma {:induction false} FullPathResolves(dirs: Dirs, depth: map<DirId, nat>, d: DirId)
    requires NamedTree(dirs, depth) && Known(dirs, d)
    ensures var path := FullPath(dirs, depth, d);
      path != "" && path[0] == '/' && Walk(dirs, ROOT, Names(path)) == Found(d)
    decreases depth[d]
  {
    hide Walk, Split;
    var path := FullPath(dirs, depth, d);
    if d == ROOT {
      SplitName("");
      WalkOne(dirs, ROOT, "");
      assert path[1..] == "";
    } else {
      var name, parent := dirs[d].name, dirs[d].parentId;
      assert Child(dirs, name, parent) == Found(d);
      SplitName(name);
      WalkOne(dirs, parent, name);
      if parent == ROOT {
        assert path[1..] == name;
      } else {
        FullPathResolves(dirs, depth, parent);
        LeadsOn(dirs, FullPath(dirs, depth, parent), name, ROOT);
      }
    }
  }

  /** Two dots lead from a directory to its parent, and from the root to the root. */
  lemma UpLeadsToParent(dirs: Dirs, depth: map<DirId, nat>, d: DirId)
    requires Ranked(dirs, depth) && Known(dirs, d)
    ensures Leads(dirs, "..", d) == Found(if d == ROOT then ROOT else dirs[d].parentId)
  {
    SplitName("..");
    WalkOne(dirs, d, "..");
  }

  /** So the full path of a directory and two dots lead to its parent from anywhere. */
  lemma FullPathUp(dirs: Dirs, depth: map<DirId, nat>, d: DirId, startingDir: DirId)
    requires NamedTree(dirs, depth) && d in dirs
    ensures Leads(dirs, FullPath(dirs, depth, d) + "/..", startingDir) == Found(dirs[d].parentId)
  {
    var path := FullPath(dirs, depth, d);
    FullPathResolves(dirs, depth, d);
    assert path + "/.." == path + "/" + "..";
    LeadsOn(dirs, path, "..", startingDir);
    SplitName("..");
    WalkOne(dirs, d, "..");
  }

  /** A dot between two slashes changes nothing, and no more does a doubled slash. */
  lemma DotsAndSlashesVanish(dirs: Dirs, a: string, b: string, startingDir: DirId)
    requires a != ""
    ensures Leads(dirs, a + "/./" + b, startingDir) == Leads(dirs, a + "/" + b, startingDir)
    ensures Leads(dirs, a + "//" + b, startingDir) == Leads(dirs, a + "/" + b, startingDir)
    ensures Leads(dirs, a + "/.", startingDir) == Leads(dirs, a, startingDir)
    ensures Leads(dirs, a + "/", startingDir) == Leads(dirs, a, startingDir)
  {
    assert a + "/./" + b == a + "/" + (("." + "/") + b) && a + "//" + b == a + "/" + ("" + "/" + b);
    assert a + "/." == a + "/" + "." && a + "/" == a + "/" + "";
    LeadsOn(dirs, a, b, startingDir);
    SplitName(".");
    SplitName("");
    forall s | s in {"", "."}
      ensures Leads(dirs, a + "/" + (s + "/" + b), startingDir) == Leads(dirs, a + "/" + b, startingDir)
      ensures Leads(dirs, a + "/" + s, startingDir) == Leads(dirs, a, startingDir)
    {
      LeadsOn(dirs, a, s + "/" + b, startingDir);
      LeadsOn(dirs, a, s, startingDir);
      SplitConcat(s, b);
      forall x
        ensures Walk(dirs, x, Split(s) + Split(b)) == Walk(dirs, x, Split(b)) && Walk(dirs, x, Split(s)) == Found(x)
      {
        WalkConcat(dirs, x, Split(s), Split(b));
        WalkOne(dirs, x, s);
      }
    }
  }

  /** A name and then two dots lead back. */
  lemma DownAndUp(dirs: Dirs, a: string, name: string, startingDir: DirId)
    requires a != "" && GoodName(name) && Leads(dirs, a + "/" + name, startingDir).Found?
    ensures Leads(dirs, a + "/" + name + "/..", startingDir) == Leads(dirs, a, startingDir)
  {
    var down := a + "/" + name;
    assert down + "/.." == down + "/" + "..";
    LeadsOn(dirs, a, name, startingDir);
    LeadsOn(dirs, down, "..", startingDir);
    SplitName(name);
    SplitName("..");
    var x := Leads(dirs, a, startingDir).id;
    WalkOne(dirs, x, name);
    WalkOne(dirs, Leads(dirs, down, startingDir).id, "..");
  }

  datatype FileResolved = NoFile | FileFound(id: FileId)

  method GetFileByNameInDir(files: Files, name: string, parent: DirId) returns (r: FileResolved)
    ensures r.FileFound? ==> r.id in files && files[r.id].name == name && files[r.id].parentId == parent
    ensures r.NoFile? ==> forall f :: f in files ==> !(files[f].name == name && files[f].parentId == parent)
  {
    if f :| f in files && files[f].name == name && files[f].parentId == parent {
      return FileFound(f);
    }
    return NoFile;
  }

  /** What follows the last slash of a path. */
  function NamePart(path: string): (r: string)
    ensures |r| <= |path|
  {
    if path == "" || path[|path| - 1] == '/' then "" else NamePart(path[..|path| - 1]) + [path[|path| - 1]]
  }

  /** The path up to its last slash, the slash included. */
  function DirPart(path: string): string {
    path[..|path| - |NamePart(path)|]
  }

  /** The directory part of the path leads to the directory of the file, and the rest is its name. */
  ghost predicate IsFileAt(dirs: Dirs, files: Files, start: DirId, path: string, f: FileId)
    requires f in files
  {
    Known(dirs, start) && files[f].name == NamePart(path) &&
      Walk(dirs, start, Names(DirPart(path))) == Found(files[f].parentId)
  }

  method SplitAtLastSlash(path: string) returns (dir: string, name: string)
    ensures dir == DirPart(path) && name == NamePart(path) && '/' !in name
    ensures forall d :: Start(path, d) == Start(dir, d)
  {
    hide NamePart, DirPart, Start;
    var lastSlash := |path| - 1;
    while lastSlash >= 0 && path[lastSlash] != '/'
      invariant -1 <= lastSlash < |path|
      invariant '/' !in path[lastSlash + 1..]
    {
      lastSlash := lastSlash - 1;
    }
    SplitAt(path, lastSlash + 1);
    dir, name := path[..lastSlash + 1], path[lastSlash + 1..];
  }

  lemma SplitAt(path: string, k: nat)
    requires k <= |path| && '/' !in path[k..] && (k > 0 ==> path[k - 1] == '/')
    ensures path[..k] == DirPart(path) && path[k..] == NamePart(path)
    ensures forall d :: Start(path, d) == Start(path[..k], d)
  {
    hide NamePart, DirPart, Start;
    assert path == path[..k] + path[k..];
    SplitIsUnique(path[..k], path[k..]);
    StartsAlike(path[..k], path[k..]);
  }

  lemma StartsAlike(dir: string, name: string)
    requires '/' !in name
    ensures forall d :: Start(dir + name, d) == Start(dir, d)
  {
    assert name != "" ==> name[0] in name;
    assert dir + name != "" ==> (dir + name)[0] == if dir != "" then dir[0] else name[0];
  }

  lemma {:induction false} NamePartOf(dir: string, name: string)
    requires '/' !in name && (dir == "" || dir[|dir| - 1] == '/')
    ensures NamePart(dir + name) == name
  {
    if name == "" {
      assert dir + name == dir;
    } else {
      var k := |name| - 1;
      assert name[k] in name && name == name[..k] + [name[k]];
      assert (dir + name)[..|dir + name| - 1] == dir + name[..k] && (dir + name)[|dir + name| - 1] == name[k];
      NamePartOf(dir, name[..k]);
    }
  }

  /** There is only one way to split a path at its last slash. */
  lemma SplitIsUnique(dir: string, name: string)
    requires '/' !in name && (dir == "" || dir[|dir| - 1] == '/')
    ensures DirPart(dir + name) == dir && NamePart(dir + name) == name
  {
    NamePartOf(dir, name);
    hide NamePart;
    assert (dir + name)[..|dir|] == dir;
  }

  lemma NoDirPart(dirs: Dirs, cur: DirId)
    ensures Walk(dirs, cur, Names("")) == Found(cur)
  {
    assert Names("") == [""] && [""][1..] == [];
  }

  method ResolveFilePath(dirs: Dirs, files: Files, path: string, startingDir: DirId, startingPath: string,
                         ghost depth: map<DirId, nat>)
    returns (r: FileResolved)
    requires NamedTree(dirs, depth)
    requires Known(dirs, startingDir) ==> startingPath == FullPath(dirs, depth, startingDir)
    ensures r.FileFound? ==> r.id in files && IsFileAt(dirs, files, Start(path, startingDir), path, r.id)
    ensures r.NoFile? ==> forall f :: f in files ==> !IsFileAt(dirs, files, Start(path, startingDir), path, f)
  {
    hide Walk, FullPath, Names, NamedTree, NamePart;
    var dir, fileName := SplitAtLastSlash(path);
    var parent;
    if dir != "" {
      var dirPath;
      parent, dirPath := ResolveDirPath(dirs, dir, startingDir, startingPath, depth);
    } else {
      NoDirPart(dirs, startingDir);
      parent := if startingDir == ROOT || startingDir in dirs then Found(startingDir) else NotFound;
    }
    if parent.NotFound? {
      return NoFile;
    }
    r := GetFileByNameInDir(files, fileName, parent.id);
  }
}
