/** `find_git_repositories` of the Python script: `Path(root).rglob('.git')` visits
    every directory below the root, hidden and dependency directories included, and
    the loop keeps the parent of each match that is a directory unless one of the
    skip names occurs anywhere in that parent's path text. */
module GitStatsDiscovery {
  import opened Strings
  import opened FileTree

  /** A path `rglob` yields, with what `item.is_dir()` says of it. */
  datatype Match = Match(path: string, isDir: bool)

  /** The index of the first child named `.git`, or the number of children if none is. */
  function GitChild(cs: seq<Entry>): (n: nat)
    ensures n <= |cs| && (n < |cs| ==> cs[n].name == ".git")
    ensures forall i :: 0 <= i < n ==> cs[i].name != ".git"
  {
    if cs == [] || cs[0].name == ".git" then 0 else GitChild(cs[1..]) + 1
  }

  /** What the `.git` test in a directory `d` reached as `dirPath` yields. */
  function Here(d: Entry, dirPath: string): seq<Match> {
    var n := GitChild(d.children);
    if n < |d.children| then [Match(JoinPath(dirPath, ".git"), d.children[n].isDir)] else []
  }

  /** `rglob('.git')` below `d`, in preorder: the directory's own `.git` first, then
      every sub-directory in listing order. A directory that is not `readable`, so that
      it can be neither listed nor searched, yields nothing (its `PermissionError` is
      swallowed). */
  function Glob(d: Entry, dirPath: string): seq<Match>
    decreases d, 1
  {
    if !Listable(d) then [] else Here(d, dirPath) + GlobPrefix(d, |d.children|, dirPath)
  }

  function GlobPrefix(d: Entry, k: nat, dirPath: string): seq<Match>
    requires k <= |d.children|
    decreases d, 0, k
  {
    if k == 0 then []
    else GlobPrefix(d, k - 1, dirPath) + Glob(d.children[k - 1], JoinPath(dirPath, d.children[k - 1].name))
  }

  /** The `skip_dirs` set. */
  const SkipNames: set<string> := {"node_modules", "vendor", "venv", "__pycache__", ".venv", "env", "build", "dist", ".next"}

  /** `any(skip_dir in repo_path for skip_dir in skip_dirs)`: a substring test on the
      whole path text, not a test of its components. */
  predicate Excluded(repoPath: string) {
    exists name :: name in SkipNames && ContainsText(repoPath, name)
  }

  /** The parents the loop keeps from the matches `ms`, in order. */
  function Kept(ms: seq<Match>): seq<string> {
    if ms == [] then []
    else
      var m := ms[|ms| - 1];
      Kept(ms[..|ms| - 1]) + (if m.isDir && !Excluded(Parent(m.path)) then [Parent(m.path)] else [])
  }

  /** `find_git_repositories(root_path)`. */
  method FindGitRepositories(rootPath: string, root: Entry) returns (repositories: seq<string>)
    ensures repositories == Kept(Glob(root, rootPath))
  {
    var items := Glob(root, rootPath);
    repositories := [];
    for i := 0 to |items|
      invariant repositories == Kept(items[..i])
    {
      var item := items[i];
      assert items[..i + 1][..i] == items[..i];
      if item.isDir {
        var repoPath := Parent(item.path);
        if !Excluded(repoPath) {
          repositories := repositories + [repoPath];
        }
      }
    }
    assert items[..|items|] == items;
  }

  // ---------------------------------------------------------------------------
  // Which paths are kept.

  /** A route of child indices from `d` through listable directories, of any name,
      to a listable directory whose `.git` entry is a directory. */
  ghost predicate IsRoute(d: Entry, route: seq<nat>)
    decreases route
  {
    && Listable(d)
    && if route == [] then GitChild(d.children) < |d.children| && d.children[GitChild(d.children)].isDir
       else route[0] < |d.children| && IsRoute(d.children[route[0]], route[1..])
  }

  /** The path of the directory a route ends at. */
  ghost function RoutePath(d: Entry, base: string, route: seq<nat>): (p: string)
    requires IsRoute(d, route)
    ensures base != [] ==> p != []
    decreases route
  {
    if route == [] then base
    else var c := d.children[route[0]]; RoutePath(c, JoinPath(base, c.name), route[1..])
  }

  lemma {:induction false} GlobInPrefix(d: Entry, i: nat, k: nat, dirPath: string, m: Match)
    requires i < k <= |d.children| && m in Glob(d.children[i], JoinPath(dirPath, d.children[i].name))
    ensures m in GlobPrefix(d, k, dirPath)
  {
    if i < k - 1 {
      GlobInPrefix(d, i, k - 1, dirPath, m);
    }
  }

  lemma {:induction false} GlobPrefixSource(d: Entry, k: nat, dirPath: string, m: Match) returns (i: nat)
    requires k <= |d.children| && m in GlobPrefix(d, k, dirPath)
    ensures i < k && m in Glob(d.children[i], JoinPath(dirPath, d.children[i].name))
  {
    var c := d.children[k - 1];
    var g := Glob(c, JoinPath(dirPath, c.name));
    assert GlobPrefix(d, k, dirPath) == GlobPrefix(d, k - 1, dirPath) + g;
    if m in g {
      i := k - 1;
    } else {
      assert m in GlobPrefix(d, k - 1, dirPath);
      i := GlobPrefixSource(d, k - 1, dirPath, m);
    }
  }

  lemma {:induction false} RouteGlobbed(d: Entry, base: string, route: seq<nat>)
    requires IsRoute(d, route)
    ensures Match(JoinPath(RoutePath(d, base, route), ".git"), true) in Glob(d, base)
    decreases route
  {
    if route != [] {
      var c := d.children[route[0]];
      RouteGlobbed(c, JoinPath(base, c.name), route[1..]);
      GlobInPrefix(d, route[0], |d.children|, base, Match(JoinPath(RoutePath(d, base, route), ".git"), true));
    }
  }

  lemma {:induction false} GlobbedRoute(d: Entry, base: string, path: string) returns (route: seq<nat>)
    requires Match(path, true) in Glob(d, base)
    ensures IsRoute(d, route) && path == JoinPath(RoutePath(d, base, route), ".git")
    decreases d
  {
    if Match(path, true) in Here(d, base) {
      route := [];
    } else {
      var i := GlobPrefixSource(d, |d.children|, base, Match(path, true));
      var c := d.children[i];
      var rest := GlobbedRoute(c, JoinPath(base, c.name), path);
      route := [i] + rest;
      assert route[1..] == rest;
    }
  }

  /** `rglob` yields a `.git` directory exactly at the end of each route. */
  lemma GlobFinds(d: Entry, base: string, path: string)
    ensures Match(path, true) in Glob(d, base) <==> exists route :: IsRoute(d, route) && path == JoinPath(RoutePath(d, base, route), ".git")
  {
    if Match(path, true) in Glob(d, base) {
      var route := GlobbedRoute(d, base, path);
    }
    if exists route :: IsRoute(d, route) && path == JoinPath(RoutePath(d, base, route), ".git") {
      var route :| IsRoute(d, route) && path == JoinPath(RoutePath(d, base, route), ".git");
      RouteGlobbed(d, base, route);
    }
  }

  lemma KeptMembers(ms: seq<Match>, p: string)
    ensures p in Kept(ms) <==> exists i :: 0 <= i < |ms| && ms[i].isDir && Parent(ms[i].path) == p && !Excluded(p)
  {
    if p in Kept(ms) {
      var i := KeptSource(ms, p);
    }
    if exists i :: 0 <= i < |ms| && ms[i].isDir && Parent(ms[i].path) == p && !Excluded(p) {
      var i :| 0 <= i < |ms| && ms[i].isDir && Parent(ms[i].path) == p && !Excluded(p);
      KeptHas(ms, i);
    }
  }

  /** A kept path comes from a directory match whose parent is not excluded. */
  lemma {:induction false} KeptSource(ms: seq<Match>, p: string) returns (i: nat)
    requires p in Kept(ms)
    ensures i < |ms| && ms[i].isDir && Parent(ms[i].path) == p && !Excluded(p)
  {
    var init, m := ms[..|ms| - 1], ms[|ms| - 1];
    var tail := if m.isDir && !Excluded(Parent(m.path)) then [Parent(m.path)] else [];
    assert Kept(ms) == Kept(init) + tail;
    if p in Kept(init) {
      i := KeptSource(init, p);
      assert ms[i] == init[i];
    } else {
      i := |ms| - 1;
    }
  }

  /** The parent of a directory match is kept unless it is excluded. */
  lemma {:induction false} KeptHas(ms: seq<Match>, i: nat)
    requires i < |ms| && ms[i].isDir && !Excluded(Parent(ms[i].path))
    ensures Parent(ms[i].path) in Kept(ms)
  {
    var init, m := ms[..|ms| - 1], ms[|ms| - 1];
    var tail := if m.isDir && !Excluded(Parent(m.path)) then [Parent(m.path)] else [];
    assert Kept(ms) == Kept(init) + tail;
    if i < |init| {
      assert init[i] == ms[i];
      KeptHas(init, i);
    }
  }

  /** Every path the script returns ends a route from the root. */
  lemma KeptFound(root: Entry, rootPath: string, p: string) returns (route: seq<nat>)
    requires rootPath != [] && p in Kept(Glob(root, rootPath))
    ensures IsRoute(root, route) && RoutePath(root, rootPath, route) == p
  {
    var ms := Glob(root, rootPath);
    var i := KeptSource(ms, p);
    var path := ms[i].path;
    assert ms[i] == Match(path, true);
    route := GlobbedRoute(root, rootPath, path);
    GitParent(RoutePath(root, rootPath, route), path, p);
  }

  /** The directory holding a `.git` entry is the parent of that entry's path. */
  lemma GitParent(dir: string, path: string, p: string)
    requires dir != [] && path == JoinPath(dir, ".git") && Parent(path) == p
    ensures dir == p
  {
    ParentOfJoin(dir, ".git");
  }

  /** Every route from the root whose path contains no skip name is returned. */
  lemma FoundKept(root: Entry, rootPath: string, route: seq<nat>)
    requires rootPath != [] && IsRoute(root, route) && !Excluded(RoutePath(root, rootPath, route))
    ensures RoutePath(root, rootPath, route) in Kept(Glob(root, rootPath))
  {
    var ms := Glob(root, rootPath);
    var p := RoutePath(root, rootPath, route);
    RouteGlobbed(root, rootPath, route);
    var m := Match(JoinPath(p, ".git"), true);
    var i :| 0 <= i < |ms| && ms[i] == m;
    ParentOfJoin(p, ".git");
    KeptHas(ms, i);
  }

  /** The script returns exactly the end directories of the routes from the root
      whose path text contains none of the skip names. */
  lemma KeptFinds(root: Entry, rootPath: string, p: string)
    requires rootPath != []
    ensures p in Kept(Glob(root, rootPath)) <==>
      (exists route :: IsRoute(root, route) && RoutePath(root, rootPath, route) == p) && !Excluded(p)
  {
    if p in Kept(Glob(root, rootPath)) {
      var route := KeptFound(root, rootPath, p);
      var i := KeptSource(Glob(root, rootPath), p);
    }
    if (exists route :: IsRoute(root, route) && RoutePath(root, rootPath, route) == p) && !Excluded(p) {
      var route :| IsRoute(root, route) && RoutePath(root, rootPath, route) == p;
      FoundKept(root, rootPath, route);
    }
  }
}
