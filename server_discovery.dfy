/** `findGitRepositories` of the Node backend: a depth-first walk that pushes the
    parent of every `.git` directory it meets onto a shared list, skipping hidden
    entries and dependency directories and swallowing directories it cannot read. */
module ServerDiscovery {
  import opened Strings
  import opened FileTree

  /** The dependency directory names the walk never enters. */
  const DependencyNames: set<string> := {"node_modules", "vendor", "venv", "__pycache__"}

  /** The two `continue` tests at the top of the loop body. */
  predicate Skipped(name: string) {
    (StartsWith(name, ".") && name != ".git") || name in DependencyNames
  }

  // ---------------------------------------------------------------------------
  // What the walk finds, as functions.

  /** What one entry of a directory listed at `dirPath` adds to the list. */
  function Contribution(e: Entry, dirPath: string): seq<string>
    decreases e, 2
  {
    if Skipped(e.name) || !e.isDir then []
    else if e.name == ".git" then [Parent(JoinPath(dirPath, e.name))]
    else Walk(e, JoinPath(dirPath, e.name))
  }

  /** What searching the directory `d`, reached as `dirPath`, adds to the list:
      nothing when it cannot be listed, else the contributions of its entries in order. */
  function Walk(d: Entry, dirPath: string): seq<string>
    decreases d, 1
  {
    if !Listable(d) then [] else WalkPrefix(d, |d.children|, dirPath)
  }

  /** The contributions of the first `k` entries of `d`. */
  function WalkPrefix(d: Entry, k: nat, dirPath: string): seq<string>
    requires k <= |d.children|
    decreases d, 0, k
  {
    if k == 0 then [] else WalkPrefix(d, k - 1, dirPath) + Contribution(d.children[k - 1], dirPath)
  }

  // ---------------------------------------------------------------------------
  // The walk itself.

  /** `searchDirectory(dirPath)`: `found` is the shared `repositories` array before
      the call, `out` the array after it. */
  method SearchDirectory(d: Entry, dirPath: string, found: seq<string>) returns (out: seq<string>)
    ensures out == found + Walk(d, dirPath)
    decreases d
  {
    out := found;
    if !Listable(d) {
      // `fs.readdir` rejects; the error is logged and the directory contributes nothing.
      return;
    }
    for i := 0 to |d.children|
      invariant out == found + WalkPrefix(d, i, dirPath)
    {
      var entry := d.children[i];
      var fullPath := JoinPath(dirPath, entry.name);
      if StartsWith(entry.name, ".") && entry.name != ".git" {
        assert Contribution(entry, dirPath) == [];
        continue;
      }
      if entry.name in DependencyNames {
        assert Contribution(entry, dirPath) == [];
        continue;
      }
      if entry.isDir {
        if entry.name == ".git" {
          out := out + [Parent(fullPath)];
        } else {
          out := SearchDirectory(entry, fullPath, out);
        }
      }
    }
  }

  /** `findGitRepositories(rootPath)`: the walk from an empty list. */
  method FindGitRepositories(rootPath: string, root: Entry) returns (repositories: seq<string>)
    ensures repositories == Walk(root, rootPath)
  {
    repositories := SearchDirectory(root, rootPath, []);
  }

  // ---------------------------------------------------------------------------
  // Which paths the walk yields.

  /** A route from `d` to a `.git` directory, as indices of children: every directory
      on it can be listed, every step names a directory that is neither hidden nor a
      dependency directory, the steps before the last are not `.git`, and the last is. */
  ghost predicate IsRoute(d: Entry, route: seq<nat>)
    decreases route
  {
    && Listable(d) && |route| >= 1 && route[0] < |d.children|
    && var c := d.children[route[0]];
    && !Skipped(c.name) && c.isDir
    && if |route| == 1 then c.name == ".git"
       else c.name != ".git" && IsRoute(c, route[1..])
  }

  /** The path of the directory holding the `.git` a route ends at. */
  ghost function RoutePath(d: Entry, base: string, route: seq<nat>): string
    requires IsRoute(d, route)
    decreases route
  {
    if |route| == 1 then base
    else var c := d.children[route[0]]; RoutePath(c, JoinPath(base, c.name), route[1..])
  }

  lemma {:induction false} ContributionInPrefix(d: Entry, i: nat, k: nat, dirPath: string, p: string)
    requires i < k <= |d.children| && p in Contribution(d.children[i], dirPath)
    ensures p in WalkPrefix(d, k, dirPath)
  {
    if i < k - 1 {
      ContributionInPrefix(d, i, k - 1, dirPath, p);
    }
  }

  lemma {:induction false} PrefixSource(d: Entry, k: nat, dirPath: string, p: string) returns (i: nat)
    requires k <= |d.children| && p in WalkPrefix(d, k, dirPath)
    ensures i < k && p in Contribution(d.children[i], dirPath)
  {
    if p in Contribution(d.children[k - 1], dirPath) {
      i := k - 1;
    } else {
      i := PrefixSource(d, k - 1, dirPath, p);
    }
  }

  /** Every route leads to a path the walk yields. */
  lemma {:induction false} RouteFound(d: Entry, base: string, route: seq<nat>)
    requires base != [] && IsRoute(d, route)
    ensures RoutePath(d, base, route) in Walk(d, base)
    decreases route
  {
    var c := d.children[route[0]];
    if |route| == 1 {
      ParentOfJoin(base, ".git");
    } else {
      RouteFound(c, JoinPath(base, c.name), route[1..]);
    }
    ContributionInPrefix(d, route[0], |d.children|, base, RoutePath(d, base, route));
  }

  /** Every path the walk yields is reached by a route. */
  lemma {:induction false} FoundRoute(d: Entry, base: string, p: string) returns (route: seq<nat>)
    requires base != [] && p in Walk(d, base)
    ensures IsRoute(d, route) && RoutePath(d, base, route) == p
    decreases d
  {
    var i := PrefixSource(d, |d.children|, base, p);
    var c := d.children[i];
    if c.name == ".git" {
      ParentOfJoin(base, ".git");
      route := [i];
    } else {
      var rest := FoundRoute(c, JoinPath(base, c.name), p);
      route := [i] + rest;
      assert route[1..] == rest;
    }
  }

  /** The walk yields exactly the directories that hold a `.git` directory and are
      reached from the root through listable directories none of which is hidden,
      a dependency directory or a `.git` directory itself. */
  lemma WalkFinds(root: Entry, rootPath: string, p: string)
    requires rootPath != []
    ensures p in Walk(root, rootPath) <==> exists route :: IsRoute(root, route) && RoutePath(root, rootPath, route) == p
  {
    if p in Walk(root, rootPath) {
      var route := FoundRoute(root, rootPath, p);
    }
    if exists route :: IsRoute(root, route) && RoutePath(root, rootPath, route) == p {
      var route :| IsRoute(root, route) && RoutePath(root, rootPath, route) == p;
      RouteFound(root, rootPath, route);
    }
  }

  lemma {:induction false} ReplaceChildPrefix(d: Entry, i: nat, e: Entry, k: nat, dirPath: string)
    requires i < |d.children| && k <= |d.children|
    requires Contribution(e, dirPath) == Contribution(d.children[i], dirPath)
    ensures WalkPrefix(d.(children := d.children[i := e]), k, dirPath) == WalkPrefix(d, k, dirPath)
  {
    if k > 0 {
      ReplaceChildPrefix(d, i, e, k - 1, dirPath);
    }
  }

  /** The walk never looks into a hidden or dependency directory: whatever that
      entry holds, and whatever kind of entry it is, the result is the same. */
  lemma SkippedNotSearched(d: Entry, i: nat, e: Entry, dirPath: string)
    requires i < |d.children| && Skipped(d.children[i].name) && e.name == d.children[i].name
    ensures Walk(d.(children := d.children[i := e]), dirPath) == Walk(d, dirPath)
  {
    ReplaceChildPrefix(d, i, e, |d.children|, dirPath);
  }

  /** The walk never looks into a `.git` directory: whatever it holds, the result is the same. */
  lemma GitNotSearched(d: Entry, i: nat, e: Entry, dirPath: string)
    requires i < |d.children| && d.children[i].name == ".git" && d.children[i].isDir
    requires e.name == ".git" && e.isDir
    ensures Walk(d.(children := d.children[i := e]), dirPath) == Walk(d, dirPath)
  {
    ReplaceChildPrefix(d, i, e, |d.children|, dirPath);
  }

  /** An entry that is not a directory (a `.git` file included) adds nothing. */
  lemma FileNotSearched(d: Entry, i: nat, e: Entry, dirPath: string)
    requires i < |d.children| && !d.children[i].isDir && !e.isDir
    ensures Walk(d.(children := d.children[i := e]), dirPath) == Walk(d, dirPath)
  {
    ReplaceChildPrefix(d, i, e, |d.children|, dirPath);
  }
}
