/** The file system as both implementations see it: a directory tree whose entries
    carry a name, a directory flag, a readable flag and their children, and the
    path text built while walking it. Paths are kept as the walk builds them,
    without the normalisation of Node's `path.join` or of `pathlib`. */
module FileTree {

  /** One directory entry. `readable` says whether a directory can be listed
      (and searched); a non-directory's children are never looked at. */
  datatype Entry = Entry(name: string, isDir: bool, readable: bool, children: seq<Entry>)

  /** `fs.readdir` / `os.scandir` on this entry succeeds. */
  predicate Listable(e: Entry) {
    e.isDir && e.readable
  }

  /** `path.join(dir, name)`, unnormalised. */
  function JoinPath(dir: string, name: string): string {
    dir + "/" + name
  }

  /** `path.dirname(p)` / `str(Path(p).parent)` on a joined path: the text before
      the last `/` (`/` itself when that is the first character, `.` when there is none). */
  function Parent(p: string): string {
    if p == [] then "."
    else if p[|p| - 1] == '/' then (if |p| == 1 then "/" else p[..|p| - 1])
    else Parent(p[..|p| - 1])
  }

  lemma {:induction false} ParentOfJoin(dir: string, name: string)
    requires dir != [] && '/' !in name
    ensures Parent(JoinPath(dir, name)) == dir
  {
    var p := JoinPath(dir, name);
    if name != [] {
      var init := name[..|name| - 1];
      assert p[..|p| - 1] == JoinPath(dir, init);
      assert p[|p| - 1] == name[|name| - 1];
      ParentOfJoin(dir, init);
    } else {
      assert p[..|p| - 1] == dir;
    }
  }

  /** The text after the last `/`. */
  function AfterLastSlash(p: string): (r: string)
    ensures '/' !in r
  {
    if p == [] || p[|p| - 1] == '/' then []
    else AfterLastSlash(p[..|p| - 1]) + [p[|p| - 1]]
  }

  function TrimTrailingSlashes(p: string): string {
    if p != [] && p[|p| - 1] == '/' then TrimTrailingSlashes(p[..|p| - 1]) else p
  }

  /** Node's `path.basename(p)`: trailing slashes are ignored. */
  function NodeBasename(p: string): string {
    AfterLastSlash(TrimTrailingSlashes(p))
  }

  /** Python's `os.path.basename(p)`: everything after the last slash. */
  function PyBasename(p: string): string {
    AfterLastSlash(p)
  }

  lemma {:induction false} AfterLastSlashOfJoin(dir: string, name: string)
    requires '/' !in name
    ensures AfterLastSlash(JoinPath(dir, name)) == name
  {
    var p := JoinPath(dir, name);
    if name != [] {
      var init := name[..|name| - 1];
      assert p[..|p| - 1] == JoinPath(dir, init);
      AfterLastSlashOfJoin(dir, init);
      assert init + [name[|name| - 1]] == name;
    }
  }

  /** The base name of a joined path is the name that was joined. */
  lemma BasenameOfJoin(dir: string, name: string)
    requires '/' !in name && name != []
    ensures NodeBasename(JoinPath(dir, name)) == name
    ensures PyBasename(JoinPath(dir, name)) == name
  {
    AfterLastSlashOfJoin(dir, name);
  }
}
