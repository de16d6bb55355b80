/** The analysis side of the Python script: `run_command`, `get_repository_authors`,
    `get_author_stats`, `analyze_repository` and `analyze_folder`. Every pipeline is
    run over all branches. */
module GitStats {
  import opened Wrappers
  import opened Strings
  import opened Numbers
  import opened FileTree
  import opened Git
  import opened Contributions
  import opened Sequences
  import GitStatsDiscovery

  /** `run_command`: the pipeline's output stripped of surrounding white space, or
      the empty string when running it raised. */
  function RunCommand(git: Oracle, repoPath: string, command: Command): (out: string)
    ensures git(repoPath, command) == None ==> out == []
    ensures IsTrimmed(out, IsPySpace)
  {
    match git(repoPath, command)
    case None => []
    case Some(stdout) => Trim(stdout, IsPySpace)
  }

  // ---------------------------------------------------------------------------
  // Authors.

  /** The list comprehension of `get_repository_authors` on the command's output. */
  function AuthorList(output: string): (authors: seq<string>)
    ensures output == [] ==> authors == []
  {
    if output == [] then [] else TrimmedNonBlank(Split(output, '\n'), IsPySpace)
  }

  /** The authors are stripped and non-empty; they are exactly the non-empty
      stripped lines, and there are no more of them than lines. */
  lemma AuthorListContents(output: string)
    ensures var authors := AuthorList(output);
      && (forall a :: a in authors ==> a != [] && IsTrimmed(a, IsPySpace))
      && (output != [] ==> var lines := Split(output, '\n');
           && |authors| <= |lines|
           && forall a :: a in authors <==> a != [] && a in TrimAll(lines, IsPySpace))
  {
    if output != [] {
      TrimmedNonBlankMembers(Split(output, '\n'), IsPySpace);
    }
  }

  /** `get_repository_authors(repo_path)`. */
  function Authors(git: Oracle, repoPath: string): seq<string> {
    AuthorList(RunCommand(git, repoPath, ListAuthors(AllBranches)))
  }

  predicate PrintableNames(names: seq<string>) {
    forall i :: 0 <= i < |names| ==> names[i] != [] && IsTrimmed(names[i], IsPySpace) && '\n' !in names[i]
  }

  /** The author list reads back the names `sort -u` printed, none when it printed nothing. */
  lemma AuthorsRoundTrip(git: Oracle, repoPath: string, names: seq<string>)
    requires git(repoPath, ListAuthors(AllBranches)) == Some(Lines(names))
    requires PrintableNames(names)
    ensures Authors(git, repoPath) == names
  {
    var out := RunCommand(git, repoPath, ListAuthors(AllBranches));
    if names == [] {
      assert Lines(names) == [];
      TrimTrimmed([], IsPySpace);
    } else {
      StripLines(names, IsPySpace);
      JoinTrimmed(names, '\n', IsPySpace);
      StrippedLinesRoundTrip(names, out, IsPySpace);
    }
  }

  // ---------------------------------------------------------------------------
  // One author's statistics.

  /** `int(parts[i]) if len(parts) > i and parts[i] else 0`; None when `int` raises. */
  function FieldValue(parts: seq<string>, i: nat): Option<int> {
    if i < |parts| && parts[i] != [] then PyInt(parts[i]) else Some(0)
  }

  /** The added and deleted lines `get_author_stats` ends with. The fields are
      assigned in order inside one `try`: once a field raises, the later ones keep
      their initial 0 while the earlier ones keep their values. */
  function StatFields(statsOutput: string): (int, int) {
    if statsOutput == [] then (0, 0) else FieldsRead(Split(statsOutput, ','))
  }

  /** The added and deleted lines read from the comma-separated fields `parts`. */
  function FieldsRead(parts: seq<string>): (int, int) {
    match FieldValue(parts, 0)
    case None => (0, 0)
    case Some(added) =>
      match FieldValue(parts, 1)
      case None => (added, 0)
      case Some(deleted) => (added, deleted)
  }

  /** `int(commits_output) if commits_output.isdigit() else 0`. */
  function CommitCount(commitsOutput: string): (n: nat)
    ensures !IsDigitString(commitsOutput) ==> n == 0
  {
    if IsDigitString(commitsOutput) then DigitsValue(commitsOutput, false) else 0
  }

  /** The record `get_author_stats` returns. */
  function AuthorStats(git: Oracle, repoPath: string, author: string): (s: AuthorStat)
    ensures WellFormed(s) && s.author == author && s.commits >= 0
    ensures git(repoPath, NumStat(author, AllBranches)) == None ==> s.added == 0 && s.deleted == 0 && s.totalChanges == 0
    ensures git(repoPath, CountCommits(author, AllBranches)) == None ==> s.commits == 0
  {
    var fields := StatFields(RunCommand(git, repoPath, NumStat(author, AllBranches)));
    Record(author, fields.0, fields.1, CommitCount(RunCommand(git, repoPath, CountCommits(author, AllBranches))))
  }

  /** `get_author_stats`: the sequential assignments inside the `try`. */
  method GetAuthorStats(git: Oracle, repoPath: string, author: string) returns (s: AuthorStat)
    ensures s == AuthorStats(git, repoPath, author)
  {
    var statsOutput := RunCommand(git, repoPath, NumStat(author, AllBranches));
    var added, deleted, total := 0, 0, 0;
    if statsOutput != [] {
      var parts := Split(statsOutput, ',');
      var v := FieldValue(parts, 0);
      if v.Some? {
        added := v.value;
        v := FieldValue(parts, 1);
        if v.Some? {
          deleted := v.value;
          v := FieldValue(parts, 2);
          if v.Some? {
            total := v.value;
          }
        }
      }
    }
    var commitsOutput := RunCommand(git, repoPath, CountCommits(author, AllBranches));
    var commits := if IsDigitString(commitsOutput) then DigitsValue(commitsOutput, false) else 0;
    s := Record(author, added, deleted, commits);
  }

  lemma PyIntOfText(n: int)
    ensures PyInt(IntText(n)) == Some(n)
  {
    IntTextShape(n);
    TrimTrimmed(IntText(n), IsPySpace);
    PySignedText(n);
  }

  /** Three fields that all parse give the first two. */
  lemma FieldsReadAll(a: string, b: string, c: string)
    requires a != [] && b != [] && PyInt(a).Some? && PyInt(b).Some?
    ensures FieldsRead([a, b, c]) == (PyInt(a).value, PyInt(b).value)
  {
    assert FieldValue([a, b, c], 0) == PyInt(a) && FieldValue([a, b, c], 1) == PyInt(b);
  }

  lemma StatFieldsOfFields(added: int, deleted: int, net: int)
    ensures StatFields(AwkFields(added, deleted, net)) == (added, deleted)
  {
    AwkSplit(added, deleted, net);
    IntTextShape(added);
    IntTextShape(deleted);
    PyIntOfText(added);
    PyIntOfText(deleted);
    FieldsReadAll(IntText(added), IntText(deleted), IntText(net));
    assert AwkFields(added, deleted, net) != [];
  }

  /** Read back, `awk`'s line gives the added and deleted sums it printed. */
  lemma StatFieldsRoundTrip(added: int, deleted: int, net: int)
    ensures StatFields(Trim(AwkOutput(added, deleted, net), IsPySpace)) == (added, deleted)
  {
    AwkTrim(added, deleted, net, IsPySpace);
    StatFieldsOfFields(added, deleted, net);
  }

  /** With no matching commit `awk` prints `,,`, and every empty field reads as 0. */
  lemma StatFieldsNoCommits()
    ensures StatFields(",,") == (0, 0)
  {
    assert ",," == [] + [','] + ([] + [','] + []);
    SplitPlain([], ',');
    SplitAtSeparator([], [], ',');
    SplitAtSeparator([], [] + [','] + [], ',');
  }

  /** A field that does not parse stops the assignments: the fields after it stay 0
      even when they would parse. */
  lemma StatFieldsStopAtFirst(a: string, b: string, c: string)
    requires a != [] && PyInt(a) == None
    ensures FieldsRead([a, b, c]) == (0, 0)
  {
    assert FieldValue([a, b, c], 0) == None;
  }

  /** A second field that does not parse keeps the first and leaves the second 0. */
  lemma StatFieldsStopAtSecond(a: string, b: string, c: string)
    requires a != [] && b != [] && PyInt(b) == None && PyInt(a).Some?
    ensures FieldsRead([a, b, c]) == (PyInt(a).value, 0)
  {
    assert FieldValue([a, b, c], 0) == PyInt(a) && FieldValue([a, b, c], 1) == None;
  }

  lemma ThreeFields(a: string, b: string, c: string)
    requires ',' !in a && ',' !in b && ',' !in c
    ensures Split(a + "," + b + "," + c, ',') == [a, b, c]
  {
    SplitPlain(c, ',');
    SplitAtSeparator(b, c, ',');
    assert b + "," + c == b + [','] + c;
    SplitAtSeparator(a, b + "," + c, ',');
    assert a + "," + b + "," + c == a + [','] + (b + "," + c);
  }

  /** `x,5,3` reads as no lines at all, `5,x,3` as five added. */
  lemma StatFieldsStopAtErrorExample()
    ensures StatFields("x,5,3") == (0, 0)
    ensures StatFields("5,x,3") == (5, 0)
  {
    assert "x" + "," + "5" + "," + "3" == "x,5,3";
    assert "5" + "," + "x" + "," + "3" == "5,x,3";
    ThreeFields("x", "5", "3");
    ThreeFields("5", "x", "3");
    TrimTrimmed("x", IsPySpace);
    PyIntRejects("x", 0);
    assert IntText(5) == "5";
    PyIntOfText(5);
    StatFieldsStopAtFirst("x", "5", "3");
    StatFieldsStopAtSecond("5", "x", "3");
  }

  /** Read back, `wc`'s line gives the count it printed. */
  lemma CommitCountRoundTrip(pad: string, count: nat)
    requires AllSpace(pad, IsPySpace)
    ensures CommitCount(Trim(WcOutput(pad, count), IsPySpace)) == count
  {
    WcTrim(pad, count, IsPySpace);
    DecimalValue(count);
  }

  /** When the pipelines print their sums and count, the record holds exactly them. */
  lemma AuthorStatsOfOutput(git: Oracle, repoPath: string, author: string,
                            added: int, deleted: int, net: int, pad: string, commits: nat)
    requires git(repoPath, NumStat(author, AllBranches)) == Some(AwkOutput(added, deleted, net))
    requires git(repoPath, CountCommits(author, AllBranches)) == Some(WcOutput(pad, commits))
    requires AllSpace(pad, IsPySpace)
    ensures AuthorStats(git, repoPath, author) == Record(author, added, deleted, commits)
  {
    StatFieldsRoundTrip(added, deleted, net);
    CommitCountRoundTrip(pad, commits);
  }

  // ---------------------------------------------------------------------------
  // One repository.

  datatype Report = Report(name: string, path: string, contributors: seq<AuthorStat>)

  /** The records of `authors`, in order. */
  function StatsFor(git: Oracle, repoPath: string, authors: seq<string>): (cs: seq<AuthorStat>)
    ensures |cs| == |authors| && AllWellFormed(cs)
    ensures forall i :: 0 <= i < |authors| ==> cs[i] == AuthorStats(git, repoPath, authors[i])
  {
    Map(author => AuthorStats(git, repoPath, author), authors)
  }

  /** The report `analyze_repository` returns. */
  function RepositoryReport(git: Oracle, repoPath: string): Report {
    Report(PyBasename(repoPath), repoPath, SortByChanges(StatsFor(git, repoPath, Authors(git, repoPath))))
  }

  /** `analyze_repository`: a record per author, appended in order, then sorted. */
  method AnalyzeRepository(git: Oracle, repoPath: string) returns (r: Report)
    ensures r == RepositoryReport(git, repoPath)
  {
    var repoName := PyBasename(repoPath);
    var authors := Authors(git, repoPath);
    var contributors: seq<AuthorStat> := [];
    ghost var record := author => AuthorStats(git, repoPath, author);
    for i := 0 to |authors|
      invariant contributors == Map(record, authors[..i])
    {
      var stats := GetAuthorStats(git, repoPath, authors[i]);
      MapPrefix(record, authors, i);
      contributors := contributors + [stats];
    }
    assert authors[..|authors|] == authors;
    contributors := SortByChanges(contributors);
    r := Report(repoName, repoPath, contributors);
  }

  /** One contributor per author, sorted by non-increasing total with ties in author
      order, each with `totalChanges == added + deleted`. */
  lemma ReportContributors(git: Oracle, repoPath: string)
    ensures var r := RepositoryReport(git, repoPath);
      var stats := StatsFor(git, repoPath, Authors(git, repoPath));
      && |r.contributors| == |stats|
      && multiset(r.contributors) == multiset(stats)
      && Sorted(r.contributors)
      && (forall k :: WithChanges(r.contributors, k) == WithChanges(stats, k))
      && AllWellFormed(r.contributors)
  {
    var r := RepositoryReport(git, repoPath);
    var stats := StatsFor(git, repoPath, Authors(git, repoPath));
    SortByChangesSorted(stats);
    SortByChangesPermutes(stats);
    forall k
      ensures WithChanges(r.contributors, k) == WithChanges(stats, k)
    {
      SortByChangesStable(stats, k);
    }
    forall i | 0 <= i < |r.contributors|
      ensures WellFormed(r.contributors[i])
    {
      assert r.contributors[i] in multiset(stats);
    }
  }

  /** The report of a discovered repository is named after its directory. */
  lemma ReportName(git: Oracle, dir: string, name: string)
    requires '/' !in name && name != []
    ensures RepositoryReport(git, JoinPath(dir, name)).name == name
  {
    BasenameOfJoin(dir, name);
  }

  // ---------------------------------------------------------------------------
  // The folder.

  datatype FolderResult =
    | Failed(message: string)
    | Succeeded(notice: Option<string>, repositories: seq<Report>, total: Totals)

  /** The paths whose analysis does not raise, in order; `raises` stands for the
      faults outside this model that make `analyze_repository` raise for a path. */
  function Analysable(raises: string -> bool, paths: seq<string>): (kept: seq<string>)
    ensures |kept| <= |paths|
  {
    if paths == [] then []
    else
      var init, last := paths[..|paths| - 1], paths[|paths| - 1];
      Analysable(raises, init) + (if raises(last) then [] else [last])
  }

  /** The reports of `paths`, in order. */
  function Reports(git: Oracle, paths: seq<string>): (rs: seq<Report>)
    ensures |rs| == |paths|
    ensures forall i :: 0 <= i < |paths| ==> rs[i] == RepositoryReport(git, paths[i])
  {
    Map(path => RepositoryReport(git, path), paths)
  }

  function ContributorLists(rs: seq<Report>): (lists: seq<seq<AuthorStat>>)
    ensures |lists| == |rs| && forall i :: 0 <= i < |rs| ==> lists[i] == rs[i].contributors
  {
    seq(|rs|, i requires 0 <= i < |rs| => rs[i].contributors)
  }

  /** What `analyze_folder` returns for `folder_path` and the file system there
      (None when the path does not exist). */
  function FolderAnalysis(git: Oracle, raises: string -> bool, folderPath: string, root: Option<Entry>): FolderResult {
    if folderPath == [] || root == None then Failed("文件夹路径不存在")
    else
      var found := GitStatsDiscovery.Kept(GitStatsDiscovery.Glob(root.value, folderPath));
      if found == [] then Succeeded(Some("未找到Git仓库"), [], ZeroTotals)
      else
        var reports := Reports(git, Analysable(raises, found));
        Succeeded(None, reports, TotalsOf(ContributorLists(reports), |found|))
  }

  /** `analyze_folder`: discovery, the zero-repository answer, the analysis loop that
      drops a repository whose analysis raises, and the totals fold. */
  method AnalyzeFolder(git: Oracle, raises: string -> bool, folderPath: string, root: Option<Entry>) returns (res: FolderResult)
    ensures res == FolderAnalysis(git, raises, folderPath, root)
  {
    if folderPath == [] || root == None {
      return Failed("文件夹路径不存在");
    }
    var repositories := GitStatsDiscovery.FindGitRepositories(folderPath, root.value);
    if |repositories| == 0 {
      return Succeeded(Some("未找到Git仓库"), [], ZeroTotals);
    }
    var repoStats: seq<Report> := [];
    ghost var analysed: seq<string> := [];
    ghost var report := path => RepositoryReport(git, path);
    for i := 0 to |repositories|
      invariant analysed == Analysable(raises, repositories[..i])
      invariant repoStats == Map(report, analysed)
    {
      var repoPath := repositories[i];
      assert repositories[..i + 1][..i] == repositories[..i];
      if !raises(repoPath) {
        var stats := AnalyzeRepository(git, repoPath);
        MapAppend(report, analysed, repoPath);
        repoStats := repoStats + [stats];
        analysed := analysed + [repoPath];
      }
    }
    assert repositories[..|repositories|] == repositories;
    var total := FoldTotals(ContributorLists(repoStats), |repositories|);
    res := Succeeded(None, repoStats, total);
  }

  /** Every path is kept, unless its analysis raises. */
  lemma {:induction false} AnalysableAll(raises: string -> bool, paths: seq<string>)
    requires forall p :: p in paths ==> !raises(p)
    ensures Analysable(raises, paths) == paths
  {
    if paths != [] {
      var init, last := paths[..|paths| - 1], paths[|paths| - 1];
      assert paths == init + [last];
      assert !raises(last);
      AnalysableAll(raises, init);
    }
  }

  /** The positions in `paths` of the paths `Analysable` keeps. */
  function AnalysableIndices(raises: string -> bool, paths: seq<string>): (idx: seq<nat>)
    ensures |idx| == |Analysable(raises, paths)|
  {
    if paths == [] then []
    else
      var init := paths[..|paths| - 1];
      AnalysableIndices(raises, init) + (if raises(paths[|paths| - 1]) then [] else [|paths| - 1])
  }

  /** `kept` is made of the elements of `paths` at the strictly increasing positions `idx`. */
  predicate PicksInOrder(paths: seq<string>, kept: seq<string>, idx: seq<nat>)
  {
    && |idx| == |kept|
    && (forall k :: 0 <= k < |idx| ==> idx[k] < |paths| && kept[k] == paths[idx[k]])
    && (forall k, l :: 0 <= k < l < |idx| ==> idx[k] < idx[l])
  }

  /** The kept paths appear in discovery order. */
  lemma {:induction false} AnalysableInOrder(raises: string -> bool, paths: seq<string>)
    ensures PicksInOrder(paths, Analysable(raises, paths), AnalysableIndices(raises, paths))
  {
    if paths != [] {
      var init, last := paths[..|paths| - 1], paths[|paths| - 1];
      assert paths == init + [last];
      AnalysableInOrder(raises, init);
    }
  }

  /** A path is kept exactly as often as it was discovered, unless its analysis raises. */
  lemma {:induction false} AnalysableCounts(raises: string -> bool, paths: seq<string>, p: string)
    ensures multiset(Analysable(raises, paths))[p] == if raises(p) then 0 else multiset(paths)[p]
  {
    if paths != [] {
      var init, last := paths[..|paths| - 1], paths[|paths| - 1];
      assert paths == init + [last];
      AnalysableCounts(raises, init, p);
    }
  }

  /** The kept paths are exactly the paths whose analysis does not raise. */
  lemma {:induction false} AnalysableMembers(raises: string -> bool, paths: seq<string>)
    ensures forall p :: p in Analysable(raises, paths) <==> p in paths && !raises(p)
  {
    if paths != [] {
      var init, last := paths[..|paths| - 1], paths[|paths| - 1];
      AnalysableMembers(raises, init);
      assert paths == init + [last];
    }
  }

  /** The reports kept for the discovered paths `found`: in discovery order, one
      for each path whose analysis did not raise (every path when none raises),
      with totals that count every path and satisfy
      `totalChanges == totalAdded + totalDeleted`. */
  lemma AnalysedReports(git: Oracle, raises: string -> bool, found: seq<string>)
    ensures |found| >= |Analysable(raises, found)|
    ensures forall p :: p in Analysable(raises, found) <==> p in found && !raises(p)
    ensures forall p :: multiset(Analysable(raises, found))[p] == if raises(p) then 0 else multiset(found)[p]
    ensures PicksInOrder(found, Analysable(raises, found), AnalysableIndices(raises, found))
    ensures (forall p :: p in found ==> !raises(p)) ==> Analysable(raises, found) == found
    ensures forall i :: 0 <= i < |Analysable(raises, found)| ==>
      Reports(git, Analysable(raises, found))[i] == RepositoryReport(git, Analysable(raises, found)[i])
    ensures var t := TotalsOf(ContributorLists(Reports(git, Analysable(raises, found))), |found|);
      t.repositoryCount == |found| && t.totalChanges == t.totalAdded + t.totalDeleted
  {
    var analysed := Analysable(raises, found);
    AnalysableMembers(raises, found);
    forall p
      ensures multiset(analysed)[p] == if raises(p) then 0 else multiset(found)[p]
    {
      AnalysableCounts(raises, found, p);
    }
    AnalysableInOrder(raises, found);
    if forall p :: p in found ==> !raises(p) {
      AnalysableAll(raises, found);
    }
    var lists := ContributorLists(Reports(git, analysed));
    forall i | 0 <= i < |lists|
      ensures AllWellFormed(lists[i])
    {
      ReportContributors(git, analysed[i]);
    }
    FlattenWellFormed(lists);
    TotalsIdentity(lists, |found|);
  }

  /** `analyze_folder` fails exactly on a missing path, without any discovery; it
      answers "no repository found" with all-zero totals exactly when discovery
      finds none; otherwise it reports the repositories `AnalysedReports`
      describes, with the totals of their contributors. */
  lemma FolderOutcome(git: Oracle, raises: string -> bool, folderPath: string, root: Option<Entry>)
    ensures var res := FolderAnalysis(git, raises, folderPath, root);
      && (res.Failed? <==> folderPath == [] || root == None)
      && (res.Succeeded? ==>
           var found := GitStatsDiscovery.Kept(GitStatsDiscovery.Glob(root.value, folderPath));
           && (res.notice.Some? <==> found == [])
           && (found == [] ==> res.repositories == [] && res.total == ZeroTotals)
           && (found != [] ==> res.repositories == Reports(git, Analysable(raises, found)))
           && res.total == TotalsOf(ContributorLists(res.repositories), |found|)
           && res.total.totalChanges == res.total.totalAdded + res.total.totalDeleted)
  {
    if folderPath != [] && root != None {
      var found := GitStatsDiscovery.Kept(GitStatsDiscovery.Glob(root.value, folderPath));
      if found != [] {
        AnalysedReports(git, raises, found);
      }
    }
  }
}
