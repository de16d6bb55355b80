/** The analysis side of the Node backend: reading the git pipelines' output
    (`getRepositoryBranches`, `getRepositoryAuthors`, `getAuthorStats`), building
    one repository report (`analyzeRepository`), and the scan of a folder done by
    the `/api/analyze` handler, with its totals fold and its zero-repository answer. */
module ServerAnalysis {
  import opened Wrappers
  import opened Strings
  import opened Numbers
  import opened FileTree
  import opened Git
  import opened Contributions
  import opened Sequences
  import ServerDiscovery

  // ---------------------------------------------------------------------------
  // Branch and author lists.

  /** `getRepositoryBranches`: the trimmed non-empty lines, each kept once at its
      first place; a failed pipeline gives no branch. */
  function Branches(out: Option<string>): (bs: seq<string>)
    ensures out == None ==> bs == []
  {
    match out
    case None => []
    case Some(s) => Dedup(TrimmedNonBlank(Split(s, '\n'), IsJsSpace))
  }

  /** The branches read from the output `s` are distinct, trimmed and non-empty;
      they are exactly the non-empty trimmed lines of `s`, in the order of their
      first appearance. */
  lemma BranchesContents(s: string)
    ensures NoDuplicates(Branches(Some(s)))
    ensures forall b :: b in Branches(Some(s)) ==> b != [] && IsTrimmed(b, IsJsSpace)
    ensures forall b :: b in Branches(Some(s)) <==> b != [] && b in TrimAll(Split(s, '\n'), IsJsSpace)
    ensures InFirstOrder(Branches(Some(s)), TrimmedNonBlank(Split(s, '\n'), IsJsSpace))
  {
    DistinctTrimmedContents(Split(s, '\n'), IsJsSpace);
  }

  /** `getRepositoryAuthors`: the trimmed non-empty lines in order; a failed
      pipeline gives no author. */
  function Authors(out: Option<string>): (authors: seq<string>)
    ensures out == None ==> authors == []
  {
    match out
    case None => []
    case Some(s) => TrimmedNonBlank(Split(s, '\n'), IsJsSpace)
  }

  /** The authors are trimmed and non-empty; they are exactly the non-empty trimmed
      lines, and there are no more of them than lines. */
  lemma AuthorsContents(out: Option<string>)
    ensures var authors := Authors(out);
      && (forall a :: a in authors ==> a != [] && IsTrimmed(a, IsJsSpace))
      && (out.Some? ==> var lines := Split(out.value, '\n');
           && |authors| <= |lines|
           && forall a :: a in authors <==> a != [] && a in TrimAll(lines, IsJsSpace))
  {
    if out.Some? {
      TrimmedNonBlankMembers(Split(out.value, '\n'), IsJsSpace);
    }
  }

  /** Names that can be printed one per line and read back unchanged. */
  predicate PrintableNames(names: seq<string>) {
    forall i :: 0 <= i < |names| ==> names[i] != [] && IsTrimmed(names[i], IsJsSpace) && '\n' !in names[i]
  }

  /** The branch list reads back the distinct branch names the pipeline printed. */
  lemma BranchesRoundTrip(names: seq<string>)
    requires PrintableNames(names) && NoDuplicates(names)
    ensures Branches(Some(Lines(names))) == names
  {
    LinesRoundTrip(names, IsJsSpace);
    DedupDistinct(names);
  }

  /** The author list reads back the names `sort -u` printed. */
  lemma AuthorsRoundTrip(names: seq<string>)
    requires PrintableNames(names)
    ensures Authors(Some(Lines(names))) == names
  {
    LinesRoundTrip(names, IsJsSpace);
  }

  lemma NoOutputNoAuthors()
    ensures Authors(Some("")) == []
  {
    LinesRoundTrip([], IsJsSpace);
    assert Lines([]) == "";
  }

  // ---------------------------------------------------------------------------
  // One author's statistics.

  /** `statsOutput.trim().split(',').map(n => parseInt(n) || 0)` destructured into
      `[added, deleted]` exactly as written: with no comma, `deleted` is undefined
      (None), and `added + deleted` is then NaN. */
  function StatFieldsAsWritten(statsOutput: string): (int, Option<int>) {
    var parts := Split(Trim(statsOutput, IsJsSpace), ',');
    (JsIntOrZero(parts[0]), if |parts| > 1 then Some(JsIntOrZero(parts[1])) else None)
  }

  /** A stat line without a comma leaves `deleted` undefined, so the record's total is not a number. */
  lemma StatWithoutCommaAsWritten()
    ensures StatFieldsAsWritten("7") == (7, None)
  {
    assert IntText(7) == "7";
    TrimTrimmed("7", IsJsSpace);
    SplitPlain("7", ',');
    JsIntOrZeroText(7);
  }

  /** The stat fields with every missing or unreadable field read as 0, which is
      what the rest of the model uses. */
  function StatFields(statsOutput: string): (int, int) {
    var parts := Split(Trim(statsOutput, IsJsSpace), ',');
    (JsIntOrZero(parts[0]), if |parts| > 1 then JsIntOrZero(parts[1]) else 0)
  }

  /** Without a comma, the code as written leaves `deleted` undefined, whereas the
      corrected reading gives 0; both read `added` the same way. */
  lemma StatFieldsWithoutComma(statsOutput: string)
    requires ',' !in Trim(statsOutput, IsJsSpace)
    ensures StatFieldsAsWritten(statsOutput).1 == None
    ensures StatFields(statsOutput) == (JsIntOrZero(Trim(statsOutput, IsJsSpace)), 0)
    ensures StatFields(statsOutput).0 == StatFieldsAsWritten(statsOutput).0
  {
    SplitPlain(Trim(statsOutput, IsJsSpace), ',');
  }

  /** Read back, `awk`'s line gives the added and deleted sums it printed. */
  lemma StatFieldsRoundTrip(added: int, deleted: int, net: int)
    ensures StatFields(AwkOutput(added, deleted, net)) == (added, deleted)
    ensures StatFieldsAsWritten(AwkOutput(added, deleted, net)) == (added, Some(deleted))
  {
    AwkTrim(added, deleted, net, IsJsSpace);
    AwkSplit(added, deleted, net);
    JsIntOrZeroText(added);
    JsIntOrZeroText(deleted);
  }

  /** With no matching commit `awk` prints `,,` and every field reads as 0. */
  lemma StatFieldsNoCommits()
    ensures StatFields(",,\n") == (0, 0)
  {
    assert ",,\n" == [] + ",," + "\n";
    TrimPadded([], ",,", "\n", IsJsSpace);
    assert ",," == [] + [','] + ([] + [','] + []);
    SplitPlain([], ',');
    SplitAtSeparator([], [], ',');
    SplitAtSeparator([], [] + [','] + [], ',');
    JsParseIntNaN([]);
  }

  /** `getAuthorStats`: if either pipeline fails the author gets an all-zero record;
      otherwise the two stat fields and the commit count are read with
      `parseInt(n) || 0`, and the total is their sum. */
  function AuthorStats(git: Oracle, repoPath: string, author: string, scope: string): (s: AuthorStat)
    ensures WellFormed(s) && s.author == author
    ensures git(repoPath, NumStat(author, scope)) == None || git(repoPath, CountCommits(author, scope)) == None ==> s == Zero(author)
  {
    match git(repoPath, NumStat(author, scope))
    case None => Zero(author)
    case Some(statsOutput) =>
      match git(repoPath, CountCommits(author, scope))
      case None => Zero(author)
      case Some(commitsOutput) =>
        var fields := StatFields(statsOutput);
        Record(author, fields.0, fields.1, JsIntOrZero(Trim(commitsOutput, IsJsSpace)))
  }

  /** When the pipelines print their sums and count, the record holds exactly them. */
  lemma AuthorStatsOfOutput(git: Oracle, repoPath: string, author: string, scope: string,
                            added: int, deleted: int, net: int, pad: string, commits: nat)
    requires git(repoPath, NumStat(author, scope)) == Some(AwkOutput(added, deleted, net))
    requires git(repoPath, CountCommits(author, scope)) == Some(WcOutput(pad, commits))
    requires AllSpace(pad, IsJsSpace)
    ensures AuthorStats(git, repoPath, author, scope) == Record(author, added, deleted, commits)
  {
    StatFieldsRoundTrip(added, deleted, net);
    WcRead(pad, commits);
  }

  lemma WcRead(pad: string, commits: nat)
    requires AllSpace(pad, IsJsSpace)
    ensures JsIntOrZero(Trim(WcOutput(pad, commits), IsJsSpace)) == commits
  {
    WcTrim(pad, commits, IsJsSpace);
    JsIntOrZeroText(commits);
    assert IntText(commits) == Decimal(commits);
  }

  // ---------------------------------------------------------------------------
  // One repository.

  /** The report's `branch` field. */
  function BranchLabel(scope: string): (shown: string)
    ensures scope == AllBranches ==> shown == "所有分支"
    ensures scope != AllBranches ==> shown == scope
  {
    if scope == AllBranches then "所有分支" else scope
  }

  datatype Repository = Repository(
    name: string, path: string, branch: string, branches: seq<string>, contributors: seq<AuthorStat>)

  /** The per-author records, in the order the authors were listed. */
  function StatsFor(git: Oracle, repoPath: string, authors: seq<string>, scope: string): (cs: seq<AuthorStat>)
    ensures |cs| == |authors| && AllWellFormed(cs)
    ensures forall i :: 0 <= i < |authors| ==> cs[i] == AuthorStats(git, repoPath, authors[i], scope)
  {
    Map(author => AuthorStats(git, repoPath, author, scope), authors)
  }

  /** The report `analyzeRepository` returns. */
  function RepositoryReport(git: Oracle, repoPath: string, scope: string): Repository {
    var authors := Authors(git(repoPath, ListAuthors(scope)));
    Repository(NodeBasename(repoPath), repoPath, BranchLabel(scope), Branches(git(repoPath, ListBranches)),
               SortByChanges(StatsFor(git, repoPath, authors, scope)))
  }

  /** `analyzeRepository`: a record per listed author, pushed in order, then sorted. */
  method AnalyzeRepository(git: Oracle, repoPath: string, scope: string) returns (r: Repository)
    ensures r == RepositoryReport(git, repoPath, scope)
  {
    var repoName := NodeBasename(repoPath);
    var branchDisplay := BranchLabel(scope);
    var branches := Branches(git(repoPath, ListBranches));
    var authors := Authors(git(repoPath, ListAuthors(scope)));
    var contributors: seq<AuthorStat> := [];
    ghost var record := author => AuthorStats(git, repoPath, author, scope);
    for i := 0 to |authors|
      invariant contributors == Map(record, authors[..i])
    {
      var stats := AuthorStats(git, repoPath, authors[i], scope);
      MapPrefix(record, authors, i);
      contributors := contributors + [stats];
    }
    assert authors[..|authors|] == authors;
    contributors := SortByChanges(contributors);
    r := Repository(repoName, repoPath, branchDisplay, branches, contributors);
  }

  /** A report has one contributor per listed author: its contributors are the
      per-author records rearranged, sorted by non-increasing total, with equal
      totals in author-list order, and each with `totalChanges == added + deleted`. */
  lemma ReportContributors(git: Oracle, repoPath: string, scope: string)
    ensures var r := RepositoryReport(git, repoPath, scope);
      var stats := StatsFor(git, repoPath, Authors(git(repoPath, ListAuthors(scope))), scope);
      && |r.contributors| == |stats|
      && multiset(r.contributors) == multiset(stats)
      && Sorted(r.contributors)
      && (forall k :: WithChanges(r.contributors, k) == WithChanges(stats, k))
      && AllWellFormed(r.contributors)
  {
    var r := RepositoryReport(git, repoPath, scope);
    var stats := StatsFor(git, repoPath, Authors(git(repoPath, ListAuthors(scope))), scope);
    SortByChangesSorted(stats);
    SortByChangesPermutes(stats);
    forall k
      ensures WithChanges(r.contributors, k) == WithChanges(stats, k)
    {
      SortByChangesStable(stats, k);
    }
    forall i | 0 <= i < |r.contributors|
      ensures WellFormed(r.contributors[i])
    {
      assert r.contributors[i] in multiset(stats);
    }
  }

  /** A repository whose author pipeline fails or prints nothing has no contributors. */
  lemma ReportWithoutAuthors(git: Oracle, repoPath: string, scope: string)
    requires git(repoPath, ListAuthors(scope)) == None || git(repoPath, ListAuthors(scope)) == Some("")
    ensures RepositoryReport(git, repoPath, scope).contributors == []
  {
    NoOutputNoAuthors();
  }

  /** The report of a discovered repository is named after its directory. */
  lemma ReportName(git: Oracle, dir: string, name: string, scope: string)
    requires '/' !in name && name != []
    ensures RepositoryReport(git, JoinPath(dir, name), scope).name == name
  {
    BasenameOfJoin(dir, name);
  }

  // ---------------------------------------------------------------------------
  // The `/api/analyze` handler.

  datatype Analysis =
    | Rejected(message: string)
    | Analysed(notice: Option<string>, repositories: seq<Repository>, total: Totals)

  /** The branch scope the handler uses: an absent or empty `branch` means every branch. */
  function SelectedScope(branch: string): string {
    if branch == [] then AllBranches else branch
  }

  /** The reports of `paths`, in order. */
  function Reports(git: Oracle, paths: seq<string>, scope: string): (rs: seq<Repository>)
    ensures |rs| == |paths|
    ensures forall i :: 0 <= i < |paths| ==> rs[i] == RepositoryReport(git, paths[i], scope)
  {
    Map(path => RepositoryReport(git, path, scope), paths)
  }

  function ContributorLists(rs: seq<Repository>): (lists: seq<seq<AuthorStat>>)
    ensures |lists| == |rs| && forall i :: 0 <= i < |rs| ==> lists[i] == rs[i].contributors
  {
    seq(|rs|, i requires 0 <= i < |rs| => rs[i].contributors)
  }

  /** What the handler answers for `folderPath` (empty when missing), the requested
      `branch`, and the file system at that path (None when it cannot be accessed). */
  function AnalysisOf(git: Oracle, folderPath: string, branch: string, root: Option<Entry>): Analysis {
    if folderPath == [] then Rejected("请提供文件夹路径")
    else if root == None then Rejected("文件夹路径不存在或无法访问")
    else
      var found := ServerDiscovery.Walk(root.value, folderPath);
      if found == [] then Analysed(Some("未找到Git仓库"), [], ZeroTotals)
      else
        var reports := Reports(git, found, SelectedScope(branch));
        Analysed(None, reports, TotalsOf(ContributorLists(reports), |found|))
  }

  /** The handler: validation, discovery, the zero-repository answer, one report per
      repository in discovery order, and the totals fold. */
  method Analyze(git: Oracle, folderPath: string, branch: string, root: Option<Entry>) returns (a: Analysis)
    ensures a == AnalysisOf(git, folderPath, branch, root)
  {
    var selectedBranch := SelectedScope(branch);
    if folderPath == [] {
      return Rejected("请提供文件夹路径");
    }
    if root == None {
      return Rejected("文件夹路径不存在或无法访问");
    }
    var repositories := ServerDiscovery.FindGitRepositories(folderPath, root.value);
    if |repositories| == 0 {
      return Analysed(Some("未找到Git仓库"), [], ZeroTotals);
    }
    var repoStats: seq<Repository> := [];
    ghost var report := path => RepositoryReport(git, path, selectedBranch);
    for i := 0 to |repositories|
      invariant repoStats == Map(report, repositories[..i])
    {
      var stats := AnalyzeRepository(git, repositories[i], selectedBranch);
      MapPrefix(report, repositories, i);
      repoStats := repoStats + [stats];
    }
    assert repositories[..|repositories|] == repositories;
    var total := FoldTotals(ContributorLists(repoStats), |repositories|);
    a := Analysed(None, repoStats, total);
  }

  /** The handler rejects exactly a missing or inaccessible folder, answers "no
      repository found" with all-zero totals exactly when the walk finds none, and
      otherwise reports every discovered repository, with totals that count them,
      fold every contributor and satisfy `totalChanges == totalAdded + totalDeleted`. */
  lemma AnalysisOutcome(git: Oracle, folderPath: string, branch: string, root: Option<Entry>)
    ensures var a := AnalysisOf(git, folderPath, branch, root);
      && (a.Rejected? <==> folderPath == [] || root == None)
      && (a.Analysed? ==> var found := ServerDiscovery.Walk(root.value, folderPath);
           && (a.notice.Some? <==> found == [])
           && (found == [] ==> a.repositories == [] && a.total == ZeroTotals)
           && |a.repositories| == |found| == a.total.repositoryCount
           && (forall i :: 0 <= i < |found| ==> a.repositories[i] == RepositoryReport(git, found[i], SelectedScope(branch)))
           && a.total == TotalsOf(ContributorLists(a.repositories), |found|)
           && a.total.totalChanges == a.total.totalAdded + a.total.totalDeleted)
  {
    var a := AnalysisOf(git, folderPath, branch, root);
    if a.Analysed? {
      var found := ServerDiscovery.Walk(root.value, folderPath);
      var lists := ContributorLists(a.repositories);
      forall i | 0 <= i < |lists|
        ensures AllWellFormed(lists[i])
      {
        ReportContributors(git, found[i], SelectedScope(branch));
      }
      FlattenWellFormed(lists);
      TotalsIdentity(lists, |a.repositories|);
    }
  }
}
