# Git contribution statistics, modelled in Dafny

The repository scans a folder for Git repositories and reports, per repository
and in total, how many lines each author added and deleted and how many commits
they made. It does this twice: a Node backend (`backend/server.js`) that serves
the scan over HTTP and streams progress over server-sent events, and a
stand-alone Python script (`scripts/git_stats.py`). This project models the core
of both:

- **Repository discovery.**
  - Node walks the tree depth first. It skips hidden entries other than `.git` and four dependency directory names, and it ignores directories it cannot read.
  - Python uses `Path.rglob('.git')`, which enters every directory. It then drops any parent whose path text contains one of nine skip names.
  - Both are modelled on a directory tree (`FileTree.Entry`).
- **Reading the git pipelines.**
  - The pipelines are the branch list, the author list (`sort -u`), the `--numstat | awk` sums and the `--oneline | wc -l` count.
  - Git itself is an injected oracle (`Git.Oracle`). It maps a repository path and a pipeline to that pipeline's standard output, or to `None` when running it fails.
  - Parsing follows each language's own rules, with the one exception recorded under "## Findings":
    - JavaScript `String.prototype.trim` and `parseInt(n) || 0`;
    - Python `str.strip`, `int()` (with sign and digit-group underscores) and `str.isdigit`.
- **Per-author records and per-repository reports:**
  - a stable sort by `totalChanges`, largest first;
  - the fold that computes the `total` object;
  - the zero-repository answer and the error answers.
- **The SSE session registry** (`sseClients`) of the Node backend. It is a class with `SendLog`, `Open` and `Close`.

Module layout:

- `Wrappers`, `Strings`, `Numbers` and `FileTree` are shared foundations.
- `Git` holds the pipeline oracle.
- `Contributions` holds records, sorting and totals, which both sides share.
- `ServerDiscovery` and `ServerAnalysis` model `backend/server.js`.
- `GitStatsDiscovery` and `GitStats` model `scripts/git_stats.py`.
- `Sessions` models the server's log stream registry.

Modelling choices:

- **The file system** is a parameter.
  - The handler and `analyze_folder` receive `Option<Entry>`. `None` means the path does not exist, or `fs.access` fails.
  - A directory's `readable` flag says whether it can be both listed and searched. Partial permissions are not modelled (see "## Left out").
- **Generic versus concrete.** The lemmas hold for every oracle and every tree. Concrete values appear only in a few example lemmas: those that read back a pipeline's printed text, `GitStats.StatFieldsStopAtErrorExample`, and the two-repository scenario `Contributions.TwoRepositoryScenario`.
- **The sort.** Both `Array.prototype.sort` (stable since ES2019) and Python's `list.sort(reverse=True)` keep the input order of equal keys. One stable insertion sort, `Contributions.SortByChanges`, stands for both.
- **Points where the model follows the code as written** (it departs from the code only in the Node stat reading under "## Findings"):
  - Python's `get_author_stats` assigns the three fields one after another inside one `try`. A field that fails to parse leaves the later ones at 0, but keeps the earlier ones.
  - `run_command` returns the stripped output even when git exits with a non-zero status. The oracle's `None` stands only for an exception (a timeout, a failure to start), and reads as `""`.
  - Python's failure message is `文件夹路径不存在`. Node has two: `请提供文件夹路径` and `文件夹路径不存在或无法访问`.

## Model

| member | source | states |
|---|---|---|
| ServerDiscovery.SearchDirectory | backend/server.js:90-124 | the shared list after a call is the list before it followed by exactly what the walk of that directory yields; an unreadable directory adds nothing; `.git` directories add their parent and are not entered |
| ServerDiscovery.FindGitRepositories | backend/server.js:87-128 | the result is the walk of the root from an empty list |
| ServerDiscovery.WalkFinds | backend/server.js:94-113 | a path is found if and only if it is the end of a route from the root through listable directories, none hidden, a dependency directory or `.git`, to a listed `.git` directory |
| ServerDiscovery.SkippedNotSearched | backend/server.js:97-99 | replacing a hidden or dependency entry by anything of the same name leaves the result unchanged: such entries are never searched |
| ServerDiscovery.GitNotSearched | backend/server.js:101-108 | the contents of a `.git` directory do not affect the result |
| ServerDiscovery.FileNotSearched | backend/server.js:101 | an entry that is not a directory, a `.git` file included, contributes nothing |
| ServerAnalysis.Branches | backend/server.js:145-148 | a failed pipeline gives no branches |
| ServerAnalysis.BranchesContents | backend/server.js:133-144 | the branches have no duplicates, are non-empty and trimmed, are exactly the non-empty trimmed lines, and keep the order in which each first appears |
| ServerAnalysis.BranchesRoundTrip | backend/server.js:133-144 | printing distinct branch names one per line and reading them back gives the same list |
| ServerAnalysis.Authors | backend/server.js:164-167 | a failed pipeline gives no authors |
| ServerAnalysis.AuthorsContents | backend/server.js:155-163 | the authors are non-empty and trimmed, no more of them than lines, and are exactly the non-empty trimmed lines |
| ServerAnalysis.AuthorsRoundTrip | backend/server.js:155-163 | reading `sort -u`'s lines back gives the printed names |
| ServerAnalysis.NoOutputNoAuthors | backend/server.js:160-163 | empty output yields no authors |
| ServerAnalysis.StatWithoutCommaAsWritten | backend/server.js:182 | as written, a stat line without a comma yields an undefined `deleted` (the as-written half of the finding below) |
| ServerAnalysis.StatFieldsWithoutComma | backend/server.js:182 | for any stat line without a comma, the code as written leaves `deleted` undefined, while the corrected reading gives 0 and reads `added` the same way |
| ServerAnalysis.StatFieldsRoundTrip | backend/server.js:176-182 | `awk`'s printed line is read back as the added and deleted sums it printed, both by the corrected and by the as-written reading |
| ServerAnalysis.StatFieldsNoCommits | backend/server.js:176-182 | `awk`'s output `,,` for an author with no commits reads as zero added and zero deleted |
| ServerAnalysis.AuthorStats | backend/server.js:171-210 | the record is well formed (`totalChanges == added + deleted`) and names the author, and it is all zero when either pipeline fails |
| ServerAnalysis.AuthorStatsOfOutput | backend/server.js:176-199 | when the pipelines print sums and a padded count, the record holds exactly those values |
| ServerAnalysis.WcRead | backend/server.js:185-191 | `wc -l`'s padded count reads back as the count |
| ServerAnalysis.BranchLabel | backend/server.js:215 | `--all` is shown as `所有分支`, any other scope as itself |
| ServerAnalysis.StatsFor | backend/server.js:235-241 | one well-formed record per listed author, the i-th being the i-th author's `AuthorStats` |
| ServerAnalysis.AnalyzeRepository | backend/server.js:213-263 | the loop's report equals `RepositoryReport`: basename, branch label, branch list and the sorted per-author records |
| ServerAnalysis.ReportContributors | backend/server.js:235-248 | the contributors are a permutation of the per-author records, sorted by non-increasing total, equal totals kept in author order, each well formed |
| ServerAnalysis.ReportWithoutAuthors | backend/server.js:226-241 | a failing or silent author pipeline gives a report with no contributors |
| ServerAnalysis.ReportName | backend/server.js:214 | a discovered repository's report is named after its directory |
| ServerAnalysis.Reports | backend/server.js:338-346 | one report per discovered repository, the i-th being the i-th repository's `RepositoryReport` |
| ServerAnalysis.Analyze | backend/server.js:271-392 | the handler's answer equals `AnalysisOf` for every input |
| ServerAnalysis.AnalysisOutcome | backend/server.js:276-392 | rejected exactly for a missing or inaccessible folder; the "no repository" notice with all-zero totals exactly when none is found; otherwise one report per repository, `repositoryCount` equal to their number, totals folded over every contributor, and `totalChanges == totalAdded + totalDeleted` |
| Contributions.SortByChangesSorted | backend/server.js:247-248 | the sort's output is non-increasing in `totalChanges` |
| Contributions.SortByChangesPermutes | scripts/git_stats.py:113-114 | the sort's output is a permutation of its input |
| Contributions.InsertSorted | backend/server.js:247-248 | one insertion step keeps a non-increasing list non-increasing |
| Contributions.InsertStable | scripts/git_stats.py:113-114 | one insertion step keeps, for every total, the records having it in their order, with the inserted one last among them |
| Contributions.SortByChangesStable | scripts/git_stats.py:113-114 | for every total, the contributors having it keep their input order |
| Contributions.FoldTotals | backend/server.js:348-363 | the nested fold computes the totals function: distinct authors and the four sums over every contributor of every report |
| Contributions.ContributorCountMembers | scripts/git_stats.py:172-174 | a name is counted among the contributors if and only if some report lists it |
| Contributions.TotalsIdentity | backend/server.js:379-390 | the totals satisfy `totalChanges == totalAdded + totalDeleted`, keep the repository count, and count no more authors than records |
| Contributions.SumPermutation | backend/server.js:247-248 | sums and the author set do not depend on the order of the contributors, so sorting before the fold changes no total |
| Contributions.TwoRepositoryScenario | scripts/git_stats.py:165-193 | alice (50/10/5) and bob (5/0/1) in one repository and alice (20/20/3) in another give 2 repositories, 2 contributors, 75 added, 30 deleted, 105 changes, 9 commits, with alice ahead of bob |
| GitStatsDiscovery.FindGitRepositories | scripts/git_stats.py:36-54 | the loop keeps, in `rglob` order, the parent of each match that is a directory and whose path text contains no skip name |
| GitStatsDiscovery.GlobFinds | scripts/git_stats.py:47-48 | `rglob('.git')` yields a `.git` directory exactly at the end of each route through listable directories, hidden and dependency directories included |
| GitStatsDiscovery.KeptMembers | scripts/git_stats.py:47-52 | a path is kept if and only if it is the parent of a directory match and is not excluded |
| GitStatsDiscovery.KeptFinds | scripts/git_stats.py:36-54 | the script returns exactly the directories that hold a `.git` directory, are reachable through listable directories, and whose path text contains none of the skip names |
| FileTree.ParentOfJoin | backend/server.js:104 | the parent of `dir/name` is `dir` |
| FileTree.BasenameOfJoin | scripts/git_stats.py:101 | the base name of `dir/name` is `name`, by both Node's and Python's rule |
| Git.AwkSplit | backend/server.js:176 | `awk`'s line splits at its commas into the three printed numbers |
| Numbers.JsIntOrZeroText | backend/server.js:182 | `parseInt(n) \|\| 0` reads back any printed integer |
| Numbers.PyIntText | scripts/git_stats.py:79-80 | `int()` reads back any printed integer with surrounding white space |
| Numbers.PyIntRejects | scripts/git_stats.py:82 | `int()` raises on text with a character that is neither a digit, an underscore nor a leading sign |
| GitStats.RunCommand | scripts/git_stats.py:16-33 | the output is stripped of white space at both ends, and is empty when running the command raised |
| GitStats.AuthorList | scripts/git_stats.py:60-61 | empty output gives no authors |
| GitStats.AuthorListContents | scripts/git_stats.py:60-64 | the authors are non-empty and stripped, no more of them than lines, and are exactly the non-empty stripped lines |
| GitStats.AuthorsRoundTrip | scripts/git_stats.py:57-66 | reading `sort -u`'s lines back through `run_command` gives the printed names |
| GitStats.StatFieldsRoundTrip | scripts/git_stats.py:72-81 | `awk`'s stripped line reads back as the added and deleted sums it printed |
| GitStats.StatFieldsNoCommits | scripts/git_stats.py:76-81 | the `,,` of an author without commits reads as zero added and zero deleted |
| GitStats.FieldsReadAll | scripts/git_stats.py:77-83 | three fields that all parse give the first two as the added and deleted counts |
| GitStats.StatFieldsStopAtFirst | scripts/git_stats.py:77-83 | a first field that does not parse leaves both counts 0, whatever the later fields hold |
| GitStats.StatFieldsStopAtSecond | scripts/git_stats.py:77-83 | a second field that does not parse keeps the first count and leaves the second 0, whatever the third field holds |
| GitStats.StatFieldsStopAtErrorExample | scripts/git_stats.py:77-83 | `x,5,3` reads as (0, 0) and `5,x,3` as (5, 0) |
| GitStats.CommitCount | scripts/git_stats.py:88 | text that is not all digits counts no commits |
| GitStats.CommitCountRoundTrip | scripts/git_stats.py:86-88 | `wc -l`'s padded count reads back as the count |
| GitStats.AuthorStats | scripts/git_stats.py:69-96 | the record is well formed, names the author, has zero lines when the stat command raised and zero commits when the count command raised |
| GitStats.GetAuthorStats | scripts/git_stats.py:69-96 | the sequential assignments compute the `AuthorStats` record |
| GitStats.AuthorStatsOfOutput | scripts/git_stats.py:72-96 | when the pipelines print sums and a padded count, the record holds exactly those values |
| GitStats.StatsFor | scripts/git_stats.py:107-110 | one well-formed record per author, the i-th being the i-th author's `AuthorStats` |
| GitStats.AnalyzeRepository | scripts/git_stats.py:99-120 | the loop's report equals `RepositoryReport`: basename, path and the sorted records |
| GitStats.ReportContributors | scripts/git_stats.py:107-114 | the contributors are a permutation of the per-author records, sorted by non-increasing total, stable, each well formed |
| GitStats.ReportName | scripts/git_stats.py:101 | a discovered repository's report is named after its directory |
| GitStats.Analysable | scripts/git_stats.py:156-163 | no more repositories are analysed than were found |
| GitStats.AnalysableAll | scripts/git_stats.py:157-160 | when no analysis raises, every discovered repository is analysed, in order |
| GitStats.AnalysableMembers | scripts/git_stats.py:157-163 | a repository is analysed if and only if it was discovered and its analysis did not raise |
| GitStats.AnalysableInOrder | scripts/git_stats.py:156-163 | the analysed repositories are picked from the discovered ones at strictly increasing positions, so they keep discovery order |
| GitStats.AnalysableCounts | scripts/git_stats.py:156-163 | a repository is analysed exactly as many times as it was discovered, or never when its analysis raises |
| GitStats.AnalysedReports | scripts/git_stats.py:156-187 | the reports are those of the discovered repositories that did not raise, each as often as it was discovered and in discovery order, while `repositoryCount` counts every discovered repository and `totalChanges == totalAdded + totalDeleted` |
| GitStats.AnalyzeFolder | scripts/git_stats.py:123-195 | the function's result equals `FolderAnalysis` for every input |
| GitStats.FolderOutcome | scripts/git_stats.py:123-195 | fails exactly on a missing path; the "no repository" notice with all-zero totals exactly when none is found; otherwise the reports are those of the repositories that did not raise, `repositoryCount` counts every discovered repository, and the totals are folded with `totalChanges == totalAdded + totalDeleted` |
| Sessions.Registry.constructor | backend/server.js:23 | the registry starts with no session and nothing written |
| Sessions.Registry.SendLog | backend/server.js:26-48 | an unknown session changes nothing; a successful write appends the event to that session's stream; a failed write removes the session and writes nothing |
| Sessions.Registry.Open | backend/server.js:51-68 | the new stream replaces any earlier one for the id, then receives the connected message with type `success` |
| Sessions.Registry.Close | backend/server.js:79-83 | the session is removed and nothing is written |
| Sessions.ClosedSessionIsSilent | backend/server.js:26-28 | after closing a session, logging to it writes nothing, while another open session still receives its event |
| Sessions.ReopenReplaces | backend/server.js:64-67 | after reopening a session, events go to the new stream only |

## Left out

- Progress and console output: `console.log`/`console.error`, Python's `print`, the progress `sendLog` calls and the `formatNumber` summary lines. Their text is not modelled. In Node they change no result; in the script a `print` can raise, which the next lines describe.
- HTTP: routing, status codes, JSON encoding, CORS, the `/api/analyze-repo` endpoint, the `main` of the script, and the outer `catch` of the handler that answers 500.
- SSE transport:
  - the response headers, `flushHeaders` and `flush`;
  - the 30-second heartbeat timer;
  - the ISO timestamp and the JSON framing of each event.
  - The registry keeps only which stream each session writes to, and what was delivered.
- Running processes: shell quoting, an author name that breaks the command line, the buffer limit, the 30-second timeout. All of these reach the model only as the oracle's answer.
- `git --author` treats its argument as a regular expression, so one author's pipelines may count another's commits. The oracle's answer for each author is taken as given.
- Neither implementation removes duplicate author names. The model keeps duplicates too, and says nothing about them.
- File system:
  - symbolic links;
  - changes to the tree during the walk;
  - two entries with the same name in one directory;
  - a Python root that exists but is not a directory (`rglob` then yields nothing or raises, depending on the Python version; the model yields nothing);
  - path normalisation by `path.join` and `pathlib` (`.`/`..` segments, a root path with a trailing slash).
  - Paths are built as `dir + "/" + name`.
- The order in which `rglob` yields matches is modelled as a preorder ("this directory's `.git` first", as in Python 3.8–3.11). Later versions may order differently. `KeptFinds` states membership, which holds for any order.
- ServerDiscovery.WalkFinds: states which paths are found, not how often. Each route yields its path once, but two routes whose path text coincides would give a path twice.
- Numbers: JavaScript numbers are doubles, while the model uses unbounded integers. Sums beyond 2^53 lose precision in the source and not in the model.
- Numbers.PyInt: does not model non-ASCII digits, which Python's `int()` and `str.isdigit` also accept.
  - The `isdigit` test on a superscript digit followed by `int()` raises outside any `try` in `get_author_stats`. The model leaves that case to the `raises` parameter of `GitStats.AnalyzeFolder`.
- `GitStats.AnalyzeFolder`: which repositories make `analyze_repository` raise an `Exception` is a parameter (`raises`). It stands for faults outside the model that `except Exception` (scripts/git_stats.py:162) catches, such as a `UnicodeEncodeError` from the author-name `print` at scripts/git_stats.py:111 or the `ValueError` of the digit case above.
- GitStats.AnalyzeFolder: does not model a `BaseException` that is not an `Exception` (a `KeyboardInterrupt`, a `SystemExit`). Such an exception escapes the `except` and aborts the whole call instead of skipping one repository.
- GitStats.AnalyzeFolder: does not model a `print` that raises where nothing catches it. The prints at scripts/git_stats.py:131-136 run outside any `try`. The handler's print at scripts/git_stats.py:163 shows the same `repo_path` as the print at :102, so a path that makes :102 raise (a `UnicodeEncodeError`) raises again inside the `except`. Either way `analyze_folder` aborts instead of skipping one repository.
- FileTree.Entry: `readable` means a directory can be both listed and searched; partial permissions are not modelled. A directory that can be searched but not listed yields nothing in the model, whereas `rglob` in Python 3.8–3.11 still yields it and finds its `.git` by a `stat` of `D/.git`. The same holds for a directory that can be listed but not searched: the Node walk finds its `.git`, and Python's `stat` of `D/.git` fails.
- ServerAnalysis.AuthorStats: reads the stat line with the corrected `StatFields`. On a stat line with no comma the code as written gives an undefined `deleted` and a `NaN` `totalChanges` (backend/server.js:182, 197); the model gives 0 for both missing parts. The as-written reading is `ServerAnalysis.StatFieldsAsWritten`, described under "## Findings".
- Sessions.Registry.SendLog: whether a write throws is a parameter (`writeFails`), since it depends on the network.

## Findings

| source | as written | input that shows it | evidently intended | confidence | as-written member | corrected member |
|---|---|---|---|---|---|---|
| backend/server.js:182 | `const [added, deleted, total] = statsOutput.trim().split(',').map(...)`: when the line holds no comma, `deleted` is `undefined` and `totalChanges` (`added + deleted`, line 197) becomes `NaN`. The fold at lines 356-362 then makes `totalDeleted` and `totalChanges` `NaN`. `totalAdded`, `totalCommits` and `contributorCount` are unaffected | the stat output `7` (no comma) | a missing field reads as 0, just as an unreadable one does | low: `awk` always prints two commas, so only a pipeline that failed half-way could produce such output; not executed | ServerAnalysis.StatWithoutCommaAsWritten, ServerAnalysis.StatFieldsWithoutComma | ServerAnalysis.StatFields |
