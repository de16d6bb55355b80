/** What both implementations report for a repository and for a whole scan: one
    record per author, the contributor list sorted by total changes, and the
    totals folded over every contributor of every report. */
module Contributions {

  /** One contributor of one repository. */
  datatype AuthorStat = AuthorStat(author: string, added: int, deleted: int, totalChanges: int, commits: int)

  /** Both implementations compute `totalChanges` as `added + deleted`. */
  predicate WellFormed(s: AuthorStat) {
    s.totalChanges == s.added + s.deleted
  }

  predicate AllWellFormed(cs: seq<AuthorStat>) {
    forall i :: 0 <= i < |cs| ==> WellFormed(cs[i])
  }

  /** A record whose total is the sum of the lines added and deleted. */
  function Record(author: string, added: int, deleted: int, commits: int): (s: AuthorStat)
    ensures WellFormed(s) && s.author == author && s.added == added && s.deleted == deleted && s.commits == commits
  {
    AuthorStat(author, added, deleted, added + deleted, commits)
  }

  /** The record of an author whose statistics could not be obtained. */
  function Zero(author: string): (s: AuthorStat)
    ensures WellFormed(s) && s.author == author
    ensures s.added == 0 && s.deleted == 0 && s.totalChanges == 0 && s.commits == 0
  {
    AuthorStat(author, 0, 0, 0, 0)
  }

  // ---------------------------------------------------------------------------
  // Ordering contributors: `sort((a, b) => b.totalChanges - a.totalChanges)` in
  // JavaScript and `sort(key=totalChanges, reverse=True)` in Python are both
  // stable sorts into non-increasing order of `totalChanges`.

  predicate Sorted(s: seq<AuthorStat>) {
    forall i, j :: 0 <= i < j < |s| ==> s[i].totalChanges >= s[j].totalChanges
  }

  /** Places `x` after every element whose total is at least its own. */
  function Insert(t: seq<AuthorStat>, x: AuthorStat): seq<AuthorStat>
    decreases |t|
  {
    if t == [] || t[|t| - 1].totalChanges >= x.totalChanges then t + [x]
    else Insert(t[..|t| - 1], x) + [t[|t| - 1]]
  }

  /** Inserting adds `x` and keeps every other element. */
  lemma {:induction false} InsertContents(t: seq<AuthorStat>, x: AuthorStat)
    ensures multiset(Insert(t, x)) == multiset(t) + multiset{x}
    ensures |Insert(t, x)| == |t| + 1
    decreases |t|
  {
    if t != [] && t[|t| - 1].totalChanges < x.totalChanges {
      var init, last := t[..|t| - 1], t[|t| - 1];
      assert t == init + [last];
      assert Insert(t, x) == Insert(init, x) + [last];
      InsertContents(init, x);
    }
  }

  /** Every element of `u` has a total of at least `b`. */
  predicate AtLeast(u: seq<AuthorStat>, b: int) {
    forall i :: 0 <= i < |u| ==> u[i].totalChanges >= b
  }

  /** A sorted list stays sorted when an element no larger than all of it is appended. */
  lemma SortedAppend(u: seq<AuthorStat>, y: AuthorStat)
    requires Sorted(u) && AtLeast(u, y.totalChanges)
    ensures Sorted(u + [y])
  {
  }

  /** Inserting an element of total at least `b` into a list bounded below by `b`
      keeps it bounded below by `b`. */
  lemma {:induction false} InsertAtLeast(t: seq<AuthorStat>, x: AuthorStat, b: int)
    requires AtLeast(t, b) && x.totalChanges >= b
    ensures AtLeast(Insert(t, x), b)
    decreases |t|
  {
    if t != [] && t[|t| - 1].totalChanges < x.totalChanges {
      var init, last := t[..|t| - 1], t[|t| - 1];
      assert AtLeast(init, b) by {
        forall i | 0 <= i < |init| ensures init[i].totalChanges >= b {
          assert init[i] == t[i];
        }
      }
      InsertAtLeast(init, x, b);
      assert Insert(t, x) == Insert(init, x) + [last];
    }
  }

  lemma {:induction false} InsertSorted(t: seq<AuthorStat>, x: AuthorStat)
    requires Sorted(t)
    ensures Sorted(Insert(t, x))
    decreases |t|
  {
    if t == [] || t[|t| - 1].totalChanges >= x.totalChanges {
      SortedAppend(t, x);
    } else {
      var init, last := t[..|t| - 1], t[|t| - 1];
      assert Sorted(init) && AtLeast(init, last.totalChanges) by {
        forall i | 0 <= i < |init| ensures init[i] == t[i] { }
      }
      InsertSorted(init, x);
      InsertAtLeast(init, x, last.totalChanges);
      SortedAppend(Insert(init, x), last);
      assert Insert(t, x) == Insert(init, x) + [last];
    }
  }

  /** The contributor list as the sort leaves it. */
  function SortByChanges(s: seq<AuthorStat>): seq<AuthorStat>
  {
    if s == [] then [] else Insert(SortByChanges(s[..|s| - 1]), s[|s| - 1])
  }

  /** The sort yields a non-increasing list. */
  lemma {:induction false} SortByChangesSorted(s: seq<AuthorStat>)
    ensures Sorted(SortByChanges(s))
  {
    if s != [] {
      var init, last := s[..|s| - 1], s[|s| - 1];
      assert SortByChanges(s) == Insert(SortByChanges(init), last);
      SortByChangesSorted(init);
      InsertSorted(SortByChanges(init), last);
    }
  }

  /** The sort yields a permutation of its input. */
  lemma {:induction false} SortByChangesPermutes(s: seq<AuthorStat>)
    ensures multiset(SortByChanges(s)) == multiset(s)
    ensures |SortByChanges(s)| == |s|
  {
    if s != [] {
      var init, last := s[..|s| - 1], s[|s| - 1];
      assert multiset(s) == multiset(init) + multiset{last} by {
        assert s == init + [last];
      }
      SortByChangesPermutes(init);
      InsertContents(SortByChanges(init), last);
    }
  }

  /** The contributors whose total is `k`, in their order in `s`. */
  function WithChanges(s: seq<AuthorStat>, k: int): (r: seq<AuthorStat>)
    ensures forall i :: 0 <= i < |r| ==> r[i].totalChanges == k
  {
    if s == [] then []
    else WithChanges(s[..|s| - 1], k) + (if s[|s| - 1].totalChanges == k then [s[|s| - 1]] else [])
  }

  lemma WithChangesAppend(s: seq<AuthorStat>, x: AuthorStat, k: int)
    ensures WithChanges(s + [x], k) == WithChanges(s, k) + (if x.totalChanges == k then [x] else [])
  {
    assert (s + [x])[..|s|] == s;
  }

  lemma {:induction false} InsertStable(t: seq<AuthorStat>, x: AuthorStat, k: int)
    ensures WithChanges(Insert(t, x), k) == WithChanges(t, k) + (if x.totalChanges == k then [x] else [])
    decreases |t|
  {
    if t == [] || t[|t| - 1].totalChanges >= x.totalChanges {
      WithChangesAppend(t, x, k);
    } else {
      var init, last := t[..|t| - 1], t[|t| - 1];
      assert Insert(t, x) == Insert(init, x) + [last];
      InsertStable(init, x, k);
      WithChangesAppend(Insert(init, x), last, k);
      WithChangesAppend(init, last, k);
      assert t == init + [last];
    }
  }

  /** Stability: contributors with equal totals keep their relative order. */
  lemma {:induction false} SortByChangesStable(s: seq<AuthorStat>, k: int)
    ensures WithChanges(SortByChanges(s), k) == WithChanges(s, k)
  {
    if s != [] {
      var init, last := s[..|s| - 1], s[|s| - 1];
      SortByChangesStable(init, k);
      InsertStable(SortByChanges(init), last, k);
    }
  }

  // ---------------------------------------------------------------------------
  // The totals of a scan.

  datatype Measure = Added | Deleted | Changes | Commits

  function Value(s: AuthorStat, m: Measure): int {
    match m
    case Added => s.added
    case Deleted => s.deleted
    case Changes => s.totalChanges
    case Commits => s.commits
  }

  /** The sum of one field over a contributor list. */
  function Sum(cs: seq<AuthorStat>, m: Measure): int {
    if cs == [] then 0 else Sum(cs[..|cs| - 1], m) + Value(cs[|cs| - 1], m)
  }

  /** The distinct author names of a contributor list. */
  function AuthorSet(cs: seq<AuthorStat>): set<string> {
    if cs == [] then {} else AuthorSet(cs[..|cs| - 1]) + {cs[|cs| - 1].author}
  }

  /** Every contributor of every report, report by report. */
  function Flatten(lists: seq<seq<AuthorStat>>): seq<AuthorStat> {
    if lists == [] then [] else Flatten(lists[..|lists| - 1]) + lists[|lists| - 1]
  }

  /** The `total` object of a scan result. */
  datatype Totals = Totals(
    repositoryCount: int, contributorCount: int,
    totalAdded: int, totalDeleted: int, totalChanges: int, totalCommits: int)

  /** The totals reported when no repository was found. */
  const ZeroTotals: Totals := Totals(0, 0, 0, 0, 0, 0)

  /** The totals folded over the contributor lists of the reports. */
  function TotalsOf(lists: seq<seq<AuthorStat>>, repositoryCount: int): Totals {
    var all := Flatten(lists);
    Totals(repositoryCount, |AuthorSet(all)|, Sum(all, Added), Sum(all, Deleted), Sum(all, Changes), Sum(all, Commits))
  }

  /** The running values of the fold once it has seen the contributors `cs`. */
  predicate Folded(cs: seq<AuthorStat>, authors: set<string>, added: int, deleted: int, changes: int, commits: int) {
    && authors == AuthorSet(cs)
    && added == Sum(cs, Added) && deleted == Sum(cs, Deleted)
    && changes == Sum(cs, Changes) && commits == Sum(cs, Commits)
  }

  /** One contributor more: its name joins the set and its fields join the sums. */
  lemma FoldedAppend(cs: seq<AuthorStat>, c: AuthorStat,
                     authors: set<string>, added: int, deleted: int, changes: int, commits: int)
    requires Folded(cs, authors, added, deleted, changes, commits)
    ensures Folded(cs + [c], authors + {c.author}, added + c.added, deleted + c.deleted,
                   changes + c.totalChanges, commits + c.commits)
  {
    assert (cs + [c])[..|cs|] == cs;
  }

  /** The fold: four running sums and a set of author names, updated contributor by
      contributor, report by report. */
  method FoldTotals(lists: seq<seq<AuthorStat>>, repositoryCount: int) returns (t: Totals)
    ensures t == TotalsOf(lists, repositoryCount)
  {
    var authors: set<string> := {};
    var added, deleted, changes, commits := 0, 0, 0, 0;
    for i := 0 to |lists|
      invariant Folded(Flatten(lists[..i]), authors, added, deleted, changes, commits)
    {
      var cs := lists[i];
      ghost var before := Flatten(lists[..i]);
      assert before + cs[..0] == before;
      for j := 0 to |cs|
        invariant Folded(before + cs[..j], authors, added, deleted, changes, commits)
      {
        var c := cs[j];
        FoldedAppend(before + cs[..j], c, authors, added, deleted, changes, commits);
        assert before + cs[..j + 1] == before + cs[..j] + [c];
        authors := authors + {c.author};
        added := added + c.added;
        deleted := deleted + c.deleted;
        changes := changes + c.totalChanges;
        commits := commits + c.commits;
      }
      assert lists[..i + 1] == lists[..i] + [cs] && cs[..|cs|] == cs;
      assert Flatten(lists[..i + 1]) == before + cs;
    }
    assert lists[..|lists|] == lists;
    t := Totals(repositoryCount, |authors|, added, deleted, changes, commits);
  }

  lemma {:induction false} SumConcat(a: seq<AuthorStat>, b: seq<AuthorStat>, m: Measure)
    ensures Sum(a + b, m) == Sum(a, m) + Sum(b, m)
    decreases |b|
  {
    if b != [] {
      var init := b[..|b| - 1];
      assert (a + b)[..|a + b| - 1] == a + init;
      SumConcat(a, init, m);
    } else {
      assert a + b == a;
    }
  }

  lemma {:induction false} AuthorSetConcat(a: seq<AuthorStat>, b: seq<AuthorStat>)
    ensures AuthorSet(a + b) == AuthorSet(a) + AuthorSet(b)
    decreases |b|
  {
    if b != [] {
      var init := b[..|b| - 1];
      assert (a + b)[..|a + b| - 1] == a + init;
      AuthorSetConcat(a, init);
    } else {
      assert a + b == a;
    }
  }

  /** An author name is counted exactly when some contributor carries it. */
  lemma {:induction false} AuthorSetMembers(cs: seq<AuthorStat>, a: string)
    ensures a in AuthorSet(cs) <==> exists i :: 0 <= i < |cs| && cs[i].author == a
  {
    if cs != [] {
      var init := cs[..|cs| - 1];
      AuthorSetMembers(init, a);
      if a in AuthorSet(init) {
        var i :| 0 <= i < |init| && init[i].author == a;
        assert cs[i].author == a;
      }
      if exists i :: 0 <= i < |cs| && cs[i].author == a {
        var i :| 0 <= i < |cs| && cs[i].author == a;
        if i < |cs| - 1 { assert init[i].author == a; }
      }
    }
  }

  /** There are never more distinct authors than contributor records. */
  lemma {:induction false} AuthorSetSize(cs: seq<AuthorStat>)
    ensures |AuthorSet(cs)| <= |cs|
  {
    if cs != [] {
      AuthorSetSize(cs[..|cs| - 1]);
    }
  }

  /** Each total of a scan is the sum, over the reports, of that report's total. */
  lemma {:induction false} FlattenSplit(lists: seq<seq<AuthorStat>>, more: seq<AuthorStat>, m: Measure)
    ensures Flatten(lists + [more]) == Flatten(lists) + more
    ensures Sum(Flatten(lists + [more]), m) == Sum(Flatten(lists), m) + Sum(more, m)
    ensures AuthorSet(Flatten(lists + [more])) == AuthorSet(Flatten(lists)) + AuthorSet(more)
  {
    assert (lists + [more])[..|lists|] == lists;
    SumConcat(Flatten(lists), more, m);
    AuthorSetConcat(Flatten(lists), more);
  }

  /** An author is counted once however many reports name them, and a name is
      counted exactly when some report has a contributor with that name. */
  lemma {:induction false} ContributorCountMembers(lists: seq<seq<AuthorStat>>, a: string)
    ensures a in AuthorSet(Flatten(lists)) <==> exists r, i :: 0 <= r < |lists| && 0 <= i < |lists[r]| && lists[r][i].author == a
  {
    if lists != [] {
      var init, last := lists[..|lists| - 1], lists[|lists| - 1];
      assert lists == init + [last];
      FlattenSplit(init, last, Added);
      ContributorCountMembers(init, a);
      AuthorSetMembers(last, a);
      if exists r, i :: 0 <= r < |lists| && 0 <= i < |lists[r]| && lists[r][i].author == a {
        var r, i :| 0 <= r < |lists| && 0 <= i < |lists[r]| && lists[r][i].author == a;
        if r < |init| { assert init[r][i].author == a; }
      }
      if exists r, i :: 0 <= r < |init| && 0 <= i < |init[r]| && init[r][i].author == a {
        var r, i :| 0 <= r < |init| && 0 <= i < |init[r]| && init[r][i].author == a;
        assert lists[r][i].author == a;
      }
    }
  }

  lemma {:induction false} SumWellFormed(cs: seq<AuthorStat>)
    requires AllWellFormed(cs)
    ensures Sum(cs, Changes) == Sum(cs, Added) + Sum(cs, Deleted)
  {
    if cs != [] {
      SumWellFormed(cs[..|cs| - 1]);
    }
  }

  /** The folded totals satisfy `totalChanges == totalAdded + totalDeleted` when every
      contributor does, and never count more authors than contributor records. */
  lemma TotalsIdentity(lists: seq<seq<AuthorStat>>, repositoryCount: int)
    requires AllWellFormed(Flatten(lists))
    ensures var t := TotalsOf(lists, repositoryCount);
      && t.totalChanges == t.totalAdded + t.totalDeleted
      && t.repositoryCount == repositoryCount
      && 0 <= t.contributorCount <= |Flatten(lists)|
  {
    SumWellFormed(Flatten(lists));
    AuthorSetSize(Flatten(lists));
  }

  /** Merging well-formed lists keeps every record well formed. */
  lemma {:induction false} FlattenWellFormed(lists: seq<seq<AuthorStat>>)
    requires forall i :: 0 <= i < |lists| ==> AllWellFormed(lists[i])
    ensures AllWellFormed(Flatten(lists))
  {
    if lists != [] {
      FlattenWellFormed(lists[..|lists| - 1]);
    }
  }

  /** Two repositories: alice and bob in the first, alice again in the second. The
      author counted twice is one contributor, every sum runs over all three
      records, and the first report lists alice (60 lines) before bob (5). */
  lemma TwoRepositoryScenario()
    ensures var alice1, bob, alice2 := Record("alice", 50, 10, 5), Record("bob", 5, 0, 1), Record("alice", 20, 20, 3);
      && SortByChanges([bob, alice1]) == [alice1, bob]
      && TotalsOf([[alice1, bob], [alice2]], 2) == Totals(2, 2, 75, 30, 105, 9)
  {
    var alice1, bob, alice2 := Record("alice", 50, 10, 5), Record("bob", 5, 0, 1), Record("alice", 20, 20, 3);
    assert [bob, alice1][..1] == [bob] && [bob][..0] == [];
    assert SortByChanges([bob]) == [bob];
    assert [bob][..0] == [] && bob.totalChanges == 5 < alice1.totalChanges == 60;
    assert Insert([bob], alice1) == Insert([], alice1) + [bob];
    var all := [alice1, bob] + [alice2];
    assert Flatten([[alice1, bob], [alice2]]) == all by {
      var lists := [[alice1, bob], [alice2]];
      assert lists[..1] == [[alice1, bob]];
      assert Flatten(lists[..1]) == Flatten([]) + [alice1, bob];
    }
    assert all[..2] == [alice1, bob] && all[..2][..1] == [alice1] && [alice1][..0] == [];
    forall m
      ensures Sum(all, m) == Value(alice1, m) + Value(bob, m) + Value(alice2, m)
    {
      assert Sum([alice1], m) == Value(alice1, m);
      assert Sum(all[..2], m) == Value(alice1, m) + Value(bob, m);
    }
    assert Sum(all, Added) == 75 && Sum(all, Deleted) == 30;
    assert Sum(all, Changes) == 105 && Sum(all, Commits) == 9;
    assert AuthorSet([alice1]) == {"alice"};
    assert AuthorSet(all[..2]) == {"alice"} + {"bob"};
    assert AuthorSet(all) == {"alice"} + {"bob"} + {"alice"};
    assert AuthorSet(all) == {"alice", "bob"};
    assert |AuthorSet(all)| == 2;
  }

  /** Taking one contributor out of a list takes its value out of each sum. */
  lemma SumRemove(b: seq<AuthorStat>, k: nat, m: Measure)
    requires k < |b|
    ensures Sum(b, m) == Sum(b[..k] + b[k + 1..], m) + Value(b[k], m)
    ensures AuthorSet(b) == AuthorSet(b[..k] + b[k + 1..]) + {b[k].author}
  {
    assert b == b[..k] + ([b[k]] + b[k + 1..]);
    SumConcat(b[..k], [b[k]] + b[k + 1..], m);
    SumConcat([b[k]], b[k + 1..], m);
    SumConcat(b[..k], b[k + 1..], m);
    assert Sum([b[k]], m) == Value(b[k], m) by { assert [b[k]][..0] == []; }
    AuthorSetConcat(b[..k], [b[k]] + b[k + 1..]);
    AuthorSetConcat([b[k]], b[k + 1..]);
    AuthorSetConcat(b[..k], b[k + 1..]);
    assert AuthorSet([b[k]]) == {b[k].author} by { assert [b[k]][..0] == []; }
  }

  lemma MultisetRemove(a: seq<AuthorStat>, b: seq<AuthorStat>, k: nat)
    requires a != [] && k < |b| && b[k] == a[|a| - 1] && multiset(a) == multiset(b)
    ensures multiset(a[..|a| - 1]) == multiset(b[..k] + b[k + 1..])
  {
    var last := a[|a| - 1];
    assert a == a[..|a| - 1] + [last];
    assert b == b[..k] + [last] + b[k + 1..];
    var rest := b[..k] + b[k + 1..];
    assert multiset(b) == multiset(b[..k]) + multiset{last} + multiset(b[k + 1..]);
    assert multiset(rest) == multiset(b[..k]) + multiset(b[k + 1..]);
    assert multiset(a) == multiset(a[..|a| - 1]) + multiset{last};
    var before, after := multiset(a[..|a| - 1]), multiset(rest);
    assert before + multiset{last} == after + multiset{last};
    forall y
      ensures before[y] == after[y]
    {
      assert (before + multiset{last})[y] == (after + multiset{last})[y];
    }
  }

  /** Sorting a report's contributors changes none of its sums and none of its names. */
  lemma {:induction false} SumPermutation(a: seq<AuthorStat>, b: seq<AuthorStat>, m: Measure)
    requires multiset(a) == multiset(b)
    ensures Sum(a, m) == Sum(b, m)
    ensures AuthorSet(a) == AuthorSet(b)
    decreases |a|
  {
    if a != [] {
      var last := a[|a| - 1];
      assert last in multiset(b);
      var k :| 0 <= k < |b| && b[k] == last;
      MultisetRemove(a, b, k);
      SumPermutation(a[..|a| - 1], b[..k] + b[k + 1..], m);
      SumRemove(b, k, m);
    } else {
      assert b == [];
    }
  }
}
