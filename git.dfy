/** The git pipelines both implementations run, as an injected oracle: given the
    repository directory and the pipeline, the oracle returns the pipeline's
    standard output, or None when running it fails. The text the `awk` and `wc`
    stages print is given here for the lemmas that read it back. */
module Git {
  import opened Wrappers
  import opened Strings
  import opened Numbers

  /** The pipelines, with the branch scope (`--all` or a branch name) and the
      author they are run for. */
  datatype Command =
    | ListBranches                            // git branch -a | grep -v "HEAD" | sed ...
    | ListAuthors(scope: string)              // git log <scope> --format="%aN" | sort -u
    | NumStat(author: string, scope: string)  // git log <scope> --author=... --numstat | awk ...
    | CountCommits(author: string, scope: string)  // git log <scope> --author=... --oneline | wc -l

  type Oracle = (string, Command) -> Option<string>

  /** The scope that stands for every branch. */
  const AllBranches: string := "--all"

  /** What `awk` prints for the sums of added, deleted and net lines. */
  function AwkOutput(added: int, deleted: int, net: int): string {
    AwkFields(added, deleted, net) + "\n"
  }

  /** `awk`'s line without its newline. */
  function AwkFields(added: int, deleted: int, net: int): string {
    IntText(added) + "," + IntText(deleted) + "," + IntText(net)
  }

  /** What `wc -l` prints for a count, after its padding. */
  function WcOutput(pad: string, count: nat): string {
    pad + Decimal(count) + "\n"
  }

  /** `awk`'s line splits at its two commas into the three printed numbers. */
  lemma AwkSplit(added: int, deleted: int, net: int)
    ensures Split(AwkFields(added, deleted, net), ',') == [IntText(added), IntText(deleted), IntText(net)]
  {
    var a, d, l := IntText(added), IntText(deleted), IntText(net);
    IntTextExcludes(added, ',');
    IntTextExcludes(deleted, ',');
    IntTextExcludes(net, ',');
    SplitPlain(l, ',');
    SplitAtSeparator(d, l, ',');
    assert d + "," + l == d + [','] + l;
    SplitAtSeparator(a, d + "," + l, ',');
    assert AwkFields(added, deleted, net) == a + [','] + (d + "," + l);
  }

  /** `awk`'s line, once white space is stripped from both ends under `space`. */
  lemma AwkTrim(added: int, deleted: int, net: int, space: char -> bool)
    requires space('\n') && !space('-') && forall c :: IsDigit(c) ==> !space(c)
    ensures Trim(AwkOutput(added, deleted, net), space) == AwkFields(added, deleted, net)
  {
    var a, l := IntText(added), IntText(net);
    IntTextShape(added);
    IntTextShape(net);
    var core := AwkFields(added, deleted, net);
    assert core[0] == a[0] && core[|core| - 1] == l[|l| - 1];
    assert AwkOutput(added, deleted, net) == [] + core + "\n";
    assert AllSpace("\n", space);
    TrimPadded([], core, "\n", space);
  }

  /** `wc`'s line, once white space is stripped from both ends under `space`. */
  lemma WcTrim(pad: string, count: nat, space: char -> bool)
    requires space('\n') && forall c :: IsDigit(c) ==> !space(c)
    requires AllSpace(pad, space)
    ensures Trim(WcOutput(pad, count), space) == Decimal(count)
  {
    var d := Decimal(count);
    IntTextShape(count);
    assert IntText(count) == d;
    assert AllSpace("\n", space);
    TrimPadded(pad, d, "\n", space);
  }
}
