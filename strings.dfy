/** Text helpers shared by both implementations: the whitespace classes of
    JavaScript's `trim` and Python's `strip`, splitting on a separator, trimming,
    the trim-and-drop-blank-lines step used on every pipeline's output, and
    first-seen de-duplication. */
module Strings {

  /** JavaScript's WhiteSpace and LineTerminator characters (what `trim` and `parseInt` skip). */
  predicate IsJsSpace(c: char) {
    var n := c as int;
    (0x09 <= n <= 0x0D) || n == 0x20 || n == 0xA0 || n == 0x1680 || (0x2000 <= n <= 0x200A)
    || n == 0x2028 || n == 0x2029 || n == 0x202F || n == 0x205F || n == 0x3000 || n == 0xFEFF
  }

  /** Python's `str.isspace` characters (what `strip()` and `int()` skip). */
  predicate IsPySpace(c: char) {
    var n := c as int;
    (0x09 <= n <= 0x0D) || (0x1C <= n <= 0x1F) || n == 0x20 || n == 0x85 || n == 0xA0 || n == 0x1680
    || (0x2000 <= n <= 0x200A) || n == 0x2028 || n == 0x2029 || n == 0x202F || n == 0x205F || n == 0x3000
  }

  predicate AllSpace(s: string, space: char -> bool) {
    forall i :: 0 <= i < |s| ==> space(s[i])
  }

  /** Neither end of `s` is a space character. */
  predicate IsTrimmed(s: string, space: char -> bool) {
    s == [] || (!space(s[0]) && !space(s[|s| - 1]))
  }

  predicate StartsWith(s: string, prefix: string) {
    |prefix| <= |s| && s[..|prefix|] == prefix
  }

  /** `s` without the space characters at its start. */
  function TrimStart(s: string, space: char -> bool): (r: string)
    ensures |r| <= |s| && (r == [] || !space(r[0]))
  {
    if s != [] && space(s[0]) then TrimStart(s[1..], space) else s
  }

  /** `s` without the space characters at its end; the first character stays. */
  function TrimEnd(s: string, space: char -> bool): (r: string)
    ensures |r| <= |s| && (r == [] || (!space(r[|r| - 1]) && r[0] == s[0]))
  {
    if s != [] && space(s[|s| - 1]) then TrimEnd(s[..|s| - 1], space) else s
  }

  /** `s.trim()` / `s.strip()`: the space characters at both ends of `s` removed. */
  function Trim(s: string, space: char -> bool): (r: string)
    ensures IsTrimmed(r, space)
  {
    TrimEnd(TrimStart(s, space), space)
  }

  /** Leading padding of spaces is skipped up to the first non-space character. */
  lemma {:induction false} TrimStartPadded(pre: string, y: string, space: char -> bool)
    requires AllSpace(pre, space) && (y == [] || !space(y[0]))
    ensures TrimStart(pre + y, space) == y
  {
    if pre == [] {
      assert pre + y == y;
    } else {
      assert (pre + y)[0] == pre[0] && (pre + y)[1..] == pre[1..] + y;
      TrimStartPadded(pre[1..], y, space);
    }
  }

  /** Trailing padding of spaces is dropped back to the last non-space character. */
  lemma {:induction false} TrimEndPadded(y: string, post: string, space: char -> bool)
    requires AllSpace(post, space) && (y == [] || !space(y[|y| - 1]))
    ensures TrimEnd(y + post, space) == y
  {
    if post == [] {
      assert y + post == y;
    } else {
      var s := y + post;
      assert s[|s| - 1] == post[|post| - 1] && s[..|s| - 1] == y + post[..|post| - 1];
      TrimEndPadded(y, post[..|post| - 1], space);
    }
  }

  /** A string with space-only padding around a trimmed core trims to that core. */
  lemma TrimPadded(pre: string, x: string, post: string, space: char -> bool)
    requires AllSpace(pre, space) && AllSpace(post, space) && IsTrimmed(x, space) && x != []
    ensures Trim(pre + x + post, space) == x
  {
    assert pre + x + post == pre + (x + post) && (x + post)[0] == x[0];
    TrimStartPadded(pre, x + post, space);
    TrimEndPadded(x, post, space);
  }

  /** A trimmed string is its own trim. */
  lemma TrimTrimmed(s: string, space: char -> bool)
    requires IsTrimmed(s, space)
    ensures Trim(s, space) == s
  {
    if s != [] {
      TrimPadded([], s, [], space);
      assert [] + s + [] == s;
    }
  }

  /** `s.split(sep)`: the pieces between consecutive separators, so there is always one more piece than separators. */
  function Split(s: string, sep: char): (parts: seq<string>)
    ensures |parts| >= 1
    ensures forall i :: 0 <= i < |parts| ==> sep !in parts[i]
  {
    if s == [] then [[]]
    else
      var rest := Split(s[1..], sep);
      if s[0] == sep then [[]] + rest
      else [[s[0]] + rest[0]] + rest[1..]
  }

  /** `parts.join(sep)`, the inverse of `Split`. */
  function Join(parts: seq<string>, sep: char): string {
    if parts == [] then []
    else if |parts| == 1 then parts[0]
    else parts[0] + [sep] + Join(parts[1..], sep)
  }

  lemma {:induction false} JoinSplit(s: string, sep: char)
    ensures Join(Split(s, sep), sep) == s
  {
    if s != [] {
      var rest := Split(s[1..], sep);
      JoinSplit(s[1..], sep);
      if s[0] == sep {
        assert ([[]] + rest)[1..] == rest;
      } else {
        var parts := [[s[0]] + rest[0]] + rest[1..];
        if |rest| == 1 {
          assert parts == [[s[0]] + rest[0]];
        } else {
          assert parts[1..] == rest[1..];
          assert Join(rest, sep) == rest[0] + [sep] + Join(rest[1..], sep);
        }
      }
    }
  }

  lemma {:induction false} SplitJoin(parts: seq<string>, sep: char)
    requires |parts| >= 1
    requires forall i :: 0 <= i < |parts| ==> sep !in parts[i]
    ensures Split(Join(parts, sep), sep) == parts
  {
    if |parts| == 1 {
      SplitPlain(parts[0], sep);
    } else {
      SplitJoin(parts[1..], sep);
      SplitAtSeparator(parts[0], Join(parts[1..], sep), sep);
      assert [parts[0]] + parts[1..] == parts;
    }
  }

  lemma {:induction false} SplitPlain(p: string, sep: char)
    requires sep !in p
    ensures Split(p, sep) == [p]
  {
    if p != [] {
      SplitPlain(p[1..], sep);
      assert [p[0]] + p[1..] == p;
    }
  }

  lemma {:induction false} SplitAtSeparator(p: string, t: string, sep: char)
    requires sep !in p
    ensures Split(p + [sep] + t, sep) == [p] + Split(t, sep)
  {
    var s := p + [sep] + t;
    if p == [] {
      assert s[1..] == t;
    } else {
      SplitAtSeparator(p[1..], t, sep);
      assert s[1..] == p[1..] + [sep] + t;
      assert [p[0]] + p[1..] == p;
    }
  }

  /** `ys.filter(y => y.length > 0)`: the non-empty elements, in order. */
  function NonBlank(ys: seq<string>): (r: seq<string>)
    ensures |r| <= |ys|
  {
    if ys == [] then []
    else if ys[0] == [] then NonBlank(ys[1..])
    else [ys[0]] + NonBlank(ys[1..])
  }

  lemma {:induction false} NonBlankMembers(ys: seq<string>)
    ensures forall y :: y in NonBlank(ys) <==> y in ys && y != []
  {
    if ys != [] {
      NonBlankMembers(ys[1..]);
      assert ys == [ys[0]] + ys[1..];
    }
  }

  /** `xs.map(x => x.trim())`. */
  function TrimAll(xs: seq<string>, space: char -> bool): (ys: seq<string>)
    ensures |ys| == |xs|
  {
    if xs == [] then [] else [Trim(xs[0], space)] + TrimAll(xs[1..], space)
  }

  lemma {:induction false} TrimAllElement(xs: seq<string>, space: char -> bool, i: nat)
    requires i < |xs|
    ensures TrimAll(xs, space)[i] == Trim(xs[i], space)
  {
    if i > 0 {
      TrimAllElement(xs[1..], space, i - 1);
    }
  }

  /** `xs.map(x => x.trim()).filter(x => x.length > 0)`: the trimmed non-blank elements, in order. */
  function TrimmedNonBlank(xs: seq<string>, space: char -> bool): (r: seq<string>)
    ensures |r| <= |xs|
  {
    NonBlank(TrimAll(xs, space))
  }

  /** The trimmed elements are exactly the trimmings of the elements. */
  lemma TrimAllMembers(xs: seq<string>, space: char -> bool)
    ensures forall y :: y in TrimAll(xs, space) <==> exists i :: 0 <= i < |xs| && Trim(xs[i], space) == y
  {
    var ys := TrimAll(xs, space);
    forall y | y in ys
      ensures exists i :: 0 <= i < |xs| && Trim(xs[i], space) == y
    {
      var i :| 0 <= i < |ys| && ys[i] == y;
      TrimAllElement(xs, space, i);
    }
    forall i | 0 <= i < |xs|
      ensures Trim(xs[i], space) in ys
    {
      TrimAllElement(xs, space, i);
    }
  }

  /** The trimmed non-blank elements are trimmed, and they are exactly the
      non-empty trimmings of the elements. */
  lemma TrimmedNonBlankMembers(xs: seq<string>, space: char -> bool)
    ensures forall y :: y in TrimmedNonBlank(xs, space) ==> y != [] && IsTrimmed(y, space)
    ensures forall y :: y in TrimmedNonBlank(xs, space) <==> y != [] && y in TrimAll(xs, space)
  {
    var ys := TrimAll(xs, space);
    NonBlankMembers(ys);
    forall y | y in ys
      ensures IsTrimmed(y, space)
    {
      var i :| 0 <= i < |ys| && ys[i] == y;
      TrimAllElement(xs, space, i);
    }
  }

  lemma TrimAllTrimmed(xs: seq<string>, space: char -> bool)
    requires forall i :: 0 <= i < |xs| ==> IsTrimmed(xs[i], space)
    ensures TrimAll(xs, space) == xs
  {
    var ys := TrimAll(xs, space);
    forall i | 0 <= i < |xs|
      ensures ys[i] == xs[i]
    {
      TrimAllElement(xs, space, i);
      TrimTrimmed(xs[i], space);
    }
  }

  /** The text a pipeline prints for a list of lines: each line followed by a newline. */
  function Lines(xs: seq<string>): string {
    if xs == [] then [] else xs[0] + "\n" + Lines(xs[1..])
  }

  lemma {:induction false} SplitLines(xs: seq<string>)
    requires forall i :: 0 <= i < |xs| ==> '\n' !in xs[i]
    ensures Split(Lines(xs), '\n') == xs + [[]]
  {
    if xs != [] {
      SplitLines(xs[1..]);
      SplitAtSeparator(xs[0], Lines(xs[1..]), '\n');
      assert xs[0] + "\n" + Lines(xs[1..]) == xs[0] + ['\n'] + Lines(xs[1..]);
      assert [xs[0]] + (xs[1..] + [[]]) == xs + [[]];
    }
  }

  lemma {:induction false} NonBlankKeeps(xs: seq<string>)
    requires forall i :: 0 <= i < |xs| ==> xs[i] != []
    ensures NonBlank(xs + [[]]) == xs
  {
    if xs != [] {
      NonBlankKeeps(xs[1..]);
      assert (xs + [[]])[1..] == xs[1..] + [[]];
      assert [xs[0]] + xs[1..] == xs;
    }
  }

  /** Trimming and dropping blank entries removes the empty piece after the last
      newline and nothing else. */
  lemma TrimmedNonBlankPadded(xs: seq<string>, space: char -> bool)
    requires forall i :: 0 <= i < |xs| ==> xs[i] != [] && IsTrimmed(xs[i], space)
    ensures TrimmedNonBlank(xs + [[]], space) == xs
  {
    var ps := xs + [[]];
    forall i | 0 <= i < |ps|
      ensures IsTrimmed(ps[i], space)
    {
      if i < |xs| {
        assert ps[i] == xs[i];
      }
    }
    TrimAllTrimmed(ps, space);
    NonBlankKeeps(xs);
  }

  /** Reading back printed lines: lines that are non-empty, trimmed and free of
      newlines come back as they were printed. */
  lemma LinesRoundTrip(xs: seq<string>, space: char -> bool)
    requires forall i :: 0 <= i < |xs| ==> xs[i] != [] && IsTrimmed(xs[i], space) && '\n' !in xs[i]
    ensures TrimmedNonBlank(Split(Lines(xs), '\n'), space) == xs
  {
    SplitLines(xs);
    TrimmedNonBlankPadded(xs, space);
  }

  lemma {:induction false} NonBlankAll(xs: seq<string>)
    requires forall i :: 0 <= i < |xs| ==> xs[i] != []
    ensures NonBlank(xs) == xs
  {
    if xs != [] {
      NonBlankAll(xs[1..]);
      assert [xs[0]] + xs[1..] == xs;
    }
  }

  /** Printed lines are the lines joined by newlines, with one more newline at the end. */
  lemma {:induction false} LinesJoin(xs: seq<string>)
    requires xs != []
    ensures Lines(xs) == Join(xs, '\n') + "\n"
  {
    if |xs| > 1 {
      LinesJoin(xs[1..]);
    }
  }

  /** Joined non-empty pieces start with the first piece's first character and end
      with the last piece's last character. */
  lemma {:induction false} JoinEnds(xs: seq<string>, sep: char)
    requires xs != [] && forall i :: 0 <= i < |xs| ==> xs[i] != []
    ensures |Join(xs, sep)| > 0 && Join(xs, sep)[0] == xs[0][0]
    ensures Join(xs, sep)[|Join(xs, sep)| - 1] == Last(xs[|xs| - 1])
  {
    if |xs| > 1 {
      var rest := xs[1..];
      assert rest[0] == xs[1] && rest[|rest| - 1] == xs[|xs| - 1];
      JoinEnds(rest, sep);
      var r := Join(rest, sep);
      assert Join(xs, sep) == xs[0] + [sep] + r;
    }
  }

  /** The last character of a non-empty string. */
  function Last(s: string): char
    requires s != []
  {
    s[|s| - 1]
  }

  lemma JoinTrimmed(xs: seq<string>, sep: char, space: char -> bool)
    requires xs != []
    requires forall i :: 0 <= i < |xs| ==> xs[i] != [] && IsTrimmed(xs[i], space)
    ensures Join(xs, sep) != [] && IsTrimmed(Join(xs, sep), space)
  {
    JoinEnds(xs, sep);
    var first, last := xs[0], xs[|xs| - 1];
    assert IsTrimmed(first, space) && first != [];
    assert IsTrimmed(last, space) && last != [];
  }

  lemma StripLines(xs: seq<string>, space: char -> bool)
    requires space('\n') && xs != []
    requires forall i :: 0 <= i < |xs| ==> xs[i] != [] && IsTrimmed(xs[i], space)
    ensures Trim(Lines(xs), space) == Join(xs, '\n')
  {
    JoinTrimmed(xs, '\n', space);
    LinesJoin(xs);
    PadNewline(Join(xs, '\n'), space);
  }

  lemma PadNewline(j: string, space: char -> bool)
    requires space('\n') && IsTrimmed(j, space) && j != []
    ensures Trim(j + "\n", space) == j
  {
    assert j + "\n" == [] + j + "\n";
    assert AllSpace("\n", space);
    TrimPadded([], j, "\n", space);
  }

  /** Stripping the whole printed text and then splitting it at newlines gives back
      lines that are non-empty, trimmed and free of newlines. */
  lemma StrippedLinesRoundTrip(xs: seq<string>, stripped: string, space: char -> bool)
    requires space('\n') && xs != [] && stripped == Trim(Lines(xs), space)
    requires forall i :: 0 <= i < |xs| ==> xs[i] != [] && IsTrimmed(xs[i], space) && '\n' !in xs[i]
    ensures TrimmedNonBlank(Split(stripped, '\n'), space) == xs
  {
    StripLines(xs, space);
    JoinedLinesRoundTrip(xs, stripped, space);
  }

  lemma JoinedLinesRoundTrip(xs: seq<string>, t: string, space: char -> bool)
    requires xs != [] && t == Join(xs, '\n')
    requires forall i :: 0 <= i < |xs| ==> xs[i] != [] && IsTrimmed(xs[i], space) && '\n' !in xs[i]
    ensures TrimmedNonBlank(Split(t, '\n'), space) == xs
  {
    SplitJoin(xs, '\n');
    TrimmedNonBlankKeeps(xs, space);
  }

  lemma TrimmedNonBlankKeeps(xs: seq<string>, space: char -> bool)
    requires forall i :: 0 <= i < |xs| ==> xs[i] != [] && IsTrimmed(xs[i], space)
    ensures TrimmedNonBlank(xs, space) == xs
  {
    TrimAllTrimmed(xs, space);
    NonBlankAll(xs);
  }

  predicate NoDuplicates<T(==)>(s: seq<T>) {
    forall i, j :: 0 <= i < j < |s| ==> s[i] != s[j]
  }

  /** The elements of `r` all occur in `s`, in the order of their first occurrences there. */
  predicate InFirstOrder<T(==)>(r: seq<T>, s: seq<T>) {
    forall i, j :: 0 <= i < j < |r| ==> FirstBefore(s, r[i], r[j])
  }

  /** `a` and `b` both occur in `s`, and `a` first occurs before `b` does. */
  predicate FirstBefore<T(==)>(s: seq<T>, a: T, b: T) {
    a in s && b in s && FirstIndex(s, a) < FirstIndex(s, b)
  }

  /** The position of the first occurrence of `x` in `s`. */
  function FirstIndex<T(==)>(s: seq<T>, x: T): (n: nat)
    requires x in s
    ensures n < |s| && s[n] == x && x !in s[..n]
  {
    if s[0] == x then 0
    else
      var m := FirstIndex(s[1..], x);
      assert s[..m + 1] == [s[0]] + s[1..][..m];
      m + 1
  }

  /** The first occurrence is the only occurrence with none before it. */
  lemma {:induction false} FirstIndexIs<T>(s: seq<T>, x: T, n: nat)
    requires n < |s| && s[n] == x && x !in s[..n]
    ensures FirstIndex(s, x) == n
  {
    if n > 0 {
      assert s[..n][0] == s[0];
      assert s[1..][..n - 1] == s[1..n];
      FirstIndexIs(s[1..], x, n - 1);
    }
  }

  lemma FirstIndexExtend<T>(s: seq<T>, y: T, x: T)
    requires x in s
    ensures FirstIndex(s + [y], x) == FirstIndex(s, x)
  {
    var n := FirstIndex(s, x);
    assert (s + [y])[..n] == s[..n];
    FirstIndexIs(s + [y], x, n);
  }

  /** `[...new Set(s)]`: each element once, at the place it was first seen. */
  function Dedup<T(==,!new)>(s: seq<T>): seq<T> {
    if s == [] then []
    else
      var d := Dedup(s[..|s| - 1]);
      if s[|s| - 1] in d then d else d + [s[|s| - 1]]
  }

  /** The deduplicated list has the same elements as the list. */
  lemma {:induction false} DedupMembers<T(!new)>(s: seq<T>)
    ensures forall x :: x in Dedup(s) <==> x in s
  {
    if s != [] {
      var init, x := s[..|s| - 1], s[|s| - 1];
      DedupMembers(init);
      assert s == init + [x];
    }
  }

  /** The deduplicated list has no duplicates. */
  lemma {:induction false} DedupNoDuplicates<T(!new)>(s: seq<T>)
    ensures NoDuplicates(Dedup(s))
  {
    if s != [] {
      var init := s[..|s| - 1];
      DedupNoDuplicates(init);
    }
  }

  /** The deduplicated list keeps the elements in the order of their first occurrences. */
  lemma {:induction false} DedupFirstOrder<T(!new)>(s: seq<T>)
    ensures InFirstOrder(Dedup(s), s)
  {
    if s != [] {
      var init, x := s[..|s| - 1], s[|s| - 1];
      var d := Dedup(init);
      DedupFirstOrder(init);
      DedupMembers(init);
      assert s == init + [x];
      InFirstOrderExtend(d, init, x);
      if x !in d {
        InFirstOrderAppendNew(d, init, x);
      }
    }
  }

  /** Appending to `s` keeps the first occurrences of what `s` already holds. */
  lemma InFirstOrderExtend<T>(r: seq<T>, s: seq<T>, x: T)
    requires InFirstOrder(r, s)
    ensures InFirstOrder(r, s + [x])
  {
    forall i, j | 0 <= i < j < |r|
      ensures FirstBefore(s + [x], r[i], r[j])
    {
      assert FirstBefore(s, r[i], r[j]);
      FirstIndexExtend(s, x, r[i]);
      FirstIndexExtend(s, x, r[j]);
    }
  }

  /** A new element first occurs after everything `s` holds. */
  lemma InFirstOrderAppendNew<T>(r: seq<T>, s: seq<T>, x: T)
    requires InFirstOrder(r, s) && x !in s && forall y :: y in r ==> y in s
    ensures InFirstOrder(r + [x], s + [x])
  {
    var t := s + [x];
    assert t[|s|] == x && x !in t[..|s|];
    FirstIndexIs(t, x, |s|);
    var r' := r + [x];
    forall i, j | 0 <= i < j < |r'|
      ensures FirstBefore(t, r'[i], r'[j])
    {
      assert r'[i] == r[i] && r[i] in s;
      FirstIndexExtend(s, x, r[i]);
      if j < |r| {
        assert r'[j] == r[j];
        assert FirstBefore(s, r[i], r[j]);
        FirstIndexExtend(s, x, r[j]);
      }
    }
  }

  /** The distinct trimmed non-blank elements: no duplicates, exactly the
      non-empty trimmings, in the order they first appear. */
  lemma DistinctTrimmedContents(xs: seq<string>, space: char -> bool)
    ensures var ts := TrimmedNonBlank(xs, space);
      var ds := Dedup(ts);
      && NoDuplicates(ds)
      && (forall y :: y in ds ==> y != [] && IsTrimmed(y, space))
      && (forall y :: y in ds <==> y != [] && y in TrimAll(xs, space))
      && InFirstOrder(ds, ts)
  {
    var ts := TrimmedNonBlank(xs, space);
    TrimmedNonBlankMembers(xs, space);
    DedupMembers(ts);
    DedupNoDuplicates(ts);
    DedupFirstOrder(ts);
  }

  /** A list without duplicates is left as it is. */
  lemma {:induction false} DedupDistinct<T(!new)>(s: seq<T>)
    requires NoDuplicates(s)
    ensures Dedup(s) == s
  {
    if s != [] {
      var init := s[..|s| - 1];
      DedupDistinct(init);
      DedupMembers(init);
      assert s == init + [s[|s| - 1]];
    }
  }

  /** `t` occurs in `s` starting at position `i`. */
  predicate OccursAt(s: string, t: string, i: int) {
    0 <= i && i + |t| <= |s| && s[i..i + |t|] == t
  }

  lemma OccursShift(s: string, t: string)
    requires |s| > 0
    ensures forall i :: 1 <= i ==> (OccursAt(s, t, i) <==> OccursAt(s[1..], t, i - 1))
    ensures forall j :: 0 <= j ==> (OccursAt(s[1..], t, j) <==> OccursAt(s, t, j + 1))
  {
    forall i | 1 <= i && OccursAt(s, t, i) ensures OccursAt(s[1..], t, i - 1) {
      assert s[1..][i - 1..i - 1 + |t|] == s[i..i + |t|];
    }
    forall j | 0 <= j && OccursAt(s[1..], t, j) ensures OccursAt(s, t, j + 1) {
      assert s[1..][j..j + |t|] == s[j + 1..j + 1 + |t|];
    }
  }

  /** Python's `t in s` on strings: `t` occurs in `s` as a contiguous piece. */
  function ContainsText(s: string, t: string): (b: bool)
    ensures b <==> exists i :: OccursAt(s, t, i)
  {
    if StartsWith(s, t) then
      assert OccursAt(s, t, 0);
      true
    else if |s| == 0 then
      false
    else
      OccursShift(s, t);
      assert !OccursAt(s, t, 0);
      ContainsText(s[1..], t)
  }
}
