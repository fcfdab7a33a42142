/**
 * Line 99 of meta/main.js sorts the commit array in place by `totalLines`
 * before drawing; the brush handlers then filter that same, now sorted,
 * array.
 */
module CommitSort {
  import opened Wrappers
  import opened Seqs
  import opened Commits

  ghost predicate SortedByLines(s: seq<CommitSummary>) {
    forall i, j :: 0 <= i < j < |s| ==> s[i].totalLines <= s[j].totalLines
  }

  /** `s[..i + 1]` is sorted once position `j` is left out, and `s[j]` is at most everything after it. */
  ghost predicate InsertState(s: seq<CommitSummary>, i: nat, j: nat) {
    && j <= i < |s|
    && (forall p, q :: 0 <= p < q <= i && p != j && q != j ==> s[p].totalLines <= s[q].totalLines)
    && (forall q :: j < q <= i ==> s[j].totalLines <= s[q].totalLines)
    && (0 < j < i ==> s[j - 1].totalLines <= s[j + 1].totalLines)
  }

  function Swapped(s: seq<CommitSummary>, j: nat): seq<CommitSummary>
    requires 0 < j < |s|
  {
    s[j - 1 := s[j]][j := s[j - 1]]
  }

  function HasLines(n: int): CommitSummary -> bool {
    (c: CommitSummary) => c.totalLines == n
  }

  /**
   * Stability: for every line count, the commits with that count appear in
   * `a` in the same order as in `b` (JavaScript's `Array.prototype.sort` is
   * stable).
   */
  ghost predicate SameTies(a: seq<CommitSummary>, b: seq<CommitSummary>) {
    forall n :: Filter(a, HasLines(n)) == Filter(b, HasLines(n))
  }

  lemma PairTies(x: CommitSummary, y: CommitSummary, n: int)
    requires x.totalLines != y.totalLines
    ensures Filter([x, y], HasLines(n)) == Filter([y, x], HasLines(n))
  {
    assert [x, y][..1] == [x] && [y, x][..1] == [y];
    assert [x][..0] == [] && [y][..0] == [];
  }

  /** Swapping two neighbours with different line counts keeps every tie in order. */
  lemma SwapKeepsTies(s: seq<CommitSummary>, j: nat)
    requires 0 < j < |s| && s[j - 1].totalLines != s[j].totalLines
    ensures SameTies(Swapped(s, j), s)
  {
    var pre, x, y, post := s[..j - 1], s[j - 1], s[j], s[j + 1..];
    assert s == pre + [x, y] + post;
    assert Swapped(s, j) == pre + [y, x] + post;
    forall n ensures Filter(Swapped(s, j), HasLines(n)) == Filter(s, HasLines(n)) {
      FilterAppend(pre + [x, y], post, HasLines(n));
      FilterAppend(pre, [x, y], HasLines(n));
      FilterAppend(pre + [y, x], post, HasLines(n));
      FilterAppend(pre, [y, x], HasLines(n));
      PairTies(x, y, n);
    }
  }

  lemma InsertStart(s: seq<CommitSummary>, i: nat)
    requires i < |s| && SortedByLines(s[..i])
    ensures InsertState(s, i, i)
  {
    forall p, q | 0 <= p < q <= i && p != i && q != i ensures s[p].totalLines <= s[q].totalLines {
      assert s[..i][p] == s[p] && s[..i][q] == s[q];
    }
  }

  /** Swapping a larger left neighbour moves the gap one place left. */
  lemma InsertStep(s: seq<CommitSummary>, i: nat, j: nat)
    requires InsertState(s, i, j) && 0 < j && s[j - 1].totalLines > s[j].totalLines
    ensures InsertState(Swapped(s, j), i, j - 1)
    ensures multiset(Swapped(s, j)) == multiset(s)
  {
  }

  /** A commit of `s` is kept by the filter for its own line count. */
  lemma InOwnTie(s: seq<CommitSummary>, x: CommitSummary)
    requires x in s
    ensures x in Filter(s, HasLines(x.totalLines))
  {
    FilterMembership(s, HasLines(x.totalLines));
  }

  /** Filtering a non-empty array by a line count: the filtered prefix, then its last commit if it has that count. */
  lemma TieSnoc(s: seq<CommitSummary>, n: int)
    requires s != []
    ensures Filter(s, HasLines(n)) == Filter(s[..|s| - 1], HasLines(n)) + (if s[|s| - 1].totalLines == n then [s[|s| - 1]] else [])
  {
  }

  /** Of two sorted arrays with the same ties, neither's largest count exceeds the other's. */
  lemma LastAtMost(a: seq<CommitSummary>, b: seq<CommitSummary>)
    requires a != [] && b != [] && SortedByLines(b) && SameTies(a, b)
    ensures a[|a| - 1].totalLines <= b[|b| - 1].totalLines
  {
    var x := a[|a| - 1];
    InOwnTie(a, x);
    FilterMembership(b, HasLines(x.totalLines));
    var k :| 0 <= k < |b| && b[k] == x;
    if k < |b| - 1 {
      assert b[k].totalLines <= b[|b| - 1].totalLines;
    }
  }

  /** Two sorted arrays with the same ties end in the same commit, and their prefixes keep the same ties. */
  lemma SameLast(a: seq<CommitSummary>, b: seq<CommitSummary>)
    requires a != [] && b != [] && SortedByLines(a) && SortedByLines(b) && SameTies(a, b)
    ensures a[|a| - 1] == b[|b| - 1]
    ensures SameTies(a[..|a| - 1], b[..|b| - 1])
  {
    LastAtMost(a, b);
    LastAtMost(b, a);
    var x, y := a[|a| - 1], b[|b| - 1];
    var f := Filter(a, HasLines(x.totalLines));
    assert f == Filter(b, HasLines(x.totalLines));
    TieSnoc(a, x.totalLines);
    TieSnoc(b, x.totalLines);
    assert f[|f| - 1] == x && f[|f| - 1] == y;
    forall n ensures Filter(a[..|a| - 1], HasLines(n)) == Filter(b[..|b| - 1], HasLines(n)) {
      var g, ga, gb := Filter(a, HasLines(n)), Filter(a[..|a| - 1], HasLines(n)), Filter(b[..|b| - 1], HasLines(n));
      assert g == Filter(b, HasLines(n));
      TieSnoc(a, n);
      TieSnoc(b, n);
      assert ga == g[..|ga|] && gb == g[..|gb|];
    }
  }

  lemma SortedPrefix(s: seq<CommitSummary>, n: nat)
    requires SortedByLines(s) && n <= |s|
    ensures SortedByLines(s[..n])
  {
    forall i, j | 0 <= i < j < n ensures s[..n][i].totalLines <= s[..n][j].totalLines {
      assert s[..n][i] == s[i] && s[..n][j] == s[j];
    }
  }

  /**
   * A sorted, stable arrangement is unique: two arrays sorted by line count
   * that keep every tie in the same order are equal. So the order in which
   * the brush handlers meet the commits is fully determined.
   */
  lemma {:induction false} StableSortUnique(a: seq<CommitSummary>, b: seq<CommitSummary>)
    requires SortedByLines(a) && SortedByLines(b) && SameTies(a, b)
    ensures a == b
    decreases |a| + |b|
  {
    if a == [] && b != [] {
      InOwnTie(b, b[0]);
      assert false;
    } else if a != [] && b == [] {
      InOwnTie(a, a[0]);
      assert false;
    } else if a != [] {
      SameLast(a, b);
      SortedPrefix(a, |a| - 1);
      SortedPrefix(b, |b| - 1);
      StableSortUnique(a[..|a| - 1], b[..|b| - 1]);
      assert a == a[..|a| - 1] + [a[|a| - 1]];
      assert b == b[..|b| - 1] + [b[|b| - 1]];
    }
  }

  /** Once the left neighbour is no larger, the prefix is sorted. */
  lemma InsertDone(s: seq<CommitSummary>, i: nat, j: nat)
    requires InsertState(s, i, j) && (j == 0 || s[j - 1].totalLines <= s[j].totalLines)
    ensures SortedByLines(s[..i + 1])
  {
    var done := s[..i + 1];
    forall p, q | 0 <= p < q < |done| ensures done[p].totalLines <= done[q].totalLines {
      assert done[p] == s[p] && done[q] == s[q];
    }
  }

  /** Moves `a[i]` left past every larger neighbour, so that `a[..i + 1]` is sorted. */
  method InsertAt(a: array<CommitSummary>, i: nat)
    requires i < a.Length && SortedByLines(a[..i])
    modifies a
    ensures SortedByLines(a[..i + 1])
    ensures multiset(a[..]) == old(multiset(a[..]))
    ensures SameTies(a[..], old(a[..]))
  {
    InsertStart(a[..], i);
    var j: nat := i;
    while j > 0 && a[j - 1].totalLines > a[j].totalLines
      invariant InsertState(a[..], i, j)
      invariant multiset(a[..]) == old(multiset(a[..]))
      invariant SameTies(a[..], old(a[..]))
      decreases j
    {
      ghost var s := a[..];
      InsertStep(s, i, j);
      SwapKeepsTies(s, j);
      a[j - 1], a[j] := a[j], a[j - 1];
      assert a[..] == Swapped(s, j);
      j := j - 1;
    }
    InsertDone(a[..], i, j);
  }

  /**
   * `commits.sort((a, b) => a.totalLines - b.totalLines)`: the array ends
   * sorted, holds the same commits, and keeps commits with equal counts in
   * their original order.
   */
  method SortByLines(a: array<CommitSummary>)
    modifies a
    ensures SortedByLines(a[..])
    ensures multiset(a[..]) == old(multiset(a[..]))
    ensures SameTies(a[..], old(a[..]))
  {
    for i := 0 to a.Length
      invariant SortedByLines(a[..i])
      invariant multiset(a[..]) == old(multiset(a[..]))
      invariant SameTies(a[..], old(a[..]))
    {
      InsertAt(a, i);
    }
    assert a[..a.Length] == a[..];
  }

  /**
   * The part of `renderScatterPlot` that computes: sort the commits in place,
   * then answer a brush selection with the message and the breakdown over
   * the sorted array. The number of commits selected is the one the
   * unsorted array would give.
   */
  method RenderScatterPlot(commits: array<CommitSummary>, selection: Option<Rect>, sc: Scales)
    returns (message: string, breakdown: seq<LangShare>)
    modifies commits
    ensures SortedByLines(commits[..]) && multiset(commits[..]) == old(multiset(commits[..]))
    ensures SameTies(commits[..], old(commits[..]))
    ensures message == SelectionMessage(selection, commits[..], sc)
    ensures |SelectedCommits(selection, commits[..], sc)| == |SelectedCommits(selection, old(commits[..]), sc)|
    ensures breakdown == Breakdown(selection, commits[..], sc)
  {
    ghost var before := commits[..];
    SortByLines(commits);
    var sorted := commits[..];
    SelectionCountPermutation(selection, sorted, before, sc);
    message := SelectionMessage(selection, sorted, sc);
    breakdown := LanguageBreakdown(selection, sorted, sc);
  }
}
