/**
 * The commit aggregation and the brush selection of meta/main.js: records
 * of loc.csv are grouped by commit (`processCommits`), commits are placed
 * through two scales and selected by an inclusive rectangle
 * (`isCommitSelected`), and the selection yields a message
 * (`renderSelectionCount`) and a per-type line breakdown
 * (`renderLanguageBreakdown`). Dates and scales are abstract.
 */
module Commits {
  import opened Wrappers
  import opened Text
  import opened Seqs

  type Hour = h: int | 0 <= h < 24
  type Minute = m: int | 0 <= m < 60

  /** A `Date` as the charts read it: an instant, and its local hours and minutes. */
  datatype Moment = Moment(epochMs: int, hours: Hour, minutes: Minute)

  /** One row of loc.csv after loading, with `type` as `fileType`. */
  datatype LocRecord = LocRecord(
    file: string, line: int, fileType: string, commit: string, author: string,
    date: Moment, time: string, timezone: string, datetime: Moment, depth: int, length: int)

  /** One summary of `processCommits`; `lines` is the non-enumerable member list. */
  datatype CommitSummary = CommitSummary(
    id: string, url: string, author: string, date: Moment, time: string, timezone: string,
    datetime: Moment, hourFrac: real, totalLines: nat, lines: seq<LocRecord>)

  const CommitUrlPrefix := "https://github.com/YOUR_REPO/commit/"

  function CommitOf(r: LocRecord): string {
    r.commit
  }

  /** `datetime.getHours() + datetime.getMinutes() / 60`: a time of day in hours, whose whole part is the hour. */
  function HourFrac(d: Moment): (r: real)
    ensures 0.0 <= r < 24.0
    ensures r.Floor == d.hours
  {
    d.hours as real + d.minutes as real / 60.0
  }

  /** The summary of group `commit`, whose members are `lines`, read off its first record. */
  function Summarize(commit: string, lines: seq<LocRecord>): CommitSummary
    requires lines != []
  {
    var first := lines[0];
    CommitSummary(commit, CommitUrlPrefix + commit, first.author, first.date, first.time, first.timezone,
      first.datetime, HourFrac(first.datetime), |lines|, lines)
  }

  /** `processCommits`: one summary per `d3.groups` group, in order of first appearance. */
  function ProcessCommits(data: seq<LocRecord>): (r: seq<CommitSummary>)
    ensures |r| == |Keys(data, CommitOf)|
    ensures forall i :: 0 <= i < |r| ==> r[i].id == Keys(data, CommitOf)[i] && r[i].lines == Members(data, CommitOf, r[i].id)
  {
    var ks := Keys(data, CommitOf);
    KeysSpec(data, CommitOf);
    seq(|ks|, i requires 0 <= i < |ks| => Summarize(ks[i], Members(data, CommitOf, ks[i])))
  }

  /** `totalLines` of each summary, in output order. */
  function TotalLines(cs: seq<CommitSummary>): seq<int> {
    seq(|cs|, i requires 0 <= i < |cs| => cs[i].totalLines)
  }

  /**
   * The groups partition the input: ids are distinct, there are no more
   * groups than records, no group is empty, and the `totalLines` add up to
   * the number of records.
   */
  lemma ProcessCommitsPartition(data: seq<LocRecord>)
    ensures var r := ProcessCommits(data);
      && |r| <= |data|
      && (forall i, j :: 0 <= i < j < |r| ==> r[i].id != r[j].id)
      && (forall i :: 0 <= i < |r| ==> r[i].totalLines == |r[i].lines| > 0)
      && Sum(TotalLines(r)) == |data|
  {
    var r := ProcessCommits(data);
    var ks := Keys(data, CommitOf);
    KeysSpec(data, CommitOf);
    KeysLength(data, CommitOf);
    forall i | 0 <= i < |r| ensures r[i].totalLines == |r[i].lines| > 0 {
      assert ks[i] in ks;
    }
    PartitionSum(data, CommitOf);
    assert TotalLines(r) == GroupSizes(data, CommitOf, ks);
  }

  /** Every member of a group is an input record with the group's id, and every record's id names a group. */
  lemma ProcessCommitsMembers(data: seq<LocRecord>)
    ensures var r := ProcessCommits(data);
      && (forall i, x :: 0 <= i < |r| && x in r[i].lines ==> x in data && x.commit == r[i].id)
      && (forall n :: 0 <= n < |data| ==> exists i :: 0 <= i < |r| && r[i].id == data[n].commit)
  {
    var r := ProcessCommits(data);
    var ks := Keys(data, CommitOf);
    forall i | 0 <= i < |r| ensures forall x :: x in r[i].lines ==> x in data && x.commit == r[i].id {
      MembersHaveKey(data, CommitOf, ks[i]);
    }
    KeysSpec(data, CommitOf);
    forall n | 0 <= n < |data| ensures exists i :: 0 <= i < |r| && r[i].id == data[n].commit {
      assert CommitOf(data[n]) in ks;
      var i :| 0 <= i < |ks| && ks[i] == CommitOf(data[n]);
      assert r[i].id == data[n].commit;
    }
  }

  /**
   * Each summary describes the first record of its group in input order:
   * its author, date, time, timezone and datetime are that record's, and its
   * url names the commit.
   */
  lemma ProcessCommitsHeads(data: seq<LocRecord>, i: nat)
    requires i < |ProcessCommits(data)|
    ensures var s := ProcessCommits(data)[i];
      exists n :: 0 <= n < |data|
        && data[n].commit == s.id
        && (forall j :: 0 <= j < n ==> data[j].commit != s.id)
        && s.author == data[n].author && s.date == data[n].date && s.time == data[n].time
        && s.timezone == data[n].timezone && s.datetime == data[n].datetime
        && s.hourFrac == HourFrac(data[n].datetime)
        && s.url == CommitUrlPrefix + s.id
  {
    var ks := Keys(data, CommitOf);
    assert ks[i] in ks;
    var n := GroupHead(data, CommitOf, ks[i]);
  }

  /** Groups come in order of first appearance: those of a prefix of the records head the list. */
  lemma ProcessCommitsOrder(data: seq<LocRecord>, n: nat)
    requires n <= |data|
    ensures var a, b := ProcessCommits(data[..n]), ProcessCommits(data);
      |a| <= |b| && forall i :: 0 <= i < |a| ==> a[i].id == b[i].id
  {
    KeysOfPrefix(data, CommitOf, n);
  }

  // --------------------------------------------------------------- selection

  /** A brush selection `[[x0, y0], [x1, y1]]` in screen coordinates. */
  datatype Rect = Rect(x0: real, y0: real, x1: real, y1: real)

  /** The chart's `xScale` and `yScale`, abstract. */
  datatype Scales = Scales(x: Moment -> real, y: real -> real)

  /**
   * `isCommitSelected`: no selection selects nothing; otherwise the dot must
   * lie in the rectangle, and a dot on a corner or a border counts as inside.
   */
  predicate IsCommitSelected(selection: Option<Rect>, c: CommitSummary, sc: Scales) {
    match selection
    case None => false
    case Some(r) =>
      var cx, cy := sc.x(c.datetime), sc.y(c.hourFrac);
      r.x0 <= cx && cx <= r.x1 && r.y0 <= cy && cy <= r.y1
  }

  /** A larger rectangle selects every commit a smaller one does. */
  lemma SelectionMonotone(small: Rect, big: Rect, c: CommitSummary, sc: Scales)
    requires big.x0 <= small.x0 && small.x1 <= big.x1 && big.y0 <= small.y0 && small.y1 <= big.y1
    ensures IsCommitSelected(Some(small), c, sc) ==> IsCommitSelected(Some(big), c, sc)
  {
  }

  function SelectedPred(selection: Option<Rect>, sc: Scales): CommitSummary -> bool {
    c => IsCommitSelected(selection, c, sc)
  }

  /** `selectedCommits`: the commits the selection picks, in array order; none without a selection. */
  function SelectedCommits(selection: Option<Rect>, commits: seq<CommitSummary>, sc: Scales): seq<CommitSummary> {
    if selection.None? then [] else Filter(commits, SelectedPred(selection, sc))
  }

  /** The selection keeps exactly the commits that pass `isCommitSelected`. */
  lemma SelectedCommitsSpec(selection: Option<Rect>, commits: seq<CommitSummary>, sc: Scales)
    ensures forall c :: c in SelectedCommits(selection, commits, sc) <==> c in commits && IsCommitSelected(selection, c, sc)
    ensures |SelectedCommits(selection, commits, sc)| <= |commits|
  {
    if selection.Some? {
      FilterMembership(commits, SelectedPred(selection, sc));
      FilterMultiset(commits, SelectedPred(selection, sc));
      FilterLength(commits, SelectedPred(selection, sc));
    }
  }

  /** Reordering the commits (as the sort does) leaves the number selected unchanged. */
  lemma SelectionCountPermutation(selection: Option<Rect>, a: seq<CommitSummary>, b: seq<CommitSummary>, sc: Scales)
    requires multiset(a) == multiset(b)
    ensures |SelectedCommits(selection, a, sc)| == |SelectedCommits(selection, b, sc)|
  {
    if selection.Some? {
      FilterPermutation(a, b, SelectedPred(selection, sc));
    }
  }

  /** The text of `#selection-count`: `${n || 'No'} commits selected`. */
  function SelectionMessage(selection: Option<Rect>, commits: seq<CommitSummary>, sc: Scales): string {
    var n := |SelectedCommits(selection, commits, sc)|;
    (if n == 0 then "No" else NatToString(n)) + " commits selected"
  }

  /**
   * The message is `No commits selected` exactly when nothing is selected;
   * otherwise it starts with the count in decimal, in the plural whatever
   * the count.
   */
  lemma SelectionMessageSpec(selection: Option<Rect>, commits: seq<CommitSummary>, sc: Scales)
    ensures var n := |SelectedCommits(selection, commits, sc)|;
      var msg := SelectionMessage(selection, commits, sc);
      && (msg == "No commits selected" <==> n == 0)
      && (n > 0 ==> exists p :: msg == p + " commits selected" && p != [] && AllDigits(p) && DecimalValue(p) == n)
  {
    var n := |SelectedCommits(selection, commits, sc)|;
    var msg := SelectionMessage(selection, commits, sc);
    if n > 0 {
      var p := NatToString(n);
      NatToStringSpec(n);
      assert msg == p + " commits selected";
      assert msg[0] != 'N' by {
        assert msg[0] == p[0];
        assert IsDigit(p[0]);
      }
    }
  }

  // --------------------------------------------------------------- breakdown

  /** One entry of the breakdown: a type, its number of lines and its share of all selected lines. */
  datatype LangShare = LangShare(lang: string, count: nat, proportion: real)

  function TypeOf(r: LocRecord): string {
    r.fileType
  }

  function LinesOf(c: CommitSummary): seq<LocRecord> {
    c.lines
  }

  /** `selectedCommits.flatMap(d => d.lines)`. */
  function SelectedLines(selection: Option<Rect>, commits: seq<CommitSummary>, sc: Scales): seq<LocRecord> {
    FlatMap(SelectedCommits(selection, commits, sc), LinesOf)
  }

  /** The entries `renderLanguageBreakdown` writes: none without selected commits, else one per `d3.rollup` group. */
  function Breakdown(selection: Option<Rect>, commits: seq<CommitSummary>, sc: Scales): seq<LangShare> {
    if |SelectedCommits(selection, commits, sc)| == 0 then []
    else
      var lines := SelectedLines(selection, commits, sc);
      var langs := Keys(lines, TypeOf);
      seq(|langs|, j requires 0 <= j < |langs| =>
        var count := |Members(lines, TypeOf, langs[j])|;
        LangShare(langs[j], count, count as real / |lines| as real))
  }

  function Counts(entries: seq<LangShare>): seq<int> {
    seq(|entries|, i requires 0 <= i < |entries| => entries[i].count)
  }

  function SumReal(xs: seq<real>): real
    decreases |xs|
  {
    if xs == [] then 0.0 else SumReal(xs[..|xs| - 1]) + xs[|xs| - 1]
  }

  function Proportions(entries: seq<LangShare>): seq<real> {
    seq(|entries|, i requires 0 <= i < |entries| => entries[i].proportion)
  }

  /** Dividing every count by the same total divides their sum by it. */
  lemma {:induction false} SumOfShares(entries: seq<LangShare>, total: nat)
    requires total > 0
    requires forall i :: 0 <= i < |entries| ==> entries[i].proportion == entries[i].count as real / total as real
    ensures SumReal(Proportions(entries)) == Sum(Counts(entries)) as real / total as real
    decreases |entries|
  {
    if entries != [] {
      var init := entries[..|entries| - 1];
      SumOfShares(init, total);
      assert Proportions(entries)[..|init|] == Proportions(init);
      assert Counts(entries)[..|init|] == Counts(init);
    }
  }

  function Langs(entries: seq<LangShare>): seq<string> {
    seq(|entries|, i requires 0 <= i < |entries| => entries[i].lang)
  }

  /**
   * Without selected commits the breakdown is empty. Otherwise its types
   * are the distinct types of the selected commits' lines, in order of
   * first appearance, each with the positive number of lines of that type.
   */
  lemma BreakdownEntries(selection: Option<Rect>, commits: seq<CommitSummary>, sc: Scales)
    ensures |SelectedCommits(selection, commits, sc)| == 0 ==> Breakdown(selection, commits, sc) == []
    ensures var b, lines := Breakdown(selection, commits, sc), SelectedLines(selection, commits, sc);
      |SelectedCommits(selection, commits, sc)| > 0 ==>
        && Langs(b) == Keys(lines, TypeOf)
        && Distinct(Langs(b))
        && (forall t :: t in Langs(b) <==> exists n :: 0 <= n < |lines| && lines[n].fileType == t)
        && (forall i :: 0 <= i < |b| ==> b[i].count == |Members(lines, TypeOf, b[i].lang)| > 0)
  {
    var b, lines := Breakdown(selection, commits, sc), SelectedLines(selection, commits, sc);
    if |SelectedCommits(selection, commits, sc)| > 0 {
      var langs := Keys(lines, TypeOf);
      KeysSpec(lines, TypeOf);
      assert Langs(b) == langs;
      forall t | t in langs ensures exists n :: 0 <= n < |lines| && lines[n].fileType == t {
        MembersHaveKey(lines, TypeOf, t);
        var x := Members(lines, TypeOf, t)[0];
        assert x in Members(lines, TypeOf, t);
        var n :| 0 <= n < |lines| && lines[n] == x;
      }
      forall i | 0 <= i < |b| ensures b[i].count > 0 {
        assert langs[i] in langs;
      }
    }
  }

  lemma BreakdownShares(selection: Option<Rect>, commits: seq<CommitSummary>, sc: Scales)
    requires |SelectedCommits(selection, commits, sc)| > 0
    ensures var b, lines := Breakdown(selection, commits, sc), SelectedLines(selection, commits, sc);
      && Counts(b) == GroupSizes(lines, TypeOf, Keys(lines, TypeOf))
      && (|lines| > 0 ==> forall i :: 0 <= i < |b| ==> b[i].proportion == b[i].count as real / |lines| as real)
  {
  }

  /** Shares of a total that the counts add up to add up to 1. */
  lemma SharesSumToOne(entries: seq<LangShare>, total: nat)
    requires total > 0 && Sum(Counts(entries)) == total
    requires forall i :: 0 <= i < |entries| ==> entries[i].proportion == entries[i].count as real / total as real
    ensures SumReal(Proportions(entries)) == 1.0
  {
    SumOfShares(entries, total);
    var t := total as real;
    assert t / t == 1.0;
  }

  /** The counts add up to the number of selected lines, and the shares add up to 1. */
  lemma BreakdownTotals(selection: Option<Rect>, commits: seq<CommitSummary>, sc: Scales)
    ensures var b, lines := Breakdown(selection, commits, sc), SelectedLines(selection, commits, sc);
      |SelectedCommits(selection, commits, sc)| > 0 ==>
        Sum(Counts(b)) == |lines| && (|lines| > 0 ==> SumReal(Proportions(b)) == 1.0)
  {
    var b, lines := Breakdown(selection, commits, sc), SelectedLines(selection, commits, sc);
    if |SelectedCommits(selection, commits, sc)| > 0 {
      BreakdownShares(selection, commits, sc);
      PartitionSum(lines, TypeOf);
      if |lines| > 0 {
        SharesSumToOne(b, |lines|);
      }
    }
  }

  /** The loop of `renderLanguageBreakdown` over the rollup's entries, one entry written per type. */
  method LanguageBreakdown(selection: Option<Rect>, commits: seq<CommitSummary>, sc: Scales) returns (entries: seq<LangShare>)
    ensures entries == Breakdown(selection, commits, sc)
  {
    var selected := SelectedCommits(selection, commits, sc);
    if |selected| == 0 {
      return [];
    }
    var lines := FlatMap(selected, LinesOf);
    var breakdown := Keys(lines, TypeOf);
    ghost var spec := Breakdown(selection, commits, sc);
    entries := [];
    for i := 0 to |breakdown|
      invariant entries == spec[..i]
    {
      var lang := breakdown[i];
      var count := |Members(lines, TypeOf, lang)|;
      var proportion := count as real / |lines| as real;
      entries := entries + [LangShare(lang, count, proportion)];
    }
    assert spec[..|breakdown|] == spec;
  }

  // ------------------------------------------------------------------ stats

  /** `renderCommitInfo`: the total number of lines and of commits. */
  function CommitInfo(data: seq<LocRecord>, commits: seq<CommitSummary>): (nat, nat) {
    (|data|, |commits|)
  }

  /** There are at most as many commits as lines, and some commit whenever there is a line. */
  lemma CommitInfoSpec(data: seq<LocRecord>)
    ensures var info := CommitInfo(data, ProcessCommits(data));
      info.1 <= info.0 && (info.0 > 0 ==> info.1 > 0)
  {
    KeysLength(data, CommitOf);
    if |data| > 0 {
      KeysSpec(data, CommitOf);
      assert CommitOf(data[0]) in Keys(data, CommitOf);
    }
  }
}
