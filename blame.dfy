/**
 * `parseGitBlame` of meta/generate_loc.js: reading the output of
 * `git blame --line-porcelain` into per-line entries, then attaching each
 * entry's author timestamp (`git show -s --format=%aI`) through a per-commit
 * cache. Git itself is an oracle: its output is a parameter.
 */
module Blame {
  import opened Wrappers
  import opened Text

  /**
   * One entry of the line list: `commit`, `author`, `authorTime`,
   * `lineContent` and `iso`, with `None` for JavaScript's `null`.
   */
  datatype LineEntry = LineEntry(
    commit: Option<string>,
    author: Option<string>,
    authorTime: Option<JsNumber>,
    lineContent: Option<string>,
    iso: Option<string>)

  /** The porcelain header line of a record: it matches `^([0-9a-f]{40})\s`. */
  predicate IsHeader(ln: string) {
    |ln| >= 41 && (forall k :: 0 <= k < 40 ==> IsLowerHex(ln[k])) && IsSpace(ln[40])
  }

  /** The content line of a record starts with a tab. */
  predicate IsTabLine(ln: string) {
    StartsWith(ln, "\t")
  }

  /** The entry a header line opens: its hash, and nothing else yet. */
  function Fresh(ln: string): LineEntry
    requires IsHeader(ln)
  {
    LineEntry(Some(ln[..40]), None, None, None, None)
  }

  /** The effect of one key/value line on the open entry. */
  function ApplyHeader(e: LineEntry, h: string): LineEntry {
    var e1 := if StartsWith(h, "author ") then e.(author := Some(h[7..])) else e;
    if StartsWith(h, "author-time ") then e1.(authorTime := Some(Times(ParseNumber(h[12..]), 1000))) else e1
  }

  /** The open entry after the key/value lines `hs`, in order. */
  function Fold(hs: seq<string>, e: LineEntry): LineEntry
    decreases |hs|
  {
    if hs == [] then e else ApplyHeader(Fold(hs[..|hs| - 1], e), hs[|hs| - 1])
  }

  lemma {:induction false} FoldCons(h: string, hs: seq<string>, e: LineEntry)
    ensures Fold([h] + hs, e) == Fold(hs, ApplyHeader(e, h))
    decreases |hs|
  {
    if hs != [] {
      FoldCons(h, hs[..|hs| - 1], e);
      assert ([h] + hs)[..|[h] + hs| - 1] == [h] + hs[..|hs| - 1];
    }
  }

  /**
   * The inner loop: from line `i` on, apply key/value lines until a tab line
   * or the end. Returns the entry and the position where it stopped.
   */
  function ScanHeaders(lines: seq<string>, i: nat, e: LineEntry): (r: (LineEntry, nat))
    requires i <= |lines|
    ensures i <= r.1 <= |lines|
    ensures r.1 < |lines| ==> IsTabLine(lines[r.1])
    ensures forall m :: i <= m < r.1 ==> !IsTabLine(lines[m])
    ensures r.0 == Fold(lines[i..r.1], e)
    decreases |lines| - i
  {
    if i < |lines| && !IsTabLine(lines[i]) then
      var r := ScanHeaders(lines, i + 1, ApplyHeader(e, lines[i]));
      FoldCons(lines[i], lines[i + 1..r.1], e);
      assert lines[i..r.1] == [lines[i]] + lines[i + 1..r.1];
      r
    else
      assert lines[i..i] == [];
      (e, i)
  }

  /** The entries read from line `i` on, with `lineContent` set and `iso` not yet. */
  function Parse(lines: seq<string>, i: nat): seq<LineEntry>
    requires i <= |lines| + 1
    decreases |lines| + 1 - i
  {
    if i >= |lines| then []
    else if IsHeader(lines[i]) then
      var r := ScanHeaders(lines, i + 1, Fresh(lines[i]));
      if r.1 < |lines| then [r.0.(lineContent := Some(lines[r.1][1..]))] + Parse(lines, r.1 + 1)
      else []
    else Parse(lines, i + 1)
  }

  /** The entry that header line `h` and tab line `t` make. */
  function Record(lines: seq<string>, h: nat, t: nat): LineEntry
    requires h < t < |lines| && IsHeader(lines[h]) && IsTabLine(lines[t])
  {
    Fold(lines[h + 1..t], Fresh(lines[h])).(lineContent := Some(lines[t][1..]))
  }

  /** `h` is a header line and `t` the first tab line after it. */
  ghost predicate Pairs(lines: seq<string>, h: nat, t: nat) {
    && h < t < |lines|
    && IsHeader(lines[h])
    && IsTabLine(lines[t])
    && (forall m :: h < m < t ==> !IsTabLine(lines[m]))
  }

  /** The inner loop of `parseGitBlame`: the key/value lines of one record, up to its tab line or the end. */
  method ReadHeaders(lines: seq<string>, start: nat, e0: LineEntry) returns (entry: LineEntry, i: nat)
    requires start <= |lines|
    ensures (entry, i) == ScanHeaders(lines, start, e0)
  {
    entry, i := e0, start;
    while i < |lines| && !StartsWith(lines[i], "\t")
      invariant start <= i <= |lines|
      invariant ScanHeaders(lines, i, entry) == ScanHeaders(lines, start, e0)
      decreases |lines| - i
    {
      var h := lines[i];
      if StartsWith(h, "author ") {
        entry := entry.(author := Some(h[7..]));
      }
      if StartsWith(h, "author-time ") {
        entry := entry.(authorTime := Some(Times(ParseNumber(h[12..]), 1000)));
      }
      i := i + 1;
    }
  }

  /** A line that is not a header is passed over. */
  lemma ParseSkip(lines: seq<string>, i: nat)
    requires i < |lines| && !IsHeader(lines[i])
    ensures Parse(lines, i) == Parse(lines, i + 1)
  {
  }

  /** A header line opens a record, emitted when a tab line closes it. */
  lemma ParseRecord(lines: seq<string>, i: nat, entry: LineEntry, j: nat)
    requires i < |lines| && IsHeader(lines[i])
    requires (entry, j) == ScanHeaders(lines, i + 1, Fresh(lines[i]))
    ensures j < |lines| ==> Parse(lines, i) == [entry.(lineContent := Some(lines[j][1..]))] + Parse(lines, j + 1)
    ensures j >= |lines| ==> Parse(lines, i) == []
  {
  }

  /** The loop of `parseGitBlame` over the lines of the porcelain output. */
  method ParseLines(lines: seq<string>) returns (results: seq<LineEntry>)
    ensures results == Parse(lines, 0)
  {
    results := [];
    var i: nat := 0;
    while i < |lines|
      invariant i <= |lines| + 1
      invariant results + Parse(lines, i) == Parse(lines, 0)
      decreases |lines| + 1 - i
    {
      var ln := lines[i];
      if IsHeader(ln) {
        var entry, j := ReadHeaders(lines, i + 1, Fresh(ln));
        ParseRecord(lines, i, entry, j);
        if j < |lines| && StartsWith(lines[j], "\t") {
          entry := entry.(lineContent := Some(lines[j][1..]));
          assert results + Parse(lines, i) == (results + [entry]) + Parse(lines, j + 1);
          results := results + [entry];
        }
        i := j;
      } else {
        ParseSkip(lines, i);
      }
      i := i + 1;
    }
  }

  /**
   * Every entry comes from a header line followed, after non-tab lines only,
   * by a tab line; its `lineContent` is that line without the tab, its commit
   * the header's 40 hexadecimal digits, and its other fields the key/value
   * lines in between.
   */
  lemma {:induction false} ParseOrigin(lines: seq<string>, i: nat, k: nat) returns (h: nat, t: nat)
    requires i <= |lines| + 1 && k < |Parse(lines, i)|
    ensures i <= h && Pairs(lines, h, t)
    ensures Parse(lines, i)[k] == Record(lines, h, t)
    ensures Parse(lines, i)[k].commit == Some(lines[h][..40])
    ensures Parse(lines, i)[k].lineContent == Some(lines[t][1..])
    decreases |lines| + 1 - i
  {
    assert i < |lines|;
    if IsHeader(lines[i]) {
      var r := ScanHeaders(lines, i + 1, Fresh(lines[i]));
      assert r.1 < |lines|;
      var rec := r.0.(lineContent := Some(lines[r.1][1..]));
      assert Parse(lines, i) == [rec] + Parse(lines, r.1 + 1);
      if k == 0 {
        h, t := i, r.1;
        assert Pairs(lines, h, t);
        FoldKeepsCommit(lines[h + 1..t], Fresh(lines[h]));
      } else {
        h, t := ParseOrigin(lines, r.1 + 1, k - 1);
      }
    } else {
      assert Parse(lines, i) == Parse(lines, i + 1);
      h, t := ParseOrigin(lines, i + 1, k);
    }
  }

  /** Key/value lines never change the commit of the open entry. */
  lemma {:induction false} FoldKeepsCommit(hs: seq<string>, e: LineEntry)
    ensures Fold(hs, e).commit == e.commit
    decreases |hs|
  {
    if hs != [] {
      ApplyHeaderFields(Fold(hs[..|hs| - 1], e), hs[|hs| - 1]);
      FoldKeepsCommit(hs[..|hs| - 1], e);
    }
  }

  /** A header line followed, after non-tab lines, by a tab line yields the first entry. */
  lemma ParseAtHeader(lines: seq<string>, h: nat, t: nat)
    requires Pairs(lines, h, t)
    ensures Parse(lines, h) == [Record(lines, h, t)] + Parse(lines, t + 1)
  {
    var r := ScanHeaders(lines, h + 1, Fresh(lines[h]));
    assert r.1 == t;
  }

  /** Without a tab line from `i` on, nothing more is emitted: a header with no tab line yields no entry. */
  lemma {:induction false} ParseWithoutTab(lines: seq<string>, i: nat)
    requires i <= |lines| + 1
    requires forall m :: i <= m < |lines| ==> !IsTabLine(lines[m])
    ensures Parse(lines, i) == []
    decreases |lines| + 1 - i
  {
    if i < |lines| {
      if IsHeader(lines[i]) {
        var r := ScanHeaders(lines, i + 1, Fresh(lines[i]));
        assert r.1 == |lines|;
      } else {
        ParseWithoutTab(lines, i + 1);
      }
    }
  }

  /** A key/value line sets `author` or `authorTime` by its prefix and leaves the rest of the entry alone. */
  lemma ApplyHeaderFields(e: LineEntry, h: string)
    ensures ApplyHeader(e, h).author == if StartsWith(h, "author ") then Some(h[7..]) else e.author
    ensures ApplyHeader(e, h).authorTime == if StartsWith(h, "author-time ") then Some(Times(ParseNumber(h[12..]), 1000)) else e.authorTime
    ensures ApplyHeader(e, h).commit == e.commit
  {
  }

  /** Folding two runs of key/value lines is folding the second over the first's result. */
  lemma {:induction false} FoldAppend(a: seq<string>, b: seq<string>, e: LineEntry)
    ensures Fold(a + b, e) == Fold(b, Fold(a, e))
    decreases |b|
  {
    if b != [] {
      var b', last := b[..|b| - 1], b[|b| - 1];
      assert (a + b)[..|a + b| - 1] == a + b' && (a + b)[|a + b| - 1] == last;
      assert Fold(a + b, e) == ApplyHeader(Fold(a + b', e), last);
      assert Fold(b, Fold(a, e)) == ApplyHeader(Fold(b', Fold(a, e)), last);
      FoldAppend(a, b', e);
    } else {
      assert a + b == a;
    }
  }

  /** Without an `author ` line the author stays as it was (`null` for a fresh entry). */
  lemma {:induction false} FoldAuthorNone(hs: seq<string>, e: LineEntry)
    requires forall j :: 0 <= j < |hs| ==> !StartsWith(hs[j], "author ")
    ensures Fold(hs, e).author == e.author
    decreases |hs|
  {
    if hs != [] {
      var init := hs[..|hs| - 1];
      ApplyHeaderFields(Fold(init, e), hs[|hs| - 1]);
      assert forall j :: 0 <= j < |init| ==> init[j] == hs[j];
      FoldAuthorNone(init, e);
    }
  }

  /** Without an `author-time ` line the time stays as it was. */
  lemma {:induction false} FoldAuthorTimeNone(hs: seq<string>, e: LineEntry)
    requires forall j :: 0 <= j < |hs| ==> !StartsWith(hs[j], "author-time ")
    ensures Fold(hs, e).authorTime == e.authorTime
    decreases |hs|
  {
    if hs != [] {
      var init := hs[..|hs| - 1];
      ApplyHeaderFields(Fold(init, e), hs[|hs| - 1]);
      assert forall j :: 0 <= j < |init| ==> init[j] == hs[j];
      FoldAuthorTimeNone(init, e);
    }
  }

  /** The last `author ` line wins. */
  lemma FoldAuthorLast(hs: seq<string>, e: LineEntry, k: nat)
    requires k < |hs| && StartsWith(hs[k], "author ")
    requires forall j :: k < j < |hs| ==> !StartsWith(hs[j], "author ")
    ensures Fold(hs, e).author == Some(hs[k][7..])
  {
    var front, back := hs[..k + 1], hs[k + 1..];
    assert Fold(hs, e) == Fold(back, Fold(front, e)) by {
      assert hs == front + back;
      FoldAppend(front, back, e);
    }
    assert Fold(front, e).author == Some(hs[k][7..]) by {
      assert front[k] == hs[k];
      ApplyHeaderFields(Fold(front[..k], e), front[k]);
    }
    assert forall j :: 0 <= j < |back| ==> back[j] == hs[k + 1 + j];
    FoldAuthorNone(back, Fold(front, e));
  }

  /** Past the last `author-time ` line, the time is the one that line set. */
  lemma FoldTimeSettled(hs: seq<string>, e: LineEntry, k: nat)
    requires k < |hs|
    requires forall j :: k < j < |hs| ==> !StartsWith(hs[j], "author-time ")
    ensures Fold(hs, e).authorTime == Fold(hs[..k + 1], e).authorTime
  {
    var front, back := hs[..k + 1], hs[k + 1..];
    assert hs == front + back;
    FoldAppend(front, back, e);
    assert forall j :: 0 <= j < |back| ==> back[j] == hs[k + 1 + j];
    FoldAuthorTimeNone(back, Fold(front, e));
  }

  /** The last `author-time ` line wins, and its value is multiplied by 1000. */
  lemma FoldAuthorTimeLast(hs: seq<string>, e: LineEntry, k: nat)
    requires k < |hs| && StartsWith(hs[k], "author-time ")
    requires forall j :: k < j < |hs| ==> !StartsWith(hs[j], "author-time ")
    ensures Fold(hs, e).authorTime == Some(Times(ParseNumber(hs[k][12..]), 1000))
  {
    var before := Fold(hs[..k], e);
    assert Fold(hs, e).authorTime == ApplyHeader(before, hs[k]).authorTime by {
      FoldTimeSettled(hs, e, k);
      FoldPrefixStep(hs, e, k);
    }
    ApplyHeaderFields(before, hs[k]);
  }

  /** One more line of the prefix is one more header applied. */
  lemma FoldPrefixStep(hs: seq<string>, e: LineEntry, k: nat)
    requires k < |hs|
    ensures Fold(hs[..k + 1], e) == ApplyHeader(Fold(hs[..k], e), hs[k])
  {
    var front := hs[..k + 1];
    assert front[..k] == hs[..k] && front[k] == hs[k];
  }

  /** An `author-time ` line is not an `author ` line: it never sets the author. */
  lemma AuthorTimeKeepsAuthor(e: LineEntry, h: string)
    requires StartsWith(h, "author-time ")
    ensures ApplyHeader(e, h).author == e.author
  {
    assert h[6] == h[..12][6] == '-';
    assert h[..7][6] == '-';
    assert !StartsWith(h, "author ");
  }

  /** The cached value of a commit: `null` for a failed or empty lookup, the trimmed output otherwise. */
  function IsoLookup(show: string -> Option<string>, c: string): Option<string> {
    match show(c)
    case None => None
    case Some(s) => if s == "" then None else Some(Trim(s))
  }

  /** An entry after the timestamp loop; one with a falsy commit is left alone. */
  function WithIso(e: LineEntry, show: string -> Option<string>): LineEntry {
    if Truthy(e.commit) then e.(iso := IsoLookup(show, e.commit.value)) else e
  }

  /** Every entry after the timestamp loop. */
  function AttachIsos(rs: seq<LineEntry>, show: string -> Option<string>): seq<LineEntry> {
    seq(|rs|, k requires 0 <= k < |rs| => WithIso(rs[k], show))
  }

  /**
   * What `commitCache` and the lookups made so far satisfy after `k` entries:
   * every cached value is the lookup's, a truthy value was fetched exactly
   * once, and the lookups are the truthy commits seen so far.
   */
  ghost predicate CacheState(rs: seq<LineEntry>, k: nat, cache: map<string, Option<string>>,
                             queried: seq<string>, show: string -> Option<string>) {
    && k <= |rs|
    && (forall c :: c in cache ==> cache[c] == IsoLookup(show, c))
    && (forall c :: c in queried ==> c in cache)
    && (forall c :: c in cache && Truthy(cache[c]) ==> multiset(queried)[c] == 1)
    && (forall j :: 0 <= j < k && Truthy(rs[j].commit) ==> rs[j].commit.value in queried)
    && (forall c :: c in queried ==> exists j :: 0 <= j < k && rs[j].commit == Some(c))
  }

  /** An entry without a commit leaves the cache alone. */
  lemma CacheSkip(rs: seq<LineEntry>, k: nat, cache: map<string, Option<string>>,
                  queried: seq<string>, show: string -> Option<string>)
    requires CacheState(rs, k, cache, queried, show) && k < |rs| && !Truthy(rs[k].commit)
    ensures CacheState(rs, k + 1, cache, queried, show)
  {
  }

  /** A commit whose cached value is truthy is not looked up again. */
  lemma CacheHit(rs: seq<LineEntry>, k: nat, cache: map<string, Option<string>>,
                 queried: seq<string>, show: string -> Option<string>)
    requires CacheState(rs, k, cache, queried, show) && k < |rs| && Truthy(rs[k].commit)
    requires rs[k].commit.value in cache && Truthy(cache[rs[k].commit.value])
    ensures CacheState(rs, k + 1, cache, queried, show)
  {
  }

  /** A commit not cached, or cached as `null`, is looked up and its value stored. */
  lemma CacheMiss(rs: seq<LineEntry>, k: nat, cache: map<string, Option<string>>,
                  queried: seq<string>, show: string -> Option<string>, c: string)
    requires CacheState(rs, k, cache, queried, show) && k < |rs| && rs[k].commit == Some(c) && c != ""
    requires c !in cache || !Truthy(cache[c])
    ensures CacheState(rs, k + 1, cache[c := IsoLookup(show, c)], queried + [c], show)
  {
    var cache', queried' := cache[c := IsoLookup(show, c)], queried + [c];
    assert multiset(queried') == multiset(queried) + multiset{c};
    forall d | d in queried' ensures exists j :: 0 <= j < k + 1 && rs[j].commit == Some(d) {
      if d == c {
        assert rs[k].commit == Some(d);
      } else {
        assert d in queried;
      }
    }
  }

  /**
   * The timestamp loop of `parseGitBlame`, with `commitCache`. `queried`
   * lists the commits passed to the oracle, in call order.
   */
  method AddTimestamps(rs: seq<LineEntry>, show: string -> Option<string>)
    returns (out: seq<LineEntry>, queried: seq<string>)
    ensures out == AttachIsos(rs, show)
    ensures forall j, k :: 0 <= j < |rs| && 0 <= k < |rs| && Truthy(rs[j].commit) && rs[j].commit == rs[k].commit ==> out[j].iso == out[k].iso
    ensures forall c :: Truthy(IsoLookup(show, c)) ==> multiset(queried)[c] <= 1
    ensures forall k :: 0 <= k < |rs| && Truthy(rs[k].commit) ==> rs[k].commit.value in queried
    ensures forall c :: c in queried ==> exists k :: 0 <= k < |rs| && rs[k].commit == Some(c)
  {
    var cache: map<string, Option<string>> := map[];
    out, queried := rs, [];
    var k: nat := 0;
    while k < |rs|
      invariant k <= |rs| && |out| == |rs|
      invariant forall j :: 0 <= j < k ==> out[j] == WithIso(rs[j], show)
      invariant forall j :: k <= j < |rs| ==> out[j] == rs[j]
      invariant CacheState(rs, k, cache, queried, show)
    {
      var r := rs[k];
      if Truthy(r.commit) {
        var c := r.commit.value;
        if c !in cache || !Truthy(cache[c]) {
          var iso := show(c);
          CacheMiss(rs, k, cache, queried, show, c);
          queried := queried + [c];
          cache := cache[c := if Truthy(iso) then Some(Trim(iso.value)) else None];
        } else {
          CacheHit(rs, k, cache, queried, show);
        }
        out := out[k := r.(iso := cache[c])];
      } else {
        CacheSkip(rs, k, cache, queried, show);
      }
      k := k + 1;
    }
  }

  /** The result of `parseGitBlame`: `null` for an empty or failed blame, the entries otherwise. */
  function BlameEntries(output: Option<string>, show: string -> Option<string>): Option<seq<LineEntry>> {
    if Truthy(output) then Some(AttachIsos(Parse(SplitLines(output.value), 0), show)) else None
  }

  /**
   * `parseGitBlame(filePath)`, given the blame output for the file and the
   * timestamp oracle; `queried` lists the timestamp lookups it makes.
   */
  method ParseGitBlame(output: Option<string>, show: string -> Option<string>)
    returns (parsed: Option<seq<LineEntry>>, queried: seq<string>)
    ensures parsed == BlameEntries(output, show)
    ensures parsed.None? <==> !Truthy(output)
    ensures forall c :: Truthy(IsoLookup(show, c)) ==> multiset(queried)[c] <= 1
  {
    if !Truthy(output) {
      return None, [];
    }
    var lines := SplitLines(output.value);
    var results := ParseLines(lines);
    var annotated;
    annotated, queried := AddTimestamps(results, show);
    parsed := Some(annotated);
  }
}
