/**
 * The rest of meta/generate_loc.js: the file walk (`getAllFiles`), the
 * fallback line reader (`simpleLines`), timestamp splitting (`splitISO`),
 * field escaping (`esc`) and the loop that builds the rows of loc.csv.
 * The filesystem, git, the clock and `Math.random` are parameters.
 */
module LocCsv {
  import opened Wrappers
  import opened Text
  import opened Seqs
  import opened Paths
  import opened Blame

  /** The header row of loc.csv. */
  const Header := "file,line,type,commit,author,date,time,timezone,datetime,depth,length"

  /** `extInclude`. */
  const ExtInclude: seq<string> := [".js", ".css"]

  // ---------------------------------------------------------------- files

  /** A directory entry as `fs.readdirSync(dir, { withFileTypes: true })` lists it, with its own listing. */
  datatype DirEntry = DirEntry(name: string, isDirectory: bool, items: seq<DirEntry>)

  /** Every name in the tree is a plain entry name. */
  ghost predicate ValidTree(items: seq<DirEntry>)
    decreases items
  {
    forall k :: 0 <= k < |items| ==> IsEntryName(items[k].name) && ValidTree(items[k].items)
  }

  /** The paths one entry contributes to `getAllFiles(dir)`. */
  function EntryFiles(dir: string, it: DirEntry): seq<string>
    decreases it
  {
    if it.name == "node_modules" || it.name == ".git" then []
    else if it.isDirectory then AllFiles(JoinPath(dir, it.name), it.items)
    else if Lower(ExtName(it.name)) in ExtInclude then [JoinPath(dir, it.name)]
    else []
  }

  /** `getAllFiles(dir)` for a directory whose listing is `items`. */
  function AllFiles(dir: string, items: seq<DirEntry>): seq<string>
    decreases items
  {
    if items == [] then [] else AllFiles(dir, items[..|items| - 1]) + EntryFiles(dir, items[|items| - 1])
  }

  /** `getAllFiles`: a depth-first walk that skips `node_modules` and `.git`. */
  method GetAllFiles(dir: string, items: seq<DirEntry>) returns (out: seq<string>)
    ensures out == AllFiles(dir, items)
    decreases items
  {
    out := [];
    for k := 0 to |items|
      invariant out == AllFiles(dir, items[..k])
    {
      var it := items[k];
      assert items[..k + 1][..k] == items[..k];
      if it.name == "node_modules" || it.name == ".git" {
        continue;
      }
      var full := JoinPath(dir, it.name);
      if it.isDirectory {
        var sub := GetAllFiles(full, it.items);
        out := out + sub;
      } else if Lower(ExtName(it.name)) in ExtInclude {
        out := out + [full];
      }
    }
    assert items[..|items|] == items;
  }

  /** Every path the walk returns has, in lower case, an included extension. */
  lemma {:induction false} AllFilesIncluded(dir: string, items: seq<DirEntry>)
    requires ValidTree(items)
    ensures forall p :: p in AllFiles(dir, items) ==> Lower(ExtName(p)) in ExtInclude
    decreases items
  {
    if items != [] {
      var it := items[|items| - 1];
      AllFilesIncluded(dir, items[..|items| - 1]);
      if it.name != "node_modules" && it.name != ".git" {
        if it.isDirectory {
          AllFilesIncluded(JoinPath(dir, it.name), it.items);
        } else {
          ExtNameOfJoin(dir, it.name);
        }
      }
    }
  }

  /** Whatever one entry of the listing contributes is in the walk's result. */
  lemma {:induction false} EntryInAllFiles(dir: string, items: seq<DirEntry>, k: nat, p: string)
    requires k < |items| && p in EntryFiles(dir, items[k])
    ensures p in AllFiles(dir, items)
    decreases |items|
  {
    var init := items[..|items| - 1];
    if k < |items| - 1 {
      assert init[k] == items[k];
      EntryInAllFiles(dir, init, k, p);
    }
  }

  /** Conversely, a listed file outside `node_modules` and `.git` with an included extension is walked. */
  lemma WalkedFile(dir: string, items: seq<DirEntry>, k: nat)
    requires k < |items| && !items[k].isDirectory
    requires items[k].name != "node_modules" && items[k].name != ".git"
    requires Lower(ExtName(items[k].name)) in ExtInclude
    ensures JoinPath(dir, items[k].name) in AllFiles(dir, items)
  {
    EntryInAllFiles(dir, items, k, JoinPath(dir, items[k].name));
  }

  /** The walk descends into every directory other than `node_modules` and `.git`. */
  lemma WalkedSubdirectory(dir: string, items: seq<DirEntry>, k: nat, p: string)
    requires k < |items| && items[k].isDirectory
    requires items[k].name != "node_modules" && items[k].name != ".git"
    requires p in AllFiles(JoinPath(dir, items[k].name), items[k].items)
    ensures p in AllFiles(dir, items)
  {
    EntryInAllFiles(dir, items, k, p);
  }

  /** `.filter(f => !f.includes('loc.csv'))`. */
  function NotOutput(f: string): bool {
    !Contains(f, "loc.csv")
  }

  // ---------------------------------------------------------- file type

  /** The `type` column: the extension without its dot when it is `.js` or `.css` as written, else `other`. */
  function FileType(filePath: string): string {
    var e := ExtName(filePath);
    if e in ExtInclude then e[1..] else "other"
  }

  /** `type` is `js`, `css` or `other`, and it names the extension exactly when that extension is included. */
  lemma FileTypeSpec(filePath: string)
    ensures FileType(filePath) in {"js", "css", "other"}
    ensures FileType(filePath) != "other" <==> ExtName(filePath) in ExtInclude
    ensures FileType(filePath) != "other" ==> "." + FileType(filePath) == ExtName(filePath)
  {
    var e := ExtName(filePath);
    if e in ExtInclude {
      assert e == ".js" || e == ".css";
      assert e[1..] != "other";
    }
  }

  /**
   * A file whose extension is an included one only once lower-cased passes
   * the (lower-casing) file filter but has type `other`.
   */
  lemma CaseSensitiveType(stem: string, t: string)
    requires IsEntryName(stem) && t != [] && '.' !in t && '/' !in t
    requires Lower("." + t) in ExtInclude && "." + t !in ExtInclude
    ensures Lower(ExtName(stem + "." + t)) in ExtInclude
    ensures FileType(stem + "." + t) == "other"
  {
    ExtNameOfName(stem, t);
  }

  /** `X.JS` is such a file. */
  lemma UpperCaseExtension()
    ensures Lower(ExtName("X.JS")) in ExtInclude
    ensures FileType("X.JS") == "other"
  {
    assert Lower(".JS") == ".js" by {
      var l := Lower(".JS");
      assert l[0] == LowerChar('.') == '.';
      assert l[1] == LowerChar('J') == 'j';
      assert l[2] == LowerChar('S') == 's';
    }
    assert ".JS" !in ExtInclude by {
      assert ".JS"[1] != ".js"[1];
      assert |".JS"| != |".css"|;
    }
    assert "." + "JS" == ".JS";
    assert "X" + "." + "JS" == "X.JS";
    CaseSensitiveType("X", "JS");
  }

  // ------------------------------------------------------------ simpleLines

  /** `simpleLines`: one entry per segment of the file split on `\r?\n`. */
  function SimpleLines(txt: string): (r: seq<LineEntry>)
    ensures |r| == CountChar(txt, '\n') + 1
  {
    var ls := SplitLines(txt);
    SplitLinesCount(txt);
    seq(|ls|, k requires 0 <= k < |ls| => LineEntry(None, Some("Unknown"), None, Some(ls[k]), None))
  }

  /**
   * Every `simpleLines` entry has no commit, no date, author `Unknown`, and
   * the k-th segment of the file split on `\r?\n` as its content.
   */
  lemma SimpleLinesContents(txt: string)
    ensures |SimpleLines(txt)| == |SplitLines(txt)|
    ensures forall k :: 0 <= k < |SimpleLines(txt)| ==>
      && SimpleLines(txt)[k].commit == None && SimpleLines(txt)[k].author == Some("Unknown")
      && SimpleLines(txt)[k].iso == None && SimpleLines(txt)[k].lineContent == Some(SplitLines(txt)[k])
  {
  }

  /** The line contents of `simpleLines`, joined with `\n`, give back a file without carriage returns. */
  lemma SimpleLinesJoin(txt: string)
    requires '\r' !in txt
    ensures Join(seq(|SimpleLines(txt)|, k requires 0 <= k < |SimpleLines(txt)| => SimpleLines(txt)[k].lineContent.value), "\n") == txt
  {
    var ls := SplitLines(txt);
    assert seq(|SimpleLines(txt)|, k requires 0 <= k < |SimpleLines(txt)| => SimpleLines(txt)[k].lineContent.value) == ls;
    JoinSplitLines(txt);
  }

  // --------------------------------------------------------------- splitISO

  /** The parts of a timestamp as the rows carry them. */
  datatype Stamp = Stamp(date: string, time: string, tz: string, datetime: string)

  /** A reading of the clock: `d.toISOString()`, `d.toTimeString()` and `d.getTimezoneOffset()`. */
  datatype Clock = Clock(isoString: string, timeString: string, timezoneOffset: int)

  /** `padStart(2, '0')`. */
  function Pad2(s: string): string {
    if |s| == 0 then "00" else if |s| == 1 then "0" + s else s
  }

  /** The `±hh:mm` string the fallback builds from `tzOffset` (minutes east of UTC). */
  function FormatOffset(m: int): string {
    var a: nat := if m < 0 then -m else m;
    (if m >= 0 then "+" else "-") + Pad2(NatToString(a / 60)) + ":" + Pad2(NatToString(a % 60))
  }

  /** A two-digit field reads back as its value. */
  lemma Pad2Spec(n: nat)
    requires n < 100
    ensures |Pad2(NatToString(n))| == 2 && AllDigits(Pad2(NatToString(n)))
    ensures DecimalValue(Pad2(NatToString(n))) == n
  {
    NatToStringSpec(n);
    var d := NatToString(n);
    if n < 10 {
      var p := "0" + d;
      assert p[..1] == "0";
      assert DecimalValue(p[..1]) == 0 by {
        assert p[..1][..0] == [];
      }
    }
  }

  /** `z` has the shape `[+-]\d{2}:\d{2}`. */
  predicate OffsetShape(z: string) {
    |z| == 6 && (z[0] == '+' || z[0] == '-') && IsDigit(z[1]) && IsDigit(z[2]) && z[3] == ':' && IsDigit(z[4]) && IsDigit(z[5])
  }

  /** The pieces of a `±hh:mm` string sit at fixed places. */
  lemma OffsetPieces(sign: string, hh: string, mm: string)
    requires |sign| == 1 && |hh| == 2 && |mm| == 2
    ensures var r := sign + hh + ":" + mm;
      |r| == 6 && r[0] == sign[0] && r[1..3] == hh && r[3] == ':' && r[4..6] == mm
  {
    var r := sign + hh + ":" + mm;
    assert r[1..3] == hh;
    assert r[4..6] == mm;
  }

  /** The offset is signed `+` exactly when it is not negative, `-` exactly when it is negative. */
  lemma FormatOffsetSign(m: int)
    ensures |FormatOffset(m)| >= 6
    ensures FormatOffset(m)[0] == '+' <==> m >= 0
    ensures FormatOffset(m)[0] == '-' <==> m < 0
  {
    var a: nat := if m < 0 then -m else m;
    NatToStringSpec(a / 60);
    NatToStringSpec(a % 60);
    Pad2Spec(a % 60);
  }

  /**
   * Below 100 hours the offset's hours and minutes are two digits each, the
   * minutes below 60, and together they give back the offset.
   */
  lemma FormatOffsetFields(m: int)
    requires -6000 < m < 6000
    ensures var r := FormatOffset(m);
      && OffsetShape(r)
      && DecimalValue(r[4..6]) < 60
      && DecimalValue(r[1..3]) * 60 + DecimalValue(r[4..6]) == (if m < 0 then -m else m)
  {
    var a: nat := if m < 0 then -m else m;
    Pad2Spec(a % 60);
    Pad2Spec(a / 60);
    var sign := if m >= 0 then "+" else "-";
    var hh, mm := Pad2(NatToString(a / 60)), Pad2(NatToString(a % 60));
    OffsetPieces(sign, hh, mm);
    assert FormatOffset(m) == sign + hh + ":" + mm;
  }

  /** `d` has the shape `\d{4}-\d{2}-\d{2}`. */
  predicate DateShape(d: string) {
    && |d| == 10
    && IsDigit(d[0]) && IsDigit(d[1]) && IsDigit(d[2]) && IsDigit(d[3]) && d[4] == '-'
    && IsDigit(d[5]) && IsDigit(d[6]) && d[7] == '-' && IsDigit(d[8]) && IsDigit(d[9])
  }

  /** `t` has the shape `\d{2}:\d{2}:\d{2}`. */
  predicate TimeShape(t: string) {
    && |t| == 8
    && IsDigit(t[0]) && IsDigit(t[1]) && t[2] == ':' && IsDigit(t[3]) && IsDigit(t[4])
    && t[5] == ':' && IsDigit(t[6]) && IsDigit(t[7])
  }

  /** `s` matches `^(\d{4}-\d{2}-\d{2})T(\d{2}:\d{2}:\d{2})([+-]\d{2}:\d{2})`, a prefix match. */
  predicate IsoMatch(s: string) {
    |s| >= 25 && DateShape(s[..10]) && s[10] == 'T' && TimeShape(s[11..19]) && OffsetShape(s[19..25])
  }

  /** The fallback of `splitISO`: the current date and time, with a computed offset. */
  function NowStamp(c: Clock): Stamp {
    var tz := FormatOffset(-c.timezoneOffset);
    var date := Slice(c.isoString, 0, 10);
    var time := SplitOn(c.timeString, ' ')[0];
    Stamp(date, time, tz, date + "T" + time + tz)
  }

  /** `splitISO(iso)`, with the clock reading the fallback would take. */
  function SplitIso(iso: Option<string>, clock: Clock): Stamp {
    if !Truthy(iso) then NowStamp(clock)
    else if IsoMatch(iso.value) then Stamp(iso.value[..10], iso.value[11..19], iso.value[19..25], iso.value)
    else NowStamp(clock)
  }

  /** A matching string is split into its three groups and kept whole as `datetime`; the groups rebuild its first 25 characters. */
  lemma SplitIsoMatched(s: string, clock: Clock)
    requires IsoMatch(s)
    ensures var st := SplitIso(Some(s), clock);
      && st.datetime == s
      && DateShape(st.date) && TimeShape(st.time) && OffsetShape(st.tz)
      && st.date + "T" + st.time + st.tz == s[..25]
  {
    var st := SplitIso(Some(s), clock);
    assert s[..25] == s[..10] + [s[10]] + s[11..19] + s[19..25];
  }

  /** A missing, empty or non-matching string takes the fallback. */
  lemma SplitIsoFallback(iso: Option<string>, clock: Clock)
    requires !Truthy(iso) || !IsoMatch(iso.value)
    ensures SplitIso(iso, clock) == NowStamp(clock)
  {
  }

  /**
   * When the clock's date and time strings are well formed and the offset is
   * below 100 hours, the fallback's `datetime` matches the pattern and splits
   * back into the same parts.
   */
  lemma NowStampReparses(c: Clock, other: Clock)
    requires DateShape(Slice(c.isoString, 0, 10)) && TimeShape(SplitOn(c.timeString, ' ')[0])
    requires -6000 < c.timezoneOffset < 6000
    ensures IsoMatch(NowStamp(c).datetime)
    ensures SplitIso(Some(NowStamp(c).datetime), other) == NowStamp(c)
  {
    var st := NowStamp(c);
    FormatOffsetFields(-c.timezoneOffset);
    StampPieces(st.date, st.time, st.tz);
  }

  /** The pieces of a `date T time offset` string sit at fixed places. */
  lemma StampPieces(date: string, time: string, tz: string)
    requires |date| == 10 && |time| == 8 && |tz| == 6
    ensures var s := date + "T" + time + tz;
      |s| == 25 && s[..10] == date && s[10] == 'T' && s[11..19] == time && s[19..25] == tz
  {
    var s := date + "T" + time + tz;
    assert s[..10] == date;
    assert s[11..19] == time;
    assert s[19..25] == tz;
  }

  // -------------------------------------------------------------------- esc

  /** `v.replace(/"/g, '""')`: one character more per quote, and twice as many quotes. */
  function DoubleQuotes(v: string): (r: string)
    ensures |r| == |v| + CountChar(v, '"')
    ensures CountChar(r, '"') == 2 * CountChar(v, '"')
    decreases |v|
  {
    if v == [] then []
    else
      var head := if v[0] == '"' then "\"\"" else [v[0]];
      CountCharAppend(head, DoubleQuotes(v[1..]), '"');
      head + DoubleQuotes(v[1..])
  }

  /** A CSV reader's view of a quoted field's inside: each `""` stands for one `"`. */
  function CollapseQuotes(s: string): string
    decreases |s|
  {
    if |s| >= 2 && s[0] == '"' && s[1] == '"' then "\"" + CollapseQuotes(s[2..])
    else if s == [] then []
    else [s[0]] + CollapseQuotes(s[1..])
  }

  /** Strip the surrounding quotes, then collapse doubled quotes. */
  function Unquote(s: string): string {
    if |s| >= 2 && s[0] == '"' && s[|s| - 1] == '"' then CollapseQuotes(s[1..|s| - 1]) else s
  }

  lemma {:induction false} CollapseDoubled(v: string)
    ensures CollapseQuotes(DoubleQuotes(v)) == v
    decreases |v|
  {
    if v != [] {
      CollapseDoubled(v[1..]);
      var rest := DoubleQuotes(v[1..]);
      if v[0] == '"' {
        assert DoubleQuotes(v) == "\"\"" + rest;
        assert (DoubleQuotes(v))[2..] == rest;
      } else {
        assert DoubleQuotes(v) == [v[0]] + rest;
        assert (DoubleQuotes(v))[1..] == rest;
      }
      assert v == [v[0]] + v[1..];
    }
  }

  /**
   * The `esc` lambda. A value with a comma is wrapped in quotes with its
   * inner quotes doubled (two more quotes than twice the value's), and
   * un-quoting gives it back; any other value, including one with a quote,
   * is returned as it is.
   */
  function Esc(v: Option<string>): (r: Option<string>)
    ensures v.Some? && ',' in v.value ==>
      && r.Some? && |r.value| >= 2 && r.value[0] == '"' && r.value[|r.value| - 1] == '"'
      && Unquote(r.value) == v.value
      && CountChar(r.value, '"') == 2 * CountChar(v.value, '"') + 2
    ensures !(v.Some? && ',' in v.value) ==> r == v
  {
    if Truthy(v) && ',' in v.value then
      var d := DoubleQuotes(v.value);
      var q := "\"" + d + "\"";
      CollapseDoubled(v.value);
      assert q[1..|q| - 1] == d;
      CountCharAppend("\"", d, '"');
      CountCharAppend("\"" + d, "\"", '"');
      Some(q)
    else v
  }

  /** How `join(',')` writes a field: `null` becomes the empty string. */
  function FieldText(v: Option<string>): string {
    if v.Some? then v.value else ""
  }

  // ------------------------------------------------------------------- rows

  /** The oracles the script consults: `git blame`, `git show` and `fs.readFileSync`. */
  datatype LocOracle = LocOracle(
    blame: string -> Option<string>,
    show: string -> Option<string>,
    readFile: string -> string)

  /**
   * What varies per row: the `Math.random` token for an entry without a
   * commit, and the clock reading of a fallback timestamp, keyed by file
   * index and line index.
   */
  datatype RowEnv = RowEnv(token: (nat, nat) -> string, clock: (nat, nat) -> Clock)

  /** The 11 fields of the row for entry `idx` of a file, whose timestamp `splitISO` split into `st`. */
  function RowFields(relPath: string, filePath: string, idx: nat, e: LineEntry, token: string, st: Stamp): seq<string> {
    var commit := if Truthy(e.commit) then Slice(e.commit.value, 0, 8) else token;
    var length := if e.lineContent.Some? then |e.lineContent.value| else 0;
    [ FieldText(Esc(Some(relPath))), NatToString(idx + 1), FileType(filePath), FieldText(Esc(Some(commit))),
      FieldText(Esc(e.author)), st.date, st.time, st.tz, st.datetime, "0", NatToString(length) ]
  }

  /** The entries of one file: the blame entries when git works, `simpleLines` otherwise. */
  function FileEntries(haveGit: bool, filePath: string, git: LocOracle): seq<LineEntry> {
    var parsed := if haveGit then BlameEntries(git.blame(filePath), git.show) else None;
    if parsed.Some? then parsed.value else SimpleLines(git.readFile(filePath))
  }

  /** The field lists of the rows of file number `fi`. */
  function FileFields(root: string, fi: nat, filePath: string, entries: seq<LineEntry>, env: RowEnv): seq<seq<string>> {
    var relPath := ForwardSlashes(Relative(root, filePath));
    seq(|entries|, k requires 0 <= k < |entries| =>
      RowFields(relPath, filePath, k, entries[k], env.token(fi, k), SplitIso(entries[k].iso, env.clock(fi, k))))
  }

  /** The rows produced for the first `n` files. */
  function LocRows(root: string, files: seq<string>, n: nat, haveGit: bool, git: LocOracle, env: RowEnv): seq<string>
    requires n <= |files|
  {
    if n == 0 then []
    else
      LocRows(root, files, n - 1, haveGit, git, env)
      + JoinAll(FileFields(root, n - 1, files[n - 1], FileEntries(haveGit, files[n - 1], git), env), ",")
  }

  /**
   * The row for entry `idx` has 11 fields; its line number reads back as
   * `idx + 1`, its depth is 0 and its length field reads back as the length
   * of the line (0 without one).
   */
  lemma RowFieldsSpec(relPath: string, filePath: string, idx: nat, e: LineEntry, token: string, st: Stamp)
    ensures var f := RowFields(relPath, filePath, idx, e, token, st);
      && |f| == 11
      && AllDigits(f[1]) && DecimalValue(f[1]) == idx + 1
      && f[9] == "0"
      && AllDigits(f[10]) && DecimalValue(f[10]) == (if e.lineContent.Some? then |e.lineContent.value| else 0)
  {
    var f := RowFields(relPath, filePath, idx, e, token, st);
    var len := if e.lineContent.Some? then |e.lineContent.value| else 0;
    assert f[1] == NatToString(idx + 1) && f[10] == NatToString(len);
    assert AllDigits(f[1]) && DecimalValue(f[1]) == idx + 1 by {
      NatToStringSpec(idx + 1);
    }
    assert AllDigits(f[10]) && DecimalValue(f[10]) == len by {
      NatToStringSpec(len);
    }
  }

  /** A 40-digit hash yields its first 8 digits as the commit field (it has no comma to escape). */
  lemma CommitFieldOfHash(hash: string)
    requires |hash| == 40 && forall i :: 0 <= i < 40 ==> IsLowerHex(hash[i])
    ensures FieldText(Esc(Some(Slice(hash, 0, 8)))) == hash[..8]
  {
    assert ',' !in hash[..8] by {
      forall i | 0 <= i < 8 ensures hash[..8][i] != ',' {
        assert IsLowerHex(hash[i]);
      }
    }
  }

  /** The entries of one file, as lines 134-136 of the script obtain them. */
  method ReadEntries(haveGit: bool, filePath: string, git: LocOracle) returns (entries: seq<LineEntry>)
    ensures entries == FileEntries(haveGit, filePath, git)
  {
    var parsed: Option<seq<LineEntry>> := None;
    if haveGit {
      var queried;
      parsed, queried := ParseGitBlame(git.blame(filePath), git.show);
    }
    if parsed.None? {
      parsed := Some(SimpleLines(git.readFile(filePath)));
    }
    entries := parsed.value;
  }

  /** Entry `k` of a file gives the row of its line `k + 1`. */
  lemma FileFieldsAt(root: string, fi: nat, filePath: string, entries: seq<LineEntry>, env: RowEnv, k: nat)
    requires k < |entries|
    ensures |FileFields(root, fi, filePath, entries, env)| == |entries|
    ensures FileFields(root, fi, filePath, entries, env)[k]
      == RowFields(ForwardSlashes(Relative(root, filePath)), filePath, k, entries[k], env.token(fi, k), SplitIso(entries[k].iso, env.clock(fi, k)))
  {
  }

  /** The inner loop of the script: one joined row per entry of file number `fi`. */
  method FileRows(root: string, fi: nat, filePath: string, entries: seq<LineEntry>, env: RowEnv)
    returns (out: seq<string>)
    ensures out == JoinAll(FileFields(root, fi, filePath, entries, env), ",")
  {
    var relPath := ForwardSlashes(Relative(root, filePath));
    ghost var fields := FileFields(root, fi, filePath, entries, env);
    out := [];
    for idx := 0 to |entries|
      invariant |out| == idx && |fields| == |entries|
      invariant forall k :: 0 <= k < idx ==> out[k] == Join(fields[k], ",")
    {
      var st := SplitIso(entries[idx].iso, env.clock(fi, idx));
      var row := Join(RowFields(relPath, filePath, idx, entries[idx], env.token(fi, idx), st), ",");
      assert row == Join(fields[idx], ",") by {
        FileFieldsAt(root, fi, filePath, entries, env, idx);
      }
      out := out + [row];
    }
    JoinAllPointwise(fields, ",", out);
  }

  lemma LocRowsStep(root: string, files: seq<string>, fi: nat, haveGit: bool, git: LocOracle, env: RowEnv,
                    body: seq<string>, entries: seq<LineEntry>, out: seq<string>)
    requires fi < |files| && body == LocRows(root, files, fi, haveGit, git, env)
    requires entries == FileEntries(haveGit, files[fi], git)
    requires out == JoinAll(FileFields(root, fi, files[fi], entries, env), ",")
    ensures body + out == LocRows(root, files, fi + 1, haveGit, git, env)
  {
  }

  /** The row loop of the script: the header, then the rows of each file in turn. */
  method BuildRows(root: string, files: seq<string>, haveGit: bool, git: LocOracle, env: RowEnv)
    returns (rows: seq<string>)
    ensures rows == [Header] + LocRows(root, files, |files|, haveGit, git, env)
  {
    var body := [];
    for fi := 0 to |files|
      invariant body == LocRows(root, files, fi, haveGit, git, env)
    {
      var entries := ReadEntries(haveGit, files[fi], git);
      var out := FileRows(root, fi, files[fi], entries, env);
      LocRowsStep(root, files, fi, haveGit, git, env, body, entries, out);
      body := body + out;
    }
    rows := [Header] + body;
  }

  /**
   * The script as a whole: walk the tree below `root`, drop paths that
   * mention `loc.csv`, build the rows, and join them with `\n` for
   * `fs.writeFileSync`.
   */
  method GenerateLoc(root: string, tree: seq<DirEntry>, haveGit: bool, git: LocOracle, env: RowEnv)
    returns (csv: string, files: seq<string>)
    ensures files == Filter(AllFiles(root, tree), NotOutput)
    ensures csv == Join([Header] + LocRows(root, files, |files|, haveGit, git, env), "\n")
  {
    var all := GetAllFiles(root, tree);
    files := FilterFiles(all);
    var rows := BuildRows(root, files, haveGit, git, env);
    csv := Join(rows, "\n");
  }

  /** `files.filter(f => !f.includes('loc.csv'))`, element by element. */
  method FilterFiles(all: seq<string>) returns (files: seq<string>)
    ensures files == Filter(all, NotOutput)
  {
    files := [];
    for k := 0 to |all|
      invariant files == Filter(all[..k], NotOutput)
    {
      assert all[..k + 1][..k] == all[..k];
      if NotOutput(all[k]) {
        files := files + [all[k]];
      }
    }
    assert all[..|all|] == all;
  }
}
