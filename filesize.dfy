/**
 * meta/generate_filesize.js: for every commit, one row per tracked `.js` or
 * `.css` file with the size of its blob at that commit. Each git command is
 * an oracle that yields the command's output, or `None` when the command
 * fails.
 */
module Filesize {
  import opened Wrappers
  import opened Text
  import opened Seqs
  import opened Paths

  /** The header row of filesize.csv. */
  const Header := "commit,file,size,type,date,time,timezone,datetime"

  /** `EXT_INCLUDE`. */
  const ExtInclude: seq<string> := [".js", ".css"]

  /** The message `getAllCommits` throws when the history cannot be read. */
  const NoHistory := "Cannot read git history."

  /**
   * The raw output of the git commands: `git rev-list --all`,
   * `git ls-tree -r --name-only <commit>`, `git ls-tree <commit> "<file>"`,
   * `git cat-file -s <blob>` and `git show -s --format=%aI <commit>`.
   */
  datatype GitOracle = GitOracle(
    revList: Option<string>,
    lsTreeNames: string -> Option<string>,
    lsTreeEntry: (string, string) -> Option<string>,
    catFileSize: string -> Option<string>,
    showIso: string -> Option<string>)

  /** `safeExec`: the trimmed output, or `null` when the command fails. */
  function SafeExec(out: Option<string>): Option<string> {
    if out.Some? then Some(Trim(out.value)) else None
  }

  /**
   * `safeExec` fails exactly when the command does; otherwise it returns the
   * command's output with its leading and trailing `\s` runs cut off, and
   * nothing else removed.
   */
  lemma SafeExecTrimmed(out: Option<string>)
    ensures SafeExec(out).Some? <==> out.Some?
    ensures out.Some? ==> var v, t := out.value, SafeExec(out).value;
      var k := |v| - |TrimStart(v)|;
      && k + |t| <= |v|
      && t == v[k..k + |t|]
      && (forall i :: 0 <= i < k ==> IsSpace(v[i]))
      && (forall i :: k + |t| <= i < |v| ==> IsSpace(v[i]))
      && (t == [] || (!IsSpace(t[0]) && !IsSpace(t[|t| - 1])))
  {
    if out.Some? {
      TrimSpec(out.value);
    }
  }

  /** `getAllCommits`: the lines of `git rev-list --all`; an empty or failed output is an error. */
  function AllCommits(git: GitOracle): Result<seq<string>, string> {
    var out := SafeExec(git.revList);
    if !Truthy(out) then Failure(NoHistory) else Success(SplitOn(out.value, '\n'))
  }

  /** The history is unreadable exactly when `rev-list` fails or prints nothing; otherwise its lines rejoin to the output. */
  lemma AllCommitsSpec(git: GitOracle)
    ensures AllCommits(git).Failure? <==> !Truthy(SafeExec(git.revList))
    ensures AllCommits(git).Failure? ==> AllCommits(git).error == NoHistory
    ensures AllCommits(git).Success? ==> Join(AllCommits(git).value, "\n") == SafeExec(git.revList).value
  {
    if Truthy(SafeExec(git.revList)) {
      JoinSplitOn(SafeExec(git.revList).value, '\n');
    }
  }

  /** `x.trim().length > 0`. */
  function NonBlank(x: string): bool {
    |Trim(x)| > 0
  }

  /** `listFilesAtCommit`: the non-blank lines of `git ls-tree -r --name-only`, or none. */
  function FilesAtCommit(git: GitOracle, commit: string): seq<string> {
    var out := SafeExec(git.lsTreeNames(commit));
    if !Truthy(out) then [] else Filter(SplitOn(out.value, '\n'), NonBlank)
  }

  /**
   * No files when `ls-tree` fails or prints nothing; otherwise exactly its
   * non-blank lines, each as often as it is listed, in listing order.
   */
  lemma FilesAtCommitSpec(git: GitOracle, commit: string)
    ensures !Truthy(SafeExec(git.lsTreeNames(commit))) ==> FilesAtCommit(git, commit) == []
    ensures Truthy(SafeExec(git.lsTreeNames(commit))) ==> var lines := SplitOn(SafeExec(git.lsTreeNames(commit)).value, '\n');
      && (forall f :: f in FilesAtCommit(git, commit) <==> f in lines && NonBlank(f))
      && (forall f :: multiset(FilesAtCommit(git, commit))[f] == if NonBlank(f) then multiset(lines)[f] else 0)
      && (forall n :: 0 <= n <= |lines| ==> Filter(lines[..n], NonBlank) <= FilesAtCommit(git, commit))
  {
    var out := SafeExec(git.lsTreeNames(commit));
    if Truthy(out) {
      var lines := SplitOn(out.value, '\n');
      FilterMembership(lines, NonBlank);
      FilterMultiset(lines, NonBlank);
      forall n | 0 <= n <= |lines|
        ensures Filter(lines[..n], NonBlank) <= Filter(lines, NonBlank)
      {
        assert lines == lines[..n] + lines[n..];
        FilterAppend(lines[..n], lines[n..], NonBlank);
      }
    }
  }

  /**
   * `fileBlobSize`: the third whitespace-separated part of the `ls-tree`
   * line names the blob, and `Number` of its `cat-file -s` output is the
   * size; any missing piece gives `null`.
   */
  function BlobSize(git: GitOracle, commit: string, file: string): Option<JsNumber>
  {
    var ls := SafeExec(git.lsTreeEntry(commit, file));
    if !Truthy(ls) then None
    else
      var parts := SplitWs(ls.value);
      if |parts| < 3 then None
      else
        var size := SafeExec(git.catFileSize(parts[2]));
        if !Truthy(size) then None else Some(ParseNumber(size.value))
  }

  /** A decimal `cat-file -s` answer, with its trailing newline, is read as that size. */
  lemma BlobSizeOfDecimal(git: GitOracle, commit: string, file: string, n: nat)
    requires Truthy(SafeExec(git.lsTreeEntry(commit, file)))
    requires |SplitWs(SafeExec(git.lsTreeEntry(commit, file)).value)| >= 3
    requires git.catFileSize(SplitWs(SafeExec(git.lsTreeEntry(commit, file)).value)[2]) == Some(NatToString(n) + "\n")
    ensures BlobSize(git, commit, file) == Some(Finite(n))
  {
    var d := NatToString(n);
    NatToStringSpec(n);
    TrimDigitsNewline(d);
    var parts := SplitWs(SafeExec(git.lsTreeEntry(commit, file)).value);
    assert SafeExec(git.catFileSize(parts[2])) == Some(d);
    ParseDigits(d);
  }

  /**
   * For an `ls-tree` entry `<mode> <type> <object>\t<path>`, the size is the
   * one `cat-file -s` reports for `<object>`, the third part of the split.
   */
  lemma BlobSizeOfEntry(git: GitOracle, commit: string, file: string,
                        mode: string, kind: string, hash: string, path: string, n: nat)
    requires mode != "" && kind != "" && hash != ""
    requires forall i :: 0 <= i < |mode| ==> !IsSpace(mode[i])
    requires forall i :: 0 <= i < |kind| ==> !IsSpace(kind[i])
    requires forall i :: 0 <= i < |hash| ==> !IsSpace(hash[i])
    requires SafeExec(git.lsTreeEntry(commit, file)) == Some(mode + " " + kind + " " + hash + "\t" + path)
    requires git.catFileSize(hash) == Some(NatToString(n) + "\n")
    ensures BlobSize(git, commit, file) == Some(Finite(n))
  {
    var t := "\t" + path;
    assert t[0] == '\t';
    SplitWsFields(mode, " ", kind, " ", hash, t);
    assert mode + " " + kind + " " + hash + "\t" + path == mode + " " + kind + " " + hash + t;
    BlobSizeOfDecimal(git, commit, file, n);
  }

  /** The parts of a commit's author date. */
  datatype CommitIso = CommitIso(date: string, time: string, timezone: string, datetime: string)

  /** `getCommitISO`: characters 0-9 are the date, 11-18 the time, 19 on the offset. */
  function CommitIsoOf(git: GitOracle, commit: string): Option<CommitIso> {
    var iso := SafeExec(git.showIso(commit));
    if !Truthy(iso) then None
    else Some(CommitIso(Slice(iso.value, 0, 10), Slice(iso.value, 11, 19), SliceFrom(iso.value, 19), iso.value))
  }

  /**
   * No author date exactly when `git show` fails or prints nothing; otherwise
   * the datetime is the whole string, and date, character 10, time and
   * offset give it back, whatever its length.
   */
  lemma CommitIsoSpec(git: GitOracle, commit: string)
    ensures CommitIsoOf(git, commit).None? <==> !Truthy(SafeExec(git.showIso(commit)))
    ensures CommitIsoOf(git, commit).Some? ==>
      var iso := SafeExec(git.showIso(commit)).value;
      var r := CommitIsoOf(git, commit).value;
      r.datetime == iso && r.date + Slice(iso, 10, 11) + r.time + r.timezone == iso
  {
    if Truthy(SafeExec(git.showIso(commit))) {
      SlicesCover(SafeExec(git.showIso(commit)).value);
    }
  }

  /** Slicing at 10, 11 and 19 splits any string into consecutive pieces. */
  lemma SlicesCover(s: string)
    ensures Slice(s, 0, 10) + Slice(s, 10, 11) + Slice(s, 11, 19) + SliceFrom(s, 19) == s
  {
    if |s| >= 19 {
      assert s == s[0..10] + s[10..11] + s[11..19] + s[19..];
    } else if |s| >= 11 {
      assert s == s[0..10] + s[10..11] + s[11..];
    } else if |s| >= 10 {
      assert s == s[0..10] + s[10..];
    } else {
      assert s[0..|s|] == s;
    }
  }

  /** The fields of the row for one file at one commit. */
  function RowFields(commit: string, file: string, size: JsNumber, iso: CommitIso): seq<string> {
    [Slice(commit, 0, 8), file, NumberToString(size), SliceFrom(Lower(ExtName(file)), 1), iso.date, iso.time, iso.timezone, iso.datetime]
  }

  /** What one file adds: nothing for another extension or a missing size, else one row. */
  function FileFields(git: GitOracle, commit: string, iso: CommitIso, file: string): seq<seq<string>> {
    if Lower(ExtName(file)) !in ExtInclude then []
    else
      match BlobSize(git, commit, file)
      case None => []
      case Some(size) => [RowFields(commit, file, size, iso)]
  }

  function FilePart(git: GitOracle, commit: string, iso: CommitIso): string -> seq<seq<string>> {
    file => FileFields(git, commit, iso, file)
  }

  /** The rows of the files loop of one commit. */
  function FilesFields(git: GitOracle, commit: string, iso: CommitIso, files: seq<string>): seq<seq<string>> {
    FlatMap(files, FilePart(git, commit, iso))
  }

  /** What one commit adds: nothing without an author date. */
  function CommitFields(git: GitOracle, commit: string): seq<seq<string>> {
    match CommitIsoOf(git, commit)
    case None => []
    case Some(iso) => FilesFields(git, commit, iso, FilesAtCommit(git, commit))
  }

  function CommitPart(git: GitOracle): string -> seq<seq<string>> {
    commit => CommitFields(git, commit)
  }

  /** The rows of the commits loop for a list of commits. */
  function HistoryFields(git: GitOracle, commits: seq<string>): seq<seq<string>> {
    FlatMap(commits, CommitPart(git))
  }

  /** The text written to filesize.csv, or the error `main` throws. */
  function FilesizeCsv(git: GitOracle): Result<string, string> {
    match AllCommits(git)
    case Failure(e) => Failure(e)
    case Success(commits) => Success(Join([Header] + JoinAll(HistoryFields(git, commits), ","), "\n"))
  }

  /** The rows of a history are the rows of its first part followed by those of the rest. */
  lemma HistoryAppend(git: GitOracle, a: seq<string>, b: seq<string>)
    ensures HistoryFields(git, a + b) == HistoryFields(git, a) + HistoryFields(git, b)
  {
    FlatMapAppend(a, b, CommitPart(git));
  }

  /** `fields` is the row for `file`, listed at `commit` with a size, under that commit's author date. */
  ghost predicate RowOf(git: GitOracle, commit: string, file: string, fields: seq<string>) {
    && CommitIsoOf(git, commit).Some?
    && file in FilesAtCommit(git, commit)
    && Lower(ExtName(file)) in ExtInclude
    && BlobSize(git, commit, file).Some?
    && fields == RowFields(commit, file, BlobSize(git, commit, file).value, CommitIsoOf(git, commit).value)
  }

  /**
   * The fields of a row: the commit's first 8 characters, the path, the
   * size, the lower-cased extension without the dot (`js` or `css`) and the
   * four parts of the author date.
   */
  lemma RowFieldsSpec(commit: string, file: string, size: JsNumber, iso: CommitIso)
    requires Lower(ExtName(file)) in ExtInclude
    ensures var r := RowFields(commit, file, size, iso);
      && |r| == 8
      && r[0] == Slice(commit, 0, 8) && |r[0]| == (if |commit| < 8 then |commit| else 8)
      && r[1] == file
      && r[2] == NumberToString(size)
      && (r[3] == "js" || r[3] == "css") && "." + r[3] == Lower(ExtName(file))
      && r[4] == iso.date && r[5] == iso.time && r[6] == iso.timezone && r[7] == iso.datetime
  {
    TypeField(file);
  }

  /** The `type` field of an included file is `js` or `css`, and with a dot it is the lower-cased extension. */
  lemma TypeField(file: string)
    requires Lower(ExtName(file)) in ExtInclude
    ensures var t := SliceFrom(Lower(ExtName(file)), 1);
      (t == "js" || t == "css") && "." + t == Lower(ExtName(file))
  {
    var e := Lower(ExtName(file));
    if e == ".js" {
      assert SliceFrom(e, 1) == "js";
    } else {
      assert e == ".css";
      assert SliceFrom(e, 1) == "css";
    }
  }

  lemma FileFieldsRow(git: GitOracle, commit: string, file: string, r: seq<string>)
    requires CommitIsoOf(git, commit).Some? && file in FilesAtCommit(git, commit)
    requires r in FileFields(git, commit, CommitIsoOf(git, commit).value, file)
    ensures RowOf(git, commit, file, r)
  {
    var iso := CommitIsoOf(git, commit).value;
    var size := BlobSize(git, commit, file).value;
    var row := RowFields(commit, file, size, iso);
    assert FileFields(git, commit, iso, file) == [row];
    assert r == row;
  }

  lemma FilesFieldsRows(git: GitOracle, commit: string, r: seq<string>)
    requires r in CommitFields(git, commit)
    ensures exists f :: RowOf(git, commit, f, r)
  {
    var iso := CommitIsoOf(git, commit).value;
    var files := FilesAtCommit(git, commit);
    FlatMapOrigin(files, FilePart(git, commit, iso), r);
    var f :| f in files && r in FilePart(git, commit, iso)(f);
    FileFieldsRow(git, commit, f, r);
  }

  /** Every row of the history is the row of a file at one of its commits. */
  lemma HistoryRows(git: GitOracle, commits: seq<string>, r: seq<string>)
    requires r in HistoryFields(git, commits)
    ensures exists c, f :: c in commits && RowOf(git, c, f, r)
  {
    FlatMapOrigin(commits, CommitPart(git), r);
    var c :| c in commits && r in CommitPart(git)(c);
    FilesFieldsRows(git, c, r);
  }

  /**
   * Conversely, every listed file with an included extension and a size, at a
   * listed commit with an author date, has its row in the history.
   */
  lemma HistoryComplete(git: GitOracle, commits: seq<string>, c: string, f: string)
    requires c in commits && CommitIsoOf(git, c).Some?
    requires f in FilesAtCommit(git, c) && Lower(ExtName(f)) in ExtInclude && BlobSize(git, c, f).Some?
    ensures RowFields(c, f, BlobSize(git, c, f).value, CommitIsoOf(git, c).value) in HistoryFields(git, commits)
  {
    var iso := CommitIsoOf(git, c).value;
    var row := RowFields(c, f, BlobSize(git, c, f).value, iso);
    assert FilePart(git, c, iso)(f) == [row];
    FlatMapComplete(FilesAtCommit(git, c), FilePart(git, c, iso), f, row);
    assert CommitPart(git)(c) == FilesFields(git, c, iso, FilesAtCommit(git, c));
    FlatMapComplete(commits, CommitPart(git), c, row);
  }

  /** A row is in the history exactly when it is the row of a file at one of its commits. */
  lemma HistoryRowsIff(git: GitOracle, commits: seq<string>, r: seq<string>)
    ensures r in HistoryFields(git, commits) <==> exists c, f :: c in commits && RowOf(git, c, f, r)
  {
    if r in HistoryFields(git, commits) {
      HistoryRows(git, commits, r);
    }
    if exists c, f :: c in commits && RowOf(git, c, f, r) {
      var c, f :| c in commits && RowOf(git, c, f, r);
      HistoryComplete(git, commits, c, f);
    }
  }

  lemma FilesStep(git: GitOracle, commit: string, iso: CommitIso, files: seq<string>, k: nat)
    requires k < |files|
    ensures JoinAll(FilesFields(git, commit, iso, files[..k + 1]), ",")
      == JoinAll(FilesFields(git, commit, iso, files[..k]), ",") + JoinAll(FileFields(git, commit, iso, files[k]), ",")
  {
    FlatMapSnoc(files, FilePart(git, commit, iso), k);
    assert FilePart(git, commit, iso)(files[k]) == FileFields(git, commit, iso, files[k]);
    JoinAllAppend(FilesFields(git, commit, iso, files[..k]), FileFields(git, commit, iso, files[k]), ",");
  }

  /** One pass of the files loop: skip a file of another type, or one without a size. */
  method FileRow(git: GitOracle, commit: string, iso: CommitIso, file: string) returns (part: seq<string>)
    ensures part == JoinAll(FileFields(git, commit, iso, file), ",")
  {
    var ext := Lower(ExtName(file));
    if ext !in ExtInclude {
      return [];
    }
    var size := BlobSize(git, commit, file);
    if size.None? {
      return [];
    }
    part := [Join(RowFields(commit, file, size.value, iso), ",")];
  }

  /** The files loop of `main` for one commit. */
  method CommitRows(git: GitOracle, commit: string, iso: CommitIso, files: seq<string>) returns (rows: seq<string>)
    ensures rows == JoinAll(FilesFields(git, commit, iso, files), ",")
  {
    rows := [];
    for k := 0 to |files|
      invariant rows == JoinAll(FilesFields(git, commit, iso, files[..k]), ",")
    {
      FilesStep(git, commit, iso, files, k);
      var part := FileRow(git, commit, iso, files[k]);
      rows := rows + part;
    }
    assert files[..|files|] == files;
  }

  lemma HistoryStep(git: GitOracle, commits: seq<string>, k: nat)
    requires k < |commits|
    ensures JoinAll(HistoryFields(git, commits[..k + 1]), ",")
      == JoinAll(HistoryFields(git, commits[..k]), ",") + JoinAll(CommitFields(git, commits[k]), ",")
  {
    FlatMapSnoc(commits, CommitPart(git), k);
    assert CommitPart(git)(commits[k]) == CommitFields(git, commits[k]);
    JoinAllAppend(HistoryFields(git, commits[..k]), CommitFields(git, commits[k]), ",");
  }

  /** One pass of the commits loop of `main`: skip a commit without an author date. */
  method CommitRowsOf(git: GitOracle, commit: string) returns (rows: seq<string>)
    ensures rows == JoinAll(CommitFields(git, commit), ",")
  {
    var iso := CommitIsoOf(git, commit);
    if iso.None? {
      return [];
    }
    var files := FilesAtCommit(git, commit);
    rows := CommitRows(git, commit, iso.value, files);
  }

  /** The commits loop of `main`, after the header row. */
  method HistoryRowsLoop(git: GitOracle, commits: seq<string>) returns (rows: seq<string>)
    ensures rows == [Header] + JoinAll(HistoryFields(git, commits), ",")
  {
    var body := [];
    for k := 0 to |commits|
      invariant body == JoinAll(HistoryFields(git, commits[..k]), ",")
    {
      HistoryStep(git, commits, k);
      var out := CommitRowsOf(git, commits[k]);
      body := body + out;
    }
    assert commits[..|commits|] == commits;
    rows := [Header] + body;
  }

  /** `main`: the rows of all commits joined with `\n`; the error of `getAllCommits` propagates. */
  method Generate(git: GitOracle) returns (csv: Result<string, string>)
    ensures csv == FilesizeCsv(git)
    ensures csv.Failure? <==> !Truthy(SafeExec(git.revList))
  {
    var commits := AllCommits(git);
    AllCommitsSpec(git);
    if commits.Failure? {
      return Failure(commits.error);
    }
    var rows := HistoryRowsLoop(git, commits.value);
    csv := Success(Join(rows, "\n"));
  }
}
