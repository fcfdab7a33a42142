/**
 * Node's POSIX `path` functions that the scripts rely on: `extname`,
 * `basename`, `join` of a directory and an entry name, `relative` below a
 * root, and the back-slash rewriting applied to relative paths.
 */
module Paths {
  import opened Wrappers
  import opened Text

  /** The path without trailing `/` characters: a prefix of it, followed in it by `/` characters only. */
  function StripTrailingSlashes(p: string): (r: string)
    ensures r == [] || r[|r| - 1] != '/'
    ensures |r| <= |p| && r == p[..|r|]
    ensures forall i :: |r| <= i < |p| ==> p[i] == '/'
    decreases |p|
  {
    if p != [] && p[|p| - 1] == '/' then StripTrailingSlashes(p[..|p| - 1]) else p
  }

  /** The trailing run of characters other than `/`. */
  function AfterLastSlash(p: string): (r: string)
    ensures '/' !in r
    decreases |p|
  {
    if p == [] || p[|p| - 1] == '/' then [] else AfterLastSlash(p[..|p| - 1]) + [p[|p| - 1]]
  }

  /** `path.basename(p)`: the last path component, trailing slashes ignored. */
  function Basename(p: string): string {
    AfterLastSlash(StripTrailingSlashes(p))
  }

  /** The position of the last `.` of `b`, if any. */
  function LastDot(b: string): (r: Option<nat>)
    ensures r.Some? ==> r.value < |b| && b[r.value] == '.' && forall j :: r.value < j < |b| ==> b[j] != '.'
    ensures r.None? ==> '.' !in b
    decreases |b|
  {
    if b == [] then None
    else if b[|b| - 1] == '.' then Some(|b| - 1)
    else LastDot(b[..|b| - 1])
  }

  /**
   * `path.extname(p)`: the last component from its last `.` on; empty when
   * that component has no `.`, has its last `.` as its first character
   * (`.bashrc`), or is `..`.
   */
  function ExtName(p: string): (r: string)
    ensures r == [] || (r[0] == '.' && '.' !in r[1..] && '/' !in r)
  {
    var b := Basename(p);
    match LastDot(b)
    case None => ""
    case Some(d) => if d == 0 || b == ".." then "" else b[d..]
  }

  /** `path.join(dir, name)` for a directory without a trailing `/` and a plain entry name. */
  function JoinPath(dir: string, name: string): string {
    dir + "/" + name
  }

  /** `p.replace(/\\/g, '/')`. */
  function ForwardSlashes(p: string): string {
    seq(|p|, i requires 0 <= i < |p| => if p[i] == '\\' then '/' else p[i])
  }

  /** `path.relative(root, p)` for a `p` that lies below `root`; other paths are kept. */
  function Relative(root: string, p: string): string {
    if StartsWith(p, root + "/") then p[|root| + 1..] else p
  }

  /** An entry name names a file inside a directory: it is non-empty and has no `/`. */
  predicate IsEntryName(name: string) {
    name != [] && '/' !in name
  }

  /** The part after the last `/` of `a/b` is `b` when `b` has no `/`. */
  lemma {:induction false} AfterLastSlashOfJoin(a: string, b: string)
    requires '/' !in b
    ensures AfterLastSlash(a + "/" + b) == b
    decreases |b|
  {
    if b == [] {
      assert a + "/" + b == a + "/";
    } else {
      var b' := b[..|b| - 1];
      AfterLastSlashOfJoin(a, b');
      assert (a + "/" + b)[..|a + "/" + b| - 1] == a + "/" + b';
    }
  }

  /** The extension of a joined path is the extension of its entry name. */
  lemma ExtNameOfJoin(dir: string, name: string)
    requires IsEntryName(name)
    ensures ExtName(JoinPath(dir, name)) == ExtName(name)
  {
    var p := JoinPath(dir, name);
    assert p[|p| - 1] == name[|name| - 1];
    assert StripTrailingSlashes(p) == p;
    AfterLastSlashOfJoin(dir, name);
    assert StripTrailingSlashes(name) == name;
    AfterLastSlashNoSlash(name);
  }

  lemma {:induction false} AfterLastSlashNoSlash(b: string)
    requires '/' !in b
    ensures AfterLastSlash(b) == b
    decreases |b|
  {
    if b != [] {
      AfterLastSlashNoSlash(b[..|b| - 1]);
    }
  }

  /** The last `.` of `b.t` is the one before `t` when `t` has no `.`. */
  lemma {:induction false} LastDotOfSuffix(b: string, t: string)
    requires '.' !in t
    ensures LastDot(b + "." + t) == Some(|b|)
    decreases |t|
  {
    if t != [] {
      var t' := t[..|t| - 1];
      LastDotOfSuffix(b, t');
      assert (b + "." + t)[..|b + "." + t| - 1] == b + "." + t';
    } else {
      assert b + "." + t == b + ".";
    }
  }

  /**
   * A name `stem.t` whose stem is non-empty and whose non-empty `t` has
   * neither `.` nor `/` has extension `.t`, in the case it is written in.
   */
  lemma ExtNameOfName(stem: string, t: string)
    requires IsEntryName(stem) && t != [] && '.' !in t && '/' !in t
    ensures ExtName(stem + "." + t) == "." + t
  {
    var name := stem + "." + t;
    assert '/' !in name by {
      forall i | 0 <= i < |name| ensures name[i] != '/' {
        if i < |stem| { assert name[i] == stem[i]; }
        else if i > |stem| { assert name[i] == t[i - |stem| - 1]; }
      }
    }
    assert name[|name| - 1] != '/';
    assert StripTrailingSlashes(name) == name;
    AfterLastSlashNoSlash(name);
    LastDotOfSuffix(stem, t);
    assert |name| > 2;
    assert name[|stem|..] == "." + t;
  }
}
