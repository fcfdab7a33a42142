/**
 * The parts of JavaScript's string library that the history scripts use:
 * the `\s` class and `trim`, `startsWith`, `includes`, `toLowerCase`,
 * `split` on `\r?\n`, on one character and on `\s+`, `join`, `slice`,
 * decimal rendering of integers and the `Number(...)` conversion.
 */
module Text {
  import opened Wrappers

  /** JavaScript truthiness of a string that may be `null`: present and non-empty. */
  predicate Truthy(v: Option<string>) {
    v.Some? && v.value != ""
  }

  /** JavaScript's `\s`: the characters that `String.prototype.trim` removes, too. */
  predicate IsSpace(c: char) {
    || c == ' ' || c == '\t' || c == '\n' || c == '\U{B}' || c == '\U{C}' || c == '\r'
    || c == '\U{A0}' || c == '\U{1680}' || ('\U{2000}' <= c <= '\U{200A}')
    || c == '\U{2028}' || c == '\U{2029}' || c == '\U{202F}' || c == '\U{205F}'
    || c == '\U{3000}' || c == '\U{FEFF}'
  }

  /** `\d` and `[0-9]` (JavaScript's `\d` is ASCII-only without the `u` flag). */
  predicate IsDigit(c: char) {
    '0' <= c <= '9'
  }

  /** `[0-9a-f]`: a lower-case hexadecimal digit. */
  predicate IsLowerHex(c: char) {
    IsDigit(c) || 'a' <= c <= 'f'
  }

  predicate AllDigits(s: string) {
    forall i :: 0 <= i < |s| ==> IsDigit(s[i])
  }

  /** `String.prototype.startsWith`. */
  predicate StartsWith(s: string, prefix: string) {
    |prefix| <= |s| && s[..|prefix|] == prefix
  }

  /** `String.prototype.includes`: `sub` occurs somewhere in `s`. */
  predicate Contains(s: string, sub: string)
    decreases |s|
  {
    StartsWith(s, sub) || (|s| > 0 && Contains(s[1..], sub))
  }

  /** Every string includes the empty string. */
  lemma ContainsEmpty(s: string)
    ensures Contains(s, "")
  {
  }

  /** `includes` of a single character is membership. */
  lemma {:induction false} ContainsChar(s: string, c: char)
    ensures Contains(s, [c]) <==> c in s
    decreases |s|
  {
    if |s| > 0 {
      ContainsChar(s[1..], c);
      assert s == [s[0]] + s[1..];
    }
  }

  /** `toLowerCase` on one character; only `A`-`Z` are mapped. */
  function LowerChar(c: char): char {
    if 'A' <= c <= 'Z' then (c as int + 32) as char else c
  }

  /** `String.prototype.toLowerCase`, restricted to ASCII letters. */
  function Lower(s: string): string {
    seq(|s|, i requires 0 <= i < |s| => LowerChar(s[i]))
  }

  /** Leading `\s` characters removed: everything dropped is `\s`, and what is left does not start with one. */
  function TrimStart(s: string): (r: string)
    ensures |r| <= |s|
    ensures r == [] || !IsSpace(r[0])
    ensures forall i :: 0 <= i < |s| - |r| ==> IsSpace(s[i])
    decreases |s|
  {
    if s != [] && IsSpace(s[0]) then TrimStart(s[1..]) else s
  }

  /** Trailing `\s` characters removed: everything dropped is `\s`, and what is left does not end with one. */
  function TrimEnd(s: string): (r: string)
    ensures |r| <= |s|
    ensures r == [] || !IsSpace(r[|r| - 1])
    ensures forall i :: |r| <= i < |s| ==> IsSpace(s[i])
    decreases |s|
  {
    if s != [] && IsSpace(s[|s| - 1]) then TrimEnd(s[..|s| - 1]) else s
  }

  /** What `TrimStart` leaves is a suffix of its input. */
  lemma {:induction false} TrimStartSuffix(s: string)
    ensures TrimStart(s) == s[|s| - |TrimStart(s)|..]
    decreases |s|
  {
    if s != [] && IsSpace(s[0]) {
      TrimStartSuffix(s[1..]);
    }
  }

  /** What `TrimEnd` leaves is a prefix of its input. */
  lemma {:induction false} TrimEndPrefix(s: string)
    ensures TrimEnd(s) == s[..|TrimEnd(s)|]
    decreases |s|
  {
    if s != [] && IsSpace(s[|s| - 1]) {
      TrimEndPrefix(s[..|s| - 1]);
    }
  }

  /** `String.prototype.trim`. */
  function Trim(s: string): string {
    TrimEnd(TrimStart(s))
  }

  /** `TrimEnd` of the suffix `s[k..]` is a slice of `s` followed only by `\s`. */
  lemma TrimEndOfSuffix(s: string, k: nat, u: string)
    requires k <= |s| && u == s[k..]
    ensures var t := TrimEnd(u);
      && k + |t| <= |s|
      && t == s[k..k + |t|]
      && (forall i :: k + |t| <= i < |s| ==> IsSpace(s[i]))
  {
    var t := TrimEnd(u);
    assert t == u[..|t|] by { TrimEndPrefix(u); }
    assert t == s[k..k + |t|] by {
      assert s[k..][..|t|] == s[k..k + |t|];
    }
    forall i | k + |t| <= i < |s|
      ensures IsSpace(s[i])
    {
      assert s[i] == u[i - k];
    }
  }

  /**
   * `trim` cuts `s` down to the slice between its leading and its trailing
   * run of `\s` characters: both runs consist of `\s` only, and the slice
   * neither starts nor ends with one.
   */
  lemma TrimSpec(s: string)
    ensures var t, k := Trim(s), |s| - |TrimStart(s)|;
      && k + |t| <= |s|
      && t == s[k..k + |t|]
      && (forall i :: 0 <= i < k ==> IsSpace(s[i]))
      && (forall i :: k + |t| <= i < |s| ==> IsSpace(s[i]))
      && (t == [] || (!IsSpace(t[0]) && !IsSpace(t[|t| - 1])))
  {
    var u := TrimStart(s);
    var k := |s| - |u|;
    TrimStartSuffix(s);
    TrimEndOfSuffix(s, k, u);
    var t := TrimEnd(u);
    if t != [] {
      assert t[0] == u[0] by { TrimEndPrefix(u); }
    }
  }

  /** A string without `\s` characters is its own trim. */
  lemma TrimNoSpace(s: string)
    requires forall i :: 0 <= i < |s| ==> !IsSpace(s[i])
    ensures Trim(s) == s
  {
  }

  /** Number of occurrences of `c` in `s`. */
  function CountChar(s: string, c: char): nat {
    if s == [] then 0 else (if s[0] == c then 1 else 0) + CountChar(s[1..], c)
  }

  /** Occurrences of a character add up over a concatenation. */
  lemma {:induction false} CountCharAppend(a: string, b: string, c: char)
    ensures CountChar(a + b, c) == CountChar(a, c) + CountChar(b, c)
    decreases |a|
  {
    if a == [] {
      assert a + b == b;
    } else {
      assert (a + b)[1..] == a[1..] + b;
      CountCharAppend(a[1..], b, c);
    }
  }

  /** `s.split(/\r?\n/)`: a line ends before every `\n` and before every `\r\n`. */
  function SplitLines(s: string): (r: seq<string>)
    ensures |r| >= 1
    decreases |s|
  {
    if s == [] then [""]
    else if s[0] == '\n' then [""] + SplitLines(s[1..])
    else if |s| >= 2 && s[0] == '\r' && s[1] == '\n' then [""] + SplitLines(s[2..])
    else
      var rest := SplitLines(s[1..]);
      [[s[0]] + rest[0]] + rest[1..]
  }

  /** `s.split(c)` for a one-character separator. */
  function SplitOn(s: string, c: char): (r: seq<string>)
    ensures |r| >= 1
    ensures forall k :: 0 <= k < |r| ==> c !in r[k]
    ensures r[0] == "" <==> s == [] || s[0] == c
    decreases |s|
  {
    if s == [] then [""]
    else if s[0] == c then [""] + SplitOn(s[1..], c)
    else
      var rest := SplitOn(s[1..], c);
      [[s[0]] + rest[0]] + rest[1..]
  }

  /**
   * `s.split(/\s+/)`: every maximal run of `\s` separates two parts. No part
   * holds a `\s` character, only the first and the last part can be empty,
   * and the first is empty exactly when `s` is empty or starts with `\s`.
   */
  function SplitWs(s: string): (r: seq<string>)
    ensures |r| >= 1
    ensures forall k, i :: 0 <= k < |r| && 0 <= i < |r[k]| ==> !IsSpace(r[k][i])
    ensures forall k :: 0 < k < |r| - 1 ==> r[k] != ""
    ensures r[0] == "" <==> s == [] || IsSpace(s[0])
    decreases |s|
  {
    if s == [] then [""]
    else if IsSpace(s[0]) then [""] + SplitWs(TrimStart(s))
    else
      var rest := SplitWs(s[1..]);
      [[s[0]] + rest[0]] + rest[1..]
  }

  /** Dropping a run of `\s` in front of a part that does not start with `\s`. */
  lemma {:induction false} TrimStartRun(w: string, x: string)
    requires forall i :: 0 <= i < |w| ==> IsSpace(w[i])
    requires x == [] || !IsSpace(x[0])
    ensures TrimStart(w + x) == x
    decreases |w|
  {
    if w == [] {
      assert w + x == x;
    } else {
      assert (w + x)[1..] == w[1..] + x;
      TrimStartRun(w[1..], x);
    }
  }

  /** A word without `\s` in front of `t` joins the first part of `t`'s split. */
  lemma {:induction false} SplitWsWord(a: string, t: string)
    requires forall i :: 0 <= i < |a| ==> !IsSpace(a[i])
    ensures SplitWs(a + t) == [a + SplitWs(t)[0]] + SplitWs(t)[1..]
    decreases |a|
  {
    if a == [] {
      assert a + t == t;
      assert a + SplitWs(t)[0] == SplitWs(t)[0];
    } else {
      assert (a + t)[1..] == a[1..] + t;
      SplitWsWord(a[1..], t);
      assert [a[0]] + (a[1..] + SplitWs(t)[0]) == a + SplitWs(t)[0];
    }
  }

  /** A non-empty run of `\s` ends a part: what follows starts the next one. */
  lemma SplitWsRun(w: string, x: string)
    requires |w| > 0 && forall i :: 0 <= i < |w| ==> IsSpace(w[i])
    requires x == [] || !IsSpace(x[0])
    ensures SplitWs(w + x) == [""] + SplitWs(x)
  {
    TrimStartRun(w, x);
  }

  /** A word, then a run of `\s`: the word is the first part and the rest is split on. */
  lemma SplitWsLead(a: string, w: string, x: string)
    requires forall i :: 0 <= i < |a| ==> !IsSpace(a[i])
    requires |w| > 0 && forall i :: 0 <= i < |w| ==> IsSpace(w[i])
    requires x == [] || !IsSpace(x[0])
    ensures SplitWs(a + w + x) == [a] + SplitWs(x)
  {
    SplitWsRun(w, x);
    SplitWsWord(a, w + x);
    assert a + w + x == a + (w + x);
    assert a + "" == a;
  }

  /** A word followed by nothing or by `\s` is the first part. */
  lemma SplitWsLast(c: string, t: string)
    requires c != "" && forall i :: 0 <= i < |c| ==> !IsSpace(c[i])
    requires t == [] || IsSpace(t[0])
    ensures (c + t)[0] == c[0] && SplitWs(c + t)[0] == c
  {
    SplitWsWord(c, t);
    assert c + SplitWs(t)[0] == c;
  }

  /**
   * Three words separated by runs of `\s`, followed by nothing or by `\s`,
   * are the first three parts of `split(/\s+/)`.
   */
  lemma SplitWsFields(a: string, w: string, b: string, w2: string, c: string, t: string)
    requires a != "" && b != "" && c != ""
    requires forall i :: 0 <= i < |a| ==> !IsSpace(a[i])
    requires forall i :: 0 <= i < |b| ==> !IsSpace(b[i])
    requires forall i :: 0 <= i < |c| ==> !IsSpace(c[i])
    requires |w| > 0 && forall i :: 0 <= i < |w| ==> IsSpace(w[i])
    requires |w2| > 0 && forall i :: 0 <= i < |w2| ==> IsSpace(w2[i])
    requires t == [] || IsSpace(t[0])
    ensures var r := SplitWs(a + w + b + w2 + c + t);
      |r| >= 3 && r[0] == a && r[1] == b && r[2] == c
  {
    var x := b + w2 + (c + t);
    SplitWsLast(c, t);
    SplitWsLead(b, w2, c + t);
    assert x[0] == b[0];
    SplitWsLead(a, w, x);
    Regroup(a, w, b, w2, c, t);
  }

  /** The six pieces of a line, regrouped from the right. */
  lemma Regroup(a: string, w: string, b: string, w2: string, c: string, t: string)
    ensures a + w + b + w2 + c + t == a + w + (b + w2 + (c + t))
  {
  }

  /** `Array.prototype.join` over strings. */
  function Join(parts: seq<string>, sep: string): string
    decreases |parts|
  {
    if |parts| == 0 then ""
    else if |parts| == 1 then parts[0]
    else parts[0] + sep + Join(parts[1..], sep)
  }

  /** Each list of fields joined with `sep`. */
  function JoinAll(rows: seq<seq<string>>, sep: string): (r: seq<string>)
    ensures |r| == |rows|
  {
    seq(|rows|, k requires 0 <= k < |rows| => Join(rows[k], sep))
  }

  /** A sequence that agrees with the joined rows at every index is the joined rows. */
  lemma JoinAllPointwise(rows: seq<seq<string>>, sep: string, out: seq<string>)
    requires |out| == |rows| && forall k :: 0 <= k < |rows| ==> out[k] == Join(rows[k], sep)
    ensures out == JoinAll(rows, sep)
  {
  }

  lemma JoinAllAppend(a: seq<seq<string>>, b: seq<seq<string>>, sep: string)
    ensures JoinAll(a + b, sep) == JoinAll(a, sep) + JoinAll(b, sep)
  {
  }

  /** Splitting on `\r?\n` gives one segment more than there are `\n` characters. */
  lemma {:induction false} SplitLinesCount(s: string)
    ensures |SplitLines(s)| == CountChar(s, '\n') + 1
    decreases |s|
  {
    if s == [] {
    } else if s[0] == '\n' {
      SplitLinesCount(s[1..]);
    } else if |s| >= 2 && s[0] == '\r' && s[1] == '\n' {
      SplitLinesCount(s[2..]);
      assert s[1..][1..] == s[2..];
    } else {
      SplitLinesCount(s[1..]);
    }
  }

  /** No segment of a split on `\r?\n` holds a `\n`. */
  lemma {:induction false} SplitLinesNoNewline(s: string, k: nat)
    requires k < |SplitLines(s)|
    ensures '\n' !in SplitLines(s)[k]
    decreases |s|
  {
    if s == [] {
    } else if s[0] == '\n' {
      if k > 0 { SplitLinesNoNewline(s[1..], k - 1); }
    } else if |s| >= 2 && s[0] == '\r' && s[1] == '\n' {
      if k > 0 { SplitLinesNoNewline(s[2..], k - 1); }
    } else {
      SplitLinesNoNewline(s[1..], k);
    }
  }

  /** Without carriage returns, splitting on `\r?\n` is splitting on `\n`. */
  lemma {:induction false} SplitLinesWithoutCr(s: string)
    requires '\r' !in s
    ensures SplitLines(s) == SplitOn(s, '\n')
    decreases |s|
  {
    if s != [] {
      assert '\r' !in s[1..];
      SplitLinesWithoutCr(s[1..]);
    }
  }

  /** `p` without one trailing `\r`, when it has one. */
  function DropCr(p: string): (r: string)
    ensures p == r || p == r + "\r"
  {
    if |p| > 0 && p[|p| - 1] == '\r' then p[..|p| - 1] else p
  }

  /**
   * `l` is `o` with the `\r` that ends a piece followed by another piece
   * dropped; the last piece is the same in both.
   */
  ghost predicate CrDropped(l: seq<string>, o: seq<string>) {
    && |l| == |o| && |o| >= 1
    && (forall k :: 0 <= k < |o| - 1 ==> l[k] == DropCr(o[k]))
    && l[|l| - 1] == o[|o| - 1]
  }

  /** A line break in front: both splits gain an empty first piece, or `"\r"` for `\r\n`. */
  lemma CrDroppedBreak(l: seq<string>, o: seq<string>, first: string)
    requires CrDropped(l, o)
    requires first == "" || first == "\r"
    ensures CrDropped([""] + l, [first] + o)
  {
  }

  /** Another character in front extends both first pieces. */
  lemma CrDroppedChar(x: char, l: seq<string>, o: seq<string>)
    requires CrDropped(l, o)
    requires |o| >= 2 && o[0] == "" ==> x != '\r'
    ensures CrDropped([[x] + l[0]] + l[1..], [[x] + o[0]] + o[1..])
  {
    var l', o' := [[x] + l[0]] + l[1..], [[x] + o[0]] + o[1..];
    if |o| >= 2 {
      var p := o[0];
      assert DropCr([x] + p) == [x] + DropCr(p) by {
        if p != "" {
          assert ([x] + p)[|p|] == p[|p| - 1];
          assert ([x] + p)[..|p|] == [x] + p[..|p| - 1];
        }
      }
      forall k | 1 <= k < |o'| - 1
        ensures l'[k] == DropCr(o'[k])
      {
        assert l'[k] == l[k] && o'[k] == o[k];
      }
      assert l'[|l'| - 1] == l[|l| - 1];
    }
  }

  /**
   * Splitting on `\r?\n` is splitting on `\n` and then dropping the `\r`
   * that ends a piece followed by a `\n`; the last piece keeps its `\r`.
   */
  lemma {:induction false} SplitLinesDropsCr(s: string)
    ensures CrDropped(SplitLines(s), SplitOn(s, '\n'))
    decreases |s|
  {
    if s == [] {
    } else if s[0] == '\n' {
      SplitLinesDropsCr(s[1..]);
      CrDroppedBreak(SplitLines(s[1..]), SplitOn(s[1..], '\n'), "");
    } else if |s| >= 2 && s[0] == '\r' && s[1] == '\n' {
      SplitLinesDropsCr(s[2..]);
      assert s[1..][1..] == s[2..];
      var rest := SplitOn(s[1..], '\n');
      assert rest == [""] + SplitOn(s[2..], '\n');
      assert [s[0]] + rest[0] == "\r";
      assert rest[1..] == SplitOn(s[2..], '\n');
      assert SplitOn(s, '\n') == ["\r"] + SplitOn(s[2..], '\n');
      CrDroppedBreak(SplitLines(s[2..]), SplitOn(s[2..], '\n'), "\r");
    } else {
      SplitLinesDropsCr(s[1..]);
      CrDroppedChar(s[0], SplitLines(s[1..]), SplitOn(s[1..], '\n'));
    }
  }

  lemma {:induction false} JoinCons(a: string, parts: seq<string>, sep: string)
    requires |parts| >= 1
    ensures Join([a] + parts, sep) == a + sep + Join(parts, sep)
  {
    assert ([a] + parts)[1..] == parts;
  }

  /** Prepending a character to the first part prepends it to the joined string. */
  lemma {:induction false} JoinPrepend(x: char, parts: seq<string>, sep: string)
    requires |parts| >= 1
    ensures Join([[x] + parts[0]] + parts[1..], sep) == [x] + Join(parts, sep)
  {
    if |parts| > 1 {
      assert parts == [parts[0]] + parts[1..];
      JoinCons(parts[0], parts[1..], sep);
      JoinCons([x] + parts[0], parts[1..], sep);
    }
  }

  /** Joining the parts of `s.split(c)` with `c` gives back `s`. */
  lemma {:induction false} JoinSplitOn(s: string, c: char)
    ensures Join(SplitOn(s, c), [c]) == s
    decreases |s|
  {
    if s == [] {
    } else if s[0] == c {
      var rest := SplitOn(s[1..], c);
      JoinSplitOn(s[1..], c);
      JoinCons("", rest, [c]);
      assert s == [c] + s[1..];
    } else {
      var rest := SplitOn(s[1..], c);
      JoinSplitOn(s[1..], c);
      JoinPrepend(s[0], rest, [c]);
      assert s == [s[0]] + s[1..];
    }
  }

  /** A file of lines without carriage returns is recovered by joining its lines with `\n`. */
  lemma JoinSplitLines(s: string)
    requires '\r' !in s
    ensures Join(SplitLines(s), "\n") == s
  {
    SplitLinesWithoutCr(s);
    JoinSplitOn(s, '\n');
  }

  /** The character of a decimal digit `d`. */
  function DigitChar(d: nat): (c: char)
    requires d < 10
    ensures IsDigit(c)
  {
    ('0' as int + d) as char
  }

  /** The value of a string of decimal digits, most significant first. */
  function DecimalValue(s: string): nat
    requires AllDigits(s)
    decreases |s|
  {
    if s == [] then 0 else DecimalValue(s[..|s| - 1]) * 10 + (s[|s| - 1] as int - '0' as int)
  }

  /** `String(n)` for a natural number. */
  function NatToString(n: nat): string
    decreases n
  {
    if n < 10 then [DigitChar(n)] else NatToString(n / 10) + [DigitChar(n % 10)]
  }

  /** `String(n)` for an integer. */
  function IntToString(n: int): string {
    if n < 0 then "-" + NatToString(-n) else NatToString(n)
  }

  /**
   * `String(n)` writes only digits, has no leading zero, reads back as `n`,
   * and has one digit below 10 and two below 100.
   */
  lemma {:induction false} NatToStringSpec(n: nat)
    ensures AllDigits(NatToString(n)) && DecimalValue(NatToString(n)) == n
    ensures |NatToString(n)| >= 1 && (NatToString(n)[0] == '0' ==> n == 0)
    ensures |NatToString(n)| == 1 <==> n < 10
    ensures |NatToString(n)| == 2 <==> 10 <= n < 100
    decreases n
  {
    if n >= 10 {
      NatToStringSpec(n / 10);
      var s := NatToString(n);
      assert s[..|s| - 1] == NatToString(n / 10);
    }
  }

  /** JavaScript numbers as the scripts produce them: integers, or `NaN`. */
  datatype JsNumber = Finite(value: int) | NaN

  /**
   * `Number(s)`: surrounding `\s` is ignored, the empty string is 0, an
   * optional sign followed by decimal digits is that integer, anything else
   * is `NaN`. Fractions, exponents and `0x` forms are not modelled.
   */
  function ParseNumber(s: string): JsNumber {
    var t := Trim(s);
    if t == "" then Finite(0)
    else if AllDigits(t) then Finite(DecimalValue(t))
    else if |t| >= 2 && (t[0] == '-' || t[0] == '+') && AllDigits(t[1..]) then
      var d: int := DecimalValue(t[1..]);
      Finite(if t[0] == '-' then -d else d)
    else NaN
  }

  /** `String(x)` for a JavaScript number of this model. */
  function NumberToString(x: JsNumber): string {
    match x
    case Finite(v) => IntToString(v)
    case NaN => "NaN"
  }

  /** `x * k`; `NaN` stays `NaN`. */
  function Times(x: JsNumber, k: int): JsNumber {
    match x
    case Finite(v) => Finite(v * k)
    case NaN => NaN
  }

  lemma DigitIsNotSpace(c: char)
    requires IsDigit(c)
    ensures !IsSpace(c)
  {
  }

  /** A digit string followed by a newline trims to the digit string. */
  lemma TrimDigitsNewline(d: string)
    requires d != [] && AllDigits(d)
    ensures Trim(d + "\n") == d
  {
    var s := d + "\n";
    assert s[0] == d[0];
    DigitIsNotSpace(d[0]);
    assert TrimStart(s) == s;
    assert s[..|s| - 1] == d;
    assert TrimEnd(s) == TrimEnd(d);
    DigitIsNotSpace(d[|d| - 1]);
    assert TrimEnd(d) == d;
  }

  /** `Number` of a non-empty digit string is its decimal value. */
  lemma ParseDigits(d: string)
    requires d != [] && AllDigits(d)
    ensures ParseNumber(d) == Finite(DecimalValue(d))
  {
    forall i | 0 <= i < |d| ensures !IsSpace(d[i]) {
      DigitIsNotSpace(d[i]);
    }
    TrimNoSpace(d);
  }

  /** `Number` of a trimmed minus sign and digits is the negated value of the digits. */
  lemma ParseSigned(t: string)
    requires Trim(t) == t && |t| >= 2 && t[0] == '-' && AllDigits(t[1..])
    ensures ParseNumber(t) == Finite(-(DecimalValue(t[1..]) as int))
  {
    assert !AllDigits(t) by {
      assert !IsDigit(t[0]);
    }
  }

  /** `Number` of a minus sign and a non-empty digit string is the negated value. */
  lemma ParseNegative(d: string)
    requires d != [] && AllDigits(d)
    ensures ParseNumber("-" + d) == Finite(-(DecimalValue(d) as int))
  {
    var t := "-" + d;
    assert t[0] == '-' && t[1..] == d;
    forall i | 0 <= i < |t| ensures !IsSpace(t[i]) {
      if i > 0 {
        assert t[i] == d[i - 1];
        DigitIsNotSpace(d[i - 1]);
      }
    }
    TrimNoSpace(t);
    ParseSigned(t);
  }

  /** `Number(String(x))` is `x` for every integer `x`. */
  lemma NumberRoundTrip(v: int)
    ensures ParseNumber(IntToString(v)) == Finite(v)
  {
    if v < 0 {
      var d := NatToString(-v);
      assert d != [] && AllDigits(d) && DecimalValue(d) == -v by {
        NatToStringSpec(-v);
      }
      ParseNegative(d);
      assert IntToString(v) == "-" + d;
    } else {
      var d := NatToString(v);
      assert d != [] && AllDigits(d) && DecimalValue(d) == v by {
        NatToStringSpec(v);
      }
      ParseDigits(d);
      assert IntToString(v) == d;
    }
  }

  /**
   * `s.slice(a, b)` for non-negative bounds: both bounds are clamped to
   * `|s|`, and the result is the characters from the clamped start up to the
   * clamped end, or nothing when the end is not past the start.
   */
  function Slice(s: string, a: nat, b: nat): (r: string)
    ensures |r| <= |s|
    ensures var lo, hi := (if a < |s| then a else |s|), (if b < |s| then b else |s|);
      && |r| == (if lo < hi then hi - lo else 0)
      && forall i :: 0 <= i < |r| ==> r[i] == s[lo + i]
  {
    var lo := if a < |s| then a else |s|;
    var hi := if b < |s| then b else |s|;
    if lo < hi then s[lo..hi] else ""
  }

  /** `s.slice(a)` for a non-negative start. */
  function SliceFrom(s: string, a: nat): string {
    if a < |s| then s[a..] else ""
  }
}
