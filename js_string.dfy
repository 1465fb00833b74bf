/**
  The JavaScript string operations the parser is built from, with their exact
  index semantics: `trim`, `indexOf`, `lastIndexOf`, `substring` (clamping and
  swapping its arguments), `s[i] || ''`, `replace` with a string pattern (first
  occurrence only), `split`, `Array.prototype.join`, decimal conversion and
  `parseInt(_, 10)`.

  Strings are sequences of Unicode scalar values; the source manipulates UTF-16
  code units, which differ only for characters outside the Basic Multilingual Plane.
*/
module JsString {
  import opened Wrappers

  /** ECMAScript WhiteSpace and LineTerminator: what `trim` strips and `\s` matches. */
  predicate IsSpace(c: char) {
    || c == '\t' || c == '\n' || c == '\U{B}' || c == '\U{C}' || c == '\r' || c == ' '
    || c == '\U{A0}' || c == '\U{1680}' || ('\U{2000}' <= c <= '\U{200A}')
    || c == '\U{2028}' || c == '\U{2029}' || c == '\U{202F}' || c == '\U{205F}'
    || c == '\U{3000}' || c == '\U{FEFF}'
  }

  /** The characters that the regular-expression wildcard `.` does not match. */
  predicate IsLineTerminator(c: char) {
    c == '\n' || c == '\r' || c == '\U{2028}' || c == '\U{2029}'
  }

  predicate AllSpace(s: string) {
    forall i :: 0 <= i < |s| ==> IsSpace(s[i])
  }

  /** True when `s` neither starts nor ends with white space. */
  predicate Trimmed(s: string) {
    s == [] || (!IsSpace(s[0]) && !IsSpace(s[|s| - 1]))
  }

  // ---------------------------------------------------------------- trim

  /** The first index at or after `i` that does not hold white space, or `|s|`. */
  function SkipSpace(s: string, i: nat): (r: nat)
    requires i <= |s|
    ensures i <= r <= |s|
    ensures forall j :: i <= j < r ==> IsSpace(s[j])
    ensures r < |s| ==> !IsSpace(s[r])
    decreases |s| - i
  {
    if i < |s| && IsSpace(s[i]) then SkipSpace(s, i + 1) else i
  }

  /** The end of `s[lo..j]` once its trailing white space is dropped. */
  function SkipSpaceBack(s: string, lo: nat, j: nat): (r: nat)
    requires lo <= j <= |s|
    ensures lo <= r <= j
    ensures forall k :: r <= k < j ==> IsSpace(s[k])
    ensures r > lo ==> !IsSpace(s[r - 1])
    decreases j
  {
    if j > lo && IsSpace(s[j - 1]) then SkipSpaceBack(s, lo, j - 1) else j
  }

  /** `String.prototype.trimStart`: `s` without its leading white space. */
  function TrimStart(s: string): (r: string)
    ensures |r| <= |s|
    ensures r == [] || !IsSpace(r[0])
  {
    s[SkipSpace(s, 0)..]
  }

  /** `String.prototype.trim`: `s` without white space at either end. */
  function Trim(s: string): (r: string)
    ensures |r| <= |s|
    ensures Trimmed(s) ==> r == s
  {
    var a := SkipSpace(s, 0);
    s[a..SkipSpaceBack(s, a, |s|)]
  }

  /** What `trim` returns neither starts nor ends with white space. */
  lemma TrimTrimmed(s: string)
    ensures Trimmed(Trim(s))
  {
    var a := SkipSpace(s, 0);
    var b := SkipSpaceBack(s, a, |s|);
    if a < b {
      assert Trim(s)[0] == s[a];
      assert Trim(s)[b - a - 1] == s[b - 1];
    }
  }

  /** White space runs from `i` up to a non-space character at `e` (or the end). */
  lemma SkipSpaceExact(s: string, i: nat, e: nat)
    requires i <= e <= |s|
    requires forall j :: i <= j < e ==> IsSpace(s[j])
    requires e == |s| || !IsSpace(s[e])
    ensures SkipSpace(s, i) == e
  {
  }

  /** White space runs back from `j` down to a non-space character before `e` (or to `lo`). */
  lemma SkipSpaceBackExact(s: string, lo: nat, j: nat, e: nat)
    requires lo <= e <= j <= |s|
    requires forall k :: e <= k < j ==> IsSpace(s[k])
    requires e == lo || !IsSpace(s[e - 1])
    ensures SkipSpaceBack(s, lo, j) == e
  {
  }

  /** Trimming removes exactly the white space around a trimmed core. */
  lemma TrimAround(a: string, t: string, b: string)
    requires AllSpace(a) && AllSpace(b) && Trimmed(t)
    ensures Trim(a + t + b) == t
  {
    var s := a + t + b;
    var e := |a| + |t|;
    forall j | 0 <= j < |a| ensures IsSpace(s[j]) {
      assert s[j] == a[j];
    }
    forall k | e <= k < |s| ensures IsSpace(s[k]) {
      assert s[k] == b[k - e];
    }
    if t == [] {
      SkipSpaceExact(s, 0, |s|);
      SkipSpaceBackExact(s, |s|, |s|, |s|);
    } else {
      assert s[|a|] == t[0] && s[e - 1] == t[|t| - 1];
      SkipSpaceExact(s, 0, |a|);
      SkipSpaceBackExact(s, |a|, |s|, e);
      assert s[|a|..e] == t;
    }
  }

  // ---------------------------------------------------------------- indices

  /** Clamps a position into `0..n`, as `substring` and `indexOf` do. */
  function Clamp(x: int, n: nat): (r: nat)
    ensures r <= n
    ensures 0 <= x <= n ==> r == x
  {
    if x < 0 then 0 else if x > n then n else x
  }

  /** First index at or after `from` holding `c`, or -1. */
  function FindChar(s: string, c: char, from: nat): (r: int)
    requires from <= |s|
    ensures r == -1 || (from <= r < |s| && s[r] == c)
    ensures forall j :: from <= j < |s| && (r == -1 || j < r) ==> s[j] != c
    decreases |s| - from
  {
    if from == |s| then -1 else if s[from] == c then from else FindChar(s, c, from + 1)
  }

  /** `s.indexOf(c, from)` for a one-character search string. */
  function IndexOfFrom(s: string, c: char, from: int): (r: int)
    ensures r == -1 || (Clamp(from, |s|) <= r < |s| && s[r] == c)
    ensures forall j :: Clamp(from, |s|) <= j < |s| && (r == -1 || j < r) ==> s[j] != c
  {
    FindChar(s, c, Clamp(from, |s|))
  }

  /** `s.indexOf(c)`: the first index of `c`, or -1 exactly when `c` does not occur. */
  function IndexOf(s: string, c: char): (r: int)
    ensures r == -1 <==> c !in s
    ensures r >= 0 ==> r < |s| && s[r] == c
  {
    IndexOfFrom(s, c, 0)
  }

  /** The first index of `c` in `p + [c] + t` is `|p|` when `p` lacks `c`. */
  lemma IndexOfAfter(p: string, c: char, t: string)
    requires c !in p
    ensures IndexOf(p + [c] + t, c) == |p|
  {
    var s := p + [c] + t;
    assert s[|p|] == c;
    assert forall j :: 0 <= j < |p| ==> s[j] == p[j];
  }

  /** Searching from `from` finds the first `c` at or after it. */
  lemma IndexOfFromAfter(p: string, c: char, t: string, from: nat)
    requires from <= |p| && c !in p[from..]
    ensures IndexOfFrom(p + [c] + t, c, from) == |p|
  {
    var s := p + [c] + t;
    assert s[|p|] == c;
    forall j | from <= j < |p|
      ensures s[j] != c
    {
      assert s[j] == p[from..][j - from];
    }
  }

  /** Searching from `from` finds nothing when no `c` follows it. */
  lemma IndexOfFromNone(s: string, c: char, from: nat)
    requires from <= |s| && c !in s[from..]
    ensures IndexOfFrom(s, c, from) == -1
  {
    forall j | from <= j < |s|
      ensures s[j] != c
    {
      assert s[j] == s[from..][j - from];
    }
  }

  /** The last index below `n` holding `c`, or -1. */
  function FindCharBack(s: string, c: char, n: nat): (r: int)
    requires n <= |s|
    ensures r == -1 || (0 <= r < n && s[r] == c)
    ensures forall j :: r < j < n ==> s[j] != c
  {
    if n == 0 then -1 else if s[n - 1] == c then n - 1 else FindCharBack(s, c, n - 1)
  }

  /** `s.lastIndexOf(c)`: the last index of `c`, or -1. */
  function LastIndexOf(s: string, c: char): (r: int)
    ensures r == -1 || (0 <= r < |s| && s[r] == c)
    ensures forall j :: r < j < |s| ==> s[j] != c
  {
    FindCharBack(s, c, |s|)
  }

  /** `s.substring(start, end)`: both bounds are clamped into the string and swapped when reversed. */
  function Substring(s: string, start: int, end: int): (r: string)
    ensures 0 <= start <= end <= |s| ==> r == s[start..end]
    ensures |r| <= |s|
  {
    var a := Clamp(start, |s|);
    var b := Clamp(end, |s|);
    s[if a <= b then a else b..if a <= b then b else a]
  }

  /** `s.substring(0, p.length) === p` holds exactly when `s` starts with `p`. */
  lemma SubstringPrefix(s: string, p: string)
    ensures Substring(s, 0, |p|) == p <==> p <= s
  {
    if |p| > |s| {
      assert |Substring(s, 0, |p|)| <= |s|;
    }
  }

  /** `s.substring(start)`. */
  function SubstringFrom(s: string, start: int): (r: string)
    ensures |r| <= |s|
  {
    Substring(s, start, |s|)
  }

  /** `s[i] || ''`: the character at `i` as a string, or the empty string out of range. */
  function CharAt(s: string, i: int): (r: string)
    ensures 0 <= i < |s| <==> |r| == 1
    ensures 0 <= i < |s| ==> r[0] == s[i]
    ensures r == [] || |r| == 1
  {
    if 0 <= i < |s| then [s[i]] else ""
  }

  // ---------------------------------------------------------------- replace

  predicate OccursAt(s: string, pat: string, i: nat) {
    i + |pat| <= |s| && s[i..i + |pat|] == pat
  }

  predicate Contains(s: string, pat: string) {
    exists j :: 0 <= j <= |s| && OccursAt(s, pat, j)
  }

  /** The first occurrence of `pat` at or after `from`, or -1. */
  function FindFrom(s: string, pat: string, from: nat): (r: int)
    requires from <= |s|
    ensures r == -1 || (from <= r && OccursAt(s, pat, r))
    ensures forall j :: from <= j <= |s| && (r == -1 || j < r) ==> !OccursAt(s, pat, j)
    decreases |s| - from
  {
    if OccursAt(s, pat, from) then from
    else if from == |s| then -1
    else FindFrom(s, pat, from + 1)
  }

  /** `s.indexOf(pat)` for a search string: the first occurrence, or -1 exactly when there is none. */
  function FindFirst(s: string, pat: string): (r: int)
    ensures r == -1 <==> !Contains(s, pat)
    ensures r >= 0 ==> r + |pat| <= |s| && s[r..r + |pat|] == pat
    ensures r >= 0 ==> forall j :: 0 <= j < r ==> !OccursAt(s, pat, j)
  {
    FindFrom(s, pat, 0)
  }

  /**
    `s.replace(pat, rep)` with a string pattern: the first occurrence of `pat`
    is replaced by `rep`, inserted literally; without an occurrence `s` is returned.
  */
  function Replace(s: string, pat: string, rep: string): (r: string)
  {
    var i := FindFirst(s, pat);
    if i < 0 then s else s[..i] + rep + s[i + |pat|..]
  }

  /** Without an occurrence of `pat`, `replace` returns its input. */
  lemma ReplaceAbsent(s: string, pat: string, rep: string)
    requires !Contains(s, pat)
    ensures Replace(s, pat, rep) == s
  {
  }

  /** Replacing a whole string gives the replacement. */
  lemma ReplaceWhole(s: string, rep: string)
    ensures Replace(s, s, rep) == rep
  {
    assert OccursAt(s, s, 0);
    assert s[..0] + rep + s[|s|..] == rep;
  }

  /** Replacing a first occurrence that sits after `a` rewrites exactly that occurrence. */
  lemma ReplaceFirstOccurrence(a: string, pat: string, b: string, rep: string)
    requires forall j :: 0 <= j < |a| ==> !OccursAt(a + pat + b, pat, j)
    ensures Replace(a + pat + b, pat, rep) == a + rep + b
  {
    var s := a + pat + b;
    assert OccursAt(s, pat, |a|) by { assert s[|a|..|a| + |pat|] == pat; }
    var i := FindFirst(s, pat);
    assert i == |a|;
    assert s[..i] == a;
    assert s[i + |pat|..] == b;
  }

  // ---------------------------------------------------------------- split and join

  /** `parts.join(sep)`. */
  function JoinWith(parts: seq<string>, sep: string): (r: string)
    ensures parts == [] ==> r == []
    ensures |parts| == 1 ==> r == parts[0]
  {
    if parts == [] then ""
    else if |parts| == 1 then parts[0]
    else parts[0] + sep + JoinWith(parts[1..], sep)
  }

  /** `s.split(d)` for a one-character separator: the pieces between separators, which join back to `s`. */
  function Split(s: string, d: char): (r: seq<string>)
    ensures |r| >= 1
    ensures forall k :: 0 <= k < |r| ==> d !in r[k]
    ensures JoinWith(r, [d]) == s
    decreases |s|
  {
    var i := IndexOf(s, d);
    if i < 0 then [s]
    else
      var rest := Split(s[i + 1..], d);
      assert s == s[..i] + [d] + s[i + 1..];
      [s[..i]] + rest
  }

  /** Splitting a joined list of separator-free pieces gives the pieces back. */
  lemma {:induction false} SplitJoin(parts: seq<string>, d: char)
    requires |parts| >= 1
    requires forall k :: 0 <= k < |parts| ==> d !in parts[k]
    ensures Split(JoinWith(parts, [d]), d) == parts
  {
    if |parts| > 1 {
      var p, rest := parts[0], parts[1..];
      assert JoinWith(parts, [d]) == p + [d] + JoinWith(rest, [d]);
      SplitStep(p, d, JoinWith(rest, [d]));
      SplitJoin(rest, d);
      assert parts == [p] + rest;
    }
  }

  /** A separator-free piece in front of the first separator is the first piece. */
  lemma SplitStep(p: string, d: char, t: string)
    requires d !in p
    ensures Split(p + [d] + t, d) == [p] + Split(t, d)
  {
    var s := p + [d] + t;
    IndexOfAfter(p, d, t);
    assert s[..|p|] == p;
    assert s[|p| + 1..] == t;
  }

  // ---------------------------------------------------------------- numbers

  predicate IsDigit(c: char) {
    '0' <= c <= '9'
  }

  predicate AllDigits(s: string) {
    forall i :: 0 <= i < |s| ==> IsDigit(s[i])
  }

  function DigitChar(n: nat): (c: char)
    requires n < 10
    ensures IsDigit(c) && c as int - '0' as int == n
  {
    ('0' as int + n) as char
  }

  /** The value of a string of decimal digits. */
  function DigitsValue(d: string): nat
    requires AllDigits(d)
  {
    if d == [] then 0
    else DigitsValue(d[..|d| - 1]) * 10 + (d[|d| - 1] as int - '0' as int)
  }

  /** The decimal numeral of `n`, as `String(n)` writes it: it reads back as `n`. */
  function NatToString(n: nat): (r: string)
    ensures |r| >= 1
    ensures AllDigits(r)
    ensures DigitsValue(r) == n
    decreases n
  {
    if n < 10 then [DigitChar(n)]
    else
      var r := NatToString(n / 10) + [DigitChar(n % 10)];
      assert r[..|r| - 1] == NatToString(n / 10);
      r
  }

  /** Distinct numbers have distinct numerals. */
  lemma NatToStringInjective(m: nat, n: nat)
    requires NatToString(m) == NatToString(n)
    ensures m == n
  {
  }

  /** `String(n)` for an integer value: `parseInt` reads it back as `n`, and only a negative number is signed. */
  function IntToString(n: int): (r: string)
    ensures ParseInt(r) == Some(n)
    ensures r != [] && (r[0] == '-' <==> n < 0)
  {
    if n < 0 then ParseIntNegative(-n); "-" + NatToString(-n)
    else ParseIntNatToString(n); NatToString(n)
  }

  /** The end of the run of decimal digits that starts at `i`. */
  function DigitEnd(s: string, i: nat): (r: nat)
    requires i <= |s|
    ensures i <= r <= |s|
    ensures forall j :: i <= j < r ==> IsDigit(s[j])
    ensures r < |s| ==> !IsDigit(s[r])
    decreases |s| - i
  {
    if i < |s| && IsDigit(s[i]) then DigitEnd(s, i + 1) else i
  }

  /**
    `parseInt(s, 10)` on the integers: leading white space, an optional sign and
    the longest run of digits; `None` stands for `NaN` (no digit after the sign).
  */
  function ParseInt(s: string): (r: Option<int>)
  {
    var t := TrimStart(s);
    var k := if t != [] && (t[0] == '-' || t[0] == '+') then 1 else 0;
    var e := DigitEnd(t, k);
    if e == k then None
    else if k == 1 && t[0] == '-' then Some(-(DigitsValue(t[k..e]) as int))
    else Some(DigitsValue(t[k..e]))
  }

  /** A numeral written by `NatToString` parses back to its number. */
  lemma ParseIntNatToString(n: nat)
    ensures ParseInt(NatToString(n)) == Some(n)
  {
    ParseIntDigits(NatToString(n));
  }

  /** A non-empty run of digits parses to its value. */
  lemma ParseIntDigits(s: string)
    requires s != [] && AllDigits(s)
    ensures ParseInt(s) == Some(DigitsValue(s))
  {
    assert IsDigit(s[0]) && s[0] != '-' && s[0] != '+';
    TrimStartKeeps(s);
    assert DigitEnd(s, 0) == |s|;
    assert s[0..|s|] == s;
  }

  /** A string that starts with a digit or a minus sign is its own `TrimStart`. */
  lemma TrimStartKeeps(s: string)
    requires s != [] && (IsDigit(s[0]) || s[0] == '-')
    ensures TrimStart(s) == s
  {
    assert !IsSpace(s[0]);
    assert SkipSpace(s, 0) == 0;
  }

  /** A minus sign in front of a numeral parses to the negated number. */
  lemma ParseIntNegative(m: nat)
    ensures ParseInt("-" + NatToString(m)) == Some(-(m as int))
  {
    var d := NatToString(m);
    var t := "-" + d;
    TrimStartKeeps(t);
    assert t[1..] == d;
    DigitEndAll(t, 1);
    assert t[1..|t|] == d;
  }

  /** In a string of digits from `i` on, the digit run reaches the end. */
  lemma {:induction false} DigitEndAll(s: string, i: nat)
    requires i <= |s| && AllDigits(s[i..])
    ensures DigitEnd(s, i) == |s|
    decreases |s| - i
  {
    if i < |s| {
      assert s[i] == s[i..][0];
      assert s[i + 1..] == s[i..][1..];
      DigitEndAll(s, i + 1);
    }
  }

  /** A string whose first character after white space is neither a sign nor a digit parses to `NaN`. */
  lemma ParseIntNaN(s: string)
    requires TrimStart(s) == [] || (!IsDigit(TrimStart(s)[0]) && TrimStart(s)[0] != '-' && TrimStart(s)[0] != '+')
    ensures ParseInt(s) == None
  {
  }
}
