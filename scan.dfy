/**
  Hand-written scanners for the two regular expressions of the inline rewriter
  that are simple enough to state exactly, with the semantics of a global
  `String.prototype.match`: the leftmost match is taken, the next search starts
  where it ended, and the wildcard `.` does not cross a line terminator.

  - `REG_LINK_1 = /\<.*?\>+/g` (test/md.js:10): a `<`, the shortest run of
    wildcard characters up to a `>`, then every `>` that follows.
  - `REG_FORMAT = /\*{1,2}.*?\*{1,2}|_{1,3}.*?_{1,3}/g` (test/md.js:15): one or
    two asterisks (one to three underscores), the shortest text up to the next
    delimiter, then as many closing delimiters as the quantifier takes.
  - `/^\*{1,2}|\*{1,2}$/g` and `/^_{1,2}|_{1,2}$/g` (test/md.js:450, 453), the
    patterns that strip the delimiters from a format match.
*/
module Scan {
  import opened JsString

  function Min(a: int, b: int): int {
    if a <= b then a else b
  }

  /** `n` copies of `c`. */
  function Repeat(c: char, n: nat): (r: string)
    ensures |r| == n && forall i :: 0 <= i < n ==> r[i] == c
  {
    if n == 0 then "" else [c] + Repeat(c, n - 1)
  }

  /** The end of the run of `c` that starts at `i`. */
  function RunEnd(s: string, i: nat, c: char): (r: nat)
    requires i <= |s|
    ensures i <= r <= |s|
    ensures forall j :: i <= j < r ==> s[j] == c
    ensures r < |s| ==> s[r] != c
    decreases |s| - i
  {
    if i < |s| && s[i] == c then RunEnd(s, i + 1, c) else i
  }

  /** No line terminator in `s[i..j]`: the wildcard can cover it. */
  predicate Reach(s: string, i: nat, j: nat)
    requires i <= j <= |s|
  {
    forall k :: i <= k < j ==> !IsLineTerminator(s[k])
  }

  /**
    The first `c` at or after `i` that a lazy `.*?` starting at `i` can reach
    (no line terminator in between), or -1.
  */
  function CloseFrom(s: string, i: nat, c: char): (r: int)
    requires i <= |s|
    ensures r >= 0 ==> i <= r < |s| && s[r] == c && Reach(s, i, r)
    ensures r >= 0 ==> forall j :: i <= j < r ==> s[j] != c
    ensures r < 0 ==> forall j :: i <= j < |s| && s[j] == c ==> !Reach(s, i, j)
    decreases |s| - i
  {
    if i == |s| then -1
    else if s[i] == c then i
    else if IsLineTerminator(s[i]) then -1
    else CloseFrom(s, i + 1, c)
  }

  // ---------------------------------------------------------------- REG_LINK_1

  /** The end of the `REG_LINK_1` match that starts at `p`, or -1. */
  function Link1At(s: string, p: nat): (r: int)
    requires p < |s|
    ensures r >= 0 ==> p + 2 <= r <= |s| && s[p] == '<' && s[r - 1] == '>'
    ensures s[p] != '<' ==> r < 0
  {
    if s[p] != '<' then -1
    else
      var q := CloseFrom(s, p + 1, '>');
      if q < 0 then -1 else RunEnd(s, q, '>')
  }

  /** The matches of `REG_LINK_1` at or after `p`. */
  function ScanLink1From(s: string, p: nat): (r: seq<string>)
    requires p <= |s|
    ensures forall k :: 0 <= k < |r| ==> |r[k]| >= 2 && r[k][0] == '<' && r[k][|r[k]| - 1] == '>'
    decreases |s| - p
  {
    if p == |s| then []
    else
      var e := Link1At(s, p);
      if e < 0 then ScanLink1From(s, p + 1) else [s[p..e]] + ScanLink1From(s, e)
  }

  /** `text.match(REG_LINK_1)`, with the empty list for `null`. */
  function ScanLink1(s: string): (r: seq<string>)
    ensures forall k :: 0 <= k < |r| ==> |r[k]| >= 2 && r[k][0] == '<' && r[k][|r[k]| - 1] == '>'
  {
    ScanLink1From(s, 0)
  }

  /** The scan passes over text without `<`. */
  lemma {:induction false} Link1Skip(s: string, p: nat, e: nat)
    requires p <= e <= |s|
    requires forall j :: p <= j < e ==> s[j] != '<'
    ensures ScanLink1From(s, p) == ScanLink1From(s, e)
    decreases e - p
  {
    if p < e {
      Link1Skip(s, p + 1, e);
    }
  }

  /** Text without `<` has no `REG_LINK_1` match. */
  lemma Link1None(s: string)
    requires '<' !in s
    ensures ScanLink1(s) == []
  {
    Link1Skip(s, 0, |s|);
  }

  /**
    An angle-bracketed address between text without brackets is the only match,
    and it is found whole.
  */
  lemma Link1Single(x: string, u: string, y: string)
    requires '<' !in x && '<' !in y && '>' !in u && '>' !in y
    requires forall k :: 0 <= k < |u| ==> !IsLineTerminator(u[k])
    ensures ScanLink1(x + "<" + u + ">" + y) == ["<" + u + ">"]
  {
    var s := x + "<" + u + ">" + y;
    var p, q := |x|, |x| + 1 + |u|;
    assert s[p] == '<' && s[q] == '>';
    forall j | p + 1 <= j < q
      ensures s[j] == u[j - p - 1]
    {
    }
    assert CloseFrom(s, p + 1, '>') == q by {
      var r := CloseFrom(s, p + 1, '>');
      assert Reach(s, p + 1, q);
      assert r >= 0;
    }
    assert q + 1 == |s| || s[q + 1] == y[0];
    assert RunEnd(s, q, '>') == q + 1;
    Link1Skip(s, 0, p);
    assert s[p..q + 1] == "<" + u + ">";
    forall j | q + 1 <= j < |s|
      ensures s[j] != '<'
    {
      assert s[j] == y[j - q - 1];
    }
    Link1Skip(s, q + 1, |s|);
  }

  // ---------------------------------------------------------------- REG_FORMAT

  /** The largest number of delimiters `c` the quantifier takes: two asterisks, three underscores. */
  function MaxRun(c: char): nat {
    if c == '*' then 2 else 3
  }

  /**
    The end of a match of `c{1,max}.*?c{1,max}` at `p` whose opening run is
    `k` characters, backtracking to shorter opening runs; -1 if there is none.
  */
  function DelimFrom(s: string, p: nat, c: char, k: nat): (r: int)
    requires 1 <= k && p + k <= |s|
    ensures r >= 0 ==> p + 2 <= r <= |s| && s[r - 1] == c
    decreases k
  {
    var q := CloseFrom(s, p + k, c);
    if q >= 0 then q + Min(MaxRun(c), RunEnd(s, q, c) - q)
    else if k > 1 then DelimFrom(s, p, c, k - 1)
    else -1
  }

  /** The end of the match of the `c` alternative at `p`, or -1. */
  function DelimAt(s: string, p: nat, c: char): (r: int)
    requires p < |s|
    ensures r >= 0 ==> p + 2 <= r <= |s| && s[p] == c && s[r - 1] == c
    ensures s[p] != c ==> r < 0
  {
    if s[p] != c then -1 else DelimFrom(s, p, c, Min(MaxRun(c), RunEnd(s, p, c) - p))
  }

  /** `IsDelim(c)`: one of the two emphasis delimiters. */
  predicate IsDelim(c: char) {
    c == '*' || c == '_'
  }

  /** The end of the `REG_FORMAT` match at `p`: the asterisk alternative first, then the underscore one. */
  function FormatAt(s: string, p: nat): (r: int)
    requires p < |s|
    ensures r >= 0 ==> p + 2 <= r <= |s| && IsDelim(s[p]) && s[r - 1] == s[p]
    ensures !IsDelim(s[p]) ==> r < 0
  {
    var e := DelimAt(s, p, '*');
    if e >= 0 then e else DelimAt(s, p, '_')
  }

  function ScanFormatFrom(s: string, p: nat): (r: seq<string>)
    requires p <= |s|
    ensures forall k :: 0 <= k < |r| ==> |r[k]| >= 2 && IsDelim(r[k][0]) && r[k][|r[k]| - 1] == r[k][0]
    decreases |s| - p
  {
    if p == |s| then []
    else
      var e := FormatAt(s, p);
      if e < 0 then ScanFormatFrom(s, p + 1) else [s[p..e]] + ScanFormatFrom(s, e)
  }

  /** `text.match(REG_FORMAT)`, with the empty list for `null`. */
  function ScanFormat(s: string): (r: seq<string>)
    ensures forall k :: 0 <= k < |r| ==> |r[k]| >= 2 && IsDelim(r[k][0]) && r[k][|r[k]| - 1] == r[k][0]
  {
    ScanFormatFrom(s, 0)
  }

  lemma {:induction false} FormatSkip(s: string, p: nat, e: nat)
    requires p <= e <= |s|
    requires forall j :: p <= j < e ==> !IsDelim(s[j])
    ensures ScanFormatFrom(s, p) == ScanFormatFrom(s, e)
    decreases e - p
  {
    if p < e {
      FormatSkip(s, p + 1, e);
    }
  }

  /** Text without `*` and `_` has no `REG_FORMAT` match. */
  lemma FormatNone(s: string)
    requires '*' !in s && '_' !in s
    ensures ScanFormat(s) == []
  {
    FormatSkip(s, 0, |s|);
  }

  /** A run of `c` from `i` that stops at `e` ends at `e`. */
  lemma RunEndExact(s: string, i: nat, c: char, e: nat)
    requires i <= e <= |s|
    requires forall j :: i <= j < e ==> s[j] == c
    requires e == |s| || s[e] != c
    ensures RunEnd(s, i, c) == e
  {
  }

  /** The first `c` after reachable text without `c` is where the lazy wildcard stops. */
  lemma CloseFromExact(s: string, i: nat, c: char, q: nat)
    requires i <= q < |s| && s[q] == c
    requires forall j :: i <= j < q ==> s[j] != c && !IsLineTerminator(s[j])
    ensures CloseFrom(s, i, c) == q
  {
    assert Reach(s, i, q);
  }

  /** A run of `n` delimiters, reachable text without the delimiter, and a closing run of `n` form one match. */
  lemma FormatAtSpan(s: string, p: nat, c: char, n: nat, q: nat)
    requires IsDelim(c) && 1 <= n <= MaxRun(c) && p + n < q && q + n <= |s|
    requires forall j :: p <= j < p + n ==> s[j] == c
    requires forall j :: p + n <= j < q ==> s[j] != c && !IsLineTerminator(s[j])
    requires forall j :: q <= j < q + n ==> s[j] == c
    requires q + n == |s| || s[q + n] != c
    ensures FormatAt(s, p) == q + n
  {
    RunEndExact(s, p, c, p + n);
    CloseFromExact(s, p + n, c, q);
    RunEndExact(s, q, c, q + n);
    assert DelimFrom(s, p, c, n) == q + n;
    assert s[p] == c;
  }

  /** The characters of `x + d + t + d + y`, region by region. */
  lemma SpanLayout(x: string, c: char, n: nat, t: string, y: string)
    requires '*' !in x && '_' !in x && '*' !in y && '_' !in y && c !in t
    requires forall j :: 0 <= j < |t| ==> !IsLineTerminator(t[j])
    ensures var s, p, q := x + Repeat(c, n) + t + Repeat(c, n) + y, |x|, |x| + n + |t|;
      && (forall j :: 0 <= j < p ==> !IsDelim(s[j]))
      && (forall j :: p <= j < p + n ==> s[j] == c)
      && (forall j :: p + n <= j < q ==> s[j] != c && !IsLineTerminator(s[j]))
      && (forall j :: q <= j < q + n ==> s[j] == c)
      && (forall j :: q + n <= j < |s| ==> !IsDelim(s[j]))
  {
    var d := Repeat(c, n);
    var s1 := d + y;
    var s2 := t + s1;
    var s3 := d + s2;
    var s := x + s3;
    assert s == x + d + t + d + y;
    var p := |x|;
    var q := p + n + |t|;
    forall j | 0 <= j < p ensures !IsDelim(s[j]) {
      assert s[j] == x[j] && x[j] in x;
    }
    forall j | p <= j < |s| ensures s[j] == s3[j - p] {
    }
    forall j | p + n <= j < |s| ensures s[j] == s2[j - p - n] {
    }
    forall j | q <= j < |s| ensures s[j] == s1[j - q] {
    }
    forall j | p + n <= j < q ensures s[j] != c && !IsLineTerminator(s[j]) {
      assert s2[j - p - n] == t[j - p - n] && t[j - p - n] in t;
    }
    forall j | q + n <= j < |s| ensures !IsDelim(s[j]) {
      assert s1[j - q] == y[j - q - n] && y[j - q - n] in y;
    }
  }

  /**
    An emphasis span `c^n t c^n` (as many delimiters as the quantifier takes at
    most) between text without delimiters is the only match, and it is found whole.
  */
  lemma FormatSingle(x: string, c: char, n: nat, t: string, y: string)
    requires IsDelim(c) && 1 <= n <= MaxRun(c)
    requires '*' !in x && '_' !in x && '*' !in y && '_' !in y && '*' !in t && '_' !in t
    requires forall j :: 0 <= j < |t| ==> !IsLineTerminator(t[j])
    requires t != []
    ensures ScanFormat(x + Repeat(c, n) + t + Repeat(c, n) + y) == [Repeat(c, n) + t + Repeat(c, n)]
  {
    var d := Repeat(c, n);
    var s := x + d + t + d + y;
    var p := |x|;
    var q := p + n + |t|;
    var e := q + n;
    SpanLayout(x, c, n, t, y);
    FormatAtSpan(s, p, c, n, q);
    FormatSkip(s, 0, p);
    assert s[p..e] == d + t + d;
    FormatSkip(s, e, |s|);
  }

  // ---------------------------------------------------------------- delimiter stripping

  /**
    `o.replace(/^c{1,2}|c{1,2}$/g, '')`: up to two leading delimiters go, then up
    to two trailing ones among what is left.
  */
  function StripDelims(o: string, c: char): (r: string)
    ensures |r| <= |o|
  {
    var k := Min(2, RunEnd(o, 0, c));
    var rest := o[k..];
    if |rest| >= 2 && rest[|rest| - 2] == c && rest[|rest| - 1] == c then rest[..|rest| - 2]
    else if |rest| >= 1 && rest[|rest| - 1] == c then rest[..|rest| - 1]
    else rest
  }

  /** A run of exactly `n` delimiters at the front. */
  lemma RunEndRepeat(c: char, n: nat, t: string)
    requires t == [] || t[0] != c
    ensures RunEnd(Repeat(c, n) + t, 0, c) == n
  {
    var o := Repeat(c, n) + t;
    assert forall j :: 0 <= j < n ==> o[j] == c;
    assert n < |o| ==> o[n] == t[0];
  }

  /** What is left once the leading delimiters are gone loses one or two trailing ones. */
  lemma StripTrailing(c: char, t: string, m: nat)
    requires 1 <= m <= 2 && t != [] && t[|t| - 1] != c
    ensures var rest := t + Repeat(c, m);
      (if |rest| >= 2 && rest[|rest| - 2] == c && rest[|rest| - 1] == c then rest[..|rest| - 2]
       else if |rest| >= 1 && rest[|rest| - 1] == c then rest[..|rest| - 1]
       else rest) == t
  {
    var rest := t + Repeat(c, m);
    assert rest[|rest| - 1] == c;
    if m == 1 {
      assert rest[|rest| - 2] == t[|t| - 1];
      assert rest[..|rest| - 1] == t;
    } else {
      assert rest[|rest| - 2] == c;
      assert rest[..|rest| - 2] == t;
    }
  }

  /** One or two delimiters on each side of a text that does not start or end with one are removed exactly. */
  lemma StripAround(c: char, n: nat, t: string, m: nat)
    requires 1 <= n <= 2 && 1 <= m <= 2
    requires t != [] && t[0] != c && t[|t| - 1] != c
    ensures StripDelims(Repeat(c, n) + t + Repeat(c, m), c) == t
  {
    var a, b := Repeat(c, n), Repeat(c, m);
    var o := a + t + b;
    assert o == a + (t + b);
    RunEndRepeat(c, n, t + b);
    assert Min(2, RunEnd(o, 0, c)) == n;
    assert o[n..] == t + b;
    StripTrailing(c, t, m);
  }

  /** Three underscores on each side, which `REG_FORMAT` accepts, leave one on each side. */
  lemma StripThreeUnderscores(t: string)
    requires t != [] && t[0] != '_' && t[|t| - 1] != '_'
    ensures StripDelims(Repeat('_', 3) + t + Repeat('_', 3), '_') == "_" + t + "_"
  {
    var o := Repeat('_', 3) + t + Repeat('_', 3);
    assert o == Repeat('_', 3) + (t + Repeat('_', 3));
    RunEndRepeat('_', 3, t + Repeat('_', 3));
    var rest := o[2..];
    assert rest == "_" + t + "___";
    assert rest[..|rest| - 2] == "_" + t + "_";
  }
}
