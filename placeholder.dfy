/**
  The placeholder table of the inline rewriter (test/md.js:404-432, 650-655).

  Every span a pass rewrites is replaced in the working text by a token
  `'@##' + n + ';'`, where `n` is the size of the table before the push, and
  the final value is stored under that token. At the end of `parseOther` each
  token is replaced, once and in table order, by its value.
*/
module Placeholder {
  import opened JsString

  /** The reserved prefix of every token (`TMP`). */
  const Prefix: string := "@##"

  /** The token of the `n`-th table entry. Its only `@` is its first character. */
  function Token(n: nat): (r: string)
    ensures |r| >= 5 && r[0] == '@'
    ensures forall i :: 0 < i < |r| ==> r[i] != '@'
  {
    Prefix + NatToString(n) + ";"
  }

  datatype Entry = Entry(k: string, v: string)

  type Table = seq<Entry>

  /** Entry `i` is stored under `Token(i)`, as `getReplace` keys it. */
  predicate WellFormed(tab: Table) {
    forall i :: 0 <= i < |tab| ==> tab[i].k == Token(i)
  }

  /**
    `getReplace(find, value)`: the key is the token numbered by the table size
    before the push, and the entry is appended; keying stays well formed.
  */
  function GetReplace(tab: Table, value: string): (r: (string, Table))
    ensures |r.1| == |tab| + 1 && r.1[..|tab|] == tab
    ensures r.1[|tab|] == Entry(r.0, value)
    ensures WellFormed(tab) ==> WellFormed(r.1)
  {
    var key := Token(|tab|);
    (key, tab + [Entry(key, value)])
  }

  // ---------------------------------------------------------------- tokens do not overlap

  /** A token is a prefix of another token followed by anything only when the two numbers agree. */
  lemma TokenPrefix(m: nat, n: nat, w: string)
    ensures Token(m) <= Token(n) + w ==> m == n
  {
    if Token(m) <= Token(n) + w {
      var dm, dn := NatToString(m), NatToString(n);
      var s := Token(n) + w;
      var u := s[|Token(m)|..];
      assert s == Token(m) + u;
      assert s[3..] == dm + [';'] + u;
      assert s[3..] == dn + [';'] + w;
      assert ';' !in dm && ';' !in dn;
      IndexOfAfter(dm, ';', u);
      IndexOfAfter(dn, ';', w);
      assert dm == s[3..][..|dm|] == dn;
      NatToStringInjective(m, n);
    }
  }

  /** An occurrence starts with the pattern's first character. */
  lemma OccursAtHead(s: string, pat: string, j: nat)
    ensures OccursAt(s, pat, j) && pat != [] ==> s[j] == pat[0]
  {
    if OccursAt(s, pat, j) && pat != [] {
      assert s[j..j + |pat|][0] == pat[0];
    }
  }

  /** Tokens of distinct entries are distinct, and none occurs inside another. */
  lemma TokensApart(m: nat, n: nat)
    requires m != n
    ensures !Contains(Token(n), Token(m))
  {
    forall j | 0 <= j <= |Token(n)|
      ensures !OccursAt(Token(n), Token(m), j)
    {
      if j == 0 {
        TokenPrefix(m, n, "");
        assert Token(n) + "" == Token(n);
      } else if j < |Token(n)| {
        OccursAtHead(Token(n), Token(m), j);
      }
    }
  }

  // ---------------------------------------------------------------- the restoration loop

  /** The restoration loop from entry `i` on: each key is replaced once, in table order. */
  function RestoreFrom(text: string, tab: Table, i: nat): string
    decreases |tab| - i
  {
    if i >= |tab| then text else RestoreFrom(Replace(text, tab[i].k, tab[i].v), tab, i + 1)
  }

  function Restore(text: string, tab: Table): string {
    RestoreFrom(text, tab, 0)
  }

  /** A literal token in the text captures the value meant for the token a pass inserted after it. */
  lemma LiteralTokenCaptures()
    ensures Restore(Token(0) + " " + Token(0), [Entry(Token(0), "X")]) == "X " + Token(0)
  {
    var t := Token(0);
    ReplaceFirstOccurrence([], t, " " + t, "X");
    assert [] + t + (" " + t) == t + " " + t;
    assert [] + "X" + (" " + t) == "X " + t;
  }

  // ---------------------------------------------------------------- first occurrences past a prefix

  /** When no occurrence starts inside `x`, the first occurrence in `x + y` is the first one in `y`, shifted. */
  lemma FindFirstShift(x: string, y: string, pat: string)
    requires forall j :: 0 <= j < |x| ==> !OccursAt(x + y, pat, j)
    ensures FindFirst(x + y, pat) == (if FindFirst(y, pat) < 0 then -1 else |x| + FindFirst(y, pat))
  {
    var s := x + y;
    var i := FindFirst(y, pat);
    forall j | |x| <= j <= |s|
      ensures OccursAt(s, pat, j) <==> OccursAt(y, pat, j - |x|)
    {
      if j + |pat| <= |s| {
        assert s[j..j + |pat|] == y[j - |x|..j - |x| + |pat|];
      }
    }
    if i < 0 {
      assert !Contains(s, pat);
    } else {
      assert OccursAt(s, pat, |x| + i);
      forall j | 0 <= j < |x| + i
        ensures !OccursAt(s, pat, j)
      {
        if j >= |x| {
          assert !OccursAt(y, pat, j - |x|);
        }
      }
    }
  }

  lemma ReplaceShift(x: string, y: string, pat: string, rep: string)
    requires forall j :: 0 <= j < |x| ==> !OccursAt(x + y, pat, j)
    ensures Replace(x + y, pat, rep) == x + Replace(y, pat, rep)
  {
    FindFirstShift(x, y, pat);
    if FindFirst(y, pat) >= 0 {
      ReplaceFound(x, y, pat, rep);
    }
  }

  /** `Replace` cuts `x + y` where it cuts `y`, once the first occurrence is known to lie in `y`. */
  lemma ReplaceFound(x: string, y: string, pat: string, rep: string)
    requires FindFirst(y, pat) >= 0 && FindFirst(x + y, pat) == |x| + FindFirst(y, pat)
    ensures Replace(x + y, pat, rep) == x + Replace(y, pat, rep)
  {
    var i := FindFirst(y, pat);
    var a, b := y[..i], y[i + |pat|..];
    assert (x + y)[..|x| + i] == x + a;
    assert (x + y)[|x| + i + |pat|..] == b;
    assert Replace(y, pat, rep) == a + rep + b;
    assert Replace(x + y, pat, rep) == (x + a) + rep + b;
  }

  /** A token cannot start inside text without `@`. */
  lemma ReplaceSkip(x: string, y: string, n: nat, rep: string)
    requires '@' !in x
    ensures Replace(x + y, Token(n), rep) == x + Replace(y, Token(n), rep)
  {
    forall j | 0 <= j < |x|
      ensures !OccursAt(x + y, Token(n), j)
    {
      assert (x + y)[j] == x[j];
      OccursAtHead(x + y, Token(n), j);
    }
    ReplaceShift(x, y, Token(n), rep);
  }

  /** A token cannot start inside another token. */
  lemma ReplacePast(m: nat, y: string, n: nat, rep: string)
    requires m != n
    ensures Replace(Token(m) + y, Token(n), rep) == Token(m) + Replace(y, Token(n), rep)
  {
    var x := Token(m);
    forall j | 0 <= j < |x|
      ensures !OccursAt(x + y, Token(n), j)
    {
      if j == 0 {
        TokenPrefix(n, m, y);
      } else {
        assert (x + y)[j] == x[j];
        OccursAtHead(x + y, Token(n), j);
      }
    }
    ReplaceShift(x, y, Token(n), rep);
  }

  lemma ReplaceHead(n: nat, y: string, rep: string)
    ensures Replace(Token(n) + y, Token(n), rep) == rep + y
  {
    ReplaceFirstOccurrence([], Token(n), y, rep);
    assert [] + Token(n) + y == Token(n) + y;
  }

  // ---------------------------------------------------------------- templates

  /** A piece of a working text: literal text, or the token of a table entry. */
  datatype Piece = Lit(s: string) | Tok(n: nat)

  /** A piece once the entries below `upto` have been resolved. */
  function Show(p: Piece, tab: Table, upto: nat): string {
    match p
    case Lit(s) => s
    case Tok(n) => if n < upto && n < |tab| then tab[n].v else Token(n)
  }

  /** The working text of a template once the entries below `upto` have been resolved. */
  function Fill(ps: seq<Piece>, tab: Table, upto: nat): string {
    if ps == [] then "" else Show(ps[0], tab, upto) + Fill(ps[1..], tab, upto)
  }

  /**
    A text made of literal pieces without `@` and of tokens of the table, each
    token at most once.
  */
  predicate Template(ps: seq<Piece>, tab: Table) {
    && (forall k :: 0 <= k < |ps| && ps[k].Lit? ==> '@' !in ps[k].s)
    && (forall k :: 0 <= k < |ps| && ps[k].Tok? ==> ps[k].n < |tab|)
    && (forall a, b :: 0 <= a < b < |ps| && ps[a].Tok? && ps[b].Tok? ==> ps[a].n != ps[b].n)
  }

  /** No stored value contains `@`. */
  predicate CleanValues(tab: Table) {
    forall i :: 0 <= i < |tab| ==> '@' !in tab[i].v
  }

  lemma TemplateTail(ps: seq<Piece>, tab: Table)
    requires ps != [] && Template(ps, tab)
    ensures Template(ps[1..], tab)
    ensures ps[0].Tok? ==> forall k :: 0 <= k < |ps[1..]| && ps[1..][k].Tok? ==> ps[1..][k].n != ps[0].n
  {
    if ps[0].Tok? {
      forall k | 0 <= k < |ps[1..]| && ps[1..][k].Tok?
        ensures ps[1..][k].n != ps[0].n
      {
        assert ps[1..][k] == ps[k + 1];
      }
    }
  }

  /** Resolving one more entry changes nothing where its token does not occur. */
  lemma {:induction false} FillStable(ps: seq<Piece>, tab: Table, i: nat)
    requires forall k :: 0 <= k < |ps| && ps[k].Tok? ==> ps[k].n != i
    ensures Fill(ps, tab, i) == Fill(ps, tab, i + 1)
  {
    if ps != [] {
      assert forall k :: 0 <= k < |ps[1..]| ==> ps[1..][k] == ps[k + 1];
      FillStable(ps[1..], tab, i);
    }
  }

  /** One step of the restoration loop resolves exactly the token of that entry. */
  lemma {:induction false} FillReplace(ps: seq<Piece>, tab: Table, i: nat)
    requires WellFormed(tab) && CleanValues(tab) && Template(ps, tab) && i < |tab|
    ensures Replace(Fill(ps, tab, i), tab[i].k, tab[i].v) == Fill(ps, tab, i + 1)
  {
    var v := tab[i].v;
    if ps == [] {
      assert !Contains("", Token(i));
    } else {
      var rest := ps[1..];
      TemplateTail(ps, tab);
      FillReplace(rest, tab, i);
      match ps[0]
      case Lit(s) =>
        ReplaceSkip(s, Fill(rest, tab, i), i, v);
      case Tok(n) =>
        if n < i {
          ReplaceSkip(tab[n].v, Fill(rest, tab, i), i, v);
        } else if n == i {
          ReplaceHead(i, Fill(rest, tab, i), v);
          FillStable(rest, tab, i);
        } else {
          ReplacePast(n, Fill(rest, tab, i), i, v);
        }
    }
  }

  lemma {:induction false} RestoreFromTemplate(ps: seq<Piece>, tab: Table, i: nat)
    requires WellFormed(tab) && CleanValues(tab) && Template(ps, tab) && i <= |tab|
    ensures RestoreFrom(Fill(ps, tab, i), tab, i) == Fill(ps, tab, |tab|)
    decreases |tab| - i
  {
    if i < |tab| {
      FillReplace(ps, tab, i);
      RestoreFromTemplate(ps, tab, i + 1);
    }
  }

  /** Once every entry is resolved, no `@` and hence no token is left. */
  lemma {:induction false} FillResolved(ps: seq<Piece>, tab: Table)
    requires CleanValues(tab) && Template(ps, tab)
    ensures '@' !in Fill(ps, tab, |tab|)
  {
    if ps != [] {
      TemplateTail(ps, tab);
      FillResolved(ps[1..], tab);
    }
  }

  /**
    The placeholder scheme: when the working text consists of `@`-free text and
    tokens of the table, each at most once, and no value contains `@`, the
    restoration loop puts every value exactly where its token stood, and no
    token remains.
  */
  lemma RestoreResolvesAll(ps: seq<Piece>, tab: Table)
    requires WellFormed(tab) && CleanValues(tab) && Template(ps, tab)
    ensures Restore(Fill(ps, tab, 0), tab) == Fill(ps, tab, |tab|)
    ensures '@' !in Restore(Fill(ps, tab, 0), tab)
  {
    RestoreFromTemplate(ps, tab, 0);
    FillResolved(ps, tab);
  }
}
