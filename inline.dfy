/**
  The inline rewriter as functions (test/md.js:404-619, 650-655): what each
  rewriting loop of `parseLink`, `parseImage`, `parseFormat` and
  `parseLinkInline` computes, and `parseOther`, which chains them and restores
  the placeholders.

  A pass computes its match list once, at its start, from the text it is
  given; then, for each match in turn, it either skips it (`continue`) or asks
  `getReplace` for a token for the rendered value and replaces the first
  occurrence of the matched text by that token. `getReplace` pushes its entry
  even when the text no longer occurs.
*/
module Inline {
  import opened Wrappers
  import opened JsString
  import opened Render
  import opened Placeholder
  import opened Scan

  /**
    The match lists of the regular expressions that are not scanned exactly
    (`text.match(REG_...)`, with the empty list for `null`): `REG_LINK_2`,
    `REG_IMAGE`, `REG_LINK_3` and `REG_LINK_4` (test/md.js:11-14).
  */
  datatype Patterns = Patterns(
    link2: string -> seq<string>,
    image: string -> seq<string>,
    link3: string -> seq<string>,
    link4: string -> seq<string>)

  /** What a rewriting loop does with one match: `continue`, or replace `find` by a token for `value`. */
  datatype Action = Skip | Sub(find: string, value: string)

  /** The five rewriting loops. */
  datatype Pass = AngleLink | BracketLink | Image | Format | BareLink

  // ---------------------------------------------------------------- one match

  /** A format match: its class from its first two characters, its text without the delimiters. */
  function FormatValue(r: Renderer, o: string): string {
    if CharAt(o, 0) == "*" then r.onFormat(if CharAt(o, 1) == "*" then "**" else "*", StripDelims(o, '*'))
    else r.onFormat(if CharAt(o, 1) == "_" then "__" else "_", StripDelims(o, '_'))
  }

  /** `parseFormat(text, true)` from the match list `ms` on: each match is replaced by its rendering directly. */
  function FormatDirectFrom(r: Renderer, ms: seq<string>, text: string): string {
    if ms == [] then text else FormatDirectFrom(r, ms[1..], Replace(text, ms[0], FormatValue(r, ms[0])))
  }

  /** `parseFormat(text, true)`, used for link labels: no placeholders. */
  function FormatDirect(r: Renderer, text: string): string {
    FormatDirectFrom(r, ScanFormat(text), text)
  }

  /** A `REG_LINK_1` match `<url>`: a link whose text is its address. */
  function AngleLinkAction(r: Renderer, o: string): Action {
    var url := Substring(o, 1, |o| - 1);
    Sub(o, r.onLink(url, url))
  }

  /** A `REG_LINK_2` match: `[text](url` (the closing parenthesis is not part of the match) or `[text]: url`. */
  function BracketLinkAction(r: Renderer, o: string): Action {
    if Substring(o, 0, 3) == "[![" then Skip
    else
      var index := IndexOf(o, ']');
      if index == -1 || CharAt(o, 0) == "!" then Skip
      else BracketLinkTarget(r, o, Trim(Substring(o, 1, index)), Trim(SubstringFrom(o, index + 1)))
  }

  /** After the label: `(` or `:` must follow, and `(` adds the closing parenthesis to the replaced text. */
  function BracketLinkTarget(r: Renderer, o: string, text: string, rest: string): Action {
    var first := CharAt(rest, 0);
    if first != "(" && first != ":" then Skip
    else LinkSub(r, if first == "(" then o + ")" else o, text, Trim(SubstringFrom(rest, 1)))
  }

  /** A trailing `,`, `.` or space leaves the address and follows the link. */
  function LinkSub(r: Renderer, find: string, text: string, url: string): Action {
    var last := CharAt(url, |url| - 1);
    var cut := last == "," || last == "." || last == " ";
    Sub(find, r.onLink(FormatDirect(r, text), if cut then Substring(url, 0, |url| - 1) else url)
              + (if cut then last else ""))
  }

  /** `parseInt(dimension[i] || '0', 10)`. */
  function DimensionArg(dimension: seq<string>, i: nat): string {
    if i < |dimension| && dimension[i] != "" then dimension[i] else "0"
  }

  /** A `REG_IMAGE` match: `![alt](src#WxH)`, optionally wrapped as a link `[![alt](src)](url)`. */
  function ImageAction(r: Renderer, o: string): Action {
    var begin := if Substring(o, 0, 3) == "[![" then 3 else 2;
    var index := IndexOf(o, ']');
    if index == -1 then Skip
    else ImageTarget(r, o, Substring(o, begin, index), SubstringFrom(o, index + 1))
  }

  /**
    The alternative text `alt` and what follows `]`, both trimmed: `(` must
    follow; the replaced text runs to the last `)`, and the address part is cut
    at that index of the match, applied to the part after `]`.
  */
  function ImageTarget(r: Renderer, o: string, alt: string, after: string): Action {
    var text := Trim(alt);
    var rest := Trim(after);
    if CharAt(rest, 0) != "(" then Skip
    else
      var close := LastIndexOf(o, ')');
      if close == -1 then Skip
      else
        var f := ImageFieldsOf(Substring(rest, 1, close + 1));
        Sub(Substring(o, 0, close + 1), r.onImage(text, f.src, f.width, f.height, f.href))
  }

  /** The four arguments `onImage` receives besides the alternative text. */
  datatype ImageFields = ImageFields(src: string, width: Option<int>, height: Option<int>, href: string)

  /** The arguments read from the address part `url` of an image match. */
  function ImageFieldsOf(url: string): ImageFields {
    var hash := IndexOf(url, '#');
    var end := IndexOfFrom(url, ')', hash);
    var dimension := ImageDimensions(url, hash, end);
    ImageFields(ImageSource(url, hash, end),
                ParseInt(DimensionArg(dimension, 0)), ParseInt(DimensionArg(dimension, 1)),
                ImageHref(url, hash, end))
  }

  /** The image address: up to `#` when there is one after the first character, otherwise up to `)`. */
  function ImageSource(url: string, hash: int, end: int): string {
    if hash > 0 then Substring(url, 0, hash) else Substring(url, 0, end)
  }

  /** The dimensions, `WxH` between `#` and `)`, split at `x`. */
  function ImageDimensions(url: string, hash: int, end: int): seq<string> {
    if hash > 0 then Split(Substring(url, hash + 1, end), 'x') else []
  }

  /** The link address: what lies between the next `(` after the address and the last `)`. */
  function ImageHref(url: string, hash: int, end: int): string {
    var paren := IndexOfFrom(url, '(', end);
    if paren != -1 && paren > hash then Substring(url, paren + 1, LastIndexOf(url, ')')) else ""
  }

  /** What pass `pass` does with the match `m`. */
  function Act(pass: Pass, r: Renderer, m: string): Action {
    match pass
    case AngleLink => AngleLinkAction(r, m)
    case BracketLink => BracketLinkAction(r, m)
    case Image => ImageAction(r, m)
    case Format => Sub(m, FormatValue(r, m))
    case BareLink => var o := Trim(m); Sub(o, r.onLink(o, o))
  }

  /** The number of matches the pass does not skip. */
  function SubCount(pass: Pass, r: Renderer, ms: seq<string>): nat {
    if ms == [] then 0 else (if Act(pass, r, ms[0]).Sub? then 1 else 0) + SubCount(pass, r, ms[1..])
  }

  // ---------------------------------------------------------------- the loops

  /**
    A rewriting loop over the matches `ms`, from working text `text` and table
    `tab`: the table only grows, by one well-keyed entry per match not skipped.
  */
  function Fold(pass: Pass, r: Renderer, ms: seq<string>, text: string, tab: Table): (res: (string, Table))
    ensures |res.1| == |tab| + SubCount(pass, r, ms)
    ensures res.1[..|tab|] == tab
    ensures WellFormed(tab) ==> WellFormed(res.1)
  {
    if ms == [] then (text, tab)
    else
      match Act(pass, r, ms[0])
      case Skip => Fold(pass, r, ms[1..], text, tab)
      case Sub(find, value) =>
        var (key, tab') := GetReplace(tab, value);
        var res := Fold(pass, r, ms[1..], Replace(text, find, key), tab');
        assert res.1[..|tab|] == res.1[..|tab'|][..|tab|];
        res
  }

  /** One iteration of a rewriting loop, at match `i`. */
  lemma FoldStep(pass: Pass, r: Renderer, ms: seq<string>, i: nat, text: string, tab: Table)
    requires i < |ms|
    ensures Act(pass, r, ms[i]).Skip? ==> Fold(pass, r, ms[i..], text, tab) == Fold(pass, r, ms[i + 1..], text, tab)
    ensures Act(pass, r, ms[i]).Sub? ==>
      var a := Act(pass, r, ms[i]);
      var (key, tab') := GetReplace(tab, a.value);
      Fold(pass, r, ms[i..], text, tab) == Fold(pass, r, ms[i + 1..], Replace(text, a.find, key), tab')
  {
    assert ms[i..][1..] == ms[i + 1..];
  }

  /** `parseLink`: the angle-bracket loop, then the bracket loop over the matches of the original text. */
  function ParseLink(r: Renderer, p: Patterns, text: string, tab: Table): (string, Table) {
    var (output, tab') := Fold(AngleLink, r, ScanLink1(text), text, tab);
    Fold(BracketLink, r, p.link2(text), output, tab')
  }

  function ParseImage(r: Renderer, p: Patterns, text: string, tab: Table): (string, Table) {
    Fold(Image, r, p.image(text), text, tab)
  }

  function ParseFormat(r: Renderer, text: string, tab: Table): (string, Table) {
    Fold(Format, r, ScanFormat(text), text, tab)
  }

  /** `parseLinkInline`: the `REG_LINK_4` matches are taken from the text the `REG_LINK_3` loop left. */
  function ParseLinkInline(r: Renderer, p: Patterns, text: string, tab: Table): (string, Table) {
    var (text', tab') := Fold(BareLink, r, p.link3(text), text, tab);
    Fold(BareLink, r, p.link4(text'), text', tab')
  }

  /** The working text after the four passes of `parseOther`, and the table they built. */
  function Passes(r: Renderer, p: Patterns, line: string): (res: (string, Table))
    ensures WellFormed(res.1)
  {
    var (l1, t1) := ParseLink(r, p, line, []);
    var (l2, t2) := ParseImage(r, p, l1, t1);
    var (l3, t3) := ParseFormat(r, l2, t2);
    ParseLinkInline(r, p, l3, t3)
  }

  /**
    `parseOther(line)`: the rewritten line, and the table it leaves in `tmp`,
    which starts empty and is keyed by position.
  */
  function ParseOther(r: Renderer, p: Patterns, line: string): (res: (string, Table))
    ensures WellFormed(res.1)
    ensures res.0 == Restore(Passes(r, p, line).0, res.1)
  {
    var (text, tab) := Passes(r, p, line);
    (Restore(text, tab), tab)
  }

  // ---------------------------------------------------------------- properties

  /**
    Tokens contain no bracket and no emphasis delimiter, so no later pass
    matches inside one, and `trim` keeps them whole.
  */
  lemma TokenInert(n: nat)
    ensures '<' !in Token(n) && '>' !in Token(n) && '*' !in Token(n) && '_' !in Token(n) && ']' !in Token(n)
    ensures Trimmed(Token(n))
  {
    var d := NatToString(n);
    assert Token(n) == "@##" + d + ";";
    forall j | 0 <= j < |d|
      ensures d[j] != '<' && d[j] != '>' && d[j] != '*' && d[j] != '_' && d[j] != ']'
    {
      assert IsDigit(d[j]);
    }
    assert Token(n)[|Token(n)| - 1] == ';';
  }

  /** The first occurrence of `o` in `x + o + y`, when `x` lacks `o`'s first character, becomes the token. */
  lemma SubstituteFirst(x: string, o: string, y: string, key: string)
    requires o != [] && o[0] !in x
    ensures Replace(x + o + y, o, key) == x + key + y
  {
    forall j | 0 <= j < |x|
      ensures !OccursAt(x + o + y, o, j)
    {
      OccursAtHead(x + o + y, o, j);
      assert (x + o + y)[j] == x[j];
    }
    ReplaceFirstOccurrence(x, o, y, key);
  }

  /** A loop over one match that is not skipped replaces it by the next token. */
  lemma FoldSingle(pass: Pass, r: Renderer, m: string, text: string, tab: Table)
    requires Act(pass, r, m).Sub?
    ensures var a := Act(pass, r, m);
      Fold(pass, r, [m], text, tab) == (Replace(text, a.find, Token(|tab|)), tab + [Entry(Token(|tab|), a.value)])
  {
    assert [m][1..] == [];
  }

  /** Restoring a single token between `@`-free text puts its value in its place. */
  lemma RestoreSingle(x: string, v: string, y: string)
    requires '@' !in x && '@' !in v && '@' !in y
    ensures Restore(x + Token(0) + y, [Entry(Token(0), v)]) == x + v + y
  {
    var tab := [Entry(Token(0), v)];
    var ps := [Lit(x), Tok(0), Lit(y)];
    assert Fill(ps[2..], tab, 0) == y;
    assert Fill(ps[1..], tab, 0) == Token(0) + y;
    assert Fill(ps, tab, 0) == x + Token(0) + y;
    assert Fill(ps[2..], tab, 1) == y;
    assert Fill(ps[1..], tab, 1) == v + y;
    assert Fill(ps, tab, 1) == x + v + y;
    RestoreResolvesAll(ps, tab);
  }

  /** Restoring a text that is one token gives its value. */
  lemma RestoreAlone(v: string)
    requires '@' !in v
    ensures Restore(Token(0), [Entry(Token(0), v)]) == v
  {
    RestoreSingle([], v, []);
    assert [] + Token(0) + [] == Token(0);
    assert [] + v + [] == v;
  }

  /** A line on which no pass finds a match: `parseOther` returns it unchanged and leaves the table empty. */
  lemma PlainTextUnchanged(r: Renderer, p: Patterns, line: string)
    requires ScanLink1(line) == [] && ScanFormat(line) == []
    requires p.link2(line) == [] && p.image(line) == [] && p.link3(line) == [] && p.link4(line) == []
    ensures ParseOther(r, p, line) == (line, [])
  {
    assert ParseLink(r, p, line, []) == (line, []);
    assert ParseImage(r, p, line, []) == (line, []);
    assert ParseFormat(r, line, []) == (line, []);
    assert ParseLinkInline(r, p, line, []) == (line, []);
  }

  /** Text without `<`, `*` and `_` gives `REG_LINK_1` and `REG_FORMAT` nothing to match. */
  lemma PlainTextScans(line: string)
    requires '<' !in line && '*' !in line && '_' !in line
    ensures ScanLink1(line) == [] && ScanFormat(line) == []
  {
    Link1None(line);
    FormatNone(line);
  }

  /**
    An address in angle brackets is rendered as a link to itself, in place,
    through exactly one table entry.
  */
  lemma AngleLinkRendered(r: Renderer, p: Patterns, x: string, u: string, y: string)
    requires p.link2(x + "<" + u + ">" + y) == []
    requires var l := x + Token(0) + y; p.image(l) == [] && p.link3(l) == [] && p.link4(l) == []
    requires '<' !in x && '*' !in x && '_' !in x && '@' !in x
    requires '<' !in y && '>' !in y && '*' !in y && '_' !in y && '@' !in y
    requires '>' !in u && forall j :: 0 <= j < |u| ==> !IsLineTerminator(u[j])
    requires '@' !in r.onLink(u, u)
    ensures ParseOther(r, p, x + "<" + u + ">" + y) == (x + r.onLink(u, u) + y, [Entry(Token(0), r.onLink(u, u))])
  {
    var o := "<" + u + ">";
    var line := x + o + y;
    assert line == x + "<" + u + ">" + y;
    var v := r.onLink(u, u);
    Link1Single(x, u, y);
    assert Substring(o, 1, |o| - 1) == u;
    assert Act(AngleLink, r, o) == Sub(o, v);
    SubstituteFirst(x, o, y, Token(0));
    var l1 := x + Token(0) + y;
    var tab := [Entry(Token(0), v)];
    FoldSingle(AngleLink, r, o, line, []);
    assert p.link2(line) == [];
    assert ParseLink(r, p, line, []) == (l1, tab);
    assert p.image(l1) == [] && p.link3(l1) == [] && p.link4(l1) == [];
    TokenInert(0);
    FormatNone(l1);
    assert Passes(r, p, line) == (l1, tab);
    RestoreSingle(x, v, y);
  }

  /** The class and text of an emphasis span of one or two delimiters on each side. */
  lemma FormatValueSpan(r: Renderer, c: char, n: nat, t: string)
    requires IsDelim(c) && 1 <= n <= 2
    requires t != [] && t[0] != c && t[|t| - 1] != c
    ensures FormatValue(r, Repeat(c, n) + t + Repeat(c, n)) == r.onFormat(Repeat(c, n), t)
  {
    var o := Repeat(c, n) + t + Repeat(c, n);
    assert o[0] == c;
    assert CharAt(o, 0) == [c];
    assert n == 1 ==> o[1] == t[0];
    assert n == 2 ==> o[1] == c;
    assert Repeat(c, 1) == [c];
    assert Repeat(c, 2) == [c, c];
    StripAround(c, n, t, n);
  }

  /** What the format pass does with an emphasis span of one or two delimiters on each side. */
  lemma FormatAct(r: Renderer, c: char, n: nat, t: string)
    requires IsDelim(c) && 1 <= n <= 2
    requires t != [] && '*' !in t && '_' !in t
    ensures var o := Repeat(c, n) + t + Repeat(c, n);
      Act(Format, r, o) == Sub(o, r.onFormat(Repeat(c, n), t))
  {
    assert t[0] in t && t[|t| - 1] in t;
    FormatValueSpan(r, c, n, t);
  }

  /** The format pass alone turns an emphasis span between plain text into the first token. */
  lemma FormatPass(r: Renderer, x: string, c: char, n: nat, t: string, y: string)
    requires IsDelim(c) && 1 <= n <= 2
    requires '*' !in x && '_' !in x && '*' !in y && '_' !in y
    requires t != [] && '*' !in t && '_' !in t
    requires forall j :: 0 <= j < |t| ==> !IsLineTerminator(t[j])
    ensures var o := Repeat(c, n) + t + Repeat(c, n);
      ParseFormat(r, x + o + y, []) == (x + Token(0) + y, [Entry(Token(0), r.onFormat(Repeat(c, n), t))])
  {
    var d := Repeat(c, n);
    var o := d + t + d;
    var line := x + o + y;
    assert ScanFormat(line) == [o] by {
      assert line == x + d + t + d + y;
      FormatSingle(x, c, n, t, y);
    }
    FormatAct(r, c, n, t);
    assert Replace(line, o, Token(0)) == x + Token(0) + y by {
      assert o[0] == c;
      SubstituteFirst(x, o, y, Token(0));
    }
    FoldSingle(Format, r, o, line, []);
  }

  /**
    An emphasis span is rendered in place by `onFormat`, with the class its
    delimiters give and the text between them, through exactly one table entry.
  */
  lemma FormatRendered(r: Renderer, p: Patterns, x: string, c: char, n: nat, t: string, y: string)
    requires var line := x + Repeat(c, n) + t + Repeat(c, n) + y; p.link2(line) == [] && p.image(line) == []
    requires var l := x + Token(0) + y; p.link3(l) == [] && p.link4(l) == []
    requires IsDelim(c) && 1 <= n <= 2
    requires '<' !in x && '*' !in x && '_' !in x && '@' !in x
    requires '<' !in y && '*' !in y && '_' !in y && '@' !in y
    requires t != [] && '<' !in t && '*' !in t && '_' !in t
    requires forall j :: 0 <= j < |t| ==> !IsLineTerminator(t[j])
    requires '@' !in r.onFormat(Repeat(c, n), t)
    ensures ParseOther(r, p, x + Repeat(c, n) + t + Repeat(c, n) + y)
      == (x + r.onFormat(Repeat(c, n), t) + y, [Entry(Token(0), r.onFormat(Repeat(c, n), t))])
  {
    var d := Repeat(c, n);
    var o := d + t + d;
    var line := x + o + y;
    assert line == x + d + t + d + y;
    var v := r.onFormat(d, t);
    assert '<' !in d;
    assert '<' !in line;
    Link1None(line);
    assert p.link2(line) == [] && p.image(line) == [];
    assert ParseLink(r, p, line, []) == (line, []);
    assert ParseImage(r, p, line, []) == (line, []);
    FormatPass(r, x, c, n, t, y);
    var l3 := x + Token(0) + y;
    var tab := [Entry(Token(0), v)];
    assert p.link3(l3) == [] && p.link4(l3) == [];
    assert Passes(r, p, line) == (l3, tab);
    RestoreSingle(x, v, y);
  }

  /**
    `parseLinkInline` where `REG_LINK_3` finds one address: the match, trimmed,
    is replaced by the next token for a link to itself, and `REG_LINK_4` is
    asked only about the text that replacement left.
  */
  lemma BareLinkFirstLoop(r: Renderer, p: Patterns, x: string, m: string, y: string, tab: Table)
    requires Trim(m) != [] && Trim(m)[0] !in x
    requires p.link3(x + Trim(m) + y) == [m]
    requires p.link4(x + Token(|tab|) + y) == []
    ensures var o := Trim(m);
      ParseLinkInline(r, p, x + o + y, tab) == (x + Token(|tab|) + y, tab + [Entry(Token(|tab|), r.onLink(o, o))])
  {
    var o := Trim(m);
    SubstituteFirst(x, o, y, Token(|tab|));
    FoldSingle(BareLink, r, m, x + o + y, tab);
  }

  /** `parseLinkInline` where only `REG_LINK_4` finds an address, as for a `www.` address. */
  lemma BareLinkSecondLoop(r: Renderer, p: Patterns, x: string, m: string, y: string, tab: Table)
    requires Trim(m) != [] && Trim(m)[0] !in x
    requires p.link3(x + Trim(m) + y) == []
    requires p.link4(x + Trim(m) + y) == [m]
    ensures var o := Trim(m);
      ParseLinkInline(r, p, x + o + y, tab) == (x + Token(|tab|) + y, tab + [Entry(Token(|tab|), r.onLink(o, o))])
  {
    var o := Trim(m);
    SubstituteFirst(x, o, y, Token(|tab|));
    FoldSingle(BareLink, r, m, x + o + y, tab);
  }

  /**
    A bare address that `REG_LINK_3` matches in an otherwise plain line is
    rendered in place as a link to itself, through exactly one table entry.
  */
  lemma BareLinkRendered(r: Renderer, p: Patterns, x: string, m: string, y: string)
    requires Trim(m) != [] && Trim(m)[0] !in x
    requires var line := x + Trim(m) + y;
      && ScanLink1(line) == [] && ScanFormat(line) == []
      && p.link2(line) == [] && p.image(line) == [] && p.link3(line) == [m]
    requires p.link4(x + Token(0) + y) == []
    requires '@' !in x && '@' !in y && '@' !in r.onLink(Trim(m), Trim(m))
    ensures var o := Trim(m);
      ParseOther(r, p, x + o + y) == (x + r.onLink(o, o) + y, [Entry(Token(0), r.onLink(o, o))])
  {
    var o := Trim(m);
    var line := x + o + y;
    assert ParseLink(r, p, line, []) == (line, []);
    assert ParseImage(r, p, line, []) == (line, []);
    assert ParseFormat(r, line, []) == (line, []);
    BareLinkFirstLoop(r, p, x, m, y, []);
    assert Passes(r, p, line) == (x + Token(0) + y, [Entry(Token(0), r.onLink(o, o))]);
    RestoreSingle(x, r.onLink(o, o), y);
  }

  /**
    A line that is only a `www.` address, which `REG_LINK_4` matches whole:
    with the default callbacks it becomes a link to itself behind `http://`.
  */
  lemma WwwLinkRendered(p: Patterns, o: string)
    requires o != [] && Trimmed(o) && "www." <= o
    requires ScanLink1(o) == [] && ScanFormat(o) == []
    requires p.link2(o) == [] && p.image(o) == [] && p.link3(o) == [] && p.link4(o) == [o]
    requires '@' !in o
    ensures ParseOther(Default(), p, o).0 == DefaultOnLink(o, o)
    ensures Href(o) == "http://" + o
  {
    var r := Default();
    var v := DefaultOnLink(o, o);
    WwwPasses(r, p, o);
    LinkWithoutAt(o, o);
    RestoreAlone(v);
    assert o[0] == 'w';
  }

  /** The passes over a line that only `REG_LINK_4` matches, whole. */
  lemma WwwPasses(r: Renderer, p: Patterns, o: string)
    requires o != [] && Trimmed(o)
    requires ScanLink1(o) == [] && ScanFormat(o) == []
    requires p.link2(o) == [] && p.image(o) == [] && p.link3(o) == [] && p.link4(o) == [o]
    ensures Passes(r, p, o) == (Token(0), [Entry(Token(0), r.onLink(o, o))])
  {
    assert ParseLink(r, p, o, []) == (o, []);
    assert ParseImage(r, p, o, []) == (o, []);
    assert ParseFormat(r, o, []) == (o, []);
    ReplaceWhole(o, Token(0));
    FoldSingle(BareLink, r, o, o, []);
  }

  // ---------------------------------------------------------------- a token that is never restored

  /** What follows the alternative text in `[![alt](b)](c)`. */
  function NestedImageTail(b: string, c: string): string {
    "](" + b + ")](" + c + ")"
  }

  /** The line `[![<u>](b)](c)`. */
  function NestedImageLine(u: string, b: string, c: string): string {
    "[![" + "<" + u + ">" + NestedImageTail(b, c)
  }

  /** What the link pass leaves of it: `[![@##0;](b)](c)`. */
  function NestedImageInner(b: string, c: string): string {
    "[![" + Token(0) + NestedImageTail(b, c)
  }

  /** The angle-link loop over `x<u>y`, for `x` and `y` without brackets: the address becomes the next token. */
  lemma AngleLinkPass(r: Renderer, x: string, u: string, y: string, tab: Table)
    requires '<' !in x && '<' !in y && '>' !in u && '>' !in y
    requires forall k :: 0 <= k < |u| ==> !IsLineTerminator(u[k])
    ensures var line := x + "<" + u + ">" + y;
      Fold(AngleLink, r, ScanLink1(line), line, tab) == (x + Token(|tab|) + y, tab + [Entry(Token(|tab|), r.onLink(u, u))])
  {
    var o := "<" + u + ">";
    var line := x + o + y;
    assert line == x + "<" + u + ">" + y;
    Link1Single(x, u, y);
    assert Substring(o, 1, |o| - 1) == u;
    SubstituteFirst(x, o, y, Token(|tab|));
    FoldSingle(AngleLink, r, o, line, tab);
  }

  /**
    The link pass over `[![<u>` + `y`: the angle link becomes the next token,
    and the bracket-link loop skips its one match, which starts with `[![`.
  */
  lemma NestedLinkPass(r: Renderer, p: Patterns, u: string, y: string, rest: string, tab: Table)
    requires '>' !in u && '<' !in y && '>' !in y
    requires forall k :: 0 <= k < |u| ==> !IsLineTerminator(u[k])
    requires p.link2("[![" + "<" + u + ">" + y) == ["[![" + rest]
    ensures ParseLink(r, p, "[![" + "<" + u + ">" + y, tab)
         == ("[![" + Token(|tab|) + y, tab + [Entry(Token(|tab|), r.onLink(u, u))])
  {
    AngleLinkPass(r, "[![", u, y, tab);
    NestedBracketSkipped(r, "[![", rest, "[![" + Token(|tab|) + y, tab + [Entry(Token(|tab|), r.onLink(u, u))]);
  }

  /** The bracket-link loop skips a match that starts with `[![`. */
  lemma NestedBracketSkipped(r: Renderer, lead: string, rest: string, text: string, tab: Table)
    requires lead == "[!["
    ensures Fold(BracketLink, r, [lead + rest], text, tab) == (text, tab)
  {
    var m := lead + rest;
    assert Substring(m, 0, 3) == lead;
    assert [m][1..] == [];
  }

  /** The image pass over a linked image `[![t](b)](c)` alone: the whole text becomes the next token. */
  lemma LinkedImagePass(r: Renderer, p: Patterns, t: string, b: string, c: string, tab: Table)
    requires Trimmed(t) && ']' !in t
    requires ')' !in b && '#' !in b && '#' !in c
    requires var l := "[![" + t + NestedImageTail(b, c); p.image(l) == [l]
    ensures ParseImage(r, p, "[![" + t + NestedImageTail(b, c), tab)
         == (Token(|tab|), tab + [Entry(Token(|tab|), r.onImage(t, b, Some(0), Some(0), c))])
  {
    var l := "[![" + t + NestedImageTail(b, c);
    var v := r.onImage(t, b, Some(0), Some(0), c);
    assert Act(Image, r, l) == Sub(l, v) by {
      assert l == "[![" + t + "](" + (b + ")](" + c + ")");
      ImageMatch(r, "[![", t, b + ")](" + c + ")");
      LinkedImageUrl(b, c);
    }
    ReplaceWhole(l, Token(|tab|));
    FoldSingle(Image, r, l, l, tab);
  }

  /** Restoring `@##1;` through a table whose entry 1 holds `v`: entry 0 finds nothing, entry 1 gives `v`. */
  lemma RestoreSecondOnly(e0: Entry, v: string)
    requires e0.k == Token(0)
    ensures Restore(Token(1), [e0, Entry(Token(1), v)]) == v
  {
    var tab := [e0, Entry(Token(1), v)];
    TokensApart(0, 1);
    ReplaceAbsent(Token(1), Token(0), e0.v);
    ReplaceWhole(Token(1), v);
    assert RestoreFrom(Token(1), tab, 0) == RestoreFrom(Token(1), tab, 1);
    assert RestoreFrom(Token(1), tab, 1) == RestoreFrom(v, tab, 2);
  }

  /**
    `[![<u>](b)](c)`: the angle-link pass puts `@##0;` inside the image's
    alternative text; the bracket-link pass skips its `[![` match, and the image
    pass then stores a value built from `@##0;` in entry 1. Restoration in table
    order handles entry 0 while `@##0;` is not yet in the text, so the image's
    callback receives the token itself, never its link.
  */
  lemma NestedImageKeepsToken(r: Renderer, p: Patterns, u: string, b: string, c: string)
    requires '>' !in u && '<' !in b && '>' !in b && '<' !in c && '>' !in c
    requires forall k :: 0 <= k < |u| ==> !IsLineTerminator(u[k])
    requires ')' !in b && '#' !in b && '#' !in c
    requires p.link2(NestedImageLine(u, b, c)) == ["[![" + ("<" + u + ">](" + b)]
    requires p.image(NestedImageInner(b, c)) == [NestedImageInner(b, c)]
    requires p.link3(Token(1)) == [] && p.link4(Token(1)) == []
    ensures ParseOther(r, p, NestedImageLine(u, b, c)).0 == r.onImage(Token(0), b, Some(0), Some(0), c)
  {
    var t1 := [Entry(Token(0), r.onLink(u, u))];
    var v := r.onImage(Token(0), b, Some(0), Some(0), c);
    var t2 := t1 + [Entry(Token(1), v)];
    var line := NestedImageLine(u, b, c);
    NestedLinkPass(r, p, u, NestedImageTail(b, c), "<" + u + ">](" + b, []);
    TokenInert(0);
    LinkedImagePass(r, p, Token(0), b, c, t1);
    TokenInert(1);
    FormatNone(Token(1));
    assert ParseFormat(r, Token(1), t2) == (Token(1), t2);
    assert ParseLinkInline(r, p, Token(1), t2) == (Token(1), t2);
    assert Passes(r, p, line) == (Token(1), t2);
    RestoreSecondOnly(t1[0], v);
    assert t2 == [t1[0], Entry(Token(1), v)];
    assert ParseOther(r, p, line).0 == Restore(Token(1), t2);
  }

  /** With the default callbacks the result of `[![<u>](b)](c)` still holds the token `@##0;`. */
  lemma NestedImageLeaksToken(p: Patterns, u: string, b: string, c: string)
    requires '>' !in u && '<' !in b && '>' !in b && '<' !in c && '>' !in c
    requires forall k :: 0 <= k < |u| ==> !IsLineTerminator(u[k])
    requires ')' !in b && '#' !in b && '#' !in c
    requires p.link2(NestedImageLine(u, b, c)) == ["[![" + ("<" + u + ">](" + b)]
    requires p.image(NestedImageInner(b, c)) == [NestedImageInner(b, c)]
    requires p.link3(Token(1)) == [] && p.link4(Token(1)) == []
    ensures Contains(ParseOther(Default(), p, NestedImageLine(u, b, c)).0, Token(0))
  {
    NestedImageKeepsToken(Default(), p, u, b, c);
    ImageShowsAlt(Token(0), b, Some(0), Some(0), c);
  }

  // ---------------------------------------------------------------- slicing of bracket links and images

  /** The label of `[caption]` + `rest` and what follows it. */
  lemma BracketLinkSplit(r: Renderer, caption: string, rest: string)
    requires caption != [] && caption[0] != '!' && ']' !in caption
    ensures var o := "[" + caption + "]" + rest;
      BracketLinkAction(r, o) == BracketLinkTarget(r, o, Trim(caption), Trim(rest))
  {
    var o := "[" + caption + "]" + rest;
    assert Substring(o, 0, 3) != "[![" by {
      assert Substring(o, 0, 3)[1] == o[1] == caption[0];
    }
    assert IndexOf(o, ']') == 1 + |caption| by {
      assert o == ("[" + caption) + [']'] + rest;
      IndexOfAfter("[" + caption, ']', rest);
    }
    assert CharAt(o, 0) == "[";
    BracketLinkAt(r, o, 1 + |caption|);
    assert Substring(o, 1, 1 + |caption|) == caption;
    assert SubstringFrom(o, 2 + |caption|) == rest;
  }

  /** `BracketLinkAction` once the index of `]` is known and no skip applies. */
  lemma BracketLinkAt(r: Renderer, o: string, index: int)
    requires Substring(o, 0, 3) != "[![" && CharAt(o, 0) != "!"
    requires IndexOf(o, ']') == index && index != -1
    ensures BracketLinkAction(r, o) == BracketLinkTarget(r, o, Trim(Substring(o, 1, index)), Trim(SubstringFrom(o, index + 1)))
  {
    var text := Trim(Substring(o, 1, index));
    assert text == Trim(Substring(o, 1, index));
  }

  /** The address after the label: a trailing comma or full stop moves after the link. */
  lemma LinkSubTrimmed(r: Renderer, find: string, text: string, url: string)
    requires url != [] && Trimmed(url)
    ensures var last := url[|url| - 1];
      var cut := last == ',' || last == '.';
      LinkSub(r, find, text, url)
        == Sub(find, r.onLink(FormatDirect(r, text), if cut then url[..|url| - 1] else url) + (if cut then [last] else ""))
  {
    assert CharAt(url, |url| - 1) == [url[|url| - 1]];
    assert url[|url| - 1] != ' ';
  }

  /** An address without trailing punctuation is kept whole. */
  lemma LinkSubPlain(r: Renderer, find: string, text: string, url: string)
    requires url != [] && Trimmed(url) && url[|url| - 1] != ',' && url[|url| - 1] != '.'
    ensures LinkSub(r, find, text, url) == Sub(find, r.onLink(FormatDirect(r, text), url))
  {
    assert CharAt(url, |url| - 1) == [url[|url| - 1]];
    assert url[|url| - 1] != ' ';
  }

  /** `(url` after the label: the replaced text gains the closing parenthesis. */
  lemma BracketLinkTargetParen(r: Renderer, o: string, text: string, url: string)
    requires url != [] && Trimmed(url)
    ensures BracketLinkTarget(r, o, text, Trim("(" + url)) == LinkSub(r, o + ")", text, url)
  {
    var rest := "(" + url;
    assert Trimmed(rest);
    assert CharAt(rest, 0) == "(";
    assert SubstringFrom(rest, 1) == url;
  }

  /** `:` and white space after the label: the replaced text is the match itself. */
  lemma BracketLinkTargetColon(r: Renderer, o: string, text: string, sp: string, url: string)
    requires AllSpace(sp) && url != [] && Trimmed(url)
    ensures BracketLinkTarget(r, o, text, Trim(":" + sp + url)) == LinkSub(r, o, text, url)
  {
    var rest := ":" + sp + url;
    assert Trimmed(rest);
    assert CharAt(rest, 0) == ":";
    assert SubstringFrom(rest, 1) == sp + url;
    assert sp + url + "" == sp + url;
    TrimAround(sp, url, "");
  }

  /**
    `[caption](url`: the caption is formatted directly, the closing parenthesis
    joins the replaced text, and a trailing comma or full stop is moved out of
    the address to after the link.
  */
  lemma BracketLinkParen(r: Renderer, caption: string, url: string)
    requires caption != [] && caption[0] != '!' && ']' !in caption
    requires url != [] && Trimmed(url)
    ensures var last := url[|url| - 1];
      var cut := last == ',' || last == '.';
      BracketLinkAction(r, "[" + caption + "](" + url)
        == Sub("[" + caption + "](" + url + ")",
               r.onLink(FormatDirect(r, Trim(caption)), if cut then url[..|url| - 1] else url) + (if cut then [last] else ""))
  {
    var o := "[" + caption + "](" + url;
    assert o == "[" + caption + "]" + ("(" + url);
    BracketLinkSplit(r, caption, "(" + url);
    BracketLinkTargetParen(r, o, Trim(caption), url);
    LinkSubTrimmed(r, o + ")", Trim(caption), url);
  }

  /** `[caption]: url`: the matched text itself is replaced and the address is taken after the white space. */
  lemma BracketLinkColon(r: Renderer, caption: string, sp: string, url: string)
    requires caption != [] && caption[0] != '!' && ']' !in caption
    requires AllSpace(sp) && url != [] && Trimmed(url) && url[|url| - 1] != ',' && url[|url| - 1] != '.'
    ensures BracketLinkAction(r, "[" + caption + "]:" + sp + url)
      == Sub("[" + caption + "]:" + sp + url, r.onLink(FormatDirect(r, Trim(caption)), url))
  {
    var o := "[" + caption + "]:" + sp + url;
    assert o == "[" + caption + "]" + (":" + sp + url);
    BracketLinkSplit(r, caption, ":" + sp + url);
    BracketLinkTargetColon(r, o, Trim(caption), sp, url);
    LinkSubPlain(r, o, Trim(caption), url);
  }

  /** The image part of a match that ends at its last `)`. */
  lemma ImageTargetParts(r: Renderer, o: string, alt: string, url: string)
    requires o != [] && o[|o| - 1] == ')' && |url| + 1 <= |o|
    requires url != [] && url[|url| - 1] == ')'
    ensures ImageTarget(r, o, alt, "(" + url) ==
      var f := ImageFieldsOf(url);
      Sub(o, r.onImage(Trim(alt), f.src, f.width, f.height, f.href))
  {
    TrimParen(url);
    var rest := "(" + url;
    assert CharAt(rest, 0) == "(";
    assert LastIndexOf(o, ')') == |o| - 1;
    assert ImageTarget(r, o, alt, rest)
        == var f := ImageFieldsOf(Substring(rest, 1, |o|)); Sub(Substring(o, 0, |o|), r.onImage(Trim(alt), f.src, f.width, f.height, f.href));
    assert Substring(o, 0, |o|) == o;
    assert Substring(rest, 1, |o|) == url;
  }

  /** A parenthesised part keeps its parentheses under `trim`. */
  lemma TrimParen(url: string)
    requires url != [] && url[|url| - 1] == ')'
    ensures Trim("(" + url) == "(" + url
  {
    assert Trimmed("(" + url);
  }

  /** The alternative text of `lead alt](url` and what follows its `]`. */
  lemma ImageOpen(r: Renderer, lead: string, alt: string, url: string)
    requires lead == "![" || lead == "[!["
    requires ']' !in alt
    ensures var o := lead + alt + "](" + url;
      ImageAction(r, o) == ImageTarget(r, o, alt, "(" + url)
  {
    var o := lead + alt + "](" + url;
    var index := |lead| + |alt|;
    assert IndexOf(o, ']') == index by {
      assert o == (lead + alt) + [']'] + ("(" + url);
      assert ']' !in lead + alt;
      IndexOfAfter(lead + alt, ']', "(" + url);
    }
    var begin := |lead|;
    if lead == "![" {
      assert Substring(o, 0, 3)[0] == o[0] == '!';
    } else {
      assert Substring(o, 0, 3) == "[![";
    }
    assert Substring(o, begin, index) == alt;
    assert SubstringFrom(o, index + 1) == "(" + url;
    ImageActionAt(r, o, begin, index);
  }

  /** `ImageAction` once the start of the alternative text and the index of `]` are known. */
  lemma ImageActionAt(r: Renderer, o: string, begin: int, index: int)
    requires Substring(o, 0, 3) == "[![" ==> begin == 3
    requires Substring(o, 0, 3) != "[![" ==> begin == 2
    requires IndexOf(o, ']') == index && index != -1
    ensures ImageAction(r, o) == ImageTarget(r, o, Substring(o, begin, index), SubstringFrom(o, index + 1))
  {
    var b := if Substring(o, 0, 3) == "[![" then 3 else 2;
    assert b == begin;
  }

  /** An image match `lead alt](url`, with `url` ending at the closing `)`, carries the fields of `url`. */
  lemma ImageMatch(r: Renderer, lead: string, alt: string, url: string)
    requires lead == "![" || lead == "[!["
    requires ']' !in alt && url != [] && url[|url| - 1] == ')'
    ensures var o := lead + alt + "](" + url;
      var f := ImageFieldsOf(url);
      ImageAction(r, o) == Sub(o, r.onImage(Trim(alt), f.src, f.width, f.height, f.href))
  {
    var o := lead + alt + "](" + url;
    assert o != [] && o[|o| - 1] == ')' && |url| + 1 <= |o|;
    ImageTargetParts(r, o, alt, url);
    ImageOpen(r, lead, alt, url);
  }

  /** A missing dimension reads as `0`. */
  lemma NoDimensions()
    ensures ParseInt(DimensionArg([], 0)) == Some(0) && ParseInt(DimensionArg([], 1)) == Some(0)
  {
    ParseIntNatToString(0);
    assert NatToString(0) == "0";
  }

  /** The address part `src)` of an image without dimensions or link. */
  lemma PlainImageUrl(src: string)
    requires ')' !in src && '#' !in src
    ensures ImageFieldsOf(src + ")") == ImageFields(src, Some(0), Some(0), "")
  {
    var url := src + ")";
    assert url == src + [')'] + "";
    IndexOfFromAfter(src, ')', "", 0);
    IndexOfFromNone(url, '(', |src|);
    NoDimensions();
  }

  /** `![alt](src)`: an image without dimensions and without a link address. */
  lemma ImagePlain(r: Renderer, alt: string, src: string)
    requires ']' !in alt && ')' !in src && '#' !in src
    ensures var o := "![" + alt + "](" + (src + ")");
      ImageAction(r, o) == Sub(o, r.onImage(Trim(alt), src, Some(0), Some(0), ""))
  {
    ImageMatch(r, "![", alt, src + ")");
    PlainImageUrl(src);
  }

  /** The address part `src#WxH)` of an image with dimensions. */
  lemma SizedImageUrl(src: string, w: nat, h: nat)
    requires ')' !in src && '#' !in src && src != []
    ensures ImageFieldsOf(src + "#" + NatToString(w) + "x" + NatToString(h) + ")")
         == ImageFields(src, Some(w), Some(h), "")
  {
    var dw, dh := NatToString(w), NatToString(h);
    assert ')' !in dw && ')' !in dh && 'x' !in dw && 'x' !in dh by {
      assert forall k :: 0 <= k < |dw| ==> IsDigit(dw[k]);
      assert forall k :: 0 <= k < |dh| ==> IsDigit(dh[k]);
    }
    SizedImageIndices(src, dw, dh);
    SizedImageDimensions(src, dw, dh);
    assert DimensionArg([dw, dh], 0) == dw && DimensionArg([dw, dh], 1) == dh;
    ParseIntNatToString(w);
    ParseIntNatToString(h);
  }

  /** Where `#` and the closing `)` lie in `src#WxH)`, and that no `(` follows. */
  lemma SizedImageIndices(src: string, dw: string, dh: string)
    requires ')' !in src && '#' !in src && src != []
    requires ')' !in dw && ')' !in dh
    ensures var url := src + "#" + dw + "x" + dh + ")";
      && IndexOf(url, '#') == |src|
      && IndexOfFrom(url, ')', |src|) == |url| - 1
      && IndexOfFrom(url, '(', |url| - 1) == -1
  {
    var dims := dw + "x" + dh;
    var url := src + "#" + dw + "x" + dh + ")";
    assert url == src + ['#'] + (dims + ")");
    IndexOfAfter(src, '#', dims + ")");
    assert url == (src + "#" + dims) + [')'] + "";
    assert (src + "#" + dims)[|src|..] == "#" + dims;
    IndexOfFromAfter(src + "#" + dims, ')', "", |src|);
    IndexOfFromNone(url, '(', |url| - 1);
  }

  /** The fields of `src#WxH)` once the indices are known. */
  lemma SizedImageDimensions(src: string, dw: string, dh: string)
    requires ')' !in src && '#' !in src && src != []
    requires ')' !in dw && ')' !in dh && 'x' !in dw && 'x' !in dh
    ensures var url := src + "#" + dw + "x" + dh + ")";
      && ImageSource(url, |src|, |url| - 1) == src
      && ImageDimensions(url, |src|, |url| - 1) == [dw, dh]
  {
    var dims := dw + "x" + dh;
    var url := src + "#" + dw + "x" + dh + ")";
    assert Substring(url, |src| + 1, |url| - 1) == dims;
    assert dims == JoinWith([dw, dh], "x");
    SplitJoin([dw, dh], 'x');
  }

  /** `![alt](src#WxH)`: the numbers after `#` become the width and the height. */
  lemma ImageSized(r: Renderer, alt: string, src: string, w: nat, h: nat)
    requires ']' !in alt && ')' !in src && '#' !in src && src != []
    ensures var o := "![" + alt + "](" + (src + "#" + NatToString(w) + "x" + NatToString(h) + ")");
      ImageAction(r, o) == Sub(o, r.onImage(Trim(alt), src, Some(w), Some(h), ""))
  {
    ImageMatch(r, "![", alt, src + "#" + NatToString(w) + "x" + NatToString(h) + ")");
    SizedImageUrl(src, w, h);
  }

  /** The address part `src)](href)` of a linked image. */
  lemma LinkedImageUrl(src: string, href: string)
    requires ')' !in src && '#' !in src && '#' !in href
    ensures ImageFieldsOf(src + ")](" + href + ")") == ImageFields(src, Some(0), Some(0), href)
  {
    var url := src + ")](" + href + ")";
    assert '#' !in url;
    assert url == src + [')'] + ("](" + href + ")");
    IndexOfFromAfter(src, ')', "](" + href + ")", 0);
    assert url == (src + ")]") + ['('] + (href + ")");
    assert (src + ")]")[|src|..] == ")]";
    IndexOfFromAfter(src + ")]", '(', href + ")", |src|);
    assert LastIndexOf(url, ')') == |url| - 1;
    assert Substring(url, |src| + 3, |url| - 1) == href;
    NoDimensions();
  }

  /** `[![alt](src)](href)`: an image wrapped in a link, whose address is taken from the outer parentheses. */
  lemma ImageLinked(r: Renderer, alt: string, src: string, href: string)
    requires ']' !in alt && ')' !in src && '#' !in src && '#' !in href
    ensures var o := "[![" + alt + "](" + (src + ")](" + href + ")");
      ImageAction(r, o) == Sub(o, r.onImage(Trim(alt), src, Some(0), Some(0), href))
  {
    ImageMatch(r, "[![", alt, src + ")](" + href + ")");
    LinkedImageUrl(src, href);
  }
}
