/**
  The block state machine of the `Markdown` object (test/md.js:154-402,
  657-693) as functions on its state: `load` runs every line through `Step`,
  which gives the line to the first detector that claims it, in the order
  embedded block, break, list, key-value, paragraph, title, and otherwise
  renders it as a plain line.

  The machine is parametric in the inline rewriter `parseOther`, which it only
  calls: a `Config` carries it as the arrow `rewrite`, returning the rewritten
  text and the placeholder table the call leaves in `tmp`.
*/
module Blocks {
  import opened Wrappers
  import opened JsString
  import opened Render
  import opened Placeholder

  /** `EMPTY`, `PARAGRAPH`, `EMBEDDED`, `LIST`, `KEYVALUE`. */
  datatype Status = Empty | Paragraph | Embedded | List | KeyValue

  /** An element of `current`: a line of text, a list item or a key-value entry. */
  datatype Item = Text(line: string) | ListEntry(bullet: Bullet) | PairEntry(pair: Pair)

  /** The fields of the object that `load` and the detectors update. */
  datatype State = State(status: Status, command: string, current: seq<Item>, skip: bool, output: string, tmp: Table)

  /** The fence of embedded blocks (`embedded`), the callbacks, and `parseOther`. */
  datatype Config = Config(fence: string, r: Renderer, rewrite: string -> (string, Table))

  /** The state the constructor sets up. */
  function Initial(): State {
    State(Empty, "", [], false, "", [])
  }

  // ---------------------------------------------------------------- the buffered block

  /** The text lines of `current`, as `onEmbedded` and `onParagraph` receive it. */
  function Texts(items: seq<Item>): (r: seq<string>)
    ensures |r| == |items|
  {
    seq(|items|, i requires 0 <= i < |items| => if items[i].Text? then items[i].line else "")
  }

  /** The list items of `current`, as `onList` receives it. */
  function Bullets(items: seq<Item>): (r: seq<Bullet>)
    ensures |r| == |items|
  {
    seq(|items|, i requires 0 <= i < |items| => if items[i].ListEntry? then items[i].bullet else Bullet("", ""))
  }

  /** The key-value entries of `current`, as `onKeyValue` receives it. */
  function Pairs(items: seq<Item>): (r: seq<Pair>)
    ensures |r| == |items|
  {
    seq(|items|, i requires 0 <= i < |items| => if items[i].PairEntry? then items[i].pair else Pair("", ""))
  }

  /** The kind of element a block of each status buffers. */
  predicate Fits(status: Status, item: Item) {
    match status
    case Empty => true
    case Paragraph => item.Text?
    case Embedded => item.Text?
    case List => item.ListEntry?
    case KeyValue => item.PairEntry?
  }

  /**
    The invariant of the state: every buffered element is of the kind the
    status expects, and outside a block nothing is buffered and there is no
    command.
  */
  predicate Valid(s: State) {
    && (forall i :: 0 <= i < |s.current| ==> Fits(s.status, s.current[i]))
    && (s.status == Empty ==> s.current == [] && s.command == "")
  }

  // ---------------------------------------------------------------- flush

  /** What `flush` appends: the callback of the status on the buffered block, if it is set. */
  function Emit(c: Config, s: State): string {
    match s.status
    case Embedded => if c.r.onEmbedded.Some? then c.r.onEmbedded.value(s.command, Texts(s.current)) else ""
    case List => if c.r.onList.Some? then c.r.onList.value(Bullets(s.current)) else ""
    case KeyValue => if c.r.onKeyValue.Some? then c.r.onKeyValue.value(Pairs(s.current)) else ""
    case Paragraph => if c.r.onParagraph.Some? then c.r.onParagraph.value(s.command, Texts(s.current)) else ""
    case Empty => ""
  }

  /** `flush`: renders the buffered block and empties the buffer and the command; the status stays. */
  function Flush(c: Config, s: State): State {
    s.(output := s.output + Emit(c, s), current := [], command := "")
  }

  // ---------------------------------------------------------------- the detectors

  /**
    `parseEmbedded`: outside an embedded block, a line starting with the fence
    and a space opens one whose command is the rest of the line; inside, a line
    starting with the fence closes it and every other line is kept verbatim.
  */
  function EmbeddedLine(c: Config, s: State, line: string): Option<State> {
    var chars := c.fence + (if s.status != Embedded then " " else "");
    var has := Substring(line, 0, |chars|) == chars;
    if s.status != Embedded && !has then None
    else if s.status != Embedded then
      Some(Flush(c, s).(status := Embedded, command := SubstringFrom(line, |chars|)))
    else if has then Some(Flush(c, s).(status := Empty))
    else Some(s.(current := s.current + [Text(line)]))
  }

  /** `parseBreak`: an empty line, `***` or `---` closes the block and renders a break. */
  function BreakLine(c: Config, s: State, line: string): Option<State> {
    if line == "" || line == "***" || line == "---" then
      var f := (if s.status != Empty then Flush(c, s) else s).(status := Empty);
      var rule := if c.r.onBreak.Some? then c.r.onBreak.value(if line == "" then "\n" else line) else "";
      Some(f.(output := f.output + rule))
    else None
  }

  /** `parseList`: `-`, `+` or `x` and a space start a list item whose text begins at index 3. */
  function ListLine(c: Config, s: State, line: string): Option<State> {
    var first := CharAt(line, 0);
    var second := CharAt(line, 1);
    if !((first == "-" || first == "+" || first == "x") && second == " ") then None
    else
      var f := if s.status != List then Flush(c, s).(status := List) else s;
      var (value, tab) := c.rewrite(SubstringFrom(line, 3));
      Some(f.(current := f.current + [ListEntry(Bullet(first, value))], tmp := tab))
  }

  /**
    The condition the counting loop of `parseKeyValue` computes on the text
    before the first `:`: it holds a tab, or three spaces in a row.
  */
  predicate Indented(key: string) {
    || '\t' in key
    || exists i :: 0 <= i < |key| - 2 && key[i] == ' ' && key[i + 1] == ' ' && key[i + 2] == ' '
  }

  /** `parseKeyValue`: an indented key before the first `:`; key and value are trimmed and rewritten. */
  function KeyValueLine(c: Config, s: State, line: string): Option<State> {
    var index := IndexOf(line, ':');
    if index == -1 then None
    else
      var key := Substring(line, 0, index);
      if !Indented(key) then None
      else
        var f := if s.status != KeyValue then Flush(c, s).(status := KeyValue) else s;
        var (k, _) := c.rewrite(Trim(key));
        var (v, tab) := c.rewrite(Trim(SubstringFrom(line, index + 1)));
        Some(f.(current := f.current + [PairEntry(Pair(k, v))], tmp := tab))
  }

  /**
    `parseParagraph`: `>` or `|` and a space. A different command inside a
    paragraph renders the paragraph so far; entering a paragraph from another
    status flushes, which clears the command just set. The `//` case of the
    source only compares (`has == ...`) and never claims a line.
  */
  function ParagraphLine(c: Config, s: State, line: string): Option<State> {
    var first := CharAt(line, 0);
    var second := CharAt(line, 1);
    var has := (first == ">" || first == "|") && second == " ";
    if !has then None
    else
      var command := first + (if first == "/" then "/" else "");
      var s1 := if s.command != "" && s.command != command && s.status == Paragraph then Flush(c, s) else s;
      var s2 := s1.(command := command);
      var s3 := if s.status != Paragraph then Flush(c, s2).(status := Paragraph) else s2;
      var (value, tab) := c.rewrite(Trim(SubstringFrom(line, 1)));
      Some(s3.(current := s3.current + [Text(value)], tmp := tab))
  }

  /**
    `parseTitle(line, next)`, for a non-empty line (the source reads
    `line[0].charCodeAt(0)`, which throws on an empty line; `load` never gets
    there with one). `#...` up to the first space is a heading marker; a line
    whose first character code exceeds 64, followed by a line of the same
    length starting with `=` or `-`, is a heading of level one or two and makes
    `load` skip that next line.
  */
  function TitleLine(c: Config, s: State, line: string, next: string): Option<State>
    requires line != ""
  {
    if line[0] != '#' then
      var first := CharAt(next, 0);
      if !(line[0] as int > 64 && (first == "=" || first == "-") && |line| == |next|) then None
      else Some(Heading(c, s.(skip := true), if first == "=" then "#" else "##", line))
    else
      var index := IndexOf(line, ' ');
      if index == -1 then None
      else Some(Heading(c, s, Trim(Substring(line, 0, index)), line))
  }

  /** The end of `parseTitle`: flush an open block (its status stays) and render the heading. */
  function Heading(c: Config, s: State, kind: string, line: string): State {
    var f := if s.status != Empty then Flush(c, s) else s;
    if c.r.onTitle.None? then f
    else
      var (text, tab) := c.rewrite(if f.skip then line else SubstringFrom(line, |kind| + 1));
      f.(output := f.output + c.r.onTitle.value(kind, text), tmp := tab)
  }

  /** A line no detector claims: `onLine` of the rewritten line, when `onLine` is set. */
  function PlainLine(c: Config, s: State, line: string): State {
    if c.r.onLine.None? then s
    else
      var (text, tab) := c.rewrite(line);
      s.(output := s.output + c.r.onLine.value(text), tmp := tab)
  }

  // ---------------------------------------------------------------- load

  /** One iteration of the loop of `load`, with `next` the following line (`""` after the last). */
  function Step(c: Config, s: State, line: string, next: string): State {
    if s.skip then s.(skip := false)
    else
      match EmbeddedLine(c, s, line)
      case Some(t) => t
      case None =>
        match BreakLine(c, s, line)
        case Some(t) => t
        case None =>
          match ListLine(c, s, line)
          case Some(t) => t
          case None =>
            match KeyValueLine(c, s, line)
            case Some(t) => t
            case None =>
              match ParagraphLine(c, s, line)
              case Some(t) => t
              case None =>
                match TitleLine(c, s, line, next)
                case Some(t) => t
                case None => PlainLine(c, s, line)
  }

  /**
    `arr[i + 1]`; past the end it is `undefined`, which `parseTitle` reads as
    `''` (`(next || '')[0] || ''` is then empty, so `next.length` is not reached).
  */
  function NextLine(lines: seq<string>, i: nat): string {
    if i + 1 < |lines| then lines[i + 1] else ""
  }

  /** The state after the iterations of the loop of `load` over `lines[lo..hi]`, starting in `s`. */
  function Run(c: Config, s: State, lines: seq<string>, lo: nat, hi: nat): State
    requires lo <= hi <= |lines|
    decreases hi, 1
  {
    if hi == lo then s else After(c, s, lines, lo, hi)
  }

  /** The state after the iteration that handles `lines[hi - 1]`. */
  function After(c: Config, s: State, lines: seq<string>, lo: nat, hi: nat): State
    requires lo < hi <= |lines|
    decreases hi, 0
  {
    Step(c, Run(c, s, lines, lo, hi - 1), lines[hi - 1], NextLine(lines, hi - 1))
  }

  /** `load(text)`: resets the output, runs every line, and flushes the block still open. */
  function Load(c: Config, s: State, text: string): State {
    var lines := Split(text, '\n');
    var t := Run(c, s.(output := ""), lines, 0, |lines|);
    if t.status != Empty then Flush(c, t) else t
  }

  // ---------------------------------------------------------------- flush

  /** Flushing keeps the status, empties the buffer and the command, and preserves the invariant. */
  lemma FlushValid(c: Config, s: State)
    ensures var f := Flush(c, s);
      Valid(f) && f.current == [] && f.command == "" && f.status == s.status && f.output == s.output + Emit(c, s)
  {
  }

  /** Nothing is rendered for the empty status; an open block renders what it buffered, in order. */
  lemma EmitBuffered(c: Config, s: State)
    requires Valid(s)
    ensures s.status == Empty ==> Emit(c, s) == "" && s.current == []
    ensures s.status == List && c.r.onList.Some? ==>
      Emit(c, s) == c.r.onList.value(Bullets(s.current))
      && forall i :: 0 <= i < |s.current| ==> s.current[i] == ListEntry(Bullets(s.current)[i])
    ensures s.status == KeyValue && c.r.onKeyValue.Some? ==>
      Emit(c, s) == c.r.onKeyValue.value(Pairs(s.current))
      && forall i :: 0 <= i < |s.current| ==> s.current[i] == PairEntry(Pairs(s.current)[i])
    ensures (s.status == Paragraph || s.status == Embedded) ==>
      forall i :: 0 <= i < |s.current| ==> s.current[i] == Text(Texts(s.current)[i])
  {
    if s.status == List {
      forall i | 0 <= i < |s.current| ensures s.current[i] == ListEntry(Bullets(s.current)[i]) {
        assert Fits(s.status, s.current[i]);
      }
    }
    if s.status == KeyValue {
      forall i | 0 <= i < |s.current| ensures s.current[i] == PairEntry(Pairs(s.current)[i]) {
        assert Fits(s.status, s.current[i]);
      }
    }
    if s.status == Paragraph || s.status == Embedded {
      forall i | 0 <= i < |s.current| ensures s.current[i] == Text(Texts(s.current)[i]) {
        assert Fits(s.status, s.current[i]);
      }
    }
  }

  // ---------------------------------------------------------------- the detectors

  /** Outside an embedded block, exactly the lines that start with the fence and a space open one. */
  lemma EmbeddedOpens(c: Config, s: State, line: string)
    requires s.status != Embedded
    ensures EmbeddedLine(c, s, line).Some? <==> c.fence + " " <= line
    ensures c.fence + " " <= line ==>
      EmbeddedLine(c, s, line).value == s.(status := Embedded, command := line[|c.fence| + 1..],
                                           current := [], output := s.output + Emit(c, s))
  {
    SubstringPrefix(line, c.fence + " ");
  }

  /**
    Inside an embedded block every line is claimed: one that starts with the
    fence renders the block and leaves the empty status, any other is buffered
    as it is, without rewriting.
  */
  lemma EmbeddedInside(c: Config, s: State, line: string)
    requires s.status == Embedded
    ensures EmbeddedLine(c, s, line).Some?
    ensures c.fence <= line ==>
      EmbeddedLine(c, s, line).value == s.(status := Empty, command := "", current := [], output := s.output + Emit(c, s))
    ensures !(c.fence <= line) ==>
      EmbeddedLine(c, s, line).value == s.(current := s.current + [Text(line)])
  {
    SubstringPrefix(line, c.fence);
  }

  /** The text a break renders: `onBreak` of the line, with a line feed for the empty line. */
  function BreakText(c: Config, line: string): string {
    if c.r.onBreak.Some? then c.r.onBreak.value(if line == "" then "\n" else line) else ""
  }

  /** Exactly the empty line, `***` and `---` are breaks; a break closes the open block. */
  lemma BreakCloses(c: Config, s: State, line: string)
    requires Valid(s)
    ensures BreakLine(c, s, line).Some? <==> line == "" || line == "***" || line == "---"
    ensures BreakLine(c, s, line).Some? ==>
      BreakLine(c, s, line).value == s.(status := Empty, command := "", current := [],
                                        output := s.output + Emit(c, s) + BreakText(c, line))
  {
    EmitBuffered(c, s);
  }

  /** A list line: `-`, `+` or `x`, then a space. */
  predicate IsListLine(line: string) {
    |line| >= 2 && (line[0] == '-' || line[0] == '+' || line[0] == 'x') && line[1] == ' '
  }

  /** The element a list line `line` buffers. */
  function ListEntryOf(c: Config, line: string): Item {
    ListEntry(Bullet(CharAt(line, 0), c.rewrite(SubstringFrom(line, 3)).0))
  }

  /**
    Exactly the lines starting with `-`, `+` or `x` and a space are list items;
    the item is the marker and the rewritten text from index 3, and the open
    block is flushed only when the status was not already a list.
  */
  lemma ListClaims(c: Config, s: State, line: string)
    ensures ListLine(c, s, line).Some? <==> IsListLine(line)
    ensures ListLine(c, s, line).Some? ==>
      var cont := s.status == List;
      ListLine(c, s, line).value
        == s.(status := List,
              command := if cont then s.command else "",
              current := (if cont then s.current else []) + [ListEntryOf(c, line)],
              output := s.output + (if cont then "" else Emit(c, s)),
              tmp := c.rewrite(SubstringFrom(line, 3)).1)
  {
    if |line| >= 2 {
      assert CharAt(line, 0) == [line[0]] && CharAt(line, 1) == [line[1]];
    } else {
      assert CharAt(line, 1) == "";
    }
  }

  /** The element a key-value line buffers, with `index` the index of its first `:`. */
  function PairEntryOf(c: Config, line: string, index: nat): Item
    requires index < |line|
  {
    PairEntry(Pair(c.rewrite(Trim(line[..index])).0, c.rewrite(Trim(line[index + 1..])).0))
  }

  /**
    Exactly the lines with a `:` whose text before the first `:` is indented
    are key-value entries; key and value are the trimmed sides, rewritten, and
    the open block is flushed only when the status was not already key-value.
  */
  lemma KeyValueClaims(c: Config, s: State, line: string)
    ensures KeyValueLine(c, s, line).Some? <==> ':' in line && Indented(line[..IndexOf(line, ':')])
    ensures KeyValueLine(c, s, line).Some? ==>
      var index := IndexOf(line, ':');
      var cont := s.status == KeyValue;
      KeyValueLine(c, s, line).value
        == s.(status := KeyValue,
              command := if cont then s.command else "",
              current := (if cont then s.current else []) + [PairEntryOf(c, line, index)],
              output := s.output + (if cont then "" else Emit(c, s)),
              tmp := c.rewrite(Trim(line[index + 1..])).1)
  {
    var index := IndexOf(line, ':');
    if index != -1 {
      assert Substring(line, 0, index) == line[..index];
      assert SubstringFrom(line, index + 1) == line[index + 1..];
    }
  }

  /** A paragraph line: `>` or `|`, then a space. */
  predicate IsParagraphLine(line: string) {
    |line| >= 2 && (line[0] == '>' || line[0] == '|') && line[1] == ' '
  }

  /** The element a paragraph line buffers. */
  function ParagraphEntryOf(c: Config, line: string): Item {
    Text(c.rewrite(Trim(SubstringFrom(line, 1))).0)
  }

  /**
    Exactly the lines starting with `>` or `|` and a space are paragraph lines
    (none starting with `/`). Entering a paragraph flushes the open block and
    leaves the command empty; inside one, the command becomes the line's marker,
    and a marker that differs from a non-empty command renders the paragraph so far.
  */
  lemma ParagraphClaims(c: Config, s: State, line: string)
    requires s.status != Embedded
    ensures ParagraphLine(c, s, line).Some? <==> IsParagraphLine(line)
    ensures ParagraphLine(c, s, line).Some? ==>
      var inside := s.status == Paragraph;
      var switch := inside && s.command != "" && s.command != [line[0]];
      ParagraphLine(c, s, line).value
        == s.(status := Paragraph,
              command := if inside then [line[0]] else "",
              current := (if inside && !switch then s.current else []) + [ParagraphEntryOf(c, line)],
              output := s.output + (if !inside || switch then Emit(c, s) else ""),
              tmp := c.rewrite(Trim(SubstringFrom(line, 1))).1)
  {
    if |line| >= 2 {
      assert CharAt(line, 0) == [line[0]] && CharAt(line, 1) == [line[1]];
    } else {
      assert CharAt(line, 1) == "";
    }
  }

  /** A setext underline: the next line has the length of `line` and starts with `=` or `-`, and `line` starts above `@`. */
  predicate Underlined(line: string, next: string)
    requires line != ""
  {
    line[0] as int > 64 && next != "" && (next[0] == '=' || next[0] == '-') && |line| == |next|
  }

  /**
    Exactly a `#` line with a space, or an underlined line not starting with
    `#`, is a heading. A heading flushes the open block but keeps its status,
    and only the underlined form makes `load` skip the next line.
  */
  lemma TitleClaims(c: Config, s: State, line: string, next: string)
    requires Valid(s) && line != ""
    ensures TitleLine(c, s, line, next).Some? <==>
      (line[0] == '#' && ' ' in line) || (line[0] != '#' && Underlined(line, next))
    ensures TitleLine(c, s, line, next).Some? ==>
      var t := TitleLine(c, s, line, next).value;
      && t.status == s.status && t.current == [] && t.command == ""
      && t.skip == (s.skip || line[0] != '#')
      && Valid(t)
  {
    if line[0] != '#' {
      assert CharAt(next, 0) == (if next != "" then [next[0]] else "");
    }
  }

  /** A `#` heading: its marker is the text before the first space, trimmed; its text follows the marker and one character. */
  lemma AtxHeading(c: Config, s: State, line: string, next: string)
    requires line != "" && line[0] == '#' && ' ' in line
    requires !s.skip && c.r.onTitle.Some?
    ensures var kind := Trim(line[..IndexOf(line, ' ')]);
      TitleLine(c, s, line, next).Some? &&
      TitleLine(c, s, line, next).value.output
        == s.output + Emit(c, s) + c.r.onTitle.value(kind, c.rewrite(SubstringFrom(line, |kind| + 1)).0)
  {
    assert Substring(line, 0, IndexOf(line, ' ')) == line[..IndexOf(line, ' ')];
  }

  /** An underlined heading: level one for `=`, two for `-`; its text is the whole line. */
  lemma SetextHeading(c: Config, s: State, line: string, next: string)
    requires line != "" && line[0] != '#' && Underlined(line, next)
    requires c.r.onTitle.Some?
    ensures TitleLine(c, s, line, next).Some?
    ensures var t := TitleLine(c, s, line, next).value;
      t.skip && t.output == s.output + Emit(c, s) + c.r.onTitle.value(if next[0] == '=' then "#" else "##", c.rewrite(line).0)
  {
    assert CharAt(next, 0) == [next[0]];
  }

  // ---------------------------------------------------------------- one line

  /** Inside an embedded block every line goes to the embedded detector, whatever it looks like. */
  lemma EmbeddedStep(c: Config, s: State, line: string, next: string)
    requires s.status == Embedded && !s.skip
    ensures EmbeddedLine(c, s, line).Some? && Step(c, s, line, next) == EmbeddedLine(c, s, line).value
  {
    EmbeddedInside(c, s, line);
  }

  /** A line no detector claims leaves the block alone: status, command and buffer are unchanged. */
  lemma PlainLineKeepsBlock(c: Config, s: State, line: string, next: string)
    requires !s.skip
    requires EmbeddedLine(c, s, line).None? && BreakLine(c, s, line).None? && ListLine(c, s, line).None?
    requires KeyValueLine(c, s, line).None? && ParagraphLine(c, s, line).None?
    requires TitleLine(c, s, line, next).None?
    ensures var t := Step(c, s, line, next);
      && t.status == s.status && t.command == s.command && t.current == s.current && !t.skip
      && t.output == s.output + (if c.r.onLine.Some? then c.r.onLine.value(c.rewrite(line).0) else "")
  {
  }

  /** Every iteration keeps the invariant. */
  lemma StepValid(c: Config, s: State, line: string, next: string)
    requires Valid(s)
    ensures Valid(Step(c, s, line, next))
  {
    var t := Step(c, s, line, next);
    if s.skip {
    } else if s.status == Embedded {
      EmbeddedStep(c, s, line, next);
      EmbeddedInside(c, s, line);
    } else if EmbeddedLine(c, s, line).Some? {
      assert t == EmbeddedLine(c, s, line).value;
      EmbeddedOpens(c, s, line);
    } else if BreakLine(c, s, line).Some? {
      assert t == BreakLine(c, s, line).value;
      BreakCloses(c, s, line);
    } else if ListLine(c, s, line).Some? {
      assert t == ListLine(c, s, line).value;
      ListValid(c, s, line);
    } else if KeyValueLine(c, s, line).Some? {
      assert t == KeyValueLine(c, s, line).value;
      KeyValueValid(c, s, line);
    } else if ParagraphLine(c, s, line).Some? {
      assert t == ParagraphLine(c, s, line).value;
      ParagraphValid(c, s, line);
    } else if TitleLine(c, s, line, next).Some? {
      assert t == TitleLine(c, s, line, next).value;
      TitleClaims(c, s, line, next);
    } else {
      assert t == PlainLine(c, s, line);
    }
  }

  /** A list line keeps the invariant. */
  lemma ListValid(c: Config, s: State, line: string)
    requires Valid(s) && ListLine(c, s, line).Some?
    ensures Valid(ListLine(c, s, line).value)
  {
    ListClaims(c, s, line);
  }

  /** A key-value line keeps the invariant. */
  lemma KeyValueValid(c: Config, s: State, line: string)
    requires Valid(s) && KeyValueLine(c, s, line).Some?
    ensures Valid(KeyValueLine(c, s, line).value)
  {
    KeyValueClaims(c, s, line);
  }

  /** A paragraph line keeps the invariant. */
  lemma ParagraphValid(c: Config, s: State, line: string)
    requires Valid(s) && s.status != Embedded && ParagraphLine(c, s, line).Some?
    ensures Valid(ParagraphLine(c, s, line).value)
  {
    ParagraphClaims(c, s, line);
  }

  /** The output only grows: an iteration appends to it and never rewrites what is there. */
  lemma StepOutputGrows(c: Config, s: State, line: string, next: string)
    ensures s.output <= Step(c, s, line, next).output
  {
    var t := Step(c, s, line, next);
    if s.skip {
    } else if s.status == Embedded {
      EmbeddedStep(c, s, line, next);
      EmbeddedInside(c, s, line);
    } else if EmbeddedLine(c, s, line).Some? {
      assert t == EmbeddedLine(c, s, line).value;
      EmbeddedOpens(c, s, line);
    } else if BreakLine(c, s, line).Some? {
      assert t == BreakLine(c, s, line).value;
    } else if ListLine(c, s, line).Some? {
      assert t == ListLine(c, s, line).value;
      ListClaims(c, s, line);
    } else {
      LateStepOutputGrows(c, s, line, next);
    }
  }

  /** `StepOutputGrows` for a line that reaches the key-value detector. */
  lemma LateStepOutputGrows(c: Config, s: State, line: string, next: string)
    requires !s.skip && s.status != Embedded
    requires EmbeddedLine(c, s, line).None? && BreakLine(c, s, line).None? && ListLine(c, s, line).None?
    ensures s.output <= Step(c, s, line, next).output
  {
    var t := Step(c, s, line, next);
    if KeyValueLine(c, s, line).Some? {
      assert t == KeyValueLine(c, s, line).value;
      KeyValueClaims(c, s, line);
    } else if ParagraphLine(c, s, line).Some? {
      assert t == ParagraphLine(c, s, line).value;
      ParagraphClaims(c, s, line);
    } else if TitleLine(c, s, line, next).Some? {
      assert t == TitleLine(c, s, line, next).value;
    } else {
      assert t == PlainLine(c, s, line);
    }
  }

  /** A block is left for the empty status only through a flush: the block is rendered and the buffer emptied. */
  lemma EmptyOnlyAfterFlush(c: Config, s: State, line: string, next: string)
    requires Valid(s) && s.status != Empty
    requires Step(c, s, line, next).status == Empty
    ensures var t := Step(c, s, line, next);
      t.current == [] && t.command == "" && s.output + Emit(c, s) <= t.output
  {
    if s.status == Embedded {
      EmbeddedInside(c, s, line);
    } else if EmbeddedLine(c, s, line).Some? {
      EmbeddedOpens(c, s, line);
    } else if BreakLine(c, s, line).Some? {
      BreakCloses(c, s, line);
    } else if ListLine(c, s, line).Some? {
      ListClaims(c, s, line);
    } else if KeyValueLine(c, s, line).Some? {
      KeyValueClaims(c, s, line);
    } else if ParagraphLine(c, s, line).Some? {
      ParagraphClaims(c, s, line);
    } else if TitleLine(c, s, line, next).Some? {
      TitleClaims(c, s, line, next);
    }
  }

  /** Only an underlined heading sets `skip`, and it needs a next line: the last line never leaves `skip` set. */
  lemma LastStepClearsSkip(c: Config, s: State, line: string)
    ensures !Step(c, s, line, "").skip
  {
    if !s.skip && line != "" && TitleLine(c, s, line, "").Some? {
      assert line[0] == '#' by {
        assert CharAt("", 0) == "";
      }
    }
  }

  // ---------------------------------------------------------------- runs of lines

  /** Running `lines[lo..mid]` and then `lines[mid..hi]` is running `lines[lo..hi]`. */
  lemma {:induction false} RunSplit(c: Config, s: State, lines: seq<string>, lo: nat, mid: nat, hi: nat)
    requires lo <= mid <= hi <= |lines|
    ensures Run(c, Run(c, s, lines, lo, mid), lines, mid, hi) == Run(c, s, lines, lo, hi)
    decreases hi
  {
    if hi > mid {
      RunSplit(c, s, lines, lo, mid, hi - 1);
    }
  }

  /** The last iteration of a run is one more step. */
  lemma RunLast(c: Config, s: State, lines: seq<string>, lo: nat, hi: nat)
    requires lo < hi <= |lines|
    ensures Run(c, s, lines, lo, hi) == Step(c, Run(c, s, lines, lo, hi - 1), lines[hi - 1], NextLine(lines, hi - 1))
    ensures hi == lo + 1 ==> Run(c, s, lines, lo, hi - 1) == s
  {
  }

  /** The invariant holds after any number of iterations. */
  lemma {:induction false} RunValid(c: Config, s: State, lines: seq<string>, lo: nat, hi: nat)
    requires lo <= hi <= |lines| && Valid(s)
    ensures Valid(Run(c, s, lines, lo, hi))
    decreases hi
  {
    if hi > lo {
      RunValid(c, s, lines, lo, hi - 1);
      StepValid(c, Run(c, s, lines, lo, hi - 1), lines[hi - 1], NextLine(lines, hi - 1));
    }
  }

  /** What has been rendered stays: the output before a run is a prefix of the output after it. */
  lemma {:induction false} RunOutputGrows(c: Config, s: State, lines: seq<string>, lo: nat, hi: nat)
    requires lo <= hi <= |lines|
    ensures s.output <= Run(c, s, lines, lo, hi).output
    decreases hi
  {
    if hi > lo {
      RunOutputGrows(c, s, lines, lo, hi - 1);
      StepOutputGrows(c, Run(c, s, lines, lo, hi - 1), lines[hi - 1], NextLine(lines, hi - 1));
    }
  }

  /** Lines buffered as text, in order. */
  function TextItems(ls: seq<string>): (r: seq<Item>)
    ensures Texts(r) == ls
  {
    seq(|ls|, i requires 0 <= i < |ls| => Text(ls[i]))
  }

  /** Inside an embedded block, lines that do not start with the fence are buffered verbatim and nothing is rendered. */
  lemma {:induction false} EmbeddedBody(c: Config, s: State, lines: seq<string>, lo: nat, hi: nat)
    requires lo <= hi <= |lines|
    requires s.status == Embedded && !s.skip
    requires forall j :: lo <= j < hi ==> !(c.fence <= lines[j])
    ensures Run(c, s, lines, lo, hi) == s.(current := s.current + TextItems(lines[lo..hi]))
    decreases hi
  {
    if hi > lo {
      EmbeddedBody(c, s, lines, lo, hi - 1);
      var u := Run(c, s, lines, lo, hi - 1);
      var line := lines[hi - 1];
      EmbeddedStep(c, u, line, NextLine(lines, hi - 1));
      EmbeddedInside(c, u, line);
      assert Run(c, s, lines, lo, hi) == u.(current := u.current + [Text(line)]);
      TextItemsSnoc(lines[lo..hi], lines[lo..hi - 1], line);
    }
  }

  /** Buffering one more line as text. */
  lemma TextItemsSnoc(ls: seq<string>, init: seq<string>, line: string)
    requires ls == init + [line]
    ensures TextItems(ls) == TextItems(init) + [Text(line)]
  {
  }

  /**
    A whole embedded block, from the line `fence + ' ' + command` to the next
    line starting with the fence: the open block is rendered first, then
    `onEmbedded` receives the command and the lines in between, unchanged, and
    the status is empty again.
  */
  lemma EmbeddedBlock(c: Config, s: State, lines: seq<string>, lo: nat, hi: nat)
    requires !s.skip && s.status != Embedded
    requires lo < hi < |lines|
    requires c.fence + " " <= lines[lo]
    requires forall j :: lo < j < hi ==> !(c.fence <= lines[j])
    requires c.fence <= lines[hi]
    ensures Run(c, s, lines, lo, hi + 1)
      == s.(status := Empty, command := "", current := [],
            output := s.output + Emit(c, s)
                      + (if c.r.onEmbedded.Some? then c.r.onEmbedded.value(lines[lo][|c.fence| + 1..], lines[lo + 1..hi]) else ""))
  {
    EmbeddedOpens(c, s, lines[lo]);
    var o := Run(c, s, lines, lo, lo + 1);
    RunLast(c, s, lines, lo, lo + 1);
    assert o == Step(c, s, lines[lo], NextLine(lines, lo));
    EmbeddedBody(c, o, lines, lo + 1, hi);
    RunSplit(c, s, lines, lo, lo + 1, hi);
    var b := Run(c, s, lines, lo, hi);
    assert b == o.(current := TextItems(lines[lo + 1..hi]));
    EmbeddedStep(c, b, lines[hi], NextLine(lines, hi));
    EmbeddedInside(c, b, lines[hi]);
    RunLast(c, s, lines, lo, hi + 1);
  }

  /** The list items of the lines `ls`, in order. */
  function ListItemsOf(c: Config, ls: seq<string>): (r: seq<Item>)
    ensures |r| == |ls|
  {
    seq(|ls|, i requires 0 <= i < |ls| => ListEntryOf(c, ls[i]))
  }

  /**
    Consecutive list lines inside a list extend it: every item is buffered in
    order and nothing is rendered until the list ends.
  */
  lemma {:induction false} ListRun(c: Config, s: State, lines: seq<string>, lo: nat, hi: nat)
    requires lo <= hi <= |lines|
    requires s.status == List && !s.skip
    requires forall j :: lo <= j < hi ==> IsListLine(lines[j]) && !(c.fence + " " <= lines[j])
    ensures var t := Run(c, s, lines, lo, hi);
      && t.status == List && t.command == s.command && t.output == s.output && !t.skip
      && t.current == s.current + ListItemsOf(c, lines[lo..hi])
    decreases hi
  {
    if hi > lo {
      ListRun(c, s, lines, lo, hi - 1);
      var u := Run(c, s, lines, lo, hi - 1);
      var line := lines[hi - 1];
      EmbeddedOpens(c, u, line);
      assert BreakLine(c, u, line).None?;
      ListClaims(c, u, line);
      assert Run(c, s, lines, lo, hi) == ListLine(c, u, line).value;
      assert ListItemsOf(c, lines[lo..hi]) == ListItemsOf(c, lines[lo..hi - 1]) + [ListEntryOf(c, line)];
    }
  }

  // ---------------------------------------------------------------- load

  /**
    After `load` nothing is left buffered: the block still open at the end is
    rendered, the buffer and the command are empty, no line is pending a skip,
    and the invariant holds.
  */
  lemma LoadDrains(c: Config, s: State, text: string)
    requires Valid(s)
    ensures var t := Load(c, s, text);
      Valid(t) && t.current == [] && t.command == "" && !t.skip
  {
    var lines := Split(text, '\n');
    var s0 := s.(output := "");
    var n := |lines|;
    RunValid(c, s0, lines, 0, n);
    assert NextLine(lines, n - 1) == "";
    LastStepClearsSkip(c, Run(c, s0, lines, 0, n - 1), lines[n - 1]);
    assert Run(c, s0, lines, 0, n) == Step(c, Run(c, s0, lines, 0, n - 1), lines[n - 1], "");
    FlushValid(c, Run(c, s0, lines, 0, n));
  }

  /** The output of `load` is rendered from scratch, and it begins with what the lines rendered before the final flush. */
  lemma LoadOutput(c: Config, s: State, text: string, prior: string)
    ensures Load(c, s.(output := prior), text) == Load(c, s, text)
    ensures var lines := Split(text, '\n');
      Run(c, s.(output := ""), lines, 0, |lines|).output <= Load(c, s, text).output
  {
  }
}
