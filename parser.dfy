/**
  The `Markdown` object of test/md.js: its state fields, updated in place by
  `load` and the block detectors, and the inline rewriting loops that push
  entries onto `tmp`. Each method is proved to compute what the functions of
  `Blocks` and `Inline` define, so the properties proved there hold of it.
*/
module Parser {
  import opened Wrappers
  import opened JsString
  import opened Render
  import opened Placeholder
  import opened Scan
  import opened Inline
  import opened Blocks

  class Markdown {
    /** The fence of embedded blocks, `'==='` by default. */
    const embedded: string
    /** The callbacks, fixed when the object is built. */
    const renderer: Renderer
    /** The match lists of the regular expressions that are not scanned exactly. */
    const patterns: Patterns
    /** `parseOther` as a value: the rewritten line and the table it leaves in `tmp`. */
    const rewrite: string -> (string, Table)

    var current: seq<Item>
    var status: Status
    var command: string
    var skip: bool
    var output: string
    var tmp: Table

    /** `rewrite` is `parseOther` with these callbacks and patterns. */
    ghost predicate Valid() {
      forall l {:trigger Inline.ParseOther(renderer, patterns, l)} :: rewrite(l) == Inline.ParseOther(renderer, patterns, l)
    }

    /** The parameters of the block functions: the fence, the callbacks and `parseOther`. */
    function Config(): Blocks.Config {
      Blocks.Config(embedded, renderer, rewrite)
    }

    /** The mutable fields as one value. */
    function State(): Blocks.State
      reads this
    {
      Blocks.State(status, command, current, skip, output, tmp)
    }

    /** `new Markdown()`: the default fence and callbacks, and the empty state. */
    constructor(patterns: Patterns)
      ensures Valid()
      ensures embedded == "===" && renderer == Default() && this.patterns == patterns
      ensures State() == Initial()
    {
      embedded := "===";
      renderer := Default();
      this.patterns := patterns;
      rewrite := l => Inline.ParseOther(Default(), patterns, l);
      current := [];
      status := Empty;
      command := "";
      skip := false;
      output := "";
      tmp := [];
    }

    /** A parser whose fence and callbacks the caller has replaced. */
    constructor Custom(embedded: string, renderer: Renderer, patterns: Patterns)
      ensures Valid()
      ensures this.embedded == embedded && this.renderer == renderer && this.patterns == patterns
      ensures State() == Initial()
    {
      this.embedded := embedded;
      this.renderer := renderer;
      this.patterns := patterns;
      rewrite := l => Inline.ParseOther(renderer, patterns, l);
      current := [];
      status := Empty;
      command := "";
      skip := false;
      output := "";
      tmp := [];
    }

    // -------------------------------------------------------------- placeholders

    /** `getReplace(find, value)`: a fresh key for `value`, whose entry is pushed onto `tmp`. */
    method GetReplace(find: string, value: string) returns (key: string)
      modifies this
      ensures (key, tmp) == Placeholder.GetReplace(old(tmp), value)
      ensures State() == old(State()).(tmp := tmp)
    {
      key := Prefix + IntToString(|tmp|) + ";";
      tmp := tmp + [Entry(key, value)];
    }

    // -------------------------------------------------------------- the rewriting loops

    /**
      `parseFormat(text, flush)`: with `flush` each match is replaced by its
      rendering and `tmp` is left alone; otherwise by a placeholder.
    */
    method ParseFormat(text: string, flush: bool) returns (res: string)
      modifies this
      ensures flush ==> res == FormatDirect(renderer, text) && State() == old(State())
      ensures !flush ==> (res, tmp) == Inline.ParseFormat(renderer, text, old(tmp))
      ensures State() == old(State()).(tmp := tmp)
    {
      var matches := ScanFormat(text);
      res := text;
      for i := 0 to |matches|
        invariant flush ==> FormatDirectFrom(renderer, matches[i..], res) == FormatDirect(renderer, text) && tmp == old(tmp)
        invariant !flush ==> Fold(Format, renderer, matches[i..], res, tmp) == Inline.ParseFormat(renderer, text, old(tmp))
        invariant State() == old(State()).(tmp := tmp)
      {
        var o := matches[i];
        assert matches[i..][1..] == matches[i + 1..];
        FoldStep(Format, renderer, matches, i, res, tmp);
        var value: string;
        if CharAt(o, 0) == "*" {
          value := renderer.onFormat(if CharAt(o, 1) == "*" then "**" else "*", StripDelims(o, '*'));
        } else {
          value := renderer.onFormat(if CharAt(o, 1) == "_" then "__" else "_", StripDelims(o, '_'));
        }
        if flush {
          res := Replace(res, o, value);
        } else {
          var key := GetReplace(o, value);
          res := Replace(res, o, key);
        }
      }
    }

    /**
      The loop `parseLink`, `parseImage` and `parseLinkInline` share: for each
      match in turn, `continue` or replace the first occurrence of the matched
      text by a key `getReplace` pushes for its rendering. What one match
      becomes is `Act(pass, ...)`, which follows the statements of each loop.
    */
    method Rewrite(pass: Pass, matches: seq<string>, text: string) returns (res: string)
      modifies this
      ensures (res, tmp) == Fold(pass, renderer, matches, text, old(tmp))
      ensures State() == old(State()).(tmp := tmp)
    {
      res := text;
      for i := 0 to |matches|
        invariant Fold(pass, renderer, matches[i..], res, tmp) == Fold(pass, renderer, matches, text, old(tmp))
        invariant State() == old(State()).(tmp := tmp)
      {
        FoldStep(pass, renderer, matches, i, res, tmp);
        match Act(pass, renderer, matches[i]) {
          case Skip =>
          case Sub(find, value) =>
            var key := GetReplace(find, value);
            res := Replace(res, find, key);
        }
      }
    }

    /** `parseLink(text)`: angle-bracket links, then `[text](url)` and `[text]: url` links, both matched in `text`. */
    method ParseLink(text: string) returns (res: string)
      modifies this
      ensures (res, tmp) == Inline.ParseLink(renderer, patterns, text, old(tmp))
      ensures State() == old(State()).(tmp := tmp)
    {
      res := Rewrite(AngleLink, ScanLink1(text), text);
      res := Rewrite(BracketLink, patterns.link2(text), res);
    }

    /** `parseImage(text)`: `![alt](src#WxH)` images, optionally wrapped in a link. */
    method ParseImage(text: string) returns (res: string)
      modifies this
      ensures (res, tmp) == Inline.ParseImage(renderer, patterns, text, old(tmp))
      ensures State() == old(State()).(tmp := tmp)
    {
      res := Rewrite(Image, patterns.image(text), text);
    }

    /** `parseLinkInline(text)`: bare `http://...` addresses, then `www....` ones in what is left. */
    method ParseLinkInline(text: string) returns (res: string)
      modifies this
      ensures (res, tmp) == Inline.ParseLinkInline(renderer, patterns, text, old(tmp))
      ensures State() == old(State()).(tmp := tmp)
    {
      res := Rewrite(BareLink, patterns.link3(text), text);
      res := Rewrite(BareLink, patterns.link4(res), res);
    }

    /**
      `parseOther(line)`: `tmp` starts empty, the four passes rewrite the line,
      and the loop at the end puts every rendered value in place of its key.
    */
    method ParseOther(line: string) returns (res: string)
      requires Valid()
      modifies this
      ensures (res, tmp) == rewrite(line)
      ensures State() == old(State()).(tmp := tmp)
    {
      if |tmp| > 0 {
        tmp := [];
      }
      res := ParseLink(line);
      res := ParseImage(res);
      res := ParseFormat(res, false);
      res := ParseLinkInline(res);
      ghost var text := res;
      assert (text, tmp) == Passes(renderer, patterns, line);
      if |tmp| > 0 {
        for i := 0 to |tmp|
          invariant RestoreFrom(res, tmp, i) == Restore(text, tmp)
        {
          res := Replace(res, tmp[i].k, tmp[i].v);
        }
      }
      assert (res, tmp) == Inline.ParseOther(renderer, patterns, line);
    }

    // -------------------------------------------------------------- flush

    /** `flush()`: renders the buffered block through its callback, then empties the buffer and the command. */
    method Flush()
      modifies this
      ensures State() == Blocks.Flush(Config(), old(State()))
    {
      match status {
        case Embedded =>
          if renderer.onEmbedded.Some? {
            output := output + renderer.onEmbedded.value(command, Texts(current));
          }
        case List =>
          if renderer.onList.Some? {
            output := output + renderer.onList.value(Bullets(current));
          }
        case KeyValue =>
          if renderer.onKeyValue.Some? {
            output := output + renderer.onKeyValue.value(Pairs(current));
          }
        case Paragraph =>
          if renderer.onParagraph.Some? {
            output := output + renderer.onParagraph.value(command, Texts(current));
          }
        case Empty =>
      }
      current := [];
      command := "";
    }

    // -------------------------------------------------------------- the detectors

    /** `parseEmbedded(line)`: opens, closes or extends an embedded block. */
    method ParseEmbedded(line: string) returns (claimed: bool)
      modifies this
      ensures claimed == EmbeddedLine(Config(), old(State()), line).Some?
      ensures State() == if claimed then EmbeddedLine(Config(), old(State()), line).value else old(State())
    {
      var st := status;
      var chars := embedded + (if st != Embedded then " " else "");
      var has := Substring(line, 0, |chars|) == chars;
      if st != Embedded && !has {
        return false;
      }
      if st != Embedded && has {
        Flush();
      }
      if st == Embedded && has {
        Flush();
        status := Empty;
        return true;
      }
      if has {
        status := Embedded;
        command := SubstringFrom(line, |chars|);
        return true;
      }
      if st == Embedded {
        current := current + [Text(line)];
      }
      return true;
    }

    /** `parseBreak(line)`: an empty line, `***` or `---` ends the block and renders a break. */
    method ParseBreak(line: string) returns (claimed: bool)
      modifies this
      ensures claimed == BreakLine(Config(), old(State()), line).Some?
      ensures State() == if claimed then BreakLine(Config(), old(State()), line).value else old(State())
    {
      if line == "" || line == "***" || line == "---" {
        if status != Empty {
          Flush();
        }
        status := Empty;
        if renderer.onBreak.Some? {
          output := output + renderer.onBreak.value(if line == "" then "\n" else line);
        }
        return true;
      }
      return false;
    }

    /** `parseList(line)`: a list item, which starts a list unless one is open. */
    method ParseList(line: string) returns (claimed: bool)
      requires Valid()
      modifies this
      ensures claimed == ListLine(Config(), old(State()), line).Some?
      ensures State() == if claimed then ListLine(Config(), old(State()), line).value else old(State())
    {
      var first := CharAt(line, 0);
      var second := CharAt(line, 1);
      var has := (first == "-" || first == "+" || first == "x") && second == " ";
      if !has {
        return false;
      }
      if status != List {
        Flush();
        status := List;
      }
      var value := ParseOther(SubstringFrom(line, 3));
      current := current + [ListEntry(Bullet(first, value))];
      return true;
    }

    /**
      `parseKeyValue(line)`: a key and a value around the first `:`, when the
      counting loop (`KeyIndented`) finds a tab or three spaces in a row in the key.
    */
    method ParseKeyValue(line: string) returns (claimed: bool)
      requires Valid()
      modifies this
      ensures claimed == KeyValueLine(Config(), old(State()), line).Some?
      ensures State() == if claimed then KeyValueLine(Config(), old(State()), line).value else old(State())
    {
      var index := IndexOf(line, ':');
      if index == -1 {
        return false;
      }
      var key := Substring(line, 0, index);
      var indented := KeyIndented(key);
      if !indented {
        return false;
      }
      if status != KeyValue {
        Flush();
        status := KeyValue;
      }
      ghost var entered := State();
      var k := ParseOther(Trim(key));
      var v := ParseOther(Trim(SubstringFrom(line, index + 1)));
      current := current + [PairEntry(Pair(k, v))];
      KeyValueFrom(Config(), old(State()), line, entered);
      return true;
    }

    /**
      `parseParagraph(line)`: a `>` or `|` line. For `/` the source compares
      instead of assigning (`has == ...`), so such a line is never claimed.
    */
    method ParseParagraph(line: string) returns (claimed: bool)
      requires Valid()
      modifies this
      ensures claimed == ParagraphLine(Config(), old(State()), line).Some?
      ensures State() == if claimed then ParagraphLine(Config(), old(State()), line).value else old(State())
    {
      var first := CharAt(line, 0);
      var second := CharAt(line, 1);
      var index := 0;
      var has := false;
      if first == ">" || first == "|" {
        has := second == " ";
        index := 1;
      } else if first == "/" {
        index := 2;
      }
      if !has {
        return false;
      }
      var st := status;
      var cmd := first + (if first == "/" then "/" else "");
      if command != "" && command != cmd && st == Paragraph {
        Flush();
      }
      command := cmd;
      if st != Paragraph {
        Flush();
        status := Paragraph;
      }
      var value := ParseOther(Trim(SubstringFrom(line, index)));
      current := current + [Text(value)];
      return true;
    }

    /**
      `parseTitle(line, next)`, with `next` the empty string after the last
      line; `line` is not empty, as `line[0].charCodeAt(0)` requires.
    */
    method ParseTitle(line: string, next: string) returns (claimed: bool)
      requires Valid() && line != ""
      modifies this
      ensures claimed == TitleLine(Config(), old(State()), line, next).Some?
      ensures State() == if claimed then TitleLine(Config(), old(State()), line, next).value else old(State())
    {
      var has := line[0] == '#';
      var kind := "";
      if !has {
        var first := CharAt(next, 0);
        has := line[0] as int > 64 && (first == "=" || first == "-");
        if has {
          has := |line| == |next|;
        }
        if has {
          kind := if first == "=" then "#" else "##";
          skip := true;
        }
      } else {
        var index := IndexOf(line, ' ');
        if index == -1 {
          return false;
        }
        kind := Trim(Substring(line, 0, index));
      }
      if !has {
        return false;
      }
      ghost var marked := State();
      assert TitleLine(Config(), old(State()), line, next) == Some(Heading(Config(), marked, kind, line));
      if status != Empty {
        Flush();
      }
      ghost var flushed := State();
      if renderer.onTitle.Some? {
        var text := ParseOther(if skip then line else SubstringFrom(line, |kind| + 1));
        output := output + renderer.onTitle.value(kind, text);
      }
      HeadingFrom(Config(), marked, flushed, kind, line);
      return true;
    }

    // -------------------------------------------------------------- load

    /**
      `load(text)`: every line goes to the first detector that claims it, or
      to `onLine`; a line after a setext heading is skipped; the block still
      open at the end is flushed. `html` is the output.
    */
    method Load(text: string) returns (html: string)
      requires Valid()
      modifies this
      ensures State() == Blocks.Load(Config(), old(State()), text)
      ensures html == output
    {
      var lines := Split(text, '\n');
      output := "";
      ghost var start := State();
      for i := 0 to |lines|
        invariant State() == Run(Config(), start, lines, 0, i)
      {
        RunLast(Config(), start, lines, 0, i + 1);
        if skip {
          skip := false;
          continue;
        }
        var line := lines[i];
        var claimed := ParseEmbedded(line);
        if claimed {
          continue;
        }
        claimed := ParseBreak(line);
        if claimed {
          continue;
        }
        claimed := ParseList(line);
        if claimed {
          continue;
        }
        claimed := ParseKeyValue(line);
        if claimed {
          continue;
        }
        claimed := ParseParagraph(line);
        if claimed {
          continue;
        }
        claimed := ParseTitle(line, NextLine(lines, i));
        if claimed {
          continue;
        }
        if renderer.onLine.Some? {
          var rewritten := ParseOther(line);
          output := output + renderer.onLine.value(rewritten);
        }
      }
      if status != Empty {
        Flush();
      }
      html := output;
    }

  }

  /** The end of `parseKeyValue` computes `KeyValueLine` from the state after the flush. */
  lemma KeyValueFrom(c: Config, s: State, line: string, entered: State)
    requires IndexOf(line, ':') != -1 && Indented(Substring(line, 0, IndexOf(line, ':')))
    requires entered == if s.status != KeyValue then Blocks.Flush(c, s).(status := KeyValue) else s
    ensures var index := IndexOf(line, ':');
      var (k, _) := c.rewrite(Trim(Substring(line, 0, index)));
      var (v, tab) := c.rewrite(Trim(SubstringFrom(line, index + 1)));
      KeyValueLine(c, s, line) == Some(entered.(current := entered.current + [PairEntry(Pair(k, v))], tmp := tab))
  {
  }

  /**
    The counting loop of `parseKeyValue` over the text before the first `:`:
    it stops at a tab or at the third space in a row, and the key is indented
    unless it ran to the end with fewer than three spaces and no tab.
  */
  method KeyIndented(key: string) returns (indented: bool)
    ensures indented == Indented(key)
  {
    var countTab := 0;
    var countSpace := 0;
    var i := 0;
    while i < |key|
      invariant 0 <= i <= |key| && countTab == 0 && 0 <= countSpace <= 2 && countSpace <= i
      invariant '\t' !in key[..i]
      invariant forall j :: 0 <= j && j + 2 < i ==> !(key[j] == ' ' && key[j + 1] == ' ' && key[j + 2] == ' ')
      invariant forall j :: i - countSpace <= j < i ==> key[j] == ' '
      invariant countSpace < i ==> key[i - 1 - countSpace] != ' '
    {
      var ch := key[i];
      if ch == '\t' {
        countTab := countTab + 1;
        break;
      }
      if ch == ' ' {
        countSpace := countSpace + 1;
        if countSpace > 2 {
          break;
        }
      } else {
        countSpace := 0;
      }
      i := i + 1;
    }
    IndentedCount(key, i, countTab, countSpace);
    indented := !(countSpace < 3 && countTab <= 0);
  }

  /** What the counting loop of `parseKeyValue` decides, from the state it stops in. */
  lemma IndentedCount(key: string, i: int, countTab: int, countSpace: int)
    requires 0 <= i <= |key| && 0 <= countTab
    requires '\t' !in key[..i]
    requires forall j :: 0 <= j && j + 2 < i ==> !(key[j] == ' ' && key[j + 1] == ' ' && key[j + 2] == ' ')
    requires countTab > 0 ==> i < |key| && key[i] == '\t'
    requires countSpace >= 3 ==> 2 <= i < |key| && key[i - 2] == ' ' && key[i - 1] == ' ' && key[i] == ' '
    requires countTab == 0 && countSpace < 3 ==> i == |key|
    ensures (countSpace >= 3 || countTab > 0) == Indented(key)
  {
    if countTab > 0 {
      assert key[i] == '\t';
    } else if countSpace < 3 {
      assert key[..i] == key;
    }
  }

  /** The end of `parseTitle` computes `Heading` from the state after the flush. */
  lemma HeadingFrom(c: Config, s: State, flushed: State, kind: string, line: string)
    requires flushed == if s.status != Empty then Blocks.Flush(c, s) else s
    ensures Heading(c, s, kind, line)
      == if c.r.onTitle.None? then flushed
         else
           var (text, tab) := c.rewrite(if flushed.skip then line else SubstringFrom(line, |kind| + 1));
           flushed.(output := flushed.output + c.r.onTitle.value(kind, text), tmp := tab)
  {
  }
}
