/**
  The renderer callbacks of the `Markdown` object (test/md.js:22-143) and the
  record that holds them. Each callback is a total function of its arguments;
  the callbacks the parser tests against `null` (or for truthiness) before
  calling them are optional.
*/
module Render {
  import opened Wrappers
  import opened JsString

  /** A buffered list item, `{ type, value }`: its marker character and its rewritten text. */
  datatype Bullet = Bullet(marker: string, value: string)

  /** A buffered key-value entry, `{ key, value }`, both rewritten. */
  datatype Pair = Pair(key: string, value: string)

  /** The callback set. `None` is a callback the caller has set to `null`. */
  datatype Renderer = Renderer(
    onEmbedded: Option<(string, seq<string>) -> string>,
    onKeyword: (string, string) -> string,
    onParagraph: Option<(string, seq<string>) -> string>,
    onLine: Option<string -> string>,
    onFormat: (string, string) -> string,
    onLink: (string, string) -> string,
    onImage: (string, string, Option<int>, Option<int>, string) -> string,
    onList: Option<seq<Bullet> -> string>,
    onKeyValue: Option<seq<Pair> -> string>,
    onBreak: Option<string -> string>,
    onTitle: Option<(string, string) -> string>)

  /** The callbacks installed by the constructor. */
  function Default(): Renderer {
    Renderer(
      Some(DefaultOnEmbedded),
      DefaultOnKeyword,
      Some(DefaultOnParagraph),
      Some(DefaultOnLine),
      DefaultOnFormat,
      DefaultOnLink,
      DefaultOnImage,
      Some(DefaultOnList),
      Some(DefaultOnKeyValue),
      Some(DefaultOnBreak),
      Some(DefaultOnTitle))
  }

  // ---------------------------------------------------------------- embedded, keyword, line

  /** An embedded block is its verbatim lines joined by line feeds. */
  function DefaultOnEmbedded(kind: string, lines: seq<string>): string {
    JoinWith(lines, "\n")
  }

  /** The lines of an embedded block can be read back from its default rendering. */
  lemma EmbeddedLinesRecoverable(kind: string, lines: seq<string>)
    requires |lines| >= 1
    requires forall k :: 0 <= k < |lines| ==> '\n' !in lines[k]
    ensures Split(DefaultOnEmbedded(kind, lines), '\n') == lines
  {
    SplitJoin(lines, '\n');
  }

  function DefaultOnKeyword(kind: string, value: string): string {
    "<span>" + value + "</span>"
  }

  function DefaultOnLine(line: string): string {
    "<p class=\"line\">" + line + "</p>"
  }

  // ---------------------------------------------------------------- paragraph

  /** The CSS class of a paragraph tag: quote for `>` and `|`, comment for `//`, none otherwise. */
  function ParagraphClass(kind: string): (r: string)
    ensures r == "quote" <==> kind == ">" || kind == "|"
    ensures r == "comment" <==> kind == "//"
    ensures r == "quote" || r == "comment" || r == ""
  {
    match kind
    case ">" => "quote"
    case "|" => "quote"
    case "//" => "comment"
    case _ => ""
  }

  function DefaultOnParagraph(kind: string, lines: seq<string>): string {
    "<p class=\"" + ParagraphClass(kind) + "\">" + JoinWith(lines, "<br />") + "</p>"
  }

  // ---------------------------------------------------------------- format

  /** The tag name of an emphasis class. */
  function FormatTag(kind: string): string {
    match kind
    case "**" => "em"
    case "*" => "i"
    case "__" => "strong"
    case "_" => "b"
    case _ => ""
  }

  /**
    The four emphasis classes wrap the value in their tag; any other class
    leaves the value as it is.
  */
  function DefaultOnFormat(kind: string, value: string): (r: string)
    ensures kind in {"**", "*", "__", "_"} ==>
      r == "<" + FormatTag(kind) + ">" + value + "</" + FormatTag(kind) + ">"
    ensures kind !in {"**", "*", "__", "_"} ==> r == value
  {
    match kind
    case "**" => "<em>" + value + "</em>"
    case "*" => "<i>" + value + "</i>"
    case "__" => "<strong>" + value + "</strong>"
    case "_" => "<b>" + value + "</b>"
    case _ => value
  }

  // ---------------------------------------------------------------- link

  /**
    The address a link points to: `url` itself when it starts with `http://` or
    `https://`, otherwise `url` behind an `http://` prefix.
  */
  function Href(url: string): (r: string)
    ensures ("http://" <= url || "https://" <= url) ==> r == url
    ensures !("http://" <= url || "https://" <= url) ==> r == "http://" + url
    ensures "http://" <= r || "https://" <= r
  {
    assert Substring(url, 0, 7) == "http://" <==> "http://" <= url;
    assert Substring(url, 0, 8) == "https://" <==> "https://" <= url;
    if Substring(url, 0, 7) != "http://" && Substring(url, 0, 8) != "https://" then
      assert "http://" <= "http://" + url;
      "http://" + url
    else url
  }

  /** A link; as in the source, the `href` attribute's closing quote is missing. */
  function DefaultOnLink(text: string, url: string): string {
    "<a href=\"" + Href(url) + ">" + text + "</a>"
  }

  /** A link built from `@`-free text and address holds no `@`. */
  lemma LinkWithoutAt(text: string, url: string)
    requires '@' !in text && '@' !in url
    ensures '@' !in DefaultOnLink(text, url)
  {
    var h := Href(url);
    assert '@' !in h by {
      if h != url {
        assert h == "http://" + url;
        assert forall k :: 0 <= k < 7 ==> h[k] != '@';
      }
    }
    var a := "<a href=\"";
    var m := ">";
    var e := "</a>";
    assert forall k :: 0 <= k < |a| ==> a[k] != '@';
    assert forall k :: 0 <= k < |e| ==> e[k] != '@';
    assert DefaultOnLink(text, url) == a + h + m + text + e;
  }

  // ---------------------------------------------------------------- image

  /** ` width="N"` when the parsed dimension is a number other than zero (`NaN` and 0 are falsy). */
  function Dimension(attribute: string, n: Option<int>): (r: string)
    ensures r == [] <==> n == None || n == Some(0)
  {
    if n.Some? && n.value != 0 then " " + attribute + "=\"" + IntToString(n.value) + "\"" else ""
  }

  function ImageTag(alt: string, src: string, width: Option<int>, height: Option<int>): string {
    "<img src=\"" + src + "\"" + Dimension("width", width) + Dimension("height", height)
    + " alt=\"" + alt + "\" border=\"0\" />"
  }

  /**
    `onImage` as written: with a link address it wraps the tag in an anchor;
    without one it evaluates the undefined identifier `img`, which throws a
    ReferenceError, modelled as `None`.
  */
  function DefaultOnImageAsWritten(alt: string, src: string, width: Option<int>, height: Option<int>, url: string): (r: Option<string>)
    ensures r.Some? <==> url != ""
  {
    if url != "" then Some("<a href=\"" + url + "\">" + ImageTag(alt, src, width, height) + "</a>")
    else None
  }

  /** The image without a link address makes the written callback throw. */
  lemma ImageWithoutLinkThrows()
    ensures DefaultOnImageAsWritten("logo", "logo.png", Some(0), Some(0), "") == None
  {
  }

  /**
    `onImage` as evidently intended: the bare tag without a link address, and
    otherwise exactly what the written callback returns.
  */
  function DefaultOnImage(alt: string, src: string, width: Option<int>, height: Option<int>, url: string): (r: string)
    ensures url != "" ==> DefaultOnImageAsWritten(alt, src, width, height, url) == Some(r)
    ensures url == "" ==> r == ImageTag(alt, src, width, height)
  {
    if url != "" then "<a href=\"" + url + "\">" + ImageTag(alt, src, width, height) + "</a>"
    else ImageTag(alt, src, width, height)
  }

  /** The alternative text appears in what `onImage` renders. */
  lemma ImageShowsAlt(alt: string, src: string, width: Option<int>, height: Option<int>, url: string)
    ensures Contains(ImageTag(alt, src, width, height), alt)
    ensures Contains(DefaultOnImage(alt, src, width, height, url), alt)
  {
    var pre := "<img src=\"" + src + "\"" + Dimension("width", width) + Dimension("height", height) + " alt=\"";
    var post := "\" border=\"0\" />";
    var tag := ImageTag(alt, src, width, height);
    assert tag == pre + alt + post;
    assert OccursAt(tag, alt, |pre|);
    if url != "" {
      var lead := "<a href=\"" + url + "\">";
      var out := DefaultOnImage(alt, src, width, height, url);
      assert out == lead + pre + alt + (post + "</a>");
      assert OccursAt(out, alt, |lead| + |pre|);
    }
  }

  // ---------------------------------------------------------------- list and key-value

  /** The `<li>` elements of the items, in order. */
  function ListItems(items: seq<Bullet>): string {
    if items == [] then ""
    else ListItems(items[..|items| - 1]) + "<li>" + items[|items| - 1].value + "</li>"
  }

  /** The items of two consecutive runs render as the two renderings side by side. */
  lemma {:induction false} ListItemsAppend(a: seq<Bullet>, b: seq<Bullet>)
    ensures ListItems(a + b) == ListItems(a) + ListItems(b)
  {
    if b == [] {
      assert a + b == a;
    } else {
      assert (a + b)[..|a + b| - 1] == a + b[..|b| - 1];
      ListItemsAppend(a, b[..|b| - 1]);
    }
  }

  function DefaultOnList(items: seq<Bullet>): string {
    "<ul>" + ListItems(items) + "</ul>"
  }

  /** The loop of the default `onList`, which accumulates one `<li>` per item. */
  method ListMarkup(items: seq<Bullet>) returns (html: string)
    ensures html == DefaultOnList(items)
  {
    var output := "";
    for i := 0 to |items|
      invariant output == ListItems(items[..i])
    {
      assert items[..i + 1][..i] == items[..i];
      output := output + "<li>" + items[i].value + "</li>";
    }
    assert items[..|items|] == items;
    html := "<ul>" + output + "</ul>";
  }

  /** The `<dt>`/`<dd>` pairs of the entries, in order. */
  function PairItems(items: seq<Pair>): string {
    if items == [] then ""
    else PairItems(items[..|items| - 1]) + "<dt>" + items[|items| - 1].key + "</dt><dd>" + items[|items| - 1].value + "</dd>"
  }

  lemma {:induction false} PairItemsAppend(a: seq<Pair>, b: seq<Pair>)
    ensures PairItems(a + b) == PairItems(a) + PairItems(b)
  {
    if b == [] {
      assert a + b == a;
    } else {
      assert (a + b)[..|a + b| - 1] == a + b[..|b| - 1];
      PairItemsAppend(a, b[..|b| - 1]);
    }
  }

  function DefaultOnKeyValue(items: seq<Pair>): string {
    "<dl>" + PairItems(items) + "</dl>"
  }

  /** The loop of the default `onKeyValue`, which accumulates one `<dt>`/`<dd>` pair per entry. */
  method KeyValueMarkup(items: seq<Pair>) returns (html: string)
    ensures html == DefaultOnKeyValue(items)
  {
    var output := "";
    for i := 0 to |items|
      invariant output == PairItems(items[..i])
    {
      assert items[..i + 1][..i] == items[..i];
      output := output + "<dt>" + items[i].key + "</dt><dd>" + items[i].value + "</dd>";
    }
    assert items[..|items|] == items;
    html := "<dl>" + output + "</dl>";
  }

  // ---------------------------------------------------------------- break and title

  /** A horizontal rule for `***` and `---`, a line break for everything else. */
  function DefaultOnBreak(kind: string): (r: string)
    ensures r == (if kind == "***" || kind == "---" then "<hr />" else "<br />")
  {
    match kind
    case "\n" => "<br />"
    case "***" => "<hr />"
    case "---" => "<hr />"
    case _ => "<br />"
  }

  predicate AllHashes(s: string) {
    forall i :: 0 <= i < |s| ==> s[i] == '#'
  }

  /**
    A marker of one to five `#` gives the heading of that level; any other
    marker falls back to the marker, a space and the text.
  */
  function DefaultOnTitle(kind: string, text: string): (r: string)
    ensures 1 <= |kind| <= 5 && AllHashes(kind) ==>
      r == "<h" + [DigitChar(|kind|)] + ">" + text + "</h" + [DigitChar(|kind|)] + ">"
    ensures !(1 <= |kind| <= 5 && AllHashes(kind)) ==> r == kind + " " + text
  {
    assert 1 <= |kind| <= 5 && AllHashes(kind) ==>
      kind == "#" || kind == "##" || kind == "###" || kind == "####" || kind == "#####";
    match kind
    case "#" => "<h1>" + text + "</h1>"
    case "##" => "<h2>" + text + "</h2>"
    case "###" => "<h3>" + text + "</h3>"
    case "####" => "<h4>" + text + "</h4>"
    case "#####" => "<h5>" + text + "</h5>"
    case _ => kind + " " + text
  }
}
