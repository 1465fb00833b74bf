# A verified model of the partial.js Markdown parser

`test/md.js` defines a `Markdown` object that turns a plain-text document into
HTML in two layers.

- A **block state machine** (`load`) reads the document line by line. Each line
  goes to the first detector that claims it, in this order: embedded block,
  break, list, key-value, paragraph, title. A line no detector claims is
  rendered as a plain line. The open block is buffered in `current` under
  `status` and `command`. `flush` renders it through the callback of its
  status.
- An **inline rewriter** (`parseOther`) runs four passes over a line: links,
  images, emphasis and bare links. Each pass replaces what it matches by a
  placeholder token `@##n;` and stores the rendered value in the table `tmp`.
  At the end each entry's token is replaced by its value, in table order. A
  token holds no bracket and no emphasis delimiter, so a later pass never
  matches inside one; but when a later pass stores a value that contains an
  earlier token, that token is never restored (see below).

Rendering goes through the `on*` callbacks. The constructor installs defaults
that a caller can replace.

The model has nine modules:

| file | module | what it holds |
|---|---|---|
| `wrappers.dfy` | `Wrappers` | `Option` |
| `js_string.dfy` | `JsString` | the JavaScript string operations the parser relies on (see below) |
| `render.dfy` | `Render` | the default callbacks, and the `Renderer` record that holds a callback set |
| `placeholder.dfy` | `Placeholder` | the placeholder tokens and the restoration loop, with the theorem that restoration puts each value where its token stood when no stored value holds a token |
| `scan.dfy` | `Scan` | exact scanners for `REG_LINK_1` and `REG_FORMAT`, and the delimiter-stripping patterns |
| `inline.dfy` | `Inline` | every rewriting loop as a fold over its match list, `parseOther` as a function, and lemmas on concrete inputs |
| `blocks.dfy` | `Blocks` | the detectors, `flush`, one iteration of `load`, runs of iterations and `load` as functions on a `State` value, with the state invariant and its proofs |
| `parser.dfy` | `Parser` | the class `Markdown`, with the source's fields and its imperative methods (loops included); each method is proved to compute what the `Blocks` and `Inline` functions define |
| `scenarios.dfy` | `Scenarios` | concrete lines and a two-line document that show the parser's literal behaviour |

`JsString` covers `trim`, `indexOf`, `lastIndexOf`, `substring` (which clamps
and swaps its bounds), `s[i] || ''`, `replace` with a string pattern (first
occurrence only), `split`, `join`, `String(n)` and `parseInt(_, 10)`.

The block functions take the inline rewriter as a parameter: `Config.rewrite`
returns the rewritten text and the table the call leaves in `tmp`. The class
fixes that parameter to `Inline.ParseOther`, and its predicate `Valid()`
records the fact. The regular expressions `REG_LINK_2`, `REG_IMAGE`,
`REG_LINK_3` and `REG_LINK_4` enter only through their match lists, as the
arrows of `Inline.Patterns`.

The model follows the code where the code differs from what the parser is
documented to do:

- **`//` lines are never paragraph lines.** At md.js:337 the code writes
  `has == …`, a comparison, where an assignment was meant, so `has` stays
  false. See `Blocks.ParagraphClaims` and `Scenarios.CommentIsNotParagraph`.
- **List text starts at index 3.** It starts one character after the marker's
  space (md.js:272).
- **Entering a paragraph leaves `command` empty.** The flush at md.js:355 clears
  the command that was just set.
- **A heading flushes the block but keeps its status.** So the final flush of
  `load` renders the block a second time, now empty (md.js:395-396, 193-194).
- **The default `onLink` drops the closing quote** of its `href` attribute
  (md.js:75).
- **A token inside a later match stays in the output.** In `[![<a>](b)](c)` the
  angle-link pass turns `<a>` into `@##0;` inside the image's alternative text.
  The bracket-link pass skips its one match, which starts with `[![`. The image
  pass then matches the whole rewritten line and stores, as entry 1, an image
  whose alternative text is `@##0;`. Restoration handles entry 0 while `@##0;`
  is not yet in the text (md.js:423-428), so `@##0;` is left in the result. See
  `Inline.NestedImageKeepsToken` and `Inline.NestedImageLeaksToken`.
  `REG_LINK_3` admits `@` and `#` (md.js:12), so a bare address directly before
  a token can take part of it into its link in the same way.

## Model

| member | source | states |
|---|---|---|
| JsString.Trim | test/md.js:317 | `trim` keeps a trimmed string unchanged and never lengthens its input |
| JsString.TrimTrimmed | test/md.js:360 | what `trim` returns neither starts nor ends with white space |
| JsString.TrimAround | test/md.js:498-499 | trimming removes exactly the white space around a trimmed core |
| JsString.IndexOf | test/md.js:279-282 | `indexOf` is -1 exactly when the character is absent; otherwise it is an index holding the character |
| JsString.IndexOfFrom | test/md.js:597 | `indexOf(c, from)` finds the first occurrence at or after the clamped start, or -1 |
| JsString.IndexOfAfter | test/md.js:491 | the first `c` in `p + c + t` is at `\|p\|` when `p` lacks `c` |
| JsString.LastIndexOf | test/md.js:586 | `lastIndexOf` is an index holding the character with none after it, or -1 |
| JsString.Substring | test/md.js:284 | `substring` with bounds in order and in range is the slice; it is never longer than its input |
| JsString.SubstringPrefix | test/md.js:204 | `line.substring(0, \|p\|) === p` holds exactly when `p` is a prefix of `line` |
| JsString.CharAt | test/md.js:257-258 | `s[i] \|\| ''` is one character exactly when `i` is in range, that character, and otherwise empty |
| JsString.FindFirst | test/md.js:427 | the string search of `replace` finds the first occurrence, or -1 exactly when there is none |
| JsString.ReplaceAbsent | test/md.js:427 | `replace` without an occurrence returns its input |
| JsString.ReplaceFirstOccurrence | test/md.js:473 | `replace` rewrites exactly the first occurrence of its pattern |
| JsString.ReplaceWhole | test/md.js:615 | replacing a whole text by a token gives the token |
| JsString.Replace | test/md.js:427 | `replace` with a string pattern; its properties are JsString.ReplaceAbsent, JsString.ReplaceFirstOccurrence and JsString.ReplaceWhole |
| JsString.JoinWith | test/md.js:23 | joining no parts gives the empty string and joining one part gives that part |
| JsString.Split | test/md.js:157 | `split` returns at least one piece, no piece holds the separator, and the pieces join back to the input |
| JsString.SplitJoin | test/md.js:157 | splitting a joined list of separator-free pieces gives the pieces back |
| JsString.SplitStep | test/md.js:602 | a separator-free piece before the first separator is the first piece of the split |
| JsString.NatToString | test/md.js:652 | `String(n)` is a non-empty digit string whose value is `n` |
| JsString.NatToStringInjective | test/md.js:652 | distinct numbers have distinct numerals |
| JsString.IntToString | test/md.js:652 | `parseInt` reads `String(n)` back as `n` for every integer, and only a negative number is written with a sign |
| JsString.ParseIntNegative | test/md.js:615 | a minus sign in front of a numeral parses to the negated number |
| JsString.ParseIntNatToString | test/md.js:615 | `parseInt` reads back any numeral `String(n)` writes |
| JsString.ParseIntDigits | test/md.js:615 | `parseInt` of a non-empty digit string is its value |
| JsString.ParseIntNaN | test/md.js:615 | `parseInt` is `NaN` when no sign or digit starts the text after white space |
| JsString.ParseInt | test/md.js:615 | `parseInt(_, 10)`; its properties are JsString.ParseIntDigits, JsString.ParseIntNaN, JsString.ParseIntNatToString and the round trip of JsString.IntToString |
| Render.EmbeddedLinesRecoverable | test/md.js:22-24 | the default `onEmbedded` output splits back into the block's lines |
| Render.ParagraphClass | test/md.js:35-47 | the paragraph class is `quote` exactly for `>` and `\|`, `comment` exactly for `//`, and empty otherwise |
| Render.DefaultOnFormat | test/md.js:54-68 | the four emphasis classes wrap the value in `em`, `i`, `strong` or `b`; any other class returns the value |
| Render.Href | test/md.js:72-73 | a link target always starts with `http://` or `https://`; one that already does is unchanged |
| Render.Dimension | test/md.js:79 | the width or height attribute is absent exactly when the parsed number is `NaN` or 0 |
| Render.DefaultOnImageAsWritten | test/md.js:78-85 | the written `onImage` returns a value exactly when there is a link address |
| Render.ImageWithoutLinkThrows | test/md.js:84 | an image without a link address makes the written callback fail |
| Render.DefaultOnImage | test/md.js:78-85 | the corrected `onImage` agrees with the written one when there is a link address, and returns the bare tag otherwise |
| Render.ListItemsAppend | test/md.js:92-95 | the list items of two runs render side by side |
| Render.ListMarkup | test/md.js:87-99 | the loop of `onList` produces one `<li>` per item, in order, inside `<ul>` |
| Render.PairItemsAppend | test/md.js:106-109 | the key-value entries of two runs render side by side |
| Render.KeyValueMarkup | test/md.js:101-112 | the loop of `onKeyValue` produces one `<dt>`/`<dd>` pair per entry, in order, inside `<dl>` |
| Render.LinkWithoutAt | test/md.js:70-76 | a link built from text and an address without `@` holds no `@`, so it cannot be taken for a token |
| Render.ImageShowsAlt | test/md.js:78-85 | the alternative text appears in the image's markup, with or without a link address |
| Render.DefaultOnLink | test/md.js:70-76 | the default `onLink`; its address is Render.Href |
| Render.DefaultOnParagraph | test/md.js:30-48 | the default `onParagraph`; its class is Render.ParagraphClass |
| Render.DefaultOnEmbedded | test/md.js:22-24 | the default `onEmbedded`; Render.EmbeddedLinesRecoverable gives the lines back |
| Render.DefaultOnList | test/md.js:87-99 | the default `onList`; Render.ListMarkup and Render.ListItemsAppend state its markup |
| Render.DefaultOnKeyValue | test/md.js:101-112 | the default `onKeyValue`; Render.KeyValueMarkup and Render.PairItemsAppend state its markup |
| Render.DefaultOnLine | test/md.js:50-52 | the default `onLine`, a paragraph of the line; Blocks.PlainLineKeepsBlock states where it is used |
| Render.DefaultOnBreak | test/md.js:114-125 | `***` and `---` give a horizontal rule, and anything else a line break |
| Render.DefaultOnTitle | test/md.js:127-143 | one to five `#` give the heading of that level; any other marker gives the marker, a space and the text |
| Placeholder.Token | test/md.js:8 | a token is at least five characters, and its only `@` is its first character |
| Placeholder.GetReplace | test/md.js:650-655 | `getReplace` appends exactly one entry, keyed by the next token and holding the value, and keeps the table keyed by position |
| Placeholder.TokenPrefix | test/md.js:652 | a token starts another token only when the two numbers agree |
| Placeholder.TokensApart | test/md.js:652 | tokens of distinct entries are distinct, and none occurs inside another |
| Placeholder.LiteralTokenCaptures | test/md.js:423-429 | a token that was already in the input captures the value meant for the inserted token |
| Placeholder.FillReplace | test/md.js:427 | one restoration step resolves exactly the token of its entry |
| Placeholder.RestoreFromTemplate | test/md.js:424-428 | the restoration loop from entry `i` on resolves every remaining entry |
| Placeholder.FillResolved | test/md.js:423-429 | once every entry is resolved, no `@` is left |
| Placeholder.RestoreResolvesAll | test/md.js:423-429 | when the text is `@`-free apart from tokens, each at most once, restoration puts every value where its token stood and leaves no token |
| Scan.Repeat | test/md.js:15 | a run of `n` copies of a delimiter |
| Scan.CloseFrom | test/md.js:10 | the lazy wildcard stops at the first reachable closing character, and fails only when none is reachable |
| Scan.ScanLink1 | test/md.js:10 | every `REG_LINK_1` match starts with `<`, ends with `>` and has at least two characters |
| Scan.Link1None | test/md.js:463-475 | text without `<` has no angle-bracket link |
| Scan.Link1Single | test/md.js:10 | an address in angle brackets between bracket-free text is the one match, found whole |
| Scan.ScanFormat | test/md.js:15 | every `REG_FORMAT` match opens and closes with the same delimiter and has at least two characters |
| Scan.FormatNone | test/md.js:436-438 | text without `*` and `_` has no emphasis match |
| Scan.FormatAtSpan | test/md.js:15 | an opening run, text without the delimiter and a closing run of the same length form one match |
| Scan.FormatSingle | test/md.js:15 | an emphasis span between delimiter-free text is the one match, found whole |
| Scan.StripDelims | test/md.js:450 | stripping the delimiters never lengthens the match |
| Scan.StripAround | test/md.js:450-453 | one or two delimiters on each side are removed exactly |
| Scan.StripThreeUnderscores | test/md.js:453 | three underscores on each side leave one on each side |
| Scan.Link1At | test/md.js:10 | the `REG_LINK_1` match at one position; see Scan.ScanLink1 and Scan.Link1Single |
| Scan.FormatAt | test/md.js:15 | the `REG_FORMAT` match at one position, `*` tried first; see Scan.FormatAtSpan |
| Scan.DelimFrom | test/md.js:15 | a delimiter run and its lazy close; see Scan.FormatAtSpan |
| Inline.Fold | test/md.js:443-456 | a rewriting loop only appends to the table: one entry per match it does not skip, and it keeps the table keyed by position |
| Inline.FoldStep | test/md.js:470-474 | one iteration either skips its match or replaces it by the next token and pushes the entry |
| Inline.Passes | test/md.js:411-421 | the four passes build a table keyed by position |
| Inline.ParseOther | test/md.js:404-432 | `parseOther` is the restoration of the passes' text through the table they built, starting from an empty table |
| Inline.TokenInert | test/md.js:652 | a token holds no bracket and no emphasis delimiter, so no later pass matches inside it |
| Inline.SubstituteFirst | test/md.js:473 | the matched text is replaced where it first occurs |
| Inline.FoldSingle | test/md.js:470-474 | a loop over one match replaces it by token 0 of the fresh table |
| Inline.RestoreSingle | test/md.js:423-429 | a single token between `@`-free text is restored to its value |
| Inline.RestoreAlone | test/md.js:423-429 | a text that is one token is restored to its value |
| Inline.PlainTextUnchanged | test/md.js:404-432 | when none of the six regular expressions matches the line, `parseOther` returns it unchanged and leaves the table empty |
| Inline.PlainTextScans | test/md.js:10-15 | a line without `<`, `*` and `_` gives `REG_LINK_1` and `REG_FORMAT` nothing to match |
| Inline.AngleLinkRendered | test/md.js:461-475 | `<url>` in plain text becomes `onLink(url, url)` in place, through exactly one table entry, when the other passes find nothing on the texts they see |
| Inline.FormatValueSpan | test/md.js:446-455 | a span with one or two delimiters is rendered by `onFormat` of its class and its inner text |
| Inline.FormatAct | test/md.js:449-455 | the format pass replaces such a span by its rendering |
| Inline.FormatPass | test/md.js:434-459 | the format pass turns the one span of a line into the first token |
| Inline.FormatRendered | test/md.js:404-459 | `parseOther` renders the one emphasis span of a plain line in place, when the other passes find nothing on the texts they see |
| Inline.BareLinkFirstLoop | test/md.js:524-537 | a `REG_LINK_3` match, trimmed, is replaced by the next token for a link to itself, and `REG_LINK_4` is asked about the text that replacement left |
| Inline.BareLinkSecondLoop | test/md.js:539-550 | a `REG_LINK_4` match, when `REG_LINK_3` finds none, is replaced by the next token for a link to itself |
| Inline.BareLinkRendered | test/md.js:404-432 | a bare address in a plain line becomes `onLink(o, o)` in place, through exactly one table entry |
| Inline.WwwPasses | test/md.js:411-421 | a line that only `REG_LINK_4` matches, whole, becomes the first token |
| Inline.WwwLinkRendered | test/md.js:539-550 | a line that is only a `www.` address becomes, with the default callbacks, a link to itself behind `http://` |
| Inline.AngleLinkPass | test/md.js:463-475 | the angle-link loop over `x<u>y` replaces the address by the next token for `onLink(u, u)` |
| Inline.NestedLinkPass | test/md.js:461-522 | in `[![<u>` followed by bracket-free text the angle link becomes the next token and the bracket-link match starting with `[![` is skipped |
| Inline.NestedBracketSkipped | test/md.js:488-489 | the bracket-link loop skips a match that starts with `[![` |
| Inline.LinkedImagePass | test/md.js:555-619 | a linked image `[![t](b)](c)` alone is replaced whole by the next token for `onImage(t, b, 0, 0, c)` |
| Inline.RestoreSecondOnly | test/md.js:423-429 | restoring token 1 through a two-entry table gives entry 1's value, whatever it holds |
| Inline.NestedImageKeepsToken | test/md.js:404-432 | `parseOther` of `[![<u>](b)](c)` is `onImage` with the token `@##0;` as its alternative text |
| Inline.NestedImageLeaksToken | test/md.js:423-429 | with the default callbacks that result still holds the token `@##0;` |
| Inline.BracketLinkAt | test/md.js:484-499 | a bracket-link match not skipped is read from its label up to the first `]` and the trimmed rest |
| Inline.BracketLinkSplit | test/md.js:488-499 | `[caption]rest` splits into the trimmed caption and the trimmed rest |
| Inline.LinkSubTrimmed | test/md.js:511-518 | a trailing `,` or `.` leaves the address and follows the link |
| Inline.LinkSubPlain | test/md.js:518 | an address without trailing punctuation is kept whole |
| Inline.BracketLinkTargetParen | test/md.js:501-509 | for `(url` the replaced text gains the closing parenthesis |
| Inline.BracketLinkTargetColon | test/md.js:501-506 | for `: url` the replaced text is the match itself |
| Inline.BracketLinkParen | test/md.js:484-519 | `[caption](url` becomes a link from the caption, rendered without placeholders, to the address |
| Inline.BracketLinkColon | test/md.js:484-519 | `[caption]: url` becomes a link from the caption to the address |
| Inline.ImageTargetParts | test/md.js:582-592 | an image match that ends at its last `)` is replaced whole, by `onImage` of the trimmed alternative text and the fields of its address part |
| Inline.TrimParen | test/md.js:580 | a parenthesised part keeps its parentheses under `trim` |
| Inline.ImageOpen | test/md.js:570-580 | the alternative text of `![alt](` or `[![alt](` is what lies between the opening and the first `]` |
| Inline.ImageActionAt | test/md.js:570-580 | an image match is read from the start of its alternative text and the index of `]` |
| Inline.ImageMatch | test/md.js:555-619 | an image match carries the fields read from its address part |
| Inline.NoDimensions | test/md.js:615 | a missing dimension reads as 0 |
| Inline.PlainImageUrl | test/md.js:593-613 | `src)` gives the address, no dimensions and no link |
| Inline.ImagePlain | test/md.js:555-619 | `![alt](src)` is an image without dimensions or link |
| Inline.SizedImageUrl | test/md.js:593-615 | `src#WxH)` gives the address and the two numbers |
| Inline.SizedImageIndices | test/md.js:593-597 | the index of `#` and of the closing `)` in `src#WxH)`, and that no `(` follows |
| Inline.SizedImageDimensions | test/md.js:601-603 | `WxH` is split at `x` into the width and the height |
| Inline.ImageSized | test/md.js:555-619 | `![alt](src#WxH)` gets width W and height H |
| Inline.LinkedImageUrl | test/md.js:607-613 | `src)](href)` gives the address and the outer link |
| Inline.ImageLinked | test/md.js:555-619 | `[![alt](src)](href)` is an image wrapped in a link to `href` |
| Inline.Act | test/md.js:461-553 | what each rewriting loop does with one match; stated per pass by the lemmas below |
| Inline.AngleLinkAction | test/md.js:469-474 | a `REG_LINK_1` match is replaced by a link to the text between its brackets; see Inline.AngleLinkRendered |
| Inline.BracketLinkAction | test/md.js:484-499 | the skips of the bracket-link loop and its label; see Inline.BracketLinkSplit, Inline.BracketLinkParen and Inline.BracketLinkColon |
| Inline.BracketLinkTarget | test/md.js:501-509 | `(` or `:` after the label; see Inline.BracketLinkTargetParen and Inline.BracketLinkTargetColon |
| Inline.LinkSub | test/md.js:511-519 | the trailing-punctuation cut; see Inline.LinkSubTrimmed and Inline.LinkSubPlain |
| Inline.ImageAction | test/md.js:569-580 | the image match up to `]`; see Inline.ImageOpen and Inline.ImageActionAt |
| Inline.ImageTarget | test/md.js:579-592 | what follows `]` in an image match; see Inline.ImageTargetParts |
| Inline.ImageFieldsOf | test/md.js:592-615 | the address, dimensions and link of an image; see Inline.PlainImageUrl, Inline.SizedImageUrl and Inline.LinkedImageUrl |
| Inline.FormatValue | test/md.js:446-455 | the class and text of an emphasis match; see Inline.FormatValueSpan |
| Inline.FormatDirect | test/md.js:434-459 | `parseFormat(text, true)`, used for link labels; Parser.Markdown.ParseFormat computes it |
| Inline.ParseLink | test/md.js:461-522 | `parseLink`; see Inline.AngleLinkRendered and Inline.NestedLinkPass |
| Inline.ParseImage | test/md.js:555-619 | `parseImage`; see Inline.ImageMatch and Inline.LinkedImagePass |
| Inline.ParseFormat | test/md.js:434-459 | `parseFormat(text)`; see Inline.FormatPass |
| Inline.ParseLinkInline | test/md.js:524-553 | `parseLinkInline`; see Inline.BareLinkFirstLoop and Inline.BareLinkSecondLoop |
| Blocks.Texts | test/md.js:665 | the text lines handed to `onEmbedded` and `onParagraph`, one per buffered element |
| Blocks.Bullets | test/md.js:672 | the list items handed to `onList`, one per buffered element |
| Blocks.Pairs | test/md.js:679 | the key-value entries handed to `onKeyValue`, one per buffered element |
| Blocks.FlushValid | test/md.js:657-693 | `flush` appends the rendering for the status, empties the buffer and the command, keeps the status, and restores the invariant |
| Blocks.EmitBuffered | test/md.js:661-689 | the empty status renders nothing; an open block renders what it buffered, in order, each element of its own kind |
| Blocks.EmbeddedOpens | test/md.js:203-223 | outside an embedded block, exactly the lines starting with the fence and a space open one; the command is the rest of the line |
| Blocks.EmbeddedInside | test/md.js:212-228 | inside an embedded block every line is claimed: a fence line renders and closes it, any other line is buffered unchanged |
| Blocks.BreakCloses | test/md.js:231-251 | exactly the empty line, `***` and `---` are breaks; a break renders the open block, then the break, and leaves the empty status |
| Blocks.ListClaims | test/md.js:253-274 | exactly `-`, `+` or `x` followed by a space is a list line; the item is the marker and the rewritten text from index 3; only a change of status flushes |
| Blocks.KeyValueClaims | test/md.js:276-319 | exactly a line with an indented key before its first `:` is a key-value line; key and value are trimmed and rewritten; only a change of status flushes |
| Blocks.ParagraphClaims | test/md.js:321-363 | exactly `>` or `\|` followed by a space is a paragraph line; a different command inside a paragraph renders it; entering a paragraph leaves the command empty; the text is trimmed from index 1 and rewritten |
| Blocks.TitleClaims | test/md.js:365-402 | a title is `#` with a space, or an underlined line; it keeps the status, empties the buffer, sets `skip` only when underlined, and keeps the invariant |
| Blocks.AtxHeading | test/md.js:383-399 | a `#` heading renders `onTitle` of its marker and the text after it, behind the flushed block |
| Blocks.SetextHeading | test/md.js:371-381 | an underlined heading is level one for `=` and two for `-`, uses the whole line, and sets `skip` |
| Blocks.EmbeddedStep | test/md.js:171-172 | inside an embedded block no other detector sees the line |
| Blocks.PlainLineKeepsBlock | test/md.js:189-190 | a line no detector claims keeps the block and appends `onLine` of the rewritten line |
| Blocks.StepValid | test/md.js:162-191 | every iteration of `load` keeps the invariant: elements fit the status, and the empty status buffers nothing and has no command |
| Blocks.ListValid | test/md.js:272 | a list line keeps the invariant |
| Blocks.KeyValueValid | test/md.js:317 | a key-value line keeps the invariant |
| Blocks.ParagraphValid | test/md.js:360 | a paragraph line keeps the invariant |
| Blocks.StepOutputGrows | test/md.js:162-191 | an iteration only appends to the output |
| Blocks.LateStepOutputGrows | test/md.js:180-191 | a line reaching the key-value detector only appends to the output |
| Blocks.EmptyOnlyAfterFlush | test/md.js:213-214 | a block reaches the empty status only through a flush: it is rendered and the buffer emptied |
| Blocks.LastStepClearsSkip | test/md.js:186 | the last line never leaves `skip` set, since an underline needs a next line |
| Blocks.RunSplit | test/md.js:162 | running two consecutive ranges of lines is running their union |
| Blocks.RunLast | test/md.js:162-191 | the last iteration of a run is one more step |
| Blocks.RunValid | test/md.js:162-191 | the invariant holds after any number of iterations |
| Blocks.RunOutputGrows | test/md.js:162-191 | the output before a run is a prefix of the output after it |
| Blocks.TextItems | test/md.js:226 | lines buffered as text give back those lines |
| Blocks.EmbeddedBody | test/md.js:225-226 | inside an embedded block, non-fence lines are buffered verbatim, in order, and nothing is rendered |
| Blocks.EmbeddedBlock | test/md.js:199-229 | a whole embedded block renders the open block, then `onEmbedded` of the command and the raw lines in between, and leaves the empty status |
| Blocks.ListItemsOf | test/md.js:272 | the list items of consecutive list lines, one per line |
| Blocks.ListRun | test/md.js:253-274 | consecutive list lines inside a list buffer their items in order and render nothing |
| Blocks.LoadDrains | test/md.js:193-196 | after `load` nothing is buffered, there is no command, no skip is pending, and the invariant holds |
| Blocks.LoadOutput | test/md.js:160 | `load` renders from scratch, and its output begins with what the lines rendered before the final flush |
| Blocks.Step | test/md.js:162-191 | one iteration of `load`; see Blocks.StepValid, Blocks.StepOutputGrows, Blocks.EmbeddedStep and Blocks.PlainLineKeepsBlock |
| Blocks.Run | test/md.js:162-191 | the iterations over a range of lines; see Blocks.RunSplit, Blocks.RunLast, Blocks.RunValid and Blocks.RunOutputGrows |
| Blocks.After | test/md.js:162-191 | the last iteration of a non-empty range; see Blocks.RunLast |
| Blocks.Load | test/md.js:154-197 | `load`; see Blocks.LoadDrains and Blocks.LoadOutput |
| Blocks.Flush | test/md.js:657-693 | `flush`; see Blocks.FlushValid |
| Blocks.Emit | test/md.js:661-689 | what `flush` renders; see Blocks.EmitBuffered |
| Blocks.EmbeddedLine | test/md.js:199-229 | `parseEmbedded`; see Blocks.EmbeddedOpens and Blocks.EmbeddedInside |
| Blocks.BreakLine | test/md.js:231-251 | `parseBreak`; see Blocks.BreakCloses |
| Blocks.ListLine | test/md.js:253-274 | `parseList`; see Blocks.ListClaims and Blocks.ListValid |
| Blocks.KeyValueLine | test/md.js:276-319 | `parseKeyValue`; see Blocks.KeyValueClaims and Blocks.KeyValueValid |
| Blocks.ParagraphLine | test/md.js:321-363 | `parseParagraph`; see Blocks.ParagraphClaims and Blocks.ParagraphValid |
| Blocks.TitleLine | test/md.js:365-402 | `parseTitle`; see Blocks.TitleClaims |
| Blocks.Heading | test/md.js:371-399 | the heading a title line renders; see Blocks.AtxHeading and Blocks.SetextHeading |
| Blocks.PlainLine | test/md.js:189-190 | a line no detector claims; see Blocks.PlainLineKeepsBlock |
| Parser.Markdown.constructor | test/md.js:18-152 | a new parser has the default fence and callbacks, the initial state, and ties `rewrite` to `parseOther` |
| Parser.Markdown.Custom | test/md.js:18-152 | a parser with a caller's fence and callbacks starts in the initial state |
| Parser.Markdown.GetReplace | test/md.js:650-655 | `getReplace` returns the next token and pushes its entry, changing nothing else |
| Parser.Markdown.ParseFormat | test/md.js:434-459 | the emphasis loop: with `flush` it renders in place and leaves `tmp` alone, otherwise it leaves placeholders as the format fold does |
| Parser.Markdown.Rewrite | test/md.js:470-474 | the loop of each link and image pass computes the fold over its matches |
| Parser.Markdown.ParseLink | test/md.js:461-522 | `parseLink` runs the angle-bracket loop, then the bracket loop over the matches of the original text |
| Parser.Markdown.ParseImage | test/md.js:555-619 | `parseImage` is the image fold |
| Parser.Markdown.ParseLinkInline | test/md.js:524-553 | `parseLinkInline` runs the `REG_LINK_3` loop, then the `REG_LINK_4` loop over the text it left |
| Parser.Markdown.ParseOther | test/md.js:404-432 | `parseOther` empties `tmp`, runs the four passes and the restoration loop, and returns the rewritten line |
| Parser.Markdown.Flush | test/md.js:657-693 | `flush` updates the fields as the flush function defines |
| Parser.Markdown.ParseEmbedded | test/md.js:199-229 | `parseEmbedded` claims a line exactly when the embedded detector does, and then moves to its state |
| Parser.Markdown.ParseBreak | test/md.js:231-251 | `parseBreak` claims a line exactly when the break detector does, and then moves to its state |
| Parser.Markdown.ParseList | test/md.js:253-274 | `parseList` claims a line exactly when the list detector does, and then moves to its state |
| Parser.Markdown.ParseKeyValue | test/md.js:276-319 | `parseKeyValue`, with its counting loop, claims a line exactly when the key-value detector does, and then moves to its state |
| Parser.Markdown.ParseParagraph | test/md.js:321-363 | `parseParagraph` claims a line exactly when the paragraph detector does, and then moves to its state |
| Parser.Markdown.ParseTitle | test/md.js:365-402 | `parseTitle` claims a line exactly when the title detector does, and then moves to its state |
| Parser.Markdown.Load | test/md.js:154-197 | the loop of `load` runs every line through one iteration, flushes the open block once, and returns the output |
| Parser.KeyIndented | test/md.js:287-308 | the counting loop finds a tab, or three spaces in a row, in the key exactly when there is one |
| Parser.IndentedCount | test/md.js:307 | the counters the loop stops with decide indentation |
| Parser.KeyValueFrom | test/md.js:310-317 | after the status change, pushing the rewritten key and value is the key-value detector's state |
| Parser.HeadingFrom | test/md.js:395-399 | after the flush, rendering `onTitle` is the heading the title detector defines |
| Scenarios.ListItemDropsFirstCharacter | test/md.js:272 | the item of `- item` is `tem`: the character after the space is lost |
| Scenarios.CommentIsNotParagraph | test/md.js:336-339 | `// note` is never a paragraph line |
| Scenarios.ListThenHeadingFirst | test/md.js:253-274 | the first line of `- a` / `# T` opens a list with one item |
| Scenarios.HeadingLineReachesTitle | test/md.js:171-186 | no detector before the title detector claims `# T` |
| Scenarios.HeadingAfterList | test/md.js:395-399 | the heading renders the list and keeps the list status, so a further flush renders an empty list |
| Scenarios.ListThenHeadingRun | test/md.js:162-191 | the two iterations over `- a` / `# T` |
| Scenarios.HeadingAfterListLeavesEmptyList | test/md.js:154-197 | `load` of `- a` / `# T` renders the list, the heading, and then an empty list |

## Left out

- The callbacks are fixed when the object is built (`renderer`), and they are pure functions: reassigning an `on*` field between calls is not modelled. A callback set to `null` is `None`; this applies to those the code tests before calling.
- Regular expressions: `REG_LINK_2`, `REG_IMAGE`, `REG_LINK_3` and `REG_LINK_4` are not interpreted. Their match lists are arrows of `Inline.Patterns`. A lemma about a whole line states, as a precondition, which list each of these expressions gives on each text its pass sees, so it holds for any regular expression that gives those lists. `REG_LINK_1`, `REG_FORMAT` and the stripping patterns are scanned exactly.
- `replace` treats its replacement as a literal. The code inserts rendered values, where a `$` pattern would be expanded; that expansion is not modelled.
- `parseKeyword` and `REG_KEYWORD` are not modelled, because nothing calls them. `onKeyword` is kept only as a callback.
- The `id` argument of `load`, the `id` field, `exports`, `require('../utils')` and the download-file example are not part of this model.
- Strings are sequences of Unicode scalar values, not UTF-16 code units. They differ only outside the Basic Multilingual Plane, for example in `line[0].charCodeAt(0) > 64` and in `length`.
- `parseInt` is modelled on unbounded integers, without double-precision rounding. `NaN` is `None`.
- Parser.Markdown.ParseTitle: requires a non-empty line. The code reads `line[0].charCodeAt(0)`, which throws on an empty line, but `load` never gets there: `parseBreak` claims every empty line first.
- Parser.Markdown.Rewrite: the bracket-link and image loops take their per-match statements from `Inline.BracketLinkAction` and `Inline.ImageAction`, evaluated as expressions, rather than restating them statement by statement; the order of those statements is not modelled separately.
- Parser.Markdown.ParseFormat: the `flush` variant (used for link labels) is tied to `Inline.FormatDirect`; the bracket-link action calls that function rather than the method.
- Placeholder.RestoreResolvesAll: it assumes that no stored value holds `@`, which the code does not ensure; `Inline.NestedImageLeaksToken` shows a line where a stored value holds a token that is then never restored.
- Exceptions are not modelled. The one the default `onImage` raises is the finding below.

## Findings

| source | as written | input that shows it | evidently intended | confidence | as-written member | corrected member |
|---|---|---|---|---|---|---|
| test/md.js:84 | the default `onImage` returns the undefined identifier `img` when there is no link address, which throws a ReferenceError | `![logo](logo.png)`, that is `onImage("logo", "logo.png", 0, 0, "")` | return the bare `<img>` tag built on line 79 | high (not executed) | Render.DefaultOnImageAsWritten, Render.ImageWithoutLinkThrows | Render.DefaultOnImage |

`Render.Default()` installs the corrected `onImage`, which the rest of the model uses.
