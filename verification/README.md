# A verified model of example-html-parser

This project models the three pipeline stages of the small JavaScript HTML
parser `gvanastasov/example-html-parser` in Dafny and proves properties of
them. The three stages are:

- **The tokenizer** of `src/html-tokenizer.mjs`. It turns a trimmed string
  into `TAG_OPEN`, `TAG_CLOSE`, `TEXT`, `COMMENT` and `DOCTYPE` records.
  - A `/>` start tag becomes an open record followed by a synthetic close record.
  - An unknown `<!…` throws.
- **The tree builder** `HTMLParser.parse` and the selector engine
  `HTMLNode.getAttribute` / `querySelector` / `traverse` / `matchesSelector`,
  both in `src/html-parser.mjs`.
- **The older tokenizer** of `src/html-tokenizer.js`. Nothing imports it. It
  does not trim, has no doctype or self-closing path and throws no error of
  its own. Its loops all stop, but skipping whitespace is a recursive call per
  character, so only the call stack limits it (see "Left out").

Scanners are pure functions from a string and a cursor to a value and the next
cursor. The tree is an immutable value. A position in the tree is a path of
child indices.

Modules:

| module | file | contents |
|---|---|---|
| `Chars` | chars.dfy | JavaScript's `\s` class, `trim`, `split`/`join` on one character, run and substring searches |
| `Tokens` | tokens.dfy | the token records and the shape every emitted token has |
| `Tokenizer`, `TokenizerFacts`, `TokenizerExamples` | tokenizer.dfy, tokenizer_facts.dfy | the `.mjs` tokenizer, the effect of single scanning steps, whole documents |
| `LegacyTokenizer`, `LegacyFacts` | legacy_tokenizer.dfy | the `.js` tokenizer and its quirks |
| `Dom` | dom.dfy | `HTMLNode`, `getAttribute`, paths and document order |
| `Selector` | selector.dfy | `matchesSelector` and the split of a selector string |
| `Query`, `QueryFacts` | query.dfy, query_facts.dfy | `traverse` and `querySelector`, and what a search finds |
| `Parser`, `ParserFacts`, `Examples` | parser.dfy, parser_facts.dfy | the tree builder, how the current node moves, whole inputs |

The tree builder's `currentNode` is always on the rightmost path of the tree:
each node it appends becomes the last child of the current node. So the builder
is a tree plus the depth of the current node on that path. A close tag moves up
one level, and at the root it changes nothing.

A selector search returns the paths of the nodes the source pushes onto
`results`, in push order. `QuerySelector` maps those paths to nodes. A
`TypeError` the source would raise is an explicit outcome, so nothing needs a
precondition. There are two such errors:

- `value.replace` on `undefined`. It happens for a component that reaches the
  attribute test and whose first bracket pair holds no `=`. The attribute test
  is reached by a component with no leading `#` or `.` and no `.`, holding
  both a `[` and an `=` somewhere, as in `a=b[c]` or `a[b][c=d]`. Only the
  text between the first `[` and the next `[` is read, minus its last
  character. The error is raised only on a node whose name is the text before
  the first `[`. A component with brackets but no `=` at all, such as `a[b]`,
  is compared with the node's name as a whole and never throws;
- `matchesSelector(node, undefined)`, for a trailing `>`.

Two behaviours worth knowing:

- The doctype value is the whole text between `<!DOCTYPE` and the first `>`,
  trimmed (`src/html-tokenizer.mjs:76-80`): `<!DOCTYPE html >` gives `html`.
- A comment value is not trimmed: `<!-- note -->` gives `" note "`
  (`src/html-tokenizer.mjs:83-88`).

## Model

| member | source | states |
|---|---|---|
| Chars.LowerAsciiLetter | src/html-tokenizer.mjs:67 | `toLowerCase` turns a character into a given small letter exactly when it is that letter or its capital |
| Chars.Span | src/html-tokenizer.mjs:117-124 | a scan over a character class stops at the first character outside the class or at the end, with every character before it inside |
| Chars.SpanIs | src/html-tokenizer.mjs:117-124 | any position reached over class characters and followed by a non-class character or the end is where the scan stops |
| Chars.Find | src/html-tokenizer.mjs:175-183 | the `startsWith` search stops at the first occurrence of the target, or at the end when there is none |
| Chars.FindIs | src/html-tokenizer.mjs:175-183 | any position with no occurrence of the target before it, and an occurrence or the end at it, is where the search stops |
| Chars.IndexOf | src/html-tokenizer.mjs:169-172 | the scan for one character stops at the first copy of it, or at the end when there is none; no copy lies before the stop |
| Chars.IndexOfIs | src/html-tokenizer.mjs:169-172 | any position with no copy of the character before it, and the character or the end at it, is where the scan stops |
| Chars.FindChar | src/html-tokenizer.mjs:175-183 | searching for a one-character target with `startsWith` stops where the scan for that character stops |
| Chars.FindCharAt | src/html-tokenizer.mjs:175-183 | searching for a one-character target stops at that character or at the end, with no copy of it before |
| Chars.Trim | src/html-tokenizer.mjs:12 | `trim` never lengthens the input; a non-empty result is a piece of the input with non-whitespace ends and only whitespace around it |
| Chars.TrimBlank | src/html-tokenizer.mjs:12 | `trim` gives the empty string exactly when the input is all whitespace |
| Chars.TrimKeeps | src/html-tokenizer.mjs:12 | `trim` leaves a string with non-whitespace ends unchanged |
| Chars.Split | src/html-parser.mjs:61-69 | `split` on one character gives at least one piece, at least two exactly when the separator occurs, no piece holds the separator, and joining the pieces gives back the input |
| Chars.SplitJoin | src/html-parser.mjs:61-69 | splitting undoes joining pieces free of the separator |
| Chars.SplitNone | src/html-parser.mjs:64 | a string without the separator splits into itself alone |
| Chars.SplitFirst | src/html-parser.mjs:68 | the first piece is the text before the first separator, and the rest splits on its own |
| Chars.RemoveQuotes | src/html-parser.mjs:70 | `replace(/['"]/g, '')` leaves no quote, never grows the string, and is the identity on quote-free strings |
| Chars.RemoveQuotesAppend | src/html-parser.mjs:70 | removing quotes works piece by piece: the result for a concatenation is the concatenation of the results |
| Chars.RemoveQuotesOne | src/html-parser.mjs:70 | a single quote character is removed and any other character is kept, so every non-quote character survives in order |
| Chars.DropLast | src/html-parser.mjs:69 | `slice(0, -1)` drops exactly the last character, and keeps the empty string empty |
| Tokenizer.SkipWhitespace | src/html-tokenizer.mjs:45-49 | the cursor moves over exactly the maximal whitespace run; in a string without trailing whitespace it stops before the end |
| Tokenizer.ConsumeRun | src/html-tokenizer.mjs:117-124 | a scan of a character class that reaches the end of the input is the runaway loop (the error `Unterminated`); otherwise the run is maximal and stops on a character outside the class |
| Tokenizer.ConsumeTagName | src/html-tokenizer.mjs:117-124 | the name is the maximal, possibly empty `[a-zA-Z0-9]` run; reaching the end of the input is an error |
| Tokenizer.ConsumeAttributeName | src/html-tokenizer.mjs:147-154 | the name is the maximal `[a-zA-Z0-9-]` run; reaching the end of the input is an error |
| Tokenizer.ConsumeQuotedAttributeValue | src/html-tokenizer.mjs:157-166 | the value is the text up to the next `"` and holds no `"`; an unclosed quote is an error |
| Tokenizer.ConsumeAttribute | src/html-tokenizer.mjs:138-144 | a successful attribute is well shaped and moves the cursor forward without leaving the input; the only error is the runaway loop `Unterminated` |
| Tokenizer.ConsumeAttributes | src/html-tokenizer.mjs:127-135 | attributes are read up to the end of the input, a `>` or a `/`, which is left unconsumed; each one is well shaped |
| Tokenizer.ConsumeStartTag | src/html-tokenizer.mjs:99-114 | one open token with a `[a-zA-Z0-9]` name, or that token and a close token of the same name; the cursor moves past the tag |
| Tokenizer.ConsumeEndTag | src/html-tokenizer.mjs:91-96 | a close token with the maximal tag name; exactly one following character is skipped, `>` or not |
| Tokenizer.ConsumeUntil | src/html-tokenizer.mjs:175-183 | the text up to the first occurrence of the target or the end, and the cursor after the target when it is consumed |
| Tokenizer.ConsumeDoctype | src/html-tokenizer.mjs:76-80 | the value is the trimmed text between `<!DOCTYPE` and the first `>` |
| Tokenizer.ConsumeComment | src/html-tokenizer.mjs:83-88 | the value is the raw text before the first `-->`; the cursor lands six characters past the start of that `-->` |
| Tokenizer.ConsumeText | src/html-tokenizer.mjs:169-172 | text runs to the next `<` or the end and holds no `<` |
| Tokenizer.HandleSpecialTag | src/html-tokenizer.mjs:66-73 | `<!` succeeds exactly on a case-insensitive `doctype` (giving the scanned doctype) or on `--` (giving the scanned comment); anything else is the error at that position |
| Tokenizer.HandleTag | src/html-tokenizer.mjs:52-63 | at a `<` the cursor advances and one or two tokens come out, never more than the characters consumed; an error names an unknown `<!` sequence |
| Tokenizer.NextToken | src/html-tokenizer.mjs:31-42 | no token exactly at the end of the input; otherwise the cursor strictly advances over at least as many characters as tokens |
| Tokenizer.NextTokenShaped | src/html-tokenizer.mjs:31-49 | in a string without trailing whitespace every step emits well-shaped tokens |
| Tokenizer.Run | src/html-tokenizer.mjs:18-28 | the loop emits at most as many tokens as characters remain |
| Tokenizer.RunShaped | src/html-tokenizer.mjs:18-28 | in a string without trailing whitespace the loop emits only well-shaped tokens |
| Tokenizer.Tokenize | src/html-tokenizer.mjs:11-28 | after the initial trim, at most one token per input character, all well shaped; every text token is non-empty, starts with non-whitespace and holds no `<` |
| TokenizerFacts.AttributeScan | src/html-tokenizer.mjs:138-144 | a maximal name, one character skipped whatever it is, then the quoted value when `"` follows and `''` otherwise |
| TokenizerFacts.StartTagScan | src/html-tokenizer.mjs:99-114 | the name is the maximal tag-name run, the attributes follow it, a close token is added exactly when the attributes end at `/>`, and the cursor moves past `/>` or one character |
| TokenizerFacts.NoDashNoTerminator | src/html-tokenizer.mjs:177 | a body without `-` holds no `-->` |
| TokenizerFacts.CommentScan | src/html-tokenizer.mjs:83-88 | on `<!--body-->` the comment value is `body` and the cursor moves six past the `-->` start |
| TokenizerFacts.CommentNotDoctype | src/html-tokenizer.mjs:67-69 | `<!--` never passes the doctype test |
| TokenizerFacts.SpecialComment | src/html-tokenizer.mjs:66-70 | at `<!--` the special-tag handler scans a comment |
| TokenizerFacts.CommentHandled | src/html-tokenizer.mjs:52-57 | at `<!--` the tag handler gives exactly the scanned comment |
| TokenizerFacts.CommentDispatch | src/html-tokenizer.mjs:31-42 | at `<!--` the next token is the scanned comment |
| TokenizerFacts.CommentIsRaw | src/html-tokenizer.mjs:83-88 | the comment token holds exactly the untrimmed text between `<!--` and the first `-->` |
| TokenizerFacts.LoneComment | src/html-tokenizer.mjs:83-88 | a document that is one `<!--body-->` tokenizes to that single comment |
| TokenizerFacts.CommentKeepsSpaces | src/html-tokenizer.mjs:83-88 | `<!-- note -->` tokenizes to the single comment `" note "` |
| TokenizerFacts.DoctypeAheadIff | src/html-tokenizer.mjs:67-69 | the doctype test passes exactly when the seven characters after `<!` spell `doctype` with each letter small or capital |
| TokenizerFacts.DoctypeDispatch | src/html-tokenizer.mjs:31-80 | at `<!` followed by a doctype keyword, the next token is the scanned doctype |
| TokenizerFacts.DoctypeBody | src/html-tokenizer.mjs:76-80 | after `<!DOCTYPE`, a text free of `>` and closed by `>` becomes the doctype holding that text trimmed, and the cursor moves past the `>` |
| TokenizerFacts.DoctypeScan | src/html-tokenizer.mjs:31-80 | `<!DOCTYPE body>` with no `>` in `body` is one step giving the doctype `body` trimmed, ending past the `>` |
| TokenizerFacts.CommentOvershoots | src/html-tokenizer.mjs:83-88 | as written, after `<!--body-->` the cursor lands three characters past the end of the comment, never where the intended scan puts it |
| TokenizerFacts.ConsumeCommentIntended | src/html-tokenizer.mjs:83-88 | the comment scan with the cursor as intended: the same value as the code, the cursor three characters earlier |
| TokenizerFacts.CommentIntendedScan | src/html-tokenizer.mjs:83-88 | with the intended cursor, `<!--body-->` reads back as `body` and the cursor lands right after the comment |
| TokenizerFacts.TagNameAt | src/html-tokenizer.mjs:117-124 | a name run followed by a character outside `[a-zA-Z0-9]` is read whole, and the cursor stops on that character |
| TokenizerFacts.NoAttributes | src/html-tokenizer.mjs:129-131 | the attribute loop stops at once on a `/` or a `>` |
| TokenizerFacts.StartTagName | src/html-tokenizer.mjs:99-101 | the tag name of `<name…` is `name` when a non-name character follows it |
| TokenizerFacts.SelfClosingPair | src/html-tokenizer.mjs:106-110 | `<name/>` yields the open token immediately followed by the close token of the same name, and the cursor moves past `/>` |
| TokenizerFacts.PlainStartTag | src/html-tokenizer.mjs:99-114 | `<name>` yields one open token without attributes, and the cursor moves past `>` |
| TokenizerFacts.EndTagSkipsOne | src/html-tokenizer.mjs:91-96 | `</name` followed by any non-alphanumeric character closes `name` and skips that character |
| TokenizerFacts.TextUpToTag | src/html-tokenizer.mjs:169-172 | text before a `<` is one text token ending at that `<` |
| TokenizerFacts.TextToEnd | src/html-tokenizer.mjs:169-172 | text without `<` up to the end of the input is one text token, and the cursor reaches the end |
| TokenizerFacts.OpenStep | src/html-tokenizer.mjs:99-114 | a step over `<name>` gives one open token without attributes and moves past `>` |
| TokenizerFacts.CloseStep | src/html-tokenizer.mjs:91-96 | a step over `</name>` gives one close token and moves past `>` |
| TokenizerFacts.UnknownBangFails | src/html-tokenizer.mjs:66-73 | `<!` followed by neither `doctype` nor `--` is an error at that position |
| TokenizerFacts.TrailingSpaceWouldGiveEmptyText | src/html-tokenizer.mjs:34-41 | without the initial trim, trailing whitespace would make an empty text token |
| TokenizerFacts.SlashAfterAttribute | src/html-tokenizer.mjs:138-144 | in `<a b/>` the `/` is skipped as the attribute's `=`, so one open token with attribute `b` comes out and no close token |
| TokenizerFacts.AttributeRoundTrip | src/html-tokenizer.mjs:127-144 | ` name="value"` is one pass of the attribute loop: the space is skipped and the attribute read back is exactly `name` and `value` |
| TokenizerFacts.AttributesRoundTrip | src/html-tokenizer.mjs:127-166 | the text ` n1="v1" … nk="vk">`, with names of `[a-zA-Z0-9-]` characters and values free of `"`, scans back to exactly that attribute list and stops on the `>` |
| TokenizerFacts.StartTagRoundTrip | src/html-tokenizer.mjs:99-166 | `<name n1="v1" … nk="vk">` scans back to exactly the open token it was written from, and the cursor moves past the `>` |
| TokenizerExamples.LastStep | src/html-tokenizer.mjs:18-28 | a step that reaches the end of the input ends the loop with its tokens |
| TokenizerExamples.LastOpenRun | src/html-tokenizer.mjs:99-114 | the loop over an open tag that ends the input gives that open token alone |
| TokenizerExamples.CommentRun | src/html-tokenizer.mjs:83-88 | the loop over `<!--body-->` gives the comment and then whatever comes three characters past the `-->` |
| TokenizerExamples.CommentEatsTag | src/html-tokenizer.mjs:83-88 | `<!--a--><b><i>` tokenizes to the comment `a` and the open tag `i`: `<b>` is lost |
| TokenizerExamples.CommentKeepsTag | src/html-tokenizer.mjs:83-88 | with the intended cursor, the comment of `<!--a--><b><i>` ends right before `<b>` |
| TokenizerExamples.DoctypeRun | src/html-tokenizer.mjs:18-28 | the loop over `<!DOCTYPE body>` gives the trimmed doctype and then whatever follows the `>` |
| TokenizerExamples.DoctypeTrimmed | src/html-tokenizer.mjs:11-28 | `<!DOCTYPE html ><p>` tokenizes to the doctype `html` and the open tag `p` |
| LegacyTokenizer.ConsumeText | src/html-tokenizer.js:52-59 | text runs to the next `<` or the end and holds no `<` |
| LegacyTokenizer.ConsumeEndTag | src/html-tokenizer.js:62-71 | a close token with the maximal `[a-zA-Z0-9]` name; one character after it is skipped unconditionally |
| LegacyTokenizer.ConsumeAttribute | src/html-tokenizer.js:97-116 | a maximal name, one skipped character, and a value only when `"` follows; an unclosed quote runs to the end of the input |
| LegacyTokenizer.ConsumeAttributes | src/html-tokenizer.js:84-90 | attributes are read up to a `>` or the end of the input; each is well shaped |
| LegacyTokenizer.ConsumeStartTag | src/html-tokenizer.js:74-94 | exactly one open token whose name is the maximal alphanumeric run after the `<` |
| LegacyTokenizer.ConsumeComment | src/html-tokenizer.js:119-128 | four characters are skipped from the `!`; the value is the text up to the first `-->` or the end; then three more characters are skipped |
| LegacyTokenizer.NextToken | src/html-tokenizer.js:18-49 | no token only when whitespace alone remains; otherwise the cursor strictly advances and the token is well shaped |
| LegacyTokenizer.Run | src/html-tokenizer.js:131-137 | the loop terminates with at most one token per remaining character, all well shaped |
| LegacyTokenizer.Tokenize | src/html-tokenizer.js:131-137 | gives a token list for every input (stack overflow aside), without trimming; at most one token per character; every text token is non-empty, starts with non-whitespace and holds no `<` |
| LegacyFacts.TrailingSpaceGivesNothing | src/html-tokenizer.js:18-29 | no token comes out exactly when only whitespace remains |
| LegacyFacts.BangOpensNamelessTag | src/html-tokenizer.js:32-40 | `<!` (so `<!DOCTYPE` and `<!--` too) opens a tag with an empty name |
| LegacyFacts.SlashAttributes | src/html-tokenizer.js:84-90 | at `/>` the attribute loop reads one attribute with empty name and value and stops at `>` |
| LegacyFacts.SlashAfterName | src/html-tokenizer.js:76-80 | in `<name/>` the name run stops at the `/` |
| LegacyFacts.SlashIsNamelessAttribute | src/html-tokenizer.js:74-116 | `<name/>` is one open token carrying one attribute with empty name and value |
| LegacyFacts.CommentScan | src/html-tokenizer.js:119-128 | on `!--` + c + body + `-->` the value is `body`: the character right after `!--` is lost |
| LegacyFacts.CommentDropsFirstChar | src/html-tokenizer.js:43-45 | a bare `!--` outside a tag starts such a comment |
| LegacyFacts.AttributeRoundTrip | src/html-tokenizer.js:84-116 | ` name="value"` is one pass of the attribute loop: the space is skipped and the attribute read back is exactly `name` and `value` |
| LegacyFacts.AttributesRoundTrip | src/html-tokenizer.js:84-116 | the text ` n1="v1" … nk="vk">`, with names of `[a-zA-Z0-9-]` characters and values free of `"`, scans back to exactly that attribute list and stops on the `>` |
| LegacyFacts.StartTagRoundTrip | src/html-tokenizer.js:74-116 | `<name n1="v1" … nk="vk">` scans back to exactly the open token it was written from, and the cursor moves past the `>` |
| Dom.Lookup | src/html-parser.mjs:13-16 | `null` exactly when no attribute has the name; otherwise a value the node carries under that name |
| Dom.LookupFirst | src/html-parser.mjs:14 | the value is that of the first attribute with the name |
| Dom.BeforeIrreflexive | src/html-parser.mjs:25-53 | no position comes before itself in document order |
| Dom.BeforeTransitive | src/html-parser.mjs:25-53 | document order is transitive |
| Dom.SortedNoRepeats | src/html-parser.mjs:25-53 | a list of positions in document order has no repeats |
| Dom.SortedConcat | src/html-parser.mjs:34-36 | two sorted lists, every entry of the first before every entry of the second, concatenate to a sorted list |
| Dom.Under | src/html-parser.mjs:34-36 | putting a child index in front of each path keeps the count and the order |
| Dom.UnderIn | src/html-parser.mjs:34-36 | a path is among the paths put below child `i` exactly when it starts with `i` and its remainder is one of them |
| Dom.UnderSorted | src/html-parser.mjs:34-36 | putting the same child index in front of paths keeps document order, both ways |
| Selector.PairOf | src/html-parser.mjs:69 | `attrPair.slice(0, -1).split('=')` has at least one piece |
| Selector.Match | src/html-parser.mjs:55-74 | a component throws exactly when it reaches the attribute test (no leading `#` or `.`, no `.`, and both `[` and `=` somewhere), its first bracket pair holds no `=`, and the node's name is the text before the first `[`; every other component gives a truth value |
| Selector.ClassForm | src/html-parser.mjs:59-62 | `.x` holds exactly when `x` is among the `class` attribute's space-separated pieces and the attribute is non-empty |
| Selector.ClassList | src/html-parser.mjs:59-62 | a non-empty `class` attribute written as space-separated names matches exactly those names |
| Selector.TagClassForm | src/html-parser.mjs:63-66 | `t.c` holds exactly when the node is named `t` and has the class up to the next `.` |
| Selector.PairPieces | src/html-parser.mjs:69 | `a=v]` without further `=` gives the pieces `a` and `v` |
| Selector.AttrPieces | src/html-parser.mjs:68-69 | `t[a=v]` splits into tag `t`, attribute `a` and value `v` |
| Selector.AttrFormIs | src/html-parser.mjs:56-67 | `t[a=v]` without `.` and without a leading `#` reaches the attribute test |
| Selector.AttrForm | src/html-parser.mjs:67-71 | `t[a=v]` holds exactly when the node is named `t` and attribute `a` equals `v` with its quotes removed; it never throws |
| Selector.DotBeforeBracket | src/html-parser.mjs:63-71 | the `.` test comes first, so `a[href=x.html]` becomes a tag-and-class test |
| Selector.BracketPieces | src/html-parser.mjs:68-69 | `t[b]` with no `=` in `b` has tag `t` and the single piece `b` |
| Selector.EqualsOutsidePieces | src/html-parser.mjs:67-69 | `a=b[c]` reaches the attribute test with tag `a=b` and no value |
| Selector.EqualsOutsideBrackets | src/html-parser.mjs:67-71 | `a=b[c]` throws on a node named `a=b` and is false on every other node |
| Selector.NoEqualsFallsThrough | src/html-parser.mjs:67-73 | `a[b]`, with brackets but no `=`, skips the attribute test and is compared with the node's name as a whole, never throwing |
| Selector.LaterPairThrows | src/html-parser.mjs:67-71 | in `a[b][c=d]` only the first pair `[b]` is read, so the test throws on a node named `a` and is false on every other node |
| Selector.FirstCut | src/html-parser.mjs:20 | the first position where a whitespace run that is not inside brackets starts, or the end |
| Selector.FirstCutIs | src/html-parser.mjs:20 | any position with no cut before it and a cut or the end at it is the first cut |
| Selector.Components | src/html-parser.mjs:20 | the split yields at least one component, and a string without whitespace is one component |
| Selector.ComponentsStep | src/html-parser.mjs:20 | the split is the text before the first cut followed by the split of what follows the whitespace run |
| Selector.SplitSelector | src/html-parser.mjs:20 | the split of the trimmed selector yields at least one component, and a trimmed selector without whitespace is one component |
| Selector.JoinStep | src/html-parser.mjs:20 | a plain word, a space and a rest split into the word followed by the split of the rest |
| Selector.SplitSelectorWords | src/html-parser.mjs:20 | bracket-free words joined by single spaces split back into exactly those words |
| Selector.BracketedComponent | src/html-parser.mjs:20 | whitespace followed by `]` before any `[` is no separator |
| Selector.SpaceBeforeBracketCut | src/html-parser.mjs:20 | the first cut of `div a[x = 1]` is the space after `div` |
| Selector.BracketedNoCut | src/html-parser.mjs:20 | `a[x = 1]` has no cut |
| Selector.BracketedOne | src/html-parser.mjs:20 | `a[x = 1]` is one component |
| Selector.SpaceInsideBracketsRaw | src/html-parser.mjs:20 | the regular expression splits `div a[x = 1]` into `div` and `a[x = 1]` |
| Selector.SpaceInsideBrackets | src/html-parser.mjs:20 | `div a[x = 1]` splits into `div` and `a[x = 1]` |
| Query.Traverse | src/html-parser.mjs:25-26 | an empty component list finds nothing |
| Query.TraverseFromFound | src/html-parser.mjs:34-36 | the child loop throws exactly when some child's search throws |
| Query.TraverseFromIn | src/html-parser.mjs:34-36 | the hits of a child loop that does not throw are exactly the children's hits, each below its child's index |
| Query.TraverseValid | src/html-parser.mjs:25-53 | every hit is a node of the searched tree |
| Query.TraverseFromValid | src/html-parser.mjs:34-36 | every hit of the child loop is a node below one of the children |
| Query.NodesAt | src/html-parser.mjs:21-22 | one node per position, the node at that position |
| Query.QuerySelector | src/html-parser.mjs:18-23 | the query throws exactly when the search of the trimmed, split selector throws; otherwise it returns the nodes at the hits, in push order |
| QueryFacts.TraverseSorted | src/html-parser.mjs:25-53 | hits come in document (pre-)order and never repeat |
| QueryFacts.TraverseFromSorted | src/html-parser.mjs:34-36 | the child loop's hits are in document order and lie below the children |
| QueryFacts.TraverseSound | src/html-parser.mjs:30-47 | every hit is a node of the tree that matches the last component |
| QueryFacts.TraverseFromSound | src/html-parser.mjs:34-36 | every hit of the child loop matches the last component |
| QueryFacts.NoCrash | src/html-parser.mjs:38-47 | without throwing components and without a trailing `>`, the search does not throw |
| QueryFacts.NoCrashFrom | src/html-parser.mjs:34-36 | under the same conditions the child loop does not throw |
| QueryFacts.SafeTail | src/html-parser.mjs:28 | the rest of a list without throwing components and trailing `>` has neither |
| QueryFacts.FirstHitMatches | src/html-parser.mjs:30-32 | a first match is a node of the tree and matches |
| QueryFacts.OneComponent | src/html-parser.mjs:30-37 | a one-component search finds exactly the matching nodes none of whose ancestors (up to the start node) matches |
| QueryFacts.FirstMatchUnique | src/html-parser.mjs:30-37 | no first match lies below another one on the same path |
| QueryFacts.NoNestedHits | src/html-parser.mjs:30-37 | for one component, no hit lies inside the subtree of another hit |
| QueryFacts.ArrowStep | src/html-parser.mjs:38-47 | `> b` on a node not named `>` keeps the node exactly when it matches `b` |
| QueryFacts.ArrowChildren | src/html-parser.mjs:38-47 | below a match, `> b` keeps a child exactly when it matches `b` and descends no further |
| QueryFacts.ChildCombinator | src/html-parser.mjs:38-47 | `a > b` finds exactly the `b` children of the first `a` match along each path |
| QueryFacts.QueryOneComponent | src/html-parser.mjs:18-23 | `querySelector` with one component returns the first matches along each path, in document order |
| QueryFacts.DescendantFindsGrandchild | src/html-parser.mjs:48-52 | `a b` finds a `b` grandchild of `a` |
| QueryFacts.ChildNotGrandchild | src/html-parser.mjs:38-47 | `a > b` misses the grandchild that `a b` finds |
| Parser.SpineInner | src/html-parser.mjs:89-104 | an inner node of the path of last children is the root or an element |
| Parser.SpineUp | src/html-parser.mjs:94-98 | moving to the parent keeps the current node on the tree and able to take children |
| Parser.WalkDepths | src/html-parser.mjs:3-10 | a pre-order walk with depths starts with the root at its depth, every later entry deeper |
| Parser.WalkUnique | src/html-parser.mjs:3-10 | the pre-order walk with depths determines the tree: two trees with the same walk are equal |
| Parser.AppendAt | src/html-parser.mjs:90-92 | the new node becomes the last child of the current node and the next node down the path; the root keeps its type, name and attributes |
| Parser.AppendAtFrame | src/html-parser.mjs:90-92 | nothing else changes: every node keeps its position and label, and the only new positions are those of the appended subtree, at its place after the current last child |
| Parser.AppendAtLabels | src/html-parser.mjs:90-92 | the appended subtree comes last in a pre-order walk of the tree |
| Parser.AppendAtProper | src/html-parser.mjs:99-104 | text and comment nodes never receive children |
| Parser.Step | src/html-parser.mjs:88-105 | one token keeps the current node on the tree, grows the pre-order walk by that token's node (none for a close tag or doctype), and keeps the root |
| Parser.BuildFrom | src/html-parser.mjs:87-106 | the walk with depths grows by one entry per open-tag, text and comment token, one level below the current node, whose depth follows the open and close tags seen so far |
| Parser.Build | src/html-parser.mjs:80-107 | the result is a `root` node whose walk with depths after the root is the token entries; text and comment nodes stay childless |
| Parser.BuildUnique | src/html-parser.mjs:80-107 | any tree with that walk is the built tree, so the walk fixes how nodes nest: a node's children are the nodes added while it was the current node |
| Parser.Parse | src/html-parser.mjs:78-108 | parsing fails exactly when tokenizing fails; otherwise the result is a proper tree named `root` whose walk with depths is that of the tokens |
| ParserFacts.EmptyElement | src/html-parser.mjs:89-98 | an open tag closed at once leaves an empty element and the current node where it was |
| ParserFacts.DepthIsBalance | src/html-parser.mjs:89-98 | when no prefix closes more than is open, the final depth is the start depth plus opens minus closes |
| ParserFacts.DepthAtMostOpens | src/html-parser.mjs:89-98 | the current node never goes deeper than the open tags take it |
| ParserFacts.WalkSize | src/html-parser.mjs:3-10 | the pre-order walk lists every node once |
| ParserFacts.TokenEntriesLength | src/html-parser.mjs:87-105 | at most one node per token, exactly one when there are no close tags or doctypes |
| ParserFacts.NodeCount | src/html-parser.mjs:87-105 | the tree has one node per open-tag, text and comment token besides the root |
| Examples.OpenAtRoot | src/html-parser.mjs:89-93 | an open tag at the root makes the element the root's only child and the current node |
| Examples.TextInChild | src/html-parser.mjs:99-101 | a text inside the root's only child becomes that child's last child |
| Examples.ElementBuild | src/html-parser.mjs:84-107 | an open tag, a text and its close tag build the root holding the element holding the text |
| Examples.CommentThenOpenBuild | src/html-parser.mjs:87-104 | a comment and an open tag become two children of the root, side by side |
| Examples.CommentEatsTagParse | src/html-parser.mjs:83-108 | `<!--a--><b><i>` parses to a root holding the comment `a` and the element `i` |

## Left out

- `src/html-serializer.js`, `src/index.mjs` and `test/html-parser.test.mjs` are not part of this model.
  - The serializer reads a `tagName` field the parser never sets and calls an unqualified `serialize`.
  - The index file only re-exports.
  - The test file reads files and passes a token array where a string is expected.
- The text of the thrown error message is not modelled; only the position is kept.
- Three loops of the `.mjs` tokenizer run past the end of the input: the tag name loop, the attribute name loop and the quoted value loop (`src/html-tokenizer.mjs:119`, `:149`, `:160`). There `this.html[this.position]` is `undefined`, which tests as `[a-zA-Z0-9]` (it is the string "undefined") and is not `"`. Each pass appends "undefined" to a growing string until the engine throws a `RangeError` for an invalid string length. The model gives the outcome `Unterminated` instead; the engine's error and its message are not modelled.
- Call-stack depth is not modelled. The legacy `getNextToken` calls itself once per whitespace character it skips (`src/html-tokenizer.js:26-29`), and `traverse` calls itself once per tree level (`src/html-parser.mjs:34-36`, `:43-45`, `:49-51`). A long whitespace run or a deep tree can therefore make the engine throw a `RangeError` for stack overflow. The model's recursion has no depth limit, and LegacyTokenizer.Tokenize and Query.Traverse always return.
- The `parent` back-pointers and object identity are not modelled. The tree is an immutable value and a search returns paths. Since nothing is mutable, `querySelector` leaves the tree unchanged.
- Characters are Dafny `char`s, not UTF-16 code units. Every character class in the source lies in the Basic Multilingual Plane.
- `toLowerCase` is modelled for ASCII letters only. No other character lower-cases to a letter of `doctype`, so the doctype test is unchanged.
- LegacyTokenizer.ConsumeText, LegacyTokenizer.ConsumeEndTag, LegacyTokenizer.ConsumeAttribute, LegacyTokenizer.ConsumeStartTag: require the cursor inside the input. `getNextToken` only calls them there.
- Tokenizer.ConsumeAttribute: its contract states the shape and the cursor bounds only; the exact scan is stated by TokenizerFacts.AttributeScan.
- Tokenizer.ConsumeStartTag: its contract states the shape and the cursor bounds only; the exact scan is stated by TokenizerFacts.StartTagScan.
- Tokenizer.NextToken and Tokenizer.Run: well-shaped tokens are stated by Tokenizer.NextTokenShaped and Tokenizer.RunShaped.
- QueryFacts.ChildCombinator: assumes that no node is named `>`. Such a node (a text node `>`) matches the `>` component itself, and the search then continues into its children.
- QueryFacts.OneComponent: covers components other than `>` on which the source never throws.
- Selectors of more than one descendant component: only soundness, order and freedom from errors are proved (TraverseSound, TraverseSorted, NoCrash). The exact set of hits is characterized for one component and for `a > b`.
- Query.Traverse: its own contract covers only the empty list. What it finds is stated by the QueryFacts lemmas.
- Tokenizer.ConsumeComment and the loop built on it follow the code as written, cursor included; the corrected cursor is TokenizerFacts.ConsumeCommentIntended, listed under "Findings".
- Whole-document tokenizer examples are limited to comments and single open tags. Longer documents make the proofs too costly for the solver. A three-token document is built from its token list instead (Examples.ElementBuild).

## Findings

| source | as written | input that shows it | evidently intended | confidence | as-written member | corrected member |
|---|---|---|---|---|---|---|
| src/html-tokenizer.mjs:83-88 | `consumeUntil('-->')` already moves the cursor past the `-->`, and `this.position += 3` then skips three more characters | `<!--a--><b><i>` tokenizes to the comment `a` and the open tag `i`; `<b>` is lost | the cursor right after the `-->`, as the comment "Skip the closing" describes, so `<b>` would be read next | high, not executed | TokenizerFacts.CommentOvershoots | TokenizerFacts.CommentIntendedScan |
