# ndoc in Dafny

ndoc documents a Node.js module in a small line-oriented text format, the
`.ndoc` file:

```
[module: Name]
desc: what the module does
[function: name]
desc: what the function does
param: name (type) - description
return: type - description
```

A Markdown-style variant (`# Module`, `## function`, ``- **name** (`type`): …``,
``**Returns**: `type` - …``) is rewritten into that format before it is served.
This project models the core of the pipeline as pure functions over immutable
values, and it proves what each step promises and how the steps fit together.

| module | file | what it models |
|---|---|---|
| `Model` | model.dfy | the `Documentation` and `FunctionDoc` records of src/model.js |
| `Strings` | strings.dfy | the JavaScript string primitives used: `trim`, `slice`, `split('\n')`, `startsWith`, `toLowerCase`, `includes` |
| `Patterns` | patterns.dfy | the four regular expressions, as deterministic greedy matchers, with unanchored leftmost search |
| `PatternSpec` | pattern_spec.dfy | a declarative "the pattern matches here with these groups" predicate for each regular expression, and the proof that each matcher agrees with it |
| `Parser` | parser.dfy | `parseNodeDoc` (src/parser.js), line by line and over a whole text |
| `Utils` | utils.dfy | `convertMarkdownStyleToNdoc` (src/utils.js) |
| `Render` | render.dfy | the second parser inside `render(data)` (src/render.js), and the search filter |
| `Html` | html.dfy | the sidebar and content templates of `render(data)`, and how many `<article>` and `<li>` elements they hold |
| `Pipeline` | pipeline.dfy | the serve path: a normalised Markdown line, read back by both parsers |
| `Page` | page.dfy | the page `render(data)` builds for a text, and the elements the search box filters on it |

Regular expressions are modelled by their deterministic outcome. Every `\w+` and
`\s*` before a literal has exactly one run that can succeed, which is the greedy
one. The final `\s*(.+)` backtracks, and the model takes the largest start at
which `.` can begin. `PatternSpec` proves that these matchers agree with the
declarative match predicates. It proves both directions, and it shows that the
groups returned come from the leftmost matching position.

The two parsers of the format do not agree everywhere, and the model keeps
every difference:

- `parseNodeDoc` reads a `desc:` line that comes before the first function as
  the module description.
- The renderer reads the module description from the line right after the
  first line equal to the module line (`lines.indexOf(line) + 1`), whatever
  that line says.
- The renderer does not trim the regular-expression groups.

`Render.RenderAgreesWithParser` states that the two parsers agree on the
module name and on the functions, up to the trimming of the groups.
`Render.ModuleDescAdjacent` and `Render.ModuleDescSeparated` state where they
agree and where they differ on the module description.

Normalising is sometimes described as idempotent. The code is not: a normalised
`[module: X]` line is plain text to the Markdown rules, so a second pass turns
it into `desc: [module: X]`. The model follows the code, and
`Utils.NormalizeNotIdempotent` states the two passes.

## Model

| member | source | states |
|---|---|---|
| Model.NewDocumentation | src/model.js:1-9 | a new documentation has an empty module name, an empty module description and no functions |
| Model.NewFunctionDoc | src/model.js:11-18 | a new function keeps the given name; its description, parameter list, return type and return description start empty |
| Model.WithLast | src/parser.js:20-22 | updating the open function (the last one) keeps the number of functions and every earlier function, and puts the new value last |
| Strings.Trim | src/parser.js:10 | the trimmed line has no white space at either end and is no longer than the line |
| Strings.TrimEmpty | src/parser.js:10-11 | a line trims to the empty string exactly when it is all white space, which is when the line is skipped |
| Strings.TrimAround | src/parser.js:10 | trimming removes exactly the white space around a trimmed core |
| Strings.TrimTrimmed | src/parser.js:16 | trimming a trimmed string leaves it unchanged |
| Strings.Slice | src/parser.js:14 | `slice(start, end)` for in-range ends, for a negative end counted from the back, and for crossed ends (empty) |
| Strings.SliceFrom | src/parser.js:16 | `slice(start)` is the suffix from `start`, and empty past the end |
| Strings.Split | src/parser.js:5 | splitting gives at least one part, and no part contains the separator |
| Strings.JoinSplit | src/parser.js:5 | joining the parts of a split with the separator gives back the text |
| Strings.SplitJoin | src/parser.js:5 | splitting a join of separator-free parts gives back the parts |
| Strings.TrimAll | src/render.js:18 | `map(line => line.trim())` keeps the number of lines and trims each one in place |
| Strings.Lower | src/render.js:97 | lower-casing keeps the length and maps each character on its own |
| Strings.LowerIdempotent | src/render.js:97-99 | lower-casing twice is lower-casing once |
| Strings.Contains | src/render.js:100 | `includes` holds exactly when some position of the text starts an occurrence of the query |
| Patterns.SpaceEndSpec | src/parser.js:24 | a greedy `\s*` run covers only white space and stops at the end or at a character that is not white space |
| Patterns.WordEndSpec | src/parser.js:24 | a greedy `\w+` run covers only word characters and stops at the end or at a non-word character |
| Patterns.LineEndSpec | src/parser.js:24 | a `.` run has no line terminator and stops at the end or at a line terminator |
| Patterns.TailStartOfSpec | src/parser.js:24 | the start chosen for `\s*(.+)` exists exactly when some start is possible, and it is the largest possible one |
| Patterns.RestOfLineSpec | src/parser.js:24 | the unanchored `(.+)` group is found exactly when a tail can start, and it runs from the largest start to the end of the line |
| Patterns.RestToEndSpec | src/utils.js:101 | the anchored `(.+)$` group is found exactly when a tail can start whose line runs to the end of the text |
| Patterns.LeftmostSpec | src/parser.js:24 | the unanchored search fails exactly when no position matches, and otherwise returns the match at the first position that matches |
| Patterns.SearchParam | src/parser.js:24 | `line.slice(6).match(...)` for a parameter: the leftmost match of the pattern (its contract is `PatternSpec.SearchParamSpec`) |
| Patterns.ParamAtShape | src/parser.js:24 | a parameter match at `i` is a word, optional space, `(`, a word, `)`, optional space, `-` and a tail, and its groups are those spans |
| Patterns.ParamAtSound | src/parser.js:24 | the name and type groups are words, and the description group is non-empty and lies on one line |
| Patterns.SearchParamSound | src/parser.js:24-25 | whatever the parameter search returns has word name and type and a non-empty one-line description |
| Patterns.ParamAtCanonical | src/parser.js:24 | `name (type) - desc` after any prefix matches at the name, with exactly those three groups |
| Patterns.SearchParamCanonical | src/parser.js:24 | the search over ` name (type) - desc` returns exactly those three groups |
| Patterns.ReturnAtShape | src/parser.js:33 | a return match at `i` is a word, optional space, `-` and a tail, and its groups are those spans |
| Patterns.ReturnAtSound | src/parser.js:33 | the type group is a word, and the description group is non-empty and lies on one line |
| Patterns.SearchReturnSound | src/parser.js:33-34 | whatever the return search returns has a word type and a non-empty one-line description |
| Patterns.ReturnAtCanonical | src/parser.js:33 | `type - desc` after any prefix matches at the type, with exactly those two groups |
| Patterns.SearchReturnCanonical | src/parser.js:33 | the search over ` type - desc` returns exactly those two groups |
| Patterns.ParamBulletSound | src/utils.js:101-103 | the groups of a parameter bullet are a word name, a word type and a one-line description, which is trimmed when the line is |
| Patterns.ParamBulletCanonical | src/utils.js:101-103 | ``- **name** (`type`): desc`` matches with exactly those three groups |
| Patterns.ReturnsBulletSound | src/utils.js:105-107 | the groups of a returns line are a word type and a one-line description, which is trimmed when the line is |
| Patterns.ReturnsBulletCanonical | src/utils.js:105-107 | ``**Returns**: `type` - desc`` matches with exactly those two groups |
| PatternSpec.ParamMatchGreedy | src/parser.js:24 | in any match of the parameter pattern, every run is the greedy run, so backtracking cannot change a group |
| PatternSpec.LineRunIs | src/parser.js:24 | `.+` from a start that is not a line terminator has exactly one run that reaches the end of the line |
| PatternSpec.LeftmostMatches | src/parser.js:24 | when a matcher succeeds exactly where a pattern matches, the search succeeds exactly when some position matches, at the leftmost one |
| PatternSpec.ParamAtSpec | src/parser.js:24 | the parameter matcher succeeds at `i` exactly when the pattern matches at `i`, and its groups are those of the match with the largest tail start |
| PatternSpec.SearchParamSpec | src/parser.js:24-25 | `match` on a parameter line succeeds exactly when the pattern matches somewhere, and returns the match at the leftmost matching position |
| PatternSpec.ReturnMatchGreedy | src/parser.js:33 | in any match of the return pattern, every run is the greedy run |
| PatternSpec.ReturnAtSpec | src/parser.js:33 | the return matcher succeeds at `i` exactly when the pattern matches at `i`, with the groups of the match with the largest tail start |
| PatternSpec.SearchReturnSpec | src/parser.js:33-34 | `match` on a return line succeeds exactly when the pattern matches somewhere, and returns the match at the leftmost matching position |
| PatternSpec.ParamBulletMatchGreedy | src/utils.js:101 | in any match of the anchored bullet pattern, every run is the greedy run |
| PatternSpec.ParamBulletSpec | src/utils.js:101-103 | the bullet matcher succeeds exactly when the anchored pattern matches the line, with the groups of the match with the largest tail start |
| PatternSpec.ReturnsBulletMatchGreedy | src/utils.js:105 | in any match of the anchored returns pattern, every run is the greedy run |
| PatternSpec.ReturnsBulletSpec | src/utils.js:105-107 | the returns matcher succeeds exactly when the anchored pattern matches the line, with the groups of the match with the largest tail start |
| Parser.ParseLine | src/parser.js:9-41 | the body of the `forEach`, with the open function kept as the last one; its contract is the `ParseLine…` lemmas below |
| Parser.PrefixesExclusive | src/parser.js:13-35 | a trimmed line starts with at most one of the five directive prefixes |
| Parser.ClassifyExact | src/parser.js:13-40 | a line is classified as a directive exactly when it starts with that directive's prefix, and as other text exactly when it starts with none |
| Parser.ParseLineBlank | src/parser.js:10-11 | a line of white space changes nothing |
| Parser.ParseLineModule | src/parser.js:13-14 | a `[module:` line sets the module name to the trimmed text between the prefix and the last character, and changes nothing else |
| Parser.ParseLineModuleName | src/parser.js:13-14 | the module name changes exactly on a `[module:` line |
| Parser.ParseLineModuleDesc | src/parser.js:15-16 | a `desc:` line with no function open sets the module description and changes nothing else |
| Parser.ParseLineFunction | src/parser.js:17-19 | a `[function:` line appends a new function with the trimmed name and opens it; module name and description stay |
| Parser.ParseLineNoFunction | src/parser.js:20 | a `param:`, `return:` or unknown line with no function open changes nothing |
| Parser.ParseLineOpen | src/parser.js:20-41 | with a function open, any other line only updates that function |
| Parser.ParseLineFunctionDesc | src/parser.js:21-22 | a `desc:` line with a function open sets that function's description and changes nothing else |
| Parser.FunctionLineParam | src/parser.js:23-31 | a `param:` line appends the matched parameter to the open function, or leaves it unchanged when the pattern does not match |
| Parser.ParseLineParam | src/parser.js:23-31 | at document level, a matched `param:` line appends exactly one parameter to the open function, and an unmatched one changes nothing |
| Parser.ParamOfSound | src/parser.js:24-30 | a parsed parameter has word name and type and a trimmed description |
| Parser.FunctionLineReturn | src/parser.js:32-39 | a `return:` line replaces the open function's return entry, or leaves it unchanged when the pattern does not match |
| Parser.ParseLineReturn | src/parser.js:32-39 | at document level, a matched `return:` line replaces the open function's return entry (the last one wins), and an unmatched one changes nothing |
| Parser.ReturnOfSound | src/parser.js:33-38 | a parsed return entry has a word type and a trimmed description |
| Parser.ParseLineUnknown | src/parser.js:20-40 | with a function open, a line with no known prefix changes nothing |
| Parser.ParseLineNames | src/parser.js:17-19 | a `[function:` line appends its name to the list of names; any other line keeps the list |
| Parser.ParseLineKeeps | src/parser.js:18-22 | no line removes a function or changes any function but the open one |
| Parser.ParseNodeDoc | src/parser.js:4-45 | split on `\n` and fold `ParseLine` over the lines in order; its contract is the whole-document lemmas below |
| Parser.ParseLinesNames | src/parser.js:9-19 | the names of the functions are the names of the `[function:` lines, in order |
| Parser.ParseNodeDocFunctions | src/parser.js:4-45 | the document's functions are exactly one per `[function:` line of the text, in order |
| Parser.ParseLinesModuleName | src/parser.js:13-14 | the module name is the one from the last `[module:` line, if any |
| Parser.ParseLinesFrozen | src/parser.js:17-22 | once a later function is opened, an earlier function never changes again |
| Parser.ParseNodeDocBlank | src/parser.js:5-11 | a text of white space parses to a new documentation |
| Utils.Normalize | src/utils.js:83-118 | the normalised text has no white space at either end |
| Utils.NormalizeOneLine | src/utils.js:84-117 | a single trimmed line normalises to its own emission, trimmed |
| Utils.EmitConcat | src/utils.js:85-115 | the output is the concatenation of the lines' emissions, in order |
| Utils.EmitLineEndsLine | src/utils.js:89-114 | every line's emission ends with a newline, so every directive stays on a line of its own |
| Utils.NormalizeModuleHeading | src/utils.js:94-96 | `# X` normalises to `[module: X]` |
| Utils.EmitFunctionHeading | src/utils.js:97-100 | a `## ` line is never a `# ` heading and becomes `[function: name]` after an empty line |
| Utils.NormalizeLeadingFunction | src/utils.js:97-117 | a text whose first line is a `## ` heading normalises to a text starting with `[function:` |
| Utils.BulletsNeedMarker | src/utils.js:101-110 | on a trimmed line the bullet patterns match only after `-` and `**Returns**`, the two prefixes the description rule excludes |
| Utils.EmitParam | src/utils.js:101-104 | a parameter bullet becomes `param: name (type) - desc`, with word name and type and a trimmed one-line description |
| Utils.EmitReturns | src/utils.js:105-109 | a returns line becomes `return: type - desc`, with a word type and a trimmed one-line description |
| Utils.EmitDescription | src/utils.js:110-111 | any other text line, not starting with `# `, `## `, `-` or `**Returns**`, becomes `desc: line` |
| Utils.NormalizeWrapsDirective | src/utils.js:110-111 | a one-line text starting with `[` is wrapped as a description |
| Utils.EmitPassThrough | src/utils.js:112-114 | a line starting with `-` or `**Returns**` that neither pattern matches is copied unchanged |
| Utils.NormalizeNotIdempotent | src/utils.js:94-117 | normalising `# X` twice gives `desc: [module: X]`, not `[module: X]` |
| Render.InitialState | src/render.js:19-22 | the renderer starts with no module name, no module description and no functions |
| Render.IndexOf | src/render.js:28 | `indexOf` is -1 exactly when the line is absent, and otherwise the first position holding it |
| Render.NextDescFirst | src/render.js:28 | the module description is the trimmed text after the fifth character of the line that follows the first occurrence of the module line, and empty at the end |
| Render.RenderFunctionLine | src/render.js:32-45 | updating the open function never changes its name |
| Render.RenderLine | src/render.js:24-46 | one line adds at most one function |
| Render.RenderParse | src/render.js:17-47 | the parsing half of `render(data)`; its contract is `Render.RenderAgreesWithParser` and `Render.RenderLinesModule` |
| Render.CanonFunctionLine | src/render.js:32-45 | with the groups trimmed, the renderer updates a function exactly as `parseNodeDoc` does |
| Render.AgreeLines | src/render.js:24-47 | over any run of lines, the renderer's functions with trimmed groups are the parser's functions |
| Render.RenderAgreesWithParser | src/render.js:17-47 | for every text the renderer finds the same module name as `parseNodeDoc`, and the same functions once its groups are trimmed |
| Render.RenderLinesModule | src/render.js:26-28 | the module name and description come from the last `[module:` line, the description from the line after that line's first occurrence |
| Render.ModuleDescAdjacent | src/render.js:26-28 | a `desc:` line right after the module line gives both parsers the same module description |
| Render.ModuleDescSeparated | src/render.js:28 | with a blank line between them, `parseNodeDoc` still reads the description but the renderer reads an empty one |
| Render.SearchEmpty | src/render.js:96-101 | an empty query shows every function |
| Render.SearchSelf | src/render.js:97-100 | a query equal to the name, ignoring case, shows the function |
| Render.SearchCase | src/render.js:97-99 | the case of the name and of the query does not change what is shown |
| Render.SearchNarrows | src/render.js:97-100 | a function shown for a longer query is shown for each part of it, and the query is no longer than the name |
| Html.Sidebar | src/render.js:50-56 | the sidebar template, character for character; its contract is `Html.SidebarCounts` |
| Html.SidebarCounts | src/render.js:50-56 | the sidebar holds two list items and no article, beyond the tags the module name carries |
| Html.Content | src/render.js:59-79 | the content template, character for character; its contract is `Html.ContentCounts` |
| Html.ParamItemsCounts | src/render.js:72 | the parameter list holds one list item per parameter and no article |
| Html.PlainArticleCounts | src/render.js:66-77 | a function without markup gives one article, with one list item per parameter |
| Html.ArticlesCounts | src/render.js:66-77 | the function list holds one article per function and one list item per parameter in total |
| Html.ContentCounts | src/render.js:59-79 | the content holds one article per function and one list item per parameter, beyond the tags the module name and description carry |
| Html.TagInName | src/render.js:68 | nothing is escaped: a function named `<article` puts two article tags on the page |
| Html.SearchTargets | src/render.js:96-101 | with no markup in the texts, the elements the search filters (`.function` articles) are exactly one per function |
| Pipeline.ParamDirectiveLine | src/utils.js:104 | the `param:` directive the normaliser writes is trimmed and classified as a parameter line |
| Pipeline.ParamDirectiveParsed | src/parser.js:23-31 | the parser reads the written `param:` directive back as the same three groups |
| Pipeline.NormalisedParamParses | src/utils.js:101-104 | a parameter bullet, normalised and parsed inside an open function, appends exactly the parameter the bullet carried and changes nothing else |
| Pipeline.NormalisedParamRenders | src/render.js:35-39 | the renderer reads the normalised bullet as the same parameter, with no trimming needed |
| Pipeline.ReturnDirectiveLine | src/utils.js:108 | the `return:` directive the normaliser writes is trimmed and classified as a return line |
| Pipeline.ReturnDirectiveParsed | src/parser.js:32-39 | the parser reads the written `return:` directive back as the same two groups |
| Pipeline.NormalisedReturnParses | src/utils.js:105-109 | a returns line, normalised and parsed inside an open function, sets exactly the return entry it carried and changes nothing else |
| Pipeline.NormalisedReturnRenders | src/render.js:40-44 | the renderer reads the normalised returns line as the same return entry |
| Pipeline.DescDirectiveLine | src/utils.js:111 | the `desc:` directive the normaliser writes is trimmed, classified as a description, and carries the line |
| Pipeline.NormalisedDescParses | src/utils.js:110-111 | a text line, normalised and parsed, describes the open function if there is one and the module otherwise, and changes nothing else |
| Pipeline.NormalisedDescRenders | src/render.js:33-34 | the renderer reads the normalised text line as the same function description |
| Page.PlainSplit | src/render.js:18 | the lines of a text without `<` have no `<` |
| Page.PlainRenderParse | src/render.js:17-47 | every field the renderer stores is cut out of the text, so a text without `<` gives a state without `<` |
| Page.PageSearchTargets | src/render.js:49-101 | for a text without markup, the page holds exactly one searchable article per function that `parseNodeDoc` finds in the text |

## Left out

- Parser.ParseNodeDoc: takes the text of the file; the `readFileSync` of the path at src/parser.js:5 is I/O.
- Render.RenderParse: the `fetch` of the page's `.ndoc` file and the 404 page (src/render.js:5-15) are I/O and are left out. So are the `innerHTML` writes, the click handlers and `history.pushState` (src/render.js:81-94), and the WebSocket reload (src/render.js:104-107). The written HTML is modelled as text by `Html` and `Page`.
- Strings.Slice: strings are sequences of Unicode scalar values, but JavaScript indexes UTF-16 code units, so `slice` at a fixed offset differs from the source on text holding characters outside the Basic Multilingual Plane.
- Strings.LowerChar: lower-cases ASCII letters only; `toLowerCase` also maps non-ASCII letters.
- Render.Visible: takes the function's name as the `textContent` of its `<h3>` (src/render.js:99). The two are equal only when the name holds no markup (`<`) and no character reference (`&`); for other names the search lemmas are about the name, not the text the browser shows.
- Utils.Normalize: is not idempotent (see `Utils.NormalizeNotIdempotent`). Its link to the two parsers is stated one line at a time (`Pipeline`), not for a whole document.
- Html.SearchTargets: states the article count only for texts without markup. Interpolated markup becomes markup of the page (`Html.TagInName`), and counting what a browser would parse from it is out of scope.
- Aliasing: the JavaScript objects are mutable and shared (`currentFunction` aliases the last element of `functions`); the model uses values, and replaces the last function instead.
- The CLI, the HTTP server's routing and file watching, `createIndexHTML` and the index page are outside the modelled core.
