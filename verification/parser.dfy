/** `parseNodeDoc` (src/parser.js): the canonical `.ndoc` parser.

    The content is split on `\n`; every line is trimmed, blank lines are
    skipped, and the rest are dispatched on their prefix, in this order:
    `[module:`, `desc:` while no function is open, `[function:`, and, once a
    function is open, `desc:`, `param:` and `return:` for that function. The
    open function (`currentFunction`) is always the last element of
    `functions`, so it exists exactly when `functions` is non-empty. */
module Parser {
  import opened Strings
  import opened Patterns
  import opened Model

  /** The prefix a trimmed line starts with. The five prefixes differ in their
      first two characters (see `PrefixesExclusive`), so testing them in this
      order picks the same branch as the parser's own order of tests. */
  datatype Directive = Blank | ModuleHeader | Desc | FunctionHeader | ParamEntry | ReturnEntry | Other

  function Classify(line: string): Directive {
    if line == [] then Blank
    else if StartsWith(line, "[module:") then ModuleHeader
    else if StartsWith(line, "desc:") then Desc
    else if StartsWith(line, "[function:") then FunctionHeader
    else if StartsWith(line, "param:") then ParamEntry
    else if StartsWith(line, "return:") then ReturnEntry
    else Other
  }

  /** `currentFunction !== null`. */
  predicate HasOpen(doc: Documentation) {
    |doc.mod.functions| > 0
  }

  function LastFunction(doc: Documentation): FunctionDoc
    requires HasOpen(doc)
  {
    doc.mod.functions[|doc.mod.functions| - 1]
  }

  /** The name inside `[module: ...]`: `line.slice(8, -1).trim()`. */
  function ModuleName(line: string): string {
    Trim(Slice(line, 8, -1))
  }

  /** The name inside `[function: ...]`: `line.slice(10, -1).trim()`. */
  function FunctionName(line: string): string {
    Trim(Slice(line, 10, -1))
  }

  /** The text after a `desc:` prefix: `line.slice(5).trim()`. */
  function DescText(line: string): string {
    Trim(SliceFrom(line, 5))
  }

  /** The parameter a `param:` line adds, if its pattern matches. */
  function ParamOf(line: string): Option<Param> {
    match SearchParam(SliceFrom(line, 6))
    case None => None
    case Some(g) => Some(Param(Trim(g.name), Trim(g.typ), Trim(g.desc)))
  }

  /** The return entry a `return:` line sets, if its pattern matches. */
  function ReturnOf(line: string): Option<Return> {
    match SearchReturn(SliceFrom(line, 7))
    case None => None
    case Some(g) => Some(Return(Trim(g.typ), Trim(g.desc)))
  }

  /** What a trimmed line does to the open function; its name never changes. */
  function FunctionLine(f: FunctionDoc, line: string): (r: FunctionDoc)
    ensures r.name == f.name
  {
    match Classify(line)
    case Desc => f.(desc := DescText(line))
    case ParamEntry =>
      (match ParamOf(line)
       case None => f
       case Some(p) => f.(params := f.params + [p]))
    case ReturnEntry =>
      (match ReturnOf(line)
       case None => f
       case Some(ret) => f.(ret := ret))
    case _ => f
  }

  /** One iteration of the `forEach` over the lines of the content. A function
      is added exactly by a `[function:` line, and every function but the open
      one is left alone. */
  function ParseLine(doc: Documentation, raw: string): (r: Documentation) {
    var line := Trim(raw);
    var fs := doc.mod.functions;
    match Classify(line)
    case Blank => doc
    case ModuleHeader => doc.(mod := doc.mod.(name := ModuleName(line)))
    case Desc =>
      if !HasOpen(doc) then doc.(mod := doc.mod.(desc := DescText(line)))
      else doc.(mod := doc.mod.(functions := WithLast(fs, FunctionLine(fs[|fs| - 1], line))))
    case FunctionHeader => doc.(mod := doc.mod.(functions := fs + [NewFunctionDoc(FunctionName(line))]))
    case _ =>
      if HasOpen(doc) then doc.(mod := doc.mod.(functions := WithLast(fs, FunctionLine(fs[|fs| - 1], line))))
      else doc
  }

  /** A function is added exactly by a `[function:` line. */
  lemma ParseLineNames(doc: Documentation, raw: string)
    ensures var r := ParseLine(doc, raw);
      && (IsFunctionLine(raw) ==> Names(r.mod.functions) == Names(doc.mod.functions) + [FunctionName(Trim(raw))])
      && (!IsFunctionLine(raw) ==> Names(r.mod.functions) == Names(doc.mod.functions))
  {
    var line := Trim(raw);
    var fs := doc.mod.functions;
    match Classify(line)
    case FunctionHeader =>
      NamesAppend(fs, NewFunctionDoc(FunctionName(line)));
    case Blank =>
    case ModuleHeader =>
    case _ =>
      if HasOpen(doc) {
        NamesWithLast(fs, FunctionLine(fs[|fs| - 1], line));
      }
  }

  /** Every function but the open one is left alone, and none is removed. */
  lemma ParseLineKeeps(doc: Documentation, raw: string)
    ensures var r := ParseLine(doc, raw);
      && |r.mod.functions| >= |doc.mod.functions|
      && forall k :: 0 <= k < |doc.mod.functions| - 1 ==> r.mod.functions[k] == doc.mod.functions[k]
  {
  }

  /** The module is named by `[module:` lines only. */
  lemma ParseLineModuleName(doc: Documentation, raw: string)
    ensures ParseLine(doc, raw).mod.name == if IsModuleLine(raw) then ModuleName(Trim(raw)) else doc.mod.name
  {
    if IsModuleLine(raw) {
      ParseLineModule(doc, raw);
    } else {
      ParseLineOtherName(doc, raw);
    }
  }

  lemma ParseLineOtherName(doc: Documentation, raw: string)
    requires Classify(Trim(raw)) != ModuleHeader
    ensures ParseLine(doc, raw).mod.name == doc.mod.name
  {
    match Classify(Trim(raw))
    case Blank =>
      TrimEmpty(raw);
      ParseLineBlank(doc, raw);
    case Desc =>
      if HasOpen(doc) {
        ParseLineFunctionDesc(doc, raw);
      } else {
        ParseLineModuleDesc(doc, raw);
      }
    case FunctionHeader =>
      ParseLineFunction(doc, raw);
    case _ =>
      if HasOpen(doc) {
        ParseLineOpen(doc, raw);
      } else {
        ParseLineNoFunction(doc, raw);
      }
  }

  /** The `forEach` over `lines`, in order, from the state `doc`. */
  function ParseLines(doc: Documentation, lines: seq<string>): Documentation
    decreases |lines|
  {
    if lines == [] then doc
    else ParseLine(ParseLines(doc, lines[..|lines| - 1]), lines[|lines| - 1])
  }

  /** Two lines are read in order. */
  lemma ParseLinesPair(doc: Documentation, a: string, b: string)
    ensures ParseLines(doc, [a, b]) == ParseLine(ParseLine(doc, a), b)
  {
    assert [a, b][..1] == [a];
    assert [a][..0] == [];
    assert ParseLines(doc, [a]) == ParseLine(ParseLines(doc, []), a);
  }

  lemma ParseLinesTriple(doc: Documentation, a: string, b: string, c: string)
    ensures ParseLines(doc, [a, b, c]) == ParseLine(ParseLine(ParseLine(doc, a), b), c)
  {
    var xs := [a, b, c];
    assert xs[..2] == [a, b] && xs[2] == c;
    assert ParseLines(doc, xs) == ParseLine(ParseLines(doc, [a, b]), c);
    ParseLinesPair(doc, a, b);
  }

  /** `parseNodeDoc`, applied to the content of the file rather than its path. */
  function ParseNodeDoc(content: string): Documentation {
    ParseLines(NewDocumentation(), Split(content, '\n'))
  }

  function Names(fs: seq<FunctionDoc>): (r: seq<string>)
    ensures |r| == |fs|
    ensures forall k :: 0 <= k < |fs| ==> r[k] == fs[k].name
  {
    seq(|fs|, k requires 0 <= k < |fs| => fs[k].name)
  }

  lemma NamesAppend(fs: seq<FunctionDoc>, f: FunctionDoc)
    ensures Names(fs + [f]) == Names(fs) + [f.name]
  {
  }

  lemma NamesWithLast(fs: seq<FunctionDoc>, f: FunctionDoc)
    requires |fs| > 0 && f.name == fs[|fs| - 1].name
    ensures Names(WithLast(fs, f)) == Names(fs)
  {
  }

  /** Whether the trimmed line is a `[module:` line. */
  predicate IsModuleLine(raw: string) {
    Classify(Trim(raw)) == ModuleHeader
  }

  /** Whether the trimmed line is a `[function:` line. */
  predicate IsFunctionLine(raw: string) {
    Classify(Trim(raw)) == FunctionHeader
  }

  // ---------------------------------------------------------------------------
  // One line at a time

  /** The five prefixes are told apart by their first two characters, so a
      line carries at most one of them. */
  lemma PrefixesExclusive(line: string)
    ensures StartsWith(line, "[function:") ==>
      !StartsWith(line, "[module:") && !StartsWith(line, "desc:")
        && !StartsWith(line, "param:") && !StartsWith(line, "return:")
    ensures StartsWith(line, "[module:") ==>
      !StartsWith(line, "desc:") && !StartsWith(line, "param:") && !StartsWith(line, "return:")
    ensures StartsWith(line, "desc:") ==> !StartsWith(line, "param:") && !StartsWith(line, "return:")
    ensures StartsWith(line, "param:") ==> !StartsWith(line, "return:")
  {
    if |line| >= 2 {
      assert StartsWith(line, "[function:") ==> line[..10][1] == 'f' && line[1] == 'f';
      assert StartsWith(line, "[module:") ==> line[..8][1] == 'm' && line[1] == 'm';
      assert StartsWith(line, "desc:") ==> line[..5][0] == 'd' && line[0] == 'd';
      assert StartsWith(line, "param:") ==> line[..6][0] == 'p' && line[0] == 'p';
      assert StartsWith(line, "return:") ==> line[..7][0] == 'r' && line[0] == 'r';
    }
  }

  /** A line is classified by the one prefix it carries, whatever order the
      prefixes are tested in. */
  lemma ClassifyExact(line: string)
    ensures Classify(line) == Blank <==> line == []
    ensures Classify(line) == ModuleHeader <==> StartsWith(line, "[module:")
    ensures Classify(line) == Desc <==> StartsWith(line, "desc:")
    ensures Classify(line) == FunctionHeader <==> StartsWith(line, "[function:")
    ensures Classify(line) == ParamEntry <==> StartsWith(line, "param:")
    ensures Classify(line) == ReturnEntry <==> StartsWith(line, "return:")
    ensures Classify(line) == Other <==>
      line != [] && !StartsWith(line, "[module:") && !StartsWith(line, "desc:")
        && !StartsWith(line, "[function:") && !StartsWith(line, "param:")
        && !StartsWith(line, "return:")
  {
    PrefixesExclusive(line);
  }

  /** A line that is blank after trimming changes nothing. */
  lemma ParseLineBlank(doc: Documentation, raw: string)
    requires AllSpace(raw)
    ensures ParseLine(doc, raw) == doc
  {
    TrimEmpty(raw);
  }

  /** A `[module:` line renames the module and touches nothing else; the name
      is empty when the line has no room between the prefix and its last
      character. */
  lemma ParseLineModule(doc: Documentation, raw: string)
    requires Classify(Trim(raw)) == ModuleHeader
    ensures var line := Trim(raw);
      && ParseLine(doc, raw).mod.name == ModuleName(line)
      && ParseLine(doc, raw).mod.desc == doc.mod.desc
      && ParseLine(doc, raw).mod.functions == doc.mod.functions
      && (|line| <= 9 ==> ParseLine(doc, raw).mod.name == [])
  {
    var line := Trim(raw);
    if |line| <= 9 {
      assert Slice(line, 8, -1) == [];
    }
  }

  /** `desc:` before the first function describes the module. */
  lemma ParseLineModuleDesc(doc: Documentation, raw: string)
    requires Classify(Trim(raw)) == Desc && !HasOpen(doc)
    ensures ParseLine(doc, raw) == doc.(mod := doc.mod.(desc := DescText(Trim(raw))))
  {
  }

  /** `desc:` inside a function describes that function and never the module. */
  lemma ParseLineFunctionDesc(doc: Documentation, raw: string)
    requires Classify(Trim(raw)) == Desc && HasOpen(doc)
    ensures var r := ParseLine(doc, raw);
      && r.mod.name == doc.mod.name && r.mod.desc == doc.mod.desc
      && r.mod.functions == WithLast(doc.mod.functions, LastFunction(doc).(desc := DescText(Trim(raw))))
  {
  }

  /** Each `[function:` line appends one fresh function, which becomes the open
      one, whether or not a function was open before. */
  lemma ParseLineFunction(doc: Documentation, raw: string)
    requires Classify(Trim(raw)) == FunctionHeader
    ensures var r := ParseLine(doc, raw);
      && r.mod.name == doc.mod.name && r.mod.desc == doc.mod.desc
      && r.mod.functions == doc.mod.functions + [NewFunctionDoc(FunctionName(Trim(raw)))]
      && HasOpen(r) && LastFunction(r) == NewFunctionDoc(FunctionName(Trim(raw)))
  {
    var line := Trim(raw);
    var f := NewFunctionDoc(FunctionName(line));
    var fs := doc.mod.functions + [f];
    assert ParseLine(doc, raw) == doc.(mod := doc.mod.(functions := fs));
    assert fs[|fs| - 1] == f;
  }

  /** Before the first function, `param:`, `return:` and unrecognised lines
      change nothing. */
  lemma ParseLineNoFunction(doc: Documentation, raw: string)
    requires !HasOpen(doc)
    requires Classify(Trim(raw)) == ParamEntry || Classify(Trim(raw)) == ReturnEntry || Classify(Trim(raw)) == Other
    ensures ParseLine(doc, raw) == doc
  {
  }

  /** Once a function is open, a line that is neither blank nor a header goes
      to the open function. */
  lemma ParseLineOpen(doc: Documentation, raw: string)
    requires HasOpen(doc)
    requires Classify(Trim(raw)) !in {Blank, ModuleHeader, FunctionHeader}
    ensures ParseLine(doc, raw)
         == doc.(mod := doc.mod.(functions := WithLast(doc.mod.functions, FunctionLine(LastFunction(doc), Trim(raw)))))
  {
    var line := Trim(raw);
    var fs := doc.mod.functions;
    var f := FunctionLine(fs[|fs| - 1], line);
    if Classify(line) == Desc {
      assert ParseLine(doc, raw) == doc.(mod := doc.mod.(functions := WithLast(fs, f)));
    } else {
      assert ParseLine(doc, raw) == doc.(mod := doc.mod.(functions := WithLast(fs, f)));
    }
  }

  /** What a `param:` line does to the open function. */
  lemma FunctionLineParam(f: FunctionDoc, line: string)
    requires Classify(line) == ParamEntry
    ensures FunctionLine(f, line) == match ParamOf(line)
                                     case None => f
                                     case Some(p) => f.(params := f.params + [p])
  {
  }

  /** What a `return:` line does to the open function. */
  lemma FunctionLineReturn(f: FunctionDoc, line: string)
    requires Classify(line) == ReturnEntry
    ensures FunctionLine(f, line) == match ReturnOf(line)
                                     case None => f
                                     case Some(ret) => f.(ret := ret)
  {
  }

  /** A `param:` line appends one parameter to the open function when the
      pattern matches, and changes nothing otherwise. */
  lemma ParseLineParam(doc: Documentation, raw: string)
    requires Classify(Trim(raw)) == ParamEntry && HasOpen(doc)
    ensures var r := ParseLine(doc, raw);
      match ParamOf(Trim(raw))
      case None => r == doc
      case Some(p) =>
        && r.mod.name == doc.mod.name && r.mod.desc == doc.mod.desc
        && r.mod.functions == WithLast(doc.mod.functions,
                                       LastFunction(doc).(params := LastFunction(doc).params + [p]))
  {
    var line := Trim(raw);
    ParseLineOpen(doc, raw);
    FunctionLineParam(LastFunction(doc), line);
    if ParamOf(line).None? {
      WithLastSame(doc.mod.functions);
    }
  }

  /** A parameter's name and type are single words and its description is
      trimmed. */
  lemma ParamOfSound(line: string)
    ensures ParamOf(line).Some? ==>
      var p := ParamOf(line).value;
      IsWord(p.name) && IsWord(p.typ) && IsTrimmed(p.desc)
  {
    SearchParamSound(SliceFrom(line, 6));
    match SearchParam(SliceFrom(line, 6))
    case None =>
    case Some(g) =>
      WordTrimmed(g.name);
      WordTrimmed(g.typ);
      TrimTrimmed(g.name);
      TrimTrimmed(g.typ);
  }

  /** A matching `return:` line replaces the open function's return entry, so
      the last match wins; a line that does not match changes nothing. */
  lemma ParseLineReturn(doc: Documentation, raw: string)
    requires Classify(Trim(raw)) == ReturnEntry && HasOpen(doc)
    ensures var r := ParseLine(doc, raw);
      match ReturnOf(Trim(raw))
      case None => r == doc
      case Some(ret) =>
        && r.mod.name == doc.mod.name && r.mod.desc == doc.mod.desc
        && r.mod.functions == WithLast(doc.mod.functions, LastFunction(doc).(ret := ret))
  {
    var line := Trim(raw);
    ParseLineOpen(doc, raw);
    FunctionLineReturn(LastFunction(doc), line);
    if ReturnOf(line).None? {
      WithLastSame(doc.mod.functions);
    }
  }

  /** A return entry's type is a single word and its description is trimmed. */
  lemma ReturnOfSound(line: string)
    ensures ReturnOf(line).Some? ==>
      var ret := ReturnOf(line).value;
      IsWord(ret.typ) && IsTrimmed(ret.desc)
  {
    SearchReturnSound(SliceFrom(line, 7));
    match SearchReturn(SliceFrom(line, 7))
    case None =>
    case Some(g) =>
      WordTrimmed(g.typ);
      TrimTrimmed(g.typ);
  }

  /** Inside a function, a line with none of the known prefixes is dropped. */
  lemma ParseLineUnknown(doc: Documentation, raw: string)
    requires HasOpen(doc) && Classify(Trim(raw)) == Other
    ensures ParseLine(doc, raw) == doc
  {
    ParseLineOpen(doc, raw);
    WithLastSame(doc.mod.functions);
  }

  /** A word has no white space at either end. */
  lemma WordTrimmed(w: string)
    requires IsWord(w)
    ensures IsTrimmed(w)
  {
    assert IsWordChar(w[0]) && IsWordChar(w[|w| - 1]);
  }

  // ---------------------------------------------------------------------------
  // Whole documents

  /** The names of the `[function:` lines, in source order: a definition of the
      function list that does not go through the parser's state. */
  function FunctionLineNames(lines: seq<string>): seq<string>
    decreases |lines|
  {
    if lines == [] then []
    else
      var init := FunctionLineNames(lines[..|lines| - 1]);
      var last := lines[|lines| - 1];
      if IsFunctionLine(last) then init + [FunctionName(Trim(last))] else init
  }

  /** One function per `[function:` line, named after it, in source order. */
  lemma {:induction false} ParseLinesNames(doc: Documentation, lines: seq<string>)
    ensures Names(ParseLines(doc, lines).mod.functions) == Names(doc.mod.functions) + FunctionLineNames(lines)
    decreases |lines|
  {
    if lines != [] {
      var init, last := lines[..|lines| - 1], lines[|lines| - 1];
      ParseLinesNames(doc, init);
      ParseLineNames(ParseLines(doc, init), last);
      var a, b := Names(doc.mod.functions), FunctionLineNames(init);
      if IsFunctionLine(last) {
        var c := [FunctionName(Trim(last))];
        assert FunctionLineNames(lines) == b + c;
        assert Names(ParseLines(doc, lines).mod.functions) == (a + b) + c;
        AppendAssoc(a, b, c);
      } else {
        assert FunctionLineNames(lines) == b;
      }
    }
  }

  /** A document's function list holds one function per `[function:` line of
      its content, named after it, in source order. */
  lemma ParseNodeDocFunctions(content: string)
    ensures Names(ParseNodeDoc(content).mod.functions) == FunctionLineNames(Split(content, '\n'))
  {
    var lines := Split(content, '\n');
    ParseLinesNames(NewDocumentation(), lines);
    AppendEmpty(Names(NewDocumentation().mod.functions), FunctionLineNames(lines));
  }

  /** The module name is set by the last `[module:` line; with none, the
      starting name is kept. */
  function LastModuleName(lines: seq<string>, start: string): string
    decreases |lines|
  {
    if lines == [] then start
    else
      var last := lines[|lines| - 1];
      if IsModuleLine(last) then ModuleName(Trim(last))
      else LastModuleName(lines[..|lines| - 1], start)
  }

  /** Each `[module:` line overwrites the module name, so the last one wins. */
  lemma {:induction false} ParseLinesModuleName(doc: Documentation, lines: seq<string>)
    ensures ParseLines(doc, lines).mod.name == LastModuleName(lines, doc.mod.name)
    decreases |lines|
  {
    if lines != [] {
      ParseLinesModuleName(doc, lines[..|lines| - 1]);
      ParseLineModuleName(ParseLines(doc, lines[..|lines| - 1]), lines[|lines| - 1]);
    }
  }

  /** Only the open function is ever changed: every function before the last
      one is frozen by all later lines, and functions are never removed. */
  lemma {:induction false} ParseLinesFrozen(doc: Documentation, lines: seq<string>)
    ensures |ParseLines(doc, lines).mod.functions| >= |doc.mod.functions|
    ensures forall k :: 0 <= k < |doc.mod.functions| - 1 ==>
              ParseLines(doc, lines).mod.functions[k] == doc.mod.functions[k]
    decreases |lines|
  {
    if lines != [] {
      ParseLinesFrozen(doc, lines[..|lines| - 1]);
      ParseLineKeeps(ParseLines(doc, lines[..|lines| - 1]), lines[|lines| - 1]);
    }
  }

  /** Content with no non-blank line parses to a fresh document. */
  lemma {:induction false} ParseLinesBlank(doc: Documentation, lines: seq<string>)
    requires forall k :: 0 <= k < |lines| ==> AllSpace(lines[k])
    ensures ParseLines(doc, lines) == doc
    decreases |lines|
  {
    if lines != [] {
      ParseLinesBlank(doc, lines[..|lines| - 1]);
      ParseLineBlank(ParseLines(doc, lines[..|lines| - 1]), lines[|lines| - 1]);
    }
  }

  lemma ParseNodeDocBlank(content: string)
    requires AllSpace(content)
    ensures ParseNodeDoc(content) == NewDocumentation()
  {
    var lines := Split(content, '\n');
    forall k | 0 <= k < |lines|
      ensures AllSpace(lines[k])
    {
      SplitPartsOfSpace(content, k);
    }
    ParseLinesBlank(NewDocumentation(), lines);
  }

  /** Every part of a white-space text is white space. */
  lemma {:induction false} SplitPartsOfSpace(s: string, k: nat)
    requires AllSpace(s) && k < |Split(s, '\n')|
    ensures AllSpace(Split(s, '\n')[k])
    decreases |s|
  {
    if |s| > 0 {
      var rest := Split(s[1..], '\n');
      if s[0] == '\n' {
        if k > 0 {
          SplitPartsOfSpace(s[1..], k - 1);
        }
      } else {
        if k == 0 {
          SplitPartsOfSpace(s[1..], 0);
          assert Split(s, '\n')[0] == [s[0]] + rest[0];
        } else {
          SplitPartsOfSpace(s[1..], k);
        }
      }
    }
  }
}
