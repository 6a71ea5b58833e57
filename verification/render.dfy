/** The browser renderer (src/render.js): a second parser of the `.ndoc`
    text, the HTML it builds from the result, and the search filter.

    The renderer's parser differs from `parseNodeDoc`: it never reads a
    `desc:` line that comes before the first function, it takes the module
    description from the line right after the module line instead, and it
    keeps the regex groups of `param:` and `return:` lines untrimmed. */
module Render {
  import opened Strings
  import opened Patterns
  import opened Model
  import Parser

  /** The renderer's local variables: `moduleName`, `moduleDesc` and
      `functions`; `currentFunction` is the last function, if any. */
  datatype RenderState = RenderState(moduleName: string, moduleDesc: string, functions: seq<FunctionDoc>)

  function InitialState(): (st: RenderState)
    ensures st.moduleName == [] && st.moduleDesc == [] && st.functions == []
  {
    RenderState("", "", [])
  }

  /** `lines.indexOf(x)`: the first position of `x`, or -1. */
  function IndexOf(lines: seq<string>, x: string): (r: int)
    ensures -1 <= r < |lines|
    ensures r == -1 <==> x !in lines
    ensures r >= 0 ==> lines[r] == x && forall k :: 0 <= k < r ==> lines[k] != x
    decreases |lines|
  {
    if lines == [] then -1
    else if lines[0] == x then 0
    else
      var r := IndexOf(lines[1..], x);
      if r == -1 then -1 else r + 1
  }

  /** `lines[lines.indexOf(line) + 1]?.slice(5).trim() || ''`: the line after
      the first occurrence of `line`, whatever it says, minus five characters. */
  function NextDesc(lines: seq<string>, line: string): string {
    var i := IndexOf(lines, line);
    if i + 1 < |lines| then Trim(SliceFrom(lines[i + 1], 5)) else ""
  }

  /** What a trimmed line does to the current function; the regex groups are
      stored as matched. */
  function RenderFunctionLine(f: FunctionDoc, line: string): (r: FunctionDoc)
    ensures r.name == f.name
  {
    match Parser.Classify(line)
    case Desc => f.(desc := Parser.DescText(line))
    case ParamEntry =>
      (match SearchParam(SliceFrom(line, 6))
       case None => f
       case Some(g) => f.(params := f.params + [Param(g.name, g.typ, g.desc)]))
    case ReturnEntry =>
      (match SearchReturn(SliceFrom(line, 7))
       case None => f
       case Some(g) => f.(ret := Return(g.typ, g.desc)))
    case _ => f
  }

  /** One iteration of the renderer's `forEach`, on the trimmed line `line` of
      the trimmed lines `lines`. Dispatching through `Classify` follows the
      renderer's own order: blank, `[module:`, `[function:`, then the lines
      of the current function. */
  function RenderLine(lines: seq<string>, st: RenderState, line: string): (r: RenderState)
    ensures |st.functions| <= |r.functions| <= |st.functions| + 1
  {
    var fs := st.functions;
    match Parser.Classify(line)
    case Blank => st
    case ModuleHeader => st.(moduleName := Parser.ModuleName(line), moduleDesc := NextDesc(lines, line))
    case FunctionHeader => st.(functions := fs + [NewFunctionDoc(Parser.FunctionName(line))])
    case _ =>
      if |fs| > 0 then st.(functions := WithLast(fs, RenderFunctionLine(fs[|fs| - 1], line)))
      else st
  }

  /** The `forEach` over the parts of the text, each trimmed as by the
      `.map(line => line.trim())` that builds `lines`. */
  function RenderLines(lines: seq<string>, st: RenderState, parts: seq<string>): RenderState
    decreases |parts|
  {
    if parts == [] then st
    else RenderLine(lines, RenderLines(lines, st, parts[..|parts| - 1]), Trim(parts[|parts| - 1]))
  }

  /** The state `render(data)` builds before it writes any HTML. */
  function RenderParse(data: string): RenderState {
    var parts := Split(data, '\n');
    RenderLines(TrimAll(parts), InitialState(), parts)
  }

  // ---------------------------------------------------------------------------
  // Agreement with parseNodeDoc

  /** The parser's view of a parameter: every regex group trimmed. */
  function CanonParam(p: Param): Param {
    Param(Trim(p.name), Trim(p.typ), Trim(p.desc))
  }

  function CanonParams(ps: seq<Param>): (r: seq<Param>)
    ensures |r| == |ps|
    ensures forall i :: 0 <= i < |ps| ==> r[i] == CanonParam(ps[i])
  {
    seq(|ps|, i requires 0 <= i < |ps| => CanonParam(ps[i]))
  }

  /** The parser's view of a function the renderer built. */
  function Canon(f: FunctionDoc): FunctionDoc {
    FunctionDoc(f.name, f.desc, CanonParams(f.params), Return(Trim(f.ret.typ), Trim(f.ret.desc)))
  }

  function CanonAll(fs: seq<FunctionDoc>): (r: seq<FunctionDoc>)
    ensures |r| == |fs|
    ensures forall i :: 0 <= i < |fs| ==> r[i] == Canon(fs[i])
  {
    seq(|fs|, i requires 0 <= i < |fs| => Canon(fs[i]))
  }

  lemma CanonParamsAppend(ps: seq<Param>, p: Param)
    ensures CanonParams(ps + [p]) == CanonParams(ps) + [CanonParam(p)]
  {
    var r, q := CanonParams(ps + [p]), CanonParams(ps) + [CanonParam(p)];
    forall i | 0 <= i < |r|
      ensures r[i] == q[i]
    {
      if i < |ps| {
        assert (ps + [p])[i] == ps[i];
      }
    }
    SeqExt(r, q);
  }

  lemma CanonAllAppend(fs: seq<FunctionDoc>, f: FunctionDoc)
    ensures CanonAll(fs + [f]) == CanonAll(fs) + [Canon(f)]
  {
    var r, q := CanonAll(fs + [f]), CanonAll(fs) + [Canon(f)];
    forall i | 0 <= i < |r|
      ensures r[i] == q[i]
    {
      if i < |fs| {
        assert (fs + [f])[i] == fs[i];
      }
    }
    SeqExt(r, q);
  }

  lemma CanonAllWithLast(fs: seq<FunctionDoc>, f: FunctionDoc)
    requires |fs| > 0
    ensures CanonAll(WithLast(fs, f)) == WithLast(CanonAll(fs), Canon(f))
  {
    var n := |fs| - 1;
    assert WithLast(fs, f) == fs[..n] + [f];
    CanonAllAppend(fs[..n], f);
    CanonAllPrefix(fs, n);
    assert WithLast(CanonAll(fs), Canon(f)) == CanonAll(fs)[..n] + [Canon(f)];
  }

  lemma CanonAllPrefix(fs: seq<FunctionDoc>, n: nat)
    requires n <= |fs|
    ensures CanonAll(fs[..n]) == CanonAll(fs)[..n]
  {
    var a, b := CanonAll(fs[..n]), CanonAll(fs)[..n];
    forall i | 0 <= i < n
      ensures a[i] == b[i]
    {
      assert fs[..n][i] == fs[i];
    }
    SeqExt(a, b);
  }

  lemma CanonNew(name: string)
    ensures Canon(NewFunctionDoc(name)) == NewFunctionDoc(name)
  {
    TrimEmpty([]);
  }

  /** On the lines of an open function, the renderer does what the parser
      does, up to the trimming of the regex groups. */
  lemma CanonFunctionLine(f: FunctionDoc, line: string)
    ensures Canon(RenderFunctionLine(f, line)) == Parser.FunctionLine(Canon(f), line)
  {
    match Parser.Classify(line)
    case ParamEntry => {
      match SearchParam(SliceFrom(line, 6))
      case None =>
      case Some(g) =>
        CanonParamsAppend(f.params, Param(g.name, g.typ, g.desc));
    }
    case _ =>
  }

  /** One line: if the two function lists agree before it, they agree after. */
  lemma AgreeLine(lines: seq<string>, st: RenderState, doc: Documentation, raw: string)
    requires doc.mod.functions == CanonAll(st.functions)
    ensures Parser.ParseLine(doc, raw).mod.functions == CanonAll(RenderLine(lines, st, Trim(raw)).functions)
  {
    var line := Trim(raw);
    var fs := st.functions;
    match Parser.Classify(line)
    case Blank =>
      TrimEmpty(raw);
      Parser.ParseLineBlank(doc, raw);
    case ModuleHeader =>
      Parser.ParseLineModule(doc, raw);
    case FunctionHeader =>
      Parser.ParseLineFunction(doc, raw);
      CanonAllAppend(fs, NewFunctionDoc(Parser.FunctionName(line)));
      CanonNew(Parser.FunctionName(line));
    case Desc =>
      if |fs| == 0 {
        Parser.ParseLineModuleDesc(doc, raw);
      } else {
        Parser.ParseLineOpen(doc, raw);
        CanonAllWithLast(fs, RenderFunctionLine(fs[|fs| - 1], line));
        CanonFunctionLine(fs[|fs| - 1], line);
      }
    case _ =>
      if |fs| == 0 {
        Parser.ParseLineNoFunction(doc, raw);
      } else {
        Parser.ParseLineOpen(doc, raw);
        CanonAllWithLast(fs, RenderFunctionLine(fs[|fs| - 1], line));
        CanonFunctionLine(fs[|fs| - 1], line);
      }
  }

  /** Line by line, the renderer builds the parser's function list up to the
      trimming of the regex groups. */
  lemma {:induction false} AgreeLines(lines: seq<string>, st: RenderState, doc: Documentation, parts: seq<string>)
    requires doc.mod.functions == CanonAll(st.functions)
    ensures Parser.ParseLines(doc, parts).mod.functions == CanonAll(RenderLines(lines, st, parts).functions)
    decreases |parts|
  {
    if parts != [] {
      var init := parts[..|parts| - 1];
      AgreeLines(lines, st, doc, init);
      AgreeLine(lines, RenderLines(lines, st, init), Parser.ParseLines(doc, init), parts[|parts| - 1]);
    }
  }

  /** Each `[module:` line overwrites the module name, as in the parser. */
  lemma {:induction false} RenderLinesModuleName(lines: seq<string>, st: RenderState, parts: seq<string>)
    ensures RenderLines(lines, st, parts).moduleName == Parser.LastModuleName(parts, st.moduleName)
    decreases |parts|
  {
    if parts != [] {
      RenderLinesModuleName(lines, st, parts[..|parts| - 1]);
    }
  }

  /** Both readers of a `.ndoc` text find the same module name and the same
      functions, with the same names, descriptions, parameters and return
      entries once the renderer's regex groups are trimmed. */
  lemma RenderAgreesWithParser(data: string)
    ensures RenderParse(data).moduleName == Parser.ParseNodeDoc(data).mod.name
    ensures Parser.ParseNodeDoc(data).mod.functions == CanonAll(RenderParse(data).functions)
  {
    var parts := Split(data, '\n');
    AgreeLines(TrimAll(parts), InitialState(), NewDocumentation(), parts);
    RenderLinesModuleName(TrimAll(parts), InitialState(), parts);
    Parser.ParseLinesModuleName(NewDocumentation(), parts);
  }

  // ---------------------------------------------------------------------------
  // The module description

  /** The position of the last element satisfying `p`, or -1 when there is none. */
  function LastWhere<T>(xs: seq<T>, p: T -> bool): (j: int)
    ensures -1 <= j < |xs|
    ensures j >= 0 ==> p(xs[j])
    ensures forall k :: j < k < |xs| ==> !p(xs[k])
    decreases |xs|
  {
    if xs == [] then -1
    else if p(xs[|xs| - 1]) then |xs| - 1
    else LastWhere(xs[..|xs| - 1], p)
  }

  /** The position of the last `[module:` line, or -1 when there is none. */
  function LastModuleIndex(parts: seq<string>): (j: int)
    ensures -1 <= j < |parts|
    ensures j >= 0 ==> Parser.IsModuleLine(parts[j])
    ensures forall k :: j < k < |parts| ==> !Parser.IsModuleLine(parts[k])
  {
    LastWhere(parts, Parser.IsModuleLine)
  }

  /** The renderer's module name and description both come from the last
      `[module:` line: the description is what `NextDesc` reads after it. */
  lemma {:induction false} RenderLinesModule(lines: seq<string>, st: RenderState, parts: seq<string>)
    ensures var r, j := RenderLines(lines, st, parts), LastModuleIndex(parts);
      && r.moduleName == (if j < 0 then st.moduleName else Parser.ModuleName(Trim(parts[j])))
      && r.moduleDesc == (if j < 0 then st.moduleDesc else NextDesc(lines, Trim(parts[j])))
    decreases |parts|
  {
    if parts != [] {
      var init := parts[..|parts| - 1];
      RenderLinesModule(lines, st, init);
      RenderLineModule(lines, RenderLines(lines, st, init), Trim(parts[|parts| - 1]));
      LastModuleIndexSnoc(parts);
    }
  }

  /** Only a `[module:` line sets the module name and description. */
  lemma RenderLineModule(lines: seq<string>, st: RenderState, line: string)
    ensures var r := RenderLine(lines, st, line);
      && r.moduleName == (if Parser.Classify(line) == Parser.ModuleHeader then Parser.ModuleName(line) else st.moduleName)
      && r.moduleDesc == (if Parser.Classify(line) == Parser.ModuleHeader then NextDesc(lines, line) else st.moduleDesc)
  {
  }

  lemma LastModuleIndexSnoc(parts: seq<string>)
    requires parts != []
    ensures LastModuleIndex(parts) ==
      if Parser.IsModuleLine(parts[|parts| - 1]) then |parts| - 1 else LastModuleIndex(parts[..|parts| - 1])
  {
  }

  /** `NextDesc` reads the line after the FIRST occurrence of the module line,
      whatever that line is: its first five characters are dropped without
      checking for `desc:`. */
  lemma NextDescFirst(lines: seq<string>, i: nat)
    requires i < |lines|
    requires forall k :: 0 <= k < i ==> lines[k] != lines[i]
    ensures NextDesc(lines, lines[i]) == if i + 1 < |lines| then Trim(SliceFrom(lines[i + 1], 5)) else ""
  {
    var r := IndexOf(lines, lines[i]);
    assert lines[r] == lines[i];
  }

  /** When the `desc:` line `dl` comes right after the module line `m`, both
      readers take the module description from it. */
  lemma ModuleDescAdjacent(m: string, dl: string)
    requires Parser.Classify(m) == Parser.ModuleHeader && IsTrimmed(m)
    requires Parser.Classify(dl) == Parser.Desc && IsTrimmed(dl)
    ensures Parser.ParseLines(NewDocumentation(), [m, dl]).mod.desc == Parser.DescText(dl)
    ensures RenderLines(TrimAll([m, dl]), InitialState(), [m, dl]).moduleDesc == Parser.DescText(dl)
  {
    ParseModuleThenDesc(m, dl);
    RenderModuleThenDesc(m, dl);
  }

  lemma ParseModuleThenDesc(m: string, dl: string)
    requires Parser.Classify(m) == Parser.ModuleHeader && IsTrimmed(m)
    requires Parser.Classify(dl) == Parser.Desc && IsTrimmed(dl)
    ensures Parser.ParseLines(NewDocumentation(), [m, dl]).mod.desc == Parser.DescText(dl)
  {
    TrimTrimmed(m);
    TrimTrimmed(dl);
    var d0 := NewDocumentation();
    Parser.ParseLinesPair(d0, m, dl);
    Parser.ParseLineModule(d0, m);
    Parser.ParseLineModuleDesc(Parser.ParseLine(d0, m), dl);
  }

  lemma RenderModuleThenDesc(m: string, dl: string)
    requires Parser.Classify(m) == Parser.ModuleHeader && IsTrimmed(m)
    requires Parser.Classify(dl) == Parser.Desc && IsTrimmed(dl)
    ensures RenderLines(TrimAll([m, dl]), InitialState(), [m, dl]).moduleDesc == Parser.DescText(dl)
  {
    var parts := [m, dl];
    TrimTrimmed(m);
    TrimTrimmed(dl);
    assert parts[0] == m && parts[1] == dl;
    assert LastModuleIndex(parts) == 0 by {
      assert !Parser.IsModuleLine(dl);
      assert Parser.IsModuleLine(m);
    }
    RenderLinesModule(TrimAll(parts), InitialState(), parts);
    NextDescFirst(TrimAll(parts), 0);
  }

  /** A blank line between the module line and its `desc:` line is harmless to
      the parser, which reads a `desc:` line wherever it is before the first
      function, but leaves the renderer's module description empty, because
      the renderer reads only the line right after the module line. */
  lemma ModuleDescSeparated(m: string, dl: string)
    requires Parser.Classify(m) == Parser.ModuleHeader && IsTrimmed(m)
    requires Parser.Classify(dl) == Parser.Desc && IsTrimmed(dl)
    ensures Parser.ParseLines(NewDocumentation(), [m, "", dl]).mod.desc == Parser.DescText(dl)
    ensures RenderLines(TrimAll([m, "", dl]), InitialState(), [m, "", dl]).moduleDesc == []
  {
    ParseModuleBlankDesc(m, dl);
    RenderModuleBlankDesc(m, dl);
  }

  lemma ParseModuleBlankDesc(m: string, dl: string)
    requires Parser.Classify(m) == Parser.ModuleHeader && IsTrimmed(m)
    requires Parser.Classify(dl) == Parser.Desc && IsTrimmed(dl)
    ensures Parser.ParseLines(NewDocumentation(), [m, "", dl]).mod.desc == Parser.DescText(dl)
  {
    TrimTrimmed(m);
    TrimTrimmed(dl);
    var d0 := NewDocumentation();
    Parser.ParseLinesTriple(d0, m, "", dl);
    Parser.ParseLineModule(d0, m);
    var d1 := Parser.ParseLine(d0, m);
    Parser.ParseLineBlank(d1, "");
    Parser.ParseLineModuleDesc(d1, dl);
  }

  lemma RenderModuleBlankDesc(m: string, dl: string)
    requires Parser.Classify(m) == Parser.ModuleHeader && IsTrimmed(m)
    requires Parser.Classify(dl) == Parser.Desc && IsTrimmed(dl)
    ensures RenderLines(TrimAll([m, "", dl]), InitialState(), [m, "", dl]).moduleDesc == []
  {
    ModuleBlankDescIndex(m, dl);
    ModuleBlankDescTrimmed(m, dl);
    ModuleBlankDescNext(m, dl);
    RenderLinesModule([m, "", dl], InitialState(), [m, "", dl]);
    TrimTrimmed(m);
  }

  lemma ModuleBlankDescIndex(m: string, dl: string)
    requires Parser.Classify(m) == Parser.ModuleHeader && IsTrimmed(m)
    requires Parser.Classify(dl) == Parser.Desc && IsTrimmed(dl)
    ensures LastModuleIndex([m, "", dl]) == 0
  {
    var parts := [m, "", dl];
    TrimTrimmed(m);
    TrimTrimmed(dl);
    TrimEmpty([]);
    assert parts[0] == m && parts[1] == [] && parts[2] == dl;
    assert !Parser.IsModuleLine(dl);
    assert !Parser.IsModuleLine("");
    assert Parser.IsModuleLine(m);
  }

  lemma ModuleBlankDescTrimmed(m: string, dl: string)
    requires IsTrimmed(m) && IsTrimmed(dl)
    ensures TrimAll([m, "", dl]) == [m, "", dl]
  {
    TrimTrimmed(m);
    TrimTrimmed(dl);
    TrimEmpty([]);
    var a, b := TrimAll([m, "", dl]), [m, "", dl];
    assert a[0] == b[0] && a[1] == b[1] && a[2] == b[2];
    SeqExt(a, b);
  }

  /** The line after the module line is blank, so `slice(5)` of it is empty. */
  lemma ModuleBlankDescNext(m: string, dl: string)
    requires m != []
    ensures NextDesc([m, "", dl], m) == []
  {
    var lines := [m, "", dl];
    NextDescFirst(lines, 0);
    TrimEmpty([]);
  }

  // ---------------------------------------------------------------------------
  // The search box

  /** Whether the search box leaves a function's article displayed: its name,
      lower-cased, contains the query, lower-cased. */
  predicate Visible(name: string, query: string) {
    Contains(Lower(name), Lower(query))
  }

  /** Lower-casing is applied letter by letter, so it distributes over `+`. */
  lemma LowerAppend(a: string, b: string)
    ensures Lower(a + b) == Lower(a) + Lower(b)
  {
  }

  /** An empty search box shows every function. */
  lemma SearchEmpty(name: string)
    ensures Visible(name, "")
  {
    assert OccursAt(Lower(name), Lower(""), 0);
  }

  /** Searching for a function's own name, in any case, finds it. */
  lemma SearchSelf(name: string, query: string)
    requires Lower(query) == Lower(name)
    ensures Visible(name, query)
  {
    assert Lower(name)[0..|Lower(name)|] == Lower(name);
    assert OccursAt(Lower(name), Lower(query), 0);
  }

  /** The case of the query and of the name does not matter. */
  lemma SearchCase(name: string, query: string)
    ensures Visible(name, query) == Visible(Lower(name), query) == Visible(name, Lower(query))
  {
    LowerIdempotent(name);
    LowerIdempotent(query);
  }

  /** Typing more hides more: a function displayed for a longer query is
      displayed for each of its parts, and the query is no longer than the name. */
  lemma SearchNarrows(name: string, q1: string, q2: string)
    requires Visible(name, q1 + q2)
    ensures Visible(name, q1) && Visible(name, q2)
    ensures |q1| + |q2| <= |name|
  {
    var s, a, b := Lower(name), Lower(q1), Lower(q2);
    LowerAppend(q1, q2);
    var i :| OccursAt(s, a + b, i);
    assert s[i..i + |a|] == (a + b)[..|a|] == a;
    assert OccursAt(s, a, i);
    assert s[i + |a|..i + |a| + |b|] == (a + b)[|a|..] == b;
    assert OccursAt(s, b, i + |a|);
  }
}
