/** The page `render(data)` writes (src/render.js): the sidebar and the content
    panel, filled from the state the renderer builds out of the text. Neither
    template escapes what it interpolates, so the count of elements the search
    box filters depends on the text carrying no markup; here that condition is
    stated about the text itself: every field the renderer stores is cut out
    of the text, so a text without `<` gives fields without `<`. */
module Page {
  import opened Strings
  import opened Patterns
  import opened Model
  import Parser
  import Render
  import Html

  /** The sidebar written for the text `data`. */
  function PageSidebar(data: string): string {
    Html.Sidebar(Render.RenderParse(data).moduleName)
  }

  /** The content panel written for the text `data`. */
  function PageContent(data: string): string {
    var st := Render.RenderParse(data);
    Html.Content(st.moduleName, st.moduleDesc, st.functions)
  }

  /** A render state none of whose fields carries markup. */
  predicate PlainState(st: Render.RenderState) {
    && Html.Plain(st.moduleName) && Html.Plain(st.moduleDesc)
    && forall k :: 0 <= k < |st.functions| ==> Html.PlainFunction(st.functions[k])
  }

  // ---------------------------------------------------------------------------
  // What is cut out of a text without `<` has no `<`

  lemma PlainSlice(s: string, i: nat, j: nat)
    requires i <= j <= |s| && Html.Plain(s)
    ensures Html.Plain(s[i..j])
  {
  }

  lemma PlainTrim(s: string)
    requires Html.Plain(s)
    ensures Html.Plain(Trim(s))
  {
    TrimStartSuffix(s);
    var t := TrimStart(s);
    PlainSlice(s, |s| - |t|, |s|);
    PlainSlice(t, 0, |TrimEnd(t)|);
  }

  lemma PlainSliceOf(s: string, a: int, b: int)
    requires Html.Plain(s)
    ensures Html.Plain(Slice(s, a, b))
  {
    var from, to := SliceIndex(a, |s|), SliceIndex(b, |s|);
    if from < to {
      PlainSlice(s, from, to);
    }
  }

  /** `data.split('\n')` cuts the text into pieces of it. */
  lemma {:induction false} PlainSplit(s: string, sep: char)
    requires Html.Plain(s)
    ensures forall i :: 0 <= i < |Split(s, sep)| ==> Html.Plain(Split(s, sep)[i])
    decreases |s|
  {
    if |s| > 0 {
      PlainSlice(s, 1, |s|);
      PlainSplit(s[1..], sep);
      assert s[0] != '<' by {
        assert s[0] in s;
      }
    }
  }

  /** The groups of a parameter match are pieces of the text. */
  lemma PlainParamAt(s: string, i: nat)
    requires Html.Plain(s) && ParamAt(s, i).Some?
    ensures var g := ParamAt(s, i).value;
      Html.Plain(g.name) && Html.Plain(g.typ) && Html.Plain(g.desc)
  {
    ParamAtShape(s, i);
    var j := WordEnd(s, i);
    var k := SpaceEnd(s, j);
    var m := WordEnd(s, k + 1);
    var n := SpaceEnd(s, m + 1);
    var e := TailStartOf(s, n + 1).value;
    PlainSlice(s, i, j);
    PlainSlice(s, k + 1, m);
    PlainSlice(s, e, LineEnd(s, e));
  }

  /** The groups of a return match are pieces of the text. */
  lemma PlainReturnAt(s: string, i: nat)
    requires Html.Plain(s) && ReturnAt(s, i).Some?
    ensures var g := ReturnAt(s, i).value;
      Html.Plain(g.typ) && Html.Plain(g.desc)
  {
    ReturnAtShape(s, i);
    var j := WordEnd(s, i);
    var n := SpaceEnd(s, j);
    var e := TailStartOf(s, n + 1).value;
    PlainSlice(s, i, j);
    PlainSlice(s, e, LineEnd(s, e));
  }

  lemma PlainSearchParam(s: string)
    requires Html.Plain(s) && SearchParam(s).Some?
    ensures var g := SearchParam(s).value;
      Html.Plain(g.name) && Html.Plain(g.typ) && Html.Plain(g.desc)
  {
    LeftmostSpec(k => ParamAt(s, k), 0, |s|);
    var k: nat :| k <= |s| && ParamAt(s, k) == SearchParam(s);
    PlainParamAt(s, k);
  }

  lemma PlainSearchReturn(s: string)
    requires Html.Plain(s) && SearchReturn(s).Some?
    ensures var g := SearchReturn(s).value;
      Html.Plain(g.typ) && Html.Plain(g.desc)
  {
    LeftmostSpec(k => ReturnAt(s, k), 0, |s|);
    var k: nat :| k <= |s| && ReturnAt(s, k) == SearchReturn(s);
    PlainReturnAt(s, k);
  }

  // ---------------------------------------------------------------------------
  // The renderer keeps its state free of markup

  /** A line without markup leaves the current function without markup. */
  lemma PlainFunctionLine(f: FunctionDoc, line: string)
    requires Html.PlainFunction(f) && Html.Plain(line)
    ensures Html.PlainFunction(Render.RenderFunctionLine(f, line))
  {
    PlainSliceOf(line, 5, |line|);
    PlainSliceOf(line, 6, |line|);
    PlainSliceOf(line, 7, |line|);
    match Parser.Classify(line)
    case Desc =>
      PlainTrim(SliceFrom(line, 5));
    case ParamEntry =>
      if SearchParam(SliceFrom(line, 6)).Some? {
        PlainSearchParam(SliceFrom(line, 6));
      }
    case ReturnEntry =>
      if SearchReturn(SliceFrom(line, 7)).Some? {
        PlainSearchReturn(SliceFrom(line, 7));
      }
    case _ =>
  }

  /** One step of the `forEach` keeps the state free of markup. */
  lemma PlainRenderLine(lines: seq<string>, st: Render.RenderState, line: string)
    requires forall k :: 0 <= k < |lines| ==> Html.Plain(lines[k])
    requires PlainState(st) && Html.Plain(line)
    ensures PlainState(Render.RenderLine(lines, st, line))
  {
    var fs := st.functions;
    match Parser.Classify(line)
    case Blank =>
    case ModuleHeader =>
      PlainSliceOf(line, 8, -1);
      PlainTrim(Slice(line, 8, -1));
      var i := Render.IndexOf(lines, line);
      if i + 1 < |lines| {
        PlainSliceOf(lines[i + 1], 5, |lines[i + 1]|);
        PlainTrim(SliceFrom(lines[i + 1], 5));
      }
    case FunctionHeader =>
      PlainSliceOf(line, 10, -1);
      PlainTrim(Slice(line, 10, -1));
    case _ =>
      if |fs| > 0 {
        PlainFunctionLine(fs[|fs| - 1], line);
      }
  }

  lemma {:induction false} PlainRenderLines(lines: seq<string>, st: Render.RenderState, parts: seq<string>)
    requires forall k :: 0 <= k < |lines| ==> Html.Plain(lines[k])
    requires forall k :: 0 <= k < |parts| ==> Html.Plain(parts[k])
    requires PlainState(st)
    ensures PlainState(Render.RenderLines(lines, st, parts))
    decreases |parts|
  {
    if parts != [] {
      var init := parts[..|parts| - 1];
      assert forall k :: 0 <= k < |init| ==> init[k] == parts[k];
      PlainRenderLines(lines, st, init);
      PlainTrim(parts[|parts| - 1]);
      PlainRenderLine(lines, Render.RenderLines(lines, st, init), Trim(parts[|parts| - 1]));
    }
  }

  /** A text without `<` renders to a state without `<` in any field. */
  lemma PlainRenderParse(data: string)
    requires Html.Plain(data)
    ensures PlainState(Render.RenderParse(data))
  {
    var parts := Split(data, '\n');
    PlainSplit(data, '\n');
    var lines := TrimAll(parts);
    forall k | 0 <= k < |lines|
      ensures Html.Plain(lines[k])
    {
      PlainTrim(parts[k]);
    }
    PlainRenderLines(lines, Render.InitialState(), parts);
  }

  /** For a text without markup, the elements the search box filters on the
      page are exactly the functions `parseNodeDoc` finds in that text: one
      article each in the content panel, none in the sidebar. */
  lemma PageSearchTargets(data: string)
    requires Html.Plain(data)
    ensures Html.ArticleTags(PageSidebar(data)) + Html.ArticleTags(PageContent(data))
            == |Parser.ParseNodeDoc(data).mod.functions|
  {
    var st := Render.RenderParse(data);
    PlainRenderParse(data);
    Html.SearchTargets(st.moduleName, st.moduleDesc, st.functions);
    Render.RenderAgreesWithParser(data);
  }
}
