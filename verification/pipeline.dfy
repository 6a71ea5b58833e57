/** The serve path (src/server.js): a Markdown-style `.ndoc` file is normalised
    by `convertMarkdownStyleToNdoc` and the result is read by the browser
    renderer, which builds what `parseNodeDoc` builds. The lemmas here follow
    one parameter bullet and one returns line through that path: the directive
    the normaliser writes is read back, by both readers, as exactly the groups
    the Markdown pattern captured. */
module Pipeline {
  import opened Strings
  import opened Patterns
  import opened Model
  import Parser
  import Utils
  import Render

  /** The `param:` directive the normaliser writes for captured groups. */
  function ParamDirective(g: ParamGroups): string {
    "param: " + g.name + " (" + g.typ + ") - " + g.desc
  }

  /** The `return:` directive the normaliser writes for captured groups. */
  function ReturnDirective(g: ReturnGroups): string {
    "return: " + g.typ + " - " + g.desc
  }

  /** A `param:` directive built from a word, a word and a trimmed one-line
      description is a trimmed `param:` line whose text after the prefix is the
      canonical parameter layout. */
  lemma ParamDirectiveLine(g: ParamGroups)
    requires IsWord(g.name) && IsWord(g.typ)
    requires g.desc != [] && IsTrimmed(g.desc) && NoLineTerminator(g.desc)
    ensures var line := ParamDirective(g);
      && Trim(line) == line
      && Parser.Classify(line) == Parser.ParamEntry
      && SliceFrom(line, 6) == " " + g.name + " (" + g.typ + ") - " + g.desc
  {
    var line := ParamDirective(g);
    assert line[..6] == "param:";
    assert line[0] == 'p' && line[|line| - 1] == g.desc[|g.desc| - 1];
    TrimTrimmed(line);
    Parser.ClassifyExact(line);
    assert line[6..] == " " + g.name + " (" + g.typ + ") - " + g.desc;
  }

  /** The parser reads the directive back as the same three groups. */
  lemma ParamDirectiveParsed(g: ParamGroups)
    requires IsWord(g.name) && IsWord(g.typ)
    requires g.desc != [] && IsTrimmed(g.desc) && NoLineTerminator(g.desc)
    ensures Parser.ParamOf(ParamDirective(g)) == Some(Param(g.name, g.typ, g.desc))
    ensures SearchParam(SliceFrom(ParamDirective(g), 6)) == Some(g)
  {
    ParamDirectiveLine(g);
    assert !IsSpace(g.desc[0]);
    SearchParamCanonical(g.name, g.typ, g.desc);
    Parser.WordTrimmed(g.name);
    Parser.WordTrimmed(g.typ);
    TrimTrimmed(g.name);
    TrimTrimmed(g.typ);
    TrimTrimmed(g.desc);
  }

  /** A Markdown parameter bullet, normalised and then parsed inside an open
      function, adds exactly one parameter to that function, with the name, type
      and description the bullet carried; nothing else changes. */
  lemma NormalisedParamParses(doc: Documentation, line: string)
    requires Parser.HasOpen(doc) && IsTrimmed(line) && ParamBullet(line).Some?
    ensures var g := ParamBullet(line).value;
      && Utils.EmitLine(line) == ParamDirective(g) + "\n"
      && var r := Parser.ParseLine(doc, ParamDirective(g));
      && r.mod.name == doc.mod.name && r.mod.desc == doc.mod.desc
      && r.mod.functions == WithLast(doc.mod.functions,
           Parser.LastFunction(doc).(params := Parser.LastFunction(doc).params + [Param(g.name, g.typ, g.desc)]))
  {
    var g := ParamBullet(line).value;
    Utils.EmitParam(line);
    ParamDirectiveLine(g);
    ParamDirectiveParsed(g);
    Parser.ParseLineParam(doc, ParamDirective(g));
  }

  /** The renderer reads the same directive as the same parameter, its regex
      groups needing no trimming. */
  lemma NormalisedParamRenders(f: FunctionDoc, line: string)
    requires IsTrimmed(line) && ParamBullet(line).Some?
    ensures var g := ParamBullet(line).value;
      Render.RenderFunctionLine(f, ParamDirective(g)) == f.(params := f.params + [Param(g.name, g.typ, g.desc)])
  {
    var g := ParamBullet(line).value;
    Utils.EmitParam(line);
    ParamDirectiveLine(g);
    ParamDirectiveParsed(g);
  }

  /** A `return:` directive built from a word and a trimmed one-line
      description is a trimmed `return:` line whose text after the prefix is the
      canonical return layout. */
  lemma ReturnDirectiveLine(g: ReturnGroups)
    requires IsWord(g.typ)
    requires g.desc != [] && IsTrimmed(g.desc) && NoLineTerminator(g.desc)
    ensures var line := ReturnDirective(g);
      && Trim(line) == line
      && Parser.Classify(line) == Parser.ReturnEntry
      && SliceFrom(line, 7) == " " + g.typ + " - " + g.desc
  {
    var line := ReturnDirective(g);
    assert line[..7] == "return:";
    assert line[0] == 'r' && line[|line| - 1] == g.desc[|g.desc| - 1];
    TrimTrimmed(line);
    Parser.ClassifyExact(line);
    assert line[7..] == " " + g.typ + " - " + g.desc;
  }

  /** The parser reads the directive back as the same two groups. */
  lemma ReturnDirectiveParsed(g: ReturnGroups)
    requires IsWord(g.typ)
    requires g.desc != [] && IsTrimmed(g.desc) && NoLineTerminator(g.desc)
    ensures Parser.ReturnOf(ReturnDirective(g)) == Some(Return(g.typ, g.desc))
    ensures SearchReturn(SliceFrom(ReturnDirective(g), 7)) == Some(g)
  {
    ReturnDirectiveLine(g);
    assert !IsSpace(g.desc[0]);
    SearchReturnCanonical(g.typ, g.desc);
    Parser.WordTrimmed(g.typ);
    TrimTrimmed(g.typ);
    TrimTrimmed(g.desc);
  }

  /** A Markdown returns line, normalised and then parsed inside an open
      function, sets that function's return entry to the type and description
      the line carried; nothing else changes. */
  lemma NormalisedReturnParses(doc: Documentation, line: string)
    requires Parser.HasOpen(doc) && IsTrimmed(line) && ReturnsBullet(line).Some?
    ensures var g := ReturnsBullet(line).value;
      && Utils.EmitLine(line) == ReturnDirective(g) + "\n"
      && var r := Parser.ParseLine(doc, ReturnDirective(g));
      && r.mod.name == doc.mod.name && r.mod.desc == doc.mod.desc
      && r.mod.functions == WithLast(doc.mod.functions,
           Parser.LastFunction(doc).(ret := Return(g.typ, g.desc)))
  {
    var g := ReturnsBullet(line).value;
    Utils.EmitReturns(line);
    ReturnDirectiveLine(g);
    ReturnDirectiveParsed(g);
    Parser.ParseLineReturn(doc, ReturnDirective(g));
  }

  /** The renderer reads the same directive as the same return entry. */
  lemma NormalisedReturnRenders(f: FunctionDoc, line: string)
    requires IsTrimmed(line) && ReturnsBullet(line).Some?
    ensures var g := ReturnsBullet(line).value;
      Render.RenderFunctionLine(f, ReturnDirective(g)) == f.(ret := Return(g.typ, g.desc))
  {
    var g := ReturnsBullet(line).value;
    Utils.EmitReturns(line);
    ReturnDirectiveLine(g);
    ReturnDirectiveParsed(g);
  }

  /** The `desc:` directive the normaliser writes for a description line. */
  function DescDirective(d: string): string {
    "desc: " + d
  }

  /** A `desc:` directive built from a trimmed text is a trimmed `desc:` line
      whose description is that text. */
  lemma DescDirectiveLine(d: string)
    requires d != [] && IsTrimmed(d)
    ensures var line := DescDirective(d);
      && Trim(line) == line && Parser.Classify(line) == Parser.Desc
      && Parser.DescText(line) == d
  {
    var line := DescDirective(d);
    assert line[..5] == "desc:" && line[5..] == [' '] + d + [];
    assert line[0] == 'd' && line[|line| - 1] == d[|d| - 1];
    Parser.ClassifyExact(line);
    assert AllSpace([' ']);
    TrimAround([' '], d, []);
    TrimTrimmed(line);
  }

  /** A Markdown description line, normalised and then parsed, describes the
      open function if there is one and the module otherwise; nothing else
      changes. */
  lemma NormalisedDescParses(doc: Documentation, line: string)
    requires IsTrimmed(line) && line != []
    requires !StartsWith(line, "# ") && !StartsWith(line, "## ")
    requires !StartsWith(line, "-") && !StartsWith(line, "**Returns**")
    ensures Utils.EmitLine(line) == DescDirective(line) + "\n"
    ensures var r := Parser.ParseLine(doc, DescDirective(line));
      && r.mod.name == doc.mod.name
      && (Parser.HasOpen(doc) ==>
            && r.mod.desc == doc.mod.desc
            && r.mod.functions == WithLast(doc.mod.functions, Parser.LastFunction(doc).(desc := line)))
      && (!Parser.HasOpen(doc) ==> r == doc.(mod := doc.mod.(desc := line)))
  {
    Utils.EmitDescription(line);
    DescDirectiveLine(line);
    if Parser.HasOpen(doc) {
      Parser.ParseLineFunctionDesc(doc, DescDirective(line));
    } else {
      Parser.ParseLineModuleDesc(doc, DescDirective(line));
    }
  }

  /** The renderer reads the same directive as the same description. */
  lemma NormalisedDescRenders(f: FunctionDoc, line: string)
    requires IsTrimmed(line) && line != []
    ensures Render.RenderFunctionLine(f, DescDirective(line)) == f.(desc := line)
  {
    DescDirectiveLine(line);
  }
}
