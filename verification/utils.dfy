/** `convertMarkdownStyleToNdoc` (src/utils.js): rewrites Markdown-style
    documentation into the canonical `.ndoc` directives one line at a time and
    trims the whole result.

    Every line is trimmed first and then emits a piece of text chosen by the
    first rule that applies: blank, `# ` heading, `## ` heading, parameter
    bullet, returns line, plain text (`desc:`), and anything else verbatim.
    The source also keeps an `inFunction` flag, but never reads it, so it has
    no effect on the output and is not part of the model. */
module Utils {
  import opened Strings
  import opened Patterns

  /** The rule of the rewrite table that a trimmed line falls under. */
  datatype Rule =
    | BlankLine
    | ModuleHeading
    | FunctionHeading
    | ParamItem(param: ParamGroups)
    | ReturnsItem(ret: ReturnGroups)
    | Description
    | Verbatim

  /** The rules are tried in the source's order and the first that applies wins. */
  function RuleOf(line: string): Rule {
    if line == [] then BlankLine
    else if StartsWith(line, "# ") then ModuleHeading
    else if StartsWith(line, "## ") then FunctionHeading
    else
      match ParamBullet(line)
      case Some(g) => ParamItem(g)
      case None =>
        match ReturnsBullet(line)
        case Some(g) => ReturnsItem(g)
        case None =>
          if !StartsWith(line, "-") && !StartsWith(line, "**Returns**") then Description
          else Verbatim
  }

  /** What one trimmed line contributes to the output. */
  function EmitLine(line: string): string {
    match RuleOf(line)
    case BlankLine => "\n"
    case ModuleHeading => "[module: " + Trim(SliceFrom(line, 2)) + "]\n"
    case FunctionHeading => "\n[function: " + Trim(SliceFrom(line, 3)) + "]\n"
    case ParamItem(g) => "param: " + g.name + " (" + g.typ + ") - " + g.desc + "\n"
    case ReturnsItem(g) => "return: " + g.typ + " - " + g.desc + "\n"
    case Description => "desc: " + line + "\n"
    case Verbatim => line + "\n"
  }

  /** The emissions of the parts of the text, each trimmed first (the
      `.map(line => line.trim())` before the `forEach`), concatenated in order. */
  function Emit(parts: seq<string>): string
    decreases |parts|
  {
    if parts == [] then [] else EmitLine(Trim(parts[0])) + Emit(parts[1..])
  }

  /** `convertMarkdownStyleToNdoc(content)`: never has white space at either end. */
  function Normalize(content: string): (r: string)
    ensures IsTrimmed(r)
  {
    Trim(Emit(Split(content, '\n')))
  }

  // ---------------------------------------------------------------------------
  // The emission of one line

  /** Every emission is newline-terminated, so each directive it writes stays
      on a line of its own. */
  lemma EmitLineEndsLine(line: string)
    ensures |EmitLine(line)| > 0 && EmitLine(line)[|EmitLine(line)| - 1] == '\n'
  {
  }

  /** A `## ` heading is never taken for a `# ` heading: it opens a function,
      preceded by an empty line. */
  lemma EmitFunctionHeading(line: string)
    requires StartsWith(line, "## ")
    ensures !StartsWith(line, "# ")
    ensures EmitLine(line) == "\n[function: " + Trim(line[3..]) + "]\n"
  {
    assert line[1] == line[..3][1] == '#';
  }

  /** On a trimmed line the two Markdown patterns can match only when the line
      starts with `-` or with `**Returns**`, so any other text line becomes the
      description directive, directives of the canonical format included. */
  lemma EmitDescription(line: string)
    requires IsTrimmed(line) && line != []
    requires !StartsWith(line, "# ") && !StartsWith(line, "## ")
    requires !StartsWith(line, "-") && !StartsWith(line, "**Returns**")
    ensures EmitLine(line) == "desc: " + line + "\n"
  {
    BulletsNeedMarker(line);
  }

  /** What a trimmed line must start with for either Markdown pattern to match. */
  lemma BulletsNeedMarker(line: string)
    requires IsTrimmed(line) && line != []
    ensures ParamBullet(line).Some? ==> StartsWith(line, "-")
    ensures ReturnsBullet(line).Some? ==> StartsWith(line, "**Returns**")
  {
    assert SpaceEnd(line, 0) == 0;
    if ParamBullet(line).Some? {
      LiteralAtFirst(line, 0, "- **");
      assert line[..1] == "-";
    }
    if ReturnsBullet(line).Some? {
      forall k | 0 <= k < 11
        ensures line[..11][k] == "**Returns**"[k]
      {
        assert line[0 + k] == "**Returns**:"[k];
      }
    }
  }

  /** A parameter bullet becomes a `param:` directive carrying the same three
      groups; the name and type are words and the description is non-empty,
      trimmed and free of line terminators. */
  lemma EmitParam(line: string)
    requires IsTrimmed(line) && ParamBullet(line).Some?
    ensures var g := ParamBullet(line).value;
      && EmitLine(line) == "param: " + g.name + " (" + g.typ + ") - " + g.desc + "\n"
      && IsWord(g.name) && IsWord(g.typ)
      && g.desc != [] && IsTrimmed(g.desc) && NoLineTerminator(g.desc)
  {
    ParamBulletSound(line);
    BulletsNeedMarker(line);
    NotHeading(line);
    assert RuleOf(line) == ParamItem(ParamBullet(line).value);
  }

  /** A returns line becomes a `return:` directive carrying the same groups. */
  lemma EmitReturns(line: string)
    requires IsTrimmed(line) && ReturnsBullet(line).Some?
    ensures var g := ReturnsBullet(line).value;
      && EmitLine(line) == "return: " + g.typ + " - " + g.desc + "\n"
      && IsWord(g.typ) && g.desc != [] && IsTrimmed(g.desc) && NoLineTerminator(g.desc)
  {
    ReturnsBulletSound(line);
    BulletsNeedMarker(line);
    NotHeading(line);
    assert RuleOf(line) == ReturnsItem(ReturnsBullet(line).value);
  }

  /** A line that looks like a bullet or a returns line but fails its pattern
      is passed through unchanged. */
  lemma EmitPassThrough(line: string)
    requires IsTrimmed(line)
    requires StartsWith(line, "-") || StartsWith(line, "**Returns**")
    requires ParamBullet(line).None? && ReturnsBullet(line).None?
    ensures EmitLine(line) == line + "\n"
  {
    NotHeading(line);
    assert RuleOf(line) == Verbatim;
  }

  /** A line that starts with `-` or `*` is no heading. */
  lemma NotHeading(line: string)
    requires StartsWith(line, "-") || StartsWith(line, "**Returns**")
    ensures !StartsWith(line, "# ") && !StartsWith(line, "## ") && line != []
    ensures StartsWith(line, "-") ==> !StartsWith(line, "**Returns**")
  {
    if StartsWith(line, "-") {
      assert line[0] == line[..1][0] == '-';
    } else {
      assert line[0] == line[..11][0] == '*';
    }
  }

  // ---------------------------------------------------------------------------
  // Whole texts

  /** Emission is line by line: the output for a list of lines is the output
      for a prefix followed by the output for the rest. */
  lemma {:induction false} EmitConcat(a: seq<string>, b: seq<string>)
    ensures Emit(a + b) == Emit(a) + Emit(b)
    decreases |a|
  {
    if a == [] {
      AppendEmpty(a, b);
    } else {
      AppendTail(a, b);
      EmitConcat(a[1..], b);
      AppendAssoc(EmitLine(Trim(a[0])), Emit(a[1..]), Emit(b));
    }
  }

  /** Text whose first line is a `## ` heading normalises to text that starts
      with the `[function:` directive: the empty line emitted before it is
      removed by the final trim. */
  lemma NormalizeLeadingFunction(content: string)
    requires StartsWith(Trim(Split(content, '\n')[0]), "## ")
    ensures StartsWith(Normalize(content), "[function:")
  {
    var lines := Split(content, '\n');
    var head := Trim(lines[0]);
    EmitFunctionHeading(head);
    var e := Emit(lines);
    assert e == EmitLine(head) + Emit(lines[1..]);
    FunctionHeadingText(Trim(head[3..]), Emit(lines[1..]));
    TrimStartsWith(e, 1, "[function:");
  }

  /** The text emitted for a `## ` heading, followed by anything, is one
      newline and then the `[function:` directive. */
  lemma FunctionHeadingText(name: string, rest: string)
    ensures var e := "\n[function: " + name + "]\n" + rest;
      IsSpace(e[0]) && StartsWith(e[1..], "[function:")
  {
    var e := "\n[function: " + name + "]\n" + rest;
    assert e[1..][..10] == "[function:";
  }

  /** A canonical directive on a line of its own is not left alone: it becomes
      the description directive that quotes it. */
  lemma NormalizeWrapsDirective(s: string)
    requires IsTrimmed(s) && '\n' !in s && StartsWith(s, "[")
    ensures Normalize(s) == "desc: " + s
  {
    BracketIsText(s);
    NormalizeOneLine(s);
    EmitDescription(s);
    DescTrim(s);
  }

  /** A line starting with `[` is plain text to the normaliser. */
  lemma BracketIsText(s: string)
    requires StartsWith(s, "[")
    ensures s != [] && s[0] == '['
    ensures !StartsWith(s, "# ") && !StartsWith(s, "## ")
    ensures !StartsWith(s, "-") && !StartsWith(s, "**Returns**")
  {
    assert s[0] == s[..1][0];
  }

  /** The final trim removes the newline after a description directive. */
  lemma DescTrim(s: string)
    requires IsTrimmed(s) && s != []
    ensures Trim("desc: " + s + "\n") == "desc: " + s
  {
    var m := "desc: " + s;
    assert m[0] == 'd' && m[|m| - 1] == s[|s| - 1];
    TrimAround([], m, "\n");
    AppendEmpty([], m);
  }

  /** Normalising is not idempotent: a one-line `# ` heading becomes the
      canonical module directive, which a second pass turns into a
      description. */
  lemma NormalizeNotIdempotent(x: string)
    requires x != [] && IsTrimmed(x) && '\n' !in x
    ensures Normalize("# " + x) == "[module: " + x + "]"
    ensures Normalize(Normalize("# " + x)) == "desc: [module: " + x + "]"
  {
    NormalizeModuleHeading(x);
    HeadingText(x);
    NormalizeWrapsDirective("[module: " + x + "]");
  }

  /** A one-line `# ` heading becomes the module directive. */
  lemma NormalizeModuleHeading(x: string)
    requires x != [] && IsTrimmed(x) && '\n' !in x
    ensures Normalize("# " + x) == "[module: " + x + "]"
  {
    var s := "# " + x;
    var m := "[module: " + x + "]";
    HeadingText(x);
    TrimTrimmed(x);
    assert RuleOf(s) == ModuleHeading;
    NormalizeOneLine(s);
    assert EmitLine(s) == m + "\n";
    TrimAround([], m, "\n");
    AppendEmpty([], m);
  }

  /** The texts involved in `NormalizeNotIdempotent`, character by character. */
  lemma HeadingText(x: string)
    requires x != [] && IsTrimmed(x) && '\n' !in x
    ensures var s := "# " + x;
      IsTrimmed(s) && '\n' !in s && StartsWith(s, "# ") && s != [] && SliceFrom(s, 2) == x
    ensures var m := "[module: " + x + "]";
      && IsTrimmed(m) && '\n' !in m && StartsWith(m, "[")
      && m + "\n" == "[module: " + x + "]\n"
      && "desc: " + m == "desc: [module: " + x + "]"
  {
    var s := "# " + x;
    assert s[0] == '#' && s[|s| - 1] == x[|x| - 1];
    assert s[..2] == "# ";
    var m := "[module: " + x + "]";
    assert m[0] == '[' && m[|m| - 1] == ']';
    assert m[..1] == "[";
  }

  /** A one-line trimmed text normalises to its emission, trimmed. */
  lemma NormalizeOneLine(s: string)
    requires IsTrimmed(s) && '\n' !in s
    ensures Normalize(s) == Trim(EmitLine(s))
  {
    SplitNoSeparator(s, '\n');
    TrimTrimmed(s);
    var lines := [s];
    assert |lines[1..]| == 0;
    AppendEmpty(Emit(lines[1..]), EmitLine(s));
    assert Emit(lines) == EmitLine(s);
  }
}
