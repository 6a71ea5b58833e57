/** The HTML the renderer writes into the page (src/render.js), and how many
    elements of each kind it holds.

    The templates interpolate the parsed text verbatim: nothing is escaped,
    so markup inside a name or a description becomes markup of the page.
    Element counts are therefore stated as "one per function, plus whatever
    the interpolated text itself contains". */
module Html {
  import opened Strings
  import opened Model

  // ---------------------------------------------------------------------------
  // Counting the occurrences of a tag

  /** The number of positions of `s` at which `p` occurs. */
  function CountOcc(s: string, p: string): (n: nat)
    requires |p| > 0
    ensures n <= |s|
    decreases |s|
  {
    if |s| < |p| then 0
    else (if s[..|p|] == p then 1 else 0) + CountOcc(s[1..], p)
  }

  /** An opening or closing tag to count: `<`, then text with no angle
      brackets, then `>`. */
  predicate TagLike(p: string) {
    && |p| >= 2 && p[0] == '<' && p[|p| - 1] == '>'
    && '<' !in p[1..|p| - 1] && '>' !in p[1..|p| - 1]
  }

  /** Every `<` of `s` is closed by a later `>` of `s`: no tag can start in
      `s` and end in what follows it. */
  predicate Balanced(s: string) {
    forall i :: 0 <= i < |s| && s[i] == '<' ==> exists j :: i < j < |s| && s[j] == '>'
  }

  /** `Balanced`, read from the end: the last angle bracket, if any, is `>`. */
  predicate Closed(s: string)
    decreases |s|
  {
    || s == []
    || s[|s| - 1] == '>'
    || (s[|s| - 1] != '<' && Closed(s[..|s| - 1]))
  }

  lemma {:induction false} ClosedIff(s: string)
    ensures Closed(s) <==> Balanced(s)
    decreases |s|
  {
    if s != [] {
      var n := |s| - 1;
      var init := s[..n];
      if s[n] == '>' {
        forall i | 0 <= i < |s| && s[i] == '<'
          ensures exists j :: i < j < |s| && s[j] == '>'
        {
          assert i < n && s[n] == '>';
        }
      } else if s[n] == '<' {
        assert 0 <= n < |s| && s[n] == '<';
      } else {
        ClosedIff(init);
        if Balanced(s) {
          forall i | 0 <= i < |init| && init[i] == '<'
            ensures exists j :: i < j < |init| && init[j] == '>'
          {
            assert s[i] == '<';
            var j :| i < j < |s| && s[j] == '>';
            assert j < n && init[j] == '>';
          }
        }
        if Balanced(init) {
          forall i | 0 <= i < |s| && s[i] == '<'
            ensures exists j :: i < j < |s| && s[j] == '>'
          {
            assert i < n && init[i] == '<';
            var j :| i < j < |init| && init[j] == '>';
            assert s[j] == '>';
          }
        }
      }
    }
  }

  /** A piece of a template: plain text, or one tag. */
  predicate Atomic(q: string) {
    || '<' !in q
    || (|q| > 0 && q[0] == '<' && '<' !in q[1..] && q[|q| - 1] == '>')
  }

  /** Whether the piece `q` is an occurrence of the tag `p`. */
  function Hit(q: string, p: string): nat {
    if StartsWith(q, p) then 1 else 0
  }

  /** Text without the tag's first character holds no occurrence of it. */
  lemma {:induction false} CountNone(s: string, p: string)
    requires |p| > 0 && p[0] !in s
    ensures CountOcc(s, p) == 0
    decreases |s|
  {
    if |s| >= |p| {
      assert s[..|p|][0] == s[0];
      assert s[1..] == s[1..];
      CountNone(s[1..], p);
    }
  }

  lemma ClosedSuffix(s: string)
    requires |s| > 0 && Balanced(s)
    ensures Balanced(s[1..])
  {
    forall i | 0 <= i < |s[1..]| && s[1..][i] == '<'
      ensures exists j :: i < j < |s[1..]| && s[1..][j] == '>'
    {
      assert s[i + 1] == '<';
      var j :| i + 1 < j < |s| && s[j] == '>';
      assert s[1..][j - 1] == '>';
    }
  }

  /** A closed text followed by anything: no occurrence of a tag straddles the
      boundary, so the counts add up. */
  lemma {:induction false} CountConcat(a: string, b: string, p: string)
    requires TagLike(p) && Balanced(a)
    ensures CountOcc(a + b, p) == CountOcc(a, p) + CountOcc(b, p)
    decreases |a|
  {
    if a == [] {
      AppendEmpty(a, b);
    } else {
      AppendTail(a, b);
      ClosedSuffix(a);
      CountConcat(a[1..], b, p);
      if |a| >= |p| {
        assert (a + b)[..|p|] == a[..|p|];
      } else {
        assert CountOcc(a, p) == 0;
        assert CountOcc(a[1..], p) == 0;
        if a[0] == '<' {
          var j :| 0 < j < |a| && a[j] == '>';
          assert p[1..|p| - 1][j - 1] == p[j];
          assert (a + b)[j] == '>';
        }
      }
    }
  }

  lemma BalancedConcat(a: string, b: string)
    requires Balanced(a) && Balanced(b)
    ensures Balanced(a + b)
  {
    var s := a + b;
    forall i | 0 <= i < |s| && s[i] == '<'
      ensures exists j :: i < j < |s| && s[j] == '>'
    {
      if i < |a| {
        assert a[i] == '<';
        var j :| i < j < |a| && a[j] == '>';
        assert s[j] == '>';
      } else {
        assert b[i - |a|] == '<';
        var j :| i - |a| < j < |b| && b[j] == '>';
        assert s[j + |a|] == '>';
      }
    }
  }

  /** Two closed pieces in a row: the result is closed and the counts add up. */
  lemma ClosedJoin(a: string, b: string, p: string)
    requires TagLike(p) && Closed(a) && Closed(b)
    ensures Closed(a + b) && CountOcc(a + b, p) == CountOcc(a, p) + CountOcc(b, p)
  {
    ClosedIff(a);
    ClosedIff(b);
    ClosedIff(a + b);
    CountConcat(a, b, p);
    BalancedConcat(a, b);
  }

  /** A piece of a template is closed, and holds the tag exactly when it is
      that tag (or starts with it). */
  lemma AtomicCount(q: string, p: string)
    requires TagLike(p) && Atomic(q)
    ensures Closed(q) && CountOcc(q, p) == Hit(q, p)
  {
    ClosedIff(q);
    if '<' !in q {
      CountNone(q, p);
      if |q| >= |p| {
        assert q[..|p|][0] == q[0];
      }
    } else {
      assert q[|q| - 1] == '>';
      forall i | 0 < i < |q|
        ensures q[i] != '<'
      {
        assert q[1..][i - 1] == q[i];
      }
      if |q| >= |p| {
        CountNone(q[1..], p);
      }
    }
  }

  /** Text without `<` is closed and holds no tag. */
  lemma PlainText(t: string, p: string)
    requires TagLike(p) && '<' !in t
    ensures Closed(t) && CountOcc(t, p) == 0
  {
    ClosedIff(t);
    CountNone(t, p);
  }

  // ---------------------------------------------------------------------------
  // Tags

  /** The opening tag `<n>`. */
  function Tag(n: string): string {
    "<" + n + ">"
  }

  /** The closing tag `</n>`. */
  function CloseTag(n: string): string {
    Tag("/" + n)
  }

  /** The element the search box filters: one per documented function. */
  const ArticleOpen: string := Tag("article class=\"function\"")

  /** One list item per parameter. */
  const ItemOpen: string := Tag("li")

  lemma TagShape(n: string)
    requires '<' !in n && '>' !in n
    ensures TagLike(Tag(n)) && Atomic(Tag(n))
  {
    var p := Tag(n);
    assert p[1..|p| - 1] == n;
    assert p[1..] == n + ">";
  }

  lemma TagsAreTags()
    ensures TagLike(ArticleOpen) && TagLike(ItemOpen)
  {
    TagShape("article class=\"function\"");
    TagShape("li");
  }

  lemma TagLetters()
    ensures |ArticleOpen| > 2 && ArticleOpen[1] == 'a' && ArticleOpen[2] == 'r'
    ensures |ItemOpen| == 4 && ItemOpen[1] == 'l' && ItemOpen[2] == 'i'
  {
  }

  /** `s` is closed and holds `a` articles and `i` list items. */
  predicate Counts(s: string, a: int, i: int) {
    Closed(s) && CountOcc(s, ArticleOpen) == a && CountOcc(s, ItemOpen) == i
  }

  /** Two closed texts in a row: their counts add up. */
  lemma Join2(s0: string, s1: string, a0: int, a1: int, i0: int, i1: int)
    requires Counts(s0, a0, i0) && Counts(s1, a1, i1)
    ensures Counts(s0 + s1, a0 + a1, i0 + i1)
  {
    TagsAreTags();
    ClosedJoin(s0, s1, ArticleOpen);
    ClosedJoin(s0, s1, ItemOpen);
  }

  /** A piece of a template counts as the tag it is, if any. */
  lemma Piece(q: string)
    requires Atomic(q)
    ensures Counts(q, Hit(q, ArticleOpen), Hit(q, ItemOpen))
  {
    TagsAreTags();
    AtomicCount(q, ArticleOpen);
    AtomicCount(q, ItemOpen);
  }

  /** Text without tags: nothing to count. */
  lemma Text(t: string)
    requires '<' !in t
    ensures Counts(t, 0, 0)
  {
    TagsAreTags();
    PlainText(t, ArticleOpen);
    PlainText(t, ItemOpen);
  }

  /** Any other tag: it is neither an article nor a list item. */
  lemma OtherTag(n: string)
    requires '<' !in n && '>' !in n && n != []
    requires |n| < 2 || n[0] != 'a' || n[1] != 'r'
    requires |n| < 2 || n[0] != 'l' || n[1] != 'i'
    ensures Counts(Tag(n), 0, 0)
  {
    var q := Tag(n);
    TagShape(n);
    Piece(q);
    TagLetters();
    assert q[1] == n[0];
    if |q| >= |ArticleOpen| {
      assert q[..|ArticleOpen|][1] == q[1] && q[..|ArticleOpen|][2] == q[2] == n[1];
    }
    if |q| >= |ItemOpen| {
      assert q[..|ItemOpen|][1] == q[1];
      if |n| >= 2 {
        assert q[..|ItemOpen|][2] == q[2] == n[1];
      }
    }
  }

  /** Closing tags are never counted. */
  lemma CloseTagCounts(n: string)
    requires '<' !in n && '>' !in n
    ensures Counts(CloseTag(n), 0, 0)
  {
    var m := "/" + n;
    assert m[0] == '/';
    OtherTag(m);
  }

  /** A tag whose text is given in two parts. */
  lemma OtherTag2(t1: string, t2: string)
    requires '<' !in t1 && '>' !in t1 && '<' !in t2 && '>' !in t2
    requires |t1| >= 2 && (t1[0] != 'a' || t1[1] != 'r') && (t1[0] != 'l' || t1[1] != 'i')
    ensures Counts(Tag(t1 + t2), 0, 0)
  {
    var n := t1 + t2;
    assert n[0] == t1[0] && n[1] == t1[1];
    OtherTag(n);
  }

  lemma ArticleTag()
    ensures Counts(ArticleOpen, 1, 0)
  {
    TagShape("article class=\"function\"");
    Piece(ArticleOpen);
    TagLetters();
    assert ArticleOpen[..|ItemOpen|][1] == ArticleOpen[1];
  }

  lemma ItemTag()
    ensures Counts(ItemOpen, 0, 1)
  {
    TagShape("li");
    Piece(ItemOpen);
  }

  // ---------------------------------------------------------------------------
  // Runs of pieces with nothing to count

  lemma Zero2(q0: string, q1: string)
    requires Counts(q0, 0, 0) && Counts(q1, 0, 0)
    ensures Counts(q0 + q1, 0, 0)
  {
    Join2(q0, q1, 0, 0, 0, 0);
  }

  lemma Zero3(q0: string, q1: string, q2: string)
    requires Counts(q0, 0, 0) && Counts(q1, 0, 0) && Counts(q2, 0, 0)
    ensures Counts(q0 + q1 + q2, 0, 0)
  {
    Zero2(q0, q1);
    Zero2(q0 + q1, q2);
  }

  lemma Zero4(q0: string, q1: string, q2: string, q3: string)
    requires Counts(q0, 0, 0) && Counts(q1, 0, 0) && Counts(q2, 0, 0) && Counts(q3, 0, 0)
    ensures Counts(q0 + q1 + q2 + q3, 0, 0)
  {
    Zero3(q0, q1, q2);
    Zero2(q0 + q1 + q2, q3);
  }

  lemma Zero8(q0: string, q1: string, q2: string, q3: string, q4: string, q5: string, q6: string, q7: string)
    requires Counts(q0, 0, 0) && Counts(q1, 0, 0) && Counts(q2, 0, 0) && Counts(q3, 0, 0)
    requires Counts(q4, 0, 0) && Counts(q5, 0, 0) && Counts(q6, 0, 0) && Counts(q7, 0, 0)
    ensures Counts(q0 + q1 + q2 + q3 + q4 + q5 + q6 + q7, 0, 0)
  {
    Zero4(q0, q1, q2, q3);
    Zero4(q0 + q1 + q2 + q3, q4, q5, q6);
    Zero2(q0 + q1 + q2 + q3 + q4 + q5 + q6, q7);
  }

  lemma Zero9(q0: string, q1: string, q2: string, q3: string, q4: string, q5: string, q6: string, q7: string,
              q8: string)
    requires Counts(q0, 0, 0) && Counts(q1, 0, 0) && Counts(q2, 0, 0) && Counts(q3, 0, 0)
    requires Counts(q4, 0, 0) && Counts(q5, 0, 0) && Counts(q6, 0, 0) && Counts(q7, 0, 0)
    requires Counts(q8, 0, 0)
    ensures Counts(q0 + q1 + q2 + q3 + q4 + q5 + q6 + q7 + q8, 0, 0)
  {
    Zero8(q0, q1, q2, q3, q4, q5, q6, q7);
    Zero2(q0 + q1 + q2 + q3 + q4 + q5 + q6 + q7, q8);
  }

  lemma Zero10(q0: string, q1: string, q2: string, q3: string, q4: string, q5: string, q6: string, q7: string,
               q8: string, q9: string)
    requires Counts(q0, 0, 0) && Counts(q1, 0, 0) && Counts(q2, 0, 0) && Counts(q3, 0, 0)
    requires Counts(q4, 0, 0) && Counts(q5, 0, 0) && Counts(q6, 0, 0) && Counts(q7, 0, 0)
    requires Counts(q8, 0, 0) && Counts(q9, 0, 0)
    ensures Counts(q0 + q1 + q2 + q3 + q4 + q5 + q6 + q7 + q8 + q9, 0, 0)
  {
    Zero9(q0, q1, q2, q3, q4, q5, q6, q7, q8);
    Zero2(q0 + q1 + q2 + q3 + q4 + q5 + q6 + q7 + q8, q9);
  }

  // ---------------------------------------------------------------------------
  // The fixed text of the templates in src/render.js, between the
  // interpolations. The counted tags `<article class="function">` and `<li>`
  // are kept out of these constants and appear in the templates themselves.

  /** `<strong>`, between `<li>` and `param.name`. */
  const ItemToName: string := Tag("strong")
  /** `</strong> (`, between `param.name` and `param.type`. */
  const ItemNameToType: string := CloseTag("strong") + " ("
  /** `): `, between `param.type` and `param.desc`. */
  const ItemTypeToDesc: string := "): "
  /** `</li>`, after `param.desc`. */
  const ItemTail: string := CloseTag("li")

  lemma ItemChunks()
    ensures Counts(ItemToName, 0, 0) && Counts(ItemNameToType, 0, 0)
    ensures Counts(ItemTypeToDesc, 0, 0) && Counts(ItemTail, 0, 0)
  {
    assert '<' !in "strong" && '>' !in "strong" && '<' !in "li" && '>' !in "li";
    assert '<' !in " (" && '<' !in "): ";
    OtherTag("strong");
    CloseTagCounts("strong");
    Text(" (");
    Text("): ");
    CloseTagCounts("li");
    Zero2(CloseTag("strong"), " (");
  }

  /** Before `<article class="function">`. */
  const ArticleIndent: string := "\n        "
  /** Between `<article class="function">` and `func.name`. */
  const ArticleToName: string := "\n          " + Tag("h3")
  /** Between `func.name` and `func.desc`. */
  const NameToDesc: string := CloseTag("h3") + "\n          " + Tag("p")
  /** Between `func.desc` and the parameter list. */
  const DescToParams: string :=
    CloseTag("p") + "\n          " + Tag("h4") + "Parameters:" + CloseTag("h4") + "\n          " + Tag("ul") + "\n            "
  /** Between the parameter list and `func.return.type`. */
  const ParamsToType: string :=
    "\n          " + CloseTag("ul") + "\n          " + Tag("h4") + "Returns:" + CloseTag("h4") + "\n          " + Tag("p") + Tag("strong")
  /** Between `func.return.type` and `func.return.desc`. */
  const TypeToReturnDesc: string := CloseTag("strong") + ": "
  /** After `func.return.desc`. */
  const ArticleTail: string := CloseTag("p") + "\n        " + CloseTag("article") + "\n      "

  lemma ArticleHeadChunks()
    ensures Counts(ArticleIndent, 0, 0) && Counts(ArticleToName, 0, 0) && Counts(NameToDesc, 0, 0)
  {
    assert '<' !in "\n        " && '<' !in "\n          ";
    assert '<' !in "h3" && '>' !in "h3" && '<' !in "p" && '>' !in "p";
    Text("\n        ");
    Text("\n          ");
    OtherTag("h3");
    CloseTagCounts("h3");
    OtherTag("p");
    Zero2("\n          ", Tag("h3"));
    Zero3(CloseTag("h3"), "\n          ", Tag("p"));
  }

  lemma DescToParamsChunk()
    ensures Counts(DescToParams, 0, 0)
  {
    assert '<' !in "\n          " && '<' !in "Parameters:" && '<' !in "\n            ";
    assert '<' !in "p" && '>' !in "p" && '<' !in "h4" && '>' !in "h4" && '<' !in "ul" && '>' !in "ul";
    CloseTagCounts("p");
    Text("\n          ");
    OtherTag("h4");
    Text("Parameters:");
    CloseTagCounts("h4");
    OtherTag("ul");
    Text("\n            ");
    Zero8(CloseTag("p"), "\n          ", Tag("h4"), "Parameters:", CloseTag("h4"), "\n          ", Tag("ul"), "\n            ");
  }

  lemma ParamsToTypeChunk()
    ensures Counts(ParamsToType, 0, 0)
  {
    assert '<' !in "\n          " && '<' !in "Returns:";
    assert '<' !in "ul" && '>' !in "ul" && '<' !in "h4" && '>' !in "h4";
    assert '<' !in "p" && '>' !in "p" && '<' !in "strong" && '>' !in "strong";
    Text("\n          ");
    CloseTagCounts("ul");
    OtherTag("h4");
    Text("Returns:");
    CloseTagCounts("h4");
    OtherTag("p");
    OtherTag("strong");
    Zero9("\n          ", CloseTag("ul"), "\n          ", Tag("h4"), "Returns:", CloseTag("h4"), "\n          ", Tag("p"), Tag("strong"));
  }

  lemma ArticleTailChunks()
    ensures Counts(TypeToReturnDesc, 0, 0) && Counts(ArticleTail, 0, 0)
  {
    assert '<' !in ": " && '<' !in "\n        " && '<' !in "\n      ";
    assert '<' !in "strong" && '>' !in "strong" && '<' !in "p" && '>' !in "p";
    assert '<' !in "article" && '>' !in "article";
    CloseTagCounts("strong");
    Text(": ");
    CloseTagCounts("p");
    Text("\n        ");
    CloseTagCounts("article");
    Text("\n      ");
    Zero2(CloseTag("strong"), ": ");
    Zero4(CloseTag("p"), "\n        ", CloseTag("article"), "\n      ");
  }

  // ---------------------------------------------------------------------------
  // The templates

  /** `<li><strong>${param.name}</strong> (${param.type}): ${param.desc}</li>` */
  function ParamItem(p: Param): string {
    ItemOpen + ItemToName + p.name + ItemNameToType + p.typ + ItemTypeToDesc + p.desc + ItemTail
  }

  /** `xs.join('')` */
  function Concat(xs: seq<string>): string
    decreases |xs|
  {
    if xs == [] then "" else xs[0] + Concat(xs[1..])
  }

  /** `func.params.map(param => ...)` */
  function ParamItemList(ps: seq<Param>): (r: seq<string>)
    ensures |r| == |ps| && forall k :: 0 <= k < |ps| ==> r[k] == ParamItem(ps[k])
  {
    seq(|ps|, k requires 0 <= k < |ps| => ParamItem(ps[k]))
  }

  /** `func.params.map(param => ...).join('')` */
  function ParamItems(ps: seq<Param>): string {
    Concat(ParamItemList(ps))
  }

  /** One `<article class="function">` block. */
  function Article(f: FunctionDoc): string {
    ArticleIndent + ArticleOpen + ArticleToName + f.name + NameToDesc + f.desc + DescToParams
    + ParamItems(f.params) + ParamsToType + f.ret.typ + TypeToReturnDesc + f.ret.desc + ArticleTail
  }

  /** `functions.map(func => ...)` */
  function ArticleList(fs: seq<FunctionDoc>): (r: seq<string>)
    ensures |r| == |fs| && forall k :: 0 <= k < |fs| ==> r[k] == Article(fs[k])
  {
    seq(|fs|, k requires 0 <= k < |fs| => Article(fs[k]))
  }

  /** `functions.map(func => ...).join('')` */
  function Articles(fs: seq<FunctionDoc>): string {
    Concat(ArticleList(fs))
  }

  // ---------------------------------------------------------------------------
  // How many articles and list items the page holds

  /** Text with no markup in it. */
  predicate Plain(s: string) {
    '<' !in s
  }

  predicate PlainParam(p: Param) {
    Plain(p.name) && Plain(p.typ) && Plain(p.desc)
  }

  predicate PlainParams(ps: seq<Param>) {
    forall k :: 0 <= k < |ps| ==> PlainParam(ps[k])
  }

  /** A function whose parsed text carries no markup. */
  predicate PlainFunction(f: FunctionDoc) {
    Plain(f.name) && Plain(f.desc) && PlainParams(f.params) && Plain(f.ret.typ) && Plain(f.ret.desc)
  }

  /** The number of parameters of all the functions together. */
  function ParamCount(fs: seq<FunctionDoc>): nat
    decreases |fs|
  {
    if fs == [] then 0 else |fs[0].params| + ParamCount(fs[1..])
  }

  /** A counted tag followed by seven pieces with nothing to count. */
  lemma OneThenZero7(q0: string, q1: string, q2: string, q3: string, q4: string, q5: string, q6: string, q7: string,
                     a: int, i: int)
    requires Counts(q0, a, i)
    requires Counts(q1, 0, 0) && Counts(q2, 0, 0) && Counts(q3, 0, 0) && Counts(q4, 0, 0)
    requires Counts(q5, 0, 0) && Counts(q6, 0, 0) && Counts(q7, 0, 0)
    ensures Counts(q0 + q1 + q2 + q3 + q4 + q5 + q6 + q7, a, i)
  {
    Join2(q0, q1, a, 0, i, 0);
    Join2(q0 + q1, q2, a, 0, i, 0);
    Join2(q0 + q1 + q2, q3, a, 0, i, 0);
    Join2(q0 + q1 + q2 + q3, q4, a, 0, i, 0);
    Join2(q0 + q1 + q2 + q3 + q4, q5, a, 0, i, 0);
    Join2(q0 + q1 + q2 + q3 + q4 + q5, q6, a, 0, i, 0);
    Join2(q0 + q1 + q2 + q3 + q4 + q5 + q6, q7, a, 0, i, 0);
  }

  /** A parameter without markup gives exactly one list item and no article. */
  lemma ParamItemCounts(p: Param)
    requires PlainParam(p)
    ensures Counts(ParamItem(p), 0, 1)
  {
    ItemTag();
    ItemChunks();
    Text(p.name);
    Text(p.typ);
    Text(p.desc);
    OneThenZero7(ItemOpen, ItemToName, p.name, ItemNameToType, p.typ, ItemTypeToDesc, p.desc, ItemTail, 0, 1);
  }

  /** The sum of a list of numbers. */
  function Sum(ns: seq<int>): int
    decreases |ns|
  {
    if ns == [] then 0 else ns[0] + Sum(ns[1..])
  }

  /** A list of texts, each closed and with known counts. */
  predicate EachCounts(xs: seq<string>, arts: seq<int>, items: seq<int>) {
    |xs| == |arts| == |items| && forall k :: 0 <= k < |xs| ==> Counts(xs[k], arts[k], items[k])
  }

  /** Joining closed texts: the counts add up. */
  lemma {:induction false} ConcatCounts(xs: seq<string>, arts: seq<int>, items: seq<int>)
    requires EachCounts(xs, arts, items)
    ensures Counts(Concat(xs), Sum(arts), Sum(items))
    decreases |xs|
  {
    if xs == [] {
      Text("");
    } else {
      assert EachCounts(xs[1..], arts[1..], items[1..]) by {
        forall k | 0 <= k < |xs| - 1 ensures Counts(xs[1..][k], arts[1..][k], items[1..][k]) {
          assert xs[1..][k] == xs[k + 1] && arts[1..][k] == arts[k + 1] && items[1..][k] == items[k + 1];
        }
      }
      assert Counts(xs[0], arts[0], items[0]);
      ConcatCounts(xs[1..], arts[1..], items[1..]);
      Join2(xs[0], Concat(xs[1..]), arts[0], Sum(arts[1..]), items[0], Sum(items[1..]));
    }
  }

  /** `n` copies of `c`. */
  function Copies(n: nat, c: int): (r: seq<int>)
    ensures |r| == n && forall k :: 0 <= k < n ==> r[k] == c
  {
    seq(n, k => c)
  }

  lemma {:induction false} SumCopies(n: nat, c: int)
    ensures Sum(Copies(n, c)) == n * c
    decreases n
  {
    if n > 0 {
      assert Copies(n, c)[1..] == Copies(n - 1, c);
      SumCopies(n - 1, c);
    }
  }

  /** One list item per parameter, and no article. */
  lemma ParamItemsCounts(ps: seq<Param>)
    requires PlainParams(ps)
    ensures Counts(ParamItems(ps), 0, |ps|)
  {
    var xs := ParamItemList(ps);
    forall k | 0 <= k < |ps| ensures Counts(xs[k], 0, 1) {
      ParamItemCounts(ps[k]);
    }
    assert EachCounts(xs, Copies(|ps|, 0), Copies(|ps|, 1));
    ConcatCounts(xs, Copies(|ps|, 0), Copies(|ps|, 1));
    SumCopies(|ps|, 0);
    SumCopies(|ps|, 1);
  }

  /** The number of articles in `s`. */
  function ArticleTags(s: string): nat {
    CountOcc(s, ArticleOpen)
  }

  /** The number of list items in `s`. */
  function ItemTags(s: string): nat {
    CountOcc(s, ItemOpen)
  }

  /** The layout of an article: fixed text around five interpolations. */
  lemma ArticleShape(q0: string, q1: string, q2: string, name: string, q4: string, desc: string, q6: string,
                     items: string, q8: string, typ: string, q10: string, rdesc: string, q12: string,
                     an: int, inn: int, ad: int, id: int, np: int, at: int, it: int, ar: int, ir: int)
    requires Counts(q0, 0, 0) && Counts(q1, 1, 0) && Counts(q2, 0, 0) && Counts(q4, 0, 0)
    requires Counts(q6, 0, 0) && Counts(q8, 0, 0) && Counts(q10, 0, 0) && Counts(q12, 0, 0)
    requires Counts(name, an, inn) && Counts(desc, ad, id) && Counts(items, 0, np)
    requires Counts(typ, at, it) && Counts(rdesc, ar, ir)
    ensures Counts(q0 + q1 + q2 + name + q4 + desc + q6 + items + q8 + typ + q10 + rdesc + q12,
                   1 + an + ad + at + ar, np + inn + id + it + ir)
  {
    var s := q0 + q1 + q2;
    Join2(q0, q1, 0, 1, 0, 0);
    Join2(q0 + q1, q2, 1, 0, 0, 0);
    Join2(s, name, 1, an, 0, inn);
    s := s + name;
    Join2(s, q4, 1 + an, 0, inn, 0);
    s := s + q4;
    Join2(s, desc, 1 + an, ad, inn, id);
    s := s + desc;
    Join2(s, q6, 1 + an + ad, 0, inn + id, 0);
    s := s + q6;
    Join2(s, items, 1 + an + ad, 0, inn + id, np);
    s := s + items;
    Join2(s, q8, 1 + an + ad, 0, inn + id + np, 0);
    s := s + q8;
    Join2(s, typ, 1 + an + ad, at, inn + id + np, it);
    s := s + typ;
    Join2(s, q10, 1 + an + ad + at, 0, inn + id + np + it, 0);
    s := s + q10;
    Join2(s, rdesc, 1 + an + ad + at, ar, inn + id + np + it, ir);
    s := s + rdesc;
    Join2(s, q12, 1 + an + ad + at + ar, 0, inn + id + np + it + ir, 0);
  }

  /** An article holds one `<article class="function">` and one `<li>` per
      parameter, plus whatever tags its interpolated fields carry, since they
      are not escaped. Each field must close the tags it opens. */
  lemma ArticleCounts(f: FunctionDoc)
    requires Closed(f.name) && Closed(f.desc) && Closed(f.ret.typ) && Closed(f.ret.desc)
    requires PlainParams(f.params)
    ensures Counts(Article(f), 1 + ArticleTags(f.name) + ArticleTags(f.desc) + ArticleTags(f.ret.typ) + ArticleTags(f.ret.desc),
                               |f.params| + ItemTags(f.name) + ItemTags(f.desc) + ItemTags(f.ret.typ) + ItemTags(f.ret.desc))
  {
    ArticleTag();
    ArticleHeadChunks();
    DescToParamsChunk();
    ParamsToTypeChunk();
    ArticleTailChunks();
    ParamItemsCounts(f.params);
    ArticleShape(ArticleIndent, ArticleOpen, ArticleToName, f.name, NameToDesc, f.desc, DescToParams,
                 ParamItems(f.params), ParamsToType, f.ret.typ, TypeToReturnDesc, f.ret.desc, ArticleTail,
                 ArticleTags(f.name), ItemTags(f.name), ArticleTags(f.desc), ItemTags(f.desc), |f.params|, ArticleTags(f.ret.typ), ItemTags(f.ret.typ),
                 ArticleTags(f.ret.desc), ItemTags(f.ret.desc));
  }

  /** A function without markup: one article, one list item per parameter. */
  lemma PlainArticleCounts(f: FunctionDoc)
    requires PlainFunction(f)
    ensures Counts(Article(f), 1, |f.params|)
  {
    Text(f.name);
    Text(f.desc);
    Text(f.ret.typ);
    Text(f.ret.desc);
    ArticleCounts(f);
  }

  /** The number of parameters of each function. */
  function ParamCounts(fs: seq<FunctionDoc>): (r: seq<int>)
    ensures |r| == |fs| && forall k :: 0 <= k < |fs| ==> r[k] == |fs[k].params|
  {
    seq(|fs|, k requires 0 <= k < |fs| => |fs[k].params|)
  }

  lemma {:induction false} ParamCountSum(fs: seq<FunctionDoc>)
    ensures Sum(ParamCounts(fs)) == ParamCount(fs)
    decreases |fs|
  {
    if fs != [] {
      assert ParamCounts(fs)[1..] == ParamCounts(fs[1..]);
      ParamCountSum(fs[1..]);
    }
  }

  /** One article per function and one list item per parameter, when the
      parsed text carries no markup. */
  lemma ArticlesCounts(fs: seq<FunctionDoc>)
    requires forall k :: 0 <= k < |fs| ==> PlainFunction(fs[k])
    ensures Counts(Articles(fs), |fs|, ParamCount(fs))
  {
    var xs := ArticleList(fs);
    forall k | 0 <= k < |fs| ensures Counts(xs[k], 1, |fs[k].params|) {
      PlainArticleCounts(fs[k]);
    }
    assert EachCounts(xs, Copies(|fs|, 1), ParamCounts(fs));
    ConcatCounts(xs, Copies(|fs|, 1), ParamCounts(fs));
    SumCopies(|fs|, 1);
    ParamCountSum(fs);
  }

  /** Nothing is escaped: a function whose name is itself the article tag
      puts a second article tag on the page. */
  lemma TagInName()
    ensures ArticleTags(Article(FunctionDoc(ArticleOpen, "", [], Return("", "")))) == 2
  {
    var f := FunctionDoc(ArticleOpen, "", [], Return("", ""));
    ArticleTag();
    Text("");
    ArticleCounts(f);
  }

  // ---------------------------------------------------------------------------
  // The sidebar and the content panel

  /** Before `moduleName` in the sidebar. */
  const SidebarHead: string := "\n    " + Tag("h3")
  /** Between `moduleName` and the first `<li>` of the sidebar. */
  const SidebarToHome: string := CloseTag("h3") + "\n    " + Tag("ul") + "\n      "
  /** The link back to the index page and the end of its item. */
  const HomeLink: string := Tag("a href=\"/\"" + " data-section=\"overview\"") + "Home" + CloseTag("a") + CloseTag("li")
  /** Between the two sidebar items. */
  const SidebarBetween: string := "\n      "
  /** The link to the function list and the end of its item. */
  const FunctionsLink: string :=
    Tag("a href=\"#\"" + " data-section=\"functions\"") + "Functions" + CloseTag("a") + CloseTag("li")
  /** After the second sidebar item. */
  const SidebarTail: string := "\n    " + CloseTag("ul") + "\n  "

  /** The sidebar: the module name and two links. */
  function Sidebar(moduleName: string): string {
    SidebarHead + moduleName + SidebarToHome + ItemOpen + HomeLink + SidebarBetween + ItemOpen + FunctionsLink
    + SidebarTail
  }

  lemma SidebarHeadChunks()
    ensures Counts(SidebarHead, 0, 0) && Counts(SidebarToHome, 0, 0)
    ensures Counts(SidebarBetween, 0, 0) && Counts(SidebarTail, 0, 0)
  {
    assert '<' !in "\n    " && '<' !in "\n      " && '<' !in "\n  ";
    assert '<' !in "h3" && '>' !in "h3" && '<' !in "ul" && '>' !in "ul";
    Text("\n    ");
    Text("\n      ");
    Text("\n  ");
    OtherTag("h3");
    CloseTagCounts("h3");
    OtherTag("ul");
    CloseTagCounts("ul");
    Zero2("\n    ", Tag("h3"));
    Zero4(CloseTag("h3"), "\n    ", Tag("ul"), "\n      ");
    Zero3("\n    ", CloseTag("ul"), "\n  ");
  }

  /** A link `<a …>text</a>` and the end of its list item hold nothing to count. */
  lemma LinkCounts(t1: string, t2: string, text: string)
    requires '<' !in t1 && '>' !in t1 && '<' !in t2 && '>' !in t2
    requires |t1| >= 2 && t1[0] == 'a' && t1[1] == ' '
    requires '<' !in text
    ensures Counts(Tag(t1 + t2) + text + CloseTag("a") + CloseTag("li"), 0, 0)
  {
    assert '<' !in "a" && '>' !in "a" && '<' !in "li" && '>' !in "li";
    OtherTag2(t1, t2);
    Text(text);
    CloseTagCounts("a");
    CloseTagCounts("li");
    Zero4(Tag(t1 + t2), text, CloseTag("a"), CloseTag("li"));
  }

  lemma HomeLinkChunk()
    ensures Counts(HomeLink, 0, 0)
  {
    var t1, t2 := "a href=\"/\"", " data-section=\"overview\"";
    assert '<' !in t1 && '>' !in t1 && t1[0] == 'a' && t1[1] == ' ';
    assert '<' !in t2 && '>' !in t2;
    assert '<' !in "Home";
    LinkCounts(t1, t2, "Home");
  }

  lemma FunctionsLinkChunk()
    ensures Counts(FunctionsLink, 0, 0)
  {
    var t1, t2 := "a href=\"#\"", " data-section=\"functions\"";
    assert '<' !in t1 && '>' !in t1 && t1[0] == 'a' && t1[1] == ' ';
    assert '<' !in t2 && '>' !in t2;
    assert '<' !in "Functions";
    LinkCounts(t1, t2, "Functions");
  }

  /** The layout of the sidebar: the module name and two counted items. */
  lemma SidebarShape(q0: string, name: string, q2: string, li: string, q4: string, q5: string, q7: string,
                     q8: string, an: int, inn: int)
    requires Counts(q0, 0, 0) && Counts(q2, 0, 0) && Counts(li, 0, 1)
    requires Counts(q4, 0, 0) && Counts(q5, 0, 0) && Counts(q7, 0, 0) && Counts(q8, 0, 0)
    requires Counts(name, an, inn)
    ensures Counts(q0 + name + q2 + li + q4 + q5 + li + q7 + q8, an, inn + 2)
  {
    var s := q0 + name;
    Join2(q0, name, 0, an, 0, inn);
    Join2(s, q2, an, 0, inn, 0);
    s := s + q2;
    Join2(s, li, an, 0, inn, 1);
    s := s + li;
    Join2(s, q4, an, 0, inn + 1, 0);
    s := s + q4;
    Join2(s, q5, an, 0, inn + 1, 0);
    s := s + q5;
    Join2(s, li, an, 0, inn + 1, 1);
    s := s + li;
    Join2(s, q7, an, 0, inn + 2, 0);
    s := s + q7;
    Join2(s, q8, an, 0, inn + 2, 0);
  }

  /** The sidebar holds no article and two list items, plus whatever tags the
      module name carries. */
  lemma SidebarCounts(moduleName: string)
    requires Closed(moduleName)
    ensures Counts(Sidebar(moduleName), ArticleTags(moduleName), 2 + ItemTags(moduleName))
  {
    ItemTag();
    SidebarHeadChunks();
    HomeLinkChunk();
    FunctionsLinkChunk();
    SidebarShape(SidebarHead, moduleName, SidebarToHome, ItemOpen, HomeLink, SidebarBetween, FunctionsLink,
                 SidebarTail, ArticleTags(moduleName), ItemTags(moduleName));
  }

  /** Before `moduleName` in the content panel. */
  const ContentHead: string := "\n    " + Tag("section id=\"overview\"") + "\n      " + Tag("h1")
  /** Between `moduleName` and `moduleDesc`. */
  const ContentNameToDesc: string := CloseTag("h1") + "\n      " + Tag("p")
  /** The opening tag of the hidden function list. */
  const FunctionsSection: string := Tag("section id=\"functions\"" + " style=\"display: none;\"")
  /** Between `moduleDesc` and the articles. */
  const ContentDescToFunctions: string :=
    CloseTag("p") + "\n    " + CloseTag("section") + "\n    " + FunctionsSection + "\n      " + Tag("h2") + "Functions"
    + CloseTag("h2") + "\n      "
  /** After the articles. */
  const ContentTail: string := "\n    " + CloseTag("section") + "\n  "

  /** The content panel: the overview, then one article per function. */
  function Content(moduleName: string, moduleDesc: string, fs: seq<FunctionDoc>): string {
    ContentHead + moduleName + ContentNameToDesc + moduleDesc + ContentDescToFunctions + Articles(fs) + ContentTail
  }

  lemma ContentHeadChunks()
    ensures Counts(ContentHead, 0, 0) && Counts(ContentNameToDesc, 0, 0) && Counts(ContentTail, 0, 0)
  {
    var o := "section id=\"overview\"";
    assert '<' !in o && '>' !in o && o[0] == 's';
    assert '<' !in "\n    " && '<' !in "\n      " && '<' !in "\n  ";
    assert '<' !in "h1" && '>' !in "h1" && '<' !in "p" && '>' !in "p";
    assert '<' !in "section" && '>' !in "section";
    Text("\n    ");
    Text("\n      ");
    Text("\n  ");
    OtherTag(o);
    OtherTag("h1");
    CloseTagCounts("h1");
    OtherTag("p");
    CloseTagCounts("section");
    Zero4("\n    ", Tag(o), "\n      ", Tag("h1"));
    Zero3(CloseTag("h1"), "\n      ", Tag("p"));
    Zero3("\n    ", CloseTag("section"), "\n  ");
  }

  lemma FunctionsSectionChunk()
    ensures Counts(FunctionsSection, 0, 0)
  {
    var t1, t2 := "section id=\"functions\"", " style=\"display: none;\"";
    assert '<' !in t1 && '>' !in t1 && t1[0] == 's';
    assert '<' !in t2 && '>' !in t2;
    OtherTag2(t1, t2);
  }

  lemma ContentMiddleChunk()
    ensures Counts(ContentDescToFunctions, 0, 0)
  {
    assert '<' !in "\n    " && '<' !in "\n      " && '<' !in "Functions";
    assert '<' !in "p" && '>' !in "p" && '<' !in "h2" && '>' !in "h2";
    assert '<' !in "section" && '>' !in "section";
    FunctionsSectionChunk();
    CloseTagCounts("p");
    Text("\n    ");
    CloseTagCounts("section");
    Text("\n      ");
    OtherTag("h2");
    Text("Functions");
    CloseTagCounts("h2");
    Zero10(CloseTag("p"), "\n    ", CloseTag("section"), "\n    ", FunctionsSection, "\n      ", Tag("h2"),
           "Functions", CloseTag("h2"), "\n      ");
  }

  /** The layout of the content panel: fixed text around three interpolations. */
  lemma ContentShape(q0: string, name: string, q2: string, desc: string, q4: string, arts: string, q6: string,
                     an: int, inn: int, ad: int, id: int, na: int, ni: int)
    requires Counts(q0, 0, 0) && Counts(q2, 0, 0) && Counts(q4, 0, 0) && Counts(q6, 0, 0)
    requires Counts(name, an, inn) && Counts(desc, ad, id) && Counts(arts, na, ni)
    ensures Counts(q0 + name + q2 + desc + q4 + arts + q6, an + ad + na, inn + id + ni)
  {
    Join2(q0, name, 0, an, 0, inn);
    Join2(q0 + name, q2, an, 0, inn, 0);
    Join2(q0 + name + q2, desc, an, ad, inn, id);
    Join2(q0 + name + q2 + desc, q4, an + ad, 0, inn + id, 0);
    Join2(q0 + name + q2 + desc + q4, arts, an + ad, na, inn + id, ni);
    Join2(q0 + name + q2 + desc + q4 + arts, q6, an + ad + na, 0, inn + id + ni, 0);
  }

  /** The content panel holds one article per function and one list item per
      parameter, plus whatever tags the module name and description carry. */
  lemma ContentCounts(moduleName: string, moduleDesc: string, fs: seq<FunctionDoc>)
    requires Closed(moduleName) && Closed(moduleDesc)
    requires forall k :: 0 <= k < |fs| ==> PlainFunction(fs[k])
    ensures Counts(Content(moduleName, moduleDesc, fs), ArticleTags(moduleName) + ArticleTags(moduleDesc) + |fs|,
                   ItemTags(moduleName) + ItemTags(moduleDesc) + ParamCount(fs))
  {
    ContentHeadChunks();
    ContentMiddleChunk();
    ArticlesCounts(fs);
    ContentShape(ContentHead, moduleName, ContentNameToDesc, moduleDesc, ContentDescToFunctions, Articles(fs),
                 ContentTail, ArticleTags(moduleName), ItemTags(moduleName), ArticleTags(moduleDesc), ItemTags(moduleDesc), |fs|, ParamCount(fs));
  }

  /** With no markup in the parsed text, the elements the search box filters
      are exactly the documented functions: one article each, none in the
      sidebar. */
  lemma SearchTargets(moduleName: string, moduleDesc: string, fs: seq<FunctionDoc>)
    requires Plain(moduleName) && Plain(moduleDesc)
    requires forall k :: 0 <= k < |fs| ==> PlainFunction(fs[k])
    ensures ArticleTags(Sidebar(moduleName)) + ArticleTags(Content(moduleName, moduleDesc, fs)) == |fs|
  {
    Text(moduleName);
    Text(moduleDesc);
    SidebarCounts(moduleName);
    ContentCounts(moduleName, moduleDesc, fs);
  }
}
