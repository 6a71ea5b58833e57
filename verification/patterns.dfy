/** The four regular expressions of the ndoc pipeline, as deterministic matchers.

    Each `\w+` and `\s*` in these patterns is followed by a character it cannot
    match (a literal such as `(`, `-`, `*` or a backquote), so its greedy run is
    the only one that can succeed and backtracking never changes it. The one
    place backtracking matters is the final `\s*(.+)`: when the white space runs
    to the end of the text, `\s*` gives characters back until `.` can start.
    `TailStart` states that choice declaratively.

    The matchers carry no quantified postconditions; what they compute is stated
    by the `...Spec`, `...Sound` and `...Canonical` lemmas below them. */
module Patterns {
  import opened Strings

  datatype Option<T> = None | Some(value: T)

  /** Captures of `(\w+)\s*\((\w+)\)\s*-\s*(.+)` and of the Markdown parameter bullet. */
  datatype ParamGroups = ParamGroups(name: string, typ: string, desc: string)

  /** Captures of `(\w+)\s*-\s*(.+)` and of the Markdown returns line. */
  datatype ReturnGroups = ReturnGroups(typ: string, desc: string)

  // ---------------------------------------------------------------------------
  // Greedy runs

  /** Where a greedy `\s*` that starts at `i` stops. */
  function SpaceEnd(s: string, i: nat): (j: nat)
    requires i <= |s|
    ensures i <= j <= |s|
    decreases |s| - i
  {
    if i < |s| && IsSpace(s[i]) then SpaceEnd(s, i + 1) else i
  }

  /** Where a greedy `\w*` that starts at `i` stops; `\w+` matched iff it moved. */
  function WordEnd(s: string, i: nat): (j: nat)
    requires i <= |s|
    ensures i <= j <= |s|
    decreases |s| - i
  {
    if i < |s| && IsWordChar(s[i]) then WordEnd(s, i + 1) else i
  }

  /** Where a greedy `.*` that starts at `i` stops: the next line terminator. */
  function LineEnd(s: string, i: nat): (j: nat)
    requires i <= |s|
    ensures i <= j <= |s|
    decreases |s| - i
  {
    if i < |s| && !IsLineTerminator(s[i]) then LineEnd(s, i + 1) else i
  }

  /** `\s*` consumes white space only, and stops at the first other character. */
  lemma {:induction false} SpaceEndSpec(s: string, i: nat)
    requires i <= |s|
    ensures forall k :: i <= k < SpaceEnd(s, i) ==> IsSpace(s[k])
    ensures SpaceEnd(s, i) == |s| || !IsSpace(s[SpaceEnd(s, i)])
    decreases |s| - i
  {
    if i < |s| && IsSpace(s[i]) {
      SpaceEndSpec(s, i + 1);
    }
  }

  /** `\w*` consumes word characters only, and stops at the first other character. */
  lemma {:induction false} WordEndSpec(s: string, i: nat)
    requires i <= |s|
    ensures forall k :: i <= k < WordEnd(s, i) ==> IsWordChar(s[k])
    ensures WordEnd(s, i) == |s| || !IsWordChar(s[WordEnd(s, i)])
    decreases |s| - i
  {
    if i < |s| && IsWordChar(s[i]) {
      WordEndSpec(s, i + 1);
    }
  }

  /** `.*` stops exactly at the first line terminator. */
  lemma {:induction false} LineEndSpec(s: string, i: nat)
    requires i <= |s|
    ensures NoLineTerminator(s[i..LineEnd(s, i)])
    ensures LineEnd(s, i) == |s| || IsLineTerminator(s[LineEnd(s, i)])
    decreases |s| - i
  {
    if i < |s| && !IsLineTerminator(s[i]) {
      LineEndSpec(s, i + 1);
      assert s[i..LineEnd(s, i)] == [s[i]] + s[i + 1..LineEnd(s, i + 1)];
    }
  }

  lemma SpaceEndIs(s: string, i: nat, j: nat)
    requires i <= j <= |s|
    requires forall k :: i <= k < j ==> IsSpace(s[k])
    requires j == |s| || !IsSpace(s[j])
    ensures SpaceEnd(s, i) == j
  {
    SpaceEndSpec(s, i);
  }

  lemma WordEndIs(s: string, i: nat, j: nat)
    requires i <= j <= |s|
    requires forall k :: i <= k < j ==> IsWordChar(s[k])
    requires j == |s| || !IsWordChar(s[j])
    ensures WordEnd(s, i) == j
  {
    WordEndSpec(s, i);
  }

  /** A `\w+` that moved captured a word. */
  lemma WordRun(s: string, i: nat)
    requires i <= |s|
    ensures WordEnd(s, i) > i ==> IsWord(s[i..WordEnd(s, i)])
  {
    WordEndSpec(s, i);
    var j := WordEnd(s, i);
    forall k | 0 <= k < j - i
      ensures IsWordChar(s[i..j][k])
    {
      assert s[i..j][k] == s[i + k];
    }
  }

  lemma LineEndToEnd(s: string, i: nat)
    requires i <= |s| && NoLineTerminator(s[i..])
    ensures LineEnd(s, i) == |s|
  {
    LineEndSpec(s, i);
  }

  // ---------------------------------------------------------------------------
  // Literals

  predicate CharAt(s: string, i: nat, c: char) {
    i < |s| && s[i] == c
  }

  /** The literal `lit` occurs at position `i`. */
  predicate LiteralAt(s: string, i: nat, lit: string) {
    i + |lit| <= |s| && forall k :: 0 <= k < |lit| ==> s[i + k] == lit[k]
  }

  lemma LiteralAtIs(s: string, i: nat, lit: string)
    requires i + |lit| <= |s| && s[i..i + |lit|] == lit
    ensures LiteralAt(s, i, lit)
  {
    forall k | 0 <= k < |lit|
      ensures s[i + k] == lit[k]
    {
      assert s[i..i + |lit|][k] == s[i + k];
    }
  }

  lemma LiteralAtFirst(s: string, i: nat, lit: string)
    requires LiteralAt(s, i, lit) && |lit| > 0
    ensures s[i] == lit[0]
  {
    assert s[i + 0] == lit[0];
  }

  // ---------------------------------------------------------------------------
  // The trailing `\s*(.+)`

  /** `(.+)` can start at `e` after a `\s*` that started at `i`. */
  predicate TailStart(s: string, i: nat, e: nat) {
    i <= e < |s| && (forall k :: i <= k < e ==> IsSpace(s[k])) && !IsLineTerminator(s[e])
  }

  /** The last position in `[lo, hi)` that `.` can match. */
  function LastNonTerminator(s: string, lo: nat, hi: nat): (r: Option<nat>)
    requires lo <= hi <= |s|
    ensures r.Some? ==> lo <= r.value < hi
    decreases hi - lo
  {
    if hi == lo then None
    else if !IsLineTerminator(s[hi - 1]) then Some(hi - 1)
    else LastNonTerminator(s, lo, hi - 1)
  }

  lemma {:induction false} LastNonTerminatorSpec(s: string, lo: nat, hi: nat)
    requires lo <= hi <= |s|
    ensures var r := LastNonTerminator(s, lo, hi);
      && (r.Some? ==> !IsLineTerminator(s[r.value]))
      && (r.Some? ==> forall k :: r.value < k < hi ==> IsLineTerminator(s[k]))
      && (r.None? ==> forall k :: lo <= k < hi ==> IsLineTerminator(s[k]))
    decreases hi - lo
  {
    if hi > lo && IsLineTerminator(s[hi - 1]) {
      LastNonTerminatorSpec(s, lo, hi - 1);
    }
  }

  /** The start `\s*(.+)` settles on. */
  function TailStartOf(s: string, i: nat): (r: Option<nat>)
    requires i <= |s|
    ensures r.Some? ==> i <= r.value < |s|
  {
    var p := SpaceEnd(s, i);
    if p < |s| then Some(p) else LastNonTerminator(s, i, p)
  }

  /** Backtracking tries the greedy `\s*` longest first, so the tail starts at
      the LARGEST position where `.` can begin after white space, if any. */
  lemma TailStartOfSpec(s: string, i: nat)
    requires i <= |s|
    ensures var r := TailStartOf(s, i);
      && (r.Some? <==> exists e: nat :: TailStart(s, i, e))
      && (r.Some? ==> TailStart(s, i, r.value))
      && (r.Some? ==> forall e: nat :: TailStart(s, i, e) ==> e <= r.value)
  {
    var p := SpaceEnd(s, i);
    SpaceEndSpec(s, i);
    if p < |s| {
      assert TailStart(s, i, p);
    } else {
      LastNonTerminatorSpec(s, i, p);
      if LastNonTerminator(s, i, p).Some? {
        assert TailStart(s, i, LastNonTerminator(s, i, p).value);
      }
    }
  }

  /** The capture of a trailing, unanchored `\s*(.+)` that starts at `i`. */
  function RestOfLine(s: string, i: nat): (r: Option<string>)
    requires i <= |s|
  {
    match TailStartOf(s, i)
    case None => None
    case Some(e) => Some(s[e..LineEnd(s, e)])
  }

  /** `\s*(.+)` matches iff `.` can start after the white space, and captures
      the rest of that line from the largest such start. */
  lemma RestOfLineSpec(s: string, i: nat)
    requires i <= |s|
    ensures var r := RestOfLine(s, i);
      && (r.Some? <==> exists e: nat :: TailStart(s, i, e))
      && (r.Some? ==> exists e: nat :: TailStart(s, i, e) && r.value == s[e..LineEnd(s, e)]
                         && forall e': nat :: TailStart(s, i, e') ==> e' <= e)
  {
    TailStartOfSpec(s, i);
  }

  /** The capture of `\s*(.+)` is a non-empty run without line terminators. */
  lemma RestOfLineSound(s: string, i: nat)
    requires i <= |s|
    ensures RestOfLine(s, i).Some? ==>
      RestOfLine(s, i).value != [] && NoLineTerminator(RestOfLine(s, i).value)
  {
    match TailStartOf(s, i)
    case None =>
    case Some(e) =>
      TailStartOfSpec(s, i);
      LineEndSpec(s, e);
  }

  /** The capture of a trailing `\s*(.+)$` that starts at `i`. */
  function RestToEnd(s: string, i: nat): (r: Option<string>)
    requires i <= |s|
  {
    match TailStartOf(s, i)
    case None => None
    case Some(e) => if LineEnd(s, e) == |s| then Some(s[e..]) else None
  }

  /** `\s*(.+)$` matches iff some tail start reaches the end without a line
      terminator; only the largest can, since every smaller one meets the same
      line terminator. */
  lemma RestToEndSpec(s: string, i: nat)
    requires i <= |s|
    ensures RestToEnd(s, i).Some? <==> exists e: nat :: TailStart(s, i, e) && LineEnd(s, e) == |s|
  {
    TailStartOfSpec(s, i);
    match TailStartOf(s, i)
    case None =>
    case Some(e) =>
      if LineEnd(s, e) == |s| {
        assert TailStart(s, i, e);
      } else {
        LineEndSpec(s, e);
        forall e': nat | TailStart(s, i, e')
          ensures LineEnd(s, e') != |s|
        {
          LineEndSpec(s, e');
          var t := LineEnd(s, e);
          assert e' <= e < t < |s|;
        }
      }
  }

  /** The capture of `\s*(.+)$` is a non-empty suffix of the text without line
      terminators, and it is trimmed whenever the text is. */
  lemma RestToEndSound(s: string, i: nat)
    requires i <= |s|
    ensures var r := RestToEnd(s, i);
      && (r.Some? ==> r.value != [] && NoLineTerminator(r.value))
      && (r.Some? ==> |r.value| <= |s| - i && r.value == s[|s| - |r.value|..])
      && (r.Some? && IsTrimmed(s) ==> IsTrimmed(r.value))
  {
    match TailStartOf(s, i)
    case None =>
    case Some(e) =>
      if LineEnd(s, e) == |s| {
        LineEndSpec(s, e);
        SpaceEndSpec(s, i);
        assert s[e..] == s[e..LineEnd(s, e)];
        assert IsTrimmed(s) ==> !IsSpace(s[e]) by {
          if SpaceEnd(s, i) == |s| {
            assert IsSpace(s[|s| - 1]);
          }
        }
      }
  }

  /** A tail that starts with a character other than white space, and runs to
      the end of the text without a line terminator, is captured whole by both
      `\s*(.+)` and `\s*(.+)$`. */
  lemma RestIs(s: string, i: nat, d: string)
    requires i <= |s| && s[i..] == d
    requires d != [] && !IsSpace(d[0]) && NoLineTerminator(d)
    ensures RestOfLine(s, i) == Some(d)
    ensures RestToEnd(s, i) == Some(d)
  {
    assert s[i] == d[0];
    SpaceEndIs(s, i, i);
    assert TailStartOf(s, i) == Some(i);
    LineEndToEnd(s, i);
    assert s[i..LineEnd(s, i)] == d;
  }

  // ---------------------------------------------------------------------------
  // The parser's patterns

  /** The match of `(\w+)\s*\((\w+)\)\s*-\s*(.+)` that starts at position `i`. */
  function ParamAt(s: string, i: nat): Option<ParamGroups> {
    if i >= |s| || !IsWordChar(s[i]) then None
    else
      var j := WordEnd(s, i);
      var k := SpaceEnd(s, j);
      if !CharAt(s, k, '(') then None
      else
        var m := WordEnd(s, k + 1);
        if m == k + 1 || !CharAt(s, m, ')') then None
        else
          var n := SpaceEnd(s, m + 1);
          if !CharAt(s, n, '-') then None
          else
            match RestOfLine(s, n + 1)
            case None => None
            case Some(d) => Some(ParamGroups(s[i..j], s[k + 1..m], d))
  }

  /** The match of `(\w+)\s*-\s*(.+)` that starts at position `i`. */
  function ReturnAt(s: string, i: nat): Option<ReturnGroups> {
    if i >= |s| || !IsWordChar(s[i]) then None
    else
      var j := WordEnd(s, i);
      var n := SpaceEnd(s, j);
      if !CharAt(s, n, '-') then None
      else
        match RestOfLine(s, n + 1)
        case None => None
        case Some(d) => Some(ReturnGroups(s[i..j], d))
  }

  /** The first match an unanchored search finds: `at` tried at `from`,
      `from + 1`, ... up to `last`. */
  function Leftmost<G>(at: nat -> Option<G>, from: nat, last: nat): Option<G>
    decreases last + 1 - from
  {
    if from > last then None
    else if at(from).Some? then at(from)
    else Leftmost(at, from + 1, last)
  }

  /** The search fails iff no position matches, and otherwise returns the match
      at the first position that matches. */
  lemma {:induction false} LeftmostSpec<G>(at: nat -> Option<G>, from: nat, last: nat)
    ensures var r := Leftmost(at, from, last);
      && (r.None? <==> forall k: nat :: from <= k <= last ==> at(k).None?)
      && (r.Some? ==> exists k: nat :: from <= k <= last && at(k) == r
                                        && forall k': nat :: from <= k' < k ==> at(k').None?)
    decreases last + 1 - from
  {
    if from <= last && at(from).None? {
      LeftmostSpec(at, from + 1, last);
      var r := Leftmost(at, from + 1, last);
      if r.Some? {
        var k: nat :| from + 1 <= k <= last && at(k) == r
                      && forall k': nat :: from + 1 <= k' < k ==> at(k').None?;
        assert forall k': nat :: from <= k' < k ==> at(k').None?;
      }
    }
  }

  /** `s.match(/(\w+)\s*\((\w+)\)\s*-\s*(.+)/)`. */
  function SearchParam(s: string): Option<ParamGroups> {
    Leftmost(k => ParamAt(s, k), 0, |s|)
  }

  /** `s.match(/(\w+)\s*-\s*(.+)/)`. */
  function SearchReturn(s: string): Option<ReturnGroups> {
    Leftmost(k => ReturnAt(s, k), 0, |s|)
  }

  /** A parameter match captures two word tokens and a non-empty description
      without line terminators. */
  lemma ParamAtSound(s: string, i: nat)
    ensures ParamAt(s, i).Some? ==>
      var g := ParamAt(s, i).value;
      IsWord(g.name) && IsWord(g.typ) && g.desc != [] && NoLineTerminator(g.desc)
  {
    if ParamAt(s, i).Some? {
      ParamAtShape(s, i);
      var j := WordEnd(s, i);
      var k := SpaceEnd(s, j);
      var m := WordEnd(s, k + 1);
      var n := SpaceEnd(s, m + 1);
      WordRun(s, i);
      WordRun(s, k + 1);
      RestOfLineSound(s, n + 1);
    }
  }

  /** What a successful parameter match has seen. */
  lemma ParamAtShape(s: string, i: nat)
    requires ParamAt(s, i).Some?
    ensures i < |s| && IsWordChar(s[i])
    ensures var j := WordEnd(s, i);
      var k := SpaceEnd(s, j);
      && CharAt(s, k, '(')
      && var m := WordEnd(s, k + 1);
      && m != k + 1 && CharAt(s, m, ')')
      && var n := SpaceEnd(s, m + 1);
      && CharAt(s, n, '-') && RestOfLine(s, n + 1).Some?
      && ParamAt(s, i).value == ParamGroups(s[i..j], s[k + 1..m], RestOfLine(s, n + 1).value)
  {
  }

  /** A return match captures a word token and a non-empty description without
      line terminators. */
  lemma ReturnAtSound(s: string, i: nat)
    ensures ReturnAt(s, i).Some? ==>
      var g := ReturnAt(s, i).value;
      IsWord(g.typ) && g.desc != [] && NoLineTerminator(g.desc)
  {
    if ReturnAt(s, i).Some? {
      ReturnAtShape(s, i);
      var n := SpaceEnd(s, WordEnd(s, i));
      WordRun(s, i);
      RestOfLineSound(s, n + 1);
    }
  }

  /** What a successful return match has seen. */
  lemma ReturnAtShape(s: string, i: nat)
    requires ReturnAt(s, i).Some?
    ensures i < |s| && IsWordChar(s[i])
    ensures var j := WordEnd(s, i);
      var n := SpaceEnd(s, j);
      && CharAt(s, n, '-') && RestOfLine(s, n + 1).Some?
      && ReturnAt(s, i).value == ReturnGroups(s[i..j], RestOfLine(s, n + 1).value)
  {
  }

  lemma SearchParamSound(s: string)
    ensures SearchParam(s).Some? ==>
      var g := SearchParam(s).value;
      IsWord(g.name) && IsWord(g.typ) && g.desc != [] && NoLineTerminator(g.desc)
  {
    if SearchParam(s).Some? {
      LeftmostSpec(k => ParamAt(s, k), 0, |s|);
      var k: nat :| 0 <= k <= |s| && ParamAt(s, k) == SearchParam(s);
      ParamAtSound(s, k);
    }
  }

  lemma SearchReturnSound(s: string)
    ensures SearchReturn(s).Some? ==>
      var g := SearchReturn(s).value;
      IsWord(g.typ) && g.desc != [] && NoLineTerminator(g.desc)
  {
    if SearchReturn(s).Some? {
      LeftmostSpec(k => ReturnAt(s, k), 0, |s|);
      var k: nat :| 0 <= k <= |s| && ReturnAt(s, k) == SearchReturn(s);
      ReturnAtSound(s, k);
    }
  }

  /** `(\w+)\s*\((\w+)\)\s*-\s*(.+)` matched at `i` against text laid out as
      `N (T) - D`, described by positions. */
  lemma ParamAtLayout(s: string, i: nat, j: nat, m: nat, d: string)
    requires i < j && j + 2 < m && m + 4 <= |s|
    requires forall k :: i <= k < j ==> IsWordChar(s[k])
    requires forall k :: j + 2 <= k < m ==> IsWordChar(s[k])
    requires s[j] == ' ' && s[j + 1] == '(' && s[m] == ')'
    requires s[m + 1] == ' ' && s[m + 2] == '-' && s[m + 3] == ' '
    requires s[m + 4..] == d && d != [] && !IsSpace(d[0]) && NoLineTerminator(d)
    ensures ParamAt(s, i) == Some(ParamGroups(s[i..j], s[j + 2..m], d))
  {
    WordEndIs(s, i, j);
    SpaceEndIs(s, j, j + 1);
    WordEndIs(s, j + 2, m);
    SpaceEndIs(s, m + 1, m + 2);
    RestIs(s, m + 4, d);
    SpaceEndIs(s, m + 3, m + 4);
    ParamAtSteps(s, i, j, j + 1, m, m + 2, d);
  }

  /** One pass through `ParamAt` once every run and literal is known. */
  lemma ParamAtSteps(s: string, i: nat, j: nat, k: nat, m: nat, n: nat, d: string)
    requires i < j <= |s| && IsWordChar(s[i]) && WordEnd(s, i) == j && SpaceEnd(s, j) == k
    requires CharAt(s, k, '(') && WordEnd(s, k + 1) == m && m != k + 1 && CharAt(s, m, ')')
    requires SpaceEnd(s, m + 1) == n && CharAt(s, n, '-') && RestOfLine(s, n + 1) == Some(d)
    ensures ParamAt(s, i) == Some(ParamGroups(s[i..j], s[k + 1..m], d))
  {
  }

  /** `(\w+)\s*\((\w+)\)\s*-\s*(.+)` recognises `N (T) - D` and captures its parts. */
  lemma ParamAtCanonical(pre: string, n: string, t: string, d: string)
    requires IsWord(n) && IsWord(t)
    requires d != [] && !IsSpace(d[0]) && NoLineTerminator(d)
    ensures ParamAt(pre + n + " (" + t + ") - " + d, |pre|) == Some(ParamGroups(n, t, d))
  {
    var s := pre + n + " (" + t + ") - " + d;
    var i := |pre|;
    var j := i + |n|;
    var m := j + 2 + |t|;
    assert s[i..j] == n;
    assert s[j..j + 2] == " (";
    assert s[j + 2..m] == t;
    assert s[m..m + 4] == ") - ";
    assert s[m + 4..] == d;
    ParamAtLayout(s, i, j, m, d);
  }

  /** The search finds the canonical parameter text that follows one space. */
  lemma SearchParamCanonical(n: string, t: string, d: string)
    requires IsWord(n) && IsWord(t)
    requires d != [] && !IsSpace(d[0]) && NoLineTerminator(d)
    ensures SearchParam(" " + n + " (" + t + ") - " + d) == Some(ParamGroups(n, t, d))
  {
    var s := " " + n + " (" + t + ") - " + d;
    ParamAtCanonical(" ", n, t, d);
    assert ParamAt(s, 0).None?;
    assert Leftmost(k => ParamAt(s, k), 1, |s|) == ParamAt(s, 1);
  }

  /** `(\w+)\s*-\s*(.+)` matched at `i` against text laid out as `T - D`. */
  lemma ReturnAtLayout(s: string, i: nat, j: nat, d: string)
    requires i < j && j + 3 <= |s|
    requires forall k :: i <= k < j ==> IsWordChar(s[k])
    requires s[j] == ' ' && s[j + 1] == '-' && s[j + 2] == ' '
    requires s[j + 3..] == d && d != [] && !IsSpace(d[0]) && NoLineTerminator(d)
    ensures ReturnAt(s, i) == Some(ReturnGroups(s[i..j], d))
  {
    WordEndIs(s, i, j);
    SpaceEndIs(s, j, j + 1);
    RestIs(s, j + 3, d);
    SpaceEndIs(s, j + 2, j + 3);
    ReturnAtSteps(s, i, j, j + 1, d);
  }

  /** One pass through `ReturnAt` once every run and literal is known. */
  lemma ReturnAtSteps(s: string, i: nat, j: nat, n: nat, d: string)
    requires i < j <= |s| && IsWordChar(s[i]) && WordEnd(s, i) == j && SpaceEnd(s, j) == n
    requires CharAt(s, n, '-') && RestOfLine(s, n + 1) == Some(d)
    ensures ReturnAt(s, i) == Some(ReturnGroups(s[i..j], d))
  {
  }

  /** `(\w+)\s*-\s*(.+)` recognises `T - D` and captures its parts. */
  lemma ReturnAtCanonical(pre: string, t: string, d: string)
    requires IsWord(t)
    requires d != [] && !IsSpace(d[0]) && NoLineTerminator(d)
    ensures ReturnAt(pre + t + " - " + d, |pre|) == Some(ReturnGroups(t, d))
  {
    var s := pre + t + " - " + d;
    var i := |pre|;
    var j := i + |t|;
    assert s[i..j] == t;
    assert s[j..j + 3] == " - ";
    assert s[j + 3..] == d;
    ReturnAtLayout(s, i, j, d);
  }

  /** The search finds the canonical return text that follows one space. */
  lemma SearchReturnCanonical(t: string, d: string)
    requires IsWord(t)
    requires d != [] && !IsSpace(d[0]) && NoLineTerminator(d)
    ensures SearchReturn(" " + t + " - " + d) == Some(ReturnGroups(t, d))
  {
    var s := " " + t + " - " + d;
    ReturnAtCanonical(" ", t, d);
    assert ReturnAt(s, 0).None?;
    assert Leftmost(k => ReturnAt(s, k), 1, |s|) == ReturnAt(s, 1);
  }

  // ---------------------------------------------------------------------------
  // The normaliser's patterns

  /** `line.match(/^\s*- \*\*(\w+)\*\* \(`(\w+)`\):\s*(.+)$/)`. */
  function ParamBullet(line: string): Option<ParamGroups> {
    var a := SpaceEnd(line, 0);
    if !LiteralAt(line, a, "- **") then None
    else ParamBulletTail(line, a + 4)
  }

  /** The part of the bullet pattern after `- **`, from position `p`. */
  function ParamBulletTail(line: string, p: nat): Option<ParamGroups>
    requires p <= |line|
  {
    var b := WordEnd(line, p);
    if b == p || !LiteralAt(line, b, "** (`") then None
    else
      var c := WordEnd(line, b + 5);
      if c == b + 5 || !LiteralAt(line, c, "`):") then None
      else
        match RestToEnd(line, c + 3)
        case None => None
        case Some(d) => Some(ParamGroups(line[p..b], line[b + 5..c], d))
  }

  /** `line.match(/^\s*\*\*Returns\*\*:\s*`(\w+)`\s*-\s*(.+)$/)`. */
  function ReturnsBullet(line: string): Option<ReturnGroups> {
    var a := SpaceEnd(line, 0);
    if !LiteralAt(line, a, "**Returns**:") then None
    else
      ReturnsTail(line, a + 12)
  }

  /** The part of the returns pattern after `**Returns**:`, from position `p`. */
  function ReturnsTail(line: string, p: nat): Option<ReturnGroups>
    requires p <= |line|
  {
    var b := SpaceEnd(line, p);
    if !CharAt(line, b, '`') then None
    else
      var c := WordEnd(line, b + 1);
      if c == b + 1 || !CharAt(line, c, '`') then None
      else
        var d := SpaceEnd(line, c + 1);
        if !CharAt(line, d, '-') then None
        else
          match RestToEnd(line, d + 1)
          case None => None
          case Some(t) => Some(ReturnGroups(line[b + 1..c], t))
  }

  /** A bullet match captures two word tokens and a non-empty description that
      runs to the end of the line; on a trimmed line the description is trimmed. */
  lemma ParamBulletSound(line: string)
    ensures ParamBullet(line).Some? ==>
      var g := ParamBullet(line).value;
      && IsWord(g.name) && IsWord(g.typ) && g.desc != [] && NoLineTerminator(g.desc)
      && (IsTrimmed(line) ==> IsTrimmed(g.desc))
  {
    var a := SpaceEnd(line, 0);
    if LiteralAt(line, a, "- **") {
      ParamBulletTailSound(line, a + 4);
    }
  }

  lemma ParamBulletTailSound(line: string, p: nat)
    requires p <= |line|
    ensures ParamBulletTail(line, p).Some? ==>
      var g := ParamBulletTail(line, p).value;
      && IsWord(g.name) && IsWord(g.typ) && g.desc != [] && NoLineTerminator(g.desc)
      && (IsTrimmed(line) ==> IsTrimmed(g.desc))
  {
    if ParamBulletTail(line, p).Some? {
      ParamBulletTailShape(line, p);
      var b := WordEnd(line, p);
      ParamBulletGroupsSound(line, p, b, WordEnd(line, b + 5));
    }
  }

  /** The groups the bullet tail cuts out of the line, once its runs are known. */
  lemma ParamBulletGroupsSound(line: string, p: nat, b: nat, c: nat)
    requires p <= |line| && b == WordEnd(line, p) && b != p && b + 5 <= |line|
    requires c == WordEnd(line, b + 5) && c != b + 5 && c + 3 <= |line|
    requires RestToEnd(line, c + 3).Some?
    ensures var d := RestToEnd(line, c + 3).value;
      && IsWord(line[p..b]) && IsWord(line[b + 5..c]) && d != [] && NoLineTerminator(d)
      && (IsTrimmed(line) ==> IsTrimmed(d))
  {
    WordRun(line, p);
    WordRun(line, b + 5);
    RestToEndSound(line, c + 3);
  }

  /** What a successful match of the bullet tail has seen. */
  lemma ParamBulletTailShape(line: string, p: nat)
    requires p <= |line| && ParamBulletTail(line, p).Some?
    ensures var b := WordEnd(line, p);
      && b != p && b + 5 <= |line| && LiteralAt(line, b, "** (`")
      && var c := WordEnd(line, b + 5);
      && c != b + 5 && c + 3 <= |line| && LiteralAt(line, c, "`):")
      && RestToEnd(line, c + 3).Some?
      && ParamBulletTail(line, p).value
         == ParamGroups(line[p..b], line[b + 5..c], RestToEnd(line, c + 3).value)
  {
  }

  /** A returns-line match captures a word token and a non-empty description
      that runs to the end of the line; on a trimmed line it is trimmed. */
  lemma ReturnsBulletSound(line: string)
    ensures ReturnsBullet(line).Some? ==>
      var g := ReturnsBullet(line).value;
      && IsWord(g.typ) && g.desc != [] && NoLineTerminator(g.desc)
      && (IsTrimmed(line) ==> IsTrimmed(g.desc))
  {
    var a := SpaceEnd(line, 0);
    if LiteralAt(line, a, "**Returns**:") {
      ReturnsTailSound(line, a + 12);
    }
  }

  lemma ReturnsTailSound(line: string, p: nat)
    requires p <= |line|
    ensures ReturnsTail(line, p).Some? ==>
      var g := ReturnsTail(line, p).value;
      && IsWord(g.typ) && g.desc != [] && NoLineTerminator(g.desc)
      && (IsTrimmed(line) ==> IsTrimmed(g.desc))
  {
    if ReturnsTail(line, p).Some? {
      var b := SpaceEnd(line, p);
      ReturnsTailShape(line, p);
      var c := WordEnd(line, b + 1);
      var e := SpaceEnd(line, c + 1);
      WordRun(line, b + 1);
      RestToEndSound(line, e + 1);
    }
  }

  /** What a successful match of the returns tail has seen. */
  lemma ReturnsTailShape(line: string, p: nat)
    requires p <= |line| && ReturnsTail(line, p).Some?
    ensures var b := SpaceEnd(line, p);
      && CharAt(line, b, '`')
      && var c := WordEnd(line, b + 1);
      && c != b + 1 && CharAt(line, c, '`')
      && var e := SpaceEnd(line, c + 1);
      && CharAt(line, e, '-') && RestToEnd(line, e + 1).Some?
      && ReturnsTail(line, p).value == ReturnGroups(line[b + 1..c], RestToEnd(line, e + 1).value)
  {
  }

  /** The parameter bullet matched against text laid out as ``- **N** (`T`): D``,
      described by positions. */
  lemma ParamBulletLayout(s: string, b: nat, c: nat, d: string)
    requires 4 < b && b + 5 < c && c + 4 <= |s|
    requires LiteralAt(s, 0, "- **") && LiteralAt(s, b, "** (`") && LiteralAt(s, c, "`):")
    requires forall k :: 4 <= k < b ==> IsWordChar(s[k])
    requires forall k :: b + 5 <= k < c ==> IsWordChar(s[k])
    requires s[c + 3] == ' ' && s[c + 4..] == d
    requires d != [] && !IsSpace(d[0]) && NoLineTerminator(d)
    ensures ParamBullet(s) == Some(ParamGroups(s[4..b], s[b + 5..c], d))
  {
    LiteralAtFirst(s, 0, "- **");
    LiteralAtFirst(s, b, "** (`");
    LiteralAtFirst(s, c, "`):");
    SpaceEndIs(s, 0, 0);
    WordEndIs(s, 4, b);
    WordEndIs(s, b + 5, c);
    RestIs(s, c + 4, d);
    SpaceEndIs(s, c + 3, c + 4);
    ParamBulletSteps(s, b, c, d);
  }

  /** One pass through `ParamBullet` once every run and literal is known. */
  lemma ParamBulletSteps(s: string, b: nat, c: nat, d: string)
    requires 4 < b <= |s| && SpaceEnd(s, 0) == 0 && LiteralAt(s, 0, "- **")
    requires WordEnd(s, 4) == b && LiteralAt(s, b, "** (`")
    requires b + 5 <= |s| && WordEnd(s, b + 5) == c && c != b + 5 && LiteralAt(s, c, "`):")
    requires c + 3 <= |s| && RestToEnd(s, c + 3) == Some(d)
    ensures ParamBullet(s) == Some(ParamGroups(s[4..b], s[b + 5..c], d))
  {
  }

  /** The Markdown parameter bullet ``- **N** (`T`): D`` is recognised and its
      three parts captured. */
  lemma ParamBulletCanonical(n: string, t: string, d: string)
    requires IsWord(n) && IsWord(t)
    requires d != [] && !IsSpace(d[0]) && NoLineTerminator(d)
    ensures ParamBullet("- **" + n + "** (`" + t + "`): " + d) == Some(ParamGroups(n, t, d))
  {
    var s := "- **" + n + "** (`" + t + "`): " + d;
    var b := 4 + |n|;
    var c := b + 5 + |t|;
    assert s[0..4] == "- **";
    assert s[4..b] == n;
    assert s[b..b + 5] == "** (`";
    assert s[b + 5..c] == t;
    assert s[c..c + 3] == "`):";
    assert s[c + 3] == ' ';
    assert s[c + 4..] == d;
    LiteralAtIs(s, 0, "- **");
    LiteralAtIs(s, b, "** (`");
    LiteralAtIs(s, c, "`):");
    ParamBulletLayout(s, b, c, d);
  }

  /** The returns line matched against text laid out as ``**Returns**: `T` - D``,
      described by positions. */
  lemma ReturnsBulletLayout(s: string, c: nat, d: string)
    requires 14 < c && c + 4 <= |s|
    requires LiteralAt(s, 0, "**Returns**:") && s[12] == ' ' && s[13] == '`'
    requires forall k :: 14 <= k < c ==> IsWordChar(s[k])
    requires s[c] == '`' && s[c + 1] == ' ' && s[c + 2] == '-' && s[c + 3] == ' '
    requires s[c + 4..] == d && d != [] && !IsSpace(d[0]) && NoLineTerminator(d)
    ensures ReturnsBullet(s) == Some(ReturnGroups(s[14..c], d))
  {
    LiteralAtFirst(s, 0, "**Returns**:");
    SpaceEndIs(s, 0, 0);
    ReturnsTailLayout(s, c, d);
  }

  lemma ReturnsTailLayout(s: string, c: nat, d: string)
    requires 14 < c && c + 4 <= |s|
    requires s[12] == ' ' && s[13] == '`'
    requires forall k :: 14 <= k < c ==> IsWordChar(s[k])
    requires s[c] == '`' && s[c + 1] == ' ' && s[c + 2] == '-' && s[c + 3] == ' '
    requires s[c + 4..] == d && d != [] && !IsSpace(d[0]) && NoLineTerminator(d)
    ensures ReturnsTail(s, 12) == Some(ReturnGroups(s[14..c], d))
  {
    SpaceEndIs(s, 12, 13);
    WordEndIs(s, 14, c);
    SpaceEndIs(s, c + 1, c + 2);
    RestIs(s, c + 4, d);
    SpaceEndIs(s, c + 3, c + 4);
    ReturnsTailSteps(s, 12, 13, c, c + 2, d);
  }

  /** One pass through `ReturnsTail` once every run and literal is known. */
  lemma ReturnsTailSteps(s: string, p: nat, b: nat, c: nat, e: nat, d: string)
    requires p <= |s| && SpaceEnd(s, p) == b && CharAt(s, b, '`')
    requires WordEnd(s, b + 1) == c && c != b + 1 && CharAt(s, c, '`')
    requires SpaceEnd(s, c + 1) == e && CharAt(s, e, '-') && RestToEnd(s, e + 1) == Some(d)
    ensures ReturnsTail(s, p) == Some(ReturnGroups(s[b + 1..c], d))
  {
  }

  /** The Markdown returns line ``**Returns**: `T` - D`` is recognised and its two
      parts captured. */
  lemma ReturnsBulletCanonical(t: string, d: string)
    requires IsWord(t)
    requires d != [] && !IsSpace(d[0]) && NoLineTerminator(d)
    ensures ReturnsBullet("**Returns**: `" + t + "` - " + d) == Some(ReturnGroups(t, d))
  {
    var s := "**Returns**: `" + t + "` - " + d;
    var c := 14 + |t|;
    assert s[0..12] == "**Returns**:";
    assert s[12] == ' ' && s[13] == '`';
    assert s[14..c] == t;
    assert s[c] == '`' && s[c + 1] == ' ' && s[c + 2] == '-' && s[c + 3] == ' ';
    assert s[c + 4..] == d;
    LiteralAtIs(s, 0, "**Returns**:");
    ReturnsBulletLayout(s, c, d);
  }
}
