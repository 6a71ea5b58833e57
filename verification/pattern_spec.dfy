/** The four regular expressions of the ndoc pipeline, stated declaratively:
    "the pattern matches here, with these positions", with no reference to how
    a matcher finds them. Each matcher of `Patterns` is proved to succeed
    exactly when such a match exists, and to capture the groups of the match
    the regular-expression engine prefers: every `\w+` and `\s*` run before a
    literal is the only one possible, the final `\s*` is the longest that
    leaves `.` a character to start on, and the final `.+` is the longest run
    without a line terminator. The search functions are proved to return the
    match at the leftmost position where one exists. */
module PatternSpec {
  import opened Strings
  import opened Patterns

  /** `\w+` matches `s[a..b]`. */
  predicate WordSpan(s: string, a: nat, b: nat) {
    a < b <= |s| && forall k :: a <= k < b ==> IsWordChar(s[k])
  }

  /** `\s*` matches `s[a..b]`. */
  predicate SpaceSpan(s: string, a: nat, b: nat) {
    a <= b <= |s| && forall k :: a <= k < b ==> IsSpace(s[k])
  }

  /** A greedy `.+` that starts at `e` matches `s[e..f]`: at least one
      character, none a line terminator, and it stops only at a line
      terminator or at the end of the text. */
  predicate LineRun(s: string, e: nat, f: nat) {
    e < f <= |s| && NoLineTerminator(s[e..f]) && (f == |s| || IsLineTerminator(s[f]))
  }

  /** `(\w+)\s*\((\w+)\)\s*-\s*(.+)` matches from `i`, its runs ending at `j`,
      `k`, `m`, `n` and `f`, with `.+` starting at `e`. */
  predicate ParamMatch(s: string, i: nat, j: nat, k: nat, m: nat, n: nat, e: nat, f: nat) {
    && WordSpan(s, i, j) && SpaceSpan(s, j, k) && CharAt(s, k, '(')
    && WordSpan(s, k + 1, m) && CharAt(s, m, ')')
    && SpaceSpan(s, m + 1, n) && CharAt(s, n, '-')
    && TailStart(s, n + 1, e) && LineRun(s, e, f)
  }

  ghost predicate ParamMatches(s: string, i: nat) {
    exists j: nat, k: nat, m: nat, n: nat, e: nat, f: nat :: ParamMatch(s, i, j, k, m, n, e, f)
  }

  /** `(\w+)\s*-\s*(.+)` matches from `i`. */
  predicate ReturnMatch(s: string, i: nat, j: nat, n: nat, e: nat, f: nat) {
    && WordSpan(s, i, j) && SpaceSpan(s, j, n) && CharAt(s, n, '-')
    && TailStart(s, n + 1, e) && LineRun(s, e, f)
  }

  ghost predicate ReturnMatches(s: string, i: nat) {
    exists j: nat, n: nat, e: nat, f: nat :: ReturnMatch(s, i, j, n, e, f)
  }

  /** ``^\s*- \*\*(\w+)\*\* \(`(\w+)`\):\s*(.+)$`` matches the whole line. */
  predicate ParamBulletMatch(s: string, a: nat, b: nat, c: nat, e: nat) {
    && SpaceSpan(s, 0, a) && LiteralAt(s, a, "- **")
    && WordSpan(s, a + 4, b) && LiteralAt(s, b, "** (`")
    && WordSpan(s, b + 5, c) && LiteralAt(s, c, "`):")
    && TailStart(s, c + 3, e) && LineRun(s, e, |s|)
  }

  ghost predicate ParamBulletMatches(s: string) {
    exists a: nat, b: nat, c: nat, e: nat :: ParamBulletMatch(s, a, b, c, e)
  }

  /** ``^\s*\*\*Returns\*\*:\s*`(\w+)`\s*-\s*(.+)$`` matches the whole line. */
  predicate ReturnsBulletMatch(s: string, a: nat, b: nat, c: nat, d: nat, e: nat) {
    SpaceSpan(s, 0, a) && LiteralAt(s, a, "**Returns**:") && ReturnsTailMatch(s, a + 12, b, c, d, e)
  }

  /** ``\s*`(\w+)`\s*-\s*(.+)$`` matches from `p` to the end of the line. */
  predicate ReturnsTailMatch(s: string, p: nat, b: nat, c: nat, d: nat, e: nat) {
    && SpaceSpan(s, p, b) && CharAt(s, b, '`')
    && WordSpan(s, b + 1, c) && CharAt(s, c, '`')
    && SpaceSpan(s, c + 1, d) && CharAt(s, d, '-')
    && TailStart(s, d + 1, e) && LineRun(s, e, |s|)
  }

  ghost predicate ReturnsBulletMatches(s: string) {
    exists a: nat, b: nat, c: nat, d: nat, e: nat :: ReturnsBulletMatch(s, a, b, c, d, e)
  }

  /** `e` is where `\s*(.+)` from `p` starts the `.+`: the largest position
      after white space that `.` can begin on, which is where the greedy `\s*`
      settles once backtracking has given back as little as possible. */
  ghost predicate MaxTail(s: string, p: nat, e: nat) {
    TailStart(s, p, e) && forall e': nat :: TailStart(s, p, e') ==> e' <= e
  }

  // ---------------------------------------------------------------------------
  // Runs

  /** White space is never a word character. */
  lemma SpaceNotWord(c: char)
    requires IsSpace(c)
    ensures !IsWordChar(c)
  {
  }

  /** A `\w+` run followed by something else is the greedy run. */
  lemma WordSpanEnd(s: string, a: nat, b: nat)
    requires WordSpan(s, a, b) && (b == |s| || !IsWordChar(s[b]))
    ensures WordEnd(s, a) == b
  {
    WordEndIs(s, a, b);
  }

  /** A `\s*` run followed by something else is the greedy run. */
  lemma SpaceSpanEnd(s: string, a: nat, b: nat)
    requires SpaceSpan(s, a, b) && (b == |s| || !IsSpace(s[b]))
    ensures SpaceEnd(s, a) == b
  {
    SpaceEndIs(s, a, b);
  }

  /** The greedy runs are runs. */
  lemma GreedySpans(s: string, a: nat)
    requires a <= |s|
    ensures SpaceSpan(s, a, SpaceEnd(s, a))
    ensures WordEnd(s, a) > a ==> WordSpan(s, a, WordEnd(s, a))
  {
    SpaceEndSpec(s, a);
    WordEndSpec(s, a);
  }

  /** The `.+` run from a character that can start it ends at `LineEnd`. */
  lemma {:induction false} LineRunIs(s: string, e: nat)
    requires e < |s| && !IsLineTerminator(s[e])
    ensures LineRun(s, e, LineEnd(s, e))
    ensures forall f: nat :: LineRun(s, e, f) ==> f == LineEnd(s, e)
  {
    LineEndSpec(s, e);
    var t := LineEnd(s, e);
    assert t > e;
    forall f: nat | LineRun(s, e, f)
      ensures f == t
    {
      LineRunUnique(s, e, f);
    }
  }

  /** A `.+` run stops at the first line terminator, so it has one end. */
  lemma LineRunUnique(s: string, e: nat, f: nat)
    requires LineRun(s, e, f)
    ensures f == LineEnd(s, e)
  {
    LineEndSpec(s, e);
    var t := LineEnd(s, e);
    NoTerminatorAt(s, e, t, f);
    NoTerminatorAt(s, e, f, t);
  }

  /** A position inside a run without line terminators holds none. */
  lemma NoTerminatorAt(s: string, e: nat, t: nat, x: nat)
    requires e <= t <= |s| && NoLineTerminator(s[e..t])
    ensures e <= x < t ==> !IsLineTerminator(s[x])
  {
    if e <= x < t {
      assert s[e..t][x - e] == s[x];
    }
  }

  /** A leftmost search over a matcher that succeeds exactly where `matches`
      holds finds something iff some position up to `last` matches, and then
      the match from the first such position. */
  lemma LeftmostMatches<G>(at: nat -> Option<G>, matches: nat -> bool, last: nat)
    requires forall k: nat :: at(k).Some? <==> matches(k)
    ensures Leftmost(at, 0, last).Some? <==> exists i: nat :: i <= last && matches(i)
    ensures Leftmost(at, 0, last).Some? ==>
      exists i: nat :: && i <= last && matches(i) && Leftmost(at, 0, last) == at(i)
                       && forall i': nat :: i' < i ==> !matches(i')
  {
    LeftmostSpec(at, 0, last);
  }

  // ---------------------------------------------------------------------------
  // `(\w+)\s*\((\w+)\)\s*-\s*(.+)`

  /** In any match, every run before the final `\s*` is the greedy one. */
  lemma ParamMatchGreedy(s: string, i: nat, j: nat, k: nat, m: nat, n: nat, e: nat, f: nat)
    requires ParamMatch(s, i, j, k, m, n, e, f)
    ensures j == WordEnd(s, i) && k == SpaceEnd(s, j)
    ensures m == WordEnd(s, k + 1) && n == SpaceEnd(s, m + 1)
    ensures f == LineEnd(s, e)
  {
    if j < k {
      SpaceNotWord(s[j]);
    }
    WordSpanEnd(s, i, j);
    SpaceSpanEnd(s, j, k);
    WordSpanEnd(s, k + 1, m);
    SpaceSpanEnd(s, m + 1, n);
    LineRunIs(s, e);
  }

  /** A match from `i` is the one `ParamAt` follows, so `ParamAt` succeeds. */
  lemma ParamAtComplete(s: string, i: nat, j: nat, k: nat, m: nat, n: nat, e: nat, f: nat)
    requires ParamMatch(s, i, j, k, m, n, e, f)
    ensures ParamAt(s, i).Some?
  {
    ParamMatchGreedy(s, i, j, k, m, n, e, f);
    RestOfLineSpec(s, n + 1);
    ParamAtSteps(s, i, j, k, m, n, RestOfLine(s, n + 1).value);
  }

  /** The match `ParamAt` has found, as a witness. */
  lemma ParamAtFound(s: string, i: nat)
    requires ParamAt(s, i).Some?
    ensures exists j: nat, k: nat, m: nat, n: nat, e: nat, f: nat ::
      && ParamMatch(s, i, j, k, m, n, e, f) && MaxTail(s, n + 1, e)
      && ParamAt(s, i).value == ParamGroups(s[i..j], s[k + 1..m], s[e..f])
  {
    ParamAtShape(s, i);
    var j := WordEnd(s, i);
    var k := SpaceEnd(s, j);
    var m := WordEnd(s, k + 1);
    var n := SpaceEnd(s, m + 1);
    TailStartOfSpec(s, n + 1);
    var e := TailStartOf(s, n + 1).value;
    ParamAtWitness(s, i, j, k, m, n, e);
  }

  /** The positions the greedy runs settle on form a parameter match. */
  lemma ParamAtWitness(s: string, i: nat, j: nat, k: nat, m: nat, n: nat, e: nat)
    requires i < |s| && IsWordChar(s[i]) && j == WordEnd(s, i) && k == SpaceEnd(s, j) && CharAt(s, k, '(')
    requires m == WordEnd(s, k + 1) && m != k + 1 && CharAt(s, m, ')')
    requires n == SpaceEnd(s, m + 1) && CharAt(s, n, '-') && TailStart(s, n + 1, e)
    ensures ParamMatch(s, i, j, k, m, n, e, LineEnd(s, e))
  {
    GreedySpans(s, i);
    GreedySpans(s, j);
    GreedySpans(s, k + 1);
    GreedySpans(s, m + 1);
    LineRunIs(s, e);
  }

  /** A match of the parameter pattern exists from `i` exactly when `ParamAt`
      succeeds there, and `ParamAt` captures the groups of the match whose
      final `\s*` is longest. */
  lemma ParamAtSpec(s: string, i: nat)
    ensures ParamAt(s, i).Some? <==> ParamMatches(s, i)
    ensures ParamAt(s, i).Some? ==>
      exists j: nat, k: nat, m: nat, n: nat, e: nat, f: nat ::
        && ParamMatch(s, i, j, k, m, n, e, f) && MaxTail(s, n + 1, e)
        && ParamAt(s, i).value == ParamGroups(s[i..j], s[k + 1..m], s[e..f])
  {
    if ParamMatches(s, i) {
      var j: nat, k: nat, m: nat, n: nat, e: nat, f: nat :| ParamMatch(s, i, j, k, m, n, e, f);
      ParamAtComplete(s, i, j, k, m, n, e, f);
    }
    if ParamAt(s, i).Some? {
      ParamAtFound(s, i);
    }
  }

  /** `ParamAt` succeeds exactly at the positions where the pattern matches. */
  lemma ParamAtIff(s: string)
    ensures forall i: nat :: ParamAt(s, i).Some? <==> ParamMatches(s, i)
  {
    forall i: nat
      ensures ParamAt(s, i).Some? <==> ParamMatches(s, i)
    {
      ParamAtSpec(s, i);
    }
  }

  /** `s.match(/(\w+)\s*\((\w+)\)\s*-\s*(.+)/)` finds a match exactly when the
      pattern matches from some position, and then it is the match from the
      leftmost such position. */
  lemma SearchParamSpec(s: string)
    ensures SearchParam(s).Some? <==> exists i: nat :: i <= |s| && ParamMatches(s, i)
    ensures SearchParam(s).Some? ==>
      exists i: nat :: && i <= |s| && ParamMatches(s, i) && SearchParam(s) == ParamAt(s, i)
                       && forall i': nat :: i' < i ==> !ParamMatches(s, i')
  {
    ParamAtIff(s);
    var at := (k: nat) => ParamAt(s, k);
    var matches := (k: nat) => ParamMatches(s, k);
    LeftmostMatches(at, matches, |s|);
    assert SearchParam(s) == Leftmost(at, 0, |s|);
    if SearchParam(s).Some? {
      var i: nat :| && i <= |s| && matches(i) && Leftmost(at, 0, |s|) == at(i)
                    && forall i': nat :: i' < i ==> !matches(i');
      forall i': nat | i' < i
        ensures !ParamMatches(s, i')
      {
        assert !matches(i');
      }
      assert ParamMatches(s, i) && SearchParam(s) == ParamAt(s, i);
    } else {
      forall i: nat | i <= |s|
        ensures !ParamMatches(s, i)
      {
        assert !matches(i);
      }
    }
  }

  // ---------------------------------------------------------------------------
  // `(\w+)\s*-\s*(.+)`

  lemma ReturnMatchGreedy(s: string, i: nat, j: nat, n: nat, e: nat, f: nat)
    requires ReturnMatch(s, i, j, n, e, f)
    ensures j == WordEnd(s, i) && n == SpaceEnd(s, j) && f == LineEnd(s, e)
  {
    if j < n {
      SpaceNotWord(s[j]);
    }
    WordSpanEnd(s, i, j);
    SpaceSpanEnd(s, j, n);
    LineRunIs(s, e);
  }

  /** A match from `i` is the one `ReturnAt` follows, so `ReturnAt` succeeds. */
  lemma ReturnAtComplete(s: string, i: nat, j: nat, n: nat, e: nat, f: nat)
    requires ReturnMatch(s, i, j, n, e, f)
    ensures ReturnAt(s, i).Some?
  {
    ReturnMatchGreedy(s, i, j, n, e, f);
    RestOfLineSpec(s, n + 1);
    ReturnAtSteps(s, i, j, n, RestOfLine(s, n + 1).value);
  }

  /** The match `ReturnAt` has found, as a witness. */
  lemma ReturnAtFound(s: string, i: nat)
    requires ReturnAt(s, i).Some?
    ensures exists j: nat, n: nat, e: nat, f: nat ::
      && ReturnMatch(s, i, j, n, e, f) && MaxTail(s, n + 1, e)
      && ReturnAt(s, i).value == ReturnGroups(s[i..j], s[e..f])
  {
    ReturnAtShape(s, i);
    var j := WordEnd(s, i);
    var n := SpaceEnd(s, j);
    GreedySpans(s, i);
    GreedySpans(s, j);
    TailStartOfSpec(s, n + 1);
    var e := TailStartOf(s, n + 1).value;
    LineRunIs(s, e);
    var f := LineEnd(s, e);
    assert ReturnMatch(s, i, j, n, e, f);
  }

  /** A match of the return pattern exists from `i` exactly when `ReturnAt`
      succeeds there, and `ReturnAt` captures the groups of the match whose
      final `\s*` is longest. */
  lemma ReturnAtSpec(s: string, i: nat)
    ensures ReturnAt(s, i).Some? <==> ReturnMatches(s, i)
    ensures ReturnAt(s, i).Some? ==>
      exists j: nat, n: nat, e: nat, f: nat ::
        && ReturnMatch(s, i, j, n, e, f) && MaxTail(s, n + 1, e)
        && ReturnAt(s, i).value == ReturnGroups(s[i..j], s[e..f])
  {
    if ReturnMatches(s, i) {
      var j: nat, n: nat, e: nat, f: nat :| ReturnMatch(s, i, j, n, e, f);
      ReturnAtComplete(s, i, j, n, e, f);
    }
    if ReturnAt(s, i).Some? {
      ReturnAtFound(s, i);
    }
  }

  /** `ReturnAt` succeeds exactly at the positions where the pattern matches. */
  lemma ReturnAtIff(s: string)
    ensures forall i: nat :: ReturnAt(s, i).Some? <==> ReturnMatches(s, i)
  {
    forall i: nat
      ensures ReturnAt(s, i).Some? <==> ReturnMatches(s, i)
    {
      ReturnAtSpec(s, i);
    }
  }

  /** `s.match(/(\w+)\s*-\s*(.+)/)` finds the match from the leftmost position
      where the pattern matches, if there is one. */
  lemma SearchReturnSpec(s: string)
    ensures SearchReturn(s).Some? <==> exists i: nat :: i <= |s| && ReturnMatches(s, i)
    ensures SearchReturn(s).Some? ==>
      exists i: nat :: && i <= |s| && ReturnMatches(s, i) && SearchReturn(s) == ReturnAt(s, i)
                       && forall i': nat :: i' < i ==> !ReturnMatches(s, i')
  {
    ReturnAtIff(s);
    var at := (k: nat) => ReturnAt(s, k);
    var matches := (k: nat) => ReturnMatches(s, k);
    LeftmostMatches(at, matches, |s|);
    assert SearchReturn(s) == Leftmost(at, 0, |s|);
    if SearchReturn(s).Some? {
      var i: nat :| && i <= |s| && matches(i) && Leftmost(at, 0, |s|) == at(i)
                    && forall i': nat :: i' < i ==> !matches(i');
      forall i': nat | i' < i
        ensures !ReturnMatches(s, i')
      {
        assert !matches(i');
      }
      assert ReturnMatches(s, i) && SearchReturn(s) == ReturnAt(s, i);
    } else {
      forall i: nat | i <= |s|
        ensures !ReturnMatches(s, i)
      {
        assert !matches(i);
      }
    }
  }

  // ---------------------------------------------------------------------------
  // Anchored tails

  /** What a successful `\s*(.+)$` from `p` has matched: its `.+` starts at the
      largest tail start and runs to the end of the text. */
  lemma RestToEndFound(s: string, p: nat)
    requires p <= |s| && RestToEnd(s, p).Some?
    ensures TailStartOf(s, p).Some?
    ensures var e := TailStartOf(s, p).value;
      && MaxTail(s, p, e) && LineRun(s, e, |s|) && RestToEnd(s, p).value == s[e..]
  {
    TailStartOfSpec(s, p);
    LineRunIs(s, TailStartOf(s, p).value);
  }

  /** A `\s*(.+)$` match from `p` makes `RestToEnd` succeed. */
  lemma RestToEndComplete(s: string, p: nat, e: nat)
    requires p <= |s| && TailStart(s, p, e) && LineRun(s, e, |s|)
    ensures RestToEnd(s, p).Some?
  {
    LineRunIs(s, e);
    RestToEndSpec(s, p);
  }

  // ---------------------------------------------------------------------------
  // ``^\s*- \*\*(\w+)\*\* \(`(\w+)`\):\s*(.+)$``

  lemma ParamBulletMatchGreedy(s: string, a: nat, b: nat, c: nat, e: nat)
    requires ParamBulletMatch(s, a, b, c, e)
    ensures a == SpaceEnd(s, 0) && b == WordEnd(s, a + 4) && c == WordEnd(s, b + 5)
  {
    LiteralAtFirst(s, a, "- **");
    LiteralAtFirst(s, b, "** (`");
    LiteralAtFirst(s, c, "`):");
    SpaceSpanEnd(s, 0, a);
    WordSpanEnd(s, a + 4, b);
    WordSpanEnd(s, b + 5, c);
  }

  /** What a successful bullet match has seen. */
  lemma ParamBulletShape(s: string)
    requires ParamBullet(s).Some?
    ensures var a := SpaceEnd(s, 0);
      && LiteralAt(s, a, "- **") && ParamBulletTail(s, a + 4) == ParamBullet(s)
      && var b := WordEnd(s, a + 4);
      && LiteralAt(s, b, "** (`")
      && LiteralAt(s, WordEnd(s, b + 5), "`):")
  {
  }

  /** A bullet match is the one `ParamBullet` follows, so it succeeds. */
  lemma ParamBulletComplete(s: string, a: nat, b: nat, c: nat, e: nat)
    requires ParamBulletMatch(s, a, b, c, e)
    ensures ParamBullet(s).Some?
  {
    ParamBulletMatchGreedy(s, a, b, c, e);
    RestToEndComplete(s, c + 3, e);
    assert ParamBulletTail(s, a + 4).Some?;
  }

  /** The positions the greedy runs settle on form a bullet match. */
  lemma ParamBulletWitness(s: string, a: nat, b: nat, c: nat, e: nat)
    requires a == SpaceEnd(s, 0) && LiteralAt(s, a, "- **")
    requires b == WordEnd(s, a + 4) && b != a + 4 && LiteralAt(s, b, "** (`")
    requires c == WordEnd(s, b + 5) && c != b + 5 && LiteralAt(s, c, "`):")
    requires TailStart(s, c + 3, e) && LineRun(s, e, |s|)
    ensures ParamBulletMatch(s, a, b, c, e)
  {
    GreedySpans(s, 0);
    GreedySpans(s, a + 4);
    GreedySpans(s, b + 5);
  }

  /** The match `ParamBullet` has found, as a witness. */
  lemma ParamBulletFound(s: string)
    requires ParamBullet(s).Some?
    ensures exists a: nat, b: nat, c: nat, e: nat ::
      && ParamBulletMatch(s, a, b, c, e) && MaxTail(s, c + 3, e)
      && ParamBullet(s).value == ParamGroups(s[a + 4..b], s[b + 5..c], s[e..])
  {
    assert ParamBulletTail(s, SpaceEnd(s, 0) + 4) == ParamBullet(s);
    ParamBulletTailFound(s, SpaceEnd(s, 0), SpaceEnd(s, 0) + 4, ParamBullet(s).value);
  }

  /** The match the bullet tail has found after the leading `- **`. */
  lemma ParamBulletTailFound(s: string, a: nat, p: nat, g: ParamGroups)
    requires a == SpaceEnd(s, 0) && LiteralAt(s, a, "- **") && p == a + 4 && ParamBulletTail(s, p) == Some(g)
    ensures exists b: nat, c: nat, e: nat ::
      && ParamBulletMatch(s, a, b, c, e) && MaxTail(s, c + 3, e)
      && g == ParamGroups(s[a + 4..b], s[b + 5..c], s[e..])
  {
    ParamBulletTailShape(s, p);
    ParamBulletRunsFound(s, a, p, WordEnd(s, p), WordEnd(s, WordEnd(s, p) + 5), g);
  }

  /** Once the greedy runs and literals of the bullet are known, its groups are
      those of a match with the largest tail start. */
  lemma ParamBulletRunsFound(s: string, a: nat, p: nat, b: nat, c: nat, g: ParamGroups)
    requires a == SpaceEnd(s, 0) && LiteralAt(s, a, "- **") && p == a + 4
    requires b == WordEnd(s, p) && b != p && LiteralAt(s, b, "** (`")
    requires c == WordEnd(s, b + 5) && c != b + 5 && LiteralAt(s, c, "`):")
    requires RestToEnd(s, c + 3).Some?
    requires g == ParamGroups(s[p..b], s[b + 5..c], RestToEnd(s, c + 3).value)
    ensures exists b': nat, c': nat, e: nat ::
      && ParamBulletMatch(s, a, b', c', e) && MaxTail(s, c' + 3, e)
      && g == ParamGroups(s[a + 4..b'], s[b' + 5..c'], s[e..])
  {
    RestToEndFound(s, c + 3);
    var e := TailStartOf(s, c + 3).value;
    ParamBulletWitness(s, a, b, c, e);
    assert ParamBulletMatch(s, a, b, c, e) && MaxTail(s, c + 3, e);
  }

  /** The bullet pattern matches the line exactly when `ParamBullet` succeeds,
      and `ParamBullet` captures the groups of the match whose last `\s*` is
      longest. */
  lemma ParamBulletSpec(s: string)
    ensures ParamBullet(s).Some? <==> ParamBulletMatches(s)
    ensures ParamBullet(s).Some? ==>
      exists a: nat, b: nat, c: nat, e: nat ::
        && ParamBulletMatch(s, a, b, c, e) && MaxTail(s, c + 3, e)
        && ParamBullet(s).value == ParamGroups(s[a + 4..b], s[b + 5..c], s[e..])
  {
    if ParamBulletMatches(s) {
      var a: nat, b: nat, c: nat, e: nat :| ParamBulletMatch(s, a, b, c, e);
      ParamBulletComplete(s, a, b, c, e);
    }
    if ParamBullet(s).Some? {
      ParamBulletFound(s);
    }
  }

  // ---------------------------------------------------------------------------
  // ``^\s*\*\*Returns\*\*:\s*`(\w+)`\s*-\s*(.+)$``

  lemma ReturnsBulletMatchGreedy(s: string, a: nat, b: nat, c: nat, d: nat, e: nat)
    requires ReturnsBulletMatch(s, a, b, c, d, e)
    ensures a == SpaceEnd(s, 0) && b == SpaceEnd(s, a + 12)
    ensures c == WordEnd(s, b + 1) && d == SpaceEnd(s, c + 1)
  {
    LiteralAtFirst(s, a, "**Returns**:");
    SpaceSpanEnd(s, 0, a);
    SpaceSpanEnd(s, a + 12, b);
    WordSpanEnd(s, b + 1, c);
    SpaceSpanEnd(s, c + 1, d);
  }

  /** What a successful returns-line match has seen. */
  lemma ReturnsBulletShape(s: string)
    requires ReturnsBullet(s).Some?
    ensures var a := SpaceEnd(s, 0);
      && LiteralAt(s, a, "**Returns**:") && ReturnsTail(s, a + 12) == ReturnsBullet(s)
  {
  }

  /** A returns-line match is the one `ReturnsBullet` follows, so it succeeds. */
  lemma ReturnsBulletComplete(s: string, a: nat, b: nat, c: nat, d: nat, e: nat)
    requires ReturnsBulletMatch(s, a, b, c, d, e)
    ensures ReturnsBullet(s).Some?
  {
    ReturnsBulletMatchGreedy(s, a, b, c, d, e);
    RestToEndComplete(s, d + 1, e);
    ReturnsTailSteps(s, a + 12, b, c, d, RestToEnd(s, d + 1).value);
  }

  /** The match `ReturnsBullet` has found, as a witness. */
  lemma ReturnsBulletFound(s: string)
    requires ReturnsBullet(s).Some?
    ensures exists a: nat, b: nat, c: nat, d: nat, e: nat ::
      && ReturnsBulletMatch(s, a, b, c, d, e) && MaxTail(s, d + 1, e)
      && ReturnsBullet(s).value == ReturnGroups(s[b + 1..c], s[e..])
  {
    ReturnsBulletShape(s);
    var a := SpaceEnd(s, 0);
    GreedySpans(s, 0);
    ReturnsTailFound(s, a + 12);
    var b: nat, c: nat, d: nat, e: nat :|
      && ReturnsTailMatch(s, a + 12, b, c, d, e) && MaxTail(s, d + 1, e)
      && ReturnsTail(s, a + 12).value == ReturnGroups(s[b + 1..c], s[e..]);
    assert ReturnsBulletMatch(s, a, b, c, d, e);
  }

  /** The match `ReturnsTail` has found from `p`, as a witness. */
  lemma ReturnsTailFound(s: string, p: nat)
    requires p <= |s| && ReturnsTail(s, p).Some?
    ensures exists b: nat, c: nat, d: nat, e: nat ::
      && ReturnsTailMatch(s, p, b, c, d, e) && MaxTail(s, d + 1, e)
      && ReturnsTail(s, p).value == ReturnGroups(s[b + 1..c], s[e..])
  {
    ReturnsTailShape(s, p);
    var b := SpaceEnd(s, p);
    var c := WordEnd(s, SpaceEnd(s, p) + 1);
    ReturnsTailRunsFound(s, p, b, c, SpaceEnd(s, WordEnd(s, SpaceEnd(s, p) + 1) + 1), ReturnsTail(s, p).value);
  }

  /** Once the greedy runs of the returns tail are known, its groups are those
      of a match with the largest tail start. */
  lemma ReturnsTailRunsFound(s: string, p: nat, b: nat, c: nat, d: nat, g: ReturnGroups)
    requires p <= |s| && b == SpaceEnd(s, p) && CharAt(s, b, '`')
    requires c == WordEnd(s, b + 1) && c != b + 1 && CharAt(s, c, '`')
    requires d == SpaceEnd(s, c + 1) && CharAt(s, d, '-') && RestToEnd(s, d + 1).Some?
    requires g == ReturnGroups(s[b + 1..c], RestToEnd(s, d + 1).value)
    ensures exists b': nat, c': nat, d': nat, e: nat ::
      && ReturnsTailMatch(s, p, b', c', d', e) && MaxTail(s, d' + 1, e)
      && g == ReturnGroups(s[b' + 1..c'], s[e..])
  {
    RestToEndFound(s, d + 1);
    var e := TailStartOf(s, d + 1).value;
    ReturnsTailWitness(s, p, b, c, d, e);
    assert ReturnsTailMatch(s, p, b, c, d, e) && MaxTail(s, d + 1, e);
  }

  /** The positions the greedy runs settle on form a match of the tail. */
  lemma ReturnsTailWitness(s: string, p: nat, b: nat, c: nat, d: nat, e: nat)
    requires p <= |s| && b == SpaceEnd(s, p) && CharAt(s, b, '`')
    requires c == WordEnd(s, b + 1) && c != b + 1 && CharAt(s, c, '`')
    requires d == SpaceEnd(s, c + 1) && CharAt(s, d, '-')
    requires TailStart(s, d + 1, e) && LineRun(s, e, |s|)
    ensures ReturnsTailMatch(s, p, b, c, d, e)
  {
    GreedySpans(s, p);
    GreedySpans(s, b + 1);
    GreedySpans(s, c + 1);
  }

  /** The returns pattern matches the line exactly when `ReturnsBullet`
      succeeds, and `ReturnsBullet` captures the groups of the match whose last
      `\s*` is longest. */
  lemma ReturnsBulletSpec(s: string)
    ensures ReturnsBullet(s).Some? <==> ReturnsBulletMatches(s)
    ensures ReturnsBullet(s).Some? ==>
      exists a: nat, b: nat, c: nat, d: nat, e: nat ::
        && ReturnsBulletMatch(s, a, b, c, d, e) && MaxTail(s, d + 1, e)
        && ReturnsBullet(s).value == ReturnGroups(s[b + 1..c], s[e..])
  {
    if ReturnsBulletMatches(s) {
      var a: nat, b: nat, c: nat, d: nat, e: nat :| ReturnsBulletMatch(s, a, b, c, d, e);
      ReturnsBulletComplete(s, a, b, c, d, e);
    }
    if ReturnsBullet(s).Some? {
      ReturnsBulletFound(s);
    }
  }
}
