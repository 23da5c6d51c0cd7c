/**
 * Result-extraction rules: a TEST_TYPES line compiled into a `TestType`, the
 * reverse scan `grep` that pulls a token out of program output, and the
 * loading of the whole TEST_TYPES manifest.
 */
module TestTypes {
  import opened Wrappers
  import opened Py
  import opened Paths
  import opened Env
  import opened Traversals

  /** A compiled TEST_TYPES line: the rewritten regular expression and the 1-based column to read. */
  datatype TestType = TestType(pattern: string, column: int)

  /** The placeholder rewritten first, and what it becomes. */
  const SpacePlaceholder: string := "[[:space:]]"
  const SpaceClass: string := "\\s"

  /** The characters the constructor escapes, in the order it escapes them. */
  const Specials: string := "|()+"

  predicate IsSpecial(c: char) {
    c == '|' || c == '(' || c == ')' || c == '+'
  }

  // ---------------------------------------------------------------------
  // escaping

  /** `s` with one backslash put before every character that is in `cs`. */
  function EscapeIn(s: string, cs: set<char>): string
  {
    if s == [] then []
    else (if s[0] in cs then ['\\', s[0]] else [s[0]]) + EscapeIn(s[1..], cs)
  }

  /** `s` with a backslash before every `|`, `(`, `)` and `+`. */
  function Escape(s: string): string
  {
    EscapeIn(s, {'|', '(', ')', '+'})
  }

  /** Drops a backslash wherever it stands right before a special character. */
  function Unescape(s: string): string
    decreases |s|
  {
    if s == [] then []
    else if |s| >= 2 && s[0] == '\\' && IsSpecial(s[1]) then [s[1]] + Unescape(s[2..])
    else [s[0]] + Unescape(s[1..])
  }

  lemma {:induction false} EscapeInAppend(a: string, b: string, cs: set<char>)
    ensures EscapeIn(a + b, cs) == EscapeIn(a, cs) + EscapeIn(b, cs)
    decreases |a|
  {
    if a == [] {
      assert a + b == b;
    } else {
      assert (a + b)[0] == a[0];
      assert (a + b)[1..] == a[1..] + b;
      EscapeInAppend(a[1..], b, cs);
    }
  }

  lemma {:induction false} EscapeInNothing(s: string)
    ensures EscapeIn(s, {}) == s
  {
    if s != [] {
      EscapeInNothing(s[1..]);
    }
  }

  /** `s.replace(c, "\\" + c)` escapes exactly the character `c`. */
  lemma {:induction false} ReplaceOneChar(s: string, c: char)
    ensures Replace(s, [c], ['\\', c]) == EscapeIn(s, {c})
  {
    if s != [] {
      ReplaceOneChar(s[1..], c);
      assert s[..1] == [c] <==> s[0] == c;
    }
  }

  /**
   * Escaping one more character after a set of others equals escaping all of
   * them at once: the backslashes already inserted are never escaped again,
   * and no character is escaped twice.
   */
  lemma {:induction false} EscapeInAdd(s: string, cs: set<char>, c: char)
    requires c != '\\' && c !in cs
    ensures EscapeIn(EscapeIn(s, cs), {c}) == EscapeIn(s, cs + {c})
  {
    if s != [] {
      var head := if s[0] in cs then ['\\', s[0]] else [s[0]];
      EscapeInAppend(head, EscapeIn(s[1..], cs), {c});
      EscapeInAdd(s[1..], cs, c);
      if s[0] in cs {
        assert EscapeIn(head, {c}) == head by {
          assert head[1..] == [s[0]];
          assert head[1..][1..] == [];
        }
      } else {
        assert EscapeIn(head, {c}) == if s[0] == c then ['\\', c] else [s[0]] by {
          assert head[1..] == [];
        }
      }
    }
  }

  /** The escaped text is empty or starts with a character that is not special. */
  lemma EscapeHead(s: string)
    ensures Escape(s) == [] || !IsSpecial(Escape(s)[0])
  {
  }

  /** Removing the inserted backslashes gives the text back: nothing else was changed. */
  lemma {:induction false} UnescapeEscape(s: string)
    ensures Unescape(Escape(s)) == s
  {
    if s != [] {
      var rest := Escape(s[1..]);
      UnescapeEscape(s[1..]);
      EscapeHead(s[1..]);
      if IsSpecial(s[0]) {
        assert Escape(s) == ['\\', s[0]] + rest;
        assert Escape(s)[2..] == rest;
      } else {
        assert Escape(s) == [s[0]] + rest;
        assert Escape(s)[1..] == rest;
      }
    }
  }

  /** Every special character of the escaped text directly follows a backslash. */
  lemma {:induction false} EscapeGuardsSpecials(s: string)
    ensures forall i :: 0 <= i < |Escape(s)| && IsSpecial(Escape(s)[i]) ==> 0 < i && Escape(s)[i - 1] == '\\'
  {
    if s != [] {
      EscapeGuardsSpecials(s[1..]);
      EscapeHead(s[1..]);
      var rest := Escape(s[1..]);
      var head := if IsSpecial(s[0]) then ['\\', s[0]] else [s[0]];
      var r := Escape(s);
      assert r == head + rest;
      forall i | 0 <= i < |r| && IsSpecial(r[i]) ensures 0 < i && r[i - 1] == '\\' {
        if i > |head| {
          assert r[i] == rest[i - |head|];
          assert r[i - 1] == rest[i - |head| - 1];
        } else if i == |head| {
          assert false;
        }
      }
    }
  }

  lemma SpecialsFacts()
    ensures |Specials| == 4
    ensures forall j :: 0 <= j < |Specials| ==> Specials[j] != '\\'
    ensures forall j, k :: 0 <= j < k < |Specials| ==> Specials[j] != Specials[k]
    ensures CharsOf(Specials) == {'|', '(', ')', '+'}
  {
    assert Specials[0] == '|' && Specials[1] == '(' && Specials[2] == ')' && Specials[3] == '+';
  }

  /** The characters occurring in `s`. */
  function CharsOf(s: string): set<char>
  {
    set c | c in s
  }

  lemma CharsOfSnoc(s: string, c: char)
    ensures CharsOf(s + [c]) == CharsOf(s) + {c}
  {
    assert forall x :: x in s + [c] <==> x in s || x == c;
  }

  // ---------------------------------------------------------------------
  // TestType(line)

  /**
   * What `TestType(line)` builds or raises: the text before the last `!`
   * with the space placeholder rewritten and the specials escaped must
   * compile, and the text after the last `!` must be an integer.
   */
  function TestTypeOf(line: string, host: Oracles): Result<TestType, Error>
  {
    var (head, tail) := RSplitOnce(line, '!');
    var pattern := Escape(Replace(head, SpacePlaceholder, SpaceClass));
    if !host.compiles(pattern) then Err(BadRegex(pattern))
    else
      match tail
      case None => Err(MissingColumn(line))
      case Some(t) =>
        match ParseInt(t)
        case None => Err(BadInt(t))
        case Some(n) => Ok(TestType(pattern, n))
  }

  /** The constructor of `TestType`: splits at the last `!`, rewrites, escapes character by character. */
  method NewTestType(line: string, host: Oracles) returns (r: Result<TestType, Error>)
    ensures r == TestTypeOf(line, host)
  {
    var parts := RSplitOnce(line, '!');
    var pattern := parts.0;
    pattern := Replace(pattern, SpacePlaceholder, SpaceClass);
    ghost var rewritten := pattern;
    EscapeInNothing(rewritten);
    SpecialsFacts();
    assert CharsOf(Specials[..0]) == {} by {
      assert Specials[..0] == [];
    }
    for i := 0 to |Specials|
      invariant pattern == EscapeIn(rewritten, CharsOf(Specials[..i]))
    {
      var c := Specials[i];
      ghost var done := CharsOf(Specials[..i]);
      assert c !in done by {
        forall x | x in Specials[..i] ensures x != c {
          var j :| 0 <= j < i && Specials[..i][j] == x;
          assert x == Specials[j];
        }
      }
      CharsOfSnoc(Specials[..i], c);
      ReplaceOneChar(pattern, c);
      EscapeInAdd(rewritten, done, c);
      pattern := Replace(pattern, [c], ['\\', c]);
      assert Specials[..i + 1] == Specials[..i] + [c];
    }
    assert Specials[..|Specials|] == Specials;
    if !host.compiles(pattern) {
      return Err(BadRegex(pattern));
    }
    if parts.1.None? {
      return Err(MissingColumn(line));
    }
    var column := ParseInt(parts.1.value);
    if column.None? {
      return Err(BadInt(parts.1.value));
    }
    r := Ok(TestType(pattern, column.value));
  }

  /**
   * The column is the integer after the last `!`, and the pattern is what
   * precedes it, rewritten and escaped; the line fails when that does not compile.
   */
  lemma TestTypeParts(head: string, tail: string, host: Oracles)
    requires '!' !in tail
    ensures var pattern := Escape(Replace(head, SpacePlaceholder, SpaceClass));
      TestTypeOf(head + "!" + tail, host) ==
        if !host.compiles(pattern) then Err(BadRegex(pattern))
        else if ParseInt(tail).None? then Err(BadInt(tail))
        else Ok(TestType(pattern, ParseInt(tail).value))
  {
    assert head + "!" + tail == head + ['!'] + tail;
    RSplitOnceAt(head, '!', tail);
  }

  /** A line without `!` never yields a TestType. */
  lemma TestTypeNeedsBang(line: string, host: Oracles)
    requires '!' !in line
    ensures TestTypeOf(line, host).Err?
  {
  }

  // ---------------------------------------------------------------------
  // grep

  /** What `grep` returns: a token, None, or the IndexError of a short matching line. */
  datatype Extraction = Found(token: string) | NoMatch | ColumnOutOfRange

  /**
   * `line.split()[column - 1]`, with Python's indexing: a matching line
   * yields one whitespace-free token, or raises when the column is out of
   * range, but never counts as no match.
   */
  function TokenAt(line: string, column: int): (e: Extraction)
    ensures e != NoMatch
    ensures e.Found? ==> e.token != [] && NoSpace(e.token)
    ensures e.Found? <==> -|SplitWs(line)| <= column - 1 < |SplitWs(line)|
  {
    match PyIndex(SplitWs(line), column - 1)
    case Some(tok) => Found(tok)
    case None => ColumnOutOfRange
  }

  /** The loop of `grep` over `reversed(lines)`: the first match from the end decides. */
  function ScanBack(t: TestType, host: Oracles, lines: seq<string>): (e: Extraction)
    ensures e.Found? ==> e.token != [] && NoSpace(e.token)
    ensures lines == [] ==> e == NoMatch
  {
    if lines == [] then NoMatch
    else
      var last := lines[|lines| - 1];
      if host.search(t.pattern, last) then TokenAt(last, t.column)
      else ScanBack(t, host, lines[..|lines| - 1])
  }

  /**
   * `TestType.grep(output)`: what it extracts is a single whitespace-free
   * token; GrepLastMatch, GrepNoMatch and GrepShadows say which one.
   */
  function Grep(t: TestType, host: Oracles, output: string): (e: Extraction)
    ensures e.Found? ==> e.token != [] && NoSpace(e.token)
  {
    ScanBack(t, host, Split(output, '\n'))
  }

  /** The scan yields the token of the last matching line, whatever precedes it. */
  lemma {:induction false} ScanBackLastMatch(t: TestType, host: Oracles, lines: seq<string>, i: nat)
    requires i < |lines| && host.search(t.pattern, lines[i])
    requires forall j :: i < j < |lines| ==> !host.search(t.pattern, lines[j])
    ensures ScanBack(t, host, lines) == TokenAt(lines[i], t.column)
    decreases |lines|
  {
    if i < |lines| - 1 {
      ScanBackLastMatch(t, host, lines[..|lines| - 1], i);
    }
  }

  /** The scan finds nothing exactly when no line matches. */
  lemma {:induction false} ScanBackNoMatch(t: TestType, host: Oracles, lines: seq<string>)
    ensures ScanBack(t, host, lines) == NoMatch <==> forall j :: 0 <= j < |lines| ==> !host.search(t.pattern, lines[j])
    decreases |lines|
  {
    if lines != [] {
      var init := lines[..|lines| - 1];
      ScanBackNoMatch(t, host, init);
      assert forall j :: 0 <= j < |init| ==> init[j] == lines[j];
    }
  }

  /** Lines appended after the scanned ones shadow them as soon as one of them matches. */
  lemma {:induction false} ScanBackAppend(t: TestType, host: Oracles, xs: seq<string>, ys: seq<string>)
    ensures ScanBack(t, host, xs + ys) ==
      if ScanBack(t, host, ys) == NoMatch then ScanBack(t, host, xs) else ScanBack(t, host, ys)
    decreases |ys|
  {
    if ys == [] {
      assert xs + ys == xs;
    } else {
      var zs := xs + ys;
      assert zs[|zs| - 1] == ys[|ys| - 1];
      assert zs[..|zs| - 1] == xs + ys[..|ys| - 1];
      ScanBackAppend(t, host, xs, ys[..|ys| - 1]);
    }
  }

  /**
   * `grep` returns the token of the last line of the output that matches, at
   * the column the rule names (Python indexing of `line.split()`).
   */
  lemma GrepLastMatch(t: TestType, host: Oracles, output: string, i: nat)
    requires i < |Split(output, '\n')|
    requires host.search(t.pattern, Split(output, '\n')[i])
    requires forall j :: i < j < |Split(output, '\n')| ==> !host.search(t.pattern, Split(output, '\n')[j])
    ensures Grep(t, host, output) == TokenAt(Split(output, '\n')[i], t.column)
  {
    ScanBackLastMatch(t, host, Split(output, '\n'), i);
  }

  /** `grep` returns None exactly when no line of the output matches. */
  lemma GrepNoMatch(t: TestType, host: Oracles, output: string)
    ensures Grep(t, host, output) == NoMatch <==>
      forall j :: 0 <= j < |Split(output, '\n')| ==> !host.search(t.pattern, Split(output, '\n')[j])
  {
    assert Grep(t, host, output) == ScanBack(t, host, Split(output, '\n'));
    ScanBackNoMatch(t, host, Split(output, '\n'));
  }

  /**
   * Output is searched from its end: when the later part has a matching line
   * it alone decides, otherwise the earlier part does.
   */
  lemma GrepShadows(t: TestType, host: Oracles, earlier: string, later: string)
    ensures Grep(t, host, earlier + "\n" + later) ==
      if Grep(t, host, later) == NoMatch then Grep(t, host, earlier) else Grep(t, host, later)
  {
    assert earlier + "\n" + later == earlier + ['\n'] + later;
    SplitAppend(earlier, '\n', later);
    ScanBackAppend(t, host, Split(earlier, '\n'), Split(later, '\n'));
  }

  /**
   * A rule `pattern!c` with `c >= 1`, run on output whose last matching
   * line consists of the given tokens, extracts exactly the `c`-th token.
   */
  lemma ExtractsColumnToken(head: string, c: int, host: Oracles, earlier: string, tokens: seq<string>)
    requires 1 <= c <= |tokens|
    requires forall i :: 0 <= i < |tokens| ==> tokens[i] != [] && NoSpace(tokens[i])
    requires host.compiles(Escape(Replace(head, SpacePlaceholder, SpaceClass)))
    requires host.search(Escape(Replace(head, SpacePlaceholder, SpaceClass)), JoinWs(tokens))
    ensures TestTypeOf(head + "!" + ShowInt(c), host) == Ok(TestType(Escape(Replace(head, SpacePlaceholder, SpaceClass)), c))
    ensures Grep(TestTypeOf(head + "!" + ShowInt(c), host).value, host, earlier + "\n" + JoinWs(tokens)) == Found(tokens[c - 1])
  {
    var pattern := Escape(Replace(head, SpacePlaceholder, SpaceClass));
    ParseShowInt(c);
    assert '!' !in ShowInt(c) by {
      var s := ShowInt(c);
      assert IsDecimal(s);
      forall k | 0 <= k < |s| ensures s[k] != '!' { assert IsDigit(s[k]); }
    }
    TestTypeParts(head, ShowInt(c), host);
    var t := TestType(pattern, c);
    var line := JoinWs(tokens);
    SplitWsJoinWs(tokens);
    assert '\n' !in line by {
      assert NoNewline(tokens);
      JoinWsNoNewline(tokens);
    }
    SplitWithoutSeparator(line, '\n');
    GrepShadows(t, host, earlier, line);
  }

  predicate NoNewline(tokens: seq<string>) {
    forall i :: 0 <= i < |tokens| ==> '\n' !in tokens[i]
  }

  lemma {:induction false} JoinWsNoNewline(tokens: seq<string>)
    requires NoNewline(tokens)
    ensures '\n' !in JoinWs(tokens)
    decreases |tokens|
  {
    if |tokens| > 1 {
      JoinWsNoNewline(tokens[1..]);
    }
  }

  // ---------------------------------------------------------------------
  // list_test_types

  /** `lines[1 : int(lines[0]) + 1]` of a TEST_TYPES text, or the ValueError of a bad count. */
  function PatternLines(text: string): Result<seq<string>, Error>
  {
    var lines := Split(text, '\n');
    match ParseInt(lines[0])
    case None => Err(BadInt(lines[0]))
    case Some(count) => Ok(PySlice(lines, 1, count + 1))
  }

  /** One TEST_TYPES line as a step of the compiling walk: every line yields a rule or raises. */
  function CompileStep(line: string, host: Oracles): Result<Option<TestType>, Error>
  {
    match TestTypeOf(line, host)
    case Ok(t) => Ok(Some(t))
    case Err(e) => Err(e)
  }

  /** Compiling lines in order; the first line that raises ends the list. */
  function CompileAll(ls: seq<string>, host: Oracles): Result<seq<TestType>, Error>
  {
    Traverse(ls, host, CompileStep)
  }

  function TestTypesPath(root: string): Path
  {
    PathOf(root + "/tests/TEST_TYPES")
  }

  /** What `list_test_types(root)` returns or raises. */
  function TestTypesOf(fs: map<Path, string>, root: string, host: Oracles): Result<seq<TestType>, Error>
  {
    var p := TestTypesPath(root);
    if p !in fs then Err(Unreadable(p))
    else
      match PatternLines(fs[p])
      case Err(e) => Err(e)
      case Ok(ls) => CompileAll(ls, host)
  }

  /** `list_test_types`: reads TEST_TYPES and compiles the counted lines in file order. */
  method ListTestTypes(fs: map<Path, string>, root: string, host: Oracles) returns (r: Result<seq<TestType>, Error>)
    ensures r == TestTypesOf(fs, root, host)
  {
    var p := TestTypesPath(root);
    if p !in fs {
      return Err(Unreadable(p));
    }
    var lines := Split(fs[p], '\n');
    var count := ParseInt(lines[0]);
    if count.None? {
      return Err(BadInt(lines[0]));
    }
    var selected := PySlice(lines, 1, count.value + 1);
    var testType: seq<TestType> := [];
    for i := 0 to |selected|
      invariant CompileAll(selected[..i], host) == Ok(testType)
    {
      TraverseStep(selected, i, host, CompileStep);
      var ll := NewTestType(selected[i], host);
      if ll.Err? {
        TraverseErrPrefix(selected, i + 1, host, CompileStep);
        return Err(ll.error);
      }
      testType := testType + [ll.value];
    }
    TraverseWhole(selected, host, CompileStep);
    r := Ok(testType);
  }

  /** The list is produced exactly when every line compiles. */
  lemma CompileAllSucceeds(ls: seq<string>, host: Oracles)
    ensures CompileAll(ls, host).Ok? <==> forall i :: 0 <= i < |ls| ==> TestTypeOf(ls[i], host).Ok?
  {
    TraverseSucceeds(ls, host, CompileStep);
  }

  /** The list holds one rule per line, compiled from that line, in file order. */
  lemma CompileAllInOrder(ls: seq<string>, host: Oracles, ts: seq<TestType>)
    requires CompileAll(ls, host) == Ok(ts)
    ensures |ts| == |ls|
    ensures forall i :: 0 <= i < |ls| ==> TestTypeOf(ls[i], host) == Ok(ts[i])
  {
    TraverseSucceeds(ls, host, CompileStep);
    KeptAll(ls, host, CompileStep);
    TraverseKept(ls, host, CompileStep, ts);
  }

  /**
   * With a count `K >= 0` on the first line, the rules come from the next
   * `K` lines; a shorter file selects fewer lines. When the file ends in a
   * newline and the count reaches its empty last line, loading raises
   * instead (TrailingNewlineRaises).
   */
  lemma PatternLinesCount(text: string, count: int)
    requires ParseInt(Split(text, '\n')[0]) == Some(count) && count >= 0
    ensures var lines := Split(text, '\n');
      var n := if count + 1 <= |lines| then count else |lines| - 1;
      PatternLines(text) == Ok(lines[1..n + 1]) && |PatternLines(text).value| == n
  {
  }

  /**
   * A TEST_TYPES file that ends in a newline splits into lines whose last
   * one is empty. When its count reaches past the rule lines, the slice
   * takes that empty line, which has no `!`, and loading raises.
   */
  lemma {:induction false} TrailingNewlineRaises(fs: map<Path, string>, root: string, host: Oracles, count: int)
    requires TestTypesPath(root) in fs
    requires var text := fs[TestTypesPath(root)]; text != [] && text[|text| - 1] == '\n'
    requires ParseInt(Split(fs[TestTypesPath(root)], '\n')[0]) == Some(count)
    requires count >= |Split(fs[TestTypesPath(root)], '\n')| - 1
    ensures TestTypesOf(fs, root, host).Err?
  {
    var text := fs[TestTypesPath(root)];
    var lines := Split(text, '\n');
    assert text == text[..|text| - 1] + ['\n'];
    SplitSnoc(text[..|text| - 1], '\n', '\n');
    assert lines[|lines| - 1] == [] && |lines| >= 2;
    PatternLinesCount(text, count);
    var ls := lines[1..];
    var n := if count + 1 <= |lines| then count else |lines| - 1;
    assert n == |lines| - 1;
    assert lines[1..n + 1] == ls;
    assert ls[|ls| - 1] == [];
    TestTypeNeedsBang([], host);
    CompileAllSucceeds(ls, host);
  }
}
