/**
 * The Python built-ins the regression driver relies on (string methods,
 * `int()`, list indexing and slicing), written out so that their edge cases
 * (empty pieces, whitespace runs, a missing separator, negative indices) are
 * those of CPython.
 */
module Py {
  import opened Wrappers

  // ---------------------------------------------------------------------
  // list indexing and slicing

  /** `xs[i]`: a negative index counts from the end; out of range raises IndexError (None here). */
  function PyIndex<T>(xs: seq<T>, i: int): Option<T>
  {
    if 0 <= i < |xs| then Some(xs[i])
    else if -|xs| <= i < 0 then Some(xs[|xs| + i])
    else None
  }

  /** A slice bound after Python's normalisation: negative counts from the end, then clamped to `[0, n]`. */
  function SliceBound(i: int, n: nat): (b: nat)
    ensures b <= n
  {
    var j := if i < 0 then i + n else i;
    if j < 0 then 0 else if j > n then n else j
  }

  /** `xs[start:stop]`. */
  function PySlice<T>(xs: seq<T>, start: int, stop: int): seq<T>
  {
    var lo, hi := SliceBound(start, |xs|), SliceBound(stop, |xs|);
    if lo < hi then xs[lo..hi] else []
  }

  /** `c.isspace()` in Python: the ASCII controls 9-13 and 28-31, space, and the Unicode spaces. */
  predicate IsSpace(c: char) {
    || c == ' '
    || ('\t' <= c <= '\r')
    || ('\U{1C}' <= c <= '\U{1F}')
    || c == '\U{85}' || c == '\U{A0}' || c == '\U{1680}'
    || ('\U{2000}' <= c <= '\U{200A}')
    || c == '\U{2028}' || c == '\U{2029}' || c == '\U{202F}' || c == '\U{205F}' || c == '\U{3000}'
  }

  predicate NoSpace(s: string) {
    forall i :: 0 <= i < |s| ==> !IsSpace(s[i])
  }

  predicate AllSpace(s: string) {
    forall i :: 0 <= i < |s| ==> IsSpace(s[i])
  }

  // ---------------------------------------------------------------------
  // s.split(sep) for a one-character separator

  /** `sep.join(parts)`. */
  function Join(parts: seq<string>, sep: char): string
  {
    if |parts| == 0 then []
    else if |parts| == 1 then parts[0]
    else Join(parts[..|parts| - 1], sep) + [sep] + parts[|parts| - 1]
  }

  /**
   * `s.split(sep)`: the pieces between separators, never an empty list (an
   * empty string gives one empty piece), and no piece holds the separator.
   * JoinSplit and SplitJoin show it is the inverse of `sep.join`.
   */
  function Split(s: string, sep: char): (parts: seq<string>)
    ensures |parts| >= 1
    ensures forall i :: 0 <= i < |parts| ==> sep !in parts[i]
  {
    if s == [] then [[]]
    else
      var init := Split(s[..|s| - 1], sep);
      var c := s[|s| - 1];
      if c == sep then init + [[]]
      else init[..|init| - 1] + [init[|init| - 1] + [c]]
  }

  /** Joining the pieces of `s.split(sep)` gives `s` back. */
  lemma {:induction false} JoinSplit(s: string, sep: char)
    ensures Join(Split(s, sep), sep) == s
    decreases |s|
  {
    if s != [] {
      var s', c := s[..|s| - 1], s[|s| - 1];
      JoinSplit(s', sep);
      assert s == s' + [c];
      var init := Split(s', sep);
      if c == sep {
        var parts := init + [[]];
        assert parts[..|parts| - 1] == init;
      } else {
        var parts := init[..|init| - 1] + [init[|init| - 1] + [c]];
        if |init| > 1 {
          assert parts[..|parts| - 1] == init[..|init| - 1];
          assert Join(init, sep) == Join(init[..|init| - 1], sep) + [sep] + init[|init| - 1];
        }
      }
    }
  }

  /** A string without the separator is one piece. */
  lemma {:induction false} SplitWithoutSeparator(s: string, sep: char)
    requires sep !in s
    ensures Split(s, sep) == [s]
    decreases |s|
  {
    if s != [] {
      var s' := s[..|s| - 1];
      assert sep !in s' by {
        forall k | 0 <= k < |s'| ensures s'[k] != sep { assert s'[k] == s[k]; }
      }
      SplitWithoutSeparator(s', sep);
      assert s == s' + [s[|s| - 1]];
    }
  }

  /** How one more character extends the pieces: a separator opens a new piece, anything else grows the last one. */
  lemma SplitSnoc(s: string, sep: char, c: char)
    ensures Split(s + [c], sep) ==
      var p := Split(s, sep);
      if c == sep then p + [[]] else p[..|p| - 1] + [p[|p| - 1] + [c]]
  {
    var t := s + [c];
    assert t[..|t| - 1] == s;
    assert t[|t| - 1] == c;
  }

  lemma LastExtended(ab: seq<string>, pa: seq<string>, pb: seq<string>, w: string)
    requires ab == pa + pb && |pb| >= 1
    ensures ab[..|ab| - 1] + [ab[|ab| - 1] + w] == pa + (pb[..|pb| - 1] + [pb[|pb| - 1] + w])
  {
  }

  /** Appending the same character to two strings whose pieces share a tail keeps it shared. */
  lemma SplitSnocBoth(x: string, pa: seq<string>, y: string, sep: char, c: char)
    requires Split(x, sep) == pa + Split(y, sep)
    ensures Split(x + [c], sep) == pa + Split(y + [c], sep)
  {
    if c == sep {
      SplitSnocSep(x, pa, y, sep);
    } else {
      SplitSnocOther(x, pa, y, sep, c);
    }
  }

  lemma SplitSnocSep(x: string, pa: seq<string>, y: string, sep: char)
    requires Split(x, sep) == pa + Split(y, sep)
    ensures Split(x + [sep], sep) == pa + Split(y + [sep], sep)
  {
    var px, py := Split(x, sep), Split(y, sep);
    var l, r := Split(x + [sep], sep), Split(y + [sep], sep);
    SplitSnoc(x, sep, sep);
    assert l == px + [[]];
    SplitSnoc(y, sep, sep);
    assert r == py + [[]];
  }

  lemma SplitSnocOther(x: string, pa: seq<string>, y: string, sep: char, c: char)
    requires Split(x, sep) == pa + Split(y, sep)
    requires c != sep
    ensures Split(x + [c], sep) == pa + Split(y + [c], sep)
  {
    var px, py := Split(x, sep), Split(y, sep);
    var l, r := Split(x + [c], sep), Split(y + [c], sep);
    SplitSnoc(x, sep, c);
    assert l == px[..|px| - 1] + [px[|px| - 1] + [c]];
    SplitSnoc(y, sep, c);
    assert r == py[..|py| - 1] + [py[|py| - 1] + [c]];
    LastExtended(px, pa, py, [c]);
  }

  /** Splitting a string at a separator occurrence splits the pieces there. */
  lemma {:induction false} SplitAppend(a: string, sep: char, b: string)
    ensures Split(a + [sep] + b, sep) == Split(a, sep) + Split(b, sep)
    decreases |b|
  {
    if b == [] {
      SplitSnoc(a, sep, sep);
      assert a + [sep] + b == a + [sep];
    } else {
      var b', c := b[..|b| - 1], b[|b| - 1];
      SplitAppend(a, sep, b');
      assert b == b' + [c];
      assert a + [sep] + b == (a + [sep] + b') + [c];
      SplitSnocBoth(a + [sep] + b', Split(a, sep), b', sep, c);
    }
  }

  /** `s.split(sep)` undoes `sep.join(parts)` when no part holds the separator. */
  lemma {:induction false} SplitJoin(parts: seq<string>, sep: char)
    requires |parts| >= 1
    requires forall i :: 0 <= i < |parts| ==> sep !in parts[i]
    ensures Split(Join(parts, sep), sep) == parts
    decreases |parts|
  {
    if |parts| == 1 {
      SplitWithoutSeparator(parts[0], sep);
    } else {
      var init := parts[..|parts| - 1];
      SplitJoin(init, sep);
      SplitWithoutSeparator(parts[|parts| - 1], sep);
      SplitAppend(Join(init, sep), sep, parts[|parts| - 1]);
      assert parts == init + [parts[|parts| - 1]];
    }
  }

  // ---------------------------------------------------------------------
  // s.split() with no argument

  /** Length of the leading run of non-whitespace characters of `s`. */
  function WordLength(s: string): (k: nat)
    ensures k <= |s|
    ensures NoSpace(s[..k])
    ensures k < |s| ==> IsSpace(s[k])
  {
    if s == [] || IsSpace(s[0]) then 0
    else
      var k := 1 + WordLength(s[1..]);
      assert s[..k] == [s[0]] + s[1..][..k - 1];
      k
  }

  /**
   * `s.split()`: the maximal runs of non-whitespace characters, in order;
   * every token is non-empty and holds no whitespace.
   */
  function SplitWs(s: string): (tokens: seq<string>)
    ensures forall i :: 0 <= i < |tokens| ==> tokens[i] != [] && NoSpace(tokens[i])
    ensures s != [] && !IsSpace(s[0]) ==> tokens != [] && tokens[0] == s[..WordLength(s)]
    decreases |s|
  {
    if s == [] then []
    else if IsSpace(s[0]) then SplitWs(s[1..])
    else
      var k := WordLength(s);
      [s[..k]] + SplitWs(s[k..])
  }

  /** `" ".join(tokens)`. */
  function JoinWs(tokens: seq<string>): string
  {
    if tokens == [] then []
    else if |tokens| == 1 then tokens[0]
    else tokens[0] + " " + JoinWs(tokens[1..])
  }

  /** Leading whitespace is skipped by `split()`. */
  lemma {:induction false} SplitWsSkipsSpace(w: string, s: string)
    requires AllSpace(w)
    ensures SplitWs(w + s) == SplitWs(s)
    decreases |w|
  {
    if w != [] {
      assert (w + s)[0] == w[0];
      assert (w + s)[1..] == w[1..] + s;
      assert SplitWs(w + s) == SplitWs((w + s)[1..]);
      SplitWsSkipsSpace(w[1..], s);
    } else {
      assert w + s == s;
    }
  }

  /** A word followed by whitespace or the end is the first token. */
  lemma SplitWsWord(w: string, rest: string)
    requires w != [] && NoSpace(w)
    requires rest == [] || IsSpace(rest[0])
    ensures SplitWs(w + rest) == [w] + SplitWs(rest)
  {
    var s := w + rest;
    WordLengthOfWord(w, rest);
    assert s[..|w|] == w && s[|w|..] == rest;
  }

  lemma {:induction false} WordLengthOfWord(w: string, rest: string)
    requires NoSpace(w)
    requires rest == [] || IsSpace(rest[0])
    ensures WordLength(w + rest) == |w|
    decreases |w|
  {
    if w != [] {
      assert (w + rest)[1..] == w[1..] + rest;
      WordLengthOfWord(w[1..], rest);
    }
  }

  /** `s.split()` undoes `" ".join(tokens)` for non-empty tokens without whitespace. */
  lemma {:induction false} SplitWsJoinWs(tokens: seq<string>)
    requires forall i :: 0 <= i < |tokens| ==> tokens[i] != [] && NoSpace(tokens[i])
    ensures SplitWs(JoinWs(tokens)) == tokens
    decreases |tokens|
  {
    if |tokens| == 1 {
      SplitWsWord(tokens[0], []);
      assert tokens[0] + [] == tokens[0];
    } else if |tokens| > 1 {
      var rest := JoinWs(tokens[1..]);
      SplitWsJoinWs(tokens[1..]);
      SplitWsWord(tokens[0], " " + rest);
      SplitWsSkipsSpace(" ", rest);
      assert tokens[0] + " " + rest == tokens[0] + (" " + rest);
      assert tokens == [tokens[0]] + tokens[1..];
    }
  }

  // ---------------------------------------------------------------------
  // s.strip()

  /** Index of the first non-whitespace character of `s`, or `|s|`. */
  function LeadingSpace(s: string): (i: nat)
    ensures i <= |s|
  {
    if s == [] || !IsSpace(s[0]) then 0
    else 1 + LeadingSpace(s[1..])
  }

  /** One past the last non-whitespace character of `s`, or 0. */
  function TrailingEnd(s: string): (j: nat)
    ensures j <= |s|
  {
    if s == [] || !IsSpace(s[|s| - 1]) then |s|
    else TrailingEnd(s[..|s| - 1])
  }

  /** Everything before `LeadingSpace(s)` is whitespace, and the character there is not. */
  lemma {:induction false} LeadingSpaceSpec(s: string)
    ensures forall k :: 0 <= k < LeadingSpace(s) ==> IsSpace(s[k])
    ensures LeadingSpace(s) < |s| ==> !IsSpace(s[LeadingSpace(s)])
  {
    if s != [] && IsSpace(s[0]) {
      LeadingSpaceSpec(s[1..]);
      assert forall k :: 1 <= k < |s| ==> s[k] == s[1..][k - 1];
    }
  }

  /** Everything from `TrailingEnd(s)` on is whitespace, and the character before it is not. */
  lemma {:induction false} TrailingEndSpec(s: string)
    ensures forall k :: TrailingEnd(s) <= k < |s| ==> IsSpace(s[k])
    ensures TrailingEnd(s) > 0 ==> !IsSpace(s[TrailingEnd(s) - 1])
  {
    if s != [] && IsSpace(s[|s| - 1]) {
      TrailingEndSpec(s[..|s| - 1]);
    }
  }

  /** `s.strip()`: the text between the leading and the trailing whitespace. */
  function Strip(s: string): (r: string)
    ensures |r| <= |s|
  {
    var i := LeadingSpace(s);
    var j := TrailingEnd(s);
    if i < j then s[i..j] else []
  }

  /**
   * The strip is empty exactly when `s` is all whitespace; otherwise it is a
   * piece of `s` that starts and ends with a non-whitespace character and
   * only whitespace surrounds it.
   */
  lemma StripSpec(s: string)
    ensures Strip(s) == [] <==> AllSpace(s)
    ensures Strip(s) != [] ==> !IsSpace(Strip(s)[0]) && !IsSpace(Strip(s)[|Strip(s)| - 1])
    ensures Strip(s) != [] ==>
      var i := LeadingSpace(s);
      i < TrailingEnd(s) && Strip(s) == s[i..TrailingEnd(s)] && AllSpace(s[..i]) && AllSpace(s[TrailingEnd(s)..])
  {
    if LeadingSpace(s) < TrailingEnd(s) {
      StripInner(s);
    } else {
      StripAllSpace(s);
    }
  }

  /** When some character is not whitespace, the strip is the span between the whitespace at both ends. */
  lemma StripInner(s: string)
    requires LeadingSpace(s) < TrailingEnd(s)
    ensures !AllSpace(s)
    ensures var i, j := LeadingSpace(s), TrailingEnd(s);
      Strip(s) == s[i..j] && Strip(s) != [] &&
      !IsSpace(Strip(s)[0]) && !IsSpace(Strip(s)[|Strip(s)| - 1]) && AllSpace(s[..i]) && AllSpace(s[j..])
  {
    var i := LeadingSpace(s);
    var j := TrailingEnd(s);
    LeadingSpaceSpec(s);
    TrailingEndSpec(s);
    assert Strip(s)[0] == s[i];
    assert Strip(s)[j - i - 1] == s[j - 1];
    LeadingIsSpace(s);
    TrailingIsSpace(s);
  }

  /** The text before `LeadingSpace(s)` is whitespace. */
  lemma LeadingIsSpace(s: string)
    ensures AllSpace(s[..LeadingSpace(s)])
  {
    var i := LeadingSpace(s);
    LeadingSpaceSpec(s);
    forall k | 0 <= k < i ensures IsSpace(s[..i][k]) {
      assert s[..i][k] == s[k];
    }
  }

  /** The text from `TrailingEnd(s)` on is whitespace. */
  lemma TrailingIsSpace(s: string)
    ensures AllSpace(s[TrailingEnd(s)..])
  {
    var j := TrailingEnd(s);
    TrailingEndSpec(s);
    forall k | 0 <= k < |s| - j ensures IsSpace(s[j..][k]) {
      assert s[j..][k] == s[j + k];
    }
  }

  /** When the leading whitespace reaches the trailing whitespace, the text is all whitespace. */
  lemma StripAllSpace(s: string)
    requires LeadingSpace(s) >= TrailingEnd(s)
    ensures Strip(s) == [] && AllSpace(s)
  {
    LeadingSpaceSpec(s);
    TrailingEndSpec(s);
    assert LeadingSpace(s) == |s|;
  }

  /** Text without whitespace is its own strip. */
  lemma StripNoSpace(s: string)
    requires NoSpace(s)
    ensures Strip(s) == s
  {
    if s != [] {
      assert LeadingSpace(s) == 0;
      assert TrailingEnd(s) == |s|;
    }
  }

  // ---------------------------------------------------------------------
  // s.split(c, 1)[0] and s.rsplit(c, 1)

  /** `s.split(c, 1)[0]`: the text before the first `c`, all of `s` when `c` does not occur. */
  function BeforeFirst(s: string, c: char): (r: string)
    ensures c !in r
    ensures |r| <= |s| && r == s[..|r|]
    ensures |r| < |s| ==> s[|r|] == c
  {
    if s == [] || s[0] == c then []
    else
      var r := [s[0]] + BeforeFirst(s[1..], c);
      assert r == s[..|r|];
      r
  }

  /**
   * `s.rsplit(c, 1)`: the text before the last `c` and, only when `c`
   * occurs, the text after it, which then holds no `c`.
   */
  function RSplitOnce(s: string, c: char): (r: (string, Option<string>))
    ensures r.1.None? <==> c !in s
    ensures r.1.None? ==> r.0 == s
  {
    if s == [] then ([], None)
    else
      var init := s[..|s| - 1];
      var last := s[|s| - 1];
      assert s == init + [last];
      if last == c then (init, Some([]))
      else
        var (head, tail) := RSplitOnce(init, c);
        match tail
        case None => (s, None)
        case Some(t) => (head, Some(t + [last]))
  }

  /** When `c` occurs, the two parts put back around it give the text, and the second holds no `c`. */
  lemma {:induction false} RSplitOnceJoin(s: string, c: char)
    requires c in s
    ensures var r := RSplitOnce(s, c); r.0 + [c] + r.1.value == s && c !in r.1.value
    decreases |s|
  {
    var init := s[..|s| - 1];
    var last := s[|s| - 1];
    assert s == init + [last];
    if last != c {
      assert c in init;
      RSplitOnceJoin(init, c);
      var r := RSplitOnce(init, c);
      assert r.0 + [c] + (r.1.value + [last]) == (r.0 + [c] + r.1.value) + [last];
    }
  }

  /** The part after the last separator is the text after a given separator that is not followed by another. */
  lemma {:induction false} RSplitOnceAt(head: string, c: char, tail: string)
    requires c !in tail
    ensures RSplitOnce(head + [c] + tail, c) == (head, Some(tail))
    decreases |tail|
  {
    var s := head + [c] + tail;
    if tail == [] {
      assert s[..|s| - 1] == head;
    } else {
      var t' := tail[..|tail| - 1];
      assert c !in t' by {
        forall k | 0 <= k < |t'| ensures t'[k] != c { assert t'[k] == tail[k]; }
      }
      RSplitOnceAt(head, c, t');
      var last := tail[|tail| - 1];
      assert s == (head + [c] + t') + [last];
      assert s[..|s| - 1] == head + [c] + t' && s[|s| - 1] == last;
      assert last != c;
      assert tail == t' + [last];
    }
  }

  // ---------------------------------------------------------------------
  // substring search and s.replace(old, new)

  predicate OccursAt(pat: string, s: string, i: int) {
    0 <= i && i + |pat| <= |s| && s[i..i + |pat|] == pat
  }

  /** `pat in s`. */
  predicate Occurs(pat: string, s: string) {
    exists i :: 0 <= i <= |s| - |pat| && OccursAt(pat, s, i)
  }

  /**
   * `s.replace(pat, rep)`: scanning left to right, every occurrence of `pat`
   * that does not overlap an earlier replaced one becomes `rep`.
   */
  function Replace(s: string, pat: string, rep: string): string
    requires pat != []
    decreases |s|
  {
    if |s| < |pat| then s
    else if s[..|pat|] == pat then rep + Replace(s[|pat|..], pat, rep)
    else [s[0]] + Replace(s[1..], pat, rep)
  }

  // ---------------------------------------------------------------------
  // int(s)

  predicate IsDigit(c: char) {
    48 <= c as int <= 57
  }

  /** A non-empty run of ASCII digits. */
  predicate IsDecimal(s: string) {
    |s| > 0 && forall i :: 0 <= i < |s| ==> IsDigit(s[i])
  }

  /** The value of a non-empty run of ASCII digits, most significant first; None for anything else. */
  function Decimal(s: string): Option<nat>
  {
    if s == [] || !IsDigit(s[|s| - 1]) then None
    else
      var d := s[|s| - 1] as int - 48;
      if |s| == 1 then Some(d)
      else
        match Decimal(s[..|s| - 1])
        case None => None
        case Some(v) => Some(10 * v + d)
  }

  /** `Decimal` accepts exactly the non-empty runs of digits. */
  lemma {:induction false} DecimalAccepts(s: string)
    ensures Decimal(s).Some? <==> IsDecimal(s)
  {
    if |s| > 1 {
      var init := s[..|s| - 1];
      DecimalAccepts(init);
      assert forall i :: 0 <= i < |init| ==> init[i] == s[i];
    }
  }

  /**
   * The information separators U+001C to U+001F: `str.strip()` removes them,
   * but `int()` skips only the other whitespace, so it rejects any text that
   * holds one (none of them is a sign or a digit).
   */
  predicate HasSeparator(s: string) {
    '\U{1C}' in s || '\U{1D}' in s || '\U{1E}' in s || '\U{1F}' in s
  }

  /**
   * `int(s)` for a string: surrounding whitespace is ignored, then an optional
   * sign and one or more ASCII digits; anything else raises (None here).
   */
  function ParseInt(s: string): Option<int>
  {
    if HasSeparator(s) then None
    else
      var t := Strip(s);
      if t != [] && (t[0] == '+' || t[0] == '-') then
        match Decimal(t[1..])
        case None => None
        case Some(v) => Some(if t[0] == '-' then -(v as int) else v)
      else
        match Decimal(t)
        case None => None
        case Some(v) => Some(v)
  }

  /** The decimal digits of `n`, most significant first. */
  function ShowNat(n: nat): (s: string)
    ensures IsDecimal(s)
  {
    var d := [(48 + n % 10) as char];
    if n < 10 then d else ShowNat(n / 10) + d
  }

  /** `str(n)` for an integer. */
  function ShowInt(n: int): string
  {
    if n < 0 then "-" + ShowNat(-n) else ShowNat(n)
  }

  lemma {:induction false} DecimalShowNat(n: nat)
    ensures Decimal(ShowNat(n)) == Some(n)
  {
    if n >= 10 {
      DecimalShowNat(n / 10);
      var s := ShowNat(n);
      assert s[..|s| - 1] == ShowNat(n / 10);
    }
  }

  /** `int(str(n)) == n`. */
  lemma ParseShowInt(n: int)
    ensures ParseInt(ShowInt(n)) == Some(n)
  {
    var s := ShowInt(n);
    assert forall k :: 0 <= k < |s| ==> s[k] == '-' || IsDigit(s[k]);
    assert !HasSeparator(s);
    assert NoSpace(s);
    StripNoSpace(s);
    if n < 0 {
      DecimalShowNat(-n);
      assert s[1..] == ShowNat(-n);
    } else {
      DecimalShowNat(n);
    }
  }
}
