/**
  The JavaScript string primitives the locals transformer is built from:
  `trim`, `startsWith`, `endsWith`, `indexOf`, `includes`, `split`, `join`
  and the character classes `\s` and `\w` of its regular expressions.
  A JavaScript string is a sequence of UTF-16 code units; every pattern and
  every white-space character involved lies in the Basic Multilingual Plane,
  so modelling strings as sequences of characters changes no result.
*/
module JsStrings {
  import opened Wrappers

  /** The white space of `String.prototype.trim` and of the regex class `\s`:
      ECMAScript's WhiteSpace and LineTerminator code points. */
  predicate IsSpace(c: char) {
    var n := c as int;
    (0x09 <= n <= 0x0D) || n == 0x20 || n == 0xA0 || n == 0x1680
    || (0x2000 <= n <= 0x200A) || n == 0x2028 || n == 0x2029
    || n == 0x202F || n == 0x205F || n == 0x3000 || n == 0xFEFF
  }

  /** The regex class `\w`. */
  predicate IsWordChar(c: char) {
    ('A' <= c <= 'Z') || ('a' <= c <= 'z') || ('0' <= c <= '9') || c == '_'
  }

  /** The regex class `[A-Za-z_]`. */
  predicate IsIdentStart(c: char) {
    ('A' <= c <= 'Z') || ('a' <= c <= 'z') || c == '_'
  }

  /** A string matching `[A-Za-z_]\w*` as a whole. */
  predicate IsIdentifier(s: string) {
    |s| > 0 && IsIdentStart(s[0]) && forall k :: 1 <= k < |s| ==> IsWordChar(s[k])
  }

  predicate OccursAt(s: string, p: string, i: nat) {
    i + |p| <= |s| && s[i..i + |p|] == p
  }

  predicate StartsWith(s: string, p: string) {
    OccursAt(s, p, 0)
  }

  predicate EndsWith(s: string, p: string) {
    |p| <= |s| && OccursAt(s, p, |s| - |p|)
  }

  // ---------------------------------------------------------------------
  // Greedy scanners: `\s*`, `\w*` and `[^c]*` taken as far as they go.
  // ---------------------------------------------------------------------

  function SkipSpaces(s: string, i: nat): (j: nat)
    requires i <= |s|
    ensures i <= j <= |s|
    ensures forall k :: i <= k < j ==> IsSpace(s[k])
    ensures j < |s| ==> !IsSpace(s[j])
    decreases |s| - i
  {
    if i == |s| || !IsSpace(s[i]) then i else SkipSpaces(s, i + 1)
  }

  function SkipWord(s: string, i: nat): (j: nat)
    requires i <= |s|
    ensures i <= j <= |s|
    ensures forall k :: i <= k < j ==> IsWordChar(s[k])
    ensures j < |s| ==> !IsWordChar(s[j])
    decreases |s| - i
  {
    if i == |s| || !IsWordChar(s[i]) then i else SkipWord(s, i + 1)
  }

  /** The first index at or after `i` holding `c`, or `|s|` if there is none. */
  function SkipUntil(s: string, i: nat, c: char): (j: nat)
    requires i <= |s|
    ensures i <= j <= |s|
    ensures forall k :: i <= k < j ==> s[k] != c
    ensures j < |s| ==> s[j] == c
    decreases |s| - i
  {
    if i == |s| || s[i] == c then i else SkipUntil(s, i + 1, c)
  }

  /** The start of the run of white space that ends at `j`. */
  function SkipSpacesBack(s: string, j: nat): (i: nat)
    requires j <= |s|
    ensures i <= j
    ensures forall k :: i <= k < j ==> IsSpace(s[k])
    ensures 0 < i ==> !IsSpace(s[i - 1])
    decreases j
  {
    if j == 0 || !IsSpace(s[j - 1]) then j else SkipSpacesBack(s, j - 1)
  }

  lemma SkipSpacesIs(s: string, i: nat, j: nat)
    requires i <= j <= |s|
    requires forall k :: i <= k < j ==> IsSpace(s[k])
    requires j < |s| ==> !IsSpace(s[j])
    ensures SkipSpaces(s, i) == j
  {
  }

  lemma SkipWordIs(s: string, i: nat, j: nat)
    requires i <= j <= |s|
    requires forall k :: i <= k < j ==> IsWordChar(s[k])
    requires j < |s| ==> !IsWordChar(s[j])
    ensures SkipWord(s, i) == j
  {
  }

  lemma SkipUntilIs(s: string, i: nat, c: char, j: nat)
    requires i <= j <= |s|
    requires forall k :: i <= k < j ==> s[k] != c
    requires j < |s| ==> s[j] == c
    ensures SkipUntil(s, i, c) == j
  {
  }

  lemma SkipSpacesBackIs(s: string, i: nat, j: nat)
    requires i <= j <= |s|
    requires forall k :: i <= k < j ==> IsSpace(s[k])
    requires 0 < i ==> !IsSpace(s[i - 1])
    ensures SkipSpacesBack(s, j) == i
  {
  }

  /** A run of white space between two texts is skipped exactly. */
  lemma SkipSpacesOver(pre: string, gap: string, rest: string)
    requires forall k :: 0 <= k < |gap| ==> IsSpace(gap[k])
    requires rest == [] || !IsSpace(rest[0])
    ensures SkipSpaces(pre + gap + rest, |pre|) == |pre| + |gap|
  {
    var s := pre + gap + rest;
    assert forall k :: |pre| <= k < |pre| + |gap| ==> s[k] == gap[k - |pre|];
    if rest != [] {
      assert s[|pre| + |gap|] == rest[0];
    }
    SkipSpacesIs(s, |pre|, |pre| + |gap|);
  }

  /** A run of word characters between two texts is skipped exactly. */
  lemma SkipWordOver(pre: string, word: string, rest: string)
    requires forall k :: 0 <= k < |word| ==> IsWordChar(word[k])
    requires rest == [] || !IsWordChar(rest[0])
    ensures SkipWord(pre + word + rest, |pre|) == |pre| + |word|
  {
    var s := pre + word + rest;
    assert forall k :: |pre| <= k < |pre| + |word| ==> s[k] == word[k - |pre|];
    if rest != [] {
      assert s[|pre| + |word|] == rest[0];
    }
    SkipWordIs(s, |pre|, |pre| + |word|);
  }

  /** Scanning for `c` stops at the first `c` after a text without one. */
  lemma SkipUntilOver(pre: string, text: string, c: char, rest: string)
    requires c !in text
    requires rest == [] || rest[0] == c
    ensures SkipUntil(pre + text + rest, |pre|, c) == |pre| + |text|
  {
    var s := pre + text + rest;
    assert forall k :: |pre| <= k < |pre| + |text| ==> s[k] == text[k - |pre|];
    if rest != [] {
      assert s[|pre| + |text|] == rest[0];
    }
    SkipUntilIs(s, |pre|, c, |pre| + |text|);
  }

  lemma OccursAtOver(pre: string, p: string, rest: string)
    ensures OccursAt(pre + p + rest, p, |pre|)
  {
    assert (pre + p + rest)[|pre|..|pre| + |p|] == p;
  }

  /** Occurrences in the tail are the occurrences one position further on. */
  lemma OccursAtTail(s: string, p: string, k: nat)
    requires |s| > 0
    ensures OccursAt(s[1..], p, k) <==> OccursAt(s, p, k + 1)
  {
    if k + 1 + |p| <= |s| {
      assert s[1..][k..k + |p|] == s[k + 1..k + 1 + |p|];
    }
  }

  /** The same four scanners seen from a position `a` whose suffix is known. */
  lemma SkipSpacesAt(t: string, a: nat, gap: string, rest: string)
    requires a <= |t| && t[a..] == gap + rest
    requires forall k :: 0 <= k < |gap| ==> IsSpace(gap[k])
    requires rest == [] || !IsSpace(rest[0])
    ensures SkipSpaces(t, a) == a + |gap| && t[a + |gap|..] == rest
  {
    assert t == t[..a] + gap + rest;
    SkipSpacesOver(t[..a], gap, rest);
  }

  lemma SkipWordAt(t: string, a: nat, word: string, rest: string)
    requires a <= |t| && t[a..] == word + rest
    requires forall k :: 0 <= k < |word| ==> IsWordChar(word[k])
    requires rest == [] || !IsWordChar(rest[0])
    ensures SkipWord(t, a) == a + |word| && t[a + |word|..] == rest
    ensures t[a..a + |word|] == word
  {
    assert t == t[..a] + word + rest;
    SkipWordOver(t[..a], word, rest);
  }

  lemma SkipUntilAt(t: string, a: nat, text: string, c: char, rest: string)
    requires a <= |t| && t[a..] == text + rest
    requires c !in text
    requires rest == [] || rest[0] == c
    ensures SkipUntil(t, a, c) == a + |text| && t[a + |text|..] == rest
    ensures t[a..a + |text|] == text
  {
    assert t == t[..a] + text + rest;
    SkipUntilOver(t[..a], text, c, rest);
  }

  lemma OccursAtAt(t: string, a: nat, p: string, rest: string)
    requires a <= |t| && t[a..] == p + rest
    ensures OccursAt(t, p, a) && t[a + |p|..] == rest
  {
    assert t == t[..a] + p + rest;
    OccursAtOver(t[..a], p, rest);
  }

  /** Stepping one character into a known suffix. */
  lemma SuffixStep(t: string, a: nat, p: string, rest: string)
    requires a <= |t| && t[a..] == p + rest && p != []
    ensures t[a] == p[0] && t[a + 1..] == p[1..] + rest
  {
    assert t[a] == t[a..][0];
    assert t[a + 1..] == t[a..][1..];
  }

  /** Stepping over one known character. */
  lemma CharStep(t: string, a: nat, c: char, rest: string)
    requires a <= |t| && t[a..] == [c] + rest
    ensures a < |t| && t[a] == c && t[a + 1..] == rest
  {
    assert t[a] == t[a..][0];
    assert t[a + 1..] == t[a..][1..];
  }

  // ---------------------------------------------------------------------
  // trim
  // ---------------------------------------------------------------------

  /** Where the text of `s` starts once leading white space is skipped. */
  function TrimStart(s: string): nat
  {
    SkipSpaces(s, 0)
  }

  /** `String.prototype.trim`: `s` without its white-space margins. */
  function Trim(s: string): (r: string)
    ensures TrimStart(s) + |r| <= |s|
    ensures r == s[TrimStart(s)..TrimStart(s) + |r|]
    ensures forall k :: 0 <= k < TrimStart(s) ==> IsSpace(s[k])
    ensures forall k :: TrimStart(s) + |r| <= k < |s| ==> IsSpace(s[k])
    ensures r != [] ==> !IsSpace(r[0]) && !IsSpace(r[|r| - 1])
  {
    var i := SkipSpaces(s, 0);
    var j := SkipSpacesBack(s, |s|);
    if j <= i then [] else s[i..j]
  }

  /** Trimming is determined by the margins: white space around a text that
      neither starts nor ends with white space trims to that text. */
  lemma TrimPadded(front: string, text: string, back: string)
    requires forall k :: 0 <= k < |front| ==> IsSpace(front[k])
    requires forall k :: 0 <= k < |back| ==> IsSpace(back[k])
    requires text != [] ==> !IsSpace(text[0]) && !IsSpace(text[|text| - 1])
    ensures Trim(front + text + back) == text
  {
    var s := front + text + back;
    if text == [] {
      assert s == front + back;
      assert forall k :: 0 <= k < |s| ==> IsSpace(s[k]) by {
        forall k | 0 <= k < |s| ensures IsSpace(s[k]) {
          if k < |front| { assert s[k] == front[k]; } else { assert s[k] == back[k - |front|]; }
        }
      }
      SkipSpacesIs(s, 0, |s|);
    } else {
      var i, j := |front|, |front| + |text|;
      assert s[i] == text[0];
      assert s[j - 1] == text[|text| - 1];
      assert forall k :: 0 <= k < i ==> IsSpace(s[k]) by {
        forall k | 0 <= k < i ensures IsSpace(s[k]) { assert s[k] == front[k]; }
      }
      assert forall k :: j <= k < |s| ==> IsSpace(s[k]) by {
        forall k | j <= k < |s| ensures IsSpace(s[k]) { assert s[k] == back[k - j]; }
      }
      SkipSpacesIs(s, 0, i);
      SkipSpacesBackIs(s, j, |s|);
      assert s[i..j] == text;
    }
  }

  /** Trimming twice is trimming once. */
  lemma TrimIdempotent(s: string)
    ensures Trim(Trim(s)) == Trim(s)
  {
    var t := Trim(s);
    TrimPadded([], t, []);
    assert [] + t + [] == t;
  }

  /** A trimmed string is empty exactly when the string is all white space. */
  lemma TrimEmpty(s: string)
    ensures Trim(s) == [] <==> forall k :: 0 <= k < |s| ==> IsSpace(s[k])
  {
    var r := Trim(s);
    if r != [] {
      assert s[TrimStart(s)] == r[0];
    }
  }

  // ---------------------------------------------------------------------
  // indexOf / includes
  // ---------------------------------------------------------------------

  /** `s.indexOf(p, from)`: the first position at or after `from` where `p` occurs. */
  function IndexOfFrom(s: string, p: string, from: nat): (r: Option<nat>)
    requires from <= |s|
    ensures r.Some? ==> from <= r.value && OccursAt(s, p, r.value)
    ensures r.Some? ==> forall k :: from <= k < r.value ==> !OccursAt(s, p, k)
    ensures r.None? ==> forall k :: from <= k <= |s| ==> !OccursAt(s, p, k)
    decreases |s| - from
  {
    if OccursAt(s, p, from) then Some(from)
    else if from == |s| then None
    else IndexOfFrom(s, p, from + 1)
  }

  /** `s.indexOf(p)`, with `None` for JavaScript's -1. */
  function IndexOf(s: string, p: string): Option<nat>
  {
    IndexOfFrom(s, p, 0)
  }

  /** `s.includes(p)`. */
  predicate Contains(s: string, p: string) {
    IndexOf(s, p).Some?
  }

  /** `includes` holds exactly when the pattern occurs somewhere. */
  lemma ContainsOccurs(s: string, p: string)
    ensures Contains(s, p) <==> exists k :: 0 <= k <= |s| && OccursAt(s, p, k)
  {
    if Contains(s, p) {
      assert OccursAt(s, p, IndexOf(s, p).value);
    }
  }

  /** The first occurrence is characterised by occurring with none before it. */
  lemma IndexOfIs(s: string, p: string, i: nat)
    requires OccursAt(s, p, i)
    requires forall k :: 0 <= k < i ==> !OccursAt(s, p, k)
    ensures IndexOf(s, p) == Some(i)
  {
  }

  // ---------------------------------------------------------------------
  // split / join
  // ---------------------------------------------------------------------

  /** `parts.join(sep)`. */
  function Join(parts: seq<string>, sep: string): string
  {
    if |parts| == 0 then ""
    else if |parts| == 1 then parts[0]
    else parts[0] + sep + Join(parts[1..], sep)
  }

  /** `s.split(sep)` for a one-character separator: the pieces between separators,
      which rejoin to `s`. */
  function Split(s: string, sep: char): (r: seq<string>)
    ensures |r| > 0
    ensures forall k :: 0 <= k < |r| ==> sep !in r[k]
    ensures Join(r, [sep]) == s
    decreases |s|
  {
    var i := SkipUntil(s, 0, sep);
    if i == |s| then [s]
    else
      var rest := Split(s[i + 1..], sep);
      var r := [s[..i]] + rest;
      assert r[1..] == rest;
      assert s == s[..i] + [sep] + s[i + 1..];
      r
  }

  /** Splitting undoes joining when no piece holds the separator. */
  lemma {:induction false} SplitJoin(parts: seq<string>, sep: char)
    requires |parts| > 0
    requires forall k :: 0 <= k < |parts| ==> sep !in parts[k]
    ensures Split(Join(parts, [sep]), sep) == parts
    decreases |parts|
  {
    if |parts| == 1 {
      var s := parts[0];
      assert Join(parts, [sep]) == s;
      assert sep !in s;
      SkipUntilIs(s, 0, sep, |s|);
    } else {
      var rest := Join(parts[1..], [sep]);
      assert Join(parts, [sep]) == parts[0] + [sep] + rest;
      SplitOfFirst(parts[0], sep, rest);
      SplitJoin(parts[1..], sep);
      assert parts == [parts[0]] + parts[1..];
    }
  }

  /** A first piece free of the separator is split off whole. */
  lemma SplitOfFirst(p: string, sep: char, rest: string)
    requires sep !in p
    ensures Split(p + [sep] + rest, sep) == [p] + Split(rest, sep)
  {
    var s := p + [sep] + rest;
    var i := |p|;
    assert s[i] == sep;
    assert forall k :: 0 <= k < i ==> s[k] == p[k];
    SkipUntilIs(s, 0, sep, i);
    assert s[..i] == p;
    assert s[i + 1..] == rest;
  }

  // ---------------------------------------------------------------------
  // Lines: `source.split(/\r?\n/)` and `lines.join('\n')`
  // ---------------------------------------------------------------------

  /** A piece that a `\r\n` separator ended loses its `\r`. */
  function DropCarriageReturn(piece: string): string
  {
    if EndsWith(piece, "\r") then piece[..|piece| - 1] else piece
  }

  /** `source.split(/\r?\n/)`: split at every line feed; a carriage return just
      before a line feed belongs to the separator. */
  function SplitLines(source: string): (lines: seq<string>)
  {
    var pieces := Split(source, '\n');
    seq(|pieces|, k requires 0 <= k < |pieces| =>
      if k < |pieces| - 1 then DropCarriageReturn(pieces[k]) else pieces[k])
  }

  /** `lines.join('\n')`. */
  function JoinLines(lines: seq<string>): string
  {
    Join(lines, "\n")
  }

  /** Writing lines out and reading them back gives the same lines, provided no
      line holds a line feed and no line but the last ends in a carriage return. */
  lemma LinesRoundTrip(lines: seq<string>)
    requires |lines| > 0
    requires forall k :: 0 <= k < |lines| ==> '\n' !in lines[k]
    requires forall k :: 0 <= k < |lines| - 1 ==> !EndsWith(lines[k], "\r")
    ensures SplitLines(JoinLines(lines)) == lines
  {
    assert "\n" == ['\n'];
    SplitJoin(lines, '\n');
    var pieces := Split(JoinLines(lines), '\n');
    assert pieces == lines;
  }

  /** Every line read from a source is free of line feeds. */
  lemma SplitLinesNoLineFeed(source: string)
    ensures forall k :: 0 <= k < |SplitLines(source)| ==> '\n' !in SplitLines(source)[k]
  {
    var pieces := Split(source, '\n');
    var lines := SplitLines(source);
    forall k | 0 <= k < |lines| ensures '\n' !in lines[k] {
      if k < |pieces| - 1 && EndsWith(pieces[k], "\r") {
        assert lines[k] == pieces[k][..|pieces[k]| - 1];
        assert forall c :: c in lines[k] ==> c in pieces[k];
      }
    }
  }
}
