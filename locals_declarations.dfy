/**
  What the locals transformer reads out of a cobc-generated local header
  (`*.c.l.h`): the leading comment block, the identifier declared by each
  declaration line, and the `static cob_field` initialisers.

  Each regular expression of the transformer is modelled by a recogniser
  that takes every repeated part as far as it goes. This is exact: in each
  of these patterns a repeated part is followed by a character that the part
  itself cannot match, so backtracking to a shorter repetition never yields
  a match, and the regex has at most one way to match at a given position.
  An unanchored pattern is tried at every position from the left, as
  `String.prototype.match` does.
*/
module LocalsDeclarations {
  import opened Wrappers
  import opened JsStrings

  /** One `static cob_field NAME = {v0, v1, ...}` initialiser. */
  datatype FieldInit = FieldInit(name: string, values: seq<string>)

  // ---------------------------------------------------------------------
  // The leading comment block
  // ---------------------------------------------------------------------

  /** A line that is blank once trimmed or opens a comment. */
  predicate IsBlankOrComment(line: string) {
    var t := Trim(line);
    t == "" || StartsWith(t, "/*")
  }

  /** The length of the run of blank and comment lines the header starts with. */
  function LeadingCommentCount(lines: seq<string>): (n: nat)
    ensures n <= |lines|
    ensures forall k {:trigger IsBlankOrComment(lines[k])} :: 0 <= k < n ==> IsBlankOrComment(lines[k])
    ensures n < |lines| ==> !IsBlankOrComment(lines[n])
  {
    if lines == [] then 0
    else if !IsBlankOrComment(lines[0]) then 0
    else
      var n := LeadingCommentCount(lines[1..]);
      BlankShift(lines, n);
      1 + n
  }

  /** A blank or comment line in front of a run of them lengthens it by one. */
  lemma BlankShift(lines: seq<string>, n: nat)
    requires lines != [] && IsBlankOrComment(lines[0]) && n <= |lines[1..]|
    requires forall k {:trigger IsBlankOrComment(lines[1..][k])} :: 0 <= k < n ==> IsBlankOrComment(lines[1..][k])
    requires n < |lines[1..]| ==> !IsBlankOrComment(lines[1..][n])
    ensures forall k {:trigger IsBlankOrComment(lines[k])} :: 0 <= k < n + 1 ==> IsBlankOrComment(lines[k])
    ensures n + 1 < |lines| ==> !IsBlankOrComment(lines[n + 1])
  {
    forall k | 0 <= k < n + 1 ensures IsBlankOrComment(lines[k]) {
      if k > 0 {
        assert lines[k] == lines[1..][k - 1];
      }
    }
    if n + 1 < |lines| {
      assert lines[n + 1] == lines[1..][n];
    }
  }

  /** The leading block is the longest prefix of blank and comment lines, so any
      index with the same two properties is its length. */
  lemma LeadingCommentCountIs(lines: seq<string>, n: nat)
    requires n <= |lines|
    requires forall k {:trigger IsBlankOrComment(lines[k])} :: 0 <= k < n ==> IsBlankOrComment(lines[k])
    requires n < |lines| ==> !IsBlankOrComment(lines[n])
    ensures LeadingCommentCount(lines) == n
  {
  }

  // ---------------------------------------------------------------------
  // Statements: a line without its comment tail, ending in ';'
  // ---------------------------------------------------------------------

  /** The line with everything from the first comment opener cut off, then trimmed. */
  function StatementText(rawLine: string): string
  {
    var cut := match IndexOf(rawLine, "/*")
      case Some(i) => rawLine[..i]
      case None => rawLine;
    Trim(cut)
  }

  /** Only a line whose statement text ends in `;` can declare anything. */
  predicate IsStatement(rawLine: string) {
    EndsWith(StatementText(rawLine), ";")
  }

  // ---------------------------------------------------------------------
  // static\s+cob_field\s+([A-Za-z_]\w*)\s*=\s*\{([^}]*)\}
  // ---------------------------------------------------------------------

  /** `\s*\{([^}]*)\}` at the start of `w`: the text between the braces. */
  function BracedText(w: string): (r: Option<string>)
    ensures r.Some? ==> '}' !in r.value
  {
    var o := SkipSpaces(w, 0);
    if o == |w| || w[o] != '{' then None
    else
      var c := SkipUntil(w, o + 1, '}');
      if c == |w| then None else Some(w[o + 1..c])
  }

  /** `\s*=\s*\{([^}]*)\}` at the start of `v`: the text between the braces. */
  function FieldInitBody(v: string): (r: Option<string>)
    ensures r.Some? ==> '}' !in r.value
  {
    var q := SkipSpaces(v, 0);
    if q == |v| || v[q] != '=' then None else BracedText(v[q + 1..])
  }

  /** `([A-Za-z_]\w*)\s*=\s*\{([^}]*)\}` at the start of `x`: the name and
      the text between the braces. */
  function NameAndBody(x: string): (r: Option<(string, string)>)
    ensures r.Some? ==> IsIdentifier(r.value.0) && '}' !in r.value.1
  {
    if x == [] || !IsIdentStart(x[0]) then None
    else
      var e := SkipWord(x, 1);
      match FieldInitBody(x[e..])
      case None => None
      case Some(body) => Some((x[..e], body))
  }

  /** `\s+([A-Za-z_]\w*)\s*=\s*\{([^}]*)\}` at the start of `u`. */
  function FieldInitNamed(u: string): (r: Option<(string, string)>)
    ensures r.Some? ==> IsIdentifier(r.value.0) && '}' !in r.value.1
  {
    var b := SkipSpaces(u, 0);
    if b == 0 then None else NameAndBody(u[b..])
  }

  /** The field-initialiser pattern matched at the start of `t`: the field's
      name and the text between the braces. */
  function FieldInitMatch(t: string): (r: Option<(string, string)>)
    ensures r.Some? ==> IsIdentifier(r.value.0) && '}' !in r.value.1
  {
    if !StartsWith(t, "static") then None
    else
      var a := SkipSpaces(t, 6);
      if a == 6 || !OccursAt(t, "cob_field", a) then None
      else FieldInitNamed(t[a + 9..])
  }

  /** The leftmost match of the field-initialiser pattern in `s`. */
  function FindFieldInit(s: string): (r: Option<(string, string)>)
    ensures r.Some? ==> IsIdentifier(r.value.0) && '}' !in r.value.1
    decreases |s|
  {
    var m := FieldInitMatch(s);
    if m.Some? then m
    else if s == [] then None
    else FindFieldInit(s[1..])
  }

  /** `body.split(',').map((v) => v.trim()).filter(Boolean)` after the split. */
  function TrimmedNonEmpty(parts: seq<string>): (vs: seq<string>)
    ensures |vs| <= |parts|
    ensures forall k :: 0 <= k < |vs| ==> vs[k] != "" && Trim(vs[k]) == vs[k]
  {
    if parts == [] then []
    else
      var t := Trim(parts[0]);
      TrimIdempotent(parts[0]);
      (if t == "" then [] else [t]) + TrimmedNonEmpty(parts[1..])
  }

  /** The values of an initialiser: its comma-separated items, trimmed, empty ones dropped. */
  function FieldValues(body: string): seq<string>
  {
    TrimmedNonEmpty(Split(body, ','))
  }

  /** The initialiser a line contributes, if any (lines 36-52 of the script). */
  function LineFieldInit(rawLine: string): (r: Option<FieldInit>)
    ensures r.Some? ==> IsStatement(rawLine) && IsIdentifier(r.value.name)
    ensures r.Some? ==> forall k :: 0 <= k < |r.value.values| ==>
      r.value.values[k] != "" && Trim(r.value.values[k]) == r.value.values[k]
  {
    if !IsStatement(rawLine) then None
    else match FindFieldInit(StatementText(rawLine))
      case None => None
      case Some(m) => Some(FieldInit(m.0, FieldValues(m.1)))
  }

  // ---------------------------------------------------------------------
  // The declared identifier
  // ---------------------------------------------------------------------

  /** `declaration.replace(/^static\s+/, '')`. */
  function StripStatic(d: string): string
  {
    if StartsWith(d, "static") && 6 < |d| && IsSpace(d[6]) then d[SkipSpaces(d, 6)..] else d
  }

  /** The length of a match of `__attribute__\s*\(\([^)]*\)\)` at the start of
      `t`, or 0 when there is none. */
  function AttributeMatch(t: string): (n: nat)
    ensures n <= |t|
    ensures n > 0 ==> StartsWith(t, "__attribute__")
  {
    if !StartsWith(t, "__attribute__") then 0
    else
      var a := SkipSpaces(t, 13);
      if !OccursAt(t, "((", a) then 0
      else
        var c := SkipUntil(t, a + 2, ')');
        if c + 1 < |t| && t[c + 1] == ')' then c + 2 else 0
  }

  /** `s.replace(attributePattern, '')` with the global flag: every match found
      scanning from the left is deleted; the text after a deleted match is
      scanned afresh. */
  function RemoveAttributes(s: string): (r: string)
    ensures |r| <= |s|
    decreases |s|
  {
    if s == [] then []
    else
      var n := AttributeMatch(s);
      if n > 0 then RemoveAttributes(s[n..]) else [s[0]] + RemoveAttributes(s[1..])
  }

  /** `\s*\[[^\]]*\]` followed by the end of the text, at the start of `t`. */
  predicate BracketSuffix(t: string) {
    var j := SkipSpaces(t, 0);
    j < |t| && t[j] == '[' && SkipUntil(t, j + 1, ']') == |t| - 1
  }

  /** `([A-Za-z_]\w*)(?:\s*(?:\[[^\]]*\]))?$` matched at the start of `t`. */
  predicate NameMatch(t: string) {
    |t| > 0 && IsIdentStart(t[0]) &&
    var e := SkipWord(t, 1);
    e == |t| || BracketSuffix(t[e..])
  }

  /** The name the leftmost match of the name pattern captures in `s`. */
  function FindName(s: string): (r: Option<string>)
    ensures r.Some? ==> IsIdentifier(r.value)
    decreases |s|
  {
    if s == [] then None
    else if NameMatch(s) then Some(s[..SkipWord(s, 1)])
    else FindName(s[1..])
  }

  /** A statement without its `;`, a leading `static`, its attribute groups and
      everything from the first `=`, trimmed (lines 54-61 of the script). */
  function Declarator(statement: string): string
    requires EndsWith(statement, ";")
  {
    var d := RemoveAttributes(StripStatic(statement[..|statement| - 1]));
    Trim(d[..SkipUntil(d, 0, '=')])
  }

  /** The identifier a line declares, if any (lines 35-70 of the script). */
  function DeclarationName(rawLine: string): (r: Option<string>)
    ensures r.Some? ==> IsStatement(rawLine) && IsIdentifier(r.value)
  {
    if !IsStatement(rawLine) then None
    else
      var d := Declarator(StatementText(rawLine));
      if d == "" then None else FindName(d)
  }

  // ---------------------------------------------------------------------
  // The scan over the header's lines
  // ---------------------------------------------------------------------

  /** Lines the main scan passes over: blank, comment and preprocessor lines. */
  predicate SkippedByScan(line: string) {
    var t := Trim(line);
    t == "" || StartsWith(t, "/*") || StartsWith(t, "#")
  }

  function NamesDeclaredBy(line: string): set<string>
  {
    if SkippedByScan(line) then {}
    else match DeclarationName(line)
      case Some(n) => {n}
      case None => {}
  }

  function InitsDeclaredBy(line: string): seq<FieldInit>
  {
    if SkippedByScan(line) then []
    else match LineFieldInit(line)
      case Some(fi) => [fi]
      case None => []
  }

  /** The union of `f(line)` over `lines`, accumulated from the first line on. */
  function UnionOver<T>(lines: seq<string>, f: string -> set<T>): set<T>
  {
    if lines == [] then {}
    else UnionOver(lines[..|lines| - 1], f) + f(lines[|lines| - 1])
  }

  /** The concatenation of `f(line)` over `lines`, in line order. */
  function ConcatOver<T>(lines: seq<string>, f: string -> seq<T>): seq<T>
  {
    if lines == [] then []
    else ConcatOver(lines[..|lines| - 1], f) + f(lines[|lines| - 1])
  }

  /** The identifier set after scanning `lines` in order. */
  function ScannedNames(lines: seq<string>): set<string>
  {
    UnionOver(lines, NamesDeclaredBy)
  }

  /** The initialiser list after scanning `lines` in order. */
  function ScannedFieldInits(lines: seq<string>): seq<FieldInit>
  {
    ConcatOver(lines, InitsDeclaredBy)
  }

  // ---------------------------------------------------------------------
  // Properties of the declaration recognisers
  // ---------------------------------------------------------------------

  lemma IdentStartIsWordChar(c: char)
    ensures IsIdentStart(c) ==> IsWordChar(c)
  {
  }

  /** A plain declarator `... name` declares its last identifier. */
  lemma {:induction false} FindNamePlain(prefix: string, name: string)
    requires IsIdentifier(name)
    requires prefix == [] || !IsWordChar(prefix[|prefix| - 1])
    ensures FindName(prefix + name) == Some(name)
    decreases |prefix|
  {
    var s := prefix + name;
    if prefix == [] {
      assert s == name;
      SkipWordIs(s, 1, |s|);
      assert NameMatch(s);
      assert s[..SkipWord(s, 1)] == name;
    } else {
      assert !NameMatch(s) by {
        if IsIdentStart(s[0]) {
          IdentStartIsWordChar(s[0]);
          var e := SkipWord(s, 1);
          var last := |prefix| - 1;
          assert s[last] == prefix[last];
          assert 0 < last;
          assert e <= last;
          assert s[|s| - 1] == name[|name| - 1];
          IdentStartIsWordChar(name[0]);
          assert IsWordChar(s[|s| - 1]);
          var t := s[e..];
          assert t[|t| - 1] == s[|s| - 1];
          assert t[|t| - 1] != ']';
          assert !BracketSuffix(t);
        }
      }
      assert s[1..] == prefix[1..] + name;
      FindNamePlain(prefix[1..], name);
    }
  }

  lemma SpaceIsNotWordChar(c: char)
    ensures IsSpace(c) ==> !IsWordChar(c) && c != '['
  {
  }

  /** A text whose first non-space character comes before any `[` has no
      bracket suffix. */
  lemma NoBracketSuffix(t: string, m: nat)
    requires m < |t| && !IsSpace(t[m]) && t[m] != '['
    requires forall k :: 0 <= k < m ==> t[k] != '['
    ensures !BracketSuffix(t)
  {
  }

  lemma BracketSuffixOf(gap: string, inner: string)
    requires forall k :: 0 <= k < |gap| ==> IsSpace(gap[k])
    requires ']' !in inner
    ensures BracketSuffix(gap + "[" + inner + "]")
  {
    var t := gap + "[" + inner + "]";
    assert forall k :: 0 <= k < |gap| ==> t[k] == gap[k];
    assert t[|gap|] == '[';
    SkipSpacesIs(t, 0, |gap|);
    assert forall k :: |gap| + 1 <= k < |t| - 1 ==> t[k] == inner[k - |gap| - 1];
    SkipUntilIs(t, |gap| + 1, ']', |t| - 1);
  }

  lemma NameMatchBracketed(name: string, t: string)
    requires IsIdentifier(name)
    requires t != [] && !IsWordChar(t[0]) && BracketSuffix(t)
    ensures NameMatch(name + t) && SkipWord(name + t, 1) == |name|
  {
    var s := name + t;
    var n := |name|;
    assert forall k :: 0 <= k < n ==> s[k] == name[k];
    assert s[n] == t[0];
    SkipWordIs(s, 1, n);
    assert s[n..] == t;
  }

  /** An array declarator `... name [inner]` declares the identifier before its
      one bracketed suffix. */
  lemma {:induction false} FindNameArray(prefix: string, name: string, gap: string, inner: string)
    requires IsIdentifier(name)
    requires prefix == [] || !IsWordChar(prefix[|prefix| - 1])
    requires '[' !in prefix
    requires forall k :: 0 <= k < |gap| ==> IsSpace(gap[k])
    requires ']' !in inner
    ensures FindName(prefix + name + gap + "[" + inner + "]") == Some(name)
    decreases |prefix|
  {
    var s := prefix + name + gap + "[" + inner + "]";
    if prefix == [] {
      var t := gap + "[" + inner + "]";
      assert s == name + t;
      BracketSuffixOf(gap, inner);
      if gap != [] {
        assert t[0] == gap[0];
        SpaceIsNotWordChar(gap[0]);
      }
      NameMatchBracketed(name, t);
      assert s[..|name|] == name;
    } else {
      var rest := name + gap + "[" + inner + "]";
      assert s == prefix + rest;
      assert rest[0] == name[0];
      IdentStartIsWordChar(name[0]);
      SpaceIsNotWordChar(name[0]);
      NoMatchInPrefix(prefix, rest);
      assert s[1..] == prefix[1..] + name + gap + "[" + inner + "]";
      FindNameArrayStep(prefix, name, gap, inner);
    }
  }

  /** A text that starts with a word ending before a `[`-free stretch cut
      off by something other than a space or `[` does not match here. */
  lemma NoMatchInPrefix(prefix: string, rest: string)
    requires prefix != [] && !IsWordChar(prefix[|prefix| - 1]) && '[' !in prefix
    requires rest != [] && !IsSpace(rest[0]) && rest[0] != '['
    ensures !NameMatch(prefix + rest)
  {
    var s := prefix + rest;
    if IsIdentStart(s[0]) {
      IdentStartIsWordChar(s[0]);
      var e := SkipWord(s, 1);
      var last := |prefix| - 1;
      assert s[last] == prefix[last];
      assert 0 < last;
      assert e <= last;
      var t := s[e..];
      var p := |prefix|;
      assert forall k :: 0 <= k < p - e ==> t[k] == prefix[e + k] && t[k] != '[';
      assert t[p - e] == rest[0];
      NoBracketSuffix(t, p - e);
    }
  }

  lemma FindNameArrayStep(prefix: string, name: string, gap: string, inner: string)
    requires prefix != []
    requires IsIdentifier(name)
    requires !IsWordChar(prefix[|prefix| - 1])
    requires '[' !in prefix
    requires forall k :: 0 <= k < |gap| ==> IsSpace(gap[k])
    requires ']' !in inner
    ensures FindName(prefix[1..] + name + gap + "[" + inner + "]") == Some(name)
    decreases |prefix|, 0
  {
    assert forall c :: c in prefix[1..] ==> c in prefix;
    FindNameArray(prefix[1..], name, gap, inner);
  }

  /** `static` and the white space after it are dropped, and nothing more. */
  lemma StripStaticOf(gap: string, rest: string)
    requires gap != [] && forall k :: 0 <= k < |gap| ==> IsSpace(gap[k])
    requires rest == [] || !IsSpace(rest[0])
    ensures StripStatic("static" + gap + rest) == rest
  {
    var d := "static" + gap + rest;
    assert d[..6] == "static";
    assert d[6] == gap[0];
    SkipSpacesOver("static", gap, rest);
    assert d[6 + |gap|..] == rest;
  }

  /** The text `__attribute__ ((inner))` of one attribute group. */
  function AttributeGroup(gap: string, inner: string): string
  {
    "__attribute__" + gap + "((" + inner + "))"
  }

  /** The attribute pattern matches a whole group and no more. */
  lemma AttributeMatchOf(gap: string, inner: string, rest: string)
    requires forall k :: 0 <= k < |gap| ==> IsSpace(gap[k])
    requires ')' !in inner
    ensures AttributeMatch(AttributeGroup(gap, inner) + rest) == |AttributeGroup(gap, inner)|
  {
    var t := AttributeGroup(gap, inner) + rest;
    AttributeHeadOf(gap, inner, rest);
    AttributeInnerOf(gap, inner, rest);
    AttributeMatchIs(t, 13 + |gap|, 15 + |gap| + |inner|);
  }

  /** The keyword, the spaces after it and the opening parentheses. */
  lemma AttributeHeadOf(gap: string, inner: string, rest: string)
    requires forall k :: 0 <= k < |gap| ==> IsSpace(gap[k])
    ensures var t := AttributeGroup(gap, inner) + rest;
      StartsWith(t, "__attribute__") && SkipSpaces(t, 13) == 13 + |gap| && OccursAt(t, "((", 13 + |gap|)
  {
    var t := AttributeGroup(gap, inner) + rest;
    var r1 := "((" + inner + "))" + rest;
    assert t == "__attribute__" + gap + r1;
    OccursAtOver([], "__attribute__", gap + r1);
    assert [] + "__attribute__" + (gap + r1) == t;
    SkipSpacesOver("__attribute__", gap, r1);
    assert t[13 + |gap|..15 + |gap|] == "((";
  }

  /** The text between the parentheses and the two closing ones. */
  lemma AttributeInnerOf(gap: string, inner: string, rest: string)
    requires ')' !in inner
    ensures var t := AttributeGroup(gap, inner) + rest;
      15 + |gap| <= |t| && SkipUntil(t, 15 + |gap|, ')') == 15 + |gap| + |inner| &&
      15 + |gap| + |inner| + 1 < |t| && t[15 + |gap| + |inner| + 1] == ')'
  {
    var t := AttributeGroup(gap, inner) + rest;
    var r2 := "))" + rest;
    assert t == ("__attribute__" + gap + "((") + inner + r2;
    SkipUntilOver("__attribute__" + gap + "((", inner, ')', r2);
    var c := 15 + |gap| + |inner|;
    assert t[c] == ')' && t[c + 1] == ')';
  }

  /** `AttributeMatch` read off the positions its scans stop at. */
  lemma AttributeMatchIs(t: string, a: nat, c: nat)
    requires StartsWith(t, "__attribute__")
    requires SkipSpaces(t, 13) == a && OccursAt(t, "((", a)
    requires a + 2 <= |t| && SkipUntil(t, a + 2, ')') == c && c + 1 < |t| && t[c + 1] == ')'
    ensures AttributeMatch(t) == c + 2
  {
  }

  lemma AttributeMatchZero(t: string)
    requires !StartsWith(t, "__attribute__")
    ensures AttributeMatch(t) == 0
  {
  }

  lemma NoAttributeInTail(x: string, y: string)
    requires x != []
    requires forall k :: 0 <= k < |x| ==> !OccursAt(x + y, "__attribute__", k)
    ensures forall k :: 0 <= k < |x| - 1 ==> !OccursAt(x[1..] + y, "__attribute__", k)
  {
    var s := x + y;
    assert s[1..] == x[1..] + y;
    forall k | 0 <= k < |x| - 1 ensures !OccursAt(x[1..] + y, "__attribute__", k) {
      OccursAtTail(s, "__attribute__", k);
    }
  }

  /** Text in which no attribute group starts before the end of `x` keeps `x`. */
  lemma {:induction false} RemoveAttributesKeeps(x: string, y: string)
    requires forall k :: 0 <= k < |x| ==> !OccursAt(x + y, "__attribute__", k)
    ensures RemoveAttributes(x + y) == x + RemoveAttributes(y)
    decreases |x|
  {
    if x != [] {
      var s := x + y;
      assert !OccursAt(s, "__attribute__", 0);
      AttributeMatchZero(s);
      RemoveAttributesStep(s);
      assert s[1..] == x[1..] + y;
      NoAttributeInTail(x, y);
      RemoveAttributesKeeps(x[1..], y);
      ConsStep(RemoveAttributes(s), x, RemoveAttributes(y), RemoveAttributes(s[1..]));
    } else {
      assert x + y == y;
    }
  }

  /** A position where no group starts is kept, and the scan moves on by one. */
  lemma RemoveAttributesStep(s: string)
    requires s != [] && AttributeMatch(s) == 0
    ensures RemoveAttributes(s) == [s[0]] + RemoveAttributes(s[1..])
  {
  }

  lemma ConsStep<T>(a: seq<T>, x: seq<T>, r: seq<T>, t: seq<T>)
    requires x != [] && a == [x[0]] + t && t == x[1..] + r
    ensures a == x + r
  {
    assert x == [x[0]] + x[1..];
  }

  /** A text holding no `__attribute__` is left unchanged. */
  lemma RemoveAttributesNone(s: string)
    requires forall k :: 0 <= k < |s| ==> !OccursAt(s, "__attribute__", k)
    ensures RemoveAttributes(s) == s
  {
    assert s + [] == s;
    RemoveAttributesKeeps(s, []);
  }

  /** The first attribute group is deleted as a whole; scanning resumes after it. */
  lemma RemoveAttributesGroup(x: string, gap: string, inner: string, y: string)
    requires forall k :: 0 <= k < |gap| ==> IsSpace(gap[k])
    requires ')' !in inner
    requires forall k :: 0 <= k < |x| ==>
      !OccursAt(x + AttributeGroup(gap, inner) + y, "__attribute__", k)
    ensures RemoveAttributes(x + AttributeGroup(gap, inner) + y) == x + RemoveAttributes(y)
  {
    var g := AttributeGroup(gap, inner);
    assert x + g + y == x + (g + y);
    RemoveAttributesKeeps(x, g + y);
    AttributeMatchOf(gap, inner, y);
    assert (g + y)[|g|..] == y;
  }

  /** The text of an initialiser `static cob_field name = {body}`, with the
      white space `g1` to `g4` between its tokens, followed by `rest`. */
  function FieldInitText(g1: string, g2: string, name: string, g3: string, g4: string,
                         body: string, rest: string): string
  {
    "static" + (g1 + ("cob_field" + (g2 + (name + (g3 + ("=" + (g4 + ("{" + (body + ("}" + rest))))))))))
  }

  predicate AllSpaces(s: string) {
    forall k :: 0 <= k < |s| ==> IsSpace(s[k])
  }

  lemma BracedTextOf(g4: string, body: string, rest: string)
    requires AllSpaces(g4)
    requires '}' !in body
    ensures BracedText(g4 + ("{" + (body + ("}" + rest)))) == Some(body)
  {
    var x8 := body + ("}" + rest);
    var w := g4 + ("{" + x8);
    SkipSpacesAt(w, 0, g4, "{" + x8);
    var o := |g4|;
    CharStep(w, o, '{', x8);
    SkipUntilAt(w, o + 1, body, '}', "}" + rest);
  }

  lemma FieldInitBodyOf(g3: string, g4: string, body: string, rest: string)
    requires AllSpaces(g3) && AllSpaces(g4)
    requires '}' !in body
    ensures FieldInitBody(g3 + ("=" + (g4 + ("{" + (body + ("}" + rest)))))) == Some(body)
  {
    var x6 := g4 + ("{" + (body + ("}" + rest)));
    var v := g3 + ("=" + x6);
    SkipSpacesAt(v, 0, g3, "=" + x6);
    CharStep(v, |g3|, '=', x6);
    BracedTextOf(g4, body, rest);
  }

  lemma NameAndBodyOf(name: string, g3: string, g4: string, body: string, rest: string)
    requires AllSpaces(g3) && AllSpaces(g4)
    requires IsIdentifier(name)
    requires '}' !in body
    ensures NameAndBody(name + (g3 + ("=" + (g4 + ("{" + (body + ("}" + rest)))))))
      == Some((name, body))
  {
    var x4 := g3 + ("=" + (g4 + ("{" + (body + ("}" + rest)))));
    var x := name + x4;
    SuffixStep(x, 0, name, x4);
    IdentStartIsWordChar(name[0]);
    if g3 != [] {
      SpaceIsNotWordChar(g3[0]);
    }
    SkipWordAt(x, 1, name[1..], x4);
    assert 1 + |name[1..]| == |name|;
    assert x[..|name|] == name;
    FieldInitBodyOf(g3, g4, body, rest);
  }

  lemma FieldInitNamedOf(g2: string, name: string, g3: string, g4: string,
                         body: string, rest: string)
    requires g2 != [] && AllSpaces(g2) && AllSpaces(g3) && AllSpaces(g4)
    requires IsIdentifier(name)
    requires '}' !in body
    ensures FieldInitNamed(g2 + (name + (g3 + ("=" + (g4 + ("{" + (body + ("}" + rest))))))))
      == Some((name, body))
  {
    var x3 := name + (g3 + ("=" + (g4 + ("{" + (body + ("}" + rest))))));
    assert x3[0] == name[0];
    SkipSpacesAt(g2 + x3, 0, g2, x3);
    NameAndBodyOf(name, g3, g4, body, rest);
  }

  /** The initialiser pattern recognises exactly such a text, capturing the name
      and the text between the braces. */
  lemma FieldInitMatchOf(g1: string, g2: string, name: string, g3: string, g4: string,
                         body: string, rest: string)
    requires g1 != [] && g2 != [] && AllSpaces(g1) && AllSpaces(g2)
    requires AllSpaces(g3) && AllSpaces(g4)
    requires IsIdentifier(name)
    requires '}' !in body
    ensures FieldInitMatch(FieldInitText(g1, g2, name, g3, g4, body, rest)) == Some((name, body))
  {
    var x2 := g2 + (name + (g3 + ("=" + (g4 + ("{" + (body + ("}" + rest)))))));
    var x1 := "cob_field" + x2;
    var x0 := g1 + x1;
    var t := "static" + x0;
    assert t == FieldInitText(g1, g2, name, g3, g4, body, rest);
    OccursAtAt(t, 0, "static", x0);
    SkipSpacesAt(t, 6, g1, x1);
    var a := 6 + |g1|;
    OccursAtAt(t, a, "cob_field", x2);
    FieldInitNamedOf(g2, name, g3, g4, body, rest);
  }

  // ---------------------------------------------------------------------
  // Properties of the initialiser values
  // ---------------------------------------------------------------------

  /** Values that are already trimmed and non-empty pass through unchanged. */
  lemma {:induction false} TrimmedNonEmptyKeeps(vs: seq<string>)
    requires forall k :: 0 <= k < |vs| ==> vs[k] != "" && Trim(vs[k]) == vs[k]
    ensures TrimmedNonEmpty(vs) == vs
  {
    if vs != [] {
      TrimmedNonEmptyKeeps(vs[1..]);
      assert vs == [vs[0]] + vs[1..];
    }
  }

  /** The values of a body are its comma-separated items, trimmed, with the
      blank ones dropped. */
  lemma FieldValuesOfItems(items: seq<string>)
    requires |items| > 0
    requires forall k :: 0 <= k < |items| ==> ',' !in items[k]
    ensures FieldValues(Join(items, ",")) == TrimmedNonEmpty(items)
  {
    SplitJoin(items, ',');
  }

  /** Writing values out separated by commas and reading them back gives the
      same values. */
  lemma FieldValuesRoundTrip(vs: seq<string>)
    requires forall k :: 0 <= k < |vs| ==> vs[k] != "" && Trim(vs[k]) == vs[k] && ',' !in vs[k]
    ensures FieldValues(Join(vs, ",")) == vs
  {
    if vs == [] {
      SkipUntilIs("", 0, ',', 0);
      assert Split("", ',') == [""];
    } else {
      FieldValuesOfItems(vs);
      TrimmedNonEmptyKeeps(vs);
    }
  }

  // ---------------------------------------------------------------------
  // Whole declaration lines
  // ---------------------------------------------------------------------

  /** A line `static<gap><decl>;` with no comment opener */
  predicate StaticLine(line: string, gap: string, decl: string) {
    line == "static" + gap + decl + ";" && gap != [] && AllSpaces(gap)
    && decl != [] && !IsSpace(decl[0]) && !Contains(line, "/*")
  }

  /** Such a line is its own statement text, and it is a statement. */
  lemma StatementOfLine(line: string, gap: string, decl: string)
    requires StaticLine(line, gap, decl)
    ensures StatementText(line) == line && IsStatement(line)
  {
    assert IndexOf(line, "/*").None?;
    assert line[0] == 's' && line[|line| - 1] == ';';
    assert [] + line + [] == line;
    TrimPadded([], line, []);
    assert line[|line| - 1..] == ";";
  }

  /** The declarator of such a line: `static` and the white space after it go,
      the attribute groups go, and what is left before the first `=` is
      trimmed. */
  lemma DeclaratorOfLine(line: string, gap: string, decl: string, text: string, back: string, init: string)
    requires StaticLine(line, gap, decl)
    requires RemoveAttributes(decl) == text + back + init
    requires '=' !in text && AllSpaces(back) && (init == [] || init[0] == '=')
    requires text != [] && !IsSpace(text[0]) && !IsSpace(text[|text| - 1])
    ensures EndsWith(line, ";") && Declarator(line) == text
  {
    StatementOfLine(line, gap, decl);
    StripStaticLine(line, gap, decl);
    DeclaratorIs(line, decl);
    CutAtEquals(RemoveAttributes(decl), text, back, init);
  }

  lemma StripStaticLine(line: string, gap: string, decl: string)
    requires StaticLine(line, gap, decl)
    ensures |line| > 0 && StripStatic(line[..|line| - 1]) == decl
  {
    assert line[..|line| - 1] == "static" + gap + decl;
    StripStaticOf(gap, decl);
  }

  lemma DeclaratorIs(statement: string, stripped: string)
    requires EndsWith(statement, ";") && StripStatic(statement[..|statement| - 1]) == stripped
    ensures var d := RemoveAttributes(stripped); Declarator(statement) == Trim(d[..SkipUntil(d, 0, '=')])
  {
  }

  /** Everything from the first `=` is cut off, and the rest trimmed. */
  lemma CutAtEquals(d: string, text: string, back: string, init: string)
    requires d == text + back + init
    requires '=' !in text && AllSpaces(back) && (init == [] || init[0] == '=')
    requires text != [] && !IsSpace(text[0]) && !IsSpace(text[|text| - 1])
    ensures Trim(d[..SkipUntil(d, 0, '=')]) == text
  {
    assert '=' !in back by {
      forall k | 0 <= k < |back| ensures back[k] != '=' {
        assert IsSpace(back[k]);
      }
    }
    assert d == [] + (text + back) + init;
    SkipUntilOver([], text + back, '=', init);
    assert d[..|text + back|] == [] + text + back;
    TrimPadded([], text, back);
  }

  /** The name a `static` declaration line registers is the one the name
      pattern finds in its declarator. */
  lemma DeclarationNameOfLine(line: string, gap: string, decl: string, text: string, back: string, init: string)
    requires StaticLine(line, gap, decl)
    requires RemoveAttributes(decl) == text + back + init
    requires '=' !in text && AllSpaces(back) && (init == [] || init[0] == '=')
    requires text != [] && !IsSpace(text[0]) && !IsSpace(text[|text| - 1])
    ensures DeclarationName(line) == FindName(text)
  {
    StatementOfLine(line, gap, decl);
    DeclaratorOfLine(line, gap, decl, text, back, init);
  }

  /** A declaration `static <type> name = init;` (the initialiser optional),
      whose type part ends in something other than a word character, registers
      `name`. */
  lemma DeclarationNamePlain(line: string, gap: string, prefix: string, name: string,
                             back: string, init: string)
    requires StaticLine(line, gap, prefix + name + back + init)
    requires forall k :: 0 <= k < |prefix + name + back + init| ==>
      !OccursAt(prefix + name + back + init, "__attribute__", k)
    requires IsIdentifier(name)
    requires prefix == [] || (!IsSpace(prefix[0]) && !IsWordChar(prefix[|prefix| - 1]))
    requires '=' !in prefix && AllSpaces(back) && (init == [] || init[0] == '=')
    ensures DeclarationName(line) == Some(name)
  {
    var decl := prefix + name + back + init;
    RemoveAttributesNone(decl);
    var text := prefix + name;
    assert decl == text + back + init;
    IdentStartIsWordChar(name[0]);
    assert text[0] == (if prefix == [] then name[0] else prefix[0]);
    assert text[|text| - 1] == name[|name| - 1];
    IdentifierHasNoEquals(name);
    DeclarationNameOfLine(line, gap, decl, text, back, init);
    FindNamePlain(prefix, name);
  }

  /** An array declaration `static <type> name[inner] = init;` (the initialiser
      optional) registers `name`. */
  lemma DeclarationNameArray(line: string, gap: string, prefix: string, name: string,
                             gap2: string, inner: string, back: string, init: string)
    requires StaticLine(line, gap, prefix + name + gap2 + "[" + inner + "]" + back + init)
    requires forall k :: 0 <= k < |prefix + name + gap2 + "[" + inner + "]" + back + init| ==>
      !OccursAt(prefix + name + gap2 + "[" + inner + "]" + back + init, "__attribute__", k)
    requires IsIdentifier(name)
    requires prefix == [] || (!IsSpace(prefix[0]) && !IsWordChar(prefix[|prefix| - 1]))
    requires '=' !in prefix && '[' !in prefix && AllSpaces(gap2)
    requires '=' !in inner && ']' !in inner
    requires AllSpaces(back) && (init == [] || init[0] == '=')
    ensures DeclarationName(line) == Some(name)
  {
    var text := prefix + name + gap2 + "[" + inner + "]";
    var decl := text + back + init;
    RemoveAttributesNone(decl);
    IdentStartIsWordChar(name[0]);
    assert text[0] == (if prefix == [] then name[0] else prefix[0]);
    assert '=' !in text by {
      IdentifierHasNoEquals(name);
      SpacesHaveNoEquals(gap2);
    }
    DeclarationNameOfLine(line, gap, decl, text, back, init);
    FindNameArray(prefix, name, gap2, inner);
  }

  lemma IdentifierHasNoEquals(name: string)
    requires IsIdentifier(name)
    ensures '=' !in name
  {
    IdentStartIsWordChar(name[0]);
  }

  lemma SpacesHaveNoEquals(s: string)
    requires AllSpaces(s)
    ensures '=' !in s
  {
    forall k | 0 <= k < |s| ensures s[k] != '=' {
      assert IsSpace(s[k]);
    }
  }

  /** An attribute group in a declaration changes nothing about the name it
      registers: the line registers what the line without the group does. */
  lemma AttributeGroupIgnored(line: string, plain: string, gap: string, x: string,
                              agap: string, ainner: string, y: string)
    requires StaticLine(line, gap, x + AttributeGroup(agap, ainner) + y)
    requires StaticLine(plain, gap, x + y)
    requires AllSpaces(agap) && ')' !in ainner
    requires forall k :: 0 <= k < |x| ==> !OccursAt(x + AttributeGroup(agap, ainner) + y, "__attribute__", k)
    requires forall k :: 0 <= k < |x + y| ==> !OccursAt(x + y, "__attribute__", k)
    ensures DeclarationName(line) == DeclarationName(plain)
  {
    var decl := x + AttributeGroup(agap, ainner) + y;
    RemoveAttributesGroup(x, agap, ainner, y);
    RemoveAttributesNone(x + y);
    NoAttributeInSuffix(x, y);
    RemoveAttributesNone(y);
    StatementOfLine(line, gap, decl);
    StatementOfLine(plain, gap, x + y);
    StripStaticLine(line, gap, decl);
    StripStaticLine(plain, gap, x + y);
    DeclaratorIs(line, decl);
    DeclaratorIs(plain, x + y);
  }

  lemma NoAttributeInSuffix(x: string, y: string)
    requires forall k :: 0 <= k < |x + y| ==> !OccursAt(x + y, "__attribute__", k)
    ensures forall k :: 0 <= k < |y| ==> !OccursAt(y, "__attribute__", k)
  {
    forall k | 0 <= k < |y| ensures !OccursAt(y, "__attribute__", k) {
      assert !OccursAt(x + y, "__attribute__", |x| + k);
      if k + 13 <= |y| {
        assert (x + y)[|x| + k..|x| + k + 13] == y[k..k + 13];
      }
    }
  }

  /** A line `static cob_field name = {body};` contributes the initialiser
      with that name and the values of that body. */
  lemma LineFieldInitOf(line: string, g1: string, g2: string, name: string, g3: string,
                        g4: string, body: string, tail: string)
    requires line == FieldInitText(g1, g2, name, g3, g4, body, tail + ";")
    requires g1 != [] && g2 != [] && AllSpaces(g1) && AllSpaces(g2)
    requires AllSpaces(g3) && AllSpaces(g4)
    requires IsIdentifier(name)
    requires '}' !in body
    requires !Contains(line, "/*")
    ensures LineFieldInit(line) == Some(FieldInit(name, FieldValues(body)))
  {
    var decl := line[6 + |g1|..|line| - 1];
    assert line == "static" + g1 + decl + ";";
    assert decl[0] == 'c';
    StatementOfLine(line, g1, decl);
    FieldInitMatchOf(g1, g2, name, g3, g4, body, tail + ";");
  }

  // ---------------------------------------------------------------------
  // Properties of the scan
  // ---------------------------------------------------------------------

  /** Line `line` is one the scan looks at and it declares `n`. */
  predicate Declares(line: string, n: string) {
    !SkippedByScan(line) && DeclarationName(line) == Some(n)
  }

  /** Line `line` is one the scan looks at and it holds initialiser `fi`. */
  predicate Initialises(line: string, fi: FieldInit) {
    !SkippedByScan(line) && LineFieldInit(line) == Some(fi)
  }

  lemma NamesDeclaredByIs(line: string, n: string)
    ensures n in NamesDeclaredBy(line) <==> Declares(line, n)
  {
  }

  lemma InitsDeclaredByIs(line: string, fi: FieldInit)
    ensures fi in InitsDeclaredBy(line) <==> Initialises(line, fi)
  {
  }

  // The two folds, for any per-line function.

  lemma {:induction false} UnionOverAppend<T>(a: seq<string>, b: seq<string>, f: string -> set<T>)
    ensures UnionOver(a + b, f) == UnionOver(a, f) + UnionOver(b, f)
    decreases |b|
  {
    if b == [] {
      assert a + b == a;
    } else {
      var b0 := b[..|b| - 1];
      assert (a + b)[..|a + b| - 1] == a + b0;
      assert (a + b)[|a + b| - 1] == b[|b| - 1];
      UnionOverAppend(a, b0, f);
    }
  }

  lemma {:induction false} ConcatOverAppend<T>(a: seq<string>, b: seq<string>, f: string -> seq<T>)
    ensures ConcatOver(a + b, f) == ConcatOver(a, f) + ConcatOver(b, f)
    decreases |b|
  {
    if b == [] {
      assert a + b == a;
    } else {
      var b0 := b[..|b| - 1];
      assert (a + b)[..|a + b| - 1] == a + b0;
      assert (a + b)[|a + b| - 1] == b[|b| - 1];
      ConcatOverAppend(a, b0, f);
    }
  }

  lemma {:induction false} UnionOverHas<T>(lines: seq<string>, f: string -> set<T>, k: nat, x: T)
    requires k < |lines| && x in f(lines[k])
    ensures x in UnionOver(lines, f)
    decreases |lines|
  {
    var init := lines[..|lines| - 1];
    if k < |init| {
      assert init[k] == lines[k];
      UnionOverHas(init, f, k, x);
    }
  }

  lemma {:induction false} UnionOverFrom<T>(lines: seq<string>, f: string -> set<T>, x: T)
    returns (k: nat)
    requires x in UnionOver(lines, f)
    ensures k < |lines| && x in f(lines[k])
    decreases |lines|
  {
    var init := lines[..|lines| - 1];
    if x in UnionOver(init, f) {
      k := UnionOverFrom(init, f, x);
      assert init[k] == lines[k];
    } else {
      k := |lines| - 1;
    }
  }

  lemma {:induction false} ConcatOverHas<T>(lines: seq<string>, f: string -> seq<T>, k: nat, x: T)
    requires k < |lines| && x in f(lines[k])
    ensures x in ConcatOver(lines, f)
    decreases |lines|
  {
    var init := lines[..|lines| - 1];
    if k < |init| {
      assert init[k] == lines[k];
      ConcatOverHas(init, f, k, x);
    }
  }

  lemma {:induction false} ConcatOverFrom<T>(lines: seq<string>, f: string -> seq<T>, x: T)
    returns (k: nat)
    requires x in ConcatOver(lines, f)
    ensures k < |lines| && x in f(lines[k])
    decreases |lines|
  {
    var init := lines[..|lines| - 1];
    if x in ConcatOver(init, f) {
      k := ConcatOverFrom(init, f, x);
      assert init[k] == lines[k];
    } else {
      k := |lines| - 1;
    }
  }

  lemma {:induction false} OverNothing<T, U>(lines: seq<string>, f: string -> set<T>, g: string -> seq<U>)
    requires forall k :: 0 <= k < |lines| ==> f(lines[k]) == {} && g(lines[k]) == []
    ensures UnionOver(lines, f) == {} && ConcatOver(lines, g) == []
    decreases |lines|
  {
    if lines != [] {
      var init := lines[..|lines| - 1];
      assert forall k :: 0 <= k < |init| ==> init[k] == lines[k];
      OverNothing(init, f, g);
    }
  }

  // The scan itself.

  /** Scanning two runs of lines one after the other collects the names of both. */
  lemma ScannedNamesAppend(a: seq<string>, b: seq<string>)
    ensures ScannedNames(a + b) == ScannedNames(a) + ScannedNames(b)
  {
    UnionOverAppend(a, b, NamesDeclaredBy);
  }

  /** Scanning two runs of lines one after the other lists the initialisers of
      the first run, then those of the second. */
  lemma ScannedFieldInitsAppend(a: seq<string>, b: seq<string>)
    ensures ScannedFieldInits(a + b) == ScannedFieldInits(a) + ScannedFieldInits(b)
  {
    ConcatOverAppend(a, b, InitsDeclaredBy);
  }

  /** A name is collected exactly when some line the scan looks at declares it. */
  lemma ScannedNamesIff(lines: seq<string>, n: string)
    ensures n in ScannedNames(lines) <==> exists k :: 0 <= k < |lines| && Declares(lines[k], n)
  {
    if n in ScannedNames(lines) {
      var k := UnionOverFrom(lines, NamesDeclaredBy, n);
      NamesDeclaredByIs(lines[k], n);
    }
    if exists k :: 0 <= k < |lines| && Declares(lines[k], n) {
      var k :| 0 <= k < |lines| && Declares(lines[k], n);
      NamesDeclaredByIs(lines[k], n);
      UnionOverHas(lines, NamesDeclaredBy, k, n);
    }
  }

  /** An initialiser is collected exactly when some line the scan looks at holds it. */
  lemma ScannedFieldInitsIff(lines: seq<string>, fi: FieldInit)
    ensures fi in ScannedFieldInits(lines) <==>
      exists k :: 0 <= k < |lines| && Initialises(lines[k], fi)
  {
    if fi in ScannedFieldInits(lines) {
      var k := ConcatOverFrom(lines, InitsDeclaredBy, fi);
      InitsDeclaredByIs(lines[k], fi);
    }
    if exists k :: 0 <= k < |lines| && Initialises(lines[k], fi) {
      var k :| 0 <= k < |lines| && Initialises(lines[k], fi);
      InitsDeclaredByIs(lines[k], fi);
      ConcatOverHas(lines, InitsDeclaredBy, k, fi);
    }
  }

  /** Every collected name is a C identifier. */
  lemma ScannedNamesAreIdentifiers(lines: seq<string>)
    ensures forall n :: n in ScannedNames(lines) ==> IsIdentifier(n)
  {
    forall n | n in ScannedNames(lines) ensures IsIdentifier(n) {
      var k := UnionOverFrom(lines, NamesDeclaredBy, n);
      NamesDeclaredByIs(lines[k], n);
    }
  }

  lemma BlankOrCommentSkipped(line: string)
    ensures IsBlankOrComment(line) ==> NamesDeclaredBy(line) == {} && InitsDeclaredBy(line) == []
  {
  }

  lemma SplitAt<T>(s: seq<T>, n: nat)
    requires n <= |s|
    ensures s[..n] + s[n..] == s
  {
  }

  /** A run of blank and comment lines declares nothing. */
  lemma BlankLinesScanNothing(lines: seq<string>, n: nat)
    requires n <= |lines|
    requires forall k :: 0 <= k < n ==> IsBlankOrComment(lines[k])
    ensures ScannedNames(lines[..n]) == {} && ScannedFieldInits(lines[..n]) == []
  {
    var block := lines[..n];
    forall k | 0 <= k < |block|
      ensures NamesDeclaredBy(block[k]) == {} && InitsDeclaredBy(block[k]) == []
    {
      assert block[k] == lines[k];
      BlankOrCommentSkipped(lines[k]);
    }
    OverNothing(block, NamesDeclaredBy, InitsDeclaredBy);
  }

  /** Starting the scan after the leading comment block loses nothing: the block
      declares no name and no initialiser. */
  lemma LeadingBlockDeclaresNothing(lines: seq<string>)
    ensures ScannedNames(lines[LeadingCommentCount(lines)..]) == ScannedNames(lines)
    ensures ScannedFieldInits(lines[LeadingCommentCount(lines)..]) == ScannedFieldInits(lines)
  {
    var n := LeadingCommentCount(lines);
    BlankLinesScanNothing(lines, n);
    SplitAt(lines, n);
    ScannedNamesAppend(lines[..n], lines[n..]);
    ScannedFieldInitsAppend(lines[..n], lines[n..]);
  }
}
