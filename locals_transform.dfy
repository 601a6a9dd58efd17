/**
  The transformer as the script runs it: the comment loop, the scan that
  fills the identifier set and the initialiser list in place, the pushes onto
  the overlay and cleanup line arrays, and the run from the header's text to
  everything written. Each step is proved to produce what the functions of
  `LocalsDeclarations` and `LocalsOverlay` describe.
*/
module LocalsTransform {
  import opened Wrappers
  import opened JsStrings
  import opened StringOrder
  import opened LocalsDeclarations
  import opened LocalsOverlay

  /** Lines 19-28: collect the leading blank and comment lines. */
  method SplitLeadingComments(lines: seq<string>) returns (commentLines: seq<string>, firstNonCommentIndex: nat)
    ensures firstNonCommentIndex == LeadingCommentCount(lines)
    ensures commentLines == lines[..firstNonCommentIndex]
  {
    commentLines := [];
    firstNonCommentIndex := 0;
    while firstNonCommentIndex < |lines|
      invariant firstNonCommentIndex <= |lines|
      invariant forall k {:trigger IsBlankOrComment(lines[k])} :: 0 <= k < firstNonCommentIndex ==> IsBlankOrComment(lines[k])
      invariant |commentLines| == firstNonCommentIndex
      invariant forall k {:trigger commentLines[k]} :: 0 <= k < firstNonCommentIndex ==> commentLines[k] == lines[k]
    {
      if !IsBlankOrComment(lines[firstNonCommentIndex]) {
        break;
      }
      commentLines := commentLines + [lines[firstNonCommentIndex]];
      BlankPrefixStep(lines, firstNonCommentIndex);
      firstNonCommentIndex := firstNonCommentIndex + 1;
    }
    LeadingCommentCountIs(lines, firstNonCommentIndex);
    PrefixOf(commentLines, lines, firstNonCommentIndex);
  }

  /** The run of blank and comment lines grows by one. */
  lemma BlankPrefixStep(lines: seq<string>, n: nat)
    requires n < |lines| && IsBlankOrComment(lines[n])
    requires forall k {:trigger IsBlankOrComment(lines[k])} :: 0 <= k < n ==> IsBlankOrComment(lines[k])
    ensures forall k {:trigger IsBlankOrComment(lines[k])} :: 0 <= k < n + 1 ==> IsBlankOrComment(lines[k])
  {
  }

  /** A sequence that agrees with the first `n` elements of `s` is that prefix. */
  lemma PrefixOf<T>(p: seq<T>, s: seq<T>, n: nat)
    requires n <= |s| && |p| == n
    requires forall k {:trigger p[k]} :: 0 <= k < n ==> p[k] == s[k]
    ensures p == s[..n]
  {
  }

  /** The bookkeeping of an accumulator extended at its end. */
  lemma SnocStep<T>(now: seq<T>, before: seq<T>, acc: seq<T>, prev: seq<T>, add: seq<T>, next: seq<T>)
    requires now == before + add && before == acc + prev && next == prev + add
    ensures now == acc + next
  {
  }

  /** The bookkeeping of a set accumulator. */
  lemma UnionStep<T>(now: set<T>, before: set<T>, acc: set<T>, prev: set<T>, add: set<T>, next: set<T>)
    requires now == before + add && before == acc + prev && next == prev + add
    ensures now == acc + next
  {
  }

  lemma SliceToEnd<T>(s: seq<T>, a: nat)
    requires a <= |s|
    ensures s[a..|s|] == s[a..]
  {
  }

  lemma SkippedDeclaresNothing(line: string)
    requires SkippedByScan(line)
    ensures NamesDeclaredBy(line) == {} && InitsDeclaredBy(line) == []
  {
  }

  /** What `RegisterIdentifierFromLine` adds for a line the scan looks at. */
  lemma RegisterIsScan(line: string)
    requires !SkippedByScan(line)
    ensures NamesDeclaredBy(line) == (match DeclarationName(line) case Some(n) => {n} case None => {})
    ensures InitsDeclaredBy(line) == (match LineFieldInit(line) case Some(fi) => [fi] case None => [])
  {
  }

  /** The script's collected state: the identifier set and the initialiser list. */
  class LocalsScanner {
    var identifierSet: set<string>
    var fieldInits: seq<FieldInit>

    constructor()
      ensures identifierSet == {} && fieldInits == []
    {
      identifierSet := {};
      fieldInits := [];
    }

    /** Lines 35-70: record the line's `cob_field` initialiser, if any, and the
        name it declares, if any. */
    method RegisterIdentifierFromLine(rawLine: string)
      modifies this
      ensures fieldInits == old(fieldInits) +
        (match LineFieldInit(rawLine) case Some(fi) => [fi] case None => [])
      ensures identifierSet == old(identifierSet) +
        (match DeclarationName(rawLine) case Some(n) => {n} case None => {})
    {
      var fi := LineFieldInit(rawLine);
      if fi.Some? {
        fieldInits := fieldInits + [fi.value];
      }
      var name := DeclarationName(rawLine);
      if name.Some? {
        identifierSet := identifierSet + {name.value};
      }
    }

    /** One round of the loop in lines 73-80: a line that is not skipped is registered. */
    method ScanLine(line: string)
      modifies this
      ensures identifierSet == old(identifierSet) + NamesDeclaredBy(line)
      ensures fieldInits == old(fieldInits) + InitsDeclaredBy(line)
    {
      if !SkippedByScan(line) {
        RegisterIsScan(line);
        RegisterIdentifierFromLine(line);
      } else {
        SkippedDeclaresNothing(line);
      }
    }

    /** One round of the loop, with the line's effect recorded. */
    method ScanLineAt(lines: seq<string>, start: nat, i: nat, ghost names0: set<string>, ghost inits0: seq<FieldInit>,
                      ghost names: seq<set<string>>, ghost inits: seq<seq<FieldInit>>)
      returns (ghost names': seq<set<string>>, ghost inits': seq<seq<FieldInit>>)
      requires start <= i < |lines|
      requires LineEffects(lines[start..i], names, inits)
      requires identifierSet == names0 + UnionAll(names) && fieldInits == inits0 + ConcatAll(inits)
      modifies this
      ensures LineEffects(lines[start..i + 1], names', inits')
      ensures identifierSet == names0 + UnionAll(names') && fieldInits == inits0 + ConcatAll(inits')
    {
      ghost var namesBefore := identifierSet;
      ghost var initsBefore := fieldInits;
      ghost var added := NamesDeclaredBy(lines[i]);
      ghost var appended := InitsDeclaredBy(lines[i]);
      ScanLine(lines[i]);
      names' := names + [added];
      inits' := inits + [appended];
      assert lines[start..i + 1] == lines[start..i] + [lines[i]];
      EffectsSnoc(lines[start..i], names, inits, lines[i], added, appended);
      UnionAllSnoc(names, added);
      ConcatAllSnoc(inits, appended);
      UnionStep(identifierSet, namesBefore, names0, UnionAll(names), added, UnionAll(names'));
      SnocStep(fieldInits, initsBefore, inits0, ConcatAll(inits), appended, ConcatAll(inits'));
    }

    /** Lines 72-81: register every line from `start` on that is not blank, a
        comment or a preprocessor line. */
    method ScanDeclarations(lines: seq<string>, start: nat)
      requires start <= |lines|
      modifies this
      ensures identifierSet == old(identifierSet) + ScannedNames(lines[start..])
      ensures fieldInits == old(fieldInits) + ScannedFieldInits(lines[start..])
    {
      ghost var names0 := identifierSet;
      ghost var inits0 := fieldInits;
      ghost var names: seq<set<string>> := [];
      ghost var inits: seq<seq<FieldInit>> := [];
      for i := start to |lines|
        invariant LineEffects(lines[start..i], names, inits)
        invariant identifierSet == names0 + UnionAll(names) && fieldInits == inits0 + ConcatAll(inits)
      {
        names, inits := ScanLineAt(lines, start, i, names0, inits0, names, inits);
      }
      SliceToEnd(lines, start);
      EffectsScanned(lines[start..], names, inits);
    }

    /** Lines 112-140: the overlay's lines, pushed one after the other; the
        alias for `cob_procedure_params` replaces its macro, so the name leaves
        the set before the sorted names are taken. */
    method EmitOverlay(assignments: seq<string>) returns (overlayLines: seq<string>, identifiers: seq<string>)
      modifies this
      ensures overlayLines == OverlayLines(old(identifierSet), assignments)
      ensures identifiers == MacroNames(old(identifierSet))
      ensures identifierSet == old(identifierSet) - {ProcedureParams}
      ensures fieldInits == old(fieldInits)
    {
      ghost var ids := identifierSet;
      overlayLines := PushAll(OverlayHead(), assignments);
      if ProcedureParams in identifierSet {
        overlayLines := overlayLines + [ProcedureParamsAliasLine, ""];
        identifierSet := identifierSet - {ProcedureParams};
      } else {
        assert identifierSet - {ProcedureParams} == identifierSet;
      }
      assert overlayLines == OverlayHead() + assignments + ProcedureParamsAlias(ids);
      overlayLines := overlayLines + [""];
      identifiers := SortedStrings(identifierSet);
      assert identifiers == MacroNames(ids);
      overlayLines := PushMacroBlocks(overlayLines, identifiers);
      overlayLines := overlayLines + OverlayTail();
    }
  }

  /** Lines 118-120: push each assignment in turn. */
  method PushAll(acc: seq<string>, xs: seq<string>) returns (r: seq<string>)
    ensures r == acc + xs
  {
    r := acc;
    var j := 0;
    while j < |xs|
      invariant j <= |xs|
      invariant r == acc + xs[..j]
    {
      assert xs[..j + 1] == xs[..j] + [xs[j]];
      r := r + [xs[j]];
      j := j + 1;
    }
    assert xs[..j] == xs;
  }

  /** Lines 127-133: push the four lines of each name's block in turn. */
  method PushMacroBlocks(acc: seq<string>, names: seq<string>) returns (r: seq<string>)
    ensures r == acc + MacroBlocks(names)
  {
    r := acc;
    var k := 0;
    while k < |names|
      invariant k <= |names|
      invariant r == acc + MacroBlocks(names[..k])
    {
      MacroBlocksSnoc(names[..k], names[k]);
      assert names[..k + 1] == names[..k] + [names[k]];
      var name := names[k];
      r := r + [PushLine(name), UndefLine(name), DefineLine(name, Redirect(name)), ""];
      k := k + 1;
    }
    assert names[..k] == names;
  }

  lemma {:induction false} MacroBlocksSnoc(names: seq<string>, n: string)
    ensures MacroBlocks(names + [n]) == MacroBlocks(names) + MacroBlock(n)
  {
    if names == [] {
      assert [n][1..] == [];
    } else {
      assert (names + [n])[1..] == names[1..] + [n];
      MacroBlocksSnoc(names[1..], n);
    }
  }

  /** Lines 142-154: the cleanup header, popping the names from last to first. */
  method EmitCleanup(identifiers: seq<string>) returns (cleanupLines: seq<string>)
    ensures cleanupLines == CleanupLines(identifiers)
  {
    cleanupLines := CleanupHead();
    var pops := PopLines(Reversed(identifiers));
    var i := |identifiers| - 1;
    while i >= 0
      invariant -1 <= i < |identifiers|
      invariant cleanupLines == CleanupHead() + pops[..|identifiers| - 1 - i]
    {
      var n := |identifiers| - 1 - i;
      assert pops[..n + 1] == pops[..n] + [PopLine(identifiers[i])];
      cleanupLines := cleanupLines + [PopLine(identifiers[i])];
      i := i - 1;
    }
    assert pops[..|identifiers|] == pops;
    cleanupLines := cleanupLines + CleanupTail();
  }

  /** The whole script, from the local header's text and the patched
      source's text (if that file exists) to what it writes. */
  method RunTransform(source: string, patched: Option<string>) returns (out: Outputs)
    ensures out == TransformLocals(source, patched)
  {
    var lines := SplitLines(source);
    var commentLines, firstNonCommentIndex := SplitLeadingComments(lines);
    ghost var body := lines[firstNonCommentIndex..];
    var scanner := new LocalsScanner();
    scanner.ScanDeclarations(lines, firstNonCommentIndex);
    assert {} + ScannedNames(body) == ScannedNames(body);
    assert [] + ScannedFieldInits(body) == ScannedFieldInits(body);
    var ids := scanner.identifierSet;
    var assignments := FieldAssignments(ids, scanner.fieldInits);
    var overlayLines, identifiers := scanner.EmitOverlay(assignments);
    var cleanupLines := EmitCleanup(identifiers);
    var wrapperLines := commentLines + [OverlayInclude, ""];
    out := Outputs(JoinLines(overlayLines), JoinLines(cleanupLines), JoinLines(wrapperLines),
                   PatchCleanupInclude(patched));
    TransformLocalsIs(source, patched, lines, body, ids, assignments);
  }

  /** `TransformLocals` spelled out for given intermediate values. */
  lemma TransformLocalsIs(source: string, patched: Option<string>, lines: seq<string>,
                          body: seq<string>, ids: set<string>, assignments: seq<string>)
    requires lines == SplitLines(source)
    requires body == lines[LeadingCommentCount(lines)..]
    requires ids == ScannedNames(body)
    requires assignments == FieldAssignments(ids, ScannedFieldInits(body))
    ensures TransformLocals(source, patched) ==
      Outputs(JoinLines(OverlayLines(ids, assignments)),
              JoinLines(CleanupLines(MacroNames(ids))),
              JoinLines(HeaderLines(lines)),
              PatchCleanupInclude(patched))
  {
  }

  /** The union of a sequence of sets, accumulated from the first on. */
  function UnionAll<T>(ss: seq<set<T>>): set<T>
  {
    if ss == [] then {} else UnionAll(ss[..|ss| - 1]) + ss[|ss| - 1]
  }

  /** The concatenation of a sequence of sequences. */
  function ConcatAll<T>(ss: seq<seq<T>>): seq<T>
  {
    if ss == [] then [] else ConcatAll(ss[..|ss| - 1]) + ss[|ss| - 1]
  }

  /** `names` and `inits` record, line by line, what each line of `seen` declares. */
  ghost predicate LineEffects(seen: seq<string>, names: seq<set<string>>, inits: seq<seq<FieldInit>>)
  {
    |names| == |seen| && |inits| == |seen| &&
    forall k {:trigger seen[k]} :: 0 <= k < |seen| ==>
      names[k] == NamesDeclaredBy(seen[k]) && inits[k] == InitsDeclaredBy(seen[k])
  }

  /** Line by line effects add up to the scan. */
  lemma {:induction false} EffectsScanned(seen: seq<string>, names: seq<set<string>>, inits: seq<seq<FieldInit>>)
    requires LineEffects(seen, names, inits)
    ensures UnionAll(names) == ScannedNames(seen)
    ensures ConcatAll(inits) == ScannedFieldInits(seen)
  {
    if seen != [] {
      var n := |seen| - 1;
      assert seen[n] == seen[n];
      EffectsScanned(seen[..n], names[..n], inits[..n]);
    }
  }

  lemma UnionAllSnoc<T>(ss: seq<set<T>>, s: set<T>)
    ensures UnionAll(ss + [s]) == UnionAll(ss) + s
  {
    assert (ss + [s])[..|ss|] == ss;
  }

  lemma ConcatAllSnoc<T>(ss: seq<seq<T>>, s: seq<T>)
    ensures ConcatAll(ss + [s]) == ConcatAll(ss) + s
  {
    assert (ss + [s])[..|ss|] == ss;
  }

  lemma EffectsSnoc(seen: seq<string>, names: seq<set<string>>, inits: seq<seq<FieldInit>>,
                    line: string, added: set<string>, appended: seq<FieldInit>)
    requires LineEffects(seen, names, inits)
    requires added == NamesDeclaredBy(line) && appended == InitsDeclaredBy(line)
    ensures LineEffects(seen + [line], names + [added], inits + [appended])
  {
    var seen' := seen + [line];
    forall k | 0 <= k < |seen'|
      ensures (names + [added])[k] == NamesDeclaredBy(seen'[k])
      ensures (inits + [appended])[k] == InitsDeclaredBy(seen'[k])
    {
      if k < |seen| {
        assert seen'[k] == seen[k];
      }
    }
  }
}
