/**
  What the locals transformer writes: the value rewriting of `transformValue`,
  the `cob_field` metadata assignments, the overlay header that redirects every
  collected identifier into the `cobol_state` structure, the cleanup header
  that undoes it, and the one-time insertion of the cleanup include into the
  patched C source.
*/
module LocalsOverlay {
  import opened Wrappers
  import opened JsStrings
  import opened StringOrder
  import opened LocalsDeclarations

  // ---------------------------------------------------------------------
  // transformValue
  // ---------------------------------------------------------------------

  /** The prefix through which the overlay reaches a relocated variable. */
  const StateAccess: string := "cobol_state."

  /** A registered name becomes a member of the state structure, and so does
      the operand of an address-of on a registered name; anything else is left
      as it is. */
  function TransformValue(ids: set<string>, v: string): (r: string)
    ensures r == v || r == StateAccess + v || (StartsWith(v, "&") && r == "&" + StateAccess + v[1..])
  {
    if v in ids then StateAccess + v
    else if StartsWith(v, "&") && v[1..] in ids then "&" + StateAccess + v[1..]
    else v
  }

  /** The three cases of the rewriting. */
  lemma TransformValueCases(ids: set<string>, v: string)
    ensures v in ids ==> TransformValue(ids, v) == StateAccess + v
    ensures v !in ids && StartsWith(v, "&") && v[1..] in ids ==>
      TransformValue(ids, v) == "&" + StateAccess + v[1..]
    ensures v !in ids && !(StartsWith(v, "&") && v[1..] in ids) ==> TransformValue(ids, v) == v
  {
  }

  /** Undoes `TransformValue` on values that did not already name the state. */
  function RestoreValue(r: string): string
  {
    if StartsWith(r, StateAccess) then r[|StateAccess|..]
    else if StartsWith(r, "&" + StateAccess) then "&" + r[|StateAccess| + 1..]
    else r
  }

  /** No information is lost: the rewritten value determines the original one,
      unless the original already started with the state prefix. */
  lemma TransformValueRoundTrip(ids: set<string>, v: string)
    requires !StartsWith(v, StateAccess) && !StartsWith(v, "&" + StateAccess)
    ensures RestoreValue(TransformValue(ids, v)) == v
  {
    var r := TransformValue(ids, v);
    if v in ids {
      assert r == StateAccess + v;
      assert r[..|StateAccess|] == StateAccess;
      assert r[|StateAccess|..] == v;
    } else if StartsWith(v, "&") && v[1..] in ids {
      assert r == "&" + StateAccess + v[1..];
      assert r[0] == '&';
      assert !StartsWith(r, StateAccess) by {
        assert StateAccess[0] == 'c';
      }
      assert r[..|StateAccess| + 1] == "&" + StateAccess;
      assert r[|StateAccess| + 1..] == v[1..];
      assert v == "&" + v[1..] by {
        assert v[..1] == "&";
      }
    }
  }

  /** A state member is not a C identifier: it holds a `.`. */
  lemma StateMemberNotIdentifier(x: string)
    ensures !IsIdentifier(StateAccess + x)
  {
    var s := StateAccess + x;
    assert s[11] == '.';
  }

  /** Rewriting a rewritten value changes nothing, since a state member is
      never a registered name. */
  lemma TransformValueIdempotent(ids: set<string>, v: string)
    requires forall id :: id in ids ==> IsIdentifier(id)
    ensures TransformValue(ids, TransformValue(ids, v)) == TransformValue(ids, v)
  {
    var r := TransformValue(ids, v);
    if v in ids {
      StateMemberNotIdentifier(v);
      assert r[0] == 'c';
    } else if StartsWith(v, "&") && v[1..] in ids {
      var s := "&" + StateAccess + v[1..];
      assert r == s;
      assert s[0] == '&';
      assert !IsIdentifier(s);
      assert s[1..] == StateAccess + v[1..];
      StateMemberNotIdentifier(v[1..]);
    }
  }

  // ---------------------------------------------------------------------
  // fieldInitAssignments
  // ---------------------------------------------------------------------

  /** The three `cob_field` members the assignments fill, in order. */
  const FieldMembers: seq<string> := ["size", "data", "attr"]

  /** `cobol_state.NAME.MEMBER = VALUE;` */
  function AssignmentLine(name: string, member: string, value: string): string
  {
    StateAccess + name + "." + member + " = " + value + ";"
  }

  /** `values.map(transformValue)`. */
  function TransformValues(ids: set<string>, values: seq<string>): (ts: seq<string>)
    ensures |ts| == |values|
    ensures forall k :: 0 <= k < |ts| ==> ts[k] == TransformValue(ids, values[k])
  {
    seq(|values|, k requires 0 <= k < |values| => TransformValue(ids, values[k]))
  }

  /** JavaScript truthiness of `ts[i]`: present and not the empty string. */
  predicate Truthy(ts: seq<string>, i: nat) {
    i < |ts| && ts[i] != ""
  }

  /** The assignments one initialiser contributes (lines 97-110 of the script). */
  function FieldInitAssignments(ids: set<string>, fi: FieldInit): (r: seq<string>)
    ensures |r| <= 3
  {
    var ts := TransformValues(ids, fi.values);
    (if Truthy(ts, 0) then [AssignmentLine(fi.name, FieldMembers[0], ts[0])] else [])
    + (if Truthy(ts, 1) then [AssignmentLine(fi.name, FieldMembers[1], ts[1])] else [])
    + (if Truthy(ts, 2) then [AssignmentLine(fi.name, FieldMembers[2], ts[2])] else [])
  }

  function Min(a: int, b: int): int {
    if a < b then a else b
  }

  /** With non-empty values, as the scan produces them, an initialiser yields
      one assignment for each of its first three values, to `.size`, `.data`
      and `.attr` in that order; further values are ignored. */
  lemma FieldInitAssignmentsOf(ids: set<string>, fi: FieldInit)
    requires forall k :: 0 <= k < |fi.values| ==> fi.values[k] != ""
    ensures |FieldInitAssignments(ids, fi)| == Min(3, |fi.values|)
    ensures forall k :: 0 <= k < |FieldInitAssignments(ids, fi)| ==>
      FieldInitAssignments(ids, fi)[k] ==
        AssignmentLine(fi.name, FieldMembers[k], TransformValue(ids, fi.values[k]))
  {
    var ts := TransformValues(ids, fi.values);
    forall k | 0 <= k < |ts| ensures ts[k] != "" {
      assert |ts[k]| >= |fi.values[k]|;
    }
  }

  /** `fieldInits.flatMap(...)`: every initialiser's assignments, in scan order. */
  function FieldAssignments(ids: set<string>, inits: seq<FieldInit>): (r: seq<string>)
    ensures |r| <= 3 * |inits|
  {
    if inits == [] then []
    else FieldInitAssignments(ids, inits[0]) + FieldAssignments(ids, inits[1..])
  }

  lemma AssignmentOnState(name: string, member: string, value: string)
    ensures StartsWith(AssignmentLine(name, member, value), StateAccess)
  {
    var line := AssignmentLine(name, member, value);
    assert line == StateAccess + (name + "." + member + " = " + value + ";");
    assert line[..|StateAccess|] == StateAccess;
  }

  lemma FieldInitAssignmentsOnState(ids: set<string>, fi: FieldInit)
    ensures forall x :: x in FieldInitAssignments(ids, fi) ==> StartsWith(x, StateAccess)
  {
    var ts := TransformValues(ids, fi.values);
    forall m | 0 <= m < 3 && m < |ts| {
      AssignmentOnState(fi.name, FieldMembers[m], ts[m]);
    }
  }

  /** Every assignment is a C statement on the state structure. */
  lemma {:induction false} FieldAssignmentsOnState(ids: set<string>, inits: seq<FieldInit>)
    ensures forall x :: x in FieldAssignments(ids, inits) ==> StartsWith(x, StateAccess)
  {
    if inits != [] {
      FieldInitAssignmentsOnState(ids, inits[0]);
      FieldAssignmentsOnState(ids, inits[1..]);
    }
  }

  // ---------------------------------------------------------------------
  // The overlay and cleanup headers
  // ---------------------------------------------------------------------

  const OverlayGuard: string := "COBOLANA_LOCALS_OVERLAY_H"
  const CleanupGuard: string := "COBOLANA_LOCALS_OVERLAY_CLEANUP_H"

  /** The one collected name that gets an alias instead of a macro. */
  const ProcedureParams: string := "cob_procedure_params"

  /** The runtime entry point the overlay redirects to its state-passing variant. */
  const GlobalEnter: string := "cob_module_global_enter"

  /** The parameters of `cob_module_global_enter`, passed on unchanged. */
  const GlobalEnterArgs: string := "module_ptr, glob_ptr, auto_init, entry, check"

  /** The rest of the entry-point define: its parameter list and a line continuation. */
  const GlobalEnterParams: string := "(" + GlobalEnterArgs + ") \\"

  /** The line that continues the entry-point define: the state-passing call. */
  const GlobalEnterStateCall: string := "  " + GlobalEnter + "_state(&cobol_state, " + GlobalEnterArgs + ")"

  function PushLine(n: string): string {
    "#pragma push_macro(\"" + n + "\")"
  }

  function PopLine(n: string): string {
    "#pragma pop_macro(\"" + n + "\")"
  }

  function UndefLine(n: string): string {
    "#undef " + n
  }

  function DefineLine(n: string, body: string): string {
    "#define " + n + body
  }

  /** The replacement text that sends `n` to its member of the state structure. */
  function Redirect(n: string): string {
    " (" + StateAccess + n + ")"
  }

  /** Save, drop and redefine macro `n`, then a blank line. */
  function MacroBlock(n: string): seq<string> {
    [PushLine(n), UndefLine(n), DefineLine(n, Redirect(n)), ""]
  }

  function MacroBlocks(names: seq<string>): (r: seq<string>)
    ensures |r| == 4 * |names|
  {
    if names == [] then [] else MacroBlock(names[0]) + MacroBlocks(names[1..])
  }

  function OverlayHead(): seq<string> {
    ["#ifndef " + OverlayGuard, DefineLine(OverlayGuard, ""), "",
     "COBOLState cobol_state;", "cobol_state_init(&cobol_state);"]
  }

  const ProcedureParamsAliasLine: string :=
    "cob_field **" + ProcedureParams + " = " + StateAccess + ProcedureParams + ";"

  function ProcedureParamsAlias(ids: set<string>): seq<string> {
    if ProcedureParams in ids then [ProcedureParamsAliasLine, ""] else []
  }

  function OverlayTail(): seq<string> {
    [PushLine(GlobalEnter), UndefLine(GlobalEnter), DefineLine(GlobalEnter, GlobalEnterParams),
     GlobalEnterStateCall,
     "", "#endif /* " + OverlayGuard + " */", ""]
  }

  /** The names that get a macro block: the collected identifiers without
      `cob_procedure_params`, sorted. */
  function MacroNames(ids: set<string>): (names: seq<string>)
    ensures StrictlySorted(names)
    ensures forall n :: n in names <==> n in ids && n != ProcedureParams
  {
    SortedStrings(ids - {ProcedureParams})
  }

  /** The lines of the overlay header (lines 112-140 of the script). */
  function OverlayLines(ids: set<string>, assignments: seq<string>): seq<string>
  {
    OverlayHead() + assignments + ProcedureParamsAlias(ids) + [""]
    + MacroBlocks(MacroNames(ids)) + OverlayTail()
  }

  /** Where the macro blocks start in the overlay. */
  function BlocksStart(ids: set<string>, assignments: seq<string>): nat
  {
    |OverlayHead()| + |assignments| + |ProcedureParamsAlias(ids)| + 1
  }

  function Reversed<T>(s: seq<T>): (r: seq<T>)
    ensures |r| == |s|
    ensures forall k :: 0 <= k < |s| ==> r[k] == s[|s| - 1 - k]
  {
    if s == [] then [] else Reversed(s[1..]) + [s[0]]
  }

  function PopLines(names: seq<string>): (r: seq<string>)
    ensures |r| == |names|
    ensures forall k :: 0 <= k < |names| ==> r[k] == PopLine(names[k])
  {
    seq(|names|, k requires 0 <= k < |names| => PopLine(names[k]))
  }

  function CleanupHead(): seq<string> {
    ["#ifndef " + CleanupGuard, DefineLine(CleanupGuard, ""), "", PopLine(GlobalEnter), ""]
  }

  function CleanupTail(): seq<string> {
    ["", "#endif /* " + CleanupGuard + " */", ""]
  }

  /** The lines of the cleanup header (lines 142-154 of the script): the
      entry-point macro is restored first, then the names in reverse order. */
  function CleanupLines(names: seq<string>): seq<string>
  {
    CleanupHead() + PopLines(Reversed(names)) + CleanupTail()
  }

  // ---------------------------------------------------------------------
  // Shape of the overlay
  // ---------------------------------------------------------------------

  /** The entry point's define ends in a line continuation, and the line
      after it, which the continuation joins to it, passes the state on to
      `cob_module_global_enter_state`. */
  lemma EntryPointContinued(ids: set<string>, assignments: seq<string>)
    ensures var lines := OverlayLines(ids, assignments);
      |lines| >= 7
      && lines[|lines| - 5] == DefineLine(GlobalEnter, GlobalEnterParams)
      && EndsWith(lines[|lines| - 5], "\\")
      && lines[|lines| - 4] == GlobalEnterStateCall
  {
    var pre := OverlayHead() + assignments + ProcedureParamsAlias(ids) + [""] + MacroBlocks(MacroNames(ids));
    assert OverlayLines(ids, assignments) == pre + OverlayTail();
    TailAt(pre, OverlayTail(), 2);
    TailAt(pre, OverlayTail(), 3);
    DefineContinues();
  }

  lemma TailAt<T>(pre: seq<T>, tail: seq<T>, i: nat)
    requires i < |tail|
    ensures (pre + tail)[|pre| + i] == tail[i]
  {
  }

  lemma DefineContinues()
    ensures EndsWith(DefineLine(GlobalEnter, GlobalEnterParams), "\\")
  {
    var s := DefineLine(GlobalEnter, GlobalEnterParams);
    assert s == ("#define " + GlobalEnter + "(" + GlobalEnterArgs + ") ") + "\\";
    OccursAtOver("#define " + GlobalEnter + "(" + GlobalEnterArgs + ") ", "\\", []);
  }

  lemma {:induction false} MacroBlocksAt(names: seq<string>, k: nat)
    requires k < |names|
    ensures MacroBlocks(names)[4 * k..4 * k + 4] == MacroBlock(names[k])
    decreases |names|
  {
    var first := MacroBlock(names[0]);
    var rest := MacroBlocks(names[1..]);
    assert MacroBlocks(names) == first + rest;
    if k == 0 {
      assert (first + rest)[..4] == first;
    } else {
      MacroBlocksAt(names[1..], k - 1);
      SliceAfter(first, rest, 4 * (k - 1), 4);
    }
  }

  lemma SliceAfter<T>(a: seq<T>, b: seq<T>, j: nat, n: nat)
    requires j + n <= |b|
    ensures |a| + j + n <= |a + b|
    ensures (a + b)[|a| + j..|a| + j + n] == b[j..j + n]
  {
  }

  lemma ConcatSlice<T>(l: seq<T>, a: seq<T>, b: seq<T>, c: seq<T>, k: nat, n: nat, m: seq<T>)
    requires l == a + b + c && k + n <= |b| && b[k..k + n] == m
    ensures |a| + k + n <= |l|
    ensures l[|a| + k..|a| + k + n] == m
  {
    assert (a + b + c)[|a|..] == b + c;
    assert (a + b + c)[|a| + k..|a| + k + n] == (b + c)[k..k + n];
  }

  /** The `k`-th name in sorted order owns the four lines at `BlocksStart + 4k`:
      its push, its undef, its redirecting define and a blank line. */
  lemma OverlayBlockAt(ids: set<string>, assignments: seq<string>, k: nat)
    requires k < |MacroNames(ids)|
    ensures var b := BlocksStart(ids, assignments) + 4 * k;
      b + 4 <= |OverlayLines(ids, assignments)| &&
      OverlayLines(ids, assignments)[b..b + 4] == MacroBlock(MacroNames(ids)[k])
  {
    var pre := OverlayHead() + assignments + ProcedureParamsAlias(ids) + [""];
    BlockBetween(pre, MacroNames(ids), OverlayTail(), BlocksStart(ids, assignments), k);
  }

  /** The `k`-th block of any list of names, placed between two runs of lines. */
  lemma BlockBetween(pre: seq<string>, names: seq<string>, tail: seq<string>, start: nat, k: nat)
    requires k < |names| && start == |pre|
    ensures start + 4 * k + 4 <= |pre + MacroBlocks(names) + tail|
    ensures (pre + MacroBlocks(names) + tail)[start + 4 * k..start + 4 * k + 4] == MacroBlock(names[k])
  {
    MacroBlocksAt(names, k);
    ConcatSlice(pre + MacroBlocks(names) + tail, pre, MacroBlocks(names), tail, 4 * k, 4, MacroBlock(names[k]));
  }

  /** `cob_procedure_params` gets the alias line right after the assignments
      exactly when it was collected, and never a macro block. */
  lemma ProcedureParamsAliased(ids: set<string>, assignments: seq<string>)
    ensures ProcedureParams !in MacroNames(ids)
    ensures var i := |OverlayHead()| + |assignments|;
      i < |OverlayLines(ids, assignments)| &&
      (OverlayLines(ids, assignments)[i] == ProcedureParamsAliasLine <==> ProcedureParams in ids)
  {
    var pre := OverlayHead() + assignments;
    SlotAfter(pre, ProcedureParamsAlias(ids), "", MacroBlocks(MacroNames(ids)), OverlayTail(), |pre|);
    assert |ProcedureParamsAliasLine| > 0;
  }

  /** The element right after `pre` in a five-part layout. */
  lemma SlotAfter<T>(pre: seq<T>, alias: seq<T>, mid: T, blocks: seq<T>, tail: seq<T>, start: nat)
    requires start == |pre|
    ensures start < |pre + alias + [mid] + blocks + tail|
    ensures (pre + alias + [mid] + blocks + tail)[start] == if alias == [] then mid else alias[0]
  {
  }

  // ---------------------------------------------------------------------
  // Inserting the cleanup include into the patched source
  // ---------------------------------------------------------------------

  const CleanupInclude: string := "#include \"cobolana_locals_cleanup.h\""
  const ModuleInitMarker: string := "static void COBOLANA_module_init"

  /** The include line and the blank line after it. */
  function Insertion(): string {
    CleanupInclude + "\n\n"
  }

  /** What happens to `cobolana_patched.c`. */
  datatype PatchOutcome =
    | NoPatchedFile              // the file does not exist: nothing is done
    | AlreadyIncluded            // the include is present: the file is left as it is
    | Inserted(text: string)     // the file is rewritten with this text
    | MissingModuleInit          // no marker: an error and exit status 1, no write

  /** Lines 166-181 of the script, given the file's text if it exists. */
  function PatchCleanupInclude(patched: Option<string>): PatchOutcome
  {
    match patched
    case None => NoPatchedFile
    case Some(src) =>
      if Contains(src, CleanupInclude) then AlreadyIncluded
      else
        match IndexOf(src, ModuleInitMarker)
        case None => MissingModuleInit
        case Some(i) => Inserted(src[..i] + Insertion() + src[i..])
  }

  /** Once inserted, the include is found on the next run, which leaves the
      file alone. */
  lemma PatchIdempotent(src: string)
    requires PatchCleanupInclude(Some(src)).Inserted?
    ensures PatchCleanupInclude(Some(PatchCleanupInclude(Some(src)).text)) == AlreadyIncluded
  {
    var i := IndexOf(src, ModuleInitMarker).value;
    var t := src[..i] + Insertion() + src[i..];
    assert t == src[..i] + CleanupInclude + ("\n\n" + src[i..]);
    OccursAtOver(src[..i], CleanupInclude, "\n\n" + src[i..]);
    ContainsOccurs(t, CleanupInclude);
  }

  /** The file is rejected exactly when it lacks both the include and the marker. */
  lemma PatchMissingMarker(src: string)
    ensures PatchCleanupInclude(Some(src)) == MissingModuleInit <==>
      !Contains(src, CleanupInclude) && !Contains(src, ModuleInitMarker)
  {
  }

  /** A window that holds a character the pattern lacks is not an occurrence. */
  lemma NotOccursWith(t: string, p: string, k: nat, j: nat)
    requires k <= j < k + |p| && j < |t|
    requires t[j] !in p
    ensures !OccursAt(t, p, k)
  {
  }

  /** After inserting `ins` at the first occurrence of `m`, the first
      occurrence of `m` is right behind `ins`, provided every window that
      overlaps `ins` holds one of three characters `m` lacks: `ins[0]`, or
      `ins[q]` with `q < |m|` for windows starting inside `ins`' head, or
      `ins[|ins| - 1]` for the others. */
  lemma FirstAfterInsertion(src: string, i: nat, ins: string, m: string, q: nat)
    requires IndexOf(src, m) == Some(i)
    requires 0 < q < |m| && q < |ins| <= q + |m| + 1
    requires ins[0] !in m && ins[q] !in m && ins[|ins| - 1] !in m
    ensures IndexOf(src[..i] + ins + src[i..], m) == Some(i + |ins|)
  {
    var t := src[..i] + ins + src[i..];
    var d := |ins|;
    assert t[i + d..] == src[i..];
    OccursAtTransfer(src, t, m, i, d);
    forall k | 0 <= k < i + d ensures !OccursAt(t, m, k) {
      NoOccurrenceBefore(src, i, ins, m, q, k);
    }
    IndexOfIs(t, m, i + d);
  }

  /** No occurrence of `m` starts before the end of the insertion. */
  lemma NoOccurrenceBefore(src: string, i: nat, ins: string, m: string, q: nat, k: nat)
    requires IndexOf(src, m) == Some(i)
    requires 0 < q < |m| && q < |ins| <= q + |m| + 1
    requires ins[0] !in m && ins[q] !in m && ins[|ins| - 1] !in m
    requires k < i + |ins|
    ensures !OccursAt(src[..i] + ins + src[i..], m, k)
  {
    var t := src[..i] + ins + src[i..];
    var d := |ins|;
    if k + |m| <= i {
      KeptBefore(src, i, ins, m, k);
    } else if k <= i {
      assert t[i] == ins[0];
      NotOccursWith(t, m, k, i);
    } else if k <= i + q {
      assert t[i + q] == ins[q];
      NotOccursWith(t, m, k, i + q);
    } else {
      assert t[i + d - 1] == ins[d - 1];
      NotOccursWith(t, m, k, i + d - 1);
    }
  }

  /** A window wholly before the insertion point is the source's own. */
  lemma KeptBefore(src: string, i: nat, ins: string, m: string, k: nat)
    requires IndexOf(src, m) == Some(i)
    requires 0 < |m| && k + |m| <= i
    ensures !OccursAt(src[..i] + ins + src[i..], m, k)
  {
    var t := src[..i] + ins + src[i..];
    assert !OccursAt(src, m, k);
    assert t[k..k + |m|] == src[k..k + |m|];
  }

  lemma InsertionChars()
    ensures |Insertion()| == 38
    ensures Insertion()[0] == '#' && Insertion()[9] == '"' && Insertion()[37] == '\n'
  {
  }

  lemma MarkerLacks()
    ensures |ModuleInitMarker| == 32
    ensures '#' !in ModuleInitMarker
    ensures '"' !in ModuleInitMarker
    ensures '\n' !in ModuleInitMarker
  {
    MarkerLacksHash();
    MarkerLacksQuote();
    MarkerLacksNewline();
  }

  lemma MarkerLacksHash()
    ensures '#' !in ModuleInitMarker
  {
  }

  lemma MarkerLacksQuote()
    ensures '"' !in ModuleInitMarker
  {
  }

  lemma MarkerLacksNewline()
    ensures '\n' !in ModuleInitMarker
  {
  }

  /** The insertion is placed right before the marker's first occurrence, and
      taking it out again gives back the original text. */
  lemma PatchPlacement(src: string)
    requires PatchCleanupInclude(Some(src)).Inserted?
    ensures var t := PatchCleanupInclude(Some(src)).text;
      var i := IndexOf(src, ModuleInitMarker).value;
      t[i..i + |Insertion()|] == Insertion() &&
      t[..i] + t[i + |Insertion()|..] == src &&
      IndexOf(t, ModuleInitMarker) == Some(i + |Insertion()|)
  {
    var i := IndexOf(src, ModuleInitMarker).value;
    var ins := Insertion();
    var t := src[..i] + ins + src[i..];
    assert t[..i] + t[i + |ins|..] == src by {
      assert t[..i] == src[..i];
      assert t[i + |ins|..] == src[i..];
    }
    assert t[i..i + |ins|] == ins;
    InsertionChars();
    MarkerLacks();
    FirstAfterInsertion(src, i, ins, ModuleInitMarker, 9);
  }

  /** An occurrence after the insertion point moves with the text after it. */
  lemma OccursAtTransfer(src: string, t: string, m: string, i: nat, d: nat)
    requires i <= |src| && |t| == |src| + d && t[i + d..] == src[i..]
    requires OccursAt(src, m, i)
    ensures OccursAt(t, m, i + d)
  {
    assert t[i + d..i + d + |m|] == t[i + d..][..|m|];
    assert src[i..i + |m|] == src[i..][..|m|];
  }

  // ---------------------------------------------------------------------
  // The whole run
  // ---------------------------------------------------------------------

  const OverlayInclude: string := "#include \"cobolana_locals_overlay.h\""

  /** Everything the script produces from the local header's text and, if it
      exists, the patched C source's text. */
  datatype Outputs = Outputs(overlay: string, cleanup: string, header: string, patch: PatchOutcome)

  /** The leading comment block, then the overlay include and an empty last line. */
  function HeaderLines(lines: seq<string>): seq<string>
  {
    lines[..LeadingCommentCount(lines)] + [OverlayInclude, ""]
  }

  function TransformLocals(source: string, patched: Option<string>): Outputs
  {
    var lines := SplitLines(source);
    var body := lines[LeadingCommentCount(lines)..];
    var ids := ScannedNames(body);
    var assignments := FieldAssignments(ids, ScannedFieldInits(body));
    Outputs(JoinLines(OverlayLines(ids, assignments)),
            JoinLines(CleanupLines(MacroNames(ids))),
            JoinLines(HeaderLines(lines)),
            PatchCleanupInclude(patched))
  }

  /** The process exit status: 1 exactly when the marker is missing. */
  function ExitStatus(out: Outputs): int
  {
    if out.patch == MissingModuleInit then 1 else 0
  }

  /** The script fails exactly when the patched source exists and holds
      neither the cleanup include nor the module-init marker. */
  lemma ExitStatusIff(source: string, patched: Option<string>)
    ensures ExitStatus(TransformLocals(source, patched)) == 1 <==>
      patched.Some? && !Contains(patched.value, CleanupInclude) && !Contains(patched.value, ModuleInitMarker)
  {
    assert TransformLocals(source, patched).patch == PatchCleanupInclude(patched);
    if patched.Some? {
      PatchMissingMarker(patched.value);
    }
  }
}
