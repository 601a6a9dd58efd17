/**
  How a C preprocessor reads the two generated headers. Only the directive
  shapes the headers use are recognised: `#pragma push_macro("N")`,
  `#pragma pop_macro("N")`, `#undef N` and `#define N...`; every other line
  leaves the macro table alone. Each macro has a current definition and a
  stack of saved ones; `push_macro` saves the current definition,
  `pop_macro` restores the last saved one and does nothing when none is
  saved. Conditional inclusion is not modelled: each header is read once.
  Neither are line continuation and the parameters of a function-like macro:
  a `#define` records the rest of its own line as the definition.
*/
module MacroStack {
  import opened Wrappers
  import opened JsStrings
  import opened StringOrder
  import opened LocalsDeclarations
  import opened LocalsOverlay

  datatype Directive =
    | PushMacro(name: string)
    | PopMacro(name: string)
    | Undef(name: string)
    | Define(name: string, body: string)
    | Other

  const PushPrefix: string := "#pragma push_macro(\""
  const PopPrefix: string := "#pragma pop_macro(\""
  const QuoteClose: string := "\")"

  /** The directive a line holds. */
  function Parse(line: string): Directive
  {
    if line == [] || line[0] != '#' then Other
    else if StartsWith(line, PushPrefix) && |PushPrefix| + |QuoteClose| <= |line| && EndsWith(line, QuoteClose) then
      PushMacro(line[|PushPrefix|..|line| - |QuoteClose|])
    else if StartsWith(line, PopPrefix) && |PopPrefix| + |QuoteClose| <= |line| && EndsWith(line, QuoteClose) then
      PopMacro(line[|PopPrefix|..|line| - |QuoteClose|])
    else if StartsWith(line, "#undef ") then Undef(line[7..])
    else if StartsWith(line, "#define ") then
      var e := SkipWord(line, 8);
      Define(line[8..e], line[e..])
    else Other
  }

  function MapSeq<A, B>(s: seq<A>, f: A -> B): (r: seq<B>)
    ensures |r| == |s|
    ensures forall k :: 0 <= k < |s| ==> r[k] == f(s[k])
  {
    seq(|s|, k requires 0 <= k < |s| => f(s[k]))
  }

  lemma MapSeqAppend<A, B>(a: seq<A>, b: seq<A>, f: A -> B)
    ensures MapSeq(a + b, f) == MapSeq(a, f) + MapSeq(b, f)
  {
  }

  /** The directives of a header, line by line. */
  function Directives(lines: seq<string>): (ds: seq<Directive>)
    ensures |ds| == |lines|
  {
    MapSeq(lines, Parse)
  }

  // ---------------------------------------------------------------------
  // Reading the generated lines
  // ---------------------------------------------------------------------

  /** A line differs from a prefix at index `i`, so it does not start with it. */
  lemma NotStartsWithAt(s: string, p: string, i: nat)
    requires i < |s| && i < |p| && s[i] != p[i]
    ensures !StartsWith(s, p)
  {
  }

  lemma ParsePush(n: string)
    ensures Parse(PushLine(n)) == PushMacro(n)
  {
    var line := PushLine(n);
    assert line == PushPrefix + n + QuoteClose;
    OccursAtOver([], PushPrefix, n + QuoteClose);
    assert line == PushPrefix + n + QuoteClose;
    OccursAtOver(PushPrefix + n, QuoteClose, []);
    assert line[|PushPrefix|..|line| - |QuoteClose|] == n;
  }

  lemma ParsePop(n: string)
    ensures Parse(PopLine(n)) == PopMacro(n)
  {
    var line := PopLine(n);
    assert line == PopPrefix + n + QuoteClose;
    NotStartsWithAt(line, PushPrefix, 9);
    OccursAtOver([], PopPrefix, n + QuoteClose);
    OccursAtOver(PopPrefix + n, QuoteClose, []);
    assert line[|PopPrefix|..|line| - |QuoteClose|] == n;
    ParseIsPop(line);
  }

  /** A `#` line that is a pop and not a push. */
  lemma ParseIsPop(line: string)
    requires line != [] && line[0] == '#' && !StartsWith(line, PushPrefix)
    requires StartsWith(line, PopPrefix) && |PopPrefix| + |QuoteClose| <= |line| && EndsWith(line, QuoteClose)
    ensures Parse(line) == PopMacro(line[|PopPrefix|..|line| - |QuoteClose|])
  {
  }

  lemma ParseUndef(n: string)
    ensures Parse(UndefLine(n)) == Undef(n)
  {
    var line := UndefLine(n);
    NotStartsWithAt(line, PushPrefix, 1);
    NotStartsWithAt(line, PopPrefix, 1);
    OccursAtOver([], "#undef ", n);
    assert line[7..] == n;
  }

  /** A define of a name made of word characters, followed by a replacement
      that does not continue the name. */
  lemma ParseDefine(n: string, body: string)
    requires forall k :: 0 <= k < |n| ==> IsWordChar(n[k])
    requires body == [] || !IsWordChar(body[0])
    ensures Parse(DefineLine(n, body)) == Define(n, body)
  {
    var line := DefineLine(n, body);
    NotStartsWithAt(line, PushPrefix, 1);
    NotStartsWithAt(line, PopPrefix, 1);
    NotStartsWithAt(line, "#undef ", 1);
    OccursAtOver([], "#define ", n + body);
    assert line == "#define " + n + body;
    SkipWordOver("#define ", n, body);
    assert line[8..8 + |n|] == n;
    assert line[8 + |n|..] == body;
  }

  /** A `#` line whose second character starts none of the recognised
      directives. */
  lemma ParseHashOther(kw: string, rest: string)
    requires |kw| >= 2 && kw[0] == '#'
    requires kw[1] != 'p' && kw[1] != 'u' && kw[1] != 'd'
    ensures Parse(kw + rest) == Other
  {
    var line := kw + rest;
    assert line[0] == '#' && line[1] == kw[1];
    NotStartsWithAt(line, PushPrefix, 1);
    NotStartsWithAt(line, PopPrefix, 1);
    NotStartsWithAt(line, "#undef ", 1);
    NotStartsWithAt(line, "#define ", 1);
  }

  lemma EndifOther(guard: string)
    ensures Parse("#endif /* " + guard + " */") == Other
  {
    var kw := "#endif /* ";
    assert kw[1] == 'e';
    ParseHashOther(kw, guard + " */");
    assert kw + guard + " */" == kw + (guard + " */");
  }

  /** A line that is not a preprocessor line. */
  predicate PlainLine(line: string) {
    line == [] || line[0] != '#'
  }

  function Others(n: nat): (ds: seq<Directive>)
    ensures |ds| == n
    ensures forall k :: 0 <= k < n ==> ds[k] == Other
  {
    seq(n, k => Other)
  }

  lemma DirectivesPlain(lines: seq<string>)
    requires forall k :: 0 <= k < |lines| ==> PlainLine(lines[k])
    ensures Directives(lines) == Others(|lines|)
  {
  }

  predicate WordName(n: string) {
    forall k :: 0 <= k < |n| ==> IsWordChar(n[k])
  }

  lemma GuardsAreWords()
    ensures WordName(OverlayGuard) && WordName(CleanupGuard) && WordName(GlobalEnter)
  {
    OverlayGuardIsWord();
    CleanupGuardIsWord();
    GlobalEnterIsWord();
  }

  lemma OverlayGuardIsWord()
    ensures WordName(OverlayGuard)
  {
  }

  lemma CleanupGuardIsWord()
    ensures WordName(CleanupGuard)
  {
  }

  lemma GlobalEnterIsWord()
    ensures WordName(GlobalEnter)
  {
  }

  lemma RedirectStartsWithSpace(n: string)
    ensures Redirect(n)[0] == ' '
  {
  }

  // ---------------------------------------------------------------------
  // The directives of the overlay and of the cleanup header
  // ---------------------------------------------------------------------

  function BlockDirectives(n: string): seq<Directive> {
    [PushMacro(n), Undef(n), Define(n, Redirect(n))] + [Other]
  }

  function BlocksDirectives(names: seq<string>): (ds: seq<Directive>)
    ensures |ds| == 4 * |names|
  {
    if names == [] then [] else BlockDirectives(names[0]) + BlocksDirectives(names[1..])
  }

  function OverlayHeadDirectives(): seq<Directive> {
    [Other, Define(OverlayGuard, ""), Other, Other, Other]
  }

  function OverlayTailDirectives(): seq<Directive> {
    [PushMacro(GlobalEnter), Undef(GlobalEnter), Define(GlobalEnter, GlobalEnterParams), Other, Other, Other, Other]
  }

  function CleanupHeadDirectives(): seq<Directive> {
    [Other, Define(CleanupGuard, ""), Other, PopMacro(GlobalEnter), Other]
  }

  function PopDirectives(names: seq<string>): (ds: seq<Directive>)
    ensures |ds| == |names|
    ensures forall k :: 0 <= k < |names| ==> ds[k] == PopMacro(names[k])
  {
    seq(|names|, k requires 0 <= k < |names| => PopMacro(names[k]))
  }

  lemma DirectivesBlock(n: string)
    requires WordName(n)
    ensures Directives(MacroBlock(n)) == BlockDirectives(n)
  {
    ParsePush(n);
    ParseUndef(n);
    RedirectStartsWithSpace(n);
    ParseDefine(n, Redirect(n));
    assert Parse("") == Other;
    MappedFour(Parse, PushLine(n), UndefLine(n), DefineLine(n, Redirect(n)), "",
               PushMacro(n), Undef(n), Define(n, Redirect(n)), Other);
  }

  lemma MappedFour<A, B>(f: A -> B, l0: A, l1: A, l2: A, l3: A, d0: B, d1: B, d2: B, d3: B)
    requires f(l0) == d0 && f(l1) == d1 && f(l2) == d2 && f(l3) == d3
    ensures MapSeq([l0, l1, l2, l3], f) == [d0, d1, d2] + [d3]
  {
  }

  lemma {:induction false} DirectivesBlocks(names: seq<string>)
    requires forall k :: 0 <= k < |names| ==> WordName(names[k])
    ensures Directives(MacroBlocks(names)) == BlocksDirectives(names)
  {
    if names != [] {
      DirectivesBlock(names[0]);
      DirectivesBlocks(names[1..]);
      MapSeqAppend(MacroBlock(names[0]), MacroBlocks(names[1..]), Parse);
    }
  }

  lemma DirectivesOverlayHead()
    ensures Directives(OverlayHead()) == OverlayHeadDirectives()
  {
    ParseHashOther("#ifndef ", OverlayGuard);
    GuardsAreWords();
    ParseDefine(OverlayGuard, "");
  }

  lemma DirectivesOverlayTail()
    ensures Directives(OverlayTail()) == OverlayTailDirectives()
  {
    GuardsAreWords();
    assert GlobalEnterParams[0] == '(';
    var call := "  " + GlobalEnter + "_state(&cobol_state, " + GlobalEnterArgs + ")";
    assert call[0] == ' ';
    TailDirectives(GlobalEnter, GlobalEnterParams, call, OverlayGuard);
  }

  /** The shape of the overlay's last lines, for any entry-point name. */
  lemma TailDirectives(g: string, params: string, call: string, guard: string)
    requires WordName(g) && |params| > 0 && params[0] == '(' && |call| > 0 && call[0] == ' '
    ensures Directives([PushLine(g), UndefLine(g), DefineLine(g, params), call, "", "#endif /* " + guard + " */", ""])
      == [PushMacro(g), Undef(g), Define(g, params), Other, Other, Other, Other]
  {
    ParsePush(g);
    ParseUndef(g);
    ParseDefine(g, params);
    EndifOther(guard);
    assert Parse(call) == Other;
    assert Parse("") == Other;
    ParsedSeven(PushLine(g), UndefLine(g), DefineLine(g, params), call, "", "#endif /* " + guard + " */", "",
                PushMacro(g), Undef(g), Define(g, params), Other, Other, Other, Other);
  }

  lemma ParsedSeven(l0: string, l1: string, l2: string, l3: string, l4: string, l5: string, l6: string,
                    d0: Directive, d1: Directive, d2: Directive, d3: Directive, d4: Directive, d5: Directive,
                    d6: Directive)
    requires Parse(l0) == d0 && Parse(l1) == d1 && Parse(l2) == d2 && Parse(l3) == d3
    requires Parse(l4) == d4 && Parse(l5) == d5 && Parse(l6) == d6
    ensures Directives([l0, l1, l2, l3, l4, l5, l6]) == [d0, d1, d2, d3, d4, d5, d6]
  {
    MappedSeven(Parse, l0, l1, l2, l3, l4, l5, l6, d0, d1, d2, d3, d4, d5, d6);
  }

  lemma MappedSeven<A, B>(f: A -> B, l0: A, l1: A, l2: A, l3: A, l4: A, l5: A, l6: A,
                         d0: B, d1: B, d2: B, d3: B, d4: B, d5: B, d6: B)
    requires f(l0) == d0 && f(l1) == d1 && f(l2) == d2 && f(l3) == d3
    requires f(l4) == d4 && f(l5) == d5 && f(l6) == d6
    ensures MapSeq([l0, l1, l2, l3, l4, l5, l6], f) == [d0, d1, d2, d3, d4, d5, d6]
  {
  }

  lemma DirectivesCleanupHead()
    ensures Directives(CleanupHead()) == CleanupHeadDirectives()
  {
    GuardsAreWords();
    HeadDirectives(CleanupGuard, GlobalEnter);
  }

  /** The shape of the cleanup header's first lines, for any guard and name. */
  lemma HeadDirectives(guard: string, g: string)
    requires WordName(guard)
    ensures Directives(["#ifndef " + guard, DefineLine(guard, ""), "", PopLine(g), ""])
      == [Other, Define(guard, ""), Other, PopMacro(g), Other]
  {
    ParseHashOther("#ifndef ", guard);
    ParseDefine(guard, "");
    ParsePop(g);
    assert Parse("") == Other;
    ParsedFive("#ifndef " + guard, DefineLine(guard, ""), "", PopLine(g), "",
               Other, Define(guard, ""), Other, PopMacro(g), Other);
  }

  lemma ParsedFive(l0: string, l1: string, l2: string, l3: string, l4: string,
                   d0: Directive, d1: Directive, d2: Directive, d3: Directive, d4: Directive)
    requires Parse(l0) == d0 && Parse(l1) == d1 && Parse(l2) == d2 && Parse(l3) == d3 && Parse(l4) == d4
    ensures Directives([l0, l1, l2, l3, l4]) == [d0, d1, d2, d3, d4]
  {
    MappedFive(Parse, l0, l1, l2, l3, l4, d0, d1, d2, d3, d4);
  }

  lemma MappedFive<A, B>(f: A -> B, l0: A, l1: A, l2: A, l3: A, l4: A, d0: B, d1: B, d2: B, d3: B, d4: B)
    requires f(l0) == d0 && f(l1) == d1 && f(l2) == d2 && f(l3) == d3 && f(l4) == d4
    ensures MapSeq([l0, l1, l2, l3, l4], f) == [d0, d1, d2, d3, d4]
  {
  }

  lemma DirectivesCleanupTail()
    ensures Directives(CleanupTail()) == Others(3)
  {
    EndifOther(CleanupGuard);
  }

  lemma DirectivesPops(names: seq<string>)
    ensures Directives(PopLines(names)) == PopDirectives(names)
  {
    forall k | 0 <= k < |names| ensures Parse(PopLines(names)[k]) == PopMacro(names[k]) {
      ParsePop(names[k]);
    }
  }

  predicate PlainLines(lines: seq<string>) {
    forall k :: 0 <= k < |lines| ==> PlainLine(lines[k])
  }

  lemma AliasPlain(ids: set<string>)
    ensures PlainLines(ProcedureParamsAlias(ids))
  {
    assert ProcedureParamsAliasLine[0] == 'c';
  }

  /** The overlay's directives, laid out as the overlay's lines are. */
  function OverlayDirectives(ids: set<string>, assignments: seq<string>): seq<Directive>
  {
    OverlayHeadDirectives() + Others(|assignments|) + Others(|ProcedureParamsAlias(ids)|) + Others(1)
    + BlocksDirectives(MacroNames(ids)) + OverlayTailDirectives()
  }

  function CleanupDirectives(names: seq<string>): seq<Directive>
  {
    CleanupHeadDirectives() + PopDirectives(Reversed(names)) + Others(3)
  }

  lemma MacroNamesWords(ids: set<string>)
    requires forall id :: id in ids ==> WordName(id)
    ensures forall k :: 0 <= k < |MacroNames(ids)| ==> WordName(MacroNames(ids)[k])
  {
    var names := MacroNames(ids);
    forall k | 0 <= k < |names| ensures WordName(names[k]) {
      assert names[k] in names;
    }
  }

  /** The overlay read directive by directive: the guard, nothing while the
      assignments and the alias run, the macro blocks, then the entry-point
      redirection. */
  lemma DirectivesOverlay(ids: set<string>, assignments: seq<string>)
    requires forall id :: id in ids ==> WordName(id)
    requires PlainLines(assignments)
    ensures Directives(OverlayLines(ids, assignments)) == OverlayDirectives(ids, assignments)
  {
    var names := MacroNames(ids);
    var alias := ProcedureParamsAlias(ids);
    var x2 := OverlayHead() + assignments;
    var x3 := x2 + alias;
    var x4 := x3 + [""];
    var x5 := x4 + MacroBlocks(names);
    MapSeqAppend(x5, OverlayTail(), Parse);
    MapSeqAppend(x4, MacroBlocks(names), Parse);
    MapSeqAppend(x3, [""], Parse);
    MapSeqAppend(x2, alias, Parse);
    MapSeqAppend(OverlayHead(), assignments, Parse);
    DirectivesOverlayHead();
    DirectivesPlain(assignments);
    AliasPlain(ids);
    DirectivesPlain(alias);
    DirectivesPlain([""]);
    MacroNamesWords(ids);
    DirectivesBlocks(names);
    DirectivesOverlayTail();
  }

  lemma DirectivesCleanup(names: seq<string>)
    ensures Directives(CleanupLines(names)) == CleanupDirectives(names)
  {
    var pops := PopLines(Reversed(names));
    MapSeqAppend(CleanupHead() + pops, CleanupTail(), Parse);
    MapSeqAppend(CleanupHead(), pops, Parse);
    DirectivesCleanupHead();
    DirectivesPops(Reversed(names));
    DirectivesCleanupTail();
  }

  // ---------------------------------------------------------------------
  // Pushed and popped names
  // ---------------------------------------------------------------------

  /** The names saved by `push_macro`, in order. */
  function PushedNames(ds: seq<Directive>): seq<string>
  {
    if ds == [] then []
    else (if ds[0].PushMacro? then [ds[0].name] else []) + PushedNames(ds[1..])
  }

  /** The names restored by `pop_macro`, in order. */
  function PoppedNames(ds: seq<Directive>): seq<string>
  {
    if ds == [] then []
    else (if ds[0].PopMacro? then [ds[0].name] else []) + PoppedNames(ds[1..])
  }

  lemma {:induction false} PushedNamesAppend(a: seq<Directive>, b: seq<Directive>)
    ensures PushedNames(a + b) == PushedNames(a) + PushedNames(b)
  {
    if a != [] {
      assert (a + b)[1..] == a[1..] + b;
      PushedNamesAppend(a[1..], b);
    } else {
      assert a + b == b;
    }
  }

  lemma {:induction false} PoppedNamesAppend(a: seq<Directive>, b: seq<Directive>)
    ensures PoppedNames(a + b) == PoppedNames(a) + PoppedNames(b)
  {
    if a != [] {
      assert (a + b)[1..] == a[1..] + b;
      PoppedNamesAppend(a[1..], b);
    } else {
      assert a + b == b;
    }
  }

  lemma {:induction false} NoneSaved(ds: seq<Directive>)
    requires forall k :: 0 <= k < |ds| ==> !ds[k].PushMacro? && !ds[k].PopMacro?
    ensures PushedNames(ds) == [] && PoppedNames(ds) == []
  {
    if ds != [] {
      NoneSaved(ds[1..]);
    }
  }

  lemma OneSaved(d: Directive, ds: seq<Directive>)
    requires forall k :: 0 <= k < |ds| ==> !ds[k].PushMacro? && !ds[k].PopMacro?
    ensures PushedNames([d] + ds) == (if d.PushMacro? then [d.name] else [])
    ensures PoppedNames([d] + ds) == (if d.PopMacro? then [d.name] else [])
  {
    assert ([d] + ds)[1..] == ds;
    NoneSaved(ds);
  }

  lemma {:induction false} BlocksPushed(names: seq<string>)
    ensures PushedNames(BlocksDirectives(names)) == names
    ensures PoppedNames(BlocksDirectives(names)) == []
  {
    if names != [] {
      var n := names[0];
      var b := BlockDirectives(n);
      PushedNamesAppend(b, BlocksDirectives(names[1..]));
      PoppedNamesAppend(b, BlocksDirectives(names[1..]));
      BlocksPushed(names[1..]);
      assert b == [PushMacro(n)] + [Undef(n), Define(n, Redirect(n)), Other];
      OneSaved(PushMacro(n), [Undef(n), Define(n, Redirect(n)), Other]);
      assert names == [n] + names[1..];
    }
  }

  lemma {:induction false} PopsPopped(names: seq<string>)
    ensures PoppedNames(PopDirectives(names)) == names
    ensures PushedNames(PopDirectives(names)) == []
  {
    if names != [] {
      var ds := PopDirectives(names);
      assert ds[1..] == PopDirectives(names[1..]);
      PopsPopped(names[1..]);
      assert names == [names[0]] + names[1..];
    }
  }

  lemma OverlayTailSaves()
    ensures PushedNames(OverlayTailDirectives()) == [GlobalEnter]
    ensures PoppedNames(OverlayTailDirectives()) == []
  {
    var rest := [Undef(GlobalEnter), Define(GlobalEnter, GlobalEnterParams), Other, Other, Other, Other];
    assert OverlayTailDirectives() == [PushMacro(GlobalEnter)] + rest;
    OneSaved(PushMacro(GlobalEnter), rest);
  }

  lemma CleanupHeadSaves()
    ensures PushedNames(CleanupHeadDirectives()) == []
    ensures PoppedNames(CleanupHeadDirectives()) == [GlobalEnter]
  {
    var h3 := [Other, Define(CleanupGuard, ""), Other];
    assert CleanupHeadDirectives() == h3 + [PopMacro(GlobalEnter)] + [Other];
    PushedNamesAppend(h3 + [PopMacro(GlobalEnter)], [Other]);
    PoppedNamesAppend(h3 + [PopMacro(GlobalEnter)], [Other]);
    PushedNamesAppend(h3, [PopMacro(GlobalEnter)]);
    PoppedNamesAppend(h3, [PopMacro(GlobalEnter)]);
    NoneSaved(h3);
    NoneSaved([Other]);
    OneSaved(PopMacro(GlobalEnter), []);
    assert [PopMacro(GlobalEnter)] + [] == [PopMacro(GlobalEnter)];
  }

  /** The overlay saves the sorted names, then the entry-point macro. */
  lemma OverlayPushes(ids: set<string>, assignments: seq<string>)
    requires forall id :: id in ids ==> WordName(id)
    requires PlainLines(assignments)
    ensures PushedNames(Directives(OverlayLines(ids, assignments))) == MacroNames(ids) + [GlobalEnter]
    ensures PoppedNames(Directives(OverlayLines(ids, assignments))) == []
  {
    DirectivesOverlay(ids, assignments);
    OverlayDirectivesPushed(ids, assignments);
    OverlayDirectivesPopped(ids, assignments);
  }

  lemma OverlayDirectivesPushed(ids: set<string>, assignments: seq<string>)
    ensures PushedNames(OverlayDirectives(ids, assignments)) == MacroNames(ids) + [GlobalEnter]
  {
    LayoutPushed(MacroNames(ids), |assignments|, |ProcedureParamsAlias(ids)|);
  }

  lemma OverlayDirectivesPopped(ids: set<string>, assignments: seq<string>)
    ensures PoppedNames(OverlayDirectives(ids, assignments)) == []
  {
    LayoutPopped(MacroNames(ids), |assignments|, |ProcedureParamsAlias(ids)|);
  }

  /** The overlay's layout of directives, for any names and any numbers of
      plain lines, saves the names and then the entry-point macro. */
  lemma LayoutPushed(names: seq<string>, a: nat, p: nat)
    ensures PushedNames(OverlayHeadDirectives() + Others(a) + Others(p) + Others(1)
      + BlocksDirectives(names) + OverlayTailDirectives()) == names + [GlobalEnter]
  {
    PushedSix(OverlayHeadDirectives(), Others(a), Others(p), Others(1),
              BlocksDirectives(names), OverlayTailDirectives());
    OverlayHeadSaves();
    OthersSave(a);
    OthersSave(p);
    OthersSave(1);
    BlocksPushed(names);
    OverlayTailSaves();
    EmptyPrefixes(PushedNames(OverlayHeadDirectives()), PushedNames(Others(a)), PushedNames(Others(p)),
                  PushedNames(Others(1)), names, [GlobalEnter]);
  }

  /** The same layout restores nothing. */
  lemma LayoutPopped(names: seq<string>, a: nat, p: nat)
    ensures PoppedNames(OverlayHeadDirectives() + Others(a) + Others(p) + Others(1)
      + BlocksDirectives(names) + OverlayTailDirectives()) == []
  {
    PoppedSix(OverlayHeadDirectives(), Others(a), Others(p), Others(1),
              BlocksDirectives(names), OverlayTailDirectives());
    OverlayHeadSaves();
    OthersSave(a);
    OthersSave(p);
    OthersSave(1);
    BlocksPushed(names);
    OverlayTailSaves();
    EmptyPrefixes(PoppedNames(OverlayHeadDirectives()), PoppedNames(Others(a)), PoppedNames(Others(p)),
                  PoppedNames(Others(1)), PoppedNames(BlocksDirectives(names)), PoppedNames(OverlayTailDirectives()));
  }

  lemma EmptyPrefixes<T>(a: seq<T>, b: seq<T>, c: seq<T>, d: seq<T>, e: seq<T>, f: seq<T>)
    requires a == [] && b == [] && c == [] && d == []
    ensures a + b + c + d + e + f == e + f
  {
  }

  lemma OverlayHeadSaves()
    ensures PushedNames(OverlayHeadDirectives()) == [] && PoppedNames(OverlayHeadDirectives()) == []
  {
    NoneSaved(OverlayHeadDirectives());
  }

  lemma OthersSave(n: nat)
    ensures PushedNames(Others(n)) == [] && PoppedNames(Others(n)) == []
  {
    NoneSaved(Others(n));
  }

  lemma PushedSix(a: seq<Directive>, b: seq<Directive>, c: seq<Directive>,
                  d: seq<Directive>, e: seq<Directive>, f: seq<Directive>)
    ensures PushedNames(a + b + c + d + e + f) == PushedNames(a) + PushedNames(b) + PushedNames(c)
      + PushedNames(d) + PushedNames(e) + PushedNames(f)
  {
    PushedNamesAppend(a + b + c + d + e, f);
    PushedNamesAppend(a + b + c + d, e);
    PushedNamesAppend(a + b + c, d);
    PushedNamesAppend(a + b, c);
    PushedNamesAppend(a, b);
  }

  lemma PoppedSix(a: seq<Directive>, b: seq<Directive>, c: seq<Directive>,
                  d: seq<Directive>, e: seq<Directive>, f: seq<Directive>)
    ensures PoppedNames(a + b + c + d + e + f) == PoppedNames(a) + PoppedNames(b) + PoppedNames(c)
      + PoppedNames(d) + PoppedNames(e) + PoppedNames(f)
  {
    PoppedNamesAppend(a + b + c + d + e, f);
    PoppedNamesAppend(a + b + c + d, e);
    PoppedNamesAppend(a + b + c, d);
    PoppedNamesAppend(a + b, c);
    PoppedNamesAppend(a, b);
  }

  /** The cleanup restores the entry-point macro, then the names in reverse order. */
  lemma CleanupPops(names: seq<string>)
    ensures PoppedNames(Directives(CleanupLines(names))) == [GlobalEnter] + Reversed(names)
    ensures PushedNames(Directives(CleanupLines(names))) == []
  {
    DirectivesCleanup(names);
    CleanupHeadSaves();
    PopsPopped(Reversed(names));
    OthersSave(3);
    SavedThree(CleanupHeadDirectives(), PopDirectives(Reversed(names)), Others(3));
  }

  lemma SavedThree(a: seq<Directive>, b: seq<Directive>, c: seq<Directive>)
    ensures PushedNames(a + b + c) == PushedNames(a) + PushedNames(b) + PushedNames(c)
    ensures PoppedNames(a + b + c) == PoppedNames(a) + PoppedNames(b) + PoppedNames(c)
  {
    PushedNamesAppend(a + b, c);
    PushedNamesAppend(a, b);
    PoppedNamesAppend(a + b, c);
    PoppedNamesAppend(a, b);
  }

  lemma ReversedSnoc<T>(s: seq<T>, x: T)
    ensures Reversed(s + [x]) == [x] + Reversed(s)
  {
  }

  /** The cleanup header pops exactly what the overlay pushed, in the
      opposite order. */
  lemma CleanupMirrorsOverlay(ids: set<string>, assignments: seq<string>)
    requires forall id :: id in ids ==> WordName(id)
    requires PlainLines(assignments)
    ensures PoppedNames(Directives(CleanupLines(MacroNames(ids)))) ==
      Reversed(PushedNames(Directives(OverlayLines(ids, assignments))))
  {
    OverlayPushes(ids, assignments);
    CleanupPops(MacroNames(ids));
    ReversedSnoc(MacroNames(ids), GlobalEnter);
  }

  // ---------------------------------------------------------------------
  // The macro table
  // ---------------------------------------------------------------------

  /** One macro's current definition and its saved definitions, last saved last. */
  datatype MacroState = MacroState(definition: Option<string>, saved: seq<Option<string>>)

  /** `st` saved, then given the definition `body`. */
  function Redefined(st: MacroState, body: string): MacroState {
    MacroState(Some(body), st.saved + [st.definition])
  }

  /** The last saved definition made current again, if there is one. */
  function Restored(st: MacroState): MacroState {
    if |st.saved| > 0 then MacroState(st.saved[|st.saved| - 1], st.saved[..|st.saved| - 1]) else st
  }

  /** The effect of a directive on macro `m`. */
  function Step(m: string, st: MacroState, d: Directive): MacroState
  {
    match d
    case PushMacro(n) => if n == m then MacroState(st.definition, st.saved + [st.definition]) else st
    case PopMacro(n) => if n == m then Restored(st) else st
    case Undef(n) => if n == m then MacroState(None, st.saved) else st
    case Define(n, body) => if n == m then MacroState(Some(body), st.saved) else st
    case Other => st
  }

  /** Macro `m` after reading `ds` from state `st`. */
  function Run(m: string, st: MacroState, ds: seq<Directive>): MacroState
    decreases |ds|
  {
    if ds == [] then st else Run(m, Step(m, st, ds[0]), ds[1..])
  }

  lemma {:induction false} RunAppend(m: string, st: MacroState, a: seq<Directive>, b: seq<Directive>)
    ensures Run(m, st, a + b) == Run(m, Run(m, st, a), b)
    decreases |a|
  {
    if a != [] {
      assert (a + b)[1..] == a[1..] + b;
      RunAppend(m, Step(m, st, a[0]), a[1..], b);
    } else {
      assert a + b == b;
    }
  }

  lemma RunCons(m: string, st: MacroState, d: Directive, ds: seq<Directive>)
    ensures Run(m, st, [d] + ds) == Run(m, Step(m, st, d), ds)
  {
    assert ([d] + ds)[1..] == ds;
  }

  /** The directive concerns macro `m`. */
  predicate Touches(d: Directive, m: string) {
    !d.Other? && d.name == m
  }

  lemma {:induction false} RunUntouched(m: string, st: MacroState, ds: seq<Directive>)
    requires forall k :: 0 <= k < |ds| ==> !Touches(ds[k], m)
    ensures Run(m, st, ds) == st
    decreases |ds|
  {
    if ds != [] {
      RunUntouched(m, st, ds[1..]);
    }
  }

  lemma RestoredRedefined(st: MacroState, body: string)
    ensures Restored(Redefined(st, body)) == st
  {
    assert (st.saved + [st.definition])[..|st.saved|] == st.saved;
  }

  lemma RunRedefine(m: string, st: MacroState, n: string, body: string, rest: seq<Directive>)
    requires forall k :: 0 <= k < |rest| ==> !Touches(rest[k], m)
    ensures Run(m, st, [PushMacro(n), Undef(n), Define(n, body)] + rest) ==
      if n == m then Redefined(st, body) else st
  {
    var s1 := Step(m, st, PushMacro(n));
    var s2 := Step(m, s1, Undef(n));
    var s3 := Step(m, s2, Define(n, body));
    assert [PushMacro(n), Undef(n), Define(n, body)] + rest ==
      [PushMacro(n)] + ([Undef(n)] + ([Define(n, body)] + rest));
    RunCons(m, st, PushMacro(n), [Undef(n)] + ([Define(n, body)] + rest));
    RunCons(m, s1, Undef(n), [Define(n, body)] + rest);
    RunCons(m, s2, Define(n, body), rest);
    RunUntouched(m, s3, rest);
  }

  predicate Distinct(names: seq<string>) {
    forall i, j :: 0 <= i < j < |names| ==> names[i] != names[j]
  }

  lemma {:induction false} RunBlocks(m: string, st: MacroState, names: seq<string>)
    requires Distinct(names)
    ensures Run(m, st, BlocksDirectives(names)) == if m in names then Redefined(st, Redirect(m)) else st
    decreases |names|
  {
    if names != [] {
      var n := names[0];
      var rest := names[1..];
      RunAppend(m, st, BlockDirectives(n), BlocksDirectives(rest));
      RunRedefine(m, st, n, Redirect(n), [Other]);
      assert Distinct(rest);
      RunBlocks(m, Run(m, st, BlockDirectives(n)), rest);
      if m == n {
        assert m !in rest;
      }
      assert m in names <==> m == n || m in rest;
    }
  }

  lemma {:induction false} RunPops(m: string, st: MacroState, names: seq<string>)
    requires Distinct(names)
    ensures Run(m, st, PopDirectives(names)) == if m in names then Restored(st) else st
    decreases |names|
  {
    if names != [] {
      var ds := PopDirectives(names);
      var rest := names[1..];
      assert ds[1..] == PopDirectives(rest);
      assert Distinct(rest);
      RunPops(m, Step(m, st, ds[0]), rest);
      if m == names[0] {
        assert m !in rest;
        RunUntouched(m, Restored(st), PopDirectives(rest));
      }
      assert m in names <==> m == names[0] || m in rest;
    }
  }

  lemma ReversedDistinct(names: seq<string>)
    requires Distinct(names)
    ensures Distinct(Reversed(names))
    ensures forall n :: n in Reversed(names) <==> n in names
  {
    var r := Reversed(names);
    forall n | n in names ensures n in r {
      var k :| 0 <= k < |names| && names[k] == n;
      assert r[|names| - 1 - k] == n;
    }
  }

  lemma SortedDistinct(names: seq<string>)
    requires StrictlySorted(names)
    ensures Distinct(names)
  {
    forall i, j | 0 <= i < j < |names| ensures names[i] != names[j] {
      LessIrreflexive(names[i]);
    }
  }

  lemma RunOverlayTail(m: string, st: MacroState)
    ensures Run(m, st, OverlayTailDirectives()) ==
      if m == GlobalEnter then Redefined(st, GlobalEnterParams) else st
  {
    RunRedefine(m, st, GlobalEnter, GlobalEnterParams, Others(4));
  }

  lemma RunCleanupHead(m: string, st: MacroState)
    requires m != CleanupGuard
    ensures Run(m, st, CleanupHeadDirectives()) == if m == GlobalEnter then Restored(st) else st
  {
    var h3 := [Other, Define(CleanupGuard, ""), Other];
    RunAppend(m, st, h3 + [PopMacro(GlobalEnter)], [Other]);
    RunAppend(m, st, h3, [PopMacro(GlobalEnter)]);
    RunUntouched(m, st, h3);
    RunCons(m, st, PopMacro(GlobalEnter), []);
    assert [PopMacro(GlobalEnter)] + [] == [PopMacro(GlobalEnter)];
    RunUntouched(m, Step(m, st, PopMacro(GlobalEnter)), []);
    RunUntouched(m, Step(m, st, PopMacro(GlobalEnter)), [Other]);
  }

  /** Macro `m` after the overlay. */
  function AfterOverlay(ids: set<string>, m: string, st: MacroState): MacroState
  {
    var a := if m in MacroNames(ids) then Redefined(st, Redirect(m)) else st;
    if m == GlobalEnter then Redefined(a, GlobalEnterParams) else a
  }

  lemma RunOverlay(ids: set<string>, assignments: seq<string>, m: string, st: MacroState)
    requires m != OverlayGuard
    ensures Run(m, st, OverlayDirectives(ids, assignments)) == AfterOverlay(ids, m, st)
  {
    var names := MacroNames(ids);
    RunOverlayHead(m, st);
    RunOthers(m, st, |assignments|);
    RunOthers(m, st, |ProcedureParamsAlias(ids)|);
    RunOthers(m, st, 1);
    RunLayout(m, st, OverlayHeadDirectives(), Others(|assignments|), Others(|ProcedureParamsAlias(ids)|),
              Others(1), BlocksDirectives(names), OverlayTailDirectives());
    SortedDistinct(names);
    RunBlocks(m, st, names);
    RunOverlayTail(m, Run(m, st, BlocksDirectives(names)));
  }

  lemma RunOverlayHead(m: string, st: MacroState)
    requires m != OverlayGuard
    ensures Run(m, st, OverlayHeadDirectives()) == st
  {
    RunUntouched(m, st, OverlayHeadDirectives());
  }

  lemma RunOthers(m: string, st: MacroState, n: nat)
    ensures Run(m, st, Others(n)) == st
  {
    RunUntouched(m, st, Others(n));
  }

  /** Reading six pieces when the first four leave the macro alone. */
  lemma RunLayout(m: string, st: MacroState, a: seq<Directive>, b: seq<Directive>, c: seq<Directive>,
                  d: seq<Directive>, e: seq<Directive>, f: seq<Directive>)
    requires Run(m, st, a) == st && Run(m, st, b) == st && Run(m, st, c) == st && Run(m, st, d) == st
    ensures Run(m, st, a + b + c + d + e + f) == Run(m, Run(m, st, e), f)
  {
    RunAppend(m, st, a + b + c + d + e, f);
    RunAppend(m, st, a + b + c + d, e);
    RunAppend(m, st, a + b + c, d);
    RunAppend(m, st, a + b, c);
    RunAppend(m, st, a, b);
  }

  lemma RunCleanup(names: seq<string>, m: string, st: MacroState)
    requires Distinct(names)
    requires m != CleanupGuard
    ensures Run(m, st, CleanupDirectives(names)) ==
      var c := if m == GlobalEnter then Restored(st) else st;
      if m in names then Restored(c) else c
  {
    var pops := PopDirectives(Reversed(names));
    RunAppend(m, st, CleanupHeadDirectives() + pops, Others(3));
    RunAppend(m, st, CleanupHeadDirectives(), pops);
    RunCleanupHead(m, st);
    ReversedDistinct(names);
    RunPops(m, Run(m, st, CleanupHeadDirectives()), Reversed(names));
    RunUntouched(m, Run(m, st, CleanupHeadDirectives() + pops), Others(3));
  }

  /** While the overlay is in force, every name that got a macro block (every
      collected name but `cob_procedure_params`) is defined as its member of
      the state structure, the entry point is defined by the text of its
      `#define` line (`EntryPointContinued` gives the line it continues onto),
      and no other macro except the include guard is touched. */
  lemma OverlayRedirects(ids: set<string>, assignments: seq<string>, m: string, st: MacroState)
    requires forall id :: id in ids ==> WordName(id)
    requires PlainLines(assignments)
    requires m != OverlayGuard
    ensures var after := Run(m, st, Directives(OverlayLines(ids, assignments)));
      (m == GlobalEnter ==> after.definition == Some(GlobalEnterParams)) &&
      (m != GlobalEnter && m in MacroNames(ids) ==> after == Redefined(st, Redirect(m))) &&
      (m != GlobalEnter && m !in MacroNames(ids) ==> after == st)
  {
    DirectivesOverlay(ids, assignments);
    RunOverlay(ids, assignments, m, st);
  }

  /** Reading the cleanup header after the overlay gives every macro back the
      definition and the saved definitions it had before the overlay; only the
      two include guards stay defined. */
  lemma CleanupRestores(ids: set<string>, assignments: seq<string>, m: string, st: MacroState)
    requires forall id :: id in ids ==> WordName(id)
    requires PlainLines(assignments)
    requires m != OverlayGuard && m != CleanupGuard
    ensures Run(m, Run(m, st, Directives(OverlayLines(ids, assignments))),
                Directives(CleanupLines(MacroNames(ids)))) == st
  {
    var names := MacroNames(ids);
    DirectivesOverlay(ids, assignments);
    DirectivesCleanup(names);
    RunOverlay(ids, assignments, m, st);
    SortedDistinct(names);
    RunCleanup(names, m, AfterOverlay(ids, m, st));
    var a := if m in names then Redefined(st, Redirect(m)) else st;
    RestoredRedefined(a, GlobalEnterParams);
    RestoredRedefined(st, Redirect(m));
  }

  /** The headers generated from a scanned declaration block restore every
      macro but the include guards. */
  lemma GeneratedHeadersRestore(body: seq<string>, m: string, st: MacroState)
    requires m != OverlayGuard && m != CleanupGuard
    ensures var ids := ScannedNames(body);
      var assignments := FieldAssignments(ids, ScannedFieldInits(body));
      Run(m, Run(m, st, Directives(OverlayLines(ids, assignments))),
          Directives(CleanupLines(MacroNames(ids)))) == st
  {
    var ids := ScannedNames(body);
    ScannedWordNames(body);
    AssignmentsPlain(ids, ScannedFieldInits(body));
    CleanupRestores(ids, FieldAssignments(ids, ScannedFieldInits(body)), m, st);
  }

  lemma ScannedWordNames(body: seq<string>)
    ensures forall id :: id in ScannedNames(body) ==> WordName(id)
  {
    ScannedNamesAreIdentifiers(body);
    forall id | id in ScannedNames(body) ensures WordName(id) {
      IdentifierIsWordName(id);
    }
  }

  lemma IdentifierIsWordName(id: string)
    requires IsIdentifier(id)
    ensures WordName(id)
  {
    IdentStartIsWordChar(id[0]);
  }

  lemma AssignmentsPlain(ids: set<string>, inits: seq<FieldInit>)
    ensures PlainLines(FieldAssignments(ids, inits))
  {
    var assignments := FieldAssignments(ids, inits);
    FieldAssignmentsOnState(ids, inits);
    forall k | 0 <= k < |assignments| ensures PlainLine(assignments[k]) {
      assert assignments[k] in assignments;
      assert assignments[k][..|StateAccess|] == StateAccess;
      assert assignments[k][0] == StateAccess[0];
    }
  }
}
