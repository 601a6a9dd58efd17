# Cobolana locals transformer and libcob internal helpers, in Dafny

This project models two parts of the Cobolana toolchain and proves properties of
the model.

**The locals transformer** (`scripts/transform_cobol_locals.js`). The script
rewrites the local-storage header that `cobc` generates (`cobolana.c.l.h`).
Every `static` variable it declares is moved into a `COBOLState` structure. It
works in these steps:

- It keeps the header's leading comment block.
- It scans the remaining lines. It collects every declared identifier and
  every `static cob_field NAME = {...}` initialiser.
- It writes an overlay header (`cobolana_locals_overlay.h`). For each collected
  name except `cob_procedure_params`, in sorted order, the overlay saves the
  macro, undefines it and redefines it to `(cobol_state.NAME)`. If
  `cob_procedure_params` was collected, it gets an alias line
  `cob_field **cob_procedure_params = cobol_state.cob_procedure_params;`
  instead of a macro. The overlay also redefines `cob_module_global_enter` as a
  function-like macro whose continuation line calls
  `cob_module_global_enter_state(&cobol_state, ...)`.
- It writes a cleanup header (`cobolana_locals_cleanup.h`). It pops
  everything the overlay pushed, in reverse order.
- It replaces the local header with the comment block and an include of the
  overlay.
- It inserts an include of the cleanup header into `cobolana_patched.c`, just
  before `static void COBOLANA_module_init`. If the include is already there,
  it does nothing. If the marker is missing, it exits with status 1.

The model is split into modules that follow the script:

- `JsStrings` is the JavaScript string API the script relies on: `trim`,
  `indexOf`, `includes`, `split`, `join` and the line split by `/\r?\n/`.
- `StringOrder` is the code-unit order used by `Array.prototype.sort`.
- `LocalsDeclarations` covers the leading comment block, the two regular
  expressions of `registerIdentifierFromLine` and the scan. Each regular
  expression is a deterministic recogniser.
- `LocalsOverlay` covers `transformValue`, the metadata assignments, the
  overlay and cleanup lines, and the patch of the C source.
- `LocalsTransform` is the script as it runs. It holds the comment loop and a
  `LocalsScanner` class whose fields are the identifier set and the
  initialiser list, updated in place. It also holds the line pushes and the
  whole run. Each of these is proved to produce what the functions specify.
- `MacroStack` is a reference semantics for `#pragma push_macro` /
  `pop_macro`, `#undef` and `#define` over the lines generated here. With it
  the model proves two facts about the generated headers:
  - While the overlay is in force, every collected name except
    `cob_procedure_params` is defined as its state member. The entry point is
    defined by the text of its own `#define` line. The line that continues it
    is the state-passing call, as a separate layout lemma states.
  - Reading the cleanup header after the overlay gives every macro (except
    the two include guards) back exactly the definition and the saved
    definitions it had before.

**The libcob internal header** (`cobolana-cc/libcob/cobinternal.h`). It is
modelled in two modules:

- `CobInternal` holds the helpers that compute something:
  - `cob_s32_pow`, a loop over 64-bit integers;
  - the two XML name-character tests, compared with section 2.3 of XML 1.0
    (Fifth Edition);
  - `cob_temp_name`, which writes a C string into a caller's `char` array.
- `CobCodes` turns the code tables into closed datatypes with encodings and
  decodings: `cob_open_mode`, the `COB_STORE_*` rounding modes and overflow
  policies, the `COB_LOCK_*` bit flags, the `COB_EC_*` exception codes and
  the `COB_TYPE_*` field types.
  - Two exception codes sit in high byte 0x03, the group of
    `COB_EC_BOUND_REF_MOD`, although their names belong to other groups:
    `COB_EC_DATA_PTR_NULL` (0x0301) and `COB_EC_PROGRAM_ARG_OMITTED` (0x0302).
  - `COB_STORE_KEEP_ON_OVERFLOW` and `COB_STORE_TRUNC_ON_OVERFLOW` reuse the
    values of two rounding modes.
  - Both facts are stated as lemmas.

## Model

| member | source | states |
|---|---|---|
| JsStrings.SkipSpaces | scripts/transform_cobol_locals.js:46 | a greedy `\s*` from `i`: every character skipped is white space and the one it stops at is not |
| JsStrings.SkipWord | scripts/transform_cobol_locals.js:46 | a greedy `\w*` from `i`: every character skipped is a word character and the one it stops at is not |
| JsStrings.SkipUntil | scripts/transform_cobol_locals.js:46 | a greedy `[^c]*` from `i`: it stops at the first `c`, or at the end when there is none |
| JsStrings.SkipSpacesBack | scripts/transform_cobol_locals.js:22 | the start of the white-space run that ends at `j`; the character before it is not white space |
| JsStrings.Trim | scripts/transform_cobol_locals.js:22 | `trim()` is a slice of `s` with white-space margins on both sides, and its ends are not white space |
| JsStrings.TrimPadded | scripts/transform_cobol_locals.js:22 | white space around a text without white-space ends trims to exactly that text |
| JsStrings.TrimIdempotent | scripts/transform_cobol_locals.js:22 | trimming twice is trimming once |
| JsStrings.TrimEmpty | scripts/transform_cobol_locals.js:23 | `trimmed === ''` exactly when the line is all white space |
| JsStrings.IndexOfFrom | scripts/transform_cobol_locals.js:37 | `indexOf`: the result is an occurrence that no earlier position from `from` on has; `None` (-1) when there is no occurrence at all |
| JsStrings.IndexOf | scripts/transform_cobol_locals.js:172 | `indexOf` from position 0; specified by `IndexOfFrom` and `IndexOfIs` |
| JsStrings.Contains | scripts/transform_cobol_locals.js:170 | `includes`; specified by `ContainsOccurs` |
| JsStrings.ContainsOccurs | scripts/transform_cobol_locals.js:170 | `includes` holds exactly when the pattern occurs at some position |
| JsStrings.IndexOfIs | scripts/transform_cobol_locals.js:172 | an occurrence with none before it is the one `indexOf` returns |
| JsStrings.Split | scripts/transform_cobol_locals.js:50 | `split(',')` yields at least one piece, no piece holds the separator, and the pieces join back to the input |
| JsStrings.SplitJoin | scripts/transform_cobol_locals.js:50 | splitting a join of separator-free pieces gives those pieces back |
| JsStrings.SplitLines | scripts/transform_cobol_locals.js:17 | `split(/\r?\n/)`; specified by `LinesRoundTrip` and `SplitLinesNoLineFeed` |
| JsStrings.JoinLines | scripts/transform_cobol_locals.js:160 | `join('\n')`; specified by `LinesRoundTrip` |
| JsStrings.LinesRoundTrip | scripts/transform_cobol_locals.js:17 | `split(/\r?\n/)` undoes `join('\n')` for lines without line feeds, where no line but the last ends in `\r` |
| JsStrings.SplitLinesNoLineFeed | scripts/transform_cobol_locals.js:17 | no line read from the header holds a line feed |
| StringOrder.LessIrreflexive | scripts/transform_cobol_locals.js:127 | no string sorts before itself |
| StringOrder.LessTransitive | scripts/transform_cobol_locals.js:127 | the sort order is transitive |
| StringOrder.LessTotal | scripts/transform_cobol_locals.js:127 | any two distinct strings are ordered one way or the other |
| StringOrder.LessAsymmetric | scripts/transform_cobol_locals.js:127 | the order never holds in both directions |
| StringOrder.LeastExists | scripts/transform_cobol_locals.js:127 | every non-empty set of strings has an element below all the others |
| StringOrder.Least | scripts/transform_cobol_locals.js:127 | the result is in the set and sorts before every other element |
| StringOrder.SortedStrings | scripts/transform_cobol_locals.js:127 | `Array.from(set).sort()` lists exactly the set's elements, each once, in strictly ascending order |
| StringOrder.SortedUnique | scripts/transform_cobol_locals.js:127 | every strictly ascending listing of a set is `SortedStrings` of it, whatever order the set was enumerated in |
| LocalsDeclarations.LeadingCommentCount | scripts/transform_cobol_locals.js:19-28 | the leading block has only blank and comment lines, and the line after it (if any) is neither |
| LocalsDeclarations.LeadingCommentCountIs | scripts/transform_cobol_locals.js:19-28 | any index with those two properties is the block's length |
| LocalsDeclarations.BracedText | scripts/transform_cobol_locals.js:46 | the `\{([^}]*)\}` part captures a text without `}` |
| LocalsDeclarations.FieldInitBody | scripts/transform_cobol_locals.js:46 | the `\s*=\s*\{...\}` part captures a text without `}` |
| LocalsDeclarations.NameAndBody | scripts/transform_cobol_locals.js:46 | the name capture is an identifier and the body capture holds no `}` |
| LocalsDeclarations.FieldInitNamed | scripts/transform_cobol_locals.js:46 | the same, for the pattern from the white space after `cob_field` |
| LocalsDeclarations.FieldInitMatch | scripts/transform_cobol_locals.js:46 | a match of the whole initialiser pattern captures an identifier and a body without `}` |
| LocalsDeclarations.FindFieldInit | scripts/transform_cobol_locals.js:46 | the leftmost match anywhere in the line has the same two properties |
| LocalsDeclarations.BracedTextOf | scripts/transform_cobol_locals.js:46 | white space, then `{body}` with no `}` in `body`, captures `body` |
| LocalsDeclarations.FieldInitBodyOf | scripts/transform_cobol_locals.js:46 | `\s*=\s*{body}` captures `body` |
| LocalsDeclarations.NameAndBodyOf | scripts/transform_cobol_locals.js:46 | `name = {body}` captures the name and the body |
| LocalsDeclarations.FieldInitNamedOf | scripts/transform_cobol_locals.js:46 | the same after at least one white-space character |
| LocalsDeclarations.FieldInitMatchOf | scripts/transform_cobol_locals.js:46 | any `static cob_field name = {body}` text, with any white space allowed, is recognised with exactly those captures |
| LocalsDeclarations.TrimmedNonEmpty | scripts/transform_cobol_locals.js:50 | `.map(trim).filter(Boolean)` keeps only non-empty trimmed values, never more than it was given |
| LocalsDeclarations.TrimmedNonEmptyKeeps | scripts/transform_cobol_locals.js:50 | values already trimmed and non-empty pass through unchanged |
| LocalsDeclarations.FieldValuesOfItems | scripts/transform_cobol_locals.js:50 | a body's values are its comma-separated items, trimmed, with empty ones dropped |
| LocalsDeclarations.FieldValuesRoundTrip | scripts/transform_cobol_locals.js:50 | comma-joined trimmed values read back as the same values |
| LocalsDeclarations.LineFieldInit | scripts/transform_cobol_locals.js:36-52 | a line contributes an initialiser only if its text before any comment ends in `;`; its name is an identifier and its values are non-empty and trimmed |
| LocalsDeclarations.AttributeMatch | scripts/transform_cobol_locals.js:33 | a match of the attribute pattern lies within the text and starts with `__attribute__` |
| LocalsDeclarations.AttributeMatchOf | scripts/transform_cobol_locals.js:33 | the pattern matches one whole `__attribute__ ((...))` group and nothing more |
| LocalsDeclarations.RemoveAttributes | scripts/transform_cobol_locals.js:56 | the global `replace` never lengthens the text |
| LocalsDeclarations.RemoveAttributesKeeps | scripts/transform_cobol_locals.js:56 | text in front of the first group is kept unchanged |
| LocalsDeclarations.RemoveAttributesNone | scripts/transform_cobol_locals.js:56 | a text with no `__attribute__` is left unchanged |
| LocalsDeclarations.RemoveAttributesGroup | scripts/transform_cobol_locals.js:56 | the first group is deleted whole, and scanning resumes right after it |
| LocalsDeclarations.StripStaticOf | scripts/transform_cobol_locals.js:55 | `^static\s+` drops the keyword and all the white space after it, and nothing more |
| LocalsDeclarations.FindName | scripts/transform_cobol_locals.js:66 | a name the pattern captures is an identifier |
| LocalsDeclarations.FindNamePlain | scripts/transform_cobol_locals.js:66 | a declarator ending in an identifier, after a non-word character, declares that identifier |
| LocalsDeclarations.FindNameArray | scripts/transform_cobol_locals.js:66 | a declarator `... name [inner]` declares the identifier before its bracketed suffix |
| LocalsDeclarations.BracketSuffixOf | scripts/transform_cobol_locals.js:66 | white space, then `[inner]` with no `]` in `inner`, is the optional suffix of the name pattern |
| LocalsDeclarations.NameMatchBracketed | scripts/transform_cobol_locals.js:66 | an identifier followed by that suffix matches, and the capture ends with the identifier |
| LocalsDeclarations.DeclarationName | scripts/transform_cobol_locals.js:35-70 | a line declares a name only if it is a statement, and that name is an identifier |
| LocalsDeclarations.StatementText | scripts/transform_cobol_locals.js:36-41 | the line cut at its first `/*` and trimmed; specified by `Trim`, `IndexOf` and `StatementOfLine` |
| LocalsDeclarations.IsStatement | scripts/transform_cobol_locals.js:42-44 | the statement text ends in `;`; specified by `StatementOfLine` |
| LocalsDeclarations.StripStatic | scripts/transform_cobol_locals.js:55 | `replace(/^static\s+/, '')`; specified by `StripStaticOf` |
| LocalsDeclarations.Declarator | scripts/transform_cobol_locals.js:54-61 | the statement without `;`, `static`, attribute groups and everything from the first `=`, trimmed; specified by `DeclaratorOfLine` |
| LocalsDeclarations.StatementOfLine | scripts/transform_cobol_locals.js:36-44 | a line `static<gap><decl>;` with no `/*` is its own statement text and passes the `;` test |
| LocalsDeclarations.StripStaticLine | scripts/transform_cobol_locals.js:54-55 | dropping the `;` and `^static\s+` from such a line leaves exactly `decl` |
| LocalsDeclarations.DeclaratorIs | scripts/transform_cobol_locals.js:54-61 | the declarator is the attribute-free text cut at its first `=` and trimmed |
| LocalsDeclarations.CutAtEquals | scripts/transform_cobol_locals.js:57-61 | a text `text + spaces + init`, where `init` is empty or starts with `=` and `text` has no `=` and no white-space ends, cuts and trims to `text` |
| LocalsDeclarations.DeclaratorOfLine | scripts/transform_cobol_locals.js:54-61 | when the attribute-free declaration is `text + spaces + init` like that, the declarator of the line is `text` |
| LocalsDeclarations.DeclarationNameOfLine | scripts/transform_cobol_locals.js:35-70 | such a line registers exactly the name the name pattern finds in `text` |
| LocalsDeclarations.DeclarationNamePlain | scripts/transform_cobol_locals.js:35-70 | `static <type> name [= init];` with no `/*` and no `__attribute__`, whose type part is empty or ends in a non-word character, registers `name` |
| LocalsDeclarations.DeclarationNameArray | scripts/transform_cobol_locals.js:35-70 | `static <type> name [inner] [= init];` likewise registers `name` |
| LocalsDeclarations.AttributeGroupIgnored | scripts/transform_cobol_locals.js:56 | a line with one `__attribute__((...))` group registers the same name as the line without the group |
| LocalsDeclarations.SkippedByScan | scripts/transform_cobol_locals.js:74-76 | the blank, comment and `#` lines the scan passes over; specified by `BlankOrCommentSkipped` and `SkippedDeclaresNothing` |
| LocalsDeclarations.ScannedNames | scripts/transform_cobol_locals.js:72-81 | the identifier set after the scan; specified by `ScannedNamesIff` and `ScannedNamesAppend` |
| LocalsDeclarations.ScannedFieldInits | scripts/transform_cobol_locals.js:72-81 | the initialiser list after the scan; specified by `ScannedFieldInitsIff` and `ScannedFieldInitsAppend` |
| LocalsDeclarations.LineFieldInitOf | scripts/transform_cobol_locals.js:36-52 | a line `static cob_field name = {body}...;` with no `/*` contributes `FieldInit(name, FieldValues(body))` |
| LocalsDeclarations.NamesDeclaredByIs | scripts/transform_cobol_locals.js:72-81 | a line adds name `n` exactly when the scan looks at it and it declares `n` |
| LocalsDeclarations.InitsDeclaredByIs | scripts/transform_cobol_locals.js:72-81 | a line adds initialiser `fi` exactly when the scan looks at it and it holds `fi` |
| LocalsDeclarations.ScannedNamesAppend | scripts/transform_cobol_locals.js:72-81 | scanning two runs of lines in turn collects the names of both |
| LocalsDeclarations.ScannedFieldInitsAppend | scripts/transform_cobol_locals.js:72-81 | the initialisers of the first run come first, then those of the second |
| LocalsDeclarations.ScannedNamesIff | scripts/transform_cobol_locals.js:72-81 | a name is collected exactly when some scanned line declares it |
| LocalsDeclarations.ScannedFieldInitsIff | scripts/transform_cobol_locals.js:72-81 | an initialiser is collected exactly when some scanned line holds it |
| LocalsDeclarations.ScannedNamesAreIdentifiers | scripts/transform_cobol_locals.js:66-68 | every collected name is a C identifier |
| LocalsDeclarations.BlankOrCommentSkipped | scripts/transform_cobol_locals.js:74-76 | a blank or comment line declares nothing |
| LocalsDeclarations.BlankLinesScanNothing | scripts/transform_cobol_locals.js:72-76 | a run of blank and comment lines declares nothing |
| LocalsDeclarations.LeadingBlockDeclaresNothing | scripts/transform_cobol_locals.js:72-76 | starting the scan after the leading block collects the same names and initialisers as scanning every line |
| LocalsOverlay.TransformValue | scripts/transform_cobol_locals.js:83-95 | the value is kept, prefixed with `cobol_state.`, or (for `&x`) turned into `&cobol_state.x` |
| LocalsOverlay.TransformValueCases | scripts/transform_cobol_locals.js:83-95 | which of the three happens: a registered name, the address of a registered name, or anything else |
| LocalsOverlay.TransformValueRoundTrip | scripts/transform_cobol_locals.js:83-95 | the rewritten value determines the original one, unless the original already named the state |
| LocalsOverlay.StateMemberNotIdentifier | scripts/transform_cobol_locals.js:85 | `cobol_state.x` is never an identifier |
| LocalsOverlay.TransformValueIdempotent | scripts/transform_cobol_locals.js:83-95 | rewriting a rewritten value changes nothing when the set holds only identifiers |
| LocalsOverlay.TransformValues | scripts/transform_cobol_locals.js:98 | `values.map(transformValue)`, element by element |
| LocalsOverlay.FieldInitAssignments | scripts/transform_cobol_locals.js:97-110 | one initialiser gives at most three assignments |
| LocalsOverlay.FieldInitAssignmentsOf | scripts/transform_cobol_locals.js:97-110 | with non-empty values, there is one assignment for each of the first three values, to `.size`, `.data` and `.attr` in that order |
| LocalsOverlay.FieldAssignments | scripts/transform_cobol_locals.js:97 | `flatMap` over the initialisers gives at most three lines each |
| LocalsOverlay.AssignmentOnState | scripts/transform_cobol_locals.js:101 | an assignment line starts with `cobol_state.` |
| LocalsOverlay.FieldInitAssignmentsOnState | scripts/transform_cobol_locals.js:99-108 | every assignment of one initialiser is on the state structure |
| LocalsOverlay.FieldAssignmentsOnState | scripts/transform_cobol_locals.js:97-110 | every assignment is on the state structure |
| LocalsOverlay.MacroBlocks | scripts/transform_cobol_locals.js:128-133 | four lines per name |
| LocalsOverlay.MacroNames | scripts/transform_cobol_locals.js:124-127 | the names that get a macro block are the collected ones except `cob_procedure_params`, strictly sorted |
| LocalsOverlay.Reversed | scripts/transform_cobol_locals.js:148 | the descending loop visits the names last to first |
| LocalsOverlay.PopLines | scripts/transform_cobol_locals.js:148-151 | one `pop_macro` line per name, in the order given |
| LocalsOverlay.MacroBlocksAt | scripts/transform_cobol_locals.js:128-133 | lines `4k` to `4k+3` of the blocks are the `k`-th name's block |
| LocalsOverlay.OverlayBlockAt | scripts/transform_cobol_locals.js:112-140 | in the overlay, the `k`-th sorted name's push, undef, redirecting define and blank line sit at `BlocksStart + 4k` |
| LocalsOverlay.ProcedureParamsAliased | scripts/transform_cobol_locals.js:121-125 | `cob_procedure_params` never gets a macro block; the line after the assignments is its alias exactly when it was collected |
| LocalsOverlay.OverlayLines | scripts/transform_cobol_locals.js:112-140 | the overlay's lines; specified by `OverlayBlockAt`, `ProcedureParamsAliased`, `EntryPointContinued` and `MacroStack.OverlayRedirects` |
| LocalsOverlay.EntryPointContinued | scripts/transform_cobol_locals.js:134-137 | the entry point's `#define` line ends in a backslash, and the line after it is the `cob_module_global_enter_state(&cobol_state, ...)` call |
| LocalsOverlay.CleanupLines | scripts/transform_cobol_locals.js:142-154 | the cleanup's lines; specified by `MacroStack.CleanupPops` and `MacroStack.CleanupRestores` |
| LocalsOverlay.HeaderLines | scripts/transform_cobol_locals.js:163-164 | the leading comment block, then the overlay include and an empty line; specified by `LocalsTransform.RunTransform` |
| LocalsOverlay.PatchCleanupInclude | scripts/transform_cobol_locals.js:166-181 | the four outcomes of the patch; specified by `PatchIdempotent`, `PatchMissingMarker` and `PatchPlacement` |
| LocalsOverlay.TransformLocals | scripts/transform_cobol_locals.js:17-181 | the three written texts and the patch outcome; specified by `LocalsTransform.RunTransform` and `MacroStack.GeneratedHeadersRestore` |
| LocalsOverlay.ExitStatus | scripts/transform_cobol_locals.js:175 | 1 for the missing marker, else 0; specified by `ExitStatusIff` |
| LocalsOverlay.PatchIdempotent | scripts/transform_cobol_locals.js:166-181 | after an insertion, a second run finds the include and leaves the file alone |
| LocalsOverlay.PatchMissingMarker | scripts/transform_cobol_locals.js:170-176 | the failure case happens exactly when the file holds neither the include nor the marker |
| LocalsOverlay.FirstAfterInsertion | scripts/transform_cobol_locals.js:178 | after inserting text at the first occurrence of a marker, the first occurrence is right behind the inserted text, provided that text holds the right characters |
| LocalsOverlay.PatchPlacement | scripts/transform_cobol_locals.js:172-178 | the include and blank line sit right before the first marker; removing them gives the original text back; the marker's first occurrence moves by their length |
| LocalsOverlay.ExitStatusIff | scripts/transform_cobol_locals.js:173-176 | the exit status is 1 exactly when the patched file exists and holds neither the include nor the marker |
| LocalsTransform.SplitLeadingComments | scripts/transform_cobol_locals.js:19-28 | the loop stops at `LeadingCommentCount`, and the collected lines are exactly the lines before it |
| LocalsTransform.SkippedDeclaresNothing | scripts/transform_cobol_locals.js:74-79 | a line the loop skips adds no name and no initialiser |
| LocalsTransform.RegisterIsScan | scripts/transform_cobol_locals.js:72-81 | for a line the loop does not skip, what `registerIdentifierFromLine` adds is what the scan specification adds |
| LocalsTransform.LocalsScanner.constructor | scripts/transform_cobol_locals.js:30-31 | the identifier set and the initialiser list start empty |
| LocalsTransform.LocalsScanner.RegisterIdentifierFromLine | scripts/transform_cobol_locals.js:35-70 | appends the line's initialiser, if any, and adds the line's declared name, if any |
| LocalsTransform.LocalsScanner.ScanLine | scripts/transform_cobol_locals.js:73-80 | one round of the loop adds what the line declares |
| LocalsTransform.LocalsScanner.ScanLineAt | scripts/transform_cobol_locals.js:72-81 | one round of the loop keeps the per-line record of what was added |
| LocalsTransform.LocalsScanner.ScanDeclarations | scripts/transform_cobol_locals.js:72-81 | after the loop, the set and the list are the old ones plus `ScannedNames` / `ScannedFieldInits` of the lines from `start` |
| LocalsTransform.LocalsScanner.EmitOverlay | scripts/transform_cobol_locals.js:112-140 | the pushed lines are `OverlayLines` of the set as it was; the identifiers are `MacroNames`; only `cob_procedure_params` leaves the set |
| LocalsTransform.PushAll | scripts/transform_cobol_locals.js:118-120 | pushing each assignment in turn appends them all, in order |
| LocalsTransform.PushMacroBlocks | scripts/transform_cobol_locals.js:128-133 | pushing each name's four lines in turn appends `MacroBlocks` of the names |
| LocalsTransform.MacroBlocksSnoc | scripts/transform_cobol_locals.js:128-133 | one more name appends one more block |
| LocalsTransform.EmitCleanup | scripts/transform_cobol_locals.js:142-154 | the pushed lines are `CleanupLines`: the guard, the entry-point pop, the names popped last to first, the end guard |
| LocalsTransform.RunTransform | scripts/transform_cobol_locals.js:17-181 | the whole script produces `TransformLocals` of the header's text and the patched file's text |
| LocalsTransform.TransformLocalsIs | scripts/transform_cobol_locals.js:17-164 | `TransformLocals` written out in terms of the intermediate values |
| MacroStack.Parse | scripts/transform_cobol_locals.js:128-137 | the directive a generated line holds, for the shapes the headers use; specified by `ParsePush`, `ParsePop`, `ParseUndef`, `ParseDefine` and `ParseHashOther` |
| MacroStack.Step | scripts/transform_cobol_locals.js:128-131 | the effect of one directive on one macro's definition and saved stack; specified through `RunBlocks`, `RunPops` and `CleanupRestores` |
| MacroStack.Run | scripts/transform_cobol_locals.js:112-154 | one macro's state after reading a header; specified by `RunAppend`, `RunOverlay`, `RunCleanup` and `CleanupRestores` |
| MacroStack.ParsePush | scripts/transform_cobol_locals.js:129 | a generated push line reads as `push_macro` of its name |
| MacroStack.ParsePop | scripts/transform_cobol_locals.js:150 | a generated pop line reads as `pop_macro` of its name |
| MacroStack.ParseUndef | scripts/transform_cobol_locals.js:130 | a generated undef line reads as `#undef` of its name |
| MacroStack.ParseDefine | scripts/transform_cobol_locals.js:131 | a define of a word name, followed by text that does not continue the name, reads as a define of that name with that text |
| MacroStack.ParseHashOther | scripts/transform_cobol_locals.js:113 | `#ifndef` and similar lines are no macro-table directive |
| MacroStack.EndifOther | scripts/transform_cobol_locals.js:139 | the `#endif` line is no macro-table directive |
| MacroStack.DirectivesPlain | scripts/transform_cobol_locals.js:116-119 | lines that do not start with `#` leave the macro table alone |
| MacroStack.GuardsAreWords | scripts/transform_cobol_locals.js:113-146 | the two guard names and `cob_module_global_enter` are word names |
| MacroStack.DirectivesBlock | scripts/transform_cobol_locals.js:128-133 | one name's block reads as push, undef, define of the redirect, nothing |
| MacroStack.DirectivesBlocks | scripts/transform_cobol_locals.js:128-133 | all the blocks read as the blocks' directives |
| MacroStack.DirectivesOverlayHead | scripts/transform_cobol_locals.js:113-117 | the overlay's first five lines define only the guard |
| MacroStack.DirectivesOverlayTail | scripts/transform_cobol_locals.js:134-140 | the overlay's last seven lines push, undefine and redefine the entry point |
| MacroStack.TailDirectives | scripts/transform_cobol_locals.js:134-140 | the same, for any word entry-point name |
| MacroStack.DirectivesCleanupHead | scripts/transform_cobol_locals.js:143-147 | the cleanup's first five lines define the guard and pop the entry point |
| MacroStack.HeadDirectives | scripts/transform_cobol_locals.js:143-147 | the same, for any guard and any name |
| MacroStack.DirectivesCleanupTail | scripts/transform_cobol_locals.js:152-154 | the cleanup's last three lines are no directive |
| MacroStack.DirectivesPops | scripts/transform_cobol_locals.js:148-151 | the pop lines read as pops of the same names |
| MacroStack.AliasPlain | scripts/transform_cobol_locals.js:122-123 | the alias lines are not preprocessor lines |
| MacroStack.MacroNamesWords | scripts/transform_cobol_locals.js:127 | the macro names are word names when the collected names are |
| MacroStack.DirectivesOverlay | scripts/transform_cobol_locals.js:112-140 | the whole overlay reads as: guard, nothing for the assignments and the alias, the blocks, the entry-point redirection |
| MacroStack.DirectivesCleanup | scripts/transform_cobol_locals.js:142-154 | the whole cleanup reads as: guard, entry-point pop, the names' pops, nothing |
| MacroStack.BlocksPushed | scripts/transform_cobol_locals.js:128-133 | the blocks save the names in order and restore none |
| MacroStack.PopsPopped | scripts/transform_cobol_locals.js:148-151 | the pop lines restore the names in order and save none |
| MacroStack.OverlayTailSaves | scripts/transform_cobol_locals.js:134 | the overlay's tail saves only the entry point |
| MacroStack.CleanupHeadSaves | scripts/transform_cobol_locals.js:146 | the cleanup's head restores only the entry point |
| MacroStack.OverlayPushes | scripts/transform_cobol_locals.js:112-140 | the overlay saves the sorted names, then the entry point, and restores nothing |
| MacroStack.CleanupPops | scripts/transform_cobol_locals.js:142-154 | the cleanup restores the entry point, then the names in reverse order, and saves nothing |
| MacroStack.CleanupMirrorsOverlay | scripts/transform_cobol_locals.js:142-154 | the cleanup restores exactly what the overlay saved, in the opposite order |
| MacroStack.RunBlocks | scripts/transform_cobol_locals.js:128-133 | after the blocks of distinct names, a macro is redefined to its redirect if it is one of them, and untouched otherwise |
| MacroStack.RunPops | scripts/transform_cobol_locals.js:148-151 | after the pops of distinct names, a macro is restored once if it is one of them, and untouched otherwise |
| MacroStack.RunOverlayTail | scripts/transform_cobol_locals.js:134-137 | the tail redefines only the entry point |
| MacroStack.RunCleanupHead | scripts/transform_cobol_locals.js:146 | the head restores only the entry point (the guard aside) |
| MacroStack.RunOverlay | scripts/transform_cobol_locals.js:112-140 | the overlay's effect on each macro other than its guard is `AfterOverlay` |
| MacroStack.RunCleanup | scripts/transform_cobol_locals.js:142-154 | the cleanup's effect on each macro other than its guard: the entry point restored, then each name restored once |
| MacroStack.OverlayRedirects | scripts/transform_cobol_locals.js:128-137 | under the overlay, each macro-block name (every collected name but `cob_procedure_params`) is defined as `(cobol_state.NAME)` over its saved definition; the entry point's definition is the text of its `#define` line, `(module_ptr, ..., check) \`; every other macro but the guard is untouched |
| MacroStack.CleanupRestores | scripts/transform_cobol_locals.js:142-154 | overlay then cleanup gives every macro but the two guards back its definition and saved definitions |
| MacroStack.GeneratedHeadersRestore | scripts/transform_cobol_locals.js:112-154 | the same for the headers generated from any scanned declaration block |
| MacroStack.ScannedWordNames | scripts/transform_cobol_locals.js:66-68 | the collected names are word names |
| MacroStack.AssignmentsPlain | scripts/transform_cobol_locals.js:97-110 | no assignment line is a preprocessor line |
| CobInternal.S32Pow | cobolana-cc/libcob/cobinternal.h:394 | the loop returns `base` to the power `exp`, and 1 for any `exp <= 0` |
| CobInternal.PowerFitsBelow | cobolana-cc/libcob/cobinternal.h:394 | when the final power fits in 64 bits, every partial product of the loop does |
| CobInternal.PowerAdd | cobolana-cc/libcob/cobinternal.h:394 | the power of a sum of exponents is the product of the powers |
| CobInternal.IsXmlNameStartChar | cobolana-cc/libcob/cobinternal.h:460 | only ASCII characters pass, each passing one starts an XML name, and on ASCII the test is exactly XML's NameStartChar |
| CobInternal.IsXmlNameChar | cobolana-cc/libcob/cobinternal.h:461 | only ASCII characters pass, each passing one is an XML NameChar, and on ASCII the test is exactly NameChar |
| CobInternal.NameStartIsNameChar | cobolana-cc/libcob/cobinternal.h:460-461 | a character that starts a name may also continue it |
| CobInternal.ContinuationOnly | cobolana-cc/libcob/cobinternal.h:461 | digits, `-` and `.` continue a name but never start one |
| CobInternal.NonAsciiRejected | cobolana-cc/libcob/cobinternal.h:460-461 | both tests reject every non-ASCII character, even where XML allows it |
| CobInternal.CString | cobolana-cc/libcob/cobinternal.h:555 | the C string at the start of a buffer is the text before its first NUL |
| CobInternal.CStringOf | cobolana-cc/libcob/cobinternal.h:555 | a NUL-free text followed by a NUL reads back as that text |
| CobInternal.TempName | cobolana-cc/libcob/cobinternal.h:555 | the buffer starts with `/tmp/cobtmp`, then `ext`, then a NUL; the rest is unchanged; the same buffer is returned; its C string is the prefix and `ext` |
| CobCodes.OpenModeCode | cobolana-cc/libcob/cobinternal.h:213-219 | open modes encode to 0..4 |
| CobCodes.OpenModeOf | cobolana-cc/libcob/cobinternal.h:213-219 | decoding succeeds exactly on 0..4 and inverts the encoding |
| CobCodes.RoundingCode | cobolana-cc/libcob/cobinternal.h:273-281 | rounding modes encode to 0..8, each to its position in declaration order |
| CobCodes.RoundingModeOf | cobolana-cc/libcob/cobinternal.h:273-281 | decoding succeeds exactly on 0..8 and inverts the encoding |
| CobCodes.RoundingCodesInOrder | cobolana-cc/libcob/cobinternal.h:273-281 | the codes are 0..8 in declaration order, each mode listed once |
| CobCodes.OverflowCode | cobolana-cc/libcob/cobinternal.h:420-421 | the two overflow policies encode to 1 and 2 |
| CobCodes.OverflowPolicyOf | cobolana-cc/libcob/cobinternal.h:420-421 | decoding succeeds exactly on 1 and 2 and inverts the encoding |
| CobCodes.OverflowCodesOverlapRounding | cobolana-cc/libcob/cobinternal.h:420-421 | the policy codes equal the codes of `NEAR_AWAY_FROM_ZERO` and `NEAR_EVEN` |
| CobCodes.LockBit | cobolana-cc/libcob/cobinternal.h:296-300 | each lock flag (including `COB_LOCK_OPEN_EXCLUSIVE` of line 347) is a single bit within the low six |
| CobCodes.LockMask | cobolana-cc/libcob/cobinternal.h:296-300 | a set of flags or-ed together stays within the low six bits |
| CobCodes.LockFlagsOf | cobolana-cc/libcob/cobinternal.h:296-300 | a mask tests positive for exactly the flags whose bit it has |
| CobCodes.LockBitsDisjoint | cobolana-cc/libcob/cobinternal.h:296-300 | distinct flags have disjoint bits |
| CobCodes.LockMaskTest | cobolana-cc/libcob/cobinternal.h:296-300 | testing a mask for a flag's bit tells whether the flag was or-ed in |
| CobCodes.LockMaskRoundTrip | cobolana-cc/libcob/cobinternal.h:296-300 | a set of flags is recovered from its mask |
| CobCodes.LockFlagsRoundTrip | cobolana-cc/libcob/cobinternal.h:296-300 | a six-bit mask is the mask of the flags it tests positive for |
| CobCodes.LockMaskInjective | cobolana-cc/libcob/cobinternal.h:296-300 | different sets of flags have different masks |
| CobCodes.ExceptionValue | cobolana-cc/libcob/cobinternal.h:406-416 | exception codes (with those of lines 360, 399-400, 450 and 473) lie in 0x0100..0xFFFF |
| CobCodes.ExceptionOf | cobolana-cc/libcob/cobinternal.h:406-416 | decoding inverts the encoding and fails on every other integer |
| CobCodes.SizeCategory | cobolana-cc/libcob/cobinternal.h:413-416 | overflow, underflow and zero-divide sit in the category 0x06 of `COB_EC_SIZE` |
| CobCodes.BoundCategory | cobolana-cc/libcob/cobinternal.h:406-410 | the subscript, ODO and pointer bound codes, and also the null-pointer and omitted-argument codes, sit in category 0x03 |
| CobCodes.CategoryCodesDistinct | cobolana-cc/libcob/cobinternal.h:399-412 | every code whose low byte is zero has its own high byte |
| CobCodes.ExceptionValuesAboveMax | cobolana-cc/libcob/cobinternal.h:486 | no exception code is below `COB_EC_MAX` |
| CobCodes.FieldTypeCode | cobolana-cc/libcob/cobinternal.h:368-387 | field types encode to values below 0x100 |
| CobCodes.FieldTypeOf | cobolana-cc/libcob/cobinternal.h:368-387 | decoding inverts the encoding and fails on every other integer |
| CobCodes.RedefinitionsAgree | cobolana-cc/libcob/cobinternal.h:386-387 | the repeated definitions of `NUMERIC_FP_DEC128` and `NUMERIC_EDITED` have the same values as the first ones |

## Left out

- File I/O: reading `argv`, `readFileSync`, `existsSync`, `writeFileSync`, the usage message and `process.exit`. `LocalsTransform.RunTransform` takes the header's text and the patched file's text (or its absence) as inputs. It returns the three written texts and the patch outcome; `ExitStatus` gives the exit status.
- The path computations (`path.dirname`, `path.join`). The output files are fields of `Outputs`.
- The JavaScript regular-expression engine. Each of the script's patterns is a hand-written recogniser with one way to match at each position. The unanchored patterns are searched from the left.
- JavaScript strings are UTF-16 code units, modelled as `char`. Every character the patterns and `trim` look at lies in the Basic Multilingual Plane, so results do not change.
- MacroStack: conditional inclusion (`#ifndef` / `#endif`) is not modelled; each header is read once. Only the directive shapes the generated headers use are recognised.
- MacroStack: line continuation and the parameters of function-like macros are not modelled. The entry point's recorded definition is the text of its own `#define` line; `LocalsOverlay.EntryPointContinued` states what the continuation line holds.
- LocalsDeclarations.DeclarationName: its own contract states only that the name is an identifier on a statement line. Which identifier a line registers is stated for the plain, array and attributed declaration shapes by `DeclarationNamePlain`, `DeclarationNameArray` and `AttributeGroupIgnored`, not for every text the name pattern accepts.
- CobInternal.S32Pow: its precondition requires the final power to fit in `int64_t`. Overflow of the product is undefined behaviour in C, so the model states no result for it.
- CobInternal.TempName: its precondition requires room in the buffer for the whole text and that `ext` is a NUL-free C string. `sprintf` checks neither.
- The `cob_is_xml_*` tests: `int` arguments follow C's `int`; values outside the code-point range are covered by the non-ASCII lemma.
- The other constant tables of `cobinternal.h` (screen, file, share, close, comparison, fold, read/write and size constants) and the stub functions that ignore their arguments. They compute nothing.
- The `enum` of `common.h` (context only).
- libc, environment, signal and collation stubs of `cobinternal.h`.
