# Nerdamer inline math: snippet scan and SI formatting

This Dafny project models two parts of an editor plugin that evaluates inline-code snippets with the Nerdamer algebra engine.

**The decoration field of `src/NerdamerWidget.ts`.** On every transaction that has a cursor, `update` walks the inline-code spans of the document in order. For each span, `handleInlineCodeNode` matches the text against four anchored patterns, tried in this order:

- a variable declaration `name:=value`;
- `solve(equation, variable)`;
- an evaluation `expression=?`;
- a function definition `f(x) := body`.

The matching snippet is acted on through the engine:

- a declaration calls `setVar`;
- a solve calls `solve`;
- an evaluation calls `evaluate`;
- a function definition calls `setFunction`.

Unless the cursor is within one position of the span, a replace decoration is then added that shows the result. The engine is abstract:

- its state is a table of variables and a table of functions (`Nerdamer.Tables`);
- `solve` and `evaluate` are uninterpreted functions of that state (`Nerdamer.Algebra`), and so are the library's decisions to accept or refuse a `setVar` or `setFunction`;
- every one of the four calls may throw, and the code does not catch the exception.

**SI formatting in `src/units.ts`.** This part covers:

- the ordered `SI_PREFIXES` table;
- `formatSI`: the numeric-string validator, zero and sign handling, and first-fit prefix selection;
- the lookup that decides whether `multiplyWithPrefix` scales a number.

Numbers are `real`s. A formatted number is a sign, a real mantissa and a prefix symbol (`Units.SiText`), not JavaScript number text.

Modules:

- `Wrappers`: `Option`.
- `Chars`: JavaScript character classes, leading runs, `indexOf` and the first-occurrence `replace`.
- `Patterns`: the four snippet patterns as matchers, each with a predicate for its language, proved equal both ways, and the classifier.
- `Nerdamer`: the engine's state, the `Engine` class and the four display builders.
- `Widget`: the per-span specification `HandleNode`, the scan `Scan`/`UpdateSpec`, and the methods `HandleInlineCodeNode` and `Update`, which follow the code and are proved against them.
- `Numerals`: the numeric pattern of `formatSI` as a numeral syntax with a parse/print round trip, and `Number(...)` of a numeral.
- `Units`: the prefix table, `FormatSI` (a method proved against `FormatSpec`) and `MultiplyWithPrefix`.

Points where the code's behaviour is easy to misread:

- The cursor slack is one position: `from - 1 <= cursor <= to + 1`.
- A cursor at offset 0 counts as no cursor, because of `!cursorPos`.
- There is no result cache and no recompute-near-cursor flag. Every transaction with a cursor rebuilds the whole set.
- Engine exceptions are not caught. They leave `update`, and the engine keeps the declarations registered before the failing span.
- Displays use `=>`.
- A declared name may start with an upper-case letter, because of the `i` flag.
- A function definition's widget shows the raw snippet text. The text `createFunction` returns is discarded.
- The comment on `formatSI` speaks of two decimal places, but the code does not round, and neither does the model.

Regular-expression details are modelled exactly for characters of the basic multilingual plane:

- `\s` is JavaScript's full white-space and line-terminator set (`Chars.IsSpace`);
- `.` excludes the four JavaScript line terminators;
- the `i` flag folds ASCII letters only;
- a greedy `\s*` in front of a capture gives back one blank when nothing else is left (`Patterns.GreedyCapture`).

`Widget.Update` requires the spans in document order: each is a range, and each ends before the next begins. The syntax-tree walk guarantees this, and `RangeSetBuilder` depends on it.

## Model

| member | source | states |
|---|---|---|
| Patterns.MatchDeclaration | src/NerdamerWidget.ts:52 | the declaration pattern as a matcher; specified by `DeclarationMatchIff` |
| Patterns.MatchSolve | src/NerdamerWidget.ts:58 | the solve pattern as a matcher; specified by `SolveMatchSound` and `SolveMatchComplete` |
| Patterns.MatchEvaluate | src/NerdamerWidget.ts:64 | the evaluate pattern as a matcher; specified by `EvaluateMatchIff` and `EvaluateHasOneEquals` |
| Patterns.MatchFunction | src/NerdamerWidget.ts:68 | the function pattern as a matcher; specified by `FunctionMatchSound` and `FunctionMatchComplete` |
| Patterns.Classify | src/NerdamerWidget.ts:52-79 | the four matchers tried in order; its outcomes are stated by `ClassifiedAsSolve`, `ClassifiedAsEvaluate`, `ClassifiedAsFunction` and the exclusion and ordering lemmas |
| Nerdamer.Declare | src/NerdamerWidget.ts:92 | the tables after an accepted `setVar`; specified by `DeclareBindsOnlyName` |
| Nerdamer.Define | src/NerdamerWidget.ts:111 | the tables after an accepted `setFunction`; specified by `DefineBindsOnlyName` |
| Nerdamer.DeclarationDisplay | src/NerdamerWidget.ts:91-94 | what `setNerdamerVariable` returns or throws; `SetNerdamerVariable` is proved to compute it |
| Nerdamer.SolveDisplay | src/NerdamerWidget.ts:97-101 | what `solveExpression` returns or throws; `SolveExpression` is proved to compute it |
| Nerdamer.EvaluateDisplay | src/NerdamerWidget.ts:104-108 | what `evaluateExpression` returns or throws; specified by `EvaluateDisplayOfCapture`, and `EvaluateExpression` is proved to compute it |
| Nerdamer.FunctionDisplay | src/NerdamerWidget.ts:110-113 | what `createFunction` returns or throws; `CreateFunction` is proved to compute it |
| Widget.Act | src/NerdamerWidget.ts:53-72 | the engine call for each kind of snippet; stated case by case by `InterpretDeclaration` … `InterpretNothing` |
| Widget.Interpret | src/NerdamerWidget.ts:50-79 | classification followed by the engine call; specified by the `Interpret…` lemmas and `HandleNodeDecorations` |
| Widget.HandleNode | src/NerdamerWidget.ts:44-88 | one span: the tables after it and its decorations, or a throw; specified by `HandleNodeDecorations` and the four `…Widget` lemmas, and `HandleInlineCodeNode` is proved to compute it |
| Widget.Scan | src/NerdamerWidget.ts:22-28 | the tree walk over the spans; specified by the `Scan…` lemmas, `ScanRegisters` and `LaterSpansSeeEarlierDeclarations` |
| Widget.UpdateSpec | src/NerdamerWidget.ts:16-31 | `update` as a function; specified by `UpdateWithoutCursor` and `UpdateReplacesOldSet`, and `Update` is proved to compute it |
| Chars.IndexFrom | src/NerdamerWidget.ts:105 | `indexOf` from `k`: the pattern occurs at the index found and at no earlier index from `k`; `None` only when it occurs nowhere from `k` |
| Chars.ReplaceFirstAbsent | src/NerdamerWidget.ts:105 | `replace` with a string pattern changes nothing when the pattern's first character does not occur |
| Patterns.SkipSpacesSound | src/NerdamerWidget.ts:58 | the capture of a greedy `\s*(X+)` over a whole string is a non-empty suffix after blanks only, with no leading blank unless it is a single character; `None` exactly for the empty string |
| Patterns.SkipSpacesOfSplit | src/NerdamerWidget.ts:58 | conversely, blanks followed by any greedy capture give exactly that capture |
| Patterns.DeclarationMatchIff | src/NerdamerWidget.ts:52 | the declaration pattern matches with groups `(name, value)` iff the text is `name:=value`, with `name` an identifier (`[a-z_][a-z\d_]*`, case-insensitive) and `value` non-empty with no line terminator |
| Patterns.ClosingCaptureSound | src/NerdamerWidget.ts:58 | the tail `\s*([^)]+)\)$` matched means: blanks, a greedy capture with no `)`, then the final `)` |
| Patterns.ClosingCaptureComplete | src/NerdamerWidget.ts:58 | every such tail is matched, with that capture |
| Patterns.SolveKeywordIgnoringCase | src/NerdamerWidget.ts:58 | the letter-by-letter keyword test is exactly the case-insensitive comparison with `solve(` |
| Patterns.SolveArgumentsSound | src/NerdamerWidget.ts:58 | the arguments found are an equation with no comma, a comma, blanks, and a variable with no `)` followed by the final `)` |
| Patterns.SolveArgumentsComplete | src/NerdamerWidget.ts:58 | every such argument text is read back as that equation and variable |
| Patterns.SolveMatchSound | src/NerdamerWidget.ts:58 | a solve match is the keyword, the equation, `,`, blanks, the variable and `)` |
| Patterns.SolveMatchComplete | src/NerdamerWidget.ts:58 | every text of that shape matches, with those two groups |
| Patterns.EvaluateMatchIff | src/NerdamerWidget.ts:64 | the evaluate pattern matches with group `e` iff the text is `e=?` with `e` non-empty and free of `=` |
| Patterns.EvaluateHasOneEquals | src/NerdamerWidget.ts:64 | the evaluate pattern matches iff the text has at least 3 characters, ends in `?` and holds exactly one `=`, just before the `?` |
| Patterns.AssignedBodySound | src/NerdamerWidget.ts:68 | the tail `\s*:=\s*([^$]+)$` matched means: blanks, `:=`, blanks, then a greedy body without `$` |
| Patterns.AssignedBodyComplete | src/NerdamerWidget.ts:68 | every such tail is matched, with that body |
| Patterns.ParameterGroupSound | src/NerdamerWidget.ts:68 | `\s*([^)]+)\s*\)` matched means: blanks, a greedy parameter without `)` (keeping any trailing blanks), `)`, then the rest |
| Patterns.ParameterGroupComplete | src/NerdamerWidget.ts:68 | every such text is matched, with that parameter and rest |
| Patterns.FunctionNameComplete | src/NerdamerWidget.ts:68 | an identifier followed by a non-word character is taken whole as the function name |
| Patterns.FunctionHeadComplete | src/NerdamerWidget.ts:68 | blanks and `(` after the name lead to the parameter group |
| Patterns.FunctionMatchSound | src/NerdamerWidget.ts:68 | a function-definition match is name, blanks, `(`, blanks, parameter, `)`, blanks, `:=`, blanks, body, with the groups it returns |
| Patterns.FunctionMatchComplete | src/NerdamerWidget.ts:68 | every text of that shape matches, with those three groups |
| Patterns.ClassifiedAsSolve | src/NerdamerWidget.ts:57-61 | unfolding of `Classify`: a text that is not a declaration and matches the solve pattern is classified as that solve |
| Patterns.ClassifiedAsEvaluate | src/NerdamerWidget.ts:63-66 | unfolding of `Classify`: a text that is neither a declaration nor a solve and matches the evaluate pattern is classified as that evaluate |
| Patterns.ClassifiedAsFunction | src/NerdamerWidget.ts:67-72 | unfolding of `Classify`: a text that none of the three earlier patterns matches, and that the function pattern matches, is a function definition |
| Patterns.FunctionClassified | src/NerdamerWidget.ts:68-72 | a text of the function-definition shape that neither solve nor evaluate claims is classified as that definition: the declaration pattern never claims it |
| Patterns.DeclarationExcludesSolve | src/NerdamerWidget.ts:52-58 | no text is both a declaration and a solve |
| Patterns.DeclarationExcludesFunction | src/NerdamerWidget.ts:52-68 | no text is both a declaration and a function definition |
| Patterns.SolveExcludesEvaluate | src/NerdamerWidget.ts:58-64 | no text is both a solve and an evaluate |
| Patterns.DeclarationBeforeEvaluate | src/NerdamerWidget.ts:52-66 | `x:=?` fits the evaluate pattern too, yet is classified as the declaration of `x` with value `?` |
| Patterns.FunctionReadingOfEvaluate | src/NerdamerWidget.ts:68 | the function pattern reads `f(x):=?` as name `f`, parameter `x`, body `?` |
| Patterns.EvaluateBeforeFunction | src/NerdamerWidget.ts:64-72 | `f(x):=?` fits the function pattern, yet is classified as the evaluate of `f(x):` |
| Patterns.FunctionReadingOfSolve | src/NerdamerWidget.ts:68 | the function pattern reads `solve(a):=b,c)` as `solve`, `a`, `b,c)` |
| Patterns.SolveBeforeFunction | src/NerdamerWidget.ts:58-72 | `solve(a):=b,c)` fits the function pattern, yet is classified as the solve of `a):=b` for `c` |
| Patterns.SpacedDeclarationUnrecognized | src/NerdamerWidget.ts:52 | `x := 5`, with blanks around `:=`, matches none of the four patterns |
| Nerdamer.DeclareBindsOnlyName | src/NerdamerWidget.ts:92 | `setVar` binds its name to its value, leaves every other variable as it was and the functions untouched |
| Nerdamer.DefineBindsOnlyName | src/NerdamerWidget.ts:111 | `setFunction` binds its name to its parameter and body, leaves every other function as it was and the variables untouched |
| Nerdamer.EvaluateDisplayOfCapture | src/NerdamerWidget.ts:104-107 | on a text without `=`, the `replace("=?", "")` is a no-op: the engine gets the text itself, and the display is `text => result` |
| Nerdamer.Engine.SetVar | src/NerdamerWidget.ts:92 | reports whether the library accepts the declaration; if it does, the new tables are the old ones with the variable declared, otherwise they are unchanged |
| Nerdamer.Engine.SetFunction | src/NerdamerWidget.ts:111 | reports whether the library accepts the definition; if it does, the new tables are the old ones with the function defined, otherwise they are unchanged |
| Nerdamer.Engine.Solve | src/NerdamerWidget.ts:98 | the answer is the algebra's solve of the current tables |
| Nerdamer.Engine.Evaluate | src/NerdamerWidget.ts:106 | the answer is the algebra's evaluate of the current tables |
| Nerdamer.SetNerdamerVariable | src/NerdamerWidget.ts:91-94 | registers the variable, then returns `variable := value`; if `setVar` throws, lets the exception through and changes no table |
| Nerdamer.SolveExpression | src/NerdamerWidget.ts:97-101 | returns `expression => variable = result`, or lets the engine's exception through, and changes no table |
| Nerdamer.EvaluateExpression | src/NerdamerWidget.ts:104-108 | strips the first `=?`, then returns `expression => result` or lets the exception through |
| Nerdamer.CreateFunction | src/NerdamerWidget.ts:110-113 | registers the function, then returns `name(variable) = expression`; if `setFunction` throws, lets the exception through and changes no table |
| Widget.IsCursorInsideNode | src/NerdamerWidget.ts:39-41 | for a range, the cursor counts as inside exactly when its distance to `[from, to]` is at most 1 |
| Widget.HandleNodeDecorations | src/NerdamerWidget.ts:44-88 | one span gives at most one decoration, over its own range, and one exactly when the text is recognized and the cursor is not next to it; unrecognized text changes nothing whatever the cursor; only recognized text can throw, and a throw leaves the tables as they were |
| Widget.DeclarationWidget | src/NerdamerWidget.ts:52-55 | a declaration the library accepts registers its variable even next to the cursor, and the widget shows `name := value` with the raw value; one it refuses throws and registers nothing |
| Widget.SolveWidget | src/NerdamerWidget.ts:57-61 | a solve passes its two groups to the engine and shows `eq => var = result`, or throws when the engine throws |
| Widget.EvaluateWidget | src/NerdamerWidget.ts:63-66 | an evaluate passes the text before `=?` to the engine unchanged and shows `expr => result`, or throws |
| Widget.FunctionWidget | src/NerdamerWidget.ts:67-72 | a function definition the library accepts registers the function even next to the cursor, and the widget shows the snippet as written; one it refuses throws and registers nothing |
| Widget.UpdateWithoutCursor | src/NerdamerWidget.ts:17-18 | without a cursor, or with the cursor at offset 0, the old set comes back and the engine is untouched |
| Widget.UpdateReplacesOldSet | src/NerdamerWidget.ts:20-30 | with a cursor, the result does not depend on the old set |
| Widget.ScanAppend | src/NerdamerWidget.ts:22-28 | scanning `a + b` is scanning `a`, then `b` from the tables `a` left, and stops at the first exception |
| Widget.ScanRegisters | src/NerdamerWidget.ts:22-28 | a scan that returns leaves the tables with every span's declaration and definition registered in document order |
| Widget.LaterSpansSeeEarlierDeclarations | src/NerdamerWidget.ts:22-28 | once the spans before `i` have been handled, the rest of the scan runs against tables holding all of their declarations and definitions |
| Widget.ScanEngineIgnoresCursor | src/NerdamerWidget.ts:80 | the cursor changes neither the engine's tables nor whether the scan throws |
| Widget.ScanRaisesAtRecognizedSpan | src/NerdamerWidget.ts:52-79 | a scan that throws holds a recognized span: unrecognized text never reaches the engine |
| Widget.ScanDecoratesRecognizedSpans | src/NerdamerWidget.ts:22-30 | the ranges of the decorations are exactly those of the recognized spans away from the cursor, in span order |
| Widget.ScanAscending | src/NerdamerWidget.ts:20-30 | spans in document order give decorations that are sorted and do not overlap |
| Widget.DecorationBuilder.Add | src/NerdamerWidget.ts:81-87 | appends one replace decoration; starts must come in order |
| Widget.InterpretDeclaration | src/NerdamerWidget.ts:52-55 | unfolding of `Interpret`: a declaration match registers the variable and shows its declaration text, or fails when `setVar` refuses |
| Widget.InterpretSolve | src/NerdamerWidget.ts:57-61 | unfolding of `Interpret`: a solve match, when no declaration matches, shows what `solveExpression` returns or fails |
| Widget.InterpretEvaluate | src/NerdamerWidget.ts:63-66 | unfolding of `Interpret`: an evaluate match, when no earlier pattern matches, shows what `evaluateExpression` returns or fails |
| Widget.InterpretFunction | src/NerdamerWidget.ts:67-72 | unfolding of `Interpret`: a function match, when no earlier pattern matches, registers the function and shows the snippet, or fails when `setFunction` refuses |
| Widget.InterpretNothing | src/NerdamerWidget.ts:73-76 | unfolding of `Interpret`: no match: nothing is registered or shown |
| Widget.HandleInlineCodeNode | src/NerdamerWidget.ts:44-88 | the engine ends in the tables `HandleNode` gives; the method reports a throw exactly when `HandleNode` does; otherwise the builder gains exactly the span's decorations |
| Widget.HandleNext | src/NerdamerWidget.ts:22-28 | one visited span keeps the loop invariant: the scan so far followed by the scan of the rest is the whole scan, or a throw ends the whole scan |
| Widget.Update | src/NerdamerWidget.ts:16-31 | the result and the engine's final tables are those of `UpdateSpec`: the old set without a cursor, otherwise the scan of all spans in order |
| Numerals.Parse | src/units.ts:58 | the validator of `formatSI` as a parser into numerals; specified by `ParseSound`, `ParseText` and `ParseIff` |
| Numerals.Value | src/units.ts:60 | `Number(...)` of a well-formed numeral; specified by `ValueZero` and `SignOfValue` |
| Numerals.ParseExponentSound | src/units.ts:58 | an accepted exponent part is `[eE][-+]?\d+` written out, or empty |
| Numerals.ParseExponentComplete | src/units.ts:58 | every such exponent part is read back as itself |
| Numerals.TailSound | src/units.ts:58 | what follows the whole digits is an optional point, fraction digits and an exponent, written out |
| Numerals.TailComplete | src/units.ts:58 | every such tail is read back as itself |
| Numerals.ParseText | src/units.ts:58 | every well-formed numeral, written out, is accepted and read back as itself |
| Numerals.ParseSound | src/units.ts:58 | whatever the validator accepts is a well-formed numeral written out: `[-+]?`, then `\d+(\.\d*)?` or `\.\d+`, then an optional exponent |
| Numerals.ParseIff | src/units.ts:58 | the validator accepts `s` as `n` iff `n` is well formed and spells `s` |
| Numerals.DigitsValueZero | src/units.ts:60 | a digit string is worth 0 iff every digit is `0` |
| Numerals.ValueZero | src/units.ts:60 | `Number` of an accepted string is 0 iff all its mantissa digits are `0`, whatever its sign and exponent |
| Numerals.SignOfValue | src/units.ts:60 | a minus sign negates the value, a plus sign changes nothing, and an unsigned numeral is non-negative |
| Units.FirstFit | src/units.ts:71-76 | the index the `for...in` loop stops at; specified by `FirstFitIsFirst`, `FitQuotient` and `NothingFits` |
| Units.FormatWith | src/units.ts:63-78 | `formatSI` on a number over a table; specified by `ZeroIff`, `SignMirror` and `PrefixIsFirstFit` |
| Units.FormatSpec | src/units.ts:56-79 | `formatSI` as a function; specified by `PassThrough` and `ZeroStringIff`, on numbers by `MantissaRange`, `MicroBeforeU` and `TooSmallIff`, and `FormatSI` is proved to compute it |
| Units.Lookup | src/units.ts:35 | `SI_PREFIXES[key]`; specified by `LookupFinds` |
| Units.MultiplyWithPrefix | src/units.ts:33-38 | the decision of `multiplyWithPrefix`; specified by `MultiplyDecision` and the symbol examples |
| Units.LimitsArePowersOfThousand | src/units.ts:1-24 | every limit is `10^(3k)` for some `k` in -10..10 |
| Units.SymbolRanks | src/units.ts:1-24 | every symbol except the empty one is a single character, distinct from every other |
| Units.KeysUnique | src/units.ts:1-24 | no symbol is listed twice |
| Units.TableShape | src/units.ts:1-24 | the constant `SiPrefixes`, the table in source order: 22 entries, all limits positive, `Q` first, `q` last at `1e-30`, `μ` and `u` both `1e-6` |
| Units.TableSteps | src/units.ts:1-24 | each limit is a thousandth of the one before, except at `u` |
| Units.LimitsDescend | src/units.ts:1-24 | limits never grow along the table |
| Units.FirstFitIsFirst | src/units.ts:71-76 | the entry found is the first from `i` whose limit the value reaches; none is found only when the value is below every limit |
| Units.FindPrefix | src/units.ts:71-76 | the `for...in` loop with its early exit finds exactly that first fit |
| Units.FormatSI | src/units.ts:56-79 | step by step, `formatSI` computes `FormatSpec`: an unaccepted string is passed through, zero gives `"0"`, otherwise the sign, `|x| / limit` and the prefix of the first fit, or the sign and `|x|` when nothing fits |
| Units.PassThrough | src/units.ts:57-59 | a string comes back unchanged iff the validator rejects it |
| Units.ZeroIff | src/units.ts:63-65 | a number formats as `"0"` iff it is zero |
| Units.ZeroStringIff | src/units.ts:57-65 | an accepted string formats as `"0"` iff its mantissa digits are all `0` |
| Units.NegativeZeroString | src/units.ts:57-65 | `"-0"` formats as `"0"` |
| Units.PointZeroString | src/units.ts:57-65 | `"0.0"` formats as `"0"` |
| Units.ScaledZeroString | src/units.ts:57-65 | `"0e5"` formats as `"0"` |
| Units.SignMirror | src/units.ts:68-74 | a positive number gets no sign; its negation gives the same mantissa and prefix, with the minus sign |
| Units.PrefixIsFirstFit | src/units.ts:71-76 | the chosen prefix belongs to the first entry in table order whose limit `|x|` reaches, and its limit times the mantissa is `|x|`; the sign is set iff `x < 0` |
| Units.FitQuotient | src/units.ts:71-76 | at the first fit the quotient is at least 1; it is below 1000 where the limit is a thousandth of the one before; the entry before never has the same limit |
| Units.MantissaRange | src/units.ts:71-76 | the mantissa is at least 1, and below 1000 unless the prefix is `Q` |
| Units.MicroBeforeU | src/units.ts:13-15 | `u` is never chosen: `μ` has the same limit and comes first |
| Units.NothingFits | src/units.ts:71-78 | over a descending table, no entry fits exactly when the value is below the last limit |
| Units.TooSmallIff | src/units.ts:78 | a non-zero number gets no prefix iff `|x| < 1e-30`, and then the result is the sign and `|x|` |
| Units.LookupFinds | src/units.ts:35 | with unique keys, `table[key]` is the limit of the entry with that symbol, and missing only when there is none |
| Units.MultiplyDecision | src/units.ts:33-38 | the number string is left alone iff the prefix is absent, empty or not a key; otherwise it is scaled by that key's limit |
| Units.UnlistedLetters | src/units.ts:33-38 | `h`, `d` and `c`, which the prefix pattern accepts, have no entry and leave the number alone |
| Units.TwoLetterPrefixes | src/units.ts:33-38 | a two-letter prefix such as `da`, which the pattern also accepts, never scales |
| Units.MicroSymbols | src/units.ts:33-38 | `μ` and `u` both scale by `1e-6` |

## Left out

- The syntax-tree walk (`syntaxTree(...).iterate` and the node-type test) is not modelled. Its input is assumed: a sequence of inline-code spans in document order, each with the document text it covers.
- The CodeMirror state-field plumbing is not modelled: `create`, `provide`, the `RangeSet` that `finish` builds, and the builder's start-side details. The new set is the sequence of decorations added.
- `LatexWidget`, `src/NerdamerDOM.ts`, `src/Renderer.ts`, `src/index.ts` and `src/Helpers.ts` are host and UI code, and are not part of this model. The widget is its content string.
- Nerdamer's algebra is uninterpreted: `solve`, `evaluate` and `convertToLaTeX` carry no mathematical content, and their results are text.
- Whether `setVar` or `setFunction` throws is an uninterpreted decision of the tables and the arguments. A call that throws is assumed to leave the tables as they were.
- `multiplyBySiPrefix` (src/units.ts:41-54) is not modelled. Its rewriting loop replaces the first occurrence of each match with the text of a float product, and that depends on the engine's float-to-string output. Only the `multiplyWithPrefix` decision is modelled, with `parseFloat` left abstract: `Scaled` keeps the number string and the factor.
- Floating point is not modelled. Values are exact reals, so the model has no NaN, no Infinity (for example `"1e400"`), no underflow and no rounding of `value / limit`. The text of a number is left abstract.
- `Units.FormatSI`: returns the (sign, mantissa, prefix) triple, not the concatenated string.
- Characters are Unicode scalar values. JavaScript sees a character outside the basic multilingual plane as two UTF-16 code units; the model does not split it, and no pattern depends on that.
- `SI_PREFIXES[prefix]` could also find keys inherited from `Object.prototype`. Every such key is longer than the two characters the prefix pattern allows, so `Lookup` covers only the table's own keys.
- `Widget.ScanAscending`: the decorations do not overlap, but adjacent ones may touch (one ends where the next starts). This holds in the same sense as the spans do.
