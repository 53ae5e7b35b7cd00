# Verified models of the LeekScript toolchain's hardest algorithms

A Dafny project that models the self-contained algorithms of the LeekScript compiler and its
tools, in the form the code has (in-place loops over arrays and objects stay methods and classes,
tables and expressions stay functions), and proves what their documentation promises about them.
Where a promise does not hold on every input, the exact condition under which it holds is proved
as an if-and-only-if, beside a lemma with inputs for which it fails.

`dafny verify dfyconfig.toml` checks everything.

| file | component |
|---|---|
| `Suggest.dfy` | "did you mean" suggestions: bounded edit distance and best match |
| `Operators.dfy`, `Tokens.dfy`, `Printer.dfy` | expressions, tokens and the LeekScript printer's parentheses |
| `TypeGrammar.dfy`, `TypeTrees.dfy` | the type grammar after `instanceof`, and the trees of types it reads |
| `Pratt.dfy`, `Turns.dfy`, `Spellings.dfy` | the expression parser, the `is` lowering, and operators with two spellings |
| `ParseInverse.dfy`, `Reparse.dfy` | what the parser makes of printed text, and exactly when that is the printed tree |
| `MinimalParens.dfy`, `Sparing.dfy` | the fewest parentheses any source of a tree has, and exactly when the printer writes no more |
| `LsWriter.dfy`, `Layout.dfy` | the printer's spacing: tokens never fuse, and where every blank stands |
| `Lexer.dfy`, `Munch.dfy`, `Versions.dfy`, `PrintedText.dfy` | the lexer in every language version, and printed text down to characters |
| `BoxReturns.dfy` | the version 1 box-return analysis of the Java backend |
| `FmtBlank.dfy`, `FmtScan.dfy`, `FmtSource.dfy` | the unwrapped-`write!` lint: literal blanking as an automaton, as the scanner in place, and against the syntax of source text |
| `FmtIdiom.dfy`, `FmtCall.dfy`, `FmtOptOut.dfy` | its matcher, the calls it finds, reported lines and the opt-out marker |
| `Mangle.dfy`, `Rename.dfy`, `Decimals.dfy` | Java identifiers and overload renaming |
| `AbiTag.dfy` | the native backend's FNV-1a ABI tag |
| `Fingerprint.dfy` | the canonical byte stream behind a configuration's digest |
| `GameDispatch.dfy`, `Scratch.dfy` | re-entrant game dispatch; scratch directories shared by many processes |
| `ReportOnce.dfy`, `AotMeta.dfy`, `Layers.dfy` | report-once, dispatch-table flattening, the layering rule |
| `Options.dfy`, `ByteStrings.dfy`, `StringOrder.dfy`, `Sequences.dfy` | the optional value, the bytes, the order of strings and the sequences without repetition that the other modules share |

## What the proofs found

- **Printing, then lexing and parsing, is not always the identity** (`Reparse.RoundTrip`). It is
  exactly when the tree has no `is` operator (it comes back as `==`, and `is !x` as `!= x`), when
  no printed `instanceof C` is directly followed by a token that continues a type, and when the
  printed nesting fits the parser's recursion limit of 256. The module comment of `prec.rs` says
  that the printed form reproduces the parser exactly. The worst case is silent:
  `(x instanceof A) | b` is printed without the parentheses and read back, without a diagnostic,
  as `x instanceof A` (`Reparse.UnionSwallowsOperand`), and `((x instanceof A) < b) > -c` as
  `(x instanceof A) - c` (`Reparse.ArgumentsAreSwallowed`); `(x instanceof A) < b` does not parse.
- **Text printed for language version 1 or 2 does not bring an `instanceof` back**: the lexer makes
  the word a keyword from version 3 on only. In characters the round trip holds under the
  conditions above and, for these two versions, without `instanceof` (`PrintedText.TextRoundTrip`).
- **The printer writes the fewest possible parentheses exactly when it wraps no `instanceof` in
  excess** (`Sparing.PrintIsMinimalIff`): the parser reads `x instanceof C * y` as
  `(x instanceof C) * y`, and the printer writes the second.
- **Newlines do not always survive blanking.** The comment at `xtask/src/fmt_idiom.rs:74-77` says
  they do; a newline behind a backslash in a string or inside a char literal is blanked.
- **The lint's line numbers are one too small for a macro at column 0**, and the opt-out marker of
  such a macro is looked for two lines above it (`FmtOptOut.SuppressedIff`).
- **Moving text between hashed files can leave the ABI tag as it is**
  (`crates/backends/leek-backend-native/build.rs:82-83` says otherwise): the hashed bytes stay the
  same exactly when the moved text commutes with everything that is hashed between the two places,
  as the next file's path does when only that path lies between. For one text moved from anywhere
  in one file to anywhere in another, the tag stays the same exactly when the two orders of these
  bytes are equal or collide in the hash (`AbiTag.MovedTextKeepsTagIff`).
- **`safe_chars` gives two names one Java spelling exactly when they agree after decoding the
  escapes spelled out in them.** The initialisation flag of a global `x` is the Java name of a
  global `init_x`.
- **The first definition of an overload group does not always keep its bare name**
  (`crates/backends/leek-backend-leekscript/src/rename.rs:8-9` says it does): it loses it exactly
  when its name is a suffixed spelling of another overload group that has enough items to get
  there, counted over the input (`Rename.LosesIffReached`). Of `f`, `f`, `f_2`, `f_2`
  the first `f_2` becomes `f_2_2`.

## Model

| member | source | states |
|---|---|---|
| Suggest.DistanceIsMinimal | crates/core/leek-diagnostics/src/suggest.rs:31-37 | the recurrence that the rows tabulate is the least cost over all alignments of the two byte strings: some alignment attains it and none is cheaper |
| Suggest.NoCheaperAlignment | crates/core/leek-diagnostics/src/suggest.rs:31-37 | every alignment of two prefixes costs at least the table entry of those prefixes |
| Suggest.LengthBound | crates/core/leek-diagnostics/src/suggest.rs:16-20 | the length cut-off is sound: the difference in length never exceeds the distance |
| Suggest.BudgetIsAThird | crates/core/leek-diagnostics/src/suggest.rs:56-56 | the budget is the largest number that fits three times into the needle, and at least one |
| Suggest.RowsStayAbove | crates/core/leek-diagnostics/src/suggest.rs:38-40 | the row-minimum early exit is sound: once a whole row is above the budget, so is the final distance |
| Suggest.FillRow | crates/core/leek-diagnostics/src/suggest.rs:31-37 | the inner loop turns row i-1 into row i in the other buffer and returns a lower bound of that row |
| Suggest.Levenshtein | crates/core/leek-diagnostics/src/suggest.rs:11-44 | the two-row program with both exits returns the true distance when it is within `max`, and something above `max` when it is not |
| Suggest.BestMatch | crates/core/leek-diagnostics/src/suggest.rs:48-69 | the first candidate other than the needle with the smallest true distance among those within the budget; none exactly when the needle is empty or no candidate is within it |
| ParseInverse.TablesAgree | crates/backends/leek-backend-leekscript/src/prec.rs:36-68 | every precedence level has one associativity, and all operators of a level have the same binding powers in the parser |
| ParseInverse.PowersFitThresholds | crates/backends/leek-backend-leekscript/src/prec.rs:9-84 | the printer's left and right thresholds separate exactly the operators the parser's binding powers let in |
| Printer.EmittedTokens | crates/backends/leek-backend-leekscript/src/emit/expr.rs:22-75 | the calls the emitter makes stand for exactly the token stream of the parenthesisation rule |
| TypeGrammar.PlainType | crates/frontend/leek-parser/src/grammar/types.rs:256-331 | a class name is a whole type when nothing that continues a type follows, within the depth limit |
| TypeGrammar.UnionType | crates/frontend/leek-parser/src/grammar/types.rs:269-305 | `A \| B` is read as one type |
| TypeGrammar.OpenArgs | crates/frontend/leek-parser/src/grammar/types.rs:351-387 | a `<` that is never closed is an error |
| TypeGrammar.ClosedArgs | crates/frontend/leek-parser/src/grammar/types.rs:351-387 | `A<b>` is read as one type when nothing that continues a type follows, within the depth limit |
| TypeGrammar.TypeTakesMore | crates/frontend/leek-parser/src/grammar/types.rs:269-331 | where a token that continues a type follows a class name, a successful type takes at least that token |
| TypeTrees.TypeIsRead | crates/frontend/leek-parser/src/grammar/types.rs:256-387 | every type written out of class names, argument lists, unions, `?` marks and arrows is read as exactly that type, whatever follows that cannot continue it, or fails exactly when it is nested too deep |
| TypeTrees.TypeApart | crates/frontend/leek-parser/src/grammar/types.rs:351-387 | over every token sequence: reading with `>>` and `>>>` is reading with each taken apart into single closers, pending closers put back |
| TypeTrees.FusedTypeIsRead | crates/frontend/leek-parser/src/grammar/types.rs:351-387 | however the closing brackets of a written type are fused, it is read as that type and nothing is left over |
| ParseInverse.ReadsPrinted | crates/frontend/leek-parser/src/grammar/expr/mod.rs:110-298 | reading a printed tree in which no type meets a token that continues it brings the activation to its operator loop with the whole tree as left side, for every threshold, binding power, depth and remaining input that fit together, and fails exactly when the tree is nested too deep |
| ParseInverse.Operand | crates/frontend/leek-parser/src/grammar/expr/mod.rs:100-298 | a printed operand without such a clash is read completely, or nested too deep, and the parser stops in front of whatever follows it |
| ParseInverse.ReparseOfPrinted | crates/backends/leek-backend-leekscript/src/prec.rs:9-18 | what parsing gives for a printed tree without such a clash, at every enclosing depth: the tree with `is` lowered, or a failure exactly when it is nested too deep |
| Reparse.ExprKeeps | crates/frontend/leek-parser/src/grammar/expr/mod.rs:100-298 | whatever the parser reads successfully, the tree and the input left over stand for no more tokens than it was given |
| Reparse.ClashLoses | crates/frontend/leek-parser/src/grammar/types.rs:269-387 | a printed tree in which a type meets a token that continues it makes the activation fail or lose a token, for every threshold, power, depth and remaining input that fit together |
| Reparse.ClashIsNeverReadBack | crates/backends/leek-backend-leekscript/src/prec.rs:9-18 | such a tree is never read back: the parse fails, or the tree that comes back stands for strictly fewer tokens than were printed |
| ParseInverse.ReloweringKeepsExactlyIsFree | crates/middle/leek-hir/src/lower/expr.rs:471-493 | lowering after reparsing leaves a tree unchanged exactly when it has no `is`, and never leaves one |
| Reparse.RoundTrip | crates/backends/leek-backend-leekscript/src/prec.rs:9-18 | parsing undoes printing exactly for trees without `is`, in which no `instanceof` type meets a token that continues it, and within the depth limit |
| Reparse.PrintIsInjective | crates/backends/leek-backend-leekscript/src/prec.rs:4-7 | two such trees with the same printed tokens are equal |
| Reparse.UnionSwallowsOperand | crates/frontend/leek-parser/src/grammar/types.rs:281-293 | `(l instanceof A) \| b` prints without parentheses and comes back, without a diagnostic, as `l instanceof A`, for every left side that is itself read back |
| Reparse.ArgumentsStayOpen | crates/frontend/leek-parser/src/grammar/types.rs:351-387 | `(l instanceof A) < b` prints without parentheses and does not parse |
| Reparse.ArgumentsAreSwallowed | crates/frontend/leek-parser/src/grammar/types.rs:351-387 | `((l instanceof A) < b) > -x` prints without parentheses and comes back, without a diagnostic, as `(l instanceof A) - x`, for all operands that are themselves read back |
| Reparse.DeepChains | crates/frontend/leek-parser/src/parser.rs:216-260 | a chain of n prefix operators on a name reparses exactly for n up to 255 |
| Spellings.SpellingIsIrrelevant | crates/middle/leek-hir/src/lower/util.rs:262-298 | over every token sequence: writing `&&` for every `and` and `\|\|` for every `or` changes nothing of what the parser reads |
| Spellings.PrefixNotIsBang | crates/middle/leek-hir/src/lower/util.rs:321-332 | wherever an operand begins, `not` is read as `!` |
| Spellings.AndOrInText | crates/frontend/leek-syntax/src/kind.rs:337-437 | the characters `a and b` and `a or b` are read as conjunction and disjunction, in every version |
| MinimalParens.ParensArePrinted | crates/backends/leek-backend-leekscript/src/emit/expr.rs:22-32 | the printed tokens hold exactly one `(` for each child whose precedence is below its threshold |
| MinimalParens.ExprPays | crates/frontend/leek-parser/src/grammar/expr/mod.rs:100-298 | any successful activation has consumed at least the parentheses that what it read needs there, and stops only in front of something it may not take |
| MinimalParens.SourcesNeedLeast | crates/frontend/leek-parser/src/grammar/expr/mod.rs:100-298 | every token sequence the parser reads as a given tree, `instanceof` included, has at least the least number of parentheses of that tree |
| Sparing.LeastIsAttained | crates/frontend/leek-parser/src/grammar/expr/mod.rs:100-298 | some token sequence with exactly that number is read as the tree |
| Sparing.ExcessIsTheDifference | crates/backends/leek-backend-leekscript/src/emit/expr.rs:22-32 | the printer writes that number exactly when it wraps no `instanceof` that could stand bare |
| Sparing.PrintIsMinimalIff | crates/backends/leek-backend-leekscript/src/prec.rs:4-18 | for every tree that is read back: no source of the tree has fewer parentheses than the printed form, exactly when the printer wraps no `instanceof` in excess |
| Sparing.InstanceofIsOverParenthesised | crates/frontend/leek-parser/src/grammar/expr/mod.rs:233-247 | the excess is real: `x instanceof C * y` has no parenthesis, its printed form has one |
| LsWriter.OutputSplitsIntoTokens | crates/backends/leek-backend-leekscript/src/writer.rs:76-140 | for every sequence of calls the finished text splits into exactly the word, operator and single-character runs of the tokens, in order: no two tokens fuse |
| LsWriter.CompactAndPrettyAgree | crates/backends/leek-backend-leekscript/src/writer.rs:98-120 | compact and pretty output, under any blank indent units, carry the same runs |
| LsWriter.StepExtends | crates/backends/leek-backend-leekscript/src/writer.rs:76-128 | one call adds blanks and, for a token, its text placed so that it fuses with nothing before it |
| LsWriter.RunsConcat | crates/backends/leek-backend-leekscript/src/writer.rs:138-140 | where no separator is needed between two texts, their runs are the runs of the whole |
| Layout.EveryCallAdds | crates/backends/leek-backend-leekscript/src/writer.rs:76-128 | after any calls, what the next one adds to the text: one blank for a space off a fresh line, the owed indentation in front of the first token of a line, one blank between two tokens exactly where they would fuse; compact mode drops spaces and line breaks |
| Layout.DepthIsLargestBalance | crates/backends/leek-backend-leekscript/src/writer.rs:122-128 | the indentation owed is the largest balance of indents over dedents of any end of the calls |
| Layout.TextIsShown | crates/backends/leek-backend-leekscript/src/emit/expr.rs:22-75 | the finished text of an expression, blank by blank: infix operators set apart in pretty mode, no other blank than where two tokens would fuse, parentheses where the operand binds too weakly, one line break at the end in pretty mode |
| Layout.SumIsSpaced | crates/backends/leek-backend-leekscript/src/writer.rs:98-108 | `a + b` has its blanks in pretty mode and none in compact mode |
| LsWriter.Writer.Token | crates/backends/leek-backend-leekscript/src/writer.rs:76-96 | the object's fields move as the state machine's token step: pending indentation, the merge guard, the text, the remembered character |
| LsWriter.Writer.Space | crates/backends/leek-backend-leekscript/src/writer.rs:100-108 | the same for a soft space, dropped in compact mode and at a line start |
| LsWriter.Writer.Newline | crates/backends/leek-backend-leekscript/src/writer.rs:113-120 | the same for a line break |
| LsWriter.Writer.Indent | crates/backends/leek-backend-leekscript/src/writer.rs:122-124 | the same for an indent |
| LsWriter.Writer.Dedent | crates/backends/leek-backend-leekscript/src/writer.rs:126-128 | the same for a dedent, which saturates at zero |
| LsWriter.Writer.IntoString | crates/backends/leek-backend-leekscript/src/writer.rs:130-135 | pretty text that does not end in a line break gets one, any other text is returned as it is |
| Lexer.OperatorStopsAt | crates/frontend/leek-lexer/src/operators.rs:19-129 | the operator at a position does not depend on anything behind the first character that is no operator character |
| Lexer.NextTokenStops | crates/frontend/leek-lexer/src/lib.rs:105-185 | the first token of a text stays the same when text is appended that the writer may put there without a separator |
| Lexer.LexConcat | crates/frontend/leek-lexer/src/lib.rs:93-185 | lexing two texts that the writer may put side by side is lexing each |
| Lexer.LexicalIff | crates/backends/leek-backend-leekscript/src/writer.rs:138-140 | the writers these results speak of are exactly those whose alphanumeric test covers the identifier letters and digits |
| Lexer.CaseOfKeywords | crates/frontend/leek-syntax/src/kind.rs:410-437 | up to version 2 the case of a word does not decide whether it is a keyword, apart from `function` and `class` |
| Lexer.CapitalClassIsFree | crates/frontend/leek-syntax/src/kind.rs:418-431 | `Class` and `Function` in any other case are identifiers up to version 2 |
| Lexer.KeywordsStay | crates/frontend/leek-syntax/src/kind.rs:337-437 | a keyword in small letters stays the same keyword in every later version |
| Lexer.KeywordsByVersion | crates/frontend/leek-syntax/src/kind.rs:443-484 | `VAR` is a keyword up to version 2 only, `class` from version 2 on, `instanceof` from version 3 on |
| Munch.OperatorIsSpelled | crates/frontend/leek-lexer/src/operators.rs:19-129 | the operator matched on the next characters is the one spelled there, in its whole width |
| Munch.OperatorIsLongest | crates/frontend/leek-lexer/src/operators.rs:19-129 | no operator that stands there is wider than the one matched, and none is missed except where a comment opens |
| PrintedText.SymbolText | crates/backends/leek-backend-leekscript/src/prec.rs:86-135 | in every version an operator's spelling lexes to the token the parser expects for it, `not in` to two; only `instanceof` is an identifier before version 3 |
| PrintedText.RunLexes | crates/backends/leek-backend-leekscript/src/writer.rs:76-120 | whatever the calls, the text lexes to the tokens of the calls, up to what the version makes of `instanceof` |
| PrintedText.TextLexes | crates/backends/leek-backend-leekscript/src/emit/expr.rs:22-75 | the characters of a printed expression whose names are identifiers of the version lex to its printed tokens, up to what the version makes of `instanceof`, in compact and pretty mode |
| Versions.OldVersionsReadNone | crates/frontend/leek-syntax/src/kind.rs:337-437 | what the parser reads from the tokens of version 1 or 2 has no `instanceof` |
| PrintedText.TextRoundTrip | crates/backends/leek-backend-leekscript/src/prec.rs:4-18 | printing to characters, lexing and parsing gives the tree back exactly under the condition of `Reparse.RoundTrip` and, in versions 1 and 2, for no tree with `instanceof`; names are identifiers that the version does not reserve |
| PrintedText.TextOfUnionLosesOperand | crates/frontend/leek-parser/src/grammar/types.rs:281-293 | the silent change of `Reparse.UnionSwallowsOperand`, down to characters and in both layouts |
| PrintedText.Emit | crates/backends/leek-backend-leekscript/src/emit/expr.rs:22-75 | the recursive emitter drives the writer through exactly the specified call sequence |
| PrintedText.PrintExpression | crates/backends/leek-backend-leekscript/src/emit/expr.rs:22-75 | a fresh writer produces the text that `TextRoundTrip` and `Layout.TextIsShown` speak about |
| BoxReturns.V1BoxReturners | crates/backends/leek-backend-java/src/analysis.rs:420-453 | the loop ends and returns exactly the functions and variables with a finite chain of forwarded returns to direct evidence, whatever the iteration order |
| BoxReturns.PassFns | crates/backends/leek-backend-java/src/analysis.rs:437-442 | one pass, in any order and growing its own set, adds only justified functions, and one that changes nothing leaves nothing to add |
| BoxReturns.PassVars | crates/backends/leek-backend-java/src/analysis.rs:443-448 | the same over variables |
| BoxReturns.ReturnsBoxIsLeast | crates/backends/leek-backend-java/src/analysis.rs:420-453 | the answer lies inside every pair of sets closed under forwarding |
| BoxReturns.JustifiedAndClosedIsExact | crates/backends/leek-backend-java/src/analysis.rs:420-453 | any justified closed pair of sets is the answer, so the order of growth cannot show |
| BoxReturns.CyclesAloneStayOut | crates/backends/leek-backend-java/src/analysis.rs:420-420 | a node stays out exactly when it lies in some set that forwards inside itself, such as a cycle, and has no direct member |
| FmtBlank.BlankedKeepsLength | xtask/src/fmt_idiom.rs:78-195 | the blanked text has the byte length of the source |
| FmtBlank.BlankedIsFixpoint | xtask/src/fmt_idiom.rs:74-195 | the blanked text holds no literal and no comment: scanning it again sees only code and changes nothing |
| FmtBlank.NewlinesSurviveIff | xtask/src/fmt_idiom.rs:74-77 | line counts survive blanking exactly when no newline is in a char literal or directly behind a backslash |
| FmtBlank.EscapedNewlineIsLost | xtask/src/fmt_idiom.rs:153-153 | a string literal with an escaped line break loses it |
| FmtBlank.LineCommentBlanked | xtask/src/fmt_idiom.rs:97-101 | an ASCII line comment becomes as many spaces and quiet text behind it stays |
| FmtSource.BlockCommentsNest | xtask/src/fmt_idiom.rs:102-122 | a block comment with any comments nested in it is a comment up to the closer of its own opener, and code goes on behind it |
| FmtSource.RawStringsClose | xtask/src/fmt_idiom.rs:123-148 | a raw string ends at the first quote with as many hashes behind it as it was opened with |
| FmtSource.StringsClose | xtask/src/fmt_idiom.rs:149-165 | a string ends at the first quote that no backslash escapes |
| FmtSource.CharsClose | xtask/src/fmt_idiom.rs:166-187 | a tick opens a char literal in front of an escape or of a character and a tick, which ends at the first tick that no backslash escapes |
| FmtSource.SourceIsBlanked | xtask/src/fmt_idiom.rs:74-195 | a source written as code, comments and literals is left with exactly its code, the line breaks of comments, raw strings and unescaped string text, and spaces of the same byte length for all else |
| FmtScan.Keep | xtask/src/fmt_idiom.rs:82-86 | copying character k writes its bytes at its offset and nothing else |
| FmtScan.BlankLiterals | xtask/src/fmt_idiom.rs:78-195 | the scan ends without an index out of range, and its byte buffer is the UTF-8 form of the text that a one-character-at-a-time automaton blanks: each character copied whole or replaced by as many spaces as it has bytes |
| FmtScan.ScanBlockComment | xtask/src/fmt_idiom.rs:102-122 | the nested-comment loop follows the automaton from the opening mark to the end of the outermost comment |
| FmtScan.ScanRawString | xtask/src/fmt_idiom.rs:136-147 | the raw-string loop follows the automaton to the quote with the opening number of hashes |
| FmtScan.ScanString | xtask/src/fmt_idiom.rs:149-165 | the string loop follows the automaton, escapes included |
| FmtScan.ScanLineComment | xtask/src/fmt_idiom.rs:97-101 | the line-comment loop follows the automaton up to the line break |
| FmtScan.ScanR | xtask/src/fmt_idiom.rs:123-148 | an `r` followed by hashes and a quote is a raw string, any other is plain code |
| FmtScan.ScanCharLiteral | xtask/src/fmt_idiom.rs:176-186 | the char-literal loop follows the automaton, escapes and newlines included |
| FmtIdiom.CloseParen | xtask/src/fmt_idiom.rs:198-213 | the first point at which the running parenthesis count is back to zero, or none when there is no such point |
| FmtCall.GroupCloses | xtask/src/fmt_idiom.rs:198-213 | a group with any groups nested in it closes at the parenthesis that matches its first one |
| FmtIdiom.TailOf | xtask/src/fmt_idiom.rs:230-250 | finds a tail exactly when the position holds a whole macro name, white space, a balanced group, white space and that tail |
| FmtIdiom.NameStandsAlone | xtask/src/fmt_idiom.rs:222-233 | the macro name counts behind any text that does not end in a word character, and behind no other |
| FmtCall.CallIsFound | xtask/src/fmt_idiom.rs:216-248 | a call with any blanks and any balanced arguments, and the tail behind any blanks, is found wherever its name stands alone |
| FmtIdiom.PartsAreUnique | xtask/src/fmt_idiom.rs:230-250 | all parts of a match are determined by its position |
| FmtIdiom.Find | xtask/src/fmt_idiom.rs:224-226 | the first occurrence of the macro name from an offset, or none |
| FmtIdiom.NoSelfOverlap | xtask/src/fmt_idiom.rs:224-226 | going on behind a match of the macro name skips no other match |
| FmtIdiom.ViolationsOf | xtask/src/fmt_idiom.rs:221-262 | the scan for one macro name contributes, in order, what each position of the blanked text contributes, skipping none |
| FmtIdiom.ViolationsIn | xtask/src/fmt_idiom.rs:216-265 | the report holds what the scans for `write` and `writeln` report, as often as they do, in ascending order: lines never decrease, nor names within a line, nor tails of one name |
| FmtIdiom.SortSorts | xtask/src/fmt_idiom.rs:263-263 | the final sort ascends and keeps every violation as often as it occurs |
| FmtIdiom.ReportedIffUnwrapped | xtask/src/fmt_idiom.rs:216-265 | a violation is in the report exactly when some position holds the unwrapped, not opted-out call it describes |
| FmtIdiom.BoundarySurvives | xtask/src/fmt_idiom.rs:251-251 | a match position of the blanked text is a character boundary of the source at the same byte offset, so slicing the source there is in range |
| FmtIdiom.ReportedLineIsTrueIff | xtask/src/fmt_idiom.rs:251-251 | the reported line is the macro's own exactly when the macro is not at column 0 of a later line; there it is one less |
| FmtOptOut.NthLineIs | xtask/src/fmt_idiom.rs:268-274 | the line behind any text of whole lines has as its number the newlines of that text |
| FmtIdiom.ContainsIff | xtask/src/fmt_idiom.rs:268-274 | the marker counts wherever in the line it stands |
| FmtOptOut.SuppressedIff | xtask/src/fmt_idiom.rs:251-274 | an unwrapped call is passed over exactly when the line directly above it carries the marker, if a character other than a line break stands before it, and else exactly when the line two above does |
| FmtOptOut.MarkerMissedAtColumnZero | xtask/src/fmt_idiom.rs:251-274 | an unwrapped call at column 0 directly below any line comment with the marker is reported all the same |
| Mangle.SafeChars | crates/backends/leek-backend-java/src/mangle.rs:122-135 | the nested loops escape every unsafe character, one `_uXXXX` per UTF-16 unit, and copy the others |
| Mangle.PairRoundTrip | crates/backends/leek-backend-java/src/mangle.rs:129-131 | the two UTF-16 units of a character beyond 0xFFFF are a surrogate pair that decodes to it |
| Mangle.EscapeReadsBack | crates/backends/leek-backend-java/src/mangle.rs:124-132 | an escaped character is read back, whatever follows it |
| Mangle.UnescapedSafe | crates/backends/leek-backend-java/src/mangle.rs:122-135 | decoding an escaped name is decoding the name: escaping creates no new escape across characters |
| Mangle.SafeUnescaped | crates/backends/leek-backend-java/src/mangle.rs:122-135 | escaping does not see whether escapes in the name were decoded first |
| Mangle.SafeCollidesIff | crates/backends/leek-backend-java/src/mangle.rs:118-135 | two names share a Java spelling exactly when they agree after decoding |
| Mangle.LeftInverseIff | crates/backends/leek-backend-java/src/mangle.rs:118-135 | decoding inverts escaping exactly for the names that spell no escape of an unsafe character |
| Mangle.SafeIsInjectiveOnEscapeFree | crates/backends/leek-backend-java/src/mangle.rs:118-135 | distinct names that spell no escape never share a Java name |
| Mangle.UnescapedIsEscapeFree | crates/backends/leek-backend-java/src/mangle.rs:118-135 | the decoded name spells no escape and has the same Java spelling, so every class of colliding names has one escape-free member |
| Mangle.SafeIsIdempotent | crates/backends/leek-backend-java/src/mangle.rs:118-135 | only ASCII letters, digits and `_` come out, and escaping again changes nothing |
| Mangle.SafeIsIdentityIff | crates/backends/leek-backend-java/src/mangle.rs:122-135 | escaping leaves exactly the words of ASCII letters, digits and `_` as they are |
| Mangle.PlainWordsArePrefixed | crates/backends/leek-backend-java/src/mangle.rs:138-179 | such a word gets the prefix of its kind and nothing else |
| Mangle.StrippedClassNameIff | crates/backends/leek-backend-java/src/mangle.rs:164-172 | behind the first two characters of a class name stands the declared name exactly when that is such a word |
| Mangle.JavaNamesCollideIff | crates/backends/leek-backend-java/src/mangle.rs:138-162 | in exact mode functions, locals and globals never collide with each other, and within a kind only as `SafeCollidesIff` says |
| Mangle.EscapeCollides | crates/backends/leek-backend-java/src/mangle.rs:118-135 | `é` and `_u00E9` share their Java name |
| Mangle.InitFlagCollidesIff | crates/backends/leek-backend-java/src/mangle.rs:174-179 | the initialisation flag of a global `x` is the Java name of exactly the globals that are `init_x` up to escapes, and of no function or local |
| AbiTag.MulInverse | crates/backends/leek-backend-native/build.rs:63-63 | multiplication by the FNV prime modulo 2^64 is undone by its modular inverse, on both sides |
| AbiTag.XorSetsDifferences | crates/backends/leek-backend-native/build.rs:62-62 | a bit of the exclusive or is set exactly where the two numbers differ |
| AbiTag.HashOfA | crates/backends/leek-backend-native/build.rs:51-66 | the hash of the one byte `a` is the published test vector of 64-bit FNV-1a |
| AbiTag.StepIsBijective | crates/backends/leek-backend-native/build.rs:60-65 | every FNV-1a step is a bijection of the 64-bit state |
| AbiTag.StepIsInjectiveInByte | crates/backends/leek-backend-native/build.rs:60-65 | a step tells any two bytes apart |
| AbiTag.HashConcat | crates/backends/leek-backend-native/build.rs:60-65 | feeding pieces is feeding their concatenation |
| AbiTag.OneByteChangesHash | crates/backends/leek-backend-native/build.rs:60-65 | replacing one byte anywhere in the input changes the final state |
| AbiTag.Fnv.Write | crates/backends/leek-backend-native/build.rs:60-65 | the object's state becomes the hash of the bytes from its old state |
| AbiTag.ComputeTag | crates/backends/leek-backend-native/build.rs:68-87 | version, then path and content of each file, in sixteen hexadecimal digits |
| AbiTag.OneByteOfAFileMovesTheTag | crates/backends/leek-backend-native/build.rs:78-87 | replacing any single byte of any hashed file always changes the tag |
| AbiTag.OneByteOfTheVersionMovesTheTag | crates/backends/leek-backend-native/build.rs:71-77 | the same for the crate version |
| AbiTag.MovedTextKeepsStreamIff | crates/backends/leek-backend-native/build.rs:78-86 | moving text between any places of any two hashed files, either way, leaves the hashed bytes alone exactly when the text commutes with everything hashed between the places |
| AbiTag.MovedTextKeepsTagIff | crates/backends/leek-backend-native/build.rs:82-87 | it leaves the tag alone exactly when the hash, in the state reached there, takes the text and what lies between in both orders to the same state: they are the same bytes or collide |
| AbiTag.FrontMoveKeepsTagIff | crates/backends/leek-backend-native/build.rs:82-87 | the same for text from the front of a file to the end of the one before, where only the file's path lies between |
| AbiTag.MovedPathKeepsTheTag | crates/backends/leek-backend-native/build.rs:82-85 | text that moves without moving the tag: the next file's own path |
| AbiTag.MovedMiddleKeepsTheTag | crates/backends/leek-backend-native/build.rs:82-85 | text that does so without commuting with the path: the path and the text it is put behind |
| AbiTag.HexIsInjective | crates/backends/leek-backend-native/build.rs:87-87 | equal hexadecimal forms mean equal states |
| AbiTag.TagReadsBack | crates/backends/leek-backend-native/build.rs:87-87 | the tag read in base 16 is the hash |
| Rename.Build | crates/backends/leek-backend-leekscript/src/rename.rs:21-63 | for distinct items the map covers exactly the emitted functions, is injective, spells every one as its name or the name with a decimal suffix, leaves non-overloaded names alone, gives every item of an overload group the spelling that `Gets` determines from the input, and the first one its bare name exactly when the group does not lose it |
| Rename.KeepsUngenerated | crates/backends/leek-backend-leekscript/src/rename.rs:8-9 | a group keeps its bare name when no overloaded name generates it as a suffix |
| Rename.LosesGenerated | crates/backends/leek-backend-leekscript/src/rename.rs:44-61 | it loses it when such a name has at least as many items as the suffix counts |
| Rename.LosesIffReached | crates/backends/leek-backend-leekscript/src/rename.rs:44-61 | counted over the input: an overload group loses its bare name exactly when that name is the suffix k of another overload group whose items outnumber the free suffixes below k, and the bare name if that group keeps it |
| Rename.FirstOverloadCanLoseItsName | crates/backends/leek-backend-leekscript/src/rename.rs:44-61 | of `f`, `f`, `f_2`, `f_2` the first `f_2` is spelled `f_2_2` and nothing else |
| Rename.GroupByName | crates/backends/leek-backend-leekscript/src/rename.rs:22-32 | the groups hold exactly the emitted functions, under their names and in declaration order |
| Rename.NameSingles | crates/backends/leek-backend-leekscript/src/rename.rs:37-43 | functions alone under their name get exactly that name |
| Rename.Probe | crates/backends/leek-backend-leekscript/src/rename.rs:49-58 | the probing loop ends, and with the first candidate of its sequence (bare name or counter, then counting up) that is free |
| Rename.NameGroup | crates/backends/leek-backend-leekscript/src/rename.rs:44-62 | a group is added without disturbing earlier names: its first item takes the bare name when that is free, every other one the next free suffix in order |
| Rename.SuffixedIsInjective | crates/backends/leek-backend-leekscript/src/rename.rs:52-57 | a suffixed spelling determines both the name and the counter, so a finite set of used names is left and no two groups generate one suffix |
| Decimals.DecimalReadsBack | crates/backends/leek-backend-leekscript/src/rename.rs:52-57 | the suffix read in base ten is the counter, and only zero starts with a zero |
| GameDispatch.RunIsSound | crates/backends/leek-backend-native/src/game.rs:33-74 | over every finite tree of nested dispatches, installs and panics: no runtime is entered while it is on the call stack, none is in two of slot, stack and destroyed, none is lost and none appears from nowhere |
| GameDispatch.DispatchRestoresSlot | crates/backends/leek-backend-native/src/game.rs:45-74 | after a dispatch the slot holds what the callee left installed, else the runtime that was taken; a callee that installs nothing cannot change it, even by panicking |
| GameDispatch.NoInstallKeepsStore | crates/backends/leek-backend-native/src/game.rs:41-74 | any run that neither installs nor clears leaves slot and runtimes as they were |
| GameDispatch.EmptySlotEntersNobody | crates/backends/leek-backend-native/src/game.rs:37-45 | while the slot is empty, re-entrant calls reach no runtime |
| GameDispatch.PanicsIffEscapes | crates/backends/leek-backend-native/src/game.rs:45-74 | without installs a run panics exactly when its own steps do, or an entered runtime does whose panic nobody catches |
| GameDispatch.UncaughtPanicEndsTheRun | crates/backends/leek-backend-native/src/game.rs:48-74 | behind an uncaught panic nothing runs: the outcome does not depend on what comes next |
| GameDispatch.EveryDispatchEnters | crates/backends/leek-backend-native/src/game.rs:37-74 | without installs and uncaught panics the occupant is entered once for every dispatch of the host, and nobody else ever is |
| GameDispatch.SlotHoldsLastInstalled | crates/backends/leek-backend-native/src/game.rs:33-74 | where only the host installs, the slot ends up with what it installed or cleared last |
| GameDispatch.GameSlot.DispatchCall | crates/backends/leek-backend-native/src/game.rs:48-74 | the slot object moves as one dispatch of the specified run, on return and on panic |
| GameDispatch.GameSlot.Execute | crates/backends/leek-backend-native/src/game.rs:33-74 | a whole run of installs, dispatches and panics moves the slot object as the specification says |
| GameDispatch.GameSlot.SetGameRuntime | crates/backends/leek-backend-native/src/game.rs:33-35 | the old occupant is destroyed and the new one installed |
| Scratch.ScratchIsExclusive | crates/backends/leek-backend-native/src/aot.rs:355-420 | over every interleaving of any number of processes and threads, reused process ids included, no two live scratch values hold one path, and each path exists |
| Scratch.RunKeepsInv | crates/backends/leek-backend-native/src/aot.rs:375-420 | every live value's directory exists and was made by that very value, after every run |
| Scratch.OnlyTheMakerRemoves | crates/backends/leek-backend-native/src/aot.rs:405-420 | a drop removes only the directory its own value created |
| Scratch.DropRemovesItsDirectory | crates/backends/leek-backend-native/src/aot.rs:405-420 | dropping a value removes its directory unless it is kept, and touches no other |
| Scratch.LoneThreadMakesFirstFree | crates/backends/leek-backend-native/src/aot.rs:375-420 | an undisturbed thread of the protocol makes and holds the first of its 1024 names that is free; dropping the value leaves the directories as they were, unless it is kept |
| Scratch.NewProcessMakesFirstFree | crates/backends/leek-backend-native/src/aot.rs:375-398 | so does the first thread of a process that has just started, in any world |
| Scratch.LoneThreadGivesUp | crates/backends/leek-backend-native/src/aot.rs:384-398 | with all 1024 names taken it gives up and has touched nothing |
| Scratch.PlantedDirectoriesSurvive | crates/backends/leek-backend-native/src/aot.rs:389-391 | a directory somebody else put there is never wiped, replaced or adopted |
| Scratch.LiveKeepsItsDirectory | crates/backends/leek-backend-native/src/aot.rs:356-361 | a live value keeps its directory through any steps of the others |
| Scratch.DirNameIsInjective | crates/backends/leek-backend-native/src/aot.rs:386-386 | different process ids or sequence numbers give different names |
| Scratch.CandidatesDiffer | crates/backends/leek-backend-native/src/aot.rs:384-386 | the 1024 tries use 1024 different names, also across a wrap-around of the counter |
| Scratch.ScratchBase.NewIn | crates/backends/leek-backend-native/src/aot.rs:375-398 | the first candidate that is not there is created and nothing else changes; another failure of its creation ends the search at once, and giving up means all 1024 were taken |
| Fingerprint.BuiltinsStreamsAgreeIff | crates/core/leek-config/src/lib.rs:227-257 | two registries feed the hasher the same bytes exactly when they are equal, whatever the iteration orders |
| Fingerprint.ConfigStreamsAgreeIff | crates/core/leek-config/src/lib.rs:303-310 | the same for whole configurations |
| Fingerprint.SortedOrdersAgreeIff | crates/core/leek-config/src/lib.rs:250-257 | two enumerations sort to the same list exactly when they enumerate the same table |
| Fingerprint.SortSorts | crates/core/leek-config/src/lib.rs:254-256 | sorting yields an ascending list with the same entries |
| Fingerprint.EntriesEnd | crates/core/leek-config/src/lib.rs:237-246 | an entry stream can be read back unambiguously whatever bytes follow it |
| Fingerprint.Hasher.HashSorted | crates/core/leek-config/src/lib.rs:250-257 | one table is fed as its length and its sorted entries |
| Fingerprint.Hasher.HashInto | crates/core/leek-config/src/lib.rs:228-247 | the hasher object is fed exactly the registry's stream after what it was fed before |
| ReportOnce.CompileAndReport | bins/miku/src/cmd/scope.rs:60-88 | every target is compiled, or included by an earlier compilation and then never compiled; no emission prints a diagnostic of a file that an earlier one covers; each prints exactly what no earlier one claimed, in target order, and the answer says whether an error was printed; what was printed before an early return obeys the same rules |
| ReportOnce.PrintedByFirstCover | bins/miku/src/cmd/scope.rs:76-85 | a diagnostic is printed in full by the first compilation that has its file in it, itself or included, always when its file is unknown, and never again |
| ReportOnce.CompiledFilesHolds | bins/miku/src/cmd/scope.rs:90-101 | a compilation covers exactly the file it compiles and the files it includes, each under the key of the last include with its id, or of the compiled path |
| ReportOnce.UnreportedKeepsExactlyFresh | bins/miku/src/cmd/scope.rs:108-122 | the filter keeps every fresh diagnostic as often as it occurs and nothing else |
| ReportOnce.UnreportedKeepsOrder | bins/miku/src/cmd/scope.rs:108-122 | the filter keeps the order |
| ReportOnce.Targets | bins/miku/src/cmd/scope.rs:39-52 | the entry alone, or entry, sources and tests without later duplicates |
| ReportOnce.DeduplicatedListsEachFileOnce | bins/miku/src/cmd/scope.rs:47-51 | the same files are listed, each once, the entry first |
| ReportOnce.DeduplicatedKeepsFirsts | bins/miku/src/cmd/scope.rs:47-51 | what is kept are the first paths to each file, in the order listed |
| AotMeta.RegroupUndoesFlatten | crates/backends/leek-backend-native/src/aot_meta.rs:161-167 | regrouping the flattened method table gives it back up to classes with no methods |
| AotMeta.MethodQueriesSurvive | crates/backends/leek-backend-native/src/aot_meta.rs:161-168 | every (class, method) query answers as before; the table is the same exactly when no class is empty |
| AotMeta.Flatten | crates/backends/leek-backend-native/src/aot_meta.rs:122-125 | one triple per method, whatever the iteration order |
| AotMeta.Regroup | crates/backends/leek-backend-native/src/aot_meta.rs:161-167 | the insertion loop computes the regrouped table |
| AotMeta.CollectUndoesListing | crates/backends/leek-backend-native/src/aot_meta.rs:169-177 | collecting a table listed in any order gives the table |
| AotMeta.InstallUndoesBuild | crates/backends/leek-backend-native/src/aot_meta.rs:46-198 | the program installs every table the compiler had, the method table up to empty classes, and every uniform function at its linked address and arity |
| AotMeta.LeekAotInstall | crates/backends/leek-backend-native/src/aot_meta.rs:230-259 | the three status codes, each exactly when it is due; on failure the tables stay as they were |
| Layers.Check | xtask/src/layers.rs:391-424 | the edges that break the dependency rule, in order and split by the allowlist, each with how it breaks it, and as stale exactly the entries whose edges are all legal |
| Layers.ListsPartitionBreaches | xtask/src/layers.rs:391-424 | the two lists hold exactly the edges that break the rule, each as often as it occurs, in the list its key decides |
| Layers.ViolationsAreIllegal | xtask/src/layers.rs:274-286 | an edge is a violation exactly when it breaks the dependency rule, as peer, upward or a test too far up |
| Layers.CleanIffLegal | xtask/src/layers.rs:22-28 | the report is empty exactly when every dependency is legal, and has no violation exactly when every one that is not allowlisted is |
| Layers.BreachesKeepOrder | xtask/src/layers.rs:391-424 | the lists keep the order of the edges |
| Layers.RankIsPlaceInStack | xtask/src/layers.rs:94-105 | the ranks are the places of the layers in the stack, with the two pairs of peers |
| Layers.PathsDescend | xtask/src/layers.rs:94-105 | with no violation, under any allowlist, every path of normal and build dependencies that uses no allowlisted breach stays in one layer or ends at a strictly lower rank |
| Layers.CyclesStayInOneLayer | xtask/src/layers.rs:94-105 | so no dependency cycle without an allowlisted breach crosses layers, and with an empty allowlist none does |
| Layers.CleanDevEdges | xtask/src/layers.rs:274-286 | with no violation, a dev dependency that is not allowlisted reaches at most one rank up |

## Left out

- Suggest.BestMatch: answers with the position of the chosen candidate, from which the string follows; the budget follows the code (a third of the needle), where the comment speaks of the longer string.
- Expressions other than names, binary, prefix, postfix and ternary nodes (calls, fields, indexing, casts, lambdas, literals), in printer and parser alike; a `(` after an operand, which printed text never has, is an error in the model.
- Reparse.RoundTrip: trees whose right side of `instanceof` is not a plain name do not come out of lowering and are excluded.
- TypeGrammar: tuple types in brackets, and a right side of `instanceof` that starts with a keyword type or an arrow, whose class name lowering would look for further inside; none of them is printed.
- Pratt: error recovery after a diagnostic; a parse that reports one is `Err`.
- Sparing.PrintIsMinimalIff: counts parentheses, not their places, and speaks of the trees that are read back at all.
- Lexer: numbers, strings, comments, and the punctuation and constants that no printed expression of the model has; a text with one of them lexes to `None`.
- Alphanumeric and white-space tables of Unicode are parameters; the lexer's own identifier letters are modelled as listed in the code.
- LsWriter.Writer.Dedent: the indent level is an unbounded number where the code has 32 bits.
- BoxReturns: the collection of evidence from function bodies, which rests on tree walkers outside this model; the proofs start from the two evidence tables.
- FmtIdiom.ViolationsIn: the file name, which is the same in every violation of one call, and the directory walk.
- Mangle.JavaNamesCollideIff: clean mode, which drops prefixes, and the reserved-word tables it consults.
- AbiTag.ComputeTag: reading the files and the environment; version, paths and contents are arguments.
- Fingerprint.ConfigStreamsAgreeIff: the hash function that consumes the stream and its collisions; the library and fold sets appear only by their bits.
- GameDispatch.RunIsSound: code that runs in the destructor of a runtime, and thread teardown, where the slot is already gone.
- Scratch.ScratchIsExclusive: an outsider that deletes a directory somebody still holds; clean-up of directories nobody holds is a step of the model. Directory contents and the file system's own atomicity of `create_dir` are assumed.
- ReportOnce.CompileAndReport: compiling and the per-file hook are parameters that may fail; path canonicalisation is a key function.
- AotMeta.InstallUndoesBuild: the JSON text, the addresses the linker chooses, and how the tables (parents, by-reference masks, reflection names) are computed from the program.
- Layers.Check: reading the workspace metadata and the allowlist file, and the path-to-layer table.
- Cranelift code generation, the C harness, child processes, command-line plumbing and report rendering: foreign calls and easy members.
