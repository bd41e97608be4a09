# Sharp: models of the preprocessor, the symbol table and the JSON library

Sharp is a compiler for a superset of C. These Dafny files model three parts of its repository and
prove what they promise: the preprocessor `sharp-cpp` (reader and tokenizer, macro expansion, the
evaluator of `#if`, conditional inclusion and include guards), the scopes of the front end, and the
JSON library that the tools share. `dafny verify dfyconfig.toml` checks everything.

Where the C code changes things step by step, there is a class or a method with the same state and
the same branches; its `ensures` equates what it does with a function of the old state. What the
code is for is then proved about these functions.

| part | functions and theorems | as the program runs it |
|---|---|---|
| integers of `#if` | `Bits`, `IntMax`, `IntLiteral`, `IntConstant` | `IntLiteral` |
| `#if` expressions | `IfEval` (the evaluator), `IfTrees` (expression trees, their meaning and their reading), `IfEvaluates`, `IfJams`, `IfExact`, `IfErrors` | `IfMachine` |
| macro expansion | `MacroExpand`, `MacroLimits`, `MacroHideSet`, `MacroArgs`, `Stringify` | `MacroMachine`, `MacroArgs`, `Stringify` |
| macro table | `MacroStore` | `MacroStoreMachine` |
| conditional inclusion | `Conditional`, `IncludeGuard` | `DirectiveMachine` |
| source text and tokens | `Splicing`, `BlockComment`, `Lexer`, `LexGrammar` | `LexerMachine` |
| scopes | `Declarations`, `SymbolTable` | `ScopeMachine` |
| JSON | `Json`, `JsonRoundTrip`, `JsonUnicode`, `JsonBuffer`, `JsonGrammar`, `JsonLayout` | `JsonMachine` |

## Main results

- **`#if` expressions.** `IfTrees.Meaning` is what C11 gives an expression tree of the 6.10.1 grammar,
  with parentheses where precedence needs them and anywhere else; `IfTrees.Reading` is what the evaluator
  makes of it. For every such line it is proved what the evaluator reports (`IfExact.LineReading`): an
  error if and only if the line jams, that is, the evaluator gets out of step in it (`IfTrees.Jams`), or
  the reading has one; and otherwise the value of the reading. Reading and meaning differ in two ways
  only, both given exactly: errors of numbers and operators that the evaluator misses
  (`IfExact.ReadingExact`) and skipped conditions (`IfExact.SwallowedConditional`). Away from these a
  line is accepted if and only if C11 accepts it and no arm that is not selected holds a reached zero
  divisor with a multiplicative operator behind it, at any depth (`IfExact.LineAccepted`). Getting out of
  step never heals: a count of unmatched closing tokens shows that the line cannot end where it should
  (`IfJams.JamLeaves`).
- **Macro expansion.** On any table of object-like macros, cyclic ones and unbalanced parentheses
  included, `expand_list` terminates; its output is inert, so expanding it again changes nothing; and
  it spells what the per-token hide-set algorithm of C11 6.10.3.4 spells. It gives up if and only if the
  expansion nests more than 200 macros or copies more than 5000001 tokens (`MacroLimits.LimitsExact`).
- **Conditional inclusion.** The conditional stack run over a flat stream of directives computes what
  the nested groups mean, if and only if they nest no deeper than the stack holds; over any stream,
  well nested or not, a live frame has only live frames below it and a group has at most one live
  branch. Leaving out files by their include guard is invisible over whole runs with nested inclusion,
  when every file is properly nested and registers no guard but one that encloses it.
- **Source and tokens.** The reader delivers the source without its line splices; the byte-wise
  comment skipper agrees with the character-wise one exactly when the closing `*` and `/` are
  adjacent bytes (or an unclosed comment ends in its last star); the tokens are those of the C11 6.4
  classes, class by class; joining them by spaces and reading them again gives the same tokens.
- **Scopes.** For any interleaving of declarations, the table that doubles as it fills is a map from
  each name to the first of its declarations that says most, with one error for each further full
  definition of a function or a variable.
- **JSON.** The parser accepts exactly the texts of a grammar of concrete syntax trees, with the trees of
  values they stand for (`JsonGrammar.Accepts`, `JsonGrammar.Accepted`). Parsing undoes printing, in compact and in pretty form, whatever follows the text that a number
  would not take in; `\u` escapes and surrogate pairs become the UTF-8 of their code point.

Laws of a single branch - the answer to one malformed directive, one odd redeclaration, one empty line - stand
as lemmas beside the functions and have no row below.

## What the proofs show about the code

- The check of a signed left shift (`sharp-cpp/expr.c:947-987`) looks at one bit of the result. It
  misses an overflow whenever that bit is 0: `2 << 63` raises no error (`IntMax.ShiftExact`,
  `IntMax.ShlOverflowMissed`).
- A shift by a negative amount or by 64 and more, which C leaves undefined, is a shift by the amount modulo 64
  and no error (`IntMax.ShiftExact`, `IntMax.AmountExample`).
- The scanner of numbers (`sharp-cpp/expr.c:151-196`) stops at the first character that fits no digit and drops
  what is behind the suffix: `08`, `1x` and `1.5` are accepted as 0, 1 and 1 (`IntConstant.ScannerExact`,
  `IfExact.MalformedExample`). Its comment (`sharp-cpp/expr.c:132-147`) makes every number beyond INTMAX_MAX
  unsigned; the code does so in other bases than ten only, and reads `9223372036854775808`, which has no type
  in C11, as the negative number of that pattern (`IntConstant.PromotionExact`, `IfExact.UntypedLine`).
- The multiplication check divides back (`sharp-cpp/expr.c:848`). It is exact on every pair but
  (-1, INTMAX_MIN), on which it divides INTMAX_MIN by -1; C leaves that undefined, and the model lets
  the quotient wrap.
- The operand loop of `*`, `/` and `%` is left at a zero divisor (`sharp-cpp/expr.c:858-884`), so the
  rest of the chain is not read. In an arm of `?:` that is not selected, the first or the second, in
  parentheses or inside a larger expression, this makes an error of a line that C accepts, for instance
  `0 ? 1 / 0 * 1 : 1` and `1 ? 1 : (1 / 0 * 1)` (`IfExact.LineAccepted`, `IfExact.UnselectedArm`).
- Skipping the right operand of `&&` or `||` goes on over a `?:` behind it
  (`sharp-cpp/expr.c:1083-1107`), to the next `||` outside parentheses or to the end:
  `0 && 1 ? 1 : 1` is evaluated to 0, and `0 && 1 ? 1 : 1 || 0` as `0 || 0`
  (`IfExact.SwallowedConditional`, `IfExact.ConditionalExact`).
- The colon of a conditional is optional (`sharp-cpp/expr.c:1214-1237`): when the condition is true, neither it
  nor the second arm is missed, so that `1 ? 2` is accepted as 2 (`IfErrors.MissingColon`).
- The comment on include guards (`sharp-cpp/directive.c:1257-1265`) says that the `#ifndef` must stand
  at the start of the file with nothing emitted before it. The code asks only that it stand outside
  every group, and for a later `#define` of the name: text outside the group is lost when the file is
  included again (`IncludeGuard.TextOutsideGuard`, `IncludeGuard.SkippedIsOutside`).
- The comment in `skip_block_comment` (`sharp-cpp/pptok.c:520-523`) says that line splices cannot affect
  the end of a comment. They can: with one splice between `*` and `/` the column is off by one, with
  two the end is missed (`BlockComment.SkippersAgree`, `BlockComment.SplicedExample`). On a comment that
  is never closed, the lines after its last star are not counted.
- `%:%:` is read as one token whose spelling is `%:::` (`sharp-cpp/pptok.c:1055-1073`,
  `Lexer.DigraphPasteExample`).
- The comment on struct redefinition (`sharp-fe/scope.c:392-424`) says that two bodies are an error.
  The code keeps the first and reports nothing (`Declarations.StructRedefinitionSilent`).
- An initialiser on an `extern` declaration is lost unless that declaration is the first and all the
  others are `extern` too (`Declarations.ExternInitialiserKept`).
- A typedef and a struct of one name are put into the chain so that a lookup of the bare name finds
  the typedef (`sharp-fe/scope.c:491-497`). The next rehash turns the chain around, and the lookup
  finds the struct (`SymbolTable.TypedefLosesPriority`); seven declarations of six names are enough (`SymbolTable.TypedefLost`).
- In a JSON string, an escape after an unpaired high surrogate is read and dropped
  (`clibs/wg/cson.h:430-433`, `JsonUnicode.SurrogateRead`).
- The two passes over a JSON string (`clibs/wg/cson.h:404-440`) take a `\u` escape with a bad digit
  differently: the first skips its four characters, the second stops at the bad one. When an escape
  begins in what is left of the four and goes on behind them, the passes fall out of step, and the second
  can write more than the first has measured (`JsonBuffer.EscapeExact`, `JsonBuffer.OverrunExample`).
- `#` escapes every quote and backslash of an argument (`sharp-cpp/macro.c:613-617`); C11 6.10.3.2 asks
  for it inside character constants and string literals only, so that a lone backslash in an argument
  comes out doubled (`Stringify.StringifyIsStandard`, `Stringify.StrayBackslashExample`).

## Model

| member | source | states |
|---|---|---|
| `IntMax.AddOverflowExact` | sharp-cpp/expr.c:907-926 | the sign test on the wrapped sum holds if and only if the mathematical sum leaves the intmax range |
| `IntMax.SubOverflowExact` | sharp-cpp/expr.c:927-945 | the sign test on the wrapped difference holds if and only if the mathematical difference leaves the range |
| `IntMax.MulOverflowExact` | sharp-cpp/expr.c:839-853 | dividing the wrapped product back detects overflow exactly, on every pair of operands if and only if it is not (-1, INTMAX_MIN) |
| `IntMax.DivExact` | sharp-cpp/expr.c:854-875 | division is truncating division of the numbers meant, with the error cases zero divisor and INTMAX_MIN / -1 |
| `IntMax.RemExact` | sharp-cpp/expr.c:876-895 | remainder is the truncating one, modulo 2^64 when unsigned, with the same error cases |
| `IntMax.ShiftExact` | sharp-cpp/expr.c:947-987 | a left shift multiplies, with an error for a negative left operand, an amount that is negative or at least 64, or a signed product out of range, and a right shift divides and keeps the sign, with the same error for the amount, each if and only if the operands are not those of the shift trap; the value is right on those too, the amount taken modulo 64 |
| `IntMax.AmountExample` | sharp-cpp/expr.c:947-987 | shifts of 1 by 64 and by -64, undefined in C, give 1 and raise no error |
| `IntMax.CompareExact` | sharp-cpp/expr.c:989-1042 | comparisons compare the numbers meant after the usual conversions, although equality looks at bit patterns only |
| `IntMax.OperatorsExact` | sharp-cpp/expr.c:832-1078 | every binary operator computes its mathematical result stored back modulo 2^64, with an error exactly when C11 leaves the operation undefined, if and only if the operands are neither those of the multiplication trap nor those of the shift trap; the value is right on those too |
| `IntMax.BitwiseExact` | sharp-cpp/expr.c:1044-1078 | every bit of `&`, the exclusive and the inclusive or is the and, the inequality and the or of the bits of the operands |
| `IntMax.ShlOverflowMissed` | sharp-cpp/expr.c:947-987 | the left-shift check of a non-negative operand is right if and only if the product is in range or the bit that lands on the sign is 1 |
| `IntMax.ShlOverflowMissedExample` | sharp-cpp/expr.c:947-987 | 2 << 63 leaves the range and raises no error |
| `IntLiteral.AddDigitExact` | sharp-cpp/expr.c:172-177 | one digit of the scan keeps the value modulo 2^64 and notices exactly the first digit that takes it past 2^64 |
| `IntLiteral.ScanDigits` | sharp-cpp/expr.c:165-178 | the loop reads the longest run of digits of the base, its value modulo 2^64, and whether it is at least 2^64 |
| `IntLiteral.ParseIntLiteralEx` | sharp-cpp/expr.c:151-196 | any preprocessing number, of any length: the number of the digits scanned modulo 2^64, its signedness, and overflow if and only if that number is at least 2^64; what is no constant is read up to where it goes wrong |
| `IntConstant.ScannerReads` | sharp-cpp/expr.c:151-196 | on every constant of the C11 6.4.4.1 grammar, and binary ones, the scanner finds base, digits, suffix and number |
| `IntConstant.ConstantScanned` | sharp-cpp/expr.c:151-196 | a spelling is such a constant if and only if the scanner finds a digit and what it leaves is one of the suffixes of the grammar |
| `IntConstant.ScannerExact` | sharp-cpp/expr.c:151-196 | a constant that has a type gets its C11 value; error for error the scanner is right if and only if the number overflows 2^64 or is a constant that has a type |
| `IntConstant.PromotionExact` | sharp-cpp/expr.c:132-147 | a constant below 2^64 gets the signedness that the comment on the scanner promises if and only if it has a type in C11 |
| `IntConstant.DigitTable` | sharp-cpp/expr.c:162-170 | a digit counts its place in the table of digits, in either case |
| `IntConstant.OverflowExact` | sharp-cpp/expr.c:172-177 | an overflow is reported of a constant if and only if its number is at least 2^64 |
| `IfMachine.EvalCtx.SkipWs` | sharp-cpp/expr.c:99-104 | moves to the next token that is no white space, and changes nothing that the evaluator sees |
| `IfMachine.EvalCtx.EvalDefined` | sharp-cpp/expr.c:624-642 | `defined NAME` and `defined (NAME)`: value, errors and tokens taken |
| `IfMachine.EvalCtx.EvalHas` | sharp-cpp/expr.c:644-706 | the `__has_*` operators: the argument without its underscores, looked up, past the matching parenthesis; 0 for the two that have no table |
| `IfMachine.EvalCtx.EvalPrimary` | sharp-cpp/expr.c:610-789 | the primary expressions: value, errors and tokens taken |
| `IfMachine.EvalCtx.EvalUnary` | sharp-cpp/expr.c:791-830 | the unary operators, with the error on the negation of INTMAX_MIN |
| `IfMachine.EvalCtx.EvalMul` | sharp-cpp/expr.c:832-898 | the loop of `*`, `/` and `%`, left at a zero divisor |
| `IfMachine.EvalCtx.EvalAdd` | sharp-cpp/expr.c:900-945 | the loop of `+` and `-` |
| `IfMachine.EvalCtx.EvalShift` | sharp-cpp/expr.c:947-987 | the loop of the shifts |
| `IfMachine.EvalCtx.EvalRelat` | sharp-cpp/expr.c:989-1021 | the loop of the relational operators |
| `IfMachine.EvalCtx.EvalEqual` | sharp-cpp/expr.c:1023-1042 | the loop of `==` and `!=` |
| `IfMachine.EvalCtx.EvalBitAnd` | sharp-cpp/expr.c:1044-1054 | the loop of `&` |
| `IfMachine.EvalCtx.EvalBitXor` | sharp-cpp/expr.c:1056-1066 | the loop of `^` |
| `IfMachine.EvalCtx.EvalBitOr` | sharp-cpp/expr.c:1068-1078 | the loop of the bitwise or |
| `IfMachine.EvalCtx.SkipOperand` | sharp-cpp/expr.c:1083-1107 | skips an operand that is not evaluated, across parentheses and conditionals |
| `IfMachine.EvalCtx.SkipLogAndOperand` | sharp-cpp/expr.c:1121-1134 | skips a chain of `&&` operands |
| `IfMachine.EvalCtx.EvalLogAnd` | sharp-cpp/expr.c:1136-1150 | `&&`: the right operand evaluated only when the left one is nonzero |
| `IfMachine.EvalCtx.EvalLogOr` | sharp-cpp/expr.c:1152-1166 | the logical or: the right operand evaluated only when the left one is zero |
| `IfMachine.EvalCtx.EvalExpr` | sharp-cpp/expr.c:1168-1251 | the conditional and the comma: suppressed diagnostics and forgotten errors in the arm that is not selected |
| `IfMachine.CppEvalIfExpr` | sharp-cpp/expr.c:1262-1294 | a whole line: an error for an empty line, for one raised in it, and for tokens left over; on every line of the grammar error and value are those of its reading, and those of C11 under the conditions of `IfExact.LineAccepted` |
| `IfEval.LevelsAreStandard` | sharp-cpp/expr.c:832-1078 | the operators bind in the order of C11 6.5.5 to 6.5.12 |
| `IfErrors.MissingClose` | sharp-cpp/expr.c:616-622 | a parenthesis that is not closed is an error |
| `IfErrors.MissingOperand` | sharp-cpp/expr.c:832-1078 | so is a binary operator with nothing behind it |
| `IfErrors.StrayToken` | sharp-cpp/expr.c:610-789 | and a line that starts with a token that starts no operand |
| `IfErrors.DefinedErrors` | sharp-cpp/expr.c:624-642 | and `defined` without a name or with a parenthesis that is not closed |
| `IfErrors.UnknownCall` | sharp-cpp/expr.c:762-784 | a name that is no macro, called with balanced arguments, is 0 |
| `IfErrors.HasLine` | sharp-cpp/expr.c:644-706 | the operators with a table give its answer about their argument, with and without two underscores on either side |
| `IfErrors.NoTableLine` | sharp-cpp/expr.c:690-706 | the two for attributes of C and C++ give 0 |
| `IfErrors.CommaLine` | sharp-cpp/expr.c:1240-1250 | a comma gives the value of its last operand and the errors of both |
| `IfErrors.LeadingComma` | sharp-cpp/expr.c:1168-1190 | a comma in front is passed over |
| `IfErrors.MissingColon` | sharp-cpp/expr.c:1214-1237 | a conditional with a true condition is accepted without colon and second arm, with the value of the first |
| `IfEvaluates.EvaluatorReads` | sharp-cpp/expr.c:610-1251 | every phrase of the grammar that does not jam, in front of any token that may follow it: the evaluator at any level returns the value of its reading, raises the errors of its reading, and stops exactly at that token |
| `IfEvaluates.Resumed` | sharp-cpp/expr.c:1083-1134 | behind a condition that ends skipped and is false, what is evaluated next is the rest of the second arm from its first logical or outside parentheses on, as if 0 stood in front of it |
| `IfJams.JamLeaves` | sharp-cpp/expr.c:854-895 | after a zero divisor with `*`, `/` or `%` behind it, anywhere in a phrase, the evaluator never stops behind that phrase: it leaves more closing tokens than follow it, or stands at the operator |
| `IfExact.ReadingExact` | sharp-cpp/expr.c:610-1251 | without a condition that ends skipped, the reading of a tree has the value of its C11 meaning and never an error too many, and the same errors if and only if no missed error is evaluated: an operand pair of a trap, or a number that is no constant with a type and does not overflow |
| `IfExact.LineReading` | sharp-cpp/expr.c:1262-1294 | every line of the grammar without exception: an error is reported if and only if the line jams or its reading has one, and a line that does not jam has the value of its reading |
| `IfExact.LineAccepted` | sharp-cpp/expr.c:1262-1294 | without those missed errors and conditions that end skipped, a line is accepted if and only if C11 finds no error in it and no arm that is not selected holds a reached zero divisor with a multiplicative operator behind it; an accepted line has its C11 value |
| `IfExact.JamIsDead` | sharp-cpp/expr.c:858-895 | in a line that C11 accepts, the evaluator can get out of step in an arm that is not selected only |
| `IfExact.EvaluatorIsMeaning` | sharp-cpp/expr.c:610-1251 | every regular phrase, in front of any token that may follow it: the evaluator at any level returns its C11 value, raises the errors of what C evaluates and no others, and stops exactly at that token |
| `IfExact.IfExprIsMeaning` | sharp-cpp/expr.c:1262-1294 | a regular line: the tree's value, and an error if and only if something that C evaluates has one |
| `IfExact.NumberLine` | sharp-cpp/expr.c:1262-1294 | a line that is one preprocessing number comes out as C11 says if and only if the number overflows 2^64 or is an integer constant that has a type |
| `IfExact.MalformedExample` | sharp-cpp/expr.c:162-182 | 08, 1x and 1.5, which are no integer constants, are accepted as 0, 1 and 1 |
| `IfExact.UntypedLine` | sharp-cpp/expr.c:188-190 | every decimal constant from 2^63 to 2^64 - 1 without a u, which has no type, is accepted and compares as not greater than 0 |
| `IfExact.UntypedExample` | sharp-cpp/expr.c:188-190 | 9223372036854775808 is one of them |
| `IfExact.MulChainReadToEnd` | sharp-cpp/expr.c:854-895 | a chain of `*`, `/`, `%` is read to its end if and only if no divisor before the last one is zero |
| `IfExact.PhraseReadToEnd` | sharp-cpp/expr.c:610-1251 | a phrase of any level is read to its end if and only if it does not jam |
| `IfExact.ConditionalGives` | sharp-cpp/expr.c:1196-1237 | a regular conditional with signed arms gives the value of the arm that its condition selects |
| `IfExact.SelectedExample` | sharp-cpp/expr.c:1196-1237 | `1 ? 2 : 0` is 2 and `0 ? 2 : 0` is 0 |
| `IfExact.UnselectedArm` | sharp-cpp/expr.c:1196-1251 | a conditional that C11 accepts, whose condition and selected arm do not jam, is accepted if and only if its other arm, first or second and of any form, does not jam |
| `IfExact.UnselectedArmExample` | sharp-cpp/expr.c:858-864 | six lines that C accepts and the evaluator does not: either arm, the chain bare, in parentheses or in a sum |
| `IfExact.SwallowedConditional` | sharp-cpp/expr.c:1083-1134 | when the last operand of a condition is skipped, a true condition is the result and so is a false one when the second arm has no logical or outside parentheses; otherwise the line is evaluated as what is left of that arm |
| `IfExact.ConditionalExact` | sharp-cpp/expr.c:1168-1251 | a conditional of regular parts comes out as C11 says if and only if the last operand of its condition is not skipped or what is evaluated in its place happens to agree |
| `IfExact.SwallowedExample` | sharp-cpp/expr.c:1096-1101 | `0 && 1 ? 1 : 1` means 1 and is evaluated to 0 |
| `IfExact.ResumedExample` | sharp-cpp/expr.c:1096-1101 | with a logical or of 1 and 0 as second arm, `0 && 1 ? 1 : ...` means 1 and what is evaluated is the logical or of 0 and 0; with 0 and 1 it is that of 0 and 1, which agrees |
| `MacroMachine.Expander.ActiveContains` | sharp-cpp/macro.c:567-569 | finds a name on the stack if and only if it is there |
| `MacroMachine.Expander.ActivePop` | sharp-cpp/macro.c:551-565 | takes the topmost occurrence of a name off the stack, and undoes a push |
| `MacroMachine.Expander.NeedsCombinedRescan` | sharp-cpp/macro.c:1245-1279 | an expansion is rescanned with the rest if and only if it leaves parentheses open |
| `MacroMachine.Expander.EmitExpanded` | sharp-cpp/macro.c:1281-1290 | copies an expansion up to the token limit |
| `MacroMachine.Expander.ExpandList` | sharp-cpp/macro.c:1293-1645 | terminates on every list and every object-like table; the result is the expander function's; the stack is duplicate-free, within 200, and on return what it was on entry; the output is inert unless a limit was breached |
| `MacroMachine.Expander.ExpandObject` | sharp-cpp/macro.c:1585-1642 | one macro: push, rescan, pop, and the combined rescan of its expansion with the rest of the list |
| `MacroMachine.Expander.ExpandTokens` | sharp-cpp/macro.c:1648-1660 | a whole token list, from fresh limits and an empty stack back to an empty stack |
| `MacroExpand.Expand` | sharp-cpp/macro.c:1293-1645 | without a breach the output is inert: no token of it can be expanded any more |
| `MacroExpand.ExpandInert` | sharp-cpp/macro.c:1293-1645 | expanding an inert list changes no spelling, counts no token and breaches no limit |
| `MacroExpand.ExpandAllTwice` | sharp-cpp/macro.c:1648-1660 | expansion is idempotent |
| `MacroExpand.ExpandIsRule` | sharp-cpp/macro.c:1566-1642 | without a breach, expansion with combined rescans and limits is plain rescanning with a stack of names: the combined rescan changes nothing |
| `MacroExpand.DefinedKept` | sharp-cpp/macro.c:1350-1374 | the name behind `defined`, with or without a parenthesis, is not replaced |
| `MacroExpand.OpenParensExact` | sharp-cpp/macro.c:1268-1277 | the parentheses that an expansion leaves open are the largest surplus of opening ones from any place on |
| `MacroLimits.LimitsExact` | sharp-cpp/macro.c:1167-1241 | a limit is breached if and only if the expansion nests more than 200 macros or copies more than 5000001 tokens, both counted over the rule |
| `MacroLimits.FewNames` | sharp-cpp/macro.c:1182-1214 | a table of at most 200 names that can be expanded never breaches the depth limit |
| `MacroLimits.BreachExact` | sharp-cpp/macro.c:1293-1645 | the same of every list under any active names, and without a breach the counter has counted just what is copied |
| `MacroLimits.EmitExact` | sharp-cpp/macro.c:1281-1290 | copying stops in front of the token that would be the 5000002nd |
| `MacroHideSet.RuleIsHideSet` | sharp-cpp/macro.c:488-529 | stack and blue paint spell the same expansion as one hide set per token |
| `MacroHideSet.ExpanderIsHideSet` | sharp-cpp/macro.c:1293-1645 | on every object-like table, cyclic or not, and every text whose expansion nests no more than 200 macros and copies no more than 5000001 tokens, the expander spells what the hide-set algorithm of C11 6.10.3.4 spells on the table without the three nullability keywords |
| `MacroArgs.CollectArg` | sharp-cpp/macro.c:747-777 | one argument, up to the comma or parenthesis outside its own parentheses |
| `MacroArgs.CollectNamed` | sharp-cpp/macro.c:1402-1425 | the named arguments |
| `MacroArgs.CollectVariable` | sharp-cpp/macro.c:1425-1440 | the variable arguments, with their commas |
| `MacroArgs.CollectArguments` | sharp-cpp/macro.c:1402-1440 | the whole argument list, and the cursor on the closing parenthesis |
| `MacroArgs.ArgumentsOfJoined` | sharp-cpp/macro.c:1402-1440 | splitting undoes joining: from the comma-join of balanced token sequences and a parenthesis come those sequences, empty ones included, the variadic rest as one list with its commas, and the cursor on that parenthesis |
| `Stringify.Stringify` | sharp-cpp/macro.c:575-630 | the loop over an argument: quotes and backslashes escaped, white space folded, trailing spaces stripped |
| `Stringify.Destringize` | sharp-cpp/directive.c:1818-1832 | the loop that takes a literal apart |
| `Stringify.BuildIsText` | sharp-cpp/macro.c:579-621 | the spaces of the literal are those of C11 6.10.3.2: one where white space separates two tokens, none before the first or behind the last |
| `Stringify.StringifyIsStandard` | sharp-cpp/macro.c:571-632 | the literal is the one that C11 6.10.3.2 asks for if and only if no token but a string literal or character constant holds a quote or a backslash |
| `Stringify.StrayBackslashExample` | sharp-cpp/macro.c:612-616 | for the argument of a backslash and an `n` it is not: two backslashes instead of one |
| `Stringify.StringifyRoundTrip` | sharp-cpp/macro.c:575-630 | what `#` makes of an argument is read as exactly one closed string literal, whatever follows, and `_Pragma` gets the text back from it |
| `Stringify.UnescapeOther` | sharp-cpp/directive.c:1818-1832 | a backslash in front of any other character stays |
| `MacroStoreMachine.MacroTable.FindSlot` | sharp-cpp/macro.c:132-138 | the chain of a name, and the first entry with that name |
| `MacroStoreMachine.MacroTable.LookupMacro` | sharp-cpp/macro.c:151-154 | the definition of a name, if it has one |
| `MacroStoreMachine.MacroTable.DefineMacro` | sharp-cpp/macro.c:194-240 | replaces a definition in place or puts a new one in front; a reserved name is an error and changes nothing |
| `MacroStoreMachine.MacroTable.UndefMacro` | sharp-cpp/macro.c:242-252 | unlinks the entry of a name |
| `MacroStoreMachine.MacroTable.PushState` | sharp-cpp/macro.c:1709-1739 | saves the definition of a name, or that it has none |
| `MacroStoreMachine.MacroTable.PopState` | sharp-cpp/macro.c:1741-1779 | unlinks the latest frame of a name and restores what it saved; without one, changes nothing |
| `MacroStore.SlotIsMask` | sharp-cpp/macro.c:125-130 | the mask picks the remainder modulo 512 |
| `MacroStore.DefineCell` | sharp-cpp/macro.c:194-240 | a definition is what a lookup of that name finds, and no other name's lookup or saved frames change |
| `MacroStore.UndefCell` | sharp-cpp/macro.c:242-252 | after an undef a lookup finds nothing, and no other name changes |
| `MacroStore.OpCell` | sharp-cpp/macro.c:194-252 | define, undef, push and pop each do to their own name what they mean to a single stack, and nothing to any other |
| `MacroStore.NeverDefined` | sharp-cpp/macro.c:204-218 | `__VA_ARGS__` and `defined` are never defined |
| `MacroStore.ReservedNames` | sharp-cpp/macro.c:198-210 | `defined` and `__VA_ARGS__` cannot be defined, and every other name can |
| `MacroStore.StoreRefinesStacks` | sharp-cpp/macro.c:1709-1779 | over any interleaving of operations on any names, the chains and the one shared list hold for each name what a stack of its own would |
| `MacroStore.PopRestores` | sharp-cpp/macro.c:1709-1779 | a pop gives back what its matching push saw, whatever happened in between to this name and to others |
| `DirectiveMachine.CppState.InLiveBranch` | sharp-cpp/directive.c:50-55 | true if and only if every frame is live |
| `DirectiveMachine.CppState.ParentIsLive` | sharp-cpp/directive.c:57-61 | true if and only if every frame but the top one is live |
| `DirectiveMachine.CppState.HandleIfCommon` | sharp-cpp/directive.c:953-968 | pushes a frame, or ends the run past 256 of them |
| `DirectiveMachine.CppState.HandleIf` | sharp-cpp/directive.c:1184-1225 | evaluates its expression only in a live place |
| `DirectiveMachine.CppState.HandleIfdef` | sharp-cpp/directive.c:1228-1269 | tests a name, and records a guard candidate |
| `DirectiveMachine.CppState.HandleElif` | sharp-cpp/directive.c:1272-1309 | evaluates its expression only if no branch was taken and the outer groups are live |
| `DirectiveMachine.CppState.HandleElse` | sharp-cpp/directive.c:1312-1329 | live if no branch was taken; a second one is an error |
| `DirectiveMachine.CppState.HandleEndif` | sharp-cpp/directive.c:1332-1339 | pops a frame, or is an error |
| `DirectiveMachine.CppState.HandleDefine` | sharp-cpp/directive.c:921-938 | defines a macro and confirms a guard candidate |
| `DirectiveMachine.CppState.HandleLine` | sharp-cpp/directive.c:2196-2240 | text, definitions and undefinitions take effect in a live place only |
| `DirectiveMachine.CppState.HandleDirective` | sharp-cpp/directive.c:2162-2222 | the dispatch: the new state of stack, table, output, errors and guard detection |
| `DirectiveMachine.CppState.Unwind` | sharp-cpp/directive.c:893-905 | an unbalanced file is an error, and the frames it left open are popped |
| `DirectiveMachine.CppState.LeaveFile` | sharp-cpp/directive.c:879-905 | registers a confirmed guard of a balanced file and restores the outer file's detection |
| `DirectiveMachine.CppState.HandleInclude` | sharp-cpp/directive.c:785-918 | the depth limit, the guard shortcut, the missing file, and the nested run |
| `DirectiveMachine.CppState.ProcessBuf` | sharp-cpp/directive.c:1975-2240 | the loop over a file, ended by a fatal error |
| `Conditional.RunForest` | sharp-cpp/directive.c:1184-1339 | the stack machine on a flattened forest of groups does what the groups mean in a live place and nothing in a dead one, and goes on with the stack it started with |
| `Conditional.RunTail` | sharp-cpp/directive.c:1272-1339 | from inside a group: the branches left are taken up to the first true one if none was taken yet, else skipped |
| `Conditional.ForestTooDeep` | sharp-cpp/directive.c:953-959 | nesting past the frames there are ends the run |
| `Conditional.SourceIsMeaning` | sharp-cpp/directive.c:2162-2240 | a whole source gives exactly the lines, the table and the errors of its nested groups and leaves no frame open, if and only if they nest at most 256 deep |
| `Conditional.DefineDoes` | sharp-cpp/directive.c:921-938 | a live `#define` gives its name its text and changes no other name |
| `Conditional.UndefDoes` | sharp-cpp/directive.c:941-950 | a live `#undef` takes its name away and changes no other name |
| `Conditional.TextDoes` | sharp-cpp/directive.c:2196-2240 | a live line of text goes out under the table as it is |
| `Conditional.ReservedDoes` | sharp-cpp/macro.c:198-210 | defining `defined` or `__VA_ARGS__` is an error and changes nothing |
| `Conditional.TestDoes` | sharp-cpp/directive.c:1228-1269 | `#ifdef` and `#ifndef` ask for a macro or one of the eight `__has_*` operators |
| `Conditional.StrayDirective` | sharp-cpp/directive.c:1272-1339 | `#elif`, `#else` and `#endif` outside every group are an error each and change nothing |
| `Conditional.BehindElse` | sharp-cpp/directive.c:1272-1329 | `#elif` and `#else` behind an `#else` are an error each and change nothing |
| `Conditional.StepKeeps` | sharp-cpp/directive.c:953-1339 | no directive, in order or not, puts a live frame on a dead one or makes a second branch of a group live |
| `Conditional.RunKeeps` | sharp-cpp/directive.c:50-61 | over any run, the whole stack is live if and only if its top is, and of each open group at most one branch has been live, exactly one if it is live now |
| `IncludeGuard.CanonicalSkipped` | sharp-cpp/directive.c:308-312 | reading a canonical header whose macro is defined changes nothing, unless it hits the nesting limit |
| `IncludeGuard.FileKeeps` | sharp-cpp/directive.c:870-891 | a properly nested file leaves the stack as it was; the guard detection names only the first `#ifndef` outside every group, and, when all files are sound, only a guard that the whole file is canonical for |
| `IncludeGuard.IncludeKeeps` | sharp-cpp/directive.c:785-918 | an inclusion keeps the stack and the outer file's detection; it registers for a file only the name of its first outer `#ifndef`, which the file defines, and, when all files are sound, only canonical guards |
| `IncludeGuard.ShortcutInvisible` | sharp-cpp/directive.c:785-918 | over any run with nested inclusion, leaving out guarded files gives the output, table, errors and stack of reading them all, unless reading them all hits a limit |
| `IncludeGuard.UnitShortcutInvisible` | sharp-cpp/directive.c:2722-2735 | the same for a whole translation unit from the starting state |
| `IncludeGuard.SkippedIsOutside` | sharp-cpp/directive.c:785-918 | every properly nested file with a registered guard is cut by the branch behind its first outer `#ifndef`; while what stands before leaves the guard defined, skipping the file is invisible in a state if and only if reading it there without that branch changes nothing |
| `IncludeGuard.ReadHeader` | sharp-cpp/directive.c:1228-1269 | what reading a guarded group with text around it gives, and that it is registered all the same |
| `IncludeGuard.TextOutsideGuard` | sharp-cpp/directive.c:879-886 | including such a header twice gives the same with and without the shortcut if and only if there is no text outside the group |
| `IncludeGuard.UnterminatedFile` | sharp-cpp/directive.c:899-912 | a group that a file leaves open is one error and is closed |
| `IncludeGuard.StrayEndifFile` | sharp-cpp/directive.c:895-898 | an `#endif` of a file that closes a group of the file around it is one error |
| `IncludeGuard.OpenGuardForgotten` | sharp-cpp/directive.c:879-886 | a guard whose group is not closed is not registered |
| `Splicing.SpliceDeletes` | sharp-cpp/pptok.c:177-205 | deleting any one backslash-newline or backslash-CR-LF first and the others afterwards is deleting them all |
| `Splicing.SpliceOneLine` | sharp-cpp/pptok.c:177-205 | a text of one line has nothing to delete |
| `Splicing.GetIsSplice` | sharp-cpp/pptok.c:177-205 | the next character delivered is the next of the spliced text, and what it leaves is the rest of it |
| `Splicing.GetAllIsSplice` | sharp-cpp/pptok.c:207-212 | repeated reading delivers exactly the spliced text and consumes the whole source |
| `Splicing.AdvanceCounts` | sharp-cpp/pptok.c:57-63 | the line counter grows by exactly the line ends read |
| `BlockComment.SlowIsLogical` | sharp-cpp/pptok.c:567-580 | the character-wise way finds the first `*` `/` of the logical characters and stops right behind it |
| `BlockComment.SkippersAgree` | sharp-cpp/pptok.c:517-581 | the byte-wise way gives the same result, byte position, line and column as the character-wise one if and only if the closing `*` and `/` are adjacent bytes, or an unclosed comment ends in its last star |
| `BlockComment.NoBackslashPlain` | sharp-cpp/pptok.c:517-581 | they are adjacent in every closed comment without a backslash |
| `BlockComment.SplicedExample` | sharp-cpp/pptok.c:544-562 | a comment whose end only the character-wise way sees |
| `BlockComment.OneSpliceEnd` | sharp-cpp/pptok.c:544-562 | with one splice between the closing star and slash the byte-wise way closes the comment one column too early on the next line |
| `BlockComment.UnclosedEnd` | sharp-cpp/pptok.c:524-565 | on a comment that is never closed it counts lines up to the last star only |
| `Lexer.PunctLongest` | sharp-cpp/pptok.c:984-1083 | a punctuator takes the longest of C11 6.4.6 that starts there |
| `Lexer.TokAgain` | sharp-cpp/pptok.c:676-1086 | reading a token's spelling again, with a space or nothing behind it, gives the token back if and only if it is not `%:%:` |
| `Lexer.JoinedTokens` | sharp-cpp/pptok.c:637-1086 | joining any tokens by single spaces and reading the text again gives the same kinds and spellings |
| `Lexer.JoinedSource` | sharp-cpp/pptok.c:637-1086 | the same for the joined text as a source file, through line splicing |
| `Lexer.DigraphPasteExample` | sharp-cpp/pptok.c:1055-1073 | `%:%:` is read as `%:::`, and that as two tokens |
| `LexGrammar.LineComment` | sharp-cpp/pptok.c:585-593 | a line comment is one space up to the end of its line |
| `LexGrammar.CommentInvisible` | sharp-cpp/pptok.c:702-719 | such a comment in front of a line end changes no other token |
| `LexGrammar.BlockCommentRead` | sharp-cpp/pptok.c:702-719 | a block comment is one space up to and with its first closing |
| `LexGrammar.OpenComment` | sharp-cpp/pptok.c:702-719 | a block comment that is never closed takes all the rest |
| `LexGrammar.IdentifierRead` | sharp-cpp/pptok.c:812-879 | an identifier of C11 6.4.2, with `$` and universal character names, is taken as long as it goes on |
| `LexGrammar.BackslashLost` | sharp-cpp/pptok.c:812-879 | any other backslash behind an identifier ends it and is lost |
| `LexGrammar.NumberRead` | sharp-cpp/pptok.c:883-904 | a preprocessing number of C11 6.4.8 is taken as long as it goes on |
| `LexGrammar.LiteralRead` | sharp-cpp/pptok.c:735-810 | a string literal or character constant with any of the five prefixes, escapes and all |
| `LexGrammar.OpenLiteral` | sharp-cpp/pptok.c:606-628 | a literal that the line ends before its quote is not closed and leaves the line end |
| `LexGrammar.IntrinsicRead` | sharp-cpp/pptok.c:946-961 | an @-intrinsic |
| `LexGrammar.PunctuatorRead` | sharp-cpp/pptok.c:984-1083 | every punctuator of C11 6.4.6 but `%:%:` where no longer one starts |
| `LexGrammar.OtherRead` | sharp-cpp/pptok.c:984-1083 | a character that starts no other token is one of its own |
| `LexGrammar.BlankSkipped` | sharp-cpp/pptok.c:641-668 | the five blanks change nothing in front of a token |
| `LexerMachine.CppReader.RbAdv` | sharp-cpp/pptok.c:57-63 | one byte, with its line and column |
| `LexerMachine.CppReader.RawGet` | sharp-cpp/pptok.c:177-205 | one logical character and the bytes it takes |
| `LexerMachine.CppReader.Getc` | sharp-cpp/pptok.c:207-212 | delivers the spliced text one character at a time, and keeps the line at one plus the line ends consumed |
| `LexerMachine.CppReader.Peekc` | sharp-cpp/pptok.c:214-225 | the next character, with the position put back |
| `LexerMachine.CppReader.LineCount` | sharp-cpp/pptok.c:57-63 | in step, the line is one plus the line ends of the bytes read |
| `LexerMachine.CppReader.SkipBlank` | sharp-cpp/pptok.c:641-668 | skips blanks, across splices |
| `LexerMachine.CppReader.SkipBlockSlow` | sharp-cpp/pptok.c:567-580 | the character-wise comment skipper |
| `LexerMachine.CppReader.SkipBlockFast` | sharp-cpp/pptok.c:524-565 | the byte-wise comment skipper: result, bytes, line and column |
| `LexerMachine.CppReader.SkipLineComment` | sharp-cpp/pptok.c:585-593 | up to the line end |
| `LexerMachine.CppReader.LexQuoted` | sharp-cpp/pptok.c:606-628 | a literal up to its closing quote, escapes verbatim, a line end left unread |
| `LexerMachine.CppReader.LexIdent` | sharp-cpp/pptok.c:812-879 | an identifier with its universal character names; another backslash ends it and is dropped |
| `LexerMachine.CppReader.LexNumber` | sharp-cpp/pptok.c:883-904 | a preprocessing number with its signed exponents |
| `LexerMachine.CppReader.LexAt` | sharp-cpp/pptok.c:946-961 | an @-intrinsic |
| `LexerMachine.CppReader.LexPunct` | sharp-cpp/pptok.c:984-1083 | a punctuator, looking ahead and putting back |
| `LexerMachine.CppReader.LexFrom` | sharp-cpp/pptok.c:735-1086 | the token classes, with the prefixes of literals tried before identifiers |
| `LexerMachine.CppReader.LexComment` | sharp-cpp/pptok.c:702-719 | a comment is one space, as the logical characters say whenever the skippers agree |
| `LexerMachine.CppReader.ReadTok` | sharp-cpp/pptok.c:637-1086 | the token that the logical characters say, unless a comment comes next whose end only the character-wise way sees; the line count stays right |
| `LexerMachine.TrapIsSpliced` | sharp-cpp/pptok.c:517-581 | without a backslash in the source the two ways disagree on a comment only that is never closed |
| `Declarations.FamilyMerges` | sharp-fe/scope.c:223-463 | any sequence of declarations of one family, in any order, leaves one symbol, bound to the first of those that say most; functions and variables get an error for each full definition after the first, types none |
| `Declarations.DefinitionWins` | sharp-fe/scope.c:223-463 | with exactly one full definition there is no error and the name is bound to it |
| `Declarations.StructRedefinitionSilent` | sharp-fe/scope.c:392-466 | two struct bodies raise no error |
| `Declarations.ExternMerges` | sharp-fe/scope.c:277-318 | with an initialiser only on an extern declaration, a name is bound to its first declaration that is not extern, or to its first |
| `Declarations.ExternInitialiserKept` | sharp-fe/scope.c:284-302 | such an initialiser is kept if and only if its declaration is the first and all are extern |
| `Declarations.TagBesideOrdinary` | sharp-fe/scope.c:433-466 | a struct and an ordinary identifier of one name live side by side in either order, the identifier found first |
| `Declarations.TypeBesideOrdinary` | sharp-fe/scope.c:433-446 | so do an enum or typedef and a function or variable, the later one first |
| `Declarations.FunctionBesideVariable` | sharp-fe/scope.c:266-276 | a function takes over a variable of its name, a variable behind a function is an error |
| `Declarations.OperatorsOverload` | sharp-fe/scope.c:252-264 | two definitions of one operator stay as overloads |
| `SymbolTable.SlotIsMask` | sharp-fe/scope.c:105-111 | masking the hash picks the remainder, for table sizes that are powers of two |
| `SymbolTable.GrownKeeps` | sharp-fe/scope.c:25-43 | a rehash loses no symbol, puts each in its slot, and turns the order of each name around |
| `SymbolTable.DefineKeeps` | sharp-fe/scope.c:223-532 | a definition does to its name what the rule for one name says and nothing to other names, but for the turn of a rehash |
| `SymbolTable.TableStaysOk` | sharp-fe/scope.c:487-532 | after any definitions: every symbol in its slot, a power of two of chains, at most three quarters full |
| `SymbolTable.TableIsMap` | sharp-fe/scope.c:105-531 | over any interleaving of families of declarations, however often the table grows, each name has the one symbol that its own declarations lead to |
| `SymbolTable.LookupAfterGrowth` | sharp-fe/scope.c:25-43 | a lookup finds the same symbol before and after a rehash if and only if the first and the last symbol of the name are the same |
| `SymbolTable.TypedefLosesPriority` | sharp-fe/scope.c:491-532 | a struct put behind a typedef is found instead of it after the next rehash |
| `SymbolTable.TypedefLost` | sharp-fe/scope.c:223-532 | a run that gets there, for any names: a typedef and a struct of one name and four variables from the empty table on, without an error, and the next new name turns the lookup from the typedef to the struct |
| `ScopeMachine.Hash` | sharp-fe/scope.c:15-20 | the hash of a name by the loop over its characters |
| `ScopeMachine.Scope.Find` | sharp-fe/scope.c:105-111 | the first symbol of a name in the chain of its slot |
| `ScopeMachine.Scope.LookupLocal` | sharp-fe/scope.c:105-111 | the symbol of a name that comes first, if there is one |
| `ScopeMachine.Scope.Rehash` | sharp-fe/scope.c:25-43 | all chains moved, symbol by symbol, into twice as many |
| `ScopeMachine.Scope.MoveChain` | sharp-fe/scope.c:31-39 | the inner loop of the rehash |
| `ScopeMachine.Scope.Insert` | sharp-fe/scope.c:487-532 | grows the table if it must and puts the symbol in front, or a struct behind an ordinary identifier |
| `ScopeMachine.Scope.Define` | sharp-fe/scope.c:223-532 | the whole table, the errors and the symbol returned after a definition |
| `ScopeMachine.Scope.LookupEx` | sharp-fe/scope.c:174-193 | the innermost scope with a symbol of the name that passes the filter, and its first such symbol |
| `ScopeMachine.Scope.LookupFiltered` | sharp-fe/scope.c:174-190 | the first symbol of a name in one scope that passes the filter |
| `ScopeMachine.FirstExact` | sharp-fe/scope.c:174-190 | the symbol found is the first that passes, and none is found if and only if none passes |
| `ScopeMachine.TagLookups` | sharp-fe/scope.c:174-193 | beside an ordinary identifier a struct is found by its tag, and by a lookup of types when the identifier is none |
| `JsonMachine.Parser.Skip` | clibs/wg/cson.h:373-376 | skips white space |
| `JsonMachine.Parser.ReadHex4` | clibs/wg/cson.h:379-390 | four hexadecimal digits, or fewer at the end |
| `JsonMachine.Parser.ReadUnicode` | clibs/wg/cson.h:427-436 | a `\u` escape and its low surrogate, encoded in UTF-8 |
| `JsonMachine.Parser.ReadStrBody` | clibs/wg/cson.h:401-443 | the body of a string up to its closing quote, and the size that was measured for it, which is enough whenever the passes keep in step |
| `JsonMachine.Parser.MeasureStrBody` | clibs/wg/cson.h:404-412 | the measuring pass: the size that it computes |
| `JsonMachine.Parser.ReadNumber` | clibs/wg/cson.h:445-460 | a number |
| `JsonMachine.Parser.ReadArray` | clibs/wg/cson.h:462-479 | an array, or failure |
| `JsonMachine.Parser.ReadObject` | clibs/wg/cson.h:481-507 | an object, or failure |
| `JsonMachine.Parser.ReadValue` | clibs/wg/cson.h:509-521 | any value: the same tree and the same text left as the parser function, or failure of both |
| `JsonMachine.CsonParse` | clibs/wg/cson.h:523-531 | a whole text |
| `JsonMachine.SetKey` | clibs/wg/cson.h:240-260 | replaces the value of a key or appends the pair |
| `JsonMachine.Builder.PutJsonString` | clibs/wg/cson.h:550-563 | a string literal with its escapes |
| `JsonMachine.Builder.PutNode` | clibs/wg/cson.h:565-608 | the printed text of a tree, at the end of the buffer |
| `JsonMachine.Dumps` | clibs/wg/cson.h:610-619 | the printed text of a tree, compact or pretty |
| `JsonRoundTrip.ParseOfShow` | clibs/wg/cson.h:509-608 | parsing the printed text of a well-formed tree gives the tree back and stops at its end, compact or with any white-space indent, whatever follows that a number would not take in |
| `JsonRoundTrip.StrRead` | clibs/wg/cson.h:401-563 | reading a printed string gives the string back |
| `JsonRoundTrip.NumberRead` | clibs/wg/cson.h:445-460 | reading a printed integer gives the integer back |
| `JsonRoundTrip.SetPairSound` | clibs/wg/cson.h:240-260 | setting a key keeps the keys distinct and is seen under that key only |
| `JsonRoundTrip.SetInPlace` | clibs/wg/cson.h:240-260 | a key that is there takes the new value in its place |
| `JsonRoundTrip.ParsedSound` | clibs/wg/cson.h:371-531 | on every text whose strings fit the buffers measured for them, every object of the tree that is parsed has each key once |
| `JsonRoundTrip.ReparseStable` | clibs/wg/cson.h:509-619 | a text, its strings fitting likewise, that parses to a lossless tree can be replaced by that tree's printed text, which parses to the same tree to its very end |
| `JsonGrammar.Accepts` | clibs/wg/cson.h:371-531 | every text that the grammar derives is accepted, with the tree it stands for, and the parser stops at its end |
| `JsonGrammar.Accepted` | clibs/wg/cson.h:371-531 | every accepted text that does not end inside a string starts with one that the grammar derives, which stands for the tree returned and ends where the parser stops |
| `JsonGrammar.EscapeRead` | clibs/wg/cson.h:418-438 | each escape letter of RFC 8259 section 7 gives its character, any other a question mark |
| `JsonGrammar.CutRead` | clibs/wg/cson.h:413-440 | a text that ends inside a string gives what came before, a backslash at its end lost |
| `JsonGrammar.NumberTaken` | clibs/wg/cson.h:445-460 | sign, digits, fraction and exponent are taken as long as they go on |
| `JsonLayout.CompactArray` | clibs/wg/cson.h:578-590 | compact arrays: items joined by a comma and a space |
| `JsonLayout.CompactObject` | clibs/wg/cson.h:591-606 | compact objects: a colon behind keys, the same separators |
| `JsonLayout.PrettyArray` | clibs/wg/cson.h:578-590 | pretty arrays: each item on a line of its own, one indent deeper |
| `JsonLayout.PrettyObject` | clibs/wg/cson.h:591-606 | pretty objects: the same, with a colon and a space behind keys |
| `JsonLayout.StringShown` | clibs/wg/cson.h:550-563 | strings: quotes, five letters, four hexadecimal digits for other control characters, everything up to the first NUL |
| `JsonBuffer.BufferFits` | clibs/wg/cson.h:401-443 | the buffer that the first pass measures holds what the second writes, on every string in which no escape goes on behind the four characters of a `\u` escape before it |
| `JsonBuffer.EscapeExact` | clibs/wg/cson.h:404-436 | that condition is exact for each escape: whatever string in step follows the four characters of a `\u` escape, the buffer holds, if and only if no escape goes on behind them |
| `JsonBuffer.OverrunExample` | clibs/wg/cson.h:404-443 | on one such body the first pass measures 4 and the second writes 4 and as many more as there are characters behind |
| `JsonBuffer.NoLonger` | clibs/wg/cson.h:413-440 | a string is never longer than the text it is read from |
| `JsonBuffer.PrintedFits` | clibs/wg/cson.h:404-563 | reading back any printed string, the buffer holds, so the round trips are free of that case |
| `JsonUnicode.Utf8Decodes` | clibs/wg/cson.h:392-399 | the encoder writes every Unicode scalar value in the one form that UTF-8 defines for it |
| `JsonUnicode.EscapeRead` | clibs/wg/cson.h:427-436 | a `\u` escape that is no high surrogate gives the UTF-8 of its number, and nothing of what follows is taken |
| `JsonUnicode.SurrogateRead` | clibs/wg/cson.h:427-436 | a surrogate pair gives the UTF-8 of the code point it stands for; any other escape after a high surrogate is lost |
| `JsonUnicode.PairExists` | clibs/wg/cson.h:430-433 | every code point above the basic plane is what some surrogate pair stands for |

## Left out

- File access, search paths, the refusal of `.ce` files, `#line`, `#error`, pragmas other than the text of `_Pragma`, linemarkers and
  diagnostic wording: an error is a count, an included file is a given list of items, and one name stands
  for one file.
- `#pragma once`: its guard entry, which a detected guard of the same file overwrites, is not modelled.
- The controlling expression of `#if` in `Conditional` is a function of the macro table, which stands for
  resolving `defined` and `__has_include`, expanding the line and evaluating it; evaluation itself is
  `IfEval`, expansion `MacroExpand`.
- Conditional.RunForest: every `#ifdef` and `#ifndef` of a forest has a name after it, as the grammar asks; the
  machine itself also takes the malformed ones, and reports them even in a dead group.
- Lines of text in `Conditional` are emitted with the table they are expanded under; directives without a
  proper macro name (`#define` and `#undef` of something else) are not modelled.
- Expansion of function-like macros as a whole: their combined rescan pushes no name and no limit bounds
  it. Argument collection and `#` are proved on their own; `##` is folded into the replacement lists as
  `substitute` hands them on.
- IfExact.EvaluatorIsMeaning: no comma operator and no `__has_*` operator in the trees, which are no part of the
  C11 grammar of a constant expression there; whole lines of them are in `IfErrors`.
- IfExact.PhraseReadToEnd: in front of tokens without commas outside what the grammar of the trees allows;
  whole lines have none.
- IfExact.ReadingExact: where C11 finds an error there is no C11 value, and the meaning goes on with the
  evaluator's: that of a number up to where it goes wrong, of a shift by the amount modulo 64.
- IfMachine.EvalCtx.EvalPrimary: a character constant arrives with its value and the errors of decoding it.
- MacroHideSet.ExpanderIsHideSet: object-like macros without `defined` in them, which hides the name after it
  (`MacroExpand.DefinedKept`). C11 has no exception for macros named `_Nullable`, `_Nonnull` or
  `_Null_unspecified`, which the code leaves alone; the hide-set algorithm runs on the table without them.
- IncludeGuard.ShortcutInvisible: "sound" asks that a file close the groups it opens, and that the name of
  its first `#ifndef` outside every group be defined in it only if that group is the whole file.
- The tables behind the `__has_*` operators are a given set of answers.
- MacroMachine.Expander.NeedsCombinedRescan: does not look for a function-like name at the end of the
  expansion, since the macros of the table are object-like.
- DirectiveMachine.CppState.HandleIf: the value of the controlling expression is a function of the macro table.
- DirectiveMachine.CppState.HandleElif: the same.
- DirectiveMachine.CppState.HandleDefine: a `#define` without a proper macro name is not modelled.
- DirectiveMachine.CppState.HandleLine: the text goes out with the table it is expanded under, not expanded.
- DirectiveMachine.CppState.HandleDirective: `#line`, `#error` and `#pragma` are not among the directives.
- DirectiveMachine.CppState.HandleInclude: one name stands for one file, so the second look at the guard,
  under the path that was found, never differs from the first.
- DirectiveMachine.CppState.ProcessBuf: works on a file that is already cut into directives and text.
- LexerMachine.CppReader.LexIdent: the diagnostics on the range and the length of universal character names.
- LexerMachine.CppReader.LexFrom: the diagnostic on control characters.
- LexerMachine.CppReader.ReadTok: the location and the leading white space of the token.
- JsonMachine.Parser.ReadNumber: the value of a number that is no integer up to 2^53.
- Token locations and leading white space, except where `#` looks at it; tokens are values, so node sharing
  and copying are not modelled. Chains of hash tables are sequences in an array, not linked nodes.
- Trigraphs (off by default), raw strings of Sharp sources, `#line` changing the line counter, diagnostics of
  universal character names and control characters, and kept comments as tokens.
- Growing of buffers, memory exhaustion and the fixed-size buffers (a `_Pragma` of more than 511 bytes is cut).
- JsonMachine.Parser.ReadStrBody: a string that outgrows the buffer measured for it is read as if the buffer
  were large enough; the program writes past its end there, and `JsonBuffer.BufferFits` says where it does not.
- JsonRoundTrip.ParsedSound: the same, for every string of the text.
- JsonRoundTrip.ReparseStable: the same.
- Numbers of JSON that are no integer up to 2^53: what strtod and `%.17g` make of them is a given text.
  Negative zero is read as 0: its sign, which the printer drops, is not kept. `cson_insert`, `cson_merge` and the accessors.
- Scopes: parents are a given list, innermost first; kinds other than functions, variables and types have no
  family.
- JsonGrammar.Accepted: a text that ends inside a string is accepted as well, with what came before; the grammar
  takes a string as a piece of text that reads as its characters whatever follows it.
- MacroStoreMachine.MacroTable.DefineMacro: the warning about a different redefinition, which changes nothing.
- `deferred_nest`, which nothing enters any more.
