# Propositional-logic engine, modelled in Dafny

This project models the logic engine of the `lab.drodt.info` web app. The engine lives in `src/lib/logic/`. A formula typed by the user goes through these stages:

- The tokenizer (`token.ts`) cuts the formula into tokens.
- A recursive-descent parser (`parse.ts`) builds a formula tree from them. The tree has eight node kinds: atom, negation, and, or, implication, equivalence, Scheffer stroke (NAND) and n-ary NOR.
- The tree is then used by:
  - the node operations (`create.ts`): evaluation under an interpretation, and the fully parenthesised rendering;
  - the atom collector (`util.ts`);
  - the connective-restricting rewriter (`transform.ts`), which rewrites a formula into one of seven connective bases;
  - the truth-table enumerator (`truth-table.ts`).

Each source file is one module:

| module | file | what it holds |
|---|---|---|
| `Types` | `types.dfy` | the `Logic` namespace of `src/lib/types.d.ts`: the `Node` datatype, interpretations, and the errors the source throws, as values |
| `Create` | `create.dfy` | the node classes' `evaluate`, `toBasicString` and `operatorString` |
| `Lexer` | `token.dfy` | `getToken`, and `tokenize` as a loop |
| `Parse` | `parse.dfy` | the grammar as functions on the reversed token stack, and the `Parser` class whose methods pop that stack in place |
| `Util` | `util.dfy` | `collectAtoms` (its NOR branch as nested loops) and `children` |
| `Transform` | `transform.dfy` | the `Allowed` flags, `getAllowed` and `restrictOperators` |
| `TruthTable` | `truth_table.dfy` | `getAllInterpretations` and `computeTruthTable` |

Some parts of the source are imperative. Each of these is a Dafny method with loop invariants, proved equal to a specification function:

- the tokenizer loop;
- the parser's stack;
- the NOR loops of the collector and of the rewriter;
- the two push loops of the interpretation enumerator;
- the row and cell loops of the truth table.

The properties are then proved about the functions. The main ones are:

- The lexer places every token at its offset, and its output spells the input without whitespace.
- The parser inverts a printer of its own syntax, with the precedence and associativity of the grammar. It also reports the errors the source reports.
- The rewriter:
  - terminates on every preset basis;
  - keeps the truth value and the atoms of a formula;
  - uses only connectives of the basis;
  - leaves conforming formulas unchanged, and is idempotent.
- The truth table enumerates the `2^n` interpretations of its `n` atoms in binary counting order. The interpretations are pairwise distinct, and each one covers exactly the atoms.

## Model

| member | source | states |
|---|---|---|
| `Create.Evaluate` | src/lib/logic/create.ts:14-287 | evaluation as written, with short-circuit and/or: an atom fails exactly when its name is not a key and otherwise reads its value; a NOR node is `true` whatever its children; a failure names an atom missing from the interpretation; it succeeds whenever every atom name is a key; on a NOR-free formula its value is the standard truth value |
| `Create.EvaluateStd` | src/lib/logic/create.ts:285-287 | evaluation with NOR read as "every child is false": an atom fails exactly when its name is not a key, the same failure behaviour otherwise, and every successful value is the standard truth value of the formula |
| `Create.NoneHolds` | src/lib/logic/create.ts:285-287 | the standard NOR test over the children: it fails only on an atom missing from the interpretation, and succeeds whenever the children's atom names are keys |
| `Create.EvaluateIsStdWithoutNor` | src/lib/logic/create.ts:54-250 | on formulas without NOR the two evaluations agree exactly, failures included |
| `Create.NorEvaluatesToTrue` | src/lib/logic/create.ts:285-287 | for every NOR node and every covering interpretation under which some child is true, the NOR class answers true where the standard reading gives false |
| `Create.OperatorString` | src/lib/logic/create.ts:11-290 | an atom's `operatorString` is its name; every connective's is one character that is neither a parenthesis nor a comma |
| `Create.RenderingUsesOperatorGlyph` | src/lib/logic/create.ts:11-290 | `toBasicString` writes each connective with the node's own `operatorString`, binary nodes as `(l op r)`, NOR as `N(c1, …, cn)` |
| `Create.RenderingIsBalanced` | src/lib/logic/create.ts:21-290 | when no atom name contains a parenthesis, the rendering opens exactly as many parentheses as it closes |
| `Create.JoinIsBalanced` | src/lib/logic/create.ts:289 | the comma-joined rendering of NOR children is balanced |
| `Lexer.SpaceRun` | src/lib/logic/token.ts:24-26 | the whitespace match ends at the end of the text or at a non-space character |
| `Lexer.SpaceRunIsSpace` | src/lib/logic/token.ts:24 | every character the whitespace match covers is whitespace |
| `Lexer.AlnumRun` | src/lib/logic/token.ts:67 | the identifier match ends at the end of the text or at a character that is not a letter or digit |
| `Lexer.AlnumRunIsAlnum` | src/lib/logic/token.ts:67 | every character the identifier match covers is a letter or a digit |
| `Lexer.GetToken` | src/lib/logic/token.ts:40-73 | a failure is a lexing error at the current offset; a token has length at least 1 and lies inside the text |
| `Lexer.GetTokenClassifies` | src/lib/logic/token.ts:40-73 | a token's kind is the one its first character calls for, and its spelling is the text at the offset: a maximal letter/digit run for an identifier, exactly `->` for an implication and `<->` for an equivalence, and the one character `&`, `!`, `(`, `)` or the bar for every other operator |
| `Lexer.GetTokenFailsExactly` | src/lib/logic/token.ts:52-68 | `getToken` fails if and only if no token can start here: a lone `-`, a `<` not followed by `->`, or a character that is neither an operator nor alphanumeric |
| `Lexer.Lex` | src/lib/logic/token.ts:23-35 | a failure lies at an offset inside the remaining text |
| `Lexer.LexWellPlaced` | src/lib/logic/token.ts:31-34 | every token's spelling is the text at its recorded offset; tokens are non-empty, never Unknown, and follow one another without overlap |
| `Lexer.LexSpelled` | src/lib/logic/token.ts:23-35 | the concatenated spellings are the input with its whitespace removed |
| `Lexer.LexFailsAtBadStart` | src/lib/logic/token.ts:31 | tokenizing fails only at a non-space offset where no token can start |
| `Lexer.Tokenize` | src/lib/logic/token.ts:19-38 | the loop that strips whitespace runs and pushes tokens returns exactly `Lex` of the input from offset 0 |
| `Parse.Reverse` | src/lib/logic/parse.ts:11 | the reversed token list has the same length, element `k` taken from the mirrored position |
| `Parse.Current` | src/lib/logic/parse.ts:89-95 | `current` returns the top of the stack if there is one and fails with end-of-input otherwise |
| `Parse.Unexpected` | src/lib/logic/parse.ts:68 | the error names the spelling of the offending token, or end-of-input when none is left |
| `Parse.PAtom` | src/lib/logic/parse.ts:66-73 | parsing an atom fails or pops at least one token and yields a parsable node |
| `Parse.PParen` | src/lib/logic/parse.ts:55-64 | parsing a parenthesised formula or atom fails or pops at least one token |
| `Parse.PNeg` | src/lib/logic/parse.ts:46-53 | parsing an optional negation fails or pops at least one token |
| `Parse.AndOrLoop` | src/lib/logic/parse.ts:36-41 | the and/or loop only pops tokens and builds parsable nodes |
| `Parse.PAndOr` | src/lib/logic/parse.ts:33-44 | the and/or level fails or pops at least one token |
| `Parse.EquivImplLoop` | src/lib/logic/parse.ts:23-28 | the arrow loop only pops tokens and builds parsable nodes |
| `Parse.PEquivImpl` | src/lib/logic/parse.ts:20-31 | the arrow level fails or pops at least one token |
| `Parse.ParseTokens` | src/lib/logic/parse.ts:9-18 | a parsed tree uses only the connectives the grammar builds |
| `Parse.Parse` | src/lib/logic/parse.ts:9-18 | `parse` of a string: a lexing failure or a tree of parsable connectives |
| `Parse.Parser.constructor` | src/lib/logic/parse.ts:10-12 | the parser starts with the reversed token list |
| `Parse.Parser.Bump` | src/lib/logic/parse.ts:79-82 | `bump` pops one token, or fails with end-of-input and leaves the stack alone |
| `Parse.Parser.Eat` | src/lib/logic/parse.ts:84-87 | `eat` pops a token of the expected kind, or fails naming the kind's enum number and the token found |
| `Parse.Parser.ParseAtom` | src/lib/logic/parse.ts:66-73 | the method leaves the stack and result that `PAtom` specifies |
| `Parse.Parser.ParseParen` | src/lib/logic/parse.ts:55-64 | the method leaves the stack and result that `PParen` specifies |
| `Parse.Parser.ParseNeg` | src/lib/logic/parse.ts:46-53 | the method leaves the stack and result that `PNeg` specifies |
| `Parse.Parser.ParseAndOr` | src/lib/logic/parse.ts:33-44 | the while loop leaves the stack and result that `PAndOr` specifies |
| `Parse.Parser.ParseEquivImpl` | src/lib/logic/parse.ts:20-31 | the while loop leaves the stack and result that `PEquivImpl` specifies |
| `Parse.ParseFormula` | src/lib/logic/parse.ts:9-18 | the imperative `parse` (tokenize, reverse, parse, reject leftovers) returns exactly `Parse` |
| `Parse.StackedIsReversed` | src/lib/logic/parse.ts:11 | reversing the printed tokens of a tree gives its stacked form |
| `Parse.UnitParses` | src/lib/logic/parse.ts:46-64 | a printed atom, negation or parenthesised formula is parsed back by `parseNeg`, whatever lies after it |
| `Parse.AndOrParses` | src/lib/logic/parse.ts:33-44 | a printed tree is parsed back by the and/or level when no and/or operator token follows it |
| `Parse.FormulaParses` | src/lib/logic/parse.ts:20-31 | a printed tree is parsed back by the arrow level when no operator follows it |
| `Parse.ParseInvertsEmit` | src/lib/logic/parse.ts:9-18 | parsing the tokens printed from any parsable tree gives that tree back |
| `Parse.ImplGroupsLeft` | src/lib/logic/parse.ts:23-28 | `x -> y -> z` parses as `(x -> y) -> z` |
| `Parse.EquivImplShareALevel` | src/lib/logic/parse.ts:23-28 | `x -> y <-> z` parses as `(x -> y) <-> z`: both arrows bind equally, left to right |
| `Parse.AndBindsTighterThanImpl` | src/lib/logic/parse.ts:20-44 | `x -> y & z` parses as `x -> (y & z)` |
| `Parse.AndOrShareALevel` | src/lib/logic/parse.ts:36-41 | `x ∨ y & z`, `∨` standing for the bar token, parses as `(x ∨ y) & z` |
| `Parse.NegBindsTighterThanAnd` | src/lib/logic/parse.ts:46-53 | `!a & y` parses as `(!a) & y` |
| `Parse.DoubleNegationRejected` | src/lib/logic/parse.ts:46-53 | the tokens `! ! x`, at any offsets, are rejected at the second `!`: after one `!` only a parenthesis or an identifier may follow |
| `Parse.DoubleNegationTextRejected` | src/lib/logic/parse.ts:9-18 | the text `!!a`, lexed and parsed, fails expecting an identifier and naming `!` |
| `Parse.TrailingTokenRejected` | src/lib/logic/parse.ts:14-16 | a complete formula followed by another identifier is rejected naming that identifier |
| `Parse.UnclosedParenRejected` | src/lib/logic/parse.ts:59 | an opening parenthesis that is never closed fails with end-of-input |
| `Parse.MissingOperandAtEnd` | src/lib/logic/parse.ts:89-95 | the tokens `x &`, at any offsets, fail with end-of-input |
| `Parse.MissingOperandAtEndText` | src/lib/logic/parse.ts:9-18 | the text `a &`, lexed and parsed, fails with end-of-input |
| `Parse.MissingOperandBeforeOperator` | src/lib/logic/parse.ts:67-69 | the tokens `x & & y`, at any offsets, fail expecting an identifier and naming the second `&` |
| `Parse.MissingOperandBeforeOperatorText` | src/lib/logic/parse.ts:9-18 | the text `a&&b`, lexed and parsed, fails expecting an identifier and naming the second `&` |
| `Util.Atoms` | src/lib/logic/util.ts:3-25 | everything `collectAtoms` returns is a one-letter string |
| `Util.NameChars` | src/lib/logic/util.ts:6 | `new Set(name)` holds exactly the one-letter strings of the name's characters |
| `Util.Children` | src/lib/logic/util.ts:27-43 | an atom has no children, a negation its operand, a binary connective `[left, right]`, a NOR its children in order; every child is a proper subterm, and every well-formed node but an atom has at least one |
| `Util.AtomsOfChildren` | src/lib/logic/util.ts:27-43 | for every node but an atom, the collected atoms are the union of those of its children |
| `Util.AddAll` | src/lib/logic/util.ts:18-20 | the inner loop adds every element of a child's set to the accumulator |
| `Util.CollectAtoms` | src/lib/logic/util.ts:3-25 | `collectAtoms`, including its nested NOR loops, returns exactly `Atoms` |
| `Util.AtomsAreLetters` | src/lib/logic/util.ts:6 | the collected atoms are exactly the letters of the atom names |
| `Util.SingleLetterAtoms` | src/lib/logic/util.ts:3-25 | when every name is one letter long, the collector returns exactly the atom names |
| `Util.LongNameFragmented` | src/lib/logic/util.ts:6 | a name of two or more letters is not collected, but each of its letters is |
| `Transform.AllIsClassical` | src/lib/logic/transform.ts:5-19 | `All` is the union of the Neg, Or, And, Impl and Equiv bits and holds neither the NOR nor the Scheffer bit |
| `Transform.GetAllowed` | src/lib/logic/transform.ts:21-38 | every basis `getAllowed` returns is one of the seven presets |
| `Transform.GetAllowedInvertsName` | src/lib/logic/transform.ts:21-38 | `getAllowed` maps the seven names `all`, `no-equiv`, `no-impl`, `no-or`, `no-and`, `nor`, `scheffer` to their presets and nothing else to a basis |
| `Transform.OrChainLoop` | src/lib/logic/transform.ts:88-91 | the `for` loop builds the left fold `((c1 ∨ c2) ∨ …) ∨ cn` |
| `Transform.OrChainValue` | src/lib/logic/transform.ts:87-92 | the fold holds exactly when some child holds |
| `Transform.OrChainShape` | src/lib/logic/transform.ts:88-91 | the fold is well formed and has exactly the children's atoms |
| `Transform.Weight` | src/lib/logic/transform.ts:40-106 | every formula has a positive weight in every basis |
| `Transform.ChainWeightIsWeight` | src/lib/logic/transform.ts:88-91 | the weight of the fold is computed from the children's weights |
| `Transform.ChildWeight` | src/lib/logic/transform.ts:94 | a NOR child, and every proper prefix of the children, weigh less than all the children together |
| `Transform.EquivRuleLighter` | src/lib/logic/transform.ts:48 | the equivalence expansion `(l → r) ∧ (r → l)` weighs less than `l ↔ r` |
| `Transform.ImplRuleLighter` | src/lib/logic/transform.ts:54 | the implication rewrite `¬l ∨ r` weighs less than `l → r` |
| `Transform.AndRuleLighter` | src/lib/logic/transform.ts:60 | in the bases that drop `and`, `¬(¬l ∨ ¬r)` weighs less than `l ∧ r` |
| `Transform.OrRuleLighter` | src/lib/logic/transform.ts:66 | in the bases that drop `or`, `¬(¬l ∧ ¬r)` weighs less than `l ∨ r` |
| `Transform.SchefferRuleLighter` | src/lib/logic/transform.ts:98 | outside the Scheffer basis, `¬(l ∧ r)` weighs less than the Scheffer node `l NAND r` |
| `Transform.NegCollapseLighter` | src/lib/logic/transform.ts:72-83 | each collapse of a negation into a Scheffer or NOR node weighs less than the negation |
| `Transform.RestrictAll` | src/lib/logic/transform.ts:94 | mapping the rewriter over NOR children keeps their number |
| `Transform.RestrictAllPointwise` | src/lib/logic/transform.ts:94 | the mapped child `k` is the rewrite of child `k` |
| `Transform.RestrictOperators` | src/lib/logic/transform.ts:40-106 | the recursive method, whose NOR arm uses loops, returns exactly `Restrict` |
| `Transform.RestrictEquivArm` | src/lib/logic/transform.ts:44-49 | the equivalence arm returns `RestrictEquiv` |
| `Transform.RestrictImplArm` | src/lib/logic/transform.ts:50-55 | the implication arm returns `RestrictImpl` |
| `Transform.RestrictAndArm` | src/lib/logic/transform.ts:56-61 | the conjunction arm returns `RestrictAnd` |
| `Transform.RestrictOrArm` | src/lib/logic/transform.ts:62-67 | the disjunction arm returns `RestrictOr` |
| `Transform.RestrictNegArm` | src/lib/logic/transform.ts:68-85 | the negation arm returns `RestrictNeg` |
| `Transform.RestrictNorArm` | src/lib/logic/transform.ts:86-95 | the NOR arm, with its fold loop and its children loop, returns `RestrictNor` |
| `Transform.RestrictSchefferArm` | src/lib/logic/transform.ts:96-101 | the Scheffer arm returns `RestrictScheffer` |
| `Transform.RestrictPreserves` | src/lib/logic/transform.ts:40-106 | the rewrite is well formed, has the same atoms and the same truth value under every interpretation, and outside `All` uses only connectives of the basis |
| `Transform.EquivArmPreserves` | src/lib/logic/transform.ts:44-49 | the equivalence arm preserves meaning, atoms and conformance |
| `Transform.ImplArmPreserves` | src/lib/logic/transform.ts:50-55 | the implication arm preserves meaning, atoms and conformance |
| `Transform.AndArmPreserves` | src/lib/logic/transform.ts:56-61 | the conjunction arm preserves meaning, atoms and conformance |
| `Transform.OrArmPreserves` | src/lib/logic/transform.ts:62-67 | the disjunction arm preserves meaning, atoms and conformance |
| `Transform.NegArmPreserves` | src/lib/logic/transform.ts:68-85 | the negation arm, with its Scheffer and NOR collapses, preserves meaning, atoms and conformance |
| `Transform.NorArmPreserves` | src/lib/logic/transform.ts:86-95 | the NOR arm preserves meaning, atoms and conformance |
| `Transform.SchefferArmPreserves` | src/lib/logic/transform.ts:96-101 | the Scheffer arm preserves meaning, atoms and conformance |
| `Transform.RestrictKeepsValue` | src/lib/logic/transform.ts:40-106 | under any interpretation the rewrite has the truth value of the original |
| `Transform.RestrictKeepsAtoms` | src/lib/logic/transform.ts:40-106 | the rewrite is well formed and has exactly the original's atoms |
| `Transform.RestrictConforms` | src/lib/logic/transform.ts:41-104 | for every preset other than `All`, the rewrite uses only connectives of the basis |
| `Transform.RestrictKeepsEvaluation` | src/lib/logic/transform.ts:40-106 | when the interpretation covers the atoms, evaluating the rewrite succeeds with the original's value, NOR read as "no child holds" |
| `Transform.RestrictFixesConforming` | src/lib/logic/transform.ts:41-104 | a formula that already uses only allowed connectives, or any formula under `All`, is returned unchanged |
| `Transform.RestrictIdempotent` | src/lib/logic/transform.ts:40-106 | restricting twice gives the same as restricting once |
| `Transform.NegationCollapsesToScheffer` | src/lib/logic/transform.ts:72-77 | in the Scheffer basis `¬(x ∧ y)` becomes `x' NAND y'` and any other `¬c` becomes `c' NAND c'` |
| `Transform.NegationCollapsesToNor` | src/lib/logic/transform.ts:78-83 | in the NOR basis `¬(x ∨ y)` becomes `N(x', y')` and any other `¬c` becomes `N(c')` |
| `Transform.NorRewriteMisevaluated` | src/lib/logic/transform.ts:82 | `¬a` restricted to NOR is `N(a)`; under `a = true` the source's evaluation turns false into true, the standard reading keeps false |
| `TruthTable.BelowTotal` | src/lib/logic/truth-table.ts:7 | two different strings are ordered one way or the other by the default sort order |
| `TruthTable.BelowTransitive` | src/lib/logic/truth-table.ts:7 | the default sort order is transitive |
| `TruthTable.LeastExists` | src/lib/logic/truth-table.ts:7 | every non-empty atom set has a first element in that order |
| `TruthTable.SortAtoms` | src/lib/logic/truth-table.ts:7 | sorting the collected set gives `SortedOf` of it |
| `TruthTable.SortedOfSorts` | src/lib/logic/truth-table.ts:7 | the sorted list is strictly ascending |
| `TruthTable.SortedOfElements` | src/lib/logic/truth-table.ts:7 | the sorted list holds each atom of the set exactly once |
| `TruthTable.SortedOfUnique` | src/lib/logic/truth-table.ts:7 | any strictly ascending list of the atoms is the sorted list |
| `TruthTable.GetAllInterpretations` | src/lib/logic/truth-table.ts:19-40 | the recursive method with its two push loops returns exactly `AllInterpretations` |
| `TruthTable.InterpretationsFailOnlyWhenEmpty` | src/lib/logic/truth-table.ts:22 | enumeration fails, with "No atoms", if and only if the atom list is empty |
| `TruthTable.InterpretationsCover` | src/lib/logic/truth-table.ts:24-39 | for `n ≥ 1` atoms there are exactly `2^n` interpretations, each with exactly the atoms as keys |
| `TruthTable.InterpretationAt` | src/lib/logic/truth-table.ts:30-37 | interpretation `k` gives atom `j` the value of binary digit `n-1-j` of `k` |
| `TruthTable.InterpretationsCount` | src/lib/logic/truth-table.ts:30-37 | the order is binary counting with F before T and the first atom most significant |
| `TruthTable.DigitsDiffer` | src/lib/logic/truth-table.ts:30-37 | two different row numbers below `2^m` differ in one of their `m` binary digits |
| `TruthTable.InterpretationsDistinct` | src/lib/logic/truth-table.ts:30-37 | over distinct atoms no interpretation occurs twice |
| `TruthTable.RowsLoop` | src/lib/logic/truth-table.ts:9-15 | the outer loop of `computeTruthTable` returns exactly `Rows`: one row per interpretation, or the first failing row's error |
| `TruthTable.RowsKeepFirstError` | src/lib/logic/truth-table.ts:14 | once a row's evaluation fails, the whole table fails with that error |
| `TruthTable.RowsInOrder` | src/lib/logic/truth-table.ts:9-15 | the rows succeed exactly when every row evaluates; then there is one row per interpretation, in order; a failure is a missing variable |
| `TruthTable.Stringify` | src/lib/logic/truth-table.ts:4 | `stringify` gives `T` exactly for true and `F` exactly for false |
| `TruthTable.WorldOf` | src/lib/logic/truth-table.ts:10-13 | the inner loop builds the row's `world`, one `T`/`F` cell per atom |
| `TruthTable.ComputeTruthTable` | src/lib/logic/truth-table.ts:6-17 | the method with its row and cell loops returns exactly `TruthTableOf` |
| `TruthTable.TableNeedsAtoms` | src/lib/logic/truth-table.ts:22 | the table fails with "No atoms" exactly when the collector finds no atom |
| `TruthTable.TableHead` | src/lib/logic/truth-table.ts:16 | the header is the collected atoms, ascending and each once, followed by the rendering of the formula: `n + 1` cells |
| `TruthTable.TableOverSucceeds` | src/lib/logic/truth-table.ts:9-15 | over a set that covers the atom names, every row evaluates and there are `2^n` rows |
| `TruthTable.TableOverRows` | src/lib/logic/truth-table.ts:9-15 | row `k` has `n` world cells showing the binary digits of `k`, and one result cell showing the formula's value under that interpretation |
| `TruthTable.TableRows` | src/lib/logic/truth-table.ts:6-17 | with one-letter atom names, the model's table (NOR read as in `Create.EvaluateStd`) has `2^n` rows, and row `k` shows the digits of `k` and the formula's value under them |
| `TruthTable.MultiLetterAtomFails` | src/lib/logic/truth-table.ts:14 | a formula that is an atom whose name is two or more letters and digits, as the tokenizer produces, other than the seven such names inherited from `Object.prototype`, gets no table: evaluation fails on that name |
| `TruthTable.NamedTableRows` | src/lib/logic/truth-table.ts:6-17 | over whole atom names, every formula with an atom gets the full table of `2^n` rows |

Some functions that model source code have no contract of their own. Each is the specification that the methods and lemmas in the table are stated against, and those rows carry what the source promises about it:

- `Create.ToBasicString` (`create.ts:21-290`): `Create.RenderingUsesOperatorGlyph` and `Create.RenderingIsBalanced`.
- `Lexer.KindFor` (`token.ts:52-68`): `Lexer.GetTokenClassifies` and `Lexer.GetTokenFailsExactly`.
- `Parse.NextIs` (`parse.ts:75-77`), the one-line kind test on the top of the stack: `Parse.Parser.Eat` and every parse function.
- `Parse.EnumValue` (`parse.ts:86`), the numeric value of a token kind: `Parse.Parser.Eat`.
- `Transform.OrChain` (`transform.ts:88-91`): `Transform.OrChainLoop`, `Transform.OrChainValue` and `Transform.OrChainShape`.
- `Transform.Restrict` (`transform.ts:40-106`), with one function per arm (`RestrictEquiv`, `RestrictImpl`, `RestrictAnd`, `RestrictOr`, `RestrictNeg`, `RestrictNor`, `RestrictScheffer`): the `Restrict…Arm` methods, the `…ArmPreserves` lemmas, and `Transform.RestrictKeepsValue`, `Transform.RestrictKeepsAtoms`, `Transform.RestrictConforms`, `Transform.RestrictFixesConforming` and `Transform.RestrictIdempotent`.
- `TruthTable.SortedOf` (`truth-table.ts:7`): `TruthTable.SortAtoms`, `TruthTable.SortedOfSorts`, `TruthTable.SortedOfElements` and `TruthTable.SortedOfUnique`.
- `TruthTable.AllInterpretations` (`truth-table.ts:19-40`): `TruthTable.GetAllInterpretations` and the `TruthTable.Interpretations…` lemmas.
- `TruthTable.World`, `TruthTable.RowOf` and `TruthTable.Rows` (`truth-table.ts:9-15`): `TruthTable.WorldOf`, `TruthTable.RowsLoop`, `TruthTable.RowsKeepFirstError` and `TruthTable.RowsInOrder`.
- `TruthTable.TableOver` and `TruthTable.TruthTableOf` (`truth-table.ts:6-17`): `TruthTable.ComputeTruthTable`, `TruthTable.TableNeedsAtoms`, `TruthTable.TableHead`, `TruthTable.TableOverSucceeds`, `TruthTable.TableOverRows`, `TruthTable.TableRows` and `TruthTable.MultiLetterAtomFails`.

## Left out

- I/O, the user interface, and the tree layout of `src/lib/tree/logic-tree.ts` are not part of this model. The `UI`, `Layout` and `Tree` types are left out too.
- Exceptions become `Result` values carrying an `Error` datatype. The datatype records what the message names (the offset, the expected token, the spelling found), not the message text.
  - On a character that is neither an operator nor alphanumeric, the source's guard dereferences `null`. It throws a `TypeError` instead of its own message. Both count as the same lexing failure here.
- Create.Evaluate treats an interpretation as a map, so a name that is not a key is missing. The source tests `name in i` on a plain object, and that test also finds the properties every object inherits from `Object.prototype`. Seven of them are letter-and-digit names the tokenizer accepts (`Types.InheritedNames`: `toString`, `valueOf`, `constructor`, and so on); the others, such as `__proto__`, contain underscores. The source then returns the inherited value, which is truthy, where the model reports a missing variable. `TruthTable.MultiLetterAtomFails` therefore requires a name of letters and digits, as the tokenizer produces, outside these seven.
- Regular expressions are character-class predicates. `\s` is the fixed ECMAScript whitespace set, and `[a-zA-Z0-9]` is ASCII letters and digits.
- The builder methods `neg/and/or/impl/equiv` and the factory functions of `create.ts` are the constructors of `Node`. Sharing of subtrees between nodes is not visible in a value model.
- `simplifyNOR` (`transform.ts:108-117`) is not modelled: it is unexported and unused, and returns nothing on most paths. `transformRecursively` (`util.ts:45`) is an empty stub.
- Transform.Restrict is stated for the seven preset bases only. For other bit masks the source may never stop: with only `Neg|Impl`, the `and` and `or` rules produce each other.
- Transform.Restrict requires every NOR node to have a child. On an empty NOR the source behaves differently by basis. Under `all` it returns the node unchanged (`transform.ts:41`). Under `nor` it rebuilds an empty `nor()` (`transform.ts:94`). Under `no-equiv`, `no-impl`, `no-or`, `no-and` and `scheffer`, the fold starts from `children[0]`, which is `undefined`, and calling `.neg()` on it throws. The parser never builds an empty NOR.
- Parse and print do not round-trip at the level of strings, and the model does not claim it:
  - `toBasicString` writes glyphs (`¬ ∧ ∨ → ↔`) that the tokenizer rejects;
  - `|` means "or" to the tokenizer but "Scheffer" to the renderer.
  - The round trip is proved at token level instead (`Parse.ParseInvertsEmit`).
- The string sort of `[...set].sort()` is a library call. It is modelled by taking the least remaining atom, one at a time. JavaScript compares UTF-16 code units and the model compares characters; the two agree on ASCII identifiers, which are the only ones the tokenizer accepts.
- TruthTable.ComputeTruthTable evaluates each row with `Create.EvaluateStd`, the standard NOR reading, not the source's constant NOR (see Findings). On a formula with NOR both the result column and whether a table exists at all can differ from the source. `N(a)` under `a = T` shows `F` where the source shows `T`. `N(ab)` has no table in the model, because `ab` is missing, while the source never reads a NOR node's children and shows four `T` rows. The two agree on every formula without NOR (`Create.EvaluateIsStdWithoutNor`); `TruthTable.TableOverRows` and `TruthTable.TableRows` describe the model's table.
- TruthTable.TableRows states the full table only for one-letter atom names, because the collector splits longer names into letters (see Findings).
- Create.RenderingIsBalanced assumes no atom name contains a parenthesis, which the tokenizer guarantees.

## Findings

| source | as written | input that shows it | evidently intended | confidence | as-written member | corrected member |
|---|---|---|---|---|---|---|
| src/lib/logic/create.ts:285-287 | a NOR node evaluates to `true` whatever its children are | `N(a)` under `a = true` is true; so `¬a` restricted to the NOR basis, `N(a)`, turns false into true | NOR is true exactly when every child is false, which the rewriter's NOR rules rely on | not executed; high (the constant is visible in the source) | `Create.NorEvaluatesToTrue` | `Transform.RestrictKeepsEvaluation` |
| src/lib/logic/util.ts:6 | `new Set(n.name)` iterates the characters of the name, so an atom `ab` is collected as `a` and `b` | the formula `ab`: the table's interpretations set `a` and `b`, and evaluating `ab` fails | the whole name is one atom of the truth table | not executed; high | `TruthTable.MultiLetterAtomFails` | `TruthTable.NamedTableRows` |
