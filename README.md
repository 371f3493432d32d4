# Propositional-logic argument checker, modelled in Dafny

The system reads premises and a conclusion written with the connectives
`&` (and), `v` (or), `->` (implies) and `~` (not). It parses each line into
a binary term tree (`struct Expression`). In `completo.c` it then rewrites
each tree once at the root with four equivalences: commutativity,
associativity, transposition and double negation. Finally it decides
validity in one step. The argument is accepted when a premise equals the
conclusion, or when one inference rule yields it: modus ponens, modus
tollens, elimination of a conjunction, or disjunctive syllogism.
`validacao.c` is an earlier copy of the same logic. It has no rewriting
step, and its `checkValidity` uses one interleaved loop instead of two
passes.

The model has five modules:

- `Wrappers` holds `Option` and `Result`.
- `Expressions` holds the term tree as a value, `Expr`, field for field as
  the C struct; a null pointer is `None`. It also holds structural equality
  exactly as `areExpressionsEqual` computes it, and a truth-value
  semantics, `Eval`, used as the reference meaning.
- `Parser` holds `createExpression` as a pure function, `Parse`, with
  `strtok` as a pure index search. Malformed input becomes a `ParseError`.
- `Normalizer` holds `applyEquivalences` as a pure function, `Normalize`.
- `Nodes` holds the heap form, a `Node` class with a ghost footprint
  `Repr` and an abstraction function `Model`. `CreateExpression` allocates
  nodes and is proved to build exactly `Parse`'s tree.
  `Node.ApplyEquivalences` re-links nodes in place and is proved to leave
  exactly `Normalize` of the old tree.
- `Inference` holds the rule functions, an order-free specification
  `Entails`, and both versions of `checkValidity` over a premise array.
  Each version is proved to return `Entails`.

The model follows the code, not the intent its names and comments
suggest, where the two differ:

- **Letters never change the answer of equality.** Letters are compared
  (completo.c:235), but a match only ends the comparison early with true.
  Two childless symbols with different letters fall through to comparing
  their null children, so they are equal too (`SymbolLettersIgnored`). The premise `P` therefore yields the conclusion
  `Q` (`LetterBlindAcceptance`), and the verdict depends only on tags and
  shapes (`EntailsIgnoresLetters`).
- **A leaf is only a string of exactly two characters.** A leaf takes the
  first of the two characters. Operands are `strtok` tokens, so `"P & Q"`
  parses to `P & ' '` (`ParseConjunctionExample`). `"~P\n"` is rejected
  (`ParseNegationExample`). Parsed trees never nest connectives
  (`ParseShape`).
- **Transposition is unsound.** It rewrites `A -> ~B` into `B v ~A`, which
  is not equivalent (`TranspositionChangesMeaning`). On trees the parser
  builds, only commutativity can apply (`NormalizeParsedOnlyCommutes`).
- **Modus ponens and modus tollens check too little.** Modus ponens never
  checks that the antecedent is among the premises
  (`ModusPonensIgnoresAntecedent`). Modus tollens never checks the negated
  consequent (`ModusTollensIgnoresConsequent`).
- **Disjunctive syllogism can return the wrong disjunct.** The left case is
  tried first and letters are ignored, so it returns the right disjunct
  even when the right disjunct is the one negated
  (`DisjunctiveSyllogismWrongDisjunct`).
- **Conjunction elimination gives only the left conjunct**
  (`ConjunctionEliminationLeftOnly`).

## Model

| member | source | states |
|---|---|---|
| Expressions.AreExpressionsEqual | completo.c:225-239 | equal trees are both null or both present, with the same tag; `EqualityNullAndTagCases`, `SymbolLettersIgnored`, `EqualReflexive`, `EqualSymmetric`, `EqualTransitive` and `EqualIffSameErasure` state the rest |
| Expressions.EqualityNullAndTagCases | completo.c:225-234 | two null pointers are equal; a null and a non-null pointer are not; trees with different tags are not |
| Expressions.SymbolLettersIgnored | completo.c:235-238 | two childless symbols are equal whatever their letters |
| Expressions.EqualReflexive | completo.c:225-239 | every tree, and the null pointer, equals itself |
| Expressions.EqualSymmetric | validacao.c:197-211 | equality does not depend on the order of its arguments |
| Expressions.EqualIffSameErasure | completo.c:225-239 | on well-formed trees, equality holds exactly when the trees agree once every letter is erased |
| Expressions.EqualTransitive | validacao.c:197-211 | equality is transitive on well-formed trees |
| Expressions.EqualAfterErasure | completo.c:225-239 | erasing the letters of both well-formed arguments never changes the answer of equality |
| Parser.StripNewline | completo.c:107 | the result is the longest newline-free prefix of the input, ending just before the first newline if there is one |
| Parser.OperatorOf | completo.c:109-117 | a connective is found only if one of its delimiter characters occurs in the string, and it is never `Symbol` |
| Parser.StrTok | completo.c:122-127 | `strtok`: no token iff only delimiters remain; otherwise the token starts after the leading delimiters, holds no delimiter, and ends at a delimiter or at the end |
| Parser.Resume | completo.c:127 | the next search starts exactly one past the delimiter that ended the previous token, or at the end of the string when the token ended there |
| Parser.Operand | validacao.c:101-107 | with only delimiters left the result is a missing-operand error; otherwise it succeeds exactly when `Parse` of the token `strtok` finds succeeds, giving that tree and the token's end, and fails with the token's own error |
| Parser.ParseOperands | completo.c:120-130 | a successful parse is well formed and has the tag chosen from the operator; `ParseBinaryOperands` and `ParseNegationOperand` give its children |
| Parser.Parse | completo.c:96-132 | a successful parse is a well-formed tree; `ParseTwoCharacters`, `ParseConnective`, `ParseShape`, `ParseBinaryOperands` and `ParseNegationOperand` state which tree |
| Parser.ParseBinaryOperands | completo.c:124-129 | a binary connective parses iff both `strtok` tokens exist and each has two characters, and the tree is then the connective over the two leaves holding each token's first character |
| Parser.ParseNegationOperand | completo.c:121-123 | a negation parses iff its `strtok` token exists and has two characters, and the tree is then the negation of the leaf holding the token's first character |
| Parser.ParseTwoCharacters | completo.c:99-105 | a string of exactly two characters is a leaf holding its first character and no children |
| Parser.ParseSymbolIffTwoCharacters | validacao.c:75-111 | the parse is a symbol exactly when the input has two characters |
| Parser.ParseConnective | validacao.c:85-96 | after the newline is cut, the tag is the first of `&`, `v`, `->`, `~` present; a string with none of them is rejected |
| Parser.ParseOperatorFree | completo.c:99-117 | an operator-free fragment is a leaf if it has two characters and an error otherwise |
| Parser.TokenOperatorFree | completo.c:125-128 | every token cut from a string contains no operator character and no `->` |
| Parser.ParseShape | completo.c:120-130 | every successfully parsed tree is well formed and its children are symbol leaves |
| Parser.ParseConjunctionExample | completo.c:124-128 | `"P & Q"` parses to a conjunction of `P` and a blank leaf |
| Parser.ParseNegationExample | completo.c:121-123 | `"~P\n"` is rejected: its one token `"P"` is one character long and has no operator |
| Parser.ParseMissingOperandExample | validacao.c:104-107 | `"P &"` is rejected because the second token is missing |
| Normalizer.Normalize | completo.c:241-286 | rewriting a well-formed tree gives a well-formed tree |
| Normalizer.WellFormedIsNormalizeDefined | completo.c:241-286 | on a well-formed tree, every pointer the rewriter dereferences is present |
| Normalizer.NormalizeOrdersSymbols | completo.c:248-254 | a conjunction or disjunction of two symbols ends with its letters in order (signed `char`), holding the same two leaves under the same tag |
| Normalizer.NormalizeRotates | completo.c:256-260 | `(A op B) op C` becomes `(A op C) op B` when both connectives are the same `&` or `v` |
| Normalizer.NormalizeTransposes | completo.c:262-271 | `A -> ~B` becomes `B v ~A` |
| Normalizer.NormalizeCollapsesDoubleNegation | completo.c:272-281 | `~~X` becomes a symbol holding X's letter and no children |
| Normalizer.NormalizeUnchanged | completo.c:282-285 | symbols, implications without a negated consequent, single negations and conjunctions or disjunctions with no applicable rule are returned unchanged |
| Normalizer.NormalizePreservesMeaning | completo.c:245-281 | commutativity, associativity and the collapse of a doubly negated symbol keep the truth value under every assignment |
| Normalizer.TranspositionChangesMeaning | completo.c:262-271 | the transposition rewrite of `P -> ~Q` is true when the original is false |
| Normalizer.NormalizeParsedOnlyCommutes | completo.c:75-78 | on a parsed tree, rewriting is commutativity for a conjunction or disjunction and the identity otherwise |
| Normalizer.NormalizeParsedPreservesMeaning | completo.c:75-78 | rewriting a parsed tree keeps its truth value under every assignment |
| Nodes.Node.constructor | completo.c:97-104 | a fresh childless node with the given tag and letter |
| Nodes.Node.ApplyEquivalences | completo.c:241-286 | in place, the tree becomes `Normalize` of the old tree and stays a valid tree; no node is allocated, and nodes leave the footprint only when a double negation collapses |
| Nodes.Node.CommuteInPlace | completo.c:248-254 | in place, the same nodes now hold the commuted tree |
| Nodes.Node.RotateInPlace | completo.c:256-260 | in place, the same nodes now hold the rotated tree |
| Nodes.Node.TransposeInPlace | completo.c:262-271 | in place, the same nodes now hold the transposed tree |
| Nodes.Node.CollapseInPlace | completo.c:272-281 | in place, the node becomes the collapsed symbol and the inner negation leaves its footprint |
| Nodes.CreateExpression | completo.c:96-132 | on success, a fresh valid tree of nodes whose value is `Parse`'s tree; on failure, `Parse`'s error |
| Nodes.CreateOperands | validacao.c:99-109 | the operand nodes hang under a fresh node exactly as `ParseOperands` describes, with the same first error |
| Nodes.CreateBinary | completo.c:124-128 | the second operand, resuming after the first token, and the node over both, as `ParseOperands` describes |
| Nodes.CreateOperand | completo.c:125-126 | the next token's fresh tree and the token's end, as `Operand` describes, with the same error |
| Inference.ModusPonens | completo.c:179-185 | fires iff the premise is an implication with an antecedent, the conclusion is a symbol, and the consequent equals it; the result is the antecedent |
| Inference.ModusTollens | completo.c:187-193 | fires only for an implication and a negated conclusion whose antecedent and negated operand are both null or both present; `ModusTollensIffErasedMatch` and `ModusTollensIgnoresRight` state the rest |
| Inference.ModusTollensIffErasedMatch | completo.c:188-189 | on well-formed trees, fires exactly for an implication and a negation whose antecedent and negated operand agree once letters are erased |
| Inference.ModusTollensIgnoresRight | validacao.c:160-161 | replacing the implication's consequent never changes whether the rule fires |
| Inference.SilogismoDisjuntivo | validacao.c:175-184 | only an `Or` with a `Not` can yield; the right disjunct if the left equals the negated operand, else the left one if the right does, else nothing |
| Inference.EliminacaoDoAnd | validacao.c:190-195 | the left conjunct of a conjunction and nothing for any other tag |
| Inference.RuleFires | completo.c:149-172 | no rule fires for a symbol or negated premise, and disjunctive syllogism needs a second premise; `TryRules` is proved to compute it |
| Inference.Entails | completo.c:134-177 | no premises accept nothing; `CheckValidity` and `CheckValidityInterleaved` are proved to compute it, and `EntailsMonotone`, `EntailsIgnoresOrder` and `EntailsIgnoresLetters` state its properties |
| Inference.DisjunctiveSearch | completo.c:162-168 | true iff some premise at another index makes disjunctive syllogism yield the conclusion |
| Inference.TryRules | completo.c:149-172 | true iff a rule fires for the premise at that index, as `RuleFires` defines |
| Inference.CheckValidity | completo.c:134-177 | the two-pass check returns `Entails` of the premises it visits (none for a negative count) |
| Inference.CheckValidityInterleaved | validacao.c:113-149 | the one-loop check returns `Entails` of the premises it visits |
| Inference.BothVersions | validacao.c:113-149 | the two loop shapes give the same verdict for every premise array and conclusion |
| Inference.NoPremisesEntailNothing | validacao.c:113-149 | with no premises the verdict is false |
| Inference.SelfPairingNeverYields | validacao.c:136-142 | a premise paired with itself never yields, so the `otherPremise != premise` guard changes no verdict |
| Inference.EntailsFromPremisesContained | completo.c:134-177 | the verdict depends only on which trees occur among the premises |
| Inference.EntailsMonotone | completo.c:134-177 | adding premises never withdraws an accepted conclusion |
| Inference.EntailsIgnoresOrder | completo.c:134-177 | reordering the premises does not change the verdict |
| Inference.ModusPonensUnderErasure | validacao.c:151-157 | modus ponens fires on erased trees iff it fires on the originals |
| Inference.ModusTollensUnderErasure | validacao.c:159-165 | the modus tollens condition holds on erased trees iff it holds on the originals |
| Inference.ConjunctionUnderErasure | validacao.c:190-195 | conjunction elimination yields an erased conclusion iff it yields the original |
| Inference.DisjunctiveUnderErasure | validacao.c:175-184 | disjunctive syllogism yields on erased trees iff it yields on the originals |
| Inference.EntailsIgnoresLetters | completo.c:134-177 | erasing every letter of the premises and the conclusion leaves the verdict unchanged |
| Inference.ConjunctionEliminationSound | completo.c:218-223 | the left conjunct of a true conjunction is true |
| Inference.DisjunctiveSyllogismSoundOnExactMatch | completo.c:203-212 | when the matched disjunct is exactly the negated formula, the disjunct returned is true whenever both premises are |
| Inference.SymbolPremiseEntailsEverySymbol | completo.c:136-142 | any premise that is a symbol leaf yields every symbol conclusion |
| Inference.ModusPonensExample | completo.c:136-142 | `P -> Q, P` yields `Q`, and the first pass already accepts it because the symbol premise `P` equals `Q` letter-blind, before modus ponens (completo.c:179-185) is tried |
| Inference.ModusPonensIgnoresAntecedent | completo.c:179-185 | `P -> Q` alone yields `Q`, although `P` and `Q` false makes the premise true and the conclusion false |
| Inference.ModusTollensIgnoresConsequent | completo.c:187-193 | `P -> Q` alone yields `~P`, although `P` and `Q` true refutes it |
| Inference.LetterBlindAcceptance | completo.c:136-142 | the premise `P` yields the conclusion `Q` |
| Inference.DisjunctiveSyllogismExample | completo.c:203-212 | `P v Q, ~P` yields `Q` |
| Inference.DisjunctiveSyllogismWrongDisjunct | completo.c:203-212 | `P v Q, ~Q` yields `Q`, although `P` true and `Q` false satisfies both premises |
| Inference.ConjunctionEliminationLeftOnly | completo.c:218-223 | `P & ~Q` does not yield `~Q`, although `~Q` follows from it |

## Left out

- `main` in both files (completo.c:49-94, validacao.c:40-73) is left out. It does terminal I/O, uses a fixed 100-slot premise array without a bound check, and frees memory. Its flow is parse, rewrite, then check, and `NormalizeParsedOnlyCommutes` states what the rewrite step does to parsed trees.
- `translateToSymbolic` and `showTranslation` (completo.c:288-324) are natural-language preprocessing and printing, and are left out. The translation reads an unterminated buffer, so its output is not determined by its input.
- `silogismoHipotetico` and `introducaoDoAnd` (completo.c:195-216) are left out because `checkValidity` never calls them.
- Inference.ModusTollens: only the firing condition is modelled, as a boolean. The placeholder `createExpression("~")` that it returns is not modelled. When the rule fires, that call writes a NUL into a string literal and then `strtok` hands a null token to `strlen`, so `checkValidity` does not return normally. An accepting verdict that rests on modus tollens is the model's reading of what the code is meant to do, not what it does.
- Undefined behaviour in `createExpression` is modelled by explicit values:
  - an operator-free fragment of another length leaves the tag uninitialised, and is modelled as `NoOperator`;
  - a missing second token passes null on, and is modelled as `MissingOperand`;
  - the never-written `left` of a negation is modelled as absent;
  - the never-written letter of a connective is modelled as `'\0'` (`Unset`).
- Nodes.Node.CollapseInPlace: the freed nodes are dropped from the footprint. The source leaves a dangling `right` pointer, which the model sets to null.
- `strtok`'s hidden static state and the NUL bytes it and the newline cut write into the caller's buffer are not modelled. Fragments never contain operators, so the nested calls never reach `strtok`, and only token boundaries are observable.
- `malloc` and `free` are not modelled: allocation is `new`, and freeing is leaving the footprint.
- Nodes.CreateOperands allocates the connective node after its operands rather than before. Node identity is not observable in the result.
- The pointer comparison `otherPremise != premise` is modelled as index inequality. `main` allocates every premise separately, and `SelfPairingNeverYields` shows the guard changes no verdict anyway.
- `char` is taken to be signed, as on x86, for the letter comparison of commutativity; on an unsigned-`char` platform letters from byte 128 up sort the other way.
- Inference.ModusPonens: the returned antecedent is modelled as a value. The source returns a pointer into the premise, which only the null test reads.
