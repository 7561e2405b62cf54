# Yield Prolog engine core, modelled in Dafny

This project models the core of the TypeScript Yield Prolog engine and
proves properties of the model. It covers:

- the term model: interned atoms, variables with binding cells, `Functor1/2/3`;
- unification, copying through a `CopyStore`, `termEqual`, `ground` and
  `addUniqueVariables`;
- the standard order of terms, `compareTerms` and `sort/2`;
- the built-ins `functor/3`, `=../2`, `arg/3` and `copy_term/2`;
- the atom built-ins `atom_length/2`, `atom_concat/3`, `sub_atom/5`,
  `atom_chars/2`, `atom_codes/2` and `char_code/2`;
- the Prolog-flag table and the `unknown` policy;
- the fact and clause store: `IndexedAnswers`, the dynamic-predicate
  registry of `YP`, `FindallAnswers` and `ClauseHeadAndBody`;
- the error terms of `PrologException`, `ExistenceErrorInfo` and `Catch`;
- the compiler's front end: `CompilerState`, and the rules of `Compiler.ts`
  that lower a clause body to pseudo-code;
- the decoding helpers of the Prolog reader in `Parser.ts`;
- the buffer readers and the writer.

## How the system is modelled

**Terms and the heap.**
- A term is the datatype `Terms.Term`: a variable (`Var(id)`), an atom, an
  integer, a string, or a compound of a name and its arguments.
- `Functor1`, `Functor2`, `Functor3` and the general `Functor` are compounds
  of one, two, three and more arguments.
- The mutable `_isBound`/`_value` fields of `Variable` become a heap:
  `Terms.Heap` maps each bound variable to its value and counts the
  variables handed out so far.
- The heap also carries a rank per variable. The rank is a proof device that
  makes dereferencing terminate. It has no counterpart in the source.

**Generators and solutions.**
- A source generator that yields once per solution is modelled as the
  sequence of the heaps its solutions leave behind.
- Undoing the bindings on backtracking is then implicit. A later solution
  starts again from the heap the earlier one started from.
- `Cells.VariableStore` keeps the in-place form: one heap field that
  `Unify` updates.
- The finding below shows what goes wrong when the bindings stay in place,
  as the source has it.

**Built-ins and errors.**
- A built-in whose source may throw returns `Outcome`: either its solutions,
  or `Raised(e)` with the formal error term `e`.

**Global state as classes.**
- `Atoms.AtomTable` is the intern table `Atom._atomStore`.
- `Registry.PredicateStore` is the predicate table of `YP`.
- `Flags.FlagTable` is the flag object `YP._prologFlags`.
- `Indexing.IndexedAnswers`, `Findall.FindallAnswers`,
  `ClauseRules.ClauseHeadAndBody`, `Copying.CopyStore`,
  `CompilerStates.CompilerState` and the three stream classes keep their
  own fields.

**Methods and their specifications.**
- Methods with loops in them are proved against specification functions
  (`AtomText.AtomConcat` against `AtomConcatOutcome`,
  `Indexing.IndexedAnswers.Match` against `MatchSolutions`,
  `Sorting.ArraySort` against sortedness and a permutation).
- The lemmas beside each specification function state what the source
  promises about it: soundness, round trips, idempotence and the edge cases.

**The compiler.**
- The compiler's rules are functions on terms (`Compiler.Lower`).
- The gensym counter and the `codeUsesYield` flag of `CompilerState` are
  threaded through these functions.
- The determinism table is a parameter of the lowering.
- `ClauseCompiler.CompileRuleBody` runs the lowering on a `CompilerState`
  object.

**Where the model departs from a plain reading of the source.**
- Host strings are sequences of UTF-16 code units, and a model string
  (`seq<char>`) is a sequence of Unicode scalar values. The string order
  `Text.StrLess`, which `Atom.lessThan` and `termLessThan` use, compares
  the UTF-16 encodings, so it puts strings in the host's order.
- `termLessThan` gives numbers and strings type code -1 and atoms type
  code 0 (`YP.ts:543-558`), so numbers and strings sort before atoms; the
  model keeps that order.
- Every defect listed under "Findings" is modelled twice: once as written,
  and once as the source evidently intended.
- Many loops of the source walk a generator with `for...in`, which visits
  no element of a generator, and `YP.unify` hands back the first value of
  the inner generator rather than the generator. The doc-comments say
  these loops run once per solution, and the model follows them. Two places
  are an exception, because there the loop decides the whole result: the
  argument check of `retractall` runs over the array's indices, and the
  pragma search of `isDetNoneOut`/`isSemidetNoneOut` never runs. Both are
  findings.

## Model

Some definitions have no row of their own; the rows of the lemmas and
methods about them cover them:
- `Unification.Unify` and `Unification.UnifyArgs` (unify.dfy) are `YP.unify`
  and the argument loop of the `Functor` classes;
- `Ordering.TermLessThan` (order.dfy) is `termLessThan`;
- `Text.StrLess` (text.dfy) is the host's `<` on strings;
- `Indexing.IndexedAnswers.BuildKey`, `MatchCandidates` and `SolveAt`
  (indexed.dfy) are the key building and the candidate loop of `match`, and
  one `unifyArrays` of `retract`.

| member | source | states |
|---|---|---|
| Atoms.Equals | source/typescript/src/Atom.ts:122-131 | two atoms are `equals` exactly when their names agree; for two unqualified atoms, which the intern table makes unique per name, this is identity |
| Atoms.LessThanIsStrictOrder | source/typescript/src/Atom.ts:171-173 | `lessThan` on names, compared as the host compares strings (by UTF-16 code units), is irreflexive, asymmetric and transitive, and orders any two atoms that are not `equals` |
| Text.Utf16Injective | source/typescript/src/Atom.ts:171-173 | two strings with the same UTF-16 code units are the same string, so the code-unit order tells any two different names apart |
| Text.StrLessOfBmp | source/typescript/src/Atom.ts:171-173 | for two strings whose first differing characters lie in the Basic Multilingual Plane, `<` is decided by those characters' codes |
| Text.SurrogateSortsEarly | source/typescript/src/Atom.ts:171-173 | a string starting with a character outside the Basic Multilingual Plane (such as U+1F600) is below one starting with a character in U+E000-U+FFFF (such as U+FF21), although its scalar value is larger, because its first code unit is a surrogate |
| Atoms.QuotedForm | source/typescript/src/Atom.ts:137-168 | the printed form is the bare name exactly when the name is `[]` (for NIL) or starts with a lower-case letter and holds only letters, digits and `_`; otherwise it is quoted |
| Atoms.UndoubledDoubled | source/typescript/src/Atom.ts:143-167 | doubling every single quote can be undone: reading the doubled text back gives the name |
| Atoms.QuotedFormReadsBack | source/typescript/src/Atom.ts:137-168 | whatever form `toQuotedString` picks (bare, `''`, or quoted with doubled quotes), unquoting it gives the atom's name back |
| Atoms.ToQuotedString | source/typescript/src/Atom.ts:137-168 | the character loop builds exactly the quoted form |
| Atoms.InternAsWritten | source/typescript/src/Atom.ts:49-60 | the table lookup as written returns an inherited object member exactly when the name is not stored but is a member every plain object inherits |
| Atoms.InternAsWrittenAgrees | source/typescript/src/Atom.ts:49-60 | for a name no plain object inherits, the lookup as written returns the interned atom and stores it, as intended |
| Atoms.ConstructorIsNoAtom | source/typescript/src/Atom.ts:49-60 | `Atom.a("constructor")` as written returns the inherited constructor function and leaves the table unchanged |
| Atoms.AtomTable.constructor | source/typescript/src/Atom.ts:70-76 | the table starts holding the seven predefined atoms (`[]`, `.`, `f`, `/`, `^`, `:-`, `true`) |
| Atoms.AtomTable.A | source/typescript/src/Atom.ts:49-60 | without a module, or with `[]`, the same unqualified atom is returned for the same name, and it is inserted on the first call only; with any other module a freshly constructed qualified atom is returned and the table is unchanged |
| Terms.Deref | source/typescript/src/Variable.ts:47-61 | `getValue` ends at an unbound variable or a non-variable, is the term itself when that is not bound, and follows the binding chain strictly downwards in rank |
| Terms.DerefExtends | source/typescript/src/YP.ts:60-65 | dereferencing in a heap with more bindings continues from where the smaller heap stopped |
| Terms.NewVariable | source/typescript/src/Variable.ts:35-39 | `new Variable()` is unbound, different from every variable handed out before, and changes no binding |
| Terms.NewVariables | source/typescript/src/YP.ts:389-441 | n fresh variables in a row get consecutive identifiers and change no binding |
| Binding.Bind | source/typescript/src/Variable.ts:70-77 | binding an unbound variable to a term that does not contain it sets exactly that cell and keeps the heap well formed |
| Binding.NotOccursAbove | source/typescript/src/Variable.ts:70-77 | a variable handed out after all those a term can reach cannot occur in it, so binding a fresh variable never makes a cycle |
| Equality.TermEqualIsCanonEquality | source/typescript/src/YP.ts:471-476 | `termEqual` holds exactly when the two terms denote the same value (module qualifiers ignored) |
| Equality.TermEqualOfCompounds | source/typescript/src/Functor2.ts:79-85 | two compounds of the same arity are `termEqual` exactly when their names are `equals` and every pair of arguments is `termEqual` |
| Equality.TermEqualReflexive | source/typescript/src/YP.ts:471-476 | every term is `termEqual` to itself |
| Equality.TermEqualSymmetric | source/typescript/src/YP.ts:471-476 | `termEqual` is symmetric |
| Equality.TermEqualTransitive | source/typescript/src/YP.ts:471-476 | `termEqual` is transitive |
| Equality.TermEqualMonotone | source/typescript/src/Variable.ts:121-126 | terms that are `termEqual` stay so when more variables are bound |
| Equality.GroundIsVariableFree | source/typescript/src/YP.ts:585-590 | `ground` holds exactly when the value the term denotes holds no variable |
| Unification.UnifyVariable | source/typescript/src/Variable.ts:69-91 | an unbound variable unified with itself succeeds and binds nothing; with any other value it binds exactly its own cell to that value |
| Unification.UnifySolutions | source/typescript/src/YP.ts:73-87 | `YP.unify` has at most one solution, and in it the two terms are `termEqual`; terms that are already `termEqual` have exactly one solution, which binds nothing |
| Unification.UnifyOfEqual | source/typescript/src/YP.ts:73-87 | terms that are already `termEqual` unify, and the unification binds nothing |
| Unification.UnifyArgsOfEqual | source/typescript/src/Functor3.ts:55-72 | argument lists that are pairwise `termEqual` unify, binding nothing |
| Unification.UnifyMostGeneral | source/typescript/src/YP.ts:73-87 | whenever a heap that keeps the meaning of every binding of the current one makes the two terms `termEqual`, unification succeeds, and that heap also satisfies every binding the unification made: the solution is a most general unifier |
| Unification.UnifyArgsMostGeneral | source/typescript/src/Functor3.ts:55-72 | the same for argument lists unified pair by pair |
| Unification.UnifyComplete | source/typescript/src/YP.ts:73-87 | unification fails only when no heap that keeps the current bindings and binds further variables (without making a cycle) makes the two terms `termEqual` |
| Unification.UnifySound | source/typescript/src/YP.ts:73-87 | after a successful unification the two terms are `termEqual` |
| Unification.UnifyArgsSound | source/typescript/src/Functor3.ts:55-72 | after unifying the argument lists pair by pair, each pair is `termEqual` |
| Unification.UnifyPairs | source/typescript/src/Functor2.ts:55-70 | nested unifications give at most one solution, which extends the heap, hands out no variable, and equates every pair |
| Unification.UnifyPairsFirst | source/typescript/src/Functor2.ts:55-70 | the first pair is unified first, and the rest in its solution |
| Unification.UnifyAtoms | source/typescript/src/Atom.ts:90-99 | two atoms unify, binding nothing, exactly when they are `equals` |
| Unification.UnifyBindsUnboundVariable | source/typescript/src/YP.ts:73-87 | an unbound variable unified with a different term that does not contain it is bound to that term's value, and no other cell changes |
| Unification.UnifyCompoundsOfDifferentShape | source/typescript/src/Functor1.ts:53-66 | compounds whose names are not `equals` or whose arities differ never unify |
| Unification.UnifyArrays | source/typescript/src/YP.ts:301-332 | arrays of different lengths give no solution; otherwise the one solution, if any, is that of unifying the pairs left to right, and it equates every pair |
| Variables.Extend | source/typescript/src/Variable.ts:103-110 | appending a term's variables keeps the list free of repeats, keeps what it held as a prefix, and holds exactly the old members and the new variables |
| Variables.AddUniqueVariablesIsExtend | source/typescript/src/YP.ts:269-273 | `addUniqueVariables` appends the variables of the value the term denotes, in order of first occurrence, skipping those already listed |
| Variables.AddUniqueVariablesFacts | source/typescript/src/Functor3.ts:106-110 | the list never gets a repeat, keeps its old contents as a prefix, and gains exactly the term's unbound variables |
| Variables.GroundAddsNothing | source/typescript/src/Atom.ts:101-120 | a ground term, such as an atom, adds no variable |
| Cells.Attempt | source/typescript/src/Variable.ts:78-84 | unification with bindings never undone: success exactly when `Unify` succeeds, leaving the same heap; on failure the bindings made so far stay |
| Cells.VariableStore.NewVariable | source/typescript/src/Variable.ts:35-39 | the store hands out the next identifier, unbound |
| Cells.VariableStore.GetValue | source/typescript/src/Variable.ts:47-61 | the chain loop returns the dereferenced value, which is unbound or no variable |
| Cells.VariableStore.UnifyVariable | source/typescript/src/Variable.ts:69-91 | the in-place binding of an unbound variable, with the result and the new cells of `AttemptVariable` |
| Cells.VariableStore.Unify | source/typescript/src/YP.ts:73-87 | the in-place unification leaves the result and the cells of `Attempt` |
| Cells.VariableStore.UnifyArgs | source/typescript/src/Functor3.ts:55-72 | the argument loop of the Functor `unify` methods, stopping at the first failure |
| Cells.VariableStore.UnifyScoped | source/typescript/src/Variable.ts:62-91 | unification as the doc-comment describes it: the solutions are those of `UnifySolutions`, and the heap is back as it was afterwards |
| Cells.PersistentBindingBreaksBacktracking | source/typescript/src/Variable.ts:78-84 | with the unbind commented out, `X = a` followed by the alternative `X = b` fails |
| Cells.ScopedBindingBacktracks | source/typescript/src/Variable.ts:62-91 | with the binding undone after the solution, the alternative `X = b` succeeds and binds X to b |
| Copying.CopyStore.GetCopy | source/typescript/src/CopyStore.ts:11-21 | a variable already seen gets the copy issued before; a new one gets a fresh variable, recorded as its copy |
| Copying.CopyStore.IndexOf | source/typescript/src/CopyStore.ts:11-21 | the index search finds the position of the variable, or the length when it is absent |
| Copying.CopyStore.GetNUniqueVariables | source/typescript/src/CopyStore.ts:24-26 | the count is the number of distinct variables copied so far |
| Copying.MakeCopy | source/typescript/src/YP.ts:275-282 | with a store: the copy is the term's value with each unbound variable replaced by its copy from the store, the same copy for every occurrence, and the copies are fresh; without a store: the term's value |
| Copying.CopyUnbound | source/typescript/src/Variable.ts:114-119 | an unbound variable is copied to the store's copy of it |
| Copying.CopyArgs | source/typescript/src/Functor2.ts:107-110 | the arguments are copied left to right with one store, each as `MakeCopy` copies it |
| Copying.CopiedCompound | source/typescript/src/Functor1.ts:95-97 | a compound is copied to the compound of the same name over its arguments' copies |
| Copying.CopyTerm | source/typescript/src/YP.ts:265-267 | a copy with a new store renames the unbound variables one to one to variables fresh in the new heap, and binds nothing |
| Ordering.TypeCode | source/typescript/src/YP.ts:543-558 | -2 exactly for a variable, 0 exactly for an atom, -1 exactly for a number or string, and 1, 2, 3 or 4 for compounds by arity |
| Ordering.AssignId | source/typescript/src/YP.ts:483-535 | a variable without an identifier gets the next one; one that has one keeps it |
| Ordering.TermLessThanIsBefore | source/typescript/src/YP.ts:483-535 | `termLessThan` is the standard order on the values the terms denote, under the identifiers it hands out, and hands out none when both are numbered |
| Ordering.LeafLessThanIsBefore | source/typescript/src/Functor2.ts:87-96 | the same for terms that are not compounds of one name and arity: type code first, then name or value |
| Ordering.ArgsLessThanIsArgsBefore | source/typescript/src/Functor3.ts:87-100 | the argument comparison of `lessThan` is the lexicographic order of the argument values, the first pair that is not `termEqual` deciding |
| Ordering.TermLessThanIrreflexive | source/typescript/src/YP.ts:483-535 | no term is `termLessThan` a term it is `termEqual` to |
| Ordering.BeforeTotal | source/typescript/src/YP.ts:483-535 | two different values whose variables are numbered apart are ordered one way or the other |
| Ordering.BeforeTransitive | source/typescript/src/YP.ts:483-535 | the standard order is transitive |
| Ordering.CompareTerms | source/typescript/src/YP.ts:576-583 | the result is -1, 0 or 1, and 0 exactly when the terms are `termEqual` |
| Ordering.CompareTermsIsTotalOrder | source/typescript/src/YP.ts:576-583 | on numbered terms `compareTerms` hands out no identifier, is antisymmetric and transitive, and is negative exactly when the first value is before the second |
| Sorting.CompareByValue | source/typescript/src/YP.ts:576-583 | on numbered terms `compareTerms` is decided by the values alone |
| Sorting.ArraySort | source/typescript/src/YP.ts:285-287 | the in-place sort leaves the array sorted by the comparator and a permutation of what it held |
| Sorting.Insert | source/typescript/src/YP.ts:285-287 | one insertion step extends the sorted prefix by one item and keeps the multiset of items |
| Sorting.ComparatorOrders | source/typescript/src/YP.ts:576-583 | once the items are numbered, `compareTerms` is a total preorder on them, as the sort needs |
| Sorting.SortArray | source/typescript/src/YP.ts:285-287 | `sortArray` leaves the items in standard order, and a permutation of what they were |
| Sorting.WithoutRepeats | source/typescript/src/YP.ts:290-297 | dropping repeats gives no more items, all taken from the input |
| Sorting.WithoutRepeatsKeepsValues | source/typescript/src/YP.ts:290-297 | dropping the items `termEqual` to the next keeps the set of values |
| Sorting.WithoutRepeatsIncreasing | source/typescript/src/YP.ts:290-297 | on sorted items, dropping repeats leaves them strictly increasing |
| Sorting.MakeWithoutRepeatedTerms | source/typescript/src/YP.ts:296 | the loop from the back builds the list of the items without repeats |
| Sorting.SortedItemsFacts | source/typescript/src/YP.ts:290-297 | the sorted items stripped of repeats are strictly increasing and hold exactly the values of the input list |
| Sorting.Sort | source/typescript/src/YP.ts:290-297 | `sort/2`: no solution when the first argument is not a list, an instantiation error when it is unbound, and otherwise the unification of Sorted with the list of the sorted set of the items |
| Printing.ListPairToString | source/typescript/src/Functor2.ts:111-134 | the loop along the cells of a list prints the list as the printing function does |
| Printing.ListOfThreePrints | source/typescript/src/Functor2.ts:111-134 | the list of the strings c, b, a prints as `[c, b, a]` |
| Errors.ErrorTerm | source/typescript/src/PrologException.ts:47-59 | the term built is `error(E, Msg)` |
| Errors.NewError | source/typescript/src/PrologException.ts:47-59 | the two-argument constructor stores a copy of `error(E, Msg)` with fresh variables, and the text of Msg |
| Errors.NewException | source/typescript/src/PrologException.ts:47-59 | the one-argument constructor stores a copy of the term with fresh variables, and its text |
| Errors.InfoOfShaped | source/typescript/src/PrologException.ts:68-94 | a report is found for every term `error(F(T, C), M)` with T an atom, holding T, C and M |
| Errors.InfoOfOnlyShaped | source/typescript/src/PrologException.ts:68-94 | a report is found only for terms of that shape |
| Errors.GetProcedureName | source/typescript/src/ExistenceErrorInfo.ts:16-21 | there is a name exactly when the type is `procedure` and the culprit is a `Name/Arity` term |
| Errors.GetProcedureArity | source/typescript/src/ExistenceErrorInfo.ts:25-32 | the arity is -1 when there is no procedure name |
| Errors.ProcedureErrorReadsBack | source/typescript/src/ExistenceErrorInfo.ts:16-32 | an existence error raised for `Name/Arity` reads back as that name and arity |
| Errors.TypeErrorReadsBack | source/typescript/src/PrologException.ts:68-77 | a type error reads back as its type and the copy of its culprit, and is no existence error |
| Errors.Catch.constructor | source/typescript/src/Catch.ts:8-10 | stores the given exception, or none |
| Errors.Catch.Start | source/typescript/src/Catch.ts:9-22 | a `PrologException` raised while obtaining the goal is recorded in a new `Catch`; any other exception propagates and no `Catch` is made; a goal that starts normally gives a `Catch` with no exception |
| Errors.Catch.UnifyExceptionOrThrow | source/typescript/src/Catch.ts:52-62 | with no exception recorded, no solution; otherwise the solution of unifying the exception term with the catcher, and the exception raised again when they do not unify |
| Findall.FindallAnswers.constructor | source/typescript/src/FindallAnswers.ts:40-43 | the accumulator starts with the template and no answers |
| Findall.FindallAnswers.Add | source/typescript/src/FindallAnswers.ts:45-47 | one copy of the template is appended, with its unbound variables renamed one to one to fresh ones |
| Findall.FindallAnswers.ResultArray | source/typescript/src/FindallAnswers.ts:49-51 | the copies are returned in `add` order |
| Findall.FindallAnswers.Result | source/typescript/src/FindallAnswers.ts:54-59 | Bag is unified with the list of the copies in `add` order, and the answers are released |
| Findall.ResultOfUnboundBag | source/typescript/src/FindallAnswers.ts:54-59 | an unbound bag gets exactly one solution, in which it reads back as the copies |
| ClauseRules.ClauseHeadAndBody.constructor | source/typescript/src/ClauseHeadAndBody.ts:13-16 | head and body start unset |
| ClauseRules.ClauseHeadAndBody.SetHeadAndBody | source/typescript/src/ClauseHeadAndBody.ts:18-21 | both are stored |
| ClauseRules.ClauseHeadAndBody.Clause | source/typescript/src/ClauseHeadAndBody.ts:23-43 | a copy is made exactly when both are set and the query head unifies with the stored head; each solution equates `Head :- Body` with that fresh copy |
| ClauseRules.ClauseHeadAndBody.Match | source/typescript/src/ClauseHeadAndBody.ts:45-46 | the base `match` has no solution |
| Streams.StringReader.constructor | source/typescript/src/StringReader.ts:5-8 | the reader starts at the first character of the string |
| Streams.StringReader.Read | source/typescript/src/StringReader.ts:11-15 | the code of the next character, moving past it; -1 without moving at the end |
| Streams.CodeListReader.constructor | source/typescript/src/CodeListReader.ts:10-12 | the reader starts at the value of the code list |
| Streams.CodeListReader.Read | source/typescript/src/CodeListReader.ts:16-27 | the next code of the list, moving to the next cell; -1 when no number is left, and the list is then `[]` |
| Streams.PendingCodesOfCodeList | source/typescript/src/CodeListReader.ts:16-27 | a reader of the list `atom_codes` makes of a name hands out the codes of its characters |
| Streams.StringWriter.constructor | source/typescript/src/StringWriter.ts:7-9 | the writer starts empty |
| Streams.StringWriter.Write | source/typescript/src/StringWriter.ts:11-13 | the text written so far grows by exactly the text |
| Streams.StringWriter.WriteLine | source/typescript/src/StringWriter.ts:15-19 | the text, when given, then a newline |
| Streams.HelloWorld | source/typescript/test/YP.spec.ts:51-58 | a fresh writer, after `Hello World!` and a newline are written to it, holds exactly `Hello World!` followed by a newline |
| Lists.ToArray | source/typescript/test/ListPair.spec.ts:39-54 | the list view of a term is "unbound" exactly when the term is an unbound variable, which `ListPair.toArray` reports with an exception |
| Lists.ToArrayMakeList | source/typescript/test/ListPair.spec.ts:39-50 | reading back a list built from items gives the items |
| Lists.ToArrayOfAtomic | source/typescript/test/ListPair.spec.ts:47-49 | `[]` reads as the empty list, and any other atom or a number is no list |
| Builtins.FreshVariables | source/typescript/src/YP.ts:428-432 | the loop that fills the argument array hands out exactly n fresh variables in a row |
| Builtins.Functor | source/typescript/src/YP.ts:389-441 | a bound Term unifies FunctorName with its name and Arity with its argument count; an unbound Term with FunctorName or Arity unbound raises `instantiation_error`; then, in order, `type_error(integer)`, `type_error(atomic)`, `domain_error(not_less_than_zero)`, Arity 0 unifying Term with the name, `representation_error(max_arity)` above 255, `type_error(atom)`, and otherwise Term unified with a compound of Arity fresh variables |
| Builtins.FunctorBuildReadsBack | source/typescript/src/YP.ts:412-432 | a term that `functor/3` builds is a compound of the given name and arity, and `functor/3` reads that name and arity back from it |
| Builtins.FunctorDecomposeGivesBuildArguments | source/typescript/src/YP.ts:434-440 | taking a compound apart gives its name as an atom and its arity, the arguments that build a term of the same shape |
| Builtins.Univ | source/typescript/src/YP.ts:354-387 | for a bound Term, `=..` has at most one solution, in which List equals the name followed by the arguments |
| Builtins.UnivListReadsBack | source/typescript/src/YP.ts:358-360 | the decomposition reads back as a proper list of the name and the arguments, and those items rebuild the term |
| Builtins.UnivComposes | source/typescript/src/YP.ts:362-384 | for an unbound Term and the list `[a\|Args]` of 1 to 255 arguments, the two helper variables are bound to `a` and the argument list, and Term is then unified with `a(Args...)` |
| Builtins.UnivOfVariable | source/typescript/src/YP.ts:362-384 | for an unbound Term, once `[Name\|ArgList]` unifies with List and gives an atom and 1 to 255 arguments, the solutions are those of unifying Term with the compound |
| Builtins.Arg | source/typescript/src/YP.ts:443-469 | an error exactly when N is no integer (or unbound), is negative, or Term is no compound; otherwise at most one solution, which equates Value with argument N, and none when N is outside 1..arity |
| Builtins.ArgIsUnivItem | source/typescript/src/YP.ts:443-469 | `arg(K, T, V)` has the solutions of unifying V with item K of the list `T =..` gives |
| Builtins.CopyTermBuiltin | source/typescript/src/YP.ts:265-267 | OutTerm is unified with a copy of InTerm whose unbound variables are renamed one to one to fresh variables |
| AtomText.FromCode | source/typescript/src/YP.ts:1013-1049 | `String.fromCharCode` gives the character of a code below 2^16 outside the surrogate range, and always a code unit |
| AtomText.UnifyConstant | source/typescript/src/YP.ts:644-664 | unifying with an atom or number checks a bound value and binds an unbound variable to it, and nothing else |
| AtomText.AtomLength | source/typescript/src/YP.ts:644-664 | an error exactly when the atom is unbound or no atom, or Length is bound to no number or a negative one; otherwise Length ends up the name's length, with one solution for an unbound Length and one exactly when a bound Length is that length |
| AtomText.CharCode | source/typescript/src/YP.ts:1013-1049 | an error exactly when Code is bound to no number or a negative one, both are unbound, or Char is bound to something other than a one-character atom; otherwise at most one solution, which relates the character and its code |
| AtomText.CharCodeRoundTrip | source/typescript/src/YP.ts:1013-1049 | a character of the basic plane gives its code, and that code gives the character back |
| AtomText.AtomConcatOutcome | source/typescript/src/YP.ts:666-729 | an error exactly when Whole is unbound and Start or End is not an atom, or Whole is bound and it, or a bound Start or End, is not an atom |
| AtomText.AtomConcat | source/typescript/src/YP.ts:666-729 | the method with its search loop gives exactly the outcome `AtomConcatOutcome` describes |
| AtomText.SplitSearch | source/typescript/src/YP.ts:712-727 | the loop over the split points yields the solutions of the splits 0 to the name's length, in order |
| AtomText.SplitGuard | source/typescript/src/YP.ts:716-723 | a split is skipped exactly when a known Start or End length rules it out; otherwise Start and End are unified with the two parts |
| AtomText.AtomConcatSound | source/typescript/src/YP.ts:666-729 | every solution makes Whole the concatenation of Start and End |
| AtomText.AtomConcatEnumeratesSplits | source/typescript/src/YP.ts:712-727 | with Whole bound and Start and End two different unbound variables, there is one solution per split, shortest Start first |
| AtomText.SplitOfFreeVariables | source/typescript/src/YP.ts:724-726 | with two different unbound variables, the split after i characters binds Start to the first i characters and End to the rest |
| AtomText.AtomModule | source/typescript/src/Atom.ts:78-88 | an atom's Module is unified with its declaring module, or with `[]` when it has none; a non-atom has no solution; there is at most one solution |
| AtomText.AtomModuleOfAtom | source/typescript/src/Atom.ts:80-85 | for an atom, an unbound Module is bound to the atom's module, and a bound Module succeeds, leaving the heap as it was, exactly when it is that module |
| SubAtoms.SubAtomCheck | source/typescript/src/YP.ts:733-783 | the argument checks report an error exactly when Atom is no atom, Sub_atom is neither unbound nor an atom, or one of Before, Length and After is bound to no number or a negative one |
| SubAtoms.SubAtomOutcome | source/typescript/src/YP.ts:731-823 | `sub_atom/5` raises exactly in the cases `SubAtomCheck` names and otherwise yields solutions |
| SubAtoms.SubAtom | source/typescript/src/YP.ts:731-823 | the method with its nested loops gives exactly the outcome `SubAtomOutcome` describes |
| SubAtoms.SubAtomSolve | source/typescript/src/YP.ts:785-822 | once the checks pass, the three branches (Before and Length known, After and Length known, search) give exactly the solutions `SubAtomSolutions` describes |
| SubAtoms.BeforeSearch | source/typescript/src/YP.ts:809-821 | the outer loop over Before runs through 0 to the atom's length and collects the solutions of every start in order |
| SubAtoms.LengthSearch | source/typescript/src/YP.ts:811-819 | the inner loop over Length runs through 0 to what remains after Before and collects the solutions of every length in order |
| SubAtoms.SubAtomAtSound | source/typescript/src/YP.ts:812-816 | a candidate start and length gives at most one solution, in which Length, After and Sub_atom have the candidate's values |
| SubAtoms.SubAtomQuickSound | source/typescript/src/YP.ts:785-806 | the quick path unifies the missing count and Sub_atom with the computed count and substring |
| SubAtoms.QuickBinds | source/typescript/src/YP.ts:785-806 | with the missing count and Sub_atom two different unbound variables, the quick path has exactly one solution that binds them |
| SubAtoms.KnownBeforeExtracts | source/typescript/src/YP.ts:785-795 | with Before and Length known, there is no solution when they overrun the atom and otherwise one, with After the rest of the length and Sub_atom the substring |
| SubAtoms.KnownAfterExtracts | source/typescript/src/YP.ts:796-806 | with After and Length known, there is no solution when they overrun the atom and otherwise one, with Before the rest of the length and Sub_atom the substring that ends After characters before the end |
| SubAtoms.SubAtomSound | source/typescript/src/YP.ts:731-823 | every solution places Sub_atom in the atom: Before, Length and After are counts that add up to its length and Sub_atom is the characters between them |
| SubAtoms.SubAtomSearchSound | source/typescript/src/YP.ts:807-822 | every solution the search yields places Sub_atom in the atom |
| AtomLists.CharsOf | source/typescript/src/YP.ts:838-850 | the list elements decode to text exactly when every one is a one-character atom, and then the text is their characters in order |
| AtomLists.CodesOf | source/typescript/src/YP.ts:876-885 | the list elements decode to text exactly when every one is a nonnegative number, the failure is `representation_error(character_code)`, and the text is their characters in order |
| AtomLists.CharsOfFirstBad | source/typescript/src/YP.ts:838-850 | the error reported is the one of the first element that is no one-character atom |
| AtomLists.DecodeChars | source/typescript/src/YP.ts:838-850 | the method with its loop gives exactly the decoding `CharsOf` describes |
| AtomLists.DecodeCodes | source/typescript/src/YP.ts:876-885 | the method with its loop gives exactly the decoding `CodesOf` describes |
| AtomLists.CharList | source/typescript/src/YP.ts:856-862 | the loop from the back builds the list of the one-character atoms of the name |
| AtomLists.CodeList | source/typescript/src/YP.ts:893-899 | the loop from the back builds the list of the character codes of the name |
| AtomLists.AtomCharsOutcome | source/typescript/src/YP.ts:825-864 | an error exactly when Atom is unbound and List is no proper list of one-character atoms, or Atom is bound to no atom; otherwise at most one solution |
| AtomLists.AtomCodesOutcome | source/typescript/src/YP.ts:866-901 | an error exactly when Atom is unbound and List is no proper list of nonnegative numbers, or Atom is bound to no atom; otherwise at most one solution |
| AtomLists.AtomChars | source/typescript/src/YP.ts:825-864 | the method gives exactly the outcome `AtomCharsOutcome` describes |
| AtomLists.AtomCodes | source/typescript/src/YP.ts:866-901 | the method gives exactly the outcome `AtomCodesOutcome` describes |
| AtomLists.AtomCharsSound | source/typescript/src/YP.ts:825-864 | in either direction, every solution leaves Atom an atom and List the list of its characters |
| AtomLists.AtomCodesSound | source/typescript/src/YP.ts:866-901 | every solution leaves Atom an atom; when Atom is bound, or the list holds character codes, List is the list of its codes |
| AtomLists.AtomCharsRoundTrip | source/typescript/src/YP.ts:825-864 | splitting an atom into characters and joining them again gives the atom back |
| AtomLists.AtomCodesRoundTrip | source/typescript/src/YP.ts:866-901 | for a name of basic-plane characters, turning it into codes and back gives the atom back |
| AtomLists.CharsOfAtoms | source/typescript/src/YP.ts:838-862 | the character atoms of a name decode to that name |
| AtomLists.CodesOfCodes | source/typescript/src/YP.ts:876-899 | the codes of a name of basic-plane characters decode to that name |
| Flags.Defaults | source/typescript/src/YP.ts:1668-1683 | the established table holds exactly the nine ISO flags: `bounded`, `max_integer`, `min_integer`, `integer_rounding_function`, `char_conversion`, `debug`, `max_arity`, `unknown` and `double_quotes` |
| Flags.FlagTable.constructor | source/typescript/src/YP.ts:1664-1683 | the flag table starts with the defaults, all of them atomic |
| Flags.FlagTable.SettledIsAtomic | source/typescript/src/YP.ts:1668-1683 | every value the table holds is an atom or a number |
| Flags.SetFlagError | source/typescript/src/YP.ts:1715-1756 | a flag may be set only when Key is an atom naming a known flag, and only `unknown` (to `fail`, `warning` or `error`), `double_quotes` (to `codes`, `chars` or `atom`) and `char_conversion` and `debug` (to their current value) are accepted |
| Flags.FlagTable.SetPrologFlag | source/typescript/src/YP.ts:1715-1759 | an accepted setting replaces that flag's value and nothing else; a refused one leaves the table unchanged and reports the error `SetFlagError` names |
| Flags.SetUnknownAcceptsExactly | source/typescript/src/YP.ts:1742-1756 | `unknown` accepts exactly `fail`, `warning` and `error`, and any other value gives `domain_error(flag_value, unknown+Value)` |
| Flags.SetDoubleQuotesAcceptsExactly | source/typescript/src/YP.ts:1745-1747 | `double_quotes` accepts exactly `codes`, `chars` and `atom` |
| Flags.SetFixedFlagAcceptsOnlyCurrent | source/typescript/src/YP.ts:1738-1741 | `char_conversion` and `debug` accept only the value they already have |
| Flags.SetOtherFlagErrors | source/typescript/src/YP.ts:1731-1751 | any other known flag gives `permission_error(modify, flag, Key)` and an unknown one `domain_error(prolog_flag, Key)` |
| Flags.CurrentFlagOutcome | source/typescript/src/YP.ts:1685-1713 | `current_prolog_flag/2` raises exactly when Key is bound and is not an atom naming a known flag |
| Flags.FlagTable.CurrentPrologFlag | source/typescript/src/YP.ts:1685-1713 | the method gives exactly the outcome `CurrentFlagOutcome` describes |
| Flags.EnumerateFlags | source/typescript/src/YP.ts:1691-1699 | with Key unbound, the loop over the flag names yields, in order, one solution per flag whose value unifies with Value |
| Flags.SetThenCurrent | source/typescript/src/YP.ts:1685-1759 | after an accepted `set_prolog_flag(K, V)`, `current_prolog_flag(K, X)` has the solutions of unifying X with V |
| Flags.FlagTable.UnknownPredicate | source/typescript/src/YP.ts:1392-1407 | for an undefined predicate, `unknown = fail` fails silently, `warning` fails and writes a warning, and every other value raises `existence_error(procedure, Name/Arity)` |
| Flags.DefaultUnknownRaises | source/typescript/src/YP.ts:1392-1407 | with the default flags an undefined predicate raises the existence error |
| Flags.UnknownFailSilences | source/typescript/src/YP.ts:1395-1396 | after `unknown` is set to `fail`, an undefined predicate fails with no warning |
| Flags.ConstructorFlagAsWritten | source/typescript/src/YP.ts:1731-1751 | with the flags in a plain object, `set_prolog_flag(constructor, on)` finds the inherited `constructor` member and gives a permission error, where a table holding only the flags gives the intended `domain_error(prolog_flag, constructor)` |
| Indexing.IndexValue | source/typescript/src/IndexedAnswers.ts:313-318 | an argument is an index value exactly when it is an atom or a string, and then it is its own index value |
| Indexing.Pattern | source/typescript/src/IndexedAnswers.ts:176-192 | the signature of a key has a bit exactly at the positions that hold an index value |
| Indexing.AnswerKey | source/typescript/src/IndexedAnswers.ts:99-133 | an answer is filed under a signature exactly when every position the signature asks for lies below 32 and holds an index value, and then the key has that signature |
| Indexing.SelectsMeans | source/typescript/src/IndexedAnswers.ts:99-133 | an answer is selected by a key exactly when it holds that key's atom or string at every position the key fixes |
| Indexing.ArrayEquals | source/typescript/src/IndexedAnswers.ts:301-310 | two keys are `arrayEquals` exactly when they have the same length and the same elements |
| Indexing.FindEntry | source/typescript/src/IndexedAnswers.ts:145-151 | the search returns the position of the first entry with an equal key, or -1 |
| Indexing.EntryAnswers | source/typescript/src/IndexedAnswers.ts:137-154 | a list of entries gives answers exactly when an entry has the key, and then those of such an entry |
| Indexing.Lookup | source/typescript/src/IndexedAnswers.ts:137-154 | `get` finds answers only under the key's property name, and only in an entry with an equal key |
| Indexing.KeyTextCollides | source/typescript/src/IndexedAnswers.ts:137-170 | two different keys can share a property name, and adding under one leaves the lookup of the other unchanged |
| Indexing.LookupAfterAdd | source/typescript/src/IndexedAnswers.ts:157-170 | after `add`, looking up that key gives the answers it had plus the new one at the end, and every other key is unchanged |
| Indexing.LookupAfterIndexing | source/typescript/src/IndexedAnswers.ts:99-133 | filing an answer changes only keys of the same signature, and appends it exactly to the key that selects it |
| Indexing.IndexedAnswers.constructor | source/typescript/src/IndexedAnswers.ts:46-55 | a new table has the given arity, no answers and no index, and is consistent |
| Indexing.IndexedAnswers.AddOrPrependAnswer | source/typescript/src/IndexedAnswers.ts:73-97 | an answer of the wrong length or one that is not ground is refused and nothing changes; otherwise a copy of its values is appended (keeping the index up to date) or prepended (clearing the index) |
| Indexing.IndexedAnswers.AddAnswer | source/typescript/src/IndexedAnswers.ts:60-62 | appending keeps the table consistent and adds a copy of the answer at the end |
| Indexing.IndexedAnswers.PrependAnswer | source/typescript/src/IndexedAnswers.ts:68-70 | prepending keeps the table consistent, adds a copy at the front and clears the index |
| Indexing.IndexedAnswers.IndexAnswerForSignature | source/typescript/src/IndexedAnswers.ts:99-133 | the answer is filed under the key its signature gives it, and under no key when it lacks an index value the signature asks for |
| Indexing.IndexedAnswers.IndexSignature | source/typescript/src/IndexedAnswers.ts:199-205 | building the index for a new signature over all the answers keeps the table consistent and marks the signature as built |
| Indexing.IndexedAnswers.Get | source/typescript/src/IndexedAnswers.ts:137-154 | the method gives exactly the lookup `Lookup` describes |
| Indexing.IndexedAnswers.Add | source/typescript/src/IndexedAnswers.ts:157-170 | the method files the answer under the key as `AddToIndex` describes and changes nothing else |
| Indexing.IndexedAnswers.Match | source/typescript/src/IndexedAnswers.ts:172-251 | matching leaves the answers unchanged and the index consistent, and gives exactly the solutions `MatchSolutions` describes |
| Indexing.MatchSound | source/typescript/src/IndexedAnswers.ts:172-251 | every solution of `match` makes each argument equal to the same position of one stored answer |
| Indexing.MatchComplete | source/typescript/src/IndexedAnswers.ts:172-251 | every stored answer that unifies with the arguments gives a solution; when every argument is an index value there is exactly one solution, which binds nothing |
| Indexing.HappyTony | source/typescript/test/IndexedAnswers.spec.ts:15-23 | a table of arity 2 holding `happy, Tony` matches those two values exactly once |
| Indexing.SignatureWrapsAt32 | source/typescript/src/IndexedAnswers.ts:119-120 | as written, the shift `1 << i` wraps at 32 and an answer of 33 arguments is not filed under "first argument only"; filed as intended it is |
| Indexing.VacuousMatchAsWritten | source/typescript/src/IndexedAnswers.ts:172-215 | as written, a table of arity 0 succeeds once even when it holds no answer; the corrected match does not |
| Indexing.ClauseOutcome | source/typescript/src/IndexedAnswers.ts:253-268 | `clause` raises `instantiation_error` exactly when Head is unbound, and every solution makes Body `true` |
| Indexing.ClauseMatchesSound | source/typescript/src/IndexedAnswers.ts:263-266 | every solution makes each argument of Head equal to the same position of one stored answer |
| Indexing.IndexedAnswers.Clause | source/typescript/src/IndexedAnswers.ts:253-268 | the method gives exactly the outcome `ClauseOutcome` describes |
| Indexing.AnswersSolutions | source/typescript/src/IndexedAnswers.ts:282 | position j holds the solutions `unifyArrays` gives for answer j of the snapshot |
| Indexing.Hits | source/typescript/src/IndexedAnswers.ts:280-286 | each answer `retract` removes is a position of the snapshot whose answer has a solution, and the solution yielded there is that answer's |
| Indexing.HitsInOrder | source/typescript/src/IndexedAnswers.ts:280 | the removed answers come in the order of the snapshot |
| Indexing.HitsComplete | source/typescript/src/IndexedAnswers.ts:280-286 | every answer of the snapshot that has a solution is among them |
| Indexing.KeptExactly | source/typescript/src/IndexedAnswers.ts:280-286 | what remains is exactly the answers without a solution: each remaining answer is one, and each such answer remains |
| Indexing.RetractTablesInTurn | source/typescript/src/IndexedAnswers.ts:280-286 | the k-th solution removes the k-th answer that has a solution from the table before it (the snapshot for the first), at its live position index - k as `splice(indexOf(answer), 1)` does there; after the last solution the table is exactly the answers without a solution |
| Indexing.RetractOutcome | source/typescript/src/IndexedAnswers.ts:270-289 | `retract` raises `instantiation_error` exactly when Head is unbound and then changes nothing; otherwise there is one table per solution, and every solution makes Body equal to `true` |
| Indexing.RetractOutcomeIs | source/typescript/src/IndexedAnswers.ts:276-288 | once Head is bound and Body unifies with `true`, the solutions and tables are those of the answers of the snapshot that unify with the head's arguments |
| Indexing.RetractSolutionsAreHits | source/typescript/src/IndexedAnswers.ts:280-286 | `retract` gives one solution per answer of the snapshot that unifies with the head's arguments, in order and with equal answers counted apart, the k-th being the solution the k-th such answer gives |
| Indexing.IndexedAnswers.RemoveHits | source/typescript/src/IndexedAnswers.ts:280-286 | the loop over the snapshot yields the solutions `RetractHeaps` lists and the live tables `RetractTables` lists, leaves the table as at the last yield (unchanged when nothing unified), keeps it consistent, and clears the indexes exactly when it removed an answer |
| Indexing.IndexedAnswers.Visit | source/typescript/src/IndexedAnswers.ts:281-286 | one turn at answer n: without a solution nothing changes; with one, it is removed from the live table, the indexes are cleared and one solution and one table are added |
| Indexing.IndexedAnswers.RemoveAnswer | source/typescript/src/IndexedAnswers.ts:283-284 | the table loses exactly the answer at the given position, every remaining answer is still stored, and both indexes are empty |
| Indexing.IndexedAnswers.RemoveMatches | source/typescript/src/IndexedAnswers.ts:274-287 | past the head check and the body's unification, the loop over the head's arguments gives the outcome `RetractOutcome` describes |
| Indexing.RetractOutcomeStops | source/typescript/src/IndexedAnswers.ts:271-277 | an unbound head raises and a body that does not unify with `true` gives no solution, both with no table |
| Indexing.RetractTwinFacts | source/typescript/src/IndexedAnswers.ts:280-286 | with the facts `p(a), p(a)`, `retract(p(a), true)` gives two solutions; the table holds one fact at the first and none at the second |
| Indexing.IndexedAnswers.Retract | source/typescript/src/IndexedAnswers.ts:270-289 | the method gives the outcome and tables `RetractOutcome` describes, keeps the table consistent, leaves the table at the last solution's, and clears the indexes exactly when it removed an answer |
| Indexing.IndexedAnswers.ClearIndexes | source/typescript/src/IndexedAnswers.ts:291-295 | clearing empties the index and the record of built signatures and keeps the answers |
| Registry.PredicateKeyInjective | source/typescript/src/YP.ts:1311 | the `name/arity` key of the predicate table tells predicates apart: equal keys mean the same name and the same arity |
| Registry.SystemPredicateExamples | source/typescript/src/YP.ts:1295-1303 | `,/2` and the built-ins the compiler maps to runtime functions (`atom_length/2`) are system predicates, `assertz/1` is not, and a qualified comma is not |
| Registry.ItemsOf | source/typescript/src/YP.ts:1226-1228 | a fact table stands for its answers in order, and a compiled clause for its one rule |
| Registry.AppendAnswerItems | source/typescript/src/YP.ts:1320-1327 | appending to the last table adds the fact after everything the predicate held |
| Registry.PrependAnswerItems | source/typescript/src/YP.ts:1345-1352 | prepending to the first table adds the fact before everything the predicate held |
| Registry.WithLastTable | source/typescript/src/YP.ts:1314-1325 | `assertFact` makes the last clause a fact table, creating one when it is not, and changes nothing the predicate holds |
| Registry.WithFirstTable | source/typescript/src/YP.ts:1339-1350 | `prependFact` makes the first clause a fact table, creating one when it is not, and changes nothing the predicate holds |
| Registry.FactAppendedItems | source/typescript/src/YP.ts:1310-1328 | `assertFact` adds the answer last to its own predicate, creating the entry, and leaves a well-formed store |
| Registry.FactPrependedItems | source/typescript/src/YP.ts:1335-1353 | `prependFact` adds the answer first to its own predicate, creating the entry, and leaves a well-formed store |
| Registry.RuleAddedItems | source/typescript/src/YP.ts:1280-1292 | a compiled clause is added first (`asserta`) or last (`assertz`) to its predicate, creating the entry |
| Registry.PredicateStore.constructor | source/typescript/src/YP.ts:1228 | the store starts empty |
| Registry.PredicateStore.AssertFact | source/typescript/src/YP.ts:1310-1328 | a ground answer is added last to its predicate's facts; a non-ground one is refused, and the entry and the empty fact table that `assertFact` creates first are kept |
| Registry.PredicateStore.PrependFact | source/typescript/src/YP.ts:1335-1353 | a ground answer is added first to its predicate's facts; a non-ground one is refused, and the entry and the empty fact table that `prependFact` creates first are kept |
| Registry.PredicateStore.AddRule | source/typescript/src/YP.ts:1274-1292 | a rule is added first or last to its predicate's clauses |
| Registry.AssertError | source/typescript/src/YP.ts:1230-1261 | `assertDynamic` refuses an unbound term, a rule with an unbound head or body, a head that is a number or string (`type_error(callable)`), and a system predicate (`permission_error(modify, static_procedure, N/A)`), and accepts exactly the rest |
| Registry.PlacedItems | source/typescript/src/YP.ts:1263-1292 | an accepted assertion adds exactly one item to its predicate, first for `asserta` and last for `assertz`, as a fact when the copy has no variables and the body is `true` and as a rule otherwise, and leaves every other predicate unchanged |
| Registry.FactArgsGround | source/typescript/src/YP.ts:1263-1269 | a fact that goes to the fact tables has ground arguments of the right number |
| Registry.PredicateStore.AssertDynamic | source/typescript/src/YP.ts:1218-1293 | an unbound term raises `instantiation_error`; otherwise the term is copied with fresh variables, the copy is checked as `AssertError` says, and an accepted copy is filed as `Placed` says; a refused one changes nothing |
| Registry.MatchAllAppend | source/typescript/src/YP.ts:1378-1387 | the answers of two runs of clauses, the first without a cut, are those of the first followed by those of the second |
| Registry.CutStops | source/typescript/src/YP.ts:1380-1384 | a clause whose match ends with a cut ends the whole match there |
| Registry.UpToCut | source/typescript/src/YP.ts:1379-1386 | the answers taken from one clause stop after its cut and are all of them when there is none |
| Registry.FactFound | source/typescript/src/YP.ts:1361-1387 | a stored fact that matches the arguments is among the answers of the predicate, provided no earlier clause cut |
| Registry.PredicateStore.MatchDynamic | source/typescript/src/YP.ts:1361-1374 | an undefined predicate gives what `unknownPredicate` gives; a defined one gives the answers of its clauses in order, stopping at a cut, and none when it has no clause |
| Registry.UndefinedRaisesByDefault | source/typescript/src/YP.ts:1361-1368 | with the default flags, calling an undefined dynamic predicate raises `existence_error(procedure, N/A)` |
| Registry.PredicateStore.Retractall | source/typescript/src/YP.ts:1512-1530 | nothing changes when Head has no atom name or its predicate is not defined; otherwise a head with a bound argument is refused, and a head of unbound arguments leaves the predicate defined with one empty fact table and changes nothing else |
| Registry.PredicateStore.RetractFact | source/typescript/src/YP.ts:1506-1508 | `retractFact` is `retractall` on the head built from the name and the arguments |
| Registry.RetractedAnswersNothing | source/typescript/src/YP.ts:1510-1511 | after `retractall` emptied it, a predicate is still defined and calling it fails instead of raising |
| Registry.RetractallFinding | source/typescript/src/YP.ts:1523-1526 | as written, the check looks at the array indices instead of the arguments, so a head of one unbound argument is refused; the intended check accepts it |
| Registry.PredicateStore.IsDynamicCurrentPredicate | source/typescript/src/YP.ts:1576-1579 | true exactly when the store has an entry for the name and arity |
| Registry.AbolishError | source/typescript/src/YP.ts:1581-1616 | `abolish` raises for an unbound indicator, a non-`N/A` term, an unbound name or arity, a name that is no atom, an arity that is no integer, negative or above 255, and a system predicate, and accepts exactly the rest |
| Registry.AbolishArityExamples | source/typescript/src/YP.ts:1595-1610 | `foo/-1` gives a domain error, `foo/256` a representation error and `3/2` a type error |
| Registry.AbolishSystemExamples | source/typescript/src/YP.ts:1607-1616 | `atom_length/2` may not be abolished, and `foo/255` may |
| Registry.PredicateStore.Abolish | source/typescript/src/YP.ts:1581-1621 | an accepted indicator removes exactly its predicate's entry, a refused one changes nothing |
| CompilerStates.CompilerState.constructor | source/typescript/src/CompilerState.ts:20-23 | a new state has no pragmas, no module table, no variable names and no determinism, with the gensym counter at 0 |
| CompilerStates.CompilerState.AssertPred | source/typescript/src/CompilerState.ts:33-39 | a pragma `(name, arity, pred, det)` is added as a ground fact after the earlier ones, a non-ground one is refused, and no other field changes |
| CompilerStates.CompilerState.AssertModuleForNameArity | source/typescript/src/CompilerState.ts:41-50 | only an atom name, a numeric arity and an unqualified atom module are recorded, replacing an earlier entry for the same name and arity; no other field changes |
| CompilerStates.RecordThenFind | source/typescript/src/CompilerState.ts:41-195 | after recording a module, `nameArityHasModule` is true for that module, false for any other, and unchanged for every other name and arity |
| CompilerStates.CompilerState.NameArityHasModule | source/typescript/src/CompilerState.ts:183-195 | true exactly when the name is an atom, the arity a number, and the recorded module for them equals Module |
| CompilerStates.CompilerState.IsNoneOut | source/typescript/src/CompilerState.ts:175-181 | true exactly when no argument is `::(_, out)` |
| CompilerStates.CompilerState.NoneOutPragma | source/typescript/src/CompilerState.ts:143-171 | the loop over the pragmas finds one of the head's name and arity, with the given mode and no `out` argument, exactly when there is one |
| CompilerStates.CompilerState.IsDetNoneOut | source/typescript/src/CompilerState.ts:143-156 | true exactly when a `det` pragma for the head's name and arity has no `out` argument |
| CompilerStates.CompilerState.IsSemidetNoneOut | source/typescript/src/CompilerState.ts:158-171 | true exactly when a `semidet` pragma for the head's name and arity has no `out` argument |
| CompilerStates.NoneOutSearchFinding | source/typescript/src/CompilerState.ts:146-154 | as written, the loop over the matches of the pragma table never runs, so a `det` pragma with only input arguments is not found; the intended search finds it |
| CompilerStates.DeterminismFor | source/typescript/src/CompilerState.ts:52-64 | the determinism is `detNoneOut` exactly when a det none-out pragma applies, `semidetNoneOut` exactly when only a semidet one does, and `nondet` otherwise |
| CompilerStates.CompilerState.StartFunction | source/typescript/src/CompilerState.ts:52-64 | starting a function resets the gensym counter to 0 and clears `codeUsesYield` and `useFinalCutCode`, sets the determinism for the head, and keeps the pragmas, the module table and the names |
| CompilerStates.CompilerState.DeterminismEquals | source/typescript/src/CompilerState.ts:76-79 | true exactly when a determinism is set and it equals the term |
| CompilerStates.CompilerState.SetCodeUsesYield | source/typescript/src/CompilerState.ts:66-68 | the flag is set and nothing else changes |
| CompilerStates.CompilerState.Gensym | source/typescript/src/CompilerState.ts:138-141 | the counter goes up by one first, and the symbol is the base followed by the new count; nothing else changes |
| CompilerStates.NumberedNamesDiffer | source/typescript/src/CompilerState.ts:138-141 | names built from one base and two different counts differ, so the symbols of one function are all distinct |
| CompilerStates.Renamed | source/typescript/src/CompilerState.ts:105-112 | a suggested name `Atom`, `Variable` or `Functor` is renamed away and every other name is kept |
| CompilerStates.NamesFor | source/typescript/src/CompilerState.ts:83-94 | there is one `Name = Var` entry per variable, in order, the k-th named by its suggestion or by default `x<k>` |
| CompilerStates.CompilerState.NewVariableNames | source/typescript/src/CompilerState.ts:83-94 | the names are those `NamesFor` gives for the rule's distinct unbound variables in first-occurrence order, and no other field changes |
| CompilerStates.NamesCoverRule | source/typescript/src/CompilerState.ts:83-131 | every variable of the rule is found in the names, under the name chosen for its position |
| CompilerStates.CompilerState.GetVariableName | source/typescript/src/CompilerState.ts:120-131 | a variable with no entry raises, and otherwise VariableName is unified with its recorded name |
| CallTable.BinaryExpressionConditional | source/typescript/src/Compiler.ts:1996-2045 | exactly the six comparisons `=:=`, `=\=`, `>`, `<`, `>=` and `=<` have a runtime test function |
| CallTable.SpecialFormsAreNotRuntimeCalls | source/typescript/src/Compiler.ts:2163-2765 | no special form is also a predicate the compiler maps to a runtime function |
| Compiler.Gensym | source/typescript/src/CompilerState.ts:138-141 | the lowering's gensym increments the counter and names the symbol with the new count |
| Compiler.CompileTerms | source/typescript/src/Compiler.ts:3009-3038 | compiling a list of terms gives one code per term, in order, or the error of the first term that fails to compile |
| Compiler.FunctionNameFor | source/typescript/src/Compiler.ts:2080-2161 | a special form has no function name; a predicate with a runtime function gets it; and a name is refused only when the default module does not own it |
| Compiler.FunctorCall | source/typescript/src/Compiler.ts:2047-2078 | a goal is a plain call exactly when it is not a special form, and an unbound goal raises `instantiation_error` |
| Compiler.Lower | source/typescript/src/Compiler.ts:1341-1932 | lowering a body only advances the gensym counter, and in a det or semidet none-out function never sets `codeUsesYield` |
| Compiler.UnqualifiedGoal | source/typescript/src/Compiler.ts:1964-1994 | the result has no `V^` prefix left |
| Compiler.CompileBagof | source/typescript/src/Compiler.ts:1934-1962 | lowering `bagof`/`setof` only advances the gensym counter |
| CompilerRules.VariableGoalIsCalled | source/typescript/src/Compiler.ts:1342-1352 | an unbound goal lowers as `call(G), true` |
| CompilerRules.BareGoalIsFollowedByTrue | source/typescript/src/Compiler.ts:1923-1931 | a goal that is not a conjunction, disjunction, `!`, `true` or `$CUTIF` lowers as `(G, true)` |
| CompilerRules.CutAlone | source/typescript/src/Compiler.ts:1849-1880 | a lone `!` lowers to `return` (det), `returntrue` (semidet) or `yieldtrue, yieldbreak`, and only the last sets `codeUsesYield` |
| CompilerRules.TrueAlone | source/typescript/src/Compiler.ts:1891-1922 | a lone `true` lowers to `return`, `returntrue` or `yieldfalse`, and only the last sets `codeUsesYield` |
| CompilerRules.CutIfAlone | source/typescript/src/Compiler.ts:1881-1890 | a lone `$CUTIF(N)` lowers to `breakBlock(N)` |
| CompilerRules.PlainCallConjunction | source/typescript/src/Compiler.ts:1367-1400 | `(A, B)` with a plain call A lowers to A's call followed by B's code when A is det none-out, to `if(A, B)` when semidet none-out, and to `foreach(A, B)` otherwise |
| CompilerRules.SpecialFormsAreNotCalled | source/typescript/src/Compiler.ts:1367-1400 | a special form never takes the plain-call rule |
| CompilerRules.NegationRewrites | source/typescript/src/Compiler.ts:1447-1458 | `\+A, B` lowers as `(A -> fail ; true), B` when A is not a semidet none-out call |
| CompilerRules.SemidetNegation | source/typescript/src/Compiler.ts:1428-1446 | `\+A, B` with a semidet none-out call A lowers to `if(not(A), B)` |
| CompilerRules.OnceRewrites | source/typescript/src/Compiler.ts:1459-1470 | `once(A), B` lowers as `(A -> true ; fail), B` |
| CompilerRules.IfThenGetsElse | source/typescript/src/Compiler.ts:1471-1483 | `(A -> T), B` lowers as `(A -> T ; fail), B` |
| CompilerRules.NotUnifiableRewrites | source/typescript/src/Compiler.ts:1484-1496 | `X \= Y, B` lowers as `\+(X = Y), B` |
| CompilerRules.AssertIsAssertz | source/typescript/src/Compiler.ts:1735-1746 | `assert(X), B` lowers as `assertz(X), B` |
| CompilerRules.DisjunctionDistributesRule | source/typescript/src/Compiler.ts:1415-1427 | `(A ; B), C` lowers as `(A, C) ; (B, C)` |
| CompilerRules.IfThenElseDistributesRule | source/typescript/src/Compiler.ts:1401-1414 | `(A -> T ; B), C` lowers as `(A -> (T, C)) ; (B, C)` |
| CompilerRules.ConjunctionReassociatesRule | source/typescript/src/Compiler.ts:1775-1787 | `(A, B), C` lowers as `A, (B, C)` |
| CompilerRules.CutThenContinuation | source/typescript/src/Compiler.ts:1497-1510 | `!, A` lowers to A's code followed by `yieldbreak` |
| CompilerRules.CutIfThenContinuation | source/typescript/src/Compiler.ts:1511-1525 | `$CUTIF(N), A` lowers to A's code followed by `breakBlock(N)` |
| CompilerRules.FailDropsContinuation | source/typescript/src/Compiler.ts:1526-1535 | `fail, A` lowers to no code |
| CompilerRules.TrueIsSkipped | source/typescript/src/Compiler.ts:1536-1546 | `true, A` lowers as A |
| CompilerRules.DetNoneOutPrefix | source/typescript/src/Compiler.ts:1568-1581 | `$DET_NONE_OUT(Code), A` lowers to Code followed by A's code |
| CompilerRules.IsUnifiesValue | source/typescript/src/Compiler.ts:1547-1567 | `X is E, B` lowers to `foreach(YP.unify(X, E), B)` |
| CompilerRules.ComparisonIsTested | source/typescript/src/Compiler.ts:1582-1609 | an arithmetic comparison `X op Y, B` lowers to `if(test(X, Y), B)` with the comparison's test function |
| CompilerRules.CallIterates | source/typescript/src/Compiler.ts:1667-1683 | `call(A), B` lowers to `foreach(YP.getIterator(A, declaringClass), B)` |
| CompilerRules.FindallLowering | source/typescript/src/Compiler.ts:1610-1638 | `findall(T, G, Bag), B` declares a fresh `FindallAnswers(T)`, then lowers `G, $DET_NONE_OUT(add), fail`, then `foreach(result(Bag), B)` |
| CompilerRules.FindallRoute | source/typescript/src/Compiler.ts:1610-1638 | `findall/3` before a continuation always takes the findall lowering |
| CompilerRules.BagofAndSetof | source/typescript/src/Compiler.ts:1639-1666 | `bagof` and `setof` take the same lowering, with `result` and `resultSet` as the method that gives the bag |
| CompilerRules.CompileBagofLowering | source/typescript/src/Compiler.ts:1934-1962 | `bagof`/`setof` declare a fresh answer set for the template and the goal without its `V^` prefixes, collect the goal stripped of them in the same way, and unify the bag in a `foreach` |
| CompilerRules.CatchLowering | source/typescript/src/Compiler.ts:1747-1774 | `catch(G, C, H), B` declares a fresh `Catch`, then `foreach(goal, B)`, then `foreach(unifyExceptionOrThrow(C), (H, B))` |
| CompilerRules.CatchRoute | source/typescript/src/Compiler.ts:1747-1774 | `catch/3` before a continuation always takes the catch lowering |
| CompilerRules.IfThenElseIsABlock | source/typescript/src/Compiler.ts:1802-1819 | `(A -> T ; B)` lowers to one `breakableBlock(cutIfN, Code)` where Code lowers `(A, $CUTIF(cutIfN), T) ; B` with a fresh label |
| CompilerRules.DisjunctionAppends | source/typescript/src/Compiler.ts:1831-1848 | `A ; B` lowers to A's code followed by B's code |
| CompilerRules.CutOrIsCut | source/typescript/src/Compiler.ts:1820-1830 | `! ; B` lowers as a lone `!` |
| CompilerRules.VariableDisjunctIsCalled | source/typescript/src/Compiler.ts:1788-1801 | a variable left disjunct `V ; B` lowers as `call(V) ; B` |
| CompilerRules.UnqualifiedGoalIdempotent | source/typescript/src/Compiler.ts:1964-1994 | stripping `V^` prefixes twice gives what stripping once gives, and a prefix adds nothing |
| ClauseCompiler.NoOccurrences | source/typescript/src/Compiler.ts:1305-1339 | a variable has no direct occurrence among the head arguments exactly when no argument is that variable |
| ClauseCompiler.ArgIndexAsWritten | source/typescript/src/Compiler.ts:1305-1339 | as written, an argument index is found exactly when the variable occurs an odd number of times directly in the head, and then it is the first such position |
| ClauseCompiler.ThreeOccurrencesAsWritten | source/typescript/src/Compiler.ts:1305-1339 | as written, in `p(X, X, X)` the variable X gets index 1 although it occurs elsewhere in the head |
| ClauseCompiler.ArgIndex | source/typescript/src/Compiler.ts:1305-1339 | the index is found exactly when the variable is the i-th direct head argument and occurs directly nowhere else |
| ClauseCompiler.ArgIndexAgrees | source/typescript/src/Compiler.ts:1305-1339 | for up to two direct occurrences, the function as written and the corrected one agree |
| ClauseCompiler.ArgUnifications | source/typescript/src/Compiler.ts:1166-1237 | each head argument not taken by an argument index is unified with its `argi` in a nested `foreach(YP.unify)` around the body |
| ClauseCompiler.PendingExactly | source/typescript/src/Compiler.ts:1166-1237 | the unifications left to do are exactly the positions whose argument has no argument index, each with its own compiled term |
| ClauseCompiler.Declarations | source/typescript/src/Compiler.ts:1239-1303 | every `Name = Var` entry becomes an `f(Name, argi)` assignment when the variable has an argument index, and a `new Variable` declaration otherwise |
| ClauseCompiler.EveryNameBound | source/typescript/src/Compiler.ts:1239-1303 | every variable name ends up either assigned from its argument or declared, once |
| ClauseCompiler.SamePredicateRuleList | source/typescript/src/Compiler.ts:822-972 | the rules are split into a first run and the rest; the run is non-empty for a non-empty list, every later element's head is unbound or has the first head's name and arity, and the rest starts with an element of another predicate; `instantiation_error` is raised exactly when the first head is unbound |
| ClauseCompiler.RunOf | source/typescript/src/Compiler.ts:847-876 | the recursive calls compare every later head with the first head, an unbound one staying in the run, and never raise |
| ClauseCompiler.UnboundLaterHeadJoinsRun | source/typescript/src/Compiler.ts:847-876 | in `[f(p(a), _), f(V, _), f(q, _)]` the run is the first two elements |
| ClauseCompiler.CompileRuleBody | source/typescript/src/Compiler.ts:1341-1932 | the method on a `CompilerState` gives the lowering of the body for the state's determinism, and updates only the gensym counter and `codeUsesYield` as that lowering does |
| Parser.EscapeChar | source/typescript/src/Parser.ts:2717-2858 | a letter after `\` is an escape exactly when, in either case, it is one of `n t r v b f e d s z`, and its code is then one of 8 to 13, 27, 32, 127 or -1 |
| Parser.EscapeIgnoresCase | source/typescript/src/Parser.ts:2717-2858 | an upper-case escape letter means what its lower-case one means |
| Parser.LayoutEscapes | source/typescript/src/Parser.ts:2717-2858 | `\n` is 10, `\t` 9, `\r` 13, `\v` 11 and `\s` 32 |
| Parser.ControlLetterEscapes | source/typescript/src/Parser.ts:2717-2858 | `\b` is 8, `\f` 12, `\e` 27, `\d` 127 and `\z` -1 |
| Parser.SymbolCharsAre | source/typescript/src/Parser.ts:2527-2618 | `symbol_char` holds exactly for the codes 35, 36, 38, 42, 43, 45, 46, 47, 58, 60, 61, 62, 63, 64, 92, 94, 96 and 126, none of which is a letter, digit, `_` or a solo or bracket character |
| Parser.ReadNumber4 | source/typescript/src/Parser.ts:3382-3418 | reading decimal digits stops at a code that is neither a digit nor `_` |
| Parser.ReadNumber4Value | source/typescript/src/Parser.ts:3382-3418 | the number read is N₀·10^k plus the value of the k leading digits with `_` skipped, and the code returned is the first other one (or -1 at the end) |
| Parser.DigitValue | source/typescript/src/Parser.ts:3420-3560 | the digit value of a code is 0-9, 10-35 for A-Z and for a-z, and 99 for anything else |
| Parser.ReadBased | source/typescript/src/Parser.ts:3420-3560 | for a radix between 2 and 36, reading stops at a code whose digit value is not below the radix and that is not `_` |
| Parser.ReadBasedValue | source/typescript/src/Parser.ts:3420-3560 | for a radix between 2 and 36, the number read is N₀·base^k plus the value of the k leading digits in that base with `_` skipped, and the code returned is the first other one |
| Parser.ReadChar | source/typescript/src/Parser.ts:3562-3756 | reading a character consumes part of the input and never adds to it |
| Parser.OctalEscapes | source/typescript/src/Parser.ts:3606-3644 | `\` followed by one, two or three octal digits decodes to their octal value |
| Parser.ControlEscapes | source/typescript/src/Parser.ts:3648-3680 | `\^?` decodes to 127 and `\^c` to the low five bits of c |
| Parser.QuoteHandling | source/typescript/src/Parser.ts:3704-3726 | a doubled quote decodes to the quote character, and a lone quote ends the token with -1 |
| Parser.SpellRoundTrip | source/typescript/src/Parser.ts:3562-3756 | for every code, writing it out as it may appear in a quoted token (itself, a doubled quote or `\\`, or an octal escape for a control code) and reading it back gives the code |
| Parser.CurrentOp | source/typescript/src/YP.ts:593-642 | every operator of the built-in table has a priority between 1 and 1200 |
| Parser.PrefixOp | source/typescript/src/Parser.ts:1891-1910 | an `fx` operator of priority O takes an argument of priority O-1, an `fy` operator one of O, and any other name is no prefix operator |
| Parser.InfixOp | source/typescript/src/Parser.ts:1933-1973 | an `xfy` operator of priority O takes (O-1, O), `xfx` (O-1, O-1) and `yfx` (O, O-1), tried in that order, and any other name is no infix operator |
| Parser.PostfixOp | source/typescript/src/Parser.ts:1912-1931 | an `xf` operator of priority O takes an argument of priority O-1, a `yf` operator one of O, and any other name is no postfix operator |
| Parser.ArgumentsWithinOperator | source/typescript/src/Parser.ts:1891-1973 | no operator's argument binds more loosely than the operator, and an infix operator has a strictly tighter argument on at least one side |
| Parser.OperatorExamples | source/typescript/src/YP.ts:593-642 | with the built-in table, `,` is (999, 1000, 1000), `;` (1099, 1100, 1100), infix `-` (500, 500, 499), prefix `-` (200, 200), `:-` (1199, 1200, 1199) and prefix (1200, 1199), and `**` (199, 200, 199) |
| Parser.NoPostfixOperators | source/typescript/src/YP.ts:593-642 | the built-in table has no postfix operator |
| Parser.Exprtl7 | source/typescript/src/Parser.ts:1750-1866 | an infix or postfix operator token is applied exactly when its priority is at most the context's and the left term's priority is at most its left-argument priority; `,` is taken as 1000 and `\|` as 1100 only when the left priority is strictly below and the context allows it |
| Parser.LeftStaysWithinContext | source/typescript/src/Parser.ts:1750-1866 | the priority of the term built next never exceeds the context's, and `,` and `\|` raise it above the left term's |
| Parser.CommaGroupsRight | source/typescript/src/Parser.ts:1818-1834 | a comma applies after a left term of priority 999 and not after one of 1000, so `a, b, c` groups to the right |
| Parser.RemovePos | source/typescript/src/Parser.ts:271-362 | removing positions keeps a variable, and introduces no variable the term did not have |
| Parser.RemovePosUndoesWithPos | source/typescript/src/Parser.ts:271-362 | for a term that holds no compound the reader would read as a position record, removing the positions the reader adds gives the term back |

## Left out

- JavaScript loose equality (`5 == "5"`): numbers and strings are distinct values everywhere in the model.
- Indexing.ArrayEquals: elements are compared as values, so two qualified atoms of the same name and module are one index value, where the source's `!=` tells the two objects apart.
- The host iterator protocol: every generator is the sequence of its solutions, and every `for...in` over a generator (`YP.ts`, `Functor1.ts`, `Functor2.ts`, `Functor3.ts`, `FindallAnswers.ts:64-72`, `IndexedAnswers.ts:277`, `ClauseHeadAndBody.ts:29`, `Compiler.ts`) is read as `for...of`, except the two findings. `IndexedAnswers.match` (`IndexedAnswers.ts:230-238`) takes an exception from `iterator.next()` as a failed unification; a generator's `next()` does not throw there, and the model reads the spot as the failed unification the comment means.
- Errors.Catch: the goal's iterator is never stored by the source and `close` touches an undefined field, so the model keeps only the recorded exception and has no `close`.
- `YP.retract`, `YP.clause` and `YP.current_predicate` iterate the registry entry object, which is not iterable, and `current_predicate` depends on `Compiler.isCurrentPredicate`, which uses `eval`; they are not modelled.
- Registry.PredicateStore.AssertFact: a fact with unbound variables makes `IndexedAnswers` throw a host string; the model returns `NotGround` instead, and so does `PrependFact`.
- Registry.PredicateStore.MatchDynamic: running a compiled clause is not part of this model; a `RuleMatcher` parameter gives its solutions. `eval`, `YP.getIterator`, `compileAnonymousClause` and the other runtime compilation paths are left out.
- Registry.PredicateStore.MatchDynamic: `matchAllClauses` walks the live `_clauses` array, so a clause asserted while the caller consumes the solutions is visited too; the model reads the clauses as they were when the call started.
- Indexing.IndexedAnswers.Match: the source's loop walks the live `_allAnswers` array or the live index bucket, so an answer added while the caller consumes the solutions is visited too and `asserta` shifts the answers still to come; the model reads the answers as they were when `match` started.
- Indexing.IndexedAnswers.Retract: the generator is run to its end and `tables` gives the live table at each yield, so a caller that stops early sees that yield's table; an answer the caller adds while the generator is suspended is not modelled. `indexOf(answer)` finds the answer object itself, which tells equal answers apart; the model removes at the position that object has in the live table, the answers removed before it being the ones ahead of it.
- Registry: a fact table is held by value (a sequence of answers), so two entries never share one `IndexedAnswers` object.
- Flags.FlagTable: the table is built in full by its constructor; the source fills it lazily on first use (`establishPrologFlags`), which no caller can observe.
- The static `FindallAnswers.findall` and `findallArray` helpers need a goal iterator and are not modelled.
- AtomLists.AtomCodesRoundTrip: stated for names of characters of the Basic Multilingual Plane only; a code in the surrogate range is a half of a host character and becomes U+FFFD, because a Dafny `char` cannot hold a lone surrogate.
- AtomText.AtomLength: a character of the model is a Unicode scalar value (a Dafny `char`), where the source's `.length` counts UTF-16 code units, so a name outside the Basic Multilingual Plane such as `😀` has length 1 here and 2 in the source.
- AtomText.CharCode: a one-character atom outside the Basic Multilingual Plane gives its scalar value here, where the source's `name.length != 1` check raises `type_error(character)`.
- AtomText.AtomConcat: the split points are between scalar values, where the source splits between UTF-16 code units and so also inside a surrogate pair.
- SubAtoms.SubAtom: Before, Length and After count scalar values, where the source counts UTF-16 code units.
- AtomLists.CharsOf: a one-character atom outside the Basic Multilingual Plane is a character here and fails the source's `name.length == 1` check.
- AtomLists.CharList: a character outside the Basic Multilingual Plane is one character atom here, where the source's `substr(i, 1)` gives two surrogate atoms.
- AtomLists.CodeList: a character outside the Basic Multilingual Plane is one code here, where the source's `charCodeAt` gives its two UTF-16 code units.
- AtomLists.AtomChars: inherits the difference of `CharsOf` and `CharList` for characters outside the Basic Multilingual Plane.
- AtomLists.AtomCodes: inherits the difference of `CodeList` for characters outside the Basic Multilingual Plane.
- Streams.StringReader.Read: returns one scalar value per call, where the source's `charCodeAt` returns one UTF-16 code unit, so a character outside the Basic Multilingual Plane is read as one code here and as two in the source.
- Floating-point numbers and the arithmetic built-ins: only integers are modelled.
- CompilerStates.CompilerState: `_finalCutCode` is a fresh variable that nothing reads, so it is not modelled; `useFinalCutCode` is.
- `Functor.ts`, `ListPair.ts` and `Clause.ts` are not part of this model; N-ary compounds, list cells and compiled clauses are modelled from their uses in the other files.
- Functor1/2/3 built from a string name intern it through `Atom.a`; the model builds them from an atom value, and interning is `Atoms.AtomTable.A`.
- Unification: a binding that would make a cycle (the source has no occurs check) is modelled as a failed unification.
- Streams.StringWriter.Close: closing a stream changes nothing, so it carries no contract; the global `tell`/`told`/`write`/`nl` streams are left out, and `Streams.HelloWorld` writes to the writer directly.
- Compiler.Lower: `compileTerm` and `compileExpression` are a `Hooks` parameter; the error messages the compiler builds are not modelled; a compound with no arguments is taken as its atom; the weight measure that proves termination is a model device.
- The emitters `convertFunctionCSharp`, `convertFunctionJavascript` and `convertFunctionPython` print through the global output stream and are left out, with `putCStringCode`.
- ClauseCompiler: `compileBodyWithHeadBindings` is modelled through its parts (`ArgIndex`, `ArgUnifications`, `Declarations`, `CompileRuleBody`), and `compileSamePredicateFunction` is left out.
- ClauseCompiler.SamePredicateRuleList: `functor/3` binds an unbound later head to the first head's name and arity; the model keeps that element in the run, as the source does, but returns it with its head still unbound, and a string head is no element.
- Parser: `get_code` is an explicit code sequence; `formatError`, the tokenizer (`read_tokens`, `read_special`) and the `parse`/`exprtl` recursion are left out.
- Parser.ReadBased: requires a radix from 2 to 36, the guard the only caller applies.
- Parser.Exprtl7: an operator whose priority is not an integer falls to the final case; the operator table is the fixed table of `YP.current_op`, and `OperatorTable` is a model device that lets the lemmas name it.
- Parser.ReadChar: the bit operation `c & 31` is modelled for nonnegative codes only.
- Parser.EscapeChar: the enumeration of all letters when the letter is unbound is left out, and so is that of `symbol_char`.
- CompilerStates.CompilerState.constructor: the gensym counter starts at 0; in the source it is undefined until `startFunction` runs.
- The message strings that built-ins attach to their error terms are not modelled; the formal error term is.
- Sorting.Sort: the unbound variables get their identifiers, in order of first occurrence, before the sort; the source hands them out as the comparisons reach them, so two unbound variables the source has not numbered before may come out in the other order.

## Findings

| source | as written | input that shows it | evidently intended | confidence | as-written member | corrected member |
|---|---|---|---|---|---|---|
| source/typescript/src/Variable.ts:78-84 | the `finally` that unbinds the variable is commented out, so the binding stays after the solution is resumed | `X = a ; X = b` | the binding is undone when the solution is left, as the doc-comment says | high, not executed | Cells.PersistentBindingBreaksBacktracking | Cells.ScopedBindingBacktracks |
| source/typescript/src/Atom.ts:49-60 | the intern table is a plain object, so a name inherited from `Object.prototype` is found without being stored | `Atom.a("constructor")` | every name is interned as an atom | high, not executed | Atoms.ConstructorIsNoAtom | Atoms.AtomTable.A |
| source/typescript/src/YP.ts:1731-1751 | the flag table is a plain object, so an inherited member counts as a known flag | `set_prolog_flag(constructor, on)` | `domain_error(prolog_flag, constructor)` | high, not executed | Flags.ConstructorFlagAsWritten | Flags.FlagTable.SetPrologFlag |
| source/typescript/src/IndexedAnswers.ts:119-120 | `1 << i` is a 32-bit shift, so the bit for position 32 is the bit for position 0 | a fact of 33 arguments matched with only its first argument bound | positions from 31 on never take part in a signature | medium, not executed | Indexing.SignatureWrapsAt32 | Indexing.AnswerKey |
| source/typescript/src/IndexedAnswers.ts:195-215 | with no argument, every argument counts as indexed, so `match` succeeds once without looking at the answers | a predicate of arity 0 with no fact | no solution when no fact is stored | medium, not executed | Indexing.VacuousMatchAsWritten | Indexing.IndexedAnswers.Match |
| source/typescript/src/YP.ts:1523-1526 | `for...in` walks the array's indices, which are strings and never unbound variables | `retractall(p(_))` for a dynamic `p/1` | every argument unbound is accepted and the facts are removed | high, not executed | Registry.RetractallFinding | Registry.PredicateStore.Retractall |
| source/typescript/src/CompilerState.ts:143-171 | `for...in` over the generator of the pragma table never runs its body | a `det` pragma for `p/1` with an input argument | the pragma is found and `p/1` is det none-out | high, not executed | CompilerStates.NoneOutSearchFinding | CompilerStates.CompilerState.IsDetNoneOut |
| source/typescript/src/Compiler.ts:1305-1339 | to check that the variable occurs nowhere after its first position, the first clause runs the whole search on the remaining arguments, and that search itself fails when the variable occurs there twice; so a variable gets an index exactly when it occurs an odd number of times | the head `p(X, X, X)` | an index only for a variable that occurs once, as the only occurrence | high, not executed | ClauseCompiler.ThreeOccurrencesAsWritten | ClauseCompiler.ArgIndex |
