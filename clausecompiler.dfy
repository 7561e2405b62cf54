// The parts of the compiler around a clause body: which head arguments
// are plain variables (`getVariableArgIndex1`), the unifications and the
// declarations that bind the head (`compileArgUnifications`,
// `compileDeclarations`), the grouping of clauses by predicate
// (`samePredicateRuleList`), and `compileRuleBody` run against a
// `CompilerState`.
module ClauseCompiler {
  import opened Wrappers
  import opened Atoms
  import opened Terms
  import opened Equality
  import opened Lists
  import opened Errors
  import opened Builtins
  import opened CompilerStates
  import opened Compiler

  // ---------------------------------------------------------------------
  // Head arguments that are plain variables.

  /** How many of the arguments are the variable v itself. */
  function Occurrences(v: Term, args: seq<Term>): nat
    decreases |args|
  {
    if args == [] then 0
    else (if SameVariable(EmptyHeap, v, args[0]) then 1 else 0) + Occurrences(v, args[1..])
  }

  lemma {:induction false} NoOccurrences(v: Term, args: seq<Term>)
    ensures Occurrences(v, args) == 0 <==> forall j | 0 <= j < |args| :: !SameVariable(EmptyHeap, v, args[j])
    decreases |args|
  {
    if args != [] {
      NoOccurrences(v, args[1..]);
      assert forall j | 1 <= j < |args| :: args[j] == args[1..][j - 1];
    }
  }

  /** The variable v is the i-th argument (from 0) and no other. */
  predicate OnlyAt(v: Term, args: seq<Term>, i: int)
  {
    0 <= i < |args| && SameVariable(EmptyHeap, v, args[i]) &&
    forall j | 0 <= j < |args| && j != i :: !SameVariable(EmptyHeap, v, args[j])
  }

  /** `getVariableArgIndex1` as written: at the first argument that is v,
    * succeed with 1 unless the search in the remaining arguments
    * succeeds, so the answer depends on how often v occurs after it. */
  function ArgIndexAsWritten(v: Term, args: seq<Term>): (r: Option<nat>)
    ensures r.Some? <==> Occurrences(v, args) % 2 == 1
    ensures r.Some? ==> 1 <= r.value <= |args| && SameVariable(EmptyHeap, v, args[r.value - 1])
    ensures r.Some? ==> forall j | 0 <= j < r.value - 1 :: !SameVariable(EmptyHeap, v, args[j])
    decreases |args|
  {
    if args == [] then None
    else if SameVariable(EmptyHeap, v, args[0]) then
      if ArgIndexAsWritten(v, args[1..]).Some? then None else Some(1)
    else
      match ArgIndexAsWritten(v, args[1..])
      case None => None
      case Some(i) =>
        assert forall j | 1 <= j < |args| :: args[j] == args[1..][j - 1];
        Some(i + 1)
  }

  /** A head `p(X, X, X)`: the search as written says X is only the first
    * argument, so no unification ties the other two to it. */
  lemma ThreeOccurrencesAsWritten()
    ensures ArgIndexAsWritten(Var(0), [Var(0), Var(0), Var(0)]) == Some(1)
    ensures forall i :: !OnlyAt(Var(0), [Var(0), Var(0), Var(0)], i)
  {
    var args := [Var(0), Var(0), Var(0)];
    assert Occurrences(Var(0), args[2..]) == 1;
    assert Occurrences(Var(0), args[1..]) == 2;
    assert Occurrences(Var(0), args) == 3;
    forall i ensures !OnlyAt(Var(0), args, i) {
      if 0 <= i < 3 {
        var j := if i == 0 then 1 else 0;
        assert SameVariable(EmptyHeap, Var(0), args[j]);
      }
    }
  }

  /** `getVariableArgIndex1` as intended: the 1-based position of v when
    * v is exactly one argument and occurs as no other. */
  function ArgIndex(v: Term, args: seq<Term>): (r: Option<nat>)
    ensures r.Some? ==> r.value >= 1 && OnlyAt(v, args, r.value - 1)
    ensures r.None? ==> forall i :: !OnlyAt(v, args, i)
    decreases |args|
  {
    if args == [] then None
    else if SameVariable(EmptyHeap, v, args[0]) then
      NoOccurrences(v, args[1..]);
      assert forall j | 1 <= j < |args| :: args[j] == args[1..][j - 1];
      if Occurrences(v, args[1..]) > 0 then None else Some(1)
    else
      assert forall j | 1 <= j < |args| :: args[j] == args[1..][j - 1];
      match ArgIndex(v, args[1..])
      case None =>
        assert forall i | 1 <= i < |args| :: OnlyAt(v, args, i) ==> OnlyAt(v, args[1..], i - 1);
        None
      case Some(i) => Some(i + 1)
  }

  /** The two agree on every head in which no variable occurs more than
    * twice as an argument. */
  lemma {:induction false} ArgIndexAgrees(v: Term, args: seq<Term>)
    requires Occurrences(v, args) <= 2
    ensures ArgIndex(v, args) == ArgIndexAsWritten(v, args)
    decreases |args|
  {
    if args != [] {
      NoOccurrences(v, args[1..]);
      if !SameVariable(EmptyHeap, v, args[0]) {
        ArgIndexAgrees(v, args[1..]);
      }
    }
  }

  // ---------------------------------------------------------------------
  // Binding the head.

  /** `foreach(call(YP.unify, [var(arg<N>), Code]), Rest)`. */
  function Unification(index: nat, code: Term, rest: seq<Term>): Term
  {
    Foreach(CallFunction("YP.unify", [F1("var", ArgName(index)), code]), rest)
  }

  /** The argument positions (numbered from index) whose head argument is
    * not a plain variable, each with its compiled argument. */
  function Pending(headArgs: seq<Term>, compiled: seq<Term>, index: nat, all: seq<Term>): seq<(nat, Term)>
    requires |compiled| >= |headArgs|
    decreases |headArgs|
  {
    if headArgs == [] then []
    else (if ArgIndex(headArgs[0], all).Some? then [] else [(index, compiled[0])]) +
         Pending(headArgs[1..], compiled[1..], index + 1, all)
  }

  /** Each unification nested in the one before, the body innermost. */
  function Nest(pending: seq<(nat, Term)>, body: seq<Term>): seq<Term>
    decreases |pending|
  {
    if pending == [] then body else [Unification(pending[0].0, pending[0].1, Nest(pending[1..], body))]
  }

  /** `compileArgUnifications(HeadArgs, CompiledHeadArgs, Index, AllHeadArgs,
    * BodyCode, Code)`: the body inside one unification per argument that
    * is not a plain variable; no answer when an argument has no compiled
    * counterpart. */
  function ArgUnifications(headArgs: seq<Term>, compiled: seq<Term>, index: nat, all: seq<Term>, body: seq<Term>)
    : (r: Option<seq<Term>>)
    ensures r.None? <==> |compiled| < |headArgs|
    ensures r.Some? ==> r.value == Nest(Pending(headArgs, compiled, index, all), body)
    decreases |headArgs|
  {
    if headArgs == [] then Some(body)
    else if compiled == [] then None
    else if ArgIndex(headArgs[0], all).Some? then
      var r := ArgUnifications(headArgs[1..], compiled[1..], index + 1, all, body);
      assert r.Some? ==> Pending(headArgs, compiled, index, all) == Pending(headArgs[1..], compiled[1..], index + 1, all) by {
        if r.Some? {
          var p := Pending(headArgs[1..], compiled[1..], index + 1, all);
          assert [] + p == p;
        }
      }
      r
    else
      match ArgUnifications(headArgs[1..], compiled[1..], index + 1, all, body)
      case None => None
      case Some(rest) => Some([Unification(index, compiled[0], rest)])
  }

  /** An argument position gets a unification exactly when its head
    * argument is not a plain variable, and only positions of the head do. */
  lemma {:induction false} PendingExactly(headArgs: seq<Term>, compiled: seq<Term>, index: nat, all: seq<Term>, n: nat, c: Term)
    requires |compiled| >= |headArgs|
    ensures (n, c) in Pending(headArgs, compiled, index, all) <==>
      index <= n < index + |headArgs| && c == compiled[n - index] && ArgIndex(headArgs[n - index], all).None?
    decreases |headArgs|
  {
    if headArgs != [] {
      PendingExactly(headArgs[1..], compiled[1..], index + 1, all, n, c);
    }
  }

  /** An entry `Name = Var` of the variable names list. */
  predicate NameEntries(names: seq<Term>)
  {
    forall i | 0 <= i < |names| :: Is(names[i], "=", 2)
  }

  /** `f(Name, arg<I>)` for each entry whose variable is the I-th head
    * argument and no other, in order. */
  function Assignments(names: seq<Term>, headArgs: seq<Term>): seq<Term>
    requires NameEntries(names)
    decreases |names|
  {
    if names == [] then []
    else
      var index := ArgIndex(names[0].args[1], headArgs);
      (if index.Some? then [F2("f", names[0].args[0], ArgName(index.value))] else []) +
      Assignments(names[1..], headArgs)
  }

  /** `declare(Variable, Name, new(Variable, []))` for every other entry,
    * in order. */
  function Declared(names: seq<Term>, headArgs: seq<Term>): seq<Term>
    requires NameEntries(names)
    decreases |names|
  {
    if names == [] then []
    else
      (if ArgIndex(names[0].args[1], headArgs).Some? then [] else [Declare("Variable", names[0].args[0], [])]) +
      Declared(names[1..], headArgs)
  }

  function Reversed(s: seq<Term>): (r: seq<Term>)
    ensures |r| == |s| && forall i | 0 <= i < |s| :: r[i] == s[|s| - 1 - i]
    decreases |s|
  {
    if s == [] then [] else Reversed(s[1..]) + [s[0]]
  }

  /** The assignment of an entry whose variable is a plain head argument
    * goes on the front of the input and so ends up after those of the
    * later entries. */
  lemma AssignmentStep(names: seq<Term>, headArgs: seq<Term>, assignIn: seq<Term>, i: nat)
    requires names != [] && Is(names[0], "=", 2)
    requires ArgIndex(names[0].args[1], headArgs) == Some(i)
    ensures NameEntries(names[1..]) ==>
      Reversed(Assignments(names[1..], headArgs)) + ([F2("f", names[0].args[0], ArgName(i))] + assignIn) ==
      Reversed(Assignments(names, headArgs)) + assignIn
  {
    if !NameEntries(names[1..]) { return; }
    assert forall j | 1 <= j < |names| :: names[j] == names[1..][j - 1];
    var x := F2("f", names[0].args[0], ArgName(i));
    var rest := Assignments(names[1..], headArgs);
    assert Assignments(names, headArgs) == [x] + rest;
    assert ([x] + rest)[1..] == rest;
    assert Reversed([x] + rest) == Reversed(rest) + [x];
  }

  /** Such an entry adds no declaration. */
  lemma AssignedNotDeclared(names: seq<Term>, headArgs: seq<Term>)
    requires names != [] && Is(names[0], "=", 2)
    requires ArgIndex(names[0].args[1], headArgs).Some?
    ensures NameEntries(names[1..]) ==> Declared(names, headArgs) == Declared(names[1..], headArgs)
  {
    if NameEntries(names[1..]) {
      assert forall j | 1 <= j < |names| :: names[j] == names[1..][j - 1];
      assert [] + Declared(names[1..], headArgs) == Declared(names[1..], headArgs);
    }
  }

  /** `compileDeclarations(VariableNames, HeadArgs, AssignmentsIn,
    * AssignmentsOut, DeclarationsIn, DeclarationsOut)`: the assignments are
    * pushed on the front of AssignmentsIn, so they come out reversed; the
    * declarations precede DeclarationsIn in order. No answer for an entry
    * that is not `Name = Var`. */
  function Declarations(names: seq<Term>, headArgs: seq<Term>, assignIn: seq<Term>, declIn: seq<Term>)
    : (r: Option<(seq<Term>, seq<Term>)>)
    ensures r.Some? <==> NameEntries(names)
    ensures r.Some? ==> r.value.0 == Reversed(Assignments(names, headArgs)) + assignIn
    ensures r.Some? ==> r.value.1 == Declared(names, headArgs) + declIn
    decreases |names|
  {
    if names == [] then Some((assignIn, declIn))
    else if !Is(names[0], "=", 2) then None
    else
      var name, v := names[0].args[0], names[0].args[1];
      assert forall i | 1 <= i < |names| :: names[i] == names[1..][i - 1];
      var index := ArgIndex(v, headArgs);
      if index.Some? then
        var r := Declarations(names[1..], headArgs, [F2("f", name, ArgName(index.value))] + assignIn, declIn);
        AssignmentStep(names, headArgs, assignIn, index.value);
        AssignedNotDeclared(names, headArgs);
        r
      else
        var r := Declarations(names[1..], headArgs, assignIn, declIn);
        DeclarationStep(names, headArgs);
        if r.None? then None else Some((r.value.0, [Declare("Variable", name, [])] + r.value.1))
  }

  /** An entry whose variable is not a plain head argument adds no
    * assignment and one declaration, at the front. */
  lemma DeclarationStep(names: seq<Term>, headArgs: seq<Term>)
    requires names != [] && Is(names[0], "=", 2)
    requires ArgIndex(names[0].args[1], headArgs).None?
    ensures NameEntries(names[1..]) ==>
      NameEntries(names) &&
      Assignments(names, headArgs) == Assignments(names[1..], headArgs) &&
      Declared(names, headArgs) == [Declare("Variable", names[0].args[0], [])] + Declared(names[1..], headArgs)
  {
    if NameEntries(names[1..]) {
      assert forall j | 1 <= j < |names| :: names[j] == names[1..][j - 1];
      assert NameEntries(names);
      assert [] + Assignments(names[1..], headArgs) == Assignments(names[1..], headArgs);
    }
  }

  /** Every entry of the names list is either assigned from its argument
    * or declared, and never both. */
  lemma {:induction false} EveryNameBound(names: seq<Term>, headArgs: seq<Term>)
    requires NameEntries(names)
    ensures |Assignments(names, headArgs)| + |Declared(names, headArgs)| == |names|
    ensures forall i | 0 <= i < |names| && ArgIndex(names[i].args[1], headArgs).Some? ::
      F2("f", names[i].args[0], ArgName(ArgIndex(names[i].args[1], headArgs).value)) in Assignments(names, headArgs)
    ensures forall i | 0 <= i < |names| && ArgIndex(names[i].args[1], headArgs).None? ::
      Declare("Variable", names[i].args[0], []) in Declared(names, headArgs)
    decreases |names|
  {
    if names != [] {
      EveryNameBound(names[1..], headArgs);
      assert forall i | 1 <= i < |names| :: names[i] == names[1..][i - 1];
    }
  }

  // ---------------------------------------------------------------------
  // Grouping the clauses of one predicate.

  datatype Grouping = Grouped(same: seq<Term>, rest: seq<Term>) | NoGrouping | GroupingRaises(error: Term)

  /** The head of a rule `Head :- Body`, or the fact itself. */
  function RuleHead(rule: Term): Term
  {
    if Is(rule, ":-", 2) then rule.args[0] else rule
  }

  /** What `YP.functor(Second, Name, Arity)` decides once Name and Arity
    * are the first head's: an unbound second head is bound to such a
    * term; otherwise names and arities are compared. */
  predicate SameFunctor(first: Term, second: Term)
  {
    second.Var? ||
    (TermEqual(EmptyHeap, FunctorName(EmptyHeap, first), FunctorName(EmptyHeap, second)) &&
     |FunctorArgs(EmptyHeap, first)| == |FunctorArgs(EmptyHeap, second)|)
  }

  /** The head of the rule in an element `f(Rule, _)` of the list. */
  function HeadOf(element: Term): Term
    requires Is(element, "f", 2)
  {
    RuleHead(element.args[0])
  }

  /** Element i of s is `f(Rule, _)` whose head fits the functor of the
    * first element's head, which is bound. */
  predicate Linked(s: seq<Term>, i: int)
  {
    1 <= i < |s| && Is(s[0], "f", 2) && Is(s[i], "f", 2) && !HeadOf(s[0]).Var? &&
    SameFunctor(HeadOf(s[0]), HeadOf(s[i]))
  }

  /** The first element of rest does not fit the functor of the first head
    * of same. */
  predicate Boundary(same: seq<Term>, rest: seq<Term>)
  {
    same != [] && rest != [] ==>
      Is(same[0], "f", 2) && Is(rest[0], "f", 2) && !SameFunctor(HeadOf(same[0]), HeadOf(rest[0]))
  }

  /** The recursion of `samePredicateRuleList` once the first head was
    * bound: every later call sees the heads that `functor/3` bound to the
    * first head's name and arity, so it goes on comparing with head. */
  function RunOf(head: Term, rules: seq<Term>): (r: Grouping)
    ensures !r.GroupingRaises?
    ensures r.Grouped? ==> r.same + r.rest == rules
    ensures r.Grouped? && rules != [] ==> |r.same| >= 1
    ensures r.Grouped? ==> forall i | 1 <= i < |r.same| :: Is(r.same[i], "f", 2) && SameFunctor(head, HeadOf(r.same[i]))
    ensures r.Grouped? && r.same != [] && r.rest != [] ==> Is(r.rest[0], "f", 2) && !SameFunctor(head, HeadOf(r.rest[0]))
    ensures r.NoGrouping? ==> exists i | 0 <= i < |rules| :: !Is(rules[i], "f", 2)
    decreases |rules|
  {
    if |rules| <= 1 then Grouped(rules, [])
    else if !Is(rules[0], "f", 2) || !Is(rules[1], "f", 2) then NoGrouping
    else if SameFunctor(head, HeadOf(rules[1])) then
      match RunOf(head, rules[1..])
      case Grouped(same, rest) =>
        assert forall i | 1 <= i < |[rules[0]] + same| :: ([rules[0]] + same)[i] == same[i - 1];
        Grouped([rules[0]] + same, rest)
      case NoGrouping =>
        assert forall i | 1 <= i < |rules| :: rules[i] == rules[1..][i - 1];
        NoGrouping
    else Grouped([rules[0]], rules[1..])
  }

  /** `samePredicateRuleList(Rules, Same, Rest)`: the leading run of
    * elements whose heads share the first head's name and arity, and the
    * elements after it. A later unbound head joins the run, as
    * `functor/3` binds it to that name and arity. An element is
    * `f(Rule, _)`; a list whose elements up to the end of the run are not
    * all of that form has no answer, and an unbound first head raises
    * `instantiation_error`. */
  function SamePredicateRuleList(rules: seq<Term>): (r: Grouping)
    ensures r.Grouped? ==> r.same + r.rest == rules
    ensures r.Grouped? && rules != [] ==> |r.same| >= 1
    ensures r.Grouped? ==> forall i | 1 <= i < |r.same| :: Linked(r.same, i)
    ensures r.Grouped? ==> Boundary(r.same, r.rest)
    ensures r.NoGrouping? ==> exists i | 0 <= i < |rules| :: !Is(rules[i], "f", 2)
    ensures r.GroupingRaises? <==> |rules| >= 2 && Is(rules[0], "f", 2) && Is(rules[1], "f", 2) && HeadOf(rules[0]).Var?
    ensures r.GroupingRaises? ==> r.error == InstantiationError
  {
    if |rules| <= 1 then Grouped(rules, [])
    else if !Is(rules[0], "f", 2) || !Is(rules[1], "f", 2) then NoGrouping
    else if HeadOf(rules[0]).Var? then GroupingRaises(InstantiationError)
    else RunOf(HeadOf(rules[0]), rules)
  }

  /** In `[f(p(a), _), f(V, _), f(q, _)]` the unbound second head is bound to
    * `p/1`, so the run is the first two elements and the third starts the
    * rest. */
  lemma UnboundLaterHeadJoinsRun(v: nat)
    ensures var pa := Compound(Atom("p", None), [Sym(Atom("a", None))]);
      var rules := [Compound(Atom("f", None), [pa, Var(0)]), Compound(Atom("f", None), [Var(v), Var(0)]),
                    Compound(Atom("f", None), [Sym(Atom("q", None)), Var(0)])];
      SamePredicateRuleList(rules) == Grouped(rules[..2], rules[2..])
  {
    var pa := Compound(Atom("p", None), [Sym(Atom("a", None))]);
    var rules := [Compound(Atom("f", None), [pa, Var(0)]), Compound(Atom("f", None), [Var(v), Var(0)]),
                  Compound(Atom("f", None), [Sym(Atom("q", None)), Var(0)])];
    assert !SameFunctor(pa, Sym(Atom("q", None))) by {
      assert FunctorName(EmptyHeap, pa) == Sym(Atom("p", None));
      assert FunctorName(EmptyHeap, Sym(Atom("q", None))) == Sym(Atom("q", None));
      assert !TermEqual(EmptyHeap, Sym(Atom("p", None)), Sym(Atom("q", None)));
    }
    assert HeadOf(rules[0]) == pa && HeadOf(rules[1]) == Var(v) && HeadOf(rules[2]) == Sym(Atom("q", None));
    assert rules[1..][1..] == rules[2..];
    assert RunOf(pa, rules[1..]) == Grouped([rules[1]], rules[2..]);
    assert [rules[0]] + [rules[1]] == rules[..2];
  }

  // ---------------------------------------------------------------------
  // Running the lowering against the compiler state.

  /** The parts of the state that lowering reads. */
  function ContextOf(state: CompilerState, hooks: Hooks): Context
    reads state
  {
    Context(state.pragmas, state.moduleForNameArity, state.determinism, hooks)
  }

  /** `compileRuleBody(Body, State, PseudoCode)`: the code of the body;
    * the state's gensym counter and `codeUsesYield` are left as the
    * lowering leaves them, and nothing else changes. */
  method CompileRuleBody(state: CompilerState, hooks: Hooks, body: Term) returns (r: Compiled)
    modifies state
    ensures var l := Lower(old(ContextOf(state, hooks)), body, Gen(old(state.gensymCounter), old(state.codeUsesYield)));
      r == l.result && state.gensymCounter == l.gen.counter && state.codeUsesYield == l.gen.usesYield
    ensures state.gensymCounter >= old(state.gensymCounter)
    ensures old(state.codeUsesYield) ==> state.codeUsesYield
    ensures state.pragmas == old(state.pragmas) && state.moduleForNameArity == old(state.moduleForNameArity)
    ensures state.determinism == old(state.determinism) && state.useFinalCutCode == old(state.useFinalCutCode)
    ensures state.variableNames == old(state.variableNames)
  {
    var l := Lower(ContextOf(state, hooks), body, Gen(state.gensymCounter, state.codeUsesYield));
    state.gensymCounter := l.gen.counter;
    state.codeUsesYield := l.gen.usesYield;
    r := l.result;
  }
}
