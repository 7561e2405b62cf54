// The rules of `compileRuleBody` as facts about `Compiler.Lower`: which
// goal each rule rewrites into, and what code each rule emits.
module CompilerRules {
  import opened Wrappers
  import opened Atoms
  import opened Terms
  import opened Lists
  import opened Text
  import opened Errors
  import opened CallTable
  import opened Compiler

  // ---------------------------------------------------------------------
  // Goals that are not conjunctions.

  /** A variable goal is called: `(call(A), true)`. */
  lemma VariableGoalIsCalled(ctx: Context, g: Term, gen: Gen)
    requires g.Var?
    ensures Lower(ctx, g, gen) == Lower(ctx, F2(",", F1("call", g), Name("true")), gen)
  {
  }

  /** A goal that no other rule takes is followed by `true`. */
  lemma BareGoalIsFollowedByTrue(ctx: Context, g: Term, gen: Gen)
    requires !g.Var? && !Is(g, ",", 2) && !Is(g, ";", 2) && !Is(g, "$CUTIF", 1)
    requires !IsAtom(g, "!") && !IsAtom(g, "true")
    ensures Lower(ctx, g, gen) == Lower(ctx, F2(",", g, Name("true")), gen)
  {
  }

  /** A lone cut returns from a none-out function and otherwise yields
    * once and stops; only the last form uses `yield`. */
  lemma CutAlone(ctx: Context, gen: Gen)
    ensures DeterminismIs(ctx, "detNoneOut") ==> Lower(ctx, Name("!"), gen) == Lowered(Code([Name("return")]), gen)
    ensures !DeterminismIs(ctx, "detNoneOut") && DeterminismIs(ctx, "semidetNoneOut") ==>
      Lower(ctx, Name("!"), gen) == Lowered(Code([Name("returntrue")]), gen)
    ensures !Returning(ctx) ==>
      Lower(ctx, Name("!"), gen) == Lowered(Code([Name("yieldtrue"), Name("yieldbreak")]), Gen(gen.counter, true))
  {
  }

  /** `true` at the end of a body returns from a none-out function and
    * otherwise yields false; only the last form uses `yield`. */
  lemma TrueAlone(ctx: Context, gen: Gen)
    ensures DeterminismIs(ctx, "detNoneOut") ==> Lower(ctx, Name("true"), gen) == Lowered(Code([Name("return")]), gen)
    ensures !DeterminismIs(ctx, "detNoneOut") && DeterminismIs(ctx, "semidetNoneOut") ==>
      Lower(ctx, Name("true"), gen) == Lowered(Code([Name("returntrue")]), gen)
    ensures !Returning(ctx) ==>
      Lower(ctx, Name("true"), gen) == Lowered(Code([Name("yieldfalse")]), Gen(gen.counter, true))
  {
  }

  /** `$CUTIF(N)` at the end of a body breaks out of block N. */
  lemma CutIfAlone(ctx: Context, n: Term, gen: Gen)
    ensures Lower(ctx, F1("$CUTIF", n), gen) == Lowered(Code([F1("breakBlock", n)]), gen)
  {
  }

  // ---------------------------------------------------------------------
  // Conjunctions.

  /** A plain call first in a conjunction: its code, then the
    * continuation's, directly after a det none-out call, inside an `if`
    * after a semidet one and inside a `foreach` otherwise. */
  lemma PlainCallConjunction(ctx: Context, a: Term, b: Term, gen: Gen)
    requires !a.Var? && FunctorCall(ctx, a).PlainCall?
    ensures var code, rb := FunctorCall(ctx, a).code, Lower(ctx, b, gen);
      Lower(ctx, F2(",", a, b), gen) ==
        if rb.result.Threw? then rb
        else if PragmaFor(ctx, a, "det") then Lowered(Code([code] + rb.result.items), rb.gen)
        else if PragmaFor(ctx, a, "semidet") then Lowered(Code([If(code, rb.result.items)]), rb.gen)
        else Lowered(Code([Foreach(code, rb.result.items)]), rb.gen)
  {
  }

  /** A special form first in a conjunction never takes the plain-call
    * rule: no function name is chosen for it. */
  lemma SpecialFormsAreNotCalled(ctx: Context, a: Term, b: Term, gen: Gen)
    requires SpecialGoal(a)
    ensures FunctorCall(ctx, a) == NotACall
    ensures Lower(ctx, F2(",", a, b), gen) == LowerControl(ctx, a, b, gen)
  {
  }

  /** `\+ A` becomes `(A -> fail ; true)` unless A is semidet and a plain call. */
  lemma NegationRewrites(ctx: Context, x: Term, b: Term, gen: Gen)
    requires PragmaFor(ctx, x, "semidet") ==> FunctorCall(ctx, x).NotACall?
    ensures Lower(ctx, F2(",", F1("\\+", x), b), gen) ==
            Lower(ctx, F2(",", F2(";", F2("->", x, Name("fail")), Name("true")), b), gen)
  {
    var a := F1("\\+", x);
    SpecialFormsAreNotCalled(ctx, a, b, gen);
    assert LowerControl(ctx, a, b, gen) == LowerRewritten(ctx, a, b, gen);
    assert LowerRewritten(ctx, a, b, gen) == LowerNegation(ctx, a, b, gen);
  }

  /** `\+ A` with A a semidet call tests the call with `if(not(...))`;
    * an error choosing the call is raised. */
  lemma SemidetNegation(ctx: Context, x: Term, b: Term, gen: Gen)
    requires PragmaFor(ctx, x, "semidet") && !FunctorCall(ctx, x).NotACall?
    ensures var rb := Lower(ctx, b, gen);
      FunctorCall(ctx, x).PlainCall? ==>
        Lower(ctx, F2(",", F1("\\+", x), b), gen) ==
        if rb.result.Threw? then rb else Lowered(Code([If(F1("not", FunctorCall(ctx, x).code), rb.result.items)]), rb.gen)
    ensures FunctorCall(ctx, x).CallRaises? ==>
      Lower(ctx, F2(",", F1("\\+", x), b), gen) == Lowered(Threw(FunctorCall(ctx, x).error), gen)
  {
    var a := F1("\\+", x);
    SpecialFormsAreNotCalled(ctx, a, b, gen);
    assert LowerControl(ctx, a, b, gen) == LowerRewritten(ctx, a, b, gen);
    assert LowerRewritten(ctx, a, b, gen) == LowerNegation(ctx, a, b, gen);
  }

  /** `once(A)` becomes `(A -> true ; fail)`. */
  lemma OnceRewrites(ctx: Context, x: Term, b: Term, gen: Gen)
    ensures Lower(ctx, F2(",", F1("once", x), b), gen) ==
            Lower(ctx, F2(",", F2(";", F2("->", x, Name("true")), Name("fail")), b), gen)
  {
    var a := F1("once", x);
    SpecialFormsAreNotCalled(ctx, a, b, gen);
    assert LowerControl(ctx, a, b, gen) == LowerRewritten(ctx, a, b, gen);
  }

  /** `(A -> T)` becomes `(A -> T ; fail)`. */
  lemma IfThenGetsElse(ctx: Context, p: Term, t: Term, b: Term, gen: Gen)
    ensures Lower(ctx, F2(",", F2("->", p, t), b), gen) ==
            Lower(ctx, F2(",", F2(";", F2("->", p, t), Name("fail")), b), gen)
  {
    var a := F2("->", p, t);
    SpecialFormsAreNotCalled(ctx, a, b, gen);
    assert LowerControl(ctx, a, b, gen) == LowerRewritten(ctx, a, b, gen);
  }

  /** `A \= B` becomes `\+ A = B`. */
  lemma NotUnifiableRewrites(ctx: Context, x: Term, y: Term, b: Term, gen: Gen)
    ensures Lower(ctx, F2(",", F2("\\=", x, y), b), gen) ==
            Lower(ctx, F2(",", F1("\\+", F2("=", x, y)), b), gen)
  {
    var a := F2("\\=", x, y);
    SpecialFormsAreNotCalled(ctx, a, b, gen);
    assert LowerControl(ctx, a, b, gen) == LowerRewritten(ctx, a, b, gen);
  }

  /** `assert(A)` is `assertz(A)`. */
  lemma AssertIsAssertz(ctx: Context, x: Term, b: Term, gen: Gen)
    ensures Lower(ctx, F2(",", F1("assert", x), b), gen) == Lower(ctx, F2(",", F1("assertz", x), b), gen)
  {
    var a := F1("assert", x);
    SpecialFormsAreNotCalled(ctx, a, b, gen);
    assert LowerControl(ctx, a, b, gen) == LowerRewritten(ctx, a, b, gen);
  }

  /** `((A ; B), C)` becomes `((A, C) ; (B, C))`. */
  lemma DisjunctionDistributesRule(ctx: Context, x: Term, y: Term, c: Term, gen: Gen)
    requires !Is(x, "->", 2)
    ensures Lower(ctx, F2(",", F2(";", x, y), c), gen) == Lower(ctx, F2(";", F2(",", x, c), F2(",", y, c)), gen)
  {
    var a := F2(";", x, y);
    SpecialFormsAreNotCalled(ctx, a, c, gen);
    assert LowerControl(ctx, a, c, gen) == LowerCompound(ctx, a, c, gen);
  }

  /** `((A -> T ; B), C)` becomes `((A -> (T, C)) ; (B, C))`. */
  lemma IfThenElseDistributesRule(ctx: Context, p: Term, t: Term, e: Term, c: Term, gen: Gen)
    ensures Lower(ctx, F2(",", F2(";", F2("->", p, t), e), c), gen) ==
            Lower(ctx, F2(";", F2("->", p, F2(",", t, c)), F2(",", e, c)), gen)
  {
    var a := F2(";", F2("->", p, t), e);
    SpecialFormsAreNotCalled(ctx, a, c, gen);
    assert LowerControl(ctx, a, c, gen) == LowerCompound(ctx, a, c, gen);
  }

  /** `((A, B), C)` becomes `(A, (B, C))`. */
  lemma ConjunctionReassociatesRule(ctx: Context, x: Term, y: Term, c: Term, gen: Gen)
    ensures Lower(ctx, F2(",", F2(",", x, y), c), gen) == Lower(ctx, F2(",", x, F2(",", y, c)), gen)
  {
    var a := F2(",", x, y);
    SpecialFormsAreNotCalled(ctx, a, c, gen);
    assert LowerControl(ctx, a, c, gen) == LowerCompound(ctx, a, c, gen);
  }

  /** `(!, A)`: A's code, then `yieldbreak`. */
  lemma CutThenContinuation(ctx: Context, b: Term, gen: Gen)
    ensures var rb := Lower(ctx, b, gen);
      Lower(ctx, F2(",", Name("!"), b), gen) ==
        if rb.result.Threw? then rb else Lowered(Code(rb.result.items + [Name("yieldbreak")]), rb.gen)
  {
    SpecialFormsAreNotCalled(ctx, Name("!"), b, gen);

  }

  /** `($CUTIF(N), A)`: A's code, then `breakBlock(N)`. */
  lemma CutIfThenContinuation(ctx: Context, n: Term, b: Term, gen: Gen)
    ensures var rb := Lower(ctx, b, gen);
      Lower(ctx, F2(",", F1("$CUTIF", n), b), gen) ==
        if rb.result.Threw? then rb else Lowered(Code(rb.result.items + [F1("breakBlock", n)]), rb.gen)
  {
    SpecialFormsAreNotCalled(ctx, F1("$CUTIF", n), b, gen);

  }

  /** `(fail, B)` emits nothing and never compiles B. */
  lemma FailDropsContinuation(ctx: Context, b: Term, gen: Gen)
    ensures Lower(ctx, F2(",", Name("fail"), b), gen) == Lowered(Code([]), gen)
  {
    SpecialFormsAreNotCalled(ctx, Name("fail"), b, gen);

  }

  /** `(true, B)` is B. */
  lemma TrueIsSkipped(ctx: Context, b: Term, gen: Gen)
    ensures Lower(ctx, F2(",", Name("true"), b), gen) == Lower(ctx, b, gen)
  {
    SpecialFormsAreNotCalled(ctx, Name("true"), b, gen);

  }

  /** `($DET_NONE_OUT(Code), B)`: the code as it is, then B's. */
  lemma DetNoneOutPrefix(ctx: Context, code: Term, b: Term, gen: Gen)
    ensures var rb := Lower(ctx, b, gen);
      Lower(ctx, F2(",", F1("$DET_NONE_OUT", code), b), gen) ==
        if rb.result.Threw? then rb else Lowered(Code([code] + rb.result.items), rb.gen)
  {
    var a := F1("$DET_NONE_OUT", code);
    SpecialFormsAreNotCalled(ctx, a, b, gen);

  }

  /** `(A is T, B)`: unify A's code with T's value, then B. */
  lemma IsUnifiesValue(ctx: Context, x: Term, e: Term, b: Term, gen: Gen)
    requires ctx.hooks.term(x).Emitted? && ctx.hooks.expression(e).Emitted?
    ensures var rb := Lower(ctx, b, gen);
      Lower(ctx, F2(",", F2("is", x, e), b), gen) ==
        if rb.result.Threw? then rb
        else Lowered(Code([Foreach(CallFunction("YP.unify", [ctx.hooks.term(x).code, ctx.hooks.expression(e).code]),
                                   rb.result.items)]), rb.gen)
  {
    var a := F2("is", x, e);
    SpecialFormsAreNotCalled(ctx, a, b, gen);

  }

  /** An arithmetic comparison becomes an `if` on the runtime's test. */
  lemma ComparisonIsTested(ctx: Context, op: Atom, x: Term, y: Term, b: Term, gen: Gen)
    requires BinaryExpressionConditional(op).Some?
    requires ctx.hooks.expression(x).Emitted? && ctx.hooks.expression(y).Emitted?
    ensures var rb := Lower(ctx, b, gen);
      Lower(ctx, F2(",", Compound(op, [x, y]), b), gen) ==
        if rb.result.Threw? then rb
        else Lowered(Code([If(CallFunction(BinaryExpressionConditional(op).value,
                                           [ctx.hooks.expression(x).code, ctx.hooks.expression(y).code]),
                              rb.result.items)]), rb.gen)
  {
    var a := Compound(op, [x, y]);
    SpecialFormsAreNotCalled(ctx, a, b, gen);

  }

  /** `(call(A), B)`: iterate over the runtime's answers for A. */
  lemma CallIterates(ctx: Context, x: Term, b: Term, gen: Gen)
    requires ctx.hooks.term(x).Emitted?
    ensures var rb := Lower(ctx, b, gen);
      Lower(ctx, F2(",", F1("call", x), b), gen) ==
        if rb.result.Threw? then rb
        else Lowered(Code([Foreach(CallFunction("YP.getIterator", [ctx.hooks.term(x).code, DeclaringClass]),
                                   rb.result.items)]), rb.gen)
  {
    var a := F1("call", x);
    SpecialFormsAreNotCalled(ctx, a, b, gen);
    assert LowerControl(ctx, a, b, gen) == LowerBuiltIn(ctx, a, b, gen);
  }

  /** `(findall(T, G, Bag), B)`: a gensym'd `FindallAnswers`, the code of
    * `(G, $DET_NONE_OUT(add), fail)`, then B for the bag. */
  lemma FindallLowering(ctx: Context, t: Term, g: Term, bag: Term, b: Term, gen: Gen)
    requires ctx.hooks.term(t).Emitted? && ctx.hooks.term(bag).Emitted?
    ensures var answers := Atom("findallAnswers" + NatToString(gen.counter + 1), None);
      var collect := Lower(ctx, F2(",", g, F2(",", F1("$DET_NONE_OUT", CallMember(VarRef(answers), "add", [])), Name("fail"))),
                           Gen(gen.counter + 1, gen.usesYield));
      var rb := Lower(ctx, b, collect.gen);
      collect.result.Code? && rb.result.Code? ==>
        Lower(ctx, F2(",", F3("findall", t, g, bag), b), gen) ==
        Lowered(Code([Declare("FindallAnswers", Sym(answers), [ctx.hooks.term(t).code])] + collect.result.items +
                     [Foreach(CallMember(VarRef(answers), "result", [ctx.hooks.term(bag).code]), rb.result.items)]), rb.gen)
  {
    FindallRoute(ctx, t, g, bag, b, gen);
  }

  lemma FindallRoute(ctx: Context, t: Term, g: Term, bag: Term, b: Term, gen: Gen)
    ensures Lower(ctx, F2(",", F3("findall", t, g, bag), b), gen) == LowerFindall(ctx, t, g, bag, b, gen)
  {
    var a := F3("findall", t, g, bag);
    SpecialFormsAreNotCalled(ctx, a, b, gen);
    assert LowerControl(ctx, a, b, gen) == LowerBuiltIn(ctx, a, b, gen);
  }

  /** `(bagof(T, G, Bag), B)` and `(setof(T, G, Bag), B)` go to
    * `compileBagof` with `result` and `resultSet`. */
  lemma BagofAndSetof(ctx: Context, t: Term, g: Term, bag: Term, b: Term, gen: Gen)
    ensures Lower(ctx, F2(",", F3("bagof", t, g, bag), b), gen) == CompileBagof(ctx, "result", t, g, bag, b, gen)
    ensures Lower(ctx, F2(",", F3("setof", t, g, bag), b), gen) == CompileBagof(ctx, "resultSet", t, g, bag, b, gen)
  {
    var a := F3("bagof", t, g, bag);
    SpecialFormsAreNotCalled(ctx, a, b, gen);
    assert LowerControl(ctx, a, b, gen) == LowerBuiltIn(ctx, a, b, gen);
    var a' := F3("setof", t, g, bag);
    SpecialFormsAreNotCalled(ctx, a', b, gen);
    assert LowerControl(ctx, a', b, gen) == LowerBuiltIn(ctx, a', b, gen);
  }

  /** `compileBagof`: as `findall` with a `BagofAnswers` that also gets
    * the goal, the `^` prefixes stripped from the goal that is run, and
    * the given method for the bag. */
  lemma CompileBagofLowering(ctx: Context, resultMethod: string, t: Term, g: Term, bag: Term, b: Term, gen: Gen)
    requires ctx.hooks.term(t).Emitted? && ctx.hooks.term(g).Emitted? && ctx.hooks.term(bag).Emitted?
    ensures var answers := Atom("bagofAnswers" + NatToString(gen.counter + 1), None);
      var collect := Lower(ctx, F2(",", UnqualifiedGoal(g), F2(",", F1("$DET_NONE_OUT", CallMember(VarRef(answers), "add", [])), Name("fail"))),
                           Gen(gen.counter + 1, gen.usesYield));
      var rb := Lower(ctx, b, collect.gen);
      collect.result.Code? && rb.result.Code? ==>
        CompileBagof(ctx, resultMethod, t, g, bag, b, gen) ==
        Lowered(Code([Declare("BagofAnswers", Sym(answers), [ctx.hooks.term(t).code, ctx.hooks.term(g).code])] + collect.result.items +
                     [Foreach(CallMember(VarRef(answers), resultMethod, [ctx.hooks.term(bag).code]), rb.result.items)]), rb.gen)
  {
  }

  /** `(catch(G, C, H), B)`: a gensym'd `Catch` of G, B for each of its
    * answers, then `(H, B)` for a caught exception that unifies with C. */
  lemma CatchLowering(ctx: Context, g: Term, c: Term, handler: Term, b: Term, gen: Gen)
    requires ctx.hooks.term(g).Emitted? && ctx.hooks.term(c).Emitted?
    ensures var catchGoal := Atom("catchGoal" + NatToString(gen.counter + 1), None);
      var rb := Lower(ctx, b, Gen(gen.counter + 1, gen.usesYield));
      var rh := Lower(ctx, F2(",", handler, b), rb.gen);
      rb.result.Code? && rh.result.Code? ==>
        Lower(ctx, F2(",", F3("catch", g, c, handler), b), gen) ==
        Lowered(Code([Declare("Catch", Sym(catchGoal), [ctx.hooks.term(g).code, DeclaringClass]),
                      Foreach(VarRef(catchGoal), rb.result.items),
                      Foreach(CallMember(VarRef(catchGoal), "unifyExceptionOrThrow", [ctx.hooks.term(c).code]),
                              rh.result.items)]), rh.gen)
  {
    CatchRoute(ctx, g, c, handler, b, gen);
  }

  lemma CatchRoute(ctx: Context, g: Term, c: Term, handler: Term, b: Term, gen: Gen)
    ensures Lower(ctx, F2(",", F3("catch", g, c, handler), b), gen) == LowerCatch(ctx, g, c, handler, b, gen)
  {
    var a := F3("catch", g, c, handler);
    SpecialFormsAreNotCalled(ctx, a, b, gen);
    assert LowerControl(ctx, a, b, gen) == LowerBuiltIn(ctx, a, b, gen);
  }

  // ---------------------------------------------------------------------
  // Disjunctions.

  /** `(A -> T ; B)` is a single `breakableBlock` labelled with a fresh
    * `cutIf` name, around the code of `((A, $CUTIF(label), T) ; B)`. */
  lemma IfThenElseIsABlock(ctx: Context, p: Term, t: Term, y: Term, gen: Gen)
    ensures var cutLabel := Atom("cutIf" + NatToString(gen.counter + 1), None);
      var rc := Lower(ctx, F2(";", F2(",", p, F2(",", F1("$CUTIF", Sym(cutLabel)), t)), y), Gen(gen.counter + 1, gen.usesYield));
      Lower(ctx, F2(";", F2("->", p, t), y), gen) ==
        if rc.result.Threw? then rc
        else Lowered(Code([F2("breakableBlock", Sym(cutLabel), MakeList(rc.result.items))]), rc.gen)
  {
  }

  /** `(A ; B)`: A's code followed by B's. */
  lemma DisjunctionAppends(ctx: Context, x: Term, y: Term, gen: Gen)
    requires !x.Var? && !Is(x, "->", 2) && !IsAtom(x, "!")
    ensures var rx := Lower(ctx, x, gen);
      var ry := Lower(ctx, y, rx.gen);
      Lower(ctx, F2(";", x, y), gen) ==
        if rx.result.Threw? then rx
        else if ry.result.Threw? then ry
        else Lowered(Code(rx.result.items + ry.result.items), ry.gen)
  {
  }

  /** `(! ; B)` is `!`. */
  lemma CutOrIsCut(ctx: Context, y: Term, gen: Gen)
    ensures Lower(ctx, F2(";", Name("!"), y), gen) == Lower(ctx, Name("!"), gen)
  {
  }

  /** `(V ; B)` with V a variable calls V. */
  lemma VariableDisjunctIsCalled(ctx: Context, x: Term, y: Term, gen: Gen)
    requires x.Var?
    ensures Lower(ctx, F2(";", x, y), gen) == Lower(ctx, F2(";", F1("call", x), y), gen)
  {
  }

  /** `unqualifiedGoal` strips every `V^` prefix at once: applying it
    * again changes nothing, and a prefix adds nothing to the goal run. */
  lemma {:induction false} UnqualifiedGoalIdempotent(g: Term, v: Term)
    ensures UnqualifiedGoal(UnqualifiedGoal(g)) == UnqualifiedGoal(g)
    ensures UnqualifiedGoal(F2("^", v, g)) == UnqualifiedGoal(g)
    decreases g
  {
    if Is(g, "^", 2) {
      UnqualifiedGoalIdempotent(g.args[1], v);
    }
  }
}
