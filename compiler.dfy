// The rule-driven front end of the compiler: `compileRuleBody` lowers a
// clause body into a list of pseudo-code statements, trying its rules in
// order and committing to the first that applies, with the helpers that
// bind head arguments (`getVariableArgIndex1`, `compileArgUnifications`,
// `compileDeclarations`), the grouping of clauses into predicates
// (`samePredicateRuleList`) and the choice of the function a plain call
// goes to (`functorCallFunctionName`, `compileFunctorCall`).
//
// Terms are taken with their bindings already substituted: a `Var` is an
// unbound variable of the clause being compiled.
module Compiler {
  import opened Wrappers
  import opened Atoms
  import opened Terms
  import opened Lists
  import opened Text
  import opened Errors
  import opened Builtins
  import opened Indexing
  import opened CallTable
  import opened CompilerStates

  // ---------------------------------------------------------------------
  // Building and recognising terms.

  function F1(name: string, x: Term): Term
  {
    Compound(Atom(name, None), [x])
  }

  function F2(name: string, x: Term, y: Term): Term
  {
    Compound(Atom(name, None), [x, y])
  }

  function F3(name: string, x: Term, y: Term, z: Term): Term
  {
    Compound(Atom(name, None), [x, y, z])
  }

  /** A compound the source's patterns match: unification compares atoms
    * by name, so a module-qualified functor matches too. */
  predicate Is(t: Term, name: string, arity: nat)
  {
    t.Compound? && t.name.name == name && |t.args| == arity
  }

  /** An atom of that name; a compound with no arguments is taken as
    * its atom. */
  predicate IsAtom(t: Term, name: string)
  {
    (t.Sym? && t.atom.name == name) || Is(t, name, 0)
  }

  /** A goal whose name and arity `functorCallIsSpecialForm` accepts. */
  predicate SpecialGoal(g: Term)
  {
    (g.Sym? && IsSpecialForm(g.atom, 0)) || (g.Compound? && IsSpecialForm(g.name, |g.args|))
  }

  // Pseudo-code statements, as the terms the source builds.

  function CallFunction(name: string, args: seq<Term>): Term
  {
    F2("call", Name(name), MakeList(args))
  }

  function CallMember(obj: Term, member: string, args: seq<Term>): Term
  {
    F3("callMember", obj, Name(member), MakeList(args))
  }

  function VarRef(a: Atom): Term
  {
    F1("var", Sym(a))
  }

  function Foreach(source: Term, body: seq<Term>): Term
  {
    F2("foreach", source, MakeList(body))
  }

  function If(condition: Term, body: seq<Term>): Term
  {
    F2("if", condition, MakeList(body))
  }

  /** `declare(Class, Name, new(Class, Args))`. */
  function Declare(className: string, v: Term, args: seq<Term>): Term
  {
    F3("declare", Name(className), v, F2("new", Name(className), MakeList(args)))
  }

  /** `call(getDeclaringClass, [])`. */
  const DeclaringClass := CallFunction("getDeclaringClass", [])

  /** The atom `arg<N>` that names the N-th argument of the function. */
  function ArgName(index: nat): Term
  {
    Name("arg" + NatToString(index))
  }

  // ---------------------------------------------------------------------
  // What the compiler reads and threads.

  /** What compiling one term or expression gives: its code, or the error
    * the compiler throws. */
  datatype Emitted = Emitted(code: Term) | Raises(error: Term)

  /** `compileTerm` and `compileExpression`, which are not part of this
    * model. */
  datatype Hooks = Hooks(term: Term -> Emitted, expression: Term -> Emitted)

  /** The parts of `CompilerState` that lowering reads: the pragma table,
    * the modules recorded by name and arity, and the determinism of the
    * function being compiled. */
  datatype Context = Context(pragmas: seq<Answer>, modules: map<(string, int), Atom>,
                             determinism: Option<Atom>, hooks: Hooks)

  /** The parts of `CompilerState` that lowering changes: the gensym
    * counter and `codeUsesYield`. */
  datatype Gen = Gen(counter: nat, usesYield: bool)

  /** A list of code, or the error thrown while producing it. */
  datatype Compiled = Code(items: seq<Term>) | Threw(error: Term)

  datatype Lowered = Lowered(result: Compiled, gen: Gen)

  /** The counter never goes back and `codeUsesYield` is never cleared. */
  predicate Advances(g0: Gen, g1: Gen)
  {
    g0.counter <= g1.counter && (g0.usesYield ==> g1.usesYield)
  }

  /** `CompilerState.gensym` on the threaded counter. */
  function Gensym(base: string, gen: Gen): (r: (Atom, Gen))
    ensures r.1 == Gen(gen.counter + 1, gen.usesYield)
    ensures r.0 == Atom(base + NatToString(gen.counter + 1), None)
  {
    (Atom(base + NatToString(gen.counter + 1), None), Gen(gen.counter + 1, gen.usesYield))
  }

  /** `CompilerState.determinismEquals(State, Atom.a(mode))`. */
  predicate DeterminismIs(ctx: Context, mode: string)
  {
    ctx.determinism.Some? && ctx.determinism.value.name == mode
  }

  /** The function is det or semidet with no output argument: its code
    * returns rather than yields. */
  predicate Returning(ctx: Context)
  {
    DeterminismIs(ctx, "detNoneOut") || DeterminismIs(ctx, "semidetNoneOut")
  }

  predicate PragmaFor(ctx: Context, goal: Term, mode: string)
  {
    HasNoneOutPragma(ctx.pragmas, EmptyHeap, goal, mode)
  }

  // ---------------------------------------------------------------------
  // Plain calls.

  /** `maplist_compileTerm`: the code of each argument in order, or the
    * first error. */
  function CompileTerms(compile: Term -> Emitted, ts: seq<Term>): (r: Compiled)
    ensures r.Code? ==> |r.items| == |ts| && forall i | 0 <= i < |ts| :: compile(ts[i]) == Emitted(r.items[i])
    ensures r.Threw? ==> exists i | 0 <= i < |ts| ::
      compile(ts[i]) == Raises(r.error) && forall j | 0 <= j < i :: compile(ts[j]).Emitted?
    decreases |ts|
  {
    if ts == [] then Code([])
    else
      match compile(ts[0])
      case Raises(e) => Threw(e)
      case Emitted(c) =>
        var rest := CompileTerms(compile, ts[1..]);
        if rest.Threw? then
          assert forall i | 0 <= i < |ts| - 1 :: ts[1..][i] == ts[i + 1];
          rest
        else Code([c] + rest.items)
  }

  /** The module an atom names with `Atom.module`: `[]` when it has none. */
  function ModuleOf(a: Atom): Atom
  {
    if a.declaringModule.None? then NIL else a.declaringModule.value
  }

  datatype NameChoice = SpecialForm | Named(fn: Term) | NameRaises(error: Term)

  /** `functorCallFunctionName`: no answer for a special form; the runtime
    * function of a built-in; the name itself when the predicate is
    * recorded as defined in the module `""` or its atom carries that
    * module; `[]` (a call through `matchDynamic`) for an atom with no
    * module; otherwise a `type_error(callable, _)`. */
  function FunctionNameFor(modules: map<(string, int), Atom>, name: Term, arity: nat): (r: NameChoice)
    ensures r.SpecialForm? <==> name.Sym? && IsSpecialForm(name.atom, arity)
    ensures !name.Sym? ==> r.NameRaises? || r.Named?
    ensures name.Sym? && !IsSpecialForm(name.atom, arity) && YPFunctionName(name.atom, arity).Some? ==>
      r == Named(Name(YPFunctionName(name.atom, arity).value))
    ensures r.Named? && r.fn == Sym(NIL) && name.Sym? ==> name.atom.declaringModule.None? || YPFunctionName(name.atom, arity).None?
    ensures r.NameRaises? ==> !HasModule(modules, EmptyHeap, name, Int(arity), Name(""))
  {
    if name.Sym? && IsSpecialForm(name.atom, arity) then SpecialForm
    else if name.Sym? && YPFunctionName(name.atom, arity).Some? then Named(Name(YPFunctionName(name.atom, arity).value))
    else if HasModule(modules, EmptyHeap, name, Int(arity), Name("")) then Named(name)
    else if name.Sym? && ModuleOf(name.atom).name == "" then Named(name)
    else if name.Sym? && ModuleOf(name.atom).name == "[]" then Named(Sym(NIL))
    else if name.Sym? then NameRaises(TypeError("callable", Indicator(name, arity)))
    else NameRaises(TypeError("callable", name))
  }

  datatype CallCode = PlainCall(code: Term) | NotACall | CallRaises(error: Term)

  /** `compileFunctorCall`: the call of the goal's function with the
    * compiled arguments, or through `YP.matchDynamic` when the function
    * name is `[]`. It has no answer exactly for the special forms. */
  function FunctorCall(ctx: Context, g: Term): (r: CallCode)
    ensures r.NotACall? <==> SpecialGoal(g)
    ensures g.Var? ==> r == CallRaises(InstantiationError)
  {
    if g.Var? then CallRaises(InstantiationError)
    else
      var name, args := FunctorName(EmptyHeap, g), FunctorArgs(EmptyHeap, g);
      match FunctionNameFor(ctx.modules, name, |args|)
      case SpecialForm => NotACall
      case NameRaises(e) => CallRaises(e)
      case Named(fn) =>
        match CompileTerms(ctx.hooks.term, args)
        case Threw(e) => CallRaises(e)
        case Code(codes) =>
          if fn.Sym? && fn.atom.name == "[]" then
            PlainCall(CallFunction("YP.matchDynamic", [CallFunction("Atom.a", [F1("object", name)]), F1("objectArray", MakeList(codes))]))
          else
            PlainCall(F3("functorCall", fn, MakeList(args), MakeList(codes)))
  }

  // ---------------------------------------------------------------------
  // A measure of the model, not of the source: how much rewriting a goal
  // can still undergo. Each rule of `compileRuleBody` that replaces its
  // goal by another lowers it. A disjunction weighs one more than its
  // heavier branch, since the rules that copy a continuation into both
  // branches then lower each branch on its own.

  /** The weight of a goal that stands first in a conjunction. */
  function LeftWeight(t: Term): (w: nat)
    ensures w >= 1
    decreases t, 0
  {
    if t.Var? then 2
    else if Is(t, ",", 2) then LeftWeight(t.args[0]) + LeftWeight(t.args[1]) + 1
    else if Is(t, ";", 2) then
      (if Is(t.args[0], "->", 2) then Max(LeftWeight(t.args[0].args[0]) + LeftWeight(t.args[0].args[1]) + 2, LeftWeight(t.args[1]))
       else Max(LeftWeight(t.args[0]), LeftWeight(t.args[1]))) + 2
    else if Is(t, "->", 2) then LeftWeight(t.args[0]) + LeftWeight(t.args[1]) + 5
    else if Is(t, "\\+", 1) || Is(t, "once", 1) then LeftWeight(t.args[0]) + 6
    else if Is(t, "\\=", 2) then 8
    else if Is(t, "assert", 1) then 2
    else if Is(t, "findall", 3) then LeftWeight(t.args[1]) + 5
    else if Is(t, "bagof", 3) || Is(t, "setof", 3) then UnqualifiedWeight(t.args[1]) + 5
    else if Is(t, "catch", 3) then LeftWeight(t.args[2]) + 1
    else 1
  }

  /** The left weight of the goal `unqualifiedGoal` makes of g. */
  function UnqualifiedWeight(g: Term): (w: nat)
    ensures w >= 1
    decreases g, 1
  {
    if g.Var? then 1 else if Is(g, "^", 2) then UnqualifiedWeight(g.args[1]) else LeftWeight(g)
  }

  /** The weight of a whole goal. */
  function GoalWeight(t: Term): (w: nat)
    ensures w >= 1
    decreases t, 0
  {
    if t.Var? then 4
    else if Is(t, ",", 2) then LeftWeight(t.args[0]) + GoalWeight(t.args[1])
    else if Is(t, ";", 2) then Max(DisjunctWeight(t.args[0]), GoalWeight(t.args[1])) + 1
    else if IsAtom(t, "!") || IsAtom(t, "true") || Is(t, "$CUTIF", 1) then 1
    else LeftWeight(t) + 2
  }

  /** The weight of a goal that stands first in a disjunction. */
  function DisjunctWeight(x: Term): (w: nat)
    ensures w >= 1
    decreases x, 1
  {
    if Is(x, "->", 2) then LeftWeight(x.args[0]) + GoalWeight(x.args[1]) + 2 else GoalWeight(x)
  }

  /** Breaks ties between a disjunction and the one it is rewritten
    * into, whose heavier branch may be the same. */
  function DisjunctionLead(g: Term): nat
  {
    if Is(g, ";", 2) then DisjunctWeight(g.args[0]) else 0
  }

  // The weights of the goals the rules build, one shape at a time.

  lemma ConjunctionWeights(x: Term, y: Term)
    ensures LeftWeight(F2(",", x, y)) == LeftWeight(x) + LeftWeight(y) + 1
    ensures GoalWeight(F2(",", x, y)) == LeftWeight(x) + GoalWeight(y)
    ensures DisjunctWeight(F2(",", x, y)) == LeftWeight(x) + GoalWeight(y)
  {
  }

  lemma DisjunctionWeight(x: Term, y: Term)
    ensures GoalWeight(F2(";", x, y)) == Max(DisjunctWeight(x), GoalWeight(y)) + 1
  {
  }

  lemma IfThenElseWeight(x: Term, y: Term)
    requires Is(x, "->", 2)
    ensures LeftWeight(F2(";", x, y)) == Max(LeftWeight(x.args[0]) + LeftWeight(x.args[1]) + 2, LeftWeight(y)) + 2
  {
  }

  lemma PlainDisjunctionWeight(x: Term, y: Term)
    requires !Is(x, "->", 2)
    ensures LeftWeight(F2(";", x, y)) == Max(LeftWeight(x), LeftWeight(y)) + 2
  {
  }

  lemma ArrowWeights(p: Term, q: Term)
    ensures LeftWeight(F2("->", p, q)) == LeftWeight(p) + LeftWeight(q) + 5
    ensures DisjunctWeight(F2("->", p, q)) == LeftWeight(p) + GoalWeight(q) + 2
  {
  }

  lemma AtomWeights()
    ensures LeftWeight(Name("fail")) == 1 && GoalWeight(Name("fail")) == 3
    ensures LeftWeight(Name("true")) == 1 && GoalWeight(Name("true")) == 1
  {
  }

  lemma CallWeight(g: Term)
    ensures LeftWeight(F1("call", g)) == 1 && GoalWeight(F1("call", g)) == 3
    ensures DisjunctWeight(F1("call", g)) == 3
  {
  }

  /** `((A->T;B),C)` becomes `((A->(T,C));(B,C))`. */
  lemma IfThenElseDistributes(p: Term, t: Term, e: Term, c: Term)
    ensures GoalWeight(F2(";", F2("->", p, F2(",", t, c)), F2(",", e, c))) <
            LeftWeight(F2(";", F2("->", p, t), e)) + GoalWeight(c)
  {
    ConjunctionWeights(t, c);
    ConjunctionWeights(e, c);
    ArrowWeights(p, F2(",", t, c));
    DisjunctionWeight(F2("->", p, F2(",", t, c)), F2(",", e, c));
    IfThenElseWeight(F2("->", p, t), e);
  }

  /** `((A;B),C)` becomes `((A,C);(B,C))`. */
  lemma DisjunctionDistributes(x: Term, y: Term, c: Term)
    requires !Is(x, "->", 2)
    ensures GoalWeight(F2(";", F2(",", x, c), F2(",", y, c))) < LeftWeight(F2(";", x, y)) + GoalWeight(c)
  {
    ConjunctionWeights(x, c);
    ConjunctionWeights(y, c);
    DisjunctionWeight(F2(",", x, c), F2(",", y, c));
    PlainDisjunctionWeight(x, y);
  }

  /** `((A,B),C)` becomes `(A,(B,C))`. */
  lemma ConjunctionReassociates(x: Term, y: Term, c: Term)
    ensures GoalWeight(F2(",", x, F2(",", y, c))) < LeftWeight(F2(",", x, y)) + GoalWeight(c)
  {
    ConjunctionWeights(y, c);
    ConjunctionWeights(x, F2(",", y, c));
    ConjunctionWeights(x, y);
  }

  /** A goal first in a conjunction rewritten into a lighter one, the
    * continuation kept. */
  lemma LeftRewrite(a: Term, a': Term, b: Term)
    requires LeftWeight(a') < LeftWeight(a)
    ensures GoalWeight(F2(",", a', b)) < LeftWeight(a) + GoalWeight(b)
  {
    ConjunctionWeights(a', b);
  }

  /** `\+ A` and `once(A)` become an if-then-else of A. */
  lemma NegationRewrite(a: Term, x: Term, thenGoal: string, elseGoal: string)
    requires Is(a, "\\+", 1) || Is(a, "once", 1)
    requires x == a.args[0]
    requires thenGoal in {"fail", "true"} && elseGoal in {"fail", "true"}
    ensures LeftWeight(F2(";", F2("->", x, Name(thenGoal)), Name(elseGoal))) < LeftWeight(a)
  {
    AtomWeights();
    IfThenElseWeight(F2("->", x, Name(thenGoal)), Name(elseGoal));
  }

  /** `(A->T)` becomes `(A->T;fail)`. */
  lemma ArrowRewrite(a: Term)
    requires Is(a, "->", 2)
    ensures LeftWeight(F2(";", a, Name("fail"))) < LeftWeight(a)
  {
    AtomWeights();
    IfThenElseWeight(a, Name("fail"));
    assert LeftWeight(a) == LeftWeight(a.args[0]) + LeftWeight(a.args[1]) + 5;
  }

  /** `A \= B` becomes `\+ A = B`. */
  lemma NotUnifiableRewrite(a: Term)
    requires Is(a, "\\=", 2)
    ensures LeftWeight(F1("\\+", F2("=", a.args[0], a.args[1]))) < LeftWeight(a)
  {
  }

  /** `findall` and `bagof`/`setof` lower the goal followed by the code
    * that adds an answer and fails. */
  lemma CollectWeight(g: Term, obj: Atom)
    ensures GoalWeight(F2(",", g, F2(",", F1("$DET_NONE_OUT", CallMember(VarRef(obj), "add", [])), Name("fail")))) ==
            LeftWeight(g) + 4
  {
    AtomWeights();
    assert LeftWeight(F1("$DET_NONE_OUT", CallMember(VarRef(obj), "add", []))) == 1;
    ConjunctionWeights(F1("$DET_NONE_OUT", CallMember(VarRef(obj), "add", [])), Name("fail"));
    ConjunctionWeights(g, F2(",", F1("$DET_NONE_OUT", CallMember(VarRef(obj), "add", [])), Name("fail")));
  }

  // ---------------------------------------------------------------------
  // Lowering.

  /** `compileRuleBody(Goal, State, PseudoCode)`, with the state's counter
    * and `codeUsesYield` threaded through: the code for the goal, or the
    * error raised while compiling it. */
  function Lower(ctx: Context, g: Term, gen: Gen): (r: Lowered)
    ensures Advances(gen, r.gen)
    ensures Returning(ctx) ==> r.gen.usesYield == gen.usesYield
    decreases GoalWeight(g), DisjunctionLead(g), 4
  {
    if g.Var? then
      // A variable goal is called: (call(A), true).
      CallWeight(g);
      AtomWeights();
      ConjunctionWeights(F1("call", g), Name("true"));
      Lower(ctx, F2(",", F1("call", g), Name("true")), gen)
    else if Is(g, ",", 2) then
      LowerConjunction(ctx, g.args[0], g.args[1], gen)
    else if Is(g, ";", 2) then
      LowerDisjunction(ctx, g.args[0], g.args[1], gen)
    else if IsAtom(g, "!") then
      if DeterminismIs(ctx, "detNoneOut") then Lowered(Code([Name("return")]), gen)
      else if DeterminismIs(ctx, "semidetNoneOut") then Lowered(Code([Name("returntrue")]), gen)
      else Lowered(Code([Name("yieldtrue"), Name("yieldbreak")]), gen.(usesYield := true))
    else if Is(g, "$CUTIF", 1) then
      Lowered(Code([F1("breakBlock", g.args[0])]), gen)
    else if IsAtom(g, "true") then
      if DeterminismIs(ctx, "detNoneOut") then Lowered(Code([Name("return")]), gen)
      else if DeterminismIs(ctx, "semidetNoneOut") then Lowered(Code([Name("returntrue")]), gen)
      else Lowered(Code([Name("yieldfalse")]), gen.(usesYield := true))
    else
      // Any other goal G is compiled as (G, true).
      assert GoalWeight(g) == LeftWeight(g) + 2;
      AtomWeights();
      ConjunctionWeights(g, Name("true"));
      Lower(ctx, F2(",", g, Name("true")), gen)
  }

  /** `[ACode|BCode]` for a continuation B that lowered, or its error. */
  function Then(r: Lowered, prefix: seq<Term>): (s: Lowered)
    ensures s.gen == r.gen
  {
    if r.result.Threw? then r else Lowered(Code(prefix + r.result.items), r.gen)
  }

  /** The rules of `compileRuleBody` for a conjunction `(A, B)`. */
  function LowerConjunction(ctx: Context, a: Term, b: Term, gen: Gen): (r: Lowered)
    ensures Advances(gen, r.gen)
    ensures Returning(ctx) ==> r.gen.usesYield == gen.usesYield
    decreases LeftWeight(a) + GoalWeight(b), 0, 3
  {
    if a.Var? then
      Lower(ctx, F2(",", F1("call", a), b), gen)
    else
      match FunctorCall(ctx, a)
      case CallRaises(e) => Lowered(Threw(e), gen)
      case PlainCall(code) =>
        var rb := Lower(ctx, b, gen);
        if rb.result.Threw? then rb
        else if PragmaFor(ctx, a, "det") then Lowered(Code([code] + rb.result.items), rb.gen)
        else if PragmaFor(ctx, a, "semidet") then Lowered(Code([If(code, rb.result.items)]), rb.gen)
        else Lowered(Code([Foreach(code, rb.result.items)]), rb.gen)
      case NotACall =>
        LowerControl(ctx, a, b, gen)
  }

  /** The special forms that the rules rewrite into other goals. */
  predicate Rewritten(a: Term)
  {
    Is(a, "->", 2) || Is(a, "\\=", 2) || Is(a, "\\+", 1) || Is(a, "once", 1) || Is(a, "assert", 1)
  }

  /** The special forms that run a goal of their own or call the runtime. */
  predicate BuiltIn(a: Term)
  {
    Is(a, "findall", 3) || Is(a, "bagof", 3) || Is(a, "setof", 3) || Is(a, "catch", 3) ||
    Is(a, "call", 1) || Is(a, "current_predicate", 1) || Is(a, "asserta", 1) || Is(a, "assertz", 1)
  }

  /** The rules for a conjunction whose first goal is a special form. */
  function LowerControl(ctx: Context, a: Term, b: Term, gen: Gen): (r: Lowered)
    requires SpecialGoal(a)
    ensures Advances(gen, r.gen)
    ensures Returning(ctx) ==> r.gen.usesYield == gen.usesYield
    decreases LeftWeight(a) + GoalWeight(b), 0, 2
  {
    if Is(a, ";", 2) || Is(a, ",", 2) then LowerCompound(ctx, a, b, gen)
    else if Rewritten(a) then LowerRewritten(ctx, a, b, gen)
    else if BuiltIn(a) then LowerBuiltIn(ctx, a, b, gen)
    else if IsAtom(a, "!") then
      var rb := Lower(ctx, b, gen);
      rb.(result := AppendCode(rb.result, [Name("yieldbreak")]))
    else if Is(a, "$CUTIF", 1) then
      var rb := Lower(ctx, b, gen);
      rb.(result := AppendCode(rb.result, [F1("breakBlock", a.args[0])]))
    else if IsAtom(a, "fail") then
      Lowered(Code([]), gen)
    else if IsAtom(a, "true") then
      Lower(ctx, b, gen)
    else if Is(a, "is", 2) then
      match ctx.hooks.term(a.args[0])
      case Raises(e) => Lowered(Threw(e), gen)
      case Emitted(lhs) =>
        match ctx.hooks.expression(a.args[1])
        case Raises(e) => Lowered(Threw(e), gen)
        case Emitted(value) =>
          var rb := Lower(ctx, b, gen);
          if rb.result.Threw? then rb
          else Lowered(Code([Foreach(CallFunction("YP.unify", [lhs, value]), rb.result.items)]), rb.gen)
    else if Is(a, "$DET_NONE_OUT", 1) then
      Then(Lower(ctx, b, gen), [a.args[0]])
    else
      assert a.Compound? && |a.args| == 2 && BinaryExpressionConditional(a.name).Some?;
      match ctx.hooks.expression(a.args[0])
      case Raises(e) => Lowered(Threw(e), gen)
      case Emitted(x1) =>
        match ctx.hooks.expression(a.args[1])
        case Raises(e) => Lowered(Threw(e), gen)
        case Emitted(x2) =>
          var rb := Lower(ctx, b, gen);
          if rb.result.Threw? then rb
          else Lowered(Code([If(CallFunction(BinaryExpressionConditional(a.name).value, [x1, x2]), rb.result.items)]), rb.gen)
  }

  /** The rules that replace `(A, B)` by another goal and lower that. */
  function LowerRewritten(ctx: Context, a: Term, b: Term, gen: Gen): (r: Lowered)
    requires Rewritten(a)
    ensures Advances(gen, r.gen)
    ensures Returning(ctx) ==> r.gen.usesYield == gen.usesYield
    decreases LeftWeight(a) + GoalWeight(b), 0, 1
  {
    if Is(a, "\\+", 1) then
      LowerNegation(ctx, a, b, gen)
    else if Is(a, "once", 1) then
      var a' := F2(";", F2("->", a.args[0], Name("true")), Name("fail"));
      NegationRewrite(a, a.args[0], "true", "fail");
      LeftRewrite(a, a', b);
      Lower(ctx, F2(",", a', b), gen)
    else if Is(a, "->", 2) then
      var a' := F2(";", a, Name("fail"));
      ArrowRewrite(a);
      LeftRewrite(a, a', b);
      Lower(ctx, F2(",", a', b), gen)
    else if Is(a, "\\=", 2) then
      var a' := F1("\\+", F2("=", a.args[0], a.args[1]));
      NotUnifiableRewrite(a);
      LeftRewrite(a, a', b);
      Lower(ctx, F2(",", a', b), gen)
    else
      assert Is(a, "assert", 1);
      var a' := F1("assertz", a.args[0]);
      LeftRewrite(a, a', b);
      Lower(ctx, F2(",", a', b), gen)
  }

  /** The rules that distribute `B` over a disjunction `A` in `(A, B)`, or
    * reassociate a conjunction. */
  function LowerCompound(ctx: Context, a: Term, b: Term, gen: Gen): (r: Lowered)
    requires Is(a, ";", 2) || Is(a, ",", 2)
    ensures Advances(gen, r.gen)
    ensures Returning(ctx) ==> r.gen.usesYield == gen.usesYield
    decreases LeftWeight(a) + GoalWeight(b), 0, 1
  {
    if Is(a, ";", 2) && Is(a.args[0], "->", 2) then
      var p, t, e := a.args[0].args[0], a.args[0].args[1], a.args[1];
      IfThenElseDistributes(p, t, e, b);
      Lower(ctx, F2(";", F2("->", p, F2(",", t, b)), F2(",", e, b)), gen)
    else if Is(a, ";", 2) then
      DisjunctionDistributes(a.args[0], a.args[1], b);
      Lower(ctx, F2(";", F2(",", a.args[0], b), F2(",", a.args[1], b)), gen)
    else
      ConjunctionReassociates(a.args[0], a.args[1], b);
      Lower(ctx, F2(",", a.args[0], F2(",", a.args[1], b)), gen)
  }

  /** `(\+ A, B)`: a semidet call of A is tested with `if(not(...))`;
    * otherwise it becomes `((A -> fail ; true), B)`. */
  function LowerNegation(ctx: Context, a: Term, b: Term, gen: Gen): (r: Lowered)
    requires Is(a, "\\+", 1)
    ensures Advances(gen, r.gen)
    ensures Returning(ctx) ==> r.gen.usesYield == gen.usesYield
    decreases LeftWeight(a) + GoalWeight(b), 0, 0
  {
    var x := a.args[0];
    var call := if PragmaFor(ctx, x, "semidet") then FunctorCall(ctx, x) else NotACall;
    match call
    case CallRaises(e) => Lowered(Threw(e), gen)
    case PlainCall(code) =>
      var rb := Lower(ctx, b, gen);
      if rb.result.Threw? then rb else Lowered(Code([If(F1("not", code), rb.result.items)]), rb.gen)
    case NotACall =>
      var a' := F2(";", F2("->", x, Name("fail")), Name("true"));
      NegationRewrite(a, x, "fail", "true");
      LeftRewrite(a, a', b);
      Lower(ctx, F2(",", a', b), gen)
  }

  /** The rules for the collecting built-ins, `catch`, `call`,
    * `current_predicate` and the assertions. */
  function LowerBuiltIn(ctx: Context, a: Term, b: Term, gen: Gen): (r: Lowered)
    requires BuiltIn(a)
    ensures Advances(gen, r.gen)
    ensures Returning(ctx) ==> r.gen.usesYield == gen.usesYield
    decreases LeftWeight(a) + GoalWeight(b), 0, 1
  {
    if Is(a, "findall", 3) then
      LowerFindall(ctx, a.args[0], a.args[1], a.args[2], b, gen)
    else if Is(a, "bagof", 3) then
      CompileBagof(ctx, "result", a.args[0], a.args[1], a.args[2], b, gen)
    else if Is(a, "setof", 3) then
      CompileBagof(ctx, "resultSet", a.args[0], a.args[1], a.args[2], b, gen)
    else if Is(a, "catch", 3) then
      LowerCatch(ctx, a.args[0], a.args[1], a.args[2], b, gen)
    else
      match ctx.hooks.term(a.args[0])
      case Raises(e) => Lowered(Threw(e), gen)
      case Emitted(term) =>
        var rb := Lower(ctx, b, gen);
        if rb.result.Threw? then rb
        else if a.name.name == "call" then
          Lowered(Code([Foreach(CallFunction("YP.getIterator", [term, DeclaringClass]), rb.result.items)]), rb.gen)
        else if a.name.name == "current_predicate" then
          Lowered(Code([Foreach(CallFunction("YP.current_predicate", [term, DeclaringClass]), rb.result.items)]), rb.gen)
        else
          Lowered(Code([CallFunction("YP." + a.name.name, [term, DeclaringClass])] + rb.result.items), rb.gen)
  }

  /** Code followed by more statements, or the error. */
  function AppendCode(c: Compiled, tail: seq<Term>): (r: Compiled)
    ensures c.Threw? ==> r == c
    ensures c.Code? ==> r == Code(c.items + tail)
  {
    if c.Threw? then c else Code(c.items + tail)
  }

  /** `findall(Template, Goal, Bag), B`: declare a gensym'd
    * `FindallAnswers` of the template, lower `(Goal, $DET_NONE_OUT(add),
    * fail)`, then iterate over the result unified with Bag. */
  function LowerFindall(ctx: Context, template: Term, goal: Term, bag: Term, b: Term, gen: Gen): (r: Lowered)
    ensures Advances(gen, r.gen)
    ensures Returning(ctx) ==> r.gen.usesYield == gen.usesYield
    decreases LeftWeight(goal) + 5 + GoalWeight(b), 0, 0
  {
    match ctx.hooks.term(template)
    case Raises(e) => Lowered(Threw(e), gen)
    case Emitted(templateCode) =>
      var (answers, g1) := Gensym("findallAnswers", gen);
      CollectWeight(goal, answers);
      var collect := Lower(ctx, F2(",", goal, F2(",", F1("$DET_NONE_OUT", CallMember(VarRef(answers), "add", [])), Name("fail"))), g1);
      if collect.result.Threw? then collect
      else
        match ctx.hooks.term(bag)
        case Raises(e) => Lowered(Threw(e), collect.gen)
        case Emitted(bagCode) =>
          var rb := Lower(ctx, b, collect.gen);
          if rb.result.Threw? then rb
          else
            Lowered(Code([Declare("FindallAnswers", Sym(answers), [templateCode])] + collect.result.items +
                         [Foreach(CallMember(VarRef(answers), "result", [bagCode]), rb.result.items)]), rb.gen)
  }

  /** `unqualifiedGoal`: strip the `V^` prefixes of a bagof/setof goal; a
    * variable goal is called. */
  function UnqualifiedGoal(g: Term): (r: Term)
    ensures !Is(r, "^", 2)
    ensures LeftWeight(r) == UnqualifiedWeight(g)
  {
    if g.Var? then F1("call", g) else if Is(g, "^", 2) then UnqualifiedGoal(g.args[1]) else g
  }

  /** `compileBagof(ResultMethod, Template, Goal, Bag, B, State, Code)`:
    * the `findall` lowering with a `BagofAnswers` that also receives the
    * goal term, the `^` prefixes stripped from the goal that is run, and
    * `result` or `resultSet` as the method that gives the bag. */
  function CompileBagof(ctx: Context, resultMethod: string, template: Term, goal: Term, bag: Term, b: Term, gen: Gen): (r: Lowered)
    ensures Advances(gen, r.gen)
    ensures Returning(ctx) ==> r.gen.usesYield == gen.usesYield
    decreases UnqualifiedWeight(goal) + 5 + GoalWeight(b), 0, 0
  {
    match ctx.hooks.term(template)
    case Raises(e) => Lowered(Threw(e), gen)
    case Emitted(templateCode) =>
      match ctx.hooks.term(goal)
      case Raises(e) => Lowered(Threw(e), gen)
      case Emitted(goalCode) =>
        var unqualified := UnqualifiedGoal(goal);
        var (answers, g1) := Gensym("bagofAnswers", gen);
        CollectWeight(unqualified, answers);
        var collect := Lower(ctx, F2(",", unqualified, F2(",", F1("$DET_NONE_OUT", CallMember(VarRef(answers), "add", [])), Name("fail"))), g1);
        if collect.result.Threw? then collect
        else
          match ctx.hooks.term(bag)
          case Raises(e) => Lowered(Threw(e), collect.gen)
          case Emitted(bagCode) =>
            var rb := Lower(ctx, b, collect.gen);
            if rb.result.Threw? then rb
            else
              Lowered(Code([Declare("BagofAnswers", Sym(answers), [templateCode, goalCode])] + collect.result.items +
                           [Foreach(CallMember(VarRef(answers), resultMethod, [bagCode]), rb.result.items)]), rb.gen)
  }

  /** `catch(Goal, Catcher, Handler), B`: declare a gensym'd `Catch` of the
    * goal, run B for each of its answers, then for a caught exception that
    * unifies with Catcher run `(Handler, B)`. */
  function LowerCatch(ctx: Context, goal: Term, catcher: Term, handler: Term, b: Term, gen: Gen): (r: Lowered)
    ensures Advances(gen, r.gen)
    ensures Returning(ctx) ==> r.gen.usesYield == gen.usesYield
    decreases LeftWeight(handler) + 1 + GoalWeight(b), 0, 0
  {
    var (catchGoal, g1) := Gensym("catchGoal", gen);
    match ctx.hooks.term(goal)
    case Raises(e) => Lowered(Threw(e), g1)
    case Emitted(goalCode) =>
      match ctx.hooks.term(catcher)
      case Raises(e) => Lowered(Threw(e), g1)
      case Emitted(catcherCode) =>
        var rb := Lower(ctx, b, g1);
        if rb.result.Threw? then rb
        else
          var rh := Lower(ctx, F2(",", handler, b), rb.gen);
          if rh.result.Threw? then rh
          else
            Lowered(Code([Declare("Catch", Sym(catchGoal), [goalCode, DeclaringClass]),
                          Foreach(VarRef(catchGoal), rb.result.items),
                          Foreach(CallMember(VarRef(catchGoal), "unifyExceptionOrThrow", [catcherCode]), rh.result.items)]), rh.gen)
  }

  /** The rules of `compileRuleBody` for a disjunction `(A ; B)`. */
  function LowerDisjunction(ctx: Context, x: Term, y: Term, gen: Gen): (r: Lowered)
    ensures Advances(gen, r.gen)
    ensures Returning(ctx) ==> r.gen.usesYield == gen.usesYield
    decreases Max(DisjunctWeight(x), GoalWeight(y)) + 1, DisjunctWeight(x), 3
  {
    if x.Var? then
      CallWeight(x);
      DisjunctionWeight(F1("call", x), y);
      Lower(ctx, F2(";", F1("call", x), y), gen)
    else if Is(x, "->", 2) then
      var (cutLabel, g1) := Gensym("cutIf", gen);
      var p, t := x.args[0], x.args[1];
      var cut := F1("$CUTIF", Sym(cutLabel));
      assert LeftWeight(cut) == 1;
      ConjunctionWeights(cut, t);
      ConjunctionWeights(p, F2(",", cut, t));
      ArrowWeights(p, t);
      DisjunctionWeight(F2(",", p, F2(",", cut, t)), y);
      var rc := Lower(ctx, F2(";", F2(",", p, F2(",", F1("$CUTIF", Sym(cutLabel)), t)), y), g1);
      if rc.result.Threw? then rc
      else Lowered(Code([F2("breakableBlock", Sym(cutLabel), MakeList(rc.result.items))]), rc.gen)
    else if IsAtom(x, "!") then
      Lower(ctx, Name("!"), gen)
    else
      var rx := Lower(ctx, x, gen);
      if rx.result.Threw? then rx
      else
        var ry := Lower(ctx, y, rx.gen);
        if ry.result.Threw? then ry else Lowered(Code(rx.result.items + ry.result.items), ry.gen)
  }
}
