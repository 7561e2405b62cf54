// `CompilerState`: what the compiler keeps while it compiles one predicate:
// the determinism pragmas, the module recorded for each name/arity, the
// gensym counter, whether the code uses yield, the determinism of the
// function being compiled, and the names chosen for the rule's variables.
module CompilerStates {
  import opened Wrappers
  import opened Atoms
  import opened Terms
  import opened Equality
  import opened Unification
  import opened Variables
  import opened Lists
  import opened Text
  import opened Errors
  import opened Builtins
  import opened Indexing
  import opened Registry

  // ---------------------------------------------------------------------
  // Pragmas.

  /** `::(Type, out)`, exactly as stored (the mode is not dereferenced). */
  predicate IsOutMode(a: Term)
  {
    a.Compound? && a.name == Atom("::", None) && |a.args| == 2 && a.args[1] == Sym(Atom("out", None))
  }

  predicate NoneOut(args: seq<Term>)
  {
    forall i | 0 <= i < |args| :: !IsOutMode(args[i])
  }

  /** A stored pragma `[Name, Arity, Pred, Determinism]` that `_pred.match`
    * finds for the functor name and arity of a head with the given mode:
    * the stored values are ground, so matching is equality, except that an
    * unbound name unifies with any. */
  predicate PragmaApplies(p: Answer, name: Term, arity: nat, mode: string)
  {
    |p| == 4 && (name.Var? || p[0] == name) && p[1] == Int(arity) && p[3] == Sym(Atom(mode, None))
  }

  /** Some pragma for the head, in the mode, declares no `out` argument. */
  predicate HasNoneOutPragma(pragmas: seq<Answer>, h: Heap, head: Term, mode: string)
    requires Valid(h)
  {
    exists i | 0 <= i < |pragmas| ::
      PragmaApplies(pragmas[i], FunctorName(h, head), |FunctorArgs(h, head)|, mode) && NoneOut(ArgsOf(pragmas[i][2]))
  }

  /** The search in `isDetNoneOut` and `isSemidetNoneOut` as written runs
    * `for (var l1 in State._pred.match(...))`, which enumerates the
    * properties of the iterator object, of which there are none: the body
    * never runs and the answer is always false. */
  predicate HasNoneOutPragmaAsWritten(pragmas: seq<Answer>, h: Heap, head: Term, mode: string)
  {
    false
  }

  /** With a `det` pragma for f/1 whose argument is an input, the search as
    * written still answers no, where the evident intent answers yes. */
  lemma NoneOutSearchFinding(h: Heap)
    requires Valid(h)
    ensures var f := Atom("f", None);
      var pred := Compound(f, [Compound(Atom("::", None), [Sym(Atom("int", None)), Sym(Atom("in", None))])]);
      var pragmas := [[Sym(f), Int(1), pred, Sym(Atom("det", None))]];
      var head := Compound(f, [Var(0)]);
      !HasNoneOutPragmaAsWritten(pragmas, h, head, "det") && HasNoneOutPragma(pragmas, h, head, "det")
  {
    var f := Atom("f", None);
    var pred := Compound(f, [Compound(Atom("::", None), [Sym(Atom("int", None)), Sym(Atom("in", None))])]);
    var pragmas := [[Sym(f), Int(1), pred, Sym(Atom("det", None))]];
    var head := Compound(f, [Var(0)]);
    assert PragmaApplies(pragmas[0], FunctorName(h, head), |FunctorArgs(h, head)|, "det");
    assert NoneOut(ArgsOf(pragmas[0][2]));
  }

  /** The determinism `startFunction` settles on for a head. */
  function DeterminismFor(pragmas: seq<Answer>, h: Heap, head: Term): (r: Atom)
    requires Valid(h)
    ensures r.declaringModule.None? && r.name in {"detNoneOut", "semidetNoneOut", "nondet"}
    ensures r.name == "detNoneOut" <==> HasNoneOutPragma(pragmas, h, head, "det")
    ensures r.name == "semidetNoneOut" <==>
      !HasNoneOutPragma(pragmas, h, head, "det") && HasNoneOutPragma(pragmas, h, head, "semidet")
  {
    if HasNoneOutPragma(pragmas, h, head, "det") then Atom("detNoneOut", None)
    else if HasNoneOutPragma(pragmas, h, head, "semidet") then Atom("semidetNoneOut", None)
    else Atom("nondet", None)
  }

  // ---------------------------------------------------------------------
  // Variable names.

  /** `sameVariable`: both denote the same unbound variable. */
  predicate SameVariable(h: Heap, x: Term, y: Term)
    requires Valid(h)
  {
    Deref(h, x).Var? && Deref(h, y).Var? && Deref(h, x) == Deref(h, y)
  }

  /** The second argument a suggestion pair exposes as `arg2`, when it has
    * one (a two- or three-argument compound). */
  function PairVariable(pair: Term): Option<Term>
  {
    if pair.Compound? && (|pair.args| == 2 || |pair.args| == 3) then Some(pair.args[1]) else None
  }

  /** The class names of the runtime that a suggested name is kept clear
    * of. */
  function Renamed(s: Term): (r: Term)
    ensures r != Sym(Atom("Atom", None)) && r != Sym(Atom("Variable", None)) && r != Sym(Atom("Functor", None))
    ensures s != Sym(Atom("Atom", None)) && s != Sym(Atom("Variable", None)) && s != Sym(Atom("Functor", None)) ==> r == s
  {
    if s == Sym(Atom("Atom", None)) then Sym(Atom("Atom_1", None))
    else if s == Sym(Atom("Variable", None)) then Sym(Atom("Variable_1", None))
    else if s == Sym(Atom("Functor", None)) then Sym(Atom("Functor_1", None))
    else s
  }

  /** The suggestion the list (from the cell t on) holds for the variable
    * v: the name in the first pair whose second argument is v. */
  function Suggested(h: Heap, v: Term, t: Term): Option<Term>
    requires Valid(h)
    decreases Height(h, t), Size(t)
  {
    if IsCons(t) then
      HeightArgsAt(h, t.args, 1);
      var pair := Deref(h, t.args[0]);
      var second := PairVariable(pair);
      if second.Some? && SameVariable(h, v, second.value) then Some(Renamed(Deref(h, pair.args[0])))
      else Suggested(h, v, Deref(h, t.args[1]))
    else None
  }

  /** The name `makeVariableName` gives the k-th variable. */
  function DefaultName(k: nat): Term
  {
    Sym(Atom("x" + NatToString(k), None))
  }

  function VariableName(h: Heap, v: Term, suggestions: Term, k: nat): Term
    requires Valid(h)
  {
    match Suggested(h, v, Deref(h, suggestions))
    case Some(s) => s
    case None => DefaultName(k)
  }

  /** `Name = Var`. */
  function NameEntry(name: Term, v: Term): Term
  {
    Compound(Atom("=", None), [name, v])
  }

  /** The entries `newVariableNames` makes for the variables, numbering the
    * ones without a suggestion from 1. */
  function NamesFor(h: Heap, vars: seq<nat>, suggestions: Term): (r: seq<Term>)
    requires Valid(h)
    ensures |r| == |vars|
    ensures forall k | 0 <= k < |vars| :: r[k] == NameEntry(VariableName(h, Var(vars[k]), suggestions, k + 1), Var(vars[k]))
  {
    seq(|vars|, k requires 0 <= k < |vars| => NameEntry(VariableName(h, Var(vars[k]), suggestions, k + 1), Var(vars[k])))
  }

  /** The name the first entry for the variable gives, if any. */
  function NameIn(h: Heap, names: seq<Term>, v: Term): Option<Term>
    requires Valid(h)
  {
    if names == [] then None
    else
      var e := names[0];
      if e.Compound? && e.name == Atom("=", None) && |e.args| == 2 && SameVariable(h, v, e.args[1]) then Some(e.args[0])
      else NameIn(h, names[1..], v)
  }

  /** A base followed by different counts gives different names: the
    * names `gensym` hands out within one function are all distinct, and so
    * are the default names `x1`, `x2`, ... of different variables. */
  lemma NumberedNamesDiffer(base: string, j: nat, k: nat)
    requires j != k
    ensures base + NatToString(j) != base + NatToString(k)
    ensures DefaultName(j) != DefaultName(k)
  {
    NatToStringRoundTrip(j);
    NatToStringRoundTrip(k);
    assert (base + NatToString(j))[|base|..] == NatToString(j);
    assert (base + NatToString(k))[|base|..] == NatToString(k);
    assert ("x" + NatToString(j))[1..] == NatToString(j);
    assert ("x" + NatToString(k))[1..] == NatToString(k);
  }

  /** Every variable a term denotes is unbound. */
  lemma {:induction false} CanonVariablesUnbound(h: Heap, t: Term, v: nat)
    requires Valid(h) && v in VarList(Canon(h, t))
    ensures v !in h.cells
    decreases Height(h, t), Size(t)
  {
    var d := Deref(h, t);
    if d.Compound? {
      ArgsBelow(h, d.args);
      var cs := Canon(h, t).args;
      VarListArgsEach(cs, v);
      var i :| 0 <= i < |cs| && v in VarList(cs[i]);
      CanonVariablesUnbound(h, d.args[i], v);
    }
  }

  /** After `newVariableNames`, `getVariableName` finds the entry of every
    * variable of the rule, and the name is the one made for it. */
  lemma {:induction false} NamesCoverRule(h: Heap, rule: Term, suggestions: Term, k: nat)
    requires Valid(h) && k < |AddUniqueVariables(h, rule, [])|
    ensures var vars := AddUniqueVariables(h, rule, []);
      NameIn(h, NamesFor(h, vars, suggestions), Var(vars[k])) == Some(VariableName(h, Var(vars[k]), suggestions, k + 1))
  {
    var vars := AddUniqueVariables(h, rule, []);
    AddUniqueVariablesFacts(h, rule, []);
    forall j | 0 <= j < |vars| ensures vars[j] !in h.cells {
      CanonVariablesUnbound(h, rule, vars[j]);
    }
    NameAtPosition(h, vars, suggestions, 0, k);
  }

  /** The search from position i reaches the k-th entry, the first with its
    * variable. */
  lemma {:induction false} NameAtPosition(h: Heap, vars: seq<nat>, suggestions: Term, i: nat, k: nat)
    requires Valid(h) && i <= k < |vars| && NoDuplicates(vars)
    requires forall j | 0 <= j < |vars| :: vars[j] !in h.cells
    ensures NameIn(h, NamesFor(h, vars, suggestions)[i..], Var(vars[k])) == Some(VariableName(h, Var(vars[k]), suggestions, k + 1))
    decreases k - i
  {
    var names := NamesFor(h, vars, suggestions)[i..];
    assert names[0] == NameEntry(VariableName(h, Var(vars[i]), suggestions, i + 1), Var(vars[i]));
    if i < k {
      assert vars[i] != vars[k];
      assert !SameVariable(h, Var(vars[k]), Var(vars[i]));
      assert names[1..] == NamesFor(h, vars, suggestions)[i + 1..];
      NameAtPosition(h, vars, suggestions, i + 1, k);
    } else {
      assert SameVariable(h, Var(vars[k]), Var(vars[k]));
    }
  }

  // ---------------------------------------------------------------------
  // Modules by name and arity.

  /** `assertModuleForNameArity` keeps a module only for an atom name and a
    * numeric arity, and only when the module is an atom without a module
    * of its own; the key is the text `Name/Arity`, which the pair of name
    * text and arity determines. */
  predicate Recordable(h: Heap, name: Term, arity: Term, owner: Term)
    requires Valid(h)
  {
    var m := Deref(h, owner);
    m.Sym? && m.atom.declaringModule.None? && Deref(h, name).Sym? && Deref(h, arity).Int?
  }

  function ModuleKey(h: Heap, name: Term, arity: Term): (string, int)
    requires Valid(h) && Deref(h, name).Sym? && Deref(h, arity).Int?
  {
    (Deref(h, name).atom.name, Deref(h, arity).value)
  }

  /** `nameArityHasModule`: the recorded module for an atom name and a
    * numeric arity is the given one. */
  predicate HasModule(table: map<(string, int), Atom>, h: Heap, name: Term, arity: Term, owner: Term)
    requires Valid(h)
  {
    Deref(h, name).Sym? && Deref(h, arity).Int? &&
    ModuleKey(h, name, arity) in table && Sym(table[ModuleKey(h, name, arity)]) == Deref(h, owner)
  }

  /** A recorded module is found again, and a later record replaces the
    * module of its name and arity, and only that one. */
  lemma RecordThenFind(table: map<(string, int), Atom>, h: Heap, name: Term, arity: Term, owner: Term, other: Term)
    requires Valid(h) && Recordable(h, name, arity, owner)
    ensures var t := table[ModuleKey(h, name, arity) := Deref(h, owner).atom];
      HasModule(t, h, name, arity, owner) &&
      (Deref(h, other) != Deref(h, owner) ==> !HasModule(t, h, name, arity, other)) &&
      forall k | k in table && k != ModuleKey(h, name, arity) :: k in t && t[k] == table[k]
  {
  }

  // ---------------------------------------------------------------------
  // The state.

  class CompilerState {
    /** `_pred`: the answers of the pragma table, each
      * `[Name, Arity, Pred, Determinism]`. */
    var pragmas: seq<Answer>
    /** `_moduleForNameArity`. */
    var moduleForNameArity: map<(string, int), Atom>
    var gensymCounter: nat
    var useFinalCutCode: bool
    /** Unset until `startFunction`. */
    var determinism: Option<Atom>
    var codeUsesYield: bool
    var variableNames: seq<Term>

    ghost predicate Consistent()
      reads this
    {
      forall i | 0 <= i < |pragmas| :: Stored(4, pragmas[i])
    }

    constructor ()
      ensures Consistent() && pragmas == [] && moduleForNameArity == map[]
      ensures gensymCounter == 0 && !useFinalCutCode && determinism.None? && !codeUsesYield && variableNames == []
    {
      pragmas := [];
      moduleForNameArity := map[];
      gensymCounter := 0;
      useFinalCutCode := false;
      determinism := None;
      codeUsesYield := false;
      variableNames := [];
    }

    /** `assertPred`: stores `[Name, Arity, Pred, Determinism]` for the
      * pragma term; a pragma with unbound variables is refused (the table
      * throws). */
    method AssertPred(h: Heap, pred: Term, det: Term) returns (r: AddResult)
      requires Consistent() && Valid(h)
      modifies this
      ensures Consistent()
      ensures var values := [FunctorName(h, pred), Int(|FunctorArgs(h, pred)|), pred, Deref(h, det)];
        r == (if AllGround(h, values) then Added else NotGround) &&
        pragmas == old(pragmas) + if r == Added then [Copies(h, values)] else []
      ensures moduleForNameArity == old(moduleForNameArity) && gensymCounter == old(gensymCounter)
      ensures useFinalCutCode == old(useFinalCutCode) && determinism == old(determinism)
      ensures codeUsesYield == old(codeUsesYield) && variableNames == old(variableNames)
    {
      var values := [FunctorName(h, pred), Int(|FunctorArgs(h, pred)|), pred, Deref(h, det)];
      if !AllGround(h, values) {
        return NotGround;
      }
      CopiesStored(h, values);
      pragmas := pragmas + [Copies(h, values)];
      r := Added;
    }

    /** `assertModuleForNameArity`. */
    method AssertModuleForNameArity(h: Heap, name: Term, arity: Term, owner: Term)
      requires Valid(h)
      modifies this
      ensures moduleForNameArity == if Recordable(h, name, arity, owner)
        then old(moduleForNameArity)[ModuleKey(h, name, arity) := Deref(h, owner).atom]
        else old(moduleForNameArity)
      ensures pragmas == old(pragmas) && gensymCounter == old(gensymCounter)
      ensures useFinalCutCode == old(useFinalCutCode) && determinism == old(determinism)
      ensures codeUsesYield == old(codeUsesYield) && variableNames == old(variableNames)
    {
      if Recordable(h, name, arity, owner) {
        moduleForNameArity := moduleForNameArity[ModuleKey(h, name, arity) := Deref(h, owner).atom];
      }
    }

    /** `nameArityHasModule`. */
    function NameArityHasModule(h: Heap, name: Term, arity: Term, owner: Term): (r: bool)
      requires Valid(h)
      reads this
      ensures r ==> Deref(h, name).Sym? && Deref(h, arity).Int? && Deref(h, owner).Sym?
      ensures r <==> HasModule(moduleForNameArity, h, name, arity, owner)
    {
      var n := Deref(h, name);
      var a := Deref(h, arity);
      if n.Sym? && a.Int? then
        var key := (n.atom.name, a.value);
        key in moduleForNameArity && Sym(moduleForNameArity[key]) == Deref(h, owner)
      else false
    }

    /** `isNoneOut`: no argument is `::(_, out)`. */
    static method IsNoneOut(args: seq<Term>) returns (r: bool)
      ensures r <==> NoneOut(args)
    {
      var i := 0;
      while i < |args|
        invariant 0 <= i <= |args| && forall j | 0 <= j < i :: !IsOutMode(args[j])
      {
        if IsOutMode(args[i]) {
          return false;
        }
        i := i + 1;
      }
      return true;
    }

    /** The search of `isDetNoneOut` and `isSemidetNoneOut`: each pragma the
      * match finds is asked whether it declares no `out` argument. */
    method NoneOutPragma(h: Heap, head: Term, mode: string) returns (r: bool)
      requires Valid(h)
      ensures r <==> HasNoneOutPragma(pragmas, h, head, mode)
    {
      var name := FunctorName(h, head);
      var arity := |FunctorArgs(h, head)|;
      var i := 0;
      while i < |pragmas|
        invariant 0 <= i <= |pragmas|
        invariant forall j | 0 <= j < i :: !(PragmaApplies(pragmas[j], name, arity, mode) && NoneOut(ArgsOf(pragmas[j][2])))
      {
        if PragmaApplies(pragmas[i], name, arity, mode) {
          var none := IsNoneOut(ArgsOf(pragmas[i][2]));
          if none {
            return true;
          }
        }
        i := i + 1;
      }
      return false;
    }

    /** `isDetNoneOut`. */
    method IsDetNoneOut(h: Heap, head: Term) returns (r: bool)
      requires Valid(h)
      ensures r <==> HasNoneOutPragma(pragmas, h, head, "det")
    {
      r := NoneOutPragma(h, head, "det");
    }

    /** `isSemidetNoneOut`. */
    method IsSemidetNoneOut(h: Heap, head: Term) returns (r: bool)
      requires Valid(h)
      ensures r <==> HasNoneOutPragma(pragmas, h, head, "semidet")
    {
      r := NoneOutPragma(h, head, "semidet");
    }

    /** `startFunction`: resets the counter and both flags and settles the
      * determinism of the head. */
    method StartFunction(h: Heap, head: Term)
      requires Valid(h)
      modifies this
      ensures gensymCounter == 0 && !codeUsesYield && !useFinalCutCode
      ensures determinism == Some(DeterminismFor(pragmas, h, head))
      ensures pragmas == old(pragmas) && moduleForNameArity == old(moduleForNameArity)
      ensures variableNames == old(variableNames)
    {
      gensymCounter := 0;
      useFinalCutCode := false;
      codeUsesYield := false;
      var det := IsDetNoneOut(h, head);
      if det {
        determinism := Some(Atom("detNoneOut", None));
      } else {
        var semidet := IsSemidetNoneOut(h, head);
        if semidet {
          determinism := Some(Atom("semidetNoneOut", None));
        } else {
          determinism := Some(Atom("nondet", None));
        }
      }
    }

    /** `setCodeUsesYield`. */
    method SetCodeUsesYield()
      modifies this
      ensures codeUsesYield
      ensures pragmas == old(pragmas) && moduleForNameArity == old(moduleForNameArity)
      ensures gensymCounter == old(gensymCounter) && useFinalCutCode == old(useFinalCutCode)
      ensures determinism == old(determinism) && variableNames == old(variableNames)
    {
      codeUsesYield := true;
    }

    /** `determinismEquals`: the determinism is the atom the term denotes. */
    function DeterminismEquals(h: Heap, t: Term): (r: bool)
      requires Valid(h)
      reads this
      ensures r <==> determinism.Some? && TermEqual(h, Sym(determinism.value), t)
    {
      determinism.Some? && TermEqual(h, Sym(determinism.value), t)
    }

    /** `gensym(Base)`: the base followed by the counter, counted up first,
      * so the names within one function are Base1, Base2, ... */
    method Gensym(base: Atom) returns (symbol: Atom)
      modifies this
      ensures gensymCounter == old(gensymCounter) + 1
      ensures symbol == Atom(base.name + NatToString(gensymCounter), None)
      ensures pragmas == old(pragmas) && moduleForNameArity == old(moduleForNameArity)
      ensures useFinalCutCode == old(useFinalCutCode) && determinism == old(determinism)
      ensures codeUsesYield == old(codeUsesYield) && variableNames == old(variableNames)
    {
      gensymCounter := gensymCounter + 1;
      symbol := Atom(base.name + NatToString(gensymCounter), None);
    }

    /** `makeVariableName`: the suggestion for the variable, kept clear of
      * the runtime's class names, or `x` and the number. */
    static method MakeVariableName(h: Heap, v: Term, suggestions: Term, xCounter: nat) returns (name: Term)
      requires Valid(h)
      ensures name == VariableName(h, v, suggestions, xCounter)
    {
      var element := Deref(h, suggestions);
      while IsCons(element)
        invariant Suggested(h, v, element) == Suggested(h, v, Deref(h, suggestions))
        decreases Height(h, element), Size(element)
      {
        HeightArgsAt(h, element.args, 1);
        var pair := Deref(h, element.args[0]);
        var second := PairVariable(pair);
        if second.Some? && SameVariable(h, v, second.value) {
          return Renamed(Deref(h, pair.args[0]));
        }
        element := Deref(h, element.args[1]);
      }
      return DefaultName(xCounter);
    }

    /** `newVariableNames`: one `Name = Var` entry per distinct unbound
      * variable of the rule, in order of first occurrence. */
    method NewVariableNames(h: Heap, rule: Term, suggestions: Term)
      requires Valid(h)
      modifies this
      ensures variableNames == NamesFor(h, AddUniqueVariables(h, rule, []), suggestions)
      ensures pragmas == old(pragmas) && moduleForNameArity == old(moduleForNameArity)
      ensures gensymCounter == old(gensymCounter) && useFinalCutCode == old(useFinalCutCode)
      ensures determinism == old(determinism) && codeUsesYield == old(codeUsesYield)
    {
      var vars := AddUniqueVariables(h, rule, []);
      var names := [];
      var k := 0;
      while k < |vars|
        invariant 0 <= k <= |vars|
        invariant names == NamesFor(h, vars[..k], suggestions)
        modifies {}
      {
        var name := MakeVariableName(h, Var(vars[k]), suggestions, k + 1);
        names := names + [NameEntry(name, Var(vars[k]))];
        k := k + 1;
      }
      assert vars[..k] == vars;
      variableNames := names;
    }

    /** `getVariableName`: unifies the result with the name of the
      * variable's entry; a variable without one raises. */
    method GetVariableName(h: Heap, v: Term, result: Term) returns (r: Outcome)
      requires Valid(h) && InScope(h.next, result)
      requires forall i | 0 <= i < |variableNames| :: InScope(h.next, variableNames[i])
      ensures NameIn(h, variableNames, v).None? ==> r == Raised(Name("Can't find entry in _variableNames"))
      ensures NameIn(h, variableNames, v).Some? ==> (InScope(h.next, NameIn(h, variableNames, v).value) &&
        r == Solutions(UnifySolutions(h, result, NameIn(h, variableNames, v).value)))
    {
      var i := 0;
      while i < |variableNames|
        invariant 0 <= i <= |variableNames|
        invariant NameIn(h, variableNames, v) == NameIn(h, variableNames[i..], v)
      {
        var e := variableNames[i];
        assert variableNames[i..][0] == e && variableNames[i..][1..] == variableNames[i + 1..];
        if e.Compound? && e.name == Atom("=", None) && |e.args| == 2 && SameVariable(h, v, e.args[1]) {
          InScopeArgsAt(h.next, e.args, 0);
          return Solutions(UnifySolutions(h, result, e.args[0]));
        }
        i := i + 1;
      }
      return Raised(Name("Can't find entry in _variableNames"));
    }
  }
}
