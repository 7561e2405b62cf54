// The term-inspection built-ins of `YP`: `functor/3`, `=../2` (`univ`),
// `arg/3` and `copy_term/2`, with `getFunctorName`/`getFunctorArgs` and the
// type tests they rely on.
module Builtins {
  import opened Wrappers
  import opened Atoms
  import opened Terms
  import opened Equality
  import opened Unification
  import opened Lists
  import opened Copying
  import opened Errors
  import opened Binding
  import opened Variables

  /** `YP.MAX_ARITY`. */
  const MAX_ARITY := 255

  /** `YP.getFunctorName`: the name of a compound, and any other value
    * itself. */
  function FunctorName(h: Heap, t: Term): Term
    requires Valid(h)
  {
    var d := Deref(h, t);
    if d.Compound? then Sym(d.name) else d
  }

  /** `YP.getFunctorArgs`: the arguments of a compound, and none for any
    * other value. */
  function FunctorArgs(h: Heap, t: Term): seq<Term>
    requires Valid(h)
  {
    var d := Deref(h, t);
    if d.Compound? then d.args else []
  }

  /** `YP.atomic`: an atom or a number (a host string is neither). */
  predicate Atomic(d: Term)
  {
    d.Sym? || d.Int?
  }

  /** What the exception keeps of a culprit: its value with the bindings in
    * force substituted (`PrologException` stores a copy). */
  function Culprit(h: Heap, t: Term): Term
    requires Valid(h)
  {
    Resolve(h, t)
  }

  /** The arguments `new Variable()` n times gives, from the counter lo. */
  function FreshArgs(lo: nat, n: nat): (args: seq<Term>)
    ensures |args| == n && forall i :: 0 <= i < n ==> args[i] == Var(lo + i)
  {
    seq(n, i requires 0 <= i < n => Var(lo + i))
  }

  lemma FreshArgsInScope(h: Heap, n: nat)
    requires Valid(h)
    ensures InScope(NewVariables(h, n).0.next, Compound(NIL, FreshArgs(h.next, n)))
  {
    var args := FreshArgs(h.next, n);
    InScopeArgsAll(h.next + n, args);
  }

  lemma FreshArgsSnoc(lo: nat, n: nat)
    ensures FreshArgs(lo, n + 1) == FreshArgs(lo, n) + [Var(lo + n)]
  {
  }

  lemma NewVariablesSnoc(h: Heap, n: nat)
    requires Valid(h)
    ensures NewVariables(h, n + 1).0 == NewVariable(NewVariables(h, n).0).0
    ensures NewVariable(NewVariables(h, n).0).1 == h.next + n
  {
  }

  /** Unifying t with a compound of n fresh variables named f. */
  function BuildSolutions(h: Heap, t: Term, f: Atom, n: nat): seq<Heap>
    requires Valid(h) && InScope(h.next, t)
  {
    FreshArgsInScope(h, n);
    InScopeMonotone(h.next, h.next + n, t);
    UnifySolutions(NewVariables(h, n).0, t, Compound(f, FreshArgs(h.next, n)))
  }

  /** The loop that fills `args` with fresh variables. */
  method FreshVariables(h: Heap, n: nat) returns (h': Heap, args: seq<Term>)
    requires Valid(h)
    ensures h' == NewVariables(h, n).0 && args == FreshArgs(h.next, n)
  {
    h' := h;
    args := [];
    var i := 0;
    while i < n
      invariant 0 <= i <= n
      invariant h' == NewVariables(h, i).0 && args == FreshArgs(h.next, i)
    {
      var (h2, v) := NewVariable(h');
      FreshArgsSnoc(h.next, i);
      NewVariablesSnoc(h, i);
      h', args := h2, args + [Var(v)];
      i := i + 1;
    }
  }

  // ---------------------------------------------------------------------
  // functor/3.

  /** `YP.functor(Term, FunctorName, Arity)`. A bound Term is taken apart:
    * FunctorName is unified with its name (the term itself when it is not a
    * compound), then Arity with its number of arguments. An unbound Term is
    * built: from an atomic name and Arity 0 it is unified with the name,
    * from an atom and an Arity in 1..255 with a compound of that many fresh
    * variables; the other cases raise the errors below, in this order. */
  method Functor(h: Heap, term: Term, name: Term, arity: Term) returns (r: Outcome)
    requires Valid(h) && InScope(h.next, term) && InScope(h.next, name) && InScope(h.next, arity)
    ensures !Deref(h, term).Var? ==>
      r == Solutions(UnifyPairs(h, [name, arity], [FunctorName(h, term), Int(|FunctorArgs(h, term)|)]))
    ensures Deref(h, term).Var? && (Deref(h, name).Var? || Deref(h, arity).Var?) ==>
      r == Raised(InstantiationError)
    ensures Deref(h, term).Var? && !Deref(h, name).Var? && !Deref(h, arity).Var? ==>
      var n, a := Deref(h, name), Deref(h, arity);
      if !a.Int? then r == Raised(TypeError("integer", Culprit(h, a)))
      else if !Atomic(n) then r == Raised(TypeError("atomic", Culprit(h, n)))
      else if a.value < 0 then r == Raised(DomainError("not_less_than_zero", a))
      else if a.value == 0 then r == Solutions(UnifySolutions(h, term, n))
      else if a.value > MAX_ARITY then r == Raised(RepresentationError("max_arity"))
      else if !n.Sym? then r == Raised(TypeError("atom", n))
      else r == Solutions(BuildSolutions(h, term, n.atom, a.value))
  {
    var t, n, a := Deref(h, term), Deref(h, name), Deref(h, arity);
    if !t.Var? {
      return Solutions(UnifyPairs(h, [name, arity], [FunctorName(h, term), Int(|FunctorArgs(h, term)|)]));
    }
    if n.Var? || a.Var? {
      return Raised(InstantiationError);
    }
    if !a.Int? {
      return Raised(TypeError("integer", Culprit(h, a)));
    }
    if !Atomic(n) {
      return Raised(TypeError("atomic", Culprit(h, n)));
    }
    if a.value < 0 {
      return Raised(DomainError("not_less_than_zero", a));
    }
    if a.value == 0 {
      return Solutions(UnifySolutions(h, term, n));
    }
    if a.value > MAX_ARITY {
      return Raised(RepresentationError("max_arity"));
    }
    if !n.Sym? {
      return Raised(TypeError("atom", n));
    }
    var h', args := FreshVariables(h, a.value);
    FreshArgsInScope(h, a.value);
    InScopeMonotone(h.next, h'.next, term);
    r := Solutions(UnifySolutions(h', term, Compound(n.atom, args)));
    assert r == Solutions(BuildSolutions(h, term, n.atom, a.value));
  }

  /** A term equal to a compound is a compound of an equal name and the same
    * number of arguments; one equal to an atom or a number is that value. */
  lemma TermEqualShape(h: Heap, x: Term, y: Term)
    requires Valid(h) && TermEqual(h, x, y)
    ensures Deref(h, y).Compound? ==>
      Deref(h, x).Compound? && Equals(Deref(h, x).name, Deref(h, y).name) &&
      |Deref(h, x).args| == |Deref(h, y).args|
    ensures Deref(h, y).Sym? ==> Deref(h, x).Sym? && Equals(Deref(h, x).atom, Deref(h, y).atom)
    ensures Deref(h, y).Int? || Deref(h, y).Str? ==> Deref(h, x) == Deref(h, y)
  {
  }

  /** After functor/3 builds an unbound Term, Term is a compound of the
    * given name and arity, which functor/3 reads back. */
  lemma FunctorBuildReadsBack(h: Heap, term: Term, f: Atom, n: nat)
    requires Valid(h) && InScope(h.next, term)
    ensures forall k | 0 <= k < |BuildSolutions(h, term, f, n)| ::
      var s := BuildSolutions(h, term, f, n)[k];
      Deref(s, term).Compound? && Equals(Deref(s, term).name, f) &&
      FunctorName(s, term) == Sym(Deref(s, term).name) && |FunctorArgs(s, term)| == n
  {
    FreshArgsInScope(h, n);
    InScopeMonotone(h.next, h.next + n, term);
    var h1 := NewVariables(h, n).0;
    var c := Compound(f, FreshArgs(h.next, n));
    var ss := UnifySolutions(h1, term, c);
    assert ss == BuildSolutions(h, term, f, n);
    forall k | 0 <= k < |ss|
      ensures Deref(ss[k], term).Compound? && Equals(Deref(ss[k], term).name, f) && |Deref(ss[k], term).args| == n
    {
      TermEqualShape(ss[k], term, c);
    }
  }

  /** Taking a compound apart with functor/3 gives an atom equal to its name
    * and its arity, which are what functor/3 needs to build a term again. */
  lemma FunctorDecomposeGivesBuildArguments(h: Heap, term: Term, name: Term, arity: Term, s: Heap)
    requires Valid(h) && InScope(h.next, term) && InScope(h.next, name) && InScope(h.next, arity)
    requires Deref(h, term).Compound?
    requires s in UnifyPairs(h, [name, arity], [FunctorName(h, term), Int(|FunctorArgs(h, term)|)])
    ensures Deref(s, name).Sym? && Equals(Deref(s, name).atom, Deref(h, term).name)
    ensures Deref(s, arity) == Int(|Deref(h, term).args|)
  {
    var pairs := [name, arity];
    var values := [FunctorName(h, term), Int(|FunctorArgs(h, term)|)];
    assert TermEqual(s, pairs[0], values[0]) && TermEqual(s, pairs[1], values[1]);
    TermEqualShape(s, name, values[0]);
    TermEqualShape(s, arity, values[1]);
  }

  // ---------------------------------------------------------------------
  // =../2.

  /** The list a bound term decomposes into: its name, then its arguments
    * (an atom or a number alone for any other value). */
  function UnivList(h: Heap, t: Term): Term
    requires Valid(h)
  {
    Cons(FunctorName(h, t), MakeList(FunctorArgs(h, t)))
  }

  lemma UnivListInScope(h: Heap, t: Term)
    requires Valid(h) && InScope(h.next, t)
    ensures InScope(h.next, UnivList(h, t))
  {
    var d := Deref(h, t);
    var xs := FunctorArgs(h, t);
    forall i | 0 <= i < |xs| ensures InScope(h.next, xs[i]) {
      InScopeArgsAt(h.next, xs, i);
    }
    MakeListInScope(h.next, xs);
    InScopeArgsAll(h.next, [FunctorName(h, t), MakeList(xs)]);
  }

  /** `YP.univ(Term, List)`. A bound Term is unified with its decomposition.
    * For an unbound Term, List is unified with `[Name|ArgList]` for fresh
    * Name and ArgList; then an ArgList that is not a list raises
    * `type_error(list, ArgList)`, and an empty one unifies Term with Name
    * (even when Name is not an atom); with more than 255 arguments or a
    * Name that is not an atom an error is raised; otherwise Term is unified
    * with the compound of Name and the arguments. */
  function Univ(h: Heap, term: Term, list: Term): (r: Outcome)
    requires Valid(h) && InScope(h.next, term) && InScope(h.next, list)
    ensures !Deref(h, term).Var? ==> (r.Solutions? && |r.heaps| <= 1 &&
      forall k | 0 <= k < |r.heaps| :: Valid(r.heaps[k]) && TermEqual(r.heaps[k], UnivList(h, term), list))
  {
    if !Deref(h, term).Var? then
      UnivListInScope(h, term);
      Solutions(UnifySolutions(h, UnivList(h, term), list))
    else
      var (h1, vs) := NewVariables(h, 2);
      var nameVar, argVar := Var(vs[0]), Var(vs[1]);
      InScopeMonotone(h.next, h1.next, list);
      InScopeMonotone(h.next, h1.next, term);
      assert vs[0] == h.next && vs[1] == h.next + 1;
      InScopeArgsAll(h1.next, [nameVar, argVar]);
      match Unify(h1, Cons(nameVar, argVar), list)
      case None => Solutions([])
      case Some(h2) =>
        match ToArray(h2, argVar)
        case Unbound => Raised(InstantiationError)
        case NotAList => Raised(TypeError("list", Culprit(h2, argVar)))
        case Items(args) =>
          if |args| == 0 then Solutions(UnifySolutions(h2, term, nameVar))
          else if |args| > MAX_ARITY then Raised(RepresentationError("max_arity"))
          else if !Deref(h2, nameVar).Sym? then Raised(TypeError("atom", Culprit(h2, nameVar)))
          else
            ToArrayInScope(h2, argVar);
            InScopeArgsAll(h2.next, args);
            Solutions(UnifySolutions(h2, term, Compound(Deref(h2, nameVar).atom, args)))
  }
  /** The decomposition of a bound term reads back as its name followed by
    * its arguments, and those items rebuild the term: a compound from the
    * name and the arguments, an atomic value as the one item. */
  lemma UnivListReadsBack(h: Heap, t: Term)
    requires Valid(h) && !Deref(h, t).Var?
    ensures ToArray(h, UnivList(h, t)) == Items([FunctorName(h, t)] + FunctorArgs(h, t))
    ensures var items := [FunctorName(h, t)] + FunctorArgs(h, t);
      if Deref(h, t).Compound? then items[0].Sym? && Compound(items[0].atom, items[1..]) == Deref(h, t)
      else items == [Deref(h, t)]
  {
    var args := FunctorArgs(h, t);
    var l := UnivList(h, t);
    WalkMakeList(h, args);
    assert Deref(h, l.args[1]) == MakeList(args);
    assert ([FunctorName(h, t)] + args)[1..] == args;
  }

  /** Composing with =..: for an unbound Term and the list `[a|Args]` of one
    * to 255 arguments, the two fresh helper variables are bound to `a` and
    * to the argument list and nothing else is bound; then Term is unified
    * with the compound `a(Args...)`. */
  lemma UnivComposes(h: Heap, term: Term, a: Atom, args: seq<Term>)
    requires Valid(h) && InScope(h.next, term) && Deref(h, term).Var?
    requires 1 <= |args| <= MAX_ARITY && forall i :: 0 <= i < |args| ==> InScope(h.next, args[i])
    ensures InScope(h.next, Cons(Sym(a), MakeList(args)))
    ensures exists h3: Heap ::
      Valid(h3) && h3.next == h.next + 2 &&
      h3.cells == h.cells[h.next := Sym(a)][h.next + 1 := MakeList(args)] &&
      InScope(h3.next, term) && InScope(h3.next, Compound(a, args)) &&
      Univ(h, term, Cons(Sym(a), MakeList(args))) == Solutions(UnifySolutions(h3, term, Compound(a, args)))
  {
    var h3, tail := BindHelpers(h, a, args);
    UnivAfterHelpers(h, term, a, args, h3, tail);
  }

  lemma UnivAfterHelpers(h: Heap, term: Term, a: Atom, args: seq<Term>, h3: Heap, tail: Term)
    requires Valid(h) && InScope(h.next, term) && Deref(h, term).Var?
    requires 1 <= |args| <= MAX_ARITY && forall i :: 0 <= i < |args| ==> InScope(h.next, args[i])
    requires tail == MakeList(args)
    requires InScope(h.next, Cons(Sym(a), tail)) && InScope(h.next + 2, Cons(Sym(a), tail))
    requires InScope(h.next + 2, Cons(Var(h.next), Var(h.next + 1)))
    requires Unify(NewVariables(h, 2).0, Cons(Var(h.next), Var(h.next + 1)), Cons(Sym(a), tail)) == Some(h3)
    requires Valid(h3) && h3.next == h.next + 2
    requires h3.cells == h.cells[h.next := Sym(a)][h.next + 1 := tail]
    ensures InScope(h3.next, term) && InScope(h3.next, Compound(a, args))
    ensures Univ(h, term, Cons(Sym(a), tail)) == Solutions(UnifySolutions(h3, term, Compound(a, args)))
  {
    ReadHelpers(h3, h.next, a, args);
    InScopeArgsMonotone(h.next, h3.next, args) by { InScopeArgsAll(h.next, args); }
    InScopeMonotone(h.next, h3.next, term);
    UnivOfVariable(h, term, Cons(Sym(a), tail), h3, a, args);
  }

  /** Unifying `[Name|ArgList]`, for the two fresh helper variables, with the
    * list `[a|Args]` binds Name to `a` and ArgList to the list of Args. */
  lemma BindHelpers(h: Heap, a: Atom, args: seq<Term>) returns (h3: Heap, tail: Term)
    requires Valid(h) && forall i :: 0 <= i < |args| ==> InScope(h.next, args[i])
    ensures tail == MakeList(args)
    ensures InScope(h.next, Cons(Sym(a), tail)) && InScope(h.next + 2, Cons(Sym(a), tail))
    ensures InScope(h.next + 2, Cons(Var(h.next), Var(h.next + 1)))
    ensures Unify(NewVariables(h, 2).0, Cons(Var(h.next), Var(h.next + 1)), Cons(Sym(a), tail)) == Some(h3)
    ensures Valid(h3) && h3.next == h.next + 2
    ensures h3.cells == h.cells[h.next := Sym(a)][h.next + 1 := tail]
  {
    tail := MakeList(args);
    MakeListInScope(h.next, args);
    InScopePair(h.next, Sym(a), tail);
    var g := NewVariables(h, 2).0;
    BoundBelow(h, g, h.next);
    h3 := UnifyFreshPair(g, h.next, a, tail);
    CellsUpdatedTwice(h, g, h3, h.next, Sym(a), h.next + 1, tail);
    InScopeMonotone(h.next, h3.next, Cons(Sym(a), tail));
  }

  lemma DerefBoundTo(h: Heap, v: nat, t: Term)
    requires Valid(h) && v in h.cells && h.cells[v] == t && !t.Var?
    ensures Deref(h, Var(v)) == t
  {
  }

  lemma ReadHelpers(h3: Heap, n: nat, a: Atom, args: seq<Term>)
    requires Valid(h3) && n in h3.cells && n + 1 in h3.cells
    requires h3.cells[n] == Sym(a) && h3.cells[n + 1] == MakeList(args)
    ensures ToArray(h3, Var(n + 1)) == Items(args) && Deref(h3, Var(n)) == Sym(a)
  {
    DerefBoundTo(h3, n, Sym(a));
    DerefBoundTo(h3, n + 1, MakeList(args));
    WalkMakeList(h3, args);
  }

  /** Every binding of h is of a variable below n to a value in scope for n. */
  predicate BindingsBelow(h: Heap, n: nat)
  {
    forall u | u in h.cells :: u < n && InScope(n, h.cells[u])
  }

  lemma BoundBelow(h: Heap, h1: Heap, n: nat)
    requires Valid(h) && h1.cells == h.cells && n == h.next
    ensures BindingsBelow(h1, n)
  {
  }

  lemma BoundBelowAfterBind(h: Heap, h2: Heap, n: nat, t: Term)
    requires BindingsBelow(h, n) && InScope(n + 1, t)
    requires h2.cells == h.cells[n := t]
    ensures BindingsBelow(h2, n + 1)
  {
    forall u | u in h2.cells ensures u < n + 1 && InScope(n + 1, h2.cells[u]) {
      if u != n { InScopeMonotone(n, n + 1, h.cells[u]); }
    }
  }

  lemma UnifyArgsTwo(h: Heap, xs: seq<Term>, ys: seq<Term>, h1: Heap, h2: Heap)
    requires Valid(h) && |xs| == 2 && |ys| == 2 && InScopeArgs(h.next, xs) && InScopeArgs(h.next, ys)
    requires InScope(h.next, xs[0]) && InScope(h.next, ys[0]) && Unify(h, xs[0], ys[0]) == Some(h1)
    requires InScope(h1.next, xs[1]) && InScope(h1.next, ys[1]) && Unify(h1, xs[1], ys[1]) == Some(h2)
    ensures UnifyArgs(h, xs, ys) == Some(h2)
  {
    var xt, yt := xs[1..], ys[1..];
    assert xt[0] == xs[1] && yt[0] == ys[1] && xt[1..] == [] && yt[1..] == [];
    assert UnifyArgs(h2, xt[1..], yt[1..]) == Some(h2);
    assert UnifyArgs(h1, xt, yt) == Some(h2);
  }

  lemma UnifyCells(h: Heap, xs: seq<Term>, ys: seq<Term>)
    requires Valid(h) && |xs| == 2 && |ys| == 2 && InScopeArgs(h.next, xs) && InScopeArgs(h.next, ys)
    ensures InScope(h.next, Compound(DOT, xs)) && InScope(h.next, Compound(DOT, ys))
    ensures Unify(h, Compound(DOT, xs), Compound(DOT, ys)) == UnifyArgs(h, xs, ys)
  {
  }

  lemma UnifyCellsTwo(h: Heap, xs: seq<Term>, ys: seq<Term>, h1: Heap, h2: Heap)
    requires Valid(h) && |xs| == 2 && |ys| == 2 && InScopeArgs(h.next, xs) && InScopeArgs(h.next, ys)
    requires InScope(h.next, xs[0]) && InScope(h.next, ys[0]) && Unify(h, xs[0], ys[0]) == Some(h1)
    requires InScope(h1.next, xs[1]) && InScope(h1.next, ys[1]) && Unify(h1, xs[1], ys[1]) == Some(h2)
    ensures InScope(h.next, Compound(DOT, xs)) && InScope(h.next, Compound(DOT, ys))
    ensures Unify(h, Compound(DOT, xs), Compound(DOT, ys)) == Some(h2)
  {
    UnifyArgsTwo(h, xs, ys, h1, h2);
    UnifyCells(h, xs, ys);
  }

  lemma UnifyFresh(g: Heap, v: nat, t: Term, n: nat) returns (g2: Heap)
    requires Valid(g) && n <= v < g.next && v !in g.cells && InScope(n, t) && !t.Var?
    requires BindingsBelow(g, n)
    ensures InScope(g.next, t)
    ensures Unify(g, Var(v), t) == Some(g2)
    ensures Valid(g2) && g2.next == g.next && g2.cells == g.cells[v := t]
  {
    InScopeMonotone(n, g.next, t);
    NotOccursAbove(g, v, n, t);
    g2 := Bind(g, v, t);
  }

  lemma UnifyHelperCells(g: Heap, n: nat, a: Atom, tail: Term, g2: Heap, g3: Heap)
    requires Valid(g) && g.next == n + 2 && InScope(g.next, tail)
    requires Unify(g, Var(n), Sym(a)) == Some(g2) && g2.next == g.next
    requires Unify(g2, Var(n + 1), tail) == Some(g3)
    ensures InScope(g.next, Cons(Var(n), Var(n + 1))) && InScope(g.next, Cons(Sym(a), tail))
    ensures Unify(g, Cons(Var(n), Var(n + 1)), Cons(Sym(a), tail)) == Some(g3)
  {
    InScopePair(g.next, Var(n), Var(n + 1));
    InScopePair(g.next, Sym(a), tail);
    UnifyCellsTwo(g, [Var(n), Var(n + 1)], [Sym(a), tail], g2, g3);
  }

  lemma InScopePair(next: nat, x: Term, y: Term)
    requires InScope(next, x) && InScope(next, y)
    ensures InScopeArgs(next, [x, y]) && InScope(next, Cons(x, y))
  {
    assert [x, y][1..] == [y];
    assert [y][1..] == [];
  }

  lemma BindName(g: Heap, n: nat, a: Atom) returns (g2: Heap)
    requires Valid(g) && n < g.next && n !in g.cells && BindingsBelow(g, n)
    ensures Unify(g, Var(n), Sym(a)) == Some(g2)
    ensures Valid(g2) && g2.next == g.next && g2.cells == g.cells[n := Sym(a)] && BindingsBelow(g2, n + 1)
  {
    g2 := UnifyFresh(g, n, Sym(a), n);
    BoundBelowAfterBind(g, g2, n, Sym(a));
  }

  lemma UnifyFreshPair(g: Heap, n: nat, a: Atom, tail: Term) returns (g3: Heap)
    requires Valid(g) && g.next == n + 2 && BindingsBelow(g, n) && InScope(n, tail) && !tail.Var?
    ensures InScope(g.next, Cons(Var(n), Var(n + 1))) && InScope(g.next, Cons(Sym(a), tail))
    ensures Unify(g, Cons(Var(n), Var(n + 1)), Cons(Sym(a), tail)) == Some(g3)
    ensures Valid(g3) && g3.next == g.next && g3.cells == g.cells[n := Sym(a)][n + 1 := tail]
  {
    var g2 := BindName(g, n, a);
    InScopeMonotone(n, n + 1, tail);
    g3 := UnifyFresh(g2, n + 1, tail, n + 1);
    UnifyHelperCells(g, n, a, tail, g2, g3);
    CellsUpdated(g, g2, g3, n, Sym(a), n + 1, tail);
  }

  lemma CellsUpdated(g: Heap, g2: Heap, g3: Heap, n: nat, x: Term, m: nat, y: Term)
    requires g2.cells == g.cells[n := x] && g3.cells == g2.cells[m := y]
    ensures g3.cells == g.cells[n := x][m := y]
  {
  }

  lemma CellsUpdatedTwice(g: Heap, g2: Heap, g3: Heap, n: nat, x: Term, m: nat, y: Term)
    requires g2.cells == g.cells && g3.cells == g2.cells[n := x][m := y]
    ensures g3.cells == g.cells[n := x][m := y]
  {
  }
  /** What =.. does with an unbound Term once `[Name|ArgList]` has been
    * unified with List, for a name atom and one to 255 arguments. */
  lemma UnivOfVariable(h: Heap, term: Term, list: Term, h3: Heap, a: Atom, args: seq<Term>)
    requires Valid(h) && InScope(h.next, term) && InScope(h.next, list) && Deref(h, term).Var?
    requires Valid(h3) && InScope(h3.next, term) && InScopeArgs(h3.next, args)
    requires InScope(h.next + 2, list) && InScope(h.next + 2, Cons(Var(h.next), Var(h.next + 1)))
    requires Unify(NewVariables(h, 2).0, Cons(Var(h.next), Var(h.next + 1)), list) == Some(h3)
    requires ToArray(h3, Var(h.next + 1)) == Items(args) && Deref(h3, Var(h.next)) == Sym(a)
    requires 1 <= |args| <= MAX_ARITY
    ensures Univ(h, term, list) == Solutions(UnifySolutions(h3, term, Compound(a, args)))
  {
    var (h1, vs) := NewVariables(h, 2);
    assert vs[0] == h.next && vs[1] == h.next + 1;
  }

  // ---------------------------------------------------------------------
  // arg/3.

  /** `YP.arg(ArgNumber, Term, Value)`: ArgNumber must be a non-negative
    * integer and Term a compound, checked in that order; Value is unified
    * with argument ArgNumber (counting from 1), and an ArgNumber out of
    * range fails silently. */
  function Arg(h: Heap, argNumber: Term, term: Term, value: Term): (r: Outcome)
    requires Valid(h) && InScope(h.next, argNumber) && InScope(h.next, term) && InScope(h.next, value)
    ensures r.Raised? <==>
      !Deref(h, argNumber).Int? || Deref(h, argNumber).value < 0 || !Deref(h, term).Compound?
    ensures r.Solutions? ==> (|r.heaps| <= 1 &&
      forall k | 0 <= k < |r.heaps| ::
        1 <= Deref(h, argNumber).value <= |Deref(h, term).args| && Valid(r.heaps[k]) &&
        TermEqual(r.heaps[k], value, Deref(h, term).args[Deref(h, argNumber).value - 1]))
    ensures r.Solutions? && !(1 <= Deref(h, argNumber).value <= |Deref(h, term).args|) ==> r.heaps == []
  {
    var n, t := Deref(h, argNumber), Deref(h, term);
    if n.Var? then Raised(InstantiationError)
    else if !n.Int? then Raised(TypeError("integer", Culprit(h, n)))
    else if n.value < 0 then Raised(DomainError("not_less_than_zero", n))
    else if t.Var? then Raised(InstantiationError)
    else if !t.Compound? then Raised(TypeError("compound", Culprit(h, t)))
    else if 1 <= n.value <= |t.args| then
      InScopeArgsAt(h.next, t.args, n.value - 1);
      Solutions(UnifySolutions(h, value, t.args[n.value - 1]))
    else Solutions([])
  }

  /** arg/3 agrees with =..: argument k of a compound is item k (counting
    * the name as item 0) of the list the compound decomposes into. */
  lemma ArgIsUnivItem(h: Heap, k: nat, term: Term, value: Term)
    requires Valid(h) && InScope(h.next, term) && InScope(h.next, value)
    requires Deref(h, term).Compound? && 1 <= k <= |Deref(h, term).args|
    ensures ToArray(h, UnivList(h, term)).Items? && |ToArray(h, UnivList(h, term)).items| > k
    ensures InScope(h.next, ToArray(h, UnivList(h, term)).items[k])
    ensures Arg(h, Int(k), term, value) ==
      Solutions(UnifySolutions(h, value, ToArray(h, UnivList(h, term)).items[k]))
  {
    UnivListReadsBack(h, term);
    var items := ToArray(h, UnivList(h, term)).items;
    assert items[k] == Deref(h, term).args[k - 1];
    InScopeArgsAt(h.next, Deref(h, term).args, k - 1);
  }

  // ---------------------------------------------------------------------
  // copy_term/2.

  /** `YP.copy_term(InTerm, OutTerm)`: OutTerm is unified with a copy of
    * InTerm whose unbound variables are renamed, one to one, to fresh
    * ones. */
  method CopyTermBuiltin(h: Heap, inTerm: Term, outTerm: Term) returns (h': Heap, copy: Term, r: seq<Heap>, ghost m: map<nat, nat>)
    requires Valid(h) && InScope(h.next, inTerm) && InScope(h.next, outTerm)
    ensures Valid(h') && SameCells(h, h') && h.next <= h'.next
    ensures Copied(h, inTerm, copy, m) && Injective(m)
    ensures forall v :: v in VarList(copy) ==> h.next <= v < h'.next && v !in h'.cells
    ensures InScope(h'.next, outTerm) && InScope(h'.next, copy) && r == UnifySolutions(h', outTerm, copy)
  {
    h', copy, m := CopyTerm(h, inTerm);
    VarListInScope(h'.next, copy);
    InScopeMonotone(h.next, h'.next, outTerm);
    r := UnifySolutions(h', outTerm, copy);
  }
}
