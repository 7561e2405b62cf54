// Unification: `YP.unify`, `Variable.unify`, `Atom.unify`, the Functor
// `unify` methods and `YP.unifyArrays`. A resumable computation that yields
// once per solution is modelled by the heap of its single solution (or by
// its absence), so leaving a solution scope is going back to the heap the
// computation started from.
module Unification {
  import opened Wrappers
  import opened Atoms
  import opened Terms
  import opened Binding
  import opened Equality

  /** An outcome of unification: the heap of its one solution, if any. */
  predicate Progress(h: Heap, r: Option<Heap>)
  {
    r.Some? ==>
      Valid(r.value) && r.value.next == h.next && Extends(h, r.value) &&
      (r.value == h || Free(r.value) < Free(h))
  }

  /** `Variable.unify` on an unbound variable v and an already dereferenced
    * value t: unifying with itself succeeds leaving v unbound, otherwise v is
    * bound to t. A binding that would make v part of its own value is
    * refused. */
  function UnifyVariable(h: Heap, v: nat, t: Term): (r: Option<Heap>)
    requires Valid(h) && v < h.next && v !in h.cells && InScope(h.next, t) && !Bound(h, t)
    ensures Progress(h, r)
    ensures t == Var(v) ==> r == Some(h)
    ensures t != Var(v) && r.Some? ==> r.value.cells == h.cells[v := t]
  {
    if t == Var(v) then Some(h)
    else if OccursIn(h, v, t) then None
    else Some(Bind(h, v, t))
  }

  /** `YP.unify(x, y)`: both sides are dereferenced; an unbound variable on
    * either side is bound to the other side; atoms unify when `equals`;
    * compounds unify when they have the same kind and an equal name and their
    * arguments unify left to right; other values unify when equal. */
  function Unify(h: Heap, x: Term, y: Term): (r: Option<Heap>)
    requires Valid(h) && InScope(h.next, x) && InScope(h.next, y)
    ensures Progress(h, r)
    decreases Free(h), Height(h, x) + Height(h, y), Size(x) + Size(y)
  {
    var dx := Deref(h, x);
    var dy := Deref(h, y);
    match dx
    case Var(v) => UnifyVariable(h, v, dy)
    case Sym(a) =>
      if dy.Sym? then (if Equals(a, dy.atom) then Some(h) else None)
      else if dy.Var? then UnifyVariable(h, dy.id, dx)
      else None
    case Compound(n, xs) =>
      if dy.Compound? then
        if Equals(n, dy.name) && |xs| == |dy.args| then UnifyArgs(h, xs, dy.args) else None
      else if dy.Var? then UnifyVariable(h, dy.id, dx)
      else None
    case _ =>
      if dy.Var? then UnifyVariable(h, dy.id, dx)
      else if dy.Sym? || dy.Compound? then None
      else if dx == dy then Some(h) else None
  }

  /** Unify argument pairs left to right, each in the heap the previous one
    * left; the first failure fails the whole. */
  function UnifyArgs(h: Heap, xs: seq<Term>, ys: seq<Term>): (r: Option<Heap>)
    requires Valid(h) && |xs| == |ys| && InScopeArgs(h.next, xs) && InScopeArgs(h.next, ys)
    ensures Progress(h, r)
    decreases Free(h), HeightArgs(h, xs) + HeightArgs(h, ys), SizeArgs(xs) + SizeArgs(ys)
  {
    if xs == [] then Some(h)
    else
      match Unify(h, xs[0], ys[0])
      case None => None
      case Some(h1) =>
        assert h1 == h || Free(h1) < Free(h);
        InScopeArgsMonotone(h.next, h1.next, xs[1..]);
        match UnifyArgs(h1, xs[1..], ys[1..])
        case None => None
        case Some(h2) => Some(h2)
  }

  /** The solutions of `YP.unify` as a sequence: one heap or none. */
  function UnifySolutions(h: Heap, x: Term, y: Term): (s: seq<Heap>)
    requires Valid(h) && InScope(h.next, x) && InScope(h.next, y)
    ensures |s| <= 1
    ensures forall k :: 0 <= k < |s| ==> Valid(s[k]) && TermEqual(s[k], x, y)
    ensures TermEqual(h, x, y) ==> s == [h]
  {
    UnifyOfEqualWhen(h, x, y);
    match Unify(h, x, y)
    case None => []
    case Some(h1) => UnifySound(h, x, y); [h1]
  }

  /** Nested unifications, `for (l1 of unify(x1, y1)) for (l2 of unify(x2,
    * y2)) ... yield`: the pairs are unified left to right, each in the heap
    * the previous one left, and there is one solution if all of them unify. */
  function UnifyPairs(h: Heap, xs: seq<Term>, ys: seq<Term>): (s: seq<Heap>)
    requires Valid(h) && |xs| == |ys|
    requires forall i :: 0 <= i < |xs| ==> InScope(h.next, xs[i]) && InScope(h.next, ys[i])
    ensures |s| <= 1
    ensures forall k :: 0 <= k < |s| ==> Valid(s[k]) && s[k].next == h.next && Extends(h, s[k])
    ensures forall k, i :: 0 <= k < |s| && 0 <= i < |xs| ==> TermEqual(s[k], xs[i], ys[i])
  {
    InScopeArgsAll(h.next, xs);
    InScopeArgsAll(h.next, ys);
    match UnifyArgs(h, xs, ys)
    case None => []
    case Some(h1) => UnifyArgsSound(h, xs, ys); [h1]
  }

  /** The first pair is unified first; the rest are unified in its solution. */
  lemma UnifyPairsFirst(h: Heap, xs: seq<Term>, ys: seq<Term>)
    requires Valid(h) && |xs| == |ys| > 0
    requires forall i :: 0 <= i < |xs| ==> InScope(h.next, xs[i]) && InScope(h.next, ys[i])
    ensures UnifyPairs(h, xs, ys) ==
      match Unify(h, xs[0], ys[0])
      case None => []
      case Some(h1) => UnifyPairs(h1, xs[1..], ys[1..])
  {
    InScopeArgsAll(h.next, xs);
    InScopeArgsAll(h.next, ys);
    match Unify(h, xs[0], ys[0])
    case None =>
    case Some(h1) =>
      InScopeArgsAll(h1.next, xs[1..]);
      InScopeArgsAll(h1.next, ys[1..]);
  }

  /** Two nested unifications: the second pair is unified in the solution
    * of the first. */
  lemma UnifyTwoPairs(h: Heap, x1: Term, y1: Term, x2: Term, y2: Term)
    requires Valid(h) && InScope(h.next, x1) && InScope(h.next, y1) && InScope(h.next, x2) && InScope(h.next, y2)
    ensures UnifyPairs(h, [x1, x2], [y1, y2]) ==
      match Unify(h, x1, y1)
      case None => []
      case Some(h1) => UnifySolutions(h1, x2, y2)
  {
    var xs, ys := [x1, x2], [y1, y2];
    assert forall i :: 0 <= i < |xs| ==> InScope(h.next, xs[i]) && InScope(h.next, ys[i]);
    UnifyPairsFirst(h, xs, ys);
    match Unify(h, x1, y1)
    case None =>
    case Some(h1) =>
      assert xs[1..] == [x2] && ys[1..] == [y2];
      UnifyPairsFirst(h1, [x2], [y2]);
      match Unify(h1, x2, y2)
      case None =>
      case Some(h2) => assert UnifyPairs(h2, [], []) == [h2];
  }

  // ---------------------------------------------------------------------
  // What a solution means.

  lemma TermEqualDeref(h: Heap, x: Term, y: Term)
    requires Valid(h)
    ensures TermEqual(h, x, y) == TermEqual(h, Deref(h, x), Deref(h, y))
  {
  }

  /** In the heap a successful unification leaves, the two terms are equal. */
  lemma {:induction false} UnifySound(h: Heap, x: Term, y: Term)
    requires Valid(h) && InScope(h.next, x) && InScope(h.next, y)
    requires Unify(h, x, y).Some?
    ensures TermEqual(Unify(h, x, y).value, x, y)
    decreases Free(h), Height(h, x) + Height(h, y), Size(x) + Size(y)
  {
    var dx := Deref(h, x);
    var dy := Deref(h, y);
    var h' := Unify(h, x, y).value;
    DerefExtends(h, h', x);
    DerefExtends(h, h', y);
    if dx.Compound? && dy.Compound? {
      UnifyArgsSound(h, dx.args, dy.args);
      assert Deref(h', x) == dx && Deref(h', y) == dy;
    } else if dx == dy {
      TermEqualDeref(h', x, y);
      TermEqualReflexive(h', Deref(h', x));
    } else if dx.Sym? && dy.Sym? {
      assert h' == h;
    } else {
      // One side is an unbound variable, now bound to the other side.
      var v, t := if dx.Var? then dx.id else dy.id, if dx.Var? then dy else dx;
      assert h'.cells[v] == t;
      assert Deref(h', Var(v)) == Deref(h', t);
      assert Deref(h', t) == t by { DerefExtends(h, h', t); }
      TermEqualDeref(h', x, y);
      TermEqualReflexive(h', t);
    }
  }

  lemma {:induction false} UnifyArgsSound(h: Heap, xs: seq<Term>, ys: seq<Term>)
    requires Valid(h) && |xs| == |ys| && InScopeArgs(h.next, xs) && InScopeArgs(h.next, ys)
    requires UnifyArgs(h, xs, ys).Some?
    ensures forall i :: 0 <= i < |xs| ==> TermEqual(UnifyArgs(h, xs, ys).value, xs[i], ys[i])
    decreases Free(h), HeightArgs(h, xs) + HeightArgs(h, ys), SizeArgs(xs) + SizeArgs(ys)
  {
    if xs != [] {
      var h1 := Unify(h, xs[0], ys[0]).value;
      var h2 := UnifyArgs(h, xs, ys).value;
      InScopeArgsMonotone(h.next, h1.next, xs[1..]);
      InScopeArgsMonotone(h.next, h1.next, ys[1..]);
      UnifySound(h, xs[0], ys[0]);
      UnifyArgsSound(h1, xs[1..], ys[1..]);
      TermEqualMonotone(h1, h2, xs[0], ys[0]);
      PairsEqual(h2, xs, ys);
    }
  }

  lemma PairsEqual(h: Heap, xs: seq<Term>, ys: seq<Term>)
    requires Valid(h) && |xs| == |ys| > 0 && TermEqual(h, xs[0], ys[0])
    requires forall i :: 0 <= i < |xs| - 1 ==> TermEqual(h, xs[1..][i], ys[1..][i])
    ensures forall i :: 0 <= i < |xs| ==> TermEqual(h, xs[i], ys[i])
  {
    forall i | 0 < i < |xs| ensures TermEqual(h, xs[i], ys[i]) {
      assert xs[i] == xs[1..][i - 1] && ys[i] == ys[1..][i - 1];
    }
  }

  // ---------------------------------------------------------------------
  // Completeness: terms that are already equal unify without binding.

  /** Terms that are already `termEqual` unify, and the unification binds
    * nothing. */
  lemma {:induction false} UnifyOfEqual(h: Heap, x: Term, y: Term)
    requires Valid(h) && InScope(h.next, x) && InScope(h.next, y) && TermEqual(h, x, y)
    ensures Unify(h, x, y) == Some(h)
    decreases Free(h), Height(h, x) + Height(h, y), Size(x) + Size(y)
  {
    var dx := Deref(h, x);
    var dy := Deref(h, y);
    if dx.Compound? {
      ArgsBelow(h, dx.args);
      ArgsBelow(h, dy.args);
      UnifyArgsOfEqual(h, dx.args, dy.args);
    }
  }

  lemma UnifyOfEqualWhen(h: Heap, x: Term, y: Term)
    requires Valid(h) && InScope(h.next, x) && InScope(h.next, y)
    ensures TermEqual(h, x, y) ==> Unify(h, x, y) == Some(h)
  {
    if TermEqual(h, x, y) { UnifyOfEqual(h, x, y); }
  }

  lemma {:induction false} UnifyArgsOfEqual(h: Heap, xs: seq<Term>, ys: seq<Term>)
    requires Valid(h) && |xs| == |ys| && InScopeArgs(h.next, xs) && InScopeArgs(h.next, ys)
    requires forall i :: 0 <= i < |xs| ==> TermEqual(h, xs[i], ys[i])
    ensures UnifyArgs(h, xs, ys) == Some(h)
    decreases Free(h), HeightArgs(h, xs) + HeightArgs(h, ys), SizeArgs(xs) + SizeArgs(ys)
  {
    if xs != [] {
      UnifyOfEqual(h, xs[0], ys[0]);
      assert forall i :: 0 <= i < |xs| - 1 ==> xs[1..][i] == xs[i + 1] && ys[1..][i] == ys[i + 1];
      UnifyArgsOfEqual(h, xs[1..], ys[1..]);
    }
  }

  // ---------------------------------------------------------------------
  // Completeness: unification fails only when no binding of the variables
  // would make the terms equal.

  /** Every binding of h holds in g: in g, each variable bound in h equals
    * the value h gives it. g is a unifier that h's solution may lead to. */
  predicate Satisfies(g: Heap, h: Heap)
  {
    Valid(g) && forall v | v in h.cells :: TermEqual(g, Var(v), h.cells[v])
  }

  /** A heap that keeps the bindings of h satisfies them. */
  lemma ExtendsSatisfies(h: Heap, g: Heap)
    requires Valid(h) && Valid(g) && Extends(h, g)
    ensures Satisfies(g, h)
  {
    forall v | v in h.cells ensures TermEqual(g, Var(v), h.cells[v]) {
      TermEqualDeref(g, Var(v), h.cells[v]);
      TermEqualReflexive(g, Deref(g, h.cells[v]));
    }
  }

  /** Following h's bindings does not change what a term means in g. */
  lemma {:induction false} SatisfiesDeref(h: Heap, g: Heap, t: Term)
    requires Valid(h) && Satisfies(g, h)
    ensures TermEqual(g, t, Deref(h, t))
    decreases Height(h, t)
  {
    if Bound(h, t) {
      var s := h.cells[t.id];
      SatisfiesDeref(h, g, s);
      TermEqualTransitive(g, t, s, Deref(h, s));
    } else {
      TermEqualReflexive(g, t);
    }
  }

  /** A position of the argument list that v occurs in. */
  lemma {:induction false} OccursInArgsAt(h: Heap, v: nat, args: seq<Term>) returns (i: nat)
    requires Valid(h) && OccursInArgs(h, v, args)
    ensures i < |args| && OccursIn(h, v, args[i])
    decreases |args|
  {
    if OccursIn(h, v, args[0]) {
      i := 0;
    } else {
      var j := OccursInArgsAt(h, v, args[1..]);
      i := j + 1;
    }
  }

  /** The value of an argument is smaller than the value of its compound. */
  lemma CanonArgSmaller(g: Heap, t: Term, i: nat)
    requires Valid(g) && t.Compound? && i < |t.args|
    ensures Size(Canon(g, t.args[i])) < Size(Canon(g, t))
  {
    CanonOfCompound(g, t);
    HeightArgsAt(g, Canon(g, t).args, i);
  }

  /** When v occurs in t through h's bindings, the value of v in g is part
    * of the value of t in g. */
  lemma {:induction false} OccursCanonSize(h: Heap, g: Heap, v: nat, t: Term)
    requires Valid(h) && Satisfies(g, h) && OccursIn(h, v, t)
    ensures Size(Canon(g, Var(v))) <= Size(Canon(g, t))
    decreases Height(h, t), Size(t)
  {
    match t
    case Var(u) =>
      if u != v {
        OccursCanonSize(h, g, v, h.cells[u]);
        TermEqualIsCanonEquality(g, Var(u), h.cells[u]);
      }
    case Compound(_, args) =>
      var i := OccursInArgsAt(h, v, args);
      ArgsBelow(h, args);
      OccursCanonSize(h, g, v, args[i]);
      CanonArgSmaller(g, t, i);
  }

  /** No unifier makes a variable equal to a different value it occurs in:
    * the occurs check refuses only what no binding could satisfy. */
  lemma OccursRefuted(h: Heap, g: Heap, v: nat, t: Term)
    requires Valid(h) && Satisfies(g, h) && !Bound(h, t) && t != Var(v)
    requires TermEqual(g, Var(v), t)
    ensures !OccursIn(h, v, t)
  {
    if OccursIn(h, v, t) {
      var i := OccursInArgsAt(h, v, t.args);
      OccursCanonSize(h, g, v, t.args[i]);
      CanonArgSmaller(g, t, i);
      TermEqualIsCanonEquality(g, Var(v), t);
      assert false;
    }
  }

  /** Binding an unbound variable to a value that g already equates with it
    * succeeds, and g satisfies the new binding. */
  lemma BindMostGeneral(h: Heap, g: Heap, v: nat, t: Term)
    requires Valid(h) && v < h.next && v !in h.cells && InScope(h.next, t) && !Bound(h, t)
    requires Satisfies(g, h) && TermEqual(g, Var(v), t)
    ensures UnifyVariable(h, v, t).Some? && Satisfies(g, UnifyVariable(h, v, t).value)
  {
    if t != Var(v) {
      OccursRefuted(h, g, v, t);
    }
  }

  /** `YP.unify` finds a most general unifier: whenever some heap g that
    * satisfies h's bindings makes x and y equal, unification succeeds, and
    * g satisfies the bindings of its solution too. */
  lemma {:induction false} UnifyMostGeneral(h: Heap, x: Term, y: Term, g: Heap)
    requires Valid(h) && InScope(h.next, x) && InScope(h.next, y)
    requires Satisfies(g, h) && TermEqual(g, x, y)
    ensures Unify(h, x, y).Some? && Satisfies(g, Unify(h, x, y).value)
    decreases Free(h), Height(h, x) + Height(h, y), Size(x) + Size(y)
  {
    var dx := Deref(h, x);
    var dy := Deref(h, y);
    SatisfiesDeref(h, g, x);
    SatisfiesDeref(h, g, y);
    TermEqualSymmetric(g, x, dx);
    TermEqualTransitive(g, dx, x, y);
    TermEqualTransitive(g, dx, y, dy);
    if dx.Var? {
      BindMostGeneral(h, g, dx.id, dy);
    } else if dy.Var? {
      TermEqualSymmetric(g, dx, dy);
      BindMostGeneral(h, g, dy.id, dx);
    } else if dx.Compound? {
      assert Deref(g, dx) == dx && Deref(g, dy) == dy;
      TermEqualOfCompounds(g, dx, dy);
      ArgsBelow(h, dx.args);
      ArgsBelow(h, dy.args);
      UnifyArgsMostGeneral(h, dx.args, dy.args, g);
    } else {
      assert Deref(g, dx) == dx && Deref(g, dy) == dy;
    }
  }

  lemma {:induction false} UnifyArgsMostGeneral(h: Heap, xs: seq<Term>, ys: seq<Term>, g: Heap)
    requires Valid(h) && |xs| == |ys| && InScopeArgs(h.next, xs) && InScopeArgs(h.next, ys)
    requires Satisfies(g, h) && forall i :: 0 <= i < |xs| ==> TermEqual(g, xs[i], ys[i])
    ensures UnifyArgs(h, xs, ys).Some? && Satisfies(g, UnifyArgs(h, xs, ys).value)
    decreases Free(h), HeightArgs(h, xs) + HeightArgs(h, ys), SizeArgs(xs) + SizeArgs(ys)
  {
    if xs != [] {
      UnifyMostGeneral(h, xs[0], ys[0], g);
      var h1 := Unify(h, xs[0], ys[0]).value;
      assert h1 == h || Free(h1) < Free(h);
      InScopeArgsMonotone(h.next, h1.next, xs[1..]);
      InScopeArgsMonotone(h.next, h1.next, ys[1..]);
      PairsEqualTail(g, xs, ys);
      UnifyArgsMostGeneral(h1, xs[1..], ys[1..], g);
      UnifyArgsStep(h, xs, ys, h1);
    }
  }

  /** After the first pair unifies, the rest are unified in its solution. */
  lemma UnifyArgsStep(h: Heap, xs: seq<Term>, ys: seq<Term>, h1: Heap)
    requires Valid(h) && |xs| == |ys| > 0 && InScopeArgs(h.next, xs) && InScopeArgs(h.next, ys)
    requires Unify(h, xs[0], ys[0]) == Some(h1)
    ensures InScopeArgs(h1.next, xs[1..]) && InScopeArgs(h1.next, ys[1..])
    ensures UnifyArgs(h, xs, ys) == UnifyArgs(h1, xs[1..], ys[1..])
  {
    InScopeArgsMonotone(h.next, h1.next, xs[1..]);
    InScopeArgsMonotone(h.next, h1.next, ys[1..]);
  }

  lemma PairsEqualTail(g: Heap, xs: seq<Term>, ys: seq<Term>)
    requires Valid(g) && |xs| == |ys| > 0 && forall i :: 0 <= i < |xs| ==> TermEqual(g, xs[i], ys[i])
    ensures forall i :: 0 <= i < |xs| - 1 ==> TermEqual(g, xs[1..][i], ys[1..][i])
  {
    assert forall i :: 0 <= i < |xs| - 1 ==> xs[1..][i] == xs[i + 1] && ys[1..][i] == ys[i + 1];
  }

  /** Unification fails only when no further binding of the variables (none
    * that makes a cycle) would make the two terms `termEqual`. */
  lemma UnifyComplete(h: Heap, x: Term, y: Term, g: Heap)
    requires Valid(h) && InScope(h.next, x) && InScope(h.next, y)
    requires Valid(g) && Extends(h, g) && TermEqual(g, x, y)
    ensures Unify(h, x, y).Some?
  {
    ExtendsSatisfies(h, g);
    UnifyMostGeneral(h, x, y, g);
  }

  /** Atoms unify exactly when they are `equals`, and bind nothing. */
  lemma UnifyAtoms(h: Heap, x: Term, y: Term)
    requires Valid(h) && InScope(h.next, x) && InScope(h.next, y)
    requires Deref(h, x).Sym? && Deref(h, y).Sym?
    ensures Unify(h, x, y) == if Equals(Deref(h, x).atom, Deref(h, y).atom) then Some(h) else None
  {
  }

  /** An unbound variable unified with anything else is bound to that
    * thing's dereferenced value, unless the value contains it. */
  lemma UnifyBindsUnboundVariable(h: Heap, x: Term, y: Term)
    requires Valid(h) && InScope(h.next, x) && InScope(h.next, y)
    requires Deref(h, x).Var? && Deref(h, y) != Deref(h, x)
    requires !OccursIn(h, Deref(h, x).id, Deref(h, y))
    ensures Unify(h, x, y).Some?
    ensures Unify(h, x, y).value.cells == h.cells[Deref(h, x).id := Deref(h, y)]
  {
  }

  /** Compounds of different names or kinds never unify. */
  lemma UnifyCompoundsOfDifferentShape(h: Heap, x: Term, y: Term)
    requires Valid(h) && InScope(h.next, x) && InScope(h.next, y)
    requires Deref(h, x).Compound? && Deref(h, y).Compound?
    requires !Equals(Deref(h, x).name, Deref(h, y).name) || |Deref(h, x).args| != |Deref(h, y).args|
    ensures Unify(h, x, y) == None
  {
  }

  // ---------------------------------------------------------------------
  // `YP.unifyArrays`.

  /** `YP.unifyArrays`: nothing when the lengths differ; otherwise unify the
    * pairs in order, stopping at the first failure, and yield once if all
    * of them unified. */
  method UnifyArrays(h: Heap, left: seq<Term>, right: seq<Term>) returns (solutions: seq<Heap>)
    requires Valid(h) && InScopeArgs(h.next, left) && InScopeArgs(h.next, right)
    ensures |left| != |right| ==> solutions == []
    ensures |left| == |right| ==>
      solutions == match UnifyArgs(h, left, right) case None => [] case Some(h1) => [h1]
    ensures forall k, i :: 0 <= k < |solutions| && 0 <= i < |left| ==> TermEqual(solutions[k], left[i], right[i])
  {
    if |left| != |right| {
      return [];
    }
    var cur := h;
    var gotMatch := true;
    var i := 0;
    while i < |left|
      invariant 0 <= i <= |left|
      invariant Valid(cur) && cur.next == h.next
      invariant InScopeArgs(h.next, left[i..]) && InScopeArgs(h.next, right[i..])
      invariant gotMatch ==> UnifyArgs(h, left, right) == UnifyArgs(cur, left[i..], right[i..])
      invariant !gotMatch ==> UnifyArgs(h, left, right) == None
      decreases |left| - i, if gotMatch then 1 else 0
    {
      assert left[i..][0] == left[i] && right[i..][0] == right[i];
      assert left[i..][1..] == left[i + 1..] && right[i..][1..] == right[i + 1..];
      var r := Unify(cur, left[i], right[i]);
      if r.None? {
        gotMatch := false;
        break;
      }
      cur := r.value;
      i := i + 1;
    }
    if gotMatch {
      assert left[i..] == [] && right[i..] == [];
      UnifyArgsSound(h, left, right);
      return [cur];
    }
    return [];
  }
}
