// `termEqual`, and the value a term denotes in a heap.
module Equality {
  import opened Wrappers
  import opened Atoms
  import opened Terms

  lemma ArgsBelow(h: Heap, args: seq<Term>)
    ensures forall i :: 0 <= i < |args| ==>
      Height(h, args[i]) <= HeightArgs(h, args) && Size(args[i]) < SizeArgs(args)
  {
    forall i | 0 <= i < |args|
      ensures Height(h, args[i]) <= HeightArgs(h, args) && Size(args[i]) < SizeArgs(args)
    {
      HeightArgsAt(h, args, i);
    }
  }

  /** `YP.termEqual`: structural equality after dereferencing. Unbound
    * variables are equal only to themselves, atoms compare with `equals`,
    * compounds need the same kind, an equal name and equal arguments, and
    * other values compare with `==`. */
  predicate TermEqual(h: Heap, x: Term, y: Term)
    requires Valid(h)
    decreases Height(h, x) + Height(h, y), Size(x) + Size(y)
  {
    var dx := Deref(h, x);
    var dy := Deref(h, y);
    match dx
    case Sym(a) => dy.Sym? && Equals(a, dy.atom)
    case Compound(n, xs) =>
      dy.Compound? && Equals(n, dy.name) && |xs| == |dy.args| &&
      (ArgsBelow(h, xs); ArgsBelow(h, dy.args);
       forall i :: 0 <= i < |xs| ==> TermEqual(h, xs[i], dy.args[i]))
    case _ => dx == dy
  }

  /** The atom an atom denotes for comparison purposes: its name. */
  function NameOnly(a: Atom): Atom { Atom(a.name, None) }

  /** The value t denotes: bindings substituted, each atom reduced to its
    * name (which is all `equals` looks at). */
  function Canon(h: Heap, t: Term): (c: Term)
    requires Valid(h)
    decreases Height(h, t), Size(t)
  {
    var d := Deref(h, t);
    match d
    case Sym(a) => Sym(NameOnly(a))
    case Compound(n, xs) =>
      ArgsBelow(h, xs);
      Compound(NameOnly(n), seq(|xs|, i requires 0 <= i < |xs| => Canon(h, xs[i])))
    case _ => d
  }

  /** termEqual is equality of denoted values. */
  lemma {:induction false} TermEqualIsCanonEquality(h: Heap, x: Term, y: Term)
    requires Valid(h)
    ensures TermEqual(h, x, y) <==> Canon(h, x) == Canon(h, y)
    decreases Height(h, x) + Height(h, y), Size(x) + Size(y)
  {
    var dx := Deref(h, x);
    var dy := Deref(h, y);
    if dx.Compound? && dy.Compound? && |dx.args| == |dy.args| {
      ArgsBelow(h, dx.args);
      ArgsBelow(h, dy.args);
      forall i | 0 <= i < |dx.args|
        ensures TermEqual(h, dx.args[i], dy.args[i]) <==> Canon(h, dx.args[i]) == Canon(h, dy.args[i])
      {
        TermEqualIsCanonEquality(h, dx.args[i], dy.args[i]);
      }
      CompoundCanonEquality(h, x, y);
    } else {
      var cx, cy := Canon(h, x), Canon(h, y);
      if dx.Compound? {
        assert cx.Compound? && |cx.args| == |dx.args|;
      }
      if dy.Compound? {
        assert cy.Compound? && |cy.args| == |dy.args|;
      }
    }
  }

  /** The compound case: equal names, and arguments equal exactly when
    * their values are. */
  lemma CompoundCanonEquality(h: Heap, x: Term, y: Term)
    requires Valid(h)
    requires Deref(h, x).Compound? && Deref(h, y).Compound?
    requires |Deref(h, x).args| == |Deref(h, y).args|
    requires forall i | 0 <= i < |Deref(h, x).args| ::
      TermEqual(h, Deref(h, x).args[i], Deref(h, y).args[i]) <==>
      Canon(h, Deref(h, x).args[i]) == Canon(h, Deref(h, y).args[i])
    ensures TermEqual(h, x, y) <==> Canon(h, x) == Canon(h, y)
  {
    var dx, dy := Deref(h, x), Deref(h, y);
    var cx, cy := Canon(h, x), Canon(h, y);
    CanonOfCompound(h, x);
    CanonOfCompound(h, y);
    TermEqualOfCompounds(h, x, y);
    if TermEqual(h, x, y) {
      assert cx.args == cy.args;
    }
    if cx == cy {
      assert forall i | 0 <= i < |dx.args| :: TermEqual(h, dx.args[i], dy.args[i]);
    }
  }

  lemma CanonOfCompound(h: Heap, x: Term)
    requires Valid(h) && Deref(h, x).Compound?
    ensures Canon(h, x).Compound? && Canon(h, x).name == NameOnly(Deref(h, x).name)
    ensures |Canon(h, x).args| == |Deref(h, x).args|
    ensures forall i | 0 <= i < |Deref(h, x).args| :: Canon(h, x).args[i] == Canon(h, Deref(h, x).args[i])
  {
  }

  lemma TermEqualOfCompounds(h: Heap, x: Term, y: Term)
    requires Valid(h) && Deref(h, x).Compound? && Deref(h, y).Compound?
    requires |Deref(h, x).args| == |Deref(h, y).args|
    ensures TermEqual(h, x, y) <==> (Equals(Deref(h, x).name, Deref(h, y).name) &&
      forall i | 0 <= i < |Deref(h, x).args| :: TermEqual(h, Deref(h, x).args[i], Deref(h, y).args[i]))
  {
  }

  lemma TermEqualReflexive(h: Heap, t: Term)
    requires Valid(h)
    ensures TermEqual(h, t, t)
  {
    TermEqualIsCanonEquality(h, t, t);
  }

  lemma TermEqualSymmetric(h: Heap, x: Term, y: Term)
    requires Valid(h) && TermEqual(h, x, y)
    ensures TermEqual(h, y, x)
  {
    TermEqualIsCanonEquality(h, x, y);
    TermEqualIsCanonEquality(h, y, x);
  }

  lemma TermEqualTransitive(h: Heap, x: Term, y: Term, z: Term)
    requires Valid(h) && TermEqual(h, x, y) && TermEqual(h, y, z)
    ensures TermEqual(h, x, z)
  {
    TermEqualIsCanonEquality(h, x, y);
    TermEqualIsCanonEquality(h, y, z);
    TermEqualIsCanonEquality(h, x, z);
  }

  /** Equal terms stay equal when more variables get bound. */
  lemma {:induction false} TermEqualMonotone(h1: Heap, h2: Heap, x: Term, y: Term)
    requires Valid(h1) && Valid(h2) && Extends(h1, h2) && TermEqual(h1, x, y)
    ensures TermEqual(h2, x, y)
    decreases Height(h1, x) + Height(h1, y), Size(x) + Size(y)
  {
    var dx := Deref(h1, x);
    var dy := Deref(h1, y);
    DerefExtends(h1, h2, x);
    DerefExtends(h1, h2, y);
    if dx.Compound? {
      ArgsBelow(h1, dx.args);
      ArgsBelow(h1, dy.args);
      forall i | 0 <= i < |dx.args| ensures TermEqual(h2, dx.args[i], dy.args[i]) {
        TermEqualMonotone(h1, h2, dx.args[i], dy.args[i]);
      }
      assert Deref(h2, dx) == dx && Deref(h2, dy) == dy;
    } else if dx.Var? {
      assert dx == dy;
      TermEqualReflexive(h2, dx);
    }
  }

  /** A term is ground when the value it denotes holds no variable. */
  predicate IsGroundValue(c: Term)
  {
    match c
    case Var(_) => false
    case Compound(_, xs) => forall i :: 0 <= i < |xs| ==> IsGroundValue(xs[i])
    case _ => true
  }

  /** `YP.ground`: atoms and other values are ground, an unbound variable is
    * not, and a compound is ground when all its arguments are. */
  predicate Ground(h: Heap, t: Term)
    requires Valid(h)
    decreases Height(h, t), Size(t)
  {
    var d := Deref(h, t);
    match d
    case Var(_) => false
    case Compound(_, xs) =>
      ArgsBelow(h, xs);
      forall i :: 0 <= i < |xs| ==> Ground(h, xs[i])
    case _ => true
  }

  lemma {:induction false} GroundIsVariableFree(h: Heap, t: Term)
    requires Valid(h)
    ensures Ground(h, t) <==> IsGroundValue(Canon(h, t))
    decreases Height(h, t), Size(t)
  {
    var d := Deref(h, t);
    if d.Compound? {
      ArgsBelow(h, d.args);
      forall i | 0 <= i < |d.args| ensures Ground(h, d.args[i]) <==> IsGroundValue(Canon(h, d.args[i])) {
        GroundIsVariableFree(h, d.args[i]);
      }
      assert forall i | 0 <= i < |d.args| :: Canon(h, t).args[i] == Canon(h, d.args[i]);
    }
  }
}
