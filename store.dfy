// The mutable variable cells of `Variable.ts`: `getValue` walks a binding
// chain with a loop, and `unify` binds a cell in place. As written, the
// binding is never undone when the single solution is resumed (the `finally`
// that would unbind it is commented out), so every binding made by a
// unification stays in place after the unification has been left, even
// when a later argument pair failed.
module Cells {
  import opened Wrappers
  import opened Atoms
  import opened Terms
  import opened Binding
  import opened Unification

  /** The heap a unification leaves behind when bindings are never undone,
    * and whether it succeeded. */
  function Attempt(h: Heap, x: Term, y: Term): (r: (bool, Heap))
    requires Valid(h) && InScope(h.next, x) && InScope(h.next, y)
    ensures Valid(r.1) && r.1.next == h.next && Extends(h, r.1)
    ensures r.1 == h || Free(r.1) < Free(h)
    ensures r.0 == Unify(h, x, y).Some?
    ensures r.0 ==> r.1 == Unify(h, x, y).value
    decreases Free(h), Height(h, x) + Height(h, y), Size(x) + Size(y)
  {
    var dx := Deref(h, x);
    var dy := Deref(h, y);
    if dx.Var? then AttemptVariable(h, dx.id, dy)
    else if dy.Var? then AttemptVariable(h, dy.id, dx)
    else if dx.Sym? && dy.Sym? then (Equals(dx.atom, dy.atom), h)
    else if dx.Compound? && dy.Compound? then
      if Equals(dx.name, dy.name) && |dx.args| == |dy.args| then AttemptArgs(h, dx.args, dy.args)
      else (false, h)
    else if dx.Sym? || dy.Sym? || dx.Compound? || dy.Compound? then (false, h)
    else (dx == dy, h)
  }

  function AttemptVariable(h: Heap, v: nat, t: Term): (r: (bool, Heap))
    requires Valid(h) && v < h.next && v !in h.cells && InScope(h.next, t) && !Bound(h, t)
    ensures r.0 == UnifyVariable(h, v, t).Some?
    ensures r.0 ==> r.1 == UnifyVariable(h, v, t).value
    ensures !r.0 ==> r.1 == h
  {
    if t == Var(v) then (true, h)
    else if OccursIn(h, v, t) then (false, h)
    else (true, Bind(h, v, t))
  }

  /** Argument pairs left to right; the first failure stops, keeping the
    * bindings the earlier pairs made. */
  function AttemptArgs(h: Heap, xs: seq<Term>, ys: seq<Term>): (r: (bool, Heap))
    requires Valid(h) && |xs| == |ys| && InScopeArgs(h.next, xs) && InScopeArgs(h.next, ys)
    ensures Valid(r.1) && r.1.next == h.next && Extends(h, r.1)
    ensures r.1 == h || Free(r.1) < Free(h)
    ensures r.0 == UnifyArgs(h, xs, ys).Some?
    ensures r.0 ==> r.1 == UnifyArgs(h, xs, ys).value
    decreases Free(h), HeightArgs(h, xs) + HeightArgs(h, ys), SizeArgs(xs) + SizeArgs(ys)
  {
    if xs == [] then (true, h)
    else
      var (ok, h1) := Attempt(h, xs[0], ys[0]);
      if !ok then (false, h1)
      else
        InScopeArgsMonotone(h.next, h1.next, xs[1..]);
        InScopeArgsMonotone(h.next, h1.next, ys[1..]);
        AttemptArgs(h1, xs[1..], ys[1..])
  }

  /** The variable cells of the running program. */
  class VariableStore {
    var heap: Heap

    ghost predicate Valid()
      reads this
    {
      Terms.Valid(heap)
    }

    constructor()
      ensures Valid() && heap == EmptyHeap
    {
      heap := EmptyHeap;
    }

    /** `new Variable()`. */
    method NewVariable() returns (v: nat)
      requires Valid()
      modifies this
      ensures Valid() && (heap, v) == Terms.NewVariable(old(heap))
      ensures v == old(heap).next && v !in heap.cells
    {
      v := heap.next;
      heap := Heap(heap.cells, heap.rank, heap.next + 1);
      assert (heap, v) == Terms.NewVariable(old(heap));
    }

    /** `Variable.getValue` / `YP.getValue`: an unbound variable or a
      * non-variable is its own value; a bound variable's chain is followed
      * to its end. */
    method GetValue(t: Term) returns (r: Term)
      requires Valid()
      ensures r == Deref(heap, t)
      ensures !Bound(heap, r)
      ensures !Bound(heap, t) ==> r == t
    {
      if !(t.Var? && t.id in heap.cells) {
        return t;
      }
      var result := heap.cells[t.id];
      while result.Var?
        invariant Deref(heap, result) == Deref(heap, t)
        decreases Height(heap, result)
      {
        if result.id !in heap.cells {
          return result;
        }
        result := heap.cells[result.id];
      }
      return result;
    }

    /** `Variable.unify` on an unbound variable: bind it to the value of the
      * other side, unless that is the variable itself. The binding is left
      * in place. */
    method UnifyVariable(v: nat, t: Term) returns (succeeded: bool)
      requires Valid() && v < heap.next && v !in heap.cells && InScope(heap.next, t) && !Bound(heap, t)
      modifies this
      ensures Valid() && (succeeded, heap) == AttemptVariable(old(heap), v, t)
    {
      if t == Var(v) {
        return true;
      }
      if OccursIn(heap, v, t) {
        return false;
      }
      heap := Bind(heap, v, t);
      return true;
    }

    /** `YP.unify` with the cells updated in place, as the source does it. */
    method Unify(x: Term, y: Term) returns (succeeded: bool)
      requires Valid() && InScope(heap.next, x) && InScope(heap.next, y)
      modifies this
      ensures Valid() && (succeeded, heap) == Attempt(old(heap), x, y)
      decreases Free(heap), Height(heap, x) + Height(heap, y), Size(x) + Size(y)
    {
      var dx := GetValue(x);
      var dy := GetValue(y);
      if dx.Var? {
        succeeded := UnifyVariable(dx.id, dy);
      } else if dy.Var? {
        succeeded := UnifyVariable(dy.id, dx);
      } else if dx.Sym? && dy.Sym? {
        succeeded := Equals(dx.atom, dy.atom);
      } else if dx.Compound? && dy.Compound? {
        if !(Equals(dx.name, dy.name) && |dx.args| == |dy.args|) {
          return false;
        }
        succeeded := UnifyArgs(x, y, dx.args, dy.args);
      } else if dx.Sym? || dy.Sym? || dx.Compound? || dy.Compound? {
        succeeded := false;
      } else {
        succeeded := dx == dy;
      }
    }

    /** The argument loop of the Functor `unify` methods. */
    method UnifyArgs(x: Term, y: Term, xs: seq<Term>, ys: seq<Term>) returns (succeeded: bool)
      requires Valid() && |xs| == |ys|
      requires InScope(heap.next, x) && InScope(heap.next, y)
      requires Deref(heap, x).Compound? && Deref(heap, x).args == xs
      requires Deref(heap, y).Compound? && Deref(heap, y).args == ys
      modifies this
      ensures Valid() && (succeeded, heap) == AttemptArgs(old(heap), xs, ys)
      decreases Free(heap), Height(heap, x) + Height(heap, y), Size(x) + Size(y), 0
    {
      var h0 := heap;
      assert InScopeArgs(h0.next, xs) && InScopeArgs(h0.next, ys);
      var i := 0;
      while i < |xs|
        invariant 0 <= i <= |xs|
        invariant Valid() && heap.next == h0.next && Extends(h0, heap)
        invariant heap == h0 || Free(heap) < Free(h0)
        invariant InScopeArgs(heap.next, xs[i..]) && InScopeArgs(heap.next, ys[i..])
        invariant AttemptArgs(h0, xs, ys) == AttemptArgs(heap, xs[i..], ys[i..])
      {
        assert xs[i..][0] == xs[i] && ys[i..][0] == ys[i];
        assert xs[i..][1..] == xs[i + 1..] && ys[i..][1..] == ys[i + 1..];
        ArgMeasure(h0, x, y, i);
        var ok := Unify(xs[i], ys[i]);
        if !ok {
          return false;
        }
        i := i + 1;
      }
      assert xs[i..] == [] && ys[i..] == [];
      return true;
    }

    /** `Variable.unify` as its doc-comment describes it: bind, yield the one
      * solution, then put the variable back in the unbound state. The cells
      * are as they were once the solutions have been consumed. */
    method UnifyScoped(x: Term, y: Term) returns (solutions: seq<Heap>)
      requires Valid() && InScope(heap.next, x) && InScope(heap.next, y)
      modifies this
      ensures Valid() && heap == old(heap)
      ensures solutions == UnifySolutions(old(heap), x, y)
    {
      var saved := heap;
      var ok := Unify(x, y);
      solutions := if ok then [heap] else [];
      heap := saved;
    }
  }

  /** The i-th argument pair of two dereferenced compounds is smaller than
    * the pair of terms they were reached from. */
  lemma ArgMeasure(h: Heap, x: Term, y: Term, i: nat)
    requires Terms.Valid(h) && Deref(h, x).Compound? && Deref(h, y).Compound?
    requires i < |Deref(h, x).args| && i < |Deref(h, y).args|
    ensures
      var (a, b) := (Deref(h, x).args[i], Deref(h, y).args[i]);
      Height(h, a) + Height(h, b) < Height(h, x) + Height(h, y) ||
      (Height(h, a) + Height(h, b) == Height(h, x) + Height(h, y) && Size(a) + Size(b) < Size(x) + Size(y))
  {
    var dx, dy := Deref(h, x), Deref(h, y);
    HeightArgsAt(h, dx.args, i);
    HeightArgsAt(h, dy.args, i);
    assert dx == x || Height(h, dx) < Height(h, x);
    assert dy == y || Height(h, dy) < Height(h, y);
  }

  // ---------------------------------------------------------------------
  // `(X = a, fail ; X = b)`: the left branch binds X and fails; the right
  // branch should then find X unbound.

  const A := Sym(Atom("a", None))
  const B := Sym(Atom("b", None))

  /** With bindings left in place, the right branch fails. */
  lemma PersistentBindingBreaksBacktracking()
    ensures Attempt(Terms.NewVariable(EmptyHeap).0, Var(0), A).0
    ensures Unify(Attempt(Terms.NewVariable(EmptyHeap).0, Var(0), A).1, Var(0), B) == None
  {
    var h0 := Terms.NewVariable(EmptyHeap).0;
    var h1 := Attempt(h0, Var(0), A).1;
    assert Deref(h0, Var(0)) == Var(0);
    assert !OccursIn(h0, 0, A);
    assert h1.cells[0] == A;
    assert Deref(h1, Var(0)) == A;
  }

  /** With bindings undone, the right branch succeeds and binds X to b. */
  lemma ScopedBindingBacktracks()
    ensures UnifySolutions(Terms.NewVariable(EmptyHeap).0, Var(0), A) != []
    ensures Unify(Terms.NewVariable(EmptyHeap).0, Var(0), B).Some?
    ensures Unify(Terms.NewVariable(EmptyHeap).0, Var(0), B).value.cells[0] == B
  {
    var h0 := Terms.NewVariable(EmptyHeap).0;
    assert Deref(h0, Var(0)) == Var(0);
    assert !OccursIn(h0, 0, A) && !OccursIn(h0, 0, B);
  }
}
