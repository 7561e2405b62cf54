// The term model: atoms, variables, other host values and compound terms,
// with variables standing for binding cells of an explicit heap.
module Terms {
  import opened Wrappers
  import opened Atoms

  /** A Prolog term. `Var(id)` is a Variable object (a cell of the heap);
    * `Int` and `Str` are the host's numbers and strings; `Compound` stands
    * for Functor1, Functor2, Functor3 and Functor according to the number
    * of arguments (a list cell `ListPair` is a `.`/2 compound). */
  datatype Term =
    | Var(id: nat)
    | Sym(atom: Atom)
    | Int(value: int)
    | Str(text: string)
    | Compound(name: Atom, args: seq<Term>)

  /** Variable cells. `cells[v]` is the value a bound variable v holds (an
    * unbound variable has no entry); `next` is the first identifier never
    * handed out. `rank` is a device of the model: an upper bound on the
    * height of each binding, which makes every walk through bindings
    * terminate. */
  datatype Heap = Heap(cells: map<nat, Term>, rank: map<nat, nat>, next: nat)

  const EmptyHeap := Heap(map[], map[], 0)

  // ---------------------------------------------------------------------
  // Measures.

  function Size(t: Term): nat
  {
    match t
    case Compound(_, args) => 1 + SizeArgs(args)
    case _ => 1
  }

  function SizeArgs(args: seq<Term>): nat
  {
    if args == [] then 0 else 1 + Size(args[0]) + SizeArgs(args[1..])
  }

  function Max(a: nat, b: nat): nat { if a < b then b else a }

  /** The highest rank (plus one) of a bound variable occurring directly in t. */
  function Height(h: Heap, t: Term): nat
  {
    match t
    case Var(u) => if u in h.rank then h.rank[u] + 1 else 0
    case Compound(_, args) => HeightArgs(h, args)
    case _ => 0
  }

  function HeightArgs(h: Heap, args: seq<Term>): nat
  {
    if args == [] then 0 else Max(Height(h, args[0]), HeightArgs(h, args[1..]))
  }

  /** Every variable of t was handed out by a heap whose counter is `next`. */
  predicate InScope(next: nat, t: Term)
  {
    match t
    case Var(u) => u < next
    case Compound(_, args) => InScopeArgs(next, args)
    case _ => true
  }

  predicate InScopeArgs(next: nat, args: seq<Term>)
  {
    args == [] || (InScope(next, args[0]) && InScopeArgs(next, args[1..]))
  }

  lemma {:induction false} InScopeArgsAt(next: nat, args: seq<Term>, i: nat)
    requires i < |args|
    ensures InScopeArgs(next, args) ==> InScope(next, args[i])
    decreases |args|
  {
    if i > 0 { InScopeArgsAt(next, args[1..], i - 1); }
  }

  lemma {:induction false} InScopeArgsAll(next: nat, args: seq<Term>)
    requires forall i :: 0 <= i < |args| ==> InScope(next, args[i])
    ensures InScopeArgs(next, args)
    decreases |args|
  {
    if args != [] { InScopeArgsAll(next, args[1..]); }
  }

  lemma {:induction false} HeightArgsAt(h: Heap, args: seq<Term>, i: nat)
    requires i < |args|
    ensures Height(h, args[i]) <= HeightArgs(h, args)
    ensures Size(args[i]) < SizeArgs(args)
    decreases |args|
  {
    if i > 0 { HeightArgsAt(h, args[1..], i - 1); }
  }

  lemma {:induction false} InScopeMonotone(n: nat, m: nat, t: Term)
    requires n <= m && InScope(n, t)
    ensures InScope(m, t)
    decreases t, 1
  {
    if t.Compound? { InScopeArgsMonotone(n, m, t.args); }
  }

  lemma {:induction false} InScopeArgsMonotone(n: nat, m: nat, args: seq<Term>)
    requires n <= m && InScopeArgs(n, args)
    ensures InScopeArgs(m, args)
    decreases args, 0
  {
    if args != [] {
      InScopeMonotone(n, m, args[0]);
      InScopeArgsMonotone(n, m, args[1..]);
    }
  }

  // ---------------------------------------------------------------------
  // Heap well-formedness.

  /** Every bound variable was handed out, holds an in-scope value, and its
    * value only mentions bound variables of strictly smaller rank: binding
    * chains and nested bindings never lead back to where they started. */
  predicate Valid(h: Heap)
  {
    h.cells.Keys == h.rank.Keys &&
    forall v | v in h.cells :: v < h.next && InScope(h.next, h.cells[v]) && Height(h, h.cells[v]) <= h.rank[v]
  }

  predicate Bound(h: Heap, t: Term)
  {
    t.Var? && t.id in h.cells
  }

  /** `getValue`: follow the chain of bound variables to the first unbound
    * variable or non-variable value. */
  function Deref(h: Heap, t: Term): (r: Term)
    requires Valid(h)
    ensures !Bound(h, r)
    ensures !Bound(h, t) ==> r == t
    ensures Bound(h, t) ==> Height(h, r) < Height(h, t)
    ensures Height(h, r) <= Height(h, t)
    ensures InScope(h.next, t) ==> InScope(h.next, r)
    decreases Height(h, t)
  {
    if Bound(h, t) then Deref(h, h.cells[t.id]) else t
  }

  /** The number of handed-out variables that are still unbound. */
  function Free(h: Heap): nat
  {
    |set v | 0 <= v < h.next && v !in h.cells|
  }

  /** h2 keeps every binding of h1 and hands out no fewer identifiers. */
  predicate Extends(h1: Heap, h2: Heap)
  {
    h1.next <= h2.next &&
    forall v | v in h1.cells :: v in h2.cells && h2.cells[v] == h1.cells[v]
  }

  lemma ExtendsTransitive(h1: Heap, h2: Heap, h3: Heap)
    requires Extends(h1, h2) && Extends(h2, h3)
    ensures Extends(h1, h3)
  {
  }

  /** Following bindings in a larger heap goes on from where the smaller
    * heap stopped. */
  lemma {:induction false} DerefExtends(h1: Heap, h2: Heap, t: Term)
    requires Valid(h1) && Valid(h2) && Extends(h1, h2)
    ensures Deref(h2, t) == Deref(h2, Deref(h1, t))
    decreases Height(h1, t)
  {
    if Bound(h1, t) {
      DerefExtends(h1, h2, h1.cells[t.id]);
    }
  }

  // ---------------------------------------------------------------------
  // Handing out fresh variables.

  /** `new Variable()`: a fresh, unbound variable. */
  function NewVariable(h: Heap): (r: (Heap, nat))
    requires Valid(h)
    ensures Valid(r.0) && r.0.cells == h.cells && r.0.next == h.next + 1
    ensures r.1 == h.next && r.1 !in h.cells
    ensures Extends(h, r.0)
  {
    var h' := Heap(h.cells, h.rank, h.next + 1);
    assert forall v | v in h.cells :: InScope(h'.next, h.cells[v]) by {
      forall v | v in h.cells ensures InScope(h'.next, h.cells[v]) {
        InScopeMonotone(h.next, h'.next, h.cells[v]);
      }
    }
    assert forall v | v in h.cells :: Height(h', h.cells[v]) == Height(h, h.cells[v]) by {
      forall v | v in h.cells ensures Height(h', h.cells[v]) == Height(h, h.cells[v]) {
        HeightSameRank(h, h', h.cells[v]);
      }
    }
    (h', h.next)
  }

  /** n fresh variables, in order of creation. */
  function NewVariables(h: Heap, n: nat): (r: (Heap, seq<nat>))
    requires Valid(h)
    ensures Valid(r.0) && r.0.cells == h.cells && r.0.next == h.next + n
    ensures |r.1| == n && forall i :: 0 <= i < n ==> r.1[i] == h.next + i
    ensures Extends(h, r.0)
    decreases n
  {
    if n == 0 then (h, [])
    else
      var (h1, vs) := NewVariables(h, n - 1);
      var (h2, v) := NewVariable(h1);
      (h2, vs + [v])
  }

  lemma {:induction false} HeightSameRank(h1: Heap, h2: Heap, t: Term)
    requires h1.rank == h2.rank
    ensures Height(h1, t) == Height(h2, t)
    decreases t, 1
  {
    if t.Compound? { HeightArgsSameRank(h1, h2, t.args); }
  }

  lemma {:induction false} HeightArgsSameRank(h1: Heap, h2: Heap, args: seq<Term>)
    requires h1.rank == h2.rank
    ensures HeightArgs(h1, args) == HeightArgs(h2, args)
    decreases args, 0
  {
    if args != [] {
      HeightSameRank(h1, h2, args[0]);
      HeightArgsSameRank(h1, h2, args[1..]);
    }
  }
}
