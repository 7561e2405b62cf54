// Binding an unbound variable, keeping the heap well-formed.
module Binding {
  import opened Terms

  /** v occurs in the value t stands for, looking through bindings. */
  predicate OccursIn(h: Heap, v: nat, t: Term)
    requires Valid(h)
    decreases Height(h, t), Size(t)
  {
    match t
    case Var(u) => u == v || (u in h.cells && OccursIn(h, v, h.cells[u]))
    case Compound(_, args) => OccursInArgs(h, v, args)
    case _ => false
  }

  predicate OccursInArgs(h: Heap, v: nat, args: seq<Term>)
    requires Valid(h)
    decreases HeightArgs(h, args), SizeArgs(args)
  {
    args != [] && (OccursIn(h, v, args[0]) || OccursInArgs(h, v, args[1..]))
  }

  /** The rank map after binding v to t: v gets the height of t, and every
    * binding through which v is reachable is raised above it. */
  function BumpedRank(h: Heap, v: nat, t: Term): map<nat, nat>
    requires Valid(h) && v !in h.cells
  {
    map w | w in h.cells.Keys + {v} ::
      if w == v then Height(h, t)
      else if OccursIn(h, v, h.cells[w]) then h.rank[w] + Height(h, t) + 1
      else h.rank[w]
  }

  /** Bind the unbound variable v to t (the binding half of
    * `Variable.unify`). The caller has made sure that t does not contain v. */
  function Bind(h: Heap, v: nat, t: Term): (r: Heap)
    requires Valid(h) && v < h.next && v !in h.cells && InScope(h.next, t)
    requires !OccursIn(h, v, t)
    ensures Valid(r)
    ensures r.cells == h.cells[v := t] && r.next == h.next
    ensures Extends(h, r)
    ensures Free(r) < Free(h)
  {
    var r := Heap(h.cells[v := t], BumpedRank(h, v, t), h.next);
    forall w | w in r.cells
      ensures w < r.next && InScope(r.next, r.cells[w]) && Height(r, r.cells[w]) <= r.rank[w]
    {
      if w == v {
        HeightAfterBind(h, r, v, t, t);
      } else {
        HeightAfterBind(h, r, v, t, h.cells[w]);
      }
    }
    var before := set u | 0 <= u < h.next && u !in h.cells;
    var after := set u | 0 <= u < r.next && u !in r.cells;
    assert after == before - {v};
    r
  }

  /** Heights after binding grow only for terms through which v is reached. */
  lemma {:induction false} HeightAfterBind(h: Heap, r: Heap, v: nat, t: Term, s: Term)
    requires Valid(h) && v !in h.cells && !OccursIn(h, v, t)
    requires r.rank == BumpedRank(h, v, t)
    ensures Height(r, s) <= Height(h, s) + (if OccursIn(h, v, s) then Height(h, t) + 1 else 0)
    decreases Height(h, s), Size(s)
  {
    match s
    case Var(u) =>
    case Compound(_, args) => HeightArgsAfterBind(h, r, v, t, args);
    case _ =>
  }

  lemma {:induction false} HeightArgsAfterBind(h: Heap, r: Heap, v: nat, t: Term, args: seq<Term>)
    requires Valid(h) && v !in h.cells && !OccursIn(h, v, t)
    requires r.rank == BumpedRank(h, v, t)
    ensures HeightArgs(r, args) <= HeightArgs(h, args) + (if OccursInArgs(h, v, args) then Height(h, t) + 1 else 0)
    decreases HeightArgs(h, args), SizeArgs(args)
  {
    if args != [] {
      HeightAfterBind(h, r, v, t, args[0]);
      HeightArgsAfterBind(h, r, v, t, args[1..]);
    }
  }
  /** A variable handed out after every variable of t, and after those that
    * the bindings t reaches mention, cannot occur in t. */
  lemma {:induction false} NotOccursAbove(h: Heap, v: nat, n: nat, t: Term)
    requires Valid(h) && n <= v && InScope(n, t)
    requires forall u | u in h.cells && u < n :: InScope(n, h.cells[u])
    ensures !OccursIn(h, v, t)
    decreases Height(h, t), Size(t)
  {
    match t
    case Var(u) =>
      if u in h.cells { NotOccursAbove(h, v, n, h.cells[u]); }
    case Compound(_, args) => NotOccursAboveArgs(h, v, n, args);
    case _ =>
  }

  lemma {:induction false} NotOccursAboveArgs(h: Heap, v: nat, n: nat, args: seq<Term>)
    requires Valid(h) && n <= v && InScopeArgs(n, args)
    requires forall u | u in h.cells && u < n :: InScope(n, h.cells[u])
    ensures !OccursInArgs(h, v, args)
    decreases HeightArgs(h, args), SizeArgs(args)
  {
    if args != [] {
      NotOccursAbove(h, v, n, args[0]);
      NotOccursAboveArgs(h, v, n, args[1..]);
    }
  }
}
