// Prolog lists as `.`/2 cells ending in `[]`: building them from an array
// (`ListPair.make`) and reading them back (`ListPair.toArray`).
module Lists {
  import opened Wrappers
  import opened Atoms
  import opened Terms

  /** A list cell `[head|tail]`. */
  function Cons(head: Term, tail: Term): Term
  {
    Compound(DOT, [head, tail])
  }

  predicate IsCons(t: Term)
  {
    t.Compound? && t.name == DOT && |t.args| == 2
  }

  /** `ListPair.make(array)`: the proper list of the items, in order. */
  function MakeList(items: seq<Term>): (l: Term)
    ensures items == [] <==> l == Sym(NIL)
    decreases |items|
  {
    if items == [] then Sym(NIL) else Cons(items[0], MakeList(items[1..]))
  }

  lemma {:induction false} MakeListInScope(next: nat, items: seq<Term>)
    requires forall i :: 0 <= i < |items| ==> InScope(next, items[i])
    ensures InScope(next, MakeList(items))
    decreases |items|
  {
    if items != [] {
      MakeListInScope(next, items[1..]);
      var args := [items[0], MakeList(items[1..])];
      assert args[1..] == [MakeList(items[1..])] && args[1..][1..] == [];
      assert InScopeArgs(next, args);
    }
  }

  /** What `ListPair.toArray` finds: the items of a proper list, no list at
    * all, or an unbound variable where the list should be. */
  datatype ListView = Items(items: seq<Term>) | NotAList | Unbound

  /** `ListPair.toArray`: follow the cells of a list to `[]`, collecting the
    * heads. A partial list and any other term are not lists; an unbound
    * variable in place of the whole list is reported separately. */
  function ToArray(h: Heap, t: Term): (r: ListView)
    requires Valid(h)
    ensures r.Unbound? <==> Deref(h, t).Var?
  {
    var d := Deref(h, t);
    if d.Var? then Unbound
    else match Walk(h, d)
      case None => NotAList
      case Some(items) => Items(items)
  }

  /** The heads of the cells from the (dereferenced) cell d onwards. */
  function Walk(h: Heap, d: Term): (r: Option<seq<Term>>)
    requires Valid(h)
    decreases Height(h, d), Size(d)
  {
    if d == Sym(NIL) then Some([])
    else if IsCons(d) then
      HeightArgsAt(h, d.args, 1);
      var tail := Deref(h, d.args[1]);
      match Walk(h, tail)
      case None => None
      case Some(rest) => Some([d.args[0]] + rest)
    else None
  }

  /** Reading back a list that was built from items gives the items. */
  lemma {:induction false} ToArrayMakeList(h: Heap, items: seq<Term>)
    requires Valid(h)
    ensures ToArray(h, MakeList(items)) == Items(items)
  {
    WalkMakeList(h, items);
  }

  lemma {:induction false} WalkMakeList(h: Heap, items: seq<Term>)
    requires Valid(h)
    ensures Walk(h, MakeList(items)) == Some(items)
    decreases |items|
  {
    if items != [] {
      var l := MakeList(items);
      WalkMakeList(h, items[1..]);
      assert Deref(h, l.args[1]) == MakeList(items[1..]);
      assert [items[0]] + items[1..] == items;
    }
  }

  /** The items of a list reached from an in-scope term are in scope. */
  lemma {:induction false} WalkInScope(h: Heap, d: Term)
    requires Valid(h) && InScope(h.next, d) && Walk(h, d).Some?
    ensures forall i :: 0 <= i < |Walk(h, d).value| ==> InScope(h.next, Walk(h, d).value[i])
    decreases Height(h, d), Size(d)
  {
    if IsCons(d) {
      HeightArgsAt(h, d.args, 1);
      InScopeArgsAt(h.next, d.args, 0);
      InScopeArgsAt(h.next, d.args, 1);
      WalkInScope(h, Deref(h, d.args[1]));
    }
  }

  lemma ToArrayInScope(h: Heap, t: Term)
    requires Valid(h) && InScope(h.next, t) && ToArray(h, t).Items?
    ensures forall i :: 0 <= i < |ToArray(h, t).items| ==> InScope(h.next, ToArray(h, t).items[i])
  {
    WalkInScope(h, Deref(h, t));
  }

  /** `[]` is the empty list; a bound atom or number is no list. */
  lemma ToArrayOfAtomic(h: Heap, t: Term)
    requires Valid(h) && !Deref(h, t).Var? && !Deref(h, t).Compound?
    ensures ToArray(h, t) == if Deref(h, t) == Sym(NIL) then Items([]) else NotAList
  {
  }
}
