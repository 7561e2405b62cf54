// `FindallAnswers`, the answer accumulator the compiled code of
// `findall/3`, `bagof/3` and `setof/3` uses: each solution of the goal adds a
// fresh copy of the template, and `result` unifies the bag with the list of
// copies.
module Findall {
  import opened Wrappers
  import opened Terms
  import opened Equality
  import opened Unification
  import opened Variables
  import opened Copying
  import opened Lists
  import opened Binding

  class FindallAnswers {
    const template: Term
    /** `_bagArray`: the copies so far, in `add` order; `None` once
      * `result` has released it. */
    var bag: Option<seq<Term>>

    constructor (t: Term)
      ensures template == t && bag == Some([])
    {
      template := t;
      bag := Some([]);
    }

    /** `add`: appends a copy of the template as it stands in h, its
      * unbound variables renamed one to one to variables drawn fresh from
      * the heap. */
    method Add(h: Heap) returns (h': Heap, copy: Term, ghost m: map<nat, nat>)
      requires bag.Some? && Valid(h) && InScope(h.next, template)
      modifies this
      ensures bag == Some(old(bag.value) + [copy])
      ensures Valid(h') && SameCells(h, h') && h.next <= h'.next
      ensures Copied(h, template, copy, m) && Injective(m)
      ensures forall v :: v in VarList(copy) ==> h.next <= v < h'.next && v !in h'.cells
    {
      h', copy, m := CopyTerm(h, template);
      bag := Some(bag.value + [copy]);
    }

    /** `resultArray`: the copies in `add` order, kept. */
    method ResultArray() returns (copies: seq<Term>)
      requires bag.Some?
      ensures copies == bag.value
    {
      copies := bag.value;
    }

    /** `result(Bag)`: unifies Bag with the list of the copies in `add`
      * order and releases them, so that a second call is not possible. */
    method Result(h: Heap, bagTerm: Term) returns (solutions: seq<Heap>)
      requires bag.Some? && Valid(h) && InScope(h.next, bagTerm)
      requires forall i | 0 <= i < |bag.value| :: InScope(h.next, bag.value[i])
      modifies this
      ensures bag == None
      ensures (MakeListInScope(h.next, old(bag.value));
        solutions == UnifySolutions(h, bagTerm, MakeList(old(bag.value))))
      ensures forall k | 0 <= k < |solutions| :: TermEqual(solutions[k], bagTerm, MakeList(old(bag.value)))
    {
      var items := bag.value;
      MakeListInScope(h.next, items);
      var list := MakeList(items);
      bag := None;
      solutions := UnifySolutions(h, bagTerm, list);
    }
  }

  /** Unifying an unbound bag with the result makes it read back as the
    * copies, in `add` order, as long as the copies' variables are still
    * unbound. */
  lemma ResultOfUnboundBag(h: Heap, v: nat, items: seq<Term>)
    requires Valid(h) && v < h.next && v !in h.cells
    requires forall i | 0 <= i < |items| :: InScope(h.next, items[i]) && Unbound(h, v, items[i])
    ensures (MakeListInScope(h.next, items);
      |UnifySolutions(h, Var(v), MakeList(items))| == 1 &&
      ToArray(UnifySolutions(h, Var(v), MakeList(items))[0], Var(v)) == Items(items))
  {
    MakeListInScope(h.next, items);
    var list := MakeList(items);
    NotInListVariables(h, v, items);
    UnifyBindsUnboundVariable(h, Var(v), list);
    var s := Unify(h, Var(v), list).value;
    assert Bound(s, Var(v)) && s.cells[v] == list;
    ToArrayMakeList(s, items);
  }

  /** Every variable of t is unbound in h and other than v. */
  predicate Unbound(h: Heap, v: nat, t: Term)
  {
    forall u | u in VarList(t) :: u != v && u !in h.cells
  }

  lemma {:induction false} OccursNotIn(h: Heap, v: nat, t: Term)
    requires Valid(h) && Unbound(h, v, t)
    ensures !OccursIn(h, v, t)
    decreases t, 1
  {
    if t.Compound? {
      assert VarList(t) == VarListArgs(t.args);
      OccursNotInArgs(h, v, t.args);
    }
  }

  lemma {:induction false} OccursNotInArgs(h: Heap, v: nat, xs: seq<Term>)
    requires Valid(h) && forall u | u in VarListArgs(xs) :: u != v && u !in h.cells
    ensures !OccursInArgs(h, v, xs)
    decreases xs, 0
  {
    if xs != [] {
      assert VarListArgs(xs) == VarList(xs[0]) + VarListArgs(xs[1..]);
      forall u | u in VarList(xs[0]) ensures u != v && u !in h.cells {
        assert u in VarListArgs(xs);
      }
      forall u | u in VarListArgs(xs[1..]) ensures u != v && u !in h.cells {
        assert u in VarListArgs(xs);
      }
      OccursNotIn(h, v, xs[0]);
      OccursNotInArgs(h, v, xs[1..]);
    }
  }

  /** The list holds v nowhere, so v does not occur in it. */
  lemma {:induction false} NotInListVariables(h: Heap, v: nat, items: seq<Term>)
    requires Valid(h) && v !in h.cells
    requires forall i | 0 <= i < |items| :: InScope(h.next, items[i]) && Unbound(h, v, items[i])
    ensures Deref(h, MakeList(items)) != Var(v) && !OccursIn(h, v, MakeList(items))
    decreases |items|
  {
    if items != [] {
      var rest := MakeList(items[1..]);
      NotInListVariables(h, v, items[1..]);
      OccursNotIn(h, v, items[0]);
      var args := [items[0], rest];
      assert args[1..] == [rest] && args[1..][1..] == [];
      assert !OccursInArgs(h, v, args[1..]);
    }
  }
}
