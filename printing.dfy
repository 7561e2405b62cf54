// The `toString` methods of terms, and `Functor2.listPairToString`.
module Printing {
  import opened Wrappers
  import opened Text
  import opened Atoms
  import opened Terms
  import opened Lists

  /** `toString` of the value of t: an unbound variable prints as
    * `_Variable`, an atom as its bare name, numbers and strings as the host
    * prints them, a list cell as a bracketed list, and any other compound
    * as `name(arg, ...)`. Compounds of more than three arguments are taken
    * to print like the Functor1-3 classes. */
  function TermToString(h: Heap, t: Term): string
    requires Valid(h)
    decreases Height(h, t), Size(t), 1
  {
    var d := Deref(h, t);
    match d
    case Var(_) => "_Variable"
    case Sym(a) => a.name
    case Int(i) => IntToString(i)
    case Str(s) => s
    case Compound(n, xs) =>
      if IsCons(d) then "[" + ListText(h, d) + "]"
      else n.name + "(" + ArgsText(h, xs, d) + ")"
  }

  /** The arguments separated by ", ". */
  function ArgsText(h: Heap, xs: seq<Term>, parent: Term): string
    requires Valid(h) && !Bound(h, parent) && parent.Compound? && xs <= parent.args
    decreases Height(h, parent), Size(parent), 0, |xs|
  {
    if xs == [] then ""
    else
      HeightArgsAt(h, parent.args, |xs| - 1);
      var last := TermToString(h, xs[|xs| - 1]);
      if |xs| == 1 then last else ArgsText(h, xs[..|xs| - 1], parent) + ", " + last
  }

  /** The inside of the brackets for the list that starts at the cell d:
    * heads separated by ", ", and `|tail` when the list does not end in
    * `[]`. */
  function ListText(h: Heap, d: Term): string
    requires Valid(h) && !Bound(h, d) && IsCons(d)
    decreases Height(h, d), Size(d), 0, 0
  {
    HeightArgsAt(h, d.args, 0);
    HeightArgsAt(h, d.args, 1);
    var head := TermToString(h, d.args[0]);
    var tail := Deref(h, d.args[1]);
    if tail == Sym(NIL) then head
    else if IsCons(tail) then head + ", " + ListText(h, tail)
    else head + "|" + TermToString(h, tail)
  }

  /** `Functor2.listPairToString`: the loop along the cells of a list. */
  method ListPairToString(h: Heap, listPair: Term) returns (s: string)
    requires Valid(h) && !Bound(h, listPair) && IsCons(listPair)
    ensures s == TermToString(h, listPair)
  {
    var result := "[";
    var cell := listPair;
    while true
      invariant !Bound(h, cell) && IsCons(cell)
      invariant "[" + ListText(h, listPair) == result + ListText(h, cell)
      decreases Height(h, cell), Size(cell)
    {
      HeightArgsAt(h, cell.args, 1);
      var head := TermToString(h, cell.args[0]);
      var tail := Deref(h, cell.args[1]);
      if tail == Sym(NIL) {
        result := result + head;
        break;
      } else if IsCons(tail) {
        result := result + head + ", ";
        cell := tail;
      } else {
        result := result + head + "|" + TermToString(h, tail);
        break;
      }
    }
    result := result + "]";
    return result;
  }

  /** `[c, b, a]`: a three-element list of strings prints with its elements
    * in order, separated by ", ". */
  lemma ListOfThreePrints()
    ensures TermToString(EmptyHeap, MakeList([Str("c"), Str("b"), Str("a")])) == "[c, b, a]"
  {
    var h := EmptyHeap;
    var l1 := MakeList([Str("a")]);
    var l2 := MakeList([Str("b"), Str("a")]);
    var l3 := MakeList([Str("c"), Str("b"), Str("a")]);
    assert l1 == Cons(Str("a"), Sym(NIL));
    assert l2 == Cons(Str("b"), l1);
    assert l3 == Cons(Str("c"), l2);
    assert ListText(h, l1) == "a";
    assert ListText(h, l2) == "b, a";
    assert ListText(h, l3) == "c, b, a";
  }
}
