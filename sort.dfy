// `sort/2`: `YP.sort`, `YP.sortArray` (an in-place sort by
// `compareTerms`) and `ListPair.makeWithoutRepeatedTerms`.
module Sorting {
  import opened Wrappers
  import opened Atoms
  import opened Terms
  import opened Equality
  import opened Variables
  import opened Ordering
  import opened Lists
  import opened Unification
  import opened Errors

  // ---------------------------------------------------------------------
  // compareTerms once every variable involved has its identifier.

  /** Hand identifiers to the variables of vs, in order. */
  function NumberVariables(o: VarOrder, vs: seq<nat>): (r: VarOrder)
    requires OrderValid(o)
    ensures OrderValid(r) && Grows(o, r)
    ensures forall v :: v in vs ==> v in r.ids
    decreases |vs|
  {
    if vs == [] then o
    else
      var r := NumberVariables(AssignId(o, vs[0]), vs[1..]);
      assert forall v :: v in vs ==> v == vs[0] || v in vs[1..];
      r
  }

  /** After numbering the variables of all the items, every item is
    * numbered. */
  lemma NumberingCoversItems(h: Heap, o: VarOrder, items: seq<Term>)
    requires Valid(h) && OrderValid(o)
    ensures AllNumbered(h, NumberVariables(o, VarListArgs(CanonArgs(h, items))), items)
  {
    var cs := CanonArgs(h, items);
    forall x | x in items ensures Numbered(h, NumberVariables(o, VarListArgs(cs)), x) {
      var i :| 0 <= i < |items| && items[i] == x;
      VarListArgsAt(cs, i);
    }
  }

  /** x is not after y: compareTerms does not answer 1. */
  predicate Le(h: Heap, o: VarOrder, x: Term, y: Term)
    requires Valid(h) && OrderValid(o)
  {
    CompareTerms(h, o, x, y).0 != 1
  }

  /** x is strictly before y: compareTerms answers -1. */
  predicate Lt(h: Heap, o: VarOrder, x: Term, y: Term)
    requires Valid(h) && OrderValid(o)
  {
    CompareTerms(h, o, x, y).0 == -1
  }

  /** For numbered terms compareTerms is decided by the values alone. */
  lemma CompareByValue(h: Heap, o: VarOrder, x: Term, y: Term)
    requires Valid(h) && Numbered(h, o, x) && Numbered(h, o, y)
    ensures CompareTerms(h, o, x, y).0 ==
      if Canon(h, x) == Canon(h, y) then 0 else if Before(o.ids, Canon(h, x), Canon(h, y)) then -1 else 1
  {
    CompareTermsIsTotalOrder(h, o, x, y, y);
    TermEqualIsCanonEquality(h, x, y);
  }

  lemma LeTotal(h: Heap, o: VarOrder, x: Term, y: Term)
    requires Valid(h) && Numbered(h, o, x) && Numbered(h, o, y)
    ensures Le(h, o, x, y) || Le(h, o, y, x)
  {
    CompareTermsIsTotalOrder(h, o, x, y, x);
  }

  lemma LeTransitive(h: Heap, o: VarOrder, x: Term, y: Term, z: Term)
    requires Valid(h) && Numbered(h, o, x) && Numbered(h, o, y) && Numbered(h, o, z)
    requires Le(h, o, x, y) && Le(h, o, y, z)
    ensures Le(h, o, x, z)
  {
    CompareByValue(h, o, x, y);
    CompareByValue(h, o, y, z);
    CompareByValue(h, o, x, z);
    var (cx, cy, cz) := (Canon(h, x), Canon(h, y), Canon(h, z));
    if cx != cy && cy != cz {
      BeforeTransitive(o.ids, cx, cy, cz);
    }
  }

  lemma LtLeTransitive(h: Heap, o: VarOrder, x: Term, y: Term, z: Term)
    requires Valid(h) && Numbered(h, o, x) && Numbered(h, o, y) && Numbered(h, o, z)
    requires Lt(h, o, x, y) && Le(h, o, y, z)
    ensures Lt(h, o, x, z)
  {
    CompareByValue(h, o, x, y);
    CompareByValue(h, o, y, z);
    CompareByValue(h, o, x, z);
    var (cx, cy, cz) := (Canon(h, x), Canon(h, y), Canon(h, z));
    if cy != cz {
      BeforeTransitive(o.ids, cx, cy, cz);
    }
    if cx == cz {
      BeforeTransitive(o.ids, cx, cy, cx);
      BeforeIrreflexive(o.ids, cx);
    }
  }

  predicate AllNumbered(h: Heap, o: VarOrder, s: seq<Term>)
    requires Valid(h)
  {
    forall x | x in s :: Numbered(h, o, x)
  }

  /** No item is after a later one. */
  predicate SortedBy(h: Heap, o: VarOrder, s: seq<Term>)
    requires Valid(h) && OrderValid(o)
  {
    forall p, q :: 0 <= p < q < |s| ==> Le(h, o, s[p], s[q])
  }

  /** Every item is strictly before every later one. */
  predicate StrictlyIncreasing(h: Heap, o: VarOrder, s: seq<Term>)
    requires Valid(h) && OrderValid(o)
  {
    forall p, q :: 0 <= p < q < |s| ==> Lt(h, o, s[p], s[q])
  }

  // ---------------------------------------------------------------------
  // Array.prototype.sort with a comparison function.

  /** cmp answers -1, 0 or 1, antisymmetrically, and "not after" is
    * transitive, on the elements of m. */
  predicate OrdersElements<T>(cmp: (T, T) -> int, m: multiset<T>)
  {
    (forall x, y | x in m && y in m :: -1 <= cmp(x, y) <= 1 && cmp(x, y) == -cmp(y, x)) &&
    (forall x, y, z | x in m && y in m && z in m :: cmp(x, y) != 1 && cmp(y, z) != 1 ==> cmp(x, z) != 1)
  }

  predicate SortedWith<T>(cmp: (T, T) -> int, s: seq<T>)
  {
    forall p, q :: 0 <= p < q < |s| ==> cmp(s[p], s[q]) != 1
  }

  /** `array.sort(cmp)`: an in-place sort that moves an item
    * before another only when cmp says the other is after it. */
  method ArraySort<T>(a: array<T>, cmp: (T, T) -> int)
    requires OrdersElements(cmp, multiset(a[..]))
    modifies a
    ensures SortedWith(cmp, a[..])
    ensures multiset(a[..]) == multiset(old(a[..]))
  {
    if a.Length < 2 {
      return;
    }
    var i := 1;
    while i < a.Length
      invariant 1 <= i <= a.Length
      invariant SortedWith(cmp, a[..i])
      invariant multiset(a[..]) == multiset(old(a[..]))
    {
      Insert(a, cmp, i);
      i := i + 1;
    }
    assert a[..i] == a[..];
  }

  /** Move a[i] left past the items before it that are after it. */
  method Insert<T>(a: array<T>, cmp: (T, T) -> int, i: nat)
    requires OrdersElements(cmp, multiset(a[..]))
    requires 0 < i < a.Length && SortedWith(cmp, a[..i])
    modifies a
    ensures SortedWith(cmp, a[..i + 1])
    ensures multiset(a[..]) == multiset(old(a[..]))
  {
    ghost var m := multiset(a[..]);
    var j := i;
    InsertStart(cmp, a[..], i);
    while j > 0 && cmp(a[j - 1], a[j]) == 1
      invariant 0 <= j <= i
      invariant multiset(a[..]) == m
      invariant Inserting(cmp, a[..], j, i)
    {
      ghost var s := a[..];
      a[j - 1], a[j] := a[j], a[j - 1];
      assert a[..] == s[j - 1 := s[j]][j := s[j - 1]];
      InsertStep(cmp, m, s, j, i);
      j := j - 1;
    }
    InsertDone(cmp, m, a[..], j, i);
  }

  /** Halfway through inserting s[j]: the items up to i other than s[j] are
    * in order, and s[j] is not after any item following it. */
  predicate Inserting<T>(cmp: (T, T) -> int, s: seq<T>, j: nat, i: nat)
    requires j <= i < |s|
  {
    (forall p, q :: 0 <= p < q <= i && p != j && q != j ==> cmp(s[p], s[q]) != 1) &&
    (forall q :: j < q <= i ==> cmp(s[j], s[q]) != 1)
  }

  lemma InsertStart<T>(cmp: (T, T) -> int, s: seq<T>, i: nat)
    requires i < |s| && SortedWith(cmp, s[..i])
    ensures Inserting(cmp, s, i, i)
  {
    forall p, q | 0 <= p < q <= i && p != i && q != i ensures cmp(s[p], s[q]) != 1 {
      assert s[p] == s[..i][p] && s[q] == s[..i][q];
    }
  }

  /** Swapping s[j] with the item before it, which is after it, moves the
    * insertion point one to the left. */
  lemma InsertStep<T>(cmp: (T, T) -> int, m: multiset<T>, s: seq<T>, j: nat, i: nat)
    requires OrdersElements(cmp, m) && multiset(s) == m
    requires 0 < j <= i < |s| && Inserting(cmp, s, j, i) && cmp(s[j - 1], s[j]) == 1
    ensures Inserting(cmp, s[j - 1 := s[j]][j := s[j - 1]], j - 1, i)
    ensures multiset(s[j - 1 := s[j]][j := s[j - 1]]) == m
  {
    var t := s[j - 1 := s[j]][j := s[j - 1]];
    assert s[j - 1] in m && s[j] in m;
    forall q | j - 1 < q <= i ensures cmp(t[j - 1], t[q]) != 1 {
      if q > j {
        assert t[q] == s[q];
      }
    }
  }

  /** Once s[j] is not after the item before it, the items up to i are in
    * order. */
  lemma InsertDone<T>(cmp: (T, T) -> int, m: multiset<T>, s: seq<T>, j: nat, i: nat)
    requires OrdersElements(cmp, m) && multiset(s) == m
    requires j <= i < |s| && Inserting(cmp, s, j, i) && (j == 0 || cmp(s[j - 1], s[j]) != 1)
    ensures SortedWith(cmp, s[..i + 1])
  {
    forall p, q | 0 <= p < q <= i ensures cmp(s[p], s[q]) != 1 {
      if q == j && p < j - 1 {
        assert s[p] in m && s[j - 1] in m && s[j] in m;
      }
    }
    var u := s[..i + 1];
    assert forall p :: 0 <= p < |u| ==> u[p] == s[p];
  }

  /** compareTerms as a comparison function. */
  function Comparator(h: Heap, o: VarOrder): (Term, Term) -> int
  {
    (x: Term, y: Term) => if Valid(h) && OrderValid(o) then CompareTerms(h, o, x, y).0 else 0
  }

  /** Once the items are numbered, compareTerms orders them. */
  lemma ComparatorOrders(h: Heap, o: VarOrder, s: seq<Term>)
    requires Valid(h) && OrderValid(o) && AllNumbered(h, o, s)
    ensures OrdersElements(Comparator(h, o), multiset(s))
  {
    var cmp := Comparator(h, o);
    forall x, y | x in multiset(s) && y in multiset(s)
      ensures -1 <= cmp(x, y) <= 1 && cmp(x, y) == -cmp(y, x)
    {
      CompareTermsIsTotalOrder(h, o, x, y, x);
    }
    forall x, y, z | x in multiset(s) && y in multiset(s) && z in multiset(s) && cmp(x, y) != 1 && cmp(y, z) != 1
      ensures cmp(x, z) != 1
    {
      LeTransitive(h, o, x, y, z);
    }
  }

  /** `sortArray`: `array.sort(YP.compareTerms)`. */
  method SortArray(h: Heap, o: VarOrder, a: array<Term>)
    requires Valid(h) && OrderValid(o) && AllNumbered(h, o, a[..])
    modifies a
    ensures SortedBy(h, o, a[..])
    ensures multiset(a[..]) == multiset(old(a[..]))
  {
    ComparatorOrders(h, o, a[..]);
    ArraySort(a, Comparator(h, o));
  }

  // ---------------------------------------------------------------------
  // makeWithoutRepeatedTerms.

  /** The items with each one dropped that is `termEqual` to the item after
    * it: one item (the last) is kept from each run of equal neighbours. */
  function WithoutRepeats(h: Heap, s: seq<Term>): (r: seq<Term>)
    requires Valid(h)
    ensures |r| <= |s|
    ensures forall k :: 0 <= k < |r| ==> r[k] in s
    decreases |s|
  {
    if |s| <= 1 then s
    else
      var rest := WithoutRepeats(h, s[1..]);
      assert forall k :: 0 <= k < |rest| ==> rest[k] in s;
      if TermEqual(h, s[0], s[1]) then rest else [s[0]] + rest
  }

  /** `ListPair.makeWithoutRepeatedTerms`: builds the list from its end,
    * skipping an item that is `termEqual` to the one after it. */
  method MakeWithoutRepeatedTerms(h: Heap, items: seq<Term>) returns (l: Term)
    requires Valid(h)
    ensures l == MakeList(WithoutRepeats(h, items))
  {
    l := Sym(NIL);
    var i := |items|;
    while i > 0
      invariant 0 <= i <= |items|
      invariant l == MakeList(WithoutRepeats(h, items[i..]))
    {
      i := i - 1;
      assert items[i..][1..] == items[i + 1..];
      if i == |items| - 1 || !TermEqual(h, items[i], items[i + 1]) {
        l := Cons(items[i], l);
      }
    }
  }

  /** The values an item list holds. */
  function Values(h: Heap, s: seq<Term>): set<Term>
    requires Valid(h)
  {
    set x | x in s :: Canon(h, x)
  }

  lemma {:induction false} WithoutRepeatsKeepsValues(h: Heap, s: seq<Term>)
    requires Valid(h)
    ensures Values(h, WithoutRepeats(h, s)) == Values(h, s)
    decreases |s|
  {
    if |s| > 1 {
      var rest := WithoutRepeats(h, s[1..]);
      WithoutRepeatsKeepsValues(h, s[1..]);
      assert s == [s[0]] + s[1..];
      assert Values(h, s) == {Canon(h, s[0])} + Values(h, s[1..]);
      if TermEqual(h, s[0], s[1]) {
        TermEqualIsCanonEquality(h, s[0], s[1]);
        assert s[1] in s[1..];
      } else {
        assert Values(h, [s[0]] + rest) == {Canon(h, s[0])} + Values(h, rest);
      }
    }
  }

  /** On sorted items, dropping repeats leaves them strictly increasing. */
  lemma {:induction false} WithoutRepeatsIncreasing(h: Heap, o: VarOrder, s: seq<Term>)
    requires Valid(h) && OrderValid(o) && AllNumbered(h, o, s) && SortedBy(h, o, s)
    ensures StrictlyIncreasing(h, o, WithoutRepeats(h, s))
    decreases |s|
  {
    if |s| > 1 {
      var rest := WithoutRepeats(h, s[1..]);
      SortedTail(h, o, s);
      WithoutRepeatsIncreasing(h, o, s[1..]);
      if !TermEqual(h, s[0], s[1]) {
        HeadBeforeRest(h, o, s, rest);
        ConsIncreasing(h, o, s[0], rest);
      }
    }
  }

  lemma SortedTail(h: Heap, o: VarOrder, s: seq<Term>)
    requires Valid(h) && OrderValid(o) && AllNumbered(h, o, s) && SortedBy(h, o, s) && |s| > 0
    ensures AllNumbered(h, o, s[1..]) && SortedBy(h, o, s[1..])
  {
    forall p, q | 0 <= p < q < |s[1..]| ensures Le(h, o, s[1..][p], s[1..][q]) {
      assert s[1..][p] == s[p + 1] && s[1..][q] == s[q + 1];
    }
  }

  /** An item strictly before every item of a strictly increasing sequence
    * can head it. */
  lemma ConsIncreasing(h: Heap, o: VarOrder, x: Term, rest: seq<Term>)
    requires Valid(h) && OrderValid(o) && StrictlyIncreasing(h, o, rest)
    requires forall k :: 0 <= k < |rest| ==> Lt(h, o, x, rest[k])
    ensures StrictlyIncreasing(h, o, [x] + rest)
  {
    var r := [x] + rest;
    forall p, q | 0 <= p < q < |r| ensures Lt(h, o, r[p], r[q]) {
      if p > 0 {
        assert r[p] == rest[p - 1] && r[q] == rest[q - 1];
      } else {
        assert r[q] == rest[q - 1];
      }
    }
  }

  /** The first of sorted items, when not equal to the second, is strictly
    * before every item drawn from the others. */
  lemma HeadBeforeRest(h: Heap, o: VarOrder, s: seq<Term>, rest: seq<Term>)
    requires Valid(h) && OrderValid(o) && AllNumbered(h, o, s) && SortedBy(h, o, s)
    requires |s| > 1 && !TermEqual(h, s[0], s[1])
    requires forall k :: 0 <= k < |rest| ==> rest[k] in s[1..]
    ensures forall k :: 0 <= k < |rest| ==> Lt(h, o, s[0], rest[k])
  {
    assert Le(h, o, s[0], s[1]);
    assert s[0] in s && s[1] in s;
    forall k | 0 <= k < |rest| ensures Lt(h, o, s[0], rest[k]) {
      var m :| 0 <= m < |s[1..]| && s[1..][m] == rest[k];
      assert s[m + 1] == rest[k] && rest[k] in s;
      if m > 0 {
        assert Le(h, o, s[1], s[m + 1]);
      } else {
        TermEqualReflexive(h, s[1]);
      }
      LtLeTransitive(h, o, s[0], s[1], rest[k]);
    }
  }

  // ---------------------------------------------------------------------
  // sort/2.

  /** result is the strictly increasing arrangement of the values of items,
    * drawn from items. */
  predicate SortedSetOf(h: Heap, o: VarOrder, result: seq<Term>, items: seq<Term>)
    requires Valid(h) && OrderValid(o)
  {
    StrictlyIncreasing(h, o, result) &&
    Values(h, result) == Values(h, items) &&
    (forall k :: 0 <= k < |result| ==> result[k] in items)
  }

  /** `YP.sort(List, Sorted)`. No list: no solution; an unbound variable in
    * place of the list: an instantiation error. Otherwise the items, after
    * every variable among them has an identifier, are sorted and stripped
    * of repeats, and Sorted is unified with the resulting list. */
  method Sort(h: Heap, o: VarOrder, list: Term, sorted: Term) returns (r: Outcome, o': VarOrder)
    requires Valid(h) && OrderValid(o) && InScope(h.next, list) && InScope(h.next, sorted)
    ensures OrderValid(o') && Grows(o, o')
    ensures ToArray(h, list).NotAList? ==> r == Solutions([])
    ensures ToArray(h, list).Unbound? ==> r == Raised(InstantiationError)
    ensures ToArray(h, list).Items? ==> exists result ::
      SortedSetOf(h, o', result, ToArray(h, list).items) && InScope(h.next, MakeList(result)) &&
      r == Solutions(UnifySolutions(h, sorted, MakeList(result)))
  {
    var view := ToArray(h, list);
    if view.Unbound? {
      return Raised(InstantiationError), o;
    }
    if view.NotAList? {
      return Solutions([]), o;
    }
    var items := view.items;
    o' := NumberVariables(o, VarListArgs(CanonArgs(h, items)));
    NumberingCoversItems(h, o, items);
    var a := new Term[|items|](k requires 0 <= k < |items| => items[k]);
    assert a[..] == items;
    if a.Length > 1 {
      SortArray(h, o', a);
    }
    var sortedItems := a[..];
    var l := MakeWithoutRepeatedTerms(h, sortedItems);
    SortedItemsFacts(h, o', list, items, sortedItems);
    r := Solutions(UnifySolutions(h, sorted, l));
    ghost var result := WithoutRepeats(h, sortedItems);
    assert SortedSetOf(h, o', result, items) && r == Solutions(UnifySolutions(h, sorted, MakeList(result)));
  }

  /** The sorted array, stripped of repeats, is the sorted set of the
    * items. */
  lemma SortedItemsFacts(h: Heap, o: VarOrder, list: Term, items: seq<Term>, sortedItems: seq<Term>)
    requires Valid(h) && OrderValid(o) && InScope(h.next, list)
    requires ToArray(h, list) == Items(items)
    requires AllNumbered(h, o, items) && SortedBy(h, o, sortedItems)
    requires multiset(sortedItems) == multiset(items)
    ensures SortedSetOf(h, o, WithoutRepeats(h, sortedItems), items)
    ensures InScope(h.next, MakeList(WithoutRepeats(h, sortedItems)))
  {
    var result := WithoutRepeats(h, sortedItems);
    forall x | x in sortedItems ensures x in items {
      assert x in multiset(sortedItems);
    }
    assert Values(h, sortedItems) == Values(h, items) by {
      forall x ensures x in sortedItems <==> x in items {
        assert x in sortedItems <==> x in multiset(sortedItems);
      }
    }
    WithoutRepeatsKeepsValues(h, sortedItems);
    WithoutRepeatsIncreasing(h, o, sortedItems);
    ToArrayInScope(h, list);
    forall k | 0 <= k < |result| ensures InScope(h.next, result[k]) {
      var m :| 0 <= m < |items| && items[m] == result[k];
    }
    MakeListInScope(h.next, result);
  }
}
