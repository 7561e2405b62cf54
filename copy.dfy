// Copying terms: `CopyStore` and the `makeCopy` methods of `Variable`,
// `Atom` and the Functor classes, reached through `YP.makeCopy`.
module Copying {
  import opened Wrappers
  import opened Atoms
  import opened Terms
  import opened Equality
  import opened Variables

  /** The value t stands for with every binding substituted. Unlike `Canon`
    * the atoms are kept exactly as they are. */
  function Resolve(h: Heap, t: Term): Term
    requires Valid(h)
    decreases Height(h, t), Size(t)
  {
    var d := Deref(h, t);
    match d
    case Compound(n, xs) =>
      ArgsBelow(h, xs);
      Compound(n, seq(|xs|, i requires 0 <= i < |xs| => Resolve(h, xs[i])))
    case _ => d
  }

  /** Replace each variable of c that m maps by its image. */
  function Rename(c: Term, m: map<nat, nat>): Term
  {
    match c
    case Var(v) => if v in m then Var(m[v]) else c
    case Compound(n, xs) => Compound(n, seq(|xs|, i requires 0 <= i < |xs| => Rename(xs[i], m)))
    case _ => c
  }

  /** The map from the i-th input variable to the i-th output variable. */
  function Pairing(ins: seq<nat>, outs: seq<nat>): map<nat, nat>
    requires |ins| == |outs| && NoDuplicates(ins)
  {
    map i | 0 <= i < |ins| :: ins[i] := outs[i]
  }

  lemma PairingDomain(ins: seq<nat>, outs: seq<nat>)
    requires |ins| == |outs| && NoDuplicates(ins)
    ensures forall v :: v in Pairing(ins, outs) <==> v in ins
    ensures forall i :: 0 <= i < |ins| ==> Pairing(ins, outs)[ins[i]] == outs[i]
  {
    var m := Pairing(ins, outs);
    forall v | v in ins ensures v in m {
      var i :| 0 <= i < |ins| && ins[i] == v;
      assert m[ins[i]] == outs[i];
    }
  }

  lemma PairingSnoc(ins: seq<nat>, outs: seq<nat>, v: nat, o: nat)
    requires |ins| == |outs| && NoDuplicates(ins) && v !in ins
    ensures NoDuplicates(ins + [v])
    ensures Pairing(ins + [v], outs + [o]) == Pairing(ins, outs)[v := o]
  {
    PairingDomain(ins, outs);
    PairingDomain(ins + [v], outs + [o]);
    var m1 := Pairing(ins + [v], outs + [o]);
    var m2 := Pairing(ins, outs)[v := o];
    forall w | w in m1 ensures w in m2 && m1[w] == m2[w] {
      var i :| 0 <= i < |ins| + 1 && (ins + [v])[i] == w;
      if i < |ins| { assert ins[i] == w; }
    }
    forall w | w in m2 ensures w in m1 {
      if w != v { assert w in ins; }
    }
    assert m1.Keys == m2.Keys;
  }

  /** Renaming only looks at the variables the value holds. */
  lemma {:induction false} RenameAgrees(c: Term, m1: map<nat, nat>, m2: map<nat, nat>)
    requires forall v :: v in VarList(c) ==> v in m1
    requires forall v :: v in m1 ==> v in m2 && m2[v] == m1[v]
    ensures Rename(c, m1) == Rename(c, m2)
    decreases c, 1
  {
    if c.Compound? {
      forall i | 0 <= i < |c.args| ensures Rename(c.args[i], m1) == Rename(c.args[i], m2) {
        VarListArgsAt(c.args, i);
        RenameAgrees(c.args[i], m1, m2);
      }
    }
  }

  // ---------------------------------------------------------------------
  // Heaps that differ only in how many identifiers were handed out.

  predicate SameCells(h1: Heap, h2: Heap)
  {
    h1.cells == h2.cells && h1.rank == h2.rank
  }

  lemma {:induction false} DerefSameCells(h1: Heap, h2: Heap, t: Term)
    requires Valid(h1) && Valid(h2) && SameCells(h1, h2)
    ensures Deref(h1, t) == Deref(h2, t)
    decreases Height(h1, t)
  {
    if Bound(h1, t) { DerefSameCells(h1, h2, h1.cells[t.id]); }
  }

  lemma {:induction false} ResolveSameCells(h1: Heap, h2: Heap, t: Term)
    requires Valid(h1) && Valid(h2) && SameCells(h1, h2)
    ensures Resolve(h1, t) == Resolve(h2, t)
    ensures Height(h1, t) == Height(h2, t)
    decreases Height(h1, t), Size(t)
  {
    DerefSameCells(h1, h2, t);
    HeightSameRank(h1, h2, t);
    var d := Deref(h1, t);
    if d.Compound? {
      ArgsBelow(h1, d.args);
      forall i | 0 <= i < |d.args| ensures Resolve(h1, d.args[i]) == Resolve(h2, d.args[i]) {
        ResolveSameCells(h1, h2, d.args[i]);
      }
    }
  }

  /** The variables of a resolved term are unbound and in scope. */
  lemma {:induction false} ResolveFree(h: Heap, t: Term)
    requires Valid(h) && InScope(h.next, t)
    ensures forall v :: v in VarList(Resolve(h, t)) ==> v < h.next && v !in h.cells
    decreases Height(h, t), Size(t)
  {
    var d := Deref(h, t);
    if d.Compound? {
      ArgsBelow(h, d.args);
      var r := Resolve(h, t);
      forall v | v in VarList(r) ensures v < h.next && v !in h.cells {
        VarListArgsEach(r.args, v);
        var i :| 0 <= i < |r.args| && v in VarList(r.args[i]);
        InScopeArgsAt(h.next, d.args, i);
        ResolveFree(h, d.args[i]);
      }
    }
  }

  /** The two terms of a copied compound's arguments are smaller than the
    * term the compound was reached from. */
  lemma ArgBelow(h: Heap, t: Term, i: nat)
    requires Valid(h) && Deref(h, t).Compound? && i < |Deref(h, t).args|
    ensures var a := Deref(h, t).args[i];
      Height(h, a) < Height(h, t) || (Height(h, a) == Height(h, t) && Size(a) < Size(t))
  {
    HeightArgsAt(h, Deref(h, t).args, i);
  }

  // ---------------------------------------------------------------------

  /** `CopyStore`: the variables copied so far (`inVariables`) and their
    * copies (`outVariables`), as parallel lists. */
  class CopyStore {
    var inVariables: seq<nat>
    var outVariables: seq<nat>
    /** Every variable ever passed to `GetCopy`. */
    ghost var seen: set<nat>

    ghost predicate Valid()
      reads this
    {
      |inVariables| == |outVariables| &&
      NoDuplicates(inVariables) && NoDuplicates(outVariables) &&
      seen == set v: nat | v in inVariables
    }

    constructor()
      ensures Valid() && inVariables == [] && outVariables == []
    {
      inVariables := [];
      outVariables := [];
      seen := {};
    }

    /** The copy each input variable was given. */
    function Mapping(): map<nat, nat>
      reads this
      requires Valid()
    {
      Pairing(inVariables, outVariables)
    }

    /** Every copy so far was handed out by a heap whose counter is `next`. */
    predicate Below(next: nat)
      reads this
    {
      forall i :: 0 <= i < |outVariables| ==> outVariables[i] < next
    }

    /** The copies from position k on were all drawn at or above lo. */
    predicate NewFrom(k: nat, lo: nat)
      reads this
    {
      DrawnFrom(outVariables, k, lo)
    }

    /** `getCopy`: the copy already issued for v, or else a fresh variable
      * recorded as v's copy. */
    method GetCopy(h: Heap, v: nat) returns (h': Heap, c: nat)
      requires Valid() && Terms.Valid(h) && Below(h.next)
      modifies this
      ensures Valid() && Below(h'.next)
      ensures v in old(inVariables) ==>
        h' == h && inVariables == old(inVariables) && outVariables == old(outVariables) &&
        c == old(Mapping())[v]
      ensures v !in old(inVariables) ==>
        (h', c) == Terms.NewVariable(h) &&
        inVariables == old(inVariables) + [v] && outVariables == old(outVariables) + [c]
      ensures Mapping() == old(Mapping())[v := c]
      ensures seen == old(seen) + {v}
    {
      var index := IndexOf(v);
      PairingDomain(inVariables, outVariables);
      if index < |inVariables| {
        h', c := h, outVariables[index];
        assert Mapping()[v] == c;
        assert Mapping() == old(Mapping())[v := c];
        return;
      }
      var created := Terms.NewVariable(h);
      h', c := created.0, created.1;
      PairingSnoc(inVariables, outVariables, v, c);
      SeenSnoc(inVariables, v);
      inVariables := inVariables + [v];
      outVariables := outVariables + [c];
      seen := seen + {v};
    }

    /** `_inVariableList.indexOf(v)`, with the length standing for "absent". */
    method IndexOf(v: nat) returns (index: nat)
      ensures index <= |inVariables|
      ensures index < |inVariables| ==> inVariables[index] == v
      ensures index == |inVariables| <==> v !in inVariables
    {
      index := 0;
      while index < |inVariables| && inVariables[index] != v
        invariant 0 <= index <= |inVariables|
        invariant forall j :: 0 <= j < index ==> inVariables[j] != v
      {
        index := index + 1;
      }
    }

    /** `getNUniqueVariables`. */
    method GetNUniqueVariables() returns (n: nat)
      requires Valid()
      ensures n == |seen|
    {
      DistinctCount(inVariables);
      n := |inVariables|;
    }
  }

  lemma SeenSnoc(s: seq<nat>, v: nat)
    ensures (set w: nat | w in s + [v]) == (set w: nat | w in s) + {v}
  {
  }

  /** The entries of outs from position k on are at least lo. */
  predicate DrawnFrom(outs: seq<nat>, k: nat, lo: nat)
  {
    forall i :: k <= i < |outs| ==> lo <= outs[i]
  }

  lemma DrawnFromGrows(outs1: seq<nat>, outs2: seq<nat>, k: nat, lo: nat, lo2: nat)
    requires DrawnFrom(outs1, k, lo) && outs1 <= outs2 && DrawnFrom(outs2, |outs1|, lo2) && lo <= lo2
    ensures DrawnFrom(outs2, k, lo)
  {
    forall i | k <= i < |outs2| ensures lo <= outs2[i] {
      if i < |outs1| {
        assert outs2[i] == outs1[i];
      }
    }
  }

  lemma {:induction false} DistinctCount(s: seq<nat>)
    requires NoDuplicates(s)
    ensures |set v: nat | v in s| == |s|
    decreases |s|
  {
    if s != [] {
      var last := s[|s| - 1];
      var init := s[..|s| - 1];
      assert NoDuplicates(init);
      DistinctCount(init);
      assert s == init + [last];
      var a := set v: nat | v in init;
      assert (set v: nat | v in s) == a + {last};
      assert last !in a by {
        forall i | 0 <= i < |init| ensures init[i] != last {
          assert s[i] == init[i];
        }
      }
      assert |a + {last}| == |a| + 1;
    } else {
      assert (set v: nat | v in s) == {};
    }
  }

  /** c is the copy of t under the variable mapping m. */
  predicate Copied(h: Heap, t: Term, c: Term, m: map<nat, nat>)
    requires Valid(h)
  {
    (forall v :: v in VarList(Resolve(h, t)) ==> v in m) && c == Rename(Resolve(h, t), m)
  }

  /** The store only grew since it held ins, outs and seen. */
  ghost predicate Grown(store: CopyStore, ins: seq<nat>, outs: seq<nat>, seen: set<nat>)
    reads store
  {
    store.Valid() && ins <= store.inVariables && outs <= store.outVariables && seen <= store.seen
  }

  lemma CopiedStays(h: Heap, t: Term, c: Term, store: CopyStore, ins: seq<nat>, outs: seq<nat>, seen: set<nat>)
    requires Valid(h) && |ins| == |outs| && NoDuplicates(ins)
    requires Grown(store, ins, outs, seen) && Copied(h, t, c, Pairing(ins, outs))
    ensures Copied(h, t, c, store.Mapping())
  {
    PairingPrefix(ins, outs, store.inVariables, store.outVariables);
    RenameAgrees(Resolve(h, t), Pairing(ins, outs), store.Mapping());
  }

  /** The first |cs| items of ts were copied to cs under m. */
  predicate CopiedAll(h: Heap, ts: seq<Term>, cs: seq<Term>, m: map<nat, nat>)
    requires Valid(h)
  {
    |cs| <= |ts| && forall j :: 0 <= j < |cs| ==> Copied(h, ts[j], cs[j], m)
  }

  lemma CopiedAllStays(h: Heap, ts: seq<Term>, cs: seq<Term>, store: CopyStore, ins: seq<nat>, outs: seq<nat>, seen: set<nat>)
    requires Valid(h) && |ins| == |outs| && NoDuplicates(ins)
    requires Grown(store, ins, outs, seen) && CopiedAll(h, ts, cs, Pairing(ins, outs))
    ensures CopiedAll(h, ts, cs, store.Mapping())
  {
    forall j | 0 <= j < |cs| ensures Copied(h, ts[j], cs[j], store.Mapping()) {
      CopiedStays(h, ts[j], cs[j], store, ins, outs, seen);
    }
  }

  lemma CopiedAllSnoc(h: Heap, ts: seq<Term>, cs: seq<Term>, a: Term, m: map<nat, nat>)
    requires Valid(h) && CopiedAll(h, ts, cs, m) && |cs| < |ts| && Copied(h, ts[|cs|], a, m)
    ensures CopiedAll(h, ts, cs + [a], m)
  {
    var cs' := cs + [a];
    forall j | 0 <= j < |cs'| ensures Copied(h, ts[j], cs'[j], m) {
      if j < |cs| { assert cs'[j] == cs[j]; }
    }
  }

  /** `YP.makeCopy`: a copy of the value of t in which each unbound variable
    * is replaced by its copy from the store (the same copy for every
    * occurrence); atoms, numbers and strings are kept. Without a store,
    * unbound variables are kept as well. */
  method MakeCopy(h: Heap, t: Term, store: CopyStore?) returns (h': Heap, c: Term)
    requires Valid(h) && InScope(h.next, t)
    requires store != null ==> store.Valid() && store.Below(h.next)
    modifies store
    ensures Valid(h') && SameCells(h, h') && h.next <= h'.next
    ensures store == null ==> h' == h && c == Resolve(h, t)
    ensures store != null ==>
      Grown(store, old(store.inVariables), old(store.outVariables), old(store.seen)) &&
      store.Below(h'.next) && store.NewFrom(|old(store.outVariables)|, h.next) &&
      Copied(h, t, c, store.Mapping())
    decreases Height(h, t), Size(t), 1
  {
    var d := Deref(h, t);
    if d.Var? {
      if store == null {
        return h, d;
      }
      h', c := CopyUnbound(h, d.id, store);
      return;
    }
    if !d.Compound? {
      return h, d;
    }
    var cs;
    h', cs := CopyArgs(h, d.args, store);
    c := Compound(d.name, cs);
    if store != null {
      CopiedCompound(h, t, cs, store.Mapping());
    }
  }

  /** `Variable.makeCopy` of an unbound variable: the store's copy of it. */
  method CopyUnbound(h: Heap, v: nat, store: CopyStore) returns (h': Heap, c: Term)
    requires Valid(h) && v < h.next && v !in h.cells
    requires store.Valid() && store.Below(h.next)
    modifies store
    ensures Valid(h') && SameCells(h, h') && h.next <= h'.next
    ensures Grown(store, old(store.inVariables), old(store.outVariables), old(store.seen))
    ensures store.Below(h'.next) && store.NewFrom(|old(store.outVariables)|, h.next)
    ensures Copied(h, Var(v), c, store.Mapping())
  {
    ghost var outs0 := store.outVariables;
    var w;
    h', w := store.GetCopy(h, v);
    c := Var(w);
    assert store.outVariables == outs0 || store.outVariables == outs0 + [h.next];
    assert Resolve(h, Var(v)) == Var(v);
  }

  /** A compound is copied when each of its arguments is. */
  lemma CopiedCompound(h: Heap, t: Term, cs: seq<Term>, m: map<nat, nat>)
    requires Valid(h) && Deref(h, t).Compound? && |cs| == |Deref(h, t).args|
    requires CopiedAll(h, Deref(h, t).args, cs, m)
    ensures Copied(h, t, Compound(Deref(h, t).name, cs), m)
  {
    var r := Resolve(h, t);
    assert |r.args| == |cs|;
    forall v | v in VarList(r) ensures v in m {
      VarListArgsEach(r.args, v);
    }
    assert Rename(r, m).args == cs;
  }

  /** The argument loop of the Functor `makeCopy` methods: each argument is
    * copied with the same store, left to right. */
  method CopyArgs(h: Heap, xs: seq<Term>, store: CopyStore?) returns (h': Heap, cs: seq<Term>)
    requires Valid(h) && InScopeArgs(h.next, xs)
    requires store != null ==> store.Valid() && store.Below(h.next)
    modifies store
    ensures Valid(h') && SameCells(h, h') && h.next <= h'.next && |cs| == |xs|
    ensures store == null ==> h' == h && forall j :: 0 <= j < |xs| ==> cs[j] == Resolve(h, xs[j])
    ensures store != null ==>
      Grown(store, old(store.inVariables), old(store.outVariables), old(store.seen)) &&
      store.Below(h'.next) && store.NewFrom(|old(store.outVariables)|, h.next) &&
      CopiedAll(h, xs, cs, store.Mapping())
    decreases HeightArgs(h, xs), SizeArgs(xs), 0
  {
    cs := [];
    h' := h;
    var i := 0;
    while i < |xs|
      invariant 0 <= i <= |xs| && |cs| == i
      invariant Valid(h') && SameCells(h, h') && h.next <= h'.next
      invariant store == null ==> h' == h && forall j :: 0 <= j < i ==> cs[j] == Resolve(h, xs[j])
      invariant store != null ==>
        Grown(store, old(store.inVariables), old(store.outVariables), old(store.seen)) &&
        store.Below(h'.next) && store.NewFrom(|old(store.outVariables)|, h.next) &&
        CopiedAll(h, xs, cs, store.Mapping())
    {
      ResolveSameCells(h, h', xs[i]);
      HeightArgsAt(h, xs, i);
      InScopeArgsAt(h.next, xs, i);
      InScopeMonotone(h.next, h'.next, xs[i]);
      ghost var ins0 := if store == null then [] else store.inVariables;
      ghost var outs0 := if store == null then [] else store.outVariables;
      ghost var seen0 := if store == null then {} else store.seen;
      var h2, a := MakeCopy(h', xs[i], store);
      if store != null {
        DrawnFromGrows(outs0, store.outVariables, |old(store.outVariables)|, h.next, h'.next);
        CopiedAllStays(h, xs, cs, store, ins0, outs0, seen0);
        CopiedAllSnoc(h, xs, cs, a, store.Mapping());
      }
      h' := h2;
      cs := cs + [a];
      i := i + 1;
    }
  }

  /** Extending both lists extends the mapping. */
  lemma PairingPrefix(ins1: seq<nat>, outs1: seq<nat>, ins2: seq<nat>, outs2: seq<nat>)
    requires |ins1| == |outs1| && NoDuplicates(ins1) && |ins2| == |outs2| && NoDuplicates(ins2)
    requires ins1 <= ins2 && outs1 <= outs2
    ensures forall v :: v in Pairing(ins1, outs1) ==>
      v in Pairing(ins2, outs2) && Pairing(ins2, outs2)[v] == Pairing(ins1, outs1)[v]
  {
    PairingDomain(ins1, outs1);
    PairingDomain(ins2, outs2);
    forall v | v in Pairing(ins1, outs1)
      ensures v in Pairing(ins2, outs2) && Pairing(ins2, outs2)[v] == Pairing(ins1, outs1)[v]
    {
      var i :| 0 <= i < |ins1| && ins1[i] == v;
      assert ins2[i] == v && outs2[i] == outs1[i];
    }
  }

  /** Every variable of a renamed value is the image of one of its
    * variables. */
  lemma {:induction false} RenameVars(c: Term, m: map<nat, nat>)
    requires forall v :: v in VarList(c) ==> v in m
    ensures forall v :: v in VarList(Rename(c, m)) ==> v in m.Values
  {
    if c.Var? {
      assert VarList(Rename(c, m)) == [m[c.id]];
    } else if c.Compound? {
      var r := Rename(c, m);
      forall v | v in VarList(r) ensures v in m.Values {
        VarListArgsEach(r.args, v);
        var i :| 0 <= i < |r.args| && v in VarList(r.args[i]);
        VarListArgsAt(c.args, i);
        RenameVars(c.args[i], m);
      }
    }
  }

  /** m never sends two variables to the same one. */
  predicate Injective(m: map<nat, nat>)
  {
    forall u, w | u in m && w in m && u != w :: m[u] != m[w]
  }

  lemma PairingFacts(ins: seq<nat>, outs: seq<nat>, lo: nat, hi: nat)
    requires |ins| == |outs| && NoDuplicates(ins) && NoDuplicates(outs)
    requires DrawnFrom(outs, 0, lo) && forall i :: 0 <= i < |outs| ==> outs[i] < hi
    ensures Injective(Pairing(ins, outs))
    ensures forall v :: v in Pairing(ins, outs).Values ==> lo <= v < hi
  {
    var m := Pairing(ins, outs);
    PairingDomain(ins, outs);
    forall u, w | u in m && w in m && u != w ensures m[u] != m[w] {
      var i :| 0 <= i < |ins| && ins[i] == u;
      var j :| 0 <= j < |ins| && ins[j] == w;
      assert i != j;
    }
    forall v | v in m.Values ensures lo <= v < hi {
      var u :| u in m && m[u] == v;
      var i :| 0 <= i < |ins| && ins[i] == u;
    }
  }

  /** `YP.makeCopy(t, new CopyStore())`, as `copy_term` and the exception
    * and answer stores use it: the value of t with its unbound variables
    * renamed, one to one, to variables freshly drawn from the heap. */
  method CopyTerm(h: Heap, t: Term) returns (h': Heap, c: Term, ghost m: map<nat, nat>)
    requires Valid(h) && InScope(h.next, t)
    ensures Valid(h') && SameCells(h, h') && h.next <= h'.next
    ensures Copied(h, t, c, m) && Injective(m)
    ensures forall v :: v in VarList(c) ==> h.next <= v < h'.next && v !in h'.cells
  {
    var store := new CopyStore();
    h', c := MakeCopy(h, t, store);
    m := store.Mapping();
    PairingFacts(store.inVariables, store.outVariables, h.next, h'.next);
    RenameVars(Resolve(h, t), m);
  }
}
