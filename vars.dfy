// `addUniqueVariables`: the unbound variables of a term, in order of first
// occurrence, appended to a caller's list.
module Variables {
  import opened Terms
  import opened Equality

  /** The variables of a value, left to right, with repetitions. */
  function VarList(c: Term): seq<nat>
  {
    match c
    case Var(v) => [v]
    case Compound(_, xs) => VarListArgs(xs)
    case _ => []
  }

  function VarListArgs(xs: seq<Term>): seq<nat>
  {
    if xs == [] then [] else VarList(xs[0]) + VarListArgs(xs[1..])
  }

  lemma {:induction false} VarListArgsAt(cs: seq<Term>, i: nat)
    requires i < |cs|
    ensures forall v :: v in VarList(cs[i]) ==> v in VarListArgs(cs)
    decreases |cs|
  {
    if i > 0 { VarListArgsAt(cs[1..], i - 1); }
  }

  lemma {:induction false} VarListArgsEach(cs: seq<Term>, v: nat)
    requires v in VarListArgs(cs)
    ensures exists i :: 0 <= i < |cs| && v in VarList(cs[i])
    decreases |cs|
  {
    if v !in VarList(cs[0]) {
      VarListArgsEach(cs[1..], v);
      var i :| 0 <= i < |cs[1..]| && v in VarList(cs[1..][i]);
      assert cs[1..][i] == cs[i + 1];
    }
  }

  predicate NoDuplicates(s: seq<nat>)
  {
    forall i, j :: 0 <= i < j < |s| ==> s[i] != s[j]
  }

  /** acc followed by the members of vs it does not already hold, each
    * once, in order of first occurrence. */
  function Extend(acc: seq<nat>, vs: seq<nat>): (r: seq<nat>)
    ensures NoDuplicates(acc) ==> NoDuplicates(r)
    ensures acc <= r
    ensures forall v :: v in r <==> v in acc || v in vs
    decreases |vs|
  {
    if vs == [] then acc
    else Extend(if vs[0] in acc then acc else acc + [vs[0]], vs[1..])
  }

  lemma {:induction false} ExtendAppend(acc: seq<nat>, a: seq<nat>, b: seq<nat>)
    ensures Extend(acc, a + b) == Extend(Extend(acc, a), b)
    decreases |a|
  {
    if a == [] {
      assert a + b == b;
    } else {
      assert (a + b)[0] == a[0] && (a + b)[1..] == a[1..] + b;
      ExtendAppend(if a[0] in acc then acc else acc + [a[0]], a[1..], b);
    }
  }

  /** `YP.addUniqueVariables` (with `Variable`, `Functor1/2/3` delegating):
    * an unbound variable is appended if absent, a bound one is looked
    * through, compounds visit their arguments left to right, and atoms and
    * other values add nothing. */
  function AddUniqueVariables(h: Heap, t: Term, acc: seq<nat>): seq<nat>
    requires Valid(h)
    decreases Height(h, t), Size(t), 1
  {
    var d := Deref(h, t);
    match d
    case Var(v) => if v in acc then acc else acc + [v]
    case Compound(_, xs) => AddArgs(h, xs, acc)
    case _ => acc
  }

  function AddArgs(h: Heap, xs: seq<Term>, acc: seq<nat>): seq<nat>
    requires Valid(h)
    decreases HeightArgs(h, xs), SizeArgs(xs), 0
  {
    if xs == [] then acc else AddArgs(h, xs[1..], AddUniqueVariables(h, xs[0], acc))
  }

  /** The canonical values of a list of arguments. */
  function CanonArgs(h: Heap, xs: seq<Term>): (cs: seq<Term>)
    requires Valid(h)
    ensures |cs| == |xs| && forall i :: 0 <= i < |xs| ==> cs[i] == Canon(h, xs[i])
  {
    seq(|xs|, i requires 0 <= i < |xs| => Canon(h, xs[i]))
  }

  /** addUniqueVariables extends the list with the variables of the value
    * the term denotes, in order of first occurrence and without repeats. */
  lemma {:induction false} AddUniqueVariablesIsExtend(h: Heap, t: Term, acc: seq<nat>)
    requires Valid(h)
    ensures AddUniqueVariables(h, t, acc) == Extend(acc, VarList(Canon(h, t)))
    decreases Height(h, t), Size(t), 1
  {
    var d := Deref(h, t);
    if d.Var? {
      assert VarList(Canon(h, t)) == [d.id];
    } else if d.Compound? {
      AddArgsIsExtend(h, d.args, acc);
      assert Canon(h, t).args == CanonArgs(h, d.args);
    }
  }

  lemma {:induction false} AddArgsIsExtend(h: Heap, xs: seq<Term>, acc: seq<nat>)
    requires Valid(h)
    ensures AddArgs(h, xs, acc) == Extend(acc, VarListArgs(CanonArgs(h, xs)))
    decreases HeightArgs(h, xs), SizeArgs(xs), 0
  {
    if xs != [] {
      var cs := CanonArgs(h, xs);
      assert cs[1..] == CanonArgs(h, xs[1..]);
      assert VarListArgs(cs) == VarList(cs[0]) + VarListArgs(cs[1..]);
      AddUniqueVariablesIsExtend(h, xs[0], acc);
      AddArgsIsExtend(h, xs[1..], AddUniqueVariables(h, xs[0], acc));
      ExtendAppend(acc, VarList(cs[0]), VarListArgs(cs[1..]));
    }
  }

  /** The list grows by exactly the term's variables, never repeats one, and
    * keeps what it held in front. */
  lemma AddUniqueVariablesFacts(h: Heap, t: Term, acc: seq<nat>)
    requires Valid(h) && NoDuplicates(acc)
    ensures NoDuplicates(AddUniqueVariables(h, t, acc))
    ensures acc <= AddUniqueVariables(h, t, acc)
    ensures forall v :: v in AddUniqueVariables(h, t, acc) <==> v in acc || v in VarList(Canon(h, t))
  {
    AddUniqueVariablesIsExtend(h, t, acc);
  }

  /** A ground term adds nothing. */
  lemma {:induction false} GroundAddsNothing(h: Heap, t: Term, acc: seq<nat>)
    requires Valid(h) && Ground(h, t)
    ensures AddUniqueVariables(h, t, acc) == acc
  {
    GroundIsVariableFree(h, t);
    GroundValueHasNoVariables(Canon(h, t));
    AddUniqueVariablesIsExtend(h, t, acc);
  }

  lemma {:induction false} GroundValueHasNoVariables(c: Term)
    requires IsGroundValue(c)
    ensures VarList(c) == []
    decreases c, 1
  {
    if c.Compound? { GroundArgsHaveNoVariables(c.args); }
  }

  lemma {:induction false} GroundArgsHaveNoVariables(cs: seq<Term>)
    requires forall i :: 0 <= i < |cs| ==> IsGroundValue(cs[i])
    ensures VarListArgs(cs) == []
    decreases cs, 0
  {
    if cs != [] {
      GroundValueHasNoVariables(cs[0]);
      GroundArgsHaveNoVariables(cs[1..]);
    }
  }

  /** A value whose variables are all below n is in scope for n. */
  lemma {:induction false} VarListInScope(n: nat, c: Term)
    requires forall v :: v in VarList(c) ==> v < n
    ensures InScope(n, c)
    decreases c, 1
  {
    match c
    case Var(u) => assert u in VarList(c);
    case Compound(_, xs) =>
      assert VarList(c) == VarListArgs(xs);
      VarListArgsInScope(n, xs);
    case _ =>
  }

  lemma {:induction false} VarListArgsInScope(n: nat, xs: seq<Term>)
    requires forall v :: v in VarListArgs(xs) ==> v < n
    ensures InScopeArgs(n, xs)
    decreases xs, 0
  {
    if xs != [] {
      assert VarListArgs(xs) == VarList(xs[0]) + VarListArgs(xs[1..]);
      forall v | v in VarList(xs[0]) ensures v < n {
        assert v in VarListArgs(xs);
      }
      forall v | v in VarListArgs(xs[1..]) ensures v < n {
        assert v in VarListArgs(xs);
      }
      VarListInScope(n, xs[0]);
      VarListArgsInScope(n, xs[1..]);
    }
  }
}
