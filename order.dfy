// The standard order of terms: `YP.getTypeCode`, `YP.termLessThan`, the
// Functor `lessThan` methods and `YP.compareTerms`.
module Ordering {
  import opened Wrappers
  import opened Text
  import opened Atoms
  import opened Terms
  import opened Equality
  import opened Variables

  /** `getTypeCode`: -2 for a variable, 0 for an atom, 1, 2 or 3 for the
    * compounds of that many arguments, 4 for any other compound, and -1 for
    * every other value. */
  function TypeCode(t: Term): (code: int)
    ensures -2 <= code <= 4
    ensures code == -2 <==> t.Var?
    ensures code == 0 <==> t.Sym?
    ensures code == -1 <==> t.Int? || t.Str?
    ensures t.Compound? ==> code == (if 1 <= |t.args| <= 3 then |t.args| else 4)
  {
    match t
    case Var(_) => -2
    case Sym(_) => 0
    case Compound(_, xs) => if 1 <= |xs| <= 3 then |xs| else 4
    case _ => -1
  }

  /** The identifiers handed to variables the first time they take part in a
    * comparison (each variable's `_id`), and the counter they are drawn
    * from (`YP._nextVariableID`). */
  datatype VarOrder = VarOrder(ids: map<nat, nat>, last: nat)

  const NoOrder := VarOrder(map[], 0)

  predicate OrderValid(o: VarOrder)
  {
    (forall v | v in o.ids :: 1 <= o.ids[v] <= o.last) &&
    (forall v, w | v in o.ids && w in o.ids && v != w :: o.ids[v] != o.ids[w])
  }

  /** o2 kept every identifier o1 had handed out. */
  predicate Grows(o1: VarOrder, o2: VarOrder)
  {
    o1.last <= o2.last && forall v | v in o1.ids :: v in o2.ids && o2.ids[v] == o1.ids[v]
  }

  /** `if (T._id === undefined) T._id = ++YP._nextVariableID`. */
  function AssignId(o: VarOrder, v: nat): (r: VarOrder)
    requires OrderValid(o)
    ensures OrderValid(r) && Grows(o, r) && v in r.ids
    ensures v in o.ids ==> r == o
    ensures r.ids.Keys == o.ids.Keys + {v}
  {
    if v in o.ids then o else VarOrder(o.ids[v := o.last + 1], o.last + 1)
  }

  /** The order of two numbers or strings: numbers come first (their type
    * names compare "number" < "string"), then the native `<`. */
  predicate OtherLessThan(a: Term, b: Term)
  {
    if a.Int? && b.Int? then a.value < b.value
    else if a.Str? && b.Str? then StrLess(a.text, b.text)
    else a.Int? && b.Str?
  }

  /** `YP.termLessThan`, threading the variable identifiers it hands out.
    * Compounds of more than three arguments are taken to compare by name,
    * then arity, then arguments, like the Functor1-3 classes. */
  function TermLessThan(h: Heap, o: VarOrder, x: Term, y: Term): (r: (bool, VarOrder))
    requires Valid(h) && OrderValid(o)
    ensures OrderValid(r.1) && Grows(o, r.1)
    decreases Height(h, x) + Height(h, y), Size(x) + Size(y), 1
  {
    var dx := Deref(h, x);
    var dy := Deref(h, y);
    var c1 := TypeCode(dx);
    var c2 := TypeCode(dy);
    if c1 != c2 then (c1 < c2, o)
    else if dx.Var? then
      if dx == dy then (false, o)
      else
        var o1 := AssignId(AssignId(o, dx.id), dy.id);
        (o1.ids[dx.id] < o1.ids[dy.id], o1)
    else if dx.Sym? then (StrLess(dx.atom.name, dy.atom.name), o)
    else if dx.Compound? then
      if !Equals(dx.name, dy.name) then (Atoms.LessThan(dx.name, dy.name), o)
      else if |dx.args| != |dy.args| then (|dx.args| < |dy.args|, o)
      else
        ArgsBelow(h, dx.args);
        ArgsBelow(h, dy.args);
        ArgsLessThan(h, o, dx.args, dy.args)
    else (OtherLessThan(dx, dy), o)
  }

  /** The argument part of `Functor1/2/3.lessThan`: the first pair that is
    * not `termEqual` decides; the last pair is compared directly. */
  function ArgsLessThan(h: Heap, o: VarOrder, xs: seq<Term>, ys: seq<Term>): (r: (bool, VarOrder))
    requires Valid(h) && OrderValid(o) && |xs| == |ys|
    ensures OrderValid(r.1) && Grows(o, r.1)
    decreases HeightArgs(h, xs) + HeightArgs(h, ys), SizeArgs(xs) + SizeArgs(ys), 0
  {
    if xs == [] then (false, o)
    else if |xs| == 1 || !TermEqual(h, xs[0], ys[0]) then TermLessThan(h, o, xs[0], ys[0])
    else ArgsLessThan(h, o, xs[1..], ys[1..])
  }

  /** `YP.compareTerms`: 0 when `termEqual`, -1 when `termLessThan`, else 1. */
  function CompareTerms(h: Heap, o: VarOrder, x: Term, y: Term): (r: (int, VarOrder))
    requires Valid(h) && OrderValid(o)
    ensures OrderValid(r.1) && Grows(o, r.1)
    ensures r.0 in {-1, 0, 1}
    ensures r.0 == 0 <==> TermEqual(h, x, y)
  {
    if TermEqual(h, x, y) then (0, o)
    else
      var (less, o1) := TermLessThan(h, o, x, y);
      (if less then -1 else 1, o1)
  }

  // ---------------------------------------------------------------------
  // The order on values that termLessThan computes.

  function IdOf(ids: map<nat, nat>, v: nat): nat
  {
    if v in ids then ids[v] else 0
  }

  /** The standard order on the values terms denote, given the variables'
    * identifiers. */
  predicate Before(ids: map<nat, nat>, s: Term, t: Term)
    decreases s, 1
  {
    var c1 := TypeCode(s);
    var c2 := TypeCode(t);
    if c1 != c2 then c1 < c2
    else match s
      case Var(v) => s != t && IdOf(ids, v) < IdOf(ids, t.id)
      case Sym(a) => StrLess(a.name, t.atom.name)
      case Compound(n, xs) =>
        if n.name != t.name.name then StrLess(n.name, t.name.name)
        else if |xs| != |t.args| then |xs| < |t.args|
        else ArgsBefore(ids, xs, t.args)
      case _ => OtherLessThan(s, t)
  }

  /** Lexicographic extension of Before to equally long argument lists. */
  predicate ArgsBefore(ids: map<nat, nat>, xs: seq<Term>, ys: seq<Term>)
    requires |xs| == |ys|
    decreases xs, 0
  {
    if xs == [] then false
    else if xs[0] != ys[0] then Before(ids, xs[0], ys[0])
    else ArgsBefore(ids, xs[1..], ys[1..])
  }

  lemma {:induction false} BeforeIrreflexive(ids: map<nat, nat>, s: Term)
    ensures !Before(ids, s, s)
    decreases s, 1
  {
    match s
    case Sym(a) => StrLessIrreflexive(a.name);
    case Str(text) => StrLessIrreflexive(text);
    case Compound(_, xs) => ArgsBeforeIrreflexive(ids, xs);
    case _ =>
  }

  lemma {:induction false} ArgsBeforeIrreflexive(ids: map<nat, nat>, xs: seq<Term>)
    ensures !ArgsBefore(ids, xs, xs)
    decreases xs, 0
  {
    if xs != [] { ArgsBeforeIrreflexive(ids, xs[1..]); }
  }

  lemma {:induction false} BeforeTransitive(ids: map<nat, nat>, s: Term, t: Term, u: Term)
    requires Before(ids, s, t) && Before(ids, t, u)
    ensures Before(ids, s, u)
    decreases s, 1
  {
    if TypeCode(s) == TypeCode(t) == TypeCode(u) {
      match s
      case Var(_) =>
      case Sym(a) => StrLessTransitive(a.name, t.atom.name, u.atom.name);
      case Compound(n, xs) =>
        var (m, ys, k, zs) := (t.name.name, t.args, u.name.name, u.args);
        if n.name != m && m != k {
          StrLessTransitive(n.name, m, k);
          StrLessIrreflexive(n.name);
        } else if n.name == m && m == k && |xs| == |ys| == |zs| {
          ArgsBeforeTransitive(ids, xs, ys, zs);
        }
      case Int(_) =>
      case Str(text) =>
        if t.Str? && u.Str? { StrLessTransitive(text, t.text, u.text); }
    }
  }

  lemma {:induction false} ArgsBeforeTransitive(ids: map<nat, nat>, xs: seq<Term>, ys: seq<Term>, zs: seq<Term>)
    requires |xs| == |ys| == |zs|
    requires ArgsBefore(ids, xs, ys) && ArgsBefore(ids, ys, zs)
    ensures ArgsBefore(ids, xs, zs)
    decreases xs, 0
  {
    if xs[0] != ys[0] && ys[0] != zs[0] {
      BeforeTransitive(ids, xs[0], ys[0], zs[0]);
      if xs[0] == zs[0] { BeforeIrreflexive(ids, xs[0]); }
    } else if xs[0] == ys[0] && ys[0] == zs[0] {
      ArgsBeforeTransitive(ids, xs[1..], ys[1..], zs[1..]);
    }
  }

  /** Identifiers that tell apart every variable of a value. */
  predicate Distinguishes(ids: map<nat, nat>, s: Term)
  {
    (forall v :: v in VarList(s) ==> v in ids) &&
    (forall v, w | v in ids && w in ids && v != w :: ids[v] != ids[w])
  }

  lemma {:induction false} DistinguishesArgs(ids: map<nat, nat>, xs: seq<Term>, i: nat)
    requires i < |xs| && (forall v :: v in VarListArgs(xs) ==> v in ids)
    ensures forall v :: v in VarList(xs[i]) ==> v in ids
    decreases |xs|
  {
    if i > 0 { DistinguishesArgs(ids, xs[1..], i - 1); }
  }

  /** Every atom of a value is unqualified, as in the values `Canon` gives. */
  predicate NamesOnly(s: Term)
  {
    match s
    case Sym(a) => a.declaringModule.None?
    case Compound(n, xs) => n.declaringModule.None? && forall i :: 0 <= i < |xs| ==> NamesOnly(xs[i])
    case _ => true
  }

  lemma {:induction false} CanonNamesOnly(h: Heap, t: Term)
    requires Valid(h)
    ensures NamesOnly(Canon(h, t))
    decreases Height(h, t), Size(t)
  {
    var d := Deref(h, t);
    if d.Compound? {
      ArgsBelow(h, d.args);
      forall i | 0 <= i < |d.args| ensures NamesOnly(Canon(h, d.args[i])) {
        CanonNamesOnly(h, d.args[i]);
      }
      assert forall i | 0 <= i < |d.args| :: Canon(h, t).args[i] == Canon(h, d.args[i]);
    }
  }

  /** Two distinct values are ordered one way or the other once their
    * variables have distinct identifiers. */
  lemma {:induction false} BeforeTotal(ids: map<nat, nat>, s: Term, t: Term)
    requires NamesOnly(s) && NamesOnly(t)
    requires Distinguishes(ids, s) && Distinguishes(ids, t) && s != t
    ensures Before(ids, s, t) || Before(ids, t, s)
    decreases s, 1
  {
    if TypeCode(s) == TypeCode(t) {
      match s
      case Var(v) =>
      case Sym(a) => StrLessTotal(a.name, t.atom.name);
      case Compound(n, xs) =>
        if n.name != t.name.name { StrLessTotal(n.name, t.name.name); }
        else if |xs| == |t.args| { ArgsBeforeTotal(ids, xs, t.args); }
      case Int(_) =>
      case Str(text) => if t.Str? { StrLessTotal(text, t.text); }
    }
  }

  lemma {:induction false} ArgsBeforeTotal(ids: map<nat, nat>, xs: seq<Term>, ys: seq<Term>)
    requires |xs| == |ys| && xs != ys
    requires forall i :: 0 <= i < |xs| ==> NamesOnly(xs[i]) && NamesOnly(ys[i])
    requires forall v :: v in VarListArgs(xs) ==> v in ids
    requires forall v :: v in VarListArgs(ys) ==> v in ids
    requires forall v, w | v in ids && w in ids && v != w :: ids[v] != ids[w]
    ensures ArgsBefore(ids, xs, ys) || ArgsBefore(ids, ys, xs)
    decreases xs, 0
  {
    DistinguishesArgs(ids, xs, 0);
    DistinguishesArgs(ids, ys, 0);
    if xs[0] != ys[0] {
      BeforeTotal(ids, xs[0], ys[0]);
    } else {
      assert xs == [xs[0]] + xs[1..] && ys == [ys[0]] + ys[1..];
      ArgsBeforeTotal(ids, xs[1..], ys[1..]);
    }
  }

  // ---------------------------------------------------------------------
  // What termLessThan computes.

  /** termLessThan is the standard order on the values the two terms
    * denote, under the identifiers in force when it returns; a comparison
    * whose variables all have identifiers already hands out none. */
  lemma {:induction false} TermLessThanIsBefore(h: Heap, o: VarOrder, x: Term, y: Term)
    requires Valid(h) && OrderValid(o)
    ensures TermLessThan(h, o, x, y).0 == Before(TermLessThan(h, o, x, y).1.ids, Canon(h, x), Canon(h, y))
    ensures ((forall v :: v in VarList(Canon(h, x)) ==> v in o.ids) &&
             (forall v :: v in VarList(Canon(h, y)) ==> v in o.ids)) ==> TermLessThan(h, o, x, y).1 == o
    decreases Height(h, x) + Height(h, y), Size(x) + Size(y), 1
  {
    var dx := Deref(h, x);
    var dy := Deref(h, y);
    if TypeCode(dx) == TypeCode(dy) && dx.Compound? && Equals(dx.name, dy.name) && |dx.args| == |dy.args| {
      ArgsBelow(h, dx.args);
      ArgsBelow(h, dy.args);
      ArgsLessThanIsArgsBefore(h, o, dx.args, dy.args);
      assert Canon(h, x).args == CanonArgs(h, dx.args);
      assert Canon(h, y).args == CanonArgs(h, dy.args);
    } else {
      LeafLessThanIsBefore(h, o, x, y);
    }
  }

  /** The same, when the two are not compounds of one name and arity. */
  lemma LeafLessThanIsBefore(h: Heap, o: VarOrder, x: Term, y: Term)
    requires Valid(h) && OrderValid(o)
    requires var dx, dy := Deref(h, x), Deref(h, y);
      !(TypeCode(dx) == TypeCode(dy) && dx.Compound? && Equals(dx.name, dy.name) && |dx.args| == |dy.args|)
    ensures TermLessThan(h, o, x, y).0 == Before(TermLessThan(h, o, x, y).1.ids, Canon(h, x), Canon(h, y))
    ensures ((forall v :: v in VarList(Canon(h, x)) ==> v in o.ids) &&
             (forall v :: v in VarList(Canon(h, y)) ==> v in o.ids)) ==> TermLessThan(h, o, x, y).1 == o
  {
    var dx := Deref(h, x);
    var dy := Deref(h, y);
    CanonShape(h, x);
    CanonShape(h, y);
    if TypeCode(dx) != TypeCode(dy) {
    } else if dx.Var? {
      if dx != dy {
        assert VarList(Canon(h, x)) == [dx.id] && VarList(Canon(h, y)) == [dy.id];
      }
    } else if dx.Compound? {
      assert dx.name.name != dy.name.name || |dx.args| != |dy.args|;
    }
  }

  /** What Canon keeps of the top of a term: its kind, and all but the
    * module of its name. */
  lemma CanonShape(h: Heap, x: Term)
    requires Valid(h)
    ensures TypeCode(Canon(h, x)) == TypeCode(Deref(h, x))
    ensures !Deref(h, x).Sym? && !Deref(h, x).Compound? ==> Canon(h, x) == Deref(h, x)
    ensures Deref(h, x).Sym? ==> Canon(h, x) == Sym(NameOnly(Deref(h, x).atom))
    ensures Deref(h, x).Compound? ==>
      Canon(h, x).name == NameOnly(Deref(h, x).name) && |Canon(h, x).args| == |Deref(h, x).args|
  {
  }

  lemma {:induction false} ArgsLessThanIsArgsBefore(h: Heap, o: VarOrder, xs: seq<Term>, ys: seq<Term>)
    requires Valid(h) && OrderValid(o) && |xs| == |ys|
    ensures ArgsLessThan(h, o, xs, ys).0 ==
      ArgsBefore(ArgsLessThan(h, o, xs, ys).1.ids, CanonArgs(h, xs), CanonArgs(h, ys))
    ensures ((forall v :: v in VarListArgs(CanonArgs(h, xs)) ==> v in o.ids) &&
             (forall v :: v in VarListArgs(CanonArgs(h, ys)) ==> v in o.ids)) ==> ArgsLessThan(h, o, xs, ys).1 == o
    decreases HeightArgs(h, xs) + HeightArgs(h, ys), SizeArgs(xs) + SizeArgs(ys), 0
  {
    if xs != [] {
      var cx, cy := CanonArgs(h, xs), CanonArgs(h, ys);
      HeightArgsAt(h, xs, 0);
      HeightArgsAt(h, ys, 0);
      VarListArgsAt(cx, 0);
      VarListArgsAt(cy, 0);
      TermEqualIsCanonEquality(h, xs[0], ys[0]);
      if |xs| == 1 || !TermEqual(h, xs[0], ys[0]) {
        TermLessThanIsBefore(h, o, xs[0], ys[0]);
        if cx[0] == cy[0] {
          BeforeIrreflexive(TermLessThan(h, o, xs[0], ys[0]).1.ids, cx[0]);
        }
      } else {
        assert cx[1..] == CanonArgs(h, xs[1..]) && cy[1..] == CanonArgs(h, ys[1..]);
        assert VarListArgs(cx) == VarList(cx[0]) + VarListArgs(cx[1..]);
        assert VarListArgs(cy) == VarList(cy[0]) + VarListArgs(cy[1..]);
        ArgsLessThanIsArgsBefore(h, o, xs[1..], ys[1..]);
      }
    }
  }

  /** No term is termLessThan itself, nor anything termEqual to it. */
  lemma TermLessThanIrreflexive(h: Heap, o: VarOrder, x: Term, y: Term)
    requires Valid(h) && OrderValid(o) && TermEqual(h, x, y)
    ensures !TermLessThan(h, o, x, y).0
  {
    TermLessThanIsBefore(h, o, x, y);
    TermEqualIsCanonEquality(h, x, y);
    BeforeIrreflexive(TermLessThan(h, o, x, y).1.ids, Canon(h, x));
  }

  /** The variables of x and y already carry distinct identifiers. */
  predicate Numbered(h: Heap, o: VarOrder, x: Term)
    requires Valid(h)
  {
    OrderValid(o) && forall v :: v in VarList(Canon(h, x)) ==> v in o.ids
  }

  /** Once their variables are numbered, compareTerms is antisymmetric and
    * transitive and hands out no identifiers: a total order. */
  lemma CompareTermsIsTotalOrder(h: Heap, o: VarOrder, x: Term, y: Term, z: Term)
    requires Valid(h) && Numbered(h, o, x) && Numbered(h, o, y) && Numbered(h, o, z)
    ensures CompareTerms(h, o, x, y).1 == o
    ensures CompareTerms(h, o, x, y).0 == -CompareTerms(h, o, y, x).0
    ensures CompareTerms(h, o, x, y).0 < 0 && CompareTerms(h, o, y, z).0 < 0 ==> CompareTerms(h, o, x, z).0 < 0
    ensures CompareTerms(h, o, x, y).0 < 0 <==> Before(o.ids, Canon(h, x), Canon(h, y))
  {
    TermLessThanIsBefore(h, o, x, y);
    TermLessThanIsBefore(h, o, y, x);
    TermLessThanIsBefore(h, o, y, z);
    TermLessThanIsBefore(h, o, x, z);
    TermEqualIsCanonEquality(h, x, y);
    TermEqualIsCanonEquality(h, y, x);
    TermEqualIsCanonEquality(h, y, z);
    TermEqualIsCanonEquality(h, x, z);
    var (cx, cy, cz) := (Canon(h, x), Canon(h, y), Canon(h, z));
    CanonNamesOnly(h, x);
    CanonNamesOnly(h, y);
    if cx != cy {
      BeforeTotal(o.ids, cx, cy);
      if Before(o.ids, cx, cy) && Before(o.ids, cy, cx) {
        BeforeTransitive(o.ids, cx, cy, cx);
        BeforeIrreflexive(o.ids, cx);
      }
    } else {
      BeforeIrreflexive(o.ids, cx);
    }
    if Before(o.ids, cx, cy) && Before(o.ids, cy, cz) {
      BeforeTransitive(o.ids, cx, cy, cz);
      if cx == cz {
        BeforeTransitive(o.ids, cy, cz, cy);
        BeforeIrreflexive(o.ids, cy);
      }
    }
  }
}
