// The `YP` built-ins on atom names: `atom_length/2`, `atom_concat/3`,
// `sub_atom/5`, `atom_chars/2`, `atom_codes/2` and `char_code/2`. One
// character of a name is one Dafny `char`, a Unicode scalar value; the host
// counts UTF-16 code units instead, which differs outside the Basic
// Multilingual Plane.
module AtomText {
  import opened Wrappers
  import opened Atoms
  import opened Terms
  import opened Equality
  import opened Unification
  import opened Lists
  import opened Errors
  import opened Builtins

  // ---------------------------------------------------------------------
  // Character codes.

  /** `charCodeAt`: the code of a character. */
  function CodeOf(c: char): nat
  {
    c as nat
  }

  /** `String.fromCharCode(n)`: the code is taken modulo 2^16, and a code in
    * the surrogate range, which is no character by itself, stands for
    * U+FFFD. Below 2^16 it inverts `charCodeAt`. */
  function FromCode(n: int): (c: char)
    ensures 0 <= n < 0x1_0000 && !(0xD800 <= n < 0xE000) ==> CodeOf(c) == n
    ensures CodeOf(c) < 0x1_0000
  {
    var u := n % 0x1_0000;
    if 0xD800 <= u < 0xE000 then 0xFFFD as char else u as char
  }

  /** A character a single code unit holds. */
  predicate InBasicPlane(c: char)
  {
    CodeOf(c) < 0x1_0000
  }

  // ---------------------------------------------------------------------
  // Unifying with numbers and atoms.

  /** A number or an atom: a value without variables. */
  predicate Constant(c: Term)
  {
    c.Int? || c.Sym?
  }

  /** The dereferenced value d unifies with the constant c without binding
    * anything: the same number, or an atom `equals` to it. */
  predicate Matches(d: Term, c: Term)
  {
    if c.Sym? then d.Sym? && Equals(d.atom, c.atom) else d == c
  }

  /** Unifying with a constant checks a bound value and binds an unbound
    * variable to the constant, and nothing else. */
  lemma UnifyConstant(h: Heap, x: Term, c: Term)
    requires Valid(h) && InScope(h.next, x) && Constant(c)
    ensures InScope(h.next, c)
    ensures !Deref(h, x).Var? ==> Unify(h, x, c) == if Matches(Deref(h, x), c) then Some(h) else None
    ensures Deref(h, x).Var? ==>
      Unify(h, x, c).Some? && Unify(h, x, c).value.cells == h.cells[Deref(h, x).id := c] &&
      Deref(Unify(h, x, c).value, x) == c
  {
    if Deref(h, x).Var? {
      UnifyBindsUnboundVariable(h, x, c);
      DerefExtends(h, Unify(h, x, c).value, x);
    }
  }

  /** A term equals a constant exactly when its value matches it. */
  lemma TermEqualConstant(h: Heap, x: Term, c: Term)
    requires Valid(h) && Constant(c)
    ensures TermEqual(h, x, c) <==> Matches(Deref(h, x), c)
  {
  }

  /** Binding one variable leaves the value of every term that did not
    * stand for it unchanged. */
  lemma DerefAfterBinding(h: Heap, h1: Heap, y: Term, v: nat)
    requires Valid(h) && Valid(h1) && Extends(h, h1) && h1.cells.Keys == h.cells.Keys + {v}
    requires Deref(h, y) != Var(v)
    ensures Deref(h1, y) == Deref(h, y)
  {
    DerefExtends(h, h1, y);
  }

  /** A value that no binding can change. */
  lemma DerefStays(h: Heap, h1: Heap, y: Term)
    requires Valid(h) && Valid(h1) && Extends(h, h1) && !Deref(h, y).Var?
    ensures Deref(h1, y) == Deref(h, y)
  {
    DerefExtends(h, h1, y);
  }

  /** Two nested unifications, `for (l1 of unify(x1, y1)) for (l2 of
    * unify(x2, y2)) yield`: one solution if both unify in turn. */
  function Unify2(h: Heap, x1: Term, y1: Term, x2: Term, y2: Term): (s: seq<Heap>)
    requires Valid(h) && InScope(h.next, x1) && InScope(h.next, y1)
    requires InScope(h.next, x2) && InScope(h.next, y2)
    ensures |s| <= 1
    ensures forall k | 0 <= k < |s| :: Valid(s[k]) && s[k].next == h.next && Extends(h, s[k])
    ensures forall k | 0 <= k < |s| :: TermEqual(s[k], x1, y1) && TermEqual(s[k], x2, y2)
  {
    match Unify(h, x1, y1)
    case None => []
    case Some(h1) =>
      match Unify(h1, x2, y2)
      case None => []
      case Some(h2) =>
        UnifySound(h, x1, y1);
        UnifySound(h1, x2, y2);
        TermEqualMonotone(h1, h2, x1, y1);
        [h2]
  }

  /** Three nested unifications. */
  function Unify3(h: Heap, x1: Term, y1: Term, x2: Term, y2: Term, x3: Term, y3: Term): (s: seq<Heap>)
    requires Valid(h) && InScope(h.next, x1) && InScope(h.next, y1)
    requires InScope(h.next, x2) && InScope(h.next, y2) && InScope(h.next, x3) && InScope(h.next, y3)
    ensures |s| <= 1
    ensures forall k | 0 <= k < |s| :: Valid(s[k]) && s[k].next == h.next && Extends(h, s[k])
    ensures forall k | 0 <= k < |s| ::
      TermEqual(s[k], x1, y1) && TermEqual(s[k], x2, y2) && TermEqual(s[k], x3, y3)
  {
    match Unify(h, x1, y1)
    case None => []
    case Some(h1) =>
      UnifySound(h, x1, y1);
      var s := Unify2(h1, x2, y2, x3, y3);
      if s == [] then [] else TermEqualMonotone(h1, s[0], x1, y1); s
  }

  // ---------------------------------------------------------------------
  // atom_length/2.

  /** A value given for a count: anything but an unbound variable must be a
    * number that is not negative. */
  predicate BadCount(d: Term)
  {
    !d.Var? && (!d.Int? || d.value < 0)
  }

  /** `YP.atom_length`: the atom must be bound to an atom and Length, when
    * bound, to a number that is not negative; Length is then unified with
    * the number of characters of the name. */
  function AtomLength(h: Heap, atom: Term, length: Term): (r: Outcome)
    requires Valid(h) && InScope(h.next, atom) && InScope(h.next, length)
    ensures r.Raised? <==> !Deref(h, atom).Sym? || BadCount(Deref(h, length))
    ensures r.Solutions? ==> (|r.heaps| <= 1 &&
      forall k | 0 <= k < |r.heaps| ::
        Valid(r.heaps[k]) && Deref(r.heaps[k], length) == Int(|Deref(h, atom).atom.name|))
    ensures r.Solutions? && Deref(h, length).Var? ==> |r.heaps| == 1
    ensures r.Solutions? && Deref(h, length).Int? ==>
      (r.heaps != [] <==> Deref(h, length).value == |Deref(h, atom).atom.name|)
  {
    var a, n := Deref(h, atom), Deref(h, length);
    if a.Var? then Raised(InstantiationError)
    else if !a.Sym? then Raised(TypeError("atom", Culprit(h, a)))
    else if !n.Var? && !n.Int? then Raised(TypeError("integer", Culprit(h, n)))
    else if !n.Var? && n.value < 0 then Raised(DomainError("not_less_than_zero", n))
    else
      var c := Int(|a.atom.name|);
      UnifyConstant(h, length, c);
      var s := UnifySolutions(h, length, c);
      if s != [] then TermEqualConstant(s[0], length, c); Solutions(s) else Solutions(s)
  }

  // ---------------------------------------------------------------------
  // char_code/2.

  /** `YP.char_code`: a bound Code must be a number that is not negative;
    * then an unbound Char is bound to the character of that code, and a
    * bound Char must be a one-character atom whose code Code is unified
    * with (or compared with, when Code is bound). */
  function CharCode(h: Heap, charTerm: Term, code: Term): (r: Outcome)
    requires Valid(h) && InScope(h.next, charTerm) && InScope(h.next, code)
    ensures r.Raised? <==>
      BadCount(Deref(h, code)) ||
      (Deref(h, charTerm).Var? && Deref(h, code).Var?) ||
      (!Deref(h, charTerm).Var? && !(Deref(h, charTerm).Sym? && |Deref(h, charTerm).atom.name| == 1))
    ensures r.Solutions? ==> |r.heaps| <= 1
    ensures r.Solutions? && Deref(h, charTerm).Var? ==>
      forall k | 0 <= k < |r.heaps| ::
        Valid(r.heaps[k]) && TermEqual(r.heaps[k], charTerm, Name([FromCode(Deref(h, code).value)]))
    ensures r.Solutions? && !Deref(h, charTerm).Var? ==>
      forall k | 0 <= k < |r.heaps| ::
        Valid(r.heaps[k]) && TermEqual(r.heaps[k], code, Int(CodeOf(Deref(h, charTerm).atom.name[0])))
  {
    var c, n := Deref(h, charTerm), Deref(h, code);
    if !n.Var? && !n.Int? then Raised(TypeError("integer", Culprit(h, n)))
    else if !n.Var? && n.value < 0 then Raised(RepresentationError("character_code"))
    else if c.Var? then
      if n.Var? then Raised(InstantiationError)
      else Solutions(UnifySolutions(h, charTerm, Name([FromCode(n.value)])))
    else if !c.Sym? || |c.atom.name| != 1 then Raised(TypeError("character", Culprit(h, c)))
    else if n.Var? then Solutions(UnifySolutions(h, code, Int(CodeOf(c.atom.name[0]))))
    else
      var s := UnifySolutions(h, n, Int(CodeOf(c.atom.name[0])));
      if s != [] then TermEqualDeref(s[0], code, n); DerefStays(h, s[0], code); Solutions(s) else Solutions(s)
  }

  /** char_code turns a character into its code and the code back into the
    * character, for every character one code unit holds. */
  lemma CharCodeRoundTrip(h: Heap, ch: char, v: Term)
    requires Valid(h) && InScope(h.next, v) && Deref(h, v).Var? && InBasicPlane(ch)
    ensures CharCode(h, Name([ch]), v).Solutions? && |CharCode(h, Name([ch]), v).heaps| == 1
    ensures Deref(CharCode(h, Name([ch]), v).heaps[0], v) == Int(CodeOf(ch))
    ensures CharCode(h, v, Int(CodeOf(ch))).Solutions? && |CharCode(h, v, Int(CodeOf(ch))).heaps| == 1
    ensures Deref(CharCode(h, v, Int(CodeOf(ch))).heaps[0], v) == Name([ch])
  {
    UnifyConstant(h, v, Int(CodeOf(ch)));
    assert FromCode(CodeOf(ch)) == ch;
    UnifyConstant(h, v, Name([ch]));
  }

  // ---------------------------------------------------------------------
  // atom_concat/3.

  /** In solution s, Whole, Start and End are atoms and the name of Whole is
    * the name of Start followed by the name of End. */
  predicate Concatenated(s: Heap, start: Term, end: Term, whole: Term)
    requires Valid(s)
  {
    var ds, de, dw := Deref(s, start), Deref(s, end), Deref(s, whole);
    ds.Sym? && de.Sym? && dw.Sym? && dw.atom.name == ds.atom.name + de.atom.name
  }

  /** The candidate split of the name w after i characters, skipped when a
    * bound Start or End has a length that rules it out. */
  function ConcatSplit(h: Heap, start: Term, end: Term, w: string, i: nat): (s: seq<Heap>)
    requires Valid(h) && InScope(h.next, start) && InScope(h.next, end) && i <= |w|
    ensures forall k | 0 <= k < |s| :: Valid(s[k]) && Extends(h, s[k])
  {
    var ds, de := Deref(h, start), Deref(h, end);
    if (ds.Sym? && |ds.atom.name| != i) || (de.Sym? && |de.atom.name| != |w| - i) then []
    else Unify2(h, start, Name(w[..i]), end, Name(w[i..]))
  }

  /** The solutions of the splits 0 .. n - 1, in order. */
  function ConcatSplits(h: Heap, start: Term, end: Term, w: string, n: nat): (s: seq<Heap>)
    requires Valid(h) && InScope(h.next, start) && InScope(h.next, end) && n <= |w| + 1
    ensures forall k | 0 <= k < |s| :: Valid(s[k]) && Extends(h, s[k])
  {
    if n == 0 then [] else ConcatSplits(h, start, end, w, n - 1) + ConcatSplit(h, start, end, w, n - 1)
  }

  /** `YP.atom_concat`: with Whole unbound, Start and End must be atoms and
    * Whole is unified with their concatenation; otherwise Whole must be an
    * atom, Start and End unbound or atoms, and every split of Whole's name
    * is tried in order. */
  function AtomConcatOutcome(h: Heap, start: Term, end: Term, whole: Term): (r: Outcome)
    requires Valid(h) && InScope(h.next, start) && InScope(h.next, end) && InScope(h.next, whole)
    ensures r.Raised? <==>
      if Deref(h, whole).Var? then !Deref(h, start).Sym? || !Deref(h, end).Sym?
      else (!Deref(h, whole).Sym? || !(Deref(h, start).Var? || Deref(h, start).Sym?) ||
        !(Deref(h, end).Var? || Deref(h, end).Sym?))
  {
    var ds, de, dw := Deref(h, start), Deref(h, end), Deref(h, whole);
    if dw.Var? then
      if ds.Var? || de.Var? then Raised(InstantiationError)
      else if !ds.Sym? then Raised(TypeError("atom", Culprit(h, ds)))
      else if !de.Sym? then Raised(TypeError("atom", Culprit(h, de)))
      else Solutions(UnifySolutions(h, whole, Name(ds.atom.name + de.atom.name)))
    else if !dw.Sym? then Raised(TypeError("atom", Culprit(h, dw)))
    else if !ds.Var? && !ds.Sym? then Raised(TypeError("atom", Culprit(h, ds)))
    else if !de.Var? && !de.Sym? then Raised(TypeError("atom", Culprit(h, de)))
    else Solutions(ConcatSplits(h, start, end, dw.atom.name, |dw.atom.name| + 1))
  }

  /** The loop of `YP.atom_concat` over the split points. */
  method AtomConcat(h: Heap, start: Term, end: Term, whole: Term) returns (r: Outcome)
    requires Valid(h) && InScope(h.next, start) && InScope(h.next, end) && InScope(h.next, whole)
    ensures r == AtomConcatOutcome(h, start, end, whole)
  {
    var ds, de, dw := Deref(h, start), Deref(h, end), Deref(h, whole);
    if dw.Var? {
      if ds.Var? || de.Var? {
        return Raised(InstantiationError);
      }
      if !ds.Sym? {
        return Raised(TypeError("atom", Culprit(h, ds)));
      }
      if !de.Sym? {
        return Raised(TypeError("atom", Culprit(h, de)));
      }
      return Solutions(UnifySolutions(h, whole, Name(ds.atom.name + de.atom.name)));
    }
    if !dw.Sym? {
      return Raised(TypeError("atom", Culprit(h, dw)));
    }
    var gotStartLength, startLength := false, 0;
    if !ds.Var? {
      if !ds.Sym? {
        return Raised(TypeError("atom", Culprit(h, ds)));
      }
      gotStartLength, startLength := true, |ds.atom.name|;
    }
    var gotEndLength, endLength := false, 0;
    if !de.Var? {
      if !de.Sym? {
        return Raised(TypeError("atom", Culprit(h, de)));
      }
      gotEndLength, endLength := true, |de.atom.name|;
    }
    var w := dw.atom.name;
    var solutions := SplitSearch(h, start, end, w, gotStartLength, startLength, gotEndLength, endLength);
    return Solutions(solutions);
  }

  lemma SplitsSnoc(h: Heap, start: Term, end: Term, w: string, i: nat)
    requires Valid(h) && InScope(h.next, start) && InScope(h.next, end) && i <= |w|
    ensures ConcatSplits(h, start, end, w, i + 1) == ConcatSplits(h, start, end, w, i) + ConcatSplit(h, start, end, w, i)
  {
  }

  /** The known lengths rule out exactly the splits that ConcatSplit skips. */
  lemma SplitGuard(h: Heap, start: Term, end: Term, w: string, i: nat, gotStartLength: bool, startLength: nat,
                   gotEndLength: bool, endLength: nat)
    requires Valid(h) && InScope(h.next, start) && InScope(h.next, end) && i <= |w|
    requires KnownLength(Deref(h, start), gotStartLength, startLength)
    requires KnownLength(Deref(h, end), gotEndLength, endLength)
    ensures ConcatSplit(h, start, end, w, i) ==
      if (gotStartLength && startLength != i) || (gotEndLength && endLength != |w| - i) then []
      else Unify2(h, start, Name(w[..i]), end, Name(w[i..]))
  {
  }

  /** got says whether a length is known, and len is that length: the
    * length of the name of the atom d. */
  predicate KnownLength(d: Term, got: bool, len: nat)
  {
    got == d.Sym? && (got ==> len == |d.atom.name|)
  }

  /** The search loop of `YP.atom_concat`: for each split point of w that
    * agrees with the known lengths, unify Start and End with the two parts. */
  method SplitSearch(h: Heap, start: Term, end: Term, w: string, gotStartLength: bool, startLength: nat,
                     gotEndLength: bool, endLength: nat) returns (solutions: seq<Heap>)
    requires Valid(h) && InScope(h.next, start) && InScope(h.next, end)
    requires KnownLength(Deref(h, start), gotStartLength, startLength)
    requires KnownLength(Deref(h, end), gotEndLength, endLength)
    ensures solutions == ConcatSplits(h, start, end, w, |w| + 1)
  {
    solutions := [];
    var i := 0;
    while i <= |w|
      invariant 0 <= i <= |w| + 1
      invariant solutions == ConcatSplits(h, start, end, w, i)
    {
      SplitsSnoc(h, start, end, w, i);
      SplitGuard(h, start, end, w, i, gotStartLength, startLength, gotEndLength, endLength);
      if !(gotStartLength && startLength != i) && !(gotEndLength && endLength != |w| - i) {
        solutions := solutions + Unify2(h, start, Name(w[..i]), end, Name(w[i..]));
      }
      i := i + 1;
    }
  }

  /** Solution s makes Start and End the two parts of some split of w. */
  predicate SplitsName(s: Heap, start: Term, end: Term, w: string)
  {
    Valid(s) && exists i | 0 <= i <= |w| :: TermEqual(s, start, Name(w[..i])) && TermEqual(s, end, Name(w[i..]))
  }

  lemma SplitsNameAppend(s1: seq<Heap>, s2: seq<Heap>, start: Term, end: Term, w: string)
    requires forall k | 0 <= k < |s1| :: SplitsName(s1[k], start, end, w)
    requires forall k | 0 <= k < |s2| :: SplitsName(s2[k], start, end, w)
    ensures forall k | 0 <= k < |s1 + s2| :: SplitsName((s1 + s2)[k], start, end, w)
  {
    forall k | 0 <= k < |s1 + s2| ensures SplitsName((s1 + s2)[k], start, end, w) {
      if k < |s1| {
        assert (s1 + s2)[k] == s1[k];
      } else {
        assert (s1 + s2)[k] == s2[k - |s1|];
      }
    }
  }

  /** Every solution of the splits splits the name w. */
  lemma {:induction false} ConcatSplitsSound(h: Heap, start: Term, end: Term, w: string, n: nat)
    requires Valid(h) && InScope(h.next, start) && InScope(h.next, end) && n <= |w| + 1
    ensures forall k | 0 <= k < |ConcatSplits(h, start, end, w, n)| ::
      SplitsName(ConcatSplits(h, start, end, w, n)[k], start, end, w)
  {
    if n > 0 {
      ConcatSplitsSound(h, start, end, w, n - 1);
      var s1, s2 := ConcatSplits(h, start, end, w, n - 1), ConcatSplit(h, start, end, w, n - 1);
      assert ConcatSplits(h, start, end, w, n) == s1 + s2;
      forall k | 0 <= k < |s2| ensures SplitsName(s2[k], start, end, w) {
        assert TermEqual(s2[k], start, Name(w[..n - 1])) && TermEqual(s2[k], end, Name(w[n - 1..]));
      }
      SplitsNameAppend(s1, s2, start, end, w);
    }
  }

  /** With Whole unbound, its one solution binds it to the concatenation. */
  lemma JoinedConcatenated(h: Heap, start: Term, end: Term, whole: Term, c: Term, s: Heap)
    requires Valid(h) && Deref(h, start).Sym? && Deref(h, end).Sym?
    requires c == Name(Deref(h, start).atom.name + Deref(h, end).atom.name)
    requires Valid(s) && Extends(h, s) && TermEqual(s, whole, c)
    ensures Concatenated(s, start, end, whole)
  {
    TermEqualConstant(s, whole, c);
    DerefStays(h, s, start);
    DerefStays(h, s, end);
  }

  /** A solution of a split of Whole's name concatenates Start and End. */
  lemma SplitConcatenated(h: Heap, start: Term, end: Term, whole: Term, s: Heap, i: nat)
    requires Valid(h) && Deref(h, whole).Sym? && i <= |Deref(h, whole).atom.name|
    requires var w := Deref(h, whole).atom.name;
      Valid(s) && Extends(h, s) && TermEqual(s, start, Name(w[..i])) && TermEqual(s, end, Name(w[i..]))
    ensures Concatenated(s, start, end, whole)
  {
    var w := Deref(h, whole).atom.name;
    TermEqualConstant(s, start, Name(w[..i]));
    TermEqualConstant(s, end, Name(w[i..]));
    DerefStays(h, s, whole);
    assert w[..i] + w[i..] == w;
  }

  /** Every solution of atom_concat makes Whole the concatenation of Start
    * and End. */
  lemma AtomConcatSound(h: Heap, start: Term, end: Term, whole: Term)
    requires Valid(h) && InScope(h.next, start) && InScope(h.next, end) && InScope(h.next, whole)
    ensures var r := AtomConcatOutcome(h, start, end, whole);
      r.Solutions? ==> forall k | 0 <= k < |r.heaps| :: Valid(r.heaps[k]) && Concatenated(r.heaps[k], start, end, whole)
  {
    var r := AtomConcatOutcome(h, start, end, whole);
    if r.Solutions? && Deref(h, whole).Var? {
      JoinSound(h, start, end, whole, Name(Deref(h, start).atom.name + Deref(h, end).atom.name), r.heaps);
    } else if r.Solutions? {
      SearchSound(h, start, end, whole, r.heaps);
    }
  }

  lemma JoinSound(h: Heap, start: Term, end: Term, whole: Term, c: Term, ss: seq<Heap>)
    requires Valid(h) && InScope(h.next, whole) && Deref(h, start).Sym? && Deref(h, end).Sym?
    requires c == Name(Deref(h, start).atom.name + Deref(h, end).atom.name)
    requires ss == UnifySolutions(h, whole, c)
    ensures forall k | 0 <= k < |ss| :: Valid(ss[k]) && Concatenated(ss[k], start, end, whole)
  {
    match Unify(h, whole, c) {
      case None =>
      case Some(s) =>
        UnifySound(h, whole, c);
        JoinedConcatenated(h, start, end, whole, c, s);
    }
  }

  lemma SearchSound(h: Heap, start: Term, end: Term, whole: Term, ss: seq<Heap>)
    requires Valid(h) && InScope(h.next, start) && InScope(h.next, end) && Deref(h, whole).Sym?
    requires var w := Deref(h, whole).atom.name; ss == ConcatSplits(h, start, end, w, |w| + 1)
    ensures forall k | 0 <= k < |ss| :: Valid(ss[k]) && Concatenated(ss[k], start, end, whole)
  {
    var w := Deref(h, whole).atom.name;
    ConcatSplitsSound(h, start, end, w, |w| + 1);
    forall k | 0 <= k < |ss| ensures Valid(ss[k]) && Concatenated(ss[k], start, end, whole) {
      var s := ss[k];
      assert SplitsName(s, start, end, w);
      var i :| 0 <= i <= |w| && TermEqual(s, start, Name(w[..i])) && TermEqual(s, end, Name(w[i..]));
      SplitConcatenated(h, start, end, whole, s, i);
    }
  }

  /** Unifying an unbound variable x with a constant c binds x to c and
    * leaves the value of any term y that was not x unchanged. */
  lemma BindToConstant(h: Heap, x: Term, c: Term, y: Term) returns (h1: Heap)
    requires Valid(h) && InScope(h.next, x) && Constant(c) && Deref(h, x).Var?
    ensures InScope(h.next, c) && Unify(h, x, c) == Some(h1)
    ensures Valid(h1) && h1.next == h.next && Extends(h, h1) && Deref(h1, x) == c
    ensures Deref(h, y) != Deref(h, x) ==> Deref(h1, y) == Deref(h, y)
  {
    UnifyConstant(h, x, c);
    h1 := Unify(h, x, c).value;
    if Deref(h, y) != Deref(h, x) {
      DerefAfterBinding(h, h1, y, Deref(h, x).id);
    }
  }

  /** Start and End are two different unbound variables. */
  predicate FreePair(h: Heap, start: Term, end: Term)
  {
    Valid(h) && InScope(h.next, start) && InScope(h.next, end) &&
    Deref(h, start).Var? && Deref(h, end).Var? && Deref(h, start) != Deref(h, end)
  }

  /** With Start and End two different unbound variables, the split after
    * i characters binds Start to the first i characters and End to the
    * rest. */
  lemma SplitOfFreeVariables(h: Heap, start: Term, end: Term, w: string, i: nat) returns (s: Heap)
    requires Valid(h) && InScope(h.next, start) && InScope(h.next, end) && i <= |w|
    requires Deref(h, start).Var? && Deref(h, end).Var? && Deref(h, start) != Deref(h, end)
    ensures ConcatSplit(h, start, end, w, i) == [s] && BindsSplit(s, start, end, w, i)
  {
    var h1 := BindToConstant(h, start, Name(w[..i]), end);
    s := BindToConstant(h1, end, Name(w[i..]), start);
  }

  /** Solution s of the split after i characters binds Start to the first i
    * characters of w and End to the rest. */
  predicate BindsSplit(s: Heap, start: Term, end: Term, w: string, i: nat)
    requires i <= |w|
  {
    Valid(s) && Deref(s, start) == Name(w[..i]) && Deref(s, end) == Name(w[i..])
  }

  /** Solution k of ss binds the split after k characters. */
  predicate BindsSplits(ss: seq<Heap>, start: Term, end: Term, w: string)
  {
    |ss| <= |w| + 1 && forall k | 0 <= k < |ss| :: BindsSplit(ss[k], start, end, w, k)
  }

  lemma BindsSplitsSnoc(s1: seq<Heap>, s2: seq<Heap>, start: Term, end: Term, w: string)
    requires BindsSplits(s1, start, end, w) && |s1| <= |w| && |s2| == 1
    requires BindsSplit(s2[0], start, end, w, |s1|)
    ensures BindsSplits(s1 + s2, start, end, w)
  {
    forall k | 0 <= k < |s1 + s2| ensures BindsSplit((s1 + s2)[k], start, end, w, k) {
      if k < |s1| {
        assert (s1 + s2)[k] == s1[k];
      }
    }
  }

  /** Each split alone has one solution, which binds that split. */
  predicate SingleSplits(h: Heap, start: Term, end: Term, w: string)
  {
    Valid(h) && InScope(h.next, start) && InScope(h.next, end) &&
    forall i | 0 <= i <= |w| ::
      |ConcatSplit(h, start, end, w, i)| == 1 && BindsSplit(ConcatSplit(h, start, end, w, i)[0], start, end, w, i)
  }

  lemma FreeVariablesSplitSingly(h: Heap, start: Term, end: Term, w: string)
    requires FreePair(h, start, end)
    ensures SingleSplits(h, start, end, w)
  {
    forall i | 0 <= i <= |w|
      ensures |ConcatSplit(h, start, end, w, i)| == 1 && BindsSplit(ConcatSplit(h, start, end, w, i)[0], start, end, w, i)
    {
      var s := SplitOfFreeVariables(h, start, end, w, i);
    }
  }

  /** When every split has one solution, the splits 0 .. n - 1 have n
    * solutions, solution k binding split k. */
  lemma SplitsOfSingles(h: Heap, start: Term, end: Term, w: string, n: nat)
    requires SingleSplits(h, start, end, w) && n <= |w| + 1
    ensures var ss := ConcatSplits(h, start, end, w, n); |ss| == n && BindsSplits(ss, start, end, w)
  {
    var k := 0;
    while k < n
      invariant k <= n
      invariant var ss := ConcatSplits(h, start, end, w, k); |ss| == k && BindsSplits(ss, start, end, w)
    {
      SinglesStep(h, start, end, w, k);
      k := k + 1;
    }
  }

  lemma SinglesStep(h: Heap, start: Term, end: Term, w: string, k: nat)
    requires SingleSplits(h, start, end, w) && k <= |w|
    requires var ss := ConcatSplits(h, start, end, w, k); |ss| == k && BindsSplits(ss, start, end, w)
    ensures var ss := ConcatSplits(h, start, end, w, k + 1); |ss| == k + 1 && BindsSplits(ss, start, end, w)
  {
    var s1, s2 := ConcatSplits(h, start, end, w, k), ConcatSplit(h, start, end, w, k);
    assert ConcatSplits(h, start, end, w, k + 1) == s1 + s2;
    BindsSplitsSnoc(s1, s2, start, end, w);
  }

  /** With Start and End two different unbound variables, atom_concat
    * enumerates every split of the name, shortest Start first. */
  lemma AtomConcatEnumeratesSplits(h: Heap, start: Term, end: Term, whole: Term)
    requires Valid(h) && InScope(h.next, start) && InScope(h.next, end) && InScope(h.next, whole)
    requires Deref(h, whole).Sym? && FreePair(h, start, end)
    ensures var r, w := AtomConcatOutcome(h, start, end, whole), Deref(h, whole).atom.name;
      r.Solutions? && |r.heaps| == |w| + 1 && BindsSplits(r.heaps, start, end, w)
  {
    var w := Deref(h, whole).atom.name;
    FreeVariablesSplitSingly(h, start, end, w);
    SplitsOfSingles(h, start, end, w, |w| + 1);
  }

  // ---------------------------------------------------------------------
  // Atom.module/2.

  /** The module `Atom.module` reports for an atom: its declaring module,
    * or `[]` when it has none. */
  function ModuleTerm(a: Atom): (t: Term)
    ensures t.Sym?
    ensures a.declaringModule.Some? ==> t.atom == a.declaringModule.value
  {
    match a.declaringModule
    case None => Sym(NIL)
    case Some(m) => Sym(m)
  }

  /** `Atom.module(Obj, Module)`: for an atom, Module is unified with the
    * atom's module; anything else has no solution. */
  function AtomModule(h: Heap, obj: Term, mod: Term): (r: seq<Heap>)
    requires Valid(h) && InScope(h.next, mod)
    ensures |r| <= 1
    ensures !Deref(h, obj).Sym? ==> r == []
    ensures forall k | 0 <= k < |r| ::
      Valid(r[k]) && Deref(h, obj).Sym? && TermEqual(r[k], mod, ModuleTerm(Deref(h, obj).atom))
  {
    var d := Deref(h, obj);
    if d.Sym? then
      UnifyConstant(h, mod, ModuleTerm(d.atom));
      UnifySolutions(h, mod, ModuleTerm(d.atom))
    else []
  }

  /** For an atom, an unbound Module gets the atom's module, and a bound one
    * succeeds exactly when it is that module. */
  lemma AtomModuleOfAtom(h: Heap, obj: Term, mod: Term)
    requires Valid(h) && InScope(h.next, mod) && Deref(h, obj).Sym?
    ensures var m := ModuleTerm(Deref(h, obj).atom); var r := AtomModule(h, obj, mod);
      if Deref(h, mod).Var? then |r| == 1 && Deref(r[0], mod) == m
      else (r != [] <==> Matches(Deref(h, mod), m)) && (r != [] ==> r == [h])
  {
    UnifyConstant(h, mod, ModuleTerm(Deref(h, obj).atom));
  }
}
