// `sub_atom/5` of the `YP` built-ins: every way of placing a sub-atom in
// an atom's name, with quick cases when two of the counts are known.
module SubAtoms {
  import opened Wrappers
  import opened Atoms
  import opened Terms
  import opened Equality
  import opened Unification
  import opened Errors
  import opened Builtins
  import opened AtomText

  /** Solution s places the sub-atom b characters into w with length l:
    * Before is b, Length is l, After is the rest of the count and Sub_atom
    * is the atom of the characters in between. */
  predicate Placed(s: Heap, before: Term, length: Term, after: Term, sub: Term, w: string, b: nat, l: nat)
    requires Valid(s) && b + l <= |w|
  {
    TermEqual(s, before, Int(b)) && TermEqual(s, length, Int(l)) &&
    TermEqual(s, after, Int(|w| - (b + l))) && TermEqual(s, sub, Name(w[b..b + l]))
  }

  /** Solution s places the sub-atom somewhere in w. */
  ghost predicate SubAtomSolved(s: Heap, before: Term, length: Term, after: Term, sub: Term, w: string)
  {
    Valid(s) && exists b: nat, l: nat | b + l <= |w| :: Placed(s, before, length, after, sub, w, b, l)
  }

  /** The arguments of sub_atom/5 other than the atom, all in scope. */
  predicate SubAtomScope(h: Heap, before: Term, length: Term, after: Term, sub: Term)
  {
    Valid(h) && InScope(h.next, before) && InScope(h.next, length) &&
    InScope(h.next, after) && InScope(h.next, sub)
  }

  /** The candidate with b characters before the sub-atom and l in it:
    * Length, After and Sub_atom are unified in turn. */
  function SubAtomAt(h: Heap, length: Term, after: Term, sub: Term, w: string, b: nat, l: nat): seq<Heap>
    requires Valid(h) && InScope(h.next, length) && InScope(h.next, after) && InScope(h.next, sub)
    requires b + l <= |w|
  {
    UnifyPairs(h, [length, after, sub], [Int(l), Int(|w| - (b + l)), Name(w[b..b + l])])
  }

  /** The candidate's solution, if any, extends the heap and makes Length,
    * After and Sub_atom the counts and characters of that placing. */
  lemma SubAtomAtSound(h: Heap, length: Term, after: Term, sub: Term, w: string, b: nat, l: nat)
    requires Valid(h) && InScope(h.next, length) && InScope(h.next, after) && InScope(h.next, sub)
    requires b + l <= |w|
    ensures |SubAtomAt(h, length, after, sub, w, b, l)| <= 1
    ensures forall s | s in SubAtomAt(h, length, after, sub, w, b, l) ::
      Valid(s) && Extends(h, s) && TermEqual(s, length, Int(l)) &&
      TermEqual(s, after, Int(|w| - (b + l))) && TermEqual(s, sub, Name(w[b..b + l]))
  {
    var xs, ys := [length, after, sub], [Int(l), Int(|w| - (b + l)), Name(w[b..b + l])];
    var s := UnifyPairs(h, xs, ys);
    forall k | 0 <= k < |s|
      ensures TermEqual(s[k], length, Int(l)) && TermEqual(s[k], after, Int(|w| - (b + l)))
      ensures TermEqual(s[k], sub, Name(w[b..b + l]))
    {
      assert TermEqual(s[k], xs[0], ys[0]);
      assert TermEqual(s[k], xs[1], ys[1]);
      assert TermEqual(s[k], xs[2], ys[2]);
    }
  }

  /** The candidates with b characters before and lengths 0 .. n - 1. */
  function SubAtomLengths(h: Heap, length: Term, after: Term, sub: Term, w: string, b: nat, n: nat): seq<Heap>
    requires Valid(h) && InScope(h.next, length) && InScope(h.next, after) && InScope(h.next, sub)
    requires b <= |w| && n <= |w| - b + 1
  {
    if n == 0 then []
    else SubAtomLengths(h, length, after, sub, w, b, n - 1) + SubAtomAt(h, length, after, sub, w, b, n - 1)
  }

  /** Before unified with b, then every length that fits after it. */
  function SubAtomBefore(h: Heap, before: Term, length: Term, after: Term, sub: Term, w: string, b: nat): seq<Heap>
    requires SubAtomScope(h, before, length, after, sub) && b <= |w|
  {
    var s := UnifyPairs(h, [before], [Int(b)]);
    if s == [] then [] else SubAtomLengths(s[0], length, after, sub, w, b, |w| - b + 1)
  }

  /** The search over Before = 0 .. n - 1, in order. */
  function SubAtomSearch(h: Heap, before: Term, length: Term, after: Term, sub: Term, w: string, n: nat): seq<Heap>
    requires SubAtomScope(h, before, length, after, sub) && n <= |w| + 1
  {
    if n == 0 then []
    else SubAtomSearch(h, before, length, after, sub, w, n - 1) + SubAtomBefore(h, before, length, after, sub, w, n - 1)
  }

  /** Once the arguments are checked: the substring when Before and Length
    * are known, the substring counted from the end when After and Length
    * are known, and the search otherwise. */
  function SubAtomSolutions(h: Heap, w: string, before: Term, length: Term, after: Term, sub: Term): seq<Heap>
    requires SubAtomScope(h, before, length, after, sub)
    requires !BadCount(Deref(h, before)) && !BadCount(Deref(h, length)) && !BadCount(Deref(h, after))
  {
    var db, dl, da := Deref(h, before), Deref(h, length), Deref(h, after);
    if db.Int? && dl.Int? then KnownBefore(h, after, sub, w, db.value, dl.value)
    else if da.Int? && dl.Int? then KnownAfter(h, before, sub, w, da.value, dl.value)
    else SubAtomSearch(h, before, length, after, sub, w, |w| + 1)
  }

  /** The quick case with b characters before the sub-atom and l in it:
    * After and Sub_atom are unified with what remains, when l fits. */
  function KnownBefore(h: Heap, after: Term, sub: Term, w: string, b: nat, l: nat): seq<Heap>
    requires Valid(h) && InScope(h.next, after) && InScope(h.next, sub)
  {
    var xAfter := |w| - (b + l);
    if xAfter >= 0 then SubAtomQuick(h, after, xAfter, sub, w, b, l) else []
  }

  /** The quick case with a characters after the sub-atom and l in it:
    * Before and Sub_atom are unified with what remains, when l fits. */
  function KnownAfter(h: Heap, before: Term, sub: Term, w: string, a: nat, l: nat): seq<Heap>
    requires Valid(h) && InScope(h.next, before) && InScope(h.next, sub)
  {
    var xBefore := |w| - (a + l);
    if xBefore >= 0 then SubAtomQuick(h, before, xBefore, sub, w, xBefore, l) else []
  }

  /** The remaining count unified with n, then Sub_atom with the l
    * characters after the first b. */
  function SubAtomQuick(h: Heap, count: Term, n: nat, sub: Term, w: string, b: nat, l: nat): seq<Heap>
    requires Valid(h) && InScope(h.next, count) && InScope(h.next, sub) && b + l <= |w|
  {
    UnifyPairs(h, [count, sub], [Int(n), Name(w[b..b + l])])
  }

  /** The quick case's solution, if any, extends the heap and makes the
    * count n and Sub_atom the l characters after the first b. */
  lemma SubAtomQuickSound(h: Heap, count: Term, n: nat, sub: Term, w: string, b: nat, l: nat)
    requires Valid(h) && InScope(h.next, count) && InScope(h.next, sub) && b + l <= |w|
    ensures forall s | s in SubAtomQuick(h, count, n, sub, w, b, l) ::
      Valid(s) && Extends(h, s) && TermEqual(s, count, Int(n)) && TermEqual(s, sub, Name(w[b..b + l]))
  {
    var xs, ys := [count, sub], [Int(n), Name(w[b..b + l])];
    forall s | s in UnifyPairs(h, xs, ys)
      ensures TermEqual(s, count, Int(n)) && TermEqual(s, sub, Name(w[b..b + l]))
    {
      assert TermEqual(s, xs[0], ys[0]) && TermEqual(s, xs[1], ys[1]);
    }
  }

  /** The error `YP.sub_atom` raises, if any: the atom must be bound to an
    * atom, Sub_atom unbound or an atom, and each of Before, Length and
    * After unbound or a number that is not negative, checked in that
    * order. */
  function SubAtomCheck(h: Heap, atom: Term, before: Term, length: Term, after: Term, sub: Term): (e: Option<Term>)
    requires Valid(h)
    ensures e.Some? <==>
      !Deref(h, atom).Sym? || !(Deref(h, sub).Var? || Deref(h, sub).Sym?) ||
      BadCount(Deref(h, before)) || BadCount(Deref(h, length)) || BadCount(Deref(h, after))
  {
    var dw, dx := Deref(h, atom), Deref(h, sub);
    var db, dl, da := Deref(h, before), Deref(h, length), Deref(h, after);
    if dw.Var? then Some(InstantiationError)
    else if !dw.Sym? then Some(TypeError("atom", Culprit(h, dw)))
    else if !dx.Var? && !dx.Sym? then Some(TypeError("atom", Culprit(h, dx)))
    else if !db.Var? && !db.Int? then Some(TypeError("integer", Culprit(h, db)))
    else if !db.Var? && db.value < 0 then Some(DomainError("not_less_than_zero", db))
    else if !dl.Var? && !dl.Int? then Some(TypeError("integer", Culprit(h, dl)))
    else if !dl.Var? && dl.value < 0 then Some(DomainError("not_less_than_zero", dl))
    else if !da.Var? && !da.Int? then Some(TypeError("integer", Culprit(h, da)))
    else if !da.Var? && da.value < 0 then Some(DomainError("not_less_than_zero", da))
    else None
  }

  /** `YP.sub_atom`: the error of the checks, or every way of placing
    * Sub_atom in the atom. */
  function SubAtomOutcome(h: Heap, atom: Term, before: Term, length: Term, after: Term, sub: Term): (r: Outcome)
    requires InScope(h.next, atom) && SubAtomScope(h, before, length, after, sub)
    ensures r.Raised? <==>
      !Deref(h, atom).Sym? || !(Deref(h, sub).Var? || Deref(h, sub).Sym?) ||
      BadCount(Deref(h, before)) || BadCount(Deref(h, length)) || BadCount(Deref(h, after))
  {
    match SubAtomCheck(h, atom, before, length, after, sub)
    case Some(e) => Raised(e)
    case None => Solutions(SubAtomSolutions(h, Deref(h, atom).atom.name, before, length, after, sub))
  }

  /** `YP.sub_atom`, run as the source's nested loops. */
  method SubAtom(h: Heap, atom: Term, before: Term, length: Term, after: Term, sub: Term) returns (r: Outcome)
    requires InScope(h.next, atom) && SubAtomScope(h, before, length, after, sub)
    ensures r == SubAtomOutcome(h, atom, before, length, after, sub)
  {
    var error := SubAtomCheck(h, atom, before, length, after, sub);
    if error.Some? {
      return Raised(error.value);
    }
    var solutions := SubAtomSolve(h, Deref(h, atom).atom.name, before, length, after, sub);
    return Solutions(solutions);
  }

  /** The three ways of finding the sub-atoms once the arguments are checked. */
  method SubAtomSolve(h: Heap, w: string, before: Term, length: Term, after: Term, sub: Term) returns (solutions: seq<Heap>)
    requires SubAtomScope(h, before, length, after, sub)
    requires !BadCount(Deref(h, before)) && !BadCount(Deref(h, length)) && !BadCount(Deref(h, after))
    ensures solutions == SubAtomSolutions(h, w, before, length, after, sub)
  {
    var db, dl, da := Deref(h, before), Deref(h, length), Deref(h, after);
    if db.Int? && dl.Int? {
      solutions := KnownBefore(h, after, sub, w, db.value, dl.value);
    } else if da.Int? && dl.Int? {
      solutions := KnownAfter(h, before, sub, w, da.value, dl.value);
    } else {
      solutions := BeforeSearch(h, before, length, after, sub, w);
    }
  }

  lemma SearchSnoc(h: Heap, before: Term, length: Term, after: Term, sub: Term, w: string, b: nat)
    requires SubAtomScope(h, before, length, after, sub) && b <= |w|
    ensures SubAtomSearch(h, before, length, after, sub, w, b + 1) ==
      SubAtomSearch(h, before, length, after, sub, w, b) + SubAtomBefore(h, before, length, after, sub, w, b)
  {
  }

  /** The outer loop: every count of characters before the sub-atom. */
  method BeforeSearch(h: Heap, before: Term, length: Term, after: Term, sub: Term, w: string) returns (solutions: seq<Heap>)
    requires SubAtomScope(h, before, length, after, sub)
    ensures solutions == SubAtomSearch(h, before, length, after, sub, w, |w| + 1)
  {
    solutions := [];
    var b := 0;
    while b <= |w|
      invariant 0 <= b <= |w| + 1
      invariant solutions == SubAtomSearch(h, before, length, after, sub, w, b)
    {
      solutions := BeforeStep(h, before, length, after, sub, w, b, solutions);
      b := b + 1;
    }
  }

  /** One pass of the outer loop: Before unified with b, then the inner loop. */
  method BeforeStep(h: Heap, before: Term, length: Term, after: Term, sub: Term, w: string, b: nat, solutions: seq<Heap>)
    returns (solutions': seq<Heap>)
    requires SubAtomScope(h, before, length, after, sub) && b <= |w|
    requires solutions == SubAtomSearch(h, before, length, after, sub, w, b)
    ensures solutions' == SubAtomSearch(h, before, length, after, sub, w, b + 1)
  {
    SearchSnoc(h, before, length, after, sub, w, b);
    var found := [];
    var s := UnifyPairs(h, [before], [Int(b)]);
    if s != [] {
      found := LengthSearch(s[0], length, after, sub, w, b);
    }
    solutions' := solutions + found;
  }

  lemma LengthsSnoc(h: Heap, length: Term, after: Term, sub: Term, w: string, b: nat, l: nat)
    requires Valid(h) && InScope(h.next, length) && InScope(h.next, after) && InScope(h.next, sub)
    requires b + l <= |w|
    ensures SubAtomLengths(h, length, after, sub, w, b, l + 1) ==
      SubAtomLengths(h, length, after, sub, w, b, l) + SubAtomAt(h, length, after, sub, w, b, l)
  {
  }

  /** One pass of the inner loop: the candidate of length l. */
  method LengthStep(h: Heap, length: Term, after: Term, sub: Term, w: string, b: nat, l: nat, found: seq<Heap>)
    returns (found': seq<Heap>)
    requires Valid(h) && InScope(h.next, length) && InScope(h.next, after) && InScope(h.next, sub)
    requires b + l <= |w| && found == SubAtomLengths(h, length, after, sub, w, b, l)
    ensures found' == SubAtomLengths(h, length, after, sub, w, b, l + 1)
  {
    LengthsSnoc(h, length, after, sub, w, b, l);
    found' := found + SubAtomAt(h, length, after, sub, w, b, l);
  }

  /** The inner loop: every length that fits after b characters. */
  method LengthSearch(h: Heap, length: Term, after: Term, sub: Term, w: string, b: nat) returns (found: seq<Heap>)
    requires Valid(h) && InScope(h.next, length) && InScope(h.next, after) && InScope(h.next, sub)
    requires b <= |w|
    ensures found == SubAtomLengths(h, length, after, sub, w, b, |w| - b + 1)
  {
    found := [];
    var l := 0;
    while l <= |w| - b
      invariant 0 <= l <= |w| - b + 1
      invariant found == SubAtomLengths(h, length, after, sub, w, b, l)
    {
      found := LengthStep(h, length, after, sub, w, b, l, found);
      l := l + 1;
    }
  }

  lemma SolvedAppend(s1: seq<Heap>, s2: seq<Heap>, before: Term, length: Term, after: Term, sub: Term, w: string)
    requires forall k | 0 <= k < |s1| :: SubAtomSolved(s1[k], before, length, after, sub, w)
    requires forall k | 0 <= k < |s2| :: SubAtomSolved(s2[k], before, length, after, sub, w)
    ensures forall k | 0 <= k < |s1 + s2| :: SubAtomSolved((s1 + s2)[k], before, length, after, sub, w)
  {
    forall k | 0 <= k < |s1 + s2| ensures SubAtomSolved((s1 + s2)[k], before, length, after, sub, w) {
      if k < |s1| {
        assert (s1 + s2)[k] == s1[k];
      } else {
        assert (s1 + s2)[k] == s2[k - |s1|];
      }
    }
  }

  /** Every candidate with b characters before the sub-atom places it. */
  lemma {:induction false} LengthsSound(h: Heap, before: Term, length: Term, after: Term, sub: Term, w: string, b: nat, n: nat)
    requires SubAtomScope(h, before, length, after, sub) && b <= |w| && n <= |w| - b + 1
    requires TermEqual(h, before, Int(b))
    ensures forall k | 0 <= k < |SubAtomLengths(h, length, after, sub, w, b, n)| ::
      SubAtomSolved(SubAtomLengths(h, length, after, sub, w, b, n)[k], before, length, after, sub, w)
  {
    if n > 0 {
      LengthsSound(h, before, length, after, sub, w, b, n - 1);
      var s1, s2 := SubAtomLengths(h, length, after, sub, w, b, n - 1), SubAtomAt(h, length, after, sub, w, b, n - 1);
      CandidateSolved(h, before, length, after, sub, w, b, n - 1);
      SolvedAppend(s1, s2, before, length, after, sub, w);
    }
  }

  /** The candidate with b characters before and l in it places the
    * sub-atom, when Before is already b. */
  lemma CandidateSolved(h: Heap, before: Term, length: Term, after: Term, sub: Term, w: string, b: nat, l: nat)
    requires SubAtomScope(h, before, length, after, sub) && b + l <= |w|
    requires TermEqual(h, before, Int(b))
    ensures var s := SubAtomAt(h, length, after, sub, w, b, l);
      forall k | 0 <= k < |s| :: SubAtomSolved(s[k], before, length, after, sub, w)
  {
    var s := SubAtomAt(h, length, after, sub, w, b, l);
    SubAtomAtSound(h, length, after, sub, w, b, l);
    forall k | 0 <= k < |s| ensures SubAtomSolved(s[k], before, length, after, sub, w) {
      assert s[k] in s;
      TermEqualMonotone(h, s[k], before, Int(b));
      assert Placed(s[k], before, length, after, sub, w, b, l);
    }
  }

  /** Every solution of the search places the sub-atom. */
  lemma {:induction false} SubAtomSearchSound(h: Heap, before: Term, length: Term, after: Term, sub: Term, w: string, n: nat)
    requires SubAtomScope(h, before, length, after, sub) && n <= |w| + 1
    ensures forall k | 0 <= k < |SubAtomSearch(h, before, length, after, sub, w, n)| ::
      SubAtomSolved(SubAtomSearch(h, before, length, after, sub, w, n)[k], before, length, after, sub, w)
  {
    if n > 0 {
      SubAtomSearchSound(h, before, length, after, sub, w, n - 1);
      var s1, s2 := SubAtomSearch(h, before, length, after, sub, w, n - 1), SubAtomBefore(h, before, length, after, sub, w, n - 1);
      var s := UnifyPairs(h, [before], [Int(n - 1)]);
      if s != [] {
        assert TermEqual(s[0], [before][0], [Int(n - 1)][0]);
        LengthsSound(s[0], before, length, after, sub, w, n - 1, |w| - (n - 1) + 1);
      }
      SolvedAppend(s1, s2, before, length, after, sub, w);
    }
  }

  /** The quick case with Before and Length known places the sub-atom. */
  lemma KnownBeforeSound(h: Heap, before: Term, length: Term, after: Term, sub: Term, w: string, b: nat, l: nat)
    requires SubAtomScope(h, before, length, after, sub)
    requires Deref(h, before) == Int(b) && Deref(h, length) == Int(l)
    ensures var ss := KnownBefore(h, after, sub, w, b, l);
      forall k | 0 <= k < |ss| :: SubAtomSolved(ss[k], before, length, after, sub, w)
  {
    if b + l <= |w| {
      QuickPlaced(h, before, length, after, sub, w, b, l, false);
    }
  }

  /** The quick case with After and Length known places the sub-atom. */
  lemma KnownAfterSound(h: Heap, before: Term, length: Term, after: Term, sub: Term, w: string, a: nat, l: nat)
    requires SubAtomScope(h, before, length, after, sub)
    requires Deref(h, after) == Int(a) && Deref(h, length) == Int(l)
    ensures var ss := KnownAfter(h, before, sub, w, a, l);
      forall k | 0 <= k < |ss| :: SubAtomSolved(ss[k], before, length, after, sub, w)
  {
    if a + l <= |w| {
      var b: nat := |w| - (a + l);
      assert Int(a) == Int(|w| - (b + l));
      QuickPlaced(h, before, length, after, sub, w, b, l, true);
    }
  }

  /** A quick case places the sub-atom: with Before (or, when afterKnown,
    * After) and Length already the counts of the placing after b
    * characters, its solution makes the other count and Sub_atom agree. */
  lemma QuickPlaced(h: Heap, before: Term, length: Term, after: Term, sub: Term, w: string,
                    b: nat, l: nat, afterKnown: bool)
    requires SubAtomScope(h, before, length, after, sub) && b + l <= |w|
    requires Deref(h, length) == Int(l)
    requires if afterKnown then Deref(h, after) == Int(|w| - (b + l)) else Deref(h, before) == Int(b)
    ensures var ss := if afterKnown then SubAtomQuick(h, before, b, sub, w, b, l)
      else SubAtomQuick(h, after, |w| - (b + l), sub, w, b, l);
      forall k | 0 <= k < |ss| :: SubAtomSolved(ss[k], before, length, after, sub, w)
  {
    if afterKnown {
      QuickPlacedAfterKnown(h, before, length, after, sub, w, b, l);
    } else {
      QuickPlacedBeforeKnown(h, before, length, after, sub, w, b, l);
    }
  }

  /** The quick case with After and Length known. */
  lemma QuickPlacedAfterKnown(h: Heap, before: Term, length: Term, after: Term, sub: Term, w: string, b: nat, l: nat)
    requires SubAtomScope(h, before, length, after, sub) && b + l <= |w|
    requires Deref(h, length) == Int(l) && Deref(h, after) == Int(|w| - (b + l))
    ensures var ss := SubAtomQuick(h, before, b, sub, w, b, l);
      forall k | 0 <= k < |ss| :: SubAtomSolved(ss[k], before, length, after, sub, w)
  {
    var ss := SubAtomQuick(h, before, b, sub, w, b, l);
    forall k | 0 <= k < |ss| ensures SubAtomSolved(ss[k], before, length, after, sub, w) {
      var s := ss[k];
      assert s in ss;
      QuickSolutionSound(h, before, b, sub, w, b, l, s);
      KnownCountStays(h, s, length, l);
      KnownCountStays(h, s, after, |w| - (b + l));
      SolvedBy(s, before, length, after, sub, w, b, l);
    }
  }

  /** The quick case with Before and Length known. */
  lemma QuickPlacedBeforeKnown(h: Heap, before: Term, length: Term, after: Term, sub: Term, w: string, b: nat, l: nat)
    requires SubAtomScope(h, before, length, after, sub) && b + l <= |w|
    requires Deref(h, length) == Int(l) && Deref(h, before) == Int(b)
    ensures var ss := SubAtomQuick(h, after, |w| - (b + l), sub, w, b, l);
      forall k | 0 <= k < |ss| :: SubAtomSolved(ss[k], before, length, after, sub, w)
  {
    var ss := SubAtomQuick(h, after, |w| - (b + l), sub, w, b, l);
    forall k | 0 <= k < |ss| ensures SubAtomSolved(ss[k], before, length, after, sub, w) {
      var s := ss[k];
      assert s in ss;
      QuickSolutionSound(h, after, |w| - (b + l), sub, w, b, l, s);
      KnownCountStays(h, s, length, l);
      KnownCountStays(h, s, before, b);
      SolvedBy(s, before, length, after, sub, w, b, l);
    }
  }

  /** One solution of a quick case, as `SubAtomQuickSound` describes it. */
  lemma QuickSolutionSound(h: Heap, count: Term, n: nat, sub: Term, w: string, b: nat, l: nat, s: Heap)
    requires Valid(h) && InScope(h.next, count) && InScope(h.next, sub) && b + l <= |w|
    requires s in SubAtomQuick(h, count, n, sub, w, b, l)
    ensures Valid(s) && Extends(h, s) && TermEqual(s, count, Int(n)) && TermEqual(s, sub, Name(w[b..b + l]))
  {
    SubAtomQuickSound(h, count, n, sub, w, b, l);
  }

  /** A count that is already n stays equal to n in an extended heap. */
  lemma KnownCountStays(h: Heap, s: Heap, x: Term, n: int)
    requires Valid(h) && Valid(s) && Extends(h, s) && Deref(h, x) == Int(n)
    ensures TermEqual(s, x, Int(n))
  {
    TermEqualConstant(h, x, Int(n));
    TermEqualMonotone(h, s, x, Int(n));
  }

  /** Four equations that place the sub-atom after b characters. */
  lemma SolvedBy(s: Heap, before: Term, length: Term, after: Term, sub: Term, w: string, b: nat, l: nat)
    requires Valid(s) && b + l <= |w|
    requires TermEqual(s, before, Int(b)) && TermEqual(s, length, Int(l))
    requires TermEqual(s, after, Int(|w| - (b + l))) && TermEqual(s, sub, Name(w[b..b + l]))
    ensures SubAtomSolved(s, before, length, after, sub, w)
  {
    assert Placed(s, before, length, after, sub, w, b, l);
  }

  /** Every solution found once the arguments are checked places the
    * sub-atom. */
  lemma SubAtomSolutionsSound(h: Heap, w: string, before: Term, length: Term, after: Term, sub: Term)
    requires SubAtomScope(h, before, length, after, sub)
    requires !BadCount(Deref(h, before)) && !BadCount(Deref(h, length)) && !BadCount(Deref(h, after))
    ensures var ss := SubAtomSolutions(h, w, before, length, after, sub);
      forall k | 0 <= k < |ss| :: SubAtomSolved(ss[k], before, length, after, sub, w)
  {
    var db, dl, da := Deref(h, before), Deref(h, length), Deref(h, after);
    if db.Int? && dl.Int? {
      KnownBeforeSound(h, before, length, after, sub, w, db.value, dl.value);
    } else if da.Int? && dl.Int? {
      KnownAfterSound(h, before, length, after, sub, w, da.value, dl.value);
    } else {
      SubAtomSearchSound(h, before, length, after, sub, w, |w| + 1);
    }
  }

  /** Every solution of sub_atom places Sub_atom in the atom: Before,
    * Length and After count the characters before, in and after it. */
  lemma SubAtomSound(h: Heap, atom: Term, before: Term, length: Term, after: Term, sub: Term)
    requires InScope(h.next, atom) && SubAtomScope(h, before, length, after, sub)
    ensures var r := SubAtomOutcome(h, atom, before, length, after, sub);
      r.Solutions? ==> forall k | 0 <= k < |r.heaps| ::
        SubAtomSolved(r.heaps[k], before, length, after, sub, Deref(h, atom).atom.name)
  {
    var r := SubAtomOutcome(h, atom, before, length, after, sub);
    if r.Solutions? {
      SubAtomSolutionsSound(h, Deref(h, atom).atom.name, before, length, after, sub);
    }
  }

  /** In a quick case with the other count and Sub_atom two different
    * unbound variables, the one solution binds them to the count and the
    * characters. */
  lemma QuickBinds(h: Heap, count: Term, n: nat, sub: Term, w: string, b: nat, l: nat) returns (s: Heap)
    requires Valid(h) && InScope(h.next, count) && InScope(h.next, sub) && b + l <= |w|
    requires Deref(h, count).Var? && Deref(h, sub).Var? && Deref(h, count) != Deref(h, sub)
    ensures SubAtomQuick(h, count, n, sub, w, b, l) == [s]
    ensures Valid(s) && Deref(s, count) == Int(n) && Deref(s, sub) == Name(w[b..b + l])
  {
    var h1 := BindToConstant(h, count, Int(n), sub);
    s := BindToConstant(h1, sub, Name(w[b..b + l]), count);
    UnifyTwoPairs(h, count, Int(n), sub, Name(w[b..b + l]));
  }

  /** With After and Sub_atom two different unbound variables, the quick
    * case with Before b and Length l extracts the l characters after the
    * first b once, or fails when they run past the end. */
  lemma KnownBeforeExtracts(h: Heap, after: Term, sub: Term, w: string, b: nat, l: nat)
    requires Valid(h) && InScope(h.next, after) && InScope(h.next, sub)
    requires Deref(h, after).Var? && Deref(h, sub).Var? && Deref(h, after) != Deref(h, sub)
    ensures var ss := KnownBefore(h, after, sub, w, b, l);
      (b + l > |w| ==> ss == []) &&
      (b + l <= |w| ==> (|ss| == 1 && Deref(ss[0], after) == Int(|w| - (b + l)) &&
        Deref(ss[0], sub) == Name(w[b..b + l])))
  {
    if b + l <= |w| {
      KnownBeforeFits(h, after, sub, w, b, l);
    }
  }

  lemma KnownBeforeFits(h: Heap, after: Term, sub: Term, w: string, b: nat, l: nat)
    requires Valid(h) && InScope(h.next, after) && InScope(h.next, sub) && b + l <= |w|
    requires Deref(h, after).Var? && Deref(h, sub).Var? && Deref(h, after) != Deref(h, sub)
    ensures var ss := KnownBefore(h, after, sub, w, b, l);
      |ss| == 1 && Deref(ss[0], after) == Int(|w| - (b + l)) && Deref(ss[0], sub) == Name(w[b..b + l])
  {
    var s := QuickBinds(h, after, |w| - (b + l), sub, w, b, l);
  }

  /** With Before and Sub_atom two different unbound variables, the quick
    * case with After a and Length l extracts the l characters that end a
    * characters before the end once, or fails when they run past the
    * start. */
  lemma KnownAfterExtracts(h: Heap, before: Term, sub: Term, w: string, a: nat, l: nat)
    requires Valid(h) && InScope(h.next, before) && InScope(h.next, sub)
    requires Deref(h, before).Var? && Deref(h, sub).Var? && Deref(h, before) != Deref(h, sub)
    ensures var ss := KnownAfter(h, before, sub, w, a, l);
      (a + l > |w| ==> ss == []) &&
      (a + l <= |w| ==> (|ss| == 1 && Deref(ss[0], before) == Int(|w| - (a + l)) &&
        Deref(ss[0], sub) == Name(w[|w| - (a + l)..|w| - a])))
  {
    if a + l <= |w| {
      var b: nat := |w| - (a + l);
      var s := QuickBinds(h, before, b, sub, w, b, l);
      assert w[b..b + l] == w[|w| - (a + l)..|w| - a];
      assert KnownAfter(h, before, sub, w, a, l) == [s];
    } else {
      assert KnownAfter(h, before, sub, w, a, l) == [];
    }
  }
}
