// `atom_chars/2` and `atom_codes/2` of the `YP` built-ins: the name of an
// atom as a list of one-character atoms or of character codes, read in
// either direction.
module AtomLists {
  import opened Wrappers
  import opened Atoms
  import opened Terms
  import opened Binding
  import opened Equality
  import opened Unification
  import opened Lists
  import opened Errors
  import opened Builtins
  import opened AtomText

  // ---------------------------------------------------------------------
  // Reading list elements as text.

  /** What the elements of a list spell: the text, or the formal error the
    * first element that is no character raises. */
  datatype Decoded = Text(text: string) | Bad(formal: Term)

  /** The text t in front of what the remaining elements decode to. */
  function Prepend(t: string, d: Decoded): Decoded
  {
    match d
    case Text(u) => Text(t + u)
    case Bad(e) => Bad(e)
  }

  /** A value `atom_chars` accepts as an element: a one-character atom. */
  predicate IsChar(d: Term)
  {
    d.Sym? && |d.atom.name| == 1
  }

  /** The error `atom_chars` raises for an element whose value d is no
    * one-character atom. */
  function CharError(h: Heap, d: Term): Term
    requires Valid(h)
  {
    if d.Var? then InstantiationError else TypeError("character", Culprit(h, d))
  }

  /** The `atom_chars` loop over the elements: each must be bound to a
    * one-character atom, and the characters are taken in order. */
  function CharsOf(h: Heap, items: seq<Term>): (r: Decoded)
    requires Valid(h)
    ensures r.Text? <==> forall i | 0 <= i < |items| :: IsChar(Deref(h, items[i]))
    ensures r.Text? ==> |r.text| == |items|
    ensures r.Text? ==> forall i | 0 <= i < |items| :: r.text[i] == Deref(h, items[i]).atom.name[0]
    decreases |items|
  {
    if items == [] then Text([])
    else
      var d := Deref(h, items[0]);
      if !IsChar(d) then Bad(CharError(h, d))
      else
        var rest := CharsOf(h, items[1..]);
        assert forall i | 1 <= i < |items| :: items[1..][i - 1] == items[i];
        Prepend([d.atom.name[0]], rest)
  }

  /** A value `atom_codes` accepts as an element: a number that is not
    * negative. */
  predicate IsCode(d: Term)
  {
    d.Int? && d.value >= 0
  }

  /** The `atom_codes` loop over the elements: each must be bound to a
    * number that is not negative, and `String.fromCharCode` turns the
    * numbers into characters in order. */
  function CodesOf(h: Heap, items: seq<Term>): (r: Decoded)
    requires Valid(h)
    ensures r.Text? <==> forall i | 0 <= i < |items| :: IsCode(Deref(h, items[i]))
    ensures r.Bad? ==> r.formal == RepresentationError("character_code")
    ensures r.Text? ==> |r.text| == |items|
    ensures r.Text? ==> forall i | 0 <= i < |items| :: r.text[i] == FromCode(Deref(h, items[i]).value)
    decreases |items|
  {
    if items == [] then Text([])
    else
      var d := Deref(h, items[0]);
      if !IsCode(d) then Bad(RepresentationError("character_code"))
      else
        var rest := CodesOf(h, items[1..]);
        assert forall i | 1 <= i < |items| :: items[1..][i - 1] == items[i];
        Prepend([FromCode(d.value)], rest)
  }

  /** The elements before index i are characters and the one at i is not:
    * `atom_chars` raises the error of the element at i. */
  lemma {:induction false} CharsOfFirstBad(h: Heap, items: seq<Term>, i: nat)
    requires Valid(h) && i < |items|
    requires forall j | 0 <= j < i :: IsChar(Deref(h, items[j]))
    requires !IsChar(Deref(h, items[i]))
    ensures CharsOf(h, items) == Bad(CharError(h, Deref(h, items[i])))
    decreases i
  {
    if i > 0 {
      assert IsChar(Deref(h, items[0]));
      assert items[1..][i - 1] == items[i];
      assert forall j | 0 <= j < i - 1 :: items[1..][j] == items[j + 1];
      CharsOfFirstBad(h, items[1..], i - 1);
    }
  }

  /** One element of each decoding loop. */
  lemma DecodeStep(h: Heap, items: seq<Term>, i: nat)
    requires Valid(h) && i < |items|
    ensures IsChar(Deref(h, items[i])) ==>
      CharsOf(h, items[i..]) == Prepend([Deref(h, items[i]).atom.name[0]], CharsOf(h, items[i + 1..]))
    ensures !IsChar(Deref(h, items[i])) ==> CharsOf(h, items[i..]) == Bad(CharError(h, Deref(h, items[i])))
    ensures IsCode(Deref(h, items[i])) ==>
      CodesOf(h, items[i..]) == Prepend([FromCode(Deref(h, items[i]).value)], CodesOf(h, items[i + 1..]))
    ensures !IsCode(Deref(h, items[i])) ==> CodesOf(h, items[i..]) == Bad(RepresentationError("character_code"))
  {
    assert items[i..][0] == items[i];
    assert items[i..][1..] == items[i + 1..];
  }

  lemma PrependTwice(t: string, u: string, d: Decoded)
    ensures Prepend(t, Prepend(u, d)) == Prepend(t + u, d)
  {
    if d.Text? {
      assert t + (u + d.text) == (t + u) + d.text;
    }
  }

  /** The `atom_chars` element loop, stopping at the first element that is
    * no character. */
  method DecodeChars(h: Heap, items: seq<Term>) returns (r: Decoded)
    requires Valid(h)
    ensures r == CharsOf(h, items)
  {
    var chars: string := [];
    var i := 0;
    assert items[0..] == items;
    while i < |items|
      invariant 0 <= i <= |items|
      invariant CharsOf(h, items) == Prepend(chars, CharsOf(h, items[i..]))
    {
      var d := Deref(h, items[i]);
      DecodeStep(h, items, i);
      if d.Var? {
        return Bad(InstantiationError);
      }
      if !IsChar(d) {
        return Bad(TypeError("character", Culprit(h, d)));
      }
      PrependTwice(chars, [d.atom.name[0]], CharsOf(h, items[i + 1..]));
      chars := chars + [d.atom.name[0]];
      i := i + 1;
    }
    assert chars + [] == chars;
    return Text(chars);
  }

  /** The `atom_codes` element loop: every element must be a code before
    * any character is made. */
  method DecodeCodes(h: Heap, items: seq<Term>) returns (r: Decoded)
    requires Valid(h)
    ensures r == CodesOf(h, items)
  {
    var chars: string := [];
    var i := 0;
    assert items[0..] == items;
    while i < |items|
      invariant 0 <= i <= |items|
      invariant CodesOf(h, items) == Prepend(chars, CodesOf(h, items[i..]))
    {
      var d := Deref(h, items[i]);
      DecodeStep(h, items, i);
      if !IsCode(d) {
        return Bad(RepresentationError("character_code"));
      }
      PrependTwice(chars, [FromCode(d.value)], CodesOf(h, items[i + 1..]));
      chars := chars + [FromCode(d.value)];
      i := i + 1;
    }
    assert chars + [] == chars;
    return Text(chars);
  }

  // ---------------------------------------------------------------------
  // Writing a name as a list.

  /** The one-character atoms of the characters of w, in order. */
  function CharAtoms(w: string): seq<Term>
  {
    seq(|w|, i requires 0 <= i < |w| => Name([w[i]]))
  }

  /** The codes of the characters of w, in order. */
  function CodeTerms(w: string): seq<Term>
  {
    seq(|w|, i requires 0 <= i < |w| => Int(CodeOf(w[i])))
  }

  /** The list of items from index i is the item at i in front of the list
    * of the items after it. */
  lemma MakeListFrom(items: seq<Term>, i: nat)
    requires i < |items|
    ensures MakeList(items[i..]) == Cons(items[i], MakeList(items[i + 1..]))
  {
    assert items[i..][1..] == items[i + 1..];
  }

  /** The `atom_chars` list, built from the back. */
  method CharList(w: string) returns (l: Term)
    ensures l == MakeList(CharAtoms(w))
  {
    l := Sym(NIL);
    var i := |w|;
    while i > 0
      invariant 0 <= i <= |w|
      invariant l == MakeList(CharAtoms(w)[i..])
    {
      i := i - 1;
      MakeListFrom(CharAtoms(w), i);
      l := Cons(Name([w[i]]), l);
    }
    assert CharAtoms(w)[0..] == CharAtoms(w);
  }

  /** The `atom_codes` list, built from the back. */
  method CodeList(w: string) returns (l: Term)
    ensures l == MakeList(CodeTerms(w))
  {
    l := Sym(NIL);
    var i := |w|;
    while i > 0
      invariant 0 <= i <= |w|
      invariant l == MakeList(CodeTerms(w)[i..])
    {
      i := i - 1;
      MakeListFrom(CodeTerms(w), i);
      l := Cons(Int(CodeOf(w[i])), l);
    }
    assert CodeTerms(w)[0..] == CodeTerms(w);
  }

  lemma CharListInScope(next: nat, w: string)
    ensures InScope(next, MakeList(CharAtoms(w))) && InScope(next, MakeList(CodeTerms(w)))
  {
    MakeListInScope(next, CharAtoms(w));
    MakeListInScope(next, CodeTerms(w));
  }

  // ---------------------------------------------------------------------
  // The built-ins.

  /** `YP.atom_chars`: with Atom unbound, List must be a proper list of
    * one-character atoms and Atom is unified with the atom they spell;
    * otherwise Atom must be an atom and List is unified with the list of its
    * characters. */
  function AtomCharsOutcome(h: Heap, atom: Term, list: Term): (r: Outcome)
    requires Valid(h) && InScope(h.next, atom) && InScope(h.next, list)
    ensures r.Raised? <==>
      (Deref(h, atom).Var? && !(ToArray(h, list).Items? && CharsOf(h, ToArray(h, list).items).Text?)) ||
      (!Deref(h, atom).Var? && !Deref(h, atom).Sym?)
    ensures r.Solutions? ==> |r.heaps| <= 1
  {
    var a := Deref(h, atom);
    if a.Var? then
      match ToArray(h, list)
      case Unbound => Raised(InstantiationError)
      case NotAList => Raised(TypeError("list", Culprit(h, Deref(h, list))))
      case Items(items) =>
        match CharsOf(h, items)
        case Bad(e) => Raised(e)
        case Text(t) => Solutions(UnifySolutions(h, atom, Name(t)))
    else if !a.Sym? then Raised(TypeError("atom", Culprit(h, a)))
    else
      CharListInScope(h.next, a.atom.name);
      Solutions(UnifySolutions(h, list, MakeList(CharAtoms(a.atom.name))))
  }

  /** `YP.atom_codes`: with Atom unbound, List must be a proper list of
    * numbers that are not negative and Atom is unified with the atom of
    * those character codes; otherwise Atom must be an atom and List is
    * unified with the list of its codes. */
  function AtomCodesOutcome(h: Heap, atom: Term, list: Term): (r: Outcome)
    requires Valid(h) && InScope(h.next, atom) && InScope(h.next, list)
    ensures r.Raised? <==>
      (Deref(h, atom).Var? && !(ToArray(h, list).Items? && CodesOf(h, ToArray(h, list).items).Text?)) ||
      (!Deref(h, atom).Var? && !Deref(h, atom).Sym?)
    ensures r.Solutions? ==> |r.heaps| <= 1
  {
    var a := Deref(h, atom);
    if a.Var? then
      match ToArray(h, list)
      case Unbound => Raised(InstantiationError)
      case NotAList => Raised(TypeError("list", Culprit(h, Deref(h, list))))
      case Items(items) =>
        match CodesOf(h, items)
        case Bad(e) => Raised(e)
        case Text(t) => Solutions(UnifySolutions(h, atom, Name(t)))
    else if !a.Sym? then Raised(TypeError("atom", Culprit(h, a)))
    else
      CharListInScope(h.next, a.atom.name);
      Solutions(UnifySolutions(h, list, MakeList(CodeTerms(a.atom.name))))
  }

  method AtomChars(h: Heap, atom: Term, list: Term) returns (r: Outcome)
    requires Valid(h) && InScope(h.next, atom) && InScope(h.next, list)
    ensures r == AtomCharsOutcome(h, atom, list)
  {
    var a := Deref(h, atom);
    if a.Var? {
      var l := Deref(h, list);
      if l.Var? {
        return Raised(InstantiationError);
      }
      var view := ToArray(h, list);
      if !view.Items? {
        return Raised(TypeError("list", Culprit(h, l)));
      }
      var chars := DecodeChars(h, view.items);
      if chars.Bad? {
        return Raised(chars.formal);
      }
      return Solutions(UnifySolutions(h, atom, Name(chars.text)));
    }
    if !a.Sym? {
      return Raised(TypeError("atom", Culprit(h, a)));
    }
    var charList := CharList(a.atom.name);
    CharListInScope(h.next, a.atom.name);
    return Solutions(UnifySolutions(h, list, charList));
  }

  method AtomCodes(h: Heap, atom: Term, list: Term) returns (r: Outcome)
    requires Valid(h) && InScope(h.next, atom) && InScope(h.next, list)
    ensures r == AtomCodesOutcome(h, atom, list)
  {
    var a := Deref(h, atom);
    if a.Var? {
      var l := Deref(h, list);
      if l.Var? {
        return Raised(InstantiationError);
      }
      var view := ToArray(h, list);
      if !view.Items? {
        return Raised(TypeError("list", Culprit(h, l)));
      }
      var chars := DecodeCodes(h, view.items);
      if chars.Bad? {
        return Raised(chars.formal);
      }
      return Solutions(UnifySolutions(h, atom, Name(chars.text)));
    }
    if !a.Sym? {
      return Raised(TypeError("atom", Culprit(h, a)));
    }
    var codeList := CodeList(a.atom.name);
    CharListInScope(h.next, a.atom.name);
    return Solutions(UnifySolutions(h, list, codeList));
  }

  // ---------------------------------------------------------------------
  // What a solution means.

  /** Lists whose elements are pairwise equal are equal. */
  lemma {:induction false} ListsEqual(h: Heap, xs: seq<Term>, ys: seq<Term>)
    requires Valid(h) && |xs| == |ys|
    requires forall i | 0 <= i < |xs| :: TermEqual(h, xs[i], ys[i])
    ensures TermEqual(h, MakeList(xs), MakeList(ys))
    decreases |xs|
  {
    if xs != [] {
      assert forall i | 0 <= i < |xs| - 1 :: xs[1..][i] == xs[i + 1] && ys[1..][i] == ys[i + 1];
      ListsEqual(h, xs[1..], ys[1..]);
      var lx, ly := MakeList(xs), MakeList(ys);
      assert lx.args[0] == xs[0] && ly.args[0] == ys[0];
      TermEqualOfCompounds(h, lx, ly);
    }
  }

  /** A proper list equals the list made from the items read off it. */
  lemma {:induction false} WalkEqual(h: Heap, d: Term)
    requires Valid(h) && !Bound(h, d) && Walk(h, d).Some?
    ensures TermEqual(h, d, MakeList(Walk(h, d).value))
    decreases Height(h, d), Size(d)
  {
    if IsCons(d) {
      HeightArgsAt(h, d.args, 1);
      var tail := Deref(h, d.args[1]);
      var items := Walk(h, d).value;
      WalkEqual(h, tail);
      TermEqualDeref(h, d.args[1], MakeList(Walk(h, tail).value));
      assert items[1..] == Walk(h, tail).value;
      TermEqualReflexive(h, d.args[0]);
      TermEqualOfCompounds(h, d, MakeList(items));
    }
  }

  lemma ToArrayEqual(h: Heap, list: Term)
    requires Valid(h) && ToArray(h, list).Items?
    ensures TermEqual(h, list, MakeList(ToArray(h, list).items))
  {
    var d := Deref(h, list);
    WalkEqual(h, d);
    TermEqualDeref(h, list, MakeList(ToArray(h, list).items));
  }

  /** Elements that decode to the text t equal its one-character atoms. */
  lemma CharsEqualAtoms(h: Heap, items: seq<Term>, t: string)
    requires Valid(h) && CharsOf(h, items) == Text(t)
    ensures |items| == |CharAtoms(t)|
    ensures forall i | 0 <= i < |items| :: TermEqual(h, items[i], CharAtoms(t)[i])
  {
    forall i | 0 <= i < |items| ensures TermEqual(h, items[i], CharAtoms(t)[i]) {
      var d := Deref(h, items[i]);
      assert d.atom.name == [t[i]];
      TermEqualConstant(h, items[i], Name([t[i]]));
    }
  }

  /** Solution s relates Atom and List as `atom_chars` promises: Atom is an
    * atom and List is the list of its characters. */
  predicate CharsRelated(s: Heap, atom: Term, list: Term)
    requires Valid(s)
  {
    Deref(s, atom).Sym? && TermEqual(s, list, MakeList(CharAtoms(Deref(s, atom).atom.name)))
  }

  /** Every solution of `atom_chars`, in either direction, leaves List the
    * list of the characters of Atom. */
  lemma AtomCharsSound(h: Heap, atom: Term, list: Term)
    requires Valid(h) && InScope(h.next, atom) && InScope(h.next, list)
    ensures AtomCharsOutcome(h, atom, list).Solutions? ==>
      forall s | s in AtomCharsOutcome(h, atom, list).heaps :: Valid(s) && CharsRelated(s, atom, list)
  {
    var r := AtomCharsOutcome(h, atom, list);
    if r.Solutions? && r.heaps != [] {
      var s := r.heaps[0];
      if Deref(h, atom).Var? {
        var items := ToArray(h, list).items;
        SpelledSound(h, atom, list, items, CharsOf(h, items).text, s);
      } else {
        var w := Deref(h, atom).atom.name;
        DerefStays(h, s, atom);
      }
    }
  }

  /** The Atom-unbound direction: List read as the text t, and Atom unified
    * with the atom of t in solution s. */
  lemma SpelledSound(h: Heap, atom: Term, list: Term, items: seq<Term>, t: string, s: Heap)
    requires Valid(h) && InScope(h.next, atom) && InScope(h.next, list)
    requires ToArray(h, list) == Items(items) && CharsOf(h, items) == Text(t)
    requires s in UnifySolutions(h, atom, Name(t))
    requires Extends(h, s)
    ensures Valid(s) && CharsRelated(s, atom, list)
  {
    TermEqualConstant(s, atom, Name(t));
    ToArrayEqual(h, list);
    TermEqualMonotone(h, s, list, MakeList(items));
    CharsEqualAtoms(h, items, t);
    forall i | 0 <= i < |items| ensures TermEqual(s, items[i], CharAtoms(t)[i]) {
      TermEqualMonotone(h, s, items[i], CharAtoms(t)[i]);
    }
    ListsEqual(s, items, CharAtoms(t));
    TermEqualTransitive(s, list, MakeList(items), MakeList(CharAtoms(t)));
  }

  /** A code that `String.fromCharCode` turns into the character of that
    * code: one code unit that is no surrogate. */
  predicate IsCharacterCode(d: Term)
  {
    d.Int? && 0 <= d.value < 0x1_0000 && !(0xD800 <= d.value < 0xE000)
  }

  /** Every element is bound to a character code. */
  predicate CharacterCodes(h: Heap, items: seq<Term>)
    requires Valid(h)
  {
    forall i | 0 <= i < |items| :: IsCharacterCode(Deref(h, items[i]))
  }

  /** Solution s relates Atom and List as `atom_codes` promises: Atom is an
    * atom and List is the list of the codes of its characters. */
  predicate CodesRelated(s: Heap, atom: Term, list: Term)
    requires Valid(s)
  {
    Deref(s, atom).Sym? && TermEqual(s, list, MakeList(CodeTerms(Deref(s, atom).atom.name)))
  }

  /** Elements that are character codes and decode to the text t equal the
    * codes of t. */
  lemma CodesEqualCodes(h: Heap, items: seq<Term>, t: string)
    requires Valid(h) && CodesOf(h, items) == Text(t)
    requires CharacterCodes(h, items)
    ensures |items| == |CodeTerms(t)|
    ensures forall i | 0 <= i < |items| :: TermEqual(h, items[i], CodeTerms(t)[i])
  {
    forall i | 0 <= i < |items| ensures TermEqual(h, items[i], CodeTerms(t)[i]) {
      assert CodeOf(t[i]) == Deref(h, items[i]).value;
      TermEqualConstant(h, items[i], Int(CodeOf(t[i])));
    }
  }

  /** Every solution of `atom_codes` makes Atom an atom. With Atom bound, and
    * with Atom unbound when every element is a character code, List is then
    * the list of its codes; with Atom unbound, its characters are those
    * `String.fromCharCode` makes of the elements. */
  lemma AtomCodesSound(h: Heap, atom: Term, list: Term)
    requires Valid(h) && InScope(h.next, atom) && InScope(h.next, list)
    ensures AtomCodesOutcome(h, atom, list).Solutions? && !Deref(h, atom).Var? ==>
      forall s | s in AtomCodesOutcome(h, atom, list).heaps :: Valid(s) && CodesRelated(s, atom, list)
    ensures AtomCodesOutcome(h, atom, list).Solutions? && Deref(h, atom).Var? ==>
      forall s | s in AtomCodesOutcome(h, atom, list).heaps ::
        Valid(s) && Deref(s, atom).Sym? && Deref(s, atom).atom.name == CodesOf(h, ToArray(h, list).items).text
    ensures (AtomCodesOutcome(h, atom, list).Solutions? && Deref(h, atom).Var? &&
      CharacterCodes(h, ToArray(h, list).items)) ==>
      forall s | s in AtomCodesOutcome(h, atom, list).heaps :: Valid(s) && CodesRelated(s, atom, list)
  {
    var r := AtomCodesOutcome(h, atom, list);
    if r.Solutions? && r.heaps != [] {
      var s := r.heaps[0];
      if Deref(h, atom).Var? {
        var items := ToArray(h, list).items;
        var t := CodesOf(h, items).text;
        TermEqualConstant(s, atom, Name(t));
        if CharacterCodes(h, items) {
          CodesSpelledSound(h, atom, list, items, t, s);
        }
      } else {
        DerefStays(h, s, atom);
      }
    }
  }

  lemma CodesSpelledSound(h: Heap, atom: Term, list: Term, items: seq<Term>, t: string, s: Heap)
    requires Valid(h) && InScope(h.next, atom) && InScope(h.next, list)
    requires ToArray(h, list) == Items(items) && CodesOf(h, items) == Text(t)
    requires CharacterCodes(h, items)
    requires s in UnifySolutions(h, atom, Name(t))
    requires Extends(h, s)
    ensures Valid(s) && CodesRelated(s, atom, list)
  {
    TermEqualConstant(s, atom, Name(t));
    ToArrayEqual(h, list);
    TermEqualMonotone(h, s, list, MakeList(items));
    CodesEqualCodes(h, items, t);
    forall i | 0 <= i < |items| ensures TermEqual(s, items[i], CodeTerms(t)[i]) {
      TermEqualMonotone(h, s, items[i], CodeTerms(t)[i]);
    }
    ListsEqual(s, items, CodeTerms(t));
    TermEqualTransitive(s, list, MakeList(items), MakeList(CodeTerms(t)));
  }

  // ---------------------------------------------------------------------
  // Round trips.

  /** A list of numbers and atoms holds no variable. */
  lemma {:induction false} ConstantsFree(h: Heap, v: nat, items: seq<Term>)
    requires Valid(h) && forall i | 0 <= i < |items| :: Constant(items[i])
    ensures !OccursIn(h, v, MakeList(items))
    decreases |items|
  {
    if items != [] {
      var l := MakeList(items);
      ConstantsFree(h, v, items[1..]);
      assert !OccursIn(h, v, l.args[0]);
      assert l.args[1..] == [MakeList(items[1..])] && l.args[1..][1..] == [];
      assert !OccursInArgs(h, v, l.args[1..]);
      assert !OccursInArgs(h, v, l.args);
    }
  }

  /** Unifying an unbound variable with a variable-free list binds it to
    * the list and leaves the value of any other term y alone. */
  lemma BindList(h: Heap, x: Term, items: seq<Term>, y: Term) returns (h1: Heap)
    requires Valid(h) && InScope(h.next, x) && Deref(h, x).Var?
    requires forall i | 0 <= i < |items| :: Constant(items[i])
    requires InScope(h.next, MakeList(items))
    ensures UnifySolutions(h, x, MakeList(items)) == [h1]
    ensures Valid(h1) && h1.next == h.next && Deref(h1, x) == MakeList(items)
    ensures Deref(h, y) != Deref(h, x) ==> Deref(h1, y) == Deref(h, y)
  {
    var l := MakeList(items);
    ConstantsFree(h, Deref(h, x).id, items);
    UnifyBindsUnboundVariable(h, x, l);
    h1 := Unify(h, x, l).value;
    DerefExtends(h, h1, x);
    if Deref(h, y) != Deref(h, x) {
      DerefAfterBinding(h, h1, y, Deref(h, x).id);
    }
  }

  lemma CharsOfAtoms(h: Heap, w: string)
    requires Valid(h)
    ensures CharsOf(h, CharAtoms(w)) == Text(w)
  {
    var r := CharsOf(h, CharAtoms(w));
    assert r.Text?;
    assert r.text == w;
  }

  lemma CodesOfCodes(h: Heap, w: string)
    requires Valid(h) && forall i | 0 <= i < |w| :: InBasicPlane(w[i])
    ensures CodesOf(h, CodeTerms(w)) == Text(w)
  {
    var r := CodesOf(h, CodeTerms(w));
    assert r.Text?;
    assert forall i | 0 <= i < |w| :: FromCode(CodeOf(w[i])) == w[i];
    assert r.text == w;
  }

  /** `atom_chars` writes the characters of an atom into an unbound List,
    * and reading that List back with an unbound Atom gives the atom. */
  lemma AtomCharsRoundTrip(h: Heap, w: string, x: Term, v: Term) returns (h1: Heap, h2: Heap)
    requires Valid(h) && InScope(h.next, x) && InScope(h.next, v)
    requires Deref(h, x).Var? && Deref(h, v).Var? && Deref(h, x) != Deref(h, v)
    ensures AtomCharsOutcome(h, Name(w), v) == Solutions([h1])
    ensures Valid(h1) && h1.next == h.next && Deref(h1, v) == MakeList(CharAtoms(w))
    ensures AtomCharsOutcome(h1, x, v) == Solutions([h2])
    ensures Valid(h2) && Deref(h2, x) == Name(w)
  {
    CharListInScope(h.next, w);
    h1 := BindList(h, v, CharAtoms(w), x);
    ToArrayMakeList(h1, CharAtoms(w));
    CharsOfAtoms(h1, w);
    h2 := BindToConstant(h1, x, Name(w), x);
  }

  /** `atom_codes` writes the codes of an atom into an unbound List, and
    * reading that List back with an unbound Atom gives the atom, for every
    * name whose characters each fit one code unit. */
  lemma AtomCodesRoundTrip(h: Heap, w: string, x: Term, v: Term) returns (h1: Heap, h2: Heap)
    requires Valid(h) && InScope(h.next, x) && InScope(h.next, v)
    requires Deref(h, x).Var? && Deref(h, v).Var? && Deref(h, x) != Deref(h, v)
    requires forall i | 0 <= i < |w| :: InBasicPlane(w[i])
    ensures AtomCodesOutcome(h, Name(w), v) == Solutions([h1])
    ensures Valid(h1) && h1.next == h.next && Deref(h1, v) == MakeList(CodeTerms(w))
    ensures AtomCodesOutcome(h1, x, v) == Solutions([h2])
    ensures Valid(h2) && Deref(h2, x) == Name(w)
  {
    CharListInScope(h.next, w);
    h1 := BindList(h, v, CodeTerms(w), x);
    ToArrayMakeList(h1, CodeTerms(w));
    CodesOfCodes(h1, w);
    h2 := BindToConstant(h1, x, Name(w), x);
  }
}
