// Atoms: interned symbols, their equality and order, and their quoted
// printed form.
module Atoms {
  import opened Wrappers
  import opened Text

  /** An atom: a name and an optional declaring module (itself an atom). */
  datatype Atom = Atom(name: string, declaringModule: Option<Atom>)

  const NIL := Atom("[]", None)
  const DOT := Atom(".", None)
  const F := Atom("f", None)
  const SLASH := Atom("/", None)
  const HAT := Atom("^", None)
  const RULE := Atom(":-", None)
  const TRUE := Atom("true", None)

  predicate Unqualified(a: Atom) { a.declaringModule.None? }

  /** `equals`: identity when both atoms are unqualified (they then come
    * from the intern table, one object per name), name equality otherwise. */
  predicate Equals(a: Atom, b: Atom)
    ensures Equals(a, b) <==> a.name == b.name
    ensures Unqualified(a) && Unqualified(b) ==> (Equals(a, b) <==> a == b)
  {
    if Unqualified(a) && Unqualified(b) then a == b else a.name == b.name
  }

  /** `lessThan`: lexicographic on the names. */
  predicate LessThan(a: Atom, b: Atom)
  {
    StrLess(a.name, b.name)
  }

  lemma LessThanIsStrictOrder(a: Atom, b: Atom, c: Atom)
    ensures !LessThan(a, a)
    ensures LessThan(a, b) ==> !LessThan(b, a)
    ensures LessThan(a, b) && LessThan(b, c) ==> LessThan(a, c)
    ensures !Equals(a, b) ==> LessThan(a, b) || LessThan(b, a)
  {
    StrLessIrreflexive(a.name);
    if LessThan(a, b) { StrLessAsymmetric(a.name, b.name); }
    if LessThan(a, b) && LessThan(b, c) { StrLessTransitive(a.name, b.name, c.name); }
    if !Equals(a, b) { StrLessTotal(a.name, b.name); }
  }

  // ---------------------------------------------------------------------
  // Quoted printing.

  /** A character that may appear in an unquoted atom: `[_a-zA-Z0-9]`. */
  predicate PlainChar(c: char)
  {
    c == '_' || 'a' <= c <= 'z' || 'A' <= c <= 'Z' || '0' <= c <= '9'
  }

  /** Some character forces quoting. */
  predicate NeedsQuotes(s: string)
  {
    exists i :: 0 <= i < |s| && !PlainChar(s[i])
  }

  /** The name may be printed as it is. */
  predicate Bare(s: string)
  {
    s != [] && !NeedsQuotes(s) && 'a' <= s[0] <= 'z'
  }

  /** The quoted text for one character: a quote is doubled. */
  function QuotedChar(c: char): string
  {
    if c == '\'' then "''" else [c]
  }

  /** Every single quote of s doubled. */
  function Doubled(s: string): (r: string)
    ensures |r| >= |s|
  {
    if s == [] then [] else QuotedChar(s[0]) + Doubled(s[1..])
  }

  lemma {:induction false} DoubledAppend(s: string, c: char)
    ensures Doubled(s + [c]) == Doubled(s) + QuotedChar(c)
    decreases |s|
  {
    if s == [] {
      assert [c][1..] == [];
    } else {
      assert (s + [c])[1..] == s[1..] + [c];
      DoubledAppend(s[1..], c);
    }
  }

  lemma {:induction false} DoubledPlain(s: string)
    requires !NeedsQuotes(s)
    ensures Doubled(s) == s
    decreases |s|
  {
    if s != [] {
      assert !PlainChar(s[0]) ==> NeedsQuotes(s);
      assert forall i :: 0 <= i < |s[1..]| ==> s[1..][i] == s[i + 1];
      DoubledPlain(s[1..]);
    }
  }

  /** Inverse of Doubled: a pair of quotes reads as one quote, and a lone
    * quote is malformed. */
  function Undoubled(s: string): Option<string>
    decreases |s|
  {
    if s == [] then Some([])
    else if s[0] != '\'' then
      match Undoubled(s[1..])
      case Some(rest) => Some([s[0]] + rest)
      case None => None
    else if |s| >= 2 && s[1] == '\'' then
      match Undoubled(s[2..])
      case Some(rest) => Some("'" + rest)
      case None => None
    else None
  }

  lemma {:induction false} UndoubledDoubled(s: string)
    ensures Undoubled(Doubled(s)) == Some(s)
    decreases |s|
  {
    if s != [] {
      UndoubledDoubled(s[1..]);
      var d := Doubled(s);
      if s[0] == '\'' {
        assert d[2..] == Doubled(s[1..]);
      } else {
        assert d[1..] == Doubled(s[1..]);
      }
      assert s == [s[0]] + s[1..];
    }
  }

  /** What `toQuotedString` prints for an atom. */
  function QuotedForm(a: Atom): (r: string)
    ensures (r == a.name) <==> ((a.name != [] && a == NIL) || Bare(a.name))
  {
    if a.name == [] then "''"
    else if a == NIL then "[]"
    else if Bare(a.name) then a.name
    else "'" + Doubled(a.name) + "'"
  }

  /** Reading a printed atom back: quoted text is undoubled, other text is
    * taken as it is. */
  function Unquote(s: string): Option<string>
  {
    if |s| >= 2 && s[0] == '\'' && s[|s| - 1] == '\'' then Undoubled(s[1..|s| - 1])
    else Some(s)
  }

  /** The printed form always reads back as the atom's name. */
  lemma QuotedFormReadsBack(a: Atom)
    ensures Unquote(QuotedForm(a)) == Some(a.name)
  {
    var r := QuotedForm(a);
    if a.name == [] {
      assert r[1..|r| - 1] == [];
    } else if a == NIL || Bare(a.name) {
      assert r == a.name;
    } else {
      assert r[1..|r| - 1] == Doubled(a.name);
      UndoubledDoubled(a.name);
    }
  }

  /** `toQuotedString`, building the doubled text one character at a time. */
  method ToQuotedString(a: Atom) returns (s: string)
    ensures s == QuotedForm(a)
  {
    if |a.name| == 0 {
      return "''";
    } else if a == NIL {
      return "[]";
    }
    var result: string := "";
    var useQuotes := false;
    var i := 0;
    while i < |a.name|
      invariant 0 <= i <= |a.name|
      invariant result == Doubled(a.name[..i])
      invariant useQuotes <==> NeedsQuotes(a.name[..i])
    {
      var c := a.name[i];
      assert a.name[..i + 1] == a.name[..i] + [c];
      DoubledAppend(a.name[..i], c);
      if c == '\'' {
        result := result + "''";
        useQuotes := true;
      } else if PlainChar(c) {
        result := result + [c];
      } else {
        result := result + [c];
        useQuotes := true;
      }
      assert !PlainChar(c) ==> a.name[..i + 1][i] == c;
      assert forall k :: 0 <= k < i ==> a.name[..i + 1][k] == a.name[..i][k];
      i := i + 1;
    }
    assert a.name[..i] == a.name;
    if !useQuotes && 'a' <= a.name[0] <= 'z' {
      DoubledPlain(a.name);
      return result;
    }
    return "'" + result + "'";
  }

  // ---------------------------------------------------------------------
  // The intern table as written: a plain object.

  /** The properties every plain object inherits from `Object.prototype`
    * (ECMAScript, section 20.1.3, and Annex B.2.2). Looking up one of these
    * names in a plain object finds the inherited property while no own
    * property of that name has been set. */
  const InheritedKeys: set<string> := {
    "constructor", "hasOwnProperty", "isPrototypeOf", "propertyIsEnumerable",
    "toLocaleString", "toString", "valueOf", "__proto__", "__defineGetter__",
    "__defineSetter__", "__lookupGetter__", "__lookupSetter__"}

  /** What `_atomStore[name]` finds: an atom stored under the name, an
    * inherited property, or `undefined`. */
  datatype Property = OwnAtom(atom: Atom) | InheritedMember(key: string) | Undefined

  function StoreLookup(store: map<string, Atom>, name: string): (p: Property)
    ensures p.Undefined? <==> name !in store && name !in InheritedKeys
    ensures p.OwnAtom? <==> name in store
  {
    if name in store then OwnAtom(store[name])
    else if name in InheritedKeys then InheritedMember(name)
    else Undefined
  }

  /** `Atom.a(name)` without a module as written over a plain object: only
    * `undefined` counts as a miss, so an inherited property is returned in
    * place of an atom. The pair is the result and the new store. */
  function InternAsWritten(store: map<string, Atom>, name: string): (r: (Property, map<string, Atom>))
    ensures r.0.InheritedMember? <==> name !in store && name in InheritedKeys
  {
    match StoreLookup(store, name)
    case Undefined => (OwnAtom(Atom(name, None)), store[name := Atom(name, None)])
    case found => (found, store)
  }

  /** Names no object inherits intern as intended, as written too. */
  lemma InternAsWrittenAgrees(store: map<string, Atom>, name: string)
    requires forall k | k in store :: store[k] == Atom(k, None)
    requires name !in InheritedKeys
    ensures InternAsWritten(store, name).0 == OwnAtom(Atom(name, None))
    ensures InternAsWritten(store, name).1 == store[name := Atom(name, None)]
  {
    if name in store {
      assert store[name := Atom(name, None)] == store;
    }
  }

  /** As written, `Atom.a("constructor")` on the table the predefined atoms
    * leave returns the inherited constructor function, not an atom. */
  lemma ConstructorIsNoAtom(store: map<string, Atom>)
    requires store == map[NIL.name := NIL, DOT.name := DOT, F.name := F, SLASH.name := SLASH,
                          HAT.name := HAT, RULE.name := RULE, TRUE.name := TRUE]
    ensures InternAsWritten(store, "constructor").0 == InheritedMember("constructor")
    ensures InternAsWritten(store, "constructor").1 == store
  {
    assert "constructor" !in store;
  }

  // ---------------------------------------------------------------------
  // The intern table.

  /** The table of unqualified atoms, one per name, together with the number
    * of atom objects constructed so far (each construction is a fresh
    * object). The table holds only what was stored in it, as a map without
    * inherited members would. */
  class AtomTable {
    var store: map<string, Atom>
    var created: nat

    ghost predicate Valid()
      reads this
    {
      forall k | k in store :: store[k] == Atom(k, None)
    }

    /** The table as it is once the predefined atoms exist. */
    constructor ()
      ensures Valid()
      ensures store == map[NIL.name := NIL, DOT.name := DOT, F.name := F, SLASH.name := SLASH,
                           HAT.name := HAT, RULE.name := RULE, TRUE.name := TRUE]
      ensures created == 7
    {
      store := map[NIL.name := NIL, DOT.name := DOT, F.name := F, SLASH.name := SLASH,
                   HAT.name := HAT, RULE.name := RULE, TRUE.name := TRUE];
      created := 7;
    }

    /** `Atom.a(name, module)`. Without a module (or with `[]`) it returns the
      * table's atom for the name, constructing and inserting it on a miss;
      * with a real module it constructs a new atom every time. */
    method A(name: string, m: Option<Atom>) returns (a: Atom)
      requires Valid()
      modifies this
      ensures Valid()
      ensures m == None || m == Some(NIL) ==>
        a == Atom(name, None) && store == old(store)[name := a] &&
        (name in old(store) ==> a == old(store)[name] && created == old(created)) &&
        (name !in old(store) ==> created == old(created) + 1)
      ensures !(m == None || m == Some(NIL)) ==>
        a == Atom(name, m) && store == old(store) && created == old(created) + 1
    {
      if m == None || m == Some(NIL) {
        if name in store {
          a := store[name];
        } else {
          a := Atom(name, None);
          store := store[name := a];
          created := created + 1;
        }
      } else {
        a := Atom(name, m);
        created := created + 1;
      }
    }
  }
}
