// The Prolog flag table of `YP`: the defaults `establishPrologFlags` loads,
// `current_prolog_flag`, `set_prolog_flag`, and the `unknown` policy that
// `unknownPredicate` applies to a call of an undefined predicate.
module Flags {
  import opened Wrappers
  import opened Atoms
  import opened Terms
  import opened Unification
  import opened Errors
  import opened Builtins

  /** The flags, in the order `establishPrologFlags` stores them (the order
    * of the ISO standard), which is the order `current_prolog_flag`
    * enumerates them in. */
  const FlagNames: seq<string> := ["bounded", "max_integer", "min_integer",
    "integer_rounding_function", "char_conversion", "debug", "max_arity",
    "unknown", "double_quotes"]

  /** The values `establishPrologFlags` stores. */
  function Defaults(): (m: map<string, Term>)
    ensures m.Keys == set k | k in FlagNames
  {
    map["bounded" := Sym(TRUE), "max_integer" := Int(2147483647),
      "min_integer" := Int(-2147483648),
      "integer_rounding_function" := Name("toward_zero"),
      "char_conversion" := Name("off"), "debug" := Name("off"),
      "max_arity" := Int(MAX_ARITY), "unknown" := Name("error"),
      "double_quotes" := Name("codes")]
  }

  /** The values the `unknown` flag may take: `Atom.a(n).equals(Value)`
    * holds for an atom of that name, qualified or not. */
  predicate UnknownValue(v: Term)
  {
    v.Sym? && v.atom.name in {"fail", "warning", "error"}
  }

  /** The values `double_quotes` may take: one of the interned atoms
    * themselves (the source compares with `==`). */
  predicate DoubleQuotesValue(v: Term)
  {
    v == Name("codes") || v == Name("chars") || v == Name("atom")
  }

  /** The error `set_prolog_flag(Key, Value)` raises, if any, when the table
    * holds `values` and, besides its own keys, answers to the names in
    * `inherited` (see `FlagTable` for why that set matters). The checks are
    * made in the source's order: unbound Key, unbound Value, Key not an
    * atom, Key not a flag, a flag that may not be changed, and a value the
    * flag does not allow. */
  function SetFlagError(values: map<string, Term>, inherited: set<string>, h: Heap, key: Term, value: Term): (r: Option<Term>)
    requires Valid(h)
    ensures r.None? ==> Deref(h, key).Sym? && Deref(h, key).atom.name in values
    ensures r.None? && Deref(h, key).atom.name in {"unknown"} ==> UnknownValue(Deref(h, value))
    ensures r.None? && Deref(h, key).atom.name in {"double_quotes"} ==> DoubleQuotesValue(Deref(h, value))
    ensures r.None? && Deref(h, key).atom.name in {"char_conversion", "debug"} ==>
      Deref(h, value) == values[Deref(h, key).atom.name]
    ensures r.None? ==> Deref(h, key).atom.name in {"char_conversion", "debug", "unknown", "double_quotes"}
  {
    var k := Deref(h, key);
    var v := Deref(h, value);
    if k.Var? || v.Var? then Some(InstantiationError)
    else if !k.Sym? then Some(TypeError("atom", Culprit(h, k)))
    else if k.atom.name !in values && k.atom.name !in inherited then Some(DomainError("prolog_flag", k))
    else if !(k.atom.name in {"char_conversion", "debug", "unknown", "double_quotes"}) then
      Some(PermissionError("modify", "flag", k))
    else if !(k.atom.name in values && FlagValueAllowed(values, k.atom.name, v)) then
      Some(DomainError("flag_value", Compound(Atom("+", None), [k, Culprit(h, v)])))
    else None
  }

  /** Whether one of the four changeable flags may take the value v. */
  predicate FlagValueAllowed(values: map<string, Term>, name: string, v: Term)
    requires name in values
  {
    if name == "char_conversion" || name == "debug" then v == values[name]
    else if name == "unknown" then UnknownValue(v)
    else DoubleQuotesValue(v)
  }

  /** What `unknownPredicate` does: fail, fail after writing a warning
    * (`warned`), or raise `existence_error(procedure, Name/Arity)`. */
  datatype UnknownResult = UnknownResult(outcome: Outcome, warned: bool)

  /** `YP._prologFlags`. The source keeps the flags in a plain object, which
    * also answers to the members every object inherits; this table holds
    * only its own entries, as a map without inherited members would (the
    * difference is recorded under Findings). The lazy first use of
    * `establishPrologFlags` is the constructor. */
  class FlagTable {
    var values: map<string, Term>

    /** Every flag is present and atomic, `set_prolog_flag` has only ever
      * stored allowed values, and the flags it may not change keep their
      * defaults. */
    ghost predicate Settled()
      reads this
    {
      values.Keys == Defaults().Keys &&
      UnknownValue(values["unknown"]) && DoubleQuotesValue(values["double_quotes"]) &&
      forall k | k in values && k != "unknown" && k != "double_quotes" :: values[k] == Defaults()[k]
    }

    lemma SettledIsAtomic()
      requires Settled()
      ensures AtomicValues(values)
    {
    }

    constructor ()
      ensures Settled() && values == Defaults()
    {
      values := Defaults();
    }

    /** `set_prolog_flag`: stores the value when `SetFlagError` finds nothing
      * to object to, and otherwise raises that error and changes nothing. */
    method SetPrologFlag(h: Heap, key: Term, value: Term) returns (error: Option<Term>)
      requires Valid(h) && Settled()
      modifies this
      ensures Settled()
      ensures error == SetFlagError(old(values), {}, h, key, value)
      ensures error.Some? ==> values == old(values)
      ensures error.None? ==> values == old(values)[Deref(h, key).atom.name := Deref(h, value)]
    {
      error := SetFlagError(values, {}, h, key, value);
      if error.None? {
        values := values[Deref(h, key).atom.name := Deref(h, value)];
      }
    }

    /** `current_prolog_flag(Key, Value)`. With Key unbound, one solution
      * per flag, in table order, that unifies Key with the flag's name and
      * Value with its value; with Key bound, Key must be an atom naming a
      * flag, and Value is unified with that flag's value. */
    method CurrentPrologFlag(h: Heap, key: Term, value: Term) returns (r: Outcome)
      requires Valid(h) && Settled() && InScope(h.next, key) && InScope(h.next, value)
      ensures r == CurrentFlagOutcome(values, h, key, value)
    {
      SettledIsAtomic();
      var k := Deref(h, key);
      if k.Var? {
        var solutions := EnumerateFlags(values, h, key, value);
        return Solutions(solutions);
      }
      if !k.Sym? {
        return Raised(TypeError("atom", Culprit(h, k)));
      }
      if k.atom.name !in values {
        return Raised(DomainError("prolog_flag", k));
      }
      return Solutions(UnifySolutions(h, value, values[k.atom.name]));
    }

    /** `unknownPredicate(name, arity, message)`: what the `unknown` flag
      * says to do about a call of a predicate that has no clauses. The flag
      * is compared with the interned atoms `fail` and `warning` by
      * identity. */
    function UnknownPredicate(name: Term, arity: Term): (r: UnknownResult)
      requires Settled()
      reads this
      ensures r.outcome.Raised? <==> values["unknown"] != Name("fail") && values["unknown"] != Name("warning")
      ensures r.outcome.Raised? ==> r.outcome.formal == ExistenceError("procedure", Compound(SLASH, [name, arity]))
      ensures r.outcome.Solutions? ==> r.outcome.heaps == []
      ensures r.warned <==> values["unknown"] == Name("warning")
    {
      if values["unknown"] == Name("fail") then UnknownResult(Solutions([]), false)
      else if values["unknown"] == Name("warning") then UnknownResult(Solutions([]), true)
      else UnknownResult(Raised(ExistenceError("procedure", Compound(SLASH, [name, arity]))), false)
    }
  }

  /** Every stored value is an atom or a number. */
  predicate AtomicValues(values: map<string, Term>)
  {
    forall k | k in values :: values[k].Sym? || values[k].Int?
  }

  /** The solutions for one flag when Key is unbound. */
  function FlagSolutions(values: map<string, Term>, h: Heap, key: Term, value: Term, name: string): seq<Heap>
    requires Valid(h) && InScope(h.next, key) && InScope(h.next, value)
    requires name in values ==> values[name].Sym? || values[name].Int?
  {
    if name in values then UnifyPairs(h, [key, value], [Name(name), values[name]]) else []
  }

  /** The solutions for the flags in `names`, in order. */
  function Enumerated(values: map<string, Term>, h: Heap, key: Term, value: Term, names: seq<string>): seq<Heap>
    requires Valid(h) && InScope(h.next, key) && InScope(h.next, value)
    requires AtomicValues(values)
  {
    if names == [] then [] else
    Enumerated(values, h, key, value, names[..|names| - 1]) + FlagSolutions(values, h, key, value, names[|names| - 1])
  }

  /** The loop over the table's keys when Key is unbound. */
  method EnumerateFlags(values: map<string, Term>, h: Heap, key: Term, value: Term) returns (solutions: seq<Heap>)
    requires Valid(h) && InScope(h.next, key) && InScope(h.next, value)
    requires AtomicValues(values)
    ensures solutions == Enumerated(values, h, key, value, FlagNames)
  {
    solutions := [];
    for i := 0 to |FlagNames|
      invariant solutions == Enumerated(values, h, key, value, FlagNames[..i])
    {
      assert FlagNames[..i + 1] == FlagNames[..i] + [FlagNames[i]];
      EnumeratedSnoc(values, h, key, value, FlagNames[..i], FlagNames[i]);
      solutions := solutions + FlagSolutions(values, h, key, value, FlagNames[i]);
    }
    assert FlagNames[..|FlagNames|] == FlagNames;
  }

  lemma EnumeratedSnoc(values: map<string, Term>, h: Heap, key: Term, value: Term, names: seq<string>, name: string)
    requires Valid(h) && InScope(h.next, key) && InScope(h.next, value)
    requires AtomicValues(values)
    ensures Enumerated(values, h, key, value, names + [name]) ==
      Enumerated(values, h, key, value, names) + FlagSolutions(values, h, key, value, name)
  {
    assert (names + [name])[..|names|] == names;
  }

  /** The outcome of `current_prolog_flag(Key, Value)` over a table. */
  function CurrentFlagOutcome(values: map<string, Term>, h: Heap, key: Term, value: Term): (r: Outcome)
    requires Valid(h) && InScope(h.next, key) && InScope(h.next, value)
    requires AtomicValues(values)
    ensures r.Raised? <==> !Deref(h, key).Var? && !(Deref(h, key).Sym? && Deref(h, key).atom.name in values)
  {
    var k := Deref(h, key);
    if k.Var? then Solutions(Enumerated(values, h, key, value, FlagNames))
    else if !k.Sym? then Raised(TypeError("atom", Culprit(h, k)))
    else if k.atom.name !in values then Raised(DomainError("prolog_flag", k))
    else Solutions(UnifySolutions(h, value, values[k.atom.name]))
  }

  // ---------------------------------------------------------------------
  // Properties.

  /** The default `unknown` policy is `error`: a fresh table raises
    * `existence_error` for an undefined predicate, and warns of nothing. */
  lemma DefaultUnknownRaises(t: FlagTable, name: Term, arity: Term)
    requires t.Settled() && t.values == Defaults()
    ensures t.UnknownPredicate(name, arity) ==
      UnknownResult(Raised(ExistenceError("procedure", Compound(SLASH, [name, arity]))), false)
  {
  }

  /** `unknown` accepts exactly the atoms named fail, warning and error. */
  lemma SetUnknownAcceptsExactly(values: map<string, Term>, h: Heap, key: Term, value: Term)
    requires Valid(h) && "unknown" in values && Deref(h, key) == Name("unknown") && !Deref(h, value).Var?
    ensures SetFlagError(values, {}, h, key, value).None? <==> UnknownValue(Deref(h, value))
    ensures SetFlagError(values, {}, h, key, value).Some? ==>
      SetFlagError(values, {}, h, key, value).value ==
        DomainError("flag_value", Compound(Atom("+", None), [Name("unknown"), Culprit(h, Deref(h, value))]))
  {
  }

  /** `double_quotes` accepts exactly the atoms codes, chars and atom. */
  lemma SetDoubleQuotesAcceptsExactly(values: map<string, Term>, h: Heap, key: Term, value: Term)
    requires Valid(h) && "double_quotes" in values && Deref(h, key) == Name("double_quotes") && !Deref(h, value).Var?
    ensures SetFlagError(values, {}, h, key, value).None? <==> DoubleQuotesValue(Deref(h, value))
  {
  }

  /** `char_conversion` and `debug` accept only the value they hold. */
  lemma SetFixedFlagAcceptsOnlyCurrent(values: map<string, Term>, h: Heap, key: Term, value: Term)
    requires Valid(h) && Deref(h, key).Sym? && Deref(h, key).atom.name in {"char_conversion", "debug"}
    requires Deref(h, key).atom.name in values && !Deref(h, value).Var?
    ensures SetFlagError(values, {}, h, key, value).None? <==> Deref(h, value) == values[Deref(h, key).atom.name]
  {
  }

  /** Every other flag of the table is read-only: `permission_error(modify,
    * flag, Key)`, whatever the value. A name that is no flag gives
    * `domain_error(prolog_flag, Key)`. */
  lemma SetOtherFlagErrors(values: map<string, Term>, h: Heap, key: Term, value: Term)
    requires Valid(h) && Deref(h, key).Sym? && !Deref(h, value).Var?
    requires !(Deref(h, key).atom.name in {"char_conversion", "debug", "unknown", "double_quotes"})
    ensures Deref(h, key).atom.name in values ==>
      SetFlagError(values, {}, h, key, value) == Some(PermissionError("modify", "flag", Deref(h, key)))
    ensures Deref(h, key).atom.name !in values ==>
      SetFlagError(values, {}, h, key, value) == Some(DomainError("prolog_flag", Deref(h, key)))
  {
  }

  /** After `set_prolog_flag` stores a value, `current_prolog_flag` reads
    * it back. */
  lemma SetThenCurrent(values: map<string, Term>, h: Heap, key: Term, value: Term, probe: Term)
    requires Valid(h) && InScope(h.next, key) && InScope(h.next, probe)
    requires AtomicValues(values)
    requires SetFlagError(values, {}, h, key, value).None?
    ensures CurrentFlagOutcome(values[Deref(h, key).atom.name := Deref(h, value)], h, key, probe) ==
      Solutions(UnifySolutions(h, probe, Deref(h, value)))
  {
  }

  /** Setting `unknown` to `fail` silences undefined predicates: they then
    * fail without a warning. */
  lemma UnknownFailSilences(t: FlagTable, name: Term, arity: Term)
    requires t.Settled() && t.values["unknown"] == Name("fail")
    ensures t.UnknownPredicate(name, arity) == UnknownResult(Solutions([]), false)
  {
  }

  // ---------------------------------------------------------------------
  // The table as written: a plain object.

  /** With the table written as a plain object, a name such as `constructor`
    * is found among the members every object inherits, so
    * `set_prolog_flag(constructor, V)` passes the "recognized flag" test
    * and raises `permission_error(modify, flag, constructor)`; the table
    * the model uses raises `domain_error(prolog_flag, constructor)`. */
  lemma ConstructorFlagAsWritten(h: Heap, value: Term)
    requires Valid(h) && value == Name("on")
    ensures SetFlagError(Defaults(), InheritedKeys, h, Name("constructor"), value) ==
      Some(PermissionError("modify", "flag", Name("constructor")))
    ensures SetFlagError(Defaults(), {}, h, Name("constructor"), value) ==
      Some(DomainError("prolog_flag", Name("constructor")))
  {
    assert "constructor" !in Defaults();
  }
}
