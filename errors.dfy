// Error terms: the ISO error shapes the built-ins raise, `PrologException`
// (the thrown `error(E, Msg)` term, copied when it is made),
// `ExistenceErrorInfo`, and the exception capture of `Catch`.
module Errors {
  import opened Wrappers
  import opened Atoms
  import opened Terms
  import opened Variables
  import opened Unification
  import opened Copying
  import opened Printing

  /** `Atom.a(name)` for an unqualified name, as a term. */
  function Name(s: string): Term
  {
    Sym(Atom(s, None))
  }

  const ERROR := Atom("error", None)
  const InstantiationError := Name("instantiation_error")

  function TypeError(kind: string, culprit: Term): Term
  {
    Compound(Atom("type_error", None), [Name(kind), culprit])
  }

  function DomainError(domain: string, culprit: Term): Term
  {
    Compound(Atom("domain_error", None), [Name(domain), culprit])
  }

  function RepresentationError(what: string): Term
  {
    Compound(Atom("representation_error", None), [Name(what)])
  }

  function PermissionError(action: string, kind: string, culprit: Term): Term
  {
    Compound(Atom("permission_error", None), [Name(action), Name(kind), culprit])
  }

  function ExistenceError(kind: string, culprit: Term): Term
  {
    Compound(Atom("existence_error", None), [Name(kind), culprit])
  }

  /** `Name/Arity`. */
  function Indicator(name: Term, arity: int): Term
  {
    Compound(SLASH, [name, Int(arity)])
  }

  /** What a built-in does: its solutions, in order, each a heap holding the
    * bindings it made; or the formal term E of the `error(E, Msg)` it
    * raises. */
  datatype Outcome = Solutions(heaps: seq<Heap>) | Raised(formal: Term)

  // ---------------------------------------------------------------------
  // PrologException.

  datatype PrologException = PrologException(term: Term, message: string)

  /** The term the two-argument constructor copies: `error(E, Msg)`, with a
    * string message turned into an atom. */
  function ErrorTerm(h: Heap, e: Term, msg: Term): (t: Term)
    requires Valid(h)
    ensures t.Compound? && t.name == ERROR && |t.args| == 2 && t.args[0] == e
  {
    var m := Deref(h, msg);
    Compound(ERROR, [e, if m.Str? then Name(m.text) else msg])
  }

  lemma ErrorTermInScope(h: Heap, e: Term, msg: Term)
    requires Valid(h) && InScope(h.next, e) && InScope(h.next, msg)
    ensures InScope(h.next, ErrorTerm(h, e, msg))
  {
    var a := ErrorTerm(h, e, msg).args;
    assert InScope(h.next, a[1]);
    assert a[1..] == [a[1]] && a[1..][1..] == [];
    assert InScopeArgs(h.next, a[1..]);
  }

  /** `new PrologException(e, msg)`: the term is a copy of `error(e, msg)`
    * whose variables are all fresh, and the message is msg's text. */
  method NewError(h: Heap, e: Term, msg: Term) returns (h': Heap, x: PrologException, ghost m: map<nat, nat>)
    requires Valid(h) && InScope(h.next, e) && InScope(h.next, msg)
    ensures Valid(h') && SameCells(h, h') && h.next <= h'.next
    ensures x.message == TermToString(h, msg)
    ensures Copied(h, ErrorTerm(h, e, msg), x.term, m) && Injective(m)
    ensures forall v :: v in VarList(x.term) ==> h.next <= v < h'.next && v !in h'.cells
  {
    ErrorTermInScope(h, e, msg);
    var t;
    h', t, m := CopyTerm(h, ErrorTerm(h, e, msg));
    x := PrologException(t, TermToString(h, msg));
  }

  /** `new PrologException(term)`: the term is a copy of term and the
    * message is its text. */
  method NewException(h: Heap, term: Term) returns (h': Heap, x: PrologException, ghost m: map<nat, nat>)
    requires Valid(h) && InScope(h.next, term)
    ensures Valid(h') && SameCells(h, h') && h.next <= h'.next
    ensures x.message == TermToString(h, term)
    ensures Copied(h, term, x.term, m) && Injective(m)
    ensures forall v :: v in VarList(x.term) ==> h.next <= v < h'.next && v !in h'.cells
  {
    var t;
    h', t, m := CopyTerm(h, term);
    x := PrologException(t, TermToString(h, term));
  }

  /** Two fields of a `Type`/`Culprit`/`Message` error report. */
  datatype ErrorInfo = ErrorInfo(kind: Atom, culprit: Term, message: Term)

  /** The error term is `error(F(T, C), M)` with F named `formal` and T an
    * atom; F and `error` are recognised by name. */
  function InfoOf(t: Term, formal: string): (r: Option<ErrorInfo>)
  {
    if t.Compound? && t.name.name == "error" && |t.args| == 2 then
      var e := t.args[0];
      if e.Compound? && e.name.name == formal && |e.args| == 2 && e.args[0].Sym? then
        Some(ErrorInfo(e.args[0].atom, e.args[1], t.args[1]))
      else None
    else None
  }

  /** `getTypeErrorInfo`. */
  function GetTypeErrorInfo(x: PrologException): (r: Option<ErrorInfo>)
  {
    InfoOf(x.term, "type_error")
  }

  /** `getExistenceErrorInfo`. */
  function GetExistenceErrorInfo(x: PrologException): (r: Option<ErrorInfo>)
  {
    InfoOf(x.term, "existence_error")
  }

  /** A report is found for every term of the shape `error(F(T, C), M)`
    * with T an atom, and holds T, C and M ... */
  lemma InfoOfShaped(n: Atom, f: Atom, kind: Atom, c: Term, msg: Term, formal: string)
    requires n.name == "error" && f.name == formal
    ensures InfoOf(Compound(n, [Compound(f, [Sym(kind), c]), msg]), formal) == Some(ErrorInfo(kind, c, msg))
  {
  }

  /** ... and only for those. */
  lemma InfoOfOnlyShaped(t: Term, formal: string)
    requires InfoOf(t, formal).Some?
    ensures var info := InfoOf(t, formal).value;
      t.name.name == "error" && t.args[0].name.name == formal &&
      t == Compound(t.name, [Compound(t.args[0].name, [Sym(info.kind), info.culprit]), info.message])
  {
    var e := t.args[0];
    assert e == Compound(e.name, [e.args[0], e.args[1]]);
    assert t == Compound(t.name, [t.args[0], t.args[1]]);
  }

  /** `getProcedureName`: the name of a `Name/Arity` culprit when the type is
    * `procedure`. */
  function GetProcedureName(info: ErrorInfo): (r: Option<Term>)
    ensures r.Some? <==> (info.kind.name == "procedure" && info.culprit.Compound? &&
                          info.culprit.name == SLASH && |info.culprit.args| == 2)
  {
    if info.kind.name == "procedure" && info.culprit.Compound? && info.culprit.name == SLASH &&
       |info.culprit.args| == 2
    then Some(info.culprit.args[0])
    else None
  }

  /** `getProcedureArity`: the arity of a `Name/Arity` culprit when the type
    * is `procedure` and the arity is a number, else -1. */
  function GetProcedureArity(info: ErrorInfo): (r: int)
    ensures GetProcedureName(info).None? ==> r == -1
  {
    if !(info.kind.name == "procedure" && info.culprit.Compound? && info.culprit.name == SLASH &&
         |info.culprit.args| == 2)
    then -1
    else if !info.culprit.args[1].Int? then -1
    else info.culprit.args[1].value
  }

  /** An existence error for a procedure, once thrown, reads back as the
    * procedure's name and arity. */
  lemma ProcedureErrorReadsBack(h: Heap, name: Atom, arity: int, msg: Term, x: PrologException, m: map<nat, nat>)
    requires Valid(h)
    requires Copied(h, ErrorTerm(h, ExistenceError("procedure", Indicator(Sym(name), arity)), msg), x.term, m)
    ensures GetExistenceErrorInfo(x).Some?
    ensures GetProcedureName(GetExistenceErrorInfo(x).value) == Some(Sym(name))
    ensures GetProcedureArity(GetExistenceErrorInfo(x).value) == arity
  {
    var e := ExistenceError("procedure", Indicator(Sym(name), arity));
    var t := ErrorTerm(h, e, msg);
    var r := Resolve(h, t);
    assert Resolve(h, e).args[1] == Resolve(h, Indicator(Sym(name), arity));
    assert Resolve(h, Indicator(Sym(name), arity)) == Indicator(Sym(name), arity);
    assert Rename(Indicator(Sym(name), arity), m) == Indicator(Sym(name), arity);
    assert Resolve(h, e) == Compound(e.name, [Name("procedure"), Indicator(Sym(name), arity)]);
    assert Rename(Resolve(h, e), m) == Resolve(h, e);
    assert r.args[0] == Resolve(h, e);
    assert x.term.args[0] == Rename(r.args[0], m);
  }

  /** A type error, once thrown, reads back as its type name and the copy
    * of its culprit. */
  lemma TypeErrorReadsBack(h: Heap, kind: string, culprit: Term, msg: Term, x: PrologException, m: map<nat, nat>)
    requires Valid(h)
    requires Copied(h, ErrorTerm(h, TypeError(kind, culprit), msg), x.term, m)
    ensures GetTypeErrorInfo(x).Some?
    ensures GetTypeErrorInfo(x).value.kind == Atom(kind, None)
    ensures GetTypeErrorInfo(x).value.culprit == Rename(Resolve(h, culprit), m)
    ensures GetExistenceErrorInfo(x).None?
  {
    var e := TypeError(kind, culprit);
    var r := Resolve(h, ErrorTerm(h, e, msg));
    assert Resolve(h, e).args[0] == Name(kind);
    assert r.args[0] == Resolve(h, e);
    assert x.term.args[0] == Rename(r.args[0], m);
    assert Rename(Resolve(h, e), m).args[0] == Rename(Resolve(h, e).args[0], m);
    assert x.term.args[0].args[0] == Name(kind);
  }

  // ---------------------------------------------------------------------
  // Catch.

  /** How obtaining the goal's solutions went: it started, or it threw a
    * PrologException, or it threw anything else. */
  datatype GoalStart = Started | ThrewProlog(exception: PrologException) | ThrewOther

  /** What `unifyExceptionOrThrow` does: its solutions, or the recorded
    * exception thrown again. */
  datatype Handling = Handled(heaps: seq<Heap>) | Rethrown(exception: PrologException)

  /** `YP.Catch`. The goal's iterator itself is not kept. */
  class Catch {
    var exception: Option<PrologException>

    constructor (e: Option<PrologException>)
      ensures exception == e
    {
      exception := e;
    }

    /** The constructor: a PrologException thrown while obtaining the goal
      * is recorded; any other exception propagates, and no Catch is
      * made. */
    static method Start(start: GoalStart) returns (c: Catch?)
      ensures c == null <==> start.ThrewOther?
      ensures c != null ==> fresh(c)
      ensures c != null ==> c.exception == if start.ThrewProlog? then Some(start.exception) else None
    {
      if start.ThrewOther? {
        return null;
      }
      c := new Catch(if start.ThrewProlog? then Some(start.exception) else None);
    }

    /** `unifyExceptionOrThrow(Catcher)`: nothing without a recorded
      * exception; otherwise one solution per unification of the exception
      * term with the catcher, or the exception thrown again when there is
      * none. */
    method UnifyExceptionOrThrow(h: Heap, catcher: Term) returns (r: Handling)
      requires Valid(h) && InScope(h.next, catcher)
      requires exception.Some? ==> InScope(h.next, exception.value.term)
      ensures exception.None? ==> r == Handled([])
      ensures exception.Some? && Unify(h, exception.value.term, catcher).Some? ==>
        r == Handled([Unify(h, exception.value.term, catcher).value])
      ensures exception.Some? && Unify(h, exception.value.term, catcher).None? ==>
        r == Rethrown(exception.value)
    {
      if exception.None? {
        return Handled([]);
      }
      var didUnify := false;
      var solutions := [];
      var all := UnifySolutions(h, exception.value.term, catcher);
      var i := 0;
      while i < |all|
        invariant 0 <= i <= |all| && solutions == all[..i] && (didUnify <==> i > 0)
      {
        didUnify := true;
        solutions := solutions + [all[i]];
        i := i + 1;
      }
      assert all[..i] == all;
      if !didUnify {
        return Rethrown(exception.value);
      }
      return Handled(solutions);
    }
  }
}
