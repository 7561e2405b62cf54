// The store of dynamic predicates (`YP._predicatesStore`): asserting facts
// and rules, calling a dynamic predicate, `retractall` and `abolish`.
module Registry {
  import opened Wrappers
  import opened Atoms
  import opened Terms
  import opened Equality
  import opened Unification
  import opened Variables
  import opened Copying
  import opened Text
  import opened Errors
  import opened Builtins
  import opened Flags
  import opened Indexing
  import opened CallTable

  /** A clause of a dynamic predicate: a table of ground facts (an
    * `IndexedAnswers`, held here by the answers it stores) or a compiled
    * rule that remembers its head and body (a `ClauseHeadAndBody`). */
  datatype StoredClause = Facts(answers: seq<Answer>) | Compiled(head: Term, body: Term)

  /** An entry of the store: `{ _name, _arity, _clauses }`. */
  datatype Predicate = Predicate(name: Atom, arity: nat, clauses: seq<StoredClause>)

  // ---------------------------------------------------------------------
  // Keys.

  /** `nameAndArity`: the atom's text (`toString` drops the module), a
    * slash and the decimal arity. */
  function PredicateKey(name: Atom, arity: nat): string
  {
    name.name + "/" + NatToString(arity)
  }

  /** Two texts split at a slash followed by slash-free words are split at
    * the same place. */
  lemma SameSplit(x1: string, d1: string, x2: string, d2: string)
    requires x1 + "/" + d1 == x2 + "/" + d2
    requires forall i | 0 <= i < |d1| :: d1[i] != '/'
    requires forall i | 0 <= i < |d2| :: d2[i] != '/'
    ensures x1 == x2 && d1 == d2
  {
    var s := x1 + "/" + d1;
    assert s == x2 + "/" + d2;
    assert s[|x1|] == '/' && s[|x2|] == '/';
    assert x1 == s[..|x1|] && x2 == s[..|x2|];
    assert d1 == s[|x1| + 1..] && d2 == s[|x2| + 1..];
  }

  /** The key determines the name's text and the arity: the arity is the
    * digits after the last slash, however many slashes the name holds. */
  lemma PredicateKeyInjective(a: Atom, n: nat, b: Atom, m: nat)
    requires PredicateKey(a, n) == PredicateKey(b, m)
    ensures a.name == b.name && n == m
  {
    SameSplit(a.name, NatToString(n), b.name, NatToString(m));
    NatToStringRoundTrip(n);
    NatToStringRoundTrip(m);
  }

  /** `isSystemPredicate`: the control constructs `,`, `;` and `.` of arity
    * 2 (compared as interned atoms) and every predicate the compiler maps
    * to a runtime function. */
  predicate IsSystemPredicate(name: Atom, arity: int)
  {
    (arity == 2 && (name == Atom(",", None) || name == Atom(";", None) || name == DOT)) ||
    YPFunctionName(name, arity).Some?
  }

  /** Built-ins are protected, the special forms the compiler lowers itself
    * are not, and a module-qualified comma is not the interned one. */
  lemma SystemPredicateExamples(m: Atom)
    ensures IsSystemPredicate(Atom("atom_length", None), 2)
    ensures IsSystemPredicate(Atom(",", None), 2)
    ensures !IsSystemPredicate(Atom("assertz", None), 1)
    ensures !IsSystemPredicate(Atom(",", Some(m)), 2)
  {
    SpecialFormsAreNotRuntimeCalls(Atom("assertz", None), 1);
    SpecialFormsAreNotRuntimeCalls(Atom(",", Some(m)), 2);
  }

  // ---------------------------------------------------------------------
  // What a predicate holds.

  /** One stored fact or one compiled rule. */
  datatype Item = FactItem(answer: Answer) | RuleItem(head: Term, body: Term)

  function ItemsOf(c: StoredClause): (r: seq<Item>)
    ensures c.Facts? ==> |r| == |c.answers| && forall i | 0 <= i < |r| :: r[i] == FactItem(c.answers[i])
    ensures c.Compiled? ==> r == [RuleItem(c.head, c.body)]
  {
    match c
    case Facts(a) => seq(|a|, i requires 0 <= i < |a| => FactItem(a[i]))
    case Compiled(head, body) => [RuleItem(head, body)]
  }

  /** The facts and rules of a clause list in the order they are tried. */
  function Items(clauses: seq<StoredClause>): seq<Item>
  {
    if clauses == [] then [] else Items(clauses[..|clauses| - 1]) + ItemsOf(clauses[|clauses| - 1])
  }

  lemma {:induction false} ItemsAppend(xs: seq<StoredClause>, ys: seq<StoredClause>)
    ensures Items(xs + ys) == Items(xs) + Items(ys)
    decreases |ys|
  {
    if ys != [] {
      assert (xs + ys)[..|xs + ys| - 1] == xs + ys[..|ys| - 1];
      ItemsAppend(xs, ys[..|ys| - 1]);
    } else {
      assert xs + ys == xs;
    }
  }

  lemma ItemsOne(c: StoredClause)
    ensures Items([c]) == ItemsOf(c)
  {
    assert [c][..0] == [];
  }

  /** The clauses with a fact table last: the last clause if it is one,
    * otherwise a new empty table pushed after them. */
  function WithLastTable(clauses: seq<StoredClause>): (r: seq<StoredClause>)
    ensures r != [] && r[|r| - 1].Facts?
    ensures Items(r) == Items(clauses)
  {
    if clauses != [] && clauses[|clauses| - 1].Facts? then clauses
    else
      ItemsAppend(clauses, [Facts([])]);
      ItemsOne(Facts([]));
      clauses + [Facts([])]
  }

  /** The clauses with a fact table first: the first clause if it is one,
    * otherwise a new empty table put before them. */
  function WithFirstTable(clauses: seq<StoredClause>): (r: seq<StoredClause>)
    ensures r != [] && r[0].Facts?
    ensures Items(r) == Items(clauses)
  {
    if clauses != [] && clauses[0].Facts? then clauses
    else
      ItemsAppend([Facts([])], clauses);
      ItemsOne(Facts([]));
      [Facts([])] + clauses
  }

  /** `addAnswer` on the last table. */
  function AppendAnswer(clauses: seq<StoredClause>, c: Answer): seq<StoredClause>
    requires clauses != [] && clauses[|clauses| - 1].Facts?
  {
    clauses[..|clauses| - 1] + [Facts(clauses[|clauses| - 1].answers + [c])]
  }

  /** `prependAnswer` on the first table. */
  function PrependAnswer(clauses: seq<StoredClause>, c: Answer): seq<StoredClause>
    requires clauses != [] && clauses[0].Facts?
  {
    [Facts([c] + clauses[0].answers)] + clauses[1..]
  }

  lemma FactItemsEnds(a: seq<Answer>, c: Answer)
    ensures ItemsOf(Facts(a + [c])) == ItemsOf(Facts(a)) + [FactItem(c)]
    ensures ItemsOf(Facts([c] + a)) == [FactItem(c)] + ItemsOf(Facts(a))
  {
    var x := ItemsOf(Facts(a + [c]));
    var y := ItemsOf(Facts(a)) + [FactItem(c)];
    assert |x| == |y| && forall i | 0 <= i < |x| :: x[i] == y[i];
    var p := ItemsOf(Facts([c] + a));
    var q := [FactItem(c)] + ItemsOf(Facts(a));
    assert |p| == |q| && forall i | 0 <= i < |p| :: p[i] == q[i];
  }

  /** Appending to the last table adds exactly one fact, at the end. */
  lemma AppendAnswerItems(clauses: seq<StoredClause>, c: Answer)
    requires clauses != [] && clauses[|clauses| - 1].Facts?
    ensures Items(AppendAnswer(clauses, c)) == Items(clauses) + [FactItem(c)]
  {
    var init := clauses[..|clauses| - 1];
    var last := clauses[|clauses| - 1];
    ItemsSnoc(init, Facts(last.answers + [c]));
    FactItemsAfter(last.answers, c, Items(init));
  }

  /** Some items followed by the items of a table grown at the end. */
  lemma FactItemsAfter(a: seq<Answer>, c: Answer, before: seq<Item>)
    ensures before + ItemsOf(Facts(a + [c])) == (before + ItemsOf(Facts(a))) + [FactItem(c)]
  {
    FactItemsEnds(a, c);
    var back := ItemsOf(Facts(a));
    assert before + (back + [FactItem(c)]) == (before + back) + [FactItem(c)];
  }

  /** Items of a list with one more clause at the end. */
  lemma ItemsSnoc(init: seq<StoredClause>, x: StoredClause)
    ensures Items(init + [x]) == Items(init) + ItemsOf(x)
  {
    assert (init + [x])[..|init + [x]| - 1] == init;
  }

  /** Prepending to the first table adds exactly one fact, at the front. */
  lemma PrependAnswerItems(clauses: seq<StoredClause>, c: Answer)
    requires clauses != [] && clauses[0].Facts?
    ensures Items(PrependAnswer(clauses, c)) == [FactItem(c)] + Items(clauses)
  {
    var first := clauses[0];
    ItemsCons(Facts([c] + first.answers), clauses[1..]);
    ItemsFront(clauses);
    FactItemsBefore(first.answers, c, Items(clauses[1..]));
  }

  /** The items of a table grown at the front, followed by more items. */
  lemma FactItemsBefore(a: seq<Answer>, c: Answer, more: seq<Item>)
    ensures ItemsOf(Facts([c] + a)) + more == [FactItem(c)] + (ItemsOf(Facts(a)) + more)
  {
    FactItemsEnds(a, c);
    var front := ItemsOf(Facts(a));
    assert ([FactItem(c)] + front) + more == [FactItem(c)] + (front + more);
  }

  /** Items of a list with one more clause at the front. */
  lemma ItemsCons(x: StoredClause, rest: seq<StoredClause>)
    ensures Items([x] + rest) == ItemsOf(x) + Items(rest)
  {
    ItemsAppend([x], rest);
    ItemsOne(x);
  }

  /** Items of a non-empty list: those of its first clause, then the rest. */
  lemma ItemsFront(clauses: seq<StoredClause>)
    requires clauses != []
    ensures Items(clauses) == ItemsOf(clauses[0]) + Items(clauses[1..])
  {
    assert clauses == [clauses[0]] + clauses[1..];
    ItemsCons(clauses[0], clauses[1..]);
  }

  /** Adding a compiled rule at either end adds exactly that rule there. */
  lemma RuleItems(clauses: seq<StoredClause>, head: Term, body: Term)
    ensures Items(clauses + [Compiled(head, body)]) == Items(clauses) + [RuleItem(head, body)]
    ensures Items([Compiled(head, body)] + clauses) == [RuleItem(head, body)] + Items(clauses)
  {
    ItemsAppend(clauses, [Compiled(head, body)]);
    ItemsAppend([Compiled(head, body)], clauses);
    ItemsOne(Compiled(head, body));
  }

  // ---------------------------------------------------------------------
  // The store invariant.

  /** Every entry sits under its own key and its fact tables hold ground
    * answers of its arity. */
  predicate Entry(key: string, p: Predicate)
  {
    key == PredicateKey(p.name, p.arity) && TablesStored(p.arity, p.clauses)
  }

  /** Every fact table in clauses holds answers of the arity. */
  predicate TablesStored(arity: nat, clauses: seq<StoredClause>)
  {
    forall i | 0 <= i < |clauses| :: clauses[i].Facts? ==> forall c | c in clauses[i].answers :: Stored(arity, c)
  }

  predicate WellFormed(preds: map<string, Predicate>)
  {
    forall k | k in preds :: Entry(k, preds[k])
  }

  /** Storing a well-formed entry keeps the store well formed. */
  lemma WellFormedUpdate(preds: map<string, Predicate>, key: string, p: Predicate)
    requires WellFormed(preds) && Entry(key, p)
    ensures WellFormed(preds[key := p])
  {
  }

  /** The clauses filed under key, none when it is absent. */
  function ClausesAt(preds: map<string, Predicate>, key: string): seq<StoredClause>
  {
    if key in preds then preds[key].clauses else []
  }

  /** The name an entry keeps: the one it was created with. */
  function NameAt(preds: map<string, Predicate>, key: string, name: Atom): Atom
  {
    if key in preds then preds[key].name else name
  }

  /** An entry found under the key of name/arity has that arity and a name
    * with the same text. */
  lemma EntryFor(preds: map<string, Predicate>, name: Atom, arity: nat)
    requires WellFormed(preds)
    ensures var key := PredicateKey(name, arity);
      key in preds ==> preds[key].arity == arity && preds[key].name.name == name.name
    ensures PredicateKey(NameAt(preds, PredicateKey(name, arity), name), arity) == PredicateKey(name, arity)
  {
    var key := PredicateKey(name, arity);
    if key in preds {
      PredicateKeyInjective(preds[key].name, preds[key].arity, name, arity);
    }
  }

  /** The table-making steps keep the tables' answers. */
  lemma TablesKept(clauses: seq<StoredClause>, arity: nat)
    requires TablesStored(arity, clauses)
    ensures TablesStored(arity, WithLastTable(clauses)) && TablesStored(arity, WithFirstTable(clauses))
  {
    if !(clauses != [] && clauses[|clauses| - 1].Facts?) {
      RuleKept(clauses, arity, Facts([]));
    }
    if !(clauses != [] && clauses[0].Facts?) {
      RuleKept(clauses, arity, Facts([]));
    }
  }

  /** Adding a stored answer to the last table keeps the tables. */
  lemma AppendKept(t: seq<StoredClause>, arity: nat, c: Answer)
    requires t != [] && t[|t| - 1].Facts? && TablesStored(arity, t) && Stored(arity, c)
    ensures TablesStored(arity, AppendAnswer(t, c))
  {
    var r := AppendAnswer(t, c);
    forall i | 0 <= i < |r| && r[i].Facts? ensures forall d | d in r[i].answers :: Stored(arity, d) {
      if i < |t| - 1 {
        assert r[i] == t[i];
      } else {
        assert r[i].answers == t[i].answers + [c];
      }
    }
  }

  /** Adding a stored answer to the first table keeps the tables. */
  lemma PrependKept(f: seq<StoredClause>, arity: nat, c: Answer)
    requires f != [] && f[0].Facts? && TablesStored(arity, f) && Stored(arity, c)
    ensures TablesStored(arity, PrependAnswer(f, c))
  {
    var q := PrependAnswer(f, c);
    forall i | 0 <= i < |q| && q[i].Facts? ensures forall d | d in q[i].answers :: Stored(arity, d) {
      if i > 0 {
        assert q[i] == f[i];
      } else {
        assert q[i].answers == [c] + f[0].answers;
      }
    }
  }

  /** A table or a compiled rule at either end keeps the tables. */
  lemma RuleKept(clauses: seq<StoredClause>, arity: nat, rule: StoredClause)
    requires TablesStored(arity, clauses) && (rule.Compiled? || rule == Facts([]))
    ensures TablesStored(arity, [rule] + clauses) && TablesStored(arity, clauses + [rule])
  {
    var p := [rule] + clauses;
    forall i | 0 <= i < |p| && p[i].Facts? ensures forall d | d in p[i].answers :: Stored(arity, d) {
      if i > 0 {
        assert p[i] == clauses[i - 1];
      }
    }
  }

  /** A ground value is ground in every heap and is its own copy. */
  lemma {:induction false} GroundValueGround(h: Heap, c: Term)
    requires Valid(h) && IsGroundValue(c)
    ensures Ground(h, c) && Resolve(h, c) == c
    decreases c
  {
    if c.Compound? {
      ArgsBelow(h, c.args);
      forall i | 0 <= i < |c.args| ensures Ground(h, c.args[i]) && Resolve(h, c.args[i]) == c.args[i] {
        GroundValueGround(h, c.args[i]);
      }
      assert Resolve(h, c).args == c.args;
    }
  }

  /** A term without variables is a ground value. */
  lemma {:induction false} NoVariablesGround(c: Term)
    requires VarList(c) == []
    ensures IsGroundValue(c)
    decreases c
  {
    if c.Compound? {
      forall i | 0 <= i < |c.args| ensures IsGroundValue(c.args[i]) {
        NoArgVariables(c.args, i);
        NoVariablesGround(c.args[i]);
      }
    }
  }

  lemma {:induction false} NoArgVariables(cs: seq<Term>, i: nat)
    requires VarListArgs(cs) == [] && i < |cs|
    ensures VarList(cs[i]) == []
    decreases i
  {
    if i > 0 {
      NoArgVariables(cs[1..], i - 1);
    }
  }

  // ---------------------------------------------------------------------
  // Store updates, as functions of the old store.

  /** `assertFact`'s update: the entry (created if missing, keeping the name
    * it was created with) gets a fact table last, and the answer, when it
    * is accepted, goes at the end of that table. */
  function FactAppended(preds: map<string, Predicate>, name: Atom, arity: nat, c: Option<Answer>): map<string, Predicate>
  {
    var key := PredicateKey(name, arity);
    var table := WithLastTable(ClausesAt(preds, key));
    preds[key := Predicate(NameAt(preds, key, name), arity, if c.Some? then AppendAnswer(table, c.value) else table)]
  }

  /** `prependFact`'s update, the mirror image at the front. */
  function FactPrepended(preds: map<string, Predicate>, name: Atom, arity: nat, c: Option<Answer>): map<string, Predicate>
  {
    var key := PredicateKey(name, arity);
    var table := WithFirstTable(ClausesAt(preds, key));
    preds[key := Predicate(NameAt(preds, key, name), arity, if c.Some? then PrependAnswer(table, c.value) else table)]
  }

  /** The rule path of `assertDynamic`: the compiled clause is pushed (or
    * unshifted) onto the entry, which is created empty if missing. */
  function RuleAdded(preds: map<string, Predicate>, name: Atom, arity: nat, head: Term, body: Term, prepend: bool): map<string, Predicate>
  {
    var key := PredicateKey(name, arity);
    var clauses := ClausesAt(preds, key);
    preds[key := Predicate(NameAt(preds, key, name), arity,
      if prepend then [Compiled(head, body)] + clauses else clauses + [Compiled(head, body)])]
  }

  /** A fact update keeps the store well formed and adds the accepted
    * answer as the last item. */
  lemma FactAppendedItems(preds: map<string, Predicate>, name: Atom, arity: nat, c: Option<Answer>)
    requires WellFormed(preds) && (c.Some? ==> Stored(arity, c.value))
    ensures var key := PredicateKey(name, arity);
      WellFormed(FactAppended(preds, name, arity, c)) &&
      Items(ClausesAt(FactAppended(preds, name, arity, c), key)) ==
        Items(ClausesAt(preds, key)) + if c.Some? then [FactItem(c.value)] else []
  {
    var key := PredicateKey(name, arity);
    var clauses := ClausesAt(preds, key);
    var table := WithLastTable(clauses);
    EntryFor(preds, name, arity);
    assert TablesStored(arity, clauses);
    TablesKept(clauses, arity);
    var grown := if c.Some? then AppendAnswer(table, c.value) else table;
    if c.Some? {
      AppendAnswerItems(table, c.value);
      AppendKept(table, arity, c.value);
    }
    WellFormedUpdate(preds, key, Predicate(NameAt(preds, key, name), arity, grown));
  }

  /** The mirror image for the first table. */
  lemma FactPrependedItems(preds: map<string, Predicate>, name: Atom, arity: nat, c: Option<Answer>)
    requires WellFormed(preds) && (c.Some? ==> Stored(arity, c.value))
    ensures var key := PredicateKey(name, arity);
      WellFormed(FactPrepended(preds, name, arity, c)) &&
      Items(ClausesAt(FactPrepended(preds, name, arity, c), key)) ==
        (if c.Some? then [FactItem(c.value)] else []) + Items(ClausesAt(preds, key))
  {
    var key := PredicateKey(name, arity);
    var clauses := ClausesAt(preds, key);
    var table := WithFirstTable(clauses);
    EntryFor(preds, name, arity);
    assert TablesStored(arity, clauses);
    TablesKept(clauses, arity);
    var grown := if c.Some? then PrependAnswer(table, c.value) else table;
    if c.Some? {
      PrependAnswerItems(table, c.value);
      PrependKept(table, arity, c.value);
    }
    WellFormedUpdate(preds, key, Predicate(NameAt(preds, key, name), arity, grown));
  }

  /** Adding a rule keeps the store well formed and adds the rule as the
    * last (or first) item. */
  lemma RuleAddedItems(preds: map<string, Predicate>, name: Atom, arity: nat, head: Term, body: Term, prepend: bool)
    requires WellFormed(preds)
    ensures var key := PredicateKey(name, arity);
      WellFormed(RuleAdded(preds, name, arity, head, body, prepend)) &&
      Items(ClausesAt(RuleAdded(preds, name, arity, head, body, prepend), key)) ==
        if prepend then [RuleItem(head, body)] + Items(ClausesAt(preds, key))
        else Items(ClausesAt(preds, key)) + [RuleItem(head, body)]
  {
    var key := PredicateKey(name, arity);
    var clauses := ClausesAt(preds, key);
    EntryFor(preds, name, arity);
    assert TablesStored(arity, clauses);
    RuleItems(clauses, head, body);
    RuleKept(clauses, arity, Compiled(head, body));
    var grown := if prepend then [Compiled(head, body)] + clauses else clauses + [Compiled(head, body)];
    WellFormedUpdate(preds, key, Predicate(NameAt(preds, key, name), arity, grown));
  }

  // ---------------------------------------------------------------------
  // `assertDynamic` on the copied term.

  /** The head and body `assertDynamic` takes from the copy: the arguments
    * of a `:-/2` term, otherwise the whole term with body `true`. */
  function Split(c: Term): (Term, Term)
  {
    if c.Compound? && c.name == RULE && |c.args| == 2 then (c.args[0], c.args[1]) else (c, Sym(TRUE))
  }

  /** `getFunctorName` and `getFunctorArgs` of a head. */
  function NameOf(head: Term): Term
  {
    if head.Compound? then Sym(head.name) else head
  }

  function ArgsOf(head: Term): seq<Term>
  {
    if head.Compound? then head.args else []
  }

  /** What `assertDynamic` raises for the copy c, checked in order. */
  function AssertError(c: Term): (r: Option<Term>)
    ensures c.Var? ==> r == Some(Str("instantiation_error"))
    ensures var (head, body) := Split(c);
      c.Compound? && c.name == RULE && |c.args| == 2 && (head.Var? || body.Var?) ==> r == Some(Str("instantiation_error"))
    ensures var (head, body) := Split(c);
      !head.Var? && !body.Var? && (head.Str? || head.Int?) ==> r == Some(TypeError("callable", head))
    ensures var (head, body) := Split(c);
      !head.Var? && !body.Var? && NameOf(head).Sym? && IsSystemPredicate(NameOf(head).atom, |ArgsOf(head)|) ==>
        r == Some(PermissionError("modify", "static_procedure", Indicator(NameOf(head), |ArgsOf(head)|)))
    ensures r.None? <==> var (head, body) := Split(c);
      !c.Var? && !head.Var? && !body.Var? && NameOf(head).Sym? && !IsSystemPredicate(NameOf(head).atom, |ArgsOf(head)|)
  {
    if c.Var? then Some(Str("instantiation_error")) else
    var (head, body) := Split(c);
    if head.Var? || body.Var? then Some(Str("instantiation_error"))
    else if !NameOf(head).Sym? then Some(TypeError("callable", head))
    else if IsSystemPredicate(NameOf(head).atom, |ArgsOf(head)|) then
      Some(PermissionError("modify", "static_procedure", Indicator(NameOf(head), |ArgsOf(head)|)))
    else None
  }

  /** The copy is a fact for the fact tables: it has no variables and its
    * body is the interned `true`. */
  predicate IsFactAssert(c: Term)
  {
    VarList(c) == [] && Split(c).1 == Sym(TRUE)
  }

  /** The store after a clause for name with the head and body is filed:
    * as a fact in a fact table, or as a compiled rule. */
  function Filed(preds: map<string, Predicate>, name: Atom, head: Term, body: Term, fact: bool, prepend: bool): map<string, Predicate>
  {
    var arity := |ArgsOf(head)|;
    if fact then
      if prepend then FactPrepended(preds, name, arity, Some(ArgsOf(head)))
      else FactAppended(preds, name, arity, Some(ArgsOf(head)))
    else RuleAdded(preds, name, arity, head, body, prepend)
  }

  /** Filing adds exactly one item to its own predicate, first when
    * prepending and last otherwise, and changes no other predicate. */
  lemma {:induction false} FiledItems(preds: map<string, Predicate>, name: Atom, head: Term, body: Term, fact: bool, prepend: bool)
    requires WellFormed(preds) && (fact ==> Stored(|ArgsOf(head)|, ArgsOf(head)))
    ensures WellFormed(Filed(preds, name, head, body, fact, prepend))
    ensures Filed(preds, name, head, body, fact, prepend) == preds[PredicateKey(name, |ArgsOf(head)|) := Filed(preds, name, head, body, fact, prepend)[PredicateKey(name, |ArgsOf(head)|)]]
    ensures Items(ClausesAt(Filed(preds, name, head, body, fact, prepend), PredicateKey(name, |ArgsOf(head)|))) ==
      var before := Items(ClausesAt(preds, PredicateKey(name, |ArgsOf(head)|)));
      if prepend then [AddedItem(head, body, fact)] + before else before + [AddedItem(head, body, fact)]
  {
    var arity := |ArgsOf(head)|;
    if fact {
      if prepend {
        FactPrependedItems(preds, name, arity, Some(ArgsOf(head)));
      } else {
        FactAppendedItems(preds, name, arity, Some(ArgsOf(head)));
      }
    } else {
      RuleAddedItems(preds, name, arity, head, body, prepend);
    }
  }

  /** The item filing adds. */
  function AddedItem(head: Term, body: Term, fact: bool): Item
  {
    if fact then FactItem(ArgsOf(head)) else RuleItem(head, body)
  }

  /** The store after the accepted copy c is filed. */
  function Placed(preds: map<string, Predicate>, c: Term, prepend: bool): map<string, Predicate>
    requires AssertError(c).None?
  {
    var (head, body) := Split(c);
    Filed(preds, NameOf(head).atom, head, body, IsFactAssert(c), prepend)
  }

  /** The item an accepted copy adds to its predicate. */
  function NewItem(c: Term): Item
  {
    var (head, body) := Split(c);
    if IsFactAssert(c) then FactItem(ArgsOf(head)) else RuleItem(head, body)
  }

  /** The arguments of a fact's head are ground values. */
  lemma FactArgsGround(c: Term)
    requires AssertError(c).None? && IsFactAssert(c)
    ensures Stored(|ArgsOf(Split(c).0)|, ArgsOf(Split(c).0))
  {
    NoVariablesGround(c);
    var head := Split(c).0;
    assert IsGroundValue(head);
  }

  /** `assertDynamic` (and `asserta`, `assertz`): an accepted term adds
    * exactly one item to its own predicate, first when prepending and last
    * otherwise; every other predicate is unchanged and the store stays
    * well formed. */
  lemma PlacedItems(preds: map<string, Predicate>, c: Term, prepend: bool)
    requires WellFormed(preds) && AssertError(c).None?
    ensures var head := Split(c).0;
      var key := PredicateKey(NameOf(head).atom, |ArgsOf(head)|);
      var after := Placed(preds, c, prepend);
      WellFormed(after) && after.Keys == preds.Keys + {key} &&
      (forall k | k in preds && k != key :: after[k] == preds[k]) &&
      Items(ClausesAt(after, key)) ==
        if prepend then [NewItem(c)] + Items(ClausesAt(preds, key)) else Items(ClausesAt(preds, key)) + [NewItem(c)]
  {
    var head := Split(c).0;
    if IsFactAssert(c) {
      FactArgsGround(c);
    }
    FiledItems(preds, NameOf(head).atom, head, Split(c).1, IsFactAssert(c), prepend);
  }

  /** Ground values are their own copies. */
  lemma CopiesOfGround(h: Heap, values: seq<Term>)
    requires Valid(h) && forall i | 0 <= i < |values| :: IsGroundValue(values[i])
    ensures AllGround(h, values) && Copies(h, values) == values
  {
    forall i | 0 <= i < |values| ensures Ground(h, values[i]) && Resolve(h, values[i]) == values[i] {
      GroundValueGround(h, values[i]);
    }
  }

  /** Every value is ground under the bindings of h. */
  predicate AllGround(h: Heap, values: seq<Term>)
    requires Valid(h)
  {
    forall i | 0 <= i < |values| :: Ground(h, values[i])
  }

  /** The copies of ground values are stored answers. */
  lemma CopiesStored(h: Heap, values: seq<Term>)
    requires Valid(h) && AllGround(h, values)
    ensures Stored(|values|, Copies(h, values))
  {
    forall i | 0 <= i < |values| ensures IsGroundValue(Copies(h, values)[i]) {
      GroundResolve(h, values[i]);
    }
  }

  // ---------------------------------------------------------------------
  // Matching the clauses of a predicate.

  /** One answer of a clause's `match`: the bindings it leaves, and whether
    * the clause reached its last call after a cut. */
  datatype Step = Step(heap: Heap, lastCall: bool)

  /** How a compiled clause with the head and body answers `match(args)`:
    * running compiled code is not part of this model, so it is a
    * parameter. */
  type RuleMatcher = (Heap, Term, Term, seq<Term>) -> seq<Step>

  /** Fact answers never come from a cut. */
  function AsSteps(hs: seq<Heap>): (r: seq<Step>)
    ensures |r| == |hs| && forall i | 0 <= i < |r| :: r[i] == Step(hs[i], false)
  {
    seq(|hs|, i requires 0 <= i < |hs| => Step(hs[i], false))
  }

  function Heaps(s: seq<Step>): (r: seq<Heap>)
    ensures |r| == |s| && forall i | 0 <= i < |s| :: r[i] == s[i].heap
  {
    seq(|s|, i requires 0 <= i < |s| => s[i].heap)
  }

  /** `clause.match(args)` for one stored clause. */
  function ClauseSteps(c: StoredClause, arity: nat, h: Heap, args: seq<Term>, run: RuleMatcher): seq<Step>
    requires Valid(h) && forall j | 0 <= j < |args| :: InScope(h.next, args[j])
    requires c.Facts? ==> forall d | d in c.answers :: Stored(arity, d)
  {
    match c
    case Facts(answers) => AsSteps(MatchSolutions(answers, arity, h, args, false))
    case Compiled(head, body) => run(h, head, body, args)
  }

  /** Some step of s comes after a cut. */
  predicate HasCut(s: seq<Step>)
  {
    exists i | 0 <= i < |s| :: s[i].lastCall
  }

  /** The answers `matchAllClauses` passes on from one clause: each step's
    * bindings, up to and including the first one after a cut. */
  function UpToCut(s: seq<Step>): (r: seq<Heap>)
    ensures |r| <= |s| && forall i | 0 <= i < |r| :: r[i] == s[i].heap
    ensures !HasCut(s) ==> r == Heaps(s)
  {
    if s == [] then []
    else if s[0].lastCall then [s[0].heap]
    else
      assert !HasCut(s) ==> !HasCut(s[1..]) by {
        if HasCut(s[1..]) {
          var i :| 0 <= i < |s| - 1 && s[1..][i].lastCall;
          assert s[i + 1].lastCall;
        }
      }
      [s[0].heap] + UpToCut(s[1..])
  }

  /** The steps each clause answers, in order. */
  function AllSteps(clauses: seq<StoredClause>, arity: nat, h: Heap, args: seq<Term>, run: RuleMatcher): (r: seq<seq<Step>>)
    requires Valid(h) && forall j | 0 <= j < |args| :: InScope(h.next, args[j])
    requires TablesStored(arity, clauses)
    ensures |r| == |clauses| && forall i | 0 <= i < |clauses| :: r[i] == ClauseSteps(clauses[i], arity, h, args, run)
  {
    seq(|clauses|, i requires 0 <= i < |clauses| => ClauseSteps(clauses[i], arity, h, args, run))
  }

  /** `matchAllClauses` over the steps of each clause: the answers of each
    * clause in turn, stopping after the answer that follows a cut. */
  function MatchAll(ss: seq<seq<Step>>): seq<Heap>
  {
    if ss == [] then [] else UpToCut(ss[0]) + if HasCut(ss[0]) then [] else MatchAll(ss[1..])
  }

  /** No clause answers after a cut. */
  predicate NoCut(ss: seq<seq<Step>>)
  {
    forall i | 0 <= i < |ss| :: !HasCut(ss[i])
  }

  /** Clauses after ones that never cut simply follow their answers. */
  lemma {:induction false} MatchAllAppend(a: seq<seq<Step>>, b: seq<seq<Step>>)
    requires NoCut(a)
    ensures MatchAll(a + b) == MatchAll(a) + MatchAll(b)
    decreases |a|
  {
    if a == [] {
      assert a + b == b;
    } else {
      assert (a + b)[0] == a[0] && (a + b)[1..] == a[1..] + b;
      assert !HasCut(a[0]);
      assert NoCut(a[1..]) by {
        forall i | 0 <= i < |a| - 1 ensures !HasCut(a[1..][i]) {
          assert a[1..][i] == a[i + 1];
        }
      }
      MatchAllAppend(a[1..], b);
    }
  }

  /** A clause whose answers include a cut ends the search: the clauses
    * after it are never asked. */
  lemma {:induction false} CutStops(ss: seq<seq<Step>>, i: nat)
    requires i < |ss| && HasCut(ss[i])
    ensures MatchAll(ss) == MatchAll(ss[..i + 1])
    decreases i
  {
    assert ss[..i + 1][0] == ss[0];
    if i > 0 && !HasCut(ss[0]) {
      assert ss[1..][i - 1] == ss[i];
      CutStops(ss[1..], i - 1);
      assert ss[..i + 1][1..] == ss[1..][..i];
    }
  }

  /** A fact table reached before any cut contributes every answer it
    * matches: with all arguments indexed, the bindings unchanged; otherwise
    * the bindings that unify the open arguments with the answer. */
  lemma FactFound(clauses: seq<StoredClause>, i: nat, arity: nat, h: Heap, args: seq<Term>, run: RuleMatcher, c: Answer)
    requires Valid(h) && forall j | 0 <= j < |args| :: InScope(h.next, args[j])
    requires TablesStored(arity, clauses) && i < |clauses| && NoCut(AllSteps(clauses, arity, h, args, run)[..i])
    requires clauses[i].Facts? && c in clauses[i].answers && |args| == arity && Selects(ArgKey(h, args), c)
    ensures AllIndexed(ArgKey(h, args)) ==> h in MatchAll(AllSteps(clauses, arity, h, args, run))
    ensures !AllIndexed(ArgKey(h, args)) ==> (StoredInScope(h.next, arity, clauses[i].answers);
      UnifyFrom(h, args, c, ArgKey(h, args), 0).Some? ==>
        UnifyFrom(h, args, c, ArgKey(h, args), 0).value in MatchAll(AllSteps(clauses, arity, h, args, run)))
  {
    var ss := AllSteps(clauses, arity, h, args, run);
    assert ss == ss[..i] + ss[i..];
    MatchAllAppend(ss[..i], ss[i..]);
    var s := ss[i];
    assert ss[i..][0] == s;
    MatchComplete(clauses[i].answers, arity, h, args, c);
    StoredInScope(h.next, arity, clauses[i].answers);
    assert !HasCut(s) && UpToCut(s) == MatchSolutions(clauses[i].answers, arity, h, args, false);
    assert MatchAll(ss[i..])[..|UpToCut(s)|] == UpToCut(s);
  }

  /** The answers of a clause whose steps end at its first cut: all of
    * them, as the one-clause shortcut of `matchDynamic` passes them on,
    * are the answers `matchAllClauses` would give. */
  predicate StopsAtCut(s: seq<Step>)
  {
    forall i | 0 <= i < |s| - 1 :: !s[i].lastCall
  }

  lemma {:induction false} ShortcutAgrees(s: seq<Step>)
    requires StopsAtCut(s)
    ensures Heaps(s) == UpToCut(s)
    decreases |s|
  {
    if s != [] && !s[0].lastCall {
      assert StopsAtCut(s[1..]) by {
        forall i | 0 <= i < |s| - 2 ensures !s[1..][i].lastCall {
          assert s[1..][i] == s[i + 1];
        }
      }
      ShortcutAgrees(s[1..]);
      assert Heaps(s) == [s[0].heap] + Heaps(s[1..]);
    } else if s != [] {
      assert |s| == 1;
    }
  }

  /** What `matchDynamic` returns: the answers of the predicate's clauses,
    * or, for an undefined predicate, what `unknownPredicate` does. */
  datatype Dispatch = Ran(steps: seq<Step>) | Unknown(result: UnknownResult)

  // ---------------------------------------------------------------------
  // `retractall` and `abolish`.

  /** `retractall` as written walks `for (let arg in argumentos)`, which
    * visits the index strings, never a variable, so any argument refuses. */
  predicate RetractallRefusesAsWritten(args: seq<Term>)
  {
    |args| > 0
  }

  /** The evident intent: refuse when some argument is not an unbound
    * variable. */
  predicate RetractallRefuses(h: Heap, args: seq<Term>)
    requires Valid(h)
  {
    exists i | 0 <= i < |args| :: !Deref(h, args[i]).Var?
  }

  /** `retractall(f(X))` with X unbound is refused as written and accepted
    * as intended. */
  lemma RetractallFinding(h: Heap, x: nat)
    requires Valid(h) && x !in h.cells
    ensures RetractallRefusesAsWritten([Var(x)]) && !RetractallRefuses(h, [Var(x)])
  {
  }

  /** What `abolish` raises for the indicator t, checked in order. */
  function AbolishError(h: Heap, t: Term): (r: Option<Term>)
    requires Valid(h)
    ensures Deref(h, t).Var? ==> r == Some(Str("instantiation_error"))
    ensures !Deref(h, t).Var? && !IsIndicatorShape(Deref(h, t)) ==> r == Some(TypeError("predicate_indicator", Culprit(h, t)))
    ensures r.None? <==> (IsIndicatorShape(Deref(h, t)) &&
      var name := Deref(h, Deref(h, t).args[0]);
      var arity := Deref(h, Deref(h, t).args[1]);
      name.Sym? && arity.Int? && 0 <= arity.value <= MAX_ARITY && !IsSystemPredicate(name.atom, arity.value))
  {
    var d := Deref(h, t);
    if d.Var? then Some(Str("instantiation_error"))
    else if !IsIndicatorShape(d) then Some(TypeError("predicate_indicator", Culprit(h, t)))
    else
      var name := Deref(h, d.args[0]);
      var arity := Deref(h, d.args[1]);
      if name.Var? || arity.Var? then Some(Str("instantiation_error"))
      else if !name.Sym? then Some(TypeError("atom", Resolve(h, name)))
      else if !arity.Int? then Some(TypeError("integer", Resolve(h, arity)))
      else if arity.value < 0 then Some(DomainError("not_less_than_zero", arity))
      else if arity.value > MAX_ARITY then Some(RepresentationError("max_arity"))
      else if IsSystemPredicate(name.atom, arity.value) then
        Some(PermissionError("modify", "static_procedure", Indicator(name, arity.value)))
      else None
  }

  /** A `/`/2 term, as `abolish` demands. */
  predicate IsIndicatorShape(d: Term)
  {
    d.Compound? && d.name == SLASH && |d.args| == 2
  }

  /** The bad arities `abolish` names. */
  lemma AbolishArityExamples(h: Heap)
    requires Valid(h)
    ensures AbolishError(h, Compound(SLASH, [Sym(Atom("foo", None)), Int(-1)])) ==
      Some(DomainError("not_less_than_zero", Int(-1)))
    ensures AbolishError(h, Compound(SLASH, [Sym(Atom("foo", None)), Int(256)])) == Some(RepresentationError("max_arity"))
    ensures AbolishError(h, Compound(SLASH, [Int(3), Int(2)])) == Some(TypeError("atom", Int(3)))
  {
  }

  /** The predicates `abolish` protects, and one it removes. */
  lemma AbolishSystemExamples(h: Heap)
    requires Valid(h)
    ensures AbolishError(h, Compound(SLASH, [Sym(Atom("atom_length", None)), Int(2)])) ==
      Some(PermissionError("modify", "static_procedure", Indicator(Sym(Atom("atom_length", None)), 2)))
    ensures AbolishError(h, Compound(SLASH, [Sym(Atom("foo", None)), Int(255)])).None?
  {
    SystemPredicateExamples(Atom("", None));
    assert !IsSystemPredicate(Atom("foo", None), 255);
  }

  // ---------------------------------------------------------------------
  // The store.

  class PredicateStore {
    /** `_predicatesStore`, by `nameAndArity`. */
    var predicates: map<string, Predicate>

    ghost predicate Consistent()
      reads this
    {
      WellFormed(predicates)
    }

    constructor ()
      ensures predicates == map[] && Consistent()
    {
      predicates := map[];
    }

    /** `assertFact(name, values)`: files values at the end of the last fact
      * table of name/|values|, pushing a new table when the last clause is a
      * rule or the predicate is new. The entry and the table exist before
      * the answer is checked, so a refused answer (one with unbound
      * variables: the table throws) still leaves them in place. */
    method AssertFact(h: Heap, name: Atom, values: seq<Term>) returns (r: AddResult)
      requires Consistent() && Valid(h)
      modifies this
      ensures Consistent()
      ensures r == if AllGround(h, values) then Added else NotGround
      ensures predicates == FactAppended(old(predicates), name, |values|, if r == Added then Some(Copies(h, values)) else None)
    {
      var key := PredicateKey(name, |values|);
      var owner := NameAt(predicates, key, name);
      var table := WithLastTable(ClausesAt(predicates, key));
      var answer := None;
      if AllGround(h, values) {
        CopiesStored(h, values);
        answer := Some(Copies(h, values));
        table := AppendAnswer(table, answer.value);
        r := Added;
      } else {
        r := NotGround;
      }
      FactAppendedItems(predicates, name, |values|, answer);
      predicates := predicates[key := Predicate(owner, |values|, table)];
    }

    /** `prependFact(name, values)`: the mirror image of `assertFact` at the
      * front. */
    method PrependFact(h: Heap, name: Atom, values: seq<Term>) returns (r: AddResult)
      requires Consistent() && Valid(h)
      modifies this
      ensures Consistent()
      ensures r == if AllGround(h, values) then Added else NotGround
      ensures predicates == FactPrepended(old(predicates), name, |values|, if r == Added then Some(Copies(h, values)) else None)
    {
      var key := PredicateKey(name, |values|);
      var owner := NameAt(predicates, key, name);
      var table := WithFirstTable(ClausesAt(predicates, key));
      var answer := None;
      if AllGround(h, values) {
        CopiesStored(h, values);
        answer := Some(Copies(h, values));
        table := PrependAnswer(table, answer.value);
        r := Added;
      } else {
        r := NotGround;
      }
      FactPrependedItems(predicates, name, |values|, answer);
      predicates := predicates[key := Predicate(owner, |values|, table)];
    }

    /** The rule path of `assertDynamic`. */
    method AddRule(name: Atom, arity: nat, head: Term, body: Term, prepend: bool)
      requires Consistent()
      modifies this
      ensures Consistent()
      ensures predicates == RuleAdded(old(predicates), name, arity, head, body, prepend)
    {
      var key := PredicateKey(name, arity);
      RuleAddedItems(predicates, name, arity, head, body, prepend);
      var clauses := ClausesAt(predicates, key);
      var owner := NameAt(predicates, key, name);
      if prepend {
        predicates := predicates[key := Predicate(owner, arity, [Compiled(head, body)] + clauses)];
      } else {
        predicates := predicates[key := Predicate(owner, arity, clauses + [Compiled(head, body)])];
      }
    }

    /** `assertDynamic(Term, declaringClass, prepend)`, which `asserta`
      * (prepend) and `assertz` call: refuses an unbound term, otherwise
      * copies it and files the copy as `Placed` says unless `AssertError`
      * names an error for it. */
    method AssertDynamic(h: Heap, term: Term, prepend: bool) returns (h': Heap, copy: Term, error: Option<Term>, ghost m: map<nat, nat>)
      requires Consistent() && Valid(h) && InScope(h.next, term)
      modifies this
      ensures Consistent() && Valid(h')
      ensures Deref(h, term).Var? ==> h' == h && error == Some(Str("instantiation_error")) && predicates == old(predicates)
      ensures !Deref(h, term).Var? ==>
        SameCells(h, h') && h.next <= h'.next && Copied(h, term, copy, m) && Injective(m) && error == AssertError(copy)
      ensures error.Some? ==> predicates == old(predicates)
      ensures error.None? ==> predicates == Placed(old(predicates), copy, prepend)
    {
      var d := Deref(h, term);
      if d.Var? {
        return h, d, Some(Str("instantiation_error")), map[];
      }
      h', copy, m := CopyTerm(h, term);
      error := AssertError(copy);
      if error.Some? {
        return;
      }
      var (head, body) := Split(copy);
      var name := NameOf(head).atom;
      var args := ArgsOf(head);
      if IsFactAssert(copy) {
        FactArgsGround(copy);
        CopiesOfGround(h', args);
        var r;
        if prepend {
          r := PrependFact(h', name, args);
        } else {
          r := AssertFact(h', name, args);
        }
      } else {
        AddRule(name, |args|, head, body, prepend);
      }
    }

    /** `matchDynamic(name, args)` (and `matchFact`, which only calls it):
      * an undefined predicate answers as `unknownPredicate` says; a
      * predicate with one clause answers with that clause's own steps, and
      * any other with `matchAllClauses`. Whenever the clauses stop at their
      * first cut the two agree, so the shortcut changes no answer. */
    function MatchDynamic(flags: FlagTable, h: Heap, name: Atom, args: seq<Term>, run: RuleMatcher): (r: Dispatch)
      requires Consistent() && flags.Settled()
      requires Valid(h) && forall j | 0 <= j < |args| :: InScope(h.next, args[j])
      reads this, flags
      ensures PredicateKey(name, |args|) !in predicates <==> r.Unknown?
      ensures r.Unknown? ==> r.result == flags.UnknownPredicate(Sym(name), Int(|args|))
      ensures r.Ran? ==> var clauses := predicates[PredicateKey(name, |args|)].clauses;
        TablesStored(|args|, clauses) &&
        ((forall i | 0 <= i < |clauses| :: StopsAtCut(ClauseSteps(clauses[i], |args|, h, args, run))) ==>
          Heaps(r.steps) == MatchAll(AllSteps(clauses, |args|, h, args, run)))
      ensures r.Ran? && predicates[PredicateKey(name, |args|)].clauses == [] ==> r.steps == []
    {
      var key := PredicateKey(name, |args|);
      if key !in predicates then Unknown(flags.UnknownPredicate(Sym(name), Int(|args|)))
      else
        var clauses := predicates[key].clauses;
        EntryFor(predicates, name, |args|);
        if |clauses| == 1 then
          var s := ClauseSteps(clauses[0], |args|, h, args, run);
          assert StopsAtCut(s) ==> Heaps(s) == MatchAll(AllSteps(clauses, |args|, h, args, run)) by {
            if StopsAtCut(s) {
              ShortcutAgrees(s);
              assert AllSteps(clauses, |args|, h, args, run)[1..] == [];
            }
          }
          Ran(s)
        else Ran(AsSteps(MatchAll(AllSteps(clauses, |args|, h, args, run))))
    }

    /** `retractall(Head)`: for a head whose name is an atom and whose
      * predicate is defined, refuses (the source throws a message) unless
      * every argument is an unbound variable, and otherwise leaves the
      * predicate defined with one empty fact table; anything else changes
      * nothing. */
    method Retractall(h: Heap, head: Term) returns (refused: bool)
      requires Consistent() && Valid(h)
      modifies this
      ensures Consistent()
      ensures var name := FunctorName(h, head);
        var args := FunctorArgs(h, head);
        refused <==> name.Sym? && PredicateKey(name.atom, |args|) in old(predicates) && RetractallRefuses(h, args)
      ensures var name := FunctorName(h, head);
        var args := FunctorArgs(h, head);
        if name.Sym? && PredicateKey(name.atom, |args|) in old(predicates) && !refused
        then predicates == old(predicates)[PredicateKey(name.atom, |args|) := Predicate(name.atom, |args|, [Facts([])])]
        else predicates == old(predicates)
    {
      var name := FunctorName(h, head);
      var args := FunctorArgs(h, head);
      if !name.Sym? {
        return false;
      }
      var key := PredicateKey(name.atom, |args|);
      if key !in predicates {
        return false;
      }
      var i := 0;
      while i < |args|
        invariant 0 <= i <= |args|
        invariant forall j | 0 <= j < i :: Deref(h, args[j]).Var?
      {
        if !Deref(h, args[i]).Var? {
          return true;
        }
        i := i + 1;
      }
      var p := Predicate(name.atom, |args|, [Facts([])]);
      WellFormedUpdate(predicates, key, p);
      predicates := predicates[key := p];
      refused := false;
    }

    /** `retractFact(name, args)`: `retractall` of the head `Functor.make`
      * builds, an atom when there are no arguments. */
    method RetractFact(h: Heap, name: Atom, args: seq<Term>) returns (refused: bool)
      requires Consistent() && Valid(h)
      modifies this
      ensures Consistent()
      ensures refused <==> PredicateKey(name, |args|) in old(predicates) && RetractallRefuses(h, args)
      ensures if PredicateKey(name, |args|) in old(predicates) && !refused
        then predicates == old(predicates)[PredicateKey(name, |args|) := Predicate(name, |args|, [Facts([])])]
        else predicates == old(predicates)
    {
      var head := if args == [] then Sym(name) else Compound(name, args);
      refused := Retractall(h, head);
    }

    /** `isDynamicCurrentPredicate(name, arity)`. */
    function IsDynamicCurrentPredicate(name: Atom, arity: nat): (r: bool)
      reads this
      ensures r <==> PredicateKey(name, arity) in predicates
    {
      PredicateKey(name, arity) in predicates
    }

    /** `abolish(Name/Arity)`: raises what `AbolishError` names, and
      * otherwise removes the predicate, whose later calls are then those of
      * an unknown predicate. */
    method Abolish(h: Heap, indicator: Term) returns (error: Option<Term>)
      requires Consistent() && Valid(h)
      modifies this
      ensures Consistent()
      ensures error == AbolishError(h, indicator)
      ensures error.Some? ==> predicates == old(predicates)
      ensures error.None? ==> var d := Deref(h, indicator);
        predicates == old(predicates) - {PredicateKey(Deref(h, d.args[0]).atom, Deref(h, d.args[1]).value as nat)}
    {
      error := AbolishError(h, indicator);
      if error.Some? {
        return;
      }
      var d := Deref(h, indicator);
      var key := PredicateKey(Deref(h, d.args[0]).atom, Deref(h, d.args[1]).value as nat);
      predicates := predicates - {key};
    }
  }

  /** After `retractall` empties a predicate it is still defined and
    * answers nothing. */
  lemma RetractedAnswersNothing(store: PredicateStore, flags: FlagTable, h: Heap, name: Atom, args: seq<Term>, run: RuleMatcher)
    requires store.Consistent() && flags.Settled()
    requires Valid(h) && forall j | 0 <= j < |args| :: InScope(h.next, args[j])
    requires PredicateKey(name, |args|) in store.predicates
    requires store.predicates[PredicateKey(name, |args|)].clauses == [Facts([])]
    ensures store.MatchDynamic(flags, h, name, args, run) == Ran([])
  {
    var key := PredicateKey(name, |args|);
    EntryFor(store.predicates, name, |args|);
    var s := ClauseSteps(Facts([]), |args|, h, args, run);
    assert MatchSolutions([], |args|, h, args, false) == [];
    assert s == [];
  }

  /** With the default flags, a predicate that is not defined (never
    * asserted, or abolished) raises existence_error(procedure, Name/Arity). */
  lemma UndefinedRaisesByDefault(store: PredicateStore, flags: FlagTable, h: Heap, name: Atom, args: seq<Term>, run: RuleMatcher)
    requires store.Consistent() && flags.Settled() && flags.values == Defaults()
    requires Valid(h) && forall j | 0 <= j < |args| :: InScope(h.next, args[j])
    requires PredicateKey(name, |args|) !in store.predicates
    ensures store.MatchDynamic(flags, h, name, args, run) ==
      Unknown(UnknownResult(Raised(ExistenceError("procedure", Indicator(Sym(name), |args|))), false))
  {
    DefaultUnknownRaises(flags, Sym(name), Int(|args|));
  }
}
