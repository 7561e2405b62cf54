// `ClauseHeadAndBody`: what a compiled clause keeps of its source so that
// `clause/2` can hand back its head and body.
module ClauseRules {
  import opened Wrappers
  import opened Atoms
  import opened Terms
  import opened Equality
  import opened Unification
  import opened Variables
  import opened Copying

  /** `Head :- Body`. */
  function Rule(head: Term, body: Term): Term
  {
    Compound(RULE, [head, body])
  }

  /** Terms in scope of one heap stay in scope of a later one, and so does a
    * copy whose variables were drawn from it. */
  lemma RuleInScope(n: nat, n': nat, head: Term, body: Term, copy: Term)
    requires n <= n' && InScope(n, head) && InScope(n, body)
    requires forall v :: v in VarList(copy) ==> v < n'
    ensures InScope(n', Rule(head, body)) && InScope(n', copy)
  {
    InScopeMonotone(n, n', head);
    InScopeMonotone(n, n', body);
    InScopeArgsAll(n', [head, body]);
    VarListInScope(n', copy);
  }

  class ClauseHeadAndBody {
    /** `_Head` and `_Body`, `None` until `setHeadAndBody` is called. */
    var head: Option<Term>
    var body: Option<Term>

    constructor ()
      ensures head == None && body == None
    {
      head := None;
      body := None;
    }

    /** `setHeadAndBody`: stores both. */
    method SetHeadAndBody(newHead: Term, newBody: Term)
      modifies this
      ensures head == Some(newHead) && body == Some(newBody)
    {
      head := Some(newHead);
      body := Some(newBody);
    }

    /** Whether `clause` goes on to copy the rule: both parts are set and
      * the query head unifies with the stored head. */
    predicate Matches(g: Heap, queryHead: Term)
      requires Valid(g) && InScope(g.next, queryHead)
      requires head.Some? ==> InScope(g.next, head.value)
      reads this
    {
      head.Some? && body.Some? && Unify(g, queryHead, head.value).Some?
    }

    /** `clause(Head, Body)`: fails when the head or the body was never set
      * or the query head does not unify with the stored head (that trial
      * binds nothing); otherwise unifies `Head :- Body` with a fresh copy of
      * the stored rule, so the stored rule's own variables are never
      * bound. */
    method Clause(g: Heap, queryHead: Term, queryBody: Term) returns (g': Heap, copy: Option<Term>, solutions: seq<Heap>, ghost m: map<nat, nat>)
      requires Valid(g) && InScope(g.next, queryHead) && InScope(g.next, queryBody)
      requires head.Some? ==> InScope(g.next, head.value)
      requires body.Some? ==> InScope(g.next, body.value)
      ensures copy.Some? <==> Matches(g, queryHead)
      ensures copy.None? ==> g' == g && solutions == []
      ensures copy.Some? ==>
        Valid(g') && SameCells(g, g') && g.next <= g'.next &&
        Copied(g, Rule(head.value, body.value), copy.value, m) && Injective(m) &&
        (forall v :: v in VarList(copy.value) ==> g.next <= v < g'.next && v !in g'.cells) &&
        (RuleInScope(g.next, g'.next, queryHead, queryBody, copy.value);
         solutions == UnifySolutions(g', Rule(queryHead, queryBody), copy.value))
      ensures forall k | 0 <= k < |solutions| ::
        (copy.Some? && Valid(solutions[k]) &&
         TermEqual(solutions[k], Rule(queryHead, queryBody), copy.value))
    {
      if head.None? || body.None? {
        return g, None, [], map[];
      }
      var trial := Unify(g, queryHead, head.value);
      if trial.None? {
        return g, None, [], map[];
      }
      InScopeArgsAll(g.next, [head.value, body.value]);
      var c;
      g', c, m := CopyTerm(g, Rule(head.value, body.value));
      RuleInScope(g.next, g'.next, queryHead, queryBody, c);
      copy := Some(c);
      solutions := UnifySolutions(g', Rule(queryHead, queryBody), c);
    }

    /** `match` is an empty stub: the compiled subclass supplies it. */
    method Match(args: seq<Term>) returns (solutions: seq<Heap>)
      ensures solutions == []
    {
      solutions := [];
    }
  }
}
