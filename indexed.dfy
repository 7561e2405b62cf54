// `IndexedAnswers`: the ground facts of one dynamic predicate. The answers
// are kept in order; an index for a pattern of indexable argument
// positions is built the first time `match` needs it, extended as answers
// are appended, and dropped when an answer is prepended or retracted.
module Indexing {
  import opened Wrappers
  import opened Atoms
  import opened Terms
  import opened Equality
  import opened Unification
  import opened Variables
  import opened Copying
  import opened Errors
  import opened Builtins

  /** Only the first 31 argument positions take part in an index, so that
    * a signature fits the positive range of a 32-bit integer. */
  const MAX_INDEX_ARGS := 31

  /** A stored answer: one ground value per argument. */
  type Answer = seq<Term>

  /** `indexArgs`: an index value or null per argument position. */
  type Key = seq<Option<Term>>

  predicate Stored(arity: nat, c: Answer)
  {
    |c| == arity && forall i | 0 <= i < |c| :: IsGroundValue(c[i])
  }

  // ---------------------------------------------------------------------
  // Keys.

  /** `getIndexValue`: atoms and strings serve as index values; numbers,
    * compounds and variables do not. */
  function IndexValue(d: Term): (r: Option<Term>)
    ensures r.Some? <==> d.Sym? || d.Str?
    ensures r.Some? ==> r.value == d
  {
    if d.Sym? || d.Str? then Some(d) else None
  }

  /** The pattern of a key: the positions whose values it fixes. */
  function Pattern(key: Key): (m: seq<bool>)
    ensures |m| == |key| && forall i | 0 <= i < |key| :: m[i] == key[i].Some?
  {
    seq(|key|, i requires 0 <= i < |key| => key[i].Some?)
  }

  /** The key `match` looks answers up under: the index value of each of
    * the first 31 dereferenced arguments, and null beyond them. */
  function ArgKey(h: Heap, args: seq<Term>): (key: Key)
    requires Valid(h)
    ensures |key| == |args|
  {
    seq(|args|, i requires 0 <= i < |args| =>
      if i < MAX_INDEX_ARGS then IndexValue(Deref(h, args[i])) else None)
  }

  /** The key `indexAnswerForSignature` files an answer under for the
    * pattern m: its values at the positions m marks, or nothing when one of
    * them is no index value (every position from 31 on counts as none). */
  function AnswerKey(c: Answer, m: seq<bool>): (r: Option<Key>)
    requires |m| == |c|
    ensures r.Some? ==> Pattern(r.value) == m
    ensures r.Some? <==> forall i | 0 <= i < |c| && m[i] :: i < MAX_INDEX_ARGS && IndexValue(c[i]).Some?
  {
    if forall i | 0 <= i < |c| && m[i] :: i < MAX_INDEX_ARGS && IndexValue(c[i]).Some? then
      Some(seq(|c|, i requires 0 <= i < |c| => if m[i] then IndexValue(c[i]) else None))
    else None
  }

  /** The answers the key selects: those an index of the key's pattern
    * files under that key. */
  predicate Selects(key: Key, c: Answer)
  {
    |c| == |key| && AnswerKey(c, Pattern(key)) == Some(key)
  }

  /** A key selects exactly the answers that hold its values at the
    * positions it fixes. */
  lemma SelectsMeans(key: Key, c: Answer)
    requires |c| == |key| && forall i | 0 <= i < |key| && key[i].Some? :: i < MAX_INDEX_ARGS
    ensures Selects(key, c) <==>
      forall i | 0 <= i < |key| && key[i].Some? :: (c[i].Sym? || c[i].Str?) && c[i] == key[i].value
  {
    var m := Pattern(key);
    if forall i | 0 <= i < |key| && key[i].Some? :: (c[i].Sym? || c[i].Str?) && c[i] == key[i].value {
      assert forall i | 0 <= i < |c| && m[i] :: i < MAX_INDEX_ARGS && IndexValue(c[i]).Some?;
      var r := AnswerKey(c, m);
      assert r.value == key;
    }
    if Selects(key, c) {
      var r := AnswerKey(c, m).value;
      assert forall i | 0 <= i < |key| && key[i].Some? :: r[i] == IndexValue(c[i]);
    }
  }

  /** The answers of `answers` the key selects, in their order. */
  function Filter(answers: seq<Answer>, key: Key): (r: seq<Answer>)
    ensures |r| <= |answers|
    ensures forall c | c in r :: c in answers && Selects(key, c)
  {
    if answers == [] then [] else
    Filter(answers[..|answers| - 1], key) + (if Selects(key, answers[|answers| - 1]) then [answers[|answers| - 1]] else [])
  }

  lemma FilterSnoc(answers: seq<Answer>, c: Answer, key: Key)
    ensures Filter(answers + [c], key) == Filter(answers, key) + (if Selects(key, c) then [c] else [])
  {
    assert (answers + [c])[..|answers|] == answers;
  }

  /** Every selected answer is kept. */
  lemma {:induction false} FilterKeeps(answers: seq<Answer>, key: Key, c: Answer)
    requires c in answers && Selects(key, c)
    ensures c in Filter(answers, key)
  {
    var last := answers[|answers| - 1];
    if c != last {
      assert c in answers[..|answers| - 1];
      FilterKeeps(answers[..|answers| - 1], key, c);
    }
  }

  /** What an index of the key's pattern holds under the key: the answers
    * it selects, in order, or no bucket at all when there are none. */
  function Expected(answers: seq<Answer>, key: Key): Option<seq<Answer>>
  {
    if Filter(answers, key) == [] then None else Some(Filter(answers, key))
  }

  /** The bucket's answers, or none for a missing bucket. */
  function Contents(b: Option<seq<Answer>>): seq<Answer>
  {
    if b.Some? then b.value else []
  }

  lemma ExpectedSnoc(answers: seq<Answer>, c: Answer, key: Key)
    ensures Expected(answers + [c], key) ==
      if Selects(key, c) then Some(Contents(Expected(answers, key)) + [c]) else Expected(answers, key)
  {
    FilterSnoc(answers, c, key);
    var f := Filter(answers, key);
    assert Contents(Expected(answers, key)) == f;
    if Selects(key, c) {
      assert Filter(answers + [c], key) == f + [c];
      assert (f + [c])[|f|] == c;
    } else {
      assert f + [] == f;
    }
  }

  // ---------------------------------------------------------------------
  // The index table.

  /** A bucket: the key it was made for and its answers. */
  datatype Entry = Entry(key: Key, answers: seq<Answer>)

  /** How a key element reads in the property name. */
  function ElementText(e: Option<Term>): string
  {
    match e
    case Some(Sym(a)) => a.name
    case Some(Str(s)) => s
    case _ => ""
  }

  /** The property name `_indexedAnswers[indexArgs]` uses: the array's
    * `toString`, which joins the elements with commas, writes null as
    * nothing and an atom as its name. Different keys can share a name. */
  function KeyText(key: Key): string
  {
    if key == [] then ""
    else if |key| == 1 then ElementText(key[0])
    else ElementText(key[0]) + "," + KeyText(key[1..])
  }

  /** The first entry made for exactly this key. */
  function FirstIndex(entries: seq<Entry>, key: Key): (r: Option<nat>)
    ensures r.Some? ==> (r.value < |entries| && entries[r.value].key == key &&
      forall j | 0 <= j < r.value :: entries[j].key != key)
    ensures r.None? ==> forall j | 0 <= j < |entries| :: entries[j].key != key
  {
    if entries == [] then None
    else if entries[0].key == key then Some(0)
    else match FirstIndex(entries[1..], key)
      case None => None
      case Some(j) => Some(j + 1)
  }

  /** Two lists of entries made for the same keys in the same order find the
    * same entry for every key. */
  lemma FirstIndexOfSameKeys(e1: seq<Entry>, e2: seq<Entry>, key: Key)
    requires |e1| == |e2| && forall j | 0 <= j < |e1| :: e1[j].key == e2[j].key
    ensures FirstIndex(e1, key) == FirstIndex(e2, key)
  {
    var r1 := FirstIndex(e1, key);
    var r2 := FirstIndex(e2, key);
    if r1.Some? && r2.Some? {
      assert !(r1.value < r2.value) && !(r2.value < r1.value);
    }
  }

  /** The answers of the first entry made for exactly this key. */
  function EntryAnswers(entries: seq<Entry>, key: Key): (r: Option<seq<Answer>>)
    ensures r.Some? <==> exists j :: 0 <= j < |entries| && entries[j].key == key
    ensures r.Some? ==> exists j :: (0 <= j < |entries| && entries[j].key == key && r.value == entries[j].answers)
  {
    match FirstIndex(entries, key)
    case None => None
    case Some(j) => Some(entries[j].answers)
  }

  /** `get`: the answers of the entry whose key is element-wise equal to
    * the key, among the entries filed under the key's property name. */
  function Lookup(indexed: map<string, seq<Entry>>, key: Key): (r: Option<seq<Answer>>)
    ensures r.Some? ==> KeyText(key) in indexed
    ensures r.Some? ==> exists j :: (0 <= j < |indexed[KeyText(key)]| &&
      indexed[KeyText(key)][j].key == key && r.value == indexed[KeyText(key)][j].answers)
  {
    if KeyText(key) !in indexed then None else EntryAnswers(indexed[KeyText(key)], key)
  }

  /** `add`: appends the answer to the key's bucket, making the bucket, and
    * the list of buckets under the key's property name, when missing. */
  function AddToIndex(indexed: map<string, seq<Entry>>, key: Key, c: Answer): map<string, seq<Entry>>
  {
    var entries := if KeyText(key) in indexed then indexed[KeyText(key)] else [];
    indexed[KeyText(key) := AddToEntries(entries, key, c)]
  }

  function AddToEntries(entries: seq<Entry>, key: Key, c: Answer): seq<Entry>
  {
    match FirstIndex(entries, key)
    case Some(j) => entries[j := Entry(key, entries[j].answers + [c])]
    case None => entries + [Entry(key, [c])]
  }

  lemma EntriesAfterAdd(entries: seq<Entry>, key: Key, c: Answer, k: Key)
    ensures EntryAnswers(AddToEntries(entries, key, c), k) ==
      if k == key then Some(Contents(EntryAnswers(entries, key)) + [c]) else EntryAnswers(entries, k)
  {
    var added := AddToEntries(entries, key, c);
    match FirstIndex(entries, key)
    case Some(j) =>
      FirstIndexOfSameKeys(entries, added, k);
    case None =>
      if k != key {
        FirstIndexOfSameKeys(entries, added[..|entries|], k);
        assert added[..|entries|] == entries;
      } else {
        assert added[|entries|].key == key;
        var r := FirstIndex(added, key);
        assert r.Some? && r.value == |entries|;
        assert [] + [c] == [c];
      }
  }

  /** Adding under one key extends that key's bucket by the answer and
    * leaves every other key's bucket as it was, even one whose key shares
    * the property name. */
  lemma LookupAfterAdd(indexed: map<string, seq<Entry>>, key: Key, c: Answer, k: Key)
    ensures Lookup(AddToIndex(indexed, key, c), k) ==
      if k == key then Some(Contents(Lookup(indexed, key)) + [c]) else Lookup(indexed, k)
  {
    var entries := if KeyText(key) in indexed then indexed[KeyText(key)] else [];
    EntriesAfterAdd(entries, key, c, k);
    if KeyText(k) == KeyText(key) {
      assert Lookup(AddToIndex(indexed, key, c), k) == EntryAnswers(AddToEntries(entries, key, c), k);
      assert Lookup(indexed, k) == EntryAnswers(entries, k);
    }
  }

  /** Two different keys with the same property name: `["a,b", null]` and
    * `["a", "b,"]` both read `a,b,`. The lookup still tells them apart. */
  lemma KeyTextCollides(indexed: map<string, seq<Entry>>, c: Answer)
    ensures KeyText([Some(Str("a,b")), None]) == KeyText([Some(Str("a")), Some(Str("b,"))])
    ensures Lookup(AddToIndex(indexed, [Some(Str("a,b")), None], c), [Some(Str("a")), Some(Str("b,"))]) ==
      Lookup(indexed, [Some(Str("a")), Some(Str("b,"))])
  {
    LookupAfterAdd(indexed, [Some(Str("a,b")), None], c, [Some(Str("a")), Some(Str("b,"))]);
  }

  /** The index after `indexAnswerForSignature(c, m)`. */
  function IndexAnswer(indexed: map<string, seq<Entry>>, c: Answer, m: seq<bool>): map<string, seq<Entry>>
    requires |m| == |c|
  {
    match AnswerKey(c, m)
    case Some(k) => AddToIndex(indexed, k, c)
    case None => indexed
  }

  /** Indexing an answer for a pattern touches only the bucket of its own
    * key, which has that pattern. */
  lemma LookupAfterIndexing(indexed: map<string, seq<Entry>>, c: Answer, m: seq<bool>, k: Key)
    requires |m| == |c|
    ensures Pattern(k) != m ==> Lookup(IndexAnswer(indexed, c, m), k) == Lookup(indexed, k)
    ensures Pattern(k) == m ==> (Lookup(IndexAnswer(indexed, c, m), k) ==
      if Selects(k, c) then Some(Contents(Lookup(indexed, k)) + [c]) else Lookup(indexed, k))
  {
    match AnswerKey(c, m)
    case Some(k0) => LookupAfterAdd(indexed, k0, c, k);
    case None =>
  }

  // ---------------------------------------------------------------------
  // Matching.

  /** Whether no argument supplied an index value (signature 0). */
  predicate NoneIndexed(key: Key)
  {
    forall i | 0 <= i < |key| :: key[i].None?
  }

  /** Whether every argument supplied one (`gotAllIndexArgs`). */
  predicate AllIndexed(key: Key)
  {
    forall i | 0 <= i < |key| :: key[i].Some?
  }

  lemma KeySnoc(key: Key, v: Option<Term>)
    ensures AllIndexed(key + [v]) == (AllIndexed(key) && v.Some?)
    ensures NoneIndexed(key + [v]) == (NoneIndexed(key) && v.None?)
  {
    assert forall i | 0 <= i < |key| :: (key + [v])[i] == key[i];
    assert (key + [v])[|key|] == v;
  }

  /** Unifies the arguments left unindexed with the answer's values, from
    * position i on, each in the heap the previous one left. */
  function UnifyFrom(h: Heap, args: seq<Term>, c: Answer, key: Key, i: nat): (r: Option<Heap>)
    requires Valid(h) && |args| == |c| == |key| && i <= |args|
    requires forall j | 0 <= j < |args| :: InScope(h.next, args[j]) && InScope(h.next, c[j])
    ensures r.Some? ==> Valid(r.value) && r.value.next == h.next && Extends(h, r.value)
    decreases |args| - i
  {
    if i == |args| then Some(h)
    else if key[i].Some? then UnifyFrom(h, args, c, key, i + 1)
    else match Unify(h, args[i], c[i])
      case None => None
      case Some(h1) => UnifyFrom(h1, args, c, key, i + 1)
  }

  /** The solutions the loop over the candidates yields. */
  function Candidates(h: Heap, args: seq<Term>, key: Key, cands: seq<Answer>): (s: seq<Heap>)
    requires Valid(h) && |args| == |key|
    requires forall j | 0 <= j < |args| :: InScope(h.next, args[j])
    requires forall c | c in cands :: |c| == |args| && forall j | 0 <= j < |c| :: InScope(h.next, c[j])
    ensures forall k | 0 <= k < |s| :: Valid(s[k]) && s[k].next == h.next && Extends(h, s[k])
  {
    if cands == [] then [] else
    Candidates(h, args, key, cands[..|cands| - 1]) +
      match UnifyFrom(h, args, cands[|cands| - 1], key, 0) case None => [] case Some(s) => [s]
  }

  lemma CandidatesSnoc(h: Heap, args: seq<Term>, key: Key, cands: seq<Answer>, c: Answer)
    requires Valid(h) && |args| == |key|
    requires forall j | 0 <= j < |args| :: InScope(h.next, args[j])
    requires forall d | d in cands + [c] :: |d| == |args| && forall j | 0 <= j < |d| :: InScope(h.next, d[j])
    ensures Candidates(h, args, key, cands + [c]) ==
      Candidates(h, args, key, cands) + match UnifyFrom(h, args, c, key, 0) case None => [] case Some(s) => [s]
  {
    assert (cands + [c])[..|cands|] == cands;
  }

  /** A ground value is in scope for any heap. */
  lemma GroundInScope(n: nat, c: Term)
    requires IsGroundValue(c)
    ensures InScope(n, c)
  {
    GroundValueHasNoVariables(c);
    VarListInScope(n, c);
  }

  lemma StoredInScope(n: nat, arity: nat, answers: seq<Answer>)
    requires forall c | c in answers :: Stored(arity, c)
    ensures forall c | c in answers :: forall j | 0 <= j < |c| :: InScope(n, c[j])
  {
    forall c, j | c in answers && 0 <= j < |c| ensures InScope(n, c[j]) {
      GroundInScope(n, c[j]);
    }
  }

  /** `match(args)` over the answers, in the source's steps: the wrong
    * number of arguments yields nothing; with no index value the candidates
    * are all answers, otherwise those the key selects, and no candidate
    * means no solution; when every argument supplied an index value there
    * is nothing to bind and the match succeeds once; otherwise each
    * candidate whose remaining positions unify yields one solution, in
    * stored order. `vacuous` says whether the one success of the all-indexed
    * case is given even without a candidate, which only makes a difference
    * for arity 0 (see `Findings`). */
  function MatchSolutions(answers: seq<Answer>, arity: nat, h: Heap, args: seq<Term>, vacuous: bool): (s: seq<Heap>)
    requires Valid(h) && forall j | 0 <= j < |args| :: InScope(h.next, args[j])
    requires forall c | c in answers :: Stored(arity, c)
  {
    if |args| != arity then [] else
    var key := ArgKey(h, args);
    var cands := if NoneIndexed(key) then answers else Filter(answers, key);
    if !NoneIndexed(key) && cands == [] then []
    else if AllIndexed(key) then (if vacuous || cands != [] then [h] else [])
    else
      StoredInScope(h.next, arity, answers);
      Candidates(h, args, key, cands)
  }

  // ---------------------------------------------------------------------
  // The index invariant.

  /** Every bucket belongs to a pattern whose index has been built. */
  ghost predicate IndexOnly(indexed: map<string, seq<Entry>>, pats: set<seq<bool>>)
  {
    forall k :: Lookup(indexed, k).Some? ==> Pattern(k) in pats
  }

  /** For every built pattern, each key's bucket holds exactly the answers
    * the key selects, in stored order. */
  ghost predicate IndexAgrees(indexed: map<string, seq<Entry>>, pats: set<seq<bool>>, answers: seq<Answer>)
  {
    forall k | Pattern(k) in pats :: Lookup(indexed, k) == Expected(answers, k)
  }

  /** Indexing one more answer for the pattern m keeps m's buckets equal to
    * the selections of the longer list of answers and changes no other
    * pattern's bucket. */
  lemma IndexingStep(indexed: map<string, seq<Entry>>, c: Answer, m: seq<bool>, before: seq<Answer>)
    requires |m| == |c|
    requires forall k | Pattern(k) == m :: Lookup(indexed, k) == Expected(before, k)
    ensures forall k | Pattern(k) == m :: Lookup(IndexAnswer(indexed, c, m), k) == Expected(before + [c], k)
    ensures forall k | Pattern(k) != m :: Lookup(IndexAnswer(indexed, c, m), k) == Lookup(indexed, k)
  {
    forall k ensures Pattern(k) == m ==> Lookup(IndexAnswer(indexed, c, m), k) == Expected(before + [c], k) {
      LookupAfterIndexing(indexed, c, m, k);
      ExpectedSnoc(before, c, k);
    }
    forall k ensures Pattern(k) != m ==> Lookup(IndexAnswer(indexed, c, m), k) == Lookup(indexed, k) {
      LookupAfterIndexing(indexed, c, m, k);
    }
  }

  /** Indexing an answer for a pattern not yet marked built keeps the
    * built indexes as they were. */
  lemma PreservedByIndexing(indexed: map<string, seq<Entry>>, c: Answer, m: seq<bool>, pats: set<seq<bool>>,
                            answers: seq<Answer>, before: seq<Answer>)
    requires |m| == |c| && m !in pats
    requires IndexOnly(indexed, pats + {m}) && IndexAgrees(indexed, pats, answers)
    requires forall k | Pattern(k) == m :: Lookup(indexed, k) == Expected(before, k)
    ensures IndexOnly(IndexAnswer(indexed, c, m), pats + {m}) && IndexAgrees(IndexAnswer(indexed, c, m), pats, answers)
    ensures forall k | Pattern(k) == m :: Lookup(IndexAnswer(indexed, c, m), k) == Expected(before + [c], k)
  {
    IndexingStep(indexed, c, m, before);
  }

  /** Appending an answer: extending the index of one more built pattern
    * moves it from agreeing with the old answers to agreeing with the new
    * ones. */
  lemma AppendIndexing(indexed: map<string, seq<Entry>>, c: Answer, m: seq<bool>, pats: set<seq<bool>>,
                       todo: set<seq<bool>>, previous: seq<Answer>)
    requires |m| == |c| && m in todo && todo <= pats
    requires IndexOnly(indexed, pats)
    requires IndexAgrees(indexed, pats - todo, previous + [c]) && IndexAgrees(indexed, todo, previous)
    ensures IndexOnly(IndexAnswer(indexed, c, m), pats)
    ensures IndexAgrees(IndexAnswer(indexed, c, m), pats - (todo - {m}), previous + [c])
    ensures IndexAgrees(IndexAnswer(indexed, c, m), todo - {m}, previous)
  {
    IndexingStep(indexed, c, m, previous);
  }

  /** `makeCopy` of a ground term is its value. */
  lemma {:induction false} GroundResolve(h: Heap, t: Term)
    requires Valid(h) && Ground(h, t)
    ensures IsGroundValue(Resolve(h, t))
    decreases Height(h, t), Size(t)
  {
    var d := Deref(h, t);
    if d.Compound? {
      ArgsBelow(h, d.args);
      forall i | 0 <= i < |d.args| ensures IsGroundValue(Resolve(h, d.args[i])) {
        GroundResolve(h, d.args[i]);
      }
      assert forall i | 0 <= i < |d.args| :: Resolve(h, t).args[i] == Resolve(h, d.args[i]);
    }
  }

  /** The copy `addOrPrependAnswer` stores: each value copied. */
  function Copies(h: Heap, answer: seq<Term>): (c: Answer)
    requires Valid(h)
    ensures |c| == |answer|
  {
    seq(|answer|, i requires 0 <= i < |answer| => Resolve(h, answer[i]))
  }

  /** What `addOrPrependAnswer` did with an answer: stored it, ignored it
    * for having the wrong length, or refused it with a thrown message for
    * holding unbound variables. */
  datatype AddResult = Added | WrongLength | NotGround

  /** `ArrayEquals`: equal length and equal elements. */
  method ArrayEquals<T(==)>(a1: seq<T>, a2: seq<T>) returns (r: bool)
    ensures r <==> a1 == a2
  {
    if |a1| != |a2| {
      return false;
    }
    var i := 0;
    while i < |a1|
      invariant 0 <= i <= |a1| && a1[..i] == a2[..i]
    {
      if a1[i] != a2[i] {
        return false;
      }
      assert a1[..i + 1] == a1[..i] + [a1[i]] && a2[..i + 1] == a2[..i] + [a2[i]];
      i := i + 1;
    }
    assert a1 == a1[..i] && a2 == a2[..i];
    return true;
  }

  /** The search `get` makes through the entries under one property name. */
  method FindEntry(entries: seq<Entry>, key: Key) returns (j: int)
    ensures j == match FirstIndex(entries, key) case Some(x) => x case None => -1
  {
    var n := 0;
    while n < |entries|
      invariant 0 <= n <= |entries|
      invariant forall x | 0 <= x < n :: entries[x].key != key
    {
      var same := ArrayEquals(entries[n].key, key);
      if same {
        var r := FirstIndex(entries, key);
        assert r.Some? && !(r.value < n) && !(n < r.value);
        return n;
      }
      n := n + 1;
    }
    return -1;
  }

  // ---------------------------------------------------------------------
  // What a match means.

  /** In the heap a candidate's unification leaves, every position it
    * unified holds equal terms. */
  lemma {:induction false} UnifyFromSound(h: Heap, args: seq<Term>, c: Answer, key: Key, i: nat)
    requires Valid(h) && |args| == |c| == |key| && i <= |args|
    requires forall j | 0 <= j < |args| :: InScope(h.next, args[j]) && InScope(h.next, c[j])
    requires UnifyFrom(h, args, c, key, i).Some?
    ensures forall j | i <= j < |args| && key[j].None? :: TermEqual(UnifyFrom(h, args, c, key, i).value, args[j], c[j])
    decreases |args| - i
  {
    if i < |args| {
      var r := UnifyFrom(h, args, c, key, i).value;
      if key[i].Some? {
        UnifyFromSound(h, args, c, key, i + 1);
      } else {
        var h1 := Unify(h, args[i], c[i]).value;
        UnifySound(h, args[i], c[i]);
        UnifyFromSound(h1, args, c, key, i + 1);
        TermEqualMonotone(h1, r, args[i], c[i]);
      }
    }
  }

  /** A position the key fixes holds, in any heap that extends h, an
    * argument equal to the selected answer's value. */
  lemma IndexedPositionEqual(h: Heap, s: Heap, args: seq<Term>, c: Answer, i: nat)
    requires Valid(h) && Valid(s) && Extends(h, s) && i < |args| == |c|
    requires Selects(ArgKey(h, args), c) && ArgKey(h, args)[i].Some?
    ensures TermEqual(s, args[i], c[i])
  {
    var key := ArgKey(h, args);
    assert i < MAX_INDEX_ARGS;
    assert forall j | 0 <= j < |key| && key[j].Some? :: j < MAX_INDEX_ARGS;
    SelectsMeans(key, c);
    assert c[i] == Deref(h, args[i]);
    TermEqualDeref(h, args[i], c[i]);
    TermEqualReflexive(h, c[i]);
    TermEqualMonotone(h, s, args[i], c[i]);
  }

  /** Every solution of a candidate equates every argument with the
    * candidate's value. */
  lemma {:induction false} CandidatesSound(h: Heap, args: seq<Term>, cands: seq<Answer>, s: Heap)
    requires Valid(h) && forall j | 0 <= j < |args| :: InScope(h.next, args[j])
    requires forall c | c in cands :: |c| == |args| && Selects(ArgKey(h, args), c) && forall j | 0 <= j < |c| :: InScope(h.next, c[j])
    requires s in Candidates(h, args, ArgKey(h, args), cands)
    ensures exists c | c in cands :: forall i | 0 <= i < |args| :: TermEqual(s, args[i], c[i])
    decreases |cands|
  {
    var key := ArgKey(h, args);
    var last := cands[|cands| - 1];
    var init := cands[..|cands| - 1];
    if s in Candidates(h, args, key, init) {
      CandidatesSound(h, args, init, s);
      var c :| c in init && forall i | 0 <= i < |args| :: TermEqual(s, args[i], c[i]);
      assert c in cands;
    } else {
      assert UnifyFrom(h, args, last, key, 0) == Some(s);
      UnifyFromSound(h, args, last, key, 0);
      forall i | 0 <= i < |args| ensures TermEqual(s, args[i], last[i]) {
        if key[i].Some? {
          IndexedPositionEqual(h, s, args, last, i);
        }
      }
    }
  }

  /** `match` is sound: each solution comes with a stored answer whose every
    * value equals the matching argument in that solution. */
  lemma MatchSound(answers: seq<Answer>, arity: nat, h: Heap, args: seq<Term>, s: Heap)
    requires Valid(h) && forall j | 0 <= j < |args| :: InScope(h.next, args[j])
    requires forall c | c in answers :: Stored(arity, c)
    requires s in MatchSolutions(answers, arity, h, args, false)
    ensures Valid(s) && Extends(h, s) && |args| == arity
    ensures exists c | c in answers :: forall i | 0 <= i < |args| :: TermEqual(s, args[i], c[i])
  {
    var key := ArgKey(h, args);
    StoredInScope(h.next, arity, answers);
    if |args| == 0 {
      assert s == h && answers != [];
      assert answers[0] in answers;
    } else if NoneIndexed(key) {
      assert key[0].None?;
      forall c | c in answers ensures Selects(key, c) {
        SelectsMeans(key, c);
      }
      CandidatesSound(h, args, answers, s);
    } else {
      var cands := Filter(answers, key);
      if AllIndexed(key) {
        assert s == h && cands != [];
        var c := cands[0];
        assert c in cands;
        forall i | 0 <= i < |args| ensures TermEqual(s, args[i], c[i]) {
          IndexedPositionEqual(h, s, args, c, i);
        }
      } else {
        CandidatesSound(h, args, cands, s);
      }
    }
  }

  /** Every answer the key selects whose open positions unify yields that
    * solution: the index loses nothing. */
  lemma {:induction false} CandidatesComplete(h: Heap, args: seq<Term>, key: Key, cands: seq<Answer>, c: Answer)
    requires Valid(h) && |args| == |key|
    requires forall j | 0 <= j < |args| :: InScope(h.next, args[j])
    requires forall d | d in cands :: |d| == |args| && forall j | 0 <= j < |d| :: InScope(h.next, d[j])
    requires c in cands && UnifyFrom(h, args, c, key, 0).Some?
    ensures UnifyFrom(h, args, c, key, 0).value in Candidates(h, args, key, cands)
    decreases |cands|
  {
    if c != cands[|cands| - 1] {
      assert c in cands[..|cands| - 1];
      CandidatesComplete(h, args, key, cands[..|cands| - 1], c);
    }
  }

  /** `match` is complete: a stored answer the key selects (every
    * supplied index value equals the answer's value there) whose remaining
    * positions unify gives a solution, and when every argument supplied an
    * index value the match succeeds. */
  lemma MatchComplete(answers: seq<Answer>, arity: nat, h: Heap, args: seq<Term>, c: Answer)
    requires Valid(h) && forall j | 0 <= j < |args| :: InScope(h.next, args[j])
    requires forall d | d in answers :: Stored(arity, d)
    requires c in answers && |args| == arity && Selects(ArgKey(h, args), c)
    ensures AllIndexed(ArgKey(h, args)) ==> MatchSolutions(answers, arity, h, args, false) == [h]
    ensures !AllIndexed(ArgKey(h, args)) ==> (StoredInScope(h.next, arity, answers);
      UnifyFrom(h, args, c, ArgKey(h, args), 0).Some? ==>
        UnifyFrom(h, args, c, ArgKey(h, args), 0).value in MatchSolutions(answers, arity, h, args, false))
  {
    var key := ArgKey(h, args);
    StoredInScope(h.next, arity, answers);
    FilterKeeps(answers, key, c);
    if !AllIndexed(key) && UnifyFrom(h, args, c, key, 0).Some? {
      if NoneIndexed(key) {
        CandidatesComplete(h, args, key, answers, c);
      } else {
        CandidatesComplete(h, args, key, Filter(answers, key), c);
      }
    }
  }

  // ---------------------------------------------------------------------
  // `clause` and `retract`.

  /** The solutions `unifyArrays(args, answer)` yields. */
  function AnswerSolutions(h: Heap, args: seq<Term>, c: Answer): (s: seq<Heap>)
    requires Valid(h) && InScopeArgs(h.next, args) && InScopeArgs(h.next, c)
    ensures |s| <= 1 && (s != [] ==> |args| == |c|)
    ensures forall k | 0 <= k < |s| :: Valid(s[k]) && s[k].next == h.next && Extends(h, s[k])
    ensures forall k, i | 0 <= k < |s| && 0 <= i < |args| :: TermEqual(s[k], args[i], c[i])
  {
    if |args| != |c| then [] else
    match UnifyArgs(h, args, c)
    case None => []
    case Some(h1) => UnifyArgsSound(h, args, c); [h1]
  }

  /** The answers' solutions, in the answers' order. */
  function ClauseMatches(h: Heap, args: seq<Term>, answers: seq<Answer>): (s: seq<Heap>)
    requires Valid(h) && InScopeArgs(h.next, args)
    requires forall c | c in answers :: InScopeArgs(h.next, c)
    ensures forall k | 0 <= k < |s| :: Valid(s[k]) && s[k].next == h.next && Extends(h, s[k])
  {
    if answers == [] then []
    else ClauseMatches(h, args, answers[..|answers| - 1]) + AnswerSolutions(h, args, answers[|answers| - 1])
  }

  /** Each solution of `clause` equates the head's arguments with the
    * values of one stored answer of the same length. */
  lemma {:induction false} ClauseMatchesSound(h: Heap, args: seq<Term>, answers: seq<Answer>, k: nat)
    requires Valid(h) && InScopeArgs(h.next, args)
    requires forall c | c in answers :: InScopeArgs(h.next, c)
    requires k < |ClauseMatches(h, args, answers)|
    ensures exists c | c in answers :: (|c| == |args| &&
      forall i | 0 <= i < |args| :: TermEqual(ClauseMatches(h, args, answers)[k], args[i], c[i]))
    decreases |answers|
  {
    var init := answers[..|answers| - 1];
    var last := answers[|answers| - 1];
    var s1 := ClauseMatches(h, args, init);
    if k < |s1| {
      ClauseMatchesSound(h, args, init, k);
      var c :| c in init && |c| == |args| && forall i | 0 <= i < |args| :: TermEqual(s1[k], args[i], c[i]);
      assert c in answers;
    } else {
      assert last in answers;
    }
  }

  lemma ClauseMatchesSnoc(h: Heap, args: seq<Term>, answers: seq<Answer>, c: Answer)
    requires Valid(h) && InScopeArgs(h.next, args)
    requires forall d | d in answers + [c] :: InScopeArgs(h.next, d)
    ensures ClauseMatches(h, args, answers + [c]) == ClauseMatches(h, args, answers) + AnswerSolutions(h, args, c)
  {
    assert (answers + [c])[..|answers|] == answers;
  }

  /** A stored answer is in scope of any heap. */
  lemma StoredArgsInScope(n: nat, arity: nat, answers: seq<Answer>)
    requires forall c | c in answers :: Stored(arity, c)
    ensures forall c | c in answers :: InScopeArgs(n, c)
  {
    StoredInScope(n, arity, answers);
    forall c | c in answers ensures InScopeArgs(n, c) {
      InScopeArgsAll(n, c);
    }
  }

  /** `clause(Head, Body)`: an unbound head raises an instantiation error;
    * otherwise, when the body unifies with `true`, each stored answer whose
    * values unify with the head's arguments is one solution, in order. */
  function ClauseOutcome(h: Heap, answers: seq<Answer>, head: Term, body: Term): (r: Outcome)
    requires Valid(h) && InScope(h.next, head) && InScope(h.next, body)
    requires forall c | c in answers :: InScopeArgs(h.next, c)
    ensures Deref(h, head).Var? <==> r.Raised?
    ensures r.Raised? ==> r.formal == Str("instantiation_error")
    ensures r.Solutions? ==> forall k | 0 <= k < |r.heaps| :: Valid(r.heaps[k]) && TermEqual(r.heaps[k], body, Sym(TRUE))
  {
    var d := Deref(h, head);
    if d.Var? then Raised(Str("instantiation_error")) else
    match Unify(h, body, Sym(TRUE))
    case None => Solutions([])
    case Some(h1) =>
      UnifySound(h, body, Sym(TRUE));
      var args := if d.Compound? then d.args else [];
      InScopeArgsMonotone(h.next, h1.next, args);
      var s := ClauseMatches(h1, args, answers);
      forall k | 0 <= k < |s| ensures TermEqual(s[k], body, Sym(TRUE)) {
        TermEqualMonotone(h1, s[k], body, Sym(TRUE));
      }
      Solutions(s)
  }

  /** The solutions of each answer of the snapshot, in order. */
  function AnswersSolutions(h: Heap, args: seq<Term>, answers: seq<Answer>): (r: seq<seq<Heap>>)
    requires Valid(h) && InScopeArgs(h.next, args)
    requires forall c | c in answers :: InScopeArgs(h.next, c)
    ensures |r| == |answers| && forall j | 0 <= j < |answers| :: r[j] == AnswerSolutions(h, args, answers[j])
  {
    seq(|answers|, j requires 0 <= j < |answers| => assert answers[j] in answers; AnswerSolutions(h, args, answers[j]))
  }

  /** An answer of the snapshot that unifies with the arguments: its
    * position and the solution it gives. */
  datatype Hit = Hit(index: nat, solution: Heap)
  /** Every answer of the snapshot that has a solution, found[j] being the
    * solutions of answer j, in order: the answers `retract` removes one
    * after the other as its caller backtracks into it. */
  function Hits(found: seq<seq<Heap>>): (r: seq<Hit>)
    ensures forall k | 0 <= k < |r| ::
      r[k].index < |found| && found[r[k].index] != [] && r[k].solution == found[r[k].index][0]
    decreases |found|
  {
    if found == [] then [] else
    var n := |found| - 1;
    var init := Hits(found[..n]);
    init + (if found[n] == [] then [] else [Hit(n, found[n][0])])
  }

  /** The hits come in the order of the snapshot. */
  lemma {:induction false} HitsInOrder(found: seq<seq<Heap>>)
    ensures forall k, l | 0 <= k < l < |Hits(found)| :: Hits(found)[k].index < Hits(found)[l].index
    decreases |found|
  {
    if found != [] {
      var n := |found| - 1;
      HitsInOrder(found[..n]);
    }
  }

  /** Every answer with a solution is a hit. */
  lemma {:induction false} HitsComplete(found: seq<seq<Heap>>, j: nat)
    requires j < |found| && found[j] != []
    ensures exists k | 0 <= k < |Hits(found)| :: Hits(found)[k].index == j
    decreases |found|
  {
    var n := |found| - 1;
    var init := Hits(found[..n]);
    var all := Hits(found);
    assert all == init + (if found[n] == [] then [] else [Hit(n, found[n][0])]);
    if j < n {
      assert found[..n][j] == found[j];
      HitsComplete(found[..n], j);
      var k :| 0 <= k < |init| && init[k].index == j;
      assert all[k] == init[k];
    } else {
      assert all[|init|] == Hit(n, found[n][0]);
    }
  }
  /** The answers of the snapshot without a solution, in order: what
    * `retract` leaves once its caller took every solution. */
  function Kept(answers: seq<Answer>, found: seq<seq<Heap>>): (r: seq<Answer>)
    requires |found| == |answers|
    decreases |answers|
  {
    if answers == [] then [] else
    var n := |answers| - 1;
    Kept(answers[..n], found[..n]) + (if found[n] == [] then [answers[n]] else [])
  }

  /** An answer is kept or hit, never both. */
  lemma {:induction false} KeptCount(answers: seq<Answer>, found: seq<seq<Heap>>)
    requires |found| == |answers|
    ensures |Kept(answers, found)| + |Hits(found)| == |answers|
    decreases |answers|
  {
    if answers != [] {
      KeptCount(answers[..|answers| - 1], found[..|answers| - 1]);
    }
  }

  /** Every answer without a solution is kept. */
  lemma {:induction false} KeptKeepsMisses(answers: seq<Answer>, found: seq<seq<Heap>>, j: nat)
    requires |found| == |answers| && j < |answers| && found[j] == []
    ensures answers[j] in Kept(answers, found)
    decreases |answers|
  {
    var n := |answers| - 1;
    if j < n {
      KeptKeepsMisses(answers[..n], found[..n], j);
    }
  }

  /** What is kept is exactly the answers without a solution: each kept
    * answer is one, and each one is kept. */
  lemma KeptExactly(answers: seq<Answer>, found: seq<seq<Heap>>)
    requires |found| == |answers|
    ensures forall c | c in Kept(answers, found) :: exists j | 0 <= j < |answers| :: answers[j] == c && found[j] == []
    ensures forall j | 0 <= j < |answers| && found[j] == [] :: answers[j] in Kept(answers, found)
  {
    forall c | c in Kept(answers, found) ensures exists j | 0 <= j < |answers| :: answers[j] == c && found[j] == [] {
      KeptHasNoSolution(answers, found, c);
    }
    forall j | 0 <= j < |answers| && found[j] == [] ensures answers[j] in Kept(answers, found) {
      KeptKeepsMisses(answers, found, j);
    }
  }

  /** Every kept answer is one of the answers. */
  lemma KeptInAnswers(answers: seq<Answer>, found: seq<seq<Heap>>, c: Answer)
    requires |found| == |answers| && c in Kept(answers, found)
    ensures c in answers
  {
    KeptHasNoSolution(answers, found, c);
  }

  /** Every kept answer is one without a solution. */
  lemma {:induction false} KeptHasNoSolution(answers: seq<Answer>, found: seq<seq<Heap>>, c: Answer)
    requires |found| == |answers| && c in Kept(answers, found)
    ensures exists j | 0 <= j < |answers| :: answers[j] == c && found[j] == []
    decreases |answers|
  {
    var n := |answers| - 1;
    if c in Kept(answers[..n], found[..n]) {
      KeptHasNoSolution(answers[..n], found[..n], c);
      var j :| 0 <= j < n && answers[..n][j] == c && found[..n][j] == [];
      assert answers[j] == c && found[j] == [];
    } else {
      assert answers[n] == c && found[n] == [];
    }
  }

  /** The table while `retract` yields the solution of the answer at
    * position j: every answer up to j with a solution has been removed. */
  function TableAt(answers: seq<Answer>, found: seq<seq<Heap>>, j: nat): (r: seq<Answer>)
    requires |found| == |answers| && j < |answers|
  {
    Kept(answers[..j + 1], found[..j + 1]) + answers[j + 1..]
  }

  /** The hits of a prefix are a prefix of the hits, and the later hits
    * lie beyond it. */
  lemma {:induction false} HitsPrefix(found: seq<seq<Heap>>, n: nat)
    requires n <= |found|
    ensures var all := Hits(found); var pre := Hits(found[..n]);
      |pre| <= |all| && pre == all[..|pre|] && forall m | |pre| <= m < |all| :: n <= all[m].index
    decreases |found|
  {
    if n < |found| {
      var last := |found| - 1;
      assert found[..last][..n] == found[..n];
      HitsPrefix(found[..last], n);
    } else {
      assert found[..n] == found;
    }
  }

  /** Exactly k + 1 hits lie up to the k-th hit, so index - k answers are
    * kept before it. */
  lemma HitsUpTo(answers: seq<Answer>, found: seq<seq<Heap>>, k: nat)
    requires |found| == |answers| && k < |Hits(found)|
    ensures var j := Hits(found)[k].index;
      |Hits(found[..j + 1])| == k + 1 && |Kept(answers[..j + 1], found[..j + 1])| == j - k
  {
    var all := Hits(found);
    var j := all[k].index;
    HitsPrefix(found, j + 1);
    KeptCount(answers[..j + 1], found[..j + 1]);
    var pre := Hits(found[..j + 1]);
    assert pre == all[..|pre|];
  }

  /** Kept over one more answer of the prefix. */
  lemma KeptSnoc(answers: seq<Answer>, found: seq<seq<Heap>>, b: nat)
    requires |found| == |answers| && b < |answers|
    ensures Kept(answers[..b + 1], found[..b + 1]) ==
      Kept(answers[..b], found[..b]) + (if found[b] == [] then [answers[b]] else [])
  {
    assert answers[..b + 1][..b] == answers[..b];
    assert found[..b + 1][..b] == found[..b];
  }

  /** The answers between two positions without a solution are all kept. */
  lemma {:induction false} KeptMisses(answers: seq<Answer>, found: seq<seq<Heap>>, a: nat, b: nat)
    requires |found| == |answers| && a <= b <= |answers|
    requires forall i | a <= i < b :: found[i] == []
    ensures Kept(answers[..b], found[..b]) == Kept(answers[..a], found[..a]) + answers[a..b]
    decreases b
  {
    if a < b {
      KeptMisses(answers, found, a, b - 1);
      assert found[b - 1] == [];
      KeptSnoc(answers, found, b - 1);
      var x, y, c := Kept(answers[..a], found[..a]), answers[a..b - 1], answers[b - 1];
      assert answers[a..b] == y + [c];
      assert (x + y) + [c] == x + (y + [c]);
    } else {
      assert answers[a..b] == [];
    }
  }

  /** The table before the k-th solution: the snapshot for the first, the
    * table at the previous solution otherwise. */
  function Before(answers: seq<Answer>, found: seq<seq<Heap>>, k: nat): seq<Answer>
    requires |found| == |answers| && k < |Hits(found)|
  {
    if k == 0 then answers else TableAt(answers, found, Hits(found)[k - 1].index)
  }

  /** Where the answers after the previous hit begin. */
  function After(found: seq<seq<Heap>>, k: nat): nat
    requires k < |Hits(found)|
  {
    if k == 0 then 0 else Hits(found)[k - 1].index + 1
  }

  /** The table before the k-th solution keeps index - k answers ahead of
    * the previous hit and then has every later answer. */
  lemma BeforeShape(answers: seq<Answer>, found: seq<seq<Heap>>, k: nat)
    requires |found| == |answers| && k < |Hits(found)|
    ensures After(found, k) <= Hits(found)[k].index
    ensures var a := After(found, k);
      Before(answers, found, k) == Kept(answers[..a], found[..a]) + answers[a..] && |Kept(answers[..a], found[..a])| == a - k
  {
    if k == 0 {
      assert answers[..0] == [] && found[..0] == [];
    } else {
      HitsInOrder(found);
      HitsUpTo(answers, found, k - 1);
    }
  }

  /** No answer between the previous hit and the k-th has a solution. */
  lemma NoHitBetween(found: seq<seq<Heap>>, k: nat)
    requires k < |Hits(found)|
    ensures forall i | After(found, k) <= i < Hits(found)[k].index :: found[i] == []
  {
    var hits := Hits(found);
    HitsInOrder(found);
    forall i | After(found, k) <= i < hits[k].index ensures found[i] == [] {
      if found[i] != [] {
        HitsComplete(found, i);
      }
    }
  }

  /** The k-th solution of `retract` removes the k-th answer with a
    * solution: the table then is the one before it less that answer, which
    * stands at position index - k there. */
  lemma RemovesInTurn(answers: seq<Answer>, found: seq<seq<Heap>>, k: nat)
    requires |found| == |answers| && k < |Hits(found)|
    ensures var j := Hits(found)[k].index; var before := Before(answers, found, k);
      k <= j && j - k < |before| && before[j - k] == answers[j] &&
      TableAt(answers, found, j) == before[..j - k] + before[j - k + 1..]
  {
    var j := Hits(found)[k].index;
    var a := After(found, k);
    BeforeShape(answers, found, k);
    NoHitBetween(found, k);
    KeptMisses(answers, found, a, j);
    KeptSnoc(answers, found, j);
    SliceSplit(answers, a, j);
    SpliceAt(Kept(answers[..a], found[..a]), answers[a..j], answers[j], answers[j + 1..]);
  }

  lemma FullSlice<T>(s: seq<T>)
    ensures s[..|s|] == s
  {
  }

  lemma SliceSplit<T>(s: seq<T>, a: nat, j: nat)
    requires a <= j < |s|
    ensures s[a..] == s[a..j] + [s[j]] + s[j + 1..]
  {
  }

  /** A splice point in a concatenation. */
  lemma SpliceAt<T>(u: seq<T>, v: seq<T>, c: T, z: seq<T>)
    ensures var s := u + (v + [c] + z); var p := |u| + |v|;
      p < |s| && s[p] == c && s[..p] == u + v && s[p + 1..] == z
  {
    var s := u + (v + [c] + z);
    assert s == (u + v) + [c] + z;
  }

  /** Once the caller took every solution, the table holds exactly the
    * answers without a solution, in order. */
  lemma LastTableKeeps(answers: seq<Answer>, found: seq<seq<Heap>>)
    requires |found| == |answers| && Hits(found) != []
    ensures var hits := Hits(found); TableAt(answers, found, hits[|hits| - 1].index) == Kept(answers, found)
  {
    var hits := Hits(found);
    var j := hits[|hits| - 1].index;
    NoHitAfterLast(found);
    KeptMisses(answers, found, j + 1, |answers|);
    FullSlice(answers);
    FullSlice(found);
  }

  /** No answer after the last hit has a solution. */
  lemma NoHitAfterLast(found: seq<seq<Heap>>)
    requires Hits(found) != []
    ensures var hits := Hits(found); forall i | hits[|hits| - 1].index < i < |found| :: found[i] == []
  {
    var hits := Hits(found);
    HitsInOrder(found);
    forall i | hits[|hits| - 1].index < i < |found| ensures found[i] == [] {
      if found[i] != [] {
        HitsComplete(found, i);
      }
    }
  }

  /** The solution of each hit, in order. */
  function RetractHeaps(found: seq<seq<Heap>>): (r: seq<Heap>)
    ensures |r| == |Hits(found)|
    ensures forall k | 0 <= k < |r| :: r[k] == Hits(found)[k].solution
  {
    var hits := Hits(found);
    seq(|hits|, k requires 0 <= k < |hits| => hits[k].solution)
  }

  /** The table at each hit, in order. */
  function RetractTables(answers: seq<Answer>, found: seq<seq<Heap>>): (r: seq<seq<Answer>>)
    requires |found| == |answers|
    ensures |r| == |Hits(found)|
    ensures forall k | 0 <= k < |r| :: r[k] == TableAt(answers, found, Hits(found)[k].index)
  {
    var hits := Hits(found);
    seq(|hits|, k requires 0 <= k < |hits| => TableAt(answers, found, hits[k].index))
  }

  /** The last table is what is kept. */
  lemma LastRetractTable(answers: seq<Answer>, found: seq<seq<Heap>>)
    requires |found| == |answers| && RetractTables(answers, found) != []
    ensures var tables := RetractTables(answers, found); tables[|tables| - 1] == Kept(answers, found)
  {
    LastTableKeeps(answers, found);
  }

  /** The solutions `retract` has yielded once it looked at the first n
    * answers of the snapshot. */
  function HeapsUpTo(found: seq<seq<Heap>>, n: nat): (r: seq<Heap>)
    requires n <= |found|
  {
    if n == 0 then [] else
    HeapsUpTo(found, n - 1) + (if found[n - 1] == [] then [] else [found[n - 1][0]])
  }

  /** What is kept of the first n answers. */
  function KeptUpTo(answers: seq<Answer>, found: seq<seq<Heap>>, n: nat): (r: seq<Answer>)
    requires |found| == |answers| && n <= |answers|
  {
    if n == 0 then [] else
    KeptUpTo(answers, found, n - 1) + (if found[n - 1] == [] then [answers[n - 1]] else [])
  }

  /** The live table once `retract` looked at the first n answers. */
  function Live(answers: seq<Answer>, found: seq<seq<Heap>>, n: nat): (r: seq<Answer>)
    requires |found| == |answers| && n <= |answers|
  {
    KeptUpTo(answers, found, n) + answers[n..]
  }

  lemma {:induction false} KeptUpToIs(answers: seq<Answer>, found: seq<seq<Heap>>, n: nat)
    requires |found| == |answers| && n <= |answers|
    ensures KeptUpTo(answers, found, n) == Kept(answers[..n], found[..n])
  {
    if n > 0 {
      KeptUpToIs(answers, found, n - 1);
      KeptSnoc(answers, found, n - 1);
    }
  }

  /** The tables at those solutions. */
  function TablesUpTo(answers: seq<Answer>, found: seq<seq<Heap>>, n: nat): (r: seq<seq<Answer>>)
    requires |found| == |answers| && n <= |answers|
  {
    if n == 0 then [] else
    TablesUpTo(answers, found, n - 1) + (if found[n - 1] == [] then [] else [Live(answers, found, n)])
  }

  /** Past the last answer, the live table is what is kept. */
  lemma LiveAtEnd(answers: seq<Answer>, found: seq<seq<Heap>>)
    requires |found| == |answers|
    ensures Live(answers, found, |answers|) == Kept(answers, found)
  {
    KeptUpToIs(answers, found, |answers|);
    FullSlice(answers);
    FullSlice(found);
    assert answers[|answers|..] == [];
  }

  /** The prefixes over one more answer. */
  lemma UpToSnoc(answers: seq<Answer>, found: seq<seq<Heap>>, n: nat)
    requires |found| == |answers| && n < |answers|
    ensures HeapsUpTo(found, n + 1) == HeapsUpTo(found, n) + (if found[n] == [] then [] else [found[n][0]])
    ensures TablesUpTo(answers, found, n + 1) ==
      TablesUpTo(answers, found, n) + (if found[n] == [] then [] else [Live(answers, found, n + 1)])
  {
  }

  /** The hits of one more answer. */
  lemma HitsSnoc(found: seq<seq<Heap>>, n: nat)
    requires n < |found|
    ensures Hits(found[..n + 1]) == Hits(found[..n]) + (if found[n] == [] then [] else [Hit(n, found[n][0])])
  {
    assert found[..n + 1][..n] == found[..n];
  }

  /** The solutions so far are those of the hits of the prefix. */
  lemma {:induction false} HeapsUpToHits(found: seq<seq<Heap>>, n: nat)
    requires n <= |found|
    ensures var hits := Hits(found[..n]);
      |HeapsUpTo(found, n)| == |hits| && forall k | 0 <= k < |hits| :: HeapsUpTo(found, n)[k] == hits[k].solution
  {
    if n > 0 {
      HeapsUpToHits(found, n - 1);
      HitsSnoc(found, n - 1);
    }
  }

  /** The tables so far are those at the hits of the prefix. */
  lemma {:induction false} TablesUpToHits(answers: seq<Answer>, found: seq<seq<Heap>>, n: nat)
    requires |found| == |answers| && n <= |answers|
    ensures var hits := Hits(found[..n]);
      |TablesUpTo(answers, found, n)| == |hits| &&
      forall k | 0 <= k < |hits| :: TablesUpTo(answers, found, n)[k] == TableAt(answers, found, hits[k].index)
  {
    if n > 0 {
      TablesUpToHits(answers, found, n - 1);
      HitsSnoc(found, n - 1);
      KeptUpToIs(answers, found, n);
    }
  }

  /** Each of the first n answers is kept or has given a solution. */
  lemma {:induction false} UpToCount(answers: seq<Answer>, found: seq<seq<Heap>>, n: nat)
    requires |found| == |answers| && n <= |answers|
    ensures |HeapsUpTo(found, n)| + |KeptUpTo(answers, found, n)| == n
  {
    if n > 0 {
      UpToCount(answers, found, n - 1);
    }
  }

  /** Taken to the end, the prefixes are `retract`'s solutions and tables. */
  lemma UpToAll(answers: seq<Answer>, found: seq<seq<Heap>>)
    requires |found| == |answers|
    ensures HeapsUpTo(found, |found|) == RetractHeaps(found)
    ensures TablesUpTo(answers, found, |answers|) == RetractTables(answers, found)
  {
    assert found[..|found|] == found;
    HeapsUpToHits(found, |found|);
    TablesUpToHits(answers, found, |answers|);
  }

  /** One step of the loop over the snapshot: answer n stands right after
    * what is kept of the first n; removing it when it has a solution, or
    * keeping it otherwise, gives the table over the first n + 1. */
  lemma RemoveStep(answers: seq<Answer>, found: seq<seq<Heap>>, n: nat)
    requires |found| == |answers| && n < |answers|
    ensures var cur := Live(answers, found, n); var p := |KeptUpTo(answers, found, n)|;
      p < |cur| && cur[p] == answers[n] &&
      (found[n] == [] ==> Live(answers, found, n + 1) == cur) &&
      (found[n] != [] ==> cur[..p] + cur[p + 1..] == Live(answers, found, n + 1))
  {
    var kept := KeptUpTo(answers, found, n);
    SpliceAt(kept, [], answers[n], answers[n + 1..]);
    assert answers[n..] == [answers[n]] + answers[n + 1..];
    assert kept + [answers[n]] + answers[n + 1..] == kept + ([] + [answers[n]] + answers[n + 1..]);
  }

  /** Removing one element keeps the rest among the elements. */
  lemma RemoveAtIn<T>(s: seq<T>, p: nat)
    requires p < |s|
    ensures forall c | c in s[..p] + s[p + 1..] :: c in s
  {
    assert s == s[..p] + [s[p]] + s[p + 1..];
  }

  /** Each table less its hit's answer is the next: the k-th table is the
    * one before it (the snapshot for the first) with the k-th answer that
    * has a solution taken out, at position index - k; the last table is
    * what is kept. */
  lemma RetractTablesInTurn(answers: seq<Answer>, found: seq<seq<Heap>>, k: nat)
    requires |found| == |answers| && k < |Hits(found)|
    ensures var tables := RetractTables(answers, found); var j := Hits(found)[k].index;
      var before := if k == 0 then answers else tables[k - 1];
      k <= j && j - k < |before| && before[j - k] == answers[j] && tables[k] == before[..j - k] + before[j - k + 1..]
    ensures var tables := RetractTables(answers, found); tables[|tables| - 1] == Kept(answers, found)
  {
    RemovesInTurn(answers, found, k);
    LastTableKeeps(answers, found);
    var tables := RetractTables(answers, found);
    assert Before(answers, found, k) == if k == 0 then answers else tables[k - 1];
  }

  /** `retract(Head, Body)` taken to its end: an unbound head raises an
    * instantiation error; otherwise, when the body unifies with `true`,
    * each answer of the snapshot whose values unify with the head's
    * arguments is removed in turn and gives one solution. The second
    * component is the table at each of those solutions. */
  function RetractOutcome(h: Heap, answers: seq<Answer>, head: Term, body: Term): (r: (Outcome, seq<seq<Answer>>))
    requires Valid(h) && InScope(h.next, head) && InScope(h.next, body)
    requires forall c | c in answers :: InScopeArgs(h.next, c)
    ensures Deref(h, head).Var? <==> r.0.Raised?
    ensures r.0.Raised? ==> r.0.formal == Str("instantiation_error") && r.1 == []
    ensures r.0.Solutions? ==> |r.1| == |r.0.heaps|
    ensures r.0.Solutions? ==> forall k | 0 <= k < |r.0.heaps| ::
      Valid(r.0.heaps[k]) && TermEqual(r.0.heaps[k], body, Sym(TRUE))
  {
    var d := Deref(h, head);
    if d.Var? then (Raised(Str("instantiation_error")), []) else
    match Unify(h, body, Sym(TRUE))
    case None => (Solutions([]), [])
    case Some(h1) =>
      UnifySound(h, body, Sym(TRUE));
      var args := if d.Compound? then d.args else [];
      InScopeArgsMonotone(h.next, h1.next, args);
      AnswersInScope(h.next, h1.next, answers);
      var found := AnswersSolutions(h1, args, answers);
      var heaps := RetractHeaps(found);
      forall k | 0 <= k < |heaps| ensures Valid(heaps[k]) && TermEqual(heaps[k], body, Sym(TRUE)) {
        TermEqualMonotone(h1, heaps[k], body, Sym(TRUE));
      }
      (Solutions(heaps), RetractTables(answers, found))
  }

  lemma AnswersInScope(n: nat, m: nat, answers: seq<Answer>)
    requires n <= m && forall c | c in answers :: InScopeArgs(n, c)
    ensures forall c | c in answers :: InScopeArgs(m, c)
  {
    forall c | c in answers ensures InScopeArgs(m, c) {
      InScopeArgsMonotone(n, m, c);
    }
  }

  /** Past the head check and the body's unification, `retract`'s
    * outcome is the hits' solutions and tables over the answers'
    * solutions. */
  lemma RetractOutcomeIs(h: Heap, answers: seq<Answer>, head: Term, body: Term, h1: Heap)
    requires Valid(h) && InScope(h.next, head) && InScope(h.next, body)
    requires forall c | c in answers :: InScopeArgs(h.next, c)
    requires !Deref(h, head).Var? && Unify(h, body, Sym(TRUE)) == Some(h1)
    ensures Valid(h1) && InScopeArgs(h1.next, FunctorArgs(h, head))
    ensures forall c | c in answers :: InScopeArgs(h1.next, c)
    ensures var found := AnswersSolutions(h1, FunctorArgs(h, head), answers);
      RetractOutcome(h, answers, head, body) == (Solutions(RetractHeaps(found)), RetractTables(answers, found))
  {
    UnifySound(h, body, Sym(TRUE));
    InScopeArgsMonotone(h.next, h1.next, FunctorArgs(h, head));
    AnswersInScope(h.next, h1.next, answers);
  }

  /** An unbound head raises, and a body that does not unify with `true`
    * gives no solution; neither touches the table. */
  lemma RetractOutcomeStops(h: Heap, answers: seq<Answer>, head: Term, body: Term)
    requires Valid(h) && InScope(h.next, head) && InScope(h.next, body)
    requires forall c | c in answers :: InScopeArgs(h.next, c)
    requires Deref(h, head).Var? || Unify(h, body, Sym(TRUE)).None?
    ensures RetractOutcome(h, answers, head, body) ==
      if Deref(h, head).Var? then (Raised(Str("instantiation_error")), []) else (Solutions([]), [])
  {
  }

  /** `retract` gives one solution per answer of the snapshot whose values
    * unify with the head's arguments, in order: the k-th solution is the
    * one of the k-th such answer. */
  lemma RetractSolutionsAreHits(h: Heap, answers: seq<Answer>, head: Term, body: Term, h1: Heap)
    requires Valid(h) && InScope(h.next, head) && InScope(h.next, body)
    requires forall c | c in answers :: InScopeArgs(h.next, c)
    requires !Deref(h, head).Var? && Unify(h, body, Sym(TRUE)) == Some(h1)
    ensures Valid(h1) && InScopeArgs(h1.next, FunctorArgs(h, head))
    ensures forall c | c in answers :: InScopeArgs(h1.next, c)
    ensures var r := RetractOutcome(h, answers, head, body);
      var found := AnswersSolutions(h1, FunctorArgs(h, head), answers); var hits := Hits(found);
      r.0.Solutions? && |r.0.heaps| == |hits| &&
      forall k | 0 <= k < |hits| :: found[hits[k].index] == [r.0.heaps[k]]
  {
    RetractOutcomeIs(h, answers, head, body, h1);
  }

  // ---------------------------------------------------------------------
  // Examples and the code as written.

  /** A table of arity 2 holding `happy, Tony` matches those two values
    * once, with nothing to bind. */
  lemma HappyTony(h: Heap)
    requires Valid(h)
    ensures MatchSolutions([[Str("happy"), Str("Tony")]], 2, h, [Str("happy"), Str("Tony")], false) == [h]
  {
    var c: Answer := [Str("happy"), Str("Tony")];
    var key := ArgKey(h, c);
    assert key == [Some(Str("happy")), Some(Str("Tony"))];
    SelectsMeans(key, c);
    assert Filter([c], key) == Filter([], key) + [c];
  }

  /** Two equal facts `p(a)` are both retracted by `retract(p(a), true)`:
    * two solutions, the table holding one fact at the first and none at
    * the second. */
  lemma RetractTwinFacts(h: Heap)
    requires Valid(h)
    ensures var a := Sym(Atom("a", None));
      RetractOutcome(h, [[a], [a]], Compound(Atom("p", None), [a]), Sym(TRUE)) == (Solutions([h, h]), [[[a]], []])
  {
    var a := Sym(Atom("a", None));
    var answers: seq<Answer> := [[a], [a]];
    var head := Compound(Atom("p", None), [a]);
    assert [a][0] == a && [a][1..] == [];
    assert InScope(h.next, a) && InScopeArgs(h.next, []);
    assert InScopeArgs(h.next, [a]);
    assert Unify(h, Sym(TRUE), Sym(TRUE)) == Some(h);
    assert UnifyArgs(h, [a], [a]) == Some(h);
    var found := AnswersSolutions(h, [a], answers);
    assert found == [[h], [h]];
    RetractOutcomeIs(h, answers, head, Sym(TRUE), h);
    TwinTables(h, a);
  }

  /** The combinatorics of that example: both answers hit. */
  lemma TwinTables(x: Heap, a: Term)
    ensures RetractHeaps([[x], [x]]) == [x, x]
    ensures RetractTables([[a], [a]], [[x], [x]]) == [[[a]], []]
  {
    var found := [[x], [x]];
    var answers: seq<Answer> := [[a], [a]];
    assert found[..1] == [[x]] && found[..1][..0] == [] && found[..2] == found;
    assert answers[..1] == [[a]] && answers[..1][..0] == [] && answers[..2] == answers;
    assert Hits(found[..1]) == [Hit(0, x)];
    assert Hits(found) == [Hit(0, x), Hit(1, x)];
    assert Kept(answers[..1], found[..1]) == [];
    assert Kept(answers, found) == [];
    assert TableAt(answers, found, 0) == [[a]];
    assert TableAt(answers, found, 1) == [];
  }

  /** `signature & (1 << i)` as the host computes it: the shift count is
    * taken modulo 32, and the signature `match` builds never has bit 31
    * set. */
  predicate WantsAsWritten(m: seq<bool>, i: nat)
  {
    var b := i % 32;
    b < MAX_INDEX_ARGS && b < |m| && m[b]
  }

  /** `indexAnswerForSignature` as written: position i is wanted when the
    * wrapped bit is set, so from position 32 on the pattern's first bits are
    * asked for again at positions where no index value is kept. */
  function AnswerKeyAsWritten(c: Answer, m: seq<bool>): Option<Key>
    requires |m| == |c|
  {
    if forall i | 0 <= i < |c| && WantsAsWritten(m, i) :: i < MAX_INDEX_ARGS && IndexValue(c[i]).Some? then
      Some(seq(|c|, i requires 0 <= i < |c| => if WantsAsWritten(m, i) then IndexValue(c[i]) else None))
    else None
  }

  /** An answer of 33 values starting with the atom `a` is never filed for
    * the pattern "first argument only" as written, although its first
    * value is an index value: the wrapped bit at position 32 asks for a
    * value there. Filed as intended, it is found under that key. */
  lemma SignatureWrapsAt32()
    ensures var c: Answer := [Sym(Atom("a", None))] + seq(32, _ => Int(1));
      var m := [true] + seq(32, _ => false);
      AnswerKeyAsWritten(c, m) == None &&
      AnswerKey(c, m) == Some([Some(Sym(Atom("a", None)))] + seq(32, _ => None))
  {
    var c: Answer := [Sym(Atom("a", None))] + seq(32, _ => Int(1));
    var m := [true] + seq(32, _ => false);
    assert WantsAsWritten(m, 32) && !(32 < MAX_INDEX_ARGS);
    assert forall i | 0 <= i < |c| && m[i] :: i == 0;
    var k := AnswerKey(c, m).value;
    assert k == [Some(Sym(Atom("a", None)))] + seq(32, _ => None);
  }

  /** `match` as written answers a predicate without arguments once, even
    * when it holds no answer: no argument supplied an index value, so
    * every argument counts as supplied. The corrected match has no
    * solution there. */
  lemma VacuousMatchAsWritten(h: Heap)
    requires Valid(h)
    ensures MatchSolutions([], 0, h, [], true) == [h]
    ensures MatchSolutions([], 0, h, [], false) == []
  {
  }

  /** The answers of one predicate given by facts. */
  class IndexedAnswers {
    const arity: nat
    /** `_allAnswers`, in order. */
    var allAnswers: seq<Answer>
    /** `_indexedAnswers`: the buckets by property name. */
    var indexed: map<string, seq<Entry>>
    /** `_gotAnswersForSignature`: the patterns whose index is built. A
      * signature is the number whose bit i is set for each position i the
      * pattern marks; the model keeps the pattern itself. */
    var got: set<seq<bool>>

    /** Answers are ground copies of the right length, and every built index
      * agrees with the answers. */
    ghost predicate Consistent()
      reads this
    {
      (forall c | c in allAnswers :: Stored(arity, c)) &&
      (forall m | m in got :: |m| == arity) &&
      IndexOnly(indexed, got) && IndexAgrees(indexed, got, allAnswers)
    }

    constructor (n: nat)
      ensures arity == n && allAnswers == [] && indexed == map[] && got == {}
      ensures Consistent()
    {
      arity := n;
      allAnswers := [];
      indexed := map[];
      got := {};
    }

    /** `clearIndexes`: drops every index. */
    method ClearIndexes()
      requires forall c | c in allAnswers :: Stored(arity, c)
      modifies this
      ensures Consistent()
      ensures indexed == map[] && got == {} && allAnswers == old(allAnswers)
    {
      indexed := map[];
      got := {};
    }

    /** `get`: the bucket of exactly this key, if there is one. */
    method Get(key: Key) returns (r: Option<seq<Answer>>)
      ensures r == Lookup(indexed, key)
    {
      var text := KeyText(key);
      if text !in indexed {
        return None;
      }
      var entries := indexed[text];
      var j := FindEntry(entries, key);
      if j < 0 {
        return None;
      }
      return Some(entries[j].answers);
    }

    /** `add`: appends the answer to the key's bucket. */
    method Add(key: Key, c: Answer)
      modifies this
      ensures indexed == AddToIndex(old(indexed), key, c)
      ensures allAnswers == old(allAnswers) && got == old(got)
    {
      var text := KeyText(key);
      var entries := if text in indexed then indexed[text] else [];
      var j := FindEntry(entries, key);
      if j < 0 {
        entries := entries + [Entry(key, [c])];
      } else {
        entries := entries[j := Entry(key, entries[j].answers + [c])];
      }
      indexed := indexed[text := entries];
    }

    /** `indexAnswerForSignature`: files the answer under its key for the
      * pattern m, unless the pattern wants an index value where the answer
      * has none. */
    method IndexAnswerForSignature(c: Answer, m: seq<bool>)
      requires |m| == |c|
      modifies this
      ensures indexed == IndexAnswer(old(indexed), c, m)
      ensures allAnswers == old(allAnswers) && got == old(got)
    {
      var indexValues: seq<Option<Term>> := [];
      var i := 0;
      while i < |c|
        invariant 0 <= i <= |c| && |indexValues| == i
        invariant forall j | 0 <= j < i :: indexValues[j] == if j < MAX_INDEX_ARGS then IndexValue(c[j]) else None
      {
        if i >= MAX_INDEX_ARGS {
          indexValues := indexValues + [None];
        } else {
          indexValues := indexValues + [IndexValue(c[i])];
        }
        i := i + 1;
      }
      var key: Key := [];
      i := 0;
      while i < |indexValues|
        invariant 0 <= i <= |c| && |key| == i
        invariant forall j | 0 <= j < i :: key[j] == if m[j] then indexValues[j] else None
        invariant forall j | 0 <= j < i && m[j] :: indexValues[j].Some?
      {
        if !m[i] {
          key := key + [None];
        } else if indexValues[i].None? {
          assert AnswerKey(c, m).None?;
          return;
        } else {
          key := key + [indexValues[i]];
        }
        i := i + 1;
      }
      assert AnswerKey(c, m).Some?;
      assert AnswerKey(c, m).value == key;
      Add(key, c);
    }

    /** The part of `match` that builds the index of a pattern not seen
      * before, filing every answer in order, and then marks it built. */
    method IndexSignature(m: seq<bool>)
      requires Consistent() && |m| == arity && m !in got
      modifies this
      ensures Consistent()
      ensures allAnswers == old(allAnswers) && got == old(got) + {m}
    {
      assert IndexOnly(indexed, got + {m});
      for j := 0 to |allAnswers|
        invariant allAnswers == old(allAnswers) && got == old(got)
        invariant forall c | c in allAnswers :: Stored(arity, c)
        invariant IndexOnly(indexed, got + {m}) && IndexAgrees(indexed, got, allAnswers)
        invariant forall k | Pattern(k) == m :: Lookup(indexed, k) == Expected(allAnswers[..j], k)
      {
        var before := indexed;
        var c := allAnswers[j];
        assert Stored(arity, c);
        assert allAnswers[..j + 1] == allAnswers[..j] + [c];
        IndexAnswerForSignature(c, m);
        PreservedByIndexing(before, c, m, got, allAnswers, allAnswers[..j]);
      }
      assert allAnswers[..|allAnswers|] == allAnswers;
      got := got + {m};
    }
  
    /** `addOrPrependAnswer`: an answer of the wrong length is ignored, and
      * one holding unbound variables is refused; otherwise a copy is
      * stored, in front (dropping every index) or at the end (filing it in
      * every index built so far). */
    method AddOrPrependAnswer(h: Heap, answer: seq<Term>, prepend: bool) returns (r: AddResult)
      requires Consistent() && Valid(h)
      modifies this
      ensures Consistent()
      ensures r == (if |answer| != arity then WrongLength
        else if !(forall i | 0 <= i < |answer| :: Ground(h, answer[i])) then NotGround else Added)
      ensures r != Added ==> allAnswers == old(allAnswers) && indexed == old(indexed) && got == old(got)
      ensures r == Added && prepend ==> allAnswers == [Copies(h, answer)] + old(allAnswers) && indexed == map[] && got == {}
      ensures r == Added && !prepend ==> allAnswers == old(allAnswers) + [Copies(h, answer)] && got == old(got)
    {
      if |answer| != arity {
        return WrongLength;
      }
      var c := Copies(h, answer);
      if !(forall i | 0 <= i < |answer| :: Ground(h, answer[i])) {
        return NotGround;
      }
      forall i | 0 <= i < |c| ensures IsGroundValue(c[i]) {
        GroundResolve(h, answer[i]);
      }
      assert Stored(arity, c);
      r := Added;
      if prepend {
        allAnswers := [c] + allAnswers;
        ClearIndexes();
      } else {
        ghost var previous := allAnswers;
        allAnswers := allAnswers + [c];
        var todo := got;
        while todo != {}
          invariant todo <= got && got == old(got) && allAnswers == previous + [c]
          invariant forall d | d in allAnswers :: Stored(arity, d)
          invariant forall m | m in got :: |m| == arity
          invariant IndexOnly(indexed, got)
          invariant IndexAgrees(indexed, got - todo, allAnswers) && IndexAgrees(indexed, todo, previous)
          decreases |todo|
        {
          var m :| m in todo;
          var before := indexed;
          IndexAnswerForSignature(c, m);
          AppendIndexing(before, c, m, got, todo, previous);
          todo := todo - {m};
        }
        assert got - {} == got;
      }
    }

    /** `addAnswer`. */
    method AddAnswer(h: Heap, answer: seq<Term>) returns (r: AddResult)
      requires Consistent() && Valid(h)
      modifies this
      ensures Consistent()
      ensures r == Added ==> allAnswers == old(allAnswers) + [Copies(h, answer)] && got == old(got)
      ensures r != Added ==> allAnswers == old(allAnswers) && indexed == old(indexed) && got == old(got)
    {
      r := AddOrPrependAnswer(h, answer, false);
    }

    /** `prependAnswer`. */
    method PrependAnswer(h: Heap, answer: seq<Term>) returns (r: AddResult)
      requires Consistent() && Valid(h)
      modifies this
      ensures Consistent()
      ensures r == Added ==> allAnswers == [Copies(h, answer)] + old(allAnswers) && indexed == map[] && got == {}
      ensures r != Added ==> allAnswers == old(allAnswers) && indexed == old(indexed) && got == old(got)
    {
      r := AddOrPrependAnswer(h, answer, true);
    }

    /** The loop of `match` over the positions of one candidate: each
      * argument the key left open is unified with the answer's value, and
      * the first failure rejects the candidate. */
    static method UnifyAnswer(h: Heap, args: seq<Term>, c: Answer, key: Key) returns (r: Option<Heap>)
      requires Valid(h) && |args| == |c| == |key|
      requires forall j | 0 <= j < |args| :: InScope(h.next, args[j]) && InScope(h.next, c[j])
      ensures r == UnifyFrom(h, args, c, key, 0)
    {
      var cur := h;
      var i := 0;
      while i < |args|
        invariant 0 <= i <= |args| && Valid(cur) && cur.next == h.next
        invariant UnifyFrom(h, args, c, key, 0) == UnifyFrom(cur, args, c, key, i)
      {
        if key[i].Some? {
          i := i + 1;
          continue;
        }
        var u := Unify(cur, args[i], c[i]);
        if u.None? {
          return None;
        }
        cur := u.value;
        i := i + 1;
      }
      return Some(cur);
    }

    /** The key loop of `match`: the index value of each of the first 31
      * arguments, and whether all or none of them supplied one. */
    static method BuildKey(h: Heap, args: seq<Term>) returns (key: Key, gotAllIndexArgs: bool, noIndexArgs: bool)
      requires Valid(h)
      ensures key == ArgKey(h, args)
      ensures gotAllIndexArgs == AllIndexed(key) && noIndexArgs == NoneIndexed(key)
    {
      key := [];
      gotAllIndexArgs := true;
      noIndexArgs := true;
      var i := 0;
      while i < |args|
        invariant 0 <= i <= |args| && key == ArgKey(h, args)[..i]
        invariant gotAllIndexArgs == AllIndexed(key) && noIndexArgs == NoneIndexed(key)
      {
        var indexValue: Option<Term> := None;
        if i < MAX_INDEX_ARGS {
          indexValue := IndexValue(Deref(h, args[i]));
        }
        if indexValue.Some? {
          noIndexArgs := false;
        } else {
          gotAllIndexArgs := false;
        }
        KeySnoc(key, indexValue);
        key := key + [indexValue];
        i := i + 1;
      }
    }

    /** The candidate loop of `match`: one solution per candidate whose
      * open positions unify, in order. */
    static method MatchCandidates(h: Heap, args: seq<Term>, key: Key, answers: seq<Answer>) returns (solutions: seq<Heap>)
      requires Valid(h) && |args| == |key|
      requires forall j | 0 <= j < |args| :: InScope(h.next, args[j])
      requires forall c | c in answers :: |c| == |args| && forall j | 0 <= j < |c| :: InScope(h.next, c[j])
      ensures solutions == Candidates(h, args, key, answers)
    {
      solutions := [];
      for n := 0 to |answers|
        invariant solutions == Candidates(h, args, key, answers[..n])
      {
        var c := answers[n];
        assert answers[..n + 1] == answers[..n] + [c];
        CandidatesSnoc(h, args, key, answers[..n], c);
        var s := UnifyAnswer(h, args, c, key);
        if s.Some? {
          solutions := solutions + [s.value];
        }
      }
      assert answers[..|answers|] == answers;
    }

    /** `match(args)`: builds the key and, unless no argument supplied an
      * index value, builds the pattern's index if needed and takes the
      * key's bucket as the candidates; see `MatchSolutions`. */
    method Match(h: Heap, args: seq<Term>) returns (solutions: seq<Heap>)
      requires Consistent() && Valid(h) && forall j | 0 <= j < |args| :: InScope(h.next, args[j])
      modifies this
      ensures Consistent() && allAnswers == old(allAnswers)
      ensures solutions == MatchSolutions(allAnswers, arity, h, args, false)
    {
      if |args| != arity {
        return [];
      }
      var key, gotAllIndexArgs, noIndexArgs := BuildKey(h, args);
      var answers: seq<Answer>;
      if noIndexArgs {
        answers := allAnswers;
      } else {
        var m := Pattern(key);
        if m !in got {
          IndexSignature(m);
        }
        var bucket := Get(key);
        if bucket.None? {
          return [];
        }
        answers := bucket.value;
        assert answers == Filter(allAnswers, key);
      }
      if gotAllIndexArgs {
        if answers == [] {
          return [];
        }
        return [h];
      }
      StoredInScope(h.next, arity, allAnswers);
      solutions := MatchCandidates(h, args, key, answers);
    }

    /** The unification of the values of answer n with the arguments, as
      * the loop of `retract` does it. */
    static method SolveAt(h: Heap, args: seq<Term>, answers: seq<Answer>, ghost found: seq<seq<Heap>>, n: nat) returns (s: seq<Heap>)
      requires Valid(h) && InScopeArgs(h.next, args)
      requires forall c | c in answers :: InScopeArgs(h.next, c)
      requires found == AnswersSolutions(h, args, answers) && n < |answers|
      ensures s == found[n]
    {
      assert answers[n] in answers;
      s := UnifyArrays(h, args, answers[n]);
    }

    /** The loop of `clause` over the copy of the answers. */
    static method ClauseAnswers(h: Heap, args: seq<Term>, answers: seq<Answer>) returns (solutions: seq<Heap>)
      requires Valid(h) && InScopeArgs(h.next, args)
      requires forall c | c in answers :: InScopeArgs(h.next, c)
      ensures solutions == ClauseMatches(h, args, answers)
    {
      solutions := [];
      for n := 0 to |answers|
        invariant solutions == ClauseMatches(h, args, answers[..n])
      {
        var c := answers[n];
        assert answers[..n + 1] == answers[..n] + [c];
        ClauseMatchesSnoc(h, args, answers[..n], c);
        var s := UnifyArrays(h, args, c);
        solutions := solutions + s;
      }
      assert answers[..|answers|] == answers;
    }

    /** `clause(Head, Body)` over a copy of the answers taken before the
      * first solution; see `ClauseOutcome`. */
    method Clause(h: Heap, head: Term, body: Term) returns (r: Outcome)
      requires Consistent() && Valid(h) && InScope(h.next, head) && InScope(h.next, body)
      ensures (StoredArgsInScope(h.next, arity, allAnswers); r == ClauseOutcome(h, allAnswers, head, body))
    {
      StoredArgsInScope(h.next, arity, allAnswers);
      var d := Deref(h, head);
      if d.Var? {
        return Raised(Str("instantiation_error"));
      }
      var args := FunctorArgs(h, head);
      var u := Unify(h, body, Sym(TRUE));
      if u.None? {
        return Solutions([]);
      }
      var solutions := ClauseAnswers(u.value, args, allAnswers);
      return Solutions(solutions);
    }

    /** `_allAnswers.splice(p, 1)` followed by `clearIndexes()`. */
    method RemoveAnswer(p: nat)
      requires p < |allAnswers| && forall c | c in allAnswers :: Stored(arity, c)
      modifies this
      ensures allAnswers == old(allAnswers[..p] + allAnswers[p + 1..])
      ensures forall c | c in allAnswers :: Stored(arity, c)
      ensures Consistent() && indexed == map[] && got == {}
    {
      RemoveAtIn(allAnswers, p);
      allAnswers := allAnswers[..p] + allAnswers[p + 1..];
      ClearIndexes();
    }

    /** The loop of `retract` over the snapshot: each answer that unifies
      * with the arguments is removed from the live table, the indexes are
      * dropped and its solution is yielded; `tables` holds the live table
      * at each yield. */
    method RemoveHits(h: Heap, args: seq<Term>, ghost found: seq<seq<Heap>>) returns (heaps: seq<Heap>, tables: seq<seq<Answer>>)
      requires Consistent() && Valid(h) && InScopeArgs(h.next, args)
      requires forall c | c in allAnswers :: InScopeArgs(h.next, c)
      requires found == AnswersSolutions(h, args, allAnswers)
      modifies this
      ensures Consistent()
      ensures heaps == RetractHeaps(found) && tables == RetractTables(old(allAnswers), found)
      ensures allAnswers == if tables == [] then old(allAnswers) else tables[|tables| - 1]
      ensures tables != [] ==> indexed == map[] && got == {}
      ensures tables == [] ==> indexed == old(indexed) && got == old(got)
    {
      var snapshot := allAnswers;
      heaps, tables := [], [];
      for n := 0 to |snapshot|
        invariant snapshot == old(allAnswers) && |found| == |snapshot|
        invariant Consistent()
        invariant heaps == HeapsUpTo(found, n) && tables == TablesUpTo(snapshot, found, n)
        invariant allAnswers == Live(snapshot, found, n)
        invariant tables != [] ==> indexed == map[] && got == {}
        invariant tables == [] ==> allAnswers == snapshot && indexed == old(indexed) && got == old(got)
      {
        heaps, tables := Visit(h, args, snapshot, found, n, heaps, tables);
      }
      UpToAll(snapshot, found);
      if tables != [] {
        LiveAtEnd(snapshot, found);
        LastRetractTable(snapshot, found);
      }
    }

    /** One turn of that loop, at answer n of the snapshot. */
    method Visit(h: Heap, args: seq<Term>, snapshot: seq<Answer>, ghost found: seq<seq<Heap>>, n: nat,
                 heaps: seq<Heap>, tables: seq<seq<Answer>>) returns (heaps': seq<Heap>, tables': seq<seq<Answer>>)
      requires Valid(h) && InScopeArgs(h.next, args)
      requires forall c | c in snapshot :: InScopeArgs(h.next, c)
      requires found == AnswersSolutions(h, args, snapshot) && n < |snapshot|
      requires Consistent()
      requires heaps == HeapsUpTo(found, n) && tables == TablesUpTo(snapshot, found, n)
      requires allAnswers == Live(snapshot, found, n)
      modifies this
      ensures Consistent()
      ensures heaps' == HeapsUpTo(found, n + 1) && tables' == TablesUpTo(snapshot, found, n + 1)
      ensures allAnswers == Live(snapshot, found, n + 1)
      ensures found[n] == [] ==> tables' == tables && allAnswers == old(allAnswers) && indexed == old(indexed) && got == old(got)
      ensures found[n] != [] ==> tables' != [] && indexed == map[] && got == {}
    {
      var s := SolveAt(h, args, snapshot, found, n);
      RemoveStep(snapshot, found, n);
      UpToCount(snapshot, found, n);
      UpToSnoc(snapshot, found, n);
      heaps', tables' := heaps, tables;
      if s != [] {
        RemoveAnswer(n - |heaps|);
        heaps' := heaps + [s[0]];
        tables' := tables + [allAnswers];
      }
    }

    /** `retract(Head, Body)` with every solution taken: an unbound head
      * raises; otherwise, once the body unified with `true`, the loop over
      * the snapshot removes each answer that unifies. See
      * `RetractOutcome`. */
    method Retract(h: Heap, head: Term, body: Term) returns (r: Outcome, tables: seq<seq<Answer>>)
      requires Consistent() && Valid(h) && InScope(h.next, head) && InScope(h.next, body)
      modifies this
      ensures Consistent()
      ensures (StoredArgsInScope(h.next, arity, old(allAnswers));
        (r, tables) == RetractOutcome(h, old(allAnswers), head, body))
      ensures allAnswers == if tables == [] then old(allAnswers) else tables[|tables| - 1]
      ensures tables != [] ==> indexed == map[] && got == {}
      ensures tables == [] ==> indexed == old(indexed) && got == old(got)
    {
      StoredArgsInScope(h.next, arity, allAnswers);
      tables := [];
      var d := Deref(h, head);
      if d.Var? {
        RetractOutcomeStops(h, allAnswers, head, body);
        return Raised(Str("instantiation_error")), tables;
      }
      var u := Unify(h, body, Sym(TRUE));
      if u.None? {
        RetractOutcomeStops(h, allAnswers, head, body);
        return Solutions([]), tables;
      }
      var heaps;
      heaps, tables := RemoveMatches(h, head, body, u.value);
      r := Solutions(heaps);
    }

    /** `retract` past the head check and the body's unification with
      * `true`: the loop over the snapshot, with the arguments of the head. */
    method RemoveMatches(h: Heap, head: Term, body: Term, h1: Heap) returns (heaps: seq<Heap>, tables: seq<seq<Answer>>)
      requires Consistent() && Valid(h) && InScope(h.next, head) && InScope(h.next, body)
      requires !Deref(h, head).Var? && Unify(h, body, Sym(TRUE)) == Some(h1)
      modifies this
      ensures Consistent()
      ensures (StoredArgsInScope(h.next, arity, old(allAnswers));
        (Solutions(heaps), tables) == RetractOutcome(h, old(allAnswers), head, body))
      ensures allAnswers == if tables == [] then old(allAnswers) else tables[|tables| - 1]
      ensures tables != [] ==> indexed == map[] && got == {}
      ensures tables == [] ==> indexed == old(indexed) && got == old(got)
    {
      StoredArgsInScope(h.next, arity, allAnswers);
      RetractOutcomeIs(h, allAnswers, head, body, h1);
      ghost var found := AnswersSolutions(h1, FunctorArgs(h, head), allAnswers);
      heaps, tables := RemoveHits(h1, FunctorArgs(h, head), found);
    }
  }
}
