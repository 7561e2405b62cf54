// The compiler's fixed call tables: the goals it lowers itself (special
// forms), the comparison goals it turns into conditionals, and the
// predicates it hands to a runtime function.
module CallTable {
  import opened Wrappers
  import opened Atoms

  /** `functorCallYPFunctionName(Name, Arity, FunctionName)`: the runtime
    * function for a predicate the compiler calls directly, one case per
    * clause of the source, tried in order. The name is matched by
    * unification, so a module-qualified atom matches by its name. */
  function YPFunctionName(name: Atom, arity: int): (r: Option<string>)
  {
    match (name.name, arity)
    case ("=", 2) => Some("YP.unify")
    case ("=..", 2) => Some("YP.univ")
    case ("var", 1) => Some("YP.var")
    case ("nonvar", 1) => Some("YP.nonvar")
    case ("arg", 3) => Some("YP.arg")
    case ("functor", 3) => Some("YP.functor")
    case ("repeat", 0) => Some("YP.repeat")
    case ("get_code", 1) => Some("YP.get_code")
    case ("current_op", 3) => Some("YP.current_op")
    case ("atom_length", 2) => Some("YP.atom_length")
    case ("atom_concat", 3) => Some("YP.atom_concat")
    case ("sub_atom", 5) => Some("YP.sub_atom")
    case ("atom_chars", 2) => Some("YP.atom_chars")
    case ("atom_codes", 2) => Some("YP.atom_codes")
    case ("char_code", 2) => Some("YP.char_code")
    case ("number_chars", 2) => Some("YP.number_chars")
    case ("number_codes", 2) => Some("YP.number_codes")
    case ("copy_term", 2) => Some("YP.copy_term")
    case ("sort", 2) => Some("YP.sort")
    case ("nl", 0) => Some("YP.nl")
    case ("write", 1) => Some("YP.write")
    case ("put_code", 1) => Some("YP.put_code")
    case ("see", 1) => Some("YP.see")
    case ("seen", 0) => Some("YP.seen")
    case ("tell", 1) => Some("YP.tell")
    case ("told", 0) => Some("YP.told")
    case ("clause", 2) => Some("YP.clause")
    case ("retract", 1) => Some("YP.retract")
    case ("abolish", 1) => Some("YP.abolish")
    case ("retractall", 1) => Some("YP.retractall")
    case ("atom", 1) => Some("YP.atom")
    case ("integer", 1) => Some("YP.integer")
    case ("float", 1) => Some("YP.isFloat")
    case ("number", 1) => Some("YP.number")
    case ("atomic", 1) => Some("YP.atomic")
    case ("compound", 1) => Some("YP.compound")
    case ("ground", 1) => Some("YP.ground")
    case ("==", 2) => Some("YP.termEqual")
    case ("\\==", 2) => Some("YP.termNotEqual")
    case ("@<", 2) => Some("YP.termLessThan")
    case ("@=<", 2) => Some("YP.termLessThanOrEqual")
    case ("@>", 2) => Some("YP.termGreaterThan")
    case ("@>=", 2) => Some("YP.termGreaterThanOrEqual")
    case ("throw", 1) => Some("YP.throwException")
    case ("current_prolog_flag", 2) => Some("YP.current_prolog_flag")
    case ("set_prolog_flag", 2) => Some("YP.set_prolog_flag")
    case ("current_input", 1) => Some("YP.current_input")
    case ("current_output", 1) => Some("YP.current_output")
    case ("read_term", 2) => Some("Parser.read_term2")
    case ("read_term", 3) => Some("Parser.read_term3")
    case ("read", 1) => Some("Parser.read1")
    case ("read", 2) => Some("Parser.read2")
    case _ => None
  }

  /** `binaryExpressionConditional(Name, FunctionName)`: the arithmetic
    * comparisons and the runtime functions that test them. */
  function BinaryExpressionConditional(name: Atom): (r: Option<string>)
    ensures r.Some? <==> name.name in {"=:=", "=\\=", ">", "<", ">=", "=<"}
  {
    match name.name
    case "=:=" => Some("YP.equal")
    case "=\\=" => Some("YP.notEqual")
    case ">" => Some("YP.greaterThan")
    case "<" => Some("YP.lessThan")
    case ">=" => Some("YP.greaterThanOrEqual")
    case "=<" => Some("YP.lessThanOrEqual")
    case _ => None
  }

  /** `functorCallIsSpecialForm(Name, Arity)`: the goals that the rules of
    * `compileRuleBody` lower themselves instead of calling a function.
    * Names are compared with `termEqual`, so by name. */
  predicate IsSpecialForm(name: Atom, arity: int)
  {
    (arity == 0 && name.name in {"!", "fail", "true"}) ||
    (arity == 1 && name.name in {"\\+", "once", "$CUTIF", "$DET_NONE_OUT", "call",
                                 "current_predicate", "asserta", "assertz", "assert"}) ||
    (arity == 2 && (name.name in {";", ",", "->", "\\=", "is"} || BinaryExpressionConditional(name).Some?)) ||
    (arity == 3 && name.name in {"findall", "bagof", "setof", "catch"})
  }

  /** No special form is also a predicate with a runtime function, so the
    * first rule of `functorCallFunctionName` never hides a table entry. */
  lemma SpecialFormsAreNotRuntimeCalls(name: Atom, arity: int)
    ensures IsSpecialForm(name, arity) ==> YPFunctionName(name, arity).None?
  {
    if IsSpecialForm(name, arity) {
      if arity == 1 {
        SpecialUnaryNotRuntime(name);
      } else if arity == 2 {
        SpecialBinaryNotRuntime(name);
      }
    }
  }

  lemma SpecialUnaryNotRuntime(name: Atom)
    requires IsSpecialForm(name, 1)
    ensures YPFunctionName(name, 1).None?
  {
  }

  lemma SpecialBinaryNotRuntime(name: Atom)
    requires IsSpecialForm(name, 2)
    ensures YPFunctionName(name, 2).None?
  {
  }
}
