// The decoding helpers of the Prolog reader: escape letters and symbol
// characters, decimal and based numbers, one (possibly escaped) character
// of a quoted item, the operator table and what `exprtl_7` does with the
// token after a complete left operand, and `remove_pos`, which turns a
// term read with positions into a plain term.
//
// The reader takes its codes from the current input stream; here that
// stream is an explicit sequence of codes, and reading past its end gives
// -1, as `get_code` does at end of file.
module Parser {
  import opened Wrappers
  import opened Atoms
  import opened Terms
  import opened Variables

  // ---------------------------------------------------------------------
  // The input.

  /** `get_code`: the next code and the input after it; -1 at the end,
    * which leaves the input as it is. */
  function GetCode(input: seq<int>): (r: (int, seq<int>))
    ensures input == [] ==> r == (-1, [])
    ensures input != [] ==> [r.0] + r.1 == input
  {
    if input == [] then (-1, []) else (input[0], input[1..])
  }

  predicate IsDigit(c: int) { 48 <= c <= 57 }

  predicate IsOctal(c: int) { 48 <= c <= 55 }

  // ---------------------------------------------------------------------
  // Characters.

  /** The letters that follow a backslash in a control escape. */
  const EscapeLetters: seq<int> := [110, 116, 114, 118, 98, 102, 101, 100, 115, 122]

  /** The lower-case form of an ASCII letter; any other code unchanged. */
  function ToLower(c: int): int
  {
    if 65 <= c <= 90 then c + 32 else c
  }

  /** `escape_char(C, Code)`: the control code a letter stands for after a
    * backslash, in either case; nothing for any other code. */
  function EscapeChar(c: int): (r: Option<int>)
    ensures r.Some? <==> ToLower(c) in EscapeLetters
    ensures r.Some? ==> r.value == -1 || 8 <= r.value <= 13 || r.value == 27 || r.value == 32 || r.value == 127
  {
    if c == 110 || c == 78 then Some(10)
    else if c == 116 || c == 84 then Some(9)
    else if c == 114 || c == 82 then Some(13)
    else if c == 118 || c == 86 then Some(11)
    else if c == 98 || c == 66 then Some(8)
    else if c == 102 || c == 70 then Some(12)
    else if c == 101 || c == 69 then Some(27)
    else if c == 100 || c == 68 then Some(127)
    else if c == 115 || c == 83 then Some(32)
    else if c == 122 || c == 90 then Some(-1)
    else None
  }

  /** Upper and lower case escape letters mean the same. */
  lemma EscapeIgnoresCase(c: int)
    ensures EscapeChar(c) == EscapeChar(ToLower(c))
  {
  }

  /** The layout escapes: `\n` newline, `\t` tab, `\r` return, `\v`
    * vertical tab and `\s` space. */
  lemma LayoutEscapes()
    ensures EscapeChar('n' as int) == Some(10) && EscapeChar('t' as int) == Some(9)
    ensures EscapeChar('r' as int) == Some(13) && EscapeChar('v' as int) == Some(11)
    ensures EscapeChar('s' as int) == Some(32)
  {
  }

  /** The other escapes: `\b` backspace, `\f` form feed, `\e` escape,
    * `\d` delete and `\z` end of file. */
  lemma ControlLetterEscapes()
    ensures EscapeChar('b' as int) == Some(8) && EscapeChar('f' as int) == Some(12)
    ensures EscapeChar('e' as int) == Some(27) && EscapeChar('d' as int) == Some(127)
    ensures EscapeChar('z' as int) == Some(-1)
  {
  }

  /** The symbol characters that make up operators such as `=..`. */
  const SymbolChars: string := "#$&*+-./:<=>?@\\^`~"

  /** `symbol_char(C)`: C is one of the symbol characters. */
  predicate SymbolChar(c: int)
  {
    c == 35 || c == 36 || c == 38 || c == 42 || c == 43 || c == 45 || c == 46 || c == 47 || c == 58 ||
    c == 60 || c == 61 || c == 62 || c == 63 || c == 64 || c == 92 || c == 94 || c == 96 || c == 126
  }

  /** The symbol characters are exactly those of the string above; none
    * is a letter, a digit, `_`, a layout code or a solo character. */
  lemma SymbolCharsAre(c: int)
    ensures SymbolChar(c) <==> exists i | 0 <= i < |SymbolChars| :: SymbolChars[i] as int == c
    ensures SymbolChar(c) ==>
      33 <= c <= 126 && !IsDigit(c) && !(65 <= c <= 90) && !(97 <= c <= 122) && c != 95 &&
      c != 33 && c != 44 && c != 59 && c != 124 && c != 34 && c != 39 && c != 40 && c != 41
  {
    if SymbolChar(c) {
      var i :| 0 <= i < |SymbolChars| && SymbolChars[i] as int == c by {
        var codes := [35, 36, 38, 42, 43, 45, 46, 47, 58, 60, 61, 62, 63, 64, 92, 94, 96, 126];
        assert forall k | 0 <= k < 18 :: SymbolChars[k] as int == codes[k];
        assert c in codes;
      }
    }
  }

  // ---------------------------------------------------------------------
  // Numbers.

  function Pow(base: int, k: nat): int
  {
    if k == 0 then 1 else base * Pow(base, k - 1)
  }

  /** The decimal value of some digit codes, most significant first. */
  function DecimalValue(digits: seq<int>): int
    decreases |digits|
  {
    if digits == [] then 0 else (digits[0] - 48) * Pow(10, |digits| - 1) + DecimalValue(digits[1..])
  }

  /** One more digit d on the right of n0, then k places: the same as
    * k + 1 places of n0 and k of d. */
  lemma ShiftIn(n0: int, base: int, d: int, k: nat)
    ensures (n0 * base + d) * Pow(base, k) == n0 * Pow(base, k + 1) + d * Pow(base, k)
  {
    var p := Pow(base, k);
    assert Pow(base, k + 1) == base * p;
    calc {
      (n0 * base + d) * p;
      n0 * base * p + d * p;
      { assert n0 * base * p == n0 * (base * p); }
      n0 * (base * p) + d * p;
    }
  }

  /** The longest prefix of s made of digits and `_`, with the `_` left out. */
  function LeadingDigits(s: seq<int>): seq<int>
    decreases |s|
  {
    if s == [] then []
    else if IsDigit(s[0]) then [s[0]] + LeadingDigits(s[1..])
    else if s[0] == 95 then LeadingDigits(s[1..])
    else []
  }

  /** The part of s after that prefix. */
  function AfterDigits(s: seq<int>): (r: seq<int>)
    ensures |r| <= |s|
    ensures r != [] ==> !IsDigit(r[0]) && r[0] != 95
    decreases |s|
  {
    if s != [] && (IsDigit(s[0]) || s[0] == 95) then AfterDigits(s[1..]) else s
  }

  /** The outcome of reading a number: its value, the code that ended it
    * and the input after that code. */
  datatype NumberRead = NumberRead(value: int, stop: int, rest: seq<int>)

  /** `read_number4(C0, C, N0, N)`: starting with the code C0 already
    * read, accumulate N0 * 10 + digit over the digits, skip `_`, and stop
    * at the first other code. */
  function ReadNumber4(c0: int, input: seq<int>, n0: int): (r: NumberRead)
    ensures !IsDigit(r.stop) && r.stop != 95
    decreases |input|, if IsDigit(c0) || c0 == 95 then 1 else 0
  {
    if IsDigit(c0) then
      var (c1, rest) := GetCode(input);
      ReadNumber4(c1, rest, n0 * 10 - 48 + c0)
    else if c0 == 95 then
      var (c1, rest) := GetCode(input);
      ReadNumber4(c1, rest, n0)
    else NumberRead(n0, c0, input)
  }

  /** The value read is N0 shifted by one decimal place per digit, plus
    * the digits' value; the code that stops it is the first code that is
    * neither a digit nor `_` (or -1 at the end), and the input after it is
    * left unread. */
  lemma {:induction false} ReadNumber4Value(c0: int, input: seq<int>, n0: int)
    ensures var s := [c0] + input;
      var digits := LeadingDigits(s);
      var after := AfterDigits(s);
      ReadNumber4(c0, input, n0) ==
        NumberRead(n0 * Pow(10, |digits|) + DecimalValue(digits),
                   if after == [] then -1 else after[0],
                   if after == [] then [] else after[1..])
    decreases |input|, if IsDigit(c0) || c0 == 95 then 1 else 0
  {
    var s := [c0] + input;
    assert s[1..] == input;
    if IsDigit(c0) || c0 == 95 {
      var (c1, rest) := GetCode(input);
      var n1 := if IsDigit(c0) then n0 * 10 - 48 + c0 else n0;
      ReadNumber4Value(c1, rest, n1);
      var digits := LeadingDigits(input);
      if input == [] {
        assert LeadingDigits([c1] + rest) == [] && AfterDigits([c1] + rest) == [-1];
      } else {
        assert [c1] + rest == input;
      }
      if IsDigit(c0) {
        assert LeadingDigits(s) == [c0] + digits;
        assert ([c0] + digits)[1..] == digits;
        ShiftIn(n0, 10, c0 - 48, |digits|);
      }
    }
  }

  /** `read_based`'s value of a digit code: 0-9, then A-Z and a-z as
    * 10-35; 99 for any other code. */
  function DigitValue(c: int): (d: int)
    ensures 0 <= d <= 35 || d == 99
    ensures d <= 35 <==> IsDigit(c) || 65 <= c <= 90 || 97 <= c <= 122
  {
    if IsDigit(c) then c - 48
    else if 65 <= c <= 90 then c - (65 - 10)
    else if 97 <= c <= 122 then c - (97 - 10)
    else 99
  }

  /** The value of some codes in the given base, most significant first. */
  function BasedValue(base: int, digits: seq<int>): int
    decreases |digits|
  {
    if digits == [] then 0 else DigitValue(digits[0]) * Pow(base, |digits| - 1) + BasedValue(base, digits[1..])
  }

  /** The longest prefix of s made of digits of the base and `_`, with
    * the `_` left out. */
  function LeadingBased(base: int, s: seq<int>): (r: seq<int>)
    ensures forall i | 0 <= i < |r| :: DigitValue(r[i]) < base
    decreases |s|
  {
    if s == [] then []
    else if DigitValue(s[0]) < base then [s[0]] + LeadingBased(base, s[1..])
    else if s[0] == 95 then LeadingBased(base, s[1..])
    else []
  }

  function AfterBased(base: int, s: seq<int>): (r: seq<int>)
    ensures |r| <= |s|
    ensures r != [] ==> DigitValue(r[0]) >= base && r[0] != 95
    decreases |s|
  {
    if s != [] && (DigitValue(s[0]) < base || s[0] == 95) then AfterBased(base, s[1..]) else s
  }

  /** `read_based(Base, N0, N, C)`: read codes, accumulating N0 * Base + d
    * while the digit value d is below the base, skipping `_`, and stop at
    * the first other code. The reader calls it only for `Base'` with
    * 2 <= Base <= 36, so the end of the input (-1, of value 99) stops it. */
  function ReadBased(base: int, n0: int, input: seq<int>): (r: NumberRead)
    requires 2 <= base <= 36
    ensures DigitValue(r.stop) >= base && r.stop != 95
    ensures |r.rest| <= |input|
    decreases |input|
  {
    var (c1, rest) := GetCode(input);
    if DigitValue(c1) < base then ReadBased(base, n0 * base + DigitValue(c1), rest)
    else if c1 == 95 then ReadBased(base, n0, rest)
    else NumberRead(n0, c1, rest)
  }

  /** The value read is N0 shifted by one place per digit of the base,
    * plus those digits' value in the base; the code that stops it is the
    * first code that is neither such a digit nor `_`, or -1 at the end. */
  lemma {:induction false} ReadBasedValue(base: int, n0: int, input: seq<int>)
    requires 2 <= base <= 36
    ensures var digits := LeadingBased(base, input);
      var after := AfterBased(base, input);
      ReadBased(base, n0, input) ==
        NumberRead(n0 * Pow(base, |digits|) + BasedValue(base, digits),
                   if after == [] then -1 else after[0],
                   if after == [] then [] else after[1..])
    decreases |input|
  {
    if input != [] {
      var c1 := input[0];
      if DigitValue(c1) < base {
        ReadBasedValue(base, n0 * base + DigitValue(c1), input[1..]);
        var digits := LeadingBased(base, input[1..]);
        assert LeadingBased(base, input) == [c1] + digits;
        assert ([c1] + digits)[1..] == digits;
        ShiftIn(n0, base, DigitValue(c1), |digits|);
      } else if c1 == 95 {
        ReadBasedValue(base, n0, input[1..]);
      }
    }
  }

  // ---------------------------------------------------------------------
  // One character of a quoted item.

  /** The outcome of `read_char`: the code read (-1 for the end of the
    * item), the next code and the input after it. */
  datatype CharRead = CharRead(result: int, next: int, rest: seq<int>)

  /** `C \/ 32` for a code C >= 0: C with its bit of value 32 set. */
  function SetBit5(c: nat): nat
  {
    if (c / 32) % 2 == 1 then c else c + 32
  }

  /** `C /\ 31` for a code C >= 0: its low five bits. */
  function LowBits5(c: nat): nat
  {
    c % 32
  }

  lemma SetBit5Is99(c: nat)
    ensures SetBit5(c) == 99 <==> c == 67 || c == 99
  {
  }

  /** `read_char(Char, Quote, Result, Next)` with Char already read: a
    * backslash escape, a doubled quote, the closing quote (-1), a bad
    * control code (-1) or the code itself. */
  function ReadChar(code: int, quote: int, input: seq<int>): (r: CharRead)
    ensures |r.rest| <= |input|
    decreases |input|
  {
    if code == 92 then
      var (c1, rest1) := GetCode(input);
      if c1 < 0 then CharRead(-1, c1, rest1)
      else if c1 <= 32 then
        var (c2, rest2) := GetCode(rest1);
        ReadChar(c2, quote, rest2)
      else if SetBit5(c1) == 99 then
        var (c2, rest2) := GetCode(rest1);
        ReadChar(c2, quote, rest2)
      else if IsOctal(c1) then
        var (c2, rest2) := GetCode(rest1);
        if IsOctal(c2) then
          var (c3, rest3) := GetCode(rest2);
          if IsOctal(c3) then
            var (next, rest4) := GetCode(rest3);
            CharRead((c1 * 8 + c2) * 8 + c3 - 73 * 48, next, rest4)
          else CharRead(c1 * 8 + c2 - 9 * 48, c3, rest3)
        else CharRead(c1 - 48, c2, rest2)
      else if c1 == 94 then
        var (c2, rest2) := GetCode(rest1);
        if c2 < 0 then CharRead(-1, c2, rest2)
        else
          var (next, rest3) := GetCode(rest2);
          if c2 == 63 then CharRead(127, next, rest3) else CharRead(LowBits5(c2), next, rest3)
      else
        var (next, rest2) := GetCode(rest1);
        match EscapeChar(c1)
        case Some(e) => CharRead(e, next, rest2)
        case None => CharRead(c1, next, rest2)
    else if code == quote then
      var (ch, rest1) := GetCode(input);
      if ch == quote then
        var (next, rest2) := GetCode(rest1);
        CharRead(quote, next, rest2)
      else CharRead(-1, ch, rest1)
    else if code < 32 && code != 9 && code != 10 && code != 13 then CharRead(-1, code, input)
    else
      var (next, rest1) := GetCode(input);
      CharRead(code, next, rest1)
  }

  /** One, two or three octal digits after a backslash give their octal
    * value; a following code that is not an octal digit is the next code. */
  lemma OctalEscapes(quote: int, c1: int, c2: int, c3: int, s: seq<int>)
    requires IsOctal(c1) && IsOctal(c2) && IsOctal(c3)
    ensures ReadChar(92, quote, [c1, c2, c3] + s) == CharRead(64 * (c1 - 48) + 8 * (c2 - 48) + (c3 - 48), GetCode(s).0, GetCode(s).1)
    ensures s != [] && !IsOctal(s[0]) ==>
      ReadChar(92, quote, [c1, c2] + s) == CharRead(8 * (c1 - 48) + (c2 - 48), s[0], s[1..])
    ensures s != [] && !IsOctal(s[0]) ==> ReadChar(92, quote, [c1] + s) == CharRead(c1 - 48, s[0], s[1..])
  {
    assert ([c1, c2, c3] + s)[1..] == [c2, c3] + s;
    assert ([c1, c2, c3] + s)[1..][1..] == [c3] + s;
    assert ([c1, c2, c3] + s)[1..][1..][1..] == s;
    assert ([c1, c2] + s)[1..] == [c2] + s;
    assert ([c1, c2] + s)[1..][1..] == s;
    assert ([c1] + s)[1..] == s;
  }

  /** `\^?` is delete and `\^C` is C's low five bits. */
  lemma ControlEscapes(quote: int, c: int, s: seq<int>)
    requires c >= 0
    ensures ReadChar(92, quote, [94, c] + s) ==
      CharRead(if c == 63 then 127 else LowBits5(c), GetCode(s).0, GetCode(s).1)
  {
    assert ([94, c] + s)[1..] == [c] + s;
    assert ([94, c] + s)[1..][1..] == s;
  }

  /** A doubled quote stands for the quote; a quote followed by anything
    * else ends the item, with that code as the next one. */
  lemma QuoteHandling(quote: int, s: seq<int>)
    requires quote != 92
    ensures ReadChar(quote, quote, [quote] + s) == CharRead(quote, GetCode(s).0, GetCode(s).1)
    ensures s != [] && s[0] != quote ==> ReadChar(quote, quote, s) == CharRead(-1, s[0], s[1..])
  {
    assert ([quote] + s)[1..] == s;
  }

  /** How a character is written inside an item quoted by quote: the
    * quote doubled, a backslash as `\\`, a control code as a three-digit
    * octal escape, anything else as itself. */
  function Spell(c: nat, quote: int): (s: seq<int>)
    ensures s != []
  {
    if c == quote then [quote, quote]
    else if c == 92 then [92, 92]
    else if c < 32 then [92, 48 + c / 64, 48 + (c / 8) % 8, 48 + c % 8]
    else [c]
  }

  lemma OctalSpelling(c: nat)
    requires c < 32
    ensures var o1, o2, o3 := 48 + c / 64, 48 + (c / 8) % 8, 48 + c % 8;
      IsOctal(o1) && IsOctal(o2) && IsOctal(o3) && 64 * (o1 - 48) + 8 * (o2 - 48) + (o3 - 48) == c
  {
    assert c / 64 == 0;
    assert (c / 8) % 8 == c / 8;
  }

  /** Reading a spelled character gives the character back, and the code
    * after its spelling as the next code: for any printable quote other
    * than the backslash, every code >= 0 can be written in a quoted item. */
  lemma SpellRoundTrip(c: nat, quote: int, s: seq<int>)
    requires 32 < quote && quote != 92
    ensures var sp := Spell(c, quote);
      ReadChar(sp[0], quote, sp[1..] + s) == CharRead(c, GetCode(s).0, GetCode(s).1)
  {
    if c == quote {
      QuoteSpelling(quote, s);
    } else if c == 92 {
      BackslashSpelling(quote, s);
    } else if c < 32 {
      var o1, o2, o3 := 48 + c / 64, 48 + (c / 8) % 8, 48 + c % 8;
      OctalSpelling(c);
      OctalEscapes(quote, o1, o2, o3, s);
      assert Spell(c, quote)[1..] + s == [o1, o2, o3] + s;
    } else {
      assert Spell(c, quote)[1..] + s == s;
    }
  }

  lemma QuoteSpelling(quote: int, s: seq<int>)
    requires 32 < quote && quote != 92
    ensures ReadChar(quote, quote, [quote] + s) == CharRead(quote, GetCode(s).0, GetCode(s).1)
  {
    QuoteHandling(quote, s);
  }

  lemma BackslashSpelling(quote: int, s: seq<int>)
    requires quote != 92
    ensures ReadChar(92, quote, [92] + s) == CharRead(92, GetCode(s).0, GetCode(s).1)
  {
    assert ([92] + s)[1..] == s;
    assert SetBit5(92) == 124;
    assert EscapeChar(92).None?;
  }

  // ---------------------------------------------------------------------
  // Operators.

  datatype Specifier = XFX | XFY | YFX | FX | FY | XF | YF

  /** `current_op(O, Specifier, F)` with the specifier and the name
    * given: the priority the built-in table gives that operator. The table
    * has no two entries with the same specifier and name, so at most one
    * answer. */
  function CurrentOp(specifier: Specifier, name: string): (r: Option<int>)
    ensures r.Some? ==> 1 <= r.value <= 1200
  {
    match specifier
    case XFX =>
      if name == ":-" || name == "-->" then Some(1200)
      else if name == "=" || name == "\\=" || name == "==" || name == "\\==" || name == "@<" || name == "@=<" ||
              name == "@>" || name == "@>=" || name == "=.." || name == "is" || name == "=:=" || name == "=\\=" ||
              name == "<" || name == "=<" || name == ">" || name == ">=" then Some(700)
      else if name == "**" then Some(200)
      else if name == "<--" then Some(20)
      else None
    case XFY =>
      if name == ";" then Some(1100)
      else if name == "->" then Some(1050)
      else if name == "," then Some(1000)
      else if name == ":" then Some(600)
      else if name == "^" then Some(200)
      else None
    case YFX =>
      if name == "+" || name == "-" || name == "/\\" || name == "\\/" then Some(500)
      else if name == "*" || name == "/" || name == "//" || name == "rem" || name == "mod" || name == "<<" || name == ">>" then Some(400)
      else None
    case FX =>
      if name == ":-" || name == "?-" then Some(1200) else None
    case FY =>
      if name == "\\+" then Some(900)
      else if name == "-" || name == "\\" then Some(200)
      else None
    case XF => None
    case YF => None
  }

  /** An operator table as `current_op` consults it with the specifier
    * and the name given; the reader uses the built-in one, CurrentOp. */
  type OperatorTable = (Specifier, string) -> Option<int>

  /** `prefixop(F, O, Q)`: the operator's priority and its argument's
    * highest priority, `fx` before `fy`: fx gives O - 1, fy gives O. */
  function PrefixOp(ops: OperatorTable, name: string): (r: Option<(int, int)>)
    ensures ops(FX, name).Some? ==> r == Some((ops(FX, name).value, ops(FX, name).value - 1))
    ensures ops(FX, name).None? && ops(FY, name).Some? ==>
      r == Some((ops(FY, name).value, ops(FY, name).value))
    ensures r.None? <==> ops(FX, name).None? && ops(FY, name).None?
  {
    match ops(FX, name)
    case Some(o) => Some((o, o - 1))
    case None =>
      match ops(FY, name)
      case Some(o) => Some((o, o))
      case None => None
  }

  /** `infixop(F, P, O, Q)`: the left argument's highest priority, the
    * operator's and the right argument's, tried as xfy (O - 1, O), then
    * xfx (O - 1, O - 1), then yfx (O, O - 1). */
  function InfixOp(ops: OperatorTable, name: string): (r: Option<(int, int, int)>)
    ensures r.Some? ==>
      (ops(XFY, name) == Some(r.value.1) && r.value.0 == r.value.1 - 1 && r.value.2 == r.value.1) ||
      (ops(XFY, name).None? && ops(XFX, name) == Some(r.value.1) &&
       r.value.0 == r.value.1 - 1 && r.value.2 == r.value.1 - 1) ||
      (ops(XFY, name).None? && ops(XFX, name).None? && ops(YFX, name) == Some(r.value.1) &&
       r.value.0 == r.value.1 && r.value.2 == r.value.1 - 1)
    ensures r.None? <==> ops(XFY, name).None? && ops(XFX, name).None? && ops(YFX, name).None?
  {
    match ops(XFY, name)
    case Some(o) => Some((o - 1, o, o))
    case None =>
      match ops(XFX, name)
      case Some(o) => Some((o - 1, o, o - 1))
      case None =>
        match ops(YFX, name)
        case Some(o) => Some((o, o, o - 1))
        case None => None
  }

  /** `postfixop(F, P, O)`: the argument's highest priority and the
    * operator's, xf (O - 1) before yf (O). */
  function PostfixOp(ops: OperatorTable, name: string): (r: Option<(int, int)>)
    ensures ops(XF, name).Some? ==> r == Some((ops(XF, name).value - 1, ops(XF, name).value))
    ensures ops(XF, name).None? && ops(YF, name).Some? ==>
      r == Some((ops(YF, name).value, ops(YF, name).value))
    ensures r.None? <==> ops(XF, name).None? && ops(YF, name).None?
  {
    match ops(XF, name)
    case Some(o) => Some((o - 1, o))
    case None =>
      match ops(YF, name)
      case Some(o) => Some((o, o))
      case None => None
  }

  /** Whatever the table, an operator's arguments may have at most the
    * operator's own priority, and an `x` argument strictly less. */
  lemma ArgumentsWithinOperator(ops: OperatorTable, name: string)
    ensures var r := PrefixOp(ops, name); r.Some? ==> r.value.1 <= r.value.0
    ensures var r := InfixOp(ops, name);
      r.Some? ==> r.value.0 <= r.value.1 && r.value.2 <= r.value.1 && (r.value.0 < r.value.1 || r.value.2 < r.value.1)
    ensures var r := PostfixOp(ops, name); r.Some? ==> r.value.0 <= r.value.1
  {
  }

  /** The table has no postfix operators, so no name is one. */
  lemma NoPostfixOperators(name: string)
    ensures PostfixOp(CurrentOp, name).None?
  {
  }

  /** Some entries of the table as the reader uses them: `,` and `;` are
    * right-associative, `-` is left-associative as an infix operator and
    * also a prefix operator, `:-` is both, and `**` is non-associative. */
  lemma OperatorExamples()
    ensures InfixOp(CurrentOp, ",") == Some((999, 1000, 1000)) && InfixOp(CurrentOp, ";") == Some((1099, 1100, 1100))
    ensures InfixOp(CurrentOp, "-") == Some((500, 500, 499)) && PrefixOp(CurrentOp, "-") == Some((200, 200))
    ensures InfixOp(CurrentOp, ":-") == Some((1199, 1200, 1199)) && PrefixOp(CurrentOp, ":-") == Some((1200, 1199))
    ensures InfixOp(CurrentOp, "**") == Some((199, 200, 199))
  {
  }

  // ---------------------------------------------------------------------
  // The token after a left operand.

  /** What `exprtl_7` does with the token after a left operand of
    * priority C in a context of the given priority: parse a right operand
    * of priority at most `right` and combine with the infix operator;
    * apply the postfix operator; parse a `,` or `|` right operand (the
    * latter building `;`); or end the expression before the token. */
  datatype Continue =
    | ApplyInfix(op: Term, pos: Term, right: int, priority: int)
    | ApplyPostfix(op: Term, pos: Term, priority: int)
    | ApplyComma
    | ApplyBar
    | Finish

  predicate IsSymbol(t: Term, name: string)
  {
    t.Sym? && t.atom.name == name
  }

  /** A token `infixop(F/Pos, L, O, R)` with integer priorities. */
  predicate InfixToken(t: Term)
  {
    t.Compound? && t.name.name == "infixop" && |t.args| == 4 &&
    t.args[0].Compound? && t.args[0].name.name == "/" && |t.args[0].args| == 2 &&
    t.args[1].Int? && t.args[2].Int? && t.args[3].Int?
  }

  /** A token `postfixop(F/Pos, L, O)` with integer priorities. */
  predicate PostfixToken(t: Term)
  {
    t.Compound? && t.name.name == "postfixop" && |t.args| == 3 &&
    t.args[0].Compound? && t.args[0].name.name == "/" && |t.args[0].args| == 2 &&
    t.args[1].Int? && t.args[2].Int?
  }

  function Exprtl7(token: Term, c: int, precedence: int): (r: Continue)
    ensures r.ApplyInfix? <==> InfixToken(token) && token.args[2].value <= precedence && c <= token.args[1].value
    ensures r.ApplyPostfix? <==> PostfixToken(token) && token.args[2].value <= precedence && c <= token.args[1].value
    ensures r.ApplyComma? <==> IsSymbol(token, ",") && precedence >= 1000 && c < 1000
    ensures r.ApplyBar? <==> IsSymbol(token, "|") && precedence >= 1100 && c < 1100
    ensures r.ApplyInfix? ==> (r.op == token.args[0].args[0] && r.pos == token.args[0].args[1] &&
      r.right == token.args[3].value && r.priority == token.args[2].value)
    ensures r.ApplyPostfix? ==> (r.op == token.args[0].args[0] && r.pos == token.args[0].args[1] &&
      r.priority == token.args[2].value)
  {
    if InfixToken(token) && token.args[2].value <= precedence && c <= token.args[1].value then
      ApplyInfix(token.args[0].args[0], token.args[0].args[1], token.args[3].value, token.args[2].value)
    else if PostfixToken(token) && token.args[2].value <= precedence && c <= token.args[1].value then
      ApplyPostfix(token.args[0].args[0], token.args[0].args[1], token.args[2].value)
    else if IsSymbol(token, ",") && precedence >= 1000 && c < 1000 then ApplyComma
    else if IsSymbol(token, "|") && precedence >= 1100 && c < 1100 then ApplyBar
    else Finish
  }

  /** The priority of the operand built by a step, which becomes C for
    * the next token. */
  function NextLeft(r: Continue): Option<int>
  {
    match r
    case ApplyInfix(_, _, _, o) => Some(o)
    case ApplyPostfix(_, _, o) => Some(o)
    case ApplyComma => Some(1000)
    case ApplyBar => Some(1100)
    case Finish => None
  }

  /** Every step keeps the operand within the context's priority, and a
    * `,` or `|` step strictly raises the left operand's priority, so a
    * run of them ends. */
  lemma LeftStaysWithinContext(token: Term, c: int, precedence: int)
    ensures NextLeft(Exprtl7(token, c, precedence)).Some? ==> NextLeft(Exprtl7(token, c, precedence)).value <= precedence
    ensures Exprtl7(token, c, precedence).ApplyComma? || Exprtl7(token, c, precedence).ApplyBar? ==>
      c < NextLeft(Exprtl7(token, c, precedence)).value
    ensures Exprtl7(token, c, precedence).Finish? <==> NextLeft(Exprtl7(token, c, precedence)).None?
  {
  }

  /** With an operand of priority 999, a `,` continues in a context of
    * 1000 or more; after it (at priority 1000) a second `,` ends the
    * expression, so `,` groups to the right through the recursive parse. */
  lemma CommaGroupsRight(precedence: int)
    requires precedence >= 1000
    ensures Exprtl7(Sym(Atom(",", None)), 999, precedence) == ApplyComma
    ensures Exprtl7(Sym(Atom(",", None)), 1000, precedence) == Finish
  {
  }

  // ---------------------------------------------------------------------
  // Terms with positions.

  predicate IsNil(t: Term)
  {
    t.Sym? && t.atom.name == "[]"
  }

  /** `remove_pos(PosTerm, Term)`: a variable is kept, `$VAR(Pos, Name, X)`
    * with X unbound gives X, `[]` is kept, list cells and `,` are kept with
    * their parts done, other atomic terms are kept, and any other compound
    * loses its first (position) argument, becoming an atom when that was
    * its only one. Variables are unbound in the terms read. */
  function RemovePos(t: Term): (r: Term)
    ensures t.Var? ==> r == t
    ensures forall v | v in VarList(r) :: v in VarList(t)
    decreases t
  {
    if t.Var? then t
    else if IsVarTerm(t) then
      VarListArgsAt(t.args, 2);
      t.args[2]
    else if IsNil(t) then t
    else if IsPair(t) then
      var ra, rb := RemovePos(t.args[0]), RemovePos(t.args[1]);
      PairVars(t, ra, rb);
      Compound(t.name, [ra, rb])
    else if !t.Compound? || t.args == [] then t
    else
      var rest := RemovePosArgs(t, t.args[1..]);
      ArgsVars(t, rest);
      if rest == [] then Sym(t.name) else Compound(t.name, rest)
  }

  /** `$VAR(Pos, Name, X)` with X unbound: the reader's form of a variable. */
  predicate IsVarTerm(t: Term)
  {
    t.Compound? && t.name.name == "$VAR" && |t.args| == 3 && t.args[2].Var?
  }

  /** A list cell or a `,` pair. */
  predicate IsPair(t: Term)
  {
    t.Compound? && (t.name.name == "." || t.name.name == ",") && |t.args| == 2
  }

  function RemovePosArgs(parent: Term, args: seq<Term>): (r: seq<Term>)
    requires forall i | 0 <= i < |args| :: args[i] < parent
    ensures |r| == |args|
    ensures forall i | 0 <= i < |args| :: r[i] == RemovePos(args[i])
    decreases parent, |args|
  {
    if args == [] then [] else [RemovePos(args[0])] + RemovePosArgs(parent, args[1..])
  }

  lemma PairVars(t: Term, ra: Term, rb: Term)
    requires t.Compound? && |t.args| == 2
    requires forall v | v in VarList(ra) :: v in VarList(t.args[0])
    requires forall v | v in VarList(rb) :: v in VarList(t.args[1])
    ensures forall v | v in VarList(Compound(t.name, [ra, rb])) :: v in VarList(t)
  {
    forall v | v in VarList(Compound(t.name, [ra, rb])) ensures v in VarList(t) {
      VarListArgsEach([ra, rb], v);
      VarListArgsAt(t.args, 0);
      VarListArgsAt(t.args, 1);
    }
  }

  lemma ArgsVars(t: Term, rest: seq<Term>)
    requires t.Compound? && |t.args| >= 1 && |rest| == |t.args| - 1
    requires forall i | 0 <= i < |rest| :: forall v | v in VarList(rest[i]) :: v in VarList(t.args[i + 1])
    ensures forall v | v in VarList(if rest == [] then Sym(t.name) else Compound(t.name, rest)) :: v in VarList(t)
  {
    forall v | v in VarList(if rest == [] then Sym(t.name) else Compound(t.name, rest)) ensures v in VarList(t) {
      if rest != [] {
        VarListArgsEach(rest, v);
        var i :| 0 <= i < |rest| && v in VarList(rest[i]);
        VarListArgsAt(t.args, i + 1);
      }
    }
  }

  /** The reader's positional form of a plain term: a variable becomes
    * `$VAR(Pos, Name, X)`, list cells and `,` keep their shape, atomic
    * terms stay, and every other compound gets the position as an extra
    * first argument. */
  function WithPos(t: Term, pos: Term, name: Term): (r: Term)
    ensures !r.Var?
    decreases t
  {
    if t.Var? then Compound(Atom("$VAR", None), [pos, name, t])
    else if IsPair(t) then Compound(t.name, [WithPos(t.args[0], pos, name), WithPos(t.args[1], pos, name)])
    else if !t.Compound? || t.args == [] then t
    else Compound(t.name, [pos] + WithPosArgs(t, t.args, pos, name))
  }

  function WithPosArgs(parent: Term, args: seq<Term>, pos: Term, name: Term): (r: seq<Term>)
    requires forall i | 0 <= i < |args| :: args[i] < parent
    ensures |r| == |args|
    ensures forall i | 0 <= i < |args| :: r[i] == WithPos(args[i], pos, name)
    decreases parent, |args|
  {
    if args == [] then [] else [WithPos(args[0], pos, name)] + WithPosArgs(parent, args[1..], pos, name)
  }

  /** No `.` or `,` of one argument occurs in t: as the reader builds
    * them, those two always have two. */
  predicate NoUnaryPairs(t: Term)
    decreases t
  {
    match t
    case Compound(f, args) =>
      !((f.name == "." || f.name == ",") && |args| == 1) &&
      forall i | 0 <= i < |args| :: NoUnaryPairs(args[i])
    case _ => true
  }

  /** Removing the positions of a term in positional form gives the term
    * back. */
  lemma {:induction false} RemovePosUndoesWithPos(t: Term, pos: Term, name: Term)
    requires NoUnaryPairs(t)
    ensures RemovePos(WithPos(t, pos, name)) == t
    decreases t
  {
    if t.Var? {
      assert IsVarTerm(WithPos(t, pos, name));
    } else if IsPair(t) {
      RemovePosUndoesWithPos(t.args[0], pos, name);
      RemovePosUndoesWithPos(t.args[1], pos, name);
      PairUndone(t, pos, name);
    } else if !t.Compound? || t.args == [] {
    } else {
      forall i | 0 <= i < |t.args| ensures RemovePos(WithPos(t.args[i], pos, name)) == t.args[i] {
        RemovePosUndoesWithPos(t.args[i], pos, name);
      }
      CompoundUndone(t, pos, name);
    }
  }

  lemma PairUndone(t: Term, pos: Term, name: Term)
    requires IsPair(t)
    requires RemovePos(WithPos(t.args[0], pos, name)) == t.args[0]
    requires RemovePos(WithPos(t.args[1], pos, name)) == t.args[1]
    ensures RemovePos(WithPos(t, pos, name)) == t
  {
    var p := WithPos(t, pos, name);
    assert IsPair(p) && !IsVarTerm(p) && !IsNil(p);
    assert t.args == [t.args[0], t.args[1]];
  }

  lemma CompoundUndone(t: Term, pos: Term, name: Term)
    requires t.Compound? && t.args != [] && !IsPair(t) && NoUnaryPairs(t)
    requires forall i | 0 <= i < |t.args| :: RemovePos(WithPos(t.args[i], pos, name)) == t.args[i]
    ensures RemovePos(WithPos(t, pos, name)) == t
  {
    var args := WithPosArgs(t, t.args, pos, name);
    var p := Compound(t.name, [pos] + args);
    assert WithPos(t, pos, name) == p;
    assert !IsVarTerm(p) by {
      if |t.args| == 2 { assert !args[1].Var?; }
    }
    assert !IsPair(p) by {
      if |t.args| == 1 { assert !(t.name.name == "." || t.name.name == ","); }
    }
    assert p.args[1..] == args;
    var rest := RemovePosArgs(p, p.args[1..]);
    assert rest == t.args;
  }
}
