// String comparison as the host language does it. A host string is a
// sequence of UTF-16 code units and `<` on strings is lexicographic on
// those units, a proper prefix being smaller. A model string is a sequence
// of Unicode scalar values, so the comparison goes through the UTF-16
// encoding: a character outside the Basic Multilingual Plane is written as
// a surrogate pair, whose first unit (0xD800-0xDBFF) is below every
// character in U+E000-U+FFFF.
module Text {

  /** The UTF-16 code units of one character: the character itself below
    * U+10000, otherwise a high surrogate followed by a low surrogate. */
  function CodeUnits(c: char): (u: seq<int>)
    ensures (c as int < 0x1_0000 ==> u == [c as int]) && (c as int >= 0x1_0000 ==> |u| == 2)
    ensures c as int >= 0x1_0000 ==> 0xD800 <= u[0] < 0xDC00 && 0xDC00 <= u[1] < 0xE000
    ensures c as int >= 0x1_0000 ==> c as int == 0x1_0000 + (u[0] - 0xD800) * 0x400 + (u[1] - 0xDC00)
  {
    if c as int < 0x1_0000 then [c as int]
    else
      var v := c as int - 0x1_0000;
      [0xD800 + v / 0x400, 0xDC00 + v % 0x400]
  }

  /** The UTF-16 encoding of a string (what the host stores). */
  function Utf16(s: string): (u: seq<int>)
    ensures |u| >= |s|
  {
    if s == [] then [] else CodeUnits(s[0]) + Utf16(s[1..])
  }

  /** Lexicographic strict order on code-unit sequences. */
  predicate UnitsLess(a: seq<int>, b: seq<int>)
    decreases |a|
  {
    if a == [] then b != []
    else if b == [] then false
    else if a[0] != b[0] then a[0] < b[0]
    else UnitsLess(a[1..], b[1..])
  }

  /** The host's `a < b` on strings. */
  predicate StrLess(a: string, b: string)
  {
    UnitsLess(Utf16(a), Utf16(b))
  }

  /** The first code unit of a character tells how many units it takes, so
    * no character's encoding is a proper prefix of another's. */
  lemma CodeUnitsDecide(c: char, d: char, rest: seq<int>, more: seq<int>)
    requires CodeUnits(c) + rest == CodeUnits(d) + more
    ensures c == d && rest == more
  {
    var u, w := CodeUnits(c), CodeUnits(d);
    assert (CodeUnits(c) + rest)[0] == u[0] && (CodeUnits(d) + more)[0] == w[0];
    if c as int < 0x1_0000 {
      assert d as int < 0x1_0000;
      assert rest == (u + rest)[1..] && more == (w + more)[1..];
    } else {
      assert d as int >= 0x1_0000;
      assert (u + rest)[1] == u[1] && (w + more)[1] == w[1];
      assert rest == (u + rest)[2..] && more == (w + more)[2..];
    }
  }

  /** Distinct strings have distinct encodings. */
  lemma {:induction false} Utf16Injective(a: string, b: string)
    requires Utf16(a) == Utf16(b)
    ensures a == b
    decreases |a|
  {
    if a != [] && b != [] {
      CodeUnitsDecide(a[0], b[0], Utf16(a[1..]), Utf16(b[1..]));
      Utf16Injective(a[1..], b[1..]);
      assert a == [a[0]] + a[1..] && b == [b[0]] + b[1..];
    }
  }

  lemma {:induction false} UnitsLessIrreflexive(a: seq<int>)
    ensures !UnitsLess(a, a)
    decreases |a|
  {
    if a != [] { UnitsLessIrreflexive(a[1..]); }
  }

  lemma {:induction false} UnitsLessTransitive(a: seq<int>, b: seq<int>, c: seq<int>)
    requires UnitsLess(a, b) && UnitsLess(b, c)
    ensures UnitsLess(a, c)
    decreases |a|
  {
    if a != [] && b != [] && c != [] && a[0] == b[0] && b[0] == c[0] {
      UnitsLessTransitive(a[1..], b[1..], c[1..]);
    }
  }

  lemma {:induction false} UnitsLessTotal(a: seq<int>, b: seq<int>)
    requires a != b
    ensures UnitsLess(a, b) || UnitsLess(b, a)
    decreases |a|
  {
    if a != [] && b != [] && a[0] == b[0] {
      assert a == [a[0]] + a[1..] && b == [b[0]] + b[1..];
      UnitsLessTotal(a[1..], b[1..]);
    }
  }

  lemma {:induction false} UnitsLessAsymmetric(a: seq<int>, b: seq<int>)
    requires UnitsLess(a, b)
    ensures !UnitsLess(b, a)
    decreases |a|
  {
    if a != [] && b != [] && a[0] == b[0] {
      UnitsLessAsymmetric(a[1..], b[1..]);
    }
  }

  lemma StrLessIrreflexive(a: string)
    ensures !StrLess(a, a)
  {
    UnitsLessIrreflexive(Utf16(a));
  }

  lemma StrLessTransitive(a: string, b: string, c: string)
    requires StrLess(a, b) && StrLess(b, c)
    ensures StrLess(a, c)
  {
    UnitsLessTransitive(Utf16(a), Utf16(b), Utf16(c));
  }

  /** Any two distinct strings are ordered one way or the other. */
  lemma StrLessTotal(a: string, b: string)
    requires a != b
    ensures StrLess(a, b) || StrLess(b, a)
  {
    if Utf16(a) == Utf16(b) { Utf16Injective(a, b); }
    UnitsLessTotal(Utf16(a), Utf16(b));
  }

  lemma StrLessAsymmetric(a: string, b: string)
    requires StrLess(a, b)
    ensures !StrLess(b, a)
  {
    UnitsLessAsymmetric(Utf16(a), Utf16(b));
  }

  /** Within the Basic Multilingual Plane the order is the order of the
    * characters themselves. */
  lemma {:induction false} StrLessOfBmp(a: string, b: string)
    requires a != [] && b != [] && a[0] != b[0]
    requires a[0] as int < 0x1_0000 && b[0] as int < 0x1_0000
    ensures StrLess(a, b) <==> a[0] < b[0]
  {
    assert Utf16(a)[0] == a[0] as int && Utf16(b)[0] == b[0] as int;
  }

  /** A character outside the Basic Multilingual Plane sorts before one in
    * U+E000-U+FFFF, although its scalar value is larger: U+1F600 is
    * written 0xD83D 0xDE00, and 0xD83D < 0xFF21. */
  lemma {:induction false} SurrogateSortsEarly(a: string, b: string)
    requires a != [] && b != [] && a[0] as int >= 0x1_0000 && 0xE000 <= b[0] as int < 0x1_0000
    ensures StrLess(a, b) && !StrLess(b, a) && b[0] < a[0]
  {
    var u, w := Utf16(a), Utf16(b);
    assert u[0] == CodeUnits(a[0])[0] && w[0] == b[0] as int;
    assert u[0] < w[0];
  }

  /** Printable decimal form of an integer (the host's `"" + n`). */
  function DigitChar(d: nat): (c: char)
    requires d < 10
    ensures '0' <= c <= '9' && c as int - '0' as int == d
  {
    ('0' as int + d) as char
  }

  function NatToString(n: nat): (s: string)
    ensures |s| >= 1
    ensures forall i :: 0 <= i < |s| ==> '0' <= s[i] <= '9'
    decreases n
  {
    if n < 10 then [DigitChar(n)] else NatToString(n / 10) + [DigitChar(n % 10)]
  }

  function IntToString(i: int): (s: string)
    ensures |s| >= 1
    ensures (s[0] == '-') <==> i < 0
  {
    if i < 0 then "-" + NatToString(-i) else NatToString(i)
  }

  /** Value of a decimal digit string, the inverse of NatToString. */
  function DigitsValue(s: string): int
  {
    if s == [] then 0 else DigitsValue(s[..|s| - 1]) * 10 + (s[|s| - 1] as int - '0' as int)
  }

  lemma {:induction false} NatToStringRoundTrip(n: nat)
    ensures DigitsValue(NatToString(n)) == n
    decreases n
  {
    if n >= 10 {
      var s := NatToString(n / 10) + [DigitChar(n % 10)];
      assert s[..|s| - 1] == NatToString(n / 10);
      NatToStringRoundTrip(n / 10);
    }
  }
}
