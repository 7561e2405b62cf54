// The buffer readers and writer the `YP` stream built-ins use:
// `StringReader` and `CodeListReader` hand out one character code per
// `read` and -1 at the end, and `StringWriter` collects written text.
module Streams {
  import opened Wrappers
  import opened Atoms
  import opened Terms
  import opened Lists
  import opened AtomText
  import opened AtomLists

  // ---------------------------------------------------------------------
  // StringReader.

  /** The codes of the characters of s, in order. */
  function Codes(s: string): (r: seq<int>)
    ensures |r| == |s|
    ensures forall i | 0 <= i < |s| :: r[i] == CodeOf(s[i])
  {
    if s == [] then [] else [CodeOf(s[0])] + Codes(s[1..])
  }

  /** Reads the character codes of a string, then -1 from then on. */
  class StringReader {
    const input: string
    var index: nat

    ghost predicate Valid()
      reads this
    {
      index <= |input|
    }

    /** The characters not read yet. */
    function Remaining(): string
      requires Valid()
      reads this
    {
      input[index..]
    }

    constructor (inputString: string)
      ensures Valid() && input == inputString && Remaining() == inputString
    {
      input := inputString;
      index := 0;
    }

    /** `read`: the code of the next character, moving past it; -1 without
      * moving once every character has been read. */
    method Read() returns (code: int)
      requires Valid()
      modifies this
      ensures Valid()
      ensures old(Remaining()) == [] ==> code == -1 && index == old(index)
      ensures old(Remaining()) != [] ==>
        code == CodeOf(old(Remaining())[0]) && Remaining() == old(Remaining())[1..]
    {
      if index >= |input| {
        return -1;
      }
      code := CodeOf(input[index]);
      index := index + 1;
    }

    method Close()
    {
    }
  }

  // ---------------------------------------------------------------------
  // CodeListReader.

  /** The codes a reader positioned at the list cell t hands out: each head
    * that is bound to a number, up to the first cell that is no such
    * cell. */
  function PendingCodes(h: Heap, t: Term): seq<int>
    requires Valid(h)
    decreases Height(h, t), Size(t)
  {
    if IsCons(t) && Deref(h, t.args[0]).Int? then
      HeightArgsAt(h, t.args, 1);
      [Deref(h, t.args[0]).value] + PendingCodes(h, Deref(h, t.args[1]))
    else []
  }

  /** A reader of the list `atom_codes` makes of w hands out the codes of
    * the characters of w. */
  lemma {:induction false} PendingCodesOfCodeList(h: Heap, w: string)
    requires Valid(h)
    ensures PendingCodes(h, MakeList(CodeTerms(w))) == Codes(w)
    decreases |w|
  {
    if w != [] {
      assert CodeTerms(w)[1..] == CodeTerms(w[1..]);
      PendingCodesOfCodeList(h, w[1..]);
    }
  }

  /** Reads the codes of a Prolog list of character codes. */
  class CodeListReader {
    var codeList: Term

    /** The codes still to come when the bindings are those of h. */
    function Pending(h: Heap): seq<int>
      requires Valid(h)
      reads this
    {
      PendingCodes(h, codeList)
    }

    constructor (h: Heap, codes: Term)
      requires Valid(h)
      ensures codeList == Deref(h, codes)
    {
      codeList := Deref(h, codes);
    }

    /** `read`: while the current cell has a head bound to a number, that
      * number, moving on to the tail; otherwise -1, and the reader is left
      * at `[]` so that it keeps answering -1. */
    method Read(h: Heap) returns (code: int)
      requires Valid(h)
      modifies this
      ensures old(Pending(h)) == [] ==> code == -1 && codeList == Sym(NIL) && Pending(h) == []
      ensures old(Pending(h)) != [] ==> code == old(Pending(h))[0] && Pending(h) == old(Pending(h))[1..]
    {
      if !(IsCons(codeList) && Deref(h, codeList.args[0]).Int?) {
        codeList := Sym(NIL);
        return -1;
      }
      code := Deref(h, codeList.args[0]).value;
      codeList := Deref(h, codeList.args[1]);
    }

    method Close()
    {
    }
  }

  // ---------------------------------------------------------------------
  // StringWriter.

  /** The pieces joined in order (the host's `join("")`). */
  function Concat(pieces: seq<string>): string
  {
    if pieces == [] then "" else Concat(pieces[..|pieces| - 1]) + pieces[|pieces| - 1]
  }

  /** Collects the text written to it. */
  class StringWriter {
    var pieces: seq<string>

    constructor ()
      ensures pieces == [] && ToString() == ""
    {
      pieces := [];
    }

    /** `toString`: everything written so far, in order. */
    function ToString(): string
      reads this
    {
      Concat(pieces)
    }

    /** `write`: appends exactly the text. */
    method Write(text: string)
      modifies this
      ensures pieces == old(pieces) + [text]
      ensures ToString() == old(ToString()) + text
    {
      pieces := pieces + [text];
      assert pieces[..|pieces| - 1] == old(pieces);
    }

    /** `writeLine`: appends the text when one is given, then a newline. */
    method WriteLine(text: Option<string>)
      modifies this
      ensures text.Some? ==> pieces == old(pieces) + [text.value, "\n"]
      ensures text.None? ==> pieces == old(pieces) + ["\n"]
      ensures text.Some? ==> ToString() == old(ToString()) + text.value + "\n"
      ensures text.None? ==> ToString() == old(ToString()) + "\n"
    {
      if text.Some? {
        Write(text.value);
      }
      Write("\n");
    }

    /** `close` changes nothing. */
    method Close()
    {
    }
  }

  /** The text a fresh writer holds after `write('Hello World!'), nl`. */
  method HelloWorld() returns (w: StringWriter)
    ensures fresh(w) && w.ToString() == "Hello World!\n"
  {
    w := new StringWriter();
    w.Write("Hello World!");
    w.WriteLine(None);
  }
}
