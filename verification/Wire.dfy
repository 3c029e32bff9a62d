/** The instruction format on the wire: what a byte stream means, and how
    instructions are written (src/libguac/parser.c, src/libguac/protocol.c).

    An instruction is a list of elements, each written as its length in
    characters, a period and its content; commas separate elements and a
    semicolon ends the instruction.
  */
module Wire {
  import opened Unicode

  const MAX_LENGTH := 8192    // GUAC_INSTRUCTION_MAX_LENGTH
  const MAX_ELEMENTS := 128   // GUAC_INSTRUCTION_MAX_ELEMENTS

  const DOT: Byte := 46
  const COMMA: Byte := 44
  const SEMICOLON: Byte := 59

  predicate IsDigit(c: Byte) { 48 <= c <= 57 }

  // ---------------------------------------------------------------------
  // Reading
  // ---------------------------------------------------------------------

  datatype Decoded =
    | Incomplete
    | Malformed
    | Instruction(elements: seq<seq<Byte>>, length: nat)  // length in bytes, terminator included

  /** A place inside an instruction: in a length (with the digits so far) or in the
      content of an element (with the characters still due and where it began). */
  datatype Place =
    | InLength(digits: int)
    | InContent(due: int, begin: nat)

  datatype Progress = Progress(pos: nat, place: Place, elements: seq<seq<Byte>>)

  ghost predicate Fits(s: seq<Byte>, p: Progress) {
    p.pos <= |s| && (p.place.InContent? ==> p.place.begin <= p.pos)
  }

  /** The meaning of the stream `s` from a place inside its first instruction. */
  function Resume(s: seq<Byte>, p: Progress): Decoded
    requires Fits(s, p)
    decreases |s| - p.pos
  {
    if p.pos == |s| then Incomplete
    else
      var c := s[p.pos];
      match p.place
      case InLength(digits) =>
        if IsDigit(c) then Resume(s, Progress(p.pos + 1, InLength(digits * 10 + (c - 48)), p.elements))
        else if c == DOT && digits <= MAX_LENGTH then
          Resume(s, Progress(p.pos + 1, InContent(digits, p.pos + 1), p.elements))
        else Malformed
      case InContent(due, begin) =>
        if due < 0 || p.pos + CharSize(c) > |s| then Incomplete
        else if due > 0 then Resume(s, Progress(p.pos + CharSize(c), InContent(due - 1, begin), p.elements))
        else if c == SEMICOLON then Instruction(p.elements + [s[begin..p.pos]], p.pos + 1)
        else if c == COMMA then Resume(s, Progress(p.pos + 1, InLength(0), p.elements + [s[begin..p.pos]]))
        else Malformed
  }

  const START := Progress(0, InLength(0), [])

  /** The first instruction of the stream. */
  function Decode(s: seq<Byte>): Decoded {
    Resume(s, START)
  }

  lemma {:induction false} ResumeBounds(s: seq<Byte>, p: Progress)
    requires Fits(s, p)
    ensures var d := Resume(s, p);
      d.Instruction? ==> p.pos < d.length <= |s| && |p.elements| < |d.elements| && p.elements <= d.elements
    decreases |s| - p.pos
  {
    if p.pos < |s| {
      var c := s[p.pos];
      match p.place
      case InLength(digits) =>
        if IsDigit(c) {
          ResumeBounds(s, Progress(p.pos + 1, InLength(digits * 10 + (c - 48)), p.elements));
        } else if c == DOT && digits <= MAX_LENGTH {
          ResumeBounds(s, Progress(p.pos + 1, InContent(digits, p.pos + 1), p.elements));
        }
      case InContent(due, begin) =>
        if due >= 0 && p.pos + CharSize(c) <= |s| {
          if due > 0 {
            ResumeBounds(s, Progress(p.pos + CharSize(c), InContent(due - 1, begin), p.elements));
          } else if c == COMMA {
            ResumeBounds(s, Progress(p.pos + 1, InLength(0), p.elements + [s[begin..p.pos]]));
          }
        }
    }
  }

  lemma SliceOfPrefix(s: seq<Byte>, i: nat, j: nat, m: nat)
    requires i <= j <= m <= |s|
    ensures s[..m][i..j] == s[i..j]
  {
  }

  /** Bytes after an instruction do not matter, and without its last byte it is
      incomplete: the stream decides, not how much of it has arrived. */
  lemma {:induction false} PrefixDecides(s: seq<Byte>, m: nat, p: Progress)
    requires m <= |s| && Fits(s[..m], p) && Resume(s, p).Instruction?
    ensures Resume(s[..m], p) == if Resume(s, p).length <= m then Resume(s, p) else Incomplete
    decreases |s| - p.pos
  {
    ResumeBounds(s, p);
    if p.pos < m {
      var c := s[p.pos];
      match p.place
      case InLength(digits) =>
        if IsDigit(c) {
          PrefixDecides(s, m, Progress(p.pos + 1, InLength(digits * 10 + (c - 48)), p.elements));
        } else {
          PrefixDecides(s, m, Progress(p.pos + 1, InContent(digits, p.pos + 1), p.elements));
        }
      case InContent(due, begin) =>
        SliceOfPrefix(s, begin, p.pos, m);
        if due > 0 {
          var next := Progress(p.pos + CharSize(c), InContent(due - 1, begin), p.elements);
          ResumeBounds(s, next);
          if p.pos + CharSize(c) <= m {
            PrefixDecides(s, m, next);
          }
        } else if c == COMMA {
          PrefixDecides(s, m, Progress(p.pos + 1, InLength(0), p.elements + [s[begin..p.pos]]));
        }
    }
  }

  /** A length beyond the limit never leads to an instruction, whatever follows. */
  lemma {:induction false} TooLongNeverDecodes(s: seq<Byte>, p: Progress)
    requires Fits(s, p) && p.place.InLength? && p.place.digits > MAX_LENGTH
    ensures !Resume(s, p).Instruction?
    decreases |s| - p.pos
  {
    if p.pos < |s| && IsDigit(s[p.pos]) {
      TooLongNeverDecodes(s, Progress(p.pos + 1, InLength(p.place.digits * 10 + (s[p.pos] - 48)), p.elements));
    }
  }

  /** All instructions of a stream, in order, up to where it stops making sense. */
  function DecodeAll(s: seq<Byte>): seq<seq<seq<Byte>>>
    decreases |s|
  {
    var d := Decode(s);
    ResumeBounds(s, START);
    if d.Instruction? then [d.elements] + DecodeAll(s[d.length..]) else []
  }

  // ---------------------------------------------------------------------
  // Writing
  // ---------------------------------------------------------------------

  /** A non-negative integer in decimal, as guac_socket_write_int prints it. */
  function Decimal(n: nat): (r: seq<Byte>)
    ensures |r| >= 1 && forall i :: 0 <= i < |r| ==> IsDigit(r[i])
  {
    if n < 10 then [48 + n] else Decimal(n / 10) + [48 + n % 10]
  }

  /** __guac_socket_write_length_string. */
  function PrintElement(e: seq<Byte>): seq<Byte> {
    Decimal(Characters(e)) + [DOT] + e
  }

  /** An opcode and its arguments, separated by commas, ended by a semicolon. */
  function Print(elements: seq<seq<Byte>>): seq<Byte>
    requires |elements| > 0
  {
    if |elements| == 1 then PrintElement(elements[0]) + [SEMICOLON]
    else PrintElement(elements[0]) + [COMMA] + Print(elements[1..])
  }

  // ---------------------------------------------------------------------
  // Reading back what was written
  // ---------------------------------------------------------------------

  /** The parser agrees with a piece of the stream. */
  predicate At(s: seq<Byte>, pos: nat, piece: seq<Byte>) {
    pos + |piece| <= |s| && forall i :: 0 <= i < |piece| ==> s[pos + i] == piece[i]
  }

  lemma AtParts(s: seq<Byte>, pos: nat, a: seq<Byte>, b: seq<Byte>)
    requires At(s, pos, a + b)
    ensures At(s, pos, a) && At(s, pos + |a|, b)
  {
    assert forall i :: 0 <= i < |a| ==> (a + b)[i] == a[i];
    assert forall i :: 0 <= i < |b| ==> (a + b)[|a| + i] == b[i];
  }

  lemma AtByte(s: seq<Byte>, pos: nat, c: Byte)
    requires At(s, pos, [c])
    ensures pos < |s| && s[pos] == c
  {
    assert s[pos] == [c][0];
  }

  lemma {:induction false} ReadDecimal(s: seq<Byte>, pos: nat, n: nat, elements: seq<seq<Byte>>)
    requires At(s, pos, Decimal(n))
    ensures Resume(s, Progress(pos, InLength(0), elements)) ==
            Resume(s, Progress(pos + |Decimal(n)|, InLength(n), elements))
    decreases n
  {
    var d := Decimal(n);
    if n < 10 {
      assert s[pos] == d[0];
    } else {
      var k := |d| - 1;
      assert d == Decimal(n / 10) + [48 + n % 10];
      AtParts(s, pos, Decimal(n / 10), [48 + n % 10]);
      AtByte(s, pos + k, 48 + n % 10);
      ReadDecimal(s, pos, n / 10, elements);
    }
  }

  /** Walking over the characters of a whole string ends exactly behind it. */
  lemma {:induction false} ReadWhole(s: seq<Byte>, pos: nat, e: seq<Byte>, begin: nat, elements: seq<seq<Byte>>)
    requires At(s, pos, e) && Whole(e) && begin <= pos
    ensures Resume(s, Progress(pos, InContent(Characters(e), begin), elements)) ==
            Resume(s, Progress(pos + |e|, InContent(0, begin), elements))
    decreases |e|
  {
    if e != [] {
      var k := CharSize(e[0]);
      assert s[pos] == e[0] && e == e[..k] + e[k..];
      AtParts(s, pos, e[..k], e[k..]);
      ReadWhole(s, pos + k, e[k..], begin, elements);
    }
  }

  /** Walking over a string that is not whole goes past its end, and the element it
      reads, if any, is longer than the string. */
  lemma {:induction false} ReadBroken(s: seq<Byte>, pos: nat, e: seq<Byte>, begin: nat, elements: seq<seq<Byte>>)
    requires At(s, pos, e) && !Whole(e) && begin <= pos
    ensures var d := Resume(s, Progress(pos, InContent(Characters(e), begin), elements));
      d.Instruction? ==> |d.elements| > |elements| && |d.elements[|elements|]| > pos + |e| - begin
    decreases |e|
  {
    var k := CharSize(e[0]);
    assert s[pos] == e[0];
    if k < |e| {
      assert e == e[..k] + e[k..];
      AtParts(s, pos, e[..k], e[k..]);
      ReadBroken(s, pos + k, e[k..], begin, elements);
    } else if pos + k <= |s| {
      LastElement(s, Progress(pos + k, InContent(0, begin), elements));
    }
  }

  lemma LastElement(s: seq<Byte>, p: Progress)
    requires Fits(s, p) && p.place.InContent? && p.place.due == 0
    ensures var d := Resume(s, p);
      d.Instruction? ==> |d.elements| > |p.elements| && d.elements[|p.elements|] == s[p.place.begin..p.pos]
  {
    ResumeBounds(s, p);
    if p.pos < |s| && s[p.pos] == COMMA {
      ResumeBounds(s, Progress(p.pos + 1, InLength(0), p.elements + [s[p.place.begin..p.pos]]));
    }
  }

  /** What the printer must be given for the parser to return it. */
  predicate Printable(e: seq<Byte>) {
    Whole(e) && Characters(e) <= MAX_LENGTH
  }

  predicate AllPrintable(elements: seq<seq<Byte>>) {
    forall i :: 0 <= i < |elements| ==> Printable(elements[i])
  }

  /** Reads the length and the period of a printed element. */
  lemma ReadPrefix(s: seq<Byte>, pos: nat, e: seq<Byte>, elements: seq<seq<Byte>>)
    requires At(s, pos, PrintElement(e))
    ensures var k := |Decimal(Characters(e))|;
      && At(s, pos + k + 1, e)
      && Resume(s, Progress(pos, InLength(0), elements)) ==
         if Characters(e) <= MAX_LENGTH
         then Resume(s, Progress(pos + k + 1, InContent(Characters(e), pos + k + 1), elements))
         else Malformed
  {
    var d := Decimal(Characters(e));
    AtParts(s, pos, d + [DOT], e);
    AtParts(s, pos, d, [DOT]);
    AtByte(s, pos + |d|, DOT);
    ReadDecimal(s, pos, Characters(e), elements);
  }

  /** Reads a printed element up to its separator. */
  lemma ReadElement(s: seq<Byte>, pos: nat, e: seq<Byte>, elements: seq<seq<Byte>>) returns (begin: nat)
    requires At(s, pos, PrintElement(e)) && Printable(e)
    ensures begin <= begin + |e| == pos + |PrintElement(e)| <= |s| && s[begin..begin + |e|] == e
    ensures Resume(s, Progress(pos, InLength(0), elements)) ==
            Resume(s, Progress(begin + |e|, InContent(0, begin), elements))
  {
    ReadPrefix(s, pos, e, elements);
    begin := pos + |Decimal(Characters(e))| + 1;
    ReadWhole(s, begin, e, begin, elements);
    assert s[begin..begin + |e|] == e;
  }

  lemma PrintsLast(s: seq<Byte>, pos: nat, e: seq<Byte>)
    requires At(s, pos, PrintElement(e) + [SEMICOLON])
    ensures At(s, pos, PrintElement(e))
    ensures pos + |PrintElement(e)| < |s| && s[pos + |PrintElement(e)|] == SEMICOLON
  {
    AtParts(s, pos, PrintElement(e), [SEMICOLON]);
    AtByte(s, pos + |PrintElement(e)|, SEMICOLON);
  }

  lemma PrintsMore(s: seq<Byte>, pos: nat, e: seq<Byte>, rest: seq<Byte>)
    requires At(s, pos, PrintElement(e) + [COMMA] + rest)
    ensures At(s, pos, PrintElement(e)) && At(s, pos + |PrintElement(e)| + 1, rest)
    ensures pos + |PrintElement(e)| < |s| && s[pos + |PrintElement(e)|] == COMMA
  {
    AtParts(s, pos, PrintElement(e) + [COMMA], rest);
    AtParts(s, pos, PrintElement(e), [COMMA]);
    AtByte(s, pos + |PrintElement(e)|, COMMA);
  }

  lemma {:induction false} PrintedReads(s: seq<Byte>, pos: nat, todo: seq<seq<Byte>>, elements: seq<seq<Byte>>)
    requires |todo| > 0 && At(s, pos, Print(todo)) && AllPrintable(todo)
    ensures Resume(s, Progress(pos, InLength(0), elements)) == Instruction(elements + todo, pos + |Print(todo)|)
    decreases |todo|
  {
    var e := todo[0];
    if |todo| == 1 {
      PrintsLast(s, pos, e);
      var begin := ReadElement(s, pos, e, elements);
      assert elements + todo == elements + [e];
    } else {
      PrintsMore(s, pos, e, Print(todo[1..]));
      var begin := ReadElement(s, pos, e, elements);
      PrintedReads(s, begin + |e| + 1, todo[1..], elements + [e]);
      assert elements + todo == (elements + [e]) + todo[1..];
    }
  }

  /** An element the parser cannot return comes back longer or not at all. */
  lemma UnprintableElement(s: seq<Byte>, pos: nat, e: seq<Byte>, elements: seq<seq<Byte>>)
    requires At(s, pos, PrintElement(e)) && !Printable(e)
    ensures var d := Resume(s, Progress(pos, InLength(0), elements));
      d.Instruction? ==> |d.elements| > |elements| && d.elements[|elements|] != e
  {
    ReadPrefix(s, pos, e, elements);
    if Characters(e) <= MAX_LENGTH {
      var begin := pos + |Decimal(Characters(e))| + 1;
      ReadBroken(s, begin, e, begin, elements);
    }
  }

  lemma {:induction false} UnprintableDiffers(s: seq<Byte>, pos: nat, todo: seq<seq<Byte>>, elements: seq<seq<Byte>>)
    requires |todo| > 0 && At(s, pos, Print(todo)) && !AllPrintable(todo)
    ensures var d := Resume(s, Progress(pos, InLength(0), elements));
      d.Instruction? ==> d.elements != elements + todo
    decreases |todo|
  {
    var e := todo[0];
    if |todo| == 1 {
      PrintsLast(s, pos, e);
    } else {
      PrintsMore(s, pos, e, Print(todo[1..]));
    }
    if Printable(e) {
      var begin := ReadElement(s, pos, e, elements);
      assert |todo| > 1 && !AllPrintable(todo[1..]) by {
        var i :| 0 <= i < |todo| && !Printable(todo[i]);
        assert todo[1..][i - 1] == todo[i];
      }
      UnprintableDiffers(s, begin + |e| + 1, todo[1..], elements + [e]);
      assert elements + todo == (elements + [e]) + todo[1..];
    } else {
      UnprintableElement(s, pos, e, elements);
      assert (elements + todo)[|elements|] == e;
    }
  }

  /** Printing and parsing back is the identity exactly on elements whose character
      walk ends at their end and whose length is within the limit, whatever follows. */
  lemma PrintDecodes(elements: seq<seq<Byte>>, rest: seq<Byte>)
    requires |elements| > 0
    ensures Decode(Print(elements) + rest) == Instruction(elements, |Print(elements)|) <==> AllPrintable(elements)
  {
    var s := Print(elements) + rest;
    assert s[0..|Print(elements)|] == Print(elements);
    if AllPrintable(elements) {
      PrintedReads(s, 0, elements, []);
      assert [] + elements == elements;
    } else {
      UnprintableDiffers(s, 0, elements, []);
      assert [] + elements == elements;
    }
  }

  function PrintAll(list: seq<seq<seq<Byte>>>): seq<Byte>
    requires forall i :: 0 <= i < |list| ==> |list[i]| > 0
  {
    if list == [] then [] else Print(list[0]) + PrintAll(list[1..])
  }

  /** The same for a whole stream of instructions. */
  lemma {:induction false} PrintAllDecodes(list: seq<seq<seq<Byte>>>)
    requires forall i :: 0 <= i < |list| ==> |list[i]| > 0 && AllPrintable(list[i])
    ensures DecodeAll(PrintAll(list)) == list
  {
    if list == [] {
      assert Decode([]) == Incomplete;
    } else {
      var first, rest := Print(list[0]), PrintAll(list[1..]);
      PrintDecodes(list[0], rest);
      assert (first + rest)[|first|..] == rest;
      PrintAllDecodes(list[1..]);
    }
  }
}
