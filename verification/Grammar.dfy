/** The language that the parser accepts, stated apart from how it reads
    (src/libguac/parser.c, src/libguac/protocol.c).
  */
module Grammar {
  import opened Unicode
  import opened Wire
  import Machines
  import Blobs
  import B = Base64

  /** At position `pos` stand `k` digits, a period, and the element `e`, whose characters are
      as many as the digits say. Leading zeros are allowed, and no digits at all mean zero. */
  predicate ElementAt(s: seq<Byte>, pos: nat, k: nat, e: seq<Byte>) {
    && pos + k + 1 + |e| <= |s|
    && (forall i :: pos <= i < pos + k ==> '0' as int <= s[i] <= '9' as int)
    && s[pos + k] == '.' as int && s[pos + k + 1..pos + k + 1 + |e|] == e
    && Whole(e) && Characters(e) == Machines.Number(s[pos..pos + k]) <= 8192
  }

  /** From position `pos` to `end` stand the elements, with commas between them and a
      semicolon behind the last. */
  ghost predicate Sentence(s: seq<Byte>, pos: nat, elements: seq<seq<Byte>>, end: nat)
    decreases |elements|, 0
  {
    |elements| > 0 &&
    exists k: nat :: ElementAt(s, pos, k, elements[0]) && Goes(s, pos + k + 1 + |elements[0]|, elements[1..], end)
  }

  /** What stands behind an element: the end, or the elements that are left. */
  ghost predicate Goes(s: seq<Byte>, next: nat, left: seq<seq<Byte>>, end: nat)
    decreases |left|, 1
  {
    && next < |s|
    && if left == [] then s[next] == ';' as int && end == next + 1
       else s[next] == ',' as int && Sentence(s, next + 1, left, end)
  }

  // ---------------------------------------------------------------------
  // What is accepted is a sentence
  // ---------------------------------------------------------------------

  lemma {:induction false} LengthRead(s: seq<Byte>, start: nat, pos: nat, elements: seq<seq<Byte>>) returns (k: nat)
    requires start <= pos <= |s| && forall i :: start <= i < pos ==> IsDigit(s[i])
    requires Resume(s, Progress(pos, InLength(Machines.Number(s[start..pos])), elements)).Instruction?
    ensures pos <= start + k < |s| && s[start + k] == DOT && Machines.Number(s[start..start + k]) <= MAX_LENGTH
    ensures forall i :: start <= i < start + k ==> IsDigit(s[i])
    ensures Resume(s, Progress(pos, InLength(Machines.Number(s[start..pos])), elements)) ==
      Resume(s, Progress(start + k + 1, InContent(Machines.Number(s[start..start + k]), start + k + 1), elements))
    decreases |s| - pos
  {
    if IsDigit(s[pos]) {
      assert s[start..pos + 1][..pos - start] == s[start..pos];
      k := LengthRead(s, start, pos + 1, elements);
    } else {
      k := pos - start;
    }
  }

  lemma {:induction false} ContentRead(s: seq<Byte>, pos: nat, due: nat, begin: nat, elements: seq<seq<Byte>>)
    returns (end: nat)
    requires begin <= pos <= |s| && Resume(s, Progress(pos, InContent(due, begin), elements)).Instruction?
    ensures pos <= end <= |s| && Whole(s[pos..end]) && Characters(s[pos..end]) == due
    ensures Resume(s, Progress(pos, InContent(due, begin), elements)) ==
      Resume(s, Progress(end, InContent(0, begin), elements))
    decreases due
  {
    if due == 0 {
      end := pos;
    } else {
      var n := CharSize(s[pos]);
      end := ContentRead(s, pos + n, due - 1, begin, elements);
      WholeCons(s[pos..end], n, s[pos + n..end]);
    }
  }

  lemma WholeCons(e: seq<Byte>, n: nat, rest: seq<Byte>)
    requires e != [] && n == CharSize(e[0]) <= |e| && rest == e[n..] && Whole(rest)
    ensures Whole(e) && Characters(e) == 1 + Characters(rest)
  {
  }

  /** What is read up to a separator is an element. */
  lemma SomeElementRead(s: seq<Byte>, pos: nat, before: seq<seq<Byte>>) returns (k: nat, e: seq<Byte>)
    requires pos <= |s| && Resume(s, Progress(pos, InLength(0), before)).Instruction?
    ensures ElementAt(s, pos, k, e)
    ensures Resume(s, Progress(pos, InLength(0), before)) ==
      Resume(s, Progress(pos + k + 1 + |e|, InContent(0, pos + k + 1), before))
  {
    assert s[pos..pos] == [];
    k := LengthRead(s, pos, pos, before);
    var begin := pos + k + 1;
    Machines.NumberGrows(s[pos..pos + k]);
    var next := ContentRead(s, begin, Machines.Number(s[pos..pos + k]), begin, before);
    e := s[begin..next];
  }

  lemma SentenceOf(s: seq<Byte>, pos: nat, k: nat, e: seq<Byte>, rest: seq<seq<Byte>>, end: nat)
    requires ElementAt(s, pos, k, e) && Goes(s, pos + k + 1 + |e|, rest, end)
    ensures Sentence(s, pos, [e] + rest, end)
  {
    var elements := [e] + rest;
    assert elements[0] == e && elements[1..] == rest;
    assert ElementAt(s, pos, k, elements[0]);
  }

  /** The separator behind an element. */
  lemma SeparatorRead(s: seq<Byte>, begin: nat, next: nat, before: seq<seq<Byte>>)
    requires begin <= next <= |s| && Resume(s, Progress(next, InContent(0, begin), before)).Instruction?
    ensures next < |s| && (s[next] == SEMICOLON || s[next] == COMMA)
    ensures Resume(s, Progress(next, InContent(0, begin), before)) ==
      if s[next] == SEMICOLON then Instruction(before + [s[begin..next]], next + 1)
      else Resume(s, Progress(next + 1, InLength(0), before + [s[begin..next]]))
  {
  }

  /** What is left of the stream when an element is to begin. */
  function ReadFrom(s: seq<Byte>, pos: nat, before: seq<seq<Byte>>): Decoded
    requires pos <= |s|
  {
    Resume(s, Progress(pos, InLength(0), before))
  }

  lemma FirstRead(s: seq<Byte>, pos: nat, before: seq<seq<Byte>>) returns (k: nat, e: seq<Byte>, next: nat)
    requires pos <= |s| && ReadFrom(s, pos, before).Instruction?
    ensures ElementAt(s, pos, k, e) && next == pos + k + 1 + |e| < |s|
    ensures s[next] == SEMICOLON || s[next] == COMMA
    ensures ReadFrom(s, pos, before) ==
      if s[next] == SEMICOLON then Instruction(before + [e], next + 1) else ReadFrom(s, next + 1, before + [e])
  {
    k, e := SomeElementRead(s, pos, before);
    next := pos + k + 1 + |e|;
    SeparatorRead(s, pos + k + 1, next, before);
  }

  lemma {:induction false} AcceptedIsSentence(s: seq<Byte>, pos: nat, before: seq<seq<Byte>>)
    returns (elements: seq<seq<Byte>>, end: nat)
    requires pos <= |s| && ReadFrom(s, pos, before).Instruction?
    ensures ReadFrom(s, pos, before) == Instruction(before + elements, end)
    ensures Sentence(s, pos, elements, end)
    decreases |s| - pos
  {
    var k, e, next := FirstRead(s, pos, before);
    var rest: seq<seq<Byte>> := [];
    end := next + 1;
    if s[next] == COMMA {
      rest, end := AcceptedIsSentence(s, next + 1, before + [e]);
    }
    SentenceOf(s, pos, k, e, rest, end);
    elements := [e] + rest;
    Associates(before, [e], rest);
  }

  lemma Associates(a: seq<seq<Byte>>, b: seq<seq<Byte>>, c: seq<seq<Byte>>)
    ensures a + b + c == a + (b + c)
  {
  }

  // ---------------------------------------------------------------------
  // A sentence is accepted
  // ---------------------------------------------------------------------

  lemma {:induction false} DigitsRead(s: seq<Byte>, pos: nat, k: nat, elements: seq<seq<Byte>>)
    requires pos + k <= |s| && forall i :: pos <= i < pos + k ==> IsDigit(s[i])
    ensures Resume(s, Progress(pos, InLength(0), elements)) ==
      Resume(s, Progress(pos + k, InLength(Machines.Number(s[pos..pos + k])), elements))
    decreases k
  {
    if k > 0 {
      DigitsRead(s, pos, k - 1, elements);
      assert s[pos..pos + k][..k - 1] == s[pos..pos + k - 1];
    } else {
      assert s[pos..pos] == [];
    }
  }

  lemma ElementRead(s: seq<Byte>, pos: nat, k: nat, e: seq<Byte>, elements: seq<seq<Byte>>)
    requires ElementAt(s, pos, k, e)
    ensures Resume(s, Progress(pos, InLength(0), elements)) ==
      Resume(s, Progress(pos + k + 1 + |e|, InContent(0, pos + k + 1), elements))
  {
    DigitsRead(s, pos, k, elements);
    var begin := pos + k + 1;
    forall i | 0 <= i < |e|
      ensures s[begin + i] == e[i]
    {
      assert e[i] == s[begin..begin + |e|][i];
    }
    ReadWhole(s, begin, e, begin, elements);
  }

  lemma SeparatorGoesOn(s: seq<Byte>, begin: nat, next: nat, before: seq<seq<Byte>>)
    requires begin <= next < |s|
    ensures s[next] == SEMICOLON ==>
      Resume(s, Progress(next, InContent(0, begin), before)) == Instruction(before + [s[begin..next]], next + 1)
    ensures s[next] == COMMA ==>
      Resume(s, Progress(next, InContent(0, begin), before)) ==
      Resume(s, Progress(next + 1, InLength(0), before + [s[begin..next]]))
  {
  }

  lemma ReadsFirst(s: seq<Byte>, pos: nat, k: nat, e: seq<Byte>, before: seq<seq<Byte>>)
    requires ElementAt(s, pos, k, e) && pos + k + 1 + |e| < |s|
    ensures var next := pos + k + 1 + |e|;
      && (s[next] == SEMICOLON ==> ReadFrom(s, pos, before) == Instruction(before + [e], next + 1))
      && (s[next] == COMMA ==> ReadFrom(s, pos, before) == ReadFrom(s, next + 1, before + [e]))
  {
    ElementRead(s, pos, k, e, before);
    SeparatorGoesOn(s, pos + k + 1, pos + k + 1 + |e|, before);
  }

  lemma {:induction false} SentenceIsAccepted(s: seq<Byte>, pos: nat, elements: seq<seq<Byte>>, end: nat,
                                              before: seq<seq<Byte>>)
    requires Sentence(s, pos, elements, end)
    ensures pos <= |s| && ReadFrom(s, pos, before) == Instruction(before + elements, end)
    decreases |elements|
  {
    var k: nat :| ElementAt(s, pos, k, elements[0]) && Goes(s, pos + k + 1 + |elements[0]|, elements[1..], end);
    var e, next := elements[0], pos + k + 1 + |elements[0]|;
    ReadsFirst(s, pos, k, e, before);
    if elements[1..] != [] {
      SentenceIsAccepted(s, next + 1, elements[1..], end, before + [e]);
    }
    Associates(before, [e], elements[1..]);
    assert [e] + elements[1..] == elements;
  }

  /** A stream means an instruction exactly if it begins with a sentence for it. */
  lemma AcceptsExactly(s: seq<Byte>, elements: seq<seq<Byte>>, end: nat)
    ensures Decode(s) == Instruction(elements, end) <==> Sentence(s, 0, elements, end)
  {
    if Decode(s) == Instruction(elements, end) {
      var found, last := AcceptedIsSentence(s, 0, []);
      assert [] + found == found;
    }
    if Sentence(s, 0, elements, end) {
      SentenceIsAccepted(s, 0, elements, end, []);
      assert [] + elements == elements;
    }
  }

  // ---------------------------------------------------------------------
  // To the letter
  // ---------------------------------------------------------------------

  predicate Ascii(t: string) {
    forall i :: 0 <= i < |t| ==> 0 < t[i] as int < 128
  }

  /** The bytes of a text in ASCII. */
  function Text(t: string): (bytes: seq<Byte>)
    requires Ascii(t)
    ensures |bytes| == |t| && forall i :: 0 <= i < |t| ==> bytes[i] == t[i] as int
    ensures B.Plain(bytes)
  {
    seq(|t|, i requires 0 <= i < |t| => t[i] as int)
  }

  lemma TextAppend(a: string, b: string)
    requires Ascii(a) && Ascii(b)
    ensures Ascii(a + b) && Text(a + b) == Text(a) + Text(b)
  {
  }

  lemma PointText()
    ensures Text(".") == [DOT] && Text(",") == [COMMA] && Text(";") == [SEMICOLON]
  {
  }

  /** An element is written as its length in decimal, a period, and itself. */
  lemma ElementText(t: string, length: string)
    requires Ascii(t) && Ascii(length) && Decimal(|t|) == Text(length)
    ensures Ascii(length + "." + t) && PrintElement(Text(t)) == Text(length + "." + t)
  {
    Blobs.PlainIsWhole(Text(t));
    PointText();
    TextAppend(length, ".");
    TextAppend(length + ".", t);
  }

  lemma OneText(t: string, length: string)
    requires Ascii(t) && Ascii(length) && Decimal(|t|) == Text(length)
    ensures Ascii(length + "." + t + ";") && Print([Text(t)]) == Text(length + "." + t + ";")
  {
    ElementText(t, length);
    PointText();
    TextAppend(length + "." + t, ";");
  }

  lemma MoreText(t: string, length: string, rest: seq<seq<Byte>>, written: string)
    requires Ascii(t) && Ascii(length) && Decimal(|t|) == Text(length)
    requires |rest| > 0 && Ascii(written) && Print(rest) == Text(written)
    ensures Ascii(length + "." + t + "," + written)
    ensures Print([Text(t)] + rest) == Text(length + "." + t + "," + written)
  {
    ElementText(t, length);
    PointText();
    TextAppend(length + "." + t, ",");
    TextAppend(length + "." + t + ",", written);
    Blobs.PrintCons(Text(t), rest);
  }

  lemma SomeDecimals()
    ensures Decimal(1) == Text("1") && Decimal(2) == Text("2") && Decimal(4) == Text("4")
    ensures Decimal(10) == Text("10") && Decimal(13) == Text("13")
  {
    assert Decimal(10) == Decimal(1) + [48] && Decimal(13) == Decimal(1) + [51];
  }

  /** An instruction of two elements, the second of ten characters. */
  lemma TwoElementsPrinted()
    ensures Print([Text("ok")] + [Text("0123456789")]) == Text("2" + "." + "ok" + "," + "10.0123456789;")
  {
    SomeDecimals();
    OneText("0123456789", "10");
    assert "10" + "." + "0123456789" + ";" == "10.0123456789;";
    MoreText("ok", "2", [Text("0123456789")], "10.0123456789;");
  }

  lemma VersionText()
    ensures Blobs.ARGS == Text("args") && Blobs.VERSION == Text("VERSION_1_5_0")
  {
  }

  lemma VersionElement()
    ensures "13" + "." + "VERSION_1_5_0" + ";" == "13.VERSION_1_5_0;"
  {
  }

  /** The version of the protocol. */
  lemma VersionPrinted()
    ensures Print([Blobs.ARGS] + [Blobs.VERSION]) == Text("4" + "." + "args" + "," + "13.VERSION_1_5_0;")
  {
    SomeDecimals();
    VersionText();
    OneText("VERSION_1_5_0", "13");
    VersionElement();
    MoreText("args", "4", [Blobs.VERSION], "13.VERSION_1_5_0;");
  }

  lemma EncodedByte()
    ensures B.Encode([251]) == Text("+w==")
  {
    assert B.Quad(251, -1, -1) == [43, 119, 61, 61];
  }

  /** The blob of the one byte 251 on stream 1. */
  lemma BlobPrinted()
    ensures Print(Blobs.BlobElements(1, [251])) == Text("4" + "." + "blob" + "," + "1.1,4.+w==;")
  {
    SomeDecimals();
    EncodedByte();
    assert Blobs.BLOB == Text("blob");
    OneText("+w==", "4");
    BlobTexts();
    MoreText("1", "1", [Text("+w==")], "4.+w==;");
    MoreText("blob", "4", [Text("1")] + [Text("+w==")], "1.1,4.+w==;");
    assert [Text("blob")] + ([Text("1")] + [Text("+w==")]) == Blobs.BlobElements(1, [251]);
  }

  lemma BlobTexts()
    ensures "4" + "." + "+w==" + ";" == "4.+w==;"
    ensures "1" + "." + "1" + "," + "4.+w==;" == "1.1,4.+w==;"
  {
  }
}
