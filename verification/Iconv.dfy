/** Conversion of text between newline conventions (src/common/iconv.c), for text in
    UTF-8.
  */
module Iconv {

  import opened Unicode
  import opened Utf8

  const LF := 10
  const CR := 13

  /** GUAC_READ_UTF8 and GUAC_READ_UTF8_NORMALIZED. */
  datatype Reader = Plain | Normalized

  /** GUAC_WRITE_UTF8 and GUAC_WRITE_UTF8_CRLF. */
  datatype Writer = Verbatim | Crlf

  // ---------------------------------------------------------------------
  // What the readers read
  // ---------------------------------------------------------------------

  /** Whether a reader finds a whole character wherever it looks, up to a null character
      or to the end of the input. The normalized reader also looks behind a CR. */
  predicate Readable(reader: Reader, s: seq<Byte>)
    decreases |s|
  {
    s == [] ||
    var r := Decode(s);
    && r.Point?
    && (r.value == 0 || Readable(reader, s[r.size..]))
    && (reader.Normalized? && r.value == CR ==> s[r.size..] != [])
  }

  lemma {:induction false} ReadablePlain(reader: Reader, s: seq<Byte>)
    requires Readable(reader, s)
    ensures Readable(Plain, s)
    decreases |s|
  {
    if s != [] && Decode(s).value != 0 {
      ReadablePlain(reader, s[Decode(s).size..]);
    }
  }

  /** The code points up to the null character, or to the end if there is none. */
  function Values(s: seq<Byte>): (values: seq<nat>)
    requires Readable(Plain, s)
    ensures s != [] ==> |values| > 0
    decreases |s|
  {
    if s == [] then []
    else
      var r := Decode(s);
      if r.value == 0 then [0] else [r.value] + Values(s[r.size..])
  }

  /** Code points with every CRLF pair replaced by a newline. */
  function Normalize(values: seq<nat>): seq<nat> {
    if |values| == 0 then []
    else if |values| > 1 && values[0] == CR && values[1] == LF then [LF] + Normalize(values[2..])
    else [values[0]] + Normalize(values[1..])
  }

  lemma NormalizeStep(value: nat, rest: seq<nat>)
    ensures Normalize([value] + rest) ==
      if |rest| > 0 && value == CR && rest[0] == LF then [LF] + Normalize(rest[1..]) else [value] + Normalize(rest)
  {
    var values := [value] + rest;
    assert values[1..] == rest;
    assert |rest| > 0 ==> values[2..] == rest[1..];
  }

  /** What a reader makes of its input. */
  function Meaning(reader: Reader, s: seq<Byte>): seq<nat>
    requires Readable(reader, s)
  {
    ReadablePlain(reader, s);
    if reader.Plain? then Values(s) else Normalize(Values(s))
  }

  /** Whether a value and a size are what the reader takes from the front of `s`. */
  ghost predicate Takes(reader: Reader, s: seq<Byte>, bytes: nat, value: nat)
    requires Readable(reader, s)
  {
    && 0 < bytes <= |s|
    && (value == 0 ==> Meaning(reader, s) == [0])
    && (value != 0 ==>
          Readable(reader, s[bytes..]) && Meaning(reader, s) == [value] + Meaning(reader, s[bytes..]))
  }

  /** Reads one character, and takes a CRLF pair for one newline. Nothing but the first
      character, and the one behind a CR, need be whole. */
  method ReadNormalized(s: seq<Byte>) returns (bytes: nat, value: nat)
    requires Decode(s).Point?
    requires Decode(s).value == CR ==> Decode(s[Decode(s).size..]).Point?
    ensures Point(value, bytes) == NormalPoint(s)
  {
    bytes, value := Read(s);
    if value == CR {
      var peekBytes, peek := Read(s[bytes..]);
      if peek == LF {
        value := LF;
        bytes := bytes + peekBytes;
      }
    }
  }

  /** The first character, or the newline that a CRLF pair is taken for. */
  function NormalPoint(s: seq<Byte>): Reading {
    var r := Decode(s);
    if !r.Point? || r.value != CR then r
    else
      var peek := Decode(s[r.size..]);
      if peek.Point? && peek.value == LF then Point(LF, r.size + peek.size) else r
  }

  /** What there is to read behind a character that is not null. */
  lemma Behind(reader: Reader, s: seq<Byte>, value: nat, n: nat)
    requires s != [] && Readable(reader, s) && Decode(s) == Point(value, n) && value != 0
    ensures Readable(reader, s[n..]) && Readable(Plain, s[n..]) && Readable(Plain, s)
    ensures Values(s) == [value] + Values(s[n..])
    ensures reader.Normalized? && value == CR ==> s[n..] != [] && Decode(s[n..]).Point?
  {
    ReadablePlain(reader, s);
    ReadablePlain(reader, s[n..]);
  }

  lemma PairMeaning(s: seq<Byte>, bytes: nat, u: seq<Byte>, values: seq<nat>)
    requires 0 < bytes <= |s| && Readable(Normalized, s) && Readable(Plain, s) && u == s[bytes..]
    requires Readable(Normalized, u) && Readable(Plain, u)
    requires Values(s) == [CR] + values && values == [LF] + Values(u)
    ensures Takes(Normalized, s, bytes, LF)
  {
    NormalizeStep(CR, values);
    assert values[1..] == Values(u);
  }

  /** What there is to read behind a pair. */
  lemma BehindPair(s: seq<Byte>, t: seq<Byte>, u: seq<Byte>, n: nat, m: nat)
    requires s != [] && Readable(Normalized, s) && Decode(s) == Point(CR, n) && t == s[n..]
    requires Decode(t) == Point(LF, m) && u == t[m..]
    ensures Readable(Normalized, u) && Readable(Plain, u) && Readable(Plain, s) && Readable(Plain, t)
    ensures Values(s) == [CR] + Values(t) && Values(t) == [LF] + Values(u)
    ensures 0 < n + m <= |s|
  {
    Behind(Normalized, s, CR, n);
    Behind(Normalized, t, LF, m);
  }

  lemma PairTakes(s: seq<Byte>, n: nat, m: nat)
    requires s != [] && Readable(Normalized, s) && Decode(s) == Point(CR, n)
    requires Decode(s[n..]) == Point(LF, m)
    ensures Takes(Normalized, s, n + m, LF)
  {
    var t := s[n..];
    var u := t[m..];
    BehindPair(s, t, u, n, m);
    Dropped(s, n, m);
    PairMeaning(s, n + m, u, Values(t));
  }

  lemma Dropped(s: seq<Byte>, n: nat, m: nat)
    requires n + m <= |s|
    ensures s[n..][m..] == s[n + m..]
  {
  }

  lemma SingleTakes(s: seq<Byte>, value: nat, n: nat)
    requires s != [] && Readable(Normalized, s) && Decode(s) == Point(value, n) && value != 0
    requires value == CR ==> Decode(s[n..]).Point? && Decode(s[n..]).value != LF
    ensures Takes(Normalized, s, n, value)
  {
    Behind(Normalized, s, value, n);
    NormalizeStep(value, Values(s[n..]));
  }

  lemma NullTakes(s: seq<Byte>, n: nat)
    requires s != [] && Readable(Normalized, s) && Decode(s) == Point(0, n)
    ensures Takes(Normalized, s, n, 0)
  {
    ReadablePlain(Normalized, s);
    NormalizeStep(0, []);
    assert [0] + [] == [0];
  }

  lemma NormalTakes(s: seq<Byte>)
    requires s != [] && Readable(Normalized, s)
    ensures NormalPoint(s).Point? && Takes(Normalized, s, NormalPoint(s).size, NormalPoint(s).value)
  {
    var r := Decode(s);
    if r.value == 0 {
      NullTakes(s, r.size);
    } else {
      Behind(Normalized, s, r.value, r.size);
      if r.value == CR && Decode(s[r.size..]).value == LF {
        PairTakes(s, r.size, Decode(s[r.size..]).size);
      } else {
        SingleTakes(s, r.value, r.size);
      }
    }
  }

  method ReadWith(reader: Reader, s: seq<Byte>) returns (bytes: nat, value: nat)
    requires s != [] && Readable(reader, s)
    ensures Takes(reader, s, bytes, value)
  {
    match reader {
      case Plain => bytes, value := Read(s);
      case Normalized =>
        NormalTakes(s);
        bytes, value := ReadNormalized(s);
    }
  }

  // ---------------------------------------------------------------------
  // What the writers write
  // ---------------------------------------------------------------------

  /** The bytes of one code point, given room for at least one byte. What does not fit
      is left out. */
  function Written(writer: Writer, value: nat, room: int): (bytes: seq<Byte>) {
    if room <= 0 then []
    else if writer.Crlf? && value == LF then [CR] + (if room > 1 then [LF] else [])
    else if |Encode(value)| <= room then Encode(value)
    else []
  }

  /** What is written for a value when a given room is left. */
  type Spelling = (nat, int) -> seq<Byte>

  function Spell(writer: Writer): Spelling {
    (value, room) => Written(writer, value, room)
  }

  method WriteWith(writer: Writer, output: array<Byte>, at: nat, value: nat) returns (bytes: nat)
    requires at < output.Length
    modifies output
    ensures at + bytes <= output.Length && output[at..at + bytes] == Written(writer, value, output.Length - at)
    ensures forall i :: 0 <= i < output.Length && (i < at || i >= at + bytes) ==> output[i] == old(output[i])
  {
    if writer.Verbatim? || value != LF {
      bytes := Write(value, output, at, output.Length - at);
      return;
    }
    NewlineBytes();
    bytes := Write(CR, output, at, output.Length - at);
    if output.Length - at - bytes > 0 {
      var more := Write(LF, output, at + bytes, output.Length - at - bytes);
      bytes := bytes + more;
    }
  }

  /** The bytes of a series of code points in a limited room, and whether the null
      terminator was reached. */
  function Emitted(spell: Spelling, values: seq<nat>, room: int): seq<Byte> {
    if |values| == 0 || room <= 0 then []
    else spell(values[0], room) + Emitted(spell, values[1..], room - |spell(values[0], room)|)
  }

  predicate Completed(spell: Spelling, values: seq<nat>, room: int) {
    |values| > 0 && room > 0 &&
    (values[0] == 0 || Completed(spell, values[1..], room - |spell(values[0], room)|))
  }

  /** Whether writing `left` after what is written already gives all of `values`. */
  ghost predicate Remains(spell: Spelling, values: seq<nat>, room: nat, written: seq<Byte>, left: seq<nat>) {
    && |written| <= room
    && written + Emitted(spell, left, room - |written|) == Emitted(spell, values, room)
    && (Completed(spell, left, room - |written|) <==> Completed(spell, values, room))
  }

  lemma RemainsStep(spell: Spelling, values: seq<nat>, room: nat, written: seq<Byte>, value: nat, rest: seq<nat>)
    requires value != 0 && |written| + |spell(value, room - |written|)| <= room && |written| < room
    requires Remains(spell, values, room, written, [value] + rest)
    ensures Remains(spell, values, room, written + spell(value, room - |written|), rest)
  {
    assert ([value] + rest)[1..] == rest;
  }

  lemma RemainsEnd(spell: Spelling, values: seq<nat>, room: nat, written: seq<Byte>)
    requires |written| < room && Remains(spell, values, room, written, [0])
    ensures Emitted(spell, values, room) == written + spell(0, room - |written|)
    ensures Completed(spell, values, room)
  {
    var left := room - |written|;
    assert Emitted(spell, [0], left) == spell(0, left) + Emitted(spell, [], left - |spell(0, left)|);
  }

  lemma RemainsNothing(spell: Spelling, values: seq<nat>, room: nat, written: seq<Byte>, left: seq<nat>)
    requires Remains(spell, values, room, written, left) && (|written| == room || left == [])
    ensures written == Emitted(spell, values, room) && !Completed(spell, values, room)
  {
  }

  ghost predicate Agrees(spell: Spelling, writer: Writer, value: nat, room: int) {
    spell(value, room) == Written(writer, value, room)
  }

  /** Writes the first of the code points that are left. */
  method Put(writer: Writer, output: array<Byte>, o: nat, value: nat,
             ghost spell: Spelling, ghost rest: seq<nat>, ghost values: seq<nat>)
    returns (end: nat)
    requires o < output.Length && (value == 0 ==> rest == [])
    requires Agrees(spell, writer, value, output.Length - o)
    requires Remains(spell, values, output.Length, output[..o], [value] + rest)
    modifies output
    ensures o <= end <= output.Length
    ensures value != 0 ==> Remains(spell, values, output.Length, output[..end], rest)
    ensures value == 0 ==> output[..end] == Emitted(spell, values, output.Length)
    ensures value == 0 ==> Completed(spell, values, output.Length)
  {
    ghost var before, room := output[..o], output.Length;
    assert [value] + [] == [value];
    var bytes := WriteWith(writer, output, o, value);
    end := o + bytes;
    assert output[..end] == before + spell(value, room - o);
    if value == 0 {
      RemainsEnd(spell, values, room, before);
    } else {
      RemainsStep(spell, values, room, before, value, rest);
    }
  }

  /** Converts input that is readable to its null character or to its end. */
  method Convert(reader: Reader, input: seq<Byte>, writer: Writer, output: array<Byte>)
    returns (complete: bool, written: nat)
    requires Readable(reader, input)
    modifies output
    ensures written <= output.Length
    ensures output[..written] == Emitted(Spell(writer), Meaning(reader, input), output.Length)
    ensures complete <==> Completed(Spell(writer), Meaning(reader, input), output.Length)
  {
    assert forall value: nat, room: int :: Agrees(Spell(writer), writer, value, room);
    PlacesOfPlaced(reader, input);
    complete, written :=
      ConvertBy(reader, input, writer, output, Meaning(reader, input), PlacesOf(reader, input), Spell(writer));
  }

  method ReadAt(reader: Reader, input: seq<Byte>, i: nat, ghost left: seq<nat>)
    returns (size: nat, value: nat, ghost rest: seq<nat>)
    requires Stands(reader, input, i, left) && i < |input|
    ensures 0 < size && i + size <= |input| && left == [value] + rest
    ensures if value == 0 then rest == [] else Stands(reader, input, i + size, rest)
  {
    size, value := ReadWith(reader, input[i..]);
    assert input[i..][size..] == input[i + size..];
    rest := if value == 0 then [] else Meaning(reader, input[i + size..]);
  }

  /** Whether `left` is what there is to read from position `i` on. */
  ghost predicate Stands(reader: Reader, input: seq<Byte>, i: nat, left: seq<nat>) {
    i <= |input| && Readable(reader, input[i..]) && left == Meaning(reader, input[i..])
  }

  /** Whether all that is written follows a spelling. */
  ghost predicate Spells(spell: Spelling, writer: Writer) {
    forall value: nat, room: int {:trigger Agrees(spell, writer, value, room)} ::
      Agrees(spell, writer, value, room)
  }

  /** What is left to read at a position, as far as a caller need know. */
  type Places = (nat, seq<nat>) -> bool

  ghost predicate StandsBy(places: Places, reader: Reader, input: seq<Byte>, i: nat, left: seq<nat>) {
    places(i, left) <==> Stands(reader, input, i, left)
  }

  ghost predicate Placed(places: Places, reader: Reader, input: seq<Byte>) {
    forall i: nat, left: seq<nat> {:trigger StandsBy(places, reader, input, i, left)} ::
      StandsBy(places, reader, input, i, left)
  }

  /** One turn of the conversion: reads a character and writes it. */
  method Turn(reader: Reader, input: seq<Byte>, i: nat, writer: Writer, output: array<Byte>, o: nat,
              ghost left: seq<nat>, ghost places: Places, ghost spell: Spelling, ghost values: seq<nat>)
    returns (size: nat, value: nat, end: nat, ghost rest: seq<nat>)
    requires Spells(spell, writer) && Placed(places, reader, input)
    requires places(i, left) && i < |input| && o < output.Length
    requires Remains(spell, values, output.Length, output[..o], left)
    modifies output
    ensures 0 < size && i + size <= |input| && o <= end <= output.Length
    ensures value != 0 ==> places(i + size, rest)
    ensures value != 0 ==> Remains(spell, values, output.Length, output[..end], rest)
    ensures value == 0 ==> output[..end] == Emitted(spell, values, output.Length)
    ensures value == 0 ==> Completed(spell, values, output.Length)
  {
    assert StandsBy(places, reader, input, i, left);
    size, value, rest := ReadAt(reader, input, i, left);
    assert value != 0 ==> StandsBy(places, reader, input, i + size, rest);
    assert Agrees(spell, writer, value, output.Length - o);
    end := Put(writer, output, o, value, spell, rest, values);
  }

  /** The loop of the conversion. */
  method ConvertBy(reader: Reader, input: seq<Byte>, writer: Writer, output: array<Byte>,
                   ghost values: seq<nat>, ghost places: Places, ghost spell: Spelling)
    returns (complete: bool, written: nat)
    requires Placed(places, reader, input) && places(0, values) && Spells(spell, writer)
    modifies output
    ensures written <= output.Length
    ensures output[..written] == Emitted(spell, values, output.Length)
    ensures complete <==> Completed(spell, values, output.Length)
  {
    var i, o: nat := 0, 0;
    ghost var left := values;
    while |input| - i > 0 && output.Length - o > 0
      invariant i <= |input| && o <= output.Length && places(i, left)
      invariant Remains(spell, values, output.Length, output[..o], left)
      decreases |input| - i
    {
      var size, value;
      size, value, o, left := Turn(reader, input, i, writer, output, o, left, places, spell, values);
      if value == 0 {
        return true, o;
      }
      i := i + size;
    }
    NothingLeft(places, reader, input, i, left);
    RemainsNothing(spell, values, output.Length, output[..o], left);
    return false, o;
  }

  lemma NothingLeft(places: Places, reader: Reader, input: seq<Byte>, i: nat, left: seq<nat>)
    requires Placed(places, reader, input) && places(i, left)
    ensures i == |input| ==> left == []
  {
    assert StandsBy(places, reader, input, i, left);
  }

  ghost function PlacesOf(reader: Reader, input: seq<Byte>): Places {
    (i: nat, left: seq<nat>) => Stands(reader, input, i, left)
  }

  lemma PlacesOfPlaced(reader: Reader, input: seq<Byte>)
    requires Readable(reader, input)
    ensures Placed(PlacesOf(reader, input), reader, input)
    ensures PlacesOf(reader, input)(0, Meaning(reader, input))
  {
    assert input[0..] == input;
    forall i: nat, left: seq<nat>
      ensures StandsBy(PlacesOf(reader, input), reader, input, i, left)
    {
    }
  }

  /** Without a null character the conversion is never complete. */
  lemma {:induction false} NeverCompleted(spell: Spelling, values: seq<nat>, room: int)
    requires 0 !in values
    ensures !Completed(spell, values, room)
  {
    if |values| > 0 && room > 0 {
      NeverCompleted(spell, values[1..], room - |spell(values[0], room)|);
    }
  }

  // ---------------------------------------------------------------------
  // The bytes
  // ---------------------------------------------------------------------

  /** A newline is byte 10, and with CRLF bytes 13 and 10; where only one byte is left, the
      first of them. */
  lemma NewlineWritten(room: int)
    requires room > 0
    ensures Written(Verbatim, 10, room) == [10]
    ensures Written(Crlf, 10, room) == if room == 1 then [13] else [13, 10]
    ensures Written(Crlf, 13, room) == Written(Verbatim, 13, room) == [13]
  {
    EncodedForms(10);
    EncodedForms(13);
  }

  /** Any other character is written in full or, where it does not fit, left out; a shorter
      one behind it may still be written. */
  lemma OtherWritten(writer: Writer, value: nat, room: int, rest: seq<nat>)
    requires value != 10 && room > 0
    ensures var bytes := Encode(value);
      && Written(writer, value, room) == (if |bytes| <= room then bytes else [])
      && Emitted(Spell(writer), [value] + rest, room) ==
           (if |bytes| <= room then bytes + Emitted(Spell(writer), rest, room - |bytes|)
            else Emitted(Spell(writer), rest, room))
  {
    assert ([value] + rest)[1..] == rest;
  }

  /** The byte pair 13 and 10 is read as a newline by the normalized reader; a lone 13 is
      not. */
  lemma NewlinesRead(rest: seq<nat>)
    ensures Normalize([13, 10] + rest) == [10] + Normalize(rest)
    ensures Normalize([10] + rest) == [10] + Normalize(rest)
    ensures (|rest| == 0 || rest[0] != 10) ==> Normalize([13] + rest) == [13] + Normalize(rest)
  {
    NormalizePair(rest);
    NormalizeStep(10, rest);
    NormalizeStep(13, rest);
  }

  // ---------------------------------------------------------------------
  // There and back
  // ---------------------------------------------------------------------

  /** A null-terminated series of code points. */
  predicate Message(values: seq<nat>) {
    && |values| > 0 && values[|values| - 1] == 0
    && forall i :: 0 <= i < |values| - 1 ==> 0 < values[i] <= 0x1FFFFF
  }

  /** Code points with every newline replaced by a CRLF pair. */
  function Expand(values: seq<nat>): seq<nat> {
    if |values| == 0 then []
    else (if values[0] == LF then [CR, LF] else [values[0]]) + Expand(values[1..])
  }

  /** The code points that a writer writes. */
  function Spelled(writer: Writer, values: seq<nat>): seq<nat> {
    if writer.Crlf? then Expand(values) else values
  }

  function Bytes(encode: nat -> seq<Byte>, values: seq<nat>): seq<Byte> {
    if |values| == 0 then [] else encode(values[0]) + Bytes(encode, values[1..])
  }

  /** Normalizing undoes the expansion, also where lone CR and LF are mixed. */
  lemma {:induction false} NormalizeExpand(values: seq<nat>)
    ensures Normalize(Expand(values)) == values
  {
    if |values| > 0 {
      var rest := Expand(values[1..]);
      NormalizeExpand(values[1..]);
      if values[0] == LF {
        NormalizePair(rest);
        assert [CR, LF] + rest == Expand(values);
      } else {
        NormalizeStep(values[0], rest);
        ExpandStart(values[1..]);
      }
    }
  }

  lemma NormalizePair(rest: seq<nat>)
    ensures Normalize([CR, LF] + rest) == [LF] + Normalize(rest)
  {
    NormalizeStep(CR, [LF] + rest);
    assert [CR] + ([LF] + rest) == [CR, LF] + rest;
    assert ([LF] + rest)[1..] == rest;
  }

  /** An expansion never starts with a newline. */
  lemma ExpandStart(values: seq<nat>)
    ensures |Expand(values)| > 0 ==> Expand(values)[0] != LF
  {
  }

  lemma {:induction false} ExpandIsMessage(values: seq<nat>)
    requires Message(values)
    ensures Message(Expand(values))
  {
    if |values| > 1 {
      var rest := Expand(values[1..]);
      ExpandIsMessage(values[1..]);
      var front := if values[0] == LF then [CR, LF] else [values[0]];
      assert Expand(values) == front + rest;
      forall i | 0 <= i < |Expand(values)| - 1
        ensures 0 < Expand(values)[i] <= 0x1FFFFF
      {
        if i >= |front| {
          assert Expand(values)[i] == rest[i - |front|];
        }
      }
    } else {
      assert values == [0];
      assert Expand(values) == [0] + Expand([]);
    }
  }

  /** The bytes of a message read as the message. */
  lemma {:induction false} BytesRead(values: seq<nat>)
    requires Message(values)
    ensures Readable(Normalized, Bytes(Encode, values)) && Readable(Plain, Bytes(Encode, values))
    ensures Values(Bytes(Encode, values)) == values
  {
    var rest := Bytes(Encode, values[1..]);
    DecodeEncode(values[0], rest);
    if |values| > 1 {
      BytesRead(values[1..]);
      assert (Encode(values[0]) + rest)[|Encode(values[0])|..] == rest;
      assert [values[0]] + values[1..] == values;
    } else {
      assert values == [0];
    }
  }

  /** The bytes that a writer means for one code point. */
  function Piece(encode: nat -> seq<Byte>, writer: Writer, value: nat): seq<Byte> {
    if writer.Crlf? && value == LF then encode(CR) + encode(LF) else encode(value)
  }

  lemma BytesOf(encode: nat -> seq<Byte>, writer: Writer, values: seq<nat>)
    requires |values| > 0
    ensures Bytes(encode, Spelled(writer, values)) ==
      Piece(encode, writer, values[0]) + Bytes(encode, Spelled(writer, values[1..]))
  {
    if writer.Crlf? {
      var rest := Expand(values[1..]);
      if values[0] == LF {
        assert Expand(values) == [CR] + ([LF] + rest);
        BytesCons(encode, CR, [LF] + rest);
        BytesCons(encode, LF, rest);
      } else {
        BytesCons(encode, values[0], rest);
      }
    }
  }

  lemma BytesCons(encode: nat -> seq<Byte>, value: nat, rest: seq<nat>)
    ensures Bytes(encode, [value] + rest) == encode(value) + Bytes(encode, rest)
  {
    assert ([value] + rest)[1..] == rest;
  }

  lemma NewlineBytes()
    ensures Encode(CR) == [CR] && Encode(LF) == [LF]
  {
  }

  /** Whether what fits is written in full. */
  ghost predicate Full(encode: nat -> seq<Byte>, spell: Spelling, writer: Writer) {
    forall value: nat, room: int :: FullAt(encode, spell, writer, value, room)
  }

  ghost predicate FullAt(encode: nat -> seq<Byte>, spell: Spelling, writer: Writer, value: nat, room: int) {
    |Piece(encode, writer, value)| <= room ==> room > 0 && spell(value, room) == Piece(encode, writer, value)
  }

  lemma WritersAreFull(writer: Writer)
    ensures Full(Encode, Spell(writer), writer)
  {
    forall value: nat, room: int
      ensures FullAt(Encode, Spell(writer), writer, value, room)
    {
      NewlineBytes();
    }
  }

  /** With enough room a writer leaves nothing out. */
  lemma {:induction false} EnoughRoom(encode: nat -> seq<Byte>, spell: Spelling, writer: Writer,
                                      values: seq<nat>, room: nat)
    requires Full(encode, spell, writer)
    requires Message(values) && |Bytes(encode, Spelled(writer, values))| <= room
    ensures Emitted(spell, values, room) == Bytes(encode, Spelled(writer, values))
    ensures Completed(spell, values, room)
  {
    BytesOf(encode, writer, values);
    var piece := Piece(encode, writer, values[0]);
    assert FullAt(encode, spell, writer, values[0], room);
    if |values| > 1 {
      EnoughRoom(encode, spell, writer, values[1..], room - |piece|);
    }
  }

  /** Text that is converted with CRLF newlines and converted back with normalized ones
      comes back byte for byte, given enough room. */
  method ThereAndBack(points: seq<nat>, there: array<Byte>, back: array<Byte>) returns (written: nat)
    requires Message(points) && there != back
    requires there.Length >= |Bytes(Encode, Expand(points))| && back.Length >= |Bytes(Encode, points)|
    modifies there, back
    ensures written <= back.Length && back[..written] == Bytes(Encode, points)
  {
    WritersConvert(points, there.Length, back.Length);
    var complete, length := Convert(Plain, Bytes(Encode, points), Crlf, there);
    var middle := there[..length];
    complete, written := Convert(Normalized, middle, Verbatim, back);
  }

  /** What either conversion makes of the text. */
  lemma WritersConvert(points: seq<nat>, there: nat, back: nat)
    requires Message(points)
    requires there >= |Bytes(Encode, Expand(points))| && back >= |Bytes(Encode, points)|
    ensures Readable(Plain, Bytes(Encode, points)) && Readable(Normalized, Bytes(Encode, Expand(points)))
    ensures Meaning(Plain, Bytes(Encode, points)) == points
    ensures Emitted(Spell(Crlf), points, there) == Bytes(Encode, Expand(points))
    ensures Meaning(Normalized, Bytes(Encode, Expand(points))) == points
    ensures Emitted(Spell(Verbatim), points, back) == Bytes(Encode, points)
    ensures Completed(Spell(Crlf), points, there) && Completed(Spell(Verbatim), points, back)
  {
    WritersAreFull(Crlf);
    WritersAreFull(Verbatim);
    BytesRead(points);
    EnoughRoom(Encode, Spell(Crlf), Crlf, points, there);
    ExpandIsMessage(points);
    BytesRead(Expand(points));
    NormalizeExpand(points);
    EnoughRoom(Encode, Spell(Verbatim), Verbatim, points, back);
  }
}
