/** Blobs from one end to the other: streamed out as base64 through the socket's
    ready buffer (src/libguac/socket.c, src/libguac/protocol.c), read back by the
    parser and decoded in place.
  */
module Blobs {
  import opened Unicode
  import opened Wire
  import opened Lines
  import opened CInt
  import B = Base64

  const READY_SIZE := 768     // GUAC_SOCKET_BASE64_READY_BUFFER_SIZE
  const ENCODED_SIZE := 1024  // GUAC_SOCKET_BASE64_ENCODED_BUFFER_SIZE
  const BLOB_MAX := 6048      // GUAC_PROTOCOL_BLOB_MAX_LENGTH

  // ---------------------------------------------------------------------
  // What is sent, as a function of the outcomes
  // ---------------------------------------------------------------------

  /** __guac_socket_write_length_string. */
  function ElementPieces(e: seq<Byte>): seq<seq<Byte>> {
    [Decimal(Characters(e)), [DOT], e]
  }

  /** The pieces of each element, one after the other. */
  function Spread(p: seq<Byte> -> seq<seq<Byte>>, elements: seq<seq<Byte>>): seq<seq<Byte>> {
    if elements == [] then [] else p(elements[0]) + Spread(p, elements[1..])
  }

  function SeparatedPieces(e: seq<Byte>): seq<seq<Byte>> {
    [[COMMA]] + ElementPieces(e)
  }

  /** guac_socket_write_array. */
  function ArrayPieces(elements: seq<seq<Byte>>): seq<seq<Byte>> {
    Spread(SeparatedPieces, elements)
  }

  function ArgsPieces(args: seq<seq<Byte>>): seq<seq<Byte>> {
    [PrintElement(ARGS)] + ArrayPieces([VERSION]) + ArrayPieces(args) + [[SEMICOLON]]
  }

  /** What precedes the data of a blob, with the announced length. */
  function HeadPieces(index: nat, base64Length: nat): seq<seq<Byte>> {
    [PrintElement(BLOB) + [COMMA]] + ElementPieces(Decimal(index)) + [[COMMA], Decimal(base64Length), [DOT]]
  }

  /** A line and the bytes that wait in the ready buffer. */
  datatype Pushing = Pushing(line: Line, waiting: seq<Byte>)

  /** Bytes pushed through an empty ready buffer: every time it is full its encoding is
      written, and whether that succeeds is not looked at. */
  function Pushed(encode: seq<Byte> -> seq<Byte>, line: Line, bytes: seq<Byte>): Pushing
    decreases |bytes|
  {
    if |bytes| < READY_SIZE then Pushing(line, bytes)
    else Pushed(encode, Sent(line, encode(bytes[..READY_SIZE])).line, bytes[READY_SIZE..])
  }

  /** Bytes pushed and then flushed. */
  function Encoded(encode: seq<Byte> -> seq<Byte>, line: Line, bytes: seq<Byte>): Line {
    var p := Pushed(encode, line, bytes);
    Sent(p.line, encode(p.waiting)).line
  }

  /** guac_protocol_send_blob in its three parts. */
  function HeadSent(line: Line, index: nat, data: seq<Byte>): Sending {
    SentAll(line, HeadPieces(index, (|data| + 2) / 3 * 4))
  }

  function TextSent(line: Line, data: seq<Byte>): Line {
    Encoded(B.Encode, line, data)
  }

  function EndSent(line: Line): Sending {
    Sent(line, [SEMICOLON])
  }

  function BlobSent(line: Line, index: nat, data: seq<Byte>): Sending {
    var head := HeadSent(line, index, data);
    if head.ok then EndSent(TextSent(head.line, data)) else head
  }

  /** guac_protocol_send_blobs. */
  function BlobsSent(line: Line, index: nat, data: seq<Byte>): Sending
    decreases |data|
  {
    if data == [] then Sending(line, true)
    else
      var s := BlobSent(line, index, data[..Size(data)]);
      if s.ok then BlobsSent(s.line, index, data[Size(data)..]) else s
  }

  lemma {:induction false} PushedAppend(encode: seq<Byte> -> seq<Byte>, line: Line, a: seq<Byte>, b: seq<Byte>)
    ensures var p := Pushed(encode, line, a);
      Pushed(encode, line, a + b) == Pushed(encode, p.line, p.waiting + b)
    decreases |a|
  {
    if |a| >= READY_SIZE {
      assert (a + b)[..READY_SIZE] == a[..READY_SIZE];
      assert (a + b)[READY_SIZE..] == a[READY_SIZE..] + b;
      PushedAppend(encode, Sent(line, encode(a[..READY_SIZE])).line, a[READY_SIZE..], b);
    }
  }

  lemma PushedStep(encode: seq<Byte> -> seq<Byte>, line: Line, waiting: seq<Byte>, data: seq<Byte>, len: nat)
    requires len <= |data|
    ensures var p := Pushed(encode, line, waiting + data[..len]);
      Pushed(encode, line, waiting + data) == Pushed(encode, p.line, p.waiting + data[len..])
  {
    PushedAppend(encode, line, waiting + data[..len], data[len..]);
    assert (waiting + data[..len]) + data[len..] == waiting + data;
  }

  // ---------------------------------------------------------------------
  // The socket
  // ---------------------------------------------------------------------

  /** The sending side of a guac_socket. Its write handler does what the script says. */
  class Output {
    const readyBuf: array<Byte>
    const encodedBuf: array<Byte>
    var ready: nat
    var written: seq<Byte>
    var script: seq<Outcome>

    ghost predicate Shape()
      reads this
    {
      && readyBuf.Length == READY_SIZE && encodedBuf.Length == ENCODED_SIZE && readyBuf != encodedBuf
      && ready <= READY_SIZE
    }

    ghost predicate Valid()
      reads this
    {
      Shape() && ready < READY_SIZE
    }

    ghost function AsLine(): Line
      reads this`written, this`script
    {
      Line(written, script)
    }

    ghost function Waiting(): seq<Byte>
      reads this`ready, readyBuf
      requires ready <= readyBuf.Length
    {
      readyBuf[..ready]
    }

    constructor (script: seq<Outcome>)
      ensures Valid() && ready == 0 && AsLine() == Line([], script)
      ensures fresh(readyBuf) && fresh(encodedBuf)
    {
      readyBuf := new Byte[READY_SIZE](_ => 0);
      encodedBuf := new Byte[ENCODED_SIZE](_ => 0);
      ready := 0;
      written := [];
      this.script := script;
    }

    /** The write handler. */
    method Handle(data: seq<Byte>) returns (count: Outcome)
      modifies this`written, this`script
      ensures count <= |data|
      ensures count == if old(script) == [] || old(script)[0] > |data| then |data| else old(script)[0]
      ensures script == if old(script) == [] then [] else old(script)[1..]
      ensures written == old(written) + if count >= 0 then data[..count] else []
    {
      count := |data|;
      if |script| > 0 {
        if script[0] < count {
          count := script[0];
        }
        script := script[1..];
      }
      if count >= 0 {
        written := written + data[..count];
      }
    }

    /** guac_socket_write: everything, or 1. */
    method Write(data: seq<Byte>) returns (retval: int)
      modifies this`written, this`script
      ensures var s := Sent(old(AsLine()), data);
        AsLine() == s.line && retval == if s.ok then 0 else 1
    {
      var rest := data;
      while |rest| > 0
        invariant Sent(AsLine(), rest) == Sent(old(AsLine()), data)
        decreases |script|, |rest|
      {
        var count := Handle(rest);
        if count == -1 {
          return 1;
        }
        rest := rest[count..];
      }
      return 0;
    }

    /** guac_socket_flush_base64. It never reports failure: guac_socket_write returns 1
        on error, and only negative values are looked at. */
    method FlushBase64() returns (retval: int)
      requires Shape()
      modifies this`ready, this`written, this`script, encodedBuf
      ensures Valid() && ready == 0 && retval == 0
      ensures AsLine() == Sent(old(AsLine()), B.Encode(old(Waiting()))).line
    {
      var count := EncodeReady();
      retval := Write(encodedBuf[..count]);
      if retval < 0 {
        return;
      }
      ready := 0;
      retval := 0;
    }

    /** Encodes the ready buffer into the encoded buffer, which is large enough. */
    method EncodeReady() returns (count: nat)
      requires Shape()
      modifies encodedBuf
      ensures count <= ENCODED_SIZE && encodedBuf[..count] == B.Encode(Waiting())
    {
      ghost var groups;
      var src;
      src, count, groups := EncodeGroups();
      EncodeLast(Waiting(), groups);
      assert ready != src ==> groups <= 255;
      ghost var front, last := encodedBuf[..count], Remnant(Waiting(), src);
      assert B.Encode(Waiting()) == front + last;
      count := StoreRemnant(src, count);
    }

    /** Takes care of partial remnants. */
    method StoreRemnant(src: nat, before: nat) returns (count: nat)
      requires Shape() && 0 <= ready - src <= 2
      requires before + (if ready == src then 0 else 4) <= ENCODED_SIZE
      modifies encodedBuf
      ensures count <= ENCODED_SIZE && encodedBuf[..count] == old(encodedBuf[..before]) + Remnant(Waiting(), src)
    {
      count := before;
      if ready - src == 2 {
        Store(count, B.Quad(readyBuf[src], readyBuf[src + 1], -1));
        count := count + 4;
      } else if ready - src == 1 {
        Store(count, B.Quad(readyBuf[src], -1, -1));
        count := count + 4;
      }
    }

    /** Encodes the whole groups of three. */
    method EncodeGroups() returns (src: nat, count: nat, ghost groups: nat)
      requires Shape()
      modifies encodedBuf
      ensures src == 3 * groups && count == 4 * groups && 0 <= ready - src <= 2
      ensures encodedBuf[..count] == B.Encode(Waiting()[..src])
    {
      ghost var data := Waiting();
      src, count, groups := 0, 0, 0;
      while ready - src > 2
        invariant src == 3 * groups <= ready && count == 4 * groups
        invariant encodedBuf[..count] == B.Encode(data[..src])
      {
        EncodeThree(data, groups);
        Store(count, B.Quad(readyBuf[src], readyBuf[src + 1], readyBuf[src + 2]));
        src, count, groups := src + 3, count + 4, groups + 1;
      }
    }

    /** guac_socket_write_base64. */
    method WriteBase64(data: seq<Byte>) returns (retval: int)
      requires Valid()
      modifies this`ready, this`written, this`script, readyBuf, encodedBuf
      ensures Valid() && retval == 0
      ensures Pushing(AsLine(), Waiting()) == Pushed(B.Encode, old(AsLine()), old(Waiting()) + data)
    {
      var rest := data;
      ghost var encode := B.Encode;
      ghost var goal := Pushed(encode, AsLine(), Waiting() + data);
      while |rest| > 0
        invariant Valid() && Pushed(encode, AsLine(), Waiting() + rest) == goal
        decreases |rest|
      {
        rest := PushSome(rest, encode);
      }
      assert Waiting() + rest == Waiting();
      retval := 0;
    }

    /** One turn of its loop: as much as fits goes to the ready buffer. */
    method PushSome(data: seq<Byte>, ghost encode: seq<Byte> -> seq<Byte>) returns (rest: seq<Byte>)
      requires Valid() && data != [] && encode == B.Encode
      modifies this`ready, this`written, this`script, readyBuf, encodedBuf
      ensures Valid() && |rest| < |data|
      ensures Pushed(encode, AsLine(), Waiting() + rest) == Pushed(encode, old(AsLine()), old(Waiting()) + data)
    {
      var len := READY_SIZE - ready;
      if |data| < len {
        len := |data|;
      }
      rest := data[len..];
      PushedStep(encode, AsLine(), Waiting(), data, len);
      Push(data[..len], encode);
    }

    /** Adds to the ready buffer and flushes it when full. */
    method Push(piece: seq<Byte>, ghost encode: seq<Byte> -> seq<Byte>)
      requires Valid() && ready + |piece| <= READY_SIZE && encode == B.Encode
      modifies this`ready, this`written, this`script, readyBuf, encodedBuf
      ensures Valid()
      ensures Pushing(AsLine(), Waiting()) == Pushed(encode, old(AsLine()), old(Waiting()) + piece)
    {
      Copy(piece);
      if ready == READY_SIZE {
        ghost var full := Waiting();
        assert full[..READY_SIZE] == full && full[READY_SIZE..] == [];
        var retval := FlushBase64();
        assert Waiting() == [];
      }
    }

    /** memcpy to the end of the ready buffer. */
    method Copy(piece: seq<Byte>)
      requires readyBuf.Length == READY_SIZE && ready + |piece| <= READY_SIZE
      modifies this`ready, readyBuf
      ensures ready == old(ready) + |piece|
      ensures readyBuf[..ready] == old(readyBuf[..ready]) + piece
    {
      forall i | 0 <= i < |piece| {
        readyBuf[ready + i] := piece[i];
      }
      ready := ready + |piece|;
    }

    /** __guac_socket_write_length_string. */
    method WriteElement(e: seq<Byte>) returns (retval: int)
      modifies this`written, this`script
      ensures var s := SentAll(old(AsLine()), ElementPieces(e));
        AsLine() == s.line && retval == if s.ok then 0 else 1
    {
      var length := Strlen(e);
      retval := WriteThree(Decimal(length), [DOT], e);
    }

    /** Three writes, each made only if those before it succeeded. */
    method WriteThree(a: seq<Byte>, b: seq<Byte>, c: seq<Byte>) returns (retval: int)
      modifies this`written, this`script
      ensures var s := SentAll(old(AsLine()), [a, b, c]);
        AsLine() == s.line && retval == if s.ok then 0 else 1
    {
      ghost var start := AsLine();
      retval := Write(a);
      if retval == 0 {
        retval := Write(b);
      }
      if retval == 0 {
        retval := Write(c);
      }
      ThreePieces(start, a, b, c);
    }

    /** guac_socket_write_array. */
    method WriteArray(elements: seq<seq<Byte>>) returns (retval: int)
      modifies this`written, this`script
      ensures var s := SentAll(old(AsLine()), ArrayPieces(elements));
        AsLine() == s.line && (retval == 0 <==> s.ok)
    {
      ghost var start := AsLine();
      retval := 0;
      for i := 0 to |elements|
        invariant retval == 0
        invariant SentAll(AsLine(), ArrayPieces(elements[i..])) == SentAll(start, ArrayPieces(elements))
      {
        ArrayPiecesStep(AsLine(), elements[i..]);
        assert elements[i..][1..] == elements[i + 1..];
        var r := Write([COMMA]);
        if r != 0 {
          return -1;
        }
        r := WriteElement(elements[i]);
        if r != 0 {
          return -1;
        }
      }
    }

    /** guac_protocol_send_args: the opcode, the protocol version, then the array. */
    method SendArgs(args: seq<seq<Byte>>) returns (retval: int)
      modifies this`written, this`script
      ensures var s := SentAll(old(AsLine()), ArgsPieces(args));
        AsLine() == s.line && (retval == 0 <==> s.ok)
    {
      ArgsSteps(AsLine(), args);
      retval := Write(PrintElement(ARGS));
      if retval != 0 {
        return -1;
      }
      retval := WriteArray([VERSION]);
      if retval != 0 {
        return -1;
      }
      retval := WriteArray(args);
      if retval != 0 {
        return -1;
      }
      retval := Write([SEMICOLON]);
    }

    /** The base64 part of a blob: written and flushed, the ready buffer being empty
        before and after. */
    method WriteEncoded(data: seq<Byte>) returns (retval: int)
      requires Valid() && ready == 0
      modifies this`ready, this`written, this`script, readyBuf, encodedBuf
      ensures Valid() && ready == 0 && retval == 0 && AsLine() == TextSent(old(AsLine()), data)
    {
      assert Waiting() + data == data;
      retval := WriteBase64(data);
      if retval == 0 {
        retval := FlushBase64();
      }
    }

    /** guac_protocol_send_blob: the length is announced before the data is encoded. */
    method SendBlob(index: nat, data: seq<Byte>) returns (retval: int)
      requires Valid() && ready == 0
      modifies this`ready, this`written, this`script, readyBuf, encodedBuf
      ensures Valid() && ready == 0
      ensures var s := BlobSent(old(AsLine()), index, data);
        AsLine() == s.line && retval == if s.ok then 0 else 1
    {
      var base64Length := (|data| + 2) / 3 * 4;
      retval := SendBlobHead(index, base64Length);
      if retval != 0 {
        return 1;
      }
      retval := WriteEncoded(data);
      if retval != 0 {
        return 1;
      }
      retval := Write([SEMICOLON]);
    }

    method SendBlobHead(index: nat, base64Length: nat) returns (retval: int)
      modifies this`written, this`script
      ensures var s := SentAll(old(AsLine()), HeadPieces(index, base64Length));
        AsLine() == s.line && retval == if s.ok then 0 else 1
    {
      HeadSteps(AsLine(), index, base64Length);
      retval := Write(PrintElement(BLOB) + [COMMA]);
      if retval == 0 {
        retval := WriteElement(Decimal(index));
      }
      if retval == 0 {
        retval := WriteThree([COMMA], Decimal(base64Length), [DOT]);
      }
    }

    /** guac_protocol_send_blobs. */
    method SendBlobs(index: nat, data: seq<Byte>) returns (retval: int)
      requires Valid() && ready == 0
      modifies this`ready, this`written, this`script, readyBuf, encodedBuf
      ensures Valid() && ready == 0
      ensures var s := BlobsSent(old(AsLine()), index, data);
        AsLine() == s.line && retval == if s.ok then 0 else 1
    {
      retval := 0;
      var rest := data;
      ghost var s := BlobsSent(AsLine(), index, data);
      while |rest| > 0 && retval == 0
        invariant Valid() && ready == 0
        invariant retval == 0 ==> BlobsSent(AsLine(), index, rest) == s
        invariant retval != 0 ==> retval == 1 && s == Sending(AsLine(), false)
        decreases |rest|
      {
        var size := |rest|;
        if size > BLOB_MAX {
          size := BLOB_MAX;
        }
        retval := SendBlob(index, rest[..size]);
        rest := rest[size..];
      }
    }

    method Store(count: nat, four: seq<Byte>)
      requires encodedBuf.Length == ENCODED_SIZE && |four| == 4 && count + 4 <= ENCODED_SIZE
      modifies encodedBuf
      ensures encodedBuf[..count + 4] == old(encodedBuf[..count]) + four
    {
      encodedBuf[count] := four[0];
      encodedBuf[count + 1] := four[1];
      encodedBuf[count + 2] := four[2];
      encodedBuf[count + 3] := four[3];
    }
  }

  lemma ThreePieces(line: Line, a: seq<Byte>, b: seq<Byte>, c: seq<Byte>)
    ensures SentAll(line, [a, b, c]) ==
      var s := Sent(line, a);
      if !s.ok then s else
        var t := Sent(s.line, b);
        if !t.ok then t else Sent(t.line, c)
  {
    var pieces := [a, b, c];
    assert pieces[1..] == [b, c] && [b, c][1..] == [c] && [c][1..] == [];
    assert forall l :: SentAll(l, [c]) == Sent(l, c) by {
      forall l
        ensures SentAll(l, [c]) == Sent(l, c)
      {
        assert [c][1..] == [];
      }
    }
  }

  lemma ArrayPiecesStep(line: Line, elements: seq<seq<Byte>>)
    requires elements != []
    ensures SentAll(line, ArrayPieces(elements)) ==
      var s := Sent(line, [COMMA]);
      if !s.ok then s else
        var t := SentAll(s.line, ElementPieces(elements[0]));
        if !t.ok then t else SentAll(t.line, ArrayPieces(elements[1..]))
  {
    var first, rest := ElementPieces(elements[0]), ArrayPieces(elements[1..]);
    assert ArrayPieces(elements) == [[COMMA]] + (first + rest);
    OneThen(line, [COMMA], first + rest);
    SentAllAppend(Sent(line, [COMMA]).line, first, rest);
  }

  lemma OneThen(line: Line, piece: seq<Byte>, rest: seq<seq<Byte>>)
    ensures SentAll(line, [piece] + rest) ==
      var s := Sent(line, piece); if s.ok then SentAll(s.line, rest) else s
  {
    assert ([piece] + rest)[1..] == rest;
  }

  lemma OnePiece(line: Line, piece: seq<Byte>)
    ensures SentAll(line, [piece]) == Sent(line, piece)
  {
    OneThen(line, piece, []);
    assert [piece] + [] == [piece];
  }

  lemma ArgsSteps(line: Line, args: seq<seq<Byte>>)
    ensures SentAll(line, ArgsPieces(args)) ==
      var s := Sent(line, PrintElement(ARGS));
      if !s.ok then s else
        var t := SentAll(s.line, ArrayPieces([VERSION]));
        if !t.ok then t else
          var u := SentAll(t.line, ArrayPieces(args));
          if !u.ok then u else Sent(u.line, [SEMICOLON])
  {
    var version, rest := ArrayPieces([VERSION]), ArrayPieces(args);
    assert ArgsPieces(args) == [PrintElement(ARGS)] + (version + (rest + [[SEMICOLON]]));
    OneThen(line, PrintElement(ARGS), version + (rest + [[SEMICOLON]]));
    var s := Sent(line, PrintElement(ARGS));
    SentAllAppend(s.line, version, rest + [[SEMICOLON]]);
    var t := SentAll(s.line, version);
    SentAllAppend(t.line, rest, [[SEMICOLON]]);
    OnePiece(SentAll(t.line, rest).line, [SEMICOLON]);
  }

  lemma HeadSteps(line: Line, index: nat, base64Length: nat)
    ensures SentAll(line, HeadPieces(index, base64Length)) ==
      var s := Sent(line, PrintElement(BLOB) + [COMMA]);
      if !s.ok then s else
        var t := SentAll(s.line, ElementPieces(Decimal(index)));
        if !t.ok then t else SentAll(t.line, [[COMMA], Decimal(base64Length), [DOT]])
  {
    var blob, middle := PrintElement(BLOB) + [COMMA], ElementPieces(Decimal(index));
    var rest := [[COMMA], Decimal(base64Length), [DOT]];
    assert HeadPieces(index, base64Length) == [blob] + (middle + rest);
    OneThen(line, blob, middle + rest);
    SentAllAppend(Sent(line, blob).line, middle, rest);
  }

  lemma EncodeThree(data: seq<Byte>, groups: nat)
    requires 3 * groups + 3 <= |data|
    ensures var src := 3 * groups;
      B.Encode(data[..src + 3]) == B.Encode(data[..src]) + B.Quad(data[src], data[src + 1], data[src + 2])
  {
    var src := 3 * groups;
    var three := data[src..src + 3];
    B.EncodeAppend(data[..src], three);
    assert data[..src] + three == data[..src + 3];
    assert B.Grouped(B.Quad, three[3..]) == [];
    assert B.Encode(three) == B.Quad(three[0], three[1], three[2]);
  }

  /** The encoding of the one or two bytes that are left, if any. */
  function Remnant(data: seq<Byte>, src: nat): seq<Byte> {
    if |data| == src + 1 then B.Quad(data[src], -1, -1)
    else if |data| == src + 2 then B.Quad(data[src], data[src + 1], -1)
    else []
  }

  lemma EncodeLast(data: seq<Byte>, groups: nat)
    requires 3 * groups <= |data| <= 3 * groups + 2
    ensures B.Encode(data) == B.Encode(data[..3 * groups]) + Remnant(data, 3 * groups)
  {
    var src := 3 * groups;
    B.EncodeAppend(data[..src], data[src..]);
    assert data[..src] + data[src..] == data;
  }

  // ---------------------------------------------------------------------
  // Blob instructions
  // ---------------------------------------------------------------------

  const BLOB: seq<Byte> := [98, 108, 111, 98]   // "blob"
  const ARGS: seq<Byte> := [97, 114, 103, 115]  // "args"
  const VERSION: seq<Byte> := [86, 69, 82, 83, 73, 79, 78, 95, 49, 95, 53, 95, 48]  // "VERSION_1_5_0"

  function BlobElements(index: nat, data: seq<Byte>): seq<seq<Byte>> {
    [BLOB, Decimal(index), B.Encode(data)]
  }

  lemma {:induction false} PlainIsWhole(s: seq<Byte>)
    requires B.Plain(s)
    ensures Whole(s) && Characters(s) == |s|
  {
    if s != [] {
      PlainIsWhole(s[1..]);
    }
  }

  lemma FlatElement(e: seq<Byte>)
    ensures Flat(ElementPieces(e)) == PrintElement(e)
  {
    var pieces := ElementPieces(e);
    assert pieces[1..] == [[DOT], e] && pieces[1..][1..] == [e];
    assert Flat([e]) == e + Flat([e][1..]);
  }

  /** The pieces of an array are its elements, each after a comma. */
  lemma {:induction false} FlatArray(first: seq<Byte>, rest: seq<seq<Byte>>)
    ensures PrintElement(first) + Flat(ArrayPieces(rest)) + [SEMICOLON] == Print([first] + rest)
    decreases |rest|
  {
    if rest == [] {
      assert [first] + rest == [first];
    } else {
      var second, others := PrintElement(rest[0]), Flat(ArrayPieces(rest[1..]));
      FlatArray(rest[0], rest[1..]);
      assert [rest[0]] + rest[1..] == rest;
      PrintCons(first, rest);
      FlatElement(rest[0]);
      FlatSeparated(ElementPieces(rest[0]), ArrayPieces(rest[1..]));
      Regrouped(PrintElement(first), second, others);
    }
  }

  lemma Regrouped(a: seq<Byte>, b: seq<Byte>, c: seq<Byte>)
    ensures a + ([COMMA] + b + c) + [SEMICOLON] == a + [COMMA] + (b + c + [SEMICOLON])
  {
  }

  lemma FlatSeparated(pieces: seq<seq<Byte>>, others: seq<seq<Byte>>)
    ensures Flat([[COMMA]] + pieces + others) == [COMMA] + Flat(pieces) + Flat(others)
  {
    FlatAppend([[COMMA]] + pieces, others);
    FlatAppend([[COMMA]], pieces);
    FlatOne([COMMA]);
  }

  lemma {:induction false} SpreadAppend(p: seq<Byte> -> seq<seq<Byte>>, a: seq<seq<Byte>>, b: seq<seq<Byte>>)
    ensures Spread(p, a + b) == Spread(p, a) + Spread(p, b)
  {
    if a == [] {
      assert a + b == b;
    } else {
      SpreadAppend(p, a[1..], b);
      assert (a + b)[1..] == a[1..] + b;
      assert Spread(p, a + b) == p(a[0]) + (Spread(p, a[1..]) + Spread(p, b));
    }
  }

  lemma FlatArgs(args: seq<seq<Byte>>)
    ensures Flat(ArgsPieces(args)) == Print([ARGS, VERSION] + args)
  {
    var first, middle := [PrintElement(ARGS)], ArrayPieces([VERSION]) + ArrayPieces(args);
    SpreadAppend(SeparatedPieces, [VERSION], args);
    FlatArray(ARGS, [VERSION] + args);
    assert [ARGS] + ([VERSION] + args) == [ARGS, VERSION] + args;
    assert ArgsPieces(args) == first + (middle + [[SEMICOLON]]);
    FlatAppend(first, middle + [[SEMICOLON]]);
    FlatAppend(middle, [[SEMICOLON]]);
    FlatOne(PrintElement(ARGS));
    FlatOne([SEMICOLON]);
  }

  lemma FlatOne(piece: seq<Byte>)
    ensures Flat([piece]) == piece
  {
    assert [piece][1..] == [];
  }

  /** The arguments are written as the printed instruction exactly if no outcome is a
      failure, and the return value says which. */
  lemma ArgsDeliver(line: Line, args: seq<seq<Byte>>)
    ensures var s := SentAll(line, ArgsPieces(args));
      Delivers(line, s.line, Print([ARGS, VERSION] + args)) && (s.ok <==> Clean(Used(line, s.line)))
  {
    SentAllDelivers(line, ArgsPieces(args));
    FlatArgs(args);
  }

  lemma FlatHead(index: nat, base64Length: nat)
    ensures Flat(HeadPieces(index, base64Length)) ==
      PrintElement(BLOB) + [COMMA] + PrintElement(Decimal(index)) + [COMMA] + Decimal(base64Length) + [DOT]
  {
    var blob, middle := PrintElement(BLOB) + [COMMA], ElementPieces(Decimal(index));
    var rest := [[COMMA], Decimal(base64Length), [DOT]];
    assert HeadPieces(index, base64Length) == [blob] + (middle + rest);
    FlatAppend([blob], middle + rest);
    FlatAppend(middle, rest);
    FlatOne(blob);
    FlatElement(Decimal(index));
    assert rest[1..] == [Decimal(base64Length), [DOT]] && rest[1..][1..] == [[DOT]];
    FlatOne([DOT]);
  }

  /** The announced length is the one the data turns out to have, so what is streamed
      is a well-formed instruction. */
  lemma BlobIsPrinted(index: nat, data: seq<Byte>)
    ensures Flat(HeadPieces(index, (|data| + 2) / 3 * 4)) + B.Encode(data) + [SEMICOLON] ==
      Print(BlobElements(index, data))
  {
    FlatHead(index, (|data| + 2) / 3 * 4);
    B.EncodedLength(data);
    B.EncodedIsPlain(data);
    PlainIsWhole(B.Encode(data));
    PrintThree(BLOB, Decimal(index), B.Encode(data));
  }

  lemma PrintThree(a: seq<Byte>, b: seq<Byte>, c: seq<Byte>)
    ensures Print([a, b, c]) == PrintElement(a) + [COMMA] + PrintElement(b) + [COMMA] + PrintElement(c) + [SEMICOLON]
  {
    PrintCons(a, [b, c]);
    assert [a] + [b, c] == [a, b, c];
    PrintCons(b, [c]);
    assert [b] + [c] == [b, c];
    Nested(PrintElement(a), PrintElement(b), PrintElement(c));
  }

  lemma PrintCons(a: seq<Byte>, rest: seq<seq<Byte>>)
    requires rest != []
    ensures Print([a] + rest) == PrintElement(a) + [COMMA] + Print(rest)
  {
    assert ([a] + rest)[1..] == rest;
  }

  lemma Nested(a: seq<Byte>, b: seq<Byte>, c: seq<Byte>)
    ensures a + [COMMA] + (b + [COMMA] + (c + [SEMICOLON])) == a + [COMMA] + b + [COMMA] + c + [SEMICOLON]
  {
  }

  // ---------------------------------------------------------------------
  // What is lost when the socket fails
  // ---------------------------------------------------------------------

  /** Whether an encoding can be made in blocks the size of the ready buffer. */
  ghost predicate Blockwise(encode: seq<Byte> -> seq<Byte>) {
    forall a, b {:trigger encode(a + b)} :: |a| == READY_SIZE ==> encode(a + b) == encode(a) + encode(b)
  }

  lemma EncodeIsBlockwise()
    ensures Blockwise(B.Encode)
  {
    forall a: seq<Byte>, b: seq<Byte> | |a| == READY_SIZE
      ensures B.Encode(a + b) == B.Encode(a) + B.Encode(b)
    {
      B.EncodeAppend(a, b);
    }
  }

  /** Bytes pushed and flushed deliver their encoding. */
  lemma {:induction false} EncodedDelivers(encode: seq<Byte> -> seq<Byte>, line: Line, bytes: seq<Byte>)
    requires Blockwise(encode)
    ensures Delivers(line, Encoded(encode, line, bytes), encode(bytes))
    decreases |bytes|
  {
    if |bytes| < READY_SIZE {
      SentDelivers(line, encode(bytes));
    } else {
      var first, rest := bytes[..READY_SIZE], bytes[READY_SIZE..];
      var next := Sent(line, encode(first)).line;
      SentDelivers(line, encode(first));
      EncodedDelivers(encode, next, rest);
      DeliversBoth(line, next, Encoded(encode, next, rest), encode(first), encode(rest));
      assert first + rest == bytes;
    }
  }

  lemma TextDelivers(line: Line, data: seq<Byte>)
    ensures Delivers(line, TextSent(line, data), B.Encode(data))
  {
    EncodeIsBlockwise();
    EncodedDelivers(B.Encode, line, data);
  }

  /** A blob is written as the printed instruction exactly if no outcome used by the call
      is a failure. */
  lemma BlobDelivers(line: Line, index: nat, data: seq<Byte>)
    ensures Delivers(line, BlobSent(line, index, data).line, Print(BlobElements(index, data)))
  {
    var head := HeadSent(line, index, data);
    var start := Flat(HeadPieces(index, (|data| + 2) / 3 * 4));
    BlobIsPrinted(index, data);
    SentAllDelivers(line, HeadPieces(index, (|data| + 2) / 3 * 4));
    if head.ok {
      var text := TextSent(head.line, data);
      TextDelivers(head.line, data);
      SentDelivers(text, [SEMICOLON]);
      DeliversBoth(line, head.line, text, start, B.Encode(data));
      DeliversBoth(line, text, EndSent(text).line, start + B.Encode(data), [SEMICOLON]);
    } else {
      DeliversLess(line, head.line, start, B.Encode(data) + [SEMICOLON]);
      assert start + (B.Encode(data) + [SEMICOLON]) == start + B.Encode(data) + [SEMICOLON];
    }
  }

  /** The call returns 0 exactly if no outcome failed in what comes before the data or in
      the semicolon; then the printed blob was written exactly if none failed in the
      data. */
  lemma BlobReportsExactlyWhen(line: Line, index: nat, data: seq<Byte>)
    ensures var s, head := BlobSent(line, index, data), HeadSent(line, index, data);
      var text := TextSent(head.line, data);
      && Follows(line, head.line) && Follows(head.line, text) && Follows(text, EndSent(text).line)
      && Follows(line, s.line)
      && (s.ok <==> Clean(Used(line, head.line)) && Clean(Used(text, EndSent(text).line)))
      && (s.ok ==> (s.line.written == line.written + Print(BlobElements(index, data)) <==>
                      Clean(Used(head.line, text))))
  {
    var s, head := BlobSent(line, index, data), HeadSent(line, index, data);
    var text := TextSent(head.line, data);
    SentAllDelivers(line, HeadPieces(index, (|data| + 2) / 3 * 4));
    TextDelivers(head.line, data);
    SentDelivers(text, [SEMICOLON]);
    BlobDelivers(line, index, data);
    if s.ok {
      FollowsBoth(line, head.line, text);
      FollowsBoth(line, text, s.line);
      DeliversExactlyWhen(line, s.line, Print(BlobElements(index, data)));
    }
  }

  /** Whenever exactly the data is hit by a failure, 0 is returned and the instruction
      is too short. */
  lemma LossIsSilent(line: Line, index: nat, data: seq<Byte>)
    requires var head := HeadSent(line, index, data);
      head.ok && EndSent(TextSent(head.line, data)).ok
    requires var head := HeadSent(line, index, data);
      Follows(head.line, TextSent(head.line, data)) && !Clean(Used(head.line, TextSent(head.line, data)))
    ensures var s := BlobSent(line, index, data);
      s.ok && |s.line.written| < |line.written| + |Print(BlobElements(index, data))|
  {
    BlobReportsExactlyWhen(line, index, data);
    BlobDelivers(line, index, data);
  }

  /** All data is written as printed blobs exactly if no outcome is a failure; if none is,
      0 is returned. */
  lemma {:induction false} BlobsDeliver(line: Line, index: nat, data: seq<Byte>)
    ensures var s := BlobsSent(line, index, data);
      && Delivers(line, s.line, PrintAll(BlobList(index, data)))
      && (Clean(Used(line, s.line)) ==> s.ok)
    decreases |data|
  {
    if data != [] {
      var piece, rest := data[..Size(data)], data[Size(data)..];
      var first, s := BlobSent(line, index, piece), BlobsSent(line, index, data);
      var text := Print(BlobElements(index, piece));
      BlobDelivers(line, index, piece);
      BlobReportsExactlyWhen(line, index, piece);
      assert BlobList(index, data)[1..] == BlobList(index, rest);
      assert PrintAll(BlobList(index, data)) == text + PrintAll(BlobList(index, rest));
      if first.ok {
        BlobsDeliver(first.line, index, rest);
        DeliversBoth(line, first.line, s.line, text, PrintAll(BlobList(index, rest)));
      } else {
        CleanReports(line, index, piece);
        DeliversLess(line, s.line, text, PrintAll(BlobList(index, rest)));
      }
    }
  }

  /** A call that uses no failure reports none. */
  lemma CleanReports(line: Line, index: nat, data: seq<Byte>)
    ensures var s := BlobSent(line, index, data);
      Follows(line, s.line) && (Clean(Used(line, s.line)) ==> s.ok)
  {
    BlobReportsExactlyWhen(line, index, data);
    var s, head := BlobSent(line, index, data), HeadSent(line, index, data);
    var text := TextSent(head.line, data);
    SentAllDelivers(line, HeadPieces(index, (|data| + 2) / 3 * 4));
    if head.ok {
      FollowsBoth(line, head.line, text);
      FollowsBoth(line, text, s.line);
    }
  }

  function Power10(k: nat): nat {
    if k == 0 then 1 else 10 * Power10(k - 1)
  }

  lemma {:induction false} DecimalLength(n: nat, digits: nat)
    requires digits > 0 && n < Power10(digits)
    ensures |Decimal(n)| <= digits
  {
    if n >= 10 {
      DecimalLength(n / 10, digits - 1);
    }
  }

  /** A stream index is a C int, so it always prints within the length limit. */
  lemma IndexIsPrintable(index: nat)
    requires index <= INT_MAX
    ensures Printable(Decimal(index))
  {
    assert Power10(5) == 100000;
    assert Power10(10) == 10000000000;
    DecimalLength(index, 10);
    PlainIsWhole(Decimal(index));
  }

  lemma PlainPrintable(s: seq<Byte>)
    requires B.Plain(s)
    ensures Printable(s) <==> |s| <= MAX_LENGTH
  {
    PlainIsWhole(s);
  }

  /** One blob, end to end, for any bytes: the parser returns exactly the base64 text
      if and only if its announced length is within the limit, and decoding that text
      gives the bytes back. */
  lemma BlobArrives(index: nat, data: seq<Byte>, rest: seq<Byte>)
    requires index <= INT_MAX
    ensures Decode(Print(BlobElements(index, data)) + rest) ==
              Instruction(BlobElements(index, data), |Print(BlobElements(index, data))|) <==>
            (|data| + 2) / 3 * 4 <= MAX_LENGTH
    ensures B.Decode(BlobElements(index, data)[2]) == data
  {
    var elements := BlobElements(index, data);
    IndexIsPrintable(index);
    B.EncodedLength(data);
    B.EncodedIsPlain(data);
    PlainPrintable(B.Encode(data));
    assert B.Plain(BLOB);
    PlainPrintable(BLOB);
    assert AllPrintable(elements) <==> Printable(elements[0]) && Printable(elements[1]) && Printable(elements[2]);
    PrintDecodes(elements, rest);
    B.DecodeEncode(data);
  }

  // ---------------------------------------------------------------------
  // A script that loses the data
  // ---------------------------------------------------------------------

  /** Pieces that are each taken by one call. */
  lemma {:induction false} TakenAtOnce(written: seq<Byte>, pieces: seq<seq<Byte>>, more: seq<Outcome>)
    requires forall i :: 0 <= i < |pieces| ==> 0 < |pieces[i]| <= 100
    ensures SentAll(Line(written, seq(|pieces|, _ => 100) + more), pieces) ==
      Sending(Line(written + Flat(pieces), more), true)
    decreases |pieces|
  {
    var line := Line(written, seq(|pieces|, _ => 100) + more);
    if pieces == [] {
      assert line.script == more;
    } else {
      SentAtOnce(line, pieces[0]);
      assert line.script[1..] == seq(|pieces| - 1, _ => 100) + more;
      TakenAtOnce(written + pieces[0], pieces[1..], more);
    }
  }

  lemma HeadPiecesShort(index: nat, base64Length: nat)
    requires index <= INT_MAX && base64Length <= INT_MAX
    ensures forall i :: 0 <= i < |HeadPieces(index, base64Length)| ==> 0 < |HeadPieces(index, base64Length)[i]| <= 100
  {
    assert Power10(5) == 100000;
    assert Power10(10) == 10000000000;
    DecimalLength(index, 10);
    DecimalLength(base64Length, 10);
    PlainIsWhole(Decimal(index));
    DecimalLength(|Decimal(index)|, 5);
    assert PrintElement(BLOB) == Decimal(Characters(BLOB)) + [DOT] + BLOB;
    PlainIsWhole(BLOB);
    DecimalLength(4, 5);
  }

  /** Seven calls succeed and the eighth fails: 0 is returned, and the text is missing
      between the announced length and the semicolon. */
  const LOSING: seq<Outcome> := seq(7, _ => 100) + [-1]

  lemma LosingScript(index: nat, data: seq<Byte>)
    requires index <= INT_MAX && 0 < |data| < READY_SIZE
    ensures BlobSent(Line([], LOSING), index, data) ==
      Sending(Line(Flat(HeadPieces(index, (|data| + 2) / 3 * 4)) + [SEMICOLON], []), true)
  {
    var pieces := HeadPieces(index, (|data| + 2) / 3 * 4);
    HeadPiecesShort(index, (|data| + 2) / 3 * 4);
    TakenAtOnce([], pieces, [-1]);
    assert [] + Flat(pieces) == Flat(pieces);
    B.EncodedLength(data);
    var line := Line(Flat(pieces), [-1]);
    assert Pushed(B.Encode, line, data) == Pushing(line, data);
    assert Sent(line, B.Encode(data)).line == Line(Flat(pieces), []);
  }

  /** The receiver then waits for more: it takes the semicolon, and what comes after it,
      for the text that was lost. */
  lemma LostTextIsAwaited(index: nat, base64Length: nat, rest: seq<Byte>)
    requires index <= INT_MAX && base64Length <= MAX_LENGTH
    requires B.Plain(rest) && |rest| < base64Length
    ensures Decode(Flat(HeadPieces(index, base64Length)) + [SEMICOLON] + rest) == Incomplete
  {
    var head, tail := Flat(HeadPieces(index, base64Length)), [SEMICOLON] + rest;
    assert head + [SEMICOLON] + rest == head + tail;
    HeadAndTail(index, base64Length, tail);
    AtItself(head + tail);
    PlainPrintable(BLOB);
    IndexIsPrintable(index);
    TwoFieldsAwaited(head + tail, BLOB, Decimal(index), base64Length, tail);
  }

  lemma HeadAndTail(index: nat, n: nat, tail: seq<Byte>)
    ensures Flat(HeadPieces(index, n)) + tail ==
      PrintElement(BLOB) + [COMMA] + (PrintElement(Decimal(index)) + [COMMA] + (Decimal(n) + [DOT] + tail))
  {
    FlatHead(index, n);
    NestedHead(PrintElement(BLOB), PrintElement(Decimal(index)), Decimal(n), tail);
  }

  lemma NestedHead(a: seq<Byte>, b: seq<Byte>, c: seq<Byte>, tail: seq<Byte>)
    ensures a + [COMMA] + b + [COMMA] + c + [DOT] + tail ==
      a + [COMMA] + (b + [COMMA] + (c + [DOT] + tail))
  {
  }

  lemma AtItself(s: seq<Byte>)
    ensures At(s, 0, s)
  {
  }

  lemma TwoFieldsAwaited(s: seq<Byte>, a: seq<Byte>, b: seq<Byte>, n: nat, tail: seq<Byte>)
    requires Printable(a) && Printable(b) && n <= MAX_LENGTH && B.Plain(tail) && |tail| <= n
    requires At(s, 0, PrintElement(a) + [COMMA] + (PrintElement(b) + [COMMA] + (Decimal(n) + [DOT] + tail)))
    requires |s| == |PrintElement(a)| + 1 + |PrintElement(b)| + 1 + |Decimal(n)| + 1 + |tail|
    ensures Decode(s) == Incomplete
  {
    ReadField(s, 0, a, PrintElement(b) + [COMMA] + (Decimal(n) + [DOT] + tail), []);
    CutOffIsAwaited(s, |PrintElement(a)| + 1, b, n, [] + [a], tail);
  }

  lemma CutOffIsAwaited(s: seq<Byte>, pos: nat, e: seq<Byte>, n: nat, elements: seq<seq<Byte>>, tail: seq<Byte>)
    requires Printable(e) && n <= MAX_LENGTH && B.Plain(tail) && |tail| <= n
    requires At(s, pos, PrintElement(e) + [COMMA] + (Decimal(n) + [DOT] + tail))
    requires |s| == pos + |PrintElement(e)| + 1 + |Decimal(n)| + 1 + |tail|
    ensures Resume(s, Progress(pos, InLength(0), elements)) == Incomplete
  {
    ReadField(s, pos, e, Decimal(n) + [DOT] + tail, elements);
    ReadCutOff(s, pos + |PrintElement(e)| + 1, n, elements + [e], tail);
  }

  /** Reads an element and the comma after it. */
  lemma ReadField(s: seq<Byte>, pos: nat, e: seq<Byte>, rest: seq<Byte>, elements: seq<seq<Byte>>)
    requires At(s, pos, PrintElement(e) + [COMMA] + rest) && Printable(e)
    ensures var next := pos + |PrintElement(e)| + 1;
      && At(s, next, rest)
      && Resume(s, Progress(pos, InLength(0), elements)) == Resume(s, Progress(next, InLength(0), elements + [e]))
  {
    PrintsMore(s, pos, e, rest);
    var begin := ReadElement(s, pos, e, elements);
  }

  /** Whatever comes where text is due is taken for text. */
  lemma ReadCutOff(s: seq<Byte>, at: nat, n: nat, elements: seq<seq<Byte>>, tail: seq<Byte>)
    requires At(s, at, Decimal(n) + [DOT] + tail) && |s| == at + |Decimal(n)| + 1 + |tail|
    requires n <= MAX_LENGTH && B.Plain(tail) && |tail| <= n
    ensures Resume(s, Progress(at, InLength(0), elements)) == Incomplete
  {
    AtParts(s, at, Decimal(n) + [DOT], tail);
    AtParts(s, at, Decimal(n), [DOT]);
    AtByte(s, at + |Decimal(n)|, DOT);
    ReadDecimal(s, at, n, elements);
    var begin := at + |Decimal(n)| + 1;
    PlainIsTaken(s, begin, tail, n, begin, elements);
  }

  lemma {:induction false} PlainIsTaken(s: seq<Byte>, pos: nat, tail: seq<Byte>, due: nat, begin: nat,
                                        elements: seq<seq<Byte>>)
    requires At(s, pos, tail) && |s| == pos + |tail| && begin <= pos
    requires B.Plain(tail) && |tail| <= due
    ensures Resume(s, Progress(pos, InContent(due, begin), elements)) == Incomplete
    decreases |tail|
  {
    if tail != [] {
      assert s[pos] == tail[0] && tail == tail[..1] + tail[1..];
      AtParts(s, pos, tail[..1], tail[1..]);
      PlainIsTaken(s, pos + 1, tail[1..], due - 1, begin, elements);
    }
  }

  // ---------------------------------------------------------------------
  // Data of any size, cut into blobs
  // ---------------------------------------------------------------------

  function Size(data: seq<Byte>): nat {
    if |data| > BLOB_MAX then BLOB_MAX else |data|
  }

  /** The instructions guac_protocol_send_blobs sends. */
  function BlobList(index: nat, data: seq<Byte>): (list: seq<seq<seq<Byte>>>)
    ensures forall i :: 0 <= i < |list| ==> |list[i]| == 3
  {
    if data == [] then []
    else [BlobElements(index, data[..Size(data)])] + BlobList(index, data[Size(data)..])
  }

  /** Data is sent in as few blobs of at most 6048 bytes as it takes. */
  lemma {:induction false} BlobCount(index: nat, data: seq<Byte>)
    ensures |BlobList(index, data)| == (|data| + 6047) / 6048
    decreases |data|
  {
    if data != [] {
      BlobCount(index, data[Size(data)..]);
    }
  }

  lemma BlobListStep(index: nat, data: seq<Byte>, at: nat, size: nat)
    requires at + size <= |data| && size > 0 && size == Size(data[at..])
    ensures PrintAll(BlobList(index, data[at..])) ==
      Print(BlobElements(index, data[at..at + size])) + PrintAll(BlobList(index, data[at + size..]))
  {
    assert data[at..][..size] == data[at..at + size];
    assert data[at..][size..] == data[at + size..];
    var first, rest := BlobElements(index, data[at..at + size]), BlobList(index, data[at + size..]);
    assert BlobList(index, data[at..]) == [first] + rest;
    assert ([first] + rest)[1..] == rest;
  }

  /** The bytes carried by a list of blob instructions. */
  function Joined(list: seq<seq<seq<Byte>>>): seq<Byte>
    requires forall i :: 0 <= i < |list| ==> |list[i]| == 3
  {
    if list == [] then [] else B.Decode(list[0][2]) + Joined(list[1..])
  }

  /** Data of any size arrives whole: every blob passes the parser, and the decoded
      blobs joined together are the data. */
  lemma {:induction false} BlobsArrive(index: nat, data: seq<Byte>)
    requires index <= INT_MAX
    ensures Joined(BlobList(index, data)) == data
    ensures forall i :: 0 <= i < |BlobList(index, data)| ==> AllPrintable(BlobList(index, data)[i])
    ensures DecodeAll(PrintAll(BlobList(index, data))) == BlobList(index, data)
    decreases |data|
  {
    var list := BlobList(index, data);
    if data != [] {
      var piece, rest := data[..Size(data)], data[Size(data)..];
      BlobsArrive(index, rest);
      BlobArrives(index, piece, []);
      PrintDecodes(BlobElements(index, piece), []);
      assert list[1..] == BlobList(index, rest);
      assert piece + rest == data;
    }
    PrintAllDecodes(list);
  }
}
