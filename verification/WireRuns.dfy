/** Whole exchanges: what one side prints, however the socket cuts it up, is what the
    other side's parser returns.
  */
module WireRuns {
  import opened Unicode
  import opened Wire
  import opened Machines
  import opened Parsers

  /** An instruction that survives the trip: elements the parser can return, seen as
      null-terminated strings, within the limits of the parser. */
  predicate Sendable(elements: seq<seq<Byte>>) {
    && 0 < |elements| < MAX_ELEMENTS && AllPrintable(elements) && |Print(elements)| <= BUFFER_SIZE
    && forall i :: 0 <= i < |elements| ==> 0 !in elements[i]
  }

  /** Reads element `k` the way a C caller does, up to its null terminator. */
  method CString(parser: Parser, k: nat, ghost e: seq<Byte>) returns (r: seq<Byte>)
    requires parser.Shape() && parser.Stored(k, e, parser.buffer.Length) && 0 !in e
    ensures r == e
  {
    r := [];
    var start := parser.elementv[k];
    var at := start;
    assert forall j :: 0 <= j < |e| ==> parser.buffer[start + j] == e[j] && e[j] != 0;
    assert forall i :: start <= i < start + |e| ==> parser.buffer[i] == e[i - start] != 0;
    while parser.buffer[at] != 0
      invariant |r| <= |e| && at == start + |r| && r == e[..|r|]
      decreases |e| - |r|
    {
      r := r + [parser.buffer[at]];
      at := at + 1;
    }
  }

  /** The opcode and arguments of the instruction just read. */
  method Elements(parser: Parser, ghost elements: seq<seq<Byte>>) returns (r: seq<seq<Byte>>)
    requires parser.Shape() && parser.Returns(elements)
    requires forall i :: 0 <= i < |elements| ==> 0 !in elements[i]
    ensures r == elements
  {
    r := [];
    for k := 0 to parser.elementc
      invariant |r| == k && r == elements[..k]
    {
      var e := CString(parser, k, elements[k]);
      r := r + [e];
    }
  }

  lemma PrintAllStep(list: seq<seq<seq<Byte>>>, k: nat)
    requires k < |list| && forall i :: 0 <= i < |list| ==> |list[i]| > 0
    ensures PrintAll(list[k..]) == Print(list[k]) + PrintAll(list[k + 1..])
  {
    assert list[k..][1..] == list[k + 1..];
  }

  /** The next instruction of a stream that begins with its printed form. */
  method ReadOne(parser: Parser, socket: Socket, ghost elements: seq<seq<Byte>>, ghost rest: seq<Byte>)
    returns (r: seq<seq<Byte>>)
    requires parser.Ready() && socket.reliable && Sendable(elements)
    requires parser.Unparsed() + socket.incoming == Print(elements) + rest
    modifies parser, parser.buffer, parser.elementv, socket`incoming, socket`up
    ensures r == elements && parser.Ready() && parser.Unparsed() + socket.incoming == rest
  {
    ghost var s := Print(elements) + rest;
    PrintDecodes(elements, rest);
    MachineAgrees(s, START);
    SplittableExactlyWhen(s);
    var retval := parser.Read(socket);
    assert s[|Print(elements)|..] == rest;
    r := Elements(parser, elements);
  }

  /** A socket that merely splits the stream as it likes loses and alters nothing. */
  method Exchange(list: seq<seq<seq<Byte>>>) returns (received: seq<seq<seq<Byte>>>)
    requires forall i :: 0 <= i < |list| ==> Sendable(list[i])
    ensures received == list
  {
    var socket := new Socket(PrintAll(list), true);
    var parser := new Parser();
    received := [];
    for k := 0 to |list|
      invariant parser.Ready() && fresh(parser) && fresh(parser.buffer) && fresh(parser.elementv) && fresh(socket)
      invariant parser.Unparsed() + socket.incoming == PrintAll(list[k..])
      invariant received == list[..k]
    {
      PrintAllStep(list, k);
      var elements := ReadOne(parser, socket, list[k], PrintAll(list[k + 1..]));
      received := received + [elements];
    }
  }

  // ---------------------------------------------------------------------
  // A length that wraps around
  // ---------------------------------------------------------------------

  /** A parser as an earlier read leaves it, with bytes behind the instruction read. */
  method Holding(bytes: seq<Byte>) returns (parser: Parser)
    requires |bytes| <= BUFFER_SIZE
    ensures fresh(parser) && fresh(parser.buffer) && fresh(parser.elementv)
    ensures parser.Ready() && parser.Unparsed() == bytes
  {
    parser := new Parser();
    forall i | 0 <= i < |bytes| {
      parser.buffer[i] := bytes[i];
    }
    parser.unparsedEnd := |bytes|;
  }

  /** "4294967297.a;" is read as "1.a;" when all of it has arrived. */
  method WrappedIsAccepted() returns (retval: int, elements: seq<seq<Byte>>)
    ensures retval == 0 && elements == [[97]]
  {
    WrappedOutcomes();
    var parser := Holding(WrappedStream());
    var socket := new Socket([], true);
    assert WrappedStream() + [] == WrappedStream();
    retval := parser.Read(socket);
    elements := Elements(parser, [[97]]);
  }

  /** The same bytes are refused when the first five have arrived alone. */
  method WrappedIsRefusedInParts() returns (retval: int)
    ensures retval != 0
  {
    WrappedOutcomes();
    var parser := Holding(WrappedStream()[..5]);
    var socket := new Socket(WrappedStream()[5..], true);
    retval := parser.Read(socket);
  }
}
