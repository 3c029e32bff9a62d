/** Data of any size from one end to the other: encoded while it is streamed out, cut up
    by the socket, parsed, and decoded in place.
  */
module BlobRuns {
  import opened Unicode
  import opened Wire
  import opened Lines
  import opened CInt
  import opened Parsers
  import opened WireRuns
  import opened Blobs
  import B = Base64

  /** A printed element that is plain text has at most five digits and a period before it. */
  lemma PlainLength(e: seq<Byte>)
    requires B.Plain(e) && |e| < 100000
    ensures |PrintElement(e)| <= |e| + 6
  {
    PlainIsWhole(e);
    assert Power10(5) == 100000;
    DecimalLength(|e|, 5);
  }

  /** Every blob of the size that is sent passes the limits of the parser. */
  lemma BlobSendable(index: nat, data: seq<Byte>)
    requires index <= INT_MAX && |data| <= BLOB_MAX
    ensures Sendable(BlobElements(index, data))
  {
    var elements := BlobElements(index, data);
    BlobArrives(index, data, []);
    PrintDecodes(elements, []);
    B.EncodedLength(data);
    B.EncodedIsPlain(data);
    assert Power10(10) == 10000000000 by {
      assert Power10(5) == 100000;
    }
    DecimalLength(index, 10);
    assert B.Plain(BLOB) && B.Plain(Decimal(index));
    PlainLength(BLOB);
    PlainLength(Decimal(index));
    PlainLength(elements[2]);
    BlobLength(index, data);
  }

  lemma BlobLength(index: nat, data: seq<Byte>)
    ensures |Print(BlobElements(index, data))| ==
      |PrintElement(BLOB)| + |PrintElement(Decimal(index))| + |PrintElement(B.Encode(data))| + 3
  {
    PrintThree(BLOB, Decimal(index), B.Encode(data));
  }

  /** Reads the next blob and decodes it. */
  method ReceiveBlob(parser: Parser, socket: Socket, ghost index: nat, ghost data: seq<Byte>, ghost rest: seq<Byte>)
    returns (piece: seq<Byte>)
    requires parser.Ready() && socket.reliable && index <= INT_MAX && |data| <= BLOB_MAX
    requires parser.Unparsed() + socket.incoming == Print(BlobElements(index, data)) + rest
    modifies parser, parser.buffer, parser.elementv, socket`incoming, socket`up
    ensures piece == data && parser.Ready() && parser.Unparsed() + socket.incoming == rest
  {
    BlobSendable(index, data);
    var elements := ReadOne(parser, socket, BlobElements(index, data), rest);
    piece := DecodeText(elements[2]);
    B.DecodeEncode(data);
  }

  /** Decodes a null-terminated string where it is. */
  method DecodeText(text: seq<Byte>) returns (bytes: seq<Byte>)
    requires 0 !in text
    ensures bytes == B.Decode(text)
  {
    var base64 := new Byte[|text| + 1](i requires 0 <= i <= |text| => if i < |text| then text[i] else 0);
    assert forall i :: 0 <= i < |text| ==> base64[i] == text[i] && text[i] in text;
    var length := B.DecodeInPlace(base64, text);
    bytes := base64[..length];
  }

  /** The stream that is still to come after the first bytes of the data. */
  type Stream = nat -> seq<Byte>

  ghost function StreamOf(index: nat, data: seq<Byte>): Stream {
    (at: nat) => if at <= |data| then PrintAll(BlobList(index, data[at..])) else []
  }

  /** Whether the stream goes on with the next blob of the data. */
  ghost predicate Continues(stream: Stream, index: nat, data: seq<Byte>, at: nat, size: nat)
    requires at + size <= |data|
  {
    && 0 < size <= BLOB_MAX
    && stream(at) == Print(BlobElements(index, data[at..at + size])) + stream(at + size)
  }

  ghost predicate Carries(stream: Stream, index: nat, data: seq<Byte>) {
    forall at: nat {:trigger NextSize(data, at)} ::
      at < |data| ==> Continues(stream, index, data, at, NextSize(data, at))
  }

  function NextSize(data: seq<Byte>, at: nat): (size: nat)
    ensures at < |data| ==> at + size <= |data|
  {
    if at < |data| then Size(data[at..]) else 0
  }

  lemma StreamCarries(index: nat, data: seq<Byte>)
    ensures Carries(StreamOf(index, data), index, data)
  {
    forall at: nat | at < |data|
      ensures Continues(StreamOf(index, data), index, data, at, NextSize(data, at))
    {
      StreamContinues(index, data, at);
    }
  }

  lemma StreamContinues(index: nat, data: seq<Byte>, at: nat)
    requires at < |data|
    ensures Continues(StreamOf(index, data), index, data, at, NextSize(data, at))
  {
    BlobListStep(index, data, at, NextSize(data, at));
  }

  /** Reads the blob that continues the data. */
  method ReceiveNext(parser: Parser, socket: Socket, received: seq<Byte>, ghost index: nat,
                     ghost data: seq<Byte>, ghost stream: Stream)
    returns (more: seq<Byte>)
    requires parser.Ready() && socket.reliable && index <= INT_MAX && Carries(stream, index, data)
    requires |received| < |data| && received == data[..|received|]
    requires parser.Unparsed() + socket.incoming == stream(|received|)
    modifies parser, parser.buffer, parser.elementv, socket`incoming, socket`up
    ensures |received| < |more| <= |data| && more == data[..|more|]
    ensures parser.Ready() && parser.Unparsed() + socket.incoming == stream(|more|)
  {
    ghost var at := |received|;
    ghost var end := at + NextSize(data, at);
    assert Continues(stream, index, data, at, end - at);
    var piece := ReceiveBlob(parser, socket, index, data[at..end], stream(end));
    assert data[..at] + data[at..end] == data[..end];
    more := received + piece;
  }

  method ReceiveAll(parser: Parser, socket: Socket, length: nat, ghost index: nat, ghost data: seq<Byte>,
                    ghost stream: Stream)
    returns (received: seq<Byte>)
    requires parser.Ready() && socket.reliable && index <= INT_MAX && length == |data|
    requires Carries(stream, index, data) && parser.Unparsed() + socket.incoming == stream(0)
    modifies parser, parser.buffer, parser.elementv, socket`incoming, socket`up
    ensures received == data
  {
    received := [];
    while |received| < length
      invariant |received| <= |data| && received == data[..|received|]
      invariant parser.Ready() && parser.Unparsed() + socket.incoming == stream(|received|)
      decreases length - |received|
    {
      received := ReceiveNext(parser, socket, received, index, data, stream);
    }
  }

  /** A line without failures carries all blobs. */
  lemma CleanLineCarries(index: nat, data: seq<Byte>, script: seq<Outcome>)
    requires Clean(script)
    ensures BlobsSent(Line([], script), index, data).line.written == StreamOf(index, data)(0)
  {
    var line := Line([], script);
    var s := BlobsSent(line, index, data);
    BlobsDeliver(line, index, data);
    assert Clean(Used(line, s.line));
    assert [] + PrintAll(BlobList(index, data)) == PrintAll(BlobList(index, data));
    assert data[0..] == data;
  }

  /** Whatever the data, and however the sockets split the stream on its way out and on
      its way in, what is received is what was sent. */
  method Transport(index: nat, data: seq<Byte>, script: seq<Outcome>) returns (received: seq<Byte>)
    requires index <= INT_MAX && Clean(script)
    ensures received == data
  {
    var output := new Output(script);
    var retval := output.SendBlobs(index, data);
    CleanLineCarries(index, data, script);
    StreamCarries(index, data);
    var socket := new Socket(output.written, true);
    var parser := new Parser();
    received := ReceiveAll(parser, socket, |data|, index, data, StreamOf(index, data));
  }
}
