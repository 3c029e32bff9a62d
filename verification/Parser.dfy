/** The incremental instruction parser and its sliding buffer (src/libguac/parser.c).

    Pointers into the instruction buffer are indices. `Parser.Read` returns what
    `Machines.RunAll` says of the whole stream, which is what the stream means
    (`Wire.Decode`) unless a length wraps around.
  */
module Parsers {
  import opened Unicode
  import opened Wire
  import opened CInt
  import opened Machines

  const BUFFER_SIZE := 32768

  /** The receiving side of a guac_socket. It hands over any non-empty part of what is
      still to come and, unless it is reliable, may time out or fail at any time. */
  class Socket {
    var incoming: seq<Byte>
    const reliable: bool

    /** Whether the last select has found something to read. */
    var up: bool

    constructor (incoming: seq<Byte>, reliable: bool)
      ensures this.incoming == incoming && this.reliable == reliable
    {
      this.incoming := incoming;
      this.reliable := reliable;
      this.up := false;
    }

    /** guac_socket_select: positive when there is something to read. */
    method Select() returns (retval: int)
      modifies this`up
      ensures (up <==> retval > 0) && (reliable ==> up)
    {
      up := *;
      if reliable {
        up := true;
      }
      retval := if up then 1 else 0;
    }

    /** guac_socket_read: some bytes, 0 at the end of the stream, negative on error. It is
        called only after select has found something, so that it need not wait. */
    method Receive(buffer: array<Byte>, at: nat, capacity: nat) returns (count: int)
      requires at + capacity <= buffer.Length && capacity > 0 && up
      modifies this`incoming, buffer
      ensures count <= capacity && count <= |old(incoming)|
      ensures reliable ==> count >= 0
      ensures count == 0 ==> old(incoming) == []
      ensures count < 0 ==> incoming == old(incoming)
      ensures count >= 0 ==> incoming == old(incoming)[count..]
      ensures forall i :: 0 <= i < buffer.Length ==>
        buffer[i] == if at <= i < at + count then old(incoming)[i - at] else old(buffer[i])
    {
      var works: bool := *;
      if !reliable && !works {
        return -1;
      }
      var arrived: nat := *;
      count := if 0 < arrived < capacity then arrived else capacity;
      if count > |incoming| {
        count := |incoming|;
      }
      forall i | 0 <= i < count {
        buffer[at + i] := incoming[i];
      }
      incoming := incoming[count..];
    }
  }

  lemma SliceJoins(s: seq<Byte>, i: nat, j: nat, piece: seq<Byte>)
    requires i <= j <= |s| && |piece| == j - i && forall k :: 0 <= k < |piece| ==> piece[k] == s[i + k]
    ensures piece + s[j..] == s[i..]
  {
  }

  /** The machine finds no instruction: what it reads is wrong or refused. */
  predicate Fails(s: seq<Byte>, p: Progress)
    requires Fits(s, p)
  {
    RunFrom(s, p).Wrong? || Refused(RunFrom(s, p))
  }

  datatype ParseState = ParsingLength | ParsingContent | Complete | Failed

  class Parser {
    const buffer: array<Byte>
    const elementv: array<nat>
    var state: ParseState
    var elementLength: int
    var elementc: nat
    var unparsedStart: nat
    var unparsedEnd: nat

    ghost predicate Shape()
      reads this
    {
      buffer.Length == BUFFER_SIZE && elementv.Length == MAX_ELEMENTS && elementc <= MAX_ELEMENTS
    }

    /** Element `k` points at the bytes of `e` followed by a null terminator, below `limit`. */
    ghost predicate Stored(k: nat, e: seq<Byte>, limit: int)
      reads this, buffer, elementv
      requires Shape()
    {
      && k < elementc
      && elementv[k] + |e| < limit <= buffer.Length
      && (forall j :: 0 <= j < |e| ==> buffer[elementv[k] + j] == e[j])
      && buffer[elementv[k] + |e|] == 0
    }

    ghost predicate AllStored(elements: seq<seq<Byte>>, limit: int)
      reads this, buffer, elementv
      requires Shape()
    {
      forall k :: 0 <= k < |elements| ==> Stored(k, elements[k], limit)
    }

    /** The parser stands at progress `p` of the stream `s`, whose first byte belongs at
        `base`; the bytes of the stream in [start, end) are in the buffer. */
    ghost predicate Tracks(s: seq<Byte>, base: nat, p: Progress, start: nat, end: nat)
      reads this, buffer, elementv
      requires Shape()
    {
      && Fits(s, p)
      && base + p.pos == start <= end <= buffer.Length && end - base <= |s|
      && (forall i :: start <= i < end ==> buffer[i] == s[i - base])
      && (forall k :: 0 <= k < elementc ==> base <= elementv[k])
      && match p.place
         case InLength(digits) =>
           && state == ParsingLength && elementLength == digits && elementc == |p.elements|
           && AllStored(p.elements, start)
         case InContent(due, begin) =>
           && state == ParsingContent && elementLength == due && elementc == |p.elements| + 1
           && elementv[|p.elements|] == base + begin
           && (forall i :: base + begin <= i < start ==> buffer[i] == s[i - base])
           && AllStored(p.elements, base + begin)
    }

    /** The instruction `d` ends right before `next`; the bytes behind it are untouched. */
    ghost predicate Finishes(s: seq<Byte>, base: nat, d: Outcome, next: nat, end: nat)
      reads this, buffer, elementv
      requires Shape()
    {
      && d.Whole? && base + d.length == next <= end <= buffer.Length && end - base <= |s|
      && elementc == |d.elements| && AllStored(d.elements, next)
      && (forall i :: next <= i < end ==> buffer[i] == s[i - base])
    }

    /** An instruction has been read and `Read` may be called again. */
    ghost predicate Ready()
      reads this
    {
      && Shape() && unparsedStart <= unparsedEnd <= buffer.Length
      && (state == Complete || (state == ParsingLength && elementc == 0 && elementLength == 0))
    }

    /** Bytes received but not yet part of a returned instruction. */
    ghost function Unparsed(): seq<Byte>
      reads this, buffer
      requires Ready()
    {
      buffer[unparsedStart..unparsedEnd]
    }

    /** The returned elements: the opcode and its arguments, as null-terminated strings. */
    ghost predicate Returns(elements: seq<seq<Byte>>)
      reads this, buffer, elementv
      requires Shape()
    {
      elementc == |elements| && AllStored(elements, buffer.Length)
    }

    constructor ()
      ensures Ready() && Unparsed() == [] && unparsedStart == 0 && fresh(buffer) && fresh(elementv)
    {
      buffer := new Byte[BUFFER_SIZE](_ => 0);
      elementv := new nat[MAX_ELEMENTS](_ => 0);
      state := ParsingLength;
      elementLength := 0;
      elementc := 0;
      unparsedStart := 0;
      unparsedEnd := 0;
    }

    method Reset()
      requires Shape()
      modifies this`state, this`elementc, this`elementLength
      ensures Shape() && state == ParsingLength && elementc == 0 && elementLength == 0
    {
      state := ParsingLength;
      elementc := 0;
      elementLength := 0;
    }

    /** The digits of a length, as many as have arrived. From the first on they come to the
        number that the machine makes of them. */
    method ReadDigits(start: nat, length: nat, ghost s: seq<Byte>, ghost base: nat, ghost p: Progress)
      returns (parsed: nat, parsedLength: int, ghost q: Progress)
      requires Shape() && Tracks(s, base, p, start, start + length) && p.place.InLength?
      ensures parsed <= length && (parsed < length ==> !IsDigit(buffer[start + parsed]))
      ensures q == Progress(p.pos + parsed, InLength(parsedLength), p.elements) && Fits(s, q)
      ensures RunFrom(s, q) == RunFrom(s, p)
      ensures elementLength == 0 ==> parsedLength == MachineNumber(buffer[start..start + parsed])
    {
      parsed, parsedLength, q := 0, elementLength, p;
      while parsed < length && IsDigit(buffer[start + parsed])
        invariant parsed <= length && q == Progress(p.pos + parsed, InLength(parsedLength), p.elements)
        invariant Fits(s, q) && RunFrom(s, q) == RunFrom(s, p)
        invariant elementLength == 0 ==> parsedLength == MachineNumber(buffer[start..start + parsed])
      {
        assert buffer[start + parsed] == s[q.pos];
        assert buffer[start..start + parsed + 1][..parsed] == buffer[start..start + parsed];
        q := AfterDigit(q, s[q.pos]);
        parsedLength := ToInt(parsedLength * 10 + buffer[start + parsed] - 48);
        parsed := parsed + 1;
      }
    }

    /** The digits of a length and its period, and whether they are refused. */
    method ReadLength(start: nat, length: nat, ghost s: seq<Byte>, ghost base: nat, ghost p: Progress)
      returns (parsed: nat, parsedLength: int, dotted: bool, failed: bool, ghost q: Progress)
      requires Shape() && Tracks(s, base, p, start, start + length) && p.place.InLength?
      requires start + length - base == |s|
      ensures parsed <= length && (dotted ==> parsed > 0) && (parsed == 0 && !failed ==> length == 0)
      ensures failed ==> Fails(s, p)
      ensures !failed ==> Fits(s, q) && RunFrom(s, q) == RunFrom(s, p) && parsedLength <= MAX_LENGTH
      ensures !failed ==> q.pos == p.pos + parsed && q.elements == p.elements
      ensures !failed ==> q.place == if dotted then InContent(parsedLength, q.pos) else InLength(parsedLength)
      ensures !failed && !dotted ==> parsed == length
    {
      parsed, parsedLength, q := ReadDigits(start, length, s, base, p);
      dotted, failed := false, false;
      if parsed < length {
        assert buffer[start + parsed] == s[q.pos];
        dotted := buffer[start + parsed] == DOT;
        failed := !dotted;
      }
      if parsedLength > MAX_LENGTH {
        failed := true;
      }
      if dotted {
        parsed := parsed + 1;
        if !failed {
          q := AfterPeriod(q);
        }
      }
    }

    /** The period after a length: an element begins at `at`. */
    method OpenElement(at: nat, ghost s: seq<Byte>, ghost base: nat, ghost p: Progress, ghost start: nat,
                       ghost end: nat)
      requires Shape() && Tracks(s, base, p, start, end) && p.place.InLength? && elementc < MAX_ELEMENTS
      requires start < at <= end
      modifies this`state, this`elementc, elementv
      ensures Shape() && state == ParsingContent && elementc == |p.elements| + 1
      ensures elementv[|p.elements|] == at && (forall k :: 0 <= k < elementc ==> base <= elementv[k])
      ensures AllStored(p.elements, at)
    {
      elementv[elementc] := at;
      elementc := elementc + 1;
      state := ParsingContent;
      forall k | 0 <= k < |p.elements|
        ensures Stored(k, p.elements[k], at)
      {
        assert old(Stored(k, p.elements[k], start));
      }
    }

    /** First half of guac_parser_append: the digits of a length and its period. */
    method AppendLength(start: nat, length: nat, ghost s: seq<Byte>, ghost base: nat, ghost p: Progress)
      returns (parsed: nat, ghost q: Progress)
      requires Shape() && Tracks(s, base, p, start, start + length) && p.place.InLength? && elementc < MAX_ELEMENTS
      requires start + length - base == |s|
      modifies this`state, this`elementLength, this`elementc, elementv
      ensures Shape() && (state == Failed || state == ParsingLength || state == ParsingContent)
      ensures state == Failed ==> parsed == 0 && Fails(s, p)
      ensures state != Failed ==> parsed <= length
      ensures state != Failed ==> Tracks(s, base, q, start + parsed, start + length) && RunFrom(s, q) == RunFrom(s, p)
      ensures state == ParsingLength ==> parsed == length && elementLength <= MAX_LENGTH
    {
      var parsedLength, dotted, failed;
      parsed, parsedLength, dotted, failed, q := ReadLength(start, length, s, base, p);
      if dotted {
        OpenElement(start + parsed, s, base, p, start, start + length);
      }
      if failed {
        state := Failed;
        return 0, q;
      }
      elementLength := parsedLength;
    }

    /** Overwrites the terminator of the current element by a null byte. */
    method CloseElement(at: nat, end: nat, ghost s: seq<Byte>, ghost base: nat, ghost p: Progress)
      requires Shape() && Tracks(s, base, p, at, end) && p.place.InContent? && at < end
      modifies buffer
      ensures AllStored(p.elements + [s[p.place.begin..p.pos]], at + 1)
      ensures forall i :: at < i < end ==> buffer[i] == s[i - base]
    {
      ghost var e := s[p.place.begin..p.pos];
      buffer[at] := 0;
      forall k | 0 <= k <= |p.elements|
        ensures Stored(k, (p.elements + [e])[k], at + 1)
      {
        if k < |p.elements| {
          assert old(Stored(k, p.elements[k], base + p.place.begin));
        }
      }
    }

    /** The terminator of an element. */
    method Terminate(at: nat, end: nat, ghost s: seq<Byte>, ghost base: nat, ghost p: Progress)
      returns (next: nat, ghost q: Progress)
      requires Shape() && Tracks(s, base, p, at, end) && p.place.InContent? && p.place.due == 0
      requires at < end && at + CharSize(buffer[at]) <= end
      modifies this`state, buffer
      ensures Shape() && state != ParsingContent
      ensures state == Failed ==> RunFrom(s, p) == Wrong
      ensures state != Failed ==> next == at + 1
      ensures state == Complete ==> Finishes(s, base, RunFrom(s, p), next, end)
      ensures state == ParsingLength ==> Tracks(s, base, q, next, end) && RunFrom(s, q) == RunFrom(s, p)
    {
      var c := buffer[at];
      assert c == s[p.pos];
      CloseElement(at, end, s, base, p);
      next := at + CharSize(c);
      q := AfterElement(s, p);
      if c == SEMICOLON {
        state := Complete;
      } else if c == COMMA {
        state := ParsingLength;
      } else {
        state := Failed;
      }
    }

    predicate Parsing()
      reads this
    {
      state == ParsingLength || state == ParsingContent
    }

    /** Whether a whole character is in the buffer at `at`. */
    predicate HasCharacter(at: nat, end: nat)
      reads this, buffer
      requires end <= buffer.Length
    {
      at < end && at + CharSize(buffer[at]) <= end
    }

    /** Counts characters of an element while they are due and present. */
    method SkipCharacters(from: nat, end: nat, ghost s: seq<Byte>, ghost base: nat, ghost p: Progress)
      returns (next: nat, ghost q: Progress)
      requires Shape() && Tracks(s, base, p, from, end) && p.place.InContent?
      modifies this`elementLength
      ensures Shape() && from <= next <= end
      ensures Tracks(s, base, q, next, end) && q.place.InContent? && RunFrom(s, q) == RunFrom(s, p)
      ensures elementLength <= 0 || !HasCharacter(next, end)
      ensures elementLength < 0 ==> elementLength == old(elementLength) && next == from
    {
      next := from;
      q := p;
      while elementLength > 0 && HasCharacter(next, end)
        invariant from <= next <= end && Shape()
        invariant Tracks(s, base, q, next, end) && q.place.InContent? && RunFrom(s, q) == RunFrom(s, p)
        invariant elementLength < 0 ==> elementLength == old(elementLength) && next == from
      {
        next, q := PassCharacter(next, end, s, base, q);
      }
    }

    /** Counts one character. */
    method PassCharacter(at: nat, end: nat, ghost s: seq<Byte>, ghost base: nat, ghost p: Progress)
      returns (next: nat, ghost q: Progress)
      requires Shape() && Tracks(s, base, p, at, end) && p.place.InContent?
      requires elementLength > 0 && HasCharacter(at, end)
      modifies this`elementLength
      ensures Shape() && at < next <= end && elementLength == old(elementLength) - 1
      ensures Tracks(s, base, q, next, end) && q.place.InContent? && RunFrom(s, q) == RunFrom(s, p)
    {
      assert buffer[at] == s[p.pos];
      q := AfterCharacter(p, s[p.pos]);
      next := at + CharSize(buffer[at]);
      elementLength := elementLength - 1;
    }

    /** Second half: the characters of an element, then its terminator. */
    method AppendContent(from: nat, end: nat, ghost s: seq<Byte>, ghost base: nat, ghost p: Progress)
      returns (next: nat, ghost q: Progress)
      requires Shape() && Tracks(s, base, p, from, end) && p.place.InContent? && end - base == |s|
      modifies this`state, this`elementLength, buffer
      ensures Shape() && elementc == old(elementc)
      ensures state == Failed ==> RunFrom(s, p) == Wrong
      ensures state != Failed ==> from <= next <= end
      ensures state == Complete ==> next > from && Finishes(s, base, RunFrom(s, p), next, end)
      ensures Parsing() ==> Tracks(s, base, q, next, end) && RunFrom(s, q) == RunFrom(s, p)
      ensures Parsing() && next == from ==> RunFrom(s, q) == Stuck(q) && q.place.InContent?
    {
      next, q := SkipCharacters(from, end, s, base, p);
      if elementLength >= 0 && HasCharacter(next, end) {
        next, q := Terminate(next, end, s, base, q);
      } else if next < end {
        assert s[q.pos] == buffer[next];
      }
    }

    /** guac_parser_append on the bytes [start, end) of the buffer, which are the end of
        what has arrived. It goes the way of the machine; no progress without failure
        means that the machine is stuck there. */
    method Append(start: nat, end: nat, ghost s: seq<Byte>, ghost base: nat, ghost p: Progress)
      returns (parsed: nat, ghost q: Progress)
      requires Shape() && Tracks(s, base, p, start, end) && end - base == |s|
      modifies this`state, this`elementLength, this`elementc, buffer, elementv
      ensures Shape()
      ensures state == Failed ==> parsed == 0 && (Fails(s, p) || |p.elements| >= MAX_ELEMENTS - 1)
      ensures state == Complete ==> parsed > 0 && Finishes(s, base, RunFrom(s, p), start + parsed, end)
      ensures Parsing() ==> start + parsed <= end
      ensures Parsing() ==> Tracks(s, base, q, start + parsed, end) && RunFrom(s, q) == RunFrom(s, p)
      ensures Parsing() && parsed == 0 ==> RunFrom(s, q) == Stuck(q) && Hungry(Stuck(q))
    {
      q := p;
      parsed := 0;
      if elementc == MAX_ELEMENTS {
        state := Failed;
        return;
      }
      parsed, q := AppendParts(start, end, s, base, p);
    }

    /** The length, then the content. */
    method AppendParts(start: nat, end: nat, ghost s: seq<Byte>, ghost base: nat, ghost p: Progress)
      returns (parsed: nat, ghost q: Progress)
      requires Shape() && Tracks(s, base, p, start, end) && end - base == |s| && elementc < MAX_ELEMENTS
      modifies this`state, this`elementLength, this`elementc, buffer, elementv
      ensures Shape()
      ensures state == Failed ==> parsed == 0 && Fails(s, p)
      ensures state == Complete ==> parsed > 0 && Finishes(s, base, RunFrom(s, p), start + parsed, end)
      ensures Parsing() ==> start + parsed <= end
      ensures Parsing() ==> Tracks(s, base, q, start + parsed, end) && RunFrom(s, q) == RunFrom(s, p)
      ensures Parsing() && parsed == 0 ==> RunFrom(s, q) == Stuck(q) && Hungry(Stuck(q))
    {
      q := p;
      parsed := 0;
      if state == ParsingLength {
        parsed, q := AppendLength(start, end - start, s, base, p);
        if state == Failed {
          return 0, q;
        }
      }
      if state == ParsingContent {
        var next;
        next, q := AppendContent(start + parsed, end, s, base, q);
        if state == Failed {
          return 0, q;
        }
        parsed := next - start;
      }
    }

    /** memmove of [offset, end) to the front of the buffer. */
    method MoveToFront(offset: nat, end: nat)
      requires Shape() && offset <= end <= buffer.Length
      modifies buffer
      ensures forall i :: 0 <= i < end - offset ==> buffer[i] == old(buffer[i + offset])
    {
      forall i | 0 <= i < end - offset {
        buffer[i] := buffer[i + offset];
      }
    }

    method MovePointers(offset: nat)
      requires Shape() && forall k :: 0 <= k < elementc ==> offset <= elementv[k]
      modifies elementv
      ensures forall k :: 0 <= k < elementc ==> elementv[k] == old(elementv[k]) - offset
    {
      for i := 0 to elementc
        invariant forall k :: 0 <= k < elementc ==>
          elementv[k] == if k < i then old(elementv[k]) - offset else old(elementv[k])
      {
        elementv[i] := elementv[i] - offset;
      }
    }

    /** The shift of guac_parser_read: the bytes of the instruction move to the front
        of the buffer and the element pointers move along. */
    method ShiftBack(offset: nat, start: nat, end: nat, ghost s: seq<Byte>, ghost p: Progress)
      requires Shape() && Tracks(s, offset, p, start, end)
      modifies buffer, elementv
      ensures Shape() && Tracks(s, 0, p, start - offset, end - offset)
    {
      MoveToFront(offset, end);
      MovePointers(offset);
      ghost var limit := if p.place.InContent? then offset + p.place.begin else start;
      forall k | 0 <= k < |p.elements|
        ensures Stored(k, p.elements[k], limit - offset)
      {
        assert old(Stored(k, p.elements[k], limit));
      }
    }

    /** The stream `s` as the parser and the socket share it: what has arrived is in the
        buffer, the rest is still to come. */
    ghost predicate Between(socket: Socket, s: seq<Byte>, base: nat, p: Progress, start: nat, end: nat)
      reads this, buffer, elementv, socket
      requires Shape()
    {
      Tracks(s, base, p, start, end) && socket.incoming == s[end - base..]
    }

    /** Reads into the free end of the buffer; nothing already there changes. */
    method Fill(socket: Socket, base: nat, start: nat, end: nat,
                ghost s: seq<Byte>, ghost p: Progress)
      returns (count: int)
      requires Shape() && Between(socket, s, base, p, start, end) && end < buffer.Length && socket.up
      modifies socket`incoming, socket`up, buffer
      ensures Shape()
      ensures count > 0 ==> Between(socket, s, base, p, start, end + count)
      ensures count > 0 ==> |socket.incoming| == |old(socket.incoming)| - count
      ensures count <= 0 && socket.reliable ==> end - base == |s|
    {
      count := socket.Receive(buffer, end, buffer.Length - end);
      if count > 0 {
        ghost var limit := if p.place.InContent? then base + p.place.begin else start;
        forall k | 0 <= k < |p.elements|
          ensures Stored(k, p.elements[k], limit)
        {
          assert old(Stored(k, p.elements[k], limit));
        }
        assert socket.incoming == s[end + count - base..];
      }
    }

    /** The part of guac_parser_read that makes room and fetches more bytes. A reliable
        socket fails it only at the end of the stream or when a whole buffer of the
        current instruction has arrived. */
    method Fetch(socket: Socket, base: nat, start: nat, end: nat,
                 ghost s: seq<Byte>, ghost p: Progress)
      returns (ok: bool, base': nat, start': nat, end': nat)
      requires Shape() && Between(socket, s, base, p, start, end)
      modifies socket`incoming, socket`up, buffer, elementv
      ensures Shape()
      ensures ok ==> Between(socket, s, base', p, start', end') && |socket.incoming| < |old(socket.incoming)|
      ensures ok ==> end' - start' == end - start + |old(socket.incoming)| - |socket.incoming|
      ensures !ok && socket.reliable ==> end - base == |s| || end - base == BUFFER_SIZE
    {
      ok, base', start', end' := MakeRoom(socket, base, start, end, s, p);
      if !ok {
        return;
      }
      var ready := socket.Select();
      if ready <= 0 {
        return false, base', start', end';
      }
      var count := Fill(socket, base', start', end', s, p);
      if count <= 0 {
        return false, base', start', end';
      }
      end' := end' + count;
    }

    /** Shifts the buffer if it is full; this fails if the instruction fills all of it. */
    method MakeRoom(socket: Socket, base: nat, start: nat, end: nat, ghost s: seq<Byte>, ghost p: Progress)
      returns (ok: bool, base': nat, start': nat, end': nat)
      requires Shape() && Between(socket, s, base, p, start, end)
      modifies buffer, elementv
      ensures Shape() && (ok <==> end - base < BUFFER_SIZE)
      ensures ok ==> Between(socket, s, base', p, start', end') && end' < buffer.Length
      ensures ok ==> end' - start' == end - start && end' - base' == end - base
    {
      ok, base', start', end' := true, base, start, end;
      if end == buffer.Length {
        if base == 0 {
          return false, base, start, end;
        }
        ShiftBack(base, start, end, s, p);
        base', start', end' := 0, start - base, end - base;
      }
    }

    /** The loop invariant of guac_parser_read for the stream `s`, of which the first
        `end - base` bytes have arrived: the parser has gone the way of the machine on
        these. */
    ghost predicate Standing(socket: Socket, s: seq<Byte>, base: nat, p: Progress, start: nat, end: nat)
      reads this, buffer, elementv, socket
      requires Shape()
    {
      && base <= end && end - base <= |s|
      && var t := s[..end - base];
         match state
         case Failed =>
           Fails(t, START) || (Fits(t, p) && RunFrom(t, p) == RunAll(t) && |p.elements| >= MAX_ELEMENTS - 1)
         case Complete => Finishes(s, base, RunAll(t), start, end) && socket.incoming == s[end - base..]
         case _ => Between(socket, s, base, p, start, end) && RunFrom(t, p) == RunAll(t)
    }

    /** What holds of a stream holds of the part that has arrived, and back. */
    lemma PartTracks(s: seq<Byte>, base: nat, p: Progress, start: nat, end: nat)
      requires Shape() && base <= end && end - base <= |s|
      ensures Tracks(s, base, p, start, end) <==> Tracks(s[..end - base], base, p, start, end)
    {
      var t := s[..end - base];
      assert forall i :: 0 <= i < |t| ==> t[i] == s[i];
    }

    lemma PartFinishes(s: seq<Byte>, base: nat, d: Outcome, next: nat, end: nat)
      requires Shape() && base <= end && end - base <= |s| && Finishes(s[..end - base], base, d, next, end)
      ensures Finishes(s, base, d, next, end)
    {
      var t := s[..end - base];
      assert forall i :: 0 <= i < |t| ==> t[i] == s[i];
    }

    /** One turn of the loop of guac_parser_read. It asks for more bytes only where the
        machine is stuck, and not where it is refused. */
    method Turn(socket: Socket, base: nat, start: nat, end: nat, ghost s: seq<Byte>, ghost p: Progress)
      returns (ok: bool, base': nat, start': nat, end': nat, ghost q: Progress)
      requires Shape() && Parsing() && Standing(socket, s, base, p, start, end)
      modifies this`state, this`elementLength, this`elementc, buffer, elementv, socket`incoming, socket`up
      ensures Shape() && base' <= end' && end' - base' >= end - base
      ensures ok ==> Standing(socket, s, base', q, start', end')
      ensures ok && Parsing() ==> 2 * |socket.incoming| + end' - start' < 2 * |old(socket.incoming)| + end - start
      ensures (ok && end' - base' == end - base) || Hungry(RunAll(s[..end - base]))
      ensures !ok && socket.reliable && RunAll(s).Whole? ==> RunAll(s).length > BUFFER_SIZE
    {
      ghost var t := s[..end - base];
      PartTracks(s, base, p, start, end);
      var parsed;
      parsed, q := Append(start, end, t, base, p);
      if parsed == 0 && state != Failed {
        PartTracks(s, base, q, start, end);
        ok, base', start', end' := FetchMore(socket, base, start, end, s, q);
      } else {
        ok, base', start', end' := true, base, start + parsed, end;
        if state == Complete {
          PartFinishes(s, base, RunAll(t), start', end);
        } else if state == Failed {
          q := p;
        } else {
          PartTracks(s, base, q, start', end);
        }
      }
    }

    /** Fetches more bytes where the machine is stuck. */
    method FetchMore(socket: Socket, base: nat, start: nat, end: nat, ghost s: seq<Byte>, ghost p: Progress)
      returns (ok: bool, base': nat, start': nat, end': nat)
      requires Shape() && Parsing() && Between(socket, s, base, p, start, end)
      requires Fits(s[..end - base], p)
      requires RunFrom(s[..end - base], p) == Stuck(p) == RunAll(s[..end - base])
      modifies socket`incoming, socket`up, buffer, elementv
      ensures Shape() && base' <= end' && end' - base' >= end - base
      ensures ok ==> Standing(socket, s, base', p, start', end')
      ensures ok ==> 2 * |socket.incoming| + end' - start' < 2 * |old(socket.incoming)| + end - start
      ensures !ok && socket.reliable && RunAll(s).Whole? ==> RunAll(s).length > BUFFER_SIZE
    {
      ghost var m := end - base;
      if RunAll(s).Whole? {
        StuckIsShort(s, m);
      }
      ok, base', start', end' := Fetch(socket, base, start, end, s, p);
      if ok {
        ghost var t := s[..end' - base'];
        assert t[..m] == s[..m];
        SameInStream(t, m, p, START);
      } else {
        assert m == |s| ==> s[..m] == s;
        base', start', end' := base, start, end;
      }
    }

    /** "Begin next instruction if previous was ended". */
    method Begin(socket: Socket, ghost s: seq<Byte>)
      requires Ready() && s == Unparsed() + socket.incoming
      modifies this`state, this`elementc, this`elementLength
      ensures Shape() && Parsing() && unparsedStart <= unparsedEnd <= buffer.Length
      ensures Standing(socket, s, unparsedStart, START, unparsedStart, unparsedEnd)
    {
      if state == Complete {
        Reset();
      }
    }

    /** The loop ends where the machine does on what has arrived, the first `m` bytes. */
    method ReadLoop(socket: Socket, ghost s: seq<Byte>)
      returns (ok: bool, base: nat, start: nat, end: nat, ghost p: Progress)
      requires Shape() && Parsing() && unparsedStart <= unparsedEnd <= buffer.Length
      requires Standing(socket, s, unparsedStart, START, unparsedStart, unparsedEnd)
      modifies this`state, this`elementLength, this`elementc, buffer, elementv, socket`incoming, socket`up
      ensures Shape() && (ok ==> state == Complete || state == Failed)
      ensures ok ==> Standing(socket, s, base, p, start, end)
      ensures var m := unparsedEnd - unparsedStart;
        && base <= end && m <= end - base
        && ((ok && end - base == m) || Hungry(RunAll(s[..m])))
      ensures !ok && socket.reliable && RunAll(s).Whole? ==> RunAll(s).length > BUFFER_SIZE
    {
      ok, base, start, end := true, unparsedStart, unparsedStart, unparsedEnd;
      ghost var m := unparsedEnd - unparsedStart;
      p := START;
      while ok && state != Complete && state != Failed
        invariant Shape() && base <= end && m <= end - base
        invariant ok ==> Standing(socket, s, base, p, start, end)
        invariant (ok && end - base == m) || Hungry(RunAll(s[..m]))
        invariant !ok && socket.reliable && RunAll(s).Whole? ==> RunAll(s).length > BUFFER_SIZE
        decreases ok && Parsing(), 2 * |socket.incoming| + end - start
      {
        ok, base, start, end, p := Turn(socket, base, start, end, s, p);
      }
    }

    /** Saves where the next instruction begins. */
    method Finish(socket: Socket, base: nat, start: nat, end: nat, ghost s: seq<Byte>, ghost d: Outcome)
      requires Shape() && state == Complete && Finishes(s, base, d, start, end) && socket.incoming == s[end - base..]
      modifies this`unparsedStart, this`unparsedEnd
      ensures Ready() && Returns(d.elements)
      ensures d.length <= |s| && Unparsed() + socket.incoming == s[d.length..]
    {
      unparsedStart, unparsedEnd := start, end;
      SliceJoins(s, d.length, end - base, Unparsed());
      forall k | 0 <= k < |d.elements|
        ensures Stored(k, d.elements[k], buffer.Length)
      {
        assert Stored(k, d.elements[k], start);
      }
    }

    /** What a failure of the loop says of the stream: it is wrong, part of it is refused,
        or it has too many elements. */
    lemma FailureMeans(socket: Socket, s: seq<Byte>, base: nat, p: Progress, start: nat, end: nat)
      requires Shape() && state == Failed && Standing(socket, s, base, p, start, end)
      requires RunAll(s).Whole? && |RunAll(s).elements| < MAX_ELEMENTS
      ensures Refused(RunAll(s[..end - base]))
    {
      var m := end - base;
      PrefixGoesOn(s, m, START);
      if !Fails(s[..m], START) {
        PrefixGoesOn(s, m, p);
        SameInStream(s, m, p, START);
        OutcomeBounds(s, p);
      }
    }

    /** guac_parser_read. On success the elements are those that the machine finds in the
        whole stream, received or not, and exactly its bytes are consumed. A reliable
        socket delivers every such instruction that fits the buffer and has fewer than
        the maximum number of elements, however the bytes arrive, unless some part of the
        stream is refused. Such a stream is delivered if all of it has arrived, and
        not if exactly the part has. */
    method Read(socket: Socket) returns (retval: int)
      requires Ready()
      modifies this, buffer, elementv, socket`incoming, socket`up
      ensures Shape()
      ensures
        var s := old(Unparsed() + socket.incoming);
        retval == 0 ==>
          && Ready() && RunAll(s).Whole? && Returns(RunAll(s).elements)
          && RunAll(s).length <= |s| && Unparsed() + socket.incoming == s[RunAll(s).length..]
      ensures
        var s := old(Unparsed() + socket.incoming);
        var d := RunAll(s);
        socket.reliable && Splittable(s) && d.Whole? && |d.elements| < 128 && d.length <= 32768 ==>
          retval == 0
      ensures
        var d := RunAll(old(Unparsed()));
        d.Whole? && |d.elements| < 128 ==> retval == 0
      ensures retval != 0 ==>
        retval == -1 && unparsedStart == old(unparsedStart) && unparsedEnd == old(unparsedEnd)
      ensures Refused(RunAll(old(Unparsed()))) ==> retval != 0
    {
      ghost var t, s := Unparsed(), Unparsed() + socket.incoming;
      assert s[..|t|] == t;
      retval := ReadStream(socket, s, |t|);
    }

    /** The same for a stream of which the first `m` bytes have arrived. */
    method ReadStream(socket: Socket, ghost s: seq<Byte>, ghost m: nat) returns (retval: int)
      requires Ready() && s == Unparsed() + socket.incoming && m == |Unparsed()|
      modifies this, buffer, elementv, socket`incoming, socket`up
      ensures Shape()
      ensures retval == 0 ==>
        && Ready() && RunAll(s).Whole? && Returns(RunAll(s).elements)
        && RunAll(s).length <= |s| && Unparsed() + socket.incoming == s[RunAll(s).length..]
      ensures retval != 0 ==>
        retval == -1 && unparsedStart == old(unparsedStart) && unparsedEnd == old(unparsedEnd)
      ensures retval != 0 && RunAll(s).Whole? && |RunAll(s).elements| < MAX_ELEMENTS ==>
        !RunAll(s[..m]).Whole? &&
        (socket.reliable && Splittable(s) ==> RunAll(s).length > BUFFER_SIZE)
      ensures retval != 0 && RunAll(s[..m]).Whole? ==> RunAll(s) == RunAll(s[..m])
      ensures Refused(RunAll(s[..m])) ==> retval != 0
    {
      Begin(socket, s);
      ghost var p;
      var ok, base, start, end;
      ok, base, start, end, p := ReadLoop(socket, s);
      if RunAll(s[..m]).Whole? {
        PrefixGoesOn(s, m, START);
      }
      if !ok || state == Failed {
        if state == Failed && ok && RunAll(s).Whole? && |RunAll(s).elements| < MAX_ELEMENTS {
          FailureMeans(socket, s, base, p, start, end);
        }
        return -1;
      }
      PrefixGoesOn(s, end - base, START);
      Finish(socket, base, start, end, s, RunAll(s));
      retval := 0;
    }
  }
}
