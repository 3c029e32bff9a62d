/** What a socket makes of the bytes written to it (src/libguac/socket.c).

    The write handler is a script: one outcome for every call. So it can be said which
    call failed, and what was lost.
  */
module Lines {

  import opened Unicode

  /** What one call of the write handler returns: -1 for a failure, or how many bytes it
      took. */
  type Outcome = n: int | n >= -1

  /** The bytes written so far and the outcomes to come; when these are used up, every
      call takes all that it is given. */
  datatype Line = Line(written: seq<Byte>, script: seq<Outcome>)

  datatype Sending = Sending(line: Line, ok: bool)

  /** guac_socket_write, which calls the handler until all is taken or a call fails. */
  function Sent(line: Line, data: seq<Byte>): Sending
    decreases |line.script|
  {
    if data == [] then Sending(line, true)
    else if line.script == [] then Sending(Line(line.written + data, []), true)
    else
      var n, rest := line.script[0], line.script[1..];
      if n == -1 then Sending(Line(line.written, rest), false)
      else if n >= |data| then Sending(Line(line.written + data, rest), true)
      else Sent(Line(line.written + data[..n], rest), data[n..])
  }

  /** Pieces written one after the other, up to the first that fails. */
  function SentAll(line: Line, pieces: seq<seq<Byte>>): Sending
    decreases |pieces|
  {
    if pieces == [] then Sending(line, true)
    else
      var s := Sent(line, pieces[0]);
      if s.ok then SentAll(s.line, pieces[1..]) else s
  }

  function Flat(pieces: seq<seq<Byte>>): seq<Byte> {
    if pieces == [] then [] else pieces[0] + Flat(pieces[1..])
  }

  // ---------------------------------------------------------------------
  // What arrives
  // ---------------------------------------------------------------------

  predicate Clean(script: seq<Outcome>) {
    forall i :: 0 <= i < |script| ==> script[i] != -1
  }

  /** Whether `b` comes after `a` on the same line. */
  ghost predicate Follows(a: Line, b: Line) {
    && |b.script| <= |a.script| && b.script == a.script[|a.script| - |b.script|..]
    && a.written <= b.written
  }

  /** The outcomes used from `a` to `b`. */
  ghost function Used(a: Line, b: Line): seq<Outcome>
    requires Follows(a, b)
  {
    a.script[..|a.script| - |b.script|]
  }

  /** All of `text` is written from `a` to `b`, or some outcome on the way is a failure
      and something is missing. */
  ghost predicate Delivers(a: Line, b: Line, text: seq<Byte>) {
    && Follows(a, b)
    && (Clean(Used(a, b)) ==> b.written == a.written + text)
    && (!Clean(Used(a, b)) ==> |b.written| < |a.written| + |text|)
  }

  lemma FollowsBoth(a: Line, b: Line, c: Line)
    requires Follows(a, b) && Follows(b, c)
    ensures Follows(a, c) && Used(a, c) == Used(a, b) + Used(b, c)
    ensures Clean(Used(a, c)) <==> Clean(Used(a, b)) && Clean(Used(b, c))
  {
    var n, m := |Used(a, b)|, |Used(b, c)|;
    assert Used(a, c) == Used(a, b) + Used(b, c);
    assert forall i :: 0 <= i < n ==> Used(a, c)[i] == Used(a, b)[i];
    assert forall i :: 0 <= i < m ==> Used(a, c)[n + i] == Used(b, c)[i];
  }

  lemma DeliversBoth(a: Line, b: Line, c: Line, first: seq<Byte>, second: seq<Byte>)
    requires Delivers(a, b, first) && Delivers(b, c, second)
    ensures Delivers(a, c, first + second)
    ensures Clean(Used(a, c)) <==> Clean(Used(a, b)) && Clean(Used(b, c))
  {
    FollowsBoth(a, b, c);
    if Clean(Used(a, c)) {
      assert a.written + first + second == a.written + (first + second);
    }
  }

  /** What is never attempted after a failure is missing as well. */
  lemma DeliversLess(a: Line, b: Line, first: seq<Byte>, second: seq<Byte>)
    requires Delivers(a, b, first) && !Clean(Used(a, b))
    ensures Delivers(a, b, first + second)
  {
  }

  /** The whole text is written exactly if no outcome was a failure. */
  lemma DeliversExactlyWhen(a: Line, b: Line, text: seq<Byte>)
    requires Delivers(a, b, text)
    ensures b.written == a.written + text <==> Clean(Used(a, b))
  {
  }

  /** A write delivers its data exactly if no call of the handler failed, and says so. */
  lemma {:induction false} SentDelivers(line: Line, data: seq<Byte>)
    ensures var s := Sent(line, data);
      Delivers(line, s.line, data) && (s.ok <==> Clean(Used(line, s.line)))
    decreases |line.script|
  {
    var s := Sent(line, data);
    if data == [] || line.script == [] {
      assert Used(line, s.line) == [];
    } else {
      var n, rest := line.script[0], line.script[1..];
      if n == -1 || n >= |data| {
        assert Used(line, s.line) == [n];
      } else {
        var next := Line(line.written + data[..n], rest);
        SentDelivers(next, data[n..]);
        assert Used(line, next) == [n];
        assert Delivers(line, next, data[..n]);
        DeliversBoth(line, next, s.line, data[..n], data[n..]);
        assert data[..n] + data[n..] == data;
      }
    }
  }

  lemma {:induction false} SentAllDelivers(line: Line, pieces: seq<seq<Byte>>)
    ensures var s := SentAll(line, pieces);
      Delivers(line, s.line, Flat(pieces)) && (s.ok <==> Clean(Used(line, s.line)))
    decreases |pieces|
  {
    if pieces != [] {
      var s := Sent(line, pieces[0]);
      SentDelivers(line, pieces[0]);
      if s.ok {
        SentAllDelivers(s.line, pieces[1..]);
        DeliversBoth(line, s.line, SentAll(line, pieces).line, pieces[0], Flat(pieces[1..]));
      } else {
        DeliversLess(line, s.line, pieces[0], Flat(pieces[1..]));
      }
    }
  }

  lemma {:induction false} SentAllAppend(line: Line, a: seq<seq<Byte>>, b: seq<seq<Byte>>)
    ensures var s := SentAll(line, a);
      SentAll(line, a + b) == if s.ok then SentAll(s.line, b) else s
    decreases |a|
  {
    if a == [] {
      assert a + b == b;
    } else {
      assert (a + b)[1..] == a[1..] + b;
      SentAllAppend(Sent(line, a[0]).line, a[1..], b);
    }
  }

  lemma {:induction false} FlatAppend(a: seq<seq<Byte>>, b: seq<seq<Byte>>)
    ensures Flat(a + b) == Flat(a) + Flat(b)
  {
    if a == [] {
      assert a + b == b;
    } else {
      FlatAppend(a[1..], b);
      assert (a + b)[1..] == a[1..] + b;
      assert Flat(a + b) == a[0] + (Flat(a[1..]) + Flat(b));
    }
  }

  /** A piece that is taken by one call. */
  lemma SentAtOnce(line: Line, data: seq<Byte>)
    requires data != [] && line.script != [] && line.script[0] >= |data|
    ensures Sent(line, data) == Sending(Line(line.written + data, line.script[1..]), true)
  {
  }
}
