/** The parser as a machine (src/libguac/parser.c): what it makes of a stream when lengths
    are added up in a C int, and when it matters how the bytes arrive.

    A length is compared with its limit when its period is read and whenever no more
    bytes have arrived. So the digits of a length that is too large may be refused before
    they wrap around to a small one, or not, depending on where the arrivals end.
  */
module Machines {
  import opened Unicode
  import opened CInt
  import opened Wire

  datatype Outcome =
    | Stuck(at: Progress)                                 // more bytes are needed to go on
    | Wrong
    | Whole(elements: seq<seq<Byte>>, length: nat)        // an instruction

  /** What the machine makes of all bytes of `s` from a place on, if they arrive at once. */
  function RunFrom(s: seq<Byte>, p: Progress): Outcome
    requires Fits(s, p)
    decreases |s| - p.pos
  {
    if p.pos == |s| then Stuck(p)
    else
      var c := s[p.pos];
      match p.place
      case InLength(digits) =>
        if IsDigit(c) then RunFrom(s, AfterDigit(p, c))
        else if c == DOT && digits <= MAX_LENGTH then RunFrom(s, AfterPeriod(p))
        else Wrong
      case InContent(due, begin) =>
        if due < 0 || p.pos + CharSize(c) > |s| then Stuck(p)
        else if due > 0 then RunFrom(s, AfterCharacter(p, c))
        else if c == SEMICOLON then Whole(p.elements + [s[begin..p.pos]], p.pos + 1)
        else if c == COMMA then RunFrom(s, AfterElement(s, p))
        else Wrong
  }

  function AfterDigit(p: Progress, c: Byte): Progress
    requires p.place.InLength?
  {
    Progress(p.pos + 1, InLength(ToInt(p.place.digits * 10 + c - 48)), p.elements)
  }

  function AfterPeriod(p: Progress): Progress
    requires p.place.InLength?
  {
    Progress(p.pos + 1, InContent(p.place.digits, p.pos + 1), p.elements)
  }

  function AfterCharacter(p: Progress, c: Byte): Progress
    requires p.place.InContent?
  {
    Progress(p.pos + CharSize(c), InContent(p.place.due - 1, p.place.begin), p.elements)
  }

  function AfterElement(s: seq<Byte>, p: Progress): Progress
    requires p.place.InContent? && p.place.begin <= p.pos <= |s|
  {
    Progress(p.pos + 1, InLength(0), p.elements + [s[p.place.begin..p.pos]])
  }

  /** What the machine makes of a stream that arrives at once. */
  function RunAll(s: seq<Byte>): Outcome {
    RunFrom(s, START)
  }

  /** The bytes end inside a length that is beyond its limit. */
  predicate Refused(o: Outcome) {
    o.Stuck? && o.at.place.InLength? && o.at.place.digits > MAX_LENGTH
  }

  /** More bytes would help. */
  predicate Hungry(o: Outcome) {
    o.Stuck? && !Refused(o)
  }

  // ---------------------------------------------------------------------
  // Prefixes
  // ---------------------------------------------------------------------

  /** The bytes end, or the next character is not whole, or no character will ever do. */
  predicate Starved(s: seq<Byte>, p: Progress) {
    p.pos >= |s| || (p.place.InContent? && (p.place.due < 0 || p.pos + CharSize(s[p.pos]) > |s|))
  }

  lemma {:induction false} OutcomeBounds(s: seq<Byte>, p: Progress)
    requires Fits(s, p)
    ensures var o := RunFrom(s, p);
      && (o.Whole? ==> p.pos < o.length <= |s| && |p.elements| < |o.elements|)
      && (o.Stuck? ==> Fits(s, o.at) && RunFrom(s, o.at) == o && Starved(s, o.at))
    decreases |s| - p.pos
  {
    if p.pos < |s| {
      var c := s[p.pos];
      match p.place
      case InLength(digits) =>
        if IsDigit(c) {
          OutcomeBounds(s, AfterDigit(p, c));
        } else if c == DOT && digits <= MAX_LENGTH {
          OutcomeBounds(s, AfterPeriod(p));
        }
      case InContent(due, begin) =>
        if due >= 0 && p.pos + CharSize(c) <= |s| {
          if due > 0 {
            OutcomeBounds(s, AfterCharacter(p, c));
          } else if c == COMMA {
            OutcomeBounds(s, AfterElement(s, p));
          }
        }
    }
  }

  /** What is decided by the first bytes stays decided; where they leave the machine
      stuck, it goes on from there. */
  lemma {:induction false} PrefixGoesOn(s: seq<Byte>, m: nat, p: Progress)
    requires m <= |s| && Fits(s[..m], p)
    ensures var o := RunFrom(s[..m], p);
      if o.Stuck? then Fits(s[..m], o.at) && RunFrom(s, p) == RunFrom(s, o.at) else RunFrom(s, p) == o
    decreases |s| - p.pos
  {
    if p.pos < m {
      var t, c := s[..m], s[p.pos];
      match p.place
      case InLength(digits) =>
        if IsDigit(c) {
          PrefixGoesOn(s, m, AfterDigit(p, c));
        } else if c == DOT && digits <= MAX_LENGTH {
          PrefixGoesOn(s, m, AfterPeriod(p));
        }
      case InContent(due, begin) =>
        SliceOfPrefix(s, begin, p.pos, m);
        if due >= 0 && p.pos + CharSize(c) <= m {
          if due > 0 {
            PrefixGoesOn(s, m, AfterCharacter(p, c));
          } else if c == COMMA {
            PrefixGoesOn(s, m, AfterElement(s, p));
          }
        }
    }
  }

  /** Two places that come to the same in a prefix come to the same in the stream. */
  lemma SameInStream(s: seq<Byte>, m: nat, p: Progress, q: Progress)
    requires m <= |s| && Fits(s[..m], p) && Fits(s[..m], q) && RunFrom(s[..m], p) == RunFrom(s[..m], q)
    ensures RunFrom(s, p) == RunFrom(s, q)
  {
    PrefixGoesOn(s, m, p);
    PrefixGoesOn(s, m, q);
  }

  /** Bytes that leave the machine stuck are not yet the whole instruction. */
  lemma StuckIsShort(s: seq<Byte>, m: nat)
    requires m <= |s| && RunAll(s[..m]).Stuck? && RunAll(s).Whole?
    ensures m < RunAll(s).length
  {
    var at := RunAll(s[..m]).at;
    PrefixGoesOn(s, m, START);
    OutcomeBounds(s[..m], START);
    OutcomeBounds(s, at);
    if at.pos < m {
      var c := s[at.pos];
      assert s[..m][at.pos] == c;
      if at.place.due > 0 && at.pos + CharSize(c) <= |s| {
        OutcomeBounds(s, AfterCharacter(at, c));
      }
    }
  }

  // ---------------------------------------------------------------------
  // The machine and the meaning of a stream
  // ---------------------------------------------------------------------

  predicate Sound(p: Progress) {
    p.place.InLength? ==> p.place.digits >= 0
  }

  /** Where the stream means an instruction, the machine finds it: no length on the way
      wraps around. */
  lemma {:induction false} MachineAgrees(s: seq<Byte>, p: Progress)
    requires Fits(s, p) && Sound(p) && Resume(s, p).Instruction?
    ensures RunFrom(s, p) == Whole(Resume(s, p).elements, Resume(s, p).length)
    decreases |s| - p.pos
  {
    var c := s[p.pos];
    match p.place
    case InLength(digits) =>
      if IsDigit(c) {
        if digits * 10 + (c - 48) > MAX_LENGTH {
          TooLongNeverDecodes(s, Progress(p.pos + 1, InLength(digits * 10 + (c - 48)), p.elements));
        }
        MachineAgrees(s, AfterDigit(p, c));
      } else {
        MachineAgrees(s, AfterPeriod(p));
      }
    case InContent(due, begin) =>
      if due > 0 {
        MachineAgrees(s, AfterCharacter(p, c));
      } else if c == COMMA {
        MachineAgrees(s, AfterElement(s, p));
      }
  }

  /** No part of such a stream is refused. */
  lemma {:induction false} NeverRefused(s: seq<Byte>, m: nat, p: Progress)
    requires m <= |s| && Fits(s[..m], p) && Sound(p) && Resume(s, p).Instruction?
    ensures !Refused(RunFrom(s[..m], p))
    decreases |s| - p.pos
  {
    if p.pos == m {
      if Refused(Stuck(p)) {
        TooLongNeverDecodes(s, p);
      }
    } else {
      var c := s[p.pos];
      match p.place
      case InLength(digits) =>
        if IsDigit(c) {
          if digits * 10 + (c - 48) > MAX_LENGTH {
            TooLongNeverDecodes(s, Progress(p.pos + 1, InLength(digits * 10 + (c - 48)), p.elements));
          }
          NeverRefused(s, m, AfterDigit(p, c));
        } else {
          NeverRefused(s, m, AfterPeriod(p));
        }
      case InContent(due, begin) =>
        SliceOfPrefix(s, begin, p.pos, m);
        if p.pos + CharSize(c) <= m {
          if due > 0 {
            NeverRefused(s, m, AfterCharacter(p, c));
          } else if c == COMMA {
            NeverRefused(s, m, AfterElement(s, p));
          }
        }
    }
  }

  /** An instruction that the machine finds and the stream does not mean has a length
      that wraps around; before it does, it is beyond its limit. */
  lemma {:induction false} WrappedIsRefused(s: seq<Byte>, p: Progress) returns (m: nat)
    requires Fits(s, p) && Sound(p) && RunFrom(s, p).Whole? && !Resume(s, p).Instruction?
    ensures p.pos <= m <= |s| && Fits(s[..m], p) && Refused(RunFrom(s[..m], p))
    decreases |s| - p.pos
  {
    var c := s[p.pos];
    match p.place
    case InLength(digits) =>
      if digits > MAX_LENGTH {
        m := p.pos;
      } else if IsDigit(c) {
        m := WrappedIsRefused(s, AfterDigit(p, c));
      } else {
        m := WrappedIsRefused(s, AfterPeriod(p));
      }
    case InContent(due, begin) =>
      if due > 0 {
        m := WrappedIsRefused(s, AfterCharacter(p, c));
      } else {
        m := WrappedIsRefused(s, AfterElement(s, p));
        SliceOfPrefix(s, begin, p.pos, m);
      }
  }

  /** No part of the stream that arrives alone is refused. */
  ghost predicate Splittable(s: seq<Byte>) {
    forall m :: 0 <= m <= |s| ==> !Refused(RunAll(s[..m]))
  }

  /** Of the streams in which the machine finds an instruction, those of which no part is
      refused are exactly those that mean one. */
  lemma SplittableExactlyWhen(s: seq<Byte>)
    requires RunAll(s).Whole?
    ensures Splittable(s) <==> Decode(s).Instruction?
  {
    if Decode(s).Instruction? {
      forall m | 0 <= m <= |s|
        ensures !Refused(RunAll(s[..m]))
      {
        NeverRefused(s, m, START);
      }
    } else {
      var m := WrappedIsRefused(s, START);
      assert Refused(RunAll(s[..m]));
    }
  }

  // ---------------------------------------------------------------------
  // Numbers
  // ---------------------------------------------------------------------

  /** The number that digits stand for, and what the parser makes of them when they
      arrive together. */
  function Number(digits: seq<Byte>): int {
    if digits == [] then 0 else Number(digits[..|digits| - 1]) * 10 + digits[|digits| - 1] - 48
  }

  function MachineNumber(digits: seq<Byte>): int {
    if digits == [] then 0 else ToInt(MachineNumber(digits[..|digits| - 1]) * 10 + digits[|digits| - 1] - 48)
  }

  lemma {:induction false} NumberGrows(digits: seq<Byte>)
    requires forall i :: 0 <= i < |digits| ==> IsDigit(digits[i])
    ensures Number(digits) >= 0 && (|digits| > 0 ==> Number(digits) >= Number(digits[..|digits| - 1]))
  {
    if |digits| > 0 {
      NumberGrows(digits[..|digits| - 1]);
    }
  }

  /** The parser reads the number if and only if it fits a C int. */
  lemma {:induction false} MachineNumberExactlyWhen(digits: seq<Byte>)
    requires forall i :: 0 <= i < |digits| ==> IsDigit(digits[i])
    ensures MachineNumber(digits) == Number(digits) <==> Number(digits) <= INT_MAX
  {
    NumberGrows(digits);
    if |digits| > 0 {
      MachineNumberExactlyWhen(digits[..|digits| - 1]);
      NumberGrows(digits[..|digits| - 1]);
    }
  }

  /** A printed number that arrives at once is read modulo the width of a C int. */
  lemma {:induction false} DecimalWraps(n: nat)
    ensures MachineNumber(Decimal(n)) == ToInt(n)
    decreases n
  {
    var d := Decimal(n);
    var k := |d| - 1;
    if n >= 10 {
      DecimalWraps(n / 10);
      assert d[..k] == Decimal(n / 10) && d[k] == 48 + n % 10;
      WrapsOnce(n / 10, n % 10);
    } else {
      assert d[..k] == [];
    }
  }

  lemma WrapsOnce(a: int, digit: int)
    ensures ToInt(ToInt(a) * 10 + digit) == ToInt(a * 10 + digit)
  {
    var q := (a + 0x8000_0000) / 0x1_0000_0000;
    assert ToInt(a) * 10 + digit == a * 10 + digit - 10 * q * 0x1_0000_0000;
  }

  /** A number without its last `k` digits. */
  function Cut(n: nat, k: nat): nat {
    if k == 0 then n else Cut(n / 10, k - 1)
  }

  lemma {:induction false} LeadingDigits(n: nat, k: nat)
    requires Cut(n, k) > 0
    ensures Decimal(Cut(n, k)) <= Decimal(n)
  {
    if k > 0 {
      LeadingDigits(n / 10, k - 1);
      CutSmall(n / 10, k - 1);
      assert Decimal(n) == Decimal(n / 10) + [48 + n % 10];
    }
  }

  lemma {:induction false} CutSmall(n: nat, k: nat)
    ensures n == 0 ==> Cut(n, k) == 0
  {
    if k > 0 {
      CutSmall(n / 10, k - 1);
    }
  }

  /** The digits of a length lead to the number that the machine makes of them. */
  lemma {:induction false} RunDigits(s: seq<Byte>, pos: nat, digits: seq<Byte>, elements: seq<seq<Byte>>)
    requires At(s, pos, digits) && forall i :: 0 <= i < |digits| ==> IsDigit(digits[i])
    ensures RunFrom(s, Progress(pos, InLength(0), elements)) ==
      RunFrom(s, Progress(pos + |digits|, InLength(MachineNumber(digits)), elements))
    decreases |digits|
  {
    if digits != [] {
      var k := |digits| - 1;
      var front := digits[..k];
      assert digits == front + [digits[k]];
      AtParts(s, pos, front, [digits[k]]);
      AtByte(s, pos + k, digits[k]);
      RunDigits(s, pos, front, elements);
    }
  }

  /** "4294967297.a;" */
  function WrappedStream(): seq<Byte> {
    Decimal(4294967297) + [DOT, 97, SEMICOLON]
  }

  /** Arriving at once it is taken for "1.a;"; its first five digits, arriving alone, are
      refused. */
  lemma WrappedOutcomes()
    ensures RunAll(WrappedStream()) == Whole([[97]], |WrappedStream()|)
    ensures 5 < |WrappedStream()| < 100 && Refused(RunAll(WrappedStream()[..5]))
    ensures !Decode(WrappedStream()).Instruction?
  {
    DecimalWraps(4294967297);
    OneCharacter(Decimal(4294967297));
    FirstFive();
    SplittableExactlyWhen(WrappedStream());
  }

  /** What follows a length that comes to one. */
  lemma OneCharacter(d: seq<Byte>)
    requires MachineNumber(d) == 1 && forall i :: 0 <= i < |d| ==> IsDigit(d[i])
    ensures RunAll(d + [DOT, 97, SEMICOLON]) == Whole([[97]], |d| + 3)
  {
    var s, dot := d + [DOT, 97, SEMICOLON], |d|;
    RunDigits(s, 0, d, []);
    var content := Progress(dot + 1, InContent(1, dot + 1), []);
    assert s[dot] == DOT && s[dot + 1] == 97 && s[dot + 2] == SEMICOLON;
    assert RunFrom(s, Progress(dot, InLength(1), [])) == RunFrom(s, content);
    OneCharacterThen(s, content);
  }

  lemma OneCharacterThen(s: seq<Byte>, p: Progress)
    requires |s| == p.pos + 2 && s[p.pos] == 97 && s[p.pos + 1] == SEMICOLON
    requires p == Progress(p.pos, InContent(1, p.pos), [])
    ensures RunFrom(s, p) == Whole([[97]], |s|)
  {
    assert RunFrom(s, p) == RunFrom(s, AfterCharacter(p, 97));
    assert s[p.pos..p.pos + 1] == [97];
  }

  lemma FirstFive()
    ensures |WrappedStream()| > 5 && Refused(RunAll(WrappedStream()[..5]))
  {
    var five := Decimal(42949);
    assert Cut(4294967, 2) == Cut(429496, 1) == 42949;
    assert Cut(4294967297, 5) == Cut(429496729, 4) == Cut(42949672, 3) == Cut(4294967, 2);
    LeadingDigits(4294967297, 5);
    DecimalFive();
    assert WrappedStream()[..5] == five;
    DecimalWraps(42949);
    RunDigits(five, 0, five, []);
  }

  lemma DecimalFive()
    ensures |Decimal(42949)| == 5
  {
    assert |Decimal(429)| == 3;
    assert |Decimal(4294)| == 4;
  }
}
