/** Writing and reading code points as UTF-8 (src/libguac/unicode.c; section 3 of
    RFC 3629, without its upper limit).
  */
module Utf8 {

  import opened Unicode

  const REPLACEMENT := 0xFFFD
  const QUESTION: Byte := 63

  /** The number of bytes of a code point up to 0x1FFFFF. */
  function Size(codepoint: nat): (bytes: nat)
    ensures 1 <= bytes <= 4
  {
    if codepoint <= 0x7F then 1 else if codepoint <= 0x7FF then 2 else if codepoint <= 0xFFFF then 3 else 4
  }

  /** The bits that announce the size in the first byte, and how many values are left
      to the bits after them. */
  function Mask(bytes: nat): nat {
    if bytes == 1 then 0 else if bytes == 2 then 0xC0 else if bytes == 3 then 0xE0 else 0xF0
  }

  function Span(bytes: nat): nat {
    if bytes == 1 then 128 else if bytes == 2 then 32 else if bytes == 3 then 16 else 8
  }

  /** What is left of a code point once its lowest `k` groups of six bits are removed. */
  function Shift(codepoint: nat, k: nat): nat {
    if k == 0 then codepoint else Shift(codepoint / 64, k - 1)
  }

  /** The trailing bytes that carry the lowest `k` groups. */
  function Tail(codepoint: nat, k: nat): (tail: seq<Byte>)
    ensures |tail| == k
  {
    if k == 0 then [] else Tail(codepoint / 64, k - 1) + [0x80 + codepoint % 64]
  }

  lemma ShiftBounds(codepoint: nat)
    requires codepoint <= 0x1FFFFF
    ensures Shift(codepoint, Size(codepoint) - 1) < Span(Size(codepoint))
  {
    assert Shift(codepoint, 1) == codepoint / 64;
    assert Shift(codepoint, 2) == Shift(codepoint / 64, 1) == codepoint / 64 / 64;
    assert Shift(codepoint, 3) == Shift(codepoint / 64, 2) == Shift(codepoint / 64 / 64, 1);
  }

  function Lead(codepoint: nat): Byte
    requires codepoint <= 0x1FFFFF
  {
    ShiftBounds(codepoint);
    Mask(Size(codepoint)) + Shift(codepoint, Size(codepoint) - 1)
  }

  /** The bytes of a code point; one that is too large becomes a question mark. */
  function Encode(codepoint: nat): (bytes: seq<Byte>)
    ensures 1 <= |bytes| <= 4
    ensures codepoint <= 0x1FFFFF ==> |bytes| == Size(codepoint)
  {
    if codepoint > 0x1FFFFF then [QUESTION]
    else [Lead(codepoint)] + Tail(codepoint, Size(codepoint) - 1)
  }

  /** The four forms of section 3 of RFC 3629, and the question mark. */
  lemma EncodedForms(codepoint: nat)
    ensures codepoint <= 0x7F ==> Encode(codepoint) == [codepoint]
    ensures 0x80 <= codepoint <= 0x7FF ==>
      Encode(codepoint) == [0xC0 + codepoint / 0x40, 0x80 + codepoint % 0x40]
    ensures 0x800 <= codepoint <= 0xFFFF ==>
      Encode(codepoint) ==
        [0xE0 + codepoint / 0x40 / 0x40, 0x80 + codepoint / 0x40 % 0x40, 0x80 + codepoint % 0x40]
    ensures 0x1_0000 <= codepoint <= 0x1F_FFFF ==>
      Encode(codepoint) ==
        [0xF0 + codepoint / 0x40 / 0x40 / 0x40, 0x80 + codepoint / 0x40 / 0x40 % 0x40,
         0x80 + codepoint / 0x40 % 0x40, 0x80 + codepoint % 0x40]
    ensures codepoint > 0x1F_FFFF ==> Encode(codepoint) == ['?' as int]
  {
    var q, r := codepoint / 0x40, codepoint / 0x40 / 0x40;
    assert Shift(codepoint, 1) == q && Shift(codepoint, 2) == Shift(q, 1) == r;
    assert Shift(codepoint, 3) == Shift(q, 2) == Shift(r, 1) == r / 0x40;
    assert Tail(codepoint, 1) == [0x80 + codepoint % 0x40];
    assert Tail(codepoint, 2) == Tail(q, 1) + [0x80 + codepoint % 0x40];
    assert Tail(codepoint, 3) == Tail(q, 2) + [0x80 + codepoint % 0x40];
    assert Tail(q, 2) == Tail(r, 1) + [0x80 + q % 0x40];
  }

  /** What the trailing bytes add to the bits of the first byte. */
  function Gather(bits: nat, tail: seq<Byte>): nat {
    if |tail| == 0 then bits else Gather(bits, tail[..|tail| - 1]) * 64 + tail[|tail| - 1] % 64
  }

  lemma {:induction false} GatherTail(codepoint: nat, k: nat)
    ensures Gather(Shift(codepoint, k), Tail(codepoint, k)) == codepoint
  {
    if k > 0 {
      GatherTail(codepoint / 64, k - 1);
      assert Tail(codepoint, k)[..k - 1] == Tail(codepoint / 64, k - 1);
      assert (0x80 + codepoint % 64) % 64 == codepoint % 64;
    }
  }

  /** The size announced by a first byte, or zero if it is not one. */
  function Announced(initial: Byte): (bytes: nat)
    ensures bytes <= 4
  {
    if 0x80 <= initial < 0xC0 || initial >= 0xF8 then 0 else CharSize(initial)
  }

  datatype Reading =
    | Point(value: nat, size: nat)
    | Short    // nothing is read, and the value is not set

  /** What is read from the front of `s`. */
  function Decode(s: seq<Byte>): (reading: Reading)
    ensures reading.Point? ==> 1 <= reading.size <= |s|
  {
    if |s| == 0 then Short
    else
      var bytes := Announced(s[0]);
      if bytes == 0 then Point(REPLACEMENT, 1)
      else if bytes > |s| then Short
      else Point(Gather(s[0] % Span(bytes), s[1..bytes]), bytes)
  }

  /** What is not a first byte reads as one replacement character, and nothing is read of a
      character that is not whole. */
  lemma OddBytes(s: seq<Byte>)
    requires |s| > 0
    ensures 0x80 <= s[0] <= 0xBF || s[0] >= 0xF8 ==> Decode(s) == Point(0xFFFD, 1)
    ensures Decode(s).Short? <==>
      (0xC0 <= s[0] <= 0xDF && |s| < 2) || (0xE0 <= s[0] <= 0xEF && |s| < 3) || (0xF0 <= s[0] <= 0xF7 && |s| < 4)
  {
  }

  lemma LeadAnnounces(codepoint: nat)
    requires codepoint <= 0x1FFFFF
    ensures Announced(Lead(codepoint)) == Size(codepoint)
    ensures Lead(codepoint) % Span(Size(codepoint)) == Shift(codepoint, Size(codepoint) - 1)
  {
    ShiftBounds(codepoint);
  }

  /** Reading undoes writing, whatever follows. */
  lemma DecodeEncode(codepoint: nat, rest: seq<Byte>)
    requires codepoint <= 0x1FFFFF
    ensures Decode(Encode(codepoint) + rest) == Point(codepoint, Size(codepoint))
  {
    var n := Size(codepoint);
    var s := Encode(codepoint) + rest;
    LeadAnnounces(codepoint);
    assert s[0] == Lead(codepoint);
    assert s[1..n] == Tail(codepoint, n - 1);
    GatherTail(codepoint, n - 1);
  }

  /** The masks that the source sets are added to the bits they are set beside. */
  lemma MasksAreSums(c: bv8)
    ensures 0x80 | (c & 0x3F) == 0x80 + (c & 0x3F)
    ensures c < 32 ==> 0xC0 | c == 0xC0 + c
    ensures c < 16 ==> 0xE0 | c == 0xE0 + c
    ensures c < 8 ==> 0xF0 | c == 0xF0 + c
  {
  }

  /** Writes the bytes of a code point at position `at` if they fit in `length` bytes. */
  method Write(codepoint: nat, utf8: array<Byte>, at: nat, length: nat) returns (bytes: nat)
    requires at + length <= utf8.Length
    modifies utf8
    ensures bytes == if |Encode(codepoint)| <= length then |Encode(codepoint)| else 0
    ensures bytes > 0 ==> utf8[at..at + bytes] == Encode(codepoint)
    ensures forall i :: 0 <= i < utf8.Length && (i < at || i >= at + bytes) ==> utf8[i] == old(utf8[i])
  {
    if length == 0 {
      return 0;
    }
    if codepoint > 0x1FFFFF {
      utf8[at] := QUESTION;
      return 1;
    }
    bytes := Size(codepoint);
    if bytes > length {
      return 0;
    }
    ShiftBounds(codepoint);
    var rest := WriteTail(codepoint, utf8, at, bytes);
    utf8[at] := Mask(bytes) + rest;
    assert utf8[at..at + bytes] == [Lead(codepoint)] + utf8[at + 1..at + bytes];
  }

  /** Writes the trailing bytes from the last to the first. */
  method WriteTail(codepoint: nat, utf8: array<Byte>, at: nat, bytes: nat) returns (rest: nat)
    requires 1 <= bytes && at + bytes <= utf8.Length
    modifies utf8
    ensures rest == Shift(codepoint, bytes - 1)
    ensures utf8[at + 1..at + bytes] == Tail(codepoint, bytes - 1)
    ensures forall i :: 0 <= i < utf8.Length && (i <= at || i >= at + bytes) ==> utf8[i] == old(utf8[i])
  {
    rest := codepoint;
    var i := 1;
    while i < bytes
      invariant 1 <= i <= bytes
      invariant Shift(rest, bytes - i) == Shift(codepoint, bytes - 1)
      invariant Tail(rest, bytes - i) + utf8[at + bytes - i + 1..at + bytes] == Tail(codepoint, bytes - 1)
      invariant forall i :: 0 <= i < utf8.Length && (i <= at || i >= at + bytes) ==> utf8[i] == old(utf8[i])
    {
      ghost var after := utf8[at + bytes - i + 1..at + bytes];
      utf8[at + bytes - i] := 0x80 + rest % 64;
      assert utf8[at + bytes - i..at + bytes] == [0x80 + rest % 64] + after;
      rest, i := rest / 64, i + 1;
    }
  }

  /** Reads a code point. If nothing can be read, the value is left unset: it may be
      anything. */
  method Read(s: seq<Byte>) returns (bytes: nat, codepoint: nat)
    ensures Decode(s).Short? ==> bytes == 0
    ensures Decode(s).Point? ==> Decode(s) == Point(codepoint, bytes)
  {
    codepoint := *;
    if |s| == 0 {
      return 0, codepoint;
    }
    bytes := Announced(s[0]);
    if bytes == 0 {
      return 1, REPLACEMENT;
    }
    if bytes > |s| {
      return 0, codepoint;
    }
    var result := s[0] % Span(bytes);
    var i := 1;
    while i < bytes
      invariant 1 <= i <= bytes && result == Gather(s[0] % Span(bytes), s[1..i])
    {
      assert s[1..i + 1][..i - 1] == s[1..i];
      result, i := result * 64 + s[i] % 64, i + 1;
    }
    codepoint := result;
  }
}
