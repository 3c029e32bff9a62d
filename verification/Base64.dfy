/** Base64 as it is streamed out and decoded in place (src/libguac/socket.c,
    src/libguac/protocol.c; section 4 of RFC 4648).
  */
module Base64 {
  import opened Unicode

  const PAD: Byte := 61

  /** __guac_socket_BASE64_CHARACTERS. */
  function Digit(v: int): (c: Byte)
    requires 0 <= v < 64
    ensures c != 0 && c != PAD && Value(c) == v && CharSize(c) == 1
  {
    if v < 26 then 65 + v
    else if v < 52 then 97 + (v - 26)
    else if v < 62 then 48 + (v - 52)
    else if v == 62 then 43
    else 47
  }

  /** __guac_base64_value; anything else counts as zero. */
  function Value(c: Byte): (v: int)
    ensures 0 <= v < 64
  {
    if 65 <= c <= 90 then c - 65
    else if 97 <= c <= 122 then c - 97 + 26
    else if 48 <= c <= 57 then c - 48 + 52
    else if c == 43 then 62
    else if c == 47 then 63
    else 0
  }

  /** The alphabet of section 4 of RFC 4648. */
  const UPPER := "ABCDEFGHIJKLMNOPQRSTUVWXYZ"
  const LOWER := "abcdefghijklmnopqrstuvwxyz"
  const DECIMAL := "0123456789"
  const ALPHABET := UPPER + LOWER + DECIMAL + "+/"

  lemma AlphabetParts(v: int)
    requires 0 <= v < 64
    ensures |ALPHABET| == 64
    ensures ALPHABET[v] ==
      if v < 26 then UPPER[v] else if v < 52 then LOWER[v - 26] else if v < 62 then DECIMAL[v - 52] else "+/"[v - 62]
  {
  }

  lemma InUpper(v: int)
    requires 0 <= v < 26
    ensures UPPER[v] as int == 65 + v
  {
  }

  lemma InLower(v: int)
    requires 0 <= v < 26
    ensures LOWER[v] as int == 97 + v
  {
  }

  lemma InDecimal(v: int)
    requires 0 <= v < 10
    ensures DECIMAL[v] as int == 48 + v
  {
  }

  /** Every six-bit value has its character of the alphabet. */
  lemma DigitIsInAlphabet(v: int)
    requires 0 <= v < 64
    ensures |ALPHABET| == 64 && Digit(v) == ALPHABET[v] as int
  {
    AlphabetParts(v);
    if v < 26 {
      InUpper(v);
    } else if v < 52 {
      InLower(v - 26);
    } else if v < 62 {
      InDecimal(v - 52);
    }
  }

  /** The value of a character is its position in the alphabet, or zero if it has none. */
  lemma ValueIsPosition(c: Byte)
    ensures |ALPHABET| == 64
    ensures forall v :: 0 <= v < 64 && ALPHABET[v] as int == c ==> Value(c) == v
    ensures (forall v :: 0 <= v < 64 ==> ALPHABET[v] as int != c) ==> Value(c) == 0
  {
    AlphabetParts(0);
    forall v | 0 <= v < 64 && ALPHABET[v] as int == c
      ensures Value(c) == v
    {
      DigitIsInAlphabet(v);
    }
    if Value(c) != 0 {
      DigitIsInAlphabet(Value(c));
    }
  }

  // ---------------------------------------------------------------------
  // Encoding
  // ---------------------------------------------------------------------

  /** A byte, or -1 for a missing one. */
  type MaybeByte = x: int | -1 <= x < 256

  /** __guac_socket_encode_base64. */
  function Quad(a: Byte, b: MaybeByte, c: MaybeByte): (r: seq<Byte>)
    ensures |r| == 4
  {
    [Digit(a / 4)] +
    if b < 0 then [Digit(a % 4 * 16), PAD, PAD]
    else [Digit(a % 4 * 16 + b / 16)] +
         if c < 0 then [Digit(b % 16 * 4), PAD]
         else [Digit(b % 16 * 4 + c / 64), Digit(c % 64)]
  }

  /** The masks and shifts of the source compute those digits. */
  lemma MasksAreDigits(a: bv32, b: bv32, c: bv32)
    requires a <= 0xFF && b <= 0xFF && c <= 0xFF
    ensures (a & 0xFC) >> 2 == a / 4
    ensures ((a & 0x03) << 4) | ((b & 0xF0) >> 4) == a % 4 * 16 + b / 16
    ensures ((b & 0x0F) << 2) | ((c & 0xC0) >> 6) == b % 16 * 4 + c / 64
    ensures c & 0x3F == c % 64
  {
  }

  /** Three bytes at a time, then the remaining one or two. */
  function Grouped(quad: (Byte, MaybeByte, MaybeByte) -> seq<Byte>, data: seq<Byte>): seq<Byte> {
    if |data| == 0 then []
    else if |data| == 1 then quad(data[0], -1, -1)
    else if |data| == 2 then quad(data[0], data[1], -1)
    else quad(data[0], data[1], data[2]) + Grouped(quad, data[3..])
  }

  function Encode(data: seq<Byte>): seq<Byte> {
    Grouped(Quad, data)
  }

  /** The length announced before a blob is the length that is sent. */
  lemma {:induction false} EncodedLength(data: seq<Byte>)
    ensures |Encode(data)| == (|data| + 2) / 3 * 4
  {
    if |data| > 2 {
      EncodedLength(data[3..]);
    }
  }

  /** Byte `k` of the data; behind the data there are zeros. */
  function ByteAt(data: seq<Byte>, k: nat): Byte {
    if k < |data| then data[k] else 0
  }

  /** A bit of a byte, counted from the highest. */
  function BitOf(b: Byte, j: nat): int {
    match j
    case 0 => b / 128 % 2
    case 1 => b / 64 % 2
    case 2 => b / 32 % 2
    case 3 => b / 16 % 2
    case 4 => b / 8 % 2
    case 5 => b / 4 % 2
    case 6 => b / 2 % 2
    case _ => b % 2
  }

  function PairOf(b: Byte, j: nat): int {
    2 * BitOf(b, j) + BitOf(b, j + 1)
  }

  function Bit(data: seq<Byte>, k: nat): int {
    BitOf(ByteAt(data, k / 8), k % 8)
  }

  /** The value of the two bits from bit `k` on, and of the six bits from bit 6 * `i` on. */
  function Pair(data: seq<Byte>, k: nat): int {
    2 * Bit(data, k) + Bit(data, k + 1)
  }

  function Six(pair: nat -> int, i: nat): int {
    16 * pair(6 * i) + 4 * pair(6 * i + 2) + pair(6 * i + 4)
  }

  function PairsOf(data: seq<Byte>): nat -> int {
    (k: nat) => Pair(data, k)
  }

  function Sextet(data: seq<Byte>, i: nat): int {
    Six(PairsOf(data), i)
  }

  /** A value is made of its half and its lowest bit. */
  lemma Halves(b: Byte)
    ensures b / 2 / 2 == b / 4 && b / 4 / 2 == b / 8 && b / 8 / 2 == b / 16
    ensures b / 16 / 2 == b / 32 && b / 32 / 2 == b / 64 && b / 64 / 2 == b / 128 < 2
  {
  }

  /** The bits of a byte from the highest to the lowest. */
  lemma ByteBits(b: Byte)
    ensures PairOf(b, 0) == b / 64 && PairOf(b, 2) == b / 16 - 4 * (b / 64)
    ensures PairOf(b, 4) == b / 4 - 4 * (b / 16) && PairOf(b, 6) == b - 4 * (b / 4)
  {
    Halves(b);
  }

  /** What is cut off at the front leaves the rest. */
  lemma Remainders(b: Byte)
    ensures b % 4 == b - 4 * (b / 4) && b % 16 == b - 16 * (b / 16) && b % 64 == b - 64 * (b / 64)
  {
  }

  lemma BitAt(data: seq<Byte>, k: nat, j: nat)
    requires j < 8
    ensures Bit(data, 8 * k + j) == BitOf(ByteAt(data, k), j)
  {
    assert (8 * k + j) / 8 == k && (8 * k + j) % 8 == j;
  }

  lemma PairAt(data: seq<Byte>, k: nat, j: nat)
    requires j < 7
    ensures Pair(data, 8 * k + j) == PairOf(ByteAt(data, k), j)
  {
    BitAt(data, k, j);
    BitAt(data, k, j + 1);
  }

  /** Whether the four pairs of bits from 8 * `k` on are those of a byte. */
  predicate CutFrom(pair: nat -> int, k: nat, b: Byte) {
    && pair(8 * k) == b / 64 && pair(8 * k + 2) == b / 16 - 4 * (b / 64)
    && pair(8 * k + 4) == b / 4 - 4 * (b / 16) && pair(8 * k + 6) == b - 4 * (b / 4)
  }

  lemma PairsOfByte(data: seq<Byte>, k: nat)
    ensures CutFrom(PairsOf(data), k, ByteAt(data, k))
  {
    PairAt(data, k, 0);
    PairAt(data, k, 2);
    PairAt(data, k, 4);
    PairAt(data, k, 6);
    CutInto(PairsOf(data), k, ByteAt(data, k), (j: nat) => PairOf(ByteAt(data, k), j));
  }

  lemma CutInto(pair: nat -> int, k: nat, b: Byte, of: nat -> int)
    requires pair(8 * k) == of(0) && pair(8 * k + 2) == of(2) && pair(8 * k + 4) == of(4) && pair(8 * k + 6) == of(6)
    requires of(0) == PairOf(b, 0) && of(2) == PairOf(b, 2) && of(4) == PairOf(b, 4) && of(6) == PairOf(b, 6)
    ensures CutFrom(pair, k, b)
  {
    ByteBits(b);
  }

  /** Four values of six bits from three bytes. */
  function Part(a: Byte, b: Byte, c: Byte, i: nat): int {
    match i
    case 0 => a / 4
    case 1 => a % 4 * 16 + b / 16
    case 2 => b % 16 * 4 + c / 64
    case _ => c % 64
  }

  lemma Regrouped(pair: nat -> int, a: Byte, b: Byte, c: Byte, i: nat)
    requires CutFrom(pair, 0, a) && CutFrom(pair, 1, b) && CutFrom(pair, 2, c) && i < 4
    ensures Six(pair, i) == Part(a, b, c, i)
  {
    Remainders(a);
    Remainders(b);
    Remainders(c);
  }

  lemma FirstSextets(data: seq<Byte>, i: nat)
    requires i < 4
    ensures Sextet(data, i) == Part(ByteAt(data, 0), ByteAt(data, 1), ByteAt(data, 2), i)
  {
    PairsOfByte(data, 0);
    PairsOfByte(data, 1);
    PairsOfByte(data, 2);
    Regrouped(PairsOf(data), ByteAt(data, 0), ByteAt(data, 1), ByteAt(data, 2), i);
  }

  lemma PairsMoveOn(data: seq<Byte>, k: nat)
    requires |data| >= 3
    ensures Pair(data, k + 24) == Pair(data[3..], k)
  {
    assert (k + 24) / 8 == k / 8 + 3 && (k + 24) % 8 == k % 8;
    assert (k + 25) / 8 == (k + 1) / 8 + 3 && (k + 25) % 8 == (k + 1) % 8;
  }

  lemma SixMoved(pair: nat -> int, moved: nat -> int, i: nat)
    requires pair(6 * i + 24) == moved(6 * i) && pair(6 * i + 26) == moved(6 * i + 2)
    requires pair(6 * i + 28) == moved(6 * i + 4)
    ensures Six(pair, i + 4) == Six(moved, i)
  {
    assert 6 * (i + 4) == 6 * i + 24;
  }

  lemma SextetsMoveOn(data: seq<Byte>, i: nat)
    requires |data| >= 3
    ensures Sextet(data, i + 4) == Sextet(data[3..], i)
  {
    PairsMoveOn(data, 6 * i);
    PairsMoveOn(data, 6 * i + 2);
    PairsMoveOn(data, 6 * i + 4);
    SixMoved(PairsOf(data), PairsOf(data[3..]), i);
  }

  lemma QuadDigits(a: Byte, b: MaybeByte, c: MaybeByte, i: nat)
    requires i < 4 && (b < 0 ==> c < 0)
    ensures var v := Part(a, if b < 0 then 0 else b, if c < 0 then 0 else c, i);
      && 0 <= v < 64
      && Quad(a, b, c)[i] == if (i == 2 && b < 0) || (i == 3 && c < 0) then PAD else Digit(v)
  {
  }

  lemma EncodeFirst(data: seq<Byte>, i: nat)
    requires |data| > 0 && i < 4
    ensures |Encode(data)| >= 4
    ensures Encode(data)[i] ==
      Quad(data[0], if |data| > 1 then data[1] else -1, if |data| > 2 then data[2] else -1)[i]
  {
  }

  /** The first group of characters. */
  lemma QuadText(data: seq<Byte>, i: nat)
    requires |data| > 0 && i < 4
    ensures |Encode(data)| >= 4 && 0 <= Sextet(data, i) < 64
    ensures Encode(data)[i] == if 6 * i < 8 * |data| then Digit(Sextet(data, i)) else PAD
  {
    FirstSextets(data, i);
    EncodeFirst(data, i);
    QuadDigits(data[0], if |data| > 1 then data[1] else -1, if |data| > 2 then data[2] else -1, i);
  }

  /** What encoding means: every character is that of the alphabet for the next six bits of
      the data, and where the data has no more bits there is padding. */
  lemma {:induction false} EncodedText(data: seq<Byte>, i: nat)
    requires i < |Encode(data)|
    ensures |ALPHABET| == 64 && 0 <= Sextet(data, i) < 64
    ensures Encode(data)[i] == (if 6 * i < 8 * |data| then ALPHABET[Sextet(data, i)] else '=') as int
    decreases |data|
  {
    if i < 4 {
      QuadText(data, i);
      DigitIsInAlphabet(Sextet(data, i));
    } else {
      SextetsMoveOn(data, i - 4);
      EncodedText(data[3..], i - 4);
    }
  }

  lemma {:induction false} GroupedAppend(quad: (Byte, MaybeByte, MaybeByte) -> seq<Byte>, a: seq<Byte>, b: seq<Byte>)
    requires |a| % 3 == 0
    ensures Grouped(quad, a + b) == Grouped(quad, a) + Grouped(quad, b)
  {
    if |a| == 0 {
      assert a + b == b;
    } else {
      GroupedAppend(quad, a[3..], b);
      assert (a + b)[3..] == a[3..] + b;
    }
  }

  /** Encoding in pieces is encoding at once, if only the last piece is ragged. */
  lemma EncodeAppend(a: seq<Byte>, b: seq<Byte>)
    requires |a| % 3 == 0
    ensures Encode(a + b) == Encode(a) + Encode(b)
  {
    GroupedAppend(Quad, a, b);
  }

  /** One byte per character and no null byte. */
  predicate Plain(s: seq<Byte>) {
    forall i :: 0 <= i < |s| ==> s[i] != 0 && CharSize(s[i]) == 1
  }

  lemma {:induction false} EncodedIsPlain(data: seq<Byte>)
    ensures Plain(Encode(data))
  {
    if |data| > 2 {
      EncodedIsPlain(data[3..]);
      assert Plain(Quad(data[0], data[1], data[2]));
      assert Encode(data) == Quad(data[0], data[1], data[2]) + Encode(data[3..]);
    }
  }

  // ---------------------------------------------------------------------
  // Decoding
  // ---------------------------------------------------------------------

  /** `bits` bits of the value `left` are carried over between characters. */
  predicate Carry(left: int, bits: int) {
    (bits == 0 && left == 0) || (bits == 2 && 0 <= left < 4) ||
    (bits == 4 && 0 <= left < 16) || (bits == 6 && 0 <= left < 64)
  }

  /** With six more bits `v`: the byte completed, if any, ... */
  function Completed(left: int, bits: int, v: int): (b: seq<Byte>)
    requires Carry(left, bits) && 0 <= v < 64
    ensures |b| == if bits == 0 then 0 else 1
  {
    match bits
    case 0 => []
    case 2 => [left * 64 + v]
    case 4 => [(left * 64 + v) / 4]
    case _ => [(left * 64 + v) / 16]
  }

  /** ... and what is carried on. */
  function Rest(left: int, bits: int, v: int): (r: (int, int))
    requires Carry(left, bits) && 0 <= v < 64
    ensures Carry(r.0, r.1)
  {
    match bits
    case 0 => (v, 6)
    case 2 => (0, 0)
    case 4 => (v % 4, 2)
    case _ => (v % 16, 4)
  }

  /** Bytes of the text `s`, with `bits` bits of the value `left` carried over. */
  function DecodeFrom(s: seq<Byte>, left: int, bits: int): seq<Byte>
    requires Carry(left, bits)
    decreases |s|
  {
    if s == [] || s[0] == PAD then []
    else
      var rest := Rest(left, bits, Value(s[0]));
      Completed(left, bits, Value(s[0])) + DecodeFrom(s[1..], rest.0, rest.1)
  }

  function Decode(s: seq<Byte>): seq<Byte> {
    DecodeFrom(s, 0, 0)
  }

  /** Nothing behind padding is looked at. */
  lemma {:induction false} PaddingEnds(a: seq<Byte>, b: seq<Byte>, left: int, bits: int)
    requires Carry(left, bits)
    ensures DecodeFrom(a + [PAD] + b, left, bits) == DecodeFrom(a, left, bits)
    decreases |a|
  {
    if a != [] {
      var rest := Rest(left, bits, Value(a[0]));
      assert (a + [PAD] + b)[1..] == a[1..] + [PAD] + b;
      PaddingEnds(a[1..], b, rest.0, rest.1);
    }
  }

  /** Two digits make a byte and leave four bits. */
  lemma FirstDigits(s: seq<Byte>)
    requires |s| >= 2 && s[0] != PAD && s[1] != PAD
    ensures var total := Value(s[0]) * 64 + Value(s[1]);
      Decode(s) == [total / 16] + DecodeFrom(s[2..], Value(s[1]) % 16, 4)
  {
    var total := Value(s[0]) * 64 + Value(s[1]);
    assert Decode(s) == DecodeFrom(s[1..], Value(s[0]), 6);
    assert DecodeFrom(s[1..], Value(s[0]), 6) == [total / 16] + DecodeFrom(s[1..][1..], Value(s[1]) % 16, 4);
    assert s[1..][1..] == s[2..];
  }

  lemma LastDigits(s: seq<Byte>, left: int)
    requires |s| >= 2 && s[0] != PAD && 0 <= left < 16
    ensures var total := left * 64 + Value(s[0]);
      DecodeFrom(s, left, 4) == [total / 4] +
        if s[1] == PAD then [] else [Value(s[0]) % 4 * 64 + Value(s[1])] + Decode(s[2..])
  {
    var total := left * 64 + Value(s[0]);
    assert DecodeFrom(s, left, 4) == [total / 4] + DecodeFrom(s[1..], Value(s[0]) % 4, 2);
    assert s[1..][1..] == s[2..];
  }

  lemma FirstByte(a: Byte, n: int)
    requires 0 <= n < 16
    ensures (a / 4 * 64 + (a % 4 * 16 + n)) / 16 == a && (a % 4 * 16 + n) % 16 == n
  {
  }

  lemma SecondByte(b: Byte, n: int)
    requires 0 <= n < 4
    ensures (b / 16 * 64 + (b % 16 * 4 + n)) / 4 == b && (b % 16 * 4 + n) % 4 == n
  {
  }

  /** What the digits of a group are worth, whatever characters carry them. */
  lemma DecodeDigits(s: seq<Byte>, a: Byte, b: MaybeByte, c: MaybeByte)
    requires |s| >= 4 && s[0] != PAD && s[1] != PAD
    requires Value(s[0]) == a / 4 && Value(s[1]) == a % 4 * 16 + (if b < 0 then 0 else b / 16)
    requires if b < 0 then s[2] == PAD
             else s[2] != PAD && Value(s[2]) == b % 16 * 4 + (if c < 0 then 0 else c / 64)
    requires b >= 0 ==> if c < 0 then s[3] == PAD else s[3] != PAD && Value(s[3]) == c % 64
    ensures Decode(s) == if b < 0 then [a] else if c < 0 then [a, b] else [a, b, c] + Decode(s[4..])
  {
    FirstDigits(s);
    FirstByte(a, if b < 0 then 0 else b / 16);
    if b < 0 {
      assert s[2..][0] == PAD;
    } else {
      LastDigits(s[2..], b / 16);
      SecondByte(b, if c < 0 then 0 else c / 64);
      assert s[2..][2..] == s[4..];
    }
  }

  lemma DecodeQuad(a: Byte, b: MaybeByte, c: MaybeByte, rest: seq<Byte>)
    requires b < 0 ==> c < 0
    ensures Decode(Quad(a, b, c) + rest) ==
      if b < 0 then [a] else if c < 0 then [a, b] else [a, b, c] + Decode(rest)
  {
    var s := Quad(a, b, c) + rest;
    assert s[4..] == rest;
    DecodeDigits(s, a, b, c);
  }

  /** Decoding undoes encoding, for any bytes. */
  lemma {:induction false} DecodeEncode(data: seq<Byte>)
    ensures Decode(Encode(data)) == data
  {
    if |data| == 0 {
    } else if |data| == 1 {
      DecodeQuad(data[0], -1, -1, []);
      assert Quad(data[0], -1, -1) + [] == Encode(data);
    } else if |data| == 2 {
      DecodeQuad(data[0], data[1], -1, []);
      assert Quad(data[0], data[1], -1) + [] == Encode(data);
    } else {
      DecodeQuad(data[0], data[1], data[2], Encode(data[3..]));
      DecodeEncode(data[3..]);
    }
  }

  // ---------------------------------------------------------------------
  // The in-place decoder
  // ---------------------------------------------------------------------

  /** The number of values of the 32-bit accumulator. */
  const WRAP := 0x1_0000_0000

  /** The low bits of the accumulator are the bits carried over. */
  predicate Holds(value: int, left: int, bits: int) {
    && 0 <= value < WRAP && Carry(left, bits)
    && (bits == 2 ==> value % 4 == left)
    && (bits == 4 ==> value % 16 == left)
    && (bits == 6 ==> value % 64 == left)
  }

  /** `(value << 6) | v` in 32 bits; `lost` counts what was shifted out at the top. */
  method ShiftLeft(value: int, v: int) returns (shifted: int, ghost lost: int)
    requires 0 <= value < WRAP && 0 <= v < 64
    ensures 0 <= shifted < WRAP && shifted == value * 64 + v - WRAP * lost
  {
    shifted := (value * 64 + v) % WRAP;
    lost := (value * 64 + v) / WRAP;
  }

  /** The byte written when `bits` (at least eight) bits are held. */
  function Emitted(value: int, bits: int): (b: Byte) {
    (match bits
     case 8 => value
     case 10 => value / 4
     case _ => value / 16) % 256
  }

  // A multiple of a power of two above the low bits does not disturb them.

  lemma Above0(x: int, r: int, v: int)
    requires x == 64 * r + v && 0 <= v < 64
    ensures x % 64 == v
  {
  }

  lemma Above2(x: int, r: int, total: int)
    requires x == 256 * r + total && 0 <= total < 256
    ensures x % 256 == total
  {
  }

  lemma By4(x: int, q: int, m: int)
    requires x == 4 * q + m && 0 <= m < 4
    ensures x / 4 == q && x % 4 == m
  {
  }

  lemma By16(x: int, q: int, m: int)
    requires x == 16 * q + m && 0 <= m < 16
    ensures x / 16 == q && x % 16 == m
  {
  }

  lemma Above4(x: int, r: int, left: int, v: int)
    requires x == 1024 * r + (left * 64 + v) && 0 <= left < 16 && 0 <= v < 64
    ensures (x / 4) % 256 == (left * 64 + v) / 4 && x % 4 == v % 4
  {
    var q, m := v / 4, v % 4;
    By4(x, 256 * r + 16 * left + q, m);
    By4(left * 64 + v, 16 * left + q, m);
    Above2(256 * r + 16 * left + q, r, 16 * left + q);
  }

  lemma Above16(x: int, r: int, left: int, v: int)
    requires x == 4096 * r + (left * 64 + v) && 0 <= left < 64 && 0 <= v < 64
    ensures (x / 16) % 256 == (left * 64 + v) / 16 && x % 16 == v % 16
  {
    var q, m := v / 16, v % 16;
    By16(x, 256 * r + 4 * left + q, m);
    By16(left * 64 + v, 4 * left + q, m);
    Above2(256 * r + 4 * left + q, r, 4 * left + q);
  }

  /** What is above the low bits of the shifted accumulator. */
  lemma Above(value: int, left: int, bits: int, v: int, shifted: int, lost: int) returns (r: int)
    requires Holds(value, left, bits) && 0 <= v < 64 && shifted == value * 64 + v - WRAP * lost
    ensures bits == 0 ==> shifted == 64 * r + v
    ensures bits == 2 ==> shifted == 256 * r + (left * 64 + v)
    ensures bits == 4 ==> shifted == 1024 * r + (left * 64 + v)
    ensures bits == 6 ==> shifted == 4096 * r + (left * 64 + v)
  {
    r := match bits
      case 0 => value - 0x400_0000 * lost
      case 2 => value / 4 - 0x100_0000 * lost
      case 4 => value / 16 - 0x40_0000 * lost
      case _ => value / 64 - 0x10_0000 * lost;
  }

  /** One turn of the decoder against one turn of the specification, whatever was
      shifted out at the top. */
  lemma Accumulate(value: int, left: int, bits: int, v: int, shifted: int, lost: int)
    requires Holds(value, left, bits) && 0 <= v < 64
    requires 0 <= shifted < WRAP && shifted == value * 64 + v - WRAP * lost
    ensures Holds(shifted, Rest(left, bits, v).0, Rest(left, bits, v).1)
    ensures bits > 0 ==> Completed(left, bits, v) == [Emitted(shifted, bits + 6)]
  {
    var r := Above(value, left, bits, v, shifted, lost);
    match bits
    case 0 => Above0(shifted, r, v);
    case 2 => Above2(shifted, r, left * 64 + v);
    case 4 => Above4(shifted, r, left, v);
    case _ => Above16(shifted, r, left, v);
  }

  /** What is still to be decoded from a position on, given the bits carried over. */
  type Outlook = (nat, int, int) -> seq<Byte>

  function OutlookOf(text: seq<Byte>): Outlook {
    (input: nat, left: int, bits: int) =>
      if input <= |text| && Carry(left, bits) then DecodeFrom(text[input..], left, bits) else []
  }

  /** Whether one character leads from one outlook to the next. */
  ghost predicate Leads(outlook: Outlook, text: seq<Byte>, input: nat, left: int, bits: int) {
    input <= |text| && Carry(left, bits) ==>
      if input == |text| || text[input] == PAD then outlook(input, left, bits) == []
      else
        var v := Value(text[input]);
        outlook(input, left, bits) ==
          Completed(left, bits, v) + outlook(input + 1, Rest(left, bits, v).0, Rest(left, bits, v).1)
  }

  ghost predicate Lawful(outlook: Outlook, text: seq<Byte>) {
    forall input: nat, left: int, bits: int {:trigger Leads(outlook, text, input, left, bits)} ::
      Leads(outlook, text, input, left, bits)
  }

  lemma OutlookLeads(text: seq<Byte>, input: nat, left: int, bits: int)
    ensures Leads(OutlookOf(text), text, input, left, bits)
  {
    if input < |text| {
      assert text[input..][1..] == text[input + 1..];
    }
  }

  lemma OutlookLawful(text: seq<Byte>)
    ensures Lawful(OutlookOf(text), text) && OutlookOf(text)(0, 0, 0) == Decode(text)
  {
    forall input: nat, left: int, bits: int
      ensures Leads(OutlookOf(text), text, input, left, bits)
    {
      OutlookLeads(text, input, left, bits);
    }
    assert text[0..] == text;
  }

  /** The body of the decoder's loop: the new accumulator, and the byte to write or -1. */
  method Absorb(value: int, bits: int, v: int, ghost left: int)
    returns (value': int, bits': int, b: MaybeByte, ghost left': int)
    requires Holds(value, left, bits) && 0 <= v < 64
    ensures (left', bits') == Rest(left, bits, v) && Holds(value', left', bits')
    ensures Completed(left, bits, v) == if b < 0 then [] else [b]
  {
    ghost var lost;
    value', lost := ShiftLeft(value, v);
    Accumulate(value, left, bits, v, value', lost);
    left' := Rest(left, bits, v).0;
    bits' := bits + 6;
    b := -1;
    if bits' >= 8 {
      b := Emitted(value', bits');
      bits' := bits' - 8;
    }
  }

  /** Writes the byte, if there is one, behind the output. */
  method Emit(base64: array<Byte>, at: nat, b: MaybeByte) returns (length: nat)
    requires at < base64.Length
    modifies base64
    ensures length == if b < 0 then at else at + 1
    ensures base64[..length] == old(base64[..at]) + if b < 0 then [] else [b]
    ensures forall i :: length <= i < base64.Length ==> base64[i] == old(base64[i])
  {
    length := at;
    if b >= 0 {
      base64[length] := b;
      length := length + 1;
    }
  }

  /** One turn of the decoder's loop: what has been written and what is to come stay the
      same together. */
  method DecodeNext(base64: array<Byte>, length: nat, input: nat, value: int, bits: int, ghost left: int,
                    ghost text: seq<Byte>, ghost outlook: Outlook)
    returns (length': nat, value': int, bits': int, ghost left': int)
    requires length <= input < |text| && input < base64.Length && base64[input] == text[input] != PAD
    requires Holds(value, left, bits) && Leads(outlook, text, input, left, bits)
    modifies base64
    ensures length <= length' <= input + 1 && Holds(value', left', bits')
    ensures base64[..length'] + outlook(input + 1, left', bits') == old(base64[..length]) + outlook(input, left, bits)
    ensures forall i :: length' <= i < base64.Length ==> base64[i] == old(base64[i])
  {
    ghost var out, more := base64[..length], Completed(left, bits, Value(base64[input]));
    var b;
    value', bits', b, left' := Absorb(value, bits, Value(base64[input]), left);
    ghost var rest := outlook(input + 1, left', bits');
    assert out + (more + rest) == (out + more) + rest;
    length' := Emit(base64, length, b);
  }

  /** guac_protocol_decode_base64: the text up to the null byte is replaced by its
      bytes; the output never runs ahead of the input, and nothing behind it changes. */
  method DecodeInPlace(base64: array<Byte>, ghost text: seq<Byte>) returns (length: nat)
    requires |text| < base64.Length && base64[|text|] == 0
    requires forall i :: 0 <= i < |text| ==> base64[i] == text[i] != 0
    modifies base64
    ensures length <= |text| && base64[..length] == Decode(text)
    ensures forall i :: length <= i < base64.Length ==> base64[i] == old(base64[i])
  {
    OutlookLawful(text);
    length := DecodeBy(base64, text, OutlookOf(text));
  }

  method DecodeBy(base64: array<Byte>, ghost text: seq<Byte>, ghost outlook: Outlook) returns (length: nat)
    requires |text| < base64.Length && base64[|text|] == 0 && Lawful(outlook, text)
    requires forall i :: 0 <= i < |text| ==> base64[i] == text[i] != 0
    modifies base64
    ensures length <= |text| && base64[..length] == outlook(0, 0, 0)
    ensures forall i :: length <= i < base64.Length ==> base64[i] == old(base64[i])
  {
    length := 0;
    var input := 0;
    var value, bits := 0, 0;
    ghost var left := 0;
    while base64[input] != 0
      invariant length <= input <= |text| && Holds(value, left, bits)
      invariant forall i :: length <= i < base64.Length ==> base64[i] == old(base64[i])
      invariant base64[..length] + outlook(input, left, bits) == outlook(0, 0, 0)
      decreases |text| - input
    {
      if base64[input] == PAD {
        break;
      }
      assert Leads(outlook, text, input, left, bits);
      length, value, bits, left := DecodeNext(base64, length, input, value, bits, left, text, outlook);
      input := input + 1;
    }
    assert Leads(outlook, text, input, left, bits);
  }
}
