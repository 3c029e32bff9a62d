/** UTF-8 helpers (src/libguac/unicode.c; section 3 of RFC 3629). */
module Unicode {

  type Byte = x: int | 0 <= x < 256

  /** guac_utf8_charsize: the size announced by the first byte of a character.
      Bytes that cannot start a character count as one. */
  function CharSize(c: Byte): (size: int)
    ensures 1 <= size <= 4
  {
    if c <= 0x7F then 1
    else if 0xC0 <= c <= 0xDF then 2
    else if 0xE0 <= c <= 0xEF then 3
    else if 0xF0 <= c <= 0xF7 then 4
    else 1
  }

  /** The masks of the source select exactly those ranges. */
  lemma MasksAreRanges(c: bv8)
    ensures (c | 0x7F) == 0x7F <==> c <= 0x7F
    ensures (c | 0x1F) == 0xDF <==> 0xC0 <= c <= 0xDF
    ensures (c | 0x0F) == 0xEF <==> 0xE0 <= c <= 0xEF
    ensures (c | 0x07) == 0xF7 <==> 0xF0 <= c <= 0xF7
  {
  }

  /** Number of characters met when stepping through `s` by announced sizes; a last
      character cut short by the end of the string still counts. */
  function Characters(s: seq<Byte>): nat {
    if s == [] then 0
    else if |s| <= CharSize(s[0]) then 1
    else 1 + Characters(s[CharSize(s[0])..])
  }

  /** The steps land exactly on the end of the string. Every well-formed UTF-8
      string is whole. */
  predicate Whole(s: seq<Byte>) {
    s == [] || (CharSize(s[0]) <= |s| && Whole(s[CharSize(s[0])..]))
  }

  /** guac_utf8_strlen counts by skipping, byte by byte. */
  method Strlen(s: seq<Byte>) returns (length: nat)
    ensures length == Characters(s)
  {
    length := 0;
    var skip := 0;
    var i := 0;
    while i < |s|
      invariant 0 <= i <= |s| && 0 <= skip
      invariant i + skip <= |s| ==> length + Characters(s[i + skip..]) == Characters(s)
      invariant i + skip > |s| ==> length == Characters(s)
    {
      if skip > 0 {
        skip := skip - 1;
      } else {
        skip := CharSize(s[i]) - 1;
        length := length + 1;
        assert s[i..][0] == s[i];
        if i + 1 + skip <= |s| {
          assert s[i..][CharSize(s[i])..] == s[i + 1 + skip..];
        }
      }
      i := i + 1;
    }
  }
}
