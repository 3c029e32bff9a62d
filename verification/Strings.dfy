/** Bounded copying, appending and joining of strings (src/libguac/string.c).

    A string is a sequence of characters without its null terminator; a buffer is an
    array of characters.
  */
module Strings {

  const NUL := '\0'

  function Min(a: nat, b: nat): (m: nat)
    ensures m <= a && m <= b && (m == a || m == b)
  {
    if a < b then a else b
  }

  /** Whether the buffer holds, in its `n` bytes from `at` on, as much of `s` as fits
      before a terminator. */
  ghost predicate Holds(buffer: seq<char>, at: nat, s: string, n: nat) {
    n > 0 ==>
      && at + n <= |buffer|
      && (forall j :: 0 <= j < Min(|s|, n - 1) ==> buffer[at + j] == s[j])
      && buffer[at + Min(|s|, n - 1)] == NUL
  }

  /** Whether two buffers differ at most from `at` on, within `n` bytes. */
  ghost predicate SameOutside(before: seq<char>, buffer: seq<char>, at: nat, n: nat) {
    && |buffer| == |before|
    && forall i :: 0 <= i < |buffer| && (i < at || i >= at + n) ==> buffer[i] == before[i]
  }

  /** Copies a string, truncated to what fits, and returns its full length. */
  method Strlcpy(dest: array<char>, at: nat, src: string, n: nat) returns (length: nat)
    requires n > 0 ==> at + n <= dest.Length
    modifies dest
    ensures length == |src| && Holds(dest[..], at, src, n)
    ensures SameOutside(old(dest[..]), dest[..], at, n)
  {
    length := |src|;
    if n == 0 {
      return;
    }
    var copied := length;
    if copied >= n {
      copied := n - 1;
    }
    var j := 0;
    while j < copied
      invariant j <= copied
      invariant forall k :: 0 <= k < j ==> dest[at + k] == src[k]
      invariant SameOutside(old(dest[..]), dest[..], at, n)
    {
      dest[at + j] := src[j];
      j := j + 1;
    }
    dest[at + copied] := NUL;
  }

  /** The length of the string at `at`, or `n` if it has no terminator within `n`. */
  function Strnlen(buffer: seq<char>, at: nat, n: nat): (length: nat)
    requires n > 0 ==> at + n <= |buffer|
    ensures length <= n && (length < n ==> buffer[at + length] == NUL)
    ensures forall j :: at <= j < at + length ==> buffer[j] != NUL
    decreases n
  {
    if n == 0 || buffer[at] == NUL then 0 else 1 + Strnlen(buffer, at + 1, n - 1)
  }

  function Remaining(n: nat, length: nat): nat {
    if n < length then 0 else n - length
  }

  /** Appends a string to the one in the buffer. */
  method Strlcat(dest: array<char>, at: nat, src: string, n: nat) returns (length: nat)
    requires n > 0 ==> at + n <= dest.Length
    modifies dest
    ensures length == old(Strnlen(dest[..], at, n)) + |src|
    ensures Holds(dest[..], at + old(Strnlen(dest[..], at, n)), src, n - old(Strnlen(dest[..], at, n)))
    ensures SameOutside(old(dest[..]), dest[..], at + old(Strnlen(dest[..], at, n)), n - old(Strnlen(dest[..], at, n)))
  {
    var before := Strnlen(dest[..], at, n);
    var copied := Strlcpy(dest, at + before, src, Remaining(n, before));
    length := before + copied;
  }

  /** The elements with a delimiter between each two. */
  function Join(elements: seq<string>, delim: string): string {
    if |elements| == 0 then ""
    else if |elements| == 1 then elements[0]
    else Join(elements[..|elements| - 1], delim) + delim + elements[|elements| - 1]
  }

  /** Appending at the end of what a buffer holds. */
  lemma HoldsAppend(before: seq<char>, after: seq<char>, at: nat, s: string, t: string, n: nat)
    requires Holds(before, at, s, n) && SameOutside(before, after, at + |s|, Remaining(n, |s|))
    requires Holds(after, at + |s|, t, Remaining(n, |s|))
    ensures Holds(after, at, s + t, n)
  {
  }

  /** Appends `t` to the string `s` that a buffer holds, if any room remains. */
  method Append(dest: array<char>, at: nat, ghost s: string, length: nat, t: string, n: nat) returns (total: nat)
    requires n > 0 ==> at + n <= dest.Length
    requires length == |s| && Holds(dest[..], at, s, n)
    modifies dest
    ensures total == length + |t| && Holds(dest[..], at, s + t, n)
    ensures SameOutside(old(dest[..]), dest[..], at, n)
  {
    ghost var before := dest[..];
    var more := Strlcat(dest, at + length, t, Remaining(n, length));
    total := length + more;
    HoldsAppend(before, dest[..], at, s, t, n);
  }

  /** Joins strings; what does not fit is cut off, and the full length is returned. */
  method Strljoin(dest: array<char>, at: nat, elements: seq<string>, delim: string, n: nat) returns (length: nat)
    requires n > 0 ==> at + n <= dest.Length
    modifies dest
    ensures length == |Join(elements, delim)| && Holds(dest[..], at, Join(elements, delim), n)
    ensures SameOutside(old(dest[..]), dest[..], at, n)
  {
    if |elements| == 0 {
      length := Strlcpy(dest, at, "", n);
      return;
    }
    length := Strlcpy(dest, at, elements[0], n);
    assert elements[..1] == [elements[0]];
    var i := 1;
    while i < |elements|
      invariant 1 <= i <= |elements|
      invariant length == |Join(elements[..i], delim)| && Holds(dest[..], at, Join(elements[..i], delim), n)
      invariant SameOutside(old(dest[..]), dest[..], at, n)
    {
      ghost var joined := Join(elements[..i], delim);
      assert elements[..i + 1][..i] == elements[..i];
      length := Append(dest, at, joined, length, delim, n);
      length := Append(dest, at, joined + delim, length, elements[i], n);
      i := i + 1;
    }
    assert elements[..i] == elements;
  }
}
