/** The filename sanitizer of the download service (sanitize_filename in app.py).

    A name is rewritten by three passes, applied in this order:
    1. each of the nine characters < > : " / \ | ? * becomes '_';
    2. each maximal run of characters above code point 0x7F becomes one '_';
    3. each space becomes '_'.

    Strings are sequences of Unicode scalar values, as Python's `str` is a
    sequence of code points.
 */
module Filename {

  /** The character every pass writes in place of what it removes. */
  const Underscore: char := '_'

  /** The nine characters of the first pass's character class. */
  predicate IsReserved(c: char) {
    c == '<' || c == '>' || c == ':' || c == '"' || c == '/'
    || c == '\\' || c == '|' || c == '?' || c == '*'
  }

  /** Code points 0x00..0x7F; the second pass targets everything else. */
  predicate IsAscii(c: char) {
    c as int <= 0x7F
  }

  predicate IsSpace(c: char) {
    c == ' '
  }

  /** A character that none of the three passes would touch. */
  predicate IsCleanChar(c: char) {
    IsAscii(c) && !IsReserved(c) && !IsSpace(c)
  }

  predicate AllAscii(s: string) {
    forall i :: 0 <= i < |s| ==> IsAscii(s[i])
  }

  predicate Clean(s: string) {
    forall i :: 0 <= i < |s| ==> IsCleanChar(s[i])
  }

  /** Pass 1: every reserved character becomes '_', everything else stays. */
  function ReplaceReserved(s: string): (r: string)
    ensures |r| == |s|
    ensures forall i :: 0 <= i < |s| ==>
              r[i] == (if IsReserved(s[i]) then Underscore else s[i])
  {
    if |s| == 0 then []
    else [if IsReserved(s[0]) then Underscore else s[0]] + ReplaceReserved(s[1..])
  }

  /** The length of the maximal run of non-ASCII characters at the front of s. */
  function NonAsciiRunLength(s: string): (k: nat)
    ensures k <= |s|
    ensures forall i :: 0 <= i < k ==> !IsAscii(s[i])
    ensures k < |s| ==> IsAscii(s[k])
  {
    if |s| == 0 || IsAscii(s[0]) then 0
    else 1 + NonAsciiRunLength(s[1..])
  }

  /** Pass 2: every maximal run of non-ASCII characters becomes a single '_'. */
  function CollapseNonAscii(s: string): (r: string)
    ensures |r| <= |s|
    ensures AllAscii(r)
    ensures forall i :: 0 <= i < |r| ==> r[i] == Underscore || r[i] in s
    decreases |s|
  {
    if |s| == 0 then []
    else if IsAscii(s[0]) then [s[0]] + CollapseNonAscii(s[1..])
    else [Underscore] + CollapseNonAscii(s[NonAsciiRunLength(s)..])
  }

  /** Pass 3: every space becomes '_', everything else stays. */
  function ReplaceSpaces(s: string): (r: string)
    ensures |r| == |s|
    ensures forall i :: 0 <= i < |s| ==>
              r[i] == (if IsSpace(s[i]) then Underscore else s[i])
  {
    if |s| == 0 then []
    else [if IsSpace(s[0]) then Underscore else s[0]] + ReplaceSpaces(s[1..])
  }

  /** sanitize_filename: the three passes in source order. The result holds
      no reserved character (so no path separator), no character above 0x7F
      and no space, and is never longer than the input. */
  function Sanitize(s: string): (r: string)
    ensures Clean(r)
    ensures |r| <= |s|
  {
    ReplaceSpaces(CollapseNonAscii(ReplaceReserved(s)))
  }
}
