/** Character classes and `str.lower()` as the keyword code uses them. */
module Text {

  predicate IsAsciiUpper(c: char) { 'A' <= c <= 'Z' }

  predicate IsAsciiLower(c: char) { 'a' <= c <= 'z' }

  predicate IsAsciiLetter(c: char) { IsAsciiUpper(c) || IsAsciiLower(c) }

  /** The characters of the regex class `\w` in the ASCII range. */
  predicate IsAsciiWordChar(c: char) {
    IsAsciiLetter(c) || ('0' <= c <= '9') || c == '_'
  }

  /** `str.lower()` on one character, for the ASCII range. */
  function LowerChar(c: char): (r: char)
    ensures !IsAsciiUpper(r)
    ensures IsAsciiLetter(c) <==> IsAsciiLetter(r)
    ensures IsAsciiWordChar(c) <==> IsAsciiWordChar(r)
    ensures IsAsciiUpper(c) ==> r as int == c as int + 32
    ensures !IsAsciiUpper(c) ==> r == c
  {
    if IsAsciiUpper(c) then (c as int + 32) as char else c
  }

  /** `str.lower()`: maps every ASCII capital to its small letter. */
  function Lower(s: string): (r: string)
    ensures |r| == |s|
    ensures forall i :: 0 <= i < |r| ==> r[i] == LowerChar(s[i])
  {
    if s == [] then [] else [LowerChar(s[0])] + Lower(s[1..])
  }

  predicate NoAsciiUpper(s: string) {
    forall i :: 0 <= i < |s| ==> !IsAsciiUpper(s[i])
  }

  /** Lowering works character by character from the front. */
  lemma LowerCons(c: char, s: string)
    ensures Lower([c] + s) == [LowerChar(c)] + Lower(s)
  {
    assert ([c] + s)[1..] == s;
  }

  /** Joining two strings without capitals gives none. */
  lemma NoAsciiUpperConcat(s: string, t: string)
    requires NoAsciiUpper(s) && NoAsciiUpper(t)
    ensures NoAsciiUpper(s + t)
  {
    forall i | 0 <= i < |s + t| ensures !IsAsciiUpper((s + t)[i]) {
      if i >= |s| {
        assert (s + t)[i] == t[i - |s|];
      }
    }
  }

  /** A string without capitals is unchanged by lowering. */
  lemma LowerOfLowercase(s: string)
    requires NoAsciiUpper(s)
    ensures Lower(s) == s
  {
  }
}
