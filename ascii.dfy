/** ASCII character classes and lower-casing, as the user record's rules apply
    them: `\w`, `\d` and `[a-z]` under the case-insensitive flag of the email
    pattern, the whitespace of the blank test behind `presence: true`, and
    `String#downcase`. A character outside ASCII belongs to none of these
    classes and is left unchanged by lower-casing. */
module Ascii {

  predicate IsUpper(c: char) { 'A' <= c <= 'Z' }

  predicate IsLower(c: char) { 'a' <= c <= 'z' }

  /** `[a-z]` under the `/i` flag */
  predicate IsLetter(c: char) { IsUpper(c) || IsLower(c) }

  /** `\d` */
  predicate IsDigit(c: char) { '0' <= c <= '9' }

  /** `\w`: letters, digits and the underscore */
  predicate IsWordChar(c: char) { IsLetter(c) || IsDigit(c) || c == '_' }

  /** `[[:space:]]` on ASCII: space, tab, line feed, vertical tab, form feed, carriage return */
  predicate IsSpace(c: char) {
    c == ' ' || c == '\t' || c == '\n' || c == '\U{B}' || c == '\U{C}' || c == '\r'
  }

  /** Lower-cases one character: an upper-case letter becomes its lower-case
      partner, every other character stays as it is. */
  function LowerChar(c: char): (r: char)
    ensures !IsUpper(r)
    ensures IsLetter(r) <==> IsLetter(c)
    ensures !IsUpper(c) ==> r == c
    ensures IsUpper(c) ==> r as int - 'a' as int == c as int - 'A' as int
  {
    if IsUpper(c) then (c as int - 'A' as int + 'a' as int) as char else c
  }

  /** `String#downcase`: the character-by-character lower-casing of `s`. */
  function Lower(s: string): (r: string)
    ensures |r| == |s| && IsLowercase(r)
  {
    seq(|s|, k requires 0 <= k < |s| => LowerChar(s[k]))
  }

  /** No upper-case letter is left after lower-casing. */
  predicate IsLowercase(s: string) { forall k | 0 <= k < |s| :: !IsUpper(s[k]) }

  lemma LowerIsLowercase(s: string)
    ensures IsLowercase(Lower(s))
    ensures IsLowercase(s) <==> Lower(s) == s
  {
    if IsLowercase(s) {
      assert forall k | 0 <= k < |s| :: Lower(s)[k] == s[k];
    }
    if Lower(s) == s {
      assert forall k | 0 <= k < |s| :: !IsUpper(Lower(s)[k]);
    }
  }

  /** Lower-casing twice is lower-casing once. */
  lemma LowerIdempotent(s: string)
    ensures Lower(Lower(s)) == Lower(s)
  {
    LowerIsLowercase(s);
    LowerIsLowercase(Lower(s));
  }
}
