/**
 * Upper-casing of currency codes, as `String.ToUpper` does it for the ASCII letters:
 * each character is mapped on its own, so the length of the text never changes.
 */
module Text {

  /** Maps 'a'..'z' to 'A'..'Z' and leaves every other character alone. */
  function UpperChar(ch: char): char {
    if 'a' <= ch <= 'z' then (ch as int - 32) as char else ch
  }

  predicate IsLowerLetter(ch: char) {
    'a' <= ch <= 'z'
  }

  /** True when upper-casing `s` leaves it as it is. */
  predicate IsUpperCase(s: string) {
    forall i :: 0 <= i < |s| ==> !IsLowerLetter(s[i])
  }

  /** The upper-case form of `s`, character by character. */
  function ToUpper(s: string): (r: string)
    ensures |r| == |s|
    ensures forall i :: 0 <= i < |s| ==> r[i] == UpperChar(s[i])
    ensures IsUpperCase(r)
  {
    if s == [] then [] else [UpperChar(s[0])] + ToUpper(s[1..])
  }

  /** Text that is already upper case is a fixed point of `ToUpper`. */
  lemma ToUpperOfUpperCase(s: string)
    requires IsUpperCase(s)
    ensures ToUpper(s) == s
  {
    assert forall i :: 0 <= i < |s| ==> ToUpper(s)[i] == s[i];
  }

  /** Upper-casing twice is upper-casing once. */
  lemma ToUpperIdempotent(s: string)
    ensures ToUpper(ToUpper(s)) == ToUpper(s)
  {
    ToUpperOfUpperCase(ToUpper(s));
  }
}
