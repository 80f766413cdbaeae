/**
 Character classes used by the identifier normaliser (app/util/strToIdentifier.js).

 A Dafny `char` is a Unicode scalar value while JavaScript indexes a string by
 UTF-16 code units; the difference is invisible here because only ASCII
 characters are ever kept, and every other character is dropped either way.
 */
module CharClass {

  predicate IsUpper(c: char) { 'A' <= c <= 'Z' }

  predicate IsLower(c: char) { 'a' <= c <= 'z' }

  /** The class matched by the regular expression `/[A-Za-z]/`. */
  predicate IsAsciiLetter(c: char) { IsUpper(c) || IsLower(c) }

  /**
   The characters that start or continue a separator run.

   As shipped, the condition on line 6 reads `str[i] === ' ' || || str[i] === '-'`,
   which is a JavaScript syntax error, so the file does not parse. This model
   assumes the evident intent: the separators are exactly '_', ' ' and '-'.
   */
  function IsSeparator(c: char): (r: bool)
    ensures r ==> !IsAsciiLetter(c) && c as int < 128
  {
    c == '_' || c == ' ' || c == '-'
  }

  /** `toLowerCase()` restricted to ASCII letters, the only characters it is applied to. */
  function ToLower(c: char): (l: char)
    requires IsAsciiLetter(c)
    ensures IsLower(l)
    ensures IsLower(c) ==> l == c
    ensures IsUpper(c) ==> l as int == c as int + ('a' as int - 'A' as int)
  {
    if IsUpper(c) then (c as int - 'A' as int + 'a' as int) as char else c
  }
}
