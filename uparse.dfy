/** Definitions shared by the whole library: the error codes of uparse.h and
    the character notions the parser relies on. */
module Uparse {

  /** The two values an error out-parameter can take (uparse.h:11-12). */
  const NoUparseError: nat := 0
  const UparseError: nat := 1

  /** The characters of a NUL-terminated C string, without its terminator:
      reading `*c == '\0'` is reaching the end of the sequence. Each `char`
      stands for one byte, so `strlen` is the length of the sequence. */
  predicate IsCString(s: string) {
    forall i :: 0 <= i < |s| ==> s[i] != '\0'
  }

  /** `isalpha` in the "C" locale: the 52 ASCII letters. */
  predicate IsAlpha(c: char): (b: bool)
    ensures b ==> 'A' <= c <= 'z' && c != '\0' && c != ':' && c != '/'
  {
    ('A' <= c <= 'Z') || ('a' <= c <= 'z')
  }
}
