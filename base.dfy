/** Values shared by the codec modules: bytes, Unicode code points, and the
    outcome of scanning one unit of an encoded byte stream. */
module Base {

  /** An 8-bit value, as held by Python's `bytes`. */
  newtype byte = b: int | 0 <= b < 0x100

  /** A Unicode code point, as held by a Python `str` (lone surrogates included). */
  newtype CodePoint = c: int | 0 <= c < 0x11_0000

  datatype Option<+T> = None | Some(value: T)

  /** The byte `?`, written by the encoders' `replace` error policy. */
  const QuestionMark: byte := 0x3F

  /** U+FFFD, written by the decoders' `replace` error policy. */
  const ReplacementChar: CodePoint := 0xFFFD

  predicate IsSurrogate(c: CodePoint) {
    0xD800 <= c <= 0xDFFF
  }

  /** What a decoder finds at the head of a non-empty byte buffer. */
  datatype Scanned =
    | Char(cp: CodePoint, len: nat)   // a complete character encoded by the first `len` bytes
    | Invalid(len: nat)               // the first `len` bytes can start no character
    | Incomplete                      // the whole buffer is a proper prefix of a character

  /** ASCII lower-casing of one character. */
  function ToLower(c: char): char {
    if 'A' <= c <= 'Z' then (c as int + 32) as char else c
  }

  /** `str.lower()` restricted to ASCII letters (encoding names are ASCII). */
  function Lower(s: string): (r: string)
    ensures |r| == |s|
    ensures forall i :: 0 <= i < |s| ==> r[i] == ToLower(s[i])
  {
    seq(|s|, i requires 0 <= i < |s| => ToLower(s[i]))
  }

  lemma AppendIsAssociative<T>(a: seq<T>, b: seq<T>, c: seq<T>)
    ensures a + (b + c) == (a + b) + c
  {
  }
}
