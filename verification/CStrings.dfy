/** C strings, and the NUL-terminated character buffers that hold them. */
module CStrings {

  type Byte = b: int | 0 <= b < 256

  /** The characters of a C string: one byte each, none of them the terminator. */
  predicate IsCString(s: string) {
    forall i :: 0 <= i < |s| ==> '\0' < s[i] && (s[i] as int) < 256
  }

  /** The C string held by a buffer: the characters before the first NUL. */
  function CStr(buffer: seq<char>): string {
    if |buffer| == 0 || buffer[0] == '\0' then [] else [buffer[0]] + CStr(buffer[1..])
  }

  /** A terminator at position n, and none before it, cuts the buffer at n. */
  lemma {:induction false} CStrCut(buffer: seq<char>, n: nat)
    requires n < |buffer| && buffer[n] == '\0'
    requires forall i :: 0 <= i < n ==> buffer[i] != '\0'
    ensures CStr(buffer) == buffer[..n]
  {
    if n > 0 {
      CStrCut(buffer[1..], n - 1);
      assert buffer[..n] == [buffer[0]] + buffer[1..][..n - 1];
    }
  }

  lemma CStringConcat(a: string, b: string)
    requires IsCString(a) && IsCString(b)
    ensures IsCString(a + b)
  {
  }
}
