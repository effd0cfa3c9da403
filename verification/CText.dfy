/**
 C strings. A byte is a `char` and a NUL-terminated buffer is a `string` whose last
 character is NUL. Every statement of the project holds for all characters, so in
 particular for those with a code below 256.
 */
module CText {

  const NUL: char := '\0'

  // What a C function sees of a buffer: everything before the first NUL.
  function CString(buffer: string): (s: string)
    ensures |s| <= |buffer| && s == buffer[..|s|]
    ensures NUL !in s
    ensures |s| < |buffer| ==> buffer[|s|] == NUL
  {
    if buffer == "" || buffer[0] == NUL then "" else [buffer[0]] + CString(buffer[1..])
  }

  lemma {:induction false} CStringOfTerminated(s: string, tail: string)
    requires NUL !in s
    ensures CString(s + [NUL] + tail) == s
  {
    if s == "" {
      assert (s + [NUL] + tail)[0] == NUL;
    } else {
      assert (s + [NUL] + tail)[1..] == s[1..] + [NUL] + tail;
      CStringOfTerminated(s[1..], tail);
    }
  }

  ghost predicate Terminated(t: string) {
    t != "" && t[|t| - 1] == NUL
  }
}
