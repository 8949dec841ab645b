/** NUL-terminated strings as the plugin handles them: a `char` stands for one byte, and a
    C string is the bytes before its terminating NUL. */
module CStrings {

  predicate NulFree(s: string) {
    '\0' !in s
  }

  type CString = s: string | NulFree(s) witness ""

  /** What `snprintf` leaves in a buffer of `capacity` bytes: as much of the string as fits before the NUL. */
  function Fit(s: CString, capacity: nat): (r: CString)
    requires 0 < capacity
    ensures r <= s
    ensures |r| == if |s| < capacity then |s| else capacity - 1
  {
    if |s| < capacity then s else s[..capacity - 1]
  }

  /** Where the character first occurs, or the length of the string. */
  function IndexOf(s: string, c: char): (n: nat)
    ensures n <= |s| && c !in s[..n]
    ensures n < |s| ==> s[n] == c
  {
    if s == "" || s[0] == c then 0
    else
      var n := IndexOf(s[1..], c);
      assert s[..1 + n] == [s[0]] + s[1..][..n];
      1 + n
  }

  lemma {:induction false} IndexOfFirst(front: string, rest: string, c: char)
    requires c !in front
    requires rest == "" || rest[0] == c
    ensures IndexOf(front + rest, c) == |front|
  {
    if front != "" {
      assert (front + rest)[1..] == front[1..] + rest;
      IndexOfFirst(front[1..], rest, c);
    }
  }
}
