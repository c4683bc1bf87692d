/** Character buffers that hold a C string: the text before the first NUL. */
module CStrings {
  const NUL: char := '\0'

  /** `strlen`, capped at the end of the buffer. */
  function StrLen(b: seq<char>): (n: nat)
    ensures n <= |b|
    ensures NUL !in b[..n]
    ensures n < |b| ==> b[n] == NUL
  {
    if b == [] || b[0] == NUL then 0
    else
      var n := 1 + StrLen(b[1..]);
      assert b[..n] == [b[0]] + b[1..][..n - 1];
      n
  }

  /** The string a `char *` to the start of the buffer denotes. */
  function Text(b: seq<char>): (t: string)
    ensures NUL !in t
  {
    b[..StrLen(b)]
  }

  lemma {:induction false} StrLenUnique(b: seq<char>, n: nat)
    requires n <= |b| && NUL !in b[..n]
    requires n < |b| ==> b[n] == NUL
    ensures StrLen(b) == n && Text(b) == b[..n]
  {
    if n > 0 {
      assert b[0] in b[..n];
      assert b[..n][1..] == b[1..][..n - 1];
      StrLenUnique(b[1..], n - 1);
    }
  }

  lemma NoNulBefore(b: seq<char>)
    ensures forall k :: 0 <= k < StrLen(b) ==> b[k] != NUL
  {
    forall k | 0 <= k < StrLen(b)
      ensures b[k] != NUL
    {
      assert b[k] in b[..StrLen(b)];
    }
  }

  /** `strlen` of a buffer. */
  method StrLenOf(src: array<char>) returns (n: nat)
    requires NUL in src[..]
    ensures n == StrLen(src[..]) < src.Length
  {
    NoNulBefore(src[..]);
    n := 0;
    while src[n] != NUL
      invariant n <= StrLen(src[..]) < src.Length
      decreases src.Length - n
    {
      n := n + 1;
    }
  }

  lemma Assoc(a: string, b: string, c: string)
    ensures a + b + c == a + (b + c)
  {
  }
}
