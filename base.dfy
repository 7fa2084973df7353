/** Byte strings and the few primitives of Go's standard library the decoder relies on. */
module Base {

  /** A Go `byte`. */
  newtype byte = x: int | 0 <= x < 256

  /** A Go `[]byte` or `string`: both are byte sequences. */
  type Bytes = seq<byte>

  const Quote: byte := 34       // '"'
  const Comma: byte := 44       // ','
  const Colon: byte := 58       // ':'
  const OpenBrace: byte := 123  // '{'
  const CloseBrace: byte := 125 // '}'

  datatype Option<T> = None | Some(value: T)

  function Max(a: int, b: int): int {
    if a < b then b else a
  }

  /** `strings.Index(s, string(c))`: the position of the first `c` in `s`, or -1. */
  function IndexByte(s: Bytes, c: byte): (r: int)
    ensures -1 <= r < |s|
    ensures r == -1 <==> c !in s
    ensures r >= 0 ==> s[r] == c && c !in s[..r]
  {
    if s == [] then -1
    else if s[0] == c then 0
    else
      var j := IndexByte(s[1..], c);
      assert s == [s[0]] + s[1..];
      if j == -1 then -1
      else
        assert s[..j + 1] == [s[0]] + s[1..][..j];
        j + 1
  }

  /** The number of occurrences of `c` in `s`. */
  function Count(s: Bytes, c: byte): (r: nat)
    ensures r <= |s|
    ensures r == 0 <==> c !in s
    decreases |s|
  {
    if s == [] then 0
    else
      assert s == s[..|s| - 1] + [s[|s| - 1]];
      Count(s[..|s| - 1], c) + if s[|s| - 1] == c then 1 else 0
  }

  /** Extending a prefix of `s` by one byte. */
  lemma AppendStep<T>(a: seq<T>, s: seq<T>, i: nat)
    requires i < |s|
    ensures a + s[..i + 1] == (a + s[..i]) + [s[i]]
  {
  }

  /** A suffix of `a + s[..i]` that starts inside `s[..i]`. */
  lemma SliceAfter<T>(a: seq<T>, s: seq<T>, i: nat, j: nat)
    requires j <= i <= |s|
    ensures (a + s[..i])[|a| + j..] == s[j..i]
  {
  }

  /** A slice within the first `n` elements is a slice of the prefix. */
  lemma SliceOfPrefix<T>(s: seq<T>, n: nat, j: nat, i: nat)
    requires j <= i <= n <= |s|
    ensures s[j..i] == s[..n][j..i]
  {
  }

  /** Keeping a longer prefix keeps a shorter one. */
  lemma PrefixKept<T>(s0: seq<T>, s1: seq<T>, s2: seq<T>, l0: nat, l1: nat)
    requires l0 <= l1 <= |s1| && l1 <= |s2| && l0 <= |s0|
    requires s1[..l0] == s0[..l0] && s2[..l1] == s1[..l1]
    ensures s2[..l0] == s0[..l0]
  {
    assert s2[..l0] == s2[..l1][..l0];
  }

  lemma ConcatAssoc<T>(a: seq<T>, b: seq<T>, c: seq<T>)
    ensures a + (b + c) == (a + b) + c
  {
  }

  /** Splitting a pair inside a concatenation. */
  lemma Regroup<T>(t: seq<T>, a: T, b: T, u: seq<T>)
    ensures (t + [a, b]) + u == (t + [a]) + ([b] + u)
  {
  }
}
