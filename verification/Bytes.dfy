/** Byte strings and the few sequence operations the wire and log formats share. */
module Bytes {
  newtype byte = b: int | 0 <= b < 256

  type bytes = seq<byte>

  const NUL: byte := 0
  const SOH: byte := 1
  const TAB: byte := 9
  const NEWLINE: byte := 10
  const RETURN: byte := 13

  /** Position of the first `c` in `s`, or -1: `bytes.find` with a one-byte needle. */
  function Find<T(==)>(s: seq<T>, c: T): (r: int)
    ensures -1 <= r < |s|
    ensures r < 0 ==> c !in s
    ensures r >= 0 ==> s[r] == c && c !in s[..r]
  {
    if s == [] then -1
    else if s[0] == c then 0
    else
      var r := Find(s[1..], c);
      if r < 0 then -1 else r + 1
  }

  /** `Find` gives the only position with these two properties. */
  lemma {:induction false} FindIs<T>(s: seq<T>, c: T, r: nat)
    requires r < |s| && s[r] == c && c !in s[..r]
    ensures Find(s, c) == r
  {
    if r > 0 {
      assert s[..r][0] == s[0] && s[1..][..r - 1] == s[..r][1..];
      FindIs(s[1..], c, r - 1);
    }
  }

  lemma Assoc<T>(a: seq<T>, b: seq<T>, c: seq<T>)
    ensures a + b + c == a + (b + c)
  {
  }

  function Flatten<T>(ss: seq<seq<T>>): seq<T> {
    if ss == [] then [] else ss[0] + Flatten(ss[1..])
  }
}
