/** Octets and the unsigned 32-bit arithmetic of the target. */
module Bytes {

  type byte = b: int | 0 <= b < 0x100

  const TWO_TO_32: int := 0x1_0000_0000

  type uint32 = x: int | 0 <= x < 0x1_0000_0000

  /** The C operators on uint32_t: the exact result modulo 2^32. */
  function Add32(a: uint32, b: uint32): uint32 {
    (a + b) % 0x1_0000_0000
  }

  function Sub32(a: uint32, b: uint32): uint32 {
    (a - b) % 0x1_0000_0000
  }

  function Min(a: int, b: int): int {
    if a <= b then a else b
  }

  datatype Option<+T> = None | Some(value: T)
  {
    function GetOr(default: T): T {
      if Some? then value else default
    }
  }

  /** Splitting a prefix that is itself a concatenation. */
  lemma PrefixSplit<T>(a: seq<T>, b: seq<T>, s: seq<T>)
    requires a + b <= s
    ensures a <= s
    ensures b <= s[|a|..]
  {
    assert (a + b)[..|a|] == a;
    assert (a + b)[|a|..] == b;
    assert s[..|a + b|] == a + b;
    assert s[|a|..|a + b|] == s[..|a + b|][|a|..];
  }

  lemma PrefixJoin<T>(a: seq<T>, b: seq<T>, s: seq<T>)
    requires a <= s
    requires b <= s[|a|..]
    ensures a + b <= s
  {
    assert s == a + s[|a|..];
  }

  lemma SliceOfSlice<T>(s: seq<T>, a: nat, b: nat, k: nat)
    requires a + k <= b <= |s|
    ensures s[a..b][..k] == s[a..a + k]
  {
  }

  lemma SliceOfDrop<T>(s: seq<T>, d: nat, a: nat, b: nat)
    requires a <= b && d + b <= |s|
    ensures s[d..][a..b] == s[d + a..d + b]
  {
  }

  lemma SliceOfTake<T>(s: seq<T>, k: nat, a: nat, b: nat)
    requires a <= b <= k <= |s|
    ensures s[..k][a..b] == s[a..b]
  {
  }
}
