/** Byte strings and the little-endian words in them. */
module LittleEndian {
  import opened Basics

  type Bytes = seq<Byte>
  type U32 = x: int | 0 <= x < 0x1_0000_0000

  function ZeroBytes(n: nat): (s: Bytes)
    ensures |s| == n && forall k :: 0 <= k < n ==> s[k] == 0
  {
    seq(n, _ => 0)
  }

  /** `d` written over the bytes of `s` from `at` on. */
  function Splice(s: Bytes, at: nat, d: Bytes): (r: Bytes)
    requires at + |d| <= |s|
    ensures |r| == |s|
    ensures forall k :: 0 <= k < |s| ==> r[k] == if at <= k < at + |d| then d[k - at] else s[k]
  {
    seq(|s|, k requires 0 <= k < |s| => if at <= k < at + |d| then d[k - at] else s[k])
  }

  function Le(x: U32): (s: Bytes)
    ensures |s| == 4
  {
    [x % 256, x / 256 % 256, x / 65536 % 256, x / 16777216]
  }

  function WordAt(s: Bytes, at: nat): U32
    requires at + 4 <= |s|
  {
    s[at] as int + 256 * s[at + 1] as int + 65536 * s[at + 2] as int + 16777216 * s[at + 3] as int
  }

  lemma LeValue(x: U32)
    ensures x == x % 256 + 256 * (x / 256 % 256) + 65536 * (x / 65536 % 256) + 16777216 * (x / 16777216)
  {
    assert x / 65536 == x / 256 / 256 && x / 16777216 == x / 65536 / 256;
  }

  lemma LeRoundTrip(x: U32, s: Bytes, at: nat)
    requires at + 4 <= |s| && s[at..at + 4] == Le(x)
    ensures WordAt(s, at) == x
  {
    var b := Le(x);
    assert b[0] == s[at..at + 4][0] && b[1] == s[at..at + 4][1] && b[2] == s[at..at + 4][2] && b[3] == s[at..at + 4][3];
    LeValue(x);
    assert b[0] == s[at] && b[1] == s[at + 1] && b[2] == s[at + 2] && b[3] == s[at + 3];
  }
}
