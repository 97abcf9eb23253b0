/** Bytes and the few sequence facts the stream modules share. */
module Bytes {

  type byte = x: int | 0 <= x < 256

  const MAX_SAFE_INTEGER: nat := 9_007_199_254_740_991

  function Min(a: int, b: int): int {
    if a < b then a else b
  }

  function Max(a: int, b: int): int {
    if a < b then b else a
  }

  /** Concatenation of all parts, in order. */
  function Flatten<T>(parts: seq<seq<T>>): seq<T> {
    if parts == [] then [] else parts[0] + Flatten(parts[1..])
  }

  lemma {:induction false} FlattenAppend<T>(a: seq<seq<T>>, b: seq<seq<T>>)
    ensures Flatten(a + b) == Flatten(a) + Flatten(b)
  {
    if a == [] {
      assert a + b == b;
    } else {
      assert (a + b)[1..] == a[1..] + b;
      FlattenAppend(a[1..], b);
    }
  }

  /** Big-endian 16-bit field. */
  function ReadU16(bytes: seq<byte>, offset: nat): nat
    requires offset + 2 <= |bytes|
  {
    var high: int, low: int := bytes[offset], bytes[offset + 1];
    high * 0x100 + low
  }

  /** The two bytes ReadU16 turns back into `value`. */
  function WriteU16(value: nat): (bytes: seq<byte>)
    requires value < 0x1_0000
    ensures |bytes| == 2 && ReadU16(bytes, 0) == value
  {
    [value / 0x100, value % 0x100]
  }

  /** `needle` occurs in `haystack` at index `i`. */
  predicate MatchAt<T(==)>(haystack: seq<T>, needle: seq<T>, i: int) {
    0 <= i && i + |needle| <= |haystack| && haystack[i..i + |needle|] == needle
  }

  lemma MatchAtExtends<T>(haystack: seq<T>, more: seq<T>, needle: seq<T>, i: int)
    requires i + |needle| <= |haystack|
    ensures MatchAt(haystack + more, needle, i) == MatchAt(haystack, needle, i)
  {
    if 0 <= i {
      assert (haystack + more)[i..i + |needle|] == haystack[i..i + |needle|];
    }
  }
}
