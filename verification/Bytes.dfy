/** Bytes, 32-bit words in network byte order, and flattening of chunk lists. */
module Bytes {

  type byte = x: int | 0 <= x < 0x100
  type bytes = seq<byte>
  type uint32 = x: int | 0 <= x < 0x1_0000_0000

  datatype Option<+T> = None | Some(value: T)

  /** `htobe32` followed by the copy of its four bytes. */
  function Put32(v: uint32): (r: bytes)
    ensures |r| == 4 && r[0] == v / 0x100_0000 && r[3] == v % 0x100
  {
    [v / 0x100_0000, v / 0x1_0000 % 0x100, v / 0x100 % 0x100, v % 0x100]
  }

  /** Four bytes read back with `be32toh`. */
  function Get32(s: bytes): (r: uint32)
    requires |s| == 4
  {
    s[0] as int * 0x100_0000 + s[1] as int * 0x1_0000 + s[2] as int * 0x100 + s[3]
  }

  /** Reinterpretation of an unsigned word as `int32_t`. */
  function ToInt32(v: uint32): (r: int)
    ensures -0x8000_0000 <= r < 0x8000_0000
    ensures (r - v) % 0x1_0000_0000 == 0
  {
    if v < 0x8000_0000 then v else v - 0x1_0000_0000
  }

  /** The two directions of the word format undo each other. */
  lemma WordRoundTrip(v: uint32)
    ensures Get32(Put32(v)) == v
  {
    var a, b := v / 0x100, v / 0x1_0000;
    assert v == a * 0x100 + v % 0x100;
    assert a == b * 0x100 + a % 0x100 && a / 0x100 == b;
    assert b == (v / 0x100_0000) * 0x100 + b % 0x100;
  }

  lemma BytesRoundTrip(s: bytes)
    requires |s| == 4
    ensures Put32(Get32(s)) == s
  {
    var w := Get32(s);
    assert w / 0x100_0000 == s[0];
    assert w / 0x1_0000 == s[0] as int * 0x100 + s[1];
    assert w / 0x100 == s[0] as int * 0x1_0000 + s[1] as int * 0x100 + s[2];
  }

  /** The order of words by their bytes, the first that differs deciding. */
  predicate Before(s: bytes, t: bytes)
    requires |s| == |t| == 4
  {
    || s[0] < t[0]
    || (s[0] == t[0] && s[1] < t[1])
    || (s[0] == t[0] && s[1] == t[1] && s[2] < t[2])
    || (s[0] == t[0] && s[1] == t[1] && s[2] == t[2] && s[3] < t[3])
  }

  /** Network byte order: words compare as their bytes do, most significant first. */
  lemma NetworkOrder(v: uint32, w: uint32)
    ensures v < w <==> Before(Put32(v), Put32(w))
  {
    WordRoundTrip(v);
    WordRoundTrip(w);
    ReadOrder(Put32(v), Put32(w));
  }

  lemma ReadOrder(s: bytes, t: bytes)
    requires |s| == |t| == 4
    ensures Get32(s) < Get32(t) <==> Before(s, t)
  {
  }

  /** Concatenation of a list of byte strings. */
  function Flatten(parts: seq<bytes>): bytes {
    if parts == [] then [] else parts[0] + Flatten(parts[1..])
  }

  lemma {:induction false} FlattenAppend(xs: seq<bytes>, ys: seq<bytes>)
    ensures Flatten(xs + ys) == Flatten(xs) + Flatten(ys)
  {
    if xs == [] {
      assert xs + ys == ys;
    } else {
      assert (xs + ys)[1..] == xs[1..] + ys;
      FlattenAppend(xs[1..], ys);
    }
  }

  lemma FlattenOne(part: bytes)
    ensures Flatten([part]) == part
  {
    assert Flatten([part]) == part + [];
  }
}
