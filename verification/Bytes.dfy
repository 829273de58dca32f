/** Bytes, and one text at the end of another. */
module Bytes {
  type Byte = b: nat | b < 256

  predicate IsSuffix(a: seq<Byte>, b: seq<Byte>) { |a| <= |b| && forall k :: 0 <= k < |a| ==> a[k] == b[|b|-|a|+k] }

  lemma SuffixTrans(a: seq<Byte>, b: seq<Byte>, c: seq<Byte>)
    requires IsSuffix(a, b) && IsSuffix(b, c)
    ensures IsSuffix(a, c)
  {
  }

  lemma WholeSuffix(a: seq<Byte>, b: seq<Byte>)
    requires IsSuffix(a, b)
    ensures |a| == |b| ==> a == b
  {
  }

  lemma SuffixOfSuffix(a: seq<Byte>, b: seq<Byte>, c: seq<Byte>)
    requires IsSuffix(a, c) && IsSuffix(b, c) && |a| <= |b|
    ensures IsSuffix(a, b)
  {
    assert b == c[|c|-|b|..];
    assert c[|c|-|a|..] == b[|b|-|a|..];
  }

  lemma SuffixAppend(a: seq<Byte>, b: seq<Byte>, c: Byte)
    ensures IsSuffix(a + [c], b + [c]) <==> IsSuffix(a, b)
  {
    if |a| <= |b| {
      var d := |b| - |a|;
      assert (b + [c])[d..] == b[d..] + [c];
      if a + [c] == b[d..] + [c] { assert a == (a + [c])[..|a|] == (b[d..] + [c])[..|a|]; }
    }
  }

  lemma SuffixOn(a: seq<Byte>, b: seq<Byte>, c: seq<Byte>)
    requires IsSuffix(a, b)
    ensures IsSuffix(a + c, b + c)
  {
  }

  /** What is at the end of an end, and of what came after it. */
  lemma SuffixChain(a: seq<Byte>, b: seq<Byte>, c: seq<Byte>, d: seq<Byte>, e: seq<Byte>)
    requires IsSuffix(a, b + e) && IsSuffix(b, c + d)
    ensures IsSuffix(a, c + (d + e))
  {
    SuffixOn(b, c + d, e);
    SuffixTrans(a, b + e, (c + d) + e);
    assert (c + d) + e == c + (d + e);
  }
}
