/** Byte arrays and the two LINQ operators the image sniffer is built from:
    Enumerable.Take and Enumerable.SequenceEqual, both over byte sequences. */
module ByteSequences {

  /** An unsigned 8-bit value, as the runtime's byte. */
  newtype byte = x: int | 0 <= x < 256

  /** The reference notion of "begins with": `prefix` is exactly the first |prefix| bytes of `s`. */
  predicate StartsWith(s: seq<byte>, prefix: seq<byte>)
  {
    |prefix| <= |s| && s[..|prefix|] == prefix
  }

  function Min(a: nat, b: nat): nat
  {
    if a <= b then a else b
  }

  /** Enumerable.Take: yields the first n elements of `s`, or all of `s` when it is shorter;
      it never fails on a short input. */
  function Take(s: seq<byte>, n: nat): (r: seq<byte>)
    ensures |r| == Min(n, |s|)
    ensures StartsWith(s, r)
  {
    if n == 0 || |s| == 0 then []
    else
      var rest := Take(s[1..], n - 1);
      assert s[..1 + |rest|] == [s[0]] + s[1..][..|rest|];
      [s[0]] + rest
  }

  /** Enumerable.SequenceEqual: walks both sequences in step and answers false as soon as
      one ends before the other or two elements differ. */
  function SequenceEqual(a: seq<byte>, b: seq<byte>): (r: bool)
    ensures r <==> a == b
  {
    if |a| == 0 || |b| == 0 then |a| == |b|
    else
      assert a == [a[0]] + a[1..] && b == [b[0]] + b[1..];
      a[0] == b[0] && SequenceEqual(a[1..], b[1..])
  }
}
