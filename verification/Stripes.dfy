/**
  What both widths of xxHash have in common: four lanes that take the input by whole stripes, and what is left
  of it.
*/
module Stripes {
  import opened Division
  import opened Lz4Format

  datatype Lanes<W> = Lanes(v1: W, v2: W, v3: W, v4: W)

  /** The lanes after all whole stripes of `s`, from the front. */
  function Fold<W>(stripe: (Lanes<W>, Bytes) -> Lanes<W>, width: nat, v: Lanes<W>, s: Bytes): Lanes<W>
    requires width > 0
    decreases |s|
  {
    if |s| < width then v else Fold(stripe, width, stripe(v, s[..width]), s[width..])
  }

  /** What is left of `s` after its whole stripes. */
  function Rest(width: nat, s: Bytes): (r: Bytes)
    requires width > 0
    ensures |r| == |s| % width
  {
    s[|s| - |s| % width..]
  }

  /** Whole stripes first, then the rest: the fold of a concatenation at a stripe boundary. */
  lemma {:induction false} FoldJoin<W>(stripe: (Lanes<W>, Bytes) -> Lanes<W>, width: nat, v: Lanes<W>, a: Bytes,
                                       b: Bytes)
    requires width > 0 && |a| % width == 0
    ensures Fold(stripe, width, v, a + b) == Fold(stripe, width, Fold(stripe, width, v, a), b)
    decreases |a|
  {
    if |a| < width {
      assert |a| == 0;
      assert a + b == b;
    } else {
      assert (a + b)[..width] == a[..width];
      assert (a + b)[width..] == a[width..] + b;
      WithoutOne(|a|, width);
      FoldJoin(stripe, width, stripe(v, a[..width]), a[width..], b);
    }
  }

  /** One more stripe. */
  lemma FoldStripe<W>(stripe: (Lanes<W>, Bytes) -> Lanes<W>, width: nat, v: Lanes<W>, a: Bytes, x: Bytes)
    requires width > 0 && |a| % width == 0 && |x| == width
    ensures Fold(stripe, width, v, a + x) == stripe(Fold(stripe, width, v, a), x)
    ensures |a + x| % width == 0
  {
    FoldJoin(stripe, width, v, a, x);
    ModOfSum(|a|, width, width);
    ModUnique(width, width, 1, 0);
    assert x[..width] == x;
  }

  /** An incomplete stripe changes no lane. */
  lemma FoldShort<W>(stripe: (Lanes<W>, Bytes) -> Lanes<W>, width: nat, v: Lanes<W>, a: Bytes, x: Bytes)
    requires width > 0 && |a| % width == 0 && |x| < width
    ensures Fold(stripe, width, v, a + x) == Fold(stripe, width, v, a) && Rest(width, a + x) == x
  {
    FoldJoin(stripe, width, v, a, x);
    RestShort(width, a, x);
  }

  lemma RestShort(width: nat, a: Bytes, x: Bytes)
    requires width > 0 && |a| % width == 0 && |x| < width
    ensures Rest(width, a + x) == x
  {
    ModOfSum(|a|, |x|, width);
    ModUnique(|x|, width, 0, |x|);
    assert (a + x)[|a|..] == x;
  }

  /** Any input is whole stripes and a rest. */
  lemma Whole<W>(stripe: (Lanes<W>, Bytes) -> Lanes<W>, width: nat, v: Lanes<W>, s: Bytes) returns (a: Bytes)
    requires width > 0
    ensures |a| % width == 0 && s == a + Rest(width, s) && Fold(stripe, width, v, s) == Fold(stripe, width, v, a)
  {
    a := s[..|s| - |s| % width];
    WholeLength(|s|, width);
    FoldShort(stripe, width, v, a, Rest(width, s));
  }

  function Little(s: Bytes): nat {
    if |s| == 0 then 0 else s[0] + 256 * Little(s[1..])
  }

  lemma FoldNothing<W>(stripe: (Lanes<W>, Bytes) -> Lanes<W>, width: nat, v: Lanes<W>, input: Bytes, p: nat)
    requires width > 0 && p <= |input|
    ensures Fold(stripe, width, v, input[p..p]) == v
  {
  }

  lemma FoldAll<W>(stripe: (Lanes<W>, Bytes) -> Lanes<W>, width: nat, v: Lanes<W>, input: Bytes, p: nat)
    requires width > 0 && p <= |input| < p + width && p % width == 0
    ensures Fold(stripe, width, v, input) == Fold(stripe, width, v, input[0..p])
    ensures Rest(width, input) == input[p..] && |input| % width == |input| - p
  {
    FoldShort(stripe, width, v, input[0..p], input[p..]);
    assert input == input[0..p] + input[p..];
    ModOfSum(p, |input| - p, width);
    ModUnique(|input| - p, width, 0, |input| - p);
  }

  lemma NoStripe<W>(stripe: (Lanes<W>, Bytes) -> Lanes<W>, width: nat, v: Lanes<W>, s: Bytes)
    requires |s| < width
    ensures Fold(stripe, width, v, s) == v
  {
  }

  lemma StripesTaken(all: Bytes, input: Bytes, p: nat, q: nat)
    requires p <= q <= |input|
    ensures all + input[..p] + input[p..q] + input[q..] == all + input
  {
    assert input == input[..p] + input[p..q] + input[q..];
  }
}
