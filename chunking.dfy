/**
 * Splitting a list into consecutive fixed-size chunks, the `subdivide`
 * generator of utils/process_images.py and imageplot.py.  The chunk size
 * arrives as a number that Python truncates with int(); a zero step makes
 * range() raise, a negative one makes it yield nothing.
 */
module Chunking {
  import opened Results
  import opened IntMath

  /** Concatenation of a list of lists. */
  function Flatten<T>(ss: seq<seq<T>>): seq<T>
  {
    if |ss| == 0 then [] else ss[0] + Flatten(ss[1..])
  }

  function Min(a: int, b: int): int { if a <= b then a else b }

  /**
   * The slices l[i:i+n] for i in range(0, len(l), n): ceil(len(l) / n) of
   * them, none empty and none longer than n; ChunkAt states where each one
   * starts and ends.
   */
  function Chunks<T>(l: seq<T>, n: nat): (cs: seq<seq<T>>)
    requires n >= 1
    ensures |cs| == CeilDiv(|l|, n)
    ensures forall k :: 0 <= k < |cs| ==> 1 <= |cs[k]| <= n
  {
    SlicesShape(l, n);
    Slices(l, n)
  }

  /** The slices taken from the front, n items at a time. */
  function Slices<T>(l: seq<T>, n: nat): seq<seq<T>>
    requires n >= 1
    decreases |l|
  {
    if |l| == 0 then []
    else if |l| <= n then [l]
    else [l[..n]] + Slices(l[n..], n)
  }

  lemma {:induction false} SlicesShape<T>(l: seq<T>, n: nat)
    requires n >= 1
    ensures |Slices(l, n)| == CeilDiv(|l|, n)
    ensures forall k :: 0 <= k < |Slices(l, n)| ==> 1 <= |Slices(l, n)[k]| <= n
    decreases |l|
  {
    if |l| == 0 {
    } else if |l| <= n {
      CeilDivOne(|l|, n);
    } else {
      SlicesShape(l[n..], n);
      CeilDivStep(|l|, n);
    }
  }

  lemma CeilDivOne(a: nat, n: nat)
    requires 1 <= a <= n
    ensures CeilDiv(a, n) == 1
  {
    DivModUnique(a + n - 1, n, 1, a - 1);
  }

  lemma CeilDivStep(a: nat, n: nat)
    requires 1 <= n < a
    ensures CeilDiv(a, n) == CeilDiv(a - n, n) + 1
  {
    var b := a - n + n - 1;
    var q, r := b / n, b % n;
    assert b == q * n + r;
    assert a + n - 1 == (q + 1) * n + r;
    DivModUnique(a + n - 1, n, q + 1, r);
  }

  lemma MulSucc(k: int, n: int)
    ensures (k + 1) * n == k * n + n
  {
  }

  /** Chunk k is the slice from k*n to (k+1)*n, cut at the end of l. */
  lemma ChunkAt<T>(l: seq<T>, n: nat, k: nat)
    requires n >= 1 && k < |Chunks(l, n)|
    ensures k * n < |l|
    ensures Chunks(l, n)[k] == l[k * n .. Min((k + 1) * n, |l|)]
  {
    ChunkAtRepeated(l, n, k);
    RepeatedIsMul(k, n);
    MulSucc(k, n);
  }

  /** k * n as k repeated additions of n, so that the induction below stays linear. */
  function Repeated(k: nat, n: nat): nat
  {
    if k == 0 then 0 else Repeated(k - 1, n) + n
  }

  lemma {:induction false} RepeatedIsMul(k: nat, n: nat)
    ensures Repeated(k, n) == k * n
  {
    if k > 0 {
      RepeatedIsMul(k - 1, n);
      MulSucc(k - 1, n);
    }
  }

  lemma {:induction false} ChunkAtRepeated<T>(l: seq<T>, n: nat, k: nat)
    requires n >= 1 && k < |Slices(l, n)|
    ensures Repeated(k, n) < |l|
    ensures Slices(l, n)[k] == l[Repeated(k, n) .. Min(Repeated(k, n) + n, |l|)]
    decreases |l|
  {
    if k > 0 {
      assert |l| > n;
      var rest := l[n..];
      ChunkAtRepeated(rest, n, k - 1);
      var lo := Repeated(k - 1, n);
      var hi := Min(lo + n, |rest|);
      SliceShift(l, n, lo, hi);
      calc == {
        Slices(l, n)[k];
        Slices(rest, n)[k - 1];
        rest[lo..hi];
        l[lo + n..hi + n];
        { assert lo + n == Repeated(k, n) && hi + n == Min(Repeated(k, n) + n, |l|); }
        l[Repeated(k, n) .. Min(Repeated(k, n) + n, |l|)];
      }
    }
  }

  /** Slicing a suffix is slicing the whole list further along. */
  lemma SliceShift<T>(l: seq<T>, n: nat, lo: nat, hi: nat)
    requires n <= |l| && lo <= hi <= |l| - n
    ensures l[n..][lo..hi] == l[lo + n..hi + n]
  {
  }

  /** Concatenating the chunks gives back the input, in order. */
  lemma ChunksFlatten<T>(l: seq<T>, n: nat)
    requires n >= 1
    ensures Flatten(Chunks(l, n)) == l
  {
    SlicesFlatten(l, n);
  }

  lemma {:induction false} SlicesFlatten<T>(l: seq<T>, n: nat)
    requires n >= 1
    ensures Flatten(Slices(l, n)) == l
    decreases |l|
  {
    if |l| > n {
      SlicesFlatten(l[n..], n);
      assert Slices(l, n)[1..] == Slices(l[n..], n);
      assert l == l[..n] + l[n..];
    }
  }

  /** Every chunk but the last has exactly n items. */
  lemma ChunkFull<T>(l: seq<T>, n: nat, k: nat)
    requires n >= 1 && k + 1 < |Chunks(l, n)|
    ensures |Chunks(l, n)[k]| == n
  {
    ChunkAt(l, n, k);
    ChunkAt(l, n, k + 1);
    MulSucc(k, n);
  }

  /** Python's int() on a number: truncation toward zero. */
  function TruncToInt(x: real): (i: int)
    ensures x >= 0.0 ==> i == x.Floor
    ensures x < 0.0 ==> i == -((-x).Floor)
    ensures (i as real) <= x < (i as real) + 1.0 || (i as real) - 1.0 < x <= (i as real)
  {
    if x >= 0.0 then x.Floor else -((-x).Floor)
  }

  datatype SubdivideError = ZeroStep

  /**
   * subdivide(l, n): the step is int(n); range() rejects a zero step and a
   * negative step yields no chunk at all.
   */
  function Subdivide<T>(l: seq<T>, n: real): (r: Result<seq<seq<T>>, SubdivideError>)
    ensures r.Err? <==> TruncToInt(n) == 0
    ensures TruncToInt(n) < 0 ==> r == Ok([])
    ensures TruncToInt(n) >= 1 ==> r.Ok? && Flatten(r.value) == l &&
                                   |r.value| == CeilDiv(|l|, TruncToInt(n))
  {
    var step := TruncToInt(n);
    if step == 0 then Err(ZeroStep)
    else if step < 0 then Ok([])
    else
      ChunksFlatten(l, step);
      Ok(Chunks(l, step))
  }
}
