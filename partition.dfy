/**
 * How the ranks share the bodies: each of the `population` ranks works on a
 * slice of a stride of `n / population` slots, the last rank taking the
 * remainder; the gather counts and displacements describe the same slices;
 * the collision scan walks the slices mirrored end for end.
 */
module Partition {
  import CInt

  /** The half-open slot range `[start, end)`. */
  datatype Span = Span(start: int, end: int) {
    predicate Has(i: int) {
      start <= i < end
    }
  }

  /** `n / population` as C divides. */
  function Stride(n: nat, population: int): (s: nat)
    requires population > 1
    ensures s == n / population
  {
    CInt.NonNegativeAgrees(n, population);
    CInt.Div(n, population)
  }

  /** The slice rank `id` works on among `population` ranks over `n` slots. */
  function Range(n: nat, population: int, id: int): Span {
    if population <= 1 then Span(0, n)
    else
      var stride := Stride(n, population);
      var start := id * stride;
      Span(start, if id == population - 1 then n else start + stride)
  }

  /** The slice the collision scan of rank `id` walks: the rank's slice reflected, `[n - end, n - start)`. */
  function Mirror(n: nat, population: int, id: int): Span {
    Reflect(n, Range(n, population, id))
  }

  /** A slice of `[0, n)` turned end for end. */
  function Reflect(n: int, r: Span): Span {
    Span(n - r.end, n - r.start)
  }

  /** The rank whose slice holds slot `i`. */
  function Owner(n: nat, population: int, i: nat): int
    requires population > 1
  {
    var s := Stride(n, population);
    if s == 0 then population - 1
    else if i / s < population - 1 then i / s
    else population - 1
  }

  /** The slices of ranks `0 .. population - 1` lie in order inside `[0, n)`, end to start, from 0 to n. */
  lemma {:induction false} RangeBounds(n: nat, population: int, id: int)
    requires population > 1 && 0 <= id < population
    ensures 0 <= Range(n, population, id).start <= Range(n, population, id).end <= n
    ensures id == 0 ==> Range(n, population, id).start == 0
    ensures id == population - 1 ==> Range(n, population, id).end == n
    ensures id < population - 1 ==> Range(n, population, id).end == Range(n, population, id + 1).start
  {
    var s := Stride(n, population);
    CInt.MulLe(id, population - 1, s);
    CInt.MulLe(id + 1, population, s);
    assert population * s <= n by {
      assert n == population * s + n % population;
    }
    assert id * s + s == (id + 1) * s;
    assert (population - 1) * s + s == population * s;
  }

  /** A slot lies in a rank's slice exactly when that rank is its owner: the slices are disjoint and cover `[0, n)`. */
  lemma {:induction false} InRangeIffOwner(n: nat, population: int, id: int, i: nat)
    requires population > 1 && 0 <= id < population && i < n
    ensures Range(n, population, id).Has(i) <==> id == Owner(n, population, i)
  {
    var s := Stride(n, population);
    var r := Range(n, population, id);
    assert r.start == id * s;
    if s > 0 {
      var q := i / s;
      assert Owner(n, population, i) == if q < population - 1 then q else population - 1;
      if id < population - 1 {
        assert r.end == id * s + s;
        CInt.StrideBlock(i, s, id);
      } else {
        assert r.end == n;
        CInt.LastBlock(i, s, id);
      }
    }
  }

  /** No slot is in the slices of two ranks. */
  lemma RangesDisjoint(n: nat, population: int, r1: int, r2: int, i: nat)
    requires population > 1 && 0 <= r1 < population && 0 <= r2 < population && r1 != r2 && i < n
    ensures !(Range(n, population, r1).Has(i) && Range(n, population, r2).Has(i))
  {
    InRangeIffOwner(n, population, r1, i);
    InRangeIffOwner(n, population, r2, i);
  }

  /** Every slot is in the slice of some rank. */
  lemma {:induction false} RangesCover(n: nat, population: int, i: nat)
    requires population > 1 && i < n
    ensures 0 <= Owner(n, population, i) < population
    ensures Range(n, population, Owner(n, population, i)).Has(i)
  {
    InRangeIffOwner(n, population, Owner(n, population, i), i);
  }

  /** A single rank works on everything, and so scans everything. */
  lemma SingleRank(n: nat, population: int, id: int)
    requires population <= 1
    ensures Range(n, population, id) == Span(0, n) == Mirror(n, population, id)
  {
  }

  /** A slot is in a rank's mirrored slice exactly when its reflection `n - 1 - i` is in the rank's slice. */
  lemma MirrorIffReflected(n: nat, population: int, id: int, i: nat)
    requires i < n
    ensures Mirror(n, population, id).Has(i) <==> Range(n, population, id).Has(n - 1 - i)
  {
  }

  /** The mirrored slices partition `[0, n)` too: slot i is scanned by exactly the owner of its reflection. */
  lemma {:induction false} MirrorIffOwner(n: nat, population: int, id: int, i: nat)
    requires population > 1 && 0 <= id < population && i < n
    ensures Mirror(n, population, id).Has(i) <==> id == Owner(n, population, n - 1 - i)
  {
    MirrorIffReflected(n, population, id, i);
    InRangeIffOwner(n, population, id, n - 1 - i);
  }

  /** The counts `MPI_Gatherv` receives: a stride per rank, the remainder `n - (P - 1) stride` for the last. */
  function GatherCounts(n: nat, population: int): (counts: seq<int>)
    requires population > 1
    ensures |counts| == population
  {
    var s := Stride(n, population);
    seq(population, r requires 0 <= r < population => if r == population - 1 then n - (population - 1) * s else s)
  }

  /** The displacement of each rank's block: `r * stride`. */
  function GatherDisplacements(n: nat, population: int): (disps: seq<int>)
    requires population > 1
    ensures |disps| == population
  {
    var s := Stride(n, population);
    seq(population, r requires 0 <= r < population => r * s)
  }

  function Sum(s: seq<int>): int {
    if |s| == 0 then 0 else Sum(s[..|s| - 1]) + s[|s| - 1]
  }

  lemma {:induction false} SumOfStrides(s: seq<int>, k: nat, c: int)
    requires k <= |s| && forall r :: 0 <= r < k ==> s[r] == c
    ensures Sum(s[..k]) == k * c
  {
    if k > 0 {
      SumOfStrides(s, k - 1, c);
      assert s[..k][..k - 1] == s[..k - 1];
    }
  }

  /**
   * Each rank's gather count is the length of its slice and its displacement
   * is where its slice starts, so the counts add up to `n`.
   */
  lemma {:induction false} GatherMatchesRanges(n: nat, population: int)
    requires population > 1
    ensures forall r :: 0 <= r < population ==>
      GatherCounts(n, population)[r] == Range(n, population, r).end - Range(n, population, r).start &&
      GatherDisplacements(n, population)[r] == Range(n, population, r).start
    ensures Sum(GatherCounts(n, population)) == n
  {
    var counts := GatherCounts(n, population);
    var s := Stride(n, population);
    SumOfStrides(counts, population - 1, s);
    assert counts == counts[..population - 1] + [counts[population - 1]];
    assert counts[..population] == counts;
  }

  /** Ten slots over three ranks: strides of 3, the last rank taking 4. */
  lemma TenOverThree()
    ensures Range(10, 3, 0) == Span(0, 3) && Range(10, 3, 1) == Span(3, 6) && Range(10, 3, 2) == Span(6, 10)
    ensures Mirror(10, 3, 0) == Span(7, 10) && Mirror(10, 3, 1) == Span(4, 7) && Mirror(10, 3, 2) == Span(0, 4)
    ensures GatherCounts(10, 3) == [3, 3, 4] && GatherDisplacements(10, 3) == [0, 3, 6]
  {
  }

  /**
   * When rank 0 adds a comet just before the scan, it scans with `n + 1`
   * bodies the slice it computed for `n`, while the other ranks still scan
   * with `n`: the slot `n - stride` (slot 0 with a single rank) is then the
   * lower slot of no scanned pair in that step.
   */
  lemma {:induction false} StaleMirrorGap(n: nat, population: int)
    requires n > 0 && (population > 1 ==> n >= population)
    ensures var missed := if population <= 1 then 0 else n - Stride(n, population);
      0 <= missed < n &&
      !Reflect(n + 1, Range(n, population, 0)).Has(missed) &&
      forall r :: 1 <= r < population ==> !Mirror(n, population, r).Has(missed)
  {
    if population > 1 {
      var s := Stride(n, population);
      assert s >= 1 by {
        assert n == population * (n / population) + n % population;
      }
      assert Range(n, population, 0) == Span(0, s);
      var missed := n - s;
      assert (s - 1) / s == 0;
      assert Owner(n, population, s - 1) == 0;
      forall r | 1 <= r < population ensures !Mirror(n, population, r).Has(missed) {
        MirrorIffOwner(n, population, r, missed);
        assert n - 1 - missed == s - 1;
      }
    } else {
      assert Range(n, population, 0) == Span(0, n);
    }
  }
}
