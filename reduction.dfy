/**
 * The arithmetic of the fork-join minimum reduction: Java's 32-bit `int`,
 * `Integer.MAX_VALUE`, `Math.min`, the midpoint split, the sequential
 * "minimum over non-stopped searches" that every task must compute, and the
 * split trees that a task recursion builds.
 */
module Reduction {

  /** Java's `int`. */
  newtype int32 = x: int | -0x8000_0000 <= x < 0x8000_0000

  /** `Integer.MAX_VALUE`: the sentinel of a range that contributes nothing. */
  const MAX_VALUE: int32 := 0x7fff_ffff

  /** What one search reports: the height `find_valleys()` returned and what `isStopped()` said after it. */
  datatype Outcome = Outcome(value: int32, stopped: bool)

  /** `Math.min` on `int`. */
  function Min(a: int32, b: int32): (m: int32)
    ensures m <= a && m <= b
    ensures m == a || m == b
  {
    if a <= b then a else b
  }

  /**
   * The sequential reduction over `rs[lo..hi]`: start at MAX_VALUE and fold in
   * the value of every search that is not stopped.
   */
  function SeqMin(rs: seq<Outcome>, lo: int, hi: int): (r: int32)
    requires 0 <= lo <= hi <= |rs|
    ensures forall k :: lo <= k < hi && !rs[k].stopped ==> r <= rs[k].value
    decreases hi - lo
  {
    if lo == hi then MAX_VALUE
    else if rs[hi - 1].stopped then SeqMin(rs, lo, hi - 1)
    else Min(SeqMin(rs, lo, hi - 1), rs[hi - 1].value)
  }

  /**
   * The promise of the reduction, stated without folding: `m` is at most the
   * value of every non-stopped search of the range, and it is the sentinel or
   * the value of one of them.
   */
  ghost predicate IsLeastReported(rs: seq<Outcome>, lo: int, hi: int, m: int32)
    requires 0 <= lo <= hi <= |rs|
  {
    (forall k :: lo <= k < hi && !rs[k].stopped ==> m <= rs[k].value) &&
    (m == MAX_VALUE || exists k :: lo <= k < hi && !rs[k].stopped && rs[k].value == m)
  }

  lemma {:induction false} SeqMinIsLeast(rs: seq<Outcome>, lo: int, hi: int)
    requires 0 <= lo <= hi <= |rs|
    ensures IsLeastReported(rs, lo, hi, SeqMin(rs, lo, hi))
    decreases hi - lo
  {
    if lo < hi {
      SeqMinIsLeast(rs, lo, hi - 1);
      var prev := SeqMin(rs, lo, hi - 1);
      if !rs[hi - 1].stopped && rs[hi - 1].value < prev {
        assert SeqMin(rs, lo, hi) == rs[hi - 1].value;
      } else {
        assert SeqMin(rs, lo, hi) == prev;
        if prev != MAX_VALUE {
          var k :| lo <= k < hi - 1 && !rs[k].stopped && rs[k].value == prev;
          assert lo <= k < hi && !rs[k].stopped && rs[k].value == prev;
        }
      }
    }
  }

  /** The fold and the unfolded promise agree: SeqMin is the one value that keeps it. */
  lemma SeqMinCharacterized(rs: seq<Outcome>, lo: int, hi: int, m: int32)
    requires 0 <= lo <= hi <= |rs|
    ensures IsLeastReported(rs, lo, hi, m) <==> m == SeqMin(rs, lo, hi)
  {
    SeqMinIsLeast(rs, lo, hi);
    var s := SeqMin(rs, lo, hi);
    if IsLeastReported(rs, lo, hi, m) {
      if s != MAX_VALUE {
        var j :| lo <= j < hi && !rs[j].stopped && rs[j].value == s;
        assert m <= s;
      }
      if m != MAX_VALUE {
        var k :| lo <= k < hi && !rs[k].stopped && rs[k].value == m;
        assert s <= m;
      }
    }
  }

  /** An empty range, or one where every search stopped, yields the sentinel. */
  lemma {:induction false} SeqMinAllStopped(rs: seq<Outcome>, lo: int, hi: int)
    requires 0 <= lo <= hi <= |rs|
    requires forall k :: lo <= k < hi ==> rs[k].stopped
    ensures SeqMin(rs, lo, hi) == MAX_VALUE
  {
    SeqMinIsLeast(rs, lo, hi);
  }

  /**
   * Two report sequences that agree on which searches stopped, and on the
   * values of those that did not, reduce to the same minimum: a stopped
   * search never influences the result, whatever value it returned.
   */
  ghost predicate SameContributions(rs: seq<Outcome>, rs': seq<Outcome>, lo: int, hi: int)
    requires 0 <= lo <= hi <= |rs| && hi <= |rs'|
  {
    forall k :: lo <= k < hi ==>
      rs[k].stopped == rs'[k].stopped && (!rs[k].stopped ==> rs[k].value == rs'[k].value)
  }

  lemma {:induction false} SeqMinIgnoresStopped(rs: seq<Outcome>, rs': seq<Outcome>, lo: int, hi: int)
    requires 0 <= lo <= hi <= |rs| && hi <= |rs'|
    requires SameContributions(rs, rs', lo, hi)
    ensures SeqMin(rs, lo, hi) == SeqMin(rs', lo, hi)
    decreases hi - lo
  {
    if lo < hi {
      SeqMinIgnoresStopped(rs, rs', lo, hi - 1);
    }
  }

  /** Splitting a range anywhere and combining the halves with `Math.min` gives the whole range's minimum. */
  lemma {:induction false} SeqMinSplit(rs: seq<Outcome>, lo: int, mid: int, hi: int)
    requires 0 <= lo <= mid <= hi <= |rs|
    ensures SeqMin(rs, lo, hi) == Min(SeqMin(rs, lo, mid), SeqMin(rs, mid, hi))
    decreases hi - mid
  {
    if mid < hi {
      SeqMinSplit(rs, lo, mid, hi - 1);
    }
  }

  /**
   * `mid = start + (end - start) / 2` on Java ints: it stays inside the range
   * without overflow, the left half is the smaller one by at most one, and a
   * range of two or more splits into two non-empty, strictly smaller halves.
   */
  function Midpoint(start: int32, end: int32): (mid: int32)
    requires 0 <= start <= end
    ensures start <= mid <= end
    ensures mid as int - start as int <= end as int - mid as int <= mid as int - start as int + 1
    ensures end as int - start as int >= 2 ==> start < mid < end
  {
    start + (end - start) / 2
  }

  /** The shape of a task recursion: a leaf runs its range sequentially, a split runs `[lo, mid)` and `[mid, hi)`. */
  datatype SplitTree = Leaf | Split(left: SplitTree, mid: int, right: SplitTree)

  /** Every split of `t` cuts its range into two disjoint, non-empty halves that cover it. */
  ghost predicate Partitions(t: SplitTree, lo: int, hi: int)
  {
    match t
    case Leaf => lo <= hi
    case Split(left, mid, right) => lo < mid < hi && Partitions(left, lo, mid) && Partitions(right, mid, hi)
  }

  /** What a task tree returns: leaves fold sequentially, splits combine with `Math.min`. */
  function Reduce(rs: seq<Outcome>, t: SplitTree, lo: int, hi: int): (r: int32)
    requires 0 <= lo && hi <= |rs| && Partitions(t, lo, hi)
    ensures forall k :: lo <= k < hi && !rs[k].stopped ==> r <= rs[k].value
    decreases t
  {
    match t
    case Leaf => SeqMin(rs, lo, hi)
    case Split(left, mid, right) => Min(Reduce(rs, left, lo, mid), Reduce(rs, right, mid, hi))
  }

  /** However a range is cut into nested sub-ranges, the combined result is the sequential one. */
  lemma {:induction false} ReduceAnyTree(rs: seq<Outcome>, t: SplitTree, lo: int, hi: int)
    requires 0 <= lo && hi <= |rs| && Partitions(t, lo, hi)
    ensures Reduce(rs, t, lo, hi) == SeqMin(rs, lo, hi)
    decreases t
  {
    match t
    case Leaf =>
    case Split(left, mid, right) =>
      ReduceAnyTree(rs, left, lo, mid);
      ReduceAnyTree(rs, right, mid, hi);
      SeqMinSplit(rs, lo, mid, hi);
  }

  /**
   * The tree of tasks that `compute()` spawns for `[lo, hi)` when its
   * threshold is `threshold`: a range no longer than the threshold is a leaf,
   * a longer one splits at the midpoint.
   */
  function TaskTree(lo: int32, hi: int32, threshold: int32): (t: SplitTree)
    requires 0 <= lo <= hi && 1 <= threshold
    ensures Partitions(t, lo as int, hi as int)
    decreases hi - lo
  {
    if hi - lo <= threshold then Leaf
    else
      var mid := Midpoint(lo, hi);
      Split(TaskTree(lo, mid, threshold), mid as int, TaskTree(mid, hi, threshold))
  }

  /** The task recursion returns the sequential minimum whatever its (positive) threshold. */
  lemma ThresholdIrrelevant(rs: seq<Outcome>, lo: int32, hi: int32, threshold: int32)
    requires 0 <= lo <= hi && hi as int <= |rs| && 1 <= threshold
    ensures Reduce(rs, TaskTree(lo, hi, threshold), lo as int, hi as int) == SeqMin(rs, lo as int, hi as int)
  {
    ReduceAnyTree(rs, TaskTree(lo, hi, threshold), lo as int, hi as int);
  }
}
