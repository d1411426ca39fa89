/**
 * The fork-join task `MonteCarloMinimizationParallel` over an array of
 * searches, with `fork()`/`join()` run as ordinary recursive calls, and the
 * top-level `invoke` over the whole array.
 */
module MonteCarloMini {
  import opened Reduction

  /** Largest range a task runs sequentially instead of splitting. */
  const THRESHOLD: int32 := 100

  /**
   * One Monte Carlo search, seen only through what the reduction uses:
   * `find_valleys()` reports the fixed height `valley` and leaves the search
   * stopped exactly when `redundant` holds. The ghost counter `calls` records
   * how often `find_valleys()` ran.
   */
  class Search {
    const valley: int32
    const redundant: bool
    var stopped: bool
    ghost var calls: nat

    /** Once the search has run, its stopped flag is its redundancy flag. */
    ghost predicate Valid()
      reads this
    {
      calls > 0 ==> stopped == redundant
    }

    constructor (valley: int32, redundant: bool)
      ensures this.valley == valley && this.redundant == redundant
      ensures !stopped && calls == 0 && Valid()
    {
      this.valley := valley;
      this.redundant := redundant;
      stopped := false;
      calls := 0;
    }

    method FindValleys() returns (localMin: int32)
      modifies this
      ensures localMin == valley && stopped == redundant
      ensures calls == old(calls) + 1 && Valid()
    {
      localMin := valley;
      stopped := redundant;
      calls := calls + 1;
    }

    predicate IsStopped(): (b: bool)
      requires Valid()
      reads this
      ensures b == stopped
      ensures calls > 0 ==> (b <==> redundant)
    {
      stopped
    }
  }

  /** No search object appears twice in the array. */
  ghost predicate Distinct(searches: array<Search>)
    reads searches
  {
    forall i, j :: 0 <= i < j < searches.Length ==> searches[i] != searches[j]
  }

  /** What each search of `ss` will report once run. */
  function Reports(ss: seq<Search>): seq<Outcome>
  {
    seq(|ss|, k requires 0 <= k < |ss| => Outcome(ss[k].valley, ss[k].redundant))
  }

  class MonteCarloMinimizationParallel {
    const start: int32
    const end: int32
    const searches: array<Search>

    /** The task's half-open range lies inside the array, whose searches are distinct. */
    ghost predicate Valid()
      reads this, searches
    {
      0 <= start <= end && end as int <= searches.Length && Distinct(searches)
    }

    constructor (start: int32, end: int32, searches: array<Search>)
      ensures this.start == start && this.end == end && this.searches == searches
      ensures 0 <= start <= end && end as int <= searches.Length && Distinct(searches) ==> Valid()
    {
      this.start := start;
      this.end := end;
      this.searches := searches;
    }

    /**
     * Runs every search of `[start, end)` exactly once, touches no other, and
     * returns the minimum over those that did not stop, or MAX_VALUE.
     */
    method Compute() returns (r: int32)
      requires Valid()
      modifies set k: int | start as int <= k < end as int :: searches[k]
      ensures r == SeqMin(Reports(searches[..]), start as int, end as int)
      ensures r == Reduce(Reports(searches[..]), TaskTree(start, end, THRESHOLD), start as int, end as int)
      ensures forall k: int :: start as int <= k < end as int ==>
        searches[k].calls == old(searches[k].calls) + 1 && searches[k].stopped == searches[k].redundant
      ensures forall k: int :: 0 <= k < searches.Length && !(start as int <= k < end as int) ==>
        searches[k].calls == old(searches[k].calls) && searches[k].stopped == old(searches[k].stopped)
      decreases end - start
    {
      if end - start <= THRESHOLD {
        r := ComputeSequentially();
      } else {
        var mid := Midpoint(start, end);
        var leftTask := new MonteCarloMinimizationParallel(start, mid, searches);
        var rightTask := new MonteCarloMinimizationParallel(mid, end, searches);
        // The forked left task is modelled as running to completion at the join.
        var rightResult := rightTask.Compute();
        var leftResult := leftTask.Compute();
        SeqMinSplit(Reports(searches[..]), start as int, mid as int, end as int);
        r := Min(leftResult, rightResult);
      }
    }

    /** The leaf branch of `compute()`: the searches of `[start, end)` one after another. */
    method ComputeSequentially() returns (r: int32)
      requires Valid()
      modifies set k: int | start as int <= k < end as int :: searches[k]
      ensures r == SeqMin(Reports(searches[..]), start as int, end as int)
      ensures forall k: int :: start as int <= k < end as int ==>
        searches[k].calls == old(searches[k].calls) + 1 && searches[k].stopped == searches[k].redundant
      ensures forall k: int :: 0 <= k < searches.Length && !(start as int <= k < end as int) ==>
        searches[k].calls == old(searches[k].calls) && searches[k].stopped == old(searches[k].stopped)
    {
      ghost var rs := Reports(searches[..]);
      var min := MAX_VALUE;
      var i := start;
      while i < end
        invariant start <= i <= end
        invariant min == SeqMin(rs, start as int, i as int)
        invariant forall k: int :: start as int <= k < i as int ==>
          searches[k].calls == old(searches[k].calls) + 1 && searches[k].stopped == searches[k].redundant
        invariant forall k: int :: 0 <= k < searches.Length && !(start as int <= k < i as int) ==>
          searches[k].calls == old(searches[k].calls) && searches[k].stopped == old(searches[k].stopped)
      {
        var localMin := searches[i].FindValleys();
        if !searches[i].IsStopped() && localMin < min {
          min := localMin;
        }
        i := i + 1;
      }
      r := min;
    }
  }

  /** The pool's `invoke` of one task over the whole array of searches. */
  method Minimize(searches: array<Search>) returns (globalMin: int32)
    requires searches.Length < 0x8000_0000 && Distinct(searches)
    modifies set k | 0 <= k < searches.Length :: searches[k]
    ensures globalMin == SeqMin(Reports(searches[..]), 0, searches.Length)
    ensures IsLeastReported(Reports(searches[..]), 0, searches.Length, globalMin)
    ensures forall k :: 0 <= k < searches.Length ==>
      searches[k].calls == old(searches[k].calls) + 1 && searches[k].stopped == searches[k].redundant
  {
    var task := new MonteCarloMinimizationParallel(0, searches.Length as int32, searches);
    globalMin := task.Compute();
    SeqMinIsLeast(Reports(searches[..]), 0, searches.Length);
  }
}
