/** The broadcast storm limiter: a bounded list of timestamps that stands for the whole history. */
module Storm {

  /** Times are in nanoseconds. */
  const SECOND: int := 1_000_000_000

  ghost predicate NonDecreasing(h: seq<int>) {
    forall i, j :: 0 <= i <= j < |h| ==> h[i] <= h[j]
  }

  /** How many entries of `h` lie in the closed second that ends at `t`. */
  ghost function Recent(h: seq<int>, t: int): nat {
    if h == [] then 0
    else Recent(h[..|h|-1], t) + if t - h[|h|-1] <= SECOND then 1 else 0
  }

  /** The last `max` entries, or all of them if there are fewer. */
  function LastOf(h: seq<int>, max: nat): seq<int> {
    if |h| <= max then h else h[|h|-max..]
  }

  lemma {:induction false} RecentAtLeast(h: seq<int>, t: int, k: nat)
    requires NonDecreasing(h)
    ensures Recent(h, t) >= k <==> k == 0 || (k <= |h| && t - h[|h|-k] <= SECOND)
    decreases |h|
  {
    if h != [] {
      RecentAtLeast(h[..|h|-1], t, k);
      if k > 0 {
        RecentAtLeast(h[..|h|-1], t, k - 1);
      }
    }
  }

  /** The floods of a run that is called at the times `calls`. */
  ghost function Floods(max: nat, calls: seq<int>): seq<int>
    decreases |calls|
  {
    if calls == [] then []
    else
      var h, t := Floods(max, calls[..|calls|-1]), calls[|calls|-1];
      if Recent(h, t) < max then h + [t] else h
  }

  /** Floods `max` or more places apart, such as the ends of max + 1 consecutive ones, are over a second apart. */
  ghost predicate Spaced(max: nat, h: seq<int>) {
    forall i, j :: 0 <= i && i + max <= j < |h| ==> h[j] - h[i] > SECOND
  }

  lemma AppendSpaced(max: nat, h: seq<int>, t: int)
    requires max > 0 && NonDecreasing(h) && Spaced(max, h) && Recent(h, t) < max
    requires h != [] ==> h[|h|-1] <= t
    ensures NonDecreasing(h + [t]) && Spaced(max, h + [t])
  {
    RecentAtLeast(h, t, max);
  }

  lemma {:induction false} FloodsAreSpaced(max: nat, calls: seq<int>)
    requires max > 0 && NonDecreasing(calls)
    ensures NonDecreasing(Floods(max, calls)) && Spaced(max, Floods(max, calls))
    ensures var h := Floods(max, calls); h != [] ==> calls != [] && h[|h|-1] <= calls[|calls|-1]
    decreases |calls|
  {
    if calls != [] {
      var before, t := calls[..|calls|-1], calls[|calls|-1];
      FloodsAreSpaced(max, before);
      assert before != [] ==> before[|before|-1] <= t;
      if Recent(Floods(max, before), t) < max {
        AppendSpaced(max, Floods(max, before), t);
      }
    }
  }

  /** However often and however fast it is called, the limiter lets at most `max` floods into any closed second. */
  lemma RateIsLimited(max: nat, calls: seq<int>, i: nat, j: nat)
    requires max > 0 && NonDecreasing(calls)
    requires i <= j < |Floods(max, calls)| && Floods(max, calls)[j] - Floods(max, calls)[i] <= SECOND
    ensures j - i + 1 <= max
  {
    FloodsAreSpaced(max, calls);
  }

  /** No starvation: a call is denied only when `max` floods already lie in the second before it. */
  lemma DeniedOnlyWhenFull(max: nat, calls: seq<int>, t: int)
    requires max > 0 && NonDecreasing(calls + [t])
    ensures Floods(max, calls + [t]) == Floods(max, calls) <==>
      |Floods(max, calls)| >= max && t - Floods(max, calls)[|Floods(max, calls)| - max] <= SECOND
  {
    var h := Floods(max, calls);
    assert (calls + [t])[..|calls|] == calls;
    assert NonDecreasing(calls) by {
      assert forall i :: 0 <= i < |calls| ==> calls[i] == (calls + [t])[i];
    }
    FloodsAreSpaced(max, calls);
    RecentAtLeast(h, t, max);
    assert |h + [t]| == |h| + 1;
  }

  lemma OneMoreCall(max: nat, calls: seq<int>, t: int)
    requires NonDecreasing(calls) && forall i :: 0 <= i < |calls| ==> calls[i] <= t
    ensures NonDecreasing(calls + [t])
    ensures var h := Floods(max, calls);
      Floods(max, calls + [t]) == if Recent(h, t) < max then h + [t] else h
  {
    assert (calls + [t])[..|calls|] == calls;
  }

  lemma LastOfAppend(h: seq<int>, max: nat, t: int)
    requires max > 0
    ensures var b := LastOf(h, max);
      && |b| <= max && (|b| < max ==> |h| == |b|)
      && (|b| == max ==> b[0] == h[|h|-max])
      && LastOf(h + [t], max) == if |b| < max then b + [t] else (b + [t])[|b + [t]| - max..|b + [t]|]
  {
    if |h| >= max {
      assert LastOf(h, max) == h[|h|-max..];
      assert (h + [t])[|h|+1-max..] == h[|h|-max..][1..] + [t];
    }
  }

  /** What the stored entries tell about the whole history. */
  lemma StoredEntriesDecide(max: nat, h: seq<int>, t: int)
    requires max > 0 && NonDecreasing(h)
    ensures var b := LastOf(h, max);
      && |b| <= max
      && (|b| < max ==> Recent(h, t) < max)
      && (|b| == max ==> (Recent(h, t) < max <==> t - b[0] > SECOND))
  {
    RecentAtLeast(h, t, max);
    LastOfAppend(h, max, t);
  }

  class StormController {
    const max: nat
    var broadcasts: seq<int>
    /** The times of all calls so far. */
    ghost var calls: seq<int>
    /** The times of all floods so far, of which only the last ones are stored. */
    ghost var floods: seq<int>

    ghost predicate Valid()
      reads this
    {
      && max > 0 && NonDecreasing(calls)
      && floods == Floods(max, calls)
      && broadcasts == LastOf(floods, max)
    }

    constructor (max: nat)
      requires max > 0
      ensures Valid() && this.max == max && calls == []
    {
      this.max := max;
      broadcasts, calls, floods := [], [], [];
    }

    /** Floods at time `t` exactly if fewer than `max` earlier floods lie in the closed second up to `t`. */
    method Broadcast(t: int) returns (flooded: bool)
      requires Valid() && forall i :: 0 <= i < |calls| ==> calls[i] <= t
      modifies this
      ensures Valid() && calls == old(calls) + [t]
      ensures flooded <==> Recent(old(floods), t) < max
      ensures floods == if flooded then old(floods) + [t] else old(floods)
      ensures |broadcasts| <= max
    {
      FloodsAreSpaced(max, calls);
      OneMoreCall(max, calls, t);
      StoredEntriesDecide(max, floods, t);
      LastOfAppend(floods, max, t);
      calls := calls + [t];
      var bcasts := broadcasts + [t];
      var l := |bcasts|;
      if l <= max {
        broadcasts := bcasts;
        floods := floods + [t];
        return true;
      }
      if t - bcasts[0] > SECOND {
        broadcasts := bcasts[l-max..l];
        floods := floods + [t];
        return true;
      }
      flooded := false;
    }
  }
}
