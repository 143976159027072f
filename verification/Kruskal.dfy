/** Kruskal's algorithm as a sequence of steps over a weight-sorted list of edges. */
module Kruskal {
  import opened Forests

  /**
   `T` is what the algorithm has chosen after examining the first k edges of `s`:
   a forest that connects the ends of each of them.
   */
  ghost predicate ChosenAt(s: seq<Edge>, k: nat, T: set<Edge>) {
    && k <= |s|
    && T <= Elements(s[..k])
    && Acyclic(T)
    && (forall i :: 0 <= i < k ==> (s[i] in T <==> !EndsConnected(Elements(s[..i]), s[i])))
    && (forall i :: 0 <= i < k ==> EndsConnected(T, s[i]))
  }

  lemma PrefixGrows(s: seq<Edge>, k: nat)
    requires k < |s|
    ensures Elements(s[..k+1]) == Elements(s[..k]) + {s[k]}
  {
    assert s[..k+1] == s[..k] + [s[k]];
  }

  /** The chosen edges connect exactly what the examined edges connect. */
  lemma ChosenConnects(s: seq<Edge>, k: nat, T: set<Edge>, u: string, v: string)
    requires ChosenAt(s, k, T)
    ensures Connected(T, u, v) <==> Connected(Elements(s[..k]), u, v)
  {
    forall e | e in Elements(s[..k]) ensures EndsConnected(T, e) {
      var i :| 0 <= i < k && s[..k][i] == e;
      assert s[i] == e;
    }
    SpanningConnects(Elements(s[..k]), T, u, v);
  }

  /** Nothing is chosen before it is examined. */
  lemma LaterNotChosen(s: seq<Edge>, k: nat, T: set<Edge>)
    requires ChosenAt(s, k, T) && SortedByWeight(s)
    ensures forall i :: k <= i < |s| ==> s[i] !in T
  {
    assert forall i, j :: 0 <= i < k <= j < |s| ==> s[..k][i] != s[j];
  }

  lemma Skip(s: seq<Edge>, k: nat, T: set<Edge>)
    requires ChosenAt(s, k, T) && SortedByWeight(s) && k < |s|
    requires EndsConnected(T, s[k])
    ensures ChosenAt(s, k + 1, T)
  {
    PrefixGrows(s, k);
    ChosenConnects(s, k, T, s[k].first.vertex, s[k].second.vertex);
    assert s[k] !in Elements(s[..k]) by {
      assert forall i :: 0 <= i < k ==> s[..k][i] != s[k];
    }
  }

  lemma Take(s: seq<Edge>, k: nat, T: set<Edge>)
    requires ChosenAt(s, k, T) && SortedByWeight(s) && k < |s|
    requires !EndsConnected(T, s[k])
    ensures ChosenAt(s, k + 1, T + {s[k]})
  {
    var e := s[k];
    PrefixGrows(s, k);
    ChosenConnects(s, k, T, e.first.vertex, e.second.vertex);
    AcyclicAdd(T, e);
    OwnEnds(T + {e}, e);
    forall i | 0 <= i < k ensures EndsConnected(T + {e}, s[i]) {
      Monotone(T, T + {e}, s[i].first.vertex, s[i].second.vertex);
    }
  }

  /** Once the chosen edges connect all vertices, the edges left over may be ignored. */
  lemma {:induction false} StopEarly(s: seq<Edge>, k: nat, T: set<Edge>)
    requires ChosenAt(s, k, T) && SortedByWeight(s)
    requires forall e :: e in s ==> EndsConnected(T, e)
    ensures ChosenAt(s, |s|, T)
    decreases |s| - k
  {
    if k < |s| {
      Skip(s, k, T);
      StopEarly(s, k + 1, T);
    }
  }

  /** A completed run leaves a minimum-weight spanning forest. */
  lemma Completed(s: seq<Edge>, T: set<Edge>)
    requires ChosenAt(s, |s|, T) && SortedByWeight(s)
    ensures MinimumSpanningForest(Elements(s), T)
  {
    assert s[..|s|] == s;
    GreedyIsMinimum(s, T);
  }
}
