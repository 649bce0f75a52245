/**
 * The edge registry entries and the selection rule of getBestEdge
 * (src/load-balancing.js, lines 152-163): the first edge of minimum
 * non-null latency, or none when every edge is unprobed or unreachable.
 */
module EdgeSelection {
  import opened Wrappers

  /**
   * One entry of `EdgeServers`: the hostname from the discovery response, the
   * latency written by the probe (None while unprobed or unreachable), and the
   * session-affinity token harvested from the edge's playlist.
   */
  datatype Edge = Edge(hostname: string, latency: Option<int>, nimbleSessionId: Option<string>)

  /** An edge is live once a probe has recorded a latency for it. */
  predicate Live(e: Edge) {
    e.latency.Some?
  }

  ghost predicate AllDead(s: seq<Edge>) {
    forall i :: 0 <= i < |s| ==> !Live(s[i])
  }

  /** `k` is a live edge whose latency is minimal, and no earlier live edge ties with it. */
  ghost predicate IsFirstMinimum(s: seq<Edge>, k: int) {
    && 0 <= k < |s| && Live(s[k])
    && (forall j :: 0 <= j < |s| && Live(s[j]) ==> s[k].latency.value <= s[j].latency.value)
    && (forall j :: 0 <= j < k && Live(s[j]) ==> s[j].latency.value > s[k].latency.value)
  }

  /**
   * The edge the scan over `s` has selected once it has seen all of `s`
   * (the loop's `selectedEdge`, as an index). A later edge replaces the
   * current choice only when its latency is strictly smaller.
   */
  function BestIndex(s: seq<Edge>): (r: Option<nat>)
    ensures r.Some? ==> r.value < |s| && Live(s[r.value])
  {
    if |s| == 0 then None
    else
      var chosen := BestIndex(s[..|s| - 1]);
      var e := s[|s| - 1];
      if !Live(e) then chosen
      else if chosen.None? || s[chosen.value].latency.value > e.latency.value then Some(|s| - 1)
      else chosen
  }

  /** Selection returns no edge exactly when all are dead, and otherwise the first minimum. */
  lemma {:induction false} BestIndexIsFirstMinimum(s: seq<Edge>)
    ensures BestIndex(s).None? <==> AllDead(s)
    ensures BestIndex(s).Some? ==> IsFirstMinimum(s, BestIndex(s).value)
  {
    if |s| > 0 {
      var init := s[..|s| - 1];
      BestIndexIsFirstMinimum(init);
      assert forall j :: 0 <= j < |init| ==> init[j] == s[j];
    }
  }

  lemma FirstMinimumUnique(s: seq<Edge>, k: int, k': int)
    requires IsFirstMinimum(s, k) && IsFirstMinimum(s, k')
    ensures k == k'
  {
  }

  /** The selection, characterised without reference to the scan: both directions. */
  lemma BestIndexCharacterised(s: seq<Edge>, k: nat)
    ensures BestIndex(s) == Some(k) <==> IsFirstMinimum(s, k)
    ensures BestIndex(s) == None <==> AllDead(s)
  {
    BestIndexIsFirstMinimum(s);
    if IsFirstMinimum(s, k) && BestIndex(s).Some? {
      FirstMinimumUnique(s, k, BestIndex(s).value);
    }
  }

  /** Selection looks at latencies only: hostnames and tokens do not influence it. */
  lemma {:induction false} BestIndexReadsLatenciesOnly(s: seq<Edge>, t: seq<Edge>)
    requires |s| == |t|
    requires forall i :: 0 <= i < |s| ==> s[i].latency == t[i].latency
    ensures BestIndex(s) == BestIndex(t)
  {
    if |s| > 0 {
      BestIndexReadsLatenciesOnly(s[..|s| - 1], t[..|t| - 1]);
    }
  }
}
