/**
 * The stateful part of the load balancer (src/load-balancing.js): the module
 * variables `EdgeServers` and `MainPlaylistSrc`, the probe outcome rule, the
 * segment URI rewrite, the session-token harvest and the failover reset.
 *
 * Network requests are not performed: an operation that would send one
 * returns a description of it (a `HarvestRequest`), and the asynchronous
 * completions are separate operations that take the response as input.
 */
module LoadBalancing {
  import opened Wrappers
  import opened JsString
  import opened Uri
  import opened EdgeSelection

  // ---------------------------------------------------------------------
  // Probing (getLatencyEdge)

  /** Statuses that prove the edge answered: 200, and also the rejections 403 and 404. */
  predicate Reachable(status: int) {
    status == 200 || status == 403 || status == 404
  }

  /** A reachable probe makes its edge eligible, so selection no longer returns none. */
  lemma ProbedEdgeIsSelectable(s: seq<Edge>, i: nat, elapsed: int)
    requires i < |s|
    ensures BestIndex(s[i := s[i].(latency := Some(elapsed))]).Some?
  {
    var t := s[i := s[i].(latency := Some(elapsed))];
    assert Live(t[i]);
    BestIndexIsFirstMinimum(t);
  }

  // ---------------------------------------------------------------------
  // Segment URI rewrite (getSegmentURI)

  /** The URI getSegmentURI returns for `resolvedUri` when the registry holds `s`. */
  function RewriteSegmentUri(s: seq<Edge>, resolvedUri: string): string {
    match BestIndex(s)
    case None => resolvedUri
    case Some(k) =>
      match s[k].nimbleSessionId
      case None => resolvedUri
      case Some(id) => ReplaceSessionId(ReplaceHostname(resolvedUri, s[k].hostname), id)
  }

  /** Without a live edge, or while the chosen edge has no token, the URI passes through unchanged. */
  lemma RewriteWithoutTokenIsIdentity(s: seq<Edge>, resolvedUri: string)
    requires AllDead(s) || forall k :: IsFirstMinimum(s, k) ==> s[k].nimbleSessionId.None?
    ensures RewriteSegmentUri(s, resolvedUri) == resolvedUri
  {
    BestIndexIsFirstMinimum(s);
  }

  /**
   * With a token on the chosen edge, the rewritten URI names that edge as its
   * hostname and carries its token as the session id, provided the old host
   * does not already occur inside "scheme://" and the session parameter sits
   * in the path or query of the URI.
   */
  lemma RewriteTargetsBestEdge(s: seq<Edge>, k: nat, scheme: string, host: string, rest: string)
    requires IsFirstMinimum(s, k) && s[k].nimbleSessionId.Some?
    requires '&' !in s[k].nimbleSessionId.value && '/' !in s[k].hostname
    requires ':' !in scheme && '/' !in host
    requires forall j :: 0 <= j < |scheme| + 3 ==> !OccursAt(scheme + SchemeSeparator + host + "/" + rest, host, j)
    requires var w := scheme + SchemeSeparator + s[k].hostname + "/" + rest;
      IndexOf(w, SessionParameter, 0) >= |scheme| + 4 + |s[k].hostname|
    ensures var r := RewriteSegmentUri(s, scheme + SchemeSeparator + host + "/" + rest);
      Hostname(r) == s[k].hostname &&
      ParameterValue(r, SessionParameter) == s[k].nimbleSessionId
  {
    var h := s[k].hostname;
    var id := s[k].nimbleSessionId.value;
    var uri := scheme + SchemeSeparator + host + "/" + rest;
    var w := scheme + SchemeSeparator + h + "/" + rest;
    assert RewriteSegmentUri(s, uri) == ReplaceSessionId(w, id) by {
      BestIndexCharacterised(s, k);
      ReplaceHostnameOf(scheme, host, rest, h);
    }
    var r := ReplaceSessionId(w, id);
    var n := |scheme| + 4 + |h|;
    assert n <= |r| && r[..n] == w[..n] && ParameterValue(r, SessionParameter) == Some(id) by {
      ReplaceSessionIdKeepsPrefix(w, id, n);
    }
    HostnameKeptByPrefix(scheme, h, rest, r);
  }

  /**
   * The exact rewrite of a URI laid out as scheme://host/path, the session
   * parameter, the current id and a tail that is empty or starts with "&": the
   * host is swapped for the chosen edge and the id for its token, nothing else.
   * The conditions are exactly that `replace` finds the old host right after
   * "://" and that the session parameter does not occur earlier in the URI
   * with the edge's hostname in place.
   */
  lemma RewriteReplacesHostAndSession(s: seq<Edge>, k: nat, scheme: string, host: string,
                                      path: string, current: string, tail: string)
    requires IsFirstMinimum(s, k) && s[k].nimbleSessionId.Some?
    requires ':' !in scheme && '/' !in host
    requires forall j :: 0 <= j < |scheme| + 3 ==>
      !OccursAt(scheme + SchemeSeparator + host + "/" + path + SessionParameter + current + tail, host, j)
    requires forall j :: 0 <= j < |scheme| + 4 + |s[k].hostname| + |path| ==>
      !OccursAt(scheme + SchemeSeparator + s[k].hostname + "/" + path + SessionParameter + current + tail,
                SessionParameter, j)
    requires '&' !in current && (tail == [] || tail[0] == '&')
    ensures RewriteSegmentUri(s, scheme + SchemeSeparator + host + "/" + path + SessionParameter + current + tail)
         == scheme + SchemeSeparator + s[k].hostname + "/" + path + SessionParameter + s[k].nimbleSessionId.value + tail
  {
    var h := s[k].hostname;
    var uri := scheme + SchemeSeparator + host + "/" + path + SessionParameter + current + tail;
    var rest := path + SessionParameter + current + tail;
    var a := scheme + SchemeSeparator + h + "/" + path;
    assert RewriteSegmentUri(s, uri) == ReplaceSessionId(ReplaceHostname(uri, h), s[k].nimbleSessionId.value) by {
      BestIndexCharacterised(s, k);
    }
    assert ReplaceHostname(uri, h) == a + SessionParameter + current + tail by {
      ConcatRegroup(scheme + SchemeSeparator + host + "/", path, SessionParameter, current, tail);
      ReplaceHostnameOf(scheme, host, rest, h);
      ConcatRegroup(scheme + SchemeSeparator + h + "/", path, SessionParameter, current, tail);
    }
    ReplaceSessionIdOf(a, current, tail, s[k].nimbleSessionId.value);
  }

  /** A segment URI of the kind the rewrite is applied to, for a given host and session id. */
  function ExampleSegmentUri(host: string, id: string): string {
    "https" + SchemeSeparator + host + "/" + "path/seg.ts?" + SessionParameter + id + "&x=1"
  }

  /**
   * A concrete rewrite, as the code computes it: one might expect ":443" to
   * survive, but it belongs to the old "hostname" and is dropped with it.
   */
  lemma RewriteDropsPort()
    ensures RewriteSegmentUri([Edge("edge2.example.com", Some(12), Some("NEW"))],
                              ExampleSegmentUri("origin.example.com:443", "OLD"))
         == ExampleSegmentUri("edge2.example.com", "NEW")
  {
    var s := [Edge("edge2.example.com", Some(12), Some("NEW"))];
    assert IsFirstMinimum(s, 0);
    ExampleLayout();
    LayoutByFirstCharacter("https", "origin.example.com:443", "edge2.example.com", "path/seg.ts?", "OLD", "&x=1");
    RewriteReplacesHostAndSession(s, 0, "https", "origin.example.com:443", "path/seg.ts?", "OLD", "&x=1");
  }

  /**
   * The occurrence conditions of the rewriting lemma follow when the first
   * character of the old host is not in "scheme://" and that of the session
   * parameter is not in the URI before it.
   */
  lemma LayoutByFirstCharacter(scheme: string, host: string, h: string, path: string, current: string, tail: string)
    requires host != [] && host[0] !in scheme + SchemeSeparator
    requires SessionParameter[0] !in scheme + SchemeSeparator + h + "/" + path
    ensures forall j :: 0 <= j < |scheme| + 3 ==>
      !OccursAt(scheme + SchemeSeparator + host + "/" + path + SessionParameter + current + tail, host, j)
    ensures forall j :: 0 <= j < |scheme| + 4 + |h| + |path| ==>
      !OccursAt(scheme + SchemeSeparator + h + "/" + path + SessionParameter + current + tail, SessionParameter, j)
  {
    var u := scheme + SchemeSeparator + host + "/" + path + SessionParameter + current + tail;
    forall j | 0 <= j < |scheme| + 3 ensures !OccursAt(u, host, j) {
      if OccursAt(u, host, j) {
        OccursAtHead(u, host, j);
      }
    }
    var a := scheme + SchemeSeparator + h + "/" + path;
    var w := a + SessionParameter + current + tail;
    forall j | 0 <= j < |a| ensures !OccursAt(w, SessionParameter, j) {
      if OccursAt(w, SessionParameter, j) {
        OccursAtHead(w, SessionParameter, j);
      }
    }
  }

  /** The layout conditions of the rewriting lemma, checked on the example's pieces. */
  lemma ExampleLayout()
    ensures ':' !in "https" && '/' !in "origin.example.com:443" && "origin.example.com:443"[0] !in "https" + SchemeSeparator
    ensures SessionParameter[0] !in "https" + SchemeSeparator + "edge2.example.com" + "/" + "path/seg.ts?"
  {
    assert SessionParameter[0] == 'n';
    assert 'n' !in "https" && 'n' !in SchemeSeparator && 'n' !in "/";
    assert 'n' !in "edge2.example.com";
    assert 'n' !in "path/seg.ts?";
    assert "origin.example.com:443"[0] == 'o';
    assert 'o' !in "https" && 'o' !in SchemeSeparator;
  }

  // ---------------------------------------------------------------------
  // Session-token harvest (getPlaylistsEdges and its response callback)

  /** The playlist fetch getPlaylistsEdges would issue: for which edge, at which URI. */
  datatype Harvest = Harvest(index: nat, playlistUri: string)

  /** An issued fetch; the callback writes into the registry array it was issued against. */
  datatype HarvestRequest = HarvestRequest(registry: array<Edge>, plan: Harvest)

  /** The source hostname with its port stripped, as compared against the edge. */
  function SourceHost(srcUrl: string): string {
    RemovePort(Hostname(srcUrl))
  }

  /**
   * The guard chain of getPlaylistsEdges: no fetch without a chosen edge, when
   * it already has a token, or when it is the source host (ignoring case).
   */
  function HarvestPlan(s: seq<Edge>, srcUrl: string): Option<Harvest> {
    match BestIndex(s)
    case None => None
    case Some(k) =>
      if s[k].nimbleSessionId.Some? then None
      else if Lower(s[k].hostname) == Lower(SourceHost(srcUrl)) then None
      else Some(Harvest(k, ReplaceHostname(srcUrl, s[k].hostname)))
  }

  function Issue(registry: array<Edge>, plan: Option<Harvest>): Option<HarvestRequest> {
    match plan
    case None => None
    case Some(h) => Some(HarvestRequest(registry, h))
  }

  /** The registry after the harvest callback stores `token` on edge `k`. */
  function RecordToken(s: seq<Edge>, k: nat, token: Option<string>): seq<Edge>
    requires k < |s|
  {
    s[k := s[k].(nimbleSessionId := token)]
  }

  /** A fetch is planned exactly for the first-minimum edge when it lacks a token and is not the source host. */
  lemma HarvestPlanCharacterised(s: seq<Edge>, srcUrl: string)
    ensures AllDead(s) ==> HarvestPlan(s, srcUrl).None?
    ensures HarvestPlan(s, srcUrl).Some? ==>
      var h := HarvestPlan(s, srcUrl).value;
      && IsFirstMinimum(s, h.index)
      && s[h.index].nimbleSessionId.None?
      && Lower(s[h.index].hostname) != Lower(SourceHost(srcUrl))
      && h.playlistUri == ReplaceHostname(srcUrl, s[h.index].hostname)
    ensures forall k ::
      (IsFirstMinimum(s, k) && s[k].nimbleSessionId.None? && Lower(s[k].hostname) != Lower(SourceHost(srcUrl)))
      ==> HarvestPlan(s, srcUrl) == Some(Harvest(k, ReplaceHostname(srcUrl, s[k].hostname)))
  {
    BestIndexIsFirstMinimum(s);
    forall k | IsFirstMinimum(s, k)
      ensures BestIndex(s) == Some(k)
    {
      BestIndexCharacterised(s, k);
    }
  }

  /**
   * Once a token is stored for the planned edge, the next call plans nothing;
   * storing "no token" (a variant URI without the parameter) plans the same fetch again.
   */
  lemma HarvestIsIdempotent(s: seq<Edge>, srcUrl: string, token: Option<string>)
    requires HarvestPlan(s, srcUrl).Some?
    ensures var h := HarvestPlan(s, srcUrl).value;
      HarvestPlan(RecordToken(s, h.index, token), srcUrl) == if token.Some? then None else Some(h)
  {
    var h := HarvestPlan(s, srcUrl).value;
    BestIndexReadsLatenciesOnly(s, RecordToken(s, h.index, token));
  }

  /** The chosen edge is not fetched when it is the source's own host, with any non-empty port and in any letter case. */
  lemma SameHostIsNotHarvested(s: seq<Edge>, scheme: string, host: string, port: string, rest: string)
    requires ':' !in scheme && ':' !in host && '/' !in host && '/' !in port && port != ""
    requires BestIndex(s).Some? && Lower(s[BestIndex(s).value].hostname) == Lower(host)
    ensures HarvestPlan(s, scheme + SchemeSeparator + host + ":" + port + "/" + rest) == None
  {
    assert scheme + SchemeSeparator + host + ":" + port + "/" + rest
        == scheme + SchemeSeparator + (host + ":" + port) + "/" + rest;
    HostnameOf(scheme, host + ":" + port, rest);
    PortOfHostname(host, port);
  }

  /** Without a port, the chosen edge is not fetched when it is the source's host, in any letter case. */
  lemma SameHostWithoutPortIsNotHarvested(s: seq<Edge>, scheme: string, host: string, rest: string)
    requires ':' !in scheme && ':' !in host && '/' !in host
    requires BestIndex(s).Some? && Lower(s[BestIndex(s).value].hostname) == Lower(host)
    ensures HarvestPlan(s, scheme + SchemeSeparator + host + "/" + rest) == None
  {
    HostnameOf(scheme, host, rest);
    RemovePortWithoutColon(host);
  }

  /** The chunk pre-fetch URL: the playlist URI up to its last "/", then the variant URI. */
  function ChunkUrl(playlistUri: string, variantUri: string): (r: Option<string>)
    ensures r.None? <==> '/' !in playlistUri
    ensures r.Some? ==>
      var n := |r.value| - |variantUri|;
      && 0 < n <= |playlistUri|
      && r.value == playlistUri[..n] + variantUri
      && playlistUri[n - 1] == '/' && '/' !in playlistUri[n..]
  {
    var lastDash := LastIndexOf(playlistUri, '/');
    if lastDash != -1 then Some(Substring(playlistUri, 0, lastDash + 1) + variantUri) else None
  }

  /**
   * The harvest callback (getPlaylistsEdges, after the response is parsed):
   * when the playlist has a first variant, pre-fetch its chunk and store the
   * variant's session id (None when the parameter is absent) on the edge.
   */
  method CompleteHarvest(request: HarvestRequest, firstVariantUri: Option<string>) returns (chunkUrl: Option<string>)
    requires request.plan.index < request.registry.Length
    modifies request.registry
    ensures chunkUrl == if firstVariantUri.Some? then ChunkUrl(request.plan.playlistUri, firstVariantUri.value) else None
    ensures request.registry[..] ==
      if firstVariantUri.None? then old(request.registry[..])
      else RecordToken(old(request.registry[..]), request.plan.index,
                       ParameterValue(firstVariantUri.value, SessionParameter))
  {
    chunkUrl := None;
    if firstVariantUri.Some? {
      var variant := firstVariantUri.value;
      var lastDash := LastIndexOf(request.plan.playlistUri, '/');
      if lastDash != -1 {
        chunkUrl := Some(Substring(request.plan.playlistUri, 0, lastDash + 1) + variant);
      }
      var k := request.plan.index;
      request.registry[k] := request.registry[k].(nimbleSessionId := ParameterValue(variant, SessionParameter));
    }
  }

  // ---------------------------------------------------------------------
  // Failover (segmentErrorHandler)

  /** The registry with the tokens of the first `n` edges deleted. */
  function ClearTokens(s: seq<Edge>, n: nat): (r: seq<Edge>)
    ensures |r| == |s|
  {
    seq(|s|, i requires 0 <= i < |s| => if i < n then s[i].(nimbleSessionId := None) else s[i])
  }

  /** Clearing one more token: the step the reset loop takes. */
  lemma ClearTokensStep(s: seq<Edge>, i: nat)
    requires i < |s|
    ensures ClearTokens(s, i)[i := ClearTokens(s, i)[i].(nimbleSessionId := None)] == ClearTokens(s, i + 1)
    ensures ClearTokens(s, i + 1)[i].hostname == s[i].hostname
  {
  }

  /** After the full reset no edge has a token, and hostnames and latencies are as before. */
  lemma ResetClearsEveryToken(s: seq<Edge>)
    ensures var r := ClearTokens(s, |s|);
      |r| == |s| &&
      forall i :: 0 <= i < |s| ==>
        r[i].nimbleSessionId.None? && r[i].hostname == s[i].hostname && r[i].latency == s[i].latency
  {
  }

  /** Clearing tokens leaves the selection where it was. */
  lemma ResetKeepsSelection(s: seq<Edge>, n: nat)
    ensures BestIndex(ClearTokens(s, n)) == BestIndex(s)
  {
    BestIndexReadsLatenciesOnly(ClearTokens(s, n), s);
  }

  /** After the reset, segment URIs pass through unchanged until a token is harvested again. */
  lemma ResetDisablesRewrite(s: seq<Edge>, resolvedUri: string)
    ensures RewriteSegmentUri(ClearTokens(s, |s|), resolvedUri) == resolvedUri
  {
    var r := ClearTokens(s, |s|);
    BestIndexIsFirstMinimum(r);
  }

  /** The host getSegmentURI's caller compares edges against: removePortFromURI, then getHostnameFromURI. */
  function SegmentEdgeHostname(segmentUri: string): string {
    Hostname(RemovePort(segmentUri))
  }

  function OptionToSeq<T>(o: Option<T>): seq<T> {
    match o
    case None => []
    case Some(x) => [x]
  }

  /**
   * The fetch round `n` of the reset loop issues (rounds count from 1): the
   * token of edge n-1 has just been deleted and, when that edge matches the
   * failing host, getSegmentURI runs the harvest guards on the partly cleared
   * registry.
   */
  function ResetRound(s: seq<Edge>, src: Option<string>, segmentHost: string, n: nat): seq<Harvest>
    requires 0 < n <= |s|
  {
    if src.Some? && Lower(s[n - 1].hostname) == Lower(segmentHost)
    then OptionToSeq(HarvestPlan(ClearTokens(s, n), src.value))
    else []
  }

  /** The fetches the reset loop issues in its first `n` rounds. */
  function ResetPlans(s: seq<Edge>, src: Option<string>, segmentHost: string, n: nat): seq<Harvest>
    requires n <= |s|
  {
    if n == 0 then [] else ResetPlans(s, src, segmentHost, n - 1) + ResetRound(s, src, segmentHost, n)
  }

  /** A round issues at most one fetch, none without a main source, and only for the chosen edge. */
  lemma ResetRoundTargetsBestEdge(s: seq<Edge>, src: Option<string>, segmentHost: string, n: nat)
    requires 0 < n <= |s|
    ensures |ResetRound(s, src, segmentHost, n)| <= 1
    ensures src.None? ==> ResetRound(s, src, segmentHost, n) == []
    ensures forall h :: h in ResetRound(s, src, segmentHost, n) ==>
      src.Some? && IsFirstMinimum(s, h.index) && h.playlistUri == ReplaceHostname(src.value, s[h.index].hostname)
  {
    var t := ClearTokens(s, n);
    if src.Some? && HarvestPlan(t, src.value).Some? {
      var h := HarvestPlan(t, src.value).value;
      assert IsFirstMinimum(t, h.index) && h.playlistUri == ReplaceHostname(src.value, t[h.index].hostname) by {
        HarvestPlanCharacterised(t, src.value);
      }
      ClearedFirstMinimum(s, n, h.index);
    }
  }

  /** The first-minimum edge of a partly cleared registry is that of the original one. */
  lemma ClearedFirstMinimum(s: seq<Edge>, n: nat, k: nat)
    requires IsFirstMinimum(ClearTokens(s, n), k)
    ensures IsFirstMinimum(s, k)
  {
    ResetKeepsSelection(s, n);
    BestIndexCharacterised(ClearTokens(s, n), k);
    BestIndexCharacterised(s, k);
  }

  /** Every fetch the reset loop issues is for the chosen edge, at most one per round. */
  lemma {:induction false} ResetPlansTargetBestEdge(s: seq<Edge>, src: Option<string>, segmentHost: string, n: nat)
    requires n <= |s|
    ensures |ResetPlans(s, src, segmentHost, n)| <= n
    ensures src.None? ==> ResetPlans(s, src, segmentHost, n) == []
    ensures forall h :: h in ResetPlans(s, src, segmentHost, n) ==>
      src.Some? && IsFirstMinimum(s, h.index) && h.playlistUri == ReplaceHostname(src.value, s[h.index].hostname)
  {
    if n > 0 {
      var prev := ResetPlans(s, src, segmentHost, n - 1);
      var round := ResetRound(s, src, segmentHost, n);
      assert ResetPlans(s, src, segmentHost, n) == prev + round;
      ResetPlansTargetBestEdge(s, src, segmentHost, n - 1);
      ResetRoundTargetsBestEdge(s, src, segmentHost, n);
      TargetsBestEdgeAppend(s, src, prev, round);
    }
  }

  /** Fetches that all target the chosen edge still do after concatenation. */
  lemma TargetsBestEdgeAppend(s: seq<Edge>, src: Option<string>, p: seq<Harvest>, q: seq<Harvest>)
    requires forall h :: h in p ==>
      src.Some? && IsFirstMinimum(s, h.index) && h.playlistUri == ReplaceHostname(src.value, s[h.index].hostname)
    requires forall h :: h in q ==>
      src.Some? && IsFirstMinimum(s, h.index) && h.playlistUri == ReplaceHostname(src.value, s[h.index].hostname)
    ensures forall h :: h in p + q ==>
      src.Some? && IsFirstMinimum(s, h.index) && h.playlistUri == ReplaceHostname(src.value, s[h.index].hostname)
  {
  }

  /** The requests issued against `registry` for each of `plans`, in order. */
  function IssueAll(registry: array<Edge>, plans: seq<Harvest>): (r: seq<HarvestRequest>)
    ensures |r| == |plans|
    ensures forall k :: 0 <= k < |plans| ==> r[k].registry == registry && r[k].plan == plans[k]
  {
    seq(|plans|, k requires 0 <= k < |plans| => HarvestRequest(registry, plans[k]))
  }

  lemma IssueAllAppend(registry: array<Edge>, p: seq<Harvest>, q: seq<Harvest>)
    ensures IssueAll(registry, p + q) == IssueAll(registry, p) + IssueAll(registry, q)
  {
  }

  lemma IssueAllOption(registry: array<Edge>, plan: Option<Harvest>)
    ensures OptionToSeq(Issue(registry, plan)) == IssueAll(registry, OptionToSeq(plan))
  {
  }

  // ---------------------------------------------------------------------
  // Authorization refresh (the success callback of segmentErrorHandler)

  /**
   * The master URI to install after the signing service answered `authResponse`:
   * None when the answer has no signature; otherwise the first occurrence of the
   * old signature (the text "null" when the old URI had none) is replaced.
   */
  function RefreshedMasterUri(oldMasterUri: string, authResponse: string): (r: Option<string>)
    ensures r.None? <==> forall j :: !OccursAt(authResponse, AuthSignParameter, j)
  {
    var oldSign := ParameterValue(oldMasterUri, AuthSignParameter);
    match ParameterValue(authResponse, AuthSignParameter)
    case None => None
    case Some(newSign) =>
      Some(Replace(oldMasterUri, if oldSign.Some? then oldSign.value else "null", newSign))
  }

  /**
   * With the old signature not appearing before its own parameter, exactly the
   * signature value is swapped and reads back as the new one.
   */
  lemma RefreshSubstitutesSignature(oldMasterUri: string, authResponse: string, i: nat, newSign: string)
    requires OccursAt(oldMasterUri, AuthSignParameter, i)
    requires forall j :: 0 <= j < i ==> !OccursAt(oldMasterUri, AuthSignParameter, j)
    requires var oldSign := ParameterValue(oldMasterUri, AuthSignParameter);
      oldSign.Some? &&
      forall j :: 0 <= j < i + |AuthSignParameter| ==> !OccursAt(oldMasterUri, oldSign.value, j)
    requires ParameterValue(authResponse, AuthSignParameter) == Some(newSign) && '&' !in newSign
    ensures var k := i + |AuthSignParameter|;
      var v := ParameterValue(oldMasterUri, AuthSignParameter).value;
      k + |v| <= |oldMasterUri| &&
      RefreshedMasterUri(oldMasterUri, authResponse) == Some(oldMasterUri[..k] + newSign + oldMasterUri[k + |v|..])
    ensures ParameterValue(RefreshedMasterUri(oldMasterUri, authResponse).value, AuthSignParameter) == Some(newSign)
  {
    var P := AuthSignParameter;
    var v := ParameterValue(oldMasterUri, P).value;
    var k := i + |P|;
    assert ValueAt(oldMasterUri, k, v) by {
      ParameterNamesHaveNoAmpersand();
      ParameterValueFound(oldMasterUri, P, i);
    }
    var r := oldMasterUri[..k] + newSign + oldMasterUri[k + |v|..];
    assert Replace(oldMasterUri, v, newSign) == r by {
      assert OccursAt(oldMasterUri, v, k);
      ReplaceFirst(oldMasterUri, v, newSign, k);
    }
    assert RefreshedMasterUri(oldMasterUri, authResponse) == Some(Replace(oldMasterUri, v, newSign));
    assert ParameterValue(r, P) == Some(newSign) by {
      ParameterNamesHaveNoAmpersand();
      ParameterValueAfterSplice(oldMasterUri, P, i, v, newSign);
    }
  }

  /** An old URI without a signature (and without the text "null") is reinstalled unchanged. */
  lemma RefreshWithoutOldSignature(oldMasterUri: string, authResponse: string)
    requires forall j :: !OccursAt(oldMasterUri, AuthSignParameter, j)
    requires forall j :: !OccursAt(oldMasterUri, "null", j)
    requires ParameterValue(authResponse, AuthSignParameter).Some?
    ensures RefreshedMasterUri(oldMasterUri, authResponse) == Some(oldMasterUri)
  {
    ReplaceAbsent(oldMasterUri, "null", ParameterValue(authResponse, AuthSignParameter).value);
  }

  // ---------------------------------------------------------------------
  // The module state

  class LoadBalancer {
    /** `EdgeServers`: replaced wholesale by preRun, annotated in place afterwards. */
    var edges: array<Edge>
    /** `MainPlaylistSrc`: the first playlist source seen, latched once. */
    var mainPlaylistSrc: Option<string>

    constructor ()
      ensures edges.Length == 0 && mainPlaylistSrc.None?
    {
      edges := new Edge[0];
      mainPlaylistSrc := None;
    }

    /** preRun's discovery callback: the parsed edge list replaces the registry. */
    method LoadEdges(discovered: seq<Edge>)
      modifies this
      ensures fresh(edges) && edges[..] == discovered
      ensures mainPlaylistSrc == old(mainPlaylistSrc)
    {
      edges := new Edge[|discovered|](i requires 0 <= i < |discovered| => discovered[i]);
    }

    /** getBestEdge: the first live edge of minimum latency, or None. */
    method BestEdge() returns (best: Option<nat>)
      ensures best == BestIndex(edges[..])
    {
      best := None;
      var i := 0;
      while i < edges.Length
        invariant 0 <= i <= edges.Length
        invariant best == BestIndex(edges[..i])
      {
        assert edges[..i + 1][..i] == edges[..i];
        if edges[i].latency.Some? {
          if best.None? {
            best := Some(i);
          }
          if edges[best.value].latency.value > edges[i].latency.value {
            best := Some(i);
          }
        }
        i := i + 1;
      }
      assert edges[..i] == edges[..];
    }

    /**
     * getLatencyEdge's completion for edge `edge`: a reachable status records the
     * elapsed time as its latency; any other outcome leaves the edge as it was.
     */
    method RecordProbe(edge: nat, status: int, elapsed: int) returns (reachable: bool)
      requires edge < edges.Length
      modifies edges
      ensures reachable == Reachable(status)
      ensures edges[..] ==
        if reachable then old(edges[..])[edge := old(edges[edge]).(latency := Some(elapsed))]
        else old(edges[..])
    {
      reachable := status == 200 || status == 403 || status == 404;
      if reachable {
        edges[edge] := edges[edge].(latency := Some(elapsed));
      }
    }

    /** getPlaylistsEdges: latch the main source, then issue the harvest fetch if the guards allow it. */
    method PlaylistsEdges(srcUrl: string) returns (request: Option<HarvestRequest>)
      modifies this
      ensures edges == old(edges)
      ensures mainPlaylistSrc == if old(mainPlaylistSrc).None? then Some(srcUrl) else old(mainPlaylistSrc)
      ensures request == Issue(edges, HarvestPlan(edges[..], srcUrl))
    {
      if mainPlaylistSrc.None? {
        mainPlaylistSrc := Some(srcUrl);
      }
      var best := BestEdge();
      if best.None? {
        return None;
      }
      var edge := edges[best.value];
      if edge.nimbleSessionId.Some? {
        return None;
      }
      var srcUrlHostname := RemovePort(Hostname(srcUrl));
      if Lower(edge.hostname) == Lower(srcUrlHostname) {
        return None;
      }
      request := Some(HarvestRequest(edges, Harvest(best.value, ReplaceHostname(srcUrl, edge.hostname))));
    }

    /** getSegmentURI: run the harvest guards on the main source, then rewrite the segment URI. */
    method SegmentUri(resolvedUri: string) returns (uri: string, request: Option<HarvestRequest>)
      modifies this
      ensures edges == old(edges) && mainPlaylistSrc == old(mainPlaylistSrc)
      ensures request == if mainPlaylistSrc.Some? then Issue(edges, HarvestPlan(edges[..], mainPlaylistSrc.value)) else None
      ensures uri == RewriteSegmentUri(edges[..], resolvedUri)
    {
      request := None;
      if mainPlaylistSrc.Some? {
        request := PlaylistsEdges(mainPlaylistSrc.value);
      }
      var best := BestEdge();
      if best.Some? && edges[best.value].nimbleSessionId.Some? {
        var segmentUri := ReplaceHostname(resolvedUri, edges[best.value].hostname);
        uri := ReplaceSessionId(segmentUri, edges[best.value].nimbleSessionId.value);
      } else {
        uri := resolvedUri;
      }
    }

    /**
     * One round of segmentErrorHandler's reset loop: delete the token of edge `i`
     * and, when that edge is the failing host, re-run getSegmentURI (its
     * rewritten URI is discarded; the fetch it issues, if any, is returned).
     */
    method ResetEdge(i: nat, segmentUri: string, segmentEdgeHostname: string) returns (issued: seq<HarvestRequest>)
      requires i < edges.Length
      modifies this, edges
      ensures edges == old(edges) && mainPlaylistSrc == old(mainPlaylistSrc)
      ensures edges[..] == old(edges[..])[i := old(edges[i]).(nimbleSessionId := None)]
      ensures issued ==
        if mainPlaylistSrc.Some? && Lower(edges[i].hostname) == Lower(segmentEdgeHostname)
        then IssueAll(edges, OptionToSeq(HarvestPlan(edges[..], mainPlaylistSrc.value)))
        else []
    {
      edges[i] := edges[i].(nimbleSessionId := None);
      issued := [];
      if Lower(edges[i].hostname) == Lower(segmentEdgeHostname) {
        var _, request := SegmentUri(segmentUri);
        IssueAllOption(edges, if mainPlaylistSrc.Some? then HarvestPlan(edges[..], mainPlaylistSrc.value) else None);
        issued := OptionToSeq(request);
      }
    }

    /**
     * The reset loop of segmentErrorHandler: every edge's token is deleted and
     * the fetches issued by the rounds for edges matching the failing host are
     * returned in order.
     */
    method SegmentErrorHandler(segmentUri: string) returns (requests: seq<HarvestRequest>)
      modifies this, edges
      ensures edges == old(edges) && mainPlaylistSrc == old(mainPlaylistSrc)
      ensures edges[..] == ClearTokens(old(edges[..]), edges.Length)
      ensures requests == IssueAll(edges, ResetPlans(old(edges[..]), mainPlaylistSrc, SegmentEdgeHostname(segmentUri), edges.Length))
    {
      var segmentEdgeHostname := Hostname(RemovePort(segmentUri));
      ghost var s0 := edges[..];
      requests := [];
      var i := 0;
      while i < edges.Length
        invariant 0 <= i <= edges.Length
        invariant edges == old(edges) && mainPlaylistSrc == old(mainPlaylistSrc)
        invariant edges[..] == ClearTokens(s0, i)
        invariant requests == IssueAll(edges, ResetPlans(s0, mainPlaylistSrc, segmentEdgeHostname, i))
      {
        ghost var plans := ResetPlans(s0, mainPlaylistSrc, segmentEdgeHostname, i);
        ghost var round := ResetRound(s0, mainPlaylistSrc, segmentEdgeHostname, i + 1);
        var issued := ResetEdge(i, segmentUri, segmentEdgeHostname);
        assert edges[..] == ClearTokens(s0, i + 1) && edges[i].hostname == s0[i].hostname by {
          ClearTokensStep(s0, i);
        }
        assert issued == IssueAll(edges, round);
        IssueAllAppend(edges, plans, round);
        requests := requests + issued;
        i := i + 1;
      }
    }
  }
}
