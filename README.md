# HLS edge load balancer: a Dafny model

This project models the deterministic core of `src/load-balancing.js`. That file
is the load-balancing plug-in of an HLS video player. It keeps a registry of edge
servers (`EdgeServers`), each with a hostname, a measured latency and a
session-affinity token (`nimbleSessionId`). It picks the edge of lowest latency
and rewrites segment URIs so that they point at that edge and carry its token.
It harvests the token by fetching the source playlist from the edge. When a
segment fails, it resets every token and refreshes the `wmsAuthSign` signature
of the master playlist URI.

The model is split by layer:

- `JsString.dfy` holds the JavaScript string primitives the code uses:
  `indexOf`, `lastIndexOf`, `substring`, `replace` and `toLowerCase`. They
  follow JavaScript's rules: -1 for "not found", clamping and swapping in
  `substring`, and only the first occurrence replaced by `replace`.
- `Uri.dfy` holds the URI helpers (lines 25-108) as pure functions, with
  their quirks:
  - the "hostname" keeps any `:port`;
  - the port search starts at the first `:` of the whole string, so on a full
    `https://…` URI the port is `""`;
  - the always-true `!= -1` guards;
  - `substring(start, -1)` turning into `substring(0, start)` when no `/`
    follows the host.
- `EdgeSelection.dfy` holds the edge record and the selection rule of
  `getBestEdge`, characterised as "first live edge of minimum latency".
- `LoadBalancing.dfy` holds the mutable module state (`EdgeServers` as an
  `array<Edge>`, `MainPlaylistSrc` as an `Option`) in a class `LoadBalancer`.
  Its methods are the scan of `getBestEdge`, the probe outcome of
  `getLatencyEdge`, the guard chain of `getPlaylistsEdges`, the rewrite of
  `getSegmentURI` and the reset loop of `segmentErrorHandler`.

The network is not modelled:

- An operation that would send a request returns a description of it (a
  `HarvestRequest`).
- The asynchronous completions take the response as an input:
  - `CompleteHarvest` receives the first variant URI of the fetched playlist;
  - `RefreshedMasterUri` receives the signing service's answer.
- A harvest request holds the registry array it was issued against, and its
  completion writes there. If `preRun` has replaced the registry meanwhile,
  the write lands in the detached array, just as the JavaScript closure
  writes into the old edge object.

One might expect a rewrite to keep the source's `:443` in the rewritten URI.
The code does not: the old "hostname" includes `:443`, so `replace` removes
the port together with the host. `LoadBalancing.RewriteDropsPort` proves this on
a concrete URI.

## Model

| member | source | states |
|---|---|---|
| JsString.Substring | src/load-balancing.js:46 | `substring`: both ends clamped into the string, then swapped when out of order; what this gives for hostnames is proved in `Uri.HostnameBetween` and `Uri.HostnameWithoutPath` |
| JsString.Replace | src/load-balancing.js:39 | `replace` with a string pattern: the first occurrence is swapped, nothing when absent; characterised by `JsString.ReplaceFirst` and `JsString.ReplaceAbsent` |
| JsString.Lower | src/load-balancing.js:257 | `toLowerCase` keeps the length and lowers each ASCII letter; used in the host comparison of `LoadBalancing.HarvestPlan` |
| JsString.IndexOf | src/load-balancing.js:43-45 | `indexOf` returns the first occurrence at or after the clamped start position, and -1 exactly when there is none |
| JsString.LastIndexOf | src/load-balancing.js:292 | `lastIndexOf("/")` is -1 exactly when the character is absent; otherwise it is a position of that character with none after it |
| JsString.ReplaceFirst | src/load-balancing.js:39 | `replace` with a string pattern swaps the first occurrence and keeps the text around it |
| JsString.ReplaceSplit | src/load-balancing.js:69 | in `a + p + b`, when `p`'s first character is not in `a`, `replace(p, q)` gives `a + q + b` |
| JsString.ReplaceAfterPrefix | src/load-balancing.js:39 | in `a + p + b`, when no occurrence of `p` starts inside `a`, `replace(p, q)` gives `a + q + b` |
| JsString.ReplaceAbsent | src/load-balancing.js:336 | `replace` leaves the string unchanged when the pattern does not occur |
| Uri.EdgeQueryUri | src/load-balancing.js:25-34 | `getEdgeQueryURI` as written; its two results are proved in `Uri.EdgeQueryUriWithDomain` and `Uri.EdgeQueryUriWithoutDomain` |
| Uri.Hostname | src/load-balancing.js:42-49 | `getHostnameFromURI` as written, never null; characterised by `Uri.HostnameBetween`, `Uri.HostnameOf` and `Uri.HostnameWithoutPath` |
| Uri.Port | src/load-balancing.js:51-63 | `getPortFromURI` as written, never null; its results are proved in `Uri.PortOfHostname` and `Uri.PortOfFullUri` |
| Uri.RemovePort | src/load-balancing.js:65-72 | `removePortFromURI` as written; proved in `Uri.PortOfHostname`, `Uri.PortOfFullUri` and `Uri.RemovePortWithoutColon` |
| Uri.ReplaceHostname | src/load-balancing.js:36-40 | `replaceHostnameFromString` as written; proved in `Uri.ReplaceHostnameRoundTrip`, `Uri.ReplaceHostnameOf` and `Uri.ReplaceEmptyHostname` |
| Uri.EdgeQueryUriWithDomain | src/load-balancing.js:25-32 | for a hostname with a dot, the probe URI is `https://`, then the first label, then `-query`, then the rest from the first dot; no path is appended |
| Uri.EdgeQueryUriWithoutDomain | src/load-balancing.js:33 | without a dot the probe URI is `https://` + hostname |
| Uri.HostnameBetween | src/load-balancing.js:42-46 | when `://` first occurs at `c` and the first `/` from `c + 3` on is at `e`, the hostname is the text strictly between them |
| Uri.HostnameOf | src/load-balancing.js:42-49 | on `scheme://host/rest` the hostname is `host`, including any `:port` |
| Uri.HostnameKeptByPrefix | src/load-balancing.js:42-49 | any string that agrees with `scheme://host/` up to that `/` has hostname `host` |
| Uri.HostnameWithoutPath | src/load-balancing.js:45-46 | with no `/` after the host, the negative end swaps `substring`'s arguments and the result is `scheme://` |
| Uri.PortOfHostname | src/load-balancing.js:51-72 | on a bare `host:port` the port is found and `removePortFromURI` returns `host` |
| Uri.PortOfFullUri | src/load-balancing.js:51-72 | on a full `scheme://…` URI the first `:` is the scheme's, so the port is `""` and nothing is removed |
| Uri.RemovePortWithoutColon | src/load-balancing.js:65-72 | a string without `:` is never changed by `removePortFromURI` |
| Uri.ParameterValue | src/load-balancing.js:84-97 | the result is null exactly when the parameter does not occur anywhere |
| Uri.ParameterValueFound | src/load-balancing.js:84-97 | the value starts right after the first occurrence, holds no `&`, and ends at the next `&` or at the end |
| Uri.ParameterValueOf | src/load-balancing.js:84-97 | on a URI laid out as prefix, parameter, value and a tail that is empty or starts with `&`, where the parameter does not occur earlier, the value read is exactly that value |
| Uri.ParameterValueAfterSplice | src/load-balancing.js:84-97 | writing a new `&`-free value in place of the first occurrence's value makes it the value read back |
| Uri.ReplaceSessionId | src/load-balancing.js:99-108 | without `nimblesessionid=` the URI is returned unchanged |
| Uri.ReplaceSessionIdSpec | src/load-balancing.js:99-108 | with the parameter present, only the span of the current id changes, and re-reading the parameter yields the new id when it holds no `&` |
| Uri.ReplaceSessionIdOf | src/load-balancing.js:99-108 | on a URI laid out as prefix, parameter, current id and a tail that is empty or starts with `&`, where the parameter does not occur earlier, exactly the id is swapped |
| Uri.ReplaceSessionIdKeepsPrefix | src/load-balancing.js:99-108 | text before the first occurrence of the parameter is untouched, and the new id reads back |
| Uri.ReplaceHostnameRoundTrip | src/load-balancing.js:36-49 | when the old hostname first occurs right after `://` and a `/` follows it, the new hostname lands there and is what `getHostnameFromURI` then returns |
| Uri.ReplaceHostnameOf | src/load-balancing.js:36-40 | on `scheme://host/rest`, where `host` does not already occur inside `scheme://`, only the host is swapped, so an old `:port` is dropped with it |
| Uri.ReplaceEmptyHostname | src/load-balancing.js:36-40 | an empty old hostname (`scheme:///path`) matches at index 0, so the new hostname is prepended |
| EdgeSelection.BestIndex | src/load-balancing.js:152-163 | the selected edge exists and has a latency |
| EdgeSelection.BestIndexIsFirstMinimum | src/load-balancing.js:152-163 | the result is null exactly when every edge lacks a latency; otherwise it is a live edge of minimum latency, and no earlier live edge ties with it |
| EdgeSelection.FirstMinimumUnique | src/load-balancing.js:159 | the strict `>` makes the first minimum unique |
| EdgeSelection.BestIndexCharacterised | src/load-balancing.js:152-163 | edge `k` is selected if and only if it is the first minimum, and nothing is selected if and only if all edges are dead |
| EdgeSelection.BestIndexReadsLatenciesOnly | src/load-balancing.js:155-159 | registries with the same latencies select the same edge, whatever their hostnames and tokens |
| LoadBalancing.Reachable | src/load-balancing.js:184 | the statuses that record a latency: 200, 403 and 404; used by `LoadBalancer.RecordProbe` |
| LoadBalancing.ProbedEdgeIsSelectable | src/load-balancing.js:184-186 | once a probe has recorded a latency, selection returns some edge |
| LoadBalancing.RewriteSegmentUri | src/load-balancing.js:237-244 | the URI `getSegmentURI` returns for a registry; proved in `RewriteWithoutTokenIsIdentity`, `RewriteTargetsBestEdge` and `RewriteReplacesHostAndSession` |
| LoadBalancing.RewriteWithoutTokenIsIdentity | src/load-balancing.js:237-244 | with no live edge, or with no token on the chosen edge, the segment URI passes through unchanged |
| LoadBalancing.RewriteTargetsBestEdge | src/load-balancing.js:237-241 | when the old host does not occur inside `scheme://` and the session parameter sits after the host, the rewritten URI has the chosen edge as hostname and its token as session id |
| LoadBalancing.RewriteReplacesHostAndSession | src/load-balancing.js:235-245 | the rewrite of `scheme://host/path?…nimblesessionid=ID…` is exactly that URI with the edge's hostname and token in place of `host` and `ID`, whenever `replace` finds `host` right after `://` and the parameter does not occur earlier |
| LoadBalancing.RewriteDropsPort | src/load-balancing.js:235-245 | a concrete rewrite as the code computes it, with the port dropped: `https://origin.example.com:443/path/seg.ts?nimblesessionid=OLD&x=1` becomes `https://edge2.example.com/path/seg.ts?nimblesessionid=NEW&x=1` |
| LoadBalancing.SourceHost | src/load-balancing.js:254 | the source's hostname with `removePortFromURI` applied; proved in `SameHostIsNotHarvested` and `SameHostWithoutPortIsNotHarvested` |
| LoadBalancing.HarvestPlan | src/load-balancing.js:250-259 | the guard chain of `getPlaylistsEdges` and the fetch it plans; characterised by `HarvestPlanCharacterised` |
| LoadBalancing.RecordToken | src/load-balancing.js:304 | the registry after the callback stores a token on one edge; used by `CompleteHarvest` and `HarvestIsIdempotent` |
| LoadBalancing.HarvestPlanCharacterised | src/load-balancing.js:250-259 | a playlist fetch is planned if and only if the first-minimum edge exists, has no token and is not the source host (ignoring case); it targets the source URI with that edge's hostname |
| LoadBalancing.HarvestIsIdempotent | src/load-balancing.js:252-304 | after the completion stores a token on the planned edge nothing more is planned; storing "no token" plans the same fetch again |
| LoadBalancing.SameHostIsNotHarvested | src/load-balancing.js:254-257 | when the chosen edge is the source host, in any letter case and with any non-empty port, no fetch is planned |
| LoadBalancing.SameHostWithoutPortIsNotHarvested | src/load-balancing.js:254-257 | when the chosen edge is the host of a source without a port, in any letter case, no fetch is planned |
| LoadBalancing.ChunkUrl | src/load-balancing.js:292-298 | there is a chunk URL exactly when the playlist URI has a `/`; it is the playlist URI up to its last `/`, then the variant URI |
| LoadBalancing.CompleteHarvest | src/load-balancing.js:291-305 | with a first variant, the chunk URL is built and the edge's token becomes the variant's `nimblesessionid` value (none when absent); the write goes to the array the fetch was issued against |
| LoadBalancing.ClearTokens | src/load-balancing.js:321-322 | the registry with the tokens of the first `n` edges deleted; keeps the length, and `ResetClearsEveryToken` proves the rest |
| LoadBalancing.SegmentEdgeHostname | src/load-balancing.js:314 | the failing segment's host, `getHostnameFromURI` after `removePortFromURI`, compared against each edge in the reset loop |
| LoadBalancing.ResetRound | src/load-balancing.js:322-323 | the fetch round `n` of the reset loop issues; proved in `ResetRoundTargetsBestEdge` |
| LoadBalancing.ResetPlans | src/load-balancing.js:321-324 | the fetches of the first `n` rounds, in order; proved in `ResetPlansTargetBestEdge` and met by `LoadBalancer.SegmentErrorHandler` |
| LoadBalancing.ResetClearsEveryToken | src/load-balancing.js:320-324 | after the reset no edge has a token, and hostnames, latencies and length are as before |
| LoadBalancing.ResetKeepsSelection | src/load-balancing.js:321-323 | deleting tokens does not change which edge is selected |
| LoadBalancing.ResetDisablesRewrite | src/load-balancing.js:235-245 | after the full reset, segment URIs pass through unchanged until a token is harvested again |
| LoadBalancing.ResetRoundTargetsBestEdge | src/load-balancing.js:322-323 | a reset round issues at most one fetch, none without a main source, and only for the selected edge |
| LoadBalancing.ResetPlansTargetBestEdge | src/load-balancing.js:321-324 | the reset loop issues at most one fetch per edge, none without a main source, each for the selected edge at the source URI with its hostname |
| LoadBalancing.RefreshedMasterUri | src/load-balancing.js:333-340 | a new master URI is produced exactly when the service's answer contains `wmsAuthSign=` |
| LoadBalancing.RefreshSubstitutesSignature | src/load-balancing.js:316-336 | when the old signature text does not occur before its value (neither earlier in the URI nor inside the name `wmsAuthSign=`), exactly the signature is swapped and reads back as the new one |
| LoadBalancing.RefreshWithoutOldSignature | src/load-balancing.js:316-336 | an old URI without a signature (and without the text `null`) is reinstalled unchanged |
| LoadBalancing.LoadBalancer.constructor | src/load-balancing.js:10-14 | the registry starts empty and no main playlist source is latched |
| LoadBalancing.LoadBalancer.LoadEdges | src/load-balancing.js:211 | the discovered list replaces the registry wholesale in a fresh array; the latched source stays |
| LoadBalancing.LoadBalancer.BestEdge | src/load-balancing.js:152-163 | the scan returns the selection of `BestIndex`, hence the first live edge of minimum latency |
| LoadBalancing.LoadBalancer.RecordProbe | src/load-balancing.js:184-190 | statuses 200, 403 and 404 record the elapsed time as the edge's latency; any other status changes nothing |
| LoadBalancing.LoadBalancer.PlaylistsEdges | src/load-balancing.js:247-259 | the first source is latched once; a fetch is issued exactly as `HarvestPlan` plans it |
| LoadBalancing.LoadBalancer.SegmentUri | src/load-balancing.js:235-245 | the harvest guards run on the latched source, and the returned URI is the rewrite for the current registry |
| LoadBalancing.LoadBalancer.ResetEdge | src/load-balancing.js:322-323 | one reset round deletes edge `i`'s token and, when that edge is the failing host, issues the fetch the harvest guards plan |
| LoadBalancing.LoadBalancer.SegmentErrorHandler | src/load-balancing.js:312-324 | every token is deleted in place and the fetches issued are those of `ResetPlans`, in order |

## Left out

- Network plumbing is not modelled: `Get` (170-175), the discovery request in `preRun` (203-233), `hls_.xhr` (261-307), the chunk pre-fetch request (295-301) and the `$.ajax` call (328-346). Requests are returned as values, and responses are operation inputs.
- Concurrent probing with `async.each` (213-223) is not modelled; `RecordProbe` is the per-edge outcome rule and can be applied in any order.
- Latency measurement with `Date` (185, 194) and the 5000 ms timeout (180) are not modelled; the elapsed time is a parameter.
- Parsing with `m3u8.Parser` (133-135, 284-286) is not modelled; the first variant URI is an input to `CompleteHarvest`.
- Installing a new `PlaylistLoader` and calling `load()` (338-339) are not modelled, nor is reading the master URI from `hls.masterPlaylistController_` (315); the old master URI is an input to `RefreshedMasterUri`.
- `console.log` output is not modelled.
- `getPlaylist` (110-145) is unused: it assigns an undeclared variable and its result is discarded.
- `removeNimbleSessionIDFromURI` (74-82) is never called, and it reads the undefined `indexEndHostname`, so it would throw.
- The 403 branch of the harvest callback (277-279) is not modelled as part of `CompleteHarvest`; what it does depends on who issued the request:
  - For a request whose caller passed `hls` (`getSegmentURI` from the player, line 236), the branch runs segmentErrorHandler, whose reset is `LoadBalancer.SegmentErrorHandler`, and the callback then goes on to parse the response. A caller can model this by running `SegmentErrorHandler` and then `CompleteHarvest`.
  - For a request issued from the reset loop (`LoadBalancer.ResetEdge` inside `LoadBalancer.SegmentErrorHandler`), line 323 calls `getSegmentURI` without `hls`. On a 403, segmentErrorHandler therefore throws at line 315, before its reset loop, and the throw also skips lines 284-305. Nothing is reset and no token is stored, which is `CompleteHarvest(request, None)`.
  - A `HarvestRequest` does not record whether `hls` was passed, so the model does not tell the two cases apart.
- The disposal check `if (!request) return` in the harvest callback (268-270) is not modelled; the request variable is always set when the callback runs.
- JsString.Replace: replacement strings are taken literally; JavaScript's `$` patterns in replacements are not modelled.
- JsString.Lower: only ASCII letters are lowered; JavaScript's full Unicode case mapping is not modelled.
- Choosing edges by geographic distance or by country does not appear in this file, so they are not modelled; selection is by latency only.
- Latencies are unbounded integers rather than JavaScript numbers; the source only compares them.
