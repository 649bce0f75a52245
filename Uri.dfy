/**
 * The string-level URI helpers of the load balancer (src/load-balancing.js,
 * lines 25-108). They work on raw text with `indexOf`/`substring`/`replace`,
 * and the model keeps their quirks: the "hostname" keeps a `:port`, the port
 * search starts at the first `:` of the whole string, and a missing `/` after
 * the host turns `substring(start, -1)` into `substring(0, start)`.
 */
module Uri {
  import opened Wrappers
  import opened JsString

  const SchemeSeparator: string := "://"
  const QuerySuffix: string := "-query"
  const SessionParameter: string := "nimblesessionid="
  const AuthSignParameter: string := "wmsAuthSign="

  /** Neither parameter name contains "&", so a value search never stops inside the name. */
  lemma ParameterNamesHaveNoAmpersand()
    ensures '&' !in SessionParameter && '&' !in AuthSignParameter
  {
  }

  /** getEdgeQueryURI: the probe host, with `-query` added to the first DNS label. */
  function EdgeQueryUri(hostname: string): string {
    var domainIndex := IndexOf(hostname, ".", 0);
    if domainIndex != -1 then
      var record := Substring(hostname, 0, domainIndex);
      "https://" + Replace(hostname, record, record + QuerySuffix)
    else
      "https://" + hostname
  }

  /**
   * getHostnameFromURI: the text between the first "://" and the next "/".
   * The source's `!= -1` guard compares `indexOf(...) + 3`, which is never -1,
   * so its null branch cannot be taken and the result is always a string.
   */
  function Hostname(uri: string): string {
    var start := IndexOf(uri, SchemeSeparator, 0) + 3;
    var end := IndexOf(uri, "/", start);
    Substring(uri, start, end)
  }

  /** getPortFromURI: from just after the first ":" of the string to the next "/" or the end. */
  function Port(uri: string): string {
    var start := IndexOf(uri, ":", 0) + 1;
    var end := IndexOf(uri, "/", start);
    Substring(uri, start, if end == -1 then |uri| else end)
  }

  /** removePortFromURI: drop the first ":" + port, when the port text is not empty. */
  function RemovePort(uri: string): string {
    var port := Port(uri);
    if port != "" then Replace(uri, ":" + port, "") else uri
  }

  /**
   * getParameterValueFromURI: the text after the first occurrence of `parameter`
   * up to the next "&" (searched from the start of the occurrence) or the end;
   * None when the parameter does not occur.
   */
  function ParameterValue(uri: string, parameter: string): (r: Option<string>)
    ensures r.None? <==> forall j :: !OccursAt(uri, parameter, j)
  {
    var start := IndexOf(uri, parameter, 0);
    if start == -1 then None
    else
      var end := IndexOf(uri, "&", start);
      if end != -1 then Some(Substring(uri, start + |parameter|, end))
      else Some(Substring(uri, start + |parameter|, |uri|))
  }

  /** replaceHostnameFromString: replace the first occurrence of the current "hostname". */
  function ReplaceHostname(uri: string, hostname: string): string {
    Replace(uri, Hostname(uri), hostname)
  }

  /** replaceNimbeSessionIDFromURI: swap the session id for `id`; no-op without the parameter. */
  function ReplaceSessionId(uri: string, id: string): (r: string)
    ensures (forall j :: !OccursAt(uri, SessionParameter, j)) ==> r == uri
  {
    match ParameterValue(uri, SessionParameter)
    case None => uri
    case Some(current) => Replace(uri, SessionParameter + current, SessionParameter + id)
  }

  // ---------------------------------------------------------------------
  // getEdgeQueryURI

  /** With a dot, the probe URI is https:// + first label + "-query" + the rest from the first dot. */
  lemma EdgeQueryUriWithDomain(hostname: string, d: nat)
    requires d < |hostname| && hostname[d] == '.'
    requires forall j :: 0 <= j < d ==> hostname[j] != '.'
    ensures EdgeQueryUri(hostname) == "https://" + hostname[..d] + QuerySuffix + hostname[d..]
  {
    var record := hostname[..d];
    assert IndexOf(hostname, ".", 0) == d by {
      IndexOfChar(hostname, '.', 0, d);
    }
    assert Substring(hostname, 0, d) == record;
    assert IndexOf(hostname, record, 0) == 0 by {
      assert OccursAt(hostname, record, 0);
    }
    ReplaceAt(hostname, record, record + QuerySuffix, 0);
  }

  /** Without a dot the hostname is used as it is. */
  lemma EdgeQueryUriWithoutDomain(hostname: string)
    requires '.' !in hostname
    ensures EdgeQueryUri(hostname) == "https://" + hostname
  {
    IndexOfCharAbsent(hostname, '.', 0);
  }

  // ---------------------------------------------------------------------
  // getHostnameFromURI

  /**
   * The hostname is the text between the first occurrence of "://" (at `c`) and
   * the first "/" after it (at `e`).
   */
  lemma HostnameBetween(uri: string, c: nat, e: nat)
    requires OccursAt(uri, SchemeSeparator, c)
    requires forall j :: 0 <= j < c ==> !OccursAt(uri, SchemeSeparator, j)
    requires c + 3 <= e < |uri| && uri[e] == '/'
    requires forall j :: c + 3 <= j < e ==> uri[j] != '/'
    ensures Hostname(uri) == uri[c + 3..e]
  {
    assert IndexOf(uri, SchemeSeparator, 0) == c;
    IndexOfChar(uri, '/', c + 3, e);
  }

  /** On scheme://... with no ":" in the scheme, "://" is found right after the scheme. */
  lemma SchemeSeparatorAt(scheme: string, rest: string)
    requires ':' !in scheme
    ensures IndexOf(scheme + SchemeSeparator + rest, SchemeSeparator, 0) == |scheme|
  {
    var uri := scheme + SchemeSeparator + rest;
    assert uri[|scheme|..|scheme| + 3] == SchemeSeparator;
    IndexOfByHead(uri, SchemeSeparator, 0, |scheme|);
  }

  /** On scheme://host/rest the hostname is `host`, including any ":port" it carries. */
  lemma HostnameOf(scheme: string, host: string, rest: string)
    requires ':' !in scheme && '/' !in host
    ensures Hostname(scheme + SchemeSeparator + host + "/" + rest) == host
  {
    var uri := scheme + SchemeSeparator + host + "/" + rest;
    var c := |scheme|;
    assert IndexOf(uri, SchemeSeparator, 0) == c by {
      assert uri == scheme + SchemeSeparator + (host + "/" + rest);
      SchemeSeparatorAt(scheme, host + "/" + rest);
    }
    HostnameBetween(uri, c, c + 3 + |host|);
    assert uri[c + 3..c + 3 + |host|] == host;
  }

  /** A string that agrees with scheme://host/... up to and including that "/" has hostname `host`. */
  lemma HostnameKeptByPrefix(scheme: string, host: string, rest: string, r: string)
    requires ':' !in scheme && '/' !in host
    requires var n := |scheme| + 4 + |host|;
      n <= |r| && r[..n] == (scheme + SchemeSeparator + host + "/" + rest)[..n]
    ensures Hostname(r) == host
  {
    var n := |scheme| + 4 + |host|;
    assert r == scheme + SchemeSeparator + host + "/" + r[n..] by {
      assert r == r[..n] + r[n..];
      assert (scheme + SchemeSeparator + host + "/" + rest)[..n] == scheme + SchemeSeparator + host + "/";
    }
    HostnameOf(scheme, host, r[n..]);
  }

  /** On scheme://host with no path the result is "scheme://", not the host. */
  lemma HostnameWithoutPath(scheme: string, host: string)
    requires ':' !in scheme && '/' !in host
    ensures Hostname(scheme + SchemeSeparator + host) == scheme + SchemeSeparator
  {
    var uri := scheme + SchemeSeparator + host;
    var c := |scheme|;
    assert IndexOf(uri, SchemeSeparator, 0) == c by {
      SchemeSeparatorAt(scheme, host);
    }
    assert IndexOf(uri, "/", c + 3) == -1 by {
      IndexOfCharAbsent(uri, '/', c + 3);
    }
    assert uri[..c + 3] == scheme + SchemeSeparator;
  }

  // ---------------------------------------------------------------------
  // getPortFromURI / removePortFromURI

  /** On a bare "host:port" the port is found and stripped. */
  lemma PortOfHostname(host: string, port: string)
    requires ':' !in host && '/' !in host && '/' !in port
    ensures Port(host + ":" + port) == port
    ensures port != "" ==> RemovePort(host + ":" + port) == host
  {
    var hp := host + ":" + port;
    assert IndexOf(hp, ":", 0) == |host| by {
      IndexOfChar(hp, ':', 0, |host|);
    }
    assert IndexOf(hp, "/", |host| + 1) == -1 by {
      IndexOfCharAbsent(hp, '/', |host| + 1);
    }
    assert Port(hp) == port by {
      assert hp[|host| + 1..] == port;
    }
    if port != "" {
      ReplaceSplit(host, ":" + port, "", "");
      ConcatAssoc(host, ":", port);
      assert hp + "" == hp && host + "" + "" == host;
    }
  }

  /** On a full scheme://... URI the first ":" is the scheme's, so the port is "" and nothing is stripped. */
  lemma PortOfFullUri(scheme: string, rest: string)
    requires ':' !in scheme
    ensures Port(scheme + SchemeSeparator + rest) == ""
    ensures RemovePort(scheme + SchemeSeparator + rest) == scheme + SchemeSeparator + rest
  {
    var uri := scheme + SchemeSeparator + rest;
    assert IndexOf(uri, ":", 0) == |scheme| by {
      IndexOfChar(uri, ':', 0, |scheme|);
    }
    assert IndexOf(uri, "/", |scheme| + 1) == |scheme| + 1 by {
      IndexOfChar(uri, '/', |scheme| + 1, |scheme| + 1);
    }
  }

  /** A string without ":" is never changed by removePortFromURI. */
  lemma RemovePortWithoutColon(uri: string)
    requires ':' !in uri
    ensures RemovePort(uri) == uri
  {
    var port := Port(uri);
    if port != "" {
      forall j ensures !OccursAt(uri, ":" + port, j) {
        if OccursAt(uri, ":" + port, j) {
          OccursAtHead(uri, ":" + port, j);
        }
      }
      ReplaceAbsent(uri, ":" + port, "");
    }
  }

  // ---------------------------------------------------------------------
  // getParameterValueFromURI

  /** `v` is the parameter value that starts at `k`: free of "&", ending at "&" or at the end. */
  predicate ValueAt(uri: string, k: nat, v: string) {
    k + |v| <= |uri| && uri[k..k + |v|] == v && '&' !in v &&
    (k + |v| == |uri| || uri[k + |v|] == '&')
  }

  lemma ValueAtUnique(uri: string, k: nat, v: string, w: string)
    requires ValueAt(uri, k, v) && ValueAt(uri, k, w)
    ensures v == w
  {
  }

  /** The value found at the first occurrence `i` of the parameter. */
  lemma ParameterValueFound(uri: string, parameter: string, i: nat)
    requires OccursAt(uri, parameter, i) && '&' !in parameter
    requires forall j :: 0 <= j < i ==> !OccursAt(uri, parameter, j)
    ensures ParameterValue(uri, parameter).Some?
    ensures ValueAt(uri, i + |parameter|, ParameterValue(uri, parameter).value)
  {
    var k := i + |parameter|;
    assert IndexOf(uri, parameter, 0) == i;
    forall j | i <= j < k ensures uri[j] != '&' {
      assert uri[j] == uri[i..k][j - i];
    }
    var end := IndexOf(uri, "&", i);
    if end != -1 {
      OccursAtChar(uri, '&', end);
      forall j | i <= j < end ensures uri[j] != '&' {
        OccursAtChar(uri, '&', j);
      }
      assert ParameterValue(uri, parameter).value == uri[k..end];
    } else {
      forall j | i <= j < |uri| ensures uri[j] != '&' {
        OccursAtChar(uri, '&', j);
      }
      assert ParameterValue(uri, parameter).value == uri[k..];
    }
  }

  /** The first occurrence of `p + q` is that of `p` when `p + q` starts there. */
  lemma IndexOfExtended(s: string, p: string, q: string, i: nat)
    requires IndexOf(s, p, 0) == i && OccursAt(s, p + q, i)
    ensures IndexOf(s, p + q, 0) == i
  {
    forall j | 0 <= j < i ensures !OccursAt(s, p + q, j) {
      if OccursAt(s, p + q, j) {
        OccursAtPrefix(s, p, q, j);
      }
    }
  }

  lemma OccursAtPrefix(s: string, p: string, q: string, j: int)
    requires OccursAt(s, p + q, j)
    ensures OccursAt(s, p, j)
  {
    assert s[j..j + |p|] == s[j..j + |p| + |q|][..|p|];
  }

  /**
   * Writing `w` in place of the value of the first occurrence of `parameter`
   * makes `w` the value read back, when `w` holds no "&".
   */
  lemma ParameterValueAfterSplice(uri: string, parameter: string, i: nat, v: string, w: string)
    requires OccursAt(uri, parameter, i) && '&' !in parameter
    requires forall j :: 0 <= j < i ==> !OccursAt(uri, parameter, j)
    requires ValueAt(uri, i + |parameter|, v)
    requires '&' !in w
    ensures var k := i + |parameter|;
      ParameterValue(uri[..k] + w + uri[k + |v|..], parameter) == Some(w)
  {
    var k := i + |parameter|;
    var rest := uri[k + |v|..];
    var u := uri[..k] + w + rest;
    assert IndexOf(u, parameter, 0) == i by {
      assert u[..k] == uri[..k];
      assert IndexOf(uri, parameter, 0) == i;
      IndexOfSharedPrefix(uri, u, parameter, 0, k);
    }
    assert OccursAt(u, parameter, i);
    assert ValueAt(u, k, ParameterValue(u, parameter).value) by {
      ParameterValueFound(u, parameter, i);
    }
    assert ValueAt(u, k, w) by {
      assert u[k..k + |w|] == w;
      assert k + |w| < |u| ==> u[k + |w|] == rest[0] == uri[k + |v|];
    }
    ValueAtUnique(u, k, w, ParameterValue(u, parameter).value);
  }

  // ---------------------------------------------------------------------
  // replaceNimbeSessionIDFromURI

  /**
   * With the session parameter first at `i`, only the value span changes, and
   * reading the parameter back yields `id` when `id` holds no "&".
   */
  lemma ReplaceSessionIdSpec(uri: string, id: string, i: nat)
    requires OccursAt(uri, SessionParameter, i)
    requires forall j :: 0 <= j < i ==> !OccursAt(uri, SessionParameter, j)
    ensures ParameterValue(uri, SessionParameter).Some?
    ensures var k := i + |SessionParameter|;
      var v := ParameterValue(uri, SessionParameter).value;
      k + |v| <= |uri| &&
      ReplaceSessionId(uri, id) == uri[..k] + id + uri[k + |v|..]
    ensures '&' !in id ==> ParameterValue(ReplaceSessionId(uri, id), SessionParameter) == Some(id)
  {
    ParameterNamesHaveNoAmpersand();
    ParameterValueFound(uri, SessionParameter, i);
    var v := ParameterValue(uri, SessionParameter).value;
    ReplaceSessionIdByValue(uri, id, v);
    ReplaceValueSpan(uri, SessionParameter, v, id, i);
    if '&' !in id {
      SessionIdReadsBack(uri, i, v, id);
    }
  }

  /** Writing an "&"-free id in place of the current one makes it the id read back. */
  lemma SessionIdReadsBack(uri: string, i: nat, v: string, id: string)
    requires OccursAt(uri, SessionParameter, i)
    requires forall j :: 0 <= j < i ==> !OccursAt(uri, SessionParameter, j)
    requires ValueAt(uri, i + |SessionParameter|, v) && '&' !in id
    ensures var k := i + |SessionParameter|;
      ParameterValue(uri[..k] + id + uri[k + |v|..], SessionParameter) == Some(id)
  {
    ParameterNamesHaveNoAmpersand();
    ParameterValueAfterSplice(uri, SessionParameter, i, v, id);
  }

  /** With current id `v`, the swap is a `replace` of the parameter and `v`. */
  lemma ReplaceSessionIdByValue(uri: string, id: string, v: string)
    requires ParameterValue(uri, SessionParameter) == Some(v)
    ensures ReplaceSessionId(uri, id) == Replace(uri, SessionParameter + v, SessionParameter + id)
  {
  }

  /**
   * On a URI laid out as `a`, the session parameter, the current id and a tail
   * that is empty or starts with "&", the id is swapped and nothing else changes,
   * provided no occurrence of the parameter starts inside `a`.
   */
  lemma ReplaceSessionIdOf(a: string, current: string, b: string, id: string)
    requires forall j :: 0 <= j < |a| ==> !OccursAt(a + SessionParameter + current + b, SessionParameter, j)
    requires '&' !in current && (b == [] || b[0] == '&')
    ensures ReplaceSessionId(a + SessionParameter + current + b, id) == a + SessionParameter + id + b
  {
    var P := SessionParameter;
    var uri := a + P + current + b;
    var k := |a| + |P|;
    assert ParameterValue(uri, P) == Some(current) by {
      ParameterNamesHaveNoAmpersand();
      ParameterValueOf(a, P, current, b);
    }
    assert ReplaceSessionId(uri, id) == uri[..k] + id + uri[k + |current|..] by {
      ReplaceSessionIdByValue(uri, id, current);
      assert OccursAt(uri, P, |a|) by {
        assert uri[|a|..k] == P;
      }
      assert uri[k..k + |current|] == current;
      ReplaceValueSpan(uri, P, current, id, |a|);
    }
    assert uri[..k] == a + P;
    assert uri[k + |current|..] == b;
  }

  /** The value read from a URI laid out as `a`, the parameter, `v` and a tail that is empty or starts with "&". */
  lemma ParameterValueOf(a: string, parameter: string, v: string, b: string)
    requires forall j :: 0 <= j < |a| ==> !OccursAt(a + parameter + v + b, parameter, j)
    requires '&' !in parameter && '&' !in v && (b == [] || b[0] == '&')
    ensures ParameterValue(a + parameter + v + b, parameter) == Some(v)
  {
    var uri := a + parameter + v + b;
    var k := |a| + |parameter|;
    assert OccursAt(uri, parameter, |a|) by {
      assert uri[|a|..k] == parameter;
    }
    ParameterValueFound(uri, parameter, |a|);
    assert ValueAt(uri, k, v) by {
      assert uri[k..k + |v|] == v;
      assert k + |v| < |uri| ==> uri[k + |v|] == b[0];
    }
    ValueAtUnique(uri, k, v, ParameterValue(uri, parameter).value);
  }

  /**
   * When the session parameter first occurs at or after `n`, the swap leaves the
   * first `n` characters alone and the new id reads back.
   */
  lemma ReplaceSessionIdKeepsPrefix(uri: string, id: string, n: nat)
    requires IndexOf(uri, SessionParameter, 0) >= n
    requires '&' !in id
    ensures n <= |ReplaceSessionId(uri, id)| && ReplaceSessionId(uri, id)[..n] == uri[..n]
    ensures ParameterValue(ReplaceSessionId(uri, id), SessionParameter) == Some(id)
  {
    var i := IndexOf(uri, SessionParameter, 0);
    ReplaceSessionIdSpec(uri, id, i);
    SplicePrefix(uri, i + |SessionParameter|, ParameterValue(uri, SessionParameter).value, id, n);
  }

  /** Replacing `p + v` by `p + w`, where `p` first occurs at `i` followed by `v`, rewrites only that span. */
  lemma ReplaceValueSpan(uri: string, p: string, v: string, w: string, i: nat)
    requires OccursAt(uri, p, i)
    requires forall j :: 0 <= j < i ==> !OccursAt(uri, p, j)
    requires i + |p| + |v| <= |uri| && uri[i + |p|..i + |p| + |v|] == v
    ensures Replace(uri, p + v, p + w) == uri[..i + |p|] + w + uri[i + |p| + |v|..]
  {
    var k := i + |p|;
    assert IndexOf(uri, p + v, 0) == i by {
      assert OccursAt(uri, p + v, i) by {
        assert uri[i..k + |v|] == uri[i..k] + uri[k..k + |v|];
      }
      assert IndexOf(uri, p, 0) == i;
      IndexOfExtended(uri, p, v, i);
    }
    ReplaceAt(uri, p + v, p + w, i);
    assert uri[..k] == uri[..i] + p;
  }

  // ---------------------------------------------------------------------
  // replaceHostnameFromString

  /**
   * When the first occurrence of the old "hostname" is the one right after "://"
   * and a "/" follows it, the new hostname lands there and reads back exactly,
   * dropping whatever ":port" the old one carried.
   */
  lemma ReplaceHostnameRoundTrip(uri: string, hostname: string)
    requires IndexOf(uri, SchemeSeparator, 0) != -1
    requires IndexOf(uri, "/", IndexOf(uri, SchemeSeparator, 0) + 3) != -1
    requires IndexOf(uri, Hostname(uri), 0) == IndexOf(uri, SchemeSeparator, 0) + 3
    requires '/' !in hostname
    ensures var start := IndexOf(uri, SchemeSeparator, 0) + 3;
      var end := IndexOf(uri, "/", start);
      ReplaceHostname(uri, hostname) == uri[..start] + hostname + uri[end..]
    ensures Hostname(ReplaceHostname(uri, hostname)) == hostname
  {
    var c := IndexOf(uri, SchemeSeparator, 0);
    var start := c + 3;
    var end := IndexOf(uri, "/", start);
    var r := uri[..start] + hostname + uri[end..];
    assert ReplaceHostname(uri, hostname) == r by {
      assert Hostname(uri) == uri[start..end];
      ReplaceAt(uri, Hostname(uri), hostname, start);
    }
    assert IndexOf(r, SchemeSeparator, 0) == c by {
      assert r[..start] == uri[..start];
      IndexOfSharedPrefix(uri, r, SchemeSeparator, 0, start);
    }
    assert IndexOf(r, "/", start) == start + |hostname| by {
      OccursAtChar(uri, '/', end);
      assert r[start + |hostname|] == '/';
      IndexOfChar(r, '/', start, start + |hostname|);
    }
    assert Hostname(r) == r[start..start + |hostname|];
    assert r[start..start + |hostname|] == hostname;
  }

  /**
   * On scheme://host/rest, the host is swapped for the new one and nothing else
   * changes, provided `host` does not already occur inside "scheme://".
   */
  lemma ReplaceHostnameOf(scheme: string, host: string, rest: string, hostname: string)
    requires ':' !in scheme && '/' !in host
    requires forall j :: 0 <= j < |scheme| + 3 ==> !OccursAt(scheme + SchemeSeparator + host + "/" + rest, host, j)
    ensures ReplaceHostname(scheme + SchemeSeparator + host + "/" + rest, hostname)
      == scheme + SchemeSeparator + hostname + "/" + rest
    ensures '/' !in hostname ==>
      Hostname(ReplaceHostname(scheme + SchemeSeparator + host + "/" + rest, hostname)) == hostname
  {
    var uri := scheme + SchemeSeparator + host + "/" + rest;
    assert Hostname(uri) == host by {
      HostnameOf(scheme, host, rest);
    }
    assert uri == scheme + SchemeSeparator + host + ("/" + rest) by {
      ConcatAssoc(scheme + SchemeSeparator + host, "/", rest);
    }
    assert Replace(uri, host, hostname) == scheme + SchemeSeparator + hostname + ("/" + rest) by {
      ReplaceAfterPrefix(scheme + SchemeSeparator, host, "/" + rest, hostname);
    }
    ConcatAssoc(scheme + SchemeSeparator + hostname, "/", rest);
    if '/' !in hostname {
      HostnameOf(scheme, hostname, rest);
    }
  }

  /** An empty "hostname" (as in scheme:///path) matches at index 0, so the new one is prepended. */
  lemma ReplaceEmptyHostname(scheme: string, rest: string, hostname: string)
    requires ':' !in scheme
    ensures ReplaceHostname(scheme + SchemeSeparator + "/" + rest, hostname)
      == hostname + scheme + SchemeSeparator + "/" + rest
  {
    var uri := scheme + SchemeSeparator + "/" + rest;
    assert Hostname(uri) == "" by {
      assert uri == scheme + SchemeSeparator + "" + "/" + rest;
      HostnameOf(scheme, "", rest);
    }
    assert IndexOf(uri, "", 0) == 0 by {
      assert OccursAt(uri, "", 0);
    }
    ReplaceAt(uri, "", hostname, 0);
  }
}
