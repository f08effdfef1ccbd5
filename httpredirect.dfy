/** The redirect_if_cert_available handler (httpredirect.go): on a plain-HTTP
    request whose host, without its port, is covered by a certificate the
    server holds, answer with a permanent redirect to the same host and
    request URI over HTTPS and ask for the connection to be closed; otherwise
    hand the request, untouched, to the next handler and return its error. */
module HttpRedirect {
  import opened Net
  import opened Url

  /** http.StatusMovedPermanently */
  const StatusMovedPermanently: nat := 301

  /** The parts of an incoming request the handler reads: its Host value
      (with or without a port) and the URL's RequestURI(), path and query. */
  datatype Request = Request(host: string, requestURI: string)

  /** A Go `error`: nil, or an error value the handler does not look into. */
  datatype Error = Nil | Failed(message: string)

  /** Response headers: each name has a list of values, as http.Header. */
  type Header = map<string, seq<string>>

  /** What a handler has done to the response so far: its headers and the
      status written, 0 while none has been. */
  datatype ResponseState = ResponseState(header: Header, status: nat)

  /** The next handler in the chain, known only by what it does to the
      response and by the error it returns for a given request. */
  type Handler = (Request, ResponseState) -> (ResponseState, Error)

  /** The response being built: headers the handlers change in place and the
      status, once written (http.ResponseWriter). */
  class ResponseWriter {
    var header: Header
    var status: nat

    constructor ()
      ensures header == map[] && status == 0
    {
      header := map[];
      status := 0;
    }

    /** The headers and status written so far, as one value. */
    function State(): ResponseState
      reads this
    {
      ResponseState(header, status)
    }

    /** Header().Set: the name gets this one value, replacing any others. */
    method SetHeader(name: string, value: string)
      modifies this
      ensures header == old(header)[name := [value]]
      ensures status == old(status)
    {
      header := header[name := [value]];
    }

    /** WriteHeader: only the first status written is kept. */
    method WriteHeader(code: nat)
      requires 100 <= code <= 999
      modifies this
      ensures header == old(header)
      ensures status == if old(status) == 0 then code else old(status)
    {
      if status == 0 {
        status := code;
      }
    }
  }

  /** http.Redirect, for a target that already has a scheme and a host: the
      Location header gets the target and the status is written. */
  method WriteRedirect(w: ResponseWriter, target: string, code: nat)
    requires 300 <= code <= 308
    modifies w
    ensures w.header == old(w.header)["Location" := [target]]
    ensures w.status == if old(w.status) == 0 then code else old(w.status)
  {
    w.SetHeader("Location", target);
    w.WriteHeader(code);
  }

  /** hostOnly: the host part of a Host value, or the whole value when
      SplitHostPort refuses it, as it does a value without a port. The result
      is the value itself exactly when the split fails; otherwise it is the
      host of one of the two spellings of the value. */
  function HostOnly(hostport: string): (host: string)
    ensures host == hostport <==> SplitHostPort(hostport).Err?
    ensures host != hostport ==> exists port :: IsHostPortForm(hostport, HostPort(host, port))
    ensures ':' !in hostport ==> host == hostport
  {
    match SplitHostPort(hostport)
    case Err(_) => hostport
    case Ok(hp) =>
      assert |hp.host| < |hostport| by {
        assert IsPlainForm(hostport, hp) || IsBracketedForm(hostport, hp);
      }
      hp.host
  }

  /** "example.com:8080" and ":8080" lose their port. */
  lemma HostOnlyStripsPort(host: string, port: string)
    requires ':' !in host && '[' !in host && ']' !in host
    requires IsPort(port)
    ensures HostOnly(host + ":" + port) == host
  {
    SplitHostPortComplete(host + ":" + port, HostPort(host, port));
  }

  /** "[::1]:80" gives "::1": the brackets go with the port. */
  lemma HostOnlyUnbrackets(host: string, port: string)
    requires '[' !in host && ']' !in host
    requires IsPort(port)
    ensures HostOnly("[" + host + "]:" + port) == host
  {
    SplitHostPortComplete("[" + host + "]:" + port, HostPort(host, port));
  }

  /** A bare IPv6 address such as "::1" is too many colons for SplitHostPort,
      so it comes back unchanged. */
  lemma HostOnlyKeepsBareIPv6(hostport: string, a: nat, b: nat)
    requires a < b < |hostport| && hostport[a] == ':' && hostport[b] == ':'
    requires hostport[0] != '['
    ensures HostOnly(hostport) == hostport
  {
    UnbracketedColonsRefused(hostport, a, b);
  }

  /** What ServeHTTP does with a request. */
  datatype Outcome =
    | Redirect(location: string, status: nat, closeConnection: bool)
    | PassThrough

  /** The decision of ServeHTTP: redirect exactly when the port-stripped host
      has a certificate, to the HTTPS URL built from that host and the request
      URI, with status 301 and the connection closed; pass through otherwise. */
  function Decide(r: Request, hasCertificate: string -> bool): (o: Outcome)
    ensures o.Redirect? <==> hasCertificate(HostOnly(r.host))
    ensures o.Redirect? ==> o.status == StatusMovedPermanently && o.closeConnection
    ensures o.Redirect? ==> o.location == HttpsScheme + HostOnly(r.host) + r.requestURI
  {
    var host := HostOnly(r.host);
    if hasCertificate(host) then
      Redirect(HttpsScheme + host + r.requestURI, StatusMovedPermanently, true)
    else
      PassThrough
  }

  /** ServeHTTP. On a redirect the response gains "Connection: close" and the
      Location of the decided target, the status is 301 (unless one was
      already written), next is not called and the error is nil. On a pass
      through the response and the error are exactly what next makes of the
      unchanged request and the response as it was: nothing is added here. */
  method ServeHTTP(w: ResponseWriter, r: Request, hasCertificate: string -> bool, next: Handler)
    returns (err: Error)
    modifies w
    ensures match Decide(r, hasCertificate)
      case Redirect(location, code, _) =>
        && w.header == old(w.header)["Connection" := ["close"]]["Location" := [location]]
        && w.status == (if old(w.status) == 0 then code else old(w.status))
        && err == Nil
      case PassThrough =>
        (w.State(), err) == next(r, old(w.State()))
  {
    var requestHost := HostOnly(r.host);
    var found := hasCertificate(requestHost);
    if found {
      var toURL := HttpsScheme;
      // the standard HTTPS port is implied, so none is written
      toURL := toURL + requestHost;
      toURL := toURL + r.requestURI;
      w.SetHeader("Connection", "close");
      WriteRedirect(w, toURL, StatusMovedPermanently);
    } else {
      var result := next(r, w.State());
      w.header, w.status := result.0.header, result.0.status;
      return result.1;
    }
    return Nil;
  }

  /** A request to host:port, or to a host with no port, whose host has a
      certificate is redirected to https://host followed by the request URI:
      the port is used neither for the lookup nor in the target. */
  lemma RedirectTarget(host: string, port: string, requestURI: string, hasCertificate: string -> bool)
    requires ':' !in host && '[' !in host && ']' !in host
    requires IsPort(port)
    requires hasCertificate(host)
    ensures Decide(Request(host + ":" + port, requestURI), hasCertificate)
         == Redirect("https://" + host + requestURI, 301, true)
    ensures Decide(Request(host, requestURI), hasCertificate)
         == Redirect("https://" + host + requestURI, 301, true)
  {
    HostOnlyStripsPort(host, port);
  }

  /** When the certificate lookup fails for the port-stripped host, the
      request is passed through, whatever the port. */
  lemma PassThroughWithoutCertificate(host: string, port: string, requestURI: string, hasCertificate: string -> bool)
    requires ':' !in host && '[' !in host && ']' !in host
    requires IsPort(port)
    requires !hasCertificate(host)
    ensures Decide(Request(host + ":" + port, requestURI), hasCertificate) == PassThrough
    ensures Decide(Request(host, requestURI), hasCertificate) == PassThrough
  {
    HostOnlyStripsPort(host, port);
  }

  /** Read back as a URL, the redirect target has the port-stripped host as
      its authority, provided the request URI starts a path or a query. */
  lemma RedirectAuthority(r: Request, hasCertificate: string -> bool)
    requires Decide(r, hasCertificate).Redirect?
    requires forall k :: 0 <= k < |HostOnly(r.host)| ==> !EndsAuthority(HostOnly(r.host)[k])
    requires r.requestURI == [] || r.requestURI[0] == '/' || r.requestURI[0] == '?'
    ensures AuthorityOf(Decide(r, hasCertificate).location) == Some(HostOnly(r.host))
  {
    AuthorityOfJoin(HostOnly(r.host), r.requestURI);
  }

  /** The request's port never reaches the redirect target: for a Host value
      "host:port" or "host" the target's authority is the host and carries no
      port at all. */
  lemma RedirectDropsPort(host: string, port: string, requestURI: string, hasCertificate: string -> bool)
    requires ':' !in host && '[' !in host && ']' !in host
    requires forall k :: 0 <= k < |host| ==> !EndsAuthority(host[k])
    requires IsPort(port)
    requires requestURI == [] || requestURI[0] == '/' || requestURI[0] == '?'
    requires hasCertificate(host)
    ensures var o := Decide(Request(host + ":" + port, requestURI), hasCertificate);
      o.Redirect? && AuthorityOf(o.location) == Some(host) && HasNoPort(host)
    ensures var o := Decide(Request(host, requestURI), hasCertificate);
      o.Redirect? && AuthorityOf(o.location) == Some(host) && HasNoPort(host)
  {
    HostOnlyStripsPort(host, port);
    AuthorityOfJoin(host, requestURI);
  }

  /** The request URI is taken as it comes: one that starts neither a path
      nor a query, such as ":8080/x" (the opaque part of a rootless
      absolute-form target), runs on into the target's authority and can put
      a port there even when the Host value has none. */
  lemma RequestURIExtendsAuthority(host: string, port: string, rest: string, hasCertificate: string -> bool)
    requires ':' !in host && '[' !in host && ']' !in host
    requires forall k :: 0 <= k < |host| ==> !EndsAuthority(host[k])
    requires forall k :: 0 <= k < |port| ==> !EndsAuthority(port[k])
    requires hasCertificate(host)
    ensures var o := Decide(Request(host, ":" + port + "/" + rest), hasCertificate);
      o.Redirect? && AuthorityOf(o.location) == Some(host + ":" + port) && !HasNoPort(host + ":" + port)
  {
    var authority := host + ":" + port;
    forall k | 0 <= k < |authority| ensures !EndsAuthority(authority[k]) {
      if k > |host| { assert authority[k] == port[k - |host| - 1]; }
    }
    AuthorityOfJoin(authority, "/" + rest);
    assert HttpsScheme + host + (":" + port + "/" + rest) == HttpsScheme + authority + ("/" + rest);
    assert authority[|host|] == ':';
  }

  /** The outcome depends on the Host value only through its port-stripped
      host: two requests that differ only in their port are handled alike,
      and handling the same request twice gives the same outcome. */
  lemma DecideIgnoresPort(r1: Request, r2: Request, hasCertificate: string -> bool)
    requires HostOnly(r1.host) == HostOnly(r2.host) && r1.requestURI == r2.requestURI
    ensures Decide(r1, hasCertificate) == Decide(r2, hasCertificate)
  {
  }

  /** A certificate for "a.test": a request to "a.test" for "/x?y=1" is
      redirected to "https://a.test/x?y=1" with status 301 and the connection
      closed. */
  lemma ScenarioRedirect(r: Request, hasCertificate: string -> bool)
    requires r == Request("a.test", "/x?y=1")
    requires hasCertificate("a.test")
    ensures Decide(r, hasCertificate) == Redirect("https://a.test/x?y=1", 301, true)
  {
    assert ':' !in r.host;
    assert HttpsScheme + r.host + r.requestURI == "https://a.test/x?y=1";
  }

  /** No certificate for "b.test": a request to "b.test:80" is passed
      through, and next receives it with the Host "b.test:80" kept. */
  lemma ScenarioPassThrough(r: Request, hasCertificate: string -> bool)
    requires r == Request("b.test:80", "/")
    requires !hasCertificate("b.test")
    ensures Decide(r, hasCertificate) == PassThrough
  {
    var host, port := "b.test", "80";
    assert ':' !in host && '[' !in host && ']' !in host;
    assert IsPort(port);
    assert r.host == host + ":" + port;
    HostOnlyStripsPort(host, port);
  }

  /** As written, a Host value with two or more colons and no leading '['
      (a bare IPv6 address, or "a:b:8080") is refused by SplitHostPort and
      goes into the target whole: its port, if it ends in one, stays in the
      target's authority. */
  lemma UnbracketedColonsKeepPort(hostport: string, a: nat, b: nat, requestURI: string, hasCertificate: string -> bool)
    requires a < b < |hostport| && hostport[a] == ':' && hostport[b] == ':'
    requires hostport[0] != '['
    requires forall k :: 0 <= k < |hostport| ==> !EndsAuthority(hostport[k])
    requires requestURI == [] || requestURI[0] == '/' || requestURI[0] == '?'
    requires hasCertificate(hostport)
    ensures var o := Decide(Request(hostport, requestURI), hasCertificate);
      && o == Redirect("https://" + hostport + requestURI, 301, true)
      && AuthorityOf(o.location) == Some(hostport) && !HasNoPort(hostport)
  {
    HostOnlyKeepsBareIPv6(hostport, a, b);
    AuthorityOfJoin(hostport, requestURI);
    assert hostport[a] in hostport;
  }

  /** ServeHTTP on the pass-through scenario, starting from a fresh response:
      next receives the request with its Host "b.test:80" as it came, and
      what next writes and returns is the whole result. */
  method ServePassThroughScenario(hasCertificate: string -> bool, next: Handler)
    returns (response: ResponseState, err: Error)
    requires !hasCertificate("b.test")
    ensures (response, err) == next(Request("b.test:80", "/"), ResponseState(map[], 0))
  {
    var w := new ResponseWriter();
    var r := Request("b.test:80", "/");
    ScenarioPassThrough(r, hasCertificate);
    err := ServeHTTP(w, r, hasCertificate, next);
    response := w.State();
  }

  /** As written, a bracketed IPv6 Host loses its brackets and the bare
      address goes into the target: "[::1]:80" is redirected to
      "https://::1" followed by the request URI, whose authority holds colons,
      which RFC 3986 (section 3.2.2) allows in a host only inside brackets. */
  lemma BracketedHostLosesBrackets(host: string, port: string, requestURI: string, hasCertificate: string -> bool)
    requires '[' !in host && ']' !in host && ':' in host
    requires forall k :: 0 <= k < |host| ==> !EndsAuthority(host[k])
    requires IsPort(port)
    requires requestURI == [] || requestURI[0] == '/' || requestURI[0] == '?'
    requires hasCertificate(host)
    ensures var o := Decide(Request("[" + host + "]:" + port, requestURI), hasCertificate);
      && o == Redirect("https://" + host + requestURI, 301, true)
      && AuthorityOf(o.location) == Some(host) && !HasNoPort(host)
  {
    HostOnlyUnbrackets(host, port);
    AuthorityOfJoin(host, requestURI);
  }
}
