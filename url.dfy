/** Reading back the authority (host and optional port) of an absolute "https"
    URL, following the generic syntax of RFC 3986: section 3.2 says the
    authority follows "//" and ends at the next '/', '?' or '#' or at the end
    of the URL, and section 3.2.3 that a port is written after a ':' in it. */
module Url {

  datatype Option<T> = None | Some(value: T)

  const HttpsScheme: string := "https://"

  /** The characters that end an authority (RFC 3986, section 3.2). */
  predicate EndsAuthority(c: char) {
    c == '/' || c == '?' || c == '#'
  }

  /** Length of the authority at the start of `s`: up to the first character
      that ends it. */
  function AuthorityLength(s: string): (n: nat)
    ensures n <= |s|
    ensures forall k :: 0 <= k < n ==> !EndsAuthority(s[k])
    ensures n < |s| ==> EndsAuthority(s[n])
  {
    if |s| == 0 || EndsAuthority(s[0]) then 0 else 1 + AuthorityLength(s[1..])
  }

  /** The authority of `url` when it is an "https" URL, None otherwise. */
  function AuthorityOf(url: string): (a: Option<string>)
    ensures a.Some? <==> |HttpsScheme| <= |url| && url[..|HttpsScheme|] == HttpsScheme
    ensures a.Some? ==> HttpsScheme + a.value <= url
    ensures a.Some? ==> forall k :: 0 <= k < |a.value| ==> !EndsAuthority(a.value[k])
  {
    if |url| < |HttpsScheme| || url[..|HttpsScheme|] != HttpsScheme then None
    else
      var rest := url[|HttpsScheme|..];
      var n := AuthorityLength(rest);
      assert url == HttpsScheme + rest;
      assert rest[..n] <= rest;
      Some(rest[..n])
  }

  /** An authority written as a host with no ':' carries no port
      (RFC 3986, section 3.2.3). */
  predicate HasNoPort(authority: string) {
    ':' !in authority
  }

  /** Writing "https://" + host + rest, where the host holds no character that
      ends an authority and rest is empty or starts with one, gives a URL whose
      authority is exactly that host. */
  lemma {:induction false} AuthorityOfJoin(host: string, rest: string)
    requires forall k :: 0 <= k < |host| ==> !EndsAuthority(host[k])
    requires rest == [] || EndsAuthority(rest[0])
    ensures AuthorityOf(HttpsScheme + host + rest) == Some(host)
  {
    var url := HttpsScheme + host + rest;
    assert url[..|HttpsScheme|] == HttpsScheme;
    assert url[|HttpsScheme|..] == host + rest;
    AuthorityLengthJoin(host, rest);
    assert (host + rest)[..|host|] == host;
  }

  lemma {:induction false} AuthorityLengthJoin(host: string, rest: string)
    requires forall k :: 0 <= k < |host| ==> !EndsAuthority(host[k])
    requires rest == [] || EndsAuthority(rest[0])
    ensures AuthorityLength(host + rest) == |host|
  {
    if host != [] {
      assert (host + rest)[1..] == host[1..] + rest;
      AuthorityLengthJoin(host[1..], rest);
    } else {
      assert host + rest == rest;
    }
  }
}
