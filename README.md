# redirect_if_cert_available, modelled in Dafny

A Caddy HTTP middleware (`httpredirect.go`) that handles each plain-HTTP
request as follows. It strips the port from the request's Host value
(`hostOnly`). It then asks Caddy's TLS subsystem whether any loaded
certificate matches that bare host. If one does, it answers with
`301 Moved Permanently` to `https://` + bare host + request URI and sets
`Connection: close`. Otherwise it hands the unchanged request to the next
handler and returns that handler's error as it is.

The model has three modules:

- `Net` (`net.dfy`) models Go's `net.SplitHostPort`, which `hostOnly` calls.
  It covers the last-colon rule, the `[host]:port` spelling, and the error
  cases: missing port, too many colons, a missing `]`, and a stray `[` or `]`.
  `SplitHostPort` is proved sound: every result is one of the two accepted
  spellings of its input. `SplitHostPortComplete` proves the converse, so
  `SplitHostPort(s) == Ok(hp)` holds exactly when `s` spells `hp`.
- `Url` (`url.dfy`) reads the authority back out of an `https` URL, following
  RFC 3986 section 3.2. It is the independent reader used to check the
  redirect target.
- `HttpRedirect` (`httpredirect.dfy`) holds the handler:
  - `HostOnly`;
  - `Decide`, the pure decision: redirect with a target, status and close
    flag, or pass through;
  - `ServeHTTP`, an imperative method over a `ResponseWriter` class whose
    header map it changes in place, proved against `Decide`;
  - lemmas about the redirect target and the pass-through path.

The certificate lookup `len(caddytls.AllMatchingCertificates(host)) > 0` is a
parameter `hasCertificate: string -> bool`. The next handler is a parameter
`next: (Request, ResponseState) -> (ResponseState, Error)`. It stands for
what that handler does to the response and the error it returns. The request
is a value, so passing `r` to `next` passes it unchanged. The model follows
the code, which asks for any certificate matching the host. A lookup scoped to
one certificate subject would be an alternative; it is not what the code does.

The source is modelled as written. The redirect target is meant never to
carry a port, because the secure endpoint is assumed to be on the standard
HTTPS port. That holds when the Host value is a single-colon `host:port` or a
plain `host`, with no `:`, `[` or `]` in the host, and the request URI is empty
or starts with `/` or `?` (`RedirectDropsPort`). It does not hold in four
cases:

- A bracketed IPv6 value: `hostOnly("[::1]:80")` is `::1`, and the target
  becomes `https://::1/…`. Its authority is a bare IPv6 address, which
  RFC 3986 section 3.2.2 allows only inside brackets, and a URL reader may
  take its colons as a port separator (`BracketedHostLosesBrackets`).
- An unbracketed value with two or more colons, such as `::1` or
  `a:b:8080`: `SplitHostPort` refuses it with too-many-colons, `hostOnly`
  returns it whole, and the target `https://a:b:8080/…` still ends in the
  request's port (`UnbracketedColonsKeepPort`).
- A value with a stray bracket, such as `a]:80`: `SplitHostPort` refuses
  it, and it too goes into the target unchanged.
- A request URI that starts neither a path nor a query. Go's
  `URL.RequestURI()` gives `*` for the `*` target and the opaque part for a
  rootless absolute-form target: `http::8080/x` gives `:8080/x`. The handler
  appends it as it is, so for the Host `a.test` the target is
  `https://a.test:8080/x`, whose authority carries a port
  (`RequestURIExtendsAuthority`).

## Model

| member | source | states |
|---|---|---|
| `Net.SplitHostPort` | httpredirect.go:59 | Every successful split is `host:port` with no colon or bracket in the host, or `[host]:port` with no bracket in the host. The port never holds a colon or a bracket. An address with no `:` is refused with a missing-port error. |
| `Net.SplitHostPortComplete` | httpredirect.go:59 | Any address in one of the two spellings splits back into exactly its host and port. With the soundness ensures this gives: `Ok(hp)` if and only if the address spells `hp`. |
| `Net.UnbracketedColonsRefused` | httpredirect.go:59-62 | An address with two colons and no leading `[` (a bare IPv6 address) is refused with too-many-colons. |
| `HttpRedirect.HostOnly` | httpredirect.go:58-64 | The result equals the input if and only if the split fails. Otherwise the result is the host of one of the two spellings of the input. An input without `:` is returned unchanged. |
| `HttpRedirect.HostOnlyStripsPort` | httpredirect.go:58-63 | `host:port` (for example `example.com:8080`) gives `host`. |
| `HttpRedirect.HostOnlyUnbrackets` | httpredirect.go:58-63 | `[host]:port` gives `host` without the brackets. |
| `HttpRedirect.HostOnlyKeepsBareIPv6` | httpredirect.go:59-62 | A Host value with two colons and no leading `[` is returned unchanged. |
| `HttpRedirect.Decide` | httpredirect.go:67-90 | The handler redirects if and only if the oracle accepts the port-stripped host. A redirect always has status 301, closes the connection, and targets `"https://"` + the port-stripped host + the request URI, whatever the shape of the Host value. |
| `HttpRedirect.ServeHTTP` | httpredirect.go:66-93 | Redirect path: the headers gain `Connection: close` and `Location` = the decided target, the status becomes 301 unless one was already written, and the error is nil. Pass-through path: the response state and the error are exactly what `next` returns for the unchanged request and the prior response state, so the handler adds no header of its own. |
| `HttpRedirect.ResponseWriter.SetHeader` | httpredirect.go:84 | `Header().Set` gives the name exactly one value and leaves the status alone. |
| `HttpRedirect.WriteRedirect` | httpredirect.go:86 | `http.Redirect` with an absolute target sets `Location` to the target and writes the status if none was written yet. |
| `HttpRedirect.RedirectTarget` | httpredirect.go:67-81 | For a certified host, a request to `host:port` or to `host` is redirected to exactly `"https://" + host + requestURI`, with status 301 and the connection closed. |
| `HttpRedirect.PassThroughWithoutCertificate` | httpredirect.go:67-68 | Without a certificate for the bare host, `host:port` and `host` both pass through, whatever the port. |
| `HttpRedirect.RedirectAuthority` | httpredirect.go:75-81 | When the target is read back as a URL, its authority is the port-stripped host. This needs two conditions: the request URI is empty or starts with `/` or `?`, and the port-stripped host holds no `/`, `?` or `#`. Go's server refuses a Host value with those characters, so the second condition excludes no request the handler receives. |
| `HttpRedirect.RedirectDropsPort` | httpredirect.go:77-80 | Take a Host value `host:port` or `host`, with no `:`, `[`, `]`, `/`, `?` or `#` in the host, a port with no `:`, `[` or `]`, and a request URI that is empty or starts with `/` or `?`. Then the target's authority is `host` and carries no port. Go's server refuses a Host value with `/`, `?` or `#`, so that condition excludes no request the handler receives. |
| `HttpRedirect.RequestURIExtendsAuthority` | httpredirect.go:75-81 | Behaviour as written: a request URI `":" + port + "/" + rest` runs into the authority. Take the Host `host`, with no `:`, `[`, `]`, `/`, `?` or `#` in it, and a port with no `/`, `?` or `#`. Then the target's authority is `host:port`. |
| `HttpRedirect.DecideIgnoresPort` | httpredirect.go:67-68 | Two requests with the same bare host and request URI get the same outcome. Repeating a request therefore repeats its outcome. |
| `HttpRedirect.ScenarioRedirect` | httpredirect.go:72-86 | With a certificate for `a.test`, `a.test` + `/x?y=1` is redirected to `https://a.test/x?y=1` with status 301 and the connection closed. |
| `HttpRedirect.ScenarioPassThrough` | httpredirect.go:87-89 | Without a certificate for `b.test`, the decision for `b.test:80` is to pass through. |
| `HttpRedirect.ServePassThroughScenario` | httpredirect.go:66-93 | Running `ServeHTTP` on `b.test:80` from a fresh response hands `next` the request with Host `b.test:80` kept. The response and the error are exactly what `next` produces. |
| `HttpRedirect.BracketedHostLosesBrackets` | httpredirect.go:58-81 | Behaviour as written: `[h]:port` redirects to `"https://" + h + requestURI`, whose authority `h` contains colons. |
| `HttpRedirect.UnbracketedColonsKeepPort` | httpredirect.go:58-81 | Behaviour as written: a Host value with two or more colons and no leading `[` is redirected to `"https://"` + the whole value + request URI. Its authority is the whole value, port included. |
| `Url.AuthorityOfJoin` | httpredirect.go:75-81 | `"https://" + host + rest` has authority `host` when the host holds no `/`, `?` or `#` and `rest` is empty or starts with one of them. |

## Left out

- Module registration, directive ordering and `CaddyModule` metadata (httpredirect.go:16-33): framework glue with no behaviour of its own.
- `Provision` (httpredirect.go:35-45): it fetches the TLS app from the Caddy context. If that lookup fails, the failure becomes a wrapped setup error. `ServeHTTP` never reads the stored app.
- `parseCaddyfile` and `UnmarshalCaddyfile` (httpredirect.go:47-56): they accept any directive block and configure nothing.
- The inside of `caddytls.AllMatchingCertificates`: it reads Caddy's live global certificate cache. It is the oracle parameter `hasCertificate`.
- Logging through zap (httpredirect.go:70, 73, 88): it has no effect on the response.
- How `r.URL.RequestURI()` is computed: it is the opaque field `Request.requestURI`.
- WriteRedirect: does not model what `http.Redirect` does besides `Location` and the status. It also sets `Content-Type` for GET and HEAD requests, writes a short HTML body for GET requests, and it percent-escapes non-ASCII bytes of the target in `Location`. The model's `Location` is the target as built.
- ResponseWriter.SetHeader: does not model the canonicalisation of header names. `Connection` and `Location` are already canonical.
- What the next handler does inside: only its effect on the response state and its error are modelled.
- Concurrency across requests: the handler keeps no state between calls, and scheduling belongs to the server.
- Interface-conformance assertions (httpredirect.go:95-99).
- Strings are sequences of characters, not Go's byte strings. `SplitHostPort` only looks for the ASCII characters `:`, `[` and `]`, so this makes no difference to the model.
