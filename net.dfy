/** Splitting a network address "host:port" or "[host]:port" into its host and
    port, as Go's net.SplitHostPort does. The redirect handler strips the port
    from a request's Host value with it (httpredirect.go:58-64). */
module Net {

  /** The reasons SplitHostPort gives for refusing an address. */
  datatype AddrError =
    | MissingPort             // no ':' at all, or none right after the ']'
    | TooManyColons           // a second ':' outside brackets
    | MissingRightBracket     // a leading '[' that is never closed
    | UnexpectedLeftBracket   // a '[' anywhere but at the start
    | UnexpectedRightBracket  // a ']' other than the one closing the host

  datatype HostPort = HostPort(host: string, port: string)

  datatype SplitResult = Ok(value: HostPort) | Err(error: AddrError)

  /** Position of the first `c` in `s`, or -1 when there is none. */
  function IndexByte(s: string, c: char): (i: int)
    ensures -1 <= i < |s|
    ensures i == -1 <==> c !in s
    ensures 0 <= i ==> s[i] == c && c !in s[..i]
  {
    if |s| == 0 then -1
    else if s[0] == c then 0
    else
      var j := IndexByte(s[1..], c);
      assert s[1..][..if j < 0 then |s| - 1 else j] == s[1..if j < 0 then |s| else j + 1];
      if j < 0 then -1 else j + 1
  }

  /** Position of the last `c` in `s`, or -1 when there is none. */
  function LastIndexByte(s: string, c: char): (i: int)
    ensures -1 <= i < |s|
    ensures i == -1 <==> c !in s
    ensures 0 <= i ==> s[i] == c && c !in s[i + 1..]
  {
    if |s| == 0 then -1
    else if s[|s| - 1] == c then |s| - 1
    else
      var i := LastIndexByte(s[..|s| - 1], c);
      assert s == s[..|s| - 1] + [s[|s| - 1]];
      assert i == -1 ==> c !in s;
      assert 0 <= i ==> s[i + 1..] == s[..|s| - 1][i + 1..] + [s[|s| - 1]];
      i
  }

  /** A port as SplitHostPort can return it: everything after the last ':',
      so it holds no ':' and, since stray brackets are refused, no bracket. */
  predicate IsPort(p: string) {
    ':' !in p && '[' !in p && ']' !in p
  }

  /** `hostport` is `hp` written "host:port" with a host free of ':' and brackets. */
  predicate IsPlainForm(hostport: string, hp: HostPort) {
    hostport == hp.host + ":" + hp.port
    && ':' !in hp.host && '[' !in hp.host && ']' !in hp.host
    && IsPort(hp.port)
  }

  /** `hostport` is `hp` written "[host]:port"; inside the brackets a host may
      hold colons (an IPv6 address) but no bracket. */
  predicate IsBracketedForm(hostport: string, hp: HostPort) {
    hostport == "[" + hp.host + "]:" + hp.port
    && '[' !in hp.host && ']' !in hp.host
    && IsPort(hp.port)
  }

  /** The two spellings of a host and a port that SplitHostPort accepts. */
  predicate IsHostPortForm(hostport: string, hp: HostPort) {
    IsPlainForm(hostport, hp) || IsBracketedForm(hostport, hp)
  }

  /** The final checks common to both spellings: no '[' from position `j` on,
      no ']' from position `k` on; the port starts after the colon at `i`. */
  function CheckBrackets(hostport: string, host: string, i: nat, j: nat, k: nat): (r: SplitResult)
    requires i < |hostport| && j <= |hostport| && k <= |hostport|
    ensures r.Ok? <==> '[' !in hostport[j..] && ']' !in hostport[k..]
    ensures r.Ok? ==> r.value == HostPort(host, hostport[i + 1..])
  {
    if IndexByte(hostport[j..], '[') >= 0 then Err(UnexpectedLeftBracket)
    else if IndexByte(hostport[k..], ']') >= 0 then Err(UnexpectedRightBracket)
    else Ok(HostPort(host, hostport[i + 1..]))
  }

  /** A character absent from two strings is absent from their concatenation. */
  lemma NotInConcat(s: string, t: string, c: char)
    requires c !in s && c !in t
    ensures c !in s + t
  {
  }

  /** The only `c` at or after position `i` is the one at `i`. */
  lemma LastIndexByteAt(s: string, c: char, i: nat)
    requires i < |s| && s[i] == c && c !in s[i + 1..]
    ensures LastIndexByte(s, c) == i
  {
  }

  /** The only `c` at or before position `i` is the one at `i`. */
  lemma IndexByteAt(s: string, c: char, i: nat)
    requires i < |s| && s[i] == c && c !in s[..i]
    ensures IndexByte(s, c) == i
  {
  }

  /** Go's net.SplitHostPort. The port starts after the last ':'. A leading '['
      must be closed by the first ']', which must sit just before that last
      ':'; otherwise the host is everything before the last ':' and may not
      hold another ':'. A result is only ever one of the two spellings. */
  function SplitHostPort(hostport: string): (r: SplitResult)
    ensures r.Ok? ==> IsHostPortForm(hostport, r.value)
    ensures ':' !in hostport ==> r == Err(MissingPort)
  {
    var i := LastIndexByte(hostport, ':');
    if i < 0 then Err(MissingPort)
    else if hostport[0] == '[' then
      var end := IndexByte(hostport, ']');
      if end < 0 then Err(MissingRightBracket)
      else if end + 1 == |hostport| then Err(MissingPort)  // no ':' can follow the ']'
      else if end + 1 != i then
        // the ']' is not followed by the last ':', by the first of several, or by none
        if hostport[end + 1] == ':' then Err(TooManyColons) else Err(MissingPort)
      else
        var r := CheckBrackets(hostport, hostport[1..end], i, 1, end + 1);
        BracketedSound(hostport, i, end, r);
        r
    else
      var host := hostport[..i];
      if IndexByte(host, ':') >= 0 then Err(TooManyColons)
      else
        var r := CheckBrackets(hostport, host, i, 0, 0);
        PlainSound(hostport, i, r);
        r
  }

  /** The "[host]:port" branch of SplitHostPort yields that spelling. */
  lemma BracketedSound(hostport: string, i: nat, end: nat, r: SplitResult)
    requires 0 < end && end + 1 == i < |hostport|
    requires hostport[0] == '[' && hostport[end] == ']' && hostport[i] == ':'
    requires ']' !in hostport[..end] && ':' !in hostport[i + 1..]
    requires r.Ok? <==> '[' !in hostport[1..] && ']' !in hostport[i..]
    requires r.Ok? ==> r.value == HostPort(hostport[1..end], hostport[i + 1..])
    ensures r.Ok? ==> IsBracketedForm(hostport, r.value)
  {
  }

  /** The "host:port" branch of SplitHostPort yields that spelling. */
  lemma PlainSound(hostport: string, i: nat, r: SplitResult)
    requires i < |hostport| && hostport[i] == ':'
    requires ':' !in hostport[..i] && ':' !in hostport[i + 1..]
    requires r.Ok? <==> '[' !in hostport[0..] && ']' !in hostport[0..]
    requires r.Ok? ==> r.value == HostPort(hostport[..i], hostport[i + 1..])
    ensures r.Ok? ==> IsPlainForm(hostport, r.value)
  {
  }

  /** Every address written in one of the two accepted spellings splits back
      into its host and port: with the soundness ensures of SplitHostPort,
      SplitHostPort(s) == Ok(hp) exactly when IsHostPortForm(s, hp). */
  lemma SplitHostPortComplete(hostport: string, hp: HostPort)
    requires IsHostPortForm(hostport, hp)
    ensures SplitHostPort(hostport) == Ok(hp)
  {
    if IsPlainForm(hostport, hp) {
      PlainComplete(hostport, hp);
    } else {
      BracketedComplete(hostport, hp);
    }
  }

  lemma PlainComplete(hostport: string, hp: HostPort)
    requires IsPlainForm(hostport, hp)
    ensures SplitHostPort(hostport) == Ok(hp)
  {
    var h, p, i := hp.host, hp.port, |hp.host|;
    assert hostport[i + 1..] == p;
    LastIndexByteAt(hostport, ':', i);
    assert hostport[..i] == h;
    assert hostport[0] != '[' by {
      if |h| > 0 { assert hostport[0] == h[0]; }
    }
    NotInConcat(h, ":", '[');
    NotInConcat(h + ":", p, '[');
    NotInConcat(h, ":", ']');
    NotInConcat(h + ":", p, ']');
    assert hostport[0..] == hostport;
  }

  lemma BracketedComplete(hostport: string, hp: HostPort)
    requires IsBracketedForm(hostport, hp)
    ensures SplitHostPort(hostport) == Ok(hp)
  {
    var end := |hp.host| + 1;
    BracketedLayout(hostport, hp);
    assert CheckBrackets(hostport, hostport[1..end], end + 1, 1, end + 1) == Ok(hp);
  }

  /** Where SplitHostPort finds the brackets and the colon in "[host]:port". */
  lemma BracketedLayout(hostport: string, hp: HostPort)
    requires IsBracketedForm(hostport, hp)
    ensures hostport[0] == '['
    ensures LastIndexByte(hostport, ':') == |hp.host| + 2
    ensures IndexByte(hostport, ']') == |hp.host| + 1
    ensures hostport[1..|hp.host| + 1] == hp.host && hostport[|hp.host| + 3..] == hp.port
    ensures '[' !in hostport[1..] && ']' !in hostport[|hp.host| + 2..]
  {
    var h, p := hp.host, hp.port;
    BracketedPieces(hostport, h, p);
    LastIndexByteAt(hostport, ':', |h| + 2);
    NotInConcat("[", h, ']');
    IndexByteAt(hostport, ']', |h| + 1);
    NotInConcat(h, "]:", '[');
    NotInConcat(h + "]:", p, '[');
    NotInConcat(":", p, ']');
  }

  /** The slices of "[" + h + "]:" + p that SplitHostPort looks at. */
  lemma BracketedPieces(hostport: string, h: string, p: string)
    requires hostport == "[" + h + "]:" + p
    ensures hostport[0] == '[' && hostport[|h| + 1] == ']' && hostport[|h| + 2] == ':'
    ensures hostport[..|h| + 1] == "[" + h
    ensures hostport[1..|h| + 1] == h
    ensures hostport[1..] == h + "]:" + p
    ensures hostport[|h| + 2..] == ":" + p
    ensures hostport[|h| + 3..] == p
  {
  }

  /** A bare IPv6 address, or any address with two colons and no leading '[',
      is refused as having too many colons. */
  lemma UnbracketedColonsRefused(hostport: string, a: nat, b: nat)
    requires a < b < |hostport|
    requires hostport[a] == ':' && hostport[b] == ':'
    requires hostport[0] != '['
    ensures SplitHostPort(hostport) == Err(TooManyColons)
  {
    var i := LastIndexByte(hostport, ':');
    assert b <= i;
    assert hostport[..i][a] == ':';
  }
}
