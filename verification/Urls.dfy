/** `URL`: a source string cut into components by a cursor. */
module Urls {
  import opened Text

  datatype Url = Url(schema: string, host: string, port: string, path: string, query: string)

  datatype BadUrl = BadUrl

  function SchemaLength(source: string): (n: nat)
    ensures n <= |source|
  {
    if "https://" <= source then 8 else if "http://" <= source then 7 else 0
  }

  /** The path and query at the start of `t`: a tail that starts with neither '/' nor '?' is dropped. */
  function SplitPath(t: string): (string, string) {
    var n := if t != "" && t[0] == '/' then CSpan(t, {'?'}) else 0;
    (t[..n], if n < |t| && t[n] == '?' then t[n..] else "")
  }

  const STOPS := {':', '/', '?'}

  /** The port at the start of `t`, if there is a colon, and what follows it. */
  function SplitPort(t: string): Result<(string, string), BadUrl> {
    if t == "" || t[0] != ':' then Ok(("", t))
    else
      var d := DigitSpan(t[1..]);
      if d == 0 then Err(BadUrl) else Ok((t[1..][..d], t[1..][d..]))
  }

  /** Host, port and what follows them. */
  function SplitHost(t: string): Result<(string, string, string), BadUrl> {
    var n := CSpan(t, STOPS);
    match SplitPort(t[n..])
    case Err(e) => Err(e)
    case Ok((port, rest)) => Ok((t[..n], port, rest))
  }

  function Split(source: string): Result<Url, BadUrl> {
    var k := SchemaLength(source);
    match SplitHost(source[k..])
    case Err(e) => Err(e)
    case Ok((host, port, rest)) => Ok(Url(source[..k], host, port, SplitPath(rest).0, SplitPath(rest).1))
  }

  lemma SchemaChars(source: string)
    ensures "https://" <= source <==>
              |source| >= 8 && source[0] == 'h' && source[1] == 't' && source[2] == 't' && source[3] == 'p'
              && source[4] == 's' && source[5] == ':' && source[6] == '/' && source[7] == '/'
    ensures "http://" <= source <==>
              |source| >= 7 && source[0] == 'h' && source[1] == 't' && source[2] == 't' && source[3] == 'p'
              && source[4] == ':' && source[5] == '/' && source[6] == '/'
  {
  }

  method ParseSchema(source: string) returns (p: nat)
    ensures p == SchemaLength(source)
  {
    SchemaChars(source);
    p := 0;
    if |source| >= 7 {
      if source[0] == 'h' && source[1] == 't' && source[2] == 't' && source[3] == 'p' {
        if source[4] == 's' && source[5] == ':' && source[6] == '/' && 7 < |source| && source[7] == '/' {
          p := p + 8;
        } else if source[4] == ':' && source[5] == '/' && source[6] == '/' {
          p := p + 7;
        }
      }
    }
  }

  method SkipDigits(source: string, start: nat) returns (p: nat)
    requires start <= |source|
    ensures p == start + DigitSpan(source[start..])
  {
    p := start;
    while p != |source|
      invariant start <= p <= |source|
      invariant DigitSpan(source[start..]) == p - start + DigitSpan(source[p..])
      decreases |source| - p
    {
      if !('0' <= source[p] <= '9') {
        break;
      }
      assert source[p..][1..] == source[p + 1..];
      p := p + 1;
    }
  }

  method ParsePort(source: string, start: nat) returns (port: Result<string, BadUrl>, p: nat)
    requires start <= |source|
    ensures start <= p <= |source|
    ensures match SplitPort(source[start..])
            case Err(e) => port == Err(e)
            case Ok((digits, rest)) => port == Ok(digits) && rest == source[p..]
  {
    p := start;
    port := Ok("");
    if p != |source| && source[p] == ':' {
      p := p + 1;
      assert source[start..][1..] == source[p..];
      ghost var t := source[p..];
      var s := p;
      p := SkipDigits(source, p);
      var digits := source[s..p];
      assert t[..p - s] == digits && t[p - s..] == source[p..];
      port := if digits == "" then Err(BadUrl) else Ok(digits);
    }
  }

  /** The loops that stop at a delimiter. */
  method SkipTo(source: string, start: nat, stop: set<char>) returns (p: nat)
    requires start <= |source|
    ensures p == start + CSpan(source[start..], stop)
  {
    p := start;
    while p != |source|
      invariant start <= p <= |source|
      invariant CSpan(source[start..], stop) == p - start + CSpan(source[p..], stop)
      decreases |source| - p
    {
      if source[p] in stop {
        break;
      }
      assert source[p..][1..] == source[p + 1..];
      p := p + 1;
    }
  }

  method ParseHost(source: string, start: nat) returns (r: Result<(string, string), BadUrl>, p: nat)
    requires start <= |source|
    ensures start <= p <= |source|
    ensures match SplitHost(source[start..])
            case Err(e) => r == Err(e)
            case Ok((host, port, rest)) => r == Ok((host, port)) && rest == source[p..]
  {
    p := SkipTo(source, start, STOPS);
    ghost var t, n := source[start..], p - start;
    var host := source[start..p];
    assert t[..n] == host && t[n..] == source[p..];
    var port: Result<string, BadUrl>;
    port, p := ParsePort(source, p);
    r := match port case Err(e) => Err(e) case Ok(digits) => Ok((host, digits));
  }

  method ParsePath(source: string, start: nat) returns (path: string, query: string)
    requires start <= |source|
    ensures (path, query) == SplitPath(source[start..])
  {
    var p := start;
    path, query := "", "";
    if p != |source| && source[p] == '/' {
      p := SkipTo(source, p, {'?'});
      path := source[start..p];
    }
    ghost var t, n := source[start..], p - start;
    assert t[..n] == path && t[n..] == source[p..];
    var s := p;
    if p != |source| && source[p] == '?' {
      while p != |source|
        invariant s <= p <= |source|
        decreases |source| - p
      {
        p := p + 1;
      }
      query := source[s..p];
      assert query == source[s..];
    }
  }

  /** The constructor, with its cursor and its `throw`. */
  method Parse(source: string) returns (r: Result<Url, BadUrl>)
    ensures r == Split(source)
  {
    var p := ParseSchema(source);
    var schema := source[..p];
    var authority, rest := ParseHost(source, p);
    match authority
    case Err(e) =>
      r := Err(e);
    case Ok((host, port)) =>
      var path, query := ParsePath(source, rest);
      r := Ok(Url(schema, host, port, path, query));
  }

  // ----- the decomposition

  function PortText(port: string): string {
    if port == "" then "" else ":" + port
  }

  function Join(u: Url): string {
    u.schema + (u.host + (PortText(u.port) + (u.path + u.query)))
  }

  lemma PathsJoin(t: string)
    ensures SplitPath(t).0 + SplitPath(t).1 <= t
    ensures SplitPath(t).0 + SplitPath(t).1 == t <==> t == "" || t[0] == '/' || t[0] == '?'
    ensures t != "" && t[0] != '/' && t[0] != '?' ==> SplitPath(t) == ("", "")
  {
    var n := if t != "" && t[0] == '/' then CSpan(t, {'?'}) else 0;
    assert t[..n] + t[n..] == t;
  }

  lemma CutAt(t: string, n: nat)
    requires n <= |t|
    ensures t == t[..n] + t[n..]
  {
  }

  lemma JoinAround(a: string, b: string, c: string, t: string)
    ensures var (path, query) := SplitPath(t);
            var j := a + (b + (c + (path + query)));
            var source := a + (b + (c + t));
            && j <= source && (j == source <==> path + query == t)
            && (path + query == "" ==> |j| <= |source| && source[|j|..] == t)
  {
    var (path, query) := SplitPath(t);
    PathsJoin(t);
    var m := path + query;
    var rest := t[|m|..];
    assert t == m + rest;
    assert a + (b + (c + t)) == a + (b + (c + m)) + rest;
  }

  lemma TailDroppedIff(a: string, b: string, port: string, t: string)
    requires port == "" ==> t == "" || t[0] == '/' || t[0] == '?'
    ensures var (path, query) := SplitPath(t);
            var j := a + (b + (PortText(port) + (path + query)));
            var source := a + (b + (PortText(port) + t));
            && j <= source
            && (j != source <==> port != "" && |j| < |source| && source[|j|] != '/' && source[|j|] != '?')
            && (j != source ==> path == "" == query)
  {
    JoinAround(a, b, PortText(port), t);
    PathsJoin(t);
    var (path, query) := SplitPath(t);
    if path + query != t {
      var source := a + (b + (PortText(port) + t));
      var j := a + (b + (PortText(port) + (path + query)));
      assert source[|j|] == source[|j|..][0];
    }
  }

  lemma Halves(t: string, n: nat)
    requires n <= |t|
    ensures t == t[..n] + t[n..]
  {
  }

  lemma PortsJoin(t: string)
    requires SplitPort(t).Ok?
    ensures var r := SplitPort(t).value;
            t == PortText(r.0) + r.1
  {
    if t != "" && t[0] == ':' {
      var u := t[1..];
      var d := DigitSpan(u);
      assert t == ":" + u;
      Halves(u, d);
      Regroup(":", u[..d], u[d..]);
    } else {
      assert "" + t == t;
    }
  }

  lemma HostsJoin(t: string)
    requires SplitHost(t).Ok?
    ensures var r := SplitHost(t).value;
            && t == r.0 + (PortText(r.1) + r.2)
            && (r.1 == "" ==> r.2 == "" || r.2[0] == '/' || r.2[0] == '?')
  {
    var n := CSpan(t, STOPS);
    PortsJoin(t[n..]);
    Halves(t, n);
    assert n < |t| ==> t[n..][0] == t[n];
  }

  /**
   No component is invented: the components joined are a beginning of the source. They are all of it
   unless a port is followed by something else than a digit, '/' or '?'; then the tail after the port
   is dropped.
   */
  lemma DecompositionIsLossless(source: string)
    requires Split(source).Ok?
    ensures var j := Join(Split(source).value);
            && j <= source
            && (j != source <==>
                Split(source).value.port != "" && |j| < |source| && source[|j|] != '/' && source[|j|] != '?')
            && (j != source ==> Split(source).value.path == "" == Split(source).value.query)
  {
    var k := SchemaLength(source);
    var (host, port, rest) := SplitHost(source[k..]).value;
    HostsJoin(source[k..]);
    CutAt(source, k);
    TailDroppedIff(source[..k], host, port, rest);
  }

  lemma NoSchemaInside(source: string, h: nat)
    requires h < |source| && source[h] in STOPS && forall i :: 0 <= i < h ==> source[i] !in STOPS
    requires source[h] == ':' ==> h + 1 < |source| && '0' <= source[h + 1] <= '9'
    ensures !("http://" <= source) && !("https://" <= source)
  {
    SchemaChars(source);
  }

  lemma HostEnds(u: Url, tail: string)
    requires WellFormed(u) && tail != "" && tail == PortText(u.port) + (u.path + u.query)
    ensures tail[0] in STOPS && (tail[0] == ':' ==> 1 < |tail| && '0' <= tail[1] <= '9')
  {
    if u.port != "" {
      assert tail[1] == u.port[0];
    }
  }

  ghost predicate WellFormed(u: Url) {
    && u.schema in {"", "http://", "https://"}
    && (forall i :: 0 <= i < |u.host| ==> u.host[i] !in STOPS)
    && (forall i :: 0 <= i < |u.port| ==> '0' <= u.port[i] <= '9')
    && (u.path != "" ==> u.path[0] == '/' && '?' !in u.path)
    && (u.query != "" ==> u.query[0] == '?')
  }

  lemma PathAndQuery(path: string, query: string)
    requires path != "" ==> path[0] == '/' && '?' !in path
    requires query != "" ==> query[0] == '?'
    ensures SplitPath(path + query) == (path, query)
  {
    var t := path + query;
    if path == "" {
      assert t == query;
    } else {
      SpanOver(path, query, {'?'});
    }
    assert t[..|path|] == path && t[|path|..] == query;
  }

  lemma NoSchemaJoined(host: string, tail: string, source: string)
    requires tail != "" && tail[0] in STOPS && (tail[0] == ':' ==> 1 < |tail| && '0' <= tail[1] <= '9')
    requires source == host + tail && forall i :: 0 <= i < |host| ==> host[i] !in STOPS
    ensures !("http://" <= source) && !("https://" <= source)
  {
    assert source[|host|] == tail[0];
    assert 1 < |tail| ==> source[|host| + 1] == tail[1];
    NoSchemaInside(source, |host|);
  }

  /** A host without a schema is not taken for one: its ':' would have to start a port. */
  lemma SchemaFound(u: Url)
    requires WellFormed(u)
    ensures SchemaLength(Join(u)) == |u.schema|
  {
    var source := Join(u);
    SchemaChars(source);
    if u.schema == "http://" {
      assert source[4] == ':';
    } else if u.schema == "" {
      var tail := PortText(u.port) + (u.path + u.query);
      assert source == u.host + tail;
      if tail != "" {
        HostEnds(u, tail);
        NoSchemaJoined(u.host, tail, source);
      } else {
        assert source == u.host;
      }
    }
  }

  /** `t` is a host, a ':' and something that does not start with a digit. */
  ghost predicate PortMissing(t: string, host: string, tail: string) {
    && t == host + (":" + tail) && (forall i :: 0 <= i < |host| ==> host[i] !in STOPS)
    && (tail == "" || !('0' <= tail[0] <= '9'))
  }

  lemma NoPortAt(t: string)
    requires SplitHost(t).Err?
    ensures exists host, tail :: PortMissing(t, host, tail)
  {
    var n := CSpan(t, STOPS);
    assert t[n..][0] == t[n] && t[n..][1..] == t[n + 1..];
    assert t == t[..n] + (":" + t[n + 1..]);
    assert PortMissing(t, t[..n], t[n + 1..]);
  }

  lemma NoPort(t: string, host: string, tail: string)
    requires PortMissing(t, host, tail)
    ensures SplitHost(t).Err?
  {
    SpanOver(host, ":" + tail, STOPS);
    assert t[|host|..] == ":" + tail && (":" + tail)[1..] == tail;
  }

  /** The constructor throws exactly when a host, however it is found, is followed by a ':' without a digit. */
  lemma ThrowsIff(source: string)
    ensures Split(source).Err? <==>
            exists host, tail :: PortMissing(source[SchemaLength(source)..], host, tail)
  {
    var t := source[SchemaLength(source)..];
    if SplitHost(t).Err? {
      NoPortAt(t);
    }
    forall host, tail | PortMissing(t, host, tail) ensures SplitHost(t).Err? {
      NoPort(t, host, tail);
    }
  }

  lemma PortRead(t: string, u: string, port: string, w: string)
    requires port != "" && t == ":" + u && u == port + w && DigitSpan(u) == |port|
    ensures SplitPort(t) == Ok((port, w))
  {
    assert t[1..] == u && u[..|port|] == port && u[|port|..] == w;
  }

  lemma PortReadsBack(port: string, w: string)
    requires forall i :: 0 <= i < |port| ==> '0' <= port[i] <= '9'
    requires w == "" || w[0] == '/' || w[0] == '?'
    ensures SplitPort(PortText(port) + w) == Ok((port, w))
  {
    if port == "" {
      assert PortText(port) + w == w;
    } else {
      DigitsOver(port, w);
      Regroup(":", port, w);
      PortRead(":" + (port + w), port + w, port, w);
    }
  }

  lemma HostReadsBack(host: string, port: string, w: string)
    requires forall i :: 0 <= i < |host| ==> host[i] !in STOPS
    requires forall i :: 0 <= i < |port| ==> '0' <= port[i] <= '9'
    requires w == "" || w[0] == '/' || w[0] == '?'
    ensures SplitHost(host + (PortText(port) + w)) == Ok((host, port, w))
  {
    var v := PortText(port) + w;
    var t, n := host + v, |host|;
    SpanOver(host, v, STOPS);
    assert t[..n] == host && t[n..] == v;
    PortReadsBack(port, w);
  }

  /** Parsing the components joined gives the components. */
  lemma ComponentsReadBack(u: Url)
    requires WellFormed(u)
    ensures Split(Join(u)) == Ok(u)
  {
    SchemaFound(u);
    var t := u.host + (PortText(u.port) + (u.path + u.query));
    assert Join(u)[..|u.schema|] == u.schema && Join(u)[|u.schema|..] == t;
    HostReadsBack(u.host, u.port, u.path + u.query);
    PathAndQuery(u.path, u.query);
  }
}
