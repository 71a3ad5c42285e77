/** The part of `Request::parse` (proxy/request.cpp:36-60) that determines the cache key: the
    library's parser supplies the method, the target and the Host header, and the Host is split at
    its first colon. */
module Request {
  import opened CacheEntries
  import opened Text
  import opened Numbers

  /** A parsed request as the handler sees it. */
  datatype Parsed = Parsed(raw: string, verb: string, uri: string, hostname: string, port: string)

  /** `get_port()`. */
  function Port(r: Parsed): string { if r.port == "" then "80" else r.port }

  /** The cache key of a request (proxy/handler.cpp:191 and 493). */
  function Key(hostname: string, uri: string): string { hostname + uri }

  /** Hostname and port of a Host value: cut at the first colon, port 80 without one. */
  function SplitHost(host: string): (r: (string, string))
    ensures ':' !in r.0
    ensures if ':' in host then host == r.0 + ":" + r.1 else r == (host, "80")
  {
    assert forall i :: 0 <= i < |host| ==> (At(host, ":", i) <==> host[i] == ':');
    match Find(host, ":")
    case None => (host, "80")
    case Some(colon) => (host[..colon], host[colon + 1..])
  }

  /** The parsed request with the given Host value. */
  function RequestTo(raw: string, verb: string, uri: string, host: string): Parsed {
    var (hostname, port) := SplitHost(host);
    Parsed(raw, verb, uri, hostname, port)
  }

  lemma HostIsSplit(name: string, port: string)
    requires ':' !in name
    ensures SplitHost(name) == (name, "80") && SplitHost(name + ":" + port) == (name, port)
  {
    var host := name + ":" + port;
    assert forall i: nat :: i < |name| ==> host[i] == name[i];
    assert forall i: nat :: i <= |name| ==> (At(host, ":", i) <==> host[i] == ':');
    FindIs(host, ":", |name|);
    assert host[..|name|] == name && host[|name| + 1..] == port;
  }

  lemma PortText(raw: string, verb: string, uri: string, name: string, port: string)
    requires ':' !in name
    ensures Port(RequestTo(raw, verb, uri, name)) == "80"
    ensures Port(RequestTo(raw, verb, uri, name + ":" + port)) == if port == "" then "80" else port
  {
    HostIsSplit(name, port);
    hide SplitHost;
  }

  lemma EightyIsRead()
    ensures Stoi("80") == Some(80)
  {
    DecimalStoi(80);
    assert DecimalText(80) == "80";
  }

  /** The port that is connected to: the number behind the colon of the Host value, and 80 if there is no
      colon or nothing behind it. */
  lemma PortOfHost(raw: string, verb: string, uri: string, name: string, n: nat)
    requires ':' !in name && n < 0x8000_0000
    ensures Stoi(Port(RequestTo(raw, verb, uri, name))) == Some(80)
    ensures Stoi(Port(RequestTo(raw, verb, uri, name + ":"))) == Some(80)
    ensures Stoi(Port(RequestTo(raw, verb, uri, name + ":" + DecimalText(n)))) == Some(n)
  {
    hide *;
    EightyIsRead();
    DecimalStoi(n);
    DecimalParsed(n);
    PortText(raw, verb, uri, name, "");
    assert name + ":" + "" == name + ":";
    PortText(raw, verb, uri, name, DecimalText(n));
  }

  class Request {
    const raw: string
    var verb: string
    var uri: string
    var hostname: string
    var port: string

    constructor (raw: string)
      ensures this.raw == raw && verb == "" && uri == "" && hostname == "" && port == ""
    {
      this.raw := raw;
      verb, uri, hostname, port := "", "", "", "";
    }

    function View(): Parsed
      reads this
    {
      Parsed(raw, verb, uri, hostname, port)
    }

    /** Without a Host header the hostname stays what it was, the empty string for a new object. */
    method Parse(verb: string, target: string, host: Option<string>)
      modifies this
      ensures View() == RequestTo(raw, verb, target, if host.Some? then host.value else old(hostname))
    {
      this.verb := verb;
      uri := target;
      if host.Some? {
        hostname := host.value;
      }
      port := "80";
      var colonPos := Find(hostname, ":");
      if colonPos.Some? {
        port := hostname[colonPos.value + 1..];
        hostname := hostname[..colonPos.value];
      }
    }
  }

  predicate Absolute(uri: string) { "http://" <= uri }

  predicate Rooted(uri: string) { "/" <= uri }

  predicate PlainHost(hostname: string) { ':' !in hostname && '/' !in hostname }

  /** The end of a plain hostname shows in the key: the first '/' or ':' of the key comes right
      after it, or after the letters "http". */
  lemma FirstMark(hostname: string, uri: string)
    requires PlainHost(hostname) && (Rooted(uri) || Absolute(uri))
    ensures var key, n := Key(hostname, uri), |hostname| + if Rooted(uri) then 0 else 4;
            && n < |key| && key[n] == (if Rooted(uri) then '/' else ':')
            && forall i :: 0 <= i < n ==> key[i] != '/' && key[i] != ':'
  {
    var key := Key(hostname, uri);
    if !Rooted(uri) {
      assert uri[..7] == "http://";
      assert forall i :: 0 <= i < 4 ==> uri[i] == "http"[i] && key[|hostname| + i] == uri[i];
      assert uri[4] == ':' && key[|hostname| + 4] == uri[4];
    }
    forall i | 0 <= i < |hostname| ensures key[i] != '/' && key[i] != ':' {
      assert key[i] == hostname[i] && hostname[i] in hostname;
    }
  }

  /** Distinct pairs of plain hostname and target never share a cache entry. */
  lemma KeyInjective(h1: string, u1: string, h2: string, u2: string)
    requires PlainHost(h1) && (Rooted(u1) || Absolute(u1))
    requires PlainHost(h2) && (Rooted(u2) || Absolute(u2))
    requires Key(h1, u1) == Key(h2, u2)
    ensures h1 == h2 && u1 == u2
  {
    FirstMark(h1, u1);
    FirstMark(h2, u2);
    var key := Key(h1, u1);
    assert |h1| == |h2|;
    assert h1 == key[..|h1|] && u1 == key[|h1|..];
    assert h2 == key[..|h2|] && u2 == key[|h2|..];
  }

  /** For any hostnames and targets at all: two pairs share an entry exactly if one hostname begins with
      the other and what it has more is the beginning of the other target. */
  lemma SharedKey(h1: string, u1: string, h2: string, u2: string)
    ensures Key(h1, u1) == Key(h2, u2) <==>
              || (h1 <= h2 && u1 == h2[|h1|..] + u2)
              || (h2 <= h1 && u2 == h1[|h2|..] + u1)
  {
    var k1, k2 := Key(h1, u1), Key(h2, u2);
    if h1 <= h2 {
      assert h2 == h1 + h2[|h1|..];
      assert k2 == h1 + (h2[|h1|..] + u2);
      assert k1[|h1|..] == u1 && k2[|h1|..] == h2[|h1|..] + u2;
    }
    if h2 <= h1 {
      assert h1 == h2 + h1[|h2|..];
      assert k1 == h2 + (h1[|h2|..] + u1);
      assert k2[|h2|..] == u2 && k1[|h2|..] == h1[|h2|..] + u1;
    }
    if k1 == k2 {
      assert k1[..|h1|] == h1 && k2[..|h2|] == h2;
      assert |h1| <= |h2| ==> h2[..|h1|] == k2[..|h1|];
      assert |h2| <= |h1| ==> h1[..|h2|] == k1[..|h2|];
    }
  }

  /** Both restrictions are needed: a slash in the hostname moves the border, and so does a target
      that begins with neither form. */
  lemma KeyNotInjective()
    ensures Key("a/b", "/c") == Key("a", "/b/c")
    ensures Key("ab", "c") == Key("a", "bc")
  {}

  /** The port is no part of the key: requests that differ in it alone share an entry. */
  lemma PortsShareEntry(host: string, port1: string, port2: string, target: string)
    requires ':' !in host
    ensures Key(SplitHost(host + ":" + port1).0, target) == Key(SplitHost(host + ":" + port2).0, target)
    ensures SplitHost(host + ":" + port1).1 == port1
  {
    FirstColon(host, port1);
    FirstColon(host, port2);
  }

  lemma FirstColon(host: string, port: string)
    requires ':' !in host
    ensures SplitHost(host + ":" + port) == (host, port)
  {
    var s := host + ":" + port;
    assert s[|host|] == ':';
    var (h, p) := SplitHost(s);
    assert s[|h|] == ':';
    assert forall i :: 0 <= i < |host| ==> s[i] == host[i] && host[i] in host;
    assert forall i :: 0 <= i < |h| ==> s[i] == h[i] && h[i] in h;
    assert |h| == |host|;
    assert host == s[..|host|] && h == s[..|h|];
    assert port == s[|host| + 1..] && p == s[|h| + 1..];
  }
}
