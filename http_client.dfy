/**
 * The HTTP/1.0 client: splitting a URL into host, port and path, the GET
 * request it sends, framing and parsing the response text, and the redirect
 * state machine that decides between printing a page and failing.
 *
 * The network is a parameter: `Network` maps the target of one request to
 * the complete response text, or to None when connecting, sending or
 * receiving failed.
 */
module HttpClient {
  import opened Wrappers
  import opened Text

  /** Where parse_url says to connect, and the path to ask for. */
  datatype Target = Target(host: string, port: int, path: string)

  /** The path parse_url makes of the text after the first '/': one trailing '/' is dropped. */
  function UrlPath(afterSlash: string): string
  {
    if afterSlash != "" && afterSlash[|afterSlash| - 1] == '/' then "/" + afterSlash[..|afterSlash| - 1]
    else "/" + afterSlash
  }

  predicate NoChar(s: string, c: char) {
    forall i :: 0 <= i < |s| ==> s[i] != c
  }

  /** Split at the first '/': the host-port text, and the path made of the rest (`/` when there is no '/'). */
  function SplitPath(rest: string): (r: (string, string))
    ensures NoChar(r.0, '/') && |r.0| <= |rest| && r.0 == rest[..|r.0|]
    ensures |r.1| > 0 && r.1[0] == '/'
  {
    match Find(rest, "/")
    case Some(i) =>
      assert NoChar(rest[..i], '/') by {
        forall j | 0 <= j < i ensures rest[j] != '/' {
          assert !OccursAt(rest, "/", j);
          assert rest[j..j + 1] == [rest[j]];
        }
      }
      (rest[..i], UrlPath(rest[i + 1..]))
    case None =>
      assert NoChar(rest, '/') by {
        forall j | 0 <= j < |rest| ensures rest[j] != '/' {
          assert !OccursAt(rest, "/", j);
          assert rest[j..j + 1] == [rest[j]];
        }
      }
      (rest, "/")
  }

  /** Split at the last ':': the host and the port, 80 without a ':', None when the port is not an integer. */
  function SplitPort(hostPort: string): (r: Option<(string, int)>)
    ensures r.Some? ==> |r.value.0| <= |hostPort| && r.value.0 == hostPort[..|r.value.0|]
  {
    match LastIndexOf(hostPort, ':')
    case Some(j) =>
      (match ParseInt(hostPort[j + 1..])
       case Some(port) => Some((hostPort[..j], port))
       case None => None)
    case None => Some((hostPort, 80))
  }

  /**
   * parse_url: drop the 7-character scheme, split host-port from path at the
   * first '/', then host from port at the last ':'. None where `int(port)` raises.
   */
  function ParseUrl(url: string): (r: Option<Target>)
    ensures r.Some? ==> |r.value.path| > 0 && r.value.path[0] == '/'
    ensures r.Some? ==> NoChar(r.value.host, '/')
  {
    var split := SplitPath(if |url| >= 7 then url[7..] else "");
    match SplitPort(split.0)
    case Some(hostAndPort) =>
      assert forall j :: 0 <= j < |hostAndPort.0| ==> hostAndPort.0[j] == split.0[j];
      Some(Target(hostAndPort.0, hostAndPort.1, split.1))
    case None => None
  }

  /** The URL text naming `host`, an optional explicit port, and `path`. */
  function FormatUrl(host: string, port: Option<nat>, path: string): string
  {
    "http://" + HostPort(host, port) + path
  }

  lemma FindFirstChar(a: string, b: string, c: char)
    requires NoChar(a, c) && |b| > 0 && b[0] == c
    ensures Find(a + b, [c]) == Some(|a|)
  {
    var s := a + b;
    assert s[|a|..|a| + 1] == [c];
    forall j | 0 <= j < |a| ensures !OccursAt(s, [c], j) {
      assert s[j..j + 1] == [a[j]];
    }
    FindIs(s, [c], |a|);
  }

  lemma SplitPathAt(hostPort: string, afterSlash: string)
    requires NoChar(hostPort, '/')
    ensures SplitPath(hostPort + "/" + afterSlash) == (hostPort, UrlPath(afterSlash))
  {
    var rest := hostPort + "/" + afterSlash;
    assert rest == hostPort + ("/" + afterSlash);
    FindFirstChar(hostPort, "/" + afterSlash, '/');
    assert rest[..|hostPort|] == hostPort;
    assert rest[|hostPort| + 1..] == afterSlash;
  }

  lemma SplitPathNone(hostPort: string)
    requires NoChar(hostPort, '/')
    ensures SplitPath(hostPort) == (hostPort, "/")
  {
    forall j | 0 <= j < |hostPort| ensures !OccursAt(hostPort, "/", j) {
      assert hostPort[j..j + 1] == [hostPort[j]];
    }
  }

  lemma {:induction false} LastIndexOfAt(a: string, c: char, b: string)
    requires NoChar(b, c)
    ensures LastIndexOf(a + [c] + b, c) == Some(|a|)
    decreases |b|
  {
    var s := a + [c] + b;
    if b != "" {
      assert s[..|s| - 1] == a + [c] + b[..|b| - 1];
      LastIndexOfAt(a, c, b[..|b| - 1]);
    }
  }

  lemma SplitPortAt(host: string, port: nat)
    ensures SplitPort(host + ":" + NatToString(port)) == Some((host, port))
  {
    var digits := NatToString(port);
    var hostPort := host + ":" + digits;
    NatToStringPlain(port);
    LastIndexOfAt(host, ':', digits);
    assert hostPort[..|host|] == host;
    assert hostPort[|host| + 1..] == digits;
    ParseNatToString(port);
  }

  lemma SplitPortNone(host: string)
    requires NoChar(host, ':')
    ensures SplitPort(host) == Some((host, 80))
  {
  }

  /** The host-port text of a formatted URL: the host, then ':' and the decimal port when there is one. */
  function HostPort(host: string, port: Option<nat>): string
  {
    host + (if port.Some? then ":" + NatToString(port.value) else "")
  }

  lemma HostPortSplits(host: string, port: Option<nat>)
    requires NoChar(host, '/')
    requires port.None? ==> NoChar(host, ':')
    ensures NoChar(HostPort(host, port), '/')
    ensures SplitPort(HostPort(host, port)) == Some((host, if port.Some? then port.value else 80))
  {
    if port.Some? {
      var digits := NatToString(port.value);
      var hostPort := HostPort(host, port);
      assert hostPort == host + ":" + digits;
      NatToStringPlain(port.value);
      forall i | 0 <= i < |hostPort| ensures hostPort[i] != '/' {
        if i > |host| {
          assert hostPort[i] == digits[i - |host| - 1];
        }
      }
      SplitPortAt(host, port.value);
    } else {
      assert HostPort(host, port) == host;
      SplitPortNone(host);
    }
  }

  /** The general shape: host, optional port, then '/' and any text. */
  lemma ParseFormatted(host: string, port: Option<nat>, afterSlash: string)
    requires NoChar(host, '/')
    requires port.None? ==> NoChar(host, ':')
    ensures ParseUrl(FormatUrl(host, port, "/" + afterSlash))
         == Some(Target(host, if port.Some? then port.value else 80, UrlPath(afterSlash)))
  {
    var hostPort := HostPort(host, port);
    var url := FormatUrl(host, port, "/" + afterSlash);
    assert url == "http://" + hostPort + "/" + afterSlash;
    assert url[7..] == hostPort + "/" + afterSlash;
    HostPortSplits(host, port);
    SplitPathAt(hostPort, afterSlash);
    var split := SplitPath(url[7..]);
    assert split == (hostPort, UrlPath(afterSlash));
  }

  /** A URL whose path does not end in '/' parses back to its own host, port and path. */
  lemma ParseUrlInverse(host: string, port: Option<nat>, path: string)
    requires NoChar(host, '/')
    requires port.None? ==> NoChar(host, ':')
    requires |path| > 0 && path[0] == '/'
    requires |path| == 1 || path[|path| - 1] != '/'
    ensures ParseUrl(FormatUrl(host, port, path)) == Some(Target(host, if port.Some? then port.value else 80, path))
  {
    assert path == "/" + path[1..];
    ParseFormatted(host, port, path[1..]);
  }

  /** Exactly one trailing '/' is removed: `a.com/x/` gives `/x`, `a.com//` gives `/`. */
  lemma ParseUrlDropsOneSlash(host: string, port: Option<nat>, path: string)
    requires NoChar(host, '/')
    requires port.None? ==> NoChar(host, ':')
    requires |path| > 0 && path[0] == '/'
    ensures ParseUrl(FormatUrl(host, port, path + "/")) == Some(Target(host, if port.Some? then port.value else 80, path))
  {
    var a := path[1..] + "/";
    assert path + "/" == "/" + a;
    ParseFormatted(host, port, a);
    assert a[..|a| - 1] == path[1..];
    assert UrlPath(a) == path;
  }

  /** With no '/' after the scheme the path is `/`; with no ':' the port is 80. */
  lemma ParseUrlBare(host: string, port: Option<nat>)
    requires NoChar(host, '/')
    requires port.None? ==> NoChar(host, ':')
    ensures ParseUrl(FormatUrl(host, port, "")) == Some(Target(host, if port.Some? then port.value else 80, "/"))
  {
    var hostPort := HostPort(host, port);
    var url := FormatUrl(host, port, "");
    assert url == "http://" + hostPort;
    assert url[7..] == hostPort;
    HostPortSplits(host, port);
    SplitPathNone(hostPort);
    var split := SplitPath(url[7..]);
    assert split == (hostPort, "/");
  }

  /** A port that is not an integer makes parse_url fail. */
  lemma ParseUrlBadPort(host: string, portText: string, path: string)
    requires NoChar(host, '/') && NoChar(portText, '/') && NoChar(portText, ':')
    requires ParseInt(portText).None?
    requires |path| > 0 && path[0] == '/'
    ensures ParseUrl("http://" + host + ":" + portText + path).None?
  {
    var hostPort := host + ":" + portText;
    var url := "http://" + host + ":" + portText + path;
    assert url[7..] == hostPort + "/" + path[1..];
    assert NoChar(hostPort, '/');
    SplitPathAt(hostPort, path[1..]);
    LastIndexOfAt(host, ':', portText);
    assert hostPort[|host| + 1..] == portText;
    assert SplitPath(url[7..]) == (hostPort, UrlPath(path[1..]));
  }

  /** `http://a.com` has port 80 and path `/`. */
  lemma ParseUrlExampleBare()
    ensures ParseUrl("http://a.com") == Some(Target("a.com", 80, "/"))
  {
    ExampleHost();
    ExampleText("", "http://a.com");
    ParseUrlBare("a.com", None);
  }

  /** `http://a.com:8080/x/` has port 8080 and path `/x`. */
  lemma ParseUrlExamplePort()
    ensures ParseUrl("http://a.com:8080/x/") == Some(Target("a.com", 8080, "/x"))
  {
    ParseUrlDropsOneSlash("a.com", Some(8080), "/x");
    PortExampleText();
  }

  lemma PortExampleText()
    ensures FormatUrl("a.com", Some(8080), "/x" + "/") == "http://a.com:8080/x/"
  {
    assert NatToString(8080) == "8080" by {
      assert NatToString(8) == "8";
      assert NatToString(80) == "80";
      assert NatToString(808) == "808";
    }
  }

  /** `http://a.com/` has path `/`. */
  lemma ParseUrlExampleSlash()
    ensures ParseUrl("http://a.com/") == Some(Target("a.com", 80, "/"))
  {
    ExampleHost();
    ExampleText("/", "http://a.com/");
    ParseUrlInverse("a.com", None, "/");
  }

  /** `http://a.com//` has path `/` too: one of the two slashes is dropped. */
  lemma ParseUrlExampleSlashes()
    ensures ParseUrl("http://a.com//") == Some(Target("a.com", 80, "/"))
  {
    ExampleHost();
    ExampleText("/" + "/", "http://a.com//");
    ParseUrlDropsOneSlash("a.com", None, "/");
  }

  lemma ExampleHost()
    ensures NoChar("a.com", '/') && NoChar("a.com", ':')
  {
  }

  lemma ExampleText(path: string, url: string)
    requires url == "http://a.com" + path
    ensures FormatUrl("a.com", None, path) == url
  {
  }

  /** The GET request send_http_request writes for a target. */
  function BuildRequest(t: Target): (r: string)
    ensures StartsWith(r, "GET " + t.path + " HTTP/1.0\r\n") && EndsWith(r, "\r\n\r\n")
  {
    "GET " + t.path + " HTTP/1.0\r\nHost: " + t.host + "\r\nConnection: close\r\n\r\n"
  }

  /** What parse_response returns: the status (None when unparsable), the header map and the body. */
  datatype Response = Response(status: Option<int>, headers: map<string, string>, body: string)

  const Unparsable: Response := Response(None, map[], "")

  /** Neither end of `s` is whitespace, as after `strip()`. */
  predicate NoOuterSpace(s: string) {
    s == "" || (!IsSpace(s[0]) && !IsSpace(s[|s| - 1]))
  }

  /** The field of a line split at index `i`: the stripped, lower-cased key before it and the stripped value after it. */
  function FieldAt(line: string, i: nat): (f: (string, string))
    requires i < |line|
    ensures NoUpper(f.0) && NoOuterSpace(f.1)
  {
    var value := Strip(line[i + 1..]);
    assert NoOuterSpace(value) by { StripTrims(line[i + 1..]); }
    (Lower(Strip(line[..i])), value)
  }

  /** One header line: None without a ':'; else the line split at its first ':'. */
  function HeaderField(line: string): (r: Option<(string, string)>)
    ensures r.None? <==> !Contains(line, ":")
    ensures r.Some? ==> Find(line, ":").Some? && r.value == FieldAt(line, Find(line, ":").value)
    ensures r.Some? ==> NoUpper(r.value.0)
    ensures r.Some? ==> NoOuterSpace(r.value.1)
  {
    match Find(line, ":")
    case None => None
    case Some(i) => Some(FieldAt(line, i))
  }

  predicate HasKey(line: string, key: string) {
    HeaderField(line).Some? && HeaderField(line).value.0 == key
  }

  /** The header dictionary after reading one more line: a field line sets its key, any other line is skipped. */
  function AddField(m: map<string, string>, line: string): map<string, string>
  {
    match HeaderField(line)
    case None => m
    case Some((k, v)) => m[k := v]
  }

  /** The header dictionary after reading `lines` in order. */
  function HeaderMap(lines: seq<string>): (m: map<string, string>)
    ensures forall k :: k in m ==> NoUpper(k)
  {
    if lines == [] then map[]
    else AddField(HeaderMap(lines[..|lines| - 1]), lines[|lines| - 1])
  }

  /** A line that does not carry `key` leaves that key's entry as it was. */
  lemma AddFieldOther(m: map<string, string>, line: string, key: string)
    requires !HasKey(line, key)
    ensures key in AddField(m, line) <==> key in m
    ensures key in m ==> AddField(m, line)[key] == m[key]
  {
  }

  /** A line carrying `key` sets it to that line's value. */
  lemma AddFieldSame(m: map<string, string>, line: string, key: string)
    requires HasKey(line, key)
    ensures key in AddField(m, line) && AddField(m, line)[key] == HeaderField(line).value.1
  {
  }

  /** A key is in the header map only if some line carries it. */
  lemma {:induction false} HeaderMapAbsent(lines: seq<string>, key: string)
    requires forall i :: 0 <= i < |lines| ==> !HasKey(lines[i], key)
    ensures key !in HeaderMap(lines)
  {
    if lines != [] {
      HeaderMapAbsent(lines[..|lines| - 1], key);
      AddFieldOther(HeaderMap(lines[..|lines| - 1]), lines[|lines| - 1], key);
    }
  }

  /** Reading two runs of lines one after the other: the second run's fields override the first's. */
  lemma {:induction false} HeaderMapConcat(a: seq<string>, b: seq<string>)
    ensures HeaderMap(a + b) == HeaderMap(a) + HeaderMap(b)
    decreases |b|
  {
    if b == [] {
      AppendEmpty(a, b);
    } else {
      var init := b[..|b| - 1];
      var last := b[|b| - 1];
      DropLast(a, b);
      HeaderMapConcat(a, init);
      AddFieldUnion(HeaderMap(a), HeaderMap(init), last);
    }
  }

  /** Adding a field to the right operand of a union adds it to the union. */
  lemma AddFieldUnion(m1: map<string, string>, m2: map<string, string>, line: string)
    ensures AddField(m1 + m2, line) == m1 + AddField(m2, line)
  {
    match HeaderField(line)
    case None =>
    case Some((k, v)) =>
      UpdateUnion(m1, m2, k, v);
  }

  lemma UpdateUnion<K, V>(m1: map<K, V>, m2: map<K, V>, k: K, v: V)
    ensures (m1 + m2)[k := v] == m1 + m2[k := v]
  {
    var left := (m1 + m2)[k := v];
    var right := m1 + m2[k := v];
    assert left.Keys == right.Keys;
    forall x | x in left.Keys ensures left[x] == right[x] {
    }
  }

  /** The value for a key is the one on the last line carrying that key: the last duplicate wins. */
  lemma HeaderMapLastWins(before: seq<string>, line: string, after: seq<string>, key: string)
    requires HasKey(line, key)
    requires forall j :: 0 <= j < |after| ==> !HasKey(after[j], key)
    ensures var m := HeaderMap(before + [line] + after);
      key in m && m[key] == HeaderField(line).value.1
  {
    HeaderMapConcat(before + [line], after);
    HeaderMapAbsent(after, key);
    LastWinsHere(before, line, key);
  }

  /** A line that carries `key` sets its value. */
  lemma LastWinsHere(before: seq<string>, line: string, key: string)
    requires HasKey(line, key)
    ensures var m := HeaderMap(before + [line]);
      key in m && m[key] == HeaderField(line).value.1
  {
    DropLast(before, [line]);
    AddFieldSame(HeaderMap(before), line, key);
  }

  lemma AppendEmpty<T>(a: seq<T>, b: seq<T>)
    requires b == []
    ensures a + b == a
  {
  }

  /** Dropping the last element of a concatenation drops it from the second part. */
  lemma DropLast<T>(a: seq<T>, b: seq<T>)
    requires b != []
    ensures (a + b)[..|a + b| - 1] == a + b[..|b| - 1]
    ensures (a + b)[|a + b| - 1] == b[|b| - 1]
  {
  }

  /** The split at the first blank line: the header block, and the body after it ("" without one). */
  function Frame(text: string): (r: (string, string))
    ensures Find(text, Blank).Some? ==> r.0 == text[..Find(text, Blank).value]
    ensures Find(text, Blank).Some? ==> r.1 == text[Find(text, Blank).value + 4..]
    ensures Find(text, Blank).None? ==> r == (text, "")
  {
    match Find(text, Blank)
    case Some(i) => (text[..i], text[i + 4..])
    case None => (text, "")
  }

  /** The status code: the second whitespace-separated word of the status line, as an integer. */
  function StatusOf(statusLine: string): (r: Option<int>)
    ensures |Tokens(statusLine)| < 2 ==> r.None?
    ensures |Tokens(statusLine)| >= 2 ==> r == ParseInt(Tokens(statusLine)[1])
  {
    var words := Tokens(statusLine);
    if |words| < 2 then None else ParseInt(words[1])
  }

  /** parse_response as a function of the whole response text. */
  function ResponseOf(text: string): (r: Response)
    ensures r.status.None? ==> r == Unparsable
    ensures r.status.Some? ==> r.body == Frame(text).1
    ensures forall k :: k in r.headers ==> NoUpper(k)
    ensures text == "" ==> r == Unparsable
    ensures text != "" ==> var lines := Split(Frame(text).0, CRLF);
      && (StatusOf(lines[0]).None? ==> r == Unparsable)
      && (StatusOf(lines[0]).Some? ==> r == Response(StatusOf(lines[0]), HeaderMap(lines[1..]), Frame(text).1))
  {
    if text == "" then Unparsable
    else
      var frame := Frame(text);
      var lines := Split(frame.0, CRLF);
      match StatusOf(lines[0])
      case None => Unparsable
      case Some(code) => Response(Some(code), HeaderMap(lines[1..]), frame.1)
  }

  /** parse_response: frames the text, reads the status code, then builds the header dictionary line by line. */
  method ParseResponse(response: string) returns (r: Response)
    ensures r == ResponseOf(response)
  {
    if response == "" {
      return Unparsable;
    }
    var block, body;
    match Find(response, Blank) {
      case Some(i) =>
        block, body := response[..i], response[i + 4..];
      case None =>
        block, body := response, "";
    }
    assert (block, body) == Frame(response);
    var lines := Split(block, CRLF);
    var words := Tokens(lines[0]);
    if |words| < 2 {
      return Unparsable;
    }
    var code := ParseInt(words[1]);
    if code.None? {
      return Unparsable;
    }
    assert StatusOf(lines[0]) == code;
    var headers := ReadHeaders(lines[1..]);
    r := Response(code, headers, body);
  }

  /** The header loop of parse_response: each line with a ':' sets its key, later lines overwriting earlier ones. */
  method ReadHeaders(lines: seq<string>) returns (headers: map<string, string>)
    ensures headers == HeaderMap(lines)
  {
    headers := map[];
    for n := 0 to |lines|
      invariant headers == HeaderMap(lines[..n])
    {
      assert lines[..n + 1][..n] == lines[..n];
      assert HeaderMap(lines[..n + 1]) == AddField(headers, lines[n]);
      var field := HeaderField(lines[n]);
      if field.Some? {
        headers := headers[field.value.0 := field.value.1];
      }
    }
    assert lines[..|lines|] == lines;
  }

  /**
   * Why a fetch failed; every one ends the program with exit status 1. BadPort is the
   * ValueError that `int()` raises on a port that is not a number, which nothing catches,
   * so Python prints a traceback; the others write their own message to standard error.
   */
  datatype Failure =
    | TooManyRedirects
    | NotHttp
    | BadPort
    | ConnectFailed
    | InvalidResponse
    | NoLocation
    | HttpsRedirect
    | UnexpectedStatus(code: int)
    | WrongContentType(contentType: string)

  /** How fetch_url ends. */
  datatype Outcome =
    | Page(body: string)                 // 200 with an HTML content type: body to stdout, exit 0
    | ErrorPage(code: int, body: string) // status >= 400: body to stdout, exit 1
    | Fatal(reason: Failure)             // a message to stderr, exit 1

  function ExitStatus(o: Outcome): int {
    if o.Page? then 0 else 1
  }

  /** The requests one run issued, in order, and how it ended. */
  datatype Run = Run(requests: seq<Target>, outcome: Outcome)

  /** send_http_request: the decoded response text, or None on any connection failure. */
  type Network = Target -> Option<string>

  function HeaderOr(headers: map<string, string>, key: string, default: string): string {
    if key in headers then headers[key] else default
  }

  /** The checks fetch_url makes on a URL before requesting it. */
  function Start(url: string): (r: Result<Target, Failure>)
    ensures r == Err(NotHttp) <==> !StartsWith(url, "http://")
    ensures r.Ok? <==> StartsWith(url, "http://") && ParseUrl(url).Some?
    ensures r.Ok? ==> ParseUrl(url) == Some(r.value)
  {
    if !StartsWith(url, "http://") then Err(NotHttp)
    else
      match ParseUrl(url)
      case None => Err(BadPort)
      case Some(target) => Ok(target)
  }

  /** What fetch_url does with the result of one request: follow a location, or stop. */
  datatype Step = Follow(location: string) | Stop(outcome: Outcome)

  /** One request's result as fetch_url sees it: None on a transport failure, else the parsed response. */
  function Receive(reply: Option<string>): Option<Response>
  {
    match reply
    case None => None
    case Some(text) => Some(ResponseOf(text))
  }

  /** The decision fetch_url takes on one reply, in the source's order of checks. */
  function React(reply: Option<Response>): (s: Step)
    ensures s == Stop(Fatal(ConnectFailed)) <==> reply.None?
    ensures s == Stop(Fatal(InvalidResponse)) <==> reply.Some? && reply.value.status.None?
    ensures s.Stop? && s.outcome.Fatal? && (s.outcome.reason.NoLocation? || s.outcome.reason.HttpsRedirect?) ==>
      reply.Some? && (reply.value.status == Some(301) || reply.value.status == Some(302))
    ensures s.Stop? && s.outcome.Fatal? && s.outcome.reason.UnexpectedStatus? ==>
      var code := s.outcome.reason.code;
      reply.Some? && reply.value.status == Some(code) && code != 200 && code != 301 && code != 302 && code < 400
    ensures s.Stop? && s.outcome.Fatal? && s.outcome.reason.WrongContentType? ==>
      reply.Some? && reply.value.status == Some(200) && !StartsWith(s.outcome.reason.contentType, "text/html")
    ensures s.Stop? && s.outcome.Fatal? ==> !(s.outcome.reason.TooManyRedirects? || s.outcome.reason.NotHttp? || s.outcome.reason.BadPort?)
  {
    match reply
    case None => Stop(Fatal(ConnectFailed))
    case Some(response) =>
      if response.status.None? then Stop(Fatal(InvalidResponse))
      else
        var code := response.status.value;
        if code == 301 || code == 302 then
          var location := HeaderOr(response.headers, "location", "");
          if location == "" then Stop(Fatal(NoLocation))
          else if StartsWith(location, "https://") then Stop(Fatal(HttpsRedirect))
          else Follow(location)
        else if code >= 400 then Stop(ErrorPage(code, response.body))
        else if code != 200 then Stop(Fatal(UnexpectedStatus(code)))
        else
          var contentType := HeaderOr(response.headers, "content-type", "");
          if !StartsWith(contentType, "text/html") then Stop(Fatal(WrongContentType(contentType)))
          else Stop(Page(response.body))
  }

  /**
   * The redirect walk of fetch_url, with the check of a URL (`start`) and the decision on
   * the reply to a request (`decide`) as parameters: fail at hop 10 before anything else,
   * then check the URL, request it, and stop or follow the location with one more hop.
   */
  function Walk(start: string -> Result<Target, Failure>, decide: Target -> Step, url: string, redirects: nat): (r: Run)
    requires redirects <= 10
    ensures |r.requests| <= 10 - redirects
    decreases 10 - redirects
  {
    if redirects == 10 then Run([], Fatal(TooManyRedirects))
    else
      match start(url)
      case Err(failure) => Run([], Fatal(failure))
      case Ok(target) =>
        match decide(target)
        case Stop(outcome) => Run([target], outcome)
        case Follow(location) =>
          var next := Walk(start, decide, location, redirects + 1);
          Run([target] + next.requests, next.outcome)
  }

  /** The decision fetch_url takes on the reply the network gives to a request. */
  function Decide(net: Network): Target -> Step {
    t => React(Receive(net(t)))
  }

  /** fetch_url: the redirect walk with its own URL checks and reply decision. */
  function FetchUrl(net: Network, url: string, redirects: nat): (r: Run)
    requires redirects <= 10
    ensures |r.requests| <= 10 - redirects
    ensures r.requests == [] ==> r.outcome.Fatal?
    ensures redirects == 10 ==> r == Run([], Fatal(TooManyRedirects))
    ensures redirects < 10 && !StartsWith(url, "http://") ==> r == Run([], Fatal(NotHttp))
  {
    Walk(Start, Decide(net), url, redirects)
  }

  /**
   * A 301/302 reply is followed exactly when its `location` is non-empty and not
   * `https://`; a missing or empty one and an `https://` one each end the run with their own failure.
   */
  lemma ReactRedirect(response: Response)
    requires response.status == Some(301) || response.status == Some(302)
    ensures var location := HeaderOr(response.headers, "location", "");
      && (location == "" ==> React(Some(response)) == Stop(Fatal(NoLocation)))
      && (location != "" && StartsWith(location, "https://") ==> React(Some(response)) == Stop(Fatal(HttpsRedirect)))
      && (location != "" && !StartsWith(location, "https://") ==> React(Some(response)) == Follow(location))
  {
  }

  /**
   * Any other parsed status ends the run: status 400 or more as an error page with the
   * body, a 200 with a `text/html` content type as the page, a 200 with another content
   * type as that failure, and every other status as an unexpected one.
   */
  lemma ReactFinal(response: Response)
    requires response.status.Some? && response.status.value != 301 && response.status.value != 302
    ensures var code, contentType := response.status.value, HeaderOr(response.headers, "content-type", "");
      && (code >= 400 ==> React(Some(response)) == Stop(ErrorPage(code, response.body)))
      && (code < 400 && code != 200 ==> React(Some(response)) == Stop(Fatal(UnexpectedStatus(code))))
      && (code == 200 && StartsWith(contentType, "text/html") ==> React(Some(response)) == Stop(Page(response.body)))
      && (code == 200 && !StartsWith(contentType, "text/html") ==> React(Some(response)) == Stop(Fatal(WrongContentType(contentType))))
  {
  }

  /** A reply ends the run with exit status 0 only when it is a 200 with a `text/html` content type. */
  lemma ReactPage(reply: Option<Response>)
    requires React(reply).Stop? && ExitStatus(React(reply).outcome) == 0
    ensures reply.Some?
    ensures var response := reply.value;
      && response.status == Some(200)
      && StartsWith(HeaderOr(response.headers, "content-type", ""), "text/html")
      && React(reply).outcome == Page(response.body)
  {
  }

  /** A reply is reported as an error page only when its status is at least 400, and with its own body. */
  lemma ReactErrorPage(reply: Option<Response>)
    requires React(reply).Stop? && React(reply).outcome.ErrorPage?
    ensures reply.Some?
    ensures var response := reply.value;
      && response.status == Some(React(reply).outcome.code)
      && React(reply).outcome.code >= 400
      && React(reply).outcome.body == response.body
  {
  }

  /** A reply is followed only when it is a 301/302 with a non-empty location that is not `https://`. */
  lemma ReactFollow(reply: Option<Response>)
    requires React(reply).Follow?
    ensures reply.Some?
    ensures var response := reply.value;
      && (response.status == Some(301) || response.status == Some(302))
      && React(reply).location == HeaderOr(response.headers, "location", "")
      && React(reply).location != ""
      && !StartsWith(React(reply).location, "https://")
  {
  }

  /** The target the walk requests after the one for `t`, if any. */
  function NextOf(start: string -> Result<Target, Failure>, decide: Target -> Step, t: Target): Option<Target>
  {
    match decide(t)
    case Stop(_) => None
    case Follow(location) =>
      match start(location)
      case Ok(next) => Some(next)
      case Err(_) => None
  }

  /** The target fetch_url requests after the one for `t`, if any. */
  function NextTarget(net: Network, t: Target): Option<Target>
  {
    NextOf(Start, Decide(net), t)
  }

  /** The walk requests its URL first, and each later request is the one the previous reply led to. */
  lemma {:induction false} WalkFollows(start: string -> Result<Target, Failure>, decide: Target -> Step, url: string, redirects: nat)
    requires redirects <= 10
    ensures var r := Walk(start, decide, url, redirects);
      && (|r.requests| > 0 ==> start(url) == Ok(r.requests[0]))
      && forall i :: 0 <= i < |r.requests| - 1 ==> NextOf(start, decide, r.requests[i]) == Some(r.requests[i + 1])
    decreases 10 - redirects
  {
    if redirects < 10 && start(url).Ok? {
      var target := start(url).value;
      match decide(target)
      case Stop(_) =>
      case Follow(location) =>
        var next := Walk(start, decide, location, redirects + 1);
        WalkFollows(start, decide, location, redirects + 1);
        var r := Walk(start, decide, url, redirects);
        assert r.requests == [target] + next.requests;
        forall i | 0 <= i < |r.requests| - 1
          ensures NextOf(start, decide, r.requests[i]) == Some(r.requests[i + 1])
        {
          if i > 0 {
            assert r.requests[i] == next.requests[i - 1];
          }
        }
    }
  }

  /** A walk that ends other than with a fatal error ended on the decision about its last request. */
  lemma {:induction false} WalkEndsOnLast(start: string -> Result<Target, Failure>, decide: Target -> Step, url: string, redirects: nat)
    requires redirects <= 10
    ensures var r := Walk(start, decide, url, redirects);
      !r.outcome.Fatal? ==> |r.requests| > 0 && decide(r.requests[|r.requests| - 1]) == Stop(r.outcome)
    decreases 10 - redirects
  {
    if redirects < 10 && start(url).Ok? {
      var target := start(url).value;
      match decide(target)
      case Stop(_) =>
      case Follow(location) =>
        WalkEndsOnLast(start, decide, location, redirects + 1);
        var next := Walk(start, decide, location, redirects + 1);
        var r := Walk(start, decide, url, redirects);
        assert r.requests == [target] + next.requests;
        if next.requests != [] {
          assert r.requests[|r.requests| - 1] == next.requests[|next.requests| - 1];
        }
    }
  }

  /** When neither the URL check nor a decision can report too many redirects, the walk reports it only after the last hop. */
  lemma {:induction false} WalkTooMany(start: string -> Result<Target, Failure>, decide: Target -> Step, url: string, redirects: nat)
    requires redirects <= 10
    requires forall u :: start(u) != Err(TooManyRedirects)
    requires forall t :: decide(t) != Stop(Fatal(TooManyRedirects))
    ensures var r := Walk(start, decide, url, redirects);
      r.outcome == Fatal(TooManyRedirects) ==> |r.requests| == 10 - redirects
    decreases 10 - redirects
  {
    if redirects < 10 && start(url).Ok? {
      var target := start(url).value;
      match decide(target)
      case Stop(outcome) =>
      case Follow(location) =>
        WalkTooMany(start, decide, location, redirects + 1);
    }
  }

  /** A URL whose reply leads back to itself is requested on every remaining hop, then the walk fails. */
  lemma {:induction false} WalkSelfRedirect(start: string -> Result<Target, Failure>, decide: Target -> Step, url: string, redirects: nat)
    requires redirects <= 10
    requires start(url).Ok? && decide(start(url).value) == Follow(url)
    ensures Walk(start, decide, url, redirects) == Run(seq(10 - redirects, _ => start(url).value), Fatal(TooManyRedirects))
    decreases 10 - redirects
  {
    if redirects < 10 {
      var t := start(url).value;
      var rest := Walk(start, decide, url, redirects + 1);
      WalkSelfRedirect(start, decide, url, redirects + 1);
      assert [t] + seq(10 - (redirects + 1), _ => t) == seq(10 - redirects, _ => t);
    }
  }

  /**
   * Every request after the first goes to the location of the previous
   * response (see ReactFollow: a 301/302 with a non-empty location that is
   * not `https://`); so an `https://` location is never requested.
   */
  lemma RequestsFollowLocations(net: Network, url: string, redirects: nat)
    requires redirects <= 10
    ensures var r := FetchUrl(net, url, redirects);
      && (|r.requests| > 0 ==> Start(url) == Ok(r.requests[0]))
      && forall i :: 0 <= i < |r.requests| - 1 ==> NextTarget(net, r.requests[i]) == Some(r.requests[i + 1])
  {
    WalkFollows(Start, Decide(net), url, redirects);
  }

  /** A run that ends other than with a fatal error ended on the reply to its last request. */
  lemma EndsOnLastReply(net: Network, url: string, redirects: nat)
    requires redirects <= 10
    ensures var r := FetchUrl(net, url, redirects);
      !r.outcome.Fatal? ==>
        |r.requests| > 0 && React(Receive(net(r.requests[|r.requests| - 1]))) == Stop(r.outcome)
  {
    WalkEndsOnLast(Start, Decide(net), url, redirects);
  }

  /** Exit status 0 happens only when the last response was a 200 with a `text/html` content type; its body is printed. */
  lemma PageOnlyFor200Html(net: Network, url: string, redirects: nat)
    requires redirects <= 10
    ensures var r := FetchUrl(net, url, redirects);
      ExitStatus(r.outcome) == 0 ==>
        && |r.requests| > 0
        && var last := r.requests[|r.requests| - 1];
        && net(last).Some?
        && var response := ResponseOf(net(last).value);
        && response.status == Some(200)
        && StartsWith(HeaderOr(response.headers, "content-type", ""), "text/html")
        && r.outcome == Page(response.body)
  {
    var r := FetchUrl(net, url, redirects);
    EndsOnLastReply(net, url, redirects);
    if ExitStatus(r.outcome) == 0 {
      PageFromReply(net(r.requests[|r.requests| - 1]), r.outcome);
    }
  }

  /** An error page is reported only for a last response whose status is at least 400, with that response's body. */
  lemma ErrorPageOnlyFrom400(net: Network, url: string, redirects: nat)
    requires redirects <= 10
    ensures var r := FetchUrl(net, url, redirects);
      r.outcome.ErrorPage? ==>
        && |r.requests| > 0
        && var last := r.requests[|r.requests| - 1];
        && net(last).Some?
        && var response := ResponseOf(net(last).value);
        && response.status == Some(r.outcome.code) && r.outcome.code >= 400
        && r.outcome.body == response.body
  {
    var r := FetchUrl(net, url, redirects);
    EndsOnLastReply(net, url, redirects);
    if r.outcome.ErrorPage? {
      ErrorPageFromReply(net(r.requests[|r.requests| - 1]), r.outcome);
    }
  }

  lemma PageFromReply(reply: Option<string>, outcome: Outcome)
    requires React(Receive(reply)) == Stop(outcome) && ExitStatus(outcome) == 0
    ensures reply.Some?
    ensures var response := ResponseOf(reply.value);
      && response.status == Some(200)
      && StartsWith(HeaderOr(response.headers, "content-type", ""), "text/html")
      && outcome == Page(response.body)
  {
    ReactPage(Receive(reply));
  }

  lemma ErrorPageFromReply(reply: Option<string>, outcome: Outcome)
    requires React(Receive(reply)) == Stop(outcome) && outcome.ErrorPage?
    ensures reply.Some?
    ensures var response := ResponseOf(reply.value);
      response.status == Some(outcome.code) && outcome.code >= 400 && outcome.body == response.body
  {
    ReactErrorPage(Receive(reply));
  }

  lemma ReactNeverTooMany(reply: Option<Response>)
    ensures React(reply) != Stop(Fatal(TooManyRedirects))
  {
  }

  /** "Too many redirects" is reported only once all 10 - redirects allowed requests were made. */
  lemma TooManyRedirectsUsesAllHops(net: Network, url: string, redirects: nat)
    requires redirects <= 10
    ensures var r := FetchUrl(net, url, redirects);
      r.outcome == Fatal(TooManyRedirects) ==> |r.requests| == 10 - redirects
  {
    forall t ensures Decide(net)(t) != Stop(Fatal(TooManyRedirects)) {
      ReactNeverTooMany(Receive(net(t)));
    }
    WalkTooMany(Start, Decide(net), url, redirects);
  }

  /** A URL that redirects to itself is requested until the hop counter reaches 10, then fails. */
  lemma SelfRedirectExhaustsHops(net: Network, url: string, redirects: nat)
    requires redirects <= 10
    requires Start(url).Ok?
    requires React(Receive(net(Start(url).value))) == Follow(url)
    ensures FetchUrl(net, url, redirects) == Run(seq(10 - redirects, _ => Start(url).value), Fatal(TooManyRedirects))
  {
    WalkSelfRedirect(Start, Decide(net), url, redirects);
  }

  /** A redirect to an `https://` location fails before any request to it. */
  lemma HttpsLocationIsFatal(reply: Option<Response>)
    requires reply.Some?
    requires var response := reply.value;
      && (response.status == Some(301) || response.status == Some(302))
      && StartsWith(HeaderOr(response.headers, "location", ""), "https://")
    ensures React(reply) == Stop(Fatal(HttpsRedirect))
  {
  }
}
