/**
 * The JSON product endpoint: route `/product`, check the query string, and answer
 * with a JSON body whose length the header states. The arithmetic that turns the
 * query values into the result body is a parameter here (see README).
 */
module JsonServer {
  import opened Wrappers
  import opened Text
  import opened Framing

  /** The status line for each code the JSON server answers with. */
  const JsonStatusLines: map<string, string> := map[
    "200" := "HTTP/1.0 200 OK\r\n",
    "400" := "HTTP/1.0 400 Bad Request\r\n",
    "404" := "HTTP/1.0 404 Not Found\r\n"
  ]

  /** The content type every JSON server response declares. */
  const JsonType: string := "application/json"

  /** build_response: the header, whose Content-Length is the body's length, then the body itself. */
  function BuildResponse(code: string, body: string): (r: string)
    requires code in JsonStatusLines
    ensures StartsWith(r, JsonStatusLines[code]) && EndsWith(r, Blank + body)
  {
    JsonStatusLines[code]
    + ("Content-Type: " + JsonType + "\r\n")
    + ("Content-Length: " + NatToString(|body|) + "\r\n")
    + "Connection: Keep-Alive\r\n"
    + "\r\n"
    + body
  }

  const NotFoundJson: string := "{\"error\": \"Not Found\"}"

  const BadRequestJson: string := "{\"error\": \"Bad Request\"}"

  /** `s.split(sep, 1)` when `sep` occurs in `s`: the text before its first occurrence and the text after. */
  function SplitOnce(s: string, sep: string): (r: (string, string))
    requires sep != "" && Contains(s, sep)
    ensures s == r.0 + sep + r.1 && !Contains(r.0, sep)
  {
    var i := Find(s, sep).value;
    assert s == s[..i] + sep + s[i + |sep|..];
    forall j | OccursAt(s[..i], sep, j) ensures false {
      OccursInPrefix(s, sep, i, j);
    }
    (s[..i], s[i + |sep|..])
  }

  /** The path and the query of a request target: split at the first '?', the query "" when there is none. */
  function PathAndQuery(target: string): (r: (string, string))
    ensures !Contains(r.0, "?")
    ensures target == if Contains(target, "?") then r.0 + "?" + r.1 else r.0
    ensures !Contains(target, "?") ==> r.1 == ""
  {
    if Contains(target, "?") then SplitOnce(target, "?") else (target, "")
  }

  /** A non-empty `&`-segment is a parameter when it has an '=' and something after the first one. */
  predicate IsParameter(segment: string) {
    Contains(segment, "=") && SplitOnce(segment, "=").1 != ""
  }

  /** The value of a parameter: the text after its first '='. */
  function ValueOf(segment: string): string
  {
    if Contains(segment, "=") then SplitOnce(segment, "=").1 else ""
  }

  /** The values of the segments in order, skipping empty segments; None at the first segment that is not a parameter. */
  function SegmentValues(segments: seq<string>): Option<seq<string>>
    decreases |segments|
  {
    if segments == [] then Some([])
    else
      var p := segments[0];
      if p == "" then SegmentValues(segments[1..])
      else if !IsParameter(p) then None
      else match SegmentValues(segments[1..])
        case None => None
        case Some(rest) => Some([ValueOf(p)] + rest)
  }

  /**
   * The validation half of process_product_query: None (a 400) for an empty query, for a
   * segment without '=' or with nothing after it, and when no parameter remains; otherwise
   * the values, keys dropped.
   */
  function QueryValues(query: string): (r: Option<seq<string>>)
    ensures r.Some? ==> |r.value| > 0
  {
    if query == "" then None
    else match SegmentValues(Split(query, "&"))
      case None => None
      case Some(values) => if values == [] then None else Some(values)
  }

  /** The segments that are not empty, in order. */
  function Filled(segments: seq<string>): (r: seq<string>)
    ensures forall i :: 0 <= i < |r| ==> r[i] != ""
    decreases |segments|
  {
    if segments == [] then []
    else if segments[0] == "" then Filled(segments[1..])
    else [segments[0]] + Filled(segments[1..])
  }

  /** The value of each parameter, in order. */
  function Values(parameters: seq<string>): (r: seq<string>)
    ensures |r| == |parameters|
    ensures forall i :: 0 <= i < |r| ==> r[i] == ValueOf(parameters[i])
  {
    if parameters == [] then [] else [ValueOf(parameters[0])] + Values(parameters[1..])
  }

  /**
   * The segment walk judged as a whole: the values exist exactly when every non-empty
   * segment is a parameter, and they are then those segments' values in order.
   */
  lemma {:induction false} SegmentValuesAll(segments: seq<string>)
    ensures var filled := Filled(segments);
      SegmentValues(segments) ==
        if forall i :: 0 <= i < |filled| ==> IsParameter(filled[i]) then Some(Values(filled)) else None
    decreases |segments|
  {
    if segments != [] {
      var p := segments[0];
      var tail := segments[1..];
      SegmentValuesAll(tail);
      var ft := Filled(tail);
      if p != "" {
        var filled := Filled(segments);
        assert filled == [p] + ft;
        assert filled[0] == p;
        assert forall i :: 1 <= i < |filled| ==> filled[i] == ft[i - 1];
        assert filled[1..] == ft;
        if !(forall i :: 0 <= i < |ft| ==> IsParameter(ft[i])) {
          var k :| 0 <= k < |ft| && !IsParameter(ft[k]);
          assert filled[k + 1] == ft[k];
        }
      }
    }
  }

  /** What the query check accepts, without the walk: a non-empty query all of whose non-empty segments are parameters, at least one. */
  lemma QueryValuesAll(query: string)
    ensures var filled := Filled(Split(query, "&"));
      QueryValues(query) ==
        if query != "" && |filled| > 0 && forall i :: 0 <= i < |filled| ==> IsParameter(filled[i])
        then Some(Values(filled)) else None
  {
    SegmentValuesAll(Split(query, "&"));
  }

  /** The values found so far in front of those still to come, when these exist. */
  function Prefixed(kept: seq<string>, later: Option<seq<string>>): Option<seq<string>>
  {
    match later
    case None => None
    case Some(rest) => Some(kept + rest)
  }

  lemma PrefixedNothing(later: Option<seq<string>>)
    ensures Prefixed([], later) == later
  {
    if later.Some? {
      assert [] + later.value == later.value;
    }
  }

  lemma PrefixedTwice(a: seq<string>, b: seq<string>, later: Option<seq<string>>)
    ensures Prefixed(a, Prefixed(b, later)) == Prefixed(a + b, later)
  {
    if later.Some? {
      assert a + (b + later.value) == (a + b) + later.value;
    }
  }

  /**
   * The loop of process_product_query over the `&`-segments: skip empty ones, give up on
   * one without '=' or with an empty value, otherwise keep its value.
   */
  method ProductQuery(query: string) returns (values: Option<seq<string>>)
    ensures values == QueryValues(query)
  {
    if query == "" {
      return None;
    }
    var pairs := Split(query, "&");
    var kept: seq<string> := [];
    assert pairs[0..] == pairs;
    PrefixedNothing(SegmentValues(pairs));
    for n := 0 to |pairs|
      invariant SegmentValues(pairs) == Prefixed(kept, SegmentValues(pairs[n..]))
    {
      var p := pairs[n];
      assert pairs[n..][0] == p && pairs[n..][1..] == pairs[n + 1..];
      if p == "" {
        continue;
      }
      if !Contains(p, "=") {
        assert SegmentValues(pairs[n..]) == None;
        assert SegmentValues(pairs) == None;
        return None;
      }
      var kv := SplitOnce(p, "=");
      if kv.1 == "" {
        assert SegmentValues(pairs[n..]) == None;
        assert SegmentValues(pairs) == None;
        return None;
      }
      assert ValueOf(p) == kv.1;
      assert SegmentValues(pairs[n..]) == Prefixed([kv.1], SegmentValues(pairs[n + 1..]));
      PrefixedTwice(kept, [kv.1], SegmentValues(pairs[n + 1..]));
      kept := kept + [kv.1];
    }
    assert pairs[|pairs|..] == [];
    assert SegmentValues(pairs) == Some(kept + []);
    assert kept + [] == kept;
    if kept == [] {
      return None;
    }
    values := Some(kept);
  }

  /**
   * handle_connection as a function of the request text. `product` stands for the numeric
   * half of process_product_query: the JSON body for the given values, or None when `float()`
   * raises on one of them (a 400). `float()` accepts `inf`, `nan` and overflowing values such
   * as `1e999`, and those are answered with a 200 body.
   */
  function Respond(data: string, product: seq<string> -> Option<string>): (r: Reply)
    ensures r.raises ==> r.payloads == []
    ensures !r.raises ==> |r.payloads| <= 1
    ensures data == "" ==> r == Silent
    ensures data != "" ==> (r.raises <==> |Tokens(RequestLine(data))| != 3)
    ensures data != "" && |Tokens(RequestLine(data))| == 3 ==>
      var (path, query) := PathAndQuery(Tokens(RequestLine(data))[1]);
      && (path != "/product" ==> r == Reply([BuildResponse("404", NotFoundJson)], false))
      && (path == "/product" && QueryValues(query).None? ==> r == Reply([BuildResponse("400", BadRequestJson)], false))
      && (path == "/product" && QueryValues(query).Some? ==>
            r == Reply([if product(QueryValues(query).value).Some?
                        then BuildResponse("200", product(QueryValues(query).value).value)
                        else BuildResponse("400", BadRequestJson)], false))
  {
    if data == "" then Silent
    else
      var parts := Tokens(RequestLine(data));
      if |parts| != 3 then Reply([], true)
      else
        var (path, query) := PathAndQuery(parts[1]);
        if path != "/product" then Reply([BuildResponse("404", NotFoundJson)], false)
        else match QueryValues(query)
          case None => Reply([BuildResponse("400", BadRequestJson)], false)
          case Some(values) =>
            match product(values)
            case None => Reply([BuildResponse("400", BadRequestJson)], false)
            case Some(body) => Reply([BuildResponse("200", body)], false)
  }

  /** The body of the try block of handle_connection: read, decide, send once. */
  method HandleRequest(conn: Conn, product: seq<string> -> Option<string>) returns (raised: bool)
    requires conn.Valid()
    modifies conn
    ensures var reply := Respond(Received("", old(conn.inbox)), product);
      conn.outbox == old(conn.outbox) + Take(reply.payloads, old(conn.sendsLeft)) &&
      (raised <==> reply.raises || |reply.payloads| > old(conn.sendsLeft))
    ensures conn.closes == old(conn.closes)
  {
    var data := ReadRequest(conn, "");
    if data == "" {
      return false;
    }
    var parts := Tokens(RequestLine(data));
    if |parts| != 3 {
      return true;
    }
    var (path, query) := PathAndQuery(parts[1]);
    var response;
    if path != "/product" {
      response := BuildResponse("404", NotFoundJson);
    } else {
      var values := ProductQuery(query);
      var body := if values.Some? then product(values.value) else None;
      if body.None? {
        response := BuildResponse("400", BadRequestJson);
      } else {
        response := BuildResponse("200", body.value);
      }
    }
    assert Respond(data, product) == Reply([response], false);
    var ok := conn.SendAll(response);
    raised := !ok;
  }

  /** handle_connection: the request is handled, and whatever happened the connection is then closed. */
  method HandleConnection(conn: Conn, product: seq<string> -> Option<string>) returns (raised: bool)
    requires conn.Valid()
    modifies conn
    ensures var reply := Respond(Received("", old(conn.inbox)), product);
      conn.outbox == old(conn.outbox) + Take(reply.payloads, old(conn.sendsLeft)) &&
      (raised <==> reply.raises || |reply.payloads| > old(conn.sendsLeft))
    ensures conn.closes == old(conn.closes) + 1
  {
    raised := HandleRequest(conn, product);
    conn.Close();
  }
}
