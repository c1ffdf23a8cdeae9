/**
 * The single-connection file server: read one request, answer it from the served
 * directory, and always shut the connection down afterwards.
 */
module FileServer1 {
  import opened Wrappers
  import opened Text
  import opened Framing
  import opened FileServing

  /** What handle_connection sends for a GET of `name` (the path without its first character). */
  function Serve(name: string, fs: FileSystem): (r: Reply)
    ensures r.raises <==> IsFile(fs, name) && HasHtmlExtension(name) && fs[name].content.None?
    ensures r.raises ==> r.payloads == []
  {
    if !IsFile(fs, name) then Reply([ErrorPage("404", NotFoundBody)], false)
    else if !HasHtmlExtension(name) then Reply([ErrorPage("403", ForbiddenBody)], false)
    else match fs[name].content
      case None => Reply([], true)
      case Some(content) => Reply([BuildResponseHeader("200", Some(|content|))] + Chunks(content), false)
  }

  /**
   * handle_connection as a function of the request text: nothing for an empty request or a
   * request line of fewer than three words, an exception for more than three, a bare 403
   * header for a method other than GET, and otherwise the file policy.
   */
  function Respond(data: string, fs: FileSystem): (r: Reply)
    ensures r.raises ==> r.payloads == []
  {
    if data == "" then Silent
    else
      var parts := Tokens(RequestLine(data));
      if |parts| < 3 then Silent
      else if |parts| > 3 then Reply([], true)
      else if parts[0] != "GET" then Reply([BuildResponseHeader("403", Some(0))], false)
      else Serve(parts[1][1..], fs)
  }

  /**
   * The request-line rules for any request text: silence for an empty request or fewer than
   * three words, an exception for more than three, the bare 403 header for a method other
   * than GET whatever the directory holds, and the file policy for a GET.
   */
  lemma RequestLineRules(data: string, fs: FileSystem)
    ensures data == "" ==> Respond(data, fs) == Silent
    ensures data != "" ==> var words := Tokens(RequestLine(data));
      && (|words| < 3 ==> Respond(data, fs) == Silent)
      && (|words| > 3 ==> Respond(data, fs) == Reply([], true))
      && (|words| == 3 && words[0] != "GET" ==> Respond(data, fs) == Reply([BuildResponseHeader("403", Some(0))], false))
      && (|words| == 3 && words[0] == "GET" ==> Respond(data, fs) == Serve(words[1][1..], fs))
  {
  }

  /** The sends of a GET of `name`, stopping at the first one that raises. */
  method ServeFile(conn: Conn, name: string, fs: FileSystem) returns (raised: bool)
    modifies conn
    ensures var reply := Serve(name, fs);
      conn.outbox == old(conn.outbox) + Take(reply.payloads, old(conn.sendsLeft)) &&
      (raised <==> reply.raises || |reply.payloads| > old(conn.sendsLeft))
    ensures conn.inbox == old(conn.inbox) && conn.closes == old(conn.closes)
  {
    if !IsFile(fs, name) {
      var ok := conn.SendAll(ErrorPage("404", NotFoundBody));
      return !ok;
    }
    if !HasHtmlExtension(name) {
      var ok := conn.SendAll(ErrorPage("403", ForbiddenBody));
      return !ok;
    }
    match fs[name].content {
      case None =>
        return true;
      case Some(content) =>
        var ok := SendPage(conn, content);
        return !ok;
    }
  }

  /** The body of the try block of handle_connection: read, decide, send. */
  method HandleRequest(conn: Conn, fs: FileSystem) returns (raised: bool)
    requires conn.Valid()
    modifies conn
    ensures var reply := Respond(Received("", old(conn.inbox)), fs);
      conn.outbox == old(conn.outbox) + Take(reply.payloads, old(conn.sendsLeft)) &&
      (raised <==> reply.raises || |reply.payloads| > old(conn.sendsLeft))
    ensures conn.closes == old(conn.closes)
  {
    var data := ReadRequest(conn, "");
    if data == "" {
      return false;
    }
    var parts := Tokens(RequestLine(data));
    if |parts| < 3 {
      return false;
    }
    if |parts| > 3 {
      return true;
    }
    var verb, path := parts[0], parts[1];
    if verb != "GET" {
      var ok := conn.SendAll(BuildResponseHeader("403", Some(0)));
      return !ok;
    }
    path := path[1..];
    assert Respond(data, fs) == Serve(path, fs);
    raised := ServeFile(conn, path, fs);
  }

  /** handle_connection: the request is handled, and whatever happened the connection is then closed. */
  method HandleConnection(conn: Conn, fs: FileSystem) returns (raised: bool)
    requires conn.Valid()
    modifies conn
    ensures var reply := Respond(Received("", old(conn.inbox)), fs);
      conn.outbox == old(conn.outbox) + Take(reply.payloads, old(conn.sendsLeft)) &&
      (raised <==> reply.raises || |reply.payloads| > old(conn.sendsLeft))
    ensures conn.closes == old(conn.closes) + 1
  {
    raised := HandleRequest(conn, fs);
    conn.Close();
  }
}
