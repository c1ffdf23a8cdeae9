/**
 * What the two file servers share: the HTML response header, the fixed error bodies,
 * and the directory they serve from, seen as a map from file names to entries.
 */
module FileServing {
  import opened Wrappers
  import opened Text
  import opened Framing

  /** HTML_HEADERS: the status line for each code a file server answers with. */
  const HtmlStatusLines: map<string, string> := map[
    "200" := "HTTP/1.0 200 OK\r\n",
    "403" := "HTTP/1.0 403 Forbidden\r\n",
    "404" := "HTTP/1.0 404 Not Found\r\n"
  ]

  /** The content type every file server response declares. */
  const HtmlType: string := "text/html; charset=UTF-8"

  /**
   * build_response_header: the status line, the HTML content type, a Content-Length line
   * only when a length is given, the connection line and the blank line that ends the header.
   */
  function BuildResponseHeader(code: string, contentLength: Option<nat>): (r: string)
    requires code in HtmlStatusLines
    ensures StartsWith(r, HtmlStatusLines[code]) && EndsWith(r, Blank)
  {
    HtmlStatusLines[code]
    + ("Content-Type: " + HtmlType + "\r\n")
    + (if contentLength.Some? then "Content-Length: " + NatToString(contentLength.value) + "\r\n" else "")
    + "Connection: Keep-Alive\r\n"
    + "\r\n"
  }

  const NotFoundBody: string := "<html><body><h1>404 Not Found</h1></body></html>\n"

  const ForbiddenBody: string := "<html><body><h1>403 Forbidden</h1></body></html>\n"

  /** An error response: its header, with a Content-Length equal to the body's length, then the body, in one send. */
  function ErrorPage(code: string, body: string): (r: string)
    requires code in HtmlStatusLines
    ensures StartsWith(r, BuildResponseHeader(code, Some(|body|))) && EndsWith(r, body)
  {
    BuildResponseHeader(code, Some(|body|)) + body
  }

  /**
   * A directory entry: a regular file, whose content `open(...).read()` returns or fails to
   * read (None), or something else that exists (a directory, say).
   */
  datatype Entry = Regular(content: Option<string>) | NotRegular

  /**
   * The served directory: names that exist, relative to the server's working directory.
   * `os.path.exists("")` is False, so the empty name is never a key of a real directory;
   * the type does not forbid it, and no lemma here depends on its absence.
   */
  type FileSystem = map<string, Entry>

  /** `os.path.exists(name) and os.path.isfile(name)`. */
  predicate IsFile(fs: FileSystem, name: string) {
    name in fs && fs[name].Regular?
  }

  /** The name ends in `.html` or `.htm`. */
  predicate HasHtmlExtension(name: string) {
    EndsWith(name, ".html") || EndsWith(name, ".htm")
  }

  /** The 200 branch: the header with the content's length, then the content in pieces of at most 4096 bytes. */
  method SendPage(conn: Conn, content: string) returns (ok: bool)
    modifies conn
    ensures var payloads := [BuildResponseHeader("200", Some(|content|))] + Chunks(content);
      conn.outbox == old(conn.outbox) + Take(payloads, old(conn.sendsLeft)) &&
      (ok <==> |payloads| <= old(conn.sendsLeft))
    ensures conn.inbox == old(conn.inbox) && conn.closes == old(conn.closes)
  {
    var header := BuildResponseHeader("200", Some(|content|));
    ghost var budget := conn.sendsLeft;
    ghost var before := conn.outbox;
    ok := conn.SendAll(header);
    if ok {
      TakeHeaderThenChunks(header, content, budget);
      ok := SendChunks(conn, content);
      assert conn.outbox == before + ([header] + Take(Chunks(content), budget - 1));
    } else {
      assert Take([header] + Chunks(content), budget) == [];
    }
  }
}
