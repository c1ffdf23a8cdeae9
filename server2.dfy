/**
 * The select-based file server: a registry of open client connections, each handled
 * the first time it becomes readable and then closed and dropped; the handler itself
 * differs from the single-connection server in how it names files, in turning read
 * failures into 404, and in ignoring failed sends.
 */
module FileServer2 {
  import opened Wrappers
  import opened Text
  import opened Framing
  import opened FileServing

  /** The file a request path names: one leading '/' removed if present, and `index.html` for the empty name. */
  function ResourceName(path: string): (name: string)
    ensures name != ""
    ensures StartsWith(path, "/") && path != "/" ==> name == path[1..]
    ensures !StartsWith(path, "/") && path != "" ==> name == path
    ensures path == "" || path == "/" ==> name == "index.html"
  {
    var stripped := if StartsWith(path, "/") then path[1..] else path;
    if stripped == "" then "index.html" else stripped
  }

  /** What handle_connection sends for a GET of file `name`; a file that cannot be read is answered like a missing one. */
  function Serve(name: string, fs: FileSystem): (r: Reply)
    ensures !r.raises && |r.payloads| >= 1
  {
    if !IsFile(fs, name) then Reply([ErrorPage("404", NotFoundBody)], false)
    else if !HasHtmlExtension(name) then Reply([ErrorPage("403", ForbiddenBody)], false)
    else match fs[name].content
      case None => Reply([ErrorPage("404", NotFoundBody)], false)
      case Some(content) => Reply([BuildResponseHeader("200", Some(|content|))] + Chunks(content), false)
  }

  /**
   * handle_connection as a function of the request text: nothing for an empty request or
   * fewer than three words on the request line, an exception for more than three, a bare
   * 403 header for a method other than GET, and otherwise the file policy.
   */
  function Respond(data: string, fs: FileSystem): (r: Reply)
    ensures r.raises ==> r.payloads == []
  {
    if data == "" then Silent
    else
      var parts := Tokens(RequestLine(data));
      if |parts| < 3 then Silent
      else if |parts| > 3 then Reply([], true)
      else if parts[0] != "GET" then Reply([BuildResponseHeader("403", Some(0))], false)
      else Serve(ResourceName(parts[1]), fs)
  }

  /**
   * The request-line rules for any request text: silence for an empty request or fewer than
   * three words, an exception for more than three, the bare 403 header for a method other
   * than GET whatever the directory holds, and the file policy for a GET.
   */
  lemma RequestLineRules(data: string, fs: FileSystem)
    ensures data == "" ==> Respond(data, fs) == Silent
    ensures data != "" ==> var words := Tokens(RequestLine(data));
      && (|words| < 3 ==> Respond(data, fs) == Silent)
      && (|words| > 3 ==> Respond(data, fs) == Reply([], true))
      && (|words| == 3 && words[0] != "GET" ==> Respond(data, fs) == Reply([BuildResponseHeader("403", Some(0))], false))
      && (|words| == 3 && words[0] == "GET" ==> Respond(data, fs) == Serve(ResourceName(words[1]), fs))
  {
  }

  /** The sends for a GET of `name`; a send that fails ends the response without an exception. */
  method ServeFile(conn: Conn, name: string, fs: FileSystem)
    modifies conn
    ensures conn.outbox == old(conn.outbox) + Take(Serve(name, fs).payloads, old(conn.sendsLeft))
    ensures conn.inbox == old(conn.inbox) && conn.closes == old(conn.closes)
  {
    if !IsFile(fs, name) {
      var _ := conn.SendAll(ErrorPage("404", NotFoundBody));
      return;
    }
    if !HasHtmlExtension(name) {
      var _ := conn.SendAll(ErrorPage("403", ForbiddenBody));
      return;
    }
    match fs[name].content {
      case None =>
        var _ := conn.SendAll(ErrorPage("404", NotFoundBody));
      case Some(content) =>
        var _ := SendPage(conn, content);
    }
  }

  /** handle_connection(conn, data): read on from `data`, then answer; only an unpacking error escapes. */
  method HandleConnection(conn: Conn, data: string, fs: FileSystem) returns (raised: bool)
    requires conn.Valid()
    modifies conn
    ensures conn.Valid()
    ensures var reply := Respond(Received(data, old(conn.inbox)), fs);
      conn.outbox == old(conn.outbox) + Take(reply.payloads, old(conn.sendsLeft)) &&
      raised == reply.raises
    ensures conn.closes == old(conn.closes)
  {
    var request := ReadRequest(conn, data);
    if request == "" {
      return false;
    }
    var parts := Tokens(RequestLine(request));
    if |parts| < 3 {
      return false;
    }
    if |parts| > 3 {
      return true;
    }
    var verb, path := parts[0], parts[1];
    if verb != "GET" {
      var _ := conn.SendAll(BuildResponseHeader("403", Some(0)));
      return false;
    }
    var name := ResourceName(path);
    assert Respond(request, fs) == Serve(name, fs);
    ServeFile(conn, name, fs);
    raised := false;
  }

  /**
   * The reply to a client whose request so far is `data` and whose peer still sends
   * `inbox`: the read loop goes on until the blank line or the end of the stream, and
   * the handler then answers what it has.
   */
  function Answer(data: string, inbox: seq<string>, fs: FileSystem): Reply
    decreases |inbox|
  {
    if Contains(data, Blank) || inbox == [] then Respond(data, fs)
    else Answer(data + inbox[0], inbox[1..], fs)
  }

  /** Answering while reading is answering the text the read loop ends with. */
  lemma {:induction false} AnswerReceived(data: string, inbox: seq<string>, fs: FileSystem)
    ensures Answer(data, inbox, fs) == Respond(Received(data, inbox), fs)
    decreases |inbox|
  {
    if !(Contains(data, Blank) || inbox == []) {
      AnswerReceived(data + inbox[0], inbox[1..], fs);
      ReceivedStep(data, inbox);
    }
  }

  /**
   * The reply to a client whose peer sends `inbox`: nothing when the peer closed at once,
   * else the answer to the request that starts with the first piece.
   */
  function ClientReply(inbox: seq<string>, fs: FileSystem): Reply
  {
    if inbox == [] then Silent else Answer(inbox[0], inbox[1..], fs)
  }

  /** A client's reply is the handler's reply to the whole request its peer sends. */
  lemma ClientReplyResponds(inbox: seq<string>, fs: FileSystem)
    ensures ClientReply(inbox, fs) == Respond(Received("", inbox), fs)
  {
    AnswerReceived("", inbox, fs);
    if inbox != [] {
      assert "" + inbox[0] == inbox[0];
    }
  }

  /** `list.remove`: the sequence without the first occurrence of `c`. */
  function Without(conns: seq<Conn>, c: Conn): (r: seq<Conn>)
    ensures c !in conns ==> r == conns
    ensures multiset(r) == multiset(conns) - multiset{c}
  {
    if conns == [] then []
    else if conns[0] == c then (assert conns == [c] + conns[1..]; conns[1..])
    else (assert conns == [conns[0]] + conns[1..]; [conns[0]] + Without(conns[1..], c))
  }

  /** The index of the first occurrence of `c`. */
  function FirstIndex(conns: seq<Conn>, c: Conn): (i: nat)
    requires c in conns
    ensures i < |conns| && conns[i] == c && c !in conns[..i]
  {
    if conns[0] == c then 0
    else
      var k := FirstIndex(conns[1..], c);
      assert conns[..k + 1] == [conns[0]] + conns[1..][..k];
      k + 1
  }

  /**
   * `list.remove` keeps the order: the result is the list before the first occurrence of
   * `c` followed by the list after it.
   */
  lemma {:induction false} WithoutKeepsOrder(conns: seq<Conn>, c: Conn)
    requires c in conns
    ensures var i := FirstIndex(conns, c); Without(conns, c) == conns[..i] + conns[i + 1..]
  {
    if conns[0] != c {
      WithoutKeepsOrder(conns[1..], c);
      SpliceAfterHead(conns, FirstIndex(conns[1..], c));
    }
  }

  /** Cutting index `k` out of the tail and putting the head back cuts index `k + 1` out of the whole. */
  lemma SpliceAfterHead<T>(s: seq<T>, k: nat)
    requires k + 1 < |s|
    ensures [s[0]] + (s[1..][..k] + s[1..][k + 1..]) == s[..k + 1] + s[k + 2..]
  {
    assert s[..k + 1] == [s[0]] + s[1..][..k];
    assert s[k + 2..] == s[1..][k + 1..];
  }

  /** No connection is registered twice. */
  ghost predicate Distinct(conns: seq<Conn>) {
    forall i, j :: 0 <= i < j < |conns| ==> conns[i] != conns[j]
  }

  lemma DistinctTail(conns: seq<Conn>)
    requires conns != [] && Distinct(conns)
    ensures Distinct(conns[1..]) && conns[0] !in conns[1..]
  {
    forall k | 0 <= k < |conns[1..]| ensures conns[1..][k] != conns[0] {
      assert conns[1..][k] == conns[k + 1];
    }
  }

  lemma InWithout(conns: seq<Conn>, c: Conn, x: Conn)
    ensures x in Without(conns, c) ==> x in conns
    ensures x != c ==> (x in Without(conns, c) <==> x in conns)
  {
    assert x in Without(conns, c) <==> multiset(Without(conns, c))[x] > 0;
    assert x in conns <==> multiset(conns)[x] > 0;
  }

  /** Removing one connection from a registry without repeats leaves one without repeats, and without it. */
  lemma {:induction false} WithoutDistinct(conns: seq<Conn>, c: Conn)
    requires Distinct(conns)
    ensures Distinct(Without(conns, c)) && c !in Without(conns, c)
  {
    if conns != [] {
      DistinctTail(conns);
      if conns[0] != c {
        WithoutDistinct(conns[1..], c);
        var rest := Without(conns[1..], c);
        var r := [conns[0]] + rest;
        assert Without(conns, c) == r;
        if conns[0] in rest {
          InWithout(conns[1..], c, conns[0]);
        }
        forall i, j | 0 <= i < j < |r| ensures r[i] != r[j] {
          assert r[j] == rest[j - 1];
          if i > 0 {
            assert r[i] == rest[i - 1];
          }
        }
      }
    }
  }

  /** What select reports: the listening socket (with the connection accept then returns) or a client connection. */
  datatype Event = Accepted(conn: Conn) | Readable(conn: Conn)

  /** A socket in select's read list. */
  datatype Socket = Listening | Client(conn: Conn)

  /** The registry after one event: an accepted connection is appended, a served one removed. */
  function AfterEvent(conns: seq<Conn>, e: Event): seq<Conn>
  {
    match e
    case Accepted(c) => conns + [c]
    case Readable(c) => Without(conns, c)
  }

  /** The registry after a whole select cycle in which nothing crashed. */
  function AfterEvents(conns: seq<Conn>, events: seq<Event>): seq<Conn>
    decreases |events|
  {
    if events == [] then conns
    else AfterEvent(AfterEvents(conns, events[..|events| - 1]), events[|events| - 1])
  }

  /**
   * One select result against the registry it was computed from: each socket reported
   * once, clients that are registered, new connections that are not. The listening socket
   * is reported at most once per select, so the server accepts at most one connection per
   * cycle; allowing several Accepted events here only makes the cycle lemmas more general.
   */
  ghost predicate Fits(conns: seq<Conn>, events: seq<Event>) {
    (forall i, j :: 0 <= i < j < |events| ==> events[i].conn != events[j].conn) &&
    (forall i :: 0 <= i < |events| && events[i].Readable? ==> events[i].conn in conns) &&
    (forall i :: 0 <= i < |events| && events[i].Accepted? ==> events[i].conn !in conns)
  }

  /**
   * After a cycle a connection is registered exactly when it was registered or accepted
   * during the cycle, and was not served during it; the registry keeps no repeats.
   */
  lemma AfterEventsMembers(conns: seq<Conn>, events: seq<Event>)
    requires Distinct(conns) && Fits(conns, events)
    ensures Distinct(AfterEvents(conns, events))
    ensures forall x :: x in AfterEvents(conns, events) <==>
      (x in conns || Accepted(x) in events) && Readable(x) !in events
  {
    AfterEventsDistinct(conns, events);
    AfterEventsMembership(conns, events);
  }

  lemma {:induction false} AfterEventsDistinct(conns: seq<Conn>, events: seq<Event>)
    requires Distinct(conns) && Fits(conns, events)
    ensures Distinct(AfterEvents(conns, events))
    decreases |events|
  {
    if events == [] {
      return;
    }
    var init := events[..|events| - 1];
    var c := events[|events| - 1].conn;
    FitsInit(conns, events);
    AfterEventsDistinct(conns, init);
    var before := AfterEvents(conns, init);
    match events[|events| - 1] {
      case Accepted(_) =>
        AfterEventsMembership(conns, init);
        assert c !in before;
        AfterAccept(before, c);
      case Readable(_) =>
        AfterRemove(before, c);
    }
  }

  lemma {:induction false} AfterEventsMembership(conns: seq<Conn>, events: seq<Event>)
    requires Distinct(conns) && Fits(conns, events)
    ensures forall x :: x in AfterEvents(conns, events) <==>
      (x in conns || Accepted(x) in events) && Readable(x) !in events
    decreases |events|
  {
    if events == [] {
      return;
    }
    var init := events[..|events| - 1];
    var last := events[|events| - 1];
    FitsInit(conns, events);
    AfterEventsMembership(conns, init);
    AfterEventsDistinct(conns, init);
    assert events == init + [last];
    MembershipStep(conns, init, last, AfterEvents(conns, init), events);
  }

  /** One step of AfterEventsMembership: the last event applied to the registry its predecessors left. */
  lemma MembershipStep(conns: seq<Conn>, init: seq<Event>, last: Event, before: seq<Conn>, events: seq<Event>)
    requires events == init + [last] && Distinct(before)
    requires forall x :: x in before <==> (x in conns || Accepted(x) in init) && Readable(x) !in init
    requires Accepted(last.conn) !in init && Readable(last.conn) !in init
    requires last.Accepted? ==> last.conn !in conns
    ensures forall x :: x in AfterEvent(before, last) <==> (x in conns || Accepted(x) in events) && Readable(x) !in events
  {
    match last {
      case Accepted(c) =>
        assert c !in before;
        AfterAccept(before, c);
      case Readable(c) =>
        AfterRemove(before, c);
    }
    MembersStep(conns, init, last, before, AfterEvent(before, last), events);
  }

  /** The membership half of one step of AfterEventsMembers, with the registries abstracted. */
  lemma MembersStep(conns: seq<Conn>, init: seq<Event>, last: Event, before: seq<Conn>, after: seq<Conn>, events: seq<Event>)
    requires events == init + [last]
    requires forall x :: x in before <==> (x in conns || Accepted(x) in init) && Readable(x) !in init
    requires Accepted(last.conn) !in init && Readable(last.conn) !in init
    requires last.Accepted? ==> forall x :: x in after <==> x in before || x == last.conn
    requires last.Readable? ==> forall x :: x in after <==> x in before && x != last.conn
    ensures forall x :: x in after <==> (x in conns || Accepted(x) in events) && Readable(x) !in events
  {
    forall x ensures x in after <==> (x in conns || Accepted(x) in events) && Readable(x) !in events {
      assert Accepted(x) in events <==> Accepted(x) in init || Accepted(x) == last;
      assert Readable(x) in events <==> Readable(x) in init || Readable(x) == last;
    }
  }

  /** The events before the last one fit the registry too, and none of them names the last one's connection. */
  lemma FitsInit(conns: seq<Conn>, events: seq<Event>)
    requires events != [] && Fits(conns, events)
    ensures var init := events[..|events| - 1];
      var c := events[|events| - 1].conn;
      Fits(conns, init) && Accepted(c) !in init && Readable(c) !in init &&
      (events[|events| - 1].Accepted? ==> c !in conns)
  {
    var init := events[..|events| - 1];
    var c := events[|events| - 1].conn;
    forall k | 0 <= k < |init| ensures init[k] == events[k] && init[k].conn != c {
    }
  }

  /**
   * The n-th event of a fitting cycle applies to the registry reached before it: an accepted
   * connection is not yet registered, a readable one still is, and no later event names it.
   */
  lemma EventApplies(conns: seq<Conn>, events: seq<Event>, n: nat)
    requires Distinct(conns) && Fits(conns, events) && n < |events|
    ensures var now := AfterEvents(conns, events[..n]);
      var c := events[n].conn;
      Distinct(now) &&
      (events[n].Accepted? ==> c !in now) &&
      (events[n].Readable? ==> c in now) &&
      AfterEvents(conns, events[..n + 1]) == AfterEvent(now, events[n])
    ensures forall i :: 0 <= i < |events| && i != n ==> events[i].conn != events[n].conn
  {
    var prefix := events[..n + 1];
    assert prefix[..n] == events[..n];
    forall i, j | 0 <= i < j < |prefix| ensures prefix[i].conn != prefix[j].conn {
      assert prefix[i] == events[i] && prefix[j] == events[j];
    }
    FitsInit(conns, prefix);
    AfterEventsMembers(conns, events[..n]);
  }

  /** Appending a new connection keeps the registry free of repeats and adds exactly it. */
  lemma AfterAccept(before: seq<Conn>, c: Conn)
    requires Distinct(before) && c !in before
    ensures Distinct(before + [c])
    ensures forall x :: x in before + [c] <==> x in before || x == c
  {
    var after := before + [c];
    forall i, j | 0 <= i < j < |after| ensures after[i] != after[j] {
      assert after[i] == before[i];
      if j < |before| {
        assert after[j] == before[j];
      }
    }
  }

  /** Removing a connection keeps the registry free of repeats and drops exactly it. */
  lemma AfterRemove(before: seq<Conn>, c: Conn)
    requires Distinct(before)
    ensures Distinct(Without(before, c))
    ensures forall x :: x in Without(before, c) <==> x in before && x != c
  {
    WithoutDistinct(before, c);
    forall x | x != c ensures x in Without(before, c) <==> x in before {
      InWithout(before, c, x);
    }
  }

  /**
   * The server's state across select cycles: the client connections still open. The
   * listening socket is kept apart and is never one of them.
   */
  class Registry {
    var connections: seq<Conn>

    ghost predicate Valid()
      reads this
    {
      Distinct(connections)
    }

    constructor ()
      ensures Valid() && connections == []
    {
      connections := [];
    }

    /** The read list handed to select: the listening socket first, then every registered connection. */
    function PollSet(): (r: seq<Socket>)
      reads this
      ensures |r| == |connections| + 1 && r[0] == Listening
      ensures Listening !in r[1..]
      ensures forall i :: 0 <= i < |connections| ==> r[i + 1] == Client(connections[i])
    {
      [Listening] + seq(|connections|, i requires 0 <= i < |connections| reads this => Client(connections[i]))
    }

    /** A new connection from accept is appended. */
    method Accept(c: Conn)
      requires Valid() && c !in connections
      modifies this
      ensures Valid() && connections == old(connections) + [c]
    {
      connections := connections + [c];
      forall i, j | 0 <= i < j < |connections| ensures connections[i] != connections[j] {
        if j == |connections| - 1 {
          assert connections[i] == old(connections)[i];
        }
      }
    }

    /**
     * A readable client: read one byte; at end of stream close it and drop it; otherwise
     * handle the request starting from that byte, close it and drop it. An exception out of
     * the handler crashes the server before the close.
     */
    method ServeReadable(s: Conn, fs: FileSystem) returns (crashed: bool)
      requires Valid() && s in connections && s.Valid()
      modifies this, s
      ensures Valid()
      ensures crashed ==> connections == old(connections) && s.closes == old(s.closes)
      ensures !crashed ==> connections == Without(old(connections), s) && s.closes == old(s.closes) + 1
      ensures old(s.inbox) == [] ==> !crashed && s.outbox == old(s.outbox)
      ensures crashed <==> ClientReply(old(s.inbox), fs).raises
      ensures s.outbox == old(s.outbox) + Take(ClientReply(old(s.inbox), fs).payloads, old(s.sendsLeft))
    {
      ghost var inbox := s.inbox;
      var data := s.Recv(1);
      if data == "" {
        assert Received("", inbox) == "";
        ClientReplyResponds(inbox, fs);
        s.Close();
        WithoutDistinct(connections, s);
        connections := Without(connections, s);
        return false;
      }
      ReceivedAfterByte(inbox, data, s.inbox);
      ClientReplyResponds(inbox, fs);
      var raised := HandleConnection(s, data, fs);
      if raised {
        return true;
      }
      s.Close();
      WithoutDistinct(connections, s);
      connections := Without(connections, s);
      crashed := false;
    }

    /** One element of what select reported: accept a new connection, or serve a readable one. */
    method Dispatch(e: Event, fs: FileSystem) returns (crashed: bool)
      requires Valid() && e.conn.Valid()
      requires e.Accepted? ==> e.conn !in connections
      requires e.Readable? ==> e.conn in connections
      modifies this, e.conn
      ensures Valid()
      ensures !crashed ==> connections == AfterEvent(old(connections), e)
      ensures e.Accepted? ==> !crashed && e.conn.closes == old(e.conn.closes)
      ensures !crashed && e.Readable? ==> e.conn.closes == old(e.conn.closes) + 1
      ensures e.Readable? ==> (crashed <==> ClientReply(old(e.conn.inbox), fs).raises)
      ensures e.Readable? ==>
        e.conn.outbox == old(e.conn.outbox) + Take(ClientReply(old(e.conn.inbox), fs).payloads, old(e.conn.sendsLeft))
    {
      match e {
        case Accepted(c) =>
          Accept(c);
          crashed := false;
        case Readable(c) =>
          crashed := ServeReadable(c, fs);
      }
    }

    /** One pass of the `for s in readable` loop over what select reported. */
    method Cycle(events: seq<Event>, fs: FileSystem) returns (crashed: bool)
      requires Valid() && Fits(connections, events)
      requires forall i :: 0 <= i < |events| ==> events[i].conn.Valid()
      modifies this, set i | 0 <= i < |events| :: events[i].conn
      ensures Valid()
      ensures !crashed ==> connections == AfterEvents(old(connections), events)
      ensures !crashed ==> forall i :: 0 <= i < |events| && events[i].Readable? ==>
        events[i].conn.closes == old(events[i].conn.closes) + 1 && !ClientReply(old(events[i].conn.inbox), fs).raises &&
        events[i].conn.outbox == old(events[i].conn.outbox) + Take(ClientReply(old(events[i].conn.inbox), fs).payloads, old(events[i].conn.sendsLeft))
      ensures crashed ==> exists i :: 0 <= i < |events| && events[i].Readable? && ClientReply(old(events[i].conn.inbox), fs).raises
    {
      crashed := false;
      var n := 0;
      while n < |events|
        invariant n <= |events| && Valid()
        invariant connections == AfterEvents(old(connections), events[..n])
        invariant forall i :: 0 <= i < n && events[i].Readable? ==>
          events[i].conn.closes == old(events[i].conn.closes) + 1 && !ClientReply(old(events[i].conn.inbox), fs).raises &&
          events[i].conn.outbox == old(events[i].conn.outbox) + Take(ClientReply(old(events[i].conn.inbox), fs).payloads, old(events[i].conn.sendsLeft))
        invariant forall i :: n <= i < |events| ==> events[i].conn.Valid() && events[i].conn.closes == old(events[i].conn.closes)
        invariant forall i :: n <= i < |events| ==>
          events[i].conn.inbox == old(events[i].conn.inbox) && events[i].conn.outbox == old(events[i].conn.outbox) &&
          events[i].conn.sendsLeft == old(events[i].conn.sendsLeft)
      {
        EventApplies(old(connections), events, n);
        crashed := Dispatch(events[n], fs);
        if crashed {
          assert events[n].Readable? && ClientReply(old(events[n].conn.inbox), fs).raises;
          return;
        }
        forall i | 0 <= i < n && events[i].Readable?
          ensures events[i].conn.closes == old(events[i].conn.closes) + 1 && !ClientReply(old(events[i].conn.inbox), fs).raises
          ensures events[i].conn.outbox == old(events[i].conn.outbox) + Take(ClientReply(old(events[i].conn.inbox), fs).payloads, old(events[i].conn.sendsLeft))
        {
          assert events[i].conn != events[n].conn;
        }
        n := n + 1;
      }
      assert events[..n] == events;
    }
  }
}
