/**
 * The socket side of the three servers: a connection object, the loop that reads a
 * request until the blank line that ends its header, and the loop that sends a file
 * body in pieces of at most 4096 bytes. Bytes are characters here.
 */
module Framing {
  import opened Text

  /** The largest piece one `recv` asks for, and the size of every piece but the last of a chunked send. */
  const ChunkSize: nat := 4096

  /** The strings of `parts` written one after the other. */
  function Concat(parts: seq<string>): string
  {
    if parts == [] then "" else parts[0] + Concat(parts[1..])
  }

  lemma {:induction false} ConcatAppend(a: seq<string>, b: seq<string>)
    ensures Concat(a + b) == Concat(a) + Concat(b)
  {
    if a != [] {
      assert (a + b)[1..] == a[1..] + b;
      ConcatAppend(a[1..], b);
    } else {
      assert a + b == b;
    }
  }

  /** Adding one more piece to a prefix adds its text at the end. */
  lemma ConcatSnoc(parts: seq<string>, n: nat)
    requires n < |parts|
    ensures Concat(parts[..n + 1]) == Concat(parts[..n]) + parts[n]
  {
    assert parts[..n + 1] == parts[..n] + [parts[n]];
    ConcatAppend(parts[..n], [parts[n]]);
  }

  /** The first `n` elements of `s`, or all of it when it is shorter. */
  function Take<T>(s: seq<T>, n: nat): (r: seq<T>)
    ensures |r| == if n < |s| then n else |s|
    ensures forall i :: 0 <= i < |r| ==> r[i] == s[i]
  {
    if n < |s| then s[..n] else s
  }

  /** What a handler does to its connection: the payloads it passes to `sendall`, in order, and whether it then raises. */
  datatype Reply = Reply(payloads: seq<string>, raises: bool)

  /** No response at all, as for an empty or malformed request. */
  const Silent: Reply := Reply([], false)

  /**
   * A connected client socket. The peer's bytes arrive in the pieces listed in `inbox`
   * (each a single `recv(4096)` result), after which the peer has closed its side; every
   * `sendall` that succeeds delivers its payload to `outbox`; after `sendsLeft` more
   * successful sends the next one raises.
   */
  class Conn {
    var inbox: seq<string>
    var outbox: seq<string>
    var sendsLeft: nat
    var closes: nat

    /** Every piece still to arrive holds between 1 and 4096 bytes. */
    ghost predicate Valid()
      reads this
    {
      forall i :: 0 <= i < |inbox| ==> 0 < |inbox[i]| <= ChunkSize
    }

    constructor (arriving: seq<string>, budget: nat)
      requires forall i :: 0 <= i < |arriving| ==> 0 < |arriving[i]| <= ChunkSize
      ensures Valid()
      ensures inbox == arriving && outbox == [] && sendsLeft == budget && closes == 0
    {
      inbox := arriving;
      outbox := [];
      sendsLeft := budget;
      closes := 0;
    }

    /** recv(size): at most `size` bytes of the next piece, or "" once the peer has closed. */
    method Recv(size: nat) returns (chunk: string)
      requires Valid() && 0 < size <= ChunkSize
      modifies this
      ensures Valid()
      ensures old(inbox) == [] ==> chunk == "" && inbox == []
      ensures old(inbox) != [] ==> 0 < |chunk| <= size && chunk + Concat(inbox) == Concat(old(inbox))
      ensures old(inbox) != [] && |old(inbox)[0]| <= size ==> chunk == old(inbox)[0] && inbox == old(inbox)[1..]
      ensures old(inbox) != [] && |old(inbox)[0]| > size ==>
        chunk == old(inbox)[0][..size] && inbox == [old(inbox)[0][size..]] + old(inbox)[1..]
      ensures outbox == old(outbox) && sendsLeft == old(sendsLeft) && closes == old(closes)
    {
      if inbox == [] {
        chunk := "";
      } else {
        var first := inbox[0];
        if |first| <= size {
          chunk := first;
          inbox := inbox[1..];
          assert old(inbox) == [first] + inbox;
          ConcatAppend([first], inbox);
        } else {
          chunk := first[..size];
          inbox := [first[size..]] + inbox[1..];
          assert old(inbox) == [first] + old(inbox)[1..];
          ConcatAppend([first], old(inbox)[1..]);
          ConcatAppend([first[size..]], old(inbox)[1..]);
          assert first == chunk + first[size..];
        }
      }
    }

    /** sendall(payload): delivered while the budget lasts; otherwise it raises and nothing is delivered. */
    method SendAll(payload: string) returns (ok: bool)
      modifies this
      ensures ok <==> old(sendsLeft) > 0
      ensures outbox == old(outbox) + Take([payload], old(sendsLeft))
      ensures sendsLeft == if ok then old(sendsLeft) - 1 else 0
      ensures inbox == old(inbox) && closes == old(closes)
    {
      if sendsLeft == 0 {
        ok := false;
      } else {
        ok := true;
        outbox := outbox + [payload];
        sendsLeft := sendsLeft - 1;
      }
    }

    /** shutdown (whose failure is ignored) followed by close. */
    method Close()
      modifies this
      ensures closes == old(closes) + 1
      ensures inbox == old(inbox) && outbox == old(outbox) && sendsLeft == old(sendsLeft)
    {
      closes := closes + 1;
    }
  }

  /**
   * How many pieces the read loop takes from `inbox` when it starts from `data`: none
   * once the text holds a blank line or the peer has closed, else one more.
   */
  function Consumed(data: string, inbox: seq<string>): (n: nat)
    ensures n <= |inbox|
    decreases |inbox|
  {
    if Contains(data, Blank) || inbox == [] then 0
    else 1 + Consumed(data + inbox[0], inbox[1..])
  }

  /** The text the read loop ends with; nothing is read once the text holds a blank line or the peer has closed. */
  function Received(data: string, inbox: seq<string>): (r: string)
    ensures Contains(data, Blank) || inbox == [] ==> r == data
  {
    assert inbox[..0] == [];
    data + Concat(inbox[..Consumed(data, inbox)])
  }

  /**
   * The read loop stops at the first piece after which the text holds a blank line,
   * and only runs out of pieces when no prefix of them produces one.
   */
  lemma {:induction false} ConsumedIsFirst(data: string, inbox: seq<string>)
    ensures var n := Consumed(data, inbox);
      (n == |inbox| || Contains(data + Concat(inbox[..n]), Blank)) &&
      forall m :: 0 <= m < n ==> !Contains(data + Concat(inbox[..m]), Blank)
    decreases |inbox|
  {
    var n := Consumed(data, inbox);
    assert inbox[..0] == [];
    assert data + Concat(inbox[..0]) == data;
    if n > 0 {
      var rest := inbox[1..];
      ConsumedIsFirst(data + inbox[0], rest);
      forall m | 0 <= m <= n ensures data + Concat(inbox[..m]) == if m == 0 then data else data + inbox[0] + Concat(rest[..m - 1]) {
        if m > 0 {
          assert inbox[..m] == [inbox[0]] + rest[..m - 1];
          ConcatAppend([inbox[0]], rest[..m - 1]);
        }
      }
      assert n == |inbox| <==> n - 1 == |rest|;
    }
  }

  /** Before the blank line, reading one more piece and going on receives the same text. */
  lemma ReceivedStep(data: string, inbox: seq<string>)
    requires !Contains(data, Blank) && inbox != []
    ensures Received(data, inbox) == Received(data + inbox[0], inbox[1..])
  {
    var k := Consumed(data + inbox[0], inbox[1..]);
    assert inbox[..1 + k] == [inbox[0]] + inbox[1..][..k];
    ConcatAppend([inbox[0]], inbox[1..][..k]);
  }

  /** When no blank line ever appears, the loop reads everything the peer sends. */
  lemma {:induction false} ReceivedAll(data: string, inbox: seq<string>)
    requires forall m :: 0 <= m <= |inbox| ==> !Contains(data + Concat(inbox[..m]), Blank)
    ensures Received(data, inbox) == data + Concat(inbox)
  {
    ConsumedIsFirst(data, inbox);
    assert inbox[..|inbox|] == inbox;
  }

  /**
   * Taking the first byte with `recv(1)` and then running the read loop from that byte
   * receives the same text as running the loop from nothing: the byte starts the request.
   */
  lemma ReceivedAfterByte(inbox: seq<string>, byte: string, rest: seq<string>)
    requires inbox != [] && inbox[0] != ""
    requires |inbox[0]| == 1 ==> byte == inbox[0] && rest == inbox[1..]
    requires |inbox[0]| > 1 ==> byte == inbox[0][..1] && rest == [inbox[0][1..]] + inbox[1..]
    ensures Received(byte, rest) == Received("", inbox)
  {
    var first, tail := inbox[0], inbox[1..];
    var k := Consumed(first, tail);
    assert !Contains("", Blank) && "" + first == first;
    assert Consumed("", inbox) == 1 + k;
    assert inbox[..1 + k] == [first] + tail[..k];
    ConcatAppend([first], tail[..k]);
    assert Received("", inbox) == first + Concat(tail[..k]);
    if |first| > 1 {
      var rest := [first[1..]] + tail;
      assert rest[1..] == tail;
      assert first[..1] + first[1..] == first;
      assert !Contains(first[..1], Blank);
      assert Consumed(first[..1], rest) == 1 + k;
      assert rest[..1 + k] == [first[1..]] + tail[..k];
      ConcatAppend([first[1..]], tail[..k]);
    } else {
      assert first[..1] == first;
    }
  }

  /**
   * The read loop of handle_connection: receive up to 4096 bytes at a time, appending to
   * `start`, until the text holds a blank line or the peer closes.
   */
  method ReadRequest(conn: Conn, start: string) returns (data: string)
    requires conn.Valid()
    modifies conn
    ensures conn.Valid()
    ensures data == Received(start, old(conn.inbox))
    ensures conn.inbox == old(conn.inbox)[Consumed(start, old(conn.inbox))..]
    ensures conn.outbox == old(conn.outbox) && conn.sendsLeft == old(conn.sendsLeft) && conn.closes == old(conn.closes)
  {
    data := start;
    ghost var n := 0;
    while !Contains(data, Blank)
      invariant conn.Valid()
      invariant n <= |old(conn.inbox)| && conn.inbox == old(conn.inbox)[n..]
      invariant data == start + Concat(old(conn.inbox)[..n])
      invariant n + Consumed(data, conn.inbox) == Consumed(start, old(conn.inbox))
      invariant conn.outbox == old(conn.outbox) && conn.sendsLeft == old(conn.sendsLeft) && conn.closes == old(conn.closes)
      decreases |conn.inbox|
    {
      var chunk := conn.Recv(ChunkSize);
      if chunk == "" {
        break;
      }
      ConcatSnoc(old(conn.inbox), n);
      data := data + chunk;
      n := n + 1;
    }
  }

  /** The pieces the send loop cuts `content` into: 4096 bytes each, the last one possibly shorter. */
  function Chunks(content: string): (r: seq<string>)
    ensures r == [] <==> content == ""
    ensures forall i :: 0 <= i < |r| ==> 0 < |r[i]| <= ChunkSize
    decreases |content|
  {
    if content == "" then []
    else if |content| <= ChunkSize then [content]
    else [content[..ChunkSize]] + Chunks(content[ChunkSize..])
  }

  /** The pieces put back together give the content; each holds 1 to 4096 bytes, and all but the last exactly 4096. */
  lemma {:induction false} ChunksTile(content: string)
    ensures Concat(Chunks(content)) == content
    ensures forall i :: 0 <= i < |Chunks(content)| ==> 0 < |Chunks(content)[i]| <= ChunkSize
    ensures forall i :: 0 <= i < |Chunks(content)| - 1 ==> |Chunks(content)[i]| == ChunkSize
    ensures |Chunks(content)| == (|content| + ChunkSize - 1) / ChunkSize
    decreases |content|
  {
    if |content| > ChunkSize {
      var rest := content[ChunkSize..];
      ChunksTile(rest);
      ConcatAppend([content[..ChunkSize]], Chunks(rest));
      assert content == content[..ChunkSize] + rest;
    }
  }

  /** The piece the loop sends when `sent` bytes have gone out. */
  lemma ChunksFrom(content: string, sent: nat)
    requires sent < |content|
    ensures var end := if sent + ChunkSize <= |content| then sent + ChunkSize else |content|;
      Chunks(content[sent..]) == [content[sent..end]] + Chunks(content[end..])
  {
    var end := if sent + ChunkSize <= |content| then sent + ChunkSize else |content|;
    if |content[sent..]| > ChunkSize {
      assert content[sent..][..ChunkSize] == content[sent..end];
      assert content[sent..][ChunkSize..] == content[end..];
    } else {
      assert content[sent..] == content[sent..end];
      assert content[end..] == "";
    }
  }

  /**
   * The send loop: `content[sent:sent+4096]` goes out and `sent` grows by its length
   * until all of the content is sent. A send that raises ends the loop early.
   */
  method SendChunks(conn: Conn, content: string) returns (ok: bool)
    modifies conn
    ensures conn.outbox == old(conn.outbox) + Take(Chunks(content), old(conn.sendsLeft))
    ensures ok <==> |Chunks(content)| <= old(conn.sendsLeft)
    ensures conn.sendsLeft == old(conn.sendsLeft) - |Take(Chunks(content), old(conn.sendsLeft))|
    ensures conn.inbox == old(conn.inbox) && conn.closes == old(conn.closes)
  {
    var sent := 0;
    ghost var emitted: seq<string> := [];
    while sent < |content|
      invariant sent <= |content|
      invariant Chunks(content) == emitted + Chunks(content[sent..])
      invariant |emitted| <= old(conn.sendsLeft)
      invariant conn.outbox == old(conn.outbox) + emitted
      invariant conn.sendsLeft == old(conn.sendsLeft) - |emitted|
      invariant conn.inbox == old(conn.inbox) && conn.closes == old(conn.closes)
      decreases |content| - sent
    {
      var end := if sent + ChunkSize <= |content| then sent + ChunkSize else |content|;
      var chunk := content[sent..end];
      ChunksFrom(content, sent);
      ok := conn.SendAll(chunk);
      if !ok {
        assert Take(Chunks(content), old(conn.sendsLeft)) == emitted;
        return;
      }
      emitted := emitted + [chunk];
      sent := sent + |chunk|;
    }
    assert content[sent..] == "";
    ok := true;
  }

  /** A header followed by a chunked body, as the 200 branch sends it. */
  lemma TakeHeaderThenChunks(header: string, content: string, budget: nat)
    requires budget > 0
    ensures Take([header] + Chunks(content), budget) == [header] + Take(Chunks(content), budget - 1)
  {
  }

  /** The request line: the text before the first CRLF, or the whole request when it has none. */
  function RequestLine(data: string): (line: string)
    ensures !Contains(line, CRLF)
    ensures StartsWith(data, line)
    ensures line == data || (|line| + 2 <= |data| && data[|line|..|line| + 2] == CRLF)
  {
    var lines := Split(data, CRLF);
    assert Join(lines, CRLF) == data;
    JoinStartsWithHead(lines, CRLF);
    lines[0]
  }

  lemma JoinStartsWithHead(parts: seq<string>, sep: string)
    requires |parts| >= 1
    ensures StartsWith(Join(parts, sep), parts[0])
  {
  }
}
