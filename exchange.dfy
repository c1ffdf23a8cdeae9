/**
 * The client and the servers seen together: the request line a client writes is the one
 * a server reads, and the response a server writes parses back, with the client's own
 * parser, to the status, headers and body the server meant.
 */
module Exchange {
  import opened Wrappers
  import opened Text
  import opened Framing
  import opened HttpClient
  import opened FileServing
  import FileServer1
  import FileServer2
  import JsonServer

  /** A header line: not empty, and free of CR and LF. */
  predicate PlainLine(line: string) {
    line != "" && forall i :: 0 <= i < |line| ==> line[i] != '\r' && line[i] != '\n'
  }

  predicate PlainLines(lines: seq<string>) {
    forall i :: 0 <= i < |lines| ==> PlainLine(lines[i])
  }

  /** The tail of a list of plain lines is a list of plain lines. */
  lemma PlainTail(lines: seq<string>)
    requires |lines| >= 1 && PlainLines(lines)
    ensures PlainLine(lines[0]) && PlainLines(lines[1..])
  {
    forall i | 0 <= i < |lines[1..]| ensures PlainLine(lines[1..][i]) {
      assert lines[1..][i] == lines[i + 1];
    }
  }

  /** In lines joined by CRLF, every LF starts a new, non-empty line, and the text neither starts nor ends a line break. */
  lemma {:induction false} JoinedLineBreaks(lines: seq<string>)
    requires |lines| >= 1 && PlainLines(lines)
    ensures var text := Join(lines, CRLF);
      text != "" && text[0] == lines[0][0] && text[|text| - 1] != '\n' &&
      forall p :: 0 <= p < |text| && text[p] == '\n' ==> p + 1 < |text| && text[p + 1] != '\r'
  {
    var text := Join(lines, CRLF);
    var first := lines[0];
    PlainTail(lines);
    if |lines| > 1 {
      var rest := lines[1..];
      JoinedLineBreaks(rest);
      var tail := Join(rest, CRLF);
      assert text == first + CRLF + tail;
      forall p | 0 <= p < |text| ensures text[p] == '\n' ==> p + 1 < |text| && text[p + 1] != '\r' {
        if p < |first| {
          assert text[p] == first[p];
        } else if p == |first| {
          assert text[p] == '\r';
        } else if p == |first| + 1 {
          assert text[p + 1] == tail[0];
        } else {
          assert text[p] == tail[p - |first| - 2];
          if p + 1 < |text| {
            assert text[p + 1] == tail[p + 1 - |first| - 2];
          }
        }
      }
      assert text[|text| - 1] == tail[|tail| - 1];
    } else {
      assert text == first;
    }
  }

  /** The first blank line after a block of plain lines is the one that ends the block. */
  lemma FirstBlankEndsBlock(lines: seq<string>, body: string)
    requires |lines| >= 1 && PlainLines(lines)
    ensures var block := Join(lines, CRLF);
      Find(block + Blank + body, Blank) == Some(|block|)
  {
    var block := Join(lines, CRLF);
    var text := block + Blank + body;
    JoinedLineBreaks(lines);
    assert text[|block|..|block| + 4] == Blank;
    forall j | 0 <= j < |block| ensures !OccursAt(text, Blank, j) {
      var w := text[j..j + 4];
      assert w[1] == text[j + 1] && w[2] == text[j + 2];
      if j + 1 < |block| {
        assert text[j + 1] == block[j + 1];
        if block[j + 1] == '\n' {
          assert text[j + 2] == block[j + 2];
        }
      } else {
        assert text[j + 1] == '\r';
      }
    }
    FindIs(text, Blank, |block|);
  }

  /** A header block, the blank line that ends it and a body: the client frames it at that blank line. */
  lemma FrameOfBlock(lines: seq<string>, body: string)
    requires |lines| >= 1 && PlainLines(lines)
    ensures var block := Join(lines, CRLF);
      Frame(block + Blank + body) == (block, body)
  {
    var block := Join(lines, CRLF);
    var text := block + Blank + body;
    FirstBlankEndsBlock(lines, body);
    assert text[..|block|] == block;
    assert text[|block| + 4..] == body;
  }

  /** A plain line, CRLF and a rest split into the line and the pieces of the rest. */
  lemma SplitAfterLine(first: string, tail: string)
    requires PlainLine(first)
    ensures Split(first + CRLF + tail, CRLF) == [first] + Split(tail, CRLF)
  {
    var text := first + CRLF + tail;
    forall j | 0 <= j < |first| ensures !OccursAt(text, CRLF, j) {
      assert text[j..j + 2][0] == text[j] == first[j];
    }
    assert text[|first|..|first| + 2] == CRLF;
    FindIs(text, CRLF, |first|);
    assert text[..|first|] == first;
    assert text[|first| + 2..] == tail;
  }

  /** A plain line splits into itself. */
  lemma SplitLine(first: string)
    requires PlainLine(first)
    ensures Split(first, CRLF) == [first]
  {
    forall j | 0 <= j < |first| ensures !OccursAt(first, CRLF, j) {
      assert j + 2 <= |first| ==> first[j..j + 2][0] == first[j];
    }
    assert Find(first, CRLF).None?;
  }

  /** Lines joined by CRLF split back into the same lines. */
  lemma {:induction false} SplitJoinedLines(lines: seq<string>)
    requires |lines| >= 1 && PlainLines(lines)
    ensures Split(Join(lines, CRLF), CRLF) == lines
  {
    var first := lines[0];
    PlainTail(lines);
    if |lines| > 1 {
      var rest := lines[1..];
      SplitJoinedLines(rest);
      assert Join(lines, CRLF) == first + CRLF + Join(rest, CRLF);
      SplitAfterLine(first, Join(rest, CRLF));
      assert [first] + rest == lines;
    } else {
      assert Join(lines, CRLF) == first;
      SplitLine(first);
    }
  }

  /**
   * A response made of status line, header lines, blank line and body parses to the status
   * of its status line, the header map of its other lines, and exactly the body.
   */
  lemma ResponseOfBlock(lines: seq<string>, body: string)
    requires |lines| >= 1 && PlainLines(lines)
    requires StatusOf(lines[0]).Some?
    ensures ResponseOf(Join(lines, CRLF) + Blank + body) == Response(StatusOf(lines[0]), HeaderMap(lines[1..]), body)
  {
    var block := Join(lines, CRLF);
    var text := block + Blank + body;
    FrameOfBlock(lines, body);
    SplitJoinedLines(lines);
    assert text != "";
    var frame := Frame(text);
    assert frame == (block, body);
    assert Split(frame.0, CRLF) == lines;
  }

  /** Stripping a text with one space in front gives the text, when it has no spaces at its ends. */
  lemma StripSpaced(value: string)
    requires value != "" && !IsSpace(value[0]) && !IsSpace(value[|value| - 1])
    ensures Strip(" " + value) == value
  {
    StripTrims(value);
    assert (" " + value)[1..] == value;
    assert TrimStart(" " + value) == TrimStart(value);
  }

  /** A header line `key: value` parses to the lower-cased key and the value, when neither has spaces at its ends. */
  lemma HeaderFieldOf(key: string, value: string)
    requires key != "" && NoChar(key, ':') && !IsSpace(key[0]) && !IsSpace(key[|key| - 1])
    requires value != "" && !IsSpace(value[0]) && !IsSpace(value[|value| - 1])
    ensures HeaderField(key + ": " + value) == Some((Lower(key), value))
  {
    var line := key + ": " + value;
    assert Find(line, ":") == Some(|key|) by {
      assert line == key + (": " + value);
      FindFirstChar(key, ": " + value, ':');
    }
    assert line[..|key|] == key;
    assert line[|key| + 1..] == " " + value;
    assert Strip(key) == key by {
      StripTrims(key);
    }
    assert Strip(" " + value) == value by {
      StripSpaced(value);
    }
  }

  /** Reading one more line adds its field to the header map. */
  lemma HeaderMapSnoc(lines: seq<string>, line: string)
    ensures HeaderMap(lines + [line]) == AddField(HeaderMap(lines), line)
  {
    assert (lines + [line])[..|lines|] == lines;
  }

  /** A word of printable ASCII characters other than the space has no whitespace in it. */
  lemma PrintableWord(w: string)
    requires forall i :: 0 <= i < |w| ==> '!' <= w[i] <= '~'
    ensures NoSpace(w)
  {
  }

  /** Leading whitespace does not change the words of a text. */
  lemma TokensAfterSpace(x: string)
    ensures Tokens(" " + x) == Tokens(x)
  {
    assert (" " + x)[1..] == x;
  }

  lemma VersionWord()
    ensures "HTTP/1.0" != "" && NoSpace("HTTP/1.0")
  {
    PrintableWord("HTTP/1.0");
  }

  /** The first two words of a status line are the version and the code. */
  lemma StatusTokens(version: string, digits: string, reason: string)
    requires version != "" && NoSpace(version)
    requires digits != "" && NoSpace(digits)
    ensures Tokens(version + " " + digits + " " + reason) == [version, digits] + Tokens(" " + reason)
  {
    var afterCode := " " + reason;
    var afterVersion := " " + (digits + afterCode);
    assert version + " " + digits + " " + reason == version + afterVersion;
    TokensOfWordThen(version, afterVersion);
    TokensAfterSpace(digits + afterCode);
    TokensOfWordThen(digits, afterCode);
  }

  /** A status line `HTTP/1.0 <code> <reason>` gives the code as the status, whatever the reason phrase. */
  lemma StatusOfLine(code: nat, reason: string)
    ensures StatusOf("HTTP/1.0" + " " + NatToString(code) + " " + reason) == Some(code)
  {
    NatToStringPlain(code);
    VersionWord();
    StatusTokens("HTTP/1.0", NatToString(code), reason);
    ParseNatToString(code);
  }

  /** No carriage return or line feed in the text. */
  predicate NoBreak(s: string) {
    forall i :: 0 <= i < |s| ==> s[i] != '\r' && s[i] != '\n'
  }

  lemma NoBreakAppend(a: string, b: string)
    requires NoBreak(a) && NoBreak(b)
    ensures NoBreak(a + b)
  {
    forall i | 0 <= i < |a + b| ensures (a + b)[i] != '\r' && (a + b)[i] != '\n' {
      if i >= |a| {
        assert (a + b)[i] == b[i - |a|];
      }
    }
  }

  /** A header line of key, colon, space and value is plain when key and value have no line breaks. */
  lemma FieldPlain(key: string, value: string)
    requires NoBreak(key) && NoBreak(value)
    ensures PlainLine(key + ": " + value)
  {
    NoBreakAppend(key, ": ");
    NoBreakAppend(key + ": ", value);
  }

  /** A status line is plain when its code and reason have no line breaks. */
  lemma StatusPlain(digits: string, reason: string)
    requires NoBreak(digits) && NoBreak(reason)
    ensures PlainLine("HTTP/1.0" + " " + digits + " " + reason)
  {
    NoBreakAppend("HTTP/1.0", " ");
    NoBreakAppend("HTTP/1.0" + " ", digits);
    NoBreakAppend("HTTP/1.0" + " " + digits, " ");
    NoBreakAppend("HTTP/1.0" + " " + digits + " ", reason);
  }

  /** The decimal form of a number is free of whitespace, hence of line breaks. */
  lemma DigitsNoBreak(n: nat)
    ensures NoBreak(NatToString(n))
  {
    NatToStringPlain(n);
  }

  /** A status line as the servers write it, without its line break. */
  function StatusText(code: nat, reason: string): string {
    "HTTP/1.0" + " " + NatToString(code) + " " + reason
  }

  /** A header line as the servers write it, without its line break. */
  function FieldText(key: string, value: string): string {
    key + ": " + value
  }

  /** The lines of an HTTP/1.0 response header as the three servers write them, without line breaks. */
  function HeaderLines(code: nat, reason: string, contentType: string, contentLength: Option<nat>): seq<string>
  {
    [StatusText(code, reason), FieldText("Content-Type", contentType)]
    + (if contentLength.Some? then [FieldText("Content-Length", NatToString(contentLength.value))] else [])
    + [FieldText("Connection", "Keep-Alive")]
  }

  /** The header map the client builds from those lines. */
  function HeaderMapOf(contentType: string, contentLength: Option<nat>): map<string, string>
  {
    var typed := map["content-type" := contentType];
    var sized := if contentLength.Some? then typed["content-length" := NatToString(contentLength.value)] else typed;
    sized["connection" := "Keep-Alive"]
  }

  lemma TypeKey()
    ensures Lower("Content-Type") == "content-type"
  {
    LowerCapital('C', "ontent-");
    LowerCapital('T', "ype");
    LowerAppend("Content-", "Type");
  }

  lemma LengthKey()
    ensures Lower("Content-Length") == "content-length"
  {
    LowerCapital('C', "ontent-");
    LowerCapital('L', "ength");
    LowerAppend("Content-", "Length");
  }

  lemma ConnectionKey()
    ensures Lower("Connection") == "connection"
  {
    LowerCapital('C', "onnection");
  }

  /** Lower-casing works piece by piece. */
  lemma LowerAppend(a: string, b: string)
    ensures Lower(a + b) == Lower(a) + Lower(b)
  {
  }

  /** Lower-casing a capitalised word lowers its first letter only. */
  lemma LowerCapital(c: char, rest: string)
    requires IsUpper(c) && NoUpper(rest)
    ensures Lower([c] + rest) == [LowerChar(c)] + rest
  {
    LowerAppend([c], rest);
  }

  /** A header key as the servers write it: no colon, no line break, no whitespace at its ends. */
  predicate GoodKey(key: string) {
    key != "" && NoChar(key, ':') && NoBreak(key) && !IsSpace(key[0]) && !IsSpace(key[|key| - 1])
  }

  /** A header value as the servers write it: no line break, no whitespace at its ends. */
  predicate GoodValue(value: string) {
    value != "" && NoBreak(value) && !IsSpace(value[0]) && !IsSpace(value[|value| - 1])
  }

  lemma TypeKeyGood()
    ensures GoodKey("Content-Type")
  {
  }

  lemma LengthKeyGood()
    ensures GoodKey("Content-Length")
  {
  }

  lemma ConnectionKeyGood()
    ensures GoodKey("Connection") && GoodValue("Keep-Alive")
  {
  }

  /** The decimal form of a number is a good header value. */
  lemma DigitsGood(n: nat)
    ensures GoodValue(NatToString(n))
  {
    NatToStringPlain(n);
  }

  /** A well-formed header line is plain and parses to its lower-cased key and its value. */
  lemma GoodField(key: string, value: string)
    requires GoodKey(key) && GoodValue(value)
    ensures PlainLine(FieldText(key, value))
    ensures HeaderField(FieldText(key, value)) == Some((Lower(key), value))
  {
    FieldPlain(key, value);
    HeaderFieldOf(key, value);
  }

  /** Lists of three or four plain lines are plain. */
  lemma PlainFour(a: string, b: string, c: seq<string>, d: string)
    requires PlainLine(a) && PlainLine(b) && PlainLine(d) && PlainLines(c)
    ensures PlainLines([a, b] + c + [d])
  {
    var lines := [a, b] + c + [d];
    forall i | 0 <= i < |lines| ensures PlainLine(lines[i]) {
      if 2 <= i < 2 + |c| {
        assert lines[i] == c[i - 2];
      }
    }
  }

  /** The header lines are plain. */
  lemma HeaderLinesPlain(code: nat, reason: string, contentType: string, contentLength: Option<nat>)
    requires NoBreak(reason) && GoodValue(contentType)
    ensures PlainLines(HeaderLines(code, reason, contentType, contentLength))
  {
    var sized := if contentLength.Some? then [FieldText("Content-Length", NatToString(contentLength.value))] else [];
    assert PlainLine(StatusText(code, reason)) by {
      DigitsNoBreak(code);
      StatusPlain(NatToString(code), reason);
    }
    assert PlainLine(FieldText("Content-Type", contentType)) by {
      TypeKeyGood();
      GoodField("Content-Type", contentType);
    }
    assert PlainLine(FieldText("Connection", "Keep-Alive")) by {
      ConnectionKeyGood();
      GoodField("Connection", "Keep-Alive");
    }
    assert PlainLines(sized) by {
      if contentLength.Some? {
        LengthKeyGood();
        DigitsGood(contentLength.value);
        GoodField("Content-Length", NatToString(contentLength.value));
      }
    }
    PlainFour(StatusText(code, reason), FieldText("Content-Type", contentType), sized, FieldText("Connection", "Keep-Alive"));
  }

  lemma DropFirst(a: string, b: string, c: seq<string>, d: string)
    ensures ([a, b] + c + [d])[1..] == [b] + c + [d]
  {
  }

  /** The client's header map of the header lines after the status line. */
  lemma HeaderLinesMap(code: nat, reason: string, contentType: string, contentLength: Option<nat>)
    requires GoodValue(contentType)
    ensures HeaderMap(HeaderLines(code, reason, contentType, contentLength)[1..]) == HeaderMapOf(contentType, contentLength)
  {
    var typeLine := FieldText("Content-Type", contentType);
    var connLine := FieldText("Connection", "Keep-Alive");
    var sized := if contentLength.Some? then [FieldText("Content-Length", NatToString(contentLength.value))] else [];
    DropFirst(StatusText(code, reason), typeLine, sized, connLine);
    assert HeaderField(typeLine) == Some(("content-type", contentType)) by {
      TypeKeyGood();
      TypeKey();
      GoodField("Content-Type", contentType);
    }
    assert HeaderField(connLine) == Some(("connection", "Keep-Alive")) by {
      ConnectionKeyGood();
      ConnectionKey();
      GoodField("Connection", "Keep-Alive");
    }
    HeaderMapSnoc([], typeLine);
    assert [] + [typeLine] == [typeLine];
    HeaderMapSnoc([typeLine] + sized, connLine);
    if contentLength.Some? {
      var digits := NatToString(contentLength.value);
      assert HeaderField(sized[0]) == Some(("content-length", digits)) by {
        LengthKeyGood();
        LengthKey();
        DigitsGood(contentLength.value);
        GoodField("Content-Length", digits);
      }
      HeaderMapSnoc([typeLine], sized[0]);
    } else {
      assert [typeLine] + sized == [typeLine];
    }
  }

  /** The content types the servers declare. */
  lemma TypesGood()
    ensures GoodValue(HtmlType) && GoodValue(JsonServer.JsonType)
  {
  }

  /** The decimal form of a three-digit number. */
  lemma ThreeDigits(n: nat)
    requires 100 <= n < 1000
    ensures NatToString(n) == [DigitChar(n / 100), DigitChar(n / 10 % 10), DigitChar(n % 10)]
  {
    var m := n / 10;
    assert m / 10 == n / 100 && m >= 10 && n / 100 < 10;
    assert NatToString(m) == NatToString(m / 10) + [DigitChar(m % 10)];
    assert NatToString(n) == NatToString(m) + [DigitChar(n % 10)];
  }

  lemma Status200()
    ensures HtmlStatusLines["200"] == StatusText(200, "OK") + CRLF
    ensures JsonServer.JsonStatusLines["200"] == StatusText(200, "OK") + CRLF
  {
    assert HtmlStatusLines["200"] == StatusText(200, "OK") + CRLF by {
      assert NatToString(200) == "200" by {
        ThreeDigits(200);
      }
    }
    assert JsonServer.JsonStatusLines["200"] == HtmlStatusLines["200"];
  }

  lemma Status400()
    ensures JsonServer.JsonStatusLines["400"] == StatusText(400, "Bad Request") + CRLF
  {
    assert NatToString(400) == "400" by {
      ThreeDigits(400);
    }
  }

  lemma Status403()
    ensures HtmlStatusLines["403"] == StatusText(403, "Forbidden") + CRLF
  {
    assert NatToString(403) == "403" by {
      ThreeDigits(403);
    }
  }

  lemma Status404()
    ensures HtmlStatusLines["404"] == StatusText(404, "Not Found") + CRLF
    ensures JsonServer.JsonStatusLines["404"] == StatusText(404, "Not Found") + CRLF
  {
    assert HtmlStatusLines["404"] == StatusText(404, "Not Found") + CRLF by {
      assert NatToString(404) == "404" by {
        ThreeDigits(404);
      }
    }
    assert JsonServer.JsonStatusLines["404"] == HtmlStatusLines["404"];
  }

  lemma HtmlTypeLine()
    ensures "Content-Type: " + HtmlType + "\r\n" == FieldText("Content-Type", HtmlType) + CRLF
  {
  }

  lemma JsonTypeLine()
    ensures "Content-Type: " + JsonServer.JsonType + "\r\n" == FieldText("Content-Type", JsonServer.JsonType) + CRLF
  {
  }

  lemma LengthLine(digits: string)
    ensures "Content-Length: " + digits + "\r\n" == FieldText("Content-Length", digits) + CRLF
  {
  }

  lemma ConnectionLine()
    ensures "Connection: Keep-Alive\r\n" == FieldText("Connection", "Keep-Alive") + CRLF
  {
  }

  lemma BlankLine()
    ensures "\r\n" == CRLF && Blank == CRLF + CRLF
  {
  }

  lemma JoinThree(a: string, b: string, d: string, sep: string)
    ensures Join([a, b, d], sep) == a + sep + (b + sep + d)
  {
    assert [b, d][1..] == [d];
    assert Join([b, d], sep) == b + sep + d;
    assert [a, b, d][1..] == [b, d];
  }

  lemma JoinFour(a: string, b: string, x: string, d: string, sep: string)
    ensures Join([a, b, x, d], sep) == a + sep + (b + sep + (x + sep + d))
  {
    assert [a, b, x, d][1..] == [b, x, d];
    JoinThree(b, x, d, sep);
  }

  /** Three header lines written one by one, each with its line break, then an empty line. */
  lemma JoinedThree(a: string, b: string, d: string, sep: string)
    ensures (a + sep) + (b + sep) + (d + sep) + sep == Join([a, b, d], sep) + (sep + sep)
  {
    JoinThree(a, b, d, sep);
  }

  /** Four header lines written one by one, each with its line break, then an empty line. */
  lemma JoinedFour(a: string, b: string, x: string, d: string, sep: string)
    ensures (a + sep) + (b + sep) + (x + sep) + (d + sep) + sep == Join([a, b, x, d], sep) + (sep + sep)
  {
    JoinFour(a, b, x, d, sep);
  }

  /** build_response_header writes the header lines of `HeaderLines`, then the blank line. */
  lemma HtmlHeaderText(code: string, n: nat, reason: string, contentLength: Option<nat>)
    requires code in HtmlStatusLines && HtmlStatusLines[code] == StatusText(n, reason) + CRLF
    ensures BuildResponseHeader(code, contentLength) == Join(HeaderLines(n, reason, HtmlType, contentLength), CRLF) + Blank
  {
    var status := StatusText(n, reason);
    var kind := FieldText("Content-Type", HtmlType);
    var keep := FieldText("Connection", "Keep-Alive");
    HtmlTypeLine();
    ConnectionLine();
    BlankLine();
    if contentLength.Some? {
      var size := FieldText("Content-Length", NatToString(contentLength.value));
      LengthLine(NatToString(contentLength.value));
      assert BuildResponseHeader(code, contentLength) == (status + CRLF) + (kind + CRLF) + (size + CRLF) + (keep + CRLF) + CRLF;
      assert HeaderLines(n, reason, HtmlType, contentLength) == [status, kind, size, keep];
      JoinedFour(status, kind, size, keep, CRLF);
    } else {
      assert BuildResponseHeader(code, contentLength) == (status + CRLF) + (kind + CRLF) + "" + (keep + CRLF) + CRLF;
      assert (status + CRLF) + (kind + CRLF) + "" == (status + CRLF) + (kind + CRLF);
      assert HeaderLines(n, reason, HtmlType, contentLength) == [status, kind, keep];
      JoinedThree(status, kind, keep, CRLF);
    }
  }

  /** build_response writes the header lines of `HeaderLines` with the body's length, then the blank line. */
  lemma JsonHeaderText(code: string, n: nat, reason: string, body: string)
    requires code in JsonServer.JsonStatusLines && JsonServer.JsonStatusLines[code] == StatusText(n, reason) + CRLF
    ensures JsonServer.BuildResponse(code, body) == Join(HeaderLines(n, reason, JsonServer.JsonType, Some(|body|)), CRLF) + Blank + body
  {
    var status := StatusText(n, reason);
    var kind := FieldText("Content-Type", JsonServer.JsonType);
    var size := FieldText("Content-Length", NatToString(|body|));
    var keep := FieldText("Connection", "Keep-Alive");
    JsonTypeLine();
    LengthLine(NatToString(|body|));
    ConnectionLine();
    BlankLine();
    assert JsonServer.BuildResponse(code, body) == (status + CRLF) + (kind + CRLF) + (size + CRLF) + (keep + CRLF) + CRLF + body;
    assert HeaderLines(n, reason, JsonServer.JsonType, Some(|body|)) == [status, kind, size, keep];
    JoinedFour(status, kind, size, keep, CRLF);
  }

  /** What the client parses from a response made of `HeaderLines` and a body. */
  lemma HeaderLinesResponse(n: nat, reason: string, contentType: string, contentLength: Option<nat>, body: string)
    requires NoBreak(reason) && GoodValue(contentType)
    ensures ResponseOf(Join(HeaderLines(n, reason, contentType, contentLength), CRLF) + Blank + body)
      == Response(Some(n), HeaderMapOf(contentType, contentLength), body)
  {
    var lines := HeaderLines(n, reason, contentType, contentLength);
    HeaderLinesPlain(n, reason, contentType, contentLength);
    HeaderLinesMap(n, reason, contentType, contentLength);
    StatusOfLine(n, reason);
    ResponseOfBlock(lines, body);
  }

  /**
   * An HTML response of a file server parses, with the client's parser, to the code of its
   * status line, the content type, the Content-Length when one was written, and exactly the body.
   */
  lemma HtmlResponseParses(code: string, n: nat, reason: string, contentLength: Option<nat>, body: string)
    requires code in HtmlStatusLines && HtmlStatusLines[code] == StatusText(n, reason) + CRLF
    requires NoBreak(reason)
    ensures ResponseOf(BuildResponseHeader(code, contentLength) + body) == Response(Some(n), HeaderMapOf(HtmlType, contentLength), body)
  {
    HtmlHeaderText(code, n, reason, contentLength);
    TypesGood();
    HeaderLinesResponse(n, reason, HtmlType, contentLength, body);
  }

  /**
   * A response of the JSON server parses, with the client's parser, to the code of its
   * status line, the JSON content type, a Content-Length equal to the body's length, and
   * exactly the body.
   */
  lemma JsonResponseParses(code: string, n: nat, reason: string, body: string)
    requires code in JsonServer.JsonStatusLines && JsonServer.JsonStatusLines[code] == StatusText(n, reason) + CRLF
    requires NoBreak(reason)
    ensures ResponseOf(JsonServer.BuildResponse(code, body)) == Response(Some(n), HeaderMapOf(JsonServer.JsonType, Some(|body|)), body)
  {
    JsonHeaderText(code, n, reason, body);
    TypesGood();
    HeaderLinesResponse(n, reason, JsonServer.JsonType, Some(|body|), body);
  }

  lemma ReasonsPlain()
    ensures NoBreak("OK") && NoBreak("Bad Request") && NoBreak("Forbidden") && NoBreak("Not Found")
  {
  }

  /** The header the client reads for a key the server wrote. */
  lemma HeaderMapOfLookup(contentType: string, contentLength: Option<nat>)
    ensures HeaderOr(HeaderMapOf(contentType, contentLength), "content-type", "") == contentType
    ensures HeaderOr(HeaderMapOf(contentType, contentLength), "location", "") == ""
  {
    assert "content-type" != "connection" && "content-type" != "content-length";
    assert "location" != "connection" && "location" != "content-length" && "location" != "content-type";
  }

  /** A single send is received as its own text. */
  lemma ConcatOne(text: string)
    ensures Concat([text]) == text
  {
    assert [text][1..] == [];
  }

  lemma TypePrefixes()
    ensures StartsWith(HtmlType, "text/html") && !StartsWith(JsonServer.JsonType, "text/html")
  {
    assert JsonServer.JsonType[0] == 'a';
  }

  /** Header and chunks received together are the header followed by the content. */
  lemma PageText(header: string, content: string)
    ensures Concat([header] + Chunks(content)) == header + content
  {
    ConcatAppend([header], Chunks(content));
    ConcatOne(header);
    ChunksTile(content);
  }

  /** A header that parses, with the content after it, to a 200 HTML response: sent with the content's chunks, the client shows the content. */
  lemma PageShown(header: string, content: string, n: Option<nat>)
    requires ResponseOf(header + content) == Response(Some(200), HeaderMapOf(HtmlType, n), content)
    ensures React(Receive(Some(Concat([header] + Chunks(content))))) == Stop(Page(content))
  {
    PageText(header, content);
    ReactHtml(content, n);
  }

  /** The 200 header of a file server followed by the content parses to status 200, the HTML headers and the content. */
  lemma PageResponse(content: string)
    ensures ResponseOf(BuildResponseHeader("200", Some(|content|)) + content)
      == Response(Some(200), HeaderMapOf(HtmlType, Some(|content|)), content)
  {
    Status200();
    ReasonsPlain();
    HtmlResponseParses("200", 200, "OK", Some(|content|), content);
  }

  /** A 200 response with the file servers' headers is shown as its body. */
  lemma ReactHtml(body: string, n: Option<nat>)
    ensures React(Some(Response(Some(200), HeaderMapOf(HtmlType, n), body))) == Stop(Page(body))
  {
    HeaderMapOfLookup(HtmlType, n);
    TypePrefixes();
  }

  /** A file server's error page is shown by the client as an error page with the same code and body. */
  lemma ClientShowsErrorPage(code: string, n: nat, reason: string, body: string)
    requires code in HtmlStatusLines && HtmlStatusLines[code] == StatusText(n, reason) + CRLF
    requires NoBreak(reason) && n >= 400
    ensures React(Receive(Some(Concat([FileServing.ErrorPage(code, body)])))) == Stop(HttpClient.ErrorPage(n, body))
  {
    ConcatOne(FileServing.ErrorPage(code, body));
    HtmlResponseParses(code, n, reason, Some(|body|), body);
  }

  /** The bare 403 header a file server sends for a method other than GET is an error page with an empty body. */
  lemma ClientShowsForbiddenMethod()
    ensures React(Receive(Some(Concat([BuildResponseHeader("403", Some(0))])))) == Stop(HttpClient.ErrorPage(403, ""))
  {
    var header := BuildResponseHeader("403", Some(0));
    ConcatOne(header);
    assert header + "" == header;
    Status403();
    ReasonsPlain();
    HtmlResponseParses("403", 403, "Forbidden", Some(0), "");
  }

  /** What a user of the client sees for a GET of file `name` from the single-connection server. */
  function Shown1(name: string, fs: FileSystem): HttpClient.Outcome
    requires !(IsFile(fs, name) && HasHtmlExtension(name) && fs[name].content.None?)
  {
    if !IsFile(fs, name) then HttpClient.ErrorPage(404, NotFoundBody)
    else if !HasHtmlExtension(name) then HttpClient.ErrorPage(403, ForbiddenBody)
    else Page(fs[name].content.value)
  }

  /**
   * Whenever the single-connection server answers a GET of `name` in full, the client shows
   * the file's content for a readable HTML file, and the 404 or 403 page otherwise.
   */
  lemma Server1Shown(name: string, fs: FileSystem)
    requires !FileServer1.Serve(name, fs).raises
    ensures React(Receive(Some(Concat(FileServer1.Serve(name, fs).payloads)))) == Stop(Shown1(name, fs))
  {
    Status403();
    Status404();
    ReasonsPlain();
    if !IsFile(fs, name) {
      ClientShowsErrorPage("404", 404, "Not Found", NotFoundBody);
    } else if !HasHtmlExtension(name) {
      ClientShowsErrorPage("403", 403, "Forbidden", ForbiddenBody);
    } else {
      var content := fs[name].content.value;
      PageResponse(content);
      PageShown(BuildResponseHeader("200", Some(|content|)), content, Some(|content|));
    }
  }

  /** What a user of the client sees for a GET of file `name` from the select-based server. */
  function Shown2(name: string, fs: FileSystem): HttpClient.Outcome
  {
    if !IsFile(fs, name) then HttpClient.ErrorPage(404, NotFoundBody)
    else if !HasHtmlExtension(name) then HttpClient.ErrorPage(403, ForbiddenBody)
    else match fs[name].content
      case None => HttpClient.ErrorPage(404, NotFoundBody)
      case Some(content) => Page(content)
  }

  /** The select-based server's answer to a GET of `name`, received in full, is shown as the page, a 404 or a 403. */
  lemma Server2Shown(name: string, fs: FileSystem)
    ensures React(Receive(Some(Concat(FileServer2.Serve(name, fs).payloads)))) == Stop(Shown2(name, fs))
  {
    Status403();
    Status404();
    ReasonsPlain();
    if !IsFile(fs, name) || (HasHtmlExtension(name) && fs[name].content.None?) {
      ClientShowsErrorPage("404", 404, "Not Found", NotFoundBody);
    } else if !HasHtmlExtension(name) {
      ClientShowsErrorPage("403", 403, "Forbidden", ForbiddenBody);
    } else {
      var content := fs[name].content.value;
      PageResponse(content);
      PageShown(BuildResponseHeader("200", Some(|content|)), content, Some(|content|));
    }
  }

  /** The JSON server's successful answer is refused by the client, which only shows HTML. */
  lemma ClientRefusesJson(body: string)
    ensures React(Receive(Some(JsonServer.BuildResponse("200", body)))) == Stop(Fatal(WrongContentType(JsonServer.JsonType)))
  {
    Status200();
    ReasonsPlain();
    JsonResponseParses("200", 200, "OK", body);
    HeaderMapOfLookup(JsonServer.JsonType, Some(|body|));
    TypePrefixes();
  }

  /** The JSON server's 404 answer is shown by the client as an error page with the JSON body. */
  lemma ClientShowsJsonNotFound()
    ensures React(Receive(Some(JsonServer.BuildResponse("404", JsonServer.NotFoundJson)))) == Stop(HttpClient.ErrorPage(404, JsonServer.NotFoundJson))
  {
    Status404();
    ReasonsPlain();
    JsonResponseParses("404", 404, "Not Found", JsonServer.NotFoundJson);
  }

  /** The JSON server's 400 answer is shown by the client as an error page with the JSON body. */
  lemma ClientShowsJsonBadRequest()
    ensures React(Receive(Some(JsonServer.BuildResponse("400", JsonServer.BadRequestJson)))) == Stop(HttpClient.ErrorPage(400, JsonServer.BadRequestJson))
  {
    Status400();
    ReasonsPlain();
    JsonResponseParses("400", 400, "Bad Request", JsonServer.BadRequestJson);
  }

  /** The text before the first CRLF is the whole first line when that line has no carriage return. */
  lemma FirstLine(line: string, rest: string)
    requires NoChar(line, '\r')
    ensures RequestLine(line + CRLF + rest) == line
  {
    var data := line + CRLF + rest;
    forall j | 0 <= j < |line| ensures !OccursAt(data, CRLF, j) {
      assert data[j..j + 2][0] == data[j] == line[j];
    }
    assert data[|line|..|line| + 2] == CRLF;
    FindIs(data, CRLF, |line|);
    assert data[..|line|] == line;
  }

  /** The request the client writes: its request line, CRLF, then the rest of the header. */
  lemma RequestText(t: Target)
    ensures BuildRequest(t) == "GET " + t.path + " HTTP/1.0" + CRLF + ("Host: " + t.host + "\r\nConnection: close\r\n\r\n")
  {
  }

  lemma RequestWords()
    ensures "GET" != "" && NoSpace("GET") && "HTTP/1.0" != "" && NoSpace("HTTP/1.0")
    ensures Tokens("") == []
  {
    PrintableWord("GET");
    PrintableWord("HTTP/1.0");
  }

  /** The words of the request line the client writes: the method, the path and the version. */
  lemma RequestLineWords(path: string)
    requires path != "" && NoSpace(path)
    ensures Tokens("GET" + " " + path + " " + "HTTP/1.0") == ["GET", path, "HTTP/1.0"]
  {
    RequestWords();
    StatusTokens("GET", path, "HTTP/1.0");
    TokensAfterSpace("HTTP/1.0");
    TokensOfWordThen("HTTP/1.0", "");
    assert "HTTP/1.0" + "" == "HTTP/1.0";
  }

  /** The request line the client writes has no carriage return in it. */
  lemma GetLineNoReturn(path: string)
    requires NoSpace(path)
    ensures NoChar("GET " + path + " HTTP/1.0", '\r')
  {
    var line := "GET " + path + " HTTP/1.0";
    forall i | 0 <= i < |line| ensures line[i] != '\r' {
      if 4 <= i < 4 + |path| {
        assert line[i] == path[i - 4];
      }
    }
  }

  /** A request whose first line is the GET line for `path` is parsed into its three words. */
  lemma GetRequestWords(line: string, rest: string, path: string)
    requires path != "" && NoSpace(path) && line == "GET " + path + " HTTP/1.0"
    ensures Tokens(RequestLine(line + CRLF + rest)) == ["GET", path, "HTTP/1.0"]
  {
    GetLineNoReturn(path);
    FirstLine(line, rest);
    assert line == "GET" + " " + path + " " + "HTTP/1.0";
    RequestLineWords(path);
  }

  /**
   * A server reads back the request line the client wrote: for a path without whitespace it
   * has exactly three words, GET, the path and the version.
   */
  lemma RequestParses(t: Target)
    requires t.path != "" && NoSpace(t.path)
    ensures Tokens(RequestLine(BuildRequest(t))) == ["GET", t.path, "HTTP/1.0"]
  {
    RequestText(t);
    GetRequestWords("GET " + t.path + " HTTP/1.0", "Host: " + t.host + "\r\nConnection: close\r\n\r\n", t.path);
  }

  /** The single-connection server answers the client's request with the file its path names, the first character dropped. */
  lemma Server1Answers(t: Target, fs: FileSystem)
    requires t.path != "" && NoSpace(t.path)
    ensures FileServer1.Respond(BuildRequest(t), fs) == FileServer1.Serve(t.path[1..], fs)
  {
    RequestParses(t);
  }

  /** The select-based server answers the client's request with the file `ResourceName` makes of its path. */
  lemma Server2Answers(t: Target, fs: FileSystem)
    requires t.path != "" && NoSpace(t.path)
    ensures FileServer2.Respond(BuildRequest(t), fs) == FileServer2.Serve(FileServer2.ResourceName(t.path), fs)
  {
    RequestParses(t);
  }

  /** The JSON server routes the client's request on the path before '?' and answers any other path with its 404. */
  lemma JsonServerAnswers(t: Target, product: seq<string> -> Option<string>)
    requires t.path != "" && NoSpace(t.path)
    requires JsonServer.PathAndQuery(t.path).0 != "/product"
    ensures JsonServer.Respond(BuildRequest(t), product) == Reply([JsonServer.BuildResponse("404", JsonServer.NotFoundJson)], false)
  {
    RequestParses(t);
  }

  /** A network on which every request reaches the single-connection server and its whole reply comes back. */
  function Network1(fs: FileSystem): Network {
    (t: Target) => Some(Concat(FileServer1.Respond(BuildRequest(t), fs).payloads))
  }

  /** A network on which every request reaches the select-based server and its whole reply comes back. */
  function Network2(fs: FileSystem): Network {
    (t: Target) => Some(Concat(FileServer2.Respond(BuildRequest(t), fs).payloads))
  }

  /**
   * Fetching a URL from the single-connection server makes one request and ends as the
   * file policy says; when the server fails reading the file it sends nothing, and the
   * client reports an invalid response.
   */
  lemma FetchFromServer1(url: string, t: Target, fs: FileSystem)
    requires Start(url) == Ok(t) && NoSpace(t.path)
    ensures var name := t.path[1..];
      FetchUrl(Network1(fs), url, 0) ==
        if FileServer1.Serve(name, fs).raises then Run([t], Fatal(InvalidResponse)) else Run([t], Shown1(name, fs))
  {
    Server1Answers(t, fs);
    var name := t.path[1..];
    if !FileServer1.Serve(name, fs).raises {
      Server1Shown(name, fs);
    }
  }

  /** Fetching a URL from the select-based server makes one request and ends as its file policy says. */
  lemma FetchFromServer2(url: string, t: Target, fs: FileSystem)
    requires Start(url) == Ok(t) && NoSpace(t.path)
    ensures FetchUrl(Network2(fs), url, 0) == Run([t], Shown2(FileServer2.ResourceName(t.path), fs))
  {
    Server2Answers(t, fs);
    Server2Shown(FileServer2.ResourceName(t.path), fs);
  }

  /** A network on which every request reaches the JSON server and its whole reply comes back. */
  function Network3(product: seq<string> -> Option<string>): Network {
    (t: Target) => Some(Concat(JsonServer.Respond(BuildRequest(t), product).payloads))
  }

  /**
   * What a user of the client sees for a GET of `path` from the JSON server: the 404 or
   * 400 JSON body as an error page, and a refusal of the JSON content type on success.
   */
  function ShownJson(path: string, product: seq<string> -> Option<string>): HttpClient.Outcome
  {
    var (route, query) := JsonServer.PathAndQuery(path);
    if route != "/product" then HttpClient.ErrorPage(404, JsonServer.NotFoundJson)
    else match JsonServer.QueryValues(query)
      case None => HttpClient.ErrorPage(400, JsonServer.BadRequestJson)
      case Some(values) =>
        match product(values)
        case None => HttpClient.ErrorPage(400, JsonServer.BadRequestJson)
        case Some(_) => Fatal(WrongContentType(JsonServer.JsonType))
  }

  /** The JSON server's single reply to the client's request, received in full, is shown as ShownJson says. */
  lemma JsonServerShown(t: Target, product: seq<string> -> Option<string>)
    requires t.path != "" && NoSpace(t.path)
    ensures React(Receive(Network3(product)(t))) == Stop(ShownJson(t.path, product))
  {
    RequestParses(t);
    var reply := JsonServer.Respond(BuildRequest(t), product);
    assert |reply.payloads| == 1;
    ConcatOne(reply.payloads[0]);
    var (route, query) := JsonServer.PathAndQuery(t.path);
    if route != "/product" {
      ClientShowsJsonNotFound();
    } else if JsonServer.QueryValues(query).None? || product(JsonServer.QueryValues(query).value).None? {
      ClientShowsJsonBadRequest();
    } else {
      ClientRefusesJson(product(JsonServer.QueryValues(query).value).value);
    }
  }

  /**
   * Fetching a URL from the JSON server makes one request; the client never shows a page,
   * since every answer is either an error or of the JSON content type.
   */
  lemma FetchFromJsonServer(url: string, t: Target, product: seq<string> -> Option<string>)
    requires Start(url) == Ok(t) && NoSpace(t.path)
    ensures FetchUrl(Network3(product), url, 0) == Run([t], ShownJson(t.path, product))
    ensures ExitStatus(FetchUrl(Network3(product), url, 0).outcome) == 1
  {
    JsonServerShown(t, product);
  }
}
