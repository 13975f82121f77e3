/**
 * The P1 client talking to the P1 servers: the request the client writes is
 * read back by either server as the path it asked for, a page served by the
 * file server is printed by the client, and the error answers of both
 * servers are ones the client cannot read.
 */
module HttpExchange {
  import opened Base
  import opened Http
  import HttpServer2
  import HttpServer3
  import opened HttpClient

  // ---------------------------------------------------------------------------
  // Client to server

  /** The client's request line names its path, and the servers read that path back. */
  lemma RequestIsRead(path: string, host: string)
    requires ' ' !in path && '\r' !in path
    ensures RequestTarget(RequestText(path, host)) == Ok(path)
  {
    var tokens := ["GET", path, "HTTP/1.0"];
    assert Join(tokens, " ") == "GET " + path + " HTTP/1.0" by {
      assert Join(tokens[1..], " ") == path + " " + "HTTP/1.0";
    }
    assert RequestText(path, host) == Join(tokens, " ") + CRLF + ("Host: " + host + BLANK);
    forall i | 0 <= i < |tokens| ensures ' ' !in tokens[i] && '\r' !in tokens[i] { }
    RequestLineRead(tokens, "Host: " + host + BLANK);
    assert !StartsWith(tokens[2], "HTTPS") by { assert tokens[2][4] == '/'; }
  }

  /** The file server answers the client's request as a lookup of the requested path. */
  lemma FileServerAnswers(fs: HttpServer2.FileSystem, path: string, host: string, date: string)
    requires ' ' !in path && '\r' !in path
    ensures HttpServer2.ParseClientRequest(fs, RequestText(path, host), date) == HttpServer2.GetResponseForRequestedFile(fs, path, date)
  {
    RequestIsRead(path, host);
  }

  /** The product server answers the client's request as a query on the requested path. */
  lemma ProductServerAnswers<F>(path: string, host: string, parse: string -> Option<F>, render: seq<F> -> string, date: string)
    requires ' ' !in path && '\r' !in path
    ensures HttpServer3.ParseClientRequest(RequestText(path, host), parse, render, date) == HttpServer3.QueryResult(path, parse, render, date)
  {
    RequestIsRead(path, host);
  }

  // ---------------------------------------------------------------------------
  // Server to client

  /** A header line written as `name: value` is read as that name and the value with its leading space. */
  lemma FieldRead(name: string, value: string)
    requires ':' !in name
    ensures Contains(Field(name, value), ":")
    ensures Key(Field(name, value)) == name && Value(Field(name, value)) == " " + value
  {
    var s := Field(name, value);
    assert s == name + ":" + (" " + value);
    FindAfter(name, ":", " " + value);
    assert s[..|name|] == name;
    assert s[|name| + 1..] == " " + value;
  }

  /** One more header line with a `:` adds its name and value to the dictionary. */
  lemma FieldsAppend(lines: seq<string>, line: string)
    requires Fields(lines).Ok? && Contains(line, ":")
    ensures Fields(lines + [line]) == Ok(Fields(lines).value[Key(line) := Value(line)])
  {
    assert (lines + [line])[..|lines|] == lines;
  }

  /** Four header lines give the dictionary of their four names and values. */
  lemma FieldsOfFour(n0: string, v0: string, n1: string, v1: string, n2: string, v2: string, n3: string, v3: string)
    requires ':' !in n0 && ':' !in n1 && ':' !in n2 && ':' !in n3
    ensures Fields([Field(n0, v0), Field(n1, v1), Field(n2, v2), Field(n3, v3)]) ==
      Ok(map[n0 := " " + v0, n1 := " " + v1, n2 := " " + v2, n3 := " " + v3])
  {
    var f0, f1, f2, f3 := Field(n0, v0), Field(n1, v1), Field(n2, v2), Field(n3, v3);
    FieldRead(n0, v0);
    FieldRead(n1, v1);
    FieldRead(n2, v2);
    FieldRead(n3, v3);
    FieldsAppend([], f0);
    assert [] + [f0] == [f0];
    FieldsAppend([f0], f1);
    assert [f0] + [f1] == [f0, f1];
    FieldsAppend([f0, f1], f2);
    assert [f0, f1] + [f2] == [f0, f1, f2];
    FieldsAppend([f0, f1, f2], f3);
    assert [f0, f1, f2] + [f3] == [f0, f1, f2, f3];
  }

  /** Two header lines give the dictionary of their two names and values. */
  lemma FieldsOfTwo(n0: string, v0: string, n1: string, v1: string)
    requires ':' !in n0 && ':' !in n1
    ensures Fields([Field(n0, v0), Field(n1, v1)]) == Ok(map[n0 := " " + v0, n1 := " " + v1])
  {
    var f0, f1 := Field(n0, v0), Field(n1, v1);
    FieldRead(n0, v0);
    FieldRead(n1, v1);
    FieldsAppend([], f0);
    assert [] + [f0] == [f0];
    FieldsAppend([f0], f1);
    assert [f0] + [f1] == [f0, f1];
  }

  /** The header lines of the file server's success answer. */
  function PageFields(content: string, date: string): map<string, string> {
    map["Content-Length" := " " + NatToString(|content|), "Connection" := " close",
        "Content-Type" := " text/html; charset=UTF-8", "Date" := " " + date + " GMT"]
  }

  /** Proof aid on literal strings only: the header values the client reads keep the space after the colon. */
  lemma PaddedValues()
    ensures " " + "close" == " close"
    ensures " " + "text/html; charset=UTF-8" == " text/html; charset=UTF-8"
  {
  }

  /** Proof aid on literal strings only: the file server's Content-Type value names `text/html`. */
  lemma HtmlTypeIsHtml()
    ensures Contains(" text/html; charset=UTF-8", "text/html")
  {
    assert " text/html; charset=UTF-8" == " " + "text/html" + "; charset=UTF-8";
    FindAfter(" ", "text/html", "; charset=UTF-8");
  }

  /** Proof aid on literal strings only: the phrase `OK` fits on a status line. */
  lemma OkIsOneLine()
    ensures '\r' !in "OK"
  {
  }

  /** The client's dictionary of the file server's success headers. */
  lemma PageFieldsRead(content: string, date: string)
    ensures Fields(HttpServer2.ResponseHeaders(200, content, date)) == Ok(PageFields(content, date))
  {
    FieldsOfFour("Content-Length", NatToString(|content|), "Connection", "close",
      "Content-Type", "text/html; charset=UTF-8", "Date", date + " GMT");
    PaddedValues();
    assert " " + (date + " GMT") == " " + date + " GMT";
  }

  /** The status line gives back its code and its phrase. */
  lemma StatusRead(code: nat, phrase: string)
    ensures var words := Split(PySlice(StatusLine(code, phrase), 9, |StatusLine(code, phrase)|), " ");
      && ParseInt(words[0]) == Some(code)
      && Join(words[1..], " ") == phrase
  {
    var s := StatusLine(code, phrase);
    var digits := NatToString(code);
    assert s == "HTTP/1.1 " + (digits + " " + phrase);
    assert PySlice(s, 9, |s|) == digits + " " + phrase;
    assert Avoids(digits, " ") by { assert '0' <= digits[0] <= '9'; }
    SplitAt(digits, " ", phrase);
    var words := [digits] + Split(phrase, " ");
    assert words[1..] == Split(phrase, " ");
    JoinSplit(phrase, " ");
    ParseIntOfNat(code);
  }

  /** The first blank line of a message ends its header lines, which the client reads back one by one. */
  lemma MessageRead(lines: seq<string>, body: string)
    requires |lines| >= 1 && forall k :: 0 <= k < |lines| ==> HeaderLine(lines[k])
    ensures var arr := Split(Message(lines, body), BLANK);
      |arr| >= 2 && arr[0] == Join(lines, CRLF) && arr[1] == Split(body, BLANK)[0] && Split(arr[0], CRLF) == lines
  {
    MessageHead(lines, body);
    forall k | 0 <= k < |lines| ensures Avoids(lines[k], CRLF) {
      assert HeaderLine(lines[k]);
    }
    SplitJoin(lines, CRLF);
  }

  /**
   * A message made of a status line, header lines and a body is read back
   * as its code, its phrase, its header dictionary and the body up to its
   * first blank line, when the dictionary names an HTML Content-Type; any
   * other Content-Type exits with status 7, and with none at all reading
   * fails with `KeyError`.
   */
  lemma MessageParsed(code: nat, phrase: string, headers: seq<string>, body: string)
    requires '\r' !in phrase && forall k :: 0 <= k < |headers| ==> HeaderLine(headers[k])
    requires Fields(headers).Ok?
    ensures "Content-Type" in Fields(headers).value && Contains(Fields(headers).value["Content-Type"], "text/html") ==>
      ParseResponse(Message([StatusLine(code, phrase)] + headers, body)) ==
        Ok(Reply(code, phrase, Fields(headers).value, Split(body, BLANK)[0]))
    ensures "Content-Type" in Fields(headers).value && !Contains(Fields(headers).value["Content-Type"], "text/html") ==>
      ParseResponse(Message([StatusLine(code, phrase)] + headers, body)) == Exit(7)
    ensures "Content-Type" !in Fields(headers).value ==>
      ParseResponse(Message([StatusLine(code, phrase)] + headers, body)) == Raised(KeyError)
  {
    var lines := [StatusLine(code, phrase)] + headers;
    assert '\r' !in StatusLine(code, phrase);
    assert forall k :: 0 <= k < |lines| ==> HeaderLine(lines[k]) by {
      forall k | 0 <= k < |lines| ensures HeaderLine(lines[k]) {
        if k > 0 { assert lines[k] == headers[k - 1]; }
      }
    }
    MessageRead(lines, body);
    assert lines[1..] == headers;
    StatusRead(code, phrase);
  }

  /** A header `name: value` fits on one header line when neither part holds a carriage return. */
  lemma FieldLine(name: string, value: string)
    requires |name| > 0 && '\r' !in name && '\r' !in value
    ensures HeaderLine(Field(name, value))
  {
    assert Field(name, value) == name + ": " + value;
  }

  /** Every header the file server writes fits on one line. */
  lemma HeadersAreLines(code: nat, content: string, date: string)
    requires '\r' !in date
    ensures forall k :: 0 <= k < |HttpServer2.ResponseHeaders(code, content, date)| ==> HeaderLine(HttpServer2.ResponseHeaders(code, content, date)[k])
  {
    var digits := NatToString(|content|);
    assert '\r' !in digits;
    FieldLine("Content-Length", digits);
    FieldLine("Connection", "close");
    FieldLine("Content-Type", "text/html; charset=UTF-8");
    FieldLine("Date", date + " GMT");
  }

  /**
   * The client reads the file server's success answer back: its code and
   * phrase, its four header fields, and the body up to the first blank line
   * in it.
   */
  lemma ClientReadsPage(code: nat, phrase: string, content: string, date: string)
    requires code < 400 && '\r' !in phrase && '\r' !in date
    ensures ParseResponse(HttpServer2.CreateResponse(code, phrase, content, date)) ==
      Ok(Reply(code, phrase, PageFields(content, date), Split(content, BLANK)[0]))
  {
    var headers := HttpServer2.ResponseHeaders(code, content, date);
    assert HttpServer2.CreateResponse(code, phrase, content, date) == Message([StatusLine(code, phrase)] + headers, content);
    assert headers == HttpServer2.ResponseHeaders(200, content, date);
    PageFieldsRead(content, date);
    HtmlTypeIsHtml();
    HeadersAreLines(code, content, date);
    MessageParsed(code, phrase, headers, content);
  }

  /**
   * A page served by the file server is printed by the client, which then
   * exits with status 0, when the page starts with its doctype, ends at its
   * only `</html>` and holds no blank line.
   */
  lemma ClientShowsServedPage(fs: HttpServer2.FileSystem, path: string, host: string, date: string)
    requires ' ' !in path && '\r' !in path && '\r' !in date
    requires var name := PySlice(path, 1, |path|); var file := fs.cwd + "/" + name;
      && file in fs.files && HttpServer2.PageName(name)
      && StartsWith(fs.files[file], "<!DOCTYPE html")
      && Find(fs.files[file], "</html>") == |fs.files[file]| - 7
      && !Contains(fs.files[file], BLANK)
    ensures var answer := HttpServer2.ParseClientRequest(fs, RequestText(path, host), date);
      var page := fs.files[fs.cwd + "/" + PySlice(path, 1, |path|)];
      && answer.Ok? && ParseResponse(answer.value).Ok?
      && React(ParseResponse(answer.value).value) == Done(page + "\n", Exit(0))
  {
    var page := fs.files[fs.cwd + "/" + PySlice(path, 1, |path|)];
    FileServerAnswers(fs, path, host, date);
    ClientPrintsPage(page, date);
  }

  /** The client prints a page sent with status 200 and exits with status 0. */
  lemma ClientPrintsPage(page: string, date: string)
    requires '\r' !in date && StartsWith(page, "<!DOCTYPE html")
    requires Find(page, "</html>") == |page| - 7 && !Contains(page, BLANK)
    ensures var reply := ParseResponse(HttpServer2.CreateResponse(200, "OK", page, date));
      reply.Ok? && React(reply.value) == Done(page + "\n", Exit(0))
  {
    OkIsOneLine();
    ClientReadsPage(200, "OK", page, date);
    SplitNoSep(page, BLANK);
    PageAfterPreamble([], page);
    assert [] + page == page;
  }

  /** The file server's error answers carry no Content-Type, so the client fails on them with `KeyError`. */
  lemma ClientFailsOnFileServerError(code: nat, phrase: string, content: string, date: string)
    requires code >= 400 && '\r' !in phrase && '\r' !in date
    ensures ParseResponse(HttpServer2.CreateResponse(code, phrase, content, date)) == Raised(KeyError)
  {
    var headers := HttpServer2.ResponseHeaders(code, content, date);
    assert HttpServer2.CreateResponse(code, phrase, content, date) == Message([StatusLine(code, phrase)] + headers, "");
    FieldsOfTwo("Connection", "close", "Date", date + " GMT");
    HeadersAreLines(code, content, date);
    MessageParsed(code, phrase, headers, "");
  }

  /** The product server's error answers hold no blank line, so the client fails on them with `IndexError`. */
  lemma ClientFailsOnProductServerError(code: nat, phrase: string, date: string)
    requires code >= 400 && '\r' !in phrase
    ensures ParseResponse(HttpServer3.CreateResponse(code, phrase, "", date)) == Raised(IndexError)
  {
    HttpServer3.ErrorResponseUnterminated(code, phrase, date);
    SplitNoSep(HttpServer3.CreateResponse(code, phrase, "", date), BLANK);
  }

  /** A text missing one of the characters of `p` does not contain `p`. */
  lemma MissingCharNoContains(s: string, p: string, j: int)
    requires 0 <= j < |p| && p[j] !in s
    ensures !Contains(s, p)
  {
    forall i | 0 <= i ensures !OccursAt(s, p, i) {
      if i + |p| <= |s| {
        assert s[i..i + |p|][j] == s[i + j];
      }
    }
  }

  /** Every header the product server writes on success fits on one line. */
  lemma JsonHeadersAreLines(content: string, date: string)
    requires '\r' !in date
    ensures forall k :: 0 <= k < |HttpServer3.ResponseHeaders(content, date)| ==> HeaderLine(HttpServer3.ResponseHeaders(content, date)[k])
  {
    var digits := NatToString(|content|);
    assert '\r' !in digits;
    FieldLine("Content-Length", digits);
    FieldLine("Connection", "close");
    FieldLine("Content-Type", "application/json; charset=UTF-8");
    FieldLine("Date", date + " GMT");
  }

  /** The product server's success headers name a Content-Type that is not `text/html`. */
  lemma JsonFieldsRead(content: string, date: string)
    ensures Fields(HttpServer3.ResponseHeaders(content, date)) == Ok(JsonFields(content, date))
    ensures !Contains(JsonFields(content, date)["Content-Type"], "text/html")
  {
    FieldsOfFour("Content-Length", NatToString(|content|), "Connection", "close",
      "Content-Type", "application/json; charset=UTF-8", "Date", date + " GMT");
    JsonTypePadded();
    assert " " + (date + " GMT") == " " + date + " GMT";
    JsonTypeNotHtml();
  }

  /** The header lines of the product server's success answer. */
  function JsonFields(content: string, date: string): map<string, string> {
    map["Content-Length" := " " + NatToString(|content|), "Connection" := " close",
        "Content-Type" := " application/json; charset=UTF-8", "Date" := " " + date + " GMT"]
  }

  /** Proof aid on literal strings only: the JSON Content-Type value keeps the space after the colon. */
  lemma JsonTypePadded()
    ensures " " + "close" == " close"
    ensures " " + "application/json; charset=UTF-8" == " application/json; charset=UTF-8"
  {
  }

  /**
   * The product server's success answer, split at its first blank line, gives
   * back its status line and its four header lines, read as the dictionary of
   * Content-Length, Connection, the JSON Content-Type and Date.
   */
  lemma ProductAnswerHead(code: nat, phrase: string, content: string, date: string)
    requires code < 400 && '\r' !in phrase && '\r' !in date
    ensures var arr := Split(HttpServer3.CreateResponse(code, phrase, content, date), BLANK);
      var lines := Split(arr[0], CRLF);
      && |arr| >= 2 && arr[1] == Split(content, BLANK)[0]
      && lines == [StatusLine(code, phrase)] + HttpServer3.ResponseHeaders(content, date)
      && Fields(lines[1..]) == Ok(JsonFields(content, date))
  {
    var headers := HttpServer3.ResponseHeaders(content, date);
    var lines := [StatusLine(code, phrase)] + headers;
    assert HttpServer3.CreateResponse(code, phrase, content, date) == Message(lines, content);
    JsonHeadersAreLines(content, date);
    assert '\r' !in StatusLine(code, phrase);
    forall k | 0 <= k < |lines| ensures HeaderLine(lines[k]) {
      if k > 0 { assert lines[k] == headers[k - 1]; }
    }
    MessageRead(lines, content);
    assert lines[1..] == headers;
    JsonFieldsRead(content, date);
  }

  /**
   * The file server's error answer, split at its blank line, gives back its
   * status line and exactly two header lines, read as the dictionary of
   * Connection and Date: no Content-Length and no Content-Type.
   */
  lemma FileServerErrorHead(code: nat, phrase: string, content: string, date: string)
    requires code >= 400 && '\r' !in phrase && '\r' !in date
    ensures var arr := Split(HttpServer2.CreateResponse(code, phrase, content, date), BLANK);
      var lines := Split(arr[0], CRLF);
      && |arr| >= 2 && arr[1] == ""
      && lines == [StatusLine(code, phrase)] + HttpServer2.ResponseHeaders(code, content, date)
      && Fields(lines[1..]) == Ok(map["Connection" := " close", "Date" := " " + date + " GMT"])
  {
    var headers := HttpServer2.ResponseHeaders(code, content, date);
    var lines := [StatusLine(code, phrase)] + headers;
    assert HttpServer2.CreateResponse(code, phrase, content, date) == Message(lines, "");
    HeadersAreLines(code, content, date);
    assert '\r' !in StatusLine(code, phrase);
    forall k | 0 <= k < |lines| ensures HeaderLine(lines[k]) {
      if k > 0 { assert lines[k] == headers[k - 1]; }
    }
    MessageRead(lines, "");
    SplitNoSep("", BLANK);
    assert lines[1..] == headers;
    ErrorFieldsRead(code, content, date);
  }

  /** The client's dictionary of the file server's error headers: Connection and Date only. */
  lemma ErrorFieldsRead(code: nat, content: string, date: string)
    requires code >= 400
    ensures Fields(HttpServer2.ResponseHeaders(code, content, date)) == Ok(map["Connection" := " close", "Date" := " " + date + " GMT"])
  {
    FieldsOfTwo("Connection", "close", "Date", date + " GMT");
    assert " " + (date + " GMT") == " " + date + " GMT";
    PaddedValues();
  }

  /** Proof aid on literal strings only: the product server's Content-Type value does not name `text/html`, since it holds no `x`. */
  lemma JsonTypeNotHtml()
    ensures !Contains(" " + "application/json; charset=UTF-8", "text/html")
  {
    assert 'x' !in " " + "application/json; charset=UTF-8";
    MissingCharNoContains(" " + "application/json; charset=UTF-8", "text/html", 2);
  }

  /** The product server's success answers are JSON, which the client refuses with exit status 7. */
  lemma ClientRefusesProductAnswer(code: nat, phrase: string, content: string, date: string)
    requires code < 400 && '\r' !in phrase && '\r' !in date
    ensures ParseResponse(HttpServer3.CreateResponse(code, phrase, content, date)) == Exit(7)
  {
    var headers := HttpServer3.ResponseHeaders(content, date);
    assert HttpServer3.CreateResponse(code, phrase, content, date) == Message([StatusLine(code, phrase)] + headers, content);
    JsonHeadersAreLines(content, date);
    JsonFieldsRead(content, date);
    MessageParsed(code, phrase, headers, content);
  }
}
