/**
 * The command-line web client of P1 (`http_client.py`): it checks the URL,
 * splits it into host, port and path, sends an HTTP/1.0 GET, reads the
 * response's headers and status, prints the page for a 2xx answer, fails on
 * a 4xx/5xx answer and follows at most ten redirects. The network is a
 * parameter: a function from host, port and request text to the response.
 */
module HttpClient {
  import opened Base
  import opened Http

  // ---------------------------------------------------------------------------
  // The URL

  /** Only plain `http://` URLs are accepted; `https://` and anything else exit with status 7. */
  function CheckUrlCorrectness(url: string): (r: Result<()>)
    ensures r.Ok? <==> StartsWith(url, "http://")
    ensures !r.Ok? ==> r == Exit(7)
  {
    if PySlice(url, 0, 8) == "https://" then
      assert url[4] == 's';
      Exit(7)
    else if PySlice(url, 0, 7) != "http://" then Exit(7)
    else Ok(())
  }

  /** Where a request goes and what it asks for. */
  datatype Endpoint = Endpoint(host: string, port: int, path: string)

  /**
   * The URL after `http://`: the host is the text up to the first `/`; a `:`
   * in it starts the port (its text must read as an integer, else
   * `ValueError`), 80 otherwise; the path is `/` plus everything after the
   * first `/`, or `/` alone.
   */
  function Decompose(url: string): (r: Result<Endpoint>)
    ensures !r.Ok? ==> r == Raised(ValueError)
    ensures r.Ok? ==> |r.value.path| >= 1 && r.value.path[0] == '/'
  {
    var rest := PySlice(url, 7, |url|);
    var urlHost := Split(rest, "/")[0];
    if Find(urlHost, ":") != -1 then
      var portIndex := Find(rest, ":");
      match ParseInt(PySlice(urlHost, portIndex + 1, |urlHost|))
      case None => Raised(ValueError)
      case Some(port) => Ok(Endpoint(PySlice(urlHost, 0, portIndex), port, PathOf(rest)))
    else
      Ok(Endpoint(urlHost, 80, PathOf(rest)))
  }

  /** `/` and what follows the first `/`, or `/` alone when there is none. */
  function PathOf(rest: string): string {
    var slash := Find(rest, "/");
    if slash != -1 then "/" + rest[slash + 1..] else "/"
  }

  /** A URL written from its parts: host, an optional port, an optional path after the first `/`. */
  datatype Url = Url(host: string, port: Option<nat>, path: Option<string>)

  function PortPart(u: Url): string {
    if u.port.Some? then ":" + NatToString(u.port.value) else ""
  }

  function PathPart(u: Url): string {
    if u.path.Some? then "/" + u.path.value else ""
  }

  function UrlText(u: Url): string {
    "http://" + u.host + PortPart(u) + PathPart(u)
  }

  /** Proof aid: a URL text starting with `http://` passes the scheme check and leaves the rest after the scheme. */
  lemma SchemeThenRest(text: string, rest: string)
    requires text == "http://" + rest
    ensures CheckUrlCorrectness(text) == Ok(())
    ensures PySlice(text, 7, |text|) == rest
  {
    assert text[..7] == "http://";
    assert StartsWith(text, "http://");
  }

  /** Decomposing a written URL gives back its host, its port (80 by default) and its path (`/` by default). */
  lemma DecomposeUrl(u: Url)
    requires ':' !in u.host && '/' !in u.host
    ensures CheckUrlCorrectness(UrlText(u)) == Ok(())
    ensures Decompose(UrlText(u)) ==
      Ok(Endpoint(u.host, if u.port.Some? then u.port.value else 80, if u.path.Some? then "/" + u.path.value else "/"))
  {
    var text := UrlText(u);
    var rest := u.host + PortPart(u) + PathPart(u);
    var path := if u.path.Some? then "/" + u.path.value else "/";
    assert text == "http://" + rest;
    SchemeThenRest(text, rest);
    if u.port.Some? {
      assert Decompose(text) == Ok(Endpoint(u.host, u.port.value, path)) by {
        HostThenPath(u);
        DecomposePorted(text, rest, u.host, NatToString(u.port.value), u.port.value, PathPart(u), path);
      }
    } else {
      assert Decompose(text) == Ok(Endpoint(u.host, 80, path)) by {
        HostThenPath(u);
        DecomposePlain(text, rest, u.host, path);
      }
    }
  }

  /** Proof aid: the decomposition of a URL whose host part carries a port. */
  lemma DecomposePorted(url: string, rest: string, host: string, digits: string, port: nat, tail: string, path: string)
    requires PySlice(url, 7, |url|) == rest && rest == host + (":" + digits) + tail
    requires Split(rest, "/")[0] == host + (":" + digits) && PathOf(rest) == path
    requires ':' !in host && digits == NatToString(port)
    ensures Decompose(url) == Ok(Endpoint(host, port, path))
  {
    var hostPart := host + ":" + digits;
    assert host + (":" + digits) == hostPart;
    assert rest == hostPart + tail;
    PortAfterHost(host, digits, tail);
    ParseIntOfNat(port);
  }

  /** Proof aid: the decomposition of a URL whose host part has no port. */
  lemma DecomposePlain(url: string, rest: string, host: string, path: string)
    requires PySlice(url, 7, |url|) == rest && Split(rest, "/")[0] == host && PathOf(rest) == path
    requires ':' !in host
    ensures Decompose(url) == Ok(Endpoint(host, 80, path))
  {
    AvoidsNoContains(host, ":");
  }

  /** In a written URL, the text before the first `/` is the host and port, and the path is what follows. */
  lemma HostThenPath(u: Url)
    requires '/' !in u.host
    ensures Split(u.host + PortPart(u) + PathPart(u), "/")[0] == u.host + PortPart(u)
    ensures PathOf(u.host + PortPart(u) + PathPart(u)) == if u.path.Some? then "/" + u.path.value else "/"
  {
    var hostPart := u.host + PortPart(u);
    assert '/' !in PortPart(u);
    assert Avoids(hostPart, "/");
    if u.path.Some? {
      assert hostPart + PathPart(u) == hostPart + "/" + u.path.value;
      SplitAt(hostPart, "/", u.path.value);
      FindAfter(hostPart, "/", u.path.value);
      assert (hostPart + "/" + u.path.value)[|hostPart| + 1..] == u.path.value;
    } else {
      assert hostPart + PathPart(u) == hostPart;
      AvoidsNoContains(hostPart, "/");
      SplitNoSep(hostPart, "/");
    }
  }

  /** With no `:` in the host, the first `:` is the one before the port digits, in the host part and in the whole rest. */
  lemma PortAfterHost(host: string, digits: string, tail: string)
    requires ':' !in host
    ensures Find(host + ":" + digits, ":") == |host|
    ensures Find(host + ":" + digits + tail, ":") == |host|
    ensures PySlice(host + ":" + digits, |host| + 1, |host + ":" + digits|) == digits
    ensures PySlice(host + ":" + digits, 0, |host|) == host
  {
    FindAfter(host, ":", digits);
    FindAfter(host, ":", digits + tail);
    assert host + ":" + digits + tail == host + ":" + (digits + tail);
    assert (host + ":" + digits)[|host| + 1..] == digits;
    assert (host + ":" + digits)[..|host|] == host;
  }

  /** The request text sent to the server. */
  function RequestText(path: string, host: string): string {
    "GET " + path + " HTTP/1.0\r\nHost: " + host + "\r\n\r\n"
  }

  // ---------------------------------------------------------------------------
  // The response

  /** `line.split(":", 1)` on a header line: the name and the value, which keeps its leading space. */
  function Key(line: string): string {
    SplitOnce(line, ":")[0]
  }

  function Value(line: string): string
    requires Contains(line, ":")
  {
    SplitOnce(line, ":")[1]
  }

  /** The header dictionary: a line without `:` raises `ValueError`; a later line overrides an earlier one with the same name. */
  function Fields(lines: seq<string>): Result<map<string, string>>
    decreases |lines|
  {
    if lines == [] then Ok(map[])
    else
      match Fields(lines[..|lines| - 1])
      case Ok(m) =>
        var kv := SplitOnce(lines[|lines| - 1], ":");
        if |kv| < 2 then Raised(ValueError) else Ok(m[kv[0] := kv[1]])
      case Exit(code) => Exit(code)
      case Raised(e) => Raised(e)
  }

  /** The dictionary exists exactly when every line holds a `:`; otherwise the failure is `ValueError`. */
  lemma {:induction false} FieldsExist(lines: seq<string>)
    ensures Fields(lines).Ok? <==> forall i :: 0 <= i < |lines| ==> Contains(lines[i], ":")
    ensures !Fields(lines).Ok? ==> Fields(lines) == Raised(ValueError)
    decreases |lines|
  {
    if lines != [] {
      var init := lines[..|lines| - 1];
      FieldsExist(init);
      assert forall i :: 0 <= i < |init| ==> init[i] == lines[i];
    }
  }

  /** Every line's name is in the dictionary. */
  lemma {:induction false} FieldsHaveNames(lines: seq<string>, i: int)
    requires Fields(lines).Ok? && 0 <= i < |lines|
    ensures Key(lines[i]) in Fields(lines).value
    decreases |lines|
  {
    var init := lines[..|lines| - 1];
    var last := lines[|lines| - 1];
    var m0 := Fields(init).value;
    assert Fields(lines) == Ok(m0[Key(last) := SplitOnce(last, ":")[1]]);
    if i < |init| {
      assert init[i] == lines[i];
      FieldsHaveNames(init, i);
    }
  }

  /** Every name in the dictionary is some line's name. */
  lemma {:induction false} FieldsOnlyNames(lines: seq<string>, k: string)
    requires Fields(lines).Ok? && k in Fields(lines).value
    ensures exists i :: 0 <= i < |lines| && Key(lines[i]) == k
    decreases |lines|
  {
    var init := lines[..|lines| - 1];
    var last := lines[|lines| - 1];
    if k != Key(last) {
      FieldsOnlyNames(init, k);
      var i :| 0 <= i < |init| && Key(init[i]) == k;
      assert Key(lines[i]) == k;
    } else {
      assert Key(lines[|lines| - 1]) == k;
    }
  }

  /** Each name maps to the value of the last line that carries it. */
  lemma {:induction false} FieldsLastWins(lines: seq<string>, i: int)
    requires Fields(lines).Ok? && 0 <= i < |lines|
    requires forall j :: i < j < |lines| ==> Key(lines[j]) != Key(lines[i])
    ensures Contains(lines[i], ":") && Key(lines[i]) in Fields(lines).value
    ensures Fields(lines).value[Key(lines[i])] == Value(lines[i])
    decreases |lines|
  {
    FieldsExist(lines);
    var init := lines[..|lines| - 1];
    if i < |init| {
      assert init[i] == lines[i];
      forall j | i < j < |init| ensures Key(init[j]) != Key(init[i]) {
        assert init[j] == lines[j];
      }
      FieldsLastWins(init, i);
    }
  }

  /** What the client keeps of a response: status code and phrase, header dictionary, and the body text. */
  datatype Reply = Reply(code: int, phrase: string, fields: map<string, string>, content: string)

  /**
   * Reading a response: it must hold a blank line (else `IndexError`); the
   * body is the text up to the next blank line; the header lines after the
   * status line form the dictionary, which must have a Content-Type (else
   * `KeyError`) naming `text/html` (else exit 7); the status code is the first
   * word after the 9-character version prefix and must read as an integer.
   */
  function ParseResponse(response: string): (r: Result<Reply>)
    ensures r.Ok? ==> "Content-Type" in r.value.fields && Contains(r.value.fields["Content-Type"], "text/html")
    ensures r.Ok? || r == Raised(IndexError) || r == Raised(ValueError) || r == Raised(KeyError) || r == Exit(7)
  {
    var arr := Split(response, BLANK);
    if |arr| < 2 then Raised(IndexError)
    else
      var headerLines := Split(arr[0], CRLF);
      FieldsExist(headerLines[1..]);
      match Fields(headerLines[1..])
      case Ok(fields) =>
        if "Content-Type" !in fields then Raised(KeyError)
        else if !Contains(fields["Content-Type"], "text/html") then Exit(7)
        else
          var statusMessage := PySlice(headerLines[0], 9, |headerLines[0]|);
          var words := Split(statusMessage, " ");
          (match ParseInt(words[0])
           case None => Raised(ValueError)
           case Some(code) => Ok(Reply(code, Join(words[1..], " "), fields, arr[1])))
      case Exit(code) => Exit(code)
      case Raised(e) => Raised(e)
  }

  /** `parse_http_response` up to the status handling, with its loop filling the header dictionary. */
  method ParseHttpResponse(response: string) returns (r: Result<Reply>)
    ensures r == ParseResponse(response)
  {
    var arr := Split(response, BLANK);
    if |arr| < 2 {
      return Raised(IndexError);
    }
    var headerLines := Split(arr[0], CRLF);
    var fieldLines := headerLines[1..];
    var fields: map<string, string> := map[];
    for i := 0 to |fieldLines|
      invariant Fields(fieldLines[..i]) == Ok(fields)
    {
      assert fieldLines[..i + 1][..i] == fieldLines[..i];
      var kv := SplitOnce(fieldLines[i], ":");
      if |kv| < 2 {
        FieldsStop(fieldLines, i + 1);
        return Raised(ValueError);
      }
      fields := fields[kv[0] := kv[1]];
    }
    assert fieldLines[..|fieldLines|] == fieldLines;
    if "Content-Type" !in fields {
      return Raised(KeyError);
    }
    if !Contains(fields["Content-Type"], "text/html") {
      return Exit(7);
    }
    var statusMessage := PySlice(headerLines[0], 9, |headerLines[0]|);
    var words := Split(statusMessage, " ");
    var code := ParseInt(words[0]);
    if code.None? {
      return Raised(ValueError);
    }
    return Ok(Reply(code.value, Join(words[1..], " "), fields, arr[1]));
  }

  /** Once a prefix of the header lines fails, so do all of them. */
  lemma {:induction false} FieldsStop(lines: seq<string>, k: nat)
    requires k <= |lines| && !Fields(lines[..k]).Ok?
    ensures Fields(lines) == Fields(lines[..k])
    decreases |lines| - k
  {
    if k < |lines| {
      assert lines[..k + 1][..k] == lines[..k];
      FieldsStop(lines, k + 1);
    } else {
      assert lines[..k] == lines;
    }
  }

  // ---------------------------------------------------------------------------
  // The page inside the body

  /**
   * Where the page starts: the first of three opening markers that occurs,
   * tried in order; -1 when none does. The markers are parameters so that the
   * lemmas below do not depend on their spelling.
   */
  function StartAmong(html: string, first: string, second: string, third: string): (r: int)
    ensures -1 <= r <= |html|
  {
    var upper := Find(html, first);
    if upper != -1 then upper
    else
      var lower := Find(html, second);
      if lower != -1 then lower else Find(html, third)
  }

  /** `html[start:end + len(close)]` with `end` the first `close` (Python slicing: -1 counts from the end). */
  function Between(html: string, first: string, second: string, third: string, close: string): string {
    PySlice(html, StartAmong(html, first, second, third), Find(html, close) + |close|)
  }

  /** Where the page starts: `<!DOCTYPE html`, else `<!doctype html`, else `<html`, else -1. */
  function BodyStart(html: string): int {
    StartAmong(html, "<!DOCTYPE html", "<!doctype html", "<html")
  }

  /** From the page start through the first `</html>`. */
  function GetBodyContent(html: string): string {
    Between(html, "<!DOCTYPE html", "<!doctype html", "<html", "</html>")
  }

  /** With both markers present in order, the body runs from the start marker through the first `</html>`. */
  lemma BodyBetweenMarkers(html: string, start: int, end: int)
    requires start == BodyStart(html) && end == Find(html, "</html>")
    requires start != -1 && end >= start
    ensures end + 7 <= |html|
    ensures GetBodyContent(html) == html[start..end + 7]
    ensures EndsWith(GetBodyContent(html), "</html>")
  {
    MarkersFrame(html, "<!DOCTYPE html", "<!doctype html", "<html", "</html>", start, end);
  }

  /** With some start marker found and the closing marker at or after it, the slice runs exactly between them and ends with the closing marker. */
  lemma MarkersFrame(html: string, first: string, second: string, third: string, close: string, start: int, end: int)
    requires start == StartAmong(html, first, second, third) && end == Find(html, close)
    requires start != -1 && end >= start
    ensures end + |close| <= |html|
    ensures Between(html, first, second, third, close) == html[start..end + |close|]
    ensures EndsWith(Between(html, first, second, third, close), close)
  {
    FoundAt(html, close, end);
    SliceThrough(html, close, start, end, Between(html, first, second, third, close));
  }

  /** Proof aid: a non-negative result of `Find` is an occurrence. */
  lemma FoundAt(html: string, close: string, e: int)
    requires e == Find(html, close) && e >= 0
    ensures OccursAt(html, close, e)
  {
  }

  /** Proof aid: the slice from `s` through an occurrence of `close` at `e` ends with `close`. */
  lemma SliceThrough(html: string, close: string, s: int, e: int, b: string)
    requires 0 <= s <= e && OccursAt(html, close, e) && b == PySlice(html, s, e + |close|)
    ensures e + |close| <= |html|
    ensures b == html[s..e + |close|]
    ensures EndsWith(b, close)
  {
    var r := html[s..e + |close|];
    assert r[|r| - |close|..] == html[e..e + |close|];
  }

  /** Text before a page that holds no `<` is dropped: a doctype page closed by its only `</html>` comes out whole. */
  lemma PageAfterPreamble(preamble: string, page: string)
    requires '<' !in preamble
    requires StartsWith(page, "<!DOCTYPE html") && Find(page, "</html>") == |page| - 7
    ensures GetBodyContent(preamble + page) == page
  {
    PageAfterText(preamble, page, "<!DOCTYPE html", "<!doctype html", "<html", "</html>");
  }

  /** A page that starts with a start marker and ends at its only closing marker comes out whole from behind a `<`-free preamble. */
  lemma PageAfterText(preamble: string, page: string, first: string, second: string, third: string, close: string)
    requires '<' !in preamble && |first| > 0 && first[0] == '<' && |close| > 0 && close[0] == '<'
    requires StartsWith(page, first) && |close| <= |page| && Find(page, close) == |page| - |close|
    ensures Between(preamble + page, first, second, third, close) == page
  {
    var html := preamble + page;
    assert OccursAt(page, first, 0);
    FindPastPreamble(preamble, page, first);
    FindPastPreamble(preamble, page, close);
    assert StartAmong(html, first, second, third) == |preamble|;
    assert Find(html, close) + |close| == |html|;
    assert html[|preamble|..|html|] == page;
  }

  /** A text that starts with `<` is found in `preamble + s` where it is found in `s`, moved by the preamble. */
  lemma FindPastPreamble(preamble: string, s: string, p: string)
    requires '<' !in preamble && |p| > 0 && p[0] == '<'
    ensures Find(preamble + s, p) == if Find(s, p) == -1 then -1 else |preamble| + Find(s, p)
  {
    var t := preamble + s;
    assert t[|preamble|..] == s;
    forall i | 0 <= i < |preamble| ensures !OccursAt(t, p, i) {
      AvoidsNoOccurrence(preamble, p, s, i);
    }
    forall i | 0 <= i ensures OccursAt(s, p, i) <==> OccursAt(t, p, i + |preamble|) {
      OccursAtShift(t, p, |preamble|, i);
    }
    var k := Find(s, p);
    if k != -1 {
      assert OccursAt(t, p, k + |preamble|);
      forall i | 0 <= i < k + |preamble| ensures !OccursAt(t, p, i) {
        if i >= |preamble| {
          assert !OccursAt(s, p, i - |preamble|);
        }
      }
      FindIs(t, p, k + |preamble|);
    } else {
      forall i | 0 <= i ensures !OccursAt(t, p, i) {
        if i >= |preamble| {
          assert !OccursAt(s, p, i - |preamble|);
        }
      }
      FindNone(t, p);
    }
  }

  // ---------------------------------------------------------------------------
  // Status handling and redirects

  /** What the client does with a reply: stop (with its output and how it ends) or follow a redirect. */
  datatype Step = Done(stdout: string, end: Result<()>) | Follow(url: string)

  /**
   * 400 and above: print the page and exit 7. 300 to 399: follow the
   * trimmed Location if there is one, else stop quietly. 200 to 299: print
   * the page and exit 0. Below 200: stop quietly.
   */
  function React(reply: Reply): (r: Step)
    ensures r.Follow? ==> 300 <= reply.code < 400 && "Location" in reply.fields
    ensures r.Done? && r.end == Exit(7) <==> reply.code >= 400
    ensures r.Done? && r.end == Exit(0) <==> 200 <= reply.code < 300
  {
    if reply.code >= 400 then Done(GetBodyContent(reply.content) + "\n", Exit(7))
    else if reply.code >= 300 then
      if "Location" in reply.fields then Follow(Strip(reply.fields["Location"])) else Done("", Ok(()))
    else if reply.code >= 200 then Done(GetBodyContent(reply.content) + "\n", Exit(0))
    else Done("", Ok(()))
  }

  /** A 3xx reply with a Location header is followed to the Location with surrounding whitespace trimmed. */
  lemma RedirectFollowed(reply: Reply)
    requires 300 <= reply.code < 400 && "Location" in reply.fields
    ensures React(reply) == Follow(Strip(reply.fields["Location"]))
  {
  }

  /**
   * 2xx and 400-and-above replies print the page's body with a newline; a
   * 3xx reply without Location and a reply below 200 print nothing and end
   * normally.
   */
  lemma PagePrinted(reply: Reply)
    ensures reply.code >= 400 ==> React(reply) == Done(GetBodyContent(reply.content) + "\n", Exit(7))
    ensures 200 <= reply.code < 300 ==> React(reply) == Done(GetBodyContent(reply.content) + "\n", Exit(0))
    ensures (reply.code < 200 || (300 <= reply.code < 400 && "Location" !in reply.fields)) ==> React(reply) == Done("", Ok(()))
  {
  }

  /** The network: the response text a server gives to a request text sent to a host and port. */
  type Network = (string, int, string) -> string

  /** How a run of the client ends: what it printed, how it stopped, and how many requests it sent. */
  datatype Outcome = Outcome(stdout: string, end: Result<()>, requests: nat)

  /** The largest number of redirects followed. */
  const MAX_REDIRECTS: nat := 10

  /**
   * `perform_http_get` with `count` redirects already followed: exit 7 once
   * the count reaches ten, otherwise check and decompose the URL, send the
   * request and act on the reply. No run sends more requests than the
   * redirects it has left.
   */
  function PerformHttpGet(net: Network, url: string, count: nat): (r: Outcome)
    ensures count >= MAX_REDIRECTS ==> r == Outcome("", Exit(7), 0)
    ensures r.requests <= if count >= MAX_REDIRECTS then 0 else MAX_REDIRECTS - count
    ensures r.requests == 0 ==> r.stdout == "" && (r.end == Exit(7) || r.end == Raised(ValueError))
    decreases if count >= MAX_REDIRECTS then 0 else MAX_REDIRECTS - count
  {
    if count >= MAX_REDIRECTS then Outcome("", Exit(7), 0)
    else if !CheckUrlCorrectness(url).Ok? then Outcome("", Exit(7), 0)
    else
      match Decompose(url)
      case Ok(ep) =>
        var response := net(ep.host, ep.port, RequestText(ep.path, ep.host));
        (match ParseResponse(response)
         case Ok(reply) =>
           (match React(reply)
            case Done(out, end) => Outcome(out, end, 1)
            case Follow(next) =>
              var r := PerformHttpGet(net, next, count + 1);
              Outcome(r.stdout, r.end, r.requests + 1))
         case Exit(code) => Outcome("", Exit(code), 1)
         case Raised(e) => Outcome("", Raised(e), 1))
      case Exit(code) => Outcome("", Exit(code), 0)
      case Raised(e) => Outcome("", Raised(e), 0)
  }

  /** The reply the network gives to the request for `url`, when the URL passes its checks. */
  function Fetched(net: Network, url: string): (p: Result<Reply>)
    requires Decompose(url).Ok?
    ensures p.Ok? ==> "Content-Type" in p.value.fields
  {
    var ep := Decompose(url).value;
    ParseResponse(net(ep.host, ep.port, RequestText(ep.path, ep.host)))
  }

  /** Below the cap, a reply the client stops on ends the run after its one request, with that reply's output. */
  lemma ReplyActedOn(net: Network, url: string, count: nat)
    requires count < MAX_REDIRECTS && CheckUrlCorrectness(url).Ok? && Decompose(url).Ok?
    requires Fetched(net, url).Ok? && React(Fetched(net, url).value).Done?
    ensures var s := React(Fetched(net, url).value); PerformHttpGet(net, url, count) == Outcome(s.stdout, s.end, 1)
  {
  }

  /**
   * Below the cap, a 3xx reply with a Location sends one request and runs
   * again, one redirect further, on the trimmed Location.
   */
  lemma RedirectCounted(net: Network, url: string, count: nat)
    requires count < MAX_REDIRECTS && CheckUrlCorrectness(url).Ok? && Decompose(url).Ok?
    requires Fetched(net, url).Ok? && 300 <= Fetched(net, url).value.code < 400 && "Location" in Fetched(net, url).value.fields
    ensures var r := PerformHttpGet(net, Strip(Fetched(net, url).value.fields["Location"]), count + 1);
      PerformHttpGet(net, url, count) == Outcome(r.stdout, r.end, r.requests + 1)
  {
    RedirectFollowed(Fetched(net, url).value);
  }

  /** A network that answers every request with a redirect back to `url`. */
  ghost predicate RedirectsTo(net: Network, url: string) {
    forall host, port, request ::
      ParseResponse(net(host, port, request)).Ok? && React(ParseResponse(net(host, port, request)).value) == Follow(url)
  }

  /** Endless redirects end in exit 7 after the ten allowed ones, with one request per redirect followed. */
  lemma {:induction false} RedirectLoopStops(net: Network, url: string, count: nat)
    requires RedirectsTo(net, url) && count <= MAX_REDIRECTS
    requires Decompose(url).Ok? && CheckUrlCorrectness(url).Ok?
    ensures PerformHttpGet(net, url, count) == Outcome("", Exit(7), MAX_REDIRECTS - count)
    decreases MAX_REDIRECTS - count
  {
    if count < MAX_REDIRECTS {
      var ep := Decompose(url).value;
      var response := net(ep.host, ep.port, RequestText(ep.path, ep.host));
      assert ParseResponse(response).Ok? && React(ParseResponse(response).value) == Follow(url);
      RedirectLoopStops(net, url, count + 1);
    }
  }
}
