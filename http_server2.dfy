/**
 * The file-serving web server of P1 (`http_server2.py`): it answers a GET
 * request with the named `.html`/`.htm` file from its working directory, 403
 * for any other existing file and 404 for a missing one. The working
 * directory and its files are a value; the Date header text is a parameter.
 */
module HttpServer2 {
  import opened Base
  import opened Http

  /** The working directory, the text of each readable file and the set of directories, by absolute path. */
  datatype FileSystem = FileSystem(cwd: string, files: map<string, string>, dirs: set<string>)

  /** The header lines after the status line: only Connection and Date for an error, the full set otherwise. */
  function ResponseHeaders(code: nat, content: string, date: string): seq<string> {
    if code >= 400 then
      [Field("Connection", "close"), Field("Date", date + " GMT")]
    else
      [Field("Content-Length", NatToString(|content|)), Field("Connection", "close"),
       Field("Content-Type", "text/html; charset=UTF-8"), Field("Date", date + " GMT")]
  }

  /**
   * The response text: the status line and the header lines, each ended by
   * CRLF, then CRLF; a success response (code below 400) carries `content`
   * after that, an error response nothing.
   */
  function CreateResponse(code: nat, phrase: string, content: string, date: string): (r: string)
    ensures StartsWith(r, StatusLine(code, phrase) + CRLF)
    ensures EndsWith(r, BLANK + (if code >= 400 then "" else content))
    ensures code >= 400 ==>
      r == StatusLine(code, phrase) + CRLF + Field("Connection", "close") + CRLF + Field("Date", date + " GMT") + CRLF + CRLF
  {
    var body := if code >= 400 then "" else content;
    var headers := ResponseHeaders(code, content, date);
    var lines := [StatusLine(code, phrase)] + headers;
    assert lines[1..] == headers;
    LinesEnd(lines);
    LinesOfThree(StatusLine(code, phrase), Field("Connection", "close"), Field("Date", date + " GMT"));
    Message(lines, body)
  }

  /** `name.split(".")[-1]`: the text after the last dot, or the whole name. */
  function Extension(name: string): string {
    LastOf(Split(name, "."))
  }

  /** `xs[-1]`. */
  function LastOf<T>(xs: seq<T>): T
    requires |xs| >= 1
  {
    xs[|xs| - 1]
  }

  /** The last piece of a split on a one-element separator is the suffix after the last occurrence of that element. */
  lemma LastPiece<T>(s: seq<T>, sep: seq<T>)
    requires |sep| == 1
    ensures var e := LastOf(Split(s, sep)); EndsWith(s, e) && (|e| < |s| ==> s[|s| - |e| - 1] == sep[0])
  {
    JoinSplit(s, sep);
    LastOfJoin(Split(s, sep), sep, s);
  }

  /** The last piece of a split on a one-element separator does not hold that element. */
  lemma LastPieceFree<T>(s: seq<T>, sep: seq<T>)
    requires |sep| == 1
    ensures sep[0] !in LastOf(Split(s, sep))
  {
    var parts := Split(s, sep);
    SplitPiecesFree(s, sep);
    assert !Contains(parts[|parts| - 1], sep);
    assert sep == [sep[0]];
    NoCharFound(parts[|parts| - 1], sep[0]);
  }

  /** Text joined from pieces ends with the last piece, right after a separator unless it is the only piece. */
  lemma LastOfJoin<T>(pieces: seq<seq<T>>, sep: seq<T>, s: seq<T>)
    requires |pieces| >= 1 && |sep| == 1 && s == Join(pieces, sep)
    ensures EndsWith(s, LastOf(pieces))
    ensures |LastOf(pieces)| < |s| ==> s[|s| - |LastOf(pieces)| - 1] == sep[0]
  {
    var init := pieces[..|pieces| - 1];
    var e := LastOf(pieces);
    assert pieces == init + [e];
    JoinSnoc(init, sep, e);
    if init != [] {
      var j := Join(init, sep);
      assert s == j + sep + e;
      assert s[|s| - |e|..] == e;
      assert s[|s| - |e| - 1] == sep[0];
    }
  }

  /**
   * With `e` the suffix of `name` after the last separator element (none of
   * it in `e`, and one right before it unless it is all of `name`), `e` is
   * the word `x` exactly when `name` is `x` or ends with the separator followed by `x`.
   */
  lemma SuffixAfterLast<T>(name: seq<T>, e: seq<T>, x: seq<T>, sep: seq<T>)
    requires |sep| == 1 && sep[0] !in x
    requires sep[0] !in e && EndsWith(name, e)
    requires |e| < |name| ==> name[|name| - |e| - 1] == sep[0]
    ensures e == x <==> name == x || EndsWith(name, sep + x)
  {
    var c := sep[0];
    if e == x && |e| < |name| {
      assert name[|name| - |x| - 1..] == sep + x;
    }
    var j := |name| - |e|;
    forall p | j <= p < |name| ensures name[p] != c {
      assert name[p] == e[p - j];
    }
    if EndsWith(name, sep + x) {
      var k := |name| - |x| - 1;
      assert name[k] == (sep + x)[0] == c;
      forall p | k < p < |name| ensures name[p] != c {
        assert name[p] == x[p - k - 1];
      }
      assert e == name[j..] && x == name[k + 1..];
    }
    if name == x {
      forall p | 0 <= p < |name| ensures name[p] != c {
        assert name[p] == x[p];
      }
      assert e == name[j..];
    }
  }

  /** A file name has extension `x` (a word without dots) exactly when it is `x` or ends with `.x`. */
  lemma ExtensionIs(name: string, x: string)
    requires '.' !in x
    ensures Extension(name) == x <==> name == x || EndsWith(name, "." + x)
  {
    LastPieceIs(name, ".", x, Extension(name));
  }

  /** The last piece `e` of a split on a one-element separator is `x` (free of it) exactly when the text is `x` or ends with the separator and `x`. */
  lemma LastPieceIs<T>(s: seq<T>, sep: seq<T>, x: seq<T>, e: seq<T>)
    requires |sep| == 1 && sep[0] !in x && e == LastOf(Split(s, sep))
    ensures e == x <==> s == x || EndsWith(s, sep + x)
  {
    LastPieceFree(s, sep);
    LastPiece(s, sep);
    SuffixAfterLast(s, e, x, sep);
  }

  /** The names the server treats as pages: `html`, `htm`, or any name ending in `.html` or `.htm`. */
  predicate PageName(name: string) {
    name == "html" || name == "htm" || EndsWith(name, ".html") || EndsWith(name, ".htm")
  }

  /** A name is a page name exactly when its extension is `html` or `htm`. */
  lemma PageExtension(name: string)
    ensures Extension(name) == "html" || Extension(name) == "htm" <==> PageName(name)
  {
    PageWords();
    ExtensionIs(name, "html");
    ExtensionIs(name, "htm");
  }

  /** Proof aid on literal strings only: the two page extensions hold no dot, and a dot before each spells the suffix a page name ends with. */
  lemma PageWords()
    ensures '.' !in "html" && '.' !in "htm"
    ensures "." + "html" == ".html" && "." + "htm" == ".htm"
  {
  }

  /**
   * The answer for a request target: the first character is dropped and the
   * rest is looked up under the working directory. A missing path gives 404;
   * an existing one that is not named like a page gives 403; a page-named
   * file gives 200 with its text; a page-named directory cannot be read.
   */
  function GetResponseForRequestedFile(fs: FileSystem, target: string, date: string): (r: Result<string>)
    ensures var name := PySlice(target, 1, |target|); var path := fs.cwd + "/" + name;
      && (path !in fs.files && path !in fs.dirs ==> r == Ok(CreateResponse(404, "Not Found", "", date)))
      && ((path in fs.files || path in fs.dirs) && !PageName(name) ==> r == Ok(CreateResponse(403, "Forbidden", "", date)))
      && (path in fs.files && PageName(name) ==> r == Ok(CreateResponse(200, "OK", fs.files[path], date)))
      && (path !in fs.files && path in fs.dirs && PageName(name) ==> r == Raised(IsADirectoryError))
  {
    var name := PySlice(target, 1, |target|);
    var extension := Extension(name);
    var path := fs.cwd + "/" + name;
    PageExtension(name);
    if path in fs.files || path in fs.dirs then
      if extension != "html" && extension != "htm" then Ok(CreateResponse(403, "Forbidden", "", date))
      else if path in fs.files then Ok(CreateResponse(200, "OK", fs.files[path], date))
      else Raised(IsADirectoryError)
    else Ok(CreateResponse(404, "Not Found", "", date))
  }

  /** A request: its target is read from the request line and answered from the file system. */
  function ParseClientRequest(fs: FileSystem, request: string, date: string): (r: Result<string>)
    ensures r.Ok? || r == Exit(7) || r == Raised(IndexError) || r == Raised(IsADirectoryError)
    ensures r == Raised(IsADirectoryError) ==> RequestTarget(request).Ok?
    ensures r.Ok? ==> StartsWith(r.value, "HTTP/1.1 ")
  {
    match RequestTarget(request)
    case Ok(target) => AnswerStartsWithStatus(fs, target, date); GetResponseForRequestedFile(fs, target, date)
    case Exit(code) => Exit(code)
    case Raised(e) => Raised(e)
  }

  /** Every answer the lookup gives starts with an HTTP/1.1 status line. */
  lemma AnswerStartsWithStatus(fs: FileSystem, target: string, date: string)
    ensures var r := GetResponseForRequestedFile(fs, target, date);
      r.Ok? ==> StartsWith(r.value, "HTTP/1.1 ")
  {
    var r := GetResponseForRequestedFile(fs, target, date);
    if r.Ok? {
      var name := PySlice(target, 1, |target|);
      var path := fs.cwd + "/" + name;
      if path in fs.files && PageName(name) {
        StatusLineStart(200, "OK", r.value);
      } else if path in fs.files || path in fs.dirs {
        StatusLineStart(403, "Forbidden", r.value);
      } else {
        StatusLineStart(404, "Not Found", r.value);
      }
    }
  }
}
