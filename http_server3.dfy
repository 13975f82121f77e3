/**
 * The product web API of P1 (`http_server3.py`): `GET /product?a=1&b=2`
 * answers with a JSON document listing the operands and their product. The
 * reading of a number (`float`) and the JSON text (the product, its
 * infinities and `json.dumps`) are parameters `parse` and `render`; the Date
 * header text is a parameter.
 */
module HttpServer3 {
  import opened Base
  import opened Http

  /** The header lines after the status line of a success response. */
  function ResponseHeaders(content: string, date: string): seq<string> {
    [Field("Content-Length", NatToString(|content|)), Field("Connection", "close"),
     Field("Content-Type", "application/json; charset=UTF-8"), Field("Date", date + " GMT")]
  }

  /**
   * The response text. A success (code below 400) is the status line and the
   * header lines, each ended by CRLF, then CRLF and the body; an error is the
   * status line and one CRLF, nothing more.
   */
  function CreateResponse(code: nat, phrase: string, content: string, date: string): (r: string)
    ensures StartsWith(r, StatusLine(code, phrase) + CRLF)
    ensures code < 400 ==> EndsWith(r, BLANK + content)
    ensures code >= 400 ==> r == StatusLine(code, phrase) + CRLF
  {
    var response := StatusLine(code, phrase) + CRLF;
    if code < 400 then
      var lines := [StatusLine(code, phrase)] + ResponseHeaders(content, date);
      LinesEnd(lines);
      Message(lines, content)
    else
      response
  }

  /** An error response never reaches a blank line: it has no end-of-headers marker. */
  lemma ErrorResponseUnterminated(code: nat, phrase: string, date: string)
    requires code >= 400 && '\r' !in phrase
    ensures !Contains(CreateResponse(code, phrase, "", date), BLANK)
  {
    StatusOnlyHasNoBlank(code, phrase);
  }

  // ---------------------------------------------------------------------------
  // Query parameters

  /** `param.split("=")[1]`, or `None` where that index does not exist. */
  function ValueText(param: string): Option<string> {
    var parts := Split(param, "=");
    if |parts| < 2 then None else Some(parts[1])
  }

  /** A parameter that has a value and whose value reads as a number. */
  predicate Numeric<F>(param: string, parse: string -> Option<F>) {
    ValueText(param).Some? && parse(ValueText(param).value).Some?
  }

  /** What the parameters amount to: their numbers in order, or the reason the first bad one is bad. */
  datatype Reading<F> = Values(values: seq<F>) | NoValue | NotNumber

  function Operands<F>(params: seq<string>, parse: string -> Option<F>): (r: Reading<F>)
    ensures r.Values? ==> |r.values| == |params|
    decreases |params|
  {
    if params == [] then Values([])
    else
      match Operands(params[..|params| - 1], parse)
      case Values(vs) =>
        var text := ValueText(params[|params| - 1]);
        if text.None? then NoValue
        else if parse(text.value).None? then NotNumber
        else Values(vs + [parse(text.value).value])
      case NoValue => NoValue
      case NotNumber => NotNumber
  }

  /**
   * The parameters give numbers exactly when every one of them is numeric,
   * and then they give one number per parameter, in parameter order.
   */
  lemma {:induction false} OperandsListed<F>(params: seq<string>, parse: string -> Option<F>)
    ensures Operands(params, parse).Values? <==> forall i :: 0 <= i < |params| ==> Numeric(params[i], parse)
    ensures Operands(params, parse).Values? ==>
      && |Operands(params, parse).values| == |params|
      && forall i :: 0 <= i < |params| ==>
           Operands(params, parse).values[i] == parse(ValueText(params[i]).value).value
    decreases |params|
  {
    if params != [] {
      var init := params[..|params| - 1];
      OperandsListed(init, parse);
      forall i | 0 <= i < |init| ensures init[i] == params[i] { }
    }
  }

  /**
   * When the parameters do not all give numbers, the first bad one decides:
   * no `=` in it gives `NoValue`, a value that is not a number `NotNumber`.
   */
  lemma {:induction false} OperandsFirstBad<F>(params: seq<string>, parse: string -> Option<F>)
    requires !Operands(params, parse).Values?
    ensures exists j ::
      && 0 <= j < |params|
      && (forall i :: 0 <= i < j ==> Numeric(params[i], parse))
      && !Numeric(params[j], parse)
      && (Operands(params, parse).NoValue? <==> ValueText(params[j]).None?)
    decreases |params|
  {
    var init := params[..|params| - 1];
    var j := |params| - 1;
    if Operands(init, parse).Values? {
      OperandsListed(init, parse);
      assert forall i :: 0 <= i < j ==> Numeric(params[i], parse) by {
        forall i | 0 <= i < j ensures Numeric(params[i], parse) {
          assert init[i] == params[i];
        }
      }
    } else {
      OperandsFirstBad(init, parse);
      var k :| 0 <= k < |init|
        && (forall i :: 0 <= i < k ==> Numeric(init[i], parse))
        && !Numeric(init[k], parse)
        && (Operands(init, parse).NoValue? <==> ValueText(init[k]).None?);
      assert forall i :: 0 <= i <= k ==> init[i] == params[i];
    }
  }

  /** Once a prefix of the parameters fails, the whole list fails the same way. */
  lemma {:induction false} OperandsStop<F>(params: seq<string>, k: nat, parse: string -> Option<F>)
    requires k <= |params| && !Operands(params[..k], parse).Values?
    ensures Operands(params, parse) == Operands(params[..k], parse)
    decreases |params| - k
  {
    if k < |params| {
      assert params[..k + 1][..k] == params[..k];
      OperandsStop(params, k + 1, parse);
    } else {
      assert params[..k] == params;
    }
  }

  /**
   * The answer to a target: 404 unless the part before the first `?` is
   * `/product`; 400 for a missing or empty query; then the `&`-separated
   * parameters decide between `IndexError`, 400 and 200 with the rendered
   * operands.
   */
  function QueryResult<F>(target: string, parse: string -> Option<F>, render: seq<F> -> string, date: string): (r: Result<string>)
    ensures r.Ok? || r == Raised(IndexError)
    ensures r == Raised(IndexError) ==> Split(target, "?")[0] == "/product" && |Split(target, "?")| >= 2
    ensures r.Ok? ==> StartsWith(r.value, "HTTP/1.1 ")
  {
    var params := Split(target, "?");
    if params[0] != "/product" then
      ResponseStart(404, "Not Found", "", date);
      Ok(CreateResponse(404, "Not Found", "", date))
    else if |params| == 1 || params[1] == "" then
      ResponseStart(400, "Bad Request", "", date);
      Ok(CreateResponse(400, "Bad Request", "", date))
    else
      match Operands(Split(params[1], "&"), parse)
      case NoValue => Raised(IndexError)
      case NotNumber =>
        ResponseStart(400, "Bad Request", "", date);
        Ok(CreateResponse(400, "Bad Request", "", date))
      case Values(vs) =>
        ResponseStart(200, "OK", render(vs), date);
        Ok(CreateResponse(200, "OK", render(vs), date))
  }

  /** Proof aid: every response of the product server starts with the protocol name. */
  lemma ResponseStart(code: nat, phrase: string, content: string, date: string)
    ensures StartsWith(CreateResponse(code, phrase, content, date), "HTTP/1.1 ")
  {
    StatusLineStart(code, phrase, CreateResponse(code, phrase, content, date));
  }

  /**
   * `calculate_query_result`'s routing, stated on the target text: 404 when
   * the text before the first `?` is not `/product`, 400 when the query after
   * it is missing or empty.
   */
  lemma QueryRouting<F>(target: string, parse: string -> Option<F>, render: seq<F> -> string, date: string)
    ensures target != "/product" && !StartsWith(target, "/product?") ==>
      QueryResult(target, parse, render, date) == Ok(CreateResponse(404, "Not Found", "", date))
    ensures target == "/product" || target == "/product?" || StartsWith(target, "/product??") ==>
      QueryResult(target, parse, render, date) == Ok(CreateResponse(400, "Bad Request", "", date))
  {
    ProductPath(target);
    if target == "/product" {
      ProductAlone(target);
    } else if target == "/product?" || StartsWith(target, "/product??") {
      EmptyQuery(target);
    }
  }

  /** The text before the first `?` is `/product` exactly when the target is `/product` or starts with `/product?`. */
  lemma ProductPath(target: string)
    ensures Split(target, "?")[0] == "/product" <==> target == "/product" || StartsWith(target, "/product?")
  {
    var i := Find(target, "?");
    if StartsWith(target, "/product?") {
      assert target[8..9] == "/product?"[8..9];
      assert OccursAt(target, "?", 8);
      forall j | 0 <= j < 8 ensures !OccursAt(target, "?", j) {
        assert target[j] == "/product?"[j];
      }
      FindIs(target, "?", 8);
      assert target[..8] == "/product";
    } else if i != -1 {
      assert Split(target, "?")[0] == target[..i];
      assert target[i..i + 1] == "?";
      assert target[i] == '?';
      assert '?' !in "/product";
      if i == 8 {
        assert target[..9] == target[..8] + target[8..9];
      }
    } else if target == "/product" {
      assert Split(target, "?") == [target];
    }
  }

  /** `/product` alone has no query. */
  lemma ProductAlone(target: string)
    requires target == "/product"
    ensures Split(target, "?") == ["/product"]
  {
    AvoidsNoContains(target, "?");
    SplitNoSep(target, "?");
  }

  /** `/product?` followed by nothing or by another `?` has an empty query. */
  lemma EmptyQuery(target: string)
    requires target == "/product?" || StartsWith(target, "/product??")
    ensures |Split(target, "?")| >= 2 && Split(target, "?")[1] == ""
  {
    assert StartsWith(target, "/product?") by {
      if target != "/product?" {
        assert target[..9] == target[..10][..9];
      }
    }
    var rest := target[9..];
    assert rest == [] || rest[0] == '?' by {
      if target != "/product?" {
        assert rest[0] == target[..10][9];
      }
    }
    QueryAfterProduct(target, rest);
  }

  /** Proof aid: after `/product?` the query is the first piece of the rest. */
  lemma QueryAfterProduct(target: string, rest: string)
    requires StartsWith(target, "/product?") && rest == target[9..]
    requires rest == [] || rest[0] == '?'
    ensures |Split(target, "?")| >= 2 && Split(target, "?")[1] == ""
  {
    assert target == "/product" + "?" + rest;
    SplitAt("/product", "?", rest);
    EmptyFirstPiece(rest);
  }

  /** Text that is empty or starts with `?` has an empty first piece. */
  lemma EmptyFirstPiece(rest: string)
    requires rest == [] || rest[0] == '?'
    ensures Split(rest, "?")[0] == ""
  {
    if rest != [] {
      assert OccursAt(rest, "?", 0);
    }
  }

  /** `calculate_query_result`: the loop over the parameters, returning early on the first bad one. */
  method CalculateQueryResult<F>(target: string, parse: string -> Option<F>, render: seq<F> -> string, date: string)
    returns (r: Result<string>)
    ensures r == QueryResult(target, parse, render, date)
  {
    var params := Split(target, "?");
    if params[0] != "/product" {
      return Ok(CreateResponse(404, "Not Found", "", date));
    }
    if |params| == 1 || params[1] == "" {
      return Ok(CreateResponse(400, "Bad Request", "", date));
    }
    var individualParams := Split(params[1], "&");
    var values: seq<F> := [];
    for i := 0 to |individualParams|
      invariant Operands(individualParams[..i], parse) == Values(values)
    {
      assert individualParams[..i + 1][..i] == individualParams[..i];
      var queried := Split(individualParams[i], "=");
      if |queried| < 2 {
        OperandsStop(individualParams, i + 1, parse);
        return Raised(IndexError);
      }
      var value := parse(queried[1]);
      if value.None? {
        OperandsStop(individualParams, i + 1, parse);
        return Ok(CreateResponse(400, "Bad Request", "", date));
      }
      values := values + [value.value];
    }
    assert individualParams[..|individualParams|] == individualParams;
    return Ok(CreateResponse(200, "OK", render(values), date));
  }

  /** A request: its target is read from the request line and answered as a product query. */
  function ParseClientRequest<F>(request: string, parse: string -> Option<F>, render: seq<F> -> string, date: string): (r: Result<string>)
    ensures r.Ok? || r == Exit(7) || r == Raised(IndexError)
    ensures r.Ok? ==> StartsWith(r.value, "HTTP/1.1 ")
  {
    match RequestTarget(request)
    case Ok(target) => QueryResult(target, parse, render, date)
    case Exit(code) => Exit(code)
    case Raised(e) => Raised(e)
  }

  // ---------------------------------------------------------------------------
  // Queries built from names and values

  /** The parameters `name=value`, in order. */
  function Params(names: seq<string>, texts: seq<string>): (ps: seq<string>)
    requires |names| == |texts|
    ensures |ps| == |names|
  {
    seq(|names|, i requires 0 <= i < |names| => names[i] + "=" + texts[i])
  }

  /** A product query whose names and values hold none of `?`, `&`, `=`. */
  predicate PlainWord(w: string) {
    '?' !in w && '&' !in w && '=' !in w
  }

  /**
   * A product query made of `name=value` pairs is answered with 200 and the
   * values read as numbers, in order, when every value is a number, and with
   * 400 otherwise.
   */
  lemma ProductQuery<F>(names: seq<string>, texts: seq<string>, parse: string -> Option<F>, render: seq<F> -> string, date: string)
    requires |names| == |texts| >= 1
    requires forall i :: 0 <= i < |names| ==> PlainWord(names[i]) && PlainWord(texts[i])
    ensures QueryResult("/product?" + Join(Params(names, texts), "&"), parse, render, date) ==
      if forall i :: 0 <= i < |texts| ==> parse(texts[i]).Some? then
        Ok(CreateResponse(200, "OK", render(seq(|texts|, i requires 0 <= i < |texts| && parse(texts[i]).Some? => parse(texts[i]).value)), date))
      else
        Ok(CreateResponse(400, "Bad Request", "", date))
  {
    var ps := Params(names, texts);
    forall i | 0 <= i < |ps| ensures '?' !in ps[i] && Avoids(ps[i], "&") && |ps[i]| > 0 {
      assert ps[i] == names[i] + "=" + texts[i];
    }
    ProductParams(ps, parse, render, date);
    ParamsRead(names, texts);
    OperandsListed(ps, parse);
    var ops := Operands(ps, parse);
    if ops.Values? {
      var expected := seq(|texts|, i requires 0 <= i < |texts| && parse(texts[i]).Some? => parse(texts[i]).value);
      assert ops.values == expected;
    } else {
      OperandsFirstBad(ps, parse);
      assert !(forall i :: 0 <= i < |texts| ==> parse(texts[i]).Some?);
    }
  }

  /** A product query with parameters `ps` is answered by what those parameters read as. */
  lemma ProductParams<F>(ps: seq<string>, parse: string -> Option<F>, render: seq<F> -> string, date: string)
    requires |ps| >= 1
    requires forall i :: 0 <= i < |ps| ==> '?' !in ps[i] && Avoids(ps[i], "&") && |ps[i]| > 0
    ensures QueryResult("/product?" + Join(ps, "&"), parse, render, date) ==
      match Operands(ps, parse)
      case NoValue => Raised(IndexError)
      case NotNumber => Ok(CreateResponse(400, "Bad Request", "", date))
      case Values(vs) => Ok(CreateResponse(200, "OK", render(vs), date))
  {
    ProductTarget(ps);
    SplitJoin(ps, "&");
  }

  /** `/product?` followed by non-empty parameters without `?` splits at that one `?`. */
  lemma ProductTarget(ps: seq<string>)
    requires |ps| >= 1
    requires forall i :: 0 <= i < |ps| ==> '?' !in ps[i] && |ps[i]| > 0
    ensures Split("/product?" + Join(ps, "&"), "?") == ["/product", Join(ps, "&")]
    ensures Join(ps, "&") != ""
  {
    var query := Join(ps, "&");
    JoinFree(ps, "&", '?');
    assert "/product?" + query == "/product" + "?" + query;
    SplitAt("/product", "?", query);
    AvoidsNoContains(query, "?");
    SplitNoSep(query, "?");
    assert |ps| > 1 ==> query == ps[0] + "&" + Join(ps[1..], "&");
  }

  /** Each `name=value` parameter yields its value. */
  lemma ParamsRead(names: seq<string>, texts: seq<string>)
    requires |names| == |texts|
    requires forall i :: 0 <= i < |names| ==> PlainWord(names[i]) && PlainWord(texts[i])
    ensures forall i :: 0 <= i < |names| ==> ValueText(Params(names, texts)[i]) == Some(texts[i])
  {
    forall i | 0 <= i < |names| ensures ValueText(Params(names, texts)[i]) == Some(texts[i]) {
      assert PlainWord(names[i]) && PlainWord(texts[i]);
      SplitAt(names[i], "=", texts[i]);
      AvoidsNoContains(texts[i], "=");
      SplitNoSep(texts[i], "=");
    }
  }
}
