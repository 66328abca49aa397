/**
 * What `run` promises about the whole exchange, stated on `RunSpec`: when it
 * answers at all, when it answers 400, how the request it reads is framed,
 * which body it reads, and which handler the method token selects.
 */
module RequestProperties {
  import opened Wrappers
  import opened Text
  import opened FormUrlEncoded
  import opened HttpMessage
  import opened Pages
  import opened Handler

  // ---------------------------------------------------------------- no request line

  /** End of stream or an empty first line: `run` returns without printing. */
  lemma RunNoRequestLine(input: String, env: Env, charset: Charset, entries: seq<(String, String)>)
    requires HttpMessage.ReadLine(input).0.None? || HttpMessage.ReadLine(input).0.value == []
    ensures RunSpec(input, env, charset, entries) == NoResponse
  {
    assert ReadRequest(input) == NoRequestLine;
  }

  /** An empty stream, and a stream whose first line is empty, have no request line. */
  lemma EmptyLineRequests(rest: String)
    ensures ReadRequest([]) == NoRequestLine
    ensures ReadRequest("\r\n" + rest) == NoRequestLine
  {
    assert [] + "\r\n" + rest == "\r\n" + rest;
    ReadLineTerminated([], "\r\n", rest);
  }

  // ---------------------------------------------------------------- 400 for a short request line

  /** The first line is there, is not empty, and `split(" ")` gives fewer than three tokens. */
  predicate ShortRequestLineIn(input: String) {
    var line := HttpMessage.ReadLine(input).0;
    line.Some? && line.value != [] && |JavaSplit(line.value, ' ')| < 3
  }

  /** The `switch` never answers 400, and answers 405 exactly for a token other than `GET`, `HEAD` and `POST`. */
  lemma DispatchStatus(request: Request, env: Env, charset: Charset, entries: seq<(String, String)>)
    ensures Dispatch(request, env, charset, entries).Respond? ==> Dispatch(request, env, charset, entries).response.status != 400
    ensures (Dispatch(request, env, charset, entries).Respond? && Dispatch(request, env, charset, entries).response.status == 405)
      <==> request.verb !in {"GET", "HEAD", "POST"}
  {
    DispatchRoutes(request, env, charset, entries);
    if request.verb == "GET" {
      GetRouting(request.path, env);
    } else if request.verb == "HEAD" {
      HeadShape(request.path, env);
    } else if request.verb == "POST" {
      PostStatus(request.body, charset, entries, env);
    } else {
      assert MethodNotAllowedResponse().status == 405;
    }
  }

  lemma PostStatus(body: String, charset: Charset, entries: seq<(String, String)>, env: Env)
    ensures PostOutcome(body, charset, entries, env).Respond? ==> PostOutcome(body, charset, entries, env).response.status == 200
  {
    match FormParams(body, charset)
    case None =>
    case Some(params) =>
      assert PostResponse(body, params, entries, env).status == 200;
  }

  /** `run` answers 400 exactly when the request line has fewer than three tokens, and then with `sendBadRequest`'s response. */
  lemma RunBadRequest(input: String, env: Env, charset: Charset, entries: seq<(String, String)>)
    ensures (RunSpec(input, env, charset, entries).Respond? && RunSpec(input, env, charset, entries).response.status == 400)
      <==> ShortRequestLineIn(input)
    ensures ShortRequestLineIn(input) ==> RunSpec(input, env, charset, entries) == Respond(BadRequestResponse())
  {
    match ReadRequest(input)
    case NoRequestLine =>
    case ShortRequestLine =>
      assert BadRequestResponse().status == 400;
    case BadContentLength =>
    case Complete(request) =>
      DispatchStatus(request, env, charset, entries);
  }

  /**
   * `"GET /"` and `"GET / "` both split into two tokens, since `split` drops
   * the trailing empty one: as request lines they get 400 (`RunShortLine`).
   */
  lemma TwoTokenLines()
    ensures JavaSplit("GET /", ' ') == ["GET", "/"]
    ensures JavaSplit("GET / ", ' ') == ["GET", "/"]
  {
    var parts := ["GET", "/"];
    assert NoneContains(parts, ' ') by {
      forall i | 0 <= i < |parts| ensures ' ' !in parts[i] {
        if i == 0 { assert parts[0] == "GET"; }
      }
    }
    assert parts[1..] == ["/"];
    assert Join(parts, ' ') == "GET /";
    JavaSplitJoin(parts, ' ');
    var longer := parts + [[]];
    assert longer == ["GET", "/", ""];
    assert longer[1..] == ["/", ""] && longer[1..][1..] == [""];
    assert Join(longer[1..][1..], ' ') == "";
    assert Join(longer[1..], ' ') == "/" + " " + "";
    assert Join(longer, ' ') == "GET" + " " + ("/" + " " + "");
    assert "GET" + " " + ("/" + " " + "") == "GET / ";
    JavaSplitTrailing(parts, ' ');
  }

  /** A terminated request line of fewer than three tokens gets 400, whatever follows it. */
  lemma RunShortLine(line: String, rest: String, env: Env, charset: Charset, entries: seq<(String, String)>)
    requires line != [] && NoEol(line) && |JavaSplit(line, ' ')| < 3
    ensures RunSpec(line + "\r\n" + rest, env, charset, entries) == Respond(BadRequestResponse())
  {
    ShortLineRequest(line, rest);
  }

  lemma ShortLineRequest(line: String, rest: String)
    requires line != [] && NoEol(line) && |JavaSplit(line, ' ')| < 3
    ensures ReadRequest(line + "\r\n" + rest) == ShortRequestLine
  {
    ReadLineTerminated(line, "\r\n", rest);
  }

  // ---------------------------------------------------------------- framing of the request

  /** A token of the request line: not empty, without a space or a line terminator. */
  predicate IsToken(t: String) {
    t != [] && ' ' !in t && NoEol(t)
  }

  /** A request as a client writes it: request line, header lines, an empty line, then whatever follows. */
  function RequestText(verb: String, path: String, protocol: String, lines: seq<String>, rest: String): String {
    verb + " " + path + " " + protocol + "\r\n" + CrlfLines(lines) + "\r\n" + rest
  }

  /** The request line of three tokens splits back into them. */
  lemma RequestLineTokens(verb: String, path: String, protocol: String)
    requires IsToken(verb) && IsToken(path) && IsToken(protocol)
    ensures NoEol(verb + " " + path + " " + protocol)
    ensures JavaSplit(verb + " " + path + " " + protocol, ' ') == [verb, path, protocol]
  {
    var parts := [verb, path, protocol];
    assert parts[1..] == [path, protocol] && parts[1..][1..] == [protocol];
    assert Join(parts[1..][1..], ' ') == protocol;
    assert Join(parts[1..], ' ') == path + " " + protocol;
    assert Join(parts, ' ') == verb + " " + (path + " " + protocol);
    assert verb + " " + (path + " " + protocol) == verb + " " + path + " " + protocol;
    assert NoneContains(parts, ' ') by {
      forall i | 0 <= i < |parts| ensures ' ' !in parts[i] {
        if i == 0 { assert parts[i] == verb; } else if i == 1 { assert parts[i] == path; } else { assert parts[i] == protocol; }
      }
    }
    JavaSplitJoin(parts, ' ');
    assert NoEol(" ");
    NoEolAppend(verb, " ");
    NoEolAppend(verb + " ", path);
    NoEolAppend(verb + " " + path, " ");
    NoEolAppend(verb + " " + path + " ", protocol);
  }

  /**
   * `run` reads back the tokens of the request line and the headers of the
   * header lines, and the body, if any, from what follows the empty line.
   */
  lemma ReadRequestFraming(verb: String, path: String, protocol: String, lines: seq<String>, rest: String)
    requires IsToken(verb) && IsToken(path) && IsToken(protocol)
    requires forall i :: 0 <= i < |lines| ==> lines[i] != [] && NoEol(lines[i])
    ensures ReadRequest(RequestText(verb, path, protocol, lines, rest)) == ReadBody(verb, path, protocol, HeaderMap(lines), rest)
  {
    var line := verb + " " + path + " " + protocol;
    var after := CrlfLines(lines) + "\r\n" + rest;
    RequestLineTokens(verb, path, protocol);
    assert RequestText(verb, path, protocol, lines, rest) == line + "\r\n" + after;
    ReadLineTerminated(line, "\r\n", after);
    HeaderLinesFraming(lines, rest);
  }

  // ---------------------------------------------------------------- the body

  /**
   * The body is read only for `POST` with a `Content-Length` header: that many
   * characters of what follows the headers, NUL-padded where the stream ends;
   * a length that does not parse, or is negative, ends `run` without a response.
   */
  lemma ReadBodyRule(verb: String, path: String, protocol: String, headers: map<String, String>, rest: String)
    ensures ReadBody(verb, path, protocol, headers, rest) == BadContentLength <==>
      (verb == "POST" && "Content-Length" in headers
       && (ParseInt(headers["Content-Length"]).None? || ParseInt(headers["Content-Length"]).value < 0))
    ensures ReadBody(verb, path, protocol, headers, rest).Complete? || ReadBody(verb, path, protocol, headers, rest) == BadContentLength
    ensures var read := ReadBody(verb, path, protocol, headers, rest);
      read.Complete? ==>
        && read.request == Request(verb, path, protocol, headers, read.request.body)
        && |read.request.body| == (if verb == "POST" && "Content-Length" in headers then ParseInt(headers["Content-Length"]).value else 0)
        && forall i :: 0 <= i < |read.request.body| ==> read.request.body[i] == if i < |rest| then rest[i] else '\0'
  {
  }

  /** A `Content-Length` written as the decimal of `n` makes `run` read a body of exactly `n` characters. */
  lemma ReadBodyDeclaredLength(path: String, protocol: String, headers: map<String, String>, rest: String, n: nat)
    requires "Content-Length" in headers && headers["Content-Length"] == Decimal(n) && n <= MaxInt
    ensures ReadBody("POST", path, protocol, headers, rest).Complete?
    ensures ReadBody("POST", path, protocol, headers, rest).request.body == TakePadded(rest, n)
  {
    ParseDecimal(n);
  }

  // ---------------------------------------------------------------- the method token

  /** The match on the method token is exact: `get` is not `GET`. */
  lemma LowercaseGetNotAllowed(request: Request, env: Env, charset: Charset, entries: seq<(String, String)>)
    requires request.verb == "get"
    ensures Dispatch(request, env, charset, entries) == Respond(MethodNotAllowedResponse())
  {
    assert request.verb !in {"GET", "HEAD", "POST"};
    DispatchRoutes(request, env, charset, entries);
  }

  /** A well-framed `GET` is answered by the GET routing, whatever its headers say. */
  lemma RunGet(path: String, protocol: String, lines: seq<String>, rest: String, env: Env, charset: Charset, entries: seq<(String, String)>)
    requires IsToken(path) && IsToken(protocol)
    requires forall i :: 0 <= i < |lines| ==> lines[i] != [] && NoEol(lines[i])
    ensures RunSpec(RequestText("GET", path, protocol, lines, rest), env, charset, entries) == Respond(GetResponse(path, env))
  {
    assert IsToken("GET");
    ReadRequestFraming("GET", path, protocol, lines, rest);
    DispatchRoutes(Request("GET", path, protocol, HeaderMap(lines), []), env, charset, entries);
  }

  /** A well-framed `HEAD` gets the header-only answer. */
  lemma RunHead(path: String, protocol: String, lines: seq<String>, rest: String, env: Env, charset: Charset, entries: seq<(String, String)>)
    requires IsToken(path) && IsToken(protocol)
    requires forall i :: 0 <= i < |lines| ==> lines[i] != [] && NoEol(lines[i])
    ensures RunSpec(RequestText("HEAD", path, protocol, lines, rest), env, charset, entries) == Respond(HeadResponse(path, env))
  {
    assert IsToken("HEAD");
    ReadRequestFraming("HEAD", path, protocol, lines, rest);
    DispatchRoutes(Request("HEAD", path, protocol, HeaderMap(lines), []), env, charset, entries);
  }

  /** Any other well-framed token gets 405. */
  lemma RunOtherMethod(verb: String, path: String, protocol: String, lines: seq<String>, rest: String, env: Env, charset: Charset, entries: seq<(String, String)>)
    requires IsToken(verb) && IsToken(path) && IsToken(protocol) && verb !in {"GET", "HEAD", "POST"}
    requires forall i :: 0 <= i < |lines| ==> lines[i] != [] && NoEol(lines[i])
    ensures RunSpec(RequestText(verb, path, protocol, lines, rest), env, charset, entries) == Respond(MethodNotAllowedResponse())
  {
    ReadRequestFraming(verb, path, protocol, lines, rest);
    DispatchRoutes(Request(verb, path, protocol, HeaderMap(lines), []), env, charset, entries);
  }

  /** A well-framed `POST` whose `Content-Length` does not parse, or is negative, gets no response. */
  lemma RunPostBadLength(path: String, protocol: String, lines: seq<String>, rest: String, env: Env, charset: Charset, entries: seq<(String, String)>)
    requires IsToken(path) && IsToken(protocol)
    requires forall i :: 0 <= i < |lines| ==> lines[i] != [] && NoEol(lines[i])
    requires "Content-Length" in HeaderMap(lines)
    requires ParseInt(HeaderMap(lines)["Content-Length"]).None? || ParseInt(HeaderMap(lines)["Content-Length"]).value < 0
    ensures RunSpec(RequestText("POST", path, protocol, lines, rest), env, charset, entries) == NoResponse
  {
    assert IsToken("POST");
    ReadRequestFraming("POST", path, protocol, lines, rest);
    assert ReadRequest(RequestText("POST", path, protocol, lines, rest)) == BadContentLength;
  }

  /** A well-framed `POST` declaring `n` characters has those `n` characters decoded as its form. */
  lemma RunPost(path: String, protocol: String, lines: seq<String>, rest: String, n: nat, env: Env, charset: Charset, entries: seq<(String, String)>)
    requires IsToken(path) && IsToken(protocol)
    requires forall i :: 0 <= i < |lines| ==> lines[i] != [] && NoEol(lines[i])
    requires "Content-Length" in HeaderMap(lines) && HeaderMap(lines)["Content-Length"] == Decimal(n) && n <= MaxInt
    ensures RunSpec(RequestText("POST", path, protocol, lines, rest), env, charset, entries) ==
      PostOutcome(TakePadded(rest, n), charset, entries, env)
  {
    var request := Request("POST", path, protocol, HeaderMap(lines), TakePadded(rest, n));
    ReadPostRequest(path, protocol, lines, rest, n);
    DispatchRoutes(request, env, charset, entries);
  }

  /**
   * A well-framed `POST` gets no answer exactly when some kept `&`-piece of the
   * body it read holds a malformed escape; otherwise it gets the 200 page.
   */
  lemma RunPostBadEscape(path: String, protocol: String, lines: seq<String>, rest: String, n: nat, env: Env, charset: Charset, entries: seq<(String, String)>)
    requires IsToken(path) && IsToken(protocol)
    requires forall i :: 0 <= i < |lines| ==> lines[i] != [] && NoEol(lines[i])
    requires "Content-Length" in HeaderMap(lines) && HeaderMap(lines)["Content-Length"] == Decimal(n) && n <= MaxInt
    ensures var body := TakePadded(rest, n);
      (RunSpec(RequestText("POST", path, protocol, lines, rest), env, charset, entries) == NoResponse) <==>
      (exists i :: 0 <= i < |JavaSplit(body, '&')| && BadPiece(JavaSplit(body, '&')[i]))
    ensures RunSpec(RequestText("POST", path, protocol, lines, rest), env, charset, entries).Respond? ==>
      RunSpec(RequestText("POST", path, protocol, lines, rest), env, charset, entries).response.status == 200
  {
    var body := TakePadded(rest, n);
    RunPost(path, protocol, lines, rest, n, env, charset, entries);
    FormParamsBadEscape(body, charset);
    PostStatus(body, charset, entries, env);
  }

  lemma ReadPostRequest(path: String, protocol: String, lines: seq<String>, rest: String, n: nat)
    requires IsToken(path) && IsToken(protocol)
    requires forall i :: 0 <= i < |lines| ==> lines[i] != [] && NoEol(lines[i])
    requires "Content-Length" in HeaderMap(lines) && HeaderMap(lines)["Content-Length"] == Decimal(n) && n <= MaxInt
    ensures ReadRequest(RequestText("POST", path, protocol, lines, rest)) ==
      Complete(Request("POST", path, protocol, HeaderMap(lines), TakePadded(rest, n)))
  {
    assert IsToken("POST");
    ReadRequestFraming("POST", path, protocol, lines, rest);
    ReadBodyDeclaredLength(path, protocol, HeaderMap(lines), rest, n);
  }

  // ---------------------------------------------------------------- framing of the answer

  /** Every response the `switch` sends is framed as a reader expects, when the clock's text has no line break. */
  lemma DispatchWellFormed(request: Request, env: Env, charset: Charset, entries: seq<(String, String)>)
    requires NoEol(env.date) && NoEol(env.lastModified)
    ensures Dispatch(request, env, charset, entries).Respond? ==> WellFormed(Dispatch(request, env, charset, entries).response)
  {
    DispatchRoutes(request, env, charset, entries);
    if request.verb == "GET" {
      GetResponseWellFormed(request.path, env);
    } else if request.verb == "HEAD" {
      HeadResponseWellFormed(request.path, env);
    } else if request.verb == "POST" {
      match FormParams(request.body, charset)
      case None =>
      case Some(params) =>
        PostOutcomeAccepted(request.body, charset, entries, env, params);
        PostResponseWellFormed(request.body, params, entries, env);
    } else {
      MethodNotAllowedWellFormed();
    }
  }

  /**
   * Whatever `run` answers is framed as a reader expects: its status line,
   * one line per header that splits back into name and value, and the body.
   */
  lemma RunWellFormed(input: String, env: Env, charset: Charset, entries: seq<(String, String)>)
    requires NoEol(env.date) && NoEol(env.lastModified)
    ensures RunSpec(input, env, charset, entries).Respond? ==> WellFormed(RunSpec(input, env, charset, entries).response)
  {
    match ReadRequest(input)
    case NoRequestLine =>
    case ShortRequestLine => BadRequestWellFormed();
    case BadContentLength =>
    case Complete(request) => DispatchWellFormed(request, env, charset, entries);
  }
}
