/**
 * `RequestHandler`: one request read from a socket and one response printed
 * back. The socket is a `Connection` holding the characters the client sent,
 * how many of them the reader has consumed, and what the handler has printed.
 * `RunSpec` is the same request-to-response pipeline as a function, and the
 * handler's methods are proved to print exactly what it says.
 */
module Handler {
  import opened Wrappers
  import opened Text
  import opened FormUrlEncoded
  import opened HttpMessage
  import opened Pages

  // ---------------------------------------------------------------- the socket

  function Min(a: nat, b: nat): nat { if a <= b then a else b }

  /** A fresh `char[n]` filled by `in.read(buf, 0, n)`: the next `n` characters, NUL where the stream ends first. */
  function TakePadded(s: String, n: nat): (r: String)
    ensures |r| == n
    ensures forall i :: 0 <= i < n ==> r[i] == if i < |s| then s[i] else '\0'
  {
    if n <= |s| then s[..n] else s + seq(n - |s|, _ => '\0')
  }

  class Connection {
    /** Everything the client sends on this connection. */
    const input: String
    /** How many characters the `BufferedReader` has handed out. */
    var consumed: nat
    /** Everything printed to the socket's output stream. */
    var output: String

    constructor(input: String)
      ensures this.input == input && consumed == 0 && output == []
    {
      this.input := input;
      consumed := 0;
      output := [];
    }

    predicate Valid()
      reads this
    {
      consumed <= |input|
    }

    /** What the reader has not handed out yet. */
    function Unread(): String
      reads this
      requires Valid()
    {
      input[consumed..]
    }

    /** `in.readLine()`. */
    method ReadLine() returns (line: Option<String>)
      requires Valid()
      modifies this
      ensures Valid() && output == old(output)
      ensures (line, Unread()) == HttpMessage.ReadLine(old(Unread()))
    {
      var r := HttpMessage.ReadLine(input[consumed..]);
      assert input[consumed..][|input[consumed..]| - |r.1|..] == input[|input| - |r.1|..];
      line := r.0;
      consumed := |input| - |r.1|;
    }

    /** `in.read(buf, 0, n)` into a fresh `char[n]`, returned as a string. */
    method Read(n: nat) returns (chars: String)
      requires Valid()
      modifies this
      ensures Valid() && output == old(output)
      ensures chars == TakePadded(old(Unread()), n)
      ensures Unread() == old(Unread())[Min(n, |old(Unread())|)..]
    {
      chars := TakePadded(input[consumed..], n);
      consumed := consumed + Min(n, |input| - consumed);
    }

    /** `out.print(s)` on the socket's `PrintWriter`. */
    method Print(s: String)
      modifies this
      ensures output == old(output) + s && consumed == old(consumed)
    {
      output := output + s;
    }
  }

  // ---------------------------------------------------------------- the pipeline as a function

  datatype Request = Request(verb: String, path: String, protocol: String, headers: map<String, String>, body: String)

  /** How far reading a request gets. */
  datatype ReadResult =
    | NoRequestLine                // end of stream or an empty first line
    | ShortRequestLine             // fewer than three tokens
    | BadContentLength             // `Content-Length` not a number, or negative
    | Complete(request: Request)

  /** The body `run` reads: only for `POST` with a `Content-Length` header. */
  function ReadBody(verb: String, path: String, protocol: String, headers: map<String, String>, rest: String): ReadResult {
    if verb == "POST" && "Content-Length" in headers then
      match ParseInt(headers["Content-Length"])
      case None => BadContentLength
      case Some(n) =>
        if n < 0 then BadContentLength
        else Complete(Request(verb, path, protocol, headers, TakePadded(rest, n)))
    else Complete(Request(verb, path, protocol, headers, []))
  }

  /** The reading part of `run`: request line, header lines up to the empty line, body. */
  function ReadRequest(input: String): ReadResult {
    var first := HttpMessage.ReadLine(input);
    if first.0.None? || first.0.value == [] then NoRequestLine
    else
      var parts := JavaSplit(first.0.value, ' ');
      if |parts| < 3 then ShortRequestLine
      else ReadAfterRequestLine(parts[0], parts[1], parts[2], first.1)
  }

  /** What `run` reads after a well-formed request line: the headers, then the body. */
  function ReadAfterRequestLine(verb: String, path: String, protocol: String, rest: String): ReadResult {
    var lines := HeaderLines(rest);
    ReadBody(verb, path, protocol, HeaderMap(lines.0), lines.1)
  }

  datatype Outcome = NoResponse | Respond(response: Response)

  /**
   * The `switch` of `run`. A POST body that the form decoder rejects throws
   * before anything is printed. `entries` is the order in which the parameter
   * map is iterated.
   */
  function Dispatch(request: Request, env: Env, charset: Charset, entries: seq<(String, String)>): Outcome {
    if request.verb == "GET" then Respond(GetResponse(request.path, env))
    else if request.verb == "HEAD" then Respond(HeadResponse(request.path, env))
    else if request.verb == "POST" then PostOutcome(request.body, charset, entries, env)
    else Respond(MethodNotAllowedResponse())
  }

  /** `handlePOST`: the page of the decoded parameters, or nothing when decoding throws. */
  function PostOutcome(body: String, charset: Charset, entries: seq<(String, String)>, env: Env): Outcome {
    match FormParams(body, charset)
    case None => NoResponse
    case Some(params) => Respond(PostResponse(body, params, entries, env))
  }

  lemma PostOutcomeRejected(body: String, charset: Charset, entries: seq<(String, String)>, env: Env)
    requires FormParams(body, charset).None?
    ensures PostOutcome(body, charset, entries, env) == NoResponse
  {
  }

  lemma PostOutcomeAccepted(body: String, charset: Charset, entries: seq<(String, String)>, env: Env, params: map<String, String>)
    requires FormParams(body, charset) == Some(params)
    ensures PostOutcome(body, charset, entries, env) == Respond(PostResponse(body, params, entries, env))
  {
  }

  /** What `run` sends for the client's input. */
  function RunSpec(input: String, env: Env, charset: Charset, entries: seq<(String, String)>): Outcome {
    Answer(ReadRequest(input), env, charset, entries)
  }

  /** The response to what was read: 400 for a short request line, nothing when reading stopped early. */
  function Answer(read: ReadResult, env: Env, charset: Charset, entries: seq<(String, String)>): Outcome {
    match read
    case NoRequestLine => NoResponse
    case ShortRequestLine => Respond(BadRequestResponse())
    case BadContentLength => NoResponse
    case Complete(request) => Dispatch(request, env, charset, entries)
  }

  /** The characters an outcome puts on the wire. */
  function Wire(o: Outcome): String {
    if o.NoResponse? then [] else Serialize(o.response)
  }

  /** Which handler the `switch` picks for each method token. */
  lemma DispatchRoutes(request: Request, env: Env, charset: Charset, entries: seq<(String, String)>)
    ensures request.verb == "GET" ==> Dispatch(request, env, charset, entries) == Respond(GetResponse(request.path, env))
    ensures request.verb == "HEAD" ==> Dispatch(request, env, charset, entries) == Respond(HeadResponse(request.path, env))
    ensures request.verb == "POST" ==> Dispatch(request, env, charset, entries) == PostOutcome(request.body, charset, entries, env)
    ensures request.verb !in {"GET", "HEAD", "POST"} ==> Dispatch(request, env, charset, entries) == Respond(MethodNotAllowedResponse())
  {
  }

  lemma WireRespond(r: Response)
    ensures Wire(Respond(r)) == Serialize(r)
  {
  }

  /** `entries` is an iteration order of the parameters, whenever `run` gets as far as rendering them. */
  predicate OrdersParams(input: String, charset: Charset, entries: seq<(String, String)>) {
    OrdersRequestParams(ReadRequest(input), charset, entries)
  }

  predicate OrdersRequestParams(read: ReadResult, charset: Charset, entries: seq<(String, String)>) {
    read.Complete? && read.request.verb == "POST" && FormParams(read.request.body, charset).Some? ==>
      IsEntryOrder(entries, FormParams(read.request.body, charset).value)
  }

  // ---------------------------------------------------------------- proof plumbing: the printed lines

  // The lemmas of this section only spell out, for the verifier, the text of
  // the lines the handlers print and how consecutive prints concatenate; they
  // state nothing about the handler.

  /** A header line is its name's prefix `name: `, then the value, then CRLF. */
  lemma FieldLineOf(name: String, value: String, prefix: String)
    requires prefix == name + ": "
    ensures FieldLine(name, value) + "\r\n" == prefix + value + "\r\n"
  {
  }

  // The wording of the fixed header lines.

  lemma ContentTypeHtmlLine()
    ensures FieldLine(ContentTypeHtmlUtf8.0, ContentTypeHtmlUtf8.1) + "\r\n" == "Content-Type: text/html; charset=UTF-8\r\n"
  {
    ContentTypeHtmlText(ContentTypeHtmlUtf8.0, ContentTypeHtmlUtf8.1);
  }

  lemma ContentTypeHtmlText(name: String, value: String)
    requires name == "Content-Type" && value == "text/html; charset=UTF-8"
    ensures name + ": " + value + "\r\n" == "Content-Type: text/html; charset=UTF-8\r\n"
  {
  }

  lemma ServerLine()
    ensures FieldLine(ServerHeader.0, ServerHeader.1) + "\r\n" == "Server: MyHTTPServer/1.0\r\n"
  {
    ServerText(ServerHeader.0, ServerHeader.1);
  }

  lemma ServerText(name: String, value: String)
    requires name == "Server" && value == "MyHTTPServer/1.0"
    ensures name + ": " + value + "\r\n" == "Server: MyHTTPServer/1.0\r\n"
  {
  }

  lemma ConnectionLine()
    ensures FieldLine(ConnectionClose.0, ConnectionClose.1) + "\r\n" == "Connection: close\r\n"
  {
  }

  lemma ContentTypeLine()
    ensures FieldLine("Content-Type", "text/html") + "\r\n" == "Content-Type: text/html\r\n"
  {
  }

  lemma AllowLine()
    ensures FieldLine("Allow", "GET, HEAD, POST") + "\r\n" == "Allow: GET, HEAD, POST\r\n"
  {
  }

  lemma OkStatusLine()
    ensures "HTTP/1.1 " + Decimal(200) + " " + "OK" + "\r\n" == "HTTP/1.1 200 OK\r\n"
  {
    DecimalLiterals();
  }

  lemma NotFoundStatusLine()
    ensures "HTTP/1.1 " + Decimal(404) + " " + "Not Found" + "\r\n" == "HTTP/1.1 404 Not Found\r\n"
  {
    DecimalLiterals();
  }

  lemma BadRequestStatusLine()
    ensures StatusLine(BadRequestResponse()) + "\r\n" == "HTTP/1.1 400 Bad Request\r\n"
  {
    var r := BadRequestResponse();
    assert r.status == 400 && r.reason == "Bad Request";
    DecimalLiterals();
    BadRequestStatusText(Decimal(400));
  }

  lemma BadRequestStatusText(code: String)
    requires code == "400"
    ensures "HTTP/1.1 " + code + " " + "Bad Request" + "\r\n" == "HTTP/1.1 400 Bad Request\r\n"
  {
  }

  lemma MethodNotAllowedStatusLine()
    ensures StatusLine(MethodNotAllowedResponse()) + "\r\n" == "HTTP/1.1 405 Method Not Allowed\r\n"
  {
    var r := MethodNotAllowedResponse();
    assert r.status == 405 && r.reason == "Method Not Allowed";
    DecimalLiterals();
    MethodNotAllowedStatusText(Decimal(405));
  }

  lemma MethodNotAllowedStatusText(code: String)
    requires code == "405"
    ensures "HTTP/1.1 " + code + " " + "Method Not Allowed" + "\r\n" == "HTTP/1.1 405 Method Not Allowed\r\n"
  {
  }

  // Printing line after line appends the concatenation of the lines.

  lemma AppendAssoc<T>(a: seq<T>, b: seq<T>, c: seq<T>)
    ensures a + (b + c) == a + b + c
  {
  }

  lemma PrintLines3<T>(o: seq<T>, a: seq<T>, b: seq<T>, c: seq<T>)
    ensures o + a + b + c == o + (a + b + c)
  {
  }

  lemma PrintLines4<T>(o: seq<T>, a: seq<T>, b: seq<T>, c: seq<T>, d: seq<T>)
    ensures o + a + b + c + d == o + (a + b + c + d)
  {
  }

  lemma PrintLines5<T>(o: seq<T>, a: seq<T>, b: seq<T>, c: seq<T>, d: seq<T>, e: seq<T>)
    ensures o + a + b + c + d + e == o + (a + b + c + d + e)
  {
  }

  lemma PrintLines6<T>(o: seq<T>, a: seq<T>, b: seq<T>, c: seq<T>, d: seq<T>, e: seq<T>, f: seq<T>)
    ensures o + a + b + c + d + e + f == o + (a + b + c + d + e + f)
  {
  }

  lemma PrintLines8<T>(o: seq<T>, a: seq<T>, b: seq<T>, c: seq<T>, d: seq<T>, e: seq<T>, f: seq<T>, g: seq<T>, h: seq<T>)
    ensures o + a + b + c + d + e + f + g + h == o + (a + b + c + d + e + f + g + h)
  {
  }

  /** The header block of `hs`: the line of its first header, then the block of the others. */
  lemma HeaderBlockFirst(hs: seq<(String, String)>, line: String)
    requires hs != [] && line == FieldLine(hs[0].0, hs[0].1) + "\r\n"
    ensures HeaderBlock(hs) == line + HeaderBlock(hs[1..])
  {
  }

  // The header block of one to six headers, and a response with two, three,
  // five or six headers, written out line by line.

  lemma HeaderBlock1(hs: seq<(String, String)>, l1: String)
    requires |hs| == 1
    requires l1 == FieldLine(hs[0].0, hs[0].1) + "\r\n"
    ensures HeaderBlock(hs) == l1
  {
    HeaderBlockFirst(hs, l1);
    assert hs[1..] == [];
  }

  lemma HeaderBlock2(hs: seq<(String, String)>, l1: String, l2: String)
    requires |hs| == 2
    requires l1 == FieldLine(hs[0].0, hs[0].1) + "\r\n"
    requires l2 == FieldLine(hs[1].0, hs[1].1) + "\r\n"
    ensures HeaderBlock(hs) == l1 + l2
  {
    HeaderBlockFirst(hs, l1);
    HeaderBlock1(hs[1..], l2);
  }

  lemma HeaderBlock3(hs: seq<(String, String)>, l1: String, l2: String, l3: String)
    requires |hs| == 3
    requires l1 == FieldLine(hs[0].0, hs[0].1) + "\r\n"
    requires l2 == FieldLine(hs[1].0, hs[1].1) + "\r\n"
    requires l3 == FieldLine(hs[2].0, hs[2].1) + "\r\n"
    ensures HeaderBlock(hs) == l1 + l2 + l3
  {
    HeaderBlockFirst(hs, l1);
    HeaderBlock2(hs[1..], l2, l3);
    AppendAssoc(l1, l2, l3);
  }

  lemma HeaderBlock4(hs: seq<(String, String)>, l1: String, l2: String, l3: String, l4: String)
    requires |hs| == 4
    requires l1 == FieldLine(hs[0].0, hs[0].1) + "\r\n"
    requires l2 == FieldLine(hs[1].0, hs[1].1) + "\r\n"
    requires l3 == FieldLine(hs[2].0, hs[2].1) + "\r\n"
    requires l4 == FieldLine(hs[3].0, hs[3].1) + "\r\n"
    ensures HeaderBlock(hs) == l1 + l2 + l3 + l4
  {
    HeaderBlockFirst(hs, l1);
    HeaderBlock3(hs[1..], l2, l3, l4);
    PrintLines3(l1, l2, l3, l4);
  }

  lemma HeaderBlock5(hs: seq<(String, String)>, l1: String, l2: String, l3: String, l4: String, l5: String)
    requires |hs| == 5
    requires l1 == FieldLine(hs[0].0, hs[0].1) + "\r\n"
    requires l2 == FieldLine(hs[1].0, hs[1].1) + "\r\n"
    requires l3 == FieldLine(hs[2].0, hs[2].1) + "\r\n"
    requires l4 == FieldLine(hs[3].0, hs[3].1) + "\r\n"
    requires l5 == FieldLine(hs[4].0, hs[4].1) + "\r\n"
    ensures HeaderBlock(hs) == l1 + l2 + l3 + l4 + l5
  {
    HeaderBlockFirst(hs, l1);
    HeaderBlock4(hs[1..], l2, l3, l4, l5);
    PrintLines4(l1, l2, l3, l4, l5);
  }

  lemma HeaderBlock6(hs: seq<(String, String)>, l1: String, l2: String, l3: String, l4: String, l5: String, l6: String)
    requires |hs| == 6
    requires l1 == FieldLine(hs[0].0, hs[0].1) + "\r\n"
    requires l2 == FieldLine(hs[1].0, hs[1].1) + "\r\n"
    requires l3 == FieldLine(hs[2].0, hs[2].1) + "\r\n"
    requires l4 == FieldLine(hs[3].0, hs[3].1) + "\r\n"
    requires l5 == FieldLine(hs[4].0, hs[4].1) + "\r\n"
    requires l6 == FieldLine(hs[5].0, hs[5].1) + "\r\n"
    ensures HeaderBlock(hs) == l1 + l2 + l3 + l4 + l5 + l6
  {
    HeaderBlockFirst(hs, l1);
    HeaderBlock5(hs[1..], l2, l3, l4, l5, l6);
    PrintLines5(l1, l2, l3, l4, l5, l6);
  }

  lemma Serialized2(r: Response, statusLine: String, l1: String, l2: String)
    requires |r.headers| == 2 && statusLine == StatusLine(r) + "\r\n"
    requires l1 == FieldLine(r.headers[0].0, r.headers[0].1) + "\r\n"
    requires l2 == FieldLine(r.headers[1].0, r.headers[1].1) + "\r\n"
    ensures Serialize(r) == statusLine + l1 + l2 + "\r\n" + r.body
  {
    HeaderBlock2(r.headers, l1, l2);
    AppendAssoc(statusLine, l1, l2);
  }

  lemma Serialized3(r: Response, statusLine: String, l1: String, l2: String, l3: String)
    requires |r.headers| == 3 && statusLine == StatusLine(r) + "\r\n"
    requires l1 == FieldLine(r.headers[0].0, r.headers[0].1) + "\r\n"
    requires l2 == FieldLine(r.headers[1].0, r.headers[1].1) + "\r\n"
    requires l3 == FieldLine(r.headers[2].0, r.headers[2].1) + "\r\n"
    ensures Serialize(r) == statusLine + l1 + l2 + l3 + "\r\n" + r.body
  {
    HeaderBlock3(r.headers, l1, l2, l3);
    PrintLines3(statusLine, l1, l2, l3);
  }

  lemma Serialized5(r: Response, statusLine: String, l1: String, l2: String, l3: String, l4: String, l5: String)
    requires |r.headers| == 5 && statusLine == StatusLine(r) + "\r\n"
    requires l1 == FieldLine(r.headers[0].0, r.headers[0].1) + "\r\n"
    requires l2 == FieldLine(r.headers[1].0, r.headers[1].1) + "\r\n"
    requires l3 == FieldLine(r.headers[2].0, r.headers[2].1) + "\r\n"
    requires l4 == FieldLine(r.headers[3].0, r.headers[3].1) + "\r\n"
    requires l5 == FieldLine(r.headers[4].0, r.headers[4].1) + "\r\n"
    ensures Serialize(r) == statusLine + l1 + l2 + l3 + l4 + l5 + "\r\n" + r.body
  {
    HeaderBlock5(r.headers, l1, l2, l3, l4, l5);
    PrintLines5(statusLine, l1, l2, l3, l4, l5);
  }

  lemma Serialized6(r: Response, statusLine: String, l1: String, l2: String, l3: String, l4: String, l5: String, l6: String)
    requires |r.headers| == 6 && statusLine == StatusLine(r) + "\r\n"
    requires l1 == FieldLine(r.headers[0].0, r.headers[0].1) + "\r\n"
    requires l2 == FieldLine(r.headers[1].0, r.headers[1].1) + "\r\n"
    requires l3 == FieldLine(r.headers[2].0, r.headers[2].1) + "\r\n"
    requires l4 == FieldLine(r.headers[3].0, r.headers[3].1) + "\r\n"
    requires l5 == FieldLine(r.headers[4].0, r.headers[4].1) + "\r\n"
    requires l6 == FieldLine(r.headers[5].0, r.headers[5].1) + "\r\n"
    ensures Serialize(r) == statusLine + l1 + l2 + l3 + l4 + l5 + l6 + "\r\n" + r.body
  {
    HeaderBlock6(r.headers, l1, l2, l3, l4, l5, l6);
    PrintLines6(statusLine, l1, l2, l3, l4, l5, l6);
  }

  // What the handlers print, line by line.

  /** A page response is the eight pieces `handleGET`, `handlePOST` and `send404` print. */
  lemma PageWire(status: nat, reason: String, html: String, env: Env, statusLine: String)
    requires statusLine == "HTTP/1.1 " + Decimal(status) + " " + reason + "\r\n"
    ensures Serialize(PageResponse(status, reason, html, env)) ==
      statusLine
      + "Content-Type: text/html; charset=UTF-8\r\n"
      + ("Content-Length: " + Decimal(|Utf8Encode(html)|) + "\r\n")
      + "Server: MyHTTPServer/1.0\r\n"
      + ("Date: " + env.date + "\r\n")
      + "Connection: close\r\n"
      + "\r\n"
      + html
  {
    ContentTypeHtmlLine();
    ServerLine();
    ConnectionLine();
    FieldLineOf("Content-Length", Decimal(|Utf8Encode(html)|), "Content-Length: ");
    FieldLineOf("Date", env.date, "Date: ");
    Serialized5(PageResponse(status, reason, html, env), statusLine,
      "Content-Type: text/html; charset=UTF-8\r\n", "Content-Length: " + Decimal(|Utf8Encode(html)|) + "\r\n",
      "Server: MyHTTPServer/1.0\r\n", "Date: " + env.date + "\r\n", "Connection: close\r\n");
  }

  lemma HeadWire(path: String, env: Env)
    ensures Serialize(HeadResponse(path, env)) ==
      "HTTP/1.1 200 OK\r\n"
      + "Content-Type: text/html; charset=UTF-8\r\n"
      + ("Content-Length: " + Decimal(HeadLength(path)) + "\r\n")
      + "Server: MyHTTPServer/1.0\r\n"
      + ("Date: " + env.date + "\r\n")
      + ("Last-Modified: " + env.lastModified + "\r\n")
      + "Connection: close\r\n"
      + "\r\n"
  {
    OkStatusLine();
    ContentTypeHtmlLine();
    ServerLine();
    ConnectionLine();
    FieldLineOf("Content-Length", Decimal(HeadLength(path)), "Content-Length: ");
    FieldLineOf("Date", env.date, "Date: ");
    FieldLineOf("Last-Modified", env.lastModified, "Last-Modified: ");
    Serialized6(HeadResponse(path, env), "HTTP/1.1 200 OK\r\n",
      "Content-Type: text/html; charset=UTF-8\r\n", "Content-Length: " + Decimal(HeadLength(path)) + "\r\n",
      "Server: MyHTTPServer/1.0\r\n", "Date: " + env.date + "\r\n", "Last-Modified: " + env.lastModified + "\r\n",
      "Connection: close\r\n");
  }

  lemma BadRequestWire()
    ensures Serialize(BadRequestResponse()) ==
      "HTTP/1.1 400 Bad Request\r\n"
      + "Content-Type: text/html\r\n"
      + ("Content-Length: " + Decimal(|BadRequestPage|) + "\r\n")
      + "\r\n"
      + BadRequestPage
  {
    BadRequestStatusLine();
    ContentTypeLine();
    FieldLineOf("Content-Length", Decimal(|BadRequestPage|), "Content-Length: ");
    Serialized2(BadRequestResponse(), "HTTP/1.1 400 Bad Request\r\n",
      "Content-Type: text/html\r\n", "Content-Length: " + Decimal(|BadRequestPage|) + "\r\n");
  }

  lemma MethodNotAllowedWire()
    ensures Serialize(MethodNotAllowedResponse()) ==
      "HTTP/1.1 405 Method Not Allowed\r\n"
      + "Content-Type: text/html\r\n"
      + "Allow: GET, HEAD, POST\r\n"
      + ("Content-Length: " + Decimal(|MethodNotAllowedPage|) + "\r\n")
      + "\r\n"
      + MethodNotAllowedPage
  {
    MethodNotAllowedStatusLine();
    ContentTypeLine();
    AllowLine();
    FieldLineOf("Content-Length", Decimal(|MethodNotAllowedPage|), "Content-Length: ");
    Serialized3(MethodNotAllowedResponse(), "HTTP/1.1 405 Method Not Allowed\r\n",
      "Content-Type: text/html\r\n", "Allow: GET, HEAD, POST\r\n", "Content-Length: " + Decimal(|MethodNotAllowedPage|) + "\r\n");
  }

  // ---------------------------------------------------------------- the handler

  /**
   * The string that `handlePOST` builds with `+=`, for the iteration order
   * `entries` of the parameter map it returns.
   */
  method RenderPostPage(body: String, params: map<String, String>) returns (html: String, entries: seq<(String, String)>)
    ensures IsEntryOrder(entries, params)
    ensures html == PostPage(body, params, entries)
  {
    html := PostHead(body);
    entries := [];
    if |params| != 0 {
      ghost var head := html;
      html := html + ParamsOpen;
      html, entries := AppendParamLines(html, params);
      AppendAssoc(head, ParamsOpen, ParamLines(entries));
      AppendAssoc(head, ParamsOpen + ParamLines(entries), ParamsClose);
      html := html + ParamsClose;
    } else {
      assert html == PostHead(body) + [];
    }
    html := html + PostFooter(|params|);
  }

  /**
   * The `for` loop over `params.entrySet()`: one line per entry, each key
   * once, in an order the map chooses.
   */
  method AppendParamLines(start: String, params: map<String, String>) returns (html: String, entries: seq<(String, String)>)
    ensures IsEntryOrder(entries, params)
    ensures html == start + ParamLines(entries)
  {
    html := start;
    entries := [];
    var remaining := params.Keys;
    EnumeratingStart(params);
    while remaining != {}
      invariant Enumerating(entries, remaining, params)
      invariant html == start + ParamLines(entries)
      decreases |remaining|
    {
      var key :| key in remaining;
      var value := params[key];
      EnumeratingStep(entries, remaining, params, key);
      ParamLinesSnoc(entries, key, value);
      AppendAssoc(start, ParamLines(entries), ParamLine(key, value));
      html := html + ParamLine(key, value);
      entries := entries + [(key, value)];
      remaining := remaining - {key};
    }
    EnumeratingDone(entries, params);
  }

  /**
   * Part way through the entry set: `entries` lists distinct keys of `params`
   * with their values, and every key is listed or still `remaining`.
   */
  predicate Enumerating(entries: seq<(String, String)>, remaining: set<String>, params: map<String, String>) {
    && remaining <= params.Keys
    && (forall i :: 0 <= i < |entries| ==>
          entries[i].0 in params && params[entries[i].0] == entries[i].1 && entries[i].0 !in remaining)
    && (forall i, j :: 0 <= i < j < |entries| ==> entries[i].0 != entries[j].0)
    && (forall k :: k in params ==> k in remaining || exists i :: 0 <= i < |entries| && entries[i].0 == k)
  }

  lemma EnumeratingStart(params: map<String, String>)
    ensures Enumerating([], params.Keys, params)
  {
  }

  lemma EnumeratingStep(entries: seq<(String, String)>, remaining: set<String>, params: map<String, String>, key: String)
    requires Enumerating(entries, remaining, params) && key in remaining
    ensures Enumerating(entries + [(key, params[key])], remaining - {key}, params)
    ensures |remaining - {key}| < |remaining|
  {
    var longer := entries + [(key, params[key])];
    forall i | 0 <= i < |entries| ensures longer[i] == entries[i] { }
    forall k | k in params && k !in remaining - {key}
      ensures exists i :: 0 <= i < |longer| && longer[i].0 == k
    {
      if k == key {
        assert longer[|entries|].0 == k;
      } else {
        var i :| 0 <= i < |entries| && entries[i].0 == k;
        assert longer[i].0 == k;
      }
    }
  }

  lemma EnumeratingDone(entries: seq<(String, String)>, params: map<String, String>)
    requires Enumerating(entries, {}, params)
    ensures IsEntryOrder(entries, params)
  {
  }

  class RequestHandler {
    const socket: Connection

    constructor(socket: Connection)
      ensures this.socket == socket
    {
      this.socket := socket;
    }

    /** `run`: read one request and send one response, or none. */
    method Run(env: Env, charset: Charset) returns (ghost entries: seq<(String, String)>)
      requires socket.Valid()
      modifies socket
      ensures socket.Valid()
      ensures socket.output == old(socket.output) + Wire(RunSpec(old(socket.Unread()), env, charset, entries))
      ensures OrdersParams(old(socket.Unread()), charset, entries)
    {
      entries := [];
      ghost var input := socket.Unread();
      var requestLine := socket.ReadLine();
      if requestLine.None? || requestLine.value == [] {
        assert ReadRequest(input) == NoRequestLine;
        return;
      }
      var parts := JavaSplit(requestLine.value, ' ');
      if |parts| < 3 {
        assert ReadRequest(input) == ShortRequestLine;
        SendBadRequest();
        return;
      }
      var verb, path, protocol := parts[0], parts[1], parts[2];
      assert ReadRequest(input) == ReadAfterRequestLine(verb, path, protocol, socket.Unread());
      var headers := ReadHeaders();
      entries := ReadBodyAndHandle(verb, path, protocol, headers, env, charset);
    }

    /** The rest of `run` once the headers are read: the body, then the `switch`. */
    method ReadBodyAndHandle(verb: String, path: String, protocol: String, headers: map<String, String>, env: Env, charset: Charset)
      returns (ghost entries: seq<(String, String)>)
      requires socket.Valid()
      modifies socket
      ensures socket.Valid()
      ensures socket.output == old(socket.output) + Wire(Answer(ReadBody(verb, path, protocol, headers, old(socket.Unread())), env, charset, entries))
      ensures OrdersRequestParams(ReadBody(verb, path, protocol, headers, old(socket.Unread())), charset, entries)
    {
      entries := [];
      ghost var read := ReadBody(verb, path, protocol, headers, socket.Unread());
      var body: String := [];
      if verb == "POST" && "Content-Length" in headers {
        var contentLength := ParseInt(headers["Content-Length"]);
        if contentLength.None? || contentLength.value < 0 {
          assert read == BadContentLength;
          return;
        }
        body := socket.Read(contentLength.value);
      }
      var request := Request(verb, path, protocol, headers, body);
      assert read == Complete(request);
      entries := HandleRequest(request, env, charset);
    }

    /** The header loop of `run`: lines up to the first empty one, or the end of the stream. */
    method ReadHeaders() returns (headers: map<String, String>)
      requires socket.Valid()
      modifies socket
      ensures socket.Valid() && socket.output == old(socket.output)
      ensures headers == HeaderMap(HeaderLines(old(socket.Unread())).0)
      ensures socket.Unread() == HeaderLines(old(socket.Unread())).1
    {
      headers := map[];
      ghost var lines: seq<String> := [];
      ghost var start := socket.Unread();
      assert lines + HeaderLines(start).0 == HeaderLines(start).0;
      while true
        invariant socket.Valid() && socket.output == old(socket.output)
        invariant HeaderLines(start).0 == lines + HeaderLines(socket.Unread()).0
        invariant HeaderLines(start).1 == HeaderLines(socket.Unread()).1
        invariant headers == HeaderMap(lines)
        decreases |socket.Unread()|
      {
        ghost var before := socket.Unread();
        var line := socket.ReadLine();
        if line.None? || line.value == [] {
          assert HeaderLines(before) == ([], socket.Unread());
          break;
        }
        var colonIndex := IndexOf(line.value, ": ");
        if colonIndex > 0 {
          headers := headers[line.value[..colonIndex] := line.value[colonIndex + 2..]];
        }
        HeaderMapSnoc(lines, line.value);
        ghost var later := HeaderLines(socket.Unread());
        assert HeaderLines(before) == ([line.value] + later.0, later.1);
        AppendAssoc(lines, [line.value], later.0);
        lines := lines + [line.value];
      }
      assert lines + [] == lines;
    }

    /** The `switch` of `run` on the method token. */
    method HandleRequest(request: Request, env: Env, charset: Charset) returns (ghost entries: seq<(String, String)>)
      requires socket.Valid()
      modifies socket
      ensures socket.Valid() && socket.consumed == old(socket.consumed)
      ensures socket.output == old(socket.output) + Wire(Dispatch(request, env, charset, entries))
      ensures request.verb == "POST" && FormParams(request.body, charset).Some? ==>
        IsEntryOrder(entries, FormParams(request.body, charset).value)
    {
      entries := [];
      if request.verb == "GET" {
        HandleGet(request.path, env);
        DispatchRoutes(request, env, charset, entries);
        WireRespond(GetResponse(request.path, env));
      } else if request.verb == "HEAD" {
        HandleHead(request.path, env);
        DispatchRoutes(request, env, charset, entries);
        WireRespond(HeadResponse(request.path, env));
      } else if request.verb == "POST" {
        entries := HandlePost(request.path, request.body, env, charset);
        DispatchRoutes(request, env, charset, entries);
      } else {
        SendMethodNotAllowed();
        DispatchRoutes(request, env, charset, entries);
        WireRespond(MethodNotAllowedResponse());
      }
    }

    /** `handleGET`: the home page, the info page, or 404. */
    method HandleGet(path: String, env: Env)
      requires socket.Valid()
      modifies socket
      ensures socket.Valid() && socket.consumed == old(socket.consumed)
      ensures socket.output == old(socket.output) + Serialize(GetResponse(path, env))
    {
      var html: String;
      if path == "/" || path == "/index.html" {
        html := HomePage;
      } else if path == "/info" {
        html := InfoPage(env);
      } else {
        Send404(path, env);
        return;
      }
      OkStatusLine();
      SendPage(200, "OK", "HTTP/1.1 200 OK\r\n", html, env);
    }

    /**
     * The eight `out.print` calls that `handleGET`, `handlePOST` and
     * `send404` each make, for a status line and a page.
     */
    method SendPage(status: nat, reason: String, statusLine: String, html: String, env: Env)
      requires socket.Valid()
      requires statusLine == "HTTP/1.1 " + Decimal(status) + " " + reason + "\r\n"
      modifies socket
      ensures socket.Valid() && socket.consumed == old(socket.consumed)
      ensures socket.output == old(socket.output) + Serialize(PageResponse(status, reason, html, env))
    {
      socket.Print(statusLine);
      socket.Print("Content-Type: text/html; charset=UTF-8\r\n");
      socket.Print("Content-Length: " + Decimal(|Utf8Encode(html)|) + "\r\n");
      socket.Print("Server: MyHTTPServer/1.0\r\n");
      socket.Print("Date: " + env.date + "\r\n");
      socket.Print("Connection: close\r\n");
      socket.Print("\r\n");
      socket.Print(html);
      PageWire(status, reason, html, env, statusLine);
      PrintLines8(old(socket.output), statusLine, "Content-Type: text/html; charset=UTF-8\r\n",
        "Content-Length: " + Decimal(|Utf8Encode(html)|) + "\r\n", "Server: MyHTTPServer/1.0\r\n",
        "Date: " + env.date + "\r\n", "Connection: close\r\n", "\r\n", html);
    }

    /** `handleHEAD`: the headers of a page of an assumed length, and no body. */
    method HandleHead(path: String, env: Env)
      requires socket.Valid()
      modifies socket
      ensures socket.Valid() && socket.consumed == old(socket.consumed)
      ensures socket.output == old(socket.output) + Serialize(HeadResponse(path, env))
    {
      var contentLength := 500;
      if path == "/" {
        contentLength := 800;
      }
      socket.Print("HTTP/1.1 200 OK\r\n");
      socket.Print("Content-Type: text/html; charset=UTF-8\r\n");
      socket.Print("Content-Length: " + Decimal(contentLength) + "\r\n");
      socket.Print("Server: MyHTTPServer/1.0\r\n");
      socket.Print("Date: " + env.date + "\r\n");
      socket.Print("Last-Modified: " + env.lastModified + "\r\n");
      socket.Print("Connection: close\r\n");
      socket.Print("\r\n");
      HeadWire(path, env);
      PrintLines8(old(socket.output), "HTTP/1.1 200 OK\r\n", "Content-Type: text/html; charset=UTF-8\r\n",
        "Content-Length: " + Decimal(contentLength) + "\r\n", "Server: MyHTTPServer/1.0\r\n",
        "Date: " + env.date + "\r\n", "Last-Modified: " + env.lastModified + "\r\n", "Connection: close\r\n", "\r\n");
    }

    /**
     * `handlePOST`: the page echoing the body and its parameters. A body the
     * form decoder rejects throws before anything is printed.
     */
    method HandlePost(path: String, body: String, env: Env, charset: Charset) returns (entries: seq<(String, String)>)
      requires socket.Valid()
      modifies socket
      ensures socket.Valid() && socket.consumed == old(socket.consumed)
      ensures socket.output == old(socket.output) + Wire(PostOutcome(body, charset, entries, env))
      ensures FormParams(body, charset).Some? ==> IsEntryOrder(entries, FormParams(body, charset).value)
    {
      var params := ParsePostData(body, charset);
      if params.None? {
        PostOutcomeRejected(body, charset, [], env);
        assert socket.output == old(socket.output) + [];
        return [];
      }
      entries := SendPostPage(body, params.value, env);
      PostOutcomeAccepted(body, charset, entries, env, params.value);
      WireRespond(PostResponse(body, params.value, entries, env));
    }

    /** The parameter page of `handlePOST`, built and printed. */
    method SendPostPage(body: String, params: map<String, String>, env: Env) returns (entries: seq<(String, String)>)
      requires socket.Valid()
      modifies socket
      ensures socket.Valid() && socket.consumed == old(socket.consumed)
      ensures socket.output == old(socket.output) + Serialize(PostResponse(body, params, entries, env))
      ensures IsEntryOrder(entries, params)
    {
      var html;
      html, entries := RenderPostPage(body, params);
      OkStatusLine();
      SendPage(200, "OK", "HTTP/1.1 200 OK\r\n", html, env);
    }

    /** `send404`: the not-found page echoing the escaped path. */
    method Send404(path: String, env: Env)
      requires socket.Valid()
      modifies socket
      ensures socket.Valid() && socket.consumed == old(socket.consumed)
      ensures socket.output == old(socket.output) + Serialize(NotFoundResponse(path, env))
    {
      var html := NotFoundPage(path);
      NotFoundStatusLine();
      SendPage(404, "Not Found", "HTTP/1.1 404 Not Found\r\n", html, env);
    }

    /** `sendBadRequest`. */
    method SendBadRequest()
      requires socket.Valid()
      modifies socket
      ensures socket.Valid() && socket.consumed == old(socket.consumed)
      ensures socket.output == old(socket.output) + Serialize(BadRequestResponse())
    {
      var html := BadRequestPage;
      socket.Print("HTTP/1.1 400 Bad Request\r\n");
      socket.Print("Content-Type: text/html\r\n");
      socket.Print("Content-Length: " + Decimal(|html|) + "\r\n");
      socket.Print("\r\n");
      socket.Print(html);
      BadRequestWire();
      PrintLines5(old(socket.output), "HTTP/1.1 400 Bad Request\r\n", "Content-Type: text/html\r\n",
        "Content-Length: " + Decimal(|html|) + "\r\n", "\r\n", html);
    }

    /** `sendMethodNotAllowed`. */
    method SendMethodNotAllowed()
      requires socket.Valid()
      modifies socket
      ensures socket.Valid() && socket.consumed == old(socket.consumed)
      ensures socket.output == old(socket.output) + Serialize(MethodNotAllowedResponse())
    {
      var html := MethodNotAllowedPage;
      socket.Print("HTTP/1.1 405 Method Not Allowed\r\n");
      socket.Print("Content-Type: text/html\r\n");
      socket.Print("Allow: GET, HEAD, POST\r\n");
      socket.Print("Content-Length: " + Decimal(|html|) + "\r\n");
      socket.Print("\r\n");
      socket.Print(html);
      MethodNotAllowedWire();
      PrintLines6(old(socket.output), "HTTP/1.1 405 Method Not Allowed\r\n", "Content-Type: text/html\r\n",
        "Allow: GET, HEAD, POST\r\n", "Content-Length: " + Decimal(|html|) + "\r\n", "\r\n", html);
    }
  }
}
