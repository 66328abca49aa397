/**
 * The pages the request handler serves and the responses it builds around
 * them, header by header in the order the handler prints them.
 */
module Pages {
  import opened Wrappers
  import opened Text
  import opened HtmlEscape
  import opened HttpMessage

  /**
   * What the handler reads from its surroundings: `getHTTPDate()` for the
   * `Date` header and, on HEAD, again for `Last-Modified`; the
   * `java.version` property and `new Date()` for the info page.
   */
  datatype Env = Env(date: String, lastModified: String, javaVersion: String, now: String)

  // ---------------------------------------------------------------- pages

  const HomePage: String :=
    "<!DOCTYPE html>\n" +
    "<html>\n" +
    "<head>\n" +
    "    <title>HTTP Server Test Page</title>\n" +
    "    <meta charset=\"UTF-8\">\n" +
    "</head>\n" +
    "<body>\n" +
    "    <h1>Welcome to HTTP Server</h1>\n" +
    "    <p>This is the first paragraph for testing.</p>\n" +
    "    <p>This is the second paragraph.</p>\n" +
    "    <p>This is the third paragraph with <span>inline span</span>.</p>\n" +
    "    <div class=\"container\">\n" +
    "        <div class=\"content\">First div content</div>\n" +
    "        <div class=\"content\">Second div content</div>\n" +
    "    </div>\n" +
    "    <span>Standalone span element</span>\n" +
    "    <span>Another span element</span>\n" +
    "    <img src=\"image1.jpg\" alt=\"Image 1\"/>\n" +
    "    <img src=\"image2.png\" alt=\"Image 2\"/>\n" +
    "    <img src=\"image3.gif\" alt=\"Image 3\"/>\n" +
    "    <p>Fourth paragraph at the end.</p>\n" +
    "    <div>Third div element</div>\n" +
    "</body>\n" +
    "</html>"

  function InfoPage(env: Env): String {
    "<!DOCTYPE html>\n" +
    "<html>\n" +
    "<head><title>Server Info</title></head>\n" +
    "<body>\n" +
    "    <h1>Server Information</h1>\n" +
    "    <p>Server: MyHTTPServer/1.0</p>\n" +
    "    <p>Java Version: " + env.javaVersion + "</p>\n" +
    "    <p>Time: " + env.now + "</p>\n" +
    "    <div>Server is running on port 8080</div>\n" +
    "</body>\n" +
    "</html>"
  }

  /** The line of the 404 page that echoes the requested path. */
  function PathLine(path: String): String {
    "    <p>The requested path " + Span(EscapeHtml(path)) + " was not found on this server.</p>\n"
  }

  function Span(text: String): String {
    "<span>" + text + "</span>"
  }

  const NotFoundTop: String :=
    "<!DOCTYPE html>\n" +
    "<html>\n" +
    "<head><title>404 Not Found</title></head>\n" +
    "<body>\n" +
    "    <h1>404 - Page Not Found</h1>\n"

  const NotFoundBottom: String :=
    "    <div>Available paths:</div>\n" +
    "    <p>GET /</p>\n" +
    "    <p>GET /info</p>\n" +
    "    <p>HEAD /info</p>\n" +
    "    <p>POST /submit</p>\n" +
    "</body>\n" +
    "</html>"

  function NotFoundPage(path: String): String {
    NotFoundTop + PathLine(path) + NotFoundBottom
  }

  const BadRequestPage: String :=
    "<html><body>" + "<h1>400 Bad Request</h1>" + "</body></html>"

  const MethodNotAllowedPage: String :=
    "<html><body>" + "<h1>405 Method Not Allowed</h1>" + "<p>Allowed: GET, HEAD, POST</p>" + "</body></html>"

  // ---------------------------------------------------------------- the POST page

  const PostTop: String :=
    "<!DOCTYPE html>\n" +
    "<html>\n" +
    "<head>\n" +
    "    <title>POST Response</title>\n" +
    "</head>\n" +
    "<body>\n" +
    "    <h1>POST Request Received Successfully</h1>\n" +
    "    <p>Server processed your POST request.</p>\n" +
    "    <div class=\"data-received\">\n" +
    "        <h2>Data Received:</h2>\n"

  /** The page up to and including the escaped raw body. */
  function PostHead(body: String): String {
    PostTop + RawBodyLine(body)
  }

  function RawBodyLine(body: String): String {
    "        <p>Raw body: " + EscapeHtml(body) + "</p>\n"
  }

  const ParamsOpen: String :=
    "        <div class=\"parameters\">\n" +
    "            <h3>Parsed Parameters:</h3>\n"

  const ParamsClose: String := "        </div>\n"

  /** One parameter of the page, key and value escaped. */
  function ParamLine(key: String, value: String): String {
    "            <p><span>" + EscapeHtml(key) + "</span> = " + EscapeHtml(value) + "</p>\n"
  }

  /** One line per entry, in the order given. */
  function ParamLines(entries: seq<(String, String)>): String {
    if entries == [] then []
    else
      var last := entries[|entries| - 1];
      ParamLines(entries[..|entries| - 1]) + ParamLine(last.0, last.1)
  }

  lemma ParamLinesSnoc(entries: seq<(String, String)>, key: String, value: String)
    ensures ParamLines(entries + [(key, value)]) == ParamLines(entries) + ParamLine(key, value)
  {
    assert (entries + [(key, value)])[..|entries|] == entries;
  }

  function PostFooter(count: nat): String {
    "    </div>\n" +
    "    <div class=\"footer\">\n" +
    "        <p>Total parameters received: " + Decimal(count) + "</p>\n" +
    "    </div>\n" +
    "    <img src=\"success.png\" alt=\"Success\"/>\n" +
    "</body>\n" +
    "</html>"
  }

  /**
   * `entries` lists the entries of `params` with no key twice, in whatever
   * order the `HashMap` iterates them.
   */
  predicate IsEntryOrder(entries: seq<(String, String)>, params: map<String, String>) {
    && (forall i :: 0 <= i < |entries| ==> entries[i].0 in params && params[entries[i].0] == entries[i].1)
    && (forall i, j :: 0 <= i < j < |entries| ==> entries[i].0 != entries[j].0)
    && (forall k :: k in params ==> exists i :: 0 <= i < |entries| && entries[i].0 == k)
  }

  /** The page `handlePOST` builds, for the iteration order `entries` of `params`. */
  function PostPage(body: String, params: map<String, String>, entries: seq<(String, String)>): String {
    PostHead(body)
    + (if |params| == 0 then [] else ParamsOpen + ParamLines(entries) + ParamsClose)
    + PostFooter(|params|)
  }

  // ---------------------------------------------------------------- responses

  const ContentTypeHtmlUtf8: (String, String) := ("Content-Type", "text/html; charset=UTF-8")
  const ServerHeader: (String, String) := ("Server", "MyHTTPServer/1.0")
  const ConnectionClose: (String, String) := ("Connection", "close")

  /** A 200 or 404 page response: `Content-Length` is the UTF-8 byte count of the page. */
  function PageResponse(status: nat, reason: String, html: String, env: Env): Response {
    Response(status, reason,
      [ContentTypeHtmlUtf8,
       ("Content-Length", Decimal(|Utf8Encode(html)|)),
       ServerHeader,
       ("Date", env.date),
       ConnectionClose],
      html)
  }

  function NotFoundResponse(path: String, env: Env): Response {
    PageResponse(404, "Not Found", NotFoundPage(path), env)
  }

  /** `sendBadRequest`: `Content-Length` is the page's length in characters. */
  function BadRequestResponse(): Response {
    Response(400, "Bad Request",
      [("Content-Type", "text/html"), ("Content-Length", Decimal(|BadRequestPage|))],
      BadRequestPage)
  }

  function MethodNotAllowedResponse(): Response {
    Response(405, "Method Not Allowed",
      [("Content-Type", "text/html"), ("Allow", "GET, HEAD, POST"), ("Content-Length", Decimal(|MethodNotAllowedPage|))],
      MethodNotAllowedPage)
  }

  /** `handleGET`: the routing on the exact path. */
  function GetResponse(path: String, env: Env): Response {
    if path == "/" || path == "/index.html" then PageResponse(200, "OK", HomePage, env)
    else if path == "/info" then PageResponse(200, "OK", InfoPage(env), env)
    else NotFoundResponse(path, env)
  }

  /** The fixed length `handleHEAD` announces. */
  function HeadLength(path: String): nat {
    if path == "/" then 800 else 500
  }

  /** `handleHEAD`: headers only, with a second clock reading for `Last-Modified`. */
  function HeadResponse(path: String, env: Env): Response {
    Response(200, "OK",
      [ContentTypeHtmlUtf8,
       ("Content-Length", Decimal(HeadLength(path))),
       ServerHeader,
       ("Date", env.date),
       ("Last-Modified", env.lastModified),
       ConnectionClose],
      [])
  }

  function PostResponse(body: String, params: map<String, String>, entries: seq<(String, String)>, env: Env): Response {
    PageResponse(200, "OK", PostPage(body, params, entries), env)
  }

  // ---------------------------------------------------------------- properties

  /** A page response announces exactly the number of UTF-8 bytes of its body, and a reader parses that number back. */
  lemma PageContentLength(status: nat, reason: String, html: String, env: Env)
    ensures var r := PageResponse(status, reason, html, env);
      HeaderValue(r.headers, "Content-Length") == Some(Decimal(|Utf8Encode(r.body)|))
    ensures |Utf8Encode(html)| <= MaxInt ==>
      ParseInt(HeaderValue(PageResponse(status, reason, html, env).headers, "Content-Length").value) == Some(|Utf8Encode(html)|)
  {
    var r := PageResponse(status, reason, html, env);
    assert r.headers[0].0 != "Content-Length";
    assert r.headers[1..][0].0 == "Content-Length";
    if |Utf8Encode(html)| <= MaxInt {
      ParseDecimal(|Utf8Encode(html)|);
    }
  }

  /** GET routing: 200 exactly for `/`, `/index.html` and `/info`, and 404 for any other path. */
  lemma GetRouting(path: String, env: Env)
    ensures GetResponse(path, env).status == 200 <==> (path == "/" || path == "/index.html" || path == "/info")
    ensures GetResponse(path, env).status != 200 ==> GetResponse(path, env).status == 404
  {
    if !(path == "/" || path == "/index.html" || path == "/info") {
      assert GetResponse(path, env).status == 404;
    }
  }

  /** `/` and `/index.html` serve the home page, `/info` the info page. */
  lemma GetPages(path: String, env: Env)
    ensures (path == "/" || path == "/index.html") ==> GetResponse(path, env).body == HomePage
    ensures path == "/info" ==> GetResponse(path, env).body == InfoPage(env)
  {
    if path == "/info" {
      InfoRouteDistinct();
    }
  }

  /** A 404 page echoes the path only in escaped form, which holds no markup characters. */
  lemma NotFoundEchoesEscapedPath(path: String, env: Env)
    requires !(path == "/" || path == "/index.html" || path == "/info")
    ensures Contains(GetResponse(path, env).body, Span(EscapeHtml(path)))
    ensures SafeForHtml(EscapeHtml(path))
  {
    var target := Span(EscapeHtml(path));
    ContainsWithin("    <p>The requested path ", target, " was not found on this server.</p>\n");
    ContainsExtend(NotFoundTop, PathLine(path), NotFoundBottom, target);
    EscapeHtmlSafe(path);
  }

  /** HEAD: status 200, no body, and a `Content-Length` of 800 for `/` and 500 for any other path. */
  lemma HeadShape(path: String, env: Env)
    ensures HeadResponse(path, env).status == 200 && HeadResponse(path, env).body == []
    ensures HeaderValue(HeadResponse(path, env).headers, "Content-Length") == Some(if path == "/" then "800" else "500")
  {
    DecimalLiterals();
    var hs := HeadResponse(path, env).headers;
    assert hs[0].0 != "Content-Length";
    assert hs[1..][0].0 == "Content-Length";
  }

  /** The 400 and 405 pages are ASCII, so their length in characters is also their UTF-8 byte count. */
  lemma FixedPagesAscii()
    ensures |Utf8Encode(BadRequestPage)| == |BadRequestPage|
    ensures |Utf8Encode(MethodNotAllowedPage)| == |MethodNotAllowedPage|
  {
    BadRequestPageAscii();
    MethodNotAllowedPageAscii();
    AsciiUtf8Length(BadRequestPage);
    AsciiUtf8Length(MethodNotAllowedPage);
  }

  lemma BadRequestPageAscii()
    ensures IsAscii(BadRequestPage)
  {
    BodyTagsAscii();
    assert IsAscii("<h1>400 Bad Request</h1>");
    AsciiAppend("<html><body>", "<h1>400 Bad Request</h1>");
    AsciiAppend("<html><body>" + "<h1>400 Bad Request</h1>", "</body></html>");
  }

  lemma MethodNotAllowedPageAscii()
    ensures IsAscii(MethodNotAllowedPage)
  {
    BodyTagsAscii();
    var h, p := "<h1>405 Method Not Allowed</h1>", "<p>Allowed: GET, HEAD, POST</p>";
    AsciiLiterals405();
    AsciiAppend("<html><body>", h);
    AsciiAppend("<html><body>" + h, p);
    AsciiAppend("<html><body>" + h + p, "</body></html>");
  }

  /** Line `i` of the entries appears among the parameter lines. */
  lemma {:induction false} ParamLinesContain(entries: seq<(String, String)>, i: int)
    requires 0 <= i < |entries|
    ensures Contains(ParamLines(entries), ParamLine(entries[i].0, entries[i].1))
    decreases |entries|
  {
    var n := |entries| - 1;
    var init := entries[..n];
    var line := ParamLine(entries[n].0, entries[n].1);
    assert ParamLines(entries) == ParamLines(init) + line;
    if i == n {
      ContainsAtEnd(ParamLines(init), line);
    } else {
      ParamLinesContain(init, i);
      assert init[i] == entries[i];
      ContainsAppend(ParamLines(init), line, ParamLine(entries[i].0, entries[i].1));
    }
  }

  /**
   * Whatever the iteration order, the POST page shows the escaped raw body
   * and one line per parameter with its escaped key and value.
   */
  lemma PostPageShowsParams(body: String, params: map<String, String>, entries: seq<(String, String)>, k: String)
    requires IsEntryOrder(entries, params) && k in params
    ensures Contains(PostPage(body, params, entries), ParamLine(k, params[k]))
  {
    var i :| 0 <= i < |entries| && entries[i].0 == k;
    ParamLinesContain(entries, i);
    var middle := ParamsOpen + ParamLines(entries) + ParamsClose;
    ContainsExtend(ParamsOpen, ParamLines(entries), ParamsClose, ParamLine(k, params[k]));
    assert |params| != 0;
    ContainsExtend(PostHead(body), middle, PostFooter(|params|), ParamLine(k, params[k]));
  }

  /** The POST page shows the raw body, escaped. */
  lemma PostPageShowsBody(body: String, params: map<String, String>, entries: seq<(String, String)>)
    ensures Contains(PostPage(body, params, entries), RawBodyLine(body))
  {
    var middle := if |params| == 0 then [] else ParamsOpen + ParamLines(entries) + ParamsClose;
    ContainsWithin(PostTop, RawBodyLine(body), middle);
    ContainsExtend([], PostHead(body) + middle, PostFooter(|params|), RawBodyLine(body));
    assert [] + (PostHead(body) + middle) == PostHead(body) + middle;
  }

  /** With no parameters the page has no parameter block; the footer always counts them. */
  lemma PostPageEmpty(body: String, entries: seq<(String, String)>)
    ensures PostPage(body, map[], entries) == PostHead(body) + PostFooter(0)
  {
    var none: map<String, String> := map[];
    assert |none| == 0;
    assert PostHead(body) + [] == PostHead(body);
  }

  // ---------------------------------------------------------------- framing of what the handler prints

  /** A header field a reader of the response splits back into its name and value. */
  predicate FieldOk(h: (String, String)) {
    IsFieldName(h.0) && NoEol(h.0) && NoEol(h.1)
  }

  /** A name without a colon is one that `indexOf(": ")` splits off intact. */
  lemma ColonFreeName(name: String)
    requires name != [] && ':' !in name
    ensures IsFieldName(name)
  {
    forall i | 0 <= i <= |name| ensures !OccursAt(name, ": ", i) {
      if i + 2 <= |name| { assert name[i..i + 2][0] == name[i]; }
    }
  }

  lemma LiteralField(name: String, value: String)
    requires name != [] && ':' !in name && NoEol(name) && NoEol(value)
    ensures FieldOk((name, value))
  {
    ColonFreeName(name);
  }

  lemma DecimalNoEol(n: nat)
    ensures NoEol(Decimal(n))
  {
    var d := Decimal(n);
    forall i | 0 <= i < |d| ensures !IsEol(d[i]) {
      assert IsDigit(d[i]);
    }
  }

  lemma ContentLengthField(n: nat)
    ensures FieldOk(("Content-Length", Decimal(n)))
  {
    DecimalNoEol(n);
    LiteralField("Content-Length", Decimal(n));
  }

  lemma CommonFields(date: String)
    requires NoEol(date)
    ensures FieldOk(ContentTypeHtmlUtf8) && FieldOk(ServerHeader) && FieldOk(ConnectionClose)
    ensures FieldOk(("Date", date))
  {
    LiteralField("Content-Type", "text/html; charset=UTF-8");
    LiteralField("Server", "MyHTTPServer/1.0");
    LiteralField("Connection", "close");
    LiteralField("Date", date);
  }

  /** Every field well formed, and a reason without line breaks. */
  lemma WellFormedOf(r: Response)
    requires NoEol(r.reason) && forall i :: 0 <= i < |r.headers| ==> FieldOk(r.headers[i])
    ensures WellFormed(r)
  {
  }

  /** A page response is framed as a reader expects, when the clock's text has no line break. */
  lemma PageResponseWellFormed(status: nat, reason: String, html: String, env: Env)
    requires NoEol(reason) && NoEol(env.date)
    ensures WellFormed(PageResponse(status, reason, html, env))
  {
    CommonFields(env.date);
    ContentLengthField(|Utf8Encode(html)|);
    WellFormedOf(PageResponse(status, reason, html, env));
  }

  /** Every GET response is a page response, with reason `OK` or `Not Found`. */
  lemma GetResponseShape(path: String, env: Env)
    ensures var r := GetResponse(path, env);
      r == PageResponse(r.status, r.reason, r.body, env) && (r.reason == "OK" || r.reason == "Not Found")
  {
  }

  /** Each GET response, 200 or 404, is framed as a reader expects. */
  lemma GetResponseWellFormed(path: String, env: Env)
    requires NoEol(env.date)
    ensures WellFormed(GetResponse(path, env))
  {
    var r := GetResponse(path, env);
    GetResponseShape(path, env);
    ReasonsNoEol(r.reason);
    PageResponseWellFormed(r.status, r.reason, r.body, env);
  }

  lemma ReasonsNoEol(reason: String)
    requires reason == "OK" || reason == "Not Found"
    ensures NoEol(reason)
  {
  }

  lemma HeadResponseWellFormed(path: String, env: Env)
    requires NoEol(env.date) && NoEol(env.lastModified)
    ensures WellFormed(HeadResponse(path, env))
  {
    CommonFields(env.date);
    ContentLengthField(HeadLength(path));
    LiteralField("Last-Modified", env.lastModified);
    WellFormedOf(HeadResponse(path, env));
  }

  lemma PostResponseWellFormed(body: String, params: map<String, String>, entries: seq<(String, String)>, env: Env)
    requires NoEol(env.date)
    ensures WellFormed(PostResponse(body, params, entries, env))
  {
    PageResponseWellFormed(200, "OK", PostPage(body, params, entries), env);
  }

  lemma BadRequestWellFormed()
    ensures WellFormed(BadRequestResponse())
  {
    LiteralField("Content-Type", "text/html");
    ContentLengthField(|BadRequestPage|);
    WellFormedOf(BadRequestResponse());
  }

  lemma MethodNotAllowedWellFormed()
    ensures WellFormed(MethodNotAllowedResponse())
  {
    LiteralField("Content-Type", "text/html");
    LiteralField("Allow", "GET, HEAD, POST");
    ContentLengthField(|MethodNotAllowedPage|);
    WellFormedOf(MethodNotAllowedResponse());
  }

  // ---------------------------------------------------------------- proof plumbing

  // Facts about literals that the proofs above need spelled out; they state
  // nothing about the handler.

  /** The status codes and lengths the handler prints as literals. */
  lemma DecimalLiterals()
    ensures Decimal(200) == "200" && Decimal(400) == "400" && Decimal(404) == "404" && Decimal(405) == "405"
    ensures Decimal(800) == "800" && Decimal(500) == "500"
  {
    assert Decimal(20) == "20";
    assert Decimal(40) == "40";
    assert Decimal(80) == "80";
    assert Decimal(50) == "50";
  }

  lemma InfoRouteDistinct()
    ensures "/info" != "/" && "/info" != "/index.html"
  {
  }

  lemma BodyTagsAscii()
    ensures IsAscii("<html><body>") && IsAscii("</body></html>")
  {
  }

  lemma AsciiLiterals405()
    ensures IsAscii("<h1>405 Method Not Allowed</h1>") && IsAscii("<p>Allowed: GET, HEAD, POST</p>")
  {
  }
}
