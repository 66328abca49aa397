# A model of the request handler of a small Java HTTP/1.1 server

The server accepts a connection and hands the socket to a `RequestHandler`. The handler then:

- reads one request: the request line, header lines up to the first empty line, and for `POST` a body of the declared `Content-Length`;
- dispatches on the method token: `GET` serves a home page, an info page or a 404 page, `HEAD` sends headers only, `POST` echoes the body and its form parameters, and any other token gets 405;
- prints one response, or none when reading fails, and closes the socket.

The model's modules:

- `Text`: `indexOf`, `String.split` on one character, `Integer.parseInt`, `Integer.toString` and UTF-8 length.
- `Assoc`: a `HashMap` filled by `put` calls in order.
- `HttpMessage`: lines as `BufferedReader.readLine` returns them, header fields, and a response serialised as status line, header lines, an empty line and the body (RFC 9112).
- `HtmlEscape`: `escapeHtml`.
- `FormUrlEncoded`: `parsePostData` with `URLDecoder.decode`.
- `Pages`: the pages and the responses built around them.
- `Handler`: the socket and the handler. The socket is a `Connection` object: the client's input, how much of it has been read, and what has been printed. The handler is the class `RequestHandler`, whose methods read from and print to that connection step by step.
- `RequestProperties`: what the whole exchange promises.

The request-to-response pipeline is also written as a function, `Handler.RunSpec`. The methods are proved to print exactly `Wire(RunSpec(input, …))`, and the properties of the exchange are proved about `RunSpec`.

The handler's surroundings are parameters:

- `Env`: the `Date` header, HEAD's second clock reading for `Last-Modified`, the `java.version` property and the time on the info page.
- `Charset`: the step that turns decoded bytes into characters.
- `entries`: the order in which the parameter `HashMap` is iterated. The methods choose it and return it as a ghost value, and each property holds for every order.

A few methods are pieces factored out of `run` and the handlers, so that each proof stays small:

| method | piece of |
|---|---|
| `ReadHeaders` | the header loop of `run` |
| `ReadBodyAndHandle` | the body read and the `switch` of `run` |
| `HandleRequest` | the `switch` of `run` |
| `SendPage` | the eight `print` calls shared by `handleGET`, `handlePOST` and `send404` |
| `RenderPostPage`, `AppendParamLines` | the page string that `handlePOST` builds with `+=` |
| `SendPostPage` | the rest of `handlePOST` |

## Three behaviours of the code worth knowing

- **Malformed `Content-Length`.** For a POST, `Integer.parseInt` throws on a value that is not a number, and `new char[n]` throws on a negative one. The `catch` at the end of `run` (RequestHandler.java:82) takes the exception, so nothing is printed and the socket is closed (`RequestProperties.RunPostBadLength`).
- **HEAD's `Content-Length`.** `handleHEAD` prints the fixed value 800 for `/` and 500 for every other path, whatever the GET page would hold (`Pages.HeadShape`).
- **Malformed `%` escape in a POST body.** `parsePostData` catches only `UnsupportedEncodingException` (RequestHandler.java:246). The `IllegalArgumentException` that `URLDecoder.decode` throws on a `%` not followed by two hex characters reaches the `catch` of `run`, so nothing is printed. A POST gets no answer exactly when some kept `&`-piece has such an escape in its key or value (`RequestProperties.RunPostBadEscape`).

## Model

| member | source | states |
|---|---|---|
| Handler.RequestHandler.Run | src/main/java/org/example/RequestHandler.java:17-91 | `run` prints exactly the wire form of `RunSpec` for the bytes still unread, for an iteration order it returns that lists the parsed parameters whenever a POST page is rendered |
| Handler.RequestHandler.ReadHeaders | src/main/java/org/example/RequestHandler.java:45-54 | the header loop returns `HeaderMap` of the header lines, stops right after the first empty line (or at end of stream) and prints nothing |
| Handler.RequestHandler.ReadBodyAndHandle | src/main/java/org/example/RequestHandler.java:57-78 | a body is read only for POST with `Content-Length`. A non-numeric or negative length prints nothing. Otherwise the dispatch's response is printed |
| Handler.RequestHandler.HandleRequest | src/main/java/org/example/RequestHandler.java:66-78 | the `switch` prints the response of `Dispatch` and reads nothing more |
| Handler.RequestHandler.HandleGet | src/main/java/org/example/RequestHandler.java:94-153 | `handleGET` prints exactly the serialised `GetResponse` for the path |
| Handler.RequestHandler.SendPage | src/main/java/org/example/RequestHandler.java:144-151 | the eight `print` calls put a page response on the wire: its status line, five headers, an empty line and the page |
| Handler.RequestHandler.HandleHead | src/main/java/org/example/RequestHandler.java:156-178 | `handleHEAD` prints exactly the serialised `HeadResponse`: headers only, no body |
| Handler.RequestHandler.HandlePost | src/main/java/org/example/RequestHandler.java:181-229 | `handlePOST` prints the POST page for the decoded parameters, or nothing when the decoder throws. The returned order enumerates the parameters |
| Handler.RequestHandler.SendPostPage | src/main/java/org/example/RequestHandler.java:189-227 | builds and prints the 200 response for the given parameters, in an order that lists each key once with its value |
| Handler.RenderPostPage | src/main/java/org/example/RequestHandler.java:189-217 | the string `handlePOST` builds equals `PostPage` for an enumeration order of the parameter map |
| Handler.AppendParamLines | src/main/java/org/example/RequestHandler.java:204-207 | the `for` over `entrySet()` appends one line per entry. The entries visited list every key exactly once with its value |
| Handler.RequestHandler.Send404 | src/main/java/org/example/RequestHandler.java:255-281 | `send404` prints exactly the serialised 404 page response for the path |
| Handler.RequestHandler.SendBadRequest | src/main/java/org/example/RequestHandler.java:284-294 | `sendBadRequest` prints the 400 response with the page's character count as `Content-Length` |
| Handler.RequestHandler.SendMethodNotAllowed | src/main/java/org/example/RequestHandler.java:297-308 | `sendMethodNotAllowed` prints the 405 response with `Allow: GET, HEAD, POST` |
| Handler.Connection.ReadLine | src/main/java/org/example/RequestHandler.java:25-25 | `readLine` returns the next line and leaves the reader after its terminator; null (None) exactly at end of stream |
| Handler.Connection.Read | src/main/java/org/example/RequestHandler.java:60-62 | `read` into a fresh `char[n]` yields the next `n` characters, NUL where the stream ends, and consumes what it took |
| Handler.TakePadded | src/main/java/org/example/RequestHandler.java:60-62 | the body has exactly `n` characters: the input's characters first, then NUL |
| Handler.DispatchRoutes | src/main/java/org/example/RequestHandler.java:66-78 | `GET`, `HEAD` and `POST` go to their handlers, and every other token goes to 405 |
| Handler.ReadRequest | src/main/java/org/example/RequestHandler.java:25-63 | the reading part of `run`; stated by `RequestProperties.RunNoRequestLine`, `RequestProperties.ShortLineRequest`, `RequestProperties.ReadRequestFraming` and `RequestProperties.ReadPostRequest` |
| Handler.ReadBody | src/main/java/org/example/RequestHandler.java:57-63 | the body `run` reads; stated by `RequestProperties.ReadBodyRule` and `RequestProperties.ReadBodyDeclaredLength` |
| Handler.Dispatch | src/main/java/org/example/RequestHandler.java:66-78 | the `switch` on the method token; stated by `Handler.DispatchRoutes` and `RequestProperties.DispatchStatus` |
| RequestProperties.RunNoRequestLine | src/main/java/org/example/RequestHandler.java:25-29 | a missing (end of stream) or empty request line gives no response |
| RequestProperties.EmptyLineRequests | src/main/java/org/example/RequestHandler.java:25-29 | empty input and input starting with an empty line are both read as no request line |
| RequestProperties.RunBadRequest | src/main/java/org/example/RequestHandler.java:34-38 | the answer is 400 exactly when the request line is non-empty and splits into fewer than three tokens, and it is then the 400 response |
| RequestProperties.TwoTokenLines | src/main/java/org/example/RequestHandler.java:34-35 | `"GET /"` and `"GET / "` each split into just two tokens, because a trailing empty piece is dropped |
| RequestProperties.ShortLineRequest | src/main/java/org/example/RequestHandler.java:34-38 | a request line of fewer than three tokens stops reading at the request line |
| RequestProperties.RunShortLine | src/main/java/org/example/RequestHandler.java:34-38 | a request line of fewer than three tokens is answered with the 400 response, whatever follows it |
| RequestProperties.RequestLineTokens | src/main/java/org/example/RequestHandler.java:34-42 | a line of three space-free tokens joined by spaces splits back into method, path and protocol |
| RequestProperties.ReadRequestFraming | src/main/java/org/example/RequestHandler.java:40-54 | a request written as request line, header lines and an empty line is read back as those tokens, with `HeaderMap` of those lines |
| RequestProperties.ReadBodyRule | src/main/java/org/example/RequestHandler.java:57-63 | reading stops exactly for POST with a `Content-Length` that does not parse or is negative. Otherwise the body is that long (empty when not read) and holds the input padded with NUL |
| RequestProperties.ReadBodyDeclaredLength | src/main/java/org/example/RequestHandler.java:58-62 | a POST whose `Content-Length` is the decimal `n` gets as its body the next `n` characters, NUL-padded |
| RequestProperties.DispatchStatus | src/main/java/org/example/RequestHandler.java:66-78 | the `switch` never answers 400, and it answers 405 exactly for a token other than `GET`, `HEAD` and `POST` |
| RequestProperties.PostStatus | src/main/java/org/example/RequestHandler.java:220-220 | a POST that is answered gets 200 |
| RequestProperties.LowercaseGetNotAllowed | src/main/java/org/example/RequestHandler.java:66-77 | the token match is case-sensitive: `get` gets 405 |
| RequestProperties.RunGet | src/main/java/org/example/RequestHandler.java:66-69 | a well-framed GET request is answered with `GetResponse` for its path |
| RequestProperties.RunHead | src/main/java/org/example/RequestHandler.java:70-72 | a well-framed HEAD request is answered with `HeadResponse` for its path |
| RequestProperties.RunOtherMethod | src/main/java/org/example/RequestHandler.java:76-77 | a well-framed request with any other token is answered with 405 |
| RequestProperties.RunPostBadLength | src/main/java/org/example/RequestHandler.java:58-60 | a POST whose `Content-Length` is not a number or is negative gets no response |
| RequestProperties.RunPostBadEscape | src/main/java/org/example/RequestHandler.java:17-91 | a framed POST gets no answer exactly when some kept `&`-piece of its body holds a malformed escape, and otherwise gets status 200 |
| RequestProperties.ReadPostRequest | src/main/java/org/example/RequestHandler.java:57-63 | a POST with `Content-Length` `n` is read with the next `n` characters as its body |
| RequestProperties.RunPost | src/main/java/org/example/RequestHandler.java:57-74 | a POST with `Content-Length` `n` gets the POST outcome for the next `n` characters as its body |
| RequestProperties.DispatchWellFormed | src/main/java/org/example/RequestHandler.java:66-78 | every response the `switch` sends is well formed for framing |
| RequestProperties.RunWellFormed | src/main/java/org/example/RequestHandler.java:17-91 | every response `run` sends is well formed, so `HttpMessage.SerializeFraming` applies to what it prints |
| FormUrlEncoded.ParsePostData | src/main/java/org/example/RequestHandler.java:232-252 | the loop over the `&` pieces computes `FormParams`: the map, or None where the decoder throws |
| FormUrlEncoded.FormParams | src/main/java/org/example/RequestHandler.java:232-252 | the map `parsePostData` returns, or None where it throws; stated by `FormUrlEncoded.FormParamsFailure`, `FormUrlEncoded.FormParamsLookup` and `FormUrlEncoded.DecodePairMeaning` |
| FormUrlEncoded.DecodePairMeaning | src/main/java/org/example/RequestHandler.java:240-245 | a piece is skipped exactly when it has no `=` or starts with one. Otherwise its key and value are the decoded texts before and after the first `=`, and the piece throws exactly when one of those two texts does not decode |
| FormUrlEncoded.DecodePairFails | src/main/java/org/example/RequestHandler.java:240-245 | a piece throws exactly when it is kept and its key or its value holds a `%` not followed by two characters forming a byte |
| FormUrlEncoded.FormParamsFailure | src/main/java/org/example/RequestHandler.java:234-245 | an empty body gives the empty map. Otherwise the parse fails exactly when some kept piece does not decode |
| FormUrlEncoded.FormParamsBadEscape | src/main/java/org/example/RequestHandler.java:232-252 | `parsePostData` throws exactly when some kept `&`-piece holds a malformed escape in its key or its value |
| FormUrlEncoded.FormParamsLookup | src/main/java/org/example/RequestHandler.java:238-245 | last write wins: a key maps to a value exactly when the last piece decoding to that key carries that value |
| FormUrlEncoded.DecodePairsEach | src/main/java/org/example/RequestHandler.java:239-250 | decoding all pieces succeeds exactly when each succeeds, and then gives each piece's result in order |
| FormUrlEncoded.UrlDecodePlain | src/main/java/org/example/RequestHandler.java:243-244 | text without `+` or `%` decodes to itself |
| FormUrlEncoded.UrlDecodeEncode | src/main/java/org/example/RequestHandler.java:243-244 | decoding the form encoding of ASCII text gives the text back, for any ASCII-compatible charset |
| FormUrlEncoded.UrlDecode | src/main/java/org/example/RequestHandler.java:243-244 | `URLDecoder.decode`; when it throws is stated by `FormUrlEncoded.UrlDecodeFails`, and what it yields by `FormUrlEncoded.UrlDecodePlain`, `FormUrlEncoded.UrlDecodeEscapes` and `FormUrlEncoded.UrlDecodeEncode` |
| FormUrlEncoded.Tokenize | src/main/java/org/example/RequestHandler.java:243-244 | the decoder's scan of `+`, `%HH` and other characters; stated by `FormUrlEncoded.TokenizeFails` |
| FormUrlEncoded.HexPair | src/main/java/org/example/RequestHandler.java:243-244 | the byte of one `%HH` escape, read with `parseInt` in radix 16 and rejected when negative |
| FormUrlEncoded.TokenizeFails | src/main/java/org/example/RequestHandler.java:243-244 | the scan fails exactly at a `%` that is not followed by two characters forming a byte |
| FormUrlEncoded.UrlDecodeFails | src/main/java/org/example/RequestHandler.java:243-244 | the decoder throws exactly at a `%` that is not followed by two characters forming a byte |
| FormUrlEncoded.UrlDecodeEscapes | src/main/java/org/example/RequestHandler.java:243-244 | a run of well-formed `%HH` escapes between plain text reaches the charset as one byte sequence, and the text around it stays as it is |
| FormUrlEncoded.UrlDecodeEscape | src/main/java/org/example/RequestHandler.java:243-244 | one well-formed `%HH` escape between plain text decodes to that text around the charset's reading of its byte |
| FormUrlEncoded.UrlDecodeSpace | src/main/java/org/example/RequestHandler.java:243-244 | `a%20b` decodes to `a`, the charset's reading of byte 0x20, and `b` |
| FormUrlEncoded.UrlDecodeTwoBytes | src/main/java/org/example/RequestHandler.java:243-244 | `caf%C3%A9` decodes to `caf` and the charset's reading of the two bytes 0xC3 0xA9 taken together |
| Assoc.CollectLookup | src/main/java/org/example/RequestHandler.java:245-245 | a map filled by `put` in order maps `k` to `v` exactly when the last `put` of `k` carries `v` |
| Assoc.CollectKeys | src/main/java/org/example/RequestHandler.java:52-52 | a key is in the map exactly when some `put` put it |
| Assoc.CollectSnoc | src/main/java/org/example/RequestHandler.java:52-52 | one more `put` updates just that key, and a skipped step leaves the map alone |
| HttpMessage.ReadLine | src/main/java/org/example/RequestHandler.java:47-47 | `readLine` gives null exactly on an empty stream. A line holds no terminator, and the rest is a strictly shorter suffix |
| HttpMessage.ReadLineTerminated | src/main/java/org/example/RequestHandler.java:25-25 | a line ended by CRLF or LF reads back, and reading continues right after the terminator |
| HttpMessage.ReadLineSplits | src/main/java/org/example/RequestHandler.java:47-47 | non-empty input is the line read, the terminator consumed and the rest; the terminator is CRLF, LF or CR, or nothing only at the end of the stream, and a lone CR is never followed by LF |
| HttpMessage.HeaderLinesFraming | src/main/java/org/example/RequestHandler.java:47-54 | non-empty CRLF-ended lines followed by an empty line read back as those lines, with exactly what follows left unread |
| HttpMessage.SplitHeaderMeaning | src/main/java/org/example/RequestHandler.java:48-52 | a line splits into (name, value) exactly when it is `name: value` with a non-empty name free of `": "` |
| HttpMessage.SplitHeaderSound | src/main/java/org/example/RequestHandler.java:48-51 | a line that splits is its name, `": "` and its value |
| HttpMessage.SplitHeaderComplete | src/main/java/org/example/RequestHandler.java:48-51 | `name: value` with a proper name splits back into name and value |
| HttpMessage.HeaderMapLookup | src/main/java/org/example/RequestHandler.java:45-54 | last write wins: a header maps to a value exactly when the last line that splits with that name carries that value |
| HttpMessage.HeaderMapKeys | src/main/java/org/example/RequestHandler.java:47-53 | a name is a key exactly when some header line splits with it |
| HttpMessage.HeaderMapSnoc | src/main/java/org/example/RequestHandler.java:52-52 | one more header line updates the map at its name, or leaves it alone when it does not split |
| HttpMessage.SerializeFraming | src/main/java/org/example/RequestHandler.java:144-151 | a reader of a printed response finds the status line, then one line per header splitting back into its name and value, then exactly the body |
| HttpMessage.Serialize | src/main/java/org/example/RequestHandler.java:144-151 | the text the handlers print for a response; its framing is stated by `HttpMessage.SerializeFraming` |
| HttpMessage.SplitHeader | src/main/java/org/example/RequestHandler.java:48-51 | the split of a header line at its first `": "`; stated by `HttpMessage.SplitHeaderMeaning` |
| HttpMessage.HeaderLines | src/main/java/org/example/RequestHandler.java:45-54 | the lines the header loop reads, up to the first empty line or the end of the stream; each is non-empty and free of line breaks, and `HttpMessage.HeaderLinesFraming` states what it reads back |
| HtmlEscape.EscapeHtmlIsEscapeEach | src/main/java/org/example/RequestHandler.java:321-325 | the five `replace` passes in their order equal escaping each character on its own |
| HtmlEscape.EscapeHtmlAppend | src/main/java/org/example/RequestHandler.java:321-325 | escaping distributes over concatenation |
| HtmlEscape.EscapeHtmlChar | src/main/java/org/example/RequestHandler.java:321-325 | one character escapes to its entity, or to itself when it is not special |
| HtmlEscape.EscapeHtmlAmp | src/main/java/org/example/RequestHandler.java:321-321 | `&` becomes `&amp;` once, not again by a later pass |
| HtmlEscape.EscapeHtmlSafe | src/main/java/org/example/RequestHandler.java:319-326 | escaped text holds no `<`, `>`, `"` or `'`, and each `&` in it begins one of the five entities |
| HtmlEscape.EscapeHtmlNoScriptTag | src/main/java/org/example/RequestHandler.java:319-326 | no escaped text contains `<script>` |
| HtmlEscape.EscapeScriptTag | src/main/java/org/example/RequestHandler.java:321-323 | `<script>` becomes `&lt;script&gt;` |
| HtmlEscape.EscapeHtmlIdentity | src/main/java/org/example/RequestHandler.java:321-325 | escaping changes nothing exactly when the text has none of the five special characters |
| HtmlEscape.UnescapeEscapeHtml | src/main/java/org/example/RequestHandler.java:321-325 | replacing the five entities back gives the original text |
| HtmlEscape.EscapeHtml | src/main/java/org/example/RequestHandler.java:319-326 | the five `replace` passes; stated by `HtmlEscape.EscapeHtmlIsEscapeEach`, `HtmlEscape.EscapeHtmlSafe` and `HtmlEscape.UnescapeEscapeHtml` |
| Pages.GetRouting | src/main/java/org/example/RequestHandler.java:99-141 | GET answers 200 exactly for `/`, `/index.html` and `/info`, and 404 for every other path |
| Pages.GetPages | src/main/java/org/example/RequestHandler.java:99-136 | `/` and `/index.html` serve the home page, and `/info` serves the info page |
| Pages.GetResponse | src/main/java/org/example/RequestHandler.java:94-153 | the response of `handleGET`; stated by `Pages.GetRouting`, `Pages.GetPages` and `Pages.NotFoundEchoesEscapedPath` |
| Pages.PageResponseWellFormed | src/main/java/org/example/RequestHandler.java:144-151 | a page response has header names that split back intact and no line break in reason, names or values, given a clock text without line breaks |
| Pages.GetResponseWellFormed | src/main/java/org/example/RequestHandler.java:144-151 | every GET response, 200 or 404, is well formed for framing |
| Pages.HeadResponseWellFormed | src/main/java/org/example/RequestHandler.java:166-173 | the HEAD response is well formed for framing |
| Pages.PostResponseWellFormed | src/main/java/org/example/RequestHandler.java:220-227 | the POST response is well formed for framing |
| Pages.BadRequestWellFormed | src/main/java/org/example/RequestHandler.java:288-292 | the 400 response is well formed for framing |
| Pages.MethodNotAllowedWellFormed | src/main/java/org/example/RequestHandler.java:301-306 | the 405 response is well formed for framing |
| Pages.PageContentLength | src/main/java/org/example/RequestHandler.java:146-146 | a page response's `Content-Length` is the UTF-8 byte count of its body, and it parses back to that number |
| Pages.NotFoundEchoesEscapedPath | src/main/java/org/example/RequestHandler.java:263-263 | the 404 page shows the path escaped, and the escaped path is free of markup |
| Pages.HeadShape | src/main/java/org/example/RequestHandler.java:160-173 | HEAD answers 200 with an empty body and `Content-Length` 800 for `/` and 500 for any other path |
| Pages.FixedPagesAscii | src/main/java/org/example/RequestHandler.java:286-290 | the 400 page is ASCII, so its character count is also its byte count |
| Pages.ParamLinesContain | src/main/java/org/example/RequestHandler.java:204-207 | each visited entry's line appears among the parameter lines |
| Pages.PostPageShowsParams | src/main/java/org/example/RequestHandler.java:201-207 | whatever the iteration order, the POST page shows every parameter with its escaped key and value |
| Pages.PostPageShowsBody | src/main/java/org/example/RequestHandler.java:199-199 | the POST page shows the raw body, escaped |
| Pages.PostPageEmpty | src/main/java/org/example/RequestHandler.java:201-213 | without parameters the page has no parameter block, and its footer counts 0 |
| Text.IndexOf | src/main/java/org/example/RequestHandler.java:48-48 | `indexOf` gives the first occurrence, or -1 exactly when there is none |
| Text.JavaSplit | src/main/java/org/example/RequestHandler.java:34-34 | `split(" ")` and `split("&")`; its meaning is stated by `Text.JavaSplitMeaning` |
| Text.JavaSplitMeaning | src/main/java/org/example/RequestHandler.java:34-34 | no piece holds the separator; joined by it, the pieces give back the string up to a tail of separators only; the last piece is not empty when the string holds the separator; a string without it is its own only piece |
| Text.JavaSplitPieces | src/main/java/org/example/RequestHandler.java:238-238 | the kept pieces are a prefix of all pieces, none holds the separator, only empty pieces are dropped, and the last kept one is not empty |
| Text.JavaSplitJoin | src/main/java/org/example/RequestHandler.java:34-34 | separator-free pieces joined by the separator split back into themselves, when the last is not empty |
| Text.JavaSplitTrailing | src/main/java/org/example/RequestHandler.java:238-238 | a separator at the very end adds nothing to the split |
| Text.ParseInt | src/main/java/org/example/RequestHandler.java:59-59 | a successful `parseInt` lies in the 32-bit range and the text starts with a digit or a sign |
| Text.ParseIntMeaning | src/main/java/org/example/RequestHandler.java:59-59 | `parseInt` yields `v` exactly when the text is decimal digits denoting `v`, or `+` and digits denoting `v`, or `-` and digits denoting `-v`, and `v` is in the 32-bit range |
| Text.ParseDecimal | src/main/java/org/example/RequestHandler.java:59-59 | `parseInt` reads back every non-negative 32-bit number written in decimal |
| Text.Utf8LengthBounds | src/main/java/org/example/RequestHandler.java:146-146 | the UTF-8 byte count is between one and four times the character count, and equal to it exactly for ASCII text |
| Text.AsciiUtf8Length | src/main/java/org/example/RequestHandler.java:290-290 | ASCII text takes one byte per character |

## Left out

- `HTTPServer.java` (the accept loop, the thread per connection and the request counter) is not part of this model.
- Closing the socket, `flush` and the auto-flushing `PrintWriter` are not modelled. The model records the characters printed, not when they reach the client.
- The console logging (`System.out` and `System.err`) is not modelled.
- `getHTTPDate()`, `System.getProperty("java.version")` and `new Date()` are not computed; they are the fields of `Env`. HEAD's `Date` and `Last-Modified` come from two separate readings of the clock.
- `InputStreamReader`'s platform charset is not modelled. The input is the character sequence it produces.
- `URLDecoder`'s UTF-8 step is an abstract `Charset` function, so `UrlDecodeEncode` is stated for any ASCII-compatible charset.
- The iteration order of a `HashMap` is not modelled. It is the `entries` value, and every property of the POST page holds for every order.
- `in.read` is modelled as taking everything that is available, up to `n` characters. A short read while more input is still to arrive is not modelled.
- Handler.Connection.Read: counts characters (code points), while `in.read(buf, 0, n)` counts UTF-16 units. With `Content-Length: 1` and a body holding one character outside the Basic Multilingual Plane, Java reads a lone high surrogate; the model reads the whole character. `TakePadded` and `RequestProperties.ReadBodyDeclaredLength` count the same way.
- RequestProperties.RunPost: does not model the JVM's memory limit on `new char[n]`. For a huge `n` such as 2147483647, Java throws `OutOfMemoryError`, which `catch (Exception)` does not take, so nothing is printed and the thread dies; the model reads a NUL-padded body and answers 200. `RequestProperties.ReadBodyDeclaredLength` does the same.
- FormUrlEncoded.HexPair: accepts only ASCII hex digits. `Integer.parseInt(…, 16)` uses `Character.digit`, which also accepts other Unicode digits: Java decodes `%3` followed by ARABIC-INDIC DIGIT THREE (U+0663) to `3`, while the model makes the decoder fail.
- The `PrintWriter` encodes what is printed in the platform charset, while `Content-Length` counts `getBytes("UTF-8")`. The model records the characters printed, not the bytes, so the two agree on the wire only where the platform charset is UTF-8 or the page is ASCII.
- Handler.RequestHandler.Run: does not state how much input `run` consumes. The socket is closed in the `finally` block right after the answer (RequestHandler.java:84-89), so nothing more is read from it.
- The well-formedness lemmas (`Pages.PageResponseWellFormed` and those after it) take as given that the clock text of `Env` has no line break. The `getHTTPDate` pattern `EEE, dd MMM yyyy HH:mm:ss z` produces none.
- Text.ParseInt: accepts only ASCII digits. The non-ASCII Unicode digits that `Integer.parseInt` also accepts are not modelled.
- Text.Utf8LengthBounds: treats each character as one code point. UTF-16 surrogate pairs, which `getBytes("UTF-8")` encodes as one four-byte sequence, are not modelled.
- HtmlEscape.EscapeHtml: models the non-null case only. The handler never passes null: the path, body, keys and values are all strings.
- Pages.HeadShape: states the fixed 800 and 500 that the code prints. The code does not tie these numbers to the length of the GET page, and nothing proves that they match.
- The `UnsupportedEncodingException` branch of `parsePostData` is not modelled, because `"UTF-8"` is always supported.
