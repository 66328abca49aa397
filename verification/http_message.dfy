/**
 * The HTTP/1.1 message framing the request handler reads and writes (RFC 9112,
 * sections 2.1, 4 and 5): lines as `BufferedReader.readLine` returns them,
 * header fields written `name: value`, and a response serialised as status
 * line, header lines, an empty line and the body.
 */
module HttpMessage {
  import opened Wrappers
  import opened Text
  import Assoc

  // ---------------------------------------------------------------- lines

  predicate IsEol(c: char) { c == '\r' || c == '\n' }

  predicate NoEol(s: String) { forall i :: 0 <= i < |s| ==> !IsEol(s[i]) }

  /** The index of the first line terminator character, or `|s|`. */
  function LineEnd(s: String): (k: nat)
    ensures k <= |s|
    ensures forall i :: 0 <= i < k ==> !IsEol(s[i])
    ensures k < |s| ==> IsEol(s[k])
  {
    if s == [] || IsEol(s[0]) then 0 else 1 + LineEnd(s[1..])
  }

  /**
   * `BufferedReader.readLine`: None at the end of the stream; otherwise the
   * characters before the first `\n`, `\r` or `\r\n`, and the stream after
   * that terminator.
   */
  function ReadLine(s: String): (r: (Option<String>, String))
    ensures r.0.None? <==> s == []
    ensures r.0.Some? ==> NoEol(r.0.value) && |r.1| < |s|
    ensures |r.1| <= |s| && r.1 == s[|s| - |r.1|..]
  {
    if s == [] then (None, [])
    else
      var k := LineEnd(s);
      var next :=
        if k == |s| then k
        else if s[k] == '\r' && k + 1 < |s| && s[k + 1] == '\n' then k + 2
        else k + 1;
      (Some(s[..k]), s[next..])
  }

  /** The ways a line may end: CRLF, LF, a lone CR, or the end of the stream. */
  predicate IsTerminator(eol: String) {
    eol == "\r\n" || eol == "\n" || eol == "\r" || eol == ""
  }

  lemma {:induction false} LineEndAt(a: String, b: String)
    requires NoEol(a) && (b == [] || IsEol(b[0]))
    ensures LineEnd(a + b) == |a|
    decreases |a|
  {
    if a != [] {
      assert (a + b)[0] == a[0] && (a + b)[1..] == a[1..] + b;
      LineEndAt(a[1..], b);
    } else {
      assert a + b == b;
    }
  }

  /** A line ended by CRLF or LF reads back as itself, leaving exactly what follows. */
  lemma ReadLineTerminated(line: String, eol: String, rest: String)
    requires NoEol(line) && (eol == "\r\n" || eol == "\n")
    ensures ReadLine(line + eol + rest) == (Some(line), rest)
  {
    var s := line + eol + rest;
    assert s == line + (eol + rest);
    LineEndAt(line, eol + rest);
    assert s[..|line|] == line;
    assert s[|line| + |eol|..] == rest;
  }

  /**
   * What `readLine` returns, put back together with the terminator it
   * consumed, is the stream it read. The empty terminator happens only at the
   * end of the stream, and a lone `\r` is never followed by `\n`.
   */
  lemma ReadLineSplits(s: String)
    requires s != []
    ensures var line := ReadLine(s).0.value; var rest := ReadLine(s).1;
      |line| + |rest| <= |s| &&
      var eol := s[|line|..|s| - |rest|];
      && IsTerminator(eol)
      && s == line + eol + rest
      && (eol == [] ==> rest == [])
      && (eol == "\r" ==> rest == [] || rest[0] != '\n')
  {
    var k := LineEnd(s);
    var rest := ReadLine(s).1;
    var eol := s[k..|s| - |rest|];
    assert s == s[..k] + s[k..|s| - |rest|] + s[|s| - |rest|..];
    assert IsTerminator(eol);
  }

  // ---------------------------------------------------------------- header lines

  /**
   * The lines `run` reads after the request line: up to the first empty line
   * or the end of the stream, and the stream after them.
   */
  function HeaderLines(s: String): (r: (seq<String>, String))
    ensures forall i :: 0 <= i < |r.0| ==> r.0[i] != [] && NoEol(r.0[i])
    decreases |s|
  {
    var read := ReadLine(s);
    if read.0.None? || read.0.value == [] then ([], read.1)
    else
      var more := HeaderLines(read.1);
      ([read.0.value] + more.0, more.1)
  }

  /** Lines each followed by CRLF. */
  function CrlfLines(lines: seq<String>): String {
    if lines == [] then [] else lines[0] + "\r\n" + CrlfLines(lines[1..])
  }

  /** Nonempty lines ended by CRLF, then an empty line: they read back, followed by exactly what came after. */
  lemma {:induction false} HeaderLinesFraming(lines: seq<String>, rest: String)
    requires forall i :: 0 <= i < |lines| ==> lines[i] != [] && NoEol(lines[i])
    ensures HeaderLines(CrlfLines(lines) + "\r\n" + rest) == (lines, rest)
    decreases |lines|
  {
    if lines == [] {
      HeaderLinesEnd(rest);
    } else {
      var tail := CrlfLines(lines[1..]) + "\r\n" + rest;
      assert CrlfLines(lines) + "\r\n" + rest == lines[0] + "\r\n" + tail;
      HeaderLinesCons(lines[0], tail);
      HeaderLinesFraming(lines[1..], rest);
      assert lines == [lines[0]] + lines[1..];
    }
  }

  /** An empty line ends the header lines. */
  lemma HeaderLinesEnd(rest: String)
    ensures HeaderLines(CrlfLines([]) + "\r\n" + rest) == ([], rest)
  {
    assert CrlfLines([]) + "\r\n" + rest == [] + "\r\n" + rest;
    ReadLineTerminated([], "\r\n", rest);
  }

  /** A nonempty line ended by CRLF is one header line, and reading goes on after it. */
  lemma HeaderLinesCons(line: String, tail: String)
    requires line != [] && NoEol(line)
    ensures HeaderLines(line + "\r\n" + tail) == ([line] + HeaderLines(tail).0, HeaderLines(tail).1)
  {
    ReadLineTerminated(line, "\r\n", tail);
  }

  // ---------------------------------------------------------------- header fields

  /** A field line as the handler writes it. */
  function FieldLine(name: String, value: String): String {
    name + ": " + value
  }

  /** A name that `indexOf(": ")` splits off intact: nonempty, without `": "` inside. */
  predicate IsFieldName(name: String) {
    name != [] && !Contains(name, ": ")
  }

  /** A header line split at its first `": "`, which must not be at index 0; None otherwise. */
  function SplitHeader(line: String): Option<(String, String)>
  {
    var colon := IndexOf(line, ": ");
    if colon > 0 then Some((line[..colon], line[colon + 2..])) else None
  }

  /** A line splits into `name` and `value` exactly when it is `name: value` for a field name `name`. */
  lemma SplitHeaderMeaning(line: String, name: String, value: String)
    ensures SplitHeader(line) == Some((name, value)) <==> (line == FieldLine(name, value) && IsFieldName(name))
  {
    if SplitHeader(line) == Some((name, value)) {
      SplitHeaderSound(line);
    }
    if line == FieldLine(name, value) && IsFieldName(name) {
      SplitHeaderComplete(name, value);
    }
  }

  /** What a line splits into puts the line back together. */
  lemma SplitHeaderSound(line: String)
    requires SplitHeader(line).Some?
    ensures line == FieldLine(SplitHeader(line).value.0, SplitHeader(line).value.1)
    ensures IsFieldName(SplitHeader(line).value.0)
  {
    var colon := IndexOf(line, ": ");
    var name, value := line[..colon], line[colon + 2..];
    assert line[colon..colon + 2] == ": ";
    assert line == line[..colon] + line[colon..colon + 2] + line[colon + 2..];
    forall i | 0 <= i <= |name| ensures !OccursAt(name, ": ", i) {
      if i + 2 <= |name| {
        assert name[i..i + 2] == line[i..i + 2];
        assert !OccursAt(line, ": ", i);
      }
    }
  }

  /** `name: value` splits back into `name` and `value` when `name` is a field name. */
  lemma SplitHeaderComplete(name: String, value: String)
    requires IsFieldName(name)
    ensures SplitHeader(FieldLine(name, value)) == Some((name, value))
  {
    var line := FieldLine(name, value);
    assert line == name + (": " + value);
    OccursAtPrepend(name, ": " + value, ": ", 0);
    forall i | 0 <= i < |name| ensures !OccursAt(line, ": ", i) {
      if i + 2 <= |name| {
        assert line[i..i + 2] == name[i..i + 2];
        assert !OccursAt(name, ": ", i);
      } else {
        assert line[i + 1] == ':';
      }
    }
    var colon := IndexOf(line, ": ");
    assert colon == |name|;
    assert line[..colon] == name;
    assert line[colon + 2..] == value;
  }

  /** Entry `i` is what line `i` puts into the header map, if anything. */
  function HeaderEntries(lines: seq<String>): (es: seq<Option<(String, String)>>)
    ensures |es| == |lines|
  {
    seq(|lines|, i requires 0 <= i < |lines| => SplitHeader(lines[i]))
  }

  /** The `headers` map after `put` for every line that splits, in order. */
  function HeaderMap(lines: seq<String>): map<String, String> {
    Assoc.Collect(HeaderEntries(lines))
  }

  /** Line `i` splits into `k` and `v`, and no later line splits with key `k`. */
  predicate LastHeader(lines: seq<String>, i: int, k: String, v: String) {
    && 0 <= i < |lines|
    && SplitHeader(lines[i]) == Some((k, v))
    && forall j :: i < j < |lines| ==> !Assoc.Puts(SplitHeader(lines[j]), k)
  }

  /** Last write wins: `k` maps to `v` exactly when the last line with key `k` has value `v`. */
  lemma HeaderMapLookup(lines: seq<String>, k: String, v: String)
    ensures (k in HeaderMap(lines) && HeaderMap(lines)[k] == v) <==> exists i :: LastHeader(lines, i, k, v)
  {
    var es := HeaderEntries(lines);
    Assoc.CollectLookup(es, k, v);
    forall i | 0 <= i < |lines| ensures LastHeader(lines, i, k, v) <==> Assoc.LastPut(es, i, k, v) {
      assert forall j :: i < j < |lines| ==> es[j] == SplitHeader(lines[j]);
    }
    if exists i :: LastHeader(lines, i, k, v) {
      var i :| LastHeader(lines, i, k, v);
      assert Assoc.LastPut(es, i, k, v);
    }
  }

  /** The keys of the header map are exactly the names of the lines that split. */
  lemma HeaderMapKeys(lines: seq<String>, k: String)
    ensures k in HeaderMap(lines) <==> exists i :: 0 <= i < |lines| && Assoc.Puts(SplitHeader(lines[i]), k)
  {
    var es := HeaderEntries(lines);
    Assoc.CollectKeys(es, k);
    assert forall i :: 0 <= i < |lines| ==> es[i] == SplitHeader(lines[i]);
  }

  /** One more line read: it updates the map if it splits and changes nothing otherwise. */
  lemma HeaderMapSnoc(lines: seq<String>, line: String)
    ensures HeaderMap(lines + [line]) ==
      match SplitHeader(line)
      case None => HeaderMap(lines)
      case Some(kv) => HeaderMap(lines)[kv.0 := kv.1]
  {
    assert HeaderEntries(lines + [line]) == HeaderEntries(lines) + [SplitHeader(line)];
    Assoc.CollectSnoc(HeaderEntries(lines), SplitHeader(line));
  }

  // ---------------------------------------------------------------- responses

  datatype Response = Response(status: nat, reason: String, headers: seq<(String, String)>, body: String)

  function StatusLine(r: Response): String {
    "HTTP/1.1 " + Decimal(r.status) + " " + r.reason
  }

  function FieldLines(hs: seq<(String, String)>): (lines: seq<String>)
    ensures |lines| == |hs|
  {
    seq(|hs|, i requires 0 <= i < |hs| => FieldLine(hs[i].0, hs[i].1))
  }

  /** One `name: value` line per header, each ended by CRLF. */
  function HeaderBlock(hs: seq<(String, String)>): String {
    if hs == [] then [] else FieldLine(hs[0].0, hs[0].1) + "\r\n" + HeaderBlock(hs[1..])
  }

  lemma {:induction false} HeaderBlockLines(hs: seq<(String, String)>)
    ensures HeaderBlock(hs) == CrlfLines(FieldLines(hs))
    decreases |hs|
  {
    if hs != [] {
      HeaderBlockLines(hs[1..]);
      assert FieldLines(hs)[1..] == FieldLines(hs[1..]);
    }
  }

  /** The bytes the handler prints: status line, one line per header, an empty line, the body. */
  function Serialize(r: Response): String {
    StatusLine(r) + "\r\n" + HeaderBlock(r.headers) + "\r\n" + r.body
  }

  /** The value of the first header named `name`. */
  function HeaderValue(hs: seq<(String, String)>, name: String): (r: Option<String>)
    ensures r.Some? <==> exists i :: 0 <= i < |hs| && hs[i].0 == name
  {
    if hs == [] then None
    else if hs[0].0 == name then Some(hs[0].1)
    else HeaderValue(hs[1..], name)
  }

  /** A response whose reason, names and values a reader can frame: no line breaks, names split intact. */
  predicate WellFormed(r: Response) {
    && NoEol(r.reason)
    && forall i :: 0 <= i < |r.headers| ==>
      IsFieldName(r.headers[i].0) && NoEol(r.headers[i].0) && NoEol(r.headers[i].1)
  }

  lemma NoEolAppend(a: String, b: String)
    requires NoEol(a) && NoEol(b)
    ensures NoEol(a + b)
  {
    assert forall i :: |a| <= i < |a + b| ==> (a + b)[i] == b[i - |a|];
  }

  /**
   * Framing: a reader of the serialised response finds the status line, then
   * one line per header, each splitting back into its name and value, and
   * after the empty line exactly the body.
   */
  lemma SerializeFraming(r: Response)
    requires WellFormed(r)
    ensures ReadLine(Serialize(r)) == (Some(StatusLine(r)), HeaderBlock(r.headers) + "\r\n" + r.body)
    ensures HeaderLines(HeaderBlock(r.headers) + "\r\n" + r.body) == (FieldLines(r.headers), r.body)
    ensures forall i :: 0 <= i < |r.headers| ==> SplitHeader(FieldLines(r.headers)[i]) == Some(r.headers[i])
  {
    var d := Decimal(r.status);
    assert NoEol(d) by {
      forall i | 0 <= i < |d| ensures !IsEol(d[i]) { assert IsDigit(d[i]); }
    }
    NoEolAppend("HTTP/1.1 ", d);
    NoEolAppend("HTTP/1.1 " + d, " ");
    NoEolAppend("HTTP/1.1 " + d + " ", r.reason);
    var rest := HeaderBlock(r.headers) + "\r\n" + r.body;
    assert Serialize(r) == StatusLine(r) + "\r\n" + rest;
    ReadLineTerminated(StatusLine(r), "\r\n", rest);
    var lines := FieldLines(r.headers);
    forall i | 0 <= i < |lines| ensures lines[i] != [] && NoEol(lines[i]) && SplitHeader(lines[i]) == Some(r.headers[i]) {
      var (n, v) := r.headers[i];
      NoEolAppend(n, ": ");
      NoEolAppend(n + ": ", v);
      SplitHeaderMeaning(lines[i], n, v);
    }
    HeaderBlockLines(r.headers);
    HeaderLinesFraming(lines, r.body);
  }
}
