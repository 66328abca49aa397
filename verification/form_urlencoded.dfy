/**
 * `parsePostData`: a reading of `application/x-www-form-urlencoded` bodies, as
 * the handler implements it with `String.split("&")`, `indexOf("=")` and
 * `java.net.URLDecoder.decode(_, "UTF-8")`.
 *
 * It departs from the URL Standard's `application/x-www-form-urlencoded`
 * parser in two ways: a piece without an `=` after its first character is
 * skipped rather than kept with an empty value, and a malformed `%` escape
 * makes the decoder throw rather than stay as it is.
 *
 * `URLDecoder` turns `+` into a space, keeps other characters, and turns each
 * maximal run of `%HH` escapes into bytes that the charset then decodes. The
 * charset step is a parameter (`Charset`), so the model fixes only which byte
 * runs reach it.
 */
module FormUrlEncoded {
  import opened Wrappers
  import opened Text
  import Assoc

  /** Turning a run of decoded bytes into characters (UTF-8 in the source). */
  type Charset = seq<byte> -> String

  /** One unit of a decoded string: a character kept as it is, or an escaped byte. */
  datatype Token = Lit(c: char) | Octet(b: byte)

  // ---------------------------------------------------------------- escapes

  /** `Character.digit(c, 16)` for ASCII characters. */
  function HexDigit(c: char): (r: Option<nat>)
    ensures r.Some? ==> r.value < 16
  {
    if '0' <= c <= '9' then Some(c as int - '0' as int)
    else if 'a' <= c <= 'f' then Some(c as int - 'a' as int + 10)
    else if 'A' <= c <= 'F' then Some(c as int - 'A' as int + 10)
    else None
  }

  /**
   * The byte of the escape `%` c1 c2: `Integer.parseInt` of the two characters
   * in radix 16, which also takes a sign in front of one digit, followed by the
   * decoder's rejection of negative values. So `%+A` is byte 10, `%-0` is byte
   * 0, and `%-1` is an error.
   */
  function HexPair(c1: char, c2: char): Option<byte>
  {
    match HexDigit(c2)
    case None => None
    case Some(d2) =>
      if c1 == '+' then Some(d2 as byte)
      else if c1 == '-' then (if d2 == 0 then Some(0) else None)
      else
        match HexDigit(c1)
        case None => None
        case Some(d1) => Some((d1 * 16 + d2) as byte)
  }

  function Prepend(t: Token, rest: Option<seq<Token>>): Option<seq<Token>> {
    if rest.None? then None else Some([t] + rest.value)
  }

  /**
   * The decoder's scan: `+` is a space, `%` must be followed by two characters
   * that form a byte (an `IllegalArgumentException` otherwise, here None), and
   * any other character stands for itself.
   */
  function Tokenize(s: String): Option<seq<Token>>
    decreases |s|
  {
    if s == [] then Some([])
    else if s[0] == '+' then Prepend(Lit(' '), Tokenize(s[1..]))
    else if s[0] == '%' then
      if |s| < 3 then None
      else
        match HexPair(s[1], s[2])
        case None => None
        case Some(b) => Prepend(Octet(b), Tokenize(s[3..]))
    else Prepend(Lit(s[0]), Tokenize(s[1..]))
  }

  /** The number of escaped bytes at the front of `ts`. */
  function OctetRun(ts: seq<Token>): (k: nat)
    ensures k <= |ts|
    ensures forall i :: 0 <= i < k ==> ts[i].Octet?
    ensures k < |ts| ==> ts[k].Lit?
  {
    if ts == [] || ts[0].Lit? then 0 else 1 + OctetRun(ts[1..])
  }

  predicate AllOctets(ts: seq<Token>) { forall i :: 0 <= i < |ts| ==> ts[i].Octet? }

  function OctetBytes(ts: seq<Token>): seq<byte>
    requires AllOctets(ts)
  {
    seq(|ts|, i requires 0 <= i < |ts| => ts[i].b)
  }

  /** The decoded string: kept characters in place, each run of bytes through the charset. */
  function Render(ts: seq<Token>, charset: Charset): String
    decreases |ts|
  {
    if ts == [] then []
    else if ts[0].Lit? then [ts[0].c] + Render(ts[1..], charset)
    else
      var k := OctetRun(ts);
      charset(OctetBytes(ts[..k])) + Render(ts[k..], charset)
  }

  /** `URLDecoder.decode(s, "UTF-8")`; None where it throws. */
  function UrlDecode(s: String, charset: Charset): Option<String>
  {
    match Tokenize(s)
    case None => None
    case Some(ts) => Some(Render(ts, charset))
  }

  lemma {:induction false} TokenizePlain(s: String)
    requires '+' !in s && '%' !in s
    ensures Tokenize(s) == Some(seq(|s|, i requires 0 <= i < |s| => Lit(s[i])))
    decreases |s|
  {
    if s != [] {
      assert '+' !in s[1..] && '%' !in s[1..] by {
        forall i | 0 <= i < |s[1..]| ensures s[1..][i] != '+' && s[1..][i] != '%' { assert s[1..][i] == s[i + 1]; }
      }
      TokenizePlain(s[1..]);
      assert s[0] != '+' && s[0] != '%';
      var want := seq(|s|, i requires 0 <= i < |s| => Lit(s[i]));
      assert want == [Lit(s[0])] + seq(|s[1..]|, i requires 0 <= i < |s[1..]| => Lit(s[1..][i]));
    } else {
      assert seq(|s|, i requires 0 <= i < |s| => Lit(s[i])) == [];
    }
  }

  lemma {:induction false} RenderPlain(s: String, charset: Charset)
    ensures Render(seq(|s|, i requires 0 <= i < |s| => Lit(s[i])), charset) == s
    decreases |s|
  {
    if s != [] {
      var ts := seq(|s|, i requires 0 <= i < |s| => Lit(s[i]));
      assert ts[1..] == seq(|s[1..]|, i requires 0 <= i < |s[1..]| => Lit(s[1..][i]));
      RenderPlain(s[1..], charset);
      assert s == [s[0]] + s[1..];
    }
  }

  /** Text without `+` or `%` decodes to itself, whatever the charset. */
  lemma UrlDecodePlain(s: String, charset: Charset)
    requires '+' !in s && '%' !in s
    ensures UrlDecode(s, charset) == Some(s)
  {
    TokenizePlain(s);
    RenderPlain(s, charset);
  }

  // ---------------------------------------------------------------- when the decoder throws

  /** A `%` at `i` without two following characters that form a byte. */
  predicate BadEscapeAt(s: String, i: int) {
    0 <= i < |s| && s[i] == '%' && (i + 2 >= |s| || HexPair(s[i + 1], s[i + 2]).None?)
  }

  lemma BadEscapeShift(s: String, k: nat, i: int)
    requires k <= |s| && 0 <= i
    ensures BadEscapeAt(s, i + k) <==> BadEscapeAt(s[k..], i)
  {
    if i < |s[k..]| {
      assert s[k..][i] == s[i + k];
      if i + 2 < |s[k..]| {
        assert s[k..][i + 1] == s[i + k + 1] && s[k..][i + 2] == s[i + k + 2];
      }
    }
  }

  /** A well-formed escape holds no `%` after its own. */
  lemma HexPairNoPercent(c1: char, c2: char)
    requires HexPair(c1, c2).Some?
    ensures c1 != '%' && c2 != '%'
  {
  }

  /** The scan fails exactly at a `%` that does not start a well-formed escape. */
  lemma {:induction false} TokenizeFails(s: String)
    ensures Tokenize(s).None? <==> exists i :: BadEscapeAt(s, i)
    decreases |s|
  {
    if s == [] {
    } else if s[0] == '%' && (|s| < 3 || HexPair(s[1], s[2]).None?) {
      assert BadEscapeAt(s, 0);
    } else {
      var k := if s[0] == '%' then 3 else 1;
      if s[0] == '%' { HexPairNoPercent(s[1], s[2]); }
      TokenizeFails(s[k..]);
      assert Tokenize(s).None? <==> Tokenize(s[k..]).None?;
      if exists i :: BadEscapeAt(s, i) {
        var i :| BadEscapeAt(s, i);
        assert i >= k;
        BadEscapeShift(s, k, i - k);
      }
      if exists j :: BadEscapeAt(s[k..], j) {
        var j :| BadEscapeAt(s[k..], j);
        BadEscapeShift(s, k, j);
      }
    }
  }

  /** `URLDecoder.decode` throws exactly at a `%` that does not start a well-formed escape. */
  lemma UrlDecodeFails(s: String, charset: Charset)
    ensures UrlDecode(s, charset).None? <==> exists i :: BadEscapeAt(s, i)
  {
    TokenizeFails(s);
  }

  // ---------------------------------------------------------------- a run of escapes

  /** The tokens of text without `+` or `%`: each character kept. */
  function Lits(s: String): (ts: seq<Token>)
    ensures |ts| == |s| && forall i :: 0 <= i < |s| ==> ts[i] == Lit(s[i])
  {
    if s == [] then [] else [Lit(s[0])] + Lits(s[1..])
  }

  /** Each pair of characters forms a byte after a `%`. */
  predicate WellFormedEscapes(es: seq<(char, char)>) {
    forall i :: 0 <= i < |es| ==> HexPair(es[i].0, es[i].1).Some?
  }

  /** The text `%` h1 h2 `%` h3 h4 ... of a list of escapes. */
  function EscapeText(es: seq<(char, char)>): (s: String)
    ensures |s| == 3 * |es|
  {
    if es == [] then [] else ['%', es[0].0, es[0].1] + EscapeText(es[1..])
  }

  /** The bytes a list of well-formed escapes denotes. */
  function EscapeBytes(es: seq<(char, char)>): (bs: seq<byte>)
    requires WellFormedEscapes(es)
    ensures |bs| == |es| && forall i :: 0 <= i < |es| ==> bs[i] == HexPair(es[i].0, es[i].1).value
  {
    seq(|es|, i requires 0 <= i < |es| => HexPair(es[i].0, es[i].1).value)
  }

  function Octets(bs: seq<byte>): (ts: seq<Token>)
    ensures |ts| == |bs| && AllOctets(ts) && OctetBytes(ts) == bs
  {
    seq(|bs|, i requires 0 <= i < |bs| => Octet(bs[i]))
  }

  lemma {:induction false} TokenizePlainPrefix(a: String, t: String)
    requires '+' !in a && '%' !in a
    ensures Tokenize(a + t) == if Tokenize(t).None? then None else Some(Lits(a) + Tokenize(t).value)
    decreases |a|
  {
    if a == [] {
      assert a + t == t;
      if Tokenize(t).Some? {
        assert Lits(a) + Tokenize(t).value == Tokenize(t).value;
      }
    } else {
      assert a[0] != '+' && a[0] != '%' by { assert a[0] in a; }
      assert '+' !in a[1..] && '%' !in a[1..] by {
        forall i | 0 <= i < |a[1..]| ensures a[1..][i] != '+' && a[1..][i] != '%' { assert a[1..][i] == a[i + 1]; }
      }
      assert (a + t)[0] == a[0] && (a + t)[1..] == a[1..] + t;
      assert Tokenize(a + t) == Prepend(Lit(a[0]), Tokenize(a[1..] + t));
      TokenizePlainPrefix(a[1..], t);
      if Tokenize(t).Some? {
        assert Lits(a) == [Lit(a[0])] + Lits(a[1..]);
        assert [Lit(a[0])] + (Lits(a[1..]) + Tokenize(t).value) == Lits(a) + Tokenize(t).value;
      }
    }
  }

  lemma TokenizeOneEscape(h1: char, h2: char, r: String)
    requires HexPair(h1, h2).Some?
    ensures Tokenize(['%', h1, h2] + r) == Prepend(Octet(HexPair(h1, h2).value), Tokenize(r))
  {
    var u := ['%', h1, h2] + r;
    assert u[0] == '%' && u[1] == h1 && u[2] == h2 && u[3..] == r;
  }

  lemma {:induction false} TokenizeEscapesPrefix(es: seq<(char, char)>, t: String)
    requires WellFormedEscapes(es)
    ensures Tokenize(EscapeText(es) + t) == if Tokenize(t).None? then None else Some(Octets(EscapeBytes(es)) + Tokenize(t).value)
    decreases |es|
  {
    if es == [] {
      assert EscapeText(es) + t == t;
      if Tokenize(t).Some? {
        assert Octets(EscapeBytes(es)) + Tokenize(t).value == Tokenize(t).value;
      }
    } else {
      var rest := es[1..];
      assert WellFormedEscapes(rest) by {
        forall i | 0 <= i < |rest| ensures HexPair(rest[i].0, rest[i].1).Some? { assert rest[i] == es[i + 1]; }
      }
      assert EscapeText(es) + t == ['%', es[0].0, es[0].1] + (EscapeText(rest) + t);
      TokenizeOneEscape(es[0].0, es[0].1, EscapeText(rest) + t);
      TokenizeEscapesPrefix(rest, t);
      if Tokenize(t).Some? {
        var x := HexPair(es[0].0, es[0].1).value;
        OctetsCons(es);
        assert [Octet(x)] + (Octets(EscapeBytes(rest)) + Tokenize(t).value) == Octets(EscapeBytes(es)) + Tokenize(t).value;
      }
    }
  }

  lemma OctetsCons(es: seq<(char, char)>)
    requires es != [] && WellFormedEscapes(es) && WellFormedEscapes(es[1..])
    ensures Octets(EscapeBytes(es)) == [Octet(HexPair(es[0].0, es[0].1).value)] + Octets(EscapeBytes(es[1..]))
  {
    var l := Octets(EscapeBytes(es));
    var r := [Octet(HexPair(es[0].0, es[0].1).value)] + Octets(EscapeBytes(es[1..]));
    forall i | 0 <= i < |l| ensures l[i] == r[i] {
      if i > 0 {
        assert es[1..][i - 1] == es[i];
      }
    }
  }

  lemma {:induction false} RenderLitsPrefix(a: String, ts: seq<Token>, charset: Charset)
    ensures Render(Lits(a) + ts, charset) == a + Render(ts, charset)
    decreases |a|
  {
    if a != [] {
      var all := Lits(a) + ts;
      assert all[0] == Lit(a[0]) && all[1..] == Lits(a[1..]) + ts;
      RenderLitsPrefix(a[1..], ts, charset);
    } else {
      assert Lits(a) + ts == ts;
    }
  }

  /** A run of bytes followed by a kept character, or by nothing, is one run. */
  lemma OctetRunOf(bs: seq<byte>, b: String)
    ensures OctetRun(Octets(bs) + Lits(b)) == |bs|
  {
    var ts := Octets(bs) + Lits(b);
    if |bs| < |ts| {
      assert ts[|bs|] == Lit(b[0]);
    }
    assert forall i :: 0 <= i < |bs| ==> ts[i] == Octet(bs[i]);
  }

  /**
   * Consecutive escapes between plain text reach the charset together, as one
   * run of bytes, and the text around them stays as it is. This is what makes
   * `caf%C3%A9` decode to `café` in UTF-8: neither byte is a character alone.
   */
  lemma UrlDecodeEscapes(a: String, es: seq<(char, char)>, b: String, charset: Charset)
    requires '+' !in a && '%' !in a && '+' !in b && '%' !in b
    requires es != [] && WellFormedEscapes(es)
    ensures UrlDecode(a + EscapeText(es) + b, charset) == Some(a + charset(EscapeBytes(es)) + b)
  {
    var bs := EscapeBytes(es);
    var t := EscapeText(es) + b;
    assert a + EscapeText(es) + b == a + t;
    TokenizePlainPrefix(b, []);
    assert b + [] == b && Lits(b) + [] == Lits(b);
    TokenizeEscapesPrefix(es, b);
    TokenizePlainPrefix(a, t);
    var ts := Octets(bs) + Lits(b);
    assert Tokenize(a + t) == Some(Lits(a) + ts);
    OctetRunOf(bs, b);
    assert ts[..|bs|] == Octets(bs) && ts[|bs|..] == Lits(b);
    RenderLitsPrefix(b, [], charset);
    assert Render(ts, charset) == charset(bs) + b;
    RenderLitsPrefix(a, ts, charset);
    assert a + (charset(bs) + b) == a + charset(bs) + b;
  }

  /** One escape `%HH` between plain text: its byte goes through the charset on its own. */
  lemma UrlDecodeEscape(a: String, h1: char, h2: char, b: String, charset: Charset)
    requires '+' !in a && '%' !in a && '+' !in b && '%' !in b
    requires HexPair(h1, h2).Some?
    ensures UrlDecode(a + ['%', h1, h2] + b, charset) == Some(a + charset([HexPair(h1, h2).value]) + b)
  {
    var es := [(h1, h2)];
    assert EscapeText(es) == ['%', h1, h2] + EscapeText([]);
    assert ['%', h1, h2] + EscapeText([]) == ['%', h1, h2];
    assert EscapeBytes(es) == [HexPair(h1, h2).value];
    UrlDecodeEscapes(a, es, b, charset);
  }

  /** `a%20b` decodes to `a`, the charset's reading of the single byte 0x20, and `b`. */
  lemma UrlDecodeSpace(charset: Charset)
    ensures UrlDecode("a%20b", charset) == Some("a" + charset([0x20]) + "b")
  {
    assert HexPair('2', '0') == Some(0x20);
    assert "a%20b" == "a" + ['%', '2', '0'] + "b";
    UrlDecodeEscape("a", '2', '0', "b", charset);
  }

  /** `caf%C3%A9` hands the two bytes 0xC3 0xA9 to the charset in one call. */
  lemma UrlDecodeTwoBytes(charset: Charset)
    ensures UrlDecode("caf%C3%A9", charset) == Some("caf" + charset([0xC3, 0xA9]))
  {
    var es := [('C', '3'), ('A', '9')];
    assert HexPair('C', '3') == Some(0xC3) && HexPair('A', '9') == Some(0xA9);
    assert EscapeBytes(es) == [0xC3, 0xA9];
    assert EscapeText(es) == "%C3%A9" by {
      assert EscapeText(es[1..]) == ['%', 'A', '9'] + EscapeText([]);
    }
    assert "caf%C3%A9" == "caf" + EscapeText(es) + "";
    UrlDecodeEscapes("caf", es, "", charset);
    assert "caf" + charset([0xC3, 0xA9]) + "" == "caf" + charset([0xC3, 0xA9]);
  }

  // ---------------------------------------------------------------- round trip with the encoder

  /** Characters `URLEncoder` leaves as they are. */
  predicate Unreserved(c: char) {
    ('a' <= c <= 'z') || ('A' <= c <= 'Z') || ('0' <= c <= '9') || c == '.' || c == '-' || c == '*' || c == '_'
  }

  function HexUpper(d: nat): (c: char)
    requires d < 16
    ensures HexDigit(c) == Some(d) && c != '+' && c != '-'
  {
    if d < 10 then ('0' as int + d) as char else ('A' as int + d - 10) as char
  }

  /** The form serializer for ASCII text: unreserved kept, space as `+`, the rest as `%HH`. */
  function EncodeChar(c: char): String
    requires c as int < 0x80
  {
    if Unreserved(c) then [c]
    else if c == ' ' then "+"
    else ['%', HexUpper(c as int / 16), HexUpper(c as int % 16)]
  }

  function FormEncode(s: String): String
    requires IsAscii(s)
  {
    if s == [] then [] else EncodeChar(s[0]) + FormEncode(s[1..])
  }

  function EncodeToken(c: char): Token
    requires c as int < 0x80
  {
    if Unreserved(c) || c == ' ' then Lit(c) else Octet(c as int as byte)
  }

  /** The character a token stands for when every escaped byte is ASCII. */
  function TokenChar(t: Token): char
    requires t.Octet? ==> t.b < 0x80
  {
    if t.Lit? then t.c else t.b as int as char
  }

  predicate AsciiOctets(ts: seq<Token>) {
    forall i :: 0 <= i < |ts| ==> ts[i].Octet? ==> ts[i].b < 0x80
  }

  function Flatten(ts: seq<Token>): String
    requires AsciiOctets(ts)
  {
    seq(|ts|, i requires 0 <= i < |ts| => TokenChar(ts[i]))
  }

  /** A charset that decodes every run of ASCII bytes to the same characters, as UTF-8 does. */
  ghost predicate AsciiCompatible(charset: Charset) {
    forall bs: seq<byte> :: (forall i :: 0 <= i < |bs| ==> bs[i] < 0x80) ==>
      charset(bs) == seq(|bs|, i requires 0 <= i < |bs| => bs[i] as int as char)
  }

  /** The scan reads back one encoded character as its token. */
  lemma TokenizeEncodeChar(c: char, r: String)
    requires c as int < 0x80
    ensures Tokenize(EncodeChar(c) + r) == Prepend(EncodeToken(c), Tokenize(r))
  {
    var t := EncodeChar(c) + r;
    if Unreserved(c) {
      assert t[0] == c && t[1..] == r;
    } else if c == ' ' {
      assert t[0] == '+' && t[1..] == r;
    } else {
      var hi, lo := HexUpper(c as int / 16), HexUpper(c as int % 16);
      assert t[0] == '%' && t[1] == hi && t[2] == lo && t[3..] == r;
      assert HexPair(hi, lo) == Some(c as int as byte);
    }
  }

  lemma {:induction false} TokenizeEncode(s: String)
    requires IsAscii(s)
    ensures Tokenize(FormEncode(s)) == Some(seq(|s|, i requires 0 <= i < |s| => EncodeToken(s[i])))
    decreases |s|
  {
    var want := seq(|s|, i requires 0 <= i < |s| => EncodeToken(s[i]));
    if s != [] {
      var rest := s[1..];
      assert IsAscii(rest) by {
        forall i | 0 <= i < |rest| ensures rest[i] as int < 0x80 { assert rest[i] == s[i + 1]; }
      }
      TokenizeEncode(rest);
      TokenizeEncodeChar(s[0], FormEncode(rest));
      assert want == [EncodeToken(s[0])] + seq(|rest|, i requires 0 <= i < |rest| => EncodeToken(rest[i]));
    } else {
      assert want == [];
    }
  }

  lemma RunAscii(run: seq<Token>, charset: Charset)
    requires AsciiCompatible(charset) && AllOctets(run) && AsciiOctets(run)
    ensures charset(OctetBytes(run)) == Flatten(run)
  {
    var bs := OctetBytes(run);
    assert forall i :: 0 <= i < |bs| ==> bs[i] < 0x80;
  }

  lemma FlattenSplit(ts: seq<Token>, k: nat)
    requires AsciiOctets(ts) && k <= |ts|
    ensures Flatten(ts) == Flatten(ts[..k]) + Flatten(ts[k..])
  {
  }

  lemma {:induction false} RenderAscii(ts: seq<Token>, charset: Charset)
    requires AsciiCompatible(charset) && AsciiOctets(ts)
    ensures Render(ts, charset) == Flatten(ts)
    decreases |ts|
  {
    if ts != [] {
      if ts[0].Lit? {
        RenderAscii(ts[1..], charset);
        FlattenSplit(ts, 1);
      } else {
        var k := OctetRun(ts);
        RunAscii(ts[..k], charset);
        RenderAscii(ts[k..], charset);
        FlattenSplit(ts, k);
      }
    }
  }

  /**
   * Decoding undoes the form serializer on ASCII text, for any charset that
   * reads ASCII bytes as ASCII characters.
   */
  lemma UrlDecodeEncode(s: String, charset: Charset)
    requires IsAscii(s) && AsciiCompatible(charset)
    ensures UrlDecode(FormEncode(s), charset) == Some(s)
  {
    TokenizeEncode(s);
    var ts := seq(|s|, i requires 0 <= i < |s| => EncodeToken(s[i]));
    assert AsciiOctets(ts);
    RenderAscii(ts, charset);
    assert Flatten(ts) == s;
  }

  // ---------------------------------------------------------------- parsePostData

  /**
   * One `&`-separated piece: skipped (Some(None)) without an `=` after its
   * first character; otherwise the decoded text before the first `=` and the
   * decoded text after it. None where the decoder throws.
   */
  function DecodePair(pair: String, charset: Charset): Option<Option<(String, String)>>
  {
    var eq := IndexOf(pair, "=");
    if eq <= 0 then Some(None)
    else
      match UrlDecode(pair[..eq], charset)
      case None => None
      case Some(key) =>
        match UrlDecode(pair[eq + 1..], charset)
        case None => None
        case Some(value) => Some(Some((key, value)))
  }

  /** Every piece decoded in order; None as soon as one throws. */
  function DecodePairs(pairs: seq<String>, charset: Charset): Option<seq<Option<(String, String)>>>
    decreases |pairs|
  {
    if pairs == [] then Some([])
    else
      match DecodePairs(pairs[..|pairs| - 1], charset)
      case None => None
      case Some(entries) =>
        match DecodePair(pairs[|pairs| - 1], charset)
        case None => None
        case Some(e) => Some(entries + [e])
  }

  /** The map `parsePostData(body)` returns; None where it throws. */
  function FormParams(body: String, charset: Charset): Option<map<String, String>>
  {
    if body == [] then Some(map[])
    else
      match DecodePairs(JavaSplit(body, '&'), charset)
      case None => None
      case Some(entries) => Some(Assoc.Collect(entries))
  }

  /** The loop of `parsePostData`: one `put` per piece that has a key, in order. */
  method ParsePostData(body: String, charset: Charset) returns (params: Option<map<String, String>>)
    ensures params == FormParams(body, charset)
  {
    if body == [] {
      return Some(map[]);
    }
    var pairs := JavaSplit(body, '&');
    var m: map<String, String> := map[];
    var i := 0;
    while i < |pairs|
      invariant 0 <= i <= |pairs|
      invariant DecodePairs(pairs[..i], charset).Some?
      invariant m == Assoc.Collect(DecodePairs(pairs[..i], charset).value)
    {
      DecodePairsStep(pairs, i, charset);
      var decoded := DecodePair(pairs[i], charset);
      if decoded.None? {
        DecodePairsPrefix(pairs, i + 1, charset);
        return None;
      }
      Assoc.CollectSnoc(DecodePairs(pairs[..i], charset).value, decoded.value);
      if decoded.value.Some? {
        m := m[decoded.value.value.0 := decoded.value.value.1];
      }
      i := i + 1;
    }
    assert pairs[..i] == pairs;
    return Some(m);
  }

  /** Decoding one more piece: it throws, or its entry is appended. */
  lemma DecodePairsStep(pairs: seq<String>, i: nat, charset: Charset)
    requires i < |pairs| && DecodePairs(pairs[..i], charset).Some?
    ensures DecodePair(pairs[i], charset).None? ==> DecodePairs(pairs[..i + 1], charset).None?
    ensures DecodePair(pairs[i], charset).Some? ==>
      DecodePairs(pairs[..i + 1], charset) == Some(DecodePairs(pairs[..i], charset).value + [DecodePair(pairs[i], charset).value])
  {
    assert pairs[..i + 1][..i] == pairs[..i];
    assert pairs[..i + 1][i] == pairs[i];
  }

  /** Once a prefix of the pieces throws, so does the whole. */
  lemma {:induction false} DecodePairsPrefix(pairs: seq<String>, n: nat, charset: Charset)
    requires n <= |pairs| && DecodePairs(pairs[..n], charset).None?
    ensures DecodePairs(pairs, charset).None?
    decreases |pairs| - n
  {
    if n < |pairs| {
      assert pairs[..n + 1][..n] == pairs[..n];
      DecodePairsPrefix(pairs, n + 1, charset);
    } else {
      assert pairs[..n] == pairs;
    }
  }

  /** Decoding succeeds exactly when every piece decodes, and then entry `i` is piece `i`'s. */
  lemma {:induction false} DecodePairsEach(pairs: seq<String>, charset: Charset)
    ensures DecodePairs(pairs, charset).Some? <==> forall i :: 0 <= i < |pairs| ==> DecodePair(pairs[i], charset).Some?
    ensures DecodePairs(pairs, charset).Some? ==>
      var es := DecodePairs(pairs, charset).value;
      |es| == |pairs| && forall i :: 0 <= i < |pairs| ==> DecodePair(pairs[i], charset) == Some(es[i])
    decreases |pairs|
  {
    if pairs != [] {
      var n := |pairs| - 1;
      var init := pairs[..n];
      DecodePairsEach(init, charset);
      var last := DecodePair(pairs[n], charset);
      if DecodePairs(init, charset).None? {
        assert DecodePairs(pairs, charset).None?;
        var j :| 0 <= j < n && DecodePair(init[j], charset).None?;
        assert init[j] == pairs[j];
      } else if last.None? {
        assert DecodePairs(pairs, charset).None?;
      } else {
        var es := DecodePairs(init, charset).value + [last.value];
        assert DecodePairs(pairs, charset) == Some(es);
        forall i | 0 <= i < |pairs|
          ensures DecodePair(pairs[i], charset) == Some(es[i])
        {
          if i < n {
            assert init[i] == pairs[i];
          }
        }
      }
    }
  }

  /** `eq` is the first `=` of `pair`, and some character comes before it. */
  predicate KeyEnd(pair: String, eq: int) {
    0 < eq < |pair| && pair[eq] == '=' && '=' !in pair[..eq]
  }

  lemma KeyEndUnique(pair: String, e1: int, e2: int)
    requires KeyEnd(pair, e1) && KeyEnd(pair, e2)
    ensures e1 == e2
  {
  }

  /**
   * Which pieces are skipped, what a kept piece decodes to, and that a kept
   * piece throws exactly when its key or its value does not decode.
   */
  lemma DecodePairMeaning(pair: String, charset: Charset)
    ensures DecodePair(pair, charset) == Some(None) <==> ('=' !in pair || pair[0] == '=')
    ensures DecodePair(pair, charset).Some? && DecodePair(pair, charset).value.Some? ==>
      exists eq :: KeyEnd(pair, eq)
        && UrlDecode(pair[..eq], charset) == Some(DecodePair(pair, charset).value.value.0)
        && UrlDecode(pair[eq + 1..], charset) == Some(DecodePair(pair, charset).value.value.1)
    ensures DecodePair(pair, charset).None? <==>
      exists eq :: KeyEnd(pair, eq) && (UrlDecode(pair[..eq], charset).None? || UrlDecode(pair[eq + 1..], charset).None?)
  {
    var eq := IndexOf(pair, "=");
    if eq >= 0 {
      assert pair[eq..eq + 1] == "=";
      assert pair[eq] == '=';
      assert '=' !in pair[..eq] by {
        forall i | 0 <= i < eq ensures pair[i] != '=' {
          if pair[i] == '=' { assert pair[i..i + 1] == "="; assert OccursAt(pair, "=", i); }
        }
      }
      if pair != [] && pair[0] == '=' { assert OccursAt(pair, "=", 0); }
      forall e | KeyEnd(pair, e) ensures e == eq {
        if eq > 0 { KeyEndUnique(pair, e, eq); }
      }
    } else {
      if '=' in pair {
        var i :| 0 <= i < |pair| && pair[i] == '=';
        assert pair[i..i + 1] == "=";
        assert OccursAt(pair, "=", i);
      }
    }
  }

  /** Some `%` in `s` does not start a well-formed escape. */
  predicate HasBadEscape(s: String) {
    exists i | 0 <= i < |s| :: BadEscapeAt(s, i)
  }

  /** A kept piece whose key or value holds a malformed escape. */
  predicate BadPiece(pair: String) {
    exists eq | 0 < eq < |pair| :: KeyEnd(pair, eq) && (HasBadEscape(pair[..eq]) || HasBadEscape(pair[eq + 1..]))
  }

  /** A piece throws exactly when it is kept and its key or its value holds a malformed escape. */
  lemma DecodePairFails(pair: String, charset: Charset)
    ensures DecodePair(pair, charset).None? <==> BadPiece(pair)
  {
    DecodePairMeaning(pair, charset);
    forall eq | KeyEnd(pair, eq)
      ensures (UrlDecode(pair[..eq], charset).None? || UrlDecode(pair[eq + 1..], charset).None?)
        <==> (HasBadEscape(pair[..eq]) || HasBadEscape(pair[eq + 1..]))
    {
      UrlDecodeFails(pair[..eq], charset);
      UrlDecodeFails(pair[eq + 1..], charset);
    }
  }

  /** Piece `i` puts `k` with value `v`, and no later piece puts `k`. */
  predicate LastPair(pairs: seq<String>, i: int, k: String, v: String, charset: Charset) {
    && 0 <= i < |pairs|
    && DecodePair(pairs[i], charset) == Some(Some((k, v)))
    && forall j :: i < j < |pairs| ==> !PutsKey(DecodePair(pairs[j], charset), k)
  }

  predicate PutsKey(d: Option<Option<(String, String)>>, k: String) {
    d.Some? && d.value.Some? && d.value.value.0 == k
  }

  /** An empty body gives no parameters; otherwise the parse throws exactly when some kept piece does not decode. */
  lemma FormParamsFailure(body: String, charset: Charset)
    ensures body == [] ==> FormParams(body, charset) == Some(map[])
    ensures body != [] ==>
      (FormParams(body, charset).None? <==>
        exists i :: 0 <= i < |JavaSplit(body, '&')| && DecodePair(JavaSplit(body, '&')[i], charset).None?)
  {
    if body != [] {
      DecodePairsEach(JavaSplit(body, '&'), charset);
    }
  }

  /**
   * `parsePostData` throws exactly when some kept `&`-piece of the body holds
   * a malformed escape in its key or its value. An empty body is one empty
   * piece, which is skipped.
   */
  lemma FormParamsBadEscape(body: String, charset: Charset)
    ensures FormParams(body, charset).None? <==>
      exists i :: 0 <= i < |JavaSplit(body, '&')| && BadPiece(JavaSplit(body, '&')[i])
  {
    var pairs := JavaSplit(body, '&');
    FormParamsFailure(body, charset);
    forall i | 0 <= i < |pairs| ensures DecodePair(pairs[i], charset).None? <==> BadPiece(pairs[i]) {
      DecodePairFails(pairs[i], charset);
    }
    if body == [] {
      assert pairs == [""];
      assert !BadPiece("");
    }
  }

  /**
   * Last write wins: `k` maps to `v` exactly when the last `&`-piece that
   * decodes to key `k` decodes to value `v`.
   */
  lemma FormParamsLookup(body: String, charset: Charset, k: String, v: String)
    requires body != [] && FormParams(body, charset).Some?
    ensures (k in FormParams(body, charset).value && FormParams(body, charset).value[k] == v)
      <==> exists i :: LastPair(JavaSplit(body, '&'), i, k, v, charset)
  {
    var pairs := JavaSplit(body, '&');
    DecodePairsEach(pairs, charset);
    var es := DecodePairs(pairs, charset).value;
    Assoc.CollectLookup(es, k, v);
    if exists i :: LastPair(pairs, i, k, v, charset) {
      var i :| LastPair(pairs, i, k, v, charset);
      LastPairIsLastPut(pairs, es, i, k, v, charset);
    }
    if exists i :: Assoc.LastPut(es, i, k, v) {
      var i :| Assoc.LastPut(es, i, k, v);
      LastPairIsLastPut(pairs, es, i, k, v, charset);
    }
  }

  lemma LastPairIsLastPut(pairs: seq<String>, es: seq<Option<(String, String)>>, i: int, k: String, v: String, charset: Charset)
    requires |es| == |pairs| && forall j :: 0 <= j < |pairs| ==> DecodePair(pairs[j], charset) == Some(es[j])
    ensures LastPair(pairs, i, k, v, charset) <==> Assoc.LastPut(es, i, k, v)
  {
    if 0 <= i < |pairs| {
      assert forall j :: i < j < |pairs| ==> (PutsKey(DecodePair(pairs[j], charset), k) <==> Assoc.Puts(es[j], k));
    }
  }
}
