/**
 * `escapeHtml`: five `String.replace` passes over the text, `&` first, so that
 * request data can be embedded in an HTML page.
 */
module HtmlEscape {
  import opened Text

  /** `s.replace(String.valueOf(c), rep)`: every occurrence of `c` becomes `rep`. */
  function ReplaceChar(s: String, c: char, rep: String): String
  {
    if s == [] then [] else (if s[0] == c then rep else [s[0]]) + ReplaceChar(s[1..], c, rep)
  }

  /** `escapeHtml(text)` for a non-null `text`: the replacements in source order. */
  function EscapeHtml(text: String): String
  {
    var amp := ReplaceChar(text, '&', "&amp;");
    var lt := ReplaceChar(amp, '<', "&lt;");
    var gt := ReplaceChar(lt, '>', "&gt;");
    var quot := ReplaceChar(gt, '"', "&quot;");
    ReplaceChar(quot, '\'', "&#x27;")
  }

  predicate IsSpecial(c: char) {
    c == '&' || c == '<' || c == '>' || c == '"' || c == '\''
  }

  /** The entity for one of the five special characters, the character itself otherwise. */
  function EscapeChar(c: char): String
  {
    match c
    case '&' => "&amp;"
    case '<' => "&lt;"
    case '>' => "&gt;"
    case '"' => "&quot;"
    case '\'' => "&#x27;"
    case _ => [c]
  }

  /** Escaping one character at a time: the reference definition. */
  function EscapeEach(s: String): String
  {
    if s == [] then [] else EscapeChar(s[0]) + EscapeEach(s[1..])
  }

  // ---------------------------------------------------------------- the five passes are one pass

  lemma {:induction false} ReplaceCharAppend(a: String, b: String, c: char, rep: String)
    ensures ReplaceChar(a + b, c, rep) == ReplaceChar(a, c, rep) + ReplaceChar(b, c, rep)
    decreases |a|
  {
    if a == [] {
      assert a + b == b;
    } else {
      assert (a + b)[0] == a[0] && (a + b)[1..] == a[1..] + b;
      ReplaceCharAppend(a[1..], b, c, rep);
    }
  }

  lemma {:induction false} ReplaceCharAbsent(s: String, c: char, rep: String)
    requires c !in s
    ensures ReplaceChar(s, c, rep) == s
    decreases |s|
  {
    if s != [] {
      assert s[1..] + [] == s[1..];
      ReplaceCharAbsent(s[1..], c, rep);
      assert s == [s[0]] + s[1..];
    }
  }

  lemma EscapeHtmlAppend(a: String, b: String)
    ensures EscapeHtml(a + b) == EscapeHtml(a) + EscapeHtml(b)
  {
    var a1, b1 := ReplaceChar(a, '&', "&amp;"), ReplaceChar(b, '&', "&amp;");
    ReplaceCharAppend(a, b, '&', "&amp;");
    var a2, b2 := ReplaceChar(a1, '<', "&lt;"), ReplaceChar(b1, '<', "&lt;");
    ReplaceCharAppend(a1, b1, '<', "&lt;");
    var a3, b3 := ReplaceChar(a2, '>', "&gt;"), ReplaceChar(b2, '>', "&gt;");
    ReplaceCharAppend(a2, b2, '>', "&gt;");
    var a4, b4 := ReplaceChar(a3, '"', "&quot;"), ReplaceChar(b3, '"', "&quot;");
    ReplaceCharAppend(a3, b3, '"', "&quot;");
    ReplaceCharAppend(a4, b4, '\'', "&#x27;");
  }

  lemma ReplaceCharOne(c: char, d: char, rep: String)
    ensures ReplaceChar([c], d, rep) == if c == d then rep else [c]
  {
    assert [c][1..] == [];
  }

  // The passes after the first one that changes a character leave its entity
  // alone, since no entity holds a character a later pass replaces.

  lemma EscapeHtmlAmp(c: char)
    requires c == '&'
    ensures EscapeHtml([c]) == "&amp;"
  {
    var amp := ReplaceChar([c], '&', "&amp;");
    ReplaceCharOne(c, '&', "&amp;");
    assert amp == "&amp;";
    var lt := ReplaceChar(amp, '<', "&lt;");
    ReplaceCharAbsent(amp, '<', "&lt;");
    var gt := ReplaceChar(lt, '>', "&gt;");
    ReplaceCharAbsent(lt, '>', "&gt;");
    var quot := ReplaceChar(gt, '"', "&quot;");
    ReplaceCharAbsent(gt, '"', "&quot;");
    var out := ReplaceChar(quot, '\'', "&#x27;");
    ReplaceCharAbsent(quot, '\'', "&#x27;");
  }

  lemma EscapeHtmlLt(c: char)
    requires c == '<'
    ensures EscapeHtml([c]) == "&lt;"
  {
    var amp := ReplaceChar([c], '&', "&amp;");
    ReplaceCharOne(c, '&', "&amp;");
    assert amp == [c];
    var lt := ReplaceChar(amp, '<', "&lt;");
    ReplaceCharOne(c, '<', "&lt;");
    assert lt == "&lt;";
    var gt := ReplaceChar(lt, '>', "&gt;");
    ReplaceCharAbsent(lt, '>', "&gt;");
    var quot := ReplaceChar(gt, '"', "&quot;");
    ReplaceCharAbsent(gt, '"', "&quot;");
    var out := ReplaceChar(quot, '\'', "&#x27;");
    ReplaceCharAbsent(quot, '\'', "&#x27;");
  }

  lemma EscapeHtmlGt(c: char)
    requires c == '>'
    ensures EscapeHtml([c]) == "&gt;"
  {
    var amp := ReplaceChar([c], '&', "&amp;");
    ReplaceCharOne(c, '&', "&amp;");
    assert amp == [c];
    var lt := ReplaceChar(amp, '<', "&lt;");
    ReplaceCharOne(c, '<', "&lt;");
    assert lt == [c];
    var gt := ReplaceChar(lt, '>', "&gt;");
    ReplaceCharOne(c, '>', "&gt;");
    assert gt == "&gt;";
    var quot := ReplaceChar(gt, '"', "&quot;");
    ReplaceCharAbsent(gt, '"', "&quot;");
    var out := ReplaceChar(quot, '\'', "&#x27;");
    ReplaceCharAbsent(quot, '\'', "&#x27;");
  }

  lemma EscapeHtmlQuot(c: char)
    requires c == '"'
    ensures EscapeHtml([c]) == "&quot;"
  {
    var amp := ReplaceChar([c], '&', "&amp;");
    ReplaceCharOne(c, '&', "&amp;");
    assert amp == [c];
    var lt := ReplaceChar(amp, '<', "&lt;");
    ReplaceCharOne(c, '<', "&lt;");
    assert lt == [c];
    var gt := ReplaceChar(lt, '>', "&gt;");
    ReplaceCharOne(c, '>', "&gt;");
    assert gt == [c];
    var quot := ReplaceChar(gt, '"', "&quot;");
    ReplaceCharOne(c, '"', "&quot;");
    assert quot == "&quot;";
    var out := ReplaceChar(quot, '\'', "&#x27;");
    ReplaceCharAbsent(quot, '\'', "&#x27;");
  }

  lemma EscapeHtmlApos(c: char)
    requires c == '\''
    ensures EscapeHtml([c]) == "&#x27;"
  {
    var amp := ReplaceChar([c], '&', "&amp;");
    ReplaceCharOne(c, '&', "&amp;");
    assert amp == [c];
    var lt := ReplaceChar(amp, '<', "&lt;");
    ReplaceCharOne(c, '<', "&lt;");
    assert lt == [c];
    var gt := ReplaceChar(lt, '>', "&gt;");
    ReplaceCharOne(c, '>', "&gt;");
    assert gt == [c];
    var quot := ReplaceChar(gt, '"', "&quot;");
    ReplaceCharOne(c, '"', "&quot;");
    assert quot == [c];
    var out := ReplaceChar(quot, '\'', "&#x27;");
    ReplaceCharOne(c, '\'', "&#x27;");
    assert out == "&#x27;";
  }

  lemma EscapeHtmlPlain(c: char)
    requires !IsSpecial(c)
    ensures EscapeHtml([c]) == [c]
  {
    ReplaceCharOne(c, '&', "&amp;");
    ReplaceCharOne(c, '<', "&lt;");
    ReplaceCharOne(c, '>', "&gt;");
    ReplaceCharOne(c, '"', "&quot;");
    ReplaceCharOne(c, '\'', "&#x27;");
  }

  /** Passes over a single character: only the pass for that character changes it. */
  lemma EscapeHtmlChar(c: char)
    ensures EscapeHtml([c]) == EscapeChar(c)
  {
    if c == '&' { EscapeHtmlAmp(c); }
    else if c == '<' { EscapeHtmlLt(c); }
    else if c == '>' { EscapeHtmlGt(c); }
    else if c == '"' { EscapeHtmlQuot(c); }
    else if c == '\'' { EscapeHtmlApos(c); }
    else { EscapeHtmlPlain(c); }
  }

  /** The five sequential passes agree with escaping each character once. */
  lemma {:induction false} EscapeHtmlIsEscapeEach(s: String)
    ensures EscapeHtml(s) == EscapeEach(s)
    decreases |s|
  {
    if s != [] {
      assert s == [s[0]] + s[1..];
      EscapeHtmlAppend([s[0]], s[1..]);
      EscapeHtmlChar(s[0]);
      EscapeHtmlIsEscapeEach(s[1..]);
    }
  }

  // ---------------------------------------------------------------- what the output looks like

  /** One of the five entities `escapeHtml` writes starts at index `i`. */
  predicate EntityAt(s: String, i: int) {
    OccursAt(s, "&amp;", i) || OccursAt(s, "&lt;", i) || OccursAt(s, "&gt;", i)
    || OccursAt(s, "&quot;", i) || OccursAt(s, "&#x27;", i)
  }

  /** No `<`, `>`, `"` or `'`, and every `&` begins one of the five entities. */
  predicate SafeForHtml(s: String) {
    && (forall i :: 0 <= i < |s| ==> s[i] != '<' && s[i] != '>' && s[i] != '"' && s[i] != '\'')
    && (forall i :: 0 <= i < |s| && s[i] == '&' ==> EntityAt(s, i))
  }

  lemma EscapeCharSafe(c: char)
    ensures SafeForHtml(EscapeChar(c))
  {
    var e := EscapeChar(c);
    forall i | 0 <= i < |e| && e[i] == '&' ensures EntityAt(e, i) {
      assert i == 0;
    }
  }

  lemma SafeAppend(a: String, b: String)
    requires SafeForHtml(a) && SafeForHtml(b)
    ensures SafeForHtml(a + b)
  {
    var r := a + b;
    forall i | 0 <= i < |r| ensures r[i] != '<' && r[i] != '>' && r[i] != '"' && r[i] != '\'' {
      if i < |a| { assert r[i] == a[i]; } else { assert r[i] == b[i - |a|]; }
    }
    forall i | 0 <= i < |r| && r[i] == '&' ensures EntityAt(r, i) {
      if i < |a| {
        assert r[i] == a[i] && EntityAt(a, i);
        forall t: String | OccursAt(a, t, i) ensures OccursAt(r, t, i) { OccursAtAppend(a, b, t, i); }
      } else {
        var j := i - |a|;
        assert r[i] == b[j] && EntityAt(b, j);
        forall t: String | OccursAt(b, t, j) ensures OccursAt(r, t, i) { OccursAtPrepend(a, b, t, j); }
      }
    }
  }

  lemma {:induction false} EscapeEachSafe(s: String)
    ensures SafeForHtml(EscapeEach(s))
    decreases |s|
  {
    if s != [] {
      EscapeEachSafe(s[1..]);
      EscapeCharSafe(s[0]);
      SafeAppend(EscapeChar(s[0]), EscapeEach(s[1..]));
    }
  }

  /** `escapeHtml` output is safe to embed in HTML text and attribute values. */
  lemma EscapeHtmlSafe(s: String)
    ensures SafeForHtml(EscapeHtml(s))
  {
    EscapeHtmlIsEscapeEach(s);
    EscapeEachSafe(s);
  }

  predicate NoSpecial(s: String) {
    forall i :: 0 <= i < |s| ==> !IsSpecial(s[i])
  }

  lemma {:induction false} EscapeEachGrows(s: String)
    ensures |EscapeEach(s)| >= |s|
    ensures |EscapeEach(s)| == |s| ==> NoSpecial(s)
    ensures NoSpecial(s) ==> EscapeEach(s) == s
    decreases |s|
  {
    if s != [] {
      EscapeEachGrows(s[1..]);
      if NoSpecial(s) {
        assert NoSpecial(s[1..]) by {
          forall i | 0 <= i < |s[1..]| ensures !IsSpecial(s[1..][i]) { assert s[1..][i] == s[i + 1]; }
        }
        assert !IsSpecial(s[0]);
        assert s == [s[0]] + s[1..];
      }
      if |EscapeEach(s)| == |s| {
        assert !IsSpecial(s[0]);
        forall i | 0 <= i < |s| ensures !IsSpecial(s[i]) {
          if i > 0 { assert s[i] == s[1..][i - 1]; }
        }
      }
    }
  }

  /** Text is left as it is exactly when it holds none of the five characters. */
  lemma EscapeHtmlIdentity(s: String)
    ensures EscapeHtml(s) == s <==> NoSpecial(s)
  {
    EscapeHtmlIsEscapeEach(s);
    EscapeEachGrows(s);
  }

  // ---------------------------------------------------------------- unescaping

  /** Decoding of the five entities, left to right; any other text is kept. */
  function Unescape(s: String): String
    decreases |s|
  {
    if s == [] then []
    else if OccursAt(s, "&amp;", 0) then "&" + Unescape(s[5..])
    else if OccursAt(s, "&lt;", 0) then "<" + Unescape(s[4..])
    else if OccursAt(s, "&gt;", 0) then ">" + Unescape(s[4..])
    else if OccursAt(s, "&quot;", 0) then "\"" + Unescape(s[6..])
    else if OccursAt(s, "&#x27;", 0) then "'" + Unescape(s[6..])
    else [s[0]] + Unescape(s[1..])
  }

  /** A text whose `k`-th character differs from `t`'s does not start with `t`. */
  lemma Mismatch(s: String, t: String, k: nat)
    requires k < |t| && k < |s| && s[k] != t[k]
    ensures !OccursAt(s, t, 0)
  {
    if |t| <= |s| {
      assert s[0..|t|][k] == s[k];
    }
  }

  lemma UnescapeAmp(rest: String)
    ensures Unescape("&amp;" + rest) == "&" + Unescape(rest)
  {
    var s := "&amp;" + rest;
    assert s[0..5] == "&amp;" && s[5..] == rest;
  }

  lemma UnescapeLt(rest: String)
    ensures Unescape("&lt;" + rest) == "<" + Unescape(rest)
  {
    var s := "&lt;" + rest;
    assert s[1] == 'l';
    Mismatch(s, "&amp;", 1);
    assert s[0..4] == "&lt;" && s[4..] == rest;
  }

  lemma UnescapeGt(rest: String)
    ensures Unescape("&gt;" + rest) == ">" + Unescape(rest)
  {
    var s := "&gt;" + rest;
    assert s[1] == 'g';
    Mismatch(s, "&amp;", 1);
    Mismatch(s, "&lt;", 1);
    assert s[0..4] == "&gt;" && s[4..] == rest;
  }

  lemma UnescapeQuot(rest: String)
    ensures Unescape("&quot;" + rest) == "\"" + Unescape(rest)
  {
    var s := "&quot;" + rest;
    assert s[1] == 'q';
    Mismatch(s, "&amp;", 1);
    Mismatch(s, "&lt;", 1);
    Mismatch(s, "&gt;", 1);
    assert s[0..6] == "&quot;" && s[6..] == rest;
  }

  lemma UnescapeApos(rest: String)
    ensures Unescape("&#x27;" + rest) == "'" + Unescape(rest)
  {
    var s := "&#x27;" + rest;
    assert s[1] == '#';
    Mismatch(s, "&amp;", 1);
    Mismatch(s, "&lt;", 1);
    Mismatch(s, "&gt;", 1);
    Mismatch(s, "&quot;", 1);
    assert s[0..6] == "&#x27;" && s[6..] == rest;
  }

  lemma UnescapePlain(c: char, rest: String)
    requires c != '&'
    ensures Unescape([c] + rest) == [c] + Unescape(rest)
  {
    var s := [c] + rest;
    assert s[0] == c;
    Mismatch(s, "&amp;", 0);
    Mismatch(s, "&lt;", 0);
    Mismatch(s, "&gt;", 0);
    Mismatch(s, "&quot;", 0);
    Mismatch(s, "&#x27;", 0);
    assert s[1..] == rest;
  }

  /** Decoding undoes the escaping of one character. */
  lemma UnescapeStep(c: char, rest: String)
    ensures Unescape(EscapeChar(c) + rest) == [c] + Unescape(rest)
  {
    if c == '&' {
      UnescapeAmp(rest);
    } else if c == '<' {
      UnescapeLt(rest);
    } else if c == '>' {
      UnescapeGt(rest);
    } else if c == '"' {
      UnescapeQuot(rest);
    } else if c == '\'' {
      UnescapeApos(rest);
    } else {
      UnescapePlain(c, rest);
    }
  }

  lemma {:induction false} UnescapeEscapeEach(s: String)
    ensures Unescape(EscapeEach(s)) == s
    decreases |s|
  {
    if s != [] {
      UnescapeStep(s[0], EscapeEach(s[1..]));
      UnescapeEscapeEach(s[1..]);
      assert s == [s[0]] + s[1..];
    }
  }

  /** Decoding the entities of `escapeHtml`'s output gives back the text. */
  lemma UnescapeEscapeHtml(s: String)
    ensures Unescape(EscapeHtml(s)) == s
  {
    EscapeHtmlIsEscapeEach(s);
    UnescapeEscapeEach(s);
  }

  /** An injected `<script>` tag comes out as text. */
  lemma EscapeScriptTag(s: String)
    requires s == "<script>"
    ensures EscapeHtml(s) == "&lt;script&gt;"
  {
    ScriptTagPieces();
    assert NoSpecial("script");
    EscapeBracketed("script");
  }

  lemma EscapeBracketed(w: String)
    requires NoSpecial(w)
    ensures EscapeHtml("<" + w + ">") == "&lt;" + w + "&gt;"
  {
    EscapeHtmlAppend("<" + w, ">");
    EscapeHtmlAppend("<", w);
    EscapeHtmlChar('<');
    EscapeHtmlChar('>');
    EscapeHtmlIdentity(w);
  }

  lemma ScriptTagPieces()
    ensures "<script>" == "<" + "script" + ">"
    ensures "&lt;" + "script" + "&gt;" == "&lt;script&gt;"
  {
  }

  /** Whatever the text, `escapeHtml`'s output holds no `<script>` tag. */
  lemma EscapeHtmlNoScriptTag(s: String)
    ensures !Contains(EscapeHtml(s), "<script>")
  {
    EscapeHtmlSafe(s);
    NoOpenBracket(EscapeHtml(s));
  }

  lemma NoOpenBracket(x: String)
    requires forall i :: 0 <= i < |x| ==> x[i] != '<'
    ensures !Contains(x, "<script>")
  {
    forall i | 0 <= i <= |x| ensures !OccursAt(x, "<script>", i) {
      if i + 8 <= |x| { assert x[i..i + 8][0] == x[i]; }
    }
  }
}
