/**
 * The `java.lang.String` operations the request handler relies on, over strings
 * of Unicode scalar values: `indexOf`, `split` with a one-character separator,
 * `Integer.parseInt`, `Integer.toString`, and `getBytes("UTF-8")`.
 */
module Text {
  import opened Wrappers

  type String = seq<char>

  newtype byte = b: int | 0 <= b < 256

  // ---------------------------------------------------------------- indexOf

  /** `pat` occurs in `s` starting at index `i`. */
  predicate OccursAt(s: String, pat: String, i: int) {
    0 <= i && i + |pat| <= |s| && s[i..i + |pat|] == pat
  }

  /** `s.indexOf(pat)`: the first index at which `pat` occurs, or -1. */
  function IndexOf(s: String, pat: String): (r: int)
    ensures -1 <= r <= |s|
    ensures r >= 0 ==> OccursAt(s, pat, r)
    ensures r >= 0 ==> forall i :: 0 <= i < r ==> !OccursAt(s, pat, i)
    ensures r == -1 ==> forall i :: 0 <= i <= |s| ==> !OccursAt(s, pat, i)
  {
    IndexFrom(s, pat, 0)
  }

  function IndexFrom(s: String, pat: String, k: nat): (r: int)
    requires k <= |s| + 1
    ensures r == -1 || (k <= r <= |s| && OccursAt(s, pat, r))
    ensures r >= 0 ==> forall i :: k <= i < r ==> !OccursAt(s, pat, i)
    ensures r == -1 ==> forall i :: k <= i <= |s| ==> !OccursAt(s, pat, i)
    decreases |s| + 1 - k
  {
    if k + |pat| > |s| then -1
    else if s[k..k + |pat|] == pat then k
    else IndexFrom(s, pat, k + 1)
  }

  lemma OccursAtAppend(a: String, b: String, pat: String, i: int)
    requires OccursAt(a, pat, i)
    ensures OccursAt(a + b, pat, i)
  {
    assert (a + b)[i..i + |pat|] == a[i..i + |pat|];
  }

  lemma OccursAtPrepend(a: String, b: String, pat: String, i: int)
    requires OccursAt(b, pat, i)
    ensures OccursAt(a + b, pat, |a| + i)
  {
    assert (a + b)[|a| + i..|a| + i + |pat|] == b[i..i + |pat|];
  }

  // ---------------------------------------------------------------- split

  /**
   * Every piece of `s` between occurrences of `c`, empty pieces included:
   * the first step of `String.split` with a one-character separator.
   */
  function SplitAll(s: String, c: char): (r: seq<String>)
    ensures |r| >= 1
    decreases |s|
  {
    if s == [] then [[]]
    else
      var rest := SplitAll(s[1..], c);
      if s[0] == c then [[]] + rest
      else [[s[0]] + rest[0]] + rest[1..]
  }

  /** The pieces joined back together with `c` between neighbours. */
  function Join(parts: seq<String>, c: char): String
    requires |parts| >= 1
  {
    if |parts| == 1 then parts[0] else parts[0] + [c] + Join(parts[1..], c)
  }

  predicate NoneContains(parts: seq<String>, c: char) {
    forall i :: 0 <= i < |parts| ==> c !in parts[i]
  }

  /** Joining the pieces gives back the string, and no piece holds the separator. */
  lemma SplitAllJoin(s: String, c: char)
    ensures Join(SplitAll(s, c), c) == s
    ensures NoneContains(SplitAll(s, c), c)
  {
    SplitAllJoins(s, c);
    SplitAllPieces(s, c);
  }

  lemma {:induction false} SplitAllJoins(s: String, c: char)
    ensures Join(SplitAll(s, c), c) == s
    decreases |s|
  {
    if s != [] {
      var rest := SplitAll(s[1..], c);
      SplitAllJoins(s[1..], c);
      if s[0] == c {
        JoinEmptyFirst(rest, c);
      } else {
        JoinExtendFirst([s[0]], rest, c);
      }
      assert s == [s[0]] + s[1..];
    }
  }

  lemma {:induction false} SplitAllPieces(s: String, c: char)
    ensures NoneContains(SplitAll(s, c), c)
    decreases |s|
  {
    if s != [] {
      var rest := SplitAll(s[1..], c);
      SplitAllPieces(s[1..], c);
      var r := SplitAll(s, c);
      if s[0] == c {
        assert r == [[]] + rest;
        forall i | 0 <= i < |r| ensures c !in r[i] {
          if i > 0 { assert r[i] == rest[i - 1]; }
        }
      } else {
        assert r == [[s[0]] + rest[0]] + rest[1..];
        forall i | 0 <= i < |r| ensures c !in r[i] {
          if i > 0 { assert r[i] == rest[i]; }
        }
      }
    }
  }

  lemma JoinEmptyFirst(rest: seq<String>, c: char)
    requires |rest| >= 1
    ensures Join([[]] + rest, c) == [c] + Join(rest, c)
  {
    assert ([[]] + rest)[1..] == rest;
  }

  lemma JoinExtendFirst(x: String, rest: seq<String>, c: char)
    requires |rest| >= 1
    ensures Join([x + rest[0]] + rest[1..], c) == x + Join(rest, c)
  {
    var r := [x + rest[0]] + rest[1..];
    if |rest| == 1 {
      assert r == [x + rest[0]];
    } else {
      assert r[0] == x + rest[0] && r[1..] == rest[1..];
    }
  }

  /** Splitting a join of separator-free pieces gives the pieces back. */
  lemma {:induction false} JoinSplitAll(parts: seq<String>, c: char)
    requires |parts| >= 1 && NoneContains(parts, c)
    ensures SplitAll(Join(parts, c), c) == parts
    decreases |parts|, |parts[0]|
  {
    var p := parts[0];
    if p == [] {
      if |parts| > 1 {
        var tail := parts[1..];
        assert Join(parts, c) == [c] + Join(tail, c);
        JoinSplitAll(tail, c);
        assert ([c] + Join(tail, c))[1..] == Join(tail, c);
      }
    } else {
      var shorter := [p[1..]] + parts[1..];
      assert NoneContains(shorter, c) by {
        forall i | 0 <= i < |shorter| ensures c !in shorter[i] {
          if i == 0 { assert c !in p; } else { assert shorter[i] == parts[i]; }
        }
      }
      JoinSplitAll(shorter, c);
      var j := Join(parts, c);
      if |parts| == 1 {
        assert j == p;
      } else {
        assert shorter[1..] == parts[1..];
        assert j == p + [c] + Join(parts[1..], c);
        assert Join(shorter, c) == p[1..] + [c] + Join(parts[1..], c);
      }
      assert j[0] == p[0] && j[1..] == Join(shorter, c);
      assert [p[0]] + p[1..] == p;
      assert c != p[0];
      assert [[p[0]] + p[1..]] + shorter[1..] == parts;
    }
  }

  /** The pieces with every empty piece at the end removed. */
  function DropTrailingEmpty(parts: seq<String>): (r: seq<String>)
    ensures |r| <= |parts| && r == parts[..|r|]
    ensures forall i :: |r| <= i < |parts| ==> parts[i] == []
    ensures r != [] ==> r[|r| - 1] != []
  {
    if parts == [] then []
    else if parts[|parts| - 1] == [] then DropTrailingEmpty(parts[..|parts| - 1])
    else parts
  }

  /**
   * `s.split(String.valueOf(c))` for a separator that is not a regular
   * expression metacharacter: a string without the separator is its own only
   * piece; otherwise every piece is kept except the empty ones at the end.
   */
  function JavaSplit(s: String, c: char): seq<String>
  {
    if c !in s then [s] else DropTrailingEmpty(SplitAll(s, c))
  }

  /**
   * What `split` keeps: its pieces are the leading pieces of `SplitAll`, none
   * holds the separator, the dropped pieces are empty, and the last kept piece
   * of a string that holds the separator is not empty.
   */
  lemma {:induction false} JavaSplitPieces(s: String, c: char)
    ensures var r := JavaSplit(s, c);
      && r == SplitAll(s, c)[..|r|]
      && NoneContains(r, c)
      && (forall i :: |r| <= i < |SplitAll(s, c)| ==> SplitAll(s, c)[i] == [])
      && (c in s && r != [] ==> r[|r| - 1] != [])
  {
    SplitAllJoin(s, c);
    var r := JavaSplit(s, c);
    if c !in s {
      assert SplitAll(s, c) == [s] by { JoinSplitAll([s], c); }
    } else {
      forall i | 0 <= i < |r| ensures c !in r[i] {
        assert r[i] == SplitAll(s, c)[i];
      }
    }
  }

  /**
   * The meaning of `split`: separator-free pieces which, joined by the
   * separator, give back the string up to a tail made only of separators;
   * the last piece is not empty when the string holds the separator, and a
   * string without it is its own only piece.
   */
  lemma JavaSplitMeaning(s: String, c: char)
    ensures NoneContains(JavaSplit(s, c), c)
    ensures c !in s ==> JavaSplit(s, c) == [s]
    ensures var r := JavaSplit(s, c); c in s && r != [] ==> r[|r| - 1] != []
    ensures var r := JavaSplit(s, c);
      r != [] ==>
        (|Join(r, c)| <= |s| && s[..|Join(r, c)|] == Join(r, c)
         && forall i :: |Join(r, c)| <= i < |s| ==> s[i] == c)
    ensures JavaSplit(s, c) == [] ==> forall i :: 0 <= i < |s| ==> s[i] == c
  {
    JavaSplitPieces(s, c);
    SplitAllJoins(s, c);
    var all := SplitAll(s, c);
    var r := JavaSplit(s, c);
    if r != [] {
      JoinEmptyTail(all, |r|, c);
      assert all[..|r|] == r;
      assert s == Join(r, c) + seq(|all| - |r|, _ => c);
    } else {
      JoinEmpties(all, c);
    }
  }

  /** Joining pieces that are all empty gives only separators. */
  lemma {:induction false} JoinEmpties(parts: seq<String>, c: char)
    requires |parts| >= 1 && forall i :: 0 <= i < |parts| ==> parts[i] == []
    ensures Join(parts, c) == seq(|parts| - 1, _ => c)
    decreases |parts|
  {
    if |parts| > 1 {
      JoinEmpties(parts[1..], c);
      assert parts[0] == [];
      assert Join(parts, c) == [c] + seq(|parts| - 2, _ => c);
    }
  }

  /** Empty pieces at the end of a join add one separator each. */
  lemma {:induction false} JoinEmptyTail(parts: seq<String>, m: nat, c: char)
    requires 1 <= m <= |parts| && forall i :: m <= i < |parts| ==> parts[i] == []
    ensures Join(parts, c) == Join(parts[..m], c) + seq(|parts| - m, _ => c)
    decreases |parts|
  {
    if m == |parts| {
      assert parts[..m] == parts;
    } else if m == 1 {
      JoinEmpties(parts[1..], c);
      assert parts[..1] == [parts[0]];
      assert Join(parts, c) == parts[0] + [c] + seq(|parts| - 2, _ => c);
    } else {
      var tail := parts[1..];
      JoinEmptyTail(tail, m - 1, c);
      assert parts[..m][1..] == tail[..m - 1];
      assert Join(parts[..m], c) == parts[0] + [c] + Join(tail[..m - 1], c);
    }
  }

  lemma JoinHasSeparator(parts: seq<String>, c: char)
    requires |parts| >= 2
    ensures c in Join(parts, c)
  {
    assert Join(parts, c)[|parts[0]|] == c;
  }

  /** `split` gives back separator-free pieces joined by the separator, when the last piece is not empty. */
  lemma JavaSplitJoin(parts: seq<String>, c: char)
    requires |parts| >= 2 && NoneContains(parts, c) && parts[|parts| - 1] != []
    ensures JavaSplit(Join(parts, c), c) == parts
  {
    JoinHasSeparator(parts, c);
    JoinSplitAll(parts, c);
  }

  /** A separator at the very end adds an empty last piece, which `split` drops. */
  lemma JavaSplitTrailing(parts: seq<String>, c: char)
    requires |parts| >= 1 && NoneContains(parts, c) && parts[|parts| - 1] != []
    ensures JavaSplit(Join(parts + [[]], c), c) == parts
  {
    var longer := parts + [[]];
    assert NoneContains(longer, c) by {
      forall i | 0 <= i < |longer| ensures c !in longer[i] {
        if i < |parts| { assert longer[i] == parts[i]; }
      }
    }
    JoinHasSeparator(longer, c);
    JoinSplitAll(longer, c);
    assert longer[..|longer| - 1] == parts;
  }

  // ---------------------------------------------------------------- numbers

  const MinInt: int := -0x8000_0000
  const MaxInt: int := 0x7fff_ffff

  predicate IsDigit(c: char) { '0' <= c <= '9' }

  predicate AllDigits(s: String) { forall i :: 0 <= i < |s| ==> IsDigit(s[i]) }

  function DigitValue(c: char): nat requires IsDigit(c) { c as int - '0' as int }

  function DigitChar(d: nat): (c: char)
    requires d < 10
    ensures IsDigit(c) && DigitValue(c) == d
  {
    ('0' as int + d) as char
  }

  /** The number a string of decimal digits denotes, most significant first. */
  function DigitsValue(ds: String): nat
    requires AllDigits(ds)
  {
    if ds == [] then 0 else DigitsValue(ds[..|ds| - 1]) * 10 + DigitValue(ds[|ds| - 1])
  }

  /**
   * `Integer.parseInt(s)`: an optional sign and at least one decimal digit,
   * within the 32-bit range; anything else is a `NumberFormatException` (None).
   */
  function ParseInt(s: String): (r: Option<int>)
    ensures r.Some? ==> MinInt <= r.value <= MaxInt
    ensures r.Some? ==> s != [] && (IsDigit(s[0]) || s[0] == '-' || s[0] == '+')
  {
    if s == [] then None
    else
      var negative := s[0] == '-';
      var digits := if s[0] == '-' || s[0] == '+' then s[1..] else s;
      if digits == [] || !AllDigits(digits) then None
      else
        var v: int := if negative then -(DigitsValue(digits) as int) else DigitsValue(digits);
        if MinInt <= v <= MaxInt then Some(v) else None
  }

  /**
   * What `Integer.parseInt` accepts and what it yields: the decimal digits
   * alone, or after a `+`, give their value; after a `-`, its negation; and
   * the result must lie in the 32-bit range.
   */
  lemma ParseIntMeaning(s: String, v: int)
    ensures ParseInt(s) == Some(v) <==>
      && MinInt <= v <= MaxInt
      && ( (s != [] && AllDigits(s) && v == DigitsValue(s))
        || (|s| > 1 && s[0] == '+' && AllDigits(s[1..]) && v == DigitsValue(s[1..]))
        || (|s| > 1 && s[0] == '-' && AllDigits(s[1..]) && v == -(DigitsValue(s[1..]) as int)) )
  {
    if s == [] {
    } else if s[0] == '+' || s[0] == '-' {
      SignNotDigit(s);
      ParseIntSigned(s, v);
    } else {
      ParseIntUnsigned(s, v);
    }
  }

  lemma SignNotDigit(s: String)
    requires s != [] && (s[0] == '+' || s[0] == '-')
    ensures !AllDigits(s)
  {
    assert !IsDigit(s[0]);
  }

  lemma ParseIntSigned(s: String, v: int)
    requires s != [] && (s[0] == '+' || s[0] == '-')
    ensures ParseInt(s) == Some(v) <==>
      && MinInt <= v <= MaxInt && |s| > 1 && AllDigits(s[1..])
      && v == (if s[0] == '-' then -(DigitsValue(s[1..]) as int) else DigitsValue(s[1..]))
  {
    assert s[1..] == [] <==> |s| == 1;
  }

  lemma ParseIntUnsigned(s: String, v: int)
    requires s != [] && s[0] != '+' && s[0] != '-'
    ensures ParseInt(s) == Some(v) <==> MinInt <= v <= MaxInt && AllDigits(s) && v == DigitsValue(s)
  {
  }

  /** `Integer.toString(n)` for a non-negative `n`. */
  function Decimal(n: nat): (r: String)
    ensures r != [] && AllDigits(r)
    ensures IsDigit(r[0])
  {
    if n < 10 then [DigitChar(n)] else Decimal(n / 10) + [DigitChar(n % 10)]
  }

  lemma {:induction false} DecimalValue(n: nat)
    ensures DigitsValue(Decimal(n)) == n
  {
    if n >= 10 {
      DecimalValue(n / 10);
      var d := Decimal(n);
      assert d[..|d| - 1] == Decimal(n / 10);
    }
  }

  /** `Integer.parseInt` reads back every number `Integer.toString` writes. */
  lemma ParseDecimal(n: nat)
    requires n <= MaxInt
    ensures ParseInt(Decimal(n)) == Some(n)
  {
    DecimalValue(n);
  }

  // ---------------------------------------------------------------- UTF-8

  /** The UTF-8 encoding of one scalar value (RFC 3629, section 3). */
  function CharUtf8(c: char): (bs: seq<byte>)
    ensures 1 <= |bs| <= 4
  {
    var v := c as int;
    if v < 0x80 then [v as byte]
    else if v < 0x800 then [(0xC0 + v / 0x40) as byte, (0x80 + v % 0x40) as byte]
    else if v < 0x1_0000 then
      [(0xE0 + v / 0x1000) as byte, (0x80 + v / 0x40 % 0x40) as byte, (0x80 + v % 0x40) as byte]
    else
      [(0xF0 + v / 0x4_0000) as byte, (0x80 + v / 0x1000 % 0x40) as byte,
       (0x80 + v / 0x40 % 0x40) as byte, (0x80 + v % 0x40) as byte]
  }

  /** `s.getBytes("UTF-8")`. */
  function Utf8Encode(s: String): seq<byte> {
    if s == [] then [] else CharUtf8(s[0]) + Utf8Encode(s[1..])
  }

  predicate IsAscii(s: String) { forall i :: 0 <= i < |s| ==> s[i] as int < 0x80 }

  lemma AsciiAppend(a: String, b: String)
    requires IsAscii(a) && IsAscii(b)
    ensures IsAscii(a + b)
  {
    assert forall i :: |a| <= i < |a + b| ==> (a + b)[i] == b[i - |a|];
  }

  /** An ASCII string takes one byte per character. */
  lemma {:induction false} AsciiUtf8Length(s: String)
    requires IsAscii(s)
    ensures |Utf8Encode(s)| == |s|
    decreases |s|
  {
    if s != [] {
      assert s[0] as int < 0x80;
      AsciiUtf8Length(s[1..]);
    }
  }

  /** Byte count and character count differ for non-ASCII text, by at most four times. */
  lemma {:induction false} Utf8LengthBounds(s: String)
    ensures |s| <= |Utf8Encode(s)| <= 4 * |s|
    ensures |Utf8Encode(s)| == |s| <==> IsAscii(s)
    decreases |s|
  {
    if s != [] {
      Utf8LengthBounds(s[1..]);
      assert IsAscii(s) <==> s[0] as int < 0x80 && IsAscii(s[1..]) by {
        if s[0] as int < 0x80 && IsAscii(s[1..]) {
          forall i | 0 <= i < |s| ensures s[i] as int < 0x80 {
            if i > 0 { assert s[i] == s[1..][i - 1]; }
          }
        }
        if IsAscii(s) {
          forall i | 0 <= i < |s[1..]| ensures s[1..][i] as int < 0x80 {
            assert s[1..][i] == s[i + 1];
          }
        }
      }
    }
  }

  // ---------------------------------------------------------------- substrings

  /** `s.contains(t)`. */
  predicate Contains(s: String, t: String) {
    exists i :: 0 <= i <= |s| && OccursAt(s, t, i)
  }

  lemma ContainsWithin(a: String, t: String, b: String)
    ensures Contains(a + t + b, t)
  {
    assert OccursAt(a + t + b, t, |a|) by {
      assert (a + t + b)[|a|..|a| + |t|] == t;
    }
  }

  /** A string still contains `t` after text is added on either side. */
  lemma ContainsExtend(a: String, s: String, b: String, t: String)
    requires Contains(s, t)
    ensures Contains(a + s + b, t)
  {
    var i :| 0 <= i <= |s| && OccursAt(s, t, i);
    assert (a + s + b)[|a| + i..|a| + i + |t|] == s[i..i + |t|];
    assert OccursAt(a + s + b, t, |a| + i);
  }

  lemma ContainsAtEnd(a: String, t: String)
    ensures Contains(a + t, t)
  {
    assert (a + t)[|a|..|a| + |t|] == t;
    assert OccursAt(a + t, t, |a|);
  }

  lemma ContainsAppend(s: String, b: String, t: String)
    requires Contains(s, t)
    ensures Contains(s + b, t)
  {
    var i :| 0 <= i <= |s| && OccursAt(s, t, i);
    assert (s + b)[i..i + |t|] == s[i..i + |t|];
    assert OccursAt(s + b, t, i);
  }
}
