/** Go's `html.EscapeString` and the part of `html.UnescapeString` that
    inverts it: the five character references the escaper writes. */
module Html {

  /** The runes `EscapeString` rewrites. */
  predicate Special(c: char) {
    c == '&' || c == '\'' || c == '<' || c == '>' || c == '"'
  }

  /** What `EscapeString` writes for one rune. */
  function EscapeRune(c: char): (r: string)
    ensures Special(c) ==> |r| >= 4 && r[0] == '&' && r[|r| - 1] == ';'
    ensures !Special(c) ==> r == [c]
  {
    match c
    case '&' => "&amp;"
    case '\'' => "&#39;"
    case '<' => "&lt;"
    case '>' => "&gt;"
    case '"' => "&#34;"
    case _ => [c]
  }

  /** `html.EscapeString`. */
  function Escape(s: string): (r: string)
    ensures |r| >= |s|
    ensures '<' !in r && '>' !in r
  {
    if s == [] then [] else EscapeRune(s[0]) + Escape(s[1..])
  }

  /** `html.UnescapeString` restricted to the references `Escape` produces;
      any other `&` is kept as it is. */
  function Unescape(s: string): (r: string)
    decreases |s|
  {
    if s == [] then []
    else if |s| >= 5 && s[..5] == "&amp;" then "&" + Unescape(s[5..])
    else if |s| >= 5 && s[..5] == "&#39;" then "'" + Unescape(s[5..])
    else if |s| >= 5 && s[..5] == "&#34;" then "\"" + Unescape(s[5..])
    else if |s| >= 4 && s[..4] == "&lt;" then "<" + Unescape(s[4..])
    else if |s| >= 4 && s[..4] == "&gt;" then ">" + Unescape(s[4..])
    else [s[0]] + Unescape(s[1..])
  }

  lemma {:induction false} EscapeAppend(a: string, b: string)
    ensures Escape(a + b) == Escape(a) + Escape(b)
  {
    if a != [] {
      assert (a + b)[0] == a[0];
      assert (a + b)[1..] == a[1..] + b;
      EscapeAppend(a[1..], b);
    } else {
      assert a + b == b;
    }
  }

  /** A string with no special rune escapes to itself. */
  lemma {:induction false} EscapePlain(s: string)
    requires forall i :: 0 <= i < |s| ==> !Special(s[i])
    ensures Escape(s) == s
  {
    if s != [] {
      EscapePlain(s[1..]);
    }
  }

  /** Decoding an escaped string gives it back. */
  lemma {:induction false} UnescapeEscape(s: string)
    ensures Unescape(Escape(s)) == s
  {
    if s != [] {
      UnescapeEscape(s[1..]);
      UnescapeEscapeRune(s[0], Escape(s[1..]));
      assert s == [s[0]] + s[1..];
    }
  }

  /** Decoding reads one escaped rune back and goes on with the rest. */
  lemma UnescapeEscapeRune(c: char, rest: string)
    ensures Unescape(EscapeRune(c) + rest) == [c] + Unescape(rest)
  {
    var t := EscapeRune(c) + rest;
    if !Special(c) {
      UnescapePlainRune(c, rest);
    } else if c == '&' || c == '\'' || c == '"' {
      UnescapeLongEntity(c, rest);
    } else {
      UnescapeShortEntity(c, rest);
    }
  }

  lemma UnescapePlainRune(c: char, rest: string)
    requires !Special(c)
    ensures Unescape([c] + rest) == [c] + Unescape(rest)
  {
    var t := [c] + rest;
    assert t[0] == c && t[1..] == rest;
    assert |t| >= 4 ==> t[..4][0] == c;
    assert |t| >= 5 ==> t[..5][0] == c;
  }

  lemma UnescapeLongEntity(c: char, rest: string)
    requires c == '&' || c == '\'' || c == '"'
    ensures Unescape(EscapeRune(c) + rest) == [c] + Unescape(rest)
  {
    var t := EscapeRune(c) + rest;
    assert t[..5] == EscapeRune(c) && t[5..] == rest;
  }

  lemma UnescapeShortEntity(c: char, rest: string)
    requires c == '<' || c == '>'
    ensures Unescape(EscapeRune(c) + rest) == [c] + Unescape(rest)
  {
    var t := EscapeRune(c) + rest;
    assert t[..4] == EscapeRune(c) && t[4..] == rest;
    assert t[1] == EscapeRune(c)[1];
    assert |t| >= 5 ==> t[..5][1] == t[1];
  }

  /** Decoding never lengthens a string. */
  lemma {:induction false} UnescapeShrinks(s: string)
    ensures |Unescape(s)| <= |s|
    decreases |s|
  {
    if s != [] {
      if |s| >= 5 && (s[..5] == "&amp;" || s[..5] == "&#39;" || s[..5] == "&#34;") {
        UnescapeShrinks(s[5..]);
      } else if |s| >= 4 && (s[..4] == "&lt;" || s[..4] == "&gt;") {
        UnescapeShrinks(s[4..]);
      } else {
        UnescapeShrinks(s[1..]);
      }
    }
  }

  /** Without an `&` there is nothing to decode. */
  lemma {:induction false} UnescapeNoAmpersand(s: string)
    requires '&' !in s
    ensures Unescape(s) == s
  {
    if s != [] {
      assert s[0] != '&';
      UnescapeNoAmpersand(s[1..]);
    }
  }

  /** A prefix without `&` of an escaped string is the same prefix of the
      original: escaping only ever writes an `&` where it changed something. */
  lemma {:induction false} EscapedPrefix(t: string, w: string)
    requires '&' !in w
    requires |Escape(t)| >= |w| && Escape(t)[..|w|] == w
    ensures |t| >= |w| && t[..|w|] == w
    decreases |w|
  {
    if w != [] {
      assert t != [];
      var e := EscapeRune(t[0]);
      assert Escape(t) == e + Escape(t[1..]);
      assert Escape(t)[0] == w[0] && w[0] in w;
      assert !Special(t[0]);
      assert Escape(t)[1..] == Escape(t[1..]);
      assert Escape(t[1..])[..|w| - 1] == w[1..];
      EscapedPrefix(t[1..], w[1..]);
      assert t[..|w|] == [t[0]] + t[1..][..|w| - 1];
    }
  }
}
