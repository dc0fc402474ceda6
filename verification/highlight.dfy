/** Syntax highlighting of one source line: `keywordToColor` and `format` in
    `source.go`.

    `format` works on strings: spaces become no-break spaces, the line is
    HTML-escaped, then every keyword of the table, in table order, is
    replaced everywhere by itself wrapped in a coloured `<span>`. That
    string is what `FormatString` computes.

    The same result is also described as a tree of fragments (`Frag`): raw
    text runs and coloured spans. `FormatFrags` builds that tree keyword by
    keyword, and `FormatAgrees` proves that serializing it gives exactly
    `FormatString`. The tree is what the browser builds from the markup, and
    it is what the editor's lines are made of. */
module Highlight {
  import opened Strings
  import Html

  const Nbsp: char := '\U{00A0}'

  /** One entry of `keywordToColor`: a colour and the words shown in it. */
  datatype ColorGroup = ColorGroup(color: string, words: seq<string>)

  const LanguageKeyword: string := "var" + "(--" + "language" + "-" + "keyword" + ")"
  const TypeKeyword: string := "var" + "(--" + "type" + "-" + "keyword" + ")"

  const LanguageWords: seq<string> := ["var", "const", "return", "struct", "func", "package", "import"]
  const TypeWords: seq<string> := ["bool", "string", "int32", "int64", "bfloat64", "float32", "float64"]

  /** `keywordToColor`, in its order. */
  const KeywordToColor: seq<ColorGroup> := [
    ColorGroup(LanguageKeyword, LanguageWords),
    ColorGroup(TypeKeyword, TypeWords)
  ]

  function OpenTag(color: string): string {
    "<" + "span" + " " + "style" + "=\"" + "color" + ":" + color + ";\">"
  }

  const CloseTag: string := "</" + "span" + ">"

  /** `fmt.Sprintf(fontTag, word)`: the word inside a span of the colour. */
  function FontTag(color: string, word: string): string {
    OpenTag(color) + word + CloseTag
  }

  /** The first step of `format`: spaces become no-break spaces. */
  function KeepSpaces(line: string): string {
    ReplaceAll(line, " ", [Nbsp])
  }

  // ---------------------------------------------------------------------
  // format, on strings
  // ---------------------------------------------------------------------

  function ReplaceWords(s: string, color: string, words: seq<string>): string
    decreases |words|
  {
    if words == [] then s
    else ReplaceWords(ReplaceAll(s, words[0], FontTag(color, words[0])), color, words[1..])
  }

  function ReplaceGroups(s: string, groups: seq<ColorGroup>): string
    decreases |groups|
  {
    if groups == [] then s
    else ReplaceGroups(ReplaceWords(s, groups[0].color, groups[0].words), groups[1..])
  }

  /** `format`. */
  function FormatString(line: string): string {
    ReplaceGroups(Html.Escape(KeepSpaces(line)), KeywordToColor)
  }

  // ---------------------------------------------------------------------
  // format, as a tree of fragments
  // ---------------------------------------------------------------------

  /** A run of raw (unescaped) text, or a coloured span around fragments. */
  datatype Frag = Chars(text: string) | Span(color: string, kids: seq<Frag>)

  /** The markup a sequence of fragments stands for. */
  function Serialize(fs: seq<Frag>): string
    decreases fs
  {
    if fs == [] then []
    else
      (match fs[0]
       case Chars(t) => Html.Escape(t)
       case Span(c, kids) => OpenTag(c) + Serialize(kids) + CloseTag)
      + Serialize(fs[1..])
  }

  /** The text of a sequence of fragments, as a reader sees it. */
  function FragText(fs: seq<Frag>): string
    decreases fs
  {
    if fs == [] then []
    else
      (match fs[0]
       case Chars(t) => t
       case Span(_, kids) => FragText(kids))
      + FragText(fs[1..])
  }

  /** Text runs are never empty and never next to each other. */
  predicate WellFormed(fs: seq<Frag>)
    decreases fs
  {
    fs == [] ||
    ((match fs[0]
      case Chars(t) => t != [] && (|fs| == 1 || fs[1].Span?)
      case Span(_, kids) => WellFormed(kids))
     && WellFormed(fs[1..]))
  }

  /** Every span colour is one of `cs`. */
  predicate ColorsIn(fs: seq<Frag>, cs: set<string>)
    decreases fs
  {
    fs == [] ||
    ((match fs[0]
      case Chars(_) => true
      case Span(c, kids) => c in cs && ColorsIn(kids, cs))
     && ColorsIn(fs[1..], cs))
  }

  /** Text with nothing highlighted. */
  function Plain(t: string): seq<Frag> {
    if t == [] then [] else [Chars(t)]
  }

  /** `fs` with rune `c` in front, merged into a leading text run. */
  function Prepend(c: char, fs: seq<Frag>): seq<Frag> {
    if fs != [] && fs[0].Chars? then [Chars([c] + fs[0].text)] + fs[1..]
    else [Chars([c])] + fs
  }

  /** Highlighting one word in a raw text run: each occurrence, scanning
      from the left and resuming after it, becomes a span. */
  function HighlightText(t: string, w: string, color: string): seq<Frag>
    requires w != []
    decreases |t|
  {
    if t == [] then []
    else if |t| >= |w| && t[..|w|] == w then [Span(color, [Chars(w)])] + HighlightText(t[|w|..], w, color)
    else Prepend(t[0], HighlightText(t[1..], w, color))
  }

  /** Highlighting one word everywhere, inside existing spans too. */
  function HighlightFrags(fs: seq<Frag>, w: string, color: string): seq<Frag>
    requires w != []
    decreases fs
  {
    if fs == [] then []
    else
      (match fs[0]
       case Chars(t) => HighlightText(t, w, color)
       case Span(c, kids) => [Span(c, HighlightFrags(kids, w, color))])
      + HighlightFrags(fs[1..], w, color)
  }

  predicate NonEmptyWords(words: seq<string>) {
    forall i :: 0 <= i < |words| ==> words[i] != []
  }

  function HighlightWords(fs: seq<Frag>, color: string, words: seq<string>): seq<Frag>
    requires NonEmptyWords(words)
    decreases |words|
  {
    if words == [] then fs
    else HighlightWords(HighlightFrags(fs, words[0], color), color, words[1..])
  }

  predicate NonEmptyGroups(groups: seq<ColorGroup>) {
    forall i :: 0 <= i < |groups| ==> NonEmptyWords(groups[i].words)
  }

  function HighlightGroups(fs: seq<Frag>, groups: seq<ColorGroup>): seq<Frag>
    requires NonEmptyGroups(groups)
    decreases |groups|
  {
    if groups == [] then fs
    else HighlightGroups(HighlightWords(fs, groups[0].color, groups[0].words), groups[1..])
  }

  /** `format` as a tree: the highlighted fragments of a line. */
  function FormatFrags(line: string): seq<Frag> {
    HighlightGroups(Plain(KeepSpaces(line)), KeywordToColor)
  }

  // ---------------------------------------------------------------------
  // Words that can be highlighted safely
  // ---------------------------------------------------------------------

  predicate IsWordChar(c: char) {
    ('a' <= c <= 'z') || ('A' <= c <= 'Z') || ('0' <= c <= '9')
  }

  predicate WordChars(w: string) {
    forall i :: 0 <= i < |w| ==> IsWordChar(w[i])
  }

  predicate NoWordChars(s: string) {
    forall i :: 0 <= i < |s| ==> !IsWordChar(s[i])
  }

  /** A keyword of letters and digits, long enough that it cannot occur
      inside an entity `Escape` writes: `&amp;`'s `amp` is excluded. */
  predicate SafeWord(w: string) {
    |w| >= 3 && WordChars(w) && w != "amp"
  }

  lemma WordDisjoint(sep: string, w: string)
    requires NoWordChars(sep) && WordChars(w)
    ensures Disjoint(sep, w)
  {
    forall i | 0 <= i < |sep| ensures sep[i] !in w {
      assert !IsWordChar(sep[i]);
      assert forall k :: 0 <= k < |w| ==> IsWordChar(w[k]);
    }
  }

  lemma EscapeWord(w: string)
    requires WordChars(w)
    ensures Html.Escape(w) == w
  {
    forall i | 0 <= i < |w| ensures !Html.Special(w[i]) {
      assert IsWordChar(w[i]);
    }
    Html.EscapePlain(w);
  }

  /** The entity written for a special rune hosts no keyword, wherever the
      keyword would start inside it. */
  lemma EntityNoMatch(c: char, rest: string, w: string, j: nat)
    requires Html.Special(c) && SafeWord(w) && j < |Html.EscapeRune(c)|
    ensures !OccursAt(Html.EscapeRune(c) + rest, j, w)
  {
    var e := Html.EscapeRune(c);
    var x := e + rest;
    if j + |w| <= |x| {
      var win := x[j..j + |w|];
      var k: nat;
      if j == 0 {
        k := 0;
      } else if j + |w| >= |e| {
        k := |e| - 1 - j;
      } else {
        assert |e| == 5 && j == 1 && |w| == 3;
        if c == '&' {
          AmpWindow(rest);
          return;
        }
        k := 0;
      }
      assert j + k < |e| && k < |w|;
      assert win[k] == x[j + k] == e[j + k];
      assert !IsWordChar(e[j + k]);
      assert IsWordChar(w[k]);
    }
  }

  /** The only three-rune window inside an entity that is all letters. */
  lemma AmpWindow(rest: string)
    ensures (Html.EscapeRune('&') + rest)[1..4] == "amp"
  {
    var x := Html.EscapeRune('&') + rest;
    assert x[1] == 'a' && x[2] == 'm' && x[3] == 'p';
  }

  // ---------------------------------------------------------------------
  // The two models agree
  // ---------------------------------------------------------------------

  lemma {:induction false} SerializeAppend(a: seq<Frag>, b: seq<Frag>)
    ensures Serialize(a + b) == Serialize(a) + Serialize(b)
  {
    if a != [] {
      assert (a + b)[0] == a[0] && (a + b)[1..] == a[1..] + b;
      SerializeAppend(a[1..], b);
    } else {
      assert a + b == b;
    }
  }

  lemma {:induction false} FragTextAppend(a: seq<Frag>, b: seq<Frag>)
    ensures FragText(a + b) == FragText(a) + FragText(b)
  {
    if a != [] {
      assert (a + b)[0] == a[0] && (a + b)[1..] == a[1..] + b;
      FragTextAppend(a[1..], b);
    } else {
      assert a + b == b;
    }
  }

  lemma SerializePrepend(c: char, fs: seq<Frag>)
    ensures Serialize(Prepend(c, fs)) == Html.EscapeRune(c) + Serialize(fs)
    ensures FragText(Prepend(c, fs)) == [c] + FragText(fs)
  {
    if fs != [] && fs[0].Chars? {
      PrependMergeMarkup(c, fs);
      PrependMergeText(c, fs);
    } else {
      PrependNew(c, fs);
    }
  }

  lemma PrependMergeMarkup(c: char, fs: seq<Frag>)
    requires fs != [] && fs[0].Chars?
    ensures Serialize(Prepend(c, fs)) == Html.EscapeRune(c) + Serialize(fs)
  {
    var t := fs[0].text;
    var rest := fs[1..];
    var p := Prepend(c, fs);
    var e := Html.Escape([c] + t);
    assert Serialize(p) == e + Serialize(rest) by {
      assert p == [Chars([c] + t)] + rest;
      assert p[1..] == rest;
    }
    assert Serialize(fs) == Html.Escape(t) + Serialize(rest);
    assert e == Html.EscapeRune(c) + Html.Escape(t) by {
      Html.EscapeAppend([c], t);
      EscapeOne(c);
    }
    Associate(Html.EscapeRune(c), Html.Escape(t), Serialize(rest));
  }

  lemma PrependMergeText(c: char, fs: seq<Frag>)
    requires fs != [] && fs[0].Chars?
    ensures FragText(Prepend(c, fs)) == [c] + FragText(fs)
  {
    var t := fs[0].text;
    var rest := fs[1..];
    var p := Prepend(c, fs);
    assert FragText(p) == ([c] + t) + FragText(rest) by {
      assert p == [Chars([c] + t)] + rest;
      assert p[1..] == rest;
    }
    assert FragText(fs) == t + FragText(rest);
    Associate([c], t, FragText(rest));
  }

  lemma PrependNew(c: char, fs: seq<Frag>)
    requires !(fs != [] && fs[0].Chars?)
    ensures Serialize(Prepend(c, fs)) == Html.EscapeRune(c) + Serialize(fs)
    ensures FragText(Prepend(c, fs)) == [c] + FragText(fs)
  {
    var h := Chars([c]);
    assert Prepend(c, fs) == [h] + fs;
    SerializeAppend([h], fs);
    FragTextAppend([h], fs);
    SerializeOne(h);
    EscapeOne(c);
  }

  lemma EscapeOne(c: char)
    ensures Html.Escape([c]) == Html.EscapeRune(c)
  {
    assert [c][1..] == [];
  }

  lemma SerializeOne(f: Frag)
    ensures f.Chars? ==> Serialize([f]) == Html.Escape(f.text) && FragText([f]) == f.text
    ensures f.Span? ==> Serialize([f]) == OpenTag(f.color) + Serialize(f.kids) + CloseTag
    ensures f.Span? ==> FragText([f]) == FragText(f.kids)
  {
    assert [f][1..] == [];
  }

  /** One highlighted word, serialized. */
  lemma SerializeWordSpan(w: string, color: string, rest: seq<Frag>)
    requires WordChars(w)
    ensures Serialize([Span(color, [Chars(w)])] + rest) == FontTag(color, w) + Serialize(rest)
    ensures FragText([Span(color, [Chars(w)])] + rest) == w + FragText(rest)
  {
    var s := [Span(color, [Chars(w)])];
    SerializeAppend(s, rest);
    FragTextAppend(s, rest);
    EscapeWord(w);
    SerializeOne(Chars(w));
    SerializeOne(Span(color, [Chars(w)]));
  }

  /** The scan of `ReplaceAll` over an escaped run reads the first rune's
      escape without finding the word in it, unless the raw text starts with
      the word. */
  lemma EscapedStep(t: string, w: string, rep: string)
    requires SafeWord(w) && t != []
    requires !(|t| >= |w| && t[..|w|] == w)
    ensures ReplaceAll(Html.Escape(t), w, rep) == Html.EscapeRune(t[0]) + ReplaceAll(Html.Escape(t[1..]), w, rep)
  {
    var e := Html.EscapeRune(t[0]);
    var rest := Html.Escape(t[1..]);
    assert Html.Escape(t) == e + rest;
    forall j | 0 <= j < |e| ensures !OccursAt(e + rest, j, w) {
      if Html.Special(t[0]) {
        EntityNoMatch(t[0], rest, w, j);
      } else {
        NoMatchAtStart(t, w);
      }
    }
    ReplaceAllSkip(e, rest, w, rep);
  }

  lemma NoMatchAtStart(t: string, w: string)
    requires SafeWord(w) && t != []
    requires !(|t| >= |w| && t[..|w|] == w)
    ensures !OccursAt(Html.Escape(t), 0, w)
  {
    if OccursAt(Html.Escape(t), 0, w) {
      assert Html.Escape(t)[..|w|] == Html.Escape(t)[0..|w|];
      assert '&' !in w by {
        WordDisjoint("&", w);
      }
      Html.EscapedPrefix(t, w);
    }
  }

  /** Highlighting a raw run is replacing in its escaped form. */
  lemma {:induction false} HighlightTextSerialize(t: string, w: string, color: string)
    requires SafeWord(w)
    ensures Serialize(HighlightText(t, w, color)) == ReplaceAll(Html.Escape(t), w, FontTag(color, w))
    decreases |t|
  {
    var rep := FontTag(color, w);
    if t == [] {
    } else if |t| >= |w| && t[..|w|] == w {
      var rest := t[|w|..];
      HighlightTextSerialize(rest, w, color);
      SerializeWordSpan(w, color, HighlightText(rest, w, color));
      assert t == w + rest;
      Html.EscapeAppend(w, rest);
      EscapeWord(w);
      ReplaceAllMatch(w + Html.Escape(rest), w, rep);
      assert (w + Html.Escape(rest))[..|w|] == w;
      assert (w + Html.Escape(rest))[|w|..] == Html.Escape(rest);
    } else {
      HighlightTextSerialize(t[1..], w, color);
      SerializePrepend(t[0], HighlightText(t[1..], w, color));
      EscapedStep(t, w, rep);
    }
  }

  /** Highlighting keeps the text. */
  lemma {:induction false} HighlightTextText(t: string, w: string, color: string)
    requires WordChars(w) && w != []
    ensures FragText(HighlightText(t, w, color)) == t
    decreases |t|
  {
    if t == [] {
    } else if |t| >= |w| && t[..|w|] == w {
      HighlightTextText(t[|w|..], w, color);
      SerializeWordSpan(w, color, HighlightText(t[|w|..], w, color));
      assert t == w + t[|w|..];
    } else {
      HighlightTextText(t[1..], w, color);
      SerializePrepend(t[0], HighlightText(t[1..], w, color));
      assert t == [t[0]] + t[1..];
    }
  }

  lemma {:induction false} WellFormedAppend(a: seq<Frag>, b: seq<Frag>)
    requires WellFormed(a) && WellFormed(b)
    requires a != [] && b != [] ==> !(a[|a| - 1].Chars? && b[0].Chars?)
    ensures WellFormed(a + b)
    decreases a
  {
    if a != [] {
      assert (a + b)[0] == a[0] && (a + b)[1..] == a[1..] + b;
      assert WellFormed(a[1..]);
      assert a[1..] != [] ==> a[1..][|a[1..]| - 1] == a[|a| - 1];
      WellFormedAppend(a[1..], b);
      if a[0].Chars? && |a| == 1 && b != [] {
        assert (a + b)[1] == b[0];
      }
      if |a| > 1 {
        assert (a + b)[1] == a[1];
      }
    } else {
      assert a + b == b;
    }
  }

  lemma {:induction false} ColorsInAppend(a: seq<Frag>, b: seq<Frag>, cs: set<string>)
    requires ColorsIn(a, cs) && ColorsIn(b, cs)
    ensures ColorsIn(a + b, cs)
    decreases a
  {
    if a != [] {
      assert (a + b)[0] == a[0] && (a + b)[1..] == a[1..] + b;
      ColorsInAppend(a[1..], b, cs);
    } else {
      assert a + b == b;
    }
  }

  /** The highlighted run is well formed and uses only the new colour. */
  lemma {:induction false} HighlightTextShape(t: string, w: string, color: string)
    requires w != []
    ensures WellFormed(HighlightText(t, w, color))
    ensures ColorsIn(HighlightText(t, w, color), {color})
    ensures t != [] ==> HighlightText(t, w, color) != []
    decreases |t|
  {
    if t == [] {
    } else if |t| >= |w| && t[..|w|] == w {
      var rest := HighlightText(t[|w|..], w, color);
      HighlightTextShape(t[|w|..], w, color);
      var s := [Span(color, [Chars(w)])];
      assert WellFormed([Chars(w)]);
      assert WellFormed(s);
      WellFormedAppend(s, rest);
      assert ColorsIn([Chars(w)], {color});
      assert ColorsIn(s, {color});
      ColorsInAppend(s, rest, {color});
    } else {
      var rest := HighlightText(t[1..], w, color);
      HighlightTextShape(t[1..], w, color);
      var p := Prepend(t[0], rest);
      if rest != [] && rest[0].Chars? {
        assert p[1..] == rest[1..];
        assert |rest| > 1 ==> rest[1].Span?;
      } else {
        assert p[1..] == rest;
      }
    }
  }

  /** Which span colours are safe for word `w`: it occurs in neither tag. */
  ghost predicate TagClean(color: string, w: string) {
    !Occurs(OpenTag(color), w) && !Occurs(CloseTag, w)
  }

  /** Highlighting one word in a well-formed fragment sequence is replacing
      it in the serialization, provided the word occurs in none of the tags
      already there. */
  lemma {:induction false} HighlightFragsSerialize(fs: seq<Frag>, w: string, color: string, cs: set<string>)
    requires SafeWord(w) && WellFormed(fs) && ColorsIn(fs, cs)
    requires forall c :: c in cs ==> TagClean(c, w)
    ensures Serialize(HighlightFrags(fs, w, color)) == ReplaceAll(Serialize(fs), w, FontTag(color, w))
    decreases fs
  {
    if fs != [] {
      HighlightFragsSerialize(fs[1..], w, color, cs);
      if fs[0].Span? {
        HighlightFragsSerialize(fs[0].kids, w, color, cs);
      }
      HighlightFragsHead(fs, w, color, cs);
    }
  }

  /** The step of `HighlightFragsSerialize`: the head fragment, given the
      property for what follows it and for the head's children. */
  lemma HighlightFragsHead(fs: seq<Frag>, w: string, color: string, cs: set<string>)
    requires SafeWord(w) && WellFormed(fs) && ColorsIn(fs, cs) && fs != []
    requires forall c :: c in cs ==> TagClean(c, w)
    requires Serialize(HighlightFrags(fs[1..], w, color)) == ReplaceAll(Serialize(fs[1..]), w, FontTag(color, w))
    requires fs[0].Span? ==>
      Serialize(HighlightFrags(fs[0].kids, w, color)) == ReplaceAll(Serialize(fs[0].kids), w, FontTag(color, w))
    ensures Serialize(HighlightFrags(fs, w, color)) == ReplaceAll(Serialize(fs), w, FontTag(color, w))
  {
    var rest := fs[1..];
    var head := [fs[0]];
    assert fs == head + rest;
    SerializeAppend(head, rest);
    assert head[1..] == [];
    SerializeAppend(HighlightFrags(head, w, color), HighlightFrags(rest, w, color));
    SerializeOne(fs[0]);
    TagRuneNotInWord(w);
    if fs[0].Chars? {
      HighlightHeadChars(fs, w, color);
    } else {
      HighlightHeadSpan(fs, w, color, cs);
    }
  }

  /** The case of `HighlightFragsHead` where the first fragment is text. */
  lemma HighlightHeadChars(fs: seq<Frag>, w: string, color: string)
    requires SafeWord(w) && WellFormed(fs) && fs != [] && fs[0].Chars?
    requires '<' !in w && '>' !in w
    requires Serialize(HighlightFrags(fs[1..], w, color)) == ReplaceAll(Serialize(fs[1..]), w, FontTag(color, w))
    requires Serialize(fs) == Serialize([fs[0]]) + Serialize(fs[1..])
    requires Serialize(HighlightFrags([fs[0]], w, color) + HighlightFrags(fs[1..], w, color))
      == Serialize(HighlightFrags([fs[0]], w, color)) + Serialize(HighlightFrags(fs[1..], w, color))
    requires Serialize([fs[0]]) == Html.Escape(fs[0].text)
    ensures Serialize(HighlightFrags(fs, w, color)) == ReplaceAll(Serialize(fs), w, FontTag(color, w))
  {
    var rep := FontTag(color, w);
    var rest := fs[1..];
    var t := fs[0].text;
    var hs := Serialize([fs[0]]);
    var hh := HighlightFrags([fs[0]], w, color);
    HighlightTextSerialize(t, w, color);
    assert hh == HighlightText(t, w, color) + HighlightFrags([], w, color);
    assert hh == HighlightText(t, w, color);
    assert HighlightFrags(fs, w, color) == hh + HighlightFrags(rest, w, color);
    assert Seam(hs, Serialize(rest), w) by {
      if rest != [] {
        SpanStartsWithTag(rest);
      }
    }
    ReplaceAllAppend(hs, Serialize(rest), w, rep);
  }

  /** The case of `HighlightFragsHead` where the first fragment is a span. */
  lemma HighlightHeadSpan(fs: seq<Frag>, w: string, color: string, cs: set<string>)
    requires SafeWord(w) && WellFormed(fs) && ColorsIn(fs, cs) && fs != [] && fs[0].Span?
    requires forall c :: c in cs ==> TagClean(c, w)
    requires Serialize(HighlightFrags(fs[1..], w, color)) == ReplaceAll(Serialize(fs[1..]), w, FontTag(color, w))
    requires Serialize(HighlightFrags(fs[0].kids, w, color)) == ReplaceAll(Serialize(fs[0].kids), w, FontTag(color, w))
    requires Serialize(fs) == Serialize([fs[0]]) + Serialize(fs[1..])
    requires Serialize(HighlightFrags([fs[0]], w, color) + HighlightFrags(fs[1..], w, color))
      == Serialize(HighlightFrags([fs[0]], w, color)) + Serialize(HighlightFrags(fs[1..], w, color))
    requires Serialize([fs[0]]) == OpenTag(fs[0].color) + Serialize(fs[0].kids) + CloseTag
    ensures Serialize(HighlightFrags(fs, w, color)) == ReplaceAll(Serialize(fs), w, FontTag(color, w))
  {
    var rep := FontTag(color, w);
    var rest := fs[1..];
    var c := fs[0].color;
    var kids := fs[0].kids;
    var hs := Serialize([fs[0]]);
    var hh := HighlightFrags([fs[0]], w, color);
    SpanSerialize(c, kids, w, rep);
    assert hh == [Span(c, HighlightFrags(kids, w, color))] + HighlightFrags([], w, color);
    assert HighlightFrags(fs, w, color) == hh + HighlightFrags(rest, w, color);
    SerializeOne(Span(c, HighlightFrags(kids, w, color)));
    assert Seam(hs, Serialize(rest), w) by {
      assert hs[|hs| - 1] == '>';
    }
    ReplaceAllAppend(hs, Serialize(rest), w, rep);
  }

  /** Tag delimiters are not word runes. */
  lemma TagRuneNotInWord(w: string)
    requires WordChars(w)
    ensures '<' !in w && '>' !in w
  {
    WordDisjoint("<>", w);
  }

  /** A well-formed sequence whose head is not a text run starts with a tag. */
  lemma SpanStartsWithTag(fs: seq<Frag>)
    requires fs != [] && fs[0].Span?
    ensures Serialize(fs) != [] && Serialize(fs)[0] == '<'
  {
  }

  /** Replacing inside a span leaves both of its tags alone. */
  lemma SpanSerialize(c: string, kids: seq<Frag>, w: string, rep: string)
    requires SafeWord(w) && TagClean(c, w)
    ensures ReplaceAll(OpenTag(c) + Serialize(kids) + CloseTag, w, rep)
      == OpenTag(c) + ReplaceAll(Serialize(kids), w, rep) + CloseTag
  {
    TagRuneNotInWord(w);
    var o := OpenTag(c);
    var k := Serialize(kids);
    assert o[|o| - 1] == '>';
    assert CloseTag[0] == '<';
    ReplaceAllAppend(o + k, CloseTag, w, rep);
    ReplaceAllAppend(o, k, w, rep);
    ReplaceAllAbsent(o, w, rep);
    ReplaceAllAbsent(CloseTag, w, rep);
  }

  lemma {:induction false} ColorsInMono(fs: seq<Frag>, a: set<string>, b: set<string>)
    requires ColorsIn(fs, a) && a <= b
    ensures ColorsIn(fs, b)
    decreases fs
  {
    if fs != [] {
      ColorsInMono(fs[1..], a, b);
      if fs[0].Span? {
        ColorsInMono(fs[0].kids, a, b);
      }
    }
  }

  /** Highlighting keeps fragments well formed and the text unchanged, and
      adds only its own colour. */
  lemma {:induction false} HighlightFragsShape(fs: seq<Frag>, w: string, color: string, cs: set<string>)
    requires WordChars(w) && w != [] && WellFormed(fs) && ColorsIn(fs, cs)
    ensures WellFormed(HighlightFrags(fs, w, color))
    ensures ColorsIn(HighlightFrags(fs, w, color), cs + {color})
    ensures FragText(HighlightFrags(fs, w, color)) == FragText(fs)
    ensures fs != [] && fs[0].Span? ==> HighlightFrags(fs, w, color) != [] && HighlightFrags(fs, w, color)[0].Span?
    decreases fs
  {
    if fs != [] {
      HighlightFragsShape(fs[1..], w, color, cs);
      if fs[0].Span? {
        HighlightFragsShape(fs[0].kids, w, color, cs);
      }
      HighlightFragsShapeHead(fs, w, color, cs);
    }
  }

  lemma HighlightFragsShapeHead(fs: seq<Frag>, w: string, color: string, cs: set<string>)
    requires WordChars(w) && w != [] && WellFormed(fs) && ColorsIn(fs, cs) && fs != []
    requires var r := HighlightFrags(fs[1..], w, color);
      WellFormed(r) && ColorsIn(r, cs + {color}) && FragText(r) == FragText(fs[1..])
      && (|fs| > 1 && fs[1].Span? ==> r != [] && r[0].Span?)
    requires fs[0].Span? ==> var r := HighlightFrags(fs[0].kids, w, color);
      WellFormed(r) && ColorsIn(r, cs + {color}) && FragText(r) == FragText(fs[0].kids)
    ensures WellFormed(HighlightFrags(fs, w, color))
    ensures ColorsIn(HighlightFrags(fs, w, color), cs + {color})
    ensures FragText(HighlightFrags(fs, w, color)) == FragText(fs)
    ensures fs[0].Span? ==> HighlightFrags(fs, w, color) != [] && HighlightFrags(fs, w, color)[0].Span?
  {
    var rest := HighlightFrags(fs[1..], w, color);
    var head := [fs[0]];
    assert fs == head + fs[1..];
    FragTextAppend(head, fs[1..]);
    SerializeOne(fs[0]);
    match fs[0]
    case Chars(t) =>
      assert HighlightFrags(fs, w, color) == HighlightText(t, w, color) + rest;
      assert fs[1..] != [] ==> fs[1].Span?;
      ShapeBeforeSpan(t, w, color, cs, rest);
    case Span(c, kids) =>
      var h := [Span(c, HighlightFrags(kids, w, color))];
      assert HighlightFrags(fs, w, color) == h + rest;
      assert h[1..] == [];
      assert WellFormed(h);
      assert ColorsIn(h, cs + {color});
      WellFormedAppend(h, rest);
      ColorsInAppend(h, rest, cs + {color});
      FragTextAppend(h, rest);
      SerializeOne(h[0]);
  }

  /** Highlighting a text piece in front of fragments that start with a
      span keeps them well formed. */
  lemma ShapeBeforeSpan(t: string, w: string, color: string, cs: set<string>, rest: seq<Frag>)
    requires WordChars(w) && w != []
    requires WellFormed(rest) && ColorsIn(rest, cs + {color}) && (rest != [] ==> rest[0].Span?)
    ensures var h := HighlightText(t, w, color);
      WellFormed(h + rest) && ColorsIn(h + rest, cs + {color}) && FragText(h + rest) == t + FragText(rest)
  {
    var h := HighlightText(t, w, color);
    HighlightTextShape(t, w, color);
    HighlightTextText(t, w, color);
    ColorsInMono(h, {color}, cs + {color});
    WellFormedAppend(h, rest);
    ColorsInAppend(h, rest, cs + {color});
    FragTextAppend(h, rest);
  }

  /** The words of one colour, one after the other. */
  lemma {:induction false} HighlightWordsAgree(fs: seq<Frag>, color: string, words: seq<string>, cs: set<string>)
    requires WellFormed(fs) && ColorsIn(fs, cs)
    requires forall i :: 0 <= i < |words| ==> SafeWord(words[i])
    requires forall i, c :: 0 <= i < |words| && c in cs ==> TagClean(c, words[i])
    requires forall i :: 0 < i < |words| ==> TagClean(color, words[i])
    ensures NonEmptyWords(words)
    ensures var r := HighlightWords(fs, color, words);
      Serialize(r) == ReplaceWords(Serialize(fs), color, words)
      && WellFormed(r) && ColorsIn(r, cs + {color}) && FragText(r) == FragText(fs)
    decreases |words|
  {
    if words != [] {
      var w := words[0];
      assert SafeWord(w);
      assert forall c :: c in cs ==> TagClean(c, w);
      HighlightFragsSerialize(fs, w, color, cs);
      HighlightFragsShape(fs, w, color, cs);
      var next := HighlightFrags(fs, w, color);
      HighlightWordsAgree(next, color, words[1..], cs + {color});
      assert cs + {color} + {color} == cs + {color};
    } else {
      ColorsInMono(fs, cs, cs + {color});
    }
  }

  // ---------------------------------------------------------------------
  // No keyword occurs in a tag
  // ---------------------------------------------------------------------

  /** A word with a rune the string lacks does not occur in it. */
  lemma Missing(s: string, w: string, x: char)
    requires x in w && x !in s
    ensures !Occurs(s, w)
  {
    var k :| 0 <= k < |w| && w[k] == x;
    forall i ensures !OccursAt(s, i, w) {
      if 0 <= i && i + |w| <= |s| {
        assert s[i..i + |w|][k] == s[i + k];
        assert s[i + k] in s;
      }
    }
  }

  lemma TooShort(s: string, w: string)
    requires |s| < |w|
    ensures !Occurs(s, w)
  {
    forall i ensures !OccursAt(s, i, w) {
    }
  }

  /** The letter runs of the tags. */
  ghost predicate RunsClean(w: string) {
    !Occurs("span", w) && !Occurs("style", w) && !Occurs("color", w) && !Occurs("var", w)
    && !Occurs("language", w) && !Occurs("type", w) && !Occurs("keyword", w) && !Occurs([], w)
  }

  /** A tag hosts a word only inside one of its letter runs. */
  lemma TagsClean(w: string)
    requires SafeWord(w) && RunsClean(w)
    ensures TagClean(LanguageKeyword, w) && TagClean(TypeKeyword, w)
  {
    OpenTagClean(w, "language");
    OpenTagClean(w, "type");
    assert OpenTag(LanguageKeyword) == OpenTagOf("language");
    assert OpenTag(TypeKeyword) == OpenTagOf("type");
    NoWord("</", w);
    NoWord(">", w);
    NoOccursAcross([], "</", "span", w);
    NoOccursAcross([] + "</" + "span", ">", [], w);
    assert CloseTag == [] + "</" + "span" + ">" + [];
  }

  function OpenTagOf(kind: string): string {
    "<" + "span" + " " + "style" + "=\"" + "color" + ":" + ("var" + "(--" + kind + "-" + "keyword" + ")") + ";\">"
  }

  lemma NoWord(sep: string, w: string)
    requires NoWordChars(sep) && WordChars(w)
    ensures Disjoint(sep, w)
  {
    WordDisjoint(sep, w);
  }

  lemma OpenTagClean(w: string, kind: string)
    requires SafeWord(w) && RunsClean(w) && !Occurs(kind, w)
    ensures !Occurs(OpenTagOf(kind), w)
  {
    var t2 := "var" + "(--" + (kind + "-" + ("keyword" + ");\">" + []));
    VarPartClean(w, kind);
    NoWord(":", w);
    NoWord("=\"", w);
    NoWord(" ", w);
    NoWord("<", w);
    var t3 := "color" + ":" + t2;
    NoOccursAcross("color", ":", t2, w);
    var t4 := "style" + "=\"" + t3;
    NoOccursAcross("style", "=\"", t3, w);
    var t5 := "span" + " " + t4;
    NoOccursAcross("span", " ", t4, w);
    var t6 := [] + "<" + t5;
    NoOccursAcross([], "<", t5, w);
    assert OpenTagOf(kind) == t6;
  }

  /** The colour variable at the end of the tag. */
  lemma VarPartClean(w: string, kind: string)
    requires SafeWord(w) && RunsClean(w) && !Occurs(kind, w)
    ensures !Occurs("var" + "(--" + (kind + "-" + ("keyword" + ");\">" + [])), w)
  {
    NoWord(");\">", w);
    NoWord("-", w);
    NoWord("(--", w);
    var t0 := "keyword" + ");\">" + [];
    NoOccursAcross("keyword", ");\">", [], w);
    var t1 := kind + "-" + t0;
    NoOccursAcross(kind, "-", t0, w);
    NoOccursAcross("var", "(--", t1, w);
  }

  /** A keyword that survives every later keyword's tags. */
  ghost predicate CleanWord(w: string) {
    SafeWord(w) && TagClean(LanguageKeyword, w) && TagClean(TypeKeyword, w)
  }

  /** A rune of `w` that none of the letter runs has. */
  lemma RuneOutsideRuns(w: string, x: char)
    requires SafeWord(w) && x in w
    requires x !in "span" && x !in "style" && x !in "color" && x !in "var"
    requires x !in "language" && x !in "type" && x !in "keyword"
    ensures CleanWord(w)
  {
    Missing("span", w, x);
    Missing("style", w, x);
    Missing("color", w, x);
    Missing("var", w, x);
    Missing("language", w, x);
    Missing("type", w, x);
    Missing("keyword", w, x);
    TooShort([], w);
    TagsClean(w);
  }

  /** The same, with a second rune for the run `color`. */
  lemma RunesOutsideRuns(w: string, x: char, y: char)
    requires SafeWord(w) && x in w && y in w
    requires x !in "span" && x !in "style" && y !in "color" && x !in "var"
    requires x !in "language" && x !in "type" && x !in "keyword"
    ensures CleanWord(w)
  {
    Missing("span", w, x);
    Missing("style", w, x);
    Missing("color", w, y);
    Missing("var", w, x);
    Missing("language", w, x);
    Missing("type", w, x);
    Missing("keyword", w, x);
    TooShort([], w);
    TagsClean(w);
  }

  lemma ReturnClean()
    ensures CleanWord("return")
  {
    var w := "return";
    Missing("span", w, 'r');
    Missing("style", w, 'r');
    Missing("color", w, 't');
    TooShort("var", w);
    Missing("language", w, 'r');
    Missing("type", w, 'r');
    Missing("keyword", w, 't');
    TooShort([], w);
    TagsClean(w);
  }

  /** Every language keyword but the first is clean; `var`, the first, is
      not (it occurs in the colour of the language keywords), but nothing
      has been highlighted yet when it is replaced. */
  lemma LanguageWordsClean()
    ensures forall i :: 0 <= i < |LanguageWords| ==> SafeWord(LanguageWords[i])
    ensures forall i :: 0 < i < |LanguageWords| ==> CleanWord(LanguageWords[i])
  {
    RunesOutsideRuns("const", 'c', 'n');
    ReturnClean();
    RunesOutsideRuns("struct", 'c', 's');
    LaterLanguageWordsClean();
  }

  lemma LaterLanguageWordsClean()
    ensures CleanWord("func") && CleanWord("package") && CleanWord("import")
  {
    RuneOutsideRuns("func", 'f');
    PackageClean();
    RuneOutsideRuns("import", 'i');
  }

  lemma PackageClean()
    ensures CleanWord("package")
  {
    RunesOutsideRuns("package", 'c', 'p');
  }

  /** Every type keyword is clean. */
  lemma TypeWordsClean()
    ensures forall i :: 0 <= i < |TypeWords| ==> CleanWord(TypeWords[i])
  {
    RuneOutsideRuns("bool", 'b');
    RuneOutsideRuns("string", 'i');
    RuneOutsideRuns("int32", 'i');
    RuneOutsideRuns("int64", 'i');
    LaterTypeWordsClean();
  }

  lemma LaterTypeWordsClean()
    ensures CleanWord("bfloat64") && CleanWord("float32") && CleanWord("float64")
  {
    RuneOutsideRuns("bfloat64", 'b');
    RuneOutsideRuns("float32", 'f');
    RuneOutsideRuns("float64", 'f');
  }

  /** `var` occurs in the tag written for every language keyword: replacing
      it after any other language keyword would rewrite that keyword's tag,
      which is why it comes first in the table. */
  lemma VarInLanguageTag()
    ensures Occurs(OpenTag(LanguageKeyword), "var")
  {
    var t := OpenTag(LanguageKeyword);
    assert t[19..22] == "var";
    assert OccursAt(t, 19, "var");
  }

  // ---------------------------------------------------------------------
  // The two descriptions of format agree
  // ---------------------------------------------------------------------

  lemma PlainShape(t: string)
    ensures Serialize(Plain(t)) == Html.Escape(t) && FragText(Plain(t)) == t
    ensures WellFormed(Plain(t)) && ColorsIn(Plain(t), {})
  {
    if t != [] {
      SerializeOne(Chars(t));
    }
  }

  /** Both groups of the table, one after the other. */
  lemma FormatSteps(f0: seq<Frag>)
    requires NonEmptyWords(LanguageWords) && NonEmptyWords(TypeWords)
    requires WellFormed(f0) && ColorsIn(f0, {})
    ensures var f1 := HighlightWords(f0, LanguageKeyword, LanguageWords);
      var f2 := HighlightWords(f1, TypeKeyword, TypeWords);
      Serialize(f2) == ReplaceWords(ReplaceWords(Serialize(f0), LanguageKeyword, LanguageWords), TypeKeyword, TypeWords)
      && FragText(f2) == FragText(f0) && WellFormed(f2) && ColorsIn(f2, {LanguageKeyword, TypeKeyword})
  {
    LanguageWordsClean();
    TypeWordsClean();
    HighlightWordsAgree(f0, LanguageKeyword, LanguageWords, {});
    var f1 := HighlightWords(f0, LanguageKeyword, LanguageWords);
    assert {} + {LanguageKeyword} == {LanguageKeyword};
    HighlightWordsAgree(f1, TypeKeyword, TypeWords, {LanguageKeyword});
    assert {LanguageKeyword} + {TypeKeyword} == {LanguageKeyword, TypeKeyword};
  }

  /** Serializing the highlighted fragments of a line gives the markup
      `format` writes for it, and the fragments carry the line's text with
      spaces turned into no-break spaces. */
  lemma FormatAgrees(line: string)
    ensures Serialize(FormatFrags(line)) == FormatString(line)
    ensures FragText(FormatFrags(line)) == KeepSpaces(line)
    ensures WellFormed(FormatFrags(line))
    ensures ColorsIn(FormatFrags(line), {LanguageKeyword, TypeKeyword})
  {
    var s0 := KeepSpaces(line);
    var f0 := Plain(s0);
    PlainShape(s0);
    FormatUnfold(line);
    FormatSteps(f0);
  }

  /** Replacing words none of which occurs leaves the string as it was. */
  lemma {:induction false} ReplaceWordsAbsent(s: string, color: string, words: seq<string>)
    requires forall i :: 0 <= i < |words| ==> words[i] != [] && !Occurs(s, words[i])
    ensures ReplaceWords(s, color, words) == s
    decreases |words|
  {
    if words != [] {
      ReplaceAllAbsent(s, words[0], FontTag(color, words[0]));
      ReplaceWordsAbsent(s, color, words[1..]);
    }
  }

  /** A line whose escaped text holds no keyword of the table is only
      escaped: `format` adds no markup to it. */
  lemma FormatNoKeyword(line: string)
    requires forall i :: 0 <= i < |LanguageWords| ==> !Occurs(Html.Escape(KeepSpaces(line)), LanguageWords[i])
    requires forall i :: 0 <= i < |TypeWords| ==> !Occurs(Html.Escape(KeepSpaces(line)), TypeWords[i])
    ensures FormatString(line) == Html.Escape(KeepSpaces(line))
  {
    var e := Html.Escape(KeepSpaces(line));
    FormatUnfold(line);
    ReplaceWordsAbsent(e, LanguageKeyword, LanguageWords);
    ReplaceWordsAbsent(e, TypeKeyword, TypeWords);
  }

  /** `format` is the language group, then the type group. */
  lemma FormatUnfold(line: string)
    ensures NonEmptyWords(LanguageWords) && NonEmptyWords(TypeWords)
    ensures FormatFrags(line) == HighlightWords(HighlightWords(Plain(KeepSpaces(line)), LanguageKeyword, LanguageWords), TypeKeyword, TypeWords)
    ensures FormatString(line) == ReplaceWords(ReplaceWords(Html.Escape(KeepSpaces(line)), LanguageKeyword, LanguageWords), TypeKeyword, TypeWords)
  {
    LanguageWordsClean();
    TypeWordsClean();
    var f1 := HighlightWords(Plain(KeepSpaces(line)), LanguageKeyword, LanguageWords);
    assert KeywordToColor[1..][1..] == [];
    assert FormatFrags(line) == HighlightGroups(f1, KeywordToColor[1..]);
    var e1 := ReplaceWords(Html.Escape(KeepSpaces(line)), LanguageKeyword, LanguageWords);
    assert FormatString(line) == ReplaceGroups(e1, KeywordToColor[1..]);
  }

  // ---------------------------------------------------------------------
  // Two lines as format colours them
  // ---------------------------------------------------------------------

  /** No text run of `fs` is empty or holds `w`. */
  ghost predicate Untouched(fs: seq<Frag>, w: string)
    decreases fs
  {
    forall i :: 0 <= i < |fs| ==>
      match fs[i]
      case Chars(t) => t != [] && !Occurs(t, w)
      case Span(_, kids) => Untouched(kids, w)
  }

  /** A word that occurs in no text run leaves the fragments alone. */
  lemma {:induction false} HighlightFragsUntouched(fs: seq<Frag>, w: string, color: string)
    requires w != [] && Untouched(fs, w)
    ensures HighlightFrags(fs, w, color) == fs
    decreases fs
  {
    if fs != [] {
      assert Untouched(fs[1..], w) by {
        forall i | 0 <= i < |fs[1..]| ensures fs[1..][i] == fs[i + 1] {}
      }
      HighlightFragsUntouched(fs[1..], w, color);
      match fs[0]
      case Chars(t) =>
        HighlightTextAbsent(t, w, color);
      case Span(c, kids) =>
        HighlightFragsUntouched(kids, w, color);
    }
  }

  lemma {:induction false} HighlightTextAbsent(t: string, w: string, color: string)
    requires w != [] && !Occurs(t, w)
    ensures HighlightText(t, w, color) == Plain(t)
    decreases |t|
  {
    if t != [] {
      assert !(|t| >= |w| && t[..|w|] == w) by {
        assert !OccursAt(t, 0, w);
        assert |t| >= |w| ==> t[0..|w|] == t[..|w|];
      }
      OccursTail(t, w);
      HighlightTextAbsent(t[1..], w, color);
      assert HighlightText(t, w, color) == Prepend(t[0], Plain(t[1..]));
      assert [t[0]] + t[1..] == t;
      if t[1..] == [] {
        assert [t[0]] == t;
      } else {
        assert Plain(t[1..]) == [Chars(t[1..])];
      }
    }
  }

  /** Words none of which occurs in a text run leave the fragments alone. */
  lemma {:induction false} HighlightWordsUntouched(fs: seq<Frag>, color: string, words: seq<string>)
    requires NonEmptyWords(words)
    requires forall i :: 0 <= i < |words| ==> Untouched(fs, words[i])
    ensures HighlightWords(fs, color, words) == fs
    decreases |words|
  {
    if words != [] {
      HighlightFragsUntouched(fs, words[0], color);
      HighlightWordsUntouched(fs, color, words[1..]);
    }
  }

  /** Highlighting `a + b` is highlighting `a`, then `b`. */
  lemma {:induction false} HighlightWordsAppend(fs: seq<Frag>, color: string, a: seq<string>, b: seq<string>)
    requires NonEmptyWords(a) && NonEmptyWords(b)
    ensures NonEmptyWords(a + b)
    ensures HighlightWords(fs, color, a + b) == HighlightWords(HighlightWords(fs, color, a), color, b)
    decreases |a|
  {
    if a == [] {
      assert a + b == b;
    } else {
      assert (a + b)[0] == a[0] && (a + b)[1..] == a[1..] + b;
      HighlightWordsAppend(HighlightFrags(fs, a[0], color), color, a[1..], b);
    }
  }

  /** A line without spaces keeps its runes through the first step. */
  lemma KeepSpacesPlain(line: string)
    requires ' ' !in line
    ensures KeepSpaces(line) == line
  {
    Missing(line, " ", ' ');
    ReplaceAllAbsent(line, " ", [Nbsp]);
  }

  /** A rune of `w` that `t` lacks keeps `w` out of the run `t`. */
  lemma PlainAvoids(t: string, w: string, x: char)
    requires t != [] && x in w && x !in t
    ensures w != [] && Untouched([Chars(t)], w)
  {
    Missing(t, w, x);
  }

  /** One word of a group, then the rest. */
  lemma HighlightWordsCons(fs: seq<Frag>, color: string, words: seq<string>)
    requires words != [] && NonEmptyWords(words)
    ensures HighlightWords(fs, color, words) == HighlightWords(HighlightFrags(fs, words[0], color), color, words[1..])
  {
  }

  /** A group of three words, one after the other. */
  lemma HighlightThree(fs: seq<Frag>, color: string, a: string, b: string, c: string)
    requires a != [] && b != [] && c != []
    ensures NonEmptyWords([a, b, c])
    ensures HighlightWords(fs, color, [a, b, c])
      == HighlightFrags(HighlightFrags(HighlightFrags(fs, a, color), b, color), c, color)
  {
    var f1 := HighlightFrags(fs, a, color);
    var f2 := HighlightFrags(f1, b, color);
    var f3 := HighlightFrags(f2, c, color);
    assert [a, b, c][0] == a && [a, b, c][1..] == [b, c];
    HighlightWordsCons(fs, color, [a, b, c]);
    assert [b, c][0] == b && [b, c][1..] == [c];
    HighlightWordsCons(f1, color, [b, c]);
    assert [c][0] == c && [c][1..] == [];
    HighlightWordsCons(f2, color, [c]);
  }

  /** `bool` is not part of `bfloat64`: its only `b` is not followed by an
      `o`. */
  lemma NoBoolInBfloat64()
    ensures Untouched([Chars("bfloat64")], "bool")
  {
    var t := "bfloat64";
    forall i ensures !OccursAt(t, i, "bool") {
      if 0 <= i && i + 4 <= |t| {
        var v := t[i..i + 4];
        if i == 0 {
          assert v[1] == 'f';
        } else {
          assert v[0] == t[i] && t[i] in t[1..];
        }
      }
    }
  }

  /** The language group leaves `bfloat64` alone. */
  lemma Bfloat64Language()
    ensures HighlightWords([Chars("bfloat64")], LanguageKeyword, LanguageWords) == [Chars("bfloat64")]
  {
    var t := "bfloat64";
    var ws := LanguageWords;
    forall i | 0 <= i < |ws| ensures ws[i] != [] && Untouched([Chars(t)], ws[i]) {
      if i == 0 { PlainAvoids(t, ws[i], 'v'); }
      else if i == 1 { PlainAvoids(t, ws[i], 'c'); }
      else if i == 2 { PlainAvoids(t, ws[i], 'r'); }
      else if i == 3 { PlainAvoids(t, ws[i], 's'); }
      else if i == 4 { PlainAvoids(t, ws[i], 'u'); }
      else if i == 5 { PlainAvoids(t, ws[i], 'p'); }
      else { PlainAvoids(t, ws[i], 'i'); }
    }
    HighlightWordsUntouched([Chars(t)], LanguageKeyword, ws);
  }

  /** The first four type words leave `bfloat64` alone. */
  lemma Bfloat64FirstTypes()
    ensures NonEmptyWords(TypeWords[..4])
    ensures HighlightWords([Chars("bfloat64")], TypeKeyword, TypeWords[..4]) == [Chars("bfloat64")]
  {
    var t := "bfloat64";
    var ws := TypeWords[..4];
    forall i | 0 <= i < |ws| ensures ws[i] != [] && Untouched([Chars(t)], ws[i]) {
      if i == 0 { NoBoolInBfloat64(); }
      else if i == 1 { PlainAvoids(t, ws[i], 's'); }
      else { PlainAvoids(t, ws[i], 'i'); }
    }
    HighlightWordsUntouched([Chars(t)], TypeKeyword, ws);
  }

  /** `bfloat64` itself is wrapped whole. */
  lemma Bfloat64Wrapped()
    ensures HighlightFrags([Chars("bfloat64")], "bfloat64", TypeKeyword) == [Span(TypeKeyword, [Chars("bfloat64")])]
  {
    var t := "bfloat64";
    assert t[..8] == "bfloat64" && t[8..] == [];
    assert [Chars(t)][1..] == [];
  }

  /** `float64` is found after the `b`. */
  lemma Float64Inside()
    ensures HighlightText("bfloat64", "float64", TypeKeyword)
      == [Chars("b"), Span(TypeKeyword, [Chars("float64")])]
  {
    var t := "bfloat64";
    assert t[..7] != "float64" by {
      assert t[..7][0] == 'b';
    }
    assert t[1..] == "float64";
    var u := t[1..];
    assert u[..7] == "float64" && u[7..] == [];
  }

  /** `float32` is not in `bfloat64`. */
  lemma Float32Skipped()
    ensures HighlightFrags([Span(TypeKeyword, [Chars("bfloat64")])], "float32", TypeKeyword)
      == [Span(TypeKeyword, [Chars("bfloat64")])]
  {
    var g := [Span(TypeKeyword, [Chars("bfloat64")])];
    PlainAvoids("bfloat64", "float32", '3');
    assert Untouched(g, "float32");
    HighlightFragsUntouched(g, "float32", TypeKeyword);
  }

  /** `float64` is wrapped again inside the span of `bfloat64`. */
  lemma Float64Nested()
    ensures HighlightFrags([Span(TypeKeyword, [Chars("bfloat64")])], "float64", TypeKeyword)
      == [Span(TypeKeyword, [Chars("b"), Span(TypeKeyword, [Chars("float64")])])]
  {
    var f := [Chars("bfloat64")];
    var g := [Span(TypeKeyword, f)];
    Float64Inside();
    assert HighlightFrags(f, "float64", TypeKeyword) == HighlightText("bfloat64", "float64", TypeKeyword) by {
      assert f[1..] == [];
    }
    assert g[1..] == [];
  }

  /** The last three type words: `bfloat64` is wrapped, `float32` is not
      there, and `float64` is wrapped again inside the first span. */
  lemma Bfloat64LastTypes()
    ensures NonEmptyWords(TypeWords[4..])
    ensures HighlightWords([Chars("bfloat64")], TypeKeyword, TypeWords[4..])
      == [Span(TypeKeyword, [Chars("b"), Span(TypeKeyword, [Chars("float64")])])]
  {
    assert TypeWords[4..] == ["bfloat64", "float32", "float64"];
    HighlightThree([Chars("bfloat64")], TypeKeyword, "bfloat64", "float32", "float64");
    Bfloat64Wrapped();
    Float32Skipped();
    Float64Nested();
  }

  /** The type group on `bfloat64`. */
  lemma Bfloat64Types()
    ensures NonEmptyWords(TypeWords)
    ensures HighlightWords([Chars("bfloat64")], TypeKeyword, TypeWords)
      == [Span(TypeKeyword, [Chars("b"), Span(TypeKeyword, [Chars("float64")])])]
  {
    var f := [Chars("bfloat64")];
    Bfloat64FirstTypes();
    Bfloat64LastTypes();
    assert TypeWords == TypeWords[..4] + TypeWords[4..];
    HighlightWordsAppend(f, TypeKeyword, TypeWords[..4], TypeWords[4..]);
  }

  /** The markup of a span holding a text run and a span. */
  lemma SerializeNested(c: string, a: string, b: string)
    requires Html.Escape(a) == a && Html.Escape(b) == b
    ensures Serialize([Span(c, [Chars(a), Span(c, [Chars(b)])])]) == FontTag(c, a + FontTag(c, b))
  {
    var inner := Span(c, [Chars(b)]);
    SerializeOne(Chars(b));
    SerializeOne(inner);
    SerializeOne(Chars(a));
    SerializeAppend([Chars(a)], [inner]);
    assert [Chars(a)] + [inner] == [Chars(a), inner];
    SerializeOne(Span(c, [Chars(a), inner]));
  }

  /** The markup of a coloured word followed by a text run. */
  lemma SerializeWordThenText(c: string, a: string, b: string)
    requires Html.Escape(a) == a && Html.Escape(b) == b
    ensures Serialize([Span(c, [Chars(a)]), Chars(b)]) == FontTag(c, a) + b
  {
    var w := Span(c, [Chars(a)]);
    SerializeOne(Chars(a));
    SerializeOne(w);
    SerializeOne(Chars(b));
    SerializeAppend([w], [Chars(b)]);
    assert [w] + [Chars(b)] == [w, Chars(b)];
  }

  /** `format` colours `bfloat64` as a type and then colours its tail
      `float64` once more, inside the first span. */
  lemma FormatBfloat64()
    ensures FormatFrags("bfloat64") == [Span(TypeKeyword, [Chars("b"), Span(TypeKeyword, [Chars("float64")])])]
  {
    KeepSpacesPlain("bfloat64");
    FormatUnfold("bfloat64");
    Bfloat64Language();
    Bfloat64Types();
  }

  /** The markup `format` writes for `bfloat64`: a span inside a span. */
  lemma FormatBfloat64Markup()
    ensures FormatString("bfloat64") == FontTag(TypeKeyword, "b" + FontTag(TypeKeyword, "float64"))
  {
    FormatBfloat64();
    EscapeExampleWord("b");
    EscapeExampleWord("float64");
    NestedMarkup("bfloat64", TypeKeyword, "b", "float64");
  }

  /** A word of one of the example lines has nothing to escape. */
  lemma EscapeExampleWord(w: string)
    requires w in {"b", "float64", "func", "name"}
    ensures Html.Escape(w) == w
  {
    Html.EscapePlain(w);
  }

  /** A line highlighted as a span holding a run and a span. */
  lemma NestedMarkup(line: string, c: string, a: string, b: string)
    requires FormatFrags(line) == [Span(c, [Chars(a), Span(c, [Chars(b)])])]
    requires Html.Escape(a) == a && Html.Escape(b) == b
    ensures FormatString(line) == FontTag(c, a + FontTag(c, b))
  {
    FormatAgrees(line);
    SerializeNested(c, a, b);
  }

  /** The fragments of `funcname` after the language group. */
  const FuncnameFrags: seq<Frag> := [Span(LanguageKeyword, [Chars("func")]), Chars("name")]

  /** `func` is found at the start of `funcname`, and only there. */
  lemma FuncFound()
    ensures HighlightFrags([Chars("funcname")], "func", LanguageKeyword) == FuncnameFrags
  {
    var t := "funcname";
    PlainAvoids("name", "func", 'f');
    HighlightTextAbsent("name", "func", LanguageKeyword);
    assert t[..4] == "func" && t[4..] == "name";
    assert [Chars(t)][1..] == [];
  }

  /** A word with a rune missing from both runs of `funcname` leaves its
      fragments alone. */
  lemma FuncnameAvoids(w: string, x: char)
    requires x in w && x !in "funcname"
    ensures w != [] && Untouched(FuncnameFrags, w)
  {
    assert "funcname" == "func" + "name";
    Missing("func", w, x);
    Missing("name", w, x);
  }

  /** The language words before `func` leave `funcname` alone. */
  lemma FuncnameFirstLanguage()
    ensures NonEmptyWords(LanguageWords[..4])
    ensures HighlightWords([Chars("funcname")], LanguageKeyword, LanguageWords[..4]) == [Chars("funcname")]
  {
    var t := "funcname";
    var ws := LanguageWords[..4];
    forall i | 0 <= i < |ws| ensures ws[i] != [] && Untouched([Chars(t)], ws[i]) {
      if i == 0 { PlainAvoids(t, ws[i], 'v'); }
      else if i == 1 { PlainAvoids(t, ws[i], 'o'); }
      else if i == 2 { PlainAvoids(t, ws[i], 'r'); }
      else { PlainAvoids(t, ws[i], 's'); }
    }
    HighlightWordsUntouched([Chars(t)], LanguageKeyword, ws);
  }

  /** `package` and `import` are not in `funcname`. */
  lemma FuncnameNoPackageImport()
    ensures HighlightFrags(FuncnameFrags, "package", LanguageKeyword) == FuncnameFrags
    ensures HighlightFrags(FuncnameFrags, "import", LanguageKeyword) == FuncnameFrags
  {
    assert 'p' in "package" && 'p' !in "funcname";
    assert 'i' in "import" && 'i' !in "funcname";
    FuncnameKept("package", 'p');
    FuncnameKept("import", 'i');
  }

  /** Highlighting `funcname` for a word with a rune it lacks changes
      nothing. */
  lemma FuncnameKept(w: string, x: char)
    requires x in w && x !in "funcname"
    ensures HighlightFrags(FuncnameFrags, w, LanguageKeyword) == FuncnameFrags
  {
    FuncnameAvoids(w, x);
    HighlightFragsUntouched(FuncnameFrags, w, LanguageKeyword);
  }

  /** `func`, then `package` and `import`, which are not there. */
  lemma FuncnameLastLanguage()
    ensures NonEmptyWords(LanguageWords[4..])
    ensures HighlightWords([Chars("funcname")], LanguageKeyword, LanguageWords[4..]) == FuncnameFrags
  {
    assert LanguageWords[4..] == ["func", "package", "import"];
    HighlightThree([Chars("funcname")], LanguageKeyword, "func", "package", "import");
    FuncFound();
    FuncnameNoPackageImport();
  }

  /** The language group on `funcname`: only `func` is found. */
  lemma FuncnameLanguage()
    ensures HighlightWords([Chars("funcname")], LanguageKeyword, LanguageWords) == FuncnameFrags
  {
    FuncnameFirstLanguage();
    FuncnameLastLanguage();
    assert LanguageWords == LanguageWords[..4] + LanguageWords[4..];
    HighlightWordsAppend([Chars("funcname")], LanguageKeyword, LanguageWords[..4], LanguageWords[4..]);
  }

  /** No type word is found in the coloured `funcname`. */
  lemma FuncnameTypes()
    ensures NonEmptyWords(TypeWords)
    ensures HighlightWords(FuncnameFrags, TypeKeyword, TypeWords) == FuncnameFrags
  {
    var ws := TypeWords;
    forall i | 0 <= i < |ws| ensures ws[i] != [] && Untouched(FuncnameFrags, ws[i]) {
      if i == 0 || i == 4 { FuncnameAvoids(ws[i], 'b'); }
      else if i == 1 { FuncnameAvoids(ws[i], 's'); }
      else if i == 2 || i == 3 { FuncnameAvoids(ws[i], 'i'); }
      else { FuncnameAvoids(ws[i], 'l'); }
    }
    HighlightWordsUntouched(FuncnameFrags, TypeKeyword, ws);
  }

  /** `format` colours the `func` at the start of `funcname`, although it
      is part of a longer identifier. */
  lemma FormatFuncname()
    ensures FormatFrags("funcname") == FuncnameFrags
  {
    KeepSpacesPlain("funcname");
    FormatUnfold("funcname");
    FuncnameLanguage();
    FuncnameTypes();
  }

  /** The markup `format` writes for `funcname`. */
  lemma FormatFuncnameMarkup()
    ensures FormatString("funcname") == FontTag(LanguageKeyword, "func") + "name"
  {
    FormatFuncname();
    EscapeExampleWord("func");
    EscapeExampleWord("name");
    WordThenTextMarkup("funcname", LanguageKeyword, "func", "name");
  }

  /** A line highlighted as a coloured word followed by a run. */
  lemma WordThenTextMarkup(line: string, c: string, a: string, b: string)
    requires FormatFrags(line) == [Span(c, [Chars(a)]), Chars(b)]
    requires Html.Escape(a) == a && Html.Escape(b) == b
    ensures FormatString(line) == FontTag(c, a) + b
  {
    FormatAgrees(line);
    SerializeWordThenText(c, a, b);
  }
}
