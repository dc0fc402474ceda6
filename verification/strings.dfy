/** The few functions of Go's `strings` package that the editor relies on,
    over strings of runes (`seq<char>`): `ReplaceAll`, `Split` and `Join`. */
module Strings {

  /** `w` occurs in `s` starting at index `i`. */
  predicate OccursAt(s: string, i: int, w: string) {
    0 <= i && i + |w| <= |s| && s[i..i + |w|] == w
  }

  /** `w` occurs somewhere in `s`. */
  ghost predicate Occurs(s: string, w: string) {
    exists i :: OccursAt(s, i, w)
  }

  /** Go's `strings.ReplaceAll`: the leftmost occurrence of `pat` is replaced,
      scanning resumes after it, and the replacement itself is never rescanned.
      An empty `pat` matches before every rune and at the end. */
  function ReplaceAll(s: string, pat: string, rep: string): (r: string)
    decreases |s|
  {
    if pat == [] then
      if s == [] then rep else rep + [s[0]] + ReplaceAll(s[1..], pat, rep)
    else if |s| < |pat| then
      s
    else if s[..|pat|] == pat then
      rep + ReplaceAll(s[|pat|..], pat, rep)
    else
      [s[0]] + ReplaceAll(s[1..], pat, rep)
  }

  /** A string in which `pat` does not occur is left as it is. */
  lemma {:induction false} ReplaceAllAbsent(s: string, pat: string, rep: string)
    requires pat != [] && !Occurs(s, pat)
    ensures ReplaceAll(s, pat, rep) == s
    decreases |s|
  {
    if |s| >= |pat| {
      assert !OccursAt(s, 0, pat);
      assert s[..|pat|] != pat;
      assert !Occurs(s[1..], pat) by {
        forall i | OccursAt(s[1..], i, pat) ensures OccursAt(s, i + 1, pat) {
          assert s[i + 1..i + 1 + |pat|] == s[1..][i..i + |pat|];
        }
      }
      ReplaceAllAbsent(s[1..], pat, rep);
    }
  }

  /** A word missing from a string is missing from its tail. */
  lemma OccursTail(s: string, w: string)
    requires s != [] && !Occurs(s, w)
    ensures !Occurs(s[1..], w)
  {
    forall i | OccursAt(s[1..], i, w) ensures OccursAt(s, i + 1, w) {
      assert s[i + 1..i + 1 + |w|] == s[1..][i..i + |w|];
    }
  }

  /** Every `x` of `s` replaced by `y`, everything else kept in place. */
  function MapChar(s: string, x: char, y: char): (r: string)
    ensures |r| == |s|
    ensures forall i :: 0 <= i < |s| ==> r[i] == (if s[i] == x then y else s[i])
  {
    if s == [] then [] else [if s[0] == x then y else s[0]] + MapChar(s[1..], x, y)
  }

  /** Replacing a one-rune string by a one-rune string is a rune-by-rune map. */
  lemma {:induction false} ReplaceAllOneRune(s: string, x: char, y: char)
    ensures ReplaceAll(s, [x], [y]) == MapChar(s, x, y)
    decreases |s|
  {
    if s != [] {
      ReplaceAllOneRune(s[1..], x, y);
      if s[0] == x {
        assert s[..1] == [x];
      } else {
        assert s[..1] != [x];
      }
    }
  }

  /** Mapping a rune the string lacks changes nothing. */
  lemma MapCharAbsent(s: string, x: char, y: char)
    requires x !in s
    ensures MapChar(s, x, y) == s
  {
    assert forall i :: 0 <= i < |s| ==> s[i] in s;
  }

  lemma MapCharAppend(a: string, b: string, x: char, y: char)
    ensures MapChar(a + b, x, y) == MapChar(a, x, y) + MapChar(b, x, y)
  {
  }

  /** Mapping `x` to `y` and back restores a string that had no `y`. */
  lemma MapCharInverse(s: string, x: char, y: char)
    requires y !in s
    ensures MapChar(MapChar(s, x, y), y, x) == s
  {
  }

  /** No occurrence of `pat` can straddle the seam of `a + b`: a rune next to
      the seam is not a rune of `pat`. */
  predicate Seam(a: string, b: string, pat: string) {
    a == [] || b == [] || a[|a| - 1] !in pat || b[0] !in pat
  }

  lemma SeamWindow(a: string, b: string, pat: string)
    requires a != [] && |pat| > |a| && |a + b| >= |pat| && Seam(a, b, pat)
    ensures (a + b)[..|pat|] != pat
  {
    var w := (a + b)[..|pat|];
    assert w[|a| - 1] == a[|a| - 1] && w[|a|] == b[0];
    assert w[|a| - 1] in w && w[|a|] in w;
  }

  /** ReplaceAll distributes over a concatenation whose seam no occurrence of
      `pat` can straddle. */
  lemma {:induction false} ReplaceAllAppend(a: string, b: string, pat: string, rep: string)
    requires pat != []
    requires Seam(a, b, pat)
    ensures ReplaceAll(a + b, pat, rep) == ReplaceAll(a, pat, rep) + ReplaceAll(b, pat, rep)
    decreases |a|, 1
  {
    if a == [] {
      assert a + b == b;
    } else if |a + b| < |pat| {
    } else if (a + b)[..|pat|] == pat {
      if |pat| > |a| {
        SeamWindow(a, b, pat);
      }
      ReplaceAllAppendMatch(a, b, pat, rep);
    } else {
      ReplaceAllAppendSkip(a, b, pat, rep);
    }
  }

  /** The step of `ReplaceAllAppend` where `a` starts with `pat`. */
  lemma {:induction false} ReplaceAllAppendMatch(a: string, b: string, pat: string, rep: string)
    requires pat != [] && Seam(a, b, pat) && |pat| <= |a| && a[..|pat|] == pat
    ensures ReplaceAll(a + b, pat, rep) == ReplaceAll(a, pat, rep) + ReplaceAll(b, pat, rep)
    decreases |a|, 0
  {
    var a' := a[|pat|..];
    PrefixAppend(a, b, |pat|);
    DropAppend(a, b, |pat|);
    SeamDrop(a, b, pat, |pat|);
    ReplaceAllAppend(a', b, pat, rep);
    ReplaceAllMatch(a + b, pat, rep);
    ReplaceAllMatch(a, pat, rep);
  }

  lemma DropAppend(a: string, b: string, n: nat)
    requires n <= |a|
    ensures (a + b)[n..] == a[n..] + b
  {
  }

  lemma SeamDrop(a: string, b: string, pat: string, n: nat)
    requires n <= |a| && Seam(a, b, pat)
    ensures Seam(a[n..], b, pat)
  {
  }

  /** Where `pat` starts, it is replaced and the scan resumes after it. */
  lemma ReplaceAllMatch(x: string, pat: string, rep: string)
    requires pat != [] && |x| >= |pat| && x[..|pat|] == pat
    ensures ReplaceAll(x, pat, rep) == rep + ReplaceAll(x[|pat|..], pat, rep)
  {
  }

  /** The step of `ReplaceAllAppend` where `a + b` does not start with `pat`. */
  lemma {:induction false} ReplaceAllAppendSkip(a: string, b: string, pat: string, rep: string)
    requires pat != [] && Seam(a, b, pat) && a != []
    requires |a + b| >= |pat| && (a + b)[..|pat|] != pat
    ensures ReplaceAll(a + b, pat, rep) == ReplaceAll(a, pat, rep) + ReplaceAll(b, pat, rep)
    decreases |a|, 0
  {
    var a' := a[1..];
    TailAppend(a, b);
    SeamTail(a, b, pat);
    ReplaceAllAppend(a', b, pat, rep);
    ReplaceAllNoMatch(a + b, pat, rep);
    if |a| >= |pat| {
      PrefixAppend(a, b, |pat|);
    }
    ReplaceAllNoMatch(a, pat, rep);
    Associate([a[0]], ReplaceAll(a', pat, rep), ReplaceAll(b, pat, rep));
  }

  lemma Associate<T>(a: seq<T>, b: seq<T>, c: seq<T>)
    ensures (a + b) + c == a + (b + c)
  {
  }

  lemma TailAppend(a: string, b: string)
    requires a != []
    ensures (a + b)[0] == a[0] && (a + b)[1..] == a[1..] + b
  {
  }

  lemma PrefixAppend(a: string, b: string, n: nat)
    requires n <= |a|
    ensures (a + b)[..n] == a[..n]
  {
  }

  lemma SeamTail(a: string, b: string, pat: string)
    requires a != [] && Seam(a, b, pat)
    ensures Seam(a[1..], b, pat)
  {
  }

  /** Dropping the first rune shifts every occurrence one place left. */
  lemma OccursAtShift(x: string, j: nat, pat: string)
    requires x != []
    ensures OccursAt(x[1..], j, pat) <==> OccursAt(x, j + 1, pat)
  {
    if j + 1 + |pat| <= |x| {
      assert x[1..][j..j + |pat|] == x[j + 1..j + 1 + |pat|];
    }
  }

  /** A prefix `a` at none of whose positions `pat` starts is copied
      through, and replacing goes on in `b`. */
  lemma {:induction false} ReplaceAllSkip(a: string, b: string, pat: string, rep: string)
    requires pat != []
    requires forall j :: 0 <= j < |a| ==> !OccursAt(a + b, j, pat)
    ensures ReplaceAll(a + b, pat, rep) == a + ReplaceAll(b, pat, rep)
    decreases |a|
  {
    if a == [] {
      assert a + b == b;
    } else {
      var x := a + b;
      TailAppend(a, b);
      NotAtZero(x, pat);
      forall j | 0 <= j < |a| - 1 ensures !OccursAt(a[1..] + b, j, pat) {
        OccursAtShift(x, j, pat);
      }
      ReplaceAllSkip(a[1..], b, pat, rep);
      ReplaceAllNoMatch(x, pat, rep);
      ConsAppend(x[0], a[1..], ReplaceAll(b, pat, rep));
    }
  }

  lemma NotAtZero(x: string, pat: string)
    requires !OccursAt(x, 0, pat)
    ensures |x| < |pat| || x[..|pat|] != pat
  {
    if |x| >= |pat| {
      assert x[..|pat|] == x[0..|pat|];
    }
  }

  lemma ConsAppend(c: char, a: string, b: string)
    ensures [c] + (a + b) == ([c] + a) + b
  {
  }

  /** Where `pat` does not start, the first rune is copied. */
  lemma ReplaceAllNoMatch(x: string, pat: string, rep: string)
    requires pat != [] && x != [] && (|x| < |pat| || x[..|pat|] != pat)
    ensures ReplaceAll(x, pat, rep) == [x[0]] + ReplaceAll(x[1..], pat, rep)
  {
    if |x| < |pat| {
      ReplaceAllShort(x[1..], pat, rep);
      assert [x[0]] + x[1..] == x;
    } else {
      assert x[..|pat|] != pat;
    }
  }

  lemma ReplaceAllShort(s: string, pat: string, rep: string)
    requires pat != [] && |s| < |pat|
    ensures ReplaceAll(s, pat, rep) == s
  {
  }

  /** `w` has no rune of `sep`. */
  predicate Disjoint(sep: string, w: string) {
    forall i :: 0 <= i < |sep| ==> sep[i] !in w
  }

  /** An occurrence of `w` cannot reach across runes `w` does not have. */
  lemma NoOccursAcross(a: string, sep: string, b: string, w: string)
    requires w != [] && sep != [] && Disjoint(sep, w)
    requires !Occurs(a, w) && !Occurs(b, w)
    ensures !Occurs(a + sep + b, w)
  {
    var s := a + sep + b;
    forall i | 0 <= i ensures !OccursAt(s, i, w) {
      if i + |w| <= |s| {
        var win := s[i..i + |w|];
        if i + |w| <= |a| {
          assert win == a[i..i + |w|];
          assert !OccursAt(a, i, w);
        } else if i >= |a| + |sep| {
          var k := i - |a| - |sep|;
          assert win == b[k..k + |w|];
          assert !OccursAt(b, k, w);
        } else {
          var m := if i <= |a| then |a| else i;
          assert s[m] == sep[m - |a|] && s[m] !in w;
          assert win[m - i] == s[m];
        }
      }
    }
  }

  /** Go's `strings.Split(s, string(sep))`: the pieces between separators,
      so `n` separators give `n + 1` pieces and `""` gives `[""]`. */
  function Split(s: string, sep: char): (r: seq<string>)
    ensures |r| >= 1
    ensures forall i :: 0 <= i < |r| ==> sep !in r[i]
  {
    if s == [] then [[]]
    else
      var rest := Split(s[1..], sep);
      if s[0] == sep then [[]] + rest else [[s[0]] + rest[0]] + rest[1..]
  }

  /** Go's `strings.Join(parts, string(sep))`. */
  function Join(parts: seq<string>, sep: char): string
  {
    if parts == [] then []
    else if |parts| == 1 then parts[0]
    else parts[0] + [sep] + Join(parts[1..], sep)
  }

  /** Number of occurrences of rune `c` in `s`. */
  function Count(s: string, c: char): nat
  {
    if s == [] then 0 else (if s[0] == c then 1 else 0) + Count(s[1..], c)
  }

  /** Every rune of a piece of a split is a rune of the string. */
  lemma {:induction false} SplitRunes(s: string, sep: char)
    ensures forall i, c :: 0 <= i < |Split(s, sep)| && c in Split(s, sep)[i] ==> c in s
  {
    if s != [] {
      SplitRunes(s[1..], sep);
      assert forall c :: c in s[1..] ==> c in s;
    }
  }

  /** A string without the separator is one piece. */
  lemma {:induction false} SplitNone(s: string, sep: char)
    requires sep !in s
    ensures Split(s, sep) == [s]
  {
    if s != [] {
      assert forall c :: c in s[1..] ==> c in s;
      assert s[0] in s && s == [s[0]] + s[1..];
      SplitNone(s[1..], sep);
    }
  }

  /** Joining the pieces of a split gives back the string. */
  lemma {:induction false} JoinSplit(s: string, sep: char)
    ensures Join(Split(s, sep), sep) == s
  {
    if s != [] {
      var rest := Split(s[1..], sep);
      JoinSplit(s[1..], sep);
      if s[0] != sep {
        var r := Split(s, sep);
        assert r[1..] == rest[1..];
        if |rest| > 1 {
          assert Join(rest, sep) == rest[0] + [sep] + Join(rest[1..], sep);
        }
      }
    }
  }

  /** Splitting a join gives back the pieces, provided none holds `sep`. */
  lemma {:induction false} SplitJoin(parts: seq<string>, sep: char)
    requires |parts| >= 1
    requires forall i :: 0 <= i < |parts| ==> sep !in parts[i]
    ensures Split(Join(parts, sep), sep) == parts
    decreases |parts|, |parts[0]|
  {
    var p := parts[0];
    if p == [] {
      if |parts| > 1 {
        SplitJoin(parts[1..], sep);
        assert Join(parts, sep) == [sep] + Join(parts[1..], sep);
        assert (Join(parts, sep))[1..] == Join(parts[1..], sep);
      }
    } else {
      var tail := [p[1..]] + parts[1..];
      SplitJoin(tail, sep);
      assert tail[1..] == parts[1..];
      if |parts| > 1 {
        assert Join(tail, sep) == p[1..] + [sep] + Join(parts[1..], sep);
      }
      assert p[0] in parts[0];
      assert Join(parts, sep) == [p[0]] + Join(tail, sep);
      assert Join(parts, sep)[0] == p[0] != sep;
      assert Join(parts, sep)[1..] == Join(tail, sep);
      assert [p[0]] + p[1..] == p;
    }
  }

  /** A split has one more piece than the string has separators. */
  lemma {:induction false} SplitCount(s: string, sep: char)
    ensures |Split(s, sep)| == Count(s, sep) + 1
  {
    if s != [] {
      SplitCount(s[1..], sep);
    }
  }

  /** Mapping runes other than the separator commutes with joining. */
  lemma {:induction false} MapCharJoin(parts: seq<string>, sep: char, x: char, y: char)
    requires x != sep && y != sep
    ensures MapChar(Join(parts, sep), x, y) == Join(MapCharEach(parts, x, y), sep)
  {
    if |parts| > 1 {
      MapCharJoin(parts[1..], sep, x, y);
      MapCharAppend(parts[0] + [sep], Join(parts[1..], sep), x, y);
      MapCharAppend(parts[0], [sep], x, y);
      assert MapCharEach(parts, x, y)[1..] == MapCharEach(parts[1..], x, y);
    }
  }

  /** `MapChar` applied to each piece. */
  function MapCharEach(parts: seq<string>, x: char, y: char): (r: seq<string>)
    ensures |r| == |parts|
    ensures forall i :: 0 <= i < |parts| ==> r[i] == MapChar(parts[i], x, y)
  {
    if parts == [] then [] else [MapChar(parts[0], x, y)] + MapCharEach(parts[1..], x, y)
  }

  predicate IsDigit(c: char) {
    '0' <= c <= '9'
  }

  predicate AllDigits(s: string) {
    forall i :: 0 <= i < |s| ==> IsDigit(s[i])
  }

  function DigitChar(d: nat): (c: char)
    requires d < 10
    ensures IsDigit(c)
  {
    ('0' as int + d) as char
  }

  /** Go's `%d` (`strconv.Itoa`) for a non-negative integer: decimal digits,
      no leading zero. */
  function Decimal(n: nat): (r: string)
    ensures |r| >= 1 && AllDigits(r)
    ensures |r| > 1 ==> r[0] != '0'
  {
    if n < 10 then [DigitChar(n)] else Decimal(n / 10) + [DigitChar(n % 10)]
  }

  /** The number a run of decimal digits denotes. */
  function DigitsValue(s: string): nat
    requires AllDigits(s)
  {
    if s == [] then 0 else DigitsValue(s[..|s| - 1]) * 10 + (s[|s| - 1] as int - '0' as int)
  }

  /** Reading the digits back gives the number. */
  lemma {:induction false} DecimalValue(n: nat)
    ensures DigitsValue(Decimal(n)) == n
  {
    if n >= 10 {
      DecimalValue(n / 10);
      var r := Decimal(n);
      assert r[..|r| - 1] == Decimal(n / 10);
    }
  }

  /** The longest prefix of `s` made of digits. */
  function DigitRun(s: string): (r: string)
    ensures |r| <= |s| && r == s[..|r|] && AllDigits(r)
    ensures |r| < |s| ==> !IsDigit(s[|r|])
  {
    if s == [] || !IsDigit(s[0]) then [] else [s[0]] + DigitRun(s[1..])
  }

  /** A run of digits followed by a non-digit is read back whole. */
  lemma {:induction false} DigitRunAppend(d: string, rest: string)
    requires AllDigits(d)
    requires rest == [] || !IsDigit(rest[0])
    ensures DigitRun(d + rest) == d
  {
    if d != [] {
      assert (d + rest)[0] == d[0] && (d + rest)[1..] == d[1..] + rest;
      DigitRunAppend(d[1..], rest);
    } else {
      assert d + rest == rest;
    }
  }
}
