/**
 * String helpers with the semantics of the JavaScript string operations the
 * source relies on: `String(n)` for integers, `split` on a character or a
 * character class, `filter(Boolean)` on the pieces, `indexOf(...) === 0`,
 * `replace` with a string pattern, and `<` between strings.
 */
module Text {

  /** The characters matched by `\s` in an ECMAScript regular expression. */
  predicate IsWhitespace(c: char) {
    c == ' ' || c == '\t' || c == '\n' || c == '\r' || c == '\U{B}' || c == '\U{C}'
    || c == '\U{A0}' || c == '\U{1680}' || ('\U{2000}' <= c <= '\U{200A}')
    || c == '\U{2028}' || c == '\U{2029}' || c == '\U{202F}' || c == '\U{205F}'
    || c == '\U{3000}' || c == '\U{FEFF}'
  }

  predicate IsDigit(c: char) {
    '0' <= c <= '9'
  }

  function DigitChar(d: nat): (c: char)
    requires d < 10
    ensures IsDigit(c) && c as int - '0' as int == d
  {
    (d + '0' as int) as char
  }

  /** Decimal rendering of a natural number, most significant digit first. */
  function NatToString(n: nat): (s: string)
    ensures |s| >= 1
    ensures forall i :: 0 <= i < |s| ==> IsDigit(s[i])
    decreases n
  {
    if n < 10 then [DigitChar(n)] else NatToString(n / 10) + [DigitChar(n % 10)]
  }

  /** Reads a non-empty string of decimal digits back as a number. */
  function DigitsValue(s: string): nat
    requires forall i :: 0 <= i < |s| ==> IsDigit(s[i])
  {
    assert s != [] ==> IsDigit(s[|s| - 1]);
    if s == [] then 0 else DigitsValue(s[..|s| - 1]) * 10 + (s[|s| - 1] as int - '0' as int)
  }

  /** `String(n)` for an integral JavaScript number. */
  function IntToString(n: int): (s: string)
    ensures |s| >= 1
  {
    if n < 0 then "-" + NatToString(-n) else NatToString(n)
  }

  /** Rendering a number in decimal and reading it back gives the number. */
  lemma {:induction false} NatToStringRoundTrip(n: nat)
    ensures DigitsValue(NatToString(n)) == n
    decreases n
  {
    if n >= 10 {
      var s := NatToString(n);
      NatToStringRoundTrip(n / 10);
      assert s[..|s| - 1] == NatToString(n / 10);
    }
  }

  /** `s.indexOf(p) === 0`. */
  predicate StartsWith(s: string, p: string) {
    |p| <= |s| && s[..|p|] == p
  }

  /** `p` occurs in `s` at position `k`. */
  predicate OccursAt(s: string, p: string, k: int) {
    0 <= k && k + |p| <= |s| && s[k..k + |p|] == p
  }

  /** Position of the first occurrence of `p` in `s` at or after `from`, or -1. */
  function IndexOfFrom(s: string, p: string, from: nat): (r: int)
    ensures r == -1 || (from <= r && OccursAt(s, p, r))
    ensures forall k :: from <= k && (r == -1 || k < r) ==> !OccursAt(s, p, k)
    decreases |s| - from
  {
    if from + |p| > |s| then -1
    else if s[from..from + |p|] == p then from
    else IndexOfFrom(s, p, from + 1)
  }

  /** `s.indexOf(p)`: the first position where `p` occurs, or -1. */
  function IndexOf(s: string, p: string): int {
    IndexOfFrom(s, p, 0)
  }

  /** `s.indexOf(p) === 0` says exactly that `s` starts with `p`. */
  lemma AtStart(s: string, p: string)
    ensures IndexOf(s, p) == 0 <==> StartsWith(s, p)
  {
    assert OccursAt(s, p, 0) <==> StartsWith(s, p);
  }

  /** `s.replace(p, r)` with a plain string pattern: the first occurrence only. */
  function ReplaceFirst(s: string, p: string, r: string): (t: string)
    ensures IndexOf(s, p) == -1 ==> t == s
  {
    var k := IndexOf(s, p);
    if k == -1 then s else s[..k] + r + s[k + |p|..]
  }

  /** Replacing a prefix with nothing removes exactly that prefix. */
  lemma ReplacePrefix(s: string, p: string)
    requires StartsWith(s, p)
    ensures ReplaceFirst(s, p, "") == s[|p|..]
  {
    assert s[0..0 + |p|] == p;
  }

  /**
   * `s.split(sep)` where `sep` matches one character at a time: the pieces
   * between separators, including empty ones at either end.
   */
  function SplitBy(s: string, isSep: char -> bool): (parts: seq<string>)
    ensures |parts| >= 1
    ensures forall i, c :: 0 <= i < |parts| && c in parts[i] ==> !isSep(c)
  {
    if s == [] then [""]
    else
      var rest := SplitBy(s[1..], isSep);
      if isSep(s[0]) then [""] + rest
      else [[s[0]] + rest[0]] + rest[1..]
  }

  /** `s.split(c)` for a one-character string `c`. */
  function Split(s: string, c: char): (parts: seq<string>)
    ensures |parts| >= 1
    ensures forall i :: 0 <= i < |parts| ==> c !in parts[i]
  {
    if s == [] then [""]
    else
      var rest := Split(s[1..], c);
      if s[0] == c then [""] + rest
      else [[s[0]] + rest[0]] + rest[1..]
  }

  /** A string without the separator is one piece. */
  lemma {:induction false} SplitNone(s: string, c: char)
    requires c !in s
    ensures Split(s, c) == [s]
  {
    if s != [] {
      assert forall x :: x in s[1..] ==> x in s;
      SplitNone(s[1..], c);
      assert [s[0]] + s[1..] == s;
    }
  }

  /** Splitting a string at its first separator: the text before it, then the pieces after it. */
  lemma {:induction false} SplitAt(a: string, b: string, c: char)
    requires c !in a
    ensures Split(a + [c] + b, c) == [a] + Split(b, c)
  {
    var s := a + [c] + b;
    if a == [] {
      assert s == [c] + b && s[1..] == b;
    } else {
      assert s[0] == a[0] && s[1..] == a[1..] + [c] + b;
      assert forall x :: x in a[1..] ==> x in a;
      SplitAt(a[1..], b, c);
      assert [a[0]] + a[1..] == a;
    }
  }

  /** `parts.join(c)`. */
  function Join(parts: seq<string>, c: char): string {
    if parts == [] then ""
    else if |parts| == 1 then parts[0]
    else parts[0] + [c] + Join(parts[1..], c)
  }

  /** Splitting on a character and joining back with it gives the original string. */
  lemma {:induction false} SplitJoin(s: string, c: char)
    ensures Join(Split(s, c), c) == s
  {
    if s != [] {
      SplitJoin(s[1..], c);
      var rest := Split(s[1..], c);
      if s[0] == c {
        assert s == [c] + s[1..];
      } else if |rest| == 1 {
        assert s == [s[0]] + s[1..];
      } else {
        assert Join(rest, c) == rest[0] + [c] + Join(rest[1..], c);
        assert s == [s[0]] + s[1..];
      }
    }
  }

  /** The pieces that are not empty, in order (`filter(Boolean)` on strings). */
  function NonEmpty(parts: seq<string>): (r: seq<string>)
    ensures forall i :: 0 <= i < |r| ==> r[i] != ""
    ensures forall p :: p in r <==> p in parts && p != ""
  {
    if parts == [] then []
    else if parts[0] == "" then NonEmpty(parts[1..])
    else [parts[0]] + NonEmpty(parts[1..])
  }

  /** The maximal runs of characters that are not separators. */
  function Fields(s: string, isSep: char -> bool): (r: seq<string>)
    ensures forall i :: 0 <= i < |r| ==> r[i] != "" && forall c :: c in r[i] ==> !isSep(c)
  {
    var parts := SplitBy(s, isSep);
    var r := NonEmpty(parts);
    assert forall i :: 0 <= i < |r| ==> r[i] in parts;
    r
  }

  /** `s.split(/[\s]+/).filter(Boolean)`: the whitespace-separated words. */
  function Words(s: string): seq<string> {
    Fields(s, IsWhitespace)
  }

  /** `s.split(" ").filter(Boolean)`: the space-separated words. */
  function SpaceWords(s: string): (r: seq<string>)
    ensures forall i :: 0 <= i < |r| ==> r[i] != "" && ' ' !in r[i]
  {
    var parts := Split(s, ' ');
    var r := NonEmpty(parts);
    assert forall i :: 0 <= i < |r| ==> r[i] in parts;
    r
  }

  /** A space in front adds no space-separated word. */
  lemma Indented(s: string)
    ensures SpaceWords(" " + s) == SpaceWords(s)
  {
    SplitAt("", s, ' ');
    assert "" + [' '] + s == " " + s;
  }

  /** Words joined with single spaces split back into those words. */
  lemma {:induction false} SpaceWordsJoin(ws: seq<string>)
    requires forall i :: 0 <= i < |ws| ==> ws[i] != "" && ' ' !in ws[i]
    ensures SpaceWords(Join(ws, ' ')) == ws
  {
    if ws == [] {
      assert [""][1..] == [];
    } else if |ws| == 1 {
      SplitNone(ws[0], ' ');
      assert [ws[0]][1..] == [] && ws == [ws[0]];
      assert Join(ws, ' ') == ws[0];
      assert NonEmpty([ws[0]]) == [ws[0]] + NonEmpty([]);
    } else {
      SpaceWordsJoin(ws[1..]);
      SplitAt(ws[0], Join(ws[1..], ' '), ' ');
      var parts := [ws[0]] + Split(Join(ws[1..], ' '), ' ');
      assert parts[0] == ws[0] && parts[1..] == Split(Join(ws[1..], ' '), ' ');
      assert ws == [ws[0]] + ws[1..];
    }
  }

  /** A run of non-separators in front of a string joins the first piece of its split. */
  lemma {:induction false} SplitWordPrefix(w: string, s: string, isSep: char -> bool)
    requires forall c :: c in w ==> !isSep(c)
    ensures SplitBy(w + s, isSep) == [w + SplitBy(s, isSep)[0]] + SplitBy(s, isSep)[1..]
  {
    var parts := SplitBy(s, isSep);
    if w == [] {
      assert w + s == s && w + parts[0] == parts[0];
      assert parts == [parts[0]] + parts[1..];
    } else {
      assert (w + s)[0] == w[0] && (w + s)[1..] == w[1..] + s;
      assert w[0] in w;
      assert forall c :: c in w[1..] ==> c in w;
      SplitWordPrefix(w[1..], s, isSep);
      assert [w[0]] + (w[1..] + SplitBy(s, isSep)[0]) == w + SplitBy(s, isSep)[0];
    }
  }

  /** A word written after a space, in front of nothing or of a space, is the first word. */
  lemma SpacedWord(w: string, rest: string)
    requires w != [] && forall c :: c in w ==> !IsWhitespace(c)
    requires rest == [] || rest[0] == ' '
    ensures Words(" " + w + rest) == [w] + Words(rest)
  {
    var s := " " + w + rest;
    assert s[0] == ' ' && s[1..] == w + rest;
    var parts := SplitBy(rest, IsWhitespace);
    SplitWordPrefix(w, rest, IsWhitespace);
    if rest == [] {
      assert parts == [""];
    } else {
      assert parts == [""] + SplitBy(rest[1..], IsWhitespace);
    }
    assert parts == [""] + parts[1..];
    assert SplitBy(s, IsWhitespace) == [""] + ([w + ""] + parts[1..]);
    assert w + "" == w;
    assert NonEmpty([""] + ([w] + parts[1..])) == [w] + NonEmpty(parts[1..]);
    assert NonEmpty(parts) == NonEmpty(parts[1..]);
  }

  /** JavaScript's `a < b` on strings: lexicographic by character code. */
  predicate Less(a: string, b: string) {
    if b == [] then false
    else if a == [] then true
    else if a[0] != b[0] then a[0] < b[0]
    else Less(a[1..], b[1..])
  }

  predicate LessEq(a: string, b: string) {
    a == b || Less(a, b)
  }

  lemma LessIrreflexive(a: string)
    ensures !Less(a, a)
  {
  }

  lemma LessTotal(a: string, b: string)
    ensures a == b || Less(a, b) || Less(b, a)
  {
    if a != [] && b != [] && a[0] == b[0] {
      LessTotal(a[1..], b[1..]);
      assert a == [a[0]] + a[1..] && b == [b[0]] + b[1..];
    }
  }

  lemma LessTransitive(a: string, b: string, c: string)
    requires Less(a, b) && Less(b, c)
    ensures Less(a, c)
  {
    if a != [] && a[0] == b[0] && b[0] == c[0] {
      LessTransitive(a[1..], b[1..], c[1..]);
    }
  }

  lemma LessAsymmetric(a: string, b: string)
    requires Less(a, b)
    ensures !Less(b, a)
  {
    if a != [] && a[0] == b[0] {
      LessAsymmetric(a[1..], b[1..]);
    }
  }
}
