/** The string operations the services rely on: Java's `String.isBlank` and `String.trim`,
    the `emptyToNull` helper, and the order SQLite uses to compare TEXT values. */
module Text {
  import opened Common

  /** Java's `Character.isWhitespace`: the Unicode space, line and paragraph separators
      other than the no-break spaces U+00A0, U+2007 and U+202F, plus U+0009..U+000D and
      U+001C..U+001F. */
  predicate IsJavaWhitespace(c: char) {
    || ('\t' <= c <= '\r')
    || ('\U{1C}' <= c <= ' ')
    || c == '\U{1680}'
    || ('\U{2000}' <= c <= '\U{200A}' && c != '\U{2007}')
    || c == '\U{2028}' || c == '\U{2029}' || c == '\U{205F}' || c == '\U{3000}'
  }

  /** Java's `String.isBlank`: empty or white space only. */
  predicate IsBlank(s: string) {
    forall i :: 0 <= i < |s| ==> IsJavaWhitespace(s[i])
  }

  /** `String.trim` removes every character up to U+0020 from both ends; that is not the
      same set as `isBlank` uses (U+0000 is trimmed but is not white space, U+3000 is
      white space but is not trimmed). */
  predicate Trimmable(c: char) {
    c <= ' '
  }

  predicate IsTrimmed(s: string) {
    s == [] || (!Trimmable(s[0]) && !Trimmable(s[|s| - 1]))
  }

  /** Index of the first character at or after `i` that `trim` keeps. */
  function TrimStart(s: string, i: nat): (k: nat)
    requires i <= |s|
    ensures i <= k <= |s|
    ensures forall m :: i <= m < k ==> Trimmable(s[m])
    ensures k == |s| || !Trimmable(s[k])
    decreases |s| - i
  {
    if i == |s| || !Trimmable(s[i]) then i else TrimStart(s, i + 1)
  }

  /** End (exclusive) of the part of `s[lo..j]` that `trim` keeps. */
  function TrimEnd(s: string, lo: nat, j: nat): (k: nat)
    requires lo <= j <= |s|
    ensures lo <= k <= j
    ensures forall m :: k <= m < j ==> Trimmable(s[m])
    ensures k == lo || !Trimmable(s[k - 1])
    decreases j
  {
    if j == lo || !Trimmable(s[j - 1]) then j else TrimEnd(s, lo, j - 1)
  }

  /** Java's `String.trim`. */
  function Trim(s: string): (t: string)
    ensures IsTrimmed(t)
    ensures exists i, j {:trigger s[i..j]} :: 0 <= i <= j <= |s| && t == s[i..j]
                   && (forall m :: 0 <= m < i ==> Trimmable(s[m]))
                   && (forall m :: j <= m < |s| ==> Trimmable(s[m]))
    ensures IsTrimmed(s) ==> t == s
    ensures t == [] <==> forall m :: 0 <= m < |s| ==> Trimmable(s[m])
  {
    var i := TrimStart(s, 0);
    var j := TrimEnd(s, i, |s|);
    assert i < j ==> !Trimmable(s[i]);
    s[i..j]
  }

  lemma TrimIdempotent(s: string)
    ensures Trim(Trim(s)) == Trim(s)
  {
  }

  /** The private `emptyToNull` helper of the trip and pantry services: null stays null,
      anything else is trimmed, and what trims to nothing becomes null. */
  function EmptyToNull(s: Option<string>): (r: Option<string>)
    ensures r.None? <==> s.None? || forall m :: 0 <= m < |s.value| ==> Trimmable(s.value[m])
    ensures r.Some? ==> r.value == Trim(s.value) && r.value != [] && IsTrimmed(r.value)
  {
    if s.None? then None
    else
      var t := Trim(s.value);
      if t == [] then None else Some(t)
  }

  /** SQLite's BINARY collation on TEXT: byte-wise comparison of UTF-8, which orders
      strings lexicographically by code point, a proper prefix first. */
  predicate LexLe(a: string, b: string)
    decreases |a|
  {
    a == [] || (b != [] && (a[0] < b[0] || (a[0] == b[0] && LexLe(a[1..], b[1..]))))
  }

  predicate LexLt(a: string, b: string) {
    LexLe(a, b) && a != b
  }

  lemma {:induction false} LexLeReflexive(a: string)
    ensures LexLe(a, a)
  {
    if a != [] {
      LexLeReflexive(a[1..]);
    }
  }

  lemma {:induction false} LexLeTotal(a: string, b: string)
    ensures LexLe(a, b) || LexLe(b, a)
    decreases |a|
  {
    if a != [] && b != [] && a[0] == b[0] {
      LexLeTotal(a[1..], b[1..]);
    }
  }

  lemma {:induction false} LexLeTransitive(a: string, b: string, c: string)
    requires LexLe(a, b) && LexLe(b, c)
    ensures LexLe(a, c)
    decreases |a|
  {
    if a != [] && a[0] == b[0] && b[0] == c[0] {
      LexLeTransitive(a[1..], b[1..], c[1..]);
    }
  }

  lemma {:induction false} LexLeAntisymmetric(a: string, b: string)
    requires LexLe(a, b) && LexLe(b, a)
    ensures a == b
    decreases |a|
  {
    if a != [] {
      LexLeAntisymmetric(a[1..], b[1..]);
      assert a == [a[0]] + a[1..] && b == [b[0]] + b[1..];
    }
  }
}
