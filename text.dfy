/** The string operations the searches and the sorted listing rely on:
    `string.IsNullOrWhiteSpace`, `Contains(…, StringComparison.OrdinalIgnoreCase)`
    and the order `OrderBy(s => s.Name)` sorts by. Strings are sequences of
    code points; case folding is upper-casing of the ASCII letters. */
module Text {
  import opened Common

  /** The characters .NET's `char.IsWhiteSpace` accepts: the controls U+0009 to
      U+000D and U+0085, and the space, line and paragraph separators. */
  predicate IsWhiteSpace(c: char) {
    ('\U{9}' <= c <= '\U{D}') || c == ' ' || c == '\U{85}' || c == '\U{A0}' ||
    c == '\U{1680}' || ('\U{2000}' <= c <= '\U{200A}') || c == '\U{2028}' ||
    c == '\U{2029}' || c == '\U{202F}' || c == '\U{205F}' || c == '\U{3000}'
  }

  /** `string.IsNullOrWhiteSpace`: absent, empty, or white space only. */
  predicate IsNullOrWhiteSpace(s: Option<string>) {
    s.None? || forall i :: 0 <= i < |s.value| ==> IsWhiteSpace(s.value[i])
  }

  /** Simple upper-case mapping of one character (ASCII letters only). */
  function ToUpper(c: char): char {
    if 'a' <= c <= 'z' then (c as int - 32) as char else c
  }

  /** Two strings are equal once both are upper-cased character by character. */
  predicate SameIgnoringCase(a: string, b: string) {
    |a| == |b| && forall i :: 0 <= i < |a| ==> ToUpper(a[i]) == ToUpper(b[i])
  }

  /** `needle` occurs in `hay` at position `i`, ignoring case. */
  ghost predicate OccursAt(hay: string, needle: string, i: int) {
    0 <= i && i + |needle| <= |hay| && SameIgnoringCase(hay[i..i + |needle|], needle)
  }

  /** `hay.Contains(needle, StringComparison.OrdinalIgnoreCase)`: the needle
      occurs at some position; the empty needle occurs everywhere. */
  function ContainsIgnoreCase(hay: string, needle: string): (r: bool)
    ensures r <==> exists i :: OccursAt(hay, needle, i)
    decreases |hay|
  {
    if |needle| > |hay| then
      false
    else if SameIgnoringCase(hay[..|needle|], needle) then
      assert OccursAt(hay, needle, 0);
      true
    else
      var rest := ContainsIgnoreCase(hay[1..], needle);
      OccurrenceAfterFirst(hay, needle);
      rest
  }

  /** When the needle does not occur at position 0, it occurs in `hay` exactly
      when it occurs in `hay[1..]`. */
  lemma OccurrenceAfterFirst(hay: string, needle: string)
    requires hay != [] && !OccursAt(hay, needle, 0)
    ensures (exists i :: OccursAt(hay, needle, i)) <==> (exists j :: OccursAt(hay[1..], needle, j))
  {
    if i :| OccursAt(hay, needle, i) {
      assert hay[i..i + |needle|] == hay[1..][i - 1..i - 1 + |needle|];
      assert OccursAt(hay[1..], needle, i - 1);
    }
    if j :| OccursAt(hay[1..], needle, j) {
      assert hay[j + 1..j + 1 + |needle|] == hay[1..][j..j + |needle|];
      assert OccursAt(hay, needle, j + 1);
    }
  }

  /** The order names are sorted by: ordinal lexicographic order, a prefix
      coming first. */
  predicate NameLeq(a: string, b: string) {
    a == [] || (b != [] && (a[0] < b[0] || (a[0] == b[0] && NameLeq(a[1..], b[1..]))))
  }

  lemma {:induction false} NameLeqTotal(a: string, b: string)
    ensures NameLeq(a, b) || NameLeq(b, a)
  {
    if a != [] && b != [] && a[0] == b[0] {
      NameLeqTotal(a[1..], b[1..]);
    }
  }

  lemma {:induction false} NameLeqTransitive(a: string, b: string, c: string)
    requires NameLeq(a, b) && NameLeq(b, c)
    ensures NameLeq(a, c)
  {
    if a != [] && b != [] && c != [] && a[0] == b[0] && b[0] == c[0] {
      NameLeqTransitive(a[1..], b[1..], c[1..]);
    }
  }

  lemma {:induction false} NameLeqAntisymmetric(a: string, b: string)
    requires NameLeq(a, b) && NameLeq(b, a)
    ensures a == b
  {
    if a != [] && b != [] {
      NameLeqAntisymmetric(a[1..], b[1..]);
      assert a == [a[0]] + a[1..] && b == [b[0]] + b[1..];
    }
  }
}
