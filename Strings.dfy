/**
 * The handful of Python string operations the harvester relies on:
 * substring search (`pat in text`), `str.split(sep)` and its inverse
 * `sep.join(parts)`, `str.replace(a, b)` for one character, and the
 * code-point order that Python uses to compare two strings.
 */
module Strings {
  import opened Wrappers

  /** `pat` occurs in `text` starting at index `i`. */
  predicate OccursAt(text: string, pat: string, i: int)
  {
    0 <= i && i + |pat| <= |text| && text[i..i + |pat|] == pat
  }

  /** The index of the leftmost occurrence of `pat` in `text`, as `str.find` computes it. */
  function IndexOf(text: string, pat: string): (r: Option<nat>)
    ensures r.Some? ==> OccursAt(text, pat, r.value)
    ensures r.Some? ==> forall j :: 0 <= j < r.value ==> !OccursAt(text, pat, j)
    ensures r.None? ==> forall j :: !OccursAt(text, pat, j)
    decreases |text|
  {
    if pat <= text then Some(0)
    else if text == [] then None
    else
      var rest := IndexOf(text[1..], pat);
      assert forall j :: 1 <= j ==> (OccursAt(text, pat, j) <==> OccursAt(text[1..], pat, j - 1)) by {
        forall j | 1 <= j
          ensures OccursAt(text, pat, j) <==> OccursAt(text[1..], pat, j - 1)
        {
          if 0 <= j - 1 && j - 1 + |pat| <= |text[1..]| {
            assert text[1..][j - 1..j - 1 + |pat|] == text[j..j + |pat|];
          }
        }
      }
      match rest
      case None => None
      case Some(k) => Some(k + 1)
  }

  /** Python's `pat in text`: a case-sensitive substring test. */
  function Contains(text: string, pat: string): (b: bool)
    ensures b <==> exists i :: OccursAt(text, pat, i)
  {
    IndexOf(text, pat).Some?
  }

  /** For a one-character pattern, the substring test is plain membership. */
  lemma ContainsChar(text: string, c: char)
    ensures Contains(text, [c]) <==> c in text
  {
    if c in text {
      var i :| 0 <= i < |text| && text[i] == c;
      assert text[i..i + 1] == [c];
      assert OccursAt(text, [c], i);
    }
    if Contains(text, [c]) {
      var i :| OccursAt(text, [c], i);
      assert text[i] == text[i..i + 1][0] == c;
    }
  }

  /** Python's `sep.join(parts)`. */
  function Join(parts: seq<string>, sep: string): string
    decreases |parts|
  {
    if |parts| == 0 then []
    else if |parts| == 1 then parts[0]
    else parts[0] + sep + Join(parts[1..], sep)
  }

  /**
   * Python's `text.split(sep)` (and pandas' `str.split` with a pattern that
   * matches only its own literal text): cut at every leftmost
   * non-overlapping occurrence of `sep`.
   * The pieces join back into `text`, and none of them contains `sep`.
   */
  function Split(text: string, sep: string): (parts: seq<string>)
    requires sep != []
    ensures |parts| >= 1
    ensures Join(parts, sep) == text
    ensures forall k :: 0 <= k < |parts| ==> !Contains(parts[k], sep)
    decreases |text|
  {
    match IndexOf(text, sep)
    case None => [text]
    case Some(i) =>
      var head := text[..i];
      var tail := Split(text[i + |sep|..], sep);
      assert !Contains(head, sep) by {
        forall j | OccursAt(head, sep, j) ensures false {
          assert text[j..j + |sep|] == head[j..j + |sep|];
          assert OccursAt(text, sep, j);
        }
      }
      assert head + sep + text[i + |sep|..] == text by {
        assert text[i..i + |sep|] == sep;
        assert text == text[..i] + text[i..i + |sep|] + text[i + |sep|..];
      }
      [head] + tail
  }

  /**
   * The first piece is the text up to the first occurrence of `sep`, or the
   * whole text when there is none (what `text.split(sep)[0]` gives).
   */
  lemma SplitHead(text: string, sep: string)
    requires sep != []
    ensures Split(text, sep)[0] <= text
    ensures var n := |Split(text, sep)[0]|; n == |text| || OccursAt(text, sep, n)
    ensures forall j :: 0 <= j < |Split(text, sep)[0]| ==> !OccursAt(text, sep, j)
  {
  }

  /** A text cut once is its two pieces around `sep`; a text not cut is its only piece. */
  lemma SplitAtMostOnce(text: string, sep: string)
    requires sep != [] && |Split(text, sep)| <= 2
    ensures |Split(text, sep)| == 1 ==> text == Split(text, sep)[0]
    ensures |Split(text, sep)| == 2 ==> text == Split(text, sep)[0] + sep + Split(text, sep)[1]
  {
  }

  /** A text without `sep` is not cut. */
  lemma SplitWithout(text: string, sep: string)
    requires sep != [] && !Contains(text, sep)
    ensures Split(text, sep) == [text]
  {
  }

  /** A text whose first occurrence of `sep` is at `i` is cut there first. */
  lemma SplitAtFirst(text: string, sep: string, i: nat)
    requires sep != [] && OccursAt(text, sep, i)
    requires forall j :: 0 <= j < i ==> !OccursAt(text, sep, j)
    ensures Split(text, sep) == [text[..i]] + Split(text[i + |sep|..], sep)
  {
    assert IndexOf(text, sep) == Some(i);
  }

  /** Python's `s.replace(a, b)` for single characters `a` and `b`. */
  function ReplaceChar(s: string, a: char, b: char): (r: string)
    ensures |r| == |s|
    ensures forall k :: 0 <= k < |s| ==> r[k] == (if s[k] == a then b else s[k])
    decreases |s|
  {
    if s == [] then []
    else [if s[0] == a then b else s[0]] + ReplaceChar(s[1..], a, b)
  }

  /** Python's `a <= b` on strings: lexicographic by code point. */
  predicate LexLe(a: string, b: string)
    decreases |a|
  {
    a == [] || (b != [] && (a[0] < b[0] || (a[0] == b[0] && LexLe(a[1..], b[1..]))))
  }

  lemma {:induction false} LexLeTotal(a: string, b: string)
    ensures LexLe(a, b) || LexLe(b, a)
    decreases |a|
  {
    if a != [] && b != [] && a[0] == b[0] {
      LexLeTotal(a[1..], b[1..]);
    }
  }

  lemma {:induction false} LexLeAntisymmetric(a: string, b: string)
    requires LexLe(a, b) && LexLe(b, a)
    ensures a == b
    decreases |a|
  {
    if a != [] && b != [] {
      LexLeAntisymmetric(a[1..], b[1..]);
      assert a == [a[0]] + a[1..] && b == [b[0]] + b[1..];
    }
  }

  lemma {:induction false} LexLeTransitive(a: string, b: string, c: string)
    requires LexLe(a, b) && LexLe(b, c)
    ensures LexLe(a, c)
    decreases |a|
  {
    if a != [] && b != [] && c != [] && a[0] == b[0] && b[0] == c[0] {
      LexLeTransitive(a[1..], b[1..], c[1..]);
    }
  }
}
