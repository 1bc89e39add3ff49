/**
 * The JavaScript string operations the frontmatter compiler relies on:
 * `trim`, `split('\n')`, `indexOf` on a single character and `endsWith`.
 * Strings are sequences of Unicode code points; every character these
 * operations look for lies in the Basic Multilingual Plane, so they behave
 * the same on code points as on JavaScript's UTF-16 code units.
 */
module JsString {

  /** The code points `String.prototype.trim` removes: ECMAScript's
      WhiteSpace (tab, vertical tab, form feed, the byte order mark and the
      Space_Separator category) and LineTerminator (LF, CR, U+2028, U+2029). */
  predicate IsWhitespace(c: char) {
    var n := c as int;
    || 0x09 <= n <= 0x0D
    || n == 0x20 || n == 0xA0 || n == 0x1680
    || 0x2000 <= n <= 0x200A
    || n == 0x2028 || n == 0x2029 || n == 0x202F || n == 0x205F
    || n == 0x3000 || n == 0xFEFF
  }

  predicate AllWhitespace(s: string) {
    forall i :: 0 <= i < |s| ==> IsWhitespace(s[i])
  }

  /** The index of the first non-whitespace character at or after `i`, or `|s|`. */
  function TrimStartIndex(s: string, i: nat): (k: nat)
    requires i <= |s|
    ensures i <= k <= |s|
    ensures forall j :: i <= j < k ==> IsWhitespace(s[j])
    ensures k < |s| ==> !IsWhitespace(s[k])
    decreases |s| - i
  {
    if i < |s| && IsWhitespace(s[i]) then TrimStartIndex(s, i + 1) else i
  }

  /** The index just past the last non-whitespace character in `s[lo..j]`, or `lo`. */
  function TrimEndIndex(s: string, lo: nat, j: nat): (k: nat)
    requires lo <= j <= |s|
    ensures lo <= k <= j
    ensures forall m :: k <= m < j ==> IsWhitespace(s[m])
    ensures lo < k ==> !IsWhitespace(s[k - 1])
    decreases j
  {
    if lo < j && IsWhitespace(s[j - 1]) then TrimEndIndex(s, lo, j - 1) else j
  }

  /** `s.trim()`: the infix of `s` left after removing whitespace at both ends. */
  function Trim(s: string): string
  {
    var a := TrimStartIndex(s, 0);
    s[a..TrimEndIndex(s, a, |s|)]
  }

  /** A string neither starting nor ending in whitespace; `Trim` leaves exactly these unchanged. */
  predicate IsTrimmed(m: string) {
    m != [] ==> !IsWhitespace(m[0]) && !IsWhitespace(m[|m| - 1])
  }

  /** The scan indices are determined by their contracts. */
  lemma TrimStartIndexAt(s: string, i: nat, k: nat)
    requires i <= k <= |s|
    requires forall j :: i <= j < k ==> IsWhitespace(s[j])
    requires k < |s| ==> !IsWhitespace(s[k])
    ensures TrimStartIndex(s, i) == k
  {
  }

  lemma TrimEndIndexAt(s: string, lo: nat, j: nat, k: nat)
    requires lo <= k <= j <= |s|
    requires forall m :: k <= m < j ==> IsWhitespace(s[m])
    requires lo < k ==> !IsWhitespace(s[k - 1])
    ensures TrimEndIndex(s, lo, j) == k
  {
  }

  /** Trim against an independent description: surrounding whitespace on
      both sides of a trimmed string is exactly what `trim` removes. */
  lemma TrimOfPadded(w1: string, m: string, w2: string)
    requires AllWhitespace(w1) && AllWhitespace(w2) && IsTrimmed(m)
    ensures Trim(w1 + m + w2) == m
  {
    var s := w1 + m + w2;
    assert forall j :: 0 <= j < |w1| ==> s[j] == w1[j];
    assert forall j :: 0 <= j < |m| ==> s[|w1| + j] == m[j];
    assert forall j :: 0 <= j < |w2| ==> s[|w1| + |m| + j] == w2[j];
    if m == [] {
      TrimStartIndexAt(s, 0, |s|);
      TrimEndIndexAt(s, |s|, |s|, |s|);
    } else {
      assert s[|w1|] == m[0];
      TrimStartIndexAt(s, 0, |w1|);
      assert s[|w1| + |m| - 1] == m[|m| - 1];
      TrimEndIndexAt(s, |w1|, |s|, |w1| + |m|);
      assert s[|w1|..|w1| + |m|] == m;
    }
  }

  /** A trimmed string is its own trim. */
  lemma TrimmedUnchanged(m: string)
    requires IsTrimmed(m)
    ensures Trim(m) == m
  {
    TrimOfPadded([], m, []);
    assert [] + m + [] == m;
  }

  /** `trim` always yields a trimmed infix of its input, so trimming twice changes nothing. */
  lemma TrimIsTrimmed(s: string)
    ensures IsTrimmed(Trim(s))
    ensures Trim(Trim(s)) == Trim(s)
  {
    var a := TrimStartIndex(s, 0);
    var b := TrimEndIndex(s, a, |s|);
    var m := s[a..b];
    assert Trim(s) == m;
    assert IsTrimmed(m) by {
      if m != [] {
        assert m[0] == s[a] && m[|m| - 1] == s[b - 1];
      }
    }
    TrimmedUnchanged(m);
  }

  /** `s.indexOf(c)`: the index of the first occurrence of `c`, or -1. */
  function IndexOf(s: string, c: char): (r: int)
    ensures -1 <= r < |s|
    ensures r == -1 <==> c !in s
    ensures 0 <= r ==> s[r] == c
    ensures forall j :: 0 <= j < |s| && (r == -1 || j < r) ==> s[j] != c
  {
    if s == [] then -1
    else if s[0] == c then 0
    else
      var k := IndexOf(s[1..], c);
      if k == -1 then -1 else k + 1
  }

  /** `s.endsWith(suffix)`. */
  predicate EndsWith(s: string, suffix: string) {
    |suffix| <= |s| && s[|s| - |suffix|..] == suffix
  }

  /** `s.split('\n')`: the maximal newline-free pieces between newlines, in order.
      There is always at least one piece (the empty string gives `[""]`). */
  function Split(s: string): (r: seq<string>)
    ensures |r| >= 1
    ensures forall i :: 0 <= i < |r| ==> '\n' !in r[i]
  {
    if s == [] then [[]]
    else
      var rest := Split(s[1..]);
      if s[0] == '\n' then [[]] + rest else [[s[0]] + rest[0]] + rest[1..]
  }

  /** `lines.join('\n')`, the inverse of `Split`. */
  function Join(lines: seq<string>): string
    requires |lines| >= 1
  {
    if |lines| == 1 then lines[0] else lines[0] + "\n" + Join(lines[1..])
  }

  lemma {:induction false} JoinSplit(s: string)
    ensures Join(Split(s)) == s
  {
    if s != [] {
      var rest := Split(s[1..]);
      JoinSplit(s[1..]);
      if s[0] == '\n' {
        assert Split(s)[1..] == rest;
      } else {
        var r := Split(s);
        assert r[0] == [s[0]] + rest[0];
        if |rest| == 1 {
          assert r == [[s[0]] + rest[0]];
        } else {
          assert r[1..] == rest[1..];
          assert Join(rest) == rest[0] + "\n" + Join(rest[1..]);
        }
      }
    }
  }

  lemma {:induction false} SplitJoin(lines: seq<string>)
    requires |lines| >= 1
    requires forall i :: 0 <= i < |lines| ==> '\n' !in lines[i]
    ensures Split(Join(lines)) == lines
    decreases |lines|, |lines[0]|
  {
    var head := lines[0];
    if head == [] {
      if |lines| > 1 {
        assert Join(lines) == "\n" + Join(lines[1..]);
        assert Join(lines)[1..] == Join(lines[1..]);
        SplitJoin(lines[1..]);
        assert lines == [[]] + lines[1..];
      }
    } else {
      var shorter := [head[1..]] + lines[1..];
      assert shorter[1..] == lines[1..];
      assert '\n' !in head[1..] by { assert forall x :: x in head[1..] ==> x in head; }
      SplitJoin(shorter);
      assert Join(lines) == [head[0]] + Join(shorter) by {
        if |lines| > 1 {
          assert head == [head[0]] + head[1..];
        }
      }
      assert Join(lines)[1..] == Join(shorter);
      assert head[0] != '\n' by { assert head[0] in head; }
      assert [head[0]] + head[1..] == head;
      assert lines == [head] + lines[1..];
    }
  }

  /** Splitting at a newline splits the pieces: the pieces of `a + "\n" + b`
      are the pieces of `a` followed by the pieces of `b`. */
  lemma {:induction false} SplitAppend(a: string, b: string)
    ensures Split(a + "\n" + b) == Split(a) + Split(b)
  {
    if a == [] {
      assert a + "\n" + b == "\n" + b;
      assert ("\n" + b)[1..] == b;
    } else {
      assert (a + "\n" + b)[1..] == a[1..] + "\n" + b;
      SplitAppend(a[1..], b);
    }
  }
}
