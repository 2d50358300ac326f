/**
 * The handful of Python string operations the server relies on:
 * `str.strip()`, `str.strip(chars)`, `str.rstrip(chars)`, ASCII `str.lower()`,
 * `str.endswith` and the substring test `needle in haystack`.
 *
 * The strip functions carry no postconditions on purpose: their shape is
 * stated by the lemmas below and used only where a proof asks for it, which
 * keeps every other proof about strings small.
 */
module Text {

  /** The ASCII characters that Python's `str.strip()` treats as whitespace. */
  const Whitespace: set<char> :=
    {' ', '\t', '\n', '\U{000B}', '\U{000C}', '\r', '\U{001C}', '\U{001D}', '\U{001E}', '\U{001F}'}

  /** Every character of `s` belongs to `cs`. */
  predicate AllIn(s: string, cs: set<char>) {
    forall i :: 0 <= i < |s| ==> s[i] in cs
  }

  /** `s.lstrip(chars)`: drop the longest prefix made of characters in `cs`. */
  function LStrip(s: string, cs: set<char>): string {
    if |s| > 0 && s[0] in cs then LStrip(s[1..], cs) else s
  }

  /** `s.rstrip(chars)`: drop the longest suffix made of characters in `cs`. */
  function RStrip(s: string, cs: set<char>): string {
    if |s| > 0 && s[|s| - 1] in cs then RStrip(s[..|s| - 1], cs) else s
  }

  /** `s.strip(chars)`. */
  function StripChars(s: string, cs: set<char>): string {
    RStrip(LStrip(s, cs), cs)
  }

  /** `s.strip()` restricted to ASCII whitespace. */
  function Strip(s: string): string {
    StripChars(s, Whitespace)
  }

  /** A string that `str.strip()` leaves alone. */
  predicate IsStripped(s: string) {
    s == [] || (s[0] !in Whitespace && s[|s| - 1] !in Whitespace)
  }

  /** Lower-casing of one ASCII letter; every other character is kept. */
  function LowerChar(c: char): (r: char)
    ensures 'A' <= c <= 'Z' ==> 'a' <= r <= 'z'
    ensures !('A' <= c <= 'Z') ==> r == c
  {
    if 'A' <= c <= 'Z' then (c as int - 'A' as int + 'a' as int) as char else c
  }

  /** `s.lower()` restricted to ASCII. */
  function Lower(s: string): (r: string)
    ensures |r| == |s|
    ensures forall i :: 0 <= i < |s| ==> r[i] == LowerChar(s[i])
  {
    seq(|s|, i requires 0 <= i < |s| => LowerChar(s[i]))
  }

  /** `s.endswith(c)` for a one-character suffix. */
  predicate EndsWith(s: string, c: char) {
    |s| > 0 && s[|s| - 1] == c
  }

  /** `needle` occurs in `haystack` starting at offset `i`. */
  predicate OccursAt(haystack: string, needle: string, i: int) {
    0 <= i && i + |needle| <= |haystack| && haystack[i..i + |needle|] == needle
  }

  /** `needle in haystack` for strings. */
  predicate Contains(haystack: string, needle: string) {
    exists i :: 0 <= i <= |haystack| && OccursAt(haystack, needle, i)
  }

  // ---- shape of the strip functions ----

  /** `LStrip` returns a suffix of its argument that does not start with a character of `cs`. */
  lemma {:induction false} LStripShape(s: string, cs: set<char>)
    ensures var r := LStrip(s, cs);
            |r| <= |s| && r == s[|s| - |r|..] && (r == [] || r[0] !in cs)
    decreases |s|
  {
    if |s| > 0 && s[0] in cs {
      LStripShape(s[1..], cs);
    }
  }

  /** `RStrip` returns a prefix of its argument that does not end with a character of `cs`. */
  lemma {:induction false} RStripShape(s: string, cs: set<char>)
    ensures var r := RStrip(s, cs);
            |r| <= |s| && r == s[..|r|] && (r == [] || r[|r| - 1] !in cs)
    decreases |s|
  {
    if |s| > 0 && s[|s| - 1] in cs {
      RStripShape(s[..|s| - 1], cs);
    }
  }

  /** What `RStrip` removes consists of characters of `cs` only. */
  lemma {:induction false} RStripRemoves(s: string, cs: set<char>)
    ensures |RStrip(s, cs)| <= |s| && AllIn(s[|RStrip(s, cs)|..], cs)
    decreases |s|
  {
    RStripShape(s, cs);
    if |s| > 0 && s[|s| - 1] in cs {
      var s' := s[..|s| - 1];
      RStripRemoves(s', cs);
      var k := |RStrip(s, cs)|;
      forall i | 0 <= i < |s[k..]| ensures s[k..][i] in cs {
        if k + i < |s| - 1 {
          assert s[k..][i] == s'[k..][i];
        }
      }
    }
  }

  /** The result of `Strip` is stripped. */
  lemma StripShape(s: string)
    ensures IsStripped(Strip(s))
  {
    var l := LStrip(s, Whitespace);
    LStripShape(s, Whitespace);
    RStripShape(l, Whitespace);
  }

  lemma LStripStop(s: string, cs: set<char>)
    requires s == [] || s[0] !in cs
    ensures LStrip(s, cs) == s
  {
  }

  lemma RStripStop(s: string, cs: set<char>)
    requires s == [] || s[|s| - 1] !in cs
    ensures RStrip(s, cs) == s
  {
  }

  /** Removing characters of `cs` from the right ignores any tail made of them. */
  lemma {:induction false} RStripPadding(x: string, w: string, cs: set<char>)
    requires AllIn(w, cs)
    ensures RStrip(x + w, cs) == RStrip(x, cs)
    decreases |w|
  {
    if w == [] {
      assert x + w == x;
    } else {
      var xw := x + w;
      var w' := w[..|w| - 1];
      assert xw[|xw| - 1] == w[|w| - 1];
      assert xw[..|xw| - 1] == x + w';
      assert AllIn(w', cs) by {
        forall i | 0 <= i < |w'| ensures w'[i] in cs { assert w'[i] == w[i]; }
      }
      RStripPadding(x, w', cs);
    }
  }

  // ---- substrings ----

  /** A string never occurs in a shorter one. */
  lemma TooLongNotContained(haystack: string, needle: string)
    requires |needle| > |haystack|
    ensures !Contains(haystack, needle)
  {
  }

  /** An occurrence inside a prefix of `haystack` is an occurrence in `haystack`. */
  lemma OccursInExtension(q: string, haystack: string, needle: string, i: int)
    requires |q| <= |haystack| && haystack[..|q|] == q
    requires OccursAt(q, needle, i)
    ensures OccursAt(haystack, needle, i)
  {
    assert haystack[i..i + |needle|] == q[i..i + |needle|];
  }

  // ---- lower-casing ----

  /** Lower-casing leaves a string without upper-case ASCII letters alone. */
  lemma LowerOfLower(s: string)
    requires forall i :: 0 <= i < |s| ==> !('A' <= s[i] <= 'Z')
    ensures Lower(s) == s
  {
  }

  // ---- whitespace ----

  /** Stripping is idempotent: stripping an already stripped string is the identity. */
  lemma StripOfStripped(s: string)
    requires IsStripped(s)
    ensures Strip(s) == s
  {
    LStripStop(s, Whitespace);
    RStripStop(s, Whitespace);
  }

  /** Surrounding whitespace does not change the stripped form. */
  lemma StripPadded(w1: string, s: string, w2: string)
    requires AllIn(w1, Whitespace) && AllIn(w2, Whitespace)
    ensures Strip(w1 + s + w2) == Strip(s)
  {
    LStripPadded(w1, s + w2);
    assert w1 + s + w2 == w1 + (s + w2);
    var l := LStrip(s, Whitespace);
    LStripKeepsTail(s, w2);
    if l == [] {
      AllInLStrip(w2);
    } else {
      LStripShape(s, Whitespace);
      RStripPadding(l, w2, Whitespace);
    }
  }

  lemma {:induction false} LStripPadded(w: string, t: string)
    requires AllIn(w, Whitespace)
    ensures LStrip(w + t, Whitespace) == LStrip(t, Whitespace)
    decreases |w|
  {
    if w != [] {
      assert (w + t)[0] == w[0] && w[0] in Whitespace;
      assert (w + t)[1..] == w[1..] + t;
      assert AllIn(w[1..], Whitespace) by {
        forall i | 0 <= i < |w[1..]| ensures w[1..][i] in Whitespace { assert w[1..][i] == w[i + 1]; }
      }
      LStripPadded(w[1..], t);
    } else {
      assert w + t == t;
    }
  }

  /** Stripping the left of `s + t` either stops inside `s` or continues into `t`. */
  lemma {:induction false} LStripKeepsTail(s: string, t: string)
    ensures LStrip(s + t, Whitespace) ==
            (if LStrip(s, Whitespace) == [] then LStrip(t, Whitespace) else LStrip(s, Whitespace) + t)
    decreases |s|
  {
    if s == [] {
      assert s + t == t;
    } else if s[0] in Whitespace {
      assert (s + t)[1..] == s[1..] + t;
      LStripKeepsTail(s[1..], t);
    } else {
      assert (s + t)[0] == s[0];
    }
  }

  lemma {:induction false} AllInLStrip(w: string)
    requires AllIn(w, Whitespace)
    ensures LStrip(w, Whitespace) == []
    decreases |w|
  {
    if w != [] {
      assert w[0] in Whitespace;
      assert AllIn(w[1..], Whitespace) by {
        forall i | 0 <= i < |w[1..]| ensures w[1..][i] in Whitespace { assert w[1..][i] == w[i + 1]; }
      }
      AllInLStrip(w[1..]);
    }
  }
}
