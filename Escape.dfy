/**
 * Escaping of values written as `KEY="VALUE"` lines (`_shell_escape`):
 * every backslash is doubled first, then every double quote is preceded by a
 * backslash. The partner is `ReadQuoted`, a reader for the body of a
 * double-quoted value that understands exactly the escapes `\\` and `\"`.
 */
module Escape {
  import opened Wrappers

  /** `s.replace(c, rep)` for a one-character pattern. */
  function ReplaceChar(s: string, c: char, rep: string): (r: string)
    ensures |r| == |s| + Count(s, c) * (|rep| - 1)
  {
    if s == [] then [] else (if s[0] == c then rep else [s[0]]) + ReplaceChar(s[1..], c, rep)
  }

  /** Number of occurrences of `c` in `s`. */
  function Count(s: string, c: char): nat {
    if s == [] then 0 else (if s[0] == c then 1 else 0) + Count(s[1..], c)
  }

  /**
   * `_shell_escape(val)`: two replacements, backslashes first. Each backslash
   * and each double quote gains exactly one character.
   */
  function ShellEscape(v: string): (r: string)
    ensures |r| == |v| + Count(v, '\\') + Count(v, '"')
  {
    CountReplaceOther(v, '\\', "\\\\", '"');
    ReplaceChar(ReplaceChar(v, '\\', "\\\\"), '"', "\\\"")
  }

  /** The escape of a single character. */
  function EscapeChar(c: char): string {
    if c == '\\' then "\\\\" else if c == '"' then "\\\"" else [c]
  }

  /** Character-by-character escaping, the reference the two-pass version is proved against. */
  function Escaped(s: string): string {
    if s == [] then [] else EscapeChar(s[0]) + Escaped(s[1..])
  }

  /**
   * Reads the body of a double-quoted value up to its closing quote: `\\`
   * gives a backslash, `\"` a quote, any other character stands for itself.
   * Returns the value and what follows the closing quote, or `None` when the
   * quote is never closed.
   */
  function ReadQuoted(t: string): Option<(string, string)>
    decreases |t|
  {
    if t == [] then None
    else if t[0] == '"' then Some(([], t[1..]))
    else if t[0] == '\\' && |t| >= 2 && (t[1] == '\\' || t[1] == '"') then
      match ReadQuoted(t[2..])
      case None => None
      case Some(p) => Some(([t[1]] + p.0, p.1))
    else
      match ReadQuoted(t[1..])
      case None => None
      case Some(p) => Some(([t[0]] + p.0, p.1))
  }

  lemma {:induction false} ReplaceCharAppend(a: string, b: string, c: char, rep: string)
    ensures ReplaceChar(a + b, c, rep) == ReplaceChar(a, c, rep) + ReplaceChar(b, c, rep)
    decreases |a|
  {
    if a == [] {
      assert a + b == b;
    } else {
      assert (a + b)[0] == a[0] && (a + b)[1..] == a[1..] + b;
      ReplaceCharAppend(a[1..], b, c, rep);
    }
  }

  /** The two-pass replacement escapes each character on its own. */
  lemma {:induction false} ShellEscapeIsPerChar(s: string)
    ensures ShellEscape(s) == Escaped(s)
    decreases |s|
  {
    if s != [] {
      var head := if s[0] == '\\' then "\\\\" else [s[0]];
      assert ReplaceChar(s, '\\', "\\\\") == head + ReplaceChar(s[1..], '\\', "\\\\");
      ReplaceCharAppend(head, ReplaceChar(s[1..], '\\', "\\\\"), '"', "\\\"");
      assert ReplaceChar(head, '"', "\\\"") == EscapeChar(s[0]) by {
        if s[0] == '\\' {
          assert ReplaceChar("\\", '"', "\\\"") == "\\";
        } else {
          assert head == [s[0]] && [s[0]][1..] == [];
        }
      }
      ShellEscapeIsPerChar(s[1..]);
    }
  }

  /**
   * Round trip: an escaped value embedded between double quotes reads back as
   * the original value, and the reader stops exactly at the closing quote.
   */
  lemma {:induction false} ReadQuotedEscaped(s: string, rest: string)
    ensures ReadQuoted(ShellEscape(s) + "\"" + rest) == Some((s, rest))
  {
    ShellEscapeIsPerChar(s);
    ReadQuotedPerChar(s, rest);
  }

  lemma {:induction false} ReadQuotedPerChar(s: string, rest: string)
    ensures ReadQuoted(Escaped(s) + "\"" + rest) == Some((s, rest))
    decreases |s|
  {
    var t := Escaped(s) + "\"" + rest;
    if s == [] {
      assert t == "\"" + rest && t[1..] == rest;
    } else {
      var tail := Escaped(s[1..]) + "\"" + rest;
      assert t == EscapeChar(s[0]) + tail;
      ReadQuotedPerChar(s[1..], rest);
      if s[0] == '\\' || s[0] == '"' {
        assert t[0] == '\\' && t[1] == s[0] && t[2..] == tail;
      } else {
        assert t[0] == s[0] && t[1..] == tail;
      }
      assert [s[0]] + s[1..] == s;
    }
  }

  /** Replacing `c` by a string without `x` keeps the number of `x`s. */
  lemma {:induction false} CountReplaceOther(s: string, c: char, rep: string, x: char)
    requires x != c && Count(rep, x) == 0
    ensures Count(ReplaceChar(s, c, rep), x) == Count(s, x)
    decreases |s|
  {
    if s != [] {
      var head := if s[0] == c then rep else [s[0]];
      CountAppend(head, ReplaceChar(s[1..], c, rep), x);
      CountReplaceOther(s[1..], c, rep, x);
      if s[0] != c {
        assert Count(head, x) == (if s[0] == x then 1 else 0) by { assert head[1..] == []; }
      }
    }
  }

  lemma {:induction false} CountAppend(a: string, b: string, x: char)
    ensures Count(a + b, x) == Count(a, x) + Count(b, x)
    decreases |a|
  {
    if a == [] {
      assert a + b == b;
    } else {
      assert (a + b)[0] == a[0] && (a + b)[1..] == a[1..] + b;
      CountAppend(a[1..], b, x);
    }
  }

  /** A value without backslashes and double quotes is written unchanged. */
  lemma {:induction false} ShellEscapePlain(s: string)
    requires '\\' !in s && '"' !in s
    ensures ShellEscape(s) == s
  {
    ShellEscapeIsPerChar(s);
    EscapedPlain(s);
  }

  lemma {:induction false} EscapedPlain(s: string)
    requires '\\' !in s && '"' !in s
    ensures Escaped(s) == s
    decreases |s|
  {
    if s != [] {
      var t := s[1..];
      assert s == [s[0]] + t;
      assert s[0] in s && '\\' !in t && '"' !in t;
      EscapedPlain(t);
      assert EscapeChar(s[0]) == [s[0]];
    }
  }

  /**
   * Why backslashes must be doubled first: escaping a lone double quote the
   * other way round yields text that reads back as a backslash and leaves the
   * quote dangling after the value.
   */
  lemma EscapeOrderMatters()
    ensures ShellEscape("\"") == "\\\""
    ensures ReadQuoted(ReplaceChar(ReplaceChar("\"", '"', "\\\""), '\\', "\\\\") + "\"") == Some(("\\", "\""))
  {
    ReadQuotedEscaped("\"", "");
    assert ReplaceChar("\"", '"', "\\\"") == "\\\"";
    var once := "\\\"";
    assert ReplaceChar(once, '\\', "\\\\") == "\\\\" + ReplaceChar("\"", '\\', "\\\\") by {
      assert once[0] == '\\' && once[1..] == "\"";
    }
    assert ReplaceChar("\"", '\\', "\\\\") == "\"";
    var wrong := "\\\\\"" + "\"";
    assert ReplaceChar(once, '\\', "\\\\") + "\"" == wrong;
    assert wrong[0] == '\\' && wrong[1] == '\\' && wrong[2..] == "\"\"";
    assert ReadQuoted(wrong[2..]) == Some(([], "\""));
    assert [wrong[1]] + [] == "\\";
    assert ReadQuoted(wrong) == Some(("\\", "\""));
  }
}
