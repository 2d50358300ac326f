/**
 * Boolean coercion of request values (`_to_bool`).
 *
 * A value is whatever a query parameter or a decoded JSON body field can
 * hold: nothing (`None` / JSON `null`), a boolean, an integer, a string, or
 * something else (a float, a list, a nested object).
 */
module Coerce {
  import opened Text

  datatype Value = Null | Bool(b: bool) | Int(i: int) | Str(s: string) | Other

  /** The string tokens read as true, after trimming and lower-casing. */
  const TrueTokens: set<string> := {"1", "true", "yes", "on"}

  /** The string tokens read as false, after trimming and lower-casing. */
  const FalseTokens: set<string> := {"0", "false", "no", "off"}

  /** The key a string is compared by: trimmed, then lower-cased; it has no surrounding whitespace and no upper-case letter. */
  function Normalize(s: string): (r: string)
    ensures IsStripped(r)
    ensures forall i :: 0 <= i < |r| ==> !('A' <= r[i] <= 'Z')
  {
    StripShape(s);
    LowerStripped(Strip(s));
    Lower(Strip(s))
  }

  /**
   * `_to_bool(val, default)`: booleans are taken as they are (checked before
   * integers), integers are true when non-zero, strings are matched against
   * the two token sets, and everything else yields `default`.
   */
  function ToBool(v: Value, default: bool): (r: bool)
    ensures v.Bool? ==> r == v.b
    ensures v.Int? ==> r == (v.i != 0)
    ensures v.Null? || v.Other? ==> r == default
  {
    match v
    case Null => default
    case Bool(b) => b
    case Int(i) => i != 0
    case Str(s) =>
      var t := Normalize(s);
      if t in TrueTokens then true
      else if t in FalseTokens then false
      else default
    case Other => default
  }

  /** The values `_to_bool` decides by themselves, without looking at the default. */
  predicate Recognised(v: Value) {
    v.Bool? || v.Int? || (v.Str? && Normalize(v.s) in TrueTokens + FalseTokens)
  }

  /** No token is both true and false, so the string case is unambiguous. */
  lemma TokensDisjoint()
    ensures TrueTokens * FalseTokens == {}
  {
    assert forall t :: t in TrueTokens ==> t !in FalseTokens;
  }

  /**
   * Coercion is total and fail-open: the default decides the result exactly
   * when the value is not recognised, and then the default comes back unchanged.
   */
  lemma ToBoolUsesDefaultIffUnrecognised(v: Value, d: bool)
    ensures !Recognised(v) ==> ToBool(v, d) == d
    ensures (ToBool(v, true) == ToBool(v, false)) <==> Recognised(v)
  {
  }

  /** A recognised string token: true for the four true tokens, false for the four false ones. */
  lemma ToBoolOfToken(s: string, d: bool)
    requires Normalize(s) in TrueTokens + FalseTokens
    ensures ToBool(Str(s), d) == (Normalize(s) in TrueTokens)
  {
    TokensDisjoint();
  }

  /** Whitespace around a string value does not change its coercion. */
  lemma ToBoolIgnoresPadding(w1: string, s: string, w2: string, d: bool)
    requires AllIn(w1, Whitespace) && AllIn(w2, Whitespace)
    ensures ToBool(Str(w1 + s + w2), d) == ToBool(Str(s), d)
  {
    StripPadded(w1, s, w2);
  }

  /** Strings that agree up to ASCII case coerce alike. */
  lemma ToBoolIgnoresCase(s: string, t: string, d: bool)
    requires Lower(s) == Lower(t)
    ensures ToBool(Str(s), d) == ToBool(Str(t), d)
  {
    StripLowerCommute(s);
    StripLowerCommute(t);
  }

  /** Lower-casing never creates or removes whitespace, so it commutes with trimming. */
  lemma StripLowerCommute(s: string)
    ensures Lower(Strip(s)) == Strip(Lower(s))
  {
    LStripLower(s);
    RStripLower(LStrip(s, Whitespace));
  }

  /** Lower-casing a trimmed string leaves it trimmed. */
  lemma LowerStripped(t: string)
    ensures IsStripped(t) ==> IsStripped(Lower(t))
  {
    if t != [] {
      LowerCharSpace(t[0]);
      LowerCharSpace(t[|t| - 1]);
    }
  }

  lemma LowerCharSpace(c: char)
    ensures LowerChar(c) in Whitespace <==> c in Whitespace
  {
    if 'A' <= c <= 'Z' {
      assert c !in Whitespace;
    }
  }

  lemma {:induction false} LStripLower(s: string)
    ensures Lower(LStrip(s, Whitespace)) == LStrip(Lower(s), Whitespace)
    decreases |s|
  {
    if |s| > 0 {
      LowerCharSpace(s[0]);
      if s[0] in Whitespace {
        assert Lower(s)[1..] == Lower(s[1..]);
        LStripLower(s[1..]);
      }
    }
  }

  lemma {:induction false} RStripLower(s: string)
    ensures Lower(RStrip(s, Whitespace)) == RStrip(Lower(s), Whitespace)
    decreases |s|
  {
    if |s| > 0 {
      LowerCharSpace(s[|s| - 1]);
      if s[|s| - 1] in Whitespace {
        assert Lower(s)[..|s| - 1] == Lower(s[..|s| - 1]);
        RStripLower(s[..|s| - 1]);
      }
    }
  }

  /** A trimmed string without upper-case ASCII letters is its own comparison key. */
  lemma NormalizeFixed(s: string)
    requires IsStripped(s)
    requires forall i :: 0 <= i < |s| ==> !('A' <= s[i] <= 'Z')
    ensures Normalize(s) == s
  {
    StripOfStripped(s);
    LowerOfLower(s);
  }

  /** An unrecognised string keeps the prior value: "banana" with default true stays true. */
  lemma ToBoolBanana()
    ensures ToBool(Str("banana"), true)
    ensures !ToBool(Str("banana"), false)
  {
    NormalizeFixed("banana");
  }
}
