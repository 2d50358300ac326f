/**
 * The image-prefix extension (`_append_prefix_suffix`): `nas` with suffix
 * `BACKUP-OS` becomes `nas_BACKUP-OS_`, without doubled underscores and
 * without appending the suffix a second time when it is already there.
 */
module ImagePrefix {
  import opened Text

  const Underscore: set<char> := {'_'}

  /** The suffix token the transform looks for and appends: trimmed, then stripped of underscores. */
  function Core(suffix: string): string {
    StripChars(Strip(suffix), Underscore)
  }

  /**
   * `_append_prefix_suffix(prefix, suffix)`: a blank suffix leaves the trimmed
   * prefix; any other suffix gives a result ending in an underscore.
   */
  function AppendPrefixSuffix(prefix: string, suffix: string): (r: string)
    ensures Strip(suffix) == [] ==> r == Strip(prefix)
    ensures Strip(suffix) != [] ==> EndsWith(r, '_')
  {
    var p := Strip(prefix);
    var s := Strip(suffix);
    if s == [] then p else Extend(p, StripChars(s, Underscore))
  }

  /** The non-blank case, for the trimmed prefix `p` and the suffix token `sNorm`; it always ends in an underscore. */
  function Extend(p: string, sNorm: string): (r: string)
    ensures EndsWith(r, '_')
  {
    var pNorm := RStrip(p, Underscore);
    var token := "_" + sNorm + "_";
    if Contains("_" + pNorm + "_", token) then
      (if EndsWith(p, '_') then p else p + "_")
    else if pNorm == [] then sNorm + "_"
    else pNorm + "_" + sNorm + "_"
  }

  /** With a non-blank suffix the transform is `Extend` of the trimmed prefix and the token. */
  lemma AppendNonBlank(prefix: string, suffix: string)
    requires Strip(suffix) != []
    ensures AppendPrefixSuffix(prefix, suffix) == Extend(Strip(prefix), Core(suffix))
  {
  }

  /**
   * With a non-blank suffix the result ends in an underscore, starts with the
   * prefix stripped of its trailing underscores, and carries the suffix token
   * delimited by underscores.
   */
  lemma NonBlankSuffixShape(prefix: string, suffix: string)
    requires Strip(suffix) != []
    ensures var r := AppendPrefixSuffix(prefix, suffix);
            var pNorm := RStrip(Strip(prefix), Underscore);
            EndsWith(r, '_') &&
            |pNorm| <= |r| && r[..|pNorm|] == pNorm &&
            Contains("_" + r, "_" + Core(suffix) + "_")
  {
    var p := Strip(prefix);
    var c := Core(suffix);
    AppendNonBlank(prefix, suffix);
    RStripShape(p, Underscore);
    if Contains("_" + RStrip(p, Underscore) + "_", "_" + c + "_") {
      ShapeWhenPresent(p, c);
    } else {
      ShapeWhenAbsent(p, c);
    }
  }

  lemma ShapeWhenPresent(p: string, c: string)
    requires Contains("_" + RStrip(p, Underscore) + "_", "_" + c + "_")
    ensures var r := Extend(p, c);
            EndsWith(r, '_') && Contains("_" + r, "_" + c + "_")
  {
    var pNorm := RStrip(p, Underscore);
    var token := "_" + c + "_";
    var q := "_" + pNorm + "_";
    var r := Extend(p, c);
    var i :| 0 <= i <= |q| && OccursAt(q, token, i);
    if EndsWith(p, '_') {
      assert r == p;
      UnderscoreAfterNorm(p);
      assert ("_" + r)[..|q|] == q;
      OccursInExtension(q, "_" + r, token, i);
    } else {
      RStripStop(p, Underscore);
      assert "_" + r == q;
      assert OccursAt("_" + r, token, i);
    }
  }

  /** A prefix ending in `_` begins with its normalised form followed by one underscore. */
  lemma UnderscoreAfterNorm(p: string)
    requires EndsWith(p, '_')
    ensures var pNorm := RStrip(p, Underscore);
            |pNorm| < |p| && p[..|pNorm| + 1] == pNorm + "_"
  {
    var pNorm := RStrip(p, Underscore);
    var k := |pNorm|;
    RStripShape(p, Underscore);
    RStripRemoves(p, Underscore);
    assert k < |p|;
    assert p[k..][0] == p[k];
    assert p[..k + 1] == p[..k] + [p[k]];
  }

  lemma ShapeWhenAbsent(p: string, c: string)
    requires !Contains("_" + RStrip(p, Underscore) + "_", "_" + c + "_")
    ensures var r := Extend(p, c);
            var pNorm := RStrip(p, Underscore);
            EndsWith(r, '_') && |pNorm| <= |r| && r[..|pNorm|] == pNorm &&
            Contains("_" + r, "_" + c + "_")
  {
    var pNorm := RStrip(p, Underscore);
    var token := "_" + c + "_";
    var r := Extend(p, c);
    if pNorm == [] {
      assert "_" + r == token;
      assert OccursAt("_" + r, token, 0);
    } else {
      assert "_" + r == "_" + pNorm + token;
      assert OccursAt("_" + r, token, |pNorm| + 1);
    }
  }

  /**
   * When the suffix token is already present the prefix is returned as it is,
   * apart from one underscore added at the end if it lacked one.
   */
  lemma PresentSuffixNotRepeated(prefix: string, suffix: string)
    requires Strip(suffix) != []
    requires Contains("_" + RStrip(Strip(prefix), Underscore) + "_", "_" + Core(suffix) + "_")
    ensures var p := Strip(prefix);
            AppendPrefixSuffix(prefix, suffix) == (if EndsWith(p, '_') then p else p + "_")
  {
  }

  /**
   * When the suffix token is absent it is appended after exactly one
   * underscore: trailing underscores of the prefix collapse into that one.
   */
  lemma AbsentSuffixAppended(prefix: string, suffix: string)
    requires Strip(suffix) != []
    requires !Contains("_" + RStrip(Strip(prefix), Underscore) + "_", "_" + Core(suffix) + "_")
    ensures var pNorm := RStrip(Strip(prefix), Underscore);
            AppendPrefixSuffix(prefix, suffix) ==
              (if pNorm == [] then Core(suffix) + "_" else pNorm + "_" + Core(suffix) + "_")
  {
  }

  lemma ExtendFresh(p: string, c: string)
    requires !Contains("_" + RStrip(p, Underscore) + "_", "_" + c + "_")
    ensures var pNorm := RStrip(p, Underscore);
            Extend(p, c) == if pNorm == [] then c + "_" else pNorm + "_" + c + "_"
  {
  }

  /**
   * Idempotence: applying the transform to its own result with the same
   * suffix changes nothing, provided the suffix token does not begin with
   * whitespace (otherwise trimming the first result eats into the token).
   */
  lemma Idempotent(prefix: string, suffix: string)
    requires Core(suffix) == [] || Core(suffix)[0] !in Whitespace
    ensures AppendPrefixSuffix(AppendPrefixSuffix(prefix, suffix), suffix) == AppendPrefixSuffix(prefix, suffix)
  {
    var p := Strip(prefix);
    StripShape(prefix);
    if Strip(suffix) == [] {
      StripOfStripped(p);
    } else {
      var c := Core(suffix);
      RStripShape(LStrip(Strip(suffix), Underscore), Underscore);
      assert c == [] || c[|c| - 1] != '_';
      var r := Extend(p, c);
      AppendNonBlank(prefix, suffix);
      if Contains("_" + RStrip(p, Underscore) + "_", "_" + c + "_") {
        RepeatWhenPresent(p, c);
      } else if RStrip(p, Underscore) == [] {
        RepeatWhenAbsentEmpty(p, c);
      } else {
        RepeatWhenAbsent(p, c);
      }
      StripOfStripped(r);
      AppendNonBlank(r, suffix);
    }
  }

  /** Present token: the result is stripped and normalises like `p`, so it is returned again. */
  lemma RepeatWhenPresent(p: string, c: string)
    requires IsStripped(p)
    requires Contains("_" + RStrip(p, Underscore) + "_", "_" + c + "_")
    ensures IsStripped(Extend(p, c)) && Extend(Extend(p, c), c) == Extend(p, c)
  {
    var r := if EndsWith(p, '_') then p else p + "_";
    assert Extend(p, c) == r;
    if !EndsWith(p, '_') {
      RStripPadding(p, "_", Underscore);
      assert r[|r| - 1] == '_';
      assert p == [] || r[0] == p[0];
    }
    assert RStrip(r, Underscore) == RStrip(p, Underscore);
    assert EndsWith(r, '_') && IsStripped(r);
  }

  /** Absent token, empty prefix: the result is the token with an underscore, which contains it. */
  lemma RepeatWhenAbsentEmpty(p: string, c: string)
    requires c == [] || (c[0] !in Whitespace && c[|c| - 1] != '_')
    requires !Contains("_" + RStrip(p, Underscore) + "_", "_" + c + "_")
    requires RStrip(p, Underscore) == []
    ensures IsStripped(Extend(p, c)) && Extend(Extend(p, c), c) == Extend(p, c)
  {
    var r := Extend(p, c);
    assert r == c + "_";
    RStripPadding(c, "_", Underscore);
    RStripStop(c, Underscore);
    assert "_" + RStrip(r, Underscore) + "_" == "_" + c + "_";
    assert OccursAt("_" + c + "_", "_" + c + "_", 0);
  }

  /** Absent token, non-empty prefix: the result is `pNorm_c_`, whose normal form contains `_c_`. */
  lemma RepeatWhenAbsent(p: string, c: string)
    requires IsStripped(p)
    requires c == [] || c[|c| - 1] != '_'
    requires !Contains("_" + RStrip(p, Underscore) + "_", "_" + c + "_")
    requires RStrip(p, Underscore) != []
    ensures IsStripped(Extend(p, c)) && Extend(Extend(p, c), c) == Extend(p, c)
  {
    var pNorm := RStrip(p, Underscore);
    RStripShape(p, Underscore);
    ExtendFresh(p, c);
    var r := pNorm + "_" + c + "_";
    assert Extend(p, c) == r;
    assert p[..|pNorm|] == pNorm && r[0] == p[0];
    assert IsStripped(r);
    if c == [] {
      assert r == pNorm + "__";
      RStripPadding(pNorm, "__", Underscore);
      RStripStop(pNorm, Underscore);
    } else {
      AbsentResultNorm(pNorm, c);
    }
  }

  /** With a token `c`, the normal form of `pNorm_c_` is `pNorm_c`, which holds `_c_` once delimited. */
  lemma AbsentResultNorm(pNorm: string, c: string)
    requires c != [] && c[|c| - 1] != '_'
    ensures var body := pNorm + "_" + c;
            RStrip(pNorm + "_" + c + "_", Underscore) == body &&
            Contains("_" + body + "_", "_" + c + "_")
  {
    var body := pNorm + "_" + c;
    assert pNorm + "_" + c + "_" == body + "_";
    RStripPadding(body, "_", Underscore);
    assert body[|body| - 1] == c[|c| - 1];
    RStripStop(body, Underscore);
    var q := "_" + body + "_";
    assert q == "_" + pNorm + ("_" + c + "_");
    assert OccursAt(q, "_" + c + "_", |pNorm| + 1);
  }

  /**
   * The requirement of `Idempotent` cannot be dropped: with a suffix such as
   * `_ X` (an underscore, a whitespace character `w`, then a token `x`) the
   * first application to an empty prefix yields ` X_`; trimming that on the
   * second application loses the leading space, so the token no longer
   * matches and is appended again, giving `X_ X_`.
   */
  lemma IdempotenceNeedsTokenWithoutLeadingSpace(w: char, x: string)
    requires w in Whitespace
    requires x != [] && x[0] !in Whitespace
    requires x[|x| - 1] !in Whitespace && x[|x| - 1] != '_'
    ensures var suffix := "_" + [w] + x;
            AppendPrefixSuffix("", suffix) == [w] + x + "_" &&
            AppendPrefixSuffix([w] + x + "_", suffix) == x + "_" + [w] + x + "_"
  {
    LeadingSpaceToken(w, x);
    LeadingSpaceFirst(w, x);
    LeadingSpaceSecond(w, x);
  }

  /** The suffix `_ X` is already trimmed, and its token keeps the whitespace. */
  lemma LeadingSpaceToken(w: char, x: string)
    requires w in Whitespace
    requires x != [] && x[|x| - 1] !in Whitespace && x[|x| - 1] != '_'
    ensures Strip("_" + [w] + x) == "_" + [w] + x && Core("_" + [w] + x) == [w] + x
  {
    var suffix, c := "_" + [w] + x, [w] + x;
    StripOfStripped(suffix);
    assert suffix[1..] == c;
    assert LStrip(suffix, Underscore) == c;
    RStripStop(c, Underscore);
  }

  /** First application, to the empty prefix: nothing to match in `__`. */
  lemma LeadingSpaceFirst(w: char, x: string)
    requires Strip("_" + [w] + x) == "_" + [w] + x && Core("_" + [w] + x) == [w] + x
    ensures AppendPrefixSuffix("", "_" + [w] + x) == [w] + x + "_"
  {
    var suffix, c := "_" + [w] + x, [w] + x;
    AppendNonBlank("", suffix);
    TooLongNotContained("__", "_" + c + "_");
    assert RStrip("", Underscore) == [];
    ExtendFresh("", c);
  }

  /** Second application: trimming ` X_` drops the whitespace, so the token is not found. */
  lemma LeadingSpaceSecond(w: char, x: string)
    requires w in Whitespace
    requires x != [] && x[0] !in Whitespace
    requires x[|x| - 1] !in Whitespace && x[|x| - 1] != '_'
    requires Strip("_" + [w] + x) == "_" + [w] + x && Core("_" + [w] + x) == [w] + x
    ensures AppendPrefixSuffix([w] + x + "_", "_" + [w] + x) == x + "_" + [w] + x + "_"
  {
    var suffix, c := "_" + [w] + x, [w] + x;
    var once := c + "_";
    assert once[1..] == x + "_";
    assert LStrip(once, Whitespace) == x + "_";
    RStripStop(x + "_", Whitespace);
    assert Strip(once) == x + "_";
    RStripPadding(x, "_", Underscore);
    RStripStop(x, Underscore);
    AppendNonBlank(once, suffix);
    TooLongNotContained("_" + x + "_", "_" + c + "_");
    ExtendFresh(x + "_", c);
  }

  /** The example of the documentation: `nas` with `BACKUP-OS` becomes `nas_BACKUP-OS_`. */
  lemma DocumentedExample()
    ensures AppendPrefixSuffix("nas", "BACKUP-OS") == "nas_BACKUP-OS_"
  {
    var p, s := "nas", "BACKUP-OS";
    StripOfStripped(p);
    StripOfStripped(s);
    LStripStop(s, Underscore);
    RStripStop(s, Underscore);
    RStripStop(p, Underscore);
    assert Core(s) == s;
    TooLongNotContained("_" + p + "_", "_" + s + "_");
    AbsentSuffixAppended(p, s);
  }

  /** A prefix that already ends in the suffix token only gains the closing underscore. */
  lemma AlreadyPresentExample()
    ensures AppendPrefixSuffix("nas_BACKUP-OS", "BACKUP-OS") == "nas_BACKUP-OS_"
  {
    var p, s := "nas_BACKUP-OS", "BACKUP-OS";
    StripOfStripped(p);
    StripOfStripped(s);
    LStripStop(s, Underscore);
    RStripStop(s, Underscore);
    RStripStop(p, Underscore);
    assert Core(s) == s;
    assert OccursAt("_" + p + "_", "_" + s + "_", 4);
    PresentSuffixNotRepeated(p, s);
  }

  /** Trailing underscores of the prefix collapse into one: `nas__` gives `nas_BACKUP-OS_` too. */
  lemma TrailingUnderscoresExample()
    ensures AppendPrefixSuffix("nas__", "BACKUP-OS") == "nas_BACKUP-OS_"
  {
    var p, s := "nas__", "BACKUP-OS";
    StripOfStripped(p);
    StripOfStripped(s);
    LStripStop(s, Underscore);
    RStripStop(s, Underscore);
    assert p == "nas" + "__";
    RStripPadding("nas", "__", Underscore);
    RStripStop("nas", Underscore);
    assert Core(s) == s;
    TooLongNotContained("_nas_", "_" + s + "_");
    AbsentSuffixAppended(p, s);
  }

  /** An empty prefix yields the token and one underscore. */
  lemma EmptyPrefixExample()
    ensures AppendPrefixSuffix("", "BACKUP-OS") == "BACKUP-OS_"
  {
    var s := "BACKUP-OS";
    StripOfStripped(s);
    LStripStop(s, Underscore);
    RStripStop(s, Underscore);
    assert Core(s) == s;
    TooLongNotContained("__", "_" + s + "_");
    AbsentSuffixAppended("", s);
  }
}
