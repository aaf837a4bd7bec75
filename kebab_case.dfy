/** `convertToKebabCase`: whitespace runs become `-`, everything outside
    `[a-zA-Z0-9-]` is removed, and the rest is lower-cased. */
module KebabCase {
  import opened Text
  import opened CaseConvert

  function ConvertToKebabCase(s: string): string {
    ConvertCase(s, '-')
  }

  /** Every output character is in `[a-z0-9-]`. */
  lemma KebabAlphabet(s: string)
    ensures var r := ConvertToKebabCase(s);
      forall i :: 0 <= i < |r| ==> IsLower(r[i]) || IsDigit(r[i]) || r[i] == '-'
  {
    ConvertCaseAlphabet(s, '-');
  }

  /** The output is never longer than the input. */
  lemma KebabLength(s: string)
    ensures |ConvertToKebabCase(s)| <= |s|
  {
    ConvertCaseLength(s, '-');
  }

  lemma KebabIdempotent(s: string)
    ensures ConvertToKebabCase(ConvertToKebabCase(s)) == ConvertToKebabCase(s)
  {
    ConvertCaseIdempotent(s, '-');
  }

  /** A maximal whitespace run becomes one `-` and the two sides convert on their own. */
  lemma KebabWhitespaceRun(a: string, w: string, b: string)
    requires a == [] || !IsWhitespace(a[|a| - 1])
    requires w != [] && forall i :: 0 <= i < |w| ==> IsWhitespace(w[i])
    requires b == [] || !IsWhitespace(b[0])
    ensures ConvertToKebabCase(a + w + b) == ConvertToKebabCase(a) + "-" + ConvertToKebabCase(b)
  {
    ConvertCaseRun(a, w, b, '-');
  }

  /** Dropping the hyphens from the output leaves the input's ASCII letters and digits,
      lower-cased, in order. */
  lemma KebabLettersAndDigits(s: string)
    ensures KeepOnly(ConvertToKebabCase(s), Other('-')) == Lower(KeepOnly(s, IsAlnum))
  {
    ConvertCaseWithoutSeparators(s, '-');
  }

  /** A string of lower-case letters, digits and hyphens converts to itself. */
  lemma KebabFixedPoint(s: string)
    requires forall i :: 0 <= i < |s| ==> IsLower(s[i]) || IsDigit(s[i]) || s[i] == '-'
    ensures ConvertToKebabCase(s) == s
  {
    ReplaceRunsNoMatch(s, IsWhitespace, "-");
    KeepOnlyAll(s, Keeper('-'));
    LowerOfLowerCase(s);
  }

  /** Existing hyphens are not merged with the ones that replace whitespace:
      `x - y` becomes `x---y`. */
  lemma KebabKeepsHyphensAround(x: string, y: string)
    requires x != [] && y != []
    requires forall i :: 0 <= i < |x| ==> IsLower(x[i]) || IsDigit(x[i])
    requires forall i :: 0 <= i < |y| ==> IsLower(y[i]) || IsDigit(y[i])
    ensures ConvertToKebabCase(x + " - " + y) == x + "---" + y
  {
    var t := "- " + y;
    assert x + " - " + y == x + " " + t;
    KebabWhitespaceRun(x, " ", t);
    KebabFixedPoint(x);
    KebabHyphenSpace(y);
    assert x + "-" + ("--" + y) == x + "---" + y;
  }

  /** `- y` becomes `--y`. */
  lemma KebabHyphenSpace(y: string)
    requires y != []
    requires forall i :: 0 <= i < |y| ==> IsLower(y[i]) || IsDigit(y[i])
    ensures ConvertToKebabCase("- " + y) == "--" + y
  {
    assert "- " + y == "-" + " " + y;
    KebabWhitespaceRun("-", " ", y);
    KebabFixedPoint("-");
    KebabFixedPoint(y);
  }

  /** `"a - b"` becomes `"a---b"`. */
  lemma KebabKeepsHyphens()
    ensures ConvertToKebabCase("a - b") == "a---b"
  {
    KebabKeepsHyphensAround("a", "b");
    assert "a" + " - " + "b" == "a - b";
    assert "a" + "---" + "b" == "a---b";
  }
}
