/** `convertToSnakeCase`: whitespace runs become `_`, everything outside
    `[a-zA-Z0-9_]` is removed, and the rest is lower-cased. */
module SnakeCase {
  import opened Text
  import opened CaseConvert
  import opened KebabCase

  function ConvertToSnakeCase(s: string): string {
    ConvertCase(s, '_')
  }

  /** Every output character is in `[a-z0-9_]`; in particular there is no whitespace. */
  lemma SnakeAlphabet(s: string)
    ensures var r := ConvertToSnakeCase(s);
      forall i :: 0 <= i < |r| ==> IsLower(r[i]) || IsDigit(r[i]) || r[i] == '_'
  {
    ConvertCaseAlphabet(s, '_');
  }

  lemma SnakeLength(s: string)
    ensures |ConvertToSnakeCase(s)| <= |s|
  {
    ConvertCaseLength(s, '_');
  }

  lemma SnakeIdempotent(s: string)
    ensures ConvertToSnakeCase(ConvertToSnakeCase(s)) == ConvertToSnakeCase(s)
  {
    ConvertCaseIdempotent(s, '_');
  }

  /** A maximal whitespace run becomes one `_`. */
  lemma SnakeWhitespaceRun(a: string, w: string, b: string)
    requires a == [] || !IsWhitespace(a[|a| - 1])
    requires w != [] && forall i :: 0 <= i < |w| ==> IsWhitespace(w[i])
    requires b == [] || !IsWhitespace(b[0])
    ensures ConvertToSnakeCase(a + w + b) == ConvertToSnakeCase(a) + "_" + ConvertToSnakeCase(b)
  {
    ConvertCaseRun(a, w, b, '_');
  }

  /** For input with neither `-` nor `_`, snake case is kebab case with `_` for `-`. */
  lemma SnakeIsKebabRenamed(s: string)
    requires '-' !in s && '_' !in s
    ensures ConvertToSnakeCase(s) == ReplaceEach(ConvertToKebabCase(s), Is('-'), '_')
  {
    ConvertCaseRename(s, '-', '_');
  }
}
