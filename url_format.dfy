/** `formatStringForUrl`: the slug written into `/travel/…` and `/hotel/…` links.
    Lower-case, every whitespace run becomes `%20`, every hyphen run one `-`, and
    one leading and one trailing hyphen are dropped. */
module UrlFormat {
  import opened Text

  predicate IsHyphen(c: char) { c == '-' }

  /** `s.replace(/^-|-$/g, "")`: drops a hyphen at the start and one at the end. */
  function TrimHyphens(t: string): (r: string)
    ensures |r| <= |t| && forall c :: c in r ==> c in t
  {
    var u := if t != [] && t[0] == '-' then t[1..] else t;
    if u != [] && u[|u| - 1] == '-' then u[..|u| - 1] else u
  }

  /** The whitespace step of the chain: lower-case, then `/\s+/g` → `%20`. */
  function SpacesEncoded(s: string): string {
    ReplaceRuns(Lower(s), IsWhitespace, "%20")
  }

  function FormatStringForUrl(s: string): string {
    TrimHyphens(ReplaceRuns(SpacesEncoded(s), IsHyphen, "-"))
  }

  /** Every character of the slug is one of `%20`, a hyphen, or a character of the
      lower-cased input that is not whitespace. */
  lemma FormatAlphabet(s: string)
    ensures forall c :: c in FormatStringForUrl(s) ==>
      c == '%' || c == '2' || c == '0' || c == '-' || (c in Lower(s) && !IsWhitespace(c))
  {
    var a := SpacesEncoded(s);
    var b := ReplaceRuns(a, IsHyphen, "-");
    ReplaceRunsAlphabet(Lower(s), IsWhitespace, "%20");
    ReplaceRunsAlphabet(a, IsHyphen, "-");
  }

  /** The slug has no upper-case ASCII letter. */
  lemma FormatNoUpper(s: string)
    ensures NoUpper(FormatStringForUrl(s))
  {
    FormatAlphabet(s);
    var r := FormatStringForUrl(s);
    forall i | 0 <= i < |r| ensures !IsUpper(r[i]) {
      assert r[i] in r;
      if r[i] in Lower(s) {
        var k :| 0 <= k < |s| && Lower(s)[k] == r[i];
      }
    }
  }

  /** The slug has no whitespace. */
  lemma FormatNoWhitespace(s: string)
    ensures NoWhitespace(FormatStringForUrl(s))
  {
    FormatAlphabet(s);
    var r := FormatStringForUrl(s);
    forall i | 0 <= i < |r| ensures !IsWhitespace(r[i]) {
      assert r[i] in r;
    }
  }

  /** The hyphen-collapsed string has no `--`, and so neither does the trimmed slug;
      what is left after trimming neither starts nor ends with a hyphen. */
  lemma TrimHyphensOfCollapsed(t: string)
    requires NoAdjacent(t, IsHyphen)
    ensures var r := TrimHyphens(t);
      NoAdjacent(r, IsHyphen) && (r == [] || (r[0] != '-' && r[|r| - 1] != '-'))
  {
    var u := if t != [] && t[0] == '-' then t[1..] else t;
    assert NoAdjacent(u, IsHyphen) by {
      forall i | 0 <= i < |u| - 1 ensures !(IsHyphen(u[i]) && IsHyphen(u[i + 1])) {
        if t != [] && t[0] == '-' {
          assert u[i] == t[i + 1] && u[i + 1] == t[i + 2];
        }
      }
    }
    assert u != [] ==> u[0] != '-' by {
      if u != [] && t != [] && t[0] == '-' {
        assert u[0] == t[1];
        assert !(IsHyphen(t[0]) && IsHyphen(t[1]));
      }
    }
    var r := TrimHyphens(t);
    if u != [] && u[|u| - 1] == '-' {
      assert r == u[..|u| - 1];
      if r != [] {
        assert r[|r| - 1] == u[|u| - 2];
        assert r[0] == u[0];
      }
    }
  }

  /** The slug never contains `--` and neither starts nor ends with `-`. */
  lemma FormatHyphens(s: string)
    ensures var r := FormatStringForUrl(s);
      NoAdjacent(r, IsHyphen) && (r == [] || (r[0] != '-' && r[|r| - 1] != '-'))
  {
    ReplaceRunsNoAdjacent(SpacesEncoded(s), IsHyphen, '-');
    TrimHyphensOfCollapsed(ReplaceRuns(SpacesEncoded(s), IsHyphen, "-"));
  }

  /** A string that is already lower-case, has no whitespace, no `--` and no hyphen at
      either end is its own slug. */
  lemma FormatFixedPoint(s: string)
    requires NoUpper(s) && NoWhitespace(s) && NoAdjacent(s, IsHyphen)
    requires s == [] || (s[0] != '-' && s[|s| - 1] != '-')
    ensures FormatStringForUrl(s) == s
  {
    LowerOfLowerCase(s);
    ReplaceRunsNoMatch(s, IsWhitespace, "%20");
    ReplaceRunsSingles(s, IsHyphen, '-');
  }

  /** Formatting is idempotent. */
  lemma FormatIdempotent(s: string)
    ensures FormatStringForUrl(FormatStringForUrl(s)) == FormatStringForUrl(s)
  {
    var r := FormatStringForUrl(s);
    FormatNoUpper(s);
    FormatNoWhitespace(s);
    FormatHyphens(s);
    FormatFixedPoint(r);
  }

  /** A lower-case string with no whitespace and no hyphen is returned unchanged. */
  lemma FormatPlainWord(s: string)
    requires NoUpper(s) && NoWhitespace(s) && '-' !in s
    ensures FormatStringForUrl(s) == s
  {
    FormatFixedPoint(s);
  }

  /** Without hyphens in the input, the slug is exactly the whitespace step. */
  lemma FormatWithoutHyphens(s: string)
    requires '-' !in s
    ensures FormatStringForUrl(s) == SpacesEncoded(s)
  {
    var a := SpacesEncoded(s);
    ReplaceRunsAlphabet(Lower(s), IsWhitespace, "%20");
    assert '-' !in a;
    ReplaceRunsNoMatch(a, IsHyphen, "-");
  }

  /** Each maximal whitespace run becomes exactly one `%20`: a hyphen-free input
      `a + w + b` whose middle `w` is a whole whitespace run is formatted piecewise. */
  lemma FormatWhitespaceRun(a: string, w: string, b: string)
    requires '-' !in a && '-' !in w && '-' !in b
    requires a == [] || !IsWhitespace(a[|a| - 1])
    requires w != [] && forall i :: 0 <= i < |w| ==> IsWhitespace(w[i])
    requires b == [] || !IsWhitespace(b[0])
    ensures FormatStringForUrl(a + w + b) == FormatStringForUrl(a) + "%20" + FormatStringForUrl(b)
  {
    assert '-' !in a + w + b;
    FormatWithoutHyphens(a + w + b);
    FormatWithoutHyphens(a);
    FormatWithoutHyphens(b);
    SpacesEncodedRun(a, w, b);
  }

  /** The space-encoding step turns the whole run `w` into one `%20`. */
  lemma SpacesEncodedRun(a: string, w: string, b: string)
    requires a == [] || !IsWhitespace(a[|a| - 1])
    requires w != [] && forall i :: 0 <= i < |w| ==> IsWhitespace(w[i])
    requires b == [] || !IsWhitespace(b[0])
    ensures SpacesEncoded(a + w + b) == SpacesEncoded(a) + "%20" + SpacesEncoded(b)
  {
    LowerAppend(a + w, b);
    LowerAppend(a, w);
    var la, lw, lb := Lower(a), Lower(w), Lower(b);
    assert la == [] || !IsWhitespace(la[|la| - 1]);
    assert lb == [] || !IsWhitespace(lb[0]);
    ReplaceRunsAtRun(la, lw, lb, IsWhitespace, "%20");
  }
}
