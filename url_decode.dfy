/** `decodeUrlString`: turns a path segment back into a display name. The segment
    is percent-decoded, split on spaces if the decoded text has one and on hyphens
    otherwise, and every word gets an upper-case first character. */
module UrlDecode {
  import opened Types
  import opened Text
  import opened Uri
  import opened UrlFormat

  /** The separator the words are split on. */
  function SplitChar(d: string): (c: char)
    ensures c == ' ' <==> ' ' in d
    ensures c == ' ' || c == '-'
  {
    ContainsChar(d, ' ');
    if Contains(d, " ") then ' ' else '-'
  }

  function DecodeUrlString(url: string): (r: Result<string>)
    ensures r.Ok? <==> PercentDecode(url).Ok?
  {
    match PercentDecode(url)
    case UriError => UriError
    case Ok(d) => Ok(CapitalizeWords(d, SplitChar(d)))
  }

  /** After decoding, the first character and every character right after the
      chosen separator are upper-cased and nothing else changes. */
  lemma DecodeUrlStringCapitalizes(url: string)
    requires PercentDecode(url).Ok?
    ensures var d := PercentDecode(url).value;
      DecodeUrlString(url) == Ok(CapitalizedAfter(d, SplitChar(d)))
  {
    var d := PercentDecode(url).value;
    CapitalizeWordsIsCapitalizedAfter(d, SplitChar(d));
  }

  /** Input without `%` decodes to itself: only capitalisation can change, the
      length is kept, and a changed character was a lower-case letter. */
  lemma DecodeUrlStringNoPercent(url: string)
    requires '%' !in url
    ensures DecodeUrlString(url).Ok?
    ensures var r := DecodeUrlString(url).value;
      |r| == |url|
      && forall i :: 0 <= i < |url| ==> r[i] == url[i] || (IsLower(url[i]) && r[i] == UpperChar(url[i]))
  {
    PercentDecodeNoPercent(url);
    DecodeUrlStringCapitalizes(url);
  }

  /** A malformed escape is an error (`URIError` escapes the function). */
  lemma DecodeUrlStringMalformed(a: string, b: string)
    requires PercentDecode(a).Ok?
    requires !(|b| >= 2 && IsHex(b[0]) && IsHex(b[1]))
    ensures DecodeUrlString(a + "%" + b) == UriError
  {
    PercentDecodeMalformed(a, b);
  }

  // ---------------------------------------------------------------------------
  // Round trip with formatStringForUrl
  // ---------------------------------------------------------------------------

  /** A word of a city name as the data writes it: one upper-case letter, then
      lower-case letters. */
  predicate TitleWord(w: string) {
    |w| > 0 && IsUpper(w[0]) && forall i :: 1 <= i < |w| ==> IsLower(w[i])
  }

  /** A non-empty word of lower-case letters. */
  predicate LowerWord(w: string) {
    |w| > 0 && forall i :: 0 <= i < |w| ==> IsLower(w[i])
  }

  predicate AllLowerWords(ws: seq<string>) { forall i :: 0 <= i < |ws| ==> LowerWord(ws[i]) }

  /** What the slug of such a city looks like: the lower-cased words joined by
      `%20` (space-separated city) or by `-` (hyphenated city). */
  function Slug(lw: seq<string>, sep: char): string {
    Join(lw, if sep == ' ' then "%20" else "-")
  }

  lemma JoinSingle(w: string, g: string)
    ensures Join([w], g) == w
  {
  }

  lemma LowerWordChars(w: string)
    requires LowerWord(w)
    ensures ' ' !in w && '-' !in w && '%' !in w
    ensures forall i :: 0 <= i < |w| ==> !IsWhitespace(w[i])
  {
  }

  /** Words without whitespace joined by single spaces: each space is a whole run. */
  lemma {:induction false} SpacesEncodedJoin(lw: seq<string>)
    requires |lw| > 0 && AllLowerWords(lw)
    ensures ReplaceRuns(Join(lw, " "), IsWhitespace, "%20") == Join(lw, "%20")
    decreases |lw|
  {
    LowerWordChars(lw[0]);
    if |lw| == 1 {
      ReplaceRunsNoMatch(lw[0], IsWhitespace, "%20");
    } else {
      var rest := Join(lw[1..], " ");
      SpacesEncodedJoin(lw[1..]);
      JoinHead(lw[1..], " ");
      LowerWordChars(lw[1]);
      ReplaceRunsNoMatch(lw[0], IsWhitespace, "%20");
      ReplaceRunsAtRun(lw[0], " ", rest, IsWhitespace, "%20");
    }
  }

  /** `%20` between words without `%` decodes to a space. */
  lemma {:induction false} PercentDecodeJoin(lw: seq<string>)
    requires |lw| > 0 && AllLowerWords(lw)
    ensures PercentDecode(Join(lw, "%20")) == Ok(Join(lw, " "))
    decreases |lw|
  {
    LowerWordChars(lw[0]);
    if |lw| == 1 {
      PercentDecodeNoPercent(lw[0]);
    } else {
      var rest := Join(lw[1..], "%20");
      PercentDecodeJoin(lw[1..]);
      PercentDecodeSpace(rest);
      assert lw[0] + "%20" + rest == lw[0] + ("%20" + rest);
      PercentDecodePlainPrefix(lw[0], "%20" + rest);
      assert lw[0] + ([' '] + Join(lw[1..], " ")) == lw[0] + " " + Join(lw[1..], " ");
    }
  }

  /** Neighbouring hyphens in a concatenation can only meet at the seam. */
  lemma NoAdjacentAppend(x: string, y: string, p: char -> bool)
    requires NoAdjacent(x, p) && NoAdjacent(y, p)
    requires x == [] || y == [] || !p(x[|x| - 1]) || !p(y[0])
    ensures NoAdjacent(x + y, p)
  {
    var s := x + y;
    forall i | 0 <= i < |s| - 1 ensures !(p(s[i]) && p(s[i + 1])) {
      if i + 1 < |x| {
        assert s[i] == x[i] && s[i + 1] == x[i + 1];
      } else if i >= |x| {
        assert s[i] == y[i - |x|] && s[i + 1] == y[i + 1 - |x|];
      }
    }
  }

  /** Words joined by single hyphens: no `--`, and the ends are letters. */
  lemma {:induction false} HyphenJoinShape(lw: seq<string>)
    requires |lw| > 0 && AllLowerWords(lw)
    ensures var j := Join(lw, "-");
      j != [] && IsLower(j[0]) && IsLower(j[|j| - 1]) && NoAdjacent(j, IsHyphen)
      && NoUpper(j) && NoWhitespace(j) && '%' !in j
    decreases |lw|
  {
    assert LowerWord(lw[0]);
    if |lw| > 1 {
      HyphenJoinShape(lw[1..]);
      HyphenJoinStep(lw[0], Join(lw[1..], "-"));
    } else {
      LowerWordChars(lw[0]);
    }
  }

  /** One more word in front of a hyphen-joined slug keeps its shape. */
  lemma HyphenJoinStep(w: string, rest: string)
    requires LowerWord(w)
    requires rest != [] && IsLower(rest[0]) && IsLower(rest[|rest| - 1]) && NoAdjacent(rest, IsHyphen)
      && NoUpper(rest) && NoWhitespace(rest) && '%' !in rest
    ensures var j := w + "-" + rest;
      j != [] && IsLower(j[0]) && IsLower(j[|j| - 1]) && NoAdjacent(j, IsHyphen)
      && NoUpper(j) && NoWhitespace(j) && '%' !in j
  {
    LowerWordChars(w);
    NoAdjacentAppend(w, "-", IsHyphen);
    NoAdjacentAppend(w + "-", rest, IsHyphen);
    var j := w + "-" + rest;
    assert j[|j| - 1] == rest[|rest| - 1];
    assert NoUpper(j) && NoWhitespace(j) by {
      forall i | 0 <= i < |j| ensures !IsUpper(j[i]) && !IsWhitespace(j[i]) {
        if i < |w| {
          assert j[i] == w[i];
        } else if i > |w| {
          assert j[i] == rest[i - |w| - 1];
        }
      }
    }
    assert '%' !in j by {
      assert j == w + ("-" + rest);
    }
  }

  /** The slug of a lower-cased, space- or hyphen-joined city decodes to the words
      joined by the same separator with each word capitalised. */
  lemma DecodeSlug(lw: seq<string>, sep: char)
    requires |lw| > 0 && AllLowerWords(lw)
    requires sep == ' ' || sep == '-'
    ensures DecodeUrlString(Slug(lw, sep)) == Ok(Join(CapitalizeAll(lw), [sep]))
  {
    var d := Join(lw, [sep]);
    if sep == ' ' {
      PercentDecodeJoin(lw);
    } else {
      HyphenJoinShape(lw);
      PercentDecodeNoPercent(d);
    }
    assert PercentDecode(Slug(lw, sep)) == Ok(d);
    var sc := SplitChar(d);
    assert Join(lw, [sc]) == d by {
      if |lw| == 1 {
        JoinSingle(lw[0], [sc]);
        JoinSingle(lw[0], [sep]);
      } else if sep == ' ' {
        JoinHead(lw[1..], " ");
        assert d[|lw[0]|] == ' ';
        assert ' ' in d;
      } else {
        assert ' ' !in d by {
          HyphenJoinShape(lw);
        }
      }
    }
    forall w | w in lw ensures sc !in w {
      LowerWordChars(w);
    }
    JoinCapitalizeAll(lw, sc);
    if |lw| == 1 {
      JoinSingle(CapitalizeAll(lw)[0], [sc]);
      JoinSingle(CapitalizeAll(lw)[0], [sep]);
    }
    DecodeUrlStringCapitalizes(Slug(lw, sep));
  }

  /** Capitalising the lower-cased words of a city gives its words back. */
  lemma CapitalizeLowerWords(words: seq<string>)
    requires forall i :: 0 <= i < |words| ==> TitleWord(words[i])
    ensures AllLowerWords(LowerAll(words))
    ensures CapitalizeAll(LowerAll(words)) == words
  {
    forall i | 0 <= i < |words| ensures CapitalizeWord(LowerAll(words)[i]) == words[i] {
      var w := words[i];
      assert Lower(w)[1..] == w[1..];
    }
  }

  /** The slug of a city made of title-case words joined by single spaces or by
      single hyphens is the lower-cased words joined by `%20` or `-`. */
  lemma FormatCity(words: seq<string>, sep: char)
    requires |words| > 0 && forall i :: 0 <= i < |words| ==> TitleWord(words[i])
    requires sep == ' ' || sep == '-'
    ensures FormatStringForUrl(Join(words, [sep])) == Slug(LowerAll(words), sep)
  {
    var city := Join(words, [sep]);
    var lw := LowerAll(words);
    CapitalizeLowerWords(words);
    LowerJoin(words, [sep]);
    assert Lower(city) == Join(lw, [sep]);
    if sep == ' ' {
      assert '-' !in city by {
        HyphenFreeJoin(words);
      }
      FormatWithoutHyphens(city);
      SpacesEncodedJoin(lw);
    } else {
      HyphenJoinShape(lw);
      LowerOfLowerCase(Join(lw, "-"));
      FormatFixedPoint(Join(lw, "-"));
      assert SpacesEncoded(city) == SpacesEncoded(Join(lw, "-"));
    }
  }

  /** Title-case words joined by spaces contain no hyphen. */
  lemma {:induction false} HyphenFreeJoin(words: seq<string>)
    requires forall i :: 0 <= i < |words| ==> TitleWord(words[i])
    ensures '-' !in Join(words, " ")
    decreases |words|
  {
    if |words| > 1 {
      HyphenFreeJoin(words[1..]);
      assert '-' !in words[0];
    } else if |words| == 1 {
      assert '-' !in words[0];
    }
  }

  /** Round trip: `decodeUrlString(formatStringForUrl(city)) == city` for a city
      made of title-case words joined by single spaces, or (without spaces) by
      single hyphens. */
  lemma DecodeFormatRoundTrip(words: seq<string>, sep: char)
    requires |words| > 0 && forall i :: 0 <= i < |words| ==> TitleWord(words[i])
    requires sep == ' ' || sep == '-'
    ensures DecodeUrlString(FormatStringForUrl(Join(words, [sep]))) == Ok(Join(words, [sep]))
  {
    FormatCity(words, sep);
    CapitalizeLowerWords(words);
    DecodeSlug(LowerAll(words), sep);
  }

  /** A decoded example, stated through the slug so that the literal is never unfolded. */
  lemma DecodeExample(u: string, lw: seq<string>, sep: char, caps: seq<string>, expected: string)
    requires |lw| > 0 && AllLowerWords(lw) && (sep == ' ' || sep == '-')
    requires u == Slug(lw, sep) && caps == CapitalizeAll(lw) && expected == Join(caps, [sep])
    ensures DecodeUrlString(u) == Ok(expected)
  {
    DecodeSlug(lw, sep);
  }

  /** A slug of two lower-case words decodes to the two words capitalised. */
  lemma DecodeTwoWords(w1: string, w2: string, sep: char, u: string, expected: string)
    requires LowerWord(w1) && LowerWord(w2) && (sep == ' ' || sep == '-')
    requires u == w1 + (if sep == ' ' then "%20" else "-") + w2
    requires expected == CapitalizeWord(w1) + [sep] + CapitalizeWord(w2)
    ensures DecodeUrlString(u) == Ok(expected)
  {
    var lw := [w1, w2];
    var g := if sep == ' ' then "%20" else "-";
    assert lw[1..] == [w2] && Join(lw[1..], g) == w2;
    assert Slug(lw, sep) == Join(lw, g) == w1 + g + w2;
    var caps := CapitalizeAll(lw);
    assert caps[1..] == [caps[1]];
    assert Join(caps, [sep]) == caps[0] + [sep] + caps[1];
    DecodeExample(u, lw, sep, caps, expected);
  }

  /** `"lake%20tahoe"` reads as `"Lake Tahoe"`. */
  lemma DecodeLakeTahoe(u: string, expected: string)
    requires u == "lake%20tahoe" && expected == "Lake Tahoe"
    ensures DecodeUrlString(u) == Ok(expected)
  {
    var w1, w2 := "lake", "tahoe";
    assert u == w1 + "%20" + w2;
    assert LowerWord(w1) && LowerWord(w2);
    TitleOf(w1, "Lake");
    TitleOf(w2, "Tahoe");
    assert expected == "Lake" + [' '] + "Tahoe";
    DecodeTwoWords(w1, w2, ' ', u, expected);
  }

  /** `"winston-salem"` reads as `"Winston-Salem"`. */
  lemma DecodeWinstonSalem(u: string, expected: string)
    requires u == "winston-salem" && expected == "Winston-Salem"
    ensures DecodeUrlString(u) == Ok(expected)
  {
    var w1, w2 := "winston", "salem";
    assert u == w1 + "-" + w2;
    assert LowerWord(w1) && LowerWord(w2);
    TitleOf(w1, "Winston");
    TitleOf(w2, "Salem");
    assert expected == "Winston" + ['-'] + "Salem";
    DecodeTwoWords(w1, w2, '-', u, expected);
  }

  /** A word and its capitalised form. */
  lemma TitleOf(w: string, t: string)
    requires w != [] && t != [] && 'a' <= w[0] <= 'z' && t[0] as int == w[0] as int - 32 && t[1..] == w[1..]
    ensures CapitalizeWord(w) == t
  {
  }
}
