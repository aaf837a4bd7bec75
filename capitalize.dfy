/** `capitalizeWordsInString`, as written: a split/map/join pass over spaces, then a
    loop over the hyphen pieces that calls `String.prototype.replace` with a string
    pattern for each piece after the first.  That call replaces the FIRST occurrence
    of the piece anywhere in the string and interprets `$` patterns in the
    replacement; both behaviours are modelled, and a corrected definition is given
    beside it. */
module Capitalize {
  import opened Text

  // ---------------------------------------------------------------------------
  // String.prototype.replace with a string pattern
  // ---------------------------------------------------------------------------

  /** The abstract operation GetSubstitution of ECMA-262 for a match without captures:
      `$$` is `$`, `$&` the matched text, `` $` `` the text before the match, `$'`
      the text after it; any other `$` stays as it is. */
  function Substitute(rep: string, s: string, pos: nat, matched: string): string
    requires pos + |matched| <= |s|
    decreases |rep|
  {
    if rep == [] then []
    else if rep[0] == '$' && |rep| >= 2 && rep[1] == '$' then "$" + Substitute(rep[2..], s, pos, matched)
    else if rep[0] == '$' && |rep| >= 2 && rep[1] == '&' then matched + Substitute(rep[2..], s, pos, matched)
    else if rep[0] == '$' && |rep| >= 2 && rep[1] == '`' then s[..pos] + Substitute(rep[2..], s, pos, matched)
    else if rep[0] == '$' && |rep| >= 2 && rep[1] == '\'' then
      s[pos + |matched|..] + Substitute(rep[2..], s, pos, matched)
    else [rep[0]] + Substitute(rep[1..], s, pos, matched)
  }

  /** A replacement without `$` is inserted literally. */
  lemma {:induction false} SubstituteLiteral(rep: string, s: string, pos: nat, matched: string)
    requires pos + |matched| <= |s|
    requires '$' !in rep
    ensures Substitute(rep, s, pos, matched) == rep
    decreases |rep|
  {
    if rep != [] {
      SubstituteLiteral(rep[1..], s, pos, matched);
      assert [rep[0]] + rep[1..] == rep;
    }
  }

  /** `s.replace(pat, rep)` with a string pattern: only the first occurrence is
      replaced, and nothing happens when there is none. */
  function ReplaceFirst(s: string, pat: string, rep: string): string {
    var i := IndexOf(s, pat);
    if i == -1 then s else s[..i] + Substitute(rep, s, i, pat) + s[i + |pat|..]
  }

  // ---------------------------------------------------------------------------
  // The function as written
  // ---------------------------------------------------------------------------

  /** The first pass: `str.split(" ").map(capitalize).join(" ")`. */
  function SpacePass(s: string): string {
    CapitalizeWords(s, ' ')
  }

  /** What the loop computes: the pieces, in order, each replaced at its first
      occurrence by its capitalised form. */
  function HyphenPass(s: string, pieces: seq<string>): string
    decreases |pieces|
  {
    if pieces == [] then s
    else HyphenPass(ReplaceFirst(s, pieces[0], CapitalizeWord(pieces[0])), pieces[1..])
  }

  /** The hyphen pieces the loop iterates over: a snapshot of the string after the
      space pass, without the first piece (`index > 0`). */
  function HyphenPieces(s1: string): seq<string> {
    Split(s1, '-')[1..]
  }

  /** The return value of `capitalizeWordsInString(s)`. */
  function CapitalizeWordsInString(s: string): string {
    CapitalizeWordsInStringFrom(SpacePass(s))
  }

  /** The loop itself: `str` is reassigned once per piece after the first. */
  method RunCapitalizeWordsInString(str: string) returns (r: string)
    ensures r == CapitalizeWordsInString(str)
  {
    r := SpacePass(str);
    var pieces := Split(r, '-');
    ghost var s1 := r;
    var index := 1;
    while index < |pieces|
      invariant 1 <= index <= |pieces|
      invariant HyphenPass(r, pieces[index..]) == HyphenPass(s1, pieces[1..])
      decreases |pieces| - index
    {
      var word := pieces[index];
      assert pieces[index..][1..] == pieces[index + 1..];
      r := ReplaceFirst(r, word, CapitalizeWord(word));
      index := index + 1;
    }
    assert pieces[index..] == [];
  }

  // ---------------------------------------------------------------------------
  // What the function guarantees (for text without `$`)
  // ---------------------------------------------------------------------------

  /** `t` is `s` with some lower-case letters upper-cased: same length, and every
      change turns a lower-case letter into its upper-case form. */
  predicate Upcased(s: string, t: string) {
    |t| == |s| && forall i :: 0 <= i < |s| ==> t[i] == s[i] || (IsLower(s[i]) && t[i] == UpperChar(s[i]))
  }

  lemma UpcasedTrans(a: string, b: string, c: string)
    requires Upcased(a, b) && Upcased(b, c)
    ensures Upcased(a, c)
  {
  }

  lemma UpcasedNoDollar(s: string, t: string)
    requires Upcased(s, t) && '$' !in s
    ensures '$' !in t
  {
  }

  lemma CapitalizeWordUpcased(w: string)
    ensures Upcased(w, CapitalizeWord(w))
    ensures '$' !in w ==> '$' !in CapitalizeWord(w)
  {
  }

  /** Putting an upper-cased copy of an occurrence in its place only upper-cases. */
  lemma UpcasedSplice(s: string, i: int, w: string, c: string)
    requires OccursAt(s, w, i) && Upcased(w, c)
    ensures Upcased(s, s[..i] + c + s[i + |w|..])
  {
    var t := s[..i] + c + s[i + |w|..];
    forall k | 0 <= k < |s| ensures t[k] == s[k] || (IsLower(s[k]) && t[k] == UpperChar(s[k])) {
      if k < i {
        assert t[k] == s[k];
      } else if k < i + |w| {
        assert t[k] == c[k - i] && s[k] == s[i..i + |w|][k - i] == w[k - i];
      } else {
        assert t[k] == s[k];
      }
    }
  }

  /** Replacing the first occurrence of a `$`-free piece by its capitalised form only
      upper-cases letters. */
  lemma ReplaceFirstUpcased(s: string, w: string)
    requires '$' !in s
    ensures Upcased(s, ReplaceFirst(s, w, CapitalizeWord(w)))
  {
    var i := IndexOf(s, w);
    if i != -1 {
      var c := CapitalizeWord(w);
      assert '$' !in w by {
        assert w == s[i..i + |w|];
      }
      CapitalizeWordUpcased(w);
      SubstituteLiteral(c, s, i, w);
      UpcasedSplice(s, i, w, c);
    }
  }

  lemma {:induction false} HyphenPassUpcased(s: string, pieces: seq<string>)
    requires '$' !in s
    ensures Upcased(s, HyphenPass(s, pieces))
    decreases |pieces|
  {
    if pieces != [] {
      var t := ReplaceFirst(s, pieces[0], CapitalizeWord(pieces[0]));
      ReplaceFirstUpcased(s, pieces[0]);
      UpcasedNoDollar(s, t);
      HyphenPassUpcased(t, pieces[1..]);
      UpcasedTrans(s, t, HyphenPass(t, pieces[1..]));
    }
  }

  lemma SpacePassUpcased(s: string)
    ensures SpacePass(s) == CapitalizedAfter(s, ' ')
    ensures Upcased(s, SpacePass(s))
  {
    CapitalizeWordsIsCapitalizedAfter(s, ' ');
  }

  /** Without `$`, the result is the input with some lower-case letters upper-cased:
      the same length, nothing inserted, removed or lower-cased. */
  lemma CapitalizeWordsInStringUpcased(s: string)
    requires '$' !in s
    ensures Upcased(s, CapitalizeWordsInString(s))
  {
    var s1 := SpacePass(s);
    SpacePassUpcased(s);
    UpcasedNoDollar(s, s1);
    HyphenPassUpcased(s1, HyphenPieces(s1));
    UpcasedTrans(s, s1, CapitalizeWordsInString(s));
  }

  /** Without `$`, the first character and every character after a space come out
      upper-cased, and spaces stay exactly where they were. */
  lemma CapitalizeWordsInStringAfterSpaces(s: string)
    requires '$' !in s
    ensures var r := CapitalizeWordsInString(s);
      |r| == |s|
      && (forall i :: 0 <= i < |s| && (i == 0 || s[i - 1] == ' ') ==> r[i] == UpperChar(s[i]))
      && (forall i :: 0 <= i < |s| ==> (r[i] == ' ' <==> s[i] == ' '))
  {
    var s1 := SpacePass(s);
    var r := CapitalizeWordsInString(s);
    SpacePassUpcased(s);
    UpcasedNoDollar(s, s1);
    HyphenPassUpcased(s1, HyphenPieces(s1));
    CapitalizeWordsInStringUpcased(s);
  }

  /** A string without `-` gets exactly the space pass. */
  lemma CapitalizeWordsInStringNoHyphen(s: string)
    requires '-' !in s
    ensures CapitalizeWordsInString(s) == SpacePass(s)
  {
    var s1 := SpacePass(s);
    SpacePassUpcased(s);
    assert '-' !in s1;
    SplitWithoutSeparator(s1, '-');
  }

  // ---------------------------------------------------------------------------
  // The two surprises of the hyphen pass
  // ---------------------------------------------------------------------------

  /** With one hyphen, the loop runs once, on the piece after it. */
  lemma HyphenPassOnce(s1: string, a: string, b: string)
    requires s1 == a + "-" + b && '-' !in a && '-' !in b
    ensures CapitalizeWordsInStringFrom(s1) == ReplaceFirst(s1, b, CapitalizeWord(b))
  {
    assert s1 == a + ['-'] + b;
    SplitFirstSeparator(a, b, '-');
    SplitWithoutSeparator(b, '-');
    assert HyphenPieces(s1) == [b];
    assert [b][1..] == [];
    assert HyphenPass(s1, [b]) == HyphenPass(ReplaceFirst(s1, b, CapitalizeWord(b)), []);
  }

  /** The hyphen loop applied to the result of the space pass. */
  function CapitalizeWordsInStringFrom(s1: string): string {
    HyphenPass(s1, HyphenPieces(s1))
  }

  /** The first occurrence at `i` is where the replacement goes. */
  lemma ReplaceFirstAt(s: string, w: string, rep: string, i: int)
    requires OccursAt(s, w, i) && forall j :: 0 <= j < i ==> !OccursAt(s, w, j)
    ensures ReplaceFirst(s, w, rep) == s[..i] + Substitute(rep, s, i, w) + s[i + |w|..]
  {
    var r := IndexOf(s, w);
    assert r != -1;
    assert r == i;
  }

  /** First-occurrence quirk: in `"ab-b"` the piece `"b"` is found before the hyphen,
      so the `b` of the first word is upper-cased and the one after the hyphen is not. */
  lemma CapitalizeWordsInStringFirstOccurrence(s: string, expected: string)
    requires s == "ab-b" && expected == "AB-b"
    ensures CapitalizeWordsInString(s) == expected
  {
    var s1 := SpacePass(s);
    SpacePassOfWord(s, s1, 'a', 'A');
    HyphenPassOnce(s1, "Ab", "b");
    FirstOccurrenceReplace(s1);
  }

  /** The space pass of a text without spaces upper-cases its first character. */
  lemma SpacePassOfWord(s: string, s1: string, c: char, u: char)
    requires s != [] && ' ' !in s && s[0] == c && UpperChar(c) == u && s1 == SpacePass(s)
    ensures s1 == [u] + s[1..]
  {
    SplitWithoutSeparator(s, ' ');
    assert CapitalizeAll([s]) == [CapitalizeWord(s)];
  }

  lemma FirstOccurrenceReplace(s1: string)
    requires s1 == "Ab-b"
    ensures ReplaceFirst(s1, "b", "B") == "AB-b"
  {
    assert s1[0..1] == "A" && s1[1..2] == "b" && s1[2..] == "-b";
    ReplaceFirstAt(s1, "b", "B", 1);
    SubstituteLiteral("B", s1, 1, "b");
  }

  /** A second application to `"AB-b"` capitalises the last piece after all. */
  lemma CapitalizeWordsInStringSecondPass(s: string, expected: string)
    requires s == "AB-b" && expected == "AB-B"
    ensures CapitalizeWordsInString(s) == expected
  {
    var s1 := SpacePass(s);
    SpacePassOfWord(s, s1, 'A', 'A');
    HyphenPassOnce(s1, "AB", "b");
    SecondPassReplace(s1);
  }

  lemma SecondPassReplace(s1: string)
    requires s1 == "AB-b"
    ensures ReplaceFirst(s1, "b", "B") == "AB-B"
  {
    assert s1[0..1] == "A" && s1[1..2] == "B" && s1[2..3] == "-" && s1[3..4] == "b";
    ReplaceFirstAt(s1, "b", "B", 3);
    SubstituteLiteral("B", s1, 3, "b");
  }

  /** Hence the function is not idempotent. */
  lemma CapitalizeWordsInStringNotIdempotent(s: string)
    requires s == "ab-b"
    ensures CapitalizeWordsInString(CapitalizeWordsInString(s)) != CapitalizeWordsInString(s)
  {
    var once := CapitalizeWordsInString(s);
    CapitalizeWordsInStringFirstOccurrence(s, "AB-b");
    CapitalizeWordsInStringSecondPass(once, "AB-B");
    assert once[3] != "AB-B"[3];
  }

  /** `$` quirk: the piece `"$$"` is its own capitalised form, but as a replacement
      string it means one `$`, so one character disappears. */
  lemma CapitalizeWordsInStringDollar(s: string, expected: string)
    requires s == "a-$$" && expected == "A-$"
    ensures CapitalizeWordsInString(s) == expected
  {
    var s1 := SpacePass(s);
    SpacePassOfWord(s, s1, 'a', 'A');
    HyphenPassOnce(s1, "A", "$$");
    DollarReplace(s1);
  }

  lemma DollarReplace(s1: string)
    requires s1 == "A-$$"
    ensures ReplaceFirst(s1, "$$", CapitalizeWord("$$")) == "A-$"
  {
    assert s1[0..2] == "A-" && s1[1..3] == "-$" && s1[2..4] == "$$";
    ReplaceFirstAt(s1, "$$", "$$", 2);
    assert Substitute("$$", s1, 2, "$$") == "$";
  }

  // ---------------------------------------------------------------------------
  // The evidently intended behaviour
  // ---------------------------------------------------------------------------

  /** Capitalise the first character and every character that follows a space or a
      hyphen; nothing else changes. */
  function CapitalizeWordsCorrected(s: string): (r: string)
    ensures |r| == |s|
    ensures forall i :: 0 <= i < |s| ==>
      r[i] == (if i == 0 || s[i - 1] == ' ' || s[i - 1] == '-' then UpperChar(s[i]) else s[i])
  {
    seq(|s|, i requires 0 <= i < |s| => if i == 0 || s[i - 1] == ' ' || s[i - 1] == '-' then UpperChar(s[i]) else s[i])
  }

  /** The corrected function only upper-cases letters, whatever the input, `$` included. */
  lemma CorrectedUpcased(s: string)
    ensures Upcased(s, CapitalizeWordsCorrected(s))
  {
  }

  /** Applying the corrected function twice changes nothing more. */
  lemma CorrectedIdempotent(s: string)
    ensures CapitalizeWordsCorrected(CapitalizeWordsCorrected(s)) == CapitalizeWordsCorrected(s)
  {
    var r := CapitalizeWordsCorrected(s);
    forall i | 0 <= i < |s| ensures CapitalizeWordsCorrected(r)[i] == r[i] {
      if i > 0 {
        assert (r[i - 1] == ' ' || r[i - 1] == '-') <==> (s[i - 1] == ' ' || s[i - 1] == '-');
      }
    }
  }

  /** It is the split/map/join on spaces followed by the same on hyphens. */
  lemma CorrectedIsTwoSplits(s: string)
    ensures CapitalizeWordsCorrected(s) == CapitalizeWords(CapitalizeWords(s, ' '), '-')
  {
    CapitalizeWordsIsCapitalizedAfter(s, ' ');
    var s1 := CapitalizeWords(s, ' ');
    CapitalizeWordsIsCapitalizedAfter(s1, '-');
    forall i | 0 <= i < |s| ensures CapitalizedAfter(s1, '-')[i] == CapitalizeWordsCorrected(s)[i] {
      if i > 0 {
        assert s1[i - 1] == '-' <==> s[i - 1] == '-';
      }
    }
  }

  /** On the two inputs above the corrected function does what the comments say. */
  lemma CorrectedExamples()
    ensures CapitalizeWordsCorrected("ab-b") == "Ab-B"
    ensures CapitalizeWordsCorrected("a-$$") == "A-$$"
  {
    assert UpperChar('a') == 'A' && UpperChar('b') == 'B' && UpperChar('$') == '$';
  }

  /** Where the input has no hyphen the written and the corrected function agree. */
  lemma CorrectedAgreesWithoutHyphen(s: string)
    requires '-' !in s
    ensures CapitalizeWordsInString(s) == CapitalizeWordsCorrected(s)
  {
    CapitalizeWordsInStringNoHyphen(s);
    SpacePassUpcased(s);
  }
}
