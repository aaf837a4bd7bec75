/** The chain shared by `convertToKebabCase` and `convertToSnakeCase`:
    `s.replace(/\s+/g, sep).replace(/[^a-zA-Z0-9<sep>]/g, "").toLowerCase()`.
    Only ASCII letters and digits and the separator survive the removal step, so
    the final lower-casing acts on ASCII only and is modelled exactly. */
module CaseConvert {
  import opened Text

  /** The characters `[a-zA-Z0-9<sep>]` that survive the removal step. */
  function Keeper(sep: char): char -> bool {
    c => IsAlnum(c) || c == sep
  }

  /** Everything but the separator. */
  function Other(sep: char): char -> bool {
    c => c != sep
  }

  function ConvertCase(s: string, sep: char): string {
    Lower(KeepOnly(ReplaceRuns(s, IsWhitespace, [sep]), Keeper(sep)))
  }

  /** A usable separator: kept by the removal step, untouched by case mapping, and
      neither whitespace nor a letter or digit (`-` and `_`). */
  predicate Separator(sep: char) {
    !IsAlnum(sep) && !IsWhitespace(sep)
  }

  /** Every output character is a lower-case letter, a digit or the separator. */
  lemma ConvertCaseAlphabet(s: string, sep: char)
    requires Separator(sep)
    ensures var r := ConvertCase(s, sep);
      forall i :: 0 <= i < |r| ==> IsLower(r[i]) || IsDigit(r[i]) || r[i] == sep
  {
    var k := KeepOnly(ReplaceRuns(s, IsWhitespace, [sep]), Keeper(sep));
    var r := ConvertCase(s, sep);
    KeepOnlyMembers(ReplaceRuns(s, IsWhitespace, [sep]), Keeper(sep));
    forall i | 0 <= i < |r| ensures IsLower(r[i]) || IsDigit(r[i]) || r[i] == sep {
      assert k[i] in k;
    }
  }

  /** The output is never longer than the input. */
  lemma ConvertCaseLength(s: string, sep: char)
    ensures |ConvertCase(s, sep)| <= |s|
  {
    ReplaceRunsLength(s, IsWhitespace, [sep]);
  }

  /** Converting twice is converting once. */
  lemma ConvertCaseIdempotent(s: string, sep: char)
    requires Separator(sep)
    ensures ConvertCase(ConvertCase(s, sep), sep) == ConvertCase(s, sep)
  {
    var r := ConvertCase(s, sep);
    ConvertCaseAlphabet(s, sep);
    ReplaceRunsNoMatch(r, IsWhitespace, [sep]);
    KeepOnlyAll(r, Keeper(sep));
    LowerOfLowerCase(r);
  }

  /** Removal and lower-casing both work character by character. */
  lemma ConvertCaseAppend(a: string, b: string, sep: char)
    requires a == [] || !IsWhitespace(a[|a| - 1])
    ensures ConvertCase(a + b, sep) == ConvertCase(a, sep) + ConvertCase(b, sep)
  {
    ReplaceRunsAppend(a, b, IsWhitespace, [sep]);
    var ra, rb := ReplaceRuns(a, IsWhitespace, [sep]), ReplaceRuns(b, IsWhitespace, [sep]);
    KeepOnlyAppend(ra, rb, Keeper(sep));
    LowerAppend(KeepOnly(ra, Keeper(sep)), KeepOnly(rb, Keeper(sep)));
  }

  /** Each maximal whitespace run becomes exactly one separator, and nothing else
      happens at that place: existing separators are not merged with it. */
  lemma ConvertCaseRun(a: string, w: string, b: string, sep: char)
    requires Separator(sep)
    requires a == [] || !IsWhitespace(a[|a| - 1])
    requires w != [] && forall i :: 0 <= i < |w| ==> IsWhitespace(w[i])
    requires b == [] || !IsWhitespace(b[0])
    ensures ConvertCase(a + w + b, sep) == ConvertCase(a, sep) + [sep] + ConvertCase(b, sep)
  {
    var ra, rb := ReplaceRuns(a, IsWhitespace, [sep]), ReplaceRuns(b, IsWhitespace, [sep]);
    var ka, kb := KeepOnly(ra, Keeper(sep)), KeepOnly(rb, Keeper(sep));
    calc {
      ConvertCase(a + w + b, sep);
      == { ReplaceRunsAtRun(a, w, b, IsWhitespace, [sep]); }
      Lower(KeepOnly(ra + [sep] + rb, Keeper(sep)));
      == { KeepOnlyAppend(ra + [sep], rb, Keeper(sep));
           KeepOnlyAppend(ra, [sep], Keeper(sep));
           assert KeepOnly([sep], Keeper(sep)) == [sep]; }
      Lower(ka + [sep] + kb);
      == { LowerAppend(ka + [sep], kb); LowerAppend(ka, [sep]); }
      Lower(ka) + Lower([sep]) + Lower(kb);
      == { assert Lower([sep]) == [sep]; }
      ConvertCase(a, sep) + [sep] + ConvertCase(b, sep);
    }
  }

  // ---------------------------------------------------------------------------
  // Dropping the separators gives the lower-cased letters and digits
  // ---------------------------------------------------------------------------

  lemma {:induction false} KeepOnlyNone(s: string, keep: char -> bool)
    requires forall i :: 0 <= i < |s| ==> !keep(s[i])
    ensures KeepOnly(s, keep) == []
    decreases |s|
  {
    if s != [] {
      KeepOnlyNone(s[1..], keep);
    }
  }

  /** Run replacement is invisible to a filter that keeps neither the run characters
      nor the replacement. */
  lemma {:induction false} KeepOnlyReplaceRuns(s: string, p: char -> bool, rep: string, keep: char -> bool)
    requires forall i :: 0 <= i < |s| ==> p(s[i]) ==> !keep(s[i])
    requires forall i :: 0 <= i < |rep| ==> !keep(rep[i])
    ensures KeepOnly(ReplaceRuns(s, p, rep), keep) == KeepOnly(s, keep)
    decreases |s|
  {
    if s != [] {
      if p(s[0]) {
        var d := DropRun(s, p);
        assert forall i :: 0 <= i < |d| ==> d[i] == s[|s| - |d| + i];
        KeepOnlyReplaceRuns(d, p, rep, keep);
        KeepOnlyReplaceRunsRun(s, p, rep, keep);
      } else {
        assert forall i :: 0 <= i < |s[1..]| ==> s[1..][i] == s[i + 1];
        KeepOnlyReplaceRuns(s[1..], p, rep, keep);
      }
    }
  }

  /** The step of `KeepOnlyReplaceRuns` at a run: the run and its replacement both
      vanish. */
  lemma KeepOnlyReplaceRunsRun(s: string, p: char -> bool, rep: string, keep: char -> bool)
    requires s != [] && p(s[0])
    requires forall i :: 0 <= i < |s| ==> p(s[i]) ==> !keep(s[i])
    requires forall i :: 0 <= i < |rep| ==> !keep(rep[i])
    requires KeepOnly(ReplaceRuns(DropRun(s, p), p, rep), keep) == KeepOnly(DropRun(s, p), keep)
    ensures KeepOnly(ReplaceRuns(s, p, rep), keep) == KeepOnly(s, keep)
  {
    KeepOnlyDropsPrefix(rep, ReplaceRuns(DropRun(s, p), p, rep), keep);
    KeepOnlyDropsRun(s, p, keep);
  }

  /** A prefix the filter drops entirely leaves the rest alone. */
  lemma KeepOnlyDropsPrefix(w: string, t: string, keep: char -> bool)
    requires forall i :: 0 <= i < |w| ==> !keep(w[i])
    ensures KeepOnly(w + t, keep) == KeepOnly(t, keep)
  {
    KeepOnlyAppend(w, t, keep);
    KeepOnlyNone(w, keep);
  }

  /** A leading run the filter drops leaves the rest alone. */
  lemma KeepOnlyDropsRun(s: string, p: char -> bool, keep: char -> bool)
    requires forall i :: 0 <= i < |s| ==> p(s[i]) ==> !keep(s[i])
    ensures KeepOnly(s, keep) == KeepOnly(DropRun(s, p), keep)
  {
    var d := DropRun(s, p);
    KeepOnlyDropsFirst(s, |s| - |d|, keep);
  }

  /** The first `k` characters, when the filter drops them all, change nothing. */
  lemma KeepOnlyDropsFirst(s: string, k: int, keep: char -> bool)
    requires 0 <= k <= |s| && forall i :: 0 <= i < k ==> !keep(s[i])
    ensures KeepOnly(s, keep) == KeepOnly(s[k..], keep)
  {
    assert s == s[..k] + s[k..];
    KeepOnlyDropsPrefix(s[..k], s[k..], keep);
  }

  /** Two filters in a row are one filter that asks both. */
  lemma {:induction false} KeepOnlyTwice(s: string, p: char -> bool, q: char -> bool, pq: char -> bool)
    requires forall c :: pq(c) == (p(c) && q(c))
    ensures KeepOnly(KeepOnly(s, p), q) == KeepOnly(s, pq)
    decreases |s|
  {
    if s != [] {
      KeepOnlyTwice(s[1..], p, q, pq);
      KeepOnlyAppend(if p(s[0]) then [s[0]] else [], KeepOnly(s[1..], p), q);
    }
  }

  /** Case mapping does not change whether a character passes the filter. */
  lemma {:induction false} KeepOnlyLower(s: string, keep: char -> bool)
    requires forall c :: keep(LowerChar(c)) == keep(c)
    ensures KeepOnly(Lower(s), keep) == Lower(KeepOnly(s, keep))
    decreases |s|
  {
    if s != [] {
      KeepOnlyLower(s[1..], keep);
      assert Lower(s) == [LowerChar(s[0])] + Lower(s[1..]);
      LowerAppend(if keep(s[0]) then [s[0]] else [], KeepOnly(s[1..], keep));
    }
  }

  /** Removing the separators from the output leaves the input's ASCII letters and
      digits, lower-cased, in their order. */
  lemma ConvertCaseWithoutSeparators(s: string, sep: char)
    requires Separator(sep)
    ensures KeepOnly(ConvertCase(s, sep), Other(sep)) == Lower(KeepOnly(s, IsAlnum))
  {
    var r := ReplaceRuns(s, IsWhitespace, [sep]);
    var k := KeepOnly(r, Keeper(sep));
    KeepOnlyLower(k, Other(sep));
    KeepOnlyTwice(r, Keeper(sep), Other(sep), IsAlnum);
    KeepOnlyReplaceRuns(s, IsWhitespace, [sep], IsAlnum);
  }

  // ---------------------------------------------------------------------------
  // Changing the separator
  // ---------------------------------------------------------------------------

  /** The character `x` itself, as a class. */
  function Is(x: char): char -> bool {
    c => c == x
  }

  lemma ReplaceEachAppend(a: string, b: string, p: char -> bool, c: char)
    ensures ReplaceEach(a + b, p, c) == ReplaceEach(a, p, c) + ReplaceEach(b, p, c)
  {
    var l, r := ReplaceEach(a + b, p, c), ReplaceEach(a, p, c) + ReplaceEach(b, p, c);
    forall i | 0 <= i < |a + b| ensures l[i] == r[i] {
      if i < |a| {
        assert (a + b)[i] == a[i];
      } else {
        assert (a + b)[i] == b[i - |a|];
      }
    }
  }

  /** Without `x` in the input, replacing runs by `y` is replacing them by `x` and
      then every `x` by `y`. */
  lemma {:induction false} ReplaceRunsRename(s: string, x: char, y: char)
    requires x !in s
    ensures ReplaceRuns(s, IsWhitespace, [y]) == ReplaceEach(ReplaceRuns(s, IsWhitespace, [x]), Is(x), y)
    decreases |s|
  {
    if s != [] {
      var t := if IsWhitespace(s[0]) then DropRun(s, IsWhitespace) else s[1..];
      assert x !in t;
      ReplaceRunsRename(t, x, y);
      ReplaceRunsRenameStep(s, t, x, y);
    }
  }

  /** The step of `ReplaceRunsRename`: the first run or character, then the rest. */
  lemma ReplaceRunsRenameStep(s: string, t: string, x: char, y: char)
    requires s != [] && s[0] != x
    requires t == if IsWhitespace(s[0]) then DropRun(s, IsWhitespace) else s[1..]
    requires ReplaceRuns(t, IsWhitespace, [y]) == ReplaceEach(ReplaceRuns(t, IsWhitespace, [x]), Is(x), y)
    ensures ReplaceRuns(s, IsWhitespace, [y]) == ReplaceEach(ReplaceRuns(s, IsWhitespace, [x]), Is(x), y)
  {
    var head := if IsWhitespace(s[0]) then [x] else [s[0]];
    assert ReplaceRuns(s, IsWhitespace, [x]) == head + ReplaceRuns(t, IsWhitespace, [x]);
    ReplaceEachAppend(head, ReplaceRuns(t, IsWhitespace, [x]), Is(x), y);
    assert ReplaceEach(head, Is(x), y) == if IsWhitespace(s[0]) then [y] else [s[0]];
  }

  /** Renaming the separator commutes with the removal step when the new separator
      does not occur yet. */
  lemma {:induction false} KeepOnlyRename(t: string, x: char, y: char)
    requires Separator(x) && Separator(y) && y !in t
    ensures KeepOnly(ReplaceEach(t, Is(x), y), Keeper(y)) == ReplaceEach(KeepOnly(t, Keeper(x)), Is(x), y)
    decreases |t|
  {
    if t != [] {
      assert y !in t[1..];
      KeepOnlyRename(t[1..], x, y);
      KeepOnlyRenameStep(t, x, y);
    }
  }

  /** The step of `KeepOnlyRename`: the first character, renamed or not, passes
      the new filter exactly when it passed the old one. */
  lemma KeepOnlyRenameStep(t: string, x: char, y: char)
    requires Separator(x) && Separator(y) && t != [] && t[0] != y
    requires KeepOnly(ReplaceEach(t[1..], Is(x), y), Keeper(y)) == ReplaceEach(KeepOnly(t[1..], Keeper(x)), Is(x), y)
    ensures KeepOnly(ReplaceEach(t, Is(x), y), Keeper(y)) == ReplaceEach(KeepOnly(t, Keeper(x)), Is(x), y)
  {
    var c, rest := t[0], t[1..];
    var c' := if c == x then y else c;
    var h := if Keeper(x)(c) then [c] else [];
    ReplaceEachCons(t, Is(x), y);
    KeepOnlyCons(c', ReplaceEach(rest, Is(x), y), Keeper(y));
    ReplaceEachAppend(h, KeepOnly(rest, Keeper(x)), Is(x), y);
    assert ReplaceEach(h, Is(x), y) == if Keeper(y)(c') then [c'] else [];
  }

  lemma ReplaceEachCons(t: string, p: char -> bool, y: char)
    requires t != []
    ensures ReplaceEach(t, p, y) == [if p(t[0]) then y else t[0]] + ReplaceEach(t[1..], p, y)
  {
    ReplaceEachAppend([t[0]], t[1..], p, y);
    assert [t[0]] + t[1..] == t;
  }

  lemma KeepOnlyCons(c: char, rest: string, keep: char -> bool)
    ensures KeepOnly([c] + rest, keep) == (if keep(c) then [c] else []) + KeepOnly(rest, keep)
  {
    assert ([c] + rest)[1..] == rest;
  }

  /** Renaming commutes with lower-casing when neither character is a letter. */
  lemma LowerRename(u: string, x: char, y: char)
    requires Separator(x) && Separator(y)
    ensures Lower(ReplaceEach(u, Is(x), y)) == ReplaceEach(Lower(u), Is(x), y)
  {
    var l, r := Lower(ReplaceEach(u, Is(x), y)), ReplaceEach(Lower(u), Is(x), y);
    forall i | 0 <= i < |u| ensures l[i] == r[i] {
      assert LowerChar(u[i]) == x <==> u[i] == x;
    }
  }

  /** For input with neither separator, converting with `y` is converting with `x`
      and then writing `y` for every `x`. */
  lemma ConvertCaseRename(s: string, x: char, y: char)
    requires Separator(x) && Separator(y) && x != y
    requires x !in s && y !in s
    ensures ConvertCase(s, y) == ReplaceEach(ConvertCase(s, x), Is(x), y)
  {
    var rx := ReplaceRuns(s, IsWhitespace, [x]);
    ReplaceRunsRename(s, x, y);
    ReplaceRunsAlphabet(s, IsWhitespace, [x]);
    assert y !in rx;
    KeepOnlyRename(rx, x, y);
    LowerRename(KeepOnly(rx, Keeper(x)), x, y);
  }
}
