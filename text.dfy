/** Character classes and string operations that the source's regular expressions
    and string methods rely on: ASCII case mapping (`toLowerCase`/`toUpperCase`
    restricted to ASCII), the JavaScript `\s` class, `includes`, `indexOf`,
    global regex replacement of runs (`/x+/g`) and of single characters (`/x/g`),
    `split`/`join`, `trim`, and number-to-string conversion. */
module Text {

  // ---------------------------------------------------------------------------
  // Character classes
  // ---------------------------------------------------------------------------

  predicate IsUpper(c: char) { 'A' <= c <= 'Z' }
  predicate IsLower(c: char) { 'a' <= c <= 'z' }
  predicate IsDigit(c: char) { '0' <= c <= '9' }
  predicate IsLetter(c: char) { IsUpper(c) || IsLower(c) }
  predicate IsAlnum(c: char) { IsLetter(c) || IsDigit(c) }

  /** JavaScript's `\s`: the WhiteSpace and LineTerminator code points. */
  predicate IsWhitespace(c: char) {
    c == ' ' || '\t' <= c <= '\r' || c == '\U{00A0}' || c == '\U{1680}'
    || '\U{2000}' <= c <= '\U{200A}' || c == '\U{2028}' || c == '\U{2029}'
    || c == '\U{202F}' || c == '\U{205F}' || c == '\U{3000}' || c == '\U{FEFF}'
  }

  function LowerChar(c: char): (r: char)
    ensures !IsUpper(r)
    ensures !IsUpper(c) ==> r == c
    ensures IsUpper(c) ==> IsLower(r) && UpperChar(r) == c
  {
    if IsUpper(c) then (c as int + 32) as char else c
  }

  function UpperChar(c: char): (r: char)
    ensures !IsLower(r)
    ensures !IsLower(c) ==> r == c
    ensures IsLower(c) ==> IsUpper(r) && (r as int + 32) as char == c
  {
    if IsLower(c) then (c as int - 32) as char else c
  }

  /** `toLowerCase` on ASCII letters; every other character is kept. */
  function Lower(s: string): (r: string)
    ensures |r| == |s|
    ensures forall i :: 0 <= i < |s| ==> r[i] == LowerChar(s[i])
  {
    seq(|s|, i requires 0 <= i < |s| => LowerChar(s[i]))
  }

  predicate NoUpper(s: string) { forall i :: 0 <= i < |s| ==> !IsUpper(s[i]) }
  predicate NoWhitespace(s: string) { forall i :: 0 <= i < |s| ==> !IsWhitespace(s[i]) }

  lemma LowerAppend(a: string, b: string)
    ensures Lower(a + b) == Lower(a) + Lower(b)
  {
  }

  lemma LowerOfLowerCase(s: string)
    requires NoUpper(s)
    ensures Lower(s) == s
  {
  }

  // ---------------------------------------------------------------------------
  // Substring search
  // ---------------------------------------------------------------------------

  /** `t` occurs in `s` starting at position `i`. */
  predicate OccursAt(s: string, t: string, i: int) {
    0 <= i && i + |t| <= |s| && s[i..i + |t|] == t
  }

  /** `s.includes(t)`. */
  predicate Contains(s: string, t: string) {
    exists i :: 0 <= i <= |s| - |t| && OccursAt(s, t, i)
  }

  lemma ContainsEmpty(s: string)
    ensures Contains(s, [])
  {
    assert OccursAt(s, [], 0);
  }

  lemma ContainsInLeft(a: string, b: string, t: string)
    requires Contains(a, t)
    ensures Contains(a + b, t)
  {
    var i :| 0 <= i <= |a| - |t| && OccursAt(a, t, i);
    assert (a + b)[i..i + |t|] == a[i..i + |t|];
    assert OccursAt(a + b, t, i);
  }

  lemma ContainsInRight(a: string, b: string, t: string)
    requires Contains(b, t)
    ensures Contains(a + b, t)
  {
    var i :| 0 <= i <= |b| - |t| && OccursAt(b, t, i);
    assert (a + b)[|a| + i..|a| + i + |t|] == b[i..i + |t|];
    assert OccursAt(a + b, t, |a| + i);
  }

  /** `s.indexOf(t, k)`: the first position at or after `k` where `t` occurs, or -1. */
  function IndexOfFrom(s: string, t: string, k: nat): (r: int)
    ensures r == -1 || (k <= r && OccursAt(s, t, r))
    ensures forall i :: k <= i && (r == -1 || i < r) ==> !OccursAt(s, t, i)
    decreases |s| - k
  {
    if k + |t| > |s| then -1
    else if s[k..k + |t|] == t then k
    else IndexOfFrom(s, t, k + 1)
  }

  function IndexOf(s: string, t: string): (r: int)
    ensures r == -1 || OccursAt(s, t, r)
    ensures forall i :: 0 <= i && (r == -1 || i < r) ==> !OccursAt(s, t, i)
  {
    IndexOfFrom(s, t, 0)
  }

  // ---------------------------------------------------------------------------
  // Global regex replacement
  // ---------------------------------------------------------------------------

  /** What remains after a maximal leading run of characters satisfying `p`. */
  function DropRun(s: string, p: char -> bool): (r: string)
    ensures |r| <= |s| && r == s[|s| - |r|..]
    ensures r == [] || !p(r[0])
    ensures forall i :: 0 <= i < |s| - |r| ==> p(s[i])
    ensures s != [] && p(s[0]) ==> |r| < |s|
    decreases |s|
  {
    if s != [] && p(s[0]) then
      var r := DropRun(s[1..], p);
      assert s[1..][|s| - 1 - |r|..] == s[|s| - |r|..];
      assert forall i :: 1 <= i < |s| - |r| ==> s[i] == s[1..][i - 1];
      r
    else s
  }

  /** `s.replace(/x+/g, rep)` where `x` is the character class `p`: every maximal run
      of characters satisfying `p` becomes one copy of `rep`. */
  function ReplaceRuns(s: string, p: char -> bool, rep: string): string
    decreases |s|
  {
    if s == [] then []
    else if p(s[0]) then rep + ReplaceRuns(DropRun(s, p), p, rep)
    else [s[0]] + ReplaceRuns(s[1..], p, rep)
  }

  /** Every character of the result is a character of `rep` or a character of the
      input outside the class. */
  lemma {:induction false} ReplaceRunsAlphabet(s: string, p: char -> bool, rep: string)
    ensures forall c :: c in ReplaceRuns(s, p, rep) ==> c in rep || (c in s && !p(c))
    decreases |s|
  {
    if s != [] {
      if p(s[0]) {
        ReplaceRunsAlphabet(DropRun(s, p), p, rep);
      } else {
        ReplaceRunsAlphabet(s[1..], p, rep);
      }
    }
  }

  /** A run replaced by at most one character never makes the string longer. */
  lemma {:induction false} ReplaceRunsLength(s: string, p: char -> bool, rep: string)
    requires |rep| <= 1
    ensures |ReplaceRuns(s, p, rep)| <= |s|
    decreases |s|
  {
    if s != [] {
      if p(s[0]) {
        ReplaceRunsLength(DropRun(s, p), p, rep);
      } else {
        ReplaceRunsLength(s[1..], p, rep);
      }
    }
  }

  /** Without a character of the class there is nothing to replace. */
  lemma {:induction false} ReplaceRunsNoMatch(s: string, p: char -> bool, rep: string)
    requires forall i :: 0 <= i < |s| ==> !p(s[i])
    ensures ReplaceRuns(s, p, rep) == s
    decreases |s|
  {
    if s != [] {
      ReplaceRunsNoMatch(s[1..], p, rep);
    }
  }

  /** The result starts with the input's first character when that is outside the class. */
  lemma ReplaceRunsFirst(s: string, p: char -> bool, rep: string)
    requires s != [] && !p(s[0])
    ensures ReplaceRuns(s, p, rep) == [s[0]] + ReplaceRuns(s[1..], p, rep)
  {
  }

  lemma {:induction false} DropRunAppend(a: string, b: string, p: char -> bool)
    requires a != [] && !p(a[|a| - 1])
    ensures DropRun(a + b, p) == DropRun(a, p) + b
    decreases |a|
  {
    if p(a[0]) {
      assert (a + b)[1..] == a[1..] + b;
      DropRunAppend(a[1..], b, p);
    }
  }

  lemma {:induction false} DropRunWhole(w: string, b: string, p: char -> bool)
    requires forall i :: 0 <= i < |w| ==> p(w[i])
    requires b == [] || !p(b[0])
    ensures DropRun(w + b, p) == b
    decreases |w|
  {
    if w != [] {
      assert (w + b)[1..] == w[1..] + b;
      DropRunWhole(w[1..], b, p);
    } else {
      assert w + b == b;
    }
  }

  /** A prefix that does not end inside a run is replaced on its own. */
  lemma {:induction false} ReplaceRunsAppend(a: string, b: string, p: char -> bool, rep: string)
    requires a == [] || !p(a[|a| - 1])
    ensures ReplaceRuns(a + b, p, rep) == ReplaceRuns(a, p, rep) + ReplaceRuns(b, p, rep)
    decreases |a|
  {
    if a == [] {
      assert a + b == b;
    } else if p(a[0]) {
      var d := DropRun(a, p);
      assert d != [] && d[|d| - 1] == a[|a| - 1];
      ReplaceRunsAppend(d, b, p, rep);
      ReplaceRunsAppendRunStep(a, b, p, rep);
    } else {
      ReplaceRunsAppend(a[1..], b, p, rep);
      ReplaceRunsAppendPlainStep(a, b, p, rep);
    }
  }

  /** The step of `ReplaceRunsAppend` for a prefix that starts inside a run. */
  lemma ReplaceRunsAppendRunStep(a: string, b: string, p: char -> bool, rep: string)
    requires a != [] && p(a[0]) && !p(a[|a| - 1])
    requires ReplaceRuns(DropRun(a, p) + b, p, rep) == ReplaceRuns(DropRun(a, p), p, rep) + ReplaceRuns(b, p, rep)
    ensures ReplaceRuns(a + b, p, rep) == ReplaceRuns(a, p, rep) + ReplaceRuns(b, p, rep)
  {
    ReplaceRunsAppendRun(a, b, p, rep);
    Regroup(rep, ReplaceRuns(DropRun(a, p), p, rep), ReplaceRuns(b, p, rep));
  }

  /** Concatenation regroups freely. */
  lemma Regroup<T>(x: seq<T>, y: seq<T>, z: seq<T>)
    ensures x + (y + z) == (x + y) + z
  {
  }

  /** The step of `ReplaceRunsAppend` for a prefix that starts outside the class. */
  lemma ReplaceRunsAppendPlainStep(a: string, b: string, p: char -> bool, rep: string)
    requires a != [] && !p(a[0])
    requires ReplaceRuns(a[1..] + b, p, rep) == ReplaceRuns(a[1..], p, rep) + ReplaceRuns(b, p, rep)
    ensures ReplaceRuns(a + b, p, rep) == ReplaceRuns(a, p, rep) + ReplaceRuns(b, p, rep)
  {
    ReplaceRunsAppendPlain(a, b, p, rep);
    Regroup([a[0]], ReplaceRuns(a[1..], p, rep), ReplaceRuns(b, p, rep));
  }

  lemma ReplaceRunsAppendRun(a: string, b: string, p: char -> bool, rep: string)
    requires a != [] && p(a[0]) && !p(a[|a| - 1])
    ensures ReplaceRuns(a + b, p, rep) == rep + ReplaceRuns(DropRun(a, p) + b, p, rep)
    ensures ReplaceRuns(a, p, rep) == rep + ReplaceRuns(DropRun(a, p), p, rep)
  {
    DropRunAppend(a, b, p);
    assert (a + b)[0] == a[0];
  }

  lemma ReplaceRunsAppendPlain(a: string, b: string, p: char -> bool, rep: string)
    requires a != [] && !p(a[0])
    ensures ReplaceRuns(a + b, p, rep) == [a[0]] + ReplaceRuns(a[1..] + b, p, rep)
  {
    assert (a + b)[0] == a[0];
    assert (a + b)[1..] == a[1..] + b;
  }

  /** A maximal run `w` between `a` and `b` turns into exactly one `rep`. */
  lemma {:induction false} ReplaceRunsAtRun(a: string, w: string, b: string, p: char -> bool, rep: string)
    requires a == [] || !p(a[|a| - 1])
    requires w != [] && forall i :: 0 <= i < |w| ==> p(w[i])
    requires b == [] || !p(b[0])
    ensures ReplaceRuns(a + w + b, p, rep) == ReplaceRuns(a, p, rep) + rep + ReplaceRuns(b, p, rep)
  {
    assert (w + b)[0] == w[0];
    assert w + b != [] && p((w + b)[0]);
    var wb := w + b;
    calc {
      ReplaceRuns(a + w + b, p, rep);
      == { assert a + w + b == a + wb; }
      ReplaceRuns(a + wb, p, rep);
      == { ReplaceRunsAppend(a, wb, p, rep); }
      ReplaceRuns(a, p, rep) + ReplaceRuns(wb, p, rep);
      == { DropRunWhole(w, b, p); }
      ReplaceRuns(a, p, rep) + (rep + ReplaceRuns(b, p, rep));
      ==
      ReplaceRuns(a, p, rep) + rep + ReplaceRuns(b, p, rep);
    }
  }

  /** No two neighbouring characters both belong to the class. */
  predicate NoAdjacent(t: string, p: char -> bool) {
    forall i :: 0 <= i < |t| - 1 ==> !(p(t[i]) && p(t[i + 1]))
  }

  /** With a one-character replacement, the result starts with that character when
      the input starts inside a run, and with the input's first character otherwise. */
  lemma ReplaceRunsHead(s: string, p: char -> bool, c: char)
    requires s != []
    ensures ReplaceRuns(s, p, [c]) != []
    ensures ReplaceRuns(s, p, [c])[0] == if p(s[0]) then c else s[0]
  {
  }

  /** Replacing runs by one character of the class leaves no two neighbours in the
      class: `/-+/g` → `"-"` never leaves `--` behind. */
  lemma {:induction false} ReplaceRunsNoAdjacent(s: string, p: char -> bool, c: char)
    requires p(c)
    ensures NoAdjacent(ReplaceRuns(s, p, [c]), p)
    decreases |s|
  {
    if s != [] {
      if p(s[0]) {
        var d := DropRun(s, p);
        ReplaceRunsNoAdjacent(d, p, c);
        if d != [] {
          ReplaceRunsHead(d, p, c);
        }
        NoAdjacentCons(c, ReplaceRuns(d, p, [c]), p);
      } else {
        ReplaceRunsNoAdjacent(s[1..], p, c);
        NoAdjacentCons(s[0], ReplaceRuns(s[1..], p, [c]), p);
      }
    }
  }

  /** A character in front keeps the property unless it and the old first
      character are both in the class. */
  lemma NoAdjacentCons(h: char, t: string, p: char -> bool)
    requires NoAdjacent(t, p)
    requires t == [] || !(p(h) && p(t[0]))
    ensures NoAdjacent([h] + t, p)
  {
    var u := [h] + t;
    forall i | 0 <= i < |u| - 1 ensures !(p(u[i]) && p(u[i + 1])) {
      if i > 0 {
        assert u[i] == t[i - 1] && u[i + 1] == t[i];
      }
    }
  }

  /** When every run has length one and already is the replacement, nothing changes. */
  lemma {:induction false} ReplaceRunsSingles(s: string, p: char -> bool, c: char)
    requires NoAdjacent(s, p)
    requires forall i :: 0 <= i < |s| ==> p(s[i]) ==> s[i] == c
    ensures ReplaceRuns(s, p, [c]) == s
    decreases |s|
  {
    if s != [] {
      assert NoAdjacent(s[1..], p) by {
        forall i | 0 <= i < |s[1..]| - 1 ensures !(p(s[1..][i]) && p(s[1..][i + 1])) {
          assert s[1..][i] == s[i + 1] && s[1..][i + 1] == s[i + 2];
        }
      }
      ReplaceRunsSingles(s[1..], p, c);
      if p(s[0]) {
        assert DropRun(s[1..], p) == s[1..] by {
          if s[1..] != [] {
            assert !p(s[1]);
          }
        }
      }
      assert [s[0]] + s[1..] == s;
    }
  }

  /** `s.replace(/x/g, [c])`: every single character of the class becomes `c`. */
  function ReplaceEach(s: string, p: char -> bool, c: char): (r: string)
    ensures |r| == |s|
    ensures forall i :: 0 <= i < |s| ==> r[i] == (if p(s[i]) then c else s[i])
  {
    seq(|s|, i requires 0 <= i < |s| => if p(s[i]) then c else s[i])
  }

  /** `s.replace(/[^x]/g, "")`: only the characters satisfying `keep` remain. */
  function KeepOnly(s: string, keep: char -> bool): (r: string)
    ensures |r| <= |s|
    decreases |s|
  {
    if s == [] then [] else (if keep(s[0]) then [s[0]] else []) + KeepOnly(s[1..], keep)
  }

  lemma {:induction false} KeepOnlyAppend(a: string, b: string, keep: char -> bool)
    ensures KeepOnly(a + b, keep) == KeepOnly(a, keep) + KeepOnly(b, keep)
    decreases |a|
  {
    if a == [] {
      assert a + b == b;
    } else {
      assert (a + b)[0] == a[0] && (a + b)[1..] == a[1..] + b;
      KeepOnlyAppend(a[1..], b, keep);
      Regroup(if keep(a[0]) then [a[0]] else [], KeepOnly(a[1..], keep), KeepOnly(b, keep));
    }
  }

  /** The filter keeps exactly the characters that pass it. */
  lemma {:induction false} KeepOnlyMembers(s: string, keep: char -> bool)
    ensures forall c :: c in KeepOnly(s, keep) <==> c in s && keep(c)
    decreases |s|
  {
    if s != [] {
      KeepOnlyMembers(s[1..], keep);
      assert s == [s[0]] + s[1..];
    }
  }


  lemma {:induction false} KeepOnlyAll(s: string, keep: char -> bool)
    requires forall i :: 0 <= i < |s| ==> keep(s[i])
    ensures KeepOnly(s, keep) == s
    decreases |s|
  {
    if s != [] {
      KeepOnlyAll(s[1..], keep);
    }
  }

  // ---------------------------------------------------------------------------
  // split / join and word capitalisation
  // ---------------------------------------------------------------------------

  /** `s.split(sep)` for a one-character separator: always at least one piece, and
      an empty piece for each empty field (`"".split(" ")` is `[""]`). */
  function Split(s: string, sep: char): (r: seq<string>)
    ensures |r| > 0
    decreases |s|
  {
    if s == [] then [[]]
    else
      var rest := Split(s[1..], sep);
      if s[0] == sep then [[]] + rest
      else [[s[0]] + rest[0]] + rest[1..]
  }

  /** No piece holds the separator. */
  lemma {:induction false} SplitMembers(s: string, sep: char)
    ensures forall w :: w in Split(s, sep) ==> sep !in w
    decreases |s|
  {
    if s != [] {
      SplitMembers(s[1..], sep);
      var rest := Split(s[1..], sep);
      assert rest[0] in rest;
      assert forall w :: w in rest[1..] ==> w in rest;
    }
  }

  /** `ws.join(glue)`. */
  function Join(ws: seq<string>, glue: string): string
    decreases |ws|
  {
    if |ws| == 0 then []
    else if |ws| == 1 then ws[0]
    else ws[0] + glue + Join(ws[1..], glue)
  }

  /** Joining the pieces of a split gives the string back. */
  lemma {:induction false} JoinSplit(s: string, sep: char)
    ensures Join(Split(s, sep), [sep]) == s
    decreases |s|
  {
    if s != [] {
      JoinSplit(s[1..], sep);
      var rest := Split(s[1..], sep);
      if s[0] != sep && |rest| > 1 {
        assert ([[s[0]] + rest[0]] + rest[1..])[1..] == rest[1..];
        assert rest[1..] == rest[1..][0..];
      }
    }
  }

  /** The joined string starts with the first word when that word is not empty. */
  lemma JoinHead(ws: seq<string>, glue: string)
    requires |ws| > 0 && ws[0] != []
    ensures Join(ws, glue) != [] && Join(ws, glue)[0] == ws[0][0]
  {
  }

  /** Lower-casing every word. */
  function LowerAll(ws: seq<string>): (r: seq<string>)
    ensures |r| == |ws| && forall i :: 0 <= i < |ws| ==> r[i] == Lower(ws[i])
  {
    seq(|ws|, i requires 0 <= i < |ws| => Lower(ws[i]))
  }

  /** Lower-casing commutes with joining when the glue has no upper-case letter. */
  lemma {:induction false} LowerJoin(ws: seq<string>, glue: string)
    requires NoUpper(glue)
    ensures Lower(Join(ws, glue)) == Join(LowerAll(ws), glue)
    decreases |ws|
  {
    if |ws| > 1 {
      LowerJoin(ws[1..], glue);
      assert LowerAll(ws)[1..] == LowerAll(ws[1..]);
      LowerAppend(ws[0] + glue, Join(ws[1..], glue));
      LowerAppend(ws[0], glue);
      LowerOfLowerCase(glue);
    }
  }

  /** `s.includes(c)` for a one-character string. */
  lemma ContainsChar(s: string, c: char)
    ensures Contains(s, [c]) <==> c in s
  {
    if c in s {
      var i :| 0 <= i < |s| && s[i] == c;
      assert OccursAt(s, [c], i);
    }
    if Contains(s, [c]) {
      var i :| 0 <= i <= |s| - 1 && OccursAt(s, [c], i);
      assert s[i] == s[i..i + 1][0] == c;
    }
  }

  /** A string without the separator is a single piece. */
  lemma {:induction false} SplitWithoutSeparator(s: string, sep: char)
    requires sep !in s
    ensures Split(s, sep) == [s]
    decreases |s|
  {
    if s != [] {
      assert s[0] != sep;
      SplitWithoutSeparator(s[1..], sep);
      assert [s[0]] + s[1..] == s;
    }
  }

  /** The first piece of a split ends at the first separator. */
  lemma {:induction false} SplitFirstSeparator(a: string, b: string, sep: char)
    requires sep !in a
    ensures Split(a + [sep] + b, sep) == [a] + Split(b, sep)
    decreases |a|
  {
    var s := a + [sep] + b;
    if a == [] {
      assert s == [sep] + b && s[1..] == b;
    } else {
      assert s[0] == a[0] && s[1..] == a[1..] + [sep] + b;
      SplitFirstSeparator(a[1..], b, sep);
      assert [a[0]] + a[1..] == a;
    }
  }

  /** Splitting at a separator splits each side: the pieces left of it and the
      pieces right of it. */
  lemma {:induction false} SplitAppend(a: string, b: string, sep: char)
    ensures Split(a + [sep] + b, sep) == Split(a, sep) + Split(b, sep)
    decreases |a|
  {
    var s := a + [sep] + b;
    if a == [] {
      assert s == [sep] + b && s[1..] == b;
    } else {
      assert s[0] == a[0] && s[1..] == a[1..] + [sep] + b;
      SplitAppend(a[1..], b, sep);
      SplitAppendStep(a, b, sep);
    }
  }

  /** The step of `SplitAppend`: the first character joins the first piece or, as a
      separator, starts a new empty one. */
  lemma SplitAppendStep(a: string, b: string, sep: char)
    requires a != []
    requires Split(a[1..] + [sep] + b, sep) == Split(a[1..], sep) + Split(b, sep)
    ensures Split(a + [sep] + b, sep) == Split(a, sep) + Split(b, sep)
  {
    var s := a + [sep] + b;
    assert s[0] == a[0] && s[1..] == a[1..] + [sep] + b;
    SplitUnfold(s, sep);
    SplitUnfold(a, sep);
    PieceInFront(a[0], sep, Split(a[1..], sep), Split(b, sep));
  }

  /** One step of `Split`, written out. */
  lemma SplitUnfold(s: string, sep: char)
    requires s != []
    ensures Split(s, sep) == PutInFront(s[0], sep, Split(s[1..], sep))
  {
  }

  /** How `Split` puts a character in front of the pieces of the rest. */
  function PutInFront(c: char, sep: char, x: seq<string>): seq<string>
    requires |x| > 0
  {
    if c == sep then [[]] + x else [[c] + x[0]] + x[1..]
  }

  /** Putting a character in front of `x + y` touches `x` only. */
  lemma PieceInFront(c: char, sep: char, x: seq<string>, y: seq<string>)
    requires |x| > 0
    ensures PutInFront(c, sep, x + y) == PutInFront(c, sep, x) + y
  {
    if c == sep {
      Regroup([[]], x, y);
    } else {
      assert (x + y)[0] == x[0] && (x + y)[1..] == x[1..] + y;
      Regroup([[c] + x[0]], x[1..], y);
    }
  }



  /** `word.charAt(0).toUpperCase() + word.slice(1)`. */
  function CapitalizeWord(w: string): string {
    if w == [] then [] else [UpperChar(w[0])] + w[1..]
  }

  function CapitalizeAll(ws: seq<string>): (r: seq<string>)
    ensures |r| == |ws| && forall i :: 0 <= i < |ws| ==> r[i] == CapitalizeWord(ws[i])
  {
    seq(|ws|, i requires 0 <= i < |ws| => CapitalizeWord(ws[i]))
  }

  /** `s.split(sep).map(capitalize).join(sep)`. */
  function CapitalizeWords(s: string, sep: char): string {
    Join(CapitalizeAll(Split(s, sep)), [sep])
  }

  /** Reference definition of word capitalisation, character by character: the first
      character and every character right after a separator are upper-cased. */
  function CapitalizedAfter(s: string, sep: char): (r: string)
    ensures |r| == |s|
    ensures forall i :: 0 <= i < |s| ==>
      r[i] == (if i == 0 || s[i - 1] == sep then UpperChar(s[i]) else s[i])
  {
    seq(|s|, i requires 0 <= i < |s| => if i == 0 || s[i - 1] == sep then UpperChar(s[i]) else s[i])
  }

  lemma {:induction false} JoinCapitalizeAll(ws: seq<string>, sep: char)
    requires |ws| > 0
    requires UpperChar(sep) == sep
    requires forall w :: w in ws ==> sep !in w
    ensures Join(CapitalizeAll(ws), [sep]) == CapitalizedAfter(Join(ws, [sep]), sep)
    decreases |ws|
  {
    var w := ws[0];
    assert sep !in w;
    if |ws| == 1 {
      CapitalizedAfterWord(w, sep);
    } else {
      var caps := CapitalizeAll(ws);
      assert caps[1..] == CapitalizeAll(ws[1..]);
      JoinCapitalizeAll(ws[1..], sep);
      var rest := Join(ws[1..], [sep]);
      assert Join(ws, [sep]) == w + [sep] + rest;
      assert Join(caps, [sep]) == CapitalizeWord(w) + [sep] + CapitalizedAfter(rest, sep);
      CapitalizedAfterGlue(w, rest, sep);
    }
  }

  /** A single word is capitalised at its first character only. */
  lemma CapitalizedAfterWord(w: string, sep: char)
    requires sep !in w
    ensures CapitalizedAfter(w, sep) == CapitalizeWord(w)
  {
    if w != [] {
      var r := CapitalizedAfter(w, sep);
      forall i | 0 < i < |w| ensures r[i] == w[i] {
        assert w[i - 1] != sep;
      }
    }
  }

  /** Capitalising `w`, a separator and `rest` capitalises `w` as one word and
      `rest` on its own. */
  lemma CapitalizedAfterGlue(w: string, rest: string, sep: char)
    requires sep !in w && UpperChar(sep) == sep
    ensures CapitalizedAfter(w + [sep] + rest, sep) == CapitalizeWord(w) + [sep] + CapitalizedAfter(rest, sep)
  {
    var joined := w + [sep] + rest;
    var lhs := CapitalizeWord(w) + [sep] + CapitalizedAfter(rest, sep);
    CapitalizedAfterWord(w, sep);
    var cw := CapitalizedAfter(w, sep);
    var cr := CapitalizedAfter(rest, sep);
    forall i | 0 <= i < |joined|
      ensures lhs[i] == CapitalizedAfter(joined, sep)[i]
    {
      if i < |w| {
        assert lhs[i] == cw[i];
        assert joined[i] == w[i];
        assert i > 0 ==> joined[i - 1] == w[i - 1];
      } else if i > |w| {
        assert lhs[i] == cr[i - |w| - 1];
        assert joined[i] == rest[i - |w| - 1];
        assert i - |w| - 1 > 0 ==> joined[i - 1] == rest[i - |w| - 2];
      }
    }
  }

  /** The split/map/join capitalisation agrees with the character-level definition. */
  lemma CapitalizeWordsIsCapitalizedAfter(s: string, sep: char)
    requires UpperChar(sep) == sep
    ensures CapitalizeWords(s, sep) == CapitalizedAfter(s, sep)
  {
    JoinSplit(s, sep);
    SplitMembers(s, sep);
    JoinCapitalizeAll(Split(s, sep), sep);
  }

  /** Which capitalisation separator is used does not matter when neither occurs. */
  lemma CapitalizedAfterSeparatorAbsent(s: string, a: char, b: char)
    requires a !in s && b !in s
    ensures CapitalizedAfter(s, a) == CapitalizedAfter(s, b)
  {
    assert forall j :: 0 <= j < |s| ==> s[j] != a && s[j] != b;
  }

  // ---------------------------------------------------------------------------
  // trim
  // ---------------------------------------------------------------------------

  function TrimStart(s: string): (r: string)
    ensures |r| <= |s| && r == s[|s| - |r|..]
    ensures r == [] || !IsWhitespace(r[0])
    decreases |s|
  {
    if s != [] && IsWhitespace(s[0]) then TrimStart(s[1..]) else s
  }

  function TrimEnd(s: string): (r: string)
    ensures |r| <= |s| && r == s[..|r|]
    ensures r == [] || !IsWhitespace(r[|r| - 1])
    decreases |s|
  {
    if s != [] && IsWhitespace(s[|s| - 1]) then TrimEnd(s[..|s| - 1]) else s
  }

  /** `s.trim()`. */
  function Trim(s: string): string {
    TrimStart(TrimEnd(s))
  }

  /** Leading whitespace never reaches past a non-whitespace character. */
  lemma {:induction false} TrimStartAppend(a: string, b: string)
    requires b != [] && !IsWhitespace(b[0])
    ensures TrimStart(a + b) == TrimStart(a) + b
    decreases |a|
  {
    if a == [] {
      assert a + b == b;
    } else {
      assert (a + b)[1..] == a[1..] + b;
      if IsWhitespace(a[0]) {
        TrimStartAppend(a[1..], b);
      }
    }
  }

  /** Trimming a string that ends in a non-whitespace character removes leading
      whitespace only. */
  lemma TrimOfAppend(a: string, b: string)
    requires b != [] && !IsWhitespace(b[0]) && !IsWhitespace(b[|b| - 1])
    ensures Trim(a + b) == TrimStart(a) + b
  {
    TrimStartAppend(a, b);
  }

  // ---------------------------------------------------------------------------
  // Numbers as strings
  // ---------------------------------------------------------------------------

  function DigitChar(d: nat): (c: char)
    requires d < 10
    ensures IsDigit(c)
  {
    ('0' as int + d) as char
  }

  function DigitValue(c: char): (d: nat)
    requires IsDigit(c)
    ensures d < 10 && DigitChar(d) == c
  {
    c as int - '0' as int
  }

  /** The decimal representation of a natural number, as JavaScript prints it. */
  function NatToString(n: nat): (r: string)
    ensures |r| > 0 && forall i :: 0 <= i < |r| ==> IsDigit(r[i])
    decreases n
  {
    if n < 10 then [DigitChar(n)] else NatToString(n / 10) + [DigitChar(n % 10)]
  }

  /** `String(n)` for an integral number. */
  function IntToString(n: int): string {
    if n < 0 then "-" + NatToString(-n) else NatToString(n)
  }

  predicate IsDigitString(s: string) { forall i :: 0 <= i < |s| ==> IsDigit(s[i]) }

  /** The value of a string of decimal digits; the empty string has value 0. */
  function DigitsValue(s: string): nat
    requires IsDigitString(s)
    decreases |s|
  {
    if s == [] then 0 else DigitsValue(s[..|s| - 1]) * 10 + DigitValue(s[|s| - 1])
  }

  /** Reading back a printed natural number gives the number. */
  lemma {:induction false} DigitsValueOfNatToString(n: nat)
    ensures DigitsValue(NatToString(n)) == n
    decreases n
  {
    if n >= 10 {
      var s := NatToString(n);
      assert s[..|s| - 1] == NatToString(n / 10);
      DigitsValueOfNatToString(n / 10);
    }
  }

  /** Different numbers print differently. */
  lemma NatToStringInjective(m: nat, n: nat)
    requires NatToString(m) == NatToString(n)
    ensures m == n
  {
    DigitsValueOfNatToString(m);
    DigitsValueOfNatToString(n);
  }
}
