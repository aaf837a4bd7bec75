/** The traveler counters of the search form: each `-` / `+` button computes the
    count it would set and whether it is disabled, and a label sums the counts up.
    Counts are plain numbers in the source (values read from the URL may lie
    outside the ranges the buttons keep), so they are `int` here. */
module Travelers {
  import opened Text

  /** What one button does: the count its click hands to the setter, and whether it
      is disabled. */
  datatype CounterButton = CounterButton(newCount: int, disabled: bool)

  /** `generateButton(decrement, forChildren)` for the current `count`. */
  function GenerateButton(decrement: bool, forChildren: bool, count: int): (b: CounterButton)
    ensures b.newCount <= 4
  {
    var newCount :=
      if !forChildren && decrement && count == 1 then 1
      else if decrement then (if count > 0 then count - 1 else 0)
      else count + 1;
    var disabled :=
      (!decrement && count == 4) ||
      (decrement && forChildren && count == 0) ||
      (decrement && !forChildren && count == 1);
    CounterButton(if newCount > 4 then 4 else newCount, disabled)
  }

  /** The smallest count each counter allows: one adult, no children. */
  function Floor(forChildren: bool): int { if forChildren then 0 else 1 }

  predicate InRange(forChildren: bool, count: int) { Floor(forChildren) <= count <= 4 }

  /** At its floor the `-` button is disabled and leaves the count where it is. */
  lemma DecrementAtFloor(forChildren: bool)
    ensures GenerateButton(true, forChildren, Floor(forChildren)) == CounterButton(Floor(forChildren), true)
  {
  }

  /** At four the `+` button is disabled, and its count is capped at four. */
  lemma IncrementAtFour(forChildren: bool)
    ensures GenerateButton(false, forChildren, 4) == CounterButton(4, true)
  {
  }

  /** Away from the bounds a click moves the count by exactly one. */
  lemma AwayFromBounds(forChildren: bool, count: int)
    ensures Floor(forChildren) <= count < 4 ==>
      GenerateButton(false, forChildren, count) == CounterButton(count + 1, false)
    ensures Floor(forChildren) < count <= 4 ==>
      GenerateButton(true, forChildren, count) == CounterButton(count - 1, false)
  {
  }

  /** Clicking either button from an in-range count gives an in-range count. */
  lemma ButtonKeepsRange(decrement: bool, forChildren: bool, count: int)
    requires InRange(forChildren, count)
    ensures InRange(forChildren, GenerateButton(decrement, forChildren, count).newCount)
  {
  }

  /** For an in-range count a button is disabled exactly when clicking it would not
      change the count. */
  lemma DisabledIffNoChange(decrement: bool, forChildren: bool, count: int)
    requires InRange(forChildren, count)
    ensures var b := GenerateButton(decrement, forChildren, count);
      b.disabled <==> b.newCount == count
  {
  }

  // ---------------------------------------------------------------------------
  // The label
  // ---------------------------------------------------------------------------

  /** `n + " Adult" + (n !== 1 ? "s" : "")`. */
  function AdultsText(n: int): string {
    IntToString(n) + " Adult" + (if n != 1 then "s" else "")
  }

  /** `n + " Child" + (n !== 1 ? "ren" : "")`. */
  function ChildrenText(n: int): string {
    IntToString(n) + " Child" + (if n != 1 then "ren" else "")
  }

  /** `generateSpanCountText()`: the children clause is left out for no children. */
  function SpanCountText(adults: int, children: int): string {
    if children == 0 then AdultsText(adults)
    else AdultsText(adults) + " & " + ChildrenText(children)
  }

  lemma IntToStringHasNoAmpersand(n: int)
    ensures '&' !in IntToString(n)
  {
    var s := NatToString(if n < 0 then -n else n);
    assert forall i :: 0 <= i < |s| ==> s[i] != '&';
  }

  /** The label has an `&` exactly when there are children. */
  lemma LabelMentionsChildren(adults: int, children: int)
    ensures '&' in SpanCountText(adults, children) <==> children != 0
  {
    IntToStringHasNoAmpersand(adults);
    var a := AdultsText(adults);
    assert '&' !in a;
    if children != 0 {
      assert SpanCountText(adults, children)[|a| + 1] == '&';
    }
  }

  /** The plural endings: with no children the label ends in `s` exactly when the
      adult count is not one; with children it ends in `ren` exactly when the
      child count is not one. */
  lemma LabelPlurals(adults: int, children: int)
    ensures var t := SpanCountText(adults, children);
      (children == 0 ==> (t[|t| - 1] == 's' <==> adults != 1)) &&
      (children != 0 ==> (|t| >= 3 && t[|t| - 3..] == "ren" <==> children != 1))
  {
    var t := SpanCountText(adults, children);
    if children != 0 && children == 1 {
      assert t[|t| - 3..] == "ild";
    }
  }

  /** Two strings that each start with a run of digits followed by a non-digit agree
      on the digits when they are equal. */
  lemma SplitAtDigits(d1: string, x: string, d2: string, y: string)
    requires IsDigitString(d1) && IsDigitString(d2)
    requires x != [] && !IsDigit(x[0]) && y != [] && !IsDigit(y[0])
    requires d1 + x == d2 + y
    ensures d1 == d2 && x == y
  {
    assert d1 == (d1 + x)[..|d1|];
    assert d2 == (d2 + y)[..|d2|];
  }

  /** What follows the adult count in the label. */
  function AfterAdults(a: nat, c: nat): (r: string)
    ensures r != [] && r[0] == ' '
  {
    " Adult" + (if a != 1 then "s" else "") + (if c == 0 then "" else " & " + ChildrenText(c))
  }

  /** What follows the child count in the label. */
  function AfterChildren(c: nat): (r: string)
    ensures r != [] && r[0] == ' '
  {
    " Child" + (if c != 1 then "ren" else "")
  }

  lemma LabelShape(a: nat, c: nat)
    ensures SpanCountText(a, c) == NatToString(a) + AfterAdults(a, c)
    ensures c != 0 ==> SpanCountText(a, c) == (AdultsText(a) + " & ") + (NatToString(c) + AfterChildren(c))
  {
  }

  /** The label determines both counts. */
  lemma LabelInjective(a1: nat, c1: nat, a2: nat, c2: nat)
    requires SpanCountText(a1, c1) == SpanCountText(a2, c2)
    ensures a1 == a2 && c1 == c2
  {
    LabelShape(a1, c1);
    LabelShape(a2, c2);
    SplitAtDigits(NatToString(a1), AfterAdults(a1, c1), NatToString(a2), AfterAdults(a2, c2));
    NatToStringInjective(a1, a2);
    LabelMentionsChildren(a1, c1);
    LabelMentionsChildren(a2, c2);
    if c1 != 0 && c2 != 0 {
      var p := AdultsText(a1) + " & ";
      var x1, x2 := NatToString(c1) + AfterChildren(c1), NatToString(c2) + AfterChildren(c2);
      assert x1 == (p + x1)[|p|..];
      assert x2 == (p + x2)[|p|..];
      SplitAtDigits(NatToString(c1), AfterChildren(c1), NatToString(c2), AfterChildren(c2));
      NatToStringInjective(c1, c2);
    }
  }
}
