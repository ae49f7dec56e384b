/**
 * The five ways a directive combines a newly computed attribute value with
 * the value the attribute already has.
 */
module Merging {

  datatype ModificationType =
    | Substitution
    | Append
    | AppendWithSpace
    | Prepend
    | PrependWithSpace

  /** Strategies that keep the current value in front of the new one. */
  predicate CurrentFirst(t: ModificationType) {
    t == Append || t == AppendWithSpace
  }

  /** Strategies that put the new value in front of the current one. */
  predicate NewFirst(t: ModificationType) {
    t == Prepend || t == PrependWithSpace
  }

  /** Strategies that may insert a separating space. */
  predicate WithSpace(t: ModificationType) {
    t == AppendWithSpace || t == PrependWithSpace
  }

  /** The separator the strategy puts between the two values: one space, or nothing. */
  function Separator(current: string, t: ModificationType): string
  {
    if WithSpace(t) && current != "" then " " else ""
  }

  /** `r` is `first`, then `sep`, then `second`, each recoverable by position. */
  predicate Layout(r: string, first: string, sep: string, second: string) {
    && |r| == |first| + |sep| + |second|
    && r[..|first|] == first
    && r[|first|..|first| + |sep|] == sep
    && r[|first| + |sep|..] == second
  }

  lemma PlainLayout(first: string, second: string)
    ensures Layout(first + second, first, "", second)
  {
    var r := first + second;
    assert r[..|first|] == first;
    assert r[|first|..] == second;
  }

  lemma SpacedLayout(first: string, second: string)
    ensures Layout(first + " " + second, first, " ", second)
  {
    var r := first + " " + second;
    assert r[..|first|] == first;
    assert r[|first|..|first| + 1] == " ";
    assert r[|first| + 1..] == second;
  }

  /**
   * The merged value: Substitution keeps only the new value; the other
   * strategies lay the two values out in their order with the separator
   * between them.
   */
  function Merge(current: string, newValue: string, t: ModificationType): (r: string)
    ensures t == Substitution ==> r == newValue
    ensures CurrentFirst(t) ==> Layout(r, current, Separator(current, t), newValue)
    ensures NewFirst(t) ==> Layout(r, newValue, Separator(current, t), current)
  {
    match t
    case Substitution => newValue
    case Append =>
      PlainLayout(current, newValue);
      current + newValue
    case AppendWithSpace =>
      if current != "" then
        SpacedLayout(current, newValue);
        current + " " + newValue
      else
        PlainLayout(current, newValue);
        current + newValue
    case Prepend =>
      PlainLayout(newValue, current);
      newValue + current
    case PrependWithSpace =>
      if current != "" then
        SpacedLayout(newValue, current);
        newValue + " " + current
      else
        PlainLayout(newValue, current);
        newValue + current
  }

  /**
   * Nothing is trimmed or normalised: apart from Substitution, which drops the
   * current value, the merged value holds exactly the characters of both
   * values plus the separator.
   */
  lemma MergeKeepsCharacters(current: string, newValue: string, t: ModificationType)
    requires t != Substitution
    ensures multiset(Merge(current, newValue, t))
         == multiset(current) + multiset(Separator(current, t)) + multiset(newValue)
  {
    var sep := Separator(current, t);
    if CurrentFirst(t) {
      assert Merge(current, newValue, t) == current + sep + newValue;
    } else {
      assert Merge(current, newValue, t) == newValue + sep + current;
    }
  }

  /** The merged value is empty exactly when there is nothing to keep of either value. */
  lemma MergeEmptyIff(current: string, newValue: string, t: ModificationType)
    ensures Merge(current, newValue, t) == "" <==> newValue == "" && (t == Substitution || current == "")
  {
    var r := Merge(current, newValue, t);
    if t != Substitution {
      assert |r| == |current| + |Separator(current, t)| + |newValue|;
    }
  }

  /** Substitution discards the current value whatever it is. */
  lemma SubstitutionDiscardsCurrent(current1: string, current2: string, newValue: string)
    ensures Merge(current1, newValue, Substitution) == Merge(current2, newValue, Substitution) == newValue
  {
  }

  /** Append and Prepend are plain concatenation, with no separator. */
  lemma PlainConcatenation(current: string, newValue: string)
    ensures Merge(current, newValue, Append) == current + newValue
    ensures Merge(current, newValue, Prepend) == newValue + current
    ensures |Merge(current, newValue, Append)| == |Merge(current, newValue, Prepend)| == |current| + |newValue|
  {
  }

  /**
   * AppendWithSpace puts exactly one space between the two values when, and
   * only when, the current value is not empty; otherwise the result is the
   * new value alone.
   */
  lemma AppendWithSpaceSeparates(current: string, newValue: string)
    ensures Merge(current, newValue, AppendWithSpace) == current + " " + newValue <==> current != ""
    ensures current == "" ==> Merge(current, newValue, AppendWithSpace) == newValue
  {
    if current == "" {
      assert |Merge(current, newValue, AppendWithSpace)| == |newValue|;
    }
  }

  /** The mirror image of AppendWithSpaceSeparates for PrependWithSpace. */
  lemma PrependWithSpaceSeparates(current: string, newValue: string)
    ensures Merge(current, newValue, PrependWithSpace) == newValue + " " + current <==> current != ""
    ensures current == "" ==> Merge(current, newValue, PrependWithSpace) == newValue
  {
    if current == "" {
      assert |Merge(current, newValue, PrependWithSpace)| == |newValue|;
    }
  }

  /**
   * The merged value determines the new value once the current value and
   * the strategy are known: no information of the new value is lost.
   */
  lemma MergeRecoversNew(current: string, newValue1: string, newValue2: string, t: ModificationType)
    requires Merge(current, newValue1, t) == Merge(current, newValue2, t)
    ensures newValue1 == newValue2
  {
    var r := Merge(current, newValue1, t);
    if CurrentFirst(t) {
      var n := |current| + |Separator(current, t)|;
      assert newValue1 == r[n..] == newValue2;
    } else if NewFirst(t) {
      assert |newValue1| == |newValue2|;
      assert newValue1 == r[..|newValue1|] == newValue2;
    }
  }
}
