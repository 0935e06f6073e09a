/** The minimum and maximum reductions the connected component applies to its
    coordinate lists. The library routines they stand for are not part of this
    model; here they are the usual minimum and maximum of a non-empty sequence,
    each taken at an index where it occurs. */
module MathTools {

  /** An index holding the least element. */
  function ArgMin(s: seq<int>): (k: nat)
    requires |s| > 0
    ensures k < |s|
    ensures forall i :: 0 <= i < |s| ==> s[k] <= s[i]
  {
    if |s| == 1 then 0
    else
      var k := ArgMin(s[1..]) + 1;
      assert forall i :: 1 <= i < |s| ==> s[i] == s[1..][i - 1];
      if s[0] <= s[k] then 0 else k
  }

  /** An index holding the greatest element. */
  function ArgMax(s: seq<int>): (k: nat)
    requires |s| > 0
    ensures k < |s|
    ensures forall i :: 0 <= i < |s| ==> s[i] <= s[k]
  {
    if |s| == 1 then 0
    else
      var k := ArgMax(s[1..]) + 1;
      assert forall i :: 1 <= i < |s| ==> s[i] == s[1..][i - 1];
      if s[0] >= s[k] then 0 else k
  }

  /** The least element of a non-empty sequence. */
  function Min(s: seq<int>): int
    requires |s| > 0
  {
    s[ArgMin(s)]
  }

  /** The greatest element of a non-empty sequence. */
  function Max(s: seq<int>): int
    requires |s| > 0
  {
    s[ArgMax(s)]
  }

  /** Minimum and maximum bracket every element, so the minimum never exceeds the maximum. */
  lemma MinAtMostMax(s: seq<int>)
    requires |s| > 0
    ensures Min(s) <= Max(s)
  {
    assert Min(s) <= s[0] <= Max(s);
  }
}
