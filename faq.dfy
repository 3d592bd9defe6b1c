/**
 * The FAQ accordion: one `hidden` flag per answer. A click on a hidden
 * answer hides every other answer and shows it; a click on a shown answer
 * hides it. The rotation of each toggle's icon follows its answer and is
 * not modelled separately.
 */
module Faq {

  /** The flags after a click on entry `k`. */
  function Toggled(hidden: seq<bool>, k: nat): (r: seq<bool>)
    requires k < |hidden|
    ensures |r| == |hidden|
  {
    if hidden[k] then seq(|hidden|, j => j != k) else hidden[k := true]
  }

  /** The number of answers shown. */
  function OpenCount(hidden: seq<bool>): nat {
    if hidden == [] then 0 else (if hidden[0] then 0 else 1) + OpenCount(hidden[1..])
  }

  predicate AtMostOneOpen(hidden: seq<bool>) {
    forall i, j :: 0 <= i < |hidden| && 0 <= j < |hidden| && !hidden[i] && !hidden[j] ==> i == j
  }

  /** At most one shown answer is the same as a count of at most one. */
  lemma {:induction false} AtMostOneOpenIffCount(hidden: seq<bool>)
    ensures AtMostOneOpen(hidden) <==> OpenCount(hidden) <= 1
  {
    if hidden != [] {
      var rest := hidden[1..];
      AtMostOneOpenIffCount(rest);
      NoneOpenIffZero(rest);
      assert forall i :: 1 <= i < |hidden| ==> hidden[i] == rest[i - 1];
      if !AtMostOneOpen(rest) {
        var i, j :| 0 <= i < |rest| && 0 <= j < |rest| && !rest[i] && !rest[j] && i != j;
        assert !hidden[i + 1] && !hidden[j + 1];
      }
      if !hidden[0] && OpenCount(rest) > 0 {
        var j :| 0 <= j < |rest| && !rest[j];
        assert !hidden[j + 1];
      }
    }
  }

  lemma {:induction false} NoneOpenIffZero(hidden: seq<bool>)
    ensures OpenCount(hidden) == 0 <==> forall i :: 0 <= i < |hidden| ==> hidden[i]
  {
    if hidden != [] {
      NoneOpenIffZero(hidden[1..]);
      assert forall i :: 1 <= i < |hidden| ==> hidden[i] == hidden[1..][i - 1];
    }
  }

  /** Opening an entry leaves it the only answer shown, whatever was shown before. */
  lemma OpeningShowsOnlyIt(hidden: seq<bool>, k: nat)
    requires k < |hidden| && hidden[k]
    ensures forall j :: 0 <= j < |hidden| ==> (!Toggled(hidden, k)[j] <==> j == k)
    ensures OpenCount(Toggled(hidden, k)) == 1
  {
    var t := Toggled(hidden, k);
    assert AtMostOneOpen(t);
    assert !t[k];
    AtMostOneOpenIffCount(t);
    NoneOpenIffZero(t);
  }

  /** Closing an entry hides it and nothing else changes. */
  lemma ClosingHidesOnlyIt(hidden: seq<bool>, k: nat)
    requires k < |hidden| && !hidden[k]
    ensures forall j :: 0 <= j < |hidden| && j != k ==> Toggled(hidden, k)[j] == hidden[j]
    ensures Toggled(hidden, k)[k]
  {
  }

  /** Every click keeps "at most one answer shown". */
  lemma ClickKeepsAtMostOneOpen(hidden: seq<bool>, k: nat)
    requires k < |hidden| && AtMostOneOpen(hidden)
    ensures AtMostOneOpen(Toggled(hidden, k))
  {
  }

  /** An accordion on a page: the `hidden` class of each FAQ answer, in document order. */
  class Accordion {
    const hidden: array<bool>

    constructor (initial: seq<bool>)
      ensures hidden[..] == initial && fresh(hidden)
    {
      hidden := new bool[|initial|](i requires 0 <= i < |initial| => initial[i]);
    }

    /** The click handler of toggle `k`. */
    method Click(k: nat)
      requires k < hidden.Length
      modifies hidden
      ensures hidden[..] == Toggled(old(hidden[..]), k)
    {
      if hidden[k] {
        for j := 0 to hidden.Length
          invariant forall i :: 0 <= i < j ==> hidden[i]
          invariant forall i :: j <= i < hidden.Length ==> hidden[i] == old(hidden[i])
        {
          if j != k {
            hidden[j] := true;
          }
        }
        hidden[k] := false;
      } else {
        hidden[k] := true;
      }
    }
  }
}
