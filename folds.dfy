/** Reference definitions of the three accumulation rules the parsers use on a
    sequence of items: a field that the latest item carrying it overwrites
    (last-wins), a list that every item carrying one extends (append), and the
    first item that stops a loop. Each is defined on the whole sequence, so that
    the loops of the parsers can be proved against it. */
module Folds {
  import opened ImapTypes

  /** The value the last item offering one offers, or None when no item does. */
  function Last<E, X>(xs: seq<E>, pick: E -> Option<X>): Option<X>
    decreases |xs|
  {
    if |xs| == 0 then None
    else match pick(xs[|xs| - 1])
      case Some(x) => Some(x)
      case None => Last(xs[..|xs| - 1], pick)
  }

  /** The lists the items offer, joined in item order. */
  function Concat<E, X>(xs: seq<E>, pick: E -> seq<X>): seq<X>
    decreases |xs|
  {
    if |xs| == 0 then [] else Concat(xs[..|xs| - 1], pick) + pick(xs[|xs| - 1])
  }

  /** The items that satisfy `p`, in their order. */
  function Filter<E>(xs: seq<E>, p: E -> bool): (ys: seq<E>)
    ensures |ys| <= |xs|
    ensures forall k :: 0 <= k < |ys| ==> p(ys[k])
    decreases |xs|
  {
    if |xs| == 0 then []
    else Filter(xs[..|xs| - 1], p) + (if p(xs[|xs| - 1]) then [xs[|xs| - 1]] else [])
  }

  /** The index of the first item satisfying `p`, or |xs| when none does. */
  function FirstWhere<E>(xs: seq<E>, p: E -> bool): (i: nat)
    ensures i <= |xs|
    ensures forall k :: 0 <= k < i ==> !p(xs[k])
    ensures i < |xs| ==> p(xs[i])
    decreases |xs|
  {
    if |xs| == 0 then 0
    else if p(xs[0]) then 0
    else 1 + FirstWhere(xs[1..], p)
  }

  /** The three facts that FirstWhere ensures determine it. */
  lemma FirstWhereUnique<E>(xs: seq<E>, p: E -> bool, i: nat)
    requires i <= |xs|
    requires forall k :: 0 <= k < i ==> !p(xs[k])
    requires i < |xs| ==> p(xs[i])
    ensures FirstWhere(xs, p) == i
  {
  }

  /** Last-wins, stated without recursion: Last gives x exactly when some item
      offers x and no later item offers anything. */
  lemma {:induction false} LastIsLatest<E, X>(xs: seq<E>, pick: E -> Option<X>, x: X)
    ensures Last(xs, pick) == Some(x) <==>
      exists j :: 0 <= j < |xs| && pick(xs[j]) == Some(x) &&
        forall k :: j < k < |xs| ==> pick(xs[k]).None?
    decreases |xs|
  {
    if |xs| > 0 {
      var n := |xs| - 1;
      var init := xs[..n];
      LastIsLatest(init, pick, x);
      if pick(xs[n]).Some? {
        if Last(xs, pick) != Some(x) {
          assert pick(xs[n]) != Some(x);
          forall j | 0 <= j < |xs| && pick(xs[j]) == Some(x)
            ensures exists k :: j < k < |xs| && pick(xs[k]).Some?
          {
            assert j < n && pick(xs[n]).Some?;
          }
        }
      } else {
        if Last(init, pick) == Some(x) {
          var j :| 0 <= j < n && pick(init[j]) == Some(x) &&
            forall k :: j < k < n ==> pick(init[k]).None?;
          assert pick(xs[j]) == Some(x);
          forall k | j < k < |xs| ensures pick(xs[k]).None? {
            if k < n { assert xs[k] == init[k]; }
          }
        } else {
          forall j | 0 <= j < |xs| && pick(xs[j]) == Some(x)
            ensures exists k :: j < k < |xs| && pick(xs[k]).Some?
          {
            assert j < n && pick(init[j]) == Some(x);
            var k :| j < k < n && pick(init[k]).Some?;
            assert xs[k] == init[k];
          }
        }
      }
    }
  }

  /** Untouched stays untouched: Last is None exactly when no item offers a value. */
  lemma {:induction false} LastAbsent<E, X>(xs: seq<E>, pick: E -> Option<X>)
    ensures Last(xs, pick).None? <==> forall j :: 0 <= j < |xs| ==> pick(xs[j]).None?
    decreases |xs|
  {
    if |xs| > 0 {
      var n := |xs| - 1;
      LastAbsent(xs[..n], pick);
      assert forall j :: 0 <= j < n ==> xs[..n][j] == xs[j];
    }
  }

  /** When every item offers exactly one value, Concat lists those values. */
  lemma {:induction false} ConcatOfSingles<E, X>(xs: seq<E>, pick: E -> seq<X>, ys: seq<X>)
    requires |xs| == |ys|
    requires forall k :: 0 <= k < |xs| ==> pick(xs[k]) == [ys[k]]
    ensures Concat(xs, pick) == ys
    decreases |xs|
  {
    if |xs| > 0 {
      var n := |xs| - 1;
      ConcatOfSingles(xs[..n], pick, ys[..n]);
      assert ys[..n] + [ys[n]] == ys;
    }
  }

  /** Folding in two halves: the lists of the second half follow those of the first. */
  lemma {:induction false} ConcatAppend<E, X>(xs: seq<E>, ys: seq<E>, pick: E -> seq<X>)
    ensures Concat(xs + ys, pick) == Concat(xs, pick) + Concat(ys, pick)
    decreases |ys|
  {
    if |ys| > 0 {
      var n := |ys| - 1;
      assert (xs + ys)[..|xs + ys| - 1] == xs + ys[..n];
      assert (xs + ys)[|xs + ys| - 1] == ys[n];
      ConcatAppend(xs, ys[..n], pick);
    } else {
      assert xs + ys == xs;
    }
  }
}
