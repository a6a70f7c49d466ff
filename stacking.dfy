/**
 * Stack arithmetic of the inventory: how much one stack can take, the first pass of
 * auto-loot that tops up existing stacks in list order, and sums of stack counts.
 */
module Stacking {

  function Min(a: int, b: int): (m: int)
    ensures m <= a && m <= b
    ensures m == a || m == b
  {
    if a <= b then a else b
  }

  /**
   * How much of `amount` a stack holding `current` of at most `maxStack` takes: the
   * smaller of `amount` and the free room when the stack is not full, otherwise nothing.
   */
  function StackMove(maxStack: int, current: int, amount: int): (move: int)
    ensures current >= maxStack ==> move == 0
    ensures current < maxStack && amount >= 0 ==>
      0 <= move <= amount && current + move <= maxStack &&
      (move == amount || current + move == maxStack)
    ensures current < maxStack && amount > 0 ==> move > 0
  {
    if current < maxStack then Min(amount, maxStack - current) else 0
  }

  /** Stack counts after a pass, with what is left to place. */
  datatype Fill = Fill(counts: seq<int>, remaining: int)

  /** What the first pass puts into stack `k` while `left` is still to place: nothing once all is placed or when the stack holds another definition. */
  function Take(counts: seq<int>, matches: seq<bool>, maxStack: int, k: nat, left: int): (t: int)
    requires |matches| == |counts| && k < |counts|
    ensures 0 <= t
    ensures left >= 0 ==> t <= left
    ensures counts[k] <= maxStack ==> counts[k] + t <= maxStack
  {
    if left > 0 && matches[k] then StackMove(maxStack, counts[k], left) else 0
  }

  /** What is still to place once the first pass has walked the first `i` stacks, starting with `amount`. */
  function Left(counts: seq<int>, matches: seq<bool>, maxStack: int, amount: int, i: nat): int
    requires |matches| == |counts| && i <= |counts|
  {
    if i == 0 then amount
    else
      var left := Left(counts, matches, maxStack, amount, i - 1);
      left - Take(counts, matches, maxStack, i - 1, left)
  }

  /** What stack `k` gains in the first pass placing `amount`. */
  function Gain(counts: seq<int>, matches: seq<bool>, maxStack: int, amount: int, k: nat): int
    requires |matches| == |counts| && k < |counts|
  {
    Take(counts, matches, maxStack, k, Left(counts, matches, maxStack, amount, k))
  }

  /** The counts of the first `i` stacks once the first pass has walked them. */
  function Walked(counts: seq<int>, matches: seq<bool>, maxStack: int, amount: int, i: nat): (r: seq<int>)
    requires |matches| == |counts| && i <= |counts|
    ensures |r| == i
  {
    if i == 0 then []
    else
      Walked(counts, matches, maxStack, amount, i - 1)
        + [counts[i - 1] + Take(counts, matches, maxStack, i - 1, Left(counts, matches, maxStack, amount, i - 1))]
  }

  /**
   * The first auto-loot pass over all stacks, placing `amount`: walking the stacks in
   * order, each matching stack takes what it can while something is left.
   */
  function TopUp(counts: seq<int>, matches: seq<bool>, maxStack: int, amount: int): (r: Fill)
    requires |matches| == |counts|
    ensures |r.counts| == |counts|
  {
    Fill(seq(|counts|, k requires 0 <= k < |counts| => counts[k] + Gain(counts, matches, maxStack, amount, k)),
         Left(counts, matches, maxStack, amount, |counts|))
  }

  /** Sum of a sequence of counts. */
  function Sum(s: seq<int>): int
    decreases |s|
  {
    if |s| == 0 then 0 else Sum(s[..|s| - 1]) + s[|s| - 1]
  }

  // ---------------------------------------------------------------------------
  // Lemmas
  // ---------------------------------------------------------------------------

  lemma {:induction false} SumConcat(a: seq<int>, b: seq<int>)
    ensures Sum(a + b) == Sum(a) + Sum(b)
    decreases |b|
  {
    if |b| == 0 {
      assert a + b == a;
    } else {
      var n := |b| - 1;
      assert (a + b)[..|a + b| - 1] == a + b[..n];
      SumConcat(a, b[..n]);
    }
  }

  lemma SumSingleton(x: int)
    ensures Sum([x]) == x
  {
    assert [x][..0] == [];
  }

  lemma SumCons(x: int, b: seq<int>)
    ensures Sum([x] + b) == x + Sum(b)
  {
    SumConcat([x], b);
    SumSingleton(x);
  }

  /** Changing one count changes the sum by the difference. */
  lemma SumUpdate(s: seq<int>, i: nat, v: int)
    requires i < |s|
    ensures Sum(s[i := v]) == Sum(s) - s[i] + v
  {
    var a, b := s[..i], s[i + 1..];
    assert s == a + ([s[i]] + b);
    assert s[i := v] == a + ([v] + b);
    SumConcat(a, [s[i]] + b);
    SumConcat(a, [v] + b);
    SumCons(s[i], b);
    SumCons(v, b);
  }

  /** Taking one count out lowers the sum by that count. */
  lemma SumRemove(s: seq<int>, i: nat)
    requires i < |s|
    ensures Sum(s[..i] + s[i + 1..]) == Sum(s) - s[i]
  {
    var a, b := s[..i], s[i + 1..];
    assert s == (a + [s[i]]) + b;
    SumConcat(a + [s[i]], b);
    assert (a + [s[i]])[..|a|] == a;
    SumConcat(a, b);
  }

  /** What is left to place only shrinks along the walk, and never below zero from a non-negative amount. */
  lemma {:induction false} LeftDecreases(counts: seq<int>, matches: seq<bool>, maxStack: int, amount: int, i: nat, j: nat)
    requires |matches| == |counts| && i <= j <= |counts|
    ensures Left(counts, matches, maxStack, amount, j) <= Left(counts, matches, maxStack, amount, i)
    ensures amount >= 0 ==> 0 <= Left(counts, matches, maxStack, amount, j)
    decreases j
  {
    if j > 0 {
      var left := Left(counts, matches, maxStack, amount, j - 1);
      if i < j {
        LeftDecreases(counts, matches, maxStack, amount, i, j - 1);
      } else {
        LeftDecreases(counts, matches, maxStack, amount, 0, j - 1);
      }
    }
  }

  /** Once everything is placed the pass changes nothing more. */
  lemma {:induction false} LeftSpent(counts: seq<int>, matches: seq<bool>, maxStack: int, amount: int, i: nat, j: nat)
    requires |matches| == |counts| && i <= j <= |counts|
    requires Left(counts, matches, maxStack, amount, i) <= 0
    ensures Left(counts, matches, maxStack, amount, j) == Left(counts, matches, maxStack, amount, i)
    ensures j < |counts| ==> Gain(counts, matches, maxStack, amount, j) == 0
    decreases j
  {
    if i < j {
      LeftSpent(counts, matches, maxStack, amount, i, j - 1);
    }
  }

  /** The walk gives each stack it has passed its gain. */
  lemma {:induction false} WalkedGains(counts: seq<int>, matches: seq<bool>, maxStack: int, amount: int, i: nat)
    requires |matches| == |counts| && i <= |counts|
    ensures forall k :: 0 <= k < i ==> Walked(counts, matches, maxStack, amount, i)[k] == counts[k] + Gain(counts, matches, maxStack, amount, k)
    decreases i
  {
    if i > 0 {
      WalkedGains(counts, matches, maxStack, amount, i - 1);
    }
  }

  /** One step of the walk: stack `i` takes `add` out of what is left. */
  lemma WalkStep(counts: seq<int>, matches: seq<bool>, maxStack: int, amount: int, i: nat, add: int)
    requires |matches| == |counts| && i < |counts|
    requires add == Take(counts, matches, maxStack, i, Left(counts, matches, maxStack, amount, i))
    ensures Walked(counts, matches, maxStack, amount, i + 1) == Walked(counts, matches, maxStack, amount, i) + [counts[i] + add]
    ensures Left(counts, matches, maxStack, amount, i + 1) == Left(counts, matches, maxStack, amount, i) - add
  {
  }

  /**
   * A walk of the first pass that stops at stack `i`, because it has reached the end
   * or has nothing left to place, has produced the whole pass.
   */
  lemma WalkStops(counts: seq<int>, matches: seq<bool>, maxStack: int, amount: int, i: nat)
    requires |matches| == |counts| && i <= |counts|
    requires i == |counts| || Left(counts, matches, maxStack, amount, i) <= 0
    ensures TopUp(counts, matches, maxStack, amount) ==
      Fill(Walked(counts, matches, maxStack, amount, i) + counts[i..], Left(counts, matches, maxStack, amount, i))
  {
    WalkedGains(counts, matches, maxStack, amount, i);
    if i < |counts| {
      forall k | i <= k < |counts|
        ensures Gain(counts, matches, maxStack, amount, k) == 0
      {
        LeftSpent(counts, matches, maxStack, amount, i, k);
      }
      LeftSpent(counts, matches, maxStack, amount, i, |counts|);
    }
  }

  /** The stacks walked so far gained exactly what has been taken off the amount. */
  lemma {:induction false} PrefixConserves(counts: seq<int>, matches: seq<bool>, maxStack: int, amount: int, i: nat)
    requires |matches| == |counts| && i <= |counts|
    ensures Sum(TopUp(counts, matches, maxStack, amount).counts[..i]) + Left(counts, matches, maxStack, amount, i)
      == Sum(counts[..i]) + amount
    decreases i
  {
    if i > 0 {
      var after := TopUp(counts, matches, maxStack, amount).counts;
      PrefixConserves(counts, matches, maxStack, amount, i - 1);
      assert after[..i][..i - 1] == after[..i - 1];
      assert counts[..i][..i - 1] == counts[..i - 1];
    }
  }

  /** The first pass conserves quantity: what the stacks gain is what it no longer has to place. */
  lemma TopUpConserves(counts: seq<int>, matches: seq<bool>, maxStack: int, amount: int)
    requires |matches| == |counts|
    ensures Sum(TopUp(counts, matches, maxStack, amount).counts) + TopUp(counts, matches, maxStack, amount).remaining
      == Sum(counts) + amount
  {
    PrefixConserves(counts, matches, maxStack, amount, |counts|);
    assert counts[..|counts|] == counts;
    assert TopUp(counts, matches, maxStack, amount).counts[..|counts|] == TopUp(counts, matches, maxStack, amount).counts;
  }

  /**
   * With a non-negative amount, the first pass only raises counts, raises only
   * matching stacks, never takes a stack that was within `maxStack` above it, and
   * leaves between nothing and the whole amount to place.
   */
  lemma TopUpBounds(counts: seq<int>, matches: seq<bool>, maxStack: int, amount: int)
    requires |matches| == |counts| && amount >= 0
    ensures var r := TopUp(counts, matches, maxStack, amount);
      0 <= r.remaining <= amount &&
      forall k :: 0 <= k < |counts| ==>
        counts[k] <= r.counts[k] &&
        (counts[k] <= maxStack ==> r.counts[k] <= maxStack) &&
        (!matches[k] ==> r.counts[k] == counts[k])
  {
    LeftDecreases(counts, matches, maxStack, amount, 0, |counts|);
    forall k | 0 <= k < |counts|
      ensures 0 <= Gain(counts, matches, maxStack, amount, k)
      ensures counts[k] <= maxStack ==> counts[k] + Gain(counts, matches, maxStack, amount, k) <= maxStack
    {
      LeftDecreases(counts, matches, maxStack, amount, 0, k);
    }
  }

  /** When the first pass leaves something to place, every matching stack is full. */
  lemma TopUpFillsMatching(counts: seq<int>, matches: seq<bool>, maxStack: int, amount: int)
    requires |matches| == |counts|
    requires TopUp(counts, matches, maxStack, amount).remaining > 0
    ensures forall k :: 0 <= k < |counts| && matches[k] ==> TopUp(counts, matches, maxStack, amount).counts[k] >= maxStack
  {
    forall k | 0 <= k < |counts| && matches[k]
      ensures counts[k] + Gain(counts, matches, maxStack, amount, k) >= maxStack
    {
      LeftDecreases(counts, matches, maxStack, amount, k + 1, |counts|);
      LeftDecreases(counts, matches, maxStack, amount, k, k + 1);
    }
  }
}
