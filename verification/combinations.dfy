/** `itertools.combinations(range(n), size)`: complete, duplicate-free, in lexicographic order. */
module Combinations {
  import opened Words

  type Indices = seq<nat>

  /** Strictly increasing positions in `low..n`. */
  predicate Increasing(indices: Indices, low: nat, n: nat) {
    && (forall k :: 0 <= k < |indices| ==> low <= indices[k] < n)
    && (forall j, k :: 0 <= j < k < |indices| ==> indices[j] < indices[k])
  }

  predicate LessAt(a: Indices, b: Indices, i: nat)
    requires i < |a| && |a| == |b|
  {
    (forall k :: 0 <= k < i ==> a[k] == b[k]) && a[i] < b[i]
  }

  ghost predicate LexLess(a: Indices, b: Indices) {
    |a| == |b| && exists i :: 0 <= i < |a| && LessAt(a, b, i)
  }

  lemma {:induction false} LexTrichotomy(a: Indices, b: Indices, from: nat)
    requires |a| == |b| && a != b && from <= |a| && forall k :: 0 <= k < from ==> a[k] == b[k]
    ensures LexLess(a, b) || LexLess(b, a)
    decreases |a| - from
  {
    if from < |a| && a[from] == b[from] {
      LexTrichotomy(a, b, from + 1);
    } else {
      assert from < |a|;
      assert LessAt(a, b, from) || LessAt(b, a, from);
    }
  }

  lemma LexAsymmetric(a: Indices, b: Indices)
    requires LexLess(a, b)
    ensures !LexLess(b, a) && a != b
  {
    var i :| 0 <= i < |a| && LessAt(a, b, i);
    forall j | 0 <= j < |a|
      ensures !LessAt(b, a, j)
    {
    }
  }

  // ---- The sequence of all combinations ----

  function Binomial(n: nat, k: nat): nat {
    if k == 0 then 1 else if n == 0 then 0 else Binomial(n - 1, k - 1) + Binomial(n - 1, k)
  }

  function PrependAll(first: nat, tails: seq<Indices>): (result: seq<Indices>)
    ensures |result| == |tails| && forall k :: 0 <= k < |tails| ==> result[k] == [first] + tails[k]
  {
    seq(|tails|, k requires 0 <= k < |tails| => [first] + tails[k])
  }

  /** All increasing index lists of a size in `low..n`: first those that start with `low`. */
  function Enumerate(low: nat, n: nat, size: nat): (all: seq<Indices>)
    requires low <= n
    ensures |all| == Binomial(n - low, size)
    decreases n - low
  {
    if size == 0 then [[]]
    else if low == n then []
    else PrependAll(low, Enumerate(low + 1, n, size - 1)) + Enumerate(low + 1, n, size)
  }

  lemma EnumerateNothing(low: nat, n: nat)
    requires low <= n
    ensures Enumerate(low, n, 0) == [[]]
  {
  }

  lemma EnumerateSplits(low: nat, n: nat, size: nat, t: nat)
    requires low <= n && 0 < size && t < |Enumerate(low, n, size)|
    ensures low < n
    ensures var with := Enumerate(low + 1, n, size - 1); var without := Enumerate(low + 1, n, size);
      if t < |with| then Enumerate(low, n, size)[t] == [low] + with[t]
      else t - |with| < |without| && Enumerate(low, n, size)[t] == without[t - |with|]
  {
  }

  lemma {:induction false} EnumeratedAreIncreasing(low: nat, n: nat, size: nat, t: nat)
    requires low <= n && t < |Enumerate(low, n, size)|
    ensures var indices := Enumerate(low, n, size)[t]; |indices| == size && Increasing(indices, low, n)
    decreases n - low
  {
    hide Enumerate, Binomial;
    EnumerateNothing(low, n);
    if size > 0 {
      EnumerateSplits(low, n, size, t);
      var with := Enumerate(low + 1, n, size - 1);
      if t < |with| {
        EnumeratedAreIncreasing(low + 1, n, size - 1, t);
      } else {
        EnumeratedAreIncreasing(low + 1, n, size, t - |with|);
      }
    }
  }

  lemma IncreasingSplits(indices: Indices, low: nat, n: nat)
    requires indices != [] && Increasing(indices, low, n)
    ensures low < n
    ensures if indices[0] == low then Increasing(indices[1..], low + 1, n) else Increasing(indices, low + 1, n)
    ensures indices == [indices[0]] + indices[1..]
  {
  }

  /** Complete: every increasing list of the size occurs. */
  lemma {:induction false} EveryIncreasingListOccurs(low: nat, n: nat, indices: Indices) returns (t: nat)
    requires low <= n && Increasing(indices, low, n)
    ensures t < |Enumerate(low, n, |indices|)| && Enumerate(low, n, |indices|)[t] == indices
    decreases n - low
  {
    hide Increasing, Binomial;
    if indices == [] {
      t := 0;
    } else {
      IncreasingSplits(indices, low, n);
      if indices[0] == low {
        t := EveryIncreasingListOccurs(low + 1, n, indices[1..]);
      } else {
        var rest := EveryIncreasingListOccurs(low + 1, n, indices);
        t := |Enumerate(low + 1, n, |indices| - 1)| + rest;
      }
    }
  }

  lemma PrependKeepsOrder(first: nat, a: Indices, b: Indices)
    requires LexLess(a, b)
    ensures LexLess([first] + a, [first] + b)
  {
    var i :| 0 <= i < |a| && LessAt(a, b, i);
    assert LessAt([first] + a, [first] + b, i + 1);
  }

  lemma LowestFirstIsLess(a: Indices, b: Indices, low: nat, n: nat)
    requires |a| == |b| > 0 && a[0] == low && Increasing(b, low + 1, n)
    ensures LexLess(a, b)
  {
    assert LessAt(a, b, 0);
  }

  /** Lexicographic and duplicate-free: each list is strictly below every later one. */
  lemma {:induction false} EnumeratedInOrder(low: nat, n: nat, size: nat, s: nat, t: nat)
    requires low <= n && s < t < |Enumerate(low, n, size)|
    ensures LexLess(Enumerate(low, n, size)[s], Enumerate(low, n, size)[t])
    decreases n - low
  {
    hide LexLess, LessAt, Increasing, Enumerate, Binomial;
    EnumerateNothing(low, n);
    if size > 0 {
      EnumerateSplits(low, n, size, s);
      EnumerateSplits(low, n, size, t);
      var with, without := Enumerate(low + 1, n, size - 1), Enumerate(low + 1, n, size);
      if t < |with| {
        EnumeratedInOrder(low + 1, n, size - 1, s, t);
        PrependKeepsOrder(low, with[s], with[t]);
      } else if |with| <= s {
        EnumeratedInOrder(low + 1, n, size, s - |with|, t - |with|);
      } else {
        EnumeratedAreIncreasing(low + 1, n, size - 1, s);
        EnumeratedAreIncreasing(low + 1, n, size, t - |with|);
        LowestFirstIsLess([low] + with[s], without[t - |with|], low, n);
      }
    }
  }

  // ---- The successor step ----

  /** `next` is the least increasing list above `indices`; `None` means there is none. */
  ghost predicate IsSuccessor(indices: Indices, next: Option<Indices>, n: nat) {
    match next
    case None => forall c: Indices :: |c| == |indices| && Increasing(c, 0, n) ==> !LexLess(indices, c)
    case Some(b) =>
      && |b| == |indices| && Increasing(b, 0, n) && LexLess(indices, b)
      && forall c: Indices :: |c| == |indices| && Increasing(c, 0, n) && LexLess(indices, c) ==> c == b || LexLess(b, c)
  }

  /** Everything from position `i` on is as large as it can be. */
  predicate Saturated(indices: Indices, i: nat, n: nat) {
    forall k :: i <= k < |indices| ==> indices[k] == k + n - |indices|
  }

  lemma {:induction false} IncreasingBound(c: Indices, k: nat, n: nat)
    requires Increasing(c, 0, n) && k < |c|
    ensures c[k] + |c| <= k + n
    decreases |c| - k
  {
    if k + 1 < |c| {
      IncreasingBound(c, k + 1, n);
    }
  }

  lemma SaturatedCannotGrow(indices: Indices, c: Indices, i: nat, j: nat, n: nat)
    requires |c| == |indices| && Increasing(c, 0, n) && Saturated(indices, i, n)
    requires j < |indices| && LessAt(indices, c, j)
    ensures j < i
  {
    IncreasingBound(c, j, n);
  }

  /** One more than the position before, from `i` on. */
  predicate Tight(b: Indices, i: nat) {
    forall k :: i < k < |b| ==> b[k] == b[i] + (k - i)
  }

  lemma {:induction false} SpreadOut(c: Indices, i: nat, j: nat, n: nat)
    requires Increasing(c, 0, n) && i <= j < |c|
    ensures c[i] + (j - i) <= c[j]
    decreases j
  {
    if i < j {
      SpreadOut(c, i, j - 1, n);
    }
  }

  lemma TightIsLeast(b: Indices, c: Indices, i: nat, n: nat)
    requires i < |b| == |c| && Increasing(c, 0, n) && Tight(b, i) && b[i] <= c[i] && b != c
    requires forall k :: 0 <= k < i ==> b[k] == c[k]
    ensures LexLess(b, c)
  {
    LexTrichotomy(b, c, 0);
    forall j | 0 <= j < |b|
      ensures !LessAt(c, b, j)
    {
      if i < j {
        SpreadOut(c, i, j, n);
      }
    }
  }

  lemma NothingAbove(indices: Indices, n: nat)
    requires Saturated(indices, 0, n)
    ensures IsSuccessor(indices, None, n)
  {
    forall c: Indices | |c| == |indices| && Increasing(c, 0, n)
      ensures !LexLess(indices, c)
    {
      forall j | 0 <= j < |indices|
        ensures !LessAt(indices, c, j)
      {
        IncreasingBound(c, j, n);
      }
    }
  }

  lemma GrownIsSuccessor(indices: Indices, b: Indices, i: nat, n: nat)
    requires Increasing(indices, 0, n) && i < |indices| == |b| <= n && Saturated(indices, i + 1, n)
    requires indices[i] + 1 + |indices| <= i + n
    requires b[i] == indices[i] + 1 && Tight(b, i) && forall k :: 0 <= k < i ==> b[k] == indices[k]
    ensures IsSuccessor(indices, Some(b), n)
  {
    assert LessAt(indices, b, i);
    assert Increasing(b, 0, n);
    forall c: Indices | |c| == |indices| && Increasing(c, 0, n) && LexLess(indices, c)
      ensures c == b || LexLess(b, c)
    {
      var j :| 0 <= j < |indices| && LessAt(indices, c, j);
      SaturatedCannotGrow(indices, c, i + 1, j, n);
      if j == i {
        if c != b {
          TightIsLeast(b, c, i, n);
        }
      } else {
        assert LessAt(b, c, j);
      }
    }
  }

  /** One step of the generator: find the rightmost position that can still grow, grow it, and pack the
      positions after it tightly. */
  method NextCombination(indices: Indices, n: nat) returns (next: Option<Indices>)
    requires |indices| <= n && Increasing(indices, 0, n)
    ensures IsSuccessor(indices, next, n)
  {
    var r := |indices|;
    var i: nat := r;
    while i > 0 && indices[i - 1] == i - 1 + n - r
      invariant i <= r && Saturated(indices, i, n)
    {
      i := i - 1;
    }
    if i == 0 {
      NothingAbove(indices, n);
      return None;
    }
    i := i - 1;
    IncreasingBound(indices, i, n);
    var b := indices[i := indices[i] + 1];
    for j := i + 1 to r
      invariant |b| == r && b[i] == indices[i] + 1 && forall k :: 0 <= k < i ==> b[k] == indices[k]
      invariant forall k :: i < k < j ==> b[k] == b[i] + (k - i)
    {
      b := b[j := b[j - 1] + 1];
    }
    GrownIsSuccessor(indices, b, i, n);
    next := Some(b);
  }

  lemma OrderIsReflected(n: nat, size: nat, s: nat, t: nat)
    requires s < |Enumerate(0, n, size)| && t < |Enumerate(0, n, size)|
    requires LexLess(Enumerate(0, n, size)[s], Enumerate(0, n, size)[t])
    ensures s < t
  {
    hide LexLess;
    LexAsymmetric(Enumerate(0, n, size)[s], Enumerate(0, n, size)[t]);
    if t < s {
      EnumeratedInOrder(0, n, size, t, s);
    }
  }

  lemma SuccessorIsBelow(indices: Indices, next: Option<Indices>, c: Indices, n: nat)
    requires IsSuccessor(indices, next, n) && |c| == |indices| && Increasing(c, 0, n) && LexLess(indices, c)
    ensures next.Some? && (c == next.value || LexLess(next.value, c))
  {
    hide LexLess, Increasing;
  }

  lemma SuccessorIsAbove(indices: Indices, next: Indices, n: nat)
    requires IsSuccessor(indices, Some(next), n)
    ensures |next| == |indices| && Increasing(next, 0, n) && LexLess(indices, next)
  {
    hide LexLess, Increasing;
  }

  /** The successor step walks the enumeration. */
  lemma SuccessorIsNextInEnumeration(n: nat, size: nat, t: nat, next: Option<Indices>)
    requires t < |Enumerate(0, n, size)| && IsSuccessor(Enumerate(0, n, size)[t], next, n)
    ensures next == if t + 1 < |Enumerate(0, n, size)| then Some(Enumerate(0, n, size)[t + 1]) else None
  {
    hide LexLess, Increasing, IsSuccessor, Enumerate, Binomial;
    var all := Enumerate(0, n, size);
    EnumeratedAreIncreasing(0, n, size, t);
    if t + 1 < |all| {
      EnumeratedAreIncreasing(0, n, size, t + 1);
      EnumeratedInOrder(0, n, size, t, t + 1);
      SuccessorIsBelow(all[t], next, all[t + 1], n);
    }
    if next.Some? {
      SuccessorIsAbove(all[t], next.value, n);
      var u := EveryIncreasingListOccurs(0, n, next.value);
      OrderIsReflected(n, size, t, u);
      if next.value != all[t + 1] {
        OrderIsReflected(n, size, u, t + 1);
      }
    }
  }

  /** The generator starts at `range(size)`, the first combination. */
  lemma {:induction false} FirstCombination(low: nat, n: nat, size: nat)
    requires low + size <= n
    ensures |Enumerate(low, n, size)| > 0 && Enumerate(low, n, size)[0] == seq(size, k => low + k)
    decreases n - low
  {
    if size > 0 {
      FirstCombination(low + 1, n, size - 1);
      assert [low] + seq(size - 1, k => low + 1 + k) == seq(size, k => low + k);
    }
  }

  // ---- Counting ----

  function Power2(n: nat): nat { if n == 0 then 1 else 2 * Power2(n - 1) }

  /** Binomials of row `n` up to and including column `k`. */
  function RowSum(n: nat, k: nat): nat {
    Binomial(n, k) + if k == 0 then 0 else RowSum(n, k - 1)
  }

  lemma {:induction false} BinomialBeyondRow(n: nat, k: nat)
    requires k > n
    ensures Binomial(n, k) == 0
  {
    if n > 0 {
      BinomialBeyondRow(n - 1, k - 1);
      BinomialBeyondRow(n - 1, k);
    }
  }

  lemma {:induction false} RowSumSplits(n: nat, k: nat)
    requires n > 0 && k > 0
    ensures RowSum(n, k) == RowSum(n - 1, k) + RowSum(n - 1, k - 1)
    decreases k
  {
    if k > 1 {
      RowSumSplits(n, k - 1);
    }
  }

  lemma {:induction false} RowSumsToPower(n: nat)
    ensures RowSum(n, n) == Power2(n)
  {
    if n > 0 {
      RowSumsToPower(n - 1);
      RowSumSplits(n, n);
      BinomialBeyondRow(n - 1, n);
    }
  }
}
