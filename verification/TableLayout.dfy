/** Fitting the columns of a result table to the terminal. */
module TableLayout {
  import opened Wrappers
  import opened Sums

  const MAX_COLUMN_WIDTH := 32
  const MIN_COLUMN_WIDTH := 6

  function Capped(w: seq<nat>): (c: seq<nat>)
    ensures |c| == |w|
    ensures forall k :: 0 <= k < |w| ==> c[k] == if w[k] > 32 then 32 else w[k]
  {
    seq(|w|, k requires 0 <= k < |w| => if w[k] > MAX_COLUMN_WIDTH then MAX_COLUMN_WIDTH else w[k])
  }

  /** Space for the columns of a table with `n` columns; each gets at least one character. */
  function Available(n: nat, terminal: nat): (a: nat)
    ensures terminal >= 4 * n + 1 ==> a + 3 * n + 1 == terminal
    ensures terminal < 4 * n + 1 ==> a == n
  {
    var padding := n * 3 + 1;
    var rest := if terminal > padding then terminal - padding else 0;
    if rest < n then n else rest
  }

  // ---------------------------------------------------------------------------------------------
  // The result: widths lowered to a common level
  // ---------------------------------------------------------------------------------------------

  /** A column that was shrunk is within one of every other; among those, the ones further right shrink first. */
  ghost predicate Levelled(c: seq<nat>, w: seq<nat>) {
    && |w| == |c|
    && (forall k :: 0 <= k < |c| ==> w[k] <= c[k])
    && (forall i, j :: 0 <= i < |c| && 0 <= j < |c| && w[i] < c[i] ==> w[j] <= w[i] + 1)
    && (forall i, j :: 0 <= i < j < |c| && w[i] < w[j] ==> w[i] == c[i])
  }

  /** What the fitting of `before` to `available` characters must produce. */
  ghost predicate Fitted(before: seq<nat>, available: nat, after: seq<nat>) {
    if Sum(before) <= available then after == before
    else if Sum(Capped(before)) <= available then after == Capped(before)
    else Sum(after) == available && Levelled(Capped(before), after)
  }

  lemma {:induction false} SumOrdered(u: seq<nat>, v: seq<nat>)
    requires |u| == |v| && forall k :: 0 <= k < |u| ==> u[k] <= v[k]
    ensures Sum(u) <= Sum(v)
    ensures u != v ==> Sum(u) < Sum(v)
  {
    if u != [] {
      SumOrdered(u[1..], v[1..]);
      assert u == [u[0]] + u[1..] && v == [v[0]] + v[1..];
    }
  }

  /** Two different rows of numbers with the same sum cross. */
  lemma SumsCross(u: seq<nat>, v: seq<nat>) returns (i: nat)
    requires |u| == |v| && u != v && Sum(u) >= Sum(v)
    ensures i < |u| && u[i] > v[i]
  {
    if forall k :: 0 <= k < |u| ==> u[k] <= v[k] {
      SumOrdered(u, v);
      assert false;
    } else {
      i :| 0 <= i < |u| && u[i] > v[i];
    }
  }

  /** The rule leaves no choice: there is one levelled row of widths for each sum. */
  lemma LevelIsUnique(c: seq<nat>, u: seq<nat>, v: seq<nat>)
    requires Levelled(c, u) && Levelled(c, v) && Sum(u) == Sum(v)
    ensures u == v
  {
    if u != v {
      var j := SumsCross(u, v);
      var i := SumsCross(v, u);
      assert false;
    }
  }

  /**
   Fairness: no other way to share the same space gives a shrunk column more without taking from a column that is
   no wider than what the first one would get.
   */
  lemma LevelIsFair(c: seq<nat>, w: seq<nat>, u: seq<nat>, i: nat) returns (j: nat)
    requires Levelled(c, w) && |u| == |c| && Sum(u) <= Sum(w)
    requires i < |c| && w[i] < c[i] && w[i] < u[i]
    ensures j < |c| && u[j] < w[j] <= u[i]
  {
    j := SumsCross(w, u);
  }

  /** No column goes below the minimum width while another is above it. */
  lemma MinimumIsShared(c: seq<nat>, w: seq<nat>, i: nat, j: nat)
    requires Levelled(c, w) && i < |c| && j < |c|
    requires w[i] < c[i] && w[i] < 6
    ensures w[j] <= 6
  {
  }

  // ---------------------------------------------------------------------------------------------
  // The loop
  // ---------------------------------------------------------------------------------------------

  /** The rightmost of the widest columns. */
  ghost predicate IsLastWidest(w: seq<nat>, m: nat) {
    && m < |w|
    && (forall k :: 0 <= k < |w| ==> w[k] <= w[m])
    && (forall k :: m < k < |w| ==> w[k] < w[m])
  }

  /** `max_by_key` over the columns wider than `floor`: the last of the greatest. */
  method WidestAbove(w: array<nat>, floor: nat) returns (r: Option<nat>)
    ensures r.None? <==> forall k :: 0 <= k < w.Length ==> w[k] <= floor
    ensures r.Some? ==> IsLastWidest(w[..], r.value) && w[r.value] > floor
  {
    r := None;
    for i := 0 to w.Length
      invariant r.None? <==> forall k :: 0 <= k < i ==> w[k] <= floor
      invariant r.Some? ==> r.value < i && w[r.value] > floor
      invariant r.Some? ==> forall k :: 0 <= k < i ==> w[k] <= w[r.value]
      invariant r.Some? ==> forall k :: r.value < k < i ==> w[k] < w[r.value]
    {
      if w[i] > floor && (r.None? || w[i] >= w[r.value]) {
        r := Some(i);
      }
    }
  }

  lemma {:induction false} SumUpdate(w: seq<nat>, m: nat, x: nat)
    requires m < |w|
    ensures Sum(w[m := x]) == Sum(w) - w[m] + x
  {
    if m == 0 {
      assert w[0 := x][1..] == w[1..];
    } else {
      assert w[m := x][1..] == w[1..][m - 1 := x];
      SumUpdate(w[1..], m - 1, x);
    }
  }

  lemma {:induction false} SumOfSmall(w: seq<nat>)
    requires forall k :: 0 <= k < |w| ==> w[k] <= 1
    ensures Sum(w) <= |w|
  {
    if w != [] {
      SumOfSmall(w[1..]);
    }
  }

  lemma ShrinkKeepsLevel(c: seq<nat>, w: seq<nat>, m: nat)
    requires Levelled(c, w) && IsLastWidest(w, m) && w[m] > 0
    ensures Levelled(c, w[m := w[m] - 1])
  {
  }

  method CapAll(w: array<nat>)
    modifies w
    ensures w[..] == Capped(old(w[..]))
  {
    for i := 0 to w.Length
      invariant forall k :: 0 <= k < i ==> w[k] == Capped(old(w[..]))[k]
      invariant forall k :: i <= k < w.Length ==> w[k] == old(w[..])[k]
    {
      if w[i] > MAX_COLUMN_WIDTH {
        w[i] := MAX_COLUMN_WIDTH;
      }
    }
  }

  method SumOf(w: array<nat>) returns (total: nat)
    ensures total == Sum(w[..])
  {
    total := 0;
    var i := w.Length;
    while i > 0
      invariant 0 <= i <= w.Length
      invariant total == Sum(w[i..])
    {
      i := i - 1;
      assert w[i..][1..] == w[i + 1..];
      total := total + w[i];
    }
    assert w[0..] == w[..];
  }

  /**
   The two-tier choice of the second pass. It is always the rightmost widest column, and while the columns need
   more than `available` it exists, so the loop never gives up.
   */
  method ChooseColumn(w: array<nat>, available: nat) returns (m: nat)
    requires Sum(w[..]) > available >= w.Length
    ensures IsLastWidest(w[..], m) && w[m] > 1
  {
    var widest := WidestAbove(w, MIN_COLUMN_WIDTH);
    if widest.None? {
      widest := WidestAbove(w, 1);
    }
    if widest.None? {
      SumOfSmall(w[..]);
      assert false;
    }
    m := widest.value;
  }

  /** The two passes of the table formatter, in place. */
  method FitWidths(w: array<nat>, terminal: nat)
    modifies w
    ensures Fitted(old(w[..]), Available(w.Length, terminal), w[..])
  {
    var available := Available(w.Length, terminal);
    var total := SumOf(w);
    if total > available {
      CapAll(w);
      ghost var capped := w[..];
      total := SumOf(w);
      while total > available
        invariant total == Sum(w[..])
        invariant Levelled(capped, w[..])
        invariant Sum(capped) > available ==> total >= available
        invariant Sum(capped) <= available ==> w[..] == capped
        decreases total
      {
        ghost var before := w[..];
        var m := ChooseColumn(w, available);
        ShrinkKeepsLevel(capped, before, m);
        SumUpdate(before, m, before[m] - 1);
        w[m] := w[m] - 1;
        assert w[..] == before[m := before[m] - 1];
        total := SumOf(w);
      }
    }
  }
}
