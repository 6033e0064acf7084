/** Smooth weighted round robin: conservation, bounds and exact shares. */
module Swrr {

  function Sum(xs: seq<int>): int {
    if xs == [] then 0 else Sum(xs[..|xs| - 1]) + xs[|xs| - 1]
  }

  /** The weight a node competes with: none if it is not eligible. */
  function Effective(ws: seq<int>, eligible: seq<bool>): (es: seq<int>)
    requires |ws| == |eligible|
    ensures |es| == |ws|
  {
    seq(|ws|, i requires 0 <= i < |ws| => if eligible[i] then ws[i] else 0)
  }

  function Plus(xs: seq<int>, ys: seq<int>): (zs: seq<int>)
    requires |xs| == |ys|
    ensures |zs| == |xs|
  {
    seq(|xs|, i requires 0 <= i < |xs| => xs[i] + ys[i])
  }

  /** One selection: who was chosen (or -1) and the current weights it leaves. */
  datatype Choice = Choice(best: int, current: seq<int>)

  /** Every eligible node is raised by its weight; one with the highest current weight pays back the total. */
  ghost predicate IsSelection(ws: seq<int>, eligible: seq<bool>, cs: seq<int>, c: Choice)
    requires |ws| == |eligible| == |cs|
  {
    var raised := Plus(cs, Effective(ws, eligible));
    if c.best == -1 then
      c.current == raised && forall i | 0 <= i < |cs| :: !eligible[i]
    else
      && 0 <= c.best < |cs| && eligible[c.best]
      && c.current == raised[c.best := raised[c.best] - Sum(Effective(ws, eligible))]
      && forall i | 0 <= i < |cs| && eligible[i] :: raised[i] <= raised[c.best]
  }

  /** A way of selecting that goes by the current weights alone, however it breaks ties. */
  ghost predicate Selects(pick: seq<int> -> Choice, ws: seq<int>, eligible: seq<bool>) {
    |ws| == |eligible| && forall cs :: |cs| == |ws| ==> IsSelection(ws, eligible, cs, pick(cs))
  }

  // ----- Sums -----

  lemma {:induction false} SumPlus(xs: seq<int>, ys: seq<int>)
    requires |xs| == |ys|
    ensures Sum(Plus(xs, ys)) == Sum(xs) + Sum(ys)
  {
    if xs != [] {
      var n := |xs| - 1;
      SumPlus(xs[..n], ys[..n]);
      assert Plus(xs, ys)[..n] == Plus(xs[..n], ys[..n]);
    }
  }

  lemma {:induction false} SumUpdate(xs: seq<int>, i: nat, v: int)
    requires i < |xs|
    ensures Sum(xs[i := v]) == Sum(xs) - xs[i] + v
  {
    var n := |xs| - 1;
    if i < n {
      SumUpdate(xs[..n], i, v);
      assert xs[i := v][..n] == xs[..n][i := v];
    } else {
      assert xs[i := v][..n] == xs[..n];
    }
  }

  lemma {:induction false} SumAtMost(xs: seq<int>, ys: seq<int>)
    requires |xs| == |ys| && forall i | 0 <= i < |xs| :: xs[i] <= ys[i]
    ensures Sum(xs) <= Sum(ys)
    ensures Sum(xs) == Sum(ys) ==> xs == ys
  {
    if xs != [] {
      var n := |xs| - 1;
      SumAtMost(xs[..n], ys[..n]);
      assert xs == xs[..n] + [xs[n]] && ys == ys[..n] + [ys[n]];
    }
  }

  function Zeros(n: nat): (z: seq<int>)
    ensures |z| == n
  {
    seq(n, _ => 0)
  }

  lemma {:induction false} SumZeros(n: nat)
    ensures Sum(Zeros(n)) == 0
  {
    if n > 0 {
      SumZeros(n - 1);
      assert Zeros(n)[..n - 1] == Zeros(n - 1);
    }
  }

  // ----- Every selection -----

  lemma SelectionShape(ws: seq<int>, eligible: seq<bool>, cs: seq<int>, c: Choice)
    requires |ws| == |eligible| == |cs| && IsSelection(ws, eligible, cs, c)
    ensures var es := Effective(ws, eligible);
            var raised := Plus(cs, es);
            if c.best == -1 then c.current == raised && Sum(es) == 0
            else 0 <= c.best < |cs| && c.current == raised[c.best := raised[c.best] - Sum(es)]
  {
    if c.best == -1 {
      NoneEligible(ws, eligible);
    }
  }

  /** Whoever is alive and whatever the weights, a selection preserves the sum of all current weights. */
  lemma SelectionConserves(ws: seq<int>, eligible: seq<bool>, cs: seq<int>, c: Choice)
    requires |ws| == |eligible| == |cs| && IsSelection(ws, eligible, cs, c)
    ensures |c.current| == |cs| && Sum(c.current) == Sum(cs)
  {
    hide IsSelection, Effective, Plus, Sum;
    SelectionShape(ws, eligible, cs, c);
    var es := Effective(ws, eligible);
    var raised := Plus(cs, es);
    SumPlus(cs, es);
    if c.best >= 0 {
      SumUpdate(raised, c.best, raised[c.best] - Sum(es));
    }
  }

  lemma NoneEligible(ws: seq<int>, eligible: seq<bool>)
    requires |ws| == |eligible| && forall i | 0 <= i < |ws| :: !eligible[i]
    ensures Sum(Effective(ws, eligible)) == 0
  {
    assert Effective(ws, eligible) == Zeros(|ws|);
    SumZeros(|ws|);
  }

  const PANIC_PERCENT := 20

  function CountTrue(bs: seq<bool>): (n: nat)
    ensures n <= |bs|
  {
    if bs == [] then 0 else CountTrue(bs[..|bs| - 1]) + (if bs[|bs| - 1] then 1 else 0)
  }

  /** With too few nodes alive the health checks are distrusted and every node is eligible. */
  predicate PanicMode(alive: seq<bool>)
    requires alive != []
  {
    CountTrue(alive) * 100 / |alive| < PANIC_PERCENT
  }

  function Eligible(alive: seq<bool>): (e: seq<bool>)
    requires alive != []
    ensures |e| == |alive|
  {
    seq(|alive|, i requires 0 <= i < |alive| => alive[i] || PanicMode(alive))
  }

  lemma {:induction false} CountTrueIs(bs: seq<bool>)
    ensures CountTrue(bs) == multiset(bs)[true]
  {
    if bs != [] {
      CountTrueIs(bs[..|bs| - 1]);
      assert bs == bs[..|bs| - 1] + [bs[|bs| - 1]];
    }
  }

  /** Too few means fewer than one in five. */
  lemma PanicExactly(alive: seq<bool>)
    requires alive != []
    ensures PanicMode(alive) <==> 5 * multiset(alive)[true] < |alive|
  {
    CountTrueIs(alive);
    QuotientBelow(CountTrue(alive) * 100, |alive|, 20);
  }

  lemma QuotientBelow(x: nat, n: nat, c: nat)
    requires n > 0
    ensures x / n < c <==> x < c * n
  {
    var q := x / n;
    Quotient(x, n);
    if q < c {
      MulLe(q + 1, c, n);
      Times(n, q, 1);
    } else {
      MulLe(c, q, n);
    }
  }

  lemma Quotient(x: nat, n: nat)
    requires n > 0
    ensures x / n * n <= x < x / n * n + n
  {
  }

  lemma MulLe(a: nat, b: nat, n: nat)
    requires a <= b
    ensures a * n <= b * n
  {
  }

  /** In a non-empty group someone is always eligible. */
  lemma AlwaysEligible(alive: seq<bool>) returns (i: nat)
    requires alive != []
    ensures i < |alive| && Eligible(alive)[i]
  {
    if PanicMode(alive) {
      i := 0;
    } else {
      assert CountTrue(alive) > 0;
      i := SomeTrue(alive);
    }
  }

  lemma {:induction false} SomeTrue(bs: seq<bool>) returns (i: nat)
    requires CountTrue(bs) > 0
    ensures i < |bs| && bs[i]
  {
    if bs[|bs| - 1] {
      i := |bs| - 1;
    } else {
      i := SomeTrue(bs[..|bs| - 1]);
    }
  }

  // ----- Runs with a fixed eligible set -----

  /** The current weights after `t` selections. */
  function Run(pick: seq<int> -> Choice, cs: seq<int>, t: nat): seq<int> {
    if t == 0 then cs else pick(Run(pick, cs, t - 1)).current
  }

  /** How often each node was chosen in `t` selections. */
  function Chosen(pick: seq<int> -> Choice, cs: seq<int>, t: nat): (ns: seq<int>)
    ensures |ns| == |cs|
  {
    if t == 0 then Zeros(|cs|) else
    var ns, b := Chosen(pick, cs, t - 1), pick(Run(pick, cs, t - 1)).best;
    if 0 <= b < |ns| then ns[b := ns[b] + 1] else ns
  }

  /** A group that can be balanced: no negative weights, and a positive total among the eligible. */
  ghost predicate Balanced(ws: seq<int>, eligible: seq<bool>) {
    && |ws| == |eligible|
    && (forall i | 0 <= i < |ws| :: ws[i] >= 0)
    && Sum(Effective(ws, eligible)) > 0
  }

  /** What current weights satisfy between selections that started from zero. */
  ghost predicate InBounds(ws: seq<int>, eligible: seq<bool>, cs: seq<int>)
    requires |ws| == |eligible|
  {
    && |cs| == |ws| && Sum(cs) == 0
    && forall i | 0 <= i < |cs| :: cs[i] > -Sum(Effective(ws, eligible)) && (!eligible[i] ==> cs[i] == 0)
  }

  lemma SelectionInBounds(ws: seq<int>, eligible: seq<bool>, cs: seq<int>, c: Choice)
    requires Balanced(ws, eligible) && InBounds(ws, eligible, cs) && IsSelection(ws, eligible, cs, c)
    ensures InBounds(ws, eligible, c.current) && c.best >= 0
  {
    var es := Effective(ws, eligible);
    var raised := Plus(cs, es);
    SelectionConserves(ws, eligible, cs, c);
    SumPlus(cs, es);
    if c.best < 0 || raised[c.best] <= 0 {
      assert forall i | 0 <= i < |cs| :: raised[i] <= Zeros(|cs|)[i];
      SumAtMost(raised, Zeros(|cs|));
      SumZeros(|cs|);
      assert false;
    }
  }

  lemma SelectionEffect(ws: seq<int>, eligible: seq<bool>, cs: seq<int>, c: Choice, i: nat)
    requires |ws| == |eligible| == |cs| && i < |cs| && IsSelection(ws, eligible, cs, c)
    ensures var es := Effective(ws, eligible);
            |c.current| == |cs| && c.current[i] == cs[i] + es[i] - (if c.best == i then Sum(es) else 0)
  {
  }

  lemma ChosenStep(pick: seq<int> -> Choice, cs: seq<int>, t: nat)
    requires t > 0 && 0 <= pick(Run(pick, cs, t - 1)).best < |cs|
    ensures Sum(Chosen(pick, cs, t)) == Sum(Chosen(pick, cs, t - 1)) + 1
  {
    hide Run, Sum;
    var ns, b := Chosen(pick, cs, t - 1), pick(Run(pick, cs, t - 1)).best;
    SumUpdate(ns, b, ns[b] + 1);
  }

  lemma BalanceStep(pick: seq<int> -> Choice, ws: seq<int>, eligible: seq<bool>, cs: seq<int>, t: nat, i: nat)
    requires t > 0 && |ws| == |eligible| == |cs| && i < |cs| && Balance(pick, ws, eligible, cs, t - 1, i)
    requires IsSelection(ws, eligible, Run(pick, cs, t - 1), pick(Run(pick, cs, t - 1)))
    ensures Balance(pick, ws, eligible, cs, t, i)
  {
    hide IsSelection, Effective, Sum;
    var before, ns := Run(pick, cs, t - 1), Chosen(pick, cs, t - 1);
    var es := Effective(ws, eligible);
    SelectionEffect(ws, eligible, before, pick(before), i);
    Times(es[i], t, 1);
    Times(Sum(es), ns[i], 1);
    assert Chosen(pick, cs, t)[i] == if i == pick(before).best then ns[i] + 1 else ns[i];
  }

  ghost predicate Balance(pick: seq<int> -> Choice, ws: seq<int>, eligible: seq<bool>, cs: seq<int>, t: nat, i: nat)
    requires |ws| == |eligible| == |cs| && i < |cs|
  {
    var es, n := Effective(ws, eligible), Chosen(pick, cs, t)[i];
    |Run(pick, cs, t)| == |cs| && Run(pick, cs, t)[i] == cs[i] + es[i] * t - Sum(es) * n
  }

  /** What holds after `t` selections: each current weight is the due share less what the node was given. */
  ghost predicate Accounted(pick: seq<int> -> Choice, ws: seq<int>, eligible: seq<bool>, cs: seq<int>, t: nat)
    requires |ws| == |eligible| == |cs|
  {
    && InBounds(ws, eligible, Run(pick, cs, t)) && Sum(Chosen(pick, cs, t)) == t
    && forall i | 0 <= i < |cs| :: Balance(pick, ws, eligible, cs, t, i)
  }

  lemma {:induction false} RunBalance(pick: seq<int> -> Choice, ws: seq<int>, eligible: seq<bool>, cs: seq<int>, t: nat)
    requires Selects(pick, ws, eligible) && Balanced(ws, eligible) && InBounds(ws, eligible, cs)
    ensures Accounted(pick, ws, eligible, cs, t)
  {
    if t == 0 {
      SumZeros(|cs|);
    } else {
      assert |ws| == |cs|;
      hide Selects, Balanced, InBounds, Accounted;
      RunBalance(pick, ws, eligible, cs, t - 1);
      StepBalance(pick, ws, eligible, cs, t);
    }
  }

  lemma SelectsAt(pick: seq<int> -> Choice, ws: seq<int>, eligible: seq<bool>, cs: seq<int>)
    requires Selects(pick, ws, eligible) && |cs| == |ws|
    ensures IsSelection(ws, eligible, cs, pick(cs))
  {
  }

  lemma StepBalance(pick: seq<int> -> Choice, ws: seq<int>, eligible: seq<bool>, cs: seq<int>, t: nat)
    requires t > 0 && |ws| == |cs| && Selects(pick, ws, eligible) && Balanced(ws, eligible)
    requires Accounted(pick, ws, eligible, cs, t - 1)
    ensures Accounted(pick, ws, eligible, cs, t)
  {
    hide Selects, IsSelection, Effective, Plus, Sum, Balance;
    var before := Run(pick, cs, t - 1);
    SelectsAt(pick, ws, eligible, before);
    SelectionInBounds(ws, eligible, before, pick(before));
    SelectionShape(ws, eligible, before, pick(before));
    hide InBounds;
    ChosenStep(pick, cs, t);
    hide Chosen;
    forall i | 0 <= i < |cs| ensures Balance(pick, ws, eligible, cs, t, i) {
      assert Balance(pick, ws, eligible, cs, t - 1, i);
      BalanceStep(pick, ws, eligible, cs, t, i);
    }
  }

  lemma Times(k: int, a: int, b: int)
    ensures k * (a + b) == k * a + k * b && k * (a - b) == k * a - k * b
  {
  }

  lemma NotAbove(k: int, a: int, b: int)
    requires k > 0 && k * a - k * b > -k
    ensures b <= a
  {
    Times(k, a, b);
    if a - b < 0 {
      Negative(k, a - b);
    }
  }

  lemma Negative(k: int, d: int)
    requires k > 0 && d < 0
    ensures k * d <= -k
  {
  }

  /** One cycle: as many selections as the total weight give each node exactly its weight, and end at zero. */
  lemma CycleIsFair(pick: seq<int> -> Choice, ws: seq<int>, eligible: seq<bool>)
    requires Selects(pick, ws, eligible) && Balanced(ws, eligible)
    ensures var es, z := Effective(ws, eligible), Zeros(|ws|);
            Chosen(pick, z, Sum(es)) == es && Run(pick, z, Sum(es)) == z
  {
    hide Run, Chosen, Effective, Selects;
    var es, z := Effective(ws, eligible), Zeros(|ws|);
    var total: nat := Sum(es);
    ZerosInBounds(ws, eligible);
    RunBalance(pick, ws, eligible, z, total);
    var ns, cs := Chosen(pick, z, total), Run(pick, z, total);
    forall i | 0 <= i < |ws| ensures ns[i] <= es[i] {
      assert Balance(pick, ws, eligible, z, total, i);
      NotAbove(total, es[i], ns[i]);
    }
    SumAtMost(ns, es);
    forall i | 0 <= i < |ws| ensures cs[i] == 0 {
      assert Balance(pick, ws, eligible, z, total, i);
    }
  }

  lemma ZerosInBounds(ws: seq<int>, eligible: seq<bool>)
    requires Balanced(ws, eligible)
    ensures InBounds(ws, eligible, Zeros(|ws|))
  {
    SumZeros(|ws|);
  }

  lemma {:induction false} RunSplit(pick: seq<int> -> Choice, cs: seq<int>, a: nat, b: nat)
    ensures Run(pick, cs, a + b) == Run(pick, Run(pick, cs, a), b)
    decreases b
  {
    if b > 0 {
      RunSplit(pick, cs, a, b - 1);
    }
  }

  /** Exact shares: any window of consecutive selections as long as the total weight gives each node its weight. */
  lemma EveryWindowIsFair(pick: seq<int> -> Choice, ws: seq<int>, eligible: seq<bool>, t: nat)
    requires Selects(pick, ws, eligible) && Balanced(ws, eligible)
    ensures var es := Effective(ws, eligible);
            Chosen(pick, Run(pick, Zeros(|ws|), t), Sum(es)) == es
  {
    hide Run, Chosen, Effective, Selects;
    var es, z := Effective(ws, eligible), Zeros(|ws|);
    var total: nat := Sum(es);
    ZerosInBounds(ws, eligible);
    RunBalance(pick, ws, eligible, z, t);
    var cs := Run(pick, z, t);
    RunBalance(pick, ws, eligible, cs, total);
    CycleIsFair(pick, ws, eligible);
    RunSplit(pick, z, total, t);
    RunSplit(pick, z, t, total);
    var ns := Chosen(pick, cs, total);
    forall i | 0 <= i < |ws| ensures ns[i] == es[i] {
      assert Balance(pick, ws, eligible, cs, total, i);
      NotAbove(total, es[i], ns[i]);
      NotAbove(total, ns[i], es[i]);
    }
  }

  /**
   * After `t` selections among `m` nodes of weight `total`, one of weight `w` has been chosen `n` times and has the
   * current weight `c`: it is not a whole selection ahead, and its lag is bounded.
   */
  ghost predicate IsSmooth(total: int, m: int, w: int, t: nat, c: int, n: int) {
    && -total < c <= (m - 1) * (total - 1)
    && total * n < w * t + total
    && total * n >= w * t - (m - 1) * (total - 1)
  }

  /** At every moment no node is a whole selection ahead of its share, and its lag is bounded. */
  lemma Smooth(pick: seq<int> -> Choice, ws: seq<int>, eligible: seq<bool>, t: nat, i: nat)
    requires Selects(pick, ws, eligible) && Balanced(ws, eligible) && i < |ws| && eligible[i]
    ensures var total, m := Sum(Effective(ws, eligible)), CountTrue(eligible);
            var cs, n := Run(pick, Zeros(|ws|), t), Chosen(pick, Zeros(|ws|), t)[i];
            |cs| == |ws| && IsSmooth(total, m, ws[i], t, cs[i], n)
  {
    hide Run, Chosen, Selects;
    ZerosInBounds(ws, eligible);
    RunBalance(pick, ws, eligible, Zeros(|ws|), t);
    assert Balance(pick, ws, eligible, Zeros(|ws|), t, i);
    OthersBelow(Run(pick, Zeros(|ws|), t), eligible, Sum(Effective(ws, eligible)) - 1, i);
  }

  /** If the others are each at least `-low`, one entry of a sum is at most the sum plus what they may lack. */
  lemma {:induction false} OthersBelow(cs: seq<int>, eligible: seq<bool>, low: int, i: nat)
    requires low >= 0 && |cs| == |eligible| && i < |cs| && eligible[i]
    requires forall j | 0 <= j < |cs| :: cs[j] >= (if eligible[j] then -low else 0)
    ensures CountTrue(eligible) >= 1 && cs[i] <= Sum(cs) + (CountTrue(eligible) - 1) * low
  {
    var n := |cs| - 1;
    assert Sum(cs) == Sum(cs[..n]) + cs[n];
    assert CountTrue(eligible) == CountTrue(eligible[..n]) + (if eligible[n] then 1 else 0);
    hide Sum, CountTrue;
    if i < n {
      OthersBelow(cs[..n], eligible[..n], low, i);
      Times(low, CountTrue(eligible[..n]) - 1, 1);
    } else {
      AllAbove(cs[..n], eligible[..n], low);
    }
  }

  lemma {:induction false} AllAbove(cs: seq<int>, eligible: seq<bool>, low: int)
    requires low >= 0 && |cs| == |eligible|
    requires forall j | 0 <= j < |cs| :: cs[j] >= (if eligible[j] then -low else 0)
    ensures Sum(cs) >= -(CountTrue(eligible) * low)
  {
    if cs != [] {
      var n := |cs| - 1;
      AllAbove(cs[..n], eligible[..n], low);
      Times(low, CountTrue(eligible[..n]), 1);
    }
  }
}
