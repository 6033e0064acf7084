/** The weighted selection loop over a group of nodes, which may list a node more than once. */
module Selection {
  import opened Swrr

  datatype Option<T> = None | Some(value: T)

  /** The loop's variables: the best node so far, the weight raised so far and the current weights. */
  datatype Progress<N> = Progress(best: Option<N>, total: int, current: map<N, int>)

  ghost predicate Covers<N>(m: map<N, int>, group: seq<N>) {
    forall n :: n in group ==> n in m
  }

  /** The loop: raise each eligible node listed by its weight, and remember the first of the highest. */
  function Scan<N(==)>(group: seq<N>, weight: map<N, int>, eligible: set<N>, current: map<N, int>): (p: Progress<N>)
    requires Covers(weight, group) && Covers(current, group)
    ensures p.current.Keys == current.Keys
    ensures if p.best.Some? then p.best.value in group && p.best.value in eligible
            else forall n :: n in group ==> n !in eligible
  {
    if group == [] then Progress(None, 0, current) else
    var n := group[|group| - 1];
    var p := Scan(group[..|group| - 1], weight, eligible, current);
    if n in eligible then Raised(p, n, weight[n]) else p
  }

  /** The loop body for an eligible node. */
  function Raised<N(==)>(p: Progress<N>, n: N, weight: int): Progress<N>
    requires n in p.current && (p.best.Some? ==> p.best.value in p.current)
  {
    var raised := p.current[n := p.current[n] + weight];
    Progress(if p.best.None? || raised[n] > raised[p.best.value] then Some(n) else p.best, p.total + weight, raised)
  }

  /** The loop after its first `i` turns. */
  ghost function ScanUpTo<N>(group: seq<N>, i: nat, weight: map<N, int>, eligible: set<N>, current: map<N, int>)
    : (p: Progress<N>)
    requires i <= |group| && Covers(weight, group) && Covers(current, group)
    ensures p.current.Keys == current.Keys && (p.best.Some? ==> p.best.value in group)
  {
    Scan(group[..i], weight, eligible, current)
  }

  lemma ScanNothing<N>(group: seq<N>, weight: map<N, int>, eligible: set<N>, current: map<N, int>)
    requires Covers(weight, group) && Covers(current, group)
    ensures ScanUpTo(group, 0, weight, eligible, current) == Progress(None, 0, current)
  {
  }

  lemma ScanAll<N>(group: seq<N>, weight: map<N, int>, eligible: set<N>, current: map<N, int>)
    requires Covers(weight, group) && Covers(current, group)
    ensures ScanUpTo(group, |group|, weight, eligible, current) == Scan(group, weight, eligible, current)
  {
    assert group[..|group|] == group;
  }

  lemma ScanNext<N>(group: seq<N>, i: nat, weight: map<N, int>, eligible: set<N>, current: map<N, int>)
    requires i < |group| && Covers(weight, group) && Covers(current, group)
    ensures var p := ScanUpTo(group, i, weight, eligible, current);
            && group[i] in p.current && (p.best.Some? ==> p.best.value in p.current)
            && ScanUpTo(group, i + 1, weight, eligible, current)
               == if group[i] in eligible then Raised(p, group[i], weight[group[i]]) else p
  {
    assert group[..i + 1][..i] == group[..i];
  }

  /** One selection: the node chosen, and the current weights once it has paid back the total. */
  datatype Selected<N> = Selected(best: Option<N>, current: map<N, int>)

  function Select<N(==)>(group: seq<N>, weight: map<N, int>, eligible: set<N>, current: map<N, int>): (s: Selected<N>)
    requires Covers(weight, group) && Covers(current, group)
    ensures s.current.Keys == current.Keys && (s.best.Some? ==> s.best.value in group && s.best.value in eligible)
    ensures s.best.None? <==> forall n :: n in group ==> n !in eligible
  {
    var p := Scan(group, weight, eligible, current);
    if p.best.None? then Selected(None, p.current)
    else Selected(p.best, p.current[p.best.value := p.current[p.best.value] - p.total])
  }

  lemma SelectIs<N>(group: seq<N>, weight: map<N, int>, eligible: set<N>, current: map<N, int>)
    requires Covers(weight, group) && Covers(current, group)
    ensures var p := Scan(group, weight, eligible, current);
            p.best.Some? ==>
              p.best.value in p.current
              && Select(group, weight, eligible, current)
                 == Selected(p.best, p.current[p.best.value := p.current[p.best.value] - p.total])
  {
  }

  lemma SelectFinds<N>(group: seq<N>, weight: map<N, int>, eligible: set<N>, current: map<N, int>, n: N)
    requires Covers(weight, group) && Covers(current, group) && n in group && n in eligible
    ensures Scan(group, weight, eligible, current).best.Some?
  {
  }

  // ----- The nodes of a group, each once -----

  ghost predicate NoRepeats<N>(s: seq<N>) {
    forall i, j :: 0 <= i < j < |s| ==> s[i] != s[j]
  }

  /** `nodes` lists every node of the group once. */
  ghost predicate Lists<N>(nodes: seq<N>, group: seq<N>) {
    NoRepeats(nodes) && (forall n :: n in nodes ==> n in group) && forall n :: n in group ==> n in nodes
  }

  function Values<N>(nodes: seq<N>, m: map<N, int>): (vs: seq<int>)
    requires Covers(m, nodes)
    ensures |vs| == |nodes|
  {
    seq(|nodes|, i requires 0 <= i < |nodes| => assert nodes[i] in nodes; m[nodes[i]])
  }

  function Flags<N>(nodes: seq<N>, s: set<N>): (bs: seq<bool>)
    ensures |bs| == |nodes|
  {
    seq(|nodes|, i requires 0 <= i < |nodes| => nodes[i] in s)
  }

  /** A node listed several times competes with its weight times that number. */
  function Shares<N(==)>(nodes: seq<N>, group: seq<N>, weight: map<N, int>): (ws: seq<int>)
    requires Covers(weight, nodes)
    ensures |ws| == |nodes|
  {
    seq(|nodes|, i requires 0 <= i < |nodes| => assert nodes[i] in nodes; multiset(group)[nodes[i]] * weight[nodes[i]])
  }

  function IndexOf<N(==)>(nodes: seq<N>, n: N): (i: nat)
    requires n in nodes
    ensures i < |nodes| && nodes[i] == n
  {
    if nodes[0] == n then 0 else 1 + IndexOf(nodes[1..], n)
  }

  // ----- What the loop computes -----

  lemma {:induction false} ScanRaises<N>(group: seq<N>, weight: map<N, int>, eligible: set<N>, current: map<N, int>,
                                         n: N)
    requires Covers(weight, group) && Covers(current, group) && n in weight && n in current
    ensures Scan(group, weight, eligible, current).current[n]
         == current[n] + (if n in eligible then multiset(group)[n] * weight[n] else 0)
  {
    if group != [] {
      var k := |group| - 1;
      assert group == group[..k] + [group[k]];
      ScanRaises(group[..k], weight, eligible, current, n);
      OneMore(multiset(group[..k])[n], weight[n]);
    }
  }

  lemma OneMore(a: int, w: int)
    ensures (a + 1) * w == a * w + w
  {
  }

  lemma {:induction false} ScanTotal<N>(nodes: seq<N>, group: seq<N>, weight: map<N, int>, eligible: set<N>,
                                        current: map<N, int>)
    requires NoRepeats(nodes) && (forall n :: n in group ==> n in nodes)
    requires Covers(weight, nodes) && Covers(weight, group) && Covers(current, group)
    ensures Scan(group, weight, eligible, current).total
         == Sum(Effective(Shares(nodes, group, weight), Flags(nodes, eligible)))
  {
    if group == [] {
      assert Effective(Shares(nodes, group, weight), Flags(nodes, eligible)) == Zeros(|nodes|);
      SumZeros(|nodes|);
    } else {
      var k := |group| - 1;
      ScanTotal(nodes, group[..k], weight, eligible, current);
      EffectiveSnoc(nodes, group[..k], group[k], weight, eligible);
      assert group == group[..k] + [group[k]];
    }
  }

  /** Listing a node once more adds its weight to the total, if it is eligible. */
  lemma EffectiveSnoc<N>(nodes: seq<N>, group: seq<N>, n: N, weight: map<N, int>, eligible: set<N>)
    requires NoRepeats(nodes) && n in nodes && Covers(weight, nodes)
    ensures var before := Effective(Shares(nodes, group, weight), Flags(nodes, eligible));
            var after := Effective(Shares(nodes, group + [n], weight), Flags(nodes, eligible));
            Sum(after) == Sum(before) + (if n in eligible then weight[n] else 0)
  {
    var before := Effective(Shares(nodes, group, weight), Flags(nodes, eligible));
    var after := Effective(Shares(nodes, group + [n], weight), Flags(nodes, eligible));
    var i := IndexOf(nodes, n);
    OneMore(multiset(group)[n], weight[n]);
    var v := before[i] + (if n in eligible then weight[n] else 0);
    assert after == before[i := v];
    SumUpdate(before, i, v);
  }

  /** No node of negative weight is listed twice: only such a node could be the highest and then sink. */
  ghost predicate Regular<N>(group: seq<N>, weight: map<N, int>)
    requires Covers(weight, group)
  {
    forall i, j :: 0 <= i < j < |group| && group[i] == group[j] ==> weight[group[i]] >= 0
  }

  lemma {:induction false} ScanFindsHighest<N>(group: seq<N>, weight: map<N, int>, eligible: set<N>,
                                               current: map<N, int>)
    requires Covers(weight, group) && Covers(current, group) && Regular(group, weight)
    ensures var p := Scan(group, weight, eligible, current);
            p.best.Some? ==> forall n :: n in group && n in eligible ==> p.current[n] <= p.current[p.best.value]
  {
    if group != [] {
      var k := |group| - 1;
      assert group == group[..k] + [group[k]];
      var q := Scan(group[..k], weight, eligible, current);
      assert Scan(group, weight, eligible, current)
          == if group[k] in eligible then Raised(q, group[k], weight[group[k]]) else q;
      hide Scan;
      ScanFindsHighest(group[..k], weight, eligible, current);
    }
  }

  /** Of several nodes with the highest weight the one listed first is found, if none is listed twice. */
  lemma {:induction false} ScanFindsFirst<N>(group: seq<N>, weight: map<N, int>, eligible: set<N>, current: map<N, int>,
                                             i: nat, j: nat)
    requires Covers(weight, group) && Covers(current, group) && NoRepeats(group) && i < j < |group|
    requires group[i] in eligible && Scan(group, weight, eligible, current).best == Some(group[j])
    ensures var p := Scan(group, weight, eligible, current); p.current[group[i]] < p.current[group[j]]
  {
    var k := |group| - 1;
    var q := Scan(group[..k], weight, eligible, current);
    assert Scan(group, weight, eligible, current)
        == if group[k] in eligible then Raised(q, group[k], weight[group[k]]) else q;
    ScanFindsHighest(group[..k], weight, eligible, current);
    if j < k {
      ScanFindsFirst(group[..k], weight, eligible, current, i, j);
    } else {
      hide Scan;
      assert group[i] == group[..k][i];
    }
  }

  /** Whatever the weights and however often nodes are listed, a selection preserves the sum of current weights. */
  lemma SelectConserves<N>(nodes: seq<N>, group: seq<N>, weight: map<N, int>, eligible: set<N>, current: map<N, int>)
    requires Lists(nodes, group) && Covers(weight, nodes) && Covers(current, nodes)
    requires Covers(weight, group) && Covers(current, group)
    ensures var s := Select(group, weight, eligible, current);
            Covers(s.current, nodes) && Sum(Values(nodes, s.current)) == Sum(Values(nodes, current))
  {
    var p := Scan(group, weight, eligible, current);
    var s := Select(group, weight, eligible, current);
    var es := Effective(Shares(nodes, group, weight), Flags(nodes, eligible));
    ScanIsPlus(nodes, group, weight, eligible, current);
    ScanTotal(nodes, group, weight, eligible, current);
    SumPlus(Values(nodes, current), es);
    PayBack(nodes, group, weight, eligible, current);
    if p.best.Some? {
      var raised, b := Values(nodes, p.current), IndexOf(nodes, p.best.value);
      SumUpdate(raised, b, raised[b] - p.total);
    } else {
      NoneEligible(Shares(nodes, group, weight), Flags(nodes, eligible));
    }
  }

  lemma ScanIsPlus<N>(nodes: seq<N>, group: seq<N>, weight: map<N, int>, eligible: set<N>, current: map<N, int>)
    requires Covers(weight, nodes) && Covers(current, nodes) && Covers(weight, group) && Covers(current, group)
    ensures var p := Scan(group, weight, eligible, current);
            && Covers(p.current, nodes)
            && Values(nodes, p.current)
               == Plus(Values(nodes, current), Effective(Shares(nodes, group, weight), Flags(nodes, eligible)))
  {
    forall i | 0 <= i < |nodes|
      ensures Scan(group, weight, eligible, current).current[nodes[i]] == current[nodes[i]]
              + (if nodes[i] in eligible then multiset(group)[nodes[i]] * weight[nodes[i]] else 0)
    {
      assert nodes[i] in nodes;
      ScanRaises(group, weight, eligible, current, nodes[i]);
    }
  }

  lemma PayBack<N>(nodes: seq<N>, group: seq<N>, weight: map<N, int>, eligible: set<N>, current: map<N, int>)
    requires Lists(nodes, group) && Covers(weight, nodes) && Covers(current, nodes)
    requires Covers(weight, group) && Covers(current, group)
    ensures var p, s := Scan(group, weight, eligible, current), Select(group, weight, eligible, current);
            && Covers(p.current, nodes) && Covers(s.current, nodes)
            && if p.best.None? then Values(nodes, s.current) == Values(nodes, p.current)
               else var raised, b := Values(nodes, p.current), IndexOf(nodes, p.best.value);
                    Values(nodes, s.current) == raised[b := raised[b] - p.total]
  {
  }

  /** In terms of the list of nodes: who was chosen, and the current weights left. */
  function ChoiceOf<N(==)>(nodes: seq<N>, s: Selected<N>): Choice
    requires (s.best.Some? ==> s.best.value in nodes) && Covers(s.current, nodes)
  {
    Choice(if s.best.None? then -1 else IndexOf(nodes, s.best.value), Values(nodes, s.current))
  }

  /** The loop makes a selection among the nodes by their shares. */
  lemma SelectIsSelection<N>(nodes: seq<N>, group: seq<N>, weight: map<N, int>, eligible: set<N>, current: map<N, int>)
    requires Lists(nodes, group) && Covers(weight, nodes) && Covers(current, nodes)
    requires Covers(weight, group) && Covers(current, group) && Regular(group, weight)
    ensures var s := Select(group, weight, eligible, current);
            && Covers(s.current, nodes)
            && IsSelection(Shares(nodes, group, weight), Flags(nodes, eligible), Values(nodes, current),
                           ChoiceOf(nodes, s))
  {
    var p := Scan(group, weight, eligible, current);
    ScanIsPlus(nodes, group, weight, eligible, current);
    ScanTotal(nodes, group, weight, eligible, current);
    ScanFindsHighest(group, weight, eligible, current);
    PayBack(nodes, group, weight, eligible, current);
    var raised, flags := Values(nodes, p.current), Flags(nodes, eligible);
    hide Effective, Plus, Sum, Scan, Select, Shares;
    if p.best.Some? {
      forall i | 0 <= i < |nodes| && flags[i] ensures raised[i] <= raised[IndexOf(nodes, p.best.value)] {
        assert nodes[i] in nodes;
      }
    } else {
      forall i | 0 <= i < |nodes| ensures !flags[i] {
        assert nodes[i] in nodes;
      }
    }
  }

  // ----- Repeated selections -----

  /** The current weights after `t` selections. */
  function Calls<N(==)>(group: seq<N>, weight: map<N, int>, eligible: set<N>, current: map<N, int>, t: nat)
    : (m: map<N, int>)
    requires Covers(weight, group) && Covers(current, group)
    ensures m.Keys == current.Keys
  {
    if t == 0 then current
    else Select(group, weight, eligible, Calls(group, weight, eligible, current, t - 1)).current
  }

  /** How many of `t` selections chose `n`. */
  function Served<N(==)>(group: seq<N>, weight: map<N, int>, eligible: set<N>, current: map<N, int>, t: nat, n: N): nat
    requires Covers(weight, group) && Covers(current, group)
  {
    if t == 0 then 0 else
    var last := Select(group, weight, eligible, Calls(group, weight, eligible, current, t - 1));
    Served(group, weight, eligible, current, t - 1, n) + (if last.best == Some(n) then 1 else 0)
  }

  lemma {:induction false} ListOf<N>(group: seq<N>) returns (nodes: seq<N>)
    ensures Lists(nodes, group)
  {
    if group == [] {
      nodes := [];
    } else {
      var k := |group| - 1;
      assert group == group[..k] + [group[k]];
      nodes := ListOf(group[..k]);
      if group[k] !in nodes {
        nodes := nodes + [group[k]];
      }
    }
  }

  function MapOf<N(==)>(nodes: seq<N>, cs: seq<int>): (m: map<N, int>)
    requires |cs| == |nodes|
    ensures Covers(m, nodes)
  {
    map n | n in nodes :: cs[IndexOf(nodes, n)]
  }

  lemma ValuesMapOf<N>(nodes: seq<N>, cs: seq<int>)
    requires NoRepeats(nodes) && |cs| == |nodes|
    ensures Values(nodes, MapOf(nodes, cs)) == cs
  {
    forall i | 0 <= i < |nodes| ensures IndexOf(nodes, nodes[i]) == i {
    }
  }

  lemma MapOfValues<N>(nodes: seq<N>, m: map<N, int>)
    requires NoRepeats(nodes) && m.Keys == set n | n in nodes
    ensures MapOf(nodes, Values(nodes, m)) == m
  {
  }

  /** The loop, seen from the list of nodes. */
  function PickBy<N(==)>(nodes: seq<N>, group: seq<N>, weight: map<N, int>, eligible: set<N>): seq<int> -> Choice
    requires Lists(nodes, group) && Covers(weight, group)
  {
    (cs: seq<int>) =>
      if |cs| == |nodes| then ChoiceOf(nodes, Select(group, weight, eligible, MapOf(nodes, cs))) else Choice(-1, cs)
  }

  lemma PickBySelects<N>(nodes: seq<N>, group: seq<N>, weight: map<N, int>, eligible: set<N>)
    requires Lists(nodes, group) && Covers(weight, group) && Covers(weight, nodes) && Regular(group, weight)
    ensures Selects(PickBy(nodes, group, weight, eligible), Shares(nodes, group, weight), Flags(nodes, eligible))
  {
    var pick := PickBy(nodes, group, weight, eligible);
    forall cs: seq<int> | |cs| == |nodes|
      ensures IsSelection(Shares(nodes, group, weight), Flags(nodes, eligible), cs, pick(cs))
    {
      ValuesMapOf(nodes, cs);
      SelectIsSelection(nodes, group, weight, eligible, MapOf(nodes, cs));
    }
  }

  /** After `t` selections, the maps and counts are those of the run seen from the list of nodes. */
  ghost predicate Tracks<N>(nodes: seq<N>, group: seq<N>, weight: map<N, int>, eligible: set<N>,
                            current: map<N, int>, t: nat)
    requires Lists(nodes, group) && Covers(weight, group) && Covers(current, group) && Covers(current, nodes)
  {
    var pick := PickBy(nodes, group, weight, eligible);
    var m := Calls(group, weight, eligible, current, t);
    && Covers(m, nodes) && Values(nodes, m) == Run(pick, Values(nodes, current), t)
    && forall i | 0 <= i < |nodes| ::
         Served(group, weight, eligible, current, t, nodes[i]) == Chosen(pick, Values(nodes, current), t)[i]
  }

  lemma PickIs<N>(nodes: seq<N>, group: seq<N>, weight: map<N, int>, eligible: set<N>, m: map<N, int>)
    requires Lists(nodes, group) && Covers(weight, group) && Covers(m, group) && m.Keys == set n | n in nodes
    ensures Covers(m, nodes)
    ensures var s := Select(group, weight, eligible, m);
            && Covers(s.current, nodes) && (s.best.Some? ==> s.best.value in nodes)
            && PickBy(nodes, group, weight, eligible)(Values(nodes, m)) == ChoiceOf(nodes, s)
  {
    MapOfValues(nodes, m);
  }

  lemma CallsStep<N>(nodes: seq<N>, group: seq<N>, weight: map<N, int>, eligible: set<N>, current: map<N, int>, t: nat)
    requires Lists(nodes, group) && Covers(weight, group) && Covers(current, group) && Covers(current, nodes)
    requires current.Keys == set n | n in nodes
    requires t > 0 && Tracks(nodes, group, weight, eligible, current, t - 1)
    ensures Tracks(nodes, group, weight, eligible, current, t)
  {
    hide Scan, Select, Values, PickBy;
    var before := Calls(group, weight, eligible, current, t - 1);
    PickIs(nodes, group, weight, eligible, before);
    var pick, cs := PickBy(nodes, group, weight, eligible), Values(nodes, current);
    var s := Select(group, weight, eligible, before);
    forall i | 0 <= i < |nodes|
      ensures Served(group, weight, eligible, current, t, nodes[i]) == Chosen(pick, cs, t)[i]
    {
      assert s.best == Some(nodes[i]) <==> s.best.Some? && IndexOf(nodes, s.best.value) == i;
    }
  }

  lemma {:induction false} CallsAreRun<N>(nodes: seq<N>, group: seq<N>, weight: map<N, int>, eligible: set<N>,
                                          current: map<N, int>, t: nat)
    requires Lists(nodes, group) && Covers(weight, group) && Covers(current, group) && Covers(current, nodes)
    requires current.Keys == set n | n in nodes
    ensures Tracks(nodes, group, weight, eligible, current, t)
  {
    if t > 0 {
      hide Lists, Covers, Tracks;
      CallsAreRun(nodes, group, weight, eligible, current, t - 1);
      CallsStep(nodes, group, weight, eligible, current, t);
    }
  }

  lemma WindowOfRun<N>(nodes: seq<N>, group: seq<N>, weight: map<N, int>, eligible: set<N>, zero: map<N, int>,
                       t: nat, total: nat, i: nat)
    requires Lists(nodes, group) && Covers(weight, group) && Covers(zero, group)
    requires zero == map k | k in nodes :: 0
    requires i < |nodes|
    ensures var m, pick := Calls(group, weight, eligible, zero, t), PickBy(nodes, group, weight, eligible);
            && |Run(pick, Zeros(|nodes|), t)| == |nodes|
            && Served(group, weight, eligible, m, total, nodes[i])
               == Chosen(pick, Run(pick, Zeros(|nodes|), t), total)[i]
  {
    assert Values(nodes, zero) == Zeros(|nodes|);
    hide Values, PickBy, Calls, Served, Chosen, Run;
    CallsAreRun(nodes, group, weight, eligible, zero, t);
    CallsAreRun(nodes, group, weight, eligible, Calls(group, weight, eligible, zero, t), total);
  }

  lemma FairWindow<N>(nodes: seq<N>, group: seq<N>, weight: map<N, int>, eligible: set<N>, t: nat, total: nat)
    requires Lists(nodes, group) && Covers(weight, group) && Covers(weight, nodes)
    requires forall k :: k in nodes ==> weight[k] >= 0
    requires total > 0 && total == Sum(Effective(Shares(nodes, group, weight), Flags(nodes, eligible)))
    ensures var pick := PickBy(nodes, group, weight, eligible);
            Chosen(pick, Run(pick, Zeros(|nodes|), t), total)
            == Effective(Shares(nodes, group, weight), Flags(nodes, eligible))
  {
    hide Balanced, PickBy, Chosen, Run, Selects, Sum, Shares, Flags, Effective;
    Competes(nodes, group, weight, eligible);
    EveryWindowIsFair(PickBy(nodes, group, weight, eligible), Shares(nodes, group, weight), Flags(nodes, eligible), t);
  }

  /**
   * Exact shares of any group whose weights are not negative: from zero, in every window of as many selections as the
   * total weight listed, each node is chosen its weight times as often as it is listed, if it is eligible.
   */
  lemma GroupSharesAreExact<N>(group: seq<N>, weight: map<N, int>, eligible: set<N>, zero: map<N, int>, t: nat, n: N)
    requires Covers(weight, group) && Covers(zero, group) && zero == map k | k in group :: 0
    requires (forall k :: k in group ==> weight[k] >= 0) && n in group
    ensures var total := Scan(group, weight, eligible, zero).total;
            total > 0 ==>
              Served(group, weight, eligible, Calls(group, weight, eligible, zero, t), total, n)
              == if n in eligible then multiset(group)[n] * weight[n] else 0
  {
    var nodes := ListOf(group);
    assert zero == map k | k in nodes :: 0;
    assert Covers(weight, nodes) && n in nodes;
    var total := Scan(group, weight, eligible, zero).total;
    ScanTotal(nodes, group, weight, eligible, zero);
    hide Scan, PickBy, Calls, Served, Chosen, Run, Sum, Shares, Flags, Effective;
    if total > 0 {
      WindowOfRun(nodes, group, weight, eligible, zero, t, total, IndexOf(nodes, n));
      FairWindow(nodes, group, weight, eligible, t, total);
      ShareAt(nodes, group, weight, eligible, n);
    }
  }

  ghost function Among<N>(nodes: seq<N>, eligible: set<N>): set<N> {
    set n | n in nodes && n in eligible
  }

  lemma AmongSnoc<N>(nodes: seq<N>, n: N, eligible: set<N>)
    ensures Among(nodes + [n], eligible) == Among(nodes, eligible) + (if n in eligible then {n} else {})
  {
  }

  lemma FlagsSnoc<N>(nodes: seq<N>, n: N, eligible: set<N>)
    ensures CountTrue(Flags(nodes + [n], eligible))
         == CountTrue(Flags(nodes, eligible)) + (if n in eligible then 1 else 0)
  {
    assert Flags(nodes + [n], eligible)[..|nodes|] == Flags(nodes, eligible);
  }

  lemma {:induction false} CountFlags<N>(nodes: seq<N>, eligible: set<N>)
    requires NoRepeats(nodes)
    ensures CountTrue(Flags(nodes, eligible)) == |Among(nodes, eligible)|
  {
    if nodes != [] {
      var k := |nodes| - 1;
      assert nodes == nodes[..k] + [nodes[k]];
      assert nodes[k] !in Among(nodes[..k], eligible);
      CountFlags(nodes[..k], eligible);
      hide Flags, Among, CountTrue;
      AmongSnoc(nodes[..k], nodes[k], eligible);
      FlagsSnoc(nodes[..k], nodes[k], eligible);
    }
  }

  lemma RunAt<N>(nodes: seq<N>, group: seq<N>, weight: map<N, int>, eligible: set<N>, zero: map<N, int>, t: nat, i: nat)
    requires Lists(nodes, group) && Covers(weight, group) && Covers(zero, group)
    requires zero == (map k | k in nodes :: 0) && i < |nodes|
    ensures var m, pick := Calls(group, weight, eligible, zero, t), PickBy(nodes, group, weight, eligible);
            && nodes[i] in m && |Run(pick, Zeros(|nodes|), t)| == |nodes|
            && m[nodes[i]] == Run(pick, Zeros(|nodes|), t)[i]
            && Served(group, weight, eligible, zero, t, nodes[i]) == Chosen(pick, Zeros(|nodes|), t)[i]
  {
    assert Values(nodes, zero) == Zeros(|nodes|);
    hide PickBy, Calls, Served, Chosen, Run;
    CallsAreRun(nodes, group, weight, eligible, zero, t);
    assert nodes[i] in nodes;
  }

  lemma Competes<N>(nodes: seq<N>, group: seq<N>, weight: map<N, int>, eligible: set<N>)
    requires Lists(nodes, group) && Covers(weight, group) && Covers(weight, nodes)
    requires forall k :: k in nodes ==> weight[k] >= 0
    requires Sum(Effective(Shares(nodes, group, weight), Flags(nodes, eligible))) > 0
    ensures Balanced(Shares(nodes, group, weight), Flags(nodes, eligible))
    ensures Selects(PickBy(nodes, group, weight, eligible), Shares(nodes, group, weight), Flags(nodes, eligible))
  {
    PickBySelects(nodes, group, weight, eligible);
    SharesNotNegative(nodes, group, weight);
    hide Lists, Covers, PickBy, Selects, Sum, Shares, Flags, Effective;
  }

  lemma SmoothAt<N>(nodes: seq<N>, group: seq<N>, weight: map<N, int>, eligible: set<N>, t: nat, i: nat)
    requires Lists(nodes, group) && Covers(weight, group) && Covers(weight, nodes)
    requires (forall k :: k in nodes ==> weight[k] >= 0) && i < |nodes| && nodes[i] in eligible
    requires Sum(Effective(Shares(nodes, group, weight), Flags(nodes, eligible))) > 0
    ensures var total := Sum(Effective(Shares(nodes, group, weight), Flags(nodes, eligible)));
            var pick := PickBy(nodes, group, weight, eligible);
            var cs, n := Run(pick, Zeros(|nodes|), t), Chosen(pick, Zeros(|nodes|), t)[i];
            && |cs| == |nodes|
            && IsSmooth(total, CountTrue(Flags(nodes, eligible)), Shares(nodes, group, weight)[i], t, cs[i], n)
  {
    hide Balanced, PickBy, Chosen, Run, Selects, Sum, Shares, Effective, IsSmooth;
    Competes(nodes, group, weight, eligible);
    assert Flags(nodes, eligible)[i];
    hide Lists, Covers, Flags;
    Smooth(PickBy(nodes, group, weight, eligible), Shares(nodes, group, weight), Flags(nodes, eligible), t, i);
  }

  /** Smoothness of any group whose weights are not negative, for each node with its share. */
  lemma GroupIsSmooth<N>(group: seq<N>, weight: map<N, int>, eligible: set<N>, zero: map<N, int>, t: nat, n: N)
    requires Covers(weight, group) && Covers(zero, group) && zero == map k | k in group :: 0
    requires (forall k :: k in group ==> weight[k] >= 0) && n in group && n in eligible
    ensures var total, m := Scan(group, weight, eligible, zero).total, |Among(group, eligible)|;
            total > 0 ==>
              IsSmooth(total, m, multiset(group)[n] * weight[n], t,
                       Calls(group, weight, eligible, zero, t)[n], Served(group, weight, eligible, zero, t, n))
  {
    var nodes := ListOf(group);
    assert zero == map k | k in nodes :: 0;
    assert Covers(weight, nodes) && n in nodes;
    var total := Scan(group, weight, eligible, zero).total;
    ScanTotal(nodes, group, weight, eligible, zero);
    CountFlags(nodes, eligible);
    assert Among(group, eligible) == Among(nodes, eligible);
    hide Scan, PickBy, Calls, Served, Chosen, Run, Sum, Effective, Flags, IsSmooth;
    if total > 0 {
      var i := IndexOf(nodes, n);
      RunAt(nodes, group, weight, eligible, zero, t, i);
      SmoothAt(nodes, group, weight, eligible, t, i);
      assert Shares(nodes, group, weight)[i] == multiset(group)[n] * weight[n];
    }
  }

  lemma ShareAt<N>(nodes: seq<N>, group: seq<N>, weight: map<N, int>, eligible: set<N>, n: N)
    requires n in nodes && Covers(weight, nodes)
    ensures Effective(Shares(nodes, group, weight), Flags(nodes, eligible))[IndexOf(nodes, n)]
         == if n in eligible then multiset(group)[n] * weight[n] else 0
  {
  }

  lemma SharesNotNegative<N>(nodes: seq<N>, group: seq<N>, weight: map<N, int>)
    requires Covers(weight, nodes) && (forall k :: k in nodes ==> weight[k] >= 0)
    ensures forall i | 0 <= i < |nodes| :: Shares(nodes, group, weight)[i] >= 0
  {
    forall i | 0 <= i < |nodes| ensures Shares(nodes, group, weight)[i] >= 0 {
      assert nodes[i] in nodes;
      NotNegative(multiset(group)[nodes[i]], weight[nodes[i]]);
    }
  }

  lemma NotNegative(a: nat, b: nat)
    ensures a * b >= 0
  {
  }
}
