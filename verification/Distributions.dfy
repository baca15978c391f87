/** Distribution: weights of the edges of a block, collated by target and scaled to 32 bits. */
module Distributions {
  import opened Bits
  import opened BlockMasses

  datatype Kind = Local | Exit | Backedge

  datatype Weight = Weight(kind: Kind, target: nat, amount: Mass)

  // Sums of weights

  function Total(ws: seq<Weight>): nat {
    if ws == [] then 0 else Total(ws[..|ws| - 1]) + ws[|ws| - 1].amount
  }

  function TotalTo(ws: seq<Weight>, t: nat): nat {
    if ws == [] then 0
    else TotalTo(ws[..|ws| - 1], t) + if ws[|ws| - 1].target == t then ws[|ws| - 1].amount else 0
  }

  predicate Distinct(ws: seq<Weight>) { forall i, j | 0 <= i < j < |ws| :: ws[i].target != ws[j].target }

  predicate Positive(ws: seq<Weight>) { forall w | w in ws :: w.amount > 0 }

  /** Edges to one target are of one kind. */
  predicate OneKind(ws: seq<Weight>) { forall v, w | v in ws && w in ws && v.target == w.target :: v.kind == w.kind }

  predicate Drawn(w: Weight, ws: seq<Weight>) { exists v :: v in ws && v.target == w.target && v.kind == w.kind }

  /** One weight for each target, of the kind of its edges. */
  ghost predicate Collated(r: seq<Weight>, ws: seq<Weight>) {
    && Distinct(r) && Positive(r)
    && (forall w | w in r :: Drawn(w, ws))
    && forall t :: TotalTo(r, t) == Capped(TotalTo(ws, t))
  }

  lemma TotalPush(ws: seq<Weight>, w: Weight, t: nat)
    ensures Total(ws + [w]) == Total(ws) + w.amount
    ensures TotalTo(ws + [w], t) == TotalTo(ws, t) + if w.target == t then w.amount else 0
  {
    assert (ws + [w])[..|ws|] == ws;
  }

  lemma TotalTake(ws: seq<Weight>, i: nat, t: nat)
    requires i < |ws|
    ensures Total(ws[..i + 1]) == Total(ws[..i]) + ws[i].amount
    ensures TotalTo(ws[..i + 1], t) == TotalTo(ws[..i], t) + if ws[i].target == t then ws[i].amount else 0
  {
    assert ws[..i + 1] == ws[..i] + [ws[i]];
    TotalPush(ws[..i], ws[i], t);
  }

  lemma {:induction false} TotalToAbsent(ws: seq<Weight>, t: nat)
    requires forall w | w in ws :: w.target != t
    ensures TotalTo(ws, t) == 0
  {
    if ws != [] { TotalToAbsent(ws[..|ws| - 1], t); }
  }

  lemma {:induction false} TotalToPresent(ws: seq<Weight>, i: nat)
    requires Distinct(ws) && i < |ws|
    ensures TotalTo(ws, ws[i].target) == ws[i].amount
  {
    var n := |ws| - 1;
    if i == n {
      TotalToAbsent(ws[..n], ws[i].target);
    } else {
      TotalToPresent(ws[..n], i);
    }
  }

  lemma {:induction false} TotalToAtMost(ws: seq<Weight>, t: nat)
    ensures TotalTo(ws, t) <= Total(ws)
  {
    if ws != [] { TotalToAtMost(ws[..|ws| - 1], t); }
  }

  lemma {:induction false} TotalRemove(ws: seq<Weight>, i: nat, t: nat)
    requires i < |ws|
    ensures Total(ws) == Total(ws[..i] + ws[i + 1..]) + ws[i].amount
    ensures TotalTo(ws, t) == TotalTo(ws[..i] + ws[i + 1..], t) + if ws[i].target == t then ws[i].amount else 0
  {
    var n := |ws| - 1;
    var rest := ws[..i] + ws[i + 1..];
    if i == n {
      assert rest == ws[..n];
    } else {
      TotalRemove(ws[..n], i, t);
      assert rest[..|rest| - 1] == ws[..n][..i] + ws[..n][i + 1..];
      assert rest[|rest| - 1] == ws[n];
    }
  }

  lemma Removed(ws: seq<Weight>, i: nat)
    requires i < |ws|
    ensures multiset(ws[..i] + ws[i + 1..]) == multiset(ws) - multiset{ws[i]}
  {
    assert ws == ws[..i] + [ws[i]] + ws[i + 1..];
  }

  lemma {:induction false} TotalPermuted(ws: seq<Weight>, vs: seq<Weight>, t: nat)
    requires multiset(ws) == multiset(vs)
    ensures Total(ws) == Total(vs) && TotalTo(ws, t) == TotalTo(vs, t)
    decreases |ws|
  {
    if ws == [] {
      assert |multiset(vs)| == 0;
    } else {
      var n := |ws| - 1;
      assert ws[n] in multiset(vs);
      var i :| 0 <= i < |vs| && vs[i] == ws[n];
      Removed(ws, n);
      Removed(vs, i);
      assert ws[..n] + ws[n + 1..] == ws[..n];
      TotalPermuted(ws[..n], vs[..i] + vs[i + 1..], t);
      TotalRemove(vs, i, t);
    }
  }

  function Without(ws: seq<Weight>, t: nat): (r: seq<Weight>)
    ensures |r| <= |ws| && (forall w | w in r :: w in ws && w.target != t)
  {
    if ws == [] then [] else
      var n := |ws| - 1;
      if ws[n].target == t then Without(ws[..n], t) else Without(ws[..n], t) + [ws[n]]
  }

  lemma {:induction false} TotalWithout(ws: seq<Weight>, t: nat, u: nat)
    ensures Total(ws) == Total(Without(ws, t)) + TotalTo(ws, t)
    ensures u != t ==> TotalTo(Without(ws, t), u) == TotalTo(ws, u)
  {
    if ws != [] {
      var n := |ws| - 1;
      TotalWithout(ws[..n], t, u);
      if ws[n].target != t { TotalPush(Without(ws[..n], t), ws[n], u); }
    }
  }

  /** The sum over all targets is determined by the sums to each. */
  lemma {:induction false} TotalByTarget(ws: seq<Weight>, vs: seq<Weight>)
    requires forall t :: TotalTo(ws, t) == TotalTo(vs, t)
    ensures Total(ws) == Total(vs)
    decreases |ws| + |vs|
  {
    if ws != [] || vs != [] {
      var t := if ws != [] then ws[|ws| - 1].target else vs[|vs| - 1].target;
      forall u ensures TotalTo(Without(ws, t), u) == TotalTo(Without(vs, t), u) {
        if u == t {
          TotalToAbsent(Without(ws, t), t);
          TotalToAbsent(Without(vs, t), t);
        } else {
          TotalWithout(ws, t, u);
          TotalWithout(vs, t, u);
        }
      }
      TotalWithout(ws, t, t);
      TotalWithout(vs, t, t);
      TotalByTarget(Without(ws, t), Without(vs, t));
    }
  }

  // Combining

  /** The source adds modulo 2^64 and saturates when the sum is smaller. */
  function CombineWeight(w: Weight, other: Weight): Weight
    requires w.amount > 0 ==> w.kind == other.kind && w.target == other.target
  {
    if w.amount == 0 then other
    else
      var sum := (w.amount + other.amount) % TWO_64;
      w.(amount := if w.amount > sum then FULL else sum)
  }

  lemma CombineAdds(w: Weight, other: Weight, x: nat)
    requires w.amount == Capped(x) && (w.amount > 0 ==> w.kind == other.kind && w.target == other.target)
    ensures CombineWeight(w, other) == Weight(other.kind, other.target, Capped(x + other.amount))
  {
    if w.amount + other.amount >= TWO_64 {
      UniqueRemainder(w.amount + other.amount, TWO_64, 1, w.amount + other.amount - TWO_64);
    }
  }

  predicate Sorted(ws: seq<Weight>) { forall i, j | 0 <= i < j < |ws| :: ws[i].target <= ws[j].target }

  /** Stands for std::sort: some ordering by target. */
  method SortWeights(ws: seq<Weight>) returns (r: seq<Weight>)
    ensures multiset(r) == multiset(ws) && Sorted(r)
  {
    r := [];
    for i := 0 to |ws|
      invariant multiset(r) == multiset(ws[..i]) && Sorted(r)
    {
      assert ws[..i + 1] == ws[..i] + [ws[i]];
      r := Insert(r, ws[i]);
    }
    assert ws[..|ws|] == ws;
  }

  method Insert(ws: seq<Weight>, w: Weight) returns (r: seq<Weight>)
    requires Sorted(ws)
    ensures multiset(r) == multiset(ws) + multiset{w} && Sorted(r)
  {
    hide Sorted;
    var i := |ws|;
    while i > 0 && w.target < ws[i - 1].target
      invariant 0 <= i <= |ws| && (i < |ws| ==> w.target < ws[i].target)
    {
      i := i - 1;
    }
    Inserted(ws, w, i);
    InsertSorted(ws, w, i);
    r := ws[..i] + [w] + ws[i..];
  }

  lemma Inserted(ws: seq<Weight>, w: Weight, i: nat)
    requires i <= |ws|
    ensures multiset(ws[..i] + [w] + ws[i..]) == multiset(ws) + multiset{w}
  {
    var r := ws[..i] + [w] + ws[i..];
    Removed(r, i);
    assert r[..i] + r[i + 1..] == ws;
    assert r[i] in r;
  }

  lemma InsertSorted(ws: seq<Weight>, w: Weight, i: nat)
    requires Sorted(ws) && i <= |ws|
    requires i > 0 ==> ws[i - 1].target <= w.target
    requires i < |ws| ==> w.target < ws[i].target
    ensures Sorted(ws[..i] + [w] + ws[i..])
  {
    var r := ws[..i] + [w] + ws[i..];
    forall a, b | 0 <= a < b < |r| ensures r[a].target <= r[b].target {
      assert r[a] == if a < i then ws[a] else if a == i then w else ws[a - 1];
      assert r[b] == if b < i then ws[b] else if b == i then w else ws[b - 1];
      if a == i { assert ws[i].target <= ws[b - 1].target; }
      if b == i { assert ws[a].target <= ws[i - 1].target; }
    }
  }

  /** The group of s from i on, all to one target, adds one weight. */
  lemma GroupCollated(r: seq<Weight>, s: seq<Weight>, i: nat, l: nat, w: Weight)
    requires i < l <= |s| && Collated(r, s[..i]) && Sorted(s) && Positive(s)
    requires forall j | 0 <= j < i :: s[j].target != s[i].target
    requires forall j | i <= j < l :: s[j].target == s[i].target
    requires w == Weight(s[i].kind, s[i].target, Capped(TotalTo(s[..l], s[i].target))) && w.amount > 0
    ensures Collated(r + [w], s[..l])
  {
    forall v | v in r + [w] ensures Drawn(v, s[..l]) {
      if v in r {
        var u :| u in s[..i] && u.target == v.target && u.kind == v.kind;
        assert u in s[..l];
      } else {
        assert s[i] in s[..l];
      }
    }
    forall k | 0 <= k < |r| ensures r[k].target != w.target { assert Drawn(r[k], s[..i]); }
    forall t ensures TotalTo(r + [w], t) == Capped(TotalTo(s[..l], t)) {
      TotalPush(r, w, t);
      if t == w.target {
        TotalToAbsent(r, t);
      } else {
        TotalToGroup(s, i, l, t);
      }
    }
  }

  lemma {:induction false} TotalToGroup(s: seq<Weight>, i: nat, l: nat, t: nat)
    requires i <= l <= |s| && forall j | i <= j < l :: s[j].target != t
    ensures TotalTo(s[..l], t) == TotalTo(s[..i], t)
    decreases l
  {
    if i < l {
      TotalToGroup(s, i, l - 1, t);
      TotalTake(s, l - 1, t);
    }
  }

  lemma NothingCollated(s: seq<Weight>)
    ensures Collated([], s[..0]) && Before(s, 0)
  {
    assert s[..0] == [];
  }

  /** A weight that stands for the edges of s from i up to l. */
  ghost predicate Group(w: Weight, s: seq<Weight>, i: nat, l: nat)
    requires i < l <= |s|
  {
    && (forall j | i <= j < l :: s[j].target == s[i].target)
    && w == Weight(s[i].kind, s[i].target, Capped(TotalTo(s[..l], s[i].target))) && w.amount > 0
  }

  lemma GroupStarts(s: seq<Weight>, i: nat)
    requires i < |s| && Positive(s) && Before(s, i)
    ensures Group(s[i], s, i, i + 1)
  {
    TotalToAbsent(s[..i], s[i].target);
    TotalTake(s, i, s[i].target);
    assert s[i] in s;
  }

  lemma GroupGrows(w: Weight, s: seq<Weight>, i: nat, l: nat)
    requires i < l < |s| && Positive(s) && OneKind(s) && Group(w, s, i, l) && s[l].target == s[i].target
    ensures w.kind == s[l].kind && w.target == s[l].target
    ensures Group(CombineWeight(w, s[l]), s, i, l + 1)
  {
    assert s[i] in s && s[l] in s;
    TotalTake(s, l, s[i].target);
    CombineAdds(w, s[l], TotalTo(s[..l], s[i].target));
  }

  /** Targets up to i are below the one at i. */
  predicate Before(s: seq<Weight>, i: nat) { i < |s| ==> forall j | 0 <= j < i :: s[j].target < s[i].target }

  lemma GroupEnds(r: seq<Weight>, w: Weight, s: seq<Weight>, i: nat, l: nat)
    requires i < l <= |s| && Collated(r, s[..i]) && Sorted(s) && Positive(s) && Before(s, i) && Group(w, s, i, l)
    requires l == |s| || s[l].target != s[i].target
    ensures Before(s, l) && Collated(r + [w], s[..l])
  {
    if l < |s| {
      forall j | 0 <= j < l ensures s[j].target < s[l].target {
        if j < i { assert s[j].target < s[i].target; }
        assert s[i].target <= s[l].target;
      }
    }
    GroupCollated(r, s, i, l, w);
  }

  lemma Permuted(s: seq<Weight>, ws: seq<Weight>)
    requires multiset(s) == multiset(ws) && Positive(ws) && OneKind(ws)
    ensures Positive(s) && OneKind(s) && |s| == |ws|
  {
    forall w ensures w in s <==> w in ws { assert w in multiset(s) <==> w in multiset(ws); }
    assert |multiset(s)| == |multiset(ws)|;
  }

  /** The inner loop: one group is added up at o, in place. */
  method CombineGroup(weights0: seq<Weight>, o: nat, i: nat, ghost s: seq<Weight>) returns (weights: seq<Weight>, l: nat)
    requires o <= i < |weights0| == |s| && weights0[i..] == s[i..] && Positive(s) && OneKind(s) && Before(s, i)
    ensures i < l <= |weights| == |s| && weights[l..] == s[l..] && weights[..o] == weights0[..o]
    ensures Group(weights[o], s, i, l) && (l < |s| ==> s[l].target != s[i].target)
  {
    hide Group, Positive, OneKind, Before;
    assert weights0[i] == weights0[i..][0] == s[i..][0];
    weights := weights0[o := weights0[i]];
    l := i + 1;
    GroupStarts(s, i);
    while l != |weights| && weights[i].target == weights[l].target
      invariant i < l <= |weights| == |s| && weights[l..] == s[l..] && weights[..o] == weights0[..o]
      invariant weights[i].target == s[i].target && Group(weights[o], s, i, l)
      decreases |s| - l
    {
      assert weights[l] == weights[l..][0] == s[l..][0];
      GroupGrows(weights[o], s, i, l);
      weights := weights[o := CombineWeight(weights[o], weights[l])];
      GroupIs(weights[o], s, i, l + 1);
      l := l + 1;
    }
    if l < |s| { assert weights[l] == weights[l..][0] == s[l..][0]; }
  }

  /** Sorting brings the edges to one target together; compaction then writes over what is read. */
  method CombineBySorting(weights0: seq<Weight>) returns (weights: seq<Weight>)
    requires Positive(weights0) && OneKind(weights0)
    ensures Collated(weights, weights0) && |weights| <= |weights0|
  {
    hide Collated, Group, Positive, OneKind, Sorted, Before;
    weights := SortWeights(weights0);
    ghost var s := weights;
    Permuted(s, weights0);
    var o: nat, i: nat, l: nat := 0, 0, 0;
    NothingCollated(s);
    while i != |weights|
      invariant o <= i == l <= |weights| == |s| && weights[i..] == s[i..]
      invariant Collated(weights[..o], s[..i]) && Before(s, i)
      decreases |s| - i
    {
      ghost var kept := weights[..o];
      weights, l := CombineGroup(weights, o, i, s);
      GroupEnds(kept, weights[o], s, i, l);
      assert weights[..o + 1] == kept + [weights[o]];
      o, i := o + 1, l;
    }
    weights := weights[..o];
    assert s[..|s|] == s;
    Recollated(weights, s, weights0);
  }

  lemma GroupIs(w: Weight, s: seq<Weight>, i: nat, l: nat)
    requires i < l <= |s| && Group(w, s, i, l)
    ensures forall j | i <= j < l :: s[j].target == s[i].target
    ensures w == Weight(s[i].kind, s[i].target, Capped(TotalTo(s[..l], s[i].target))) && w.amount > 0
  {
  }

  lemma Recollated(r: seq<Weight>, s: seq<Weight>, ws: seq<Weight>)
    requires Collated(r, s) && multiset(s) == multiset(ws)
    ensures Collated(r, ws)
  {
    forall w | w in r ensures Drawn(w, ws) {
      var v :| v in s && v.target == w.target && v.kind == w.kind;
      assert v in multiset(ws);
    }
    forall t ensures TotalTo(r, t) == Capped(TotalTo(ws, t)) { TotalPermuted(s, ws, t); }
  }

  function Targets(ws: seq<Weight>): set<nat> { set w | w in ws :: w.target }

  lemma {:induction false} TargetsCount(ws: seq<Weight>)
    ensures |Targets(ws)| <= |ws|
    ensures |Targets(ws)| == |ws| ==> Distinct(ws)
  {
    if ws != [] {
      var n := |ws| - 1;
      TargetsCount(ws[..n]);
      assert Targets(ws) == Targets(ws[..n]) + {ws[n].target} by {
        assert ws == ws[..n] + [ws[n]];
      }
      if ws[n].target !in Targets(ws[..n]) {
        forall i | 0 <= i < n ensures ws[i].target != ws[n].target { assert ws[i] in ws[..n]; }
      }
    }
  }

  /** What the hash table holds once the first edges are in. */
  ghost predicate Table(combined: map<nat, Weight>, ws: seq<Weight>) {
    && combined.Keys == Targets(ws)
    && forall t | t in combined ::
         combined[t].target == t && combined[t].amount > 0 && combined[t].amount == Capped(TotalTo(ws, t)) && Drawn(combined[t], ws)
  }

  lemma SlotFits(combined: map<nat, Weight>, ws: seq<Weight>, i: nat, slot: Weight)
    requires i < |ws| && Positive(ws) && OneKind(ws) && Table(combined, ws[..i])
    requires slot == if ws[i].target in combined then combined[ws[i].target] else Weight(Local, 0, 0)
    ensures slot.amount > 0 ==> slot.kind == ws[i].kind && slot.target == ws[i].target
    ensures slot.amount == Capped(TotalTo(ws[..i], ws[i].target))
  {
    var w := ws[i];
    assert w in ws;
    if w.target in combined {
      var v :| v in ws[..i] && v.target == w.target && v.kind == slot.kind;
      assert v in ws;
    } else {
      forall v | v in ws[..i] ensures v.target != w.target { assert v.target in Targets(ws[..i]); }
      TotalToAbsent(ws[..i], w.target);
    }
  }

  lemma TableGrows(combined: map<nat, Weight>, ws: seq<Weight>, i: nat, slot: Weight)
    requires i < |ws| && Positive(ws) && OneKind(ws) && Table(combined, ws[..i])
    requires slot == if ws[i].target in combined then combined[ws[i].target] else Weight(Local, 0, 0)
    ensures slot.amount > 0 ==> slot.kind == ws[i].kind && slot.target == ws[i].target
    ensures Table(combined[ws[i].target := CombineWeight(slot, ws[i])], ws[..i + 1])
  {
    hide CombineWeight, TotalTo, OneKind;
    var w := ws[i];
    SlotFits(combined, ws, i, slot);
    CombineAdds(slot, w, TotalTo(ws[..i], w.target));
    var next := combined[w.target := CombineWeight(slot, w)];
    assert w in ws && ws[..i + 1] == ws[..i] + [w];
    assert Targets(ws[..i + 1]) == Targets(ws[..i]) + {w.target};
    forall t | t in next
      ensures next[t].target == t && next[t].amount > 0
      ensures next[t].amount == Capped(TotalTo(ws[..i + 1], t)) && Drawn(next[t], ws[..i + 1])
    {
      TotalTake(ws, i, t);
      if t == w.target {
        assert w in ws[..i + 1];
      } else {
        var v :| v in ws[..i] && v.target == combined[t].target && v.kind == combined[t].kind;
        assert v in ws[..i + 1];
      }
    }
  }

  lemma UnchangedCollated(ws: seq<Weight>)
    requires Positive(ws) && Distinct(ws)
    ensures Collated(ws, ws)
  {
    forall t ensures TotalTo(ws, t) == Capped(TotalTo(ws, t)) {
      if i :| 0 <= i < |ws| && ws[i].target == t {
        TotalToPresent(ws, i);
      } else {
        TotalToAbsent(ws, t);
      }
    }
  }

  /** The weights read from the table so far; those of `rest` are to come. */
  ghost predicate Read(combined: map<nat, Weight>, rest: set<nat>, r: seq<Weight>) {
    && rest <= combined.Keys && Distinct(r) && Targets(r) == combined.Keys - rest && |r| + |rest| == |combined|
    && forall w | w in r :: w.target in combined && w == combined[w.target]
  }

  lemma ReadOne(combined: map<nat, Weight>, ws: seq<Weight>, rest: set<nat>, r: seq<Weight>, t: nat)
    requires Table(combined, ws) && Read(combined, rest, r) && t in rest
    ensures Read(combined, rest - {t}, r + [combined[t]])
  {
    forall w | w in r ensures w.target != t { assert w.target in Targets(r); }
    assert Targets(r + [combined[t]]) == Targets(r) + {t};
  }

  lemma TableCollated(combined: map<nat, Weight>, ws: seq<Weight>, r: seq<Weight>)
    requires Table(combined, ws) && Read(combined, {}, r)
    ensures Collated(r, ws)
  {
    forall t ensures TotalTo(r, t) == Capped(TotalTo(ws, t)) {
      if t in combined {
        assert t in Targets(r);
        var w :| w in r && w.target == t;
        var i :| 0 <= i < |r| && r[i] == w;
        TotalToPresent(r, i);
      } else {
        forall w | w in r ensures w.target != t { assert w.target in Targets(r); }
        forall w | w in ws ensures w.target != t { assert w.target in Targets(ws); }
        TotalToAbsent(r, t);
        TotalToAbsent(ws, t);
      }
    }
  }

  /** A hash table from targets to weights, emptied in whatever order it iterates. */
  method CombineByHashing(weights0: seq<Weight>) returns (weights: seq<Weight>)
    requires Positive(weights0) && OneKind(weights0)
    ensures Collated(weights, weights0) && |weights| <= |weights0|
  {
    hide Table, Collated, Read, Positive, OneKind, Targets;
    var combined: map<nat, Weight> := map[];
    EmptyTable(weights0);
    for i := 0 to |weights0|
      invariant Table(combined, weights0[..i])
    {
      var w := weights0[i];
      var slot := if w.target in combined then combined[w.target] else Weight(Local, 0, 0);
      TableGrows(combined, weights0, i, slot);
      combined := combined[w.target := CombineWeight(slot, w)];
    }
    assert weights0[..|weights0|] == weights0;
    TableSize(combined, weights0);
    if |weights0| == |combined| {
      UnchangedCollated(weights0);
      return weights0;
    }
    weights := [];
    var rest := combined.Keys;
    while rest != {}
      invariant Read(combined, rest, weights) && rest <= combined.Keys && |weights| + |rest| == |combined|
      decreases |rest|
    {
      var t :| t in rest;
      ReadOne(combined, weights0, rest, weights, t);
      weights := weights + [combined[t]];
      rest := rest - {t};
    }
    TableCollated(combined, weights0, weights);
  }

  lemma EmptyTable(ws: seq<Weight>)
    ensures Table(map[], ws[..0])
  {
    assert ws[..0] == [] && Targets([]) == {};
  }

  lemma TableSize(combined: map<nat, Weight>, ws: seq<Weight>)
    requires Table(combined, ws)
    ensures |combined| == |combined.Keys| <= |ws| && (|combined| == |ws| ==> Distinct(ws))
    ensures Read(combined, combined.Keys, [])
  {
    TargetsCount(ws);
  }

  /** Both ways of combining hold the same weights. */
  lemma CollatedIsUnique(r: seq<Weight>, s: seq<Weight>, ws: seq<Weight>)
    requires OneKind(ws) && Collated(r, ws) && Collated(s, ws)
    ensures multiset(r) == multiset(s)
  {
    forall w: Weight ensures multiset(r)[w] == multiset(s)[w] {
      if w in r { CollatedHas(r, s, ws, w); OnceOnly(r, w); }
      if w in s { CollatedHas(s, r, ws, w); OnceOnly(s, w); }
      if w in r { OnceOnly(s, w); }
      if w in s { OnceOnly(r, w); }
    }
  }

  lemma CollatedHas(r: seq<Weight>, s: seq<Weight>, ws: seq<Weight>, w: Weight)
    requires OneKind(ws) && Collated(r, ws) && Collated(s, ws) && w in r
    ensures w in s
  {
    var i :| 0 <= i < |r| && r[i] == w;
    TotalToPresent(r, i);
    if forall v | v in s :: v.target != w.target {
      TotalToAbsent(s, w.target);
    } else {
      var j :| 0 <= j < |s| && s[j].target == w.target;
      TotalToPresent(s, j);
      assert s[j] in s;
      assert Drawn(w, ws) && Drawn(s[j], ws);
    }
  }

  lemma {:induction false} OnceOnly(r: seq<Weight>, w: Weight)
    requires Distinct(r) && w in r
    ensures multiset(r)[w] == 1
  {
    var i :| 0 <= i < |r| && r[i] == w;
    assert r == r[..i] + [w] + r[i + 1..];
    assert w !in r[..i] && w !in r[i + 1..];
  }

  // Scaling

  const MAX_32: nat := TWO_32 - 1

  function ShiftRightAndRound(n: nat, shift: nat): nat {
    if shift == 0 then n else Quotient(n, Pow2(shift)) + Remainder(Quotient(n, Pow2(shift - 1)), 2)
  }

  function CountLeadingZeros(x: Mass): int { if x == 0 then 64 else 63 - Log2(x) }

  /** At least 1, so that no edge loses its share altogether. */
  function Shrunk(n: nat, shift: nat): nat {
    if ShiftRightAndRound(n, shift) > 1 then ShiftRightAndRound(n, shift) else 1
  }

  /** Shifting rounds to the nearest multiple. */
  lemma RoundsToNearest(n: nat, shift: nat)
    requires shift > 0
    ensures var r := ShiftRightAndRound(n, shift) * Pow2(shift);
            n < r + Pow2(shift - 1) && r <= n + Pow2(shift - 1)
  {
    var h := Pow2(shift - 1);
    var q, r := n / (2 * h), n % (2 * h);
    assert n == q * (2 * h) + r;
    Distribute(h, 2 * q, -(r / h));
    Half(r, h);
    UniqueRemainder(n, h, 2 * q + r / h, r % h);
    assert n / h == 2 * q + r / h;
    Distribute(2 * h, q, -(r / h));
  }

  lemma Half(r: nat, h: nat)
    requires h > 0 && r < 2 * h
    ensures r / h == if r < h then 0 else 1
    ensures r == r / h * h + r % h
  {
    UniqueRemainder(r, h, if r < h then 0 else 1, if r < h then r else r - h);
  }

  lemma ShrunkFits(n: Mass, shift: nat)
    requires shift > 0
    ensures Shrunk(n, shift) <= n / 2 + 1 < TWO_64
  {
    Pow2Grows(1, shift);
    Pow2Grows(0, shift - 1);
    DivideMore(n, 2, Pow2(shift));
  }

  lemma DivideMore(n: nat, a: nat, b: nat)
    requires 0 < a <= b
    ensures n / b <= n / a
  {
    ProductBound(n / b, a, n / b, b);
    assert n / b * b <= n;
    QuotientAtLeast(n, a, n / b);
  }

  lemma {:induction false} ShrunkTotal(ws: seq<Weight>, r: seq<Weight>, shift: nat)
    requires shift > 0 && |r| == |ws| && forall i | 0 <= i < |r| :: r[i].amount == Shrunk(ws[i].amount, shift)
    ensures Total(r) * Pow2(shift) <= Total(ws) + |ws| * Pow2(shift)
  {
    var n, p := |ws| - 1, Pow2(shift);
    if ws != [] {
      ShrunkTotal(ws[..n], r[..n], shift);
      RoundsToNearest(ws[n].amount, shift);
      ShrunkStep(Total(r[..n]), r[n].amount, Total(ws[..n]), ws[n].amount, n, p);
    }
  }

  lemma ShrunkStep(rs: nat, r: nat, ws: nat, w: nat, n: nat, p: nat)
    requires rs * p <= ws + n * p && r * p <= w + p
    ensures (rs + r) * p <= ws + w + (n + 1) * p
  {
    Distribute(p, rs, -(r as int));
    Distribute(p, n, -1);
  }

  function ShiftFor(total: Mass, didOverflow: bool): int {
    if didOverflow then 33 else if total > MAX_32 then 33 - CountLeadingZeros(total) else 0
  }

  lemma {:induction false} Log2Range(x: nat, lo: nat, hi: nat)
    requires x > 0 && Pow2(lo) <= x < Pow2(hi)
    ensures lo <= Log2(x) < hi
    decreases x
  {
    assert Pow2(0) == 1;
    if x > 1 { Log2Range(x / 2, if lo == 0 then 0 else lo - 1, hi - 1); }
  }

  /** Below 2^64 the shift leaves less than 2^31. */
  lemma ShiftLeaves31(total: Mass)
    requires total > MAX_32
    ensures 2 <= ShiftFor(total, false) <= 33 && total < Pow2(31) * Pow2(ShiftFor(total, false))
  {
    hide Log2, Pow2;
    Pow2Values();
    Log2Range(total, 32, 64);
    ShiftProduct(total, Log2(total));
  }

  lemma ShiftProduct(total: nat, n: nat)
    requires n >= 32 && total > 0 && Log2(total) == n
    ensures total < Pow2(31) * Pow2(n - 30)
  {
    Pow2Sum(31, n - 30);
    assert Pow2(n + 1) == 2 * Pow2(n);
  }

  /** And no smaller shift does: one less leaves 2^31 or more. */
  lemma ShiftIsLeast(total: Mass)
    requires total > MAX_32
    ensures 2 <= ShiftFor(total, false) && total >= Pow2(31) * Pow2(ShiftFor(total, false) - 1)
    ensures total >= Pow2(30) * Pow2(ShiftFor(total, false))
  {
    hide Log2, Pow2;
    Pow2Values();
    Log2Range(total, 32, 64);
    ShiftUnder(total, Log2(total));
  }

  lemma ShiftUnder(total: nat, n: nat)
    requires n >= 32 && total > 0 && Log2(total) == n
    ensures Pow2(30) * Pow2(n - 30) <= total && Pow2(31) * Pow2(n - 31) <= total
  {
    Pow2Sum(30, n - 30);
    Pow2Sum(31, n - 31);
  }

  lemma Fewer(t: nat, p: nat, w: nat, n: nat, k: nat)
    requires p > 0 && t * p <= w + n * p && w < k * p && n <= k
    ensures t < 2 * k
  {
    ProductBound(n, p, k, p);
    assert 2 * k * p == k * p + k * p;
    UniqueRemainder(t * p, p, t, 0);
    QuotientBelow(t * p, p, 2 * k);
  }

  lemma ShrunkTotalFits(ws: seq<Weight>, r: seq<Weight>, shift: nat)
    requires shift > 0 && |r| == |ws| <= Pow2(31) && forall i | 0 <= i < |r| :: r[i].amount == Shrunk(ws[i].amount, shift)
    requires Total(ws) < Pow2(31) * Pow2(shift)
    ensures Total(r) <= MAX_32
  {
    hide Pow2, Shrunk, Total;
    Pow2Values();
    ShrunkTotal(ws, r, shift);
    Fewer(Total(r), Pow2(shift), Total(ws), |ws|, Pow2(31));
  }

  /** Sorting below 129 edges, hashing above. */
  method CombineWeights(weights0: seq<Weight>) returns (weights: seq<Weight>)
    requires Positive(weights0) && OneKind(weights0)
    ensures Collated(weights, weights0) && |weights| <= |weights0|
  {
    if |weights0| > 128 {
      weights := CombineByHashing(weights0);
    } else {
      weights := CombineBySorting(weights0);
    }
  }

  /** A single edge gets everything; otherwise amounts are shifted where the total needs it. */
  function Scaled(n: Mass, count: nat, shift: int): Mass {
    if count == 1 then 1 else if shift <= 0 then n else ShrunkFits(n, shift); Shrunk(n, shift)
  }

  function ScaledAll(c: seq<Weight>, shift: int): (r: seq<Weight>)
    ensures |r| == |c| && forall i | 0 <= i < |r| :: r[i] == c[i].(amount := Scaled(c[i].amount, |c|, shift))
  {
    seq(|c|, i requires 0 <= i < |c| => c[i].(amount := Scaled(c[i].amount, |c|, shift)))
  }

  lemma ShrunkFull()
    ensures Shrunk(FULL, 33) == 0x8000_0000
  {
    Pow2Values();
    assert Pow2(33) == 2 * Pow2(32);
  }

  /** Total may overflow once, and then the scaled total need not fit 32 bits: here it is 2^32. */
  lemma OverflowMayNotFit()
    ensures var ws := [Weight(Local, 0, FULL), Weight(Local, 1, FULL)];
            Collated(ws, ws) && Total(ws) < 2 * TWO_64 && Total(ScaledAll(ws, ShiftFor((FULL + FULL) % TWO_64, true))) == MAX_32 + 1
  {
    hide Shrunk;
    var ws := [Weight(Local, 0, FULL), Weight(Local, 1, FULL)];
    UnchangedCollated(ws);
    ShrunkFull();
    TwoTotal(ws);
    TwoTotal(ScaledAll(ws, 33));
  }

  lemma TwoTotal(ws: seq<Weight>)
    requires |ws| == 2
    ensures Total(ws) == ws[0].amount + ws[1].amount
  {
    var one := ws[..1];
    assert |one| == 1 && one[..0] == [];
    assert Total(one) == ws[0].amount;
    assert ws[..|ws| - 1] == one;
  }

  /** The collated weights of ws, scaled. */
  ghost predicate Normalized(r: seq<Weight>, ws: seq<Weight>, shift: int) {
    exists c :: Collated(c, ws) && r == ScaledAll(c, shift)
  }

  lemma CollatedTotal(c: seq<Weight>, ws: seq<Weight>)
    requires Collated(c, ws) && Total(ws) < TWO_64
    ensures Total(c) == Total(ws)
  {
    forall t ensures TotalTo(c, t) == TotalTo(ws, t) { TotalToAtMost(ws, t); }
    TotalByTarget(c, ws);
  }

  lemma ScaledKeeps(c: seq<Weight>, shift: int)
    requires Positive(c) && Distinct(c)
    ensures Positive(ScaledAll(c, shift)) && Distinct(ScaledAll(c, shift))
  {
    var r := ScaledAll(c, shift);
    forall w | w in r ensures w.amount > 0 {
      var i :| 0 <= i < |r| && r[i] == w;
      assert c[i] in c;
    }
  }

  lemma {:induction false} TotalBound(r: seq<Weight>, bound: nat)
    requires forall i | 0 <= i < |r| :: r[i].amount <= bound
    ensures Total(r) <= |r| * bound
  {
    if r != [] {
      TotalBound(r[..|r| - 1], bound);
      Distribute(bound, |r| - 1, -1);
    }
  }

  // After an overflow

  /** Shifting by 33 rounds an amount up: the first bit lost is set, or nothing would be left. */
  predicate RoundsUp(n: nat) { Remainder(Quotient(n, TWO_32), 2) == 1 || n < TWO_32 }

  /** What the shift leaves without rounding, and how many weights are rounded up. */
  function HighParts(ws: seq<Weight>): nat {
    if ws == [] then 0 else HighParts(ws[..|ws| - 1]) + Quotient(ws[|ws| - 1].amount, 2 * TWO_32)
  }

  function RoundedUp(ws: seq<Weight>): nat {
    if ws == [] then 0 else RoundedUp(ws[..|ws| - 1]) + if RoundsUp(ws[|ws| - 1].amount) then 1 else 0
  }

  lemma ShrunkParts(n: nat)
    ensures Shrunk(n, 33) == Quotient(n, 2 * TWO_32) + if RoundsUp(n) then 1 else 0
  {
    hide Pow2;
    Pow2Values();
    Pow2Sum(32, 1);
    assert Pow2(1) == 2 by { TwoToOne(); }
    Halves(n, TWO_32);
  }

  lemma Halves(n: nat, d: nat)
    requires d > 0
    ensures Quotient(n, 2 * d) == Quotient(Quotient(n, d), 2)
    ensures n < d <==> Quotient(n, d) == 0
  {
    var q := n / d;
    assert n == q * d + n % d;
    var h := q / 2;
    assert q == 2 * h + q % 2;
    Distribute(d, 2 * h, -(q % 2));
    assert n == h * (2 * d) + (q % 2 * d + n % d);
    if q % 2 == 1 { assert q % 2 * d == d; }
    UniqueRemainder(n, 2 * d, h, q % 2 * d + n % d);
    if q == 0 { assert n == n % d; }
    if q > 0 { AtLeast(q, d); }
  }

  lemma {:induction false} ScaledParts(c: seq<Weight>, r: seq<Weight>)
    requires |r| == |c| && forall i | 0 <= i < |c| :: r[i].amount == Shrunk(c[i].amount, 33)
    ensures Total(r) == HighParts(c) + RoundedUp(c)
    decreases |c|
  {
    hide Shrunk, RoundsUp;
    if c != [] {
      var n := |c| - 1;
      ScaledParts(c[..n], r[..n]);
      ShrunkParts(c[n].amount);
      assert r == r[..n] + [r[n]];
      TotalPush(r[..n], r[n], 0);
    }
  }

  /** After an overflow the scaled total fits 32 bits exactly when the high parts and the weights rounded up do together. */
  lemma FitsIffFewRoundUp(c: seq<Weight>, ws: seq<Weight>)
    requires Collated(c, ws) && |c| > 1 && TWO_64 <= Total(ws)
    ensures Total(ScaledAll(c, ShiftFor(Total(ws) % TWO_64, true))) <= MAX_32 <==> HighParts(c) + RoundedUp(c) <= MAX_32
  {
    hide Shrunk, Total, Collated;
    ScaledParts(c, ScaledAll(c, 33));
  }


  /** Room for every amount to be rounded up after the largest shift. */
  predicate Roomy(ws: seq<Weight>) { Total(ws) + |ws| * (2 * TWO_32) < 2 * TWO_64 }

  lemma {:induction false} CollatedAtMost(c: seq<Weight>, ws: seq<Weight>)
    requires forall t :: TotalTo(c, t) <= TotalTo(ws, t)
    ensures Total(c) <= Total(ws)
    decreases |c|
  {
    if c != [] {
      var t := c[|c| - 1].target;
      forall u ensures TotalTo(Without(c, t), u) <= TotalTo(Without(ws, t), u) {
        if u == t {
          TotalToAbsent(Without(c, t), t);
        } else {
          TotalWithout(c, t, u);
          TotalWithout(ws, t, u);
        }
      }
      TotalWithout(c, t, t);
      TotalWithout(ws, t, t);
      WithoutShrinks(c, t);
      CollatedAtMost(Without(c, t), Without(ws, t));
    }
  }

  lemma {:induction false} WithoutShrinks(ws: seq<Weight>, t: nat)
    requires ws != [] && ws[|ws| - 1].target == t
    ensures |Without(ws, t)| < |ws|
  {
  }

  lemma OverflowFits(c: seq<Weight>, r: seq<Weight>, ws: seq<Weight>)
    requires Collated(c, ws) && |c| <= |ws| && Roomy(ws) && |r| == |c|
    requires forall i | 0 <= i < |r| :: r[i].amount == Shrunk(c[i].amount, 33)
    ensures Total(r) <= MAX_32
  {
    hide Shrunk, Pow2, Total;
    Pow2Values();
    Pow2Sum(32, 1);
    assert Pow2(1) == 2 by { TwoToOne(); }
    ShrunkTotal(c, r, 33);
    CollatedAtMost(c, ws);
    assert Pow2(33) == 2 * TWO_32;
    assert Total(r) * (2 * TWO_32) <= Total(c) + |c| * (2 * TWO_32);
  }

  lemma TwoToOne()
    ensures Pow2(1) == 2
  {
  }

  /** The total of the scaled weights does not wrap around. */
  lemma ScaledTotal(c: seq<Weight>, ws: seq<Weight>)
    requires Collated(c, ws) && 1 < |c| <= |ws| && |c| <= Pow2(31)
    ensures var r := ScaledAll(c, ShiftFor(Total(ws) % TWO_64, Total(ws) >= TWO_64));
            && Total(r) < TWO_64
            && (Total(ws) < TWO_64 ==> Total(r) <= MAX_32)
            && (Roomy(ws) ==> Total(r) <= MAX_32)
  {
    hide Total, Collated, Pow2, Shrunk;
    var shift := ShiftFor(Total(ws) % TWO_64, Total(ws) >= TWO_64);
    var r := ScaledAll(c, shift);
    Pow2Values();
    if Total(ws) >= TWO_64 {
      forall i | 0 <= i < |r| ensures r[i].amount <= Pow2(31) { ShrunkBy33(c[i].amount); }
      TotalBound(r, Pow2(31));
      ProductBound(|r|, Pow2(31), Pow2(31), Pow2(31));
      if Roomy(ws) { OverflowFits(c, r, ws); }
    } else {
      SmallModulus(Total(ws), TWO_64);
      CollatedTotal(c, ws);
      if Total(ws) <= MAX_32 {
        assert r == c;
      } else {
        ShiftLeaves31(Total(ws));
        ShrunkTotalFits(c, r, shift);
      }
    }
  }

  lemma SmallModulus(x: nat, m: nat)
    requires x < m
    ensures x % m == x
  {
    UniqueRemainder(x, m, 0, x);
  }

  lemma ShrunkBy33(n: Mass)
    ensures Shrunk(n, 33) <= Pow2(31)
  {
    Pow2Values();
    assert Pow2(33) == 2 * Pow2(32);
  }

  lemma {:induction false} TotalPrefix(r: seq<Weight>, i: nat)
    requires i <= |r|
    ensures Total(r[..i]) <= Total(r)
  {
    if i < |r| {
      TotalPrefix(r[..|r| - 1], i);
      assert r[..|r| - 1][..i] == r[..i];
    } else {
      assert r[..i] == r;
    }
  }

  /** A sum that is smaller than what it started from has wrapped around. */
  lemma AddWraps(sum: nat, total: Mass, amount: Mass)
    requires sum + amount < 2 * TWO_64 && total == sum % TWO_64
    ensures (total + amount) % TWO_64 == (sum + amount) % TWO_64
    ensures sum < TWO_64 ==> ((total + amount) % TWO_64 < total <==> sum + amount >= TWO_64)
    ensures sum >= TWO_64 ==> (total + amount) % TWO_64 >= total
  {
    UniqueRemainder(sum, TWO_64, if sum < TWO_64 then 0 else 1, if sum < TWO_64 then sum else sum - TWO_64);
    var n := sum + amount;
    UniqueRemainder(n, TWO_64, if n < TWO_64 then 0 else 1, if n < TWO_64 then n else n - TWO_64);
    var m := total + amount;
    UniqueRemainder(m, TWO_64, if m < TWO_64 then 0 else 1, if m < TWO_64 then m else m - TWO_64);
  }

  lemma PositivePush(ws: seq<Weight>, w: Weight)
    requires Positive(ws) && w.amount > 0
    ensures Positive(ws + [w])
  {
  }

  /** The loop of normalize: each weight scaled, the total summed anew. */
  method ScaleWeights(weights0: seq<Weight>, shift: int) returns (weights: seq<Weight>, total: Mass)
    requires Total(ScaledAll(weights0, shift)) < TWO_64
    ensures weights == ScaledAll(weights0, shift) && total == Total(weights)
  {
    hide Total, Scaled;
    weights, total := weights0, 0;
    ghost var r := ScaledAll(weights0, shift);
    EmptyTotal();
    assert r[..0] == [];
    for i := 0 to |weights|
      invariant |weights| == |r| && weights[..i] == r[..i] && weights[i..] == weights0[i..]
      invariant total == Total(r[..i])
    {
      assert weights[i] == weights[i..][0] == weights0[i];
      weights := weights[i := weights[i].(amount := Scaled(weights[i].amount, |weights|, shift))];
      TotalTake(r, i, 0);
      TotalPrefix(r, i + 1);
      total := total + weights[i].amount;
    }
    assert weights == r && r[..|r|] == r;
  }

  lemma EmptyTotal()
    ensures Total([]) == 0
  {
  }

  class Distribution {
    var weights: seq<Weight>
    var total: Mass
    var didOverflow: bool

    ghost predicate Valid()
      reads this
    {
      && Positive(weights) && OneKind(weights) && Total(weights) < 2 * TWO_64
      && total == Total(weights) % TWO_64 && didOverflow == (Total(weights) >= TWO_64)
    }

    constructor ()
      ensures Valid() && weights == []
    {
      weights, total, didOverflow := [], 0, false;
    }

    method Add(kind: Kind, target: nat, amount: Mass)
      requires Valid() && amount > 0 && OneKind(weights + [Weight(kind, target, amount)])
      requires Total(weights) + amount < 2 * TWO_64
      modifies this
      ensures Valid() && weights == old(weights) + [Weight(kind, target, amount)]
    {
      hide Positive, OneKind, Total;
      AddWraps(Total(weights), total, amount);
      TotalPush(weights, Weight(kind, target, amount), 0);
      PositivePush(weights, Weight(kind, target, amount));
      var newTotal := (total + amount) % TWO_64;
      var isOverflow := newTotal < total;
      didOverflow := didOverflow || isOverflow;
      total := newTotal;
      weights := weights + [Weight(kind, target, amount)];
    }

    /** Collates the weights and scales them down, to fit 32 bits in all unless the total overflowed by much. */
    method Normalize()
      requires Valid() && |weights| <= Pow2(31)
      modifies this
      ensures old(weights) == [] ==> weights == [] && total == old(total)
      ensures old(weights) != [] ==>
                && Normalized(weights, old(weights), ShiftFor(old(total), old(didOverflow)))
                && weights != [] && Positive(weights) && Distinct(weights) && |weights| <= old(|weights|) && total == Total(weights)
                && (!old(didOverflow) || Roomy(old(weights)) ==> total <= MAX_32)
    {
      hide Collated, ShiftFor, Pow2, Total, Scaled, ScaledAll, Normalized, Positive, Distinct, OneKind, Roomy;
      if weights == [] { return; }
      ghost var ws := weights;
      if |weights| > 1 {
        weights := CombineWeights(weights);
      } else {
        UnchangedCollated(weights);
      }
      ghost var c := weights;
      CollatedFacts(c, ws);
      var shift := ShiftFor(total, didOverflow);
      ScaledKeeps(c, shift);
      IsNormalized(c, ws, shift);
      if |weights| == 1 {
        OneScaled(c, shift);
        total := 1;
        weights := [weights[0].(amount := 1)];
        return;
      }
      ScaledTotal(c, ws);
      if shift == 0 {
        NotScaled(c, ws);
        return;
      }
      ShiftPositive(total, didOverflow);
      weights, total := ScaleWeights(weights, shift);
    }
  }

  lemma IsNormalized(c: seq<Weight>, ws: seq<Weight>, shift: int)
    requires Collated(c, ws)
    ensures Normalized(ScaledAll(c, shift), ws, shift)
  {
  }

  lemma CollatedFacts(c: seq<Weight>, ws: seq<Weight>)
    requires Collated(c, ws) && ws != [] && Positive(ws)
    ensures Positive(c) && Distinct(c) && c != []
  {
    if c == [] {
      var w := ws[0];
      assert w in ws && TotalTo(c, w.target) == 0;
      TotalToPositive(ws, 0);
    }
  }

  lemma {:induction false} TotalToPositive(ws: seq<Weight>, i: nat)
    requires i < |ws| && Positive(ws)
    ensures TotalTo(ws, ws[i].target) > 0
  {
    var n := |ws| - 1;
    assert ws[n] in ws;
    if i < n { TotalToPositive(ws[..n], i); }
  }

  lemma OneScaled(c: seq<Weight>, shift: int)
    requires |c| == 1
    ensures ScaledAll(c, shift) == [c[0].(amount := 1)] && Total([c[0].(amount := 1)]) == 1
  {
    assert [c[0].(amount := 1)][..0] == [];
  }

  lemma NotScaled(c: seq<Weight>, ws: seq<Weight>)
    requires Collated(c, ws) && |c| > 1 && ShiftFor(Total(ws) % TWO_64, Total(ws) >= TWO_64) == 0
    ensures Total(ws) < TWO_64 && ScaledAll(c, 0) == c && Total(c) == Total(ws) % TWO_64
  {
    hide Log2;
    if Total(ws) < TWO_64 {
      SmallModulus(Total(ws), TWO_64);
      CollatedTotal(c, ws);
    }
  }

  lemma ShiftPositive(total: Mass, didOverflow: bool)
    ensures ShiftFor(total, didOverflow) >= 0
  {
    if total > MAX_32 { ShiftLeaves31(total); }
  }
}
