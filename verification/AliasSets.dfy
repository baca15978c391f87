/** AliasSetTracker: pointers and instructions grouped into sets that may alias, with forwarding and reference counts. */
module AliasSets {
  import opened Wrappers

  /** Answers of the alias analysis, sizes being fixed: about two pointers, an instruction and a pointer, and two
      instructions. */
  datatype Oracle = Oracle(may: (nat, nat) -> bool, must: (nat, nat) -> bool, touches: (nat, nat) -> bool, clash: (nat, nat) -> bool)

  ghost predicate Coherent(aa: Oracle) {
    && (forall p, q :: aa.may(p, q) == aa.may(q, p))
    && (forall p, q :: aa.must(p, q) ==> aa.must(q, p) && aa.may(p, q))
    && (forall p :: aa.must(p, p))
    && (forall p, q, r :: aa.must(p, q) && aa.must(q, r) ==> aa.must(p, r))
    && (forall p, q, r :: aa.must(p, q) ==> aa.may(p, r) == aa.may(q, r))
    && (forall i, p, q :: aa.must(p, q) ==> aa.touches(i, p) == aa.touches(i, q))
    && (forall i, j :: aa.clash(i, j) == aa.clash(j, i))
  }

  lemma MustTrans(aa: Oracle, p: nat, q: nat, r: nat)
    requires Coherent(aa) && aa.must(p, q) && aa.must(q, r)
    ensures aa.must(p, r) && aa.must(q, p) && aa.may(p, r)
  {
  }

  lemma MustSame(aa: Oracle, p: nat, q: nat, r: nat)
    requires Coherent(aa) && aa.must(p, q)
    ensures aa.may(p, r) == aa.may(q, r) && aa.touches(r, p) == aa.touches(r, q)
  {
  }

  /** `refs` and `mods` say how the set is accessed. */
  datatype AliasSet = AliasSet(forward: Option<nat>, refCount: nat, must: bool, refs: bool, mods: bool, vol: bool, ptrs: seq<nat>, unknown: seq<nat>)

  /** The tracker's maps, and for the proof: the live set that each set stands for, when it began to forward, and a clock. */
  datatype Model = Model(sets: map<nat, AliasSet>, record: map<nat, nat>, root: map<nat, nat>, stamp: map<nat, nat>, clock: nat, next: nat)

  predicate Live(m: Model, s: nat) { s in m.sets && m.sets[s].forward.None? }

  /** A set forwards to one of the tracker that stands for the same live set and began to forward later, if at all. */
  predicate ChainAt(m: Model, s: nat)
    requires s in m.sets
  {
    && s < m.next && s in m.root && Live(m, m.root[s])
    && match m.sets[s].forward
       case None => m.root[s] == s
       case Some(t) =>
         && t in m.sets && t in m.root && m.root[s] == m.root[t] && m.sets[s].ptrs == [] && m.sets[s].unknown == []
         && s in m.stamp && m.stamp[s] < m.clock
         && (m.sets[t].forward.Some? ==> t in m.stamp && m.stamp[s] < m.stamp[t])
  }

  ghost predicate Chains(m: Model) { forall s {:trigger ChainAt(m, s)} | s in m.sets :: ChainAt(m, s) }

  /** The record of v names a set that stands for the one listing v. */
  predicate RecordAt(m: Model, v: nat)
    requires v in m.record
  {
    m.record[v] in m.sets && m.record[v] in m.root && m.root[m.record[v]] in m.sets && v in m.sets[m.root[m.record[v]]].ptrs
  }

  predicate ListAt(m: Model, s: nat)
    requires s in m.sets
  {
    var ptrs := m.sets[s].ptrs;
    && (forall i, j | 0 <= i < j < |ptrs| :: ptrs[i] != ptrs[j])
    && forall i | 0 <= i < |ptrs| :: ptrs[i] in m.record && m.record[ptrs[i]] in m.root && m.root[m.record[ptrs[i]]] == s
  }

  ghost predicate Records(m: Model) {
    (forall v {:trigger RecordAt(m, v)} | v in m.record :: RecordAt(m, v)) && (forall s {:trigger ListAt(m, s)} | s in m.sets :: ListAt(m, s))
  }

  function Naming(m: Model, s: nat): set<nat> { set v | v in m.record && m.record[v] == s }

  function Forwarding(m: Model, s: nat): set<nat> { set t | t in m.sets && m.sets[t].forward == Some(s) }

  /** References are records, forwarders, one for unknown instructions, and those a method holds for a moment. */
  predicate CountAt(m: Model, held: multiset<nat>, s: nat)
    requires s in m.sets
  {
    m.sets[s].refCount == |Naming(m, s)| + |Forwarding(m, s)| + (if m.sets[s].unknown != [] then 1 else 0) + held[s]
  }

  ghost predicate Counts(m: Model, held: multiset<nat>) {
    (forall s {:trigger CountAt(m, held, s)} | s in m.sets :: CountAt(m, held, s)) && (forall s | s in held :: s in m.sets)
  }

  /** A must set holds pointers that must all alias, and nothing else. */
  ghost predicate MustOk(aa: Oracle, x: AliasSet) {
    x.must ==> x.unknown == [] && forall p, q | p in x.ptrs && q in x.ptrs :: aa.must(p, q)
  }

  ghost predicate Musts(m: Model, aa: Oracle) { forall s {:trigger MustOk(aa, m.sets[s])} | s in m.sets :: MustOk(aa, m.sets[s]) }

  ghost predicate ApartAt(aa: Oracle, x: AliasSet, y: AliasSet) {
    && (forall p, q | p in x.ptrs && q in y.ptrs :: !aa.may(p, q))
    && (forall p, i | p in x.ptrs && i in y.unknown :: !aa.touches(i, p))
    && (forall i, p | i in x.unknown && p in y.ptrs :: !aa.touches(i, p))
    && (forall i, j | i in x.unknown && j in y.unknown :: !aa.clash(i, j))
  }

  ghost predicate Apart(m: Model, aa: Oracle) {
    forall s, t {:trigger ApartAt(aa, m.sets[s], m.sets[t])} | s in m.sets && t in m.sets && s != t :: ApartAt(aa, m.sets[s], m.sets[t])
  }

  ghost predicate Inv(m: Model, held: multiset<nat>, aa: Oracle) {
    Chains(m) && Records(m) && Counts(m, held) && Musts(m, aa) && Apart(m, aa)
  }

  /** Sets that nothing refers to are gone. */
  ghost predicate Positive(m: Model, but: set<nat>) { forall s | s in m.sets && s !in but :: m.sets[s].refCount > 0 }

  /** Rank along a forwarding chain; live sets come last. */
  function Rank(m: Model, s: nat): nat {
    if s in m.sets && m.sets[s].forward.Some? && s in m.stamp then m.stamp[s] else m.clock
  }

  // Chains

  lemma RankRises(m: Model, s: nat)
    requires Chains(m) && s in m.sets && m.sets[s].forward.Some?
    ensures m.sets[s].forward.value in m.sets && Rank(m, s) < Rank(m, m.sets[s].forward.value) <= m.clock
    ensures s in m.root && m.sets[s].forward.value in m.root && m.root[m.sets[s].forward.value] == m.root[s]
  {
    assert ChainAt(m, s);
    assert ChainAt(m, m.sets[s].forward.value);
  }

  function Follow(m: Model, s: nat, steps: int): nat
    decreases steps
  {
    if steps <= 0 || s !in m.sets || m.sets[s].forward.None? then s else Follow(m, m.sets[s].forward.value, steps - 1)
  }

  /** Forwarding chains are acyclic: following one ends at a live set. */
  lemma {:induction false} ForwardingEnds(m: Model, s: nat)
    requires Chains(m) && s in m.sets
    ensures s in m.root && Live(m, m.root[s]) && Follow(m, s, m.clock - Rank(m, s)) == m.root[s]
    decreases m.clock - Rank(m, s)
  {
    assert ChainAt(m, s);
    if m.sets[s].forward.Some? {
      var t := m.sets[s].forward.value;
      RankRises(m, s);
      ForwardingEnds(m, t);
      FollowMore(m, t, m.clock - Rank(m, t), m.clock - Rank(m, s) - 1);
    }
  }

  lemma {:induction false} FollowMore(m: Model, s: nat, a: int, b: int)
    requires a <= b && Live(m, Follow(m, s, a))
    ensures Follow(m, s, b) == Follow(m, s, a)
    decreases a
  {
    if a > 0 && s in m.sets && m.sets[s].forward.Some? { FollowMore(m, m.sets[s].forward.value, a - 1, b - 1); }
  }

  /** A live set that another stands for has a forwarder of its own. */
  lemma {:induction false} ChainArrives(m: Model, t: nat) returns (u: nat)
    requires Chains(m) && t in m.sets && m.sets[t].forward.Some?
    ensures t in m.root && u in Forwarding(m, m.root[t])
    decreases m.clock - Rank(m, t)
  {
    var f := m.sets[t].forward.value;
    assert ChainAt(m, t);
    RankRises(m, t);
    assert ChainAt(m, f);
    if m.sets[f].forward.None? {
      u := t;
    } else {
      u := ChainArrives(m, f);
    }
  }

  /** What refers to a set in the end is a record or an unknown instruction. */
  lemma {:induction false} Referred(m: Model, s: nat, aa: Oracle)
    requires Inv(m, multiset{}, aa) && Positive(m, {}) && s in m.sets
    ensures s in m.root && m.root[s] in m.sets && (m.sets[s].unknown != [] || m.sets[m.root[s]].ptrs != [])
    decreases Rank(m, s)
  {
    assert ChainAt(m, s) && CountAt(m, multiset{}, s);
    if m.sets[s].unknown == [] {
      if Naming(m, s) != {} {
        var v :| v in Naming(m, s);
        assert RecordAt(m, v);
      } else {
        assert |Forwarding(m, s)| > 0;
        var t :| t in Forwarding(m, s);
        assert ChainAt(m, t);
        RankRises(m, t);
        Referred(m, t, aa);
      }
    }
  }

  /** Every live set holds something; a must set a pointer. */
  lemma NoneEmpty(m: Model, s: nat, aa: Oracle)
    requires Inv(m, multiset{}, aa) && Positive(m, {}) && Live(m, s)
    ensures m.sets[s].unknown != [] || m.sets[s].ptrs != []
    ensures m.sets[s].must ==> m.sets[s].ptrs != []
  {
    Referred(m, s, aa);
    assert ChainAt(m, s) && MustOk(aa, m.sets[s]);
  }

  // What the invariant is for

  /** Pointers that may alias are in one set. */
  lemma MayAliasTogether(m: Model, p: nat, q: nat, aa: Oracle)
    requires Inv(m, multiset{}, aa) && p in m.record && q in m.record && aa.may(p, q)
    ensures m.record[p] in m.root && m.record[q] in m.root && m.root[m.record[p]] == m.root[m.record[q]]
  {
    assert RecordAt(m, p) && RecordAt(m, q);
    var s, t := m.root[m.record[p]], m.root[m.record[q]];
    assert s != t ==> ApartAt(aa, m.sets[s], m.sets[t]);
  }

  /** Each recorded pointer is listed by exactly one set, once, and it is live. */
  lemma ListedOnce(m: Model, v: nat, s: nat, aa: Oracle)
    requires Inv(m, multiset{}, aa) && s in m.sets
    ensures v in m.sets[s].ptrs <==> v in m.record && m.record[v] in m.root && m.root[m.record[v]] == s
    ensures v in m.sets[s].ptrs ==> Live(m, s) && multiset(m.sets[s].ptrs)[v] == 1
  {
    assert ListAt(m, s) && ChainAt(m, s);
    if v in m.record { assert RecordAt(m, v); }
    if v in m.sets[s].ptrs { OnceListed(m.sets[s].ptrs, v); }
  }

  lemma OnceListed(ptrs: seq<nat>, v: nat)
    requires (forall i, j | 0 <= i < j < |ptrs| :: ptrs[i] != ptrs[j]) && v in ptrs
    ensures multiset(ptrs)[v] == 1
  {
    var i :| 0 <= i < |ptrs| && ptrs[i] == v;
    assert ptrs == ptrs[..i] + [v] + ptrs[i + 1..];
    assert v !in ptrs[..i] && v !in ptrs[i + 1..];
  }

  // Dropping references

  function Lowered(m: Model, s: nat): Model
    requires s in m.sets && m.sets[s].refCount > 0
  {
    m.(sets := m.sets[s := m.sets[s].(refCount := m.sets[s].refCount - 1)])
  }

  lemma SameLinks(m: Model, n: Model)
    requires m.sets.Keys == n.sets.Keys && m.record == n.record
    requires forall s | s in m.sets :: n.sets[s].forward == m.sets[s].forward
    ensures forall s :: Naming(m, s) == Naming(n, s) && Forwarding(m, s) == Forwarding(n, s)
  {
  }

  /** n is m but for reference counts. */
  ghost predicate Recounted(m: Model, n: Model) {
    && n == m.(sets := n.sets) && n.sets.Keys == m.sets.Keys
    && forall s | s in m.sets :: n.sets[s] == m.sets[s].(refCount := n.sets[s].refCount)
  }

  /** The sets of n list what those of m list. */
  ghost predicate SameLists(m: Model, n: Model) {
    && n.sets.Keys == m.sets.Keys
    && forall s | s in m.sets :: SameList(m.sets[s], n.sets[s])
  }

  predicate SameList(x: AliasSet, y: AliasSet) { x.ptrs == y.ptrs && x.unknown == y.unknown && x.must == y.must }

  /** Two sets list the same and are accessed alike. */
  predicate Alike(x: AliasSet, y: AliasSet) { SameList(x, y) && x.refs == y.refs && x.mods == y.mods && x.vol == y.vol }

  lemma SameListsApart(m: Model, n: Model, aa: Oracle)
    requires Musts(m, aa) && Apart(m, aa) && SameLists(m, n)
    ensures Musts(n, aa) && Apart(n, aa)
  {
    forall t | t in n.sets ensures MustOk(aa, n.sets[t]) { SameMust(aa, m.sets[t], n.sets[t]); }
    forall t, u | t in n.sets && u in n.sets && t != u ensures ApartAt(aa, n.sets[t], n.sets[u]) {
      SameApart(aa, m.sets[t], m.sets[u], n.sets[t], n.sets[u]);
    }
  }

  lemma SameMust(aa: Oracle, x: AliasSet, y: AliasSet)
    requires MustOk(aa, x) && x.ptrs == y.ptrs && x.unknown == y.unknown && x.must == y.must
    ensures MustOk(aa, y)
  {
  }

  lemma SameApart(aa: Oracle, x: AliasSet, y: AliasSet, x': AliasSet, y': AliasSet)
    requires ApartAt(aa, x, y) && x.ptrs == x'.ptrs && x.unknown == x'.unknown && y.ptrs == y'.ptrs && y.unknown == y'.unknown
    ensures ApartAt(aa, x', y')
  {
  }

  lemma RecountedChains(m: Model, n: Model)
    requires Chains(m) && Recounted(m, n)
    ensures Chains(n)
  {
    forall t | t in n.sets ensures ChainAt(n, t) { assert ChainAt(m, t); }
  }

  lemma SameListsRecords(m: Model, n: Model)
    requires Records(m) && SameLists(m, n) && n.record == m.record && n.root == m.root
    ensures Records(n)
  {
    forall v | v in n.record ensures RecordAt(n, v) { assert RecordAt(m, v); }
    forall t | t in n.sets ensures ListAt(n, t) { assert ListAt(m, t); }
  }

  lemma LoweredInv(m: Model, held: multiset<nat>, s: nat, aa: Oracle)
    requires Inv(m, held + multiset{s}, aa) && s in m.sets
    ensures m.sets[s].refCount > 0 && Inv(Lowered(m, s), held, aa)
  {
    hide Chains, Records, Musts, Apart;
    assert CountAt(m, held + multiset{s}, s);
    var n := Lowered(m, s);
    RecountedChains(m, n);
    SameListsRecords(m, n);
    SameListsApart(m, n, aa);
    SameLinks(m, n);
    forall t | t in n.sets ensures CountAt(n, held, t) { assert CountAt(m, held + multiset{s}, t); }
    forall t | t in held ensures t in n.sets { assert t in held + multiset{s}; }
  }

  function Erased(m: Model, s: nat): Model { m.(sets := m.sets - {s}) }

  /** A set without references can go; what it forwards to has then one reference too many. */
  lemma ErasedInv(m: Model, held: multiset<nat>, s: nat, aa: Oracle)
    requires Inv(m, held, aa) && s in m.sets && m.sets[s].refCount == 0
    ensures m.sets[s].ptrs == [] && m.sets[s].unknown == [] && Naming(m, s) == {} && Forwarding(m, s) == {}
    ensures m.sets[s].forward.Some? ==> m.sets[s].forward.value != s && m.sets[s].forward.value in m.sets
    ensures Inv(Erased(m, s), held + (if m.sets[s].forward.Some? then multiset{m.sets[s].forward.value} else multiset{}), aa)
  {
    assert CountAt(m, held, s) && ChainAt(m, s) && ListAt(m, s);
    NotRoot(m, s);
    if m.sets[s].forward.Some? { RankRises(m, s); }
    ErasedChains(m, s);
    ErasedRecords(m, s);
    ErasedCounts(m, held, s);
    var n := Erased(m, s);
    forall t, u | t in n.sets && u in n.sets && t != u ensures ApartAt(aa, n.sets[t], n.sets[u]) {
      assert ApartAt(aa, m.sets[t], m.sets[u]);
    }
  }

  /** Without forwarders a set stands for itself at most. */
  lemma NotRoot(m: Model, s: nat)
    requires Chains(m) && Records(m) && s in m.sets && Naming(m, s) == {} && Forwarding(m, s) == {}
    ensures forall t | t in m.sets && t != s :: t in m.root && m.root[t] != s
    ensures m.sets[s].ptrs == []
  {
    forall t | t in m.sets && t != s ensures t in m.root && m.root[t] != s {
      assert ChainAt(m, t);
      if m.sets[t].forward.Some? { var u := ChainArrives(m, t); }
    }
    assert ListAt(m, s);
    var ptrs := m.sets[s].ptrs;
    assert ptrs != [] ==> ptrs[0] in m.record && ptrs[0] !in Naming(m, s) && RecordAt(m, ptrs[0]);
  }

  lemma ErasedChains(m: Model, s: nat)
    requires Chains(m) && s in m.sets && Forwarding(m, s) == {}
    requires forall t | t in m.sets && t != s :: t in m.root && m.root[t] != s
    ensures Chains(Erased(m, s))
  {
    var n := Erased(m, s);
    forall t | t in n.sets ensures ChainAt(n, t) {
      assert ChainAt(m, t) && t !in Forwarding(m, s);
    }
  }

  lemma ErasedRecords(m: Model, s: nat)
    requires Records(m) && s in m.sets && Naming(m, s) == {}
    requires forall t | t in m.sets && t != s :: t in m.root && m.root[t] != s
    ensures Records(Erased(m, s))
  {
    var n := Erased(m, s);
    forall v | v in n.record ensures RecordAt(n, v) { assert RecordAt(m, v) && v !in Naming(m, s); }
    forall t | t in n.sets ensures ListAt(n, t) { assert ListAt(m, t); }
  }

  lemma ErasedCounts(m: Model, held: multiset<nat>, s: nat)
    requires Chains(m) && Counts(m, held) && s in m.sets && Forwarding(m, s) == {} && held[s] == 0
    requires m.sets[s].forward.Some? ==> m.sets[s].forward.value != s
    ensures Counts(Erased(m, s), held + (if m.sets[s].forward.Some? then multiset{m.sets[s].forward.value} else multiset{}))
  {
    var n := Erased(m, s);
    var more := held + (if m.sets[s].forward.Some? then multiset{m.sets[s].forward.value} else multiset{});
    forall t | t in n.sets ensures CountAt(n, more, t) {
      ErasedCount(m, held, s, more, t);
    }
    forall t | t in more ensures t in n.sets {
      assert t in held || m.sets[s].forward == Some(t);
      assert ChainAt(m, s);
    }
  }

  lemma ErasedCount(m: Model, held: multiset<nat>, s: nat, more: multiset<nat>, t: nat)
    requires s in m.sets && t in m.sets && t != s && CountAt(m, held, t)
    requires more == held + (if m.sets[s].forward.Some? then multiset{m.sets[s].forward.value} else multiset{})
    ensures CountAt(Erased(m, s), more, t)
  {
    var n := Erased(m, s);
    assert Naming(n, t) == Naming(m, t);
    if m.sets[s].forward == Some(t) {
      assert s in Forwarding(m, t) && Forwarding(n, t) == Forwarding(m, t) - {s};
      assert more[t] == held[t] + 1;
    } else {
      assert Forwarding(n, t) == Forwarding(m, t);
      assert more[t] == held[t];
    }
  }

  /** Sets keep what they list; a set that is gone listed nothing. */
  ghost predicate Kept(m: Model, n: Model) {
    && n == m.(sets := n.sets, record := n.record)
    && (forall t | t in n.sets ::
          t in m.sets && n.sets[t] == m.sets[t].(refCount := n.sets[t].refCount, forward := n.sets[t].forward)
          && n.sets[t].forward.Some? == m.sets[t].forward.Some?)
    && (forall t | t in m.sets && t !in n.sets :: m.sets[t].ptrs == [] && m.sets[t].unknown == [])
  }

  /** Only sets from s on along forwarding chains are gone or have been redirected. */
  ghost predicate Beyond(m: Model, n: Model, rank: nat) {
    forall t | t in m.sets && Rank(m, t) < rank :: t in n.sets && n.sets[t].forward == m.sets[t].forward
  }

  lemma KeptTrans(m: Model, n: Model, k: Model)
    requires Kept(m, n) && Kept(n, k)
    ensures Kept(m, k)
  {
    forall t | t in m.sets && t !in k.sets ensures m.sets[t].ptrs == [] && m.sets[t].unknown == [] {
      if t in n.sets { assert n.sets[t].ptrs == []; }
    }
  }

  lemma KeptRoot(m: Model, n: Model)
    requires Kept(m, n)
    ensures n.root == m.root && n.stamp == m.stamp && n.clock == m.clock && n.next == m.next
  {
  }

  lemma KeptRank(m: Model, n: Model, t: nat)
    requires Kept(m, n) && t in n.sets
    ensures Rank(n, t) == Rank(m, t)
  {
  }

  lemma BeyondTrans(m: Model, n: Model, k: Model, rank: nat, other: nat)
    requires Kept(m, n) && Beyond(m, n, rank) && Beyond(n, k, other) && rank <= other
    ensures Beyond(m, k, rank)
  {
    forall t | t in m.sets && Rank(m, t) < rank ensures t in k.sets && k.sets[t].forward == m.sets[t].forward {
      KeptRank(m, n, t);
    }
  }

  lemma LoweredKept(m: Model, s: nat, rank: nat)
    requires s in m.sets && m.sets[s].refCount > 0
    ensures Kept(m, Lowered(m, s)) && Beyond(m, Lowered(m, s), rank)
  {
  }

  lemma ErasedKept(m: Model, s: nat)
    requires s in m.sets && m.sets[s].ptrs == [] && m.sets[s].unknown == []
    ensures Kept(m, Erased(m, s)) && Beyond(m, Erased(m, s), Rank(m, s))
  {
  }

  /** s skips f. */
  function Redirected(m: Model, s: nat, dest: nat): Model
    requires s in m.sets && dest in m.sets && s != dest
  {
    m.(sets := m.sets[dest := m.sets[dest].(refCount := m.sets[dest].refCount + 1)][s := m.sets[s].(forward := Some(dest))])
  }

  lemma RedirectedChains(m: Model, s: nat, dest: nat)
    requires Chains(m) && s in m.sets && m.sets[s].forward.Some? && s in m.root && dest == m.root[s] && Live(m, dest)
    ensures s != dest && m.sets[s].forward.value in m.sets && Chains(Redirected(m, s, dest))
  {
    assert ChainAt(m, s) && ChainAt(m, dest);
    var n := Redirected(m, s, dest);
    forall t | t in n.sets ensures ChainAt(n, t) { assert ChainAt(m, t); }
  }

  lemma RedirectedInv(m: Model, s: nat, f: nat, dest: nat, aa: Oracle)
    requires Inv(m, multiset{}, aa) && s in m.sets && m.sets[s].forward == Some(f) && f != dest
    requires s in m.root && dest == m.root[s] && Live(m, dest)
    ensures s != dest && Inv(Redirected(m, s, dest), multiset{f}, aa) && Kept(m, Redirected(m, s, dest))
  {
    hide Chains, Records, Musts, Apart, CountAt;
    var n := Redirected(m, s, dest);
    RedirectedChains(m, s, dest);
    SameListsRecords(m, n);
    SameListsApart(m, n, aa);
    forall t | t in n.sets ensures CountAt(n, multiset{f}, t) { RedirectedCount(m, s, f, dest, t); }
  }

  lemma OneMore(a: set<nat>, b: set<nat>, s: nat)
    requires s !in a && forall u :: u in b <==> u in a || u == s
    ensures |b| == |a| + 1
  {
    assert b == a + {s};
  }

  /** One forwarder moves from f to dest. */
  lemma RedirectedForwarding(m: Model, s: nat, f: nat, dest: nat, t: nat)
    requires s in m.sets && dest in m.sets && s != dest && m.sets[s].forward == Some(f) && f != dest
    ensures Naming(Redirected(m, s, dest), t) == Naming(m, t)
    ensures |Forwarding(Redirected(m, s, dest), t)| == |Forwarding(m, t)| + (if t == dest then 1 else if t == f then -1 else 0)
  {
    var n := Redirected(m, s, dest);
    assert forall u | u in m.sets && u != s :: n.sets[u].forward == m.sets[u].forward;
    assert n.record == m.record && n.sets.Keys == m.sets.Keys && n.sets[s].forward == Some(dest);
    assert forall u :: u in Forwarding(n, t) <==> if u == s then t == dest else u in Forwarding(m, t);
    hide Naming, Redirected;
    assert s in Forwarding(m, t) <==> t == f;
    var was, now := Forwarding(m, t), Forwarding(n, t);
    hide Forwarding;
    if t == dest {
      OneMore(was, now, s);
    } else if t == f {
      OneMore(now, was, s);
    } else {
      assert now == was;
    }
  }

  lemma RedirectedCount(m: Model, s: nat, f: nat, dest: nat, t: nat)
    requires Counts(m, multiset{}) && s in m.sets && dest in m.sets && s != dest && t in m.sets
    requires m.sets[s].forward == Some(f) && f != dest
    ensures CountAt(Redirected(m, s, dest), multiset{f}, t)
  {
    assert CountAt(m, multiset{}, t);
    RedirectedForwarding(m, s, f, dest, t);
    hide Counts, Naming, Forwarding;
  }

  /** The record of v names dest itself. */
  function Renamed(m: Model, v: nat, dest: nat): Model
    requires dest in m.sets
  {
    m.(record := m.record[v := dest], sets := m.sets[dest := m.sets[dest].(refCount := m.sets[dest].refCount + 1)])
  }

  lemma RenamedInv(m: Model, v: nat, dest: nat, aa: Oracle)
    requires Inv(m, multiset{}, aa) && v in m.record && m.record[v] in m.sets && m.record[v] in m.root
    requires dest == m.root[m.record[v]] && Live(m, dest) && m.record[v] != dest
    ensures Inv(Renamed(m, v, dest), multiset{m.record[v]}, aa) && Kept(m, Renamed(m, v, dest))
  {
    hide Musts, Apart, CountAt;
    var n, was := Renamed(m, v, dest), m.record[v];
    assert ChainAt(m, dest);
    forall t | t in n.sets ensures ChainAt(n, t) { assert ChainAt(m, t); }
    RenamedRecords(m, v, dest);
    SameListsApart(m, n, aa);
    forall t | t in n.sets ensures CountAt(n, multiset{was}, t) { RenamedCount(m, v, dest, t); }
  }

  lemma RenamedRecords(m: Model, v: nat, dest: nat)
    requires Chains(m) && Records(m) && v in m.record && m.record[v] in m.root && dest == m.root[m.record[v]] && Live(m, dest)
    ensures Records(Renamed(m, v, dest))
  {
    var n := Renamed(m, v, dest);
    assert ChainAt(m, dest);
    forall t | t in n.sets ensures ListAt(n, t) { assert ListAt(m, t); }
    forall u | u in n.record ensures RecordAt(n, u) { assert RecordAt(m, u); }
  }

  lemma RenamedCount(m: Model, v: nat, dest: nat, t: nat)
    requires Counts(m, multiset{}) && v in m.record && dest in m.sets && m.record[v] != dest && t in m.sets
    ensures CountAt(Renamed(m, v, dest), multiset{m.record[v]}, t)
  {
    var n := Renamed(m, v, dest);
    assert CountAt(m, multiset{}, t) && Forwarding(n, t) == Forwarding(m, t);
    if t == dest {
      assert v !in Naming(m, t) && Naming(n, t) == Naming(m, t) + {v};
    } else if t == m.record[v] {
      assert v in Naming(m, t) && Naming(n, t) == Naming(m, t) - {v};
    } else {
      assert Naming(n, t) == Naming(m, t);
    }
  }

  // Merging

  function MergedSet(x: AliasSet, y: AliasSet, must: bool): AliasSet {
    AliasSet(x.forward, x.refCount + 1 + (if x.unknown == [] && y.unknown != [] then 1 else 0), must,
             x.refs || y.refs, x.mods || y.mods, x.vol || y.vol, x.ptrs + y.ptrs, x.unknown + y.unknown)
  }

  /** `from` forwards to `into`, which takes over what it lists. */
  ghost function Merged(m: Model, into: nat, from: nat, must: bool): Model
    requires into in m.sets && from in m.sets
  {
    m.(sets := m.sets[into := MergedSet(m.sets[into], m.sets[from], must)]
                     [from := m.sets[from].(forward := Some(into), ptrs := [], unknown := [])],
       root := map t | t in m.root :: if m.root[t] == from then into else m.root[t],
       stamp := m.stamp[from := m.clock],
       clock := m.clock + 1)
  }

  ghost predicate TwoLive(m: Model, into: nat, from: nat) { Live(m, into) && Live(m, from) && into != from }

  lemma MergedChains(m: Model, into: nat, from: nat, must: bool)
    requires Chains(m) && TwoLive(m, into, from)
    ensures Chains(Merged(m, into, from, must))
  {
    var n := Merged(m, into, from, must);
    assert ChainAt(m, into) && ChainAt(m, from);
    forall t | t in n.sets ensures ChainAt(n, t) {
      assert ChainAt(m, t);
      if m.sets[t].forward.Some? { assert ChainAt(m, m.sets[t].forward.value); }
    }
  }

  lemma MergedRecords(m: Model, into: nat, from: nat, must: bool)
    requires Chains(m) && Records(m) && TwoLive(m, into, from)
    ensures Records(Merged(m, into, from, must))
  {
    var n := Merged(m, into, from, must);
    forall v | v in n.record ensures RecordAt(n, v) { assert RecordAt(m, v); }
    forall t | t in n.sets ensures ListAt(n, t) { MergedList(m, into, from, must, t); }
  }

  lemma MergedList(m: Model, into: nat, from: nat, must: bool, t: nat)
    requires Chains(m) && Records(m) && TwoLive(m, into, from) && t in m.sets
    ensures ListAt(Merged(m, into, from, must), t)
  {
    var n := Merged(m, into, from, must);
    assert ListAt(m, t) && ListAt(m, into) && ListAt(m, from);
    if t == into {
      var p, q := m.sets[into].ptrs, m.sets[from].ptrs;
      forall i, j | 0 <= i < j < |p + q| ensures (p + q)[i] != (p + q)[j] {
        assert i < |p| <= j ==> m.root[m.record[p[i]]] == into && m.root[m.record[q[j - |p|]]] == from;
      }
    }
  }

  lemma MergedCount(m: Model, into: nat, from: nat, must: bool, t: nat)
    requires Chains(m) && Counts(m, multiset{}) && TwoLive(m, into, from) && t in m.sets
    ensures CountAt(Merged(m, into, from, must), if m.sets[from].unknown != [] then multiset{from} else multiset{}, t)
  {
    var n := Merged(m, into, from, must);
    assert CountAt(m, multiset{}, t) && Naming(n, t) == Naming(m, t);
    if t == into {
      assert from !in Forwarding(m, t) && Forwarding(n, t) == Forwarding(m, t) + {from};
    } else {
      assert Forwarding(n, t) == Forwarding(m, t);
    }
  }

  lemma MergedApart(m: Model, into: nat, from: nat, must: bool, aa: Oracle)
    requires Coherent(aa) && Apart(m, aa) && TwoLive(m, into, from)
    ensures Apart(Merged(m, into, from, must), aa)
  {
    hide Coherent;
    var n := Merged(m, into, from, must);
    forall t, u | t in n.sets && u in n.sets && t != u ensures ApartAt(aa, n.sets[t], n.sets[u]) {
      if t != u && t != from && u != from {
        if u == into {
          assert ApartAt(aa, m.sets[t], m.sets[into]) && ApartAt(aa, m.sets[t], m.sets[from]);
        } else if t == into {
          assert ApartAt(aa, m.sets[into], m.sets[u]) && ApartAt(aa, m.sets[from], m.sets[u]);
        } else {
          assert ApartAt(aa, m.sets[t], m.sets[u]);
        }
      }
    }
  }

  ghost predicate AllMust(aa: Oracle, ptrs: seq<nat>) { forall p, q | p in ptrs && q in ptrs :: aa.must(p, q) }

  /** z holds what x and y held, is accessed in each way that one of them was, and is must exactly if both were and all its
      pointers must alias. */
  ghost predicate MergeOf(x: AliasSet, y: AliasSet, z: AliasSet, aa: Oracle) {
    && z.ptrs == x.ptrs + y.ptrs && z.unknown == x.unknown + y.unknown
    && (z.refs <==> x.refs || y.refs) && (z.mods <==> x.mods || y.mods) && (z.vol <==> x.vol || y.vol)
    && (z.must <==> x.must && y.must && AllMust(aa, z.ptrs))
  }

  lemma MergedIs(x: AliasSet, y: AliasSet, z: AliasSet, must: bool, aa: Oracle)
    requires Coherent(aa) && MustOk(aa, x) && MustOk(aa, y) && (x.must ==> x.ptrs != []) && (y.must ==> y.ptrs != [])
    requires must <==> x.must && y.must && aa.must(x.ptrs[0], y.ptrs[0])
    requires z == MergedSet(x, y, must).(refCount := z.refCount)
    ensures MergeOf(x, y, z, aa)
  {
    MergedMust(x, y, must, aa);
    if x.must && y.must && AllMust(aa, z.ptrs) { assert x.ptrs[0] in z.ptrs && y.ptrs[0] in z.ptrs; }
  }

  /** Two must sets make one if one pointer of each must alias. */
  lemma MergedMust(x: AliasSet, y: AliasSet, must: bool, aa: Oracle)
    requires Coherent(aa) && MustOk(aa, x) && MustOk(aa, y)
    requires must ==> x.must && y.must && x.ptrs != [] && y.ptrs != [] && aa.must(x.ptrs[0], y.ptrs[0])
    ensures MustOk(aa, MergedSet(x, y, must))
  {
    if must {
      var z := MergedSet(x, y, must);
      forall p, q | p in z.ptrs && q in z.ptrs ensures aa.must(p, q) {
        var a, b := x.ptrs[0], y.ptrs[0];
        MustBridge(aa, x.ptrs, y.ptrs, p, q);
      }
    }
  }

  lemma MustBridge(aa: Oracle, ps: seq<nat>, qs: seq<nat>, p: nat, q: nat)
    requires Coherent(aa) && ps != [] && qs != [] && aa.must(ps[0], qs[0]) && p in ps + qs && q in ps + qs
    requires forall a, b | a in ps && b in ps :: aa.must(a, b)
    requires forall a, b | a in qs && b in qs :: aa.must(a, b)
    ensures aa.must(p, q)
  {
    hide Coherent;
    assert ps[0] in ps && qs[0] in qs;
    if p in ps && q in qs {
      MustTrans(aa, p, ps[0], qs[0]);
      MustTrans(aa, p, qs[0], q);
    } else if p in qs && q in ps {
      MustTrans(aa, ps[0], qs[0], p);
      MustTrans(aa, q, ps[0], p);
      SelfMust(aa, p);
      MustTrans(aa, q, p, p);
    }
  }

  lemma MergedInv(m: Model, into: nat, from: nat, must: bool, aa: Oracle)
    requires Coherent(aa) && Inv(m, multiset{}, aa) && TwoLive(m, into, from)
    requires must ==> m.sets[into].must && m.sets[from].must && m.sets[into].ptrs != [] && m.sets[from].ptrs != []
                      && aa.must(m.sets[into].ptrs[0], m.sets[from].ptrs[0])
    ensures Inv(Merged(m, into, from, must), if m.sets[from].unknown != [] then multiset{from} else multiset{}, aa)
  {
    hide Coherent, Chains, Records, Apart, CountAt;
    var n := Merged(m, into, from, must);
    var held := if m.sets[from].unknown != [] then multiset{from} else multiset{};
    MergedChains(m, into, from, must);
    MergedRecords(m, into, from, must);
    MergedApart(m, into, from, must, aa);
    assert MustOk(aa, m.sets[into]) && MustOk(aa, m.sets[from]);
    MergedMust(m.sets[into], m.sets[from], must, aa);
    forall t | t in n.sets ensures MustOk(aa, n.sets[t]) {
      assert MustOk(aa, m.sets[t]);
      if t == from { ForwarderMust(aa, m.sets[from], into); }
    }
    forall t | t in n.sets ensures CountAt(n, held, t) { MergedCount(m, into, from, must, t); }
  }

  lemma ForwarderMust(aa: Oracle, y: AliasSet, into: nat)
    ensures MustOk(aa, y.(forward := Some(into), ptrs := [], unknown := []))
  {
  }

  // Adding and removing

  /** What may be looked up: the set of a pointer or of an instruction with unknown effects. */
  datatype Query = Ptr(v: nat) | Inst(i: nat)

  ghost predicate Aliases(aa: Oracle, x: AliasSet, q: Query) {
    match q
    case Ptr(v) => (exists p :: p in x.ptrs && aa.may(p, v)) || (exists i :: i in x.unknown && aa.touches(i, v))
    case Inst(i) => (exists j :: j in x.unknown && aa.clash(j, i)) || (exists p :: p in x.ptrs && aa.touches(i, p))
  }

  function WithPtr(x: AliasSet, v: nat, must: bool): AliasSet {
    x.(refCount := x.refCount + 1, must := must, ptrs := x.ptrs + [v])
  }

  function WithInst(x: AliasSet, i: nat, writes: bool): AliasSet {
    x.(refCount := x.refCount + (if x.unknown == [] then 1 else 0), must := false, refs := true, mods := x.mods || writes,
       unknown := x.unknown + [i])
  }

  /** No set but s aliases q. */
  ghost predicate Alone(m: Model, s: nat, q: Query, aa: Oracle) {
    forall t | t in m.sets && t != s :: !Aliases(aa, m.sets[t], q)
  }

  lemma PtrApart(aa: Oracle, x: AliasSet, y: AliasSet, v: nat, must: bool)
    requires Coherent(aa) && ApartAt(aa, x, y) && ApartAt(aa, y, x) && !Aliases(aa, y, Ptr(v))
    ensures ApartAt(aa, WithPtr(x, v, must), y) && ApartAt(aa, y, WithPtr(x, v, must))
  {
    assert forall p :: aa.may(p, v) == aa.may(v, p);
  }

  lemma InstApart(aa: Oracle, x: AliasSet, y: AliasSet, i: nat, writes: bool)
    requires Coherent(aa) && ApartAt(aa, x, y) && ApartAt(aa, y, x) && !Aliases(aa, y, Inst(i))
    ensures ApartAt(aa, WithInst(x, i, writes), y) && ApartAt(aa, y, WithInst(x, i, writes))
  {
    assert forall j :: aa.clash(j, i) == aa.clash(i, j);
  }

  /** One set changes from x to y without any link changing; what it lists stays apart from the others. */
  lemma ChangedApart(m: Model, s: nat, y: AliasSet, aa: Oracle)
    requires Musts(m, aa) && Apart(m, aa) && s in m.sets && MustOk(aa, y)
    requires forall t | t in m.sets && t != s :: ApartAt(aa, y, m.sets[t]) && ApartAt(aa, m.sets[t], y)
    ensures var n := m.(sets := m.sets[s := y]); Musts(n, aa) && Apart(n, aa)
  {
    var n := m.(sets := m.sets[s := y]);
    forall t | t in n.sets ensures MustOk(aa, n.sets[t]) { assert MustOk(aa, m.sets[t]); }
    forall t, u | t in n.sets && u in n.sets && t != u ensures ApartAt(aa, n.sets[t], n.sets[u]) {
      if t != s && u != s { assert ApartAt(aa, m.sets[t], m.sets[u]); }
    }
  }

  function Added(m: Model, s: nat, v: nat, must: bool): Model
    requires s in m.sets
  {
    m.(sets := m.sets[s := WithPtr(m.sets[s], v, must)], record := m.record[v := s])
  }

  lemma AddedInv(m: Model, s: nat, v: nat, must: bool, aa: Oracle)
    requires Coherent(aa) && Inv(m, multiset{}, aa) && Live(m, s) && v !in m.record && Alone(m, s, Ptr(v), aa)
    requires must ==> m.sets[s].must && (m.sets[s].ptrs != [] ==> aa.must(m.sets[s].ptrs[0], v))
    ensures Inv(Added(m, s, v, must), multiset{}, aa)
  {
    hide CountAt, Coherent, Aliases;
    var n, x := Added(m, s, v, must), m.sets[s];
    var y := WithPtr(x, v, must);
    forall t | t in n.sets ensures ChainAt(n, t) { assert ChainAt(m, t); }
    AddedRecords(m, s, v, must);
    assert MustOk(aa, x);
    AddedMust(x, v, must, aa);
    forall t | t in m.sets && t != s ensures ApartAt(aa, y, m.sets[t]) && ApartAt(aa, m.sets[t], y) {
      assert ApartAt(aa, x, m.sets[t]) && ApartAt(aa, m.sets[t], x);
      PtrApart(aa, x, m.sets[t], v, must);
    }
    ChangedApart(m, s, y, aa);
    SameSetsApart(m.(sets := m.sets[s := y]), n, aa);
    forall t | t in n.sets ensures CountAt(n, multiset{}, t) { AddedCount(m, s, v, must, t); }
  }

  lemma SameSetsApart(m: Model, n: Model, aa: Oracle)
    requires Musts(m, aa) && Apart(m, aa) && n.sets == m.sets
    ensures Musts(n, aa) && Apart(n, aa)
  {
  }

  lemma AddedMust(x: AliasSet, v: nat, must: bool, aa: Oracle)
    requires Coherent(aa) && MustOk(aa, x)
    requires must ==> x.must && (x.ptrs != [] ==> aa.must(x.ptrs[0], v))
    ensures MustOk(aa, WithPtr(x, v, must))
  {
    if must && x.ptrs != [] {
      forall p, q | p in x.ptrs + [v] && q in x.ptrs + [v] ensures aa.must(p, q) {
        SelfMust(aa, v);
        MustBridge(aa, x.ptrs, [v], p, q);
      }
    }
  }

  lemma SelfMust(aa: Oracle, v: nat)
    requires Coherent(aa)
    ensures aa.must(v, v)
  {
  }

  lemma AddedRecords(m: Model, s: nat, v: nat, must: bool)
    requires Chains(m) && Records(m) && Live(m, s) && v !in m.record
    ensures Records(Added(m, s, v, must))
  {
    var n := Added(m, s, v, must);
    assert ChainAt(m, s);
    forall u | u in n.record ensures RecordAt(n, u) { assert u in m.record ==> RecordAt(m, u); }
    forall t | t in n.sets ensures ListAt(n, t) { assert ListAt(m, t); }
  }

  lemma AddedCount(m: Model, s: nat, v: nat, must: bool, t: nat)
    requires Counts(m, multiset{}) && s in m.sets && v !in m.record && t in m.sets
    ensures CountAt(Added(m, s, v, must), multiset{}, t)
  {
    var n := Added(m, s, v, must);
    assert CountAt(m, multiset{}, t) && Forwarding(n, t) == Forwarding(m, t);
    assert v !in Naming(m, t) && forall u :: u in Naming(n, t) <==> if u == v then t == s else u in Naming(m, t);
    hide Counts, Naming, Forwarding;
    if t == s {
      OneMore(Naming(m, t), Naming(n, t), v);
    } else {
      assert Naming(n, t) == Naming(m, t);
    }
  }

  lemma ChangedShape(m: Model, s: nat, y: AliasSet)
    requires Chains(m) && Records(m) && Live(m, s) && y.forward.None? && y.ptrs == m.sets[s].ptrs
    ensures var n := m.(sets := m.sets[s := y]); Chains(n) && Records(n)
  {
    var n := m.(sets := m.sets[s := y]);
    forall t | t in n.sets ensures ChainAt(n, t) { assert ChainAt(m, t); }
    forall v | v in n.record ensures RecordAt(n, v) { assert RecordAt(m, v); }
    forall t | t in n.sets ensures ListAt(n, t) { assert ListAt(m, t); }
  }

  lemma InstInv(m: Model, s: nat, i: nat, writes: bool, aa: Oracle)
    requires Coherent(aa) && Inv(m, multiset{}, aa) && Live(m, s) && Alone(m, s, Inst(i), aa)
    ensures Inv(m.(sets := m.sets[s := WithInst(m.sets[s], i, writes)]), multiset{}, aa)
  {
    hide Coherent, Aliases, CountAt, Chains, Records;
    var x := m.sets[s];
    var y := WithInst(x, i, writes);
    var n := m.(sets := m.sets[s := y]);
    ChangedShape(m, s, y);
    forall t | t in m.sets && t != s ensures ApartAt(aa, y, m.sets[t]) && ApartAt(aa, m.sets[t], y) {
      assert ApartAt(aa, x, m.sets[t]) && ApartAt(aa, m.sets[t], x);
      InstApart(aa, x, m.sets[t], i, writes);
    }
    NotMust(aa, y);
    ChangedApart(m, s, y, aa);
    SameLinks(m, n);
    forall t | t in n.sets ensures CountAt(n, multiset{}, t) { ChangedCount(m, s, y, t); }
  }

  lemma NotMust(aa: Oracle, y: AliasSet)
    requires !y.must
    ensures MustOk(aa, y)
  {
  }

  lemma ChangedCount(m: Model, s: nat, y: AliasSet, t: nat)
    requires Counts(m, multiset{}) && s in m.sets && t in m.sets && y.forward == m.sets[s].forward
    requires y.refCount - (if y.unknown != [] then 1 else 0) == m.sets[s].refCount - (if m.sets[s].unknown != [] then 1 else 0)
    ensures CountAt(m.(sets := m.sets[s := y]), multiset{}, t)
  {
    var n := m.(sets := m.sets[s := y]);
    SameLinks(m, n);
    assert CountAt(m, multiset{}, t);
  }

  function EmptySet(): AliasSet { AliasSet(None, 0, true, false, false, false, [], []) }

  ghost function WithEmpty(m: Model): Model {
    m.(sets := m.sets[m.next := EmptySet()], root := m.root[m.next := m.next], next := m.next + 1)
  }

  /** A new set is apart from all others and not referred to. */
  lemma EmptyInv(m: Model, aa: Oracle)
    requires Inv(m, multiset{}, aa)
    ensures m.next !in m.sets && Inv(WithEmpty(m), multiset{}, aa)
  {
    hide CountAt;
    var n := WithEmpty(m);
    assert m.next in m.sets ==> ChainAt(m, m.next);
    forall t | t in n.sets ensures ChainAt(n, t) { assert t in m.sets ==> ChainAt(m, t); }
    EmptyRecords(m);
    forall t | t in n.sets ensures MustOk(aa, n.sets[t]) { assert t in m.sets ==> MustOk(aa, m.sets[t]); }
    forall t, u | t in n.sets && u in n.sets && t != u ensures ApartAt(aa, n.sets[t], n.sets[u]) {
      assert t in m.sets && u in m.sets ==> ApartAt(aa, m.sets[t], m.sets[u]);
    }
    forall t | t in n.sets ensures CountAt(n, multiset{}, t) { EmptyCount(m, t); }
  }

  lemma EmptyRecords(m: Model)
    requires Chains(m) && Records(m) && m.next !in m.sets
    ensures Records(WithEmpty(m))
  {
    var n := WithEmpty(m);
    forall v | v in n.record ensures RecordAt(n, v) {
      assert RecordAt(m, v) && ChainAt(m, m.record[v]);
    }
    forall t | t in n.sets ensures ListAt(n, t) {
      assert t in m.sets ==> ListAt(m, t);
      if t in m.sets { EmptyList(m, t); }
    }
  }

  lemma EmptyList(m: Model, t: nat)
    requires Chains(m) && Records(m) && t in m.sets && m.next !in m.sets
    ensures ListAt(WithEmpty(m), t)
  {
    assert ListAt(m, t);
    var ptrs := m.sets[t].ptrs;
    forall i | 0 <= i < |ptrs| ensures m.record[ptrs[i]] != m.next { assert RecordAt(m, ptrs[i]); }
  }

  lemma EmptyCount(m: Model, t: nat)
    requires Chains(m) && Records(m) && Counts(m, multiset{}) && t in WithEmpty(m).sets && m.next !in m.sets
    ensures CountAt(WithEmpty(m), multiset{}, t)
  {
    var n := WithEmpty(m);
    assert Naming(n, t) == Naming(m, t) && Forwarding(n, t) == Forwarding(m, t);
    if t == m.next {
      forall v | v in m.record ensures m.record[v] != t { assert RecordAt(m, v); }
      forall u | u in m.sets ensures m.sets[u].forward != Some(t) { assert ChainAt(m, u); }
      assert Naming(m, t) == {} && Forwarding(m, t) == {};
    } else {
      assert CountAt(m, multiset{}, t);
    }
  }

  function Unlisted(ptrs: seq<nat>, v: nat): (r: seq<nat>)
    ensures forall u :: u in r ==> u in ptrs
  {
    if ptrs == [] then [] else if ptrs[0] == v then ptrs[1..] else [ptrs[0]] + Unlisted(ptrs[1..], v)
  }

  predicate Unrepeated(ptrs: seq<nat>) { forall i, j | 0 <= i < j < |ptrs| :: ptrs[i] != ptrs[j] }

  lemma {:induction false} UnlistedIs(ptrs: seq<nat>, v: nat)
    requires Unrepeated(ptrs)
    ensures Unrepeated(Unlisted(ptrs, v)) && forall u :: u in Unlisted(ptrs, v) <==> u in ptrs && u != v
  {
    if ptrs != [] {
      var tail := ptrs[1..];
      assert ptrs == [ptrs[0]] + tail;
      forall i, j | 0 <= i < j < |tail| ensures tail[i] != tail[j] { assert ptrs[i + 1] != ptrs[j + 1]; }
      forall i | 0 <= i < |tail| ensures tail[i] != ptrs[0] { assert ptrs[0] != ptrs[i + 1]; }
      UnlistedIs(tail, v);
      var rest := Unlisted(tail, v);
      forall i | 0 <= i < |rest| ensures rest[i] != ptrs[0] { assert rest[i] in tail; }
    }
  }

  /** The record of v and its place in the list of s are gone, the reference is not yet. */
  function Dropped(m: Model, s: nat, v: nat): Model
    requires s in m.sets
  {
    m.(sets := m.sets[s := m.sets[s].(ptrs := Unlisted(m.sets[s].ptrs, v))], record := m.record - {v})
  }

  lemma DroppedInv(m: Model, s: nat, v: nat, aa: Oracle)
    requires Inv(m, multiset{}, aa) && Live(m, s) && v in m.record && m.record[v] == s
    ensures Inv(Dropped(m, s, v), multiset{s}, aa)
  {
    hide CountAt, Unlisted;
    var n, x := Dropped(m, s, v), m.sets[s];
    forall t | t in n.sets ensures ChainAt(n, t) { assert ChainAt(m, t); }
    DroppedRecords(m, s, v);
    assert ListAt(m, s);
    UnlistedIs(x.ptrs, v);
    FewerApart(m, s, x.(ptrs := Unlisted(x.ptrs, v)), aa);
    SameSetsApart(m.(sets := n.sets), n, aa);
    forall t | t in n.sets ensures CountAt(n, multiset{s}, t) { DroppedCount(m, s, v, t); }
  }

  lemma FewerApart(m: Model, s: nat, y: AliasSet, aa: Oracle)
    requires Musts(m, aa) && Apart(m, aa) && s in m.sets && y.must == m.sets[s].must
    requires (forall p | p in y.ptrs :: p in m.sets[s].ptrs) && (forall i | i in y.unknown :: i in m.sets[s].unknown)
    ensures var n := m.(sets := m.sets[s := y]); Musts(n, aa) && Apart(n, aa)
  {
    assert MustOk(aa, m.sets[s]);
    assert y.unknown != [] ==> y.unknown[0] in m.sets[s].unknown;
    forall t | t in m.sets && t != s ensures ApartAt(aa, y, m.sets[t]) && ApartAt(aa, m.sets[t], y) {
      assert ApartAt(aa, m.sets[s], m.sets[t]) && ApartAt(aa, m.sets[t], m.sets[s]);
    }
    ChangedApart(m, s, y, aa);
  }

  lemma DroppedRecords(m: Model, s: nat, v: nat)
    requires Chains(m) && Records(m) && Live(m, s) && v in m.record && m.record[v] == s
    ensures Records(Dropped(m, s, v))
  {
    var n := Dropped(m, s, v);
    assert ChainAt(m, s) && ListAt(m, s);
    UnlistedIs(m.sets[s].ptrs, v);
    forall u | u in n.record ensures RecordAt(n, u) { assert RecordAt(m, u); }
    forall t | t in n.sets ensures ListAt(n, t) {
      assert ListAt(m, t);
      if t == s {
        var ptrs := n.sets[s].ptrs;
        assert Unrepeated(ptrs);
        forall i | 0 <= i < |ptrs|
          ensures ptrs[i] in n.record && n.record[ptrs[i]] in n.root && n.root[n.record[ptrs[i]]] == s
        {
          assert ptrs[i] in ptrs;
          var j :| 0 <= j < |m.sets[s].ptrs| && m.sets[s].ptrs[j] == ptrs[i];
        }
      } else {
        forall i | 0 <= i < |m.sets[t].ptrs| ensures m.sets[t].ptrs[i] != v {
          assert m.root[m.record[m.sets[t].ptrs[i]]] == t;
        }
      }
    }
  }

  lemma DroppedCount(m: Model, s: nat, v: nat, t: nat)
    requires Counts(m, multiset{}) && s in m.sets && v in m.record && m.record[v] == s && t in m.sets
    ensures CountAt(Dropped(m, s, v), multiset{s}, t)
  {
    var n := Dropped(m, s, v);
    assert CountAt(m, multiset{}, t) && Forwarding(n, t) == Forwarding(m, t);
    if t == s {
      assert v in Naming(m, t) && Naming(n, t) == Naming(m, t) - {v};
    } else {
      assert Naming(n, t) == Naming(m, t);
    }
  }

  /** Fewer unknown instructions; the last one leaves a reference behind. */
  lemma ForgottenInv(m: Model, s: nat, unknown: seq<nat>, aa: Oracle)
    requires Inv(m, multiset{}, aa) && Live(m, s) && forall i | i in unknown :: i in m.sets[s].unknown
    ensures Inv(m.(sets := m.sets[s := m.sets[s].(unknown := unknown)]),
                if m.sets[s].unknown != [] && unknown == [] then multiset{s} else multiset{}, aa)
  {
    hide CountAt, Chains, Records;
    var x := m.sets[s];
    var n := m.(sets := m.sets[s := x.(unknown := unknown)]);
    ChangedShape(m, s, x.(unknown := unknown));
    FewerApart(m, s, x.(unknown := unknown), aa);
    var held := if x.unknown != [] && unknown == [] then multiset{s} else multiset{};
    forall t | t in n.sets ensures CountAt(n, held, t) { ForgottenCount(m, s, unknown, t); }
  }

  lemma ForgottenCount(m: Model, s: nat, unknown: seq<nat>, t: nat)
    requires Counts(m, multiset{}) && s in m.sets && t in m.sets && forall i | i in unknown :: i in m.sets[s].unknown
    ensures CountAt(m.(sets := m.sets[s := m.sets[s].(unknown := unknown)]),
                    if m.sets[s].unknown != [] && unknown == [] then multiset{s} else multiset{}, t)
  {
    var n := m.(sets := m.sets[s := m.sets[s].(unknown := unknown)]);
    SameLinks(m, n);
    assert unknown != [] ==> unknown[0] in m.sets[s].unknown;
    assert CountAt(m, multiset{}, t);
  }

  /** Flags of access do not matter to the invariant. */
  lemma FlagsInv(m: Model, s: nat, y: AliasSet, aa: Oracle)
    requires Inv(m, multiset{}, aa) && Live(m, s) && y == m.sets[s].(refs := y.refs, mods := y.mods, vol := y.vol)
    ensures Inv(m.(sets := m.sets[s := y]), multiset{}, aa)
  {
    hide CountAt, Chains, Records;
    var n := m.(sets := m.sets[s := y]);
    ChangedShape(m, s, y);
    SameListsApart(m, n, aa);
    forall t | t in n.sets ensures CountAt(n, multiset{}, t) { ChangedCount(m, s, y, t); }
  }

  /** Whether v may alias something in x. For a must set one pointer speaks for all. */
  method AliasesPointer(aa: Oracle, x: AliasSet, v: nat) returns (b: bool)
    requires Coherent(aa) && MustOk(aa, x) && (x.must ==> x.ptrs != [])
    ensures b == Aliases(aa, x, Ptr(v))
  {
    if x.must {
      b := aa.may(x.ptrs[0], v);
      assert x.ptrs[0] in x.ptrs;
      forall p | p in x.ptrs ensures aa.may(p, v) == b { MustSame(aa, x.ptrs[0], p, v); }
      return;
    }
    for k := 0 to |x.ptrs|
      invariant forall l | 0 <= l < k :: !aa.may(x.ptrs[l], v)
    {
      if aa.may(v, x.ptrs[k]) {
        assert aa.may(x.ptrs[k], v) && x.ptrs[k] in x.ptrs;
        return true;
      }
      assert !aa.may(x.ptrs[k], v);
    }
    for k := 0 to |x.unknown|
      invariant forall l | 0 <= l < k :: !aa.touches(x.unknown[l], v)
    {
      if aa.touches(x.unknown[k], v) {
        assert x.unknown[k] in x.unknown;
        return true;
      }
    }
    b := false;
  }

  /** Whether an instruction with unknown effects and something in x may concern one location. */
  method AliasesUnknownInst(aa: Oracle, x: AliasSet, i: nat) returns (b: bool)
    ensures b == Aliases(aa, x, Inst(i))
  {
    for k := 0 to |x.unknown|
      invariant forall l | 0 <= l < k :: !aa.clash(x.unknown[l], i)
    {
      if aa.clash(x.unknown[k], i) {
        assert x.unknown[k] in x.unknown;
        return true;
      }
    }
    for k := 0 to |x.ptrs|
      invariant forall l | 0 <= l < k :: !aa.touches(i, x.ptrs[l])
    {
      if aa.touches(i, x.ptrs[k]) {
        assert x.ptrs[k] in x.ptrs;
        return true;
      }
    }
    b := false;
  }

  /** Live sets other than a and b stay as they are, and none becomes live. */
  ghost predicate OthersSame(m: Model, n: Model, a: nat, b: nat) {
    && (forall t | Live(m, t) && t != a && t != b :: Live(n, t) && n.sets[t] == m.sets[t].(refCount := n.sets[t].refCount))
    && (forall t | Live(n, t) :: Live(m, t))
  }

  /** A merge, after what it emptied may be gone. */
  lemma MergedKept(m: Model, k: Model, z: Model, into: nat, from: nat, must: bool, aa: Oracle)
    requires Inv(m, multiset{}, aa) && Positive(m, {}) && TwoLive(m, into, from) && k == Merged(m, into, from, must) && Kept(k, z)
    ensures OthersSame(m, z, into, from) && Live(z, into) && !Live(z, from) && z.root == k.root
    ensures z.sets[into] == k.sets[into].(refCount := z.sets[into].refCount)
    ensures forall t :: t in m.root <==> t in z.root
    ensures forall t | t in m.root :: z.root[t] == if m.root[t] == from then into else m.root[t]
  {
    NoneEmpty(m, into, aa);
    forall t | Live(m, t) && t != into && t != from
      ensures Live(z, t) && z.sets[t] == m.sets[t].(refCount := z.sets[t].refCount)
    {
      NoneEmpty(m, t, aa);
    }
  }

  lemma MergedSame(m: Model, into: nat, from: nat, must: bool)
    requires into in m.sets && from in m.sets
    ensures var k := Merged(m, into, from, must); k.sets.Keys == m.sets.Keys && k.record == m.record && k.next == m.next && k.root.Keys == m.root.Keys
  {
  }

  lemma MergedSetIs(m: Model, k: Model, z: Model, into: nat, from: nat, must: bool, aa: Oracle)
    requires Coherent(aa) && Inv(m, multiset{}, aa) && Positive(m, {}) && TwoLive(m, into, from) && k == Merged(m, into, from, must)
    requires var x, y := m.sets[into], m.sets[from];
             (x.must ==> x.ptrs != []) && (y.must ==> y.ptrs != []) && (must <==> x.must && y.must && aa.must(x.ptrs[0], y.ptrs[0]))
    requires into in z.sets && z.sets[into] == k.sets[into].(refCount := z.sets[into].refCount)
    ensures MergeOf(m.sets[into], m.sets[from], z.sets[into], aa)
  {
    hide Inv, Positive, Coherent, MergeOf, MustOk;
    SetMust(m, into, aa);
    SetMust(m, from, aa);
    MergedIs(m.sets[into], m.sets[from], z.sets[into], must, aa);
  }

  lemma MergedPositive(m: Model, into: nat, from: nat, must: bool)
    requires Positive(m, {}) && TwoLive(m, into, from)
    ensures Positive(Merged(m, into, from, must), {})
  {
  }

  /** Ways of access. */
  datatype Access = Access(refs: bool, mods: bool, vol: bool)

  ghost predicate SomeRefs(m0: Model, pool: set<nat>) { exists t :: t in pool && t in m0.sets && m0.sets[t].refs }

  ghost predicate SomeMods(m0: Model, pool: set<nat>) { exists t :: t in pool && t in m0.sets && m0.sets[t].mods }

  ghost predicate SomeVol(m0: Model, pool: set<nat>) { exists t :: t in pool && t in m0.sets && m0.sets[t].vol }

  ghost predicate SomeLists(m0: Model, pool: set<nat>, p: nat) { exists t :: t in pool && t in m0.sets && p in m0.sets[t].ptrs }

  ghost predicate SomeUnknown(m0: Model, pool: set<nat>, i: nat) { exists t :: t in pool && t in m0.sets && i in m0.sets[t].unknown }

  ghost predicate EachMust(m0: Model, pool: set<nat>) { forall t | t in pool && t in m0.sets :: m0.sets[t].must }

  /** y is accessed in each way that one of the sets of `pool` was or that is new. */
  ghost predicate AccessedAs(m0: Model, pool: set<nat>, y: AliasSet, access: Access) {
    && (y.refs <==> access.refs || SomeRefs(m0, pool))
    && (y.mods <==> access.mods || SomeMods(m0, pool))
    && (y.vol <==> access.vol || SomeVol(m0, pool))
  }

  /** y holds what the sets of `pool` held and what is new, and is must exactly if they were, nothing new is unknown and all its
      pointers must alias. */
  ghost predicate MadeOf(m0: Model, pool: set<nat>, y: AliasSet, ptrs: set<nat>, unknown: set<nat>, aa: Oracle) {
    && (forall p :: p in y.ptrs <==> p in ptrs || SomeLists(m0, pool, p))
    && (forall i :: i in y.unknown <==> i in unknown || SomeUnknown(m0, pool, i))
    && (y.must <==> unknown == {} && EachMust(m0, pool) && AllMust(aa, y.ptrs))
  }

  const NO_ACCESS := Access(false, false, false)

  lemma OnlyOne(m0: Model, s: nat)
    requires s in m0.sets
    ensures SomeRefs(m0, {s}) == m0.sets[s].refs && SomeMods(m0, {s}) == m0.sets[s].mods && SomeVol(m0, {s}) == m0.sets[s].vol
    ensures EachMust(m0, {s}) == m0.sets[s].must
    ensures forall p :: SomeLists(m0, {s}, p) == (p in m0.sets[s].ptrs)
    ensures forall i :: SomeUnknown(m0, {s}, i) == (i in m0.sets[s].unknown)
  {
    assert s in {s};
  }

  lemma OneMoreSet(m0: Model, pool: set<nat>, s: nat)
    requires s in m0.sets
    ensures SomeRefs(m0, pool + {s}) == (SomeRefs(m0, pool) || m0.sets[s].refs)
    ensures SomeMods(m0, pool + {s}) == (SomeMods(m0, pool) || m0.sets[s].mods)
    ensures SomeVol(m0, pool + {s}) == (SomeVol(m0, pool) || m0.sets[s].vol)
    ensures EachMust(m0, pool + {s}) == (EachMust(m0, pool) && m0.sets[s].must)
  {
    var more := pool + {s};
    assert s in more && forall t | t in pool :: t in more;
  }

  lemma OneMoreLists(m0: Model, pool: set<nat>, s: nat)
    requires s in m0.sets
    ensures forall p :: SomeLists(m0, pool + {s}, p) == (SomeLists(m0, pool, p) || p in m0.sets[s].ptrs)
    ensures forall i :: SomeUnknown(m0, pool + {s}, i) == (SomeUnknown(m0, pool, i) || i in m0.sets[s].unknown)
  {
    var more := pool + {s};
    assert s in more && forall t | t in pool :: t in more;
  }

  lemma MadeOfOne(m0: Model, s: nat, y: AliasSet, aa: Oracle)
    requires s in m0.sets && MustOk(aa, m0.sets[s]) && Alike(m0.sets[s], y)
    ensures AccessedAs(m0, {s}, y, NO_ACCESS) && MadeOf(m0, {s}, y, {}, {}, aa)
  {
    OnlyOne(m0, s);
    hide SomeRefs, SomeMods, SomeVol, SomeLists, SomeUnknown, EachMust;
  }

  lemma MadeOfMore(m0: Model, pool: set<nat>, x: AliasSet, s: nat, y: AliasSet, z: AliasSet, aa: Oracle)
    requires s in m0.sets && AccessedAs(m0, pool, x, NO_ACCESS) && MadeOf(m0, pool, x, {}, {}, aa)
    requires Alike(m0.sets[s], y) && MergeOf(x, y, z, aa)
    ensures AccessedAs(m0, pool + {s}, z, NO_ACCESS) && MadeOf(m0, pool + {s}, z, {}, {}, aa)
  {
    OneMoreSet(m0, pool, s);
    OneMoreLists(m0, pool, s);
    hide SomeRefs, SomeMods, SomeVol, SomeLists, SomeUnknown, EachMust;
  }

  /** Live sets that have become the set f, itself among them. */
  ghost function Pool(m0: Model, m: Model, f: nat): set<nat> { set t | t in m0.sets && Live(m0, t) && (t == f || !Live(m, t)) }

  /** What the set f that they have become is made of. */
  ghost predicate Pooled(m0: Model, m: Model, q: Query, f: nat, aa: Oracle) {
    && Live(m, f) && (forall t | t in Pool(m0, m, f) :: t in m0.sets && Aliases(aa, m0.sets[t], q))
    && AccessedAs(m0, Pool(m0, m, f), m.sets[f], NO_ACCESS) && MadeOf(m0, Pool(m0, m, f), m.sets[f], {}, {}, aa)
  }

  /** How far the search for the sets that alias q has come: those met are one set, found; those to come are as before. */
  ghost predicate Searched(m0: Model, m: Model, q: Query, todo: set<nat>, found: Option<nat>, aa: Oracle) {
    && m.record == m0.record && m.next == m0.next && m.root.Keys == m0.root.Keys && (found.None? ==> m == m0)
    && (forall t | Live(m, t) :: Live(m0, t))
    && (forall t | Live(m, t) && Some(t) != found :: Alike(m0.sets[t], m.sets[t]))
    && (forall t | Live(m, t) && t !in todo && Some(t) != found :: !Aliases(aa, m0.sets[t], q))
    && (found.Some? ==> Live(m, found.value) && Live(m0, found.value) && found.value !in todo
                        && Aliases(aa, m.sets[found.value], q) && Aliases(aa, m0.sets[found.value], q))
    && forall t | t in m.root :: Joined(m0, m, t, q, found, aa)
  }

  /** t stands for what it stood for, or for the set found if what it stood for aliases q. */
  ghost predicate Joined(m0: Model, m: Model, t: nat, q: Query, found: Option<nat>, aa: Oracle)
    requires t in m.root && t in m0.root
  {
    || m.root[t] == m0.root[t]
    || (found == Some(m.root[t]) && m0.root[t] in m0.sets && Aliases(aa, m0.sets[m0.root[t]], q))
  }

  lemma SearchStarts(m: Model, q: Query, aa: Oracle)
    ensures Searched(m, m, q, m.sets.Keys, None, aa)
  {
  }

  lemma SearchSkips(m0: Model, m: Model, q: Query, todo: set<nat>, found: Option<nat>, cur: nat, aa: Oracle)
    requires Searched(m0, m, q, todo, found, aa) && (Live(m, cur) ==> !Aliases(aa, m.sets[cur], q))
    ensures Searched(m0, m, q, todo - {cur}, found, aa)
  {
    if Live(m, cur) && Some(cur) != found { SameAliases(aa, m0.sets[cur], m.sets[cur], q); }
  }

  lemma SameAliases(aa: Oracle, x: AliasSet, y: AliasSet, q: Query)
    requires SameList(x, y)
    ensures Aliases(aa, x, q) == Aliases(aa, y, q)
  {
  }

  lemma SearchFinds(m0: Model, m: Model, q: Query, todo: set<nat>, cur: nat, aa: Oracle)
    requires Searched(m0, m, q, todo, None, aa) && Live(m, cur) && Aliases(aa, m.sets[cur], q) && MustOk(aa, m.sets[cur])
    ensures Searched(m0, m, q, todo - {cur}, Some(cur), aa) && Pooled(m0, m, q, cur, aa)
  {
    SameAliases(aa, m0.sets[cur], m.sets[cur], q);
    assert Pool(m0, m, cur) == {cur};
    MadeOfOne(m0, cur, m.sets[cur], aa);
    hide MadeOf, AccessedAs, Aliases;
    forall t | t in m.root ensures Joined(m0, m, t, q, Some(cur), aa) { assert Joined(m0, m, t, q, None, aa); }
  }

  lemma SearchMerges(m0: Model, m: Model, n: Model, q: Query, todo: set<nat>, found: nat, cur: nat, aa: Oracle)
    requires Searched(m0, m, q, todo, Some(found), aa) && TwoLive(m, found, cur) && Aliases(aa, m.sets[cur], q)
    requires n.record == m.record && n.next == m.next && n.root.Keys == m.root.Keys && OthersSame(m, n, found, cur)
    requires Live(n, found) && !Live(n, cur) && MergeOf(m.sets[found], m.sets[cur], n.sets[found], aa)
    requires forall t | t in m.root :: n.root[t] == if m.root[t] == cur then found else m.root[t]
    ensures Searched(m0, n, q, todo - {cur}, Some(found), aa)
  {
    SameAliases(aa, m0.sets[cur], m.sets[cur], q);
    MoreAliases(aa, m.sets[found], n.sets[found], q);
    forall t | t in n.root ensures Joined(m0, n, t, q, Some(found), aa) { assert Joined(m0, m, t, q, Some(found), aa); }
  }

  lemma PoolMerges(m0: Model, m: Model, n: Model, q: Query, found: nat, cur: nat, aa: Oracle)
    requires Pooled(m0, m, q, found, aa) && TwoLive(m, found, cur) && Aliases(aa, m.sets[cur], q) && OthersSame(m, n, found, cur)
    requires Live(n, found) && !Live(n, cur) && MergeOf(m.sets[found], m.sets[cur], n.sets[found], aa)
    requires Live(m0, cur) && Alike(m0.sets[cur], m.sets[cur])
    ensures Pooled(m0, n, q, found, aa)
  {
    SameAliases(aa, m0.sets[cur], m.sets[cur], q);
    PoolGrows(m0, m, n, found, cur);
    hide MadeOf, AccessedAs, MergeOf, Aliases, Pool, OthersSame;
    MadeOfMore(m0, Pool(m0, m, found), m.sets[found], cur, m.sets[cur], n.sets[found], aa);
  }

  lemma PoolGrows(m0: Model, m: Model, n: Model, found: nat, cur: nat)
    requires TwoLive(m, found, cur) && OthersSame(m, n, found, cur) && Live(n, found) && !Live(n, cur) && Live(m0, cur)
    ensures Pool(m0, n, found) == Pool(m0, m, found) + {cur}
  {
  }

  lemma MoreAliases(aa: Oracle, x: AliasSet, y: AliasSet, q: Query)
    requires Aliases(aa, x, q) && (forall p | p in x.ptrs :: p in y.ptrs) && (forall i | i in x.unknown :: i in y.unknown)
    ensures Aliases(aa, y, q)
  {
  }

  /** After the search no set but the one found aliases q. */
  lemma SearchEnds(m0: Model, m: Model, q: Query, found: Option<nat>, s: nat, aa: Oracle)
    requires Searched(m0, m, q, {}, found, aa) && Chains(m) && (found.Some? ==> s == found.value)
    ensures Alone(m, s, q, aa)
  {
    forall t | t in m.sets && t != s ensures !Aliases(aa, m.sets[t], q) {
      assert ChainAt(m, t);
      if Live(m, t) { SameAliases(aa, m0.sets[t], m.sets[t], q); }
    }
  }

  /** y is x less some pointers and instructions, accessed as before. */
  ghost predicate Less(x: AliasSet, y: AliasSet, ptrs: set<nat>, unknown: set<nat>) {
    && y.refs == x.refs && y.mods == x.mods && y.vol == x.vol && y.must == x.must && y.forward.Some? == x.forward.Some?
    && (forall p :: p in y.ptrs <==> p in x.ptrs && p !in ptrs) && (forall j | j !in unknown :: j in y.unknown <==> j in x.unknown)
    && (forall j :: j in y.unknown ==> j in x.unknown)
  }

  /** x holds nothing else. */
  ghost predicate Only(x: AliasSet, ptrs: set<nat>, unknown: set<nat>) {
    (forall p | p in x.ptrs :: p in ptrs) && forall j | j in x.unknown :: j in unknown
  }

  /** Some pointers and instructions may be gone, and sets that held nothing else. */
  ghost predicate LessOf(m: Model, n: Model, ptrs: set<nat>, unknown: set<nat>) {
    && n.root == m.root && (forall t | t in n.sets :: t in m.sets && Less(m.sets[t], n.sets[t], ptrs, unknown))
    && (forall t | t in m.sets && t !in n.sets :: Only(m.sets[t], ptrs, unknown))
  }

  lemma KeptLess(m: Model, n: Model)
    requires Kept(m, n)
    ensures LessOf(m, n, {}, {})
  {
  }

  lemma LessTrans(m: Model, n: Model, k: Model, ptrs: set<nat>, unknown: set<nat>, ptrs': set<nat>, unknown': set<nat>)
    requires LessOf(m, n, ptrs, unknown) && LessOf(n, k, ptrs', unknown')
    ensures LessOf(m, k, ptrs + ptrs', unknown + unknown')
  {
    hide Less, Only;
    forall t | t in k.sets ensures t in m.sets && Less(m.sets[t], k.sets[t], ptrs + ptrs', unknown + unknown') {
      LessLess(m.sets[t], n.sets[t], k.sets[t], ptrs, unknown, ptrs', unknown');
    }
    forall t | t in m.sets && t !in k.sets ensures Only(m.sets[t], ptrs + ptrs', unknown + unknown') {
      if t in n.sets { LessOnly(m.sets[t], n.sets[t], ptrs, unknown, ptrs', unknown'); } else { OnlyMore(m.sets[t], ptrs, unknown, ptrs', unknown'); }
    }
  }

  lemma LessMore(m: Model, n: Model, unknown: set<nat>)
    requires LessOf(m, n, {}, {})
    ensures LessOf(m, n, {}, unknown)
  {
  }

  lemma LessAgain(m: Model, n: Model, k: Model, unknown: set<nat>)
    requires LessOf(m, n, {}, unknown) && LessOf(n, k, {}, unknown)
    ensures LessOf(m, k, {}, unknown)
  {
    var none: set<nat> := {};
    assert none + none == none && unknown + unknown == unknown;
    hide LessOf;
    LessTrans(m, n, k, none, unknown, none, unknown);
  }

  lemma LessLess(x: AliasSet, y: AliasSet, z: AliasSet, ptrs: set<nat>, unknown: set<nat>, ptrs': set<nat>, unknown': set<nat>)
    requires Less(x, y, ptrs, unknown) && Less(y, z, ptrs', unknown')
    ensures Less(x, z, ptrs + ptrs', unknown + unknown')
  {
  }

  lemma LessOnly(x: AliasSet, y: AliasSet, ptrs: set<nat>, unknown: set<nat>, ptrs': set<nat>, unknown': set<nat>)
    requires Less(x, y, ptrs, unknown) && Only(y, ptrs', unknown')
    ensures Only(x, ptrs + ptrs', unknown + unknown')
  {
  }

  lemma OnlyMore(x: AliasSet, ptrs: set<nat>, unknown: set<nat>, ptrs': set<nat>, unknown': set<nat>)
    requires Only(x, ptrs, unknown)
    ensures Only(x, ptrs + ptrs', unknown + unknown')
  {
  }

  /** Live sets outside todo have forgotten i. */
  ghost predicate Forgot(m: Model, i: nat, todo: set<nat>) {
    forall t | Live(m, t) && t !in todo :: i !in m.sets[t].unknown
  }

  lemma ForgetStep(m0: Model, m: Model, n: Model, i: nat, todo: set<nat>, cur: nat, unknown: seq<nat>)
    requires LessOf(m0, m, {}, {i}) && Forgot(m, i, todo) && Live(m, cur)
    requires forall j :: j in unknown <==> j in m.sets[cur].unknown && j != i
    requires Kept(m.(sets := m.sets[cur := m.sets[cur].(unknown := unknown)]), n) && n.record == m.record
    ensures LessOf(m0, n, {}, {i}) && Forgot(n, i, todo - {cur})
  {
    var k := m.(sets := m.sets[cur := m.sets[cur].(unknown := unknown)]);
    ForgetLess(m, i, cur, unknown);
    KeptLess(k, n);
    ForgotStep(m, n, i, todo, cur, unknown);
    hide LessOf, Kept, Forgot;
    LessMore(k, n, {i});
    LessAgain(m0, m, k, {i});
    LessAgain(m0, k, n, {i});
  }

  lemma ForgotStep(m: Model, n: Model, i: nat, todo: set<nat>, cur: nat, unknown: seq<nat>)
    requires Forgot(m, i, todo) && Live(m, cur) && i !in unknown
    requires Kept(m.(sets := m.sets[cur := m.sets[cur].(unknown := unknown)]), n)
    ensures Forgot(n, i, todo - {cur})
  {
  }

  lemma ForgetLess(m: Model, i: nat, cur: nat, unknown: seq<nat>)
    requires Live(m, cur) && forall j :: j in unknown <==> j in m.sets[cur].unknown && j != i
    ensures LessOf(m, m.(sets := m.sets[cur := m.sets[cur].(unknown := unknown)]), {}, {i})
  {
  }

  lemma ForgetSkip(m0: Model, m: Model, i: nat, todo: set<nat>, cur: nat)
    requires LessOf(m0, m, {}, {i}) && Forgot(m, i, todo) && !Live(m, cur)
    ensures Forgot(m, i, todo - {cur})
  {
  }

  /** Every occurrence of i is overwritten with the last entry, which is looked at next. */
  method WithoutInst(unknown0: seq<nat>, i: nat) returns (unknown: seq<nat>)
    ensures forall j :: j in unknown <==> j in unknown0 && j != i
  {
    unknown := unknown0;
    var k := 0;
    while k != |unknown|
      invariant 0 <= k <= |unknown| && i !in unknown[..k]
      invariant forall j | j != i :: j in unknown <==> j in unknown0
      decreases |unknown| - k
    {
      if unknown[k] == i {
        ghost var was := unknown;
        var last := |unknown| - 1;
        unknown := unknown[k := unknown[last]][..last];
        Overwritten(was, unknown, k, i);
      } else {
        assert unknown[..k + 1] == unknown[..k] + [unknown[k]];
        k := k + 1;
      }
    }
    assert unknown[..k] == unknown;
  }

  lemma Overwritten(was: seq<nat>, now: seq<nat>, k: nat, i: nat)
    requires k < |was| && was[k] == i && now == was[k := was[|was| - 1]][..|was| - 1]
    ensures k <= |now| && now[..k] == was[..k] && forall j | j != i :: j in now <==> j in was
  {
    forall j | j != i ensures j in now <==> j in was {
      if j in was {
        var l :| 0 <= l < |was| && was[l] == j;
        assert l < |now| ==> now[l] == j;
        assert l == |now| ==> k < |now| && now[k] == j;
      }
      if j in now {
        var l :| 0 <= l < |now| && now[l] == j;
        assert l == k ==> was[|was| - 1] == j;
        assert l != k ==> was[l] == j;
      }
    }
  }

  class AliasSetTracker {
    const aa: Oracle
    var sets: map<nat, AliasSet>
    var record: map<nat, nat>
    var next: nat
    ghost var root: map<nat, nat>
    ghost var stamp: map<nat, nat>
    ghost var clock: nat

    ghost function M(): Model
      reads this
    {
      Model(sets, record, root, stamp, clock, next)
    }

    ghost predicate Valid()
      reads this
    {
      Coherent(aa) && Inv(M(), multiset{}, aa) && Positive(M(), {})
    }

    constructor (aa: Oracle)
      requires Coherent(aa)
      ensures Valid() && record == map[] && this.aa == aa
    {
      this.aa := aa;
      sets, record, next := map[], map[], 0;
      root, stamp, clock := map[], map[], 0;
    }

    /** Gives up a reference to s, which goes if that was the last, and then gives up its own to the set it forwards to. */
    method DropRef(s: nat, ghost held: multiset<nat>)
      requires s in sets && Inv(M(), held + multiset{s}, aa) && Positive(M(), {})
      modifies this
      ensures Inv(M(), held, aa) && Positive(M(), {}) && record == old(record)
      ensures Kept(old(M()), M()) && Beyond(old(M()), M(), Rank(old(M()), s))
      decreases clock - Rank(M(), s), 1
    {
      hide Inv, Kept, Beyond;
      ghost var m := M();
      LoweredInv(m, held, s, aa);
      sets := sets[s := sets[s].(refCount := sets[s].refCount - 1)];
      ghost var n := M();
      assert n == Lowered(m, s);
      LoweredKept(m, s, Rank(m, s));
      if sets[s].refCount == 0 {
        RemoveAliasSet(s, held);
        KeptTrans(m, n, M());
        BeyondTrans(m, n, M(), Rank(m, s), Rank(n, s));
      }
    }

    method RemoveAliasSet(s: nat, ghost held: multiset<nat>)
      requires s in sets && sets[s].refCount == 0 && Inv(M(), held, aa) && Positive(M(), {s})
      modifies this
      ensures Inv(M(), held, aa) && Positive(M(), {}) && record == old(record)
      ensures Kept(old(M()), M()) && Beyond(old(M()), M(), Rank(old(M()), s))
      decreases clock - Rank(M(), s), 0
    {
      hide Inv, Kept, Beyond;
      ghost var m := M();
      ErasedInv(m, held, s, aa);
      ErasedKept(m, s);
      var fwd := sets[s].forward;
      if fwd.Some? { InvRank(m, held, s, aa); }
      sets := sets - {s};
      ghost var n := M();
      assert n == Erased(m, s);
      if fwd.Some? {
        DropRef(fwd.value, held);
        KeptTrans(m, n, M());
        BeyondTrans(m, n, M(), Rank(m, s), Rank(n, fwd.value));
      } else {
        assert held + multiset{} == held;
      }
    }

    /** Follows forwarding to the live set and collapses the way there. */
    method GetForwardedTarget(s: nat) returns (dest: nat)
      requires Valid() && s in sets
      modifies this
      ensures Valid() && record == old(record) && Kept(old(M()), M()) && Beyond(old(M()), M(), Rank(old(M()), s))
      ensures s in sets && s in root && dest == root[s] && Live(M(), dest)
      ensures sets[s].forward == if dest == s then None else Some(dest)
      decreases clock - Rank(M(), s)
    {
      hide Inv, Kept, Beyond, Positive, Coherent;
      ghost var m := M();
      SetFacts(m, multiset{}, s, aa);
      KeptSelf(m, Rank(m, s));
      if sets[s].forward.None? { return s; }
      var f := sets[s].forward.value;
      dest := GetForwardedTarget(f);
      ghost var n := M();
      BeyondStill(m, n, s, f);
      if dest != f {
        RedirectedInv(n, s, f, dest, aa);
        RedirectedPositive(n, s, f, dest);
        sets := sets[dest := sets[dest].(refCount := sets[dest].refCount + 1)][s := sets[s].(forward := Some(dest))];
        ghost var k := M();
        assert k == Redirected(n, s, dest) && multiset{} + multiset{f} == multiset{f};
        KeptTrans(m, n, k);
        DropRef(f, multiset{});
        KeptTrans(m, k, M());
        CollapsedBeyond(m, n, k, M(), s, f, dest, aa);
      }
    }

    /** The live set of a recorded pointer, which its record names from now on. */
    method GetAliasSet(v: nat) returns (s: nat)
      requires Valid() && v in record
      modifies this
      ensures Valid() && Kept(old(M()), M()) && record == old(record)[v := s]
      ensures old(record[v]) in root && s == root[old(record[v])] && Live(M(), s) && s in root && root[s] == s
    {
      hide Inv, Kept, Beyond, Positive, Coherent;
      ghost var m := M();
      var was := record[v];
      RecordFacts(m, v, aa);
      KeptSelf(m, 0);
      if sets[was].forward.None? { return was; }
      s := GetForwardedTarget(was);
      ghost var n := M();
      RecordFacts(n, v, aa);
      KeptRoot(m, n);
      RenamedInv(n, v, s, aa);
      RenamedPositive(n, v, s);
      sets := sets[s := sets[s].(refCount := sets[s].refCount + 1)];
      record := record[v := s];
      ghost var k := M();
      assert k == Renamed(n, v, s) && multiset{} + multiset{was} == multiset{was};
      KeptTrans(m, n, k);
      DropRef(was, multiset{});
      KeptTrans(m, k, M());
      RecordFacts(M(), v, aa);
    }

    /** What `from` holds goes to `into`. */
    method TakeOver(into: nat, from: nat, must: bool)
      requires into in sets && from in sets
      modifies this
      ensures M() == Merged(old(M()), into, from, must)
    {
      sets := sets[into := MergedSet(sets[into], sets[from], must)][from := sets[from].(forward := Some(into), ptrs := [], unknown := [])];
      root := map t | t in root :: if root[t] == from then into else root[t];
      stamp, clock := stamp[from := clock], clock + 1;
    }

    /** `from` is taken into `into` and forwards to it; it goes if only its unknown instructions kept it. */
    method MergeSetIn(into: nat, from: nat)
      requires Valid() && TwoLive(M(), into, from)
      modifies this
      ensures Valid() && record == old(record) && next == old(next) && OthersSame(old(M()), M(), into, from)
      ensures Live(M(), into) && !Live(M(), from)
      ensures MergeOf(old(sets[into]), old(sets[from]), sets[into], aa)
      ensures root.Keys == old(root).Keys
      ensures forall t | t in old(root) :: root[t] == if old(root[t]) == from then into else old(root[t])
    {
      hide Inv, Kept, Beyond, Positive, Coherent, OthersSame, MustOk, MergeOf, Merged;
      ghost var m := M();
      var x, y := sets[into], sets[from];
      NoneEmpty(m, into, aa);
      NoneEmpty(m, from, aa);
      var must := x.must && y.must;
      if must && !aa.must(x.ptrs[0], y.ptrs[0]) { must := false; }
      var hadUnknown := y.unknown != [];
      MergedInv(m, into, from, must, aa);
      MergedPositive(m, into, from, must);
      TakeOver(into, from, must);
      ghost var k := M();
      MergedSame(m, into, from, must);
      KeptSelf(k, 0);
      if hadUnknown {
        assert multiset{} + multiset{from} == multiset{from};
        DropRef(from, multiset{});
      }
      MergedKept(m, k, M(), into, from, must, aa);
      KeptRoot(k, M());
      MergedSetIs(m, k, M(), into, from, must, aa);
    }

    /** Finds the set that q belongs to, merging all that it may alias into the first. */
    method FindAliasSet(q: Query) returns (found: Option<nat>)
      requires Valid()
      modifies this
      ensures Valid() && Searched(old(M()), M(), q, {}, found, aa)
      ensures found.Some? ==> Pooled(old(M()), M(), q, found.value, aa)
    {
      hide Inv, Positive, Coherent, Searched, Aliases, OthersSame, Pooled, MustOk, MergeOf, Alike;
      ghost var m0 := M();
      found := None;
      var todo := sets.Keys;
      SearchStarts(m0, q, aa);
      while todo != {}
        invariant Valid() && Searched(m0, M(), q, todo, found, aa) && (found.Some? ==> Pooled(m0, M(), q, found.value, aa))
        decreases todo
      {
        var cur :| cur in todo;
        ghost var m := M();
        if cur !in sets || sets[cur].forward.Some? {
          SearchSkips(m0, m, q, todo, found, cur, aa);
          todo := todo - {cur};
          continue;
        }
        SetMust(m, cur, aa);
        var aliases: bool;
        match q {
          case Ptr(v) => aliases := AliasesPointer(aa, sets[cur], v);
          case Inst(i) => aliases := AliasesUnknownInst(aa, sets[cur], i);
        }
        if !aliases {
          SearchSkips(m0, m, q, todo, found, cur, aa);
        } else if found.None? {
          SearchFinds(m0, m, q, todo, cur, aa);
          found := Some(cur);
        } else {
          FoundIsOther(m0, m, q, todo, found.value, cur, aa);
          MergeSetIn(found.value, cur);
          SearchMerges(m0, m, M(), q, todo, found.value, cur, aa);
          PoolMerges(m0, m, M(), q, found.value, cur, aa);
        }
        todo := todo - {cur};
      }
    }

    /** A set that nothing refers to yet. */
    method NewAliasSet() returns (s: nat)
      requires Valid()
      modifies this
      ensures s == old(next) && s !in old(sets) && M() == WithEmpty(old(M()))
      ensures Inv(M(), multiset{}, aa) && Positive(M(), {s}) && Live(M(), s)
    {
      hide Inv;
      EmptyInv(M(), aa);
      s := next;
      sets, root, next := sets[s := EmptySet()], root[s := s], next + 1;
    }

    /** Puts a pointer into the set it may alias, a set of its own if there is none. */
    method GetAliasSetForPointer(v: nat) returns (s: nat, isNew: bool)
      requires Valid()
      modifies this
      ensures Valid() && record.Keys == old(record.Keys) + {v} && Homed(M(), v, s)
      ensures Gathered(old(M()), M(), PoolFor(old(M()), v, aa), s, NO_ACCESS, {v}, {}, aa)
      ensures Regrouped(old(M()), M(), Ptr(v), s, aa)
      ensures isNew <==> v !in old(record) && forall t | t in old(sets) :: !Aliases(aa, old(sets[t]), Ptr(v))
    {
      hide Inv, Kept, Coherent, Searched, Pooled, Aliases, Regrouped, Homed, Gathered, PoolFor;
      ghost var m0 := M();
      if v in record {
        RecordFacts(M(), v, aa);
        isNew := false;
        s := GetAliasSet(v);
        KeptRoot(m0, M());
        KnownHomed(m0, M(), v, s, aa);
        KnownGathered(m0, M(), v, s, aa);
        return;
      }
      var found := FindAliasSet(Ptr(v));
      ghost var m := M();
      if found.Some? {
        s := found.value;
      } else {
        s := NewAliasSet();
      }
      isNew := found.None?;
      SearchedAlone(m0, m, M(), Ptr(v), found, s, aa);
      SearchedGathered(m0, m, M(), Ptr(v), found, s, aa);
      NewPool(m0, v, aa);
      AddToSet(s, v, m0, m, found);
    }

    /** Lists v, which was not listed anywhere, in s; it stays a must set only if v must alias what it lists. */
    method AddToSet(s: nat, v: nat, ghost m0: Model, ghost m: Model, ghost found: Option<nat>)
      requires Coherent(aa) && Inv(M(), multiset{}, aa) && Positive(M(), {s}) && Live(M(), s) && v !in record && Alone(M(), s, Ptr(v), aa)
      requires Inv(m0, multiset{}, aa) && Inv(m, multiset{}, aa) && Searched(m0, m, Ptr(v), {}, found, aa) && record == m0.record
      requires if found.Some? then M() == m && s == found.value else M() == WithEmpty(m) && s == m.next
      requires Gathered(m0, M(), PoolFor(m0, v, aa), s, NO_ACCESS, {}, {}, aa)
      modifies this
      ensures Valid() && record.Keys == old(record.Keys) + {v} && Homed(M(), v, s)
      ensures Gathered(m0, M(), PoolFor(m0, v, aa), s, NO_ACCESS, {v}, {}, aa)
      ensures Regrouped(m0, M(), Ptr(v), s, aa)
      ensures found.None? <==> forall t | t in m0.sets :: !Aliases(aa, m0.sets[t], Ptr(v))
    {
      hide Inv, Kept, Coherent, Searched, Aliases, Regrouped, Homed, Gathered, PoolFor, Alone;
      var x := sets[s];
      var must := x.must;
      if x.must && x.ptrs != [] { must := aa.must(x.ptrs[0], v); }
      AddedInv(M(), s, v, must, aa);
      AddedPositive(M(), s, v, must);
      SearchedRegrouped(m0, m, M(), v, found, s, must, aa);
      AddedGathered(m0, M(), PoolFor(m0, v, aa), s, v, must, aa);
      sets := sets[s := WithPtr(x, v, must)];
      record := record[v := s];
    }

    /** Puts a pointer into its set and says how it is accessed. The set is made of the one that lists the pointer, or else of
        all that may alias it; the others stay as they are. */
    method AddPointer(v: nat, refs: bool, mods: bool, vol: bool) returns (s: nat, isNew: bool)
      requires Valid()
      modifies this
      ensures Valid() && record.Keys == old(record.Keys) + {v} && Homed(M(), v, s)
      ensures Gathered(old(M()), M(), PoolFor(old(M()), v, aa), s, Access(refs, mods, vol), {v}, {}, aa)
      ensures Regrouped(old(M()), M(), Ptr(v), s, aa)
      ensures isNew <==> v !in old(record) && forall t | t in old(sets) :: !Aliases(aa, old(sets[t]), Ptr(v))
    {
      hide Inv, Coherent, Aliases, Regrouped, Gathered, PoolFor;
      ghost var m0 := M();
      s, isNew := GetAliasSetForPointer(v);
      SetAccess(s, refs, mods, vol, m0, v);
    }

    /** Adds to the ways a set is accessed. */
    method SetAccess(s: nat, refs: bool, mods: bool, vol: bool, ghost m0: Model, ghost v: nat)
      requires Valid() && Homed(M(), v, s) && Regrouped(m0, M(), Ptr(v), s, aa)
      requires Gathered(m0, M(), PoolFor(m0, v, aa), s, NO_ACCESS, {v}, {}, aa)
      modifies this
      ensures Valid() && record == old(record) && Homed(M(), v, s) && Regrouped(m0, M(), Ptr(v), s, aa)
      ensures Gathered(m0, M(), PoolFor(m0, v, aa), s, Access(refs, mods, vol), {v}, {}, aa)
    {
      hide Inv, Coherent, Aliases, Gathered, PoolFor;
      var x := sets[s];
      var y := x.(refs := x.refs || refs, mods := x.mods || mods, vol := x.vol || vol);
      FlagsInv(M(), s, y, aa);
      FlagsGathered(m0, M(), PoolFor(m0, v, aa), s, Access(refs, mods, vol), {v}, {}, aa);
      sets := sets[s := y];
    }

    /** Puts an instruction with unknown effects into the set it may concern, made of all that it may concern; false if there
        was one. */
    method AddUnknown(i: nat, writes: bool) returns (isNew: bool)
      requires Valid()
      modifies this
      ensures Valid() && record == old(record)
      ensures exists s :: Live(M(), s) && Regrouped(old(M()), M(), Inst(i), s, aa)
                          && Gathered(old(M()), M(), Aliasing(old(M()), Inst(i), aa), s, Access(true, writes, false), {}, {i}, aa)
      ensures isNew <==> Aliasing(old(M()), Inst(i), aa) == {}
    {
      hide Inv, Coherent, Searched, Pooled, Aliases, Gathered, Aliasing, Regrouped;
      ghost var m0 := M();
      var found := FindAliasSet(Inst(i));
      ghost var m := M();
      var s: nat;
      if found.Some? {
        s := found.value;
      } else {
        s := NewAliasSet();
      }
      isNew := found.None?;
      SearchedAlone(m0, m, M(), Inst(i), found, s, aa);
      SearchedGathered(m0, m, M(), Inst(i), found, s, aa);
      InstInv(M(), s, i, writes, aa);
      InstRegrouped(m0, m, M(), i, found, s, writes, aa);
      InstGathered(m0, M(), Aliasing(m0, Inst(i), aa), s, i, writes, aa);
      sets := sets[s := WithInst(sets[s], i, writes)];
    }

    /** Removes a pointer, and where the value is also an instruction, its unknown effects. Sets are otherwise what they were;
        those that held nothing else are gone. */
    method DeleteValue(v: nat, isMemInst: bool)
      requires Valid()
      modifies this
      ensures Valid() && record == old(record) - {v} && root == old(root)
      ensures LessOf(old(M()), M(), {v}, if isMemInst then {v} else {})
      ensures isMemInst ==> forall t | t in sets :: v !in sets[t].unknown
    {
      hide Inv, Kept, Coherent, LessOf, Forgot, Beyond;
      ghost var m0 := M();
      ghost var forgotten: set<nat> := if isMemInst then {v} else {};
      SelfLess(m0, forgotten);
      if isMemInst { ForgetInst(v); }
      ghost var m1 := M();
      if v !in record {
        NothingDeleted(m1, v, isMemInst, aa);
        NotListed(m0, m1, v, forgotten, aa);
        return;
      }
      RecordFacts(M(), v, aa);
      var s := GetAliasSet(v);
      ghost var m := M();
      KeptRoot(m1, m);
      RecordFacts(m, v, aa);
      DroppedInv(m, s, v, aa);
      DroppedLess(m, s, v, aa);
      sets := sets[s := sets[s].(ptrs := Unlisted(sets[s].ptrs, v))];
      record := record - {v};
      ghost var n := M();
      assert n == Dropped(m, s, v) && multiset{} + multiset{s} == multiset{s};
      DropRef(s, multiset{});
      KeptRoot(n, M());
      DeletedLess(m0, m1, m, n, M(), v, forgotten);
      if isMemInst { StillForgotten(m1, m, n, M(), s, v, aa); }
    }

    /** The scan of all live sets for an instruction. */
    method ForgetInst(i: nat)
      requires Valid()
      modifies this
      ensures Valid() && LessOf(old(M()), M(), {}, {i}) && Forgot(M(), i, {}) && root == old(root) && record == old(record)
    {
      hide Inv, Kept, Coherent, LessOf, Forgot, Beyond;
      ghost var m0 := M();
      var todo := sets.Keys;
      ForgetStarts(m0, i);
      while todo != {}
        invariant Valid() && LessOf(m0, M(), {}, {i}) && Forgot(M(), i, todo) && root == m0.root && record == m0.record
        decreases todo
      {
        var cur :| cur in todo;
        ghost var m := M();
        if cur !in sets || sets[cur].forward.Some? {
          ForgetSkip(m0, m, i, todo, cur);
          todo := todo - {cur};
          continue;
        }
        var x := sets[cur];
        var unknown := WithoutInst(x.unknown, i);
        ForgottenInv(m, cur, unknown, aa);
        sets := sets[cur := x.(unknown := unknown)];
        ghost var k := M();
        KeptSelf(k, 0);
        if x.unknown != [] && unknown == [] {
          assert multiset{} + multiset{cur} == multiset{cur};
          DropRef(cur, multiset{});
          KeptRoot(k, M());
        }
        ForgetStep(m0, m, M(), i, todo, cur, unknown);
        todo := todo - {cur};
      }
    }
  }

  lemma SearchedGathered(m0: Model, m: Model, n: Model, q: Query, found: Option<nat>, s: nat, aa: Oracle)
    requires Inv(m0, multiset{}, aa) && Inv(m, multiset{}, aa) && Searched(m0, m, q, {}, found, aa)
    requires found.Some? ==> Pooled(m0, m, q, found.value, aa)
    requires if found.Some? then n == m && s == found.value else n == WithEmpty(m) && s == m.next
    ensures Gathered(m0, n, Aliasing(m0, q, aa), s, NO_ACCESS, {}, {}, aa) && (found.None? <==> Aliasing(m0, q, aa) == {})
  {
    hide Records, Counts, Musts, Apart, Aliases, MadeOf, AccessedAs;
    if found.Some? {
      assert Pool(m0, m, s) == Aliasing(m0, q, aa);
      assert s in Pool(m0, m, s);
    } else {
      EmptyNext(m);
      NothingFound(m0, m, q, aa);
      assert Aliasing(m0, q, aa) == {};
      MadeOfNone(m0, aa);
    }
  }

  lemma MadeOfNone(m0: Model, aa: Oracle)
    ensures AccessedAs(m0, {}, EmptySet(), NO_ACCESS) && MadeOf(m0, {}, EmptySet(), {}, {}, aa)
  {
  }

  lemma NewPool(m0: Model, v: nat, aa: Oracle)
    requires v !in m0.record
    ensures PoolFor(m0, v, aa) == Aliasing(m0, Ptr(v), aa)
  {
  }

  lemma KnownGathered(m0: Model, m: Model, v: nat, s: nat, aa: Oracle)
    requires Inv(m0, multiset{}, aa) && Positive(m0, {}) && v in m0.record && m0.record[v] in m0.root && s == m0.root[m0.record[v]]
    requires Kept(m0, m) && Live(m, s)
    ensures Gathered(m0, m, PoolFor(m0, v, aa), s, NO_ACCESS, {v}, {}, aa)
  {
    assert RecordAt(m0, v);
    SetMust(m0, s, aa);
    MadeOfOne(m0, s, m.sets[s], aa);
    OnlyOne(m0, s);
    hide Records, Chains, Counts, Musts, Apart, AccessedAs, SomeLists, SomeUnknown, EachMust, AllMust, MustOk;
    forall t | Live(m0, t) ensures Live(m, t) { NoneEmpty(m0, t, aa); }
  }

  lemma AddedGathered(m0: Model, n: Model, pool: set<nat>, s: nat, v: nat, must: bool, aa: Oracle)
    requires Coherent(aa) && Inv(n, multiset{}, aa) && Live(n, s) && Gathered(m0, n, pool, s, NO_ACCESS, {}, {}, aa)
    requires must == (n.sets[s].must && (n.sets[s].ptrs != [] ==> aa.must(n.sets[s].ptrs[0], v)))
    ensures Gathered(m0, Added(n, s, v, must), pool, s, NO_ACCESS, {v}, {}, aa)
  {
    hide Chains, Records, Counts, Apart, Coherent, MadeOf, AccessedAs;
    assert MustOk(aa, n.sets[s]);
    AddedMade(m0, pool, n.sets[s], v, must, aa);
  }

  lemma AddedMade(m0: Model, pool: set<nat>, x: AliasSet, v: nat, must: bool, aa: Oracle)
    requires Coherent(aa) && MustOk(aa, x) && AccessedAs(m0, pool, x, NO_ACCESS) && MadeOf(m0, pool, x, {}, {}, aa)
    requires must == (x.must && (x.ptrs != [] ==> aa.must(x.ptrs[0], v)))
    ensures AccessedAs(m0, pool, WithPtr(x, v, must), NO_ACCESS) && MadeOf(m0, pool, WithPtr(x, v, must), {v}, {}, aa)
  {
    hide Coherent, SomeRefs, SomeMods, SomeVol, SomeLists, SomeUnknown, EachMust;
    AddedMust(x, v, must, aa);
    AddedAllMust(x, v, must, aa);
  }

  lemma AddedAllMust(x: AliasSet, v: nat, must: bool, aa: Oracle)
    requires Coherent(aa) && MustOk(aa, x) && MustOk(aa, WithPtr(x, v, must)) && must == (x.must && (x.ptrs != [] ==> aa.must(x.ptrs[0], v)))
    ensures must <==> x.must && AllMust(aa, x.ptrs + [v])
    ensures AllMust(aa, x.ptrs + [v]) ==> AllMust(aa, x.ptrs)
  {
    if x.ptrs != [] { assert x.ptrs[0] in x.ptrs + [v] && v in x.ptrs + [v]; }
  }

  lemma FlagsGathered(m0: Model, n: Model, pool: set<nat>, s: nat, access: Access, ptrs: set<nat>, unknown: set<nat>, aa: Oracle)
    requires Gathered(m0, n, pool, s, NO_ACCESS, ptrs, unknown, aa) && Live(n, s)
    ensures var x := n.sets[s]; var y := x.(refs := x.refs || access.refs, mods := x.mods || access.mods, vol := x.vol || access.vol);
            Gathered(m0, n.(sets := n.sets[s := y]), pool, s, access, ptrs, unknown, aa)
  {
    hide SomeRefs, SomeMods, SomeVol, SomeLists, SomeUnknown, EachMust, AllMust;
  }

  lemma InstGathered(m0: Model, n: Model, pool: set<nat>, s: nat, i: nat, writes: bool, aa: Oracle)
    requires Gathered(m0, n, pool, s, NO_ACCESS, {}, {}, aa) && Live(n, s)
    ensures Gathered(m0, n.(sets := n.sets[s := WithInst(n.sets[s], i, writes)]), pool, s, Access(true, writes, false), {}, {i}, aa)
  {
    hide SomeRefs, SomeMods, SomeVol, SomeLists, SomeUnknown, EachMust, AllMust;
  }

  lemma InstRegrouped(m0: Model, m: Model, n: Model, i: nat, found: Option<nat>, s: nat, writes: bool, aa: Oracle)
    requires Inv(m, multiset{}, aa) && Searched(m0, m, Inst(i), {}, found, aa) && s in n.sets
    requires if found.Some? then n == m && s == found.value else n == WithEmpty(m) && s == m.next
    ensures Regrouped(m0, n.(sets := n.sets[s := WithInst(n.sets[s], i, writes)]), Inst(i), s, aa)
  {
    hide Counts, Musts, Apart;
    EmptyNext(m);
    forall u | u in m0.record && m0.record[u] in m0.root
      ensures u in n.record && n.record[u] in n.root
      ensures n.root[n.record[u]] == m0.root[m0.record[u]]
           || (n.root[n.record[u]] == s && m0.root[m0.record[u]] in m0.sets && Aliases(aa, m0.sets[m0.root[m0.record[u]]], Inst(i)))
    {
      assert RecordAt(m, u) && ChainAt(m, m.record[u]);
      assert Joined(m0, m, m.record[u], Inst(i), found, aa);
    }
  }

  lemma ForgetStarts(m: Model, i: nat)
    ensures LessOf(m, m, {}, {i}) && Forgot(m, i, m.sets.Keys)
  {
  }

  lemma SelfLess(m: Model, forgotten: set<nat>)
    ensures LessOf(m, m, {}, forgotten)
  {
  }

  lemma NotListed(m0: Model, m: Model, v: nat, forgotten: set<nat>, aa: Oracle)
    requires Inv(m, multiset{}, aa) && v !in m.record && LessOf(m0, m, {}, forgotten)
    ensures LessOf(m0, m, {v}, forgotten)
  {
    hide Counts, Musts, Apart, Chains;
    forall t | t in m.sets ensures v !in m.sets[t].ptrs { ListedOnce(m, v, t, aa); }
  }

  lemma DroppedLess(m: Model, s: nat, v: nat, aa: Oracle)
    requires Inv(m, multiset{}, aa) && Live(m, s) && v in m.record && m.record[v] == s
    ensures LessOf(m, Dropped(m, s, v), {v}, {})
  {
    hide Counts, Musts, Apart, Unlisted;
    assert ListAt(m, s) && ChainAt(m, s);
    UnlistedIs(m.sets[s].ptrs, v);
    forall t | t in m.sets && t != s ensures v !in m.sets[t].ptrs { ListedOnce(m, v, t, aa); }
  }

  lemma DeletedLess(m0: Model, m1: Model, m: Model, n: Model, z: Model, v: nat, forgotten: set<nat>)
    requires LessOf(m0, m1, {}, forgotten) && Kept(m1, m) && LessOf(m, n, {v}, {}) && Kept(n, z)
    ensures LessOf(m0, z, {v}, forgotten)
  {
    KeptLess(m1, m);
    KeptLess(n, z);
    hide LessOf, Kept;
    LessTrans(m0, m1, m, {}, forgotten, {}, {});
    var none: set<nat> := {};
    assert none + none == none && forgotten + {} == forgotten && {} + {v} == {v} && {v} + {} == {v};
    LessTrans(m0, m, n, {}, forgotten, {v}, {});
    LessTrans(m0, n, z, {v}, forgotten, {}, {});
  }

  lemma NothingDeleted(m: Model, v: nat, forgot: bool, aa: Oracle)
    requires Inv(m, multiset{}, aa) && v !in m.record && (forgot ==> Forgot(m, v, {}))
    ensures m.record - {v} == m.record && (forgot ==> forall t | t in m.sets :: v !in m.sets[t].unknown)
  {
    if forgot {
      forall t | t in m.sets ensures v !in m.sets[t].unknown { assert ChainAt(m, t); }
    }
  }

  lemma StillForgotten(m1: Model, m: Model, n: Model, z: Model, s: nat, v: nat, aa: Oracle)
    requires Inv(m1, multiset{}, aa) && Forgot(m1, v, {}) && Kept(m1, m) && s in m.sets && n == Dropped(m, s, v) && Kept(n, z)
    ensures forall t | t in z.sets :: v !in z.sets[t].unknown
  {
    hide Records, Counts, Musts, Apart, Unlisted;
    forall t | t in z.sets ensures v !in z.sets[t].unknown { assert ChainAt(m1, t); }
  }

  /** v is recorded and in the live set s. */
  ghost predicate Homed(m: Model, v: nat, s: nat) {
    v in m.record && m.record[v] in m.root && m.root[m.record[v]] == s && Live(m, s) && v in m.sets[s].ptrs
  }

  /** The live sets that alias q. */
  ghost function Aliasing(m: Model, q: Query, aa: Oracle): set<nat> { set t | t in m.sets && Live(m, t) && Aliases(aa, m.sets[t], q) }

  /** The sets that the set of v is to be made of: the one that lists it, or else those that may alias it. */
  ghost function PoolFor(m: Model, v: nat, aa: Oracle): set<nat> {
    if v in m.record then (if m.record[v] in m.root then {m.root[m.record[v]]} else {}) else Aliasing(m, Ptr(v), aa)
  }

  /** The set s is made of the sets of `pool` and what is new; the other live sets are what they were. */
  ghost predicate Gathered(m0: Model, m: Model, pool: set<nat>, s: nat, access: Access, ptrs: set<nat>, unknown: set<nat>, aa: Oracle) {
    && Live(m, s) && AccessedAs(m0, pool, m.sets[s], access) && MadeOf(m0, pool, m.sets[s], ptrs, unknown, aa)
    && (forall t | Live(m0, t) && t !in pool :: t != s && Live(m, t) && Alike(m0.sets[t], m.sets[t]))
    && (forall t | Live(m, t) && t != s :: Live(m0, t) && t !in pool)
  }

  /** Every pointer recorded before is where it was, or has moved to s because what it was in aliases q. */
  ghost predicate Regrouped(m0: Model, m: Model, q: Query, s: nat, aa: Oracle) {
    forall u | u in m0.record && m0.record[u] in m0.root ::
      && u in m.record && m.record[u] in m.root
      && (m.root[m.record[u]] == m0.root[m0.record[u]]
          || (m.root[m.record[u]] == s && m0.root[m0.record[u]] in m0.sets && Aliases(aa, m0.sets[m0.root[m0.record[u]]], q)))
  }

  lemma KnownHomed(m0: Model, m: Model, v: nat, s: nat, aa: Oracle)
    requires Inv(m, multiset{}, aa) && v in m0.record && Kept(m0, m) && m.record == m0.record[v := s]
    requires m0.record[v] in m0.root && s == m0.root[m0.record[v]] && s in m.root && m.root[s] == s && Live(m, s)
    ensures Homed(m, v, s) && Regrouped(m0, m, Ptr(v), s, aa)
  {
    assert RecordAt(m, v);
  }

  /** The set found, or the new one if none was, is the only one that may alias q. */
  lemma SearchedAlone(m0: Model, m: Model, n: Model, q: Query, found: Option<nat>, s: nat, aa: Oracle)
    requires Inv(m, multiset{}, aa) && Searched(m0, m, q, {}, found, aa)
    requires if found.Some? then n == m && s == found.value else n == WithEmpty(m) && s == m.next
    ensures Alone(n, s, q, aa) && Live(n, s) && n.record == m0.record
    ensures found.None? ==> forall t | t in m.sets :: !Aliases(aa, m.sets[t], q)
  {
    hide Records, Counts, Musts, Apart;
    if found.None? {
      EmptyNext(m);
      SearchEnds(m0, m, q, found, m.next, aa);
    } else {
      SearchEnds(m0, m, q, found, s, aa);
    }
  }

  lemma EmptyNext(m: Model)
    requires Chains(m)
    ensures m.next !in m.sets
  {
    assert m.next in m.sets ==> ChainAt(m, m.next);
  }

  lemma AddedPositive(m: Model, s: nat, v: nat, must: bool)
    requires Positive(m, {s}) && s in m.sets
    ensures Positive(Added(m, s, v, must), {})
  {
  }

  lemma SearchedRegrouped(m0: Model, m: Model, n: Model, v: nat, found: Option<nat>, s: nat, must: bool, aa: Oracle)
    requires Inv(m0, multiset{}, aa) && Inv(m, multiset{}, aa) && Searched(m0, m, Ptr(v), {}, found, aa) && v !in m0.record
    requires Inv(n, multiset{}, aa) && (if found.Some? then n == m && s == found.value else n == WithEmpty(m) && s == m.next)
    ensures Live(n, s) && Homed(Added(n, s, v, must), v, s) && Regrouped(m0, Added(n, s, v, must), Ptr(v), s, aa)
    ensures found.None? <==> forall t | t in m0.sets :: !Aliases(aa, m0.sets[t], Ptr(v))
  {
    hide Counts, Musts, Apart;
    EmptyNext(m);
    assert ChainAt(n, s);
    var k := Added(n, s, v, must);
    forall u | u in m0.record && m0.record[u] in m0.root
      ensures u in k.record && k.record[u] in k.root
      ensures k.root[k.record[u]] == m0.root[m0.record[u]]
           || (k.root[k.record[u]] == s && m0.root[m0.record[u]] in m0.sets && Aliases(aa, m0.sets[m0.root[m0.record[u]]], Ptr(v)))
    {
      assert RecordAt(m, u) && ChainAt(m, m.record[u]);
      assert Joined(m0, m, m.record[u], Ptr(v), found, aa);
    }
    if found.None? {
      NothingFound(m0, m, Ptr(v), aa);
    }
  }

  /** When nothing was found nothing was merged. */
  lemma NothingFound(m0: Model, m: Model, q: Query, aa: Oracle)
    requires Inv(m0, multiset{}, aa) && Inv(m, multiset{}, aa) && Searched(m0, m, q, {}, None, aa)
    ensures forall t | t in m0.sets :: !Aliases(aa, m0.sets[t], q)
  {
    forall t | t in m0.sets ensures !Aliases(aa, m0.sets[t], q) { assert ChainAt(m0, t); }
  }

  lemma SetMust(m: Model, s: nat, aa: Oracle)
    requires Inv(m, multiset{}, aa) && Positive(m, {}) && Live(m, s)
    ensures MustOk(aa, m.sets[s]) && (m.sets[s].must ==> m.sets[s].ptrs != [])
  {
    NoneEmpty(m, s, aa);
  }

  lemma FoundIsOther(m0: Model, m: Model, q: Query, todo: set<nat>, found: nat, cur: nat, aa: Oracle)
    requires Searched(m0, m, q, todo, Some(found), aa) && cur in todo && Live(m, cur)
    ensures TwoLive(m, found, cur) && Live(m0, cur) && Alike(m0.sets[cur], m.sets[cur])
  {
  }

  /** What the invariant says of one set. */
  lemma SetFacts(m: Model, held: multiset<nat>, s: nat, aa: Oracle)
    requires Inv(m, held, aa) && s in m.sets
    ensures s in m.root && Live(m, m.root[s]) && (m.sets[s].forward.None? ==> m.root[s] == s)
    ensures m.sets[s].forward.Some? ==>
              var f := m.sets[s].forward.value;
              f in m.sets && f in m.root && m.root[f] == m.root[s] && f != s && m.root[s] != s && Rank(m, s) < Rank(m, f) <= m.clock
  {
    assert ChainAt(m, s);
    if m.sets[s].forward.Some? {
      RankRises(m, s);
      ForwardingEnds(m, s);
    }
  }

  lemma RecordFacts(m: Model, v: nat, aa: Oracle)
    requires Inv(m, multiset{}, aa) && v in m.record
    ensures m.record[v] in m.sets && m.record[v] in m.root && Live(m, m.root[m.record[v]]) && m.root[m.record[v]] in m.root
    ensures m.root[m.root[m.record[v]]] == m.root[m.record[v]]
    ensures m.sets[m.record[v]].forward.None? ==> m.root[m.record[v]] == m.record[v]
    ensures m.sets[m.record[v]].forward.Some? ==> m.root[m.record[v]] != m.record[v]
  {
    assert RecordAt(m, v) && ChainAt(m, m.record[v]) && ChainAt(m, m.root[m.record[v]]);
  }

  lemma KeptSelf(m: Model, rank: nat)
    ensures Kept(m, m) && Beyond(m, m, rank)
  {
  }

  lemma BeyondStill(m: Model, n: Model, s: nat, f: nat)
    requires Kept(m, n) && Beyond(m, n, Rank(m, f)) && s in m.sets && m.sets[s].forward == Some(f) && Rank(m, s) < Rank(m, f)
    ensures s in n.sets && n.sets[s].forward == Some(f)
    ensures Beyond(m, n, Rank(m, s)) && n.root == m.root && n.clock == m.clock && Rank(n, s) == Rank(m, s)
  {
    KeptRank(m, n, s);
  }

  lemma RedirectedPositive(m: Model, s: nat, f: nat, dest: nat)
    requires Positive(m, {}) && s in m.sets && dest in m.sets && s != dest
    ensures Positive(Redirected(m, s, dest), {})
  {
  }

  lemma RenamedPositive(m: Model, v: nat, dest: nat)
    requires Positive(m, {}) && dest in m.sets
    ensures Positive(Renamed(m, v, dest), {})
  {
  }

  lemma CollapsedBeyond(m: Model, n: Model, k: Model, z: Model, s: nat, f: nat, dest: nat, aa: Oracle)
    requires Kept(m, n) && Beyond(m, n, Rank(m, s)) && s in n.sets && dest in n.sets && s != dest && k == Redirected(n, s, dest)
    requires f in n.sets && f in m.sets && n.sets[s].forward == Some(f) && Kept(m, k) && Kept(k, z) && Beyond(k, z, Rank(k, f))
    requires s in m.sets && Rank(m, s) < Rank(m, f) && Inv(z, multiset{}, aa) && Live(n, dest)
    ensures Beyond(m, z, Rank(m, s)) && s in z.sets && z.sets[s].forward == Some(dest) && Live(z, dest)
  {
    hide Inv;
    KeptRank(m, n, s);
    KeptRank(m, n, f);
    RedirectedRanks(n, s, f, dest);
    assert s in z.sets && z.sets[s].forward == Some(dest);
    SetFacts(z, multiset{}, s, aa);
    BeyondTrans(m, n, k, Rank(m, s), Rank(m, s));
    BeyondTrans(m, k, z, Rank(m, s), Rank(k, f));
  }

  lemma RedirectedRanks(n: Model, s: nat, f: nat, dest: nat)
    requires s in n.sets && dest in n.sets && s != dest && f in n.sets && n.sets[s].forward == Some(f)
    ensures var k := Redirected(n, s, dest); Rank(k, s) == Rank(n, s) && Rank(k, f) == Rank(n, f) && Beyond(n, k, Rank(n, s))
  {
  }

  lemma InvRank(m: Model, held: multiset<nat>, s: nat, aa: Oracle)
    requires Inv(m, held, aa) && s in m.sets && m.sets[s].forward.Some?
    ensures m.sets[s].forward.value in m.sets && m.sets[s].forward.value != s
    ensures Rank(m, s) < Rank(m, m.sets[s].forward.value) <= m.clock
    ensures Rank(Erased(m, s), m.sets[s].forward.value) == Rank(m, m.sets[s].forward.value)
    ensures s in m.root && m.sets[s].forward.value in m.root && m.root[m.sets[s].forward.value] == m.root[s]
  {
    assert ChainAt(m, s);
    RankRises(m, s);
  }
}
