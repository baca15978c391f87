/** findIrreducibleHeaders: which blocks of a strongly connected component act as headers of an irreducible loop. */
module IrreducibleHeaders {
  import opened MassFlow

  /** preds[v] lists the predecessors of v, nodes being numbered in reverse post-order. */
  type Preds = seq<seq<nat>>

  predicate Component(preds: Preds, scc: seq<nat>) { Nodes(scc, |preds|) }

  /** An entry block has a predecessor outside the component. */
  predicate Entry(preds: Preds, scc: seq<nat>, v: nat)
    requires v < |preds|
  {
    exists p :: p in preds[v] && p !in scc
  }

  /** An edge into v that does not go forward, and comes from no entry block. */
  predicate Backward(preds: Preds, scc: seq<nat>, p: nat, v: nat)
    requires Component(preds, scc)
  {
    p in scc && v <= p && !Entry(preds, scc, p)
  }

  predicate Extra(preds: Preds, scc: seq<nat>, v: nat)
    requires Component(preds, scc) && v < |preds|
  {
    exists p :: p in preds[v] && Backward(preds, scc, p, v)
  }

  predicate Header(preds: Preds, scc: seq<nat>, v: nat)
    requires Component(preds, scc) && v < |preds|
  {
    Entry(preds, scc, v) || Extra(preds, scc, v)
  }

  /** Stands for std::sort on distinct nodes. */
  method SortNodes(nodes: seq<nat>) returns (r: seq<nat>)
    requires forall i, j | 0 <= i < j < |nodes| :: nodes[i] != nodes[j]
    ensures Ascending(r) && |r| == |nodes| && forall v :: v in r <==> v in nodes
  {
    r := [];
    for i := 0 to |nodes|
      invariant Ascending(r) && |r| == i && forall v :: v in r <==> v in nodes[..i]
    {
      var v := nodes[i];
      assert v !in nodes[..i];
      var j := |r|;
      while j > 0 && v < r[j - 1]
        invariant 0 <= j <= |r| && (j < |r| ==> v < r[j])
      {
        j := j - 1;
      }
      InsertAscending(r, v, j);
      r := r[..j] + [v] + r[j..];
      assert nodes[..i + 1] == nodes[..i] + [v];
    }
    assert nodes[..|nodes|] == nodes;
  }

  lemma InsertAscending(r: seq<nat>, v: nat, j: nat)
    requires Ascending(r) && j <= |r| && v !in r
    requires (j > 0 ==> r[j - 1] <= v) && (j < |r| ==> v < r[j])
    ensures Ascending(r[..j] + [v] + r[j..])
    ensures forall u :: u in r[..j] + [v] + r[j..] <==> u == v || u in r
  {
    assert r == r[..j] + r[j..];
    if j > 0 { assert r[j - 1] in r; }
    InsertedAt(r, v, j);
  }

  lemma InsertedAt(r: seq<nat>, v: nat, j: nat)
    requires Ascending(r) && j <= |r| && (j > 0 ==> r[j - 1] < v) && (j < |r| ==> v < r[j])
    ensures Ascending(r[..j] + [v] + r[j..])
  {
    var s := r[..j] + [v] + r[j..];
    forall a, b | 0 <= a < b < |s| ensures s[a] < s[b] {
      assert s[a] == if a < j then r[a] else if a == j then v else r[a - 1];
      assert s[b] == if b < j then r[b] else if b == j then v else r[b - 1];
      if a == j && j < b - 1 { assert r[j] < r[b - 1]; }
      if b == j && a < j - 1 { assert r[a] < r[j - 1]; }
    }
  }

  /** The map of the component, which also marks the entry blocks once they are known. */
  ghost predicate Marks(inSCC: map<nat, bool>, preds: Preds, scc: seq<nat>, todo: set<nat>)
    requires Component(preds, scc)
  {
    && (forall v :: v in inSCC <==> v in scc)
    && forall v | v in inSCC :: inSCC[v] == (v !in todo && Entry(preds, scc, v))
  }

  /** The loop over the predecessors of one block, looking for one outside. */
  method FindOutside(preds: Preds, scc: seq<nat>, inSCC: map<nat, bool>, v: nat) returns (found: bool)
    requires Component(preds, scc) && v < |preds| && forall u :: u in inSCC <==> u in scc
    ensures found == Entry(preds, scc, v)
  {
    for i := 0 to |preds[v]|
      invariant forall j | 0 <= j < i :: preds[v][j] in scc
    {
      if preds[v][i] in inSCC { continue; }
      return true;
    }
    found := false;
  }

  /** The loop over the predecessors of one block, looking for a backward edge. */
  method FindBackward(preds: Preds, scc: seq<nat>, inSCC: map<nat, bool>, v: nat) returns (found: bool)
    requires Component(preds, scc) && v in scc && v < |preds| && !Entry(preds, scc, v) && Marks(inSCC, preds, scc, {})
    ensures found == Extra(preds, scc, v)
  {
    for i := 0 to |preds[v]|
      invariant forall j | 0 <= j < i :: !Backward(preds, scc, preds[v][j], v)
    {
      var p := preds[v][i];
      assert p in preds[v] && p in scc;
      if p < v { continue; }
      if p in inSCC && inSCC[p] { continue; }
      assert Backward(preds, scc, p, v);
      return true;
    }
    found := false;
  }

  /** The first pass: entry blocks, which are marked. */
  method FindEntryBlocks(preds: Preds, scc: seq<nat>) returns (inSCC: map<nat, bool>, headers: seq<nat>)
    requires Component(preds, scc)
    ensures Marks(inSCC, preds, scc, {}) && Unrepeated(headers)
    ensures forall v :: v in headers <==> v in scc && Entry(preds, scc, v)
  {
    hide Entry;
    inSCC := map v | v in scc :: false;
    var todo := inSCC.Keys;
    headers := [];
    while todo != {}
      invariant todo <= inSCC.Keys && Marks(inSCC, preds, scc, todo) && Unrepeated(headers)
      invariant forall v :: v in headers <==> v in scc && v !in todo && Entry(preds, scc, v)
      decreases todo
    {
      var v :| v in todo;
      var found := FindOutside(preds, scc, inSCC, v);
      if found {
        inSCC := inSCC[v := true];
        headers := headers + [v];
      }
      todo := todo - {v};
    }
  }

  /** What the second pass has found with `todo` to come. */
  ghost predicate Split(preds: Preds, scc: seq<nat>, todo: set<nat>, headers: seq<nat>, others: seq<nat>)
    requires Component(preds, scc)
  {
    && Unrepeated(headers) && Unrepeated(others)
    && (forall v :: v in headers <==> v in scc && (Entry(preds, scc, v) || (v !in todo && Extra(preds, scc, v))))
    && (forall v :: v in others <==> v in scc && v !in todo && !Header(preds, scc, v))
  }

  lemma SplitOne(preds: Preds, scc: seq<nat>, todo: set<nat>, headers: seq<nat>, others: seq<nat>, v: nat)
    requires Component(preds, scc) && Split(preds, scc, todo, headers, others) && v in todo && v in scc
    ensures Entry(preds, scc, v) ==> Split(preds, scc, todo - {v}, headers, others)
    ensures !Entry(preds, scc, v) ==> v !in headers && v !in others
    ensures !Entry(preds, scc, v) && Extra(preds, scc, v) ==> Split(preds, scc, todo - {v}, headers + [v], others)
    ensures !Entry(preds, scc, v) && !Extra(preds, scc, v) ==> Split(preds, scc, todo - {v}, headers, others + [v])
  {
    hide Entry, Extra;
  }

  /** The second pass: targets of backward edges. */
  method FindExtraHeaders(preds: Preds, scc: seq<nat>, inSCC: map<nat, bool>, entries: seq<nat>)
      returns (headers: seq<nat>, others: seq<nat>)
    requires Component(preds, scc) && Marks(inSCC, preds, scc, {}) && Unrepeated(entries) && entries != []
    requires forall v :: v in entries <==> v in scc && Entry(preds, scc, v)
    ensures Split(preds, scc, {}, headers, others) && |headers| >= |entries|
  {
    hide Entry, Extra, Split;
    headers, others := entries, [];
    var todo := inSCC.Keys;
    NothingSplit(preds, scc, todo, entries);
    while todo != {}
      invariant todo <= inSCC.Keys && |headers| >= |entries| && Split(preds, scc, todo, headers, others)
      decreases todo
    {
      var v :| v in todo;
      SplitOne(preds, scc, todo, headers, others, v);
      todo := todo - {v};
      if inSCC[v] { continue; }
      var found := FindBackward(preds, scc, inSCC, v);
      if found { headers := headers + [v]; }
      if headers[|headers| - 1] == v { continue; }
      others := others + [v];
    }
  }

  lemma NothingSplit(preds: Preds, scc: seq<nat>, todo: set<nat>, entries: seq<nat>)
    requires Component(preds, scc) && Unrepeated(entries) && forall v :: v in todo <==> v in scc
    requires forall v :: v in entries <==> v in scc && Entry(preds, scc, v)
    ensures Split(preds, scc, todo, entries, [])
  {
  }

  /** Splits a component into headers and others: the headers are the entry blocks and the targets of backward edges. */
  method FindIrreducibleHeaders(preds: Preds, scc: seq<nat>) returns (headers: seq<nat>, others: seq<nat>)
    requires Component(preds, scc)
    requires exists u, v :: u in scc && v in scc && u != v && Entry(preds, scc, u) && Entry(preds, scc, v)
    ensures Ascending(headers) && Ascending(others) && |headers| >= 2
    ensures forall v :: v in headers <==> v in scc && Header(preds, scc, v)
    ensures forall v :: v in others <==> v in scc && !Header(preds, scc, v)
  {
    hide Entry, Extra;
    var inSCC: map<nat, bool>;
    inSCC, headers := FindEntryBlocks(preds, scc);
    AtLeastTwo(preds, scc, headers);
    if |headers| == |inSCC| {
      AllOfThem(scc, inSCC.Keys, headers);
      headers := SortNodes(headers);
      others := [];
      return;
    }
    headers, others := FindExtraHeaders(preds, scc, inSCC, headers);
    headers := SortNodes(headers);
    others := SortNodes(others);
  }

  predicate Unrepeated(nodes: seq<nat>) { forall i, j | 0 <= i < j < |nodes| :: nodes[i] != nodes[j] }

  lemma AtLeastTwo(preds: Preds, scc: seq<nat>, headers: seq<nat>)
    requires Component(preds, scc) && forall v :: v in headers <==> v in scc && Entry(preds, scc, v)
    requires exists u, v :: u in scc && v in scc && u != v && Entry(preds, scc, u) && Entry(preds, scc, v)
    ensures |headers| >= 2
  {
    var u, v :| u in scc && v in scc && u != v && Entry(preds, scc, u) && Entry(preds, scc, v);
    var i :| 0 <= i < |headers| && headers[i] == u;
    var j :| 0 <= j < |headers| && headers[j] == v;
  }

  /** As many distinct headers as there are nodes: every node is one. */
  lemma AllOfThem(scc: seq<nat>, nodes: set<nat>, headers: seq<nat>)
    requires (forall v :: v in nodes <==> v in scc) && (forall v | v in headers :: v in scc)
    requires Unrepeated(headers) && |headers| == |nodes|
    ensures forall v | v in scc :: v in headers
  {
    SizeOfSet(headers);
    SameSize(AsSet(headers), nodes);
  }

  function AsSet(nodes: seq<nat>): set<nat> { set v | v in nodes }

  lemma {:induction false} SizeOfSet(nodes: seq<nat>)
    requires Unrepeated(nodes)
    ensures |AsSet(nodes)| == |nodes|
  {
    if nodes != [] {
      var n := |nodes| - 1;
      var first := nodes[..n];
      SizeOfSet(first);
      assert nodes[n] !in first;
      assert nodes == first + [nodes[n]];
      assert AsSet(nodes) == AsSet(first) + {nodes[n]};
    }
  }

  lemma SameSize(a: set<nat>, b: set<nat>)
    requires a <= b && |a| == |b|
    ensures a == b
  {
    assert |b - a| == |b| - |a|;
  }

  // What the split is for

  predicate Edge(preds: Preds, u: nat, v: nat) { v < |preds| && u in preds[v] }

  /** Every edge between others goes forward, so they hold no cycle: any path among them ascends. */
  lemma {:induction false} OthersAscend(preds: Preds, scc: seq<nat>, path: seq<nat>)
    requires Component(preds, scc) && |path| > 1
    requires forall v | v in path :: v in scc && !Header(preds, scc, v)
    requires forall i | 0 <= i < |path| - 1 :: Edge(preds, path[i], path[i + 1])
    ensures path[0] < path[|path| - 1]
    decreases |path|
  {
    assert path[0] in path && path[1] in path;
    assert Edge(preds, path[0], path[0 + 1]) && !Backward(preds, scc, path[0], path[1]);
    if |path| > 2 {
      forall i | 0 <= i < |path[1..]| - 1 ensures Edge(preds, path[1..][i], path[1..][i + 1]) {
        assert Edge(preds, path[i + 1], path[i + 1 + 1]);
      }
      OthersAscend(preds, scc, path[1..]);
    }
  }

  /** The loop made of the two halves is one that mass distribution never gives up on, although its blocks were not all
      dominated by one header. `preds` has to list the edges that distribution follows. */
  lemma IrreducibleLoopIsForward(g: Region, preds: Preds, scc: seq<nat>)
    requires RegionOk(g) && Component(preds, scc)
    requires forall v | v in g.members :: v in scc && !Header(preds, scc, v)
    requires forall v | v in g.members :: forall e | e in g.succs[v] ::
               g.resolved[e.0] in g.members ==> g.resolved[e.0] < |preds| && v in preds[g.resolved[e.0]]
    ensures Forward(g) && NoSelfEdges(g)
  {
    forall v, e | v in g.members && e in g.succs[v]
      ensures Classify(g, v, e.0).Some? && g.resolved[e.0] != v
    {
      var r := g.resolved[e.0];
      if r in g.members {
        assert v in preds[r] && !Backward(preds, scc, v, r);
      }
    }
  }
}
