/** Mass distribution over one loop or function: edge classification, shares of edges, and conservation of mass. */
module MassFlow {
  import opened Bits
  import opened BlockMasses
  import opened Distributions
  import opened Dithering
  import opened MassShares
  import opened Wrappers

  // Where mass goes

  /** Masses of nodes, mass sent back to the header of the loop, and mass that left it. */
  datatype Pools = Pools(mass: seq<Mass>, back: Mass, exits: seq<(nat, Mass)>)

  predicate Lands(p: Pools, w: Weight) { w.kind == Local ==> w.target < |p.mass| }

  function Deposit(p: Pools, w: Weight, taken: Mass): (q: Pools)
    requires Lands(p, w)
    ensures |q.mass| == |p.mass|
  {
    match w.kind
    case Local => p.(mass := p.mass[w.target := Add(p.mass[w.target], taken)])
    case Backedge => p.(back := Add(p.back, taken))
    case Exit => p.(exits := p.exits + [(w.target, taken)])
  }

  predicate AllLand(p: Pools, ws: seq<Weight>) { forall w | w in ws :: Lands(p, w) }

  function DepositAll(p: Pools, ws: seq<Weight>, shares: seq<Mass>): (q: Pools)
    requires |shares| == |ws| && AllLand(p, ws)
    ensures |q.mass| == |p.mass|
    decreases |ws|
  {
    if ws == [] then p
    else
      assert ws[0] in ws && forall w | w in ws[1..] :: w in ws;
      DepositAll(Deposit(p, ws[0], shares[0]), ws[1..], shares[1..])
  }

  function Over(mass: seq<Mass>, nodes: seq<nat>): nat
    requires forall v | v in nodes :: v < |mass|
  {
    if nodes == [] then 0
    else
      assert nodes[0] in nodes && forall v | v in nodes[1..] :: v in nodes;
      mass[nodes[0]] + Over(mass, nodes[1..])
  }

  function ExitSum(exits: seq<(nat, Mass)>): nat {
    if exits == [] then 0 else ExitSum(exits[..|exits| - 1]) + exits[|exits| - 1].1
  }

  predicate Nodes(nodes: seq<nat>, n: nat) {
    && (forall i | 0 <= i < |nodes| :: nodes[i] < n)
    && forall i, j | 0 <= i < j < |nodes| :: nodes[i] != nodes[j]
  }

  /** The mass still on its way through `rest`, or already out. */
  function Held(p: Pools, rest: seq<nat>): nat
    requires Nodes(rest, |p.mass|)
  {
    Over(p.mass, rest) + p.back + ExitSum(p.exits)
  }

  lemma NodesTail(nodes: seq<nat>, n: nat)
    requires Nodes(nodes, n) && nodes != []
    ensures nodes[0] < n && nodes[0] !in nodes[1..] && Nodes(nodes[1..], n)
    ensures forall v :: v in nodes <==> v == nodes[0] || v in nodes[1..]
  {
    var tail := nodes[1..];
    assert nodes == [nodes[0]] + tail;
    assert nodes[0] in nodes;
    forall i | 0 <= i < |tail| ensures tail[i] != nodes[0] && tail[i] < n {
      assert nodes[0] != nodes[i + 1] && nodes[i + 1] in nodes;
    }
    forall i, j | 0 <= i < j < |tail| ensures tail[i] != tail[j] { assert nodes[i + 1] != nodes[j + 1]; }
  }

  lemma {:induction false} OverUpdate(mass: seq<Mass>, nodes: seq<nat>, v: nat, m: Mass)
    requires Nodes(nodes, |mass|) && v < |mass|
    ensures Over(mass[v := m], nodes) == if v in nodes then Over(mass, nodes) - mass[v] + m else Over(mass, nodes)
    ensures v in nodes ==> Over(mass, nodes) >= mass[v]
  {
    if nodes != [] {
      NodesTail(nodes, |mass|);
      OverUpdate(mass, nodes[1..], v, m);
    }
  }

  /** Mass deposited among the nodes to come is held. */
  lemma DepositHolds(p: Pools, w: Weight, taken: Mass, rest: seq<nat>)
    requires Nodes(rest, |p.mass|) && Lands(p, w) && (w.kind == Local ==> w.target in rest)
    requires Held(p, rest) + taken <= FULL
    ensures Held(Deposit(p, w, taken), rest) == Held(p, rest) + taken
    ensures forall v | 0 <= v < |p.mass| && v !in rest :: Deposit(p, w, taken).mass[v] == p.mass[v]
  {
    if w.kind == Local {
      var m := p.mass[w.target];
      OverUpdate(p.mass, rest, w.target, Add(m, taken));
      Saturates(m, taken);
    } else if w.kind == Backedge {
      Saturates(p.back, taken);
    } else {
      var exits := p.exits + [(w.target, taken)];
      assert exits[..|exits| - 1] == p.exits;
    }
  }

  lemma {:induction false} DepositAllHolds(p: Pools, ws: seq<Weight>, shares: seq<Mass>, rest: seq<nat>)
    requires |shares| == |ws| && AllLand(p, ws) && Nodes(rest, |p.mass|)
    requires forall w | w in ws :: w.kind == Local ==> w.target in rest
    requires Held(p, rest) + Sum(shares) <= FULL
    ensures Held(DepositAll(p, ws, shares), rest) == Held(p, rest) + Sum(shares)
    ensures forall v | 0 <= v < |p.mass| && v !in rest :: DepositAll(p, ws, shares).mass[v] == p.mass[v]
    decreases |ws|
  {
    hide Held, Deposit;
    if ws != [] {
      assert ws[0] in ws;
      DepositHolds(p, ws[0], shares[0], rest);
      var q := Deposit(p, ws[0], shares[0]);
      assert AllLand(q, ws[1..]) by { forall w | w in ws[1..] ensures Lands(q, w) { assert w in ws; } }
      DepositAllHolds(q, ws[1..], shares[1..], rest);
    }
  }

  // Edges

  /** One loop, or with no headers the whole function. `headers` are its headers, sorted; `members` the other nodes in it
      in reverse post-order. `resolved` maps a block to the packaged loop or block standing for it, `inside` are the nodes
      whose containing loop is this one. `succs` lists successors and weights; for a packaged loop its exits and masses. */
  datatype Region = Region(headers: seq<nat>, members: seq<nat>, resolved: seq<nat>, inside: set<nat>, succs: seq<seq<(nat, Mass)>>)

  function Order(g: Region): seq<nat> { g.headers + g.members }

  function Size(g: Region): nat { |g.succs| }

  predicate Ascending(nodes: seq<nat>) { forall i, j | 0 <= i < j < |nodes| :: nodes[i] < nodes[j] }

  /** Weights as 64-bit sums and counts as a block can have them. */
  predicate Bounded(edges: seq<(nat, Mass)>) {
    |edges| <= TWO_32 / 4 && EdgeSum(edges) < TWO_64
  }

  function EdgeSum(edges: seq<(nat, Mass)>): nat {
    if edges == [] then 0 else EdgeSum(edges[..|edges| - 1]) + edges[|edges| - 1].1
  }

  ghost predicate RegionOk(g: Region) {
    && Nodes(Order(g), Size(g)) && |g.resolved| == Size(g) && Ascending(g.members)
    && (forall v :: v in g.inside <==> v in g.members) && (forall v | v in g.members :: v < Size(g))
    && (forall v {:trigger EdgesOk(g, v)} {:trigger g.succs[v]} | 0 <= v < Size(g) :: EdgesOk(g, v))
  }

  predicate EdgesOk(g: Region, v: nat) {
    v < Size(g) == |g.resolved| && Bounded(g.succs[v]) && forall e | e in g.succs[v] :: e.0 < Size(g)
  }

  /** What an edge is in this region; None is a backedge that is not to a header. */
  function Classify(g: Region, pred: nat, succ: nat): Option<(Kind, nat)>
    requires succ < |g.resolved|
  {
    var r := g.resolved[succ];
    if r in g.headers then Some((Backedge, g.headers[0]))
    else if r !in g.inside then Some((Exit, r))
    else if r < pred && pred !in g.headers then None
    else Some((Local, r))
  }

  method AddToDist(g: Region, dist: Distribution, pred: nat, succ: nat, weight0: Mass) returns (ok: bool)
    requires succ < |g.resolved| && dist.Valid() && Total(dist.weights) + weight0 + 1 < 2 * TWO_64
    requires forall w | w in dist.weights :: KindFits(g, w)
    modifies dist
    ensures ok <==> Classify(g, pred, succ).Some?
    ensures !ok ==> dist.weights == old(dist.weights)
    ensures ok ==>
              var (kind, target) := Classify(g, pred, succ).value;
              dist.weights == old(dist.weights) + [Weight(kind, target, if weight0 == 0 then 1 else weight0)]
    ensures dist.Valid() && forall w | w in dist.weights :: KindFits(g, w)
  {
    var weight := if weight0 == 0 then 1 else weight0;
    var resolved := g.resolved[succ];
    if resolved in g.headers {
      KindsAgree(g, dist.weights, Weight(Backedge, g.headers[0], weight));
      dist.Add(Backedge, g.headers[0], weight);
      return true;
    }
    if resolved !in g.inside {
      KindsAgree(g, dist.weights, Weight(Exit, resolved, weight));
      dist.Add(Exit, resolved, weight);
      return true;
    }
    if resolved < pred {
      if pred !in g.headers { return false; }
    }
    KindsAgree(g, dist.weights, Weight(Local, resolved, weight));
    dist.Add(Local, resolved, weight);
    return true;
  }

  /** The kind of an edge follows from its target. */
  predicate KindFits(g: Region, w: Weight) {
    w.kind == if w.target in g.headers then Backedge else if w.target !in g.inside then Exit else Local
  }

  lemma KindsAgree(g: Region, ws: seq<Weight>, w: Weight)
    requires (forall v | v in ws :: KindFits(g, v)) && KindFits(g, w)
    ensures OneKind(ws + [w]) && forall v | v in ws + [w] :: KindFits(g, v)
  {
  }

  // Moving mass

  predicate Ends(g: Region, v: nat)
    requires v < Size(g)
  {
    g.succs[v] == []
  }

  /** The mass that stays where it is: of nodes without successors. */
  function Ended(g: Region, mass: seq<Mass>, nodes: seq<nat>): nat
    requires |mass| == Size(g) && forall i | 0 <= i < |nodes| :: nodes[i] < |mass|
  {
    if nodes == [] then 0
    else
      var first, last := nodes[..|nodes| - 1], nodes[|nodes| - 1];
      Ended(g, mass, first) + if Ends(g, last) then mass[last] else 0
  }

  /** No edge goes back except to a header. */
  ghost predicate Forward(g: Region)
    requires RegionOk(g)
  {
    forall v | v in g.members :: AllClassified(g, v)
  }

  predicate AllClassified(g: Region, v: nat)
    requires EdgesOk(g, v)
  {
    forall e | e in g.succs[v] :: Classify(g, v, e.0).Some?
  }

  predicate StaysInside(g: Region, v: nat)
    requires EdgesOk(g, v)
  {
    forall e | e in g.succs[v] :: g.resolved[e.0] in g.inside
  }

  /** A block with an edge to itself is a loop of its own, packaged before. */
  ghost predicate NoSelfEdges(g: Region)
    requires RegionOk(g)
  {
    forall v | v in g.members :: forall e | e in g.succs[v] :: g.resolved[e.0] != v
  }

  /** Edges of v within the region go to nodes of rest. */
  ghost predicate LocalsIn(g: Region, v: nat, rest: seq<nat>)
    requires EdgesOk(g, v)
  {
    forall e | e in g.succs[v] :: var c := Classify(g, v, e.0); c.Some? && c.value.0 == Local ==> c.value.1 in rest
  }

  // Shares

  /** What an edge weighs: at least 1. */
  function EdgeWeight(g: Region, v: nat, e: (nat, Mass)): Weight
    requires e.0 < |g.resolved| && Classify(g, v, e.0).Some?
  {
    var (kind, target) := Classify(g, v, e.0).value;
    Weight(kind, target, if e.1 == 0 then 1 else e.1)
  }

  function EdgeWeights(g: Region, v: nat): (ws: seq<Weight>)
    requires EdgesOk(g, v) && AllClassified(g, v)
    ensures |ws| == |g.succs[v]| && forall i | 0 <= i < |ws| :: g.succs[v][i] in g.succs[v] && ws[i] == EdgeWeight(g, v, g.succs[v][i])
  {
    seq(|g.succs[v]|, i requires 0 <= i < |g.succs[v]| => assert g.succs[v][i] in g.succs[v]; EdgeWeight(g, v, g.succs[v][i]))
  }

  /** What kind of edge leads to t. */
  function KindOf(g: Region, t: nat): Kind {
    if t in g.headers then Backedge else if t !in g.inside then Exit else Local
  }

  /** The mass of v is dealt out to the targets of its edges, each getting its share by the weights of the edges to it. */
  ghost predicate SharedOut(g: Region, v: nat, mass: nat, flow: map<nat, Mass>) {
    && EdgesOk(g, v) && AllClassified(g, v) && flow.Keys == Targets(EdgeWeights(g, v))
    && forall t | t in flow :: IsShareOf(flow[t], mass, TotalTo(EdgeWeights(g, v), t), Total(EdgeWeights(g, v)), |g.succs[v]|)
  }

  function To(flow: map<nat, Mass>, t: nat): nat { if t in flow then flow[t] else 0 }

  function ExitTo(exits: seq<(nat, Mass)>, t: nat): nat {
    if exits == [] then 0 else ExitTo(exits[..|exits| - 1], t) + if exits[|exits| - 1].0 == t then exits[|exits| - 1].1 else 0
  }

  /** What is dealt out arrives, at nodes of the region, at its header or at an exit. */
  ghost predicate Arrives(g: Region, p: Pools, q: Pools, flow: map<nat, Mass>) {
    && |q.mass| == |p.mass|
    && (forall u | 0 <= u < |p.mass| :: q.mass[u] == p.mass[u] + if KindOf(g, u) == Local then To(flow, u) else 0)
    && q.back == p.back + (if g.headers == [] then 0 else To(flow, g.headers[0]))
    && forall t :: ExitTo(q.exits, t) == ExitTo(p.exits, t) + if KindOf(g, t) == Exit then To(flow, t) else 0
  }

  /** Weights with targets as edges of the region have them. */
  predicate Fitting(g: Region, ws: seq<Weight>) {
    forall w | w in ws :: w.kind == KindOf(g, w.target) && (w.kind == Backedge ==> g.headers != [] && w.target == g.headers[0])
  }

  function Shared(ws: seq<Weight>, shares: seq<Mass>): map<nat, Mass>
    requires |shares| == |ws|
  {
    if ws == [] then map[] else Shared(ws[1..], shares[1..])[ws[0].target := shares[0]]
  }

  lemma SharedStep(ws: seq<Weight>, shares: seq<Mass>)
    requires |shares| == |ws| && ws != []
    ensures Shared(ws, shares) == Shared(ws[1..], shares[1..])[ws[0].target := shares[0]]
  {
  }

  lemma {:induction false} SharedHas(ws: seq<Weight>, shares: seq<Mass>)
    requires |shares| == |ws| && Distinct(ws)
    ensures Shared(ws, shares).Keys == Targets(ws) && forall i | 0 <= i < |ws| :: To(Shared(ws, shares), ws[i].target) == shares[i]
  {
    if ws != [] {
      DistinctTail(ws);
      SharedHas(ws[1..], shares[1..]);
      assert ws == [ws[0]] + ws[1..];
      var rest := Shared(ws[1..], shares[1..]);
      assert Targets(ws) == Targets(ws[1..]) + {ws[0].target};
      hide Targets, Shared;
      forall i | 0 <= i < |ws| ensures To(rest[ws[0].target := shares[0]], ws[i].target) == shares[i] {
        if i > 0 { assert ws[1..][i - 1] == ws[i] && To(rest, ws[i].target) == shares[1..][i - 1] && ws[i].target != ws[0].target; }
      }
      assert Shared(ws, shares) == rest[ws[0].target := shares[0]] by { SharedStep(ws, shares); }
    }
  }

  lemma DistinctTail(ws: seq<Weight>)
    requires Distinct(ws) && ws != []
    ensures Distinct(ws[1..]) && ws[0].target !in Targets(ws[1..])
  {
    forall i, j | 0 <= i < j < |ws[1..]| ensures ws[1..][i].target != ws[1..][j].target { assert ws[i + 1].target != ws[j + 1].target; }
    forall w | w in ws[1..] ensures w.target != ws[0].target {
      var i :| 0 <= i < |ws[1..]| && ws[1..][i] == w;
      assert ws[i + 1] == w;
    }
  }

  lemma DepositArrives(g: Region, p: Pools, w: Weight, taken: Mass, rest: seq<nat>)
    requires Nodes(rest, |p.mass|) && Lands(p, w) && (w.kind == Local ==> w.target in rest) && Fitting(g, [w])
    requires Held(p, rest) + taken <= FULL
    ensures Arrives(g, p, Deposit(p, w, taken), map[w.target := taken])
  {
    assert w in [w];
    Room(p, rest, w, taken);
    hide Nodes, Held, ExitTo, Add;
    if w.kind == Exit {
      forall t ensures ExitTo(p.exits + [(w.target, taken)], t) == ExitTo(p.exits, t) + if t == w.target then taken else 0 {
        OneExit(p.exits, w.target, taken, t);
      }
    }
  }

  lemma OneExit(exits: seq<(nat, Mass)>, target: nat, taken: Mass, t: nat)
    ensures ExitTo(exits + [(target, taken)], t) == ExitTo(exits, t) + if t == target then taken else 0
  {
    assert (exits + [(target, taken)])[..|exits|] == exits;
  }

  lemma Room(p: Pools, rest: seq<nat>, w: Weight, taken: Mass)
    requires Nodes(rest, |p.mass|) && Lands(p, w) && (w.kind == Local ==> w.target in rest) && Held(p, rest) + taken <= FULL
    ensures w.kind == Local ==> Add(p.mass[w.target], taken) == p.mass[w.target] + taken
    ensures w.kind == Backedge ==> Add(p.back, taken) == p.back + taken
  {
    if w.kind == Local {
      OverUpdate(p.mass, rest, w.target, taken);
      Saturates(p.mass[w.target], taken);
    } else if w.kind == Backedge {
      Saturates(p.back, taken);
    }
  }

  lemma ArrivesMore(g: Region, p: Pools, q: Pools, r: Pools, t: nat, taken: Mass, flow: map<nat, Mass>)
    requires Arrives(g, p, q, map[t := taken]) && Arrives(g, q, r, flow) && t !in flow
    ensures Arrives(g, p, r, flow[t := taken])
  {
    hide KindOf, ExitTo;
    var all := flow[t := taken];
    forall u ensures To(all, u) == To(map[t := taken], u) + To(flow, u) {}
  }

  lemma {:induction false} DepositAllArrives(g: Region, p: Pools, ws: seq<Weight>, shares: seq<Mass>, rest: seq<nat>)
    requires |shares| == |ws| && AllLand(p, ws) && Nodes(rest, |p.mass|) && Distinct(ws) && Fitting(g, ws)
    requires forall w | w in ws :: w.kind == Local ==> w.target in rest
    requires Held(p, rest) + Sum(shares) <= FULL
    ensures Arrives(g, p, DepositAll(p, ws, shares), Shared(ws, shares))
    decreases |ws|
  {
    hide Held, Deposit, Arrives;
    if ws == [] {
      NothingArrives(g, p);
    } else {
      assert ws[0] in ws;
      DistinctTail(ws);
      DepositArrives(g, p, ws[0], shares[0], rest);
      DepositHolds(p, ws[0], shares[0], rest);
      SharedHas(ws[1..], shares[1..]);
      var q := Deposit(p, ws[0], shares[0]);
      assert AllLand(q, ws[1..]) && Fitting(g, ws[1..]) by { forall w | w in ws[1..] ensures w in ws {} }
      DepositAllArrives(g, q, ws[1..], shares[1..], rest);
      ArrivesMore(g, p, q, DepositAll(q, ws[1..], shares[1..]), ws[0].target, shares[0], Shared(ws[1..], shares[1..]));
    }
  }

  /** What reaches t altogether. */
  function Into(flow: seq<map<nat, Mass>>, t: nat): nat { if flow == [] then 0 else Into(flow[..|flow| - 1], t) + To(flow[|flow| - 1], t) }

  /** The first nodes in order have dealt out their mass, and what there is of mass anywhere has come from them or was there
      at the start. */
  ghost predicate Flowed(g: Region, start: seq<Mass>, p: Pools, flow: seq<map<nat, Mass>>)
    requires RegionOk(g)
  {
    && |flow| <= |Order(g)| && |p.mass| == |start| == Size(g)
    && (forall j | 0 <= j < |flow| :: DealtOut(g, p, j, flow[j]))
    && (forall u | 0 <= u < Size(g) :: p.mass[u] == start[u] + if KindOf(g, u) == Local then Into(flow, u) else 0)
    && p.back == (if g.headers == [] then 0 else Into(flow, g.headers[0]))
    && forall t :: ExitTo(p.exits, t) == if KindOf(g, t) == Exit then Into(flow, t) else 0
  }

  ghost predicate DealtOut(g: Region, p: Pools, j: nat, flow: map<nat, Mass>) {
    j < |Order(g)| && Order(g)[j] < |p.mass| && SharedOut(g, Order(g)[j], p.mass[Order(g)[j]], flow)
  }

  lemma IntoMore(flow: seq<map<nat, Mass>>, f: map<nat, Mass>, t: nat)
    ensures Into(flow + [f], t) == Into(flow, t) + To(f, t)
  {
    assert (flow + [f])[..|flow|] == flow;
  }

  lemma FlowStarts(g: Region, p: Pools)
    requires RegionOk(g) && |p.mass| == Size(g) && p.back == 0 && p.exits == []
    ensures Flowed(g, p.mass, p, [])
  {
  }

  lemma FlowStep(g: Region, start: seq<Mass>, p: Pools, q: Pools, flow: seq<map<nat, Mass>>, f: map<nat, Mass>)
    requires RegionOk(g) && Flowed(g, start, p, flow) && |flow| < |Order(g)| && |q.mass| == Size(g)
    requires var v := Order(g)[|flow|];
             && v < Size(g) && Nodes(Order(g)[|flow| + 1..], Size(g)) && PassedOn(g, p, q, v, Order(g)[|flow| + 1..])
             && SharedOut(g, v, p.mass[v], f) && Arrives(g, p, q, f)
    ensures Flowed(g, start, q, flow + [f])
  {
    var k := |flow|;
    OrderFacts(g, k);
    hide SharedOut, KindOf, ExitTo, Held, Nodes, RegionOk;
    forall j | 0 <= j < k + 1 ensures DealtOut(g, q, j, (flow + [f])[j]) {
      if j < k { assert DealtOut(g, p, j, flow[j]); }
    }
    forall t ensures Into(flow + [f], t) == Into(flow, t) + To(f, t) { IntoMore(flow, f, t); }
  }

  /** An even part, rounded down or up. */
  predicate EvenPart(share: nat, whole: nat, n: nat)
    requires n > 0
  {
    Quotient(whole, n) <= share <= Quotient(whole, n) + 1
  }

  /** The headers of a loop begin with even parts of the full mass, and with all of it together; the rest with nothing. */
  ghost predicate HeadersStart(g: Region, start: seq<Mass>)
    requires RegionOk(g) && g.headers != []
  {
    && |start| == Size(g) && Over(start, Order(g)) == FULL
    && forall u | 0 <= u < Size(g) :: if u in g.headers then EvenPart(start[u], FULL, |g.headers|) else start[u] == 0
  }

  lemma NothingArrives(g: Region, p: Pools)
    ensures Arrives(g, p, p, map[])
  {
  }

  lemma OrderFacts(g: Region, k: nat)
    requires RegionOk(g) && k < |Order(g)|
    ensures Order(g)[k] < Size(g) && (Order(g)[k] in g.headers <==> k < |g.headers|)
    ensures k < |g.headers| ==> Order(g)[k] == g.headers[k]
    ensures k >= |g.headers| ==> Order(g)[k] == g.members[k - |g.headers|] && Order(g)[k] in g.members
    ensures Nodes(Order(g)[k..], Size(g)) && Nodes(Order(g)[k + 1..], Size(g)) && Order(g)[k] !in Order(g)[k + 1..]
    ensures forall i | 0 <= i <= k :: Order(g)[i] !in Order(g)[k + 1..] && Order(g)[i] < Size(g)
  {
    var o := Order(g);
    assert forall i | 0 <= i < |o| :: o[i] in o;
    forall h | 0 <= h < |g.headers| ensures o[h] == g.headers[h] {}
    if k >= |g.headers| {
      forall h | 0 <= h < |g.headers| ensures g.headers[h] != o[k] { assert o[h] != o[k]; }
    }
    forall j | k <= j < |o| ensures o[k..][j - k] == o[j] {}
  }

  /** In the order of the loop every local edge leads to a node still to come. */
  lemma LocalsAhead(g: Region, k: nat)
    requires RegionOk(g) && NoSelfEdges(g) && k < |Order(g)|
    ensures LocalsIn(g, Order(g)[k], Order(g)[k + 1..])
  {
    var o := Order(g);
    OrderFacts(g, k);
    forall e | e in g.succs[o[k]] && Classify(g, o[k], e.0).Some? && Classify(g, o[k], e.0).value.0 == Local
      ensures Classify(g, o[k], e.0).value.1 in o[k + 1..]
    {
      var t := g.resolved[e.0];
      var j :| 0 <= j < |g.members| && g.members[j] == t;
      assert o[|g.headers| + j] == t;
      if k >= |g.headers| { assert g.members[k - |g.headers|] < g.members[j]; }
      assert o[k + 1..][|g.headers| + j - (k + 1)] == t;
    }
  }

  lemma EdgeSumTake(edges: seq<(nat, Mass)>, i: nat)
    requires i < |edges|
    ensures EdgeSum(edges[..i + 1]) == EdgeSum(edges[..i]) + edges[i].1
  {
    assert edges[..i + 1][..i] == edges[..i];
  }

  lemma {:induction false} EdgeSumPrefix(edges: seq<(nat, Mass)>, i: nat)
    requires i <= |edges|
    ensures EdgeSum(edges[..i]) <= EdgeSum(edges)
  {
    if i < |edges| {
      EdgeSumPrefix(edges[..|edges| - 1], i);
      assert edges[..|edges| - 1][..i] == edges[..i];
    } else {
      assert edges[..i] == edges;
    }
  }

  lemma {:induction false} EndedUnchanged(g: Region, before: seq<Mass>, after: seq<Mass>, nodes: seq<nat>)
    requires |before| == |after| == Size(g) && forall i | 0 <= i < |nodes| :: nodes[i] < Size(g)
    requires forall i | 0 <= i < |nodes| :: before[nodes[i]] == after[nodes[i]]
    ensures Ended(g, before, nodes) == Ended(g, after, nodes)
  {
    if nodes != [] { EndedUnchanged(g, before, after, nodes[..|nodes| - 1]); }
  }

  lemma EndedTake(g: Region, mass: seq<Mass>, nodes: seq<nat>, k: nat)
    requires |mass| == Size(g) && k < |nodes| && forall i | 0 <= i < |nodes| :: nodes[i] < |mass|
    ensures Ended(g, mass, nodes[..k + 1]) == Ended(g, mass, nodes[..k]) + if Ends(g, nodes[k]) then mass[nodes[k]] else 0
  {
    assert nodes[..k + 1][..k] == nodes[..k];
  }

  /** All mass is accounted for when the first k nodes have been visited. */
  ghost predicate Accounted(g: Region, p: Pools, k: nat)
    requires RegionOk(g)
  {
    && |p.mass| == Size(g) && k <= |Order(g)| && Nodes(Order(g)[k..], Size(g))
    && (forall i | 0 <= i < k :: Order(g)[i] < Size(g))
    && Held(p, Order(g)[k..]) + Ended(g, p.mass, Order(g)[..k]) == FULL
  }

  /** What visiting one node does to the mass still to come. */
  ghost predicate PassedOn(g: Region, p: Pools, q: Pools, v: nat, rest: seq<nat>)
    requires |p.mass| == |q.mass| == Size(g) && v < Size(g) && Nodes(rest, Size(g))
  {
    && Held(q, rest) == Held(p, rest) + (if Ends(g, v) then 0 else p.mass[v])
    && forall u | 0 <= u < Size(g) && u !in rest :: q.mass[u] == p.mass[u]
  }

  lemma VisitAccounted(g: Region, p: Pools, q: Pools, k: nat)
    requires RegionOk(g) && k < |Order(g)| && Accounted(g, p, k) && |q.mass| == Size(g)
    requires Nodes(Order(g)[k + 1..], Size(g)) && Order(g)[k] < Size(g) && PassedOn(g, p, q, Order(g)[k], Order(g)[k + 1..])
    ensures Accounted(g, q, k + 1)
  {
    var o := Order(g);
    OrderFacts(g, k);
    assert o[k..][0] == o[k] && o[k..][1..] == o[k + 1..];
    EndedUnchanged(g, p.mass, q.mass, o[..k]);
    forall i | 0 <= i < |o| ensures o[i] < Size(g) { assert o[i] in o; }
    EndedTake(g, q.mass, o, k);
  }

  lemma HeldFits(g: Region, p: Pools, k: nat)
    requires RegionOk(g) && Accounted(g, p, k) && k < |Order(g)|
    ensures Nodes(Order(g)[k + 1..], Size(g)) && Order(g)[k] < Size(g)
    ensures Held(p, Order(g)[k + 1..]) + p.mass[Order(g)[k]] <= FULL
  {
    var o := Order(g);
    OrderFacts(g, k);
    assert o[k..][0] == o[k] && o[k..][1..] == o[k + 1..];
  }

  class MassState {
    var mass: seq<Mass>
    var backedgeMass: Mass
    var exits: seq<(nat, Mass)>

    function State(): Pools
      reads this
    {
      Pools(mass, backedgeMass, exits)
    }

    constructor (n: nat)
      ensures |mass| == n && (forall v | 0 <= v < n :: mass[v] == 0) && backedgeMass == 0 && exits == []
    {
      mass, backedgeMass, exits := seq(n, _ => 0), 0, [];
    }

    /** Adds what was taken to the node, the back edges or the exits. */
    method DepositOne(w: Weight, taken: Mass)
      requires Lands(State(), w)
      modifies this
      ensures State() == Deposit(old(State()), w, taken)
    {
      match w.kind {
        case Local => mass := mass[w.target := Add(mass[w.target], taken)];
        case Backedge => backedgeMass := Add(backedgeMass, taken);
        case Exit => exits := exits + [(w.target, taken)];
      }
    }

    /** The mass of the source is shared out among the normalised weights and deposited. */
    method DistributeMass(source: nat, hasLoop: bool, dist: Distribution)
      requires source < |mass| && dist.Valid() && |dist.weights| <= Pow2(31) && Roomy(dist.weights)
      requires forall w | w in dist.weights :: Lands(State(), w) && (w.kind != Local ==> hasLoop)
      modifies this, dist
      ensures |mass| == old(|mass|)
      ensures old(dist.weights) == [] ==> State() == old(State())
      ensures old(dist.weights) != [] ==>
                && Normalized(dist.weights, old(dist.weights), ShiftFor(old(dist.total), old(dist.didOverflow)))
                && dist.weights != [] && Positive(dist.weights) && Total(dist.weights) <= MAX_32 && AllLand(old(State()), dist.weights)
                && Distinct(dist.weights) && |dist.weights| <= old(|dist.weights|)
                && State() == DepositAll(old(State()), dist.weights, Dither(dist.weights, old(mass[source])))
    {
      hide Normalized, Dither, DepositAll, Positive, Total, Roomy, IsShare, Distinct, ShiftFor, Add, Deposit;
      ghost var before, ws0 := State(), dist.weights;
      var d := new DitheringDistributer(dist, mass[source]);
      if dist.weights == [] { return; }
      ghost var ws, m0 := dist.weights, mass[source];
      KindsKept(ws, ws0, ShiftFor(old(dist.total), old(dist.didOverflow)), before, hasLoop);
      var i := 0;
      while i < |dist.weights|
        invariant i <= |ws| && dist.weights == ws && d.remWeight == Total(ws[i..]) && Positive(ws[i..])
        invariant AllLand(State(), ws[i..])
        invariant DepositAll(State(), ws[i..], Dither(ws[i..], d.remMass)) == DepositAll(before, ws, Dither(ws, m0))
      {
        var w := dist.weights[i];
        DepositStep(State(), ws[i..], d.remMass);
        assert ws[i..][0] == w && ws[i..][1..] == ws[i + 1..];
        ghost var left, weight := d.remMass, d.remWeight;
        var taken := d.TakeMass(w.amount);
        OnlyShare(taken, left, w.amount, weight);
        ShareIs(left, w.amount, weight);
        DepositOne(w, taken);
        i := i + 1;
      }
      NoneLeft(State(), ws[i..], d.remMass);
    }

    /** Gathers the edges of a node and distributes its mass, unless one of them is an irreducible backedge. Every target gets
        its share by the weights of the edges to it. */
    method PropagateMassToSuccessors(g: Region, node: nat, ghost rest: seq<nat>) returns (ok: bool, ghost flow: map<nat, Mass>)
      requires RegionOk(g) && node < Size(g) == |mass| && Nodes(rest, Size(g)) && LocalsIn(g, node, rest)
      requires Held(State(), rest) + mass[node] <= FULL
      requires g.headers == [] ==> StaysInside(g, node)
      modifies this
      ensures ok <==> AllClassified(g, node)
      ensures !ok ==> State() == old(State())
      ensures ok ==> |mass| == old(|mass|) && PassedOn(g, old(State()), State(), node, rest)
      ensures ok ==> SharedOut(g, node, old(mass[node]), flow) && Arrives(g, old(State()), State(), flow)
    {
      hide Roomy, Normalized, Held, PassedOn, Positive, Dither, DepositAll, LocalsIn, AllClassified, Total, SharedOut, Arrives, EdgeWeights,
        Distinct, ShiftFor;
      var dist := new Distribution();
      flow := map[];
      ok := AddSuccessorsToDist(g, dist, node, rest);
      if !ok { return; }
      Pow2Values();
      ghost var ws0 := dist.weights;
      ghost var shift := ShiftFor(dist.total, dist.didOverflow);
      RestLands(State(), ws0, rest, g.headers != []);
      DistributeMass(node, g.headers != [], dist);
      if ws0 == [] {
        NothingPassed(g, State(), node, rest);
      } else {
        MassPassed(g, old(State()), node, rest, ws0, dist.weights, shift);
        MassShared(g, old(State()), node, rest, dist.weights);
        flow := Shared(dist.weights, Dither(dist.weights, old(mass[node])));
      }
    }

    /** One header of many after the other takes its part of what remains. */
    method SplitAmongHeaders(g: Region)
      requires RegionOk(g) && 0 < |g.headers| < TWO_32 && |mass| == Size(g) && forall v | 0 <= v < |mass| :: mass[v] == 0
      modifies this`mass
      ensures |mass| == old(|mass|) && HeadersStart(g, mass)
    {
      hide Scale, Subtract, EvenPart, LeftEven, Quotient, Over;
      ghost var n, q := |g.headers|, Quotient(FULL, |g.headers|);
      EvenStart(n);
      OverZero(mass, Order(g));
      forall j | 0 <= j < |g.headers| ensures g.headers[j] < Size(g) { OrderFacts(g, j); }
      var remaining: Mass, h: nat := FULL, 0;
      while h < |g.headers|
        invariant h <= |g.headers| && |mass| == Size(g) && Over(mass, Order(g)) + remaining == FULL
        invariant forall j | h <= j < |g.headers| :: g.headers[j] < Size(g) && mass[g.headers[j]] == 0
        invariant forall u | 0 <= u < Size(g) :: if u in g.headers[..h] then EvenPart(mass[u], FULL, n) else mass[u] == 0
        invariant h == |g.headers| ==> remaining == 0
        invariant LeftEven(remaining, n - h, q)
      {
        OrderFacts(g, h);
        var m := Scale(remaining, 1, |g.headers| - h);
        HeaderShare(remaining, |g.headers| - h);
        EvenStep(remaining, n - h, q, m);
        assert EvenPart(m, FULL, n) by { EvenIs(m, n, q); }
        assert g.headers[..h + 1] == g.headers[..h] + [g.headers[h]];
        OverUpdate(mass, Order(g), g.headers[h], m);
        forall j | h < j < |g.headers| ensures g.headers[j] != g.headers[h] {
          assert Order(g)[h] != Order(g)[j];
        }
        mass := mass[g.headers[h] := m];
        remaining := Subtract(remaining, m);
        h := h + 1;
      }
      assert g.headers[..h] == g.headers;
    }

    /** Visits the nodes of a loop, headers first. False when an edge goes back to a node that is not a header. */
    method ComputeMassInLoop(g: Region) returns (ok: bool, ghost start: seq<Mass>, ghost flow: seq<map<nat, Mass>>)
      requires RegionOk(g) && NoSelfEdges(g) && 0 < |g.headers| < TWO_32
      requires |g.headers| > 1 ==> Forward(g)
      requires |mass| == Size(g) && (forall v | 0 <= v < |mass| :: mass[v] == 0) && backedgeMass == 0 && exits == []
      modifies this
      ensures ok <==> Forward(g)
      ensures ok ==> Conserved(g, State())
      ensures ok ==> HeadersStart(g, start) && |flow| == |Order(g)| && Flowed(g, start, State(), flow)
    {
      hide Over, Accounted, PassedOn, Held, LocalsIn, AllClassified, Conserved, NoSelfEdges, Forward, ForwardTo, RegionOk, Nodes, StaysInside, EdgesOk,
        HeadersStart, Flowed, SharedOut, Arrives, KindOf;
      ForwardAll(g);
      if |g.headers| > 1 {
        SplitAmongHeaders(g);
      } else {
        OrderFacts(g, 0);
        OverZero(mass, Order(g));
        OverUpdate(mass, Order(g), g.headers[0], FULL);
        assert Order(g)[0] in Order(g);
        OneHeader(g, mass);
        mass := mass[g.headers[0] := FULL];
      }
      start, flow := mass, [];
      HeadersFull(g, start);
      StartsAccounted(g, State());
      FlowStarts(g, State());
      var k := 0;
      while k < |Order(g)|
        invariant k == |flow| <= |Order(g)| && |mass| == Size(g) && Accounted(g, State(), k)
        invariant ForwardTo(g, k) && Flowed(g, start, State(), flow)
      {
        OrderFacts(g, k);
        LocalsAhead(g, k);
        HeldFits(g, State(), k);
        ghost var before := State();
        ghost var f: map<nat, Mass>;
        ok, f := PropagateMassToSuccessors(g, Order(g)[k], Order(g)[k + 1..]);
        ForwardNext(g, k);
        if !ok { return; }
        VisitAccounted(g, before, State(), k);
        FlowStep(g, start, before, State(), flow, f);
        flow := flow + [f];
        k := k + 1;
      }
      EndsAccounted(g, State());
      ForwardAll(g);
      ok := true;
    }

    /** The same over the whole function, where loops are packaged and the entry is the first node. */
    method TryToComputeMassInFunction(g: Region) returns (ok: bool, ghost flow: seq<map<nat, Mass>>)
      requires RegionOk(g) && NoSelfEdges(g) && g.headers == [] && g.members != []
      requires forall v | 0 <= v < Size(g) :: StaysInside(g, v)
      requires |mass| == Size(g) && (forall v | 0 <= v < |mass| :: mass[v] == 0) && backedgeMass == 0 && exits == []
      modifies this
      ensures ok <==> Forward(g)
      ensures ok ==> Conserved(g, State())
      ensures ok ==> |flow| == |Order(g)| && Flowed(g, old(mass)[g.members[0] := FULL], State(), flow)
    {
      hide Over, Accounted, PassedOn, Held, LocalsIn, AllClassified, Conserved, NoSelfEdges, Forward, ForwardTo, RegionOk, Nodes, StaysInside, EdgesOk,
        Flowed, SharedOut, Arrives, KindOf, Order;
      ForwardAll(g);
      flow := [];
      EntryStarts(g, mass);
      mass := mass[g.members[0] := FULL];
      ghost var start := mass;
      StartsAccounted(g, State());
      FlowStarts(g, State());
      var k := 0;
      while k < |g.members|
        invariant k == |flow| <= |g.members| && |mass| == Size(g) && Accounted(g, State(), k)
        invariant ForwardTo(g, k) && Flowed(g, start, State(), flow)
      {
        OrderFacts(g, k);
        LocalsAhead(g, k);
        HeldFits(g, State(), k);
        ghost var before := State();
        ghost var f: map<nat, Mass>;
        ok, f := PropagateMassToSuccessors(g, g.members[k], Order(g)[k + 1..]);
        ForwardNext(g, k);
        if !ok { return; }
        VisitAccounted(g, before, State(), k);
        FlowStep(g, start, before, State(), flow, f);
        flow := flow + [f];
        k := k + 1;
      }
      EndsAccounted(g, State());
      ForwardAll(g);
      ok := true;
    }
  }

  /** The members among the first k nodes have no edge back. */
  ghost predicate ForwardTo(g: Region, k: nat)
    requires RegionOk(g)
  {
    forall j | 0 <= j < |g.members| && |g.headers| + j < k && g.members[j] in g.members :: AllClassified(g, g.members[j])
  }

  lemma ForwardNext(g: Region, k: nat)
    requires RegionOk(g) && ForwardTo(g, k) && k < |Order(g)|
    ensures Order(g)[k] < Size(g) && EdgesOk(g, Order(g)[k]) && (k < |g.headers| ==> AllClassified(g, Order(g)[k]))
    ensures AllClassified(g, Order(g)[k]) ==> ForwardTo(g, k + 1)
    ensures Forward(g) ==> AllClassified(g, Order(g)[k])
  {
    OrderFacts(g, k);
  }

  lemma ForwardAll(g: Region)
    requires RegionOk(g)
    ensures ForwardTo(g, 0) && (ForwardTo(g, |Order(g)|) ==> Forward(g))
  {
  }

  ghost predicate Conserved(g: Region, p: Pools)
    requires RegionOk(g)
  {
    |p.mass| == Size(g) && p.back + ExitSum(p.exits) + Ended(g, p.mass, Order(g)) == FULL
  }

  /** The headers of a loop share its full mass evenly. */
  lemma HeaderShare(remaining: Mass, n: Word)
    requires n > 0
    ensures var m := Scale(remaining, 1, n);
            m == Quotient(remaining, n) <= remaining && Subtract(remaining, m) == remaining - m && (n == 1 ==> m == remaining)
  {
    ShareBound(remaining, 1, n);
    Saturates(remaining, Scale(remaining, 1, n));
  }

  predicate LeftEven(remaining: nat, k: nat, q: nat) { k * q <= remaining <= k * (q + 1) }

  lemma EvenIs(m: nat, n: nat, q: nat)
    requires n > 0 && q == Quotient(FULL, n) && q <= m <= q + 1
    ensures EvenPart(m, FULL, n)
  {
  }

  lemma EvenStart(n: nat)
    requires n > 0
    ensures LeftEven(FULL, n, Quotient(FULL, n))
  {
    QuotientIs(FULL, n);
  }

  /** A part of what is left for k is again the rounded part of the whole, and leaves that for the others. */
  lemma EvenStep(remaining: nat, k: nat, q: nat, m: nat)
    requires k > 0 && LeftEven(remaining, k, q) && m == Quotient(remaining, k) && m <= remaining
    ensures q <= m <= q + 1 && LeftEven(remaining - m, k - 1, q)
  {
    EvenProducts(k, q);
    QuotientAtLeast(remaining, k, q);
    QuotientBelow(remaining, k, q + 2);
    QuotientIs(remaining, k);
  }

  lemma EvenProducts(k: nat, q: nat)
    ensures k * q == q * k && k * (q + 1) == (q + 1) * k == q * k + k && (q + 2) * k == q * k + k + k
    ensures (k - 1) * q == q * k - q && (k - 1) * (q + 1) == q * k + k - q - 1
  {
  }

  lemma {:induction false} OverZero(mass: seq<Mass>, nodes: seq<nat>)
    requires Nodes(nodes, |mass|) && forall v | 0 <= v < |mass| :: mass[v] == 0
    ensures Over(mass, nodes) == 0
  {
    if nodes != [] {
      NodesTail(nodes, |mass|);
      OverZero(mass, nodes[1..]);
    }
  }

  lemma EntryStarts(g: Region, mass: seq<Mass>)
    requires RegionOk(g) && g.headers == [] && g.members != [] && |mass| == Size(g) && forall v | 0 <= v < |mass| :: mass[v] == 0
    ensures Order(g) == g.members && g.members[0] < Size(g) && Nodes(Order(g), Size(g))
    ensures Over(mass[g.members[0] := FULL], Order(g)) == FULL
  {
    OrderFacts(g, 0);
    OverZero(mass, Order(g));
    OverUpdate(mass, Order(g), g.members[0], FULL);
    assert Order(g) == g.members;
  }

  lemma OneHeader(g: Region, mass: seq<Mass>)
    requires RegionOk(g) && |g.headers| == 1 && |mass| == Size(g) && forall v | 0 <= v < |mass| :: mass[v] == 0
    ensures g.headers[0] < Size(g) && HeadersStart(g, mass[g.headers[0] := FULL])
  {
    OrderFacts(g, 0);
    OverZero(mass, Order(g));
    OverUpdate(mass, Order(g), g.headers[0], FULL);
    assert Order(g)[0] in Order(g);
    EvenStart(1);
  }

  lemma HeadersFull(g: Region, start: seq<Mass>)
    requires RegionOk(g) && g.headers != [] && HeadersStart(g, start)
    ensures Nodes(Order(g), |start|) && Over(start, Order(g)) == FULL
  {
  }

  lemma StartsAccounted(g: Region, p: Pools)
    requires RegionOk(g) && |p.mass| == Size(g) && Over(p.mass, Order(g)) == FULL && p.back == 0 && p.exits == []
    ensures Accounted(g, p, 0)
  {
    assert Order(g)[0..] == Order(g) && Order(g)[..0] == [];
  }

  /** At the end all the mass that was put in has left through an edge, gone back, or stayed in a node without edges. */
  lemma EndsAccounted(g: Region, p: Pools)
    requires RegionOk(g) && Accounted(g, p, |Order(g)|)
    ensures Conserved(g, p)
  {
    assert Order(g)[|Order(g)|..] == [] && Order(g)[..|Order(g)|] == Order(g);
  }

  /** The weights of the first edges of a node. */
  ghost predicate Entered(g: Region, v: nat, ws: seq<Weight>)
    requires EdgesOk(g, v)
  {
    && |ws| <= |g.succs[v]|
    && forall i | 0 <= i < |ws| ::
         g.succs[v][i] in g.succs[v] && Classify(g, v, g.succs[v][i].0).Some? && ws[i] == EdgeWeight(g, v, g.succs[v][i])
  }

  lemma NoneEntered(g: Region, v: nat)
    requires EdgesOk(g, v)
    ensures Entered(g, v, [])
  {
  }

  lemma EnterNext(g: Region, v: nat, ws: seq<Weight>, ws': seq<Weight>)
    requires EdgesOk(g, v) && Entered(g, v, ws) && |ws| < |g.succs[v]| && g.succs[v][|ws|] in g.succs[v]
    requires var e := g.succs[v][|ws|];
             Classify(g, v, e.0).Some? && ws' == ws + [Weight(Classify(g, v, e.0).value.0, Classify(g, v, e.0).value.1, if e.1 == 0 then 1 else e.1)]
    ensures Entered(g, v, ws')
  {
  }

  lemma EnteredAll(g: Region, v: nat, ws: seq<Weight>)
    requires EdgesOk(g, v) && Entered(g, v, ws) && |ws| == |g.succs[v]|
    ensures AllClassified(g, v) && ws == EdgeWeights(g, v)
  {
  }

  lemma NotClassified(g: Region, v: nat, i: nat)
    requires EdgesOk(g, v) && i < |g.succs[v]| && g.succs[v][i] in g.succs[v] && Classify(g, v, g.succs[v][i].0).None?
    ensures !AllClassified(g, v)
  {
  }

  /** All edges of a node, be they branches of a block or exits of a packaged loop. */
  method AddSuccessorsToDist(g: Region, dist: Distribution, node: nat, ghost rest: seq<nat>) returns (ok: bool)
    requires RegionOk(g) && node < Size(g) && LocalsIn(g, node, rest) && dist.Valid() && dist.weights == []
    requires g.headers == [] ==> StaysInside(g, node)
    modifies dist
    ensures ok <==> AllClassified(g, node)
    ensures ok ==> dist.Valid() && Roomy(dist.weights) && |dist.weights| == |g.succs[node]| <= TWO_32 / 4
    ensures ok ==> dist.weights == EdgeWeights(g, node) && Total(dist.weights) < TWO_64 + TWO_32
    ensures ok ==> forall w | w in dist.weights :: if w.kind == Local then w.target in rest else g.headers != []
  {
    hide Roomy, Total, EdgeSum, OneKind, Positive, Entered, EdgeWeights, AllClassified;
    var edges := g.succs[node];
    assert Bounded(edges);
    NoneEntered(g, node);
    EmptyTotal();
    var i := 0;
    while i < |edges|
      invariant i <= |edges| && dist.Valid() && |dist.weights| == i
      invariant Total(dist.weights) <= EdgeSum(edges[..i]) + i
      invariant forall w | w in dist.weights :: KindFits(g, w)
      invariant forall w | w in dist.weights :: if w.kind == Local then w.target in rest else g.headers != []
      invariant Entered(g, node, dist.weights)
    {
      assert edges[i] in edges;
      EdgeSumTake(edges, i);
      EdgeSumPrefix(edges, i + 1);
      ghost var before := dist.weights;
      ok := AddToDist(g, dist, node, edges[i].0, edges[i].1);
      if !ok {
        NotClassified(g, node, i);
        return;
      }
      TotalPush(before, dist.weights[i], 0);
      EnterNext(g, node, before, dist.weights);
      i := i + 1;
    }
    assert edges[..|edges|] == edges;
    EnteredAll(g, node, dist.weights);
    BoundedRoomy(dist.weights, edges);
    ok := true;
  }

  lemma RestLands(p: Pools, ws: seq<Weight>, rest: seq<nat>, hasLoop: bool)
    requires Nodes(rest, |p.mass|) && forall w | w in ws :: if w.kind == Local then w.target in rest else hasLoop
    ensures forall w | w in ws :: Lands(p, w) && (w.kind != Local ==> hasLoop)
  {
  }

  lemma NothingPassed(g: Region, p: Pools, v: nat, rest: seq<nat>)
    requires |p.mass| == Size(g) && v < Size(g) && Nodes(rest, Size(g)) && Ends(g, v)
    ensures PassedOn(g, p, p, v, rest) && Arrives(g, p, p, map[]) && (EdgesOk(g, v) && AllClassified(g, v) ==> SharedOut(g, v, p.mass[v], map[]))
  {
  }

  lemma EdgesFit(g: Region, v: nat)
    requires EdgesOk(g, v) && AllClassified(g, v)
    ensures Positive(EdgeWeights(g, v)) && Fitting(g, EdgeWeights(g, v))
  {
  }

  lemma FittingKept(g: Region, r: seq<Weight>, ws: seq<Weight>, shift: int)
    requires Normalized(r, ws, shift) && Fitting(g, ws) && Positive(ws)
    ensures Fitting(g, r) && Targets(r) == Targets(ws)
  {
    EdgesKept(r, ws, shift);
    var c: seq<Weight> :| Collated(c, ws) && r == ScaledAll(c, shift);
    CollatedTargets(c, ws);
    SameTargets(c, r);
    hide Collated, Normalized;
    forall w | w in r ensures exists v :: v in ws && v.target == w.target && v.kind == w.kind { assert Drawn(w, ws); }
  }

  lemma SameTargets(c: seq<Weight>, r: seq<Weight>)
    requires |r| == |c| && forall i | 0 <= i < |c| :: r[i].target == c[i].target
    ensures Targets(r) == Targets(c)
  {
    forall t | t in Targets(c) ensures t in Targets(r) {
      var i :| 0 <= i < |c| && c[i].target == t;
      assert r[i] in r;
    }
    forall t | t in Targets(r) ensures t in Targets(c) {
      var i :| 0 <= i < |r| && r[i].target == t;
      assert c[i] in c;
    }
  }

  lemma MassShared(g: Region, p: Pools, v: nat, rest: seq<nat>, r: seq<Weight>)
    requires EdgesOk(g, v) && AllClassified(g, v) && |p.mass| == Size(g) && v < Size(g) && Nodes(rest, Size(g))
    requires LocalsIn(g, v, rest) && Held(p, rest) + p.mass[v] <= FULL
    requires var ws := EdgeWeights(g, v);
             && ws != [] && Total(ws) < TWO_64 + TWO_32 && |ws| <= Pow2(30) && |r| <= |ws| && Normalized(r, ws, ShiftOf(Total(ws)))
    requires r != [] && Positive(r) && Total(r) <= MAX_32 && Distinct(r) && AllLand(p, r)
    ensures var shares := Dither(r, p.mass[v]);
            SharedOut(g, v, p.mass[v], Shared(r, shares)) && Arrives(g, p, DepositAll(p, r, shares), Shared(r, shares))
  {
    hide Held, Dither, DepositAll, Normalized, Positive, Total, TotalTo, Arrives, IsShareOf, Pow2, ShiftOf;
    var ws, m := EdgeWeights(g, v), p.mass[v];
    EdgesFit(g, v);
    FittingKept(g, r, ws, ShiftOf(Total(ws)));
    LocalTargets(g, v, rest, r);
    DitherSum(r, m);
    SharedHas(r, Dither(r, m));
    forall t | t in Shared(r, Dither(r, m)) ensures IsShareOf(Shared(r, Dither(r, m))[t], m, TotalTo(ws, t), Total(ws), |ws|) {
      var i :| 0 <= i < |r| && r[i].target == t;
      SharesAreFair(ws, r, m, i);
    }
    DepositAllArrives(g, p, r, Dither(r, m), rest);
  }

  /** Local targets of a node are those of its edges. */
  lemma LocalTargets(g: Region, v: nat, rest: seq<nat>, r: seq<Weight>)
    requires EdgesOk(g, v) && AllClassified(g, v) && LocalsIn(g, v, rest) && Fitting(g, r) && Targets(r) == Targets(EdgeWeights(g, v))
    ensures forall w | w in r :: w.kind == Local ==> w.target in rest
  {
    forall w | w in r && w.kind == Local ensures w.target in rest {
      assert w.target in Targets(EdgeWeights(g, v));
      var i :| 0 <= i < |EdgeWeights(g, v)| && EdgeWeights(g, v)[i].target == w.target;
      var e := g.succs[v][i];
      assert Classify(g, v, e.0).value.1 == w.target;
    }
  }

  lemma MassPassed(g: Region, p: Pools, v: nat, rest: seq<nat>, ws0: seq<Weight>, ws: seq<Weight>, shift: int)
    requires |p.mass| == Size(g) && v < Size(g) && Nodes(rest, Size(g)) && !Ends(g, v) && Held(p, rest) + p.mass[v] <= FULL
    requires ws != [] && Normalized(ws, ws0, shift) && Positive(ws) && Total(ws) <= MAX_32 && AllLand(p, ws)
    requires forall w | w in ws0 :: w.kind == Local ==> w.target in rest
    ensures PassedOn(g, p, DepositAll(p, ws, Dither(ws, p.mass[v])), v, rest)
  {
    hide Held, Dither, DepositAll, Normalized, Positive, Total;
    EdgesKept(ws, ws0, shift);
    DitherSum(ws, p.mass[v]);
    DepositAllHolds(p, ws, Dither(ws, p.mass[v]), rest);
  }

  lemma BoundedRoomy(ws: seq<Weight>, edges: seq<(nat, Mass)>)
    requires Bounded(edges) && |ws| == |edges| && Total(ws) <= EdgeSum(edges) + |edges|
    ensures Roomy(ws)
  {
  }

  lemma NoneLeft(p: Pools, ws: seq<Weight>, m: Mass)
    requires ws == []
    ensures Positive(ws) && Total(ws) == 0 && AllLand(p, ws) && DepositAll(p, ws, Dither(ws, m)) == p
  {
  }

  lemma DepositStep(p: Pools, ws: seq<Weight>, m: Mass)
    requires ws != [] && Positive(ws) && Total(ws) <= MAX_32 && AllLand(p, ws)
    ensures Total(ws) == ws[0].amount + Total(ws[1..]) && 0 < ws[0].amount && Positive(ws[1..])
    ensures var taken := Scale(m, ws[0].amount, Total(ws)); var q := Deposit(p, ws[0], taken);
            AllLand(q, ws[1..]) && DepositAll(p, ws, Dither(ws, m)) == DepositAll(q, ws[1..], Dither(ws[1..], Subtract(m, taken)))
  {
    TotalFirst(ws);
    FirstPositive(ws);
    forall w | w in ws[1..] ensures w in ws {}
  }

  lemma KindsKept(r: seq<Weight>, ws: seq<Weight>, shift: int, p: Pools, hasLoop: bool)
    requires Normalized(r, ws, shift) && forall w | w in ws :: Lands(p, w) && (w.kind != Local ==> hasLoop)
    ensures forall w | w in r :: Lands(p, w) && (w.kind != Local ==> hasLoop)
  {
    EdgesKept(r, ws, shift);
  }

  lemma EdgesKept(r: seq<Weight>, ws: seq<Weight>, shift: int)
    requires Normalized(r, ws, shift)
    ensures forall w | w in r :: Drawn(w, ws)
  {
    var c: seq<Weight> :| Collated(c, ws) && r == ScaledAll(c, shift);
    forall w | w in r ensures Drawn(w, ws) {
      var i :| 0 <= i < |r| && r[i] == w;
      assert c[i] in c && Drawn(c[i], ws);
      var v :| v in ws && v.target == c[i].target && v.kind == c[i].kind;
    }
  }
}
