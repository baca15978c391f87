/** The static form of the emitted function: what makes a sequence of blocks a legal function in SSA form, whether or not
    its blocks are ever run; and the steps by which the compiler keeps unfinished blocks in that form. */
module BrainFForm {
  import opened Wrappers
  import opened BrainFLanguage
  import opened BrainFMachine
  import opened BrainFTranslation

  predicate IsTerminator(i: Instr) { i.Br? || i.CondBr? || i.RetVoid? }

  function Dst(i: Instr): Option<Reg> {
    match i
    case Malloc(r, _) => Some(r)
    case Gep(r, _, _) => Some(r)
    case GetcharCall(r) => Some(r)
    case Trunc8(r, _) => Some(r)
    case Sext32(r, _) => Some(r)
    case Load(r, _) => Some(r)
    case Add8(r, _, _) => Some(r)
    case IcmpUge(r, _, _) => Some(r)
    case IcmpUlt(r, _, _) => Some(r)
    case OrBits(r, _, _) => Some(r)
    case IcmpEqZero(r, _) => Some(r)
    case Phi(r, _) => Some(r)
    case _ => None
  }

  /** The registers an instruction reads where it stands; a phi reads where control comes from. */
  function Uses(i: Instr): set<Reg> {
    match i
    case Memset(p, _, _) => {p}
    case Gep(_, p, _) => {p}
    case Trunc8(_, a) => {a}
    case Sext32(_, a) => {a}
    case PutcharCall(a) => {a}
    case Load(_, p) => {p}
    case StoreTo(a, p) => {a, p}
    case Add8(_, a, _) => {a}
    case IcmpUge(_, a, b) => {a, b}
    case IcmpUlt(_, a, b) => {a, b}
    case OrBits(_, a, b) => {a, b}
    case IcmpEqZero(_, a) => {a}
    case CondBr(c, _, _) => {c}
    case FreeTape(p) => {p}
    case _ => {}
  }

  function Targets(i: Instr): set<nat> {
    match i
    case Br(t) => {t}
    case CondBr(_, y, n) => {y, n}
    case _ => {}
  }

  predicate Edge(blocks: seq<Block>, p: nat, t: nat) {
    p < |blocks| && blocks[p] != [] && t in Targets(blocks[p][|blocks[p]| - 1])
  }

  // The form

  /** One terminator, at the end; a conditional branch has two different targets. */
  predicate Ended(b: Block) {
    && b != [] && IsTerminator(b[|b| - 1]) && (b[|b| - 1].CondBr? ==> b[|b| - 1].yes != b[|b| - 1].no)
    && forall i | 0 <= i < |b| - 1 :: !IsTerminator(b[i])
  }

  predicate PhisFirst(b: Block) { forall i, j | 0 <= i < j < |b| && b[j].Phi? :: b[i].Phi? }

  predicate From(incoming: seq<(Reg, nat)>, p: nat) { exists k :: 0 <= k < |incoming| && incoming[k].1 == p }

  /** The phi has exactly one entry for each block that branches to b, and no other. */
  ghost predicate PhiExact(blocks: seq<Block>, b: nat, incoming: seq<(Reg, nat)>) {
    && (forall p: nat :: From(incoming, p) <==> Edge(blocks, p, b))
    && forall k, l | 0 <= k < l < |incoming| :: incoming[k].1 != incoming[l].1
  }

  predicate DefAt(blocks: seq<Block>, b: nat, i: nat, r: Reg) {
    b < |blocks| && i < |blocks[b]| && Dst(blocks[b][i]) == Some(r)
  }

  ghost predicate SingleDefs(blocks: seq<Block>) {
    forall b: nat, i: nat, c: nat, j: nat, r: Reg | DefAt(blocks, b, i, r) && DefAt(blocks, c, j, r) :: b == c && i == j
  }

  /** A path through the control-flow graph from the entry. */
  ghost predicate Walk(blocks: seq<Block>, path: seq<nat>) {
    && |path| > 0 && path[0] == 0 && (forall n | 0 <= n < |path| :: path[n] < |blocks|)
    && forall n | 0 <= n < |path| - 1 :: Edge(blocks, path[n], path[n + 1])
  }

  /** r is defined on the path before instruction i of its block n. */
  ghost predicate DefinedBefore(blocks: seq<Block>, path: seq<nat>, n: nat, i: nat, r: Reg) {
    exists m: nat, j: nat :: m < |path| && (m < n || (m == n && j < i)) && DefAt(blocks, path[m], j, r)
  }

  /** What instruction i of the last block of the path reads is defined on the path before. */
  ghost predicate UseDefined(blocks: seq<Block>, path: seq<nat>, i: nat)
    requires Walk(blocks, path) && i < |blocks[path[|path| - 1]]|
  {
    var n := |path| - 1;
    var ins := blocks[path[n]][i];
    && (forall r | r in Uses(ins) :: DefinedBefore(blocks, path, n, i, r))
    && (ins.Phi? && n > 0 ==>
          forall k | 0 <= k < |ins.incoming| && ins.incoming[k].1 == path[n - 1] ::
            DefinedBefore(blocks, path, n, 0, ins.incoming[k].0))
  }

  ghost predicate UsesDefined(blocks: seq<Block>, path: seq<nat>)
    requires Walk(blocks, path)
  {
    forall i | 0 <= i < |blocks[path[|path| - 1]]| :: UseDefined(blocks, path, i)
  }

  /** A legal function: the entry has no predecessors, blocks end once, phis come first and have one entry per
      predecessor, registers are defined once, and on every path a definition comes before each use. */
  ghost predicate WellFormed(blocks: seq<Block>) {
    && |blocks| > 0
    && (forall b | 0 <= b < |blocks| :: Ended(blocks[b]) && PhisFirst(blocks[b]))
    && (forall p: nat, t: nat | Edge(blocks, p, t) :: 0 < t < |blocks|)
    && (forall b, i | 0 <= b < |blocks| && 0 <= i < |blocks[b]| && blocks[b][i].Phi? ::
          PhiExact(blocks, b, blocks[b][i].incoming))
    && SingleDefs(blocks)
    && (forall path | Walk(blocks, path) :: UsesDefined(blocks, path))
  }

  // Unfinished functions

  predicate Unended(b: Block) { forall i | 0 <= i < |b| :: !IsTerminator(b[i]) }

  function DefsOf(b: Block): set<Reg> { set i | 0 <= i < |b| && Dst(b[i]).Some? :: Dst(b[i]).value }

  /** What is surely defined where b ends, if `avail` is where blocks begin. */
  function Out(blocks: seq<Block>, avail: seq<set<Reg>>, b: nat): set<Reg>
    requires b < |blocks| && b < |avail|
  {
    avail[b] + DefsOf(blocks[b])
  }

  ghost predicate BlockForm(blocks: seq<Block>, open: set<nat>, b: nat)
    requires b < |blocks|
  {
    PhisFirst(blocks[b]) && if b in open then Unended(blocks[b]) else Ended(blocks[b])
  }

  ghost predicate EdgeFlows(blocks: seq<Block>, avail: seq<set<Reg>>, p: nat, t: nat)
    requires p < |blocks| && |avail| == |blocks|
  {
    0 < t < |blocks| && avail[t] <= Out(blocks, avail, p)
  }

  ghost predicate UseFlows(blocks: seq<Block>, avail: seq<set<Reg>>, b: nat, i: nat)
    requires b < |blocks| && i < |blocks[b]| && |avail| == |blocks|
  {
    && Uses(blocks[b][i]) <= avail[b] + DefsOf(blocks[b][..i])
    && (blocks[b][i].Phi? ==>
          && PhiExact(blocks, b, blocks[b][i].incoming)
          && forall k {:trigger blocks[b][i].incoming[k]} | 0 <= k < |blocks[b][i].incoming| ::
               var (r, p) := blocks[b][i].incoming[k]; p < |blocks| && r in Out(blocks, avail, p))
  }

  /** All blocks are in form, those in `open` without their end; registers below `next` are taken. */
  ghost predicate Ssa(blocks: seq<Block>, open: set<nat>, next: Reg, avail: seq<set<Reg>>) {
    && |avail| == |blocks| > 0 && avail[0] == {}
    && (forall b | b in open :: b < |blocks|)
    && (forall b {:trigger BlockForm(blocks, open, b)} | 0 <= b < |blocks| :: BlockForm(blocks, open, b))
    && (forall p: nat, t: nat {:trigger Edge(blocks, p, t)} | Edge(blocks, p, t) :: EdgeFlows(blocks, avail, p, t))
    && (forall b, i {:trigger UseFlows(blocks, avail, b, i)} | 0 <= b < |blocks| && 0 <= i < |blocks[b]| ::
          UseFlows(blocks, avail, b, i))
    && SingleDefs(blocks)
    && (forall b: nat, i: nat, r: Reg | DefAt(blocks, b, i, r) :: r < next)
  }

  lemma DefsGrow(b: Block, i: Instr)
    ensures DefsOf(b + [i]) == DefsOf(b) + (if Dst(i).Some? then {Dst(i).value} else {})
  {
    var c := b + [i];
    assert forall k | 0 <= k < |b| :: c[k] == b[k];
    assert c[|b|] == i;
  }

  /** What is surely defined is defined on every path. */
  lemma {:induction false} AvailIsDefined(blocks: seq<Block>, open: set<nat>, next: Reg, avail: seq<set<Reg>>, path: seq<nat>, n: nat, r: Reg)
    requires Ssa(blocks, open, next, avail) && Walk(blocks, path) && n < |path| && r in avail[path[n]]
    ensures DefinedBefore(blocks, path, n, 0, r)
    decreases n, 0
  {
    if n > 0 {
      var p := path[n - 1];
      assert Edge(blocks, path[n - 1], path[n - 1 + 1]);
      assert EdgeFlows(blocks, avail, p, path[n]);
      OutIsDefined(blocks, open, next, avail, path, n - 1, r);
    }
  }

  lemma {:induction false} OutIsDefined(blocks: seq<Block>, open: set<nat>, next: Reg, avail: seq<set<Reg>>, path: seq<nat>, n: nat, r: Reg)
    requires Ssa(blocks, open, next, avail) && Walk(blocks, path) && n < |path| && r in Out(blocks, avail, path[n])
    ensures DefinedBefore(blocks, path, n + 1, 0, r)
    decreases n, 1
  {
    assert path[n] < |blocks| == |avail|;
    hide Ssa;
    if r in avail[path[n]] {
      AvailIsDefined(blocks, open, next, avail, path, n, r);
      var m: nat, j: nat :| m < |path| && (m < n || (m == n && j < 0)) && DefAt(blocks, path[m], j, r);
      assert m < n + 1;
    } else {
      var i :| 0 <= i < |blocks[path[n]]| && Dst(blocks[path[n]][i]) == Some(r);
      assert DefAt(blocks, path[n], i, r);
    }
  }

  lemma UseIsDefined(blocks: seq<Block>, next: Reg, avail: seq<set<Reg>>, path: seq<nat>, i: nat)
    requires Ssa(blocks, {}, next, avail) && Walk(blocks, path) && i < |blocks[path[|path| - 1]]|
    ensures UseDefined(blocks, path, i)
  {
    var n := |path| - 1;
    var b := blocks[path[n]];
    assert UseFlows(blocks, avail, path[n], i) && path[n] < |avail|;
    hide Ssa;
    forall r | r in Uses(b[i]) ensures DefinedBefore(blocks, path, n, i, r) {
      if r in avail[path[n]] {
        AvailIsDefined(blocks, {}, next, avail, path, n, r);
        var m: nat, j: nat :| m < |path| && (m < n || (m == n && j < 0)) && DefAt(blocks, path[m], j, r);
        assert m < n;
      } else {
        var j :| 0 <= j < i && Dst(b[..i][j]) == Some(r);
        assert DefAt(blocks, path[n], j, r);
      }
    }
    if b[i].Phi? && n > 0 {
      forall k | 0 <= k < |b[i].incoming| && b[i].incoming[k].1 == path[n - 1]
        ensures DefinedBefore(blocks, path, n, 0, b[i].incoming[k].0)
      {
        OutIsDefined(blocks, {}, next, avail, path, n - 1, b[i].incoming[k].0);
      }
    }
  }

  /** When no block is open, the function is legal. */
  lemma FinishedIsWellFormed(blocks: seq<Block>, next: Reg, avail: seq<set<Reg>>)
    requires Ssa(blocks, {}, next, avail)
    ensures WellFormed(blocks)
  {
    forall b | 0 <= b < |blocks| ensures Ended(blocks[b]) && PhisFirst(blocks[b]) { assert BlockForm(blocks, {}, b); }
    forall p: nat, t: nat | Edge(blocks, p, t) ensures 0 < t < |blocks| { assert EdgeFlows(blocks, avail, p, t); }
    forall b, i | 0 <= b < |blocks| && 0 <= i < |blocks[b]| && blocks[b][i].Phi?
      ensures PhiExact(blocks, b, blocks[b][i].incoming)
    {
      assert UseFlows(blocks, avail, b, i);
    }
    forall path | Walk(blocks, path) ensures UsesDefined(blocks, path) {
      forall i | 0 <= i < |blocks[path[|path| - 1]]|
        ensures UseDefined(blocks, path, i)
      {
        UseIsDefined(blocks, next, avail, path, i);
      }
    }
  }

  // Steps

  predicate NoPhi(b: Block) { forall i | 0 <= i < |b| :: !b[i].Phi? }

  /** From blocks to now no definition is lost. */
  ghost predicate Grown(blocks: seq<Block>, avail: seq<set<Reg>>, now: seq<Block>, navail: seq<set<Reg>>) {
    && |avail| == |blocks| <= |now| == |navail| && avail <= navail
    && forall b | 0 <= b < |blocks| :: DefsOf(blocks[b]) <= DefsOf(now[b])
  }

  lemma OldUse(blocks: seq<Block>, avail: seq<set<Reg>>, now: seq<Block>, navail: seq<set<Reg>>, b: nat, i: nat)
    requires Grown(blocks, avail, now, navail)
    requires b < |blocks| && i < |blocks[b]| && UseFlows(blocks, avail, b, i)
    requires i < |now[b]| && now[b][i] == blocks[b][i] && now[b][..i] == blocks[b][..i]
    requires blocks[b][i].Phi? ==> PhiExact(now, b, blocks[b][i].incoming)
    ensures UseFlows(now, navail, b, i)
  {
    hide PhiExact;
    if blocks[b][i].Phi? {
      forall k | 0 <= k < |now[b][i].incoming|
        ensures var (r, p) := now[b][i].incoming[k]; p < |now| && r in Out(now, navail, p)
      {
        assert blocks[b][i].incoming[k] == now[b][i].incoming[k];
      }
    }
  }

  lemma SamePhi(blocks: seq<Block>, now: seq<Block>, b: nat, incoming: seq<(Reg, nat)>)
    requires PhiExact(blocks, b, incoming) && forall p: nat :: Edge(now, p, b) <==> Edge(blocks, p, b)
    ensures PhiExact(now, b, incoming)
  {
  }

  lemma NoEdges(blocks: seq<Block>, open: set<nat>, next: Reg, avail: seq<set<Reg>>, b: nat, t: nat)
    requires Ssa(blocks, open, next, avail) && b in open
    ensures !Edge(blocks, b, t)
  {
    assert BlockForm(blocks, open, b);
  }

  /** A new block, as yet empty and without predecessors. */
  lemma AddBlock(blocks: seq<Block>, open: set<nat>, next: Reg, avail: seq<set<Reg>>, s: set<Reg>)
    requires Ssa(blocks, open, next, avail)
    ensures Ssa(blocks + [[]], open + {|blocks|}, next, avail + [s])
    ensures forall p: nat, t: nat :: Edge(blocks + [[]], p, t) <==> Edge(blocks, p, t)
  {
    hide PhiExact, DefsOf;
    var now, navail := blocks + [[]], avail + [s];
    assert forall b | 0 <= b < |blocks| :: now[b] == blocks[b];
    assert Grown(blocks, avail, now, navail);
    forall b | 0 <= b < |now| ensures BlockForm(now, open + {|blocks|}, b) {
      if b < |blocks| { assert BlockForm(blocks, open, b); }
    }
    forall p: nat, t: nat | Edge(now, p, t) ensures EdgeFlows(now, navail, p, t) { assert Edge(blocks, p, t) && EdgeFlows(blocks, avail, p, t); }
    forall b, i | 0 <= b < |now| && 0 <= i < |now[b]| ensures UseFlows(now, navail, b, i) {
      assert UseFlows(blocks, avail, b, i);
      if now[b][i].Phi? { SamePhi(blocks, now, b, now[b][i].incoming); }
      OldUse(blocks, avail, now, navail, b, i);
    }
    SameDefs(blocks, now, next);
  }

  /** Defining nothing new, or one fresh register. */
  lemma SameDefs(blocks: seq<Block>, now: seq<Block>, next: Reg)
    requires SingleDefs(blocks) && forall b: nat, i: nat, r: Reg | DefAt(blocks, b, i, r) :: r < next
    requires forall b: nat, i: nat, r: Reg | DefAt(now, b, i, r) :: DefAt(blocks, b, i, r)
    ensures SingleDefs(now) && forall b: nat, i: nat, r: Reg | DefAt(now, b, i, r) :: r < next
  {
  }

  lemma FreshDef(blocks: seq<Block>, now: seq<Block>, next: Reg, next': Reg, c: nat, k: nat)
    requires SingleDefs(blocks) && next <= next' && forall b: nat, i: nat, r: Reg | DefAt(blocks, b, i, r) :: r < next
    requires forall b: nat, i: nat, r: Reg | DefAt(now, b, i, r) :: DefAt(blocks, b, i, r) || (b == c && i == k && next <= r < next')
    ensures SingleDefs(now) && forall b: nat, i: nat, r: Reg | DefAt(now, b, i, r) :: r < next'
  {
    forall b: nat, i: nat, d: nat, j: nat, r: Reg | DefAt(now, b, i, r) && DefAt(now, d, j, r) ensures b == d && i == j {
      if !DefAt(blocks, b, i, r) || !DefAt(blocks, d, j, r) {
        assert r >= next;
        assert !DefAt(blocks, b, i, r) && !DefAt(blocks, d, j, r);
      }
    }
  }

  /** One more instruction in an open block. */
  lemma Append(blocks: seq<Block>, open: set<nat>, next: Reg, avail: seq<set<Reg>>, b: nat, i: Instr, next': Reg)
    requires Ssa(blocks, open, next, avail) && b in open && !IsTerminator(i) && !i.Phi? && next <= next'
    requires b < |blocks| == |avail| && Uses(i) <= Out(blocks, avail, b) && (Dst(i).Some? ==> next <= Dst(i).value < next')
    ensures var now := blocks[b := blocks[b] + [i]];
            && Ssa(now, open, next', avail)
            && Out(now, avail, b) == Out(blocks, avail, b) + (if Dst(i).Some? then {Dst(i).value} else {})
            && forall p: nat, t: nat :: Edge(now, p, t) <==> Edge(blocks, p, t)
  {
    hide PhiExact, DefsOf;
    var now := blocks[b := blocks[b] + [i]];
    assert BlockForm(blocks, open, b);
    DefsGrow(blocks[b], i);
    assert Grown(blocks, avail, now, avail);
    forall p: nat, t: nat ensures Edge(now, p, t) <==> Edge(blocks, p, t) {}
    forall c | 0 <= c < |now| ensures BlockForm(now, open, c) { assert BlockForm(blocks, open, c); }
    forall p: nat, t: nat | Edge(now, p, t) ensures EdgeFlows(now, avail, p, t) { assert Edge(blocks, p, t) && EdgeFlows(blocks, avail, p, t); }
    forall c, k | 0 <= c < |now| && 0 <= k < |now[c]| ensures UseFlows(now, avail, c, k) {
      if k < |blocks[c]| {
        assert UseFlows(blocks, avail, c, k);
        if now[c][k].Phi? { SamePhi(blocks, now, c, now[c][k].incoming); }
        OldUse(blocks, avail, now, avail, c, k);
      } else {
        assert now[c][..k] == blocks[c];
      }
    }
    FreshDef(blocks, now, next, next', b, |blocks[b]|);
  }

  /** The end of an open block, towards blocks without phis. */
  lemma Finish(blocks: seq<Block>, open: set<nat>, next: Reg, avail: seq<set<Reg>>, b: nat, i: Instr)
    requires Ssa(blocks, open, next, avail) && b in open && IsTerminator(i) && (i.CondBr? ==> i.yes != i.no)
    requires b < |blocks| == |avail| && Uses(i) <= Out(blocks, avail, b)
    requires forall t | t in Targets(i) :: 0 < t < |blocks| && avail[t] <= Out(blocks, avail, b) && NoPhi(blocks[t])
    ensures var now := blocks[b := blocks[b] + [i]];
            && Ssa(now, open - {b}, next, avail) && Out(now, avail, b) == Out(blocks, avail, b)
            && forall p: nat, t: nat :: Edge(now, p, t) <==> Edge(blocks, p, t) || (p == b && t in Targets(i))
  {
    hide PhiExact, DefsOf;
    var now := blocks[b := blocks[b] + [i]];
    assert BlockForm(blocks, open, b);
    DefsGrow(blocks[b], i);
    assert Grown(blocks, avail, now, avail);
    forall p: nat, t: nat ensures Edge(now, p, t) <==> Edge(blocks, p, t) || (p == b && t in Targets(i)) {}
    forall c | 0 <= c < |now| ensures BlockForm(now, open - {b}, c) { assert BlockForm(blocks, open, c); }
    forall p: nat, t: nat | Edge(now, p, t) ensures EdgeFlows(now, avail, p, t) {
      if Edge(blocks, p, t) { assert EdgeFlows(blocks, avail, p, t); }
    }
    forall c, k | 0 <= c < |now| && 0 <= k < |now[c]| ensures UseFlows(now, avail, c, k) {
      if k < |blocks[c]| {
        assert UseFlows(blocks, avail, c, k);
        if now[c][k].Phi? { SamePhi(blocks, now, c, now[c][k].incoming); }
        OldUse(blocks, avail, now, avail, c, k);
      } else {
        assert now[c][..k] == blocks[c];
      }
    }
    SameDefs(blocks, now, next);
  }

  /** A phi opens a block that one block has branched to. */
  lemma PutPhi(blocks: seq<Block>, open: set<nat>, next: Reg, avail: seq<set<Reg>>, b: nat, r: Reg, h: Reg, p: nat)
    requires Ssa(blocks, open, next, avail) && b in open && b < |blocks| == |avail| && blocks[b] == [] && r >= next
    requires p < |blocks| && h in Out(blocks, avail, p) && forall q: nat :: Edge(blocks, q, b) <==> q == p
    ensures var now := blocks[b := [Phi(r, [(h, p)])]];
            && Ssa(now, open, r + 1, avail) && Out(now, avail, b) == avail[b] + {r}
            && forall p: nat, t: nat :: Edge(now, p, t) <==> Edge(blocks, p, t)
  {
    var phi := Phi(r, [(h, p)]);
    var now := blocks[b := [phi]];
    assert blocks[b] + [phi] == [phi];
    DefsGrow(blocks[b], phi);
    assert DefsOf([]) == {};
    forall q: nat, t: nat ensures Edge(now, q, t) <==> Edge(blocks, q, t) {}
    assert PhiExact(now, b, [(h, p)]) by { assert [(h, p)][0].1 == p; assert forall q: nat :: From([(h, p)], q) <==> q == p; }
    hide PhiExact, DefsOf;
    assert Grown(blocks, avail, now, avail);
    forall c | 0 <= c < |now| ensures BlockForm(now, open, c) { assert BlockForm(blocks, open, c); }
    forall q: nat, t: nat | Edge(now, q, t) ensures EdgeFlows(now, avail, q, t) { assert Edge(blocks, q, t) && EdgeFlows(blocks, avail, q, t); }
    forall c, k | 0 <= c < |now| && 0 <= k < |now[c]| ensures UseFlows(now, avail, c, k) {
      if c != b {
        assert UseFlows(blocks, avail, c, k);
        if now[c][k].Phi? { SamePhi(blocks, now, c, now[c][k].incoming); }
        OldUse(blocks, avail, now, avail, c, k);
      } else {
        assert now[c][k] == phi && Uses(phi) == {};
      }
    }
    FreshDef(blocks, now, next, r + 1, b, 0);
  }

  /** A second way into a block that a phi opens: the branch and its entry in the phi. */
  lemma JoinPhi(blocks: seq<Block>, open: set<nat>, next: Reg, avail: seq<set<Reg>>, b: nat, t: nat, h: Reg)
    requires Ssa(blocks, open, next, avail) && b in open && t in open && b != t && 0 < t && b < |blocks| == |avail| && t < |blocks|
    requires |blocks[t]| == 1 && blocks[t][0].Phi? && h in Out(blocks, avail, b) && avail[t] <= Out(blocks, avail, b)
    ensures var phi := Phi(blocks[t][0].dst, blocks[t][0].incoming + [(h, b)]);
            var now := blocks[b := blocks[b] + [Br(t)]][t := [phi]];
            && Ssa(now, open - {b}, next, avail)
            && Out(now, avail, t) == Out(blocks, avail, t)
            && forall p: nat, u: nat :: Edge(now, p, u) <==> Edge(blocks, p, u) || (p == b && u == t)
  {
    var inc := blocks[t][0].incoming;
    var all := inc + [(h, b)];
    var phi := Phi(blocks[t][0].dst, all);
    var now := blocks[b := blocks[b] + [Br(t)]][t := [phi]];
    assert BlockForm(blocks, open, b) && BlockForm(blocks, open, t) && UseFlows(blocks, avail, t, 0);
    DefsGrow(blocks[b], Br(t));
    OneDef(blocks[t]);
    OneDef(now[t]);
    forall p: nat, u: nat ensures Edge(now, p, u) <==> Edge(blocks, p, u) || (p == b && u == t) {}
    NoEdges(blocks, open, next, avail, b, t);
    Joined(blocks, now, t, inc, (h, b));
    assert Grown(blocks, avail, now, avail);
    hide PhiExact, DefsOf;
    forall c | 0 <= c < |now| ensures BlockForm(now, open - {b}, c) { assert BlockForm(blocks, open, c); }
    forall p: nat, u: nat | Edge(now, p, u) ensures EdgeFlows(now, avail, p, u) {
      if Edge(blocks, p, u) { assert EdgeFlows(blocks, avail, p, u); }
    }
    forall c, k | 0 <= c < |now| && 0 <= k < |now[c]| ensures UseFlows(now, avail, c, k) {
      if c == t {
        JoinedFlows(blocks, now, avail, t, b, h);
      } else if k < |blocks[c]| {
        assert UseFlows(blocks, avail, c, k);
        if now[c][k].Phi? { SamePhi(blocks, now, c, now[c][k].incoming); }
        OldUse(blocks, avail, now, avail, c, k);
      } else {
        assert now[c][..k] == blocks[c] && now[c][k] == Br(t);
      }
    }
    SameDefs(blocks, now, next);
  }

  lemma OneDef(b: Block)
    requires |b| == 1 && Dst(b[0]).Some?
    ensures DefsOf(b) == {Dst(b[0]).value}
  {
    DefsGrow([], b[0]);
    assert [] + [b[0]] == b && DefsOf([]) == {};
  }

  lemma Joined(blocks: seq<Block>, now: seq<Block>, t: nat, inc: seq<(Reg, nat)>, entry: (Reg, nat))
    requires PhiExact(blocks, t, inc) && !Edge(blocks, entry.1, t)
    requires forall p: nat :: Edge(now, p, t) <==> Edge(blocks, p, t) || p == entry.1
    ensures PhiExact(now, t, inc + [entry])
  {
    var all := inc + [entry];
    assert !From(inc, entry.1);
    forall p: nat ensures From(all, p) <==> From(inc, p) || p == entry.1 {
      if From(inc, p) {
        var k :| 0 <= k < |inc| && inc[k].1 == p;
        assert all[k].1 == p;
      }
      if p == entry.1 { assert all[|inc|].1 == p; }
    }
    forall k | 0 <= k < |inc| ensures inc[k].1 != entry.1 {}
  }

  lemma JoinedFlows(blocks: seq<Block>, now: seq<Block>, avail: seq<set<Reg>>, t: nat, b: nat, h: Reg)
    requires |avail| == |blocks| == |now| && t < |blocks| && b < |blocks| && |blocks[t]| == 1 && blocks[t][0].Phi?
    requires UseFlows(blocks, avail, t, 0) && h in Out(blocks, avail, b)
    requires forall p | 0 <= p < |blocks| :: DefsOf(blocks[p]) <= DefsOf(now[p])
    requires now[t] == [Phi(blocks[t][0].dst, blocks[t][0].incoming + [(h, b)])] && PhiExact(now, t, now[t][0].incoming)
    ensures UseFlows(now, avail, t, 0)
  {
    hide PhiExact, DefsOf;
    var inc, all := blocks[t][0].incoming, now[t][0].incoming;
    forall k | 0 <= k < |all| ensures var (r, p) := all[k]; p < |now| && r in Out(now, avail, p) {
      if k < |inc| { assert all[k] == inc[k] == blocks[t][0].incoming[k]; }
    }
  }

  // The compiler's state

  /** What every block after the header may read. */
  function Fixed(checked: bool): set<Reg> { if checked then {ARR, ARRMAX} else {ARR} }

  /** A block of the footer: finished, without phis, and reading the tape pointer at most. */
  ghost predicate Footer(blocks: seq<Block>, open: set<nat>, avail: seq<set<Reg>>, b: nat) {
    0 < b < |blocks| == |avail| && b !in open && avail[b] == {ARR} && NoPhi(blocks[b])
  }

  /** The test block t of an open loop holds its phi, the body begins in the block after it, and what is known where the
      test begins is known where the compiler stands. */
  ghost predicate LoopForm(blocks: seq<Block>, tests: set<nat>, avail: seq<set<Reg>>, checked: bool, cur: nat, t: nat) {
    && 0 < t && t + 1 < |blocks| == |avail| && cur < |blocks|
    && |blocks[t]| == 1 && blocks[t][0].Phi? && NoPhi(blocks[t + 1]) && t + 1 !in tests
    && Fixed(checked) <= avail[t] <= Out(blocks, avail, cur) && avail[t + 1] <= Out(blocks, avail, t)
    && forall u | u in tests && u <= t < |avail| :: u < |avail| && avail[u] <= avail[t]
  }

  /** Code is being put at the end of cur; `tests` are the test blocks of the loops still open. */
  ghost predicate Building(blocks: seq<Block>, cur: nat, tests: set<nat>, next: Reg, head: Reg, checked: bool, avail: seq<set<Reg>>) {
    && Ssa(blocks, tests + {cur}, next, avail) && cur !in tests && cur < |blocks| == |avail|
    && head in Out(blocks, avail, cur) && Fixed(checked) <= Out(blocks, avail, cur)
    && Footer(blocks, tests + {cur}, avail, END) && (checked ==> Footer(blocks, tests + {cur}, avail, ABERROR))
    && forall t {:trigger LoopForm(blocks, tests, avail, checked, cur, t)} | t in tests ::
         LoopForm(blocks, tests, avail, checked, cur, t)
  }

  /** The blocks written so far are in form. */
  ghost predicate Formed(blocks: seq<Block>, cur: nat, tests: set<nat>, next: Reg, head: Reg, checked: bool) {
    exists avail :: Building(blocks, cur, tests, next, head, checked, avail)
  }

  /** One more instruction in the current block; the head may be what it defines. */
  lemma AppendHere(blocks: seq<Block>, cur: nat, tests: set<nat>, next: Reg, head: Reg, checked: bool, avail: seq<set<Reg>>,
                   i: Instr, next': Reg)
    requires Building(blocks, cur, tests, next, head, checked, avail) && !IsTerminator(i) && !i.Phi? && next <= next'
    requires Uses(i) <= Out(blocks, avail, cur) && (Dst(i).Some? ==> next <= Dst(i).value < next')
    ensures var now := blocks[cur := blocks[cur] + [i]];
            && Building(now, cur, tests, next', head, checked, avail)
            && (i.Gep? ==> Building(now, cur, tests, next', i.dst, checked, avail))
            && Out(now, avail, cur) == Out(blocks, avail, cur) + (if Dst(i).Some? then {Dst(i).value} else {})
  {
    var now := blocks[cur := blocks[cur] + [i]];
    Append(blocks, tests + {cur}, next, avail, cur, i, next');
    hide Ssa, DefsOf;
    forall t | t in tests ensures LoopForm(now, tests, avail, checked, cur, t) {
      assert LoopForm(blocks, tests, avail, checked, cur, t);
    }
  }

  lemma CodeJoins(blocks: seq<Block>, cur: nat, x: seq<Instr>, y: seq<Instr>, z: seq<Instr>)
    requires cur < |blocks| && z == x + y
    ensures var now := blocks[cur := blocks[cur] + x]; now[cur := now[cur] + y] == blocks[cur := blocks[cur] + z]
  {
    assert blocks[cur] + x + y == blocks[cur] + z;
  }

  /** The code of a read, a write or a change: two registers and an effect. */
  lemma TokenForm(blocks: seq<Block>, cur: nat, tests: set<nat>, r: Reg, head: Reg, checked: bool, a: Instr, b: Instr, c: Instr)
    requires Formed(blocks, cur, tests, r, head, checked)
    requires Dst(a) == Some(r) && Dst(b) == Some(r + 1) && Dst(c) == None
    requires !a.Phi? && !b.Phi? && !IsTerminator(c) && Uses(a) <= {head} && Uses(b) <= {r} && Uses(c) <= {r + 1, head}
    ensures cur < |blocks| && Formed(blocks[cur := blocks[cur] + [a, b, c]], cur, tests, r + 2, head, checked)
  {
    var avail :| Building(blocks, cur, tests, r, head, checked, avail);
    Heads(blocks, cur, tests, r, head, checked, avail);
    hide Building;
    AppendHere(blocks, cur, tests, r, head, checked, avail, a, r + 1);
    var one := blocks[cur := blocks[cur] + [a]];
    AppendHere(one, cur, tests, r + 1, head, checked, avail, b, r + 2);
    var two := one[cur := one[cur] + [b]];
    AppendHere(two, cur, tests, r + 2, head, checked, avail, c, r + 2);
    CodeJoins(blocks, cur, [a], [b], [a, b]);
    CodeJoins(blocks, cur, [a, b], [c], [a, b, c]);
  }

  lemma Heads(blocks: seq<Block>, cur: nat, tests: set<nat>, next: Reg, head: Reg, checked: bool, avail: seq<set<Reg>>)
    requires Building(blocks, cur, tests, next, head, checked, avail)
    ensures cur < |blocks| == |avail| && head in Out(blocks, avail, cur) && ARR in Out(blocks, avail, cur)
    ensures checked ==> ARRMAX in Out(blocks, avail, cur)
  {
  }

  lemma MoveForm(blocks: seq<Block>, cur: nat, tests: set<nat>, r: Reg, head: Reg, v: int)
    requires Formed(blocks, cur, tests, r, head, false)
    ensures cur < |blocks| && Formed(blocks[cur := blocks[cur] + [Gep(r, head, v)]], cur, tests, r + 1, r, false)
  {
    hide Building;
    var avail :| Building(blocks, cur, tests, r, head, false, avail);
    Heads(blocks, cur, tests, r, head, false, avail);
    AppendHere(blocks, cur, tests, r, head, false, avail, Gep(r, head, v), r + 1);
  }

  /** A move with its test: the code goes on in a new block. */
  lemma CheckedMoveForm(blocks: seq<Block>, cur: nat, tests: set<nat>, r: Reg, head: Reg, v: int)
    requires Formed(blocks, cur, tests, r, head, true)
    ensures cur < |blocks|
    ensures var next := |blocks|;
            Formed(blocks[cur := blocks[cur] + [Gep(r, head, v), IcmpUge(r + 1, r, ARRMAX), IcmpUlt(r + 2, r, ARR),
                                                OrBits(r + 3, r + 1, r + 2), CondBr(r + 3, ABERROR, next)]] + [[]],
                   next, tests, r + 4, r, true)
  {
    hide Building;
    var avail :| Building(blocks, cur, tests, r, head, true, avail);
    Heads(blocks, cur, tests, r, head, true, avail);
    var a, b, c, d := Gep(r, head, v), IcmpUge(r + 1, r, ARRMAX), IcmpUlt(r + 2, r, ARR), OrBits(r + 3, r + 1, r + 2);
    AppendHere(blocks, cur, tests, r, head, true, avail, a, r + 1);
    var one := blocks[cur := blocks[cur] + [a]];
    AppendHere(one, cur, tests, r + 1, r, true, avail, b, r + 2);
    var two := one[cur := one[cur] + [b]];
    AppendHere(two, cur, tests, r + 2, r, true, avail, c, r + 3);
    var three := two[cur := two[cur] + [c]];
    AppendHere(three, cur, tests, r + 3, r, true, avail, d, r + 4);
    var four := three[cur := three[cur] + [d]];
    CodeJoins(blocks, cur, [a], [b], [a, b]);
    CodeJoins(blocks, cur, [a, b], [c], [a, b, c]);
    CodeJoins(blocks, cur, [a, b, c], [d], [a, b, c, d]);
    BranchForm(four, cur, tests, r + 4, r, avail, r + 3);
    var e := CondBr(r + 3, ABERROR, |blocks|);
    CodeJoins(blocks, cur, [a, b, c, d], [e], [a, b, c, d, e]);
  }

  lemma BranchForm(blocks: seq<Block>, cur: nat, tests: set<nat>, next: Reg, head: Reg, avail: seq<set<Reg>>, c: Reg)
    requires Building(blocks, cur, tests, next, head, true, avail) && c in Out(blocks, avail, cur)
    ensures Formed(blocks[cur := blocks[cur] + [CondBr(c, ABERROR, |blocks|)]] + [[]], |blocks|, tests, next, head, true)
  {
    var open, n := tests + {cur}, |blocks|;
    var here := Out(blocks, avail, cur);
    AddBlock(blocks, open, next, avail, here);
    var wide, wavail := blocks + [[]], avail + [here];
    var i := CondBr(c, ABERROR, n);
    assert n !in open by { assert Ssa(blocks, open, next, avail); }
    assert Out(wide, wavail, cur) == here && NoPhi(wide[n]) && wavail[ABERROR] == {ARR};
    Finish(wide, open + {n}, next, wavail, cur, i);
    var now := wide[cur := wide[cur] + [i]];
    assert now == blocks[cur := blocks[cur] + [i]] + [[]];
    assert open + {n} - {cur} == tests + {n};
    assert Out(now, wavail, n) == here by { assert DefsOf([]) == {}; }
    forall t | t in tests ensures LoopForm(now, tests, wavail, true, n, t) {
      assert LoopForm(blocks, tests, avail, true, cur, t);
      LoopKept(blocks, avail, now, wavail, tests, true, cur, n, t);
    }
    assert Building(now, n, tests, next, head, true, wavail);
  }

  /** An open loop stays one when code moves on to a block that knows as much. */
  lemma LoopKept(blocks: seq<Block>, avail: seq<set<Reg>>, now: seq<Block>, navail: seq<set<Reg>>, tests: set<nat>, checked: bool,
                 cur: nat, cur': nat, t: nat)
    requires LoopForm(blocks, tests, avail, checked, cur, t)
    requires |avail| <= |now| == |navail| && avail <= navail && cur' < |now|
    requires Out(blocks, avail, cur) <= Out(now, navail, cur') && now[t] == blocks[t] && NoPhi(now[t + 1])
    ensures LoopForm(now, tests, navail, checked, cur', t)
  {
    hide DefsOf;
  }

  lemma TargetsExist(blocks: seq<Block>, open: set<nat>, next: Reg, avail: seq<set<Reg>>)
    requires Ssa(blocks, open, next, avail)
    ensures forall p: nat, t: nat | Edge(blocks, p, t) :: t < |blocks|
  {
    forall p: nat, t: nat | Edge(blocks, p, t) ensures t < |blocks| { assert EdgeFlows(blocks, avail, p, t); }
  }

  /** '[': a branch to a new test block that holds half a phi, and a new block to go on in. */
  lemma OpenForm(blocks: seq<Block>, cur: nat, tests: set<nat>, r: Reg, head: Reg, checked: bool)
    requires Formed(blocks, cur, tests, r, head, checked)
    ensures cur < |blocks|
    ensures var t := |blocks|;
            Formed(blocks[cur := blocks[cur] + [Br(t)]] + [[Phi(r, [(head, cur)])], []], t + 1, tests + {t}, r + 1, r, checked)
  {
    var avail :| Building(blocks, cur, tests, r, head, checked, avail);
    Heads(blocks, cur, tests, r, head, checked, avail);
    var open, t, here := tests + {cur}, |blocks|, Out(blocks, avail, cur);
    TargetsExist(blocks, open, r, avail);
    forall u | u in tests ensures u < |blocks| { assert LoopForm(blocks, tests, avail, checked, cur, u); }
    AddBlock(blocks, open, r, avail, here);
    var one, avail1 := blocks + [[]], avail + [here];
    assert Out(one, avail1, cur) == here && NoPhi(one[t]);
    Finish(one, open + {t}, r, avail1, cur, Br(t));
    var two := one[cur := one[cur] + [Br(t)]];
    PutPhi(two, tests + {t}, r, avail1, t, r, head, cur) by {
      assert open + {t} - {cur} == tests + {t};
      assert Out(two, avail1, cur) == here;
    }
    var three := two[t := [Phi(r, [(head, cur)])]];
    AddBlock(three, tests + {t}, r + 1, avail1, here + {r});
    var now, navail := three + [[]], avail1 + [here + {r}];
    assert now == blocks[cur := blocks[cur] + [Br(t)]] + [[Phi(r, [(head, cur)])], []];
    OpenedForm(blocks, avail, now, navail, tests, checked, cur, r, head);
    assert tests + {t} + {t + 1} == tests + {t} + {|three|};
  }

  lemma OpenedForm(blocks: seq<Block>, avail: seq<set<Reg>>, now: seq<Block>, navail: seq<set<Reg>>, tests: set<nat>, checked: bool,
                   cur: nat, r: Reg, head: Reg)
    requires Building(blocks, cur, tests, r, head, checked, avail) && forall u | u in tests :: u < |blocks|
    requires var t, here := |blocks|, Out(blocks, avail, cur);
             && now == blocks[cur := blocks[cur] + [Br(t)]] + [[Phi(r, [(head, cur)])], []]
             && navail == avail + [here, here + {r}] && Ssa(now, tests + {t} + {t + 1}, r + 1, navail)
    ensures Building(now, |blocks| + 1, tests + {|blocks|}, r + 1, r, checked, navail)
  {
    var t, here := |blocks|, Out(blocks, avail, cur);
    assert DefsOf([]) == {} && Out(now, navail, t + 1) == here + {r};
    OneDef(now[t]);
    hide Ssa, DefsOf;
    forall u | u in tests + {t} ensures LoopForm(now, tests + {t}, navail, checked, t + 1, u) {
      if u in tests { assert LoopForm(blocks, tests, avail, checked, cur, u); }
      forall v | v in tests + {t} && v <= u ensures v < |navail| && navail[v] <= navail[u] {
        if v in tests { assert LoopForm(blocks, tests, avail, checked, cur, v); }
      }
    }
  }

  /** ']' of the innermost open loop: its phi gets the second entry, the test is written, and code goes on in a new block
      that a phi opens. */
  lemma CloseForm(blocks: seq<Block>, cur: nat, tests: set<nat>, r: Reg, head: Reg, checked: bool, t: nat)
    requires Formed(blocks, cur, tests, r, head, checked) && t in tests && forall u | u in tests :: u <= t
    ensures cur < |blocks| && t < |blocks| && |blocks[t]| == 1 && blocks[t][0].Phi?
    ensures var phi := blocks[t][0].dst; var incoming := blocks[t][0].incoming + [(head, cur)]; var exit := |blocks|;
            var test := [Phi(phi, incoming), Load(r, phi), IcmpEqZero(r + 1, r), CondBr(r + 1, exit, t + 1)];
            Formed(blocks[cur := blocks[cur] + [Br(t)]][t := test] + [[Phi(r + 2, [(phi, t)])]], exit, tests - {t}, r + 3, r + 2, checked)
  {
    var avail :| Building(blocks, cur, tests, r, head, checked, avail);
    assert LoopForm(blocks, tests, avail, checked, cur, t);
    var open, exit := tests + {cur}, |blocks|;
    var phi, incoming := blocks[t][0].dst, blocks[t][0].incoming + [(head, cur)];
    JoinPhi(blocks, open, r, avail, cur, t, head);
    var base := blocks[cur := blocks[cur] + [Br(t)]];
    var a, b, c, d := Phi(phi, incoming), Load(r, phi), IcmpEqZero(r + 1, r), CondBr(r + 1, exit, t + 1);
    assert open - {cur} == tests;
    TestForm(base, avail, tests, r, t, a, exit);
    var now := base[t := [a, b, c, d]] + [[Phi(r + 2, [(phi, t)])]];
    ClosedForm(blocks, avail, now, avail + [Out(base[t := [a, b, c]], avail, t)], tests, checked, cur, r, head, t);
  }

  lemma CodeInto(blocks: seq<Block>, t: nat, x: seq<Instr>, y: Instr, z: seq<Instr>)
    requires t < |blocks| && z == x + [y]
    ensures var now := blocks[t := x]; now[t := now[t] + [y]] == blocks[t := z]
  {
  }

  /** The code of a test block, once its phi is complete. */
  lemma TestForm(base: seq<Block>, avail: seq<set<Reg>>, tests: set<nat>, r: Reg, t: nat, a: Instr, exit: nat)
    requires t in tests && t + 1 < |base| == exit == |avail| && t + 1 !in tests && a.Phi? && Ssa(base[t := [a]], tests, r, avail)
    requires avail[t + 1] <= avail[t] + {a.dst} && NoPhi(base[t + 1])
    ensures var b, c, d := Load(r, a.dst), IcmpEqZero(r + 1, r), CondBr(r + 1, exit, t + 1);
            && avail[t] <= Out(base[t := [a, b, c]], avail, t)
            && Ssa(base[t := [a, b, c, d]] + [[Phi(r + 2, [(a.dst, t)])]], tests - {t} + {exit}, r + 3,
                   avail + [Out(base[t := [a, b, c]], avail, t)])
  {
    var b, c, d := Load(r, a.dst), IcmpEqZero(r + 1, r), CondBr(r + 1, exit, t + 1);
    OneDef([a]);
    hide Ssa, DefsOf;
    var one, two, three := base[t := [a]], base[t := [a, b]], base[t := [a, b, c]];
    Append(one, tests, r, avail, t, b, r + 1);
    CodeInto(base, t, [a], b, [a, b]);
    Append(two, tests, r + 1, avail, t, c, r + 2);
    CodeInto(base, t, [a, b], c, [a, b, c]);
    TargetsExist(three, tests, r + 2, avail);
    ExitForm(three, avail, tests, r + 2, t, a.dst);
    CodeInto(base, t, [a, b, c], d, [a, b, c, d]);
  }

  /** The end of a test block, and the block after the loop. */
  lemma ExitForm(blocks: seq<Block>, avail: seq<set<Reg>>, tests: set<nat>, next: Reg, t: nat, phi: Reg)
    requires Ssa(blocks, tests, next, avail) && t in tests && next > 0 && t + 1 < |blocks| == |avail| && t + 1 !in tests
    requires phi in Out(blocks, avail, t) && next - 1 in Out(blocks, avail, t) && avail[t + 1] <= Out(blocks, avail, t)
    requires NoPhi(blocks[t + 1]) && forall p: nat, u: nat | Edge(blocks, p, u) :: u < |blocks|
    ensures var exit := |blocks|;
            Ssa(blocks[t := blocks[t] + [CondBr(next - 1, exit, t + 1)]] + [[Phi(next, [(phi, t)])]], tests - {t} + {exit}, next + 1,
                avail + [Out(blocks, avail, t)])
  {
    var exit, here := |blocks|, Out(blocks, avail, t);
    AddBlock(blocks, tests, next, avail, here);
    var one, wavail := blocks + [[]], avail + [here];
    var i := CondBr(next - 1, exit, t + 1);
    assert Out(one, wavail, t) == here && NoPhi(one[exit]);
    Finish(one, tests + {exit}, next, wavail, t, i);
    var two := one[t := one[t] + [i]];
    assert exit !in tests by { assert forall b | b in tests :: b < |blocks|; }
    assert tests + {exit} - {t} == tests - {t} + {exit};
    PutPhi(two, tests - {t} + {exit}, next, wavail, exit, next, phi, t);
    assert two[exit := [Phi(next, [(phi, t)])]] == blocks[t := blocks[t] + [i]] + [[Phi(next, [(phi, t)])]];
  }

  lemma ClosedForm(blocks: seq<Block>, avail: seq<set<Reg>>, now: seq<Block>, navail: seq<set<Reg>>, tests: set<nat>, checked: bool,
                   cur: nat, r: Reg, head: Reg, t: nat)
    requires Building(blocks, cur, tests, r, head, checked, avail) && t in tests && forall u | u in tests :: u <= t
    requires t < |blocks| && |blocks[t]| == 1 && blocks[t][0].Phi?
    requires var phi := blocks[t][0].dst; var exit := |blocks|;
             && Ssa(now, tests - {t} + {exit}, r + 3, navail) && |navail| == exit + 1 && navail[..exit] == avail && avail[t] <= navail[exit]
             && |now| == exit + 1 && now[exit] == [Phi(r + 2, [(phi, t)])]
             && (forall b | 0 <= b < exit && b != cur && b != t :: now[b] == blocks[b])
             && cur < exit && (NoPhi(blocks[cur]) ==> NoPhi(now[cur]))
    ensures Building(now, |blocks|, tests - {t}, r + 3, r + 2, checked, navail)
  {
    var exit := |blocks|;
    assert forall b | 0 <= b < exit :: navail[b] == navail[..exit][b] == avail[b];
    OneDef(now[exit]);
    assert LoopForm(blocks, tests, avail, checked, cur, t);
    hide Ssa, DefsOf;
    forall u | u in tests - {t} ensures LoopForm(now, tests - {t}, navail, checked, exit, u) {
      assert LoopForm(blocks, tests, avail, checked, cur, u);
    }
  }

  /** The end of the text, with no loop open: the function is legal. */
  lemma EofForm(blocks: seq<Block>, cur: nat, next: Reg, head: Reg, checked: bool)
    requires Formed(blocks, cur, {}, next, head, checked)
    ensures cur < |blocks| && WellFormed(blocks[cur := blocks[cur] + [Br(END)]])
  {
    var avail :| Building(blocks, cur, {}, next, head, checked, avail);
    Finish(blocks, {} + {cur}, next, avail, cur, Br(END));
    assert {} + {cur} - {cur} == {};
    FinishedIsWellFormed(blocks[cur := blocks[cur] + [Br(END)]], next, avail);
  }

  lemma EmptyForm()
    ensures Ssa([[]], {0}, 0, [{}])
  {
    assert BlockForm([[]], {0}, 0);
  }

  /** The header: its registers are all that is defined. */
  lemma HeaderForm(mem: nat, checked: bool)
    ensures Ssa([HeaderCode(mem, checked)], {0}, HEAD + 1, [{}])
    ensures Out([HeaderCode(mem, checked)], [{}], 0) == Fixed(checked) + {HEAD}
  {
    var a, b, c, d := Malloc(ARR, mem), Memset(ARR, 0, mem), Gep(ARRMAX, ARR, mem), Gep(HEAD, ARR, mem / 2);
    EmptyForm();
    DefsGrow([], a);
    assert DefsOf([]) == {} && [] + [a] == [a] && [a] + [b] == [a, b];
    hide Ssa, DefsOf;
    Append([[]], {0}, 0, [{}], 0, a, 1);
    assert [[]][0 := [a]] == [[a]];
    Append([[a]], {0}, 1, [{}], 0, b, 1);
    assert [[a]][0 := [a, b]] == [[a, b]];
    if checked {
      Append([[a, b]], {0}, 1, [{}], 0, c, 2);
      assert [a, b] + [c] == [a, b, c] && [[a, b]][0 := [a, b, c]] == [[a, b, c]];
      Append([[a, b, c]], {0}, 2, [{}], 0, d, 3);
      assert [a, b, c] + [d] == HeaderCode(mem, checked);
      assert [[a, b, c]][0 := HeaderCode(mem, checked)] == [HeaderCode(mem, checked)];
    } else {
      Append([[a, b]], {0}, 1, [{}], 0, d, 3);
      assert [a, b] + [d] == HeaderCode(mem, checked);
      assert [[a, b]][0 := HeaderCode(mem, checked)] == [HeaderCode(mem, checked)];
    }
  }

  /** A new block of two instructions that reads at most the tape pointer. */
  lemma FooterForm(blocks: seq<Block>, open: set<nat>, next: Reg, avail: seq<set<Reg>>, i: Instr, j: Instr)
    requires Ssa(blocks, open, next, avail) && !IsTerminator(i) && !i.Phi? && Dst(i) == None && Uses(i) <= {ARR}
    requires j == RetVoid || (j == Br(END) && END < |blocks| == |avail| && avail[END] == {ARR} && NoPhi(blocks[END]))
    ensures Ssa(blocks + [[i, j]], open, next, avail + [{ARR}])
  {
    var n := |blocks|;
    AddBlock(blocks, open, next, avail, {ARR});
    var one, wavail := blocks + [[]], avail + [{ARR}];
    assert DefsOf([]) == {} && n !in open by { assert forall b | b in open :: b < |blocks|; }
    assert Out(one, wavail, n) == {ARR};
    hide Ssa, DefsOf;
    Append(one, open + {n}, next, wavail, n, i, next);
    var two := one[n := [i]];
    assert [] + [i] == [i] && two == blocks + [[i]];
    Finish(two, open + {n}, next, wavail, n, j);
    assert [i] + [j] == [i, j] && two[n := [i, j]] == blocks + [[i, j]] && open + {n} - {n} == open;
  }

  /** The function as `header` leaves it. */
  lemma StartForm(mem: nat, checked: bool)
    ensures Formed([HeaderCode(mem, checked), [FreeTape(ARR), RetVoid]] + (if checked then [[Puts, Br(END)]] else []),
                   0, {}, HEAD + 1, HEAD, checked)
  {
    var header := HeaderCode(mem, checked);
    HeaderForm(mem, checked);
    hide Ssa, DefsOf;
    FooterForm([header], {0}, HEAD + 1, [{}], FreeTape(ARR), RetVoid);
    var one, avail := [header, [FreeTape(ARR), RetVoid]], [{}, {ARR}];
    assert one == [header] + [[FreeTape(ARR), RetVoid]] && avail == [{}] + [{ARR}];
    if checked {
      FooterForm(one, {0}, HEAD + 1, avail, Puts, Br(END));
      assert Building(one + [[Puts, Br(END)]], 0, {}, HEAD + 1, HEAD, checked, avail + [{ARR}]) by { assert {} + {0} == {0}; }
    } else {
      assert Building(one, 0, {}, HEAD + 1, HEAD, checked, avail) by { assert {} + {0} == {0}; }
      assert one + [] == one;
    }
  }
}
