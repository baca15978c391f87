/** Once-initialisation of passes by any number of threads: the compare-and-swap protocol around each init function,
    the init functions that the INITIALIZE macros generate, and the pass registry they write to. */
module OnceInit {
  type Node = nat

  /** How a node is declared. `deps` are its INITIALIZE_PASS_DEPENDENCY and INITIALIZE_AG_DEPENDENCY lines in order. */
  datatype Decl =
    | PlainPass(deps: seq<Node>)
    | AnalysisGroup(default_: Node)
    | GroupPass(group: Node, isDefault: bool, deps: seq<Node>)

  type Decls = map<Node, Decl>

  /** `Lookup` and `Insert` are the two critical sections of registerAnalysisGroup before it joins the group. */
  datatype Action =
    | Call(callee: Node)
    | Enter
    | Lookup(group: Node)
    | Insert(group: Node)
    | Join(group: Node, isDefault: bool)

  function Calls(ns: seq<Node>): seq<Action> { seq(|ns|, i requires 0 <= i < |ns| => Call(ns[i])) }

  function Callees(d: Decl): seq<Node> {
    match d
    case PlainPass(deps) => deps
    case AnalysisGroup(p) => [p]
    case GroupPass(g, def, deps) => (if def then [] else [g]) + deps
  }

  /** What the init function does after its calls. */
  function Tail(n: Node, d: Decl): seq<Action> {
    match d
    case PlainPass(_) => [Enter]
    case AnalysisGroup(_) => [Lookup(n), Insert(n)]
    case GroupPass(g, def, _) => [Enter, Lookup(g), Insert(g), Join(g, def)]
  }

  function Body(n: Node, d: Decl): seq<Action> { Calls(Callees(d)) + Tail(n, d) }

  /** Where a thread is in a call of an initialize function; `At(i)` is before action i, `found` the last lookup. */
  datatype PC = Cas | At(i: nat, found: bool) | Spin | Return

  datatype Frame = Frame(node: Node, pc: PC)

  /** `flags` are the static `initialized` words; `runner` remembers which frame won the swap; `failed` records
      a failed assertion of the registry. */
  datatype State = State(threads: seq<seq<Frame>>, flags: map<Node, int>, runner: map<Node, (nat, nat)>,
                         reg: seq<Node>, defaults: set<Node>, failed: bool)

  function SetTop(s: State, t: nat, pc: PC): State
    requires t < |s.threads| && s.threads[t] != []
  {
    var st := s.threads[t];
    s.(threads := s.threads[t := st[|st| - 1 := st[|st| - 1].(pc := pc)]])
  }

  function Push(s: State, t: nat, n: Node): State
    requires t < |s.threads|
  {
    s.(threads := s.threads[t := s.threads[t] + [Frame(n, Cas)]])
  }

  function RegisterKey(s: State, k: Node): State {
    if k in s.reg then s.(failed := true) else s.(reg := s.reg + [k])
  }

  /** One step of thread t. An idle thread calls `call`, if that is declared. */
  function Step(D: Decls, s: State, t: nat, call: Node): (s': State)
    requires t < |s.threads|
    ensures |s'.threads| == |s.threads|
  {
    var st := s.threads[t];
    if st == [] then (if call in D then Push(s, t, call) else s)
    else
      var n := st[|st| - 1].node;
      if n !in D || n !in s.flags then s
      else
        match st[|st| - 1].pc
        case Cas =>
          if s.flags[n] == 0
          then SetTop(s, t, At(0, false)).(flags := s.flags[n := 1], runner := s.runner[n := (t, |st| - 1)])
          else SetTop(s, t, Spin)
        case At(i, found) =>
          var b := Body(n, D[n]);
          if i >= |b| then SetTop(s, t, Return).(flags := s.flags[n := 2])
          else (
            match b[i]
            case Call(m) => Push(SetTop(s, t, At(i + 1, found)), t, m)
            case Enter => RegisterKey(SetTop(s, t, At(i + 1, found)), n)
            case Lookup(g) => SetTop(s, t, At(i + 1, g in s.reg))
            case Insert(g) =>
              var s' := SetTop(s, t, At(i + 1, found));
              if found then s' else RegisterKey(s', g)
            case Join(g, def) =>
              var s' := SetTop(s, t, At(i + 1, found));
              if n !in s.reg || (def && g in s.defaults) then s'.(failed := true)
              else if def then s'.(defaults := s.defaults + {g}) else s')
        case Spin => if s.flags[n] == 2 then SetTop(s, t, Return) else s
        case Return => s.(threads := s.threads[t := st[..|st| - 1]])
  }

  /** Any number of threads, none of them started. */
  function Initial(D: Decls, threads: nat): State {
    State(seq(threads, _ => []), map n | n in D :: 0, map[], [], {}, false)
  }

  /** What n calls is declared; a group pass names a group, and a group's default pass is the one member that is
      declared as default. */
  ghost predicate DeclOk(D: Decls, n: Node)
    requires n in D
  {
    && (forall j | 0 <= j < |Callees(D[n])| :: Callees(D[n])[j] in D)
    && match D[n]
       case PlainPass(_) => true
       case AnalysisGroup(d) => d in D && D[d].GroupPass? && D[d].group == n && D[d].isDefault
       case GroupPass(g, def, _) => g in D && D[g].AnalysisGroup? && (def <==> D[g].default_ == n)
  }

  ghost predicate WellDeclared(D: Decls) { forall n {:trigger DeclOk(D, n)} | n in D :: DeclOk(D, n) }

  // The invariant

  /** How many actions of n's init function have been taken. */
  function Taken(D: Decls, s: State, n: Node): nat {
    if n !in D || n !in s.flags || s.flags[n] == 0 then 0
    else if s.flags[n] == 2 then |Body(n, D[n])|
    else if n in s.runner && s.runner[n].0 < |s.threads| && s.runner[n].1 < |s.threads[s.runner[n].0]|
            && s.threads[s.runner[n].0][s.runner[n].1].pc.At?
    then s.threads[s.runner[n].0][s.runner[n].1].pc.i
    else 0
  }

  /** The steps n's init function has still to take, the one that sets its flag included. */
  function Left(D: Decls, s: State, n: Node): int
    requires n in D
  {
    if n in s.flags && s.flags[n] == 2 then 0 else |Body(n, D[n])| + 1 - Taken(D, s, n)
  }

  ghost predicate LessLeft(D: Decls, s: State, s': State) { forall m | m in D :: Left(D, s', m) <= Left(D, s, m) }

  /** The node whose init function puts key k into the registry. */
  function Source(D: Decls, k: Node): Node
    requires k in D
  {
    if D[k].AnalysisGroup? then D[k].default_ else k
  }

  /** The number of actions of that function up to and including the one that does. */
  function SourceEnd(D: Decls, k: Node): nat
    requires k in D
  {
    (if Source(D, k) in D then |Callees(D[Source(D, k)])| else 0) + (if D[k].AnalysisGroup? then 3 else 1)
  }

  ghost predicate FramesOk(D: Decls, s: State) {
    forall t, k | 0 <= t < |s.threads| && 0 <= k < |s.threads[t]| :: FrameOk(D, s, t, k)
  }

  ghost predicate FrameOk(D: Decls, s: State, t: nat, k: nat)
    requires t < |s.threads| && k < |s.threads[t]|
  {
    var f := s.threads[t][k];
    && f.node in D && f.node in s.flags
    && (k + 1 < |s.threads[t]| ==> f.pc.At? && 0 < f.pc.i <= |Body(f.node, D[f.node])|
                                   && Body(f.node, D[f.node])[f.pc.i - 1] == Call(s.threads[t][k + 1].node))
    && (f.pc.Return? ==> s.flags[f.node] == 2)
    && (f.pc.Spin? ==> s.flags[f.node] != 0)
    && (f.pc.At? ==>
          && s.flags[f.node] == 1 && f.node in s.runner && s.runner[f.node] == (t, k)
          && f.pc.i <= |Body(f.node, D[f.node])|
          && CallsDone(D, s, f.node, if k + 1 < |s.threads[t]| then f.pc.i - 1 else f.pc.i)
          && (f.pc.i < |Body(f.node, D[f.node])| && Body(f.node, D[f.node])[f.pc.i].Insert? ==>
                (f.pc.found <==> !(D[f.node].GroupPass? && D[f.node].isDefault))))
  }

  /** The calls among the first i actions of n have returned. */
  ghost predicate CallsDone(D: Decls, s: State, n: Node, i: int)
    requires n in D
  {
    forall j | 0 <= j < |Callees(D[n])| && j < i :: Done(s, Callees(D[n])[j])
  }

  predicate Done(s: State, m: Node) { m in s.flags && s.flags[m] == 2 }

  ghost predicate NodeOk(D: Decls, s: State, n: Node)
    requires n in D && n in s.flags
  {
    && s.flags[n] in {0, 1, 2}
    && (s.flags[n] == 1 ==>
          && n in s.runner
          && var (t, k) := s.runner[n];
          && t < |s.threads| && k < |s.threads[t]| && s.threads[t][k].node == n && s.threads[t][k].pc.At?)
    && (s.flags[n] == 2 ==> CallsDone(D, s, n, |Callees(D[n])|))
  }

  ghost predicate KeyOk(D: Decls, s: State, k: Node)
    requires k in D
  {
    && (k in s.reg <==> Taken(D, s, Source(D, k)) >= SourceEnd(D, k))
    && (D[k].AnalysisGroup? ==> (k in s.defaults <==> Taken(D, s, Source(D, k)) >= SourceEnd(D, k) + 1))
  }

  ghost predicate NodesOk(D: Decls, s: State) {
    D.Keys <= s.flags.Keys && forall n {:trigger NodeOk(D, s, n)} | n in D :: NodeOk(D, s, n)
  }

  ghost predicate KeysOk(D: Decls, s: State) {
    forall k {:trigger KeyOk(D, s, k)} | k in D :: KeyOk(D, s, k)
  }

  /** The registry: no key twice, and what a key's node calls stands before it. */
  ghost predicate RegOk(D: Decls, reg: seq<Node>) {
    && (forall p | 0 <= p < |reg| :: reg[p] in D)
    && (forall p, q | 0 <= p < q < |reg| :: reg[p] != reg[q])
    && (forall p {:trigger CalleesBefore(D, reg, p)} | 0 <= p < |reg| :: CalleesBefore(D, reg, p))
  }

  ghost predicate CalleesBefore(D: Decls, reg: seq<Node>, p: nat)
    requires p < |reg| && reg[p] in D
  {
    forall j | 0 <= j < |Callees(D[reg[p]])| :: Callees(D[reg[p]])[j] in reg[..p]
  }

  lemma RegAppends(D: Decls, reg: seq<Node>, k: Node)
    requires RegOk(D, reg) && k in D && k !in reg
    requires forall j | 0 <= j < |Callees(D[k])| :: Callees(D[k])[j] in reg
    ensures RegOk(D, reg + [k])
  {
    forall p | 0 <= p < |reg| + 1
      ensures CalleesBefore(D, reg + [k], p)
    {
      assert (reg + [k])[..p] == reg[..p];
      if p < |reg| {
        assert CalleesBefore(D, reg, p);
      } else {
        assert reg[..p] == reg;
      }
    }
  }

  ghost predicate Inv(D: Decls, s: State) {
    && WellDeclared(D) && !s.failed
    && NodesOk(D, s) && KeysOk(D, s) && FramesOk(D, s) && RegOk(D, s.reg)
  }

  lemma BodySize(n: Node, d: Decl)
    ensures |Body(n, d)| == |Callees(d)| + |Tail(n, d)|
  {
  }

  lemma BodyAt(n: Node, d: Decl, i: nat)
    requires i < |Body(n, d)|
    ensures i < |Callees(d)| ==> Body(n, d)[i] == Call(Callees(d)[i])
    ensures i >= |Callees(d)| ==> Body(n, d)[i] == Tail(n, d)[i - |Callees(d)|]
    ensures |Body(n, d)| == |Callees(d)| + |Tail(n, d)|
  {
  }

  lemma InitialInv(D: Decls, threads: nat)
    requires WellDeclared(D)
    ensures Inv(D, Initial(D, threads))
  {
    var s := Initial(D, threads);
    forall k | k in D
      ensures KeyOk(D, s, k)
    {
    }
  }

  /** The top frame of t is before action i of n. */
  predicate Running(D: Decls, s: State, t: nat, n: Node, i: nat, found: bool) {
    && t < |s.threads| && s.threads[t] != [] && n in D && i <= |Body(n, D[n])|
    && s.threads[t][|s.threads[t]| - 1] == Frame(n, At(i, found))
  }

  /** Threads, flags and runners change only where the top frame of t moves on to action i. */
  ghost predicate Moved(s: State, s': State, t: nat, i: nat, found: bool)
    requires t < |s.threads| && s.threads[t] != []
  {
    s'.threads == SetTop(s, t, At(i, found)).threads && s'.flags == s.flags && s'.runner == s.runner
  }

  lemma MoveFrames(D: Decls, s: State, s': State, t: nat, n: Node, i: nat, found: bool, found': bool)
    requires FramesOk(D, s) && Running(D, s, t, n, i, found) && Moved(s, s', t, i + 1, found')
    requires i < |Body(n, D[n])| && !Body(n, D[n])[i].Call?
    requires i + 1 < |Body(n, D[n])| && Body(n, D[n])[i + 1].Insert? ==>
               (found' <==> !(D[n].GroupPass? && D[n].isDefault))
    ensures FramesOk(D, s')
  {
    hide Body;
    BodyAt(n, D[n], i);
    assert FrameOk(D, s, t, |s.threads[t]| - 1);
    forall u, k | 0 <= u < |s'.threads| && 0 <= k < |s'.threads[u]|
      ensures FrameOk(D, s', u, k)
    {
      assert FrameOk(D, s, u, k);
      if u != t || k < |s.threads[t]| - 1 { SameFrame(D, s, s', u, k); }
    }
  }

  lemma MoveNodes(D: Decls, s: State, s': State, t: nat, n: Node, i: nat, found: bool, found': bool)
    requires FramesOk(D, s) && NodesOk(D, s) && Running(D, s, t, n, i, found) && Moved(s, s', t, i + 1, found')
    ensures NodesOk(D, s')
    ensures n in s.flags && Taken(D, s, n) == i && Taken(D, s', n) == i + 1
    ensures forall m | m in D && m != n :: m in s.flags && Taken(D, s', m) == Taken(D, s, m)
  {
    hide Body;
    assert FrameOk(D, s, t, |s.threads[t]| - 1);
    forall m | m in D
      ensures m in s.flags && NodeOk(D, s', m)
      ensures m != n ==> Taken(D, s', m) == Taken(D, s, m)
    {
      assert NodeOk(D, s, m);
      if s.flags[m] == 1 {
        var u, k := s.runner[m].0, s.runner[m].1;
        assert s'.threads[u][k].node == m && s'.threads[u][k].pc.At?;
        assert m != n ==> s'.threads[u][k] == s.threads[u][k];
      }
    }
  }

  lemma TakenAt(D: Decls, s: State, t: nat, k: nat)
    requires FramesOk(D, s) && t < |s.threads| && k < |s.threads[t]| && s.threads[t][k].pc.At?
    ensures var n := s.threads[t][k].node; n in D && n in s.flags && s.flags[n] == 1 && Taken(D, s, n) == s.threads[t][k].pc.i
  {
    assert FrameOk(D, s, t, k);
  }

  lemma TopTaken(D: Decls, s: State, t: nat, n: Node, i: nat, found: bool)
    requires FramesOk(D, s) && Running(D, s, t, n, i, found)
    ensures n in s.flags && s.flags[n] == 1 && Taken(D, s, n) == i
  {
    assert FrameOk(D, s, t, |s.threads[t]| - 1);
  }

  lemma CalleeIsKnown(D: Decls, s: State, m: Node)
    requires WellDeclared(D) && NodesOk(D, s) && KeysOk(D, s) && m in D && Done(s, m)
    ensures m in s.reg
  {
    assert NodeOk(D, s, m) && KeyOk(D, s, m) && DeclOk(D, m);
    if D[m].AnalysisGroup? {
      assert Callees(D[m])[0] == D[m].default_;
      assert Done(s, D[m].default_);
    }
  }

  /** All that n calls is in the registry once its calls are over. */
  lemma CalleesAreKnown(D: Decls, s: State, t: nat, n: Node, i: nat, found: bool)
    requires Inv(D, s) && Running(D, s, t, n, i, found) && i >= |Callees(D[n])|
    ensures forall j | 0 <= j < |Callees(D[n])| :: Callees(D[n])[j] in s.reg
  {
    assert FrameOk(D, s, t, |s.threads[t]| - 1) && DeclOk(D, n);
    forall j | 0 <= j < |Callees(D[n])|
      ensures Callees(D[n])[j] in s.reg
    {
      assert Done(s, Callees(D[n])[j]);
      CalleeIsKnown(D, s, Callees(D[n])[j]);
    }
  }

  ghost predicate Acts(D: Decls, s: State, t: nat, n: Node, i: nat, found: bool, a: Action) {
    Inv(D, s) && Running(D, s, t, n, i, found) && i < |Body(n, D[n])| && Body(n, D[n])[i] == a
  }

  lemma EnterKeeps(D: Decls, s: State, t: nat, n: Node, i: nat, found: bool)
    requires Acts(D, s, t, n, i, found, Enter)
    ensures Inv(D, Step(D, s, t, n)) && LessLeft(D, s, Step(D, s, t, n)) && Left(D, Step(D, s, t, n), n) < Left(D, s, n)
  {
    hide RegOk, FramesOk, NodesOk, Body, Callees;
    TopTaken(D, s, t, n, i, found);
    var s' := Step(D, s, t, n);
    assert DeclOk(D, n);
    BodyAt(n, D[n], i);
    if i + 1 < |Body(n, D[n])| { BodyAt(n, D[n], i + 1); }
    CalleesAreKnown(D, s, t, n, i, found);
    assert Source(D, n) == n && SourceEnd(D, n) == i + 1;
    assert KeyOk(D, s, n);
    RegAppends(D, s.reg, n);
    MoveNodes(D, s, s', t, n, i, found, found);
    MoveFrames(D, s, s', t, n, i, found, found);
    forall k | k in D
      ensures KeyOk(D, s', k)
    {
      assert KeyOk(D, s, k) && DeclOk(D, k);
    }
  }

  lemma LookupKeeps(D: Decls, s: State, t: nat, n: Node, i: nat, found: bool, g: Node)
    requires Acts(D, s, t, n, i, found, Lookup(g))
    ensures Inv(D, Step(D, s, t, n)) && LessLeft(D, s, Step(D, s, t, n)) && Left(D, Step(D, s, t, n), n) < Left(D, s, n)
  {
    hide RegOk, Body;
    TopTaken(D, s, t, n, i, found);
    var s' := Step(D, s, t, n);
    assert DeclOk(D, n);
    BodyAt(n, D[n], i);
    BodyAt(n, D[n], i + 1);
    assert FrameOk(D, s, t, |s.threads[t]| - 1);
    MoveNodes(D, s, s', t, n, i, found, g in s.reg);
    assert KeyOk(D, s, g);
    if D[n].GroupPass? && D[n].isDefault {
      assert Source(D, g) == n;
    } else {
      var m := Callees(D[n])[0];
      assert Done(s, m);
      CalleeIsKnown(D, s, m);
      if D[n].AnalysisGroup? {
        BodySize(m, D[m]);
        assert g in s.reg;
      } else {
        assert m == g;
      }
    }
    MoveFrames(D, s, s', t, n, i, found, g in s.reg);
    forall k | k in D
      ensures KeyOk(D, s', k)
    {
      assert KeyOk(D, s, k) && DeclOk(D, k);
    }
  }

  lemma InsertKeeps(D: Decls, s: State, t: nat, n: Node, i: nat, found: bool, g: Node)
    requires Acts(D, s, t, n, i, found, Insert(g))
    ensures Inv(D, Step(D, s, t, n)) && LessLeft(D, s, Step(D, s, t, n)) && Left(D, Step(D, s, t, n), n) < Left(D, s, n)
  {
    hide RegOk, NodesOk, Body;
    TopTaken(D, s, t, n, i, found);
    var s' := Step(D, s, t, n);
    assert DeclOk(D, n);
    BodyAt(n, D[n], i);
    if i + 1 < |Body(n, D[n])| { BodyAt(n, D[n], i + 1); }
    assert FrameOk(D, s, t, |s.threads[t]| - 1);
    assert KeyOk(D, s, g) && KeyOk(D, s, n) && DeclOk(D, g);
    MoveNodes(D, s, s', t, n, i, found, found);
    MoveFrames(D, s, s', t, n, i, found, found);
    if !found {
      assert Source(D, g) == n && SourceEnd(D, g) == i + 1;
      assert n in s.reg && Callees(D[g]) == [n];
      RegAppends(D, s.reg, g);
    }
    forall k | k in D
      ensures KeyOk(D, s', k)
    {
      assert KeyOk(D, s, k) && DeclOk(D, k);
    }
  }

  lemma JoinKeeps(D: Decls, s: State, t: nat, n: Node, i: nat, found: bool, g: Node, def: bool)
    requires Acts(D, s, t, n, i, found, Join(g, def))
    ensures Inv(D, Step(D, s, t, n)) && LessLeft(D, s, Step(D, s, t, n)) && Left(D, Step(D, s, t, n), n) < Left(D, s, n)
  {
    hide RegOk, NodesOk, Body;
    TopTaken(D, s, t, n, i, found);
    var s' := Step(D, s, t, n);
    assert DeclOk(D, n);
    BodyAt(n, D[n], i);
    assert KeyOk(D, s, g) && KeyOk(D, s, n) && DeclOk(D, g);
    MoveNodes(D, s, s', t, n, i, found, found);
    MoveFrames(D, s, s', t, n, i, found, found);
    forall k | k in D
      ensures KeyOk(D, s', k)
    {
      assert KeyOk(D, s, k) && DeclOk(D, k);
    }
  }

  lemma CallFrames(D: Decls, s: State, s': State, t: nat, n: Node, i: nat, found: bool, m: Node)
    requires FramesOk(D, s) && Running(D, s, t, n, i, found) && i < |Body(n, D[n])| && Body(n, D[n])[i] == Call(m)
    requires m in D && m in s.flags
    requires s' == Push(SetTop(s, t, At(i + 1, found)), t, m)
    ensures FramesOk(D, s')
  {
    hide Body;
    var top := |s.threads[t]| - 1;
    assert FrameOk(D, s, t, top);
    assert s'.threads[t][top] == Frame(n, At(i + 1, found)) && s'.threads[t][top + 1] == Frame(m, Cas);
    BodyAt(n, D[n], i);
    if i + 1 < |Body(n, D[n])| { BodyAt(n, D[n], i + 1); }
    forall u, k | 0 <= u < |s'.threads| && 0 <= k < |s'.threads[u]|
      ensures FrameOk(D, s', u, k)
    {
      if u != t || k < top {
        assert FrameOk(D, s, u, k);
        SameFrame(D, s, s', u, k);
      }
    }
  }

  lemma CallKeeps(D: Decls, s: State, t: nat, n: Node, i: nat, found: bool, m: Node)
    requires Acts(D, s, t, n, i, found, Call(m))
    ensures Inv(D, Step(D, s, t, n)) && LessLeft(D, s, Step(D, s, t, n)) && Left(D, Step(D, s, t, n), n) < Left(D, s, n)
  {
    hide RegOk, Body, FramesOk;
    BodyAt(n, D[n], i);
    assert DeclOk(D, n);
    TopTaken(D, s, t, n, i, found);
    var s' := Step(D, s, t, n);
    CallFrames(D, s, s', t, n, i, found, m);
    FramesKept(D, s, s', t, |s.threads[t]| - 1);
    TakenAt(D, s', t, |s.threads[t]| - 1);
    forall k | k in D
      ensures KeyOk(D, s', k)
    {
      assert KeyOk(D, s, k);
    }
  }

  /** Where other running frames stay as they are, and (t, top) goes on running its node, the nodes stay in order. */
  lemma FramesKept(D: Decls, s: State, s': State, t: nat, top: nat)
    requires FramesOk(D, s) && NodesOk(D, s) && t < |s.threads| && |s'.threads| == |s.threads| && top < |s.threads[t]|
    requires s'.flags == s.flags && s'.runner == s.runner
    requires forall u, k | 0 <= u < |s.threads| && 0 <= k < |s.threads[u]| && (u != t || k != top) && s.threads[u][k].pc.At? ::
               k < |s'.threads[u]| && s'.threads[u][k] == s.threads[u][k]
    requires s.threads[t][top].pc.At? ==>
               top < |s'.threads[t]| && s'.threads[t][top].pc.At? && s'.threads[t][top].node == s.threads[t][top].node
    ensures NodesOk(D, s')
    ensures forall m | m in D && m != s.threads[t][top].node :: Taken(D, s', m) == Taken(D, s, m)
  {
    forall m | m in D
      ensures NodeOk(D, s', m)
      ensures m != s.threads[t][top].node ==> Taken(D, s', m) == Taken(D, s, m)
    {
      assert NodeOk(D, s, m);
      if s.flags[m] == 1 {
        var u, k := s.runner[m].0, s.runner[m].1;
        assert s.threads[u][k].node == m && s.threads[u][k].pc.At?;
        assert s'.threads[u][k].node == m && s'.threads[u][k].pc.At?;
      }
    }
  }

  lemma KeysSame(D: Decls, s: State, s': State)
    requires KeysOk(D, s) && s'.reg == s.reg && s'.defaults == s.defaults
    requires forall m | m in D :: Taken(D, s', m) == Taken(D, s, m)
    ensures KeysOk(D, s')
  {
    forall k | k in D
      ensures KeyOk(D, s', k)
    {
      assert KeyOk(D, s, k);
      assert Source(D, k) !in D ==> Taken(D, s', Source(D, k)) == 0 == Taken(D, s, Source(D, k));
    }
  }

  lemma SwapFrames(D: Decls, s: State, s': State, t: nat, n: Node)
    requires FramesOk(D, s) && t < |s.threads| && s.threads[t] != [] && s.threads[t][|s.threads[t]| - 1] == Frame(n, Cas)
    requires n in D && n in s.flags && s.flags[n] == 0 && 0 < |Body(n, D[n])| && !Body(n, D[n])[0].Insert?
    requires s' == SetTop(s, t, At(0, false)).(flags := s.flags[n := 1], runner := s.runner[n := (t, |s.threads[t]| - 1)])
    ensures FramesOk(D, s')
  {
    hide Body;
    forall u, k | 0 <= u < |s'.threads| && 0 <= k < |s'.threads[u]|
      ensures FrameOk(D, s', u, k)
    {
      assert FrameOk(D, s, u, k);
    }
  }

  lemma SwapKeeps(D: Decls, s: State, t: nat, n: Node)
    requires Inv(D, s) && t < |s.threads| && s.threads[t] != [] && s.threads[t][|s.threads[t]| - 1] == Frame(n, Cas)
    requires n in s.flags && s.flags[n] == 0
    ensures Inv(D, Step(D, s, t, n)) && LessLeft(D, s, Step(D, s, t, n))
  {
    hide RegOk, KeysOk, Body;
    var s' := Step(D, s, t, n);
    var top := |s.threads[t]| - 1;
    assert FrameOk(D, s, t, top) && DeclOk(D, n);
    BodySize(n, D[n]);
    BodyAt(n, D[n], 0);
    SwapFrames(D, s, s', t, n);
    forall m | m in D
      ensures NodeOk(D, s', m) && Taken(D, s', m) == Taken(D, s, m)
    {
      assert NodeOk(D, s, m);
      if s.flags[m] == 1 {
        var u, k := s.runner[m].0, s.runner[m].1;
        assert s'.threads[u][k] == s.threads[u][k];
      }
    }
    KeysSame(D, s, s');
  }

  lemma FinishKeeps(D: Decls, s: State, t: nat, n: Node, found: bool)
    requires Inv(D, s) && n in D && Running(D, s, t, n, |Body(n, D[n])|, found)
    ensures Inv(D, Step(D, s, t, n)) && LessLeft(D, s, Step(D, s, t, n)) && Left(D, Step(D, s, t, n), n) < Left(D, s, n)
  {
    hide RegOk, KeysOk, Body;
    var s' := Step(D, s, t, n);
    var top := |s.threads[t]| - 1;
    BodySize(n, D[n]);
    TopTaken(D, s, t, n, |Body(n, D[n])|, found);
    assert FrameOk(D, s, t, top);
    forall u, k | 0 <= u < |s'.threads| && 0 <= k < |s'.threads[u]|
      ensures FrameOk(D, s', u, k)
    {
      assert FrameOk(D, s, u, k);
    }
    forall m | m in D
      ensures NodeOk(D, s', m) && Taken(D, s', m) == Taken(D, s, m)
    {
      assert NodeOk(D, s, m);
      if s.flags[m] == 1 && m != n {
        var u, k := s.runner[m].0, s.runner[m].1;
        assert s'.threads[u][k] == s.threads[u][k];
      }
    }
    KeysSame(D, s, s');
  }

  /** A step taken outside any init function. */
  ghost predicate Outside(s: State, t: nat) {
    && t < |s.threads|
    && (s.threads[t] == [] || !s.threads[t][|s.threads[t]| - 1].pc.At?)
    && (s.threads[t] != [] && s.threads[t][|s.threads[t]| - 1].pc.Cas? ==>
          var n := s.threads[t][|s.threads[t]| - 1].node; n in s.flags && s.flags[n] != 0)
  }

  /** A frame that stays, below the same node, is as good as before. */
  lemma SameFrame(D: Decls, s: State, s': State, u: nat, k: nat)
    requires u < |s.threads| && u < |s'.threads| && k < |s.threads[u]| && k < |s'.threads[u]|
    requires s'.threads[u][k] == s.threads[u][k] && s'.flags == s.flags && s'.runner == s.runner
    requires k + 1 < |s.threads[u]| <==> k + 1 < |s'.threads[u]|
    requires k + 1 < |s.threads[u]| ==> s'.threads[u][k + 1].node == s.threads[u][k + 1].node
    requires FrameOk(D, s, u, k)
    ensures FrameOk(D, s', u, k)
  {
    hide Body;
  }

  /** A call that has returned counts for the frame below it. */
  lemma PopFrame(D: Decls, s: State, s': State, t: nat, k: nat)
    requires t < |s.threads| && t < |s'.threads| && k + 2 == |s.threads[t]|
    requires s'.threads[t] == s.threads[t][..k + 1] && s'.flags == s.flags && s'.runner == s.runner
    requires FrameOk(D, s, t, k) && FrameOk(D, s, t, k + 1) && s.threads[t][k + 1].pc.Return?
    ensures FrameOk(D, s', t, k)
  {
    hide Body;
    var n := s.threads[t][k].node;
    BodyAt(n, D[n], s.threads[t][k].pc.i - 1);
  }

  lemma OutsideFrames(D: Decls, s: State, t: nat, call: Node)
    requires Inv(D, s) && Outside(s, t)
    ensures FramesOk(D, Step(D, s, t, call))
  {
    var s' := Step(D, s, t, call);
    var top := |s.threads[t]| - 1;
    if top >= 0 { FrameIsOk(D, s, t, top); }
    assert D.Keys <= s.flags.Keys && s'.flags == s.flags && s'.runner == s.runner;
    forall u, k | 0 <= u < |s'.threads| && 0 <= k < |s'.threads[u]|
      ensures FrameOk(D, s', u, k)
    {
      if k < |s.threads[u]| {
        FrameIsOk(D, s, u, k);
        hide Body, FramesOk, NodesOk, KeysOk, RegOk, CallsDone, WellDeclared;
        if u == t && k == |s'.threads[t]| - 1 && k < top {
          PopFrame(D, s, s', t, k);
        } else if u != t || k < top {
          SameFrame(D, s, s', u, k);
        }
      }
    }
  }

  /** Waiting, returning, and idle threads calling: only frames outside an init function change. */
  lemma OutsideKeeps(D: Decls, s: State, t: nat, call: Node)
    requires Inv(D, s) && Outside(s, t)
    ensures Inv(D, Step(D, s, t, call)) && LessLeft(D, s, Step(D, s, t, call))
  {
    OutsideFrames(D, s, t, call);
    hide RegOk, KeysOk, Body, FramesOk;
    var s' := Step(D, s, t, call);
    var top := |s.threads[t]| - 1;
    if top >= 0 { assert FrameOk(D, s, t, top) by { FrameIsOk(D, s, t, top); } }
    forall m | m in D
      ensures NodeOk(D, s', m) && Taken(D, s', m) == Taken(D, s, m)
    {
      assert NodeOk(D, s, m);
      if s.flags[m] == 1 {
        var u, k := s.runner[m].0, s.runner[m].1;
        assert s'.threads[u][k] == s.threads[u][k];
      }
    }
    KeysSame(D, s, s');
  }

  lemma FrameIsOk(D: Decls, s: State, t: nat, k: nat)
    requires FramesOk(D, s) && t < |s.threads| && k < |s.threads[t]|
    ensures FrameOk(D, s, t, k)
  {
  }

  /** Whatever thread moves, and whatever it calls. */
  lemma StepKeeps(D: Decls, s: State, t: nat, call: Node)
    requires Inv(D, s) && t < |s.threads|
    ensures Inv(D, Step(D, s, t, call)) && LessLeft(D, s, Step(D, s, t, call))
    ensures s.threads[t] != [] && s.threads[t][|s.threads[t]| - 1].pc.At? ==>
              var n := s.threads[t][|s.threads[t]| - 1].node; n in D && Left(D, Step(D, s, t, call), n) < Left(D, s, n)
  {
    hide NodesOk, KeysOk, RegOk, Body;
    var st := s.threads[t];
    if st == [] || !(st[|st| - 1].pc.Cas? || st[|st| - 1].pc.At?) {
      OutsideKeeps(D, s, t, call);
    } else {
      var n := st[|st| - 1].node;
      assert FrameOk(D, s, t, |st| - 1);
      match st[|st| - 1].pc {
        case Cas => if s.flags[n] == 0 { SwapKeeps(D, s, t, n); } else { OutsideKeeps(D, s, t, call); }
        case At(i, found) =>
          if i == |Body(n, D[n])| {
            FinishKeeps(D, s, t, n, found);
          } else {
            match Body(n, D[n])[i]
            case Call(m) => CallKeeps(D, s, t, n, i, found, m);
            case Enter => EnterKeeps(D, s, t, n, i, found);
            case Lookup(g) => LookupKeeps(D, s, t, n, i, found, g);
            case Insert(g) => InsertKeeps(D, s, t, n, i, found, g);
            case Join(g, def) => JoinKeeps(D, s, t, n, i, found, g, def);
          }
      }
    }
  }

  /** A schedule names, step by step, the thread that moves and what it would call if idle. */
  function Run(D: Decls, s: State, schedule: seq<(nat, Node)>): State
    requires forall e | e in schedule :: e.0 < |s.threads|
    decreases |schedule|
  {
    if schedule == [] then s
    else Run(D, Step(D, s, schedule[0].0, schedule[0].1), schedule[1..])
  }

  lemma {:induction false} RunKeeps(D: Decls, s: State, schedule: seq<(nat, Node)>)
    requires Inv(D, s) && forall e | e in schedule :: e.0 < |s.threads|
    ensures Inv(D, Run(D, s, schedule))
    decreases |schedule|
  {
    hide Inv, Step;
    if schedule != [] {
      StepKeeps(D, s, schedule[0].0, schedule[0].1);
      RunKeeps(D, Step(D, s, schedule[0].0, schedule[0].1), schedule[1..]);
    }
  }

  // Safety of every run

  ghost predicate Reachable(D: Decls, s: State) {
    WellDeclared(D) && exists threads: nat, schedule: seq<(nat, Node)> ::
      (forall e | e in schedule :: e.0 < threads) && s == Run(D, Initial(D, threads), schedule)
  }

  lemma ReachableInv(D: Decls, s: State)
    requires Reachable(D, s)
    ensures Inv(D, s)
  {
    var threads: nat, schedule: seq<(nat, Node)> :|
      (forall e | e in schedule :: e.0 < threads) && s == Run(D, Initial(D, threads), schedule);
    InitialInv(D, threads);
    RunKeeps(D, Initial(D, threads), schedule);
  }

  /** p lists nodes each of which calls the next. */
  ghost predicate CallPath(D: Decls, p: seq<Node>) {
    |p| > 0 && (forall i | 0 <= i < |p| :: p[i] in D) && forall i | 0 <= i < |p| - 1 :: p[i + 1] in Callees(D[p[i]])
  }

  /** Along any call path the registry goes back in time: what a registered node calls, however indirectly,
      was registered before it. */
  lemma {:induction false} PathsGoBack(D: Decls, reg: seq<Node>, p: seq<Node>, i: nat) returns (j: nat)
    requires RegOk(D, reg) && CallPath(D, p) && i < |reg| && reg[i] == p[0]
    ensures j < |reg| && reg[j] == p[|p| - 1] && j + |p| - 1 <= i
    decreases |p|
  {
    if |p| == 1 {
      j := i;
    } else {
      assert CalleesBefore(D, reg, i);
      assert p[1] in Callees(D[p[0]]);
      var c :| 0 <= c < |Callees(D[p[0]])| && Callees(D[p[0]])[c] == p[1];
      var k :| 0 <= k < i && reg[..i][k] == p[1];
      assert CallPath(D, p[1..]) by {
        forall a | 0 <= a < |p[1..]| - 1 ensures p[1..][a + 1] in Callees(D[p[1..][a]]) {
          assert p[a + 2] in Callees(D[p[a + 1]]);
        }
      }
      j := PathsGoBack(D, reg, p[1..], k);
    }
  }

  /** In every run of any number of threads: no assertion of the registry fails, no key is entered twice, a node that
      is initialised or from whose call a thread returns is registered, and so is all that it calls, earlier. */
  lemma RunsAreSafe(D: Decls, s: State)
    requires Reachable(D, s)
    ensures !s.failed
    ensures forall p, q | 0 <= p < q < |s.reg| :: s.reg[p] != s.reg[q]
    ensures forall t, k | 0 <= t < |s.threads| && 0 <= k < |s.threads[t]| && s.threads[t][k].pc.Return? ::
              Done(s, s.threads[t][k].node)
    ensures forall n | n in D && Done(s, n) :: n in s.reg
    ensures forall p | 0 <= p < |s.reg| :: s.reg[p] in D && forall j | 0 <= j < |Callees(D[s.reg[p]])| ::
              Callees(D[s.reg[p]])[j] in s.reg[..p]
  {
    ReachableInv(D, s);
    forall t, k | 0 <= t < |s.threads| && 0 <= k < |s.threads[t]| && s.threads[t][k].pc.Return?
      ensures Done(s, s.threads[t][k].node)
    {
      assert FrameOk(D, s, t, k);
    }
    forall n | n in D && Done(s, n) ensures n in s.reg {
      CalleeIsKnown(D, s, n);
    }
    forall p | 0 <= p < |s.reg|
      ensures forall j | 0 <= j < |Callees(D[s.reg[p]])| :: Callees(D[s.reg[p]])[j] in s.reg[..p]
    {
      assert CalleesBefore(D, s.reg, p);
    }
  }

  /** No thread runs an init function that another thread runs, or that the same thread is already in. */
  lemma OneRunner(D: Decls, s: State, t: nat, k: nat, u: nat, l: nat)
    requires Reachable(D, s)
    requires t < |s.threads| && k < |s.threads[t]| && u < |s.threads| && l < |s.threads[u]|
    requires s.threads[t][k].pc.At? && s.threads[u][l].pc.At? && s.threads[t][k].node == s.threads[u][l].node
    ensures t == u && k == l
  {
    ReachableInv(D, s);
    assert FrameOk(D, s, t, k) && FrameOk(D, s, u, l);
  }

  /** How often along a run the flag of n goes from one value to another. */
  function Turns(D: Decls, s: State, schedule: seq<(nat, Node)>, n: Node, before: int, after: int): nat
    requires forall e | e in schedule :: e.0 < |s.threads|
    decreases |schedule|
  {
    if schedule == [] then 0
    else
      var t := Step(D, s, schedule[0].0, schedule[0].1);
      (if Flag(s, n) == before && Flag(t, n) == after then 1 else 0) + Turns(D, t, schedule[1..], n, before, after)
  }

  function Flag(s: State, n: Node): int { if n in s.flags then s.flags[n] else 0 }

  /** A step leaves a flag alone, or starts its init function, or ends it. */
  lemma FlagTurns(D: Decls, s: State, t: nat, call: Node, n: Node)
    requires Inv(D, s) && t < |s.threads|
    ensures var was, now := Flag(s, n), Flag(Step(D, s, t, call), n);
            now == was || (was == 0 && now == 1) || (was == 1 && now == 2)
  {
    if s.threads[t] != [] {
      FrameIsOk(D, s, t, |s.threads[t]| - 1);
    }
    hide Body, NodesOk, KeysOk, FramesOk, RegOk;
  }

  lemma {:induction false} TurnsCount(D: Decls, s: State, schedule: seq<(nat, Node)>, n: Node)
    requires Inv(D, s) && Flag(s, n) in {0, 1, 2} && forall e | e in schedule :: e.0 < |s.threads|
    ensures var r := Run(D, s, schedule);
            && Flag(r, n) in {0, 1, 2} && Flag(s, n) <= Flag(r, n)
            && Turns(D, s, schedule, n, 0, 1) == (if Flag(s, n) == 0 && Flag(r, n) != 0 then 1 else 0)
            && Turns(D, s, schedule, n, 1, 2) == (if Flag(s, n) != 2 && Flag(r, n) == 2 then 1 else 0)
    decreases |schedule|
  {
    hide Inv, Step;
    if schedule != [] {
      FlagTurns(D, s, schedule[0].0, schedule[0].1, n);
      StepKeeps(D, s, schedule[0].0, schedule[0].1);
      TurnsCount(D, Step(D, s, schedule[0].0, schedule[0].1), schedule[1..], n);
    }
  }

  /** Along every run of any number of threads the init function of a node, pass or group, is started once at most and ended
      once at most: exactly once each if the node is initialised. */
  lemma RunsOnce(D: Decls, threads: nat, schedule: seq<(nat, Node)>, n: Node)
    requires WellDeclared(D) && forall e | e in schedule :: e.0 < threads
    ensures var s, r := Initial(D, threads), Run(D, Initial(D, threads), schedule);
            && Turns(D, s, schedule, n, 0, 1) <= 1 && Turns(D, s, schedule, n, 1, 2) <= 1
            && (Done(r, n) <==> Turns(D, s, schedule, n, 1, 2) == 1)
            && (Done(r, n) ==> Turns(D, s, schedule, n, 0, 1) == 1)
  {
    InitialInv(D, threads);
    TurnsCount(D, Initial(D, threads), schedule, n);
  }

  /** A node that calls itself, however indirectly, is never initialised, so no call of it ever returns. */
  lemma CyclesNeverReturn(D: Decls, s: State, p: seq<Node>)
    requires Reachable(D, s) && CallPath(D, p) && |p| > 1 && p[0] == p[|p| - 1]
    ensures !Done(s, p[0])
  {
    ReachableInv(D, s);
    if Done(s, p[0]) {
      CalleeIsKnown(D, s, p[0]);
      var i :| 0 <= i < |s.reg| && s.reg[i] == p[0];
      var j := PathsGoBack(D, s.reg, p, i);
      assert false;
    }
  }

  // Progress

  /** Calls go down in rank: there is no call cycle. */
  ghost predicate Ranked(D: Decls, rank: map<Node, nat>) {
    D.Keys <= rank.Keys && forall n, j | n in D && 0 <= j < |Callees(D[n])| && Callees(D[n])[j] in D ::
      rank[Callees(D[n])[j]] < rank[n]
  }

  /** Stepping the busy thread t does something. */
  predicate CanMove(D: Decls, s: State, t: nat) {
    t < |s.threads| && s.threads[t] != [] && Step(D, s, t, 0) != s
  }

  lemma Moves(D: Decls, s: State, t: nat)
    requires Inv(D, s) && t < |s.threads| && s.threads[t] != []
    requires var f := s.threads[t][|s.threads[t]| - 1]; f.pc.Spin? ==> f.node in s.flags && s.flags[f.node] == 2
    ensures CanMove(D, s, t)
  {
    var st := s.threads[t];
    var f := st[|st| - 1];
    FrameIsOk(D, s, t, |st| - 1);
    hide NodesOk, KeysOk, RegOk, FramesOk, WellDeclared, CallsDone, Body;
    var s' := Step(D, s, t, 0);
    if f.pc.Return? {
      assert |s'.threads[t]| < |st|;
    } else if f.pc.At? && f.pc.i < |Body(f.node, D[f.node])| && Body(f.node, D[f.node])[f.pc.i].Call? {
      assert |s'.threads[t]| == |st| + 1;
    } else {
      assert s'.threads[t][|st| - 1].pc != f.pc;
    }
  }

  /** A thread that cannot move waits for a node that is being initialised. */
  lemma StuckWaits(D: Decls, s: State, t: nat)
    requires Inv(D, s) && t < |s.threads| && s.threads[t] != [] && !CanMove(D, s, t)
    ensures var f := s.threads[t][|s.threads[t]| - 1]; f.pc.Spin? && f.node in D && f.node in s.flags && s.flags[f.node] == 1
  {
    var f := s.threads[t][|s.threads[t]| - 1];
    assert FrameOk(D, s, t, |s.threads[t]| - 1) && NodeOk(D, s, f.node);
    if !f.pc.Spin? || s.flags[f.node] == 2 { Moves(D, s, t); }
  }

  /** Deeper frames of one thread have lower rank. */
  lemma {:induction false} StackDescends(D: Decls, s: State, rank: map<Node, nat>, t: nat, k: nat, l: nat)
    requires FramesOk(D, s) && WellDeclared(D) && Ranked(D, rank) && t < |s.threads| && k <= l < |s.threads[t]|
    ensures s.threads[t][k].node in D && s.threads[t][l].node in D
    ensures k < l ==> rank[s.threads[t][l].node] < rank[s.threads[t][k].node]
    decreases l - k
  {
    assert FrameOk(D, s, t, k) && FrameOk(D, s, t, l);
    if k < l {
      var n := s.threads[t][k].node;
      var i := s.threads[t][k].pc.i - 1;
      BodyAt(n, D[n], i);
      assert DeclOk(D, n) && Callees(D[n])[i] == s.threads[t][k + 1].node;
      StackDescends(D, s, rank, t, k + 1, l);
    }
  }

  /** No deadlock: if some thread is busy, some thread can move. From a waiting thread go to the runner of what it
      waits for; its top frame is of lower rank. */
  lemma {:induction false} SomeThreadMoves(D: Decls, s: State, rank: map<Node, nat>, t: nat) returns (u: nat)
    requires Inv(D, s) && Ranked(D, rank) && t < |s.threads| && s.threads[t] != []
    ensures CanMove(D, s, u)
    decreases if s.threads[t][|s.threads[t]| - 1].node in rank then rank[s.threads[t][|s.threads[t]| - 1].node] else 0
  {
    if CanMove(D, s, t) {
      u := t;
    } else {
      StuckWaits(D, s, t);
      var n := s.threads[t][|s.threads[t]| - 1].node;
      assert NodeOk(D, s, n);
      var (v, k) := s.runner[n];
      var top := |s.threads[v]| - 1;
      if k == top {
        u := v;
        if !CanMove(D, s, v) { StuckWaits(D, s, v); }
      } else {
        StackDescends(D, s, rank, v, k, top);
        u := SomeThreadMoves(D, s, rank, v);
      }
    }
  }

  // Every call returns

  function Weight(pc: PC): nat { match pc case Cas => 3 case At(_, _) => 2 case Spin => 2 case Return => 1 }

  function StackWeight(st: seq<Frame>): nat {
    if st == [] then 0 else StackWeight(st[..|st| - 1]) + Weight(st[|st| - 1].pc)
  }

  function ThreadsWeight(threads: seq<seq<Frame>>): nat {
    if threads == [] then 0 else StackWeight(threads[0]) + ThreadsWeight(threads[1..])
  }

  function WorkLeft(D: Decls, s: State, nodes: seq<Node>): int
    requires forall n | n in nodes :: n in D
  {
    if nodes == [] then 0 else Left(D, s, nodes[0]) + WorkLeft(D, s, nodes[1..])
  }

  lemma {:induction false} ThreadsWeightUpdate(threads: seq<seq<Frame>>, t: nat, st: seq<Frame>)
    requires t < |threads|
    ensures ThreadsWeight(threads[t := st]) == ThreadsWeight(threads) - StackWeight(threads[t]) + StackWeight(st)
  {
    if t == 0 {
      assert threads[t := st][1..] == threads[1..];
    } else {
      assert threads[t := st][1..] == threads[1..][t - 1 := st];
      ThreadsWeightUpdate(threads[1..], t - 1, st);
    }
  }

  lemma {:induction false} WorkShrinks(D: Decls, s: State, s': State, nodes: seq<Node>, n: Node)
    requires (forall m | m in nodes :: m in D) && LessLeft(D, s, s')
    ensures WorkLeft(D, s', nodes) <= WorkLeft(D, s, nodes)
    ensures n in nodes && Left(D, s', n) < Left(D, s, n) ==> WorkLeft(D, s', nodes) < WorkLeft(D, s, nodes)
  {
    if nodes != [] { WorkShrinks(D, s, s', nodes[1..], n); }
  }

  lemma {:induction false} WorkIsNatural(D: Decls, s: State, nodes: seq<Node>)
    requires (forall m | m in nodes :: m in D) && Inv(D, s)
    ensures WorkLeft(D, s, nodes) >= 0
  {
    if nodes != [] {
      var n := nodes[0];
      assert NodeOk(D, s, n);
      if s.flags[n] == 1 {
        assert FrameOk(D, s, s.runner[n].0, s.runner[n].1);
      }
      WorkIsNatural(D, s, nodes[1..]);
    }
  }

  ghost predicate Lists(D: Decls, nodes: seq<Node>) { (forall n | n in nodes :: n in D) && forall n | n in D :: n in nodes }

  /** Bounds the moves that can still be made when no idle thread makes a new call. */
  function Potential(D: Decls, s: State, nodes: seq<Node>): int
    requires forall n | n in nodes :: n in D
  {
    4 * WorkLeft(D, s, nodes) + ThreadsWeight(s.threads)
  }

  lemma StackTop(st: seq<Frame>, f: Frame)
    requires st != []
    ensures StackWeight(st[|st| - 1 := f]) == StackWeight(st) - Weight(st[|st| - 1].pc) + Weight(f.pc)
  {
    assert st[|st| - 1 := f][..|st| - 1] == st[..|st| - 1];
  }

  lemma StackPush(st: seq<Frame>, f: Frame)
    ensures StackWeight(st + [f]) == StackWeight(st) + Weight(f.pc)
  {
    assert (st + [f])[..|st|] == st;
  }

  lemma StackAfter(st: seq<Frame>, st': seq<Frame>, pc: PC)
    requires st != [] && |st'| >= |st| && st'[..|st|] == st[|st| - 1 := st[|st| - 1].(pc := pc)]
    requires |st'| == |st| || (|st'| == |st| + 1 && st'[|st|].pc == Cas)
    ensures StackWeight(st') == StackWeight(st) - Weight(st[|st| - 1].pc) + Weight(pc) + (if |st'| == |st| then 0 else 3)
  {
    StackTop(st, st[|st| - 1].(pc := pc));
    if |st'| > |st| {
      StackPush(st'[..|st|], st'[|st|]);
      assert st' == st'[..|st|] + [st'[|st|]];
    } else {
      assert st' == st'[..|st|];
    }
  }

  /** What a move does to the stack of the thread that makes it. */
  lemma StepStack(D: Decls, s: State, t: nat, call: Node)
    requires Inv(D, s) && CanMove(D, s, t)
    ensures var s' := Step(D, s, t, call); var pc := s.threads[t][|s.threads[t]| - 1].pc;
            && s'.threads == s.threads[t := s'.threads[t]]
            && StackWeight(s'.threads[t]) < StackWeight(s.threads[t]) + (if pc.At? then 4 else 0)
  {
    hide NodesOk, KeysOk, RegOk, Body, StackWeight;
    var st := s.threads[t];
    assert FrameOk(D, s, t, |st| - 1);
    var st' := Step(D, s, t, call).threads[t];
    if st[|st| - 1].pc.Return? {
      StackPush(st[..|st| - 1], st[|st| - 1]);
      assert st == st[..|st| - 1] + [st[|st| - 1]];
    } else {
      StackAfter(st, st', st'[|st| - 1].pc);
    }
  }

  lemma MoveCosts(D: Decls, s: State, t: nat, call: Node, nodes: seq<Node>)
    requires Inv(D, s) && CanMove(D, s, t) && Lists(D, nodes)
    ensures Potential(D, Step(D, s, t, call), nodes) < Potential(D, s, nodes)
  {
    hide Inv, Step, Left;
    StepKeeps(D, s, t, call);
    StepStack(D, s, t, call);
    var s' := Step(D, s, t, call);
    var n := s.threads[t][|s.threads[t]| - 1].node;
    ThreadsWeightUpdate(s.threads, t, s'.threads[t]);
    WorkShrinks(D, s, s', nodes, n);
  }

  predicate Idle(s: State) { forall t | 0 <= t < |s.threads| :: s.threads[t] == [] }

  /** Threads move only when busy and not waiting. */
  ghost predicate AllMoves(D: Decls, s: State, schedule: seq<(nat, Node)>)
    requires forall e | e in schedule :: e.0 < |s.threads|
    decreases |schedule|
  {
    schedule != [] ==> CanMove(D, s, schedule[0].0) && AllMoves(D, Step(D, s, schedule[0].0, schedule[0].1), schedule[1..])
  }

  /** However threads are scheduled, only so many moves can be made. */
  lemma {:induction false} MovesAreBounded(D: Decls, s: State, schedule: seq<(nat, Node)>, nodes: seq<Node>)
    requires Inv(D, s) && Lists(D, nodes) && (forall e | e in schedule :: e.0 < |s.threads|) && AllMoves(D, s, schedule)
    ensures |schedule| <= Potential(D, s, nodes)
    decreases |schedule|
  {
    hide Inv, Step;
    WorkIsNatural(D, s, nodes);
    if schedule != [] {
      var (t, call) := schedule[0];
      MoveCosts(D, s, t, call, nodes);
      StepKeeps(D, s, t, call);
      MovesAreBounded(D, Step(D, s, t, call), schedule[1..], nodes);
    }
  }

  /** When calls go down in rank and nothing can move any more, every call has returned. */
  lemma RestIsIdle(D: Decls, s: State, rank: map<Node, nat>)
    requires Inv(D, s) && Ranked(D, rank) && forall t :: !CanMove(D, s, t)
    ensures Idle(s)
  {
    forall t | 0 <= t < |s.threads| ensures s.threads[t] == [] {
      if s.threads[t] != [] { var u := SomeThreadMoves(D, s, rank, t); }
    }
  }

  /** n is initialised, or some thread is in a call of it. */
  ghost predicate Served(s: State, n: Node) {
    Done(s, n) || exists t, k :: 0 <= t < |s.threads| && 0 <= k < |s.threads[t]| && s.threads[t][k].node == n
  }

  lemma StepServes(D: Decls, s: State, t: nat, call: Node, n: Node)
    requires Inv(D, s) && t < |s.threads| && Served(s, n)
    ensures Served(Step(D, s, t, call), n)
  {
    hide NodesOk, KeysOk, RegOk, Body;
    var s' := Step(D, s, t, call);
    if !Done(s, n) {
      var u, k :| 0 <= u < |s.threads| && 0 <= k < |s.threads[u]| && s.threads[u][k].node == n;
      assert FrameOk(D, s, u, k);
      if u != t || k < |s'.threads[t]| {
        assert s'.threads[u][k].node == n;
      }
    }
  }

  /** From any state of an acyclic system, the busy threads alone can finish every call. */
  lemma {:induction false} Settle(D: Decls, s: State, rank: map<Node, nat>, nodes: seq<Node>, served: set<Node>)
      returns (schedule: seq<(nat, Node)>)
    requires Inv(D, s) && Ranked(D, rank) && Lists(D, nodes) && forall n | n in served :: Served(s, n)
    ensures forall e | e in schedule :: e.0 < |s.threads|
    ensures var r := Run(D, s, schedule); Inv(D, r) && |r.threads| == |s.threads| && Idle(r) && forall n | n in served :: Done(r, n)
    decreases Potential(D, s, nodes)
  {
    hide Inv, Step, Ranked;
    if t :| 0 <= t < |s.threads| && s.threads[t] != [] {
      var u := SomeThreadMoves(D, s, rank, t);
      WorkIsNatural(D, s, nodes);
      MoveCosts(D, s, u, 0, nodes);
      StepKeeps(D, s, u, 0);
      forall n | n in served ensures Served(Step(D, s, u, 0), n) { StepServes(D, s, u, 0, n); }
      var rest := Settle(D, Step(D, s, u, 0), rank, nodes, served);
      schedule := [(u, 0)] + rest;
      assert schedule[1..] == rest;
    } else {
      schedule := [];
    }
  }

  lemma {:induction false} RunAdds(D: Decls, s: State, a: seq<(nat, Node)>, b: seq<(nat, Node)>)
    requires (forall e | e in a :: e.0 < |s.threads|) && (forall e | e in b :: e.0 < |s.threads|)
    requires |Run(D, s, a).threads| == |s.threads|
    ensures Run(D, s, a + b) == Run(D, Run(D, s, a), b)
    decreases |a|
  {
    hide Step;
    if a == [] {
      assert a + b == b;
    } else {
      assert (a + b)[1..] == a[1..] + b && (a + b)[0] == a[0];
      RunAdds(D, Step(D, s, a[0].0, a[0].1), a[1..], b);
    }
  }

  /** A single thread that calls the listed nodes one after the other initialises them all. */
  lemma {:induction false} InitialiseAll(D: Decls, s: State, rank: map<Node, nat>, nodes: seq<Node>, todo: seq<Node>, done: set<Node>)
      returns (schedule: seq<(nat, Node)>)
    requires Inv(D, s) && Ranked(D, rank) && Lists(D, nodes) && |s.threads| == 1 && Idle(s)
    requires (forall n | n in todo :: n in D) && forall n | n in done :: Done(s, n)
    ensures forall e | e in schedule :: e.0 < 1
    ensures var r := Run(D, s, schedule); Inv(D, r) && |r.threads| == 1 && forall n | n in done || n in todo :: Done(r, n)
    decreases |todo|
  {
    if todo == [] {
      schedule := [];
    } else {
      var n := todo[0];
      StepKeeps(D, s, 0, n);
      var s1 := Step(D, s, 0, n);
      assert s1.threads[0][0].node == n;
      hide Inv, Step, Ranked;
      var a := Settle(D, s1, rank, nodes, done + {n});
      var s2 := Run(D, s1, a);
      var b := InitialiseAll(D, s2, rank, nodes, todo[1..], done + {n});
      RunAdds(D, s1, a, b);
      schedule := [(0, n)] + (a + b);
      assert schedule[1..] == a + b;
    }
  }

  lemma {:induction false} Enumerate(ns: set<Node>) returns (nodes: seq<Node>)
    ensures forall n :: n in nodes <==> n in ns
  {
    nodes := [];
    if ns != {} {
      var n :| n in ns;
      nodes := Enumerate(ns - {n});
      nodes := [n] + nodes;
    }
  }

  function Position(reg: seq<Node>, n: Node): nat
    requires n in reg
    ensures Position(reg, n) < |reg| && reg[Position(reg, n)] == n
  {
    if reg[0] == n then 0 else 1 + Position(reg[1..], n)
  }

  /** The protocol can initialise everything exactly when calls contain no cycle. */
  lemma AllInitialisedIffAcyclic(D: Decls)
    requires WellDeclared(D)
    ensures (exists s :: Reachable(D, s) && forall n | n in D :: Done(s, n)) <==> (exists rank :: Ranked(D, rank))
  {
    if s :| Reachable(D, s) && forall n | n in D :: Done(s, n) {
      var rank := RankOf(D, s);
      assert Ranked(D, rank);
    }
    if rank :| Ranked(D, rank) {
      var s := FullRun(D, rank);
      assert Reachable(D, s);
    }
  }

  lemma RankOf(D: Decls, s: State) returns (rank: map<Node, nat>)
    requires Reachable(D, s) && forall n | n in D :: Done(s, n)
    ensures Ranked(D, rank)
  {
    RunsAreSafe(D, s);
    rank := map n | n in D :: Position(s.reg, n);
    forall n, j | n in D && 0 <= j < |Callees(D[n])| && Callees(D[n])[j] in D
      ensures rank[Callees(D[n])[j]] < rank[n]
    {
      var m := Callees(D[n])[j];
      assert s.reg[rank[n]] == n && m in s.reg[..rank[n]];
      var q :| 0 <= q < rank[n] && s.reg[q] == m;
      assert s.reg[rank[m]] == m;
      if rank[m] != q { assert s.reg[q] != s.reg[rank[m]]; }
    }
  }

  lemma FullRun(D: Decls, rank: map<Node, nat>) returns (s: State)
    requires WellDeclared(D) && Ranked(D, rank)
    ensures Reachable(D, s) && forall n | n in D :: Done(s, n)
  {
    var nodes := Enumerate(D.Keys);
    InitialInv(D, 1);
    var schedule := InitialiseAll(D, Initial(D, 1), rank, nodes, nodes, {});
    s := Run(D, Initial(D, 1), schedule);
  }

  // The guard of the group macros

  function Alone(D: Decls, s: State, call: Node, steps: nat): State
    requires |s.threads| == 1
    decreases steps
  {
    if steps == 0 then s else Alone(D, Step(D, s, 0, call), call, steps - 1)
  }

  /** Without `if (!def)` a default pass would call its group, which calls it: a thread that calls the group
      gets stuck, for good, on its own flag. */
  lemma UnguardedDefaultDeadlocks(D: Decls, g: Node, d: Node, deps: seq<Node>, more: nat)
    requires g in D && D[g] == AnalysisGroup(d) && d in D && D[d] == GroupPass(g, false, deps)
    ensures Alone(D, Initial(D, 1), g, 6 + more).threads == [[Frame(g, At(1, false)), Frame(d, At(1, false)), Frame(g, Spin)]]
  {
    var s0 := Initial(D, 1);
    var s1 := Step(D, s0, 0, g);
    var s2 := Step(D, s1, 0, g);
    assert Body(g, D[g])[0] == Call(d);
    var s3 := Step(D, s2, 0, g);
    var s4 := Step(D, s3, 0, g);
    assert Callees(D[d])[0] == g && Body(d, D[d])[0] == Call(g);
    var s5 := Step(D, s4, 0, g);
    var s6 := Step(D, s5, 0, g);
    assert s6.threads[0] == [Frame(g, At(1, false)), Frame(d, At(1, false)), Frame(g, Spin)];
    StaysStuck(D, s6, g, more);
    SixSteps(D, s0, g, more);
  }

  lemma SixSteps(D: Decls, s: State, g: Node, more: nat)
    requires |s.threads| == 1
    ensures Alone(D, s, g, 6 + more)
         == Alone(D, Step(D, Step(D, Step(D, Step(D, Step(D, Step(D, s, 0, g), 0, g), 0, g), 0, g), 0, g), 0, g), g, more)
  {
    hide Step;
    var s1 := Step(D, s, 0, g);
    var s2 := Step(D, s1, 0, g);
    var s3 := Step(D, s2, 0, g);
    var s4 := Step(D, s3, 0, g);
    assert Alone(D, s1, g, 5 + more) == Alone(D, s2, g, 4 + more) == Alone(D, s3, g, 3 + more) == Alone(D, s4, g, 2 + more);
  }

  lemma {:induction false} StaysStuck(D: Decls, s: State, call: Node, more: nat)
    requires |s.threads| == 1 && s.threads[0] != [] && s.threads[0][|s.threads[0]| - 1].pc.Spin?
    requires var n := s.threads[0][|s.threads[0]| - 1].node; n in D && n in s.flags && s.flags[n] == 1
    ensures Alone(D, s, call, more) == s
  {
    if more > 0 { StaysStuck(D, s, call, more - 1); }
  }
}
