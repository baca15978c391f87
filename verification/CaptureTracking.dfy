/** Whether a copy of a pointer may outlive the function that holds it: the walk over the uses of the pointer and of
    everything that is a copy of it. */
module CaptureTracking {
  import opened Graphs
  import opened Reachability
  import opened Wrappers

  const THRESHOLD := 20

  /** Kinds of instruction the walk tells apart. The arguments of a call or invoke are its first operands; `Copy` stands
      for bitcast, getelementptr, phi, select and addrspacecast; `ICmp` says whether its right operand is the null
      pointer of address space 0. */
  datatype Opcode =
    | Call(onlyReads: bool, doesNotThrow: bool, isVoid: bool, arguments: nat, noCapture: set<nat>)
    | Load
    | VAArg
    | Store
    | Copy
    | ICmp(againstNull: bool)
    | Return
    | Other

  /** An instruction and its place; the value it computes is named by its number. */
  datatype Instruction = Instruction(op: Opcode, operands: seq<nat>, block: nat, index: nat)

  /** One operand of one instruction. */
  datatype Use = Use(user: nat, operand: nat)

  datatype Code = Code(g: Graph, sizes: seq<nat>, instructions: seq<Instruction>, uses: map<nat, seq<Use>>, noAlias: set<nat>)

  function UsesOf(c: Code, v: nat): seq<Use> { if v in c.uses then c.uses[v] else [] }

  predicate IsUse(c: Code, u: Use) {
    u.user < |c.instructions| && u.operand < |c.instructions[u.user].operands|
  }

  function Used(c: Code, u: Use): nat
    requires IsUse(c, u)
  {
    c.instructions[u.user].operands[u.operand]
  }

  /** The use lists are those of the operands, instructions sit in their blocks, and the entry has no predecessors. */
  ghost predicate CodeOk(c: Code) {
    && IsGraph(c.g) && |c.sizes| == |c.g| && (forall x: nat :: !Edge(c.g, x, 0))
    && (forall v, u | u in UsesOf(c, v) :: IsUse(c, u) && Used(c, u) == v)
    && (forall i | 0 <= i < |c.instructions| :: InstructionOk(c, c.instructions[i]))
  }

  predicate InstructionOk(c: Code, i: Instruction) {
    && i.block < |c.g| && i.block < |c.sizes| && i.index < c.sizes[i.block]
    && (i.op.Call? ==> i.op.arguments <= |i.operands|) && (i.op.Store? ==> |i.operands| > 0)
  }

  /** What is asked: whether returning the pointer counts, and, if only captures before one instruction count, which one,
      whether a capture by itself counts, and the dominator tree. */
  datatype Before = Before(here: nat, includeHere: bool, dt: DomTree)
  datatype Question = Question(returnCaptures: bool, before: Option<Before>)

  ghost predicate QuestionOk(c: Code, q: Question) {
    q.before.Some? ==> q.before.value.here < |c.instructions| && DomOk(c.g, q.before.value.dt)
  }

  predicate IsCopy(c: Code, u: Use)
    requires IsUse(c, u)
  {
    c.instructions[u.user].op.Copy?
  }

  /** The use lets a copy of the used pointer escape. */
  predicate Captures(c: Code, u: Use)
    requires IsUse(c, u)
  {
    var i := c.instructions[u.user];
    match i.op
    case Call(onlyReads, doesNotThrow, isVoid, arguments, noCapture) =>
      !(onlyReads && doesNotThrow && isVoid) && exists k: nat :: k < arguments && PassedAt(i, Used(c, u), k)
    case Store => i.operands[0] == Used(c, u)
    case ICmp(againstNull) => !(againstNull && Used(c, u) in c.noAlias)
    case Return => true
    case Other => true
    case _ => false
  }

  predicate PassedAt(i: Instruction, v: nat, k: nat)
    requires i.op.Call?
  {
    k < |i.operands| && i.operands[k] == v && k !in i.op.noCapture
  }

  predicate Leaks(c: Code, q: Question, u: Use) {
    IsUse(c, u) && Captures(c, u) && (c.instructions[u.user].op.Return? ==> q.returnCaptures)
  }

  /** Instruction j can run after instruction i. */
  ghost predicate Then(c: Code, i: nat, j: nat) {
    i < |c.instructions| && j < |c.instructions| &&
    InstrReaches(c.g, c.instructions[i].block, c.instructions[i].index, c.instructions[j].block, c.instructions[j].index)
  }

  /** The use counts: it can run, and the instruction asked about can run after it. */
  ghost predicate Matters(c: Code, q: Question, u: Use) {
    && IsUse(c, u)
    && (q.before.Some? ==>
          if u.user == q.before.value.here then q.before.value.includeHere
          else Reaches(c.g, 0, c.instructions[u.user].block) && Then(c, u.user, q.before.value.here))
  }

  /** The tree does not put the use after the instruction asked about for good: it can run, and unless the instruction comes
      before it on every path, the instruction can run after it as far as a search of limited length tells. */
  ghost predicate MayMatter(c: Code, q: Question, u: Use) {
    && IsUse(c, u)
    && (q.before.Some? ==>
          var b := q.before.value;
          if u.user == b.here then b.includeHere
          else c.instructions[u.user].block in b.dt.reachable && (ComesFirst(c, b, u.user) ==> Then(c, u.user, b.here) || Wide(c, u.user, b.here)))
  }

  /** By the tree the instruction asked about comes before instruction i on every path. */
  predicate ComesFirst(c: Code, b: Before, i: nat)
    requires i < |c.instructions|
  {
    b.here < |c.instructions| &&
    var at, here := c.instructions[i], c.instructions[b.here];
    if here.block == at.block then here.index < at.index else (here.block, at.block) in b.dt.dominates
  }

  /** After instruction i there are too many blocks to search for instruction j. */
  ghost predicate Wide(c: Code, i: nat, j: nat)
    requires i < |c.instructions|
  {
    j < |c.instructions| && c.instructions[i].block < |c.g| &&
    Many(c.g, if c.instructions[i].block == c.instructions[j].block then c.g[c.instructions[i].block] else [c.instructions[i].block])
  }

  /** A pointer handed on: every use but the last copies what the next one uses. */
  ghost predicate IsChain(c: Code, v: nat, chain: seq<Use>) {
    && |chain| > 0 && chain[0] in UsesOf(c, v) && (forall i | 0 <= i < |chain| :: IsUse(c, chain[i]))
    && forall i | 0 <= i < |chain| - 1 :: HandsOn(c, chain[i], chain[i + 1])
  }

  predicate HandsOn(c: Code, u: Use, w: Use) {
    IsUse(c, u) && IsCopy(c, u) && w in UsesOf(c, u.user)
  }

  ghost predicate MattersChain(c: Code, q: Question, v: nat, chain: seq<Use>) {
    IsChain(c, v, chain) && forall i | 0 <= i < |chain| :: Matters(c, q, chain[i])
  }

  /** A chain of uses that count ends in a leak. */
  ghost predicate Leaky(c: Code, q: Question, v: nat) {
    exists chain :: MattersChain(c, q, v, chain) && Leaks(c, q, chain[|chain| - 1])
  }

  /** The pointer, or a copy of it that counts, has more uses than the walk looks at. */
  ghost predicate Crowded(c: Code, q: Question, v: nat) {
    |UsesOf(c, v)| > 20
    || exists chain :: MattersChain(c, q, v, chain) && CrowdedAfter(c, chain[|chain| - 1])
  }

  ghost predicate MayChain(c: Code, q: Question, v: nat, chain: seq<Use>) {
    IsChain(c, v, chain) && forall i | 0 <= i < |chain| :: MayMatter(c, q, chain[i])
  }

  ghost predicate MayLeak(c: Code, q: Question, v: nat) {
    exists chain :: MayChain(c, q, v, chain) && Leaks(c, q, chain[|chain| - 1])
  }

  ghost predicate MayCrowd(c: Code, q: Question, v: nat) {
    |UsesOf(c, v)| > 20
    || exists chain :: MayChain(c, q, v, chain) && CrowdedAfter(c, chain[|chain| - 1])
  }

  /** Where no instruction is named every use matters. */
  lemma AllMatter(c: Code, q: Question, v: nat)
    requires q.before.None?
    ensures MayLeak(c, q, v) <==> Leaky(c, q, v)
    ensures MayCrowd(c, q, v) <==> Crowded(c, q, v)
  {
    forall chain ensures MayChain(c, q, v, chain) <==> MattersChain(c, q, v, chain) {}
    hide MayChain, MattersChain;
  }

  predicate CrowdedAfter(c: Code, u: Use) {
    IsUse(c, u) && IsCopy(c, u) && |UsesOf(c, u.user)| > 20
  }

  ghost function AllUses(c: Code): set<Use> {
    set i: nat, k: nat | 0 <= i < |c.instructions| && 0 <= k < |c.instructions[i].operands| :: Use(i, k)
  }

  /** SimpleCaptureTracker, and CapturesBefore when the question names an instruction. */
  class CaptureTracker {
    const q: Question
    var captured: bool

    constructor (q: Question)
      ensures this.q == q && !captured
    {
      this.q := q;
      captured := false;
    }

    method TooManyUses()
      modifies this
      ensures captured
    {
      captured := true;
    }

    /** A use that counts is explored. */
    method ShouldExplore(c: Code, u: Use) returns (explore: bool)
      requires CodeOk(c) && QuestionOk(c, q) && IsUse(c, u)
      ensures Matters(c, q, u) ==> explore
      ensures explore ==> MayMatter(c, q, u)
    {
      if q.before.None? {
        return true;
      }
      var b := q.before.value;
      if b.here == u.user {
        return b.includeHere;
      }
      var i, here := c.instructions[u.user], c.instructions[b.here];
      if i.block !in b.dt.reachable {
        return false;
      }
      if (if here.block == i.block then here.index < i.index else (here.block, i.block) in b.dt.dominates) {
        explore := IsInstructionPotentiallyReachable(c.g, i.block, i.index, here.block, here.index, c.sizes[i.block],
                                                     Some(b.dt), None);
        if i.block == 0 && here.block != 0 { EntryFirst(c, b.dt, here.block); }
        return;
      }
      return true;
    }

    /** Told of a capturing use: true stops the walk. */
    method OnCapture(c: Code, u: Use) returns (stop: bool)
      requires CodeOk(c) && QuestionOk(c, q) && IsUse(c, u) && Captures(c, u)
      modifies this
      ensures captured == (old(captured) || stop)
      ensures Leaks(c, q, u) && Matters(c, q, u) ==> stop
      ensures stop ==> Leaks(c, q, u) && MayMatter(c, q, u)
    {
      if c.instructions[u.user].op.Return? && !q.returnCaptures {
        return false;
      }
      stop := ShouldExplore(c, u);
      captured := captured || stop;
    }
  }

  /** No other block comes before the entry. */
  lemma EntryFirst(c: Code, dt: DomTree, b: nat)
    requires IsGraph(c.g) && DomOk(c.g, dt) && b != 0
    ensures (b, 0) !in dt.dominates
  {
    assert PathFromTo(c.g, [0], 0, 0);
  }

  /** The state of the walk. Every use of the pointer that counts, and every use that counts of a copy already looked at,
      is looked at or waiting; none looked at leaks or is crowded. */
  ghost predicate Walking(c: Code, q: Question, v: nat, visited: set<Use>, worklist: seq<Use>, done: set<Use>) {
    Searching(c, q, v, visited, worklist, done) && AllChained(c, q, v, worklist, done)
  }

  ghost predicate Searching(c: Code, q: Question, v: nat, visited: set<Use>, worklist: seq<Use>, done: set<Use>) {
    && (forall u | u in visited || u in worklist || u in done :: IsUse(c, u))
    && (forall u | u in UsesOf(c, v) && Matters(c, q, u) :: u in worklist || u in done)
    && (forall u | u in visited && Matters(c, q, u) :: u in worklist || u in done)
    && (forall u | u in worklist || u in done :: u in visited)
    && (forall u | u in done && Matters(c, q, u) :: !Leaks(c, q, u) && !CrowdedAfter(c, u))
    && (forall u, w | u in done && HandsOn(c, u, w) :: w in visited)
  }

  ghost predicate AllChained(c: Code, q: Question, v: nat, worklist: seq<Use>, done: set<Use>) {
    forall u | u in worklist || u in done :: Chained(c, q, v, u)
  }

  /** The use ends a chain from v. */
  ghost predicate Chained(c: Code, q: Question, v: nat, u: Use) {
    exists chain :: MayChain(c, q, v, chain) && chain[|chain| - 1] == u
  }

  lemma ChainStarts(c: Code, q: Question, v: nat, u: Use)
    requires CodeOk(c) && QuestionOk(c, q) && u in UsesOf(c, v) && MayMatter(c, q, u)
    ensures Chained(c, q, v, u)
  {
    assert MayChain(c, q, v, [u]);
  }

  lemma ChainGrows(c: Code, q: Question, v: nat, u: Use, w: Use)
    requires CodeOk(c) && QuestionOk(c, q) && Chained(c, q, v, u)
    requires IsUse(c, u) && HandsOn(c, u, w) && MayMatter(c, q, w)
    ensures Chained(c, q, v, w)
  {
    var chain :| MayChain(c, q, v, chain) && chain[|chain| - 1] == u;
    var longer := chain + [w];
    assert MayChain(c, q, v, longer) by {
      forall i | 0 <= i < |longer| - 1 ensures HandsOn(c, longer[i], longer[i + 1]) {
        if i < |chain| - 1 { assert HandsOn(c, chain[i], chain[i + 1]); }
      }
    }
    assert longer[|longer| - 1] == w;
  }

  /** When nothing waits, every use on a chain of uses that count has been looked at. */
  lemma {:induction false} ChainIsDone(c: Code, q: Question, v: nat, visited: set<Use>, done: set<Use>, chain: seq<Use>)
    requires CodeOk(c) && QuestionOk(c, q) && Walking(c, q, v, visited, [], done) && MattersChain(c, q, v, chain)
    ensures chain[|chain| - 1] in done
    decreases |chain|
  {
    if |chain| > 1 {
      var shorter := chain[..|chain| - 1];
      assert MattersChain(c, q, v, shorter) by {
        forall i | 0 <= i < |shorter| - 1 ensures HandsOn(c, shorter[i], shorter[i + 1]) {
          assert HandsOn(c, chain[i], chain[i + 1]);
        }
      }
      ChainIsDone(c, q, v, visited, done, shorter);
      assert HandsOn(c, chain[|chain| - 2], chain[|chain| - 1]);
    }
  }

  lemma WalkIsDone(c: Code, q: Question, v: nat, visited: set<Use>, done: set<Use>)
    requires CodeOk(c) && QuestionOk(c, q) && Walking(c, q, v, visited, [], done) && |UsesOf(c, v)| <= 20
    ensures !Leaky(c, q, v) && !Crowded(c, q, v)
  {
    forall chain | MattersChain(c, q, v, chain)
      ensures !Leaks(c, q, chain[|chain| - 1]) && !CrowdedAfter(c, chain[|chain| - 1])
    {
      ChainIsDone(c, q, v, visited, done, chain);
      assert Matters(c, q, chain[|chain| - 1]);
    }
  }

  lemma SeedsWait(c: Code, q: Question, v: nat, visited: set<Use>, worklist: seq<Use>)
    requires CodeOk(c) && QuestionOk(c, q) && forall u :: u in worklist <==> u in visited
    requires forall u | u in worklist :: u in UsesOf(c, v) && MayMatter(c, q, u)
    requires forall u | u in UsesOf(c, v) && Matters(c, q, u) :: u in worklist
    ensures Walking(c, q, v, visited, worklist, {})
  {
    forall u | u in worklist ensures Chained(c, q, v, u) { ChainStarts(c, q, v, u); }
  }

  /** How many uses are still unvisited. */
  ghost function Left(c: Code, visited: set<Use>): nat { |AllUses(c) - visited| }

  lemma FewerLeft(c: Code, q: Question, v: nat, before: set<Use>, visited: set<Use>, worklist: seq<Use>, done: set<Use>)
    requires Walking(c, q, v, visited, worklist, done) && before <= visited
    ensures Left(c, visited) <= Left(c, before) && (before != visited ==> Left(c, visited) < Left(c, before))
  {
    hide Matters, Leaks, Chained, CrowdedAfter;
    assert AllUses(c) - before == (AllUses(c) - visited) + (visited - before) by {
      assert forall u | u in visited :: IsUse(c, u) && u == Use(u.user, u.operand) && u in AllUses(c);
    }
  }

  lemma LastIsUse(c: Code, q: Question, v: nat, visited: set<Use>, worklist: seq<Use>, done: set<Use>)
    requires Walking(c, q, v, visited, worklist, done) && worklist != []
    ensures IsUse(c, worklist[|worklist| - 1])
  {
    assert worklist[|worklist| - 1] in worklist;
  }

  lemma LookedAt(c: Code, q: Question, v: nat, visited: set<Use>, worklist: seq<Use>, done: set<Use>, u: Use)
    requires CodeOk(c) && QuestionOk(c, q) && Walking(c, q, v, visited, worklist + [u], done)
    requires IsUse(c, u) && !IsCopy(c, u) && (Matters(c, q, u) ==> !Leaks(c, q, u))
    ensures Walking(c, q, v, visited, worklist, done + {u})
  {
    hide Chained, Leaks, Matters;
    assert forall w :: w in worklist + [u] <==> w in worklist || w == u;
  }

  lemma CopyLookedAt(c: Code, q: Question, v: nat, visited: set<Use>, worklist: seq<Use>, done: set<Use>, u: Use,
                     visited': set<Use>, added: seq<Use>)
    requires CodeOk(c) && QuestionOk(c, q) && Walking(c, q, v, visited, worklist + [u], done)
    requires IsUse(c, u) && IsCopy(c, u) && !CrowdedAfter(c, u)
    requires forall w | w in added :: w in visited' && w in UsesOf(c, u.user) && MayMatter(c, q, w)
    requires visited <= visited' && forall w | w in visited' :: w in visited || w in UsesOf(c, u.user)
    requires forall w | w in UsesOf(c, u.user) && w !in visited && Matters(c, q, w) :: w in added
    requires forall w | w in UsesOf(c, u.user) :: w in visited'
    ensures Walking(c, q, v, visited', worklist + added, done + {u})
  {
    CopySearched(c, q, v, visited, worklist, done, u, visited', added);
    assert u in worklist + [u] && Chained(c, q, v, u);
    forall w | w in added ensures Chained(c, q, v, w) { CopyIsChained(c, q, v, u, w); }
    hide Searching, Chained, MayMatter, CodeOk, QuestionOk, IsUse, UsesOf;
    assert forall w :: w in worklist + [u] <==> w in worklist || w == u;
    assert forall w :: w in worklist + added <==> w in worklist || w in added;
  }

  lemma CopySearched(c: Code, q: Question, v: nat, visited: set<Use>, worklist: seq<Use>, done: set<Use>, u: Use,
                     visited': set<Use>, added: seq<Use>)
    requires CodeOk(c) && QuestionOk(c, q) && Searching(c, q, v, visited, worklist + [u], done)
    requires IsUse(c, u) && IsCopy(c, u) && !CrowdedAfter(c, u)
    requires forall w | w in added :: w in visited' && w in UsesOf(c, u.user)
    requires visited <= visited' && forall w | w in visited' :: w in visited || w in UsesOf(c, u.user)
    requires forall w | w in UsesOf(c, u.user) && w !in visited && Matters(c, q, w) :: w in added
    requires forall w | w in UsesOf(c, u.user) :: w in visited'
    ensures Searching(c, q, v, visited', worklist + added, done + {u})
  {
    assert !Leaks(c, q, u);
    assert forall w | w in UsesOf(c, u.user) :: IsUse(c, w);
    hide Matters, Leaks, CodeOk, QuestionOk, IsUse, CrowdedAfter;
    assert forall w :: w in worklist + [u] <==> w in worklist || w == u;
    assert forall w :: w in worklist + added <==> w in worklist || w in added;
  }

  lemma CopyIsChained(c: Code, q: Question, v: nat, u: Use, w: Use)
    requires CodeOk(c) && QuestionOk(c, q) && IsUse(c, u) && IsCopy(c, u) && w in UsesOf(c, u.user)
    requires Chained(c, q, v, u)
    ensures IsUse(c, w) && (MayMatter(c, q, w) ==> Chained(c, q, v, w))
  {
    if MayMatter(c, q, w) { ChainGrows(c, q, v, u, w); }
  }

  lemma LeakFound(c: Code, q: Question, v: nat, visited: set<Use>, worklist: seq<Use>, done: set<Use>, u: Use)
    requires CodeOk(c) && QuestionOk(c, q) && Walking(c, q, v, visited, worklist, done) && u in worklist
    ensures Leaks(c, q, u) ==> MayLeak(c, q, v)
    ensures CrowdedAfter(c, u) ==> MayCrowd(c, q, v)
  {
    assert Chained(c, q, v, u);
  }

  /** Takes up the uses of a copy. */
  method Follow(c: Code, v: nat, u: Use, tracker: CaptureTracker, visited0: set<Use>, worklist0: seq<Use>, ghost done: set<Use>)
      returns (crowded: bool, visited: set<Use>, worklist: seq<Use>)
    requires CodeOk(c) && QuestionOk(c, tracker.q) && !tracker.captured && IsUse(c, u) && IsCopy(c, u)
    requires Walking(c, tracker.q, v, visited0, worklist0 + [u], done)
    modifies tracker
    ensures crowded == CrowdedAfter(c, u) == tracker.captured
    ensures !crowded ==> Walking(c, tracker.q, v, visited, worklist, done + {u})
    ensures visited0 <= visited && (visited == visited0 ==> worklist == worklist0)
  {
    hide Matters, MayMatter, Walking;
    var q := tracker.q;
    var uses := UsesOf(c, u.user);
    var count := 0;
    visited, worklist := visited0, worklist0;
    ghost var added: seq<Use> := [];
    for k := 0 to |uses|
      invariant count == k <= THRESHOLD && !tracker.captured && visited0 <= visited
      invariant worklist == worklist0 + added && (visited == visited0 ==> added == [])
      invariant forall w | w in added :: w in visited && w in uses && MayMatter(c, q, w)
      invariant forall w | w in visited && w !in visited0 :: w in uses && (Matters(c, q, w) ==> w in added)
      invariant forall j | 0 <= j < k :: uses[j] in visited
    {
      if count >= THRESHOLD {
        tracker.TooManyUses();
        crowded := true;
        return;
      }
      count := count + 1;
      if uses[k] !in visited {
        visited := visited + {uses[k]};
        var explore := tracker.ShouldExplore(c, uses[k]);
        if explore {
          worklist := worklist + [uses[k]];
          added := added + [uses[k]];
        }
      }
    }
    crowded := false;
    CopyLookedAt(c, q, v, visited0, worklist0, done, u, visited, added);
  }

  /** Looks at one use that copies nothing. */
  method Examine(c: Code, u: Use, tracker: CaptureTracker) returns (stop: bool)
    requires CodeOk(c) && QuestionOk(c, tracker.q) && !tracker.captured && IsUse(c, u) && !IsCopy(c, u)
    modifies tracker
    ensures tracker.captured == stop
    ensures Leaks(c, tracker.q, u) && Matters(c, tracker.q, u) ==> stop
    ensures stop ==> Leaks(c, tracker.q, u)
  {
    hide Matters, MayMatter;
    stop := false;
    var i, value := c.instructions[u.user], Used(c, u);
    assert InstructionOk(c, i);
    match i.op {
      case Call(onlyReads, doesNotThrow, isVoid, arguments, noCapture) =>
        if onlyReads && doesNotThrow && isVoid {
          return;
        }
        for a := 0 to arguments
          invariant !tracker.captured
          invariant forall k | 0 <= k < a && PassedAt(i, value, k) ::
                      !Leaks(c, tracker.q, u) || !Matters(c, tracker.q, u)
        {
          if i.operands[a] == value && a !in noCapture {
            assert PassedAt(i, value, a);
            stop := tracker.OnCapture(c, u);
            if stop {
              return;
            }
          }
        }
      case Load =>
      case VAArg =>
      case Store =>
        if value == i.operands[0] { stop := tracker.OnCapture(c, u); }
      case ICmp(againstNull) =>
        if !(againstNull && value in c.noAlias) { stop := tracker.OnCapture(c, u); }
      case Copy =>
      case Return =>
        stop := tracker.OnCapture(c, u);
      case Other =>
        stop := tracker.OnCapture(c, u);
    }
  }

  /** Takes up the uses of the pointer itself. */
  method Seed(c: Code, v: nat, tracker: CaptureTracker) returns (visited: set<Use>, worklist: seq<Use>)
    requires CodeOk(c) && QuestionOk(c, tracker.q) && !tracker.captured
    modifies tracker
    ensures tracker.captured == (|UsesOf(c, v)| > 20)
    ensures !tracker.captured ==> Walking(c, tracker.q, v, visited, worklist, {})
  {
    hide Matters, MayMatter;
    visited, worklist := {}, [];
    var uses, count := UsesOf(c, v), 0;
    for k := 0 to |uses|
      invariant count == k <= THRESHOLD && !tracker.captured && (forall u :: u in worklist <==> u in visited)
      invariant forall u | u in worklist :: u in uses && MayMatter(c, tracker.q, u)
      invariant forall j | 0 <= j < k && Matters(c, tracker.q, uses[j]) :: uses[j] in worklist
    {
      if count >= THRESHOLD {
        tracker.TooManyUses();
        return;
      }
      count := count + 1;
      var explore := tracker.ShouldExplore(c, uses[k]);
      if explore {
        visited := visited + {uses[k]};
        worklist := worklist + [uses[k]];
      }
    }
    SeedsWait(c, tracker.q, v, visited, worklist);
  }

  /** One turn of the walk: takes the last use off the worklist and looks at it. */
  method Look(c: Code, v: nat, tracker: CaptureTracker, visited0: set<Use>, worklist0: seq<Use>, ghost done: set<Use>)
      returns (visited: set<Use>, worklist: seq<Use>, ghost done': set<Use>)
    requires CodeOk(c) && QuestionOk(c, tracker.q) && !tracker.captured && worklist0 != []
    requires Walking(c, tracker.q, v, visited0, worklist0, done)
    modifies tracker
    ensures tracker.captured ==> MayLeak(c, tracker.q, v) || MayCrowd(c, tracker.q, v)
    ensures !tracker.captured ==> Walking(c, tracker.q, v, visited, worklist, done')
    ensures !tracker.captured ==>
              Left(c, visited) < Left(c, visited0) || (Left(c, visited) == Left(c, visited0) && |worklist| < |worklist0|)
  {
    hide *;
    var q := tracker.q;
    LastIsUse(c, q, v, visited0, worklist0, done);
    var u := worklist0[|worklist0| - 1];
    visited, worklist := visited0, worklist0[..|worklist0| - 1];
    assert worklist0 == worklist + [u];
    LeakFound(c, q, v, visited0, worklist0, done, u);
    done' := done + {u};
    if IsCopy(c, u) {
      var crowded;
      crowded, visited, worklist := Follow(c, v, u, tracker, visited, worklist, done);
      if !crowded { FewerLeft(c, q, v, visited0, visited, worklist, done'); }
    } else {
      var stop := Examine(c, u, tracker);
      if !stop { LookedAt(c, q, v, visited, worklist, done, u); }
    }
  }

  /** The walk. A tracker left untouched means that no chain of uses that count ends in a leak; it is told only of a leak at
      the end of a chain of uses that may count, or of too many uses to look at. */
  method Walk(c: Code, v: nat, tracker: CaptureTracker)
    requires CodeOk(c) && QuestionOk(c, tracker.q) && !tracker.captured
    modifies tracker
    ensures Leaky(c, tracker.q, v) || Crowded(c, tracker.q, v) ==> tracker.captured
    ensures tracker.captured ==> MayLeak(c, tracker.q, v) || MayCrowd(c, tracker.q, v)
  {
    var q := tracker.q;
    hide *;
    var visited, worklist := Seed(c, v, tracker);
    if tracker.captured {
      ManyUses(c, q, v);
      return;
    }
    ghost var done: set<Use> := {};
    while worklist != []
      invariant Walking(c, q, v, visited, worklist, done) && !tracker.captured
      decreases Left(c, visited), |worklist|
    {
      visited, worklist, done := Look(c, v, tracker, visited, worklist, done);
      if tracker.captured {
        return;
      }
    }
    WalkIsDone(c, q, v, visited, done);
  }

  lemma ManyUses(c: Code, q: Question, v: nat)
    requires |UsesOf(c, v)| > 20
    ensures MayCrowd(c, q, v)
  {
  }

  /** Whether the pointer may be captured at all: true exactly when some chain of uses ends in a leak, or the pointer or
      a copy of it has too many uses. */
  method PointerMayBeCaptured(c: Code, v: nat, returnCaptures: bool) returns (captured: bool)
    requires CodeOk(c)
    ensures captured <==> Leaky(c, Question(returnCaptures, None), v) || Crowded(c, Question(returnCaptures, None), v)
  {
    var tracker := new CaptureTracker(Question(returnCaptures, None));
    Walk(c, v, tracker);
    AllMatter(c, tracker.q, v);
    captured := tracker.captured;
  }

  /** The pointer is handed along the chain, leaks at its end, and then instruction `here` runs; the instruction itself is
      on the chain only if it is included. */
  ghost predicate LeaksBefore(c: Code, q: Question, v: nat, chain: seq<Use>, here: nat, includeHere: bool) {
    && IsChain(c, v, chain) && here < |c.instructions|
    && Reaches(c.g, 0, c.instructions[chain[0].user].block)
    && (forall i | 0 <= i < |chain| - 1 :: Then(c, chain[i].user, chain[i + 1].user))
    && Then(c, chain[|chain| - 1].user, here)
    && (forall i | 0 <= i < |chain| :: chain[i].user == here ==> includeHere)
    && Leaks(c, q, chain[|chain| - 1])
  }

  lemma ThenThen(c: Code, i: nat, j: nat, k: nat)
    requires IsGraph(c.g) && Then(c, i, j) && Then(c, j, k)
    ensures Then(c, i, k)
  {
    var a, b, d := c.instructions[i], c.instructions[j], c.instructions[k];
    if a.block == b.block && a.index <= b.index {
    } else {
      var x :| Edge(c.g, a.block, x) && Reaches(c.g, x, b.block);
      if !(b.block == d.block && b.index <= d.index) {
        var y :| Edge(c.g, b.block, y) && Reaches(c.g, y, d.block);
        EdgeReaches(c.g, b.block, y);
        ReachesThrough(c.g, x, b.block, y);
        ReachesThrough(c.g, x, y, d.block);
      }
    }
  }

  lemma ReachedThen(c: Code, i: nat, j: nat)
    requires IsGraph(c.g) && Then(c, i, j) && Reaches(c.g, 0, c.instructions[i].block)
    ensures Reaches(c.g, 0, c.instructions[j].block)
  {
    var a, b := c.instructions[i], c.instructions[j];
    if !(a.block == b.block && a.index <= b.index) {
      var x :| Edge(c.g, a.block, x) && Reaches(c.g, x, b.block);
      EdgeReaches(c.g, a.block, x);
      ReachesThrough(c.g, 0, a.block, x);
      ReachesThrough(c.g, 0, x, b.block);
    }
  }

  /** Skipping a use skips nothing that matters: along a run that hands the pointer on, leaks it and then reaches the
      instruction, every use is one the tracker must explore. */
  lemma {:induction false} RunMatters(c: Code, q: Question, v: nat, chain: seq<Use>, here: nat, includeHere: bool, i: nat)
    requires CodeOk(c) && LeaksBefore(c, q, v, chain, here, includeHere) && i < |chain|
    ensures Then(c, chain[i].user, here) && Reaches(c.g, 0, c.instructions[chain[i].user].block)
  {
    EndRuns(c, q, v, chain, here, includeHere, i);
    StartRuns(c, q, v, chain, here, includeHere, i);
  }

  lemma {:induction false} EndRuns(c: Code, q: Question, v: nat, chain: seq<Use>, here: nat, includeHere: bool, i: nat)
    requires CodeOk(c) && LeaksBefore(c, q, v, chain, here, includeHere) && i < |chain|
    ensures Then(c, chain[i].user, here)
    decreases |chain| - i
  {
    hide Then, InstructionOk;
    if i < |chain| - 1 {
      EndRuns(c, q, v, chain, here, includeHere, i + 1);
      ThenThen(c, chain[i].user, chain[i + 1].user, here);
    }
  }

  lemma {:induction false} StartRuns(c: Code, q: Question, v: nat, chain: seq<Use>, here: nat, includeHere: bool, i: nat)
    requires CodeOk(c) && LeaksBefore(c, q, v, chain, here, includeHere) && i < |chain|
    ensures Reaches(c.g, 0, c.instructions[chain[i].user].block)
    decreases i
  {
    hide Then, InstructionOk, Reaches;
    if i > 0 {
      StartRuns(c, q, v, chain, here, includeHere, i - 1);
      ReachedThen(c, chain[i - 1].user, chain[i].user);
    }
  }

  lemma RunIsLeaky(c: Code, q: Question, v: nat, chain: seq<Use>)
    requires CodeOk(c) && q.before.Some? && LeaksBefore(c, q, v, chain, q.before.value.here, q.before.value.includeHere)
    ensures Leaky(c, q, v)
  {
    forall i | 0 <= i < |chain| ensures Matters(c, q, chain[i]) {
      RunMatters(c, q, v, chain, q.before.value.here, q.before.value.includeHere, i);
    }
    assert MattersChain(c, q, v, chain);
  }

  /** Whether the pointer may be captured before an instruction runs: false only if no run hands the pointer on, leaks it
      and then reaches the instruction. */
  method PointerMayBeCapturedBefore(c: Code, v: nat, returnCaptures: bool, here: nat, dt: Option<DomTree>, includeHere: bool)
      returns (captured: bool)
    requires CodeOk(c) && here < |c.instructions| && (dt.Some? ==> DomOk(c.g, dt.value))
    ensures !captured ==>
              forall chain :: !LeaksBefore(c, Question(returnCaptures, None), v, chain, here, includeHere)
    ensures captured ==>
              var q := Question(returnCaptures, if dt.Some? then Some(Before(here, includeHere, dt.value)) else None);
              MayLeak(c, q, v) || MayCrowd(c, q, v)
  {
    hide Matters, Leaks, CodeOk, Crowded, MayLeak, MayCrowd;
    if dt.None? {
      captured := PointerMayBeCaptured(c, v, returnCaptures);
      AllMatter(c, Question(returnCaptures, None), v);
      if !captured {
        forall chain ensures !LeaksBefore(c, Question(returnCaptures, None), v, chain, here, includeHere) {
          RunIsAChain(c, Question(returnCaptures, None), v, chain, here, includeHere);
        }
      }
      return;
    }
    var q := Question(returnCaptures, Some(Before(here, includeHere, dt.value)));
    var tracker := new CaptureTracker(q);
    Walk(c, v, tracker);
    captured := tracker.captured;
    if !captured {
      forall chain ensures !LeaksBefore(c, Question(returnCaptures, None), v, chain, here, includeHere) {
        if LeaksBefore(c, Question(returnCaptures, None), v, chain, here, includeHere) {
          SameLeaks(c, Question(returnCaptures, None), q, v, chain, here, includeHere);
          RunIsLeaky(c, q, v, chain);
        }
      }
    }
  }

  lemma SameLeaks(c: Code, p: Question, q: Question, v: nat, chain: seq<Use>, here: nat, includeHere: bool)
    requires p.returnCaptures == q.returnCaptures && LeaksBefore(c, p, v, chain, here, includeHere)
    ensures LeaksBefore(c, q, v, chain, here, includeHere)
  {
    hide Then;
  }

  lemma RunIsAChain(c: Code, q: Question, v: nat, chain: seq<Use>, here: nat, includeHere: bool)
    requires CodeOk(c) && q.before.None?
    ensures LeaksBefore(c, q, v, chain, here, includeHere) ==> Leaky(c, q, v)
  {
    hide Then;
    if LeaksBefore(c, q, v, chain, here, includeHere) { assert MattersChain(c, q, v, chain); }
  }
}
