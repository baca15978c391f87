/** Control-flow graphs as successor lists; block 0 is the entry. */
module Graphs {
  type Graph = seq<seq<nat>>

  ghost predicate IsGraph(g: Graph) {
    |g| > 0 && forall b, i | 0 <= b < |g| && 0 <= i < |g[b]| :: g[b][i] < |g|
  }

  predicate Edge(g: Graph, a: nat, b: nat) { a < |g| && b in g[a] }

  ghost predicate IsPath(g: Graph, p: seq<nat>) {
    |p| > 0 && (forall i | 0 <= i < |p| :: p[i] < |g|) && forall i | 0 <= i < |p| - 1 :: Edge(g, p[i], p[i + 1])
  }

  ghost predicate PathFromTo(g: Graph, p: seq<nat>, a: nat, b: nat) {
    IsPath(g, p) && p[0] == a && p[|p| - 1] == b
  }

  ghost predicate Reaches(g: Graph, a: nat, b: nat) { exists p :: PathFromTo(g, p, a, b) }

  lemma ReachesSelf(g: Graph, a: nat)
    requires a < |g|
    ensures Reaches(g, a, a)
  {
    assert PathFromTo(g, [a], a, a);
  }

  lemma ReachesThrough(g: Graph, a: nat, b: nat, c: nat)
    requires Reaches(g, a, b) && Reaches(g, b, c)
    ensures Reaches(g, a, c)
  {
    var p :| PathFromTo(g, p, a, b);
    var q :| PathFromTo(g, q, b, c);
    var r := p + q[1..];
    assert PathFromTo(g, r, a, c) by {
      forall i | 0 <= i < |r| - 1 ensures Edge(g, r[i], r[i + 1]) {
        if i < |p| - 1 {
          assert Edge(g, p[i], p[i + 1]);
        } else {
          assert r[i] == q[i - |p| + 1];
          assert Edge(g, q[i - |p| + 1], q[i - |p| + 2]);
        }
      }
    }
  }

  lemma EdgeReaches(g: Graph, a: nat, b: nat)
    requires IsGraph(g) && Edge(g, a, b)
    ensures b < |g| && Reaches(g, a, b)
  {
    assert PathFromTo(g, [a, b], a, b);
  }

  /** A set closed under successors is never left. */
  lemma {:induction false} NeverLeaves(g: Graph, s: set<nat>, p: seq<nat>)
    requires IsPath(g, p) && p[0] in s && forall a, b | a in s && Edge(g, a, b) :: b in s
    ensures p[|p| - 1] in s
    decreases |p|
  {
    if |p| > 1 {
      assert Edge(g, p[0], p[1]);
      assert IsPath(g, p[1..]) by {
        forall i | 0 <= i < |p[1..]| - 1 ensures Edge(g, p[1..][i], p[1..][i + 1]) { assert Edge(g, p[i + 1], p[i + 2]); }
      }
      NeverLeaves(g, s, p[1..]);
    }
  }

  /** A set of blocks has at most as many members as the graph. */
  lemma {:induction false} SmallSet(n: nat, s: set<nat>)
    requires forall b | b in s :: b < n
    ensures |s| <= n
    decreases n
  {
    if n > 0 {
      SmallSet(n - 1, s - {n - 1});
      assert s <= (s - {n - 1}) + {n - 1};
    } else {
      assert s == {};
    }
  }
}

/** FindFunctionBackedges: depth-first search with an explicit stack of successor iterators. */
module Backedges {
  import opened Graphs

  /** A block on the stack, and how many of its successors were looked at. */
  datatype Entry = Entry(block: nat, next: nat)

  /** The stack is a path from the entry block. */
  ghost predicate StackOk(g: Graph, stack: seq<Entry>) {
    && (forall k | 0 <= k < |stack| :: stack[k].block < |g| && stack[k].next <= |g[stack[k].block]|)
    && (forall j, k | 0 <= j < k < |stack| :: stack[j].block != stack[k].block)
    && (forall k | 0 <= k < |stack| - 1 :: stack[k].next > 0 && g[stack[k].block][stack[k].next - 1] == stack[k + 1].block)
  }

  lemma {:induction false} StackReaches(g: Graph, stack: seq<Entry>, j: nat, k: nat)
    requires IsGraph(g) && StackOk(g, stack) && j <= k < |stack|
    ensures Reaches(g, stack[j].block, stack[k].block)
    decreases k - j
  {
    if j == k {
      ReachesSelf(g, stack[j].block);
    } else {
      StackReaches(g, stack, j, k - 1);
      assert Edge(g, stack[k - 1].block, stack[k].block);
      EdgeReaches(g, stack[k - 1].block, stack[k].block);
      ReachesThrough(g, stack[j].block, stack[k - 1].block, stack[k].block);
    }
  }

  function Blocks(stack: seq<Entry>): set<nat> { set k | 0 <= k < |stack| :: stack[k].block }

  ghost predicate VisitedOk(g: Graph, visited: set<nat>, stack: seq<Entry>, fin: map<nat, nat>) {
    && (forall b | b in visited :: b < |g| && Reaches(g, 0, b) && (b in Blocks(stack) || b in fin))
    && (forall b | b in fin :: b in visited && b !in Blocks(stack) && fin[b] < |fin|)
    && (forall k | 0 <= k < |stack| :: stack[k].block in visited)
  }

  /** An edge out of a finished block was reported, or goes to a block finished earlier. */
  ghost predicate FinOk(g: Graph, result: seq<(nat, nat)>, fin: map<nat, nat>) {
    forall a, b | a in fin && Edge(g, a, b) :: (a, b) in result || (b in fin && fin[b] < fin[a])
  }

  /** An edge looked at from the stack was reported, leads to a finished block, or to the next block on the stack. */
  ghost predicate Looked(g: Graph, stack: seq<Entry>, result: seq<(nat, nat)>, fin: map<nat, nat>, k: nat, i: nat)
    requires k < |stack| && stack[k].block < |g| && i < |g[stack[k].block]|
  {
    var b := g[stack[k].block][i];
    (stack[k].block, b) in result || b in fin || (i == stack[k].next - 1 && k + 1 < |stack|)
  }

  ghost predicate StackLooked(g: Graph, stack: seq<Entry>, result: seq<(nat, nat)>, fin: map<nat, nat>)
    requires StackOk(g, stack)
  {
    forall k, i | 0 <= k < |stack| && 0 <= i < stack[k].next :: Looked(g, stack, result, fin, k, i)
  }

  ghost predicate BackEdge(g: Graph, visited: set<nat>, e: (nat, nat)) {
    Edge(g, e.0, e.1) && Reaches(g, 0, e.0) && Reaches(g, e.1, e.0) && e.1 in visited
  }

  ghost predicate Searched(g: Graph, visited: set<nat>, stack: seq<Entry>, result: seq<(nat, nat)>, fin: map<nat, nat>) {
    && StackOk(g, stack) && VisitedOk(g, visited, stack, fin) && FinOk(g, result, fin)
    && StackLooked(g, stack, result, fin)
    && (forall e | e in result :: BackEdge(g, visited, e))
  }

  lemma SameBlocks(stack: seq<Entry>, i: nat, e: Entry)
    requires i < |stack| && e.block == stack[i].block
    ensures Blocks(stack[i := e]) == Blocks(stack)
  {
    var stack' := stack[i := e];
    assert forall k | 0 <= k < |stack| :: stack'[k].block == stack[k].block;
    forall b ensures b in Blocks(stack') <==> b in Blocks(stack) {
      if b in Blocks(stack) { var k :| 0 <= k < |stack| && stack[k].block == b; assert stack'[k].block == b; }
    }
  }

  lemma PushBlocks(stack: seq<Entry>, e: Entry)
    ensures Blocks(stack + [e]) == Blocks(stack) + {e.block}
  {
    var stack' := stack + [e];
    assert stack'[|stack|] == e;
    forall b | b in Blocks(stack) ensures b in Blocks(stack') {
      var k :| 0 <= k < |stack| && stack[k].block == b;
      assert stack'[k].block == b;
    }
  }

  /** The next successor of the top block was visited before; if it is on the stack, the edge closes a cycle. */
  lemma ScanVisited(g: Graph, visited: set<nat>, stack: seq<Entry>, result: seq<(nat, nat)>, fin: map<nat, nat>,
                    a: nat, i: nat, b: nat, stack': seq<Entry>, result': seq<(nat, nat)>)
    requires IsGraph(g) && Searched(g, visited, stack, result, fin) && stack != []
    requires stack[|stack| - 1] == Entry(a, i) && i < |g[a]| && g[a][i] == b && b in visited
    requires stack' == stack[|stack| - 1 := Entry(a, i + 1)]
    requires result' == if b in Blocks(stack) then result + [(a, b)] else result
    ensures Searched(g, visited, stack', result', fin) && Blocks(stack') == Blocks(stack)
  {
    hide Reaches;
    var top := |stack| - 1;
    assert Edge(g, a, b) && stack[top].block in visited;
    SameBlocks(stack, top, Entry(a, i + 1));
    if b in Blocks(stack) {
      var k :| 0 <= k < |stack| && stack[k].block == b;
      StackReaches(g, stack, k, top);
    }
    ScanLooked(g, stack, result, fin, a, i, b, stack', result');
  }

  lemma ScanLooked(g: Graph, stack: seq<Entry>, result: seq<(nat, nat)>, fin: map<nat, nat>,
                   a: nat, i: nat, b: nat, stack': seq<Entry>, result': seq<(nat, nat)>)
    requires StackOk(g, stack) && StackLooked(g, stack, result, fin) && stack != []
    requires stack[|stack| - 1] == Entry(a, i) && i < |g[a]| && g[a][i] == b && (b in fin || (a, b) in result')
    requires stack' == stack[|stack| - 1 := Entry(a, i + 1)] && forall e | e in result :: e in result'
    ensures StackOk(g, stack') && StackLooked(g, stack', result', fin)
  {
    forall k, j | 0 <= k < |stack'| && 0 <= j < stack'[k].next
      ensures Looked(g, stack', result', fin, k, j)
    {
      if k < |stack| - 1 || j < i { assert Looked(g, stack, result, fin, k, j); }
    }
  }

  lemma UpLooked(g: Graph, stack: seq<Entry>, result: seq<(nat, nat)>, fin: map<nat, nat>, a: nat, fin': map<nat, nat>)
    requires StackOk(g, stack) && StackLooked(g, stack, result, fin) && stack != [] && stack[|stack| - 1].block == a
    requires a in fin' && forall b | b in fin :: b in fin'
    ensures StackOk(g, stack[..|stack| - 1]) && StackLooked(g, stack[..|stack| - 1], result, fin')
  {
    var stack' := stack[..|stack| - 1];
    forall k, j | 0 <= k < |stack'| && 0 <= j < stack'[k].next
      ensures Looked(g, stack', result, fin', k, j)
    {
      assert Looked(g, stack, result, fin, k, j);
    }
  }

  /** The next successor of the top block is new: go down. */
  lemma GoDown(g: Graph, visited: set<nat>, stack: seq<Entry>, result: seq<(nat, nat)>, fin: map<nat, nat>,
               a: nat, i: nat, b: nat, stack': seq<Entry>)
    requires IsGraph(g) && Searched(g, visited, stack, result, fin) && stack != []
    requires stack[|stack| - 1] == Entry(a, i) && i < |g[a]| && g[a][i] == b && b !in visited
    requires stack' == stack[|stack| - 1 := Entry(a, i + 1)] + [Entry(b, 0)]
    ensures Searched(g, visited + {b}, stack', result, fin)
    ensures Blocks(stack') == Blocks(stack) + {b}
  {
    hide Reaches;
    var top := |stack| - 1;
    assert Edge(g, a, b) && stack[top].block in visited;
    EdgeReaches(g, a, b);
    ReachesThrough(g, 0, a, b);
    SameBlocks(stack, top, Entry(a, i + 1));
    PushBlocks(stack[top := Entry(a, i + 1)], Entry(b, 0));
    DownLooked(g, stack, result, fin, a, i, b, stack');
  }

  lemma DownLooked(g: Graph, stack: seq<Entry>, result: seq<(nat, nat)>, fin: map<nat, nat>, a: nat, i: nat, b: nat, stack': seq<Entry>)
    requires StackOk(g, stack) && StackLooked(g, stack, result, fin) && stack != [] && b < |g|
    requires stack[|stack| - 1] == Entry(a, i) && i < |g[a]| && g[a][i] == b && forall k | 0 <= k < |stack| :: stack[k].block != b
    requires stack' == stack[|stack| - 1 := Entry(a, i + 1)] + [Entry(b, 0)]
    ensures StackOk(g, stack') && StackLooked(g, stack', result, fin)
  {
    var top := |stack| - 1;
    forall k, j | 0 <= k < |stack'| && 0 <= j < stack'[k].next
      ensures Looked(g, stack', result, fin, k, j)
    {
      if k < top || (k == top && j < i) { assert Looked(g, stack, result, fin, k, j); }
    }
  }

  /** Every successor of the top block was looked at: it is finished, after all those it did not close a cycle with. */
  lemma GoUp(g: Graph, visited: set<nat>, stack: seq<Entry>, result: seq<(nat, nat)>, fin: map<nat, nat>, a: nat)
    requires IsGraph(g) && Searched(g, visited, stack, result, fin) && stack != []
    requires a < |g| && stack[|stack| - 1] == Entry(a, |g[a]|)
    ensures Searched(g, visited, stack[..|stack| - 1], result, fin[a := |fin|])
    ensures Blocks(stack[..|stack| - 1]) == Blocks(stack) - {a}
  {
    hide Reaches;
    var top := |stack| - 1;
    var stack', fin' := stack[..top], fin[a := |fin|];
    assert stack[top].block == a;
    assert a in Blocks(stack) && a !in fin;
    PushBlocks(stack', stack[top]);
    assert stack == stack' + [stack[top]];
    assert forall k | 0 <= k < top :: stack'[k].block == stack[k].block != stack[top].block;
    UpFinished(g, stack, result, fin, a);
    UpLooked(g, stack, result, fin, a, fin');
  }

  lemma UpFinished(g: Graph, stack: seq<Entry>, result: seq<(nat, nat)>, fin: map<nat, nat>, a: nat)
    requires StackOk(g, stack) && StackLooked(g, stack, result, fin) && FinOk(g, result, fin) && stack != []
    requires a < |g| && stack[|stack| - 1] == Entry(a, |g[a]|) && a !in fin && forall b | b in fin :: fin[b] < |fin|
    ensures FinOk(g, result, fin[a := |fin|])
  {
    var fin' := fin[a := |fin|];
    forall c, b | c in fin' && Edge(g, c, b) ensures (c, b) in result || (b in fin' && fin'[b] < fin'[c]) {
      if c == a {
        var i :| 0 <= i < |g[a]| && g[a][i] == b;
        assert Looked(g, stack, result, fin, |stack| - 1, i);
      }
    }
  }

  // How often edges are reported

  /** How many of the first n edges of a lead to b. */
  function EdgesTo(g: Graph, a: nat, n: nat, b: nat): nat {
    if a < |g| && n <= |g[a]| then multiset(g[a][..n])[b] else 0
  }

  /** b stands on the stack, not above position k. */
  predicate Below(stack: seq<Entry>, k: nat, b: nat) { exists j :: 0 <= j <= k && j < |stack| && stack[j].block == b }

  /** Each edge of a finished block has been reported as often as it occurs, unless its target was finished before; of a block
      on the stack, each edge looked at if its target stands below. */
  ghost predicate Counted(g: Graph, visited: set<nat>, stack: seq<Entry>, result: seq<(nat, nat)>, fin: map<nat, nat>) {
    && FinCounted(g, result, fin) && StackCounted(g, stack, result)
    && (forall a: nat, b: nat | a !in visited :: multiset(result)[(a, b)] == 0)
  }

  ghost predicate FinCounted(g: Graph, result: seq<(nat, nat)>, fin: map<nat, nat>) {
    forall a: nat, b: nat | a in fin :: multiset(result)[(a, b)] == if b in fin && fin[b] < fin[a] then 0 else EdgesTo(g, a, Degree(g, a), b)
  }

  ghost predicate StackCounted(g: Graph, stack: seq<Entry>, result: seq<(nat, nat)>) {
    forall k, b: nat | 0 <= k < |stack| ::
      multiset(result)[(stack[k].block, b)] == if Below(stack, k, b) then EdgesTo(g, stack[k].block, stack[k].next, b) else 0
  }

  function Degree(g: Graph, a: nat): nat { if a < |g| then |g[a]| else 0 }

  lemma EdgesToNext(g: Graph, a: nat, n: nat, b: nat)
    requires a < |g| && n < |g[a]|
    ensures EdgesTo(g, a, n + 1, b) == EdgesTo(g, a, n, b) + if g[a][n] == b then 1 else 0
  {
    assert g[a][..n + 1] == g[a][..n] + [g[a][n]];
  }

  lemma NoEdgesTo(g: Graph, a: nat, b: nat)
    requires !Edge(g, a, b)
    ensures EdgesTo(g, a, Degree(g, a), b) == 0
  {
    if a < |g| { assert g[a][..|g[a]|] == g[a]; }
  }

  lemma BelowSame(stack: seq<Entry>, e: Entry, k: nat, b: nat)
    requires stack != [] && e.block == stack[|stack| - 1].block
    ensures Below(stack[|stack| - 1 := e], k, b) == Below(stack, k, b)
  {
    var stack' := stack[|stack| - 1 := e];
    assert forall j | 0 <= j < |stack| :: stack'[j].block == stack[j].block;
    if Below(stack, k, b) { var j :| 0 <= j <= k && j < |stack| && stack[j].block == b; assert stack'[j].block == b; }
  }

  lemma BelowPushed(stack: seq<Entry>, e: Entry, k: nat, b: nat)
    ensures k < |stack| ==> Below(stack + [e], k, b) == Below(stack, k, b)
  {
    var stack' := stack + [e];
    if k < |stack| && Below(stack, k, b) { var j :| 0 <= j <= k && j < |stack| && stack[j].block == b; assert stack'[j].block == b; }
  }

  lemma BelowTop(stack: seq<Entry>, b: nat)
    requires stack != []
    ensures Below(stack, |stack| - 1, b) <==> b in Blocks(stack)
  {
    if b in Blocks(stack) { var j :| 0 <= j < |stack| && stack[j].block == b; }
  }

  lemma CountReported(result: seq<(nat, nat)>, e: (nat, nat), d: (nat, nat))
    ensures multiset(result + [e])[d] == multiset(result)[d] + if d == e then 1 else 0
  {
  }

  /** Looking at an edge to a visited block. */
  lemma ScanCounted(g: Graph, visited: set<nat>, stack: seq<Entry>, result: seq<(nat, nat)>, fin: map<nat, nat>,
                    a: nat, i: nat, b: nat, stack': seq<Entry>, result': seq<(nat, nat)>)
    requires IsGraph(g) && Searched(g, visited, stack, result, fin) && Counted(g, visited, stack, result, fin) && stack != []
    requires stack[|stack| - 1] == Entry(a, i) && i < |g[a]| && g[a][i] == b && b in visited
    requires stack' == stack[|stack| - 1 := Entry(a, i + 1)]
    requires result' == if b in Blocks(stack) then result + [(a, b)] else result
    ensures Counted(g, visited, stack', result', fin)
  {
    var top := |stack| - 1;
    BelowTop(stack, b);
    assert stack[top].block == a && a in Blocks(stack) && a in visited && a !in fin;
    assert forall k | 0 <= k < top :: stack'[k] == stack[k] && stack[k].block != a;
    hide Searched, Reaches, Below, EdgesTo, Edge;
    forall d | d != (a, b) || b !in Blocks(stack) ensures multiset(result')[d] == multiset(result)[d] { CountReported(result, (a, b), d); }
    CountReported(result, (a, b), (a, b));
    forall k, x: nat | 0 <= k < |stack'|
      ensures multiset(result')[(stack'[k].block, x)] == if Below(stack', k, x) then EdgesTo(g, stack'[k].block, stack'[k].next, x) else 0
    {
      BelowSame(stack, Entry(a, i + 1), k, x);
      if k == top { EdgesToNext(g, a, i, x); }
    }
  }

  /** Going down to a new block. */
  lemma DownCounted(g: Graph, visited: set<nat>, stack: seq<Entry>, result: seq<(nat, nat)>, fin: map<nat, nat>,
                    a: nat, i: nat, b: nat, stack': seq<Entry>)
    requires IsGraph(g) && Searched(g, visited, stack, result, fin) && Counted(g, visited, stack, result, fin) && stack != []
    requires stack[|stack| - 1] == Entry(a, i) && i < |g[a]| && g[a][i] == b && b !in visited
    requires stack' == stack[|stack| - 1 := Entry(a, i + 1)] + [Entry(b, 0)]
    ensures Counted(g, visited + {b}, stack', result, fin)
  {
    var top := |stack| - 1;
    NotStacked(g, visited, stack, result, fin, b);
    assert a < |g|;
    hide Searched, Reaches, Below, EdgesTo, Edge;
    forall k, x: nat | 0 <= k < |stack'|
      ensures multiset(result)[(stack'[k].block, x)] == if Below(stack', k, x) then EdgesTo(g, stack'[k].block, stack'[k].next, x) else 0
    {
      if k <= top {
        BelowPushed(stack[top := Entry(a, i + 1)], Entry(b, 0), k, x);
        BelowSame(stack, Entry(a, i + 1), k, x);
        if k == top {
          EdgesToNext(g, a, i, x);
          if x == b { BelowOnly(stack, top, b); }
        }
      } else {
        NoneYet(g, b, x);
      }
    }
  }

  lemma BelowOnly(stack: seq<Entry>, k: nat, b: nat)
    requires forall j | 0 <= j < |stack| :: stack[j].block != b
    ensures !Below(stack, k, b)
  {
  }

  lemma NoneYet(g: Graph, a: nat, b: nat)
    ensures EdgesTo(g, a, 0, b) == 0
  {
  }

  lemma NotStacked(g: Graph, visited: set<nat>, stack: seq<Entry>, result: seq<(nat, nat)>, fin: map<nat, nat>, b: nat)
    requires Searched(g, visited, stack, result, fin) && b !in visited
    ensures b !in fin && forall j | 0 <= j < |stack| :: stack[j].block != b && stack[j].block < |g|
  {
  }

  /** Finishing the top block. */
  lemma UpCounted(g: Graph, visited: set<nat>, stack: seq<Entry>, result: seq<(nat, nat)>, fin: map<nat, nat>, a: nat)
    requires IsGraph(g) && Searched(g, visited, stack, result, fin) && Counted(g, visited, stack, result, fin) && stack != []
    requires a < |g| && stack[|stack| - 1] == Entry(a, |g[a]|)
    ensures Counted(g, visited, stack[..|stack| - 1], result, fin[a := |fin|])
  {
    UpFacts(g, visited, stack, result, fin, a);
    TopEdges(g, visited, stack, result, fin, a);
    hide Searched, Reaches, Below, EdgesTo, Edge, Blocks, FinCounted, StackCounted;
    UpFinCounted(g, stack, result, fin, a);
    UpStackCounted(g, stack, result);
  }

  lemma UpFacts(g: Graph, visited: set<nat>, stack: seq<Entry>, result: seq<(nat, nat)>, fin: map<nat, nat>, a: nat)
    requires Searched(g, visited, stack, result, fin) && stack != [] && stack[|stack| - 1].block == a
    ensures a in visited && a !in fin && a in Blocks(stack) && forall b | b in fin :: fin[b] < |fin| && b !in Blocks(stack)
  {
  }

  lemma UpFinCounted(g: Graph, stack: seq<Entry>, result: seq<(nat, nat)>, fin: map<nat, nat>, a: nat)
    requires FinCounted(g, result, fin) && StackCounted(g, stack, result) && stack != []
    requires a < |g| && stack[|stack| - 1] == Entry(a, |g[a]|)
    requires a !in fin && a in Blocks(stack) && forall b | b in fin :: fin[b] < |fin| && b !in Blocks(stack)
    requires forall b: nat | b !in Blocks(stack) && b !in fin :: EdgesTo(g, a, Degree(g, a), b) == 0
    ensures FinCounted(g, result, fin[a := |fin|])
  {
    hide Below, EdgesTo, Blocks;
    var fin' := fin[a := |fin|];
    forall b: nat ensures multiset(result)[(a, b)] == if b in fin' && fin'[b] < fin'[a] then 0 else EdgesTo(g, a, Degree(g, a), b) {
      BelowTop(stack, b);
    }
  }

  lemma UpStackCounted(g: Graph, stack: seq<Entry>, result: seq<(nat, nat)>)
    requires StackCounted(g, stack, result) && stack != []
    ensures StackCounted(g, stack[..|stack| - 1], result)
  {
    hide Below, EdgesTo;
    var stack' := stack[..|stack| - 1];
    assert stack == stack' + [stack[|stack| - 1]];
    forall k, b: nat | 0 <= k < |stack'|
      ensures multiset(result)[(stack'[k].block, b)] == if Below(stack', k, b) then EdgesTo(g, stack'[k].block, stack'[k].next, b) else 0
    {
      BelowPushed(stack', stack[|stack| - 1], k, b);
      assert stack'[k] == stack[k];
    }
  }

  /** The edges of the top block, all looked at, lead to blocks on the stack or finished. */
  lemma TopEdges(g: Graph, visited: set<nat>, stack: seq<Entry>, result: seq<(nat, nat)>, fin: map<nat, nat>, a: nat)
    requires Searched(g, visited, stack, result, fin) && stack != [] && a < |g| && stack[|stack| - 1] == Entry(a, |g[a]|)
    ensures forall b: nat | b !in Blocks(stack) && b !in fin :: EdgesTo(g, a, Degree(g, a), b) == 0
  {
    hide Reaches;
    forall b: nat | Edge(g, a, b) ensures b in visited {
      var i :| 0 <= i < |g[a]| && g[a][i] == b;
      assert Looked(g, stack, result, fin, |stack| - 1, i);
      if (a, b) in result { assert BackEdge(g, visited, (a, b)); }
    }
    forall b: nat | b !in Blocks(stack) && b !in fin ensures EdgesTo(g, a, Degree(g, a), b) == 0 { NoEdgesTo(g, a, b); }
  }

  lemma CountStarts(g: Graph)
    ensures Counted(g, {0}, [Entry(0, 0)], [], map[])
  {
    forall b: nat ensures EdgesTo(g, 0, 0, b) == 0 { NoneYet(g, 0, b); }
  }

  /** In the end each edge is reported as often as it occurs, or never if its target was finished before its source. */
  ghost predicate ReportedExactly(g: Graph, result: seq<(nat, nat)>, finished: map<nat, nat>) {
    forall a: nat, b: nat | Reaches(g, 0, a) && Edge(g, a, b) ::
      && a in finished && b in finished
      && multiset(result)[(a, b)] == if finished[b] < finished[a] then 0 else multiset(g[a])[b]
  }

  lemma CountEnds(g: Graph, visited: set<nat>, result: seq<(nat, nat)>, fin: map<nat, nat>)
    requires IsGraph(g) && Searched(g, visited, [], result, fin) && Counted(g, visited, [], result, fin)
    requires forall b :: b in visited <==> Reaches(g, 0, b)
    ensures ReportedExactly(g, result, fin)
  {
    forall a: nat, b: nat | Reaches(g, 0, a) && Edge(g, a, b)
      ensures a in fin && b in fin && multiset(result)[(a, b)] == if fin[b] < fin[a] then 0 else multiset(g[a])[b]
    {
      EdgeReaches(g, a, b);
      ReachesThrough(g, 0, a, b);
      assert g[a][..|g[a]|] == g[a];
    }
  }

  /** A closed walk that uses no removed edge. */
  ghost predicate CycleWithout(g: Graph, removed: seq<(nat, nat)>, p: seq<nat>) {
    IsPath(g, p) && |p| > 1 && p[0] == p[|p| - 1] && Avoids(p, removed)
  }

  ghost predicate Avoids(p: seq<nat>, removed: seq<(nat, nat)>) {
    forall i | 0 <= i < |p| - 1 :: (p[i], p[i + 1]) !in removed
  }

  /** Walks along unreported edges go back in finishing time. */
  lemma {:induction false} WalksGoBack(g: Graph, visited: set<nat>, result: seq<(nat, nat)>, fin: map<nat, nat>, p: seq<nat>)
    requires Searched(g, visited, [], result, fin) && IsPath(g, p) && Avoids(p, result) && p[0] in fin
    ensures p[|p| - 1] in fin && (|p| > 1 ==> fin[p[|p| - 1]] < fin[p[0]])
    decreases |p|
  {
    if |p| > 1 {
      assert Edge(g, p[0], p[1]) && (p[0], p[1]) !in result;
      var q := p[1..];
      assert IsPath(g, q) by {
        forall i | 0 <= i < |q| - 1 ensures Edge(g, q[i], q[i + 1]) { assert Edge(g, p[i + 1], p[i + 2]); }
      }
      assert Avoids(q, result) by {
        forall i | 0 <= i < |q| - 1 ensures (q[i], q[i + 1]) !in result { assert (p[i + 1], p[i + 2]) !in result; }
      }
      WalksGoBack(g, visited, result, fin, q);
    }
  }

  lemma SearchEnds(g: Graph, visited: set<nat>, result: seq<(nat, nat)>, fin: map<nat, nat>)
    requires Searched(g, visited, [], result, fin) && 0 in visited
    ensures forall p | CycleWithout(g, result, p) :: !Reaches(g, 0, p[0])
    ensures forall e | e in result :: Edge(g, e.0, e.1) && Reaches(g, 0, e.0) && Reaches(g, e.1, e.0)
    ensures forall b :: b in visited <==> Reaches(g, 0, b)
  {
    forall b | Reaches(g, 0, b) ensures b in visited {
      var q :| PathFromTo(g, q, 0, b);
      NeverLeaves(g, visited, q);
    }
    forall p | CycleWithout(g, result, p) && Reaches(g, 0, p[0]) ensures false {
      WalksGoBack(g, visited, result, fin, p);
    }
    forall e | e in result ensures Edge(g, e.0, e.1) && Reaches(g, 0, e.0) && Reaches(g, e.1, e.0) {
      assert BackEdge(g, visited, e);
    }
  }

  lemma SearchStarts(g: Graph)
    requires IsGraph(g)
    ensures Searched(g, {0}, [Entry(0, 0)], [], map[])
    ensures Blocks([Entry(0, 0)]) == {0}
  {
    hide Reaches;
    ReachesSelf(g, 0);
    PushBlocks([], Entry(0, 0));
    assert [] + [Entry(0, 0)] == [Entry(0, 0)];
  }

  lemma SearchBounds(g: Graph, visited: set<nat>, stack: seq<Entry>, result: seq<(nat, nat)>, fin: map<nat, nat>)
    requires Searched(g, visited, stack, result, fin)
    ensures |visited| <= |g| && forall k | 0 <= k < |stack| :: stack[k].block < |g| && stack[k].next <= |g[stack[k].block]|
  {
    hide Reaches;
    SmallSet(|g|, visited);
  }

  /** The blocks of `order` are those visited, each once. */
  ghost predicate VisitedOnce(order: seq<nat>, visited: set<nat>) {
    (forall i, j | 0 <= i < j < |order| :: order[i] != order[j]) && forall b :: b in visited <==> b in order
  }

  lemma VisitEntry()
    ensures VisitedOnce([0], {0})
  {
  }

  lemma VisitedAll(g: Graph, order: seq<nat>, visited: set<nat>)
    requires VisitedOnce(order, visited) && forall b :: b in visited <==> Reaches(g, 0, b)
    ensures forall i, j | 0 <= i < j < |order| :: order[i] != order[j]
    ensures forall b :: b in order <==> Reaches(g, 0, b)
  {
  }

  lemma VisitNext(order: seq<nat>, visited: set<nat>, b: nat)
    requires VisitedOnce(order, visited) && b !in visited
    ensures VisitedOnce(order + [b], visited + {b})
  {
  }

  function Finish(fin: map<nat, nat>, b: nat): map<nat, nat> { fin[b := |fin|] }

  function Visit(order: seq<nat>, b: nat): seq<nat> { order + [b] }

  /** All that is kept about the search. */
  ghost predicate Explored(g: Graph, visited: set<nat>, stack: seq<Entry>, result: seq<(nat, nat)>, fin: map<nat, nat>, order: seq<nat>) {
    Searched(g, visited, stack, result, fin) && Counted(g, visited, stack, result, fin) && VisitedOnce(order, visited) && 0 in visited
  }

  lemma ExploreStarts(g: Graph)
    requires IsGraph(g)
    ensures Explored(g, {0}, [Entry(0, 0)], [], map[], [0]) && Blocks([Entry(0, 0)]) == {0}
  {
    hide Searched, Counted;
    SearchStarts(g);
    CountStarts(g);
    VisitEntry();
  }

  lemma ExploreVisited(g: Graph, visited: set<nat>, stack: seq<Entry>, result: seq<(nat, nat)>, fin: map<nat, nat>, order: seq<nat>,
                       a: nat, i: nat, b: nat, stack': seq<Entry>, result': seq<(nat, nat)>)
    requires IsGraph(g) && Explored(g, visited, stack, result, fin, order) && stack != []
    requires stack[|stack| - 1] == Entry(a, i) && i < |g[a]| && g[a][i] == b && b in visited
    requires stack' == stack[|stack| - 1 := Entry(a, i + 1)]
    requires result' == if b in Blocks(stack) then result + [(a, b)] else result
    ensures Explored(g, visited, stack', result', fin, order) && Blocks(stack') == Blocks(stack)
  {
    hide Searched, Counted, VisitedOnce;
    ScanCounted(g, visited, stack, result, fin, a, i, b, stack', result');
    ScanVisited(g, visited, stack, result, fin, a, i, b, stack', result');
  }

  lemma ExploreNew(g: Graph, visited: set<nat>, stack: seq<Entry>, result: seq<(nat, nat)>, fin: map<nat, nat>, order: seq<nat>,
                   a: nat, i: nat, b: nat, stack': seq<Entry>)
    requires IsGraph(g) && Explored(g, visited, stack, result, fin, order) && stack != []
    requires stack[|stack| - 1] == Entry(a, i) && i < |g[a]| && g[a][i] == b && b !in visited
    requires stack' == stack[|stack| - 1 := Entry(a, i + 1)] + [Entry(b, 0)]
    ensures Explored(g, visited + {b}, stack', result, fin, Visit(order, b)) && Blocks(stack') == Blocks(stack) + {b}
  {
    hide Searched, Counted, VisitedOnce;
    DownCounted(g, visited, stack, result, fin, a, i, b, stack');
    GoDown(g, visited, stack, result, fin, a, i, b, stack');
    VisitNext(order, visited, b);
  }

  lemma ExploreBack(g: Graph, visited: set<nat>, stack: seq<Entry>, result: seq<(nat, nat)>, fin: map<nat, nat>, order: seq<nat>, a: nat)
    requires IsGraph(g) && Explored(g, visited, stack, result, fin, order) && stack != []
    requires a < |g| && stack[|stack| - 1] == Entry(a, |g[a]|)
    ensures Explored(g, visited, stack[..|stack| - 1], result, Finish(fin, a), order)
    ensures Blocks(stack[..|stack| - 1]) == Blocks(stack) - {a}
  {
    hide Searched, Counted, VisitedOnce;
    UpCounted(g, visited, stack, result, fin, a);
    GoUp(g, visited, stack, result, fin, a);
  }

  lemma ExploreBounds(g: Graph, visited: set<nat>, stack: seq<Entry>, result: seq<(nat, nat)>, fin: map<nat, nat>, order: seq<nat>)
    requires Explored(g, visited, stack, result, fin, order)
    ensures |visited| <= |g| && forall k | 0 <= k < |stack| :: stack[k].block < |g| && stack[k].next <= |g[stack[k].block]|
  {
    SearchBounds(g, visited, stack, result, fin);
  }

  lemma ExploreEnds(g: Graph, visited: set<nat>, result: seq<(nat, nat)>, fin: map<nat, nat>, order: seq<nat>)
    requires IsGraph(g) && Explored(g, visited, [], result, fin, order)
    ensures forall i, j | 0 <= i < j < |order| :: order[i] != order[j]
    ensures forall b :: b in order <==> Reaches(g, 0, b)
    ensures ReportedExactly(g, result, fin)
    ensures forall p | CycleWithout(g, result, p) :: !Reaches(g, 0, p[0])
    ensures forall e | e in result :: Edge(g, e.0, e.1) && Reaches(g, 0, e.0) && Reaches(g, e.1, e.0)
  {
    hide Searched, Counted, Reaches, Edge, CycleWithout, ReportedExactly;
    SearchEnds(g, visited, result, fin);
    CountEnds(g, visited, result, fin);
    VisitedAll(g, order, visited);
  }

  /** The reported edges are real back edges, each on a cycle reachable from the entry; without them no cycle is left
      there. The blocks reachable from the entry are visited, each once, and no others. By the order in which blocks are
      finished, an edge is reported exactly if its target is not finished before its source, as often as it occurs. */
  method FindFunctionBackedges(g: Graph) returns (result: seq<(nat, nat)>, ghost order: seq<nat>, ghost finished: map<nat, nat>)
    requires IsGraph(g)
    ensures forall i, j | 0 <= i < j < |order| :: order[i] != order[j]
    ensures forall b :: b in order <==> Reaches(g, 0, b)
    ensures ReportedExactly(g, result, finished)
    ensures forall p | CycleWithout(g, result, p) :: !Reaches(g, 0, p[0])
    ensures forall e | e in result :: Edge(g, e.0, e.1) && Reaches(g, 0, e.0) && Reaches(g, e.1, e.0)
  {
    hide Explored, Reaches, Edge, Blocks, CycleWithout, ReportedExactly, Finish, Visit;
    result, order, finished := [], [0], map[];
    var visited: set<nat>, stack, inStack := {0}, [Entry(0, 0)], {0};
    ExploreStarts(g);
    if g[0] == [] {
      ExploreBack(g, visited, stack, result, finished, order, 0);
      finished := Finish(finished, 0);
      assert stack[..0] == [];
      ExploreEnds(g, visited, result, finished, order);
      return;
    }
    while stack != []
      invariant Explored(g, visited, stack, result, finished, order) && inStack == Blocks(stack)
      decreases 2 * (|g| - |visited|) + |stack|
    {
      ExploreBounds(g, visited, stack, result, finished, order);
      var parent, i, foundNew := stack[|stack| - 1].block, stack[|stack| - 1].next, false;
      ghost var below, was, mark := stack[..|stack| - 1], visited, stack;
      while i < |g[parent]| && !foundNew
        invariant i <= |g[parent]| && stack == below + [Entry(parent, i)]
        invariant !foundNew ==> visited == was && mark == stack
        invariant foundNew ==> 0 < i && g[parent][i - 1] !in was && visited == was + {g[parent][i - 1]}
                               && mark == below + [Entry(parent, i - 1)]
        invariant Explored(g, was, mark, result, finished, order) && inStack == Blocks(mark)
        decreases |g[parent]| - i, !foundNew
      {
        var bb := g[parent][i];
        i := i + 1;
        stack := stack[|stack| - 1 := Entry(parent, i)];
        if bb !in visited {
          visited := visited + {bb};
          foundNew := true;
        } else {
          ghost var result0 := result;
          if bb in inStack {
            // A successor on the stack: a back edge.
            result := result + [(parent, bb)];
          }
          ExploreVisited(g, was, mark, result0, finished, order, parent, i - 1, bb, stack, result);
          mark := stack;
        }
      }
      if foundNew {
        var bb := g[parent][i - 1];
        inStack := inStack + {bb};
        stack := stack + [Entry(bb, 0)];
        ExploreNew(g, was, mark, result, finished, order, parent, i - 1, bb, stack);
        order := Visit(order, bb);
        ExploreBounds(g, visited, stack, result, finished, order);
      } else {
        inStack := inStack - {parent};
        ExploreBack(g, visited, stack, result, finished, order, parent);
        finished := Finish(finished, parent);
        stack := stack[..|stack| - 1];
      }
    }
    ExploreEnds(g, visited, result, finished, order);
  }
}

/** isPotentiallyReachable: a bounded worklist search that jumps over whole loops and asks the dominator tree. */
module Reachability {
  import opened Graphs
  import opened Wrappers

  const LIMIT := 32

  /** LoopInfo: the innermost loop of a block, the parent of a loop (loops are numbered outermost first), and the
      blocks of a loop. */
  datatype LoopInfo = LoopInfo(loopFor: map<nat, nat>, parent: map<nat, nat>, blocks: map<nat, seq<nat>>)

  /** DominatorTree as its two answers. */
  datatype DomTree = DomTree(reachable: set<nat>, dominates: set<(nat, nat)>)

  function Outermost(li: LoopInfo, l: nat): nat {
    if l in li.parent && li.parent[l] < l then Outermost(li, li.parent[l]) else l
  }

  /** The outermost loop around b, if any. */
  function Outer(li: Option<LoopInfo>, b: nat): Option<nat> {
    if li.Some? && b in li.value.loopFor then Some(Outermost(li.value, li.value.loopFor[b])) else None
  }

  /** What the analyses promise: outermost loops have blocks, cover the blocks they are the outermost loop of and no
      others, and control can go from any block of a loop to any other. */
  ghost predicate LoopsOk(g: Graph, li: LoopInfo) {
    && (forall l | l in li.parent :: li.parent[l] < l)
    && (forall b | b in li.loopFor :: var l := Outermost(li, li.loopFor[b]); l in li.blocks && b in li.blocks[l])
    && (forall b, l | b in li.loopFor && l in li.blocks && b in li.blocks[l] && l !in li.parent ::
          l == Outermost(li, li.loopFor[b]))
    && (forall l, b | l in li.blocks && b in li.blocks[l] :: b in li.loopFor && b < |g|)
    && (forall l, a, b | l in li.blocks && a in li.blocks[l] && b in li.blocks[l] :: Reaches(g, a, b))
  }

  /** Reachable blocks are those the entry reaches, and a dominates b when every path from the entry to b meets a. */
  ghost predicate DomOk(g: Graph, dt: DomTree) {
    && (forall b: nat | b < |g| :: b in dt.reachable <==> Reaches(g, 0, b))
    && (forall a, b, p | (a, b) in dt.dominates && PathFromTo(g, p, 0, b) :: a in p)
  }

  method GetOutermostLoop(li: LoopInfo, b: nat) returns (l: Option<nat>)
    requires forall k | k in li.parent :: li.parent[k] < k
    ensures l == Outer(Some(li), b)
  {
    if b !in li.loopFor {
      return None;
    }
    var cur := li.loopFor[b];
    while cur in li.parent
      invariant Outermost(li, cur) == Outermost(li, li.loopFor[b])
      decreases cur
    {
      cur := li.parent[cur];
    }
    l := Some(cur);
  }

  predicate ShareLoop(li: LoopInfo, a: nat, b: nat) {
    Outer(Some(li), a).Some? && Outer(Some(li), a) == Outer(Some(li), b)
  }

  method LoopContainsBoth(li: LoopInfo, a: nat, b: nat) returns (r: bool)
    requires forall k | k in li.parent :: li.parent[k] < k
    ensures r == ShareLoop(li, a, b)
  {
    var l1 := GetOutermostLoop(li, a);
    var l2 := GetOutermostLoop(li, b);
    r := l1 != None && l1 == l2;
  }

  function Filter(succs: seq<nat>, loop: seq<nat>): (out: seq<nat>)
    ensures forall x :: x in out <==> x in succs && x !in loop
  {
    if succs == [] then []
    else (if succs[0] in loop then [] else [succs[0]]) + Filter(succs[1..], loop)
  }

  /** Successors of blocks of the loop outside it. */
  function ExitBlocks(g: Graph, loop: seq<nat>, blocks: seq<nat>): (out: seq<nat>)
    ensures forall x :: x in out <==> (exists b :: b in blocks && Edge(g, b, x)) && x !in loop
  {
    if blocks == [] then []
    else
      var here := if blocks[0] < |g| then Filter(g[blocks[0]], loop) else [];
      assert forall x :: x in here <==> Edge(g, blocks[0], x) && x !in loop;
      assert forall b :: b in blocks <==> b == blocks[0] || b in blocks[1..];
      here + ExitBlocks(g, loop, blocks[1..])
  }

  /** Where the walk goes from b. */
  function Onward(g: Graph, li: Option<LoopInfo>, b: nat): seq<nat>
    requires b < |g|
  {
    var l := Outer(li, b);
    if l.Some? && l.value in li.value.blocks then ExitBlocks(g, li.value.blocks[l.value], li.value.blocks[l.value]) else g[b]
  }

  ghost predicate Oracles(g: Graph, dt: Option<DomTree>, li: Option<LoopInfo>) {
    IsGraph(g) && (dt.Some? ==> DomOk(g, dt.value)) && (li.Some? ==> LoopsOk(g, li.value))
  }

  /** From b every step of the walk goes to a block b reaches. */
  lemma OnwardReaches(g: Graph, li: Option<LoopInfo>, b: nat)
    requires IsGraph(g) && b < |g| && (li.Some? ==> LoopsOk(g, li.value))
    ensures forall x | x in Onward(g, li, b) :: x < |g| && Reaches(g, b, x)
  {
    forall x | x in Onward(g, li, b) ensures x < |g| && Reaches(g, b, x) {
      var l := Outer(li, b);
      if l.Some? {
        var loop := li.value.blocks[l.value];
        var a :| a in loop && Edge(g, a, x);
        EdgeReaches(g, a, x);
        ReachesThrough(g, b, a, x);
      } else {
        assert Edge(g, b, x);
        EdgeReaches(g, b, x);
      }
    }
  }

  /** The blocks ruled out: the visited ones, with the loops around them. */
  ghost function Covered(g: Graph, li: Option<LoopInfo>, visited: set<nat>): set<nat> {
    set x: nat | 0 <= x < |g| && (x in visited || (Outer(li, x).Some? && exists b :: b in visited && Outer(li, b) == Outer(li, x)))
  }

  lemma CoveredIsClosed(g: Graph, li: Option<LoopInfo>, visited: set<nat>)
    requires IsGraph(g) && (li.Some? ==> LoopsOk(g, li.value)) && (forall b | b in visited :: b < |g|)
    requires forall b, x | b in visited && b < |g| && x in Onward(g, li, b) :: x in visited
    ensures forall a, x | a in Covered(g, li, visited) && Edge(g, a, x) :: x in Covered(g, li, visited)
  {
    forall a: nat, x: nat | a in Covered(g, li, visited) && Edge(g, a, x) ensures x in Covered(g, li, visited) {
      assert x < |g|;
      var l := Outer(li, a);
      if l.Some? {
        var loop := li.value.blocks[l.value];
        var b := if a in visited then a else var b :| b in visited && Outer(li, b) == Outer(li, a); b;
        assert a in loop;
        if x in loop {
          assert l.value !in li.value.parent by { OutermostIsTop(li.value, li.value.loopFor[a]); }
          assert Outer(li, x) == l;
        } else {
          assert x in Onward(g, li, b);
        }
      } else {
        assert a in visited && x in Onward(g, li, a);
      }
    }
  }

  lemma {:induction false} OutermostIsTop(li: LoopInfo, l: nat)
    requires forall k | k in li.parent :: li.parent[k] < k
    ensures Outermost(li, l) !in li.parent
    decreases l
  {
    if l in li.parent { OutermostIsTop(li, li.parent[l]); }
  }

  /** Dominance of a reachable block gives a path. */
  lemma DominatorReaches(g: Graph, dt: DomTree, a: nat, b: nat)
    requires IsGraph(g) && DomOk(g, dt) && b < |g| && b in dt.reachable && (a, b) in dt.dominates
    ensures Reaches(g, a, b)
  {
    assert Reaches(g, 0, b);
    var p :| PathFromTo(g, p, 0, b);
    var i :| 0 <= i < |p| && p[i] == a;
    var q := p[i..];
    assert PathFromTo(g, q, a, b) by {
      forall j | 0 <= j < |q| - 1 ensures Edge(g, q[j], q[j + 1]) { assert Edge(g, p[i + j], p[i + j + 1]); }
    }
  }

  /** Some start reaches b. */
  ghost predicate FromAny(g: Graph, starts: seq<nat>, b: nat) { exists w :: w in starts && Reaches(g, w, b) }

  /** There are at least 32 blocks the starts can reach. */
  ghost predicate Many(g: Graph, starts: seq<nat>) {
    exists s: set<nat> :: |s| >= 32 && forall b | b in s :: FromAny(g, starts, b)
  }

  /** The state of the walk: everything seen is reachable, and what follows the visited blocks is seen. */
  ghost predicate Walked(g: Graph, li: Option<LoopInfo>, starts: seq<nat>, visited: set<nat>, worklist: seq<nat>) {
    && (forall b | b in visited || b in worklist :: b < |g| && FromAny(g, starts, b))
    && (forall w | w in starts :: w in visited || w in worklist)
    && (forall b | b in visited :: Follows(g, li, b, visited, worklist))
  }

  ghost predicate Follows(g: Graph, li: Option<LoopInfo>, b: nat, visited: set<nat>, worklist: seq<nat>) {
    b < |g| ==> forall x | x in Onward(g, li, b) :: x in visited || x in worklist
  }

  lemma WalkStarts(g: Graph, li: Option<LoopInfo>, starts: seq<nat>)
    requires forall w | w in starts :: w < |g|
    ensures Walked(g, li, starts, {}, starts)
  {
    forall w | w in starts ensures FromAny(g, starts, w) { ReachesSelf(g, w); }
  }

  lemma WalkSkips(g: Graph, li: Option<LoopInfo>, starts: seq<nat>, visited: set<nat>, worklist: seq<nat>)
    requires Walked(g, li, starts, visited, worklist) && worklist != [] && worklist[|worklist| - 1] in visited
    ensures Walked(g, li, starts, visited, worklist[..|worklist| - 1])
  {
    hide FromAny, Onward;
    var rest := worklist[..|worklist| - 1];
    assert worklist == rest + [worklist[|worklist| - 1]];
    assert forall x :: x in worklist ==> x in rest || x in visited;
    forall b | b in visited || b in rest ensures b < |g| && FromAny(g, starts, b) {
      assert b in visited || b in worklist;
    }
    forall w | w in starts ensures w in visited || w in rest {
      assert w in visited || w in worklist;
    }
    forall b | b in visited ensures Follows(g, li, b, visited, rest) {
      assert Follows(g, li, b, visited, worklist);
    }
  }

  lemma OnwardFromAny(g: Graph, li: Option<LoopInfo>, starts: seq<nat>, b: nat)
    requires IsGraph(g) && (li.Some? ==> LoopsOk(g, li.value)) && b < |g| && FromAny(g, starts, b)
    ensures forall x | x in Onward(g, li, b) :: x < |g| && FromAny(g, starts, x)
  {
    OnwardReaches(g, li, b);
    forall x | x in Onward(g, li, b) ensures FromAny(g, starts, x) { FromAnyOn(g, starts, b, x); }
  }

  lemma WalkGoesOn(g: Graph, li: Option<LoopInfo>, starts: seq<nat>, visited: set<nat>, worklist: seq<nat>, b: nat)
    requires IsGraph(g) && (li.Some? ==> LoopsOk(g, li.value))
    requires Walked(g, li, starts, visited, worklist) && worklist != [] && worklist[|worklist| - 1] == b
    ensures b < |g| && FromAny(g, starts, b)
    ensures Walked(g, li, starts, visited + {b}, worklist[..|worklist| - 1] + Onward(g, li, b))
  {
    hide FromAny, Onward, Reaches, LoopsOk, IsGraph;
    assert b in worklist;
    OnwardFromAny(g, li, starts, b);
    var rest := worklist[..|worklist| - 1];
    var next := Onward(g, li, b);
    var worklist' := rest + next;
    assert forall x :: x in worklist <==> x in rest || x == b by { assert worklist == rest + [b]; }
    assert forall x :: x in worklist' <==> x in rest || x in next;
    forall c | c in visited + {b} ensures Follows(g, li, c, visited + {b}, worklist') {
      if c != b { assert Follows(g, li, c, visited, worklist); }
    }
  }

  /** A finished walk that never met the stop block, nor its loop, has ruled out every path. */
  lemma WalkEnds(g: Graph, li: Option<LoopInfo>, starts: seq<nat>, visited: set<nat>, stop: nat)
    requires IsGraph(g) && (li.Some? ==> LoopsOk(g, li.value)) && stop < |g| && Walked(g, li, starts, visited, [])
    requires forall b | b in visited :: b != stop && !(li.Some? && ShareLoop(li.value, b, stop))
    ensures !FromAny(g, starts, stop)
  {
    if FromAny(g, starts, stop) {
      var w :| w in starts && Reaches(g, w, stop);
      var p :| PathFromTo(g, p, w, stop);
      forall b, x | b in visited && b < |g| && x in Onward(g, li, b) ensures x in visited {
        assert Follows(g, li, b, visited, []);
      }
      CoveredIsClosed(g, li, visited);
      assert w in Covered(g, li, visited);
      NeverLeaves(g, Covered(g, li, visited), p);
    }
  }

  lemma LoopReaches(g: Graph, li: LoopInfo, a: nat, b: nat)
    requires LoopsOk(g, li) && ShareLoop(li, a, b)
    ensures Reaches(g, a, b)
  {
  }

  lemma LimitReached(g: Graph, li: Option<LoopInfo>, starts: seq<nat>, visited: set<nat>, worklist: seq<nat>)
    requires Walked(g, li, starts, visited, worklist) && |visited| >= LIMIT
    ensures Many(g, starts)
  {
    assert forall b | b in visited :: FromAny(g, starts, b);
  }

  /** False only if no path exists; true only if one does, or the search was given up. */
  method IsPotentiallyReachableInner(g: Graph, starts: seq<nat>, stop: nat, dt0: Option<DomTree>, li: Option<LoopInfo>)
      returns (r: bool)
    requires Oracles(g, dt0, li) && stop < |g| && starts != [] && forall w | w in starts :: w < |g|
    ensures !r ==> !FromAny(g, starts, stop)
    ensures r ==> FromAny(g, starts, stop) || Many(g, starts)
  {
    hide Reaches, FromAny, Many, Walked, ShareLoop, DomOk, Onward;
    var dt := if dt0.Some? && stop !in dt0.value.reachable then None else dt0;
    var limit := LIMIT;
    var visited: set<nat> := {};
    var worklist := starts;
    WalkStarts(g, li, starts);
    while worklist != []
      invariant Walked(g, li, starts, visited, worklist) && (forall b | b in visited :: b < |g|)
      invariant forall b | b in visited :: b != stop && !(li.Some? && ShareLoop(li.value, b, stop))
      invariant limit > 0 && |visited| + limit == LIMIT
      decreases |g| - |visited|, |worklist|
    {
      ghost var old_ := worklist;
      var bb := worklist[|worklist| - 1];
      worklist := worklist[..|worklist| - 1];
      if bb in visited {
        WalkSkips(g, li, starts, visited, old_);
        continue;
      }
      WalkGoesOn(g, li, starts, visited, old_, bb);
      visited := visited + {bb};
      SmallSet(|g|, visited);
      if bb == stop {
        return true;
      }
      if dt.Some? && (bb, stop) in dt.value.dominates {
        DominatorReaches(g, dt.value, bb, stop);
        FromAnyOn(g, starts, bb, stop);
        return true;
      }
      if li.Some? {
        var both := LoopContainsBoth(li.value, bb, stop);
        if both {
          LoopReaches(g, li.value, bb, stop);
          FromAnyOn(g, starts, bb, stop);
          return true;
        }
      }
      limit := limit - 1;
      if limit == 0 {
        LimitReached(g, li, starts, visited, worklist + Onward(g, li, bb));
        return true;
      }
      var outer := None;
      if li.Some? {
        outer := GetOutermostLoop(li.value, bb);
      }
      OnwardIs(g, li, bb);
      if outer.Some? {
        worklist := worklist + ExitBlocks(g, li.value.blocks[outer.value], li.value.blocks[outer.value]);
      } else {
        worklist := worklist + g[bb];
      }
    }
    WalkEnds(g, li, starts, visited, stop);
    return false;
  }

  lemma OnwardIs(g: Graph, li: Option<LoopInfo>, b: nat)
    requires b < |g| && (li.Some? ==> LoopsOk(g, li.value))
    ensures Outer(li, b).None? ==> Onward(g, li, b) == g[b]
    ensures Outer(li, b).Some? ==>
              && Outer(li, b).value in li.value.blocks
              && Onward(g, li, b) == ExitBlocks(g, li.value.blocks[Outer(li, b).value], li.value.blocks[Outer(li, b).value])
  {
  }

  /** Block to block: when fewer than 32 blocks can be reached, the answer is exactly whether a path exists. */
  method IsPotentiallyReachable(g: Graph, a: nat, b: nat, dt: Option<DomTree>, li: Option<LoopInfo>) returns (r: bool)
    requires Oracles(g, dt, li) && a < |g| && b < |g|
    ensures !r ==> !Reaches(g, a, b)
    ensures r ==> Reaches(g, a, b) || Many(g, [a])
  {
    assert forall x :: FromAny(g, [a], x) <==> Reaches(g, a, x);
    r := IsPotentiallyReachableInner(g, [a], b, dt, li);
  }

  /** Instruction j of block b can run after instruction i of block a has been reached: further down the same block,
      or at the end of a path of at least one edge. */
  ghost predicate InstrReaches(g: Graph, a: nat, i: nat, b: nat, j: nat) {
    (a == b && i <= j) || exists x :: Edge(g, a, x) && Reaches(g, x, b)
  }

  /** Instruction to instruction; `size` is the length of a's block. The entry block has no predecessors. */
  method IsInstructionPotentiallyReachable(g: Graph, a: nat, i: nat, b: nat, j: nat, size: nat,
                                           dt: Option<DomTree>, li: Option<LoopInfo>)
      returns (r: bool)
    requires Oracles(g, dt, li) && a < |g| && b < |g| && i < size && (a == b ==> j < size)
    requires forall x: nat :: !Edge(g, x, 0)
    ensures !r ==> !InstrReaches(g, a, i, b, j)
    ensures r ==> || InstrReaches(g, a, i, b, j) || Many(g, if a == b then g[a] else [a])
                  || (a == b && li.Some? && a in li.value.loopFor) || (a == 0 && b != 0)
  {
    hide Many;
    var worklist := [];
    if a == b {
      if li.Some? && a in li.value.loopFor {
        return true;
      }
      var at := i;
      while at < size
        invariant i <= at <= size && (j < i || at <= j < size)
      {
        if at == j {
          return true;
        }
        at := at + 1;
      }
      if a == 0 {
        EntryIsNotReached(g);
        return false;
      }
      worklist := worklist + g[a];
      if worklist == [] {
        return false;
      }
    } else {
      worklist := worklist + [a];
    }
    if a == 0 {
      return true;
    }
    if b == 0 {
      EntryIsNotReached(g);
      return false;
    }
    assert worklist == if a == b then g[a] else [a];
    r := IsPotentiallyReachableInner(g, worklist, b, dt, li);
    if !r && InstrReaches(g, a, i, b, j) {
      WorklistReaches(g, a, i, b, j, worklist);
    }
    if r && FromAny(g, worklist, b) {
      WorklistRuns(g, a, i, b, j, worklist);
    }
  }

  lemma WorklistRuns(g: Graph, a: nat, i: nat, b: nat, j: nat, worklist: seq<nat>)
    requires IsGraph(g) && a < |g| && FromAny(g, worklist, b)
    requires if a == b then worklist == g[a] else worklist == [a]
    ensures InstrReaches(g, a, i, b, j)
  {
    var w :| w in worklist && Reaches(g, w, b);
    if a == b {
      assert Edge(g, a, w);
    } else {
      var p :| PathFromTo(g, p, a, b);
      assert Edge(g, p[0], p[0 + 1]);
      var q := p[1..];
      forall k | 0 <= k < |q| - 1 ensures Edge(g, q[k], q[k + 1]) { assert Edge(g, p[k + 1], p[k + 1 + 1]); }
      assert PathFromTo(g, q, p[1], b);
    }
  }

  lemma WorklistReaches(g: Graph, a: nat, i: nat, b: nat, j: nat, worklist: seq<nat>)
    requires IsGraph(g) && a < |g| && InstrReaches(g, a, i, b, j)
    requires if a == b then worklist == g[a] && j < i else worklist == [a]
    ensures FromAny(g, worklist, b)
  {
    var x :| Edge(g, a, x) && Reaches(g, x, b);
    if a == b {
      assert x in worklist;
    } else {
      EdgeReaches(g, a, x);
      ReachesThrough(g, a, x, b);
      assert a in worklist;
    }
  }

  ghost function NotEntry(n: nat): (s: set<nat>)
    ensures forall x :: x in s <==> 0 < x < n
  {
    if n <= 1 then {} else NotEntry(n - 1) + {n - 1}
  }

  lemma EntryIsNotReached(g: Graph)
    requires IsGraph(g) && forall x: nat :: !Edge(g, x, 0)
    ensures forall a: nat, x: nat | Edge(g, a, x) :: !Reaches(g, x, 0)
  {
    forall a: nat, x: nat, b: nat | Edge(g, a, x) && Reaches(g, x, b) ensures b != 0 {
      var p :| PathFromTo(g, p, x, b);
      NeverLeaves(g, NotEntry(|g|), p);
    }
  }

  lemma FromAnyOn(g: Graph, starts: seq<nat>, a: nat, b: nat)
    requires FromAny(g, starts, a) && Reaches(g, a, b)
    ensures FromAny(g, starts, b)
  {
    var w :| w in starts && Reaches(g, w, a);
    ReachesThrough(g, w, a, b);
  }
}
