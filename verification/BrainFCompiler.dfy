/** The one-pass compiler: a lexer with one symbol of lookahead, recursive over loops, writing into blocks
    whose phis are finished when the loop is. */
module BrainFCompiler {
  import opened Wrappers
  import opened BrainFLanguage
  import opened BrainFMachine
  import opened BrainFTranslation
  import opened BrainFForm
  import opened BrainFCorrectness
  import opened BrainFSimulation

  newtype int32 = x: int | -0x8000_0000 <= x < 0x8000_0000

  // Text

  function SymbolOf(c: char): Symbol {
    if IsChange(c) then SymChange else if IsMove(c) then SymMove else if c == ',' then SymRead
    else if c == '.' then SymWrite else if c == '[' then SymLoop else if c == ']' then SymEndLoop else SymNone
  }

  lemma {:induction false} NetSnoc(text: string, s: nat, e: nat)
    requires s <= e < |text|
    ensures Net(text, s, e + 1) == Net(text, s, e) + Delta(text[e])
    decreases e - s
  {
    if s < e { NetSnoc(text, s + 1, e); }
  }

  /** Text without brackets changes no bracket scan. */
  lemma {:induction false} SkipFlat(text: string, s: nat, e: nat, d: nat)
    requires s <= e <= |text| && forall i :: s <= i < e ==> text[i] != '[' && text[i] != ']'
    ensures Close(text, s, d) == Close(text, e, d) && Balanced(text, s, d) == Balanced(text, e, d)
    decreases e - s
  {
    if s < e { SkipFlat(text, s + 1, e, d); }
  }

  /** A token without brackets changes no bracket scan. */
  lemma StraightSkips(text: string, s: nat, t: Token, d: nat)
    requires TokenAt(text, s, t) && t.sym in {SymRead, SymWrite, SymMove, SymChange}
    ensures Close(text, s, 0) == Close(text, t.end, 0) && Balanced(text, s, d) == Balanced(text, t.end, d)
  {
    SkipFlat(text, s, t.end, 0);
    SkipFlat(text, s, t.end, d);
  }

  lemma OpenSkips(text: string, s: nat, t: Token, d: nat)
    requires TokenAt(text, s, t) && t.sym == SymLoop
    ensures s < t.end <= |text| && text[t.end - 1] == '[' && Balanced(text, s, d) == Balanced(text, t.end, d + 1)
    ensures var q := Close(text, t.end, 0); q.Some? ==> Close(text, s, 0) == Close(text, q.value + 1, 0)
  {
    SkipFlat(text, s, t.end - 1, 0);
    SkipFlat(text, s, t.end - 1, d);
    CloseOuter(text, t.end, 0);
  }

  lemma CloseSkips(text: string, s: nat, t: Token, d: nat)
    requires TokenAt(text, s, t) && t.sym == SymEndLoop
    ensures s < t.end <= |text| && Close(text, s, 0) == Some(t.end - 1)
    ensures Balanced(text, s, d) == (d > 0 && Balanced(text, t.end, d - 1))
  {
    SkipFlat(text, s, t.end - 1, 0);
    SkipFlat(text, s, t.end - 1, d);
  }

  lemma EofSkips(text: string, s: nat, t: Token, d: nat)
    requires TokenAt(text, s, t) && t.sym == SymEof
    ensures Balanced(text, s, d) == (d == 0)
  {
    SkipFlat(text, s, |text|, d);
  }

  // Proof state

  predicate SubMap<K, V(==)>(m: map<K, V>, m': map<K, V>) { forall k :: k in m ==> k in m' && m'[k] == m[k] }

  predicate SubAtlas(A: Atlas, A': Atlas) {
    SubMap(A.pts, A'.pts) && SubMap(A.toks, A'.toks) && SubMap(A.loops, A'.loops)
  }

  predicate Stable(refs: set<nat>, blocks: seq<Block>, blocks': seq<Block>) {
    |blocks| <= |blocks'| && forall b :: b in refs ==> b < |blocks| && blocks[b] <= blocks'[b]
  }

  /** Every token recorded so far is translated, by code in blocks of `refs` only. */
  ghost predicate Good(text: string, checked: bool, blocks: seq<Block>, A: Atlas, refs: set<nat>) {
    && (forall b :: b in refs ==> b < |blocks|)
    && (forall o :: o in A.loops ==> A.loops[o].test in refs && A.loops[o].exit in refs)
    && (forall s {:trigger Translated(text, checked, blocks, A, s)} :: s in A.toks ==>
          Translated(text, checked, blocks, A, s) && A.pts[s].block in refs)
  }

  lemma StaysLoop(text: string, blocks: seq<Block>, A: Atlas, refs: set<nat>, blocks': seq<Block>, A': Atlas, o: nat)
    requires LoopPoints(text, A, o) && LoopCode(blocks, A.loops[o])
    requires A.loops[o].test in refs && A.loops[o].exit in refs
    requires Stable(refs, blocks, blocks') && SubAtlas(A, A')
    ensures LoopPoints(text, A', o) && LoopCode(blocks', A'.loops[o]) && A'.loops[o] == A.loops[o]
  {
  }

  /** Finished code stays finished: later emission only appends to the blocks it uses. */
  lemma StaysTranslated(text: string, checked: bool, blocks: seq<Block>, A: Atlas, refs: set<nat>, blocks': seq<Block>, A': Atlas, s: nat)
    requires Translated(text, checked, blocks, A, s) && A.pts[s].block in refs
    requires forall o :: o in A.loops ==> A.loops[o].test in refs && A.loops[o].exit in refs
    requires Stable(refs, blocks, blocks') && SubAtlas(A, A')
    ensures Translated(text, checked, blocks', A', s)
  {
    var t, p := A.toks[s], A.pts[s];
    assert A'.toks[s] == t && A'.pts[s] == p;
    var b, b' := blocks[p.block], blocks'[p.block];
    assert b <= b';
    assert forall i :: 0 <= i < |b| ==> b[i] == b'[i];
    if t.sym == SymLoop {
      StaysLoop(text, blocks, A, refs, blocks', A', t.end - 1);
    } else if t.sym == SymEndLoop {
      StaysLoop(text, blocks, A, refs, blocks', A', Open(text, t.end - 1, 0).value);
    }
  }

  /** Only the end of cur, and a block after the fixed ones, may change. */
  lemma StaysFixed(blocks: seq<Block>, blocks': seq<Block>, mem: nat, checked: bool, cur: nat, t: nat)
    requires FixedBlocks(blocks, mem, checked) && |blocks| <= |blocks'| && cur < |blocks| && blocks[cur] <= blocks'[cur]
    requires cur != END && (checked ==> cur != ABERROR) && t != END && (checked ==> t != ABERROR) && (t == 0 ==> t == cur)
    requires forall b :: 0 <= b < |blocks| && b != cur && b != t ==> blocks'[b] == blocks[b]
    ensures FixedBlocks(blocks', mem, checked)
  {
  }

  lemma StaysStable(refs: set<nat>, blocks: seq<Block>, blocks': seq<Block>, cur: nat, t: nat)
    requires |blocks| <= |blocks'| && cur < |blocks| && blocks[cur] <= blocks'[cur] && t !in refs && forall b :: b in refs ==> b < |blocks|
    requires forall b :: 0 <= b < |blocks| && b != cur && b != t ==> blocks'[b] == blocks[b]
    ensures Stable(refs, blocks, blocks')
  {
  }

  /** All that changed is the end of cur. */
  lemma Kept(blocks: seq<Block>, blocks': seq<Block>, mem: nat, checked: bool, refs: set<nat>, cur: nat)
    requires FixedBlocks(blocks, mem, checked) && |blocks| <= |blocks'| && cur < |blocks| && blocks[cur] <= blocks'[cur]
    requires cur != END && (checked ==> cur != ABERROR) && forall b :: b in refs ==> b < |blocks|
    requires forall b :: 0 <= b < |blocks| && b != cur ==> blocks'[b] == blocks[b]
    ensures FixedBlocks(blocks', mem, checked) && Stable(refs, blocks, blocks') && forall b :: b in refs ==> b < |blocks'|
  {
    StaysFixed(blocks, blocks', mem, checked, cur, cur);
  }

  lemma GoodStable(text: string, checked: bool, blocks: seq<Block>, A: Atlas, refs: set<nat>)
    requires Good(text, checked, blocks, A, refs)
    ensures Stable(refs, blocks, blocks) && (forall b :: b in refs ==> b < |blocks|)
    ensures forall o :: o in A.loops ==> A.loops[o].test in refs && A.loops[o].exit in refs
  {
  }

  lemma StaysGood(text: string, checked: bool, blocks: seq<Block>, A: Atlas, refs: set<nat>,
                  blocks': seq<Block>, A': Atlas, refs': set<nat>, s: nat)
    requires Good(text, checked, blocks, A, refs) && Stable(refs, blocks, blocks') && SubAtlas(A, A')
    requires refs <= refs' && (forall b :: b in refs' ==> b < |blocks'|)
    requires A'.toks.Keys <= A.toks.Keys + {s}
    requires s in A'.toks ==> Translated(text, checked, blocks', A', s) && A'.pts[s].block in refs'
    requires forall o :: o in A'.loops ==> A'.loops[o].test in refs' && A'.loops[o].exit in refs'
    ensures Good(text, checked, blocks', A', refs')
  {
    forall k | k in A'.toks
      ensures Translated(text, checked, blocks', A', k) && A'.pts[k].block in refs'
    {
      if k != s {
        assert Translated(text, checked, blocks, A, k);
        StaysTranslated(text, checked, blocks, A, refs, blocks', A', k);
      }
    }
  }

  lemma LoopCloses(text: string, checked: bool, blocks: seq<Block>, A: Atlas, refs: set<nat>,
                   blocks': seq<Block>, A': Atlas, refs': set<nat>, s: nat, o: nat)
    requires Good(text, checked, blocks, A, refs) && Stable(refs, blocks, blocks')
    requires s in A'.toks && TokenAt(text, s, A'.toks[s]) && A'.toks[s].sym == SymEndLoop
    requires o in A'.loops && A' == Atlas(A.pts[A'.toks[s].end := Point(A'.loops[o].exit, 1, A'.loops[o].phi1)],
                                          A.toks[s := A'.toks[s]], A.loops[o := A'.loops[o]])
    requires refs' == refs + {A'.loops[o].test, A'.loops[o].exit} && forall b :: b in refs' ==> b < |blocks'|
    requires s !in A.toks && o !in A.loops && A'.toks[s].end !in A.pts
    requires o < |text| && text[o] == '[' && Close(text, o + 1, 0) == Some(A'.toks[s].end - 1)
    requires s in A.pts && A'.loops[o].back == A.pts[s] && A.pts[s].block in refs
    requires A.pts[s].idx < |blocks'[A.pts[s].block]| && blocks'[A.pts[s].block][A.pts[s].idx] == Br(A'.loops[o].test)
    requires o + 1 in A.pts && A.pts[o + 1] == Point(A'.loops[o].body, 0, A'.loops[o].phi) && LoopCode(blocks', A'.loops[o])
    ensures Good(text, checked, blocks', A', refs') && LoopPoints(text, A', o)
  {
    BracketsPair(text, o, A'.toks[s].end - 1);
    StaysGood(text, checked, blocks, A, refs, blocks', A', refs', s);
  }

  /** The compiler's state, as a value. */
  datatype Snapshot = Snapshot(blocks: seq<Block>, cur: nat, nextreg: nat, A: Atlas, refs: set<nat>, tests: set<nat>)

  /** What compiling text[from..to] may have done: it recorded tokens and loops there and nowhere else, appended to
      the current block, and touched no other block that existed, except the test block of a loop it closed; other loops
      are as open as before. */
  ghost predicate Stretch(a: Snapshot, from: nat, b: Snapshot, to: nat, closed: Option<(nat, nat)>) {
    && from <= to && SubAtlas(a.A, b.A) && a.nextreg <= b.nextreg
    && b.tests == a.tests - (if closed.Some? then {closed.value.1} else {})
    && (from < to ==> from in b.A.toks)
    && b.A.pts.Keys <= b.A.toks.Keys + a.A.pts.Keys + {to}
    && (forall l :: l in b.A.loops ==> l in a.A.loops || from <= l < to || (closed.Some? && l == closed.value.0))
    && (forall k :: k in b.A.toks ==> k in a.A.toks || from <= k < to)
    && |a.blocks| <= |b.blocks| && (b.cur == a.cur || b.cur >= |a.blocks|)
    && a.refs <= b.refs
    && (forall r :: r in b.refs ==> r in a.refs || r >= |a.blocks| || (closed.Some? && r == closed.value.1))
    && (forall i :: 0 <= i < |a.blocks| && i != a.cur && !(closed.Some? && i == closed.value.1) ==> b.blocks[i] == a.blocks[i])
  }

  predicate LoopsBelow(A: Atlas, s: nat) { forall l :: l in A.loops ==> l < s }

  lemma StretchStarts(a: Snapshot, s: nat)
    ensures Stretch(a, s, a, s, None)
  {
  }

  lemma StretchGives(a: Snapshot, from: nat, b: Snapshot, to: nat)
    requires Stretch(a, from, b, to, None)
    ensures LoopsBelow(a.A, from) ==> LoopsBelow(b.A, to)
    ensures SubAtlas(a.A, b.A) && (from < to ==> from in b.A.toks) && b.A.pts.Keys <= b.A.toks.Keys + a.A.pts.Keys + {to}
    ensures a.tests == b.tests && a.refs <= b.refs && |a.blocks| <= |b.blocks| && (b.cur == a.cur || b.cur >= |a.blocks|)
  {
  }

  lemma StretchOn(a: Snapshot, from: nat, b: Snapshot, m: nat, c: Snapshot, to: nat, closed: Option<(nat, nat)>)
    requires Stretch(a, from, b, m, None) && Stretch(b, m, c, to, closed)
    requires closed.Some? ==> closed.value.1 < |a.blocks|
    ensures Stretch(a, from, c, to, closed)
  {
  }

  /** The loop at o is open: its test block holds one half of a phi. */
  ghost predicate Opened(text: string, checked: bool, a: Snapshot, o: nat, bp: Point, phi: Reg, testbb: nat) {
    && o < |text| && text[o] == '[' && o !in a.A.loops
    && testbb < |a.blocks| && testbb !in a.refs && bp.block < testbb && testbb != a.cur && testbb > END && (checked ==> testbb > ABERROR)
    && ARRMAX < phi < a.nextreg && testbb in a.tests && (forall u | u in a.tests :: u <= testbb)
    && a.blocks[testbb] == [Phi(phi, [(bp.head, bp.block)])]
  }

  lemma StaysOpened(text: string, checked: bool, a: Snapshot, from: nat, b: Snapshot, to: nat, o: nat, bp: Point, phi: Reg, testbb: nat)
    requires Opened(text, checked, a, o, bp, phi, testbb) && Stretch(a, from, b, to, None) && o < from
    ensures Opened(text, checked, b, o, bp, phi, testbb)
  {
  }

  lemma TokenEnds(text: string, s: nat, t: Token)
    requires TokenAt(text, s, t)
    ensures s <= t.end <= |text| && (t.sym == SymLoop ==> s < t.end && text[t.end - 1] == '[')
  {
  }

  lemma StraightStretch(a: Snapshot, s: nat, b: Snapshot, t: Token)
    requires s < t.end && (forall k :: k in a.A.pts ==> k <= s) && s !in a.A.toks && s in a.A.pts && a.A.toks.Keys <= a.A.pts.Keys
    requires t.end in b.A.pts && b.A == Atlas(a.A.pts[t.end := b.A.pts[t.end]], a.A.toks[s := t], a.A.loops)
    requires a.nextreg <= b.nextreg && b.tests == a.tests && |a.blocks| <= |b.blocks|
    requires b.refs == a.refs + {b.cur} && (b.cur == a.cur || b.cur >= |a.blocks|) && a.cur in a.refs
    requires forall i :: 0 <= i < |a.blocks| && i != a.cur ==> b.blocks[i] == a.blocks[i]
    ensures Stretch(a, s, b, t.end, None)
  {
  }

  lemma CloseStretch(a: Snapshot, s: nat, b: Snapshot, t: Token, o: nat, testbb: nat)
    requires s < t.end && t.end !in a.A.pts && s !in a.A.toks && o !in a.A.loops && a.A.toks.Keys <= a.A.pts.Keys
    requires t.end in b.A.pts && o in b.A.loops && a.nextreg <= b.nextreg
    requires b.A == Atlas(a.A.pts[t.end := b.A.pts[t.end]], a.A.toks[s := t], a.A.loops[o := b.A.loops[o]])
    requires |a.blocks| <= |b.blocks| && b.cur >= |a.blocks| && b.refs == a.refs + {b.cur, testbb}
    requires b.tests == a.tests - {testbb}
    requires forall i :: 0 <= i < |a.blocks| && i != a.cur && i != testbb ==> b.blocks[i] == a.blocks[i]
    ensures Stretch(a, s, b, t.end, Some((o, testbb)))
  {
  }

  /** From a to b a loop was begun at s: a branch to a new test block, and a new body block to go on in. */
  ghost predicate LoopBegun(a: Snapshot, s: nat, b: Snapshot, start: nat, bp: Point, phi: Reg, testbb: nat) {
    && testbb == |a.blocks| && b.cur == testbb + 1 && |b.blocks| == testbb + 2
    && s in a.A.pts && s < start && start !in a.A.pts && (forall k :: k in a.A.pts ==> k <= s) && s !in a.A.toks
    && b.A == Atlas(a.A.pts[start := Point(b.cur, 0, phi)], a.A.toks, a.A.loops)
    && bp == a.A.pts[s] && bp.block < testbb && bp.idx < |b.blocks[bp.block]| && b.blocks[bp.block][bp.idx] == Br(testbb)
    && bp.block in a.refs && b.refs == a.refs + {b.cur} && a.nextreg <= b.nextreg
    && b.tests == a.tests + {testbb} && testbb !in a.tests
    && (forall i :: 0 <= i < |a.blocks| && i != a.cur ==> b.blocks[i] == a.blocks[i])
  }

  /** A loop opened, its body compiled and closed, and its '[' recorded: a stretch of text like any other. */
  lemma LoopStretch(a: Snapshot, s: nat, b: Snapshot, start: nat, c: Snapshot, to: nat, d: Snapshot, o: nat,
                    bp: Point, phi: Reg, testbb: nat, t: Token)
    requires LoopBegun(a, s, b, start, bp, phi, testbb) && s <= o < start < to
    requires Stretch(b, start, c, to, Some((o, testbb))) && d == c.(A := c.A.(toks := c.A.toks[s := t]))
    ensures Stretch(a, s, d, to, None)
  {
  }

  /** The '[' of a finished loop is translated. */
  lemma OpenTranslated(text: string, checked: bool, a: Snapshot, s: nat, b: Snapshot, c: Snapshot, to: nat,
                       bp: Point, phi: Reg, testbb: nat, t: Token)
    requires LoopBegun(a, s, b, t.end, bp, phi, testbb) && TokenAt(text, s, t) && t.sym == SymLoop
    requires Stretch(b, t.end, c, to, Some((t.end - 1, testbb)))
    requires LoopPoints(text, c.A, t.end - 1) && LoopCode(c.blocks, c.A.loops[t.end - 1])
    requires c.A.loops[t.end - 1].before == bp && c.A.loops[t.end - 1].test == testbb
    ensures s !in c.A.toks && s in c.A.pts && c.A.pts[s] == bp && bp.block in c.refs
    ensures Translated(text, checked, c.blocks, c.A.(toks := c.A.toks[s := t]), s)
  {
    assert s in b.A.pts && b.A.pts[s] == bp;
    assert c.blocks[bp.block] == b.blocks[bp.block];
  }

  lemma TestsExist(blocks: seq<Block>, cur: nat, tests: set<nat>, next: Reg, head: Reg, checked: bool)
    requires Formed(blocks, cur, tests, next, head, checked)
    ensures forall u | u in tests :: u < |blocks|
  {
    var avail :| Building(blocks, cur, tests, next, head, checked, avail);
    forall u | u in tests ensures u < |blocks| { assert LoopForm(blocks, tests, avail, checked, cur, u); }
  }

  /** What finishing a loop leaves is all that CloseForm speaks of. */
  lemma ClosedBlocks(blocks: seq<Block>, cur: nat, r: Reg, head: Reg, phi: Reg, t: nat, bp: Point, now: seq<Block>)
    requires cur < |blocks| && t < |blocks| && t != cur && blocks[t] == [Phi(phi, [(bp.head, bp.block)])] && |now| == |blocks| + 1
    requires now[cur] == blocks[cur] + [Br(t)] && now[|blocks|] == [Phi(r + 2, [(phi, t)])]
    requires now[t] == [Phi(phi, [(bp.head, bp.block), (head, cur)]), Load(r, phi), IcmpEqZero(r + 1, r), CondBr(r + 1, |blocks|, t + 1)]
    requires forall b :: 0 <= b < |blocks| && b != cur && b != t ==> now[b] == blocks[b]
    ensures var incoming := blocks[t][0].incoming + [(head, cur)];
            now == blocks[cur := blocks[cur] + [Br(t)]]
                         [t := [Phi(phi, incoming), Load(r, phi), IcmpEqZero(r + 1, r), CondBr(r + 1, |blocks|, t + 1)]]
                   + [[Phi(r + 2, [(phi, t)])]]
  {
    assert blocks[t][0].incoming + [(head, cur)] == [(bp.head, bp.block), (head, cur)];
  }

  /** Where the lexer stands: at s, or one character past it when a command is held back. */
  predicate Pending(text: string, pos: nat, s: nat, sym: Symbol, val: int) {
    && s <= pos <= |text|
    && match sym
       case SymNone => pos == s
       case SymEof => pos == s == |text|
       case _ => pos == s + 1 && SymbolOf(text[s]) == sym && (sym in {SymMove, SymChange} ==> val == Delta(text[s]))
  }

  lemma PendingStays(text: string, pos: nat, t: Token, end: nat, sym: Symbol, val: int)
    requires (end == pos <= |text| && sym == SymNone) || (end == t.end && Pending(text, pos, t.end, sym, val))
    ensures Pending(text, pos, end, sym, val)
  {
  }

  /** A run being read: what is known of the text from s to pos. */
  predicate Reading(text: string, s: nat, first: nat, pos: nat, sym: Symbol, val: int) {
    && s <= pos <= |text|
    && match sym
       case SymNone => Comments(text, s, pos)
       case SymChange =>
         && s <= first < pos && Comments(text, s, first) && IsChange(text[first])
         && (forall i :: s <= i < pos ==> IsChange(text[i]) || IsComment(text[i])) && val == Net(text, s, pos)
       case SymMove =>
         && s <= first < pos && Comments(text, s, first) && IsMove(text[first])
         && (forall i :: s <= i < pos ==> IsMove(text[i]) || IsComment(text[i])) && val == Net(text, s, pos)
       case _ => false
  }

  lemma {:induction false} NetOfComments(text: string, s: nat, e: nat)
    requires s <= e <= |text| && Comments(text, s, e)
    ensures Net(text, s, e) == 0
    decreases e - s
  {
    if s < e { NetOfComments(text, s + 1, e); }
  }

  /** One more character of the run, or a comment. */
  lemma ReadingOn(text: string, s: nat, first: nat, p: nat, sym: Symbol, val: int)
    requires Reading(text, s, first, p, sym, val) && p < |text|
    requires IsComment(text[p]) || SymbolOf(text[p]) == sym
    ensures Reading(text, s, first, p + 1, sym, val + Delta(text[p]))
  {
    if sym != SymNone { NetSnoc(text, s, p); }
  }

  lemma ReadingStarts(text: string, s: nat, p: nat)
    requires s <= p < |text| && Comments(text, s, p) && (IsChange(text[p]) || IsMove(text[p]))
    ensures Reading(text, s, p, p + 1, SymbolOf(text[p]), Delta(text[p]))
  {
    NetOfComments(text, s, p);
    NetSnoc(text, s, p);
  }

  lemma ReadingEnds(text: string, s: nat, first: nat, p: nat, sym: Symbol, val: int)
    requires Reading(text, s, first, p, sym, val)
    requires p < |text| ==> !IsComment(text[p]) && SymbolOf(text[p]) != sym
    ensures sym != SymNone ==> TokenAt(text, s, Token(sym, val, first, p))
    ensures sym == SymNone && p == |text| ==> TokenAt(text, s, Token(SymEof, val, first, p))
    ensures sym == SymNone && p < |text| && !IsChange(text[p]) && !IsMove(text[p]) ==>
              TokenAt(text, s, Token(SymbolOf(text[p]), 0, p, p + 1))
  {
  }

  lemma ReadingBound(text: string, s: nat, first: nat, p: nat, sym: Symbol, val: int)
    requires Reading(text, s, first, p, sym, val) && sym != SymNone
    ensures s - p <= val <= p - s
  {
    NetBound(text, s, p);
  }

  class BrainF {
    const text: string
    const memtotal: nat
    const checked: bool
    var pos: nat
    var blocks: seq<Block>
    var cur: nat
    var curhead: Reg
    var nextreg: Reg
    ghost var A: Atlas
    ghost var refs: set<nat>
    ghost var tests: set<nat>

    ghost predicate Valid()
      reads this
    {
      && |text| <= INT_MAX && pos <= |text|
      && FixedBlocks(blocks, memtotal, checked)
      && cur < |blocks| && cur != END && (checked ==> cur != ABERROR)
      && ARRMAX < curhead < nextreg
      && 0 in A.pts && A.pts[0] == Point(0, |HeaderCode(memtotal, checked)|, HEAD)
      && A.toks.Keys <= A.pts.Keys && Good(text, checked, blocks, A, refs)
      && cur in refs && END !in refs && (checked ==> ABERROR !in refs)
    }

    /** Text up to s is compiled, and its code, in the form of a legal function so far, ends at the insertion point. */
    ghost predicate At(s: nat)
      reads this
    {
      && s <= |text| && s in A.pts && A.pts[s] == Point(cur, if cur < |blocks| then |blocks[cur]| else 0, curhead)
      && (forall k :: k in A.pts ==> k <= s) && s !in A.toks
      && Formed(blocks, cur, tests, nextreg, curhead, checked)
    }

    constructor (text: string, memtotal: nat, checked: bool)
      requires |text| <= INT_MAX
      ensures tests == {}
      ensures Valid() && At(0) && pos == 0 && A.pts.Keys == {0} && A.toks == map[] && A.loops == map[]
      ensures this.text == text && this.memtotal == memtotal && this.checked == checked
    {
      this.text, this.memtotal, this.checked := text, memtotal, checked;
      pos, cur, curhead, nextreg := 0, 0, HEAD, HEAD + 1;
      var entry := [Malloc(ARR, memtotal), Memset(ARR, 0, memtotal)];
      if checked {
        entry := entry + [Gep(ARRMAX, ARR, memtotal)];
      }
      entry := entry + [Gep(HEAD, ARR, memtotal / 2)];
      blocks := [entry, [FreeTape(ARR), RetVoid]] + (if checked then [[Puts, Br(END)]] else []);
      A := Atlas(map[0 := Point(0, |entry|, HEAD)], map[], map[]);
      refs, tests := {0}, {};
      assert entry == HeaderCode(memtotal, checked);
      StartForm(memtotal, checked);
    }

    ghost function Now(): Snapshot
      reads this
    {
      Snapshot(blocks, cur, nextreg, A, refs, tests)
    }

    // Lexing

    method ReadSymbol(sym0: Symbol, val0: int32, ghost s: nat)
        returns (cursym: Symbol, curvalue: int32, nextsym: Symbol, nextvalue: int32, ghost t: Token)
      requires Valid() && At(s) && Pending(text, pos, s, sym0, val0 as int)
      modifies this`pos
      ensures Valid() && At(s) && Now() == old(Now())
      ensures TokenAt(text, s, t) && t.sym == cursym != SymNone && s <= t.end <= |text|
      ensures cursym in {SymMove, SymChange} ==> t.value == curvalue as int
      ensures Pending(text, pos, t.end, nextsym, nextvalue as int)
      ensures t.end > s || cursym == SymEof
      ensures cursym !in {SymNone, SymMove, SymChange} ==> nextsym == SymNone && pos == t.end
    {
      hide Good, FixedBlocks, Translated, Formed;
      cursym, curvalue, nextsym, nextvalue := sym0, val0, SymNone, 0;
      var loop := cursym in {SymNone, SymMove, SymChange};
      ghost var first := s;
      t := Token(cursym, 0, s, pos);
      if cursym in {SymMove, SymChange} {
        ReadingStarts(text, s, s);
      }
      while loop
        invariant s <= pos <= |text|
        invariant loop ==> nextsym == SymNone && Reading(text, s, first, pos, cursym, if cursym == SymNone then 0 else curvalue as int)
        invariant !loop ==> TokenAt(text, s, t) && t.sym == cursym && (t.end > s || cursym == SymEof)
        invariant !loop ==> (cursym in {SymMove, SymChange} ==> t.value == curvalue as int)
        invariant !loop ==> Pending(text, pos, t.end, nextsym, nextvalue as int)
        invariant cursym !in {SymNone, SymMove, SymChange} ==> nextsym == SymNone
        decreases |text| - pos, loop
      {
        ghost var p, val := pos, if cursym == SymNone then 0 else curvalue as int;
        if pos == |text| {
          ReadingEnds(text, s, first, p, cursym, val);
          if cursym == SymNone { cursym := SymEof; } else { nextsym := SymEof; }
          loop := false;
          t := Token(cursym, val, first, p);
        } else {
          var c := text[pos];
          pos := pos + 1;
          var kind := SymbolOf(c);
          if kind == SymNone {
            ReadingOn(text, s, first, p, cursym, val);
          } else if kind == SymChange || kind == SymMove {
            var direction: int32 := if c == '-' || c == '<' then -1 else 1;
            if cursym == kind {
              ReadingBound(text, s, first, p, cursym, val);
              ReadingOn(text, s, first, p, cursym, val);
              curvalue := curvalue + direction;
            } else if cursym == SymNone {
              ReadingStarts(text, s, p);
              cursym, curvalue := kind, direction;
              first := p;
            } else {
              ReadingEnds(text, s, first, p, cursym, val);
              nextsym, nextvalue, loop := kind, direction, false;
              t := Token(cursym, val, first, p);
            }
          } else {
            ReadingEnds(text, s, first, p, cursym, val);
            if cursym == SymNone {
              cursym := kind;
              t := Token(cursym, 0, p, pos);
            } else {
              nextsym := kind;
              t := Token(cursym, val, first, p);
            }
            loop := false;
          }
        }
      }
    }

    // Emission

    method Emit(i: Instr)
      requires cur < |blocks|
      modifies this`blocks
      ensures blocks == old(blocks)[cur := old(blocks)[cur] + [i]]
    {
      blocks := blocks[cur := blocks[cur] + [i]];
    }

    method NewBlock() returns (b: nat)
      modifies this`blocks
      ensures b == |old(blocks)| && blocks == old(blocks) + [[]]
    {
      b := |blocks|;
      blocks := blocks + [[]];
    }

    method NewReg() returns (r: Reg)
      modifies this`nextreg
      ensures r == old(nextreg) && nextreg == r + 1
    {
      r := nextreg;
      nextreg := nextreg + 1;
    }

    method EmitRead()
      requires cur < |blocks|
      modifies this`blocks, this`nextreg
      ensures var r := old(nextreg);
              blocks == old(blocks)[cur := old(blocks)[cur] + [GetcharCall(r), Trunc8(r + 1, r), StoreTo(r + 1, curhead)]]
      ensures nextreg == old(nextreg) + 2
    {
      var tape0 := NewReg();
      Emit(GetcharCall(tape0));
      var tape1 := NewReg();
      Emit(Trunc8(tape1, tape0));
      Emit(StoreTo(tape1, curhead));
      assert blocks[cur] == old(blocks)[cur] + [GetcharCall(tape0), Trunc8(tape1, tape0), StoreTo(tape1, curhead)];
    }

    method EmitWrite()
      requires cur < |blocks|
      modifies this`blocks, this`nextreg
      ensures var r := old(nextreg);
              blocks == old(blocks)[cur := old(blocks)[cur] + [Load(r, curhead), Sext32(r + 1, r), PutcharCall(r + 1)]]
      ensures nextreg == old(nextreg) + 2
    {
      var tape0 := NewReg();
      Emit(Load(tape0, curhead));
      var tape1 := NewReg();
      Emit(Sext32(tape1, tape0));
      Emit(PutcharCall(tape1));
      assert blocks[cur] == old(blocks)[cur] + [Load(tape0, curhead), Sext32(tape1, tape0), PutcharCall(tape1)];
    }

    method EmitChange(curvalue: int32)
      requires cur < |blocks|
      modifies this`blocks, this`nextreg
      ensures var r := old(nextreg);
              blocks == old(blocks)[cur := old(blocks)[cur]
                                     + [Load(r, curhead), Add8(r + 1, r, curvalue as int % 256), StoreTo(r + 1, curhead)]]
      ensures nextreg == old(nextreg) + 2
    {
      var tape0 := NewReg();
      Emit(Load(tape0, curhead));
      var tape1 := NewReg();
      Emit(Add8(tape1, tape0, curvalue as int % 256));
      Emit(StoreTo(tape1, curhead));
      assert blocks[cur] == old(blocks)[cur]
        + [Load(tape0, curhead), Add8(tape1, tape0, curvalue as int % 256), StoreTo(tape1, curhead)];
    }

    method EmitMove(curvalue: int32)
      requires cur < |blocks|
      modifies this`blocks, this`nextreg, this`cur, this`curhead
      ensures var r := old(nextreg); var gep := Gep(r, old(curhead), Wrap32(curvalue as int));
              && curhead == r && nextreg == r + (if checked then 4 else 1)
              && if checked
                 then
                   && cur == |old(blocks)|
                   && blocks == old(blocks)[old(cur) := old(blocks)[old(cur)] + [gep, IcmpUge(r + 1, r, ARRMAX),
                                              IcmpUlt(r + 2, r, ARR), OrBits(r + 3, r + 1, r + 2), CondBr(r + 3, ABERROR, cur)]] + [[]]
                 else cur == old(cur) && blocks == old(blocks)[cur := old(blocks)[cur] + [gep]]
    {
      var head := NewReg();
      Emit(Gep(head, curhead, Wrap32(curvalue as int)));
      curhead := head;
      if checked {
        var test0 := NewReg();
        Emit(IcmpUge(test0, curhead, ARRMAX));
        var test1 := NewReg();
        Emit(IcmpUlt(test1, curhead, ARR));
        var test2 := NewReg();
        Emit(OrBits(test2, test0, test1));
        var nextbb := NewBlock();
        Emit(CondBr(test2, ABERROR, nextbb));
        assert blocks[cur] == old(blocks)[cur] + [Gep(head, old(curhead), Wrap32(curvalue as int)),
          IcmpUge(test0, head, ARRMAX), IcmpUlt(test1, head, ARR), OrBits(test2, test0, test1), CondBr(test2, ABERROR, nextbb)];
        cur := nextbb;
      }
    }

    /** The code of a token without brackets. */
    method EmitSymbol(cursym: Symbol, curvalue: int32, ghost t: Token)
      requires cur < |blocks| && ARRMAX < curhead < nextreg
      requires t.sym == cursym && cursym in {SymRead, SymWrite, SymMove, SymChange}
      requires cursym in {SymMove, SymChange} ==> t.value == curvalue as int
      requires Formed(blocks, cur, tests, nextreg, curhead, checked)
      modifies this`blocks, this`nextreg, this`cur, this`curhead
      ensures Formed(blocks, cur, tests, nextreg, curhead, checked)
      ensures cur < |blocks| && |old(blocks)| <= |blocks| && (cur == old(cur) || cur >= |old(blocks)|)
      ensures ARRMAX < curhead < nextreg && nextreg >= old(nextreg)
      ensures old(blocks)[old(cur)] <= blocks[old(cur)]
      ensures forall b :: 0 <= b < |old(blocks)| && b != old(cur) ==> blocks[b] == old(blocks)[b]
      ensures Straight(checked, blocks, t, Point(old(cur), |old(blocks)[old(cur)]|, old(curhead)), Point(cur, |blocks[cur]|, curhead))
    {
      hide Formed;
      ghost var was, at, r, head := blocks, cur, nextreg, curhead;
      match cursym {
        case SymRead =>
          EmitRead();
          TokenForm(was, at, tests, r, head, checked, GetcharCall(r), Trunc8(r + 1, r), StoreTo(r + 1, head));
        case SymWrite =>
          EmitWrite();
          TokenForm(was, at, tests, r, head, checked, Load(r, head), Sext32(r + 1, r), PutcharCall(r + 1));
        case SymChange =>
          EmitChange(curvalue);
          TokenForm(was, at, tests, r, head, checked, Load(r, head), Add8(r + 1, r, curvalue as int % 256), StoreTo(r + 1, head));
        case SymMove =>
          EmitMove(curvalue);
          if checked {
            CheckedMoveForm(was, at, tests, r, head, Wrap32(curvalue as int));
          } else {
            MoveForm(was, at, tests, r, head, Wrap32(curvalue as int));
          }
      }
    }

    ghost method RecordToken(s: nat, t: Token, p: Point, blocks0: seq<Block>)
      requires Good(text, checked, blocks0, A, refs) && Stable(refs, blocks0, blocks)
      requires A.toks.Keys <= A.pts.Keys && (forall k :: k in A.pts ==> k <= s) && s !in A.toks && s < t.end
      requires TokenAt(text, s, t) && t.sym !in {SymLoop, SymEndLoop, SymEof}
      requires s in A.pts && A.pts[s].block in refs && Straight(checked, blocks, t, A.pts[s], p) && p.block < |blocks|
      modifies this`A, this`refs
      ensures Good(text, checked, blocks, A, refs) && refs == old(refs) + {p.block}
      ensures A == Atlas(old(A).pts[t.end := p], old(A).toks[s := t], old(A).loops)
    {
      A := Atlas(A.pts[t.end := p], A.toks[s := t], A.loops);
      refs := refs + {p.block};
      StaysGood(text, checked, blocks0, old(A), old(refs), blocks, A, refs, s);
    }

    /** Valid() and At(s), spelled out. */
    lemma Standing(s: nat)
      requires Valid() && At(s)
      ensures |text| <= INT_MAX && pos <= |text| && FixedBlocks(blocks, memtotal, checked)
      ensures cur < |blocks| && cur != END && (checked ==> cur != ABERROR) && ARRMAX < curhead < nextreg
      ensures 0 in A.pts && A.pts[0] == Point(0, |HeaderCode(memtotal, checked)|, HEAD)
      ensures A.toks.Keys <= A.pts.Keys && Good(text, checked, blocks, A, refs) && (forall b :: b in refs ==> b < |blocks|)
      ensures cur in refs && END !in refs && (checked ==> ABERROR !in refs)
      ensures s <= |text| && s in A.pts && A.pts[s] == Point(cur, |blocks[cur]|, curhead)
      ensures (forall k :: k in A.pts ==> k <= s) && s !in A.toks
      ensures Formed(blocks, cur, tests, nextreg, curhead, checked)
    {
    }

    lemma Stands(s: nat)
      requires |text| <= INT_MAX && pos <= |text| && FixedBlocks(blocks, memtotal, checked)
      requires cur < |blocks| && cur != END && (checked ==> cur != ABERROR) && ARRMAX < curhead < nextreg
      requires 0 in A.pts && A.pts[0] == Point(0, |HeaderCode(memtotal, checked)|, HEAD)
      requires A.toks.Keys <= A.pts.Keys && Good(text, checked, blocks, A, refs)
      requires cur in refs && END !in refs && (checked ==> ABERROR !in refs)
      requires s <= |text| && s in A.pts && A.pts[s] == Point(cur, |blocks[cur]|, curhead)
      requires (forall k :: k in A.pts ==> k <= s) && s !in A.toks
      requires Formed(blocks, cur, tests, nextreg, curhead, checked)
      ensures Valid() && At(s)
    {
    }

    /** What a token without brackets does to the compiler. */
    method EmitStraight(cursym: Symbol, curvalue: int32, ghost s: nat, ghost t: Token)
      requires Valid() && At(s) && TokenAt(text, s, t) && t.sym == cursym && t.end > s
      requires cursym in {SymRead, SymWrite, SymMove, SymChange}
      requires cursym in {SymMove, SymChange} ==> t.value == curvalue as int
      modifies this`blocks, this`nextreg, this`cur, this`curhead, this`A, this`refs
      ensures Valid() && At(t.end) && Stretch(old(Now()), s, Now(), t.end, None)
    {
      hide Valid, At, FixedBlocks, Good, Formed, Stable, Stretch, Straight, TokenAt, Translated;
      Standing(s);
      TokenEnds(text, s, t);
      EmitSymbol(cursym, curvalue, t);
      Kept(old(blocks), blocks, memtotal, checked, refs, old(cur));
      RecordToken(s, t, Point(cur, |blocks[cur]|, curhead), old(blocks));
      StraightStretch(old(Now()), s, Now(), t);
      Stands(t.end);
    }

    method BeginLoop() returns (phi: Reg, testbb: nat)
      requires cur < |blocks|
      modifies this`blocks, this`nextreg, this`cur, this`curhead
      ensures testbb == |old(blocks)| && cur == testbb + 1 && |blocks| == testbb + 2 && blocks[cur] == []
      ensures phi == curhead == old(nextreg) && nextreg == phi + 1
      ensures blocks[old(cur)] == old(blocks)[old(cur)] + [Br(testbb)]
      ensures blocks[testbb] == [Phi(phi, [(old(curhead), old(cur))])]
      ensures forall b :: 0 <= b < |old(blocks)| && b != old(cur) ==> blocks[b] == old(blocks)[b]
    {
      testbb := NewBlock();
      Emit(Br(testbb));
      var bb0 := cur;
      var bb1 := NewBlock();
      cur := bb1;
      phi := NewReg();
      blocks := blocks[testbb := [Phi(phi, [(curhead, bb0)])]];
      curhead := phi;
    }

    /** Starts a loop: branch to a new test block, half a phi, and a body block to go on in. */
    method OpenLoop(ghost s: nat, ghost t: Token) returns (phi: Reg, testbb: nat, ghost bp: Point)
      requires Valid() && At(s) && TokenAt(text, s, t) && t.sym == SymLoop && LoopsBelow(A, s)
      modifies this`blocks, this`nextreg, this`cur, this`curhead, this`A, this`refs, this`tests
      ensures Valid() && At(t.end) && Opened(text, checked, Now(), t.end - 1, bp, phi, testbb)
      ensures cur == testbb + 1 && t.end in A.pts && A.pts[t.end] == Point(cur, 0, phi) && LoopsBelow(A, t.end)
      ensures LoopBegun(old(Now()), s, Now(), t.end, bp, phi, testbb)
    {
      hide Valid, At, FixedBlocks, Good, Formed, Stable, Stretch, Straight, TokenAt, Translated, Close;
      Standing(s);
      TokenEnds(text, s, t);
      GoodStable(text, checked, blocks, A, refs);
      bp := A.pts[s];
      OpenForm(blocks, cur, tests, nextreg, curhead, checked);
      TestsExist(blocks, cur, tests, nextreg, curhead, checked);
      ghost var was := blocks[cur := blocks[cur] + [Br(|blocks|)]] + [[Phi(nextreg, [(curhead, cur)])], []];
      phi, testbb := BeginLoop();
      assert blocks == was;
      tests := tests + {testbb};
      A := A.(pts := A.pts[t.end := Point(cur, 0, phi)]);
      refs := refs + {cur};
      assert old(blocks)[old(cur)] <= blocks[old(cur)];
      Kept(old(blocks), blocks, memtotal, checked, old(refs), old(cur));
      StaysGood(text, checked, old(blocks), old(A), old(refs), blocks, A, refs, |text| + 1);
      Stands(t.end);
    }

    method FinishLoop(phi: Reg, oldbb: nat, testbb: nat, ghost bp: Point) returns (bb0: nat)
      requires testbb < |blocks| && cur < |blocks| && testbb != cur && ARRMAX < phi < nextreg && bp.block != cur
      requires blocks[testbb] == [Phi(phi, [(bp.head, bp.block)])]
      modifies this`blocks, this`nextreg, this`cur, this`curhead
      ensures bb0 == cur == |old(blocks)| && |blocks| == bb0 + 1 && ARRMAX < curhead < nextreg && nextreg >= old(nextreg)
      ensures blocks[old(cur)] == old(blocks)[old(cur)] + [Br(testbb)] && |blocks[cur]| == 1
      ensures forall b :: 0 <= b < |old(blocks)| && b != old(cur) && b != testbb ==> blocks[b] == old(blocks)[b]
      ensures LoopCode(blocks, Loop(bp, Point(old(cur), |old(blocks)[old(cur)]|, old(curhead)), testbb, oldbb, bb0, phi, curhead))
      ensures var r := old(nextreg);
              && nextreg == r + 3 && curhead == r + 2
              && blocks[testbb] == [Phi(phi, [(bp.head, bp.block), (old(curhead), old(cur))]), Load(r, phi), IcmpEqZero(r + 1, r),
                                    CondBr(r + 1, bb0, oldbb)]
              && blocks[bb0] == [Phi(r + 2, [(phi, testbb)])]
    {
      Emit(Br(testbb));
      var tape0 := NewReg();
      var test0 := NewReg();
      bb0 := NewBlock();
      var phi1 := NewReg();
      var incoming := blocks[testbb][0].incoming + [(curhead, cur)];
      assert incoming == [(bp.head, bp.block), (curhead, cur)];
      blocks := blocks[testbb := [Phi(phi, incoming), Load(tape0, phi), IcmpEqZero(test0, tape0), CondBr(test0, bb0, oldbb)]];
      cur := bb0;
      Emit(Phi(phi1, [(phi, testbb)]));
      curhead := phi1;
    }

    ghost method RecordLoop(s: nat, t: Token, o: nat, L: Loop, blocks0: seq<Block>)
      requires Good(text, checked, blocks0, A, refs) && Stable(refs, blocks0, blocks)
      requires A.toks.Keys <= A.pts.Keys && (forall k :: k in A.pts ==> k <= s) && s !in A.toks
      requires TokenAt(text, s, t) && t.sym == SymEndLoop && o < s && text[o] == '[' && o !in A.loops
      requires Close(text, o + 1, 0) == Some(t.end - 1)
      requires o + 1 in A.pts && A.pts[o + 1] == Point(L.body, 0, L.phi)
      requires s in A.pts && A.pts[s] == L.back && L.back.block in refs
      requires L.back.block < |blocks| && L.back.idx < |blocks[L.back.block]| && blocks[L.back.block][L.back.idx] == Br(L.test)
      requires LoopCode(blocks, L)
      modifies this`A, this`refs
      ensures Good(text, checked, blocks, A, refs) && LoopPoints(text, A, o)
      ensures A == Atlas(old(A).pts[t.end := Point(L.exit, 1, L.phi1)], old(A).toks[s := t], old(A).loops[o := L])
      ensures refs == old(refs) + {L.exit, L.test}
    {
      A := Atlas(A.pts[t.end := Point(L.exit, 1, L.phi1)], A.toks[s := t], A.loops[o := L]);
      refs := refs + {L.exit, L.test};
      LoopCloses(text, checked, blocks0, old(A), old(refs), blocks, A, refs, s, o);
    }

    /** Ends a loop: finish the phi, write the test, and go on in a new block. */
    method CloseLoop(phi: Reg, oldbb: nat, testbb: nat, ghost s: nat, ghost t: Token, ghost o: nat, ghost bp: Point)
      requires Valid() && At(s) && TokenAt(text, s, t) && t.sym == SymEndLoop
      requires s < t.end <= |text| && Opened(text, checked, Now(), o, bp, phi, testbb) && oldbb < |blocks| && oldbb in refs && bp.block != cur && o < s
      requires Close(text, o + 1, 0) == Some(t.end - 1)
      requires o + 1 in A.pts && A.pts[o + 1] == Point(oldbb, 0, phi) && oldbb == testbb + 1
      modifies this`blocks, this`nextreg, this`cur, this`curhead, this`A, this`refs, this`tests
      ensures Valid() && At(t.end) && Stretch(old(Now()), s, Now(), t.end, Some((o, testbb)))
      ensures o in A.loops && A.loops[o].before == bp && A.loops[o].test == testbb
      ensures LoopPoints(text, A, o) && LoopCode(blocks, A.loops[o])
    {
      hide Valid, At, FixedBlocks, Good, Formed, Stable, Stretch, Straight, TokenAt, Translated, Close, LoopCode, LoopPoints, Open;
      Standing(s);
      TokenEnds(text, s, t);
      GoodStable(text, checked, blocks, A, refs);
      ghost var back := Point(cur, |blocks[cur]|, curhead);
      CloseForm(blocks, cur, tests, nextreg, curhead, checked, testbb);
      var bb0 := FinishLoop(phi, oldbb, testbb, bp);
      ClosedBlocks(old(blocks), old(cur), old(nextreg), old(curhead), phi, testbb, bp, blocks);
      tests := tests - {testbb};
      assert old(blocks)[back.block] <= blocks[back.block];
      StaysStable(refs, old(blocks), blocks, back.block, testbb);
      StaysFixed(old(blocks), blocks, memtotal, checked, back.block, testbb);
      RecordLoop(s, t, o, Loop(bp, back, testbb, oldbb, bb0, phi, curhead), old(blocks));
      CloseStretch(old(Now()), s, Now(), t, o, testbb);
      Stands(t.end);
    }

    /** Adds a token whose points are already there. */
    ghost method RecordPlain(s: nat, t: Token, blocks0: seq<Block>)
      requires Good(text, checked, blocks0, A, refs) && Stable(refs, blocks0, blocks)
      requires s !in A.toks && s in A.pts && A.pts[s].block in refs
      requires Translated(text, checked, blocks, A.(toks := A.toks[s := t]), s)
      modifies this`A
      ensures Good(text, checked, blocks, A, refs) && A == old(A).(toks := old(A).toks[s := t])
    {
      A := A.(toks := A.toks[s := t]);
      StaysGood(text, checked, blocks0, old(A), refs, blocks, A, refs, s);
    }

    /** The '[' of a loop that is finished. */
    ghost method RecordOpen(s: nat, t: Token, here: nat)
      requires Valid() && At(here) && s < here && s !in A.toks && s in A.pts && A.pts[s].block in refs
      requires Translated(text, checked, blocks, A.(toks := A.toks[s := t]), s)
      modifies this`A
      ensures Valid() && At(here) && A == old(A).(toks := old(A).toks[s := t])
    {
      GoodStable(text, checked, blocks, A, refs);
      RecordPlain(s, t, blocks);
    }

    /** The end of the program: branch to the return block. */
    method EmitEof(ghost s: nat, ghost t: Token)
      requires Valid() && At(s) && TokenAt(text, s, t) && t.sym == SymEof
      modifies this`blocks, this`A
      ensures Valid() && A == old(A).(toks := old(A).toks[s := t])
      ensures tests == {} ==> WellFormed(blocks)
    {
      hide Formed, WellFormed;
      if tests == {} { EofForm(blocks, cur, nextreg, curhead, checked); }
      Emit(Br(END));
      assert old(blocks)[cur] <= blocks[cur];
      RecordPlain(s, t, old(blocks));
    }

    /** A whole loop, from '[' to the matching ']'. */
    method CompileLoop(ghost s: nat, ghost t: Token, ghost depth: nat) returns (ok: bool, ghost end: nat)
      requires Valid() && At(s) && pos == t.end && TokenAt(text, s, t) && t.sym == SymLoop
      requires Balanced(text, 0, 0) == Balanced(text, s, depth)
      requires LoopsBelow(A, s)
      modifies this`pos, this`blocks, this`nextreg, this`cur, this`curhead, this`A, this`refs, this`tests
      ensures !ok ==> !Balanced(text, 0, 0)
      ensures ok ==> Valid() && At(end) && pos == end && s < end <= |text| && Stretch(old(Now()), s, Now(), end, None)
      ensures ok ==> Close(text, s, 0) == Close(text, end, 0) && Balanced(text, 0, 0) == Balanced(text, end, depth)
      decreases |text| - s, 0
    {
      hide Close, Balanced, Valid, At, TokenAt, LoopsBelow, LoopBegun, Stretch, Opened, LoopCode, LoopPoints, Translated;
      ghost var o := t.end - 1;
      OpenSkips(text, s, t, depth);
      ghost var a := Now();
      var phi, testbb;
      ghost var bp;
      phi, testbb, bp := OpenLoop(s, t);
      ghost var b := Now();
      ok, end := ReadLoop(Some(phi), cur, testbb, t.end, o, depth + 1, bp);
      if ok {
        ghost var c := Now();
        OpenTranslated(text, checked, a, s, b, c, end, bp, phi, testbb, t);
        RecordOpen(s, t, end);
        LoopStretch(a, s, b, t.end, c, end, Now(), o, bp, phi, testbb, t);
      }
    }

    lemma Starting(s: nat)
      requires Valid() && At(s) && pos == s
      ensures cur in refs && cur < |blocks| && Pending(text, pos, s, SymNone, 0) && s in A.pts
    {
    }

    /** A token inside a stretch: straight code, or a whole loop. */
    method CompileToken(cursym: Symbol, curvalue: int32, ghost s: nat, ghost t: Token, ghost depth: nat)
        returns (ok: bool, ghost end: nat)
      requires Valid() && At(s) && TokenAt(text, s, t) && t.sym == cursym && s < t.end <= |text|
      requires cursym !in {SymNone, SymEndLoop, SymEof}
      requires cursym in {SymMove, SymChange} ==> t.value == curvalue as int
      requires cursym == SymLoop ==> pos == t.end
      requires Balanced(text, 0, 0) == Balanced(text, s, depth)
      requires LoopsBelow(A, s)
      modifies this`pos, this`blocks, this`nextreg, this`cur, this`curhead, this`A, this`refs, this`tests
      ensures !ok ==> !Balanced(text, 0, 0)
      ensures ok ==> Valid() && At(end) && s < end <= |text| && Stretch(old(Now()), s, Now(), end, None)
      ensures ok ==> if cursym == SymLoop then pos == end else pos == old(pos) && end == t.end
      ensures ok ==> Close(text, s, 0) == Close(text, end, 0) && Balanced(text, 0, 0) == Balanced(text, end, depth)
      decreases |text| - s, 1
    {
      hide *;
      if cursym == SymLoop {
        ok, end := CompileLoop(s, t, depth);
      } else {
        StraightSkips(text, s, t, depth);
        EmitStraight(cursym, curvalue, s, t);
        ok, end := true, t.end;
      }
    }

    /** The ']' of the loop at o, or the end of the text. */
    method EndText(cursym: Symbol, phi: Option<Reg>, oldbb: nat, testbb: nat, ghost s: nat, ghost t: Token, ghost o: nat,
                   ghost depth: nat, ghost bp: Point, ghost start: nat, ghost a: Snapshot)
        returns (ok: bool)
      requires Valid() && At(s) && start <= s && TokenAt(text, s, t) && t.sym == cursym && cursym in {SymEndLoop, SymEof}
      requires Stretch(a, start, Now(), s, None) && a.cur in a.refs && a.cur < |a.blocks|
      requires phi.Some? <==> depth > 0
      requires phi.Some? ==> Opened(text, checked, Now(), o, bp, phi.value, testbb) && start == o + 1
      requires phi.Some? ==> oldbb == a.cur && oldbb == testbb + 1 && start in a.A.pts && a.A.pts[start] == Point(oldbb, 0, phi.value)
      requires Close(text, start, 0) == Close(text, s, 0)
      requires Balanced(text, 0, 0) == Balanced(text, s, depth)
      modifies this`blocks, this`nextreg, this`cur, this`curhead, this`A, this`refs, this`tests
      ensures !ok ==> !Balanced(text, 0, 0)
      ensures ok ==> Valid()
      ensures ok && phi.None? && a.tests == {} ==> WellFormed(blocks)
      ensures ok && phi.None? ==> Balanced(text, 0, 0) && start in A.toks && A.pts.Keys <= A.toks.Keys + a.A.pts.Keys
      ensures ok && phi.Some? ==>
                && cursym == SymEndLoop && Close(text, start, 0) == Some(t.end - 1) && start < t.end && At(t.end)
                && Stretch(a, start, Now(), t.end, Some((o, testbb)))
                && o in A.loops && LoopPoints(text, A, o) && LoopCode(blocks, A.loops[o])
                && A.loops[o].before == bp && A.loops[o].test == testbb
                && Balanced(text, 0, 0) == Balanced(text, t.end, depth - 1)
    {
      hide Close, Balanced, LoopCode, LoopPoints, Stretch, TokenAt;
      StretchGives(a, start, Now(), s);
      if cursym == SymEndLoop {
        CloseSkips(text, s, t, depth);
        ok := phi.Some?;
        if ok {
          ghost var b := Now();
          CloseLoop(phi.value, oldbb, testbb, s, t, o, bp);
          StretchOn(a, start, b, s, Now(), t.end, Some((o, testbb)));
        }
      } else {
        EofSkips(text, s, t, depth);
        EmitEof(s, t);
        ok := phi.None?;
      }
    }

    /** Compiles from `start` to the end of the text, or to the ']' that closes the loop at o.
        False is the source's abort. */
    method ReadLoop(phi: Option<Reg>, oldbb: nat, testbb: nat, ghost start: nat, ghost o: nat, ghost depth: nat, ghost bp: Point)
        returns (ok: bool, ghost end: nat)
      requires Valid() && At(start) && pos == start
      requires phi.Some? <==> depth > 0
      requires phi.Some? ==> Opened(text, checked, Now(), o, bp, phi.value, testbb) && start == o + 1
      requires phi.Some? ==> cur == oldbb == testbb + 1 && A.pts[start] == Point(oldbb, 0, phi.value)
      requires Balanced(text, 0, 0) == Balanced(text, start, depth)
      requires LoopsBelow(A, start)
      modifies this`pos, this`blocks, this`nextreg, this`cur, this`curhead, this`A, this`refs, this`tests
      ensures !ok ==> !Balanced(text, 0, 0)
      ensures ok ==> Valid()
      ensures ok && phi.None? && old(tests) == {} ==> WellFormed(blocks)
      ensures ok && phi.None? ==> Balanced(text, 0, 0) && start in A.toks && A.pts.Keys <= A.toks.Keys + old(A.pts.Keys)
      ensures ok && phi.Some? ==>
                && Close(text, start, 0) == Some(end - 1) && start < end && pos == end && At(end)
                && Stretch(old(Now()), start, Now(), end, Some((o, testbb)))
                && o in A.loops && LoopPoints(text, A, o) && LoopCode(blocks, A.loops[o])
                && A.loops[o].before == bp && A.loops[o].test == testbb
                && Balanced(text, 0, 0) == Balanced(text, end, depth - 1)
      decreases |text| - start, 2
    {
      hide Close, Balanced, TokenAt, Pending, LoopCode, LoopPoints, Stretch, Opened, Valid, At, SubAtlas, LoopsBelow, Good, FixedBlocks;
      Starting(start);
      var cursym, curvalue, nextsym, nextvalue;
      ghost var t, s, a := Token(SymNone, 0, 0, 0), start, Now();
      end := start;
      StretchStarts(a, start);
      cursym, curvalue, nextsym, nextvalue, t := ReadSymbol(SymNone, 0, start);
      while cursym != SymEof && cursym != SymEndLoop
        invariant Valid() && At(s) && start <= s <= t.end <= |text| && TokenAt(text, s, t) && t.sym == cursym != SymNone
        invariant t.end > s || cursym == SymEof
        invariant cursym in {SymMove, SymChange} ==> t.value == curvalue as int
        invariant Pending(text, pos, t.end, nextsym, nextvalue as int)
        invariant cursym !in {SymNone, SymMove, SymChange} ==> nextsym == SymNone && pos == t.end
        invariant Stretch(a, start, Now(), s, None) && LoopsBelow(A, s)
        invariant phi.Some? ==> Opened(text, checked, Now(), o, bp, phi.value, testbb)
        invariant Close(text, start, 0) == Close(text, s, 0)
        invariant Balanced(text, 0, 0) == Balanced(text, s, depth)
        decreases |text| - s
      {
        ghost var b := Now();
        ghost var e;
        ok, e := CompileToken(cursym, curvalue, s, t, depth);
        if !ok { return; }
        StretchOn(a, start, b, s, Now(), e, None);
        StretchGives(a, start, Now(), e);
        if phi.Some? { StaysOpened(text, checked, b, s, Now(), e, o, bp, phi.value, testbb); }
        PendingStays(text, pos, t, e, nextsym, nextvalue as int);
        s := e;
        cursym, curvalue, nextsym, nextvalue, t := ReadSymbol(nextsym, nextvalue, s);
      }
      end := t.end;
      ok := EndText(cursym, phi, oldbb, testbb, s, t, o, depth, bp, start, a);
    }
  }

  /** A function is compiled exactly when the brackets balance; it then does what the text says, with bounds checks and a
      tape it never leaves the tape, and it is a legal function in SSA form. */
  method Parse(text: string, memtotal: nat, checked: bool) returns (module_: Option<seq<Block>>)
    requires |text| <= INT_MAX && memtotal <= INT_MAX
    ensures module_.Some? <==> Balanced(text, 0, 0)
    ensures module_.Some? ==> Faithful(text, memtotal, checked, module_.value)
    ensures module_.Some? && checked && memtotal > 0 ==> Safe(text, memtotal, module_.value)
    ensures module_.Some? ==> WellFormed(module_.value)
  {
    var b := new BrainF(text, memtotal, checked);
    var ok;
    ghost var end;
    ok, end := b.ReadLoop(None, 0, 0, 0, 0, 0, Point(0, 0, 0));
    if ok {
      module_ := Some(b.blocks);
      CompiledIsFaithful(text, memtotal, checked, b.blocks, b.A);
    } else {
      module_ := None;
    }
  }
}
