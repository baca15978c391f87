/** The demo's generated functions: a call wrapped in catch and finally blocks, and nests of such functions. */
module ExceptionFrames {
  import opened Wrappers
  import opened Leb128
  import opened Personality

  /** A thrown exception; `ours` says that its class is the demo's own. */
  datatype Exn = Exn(ours: bool, kind: int)

  datatype Flag = NotThrown | Thrown | Caught

  /** What can be seen of a run, with the number of the frame it happens in. */
  datatype Event = InCatch(frame: nat, clause: nat) | InFinally(frame: nat) | Freed(frame: nat, exn: Exn)

  datatype Instr = EnterCatch(clause: nat) | EnterFinally | StoreException | StoreFlag(flag: Flag) | DeleteStored

  datatype Term =
    | Open
    | Br(to: nat)
    | Invoke(normal: nat, unwind: nat)
    | OnFlag(default_: nat, caught: nat, thrown: nat)
    | OnClass(ours: nat, foreign: nat)
    | OnSelector(default_: nat, cases: seq<nat>)
    | ResumeUnwind
    | Return

  datatype Block = Block(instrs: seq<Instr>, term: Term)

  // Generating code

  const ENTRY: nat := 0
  const NORMAL: nat := 1
  const EXCEPTION: nat := 2
  const ROUTE: nat := 3
  const EXTERNAL: nat := 4
  const RESUME: nat := 5
  const END: nat := 6
  const FINALLY: nat := 7
  const CATCH: nat := 8

  function Head(clauses: nat): seq<Block> {
    [Block([], Invoke(NORMAL, EXCEPTION)),
     Block([], Br(FINALLY)),
     Block([StoreException, StoreFlag(Thrown)], OnClass(ROUTE, EXTERNAL)),
     Block([], OnSelector(FINALLY, seq(clauses, (i: nat) => CATCH + i))),
     Block([], Br(FINALLY)),
     Block([], ResumeUnwind),
     Block([DeleteStored], Return),
     Block([EnterFinally], OnFlag(END, END, RESUME))]
  }

  function CatchBlock(clause: nat): Block { Block([EnterCatch(clause), StoreFlag(Caught)], Br(FINALLY)) }

  /** The blocks of a function that catches so many types. */
  function Layout(clauses: nat): seq<Block> { Head(clauses) + seq(clauses, (i: nat) => CatchBlock(i)) }

  /** Blocks under construction, and the one that code goes into. */
  class Builder {
    var blocks: seq<Block>
    var point: nat

    constructor ()
      ensures blocks == [] && point == 0
    {
      blocks, point := [], 0;
    }

    method CreateBlock() returns (b: nat)
      modifies this`blocks
      ensures b == old(|blocks|) && blocks == old(blocks) + [Block([], Open)]
    {
      b := |blocks|;
      blocks := blocks + [Block([], Open)];
    }

    method SetInsertPoint(b: nat)
      modifies this`point
      ensures point == b
    {
      point := b;
    }

    method Append(i: Instr)
      requires point < |blocks|
      modifies this`blocks
      ensures blocks == old(blocks)[point := Block(old(blocks[point].instrs) + [i], old(blocks[point].term))]
    {
      blocks := blocks[point := Block(blocks[point].instrs + [i], blocks[point].term)];
    }

    method Terminate(t: Term)
      requires point < |blocks|
      modifies this`blocks
      ensures blocks == old(blocks)[point := Block(old(blocks[point].instrs), t)]
    {
      blocks := blocks[point := Block(blocks[point].instrs, t)];
    }

    /** Runs whether or not something is thrown, and resumes what is not caught. */
    method CreateFinallyBlock(end: nat, resume: nat) returns (b: nat)
      modifies this
      ensures b == old(|blocks|) && blocks == old(blocks) + [Block([EnterFinally], OnFlag(end, end, resume))]
    {
      b := CreateBlock();
      SetInsertPoint(b);
      Append(EnterFinally);
      Terminate(OnFlag(end, end, resume));
      assert [] + [EnterFinally] == [EnterFinally];
      assert blocks == old(blocks) + [blocks[b]];
    }

    method CreateCatchBlock(clause: nat, finally_: nat) returns (b: nat)
      modifies this
      ensures b == old(|blocks|)
      ensures blocks == old(blocks) + [Block([EnterCatch(clause), StoreFlag(Caught)], Br(finally_))]
    {
      b := CreateBlock();
      SetInsertPoint(b);
      Append(EnterCatch(clause));
      Append(StoreFlag(Caught));
      Terminate(Br(finally_));
      assert [] + [EnterCatch(clause)] + [StoreFlag(Caught)] == [EnterCatch(clause), StoreFlag(Caught)];
      assert blocks == old(blocks) + [blocks[b]];
    }

    /** Puts code at the end of a block. */
    method Fill(b: nat, instrs: seq<Instr>, t: Term)
      requires b < |blocks|
      modifies this
      ensures blocks == old(blocks)[b := Block(old(blocks[b].instrs) + instrs, t)]
    {
      SetInsertPoint(b);
      ghost var was := blocks[b].instrs;
      assert was + instrs[..0] == was;
      assert blocks == blocks[b := blocks[b]];
      for i := 0 to |instrs|
        invariant point == b < |blocks|
        invariant blocks == old(blocks)[b := Block(was + instrs[..i], old(blocks[b].term))]
      {
        assert was + instrs[..i + 1] == was + instrs[..i] + [instrs[i]];
        Append(instrs[i]);
      }
      assert instrs[..|instrs|] == instrs;
      Terminate(t);
    }

    /** The blocks are created first and filled in afterwards. */
    method CreateCatchWrappedInvokeFunction(clauses: nat)
      requires blocks == []
      modifies this
      ensures blocks == Layout(clauses)
    {
      var entry := CreateBlock();
      var normal := CreateBlock();
      var exception := CreateBlock();
      var route := CreateBlock();
      var external := CreateBlock();
      var resume := CreateBlock();
      var end := CreateBlock();
      var finally_ := CreateFinallyBlock(end, resume);
      ghost var first := blocks;
      assert first == Skeleton();
      var catches: seq<nat> := [];
      for i := 0 to clauses
        invariant blocks == first + seq(i, (k: nat) => CatchBlock(k)) && |blocks| == CATCH + i
        invariant catches == seq(i, (k: nat) => CATCH + k)
      {
        var c := CreateCatchBlock(i, finally_);
        catches := catches + [c];
      }
      assert blocks == Skeleton() + seq(clauses, (k: nat) => CatchBlock(k));
      FillIn(clauses, catches);
    }

    /** The second half: code goes into the blocks, in the order of the source. */
    method FillIn(clauses: nat, catches: seq<nat>)
      requires blocks == Skeleton() + seq(clauses, (k: nat) => CatchBlock(k)) && catches == seq(clauses, (k: nat) => CATCH + k)
      modifies this
      ensures blocks == Layout(clauses)
    {
      ghost var tail := seq(clauses, (k: nat) => CatchBlock(k));
      forall instrs: seq<Instr> ensures [] + instrs == instrs {}
      Fill(ENTRY, [], Invoke(NORMAL, EXCEPTION));
      Fill(END, [DeleteStored], Return);
      Fill(NORMAL, [], Br(FINALLY));
      Fill(RESUME, [], ResumeUnwind);
      Fill(EXCEPTION, [StoreException, StoreFlag(Thrown)], OnClass(ROUTE, EXTERNAL));
      Fill(EXTERNAL, [], Br(FINALLY));
      Fill(ROUTE, [], OnSelector(FINALLY, catches));
      assert |blocks| == CATCH + clauses;
      assert blocks[CATCH..] == tail;
      assert blocks[..CATCH] == Head(clauses);
      assert blocks == blocks[..CATCH] + blocks[CATCH..];
    }
  }

  /** The blocks of a function before anything but the finally block is filled in. */
  function Skeleton(): seq<Block> { seq(7, (i: nat) => Block([], Open)) + [Block([EnterFinally], OnFlag(END, END, RESUME))] }

  // Running it

  /** What the call inside does: it returns, or it throws and the landing pad is entered with a selector. */
  datatype Callee = Returns | Throws(exn: Exn, selector: nat)

  datatype Frame = Frame(number: nat, block: nat, flag: Flag, stored: Option<Exn>, events: seq<Event>)

  datatype Outcome = Running(frame: Frame) | Returned(events: seq<Event>) | Resumed(events: seq<Event>, exn: Exn) | Malformed

  function Execute(f: Frame, i: Instr, callee: Callee): Frame {
    match i
    case EnterCatch(k) => f.(events := f.events + [InCatch(f.number, k)])
    case EnterFinally => f.(events := f.events + [InFinally(f.number)])
    case StoreException => if callee.Throws? then f.(stored := Some(callee.exn)) else f
    case StoreFlag(flag) => f.(flag := flag)
    case DeleteStored =>
      // null and foreign exceptions are left alone
      if f.stored.Some? && f.stored.value.ours then f.(events := f.events + [Freed(f.number, f.stored.value)]) else f
  }

  function ExecuteAll(f: Frame, instrs: seq<Instr>, callee: Callee): Frame
    decreases |instrs|
  {
    if instrs == [] then f else ExecuteAll(Execute(f, instrs[0], callee), instrs[1..], callee)
  }

  function Goto(f: Frame, b: nat): Outcome { Running(f.(block := b)) }

  function StepBlock(blocks: seq<Block>, f0: Frame, callee: Callee): Outcome {
    if f0.block >= |blocks| then Malformed
    else
      var f := ExecuteAll(f0, blocks[f0.block].instrs, callee);
      match blocks[f0.block].term
      case Open => Malformed
      case Br(to) => Goto(f, to)
      case Invoke(normal, unwind) => Goto(f, if callee.Returns? then normal else unwind)
      case OnFlag(d, caught, thrown) => Goto(f, if f.flag.Caught? then caught else if f.flag.Thrown? then thrown else d)
      case OnClass(ours, foreign) => if callee.Returns? then Malformed else Goto(f, if callee.exn.ours then ours else foreign)
      case OnSelector(d, cases) =>
        if callee.Returns? then Malformed
        else Goto(f, if 1 <= callee.selector <= |cases| then cases[callee.selector - 1] else d)
      case ResumeUnwind => if f.stored.Some? then Resumed(f.events, f.stored.value) else Malformed
      case Return => Returned(f.events)
  }

  function Steps(blocks: seq<Block>, f: Frame, callee: Callee, fuel: nat): Outcome
    decreases fuel
  {
    if fuel == 0 then Running(f)
    else
      match StepBlock(blocks, f, callee)
      case Running(g) => Steps(blocks, g, callee, fuel - 1)
      case Returned(events) => Returned(events)
      case Resumed(events, exn) => Resumed(events, exn)
      case Malformed => Malformed
  }

  function RunFrame(blocks: seq<Block>, number: nat, callee: Callee): Outcome {
    Steps(blocks, Frame(number, ENTRY, NotThrown, None, []), callee, 8)
  }

  /** The function catches when the selector is one of its clauses; the finally block runs once either way. */
  function FrameResult(clauses: nat, number: nat, callee: Callee): Outcome {
    if callee.Returns? then Returned([InFinally(number)])
    else if callee.exn.ours && 1 <= callee.selector <= clauses then
      Returned([InCatch(number, callee.selector - 1), InFinally(number), Freed(number, callee.exn)])
    else Resumed([InFinally(number)], callee.exn)
  }

  lemma LayoutAt(clauses: nat, b: nat)
    requires b < CATCH + clauses
    ensures |Layout(clauses)| == CATCH + clauses
    ensures Layout(clauses)[b] == if b < CATCH then Head(clauses)[b] else CatchBlock(b - CATCH)
  {
  }

  lemma OneBlock(f: Frame, instrs: seq<Instr>, callee: Callee)
    requires |instrs| == 1
    ensures ExecuteAll(f, instrs, callee) == Execute(f, instrs[0], callee)
  {
    assert instrs[1..] == [];
  }

  lemma TwoInstrs(f: Frame, instrs: seq<Instr>, callee: Callee)
    requires |instrs| == 2
    ensures ExecuteAll(f, instrs, callee) == Execute(Execute(f, instrs[0], callee), instrs[1], callee)
  {
    OneBlock(Execute(f, instrs[0], callee), instrs[1..], callee);
  }

  lemma StepOn(blocks: seq<Block>, f: Frame, callee: Callee, fuel: nat, g: Frame)
    requires fuel > 0 && StepBlock(blocks, f, callee) == Running(g)
    ensures Steps(blocks, f, callee, fuel) == Steps(blocks, g, callee, fuel - 1)
  {
  }

  /** From the finally block on. */
  lemma FinallyRuns(clauses: nat, f: Frame, callee: Callee, fuel: nat)
    requires f.block == FINALLY && fuel >= 2 && (f.flag.Thrown? ==> f.stored.Some?)
    ensures var events := f.events + [InFinally(f.number)];
            Steps(Layout(clauses), f, callee, fuel) ==
              if f.flag.Thrown? then Resumed(events, f.stored.value)
              else if f.stored.Some? && f.stored.value.ours then Returned(events + [Freed(f.number, f.stored.value)])
              else Returned(events)
  {
    hide Layout;
    var blocks := Layout(clauses);
    LayoutAt(clauses, FINALLY);
    LayoutAt(clauses, END);
    LayoutAt(clauses, RESUME);
    var g := f.(events := f.events + [InFinally(f.number)], block := if f.flag.Thrown? then RESUME else END);
    OneBlock(f, [EnterFinally], callee);
    assert StepBlock(blocks, f, callee) == Running(g);
    OneBlock(g, [DeleteStored], callee);
    StepOn(blocks, f, callee, fuel, g);
  }

  /** The generated code does what the function is for. */
  lemma FrameRuns(clauses: nat, number: nat, callee: Callee)
    ensures RunFrame(Layout(clauses), number, callee) == FrameResult(clauses, number, callee)
  {
    hide Layout, Steps;
    var blocks := Layout(clauses);
    var f := Frame(number, ENTRY, NotThrown, None, []);
    LayoutAt(clauses, ENTRY);
    if callee.Returns? {
      LayoutAt(clauses, NORMAL);
      StepOn(blocks, f, callee, 8, f.(block := NORMAL));
      StepOn(blocks, f.(block := NORMAL), callee, 7, f.(block := FINALLY));
      FinallyRuns(clauses, f.(block := FINALLY), callee, 6);
    } else {
      LayoutAt(clauses, EXCEPTION);
      StepOn(blocks, f, callee, 8, f.(block := EXCEPTION));
      TwoInstrs(f.(block := EXCEPTION), [StoreException, StoreFlag(Thrown)], callee);
      var g := Frame(number, if callee.exn.ours then ROUTE else EXTERNAL, Thrown, Some(callee.exn), []);
      StepOn(blocks, f.(block := EXCEPTION), callee, 7, g);
      Routed(clauses, g, callee);
    }
  }

  lemma Routed(clauses: nat, g: Frame, callee: Callee)
    requires callee.Throws? && g == Frame(g.number, if callee.exn.ours then ROUTE else EXTERNAL, Thrown, Some(callee.exn), [])
    ensures Steps(Layout(clauses), g, callee, 6) == FrameResult(clauses, g.number, callee)
  {
    hide Layout, Steps;
    var blocks := Layout(clauses);
    LayoutAt(clauses, ROUTE);
    LayoutAt(clauses, EXTERNAL);
    if callee.exn.ours && 1 <= callee.selector <= clauses {
      var c := CATCH + (callee.selector - 1);
      LayoutAt(clauses, c);
      StepOn(blocks, g, callee, 6, g.(block := c));
      TwoInstrs(g.(block := c), CatchBlock(callee.selector - 1).instrs, callee);
      var h := Frame(g.number, FINALLY, Caught, Some(callee.exn), [InCatch(g.number, callee.selector - 1)]);
      StepOn(blocks, g.(block := c), callee, 5, h);
      FinallyRuns(clauses, h, callee, 4);
    } else {
      StepOn(blocks, g, callee, 6, g.(block := FINALLY));
      FinallyRuns(clauses, g.(block := FINALLY), callee, 5);
    }
  }

  // Nests of frames

  /** The position of a type among the clauses of a function. */
  function FirstIndex(clauses: seq<int>, t: int): (k: Option<nat>)
    ensures k.None? <==> t !in clauses
    ensures k.Some? ==> k.value < |clauses| && clauses[k.value] == t && t !in clauses[..k.value]
  {
    if clauses == [] then None
    else if clauses[0] == t then Some(0)
    else
      match FirstIndex(clauses[1..], t)
      case None => None
      case Some(k) => (assert clauses[..k + 1] == [clauses[0]] + clauses[1..][..k]; Some(k + 1))
  }

  /** What the personality routine installs for a function with these clauses. */
  function SelectorFor(clauses: seq<int>, e: Exn): nat {
    if !e.ours then 0
    else
      match FirstIndex(clauses, e.kind)
      case None => 0
      case Some(k) => k + 1
  }

  /** Tables whose chain has a record for each clause in order, and then maybe one for the cleanup. */
  ghost predicate TablesFor(tb: Tables, chains: map<nat, seq<nat>>, clauses: seq<int>, pc: nat) {
    match FindSite(tb.sites, pc)
    case None => false
    case Some(s) =>
      && s.action != 0 && s.action in chains
      && var types := chains[s.action];
         && |clauses| <= |types| <= |clauses| + 1 && (|types| > |clauses| ==> types[|clauses|] == 0)
         && forall i | 0 <= i < |clauses| :: types[i] > 0 && tb.typeAt(types[i]) == clauses[i]
  }

  lemma ClausesSelect(tb: Tables, chains: map<nat, seq<nat>>, clauses: seq<int>, pc: nat, e: Exn)
    requires TablesFor(tb, chains, clauses, pc)
    ensures Selector(tb, chains, e.ours, e.kind, pc) == SelectorFor(clauses, e)
  {
    var types := chains[FindSite(tb.sites, pc).value.action];
    var k, m := FirstIndex(clauses, e.kind), FirstMatch(tb.typeAt, e.kind, types);
    if k.Some? {
      assert Matches(tb.typeAt, e.kind, types[k.value]);
      forall i | 0 <= i < k.value ensures !Matches(tb.typeAt, e.kind, types[i]) {
        assert clauses[..k.value][i] == clauses[i];
      }
    } else {
      forall i | 0 <= i < |types| ensures !Matches(tb.typeAt, e.kind, types[i]) {
        if i < |clauses| { assert clauses[i] in clauses; }
      }
    }
  }

  /** The search phase: the innermost frame that lists the type. Frames are numbered from the outside. */
  function Handler(frames: seq<seq<int>>, e: Exn): (k: Option<nat>)
    ensures k.Some? ==> k.value < |frames| && e.ours && e.kind in frames[k.value]
                        && forall j | k.value < j < |frames| :: e.kind !in frames[j]
    ensures k.None? && e.ours ==> forall j | 0 <= j < |frames| :: e.kind !in frames[j]
  {
    if frames == [] || !e.ours then None
    else if e.kind in frames[|frames| - 1] then Some(|frames| - 1)
    else Handler(frames[..|frames| - 1], e)
  }

  /** The cleanup phase and what follows: from the innermost frame out, each goes on with what the one inside left. */
  function Walk(frames: seq<seq<int>>, thrown: Option<Exn>): (seq<Event>, Option<Exn>) {
    if frames == [] then ([], thrown)
    else
      var n := |frames| - 1;
      var callee := if thrown.None? then Returns else Throws(thrown.value, SelectorFor(frames[n], thrown.value));
      match RunFrame(Layout(|frames[n]|), n, callee)
      case Returned(events) => (var (rest, left) := Walk(frames[..n], None); (events + rest, left))
      case Resumed(events, exn) => (var (rest, left) := Walk(frames[..n], Some(exn)); (events + rest, left))
      case Running(_) => ([], thrown)
      case Malformed => ([], thrown)
  }

  /** Throwing inside all frames. Without any handler the search fails and no frame is even entered; `outer` says that the
      caller of the nest handles whatever comes out. */
  function Throw(frames: seq<seq<int>>, e: Exn, outer: bool): (seq<Event>, Option<Exn>) {
    if Handler(frames, e).None? && !outer then ([], Some(e)) else Walk(frames, Some(e))
  }

  /** The finally blocks of frames hi - 1 down to lo. */
  function Finallys(lo: nat, hi: nat): seq<Event>
    decreases hi
  {
    if hi <= lo then [] else [InFinally(hi - 1)] + Finallys(lo, hi - 1)
  }

  lemma {:induction false} QuietWalk(frames: seq<seq<int>>)
    ensures Walk(frames, None) == (Finallys(0, |frames|), None)
    decreases |frames|
  {
    if frames != [] {
      FrameRuns(|frames[|frames| - 1]|, |frames| - 1, Returns);
      QuietWalk(frames[..|frames| - 1]);
    }
  }

  /** Exactly what happens when something is thrown inside a nest of wrapped functions. */
  lemma {:induction false} NestUnwinds(frames: seq<seq<int>>, e: Exn)
    ensures match Handler(frames, e)
            case None => Walk(frames, Some(e)) == (Finallys(0, |frames|), Some(e))
            case Some(k) =>
              Walk(frames, Some(e)) ==
                (Finallys(k + 1, |frames|)
                 + [InCatch(k, FirstIndex(frames[k], e.kind).value), InFinally(k), Freed(k, e)]
                 + Finallys(0, k), None)
    decreases |frames|
  {
    hide RunFrame, Layout, FrameResult;
    if frames != [] {
      var n := |frames| - 1;
      var callee := Throws(e, SelectorFor(frames[n], e));
      FrameRuns(|frames[n]|, n, callee);
      ResultIs(|frames[n]|, n, callee);
      if e.ours && e.kind in frames[n] {
        QuietWalk(frames[..n]);
        assert Finallys(n + 1, n + 1) == [];
        var caught := [InCatch(n, FirstIndex(frames[n], e.kind).value), InFinally(n), Freed(n, e)];
        assert [] + caught + Finallys(0, n) == caught + Finallys(0, n);
      } else {
        NestUnwinds(frames[..n], e);
        assert callee.selector == 0;
        var k := Handler(frames, e);
        assert k == Handler(frames[..n], e);
        if k.Some? {
          assert Finallys(k.value + 1, n + 1) == [InFinally(n)] + Finallys(k.value + 1, n);
          assert frames[..n][k.value] == frames[k.value];
          var caught := [InCatch(k.value, FirstIndex(frames[k.value], e.kind).value), InFinally(k.value), Freed(k.value, e)];
          var inner := Finallys(k.value + 1, n);
          assert [InFinally(n)] + (inner + caught + Finallys(0, k.value)) == [InFinally(n)] + inner + caught + Finallys(0, k.value);
        }
      }
    }
  }

  lemma ResultIs(clauses: nat, number: nat, callee: Callee)
    requires callee.Throws?
    ensures FrameResult(clauses, number, callee) ==
              if callee.exn.ours && 1 <= callee.selector <= clauses
              then Returned([InCatch(number, callee.selector - 1), InFinally(number), Freed(number, callee.exn)])
              else Resumed([InFinally(number)], callee.exn)
  {
  }

  function Count(events: seq<Event>, x: Event): nat {
    if events == [] then 0 else (if events[0] == x then 1 else 0) + Count(events[1..], x)
  }

  lemma {:induction false} CountAppend(a: seq<Event>, b: seq<Event>, x: Event)
    ensures Count(a + b, x) == Count(a, x) + Count(b, x)
  {
    if a == [] {
      assert a + b == b;
    } else {
      assert (a + b)[1..] == a[1..] + b;
      CountAppend(a[1..], b, x);
    }
  }

  lemma {:induction false} CountFinallys(lo: nat, hi: nat, x: Event)
    ensures Count(Finallys(lo, hi), x) == if x.InFinally? && lo <= x.frame < hi then 1 else 0
    decreases hi
  {
    if lo < hi {
      CountFinallys(lo, hi - 1, x);
      assert Finallys(lo, hi)[1..] == Finallys(lo, hi - 1);
    }
  }

  lemma CountThree(a: Event, b: Event, c: Event, x: Event)
    ensures Count([a, b, c], x) == (if a == x then 1 else 0) + (if b == x then 1 else 0) + (if c == x then 1 else 0)
  {
    assert [a, b, c][1..] == [b, c] && [b, c][1..] == [c] && [c][1..] == [];
    assert Count([b, c], x) == (if b == x then 1 else 0) + Count([c], x);
  }

  /** How often x happens where frame k, if any, catches with clause i, and finally blocks run if `all`. */
  function Times(k: Option<nat>, i: nat, e: Exn, all: bool, x: Event): nat {
    match x
    case InFinally(_) => if all then 1 else 0
    case InCatch(f, c) => if k == Some(f) && c == i then 1 else 0
    case Freed(f, y) => if k == Some(f) && y == e then 1 else 0
  }

  lemma CaughtCount(n: nat, k: nat, i: nat, e: Exn, x: Event)
    requires k < n && x.frame < n
    ensures Count(Finallys(k + 1, n) + [InCatch(k, i), InFinally(k), Freed(k, e)] + Finallys(0, k), x) == Times(Some(k), i, e, true, x)
  {
    hide Finallys, Count;
    var caught := [InCatch(k, i), InFinally(k), Freed(k, e)];
    CountFinallys(k + 1, n, x);
    CountFinallys(0, k, x);
    CountThree(InCatch(k, i), InFinally(k), Freed(k, e), x);
    CountAppend(Finallys(k + 1, n), caught, x);
    CountAppend(Finallys(k + 1, n) + caught, Finallys(0, k), x);
  }

  /** How often each thing happens, for any catch lists and any depth. Every finally block runs exactly once if the exception
      is handled by some frame or by the caller of the nest, and otherwise none does. The innermost frame that lists the
      type catches, with the first clause that has it, and frees the exception, once; nothing is freed otherwise. A foreign
      exception is never caught. */
  lemma EventsCounted(frames: seq<seq<int>>, e: Exn, outer: bool, x: Event)
    requires x.frame < |frames|
    ensures var k := Handler(frames, e);
            Count(Throw(frames, e, outer).0, x)
              == Times(k, if k.Some? then FirstIndex(frames[k.value], e.kind).value else 0, e, k.Some? || outer, x)
    ensures Throw(frames, e, outer).1 == if Handler(frames, e).Some? then None else Some(e)
    ensures !e.ours ==> Handler(frames, e).None?
  {
    hide Walk, Finallys, Count;
    NestUnwinds(frames, e);
    match Handler(frames, e) {
      case None =>
        CountFinallys(0, |frames|, x);
        NoEvents(x);
      case Some(k) =>
        CaughtCount(|frames|, k, FirstIndex(frames[k], e.kind).value, e, x);
    }
  }

  lemma NoEvents(x: Event)
    ensures Count([], x) == 0
  {
  }

  // The same with the tables of each function, read by the personality routine

  /** A frame of a nest: the clauses of its function, its tables, and where in it the call is. */
  datatype Framed = Framed(clauses: seq<int>, tb: Tables, pc: nat)

  function Clauses(nest: seq<Framed>): (frames: seq<seq<int>>)
    ensures |frames| == |nest| && forall i | 0 <= i < |nest| :: frames[i] == nest[i].clauses
  {
    seq(|nest|, i requires 0 <= i < |nest| => nest[i].clauses)
  }

  /** Every frame has tables that can be read and that list its clauses. */
  ghost predicate NestOk(nest: seq<Framed>, chains: seq<map<nat, seq<nat>>>) {
    |chains| == |nest| && forall i | 0 <= i < |nest| :: TablesOk(nest[i].tb, chains[i]) && TablesFor(nest[i].tb, chains[i], nest[i].clauses, nest[i].pc)
  }

  /** The search phase of the unwinder asks the personality routine of every frame, from the innermost out. */
  method SearchPhase(nest: seq<Framed>, e: Exn, ghost chains: seq<map<nat, seq<nat>>>) returns (handled: bool)
    requires NestOk(nest, chains)
    ensures handled == Handler(Clauses(nest), e).Some?
  {
    ghost var frames := Clauses(nest);
    handled := false;
    var n := |nest|;
    assert frames[..n] == frames;
    while n > 0
      invariant 0 <= n <= |nest| && Handler(frames[..n], e) == Handler(frames, e)
    {
      n := n - 1;
      var f := nest[n];
      var reason, installed := HandleLsda(f.tb, true, e.ours, e.kind, f.pc, chains[n]);
      ClausesSelect(f.tb, chains[n], f.clauses, f.pc, e);
      assert frames[..n + 1][..n] == frames[..n] && frames[..n + 1][n] == f.clauses;
      if reason == HandlerFound {
        return true;
      }
    }
  }

  /** The cleanup phase enters the landing pad of a frame with the selector of its clauses. */
  method Install(f: Framed, e: Exn, ghost chains: map<nat, seq<nat>>) returns (selector: nat)
    requires TablesOk(f.tb, chains) && TablesFor(f.tb, chains, f.clauses, f.pc)
    ensures selector == SelectorFor(f.clauses, e)
  {
    hide TablesOk, TablesFor, Selector, SelectorFor, FindSite;
    var reason, installed := HandleLsda(f.tb, false, e.ours, e.kind, f.pc, chains);
    ClausesSelect(f.tb, chains, f.clauses, f.pc, e);
    SiteFound(f.tb, chains, f.clauses, f.pc);
    selector := installed.value.selector;
  }

  /** The cleanup phase in one frame: its landing pad is entered with the selector installed, or the call in it returns. */
  method UnwindFrame(f: Framed, n: nat, thrown: Option<Exn>, ghost chains: map<nat, seq<nat>>) returns (events: seq<Event>, left: Option<Exn>)
    requires TablesOk(f.tb, chains) && TablesFor(f.tb, chains, f.clauses, f.pc)
    ensures forall frames: seq<seq<int>> | |frames| == n + 1 && frames[n] == f.clauses ::
              Walk(frames, thrown) == (events + Walk(frames[..n], left).0, Walk(frames[..n], left).1)
  {
    hide RunFrame, Layout, TablesOk, TablesFor, SelectorFor, Walk;
    var callee := Returns;
    if thrown.Some? {
      var selector := Install(f, thrown.value, chains);
      callee := Throws(thrown.value, selector);
    }
    FrameRuns(|f.clauses|, n, callee);
    match RunFrame(Layout(|f.clauses|), n, callee) {
      case Returned(more) =>
        events, left := more, None;
      case Resumed(more, exn) =>
        events, left := more, Some(exn);
      case Running(_) =>
        assert false;
      case Malformed =>
        assert false;
    }
    forall frames: seq<seq<int>> | |frames| == n + 1 && frames[n] == f.clauses
      ensures Walk(frames, thrown) == (events + Walk(frames[..n], left).0, Walk(frames[..n], left).1)
    {
      WalkStep(frames, thrown, callee, events, left);
    }
  }

  lemma WalkStep(frames: seq<seq<int>>, thrown: Option<Exn>, callee: Callee, events: seq<Event>, left: Option<Exn>)
    requires frames != []
    requires var n := |frames| - 1;
             && callee == (if thrown.None? then Returns else Throws(thrown.value, SelectorFor(frames[n], thrown.value)))
             && RunFrame(Layout(|frames[n]|), n, callee) == if left.None? then Returned(events) else Resumed(events, left.value)
    ensures var n := |frames| - 1; Walk(frames, thrown) == (events + Walk(frames[..n], left).0, Walk(frames[..n], left).1)
  {
    hide RunFrame, Layout;
  }

  /** Throwing inside a nest: the frame that the search phase finds, the selectors that the cleanup phase installs, and the
      generated code of every frame together do what the clauses say. */
  method Raise(nest: seq<Framed>, e: Exn, outer: bool, ghost chains: seq<map<nat, seq<nat>>>)
      returns (events: seq<Event>, left: Option<Exn>)
    requires NestOk(nest, chains)
    ensures (events, left) == Throw(Clauses(nest), e, outer)
  {
    hide Walk, TablesOk, TablesFor;
    ghost var frames := Clauses(nest);
    events, left := [], Some(e);
    var handled := SearchPhase(nest, e, chains);
    if !handled && !outer {
      return;
    }
    var n := |nest|;
    ghost var all := Walk(frames, Some(e));
    assert frames[..n] == frames && [] + all.0 == all.0;
    while n > 0
      invariant 0 <= n <= |nest|
      invariant (events + Walk(frames[..n], left).0, Walk(frames[..n], left).1) == all
    {
      n := n - 1;
      ghost var before, inner := events, frames[..n + 1];
      assert inner[..n] == frames[..n] && inner[n] == nest[n].clauses;
      var more;
      more, left := UnwindFrame(nest[n], n, left, chains[n]);
      events := events + more;
      assert before + (more + Walk(frames[..n], left).0) == events + Walk(frames[..n], left).0;
    }
    NothingLeft(left);
    assert frames[..0] == [] && events + [] == events;
  }

  lemma NothingLeft(left: Option<Exn>)
    ensures Walk([], left) == ([], left)
  {
  }

  lemma SiteFound(tb: Tables, chains: map<nat, seq<nat>>, clauses: seq<int>, pc: nat)
    requires TablesFor(tb, chains, clauses, pc)
    ensures FindSite(tb.sites, pc).Some?
  {
  }
}
