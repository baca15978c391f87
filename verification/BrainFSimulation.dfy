/** Blocks that translate a text behave as the text does, whether or not the run ends. */
module BrainFSimulation {
  import opened Wrappers
  import opened BrainFLanguage
  import opened BrainFMachine
  import opened BrainFTranslation

  // Running the text across one token

  lemma {:induction false} SkipComments(text: string, checked: bool, input: seq<byte>, e: nat, s: State)
    requires s.status == Running && s.pc <= e <= |text| && Comments(text, s.pc, e)
    ensures Run(text, checked, input, e - s.pc, s) == s.(pc := e)
    decreases e - s.pc
  {
    if s.pc < e {
      SkipComments(text, checked, input, e, s.(pc := s.pc + 1));
    }
  }

  lemma Run1(text: string, checked: bool, input: seq<byte>, s: State)
    ensures Run(text, checked, input, 1, s) == Step(text, checked, input, s)
  {
    assert Run(text, checked, input, 1, s) == Run(text, checked, input, 0, Step(text, checked, input, s));
  }

  lemma {:induction false} RunThrough(text: string, checked: bool, input: seq<byte>, e: nat, s: State)
    requires s.status == Running && s.pc < e <= |text| && Comments(text, s.pc, e - 1)
    ensures Run(text, checked, input, e - s.pc, s) == Step(text, checked, input, s.(pc := e - 1))
  {
    SkipComments(text, checked, input, e - 1, s);
    RunAdds(text, checked, input, e - 1 - s.pc, 1, s);
    Run1(text, checked, input, s.(pc := e - 1));
  }

  /** A run of + and - adds its net amount modulo 256. */
  lemma {:induction false} RunChange(text: string, checked: bool, input: seq<byte>, e: nat, s: State)
    requires s.status == Running && s.pc <= e <= |text| && OnTape(s.world, s.head)
    requires forall i :: s.pc <= i < e ==> IsChange(text[i]) || IsComment(text[i])
    ensures Run(text, checked, input, e - s.pc, s)
         == s.(pc := e, world := Poke(s.world, s.head, Net(text, s.pc, e)))
    decreases e - s.pc
  {
    if s.pc == e {
      PokeZero(s.world, s.head);
    } else {
      var d := Delta(text[s.pc]);
      PokeZero(s.world, s.head);
      PokeTwice(s.world, s.head, d, Net(text, s.pc + 1, e));
      RunChange(text, checked, input, e, s.(pc := s.pc + 1, world := Poke(s.world, s.head, d)));
    }
  }

  /** A run of < and > moves the head by its net amount; it is tested once, where the run ends. */
  lemma {:induction false} RunMove(text: string, checked: bool, input: seq<byte>, e: nat, s: State)
    requires s.status == Running && s.pc <= e <= |text|
    requires forall i :: s.pc <= i < e ==> IsMove(text[i]) || IsComment(text[i])
    requires !MoreMoves(text, e)
    ensures var head := s.head + Net(text, s.pc, e); var r := Run(text, checked, input, e - s.pc, s);
            if checked && MoreMoves(text, s.pc) && !OnTape(s.world, head)
            then r.status == Done && r.world == s.world.(err := true)
            else r == s.(pc := e, head := head)
    decreases e - s.pc
  {
    if s.pc < e {
      var s' := Step(text, checked, input, s);
      if !MoreMoves(text, s.pc + 1) { NoMoreMoves(text, s.pc + 1, e); }
      if s'.status == Running {
        RunMove(text, checked, input, e, s');
      } else {
        RunHalted(text, checked, input, e - s.pc - 1, s');
      }
    }
  }

  lemma {:induction false} NoMoreMoves(text: string, p: nat, e: nat)
    requires p <= e <= |text| && !MoreMoves(text, p)
    requires forall i :: p <= i < e ==> IsMove(text[i]) || IsComment(text[i])
    ensures Net(text, p, e) == 0
    decreases e - p
  {
    if p < e { NoMoreMoves(text, p + 1, e); }
  }

  lemma {:induction false} MovesAhead(text: string, p: nat, f: nat)
    requires p <= f < |text| && Comments(text, p, f) && IsMove(text[f])
    ensures MoreMoves(text, p)
    decreases f - p
  {
    if p < f { MovesAhead(text, p + 1, f); }
  }

  lemma {:induction false} NetBound(text: string, s: nat, e: nat)
    requires s <= e <= |text|
    ensures -(e - s) <= Net(text, s, e) <= e - s
    decreases e - s
  {
    if s < e { NetBound(text, s + 1, e); }
  }

  // The relation between the two runs, at token boundaries

  ghost predicate Match(text: string, mem: nat, checked: bool, A: Atlas, s: State, m: Machine) {
    && s.world == m.world && s.status == m.status && s.status != Stuck
    && (s.status == Running ==>
         && s.pc in A.toks && s.pc in A.pts
         && var p := A.pts[s.pc];
         && m.block == p.block && m.idx == p.idx
         && Holds(m, p.head, s.head) && Holds(m, ARR, 0) && (checked ==> Holds(m, ARRMAX, mem) && 0 <= s.head <= mem)
         && m.live && |m.world.tape| == mem)
  }

  predicate Holds(m: Machine, r: Reg, v: int) { r in m.env && m.env[r] == v }

  /** The text after k steps and the machine after n steps are related again. */
  ghost predicate Advances(text: string, mem: nat, checked: bool, blocks: seq<Block>, A: Atlas, h: Host,
                           s: State, m: Machine, k: nat, n: nat)
  {
    Match(text, mem, checked, A, Run(text, checked, h.input, k, s), MRun(blocks, h, n, m))
  }

  // The machine across the code of one token

  predicate Keeps(m: Machine, m': Machine, r: Reg) { r in m.env ==> Holds(m', r, m.env[r]) }

  /** m' is m further on in the same block, with head register and fixed registers as they were. */
  predicate Onward(m: Machine, m': Machine, head: Reg, steps: nat, w: World) {
    && m'.status == Running && m'.block == m.block && m'.idx == m.idx + steps && m'.live == m.live && m'.world == w
    && Keeps(m, m', ARR) && Keeps(m, m', ARRMAX) && Keeps(m, m', head)
  }

  predicate AtCode(blocks: seq<Block>, m: Machine, head: Reg) {
    m.status == Running && m.live && m.block < |blocks| && head in m.env
  }

  lemma MRun1(blocks: seq<Block>, h: Host, m: Machine)
    ensures MRun(blocks, h, 1, m) == MStep(blocks, h, m)
  {
    assert MRun(blocks, h, 1, m) == MRun(blocks, h, 0, MStep(blocks, h, m));
  }

  lemma MRun2(blocks: seq<Block>, h: Host, m: Machine)
    ensures MRun(blocks, h, 2, m) == MStep(blocks, h, MStep(blocks, h, m))
  {
    MRun1(blocks, h, MStep(blocks, h, m));
  }

  lemma MRun3(blocks: seq<Block>, h: Host, m: Machine)
    ensures MRun(blocks, h, 3, m) == MStep(blocks, h, MStep(blocks, h, MStep(blocks, h, m)))
  {
    MRun2(blocks, h, MStep(blocks, h, m));
  }

  lemma Fetch(blocks: seq<Block>, h: Host, m: Machine, ins: Instr)
    requires m.status == Running && m.block < |blocks| && m.idx < |blocks[m.block]| && blocks[m.block][m.idx] == ins
    ensures MStep(blocks, h, m) == Exec(ins, h, m)
  {
  }

  lemma Halts(blocks: seq<Block>, h: Host, m: Machine)
    requires m.status != Running
    ensures MStep(blocks, h, m) == m
  {
  }

  lemma MachineRead(blocks: seq<Block>, h: Host, m: Machine, head: Reg)
    requires AtCode(blocks, m, head) && ReadCode(blocks[m.block], m.idx, head)
    ensures var r := MRun(blocks, h, 3, m); var w := Consume(h.input, m.world); var i := m.env[head];
            if OnTape(m.world, i)
            then Onward(m, r, head, 3, w.(tape := m.world.tape[i := Getchar(h.input, m.world) % 256]))
            else r.status == Wild && r.world == w
  {
    hide MStep;
    var b := blocks[m.block];
    var c := Getchar(h.input, m.world);
    var m1 := MStep(blocks, h, m);
    Fetch(blocks, h, m, GetcharCall(b[m.idx].dst));
    assert m1 == Define(m, b[m.idx].dst, c).(world := Consume(h.input, m.world));
    var m2 := MStep(blocks, h, m1);
    Fetch(blocks, h, m1, Trunc8(b[m.idx + 1].dst, b[m.idx].dst));
    assert m2 == Define(m1, b[m.idx + 1].dst, c % 256);
    assert Holds(m2, head, m.env[head]) && Keeps(m, m2, ARR) && Keeps(m, m2, ARRMAX);
    Fetch(blocks, h, m2, StoreTo(b[m.idx + 1].dst, head));
    MRun3(blocks, h, m);
  }

  lemma MachineWrite(blocks: seq<Block>, h: Host, m: Machine, head: Reg)
    requires AtCode(blocks, m, head) && WriteCode(blocks[m.block], m.idx, head)
    ensures var r := MRun(blocks, h, 3, m); var w := m.world; var i := m.env[head];
            if OnTape(w, i) then Onward(m, r, head, 3, w.(out := w.out + [w.tape[i]])) else r.status == Wild && r.world == w
  {
    hide MStep;
    var b := blocks[m.block];
    var m1 := MStep(blocks, h, m);
    Fetch(blocks, h, m, Load(b[m.idx].dst, head));
    MRun3(blocks, h, m);
    if OnTape(m.world, m.env[head]) {
      var v := m.world.tape[m.env[head]];
      assert m1 == Define(m, b[m.idx].dst, v);
      var m2 := MStep(blocks, h, m1);
      Fetch(blocks, h, m1, Sext32(b[m.idx + 1].dst, b[m.idx].dst));
      assert m2 == Define(m1, b[m.idx + 1].dst, SignedByte(v));
      assert Holds(m2, head, m.env[head]) && Keeps(m, m2, ARR) && Keeps(m, m2, ARRMAX);
      Fetch(blocks, h, m2, PutcharCall(b[m.idx + 1].dst));
    } else {
      Halts(blocks, h, m1);
    }
  }

  lemma MachineChange(blocks: seq<Block>, h: Host, m: Machine, head: Reg, v: int)
    requires AtCode(blocks, m, head) && ChangeCode(blocks[m.block], m.idx, head, v)
    ensures var r := MRun(blocks, h, 3, m); var w := m.world; var i := m.env[head];
            if OnTape(w, i) then Onward(m, r, head, 3, Poke(w, i, v))
            else r.status == Wild && r.world == w
  {
    hide MStep;
    var b := blocks[m.block];
    var m1 := MStep(blocks, h, m);
    Fetch(blocks, h, m, Load(b[m.idx].dst, head));
    MRun3(blocks, h, m);
    if OnTape(m.world, m.env[head]) {
      var v0 := m.world.tape[m.env[head]];
      assert m1 == Define(m, b[m.idx].dst, v0);
      var m2 := MStep(blocks, h, m1);
      Fetch(blocks, h, m1, Add8(b[m.idx + 1].dst, b[m.idx].dst, v % 256));
      assert (v0 + v % 256) % 256 == (v0 + v) % 256;
      assert m2 == Define(m1, b[m.idx + 1].dst, (v0 + v) % 256);
      assert Holds(m2, head, m.env[head]) && Keeps(m, m2, ARR) && Keeps(m, m2, ARRMAX);
      Fetch(blocks, h, m2, StoreTo(b[m.idx + 1].dst, head));
    } else {
      Halts(blocks, h, m1);
    }
  }

  lemma MachineMove(blocks: seq<Block>, h: Host, m: Machine, head: Reg, v: int, head': Reg)
    requires AtCode(blocks, m, head) && MoveCode(blocks[m.block], m.idx, head, v, head') && -INT_MAX <= v <= INT_MAX
    ensures var r := MStep(blocks, h, m);
            r == m.(env := m.env[head' := m.env[head] + v], idx := m.idx + 1)
  {
  }

  /** The two unsigned comparisons together decide whether an offset is on the tape, wherever the tape lies:
      below it the address is too small or wraps to the top, above it is too large or wraps to the bottom. */
  lemma BoundsTestExact(h: Host, mem: nat, off: int)
    requires mem <= INT_MAX && h.base + mem < TWO_64 && -INT_MAX <= off <= 2 * INT_MAX
    ensures (Address(h, off) >= Address(h, mem) || Address(h, off) < Address(h, 0)) <==> !(0 <= off < mem)
  {
  }

  lemma MachineBounds(blocks: seq<Block>, h: Host, m: Machine, head: Reg, mem: nat, next: nat)
    requires AtCode(blocks, m, head) && BoundsCode(blocks[m.block], m.idx, head, next)
    requires Holds(m, ARR, 0) && Holds(m, ARRMAX, mem)
    requires mem <= INT_MAX && h.base + mem < TWO_64 && -INT_MAX <= m.env[head] <= 2 * INT_MAX
    ensures var r := MRun(blocks, h, 4, m);
            && r.status == Running && r.block == (if 0 <= m.env[head] < mem then next else ABERROR) && r.idx == 0
            && r.live && r.world == m.world && Keeps(m, r, ARR) && Keeps(m, r, ARRMAX) && Keeps(m, r, head)
  {
    hide MStep;
    BoundsTestExact(h, mem, m.env[head]);
    var b := blocks[m.block];
    var m1 := MStep(blocks, h, m);
    Fetch(blocks, h, m, IcmpUge(b[m.idx].dst, head, ARRMAX));
    assert m1 == Define(m, b[m.idx].dst, Bit(Address(h, m.env[head]) >= Address(h, mem)));
    var m2 := MStep(blocks, h, m1);
    Fetch(blocks, h, m1, IcmpUlt(b[m.idx + 1].dst, head, ARR));
    assert m2 == Define(m1, b[m.idx + 1].dst, Bit(Address(h, m.env[head]) < Address(h, 0)));
    var m3 := MStep(blocks, h, m2);
    Fetch(blocks, h, m2, OrBits(b[m.idx + 2].dst, b[m.idx].dst, b[m.idx + 1].dst));
    assert m3 == Define(m2, b[m.idx + 2].dst, Bit(!(0 <= m.env[head] < mem)));
    Fetch(blocks, h, m3, CondBr(b[m.idx + 2].dst, ABERROR, next));
    assert MRun(blocks, h, 4, m) == MRun(blocks, h, 3, m1);
    MRun3(blocks, h, m1);
  }

  lemma MachineEnd(blocks: seq<Block>, h: Host, m: Machine)
    requires |blocks| > END && blocks[END] == [FreeTape(ARR), RetVoid]
    requires m.status == Running && m.block == END && m.idx == 0 && m.live && Holds(m, ARR, 0)
    ensures var r := MRun(blocks, h, 2, m); r.status == Done && r.world == m.world
  {
    MRun2(blocks, h, m);
  }

  lemma MachineError(blocks: seq<Block>, h: Host, m: Machine)
    requires |blocks| > ABERROR && blocks[END] == [FreeTape(ARR), RetVoid] && blocks[ABERROR] == [Puts, Br(END)]
    requires m.status == Running && m.block == ABERROR && m.idx == 0 && m.live && Holds(m, ARR, 0)
    ensures var r := MRun(blocks, h, 4, m); r.status == Done && r.world == m.world.(err := true)
  {
    MRun2(blocks, h, m);
    MRunAdds(blocks, h, 2, 2, m);
    MachineEnd(blocks, h, MRun(blocks, h, 2, m));
  }

  /** The phi of the test block takes the head of the side control came from. */
  lemma MachinePhi(blocks: seq<Block>, h: Host, m: Machine, L: Loop, from: Point)
    requires LoopCode(blocks, L) && (from == L.before || from == L.back)
    requires m.status == Running && m.block == L.test && m.idx == 0 && m.prev == from.block && from.head in m.env
    ensures MStep(blocks, h, m) == Define(m, L.phi, m.env[from.head])
  {
    var inc := [(L.before.head, L.before.block), (L.back.head, L.back.block)];
    assert inc[1..] == [(L.back.head, L.back.block)];
    assert Incoming(inc, from.block) == Some(from.head);
  }

  /** Load, compare and branch of the test block. */
  lemma MachineDecide(blocks: seq<Block>, h: Host, m: Machine, L: Loop)
    requires LoopCode(blocks, L) && m.status == Running && m.live && m.block == L.test && m.idx == 1 && L.phi in m.env
    ensures var w := m.world; var i := m.env[L.phi];
            if !OnTape(w, i) then MRun(blocks, h, 1, m) == m.(status := Wild)
            else var r := MRun(blocks, h, 3, m);
              && r.status == Running && r.live && r.world == w && r.prev == L.test && r.idx == 0
              && r.block == (if w.tape[i] != 0 then L.body else L.exit)
              && Keeps(m, r, ARR) && Keeps(m, r, ARRMAX) && Holds(r, L.phi, i)
  {
    hide MStep;
    var test := blocks[L.test];
    var i := m.env[L.phi];
    var m2 := MStep(blocks, h, m);
    Fetch(blocks, h, m, Load(test[1].dst, L.phi));
    if !OnTape(m.world, i) {
      MRun1(blocks, h, m);
      return;
    }
    var v := m.world.tape[i];
    assert m2 == Define(m, test[1].dst, v);
    var m3 := MStep(blocks, h, m2);
    Fetch(blocks, h, m2, IcmpEqZero(test[2].dst, test[1].dst));
    assert m3 == Define(m2, test[2].dst, Bit(v == 0));
    Fetch(blocks, h, m3, CondBr(test[2].dst, L.exit, L.body));
    MRun3(blocks, h, m);
  }

  /** From the test block of a loop, entered from either side. */
  lemma MachineTest(blocks: seq<Block>, h: Host, m: Machine, L: Loop, from: Point) returns (n: nat)
    requires LoopCode(blocks, L) && (from == L.before || from == L.back)
    requires m.status == Running && m.live && m.block == L.test && m.idx == 0 && m.prev == from.block && from.head in m.env
    ensures var r := MRun(blocks, h, n, m); var w := m.world; var i := m.env[from.head];
            if !OnTape(w, i) then r.status == Wild && r.world == w
            else
              && r.status == Running && r.live && r.world == w && Keeps(m, r, ARR) && Keeps(m, r, ARRMAX)
              && if w.tape[i] != 0 then r.block == L.body && r.idx == 0 && Holds(r, L.phi, i)
                 else r.block == L.exit && r.idx == 1 && Holds(r, L.phi1, i)
  {
    MachinePhi(blocks, h, m, L, from);
    var m1 := MStep(blocks, h, m);
    MachineDecide(blocks, h, m1, L);
    hide MStep, Exec, LoopCode;
    var i := m.env[from.head];
    n := 2;
    assert MRun(blocks, h, 2, m) == MRun(blocks, h, 1, m1);
    if OnTape(m.world, i) {
      n := 4;
      var m4 := MRun(blocks, h, 3, m1);
      assert MRun(blocks, h, 4, m) == m4;
      if m.world.tape[i] == 0 {
        MachineExit(blocks, h, m4, L);
        n := 5;
        MRunAdds(blocks, h, 4, 1, m);
        MRun1(blocks, h, m4);
      }
    }
  }

  lemma MachineExit(blocks: seq<Block>, h: Host, m: Machine, L: Loop)
    requires LoopCode(blocks, L) && m.status == Running && m.block == L.exit && m.idx == 0 && m.prev == L.test && L.phi in m.env
    ensures MStep(blocks, h, m) == Define(m, L.phi1, m.env[L.phi])
  {
    assert Incoming([(L.phi, L.test)], L.test) == Some(L.phi);
  }

  // Both runs across one token

  /** What one token of the simulation needs: its own translation, and that a token follows it. */
  ghost predicate Ready(text: string, mem: nat, checked: bool, blocks: seq<Block>, A: Atlas, h: Host, s: State, m: Machine) {
    && Match(text, mem, checked, A, s, m) && s.status == Running
    && Translated(text, checked, blocks, A, s.pc) && FixedBlocks(blocks, mem, checked)
    && A.pts.Keys <= A.toks.Keys
    && |text| <= INT_MAX && mem <= INT_MAX && h.base + mem < TWO_64
  }

  lemma SimulateIO(text: string, mem: nat, checked: bool, blocks: seq<Block>, A: Atlas, h: Host, s: State, m: Machine)
    requires Ready(text, mem, checked, blocks, A, h, s, m) && A.toks[s.pc].sym in {SymRead, SymWrite}
    ensures Advances(text, mem, checked, blocks, A, h, s, m, A.toks[s.pc].end - s.pc, 3)
  {
    hide Exec;
    RunThrough(text, checked, h.input, A.toks[s.pc].end, s);
    if A.toks[s.pc].sym == SymRead {
      MachineRead(blocks, h, m, A.pts[s.pc].head);
    } else {
      MachineWrite(blocks, h, m, A.pts[s.pc].head);
    }
  }

  lemma SimulateChange(text: string, mem: nat, checked: bool, blocks: seq<Block>, A: Atlas, h: Host, s: State, m: Machine)
    requires Ready(text, mem, checked, blocks, A, h, s, m) && A.toks[s.pc].sym == SymChange
    ensures Advances(text, mem, checked, blocks, A, h, s, m, A.toks[s.pc].end - s.pc, 3)
  {
    hide Exec;
    var t := A.toks[s.pc];
    if OnTape(s.world, s.head) {
      RunChange(text, checked, h.input, t.end, s);
    } else {
      RunThrough(text, checked, h.input, t.first + 1, s);
      RunAdds(text, checked, h.input, t.first + 1 - s.pc, t.end - t.first - 1, s);
      RunHalted(text, checked, h.input, t.end - t.first - 1, s.(pc := t.first, status := Wild));
    }
    MachineChange(blocks, h, m, A.pts[s.pc].head, t.value);
  }

  lemma SimulateMove(text: string, mem: nat, blocks: seq<Block>, A: Atlas, h: Host, s: State, m: Machine)
    requires Ready(text, mem, false, blocks, A, h, s, m) && A.toks[s.pc].sym == SymMove
    ensures Advances(text, mem, false, blocks, A, h, s, m, A.toks[s.pc].end - s.pc, 1)
  {
    hide Exec, Step;
    var t := A.toks[s.pc];
    NetBound(text, s.pc, t.end);
    RunMove(text, false, h.input, t.end, s);
    MachineMove(blocks, h, m, A.pts[s.pc].head, t.value, A.pts[t.end].head);
    MRun1(blocks, h, m);
  }

  lemma SimulateCheckedMove(text: string, mem: nat, blocks: seq<Block>, A: Atlas, h: Host, s: State, m: Machine)
      returns (n: nat)
    requires Ready(text, mem, true, blocks, A, h, s, m) && A.toks[s.pc].sym == SymMove
    ensures n > 0 && Advances(text, mem, true, blocks, A, h, s, m, A.toks[s.pc].end - s.pc, n)
  {
    hide Exec, Step;
    var t := A.toks[s.pc];
    var head' := A.pts[t.end].head;
    NetBound(text, s.pc, t.end);
    MovesAhead(text, s.pc, t.first);
    RunMove(text, true, h.input, t.end, s);
    MachineMove(blocks, h, m, A.pts[s.pc].head, t.value, head');
    var m1 := MStep(blocks, h, m);
    MachineBounds(blocks, h, m1, head', mem, A.pts[t.end].block);
    n := 5;
    var m5 := MRun(blocks, h, 4, m1);
    assert MRun(blocks, h, 5, m) == m5;
    if !OnTape(s.world, s.head + t.value) {
      MachineError(blocks, h, m5);
      MRunAdds(blocks, h, 5, 4, m);
      n := 9;
    }
  }

  lemma SimulateEof(text: string, mem: nat, checked: bool, blocks: seq<Block>, A: Atlas, h: Host, s: State, m: Machine)
    requires Ready(text, mem, checked, blocks, A, h, s, m) && A.toks[s.pc].sym == SymEof
    ensures Advances(text, mem, checked, blocks, A, h, s, m, |text| - s.pc + 1, 3)
  {
    SkipComments(text, checked, h.input, |text|, s);
    RunAdds(text, checked, h.input, |text| - s.pc, 1, s);
    Run1(text, checked, h.input, s.(pc := |text|));
    MachineEnd(blocks, h, MStep(blocks, h, m));
    assert MRun(blocks, h, 3, m) == MRun(blocks, h, 2, MStep(blocks, h, m));
  }

  /** The loop test, reached from the '[' or from the ']' of the loop at o. */
  lemma SimulateTest(text: string, mem: nat, checked: bool, blocks: seq<Block>, A: Atlas, h: Host, s: State, m: Machine, o: nat)
      returns (n: nat)
    requires Match(text, mem, checked, A, s, m) && s.status == Running && A.pts.Keys <= A.toks.Keys
    requires LoopPoints(text, A, o) && LoopCode(blocks, A.loops[o])
    requires A.pts[s.pc] == A.loops[o].before || A.pts[s.pc] == A.loops[o].back
    requires m.block < |blocks| && m.idx < |blocks[m.block]| && blocks[m.block][m.idx] == Br(A.loops[o].test)
    ensures n > 0
    ensures Match(text, mem, checked, A, Step(text, checked, h.input, s.(pc := o)), MRun(blocks, h, n, m))
  {
    var m1 := MStep(blocks, h, m);
    var n1 := MachineTest(blocks, h, m1, A.loops[o], A.pts[s.pc]);
    n := n1 + 1;
    assert MRun(blocks, h, n, m) == MRun(blocks, h, n1, m1);
  }

  lemma SimulateOpen(text: string, mem: nat, checked: bool, blocks: seq<Block>, A: Atlas, h: Host, s: State, m: Machine)
      returns (n: nat)
    requires Ready(text, mem, checked, blocks, A, h, s, m) && A.toks[s.pc].sym == SymLoop
    ensures n > 0 && Advances(text, mem, checked, blocks, A, h, s, m, A.toks[s.pc].end - s.pc, n)
  {
    hide Exec;
    var t := A.toks[s.pc];
    RunThrough(text, checked, h.input, t.end, s);
    n := SimulateTest(text, mem, checked, blocks, A, h, s, m, t.end - 1);
  }

  lemma SimulateClose(text: string, mem: nat, checked: bool, blocks: seq<Block>, A: Atlas, h: Host, s: State, m: Machine)
      returns (n: nat)
    requires Ready(text, mem, checked, blocks, A, h, s, m) && A.toks[s.pc].sym == SymEndLoop
    ensures n > 0 && Advances(text, mem, checked, blocks, A, h, s, m, A.toks[s.pc].end - s.pc + 1, n)
  {
    hide Exec;
    var t := A.toks[s.pc];
    var o := Open(text, t.end - 1, 0).value;
    RunThrough(text, checked, h.input, t.end, s);
    assert Step(text, checked, h.input, s.(pc := t.end - 1)) == s.(pc := o);
    RunAdds(text, checked, h.input, t.end - s.pc, 1, s);
    Run1(text, checked, h.input, s.(pc := o));
    n := SimulateTest(text, mem, checked, blocks, A, h, s, m, o);
  }

  /** One token: both runs reach the next token boundary, or halt alike. */
  lemma Simulate(text: string, mem: nat, checked: bool, blocks: seq<Block>, A: Atlas, h: Host, s: State, m: Machine)
      returns (k: nat, n: nat)
    requires Ready(text, mem, checked, blocks, A, h, s, m)
    ensures k > 0 && n > 0 && Advances(text, mem, checked, blocks, A, h, s, m, k, n)
  {
    k, n := A.toks[s.pc].end - s.pc, 3;
    match A.toks[s.pc].sym {
      case SymRead => SimulateIO(text, mem, checked, blocks, A, h, s, m);
      case SymWrite => SimulateIO(text, mem, checked, blocks, A, h, s, m);
      case SymChange => SimulateChange(text, mem, checked, blocks, A, h, s, m);
      case SymMove =>
        if checked {
          n := SimulateCheckedMove(text, mem, blocks, A, h, s, m);
        } else {
          SimulateMove(text, mem, blocks, A, h, s, m);
          n := 1;
        }
      case SymLoop => n := SimulateOpen(text, mem, checked, blocks, A, h, s, m);
      case SymEndLoop => n := SimulateClose(text, mem, checked, blocks, A, h, s, m); k := k + 1;
      case SymEof => SimulateEof(text, mem, checked, blocks, A, h, s, m); k := k + 1;
    }
  }

  /** The header sets up an all-zero tape whatever malloc returned, and the head in its middle. */
  lemma SimulateHeader(text: string, mem: nat, checked: bool, blocks: seq<Block>, A: Atlas, h: Host)
    requires FixedBlocks(blocks, mem, checked) && |h.junk| == mem
    requires 0 in A.pts && 0 in A.toks && A.pts[0] == Point(0, |HeaderCode(mem, checked)|, HEAD)
    ensures Advances(text, mem, checked, blocks, A, h, Initial(mem), Entry(), 0, |HeaderCode(mem, checked)|)
  {
    var m := Entry();
    MRun3(blocks, h, m);
    var m2 := MStep(blocks, h, MStep(blocks, h, m));
    assert seq(mem, _ => 0) == m2.world.tape;
    if checked {
      MRunAdds(blocks, h, 3, 1, m);
      MRun1(blocks, h, MStep(blocks, h, m2));
    }
  }

  lemma SimulateNext(text: string, mem: nat, checked: bool, blocks: seq<Block>, A: Atlas, h: Host, s: State, m: Machine)
      returns (k: nat, n: nat)
    requires Compiled(text, mem, checked, blocks, A) && Match(text, mem, checked, A, s, m)
    requires |text| <= INT_MAX && mem <= INT_MAX && h.base + mem < TWO_64
    ensures k > 0 && n > 0 && Advances(text, mem, checked, blocks, A, h, s, m, k, n)
  {
    if s.status == Running {
      assert Translated(text, checked, blocks, A, s.pc);
      k, n := Simulate(text, mem, checked, blocks, A, h, s, m);
    } else {
      k, n := 1, 1;
      RunHalted(text, checked, h.input, 1, s);
      MRunHalted(blocks, h, 1, m);
    }
  }

  ghost predicate Fits(text: string, mem: nat, h: Host) {
    |h.junk| == mem && |text| <= INT_MAX && mem <= INT_MAX && h.base + mem < TWO_64
  }

  lemma AdvancesOn(text: string, mem: nat, checked: bool, blocks: seq<Block>, A: Atlas, h: Host, s: State, m: Machine,
                   k: nat, n: nat, dk: nat, dn: nat)
    requires Advances(text, mem, checked, blocks, A, h, Run(text, checked, h.input, k, s), MRun(blocks, h, n, m), dk, dn)
    ensures Advances(text, mem, checked, blocks, A, h, s, m, k + dk, n + dn)
  {
    RunAdds(text, checked, h.input, k, dk, s);
    MRunAdds(blocks, h, n, dn, m);
  }

  lemma SimulateOn(text: string, mem: nat, checked: bool, blocks: seq<Block>, A: Atlas, h: Host, s: State, m: Machine, k: nat, n: nat)
      returns (k': nat, n': nat)
    requires Compiled(text, mem, checked, blocks, A) && Fits(text, mem, h)
    requires Advances(text, mem, checked, blocks, A, h, s, m, k, n)
    ensures k' > k && n' > n && Advances(text, mem, checked, blocks, A, h, s, m, k', n')
  {
    var dk, dn := SimulateNext(text, mem, checked, blocks, A, h, Run(text, checked, h.input, k, s), MRun(blocks, h, n, m));
    AdvancesOn(text, mem, checked, blocks, A, h, s, m, k, n, dk, dn);
    k', n' := k + dk, n + dn;
  }

  lemma SimulateStart(text: string, mem: nat, checked: bool, blocks: seq<Block>, A: Atlas, h: Host) returns (n: nat)
    requires Compiled(text, mem, checked, blocks, A) && Fits(text, mem, h)
    ensures Advances(text, mem, checked, blocks, A, h, Initial(mem), Entry(), 0, n)
  {
    SimulateHeader(text, mem, checked, blocks, A, h);
    n := |HeaderCode(mem, checked)|;
  }

  /** However far either run has gone, both reach related states further on. */
  lemma {:induction false} SimulateMany(text: string, mem: nat, checked: bool, blocks: seq<Block>, A: Atlas, h: Host, far: nat)
      returns (k: nat, n: nat)
    requires Compiled(text, mem, checked, blocks, A) && Fits(text, mem, h)
    ensures k >= far && n >= far && Advances(text, mem, checked, blocks, A, h, Initial(mem), Entry(), k, n)
    decreases far
  {
    if far == 0 {
      k := 0;
      n := SimulateStart(text, mem, checked, blocks, A, h);
    } else {
      k, n := SimulateMany(text, mem, checked, blocks, A, h, far - 1);
      k, n := SimulateOn(text, mem, checked, blocks, A, h, Initial(mem), Entry(), k, n);
    }
  }
}

/** What the simulation gives for whole runs. */
module BrainFCorrectness {
  import opened Wrappers
  import opened BrainFLanguage
  import opened BrainFMachine
  import opened BrainFTranslation
  import opened BrainFSimulation

  /** If the text halts, so does the function, in the same way: same final tape, input consumed, output and
      message; and an access outside the tape in one is an access outside the tape in the other. */
  lemma FunctionHaltsAsText(text: string, mem: nat, checked: bool, blocks: seq<Block>, A: Atlas, h: Host, n: nat)
      returns (j: nat)
    requires Compiled(text, mem, checked, blocks, A) && Fits(text, mem, h)
    requires Run(text, checked, h.input, n, Initial(mem)).status != Running
    ensures var s := Run(text, checked, h.input, n, Initial(mem)); var m := MRun(blocks, h, j, Entry());
            s.status == m.status != Stuck && s.world == m.world
  {
    var k;
    k, j := SimulateMany(text, mem, checked, blocks, A, h, n);
    RunAdds(text, checked, h.input, n, k - n, Initial(mem));
    RunHalted(text, checked, h.input, k - n, Run(text, checked, h.input, n, Initial(mem)));
  }

  /** And the other way round, so a text that runs forever becomes a function that runs forever. */
  lemma TextHaltsAsFunction(text: string, mem: nat, checked: bool, blocks: seq<Block>, A: Atlas, h: Host, n: nat)
      returns (k: nat)
    requires Compiled(text, mem, checked, blocks, A) && Fits(text, mem, h)
    requires MRun(blocks, h, n, Entry()).status != Running
    ensures var s := Run(text, checked, h.input, k, Initial(mem)); var m := MRun(blocks, h, n, Entry());
            s.status == m.status != Stuck && s.world == m.world
  {
    var j;
    k, j := SimulateMany(text, mem, checked, blocks, A, h, n);
    MRunAdds(blocks, h, n, j - n, Entry());
    MRunHalted(blocks, h, j - n, MRun(blocks, h, n, Entry()));
  }

  /** Whatever either run has printed so far, ended or not, the other prints too. */
  lemma OutputsAgree(text: string, mem: nat, checked: bool, blocks: seq<Block>, A: Atlas, h: Host, n: nat)
      returns (k: nat, j: nat)
    requires Compiled(text, mem, checked, blocks, A) && Fits(text, mem, h)
    ensures Run(text, checked, h.input, n, Initial(mem)).world.out <= MRun(blocks, h, j, Entry()).world.out
    ensures MRun(blocks, h, n, Entry()).world.out <= Run(text, checked, h.input, k, Initial(mem)).world.out
  {
    k, j := SimulateMany(text, mem, checked, blocks, A, h, n);
    RunAdds(text, checked, h.input, n, k - n, Initial(mem));
    RunOutputGrows(text, checked, h.input, k - n, Run(text, checked, h.input, n, Initial(mem)));
    MRunAdds(blocks, h, n, j - n, Entry());
    MRunOutputGrows(blocks, h, j - n, MRun(blocks, h, n, Entry()));
  }

  // The same, without the compiler's bookkeeping

  ghost predicate SameEnd(s: State, m: Machine) { s.status == m.status != Stuck && s.world == m.world }

  ghost predicate FunctionHalts(text: string, mem: nat, checked: bool, blocks: seq<Block>, h: Host, n: nat) {
    exists j: nat :: SameEnd(Run(text, checked, h.input, n, Initial(mem)), MRun(blocks, h, j, Entry()))
  }

  ghost predicate TextHalts(text: string, mem: nat, checked: bool, blocks: seq<Block>, h: Host, n: nat) {
    exists k: nat :: SameEnd(Run(text, checked, h.input, k, Initial(mem)), MRun(blocks, h, n, Entry()))
  }

  ghost predicate FunctionPrints(text: string, mem: nat, checked: bool, blocks: seq<Block>, h: Host, n: nat) {
    exists j: nat :: Run(text, checked, h.input, n, Initial(mem)).world.out <= MRun(blocks, h, j, Entry()).world.out
  }

  ghost predicate TextPrints(text: string, mem: nat, checked: bool, blocks: seq<Block>, h: Host, n: nat) {
    exists k: nat :: MRun(blocks, h, n, Entry()).world.out <= Run(text, checked, h.input, k, Initial(mem)).world.out
  }

  /** After n steps of either: one halts exactly when the other does and in the same way, never by misusing a
      register or phi, and each prints all that the other has printed. */
  ghost predicate Agrees(text: string, mem: nat, checked: bool, blocks: seq<Block>, h: Host, n: nat) {
    && (Run(text, checked, h.input, n, Initial(mem)).status != Running ==> FunctionHalts(text, mem, checked, blocks, h, n))
    && (MRun(blocks, h, n, Entry()).status != Running ==> TextHalts(text, mem, checked, blocks, h, n))
    && FunctionPrints(text, mem, checked, blocks, h, n)
    && TextPrints(text, mem, checked, blocks, h, n)
  }

  /** On every input, at every address, from any memory. */
  ghost predicate Faithful(text: string, mem: nat, checked: bool, blocks: seq<Block>) {
    forall h: Host, n: nat :: Fits(text, mem, h) ==> Agrees(text, mem, checked, blocks, h, n)
  }

  /** No run ever loads or stores outside the tape. */
  ghost predicate Safe(text: string, mem: nat, blocks: seq<Block>) {
    forall h: Host, n: nat :: Fits(text, mem, h) ==> MRun(blocks, h, n, Entry()).status in {Running, Done}
  }

  lemma CompiledIsFaithful(text: string, mem: nat, checked: bool, blocks: seq<Block>, A: Atlas)
    requires Compiled(text, mem, checked, blocks, A)
    ensures Faithful(text, mem, checked, blocks)
    ensures checked && mem > 0 ==> Safe(text, mem, blocks)
  {
    forall h: Host, n: nat | Fits(text, mem, h)
      ensures Agrees(text, mem, checked, blocks, h, n)
      ensures checked && mem > 0 ==> MRun(blocks, h, n, Entry()).status in {Running, Done}
    {
      hide Compiled, Step, MStep;
      if Run(text, checked, h.input, n, Initial(mem)).status != Running {
        var j := FunctionHaltsAsText(text, mem, checked, blocks, A, h, n);
        assert SameEnd(Run(text, checked, h.input, n, Initial(mem)), MRun(blocks, h, j, Entry()));
      }
      if MRun(blocks, h, n, Entry()).status != Running {
        var k := TextHaltsAsFunction(text, mem, checked, blocks, A, h, n);
        assert SameEnd(Run(text, checked, h.input, k, Initial(mem)), MRun(blocks, h, n, Entry()));
      }
      var k, j := OutputsAgree(text, mem, checked, blocks, A, h, n);
      if checked && mem > 0 { CheckedIsSafe(text, mem, blocks, A, h, n); }
    }
  }

  /** In checked mode the head is on the tape wherever a run of moves is not under way. */
  predicate HeadKept(text: string, s: State) {
    s.status == Running ==> OnTape(s.world, s.head) || MoreMoves(text, s.pc)
  }

  lemma {:induction false} HeadStays(text: string, input: seq<byte>, n: nat, s: State)
    requires HeadKept(text, s) && s.status != Wild
    ensures var r := Run(text, true, input, n, s); HeadKept(text, r) && r.status != Wild
    decreases n
  {
    if n > 0 {
      HeadStays(text, input, n - 1, Step(text, true, input, s));
    }
  }

  /** With bounds checks, every load and store of every run is on the tape, given that there is a tape. */
  lemma CheckedIsSafe(text: string, mem: nat, blocks: seq<Block>, A: Atlas, h: Host, n: nat)
    requires Compiled(text, mem, true, blocks, A) && Fits(text, mem, h) && mem > 0
    ensures MRun(blocks, h, n, Entry()).status in {Running, Done}
  {
    if MRun(blocks, h, n, Entry()).status !in {Running, Done} {
      var k := TextHaltsAsFunction(text, mem, true, blocks, A, h, n);
      HeadStays(text, h.input, k, Initial(mem));
    }
  }

  lemma PlusGoesWild(input: seq<byte>)
    ensures Run("+", true, input, 1, Initial(0)).status == Wild
  {
    Run1("+", true, input, Initial(0));
  }

  /** Without a tape the checks do not help: "+" touches cell 0 of an empty tape before any move is tested.
      So the checks make every program safe exactly when there is a tape. */
  lemma ChecksNeedATape(mem: nat, blocks: seq<Block>)
    requires mem <= INT_MAX && Faithful("+", mem, true, blocks)
    ensures Safe("+", mem, blocks) ==> mem > 0
  {
    hide Step, MStep;
    if mem == 0 {
      var h := Host([], [], 0);
      PlusGoesWild(h.input);
      assert Agrees("+", mem, true, blocks, h, 1);
    }
  }
}
