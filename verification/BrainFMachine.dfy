/** The instructions the BrainF compiler emits, and a machine that runs a function made of them.
    Pointers are offsets from the start of the tape. */
module BrainFMachine {
  import opened Wrappers
  import opened BrainFLanguage

  type Reg = nat
  type Block = seq<Instr>

  datatype Instr =
    | Malloc(dst: Reg, size: nat)
    | Memset(ptr: Reg, val: byte, size: nat)
    | Gep(dst: Reg, ptr: Reg, off: int)
    | GetcharCall(dst: Reg)
    | Trunc8(dst: Reg, src: Reg)
    | Sext32(dst: Reg, src: Reg)
    | PutcharCall(src: Reg)
    | Load(dst: Reg, ptr: Reg)
    | StoreTo(src: Reg, ptr: Reg)
    | Add8(dst: Reg, src: Reg, val: byte)
    | IcmpUge(dst: Reg, a: Reg, b: Reg)
    | IcmpUlt(dst: Reg, a: Reg, b: Reg)
    | OrBits(dst: Reg, a: Reg, b: Reg)
    | IcmpEqZero(dst: Reg, a: Reg)
    | Phi(dst: Reg, incoming: seq<(Reg, nat)>)
    | Br(target: nat)
    | CondBr(cond: Reg, yes: nat, no: nat)
    | Puts
    | FreeTape(ptr: Reg)
    | RetVoid

  /** `prev` is the block control came from; `live` says the tape is allocated. */
  datatype Machine = Machine(block: nat, prev: nat, idx: nat, env: map<Reg, int>, world: World, live: bool, status: Status)

  const TWO_64 := 0x1_0000_0000_0000_0000

  /** What the program runs on: its standard input, what malloc hands out, and where. */
  datatype Host = Host(input: seq<byte>, junk: seq<byte>, base: nat)

  /** The 64-bit address of an offset; it wraps around. */
  function Address(h: Host, off: int): int { (h.base + off) % TWO_64 }

  function SignedByte(b: int): int { if b < 128 then b else b - 256 }

  function Bit(b: bool): int { if b then 1 else 0 }

  function Incoming(inc: seq<(Reg, nat)>, from: nat): Option<Reg> {
    if |inc| == 0 then None
    else if inc[0].1 == from then Some(inc[0].0)
    else Incoming(inc[1..], from)
  }

  function Fail(m: Machine): Machine { m.(status := Stuck) }

  function Define(m: Machine, r: Reg, v: int): Machine {
    m.(env := m.env[r := v], idx := m.idx + 1)
  }

  function Next(m: Machine, w: World): Machine { m.(world := w, idx := m.idx + 1) }

  function Jump(m: Machine, b: nat): Machine { m.(block := b, prev := m.block, idx := 0) }

  /** One instruction; using a register that has no value, or a block without the wanted phi entry, is Stuck. */
  function Exec(ins: Instr, h: Host, m: Machine): Machine {
    var w := m.world;
    match ins
    case Malloc(r, n) =>
      if |h.junk| == n then Define(m, r, 0).(world := w.(tape := h.junk), live := true) else Fail(m)
    case Memset(p, v, n) =>
      if p in m.env && m.live && m.env[p] == 0 && n == |w.tape|
      then Next(m, w.(tape := seq(n, _ => v))) else Fail(m)
    case Gep(r, p, off) => if p in m.env then Define(m, r, m.env[p] + off) else Fail(m)
    case GetcharCall(r) => Define(m, r, Getchar(h.input, w)).(world := Consume(h.input, w))
    case Trunc8(r, a) => if a in m.env then Define(m, r, m.env[a] % 256) else Fail(m)
    case Sext32(r, a) => if a in m.env then Define(m, r, SignedByte(m.env[a])) else Fail(m)
    case PutcharCall(a) => if a in m.env then Next(m, w.(out := w.out + [m.env[a] % 256])) else Fail(m)
    case Load(r, p) =>
      if p !in m.env || !m.live then Fail(m)
      else if OnTape(w, m.env[p]) then Define(m, r, w.tape[m.env[p]]) else m.(status := Wild)
    case StoreTo(a, p) =>
      if p !in m.env || a !in m.env || !m.live then Fail(m)
      else if OnTape(w, m.env[p]) then Next(m, w.(tape := w.tape[m.env[p] := m.env[a] % 256])) else m.(status := Wild)
    case Add8(r, a, c) => if a in m.env then Define(m, r, (m.env[a] + c) % 256) else Fail(m)
    case IcmpUge(r, a, b) =>
      if a in m.env && b in m.env then Define(m, r, Bit(Address(h, m.env[a]) >= Address(h, m.env[b]))) else Fail(m)
    case IcmpUlt(r, a, b) =>
      if a in m.env && b in m.env then Define(m, r, Bit(Address(h, m.env[a]) < Address(h, m.env[b]))) else Fail(m)
    case OrBits(r, a, b) =>
      if a in m.env && b in m.env then Define(m, r, Bit(m.env[a] == 1 || m.env[b] == 1)) else Fail(m)
    case IcmpEqZero(r, a) => if a in m.env then Define(m, r, Bit(m.env[a] == 0)) else Fail(m)
    case Phi(r, inc) =>
      (match Incoming(inc, m.prev)
       case None => Fail(m)
       case Some(a) => if a in m.env then Define(m, r, m.env[a]) else Fail(m))
    case Br(b) => Jump(m, b)
    case CondBr(c, yes, no) => if c in m.env then Jump(m, if m.env[c] == 1 then yes else no) else Fail(m)
    case Puts => Next(m, w.(err := true))
    case FreeTape(p) => if p in m.env && m.live && m.env[p] == 0 then Next(m, w).(live := false) else Fail(m)
    case RetVoid => m.(status := Done)
  }

  /** A machine that runs off the end of a block is Stuck. */
  function MStep(prog: seq<Block>, h: Host, m: Machine): Machine {
    if m.status != Running then m
    else if m.block < |prog| && m.idx < |prog[m.block]|
    then Exec(prog[m.block][m.idx], h, m)
    else Fail(m)
  }

  function MRun(prog: seq<Block>, h: Host, n: nat, m: Machine): Machine {
    if n == 0 then m else MRun(prog, h, n - 1, MStep(prog, h, m))
  }

  /** Nothing is defined or allocated when the function is entered. */
  function Entry(): Machine {
    Machine(0, 0, 0, map[], World([], 0, [], false), false, Running)
  }

  lemma {:induction false} MRunAdds(prog: seq<Block>, h: Host, a: nat, b: nat, m: Machine)
    ensures MRun(prog, h, a + b, m) == MRun(prog, h, b, MRun(prog, h, a, m))
    decreases a
  {
    if a > 0 { MRunAdds(prog, h, a - 1, b, MStep(prog, h, m)); }
  }

  lemma {:induction false} MRunHalted(prog: seq<Block>, h: Host, n: nat, m: Machine)
    requires m.status != Running
    ensures MRun(prog, h, n, m) == m
  {
    if n > 0 { MRunHalted(prog, h, n - 1, m); }
  }

  lemma {:induction false} MRunOutputGrows(prog: seq<Block>, h: Host, n: nat, m: Machine)
    ensures m.world.out <= MRun(prog, h, n, m).world.out
  {
    if n > 0 { MRunOutputGrows(prog, h, n - 1, MStep(prog, h, m)); }
  }
}
