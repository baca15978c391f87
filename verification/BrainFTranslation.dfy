/** What it means for emitted blocks to translate a program text, token by token, and the proof that such
    blocks run in step with the text. */
module BrainFTranslation {
  import opened Wrappers
  import opened BrainFLanguage
  import opened BrainFMachine

  const ARR := 0
  const ARRMAX := 1
  const HEAD := 2
  const END := 1
  const ABERROR := 2
  const INT_MAX := 0x7fff_ffff

  datatype Symbol = SymNone | SymRead | SymWrite | SymMove | SymChange | SymLoop | SymEndLoop | SymEof

  /** A token: its net amount, the position of its first command, and where its text ends. */
  datatype Token = Token(sym: Symbol, value: int, first: nat, end: nat)

  /** Where code stands in the function, and the register that holds the head there. */
  datatype Point = Point(block: nat, idx: nat, head: Reg)

  /** The blocks and heads of one finished loop; `before` and `back` are the two ways into the test block. */
  datatype Loop = Loop(before: Point, back: Point, test: nat, body: nat, exit: nat, phi: Reg, phi1: Reg)

  /** Token starts to code points, token starts to tokens, and '[' positions to loops. */
  datatype Atlas = Atlas(pts: map<nat, Point>, toks: map<nat, Token>, loops: map<nat, Loop>)

  /** APInt(32, v) read back as the signed index of a getelementptr. */
  function Wrap32(v: int): int { (v + 0x8000_0000) % 0x1_0000_0000 - 0x8000_0000 }

  /** Net count of a run of commands. */
  function Net(text: string, s: nat, e: nat): int
    requires s <= e <= |text|
    decreases e - s
  {
    if s == e then 0 else Delta(text[s]) + Net(text, s + 1, e)
  }

  predicate Comments(text: string, s: nat, e: nat)
    requires e <= |text|
  {
    forall i :: s <= i < e ==> IsComment(text[i])
  }

  predicate Single(text: string, s: nat, e: nat, c: char) {
    s < e <= |text| && Comments(text, s, e - 1) && text[e - 1] == c
  }

  /** Token t is what the text holds from s on. */
  predicate TokenAt(text: string, s: nat, t: Token) {
    && s <= t.end <= |text|
    && match t.sym
       case SymRead => Single(text, s, t.end, ',')
       case SymWrite => Single(text, s, t.end, '.')
       case SymLoop => Single(text, s, t.end, '[')
       case SymEndLoop => Single(text, s, t.end, ']')
       case SymChange =>
         && s <= t.first < t.end && Comments(text, s, t.first) && IsChange(text[t.first])
         && (forall i :: s <= i < t.end ==> IsChange(text[i]) || IsComment(text[i]))
         && t.value == Net(text, s, t.end)
       case SymMove =>
         && s <= t.first < t.end && Comments(text, s, t.first) && IsMove(text[t.first])
         && (forall i :: s <= i < t.end ==> IsMove(text[i]) || IsComment(text[i]))
         && !MoreMoves(text, t.end)
         && t.value == Net(text, s, t.end)
       case SymEof => t.end == |text| && Comments(text, s, |text|)
       case SymNone => false
  }

  predicate Temp(r: Reg, head: Reg) { r > ARRMAX && r != head }

  predicate ReadCode(b: Block, i: nat, h: Reg) {
    && i + 3 <= |b| && b[i].GetcharCall? && b[i + 1].Trunc8? && b[i + 1].src == b[i].dst
    && b[i + 2] == StoreTo(b[i + 1].dst, h)
    && Temp(b[i].dst, h) && Temp(b[i + 1].dst, h)
  }

  predicate WriteCode(b: Block, i: nat, h: Reg) {
    && i + 3 <= |b| && b[i].Load? && b[i].ptr == h && b[i + 1].Sext32? && b[i + 1].src == b[i].dst
    && b[i + 2] == PutcharCall(b[i + 1].dst)
    && Temp(b[i].dst, h) && Temp(b[i + 1].dst, h)
  }

  predicate ChangeCode(b: Block, i: nat, h: Reg, v: int) {
    && i + 3 <= |b| && b[i].Load? && b[i].ptr == h
    && b[i + 1].Add8? && b[i + 1].src == b[i].dst && b[i + 1].val == v % 256
    && b[i + 2] == StoreTo(b[i + 1].dst, h)
    && Temp(b[i].dst, h) && Temp(b[i + 1].dst, h)
  }

  predicate MoveCode(b: Block, i: nat, h: Reg, v: int, h': Reg) {
    i < |b| && b[i] == Gep(h', h, Wrap32(v)) && h' > ARRMAX
  }

  predicate BoundsCode(b: Block, i: nat, h: Reg, next: nat) {
    && i + 4 <= |b| && b[i].IcmpUge? && b[i].a == h && b[i].b == ARRMAX
    && b[i + 1].IcmpUlt? && b[i + 1].a == h && b[i + 1].b == ARR
    && b[i + 2].OrBits? && b[i + 2].a == b[i].dst && b[i + 2].b == b[i + 1].dst
    && b[i + 3] == CondBr(b[i + 2].dst, ABERROR, next)
    && Temp(b[i].dst, h) && Temp(b[i + 1].dst, h) && Temp(b[i + 2].dst, h) && b[i].dst != b[i + 1].dst
  }

  /** The test block of a finished loop, and the phi that opens the block after it. */
  predicate LoopCode(blocks: seq<Block>, L: Loop) {
    && L.test < |blocks| && L.exit < |blocks|
    && |blocks[L.test]| >= 4
    && blocks[L.test][0] == Phi(L.phi, [(L.before.head, L.before.block), (L.back.head, L.back.block)])
    && blocks[L.test][1].Load? && blocks[L.test][1].ptr == L.phi
    && blocks[L.test][2].IcmpEqZero? && blocks[L.test][2].a == blocks[L.test][1].dst
    && blocks[L.test][3] == CondBr(blocks[L.test][2].dst, L.exit, L.body)
    && Temp(blocks[L.test][1].dst, L.phi) && Temp(blocks[L.test][2].dst, L.phi)
    && |blocks[L.exit]| > 0 && blocks[L.exit][0] == Phi(L.phi1, [(L.phi, L.test)])
    && L.before.block != L.back.block && L.phi > ARRMAX && L.phi1 > ARRMAX
  }

  predicate LoopPoints(text: string, A: Atlas, o: nat) {
    && o in A.loops && o < |text| && text[o] == '['
    && var L := A.loops[o]; var q := Close(text, o + 1, 0);
    && q.Some?
    && o + 1 in A.pts && A.pts[o + 1] == Point(L.body, 0, L.phi)
    && q.value + 1 in A.pts && A.pts[q.value + 1] == Point(L.exit, 1, L.phi1)
  }

  /** The code at p carries out a token without brackets and leads to p'. */
  predicate Straight(checked: bool, blocks: seq<Block>, t: Token, p: Point, p': Point) {
    && p.block < |blocks|
    && var b := blocks[p.block];
    && match t.sym
       case SymRead => ReadCode(b, p.idx, p.head) && p' == p.(idx := p.idx + 3)
       case SymWrite => WriteCode(b, p.idx, p.head) && p' == p.(idx := p.idx + 3)
       case SymChange => ChangeCode(b, p.idx, p.head, t.value) && p' == p.(idx := p.idx + 3)
       case SymMove =>
         && MoveCode(b, p.idx, p.head, t.value, p'.head)
         && if checked then BoundsCode(b, p.idx + 1, p'.head, p'.block) && p'.idx == 0
            else p'.block == p.block && p'.idx == p.idx + 1
       case _ => false
  }

  /** The token at s is translated at its point, and the code leads to the point of the text that follows. */
  predicate Translated(text: string, checked: bool, blocks: seq<Block>, A: Atlas, s: nat) {
    && s in A.toks && s in A.pts && TokenAt(text, s, A.toks[s])
    && var t := A.toks[s]; var p := A.pts[s];
    && p.block < |blocks|
    && var b := blocks[p.block];
    && match t.sym
       case SymLoop =>
         && LoopPoints(text, A, t.end - 1)
         && var L := A.loops[t.end - 1];
         && L.before == p && LoopCode(blocks, L) && p.idx < |b| && b[p.idx] == Br(L.test)
       case SymEndLoop =>
         && Open(text, t.end - 1, 0).Some?
         && var o := Open(text, t.end - 1, 0).value;
         && LoopPoints(text, A, o)
         && var L := A.loops[o];
         && L.back == p && LoopCode(blocks, L) && p.idx < |b| && b[p.idx] == Br(L.test)
       case SymEof => p.idx < |b| && b[p.idx] == Br(END)
       case _ => t.end in A.pts && Straight(checked, blocks, t, p, A.pts[t.end])
  }

  function HeaderCode(mem: nat, checked: bool): Block {
    [Malloc(ARR, mem), Memset(ARR, 0, mem)]
    + (if checked then [Gep(ARRMAX, ARR, mem)] else [])
    + [Gep(HEAD, ARR, mem / 2)]
  }

  predicate FixedBlocks(blocks: seq<Block>, mem: nat, checked: bool) {
    && |blocks| >= (if checked then 3 else 2)
    && HeaderCode(mem, checked) <= blocks[0]
    && blocks[END] == [FreeTape(ARR), RetVoid]
    && (checked ==> blocks[ABERROR] == [Puts, Br(END)])
  }

  /** A whole function that translates a whole text. */
  ghost predicate Compiled(text: string, mem: nat, checked: bool, blocks: seq<Block>, A: Atlas) {
    && FixedBlocks(blocks, mem, checked)
    && 0 in A.pts && A.pts[0] == Point(0, |HeaderCode(mem, checked)|, HEAD)
    && A.pts.Keys <= A.toks.Keys
    && (forall s {:trigger Translated(text, checked, blocks, A, s)} :: s in A.toks ==> Translated(text, checked, blocks, A, s))
  }
}
