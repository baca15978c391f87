/** The BrainF language, one command at a time, on the program text itself. */
module BrainFLanguage {
  import opened Wrappers

  type byte = b: int | 0 <= b < 256

  /** `Wild` is an access outside the tape, `Stuck` a malformed program. */
  datatype Status = Running | Done | Wild | Stuck

  /** What a run can be told apart by: tape, input consumed, output, and the out-of-bounds message. */
  datatype World = World(tape: seq<byte>, inp: nat, out: seq<byte>, err: bool)

  datatype State = State(pc: nat, head: int, world: World, status: Status)

  predicate IsChange(c: char) { c == '+' || c == '-' }

  predicate IsMove(c: char) { c == '<' || c == '>' }

  predicate IsComment(c: char) {
    !IsChange(c) && !IsMove(c) && c != ',' && c != '.' && c != '[' && c != ']'
  }

  function Delta(c: char): int {
    if c == '+' || c == '>' then 1 else if c == '-' || c == '<' then -1 else 0
  }

  /** The i8 the program sees for one getchar: 255 at end of input. */
  function Getchar(input: seq<byte>, w: World): int {
    if w.inp < |input| then input[w.inp] else -1
  }

  function Consume(input: seq<byte>, w: World): World {
    if w.inp < |input| then w.(inp := w.inp + 1) else w
  }

  predicate OnTape(w: World, head: int) { 0 <= head < |w.tape| }

  /** Adds v to the cell under the head, modulo 256. */
  function Poke(w: World, head: int, v: int): World
    requires OnTape(w, head)
  {
    w.(tape := w.tape[head := (w.tape[head] + v) % 256])
  }

  lemma PokeZero(w: World, head: int)
    requires OnTape(w, head)
    ensures Poke(w, head, 0) == w
  {
    assert w.tape[head := w.tape[head]] == w.tape;
  }

  lemma PokeTwice(w: World, head: int, a: int, b: int)
    requires OnTape(w, head)
    ensures OnTape(Poke(w, head, a), head) && Poke(Poke(w, head, a), head, b) == Poke(w, head, a + b)
  {
    var v := w.tape[head];
    assert ((v + a) % 256 + b) % 256 == (v + a + b) % 256;
    assert w.tape[head := (v + a) % 256][head := (v + a + b) % 256] == w.tape[head := (v + a + b) % 256];
  }

  /** The position of the ']' that closes `d` + 1 open brackets, scanning right from `p`. */
  function Close(text: string, p: nat, d: nat): Option<nat>
    decreases |text| - p
  {
    if p >= |text| then None
    else if text[p] == '[' then Close(text, p + 1, d + 1)
    else if text[p] == ']' then (if d == 0 then Some(p) else Close(text, p + 1, d - 1))
    else Close(text, p + 1, d)
  }

  /** The position of the '[' that opens `d` + 1 unmatched ']', scanning left from `p`. */
  function Open(text: string, p: nat, d: nat): Option<nat>
    requires p <= |text|
  {
    if p == 0 then None
    else if text[p - 1] == ']' then Open(text, p - 1, d + 1)
    else if text[p - 1] == '[' then (if d == 0 then Some(p - 1) else Open(text, p - 1, d - 1))
    else Open(text, p - 1, d)
  }

  /** Brackets balance from `p` on when `d` of them are already open. */
  predicate Balanced(text: string, p: nat, d: nat)
    decreases |text| - p
  {
    if p >= |text| then d == 0
    else if text[p] == '[' then Balanced(text, p + 1, d + 1)
    else if text[p] == ']' then d > 0 && Balanced(text, p + 1, d - 1)
    else Balanced(text, p + 1, d)
  }

  /** The next command, comments skipped, is again a move. */
  predicate MoreMoves(text: string, p: nat)
    decreases |text| - p
  {
    p < |text| && (IsMove(text[p]) || (IsComment(text[p]) && MoreMoves(text, p + 1)))
  }

  /** One command. With `checked`, the head is tested where a run of moves ends. */
  function Step(text: string, checked: bool, input: seq<byte>, s: State): State {
    var w := s.world;
    if s.status != Running then s
    else if s.pc >= |text| then s.(status := Done)
    else
      var c := text[s.pc];
      if IsChange(c) then
        if OnTape(w, s.head)
        then s.(pc := s.pc + 1, world := Poke(w, s.head, Delta(c)))
        else s.(status := Wild)
      else if IsMove(c) then
        var head := s.head + Delta(c);
        if checked && !MoreMoves(text, s.pc + 1) && !OnTape(w, head)
        then s.(world := w.(err := true), status := Done)
        else s.(pc := s.pc + 1, head := head)
      else if c == ',' then
        var w' := Consume(input, w);
        if OnTape(w, s.head)
        then s.(pc := s.pc + 1, world := w'.(tape := w.tape[s.head := Getchar(input, w) % 256]))
        else s.(world := w', status := Wild)
      else if c == '.' then
        if OnTape(w, s.head)
        then s.(pc := s.pc + 1, world := w.(out := w.out + [w.tape[s.head]]))
        else s.(status := Wild)
      else if c == '[' then
        if !OnTape(w, s.head) then s.(status := Wild)
        else if w.tape[s.head] != 0 then s.(pc := s.pc + 1)
        else match Close(text, s.pc + 1, 0)
             case None => s.(status := Stuck)
             case Some(q) => s.(pc := q + 1)
      else if c == ']' then
        match Open(text, s.pc, 0)
        case None => s.(status := Stuck)
        case Some(o) => s.(pc := o)
      else s.(pc := s.pc + 1)
  }

  function Run(text: string, checked: bool, input: seq<byte>, n: nat, s: State): State {
    if n == 0 then s else Run(text, checked, input, n - 1, Step(text, checked, input, s))
  }

  /** All-zero tape, head in the middle. */
  function Initial(mem: nat): State {
    State(0, mem / 2, World(seq(mem, _ => 0), 0, [], false), Running)
  }

  // Brackets

  lemma {:induction false} CloseBounds(text: string, p: nat, d: nat)
    ensures var c := Close(text, p, d); c.Some? ==> p <= c.value < |text| && text[c.value] == ']'
    decreases |text| - p
  {
    if p < |text| {
      CloseBounds(text, p + 1, d + 1);
      CloseBounds(text, p + 1, d);
      if d > 0 { CloseBounds(text, p + 1, d - 1); }
    }
  }

  /** The two scans agree: a ']' found from the left leads back to the bracket the scan started under. */
  lemma {:induction false} CloseThenOpen(text: string, p: nat, d: nat, q: nat)
    requires p <= |text| && Close(text, p, d) == Some(q)
    ensures q < |text| && Open(text, q, 0) == Open(text, p, d)
    decreases |text| - p
  {
    CloseBounds(text, p, d);
    if text[p] == '[' {
      CloseThenOpen(text, p + 1, d + 1, q);
    } else if text[p] == ']' {
      if d > 0 { CloseThenOpen(text, p + 1, d - 1, q); }
    } else {
      CloseThenOpen(text, p + 1, d, q);
    }
  }

  /** Partner brackets: Close and Open are inverse on them. */
  lemma {:induction false} BracketsPair(text: string, o: nat, q: nat)
    requires o < |text| && text[o] == '[' && Close(text, o + 1, 0) == Some(q)
    ensures o < q < |text| && text[q] == ']' && Open(text, q, 0) == Some(o)
  {
    CloseBounds(text, o + 1, 0);
    CloseThenOpen(text, o + 1, 0, q);
  }

  /** Skipping an inner bracket pair does not change what closes the enclosing one. */
  lemma {:induction false} CloseOuter(text: string, p: nat, d: nat)
    ensures match Close(text, p, d)
            case None => Close(text, p, d + 1) == None
            case Some(q) => Close(text, p, d + 1) == Close(text, q + 1, 0)
    decreases |text| - p
  {
    if p < |text| {
      if text[p] == '[' {
        CloseOuter(text, p + 1, d + 1);
      } else if text[p] == ']' {
        if d > 0 { CloseOuter(text, p + 1, d - 1); }
      } else {
        CloseOuter(text, p + 1, d);
      }
    }
  }

  // Runs

  lemma {:induction false} RunAdds(text: string, checked: bool, input: seq<byte>, a: nat, b: nat, s: State)
    ensures Run(text, checked, input, a + b, s) == Run(text, checked, input, b, Run(text, checked, input, a, s))
    decreases a
  {
    if a > 0 { RunAdds(text, checked, input, a - 1, b, Step(text, checked, input, s)); }
  }

  lemma {:induction false} RunHalted(text: string, checked: bool, input: seq<byte>, n: nat, s: State)
    requires s.status != Running
    ensures Run(text, checked, input, n, s) == s
  {
    if n > 0 { RunHalted(text, checked, input, n - 1, s); }
  }

  lemma {:induction false} RunOutputGrows(text: string, checked: bool, input: seq<byte>, n: nat, s: State)
    ensures s.world.out <= Run(text, checked, input, n, s).world.out
  {
    if n > 0 { RunOutputGrows(text, checked, input, n - 1, Step(text, checked, input, s)); }
  }

  lemma {:induction false} RunKeepsTapeLength(text: string, checked: bool, input: seq<byte>, n: nat, s: State)
    ensures |Run(text, checked, input, n, s).world.tape| == |s.world.tape|
  {
    if n > 0 { RunKeepsTapeLength(text, checked, input, n - 1, Step(text, checked, input, s)); }
  }
}
