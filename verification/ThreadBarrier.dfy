/** WaitForThreads: a mutex, a condition and two counters that hold threads back until enough of them have come. */
module ThreadBarrier {
  datatype Op = Block | Release(num: nat)

  /** Where a call is: before the lock, with it, in the wait, woken by a broadcast, leaving with the lock, back. */
  datatype Pc = Locking | Inside | Waiting | Signalled(batch: nat) | Leaving(batch: nat) | Returned(batch: nat)

  datatype Call = Call(op: Op, pc: Pc)

  /** `log` records for every broadcast the calls of block() that it lets go; `fault` a failed assertion. */
  datatype State = State(calls: map<nat, Call>, n: nat, waitFor: nat, locked: bool, log: seq<set<nat>>, fault: bool)

  datatype Step = Enter(c: nat, op: Op) | Lock(c: nat) | Act(c: nat) | Reacquire(c: nat) | Unlock(c: nat)

  function Start(): State { State(map[], 0, 0, false, [], false) }

  predicate Enabled(s: State, step: Step) {
    match step
    case Enter(c, _) => c !in s.calls
    case Lock(c) => c in s.calls && s.calls[c].pc.Locking? && !s.locked
    case Act(c) => c in s.calls && s.calls[c].pc.Inside?
    case Reacquire(c) => c in s.calls && s.calls[c].pc.Signalled? && !s.locked
    case Unlock(c) => c in s.calls && s.calls[c].pc.Leaving?
  }

  function At(s: State, c: nat, pc: Pc): State
    requires c in s.calls
  {
    s.(calls := s.calls[c := s.calls[c].(pc := pc)])
  }

  /** Calls of block() in the wait. */
  function Waiters(s: State): set<nat> { set c | c in s.calls && s.calls[c].op.Block? && s.calls[c].pc.Waiting? }

  /** unblockThreads: both counters start over and whoever waits is woken. */
  function Broadcast(s: State, c: nat): State
    requires c in s.calls
  {
    var batch := |s.log|;
    s.(calls := (map d | d in s.calls ::
                   if d == c then s.calls[d].(pc := Leaving(batch))
                   else if s.calls[d].pc.Waiting? then s.calls[d].(pc := Signalled(batch)) else s.calls[d]),
       n := 0, waitFor := 0,
       log := s.log + [Waiters(s) + if s.calls[c].op.Block? then {c} else {}])
  }

  function Next(s: State, step: Step): State
    requires Enabled(s, step)
  {
    match step
    case Enter(c, op) => s.(calls := s.calls[c := Call(op, Locking)])
    case Lock(c) => At(s, c, Inside).(locked := true)
    case Act(c) =>
      (match s.calls[c].op
       case Block =>
         var t := s.(n := s.n + 1);
         if !(t.waitFor == 0 || t.n <= t.waitFor) then t.(fault := true)
         else if t.waitFor > 0 && t.n == t.waitFor then Broadcast(t, c)
         else At(t, c, Waiting).(locked := false)
       case Release(num) =>
         if s.n >= num then Broadcast(s, c)
         else At(s, c, Waiting).(waitFor := num, locked := false))
    case Reacquire(c) => At(s, c, Leaving(s.calls[c].pc.batch)).(locked := true)
    case Unlock(c) => At(s, c, Returned(s.calls[c].pc.batch)).(locked := false)
  }

  // The invariant

  predicate Holds(call: Call) { call.pc.Inside? || call.pc.Leaving? }

  predicate LetGo(call: Call) { call.pc.Signalled? || call.pc.Leaving? || call.pc.Returned? }

  ghost predicate OneHolder(s: State) {
    && (s.locked <==> exists c :: c in s.calls && Holds(s.calls[c]))
    && forall c, d | c in s.calls && d in s.calls && Holds(s.calls[c]) && Holds(s.calls[d]) :: c == d
  }

  /** The counter is the number of calls in the wait, short of what a releaser waits for. */
  ghost predicate Counted(s: State) {
    && s.n == |Waiters(s)| && (s.waitFor > 0 ==> s.n < s.waitFor) && !s.fault
    && forall c | c in s.calls && s.calls[c].op.Release? && s.calls[c].pc.Waiting? :: s.waitFor > 0
  }

  /** A call of block() is let go by exactly the broadcast whose batch it is in. */
  ghost predicate Logged(s: State) {
    && (forall c | c in s.calls && LetGo(s.calls[c]) ::
          s.calls[c].pc.batch < |s.log| && (s.calls[c].op.Block? ==> c in s.log[s.calls[c].pc.batch]))
    && forall b, c | 0 <= b < |s.log| && c in s.log[b] ::
         c in s.calls && s.calls[c].op.Block? && LetGo(s.calls[c]) && s.calls[c].pc.batch == b
  }

  ghost predicate Inv(s: State) { OneHolder(s) && Counted(s) && Logged(s) }

  lemma WaitersMinus(s: State, c: nat)
    requires c in s.calls
    ensures s.calls[c].pc.Inside? ==> c !in Waiters(s)
    ensures s.calls[c].op.Block? ==> Waiters(At(s, c, Waiting)) == Waiters(s) + {c}
    ensures s.calls[c].op.Release? ==> Waiters(At(s, c, Waiting)) == Waiters(s)
  {
  }

  lemma EnterKeeps(s: State, c: nat, op: Op)
    requires Inv(s) && c !in s.calls
    ensures Inv(Next(s, Enter(c, op)))
  {
    var t := Next(s, Enter(c, op));
    assert Waiters(t) == Waiters(s);
    SameHolders(s, t);
    forall b, d | 0 <= b < |t.log| && d in t.log[b]
      ensures d in t.calls && t.calls[d].op.Block? && LetGo(t.calls[d]) && t.calls[d].pc.batch == b
    {
      assert d in s.log[b];
    }
  }

  lemma SameHolders(s: State, t: State)
    requires OneHolder(s) && t.locked == s.locked
    requires forall c | c in s.calls :: c in t.calls && Holds(t.calls[c]) == Holds(s.calls[c])
    requires forall c | c in t.calls && Holds(t.calls[c]) :: c in s.calls
    ensures OneHolder(t)
  {
    if s.locked {
      var c :| c in s.calls && Holds(s.calls[c]);
      assert c in t.calls && Holds(t.calls[c]);
    }
  }

  /** Taking or giving back the lock, or moving on with it, without a broadcast. */
  lemma MoveKeeps(s: State, c: nat, pc: Pc, locked: bool)
    requires Inv(s) && c in s.calls && !s.calls[c].pc.Waiting? && !pc.Waiting?
    requires locked == Holds(s.calls[c].(pc := pc)) && (s.locked ==> Holds(s.calls[c]))
    requires LetGo(s.calls[c]) == LetGo(s.calls[c].(pc := pc))
    requires LetGo(s.calls[c]) ==> pc.batch == s.calls[c].pc.batch
    ensures Inv(At(s, c, pc).(locked := locked))
  {
    var t := At(s, c, pc).(locked := locked);
    assert Waiters(t) == Waiters(s);
    if locked { assert Holds(t.calls[c]); }
    forall b, d | 0 <= b < |t.log| && d in t.log[b]
      ensures d in t.calls && t.calls[d].op.Block? && LetGo(t.calls[d]) && t.calls[d].pc.batch == b
    {
      assert d in s.log[b];
    }
  }

  /** The holder goes to wait. */
  lemma WaitKeeps(s: State, c: nat, n: nat, waitFor: nat)
    requires Inv(s) && c in s.calls && s.calls[c].pc.Inside?
    requires if s.calls[c].op.Block? then n == s.n + 1 && waitFor == s.waitFor && (waitFor > 0 ==> n < waitFor)
             else n == s.n && waitFor > n
    ensures Inv(At(s, c, Waiting).(n := n, waitFor := waitFor, locked := false))
  {
    var t := At(s, c, Waiting).(n := n, waitFor := waitFor, locked := false);
    WaitersMinus(s, c);
    assert Waiters(t) == Waiters(At(s, c, Waiting));
    assert Holds(s.calls[c]);
    forall b, d | 0 <= b < |t.log| && d in t.log[b]
      ensures d in t.calls && t.calls[d].op.Block? && LetGo(t.calls[d]) && t.calls[d].pc.batch == b
    {
      assert d in s.log[b];
    }
  }

  /** A broadcast lets go all calls in the wait, and the caller if it is one of block(). */
  lemma BroadcastKeeps(s: State, c: nat, n: nat)
    requires Inv(s) && c in s.calls && s.calls[c].pc.Inside?
    ensures Inv(Broadcast(s.(n := n), c))
    ensures |Broadcast(s.(n := n), c).log[|s.log|]| == s.n + if s.calls[c].op.Block? then 1 else 0
  {
    var u := s.(n := n);
    var t := Broadcast(u, c);
    WaitersMinus(s, c);
    assert Waiters(u) == Waiters(s) && Waiters(t) == {};
    assert Holds(s.calls[c]) && Holds(t.calls[c]);
    SameHolders(s, t);
    BroadcastLogged(s, u, t, c);
  }

  lemma BroadcastLogged(s: State, u: State, t: State, c: nat)
    requires Logged(s) && c in s.calls && s.calls[c].pc.Inside? && u == s.(n := u.n) && t == Broadcast(u, c)
    ensures Logged(t)
  {
    assert Waiters(u) == Waiters(s);
    forall b, d | 0 <= b < |t.log| && d in t.log[b]
      ensures d in t.calls && t.calls[d].op.Block? && LetGo(t.calls[d]) && t.calls[d].pc.batch == b
    {
      assert b < |s.log| ==> d in s.log[b];
    }
  }

  /** Every step of every call keeps the invariant; in particular the assertion of block() never fails. */
  lemma StepKeeps(s: State, step: Step)
    requires Inv(s) && Enabled(s, step)
    ensures Inv(Next(s, step))
  {
    match step {
      case Enter(c, op) => EnterKeeps(s, c, op);
      case Lock(c) => MoveKeeps(s, c, Inside, true);
      case Reacquire(c) => MoveKeeps(s, c, Leaving(s.calls[c].pc.batch), true);
      case Unlock(c) =>
        assert Holds(s.calls[c]);
        MoveKeeps(s, c, Returned(s.calls[c].pc.batch), false);
      case Act(c) =>
        if s.calls[c].op.Block? {
          if s.waitFor > 0 && s.n + 1 == s.waitFor {
            BroadcastKeeps(s, c, s.n + 1);
          } else {
            WaitKeeps(s, c, s.n + 1, s.waitFor);
          }
        } else if s.n >= s.calls[c].op.num {
          BroadcastKeeps(s, c, s.n);
        } else {
          WaitKeeps(s, c, s.n, s.calls[c].op.num);
        }
    }
  }

  predicate Possible(s: State, steps: seq<Step>)
    decreases |steps|
  {
    steps == [] || (Enabled(s, steps[0]) && Possible(Next(s, steps[0]), steps[1..]))
  }

  function Run(s: State, steps: seq<Step>): State
    requires Possible(s, steps)
    decreases |steps|
  {
    if steps == [] then s else Run(Next(s, steps[0]), steps[1..])
  }

  lemma StartInv()
    ensures Inv(Start())
  {
    assert Waiters(Start()) == {};
  }

  lemma {:induction false} RunKeeps(s: State, steps: seq<Step>)
    requires Inv(s) && Possible(s, steps)
    ensures Inv(Run(s, steps))
    decreases |steps|
  {
    if steps != [] {
      StepKeeps(s, steps[0]);
      RunKeeps(Next(s, steps[0]), steps[1..]);
    }
  }

  /** In every run: the assertion holds, the counter counts the calls that wait, and no call of block() is let go twice. */
  lemma RunsAreSafe(steps: seq<Step>)
    requires Possible(Start(), steps)
    ensures var s := Run(Start(), steps);
            && !s.fault && s.n == |Waiters(s)| && (s.waitFor > 0 ==> s.n < s.waitFor)
            && (forall a, b | 0 <= a < b < |s.log| :: s.log[a] !! s.log[b])
            && forall c | c in s.calls && s.calls[c].pc.Returned? && s.calls[c].op.Block? ::
                 s.calls[c].pc.batch < |s.log| && c in s.log[s.calls[c].pc.batch]
  {
    StartInv();
    RunKeeps(Start(), steps);
    BatchesDisjoint(Run(Start(), steps));
  }

  lemma BatchesDisjoint(s: State)
    requires Logged(s)
    ensures forall a, b | 0 <= a < b < |s.log| :: s.log[a] !! s.log[b]
  {
    forall a, b | 0 <= a < b < |s.log| ensures s.log[a] !! s.log[b] {
      forall c | c in s.log[a] ensures c !in s.log[b] { assert s.calls[c].pc.batch == a; }
    }
  }

  // Releasers

  /** All calls of releaseThreads() under way ask for the same number. */
  ghost predicate Agree(s: State) {
    forall c, d | c in s.calls && d in s.calls && s.calls[c].op.Release? && s.calls[d].op.Release?
                  && !s.calls[c].pc.Returned? && !s.calls[d].pc.Returned? :: s.calls[c].op.num == s.calls[d].op.num
  }

  /** What is waited for is what each waiting releaser asked for. */
  ghost predicate Aligned(s: State) {
    forall c | c in s.calls && s.calls[c].op.Release? && s.calls[c].pc.Waiting? :: s.waitFor == s.calls[c].op.num
  }

  /** One broadcast let go at least as many calls as the releaser asked for. */
  ghost predicate Served(s: State, c: nat) {
    c in s.calls && s.calls[c].op.Release? && LetGo(s.calls[c]) ==>
      s.calls[c].pc.batch < |s.log| && |s.log[s.calls[c].pc.batch]| >= s.calls[c].op.num
  }

  ghost predicate Enough(s: State) { Aligned(s) && forall c :: Served(s, c) }

  lemma StepEnough(s: State, step: Step)
    requires Inv(s) && Enough(s) && Agree(s) && Enabled(s, step)
    ensures Enough(Next(s, step))
  {
    hide OneHolder, Logged;
    if step.Act? {
      var c := step.c;
      if s.calls[c].op.Block? {
        if s.waitFor > 0 && s.n + 1 == s.waitFor {
          BroadcastEnough(s, c, s.n + 1);
        } else {
          StillEnough(s, step);
        }
      } else if s.n >= s.calls[c].op.num {
        BroadcastEnough(s, c, s.n);
      } else {
        StillEnough(s, step);
      }
    } else {
      StillEnough(s, step);
    }
  }

  lemma StillEnough(s: State, step: Step)
    requires Counted(s) && Enough(s) && Agree(s) && Enabled(s, step) && Next(s, step).log == s.log
    requires step.Act? ==> Next(s, step).calls == s.calls[step.c := s.calls[step.c].(pc := Waiting)] || Next(s, step).calls == s.calls
    ensures Enough(Next(s, step))
  {
    var t := Next(s, step);
    forall d ensures Served(t, d) { assert Served(s, d); }
  }

  lemma BroadcastEnough(s: State, c: nat, n: nat)
    requires Inv(s) && Enough(s) && Agree(s) && c in s.calls && s.calls[c].pc.Inside?
    requires if s.calls[c].op.Block? then s.waitFor > 0 && s.n + 1 == s.waitFor else s.n >= s.calls[c].op.num
    ensures Enough(Broadcast(s.(n := n), c))
  {
    BroadcastKeeps(s, c, n);
    var t := Broadcast(s.(n := n), c);
    forall d ensures Served(t, d) {
      assert Served(s, d);
      if d in s.calls && LetGo(s.calls[d]) {
        assert t.log[s.calls[d].pc.batch] == s.log[s.calls[d].pc.batch];
      }
    }
  }

  ghost predicate AgreeAlong(s: State, steps: seq<Step>)
    requires Possible(s, steps)
    decreases |steps|
  {
    Agree(s) && (steps == [] || AgreeAlong(Next(s, steps[0]), steps[1..]))
  }

  lemma {:induction false} RunEnough(s: State, steps: seq<Step>)
    requires Inv(s) && Enough(s) && Possible(s, steps) && AgreeAlong(s, steps)
    ensures Enough(Run(s, steps))
    decreases |steps|
  {
    hide Inv, Enough, Agree;
    if steps != [] {
      StepKeeps(s, steps[0]);
      StepEnough(s, steps[0]);
      RunEnough(Next(s, steps[0]), steps[1..]);
    }
  }

  /** While releasers under way at one time ask for one number, releaseThreads(num) returns only after one broadcast let go
      num calls. */
  lemma ReleasesEnough(steps: seq<Step>, c: nat)
    requires Possible(Start(), steps) && AgreeAlong(Start(), steps)
    ensures Served(Run(Start(), steps), c)
  {
    StartInv();
    RunEnough(Start(), steps);
  }

  /** Where every call is back or waits and no call may go on, nothing can wake them but a new call; and if a releaser is among
      them, the number last waited for is more than have come. */
  lemma StuckWaits(s: State)
    requires Inv(s) && Stuck(s)
    ensures !s.locked && forall c | c in s.calls :: s.calls[c].pc.Waiting? || s.calls[c].pc.Returned?
    ensures forall c | c in s.calls && s.calls[c].op.Release? && s.calls[c].pc.Waiting? :: |Waiters(s)| < s.waitFor
  {
    forall c | c in s.calls ensures !s.calls[c].pc.Inside? && !s.calls[c].pc.Leaving? {
      assert !Enabled(s, Act(c)) && !Enabled(s, Unlock(c));
    }
    forall c | c in s.calls ensures !s.calls[c].pc.Locking? && !s.calls[c].pc.Signalled? {
      assert !Enabled(s, Lock(c)) && !Enabled(s, Reacquire(c));
    }
  }

  // Exactly when releasers get what they ask for

  /** All demands in a run come from a set. */
  predicate DemandsFrom(demands: set<nat>, steps: seq<Step>) {
    forall i | 0 <= i < |steps| && steps[i].Enter? && steps[i].op.Release? :: steps[i].op.num in demands
  }

  ghost predicate Demanded(demands: set<nat>, s: State) {
    forall c | c in s.calls && s.calls[c].op.Release? :: s.calls[c].op.num in demands
  }

  lemma StepDemanded(demands: set<nat>, s: State, step: Step)
    requires Demanded(demands, s) && Enabled(s, step) && (step.Enter? && step.op.Release? ==> step.op.num in demands)
    ensures Demanded(demands, Next(s, step))
  {
  }

  ghost predicate OneDemand(demands: set<nat>) { forall a, b | a in demands && b in demands :: a == b }

  ghost predicate OnePositiveDemand(demands: set<nat>) { forall a, b | a in demands && b in demands && a > 0 && b > 0 :: a == b }

  lemma {:induction false} OneDemandAgrees(demands: set<nat>, s: State, steps: seq<Step>)
    requires OneDemand(demands) && Demanded(demands, s) && Possible(s, steps) && DemandsFrom(demands, steps)
    ensures AgreeAlong(s, steps)
    decreases |steps|
  {
    if steps != [] {
      StepDemanded(demands, s, steps[0]);
      assert forall i | 0 <= i < |steps[1..]| :: steps[1..][i] == steps[i + 1];
      OneDemandAgrees(demands, Next(s, steps[0]), steps[1..]);
    }
  }

  /** A run with these demands in which every releaser that is let go is served. */
  ghost predicate ServesAll(demands: set<nat>, steps: seq<Step>) {
    Possible(Start(), steps) && DemandsFrom(demands, steps) ==> forall c :: Served(Run(Start(), steps), c)
  }

  /** Releasers with demands from a set get what they ask for in every run exactly when the set holds one number at most. */
  lemma ServedIffOneDemand(demands: set<nat>)
    ensures (forall steps :: ServesAll(demands, steps)) <==> OneDemand(demands)
  {
    if OneDemand(demands) {
      forall steps ensures ServesAll(demands, steps) {
        if Possible(Start(), steps) && DemandsFrom(demands, steps) {
          OneDemandAgrees(demands, Start(), steps);
          forall c ensures Served(Run(Start(), steps), c) { ReleasesEnough(steps, c); }
        }
      }
    } else {
      var a, b :| a in demands && b in demands && a != b;
      var less, more := if a < b then a else b, if a < b then b else a;
      var steps := TwoReleasersMisfire(less, more);
      assert DemandsFrom(demands, steps);
      assert !Served(Run(Start(), steps), 0);
      assert !ServesAll(demands, steps);
    }
  }

  lemma StepAligned(demands: set<nat>, s: State, step: Step)
    requires OnePositiveDemand(demands) && Counted(s) && Demanded(demands, s) && Aligned(s) && Enabled(s, step)
    ensures Aligned(Next(s, step))
  {
    if step.Act? {
      var c := step.c;
      if s.calls[c].op.Block? {
        if s.waitFor > 0 && s.n + 1 == s.waitFor { NoneWaits(s.(n := s.n + 1), c); }
      } else if s.n >= s.calls[c].op.num {
        NoneWaits(s, c);
      }
    }
  }

  lemma NoneWaits(s: State, c: nat)
    requires c in s.calls && s.calls[c].pc.Inside?
    ensures forall d | d in Broadcast(s, c).calls :: !Broadcast(s, c).calls[d].pc.Waiting?
    ensures Aligned(Broadcast(s, c))
  {
  }

  lemma {:induction false} RunAligned(demands: set<nat>, s: State, steps: seq<Step>)
    requires OnePositiveDemand(demands) && Inv(s) && Demanded(demands, s) && Aligned(s)
    requires Possible(s, steps) && DemandsFrom(demands, steps)
    ensures Aligned(Run(s, steps))
    decreases |steps|
  {
    hide OneHolder, Counted, Logged, Aligned, OnePositiveDemand;
    if steps != [] {
      StepKeeps(s, steps[0]);
      StepDemanded(demands, s, steps[0]);
      StepAligned(demands, s, steps[0]);
      assert forall i | 0 <= i < |steps[1..]| :: steps[1..][i] == steps[i + 1];
      RunAligned(demands, Next(s, steps[0]), steps[1..]);
    }
  }

  ghost predicate Stuck(s: State) { forall step: Step | Enabled(s, step) :: step.Enter? }

  /** The releaser does not wait although as many calls as it asked for do. */
  ghost predicate FallsShort(s: State, c: nat) {
    c in s.calls && s.calls[c].op.Release? && s.calls[c].pc.Waiting? ==> |Waiters(s)| < s.calls[c].op.num
  }

  ghost predicate ShortWhenStuck(demands: set<nat>, steps: seq<Step>) {
    Possible(Start(), steps) && DemandsFrom(demands, steps) && Stuck(Run(Start(), steps)) ==> forall c :: FallsShort(Run(Start(), steps), c)
  }

  /** No releaser is stuck with its own demand reached, in any run, exactly when the demands that are not zero are one. */
  lemma StuckIffShort(demands: set<nat>)
    ensures (forall steps :: ShortWhenStuck(demands, steps)) <==> OnePositiveDemand(demands)
  {
    if OnePositiveDemand(demands) {
      forall steps ensures ShortWhenStuck(demands, steps) {
        if Possible(Start(), steps) && DemandsFrom(demands, steps) {
          StartInv();
          RunAligned(demands, Start(), steps);
          RunKeeps(Start(), steps);
        }
      }
    } else {
      var a, b :| a in demands && b in demands && a > 0 && b > 0 && a != b;
      var less, more := if a < b then a else b, if a < b then b else a;
      var steps := TwoReleasersStick(less, more);
      assert DemandsFrom(demands, steps);
      assert !FallsShort(Run(Start(), steps), 0);
      assert !ShortWhenStuck(demands, steps);
    }
  }

  // Runs with two demands

  lemma {:induction false} RunOn(s: State, a: seq<Step>, b: seq<Step>)
    requires Possible(s, a) && Possible(Run(s, a), b)
    ensures Possible(s, a + b) && Run(s, a + b) == Run(Run(s, a), b)
    decreases |a|
  {
    if a == [] {
      assert a + b == b;
    } else {
      RunOn(Next(s, a[0]), a[1..], b);
      assert (a + b)[1..] == a[1..] + b;
    }
  }

  /** After k more calls of block() have come to wait. */
  function Crowd(s: State, first: nat, k: nat): (t: State)
    requires s.n == 0
    ensures t == s.(calls := t.calls, n := k)
    ensures forall c :: c in t.calls <==> c in s.calls || first <= c < first + k
    ensures forall c | c in t.calls :: t.calls[c] == if first <= c < first + k then Call(Block, Waiting) else s.calls[c]
  {
    if k == 0 then s
    else
      var t := Crowd(s, first, k - 1);
      t.(calls := t.calls[first + k - 1 := Call(Block, Waiting)], n := k)
  }

  lemma DemandsJoin(demands: set<nat>, a: seq<Step>, b: seq<Step>)
    requires DemandsFrom(demands, a) && DemandsFrom(demands, b)
    ensures DemandsFrom(demands, a + b)
  {
  }

  lemma ReleaserDemands(demands: set<nat>, c: nat, num: nat)
    requires num in demands
    ensures DemandsFrom(demands, [Enter(c, Release(num)), Lock(c), Act(c)])
  {
  }

  lemma LeavingDemands(demands: set<nat>, c: nat)
    ensures DemandsFrom(demands, [Unlock(c), Reacquire(0), Unlock(0)])
  {
  }

  lemma {:induction false} Gather(s: State, first: nat, k: nat) returns (steps: seq<Step>)
    requires s.n == 0 && !s.locked && k < s.waitFor && forall c | c in s.calls :: c < first
    ensures Possible(s, steps) && Run(s, steps) == Crowd(s, first, k)
    ensures forall demands :: DemandsFrom(demands, steps)
  {
    if k == 0 {
      steps := [];
    } else {
      var before := Gather(s, first, k - 1);
      var c := first + k - 1;
      var more := [Enter(c, Block), Lock(c), Act(c)];
      OneComes(s, first, k - 1);
      RunOn(s, before, more);
      steps := before + more;
      forall demands ensures DemandsFrom(demands, steps) { DemandsJoin(demands, before, more); }
    }
  }

  lemma OneComes(s: State, first: nat, k: nat)
    requires s.n == 0 && !s.locked && k + 1 < s.waitFor && forall c | c in s.calls :: c < first
    ensures var c, t := first + k, Crowd(s, first, k); var steps := [Enter(c, Block), Lock(c), Act(c)];
            Possible(t, steps) && Run(t, steps) == Crowd(s, first, k + 1)
  {
    var c, t := first + k, Crowd(s, first, k);
    var t1 := t.(calls := t.calls[c := Call(Block, Locking)]);
    var t2 := t.(calls := t.calls[c := Call(Block, Inside)], locked := true);
    var t3 := Crowd(s, first, k + 1);
    assert t1.calls[c := Call(Block, Inside)] == t2.calls;
    assert t2.calls[c := Call(Block, Waiting)] == t3.calls;
    OneStep(t2, [Act(c)], t3);
    OneStep(t1, [Lock(c), Act(c)], t2);
    OneStep(t, [Enter(c, Block), Lock(c), Act(c)], t1);
  }

  /** A releaser that comes and has to wait. */
  lemma ReleaserWaits(s: State, c: nat, num: nat)
    requires c !in s.calls && !s.locked && s.n < num
    ensures var steps := [Enter(c, Release(num)), Lock(c), Act(c)];
            Possible(s, steps) && Run(s, steps) == s.(calls := s.calls[c := Call(Release(num), Waiting)], waitFor := num)
  {
    var s1 := s.(calls := s.calls[c := Call(Release(num), Locking)]);
    var s2 := s.(calls := s.calls[c := Call(Release(num), Inside)], locked := true);
    var s3 := s.(calls := s.calls[c := Call(Release(num), Waiting)], waitFor := num);
    assert s1.calls[c := Call(Release(num), Inside)] == s2.calls;
    assert s2.calls[c := Call(Release(num), Waiting)] == s3.calls;
    OneStep(s2, [Act(c)], s3);
    OneStep(s1, [Lock(c), Act(c)], s2);
    OneStep(s, [Enter(c, Release(num)), Lock(c), Act(c)], s1);
  }

  /** With two releasers the one that asks for less lets both go: releaseThreads(more) returns when `less` calls of block()
      have come. */
  lemma TwoReleasersMisfire(less: nat, more: nat) returns (steps: seq<Step>)
    requires less < more
    ensures Possible(Start(), steps) && DemandsFrom({less, more}, steps)
    ensures var s := Run(Start(), steps);
            0 in s.calls && s.calls[0] == Call(Release(more), Returned(0)) && |s.log| == 1 && |s.log[0]| == less
  {
    hide Broadcast, DemandsFrom;
    var s := State(map[0 := Call(Release(more), Waiting)], 0, more, false, [], false);
    var a := [Enter(0, Release(more)), Lock(0), Act(0)];
    ReleaserWaits(Start(), 0, more);
    assert Start().calls[0 := Call(Release(more), Waiting)] == s.calls;
    var b := Gather(s, 1, less);
    RunOn(Start(), a, b);
    StartInv();
    RunKeeps(Start(), a + b);
    var c, t := less + 1, Crowd(s, 1, less);
    var d, e := [Enter(c, Release(less)), Lock(c), Act(c)], [Unlock(c), Reacquire(0), Unlock(0)];
    ReleaserGoes(t, c, less);
    BothWake(t, c, less, more);
    Leaves(Run(t, d), c, less, more);
    var demands := {less, more};
    ReleaserDemands(demands, 0, more);
    ReleaserDemands(demands, c, less);
    LeavingDemands(demands, c);
    DemandsJoin(demands, a, b);
    DemandsJoin(demands, a + b, d);
    DemandsJoin(demands, a + b + d, e);
    RunOn(Start(), a + b, d);
    RunOn(Start(), a + b + d, e);
    steps := a + b + d + e;
  }

  /** A releaser that comes and need not wait. */
  lemma ReleaserGoes(s: State, c: nat, num: nat)
    requires c !in s.calls && !s.locked && s.n >= num
    ensures var steps := [Enter(c, Release(num)), Lock(c), Act(c)];
            Possible(s, steps) && Run(s, steps) == Broadcast(s.(calls := s.calls[c := Call(Release(num), Inside)], locked := true), c)
  {
    var s1 := s.(calls := s.calls[c := Call(Release(num), Locking)]);
    var s2 := s.(calls := s.calls[c := Call(Release(num), Inside)], locked := true);
    var s3 := Broadcast(s2, c);
    hide Broadcast;
    assert s1.calls[c := Call(Release(num), Inside)] == s2.calls;
    OneStep(s2, [Act(c)], s3);
    OneStep(s1, [Lock(c), Act(c)], s2);
    OneStep(s, [Enter(c, Release(num)), Lock(c), Act(c)], s1);
  }

  /** The broadcast wakes the other releaser too, and its batch is the crowd. */
  lemma BothWake(s: State, c: nat, less: nat, more: nat)
    requires c != 0 && c !in s.calls && s.log == [] && 0 in s.calls && s.calls[0] == Call(Release(more), Waiting)
    ensures var t := Broadcast(s.(calls := s.calls[c := Call(Release(less), Inside)], locked := true), c);
            && 0 in t.calls && c in t.calls && t.locked && t.log == [Waiters(s)]
            && t.calls[0] == Call(Release(more), Signalled(0)) && t.calls[c] == Call(Release(less), Leaving(0))
  {
    var u := s.(calls := s.calls[c := Call(Release(less), Inside)], locked := true);
    assert Waiters(u) + {} == Waiters(s);
  }

  /** After the broadcast: first the one that made it goes, then the other. */
  lemma Leaves(t: State, c: nat, less: nat, more: nat)
    requires c != 0 && 0 in t.calls && c in t.calls && t.locked
    requires t.calls[0] == Call(Release(more), Signalled(0)) && t.calls[c] == Call(Release(less), Leaving(0))
    ensures var steps := [Unlock(c), Reacquire(0), Unlock(0)];
            && Possible(t, steps)
            && var u := Run(t, steps); 0 in u.calls && u.calls[0] == Call(Release(more), Returned(0)) && u.log == t.log
  {
    var t1 := Next(t, Unlock(c));
    var t2 := Next(t1, Reacquire(0));
    var t3 := Next(t2, Unlock(0));
    OneStep(t2, [Unlock(0)], t3);
    OneStep(t1, [Reacquire(0), Unlock(0)], t2);
    OneStep(t, [Unlock(c), Reacquire(0), Unlock(0)], t1);
  }

  /** With two releasers the one that asks for more keeps both waiting, though as many calls as the other asked for have come. */
  lemma TwoReleasersStick(less: nat, more: nat) returns (steps: seq<Step>)
    requires 0 < less < more
    ensures Possible(Start(), steps) && DemandsFrom({less, more}, steps)
    ensures var s := Run(Start(), steps);
            Stuck(s) && 0 in s.calls && s.calls[0] == Call(Release(less), Waiting) && |Waiters(s)| == less
  {
    hide DemandsFrom;
    var s := State(map[0 := Call(Release(less), Waiting)], 0, less, false, [], false);
    var t := State(map[0 := Call(Release(less), Waiting), 1 := Call(Release(more), Waiting)], 0, more, false, [], false);
    var a, b := [Enter(0, Release(less)), Lock(0), Act(0)], [Enter(1, Release(more)), Lock(1), Act(1)];
    ReleaserWaits(Start(), 0, less);
    assert Start().calls[0 := Call(Release(less), Waiting)] == s.calls;
    ReleaserWaits(s, 1, more);
    assert s.calls[1 := Call(Release(more), Waiting)] == t.calls;
    RunOn(Start(), a, b);
    var c := Gather(t, 2, less);
    RunOn(Start(), a + b, c);
    var demands := {less, more};
    ReleaserDemands(demands, 0, less);
    ReleaserDemands(demands, 1, more);
    DemandsJoin(demands, a, b);
    DemandsJoin(demands, a + b, c);
    steps := a + b + c;
    StartInv();
    RunKeeps(Start(), steps);
    AllWait(Crowd(t, 2, less));
  }

  lemma AllWait(s: State)
    requires forall c | c in s.calls :: s.calls[c].pc.Waiting?
    ensures Stuck(s)
  {
  }

  lemma OneStep(s: State, steps: seq<Step>, t: State)
    requires steps != [] && Enabled(s, steps[0]) && t == Next(s, steps[0]) && Possible(t, steps[1..])
    ensures Possible(s, steps) && Run(s, steps) == Run(t, steps[1..])
  {
  }
}
