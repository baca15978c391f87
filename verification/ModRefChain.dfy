/** AliasAnalysis: what calls do to memory, worked out along a chain of analyses that each know a little. */
module ModRefChain {
  /** Whether something may be read and whether it may be written. */
  datatype Effect = Effect(ref: bool, mod: bool)

  const NO_MOD_REF := Effect(false, false)
  const REF := Effect(true, false)
  const MOD := Effect(false, true)
  const MOD_REF := Effect(true, true)

  function Or(x: Effect, y: Effect): Effect { Effect(x.ref || y.ref, x.mod || y.mod) }

  function And(x: Effect, y: Effect): Effect { Effect(x.ref && y.ref, x.mod && y.mod) }

  /** An effect, and where: at what arguments point to, elsewhere. */
  datatype Behavior = Behavior(effect: Effect, args: bool, elsewhere: bool)

  const UNKNOWN := Behavior(MOD_REF, true, true)
  const NOWHERE := Behavior(NO_MOD_REF, false, false)

  function Both(x: Behavior, y: Behavior): Behavior {
    Behavior(And(x.effect, y.effect), x.args && y.args, x.elsewhere && y.elsewhere)
  }

  predicate OnlyReads(b: Behavior) { !b.effect.mod }

  predicate OnlyArgs(b: Behavior) { !b.elsewhere }

  predicate DoesArgs(b: Behavior) { b.effect != NO_MOD_REF && b.args }

  /** What one analysis answers of its own: about functions, argument locations, aliases and constant memory. Locations and
      calls are numbers. */
  datatype Answers = Answers(function_: nat -> Behavior, argLocation: (nat, nat) -> (nat, Effect),
                             noAlias: (nat, nat) -> bool, constant: nat -> bool)

  /** The chain ends with the analysis that knows nothing. */
  datatype Chain = NoAA | Analysis(here: Answers, next: Chain)

  /** For every call, which of its arguments are pointers. */
  type Calls = nat -> seq<bool>

  /** One way memory may be used: what calls read and write, what of it is reached through arguments, and which addresses
      a location stands for. */
  datatype World = World(loads: (nat, nat) -> bool, stores: (nat, nat) -> bool, within: (nat, nat) -> bool, covers: (nat, nat) -> bool)

  predicate Accesses(w: World, c: nat, a: nat) { w.loads(c, a) || w.stores(c, a) }

  ghost predicate BehaviorSound(w: World, c: nat, b: Behavior) {
    && (forall a :: w.loads(c, a) ==> b.effect.ref)
    && (forall a :: w.stores(c, a) ==> b.effect.mod)
    && (forall a :: Accesses(w, c, a) ==> if w.within(c, a) then b.args else b.elsewhere)
  }

  ghost predicate ArgCovers(w: World, calls: Calls, h: Answers, c: nat, i: nat, a: nat, write: bool) {
    && i < |calls(c)| && calls(c)[i] && w.covers(h.argLocation(c, i).0, a)
    && if write then h.argLocation(c, i).1.mod else h.argLocation(c, i).1.ref
  }

  /** What is reached through arguments is covered by an argument location that admits the access. */
  ghost predicate ArgsSound(w: World, calls: Calls, h: Answers, c: nat) {
    && (forall a :: w.loads(c, a) && w.within(c, a) ==> exists i :: ArgCovers(w, calls, h, c, i, a, false))
    && (forall a :: w.stores(c, a) && w.within(c, a) ==> exists i :: ArgCovers(w, calls, h, c, i, a, true))
  }

  ghost predicate AnswersSound(w: World, calls: Calls, h: Answers) {
    && (forall c :: BehaviorSound(w, c, h.function_(c)))
    && (forall c :: ArgsSound(w, calls, h, c))
    && (forall l, m, a :: h.noAlias(l, m) && w.covers(l, a) ==> !w.covers(m, a))
    && (forall l, a, c :: h.constant(l) && w.covers(l, a) ==> !w.stores(c, a))
  }

  ghost predicate ChainSound(w: World, calls: Calls, ch: Chain) {
    match ch
    case NoAA => true
    case Analysis(h, next) => AnswersSound(w, calls, h) && ChainSound(w, calls, next)
  }

  /** getModRefBehavior: what the whole chain agrees on. */
  function GetModRefBehavior(ch: Chain, c: nat): Behavior {
    match ch
    case NoAA => UNKNOWN
    case Analysis(h, next) => Both(GetModRefBehavior(next, c), h.function_(c))
  }

  lemma {:induction false} BehaviorIsSound(w: World, calls: Calls, ch: Chain, c: nat)
    requires ChainSound(w, calls, ch)
    ensures BehaviorSound(w, c, GetModRefBehavior(ch, c))
  {
    match ch
    case NoAA =>
    case Analysis(h, next) =>
      BehaviorIsSound(w, calls, next, c);
      assert BehaviorSound(w, c, h.function_(c));
  }

  /** r admits all that a call does to a location. */
  ghost predicate Tells(w: World, c: nat, loc: nat, r: Effect) {
    forall a | w.covers(loc, a) :: (w.loads(c, a) ==> r.ref) && (w.stores(c, a) ==> r.mod)
  }

  /** r says how call c depends on call d: it writes what d uses, it reads what d writes. */
  ghost predicate TellsCalls(w: World, c: nat, d: nat, r: Effect) {
    forall a :: (w.stores(c, a) && Accesses(w, d, a) ==> r.mod) && (w.loads(c, a) && w.stores(d, a) ==> r.ref)
  }

  // What the answers amount to, as functions

  predicate MayAlias(calls: Calls, h: Answers, c: nat, loc: nat, i: nat) {
    i < |calls(c)| && calls(c)[i] && !h.noAlias(h.argLocation(c, i).0, loc)
  }

  /** The effects of all arguments below k that may alias loc. */
  function ArgEffects(calls: Calls, h: Answers, c: nat, loc: nat, k: nat): Effect {
    if k == 0 then NO_MOD_REF
    else if MayAlias(calls, h, c, loc, k - 1) then Or(ArgEffects(calls, h, c, loc, k - 1), h.argLocation(c, k - 1).1)
    else ArgEffects(calls, h, c, loc, k - 1)
  }

  /** What the behaviour of the call, its arguments and constant memory leave of the next analysis' answer. */
  function LocationEffect(calls: Calls, ch: Chain, c: nat, loc: nat): Effect {
    match ch
    case NoAA => MOD_REF
    case Analysis(h, next) =>
      var b := GetModRefBehavior(ch, c);
      var below := LocationEffect(calls, next, c, loc);
      var reach := if !OnlyArgs(b) then MOD_REF else if DoesArgs(b) then ArgEffects(calls, h, c, loc, |calls(c)|) else NO_MOD_REF;
      var mask := Effect(b.effect != NO_MOD_REF || b.args || b.elsewhere, b.effect.mod && !h.constant(loc));
      And(below, And(mask, reach))
  }

  predicate AtMost(x: Effect, y: Effect) { (x.ref ==> y.ref) && (x.mod ==> y.mod) }

  /** A longer chain never answers more about a call and a location. */
  lemma ChainRefines(calls: Calls, h: Answers, next: Chain, c: nat, loc: nat)
    ensures AtMost(LocationEffect(calls, Analysis(h, next), c, loc), LocationEffect(calls, next, c, loc))
  {
  }

  /** The dependence of c on what d does through its arguments below k. */
  function SecondEffects(calls: Calls, ch: Chain, c: nat, d: nat, mask: Effect, k: nat): Effect
    requires ch.Analysis? && k <= |calls(d)|
  {
    if k == 0 then NO_MOD_REF
    else
      var r := SecondEffects(calls, ch, c, d, mask, k - 1);
      if !calls(d)[k - 1] then r
      else
        var (loc, m) := ch.here.argLocation(d, k - 1);
        And(Or(r, And(LocationEffect(calls, ch, c, loc), Inverse(m))), mask)
  }

  /** The dependence of what c does through its arguments below k on d. */
  function FirstEffects(calls: Calls, ch: Chain, c: nat, d: nat, mask: Effect, k: nat): Effect
    requires ch.Analysis? && k <= |calls(c)|
  {
    if k == 0 then NO_MOD_REF
    else
      var r := FirstEffects(calls, ch, c, d, mask, k - 1);
      if !calls(c)[k - 1] then r
      else
        var (loc, m) := ch.here.argLocation(c, k - 1);
        if Concerns(m, LocationEffect(calls, ch, d, loc)) then And(Or(r, m), mask) else r
  }

  function CallEffect(calls: Calls, ch: Chain, c: nat, d: nat): Effect {
    match ch
    case NoAA => MOD_REF
    case Analysis(h, next) =>
      var b1, b2 := GetModRefBehavior(ch, c), GetModRefBehavior(ch, d);
      var mask := if OnlyReads(b1) then REF else MOD_REF;
      if b1 == NOWHERE || b2 == NOWHERE || (OnlyReads(b1) && OnlyReads(b2)) then NO_MOD_REF
      else if OnlyArgs(b2) then
        if DoesArgs(b2) then SecondEffects(calls, ch, c, d, mask, |calls(d)|) else NO_MOD_REF
      else if OnlyArgs(b1) then
        if DoesArgs(b1) then FirstEffects(calls, ch, c, d, mask, |calls(c)|) else NO_MOD_REF
      else And(CallEffect(calls, next, c, d), mask)
  }

  // No more than that

  /** s is the chain from some analysis on. */
  ghost predicate Suffix(s: Chain, ch: Chain) { s == ch || (ch.Analysis? && Suffix(s, ch.next)) }

  /** A behaviour has exactly what no analysis of the chain denies. */
  ghost predicate BehaviorExactly(ch: Chain, c: nat, b: Behavior) {
    && (b.effect.ref <==> forall s | Suffix(s, ch) && s.Analysis? :: s.here.function_(c).effect.ref)
    && (b.effect.mod <==> forall s | Suffix(s, ch) && s.Analysis? :: s.here.function_(c).effect.mod)
    && (b.args <==> forall s | Suffix(s, ch) && s.Analysis? :: s.here.function_(c).args)
    && (b.elsewhere <==> forall s | Suffix(s, ch) && s.Analysis? :: s.here.function_(c).elsewhere)
  }

  lemma {:induction false} BehaviorIsExact(ch: Chain, c: nat)
    ensures BehaviorExactly(ch, c, GetModRefBehavior(ch, c))
  {
    if ch.Analysis? {
      BehaviorIsExact(ch.next, c);
      assert Suffix(ch, ch) && forall s :: Suffix(s, ch.next) ==> Suffix(s, ch);
    }
  }

  /** The analysis at the head of s, with what it and those after it say of the call, does not rule out that the call writes
      (reads) the location. */
  ghost predicate Admits(calls: Calls, s: Chain, c: nat, loc: nat, write: bool)
    requires s.Analysis?
  {
    var h, b := s.here, GetModRefBehavior(s, c);
    && b != NOWHERE && (write ==> !OnlyReads(b) && !h.constant(loc))
    && (OnlyArgs(b) ==> DoesArgs(b) && exists i :: ArgAdmits(calls, h, c, loc, i, write))
  }

  /** An argument location that may alias, and that the call may write (read). */
  predicate ArgAdmits(calls: Calls, h: Answers, c: nat, loc: nat, i: nat, write: bool) {
    MayAlias(calls, h, c, loc, i) && if write then h.argLocation(c, i).1.mod else h.argLocation(c, i).1.ref
  }

  /** r has exactly what no analysis of the chain rules out. */
  ghost predicate AdmittedExactly(calls: Calls, ch: Chain, c: nat, loc: nat, r: Effect) {
    && (r.mod <==> forall s | Suffix(s, ch) && s.Analysis? :: Admits(calls, s, c, loc, true))
    && (r.ref <==> forall s | Suffix(s, ch) && s.Analysis? :: Admits(calls, s, c, loc, false))
  }

  lemma {:induction false} ArgEffectsAre(calls: Calls, h: Answers, c: nat, loc: nat, k: nat)
    ensures ArgEffects(calls, h, c, loc, k).mod <==> exists i :: 0 <= i < k && ArgAdmits(calls, h, c, loc, i, true)
    ensures ArgEffects(calls, h, c, loc, k).ref <==> exists i :: 0 <= i < k && ArgAdmits(calls, h, c, loc, i, false)
  {
    if k > 0 {
      ArgEffectsAre(calls, h, c, loc, k - 1);
      var i := k - 1;
      assert ArgAdmits(calls, h, c, loc, i, true) || !ArgAdmits(calls, h, c, loc, i, true);
      assert ArgAdmits(calls, h, c, loc, i, false) || !ArgAdmits(calls, h, c, loc, i, false);
    }
  }

  /** A call may write or read a location according to the chain exactly if no analysis in it rules that out. */
  lemma {:induction false} LocationIsExact(calls: Calls, ch: Chain, c: nat, loc: nat)
    ensures AdmittedExactly(calls, ch, c, loc, LocationEffect(calls, ch, c, loc))
  {
    if ch.Analysis? {
      LocationIsExact(calls, ch.next, c, loc);
      ArgEffectsAre(calls, ch.here, c, loc, |calls(c)|);
      hide ArgEffects;
      assert Suffix(ch, ch) && forall s :: Suffix(s, ch.next) ==> Suffix(s, ch);
      OneLevel(calls, ch, c, loc);
    }
  }

  lemma OneLevel(calls: Calls, ch: Chain, c: nat, loc: nat)
    requires ch.Analysis?
    ensures var r, below := LocationEffect(calls, ch, c, loc), LocationEffect(calls, ch.next, c, loc);
            (r.mod <==> below.mod && Admits(calls, ch, c, loc, true)) && (r.ref <==> below.ref && Admits(calls, ch, c, loc, false))
  {
    ArgEffectsAre(calls, ch.here, c, loc, |calls(c)|);
    hide ArgEffects;
    hide GetModRefBehavior;
  }

  /** Both calls have nothing to do with each other by what they do in general. */
  predicate Unrelated(b1: Behavior, b2: Behavior) { b1 == NOWHERE || b2 == NOWHERE || (OnlyReads(b1) && OnlyReads(b2)) }

  /** An argument of d through which c depends on it: c may write (read) where d may do anything (write). */
  ghost predicate SecondMatters(calls: Calls, ch: Chain, c: nat, d: nat, i: nat, write: bool)
    requires ch.Analysis?
  {
    && i < |calls(d)| && calls(d)[i]
    && var (loc, m) := ch.here.argLocation(d, i);
       if write then LocationEffect(calls, ch, c, loc).mod && (m.ref || m.mod) else LocationEffect(calls, ch, c, loc).ref && m.mod
  }

  /** An argument of c through which it depends on d: c may write (read) where d may do anything (write), or reads and writes
      where d may do anything. */
  ghost predicate FirstMatters(calls: Calls, ch: Chain, c: nat, d: nat, i: nat, write: bool)
    requires ch.Analysis?
  {
    && i < |calls(c)| && calls(c)[i]
    && var (loc, m) := ch.here.argLocation(c, i);
       var r := LocationEffect(calls, ch, d, loc);
       if write then m.mod && (r.ref || r.mod) else m.ref && (r.mod || (m.mod && r.ref))
  }

  /** When one call depends on another: never if they are unrelated; through arguments of the second where it does nothing
      else, or else of the first likewise; in any other case always, but a call that only reads does not write. */
  ghost predicate DependsExactly(calls: Calls, ch: Chain, c: nat, d: nat, r: Effect) {
    ch.Analysis? ==>
      var b1, b2 := GetModRefBehavior(ch, c), GetModRefBehavior(ch, d);
      if Unrelated(b1, b2) then r == NO_MOD_REF
      else if OnlyArgs(b2) then
        && (r.mod <==> !OnlyReads(b1) && DoesArgs(b2) && exists i :: SecondMatters(calls, ch, c, d, i, true))
        && (r.ref <==> DoesArgs(b2) && exists i :: SecondMatters(calls, ch, c, d, i, false))
      else if OnlyArgs(b1) then
        && (r.mod <==> !OnlyReads(b1) && DoesArgs(b1) && exists i :: FirstMatters(calls, ch, c, d, i, true))
        && (r.ref <==> DoesArgs(b1) && exists i :: FirstMatters(calls, ch, c, d, i, false))
      else r.ref && (r.mod <==> !OnlyReads(b1))
  }

  lemma {:induction false} SecondEffectsAre(calls: Calls, ch: Chain, c: nat, d: nat, mask: Effect, k: nat)
    requires ch.Analysis? && k <= |calls(d)|
    ensures var r := SecondEffects(calls, ch, c, d, mask, k);
            && (r.mod <==> mask.mod && exists i :: 0 <= i < k && SecondMatters(calls, ch, c, d, i, true))
            && (r.ref <==> mask.ref && exists i :: 0 <= i < k && SecondMatters(calls, ch, c, d, i, false))
  {
    hide LocationEffect;
    if k > 0 {
      SecondEffectsAre(calls, ch, c, d, mask, k - 1);
      var i := k - 1;
      assert SecondMatters(calls, ch, c, d, i, true) || !SecondMatters(calls, ch, c, d, i, true);
      assert SecondMatters(calls, ch, c, d, i, false) || !SecondMatters(calls, ch, c, d, i, false);
    }
  }

  lemma {:induction false} FirstEffectsAre(calls: Calls, ch: Chain, c: nat, d: nat, mask: Effect, k: nat)
    requires ch.Analysis? && k <= |calls(c)|
    ensures var r := FirstEffects(calls, ch, c, d, mask, k);
            && (r.mod <==> mask.mod && exists i :: 0 <= i < k && FirstMatters(calls, ch, c, d, i, true))
            && (r.ref <==> mask.ref && exists i :: 0 <= i < k && FirstMatters(calls, ch, c, d, i, false))
  {
    hide LocationEffect;
    if k > 0 {
      FirstEffectsAre(calls, ch, c, d, mask, k - 1);
      var i := k - 1;
      assert FirstMatters(calls, ch, c, d, i, true) || !FirstMatters(calls, ch, c, d, i, true);
      assert FirstMatters(calls, ch, c, d, i, false) || !FirstMatters(calls, ch, c, d, i, false);
    }
  }

  /** A call that goes elsewhere does so for every shorter chain, and one that writes too: those after the head add nothing. */
  lemma {:induction false} ElsewhereAlways(calls: Calls, ch: Chain, c: nat, d: nat)
    requires var b1, b2 := GetModRefBehavior(ch, c), GetModRefBehavior(ch, d);
             b1.elsewhere && b2.elsewhere && !(OnlyReads(b1) && OnlyReads(b2))
    ensures var r := CallEffect(calls, ch, c, d); r.ref && (r.mod || OnlyReads(GetModRefBehavior(ch, c)))
  {
    if ch.Analysis? { ElsewhereAlways(calls, ch.next, c, d); }
  }

  lemma CallIsExact(calls: Calls, ch: Chain, c: nat, d: nat)
    ensures DependsExactly(calls, ch, c, d, CallEffect(calls, ch, c, d))
  {
    if ch.Analysis? {
      var b1, b2 := GetModRefBehavior(ch, c), GetModRefBehavior(ch, d);
      var mask := if OnlyReads(b1) then REF else MOD_REF;
      SecondEffectsAre(calls, ch, c, d, mask, |calls(d)|);
      FirstEffectsAre(calls, ch, c, d, mask, |calls(c)|);
      hide SecondEffects, FirstEffects, GetModRefBehavior;
      if !Unrelated(b1, b2) && b1.elsewhere && b2.elsewhere { ElsewhereAlways(calls, ch, c, d); }
    }
  }

  /** Two calls that work through arguments only, no two of which may alias, do not depend on each other. */
  lemma SeparateArgumentsIndependent(calls: Calls, ch: Chain, c: nat, d: nat)
    requires ch.Analysis? && OnlyArgs(GetModRefBehavior(ch, c)) && OnlyArgs(GetModRefBehavior(ch, d))
    requires forall i, j | 0 <= i < |calls(c)| && 0 <= j < |calls(d)| && calls(c)[i] && calls(d)[j] ::
               ch.here.noAlias(ch.here.argLocation(c, i).0, ch.here.argLocation(d, j).0)
    ensures CallEffect(calls, ch, c, d) == NO_MOD_REF
  {
    CallIsExact(calls, ch, c, d);
    hide CallEffect, GetModRefBehavior, LocationEffect;
    forall i: nat, write ensures !SecondMatters(calls, ch, c, d, i, write) {
      if i < |calls(d)| && calls(d)[i] {
        var loc := ch.here.argLocation(d, i).0;
        OneLevel(calls, ch, c, loc);
        forall j: nat, w ensures !ArgAdmits(calls, ch.here, c, loc, j, w) {}
      }
    }
  }

  /** Once all of the mask is found the remaining arguments add nothing: the early exits lose nothing. */
  lemma {:induction false} SecondStays(calls: Calls, ch: Chain, c: nat, d: nat, mask: Effect, k: nat, n: nat)
    requires ch.Analysis? && k <= n <= |calls(d)| && SecondEffects(calls, ch, c, d, mask, k) == mask
    ensures SecondEffects(calls, ch, c, d, mask, n) == mask
    decreases n
  {
    if k < n { SecondStays(calls, ch, c, d, mask, k, n - 1); }
  }

  lemma {:induction false} FirstStays(calls: Calls, ch: Chain, c: nat, d: nat, mask: Effect, k: nat, n: nat)
    requires ch.Analysis? && k <= n <= |calls(c)| && FirstEffects(calls, ch, c, d, mask, k) == mask
    ensures FirstEffects(calls, ch, c, d, mask, n) == mask
    decreases n
  {
    if k < n { FirstStays(calls, ch, c, d, mask, k, n - 1); }
  }

  /** The effects on loc of all arguments below k that may alias it are in `mask`. */
  ghost predicate Gathered(calls: Calls, h: Answers, c: nat, loc: nat, k: nat, doesAlias: bool, mask: Effect) {
    forall i | 0 <= i < k && i < |calls(c)| && calls(c)[i] && !h.noAlias(h.argLocation(c, i).0, loc) ::
      doesAlias && Or(h.argLocation(c, i).1, mask) == mask
  }

  lemma GatheredTells(w: World, calls: Calls, h: Answers, c: nat, loc: nat, doesAlias: bool, mask: Effect, b: Behavior)
    requires AnswersSound(w, calls, h) && BehaviorSound(w, c, b) && OnlyArgs(b)
    requires DoesArgs(b) ==> Gathered(calls, h, c, loc, |calls(c)|, doesAlias, mask)
    ensures Tells(w, c, loc, if doesAlias then mask else NO_MOD_REF) || !DoesArgs(b)
    ensures !DoesArgs(b) ==> Tells(w, c, loc, NO_MOD_REF)
  {
    if DoesArgs(b) {
      assert ArgsSound(w, calls, h, c);
      forall a | w.covers(loc, a)
        ensures w.loads(c, a) ==> doesAlias && mask.ref
        ensures w.stores(c, a) ==> doesAlias && mask.mod
      {
        assert Accesses(w, c, a) ==> w.within(c, a);
        if w.loads(c, a) { var i :| ArgCovers(w, calls, h, c, i, a, false); }
        if w.stores(c, a) { var i :| ArgCovers(w, calls, h, c, i, a, true); }
      }
    } else {
      forall a ensures !w.loads(c, a) && !w.stores(c, a) { assert !Accesses(w, c, a); }
    }
  }

  /** What a call does to a location: never less than it really does, in any world the analyses are right about. */
  method CallAndLocation(calls: Calls, ch: Chain, cs: nat, loc: nat, ghost w: World) returns (r: Effect)
    requires ChainSound(w, calls, ch)
    ensures Tells(w, cs, loc, r) && r == LocationEffect(calls, ch, cs, loc)
    ensures AdmittedExactly(calls, ch, cs, loc, r)
    decreases ch
  {
    hide AnswersSound, ArgsSound, BehaviorSound, AdmittedExactly;
    LocationIsExact(calls, ch, cs, loc);
    if ch.NoAA? { return MOD_REF; }
    var h := ch.here;
    var mrb := GetModRefBehavior(ch, cs);
    BehaviorIsSound(w, calls, ch, cs);
    BehaviorTells(w, cs, loc, mrb);
    if mrb == NOWHERE { return NO_MOD_REF; }
    var mask := if OnlyReads(mrb) then REF else MOD_REF;
    if OnlyArgs(mrb) {
      var doesAlias, allArgsMask := false, NO_MOD_REF;
      if DoesArgs(mrb) {
        for k := 0 to |calls(cs)|
          invariant Gathered(calls, h, cs, loc, k, doesAlias, allArgsMask)
          invariant allArgsMask == ArgEffects(calls, h, cs, loc, k) && (!doesAlias ==> allArgsMask == NO_MOD_REF)
        {
          if !calls(cs)[k] { continue; }
          var (csLoc, argMask) := h.argLocation(cs, k);
          if !h.noAlias(csLoc, loc) {
            doesAlias, allArgsMask := true, Or(allArgsMask, argMask);
          }
        }
      }
      GatheredTells(w, calls, h, cs, loc, doesAlias, allArgsMask, mrb);
      if !doesAlias { return NO_MOD_REF; }
      mask := And(mask, allArgsMask);
    }
    if mask.mod && h.constant(loc) {
      ConstantTells(w, calls, h, cs, loc, mask);
      mask := mask.(mod := false);
    }
    r := CallAndLocation(calls, ch.next, cs, loc, w);
    r := And(r, mask);
  }

  lemma BehaviorTells(w: World, c: nat, loc: nat, b: Behavior)
    requires BehaviorSound(w, c, b)
    ensures Tells(w, c, loc, if OnlyReads(b) then REF else MOD_REF)
    ensures b.effect == NO_MOD_REF ==> Tells(w, c, loc, NO_MOD_REF)
  {
  }

  lemma ConstantTells(w: World, calls: Calls, h: Answers, c: nat, loc: nat, mask: Effect)
    requires AnswersSound(w, calls, h) && h.constant(loc) && Tells(w, c, loc, mask)
    ensures Tells(w, c, loc, mask.(mod := false))
  {
  }

  /** The dependence of another call on a location that d may use as argMask says. */
  function Inverse(argMask: Effect): Effect {
    if argMask == MOD then MOD_REF else if argMask == REF then MOD else argMask
  }

  /** r has all of the dependence of c on what d does through its arguments below k. */
  ghost predicate Depends(w: World, calls: Calls, h: Answers, c: nat, d: nat, k: nat, r: Effect) {
    && (forall a, i | 0 <= i < k && w.stores(c, a) && Accesses(w, d, a) ::
          ArgCovers(w, calls, h, d, i, a, false) || ArgCovers(w, calls, h, d, i, a, true) ==> r.mod)
    && (forall a, i | 0 <= i < k && w.loads(c, a) && w.stores(d, a) :: ArgCovers(w, calls, h, d, i, a, true) ==> r.ref)
  }

  lemma DependsNext(w: World, calls: Calls, h: Answers, c: nat, d: nat, k: nat, r: Effect, info: Effect, mask: Effect)
    requires Depends(w, calls, h, c, d, k, r) && k < |calls(d)|
    requires calls(d)[k] ==> Tells(w, c, h.argLocation(d, k).0, info)
    requires forall a :: (w.stores(c, a) ==> mask.mod) && (w.loads(c, a) ==> mask.ref)
    ensures calls(d)[k] ==> Depends(w, calls, h, c, d, k + 1, And(Or(r, And(info, Inverse(h.argLocation(d, k).1))), mask))
    ensures !calls(d)[k] ==> Depends(w, calls, h, c, d, k + 1, r)
  {
  }

  lemma DependsAll(w: World, calls: Calls, h: Answers, c: nat, d: nat, b: Behavior, r: Effect)
    requires AnswersSound(w, calls, h) && BehaviorSound(w, d, b) && OnlyArgs(b)
    requires DoesArgs(b) ==> Depends(w, calls, h, c, d, |calls(d)|, r)
    ensures TellsCalls(w, c, d, r)
  {
    assert ArgsSound(w, calls, h, d);
    forall a
      ensures w.stores(c, a) && Accesses(w, d, a) ==> r.mod
      ensures w.loads(c, a) && w.stores(d, a) ==> r.ref
    {
      assert Accesses(w, d, a) ==> w.within(d, a);
      if w.loads(d, a) { var i :| ArgCovers(w, calls, h, d, i, a, false); }
      if w.stores(d, a) { var i :| ArgCovers(w, calls, h, d, i, a, true); }
    }
  }

  /** r has all of the dependence of what c does through its arguments below k on d. */
  ghost predicate Depending(w: World, calls: Calls, h: Answers, c: nat, d: nat, k: nat, r: Effect) {
    && (forall a, i | 0 <= i < k && w.stores(c, a) && Accesses(w, d, a) :: ArgCovers(w, calls, h, c, i, a, true) ==> r.mod)
    && (forall a, i | 0 <= i < k && w.loads(c, a) && w.stores(d, a) :: ArgCovers(w, calls, h, c, i, a, false) ==> r.ref)
  }

  /** The test on what d does to a location that c may use as argMask says. */
  predicate Concerns(argMask: Effect, argR: Effect) { (argMask.mod && argR != NO_MOD_REF) || (argMask.ref && argR.mod) }

  lemma DependingNext(w: World, calls: Calls, h: Answers, c: nat, d: nat, k: nat, r: Effect, argR: Effect, mask: Effect)
    requires Depending(w, calls, h, c, d, k, r) && k < |calls(c)|
    requires calls(c)[k] ==> Tells(w, d, h.argLocation(c, k).0, argR)
    requires forall a :: (w.stores(c, a) ==> mask.mod) && (w.loads(c, a) ==> mask.ref)
    ensures var m := h.argLocation(c, k).1;
            calls(c)[k] ==> Depending(w, calls, h, c, d, k + 1, if Concerns(m, argR) then And(Or(r, m), mask) else r)
    ensures !calls(c)[k] ==> Depending(w, calls, h, c, d, k + 1, r)
  {
  }

  lemma DependingAll(w: World, calls: Calls, h: Answers, c: nat, d: nat, b: Behavior, r: Effect)
    requires AnswersSound(w, calls, h) && BehaviorSound(w, c, b) && OnlyArgs(b)
    requires DoesArgs(b) ==> Depending(w, calls, h, c, d, |calls(c)|, r)
    ensures TellsCalls(w, c, d, r)
  {
    assert ArgsSound(w, calls, h, c);
    forall a
      ensures w.stores(c, a) && Accesses(w, d, a) ==> r.mod
      ensures w.loads(c, a) && w.stores(d, a) ==> r.ref
    {
      assert Accesses(w, c, a) ==> w.within(c, a);
      if w.loads(c, a) { var i :| ArgCovers(w, calls, h, c, i, a, false); }
      if w.stores(c, a) { var i :| ArgCovers(w, calls, h, c, i, a, true); }
    }
  }

  /** Nothing is left to find once the whole mask is. */
  lemma WholeMask(w: World, c: nat, d: nat, mask: Effect)
    requires forall a :: (w.stores(c, a) ==> mask.mod) && (w.loads(c, a) ==> mask.ref)
    ensures TellsCalls(w, c, d, mask)
  {
  }

  /** The loop over the arguments of the second call. */
  method ThroughSecond(calls: Calls, ch: Chain, cs1: nat, cs2: nat, mask: Effect, b2: Behavior, ghost w: World) returns (r: Effect)
    requires ChainSound(w, calls, ch) && ch.Analysis? && BehaviorSound(w, cs2, b2) && OnlyArgs(b2)
    requires forall a :: (w.stores(cs1, a) ==> mask.mod) && (w.loads(cs1, a) ==> mask.ref)
    ensures TellsCalls(w, cs1, cs2, r)
    ensures r == if DoesArgs(b2) then SecondEffects(calls, ch, cs1, cs2, mask, |calls(cs2)|) else NO_MOD_REF
  {
    hide AnswersSound, BehaviorSound, Depends, Tells, TellsCalls, Inverse;
    r := NO_MOD_REF;
    NoDependence(w, calls, ch.here, cs1, cs2);
    if DoesArgs(b2) {
      for k := 0 to |calls(cs2)|
        invariant Depends(w, calls, ch.here, cs1, cs2, k, r) && r == SecondEffects(calls, ch, cs1, cs2, mask, k)
      {
        if !calls(cs2)[k] {
          DependsNext(w, calls, ch.here, cs1, cs2, k, r, NO_MOD_REF, mask);
          continue;
        }
        var (cs2Loc, argMask) := ch.here.argLocation(cs2, k);
        var info := CallAndLocation(calls, ch, cs1, cs2Loc, w);
        DependsNext(w, calls, ch.here, cs1, cs2, k, r, info, mask);
        r := And(Or(r, And(info, Inverse(argMask))), mask);
        if r == mask {
          SecondStays(calls, ch, cs1, cs2, mask, k + 1, |calls(cs2)|);
          WholeMask(w, cs1, cs2, mask);
          return;
        }
      }
    }
    DependsAll(w, calls, ch.here, cs1, cs2, b2, r);
  }

  lemma NoDependence(w: World, calls: Calls, h: Answers, c: nat, d: nat)
    ensures Depends(w, calls, h, c, d, 0, NO_MOD_REF) && Depending(w, calls, h, c, d, 0, NO_MOD_REF)
  {
  }

  /** The loop over the arguments of the first call. */
  method ThroughFirst(calls: Calls, ch: Chain, cs1: nat, cs2: nat, mask: Effect, b1: Behavior, ghost w: World) returns (r: Effect)
    requires ChainSound(w, calls, ch) && ch.Analysis? && BehaviorSound(w, cs1, b1) && OnlyArgs(b1)
    requires forall a :: (w.stores(cs1, a) ==> mask.mod) && (w.loads(cs1, a) ==> mask.ref)
    ensures TellsCalls(w, cs1, cs2, r)
    ensures r == if DoesArgs(b1) then FirstEffects(calls, ch, cs1, cs2, mask, |calls(cs1)|) else NO_MOD_REF
  {
    hide AnswersSound, BehaviorSound, Depending, Tells, TellsCalls;
    r := NO_MOD_REF;
    NoDependence(w, calls, ch.here, cs1, cs2);
    if DoesArgs(b1) {
      for k := 0 to |calls(cs1)|
        invariant Depending(w, calls, ch.here, cs1, cs2, k, r) && r == FirstEffects(calls, ch, cs1, cs2, mask, k)
      {
        if !calls(cs1)[k] {
          DependingNext(w, calls, ch.here, cs1, cs2, k, r, NO_MOD_REF, mask);
          continue;
        }
        var (cs1Loc, argMask) := ch.here.argLocation(cs1, k);
        var argR := CallAndLocation(calls, ch, cs2, cs1Loc, w);
        DependingNext(w, calls, ch.here, cs1, cs2, k, r, argR, mask);
        if Concerns(argMask, argR) { r := And(Or(r, argMask), mask); }
        if r == mask {
          FirstStays(calls, ch, cs1, cs2, mask, k + 1, |calls(cs1)|);
          WholeMask(w, cs1, cs2, mask);
          return;
        }
      }
    }
    DependingAll(w, calls, ch.here, cs1, cs2, b1, r);
  }

  /** How one call depends on another: Mod where the first writes what the second uses, Ref where it reads what the second
      writes, and never less than that. */
  method CallAndCall(calls: Calls, ch: Chain, cs1: nat, cs2: nat, ghost w: World) returns (r: Effect)
    requires ChainSound(w, calls, ch)
    ensures TellsCalls(w, cs1, cs2, r) && r == CallEffect(calls, ch, cs1, cs2)
    ensures DependsExactly(calls, ch, cs1, cs2, r)
    decreases ch
  {
    hide AnswersSound, ArgsSound, BehaviorSound, TellsCalls, DependsExactly;
    CallIsExact(calls, ch, cs1, cs2);
    WholeMask(w, cs1, cs2, MOD_REF);
    if ch.NoAA? { return MOD_REF; }
    var b1 := GetModRefBehavior(ch, cs1);
    BehaviorIsSound(w, calls, ch, cs1);
    var b2 := GetModRefBehavior(ch, cs2);
    BehaviorIsSound(w, calls, ch, cs2);
    BehaviorsTell(w, cs1, cs2, b1, b2);
    if b1 == NOWHERE { return NO_MOD_REF; }
    if b2 == NOWHERE { return NO_MOD_REF; }
    if OnlyReads(b1) && OnlyReads(b2) { return NO_MOD_REF; }
    var mask := if OnlyReads(b1) then REF else MOD_REF;
    if OnlyArgs(b2) {
      r := ThroughSecond(calls, ch, cs1, cs2, mask, b2, w);
      return;
    }
    if OnlyArgs(b1) {
      r := ThroughFirst(calls, ch, cs1, cs2, mask, b1, w);
      return;
    }
    r := CallAndCall(calls, ch.next, cs1, cs2, w);
    MaskedTells(w, cs1, cs2, r, mask);
    r := And(r, mask);
  }

  lemma BehaviorsTell(w: World, c: nat, d: nat, b1: Behavior, b2: Behavior)
    requires BehaviorSound(w, c, b1) && BehaviorSound(w, d, b2)
    ensures b1 == NOWHERE || b2 == NOWHERE || (OnlyReads(b1) && OnlyReads(b2)) ==> TellsCalls(w, c, d, NO_MOD_REF)
    ensures var mask := if OnlyReads(b1) then REF else MOD_REF;
            forall a :: (w.stores(c, a) ==> mask.mod) && (w.loads(c, a) ==> mask.ref)
  {
  }

  lemma MaskedTells(w: World, c: nat, d: nat, r: Effect, mask: Effect)
    requires TellsCalls(w, c, d, r) && forall a :: (w.stores(c, a) ==> mask.mod) && (w.loads(c, a) ==> mask.ref)
    ensures TellsCalls(w, c, d, And(r, mask))
  {
  }

  // Instructions

  /** `ordered` is volatile, or atomic beyond monotonic. `at` is the location of the instruction's own operand. */
  datatype Instr =
    | Load(at: nat, ordered: bool)
    | Store(at: nat, ordered: bool)
    | VAArg(at: nat)
    | CmpXchg(at: nat, ordered: bool)
    | AtomicRMW(at: nat, ordered: bool)
    | Fence
    | Call(cs: nat)
    | Other

  /** What an instruction loads and stores; of one that orders memory nothing is known. */
  ghost predicate Uses(w: World, i: Instr, a: nat, store: bool) {
    match i
    case Load(at, ordered) => ordered || (!store && w.covers(at, a))
    case Store(at, ordered) => ordered || (store && w.covers(at, a))
    case VAArg(at) => w.covers(at, a)
    case CmpXchg(at, ordered) => ordered || w.covers(at, a)
    case AtomicRMW(at, ordered) => ordered || w.covers(at, a)
    case Fence => true
    case Call(cs) => if store then w.stores(cs, a) else w.loads(cs, a)
    case Other => false
  }

  /** No instruction that runs stores to constant memory. */
  ghost predicate ConstantKept(w: World, h: Answers, i: Instr) {
    match i
    case Load(_, _) => true
    case CmpXchg(_, _) => true
    case AtomicRMW(_, _) => true
    case Other => true
    case Fence => true
    case Call(_) => true
    case Store(at, ordered) => !ordered ==> forall l, a :: h.constant(l) && w.covers(l, a) ==> !w.covers(at, a)
    case VAArg(at) => forall l, a :: h.constant(l) && w.covers(l, a) ==> !w.covers(at, a)
  }

  ghost predicate InstrTells(w: World, i: Instr, loc: nat, r: Effect) {
    forall a | w.covers(loc, a) :: (Uses(w, i, a, false) ==> r.ref) && (Uses(w, i, a, true) ==> r.mod)
  }

  /** Ordered accesses and fences may do anything; others what their kind does, unless they cannot meet loc. */
  function InstructionEffect(calls: Calls, ch: Chain, i: Instr, loc: nat): Effect
    requires ch.Analysis?
  {
    if i.Other? then NO_MOD_REF
    else if i.Call? then LocationEffect(calls, ch, i.cs, loc)
    else if i.Fence? || (!i.VAArg? && i.ordered) then MOD_REF
    else if ch.here.noAlias(i.at, loc) then NO_MOD_REF
    else if i.Load? then REF
    else if i.CmpXchg? || i.AtomicRMW? then MOD_REF
    else if ch.here.constant(loc) then NO_MOD_REF
    else if i.Store? then MOD else MOD_REF
  }

  /** Volatile or atomic accesses and fences, which order all memory. */
  predicate Orders(i: Instr) {
    i.Fence? || ((i.Load? || i.Store? || i.CmpXchg? || i.AtomicRMW?) && i.ordered)
  }

  /** Nothing is answered only for an instruction that does nothing, that cannot meet the location, or that would write constant
      memory; otherwise what an instruction of its kind can do at all. */
  ghost predicate InstructionExactly(calls: Calls, ch: Chain, i: Instr, loc: nat, r: Effect)
    requires ch.Analysis?
  {
    if i.Call? then AdmittedExactly(calls, ch, i.cs, loc, r)
    else
      && (r == NO_MOD_REF <==> || i.Other?
                               || (!Orders(i) && (ch.here.noAlias(i.at, loc) || (ch.here.constant(loc) && (i.Store? || i.VAArg?)))))
      && (r != NO_MOD_REF ==> (r.mod <==> exists w, a :: Uses(w, i, a, true)) && (r.ref <==> exists w, a :: Uses(w, i, a, false)))
  }

  /** What a kind of instruction can do, it does in some world. */
  lemma CanUse(i: Instr, store: bool)
    requires !i.Call? && !i.Other? && !(i.Load? && store && !i.ordered) && !(i.Store? && !store && !i.ordered)
    ensures exists w, a :: Uses(w, i, a, store)
  {
    var w := World((c, a) => true, (c, a) => true, (c, a) => true, (l, a) => true);
    assert w.covers(0, 0);
    match i {
      case Load(at, _) => assert w.covers(at, 0) && Uses(w, i, 0, store);
      case Store(at, _) => assert w.covers(at, 0) && Uses(w, i, 0, store);
      case VAArg(at) => assert w.covers(at, 0) && Uses(w, i, 0, store);
      case CmpXchg(at, _) => assert w.covers(at, 0) && Uses(w, i, 0, store);
      case AtomicRMW(at, _) => assert w.covers(at, 0) && Uses(w, i, 0, store);
      case Fence => assert Uses(w, i, 0, store);
      case _ =>
    }
  }

  lemma KindOnly(i: Instr)
    ensures i.Load? && !i.ordered ==> !exists w, a :: Uses(w, i, a, true)
    ensures i.Store? && !i.ordered ==> !exists w, a :: Uses(w, i, a, false)
  {
  }

  lemma InstructionIsExact(calls: Calls, ch: Chain, i: Instr, loc: nat)
    requires ch.Analysis?
    ensures InstructionExactly(calls, ch, i, loc, InstructionEffect(calls, ch, i, loc))
  {
    hide LocationEffect, AdmittedExactly;
    if i.Call? {
      LocationIsExact(calls, ch, i.cs, loc);
    } else {
      if !i.Other? && !(i.Load? && !i.ordered) { CanUse(i, true); }
      if !i.Other? && !(i.Store? && !i.ordered) { CanUse(i, false); }
      KindOnly(i);
    }
  }

  method InstructionAndLocation(calls: Calls, ch: Chain, i: Instr, loc: nat, ghost w: World) returns (r: Effect)
    requires ChainSound(w, calls, ch) && ch.Analysis? && ConstantKept(w, ch.here, i)
    ensures InstrTells(w, i, loc, r) && r == InstructionEffect(calls, ch, i, loc)
    ensures InstructionExactly(calls, ch, i, loc, r)
  {
    hide InstructionExactly, AdmittedExactly;
    InstructionIsExact(calls, ch, i, loc);
    var h := ch.here;
    match i {
      case Load(at, ordered) =>
        if ordered { return MOD_REF; }
        if h.noAlias(at, loc) { return NO_MOD_REF; }
        return REF;
      case Store(at, ordered) =>
        if ordered { return MOD_REF; }
        if h.noAlias(at, loc) { return NO_MOD_REF; }
        if h.constant(loc) { return NO_MOD_REF; }
        return MOD;
      case VAArg(at) =>
        if h.noAlias(at, loc) { return NO_MOD_REF; }
        if h.constant(loc) { return NO_MOD_REF; }
        return MOD_REF;
      case CmpXchg(at, ordered) =>
        if ordered { return MOD_REF; }
        if h.noAlias(at, loc) { return NO_MOD_REF; }
        return MOD_REF;
      case AtomicRMW(at, ordered) =>
        if ordered { return MOD_REF; }
        if h.noAlias(at, loc) { return NO_MOD_REF; }
        return MOD_REF;
      case Fence => return MOD_REF;
      case Call(cs) =>
        r := CallAndLocation(calls, ch, cs, loc, w);
        return;
      case Other => return NO_MOD_REF;
    }
  }

  predicate Meets(calls: Calls, ch: Chain, i: Instr, loc: nat, mode: Effect)
    requires ch.Analysis?
  {
    And(InstructionEffect(calls, ch, i, loc), mode) != NO_MOD_REF
  }

  /** False only if no instruction from first to last, both included, uses the location in the way asked for. */
  method CanInstructionRangeModRef(calls: Calls, ch: Chain, block: seq<Instr>, first: nat, last: nat, loc: nat, mode: Effect,
                                   ghost w: World) returns (b: bool)
    requires first <= last < |block| && ChainSound(w, calls, ch) && ch.Analysis?
    requires forall i | i in block :: ConstantKept(w, ch.here, i)
    ensures b <==> exists k :: first <= k <= last && Meets(calls, ch, block[k], loc, mode)
    ensures !b ==> forall k, a | first <= k <= last && w.covers(loc, a) ::
                     !(mode.ref && Uses(w, block[k], a, false)) && !(mode.mod && Uses(w, block[k], a, true))
  {
    hide ChainSound, ConstantKept, Uses, InstructionEffect;
    var i := first;
    while i != last + 1
      invariant first <= i <= last + 1 && forall k | first <= k < i :: !Meets(calls, ch, block[k], loc, mode)
      invariant forall k, a | first <= k < i && w.covers(loc, a) ::
                  !(mode.ref && Uses(w, block[k], a, false)) && !(mode.mod && Uses(w, block[k], a, true))
      decreases last + 1 - i
    {
      var r := InstructionAndLocation(calls, ch, block[i], loc, w);
      if And(r, mode) != NO_MOD_REF {
        assert Meets(calls, ch, block[i], loc, mode);
        return true;
      }
      i := i + 1;
    }
    b := false;
  }
}
