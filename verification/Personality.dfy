/** The personality routine of the demo: finding the landing pad of a call site and the catch clause that matches. */
module Personality {
  import opened Leb128
  import opened Wrappers

  /** One entry of the call-site table. */
  datatype CallSite = CallSite(start: nat, length: nat, landingPad: nat, action: nat)

  datatype Reason = ContinueUnwind | HandlerFound | InstallContext

  /** What the landing pad is entered with. */
  datatype Installed = Installed(ip: nat, selector: int)

  predicate Readable(mem: seq<byte>, pos: nat) {
    && pos <= |mem| && Terminated(mem[pos..]) && Length(mem[pos..]) <= 4
    && Terminated(mem[pos + Length(mem[pos..])..]) && Length(mem[pos + Length(mem[pos..])..]) <= 4
  }

  function TypeOffset(mem: seq<byte>, pos: nat): int
    requires Readable(mem, pos)
  {
    SValue(mem[pos..])
  }

  /** The second number of a record counts from where it stands. */
  function LinkAt(mem: seq<byte>, pos: nat): nat
    requires Readable(mem, pos)
  {
    pos + Length(mem[pos..])
  }

  function ActionOffset(mem: seq<byte>, pos: nat): int
    requires Readable(mem, pos)
  {
    SValue(mem[LinkAt(mem, pos)..])
  }

  /** The records from pos on carry these type offsets, and the chain ends. There are no filters. */
  predicate Chain(mem: seq<byte>, pos: nat, types: seq<nat>)
    decreases |types|
  {
    && types != [] && Readable(mem, pos) && TypeOffset(mem, pos) == types[0]
    && if ActionOffset(mem, pos) == 0 then |types| == 1
       else LinkAt(mem, pos) + ActionOffset(mem, pos) >= 0
            && Chain(mem, LinkAt(mem, pos) + ActionOffset(mem, pos), types[1..])
  }

  lemma {:induction false} ChainIsOne(mem: seq<byte>, pos: nat, a: seq<nat>, b: seq<nat>)
    requires Chain(mem, pos, a) && Chain(mem, pos, b)
    ensures a == b
    decreases |a|
  {
    if ActionOffset(mem, pos) != 0 {
      ChainIsOne(mem, LinkAt(mem, pos) + ActionOffset(mem, pos), a[1..], b[1..]);
      assert a == [a[0]] + a[1..] && b == [b[0]] + b[1..];
    } else {
      assert a == [a[0]] && b == [b[0]];
    }
  }

  /** A record matches an exception by type; offset 0 is a cleanup. */
  predicate Matches(typeAt: nat -> int, t: int, offset: nat) { offset > 0 && typeAt(offset) == t }

  /** The position of the first matching record. */
  function FirstMatch(typeAt: nat -> int, t: int, types: seq<nat>): (k: Option<nat>)
    ensures k.None? <==> forall i | 0 <= i < |types| :: !Matches(typeAt, t, types[i])
    ensures k.Some? ==> k.value < |types| && Matches(typeAt, t, types[k.value])
                        && forall i | 0 <= i < k.value :: !Matches(typeAt, t, types[i])
  {
    if types == [] then None
    else if Matches(typeAt, t, types[0]) then Some(0)
    else
      match FirstMatch(typeAt, t, types[1..])
      case None => (assert forall i | 0 < i < |types| :: types[i] == types[1..][i - 1]; None)
      case Some(i) => (assert forall j | 0 < j <= i + 1 :: types[j] == types[1..][j - 1]; Some(i + 1))
  }

  /** Words as addresses: a wrapped negative offset moves back. */
  lemma MoveBy(pos: nat, offset: int)
    requires pos < TWO_64 / 2 && -0x1000_0000 <= offset < 0x1000_0000 && pos + offset >= 0
    ensures (pos + Wrapped(offset)) % TWO_64 == pos + offset && (Wrapped(offset) == 0 <==> offset == 0)
    ensures 0 <= offset ==> Wrapped(offset) == offset
  {
  }

  lemma {:induction false} SmallS(s: seq<byte>)
    requires Terminated(s)
    ensures Length(s) == 1 ==> -128 <= SValue(s) < 128
    ensures Length(s) == 2 ==> -0x4000 <= SValue(s) < 0x4000
    ensures Length(s) == 3 ==> -0x20_0000 <= SValue(s) < 0x20_0000
    ensures Length(s) == 4 ==> -0x1000_0000 <= SValue(s) < 0x1000_0000
  {
    if s[0] >= 128 { SmallS(s[1..]); }
  }

  /** Walks the chain of records: found with one plus the position of the first that matches, or not at all. */
  method HandleActionValue(mem: seq<byte>, entry: nat, typeAt: nat -> int, ours: bool, t: int, ghost types: seq<nat>)
      returns (found: bool, action: nat)
    requires |mem| < TWO_64 / 2 && (ours ==> Chain(mem, entry, types))
    ensures found <==> ours && FirstMatch(typeAt, t, types).Some?
    ensures found ==> action == 1 + FirstMatch(typeAt, t, types).value
    ensures !found ==> action == 0
  {
    action := 0;
    if !ours { return false, 0; }
    hide Chain, Matches;
    var pos: nat, i: nat, more := entry, 0, true;
    found := false;
    assert types[0..] == types;
    while more
      invariant 0 <= i <= |types| && !found && (more ==> i < |types| && Chain(mem, pos, types[i..]))
      invariant forall k | 0 <= k < i :: !Matches(typeAt, t, types[k])
      invariant !more ==> i == |types|
      decreases |types| - i, more
    {
      var offset, next, link := ReadRecord(mem, pos, types[i..]);
      MatchesIs(typeAt, t, types[i]);
      if offset > 0 {
        if typeAt(offset) == t {
          FirstIs(typeAt, t, types, i);
          return true, i + 1;
        }
      }
      assert types[i..][1..] == types[i + 1..];
      more := next != 0;
      pos := (link + next) % TWO_64;
      i := i + 1;
    }
  }

  lemma MatchesIs(typeAt: nat -> int, t: int, offset: nat)
    ensures Matches(typeAt, t, offset) <==> offset > 0 && typeAt(offset) == t
  {
  }

  /** The two numbers of a record, and where the second stands. */
  method ReadRecord(mem: seq<byte>, pos: nat, ghost types: seq<nat>) returns (offset: nat, next: nat, link: nat)
    requires |mem| < TWO_64 / 2 && Chain(mem, pos, types)
    ensures offset == types[0] && (next == 0 <==> |types| == 1)
    ensures next != 0 ==> Chain(mem, (link + next) % TWO_64, types[1..])
  {
    hide Chain, SValue, Length, Wrapped;
    ChainStep(mem, pos, types);
    offset, link := ReadSLEB128(mem, pos);
    var end: nat;
    next, end := ReadSLEB128(mem, link);
    SmallS(mem[pos..]);
    SmallS(mem[link..]);
    MoveBy(0, types[0]);
    MoveBy(link, ActionOffset(mem, pos));
  }

  lemma ChainStep(mem: seq<byte>, pos: nat, types: seq<nat>)
    requires Chain(mem, pos, types)
    ensures types != [] && Readable(mem, pos) && SValue(mem[pos..]) == types[0]
    ensures LinkAt(mem, pos) <= |mem| && LinkAt(mem, pos) + ActionOffset(mem, pos) >= 0
    ensures ActionOffset(mem, pos) == 0 ==> |types| == 1
    ensures ActionOffset(mem, pos) != 0 ==> Chain(mem, LinkAt(mem, pos) + ActionOffset(mem, pos), types[1..]) && |types| > 1
  {
  }

  lemma FirstIs(typeAt: nat -> int, t: int, types: seq<nat>, i: nat)
    requires i < |types| && Matches(typeAt, t, types[i]) && forall k | 0 <= k < i :: !Matches(typeAt, t, types[k])
    ensures FirstMatch(typeAt, t, types) == Some(i)
  {
  }

  /** Ranges are tested in 64-bit words. */
  predicate Covers(site: CallSite, pc: nat) { site.start <= pc < (site.start + site.length) % TWO_64 }

  /** The first entry with a landing pad whose range has the pc. */
  function FindSite(sites: seq<CallSite>, pc: nat): Option<CallSite> {
    if sites == [] then None
    else if sites[0].landingPad != 0 && Covers(sites[0], pc) then Some(sites[0])
    else FindSite(sites[1..], pc)
  }

  /** The tables of one function: `chains` gives for each action entry the type offsets of its records. */
  datatype Tables = Tables(sites: seq<CallSite>, mem: seq<byte>, actionStart: nat, typeAt: nat -> int, funcStart: nat)

  ghost predicate TablesOk(tb: Tables, chains: map<nat, seq<nat>>) {
    && |tb.mem| < TWO_64 / 2
    && forall s | s in tb.sites && s.action != 0 ::
         s.action in chains && tb.actionStart + s.action >= 1 && Chain(tb.mem, tb.actionStart + s.action - 1, chains[s.action])
  }

  /** The selector that the clauses of a call site give: one plus the position of the clause, 0 for a cleanup. */
  ghost function Selector(tb: Tables, chains: map<nat, seq<nat>>, ours: bool, t: int, pc: nat): nat {
    match FindSite(tb.sites, pc)
    case None => 0
    case Some(s) =>
      if !ours || s.action == 0 || s.action !in chains then 0
      else
        match FirstMatch(tb.typeAt, t, chains[s.action])
        case None => 0
        case Some(k) => k + 1
  }

  /** Walks the call-site table. In the search phase only a match counts; in the cleanup phase any landing pad is entered. */
  method HandleLsda(tb: Tables, search: bool, ours: bool, t: int, pc: nat, ghost chains: map<nat, seq<nat>>)
      returns (ret: Reason, installed: Option<Installed>)
    requires TablesOk(tb, chains)
    ensures search ==> installed.None? && ret == if Selector(tb, chains, ours, t, pc) != 0 then HandlerFound else ContinueUnwind
    ensures !search ==>
              match FindSite(tb.sites, pc)
              case None => ret == ContinueUnwind && installed.None?
              case Some(s) => ret == InstallContext
                              && installed == Some(Installed(tb.funcStart + s.landingPad, Selector(tb, chains, ours, t, pc)))
  {
    hide Chain, FirstMatch, Matches;
    ret, installed := ContinueUnwind, None;
    var i := 0;
    assert tb.sites[0..] == tb.sites;
    while i < |tb.sites|
      invariant 0 <= i <= |tb.sites| && ret == ContinueUnwind && installed.None?
      invariant FindSite(tb.sites, pc) == FindSite(tb.sites[i..], pc)
    {
      var site := tb.sites[i];
      assert tb.sites[i..][0] == site && tb.sites[i..][1..] == tb.sites[i + 1..];
      i := i + 1;
      var actionEntry := site.action;
      if !ours { actionEntry := 0; }
      if site.landingPad == 0 { continue; }
      if actionEntry != 0 { actionEntry := actionEntry + tb.actionStart - 1; }
      if Covers(site, pc) {
        assert FindSite(tb.sites, pc) == Some(site) && site in tb.sites;
        var matched, actionValue := false, 0;
        if site.action != 0 && ours {
          matched, actionValue := HandleActionValue(tb.mem, actionEntry, tb.typeAt, ours, t, chains[site.action]);
        }
        if !search {
          installed := Some(Installed(tb.funcStart + site.landingPad, if !matched then 0 else actionValue));
          ret := InstallContext;
        } else if matched {
          ret := HandlerFound;
        }
        return;
      }
    }
  }

  /** The two phases agree: a handler is reported exactly when the cleanup phase installs a selector that is not zero. */
  method BothPhases(tb: Tables, ours: bool, t: int, pc: nat, ghost chains: map<nat, seq<nat>>)
      returns (searched: Reason, cleaned: Reason, installed: Option<Installed>)
    requires TablesOk(tb, chains)
    ensures searched == HandlerFound <==> installed.Some? && installed.value.selector != 0
    ensures searched != InstallContext && cleaned != HandlerFound && (installed.Some? <==> cleaned == InstallContext)
    ensures !ours ==> searched == ContinueUnwind
  {
    var none: Option<Installed>;
    searched, none := HandleLsda(tb, true, ours, t, pc, chains);
    cleaned, installed := HandleLsda(tb, false, ours, t, pc, chains);
  }
}
