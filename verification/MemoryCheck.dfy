/** L1, the memory-safety checker of src/memory_check.py, and the regions of src/config.py. */
module MemoryCheck {
  import opened Options
  import opened ConflictCheck

  /** [begin, end); a region with a missing bound is inert. */
  datatype Region = Region(name: string, begin: Option<int>, end: Option<int>)

  datatype Config = Config(spaceBits: nat, protectedRegions: seq<Region>, allowedRegions: seq<Region>)

  /** Region.contains. */
  predicate Contains(r: Region, addr: nat, n: nat) {
    if r.begin.None? || r.end.None? then false
    else if addr < r.begin.value then false
    else if addr + n > r.end.value then false
    else true
  }

  /** Region.intersects. */
  predicate Intersects(r: Region, addr: nat, n: nat) {
    if r.begin.None? || r.end.None? then false
    else if addr + n <= r.begin.value then false
    else if addr >= r.end.value then false
    else true
  }

  /** Bit p belongs to the region. */
  predicate InRegion(r: Region, p: int) {
    r.begin.Some? && r.end.Some? && r.begin.value <= p < r.end.value
  }

  ghost predicate SharesBit(r: Region, addr: nat, n: nat) {
    exists p :: addr <= p < addr + n && InRegion(r, p)
  }

  /** A region whose end is not above its begin has no bits, but a range that reaches over both
      ends is still said to meet it. */
  predicate Inverted(r: Region, addr: nat, n: nat) {
    r.begin.Some? && r.end.Some? && r.end.value <= r.begin.value && addr < r.end.value && r.begin.value < addr + n
  }

  /** intersects is exact for non-empty ranges but for inverted regions, where it errs on the
      strict side. */
  lemma IntersectsExactly(r: Region, addr: nat, n: nat)
    requires n > 0
    ensures Intersects(r, addr, n) <==> SharesBit(r, addr, n) || Inverted(r, addr, n)
  {
    if Intersects(r, addr, n) && !Inverted(r, addr, n) {
      var p := if addr < r.begin.value then r.begin.value else addr;
      assert addr <= p < addr + n && InRegion(r, p);
    }
  }

  lemma ContainsExactly(r: Region, addr: nat, n: nat)
    requires n > 0
    ensures Contains(r, addr, n) <==> forall p :: addr <= p < addr + n ==> InRegion(r, p)
  {
    if forall p :: addr <= p < addr + n ==> InRegion(r, p) {
      assert InRegion(r, addr) && InRegion(r, addr + n - 1);
    }
  }

  // ------------------------------------------------------------------ the verdict on one round

  datatype Reason = OutOfSpace | InProtected(region: Region) | NotAllowed

  datatype Violation = Violation(tick: nat, slot: nat, n: nat, dst: nat, src: nat, reason: Reason)

  datatype MemoryCheckResult =
    MemoryCheckResult(status: Status, violations: seq<Violation>, totalChecked: nat, totalNop: nat)

  predicate IsInAllowed(cfg: Config, addr: nat, n: nat) {
    exists r :: r in cfg.allowedRegions && Contains(r, addr, n)
  }

  /** What L1 asks of one instruction.  It looks at the destination only. */
  ghost predicate Safe(cfg: Config, ins: Instruction) {
    ins.n > 0 ==>
      && ins.dst + ins.n <= cfg.spaceBits
      && (forall r :: r in cfg.protectedRegions ==> !Intersects(r, ins.dst, ins.n))
      && (cfg.allowedRegions != [] ==> IsInAllowed(cfg, ins.dst, ins.n))
  }

  ghost predicate Passes(cfg: Config, instrs: seq<Instruction>) {
    forall ins :: ins in instrs ==> Safe(cfg, ins)
  }

  /** A violation of the round: an unsafe instruction with a reason that applies to it. */
  ghost predicate Justified(cfg: Config, instrs: seq<Instruction>, tick: nat, v: Violation) {
    && v.tick == tick
    && Instruction(v.slot, v.n, v.dst, v.src) in instrs && v.n > 0
    && match v.reason
       case OutOfSpace => v.dst + v.n > cfg.spaceBits
       case InProtected(r) => v.dst + v.n <= cfg.spaceBits && r in cfg.protectedRegions && Intersects(r, v.dst, v.n)
       case NotAllowed => v.dst + v.n <= cfg.spaceBits && cfg.allowedRegions != [] && !IsInAllowed(cfg, v.dst, v.n)
  }

  /** The first region a range meets. */
  function FirstMet(rs: seq<Region>, addr: nat, n: nat): Option<Region> {
    if |rs| == 0 then None else if Intersects(rs[0], addr, n) then Some(rs[0]) else FirstMet(rs[1..], addr, n)
  }

  function ViolationsOf(cfg: Config, ins: Instruction, tick: nat): seq<Violation> {
    if ins.n == 0 then []
    else if ins.dst + ins.n > cfg.spaceBits then [Violation(tick, ins.slot, ins.n, ins.dst, ins.src, OutOfSpace)]
    else
      var met := FirstMet(cfg.protectedRegions, ins.dst, ins.n);
      (if met.Some? then [Violation(tick, ins.slot, ins.n, ins.dst, ins.src, InProtected(met.value))] else [])
      + (if cfg.allowedRegions != [] && !IsInAllowed(cfg, ins.dst, ins.n)
         then [Violation(tick, ins.slot, ins.n, ins.dst, ins.src, NotAllowed)] else [])
  }

  /** The list check_layer returns. */
  function LayerViolations(cfg: Config, instrs: seq<Instruction>, tick: nat): seq<Violation> {
    if |instrs| == 0 then []
    else LayerViolations(cfg, instrs[..|instrs| - 1], tick) + ViolationsOf(cfg, instrs[|instrs| - 1], tick)
  }

  lemma {:induction false} FirstMetIsMet(rs: seq<Region>, addr: nat, n: nat)
    ensures var met := FirstMet(rs, addr, n);
            if met.Some? then met.value in rs && Intersects(met.value, addr, n)
            else forall r :: r in rs ==> !Intersects(r, addr, n)
  {
    if |rs| > 0 { FirstMetIsMet(rs[1..], addr, n); }
  }

  /** No violation means every instruction is safe, and every violation is justified. */
  lemma {:induction false} LayerVerdict(cfg: Config, instrs: seq<Instruction>, tick: nat)
    ensures LayerViolations(cfg, instrs, tick) == [] <==> Passes(cfg, instrs)
    ensures forall v :: v in LayerViolations(cfg, instrs, tick) ==> Justified(cfg, instrs, tick, v)
  {
    if |instrs| > 0 {
      var front, last := instrs[..|instrs| - 1], instrs[|instrs| - 1];
      LayerVerdict(cfg, front, tick);
      FirstMetIsMet(cfg.protectedRegions, last.dst, last.n);
      assert last in instrs && forall x :: x in instrs ==> x in front || x == last;
      assert Instruction(last.slot, last.n, last.dst, last.src) == last;
    }
  }

  // ------------------------------------------------------------------ the list is complete

  /** What check_layer can hold against an instruction, in the order it looks. */
  datatype Charge = LeavesSpace | MeetsProtected | MissesAllowed

  function Rank(h: Charge): nat {
    match h case LeavesSpace => 0 case MeetsProtected => 1 case MissesAllowed => 2
  }

  ghost predicate Applies(cfg: Config, ins: Instruction, h: Charge) {
    && ins.n > 0
    && match h
       case LeavesSpace => ins.dst + ins.n > cfg.spaceBits
       case MeetsProtected =>
         ins.dst + ins.n <= cfg.spaceBits && exists r :: r in cfg.protectedRegions && Intersects(r, ins.dst, ins.n)
       case MissesAllowed =>
         && ins.dst + ins.n <= cfg.spaceBits && |cfg.allowedRegions| > 0
         && forall r :: r in cfg.allowedRegions ==> !Contains(r, ins.dst, ins.n)
  }

  /** v brings the charge against the instruction; of the protected regions it names the first met. */
  ghost predicate Says(cfg: Config, v: Violation, ins: Instruction, tick: nat, h: Charge) {
    && v.tick == tick && v.slot == ins.slot && v.n == ins.n && v.dst == ins.dst && v.src == ins.src
    && match h
       case LeavesSpace => v.reason == OutOfSpace
       case MeetsProtected =>
         && v.reason.InProtected?
         && exists k: nat :: k < |cfg.protectedRegions| && IsFirstMet(cfg, ins, k, v.reason.region)
       case MissesAllowed => v.reason == NotAllowed
  }

  predicate IsFirstMet(cfg: Config, ins: Instruction, k: nat, r: Region)
    requires k < |cfg.protectedRegions|
  {
    && cfg.protectedRegions[k] == r && Intersects(r, ins.dst, ins.n)
    && forall j: nat :: j < k ==> !Intersects(cfg.protectedRegions[j], ins.dst, ins.n)
  }

  /** A charge against the instruction at a position. */
  datatype Count = Count(at: nat, charge: Charge)

  predicate Before(a: Count, b: Count) {
    a.at < b.at || (a.at == b.at && Rank(a.charge) < Rank(b.charge))
  }

  /** The violations bring every charge that applies to the first k instructions, once, in order. */
  ghost predicate Brings(cfg: Config, instrs: seq<Instruction>, k: nat, tick: nat, vs: seq<Violation>,
                         counts: seq<Count>)
    requires k <= |instrs|
  {
    && |counts| == |vs|
    && (forall x, y :: 0 <= x < y < |counts| ==> Before(counts[x], counts[y]))
    && (forall x :: 0 <= x < |counts| ==>
          && counts[x].at < k && Applies(cfg, instrs[counts[x].at], counts[x].charge)
          && Says(cfg, vs[x], instrs[counts[x].at], tick, counts[x].charge))
    && forall i: nat, h :: i < k && Applies(cfg, instrs[i], h) ==> Count(i, h) in counts
  }

  ghost predicate AllBrought(cfg: Config, instrs: seq<Instruction>, tick: nat, vs: seq<Violation>) {
    exists counts :: Brings(cfg, instrs, |instrs|, tick, vs, counts)
  }

  lemma {:induction false} FirstMetIsFirst(rs: seq<Region>, addr: nat, n: nat) returns (k: nat)
    requires FirstMet(rs, addr, n).Some?
    ensures k < |rs| && rs[k] == FirstMet(rs, addr, n).value && Intersects(rs[k], addr, n)
    ensures forall j: nat :: j < k ==> !Intersects(rs[j], addr, n)
  {
    k := 0;
    if !Intersects(rs[0], addr, n) {
      var k' := FirstMetIsFirst(rs[1..], addr, n);
      k := k' + 1;
      forall j: nat | j < k ensures !Intersects(rs[j], addr, n) {
        if j > 0 { assert rs[j] == rs[1..][j - 1]; }
      }
    }
  }

  /** The violations bring the charges that apply to instruction i, once, in order. */
  ghost predicate ChargesAt(cfg: Config, instrs: seq<Instruction>, i: nat, tick: nat, vs: seq<Violation>,
                            counts: seq<Count>)
    requires i < |instrs|
  {
    && |counts| == |vs|
    && (forall x, y :: 0 <= x < y < |counts| ==> Before(counts[x], counts[y]))
    && (forall x :: 0 <= x < |counts| ==>
          && counts[x].at == i && Applies(cfg, instrs[i], counts[x].charge)
          && Says(cfg, vs[x], instrs[i], tick, counts[x].charge))
    && forall h :: Applies(cfg, instrs[i], h) ==> Count(i, h) in counts
  }

  /** The charges against one instruction. */
  lemma {:induction false} ChargesOf(cfg: Config, instrs: seq<Instruction>, i: nat, tick: nat)
    returns (counts: seq<Count>)
    requires i < |instrs|
    ensures ChargesAt(cfg, instrs, i, tick, ViolationsOf(cfg, instrs[i], tick), counts)
  {
    hide Intersects, Contains, FirstMet;
    var ins := instrs[i];
    FirstMetIsMet(cfg.protectedRegions, ins.dst, ins.n);
    var met := FirstMet(cfg.protectedRegions, ins.dst, ins.n);
    if met.Some? {
      var k := FirstMetIsFirst(cfg.protectedRegions, ins.dst, ins.n);
      assert IsFirstMet(cfg, ins, k, met.value);
    }
    if ins.n == 0 {
      counts := [];
    } else if ins.dst + ins.n > cfg.spaceBits {
      counts := [Count(i, LeavesSpace)];
    } else {
      var strays := cfg.allowedRegions != [] && !IsInAllowed(cfg, ins.dst, ins.n);
      counts := (if met.Some? then [Count(i, MeetsProtected)] else [])
                + (if strays then [Count(i, MissesAllowed)] else []);
      assert Applies(cfg, ins, MeetsProtected) <==> met.Some?;
      assert Applies(cfg, ins, MissesAllowed) <==> strays;
    }
  }

  lemma {:induction false} LayerIsComplete(cfg: Config, instrs: seq<Instruction>, tick: nat, k: nat)
    returns (counts: seq<Count>)
    requires k <= |instrs|
    ensures Brings(cfg, instrs, k, tick, LayerViolations(cfg, instrs[..k], tick), counts)
  {
    hide Brings, ChargesAt, ViolationsOf, LayerViolations;
    if k == 0 {
      counts := [];
      OneLayerMore(cfg, instrs, tick, 0);
      NothingBrought(cfg, instrs, tick);
    } else {
      var before := LayerIsComplete(cfg, instrs, tick, k - 1);
      var more := ChargesOf(cfg, instrs, k - 1, tick);
      counts := before + more;
      OneLayerMore(cfg, instrs, tick, k - 1);
      MoreBrought(cfg, instrs, k - 1, tick, LayerViolations(cfg, instrs[..k - 1], tick), before,
                  ViolationsOf(cfg, instrs[k - 1], tick), more);
    }
  }

  lemma NothingBrought(cfg: Config, instrs: seq<Instruction>, tick: nat)
    ensures Brings(cfg, instrs, 0, tick, [], [])
  {
  }

  lemma MoreBrought(cfg: Config, instrs: seq<Instruction>, k: nat, tick: nat, vs: seq<Violation>, counts: seq<Count>,
                    vs': seq<Violation>, more: seq<Count>)
    requires k < |instrs| && Brings(cfg, instrs, k, tick, vs, counts) && ChargesAt(cfg, instrs, k, tick, vs', more)
    ensures Brings(cfg, instrs, k + 1, tick, vs + vs', counts + more)
  {
    hide Applies, Says, Rank;
    var all := counts + more;
    forall x | 0 <= x < |all|
      ensures all[x].at < k + 1 && Applies(cfg, instrs[all[x].at], all[x].charge)
           && Says(cfg, (vs + vs')[x], instrs[all[x].at], tick, all[x].charge)
    {
      if x >= |counts| { assert all[x] == more[x - |counts|] && (vs + vs')[x] == vs'[x - |vs|]; }
    }
    forall i: nat, h | i < k + 1 && Applies(cfg, instrs[i], h) ensures Count(i, h) in all {
      assert i < k ==> Count(i, h) in counts;
      assert i == k ==> Count(i, h) in more;
    }
  }

  lemma {:induction false} WholeLayer(cfg: Config, instrs: seq<Instruction>, tick: nat)
    ensures AllBrought(cfg, instrs, tick, LayerViolations(cfg, instrs, tick))
  {
    hide Brings, LayerViolations;
    var counts := LayerIsComplete(cfg, instrs, tick, |instrs|);
    assert instrs[..|instrs|] == instrs;
  }

  /** The positions of the NOPs. */
  function NopAt(instrs: seq<Instruction>): set<nat> {
    set i: nat | i < |instrs| && instrs[i].n == 0
  }

  lemma {:induction false} NopsCount(instrs: seq<Instruction>)
    ensures Nops(instrs) == |NopAt(instrs)|
  {
    if |instrs| > 0 {
      var k, front := |instrs| - 1, instrs[..|instrs| - 1];
      NopsCount(front);
      assert NopAt(instrs) == NopAt(front) + if instrs[k].n == 0 then {k} else {};
    }
  }

  /** _is_in_allowed. */
  method FindAllowed(cfg: Config, addr: nat, n: nat) returns (found: bool)
    ensures found <==> IsInAllowed(cfg, addr, n)
  {
    for k := 0 to |cfg.allowedRegions|
      invariant forall j :: 0 <= j < k ==> !Contains(cfg.allowedRegions[j], addr, n)
    {
      if Contains(cfg.allowedRegions[k], addr, n) { return true; }
    }
    return false;
  }

  /** The loop over the protected regions; it breaks at the first one that is met. */
  method FindProtected(cfg: Config, addr: nat, n: nat) returns (found: Option<Region>)
    ensures found == FirstMet(cfg.protectedRegions, addr, n)
  {
    for k := 0 to |cfg.protectedRegions|
      invariant FirstMet(cfg.protectedRegions, addr, n) == FirstMet(cfg.protectedRegions[k..], addr, n)
    {
      if Intersects(cfg.protectedRegions[k], addr, n) { return Some(cfg.protectedRegions[k]); }
    }
    return None;
  }

  function Nops(instrs: seq<Instruction>): nat {
    if |instrs| == 0 then 0
    else Nops(instrs[..|instrs| - 1]) + if instrs[|instrs| - 1].n == 0 then 1 else 0
  }

  lemma {:induction false} OneLayerMore(cfg: Config, instrs: seq<Instruction>, tick: nat, k: nat)
    ensures LayerViolations(cfg, instrs[..0], tick) == [] && Nops(instrs[..0]) == 0
    ensures k < |instrs| ==>
              && LayerViolations(cfg, instrs[..k + 1], tick)
                 == LayerViolations(cfg, instrs[..k], tick) + ViolationsOf(cfg, instrs[k], tick)
              && Nops(instrs[..k + 1]) == Nops(instrs[..k]) + if instrs[k].n == 0 then 1 else 0
  {
    if k < |instrs| { assert instrs[..k + 1][..k] == instrs[..k]; }
  }

  /** check_layer: PASS exactly if every instruction is safe; every violation is justified, and every
      charge that applies is brought, once and in order. */
  method CheckLayer(cfg: Config, instrs: seq<Instruction>, tick: nat) returns (result: MemoryCheckResult)
    ensures result.violations == LayerViolations(cfg, instrs, tick)
    ensures result.status == Pass <==> Passes(cfg, instrs)
    ensures forall v :: v in result.violations ==> Justified(cfg, instrs, tick, v)
    ensures AllBrought(cfg, instrs, tick, result.violations)
    ensures result.totalChecked == |instrs| && result.totalNop == Nops(instrs) == |NopAt(instrs)|
  {
    hide Passes, Justified, FirstMet, IsInAllowed, LayerViolations, Nops, NopAt, AllBrought;
    LayerVerdict(cfg, instrs, tick);
    WholeLayer(cfg, instrs, tick);
    NopsCount(instrs);
    OneLayerMore(cfg, instrs, tick, 0);
    var violations: seq<Violation> := [];
    var total, nop := 0, 0;
    for k := 0 to |instrs|
      invariant total == k && nop == Nops(instrs[..k])
      invariant violations == LayerViolations(cfg, instrs[..k], tick)
    {
      var ins := instrs[k];
      OneLayerMore(cfg, instrs, tick, k);
      total := total + 1;
      if ins.n == 0 {
        nop := nop + 1;
        continue;
      }
      if ins.dst + ins.n > cfg.spaceBits {
        violations := violations + [Violation(tick, ins.slot, ins.n, ins.dst, ins.src, OutOfSpace)];
        continue;
      }
      var region := FindProtected(cfg, ins.dst, ins.n);
      if region.Some? {
        violations := violations + [Violation(tick, ins.slot, ins.n, ins.dst, ins.src, InProtected(region.value))];
      }
      var allowed := FindAllowed(cfg, ins.dst, ins.n);
      if |cfg.allowedRegions| > 0 && !allowed {
        violations := violations + [Violation(tick, ins.slot, ins.n, ins.dst, ins.src, NotAllowed)];
      }
    }
    assert instrs[..|instrs|] == instrs;
    result := MemoryCheckResult(if violations != [] then Fail else Pass, violations, total, nop);
  }

  // ------------------------------------------------------------------ what passing means for bits

  ghost predicate IsProtected(cfg: Config, p: int) {
    exists r :: r in cfg.protectedRegions && InRegion(r, p)
  }

  ghost predicate IsAllowed(cfg: Config, p: int) {
    exists r :: r in cfg.allowedRegions && InRegion(r, p)
  }

  /** A safe instruction writes inside the space, outside every protected region and, where
      regions are allowed at all, inside one of them. */
  lemma SafeWrites(cfg: Config, ins: Instruction, p: int)
    requires Safe(cfg, ins) && ins.dst <= p < ins.dst + ins.n
    ensures p < cfg.spaceBits && !IsProtected(cfg, p)
    ensures cfg.allowedRegions != [] ==> IsAllowed(cfg, p)
  {
    forall r | r in cfg.protectedRegions ensures !InRegion(r, p) {
      IntersectsExactly(r, ins.dst, ins.n);
    }
    if cfg.allowedRegions != [] {
      var r :| r in cfg.allowedRegions && Contains(r, ins.dst, ins.n);
      ContainsExactly(r, ins.dst, ins.n);
    }
  }

  // ------------------------------------------------------------------ inert regions

  predicate Inert(r: Region) {
    r.begin.None? || r.end.None?
  }

  /** Regions without explicit bounds protect nothing, and a list of allowed regions that are all
      inert allows nothing: such a configuration passes exactly the rounds made of NOPs. */
  lemma InertRegions(cfg: Config, instrs: seq<Instruction>)
    requires forall r :: r in cfg.protectedRegions || r in cfg.allowedRegions ==> Inert(r)
    ensures forall p :: !IsProtected(cfg, p)
    ensures cfg.allowedRegions != [] ==>
              (Passes(cfg, instrs) <==> forall ins :: ins in instrs ==> ins.n == 0)
    ensures cfg.allowedRegions == [] ==>
              (Passes(cfg, instrs) <==> forall ins :: ins in instrs && ins.n > 0 ==> ins.dst + ins.n <= cfg.spaceBits)
  {
    forall ins | ins in instrs && ins.n > 0 && cfg.allowedRegions != [] ensures !Safe(cfg, ins) {
      forall r | r in cfg.allowedRegions ensures !Contains(r, ins.dst, ins.n) { assert Inert(r); }
    }
    forall ins | ins in instrs && ins.n > 0 && cfg.allowedRegions == []
      ensures Safe(cfg, ins) <==> ins.dst + ins.n <= cfg.spaceBits
    {
      forall r | r in cfg.protectedRegions ensures !Intersects(r, ins.dst, ins.n) { assert Inert(r); }
    }
  }

  /** The configuration that is shipped: every region lacks a bound. */
  function Shipped(): Config {
    Config(8 * 524288, [Region("PROCESSOR", Some(0), None), Region("MMIO", None, None)],
           [Region("TESTSCR", None, None)])
  }

  lemma ShippedPassesOnlyNops(instrs: seq<Instruction>)
    ensures Passes(Shipped(), instrs) <==> forall ins :: ins in instrs ==> ins.n == 0
  {
    InertRegions(Shipped(), instrs);
  }
}
