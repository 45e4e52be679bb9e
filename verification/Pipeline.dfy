/** Verify, then run: from the bytes of an image to everything the machine will ever do with it. */
module Pipeline {
  import opened Options
  import opened BitSpace
  import opened Geometry
  import opened MmioService
  import opened Machine
  import opened Round
  import opened Stepping
  import opened Bitcpy
  import opened Certificate
  import opened Image
  import L2 = ConflictCheck
  import L1 = MemoryCheck

  /** The run of a verified round asks only for the copies of that round, tick after tick. */
  lemma {:induction false} VerifiedRunIsFaithful(version: Version, g: Geometry, m: Memory, cfg: L1.Config,
                                                 instrs: seq<Instruction>, devs: seq<Reaction>)
    requires Space(g, m) && Decodes(g, m, instrs) && Quiet(g, m)
    requires L1.Passes(cfg, instrs) && cfg.spaceBits == g.spaceBits && Protects(cfg, 0, g.mmio.end)
    requires L2.StrictlyDisjoint(instrs) && SourcesFit(g, instrs)
    requires forall ins :: ins in instrs && ins.n > 0 ==> Faithful(version, ins.n, ins.src, ins.dst, true)
    ensures RunFaithful(version, g, m, devs)
    decreases |devs|
  {
    hide WellFormed, RunTick, RunSlots, Slots, Executed, Quiet, AllFit, IsSimultaneousCopy, Faithful, RunFaithful,
      Replay, AllFaithful;
    if |devs| == 0 {
      NoTicks(version, g, m, devs);
    } else {
      AreaBelowRegisters(g);
      PassSparesProcessor(g, m, cfg, instrs);
      VerifiedRound(g, m, cfg, instrs);
      QuietTick(g, m, devs[0]);
      var r := RunTick(g, m, devs[0]).mem;
      VerifiedStaysQuiet(g, m, cfg, instrs, r);
      SameSlots(g, m, r, instrs);
      RoundIsFaithful(version, g, m, instrs);
      VerifiedRunIsFaithful(version, g, r, cfg, instrs, devs[1..]);
      OneTick(version, g, m, devs);
    }
  }

  lemma {:induction false} NoTicks(version: Version, g: Geometry, m: Memory, devs: seq<Reaction>)
    requires Space(g, m) && |devs| == 0
    ensures RunFaithful(version, g, m, devs)
  {
  }

  lemma {:induction false} OneTick(version: Version, g: Geometry, m: Memory, devs: seq<Reaction>)
    requires Space(g, m) && |devs| > 0 && AllFaithful(version, RunTick(g, m, devs[0]).trace)
    requires RunFaithful(version, g, RunTick(g, m, devs[0]).mem, devs[1..])
    ensures RunFaithful(version, g, m, devs)
  {
    hide RunTick, AllFaithful;
  }

  lemma SameSlots(g: Geometry, m: Memory, r: Memory, instrs: seq<Instruction>)
    requires Space(g, m) && |r| == |m| && Decodes(g, m, instrs) && Slots(g, r) == Slots(g, m)
    ensures Space(g, r) && Decodes(g, r, instrs)
  {
    hide Slots;
  }

  lemma {:induction false} RoundIsFaithful(version: Version, g: Geometry, m: Memory, instrs: seq<Instruction>)
    requires Space(g, m) && Decodes(g, m, instrs)
    requires forall ins :: ins in instrs && ins.n > 0 ==> Faithful(version, ins.n, ins.src, ins.dst, true)
    ensures AllFaithful(version, Executed(g, Slots(g, m), 0))
  {
    hide Slots, Executed, Faithful;
    var copies := Executed(g, Slots(g, m), 0);
    ExecutedFromSlots(g, Slots(g, m), 0);
    forall k | 0 <= k < |copies| ensures Faithful(version, copies[k].n, copies[k].src, copies[k].dst, true) {
      assert copies[k] in Ops(instrs);
      var j :| 0 <= j < |instrs| && Ops(instrs)[j] == copies[k];
      assert instrs[j] in instrs;
    }
  }

  /** An image is read once and judged once.  If both checkers pass it with processor and registers
      protected, its sources fit, and it starts quiet, then the machine that holds it runs for any
      positive number of ticks, with any devices, without an error; processor and registers keep
      their bits; and the memory is, from the first tick on, the simultaneous copy of the image. */
  lemma {:induction false} VerifiedImageRuns(g: Geometry, data: seq<Byte>, m: Memory, cfg: L1.Config,
                                             instrs: seq<Instruction>, devs: seq<Reaction>)
    requires WellFormed(g) && |data| >= g.spaceBytes && |devs| >= 1
    requires m == Bits(data)[..g.spaceBits] && Read(ConfigOf(g), data) == Some(instrs) && Quiet(g, m)
    requires L1.Passes(cfg, instrs) && cfg.spaceBits == g.spaceBits && Protects(cfg, 0, g.mmio.end)
    requires L2.StrictlyDisjoint(instrs) && SourcesFit(g, instrs)
    ensures var r := Run(g, m, devs).1;
            && Run(g, m, devs).0 == VmOk && r == RunTick(g, m, devs[0]).mem
            && AllFit(g, Slots(g, m)) && IsSimultaneousCopy(g, m, Slots(g, m), r)
            && forall p :: 0 <= p < g.mmio.end ==> r[p] == m[p]
  {
    hide *;
    ReaderAgreesWithMachine(g, data);
    VerifyOnceRunForever(g, m, cfg, instrs, devs);
  }
}
