/** L2, the strict non-overlap checker of src/conflict_check.py: a sorted list of intervals is
    scanned by looking at neighbours only.  The verdict nevertheless decides a statement about
    every bit. */
module ConflictCheck {
  import opened Numbers

  /** A decoded instruction; its fields are unsigned numbers. */
  datatype Instruction = Instruction(slot: nat, n: nat, dst: nat, src: nat)

  datatype Origin = Src | Dst

  datatype Interval = Interval(start: nat, end: nat, slot: nat, origin: Origin)

  datatype Kind = SelfSrcDst | SrcSrc | DstDst | SrcDst | DstSrc

  datatype Conflict = Conflict(tick: nat, slotA: nat, slotB: nat, begin: nat, end: nat, kind: Kind)

  datatype Status = Pass | Fail

  datatype ConflictCheckResult =
    ConflictCheckResult(status: Status, conflicts: seq<Conflict>, layersChecked: nat, totalNonNop: nat)

  // ------------------------------------------------------------------ what is collected

  function IntervalsOf(ins: Instruction): seq<Interval> {
    if ins.n == 0 then []
    else [Interval(ins.src, ins.src + ins.n, ins.slot, Src), Interval(ins.dst, ins.dst + ins.n, ins.slot, Dst)]
  }

  function Intervals(instrs: seq<Instruction>): seq<Interval> {
    if |instrs| == 0 then []
    else Intervals(instrs[..|instrs| - 1]) + IntervalsOf(instrs[|instrs| - 1])
  }

  function SelfConflictsOf(ins: Instruction, tick: nat): seq<Conflict> {
    if ins.n == 0 || ins.src + ins.n <= ins.dst || ins.dst + ins.n <= ins.src then []
    else [Conflict(tick, ins.slot, ins.slot, Max(ins.src, ins.dst), Min(ins.src + ins.n, ins.dst + ins.n), SelfSrcDst)]
  }

  function SelfConflicts(instrs: seq<Instruction>, tick: nat): seq<Conflict> {
    if |instrs| == 0 then []
    else SelfConflicts(instrs[..|instrs| - 1], tick) + SelfConflictsOf(instrs[|instrs| - 1], tick)
  }

  // ------------------------------------------------------------------ sorting

  /** The order of the sort key (start, end). */
  predicate KeyLeq(a: Interval, b: Interval) {
    a.start < b.start || (a.start == b.start && a.end <= b.end)
  }

  predicate Sorted(xs: seq<Interval>) {
    forall i, j :: 0 <= i < j < |xs| ==> KeyLeq(xs[i], xs[j])
  }

  /** x goes behind everything whose key is not greater. */
  function Insert(x: Interval, xs: seq<Interval>): seq<Interval> {
    if |xs| == 0 || KeyLeq(xs[|xs| - 1], x) then xs + [x]
    else Insert(x, xs[..|xs| - 1]) + [xs[|xs| - 1]]
  }

  /** Stands for list.sort: the stable sort by (start, end). */
  function StableSort(xs: seq<Interval>): seq<Interval> {
    if |xs| == 0 then [] else Insert(xs[|xs| - 1], StableSort(xs[..|xs| - 1]))
  }

  /** The elements with a given key, in order. */
  function WithKey(xs: seq<Interval>, start: nat, end: nat): seq<Interval> {
    if |xs| == 0 then []
    else
      var x := xs[|xs| - 1];
      WithKey(xs[..|xs| - 1], start, end) + if x.start == start && x.end == end then [x] else []
  }

  lemma {:induction false} InsertSorts(x: Interval, xs: seq<Interval>)
    requires Sorted(xs)
    ensures Sorted(Insert(x, xs)) && multiset(Insert(x, xs)) == multiset(xs) + multiset{x}
  {
    if |xs| > 0 && !KeyLeq(xs[|xs| - 1], x) {
      var front, last := xs[..|xs| - 1], xs[|xs| - 1];
      assert xs == front + [last];
      InsertSorts(x, front);
      forall i | 0 <= i < |Insert(x, front)| ensures KeyLeq(Insert(x, front)[i], last) {
        assert Insert(x, front)[i] in multiset(Insert(x, front));
        assert Insert(x, front)[i] == x || Insert(x, front)[i] in front;
      }
    }
  }

  lemma {:induction false} InsertIsStable(x: Interval, xs: seq<Interval>, start: nat, end: nat)
    requires Sorted(xs)
    ensures WithKey(Insert(x, xs), start, end)
         == WithKey(xs, start, end) + if x.start == start && x.end == end then [x] else []
  {
    if |xs| > 0 && !KeyLeq(xs[|xs| - 1], x) {
      var front, last := xs[..|xs| - 1], xs[|xs| - 1];
      InsertIsStable(x, front, start, end);
      assert Insert(x, xs)[..|Insert(x, xs)| - 1] == Insert(x, front);
    } else {
      assert Insert(x, xs)[..|Insert(x, xs)| - 1] == xs;
    }
  }

  /** Sorted, the same elements, and equal keys in their original order. */
  lemma {:induction false} SortIsStable(xs: seq<Interval>)
    ensures Sorted(StableSort(xs)) && multiset(StableSort(xs)) == multiset(xs)
    ensures forall start: nat, end: nat :: WithKey(StableSort(xs), start, end) == WithKey(xs, start, end)
  {
    if |xs| > 0 {
      var front, last := xs[..|xs| - 1], xs[|xs| - 1];
      assert xs == front + [last];
      SortIsStable(front);
      InsertSorts(last, StableSort(front));
      forall start: nat, end: nat ensures WithKey(StableSort(xs), start, end) == WithKey(xs, start, end) {
        InsertIsStable(last, StableSort(front), start, end);
      }
    }
  }

  /** That is all list.sort promises, and no other list meets it. */
  lemma {:induction false} SortIsUnique(xs: seq<Interval>, ys: seq<Interval>)
    requires Sorted(xs) && Sorted(ys)
    requires forall start: nat, end: nat :: WithKey(xs, start, end) == WithKey(ys, start, end)
    ensures xs == ys
  {
    if |xs| > 0 { LastIsWithKey(xs); }
    if |ys| > 0 { LastIsWithKey(ys); }
    if |xs| > 0 && |ys| > 0 {
      var x, y := xs[|xs| - 1], ys[|ys| - 1];
      WithKeyIsPart(ys, x.start, x.end);
      WithKeyIsPart(xs, y.start, y.end);
      assert x.start == y.start && x.end == y.end;
      var xs', ys' := xs[..|xs| - 1], ys[..|ys| - 1];
      forall start: nat, end: nat ensures WithKey(xs', start, end) == WithKey(ys', start, end) {
        DropLastKey(xs, ys, start, end);
      }
      SortIsUnique(xs', ys');
    }
  }

  lemma {:induction false} DropLastKey(xs: seq<Interval>, ys: seq<Interval>, start: nat, end: nat)
    requires |xs| > 0 && |ys| > 0 && WithKey(xs, start, end) == WithKey(ys, start, end)
    requires xs[|xs| - 1].start == ys[|ys| - 1].start && xs[|xs| - 1].end == ys[|ys| - 1].end
    ensures WithKey(xs[..|xs| - 1], start, end) == WithKey(ys[..|ys| - 1], start, end)
  {
    var x := xs[|xs| - 1];
    var a, b := WithKey(xs[..|xs| - 1], start, end), WithKey(ys[..|ys| - 1], start, end);
    if x.start == start && x.end == end {
      assert WithKey(xs, start, end) == a + [x] && WithKey(ys, start, end) == b + [ys[|ys| - 1]];
      assert |a| == |b| && a == (a + [x])[..|a|] && b == (b + [ys[|ys| - 1]])[..|a|];
    } else {
      assert WithKey(xs, start, end) == a + [] == a && WithKey(ys, start, end) == b + [] == b;
    }
  }

  lemma {:induction false} LastIsWithKey(xs: seq<Interval>)
    requires |xs| > 0
    ensures var x := xs[|xs| - 1];
            |WithKey(xs, x.start, x.end)| > 0 && WithKey(xs, x.start, x.end)[|WithKey(xs, x.start, x.end)| - 1] == x
  {
  }

  lemma {:induction false} WithKeyIsPart(xs: seq<Interval>, start: nat, end: nat)
    ensures |WithKey(xs, start, end)| > 0 ==>
              exists i :: 0 <= i < |xs| && xs[i].start == start && xs[i].end == end
  {
    if |xs| > 0 {
      WithKeyIsPart(xs[..|xs| - 1], start, end);
      var x := xs[|xs| - 1];
      if x.start == start && x.end == end { assert xs[|xs| - 1] == x; }
    }
  }

  // ------------------------------------------------------------------ the scan

  function KindOf(prev: Interval, curr: Interval): Kind {
    if prev.slot == curr.slot then SelfSrcDst
    else if prev.origin == Src && curr.origin == Src then SrcSrc
    else if prev.origin == Dst && curr.origin == Dst then DstDst
    else if prev.origin == Src && curr.origin == Dst then SrcDst
    else DstSrc
  }

  function PairConflict(prev: Interval, curr: Interval, tick: nat): seq<Conflict> {
    if curr.start < prev.end then
      [Conflict(tick, prev.slot, curr.slot, curr.start, Min(curr.end, prev.end), KindOf(prev, curr))]
    else []
  }

  /** The conflicts between neighbours among the first k intervals. */
  function Scan(xs: seq<Interval>, tick: nat, k: nat): seq<Conflict>
    requires k <= |xs|
  {
    if k <= 1 then [] else Scan(xs, tick, k - 1) + PairConflict(xs[k - 2], xs[k - 1], tick)
  }

  function ScanConflicts(instrs: seq<Instruction>, tick: nat): seq<Conflict> {
    var xs := StableSort(Intervals(instrs));
    Scan(xs, tick, |xs|)
  }

  /** The list _check_tick returns. */
  function TickConflicts(instrs: seq<Instruction>, tick: nat): seq<Conflict> {
    SelfConflicts(instrs, tick) + ScanConflicts(instrs, tick)
  }

  // ------------------------------------------------------------------ what the verdict means

  predicate Covers(x: Interval, p: nat) {
    x.start <= p < x.end
  }

  /** How many intervals contain bit p. */
  function CoverCount(xs: seq<Interval>, p: nat): nat {
    if |xs| == 0 then 0
    else CoverCount(xs[..|xs| - 1], p) + if Covers(xs[|xs| - 1], p) then 1 else 0
  }

  /** The invariant of the README: no bit belongs to more than one interval of the round. */
  ghost predicate StrictlyDisjoint(instrs: seq<Instruction>) {
    forall p: nat :: CoverCount(Intervals(instrs), p) <= 1
  }

  lemma {:induction false} CoverAppend(xs: seq<Interval>, ys: seq<Interval>, p: nat)
    ensures CoverCount(xs + ys, p) == CoverCount(xs, p) + CoverCount(ys, p)
  {
    if |ys| == 0 {
      assert xs + ys == xs;
    } else {
      CoverAppend(xs, ys[..|ys| - 1], p);
      assert (xs + ys)[..|xs + ys| - 1] == xs + ys[..|ys| - 1];
    }
  }

  lemma {:induction false} SortKeepsCover(xs: seq<Interval>, p: nat)
    ensures CoverCount(StableSort(xs), p) == CoverCount(xs, p)
  {
    if |xs| > 0 {
      SortKeepsCover(xs[..|xs| - 1], p);
      InsertKeepsCover(xs[|xs| - 1], StableSort(xs[..|xs| - 1]), p);
    }
  }

  lemma {:induction false} InsertKeepsCover(x: Interval, xs: seq<Interval>, p: nat)
    ensures CoverCount(Insert(x, xs), p) == CoverCount(xs, p) + if Covers(x, p) then 1 else 0
  {
    if |xs| == 0 || KeyLeq(xs[|xs| - 1], x) {
      assert (xs + [x])[..|xs|] == xs;
    } else {
      var rest := Insert(x, xs[..|xs| - 1]);
      InsertKeepsCover(x, xs[..|xs| - 1], p);
      assert (rest + [xs[|xs| - 1]])[..|rest|] == rest;
    }
  }

  /** Two intervals over one bit count twice. */
  lemma {:induction false} TwoCover(xs: seq<Interval>, i: nat, j: nat, p: nat)
    requires i < j < |xs| && Covers(xs[i], p) && Covers(xs[j], p)
    ensures CoverCount(xs, p) >= 2
  {
    if j == |xs| - 1 { OneCovers(xs[..j], i, p); } else { TwoCover(xs[..|xs| - 1], i, j, p); }
  }

  lemma {:induction false} OneCovers(xs: seq<Interval>, i: nat, p: nat)
    requires i < |xs| && Covers(xs[i], p)
    ensures CoverCount(xs, p) >= 1
  {
    if i < |xs| - 1 { OneCovers(xs[..|xs| - 1], i, p); }
  }

  /** Where at most one of the intervals contains p, the count is at most 1. */
  lemma {:induction false} AtMostOne(xs: seq<Interval>, p: nat)
    requires forall i, j :: 0 <= i < j < |xs| ==> !(Covers(xs[i], p) && Covers(xs[j], p))
    ensures CoverCount(xs, p) <= 1
  {
    if |xs| > 0 {
      var front := xs[..|xs| - 1];
      if Covers(xs[|xs| - 1], p) { NoneCovers(front, p); } else { AtMostOne(front, p); }
    }
  }

  lemma {:induction false} NoneCovers(xs: seq<Interval>, p: nat)
    requires forall i :: 0 <= i < |xs| ==> !Covers(xs[i], p)
    ensures CoverCount(xs, p) == 0
  {
    if |xs| > 0 { NoneCovers(xs[..|xs| - 1], p); }
  }

  predicate NonEmpty(xs: seq<Interval>) {
    forall i :: 0 <= i < |xs| ==> xs[i].start < xs[i].end
  }

  lemma {:induction false} IntervalsNonEmpty(instrs: seq<Instruction>)
    ensures NonEmpty(Intervals(instrs))
  {
    if |instrs| > 0 { IntervalsNonEmpty(instrs[..|instrs| - 1]); }
  }

  lemma {:induction false} SortKeepsElements(xs: seq<Interval>)
    ensures forall x :: x in StableSort(xs) <==> x in xs
  {
    hide StableSort;
    SortIsStable(xs);
    forall x ensures x in StableSort(xs) <==> x in xs {
      assert x in StableSort(xs) <==> x in multiset(StableSort(xs));
      assert x in xs <==> x in multiset(xs);
    }
  }

  /** The list the scan walks over. */
  lemma {:induction false} ScanInput(instrs: seq<Instruction>)
    ensures var xs := StableSort(Intervals(instrs));
            && Sorted(xs) && NonEmpty(xs)
            && forall p: nat :: CoverCount(xs, p) == CoverCount(Intervals(instrs), p)
  {
    hide StableSort, Intervals;
    var xs := Intervals(instrs);
    SortIsStable(xs);
    SortKeepsElements(xs);
    IntervalsNonEmpty(instrs);
    forall i | 0 <= i < |StableSort(xs)| ensures StableSort(xs)[i].start < StableSort(xs)[i].end {
      assert StableSort(xs)[i] in xs;
    }
    forall p: nat ensures CoverCount(StableSort(xs), p) == CoverCount(xs, p) { SortKeepsCover(xs, p); }
  }

  /** No conflict among the first k: each starts where an earlier one has already ended. */
  lemma {:induction false} QuietPrefix(xs: seq<Interval>, tick: nat, k: nat)
    requires Sorted(xs) && NonEmpty(xs) && k <= |xs| && Scan(xs, tick, k) == []
    ensures forall i, j :: 0 <= i < j < k ==> xs[i].end <= xs[j].start
  {
    if k > 1 {
      QuietPrefix(xs, tick, k - 1);
      assert xs[k - 2].end <= xs[k - 1].start;
    }
  }

  /** Below the start of interval k, a quiet prefix leaves no bit in two intervals. */
  lemma {:induction false} QuietBelow(xs: seq<Interval>, tick: nat, k: nat, q: nat)
    requires Sorted(xs) && NonEmpty(xs) && k < |xs| && Scan(xs, tick, k) == [] && q < xs[k].start
    ensures CoverCount(xs, q) <= 1
  {
    QuietPrefix(xs, tick, k);
    forall i, j | 0 <= i < j < |xs| ensures !(Covers(xs[i], q) && Covers(xs[j], q)) {
      if j > k { assert KeyLeq(xs[k], xs[j]); }
    }
    AtMostOne(xs, q);
  }

  /** The first conflict of the scan begins at the least bit two intervals share. */
  lemma {:induction false} FirstOfScan(xs: seq<Interval>, tick: nat, k: nat)
    requires Sorted(xs) && NonEmpty(xs) && k <= |xs| && Scan(xs, tick, k) != []
    ensures var b := Scan(xs, tick, k)[0].begin;
            && CoverCount(xs, b) >= 2
            && (forall q: nat :: q < b ==> CoverCount(xs, q) <= 1)
            && (forall c :: c in Scan(xs, tick, k) ==> b <= c.begin <= xs[k - 1].start)
  {
    hide CoverCount, NonEmpty;
    var before, last := Scan(xs, tick, k - 1), PairConflict(xs[k - 2], xs[k - 1], tick);
    assert Scan(xs, tick, k) == before + last && KeyLeq(xs[k - 2], xs[k - 1]);
    if before != [] {
      FirstOfScan(xs, tick, k - 1);
      assert (before + last)[0] == before[0] && before[0] in before;
      forall c | c in before + last ensures before[0].begin <= c.begin <= xs[k - 1].start {
        assert c in before || c in last;
      }
    } else {
      FirstMeeting(xs, tick, k);
    }
  }

  /** Behind a quiet prefix the first pair that meets does so at the least bit covered twice. */
  lemma {:induction false} FirstMeeting(xs: seq<Interval>, tick: nat, k: nat)
    requires Sorted(xs) && NonEmpty(xs) && 2 <= k <= |xs|
    requires Scan(xs, tick, k - 1) == [] && PairConflict(xs[k - 2], xs[k - 1], tick) != []
    ensures var b := xs[k - 1].start;
            CoverCount(xs, b) >= 2 && forall q: nat :: q < b ==> CoverCount(xs, q) <= 1
  {
    hide CoverCount, NonEmpty, Scan;
    var b := xs[k - 1].start;
    assert KeyLeq(xs[k - 2], xs[k - 1]);
    NonEmptyAt(xs, k - 1);
    TwoCover(xs, k - 2, k - 1, b);
    forall q: nat | q < b ensures CoverCount(xs, q) <= 1 { QuietBelow(xs, tick, k - 1, q); }
  }

  lemma NonEmptyAt(xs: seq<Interval>, i: nat)
    requires NonEmpty(xs) && i < |xs|
    ensures xs[i].start < xs[i].end
  {
  }

  /** What a self-conflict reports is covered twice. */
  lemma {:induction false} SelfCoversTwice(instrs: seq<Instruction>, tick: nat, c: Conflict)
    requires c in SelfConflicts(instrs, tick)
    ensures CoverCount(Intervals(instrs), c.begin) >= 2
  {
    var front, last := instrs[..|instrs| - 1], instrs[|instrs| - 1];
    CoverAppend(Intervals(front), IntervalsOf(last), c.begin);
    if c in SelfConflicts(front, tick) {
      SelfCoversTwice(front, tick, c);
    } else {
      TwoCover(IntervalsOf(last), 0, 1, c.begin);
    }
  }

  /** The decision is exact: the list is empty if and only if no bit belongs to two intervals. */
  lemma VerdictIsExact(instrs: seq<Instruction>, tick: nat)
    ensures TickConflicts(instrs, tick) == [] <==> StrictlyDisjoint(instrs)
  {
    var xs := StableSort(Intervals(instrs));
    ScanInput(instrs);
    if ScanConflicts(instrs, tick) != [] {
      FirstOfScan(xs, tick, |xs|);
    } else {
      QuietPrefix(xs, tick, |xs|);
      forall p: nat ensures CoverCount(xs, p) <= 1 { AtMostOne(xs, p); }
    }
    if SelfConflicts(instrs, tick) != [] {
      SelfCoversTwice(instrs, tick, SelfConflicts(instrs, tick)[0]);
    }
  }

  /** The scan's first conflict begins at the least bit that two intervals of the round share, and
      no conflict of the whole list begins earlier. */
  lemma {:induction false} FirstConflictIsLeast(instrs: seq<Instruction>, tick: nat)
    requires TickConflicts(instrs, tick) != []
    ensures ScanConflicts(instrs, tick) != []
    ensures var b := ScanConflicts(instrs, tick)[0].begin;
            && CoverCount(Intervals(instrs), b) >= 2
            && (forall q: nat :: q < b ==> CoverCount(Intervals(instrs), q) <= 1)
            && (forall c :: c in TickConflicts(instrs, tick) ==> b <= c.begin)
  {
    VerdictIsExact(instrs, tick);
    var xs := StableSort(Intervals(instrs));
    ScanInput(instrs);
    if ScanConflicts(instrs, tick) == [] {
      QuietPrefix(xs, tick, |xs|);
      forall p: nat ensures CoverCount(xs, p) <= 1 { AtMostOne(xs, p); }
      assert false;
    }
    FirstOfScan(xs, tick, |xs|);
    forall c | c in SelfConflicts(instrs, tick) ensures ScanConflicts(instrs, tick)[0].begin <= c.begin {
      SelfCoversTwice(instrs, tick, c);
    }
  }

  // ------------------------------------------------------------------ order of the instructions

  lemma {:induction false} IntervalsAppend(a: seq<Instruction>, b: seq<Instruction>)
    ensures Intervals(a + b) == Intervals(a) + Intervals(b)
  {
    if |b| == 0 {
      assert a + b == a;
    } else {
      var front, last := b[..|b| - 1], b[|b| - 1];
      IntervalsAppend(a, front);
      assert (a + b)[..|a + b| - 1] == a + front && (a + b)[|a + b| - 1] == last;
      Reassociate(Intervals(a), Intervals(front), IntervalsOf(last));
    }
  }

  lemma Reassociate(a: seq<Interval>, b: seq<Interval>, c: seq<Interval>)
    ensures (a + b) + c == a + (b + c)
  {
  }

  lemma {:induction false} CoverPermutes(a: seq<Instruction>, b: seq<Instruction>, p: nat)
    requires multiset(a) == multiset(b)
    ensures CoverCount(Intervals(a), p) == CoverCount(Intervals(b), p)
  {
    if |a| == 0 {
      assert |multiset(b)| == 0;
    } else {
      var front, x := a[..|a| - 1], a[|a| - 1];
      var u, v := WithoutOne(a, b);
      CoverPermutes(front, u + v, p);
      CoverOfParts(u, x, v, p);
      CoverAppend(Intervals(front), IntervalsOf(x), p);
    }
  }

  /** b, cut where the last element of its permutation a stands. */
  lemma WithoutOne(a: seq<Instruction>, b: seq<Instruction>) returns (u: seq<Instruction>, v: seq<Instruction>)
    requires |a| > 0 && multiset(a) == multiset(b)
    ensures b == u + [a[|a| - 1]] + v && multiset(a[..|a| - 1]) == multiset(u + v)
  {
    var n, x := |a| - 1, a[|a| - 1];
    assert x in multiset(b);
    var k :| 0 <= k < |b| && b[k] == x;
    u, v := b[..k], b[k + 1..];
    CutOne(a, n);
    CutOne(b, k);
    assert a[..n] + a[n + 1..] == a[..n];
    assert b == u + [x] + v;
  }

  lemma CutOne<T>(s: seq<T>, k: nat)
    requires k < |s|
    ensures multiset(s[..k] + s[k + 1..]) == multiset(s) - multiset{s[k]}
  {
    assert s == s[..k] + [s[k]] + s[k + 1..];
  }

  lemma {:induction false} CoverOfParts(u: seq<Instruction>, x: Instruction, v: seq<Instruction>, p: nat)
    ensures CoverCount(Intervals(u + [x] + v), p) == CoverCount(Intervals(u + v), p) + CoverCount(IntervalsOf(x), p)
  {
    IntervalsAppend(u + [x], v);
    IntervalsAppend(u, [x]);
    IntervalsAppend(u, v);
    assert Intervals([x]) == IntervalsOf(x);
    CoverAppend(Intervals(u) + IntervalsOf(x), Intervals(v), p);
    CoverAppend(Intervals(u), IntervalsOf(x), p);
    CoverAppend(Intervals(u), Intervals(v), p);
  }

  /** The verdict does not depend on the order of the instructions. */
  lemma VerdictIgnoresOrder(a: seq<Instruction>, b: seq<Instruction>, tick: nat)
    requires multiset(a) == multiset(b)
    ensures TickConflicts(a, tick) == [] <==> TickConflicts(b, tick) == []
  {
    forall p: nat ensures CoverCount(Intervals(a), p) == CoverCount(Intervals(b), p) { CoverPermutes(a, b, p); }
    VerdictIsExact(a, tick);
    VerdictIsExact(b, tick);
  }

  // ------------------------------------------------------------------ reports are genuine

  predicate DistinctSlots(instrs: seq<Instruction>) {
    forall i, j :: 0 <= i < j < |instrs| ==> instrs[i].slot != instrs[j].slot
  }

  predicate KindMatches(kind: Kind, a: Interval, b: Interval) {
    match kind
    case SelfSrcDst => a.slot == b.slot && a.origin != b.origin
    case SrcSrc => a.slot != b.slot && a.origin == Src && b.origin == Src
    case DstDst => a.slot != b.slot && a.origin == Dst && b.origin == Dst
    case SrcDst => a.slot != b.slot && a.origin == Src && b.origin == Dst
    case DstSrc => a.slot != b.slot && a.origin == Dst && b.origin == Src
  }

  /** c names two intervals of the round, of the slots and origins it says, and its range is
      their non-empty intersection. */
  predicate Witnesses(c: Conflict, a: Interval, b: Interval) {
    && a.slot == c.slotA && b.slot == c.slotB && KindMatches(c.kind, a, b)
    && c.begin == Max(a.start, b.start) && c.end == Min(a.end, b.end) && c.begin < c.end
  }

  ghost predicate Genuine(instrs: seq<Instruction>, c: Conflict) {
    exists x, y, a, b :: x in instrs && y in instrs && a in IntervalsOf(x) && b in IntervalsOf(y) && Witnesses(c, a, b)
  }

  lemma {:induction false} IntervalHasOwner(instrs: seq<Instruction>, a: Interval) returns (i: nat)
    requires a in Intervals(instrs)
    ensures i < |instrs| && a in IntervalsOf(instrs[i]) && a.slot == instrs[i].slot
  {
    if a in Intervals(instrs[..|instrs| - 1]) {
      i := IntervalHasOwner(instrs[..|instrs| - 1], a);
    } else {
      i := |instrs| - 1;
    }
  }

  /** With distinct slot numbers no interval occurs twice. */
  lemma {:induction false} IntervalsOnce(instrs: seq<Instruction>, a: Interval)
    requires DistinctSlots(instrs)
    ensures multiset(Intervals(instrs))[a] <= 1
  {
    if |instrs| > 0 {
      var front, last := instrs[..|instrs| - 1], instrs[|instrs| - 1];
      IntervalsOnce(front, a);
      if a in Intervals(front) {
        var i := IntervalHasOwner(front, a);
        assert front[i] == instrs[i];
      }
    }
  }

  lemma NeighboursDiffer(xs: seq<Interval>, i: nat)
    requires i + 1 < |xs| && multiset(xs)[xs[i]] <= 1
    ensures xs[i] != xs[i + 1]
  {
    assert xs == xs[..i] + [xs[i], xs[i + 1]] + xs[i + 2..];
  }

  lemma {:induction false} ScanIsGenuine(instrs: seq<Instruction>, tick: nat, k: nat, c: Conflict)
    requires DistinctSlots(instrs)
    requires k <= |StableSort(Intervals(instrs))| && c in Scan(StableSort(Intervals(instrs)), tick, k)
    ensures Genuine(instrs, c) && c.tick == tick
  {
    hide StableSort, Intervals, Genuine, DistinctSlots;
    var xs := StableSort(Intervals(instrs));
    if c in Scan(xs, tick, k - 1) {
      ScanIsGenuine(instrs, tick, k - 1, c);
    } else {
      var a, b := xs[k - 2], xs[k - 1];
      ScanInput(instrs);
      SortIsStable(Intervals(instrs));
      SortKeepsElements(Intervals(instrs));
      IntervalsOnce(instrs, a);
      NeighboursDiffer(xs, k - 2);
      PairIsGenuine(instrs, tick, a, b, c);
    }
  }

  lemma {:induction false} PairIsGenuine(instrs: seq<Instruction>, tick: nat, a: Interval, b: Interval, c: Conflict)
    requires DistinctSlots(instrs) && a in Intervals(instrs) && b in Intervals(instrs) && a != b
    requires KeyLeq(a, b) && b.start < b.end && c in PairConflict(a, b, tick)
    ensures Genuine(instrs, c) && c.tick == tick
  {
    var i := IntervalHasOwner(instrs, a);
    var j := IntervalHasOwner(instrs, b);
    assert a.slot == b.slot ==> i == j;
    assert Witnesses(c, a, b);
  }

  lemma {:induction false} SelfIsGenuine(instrs: seq<Instruction>, tick: nat, c: Conflict)
    requires c in SelfConflicts(instrs, tick)
    ensures Genuine(instrs, c) && c.tick == tick
  {
    var front, last := instrs[..|instrs| - 1], instrs[|instrs| - 1];
    if c in SelfConflicts(front, tick) {
      SelfIsGenuine(front, tick, c);
    } else {
      assert last in instrs && Witnesses(c, IntervalsOf(last)[0], IntervalsOf(last)[1]);
    }
  }

  /** Every reported conflict is genuine. */
  lemma ReportsAreGenuine(instrs: seq<Instruction>, tick: nat)
    requires DistinctSlots(instrs)
    ensures forall c :: c in TickConflicts(instrs, tick) ==> Reported(instrs, c) && c.tick == tick
  {
    hide Genuine, Reported, TickConflicts, DistinctSlots;
    forall c | c in TickConflicts(instrs, tick) ensures Reported(instrs, c) && c.tick == tick {
      ListedIsGenuine(instrs, tick, c);
      GenuineIsNamed(instrs, c);
    }
  }

  lemma ListedIsGenuine(instrs: seq<Instruction>, tick: nat, c: Conflict)
    requires DistinctSlots(instrs) && c in TickConflicts(instrs, tick)
    ensures Genuine(instrs, c) && c.tick == tick
  {
    hide Genuine, DistinctSlots;
    if c in SelfConflicts(instrs, tick) {
      SelfIsGenuine(instrs, tick, c);
    } else {
      ScanIsGenuine(instrs, tick, |StableSort(Intervals(instrs))|, c);
    }
  }

  // ------------------------------------------------------------------ said of the fields alone

  /** Bit p lies in the source or in the destination range of ins. */
  predicate InRange(ins: Instruction, side: Origin, p: int) {
    match side
    case Src => ins.src <= p < ins.src + ins.n
    case Dst => ins.dst <= p < ins.dst + ins.n
  }

  /** No bit lies in two different ranges of the round. */
  ghost predicate PairwiseDisjoint(instrs: seq<Instruction>) {
    forall i, a, j, b, p: nat | 0 <= i < |instrs| && 0 <= j < |instrs| && (i != j || a != b) ::
      !(InRange(instrs[i], a, p) && InRange(instrs[j], b, p))
  }

  function SideCount(ins: Instruction, p: nat): nat {
    (if InRange(ins, Src, p) then 1 else 0) + (if InRange(ins, Dst, p) then 1 else 0)
  }

  lemma {:induction false} CoverOfIntervals(ins: Instruction, p: nat)
    ensures CoverCount(IntervalsOf(ins), p) == SideCount(ins, p)
  {
    if ins.n > 0 {
      var xs := IntervalsOf(ins);
      assert xs[..1] == [xs[0]];
      assert CoverCount(xs[..1], p) == if InRange(ins, Src, p) then 1 else 0;
    }
  }

  lemma {:induction false} CoverOneMore(instrs: seq<Instruction>, p: nat)
    requires |instrs| > 0
    ensures CoverCount(Intervals(instrs), p)
         == CoverCount(Intervals(instrs[..|instrs| - 1]), p) + SideCount(instrs[|instrs| - 1], p)
  {
    var front, last := instrs[..|instrs| - 1], instrs[|instrs| - 1];
    CoverAppend(Intervals(front), IntervalsOf(last), p);
    CoverOfIntervals(last, p);
  }

  lemma {:induction false} SideCounts(instrs: seq<Instruction>, i: nat, p: nat)
    requires i < |instrs|
    ensures CoverCount(Intervals(instrs), p) >= SideCount(instrs[i], p)
  {
    CoverOneMore(instrs, p);
    if i < |instrs| - 1 { SideCounts(instrs[..|instrs| - 1], i, p); }
  }

  lemma {:induction false} TwoSides(instrs: seq<Instruction>, i: nat, j: nat, p: nat)
    requires i < j < |instrs|
    ensures CoverCount(Intervals(instrs), p) >= SideCount(instrs[i], p) + SideCount(instrs[j], p)
  {
    CoverOneMore(instrs, p);
    if j < |instrs| - 1 { TwoSides(instrs[..|instrs| - 1], i, j, p); } else { SideCounts(instrs[..j], i, p); }
  }

  lemma {:induction false} CoveredBySome(instrs: seq<Instruction>, p: nat) returns (i: nat)
    requires CoverCount(Intervals(instrs), p) >= 1
    ensures i < |instrs| && SideCount(instrs[i], p) >= 1
  {
    CoverOneMore(instrs, p);
    i := |instrs| - 1;
    if SideCount(instrs[i], p) == 0 { i := CoveredBySome(instrs[..i], p); }
  }

  lemma {:induction false} PairwiseCount(instrs: seq<Instruction>, p: nat)
    requires PairwiseDisjoint(instrs)
    ensures CoverCount(Intervals(instrs), p) <= 1
  {
    hide PairwiseDisjoint, Intervals, CoverCount, InRange;
    if |instrs| > 0 {
      var k, front := |instrs| - 1, instrs[..|instrs| - 1];
      CoverOneMore(instrs, p);
      PairwiseFront(instrs);
      PairwiseCount(front, p);
      OneSide(instrs, k, p);
      if CoverCount(Intervals(front), p) == 1 {
        var i := CoveredBySome(front, p);
        OneOfTwo(instrs, i, k, p);
      }
    } else {
      NothingCovered(p);
    }
  }

  lemma {:induction false} NothingCovered(p: nat)
    ensures CoverCount(Intervals([]), p) == 0
  {
  }

  lemma PairwiseFront(instrs: seq<Instruction>)
    requires |instrs| > 0 && PairwiseDisjoint(instrs)
    ensures PairwiseDisjoint(instrs[..|instrs| - 1])
  {
    hide InRange;
  }

  lemma OneSide(instrs: seq<Instruction>, k: nat, p: nat)
    requires k < |instrs| && PairwiseDisjoint(instrs)
    ensures SideCount(instrs[k], p) <= 1
  {
    hide InRange;
    assert !(InRange(instrs[k], Src, p) && InRange(instrs[k], Dst, p));
  }

  lemma OneOfTwo(instrs: seq<Instruction>, i: nat, k: nat, p: nat)
    requires i < k < |instrs| && PairwiseDisjoint(instrs)
    ensures SideCount(instrs[i], p) == 0 || SideCount(instrs[k], p) == 0
  {
    hide InRange;
    assert forall a, b :: !(InRange(instrs[i], a, p) && InRange(instrs[k], b, p));
  }

  /** The two ways to say it are one. */
  lemma {:induction false} DisjointIsPairwise(instrs: seq<Instruction>)
    ensures StrictlyDisjoint(instrs) <==> PairwiseDisjoint(instrs)
  {
    hide Intervals, CoverCount, InRange;
    if PairwiseDisjoint(instrs) {
      forall p: nat ensures CoverCount(Intervals(instrs), p) <= 1 { PairwiseCount(instrs, p); }
    }
    if StrictlyDisjoint(instrs) {
      forall i, a, j, b, p: nat | 0 <= i < |instrs| && 0 <= j < |instrs| && (i != j || a != b)
        ensures !(InRange(instrs[i], a, p) && InRange(instrs[j], b, p))
      {
        assert CoverCount(Intervals(instrs), p) <= 1;
        SideCounts(instrs, i, p);
        if i < j { TwoSides(instrs, i, j, p); }
        if j < i { TwoSides(instrs, j, i, p); }
      }
    }
  }

  /** What the kind of a report says of the two ranges. */
  predicate KindSays(kind: Kind, own: bool, a: Origin, b: Origin) {
    match kind
    case SelfSrcDst => own && a != b
    case SrcSrc => !own && a == Src && b == Src
    case DstDst => !own && a == Dst && b == Dst
    case SrcDst => !own && a == Src && b == Dst
    case DstSrc => !own && a == Dst && b == Src
  }

  /** c reports side a of instruction i and side b of instruction j: their slots, what they are, and
      exactly the bits they share, of which there are some. */
  ghost predicate Names(instrs: seq<Instruction>, c: Conflict, i: nat, a: Origin, j: nat, b: Origin)
    requires i < |instrs| && j < |instrs|
  {
    && (i != j || a != b)
    && c.slotA == instrs[i].slot && c.slotB == instrs[j].slot && KindSays(c.kind, i == j, a, b)
    && c.begin < c.end
    && forall p: nat :: c.begin <= p < c.end <==> InRange(instrs[i], a, p) && InRange(instrs[j], b, p)
  }

  ghost predicate Reported(instrs: seq<Instruction>, c: Conflict) {
    exists i, a, j, b :: 0 <= i < |instrs| && 0 <= j < |instrs| && Names(instrs, c, i, a, j, b)
  }

  lemma {:induction false} GenuineIsNamed(instrs: seq<Instruction>, c: Conflict)
    requires DistinctSlots(instrs) && Genuine(instrs, c)
    ensures Reported(instrs, c)
  {
    hide Witnesses, IntervalsOf, Names;
    var x, y, a, b :| x in instrs && y in instrs && a in IntervalsOf(x) && b in IntervalsOf(y) && Witnesses(c, a, b);
    var i :| 0 <= i < |instrs| && instrs[i] == x;
    var j :| 0 <= j < |instrs| && instrs[j] == y;
    WitnessIsNamed(instrs, c, i, a, j, b);
  }

  lemma WitnessIsNamed(instrs: seq<Instruction>, c: Conflict, i: nat, a: Interval, j: nat, b: Interval)
    requires DistinctSlots(instrs) && i < |instrs| && j < |instrs| && Witnesses(c, a, b)
    requires a in IntervalsOf(instrs[i]) && b in IntervalsOf(instrs[j])
    ensures Names(instrs, c, i, a.origin, j, b.origin)
  {
    hide IntervalsOf, DistinctSlots;
    SlotsTell(instrs, i, j);
    IntervalIsRange(instrs[i], a);
    IntervalIsRange(instrs[j], b);
  }

  lemma SlotsTell(instrs: seq<Instruction>, i: nat, j: nat)
    requires DistinctSlots(instrs) && i < |instrs| && j < |instrs|
    ensures instrs[i].slot == instrs[j].slot <==> i == j
  {
  }

  lemma IntervalIsRange(ins: Instruction, a: Interval)
    requires a in IntervalsOf(ins)
    ensures a.slot == ins.slot && forall p :: a.start <= p < a.end <==> InRange(ins, a.origin, p)
  {
  }

  // ------------------------------------------------------------------ reports are complete

  /** Source and destination of ins share a bit. */
  predicate MeetsItself(ins: Instruction) {
    ins.n > 0 && ins.src < ins.dst + ins.n && ins.dst < ins.src + ins.n
  }

  /** c reports the bits both ranges of ins contain. */
  ghost predicate SaysItself(c: Conflict, ins: Instruction, tick: nat) {
    && c.tick == tick && c.slotA == c.slotB == ins.slot && c.kind == SelfSrcDst && c.begin < c.end
    && forall p: nat :: c.begin <= p < c.end <==> InRange(ins, Src, p) && InRange(ins, Dst, p)
  }

  ghost predicate Increasing(idx: seq<nat>) {
    forall r, r' :: 0 <= r < r' < |idx| ==> idx[r] < idx[r']
  }

  /** cs are the reports of the instructions before k that meet themselves, one each, in order. */
  ghost predicate SelfReports(instrs: seq<Instruction>, k: nat, tick: nat, cs: seq<Conflict>, idx: seq<nat>)
    requires k <= |instrs|
  {
    && |idx| == |cs| && Increasing(idx)
    && (forall r :: 0 <= r < |idx| ==>
          idx[r] < k && MeetsItself(instrs[idx[r]]) && SaysItself(cs[r], instrs[idx[r]], tick))
    && forall i: nat :: i < k && MeetsItself(instrs[i]) ==> i in idx
  }

  /** Interval i of the sorted list starts before its predecessor has ended. */
  predicate MeetsPrevious(xs: seq<Interval>, i: nat)
    requires 1 <= i < |xs|
  {
    xs[i].start < xs[i - 1].end
  }

  /** c reports the bits two neighbours share, and who they are. */
  ghost predicate SaysNeighbours(c: Conflict, prev: Interval, curr: Interval, tick: nat) {
    && c.tick == tick && c.slotA == prev.slot && c.slotB == curr.slot
    && c.begin == curr.start && c.end <= curr.end && c.end <= prev.end && (c.end == curr.end || c.end == prev.end)
    && match c.kind
       case SelfSrcDst => prev.slot == curr.slot
       case SrcSrc => prev.slot != curr.slot && prev.origin == Src && curr.origin == Src
       case DstDst => prev.slot != curr.slot && prev.origin == Dst && curr.origin == Dst
       case SrcDst => prev.slot != curr.slot && prev.origin == Src && curr.origin == Dst
       case DstSrc => prev.slot != curr.slot && prev.origin == Dst && curr.origin == Src
  }

  /** cs are the reports of the intervals before k that meet their predecessors, one each, in order. */
  ghost predicate NeighbourReports(xs: seq<Interval>, k: nat, tick: nat, cs: seq<Conflict>, idx: seq<nat>)
    requires k <= |xs|
  {
    && |idx| == |cs| && Increasing(idx)
    && (forall r :: 0 <= r < |idx| ==>
          1 <= idx[r] < k && MeetsPrevious(xs, idx[r]) && SaysNeighbours(cs[r], xs[idx[r] - 1], xs[idx[r]], tick))
    && forall i: nat :: 1 <= i < k && MeetsPrevious(xs, i) ==> i in idx
  }

  /** A sorted list of the two ranges of every non-NOP, stable among equal keys. */
  ghost predicate IsScanOrder(instrs: seq<Instruction>, xs: seq<Interval>) {
    && Sorted(xs)
    && forall start: nat, end: nat :: WithKey(xs, start, end) == WithKey(Intervals(instrs), start, end)
  }

  /** The conflicts are: a report for every instruction that meets itself, in order, then one for every
      neighbouring pair of the sorted intervals that meets, in order, and nothing else. */
  ghost predicate Complete(instrs: seq<Instruction>, tick: nat, conflicts: seq<Conflict>) {
    exists xs, own, cs, idx, idx' ::
      && IsScanOrder(instrs, xs) && conflicts == own + cs
      && SelfReports(instrs, |instrs|, tick, own, idx) && NeighbourReports(xs, |xs|, tick, cs, idx')
  }

  lemma {:induction false} SelfComplete(instrs: seq<Instruction>, tick: nat) returns (idx: seq<nat>)
    ensures SelfReports(instrs, |instrs|, tick, SelfConflicts(instrs, tick), idx)
  {
    if |instrs| == 0 {
      idx := [];
    } else {
      var k, front := |instrs| - 1, instrs[..|instrs| - 1];
      var before := SelfComplete(front, tick);
      idx := before + if MeetsItself(instrs[k]) then [k] else [];
      var cs, more := SelfConflicts(front, tick), SelfConflictsOf(instrs[k], tick);
      SelfConflictSays(instrs[k], tick);
      assert SelfConflicts(instrs, tick) == cs + more;
      forall i: nat | i < |instrs| && MeetsItself(instrs[i]) ensures i in idx {
        if i < k { assert front[i] == instrs[i] && i in before; }
      }
    }
  }

  lemma SelfConflictSays(ins: Instruction, tick: nat)
    ensures |SelfConflictsOf(ins, tick)| == if MeetsItself(ins) then 1 else 0
    ensures MeetsItself(ins) ==> SaysItself(SelfConflictsOf(ins, tick)[0], ins, tick)
  {
  }

  lemma {:induction false} NeighboursComplete(xs: seq<Interval>, tick: nat, k: nat) returns (idx: seq<nat>)
    requires k <= |xs|
    ensures NeighbourReports(xs, k, tick, Scan(xs, tick, k), idx)
  {
    hide MeetsPrevious, SaysNeighbours, PairConflict, NeighbourReports;
    if k <= 1 {
      idx := [];
      NoNeighbours(xs, tick, k);
    } else {
      var before := NeighboursComplete(xs, tick, k - 1);
      idx := before + if MeetsPrevious(xs, k - 1) then [k - 1] else [];
      PairConflictSays(xs, k - 1, tick);
      OneReportMore(xs, k - 1, tick, Scan(xs, tick, k - 1), before, PairConflict(xs[k - 2], xs[k - 1], tick));
    }
  }

  lemma NoNeighbours(xs: seq<Interval>, tick: nat, k: nat)
    requires k <= |xs| && k <= 1
    ensures NeighbourReports(xs, k, tick, [], [])
  {
  }

  lemma OneReportMore(xs: seq<Interval>, k: nat, tick: nat, cs: seq<Conflict>, idx: seq<nat>, more: seq<Conflict>)
    requires 1 <= k < |xs| && NeighbourReports(xs, k, tick, cs, idx)
    requires |more| == if MeetsPrevious(xs, k) then 1 else 0
    requires MeetsPrevious(xs, k) ==> SaysNeighbours(more[0], xs[k - 1], xs[k], tick)
    ensures NeighbourReports(xs, k + 1, tick, cs + more, idx + if MeetsPrevious(xs, k) then [k] else [])
  {
    hide MeetsPrevious, SaysNeighbours;
    var idx' := idx + if MeetsPrevious(xs, k) then [k] else [];
    forall i: nat | 1 <= i < k + 1 && MeetsPrevious(xs, i) ensures i in idx' {
      if i < k { assert i in idx; } else { assert idx'[|idx|] == k; }
    }
  }

  lemma PairConflictSays(xs: seq<Interval>, i: nat, tick: nat)
    requires 1 <= i < |xs|
    ensures |PairConflict(xs[i - 1], xs[i], tick)| == if MeetsPrevious(xs, i) then 1 else 0
    ensures MeetsPrevious(xs, i) ==> SaysNeighbours(PairConflict(xs[i - 1], xs[i], tick)[0], xs[i - 1], xs[i], tick)
  {
  }

  /** The list _check_tick returns is complete in this sense. */
  lemma {:induction false} ReportsAreComplete(instrs: seq<Instruction>, tick: nat)
    ensures Complete(instrs, tick, TickConflicts(instrs, tick))
  {
    hide SelfReports, NeighbourReports, StableSort, Intervals, Scan, SelfConflicts, WithKey;
    var xs := StableSort(Intervals(instrs));
    SortIsStable(Intervals(instrs));
    var idx := SelfComplete(instrs, tick);
    var idx' := NeighboursComplete(xs, tick, |xs|);
    assert IsScanOrder(instrs, xs);
    assert TickConflicts(instrs, tick) == SelfConflicts(instrs, tick) + Scan(xs, tick, |xs|);
  }

  /** Which intervals are collected: of each non-NOP its source range, then its destination range, in
      the order of the instructions. */
  lemma {:induction false} IntervalsInOrder(instrs: seq<Instruction>)
    ensures |Intervals(instrs)| == 2 * NonNops(instrs)
    ensures forall i: nat {:trigger NonNops(instrs[..i])} :: i < |instrs| && instrs[i].n > 0 ==>
              var at, x := 2 * NonNops(instrs[..i]), instrs[i];
              && at + 1 < |Intervals(instrs)|
              && Intervals(instrs)[at] == Interval(x.src, x.src + x.n, x.slot, Src)
              && Intervals(instrs)[at + 1] == Interval(x.dst, x.dst + x.n, x.slot, Dst)
  {
    if |instrs| > 0 {
      var k, front := |instrs| - 1, instrs[..|instrs| - 1];
      IntervalsInOrder(front);
      forall i: nat | i < |instrs| && instrs[i].n > 0
        ensures var at, x := 2 * NonNops(instrs[..i]), instrs[i];
                && at + 1 < |Intervals(instrs)|
                && Intervals(instrs)[at] == Interval(x.src, x.src + x.n, x.slot, Src)
                && Intervals(instrs)[at + 1] == Interval(x.dst, x.dst + x.n, x.slot, Dst)
      {
        if i < k { assert front[..i] == instrs[..i] && front[i] == instrs[i]; }
      }
    }
  }

  // ------------------------------------------------------------------ the checker itself

  /** _check_tick. */
  method CheckTick(instrs: seq<Instruction>, tick: nat) returns (conflicts: seq<Conflict>)
    ensures conflicts == TickConflicts(instrs, tick)
    ensures conflicts == [] <==> StrictlyDisjoint(instrs)
    ensures conflicts == [] <==> PairwiseDisjoint(instrs)
    ensures Complete(instrs, tick, conflicts)
    ensures DistinctSlots(instrs) ==> forall c :: c in conflicts ==> Reported(instrs, c) && c.tick == tick
  {
    hide StrictlyDisjoint, PairwiseDisjoint, Genuine, Reported, Complete, StableSort, DistinctSlots, Intervals,
      SelfConflicts, KindOf;
    conflicts := [];
    var intervals: seq<Interval> := [];
    NothingCollected(tick);
    VerdictIsExact(instrs, tick);
    DisjointIsPairwise(instrs);
    ReportsAreComplete(instrs, tick);
    if DistinctSlots(instrs) { ReportsAreGenuine(instrs, tick); }
    for k := 0 to |instrs|
      invariant conflicts == SelfConflicts(instrs[..k], tick)
      invariant intervals == Intervals(instrs[..k])
    {
      var ins := instrs[k];
      CollectOneMore(instrs, tick, k);
      if ins.n == 0 { continue; }
      var srcEnd := ins.src + ins.n;
      var dstEnd := ins.dst + ins.n;
      if !(srcEnd <= ins.dst || dstEnd <= ins.src) {
        conflicts := conflicts
          + [Conflict(tick, ins.slot, ins.slot, Max(ins.src, ins.dst), Min(srcEnd, dstEnd), SelfSrcDst)];
      }
      intervals := intervals + [Interval(ins.src, srcEnd, ins.slot, Src)];
      intervals := intervals + [Interval(ins.dst, dstEnd, ins.slot, Dst)];
    }
    assert instrs[..|instrs|] == instrs;
    SortKeepsLength(intervals);
    if |intervals| == 0 { return; }
    intervals := StableSort(intervals);
    ghost var self := conflicts;
    for i := 1 to |intervals|
      invariant conflicts == self + Scan(intervals, tick, i)
    {
      var prev := intervals[i - 1];
      var curr := intervals[i];
      if curr.start < prev.end {
        conflicts := conflicts
          + [Conflict(tick, prev.slot, curr.slot, curr.start, Min(curr.end, prev.end), KindOf(prev, curr))];
      }
    }
  }

  lemma {:induction false} NothingCollected(tick: nat)
    ensures Intervals([]) == [] && SelfConflicts([], tick) == []
  {
  }

  lemma {:induction false} CollectOneMore(instrs: seq<Instruction>, tick: nat, k: nat)
    requires k < |instrs|
    ensures Intervals(instrs[..k + 1]) == Intervals(instrs[..k]) + IntervalsOf(instrs[k])
    ensures SelfConflicts(instrs[..k + 1], tick) == SelfConflicts(instrs[..k], tick) + SelfConflictsOf(instrs[k], tick)
  {
    assert instrs[..k + 1][..k] == instrs[..k];
  }

  lemma {:induction false} SortKeepsLength(xs: seq<Interval>)
    ensures |StableSort(xs)| == |xs|
  {
    SortIsStable(xs);
    assert |multiset(StableSort(xs))| == |multiset(xs)|;
  }

  function NonNops(instrs: seq<Instruction>): nat {
    if |instrs| == 0 then 0
    else NonNops(instrs[..|instrs| - 1]) + if instrs[|instrs| - 1].n == 0 then 0 else 1
  }

  /** The positions of the instructions that are no NOPs. */
  function NonNopAt(instrs: seq<Instruction>): set<nat> {
    set i: nat | i < |instrs| && instrs[i].n > 0
  }

  lemma {:induction false} NonNopsCount(instrs: seq<Instruction>)
    ensures NonNops(instrs) == |NonNopAt(instrs)|
  {
    if |instrs| > 0 {
      var k, front := |instrs| - 1, instrs[..|instrs| - 1];
      NonNopsCount(front);
      assert NonNopAt(instrs) == NonNopAt(front) + if instrs[k].n > 0 then {k} else {};
    }
  }

  /** sum(1 for i in instrs if not i.is_nop()). */
  method CountNonNops(instrs: seq<Instruction>) returns (count: nat)
    ensures count == NonNops(instrs) == |NonNopAt(instrs)|
  {
    NonNopsCount(instrs);
    count := 0;
    for k := 0 to |instrs|
      invariant count == NonNops(instrs[..k])
    {
      assert instrs[..k + 1][..k] == instrs[..k];
      if instrs[k].n != 0 { count := count + 1; }
    }
    assert instrs[..|instrs|] == instrs;
  }

  /** The instructions of all rounds that are no NOPs, by round and position. */
  function NonNopsIn(layers: seq<seq<Instruction>>): set<(nat, nat)> {
    set t: nat, i: nat | t < |layers| && i < |layers[t]| && layers[t][i].n > 0 :: (t, i)
  }

  function Tagged(t: nat, s: set<nat>): set<(nat, nat)> {
    set i | i in s :: (t, i)
  }

  lemma {:induction false} TaggedCount(t: nat, s: set<nat>)
    ensures |Tagged(t, s)| == |s|
  {
    if s == {} {
      assert Tagged(t, s) == {};
    } else {
      var x :| x in s;
      TaggedCount(t, s - {x});
      assert Tagged(t, s) == Tagged(t, s - {x}) + {(t, x)};
    }
  }

  lemma {:induction false} OneRoundMore(layers: seq<seq<Instruction>>, t: nat)
    requires t < |layers|
    ensures |NonNopsIn(layers[..t + 1])| == |NonNopsIn(layers[..t])| + |NonNopAt(layers[t])|
  {
    var here := Tagged(t, NonNopAt(layers[t]));
    TaggedCount(t, NonNopAt(layers[t]));
    assert NonNopsIn(layers[..t + 1]) == NonNopsIn(layers[..t]) + here;
    assert NonNopsIn(layers[..t]) !! here;
  }

  /** The list is made of one piece a round, in order, piece t being the complete report of round t. */
  ghost predicate PieceByPiece(layers: seq<seq<Instruction>>, conflicts: seq<Conflict>, cuts: seq<nat>) {
    && |cuts| == |layers| + 1 && cuts[0] == 0 && cuts[|layers|] == |conflicts|
    && (forall t, u :: 0 <= t < u < |cuts| ==> cuts[t] <= cuts[u])
    && forall t: nat :: t < |layers| ==> Piece(layers[t], t, conflicts, cuts[t], cuts[t + 1])
  }

  ghost predicate Piece(instrs: seq<Instruction>, tick: nat, conflicts: seq<Conflict>, lo: nat, hi: nat) {
    lo <= hi <= |conflicts| && Complete(instrs, tick, conflicts[lo..hi])
  }

  lemma {:induction false} OnePieceMore(layers: seq<seq<Instruction>>, t: nat, all: seq<Conflict>, cuts: seq<nat>,
                                        more: seq<Conflict>)
    requires t < |layers| && PieceByPiece(layers[..t], all, cuts) && Complete(layers[t], t, more)
    ensures PieceByPiece(layers[..t + 1], all + more, cuts + [|all| + |more|])
  {
    hide Complete;
    var all', cuts' := all + more, cuts + [|all| + |more|];
    forall u: nat | u < t + 1 ensures Piece(layers[..t + 1][u], u, all', cuts'[u], cuts'[u + 1]) {
      if u < t {
        assert Piece(layers[..t][u], u, all, cuts[u], cuts[u + 1]);
        assert all'[cuts[u]..cuts[u + 1]] == all[cuts[u]..cuts[u + 1]];
      } else {
        assert all'[|all|..|all| + |more|] == more;
      }
    }
  }

  /** check_layers: it passes exactly if every round is strictly disjoint; the list holds the complete
      reports of the rounds one after the other, and each is true of the round of its tick. */
  method CheckLayers(layers: seq<seq<Instruction>>) returns (result: ConflictCheckResult)
    ensures result.status == Pass <==> forall t :: 0 <= t < |layers| ==> PairwiseDisjoint(layers[t])
    ensures result.status == Pass <==> result.conflicts == []
    ensures exists cuts :: PieceByPiece(layers, result.conflicts, cuts)
    ensures forall t :: 0 <= t < |layers| ==> forall c :: c in TickConflicts(layers[t], t) ==> c in result.conflicts
    ensures (forall t :: 0 <= t < |layers| ==> DistinctSlots(layers[t])) ==>
              forall c :: c in result.conflicts ==> c.tick < |layers| && Reported(layers[c.tick], c)
    ensures result.layersChecked == |layers| && result.totalNonNop == |NonNopsIn(layers)|
  {
    hide PairwiseDisjoint, StrictlyDisjoint, Reported, Complete, TickConflicts, DistinctSlots, NonNopsIn, NonNopAt,
      PieceByPiece;
    var all: seq<Conflict> := [];
    var total := 0;
    ghost var cuts: seq<nat> := [0];
    NoRound(layers);
    for t := 0 to |layers|
      invariant all == [] <==> forall u :: 0 <= u < t ==> PairwiseDisjoint(layers[u])
      invariant (forall u :: 0 <= u < |layers| ==> DistinctSlots(layers[u])) ==>
                  forall c :: c in all ==> c.tick < t && Reported(layers[c.tick], c)
      invariant PieceByPiece(layers[..t], all, cuts)
      invariant forall u :: 0 <= u < t ==> forall c :: c in TickConflicts(layers[u], u) ==> c in all
      invariant total == |NonNopsIn(layers[..t])|
    {
      var conflicts := CheckTick(layers[t], t);
      OnePieceMore(layers, t, all, cuts, conflicts);
      cuts := cuts + [|all| + |conflicts|];
      all := all + conflicts;
      var count := CountNonNops(layers[t]);
      OneRoundMore(layers, t);
      total := total + count;
    }
    assert layers[..|layers|] == layers;
    result := ConflictCheckResult(if all != [] then Fail else Pass, all, |layers|, total);
  }

  lemma NoRound(layers: seq<seq<Instruction>>)
    ensures PieceByPiece(layers[..0], [], [0]) && NonNopsIn(layers[..0]) == {}
  {
  }

  // ------------------------------------------------------------------ batches

  /** Bit p lies in the source or destination range of an operation (n, dst, src). */
  predicate InOperation(op: (nat, nat, nat), side: Origin, p: int) {
    match side
    case Src => op.2 <= p < op.2 + op.0
    case Dst => op.1 <= p < op.1 + op.0
  }

  ghost predicate OperationsDisjoint(ops: seq<(nat, nat, nat)>) {
    forall i, a, j, b, p: nat | 0 <= i < |ops| && 0 <= j < |ops| && (i != j || a != b) ::
      !(InOperation(ops[i], a, p) && InOperation(ops[j], b, p))
  }

  /** c reports side a of operation i and side b of operation j. */
  ghost predicate NamesOperations(ops: seq<(nat, nat, nat)>, c: Conflict, a: Origin, b: Origin) {
    && c.slotA < |ops| && c.slotB < |ops| && (c.slotA != c.slotB || a != b)
    && KindSays(c.kind, c.slotA == c.slotB, a, b) && c.begin < c.end
    && forall p: nat :: c.begin <= p < c.end <==> InOperation(ops[c.slotA], a, p) && InOperation(ops[c.slotB], b, p)
  }

  /** The instructions of a batch, numbered by position. */
  predicate Numbered(ops: seq<(nat, nat, nat)>, instrs: seq<Instruction>) {
    && |instrs| == |ops|
    && forall i :: 0 <= i < |ops| ==>
         instrs[i].slot == i && instrs[i].n == ops[i].0 && instrs[i].dst == ops[i].1 && instrs[i].src == ops[i].2
  }

  lemma NumberedRanges(ops: seq<(nat, nat, nat)>, instrs: seq<Instruction>)
    requires Numbered(ops, instrs)
    ensures forall i, a, p :: 0 <= i < |ops| ==> (InRange(instrs[i], a, p) <==> InOperation(ops[i], a, p))
  {
  }

  lemma {:induction false} NumberedMeans(ops: seq<(nat, nat, nat)>, instrs: seq<Instruction>)
    requires Numbered(ops, instrs)
    ensures DistinctSlots(instrs) && (PairwiseDisjoint(instrs) <==> OperationsDisjoint(ops))
    ensures forall c :: Reported(instrs, c) ==> exists a, b :: NamesOperations(ops, c, a, b)
  {
    hide InRange, InOperation;
    NumberedRanges(ops, instrs);
    forall c | Reported(instrs, c) ensures exists a, b :: NamesOperations(ops, c, a, b) {
      var i, a, j, b :| 0 <= i < |instrs| && 0 <= j < |instrs| && Names(instrs, c, i, a, j, b);
      assert NamesOperations(ops, c, a, b);
    }
  }

  /** check_batch, said of the operations: no conflict if and only if no bit lies in two of their ranges;
      every report is true of the two operations it names; and the list is the complete report
      of the instructions numbered by position. */
  method CheckBatch(ops: seq<(nat, nat, nat)>, tick: nat) returns (conflicts: seq<Conflict>)
    ensures conflicts == [] <==> OperationsDisjoint(ops)
    ensures forall c :: c in conflicts ==> c.tick == tick && exists a, b :: NamesOperations(ops, c, a, b)
    ensures forall instrs :: Numbered(ops, instrs) ==> Complete(instrs, tick, conflicts)
  {
    hide PairwiseDisjoint, StrictlyDisjoint, OperationsDisjoint, Reported, Complete, DistinctSlots, NamesOperations;
    var instrs := Batch(ops);
    NumberedMeans(ops, instrs);
    conflicts := CheckTick(instrs, tick);
    forall other | Numbered(ops, other) ensures Complete(other, tick, conflicts) { assert other == instrs; }
  }

  function Batch(ops: seq<(nat, nat, nat)>): seq<Instruction> {
    seq(|ops|, i requires 0 <= i < |ops| => Instruction(i, ops[i].0, ops[i].1, ops[i].2))
  }
}
