/** One tick of the blocklist loop, its latch over whole runs, and the end-to-end exclusion guarantee. */
module CrowdsecLoop {
  import opened Texts
  import opened Collecting
  import opened Bits
  import opened Addresses
  import opened IpText
  import opened NftKeys
  import opened NftRoundTrip
  import opened Blocklists
  import opened CrowdsecInput
  import opened CrowdsecFilter
  import opened Firewall

  datatype Mode = Disabled | DryRun | Enforce

  /** newCrowdsecReconciler: the mode from the two environment values. */
  function ModeFromEnv(mode: string, guardPassed: string): (m: Mode)
    ensures m.Enforce? <==> mode == "enforce" && guardPassed == "true"
    ensures m.DryRun? <==> mode == "dryrun" || (mode == "enforce" && guardPassed != "true")
  {
    if mode == "dryrun" then DryRun
    else if mode == "enforce" then (if guardPassed == "true" then Enforce else DryRun)
    else Disabled
  }

  /** A wired callback may be absent, fail or yield a value. */
  datatype Source<+T> = Unwired | Failed | Got(value: T)

  datatype TickInput = TickInput(bans: Source<Blocklist>, exclusions: Source<ExclusionSet>)

  function BansSeen(i: TickInput): Blocklist { if i.bans.Got? then i.bans.value else EMPTY_BLOCKLIST }

  function ExclusionsSeen(i: TickInput): ExclusionSet {
    if i.exclusions.Got? then i.exclusions.value else ExclusionSet([], [])
  }

  const TRIP_BUDGET: nat := 3

  datatype Latch = Latch(tripCount: nat, quiescent: bool)

  /** The tick gets past its inputs and its alarm check goes off. */
  predicate Alarms(i: TickInput) {
    !i.bans.Failed? && !i.exclusions.Failed? && Trips(BansSeen(i), ExclusionsSeen(i))
  }

  function LatchAfter(s: Latch, i: TickInput): Latch {
    if s.quiescent || !Alarms(i) then s
    else Latch(s.tripCount + 1, s.tripCount + 1 >= TRIP_BUDGET)
  }

  /** The tick gets past its inputs, and more than one in twenty of the proposed prefixes lie inside an
      exclusion; a source that is not wired proposes or excludes nothing. */
  ghost predicate GoesOff(i: TickInput) {
    var bl := match i.bans case Got(b) => b case _ => Blocklist([], [], [], []);
    var ex := match i.exclusions case Got(e) => e case _ => ExclusionSet([], []);
    && !i.bans.Failed? && !i.exclusions.Failed?
    && 20 * (|HitIndices(bl.v4, ex.v4)| + |HitIndices(bl.v6, ex.v6)|) > |bl.v4| + |bl.v6|
  }

  lemma AlarmsExactly(i: TickInput)
    ensures Alarms(i) <==> GoesOff(i)
  {
    hide HitIndices, Trips;
    TripsExactly(BansSeen(i), ExclusionsSeen(i));
  }

  /** The tick consults the ban source. */
  predicate Fetches(s: Latch, i: TickInput) { !s.quiescent && !i.bans.Unwired? }

  /** The tick hands a list to the kernel writer. */
  predicate Attempts(m: Mode, wired: bool, s: Latch, i: TickInput) {
    !s.quiescent && !i.bans.Failed? && !i.exclusions.Failed? && !Alarms(i) && m.Enforce? && wired
  }

  /** The list handed over is the input filtered by the exclusions and capped, per family. */
  ghost predicate Pipeline(bl: Blocklist, ex: ExclusionSet, out: Blocklist) {
    CapOutcome(Kept(FamilyBans(bl, V4), ex.v4), FamilyBans(out, V4)) &&
    CapOutcome(Kept(FamilyBans(bl, V6), ex.v6), FamilyBans(out, V6))
  }

  datatype Report = Report(fetched: bool, attempted: bool, wrote: bool, emitted: Blocklist)

  class CrowdsecReconciler {
    const mode: Mode
    const applier: Applier?
    var latch: Latch

    constructor (mode: Mode, applier: Applier?)
      ensures this.mode == mode && this.applier == applier && latch == Latch(0, false)
    {
      this.mode, this.applier, latch := mode, applier, Latch(0, false);
    }

    /** tick. */
    method Tick(i: TickInput, fault: ApplyFault) returns (r: Report)
      modifies this`latch, if applier == null then {} else {applier}
      ensures latch == LatchAfter(old(latch), i)
      ensures var raised := !old(latch).quiescent && GoesOff(i);
        latch.tripCount == old(latch).tripCount + (if raised then 1 else 0) &&
        (latch.quiescent <==> old(latch).quiescent || (raised && latch.tripCount >= 3))
      ensures r.fetched == Fetches(old(latch), i)
      ensures r.fetched <==> !old(latch).quiescent && !i.bans.Unwired?
      ensures r.attempted == Attempts(mode, applier != null, old(latch), i)
      ensures r.attempted <==> mode == Enforce && applier != null && !old(latch).quiescent && !i.bans.Failed? &&
                               !i.exclusions.Failed? && !GoesOff(i)
      ensures r.wrote ==> r.attempted && BansHold(applier.crowdsec, r.emitted, fault)
      ensures r.attempted && (fault.NoFault? || fault.AddsLost?) ==> r.wrote
      ensures applier != null && !r.wrote ==>
                AtMostCreated(old(applier.crowdsec).first, applier.crowdsec.first) &&
                AtMostCreated(old(applier.crowdsec).second, applier.crowdsec.second)
      ensures r.attempted ==> Pipeline(BansSeen(i), ExclusionsSeen(i), r.emitted)
      ensures applier != null ==> applier.peers == old(applier.peers) && applier.ports == old(applier.ports)
      ensures applier != null ==>
                applier.crowdsec == if r.attempted then PairAfterApply(old(applier.crowdsec), EncodedBans(r.emitted), fault)
                                    else old(applier.crowdsec)
      ensures applier != null ==> TableStep(mode, true, old(latch), i, fault, old(applier.crowdsec), applier.crowdsec)
    {
      hide CapOutcome, Kept, EncodedBans, Trips, GoesOff, BansHold, HitIndices;
      AlarmsExactly(i);
      r := Report(false, false, false, EMPTY_BLOCKLIST);
      if latch.quiescent {
        return;
      }
      var bl := EMPTY_BLOCKLIST;
      if !i.bans.Unwired? {
        r := r.(fetched := true);
        if i.bans.Failed? {
          return;
        }
        bl := i.bans.value;
      }
      var ex := ExclusionSet([], []);
      if !i.exclusions.Unwired? {
        if i.exclusions.Failed? {
          return;
        }
        ex := i.exclusions.value;
      }
      var trip := ShouldSelfProtectTrip(bl, ex);
      if trip {
        var newTrip := latch.tripCount + 1;
        latch := latch.(tripCount := newTrip);
        if newTrip >= TRIP_BUDGET {
          latch := latch.(quiescent := true);
        }
        return;
      }
      var filtered, dropped := ApplyExclusions(bl, ex);
      var capped, droppedV4, droppedV6 := EnforceCap(filtered);
      if mode == Enforce && applier != null {
        r := r.(attempted := true, emitted := capped);
        assert FamilyBans(filtered, V4) == Kept(FamilyBans(bl, V4), FamilyExclusions(ex, V4));
        assert FamilyBans(filtered, V6) == Kept(FamilyBans(bl, V6), FamilyExclusions(ex, V6));
        var ok := applier.ApplyCrowdsecBlocklist(capped, fault);
        r := r.(wrote := ok);
      }
    }
  }

  // ---- the latch over whole runs ---------------------------------------------

  const FRESH := Latch(0, false)

  /** The latch after a run of ticks since the pod started. */
  function After(inputs: seq<TickInput>): Latch {
    if inputs == [] then FRESH else LatchAfter(After(inputs[..|inputs| - 1]), inputs[|inputs| - 1])
  }

  ghost function CountAlarms(inputs: seq<TickInput>): nat {
    if inputs == [] then 0
    else CountAlarms(inputs[..|inputs| - 1]) + (if GoesOff(inputs[|inputs| - 1]) then 1 else 0)
  }

  /** The counter is the number of alarms so far, healthy ticks in between or not, up to three, and the
      latch is set exactly when it reaches three. */
  lemma {:induction false} LatchCountsAlarms(inputs: seq<TickInput>)
    ensures After(inputs).tripCount == if CountAlarms(inputs) <= 3 then CountAlarms(inputs) else 3
    ensures After(inputs).quiescent <==> CountAlarms(inputs) >= 3
  {
    hide Alarms, GoesOff;
    if inputs != [] {
      LatchCountsAlarms(inputs[..|inputs| - 1]);
      AlarmsExactly(inputs[|inputs| - 1]);
    }
  }

  lemma {:induction false} AlarmsGrow(inputs: seq<TickInput>, k: nat)
    requires k <= |inputs|
    ensures CountAlarms(inputs[..k]) <= CountAlarms(inputs)
  {
    hide GoesOff;
    if k < |inputs| {
      assert inputs[..|inputs| - 1][..k] == inputs[..k];
      AlarmsGrow(inputs[..|inputs| - 1], k);
    } else {
      assert inputs[..k] == inputs;
    }
  }

  /** Over any run: the counter never decreases and never exceeds the budget; once it is there, no later
      tick fetches or hands anything to the kernel. */
  lemma LatchIsForGood(inputs: seq<TickInput>, k: nat, m: Mode, wired: bool)
    requires k < |inputs|
    ensures After(inputs[..k]).tripCount <= After(inputs).tripCount <= 3
    ensures After(inputs[..k]).tripCount == 3 ==>
              !Fetches(After(inputs[..|inputs| - 1]), inputs[|inputs| - 1]) &&
              !Attempts(m, wired, After(inputs[..|inputs| - 1]), inputs[|inputs| - 1])
  {
    hide Alarms;
    var before := inputs[..|inputs| - 1];
    LatchCountsAlarms(inputs[..k]);
    LatchCountsAlarms(before);
    LatchCountsAlarms(inputs);
    AlarmsGrow(inputs, k);
    assert before[..k] == inputs[..k];
    AlarmsGrow(before, k);
  }

  /** One tick as the blocklist table sees it: a list that the pipeline can yield is handed to the writer,
      which may fail anywhere, or the table stays. */
  ghost predicate TableStep(m: Mode, wired: bool, s: Latch, i: TickInput, fault: ApplyFault, t: TablePair, t': TablePair) {
    if Attempts(m, wired, s, i) then
      exists out :: Pipeline(BansSeen(i), ExclusionsSeen(i), out) && t' == PairAfterApply(t, EncodedBans(out), fault)
    else t' == t
  }

  /** A run of ticks since the pod started with what failed in each write, and the table before each of
      them and after the last. */
  ghost predicate TableRun(m: Mode, wired: bool, inputs: seq<TickInput>, faults: seq<ApplyFault>, tables: seq<TablePair>) {
    |tables| == |inputs| + 1 && |faults| == |inputs| &&
    forall k :: 0 <= k < |inputs| ==> TableStep(m, wired, After(inputs[..k]), inputs[k], faults[k], tables[k], tables[k + 1])
  }

  /** Over any run, every change of the table happens in enforce mode, before the third alarm, and on a tick
      whose own bans intersect the exclusions in at most one of twenty. */
  lemma TableChangesAreHealthy(m: Mode, wired: bool, inputs: seq<TickInput>, faults: seq<ApplyFault>, tables: seq<TablePair>, k: nat)
    requires TableRun(m, wired, inputs, faults, tables) && k < |inputs| && tables[k + 1] != tables[k]
    ensures m.Enforce? && wired
    ensures CountAlarms(inputs[..k + 1]) < 3
    ensures !inputs[k].bans.Failed? && !inputs[k].exclusions.Failed? && !GoesOff(inputs[k])
  {
    hide Pipeline, PairAfterApply, GoesOff, Alarms;
    AlarmsExactly(inputs[k]);
    assert TableStep(m, wired, After(inputs[..k]), inputs[k], faults[k], tables[k], tables[k + 1]);
    LatchCountsAlarms(inputs[..k]);
    assert inputs[..k + 1][..k] == inputs[..k];
  }

  /** And the other way: over any run in enforce mode, a tick before the third alarm that obtained its inputs
      and does not go off hands over a list that the pipeline yields, and when no call fails the table then
      drops exactly what the bans of that list cover. */
  lemma HealthyTicksWrite(m: Mode, wired: bool, inputs: seq<TickInput>, faults: seq<ApplyFault>, tables: seq<TablePair>, k: nat)
    requires TableRun(m, wired, inputs, faults, tables) && k < |inputs|
    requires m.Enforce? && wired && CountAlarms(inputs[..k]) < 3
    requires !inputs[k].bans.Failed? && !inputs[k].exclusions.Failed? && !GoesOff(inputs[k]) && faults[k].NoFault?
    ensures exists out ::
              Pipeline(BansSeen(inputs[k]), ExclusionsSeen(inputs[k]), out) && BansHold(tables[k + 1], out, NoFault)
  {
    hide Pipeline, GoesOff, Alarms, EncodedBans, BansHold;
    AlarmsExactly(inputs[k]);
    assert TableStep(m, wired, After(inputs[..k]), inputs[k], faults[k], tables[k], tables[k + 1]);
    LatchCountsAlarms(inputs[..k]);
    var out :| Pipeline(BansSeen(inputs[k]), ExclusionsSeen(inputs[k]), out) &&
               tables[k + 1] == PairAfterApply(tables[k], EncodedBans(out), faults[k]);
    EncodedBansHold(out);
  }

  lemma EncodedBansHold(out: Blocklist)
    ensures BansHold(EncodedBans(out), out, NoFault)
  {
    hide HoldsBans, Flatten, BanIntervals;
    BansHeld(V4, out.v4, out.ttl4);
    BansHeld(V6, out.v6, out.ttl6);
  }

  /** And from the third alarm on the table never changes again. */
  lemma {:induction false} TableFrozen(m: Mode, wired: bool, inputs: seq<TickInput>, faults: seq<ApplyFault>, tables: seq<TablePair>,
                                       j: nat, k: nat)
    requires TableRun(m, wired, inputs, faults, tables) && j <= k <= |inputs| && CountAlarms(inputs[..j]) >= 3
    ensures tables[k] == tables[j]
    decreases k
  {
    hide TableRun, CountAlarms, GoesOff;
    if j < k {
      TableFrozen(m, wired, inputs, faults, tables, j, k - 1);
      RunLengths(m, wired, inputs, faults, tables);
      assert inputs[..k][..j] == inputs[..j];
      AlarmsGrow(inputs[..k], j);
      if tables[k] != tables[k - 1] { TableChangesAreHealthy(m, wired, inputs, faults, tables, k - 1); }
    }
  }

  lemma RunLengths(m: Mode, wired: bool, inputs: seq<TickInput>, faults: seq<ApplyFault>, tables: seq<TablePair>)
    requires TableRun(m, wired, inputs, faults, tables)
    ensures |tables| == |inputs| + 1 && |faults| == |inputs|
  {
  }

  /** Unless both environment values are set, no run of any length ever changes the table. */
  lemma {:induction false} UnguardedNeverWrites(mode: string, guardPassed: string, wired: bool, inputs: seq<TickInput>,
                                                faults: seq<ApplyFault>, tables: seq<TablePair>, k: nat)
    requires TableRun(ModeFromEnv(mode, guardPassed), wired, inputs, faults, tables) && k <= |inputs|
    requires mode != "enforce" || guardPassed != "true"
    ensures tables[k] == tables[0]
  {
    hide TableStep, GoesOff;
    if k > 0 {
      UnguardedNeverWrites(mode, guardPassed, wired, inputs, faults, tables, k - 1);
      if tables[k] != tables[k - 1] {
        TableChangesAreHealthy(ModeFromEnv(mode, guardPassed), wired, inputs, faults, tables, k - 1);
      }
    }
  }

  // ---- end to end ------------------------------------------------------------

  /** Bans and exclusions as the stream parser and the exclusion builder leave them. */
  ghost predicate NormalInputs(bl: Blocklist, ex: ExclusionSet) {
    Normal(V4, bl.v4) && Normal(V6, bl.v6) && NormalExclusions(ex)
  }

  function FamilyTable(t: TablePair, f: Family): SetState { if f.V4? then t.first else t.second }

  /** What the kernel drops once the sets of `out` are written. */
  ghost predicate Dropped(out: Blocklist, a: Addr) {
    Matches(FamilyTable(EncodedBans(out), a.fam).elements, KeyLength(a.fam), a.val)
  }

  /** A dropped address is covered by an emitted ban, which is an input ban that no exclusion contains. */
  lemma DroppedHasBan(bl: Blocklist, ex: ExclusionSet, out: Blocklist, a: Addr) returns (b: Ban)
    requires Pipeline(bl, ex, out) && Dropped(out, a)
    ensures b in FamilyBans(out, a.fam) && b in FamilyBans(bl, a.fam)
    ensures Drops(a.fam, b, a) && !Contained(b.prefix, FamilyExclusions(ex, a.fam))
  {
    hide CapOutcome, Kept, Drops, Contained;
    BansDenote(a.fam, FamilyBans(out, a.fam), a);
    b :| b in FamilyBans(out, a.fam) && Drops(a.fam, b, a);
    PipelineConserves(FamilyBans(bl, a.fam), FamilyExclusions(ex, a.fam), FamilyBans(out, a.fam));
  }

  lemma FamilyBanIsNormal(bl: Blocklist, ex: ExclusionSet, f: Family, b: Ban)
    requires NormalInputs(bl, ex) && b in FamilyBans(bl, f)
    ensures b.prefix.addr.fam == f && !b.prefix.addr.Is4In6()
  {
  }

  /** On unmapped prefixes the guard is containment of blocks. */
  lemma ContainedIsInside(exs: seq<Prefix>, f: Family, p: Prefix)
    requires Normal(f, exs) && !p.addr.Is4In6()
    ensures Contained(p, exs) <==> exists e :: e in exs && Inside(p, e)
  {
    hide Inside;
    UnmapPrefixIdentity(p);
    forall e | e in exs ensures PrefixContainsOrEquals(e, p) <==> Inside(p, e) {
      UnmapPrefixIdentity(e);
      ContainsIsInside(e, p);
    }
    if e :| e in exs && Inside(p, e) {
      var i :| 0 <= i < |exs| && exs[i] == e;
    }
  }

  /** End-to-end exclusion. After a writing tick the kernel drops an excluded address only if some live
      input ban of its family covers it and strictly contains an exclusion that covers it. */
  lemma ExcludedDropNeedsWiderBan(bl: Blocklist, ex: ExclusionSet, out: Blocklist, a: Addr)
    requires NormalInputs(bl, ex) && Pipeline(bl, ex, out)
    requires Excluded(ex, a) && Dropped(out, a)
    ensures exists b, e :: b in FamilyBans(bl, a.fam) && b.ttl > 0 && Covers(b.prefix, a) &&
                           e in FamilyExclusions(ex, a.fam) && Covers(e, a) && StrictlyContains(b.prefix, e)
  {
    hide Pipeline, Dropped, Contained, Covers, Inside;
    var b := DroppedHasBan(bl, ex, out, a);
    var exs := FamilyExclusions(ex, a.fam);
    var e :| e in exs && Covers(e, a);
    FamilyBanIsNormal(bl, ex, a.fam, b);
    ContainedIsInside(exs, a.fam, b.prefix);
    assert !Inside(b.prefix, e);
    if e.bits <= b.prefix.bits { CommonAddressNests(e, b.prefix, a); }
    CommonAddressNests(b.prefix, e, a);
  }

  /** Exactly which excluded addresses are dropped, capped or not: those that an emitted live ban covers
      which is strictly wider than an exclusion of the address. */
  lemma ExcludedDropExactly(bl: Blocklist, ex: ExclusionSet, out: Blocklist, a: Addr)
    requires NormalInputs(bl, ex) && Pipeline(bl, ex, out) && Excluded(ex, a)
    ensures Dropped(out, a) <==>
            exists b, e :: b in FamilyBans(out, a.fam) && e in FamilyExclusions(ex, a.fam) && Covers(e, a) &&
                           b.ttl > 0 && StrictlyContains(b.prefix, e) && !(b.prefix.bits == 0 && IsLast(a))
  {
    hide Pipeline, Dropped, Contained, Covers;
    var exs := FamilyExclusions(ex, a.fam);
    if Dropped(out, a) {
      var b := DroppedHasBan(bl, ex, out, a);
      var e :| e in exs && Covers(e, a);
      FamilyBanIsNormal(bl, ex, a.fam, b);
      ContainedIsInside(exs, a.fam, b.prefix);
      if e.bits <= b.prefix.bits { CommonAddressNests(e, b.prefix, a); }
      CommonAddressNests(b.prefix, e, a);
      assert StrictlyContains(b.prefix, e);
    }
    if b, e :| b in FamilyBans(out, a.fam) && e in exs && Covers(e, a) && b.ttl > 0 && StrictlyContains(b.prefix, e) &&
               !(b.prefix.bits == 0 && IsLast(a)) {
      assert Covers(b.prefix, a);
      CoversInterval(b.prefix, a);
      BanDropsAddress(out, b, a);
    }
  }

  /** So bans on single hosts never drop an excluded address. */
  lemma HostBansSpareExcluded(bl: Blocklist, ex: ExclusionSet, out: Blocklist, a: Addr)
    requires NormalInputs(bl, ex) && Pipeline(bl, ex, out) && Excluded(ex, a)
    requires forall b :: b in FamilyBans(bl, a.fam) ==> b.prefix.bits == Width(a.fam)
    ensures !Dropped(out, a)
  {
    hide Pipeline, Dropped, Covers, Inside;
    if Dropped(out, a) {
      ExcludedDropNeedsWiderBan(bl, ex, out, a);
      var b, e :| b in FamilyBans(bl, a.fam) && b.ttl > 0 && Covers(b.prefix, a) &&
                  e in FamilyExclusions(ex, a.fam) && Covers(e, a) && StrictlyContains(b.prefix, e);
      FamilyBanIsNormal(bl, ex, a.fam, b);
      CommonAddressNests(e, b.prefix, a);
    }
  }

  /** Every ban has time left, as in a parsed stream. */
  ghost predicate Live(bl: Blocklist) { forall f, b :: b in FamilyBans(bl, f) ==> b.ttl > 0 }

  /** The texts of the prefixes that reach the kernel, told from the input: the first of the sorted texts of
      what no exclusion contains. */
  function EmittedTexts(bl: Blocklist, ex: ExclusionSet, f: Family): seq<string> {
    FirstTexts(Kept(FamilyBans(bl, f), FamilyExclusions(ex, f)))
  }

  lemma EmittedExactly(bl: Blocklist, ex: ExclusionSet, out: Blocklist, f: Family, p: Prefix)
    requires Pipeline(bl, ex, out)
    ensures PrefixText(p) in EmittedTexts(bl, ex, f) <==> exists b :: b in FamilyBans(out, f) && b.prefix == p
  {
    var kept, emitted := Kept(FamilyBans(bl, f), FamilyExclusions(ex, f)), FamilyBans(out, f);
    hide CapOutcome, Kept, FirstTexts, PrefixText, Bans;
    CapTexts(kept, emitted);
    assert BanTexts(emitted) == EmittedTexts(bl, ex, f);
    if b :| b in emitted && b.prefix == p {
      var i :| 0 <= i < |emitted| && emitted[i] == b;
      assert BanTexts(emitted)[i] == PrefixText(p);
    }
    if PrefixText(p) in BanTexts(emitted) {
      var i :| 0 <= i < |BanTexts(emitted)| && BanTexts(emitted)[i] == PrefixText(p);
      PrefixTextInjective(emitted[i].prefix, p);
      assert emitted[i] in emitted;
    }
  }

  /** Told from the input alone, at every size: an excluded address is dropped if and only if one of the
      emitted prefixes is strictly wider than an exclusion of the address, the last address under the whole
      space aside. */
  lemma ExcludedDropFromInput(bl: Blocklist, ex: ExclusionSet, out: Blocklist, a: Addr)
    requires NormalInputs(bl, ex) && Live(bl) && Pipeline(bl, ex, out) && Excluded(ex, a)
    ensures Dropped(out, a) <==>
            exists p: Prefix, e :: PrefixText(p) in EmittedTexts(bl, ex, a.fam) && e in FamilyExclusions(ex, a.fam) &&
                                   Covers(e, a) && StrictlyContains(p, e) && !(p.bits == 0 && IsLast(a))
  {
    hide Dropped, Covers, StrictlyContains, EmittedTexts, PrefixText, CapOutcome, Kept;
    ExcludedDropExactly(bl, ex, out, a);
    var exs := FamilyExclusions(ex, a.fam);
    if b, e :| b in FamilyBans(out, a.fam) && e in exs && Covers(e, a) && b.ttl > 0 && StrictlyContains(b.prefix, e) &&
               !(b.prefix.bits == 0 && IsLast(a)) {
      EmittedExactly(bl, ex, out, a.fam, b.prefix);
    }
    if p: Prefix, e :| PrefixText(p) in EmittedTexts(bl, ex, a.fam) && e in exs && Covers(e, a) && StrictlyContains(p, e) &&
                       !(p.bits == 0 && IsLast(a)) {
      EmittedExactly(bl, ex, out, a.fam, p);
      var b :| b in FamilyBans(out, a.fam) && b.prefix == p;
      EmittedIsLive(bl, ex, out, a.fam, b);
    }
  }

  lemma EmittedIsLive(bl: Blocklist, ex: ExclusionSet, out: Blocklist, f: Family, b: Ban)
    requires Live(bl) && Pipeline(bl, ex, out) && b in FamilyBans(out, f)
    ensures b.ttl > 0
  {
    hide CapOutcome, Kept;
    PipelineConserves(FamilyBans(bl, f), FamilyExclusions(ex, f), FamilyBans(out, f));
  }

  /** So some excluded address of a family is dropped if and only if an emitted prefix is strictly wider
      than an exclusion, a host exclusion of the last address under the whole space aside. */
  lemma SomeExcludedDropped(bl: Blocklist, ex: ExclusionSet, out: Blocklist, f: Family)
    requires NormalInputs(bl, ex) && Live(bl) && Pipeline(bl, ex, out)
    ensures (exists a: Addr :: a.fam == f && Excluded(ex, a) && Dropped(out, a)) <==>
            exists p: Prefix, e :: PrefixText(p) in EmittedTexts(bl, ex, f) && e in FamilyExclusions(ex, f) &&
                                   StrictlyContains(p, e) && !(p.bits == 0 && IsLast(Masked(e).addr))
  {
    hide Dropped, Covers, StrictlyContains, EmittedTexts, PrefixText, Masked, Pipeline, NormalInputs, Live, BlockSize;
    var exs := FamilyExclusions(ex, f);
    if a: Addr :| a.fam == f && Excluded(ex, a) && Dropped(out, a) {
      ExcludedDropFromInput(bl, ex, out, a);
      var p: Prefix, e :| PrefixText(p) in EmittedTexts(bl, ex, f) && e in exs && Covers(e, a) && StrictlyContains(p, e) &&
                          !(p.bits == 0 && IsLast(a));
      CoversInterval(e, a);
      assert IsLast(Masked(e).addr) ==> a == Masked(e).addr by { LastIsLargest(a); }
    }
    if p: Prefix, e :| PrefixText(p) in EmittedTexts(bl, ex, f) && e in exs && StrictlyContains(p, e) &&
                       !(p.bits == 0 && IsLast(Masked(e).addr)) {
      var a := Masked(e).addr;
      NetworkCovered(e);
      ExclusionFamily(bl, ex, f, e);
      assert Excluded(ex, a);
      ExcludedDropFromInput(bl, ex, out, a);
    }
  }

  /** A prefix covers its own network address. */
  lemma NetworkCovered(e: Prefix)
    ensures Covers(e, Masked(e).addr) && Masked(e).addr.fam == e.addr.fam
  {
    CoversInterval(e, Masked(e).addr);
  }

  lemma ExclusionFamily(bl: Blocklist, ex: ExclusionSet, f: Family, e: Prefix)
    requires NormalInputs(bl, ex) && e in FamilyExclusions(ex, f)
    ensures e.addr.fam == f
  {
  }

  lemma LastIsLargest(a: Addr)
    ensures a.val + 1 <= Pow2(Width(a.fam))
  {
  }

  lemma BanDropsAddress(out: Blocklist, b: Ban, a: Addr)
    requires b in FamilyBans(out, a.fam) && Drops(a.fam, b, a)
    ensures Dropped(out, a)
  {
    BansDenote(a.fam, FamilyBans(out, a.fam), a);
  }

  lemma KeptIsShorter(bs: seq<Ban>, exs: seq<Prefix>)
    ensures |Kept(bs, exs)| <= |bs|
  {
    hide Contained;
    CollectLength(KeptOf(exs), bs);
  }

  /** The comment above applyExclusions promises that it never under-drops. It does not hold: with a ban on
      0.0.0.0/1 and an exclusion of 0.0.0.0/2, nothing is filtered and the excluded 0.0.0.0 is dropped. */
  lemma WiderBanEscapes(out: Blocklist)
    requires Pipeline(WideBan(), NarrowExclusion(), out)
    ensures Excluded(NarrowExclusion(), RawAddr.Addr(V4, 0)) && Dropped(out, RawAddr.Addr(V4, 0))
  {
    hide CapOutcome, Kept, Dropped;
    var a := RawAddr.Addr(V4, 0);
    var b := Ban(WideBan().v4[0], 1);
    var exs := NarrowExclusion().v4;
    assert FamilyBans(WideBan(), V4) == [b];
    assert exs[0] in exs && Covers(exs[0], a);
    assert !Contained(b.prefix, exs);
    KeptIsShorter([b], exs);
    PipelineConserves([b], exs, FamilyBans(out, V4));
    assert b in [b];
    assert Drops(V4, b, a);
    BanDropsAddress(out, b, a);
  }

  function WideBan(): Blocklist { Blocklist([RawPrefix.Prefix(RawAddr.Addr(V4, 0), 1)], [], [1], []) }

  function NarrowExclusion(): ExclusionSet { ExclusionSet([RawPrefix.Prefix(RawAddr.Addr(V4, 0), 2)], []) }
}
