/** Loss accounting: what emitted events report about dropped events and missing
    sequence numbers, over whole runs. */
module LossTracking {
  import opened Machine

  datatype Status = Written | Spooled
  datatype Gap = Gap(first: u64, last: u64)
  datatype Report = Report(delta: u64, total: u64, gap: Option<Gap>)

  datatype Tracker = Tracker(lastDropTotal: u64, lastAccounted: Option<u64>)

  const FRESH := Tracker(0, None)

  /** `sequence_gap_before`; an accounted number of 2^64 - 1 leaves no gap to report. */
  function GapBefore(last: Option<u64>, sequence: u64): Option<Gap> {
    if last == None || last.value + 1 >= TWO_64 then None
    else if sequence > last.value + 1 then Some(Gap(last.value + 1, sequence - 1))
    else None
  }

  function SatSub(x: u64, y: u64): u64 {
    if x >= y then x - y else 0
  }

  /** The loss report `decorate` attaches, if any. */
  function ReportFor(t: Tracker, sequence: u64, total: u64): Option<Report> {
    var delta := SatSub(total, t.lastDropTotal);
    var gap := GapBefore(t.lastAccounted, sequence);
    if delta > 0 || gap.Some? then Some(Report(delta, total, gap)) else None
  }

  /** A report is due exactly for new drops or a gap; the drops it adds bring the reported sum up to the total, and
      its gap holds exactly the numbers between the last accounted one and this one. */
  lemma ReportMeaning(t: Tracker, sequence: u64, total: u64, n: u64)
    ensures var r := ReportFor(t, sequence, total);
            && (r.Some? <==> total > t.lastDropTotal || (t.lastAccounted.Some? && sequence > t.lastAccounted.value + 1))
            && (r.Some? && total >= t.lastDropTotal ==> t.lastDropTotal + r.value.delta == total == r.value.total)
            && (r.Some? && InGap(r.value.gap, n) <==> t.lastAccounted.Some? && t.lastAccounted.value < n < sequence)
  {
  }

  function Account(last: Option<u64>, sequence: u64): Option<u64> {
    Some(if last.Some? && last.value > sequence then last.value else sequence)
  }

  datatype Step = Emit(sequence: u64, total: u64, status: Status) | Skip(sequence: u64)

  function Next(t: Tracker, step: Step): Tracker {
    match step
    case Skip(sequence) => t.(lastAccounted := Account(t.lastAccounted, sequence))
    case Emit(sequence, total, status) =>
      Tracker(if ReportFor(t, sequence, total).Some? then total else t.lastDropTotal,
              if status == Written then Account(t.lastAccounted, sequence) else t.lastAccounted)
  }

  /** The tracker after a run. */
  function After(steps: seq<Step>): Tracker {
    if steps == [] then FRESH else Next(After(steps[..|steps| - 1]), steps[|steps| - 1])
  }

  /** What the event of step `i` reports. */
  function ReportAt(steps: seq<Step>, i: nat): Option<Report>
    requires i < |steps|
  {
    match steps[i]
    case Skip(_) => None
    case Emit(sequence, total, _) => ReportFor(After(steps[..i]), sequence, total)
  }

  class LossTracker {
    var lastDropTotal: u64
    var lastAccounted: Option<u64>

    ghost function State(): Tracker
      reads this
    {
      Tracker(lastDropTotal, lastAccounted)
    }

    constructor ()
      ensures State() == FRESH
    {
      lastDropTotal := 0;
      lastAccounted := None;
    }

    method Decorate(sequence: u64, total: u64) returns (report: Option<Report>)
      modifies this
      ensures report == ReportFor(old(State()), sequence, total)
      ensures lastDropTotal == (if report.Some? then total else old(lastDropTotal))
              && lastAccounted == old(lastAccounted)
    {
      var delta := SatSub(total, lastDropTotal);
      var gap := GapBefore(lastAccounted, sequence);
      report := None;
      if delta > 0 || gap.Some? {
        report := Some(Report(delta, total, gap));
        lastDropTotal := total;
      }
    }

    method AccountSequence(sequence: u64)
      modifies this`lastAccounted
      ensures lastAccounted == Account(old(lastAccounted), sequence)
    {
      lastAccounted := Account(lastAccounted, sequence);
    }

    /** `emit` as far as the tracker goes: decorate, write, account. */
    method EmitEvent(sequence: u64, total: u64, status: Status) returns (report: Option<Report>)
      modifies this
      ensures report == ReportFor(old(State()), sequence, total)
      ensures State() == Next(old(State()), Emit(sequence, total, status))
    {
      report := Decorate(sequence, total);
      if status == Written {
        AccountSequence(sequence);
      }
    }

    method AccountSkipped(sequence: u64)
      modifies this
      ensures State() == Next(old(State()), Skip(sequence))
    {
      AccountSequence(sequence);
    }
  }

  // --- Drop totals ---

  /** The drop counter never goes down during the run. */
  ghost predicate TotalsGrow(steps: seq<Step>) {
    forall i, j :: 0 <= i < j < |steps| && steps[i].Emit? && steps[j].Emit? ==> steps[i].total <= steps[j].total
  }

  ghost function ReportedDrops(steps: seq<Step>): nat {
    if steps == [] then 0
    else
      var report := ReportAt(steps, |steps| - 1);
      ReportedDrops(steps[..|steps| - 1]) + if report.Some? then report.value.delta else 0
  }

  ghost function LastTotal(steps: seq<Step>): u64 {
    if steps == [] then 0
    else match steps[|steps| - 1]
      case Emit(_, total, _) => total
      case Skip(_) => LastTotal(steps[..|steps| - 1])
  }

  lemma {:induction false} LastTotalBound(steps: seq<Step>)
    requires TotalsGrow(steps)
    ensures var last := LastTotal(steps);
            last == 0 || exists i :: 0 <= i < |steps| && steps[i].Emit? && steps[i].total == last
  {
    if steps != [] && steps[|steps| - 1].Skip? {
      var front := steps[..|steps| - 1];
      LastTotalBound(front);
      if LastTotal(front) != 0 {
        var i :| 0 <= i < |front| && front[i].Emit? && front[i].total == LastTotal(front);
        assert steps[i] == front[i];
      }
    }
  }

  /** Conservation: the reported drops add up to the counter at the last event. */
  lemma {:induction false} DropsConserved(steps: seq<Step>)
    requires TotalsGrow(steps)
    ensures ReportedDrops(steps) == LastTotal(steps) == After(steps).lastDropTotal
  {
    if steps != [] {
      var n := |steps| - 1;
      var front := steps[..n];
      DropsConserved(front);
      LastTotalBound(front);
      if steps[n].Emit? && LastTotal(front) != 0 {
        var i :| 0 <= i < |front| && front[i].Emit? && front[i].total == LastTotal(front);
        assert steps[i].total <= steps[n].total;
      }
    }
  }

  // --- Sequence numbers ---

  /** The step makes its number accounted for. */
  predicate Accounts(step: Step) {
    step.Skip? || step.status == Written
  }

  predicate AccountedBy(steps: seq<Step>, n: u64) {
    exists i :: 0 <= i < |steps| && Accounts(steps[i]) && steps[i].sequence == n
  }

  predicate InGap(gap: Option<Gap>, n: u64) {
    gap.Some? && gap.value.first <= n <= gap.value.last
  }

  /** Some event of the run reports `n` as missing. */
  predicate ReportedMissing(steps: seq<Step>, n: u64) {
    exists i :: 0 <= i < |steps| && ReportAt(steps, i).Some? && InGap(ReportAt(steps, i).value.gap, n)
  }

  /** The accounted number is the largest so far. */
  lemma {:induction false} LastIsLargest(steps: seq<Step>)
    ensures After(steps).lastAccounted == None ==> forall i :: 0 <= i < |steps| ==> !Accounts(steps[i])
    ensures var last := After(steps).lastAccounted;
            last.Some? ==>
              && AccountedBy(steps, last.value)
              && forall i :: 0 <= i < |steps| && Accounts(steps[i]) ==> steps[i].sequence <= last.value
  {
    if steps != [] {
      var n := |steps| - 1;
      var front := steps[..n];
      LastIsLargest(front);
      if After(front).lastAccounted.Some? {
        var i :| 0 <= i < |front| && Accounts(front[i]) && front[i].sequence == After(front).lastAccounted.value;
        assert steps[i] == front[i];
      }
      assert Accounts(steps[n]) ==> AccountedBy(steps, steps[n].sequence);
    }
  }

  /** No event reports as missing a number that was written or skipped before it. */
  lemma GapsAvoidAccounted(steps: seq<Step>, i: nat, j: nat)
    requires i < j < |steps| && Accounts(steps[i]) && ReportAt(steps, j).Some?
    ensures !InGap(ReportAt(steps, j).value.gap, steps[i].sequence)
  {
    LastIsLargest(steps[..j]);
    assert steps[..j][i] == steps[i];
  }

  /** A number passed over in silence: a skipped one follows it before any event does. */
  predicate SkippedOver(steps: seq<Step>, n: u64) {
    exists i :: 0 <= i < |steps| && steps[i].Skip?
          && InGap(GapBefore(After(steps[..i]).lastAccounted, steps[i].sequence), n)
  }

  lemma Extends(steps: seq<Step>, n: u64)
    requires steps != []
    ensures var front := steps[..|steps| - 1];
            && (AccountedBy(front, n) ==> AccountedBy(steps, n))
            && (ReportedMissing(front, n) ==> ReportedMissing(steps, n))
            && (SkippedOver(front, n) ==> SkippedOver(steps, n))
  {
    hide After, ReportFor, GapBefore;
    var front := steps[..|steps| - 1];
    if AccountedBy(front, n) {
      var i :| 0 <= i < |front| && Accounts(front[i]) && front[i].sequence == n;
      assert steps[i] == front[i];
    }
    if ReportedMissing(front, n) {
      var i :| 0 <= i < |front| && ReportAt(front, i).Some? && InGap(ReportAt(front, i).value.gap, n);
      assert steps[i] == front[i] && steps[..i] == front[..i];
      assert ReportAt(steps, i) == ReportAt(front, i);
    }
    if SkippedOver(front, n) {
      var i :| 0 <= i < |front| && front[i].Skip?
            && InGap(GapBefore(After(front[..i]).lastAccounted, front[i].sequence), n);
      assert steps[i] == front[i] && steps[..i] == front[..i];
    }
  }

  /** The first number a run accounts for. */
  function FirstAccounted(steps: seq<Step>): Option<u64> {
    if steps == [] then None
    else
      var before := FirstAccounted(steps[..|steps| - 1]);
      var last := steps[|steps| - 1];
      if before.Some? then before else if Accounts(last) then Some(last.sequence) else None
  }

  /** Coverage, in any order of emission: every number from the first accounted to the
      largest is written or skipped, reported missing, or passed over by a skip. */
  lemma {:induction false} EveryNumberAccountedFor(steps: seq<Step>, n: u64)
    requires After(steps).lastAccounted.Some?
    requires FirstAccounted(steps).Some? && FirstAccounted(steps).value <= n <= After(steps).lastAccounted.value
    ensures AccountedBy(steps, n) || ReportedMissing(steps, n) || SkippedOver(steps, n)
  {
    var k := |steps| - 1;
    var front, step := steps[..k], steps[k];
    var before := After(front).lastAccounted;
    FirstIffLast(front);
    if before.Some? && n <= before.value {
      EveryNumberAccountedFor(front, n);
      Extends(steps, n);
    } else {
      assert Accounts(step) && n <= step.sequence;
      if n == step.sequence {
        assert AccountedBy(steps, n);
      } else {
        assert InGap(GapBefore(before, step.sequence), n);
        if step.Emit? {
          assert ReportAt(steps, k).Some?;
        } else {
          assert SkippedOver(steps, n);
        }
      }
    }
  }

  lemma {:induction false} FirstIffLast(steps: seq<Step>)
    ensures FirstAccounted(steps).Some? <==> After(steps).lastAccounted.Some?
  {
    if steps != [] { FirstIffLast(steps[..|steps| - 1]); }
  }

  // --- Runs emitted in order, without skips ---

  /** Every step emits, with a larger number than any before it. */
  predicate InOrder(steps: seq<Step>) {
    && (forall i :: 0 <= i < |steps| ==> steps[i].Emit?)
    && (forall i, j :: 0 <= i < j < |steps| ==> steps[i].sequence < steps[j].sequence)
  }

  /** A written line of the run reports `n` as missing. */
  predicate InWrittenGap(steps: seq<Step>, i: nat, n: u64)
    requires i < |steps|
  {
    Accounts(steps[i]) && ReportAt(steps, i).Some? && InGap(ReportAt(steps, i).value.gap, n)
  }

  /** Tiling: between the first and the last written line, every number is either the
      number of one written line or in the gap of exactly one written line. */
  lemma {:induction false} WrittenLinesTile(steps: seq<Step>, n: u64)
    requires InOrder(steps) && After(steps).lastAccounted.Some?
    requires FirstAccounted(steps).Some? && FirstAccounted(steps).value <= n <= After(steps).lastAccounted.value
    ensures AccountedBy(steps, n) != exists i :: 0 <= i < |steps| && InWrittenGap(steps, i, n)
    ensures forall i, j :: 0 <= i < j < |steps| && InWrittenGap(steps, i, n) ==> !InWrittenGap(steps, j, n)
  {
    forall i, j | 0 <= i < j < |steps| && InWrittenGap(steps, i, n) ensures !InWrittenGap(steps, j, n) {
      LastIsLargest(steps[..j]);
      assert steps[..j][i] == steps[i];
    }
    if AccountedBy(steps, n) {
      var i :| 0 <= i < |steps| && Accounts(steps[i]) && steps[i].sequence == n;
      forall j | 0 <= j < |steps| ensures !InWrittenGap(steps, j, n) {
        if i < j && ReportAt(steps, j).Some? { GapsAvoidAccounted(steps, i, j); }
      }
    } else {
      SomeWrittenGap(steps, n);
    }
  }

  lemma {:induction false} FirstIsAccounted(steps: seq<Step>)
    ensures FirstAccounted(steps).Some? ==> AccountedBy(steps, FirstAccounted(steps).value)
  {
    if steps != [] {
      var front := steps[..|steps| - 1];
      FirstIsAccounted(front);
      if FirstAccounted(front).Some? {
        var i :| 0 <= i < |front| && Accounts(front[i]) && front[i].sequence == FirstAccounted(front).value;
        assert steps[i] == front[i];
      }
    }
  }

  /** The first accounted number above `n`. */
  lemma {:induction false} FirstAbove(steps: seq<Step>, i: nat, n: u64) returns (first: nat)
    requires i < |steps| && Accounts(steps[i]) && steps[i].sequence > n
    ensures first < |steps| && Accounts(steps[first]) && steps[first].sequence > n
    ensures forall k :: 0 <= k < first && Accounts(steps[k]) ==> steps[k].sequence <= n
    decreases i
  {
    first := i;
    if k :| 0 <= k < i && Accounts(steps[k]) && steps[k].sequence > n {
      first := FirstAbove(steps, k, n);
    }
  }

  lemma SomeWrittenGap(steps: seq<Step>, n: u64)
    requires InOrder(steps) && After(steps).lastAccounted.Some?
    requires FirstAccounted(steps).Some? && FirstAccounted(steps).value <= n <= After(steps).lastAccounted.value
    requires !AccountedBy(steps, n)
    ensures exists i :: 0 <= i < |steps| && InWrittenGap(steps, i, n)
  {
    LastIsLargest(steps);
    FirstIsAccounted(steps);
    hide After, FirstAccounted, ReportFor;
    var i :| 0 <= i < |steps| && Accounts(steps[i]) && steps[i].sequence == After(steps).lastAccounted.value;
    var k :| 0 <= k < |steps| && Accounts(steps[k]) && steps[k].sequence == FirstAccounted(steps).value;
    var first := FirstAbove(steps, i, n);
    assert k < first;
    ReportsWhatItLeaves(steps, first, n);
    assert InWrittenGap(steps, first, n);
  }

  /** Out of order the disjointness fails: a number reported missing can be written later. */
  lemma ReportedThenWritten()
    ensures var steps := [Emit(1, 0, Written), Emit(3, 0, Written), Emit(2, 0, Written)];
            InWrittenGap(steps, 1, 2) && AccountedBy(steps, 2)
  {
    var steps := [Emit(1, 0, Written), Emit(3, 0, Written), Emit(2, 0, Written)];
    assert steps[..0] == [];
    assert steps[..1] == [Emit(1, 0, Written)];
    assert steps[..1][..0] == [];
    assert After(steps[..1]) == Tracker(0, Some(1));
    assert ReportAt(steps, 1) == Some(Report(0, 0, Some(Gap(2, 2))));
    assert Accounts(steps[2]) && steps[2].sequence == 2;
  }

  /** So can one above every number accounted for, once an event that was only spooled has reported it. */
  lemma SpooledThenWritten()
    ensures var steps := [Emit(1, 0, Written), Emit(5, 0, Spooled), Emit(3, 0, Written)];
            ReportedMissing(steps[..2], 3) && After(steps[..2]).lastAccounted == Some(1) && AccountedBy(steps, 3)
  {
    var steps := [Emit(1, 0, Written), Emit(5, 0, Spooled), Emit(3, 0, Written)];
    var two := steps[..2];
    assert two == [Emit(1, 0, Written), Emit(5, 0, Spooled)] && two[..1] == [Emit(1, 0, Written)]
          && two[..1][..0] == [];
    assert After(two[..1]) == Tracker(0, Some(1));
    assert ReportAt(two, 1) == Some(Report(0, 0, Some(Gap(2, 4))));
    assert Accounts(steps[2]) && steps[2].sequence == 3;
  }

  /** The event of step `i` leaves `n` behind: it comes after some accounted number, all of them below `n`, and has a
      larger number itself. */
  ghost predicate LeavesBehind(steps: seq<Step>, i: nat, n: u64)
    requires i < |steps|
  {
    && steps[i].Emit? && n < steps[i].sequence
    && (exists k :: 0 <= k < i && Accounts(steps[k]))
    && (forall k :: 0 <= k < i && Accounts(steps[k]) ==> steps[k].sequence < n)
  }

  /** The numbers an event reports are those it leaves behind, whatever was written, spooled or skipped before. */
  lemma ReportsWhatItLeaves(steps: seq<Step>, i: nat, n: u64)
    requires i < |steps|
    ensures ReportAt(steps, i).Some? && InGap(ReportAt(steps, i).value.gap, n) <==> LeavesBehind(steps, i, n)
  {
    var before := steps[..i];
    LastIsLargest(before);
    assert forall k :: 0 <= k < i ==> before[k] == steps[k];
    if steps[i].Emit? {
      ReportMeaning(After(before), steps[i].sequence, steps[i].total, n);
    }
    hide After, ReportFor;
  }

  /** A number is reported missing in a run exactly when some event leaves it behind. */
  lemma MissingExactly(steps: seq<Step>, n: u64)
    ensures ReportedMissing(steps, n) <==> exists i :: 0 <= i < |steps| && LeavesBehind(steps, i, n)
  {
    hide LeavesBehind, ReportAt, InGap;
    forall i | 0 <= i < |steps|
      ensures ReportAt(steps, i).Some? && InGap(ReportAt(steps, i).value.gap, n) <==> LeavesBehind(steps, i, n)
    {
      ReportsWhatItLeaves(steps, i, n);
    }
  }

  /** A line written now was reported missing before exactly when an earlier event left its number behind. */
  lemma WrittenLate(steps: seq<Step>, j: nat)
    requires j < |steps| && steps[j].Emit? && steps[j].status == Written
    ensures ReportedMissing(steps[..j], steps[j].sequence) <==>
              exists i :: 0 <= i < j && LeavesBehind(steps, i, steps[j].sequence)
  {
    var n, front := steps[j].sequence, steps[..j];
    MissingExactly(front, n);
    assert forall i :: 0 <= i < j ==> front[i] == steps[i];
    assert forall i :: 0 <= i < j ==> (LeavesBehind(front, i, n) <==> LeavesBehind(steps, i, n));
  }

  /** An event with a larger number than `n`, after some number was accounted for. */
  ghost predicate Passes(steps: seq<Step>, i: nat, n: u64)
    requires i < |steps|
  {
    steps[i].sequence > n && exists k :: 0 <= k < i && Accounts(steps[k])
  }

  lemma {:induction false} FirstAccountedIs(steps: seq<Step>, k: nat)
    requires k < |steps| && Accounts(steps[k]) && forall m :: 0 <= m < k ==> !Accounts(steps[m])
    ensures FirstAccounted(steps) == Some(steps[k].sequence)
  {
    var n := |steps| - 1;
    if k < n {
      FirstAccountedIs(steps[..n], k);
    } else {
      FirstIffLast(steps[..n]);
      LastIsLargest(steps[..n]);
    }
  }

  /** Without skips, the first event to pass a number above the first accounted one leaves it behind. */
  lemma {:induction false} PassedIsLeft(steps: seq<Step>, i: nat, n: u64) returns (first: nat)
    requires i < |steps| && Passes(steps, i, n) && forall m :: 0 <= m < |steps| ==> steps[m].Emit?
    requires FirstAccounted(steps).Some? && FirstAccounted(steps).value <= n && !AccountedBy(steps, n)
    ensures first < |steps| && LeavesBehind(steps, first, n)
    decreases i
  {
    first := i;
    if k :| 0 <= k < i && Accounts(steps[k]) && steps[k].sequence >= n {
      if forall m :: 0 <= m < k ==> !Accounts(steps[m]) {
        FirstAccountedIs(steps, k);
      }
      first := PassedIsLeft(steps, k, n);
    }
  }

  /** Without skips, a number above the first accounted one and not accounted for itself is reported missing exactly
      when a larger number is emitted after that first one. */
  lemma MissingWithoutSkips(steps: seq<Step>, n: u64)
    requires forall i :: 0 <= i < |steps| ==> steps[i].Emit?
    requires FirstAccounted(steps).Some? && FirstAccounted(steps).value <= n && !AccountedBy(steps, n)
    ensures ReportedMissing(steps, n) <==> exists i :: 0 <= i < |steps| && Passes(steps, i, n)
  {
    MissingExactly(steps, n);
    if i :| 0 <= i < |steps| && Passes(steps, i, n) {
      var first := PassedIsLeft(steps, i, n);
    }
    assert forall i :: 0 <= i < |steps| && LeavesBehind(steps, i, n) ==> Passes(steps, i, n);
  }

  // --- Replay ---

  /** `normalize` in a deterministic replay: events are numbered 1, 2, 3, ..., while skips keep their own numbers. */
  function Renumbered(steps: seq<Step>): seq<Step> {
    seq(|steps|, i requires 0 <= i < |steps| => ReplayStep(steps, i))
  }

  function ReplayStep(steps: seq<Step>, i: nat): Step
    requires i < |steps|
  {
    match steps[i]
    case Skip(sequence) => Skip(sequence)
    case Emit(_, total, status) => Emit(ReplayNumber(steps, i), total, status)
  }

  function Emitted(steps: seq<Step>): nat {
    if steps == [] then 0 else Emitted(steps[..|steps| - 1]) + if steps[|steps| - 1].Emit? then 1 else 0
  }

  /** The number of the event of step `i`; the counter saturates. */
  function ReplayNumber(steps: seq<Step>, i: nat): u64
    requires i < |steps|
  {
    var n := Emitted(steps[..i]) + 1;
    if n < TWO_64 then n else U64_MAX
  }

  /** The event of step `j` reports a gap. */
  predicate GapAt(steps: seq<Step>, j: nat)
    requires j < |steps|
  {
    ReportAt(steps, j).Some? && ReportAt(steps, j).value.gap.Some?
  }

  /** An event of a replay reports a gap exactly when something was accounted for before it, and everything that was
      has a number smaller by more than one. */
  lemma ReplayGapExactly(steps: seq<Step>, j: nat)
    requires j < |steps| && steps[j].Emit?
    ensures var r := Renumbered(steps);
            GapAt(r, j) <==>
            && (exists k :: 0 <= k < j && Accounts(steps[k]))
            && (forall k :: 0 <= k < j && Accounts(steps[k]) ==> r[k].sequence + 1 < ReplayNumber(steps, j))
  {
    var r := Renumbered(steps);
    LastIsLargest(r[..j]);
    assert forall k :: 0 <= k < j ==> r[..j][k] == r[k] && Accounts(r[k]) == Accounts(steps[k]);
    hide After, ReplayNumber;
  }

  predicate WrittenEvent(step: Step) {
    step.Emit? && step.status == Written
  }

  predicate WrittenBefore(steps: seq<Step>, j: nat)
    requires j <= |steps|
  {
    exists k :: 0 <= k < j && WrittenEvent(steps[k])
  }

  predicate SkippedBefore(steps: seq<Step>, j: nat)
    requires j <= |steps|
  {
    exists k :: 0 <= k < j && steps[k].Skip?
  }

  /** A skip before step `j` has a number that the replay has not passed when it gets there. */
  predicate SkipAhead(steps: seq<Step>, j: nat)
    requires j < |steps|
  {
    exists k :: 0 <= k < j && steps[k].Skip? && steps[k].sequence + 1 >= ReplayNumber(steps, j)
  }

  /** Between the last written event of the replay and the event of step `j`, a number is missing. */
  predicate EventLost(steps: seq<Step>, j: nat)
    requires j < |steps|
  {
    && WrittenBefore(steps, j)
    && (forall k :: 0 <= k < j && WrittenEvent(steps[k]) ==> ReplayNumber(steps, k) + 1 < ReplayNumber(steps, j))
  }

  lemma {:induction false} EmittedBetween(steps: seq<Step>, k: nat, j: nat)
    requires k < j <= |steps| && steps[k].Emit?
    ensures Emitted(steps[..j]) > Emitted(steps[..k])
    ensures Emitted(steps[..j]) > Emitted(steps[..k]) + 1 <==> exists e :: k < e < j && steps[e].Emit?
  {
    assert steps[..j][..j - 1] == steps[..j - 1];
    if k < j - 1 {
      EmittedBetween(steps, k, j - 1);
      assert (exists e :: k < e < j && steps[e].Emit?) <==>
        steps[j - 1].Emit? || exists e :: k < e < j - 1 && steps[e].Emit?;
    }
  }

  /** That is: some event was written, and every written one was followed by another event before this one, so that
      the last event was not written. Past number 2^64 - 3 the counter has no room left to show a loss. */
  lemma LostMeans(steps: seq<Step>, j: nat)
    requires j < |steps|
    ensures EventLost(steps, j) <==>
            && WrittenBefore(steps, j)
            && (forall k :: 0 <= k < j && WrittenEvent(steps[k]) ==>
              Emitted(steps[..k]) + 3 < TWO_64 && exists e :: k < e < j && steps[e].Emit?)
  {
    forall k | 0 <= k < j && WrittenEvent(steps[k])
      ensures ReplayNumber(steps, k) + 1 < ReplayNumber(steps, j) <==>
              Emitted(steps[..k]) + 3 < TWO_64 && exists e :: k < e < j && steps[e].Emit?
    {
      EmittedBetween(steps, k, j);
      hide Emitted;
    }
    hide Emitted, ReplayNumber;
  }

  /** The report of an event in terms of the skips before it. */
  lemma ReplayGapBySkips(steps: seq<Step>, j: nat)
    requires j < |steps| && steps[j].Emit?
    ensures GapAt(Renumbered(steps), j) <==>
            && !SkipAhead(steps, j)
            && (if WrittenBefore(steps, j) then EventLost(steps, j) else SkippedBefore(steps, j))
  {
    ReplayGapExactly(steps, j);
    hide GapAt, ReplayNumber;
    var r := Renumbered(steps);
    forall k | 0 <= k < j
      ensures Accounts(steps[k]) <==> WrittenEvent(steps[k]) || steps[k].Skip?
      ensures r[k].sequence == if steps[k].Skip? then steps[k].sequence else ReplayNumber(steps, k)
    {
    }
  }

  /** A lost event goes unreported exactly while the replay has not passed some skip. */
  lemma ReplayHidesGaps(steps: seq<Step>, j: nat)
    requires j < |steps| && steps[j].Emit?
    ensures EventLost(steps, j) ==> (!GapAt(Renumbered(steps), j) <==> SkipAhead(steps, j))
  {
    ReplayGapBySkips(steps, j);
    hide GapAt, SkipAhead;
  }

  /** An event of a replay reports a gap exactly for a lost event, if and only if no skip is ahead where one was lost
      and, where skips but no written event came before, one of them still is. */
  lemma ReplayGaps(steps: seq<Step>, j: nat)
    requires j < |steps| && steps[j].Emit?
    ensures (GapAt(Renumbered(steps), j) <==> EventLost(steps, j)) <==>
            && (EventLost(steps, j) ==> !SkipAhead(steps, j))
            && (SkippedBefore(steps, j) && !WrittenBefore(steps, j) ==> SkipAhead(steps, j))
  {
    ReplayGapBySkips(steps, j);
    hide GapAt, SkipAhead;
  }

  /** A lost event that no later event reports: the second one here. */
  lemma SkipHidesLoss()
    ensures var steps := [Emit(1, 0, Written), Skip(10), Emit(2, 0, Spooled), Emit(3, 0, Written)];
            EventLost(steps, 3) && !GapAt(Renumbered(steps), 3)
  {
    var steps := [Emit(1, 0, Written), Skip(10), Emit(2, 0, Spooled), Emit(3, 0, Written)];
    var two := [Emit(1, 0, Written), Skip(10)];
    assert steps[..0] == [] && steps[..1] == [steps[0]] && steps[..1][..0] == [];
    assert steps[..2] == two && two[..1] == steps[..1] && steps[..3][..2] == two;
    assert Emitted(steps[..1]) == 1 && Emitted(steps[..2]) == 1 && Emitted(steps[..3]) == 2;
    assert steps[1].Skip?;
    assert WrittenEvent(steps[0]);
    ReplayHidesGaps(steps, 3);
  }

  /** A gap reported before anything was written: the skipped number stands for no event of the replay. */
  lemma SkipInventsGap()
    ensures var steps := [Skip(1), Emit(1, 0, Spooled), Emit(2, 0, Spooled), Emit(3, 0, Written)];
            !WrittenBefore(steps, 3) && GapAt(Renumbered(steps), 3)
  {
    var steps := [Skip(1), Emit(1, 0, Spooled), Emit(2, 0, Spooled), Emit(3, 0, Written)];
    var two := [Skip(1), Emit(1, 0, Spooled)];
    assert steps[..0] == [] && steps[..1] == [steps[0]] && steps[..1][..0] == [];
    assert steps[..2] == two && two[..1] == steps[..1] && steps[..3][..2] == two;
    assert Emitted(steps[..1]) == 0 && Emitted(steps[..2]) == 1 && Emitted(steps[..3]) == 2;
    assert steps[0].Skip?;
    ReplayGapBySkips(steps, 3);
  }
}
