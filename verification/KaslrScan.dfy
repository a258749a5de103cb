/** Finding the kernel's load slide by probing anchor bytes at candidate addresses. */
module KaslrScan {
  import opened Machine
  import opened Division

  datatype Anchor = Anchor(symbol: string, bytes: seq<int>, maxSlide: nat, step: nat)
  datatype Mode = Fixed | SlideKnown(slide: nat) | Unknown
  datatype Profile = Profile(mode: Mode, anchors: seq<Anchor>, symbols: map<string, nat>)

  /** A read of guest memory: the bytes, or nothing there, or a failure that ends the scan. */
  datatype Read = Bytes(bytes: seq<int>) | Absent | Broken
  type Memory = (nat, nat) -> Read

  datatype Fault = MissingSymbol | Overflow | BrokenRead
  datatype Error = Unsupported | ZeroStep | NoMatch | ManyMatches | Faulted(fault: Fault)
  datatype Resolution = Found(slide: nat, anchorsChecked: nat) | Failed(error: Error)

  // --- What a slide must satisfy ---

  predicate Applies(a: Anchor, s: nat)
    requires a.step > 0
  {
    s <= a.maxSlide && s % a.step == 0
  }

  lemma AppliesExactly(a: Anchor, s: nat)
    requires a.step > 0
    ensures Applies(a, s) <==> !(s > a.maxSlide || s % a.step != 0)
  {
  }

  /** The fault probing one anchor at one slide would meet. */
  predicate FaultAt(p: Profile, memory: Memory, a: Anchor, s: nat, fault: Fault) {
    match fault
    case MissingSymbol => a.symbol !in p.symbols
    case Overflow => a.symbol in p.symbols && p.symbols[a.symbol] + s > U64_MAX
    case BrokenRead =>
      && a.symbol in p.symbols && p.symbols[a.symbol] + s <= U64_MAX
      && memory(p.symbols[a.symbol] + s, |a.bytes|) == Broken
  }

  predicate Holds(p: Profile, memory: Memory, a: Anchor, s: nat) {
    a.symbol in p.symbols && p.symbols[a.symbol] + s <= U64_MAX
          && memory(p.symbols[a.symbol] + s, |a.bytes|) == Bytes(a.bytes)
  }

  predicate Stepped(p: Profile) {
    forall i :: 0 <= i < |p.anchors| ==> p.anchors[i].step > 0
  }

  /** Every anchor allows the slide and finds its bytes there. */
  ghost predicate IsMatch(p: Profile, memory: Memory, s: nat)
    requires Stepped(p)
  {
    forall i :: 0 <= i < |p.anchors| ==> Applies(p.anchors[i], s) && Holds(p, memory, p.anchors[i], s)
  }

  ghost predicate FaultySlide(p: Profile, memory: Memory, s: nat, fault: Fault)
    requires Stepped(p)
  {
    exists i :: 0 <= i < |p.anchors| && Applies(p.anchors[i], s) && FaultAt(p, memory, p.anchors[i], s, fault)
  }

  /** The first anchor to meet a fault at the slide meets this one. */
  ghost predicate FirstFault(p: Profile, memory: Memory, s: nat, fault: Fault)
    requires Stepped(p)
  {
    exists i :: 0 <= i < |p.anchors| && FirstFaultAt(p, memory, i, s, fault)
  }

  ghost predicate FirstFaultAt(p: Profile, memory: Memory, i: nat, s: nat, fault: Fault)
    requires Stepped(p) && i < |p.anchors|
  {
    && Applies(p.anchors[i], s) && FaultAt(p, memory, p.anchors[i], s, fault)
    && forall j, f :: 0 <= j < i && Applies(p.anchors[j], s) ==> !FaultAt(p, memory, p.anchors[j], s, f)
  }

  lemma OneFirstFault(p: Profile, memory: Memory, s: nat, fault: Fault, other: Fault)
    requires Stepped(p) && FirstFault(p, memory, s, fault) && FirstFault(p, memory, s, other)
    ensures fault == other
  {
    hide Applies;
    var i :| 0 <= i < |p.anchors| && FirstFaultAt(p, memory, i, s, fault);
    var j :| 0 <= j < |p.anchors| && FirstFaultAt(p, memory, j, s, other);
    assert i == j;
  }

  lemma FaultIsNoMatch(p: Profile, memory: Memory, s: nat, fault: Fault)
    requires Stepped(p) && FirstFault(p, memory, s, fault)
    ensures FaultySlide(p, memory, s, fault) && !IsMatch(p, memory, s)
  {
    hide Applies;
    var i :| 0 <= i < |p.anchors| && FirstFaultAt(p, memory, i, s, fault);
    assert !Holds(p, memory, p.anchors[i], s);
  }

  /** The finest step is an anchor's own step, so every slide all anchors allow is one of its multiples. */
  ghost predicate IsLeastStep(p: Profile, step: nat) {
    && (forall i :: 0 <= i < |p.anchors| ==> step <= p.anchors[i].step)
    && exists i :: 0 <= i < |p.anchors| && p.anchors[i].step == step
  }

  ghost predicate IsGreatestSlide(p: Profile, m: nat) {
    && (forall i :: 0 <= i < |p.anchors| ==> p.anchors[i].maxSlide <= m)
    && exists i :: 0 <= i < |p.anchors| && p.anchors[i].maxSlide == m
  }

  lemma MatchIsScanned(p: Profile, memory: Memory, s: nat, step: nat, m: nat)
    requires Stepped(p) && IsLeastStep(p, step) && IsGreatestSlide(p, m) && IsMatch(p, memory, s)
    ensures step > 0 && s % step == 0 && s <= m
  {
    hide Holds;
    var i :| 0 <= i < |p.anchors| && p.anchors[i].step == step;
    assert Applies(p.anchors[i], s);
  }

  // --- The scan ---

  /** How many of the first `n` anchors apply at a slide. */
  function Applicable(anchors: seq<Anchor>, n: nat, s: nat): nat
    requires n <= |anchors| && forall i :: 0 <= i < |anchors| ==> anchors[i].step > 0
  {
    if n == 0 then 0 else Applicable(anchors, n - 1, s) + if Applies(anchors[n - 1], s) then 1 else 0
  }

  /** All the probes at the first `k` multiples of `step`. */
  function Probes(anchors: seq<Anchor>, step: nat, k: nat): nat
    requires forall i :: 0 <= i < |anchors| ==> anchors[i].step > 0
  {
    if k == 0 then 0 else Probes(anchors, step, k - 1) + Applicable(anchors, |anchors|, (k - 1) * step)
  }

  datatype Verdict = Clear(allMatch: bool, checked: nat) | Stopped(fault: Fault)

  /** One probe: a fault, or whether the bytes are there. */
  method ProbeAnchor(p: Profile, memory: Memory, a: Anchor, s: nat) returns (v: Verdict)
    ensures v.Stopped? ==> FaultAt(p, memory, a, s, v.fault)
    ensures v.Clear? ==>
              (forall f :: !FaultAt(p, memory, a, s, f)) && (v.allMatch <==> Holds(p, memory, a, s)) && v.checked == 1
  {
    if a.symbol !in p.symbols { return Stopped(MissingSymbol); }
    var address := p.symbols[a.symbol] + s;
    if address > U64_MAX { return Stopped(Overflow); }
    var read := memory(address, |a.bytes|);
    if read == Broken { return Stopped(BrokenRead); }
    v := Clear(read == Bytes(a.bytes), 1);
  }

  /** The inner loop: probe every anchor that applies at one slide. */
  method ProbeSlide(p: Profile, memory: Memory, s: nat) returns (v: Verdict)
    requires Stepped(p)
    ensures v.Stopped? ==> FirstFault(p, memory, s, v.fault)
    ensures v.Clear? ==> (forall f :: !FaultySlide(p, memory, s, f)) && (v.allMatch <==> IsMatch(p, memory, s))
    ensures v.Clear? ==> v.checked == Applicable(p.anchors, |p.anchors|, s)
  {
    hide FaultAt, Holds, Applies;
    var allMatch, checked := true, 0;
    for i := 0 to |p.anchors|
      invariant checked == Applicable(p.anchors, i, s)
      invariant allMatch <==> forall j :: 0 <= j < i ==> Applies(p.anchors[j], s) && Holds(p, memory, p.anchors[j], s)
      invariant forall j, f :: 0 <= j < i && Applies(p.anchors[j], s) ==> !FaultAt(p, memory, p.anchors[j], s, f)
    {
      var a := p.anchors[i];
      AppliesExactly(a, s);
      if s > a.maxSlide || s % a.step != 0 {
        allMatch := false;
      } else {
        var one := ProbeAnchor(p, memory, a, s);
        if one.Stopped? {
          assert FirstFaultAt(p, memory, i, s, one.fault);
          return one;
        }
        allMatch, checked := allMatch && one.allMatch, checked + 1;
      }
    }
    v := Clear(allMatch, checked);
  }

  method Bounds(p: Profile) returns (step: nat, m: nat)
    requires p.anchors != []
    ensures IsLeastStep(p, step) && IsGreatestSlide(p, m)
  {
    step, m := p.anchors[0].step, p.anchors[0].maxSlide;
    for i := 1 to |p.anchors|
      invariant forall j :: 0 <= j < i ==> step <= p.anchors[j].step && p.anchors[j].maxSlide <= m
      invariant exists j :: 0 <= j < i && p.anchors[j].step == step
      invariant exists j :: 0 <= j < i && p.anchors[j].maxSlide == m
    {
      if p.anchors[i].step < step { step := p.anchors[i].step; }
      if p.anchors[i].maxSlide > m { m := p.anchors[i].maxSlide; }
    }
  }

  // --- The answer ---

  /** No slide the scan visits before `n` meets a fault. */
  ghost predicate NoFaultBelow(p: Profile, memory: Memory, step: nat, n: nat)
    requires Stepped(p) && step > 0
  {
    forall s, f :: 0 <= s < n && s % step == 0 ==> !FaultySlide(p, memory, s, f)
  }

  /** The scan stops at `s`: a fault there, none before, and no two matches before. */
  ghost predicate StopsAt(p: Profile, memory: Memory, step: nat, s: nat, fault: Fault)
    requires Stepped(p) && step > 0
  {
    && s % step == 0 && FirstFault(p, memory, s, fault) && NoFaultBelow(p, memory, step, s)
    && forall a: nat, b: nat :: a < b < s ==> !IsMatch(p, memory, a) || !IsMatch(p, memory, b)
  }

  /** Two matches, and no fault before the second. */
  ghost predicate Twice(p: Profile, memory: Memory, step: nat, s: nat, t: nat)
    requires Stepped(p) && step > 0
  {
    s < t && IsMatch(p, memory, s) && IsMatch(p, memory, t) && NoFaultBelow(p, memory, step, t)
  }

  ghost predicate OnlyMatch(p: Profile, memory: Memory, s: nat)
    requires Stepped(p)
  {
    IsMatch(p, memory, s) && forall t: nat :: IsMatch(p, memory, t) ==> t == s
  }

  ghost predicate Answers(p: Profile, memory: Memory, step: nat, m: nat, r: Resolution)
    requires Stepped(p) && step > 0
  {
    match r
    case Found(slide, checked) =>
      && NoFaultBelow(p, memory, step, m + 1) && OnlyMatch(p, memory, slide)
      && checked == Probes(p.anchors, step, m / step + 1)
    case Failed(NoMatch) => NoFaultBelow(p, memory, step, m + 1) && forall s: nat :: !IsMatch(p, memory, s)
    case Failed(ManyMatches) => exists s: nat, t: nat :: Twice(p, memory, step, s, t)
    case Failed(Faulted(fault)) => exists s: nat :: s <= m && StopsAt(p, memory, step, s, fault)
    case _ => false
  }

  lemma StopsOnce(p: Profile, memory: Memory, step: nat, s: nat, fault: Fault, t: nat, other: Fault)
    requires Stepped(p) && step > 0 && StopsAt(p, memory, step, s, fault) && StopsAt(p, memory, step, t, other)
    ensures fault == other
  {
    hide FirstFault, FaultySlide, IsMatch;
    FaultIsNoMatch(p, memory, s, fault);
    FaultIsNoMatch(p, memory, t, other);
    assert s == t;
    OneFirstFault(p, memory, s, fault, other);
  }

  lemma StopsOrTwice(p: Profile, memory: Memory, step: nat, s: nat, fault: Fault, a: nat, b: nat)
    requires Stepped(p) && step > 0 && StopsAt(p, memory, step, s, fault)
    ensures !Twice(p, memory, step, a, b)
  {
    hide FirstFault, FaultySlide, IsMatch;
    FaultIsNoMatch(p, memory, s, fault);
  }

  lemma StopsOrClear(p: Profile, memory: Memory, step: nat, m: nat, s: nat, fault: Fault)
    requires Stepped(p) && step > 0 && s <= m && StopsAt(p, memory, step, s, fault)
    ensures !NoFaultBelow(p, memory, step, m + 1)
  {
    hide FirstFault, FaultySlide, IsMatch;
    FaultIsNoMatch(p, memory, s, fault);
  }

  /** A profile and a memory have one answer. */
  lemma OneAnswer(p: Profile, memory: Memory, step: nat, m: nat, r: Resolution, other: Resolution)
    requires Stepped(p) && step > 0 && Answers(p, memory, step, m, r) && Answers(p, memory, step, m, other)
    ensures r == other
  {
    hide StopsAt, NoFaultBelow, IsMatch, FaultySlide, Probes;
    if r.Failed? && r.error.Faulted? {
      FaultDecides(p, memory, step, m, r.error.fault, other);
    } else if other.Failed? && other.error.Faulted? {
      FaultDecides(p, memory, step, m, other.error.fault, r);
    }
  }

  lemma FaultDecides(p: Profile, memory: Memory, step: nat, m: nat, fault: Fault, r: Resolution)
    requires Stepped(p) && step > 0 && Answers(p, memory, step, m, r)
    requires Answers(p, memory, step, m, Failed(Faulted(fault)))
    ensures r == Failed(Faulted(fault))
  {
    hide StopsAt, NoFaultBelow, IsMatch, FaultySlide, Twice, OnlyMatch, Probes;
    var s: nat :| s <= m && StopsAt(p, memory, step, s, fault);
    StopsOrClear(p, memory, step, m, s, fault);
    forall a: nat, b: nat ensures !Twice(p, memory, step, a, b) {
      StopsOrTwice(p, memory, step, s, fault, a, b);
    }
    if r.Failed? && r.error.Faulted? {
      var t: nat :| t <= m && StopsAt(p, memory, step, t, r.error.fault);
      StopsOnce(p, memory, step, s, fault, t, r.error.fault);
    }
  }

  /** The answer, and there is no other: each case holds exactly when it is given. */
  ghost predicate OnlyAnswer(p: Profile, memory: Memory, step: nat, m: nat, r: Resolution)
    requires Stepped(p) && step > 0
  {
    forall other :: Answers(p, memory, step, m, other) <==> other == r
  }

  lemma IsOnlyAnswer(p: Profile, memory: Memory, step: nat, m: nat, r: Resolution)
    requires Stepped(p) && step > 0 && Answers(p, memory, step, m, r)
    ensures OnlyAnswer(p, memory, step, m, r)
  {
    hide Answers;
    forall other | Answers(p, memory, step, m, other) ensures other == r {
      OneAnswer(p, memory, step, m, r, other);
    }
  }

  lemma NextMultiple(slide: nat, step: nat, s: nat)
    requires step > 0 && slide % step == 0 && s % step == 0 && slide <= s < slide + step
    ensures s == slide
  {
    assert slide == (slide / step) * step;
    DivUnique(s, step, slide / step, s - slide);
  }

  /** What the scan has found when it stops at `slide`. */
  ghost predicate Seen(p: Profile, memory: Memory, step: nat, slide: nat, found: bool, matched: nat)
    requires Stepped(p) && step > 0
  {
    && NoFaultBelow(p, memory, step, slide)
    && (forall s :: 0 <= s < slide && s % step == 0 && IsMatch(p, memory, s) ==> found && s == matched)
    && (found ==> matched < slide && IsMatch(p, memory, matched))
  }

  lemma SeenNext(p: Profile, memory: Memory, step: nat, slide: nat, found: bool, matched: nat, here: bool)
    requires Stepped(p) && step > 0 && slide % step == 0 && Seen(p, memory, step, slide, found, matched)
    requires forall f :: !FaultySlide(p, memory, slide, f)
    requires here <==> IsMatch(p, memory, slide)
    requires !(here && found)
    ensures Seen(p, memory, step, slide + step, found || here, if here then slide else matched)
  {
    hide FaultySlide, IsMatch;
    forall s | 0 <= s < slide + step && s % step == 0 ensures s < slide || s == slide {
      if s >= slide {
        NextMultiple(slide, step, s);
      }
    }
  }

  /** Past the greatest slide, what was seen is all there is. */
  lemma SeenAll(p: Profile, memory: Memory, step: nat, m: nat, slide: nat, found: bool, matched: nat)
    requires Stepped(p) && step > 0 && IsLeastStep(p, step) && IsGreatestSlide(p, m) && slide > m
    requires Seen(p, memory, step, slide, found, matched)
    ensures NoFaultBelow(p, memory, step, m + 1)
    ensures found ==> OnlyMatch(p, memory, matched)
    ensures !found ==> forall s: nat :: !IsMatch(p, memory, s)
  {
    hide IsMatch, FaultySlide, IsLeastStep, IsGreatestSlide;
    forall s: nat | IsMatch(p, memory, s) ensures s % step == 0 && s < slide {
      MatchIsScanned(p, memory, s, step, m);
    }
  }

  /** The outer loop over the multiples of the least step, up to the greatest slide. Its answer is the only one. */
  method Scan(p: Profile, memory: Memory, step: nat, m: nat) returns (r: Resolution)
    requires Stepped(p) && step > 0 && IsLeastStep(p, step) && IsGreatestSlide(p, m)
    ensures OnlyAnswer(p, memory, step, m, r)
  {
    hide IsMatch, FaultySlide, Seen, NoFaultBelow, StopsAt, Twice, OnlyMatch, Applicable, OnlyAnswer;
    var found, matched, checked := false, 0, 0;
    var slide := 0;
    ghost var k: nat := 0;
    SeenNothing(p, memory, step);
    while slide <= m
      invariant 0 <= slide == k * step && slide % step == 0
      invariant k > 0 ==> (k - 1) * step <= m
      invariant Seen(p, memory, step, slide, found, matched)
      invariant checked == Probes(p.anchors, step, k)
      decreases m + step - slide
    {
      var v := ProbeSlide(p, memory, slide);
      if v.Stopped? {
        FaultMet(p, memory, step, m, slide, found, matched, v.fault);
        IsOnlyAnswer(p, memory, step, m, Failed(Faulted(v.fault)));
        return Failed(Faulted(v.fault));
      }
      checked := checked + v.checked;
      if v.allMatch && found {
        SecondMatch(p, memory, step, slide, matched);
        IsOnlyAnswer(p, memory, step, m, Failed(ManyMatches));
        return Failed(ManyMatches);
      }
      SeenNext(p, memory, step, slide, found, matched, v.allMatch);
      if v.allMatch {
        found, matched := true, slide;
      }
      assert (k + 1) * step == slide + step;
      ModAdd(k + 1, step, 0);
      k, slide := k + 1, slide + step;
    }
    assert m - (k - 1) * step < step by { assert k * step == (k - 1) * step + step; }
    DivUnique(m, step, k - 1, m - (k - 1) * step);
    SeenAll(p, memory, step, m, slide, found, matched);
    r := if found then Found(matched, checked) else Failed(NoMatch);
    IsOnlyAnswer(p, memory, step, m, r);
  }

  lemma FaultMet(p: Profile, memory: Memory, step: nat, m: nat, s: nat, found: bool, matched: nat, fault: Fault)
    requires Stepped(p) && step > 0 && IsLeastStep(p, step) && IsGreatestSlide(p, m)
    requires s % step == 0 && Seen(p, memory, step, s, found, matched) && FirstFault(p, memory, s, fault)
    ensures StopsAt(p, memory, step, s, fault)
  {
    hide IsMatch, FaultySlide, FirstFault, IsLeastStep, IsGreatestSlide, NoFaultBelow;
    forall a: nat, b: nat | a < b < s ensures !IsMatch(p, memory, a) || !IsMatch(p, memory, b) {
      if IsMatch(p, memory, a) { MatchIsScanned(p, memory, a, step, m); }
      if IsMatch(p, memory, b) { MatchIsScanned(p, memory, b, step, m); }
    }
  }

  lemma SecondMatch(p: Profile, memory: Memory, step: nat, slide: nat, matched: nat)
    requires Stepped(p) && step > 0 && Seen(p, memory, step, slide, true, matched) && IsMatch(p, memory, slide)
    ensures Twice(p, memory, step, matched, slide)
  {
    hide IsMatch, NoFaultBelow;
  }

  /**
   * `resolve_linux_kaslr`. Without a fault among the visited slides, the scan finds a slide exactly when it is the only
   * one at which every anchor holds, whatever the steps. A fault is reported exactly when it comes before a second
   * match, and a second match when it comes before any fault.
   */
  method Resolve(p: Profile, memory: Memory) returns (r: Resolution)
    ensures p.mode == Fixed ==> r == Found(0, 0)
    ensures p.mode.SlideKnown? ==> r == Found(p.mode.slide, 0)
    ensures p.mode == Unknown && p.anchors == [] ==> r == Failed(Unsupported)
    ensures p.mode == Unknown && p.anchors != [] && !Stepped(p) ==> r == Failed(ZeroStep)
    ensures p.mode == Unknown && p.anchors != [] && Stepped(p) ==> Resolved(p, memory, r)
  {
    match p.mode {
      case Fixed => return Found(0, 0);
      case SlideKnown(slide) => return Found(slide, 0);
      case Unknown =>
    }
    if p.anchors == [] { return Failed(Unsupported); }
    var step, m := Bounds(p);
    if step == 0 { return Failed(ZeroStep); }
    hide Answers, IsGreatestSlide;
    r := Scan(p, memory, step, m);
  }

  ghost predicate Resolved(p: Profile, memory: Memory, r: Resolution)
    requires Stepped(p)
  {
    exists step, m :: 0 < step && IsLeastStep(p, step) && IsGreatestSlide(p, m) && OnlyAnswer(p, memory, step, m, r)
  }

  lemma SeenNothing(p: Profile, memory: Memory, step: nat)
    requires Stepped(p) && step > 0
    ensures Seen(p, memory, step, 0, false, 0)
  {
  }
}
