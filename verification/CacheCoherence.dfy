/** The cache in a run: fills, guest stores to page tables, and invalidations. A hit
    under a root whose tables have not changed since its last invalidation is what a
    fresh walk would return, for pages no larger than the region of their root. */
module CacheCoherence {
  import opened Machine
  import opened PageTables
  import Division
  import opened TranslationCaching
  import X86 = X86Paging
  import Arm = Arm64Stage1

  function ArmContext(root: Root, tcr: Arm.Tcr, g: Arm.Granule): Arm.Context {
    match root
    case Arm64Ttbr0(base, _) => Arm.Context(Some(base), None, tcr.(granule := g))
    case Arm64Ttbr1(base, _) => Arm.Context(None, Some(base), tcr.(granule := g))
    case _ => Arm.Context(None, None, tcr.(granule := g))
  }

  /** The walk a key stands for. `tcr` is the one part of the context no key carries. */
  ghost function FreshWalk(mem: GuestMemory, tcr: Arm.Tcr, vm: VmId, mode: Mode, root: Root, gva: u64): Outcome {
    match mode
    case X86FourLevel =>
      if root.X86Cr3? then X86.Translate(mem, vm, Some(root.base), gva, X86.FourLevel) else Err(MissingContext)
    case X86La57 => if root.X86Cr3? then X86.Translate(mem, vm, Some(root.base), gva, X86.La57) else Err(MissingContext)
    case Arm64(g) => Arm.Translate(mem, vm, ArmContext(root, tcr, g), gva)
  }

  /** Addresses of the page-table words that walk reads. */
  ghost function FreshReads(mem: GuestMemory, tcr: Arm.Tcr, vm: VmId, mode: Mode, root: Root, gva: u64): seq<nat> {
    match mode
    case X86FourLevel => if root.X86Cr3? then X86.Reads(mem, vm, root.base, gva, X86.FourLevel) else []
    case X86La57 => if root.X86Cr3? then X86.Reads(mem, vm, root.base, gva, X86.La57) else []
    case Arm64(g) => Arm.Reads(mem, vm, ArmContext(root, tcr, g), gva)
  }

  /** Width of the region that the root translates, where the control register sets one. */
  function RegionWidth(tcr: Arm.Tcr, g: Arm.Granule, root: Root): Option<nat> {
    match root
    case Arm64Ttbr0(_, _) => Arm.VaBits(tcr.t0sz, g)
    case Arm64Ttbr1(_, _) => Arm.VaBits(tcr.t1sz, g)
    case _ => None
  }

  /** Pages of this size are no larger than the region of the root; on x86 every page is. */
  predicate FitsRegion(tcr: Arm.Tcr, mode: Mode, root: Root, size: nat) {
    mode.Arm64? ==>
      var width := RegionWidth(tcr, mode.granule, root);
      width.Some? ==> size <= Arm.Pow2(width.value)
  }

  /** A walk speaks for its whole page exactly when the page fits the region. */
  lemma FreshWalkWithinPage(mem: GuestMemory, tcr: Arm.Tcr, vm: VmId, mode: Mode, root: Root, gva: u64, t: Translation)
    requires FreshWalk(mem, tcr, vm, mode, root, gva) == Ok(t)
    ensures t.size > 0
    ensures (forall other: u64 :: gva / t.size == other / t.size ==>
                FreshWalk(mem, tcr, vm, mode, root, other) == Ok(Rebased(t, other))) <==>
            FitsRegion(tcr, mode, root, t.size)
  {
    match mode
    case X86FourLevel => X86PageSpeaks(mem, vm, root.base, gva, X86.FourLevel);
    case X86La57 => X86PageSpeaks(mem, vm, root.base, gva, X86.La57);
    case Arm64(g) =>
      Arm.PageSpeaksForRegion(mem, vm, ArmContext(root, tcr, g), gva);
      hide Arm.Translate, Arm.Pow2;
      assert Arm.Select(ArmContext(root, tcr, g), gva).Ok? by { OnlySelectedTranslates(mem, vm, root, tcr, g, gva); }
  }

  lemma OnlySelectedTranslates(mem: GuestMemory, vm: VmId, root: Root, tcr: Arm.Tcr, g: Arm.Granule, gva: u64)
    requires Arm.Translate(mem, vm, ArmContext(root, tcr, g), gva).Ok?
    ensures Arm.Select(ArmContext(root, tcr, g), gva).Ok?
  {
    hide Arm.Select, Arm.RegionWalk;
  }

  lemma X86PageSpeaks(mem: GuestMemory, vm: VmId, cr3: u64, gva: u64, mode: X86.PagingMode)
    requires X86.Translate(mem, vm, Some(cr3), gva, mode).Ok?
    ensures var t := X86.Translate(mem, vm, Some(cr3), gva, mode).value;
            t.size > 0 && forall other: u64 :: gva / t.size == other / t.size ==>
              X86.Translate(mem, vm, Some(cr3), other, mode) == Ok(Rebased(t, other))
  {
    X86.TranslationShape(mem, vm, cr3, gva, mode);
    var t := X86.Translate(mem, vm, Some(cr3), gva, mode).value;
    hide X86.Translate;
    forall other: u64 | gva / t.size == other / t.size
      ensures X86.Translate(mem, vm, Some(cr3), other, mode) == Ok(Rebased(t, other))
    {
      X86.SamePageSameTranslation(mem, vm, cr3, gva, other, mode);
    }
  }

  lemma FreshWalkFrame(mem: GuestMemory, mem': GuestMemory, tcr: Arm.Tcr, vm: VmId, mode: Mode, root: Root, gva: u64)
    requires forall at :: at in FreshReads(mem, tcr, vm, mode, root, gva) ==> SameCell(mem, mem', vm, at)
    ensures FreshWalk(mem', tcr, vm, mode, root, gva) == FreshWalk(mem, tcr, vm, mode, root, gva)
  {
    match mode
    case X86FourLevel => if root.X86Cr3? { X86.TranslateFrame(mem, mem', vm, root.base, gva, X86.FourLevel); }
    case X86La57 => if root.X86Cr3? { X86.TranslateFrame(mem, mem', vm, root.base, gva, X86.La57); }
    case Arm64(g) => Arm.TranslateFrame(mem, mem', vm, ArmContext(root, tcr, g), gva);
  }

  /** CR3 values with the same cache root walk the same tables. */
  lemma EqualRootsWalkAlike(mem: GuestMemory, vm: VmId, cr3: u64, gva: u64, mode: X86.PagingMode)
    ensures Cr3Root(cr3).base == cr3 - cr3 % 0x1000
    ensures X86.Translate(mem, vm, Some(cr3), gva, mode) == X86.Translate(mem, vm, Some(Cr3Root(cr3).base), gva, mode)
  {
    X86.TableBaseRounds(cr3);
  }

  // --- Runs ---

  /** `dirty` holds the address spaces whose tables changed since they were last invalidated. */
  datatype State = State(mem: GuestMemory, entries: seq<Entry>, dirty: iset<(VmId, Root)>)

  datatype Step =
    | Fill(vm: VmId, mode: Mode, root: Root, gva: u64, size: u64, access: Access)
    | Store(vm: VmId, gpa: nat, cell: Cell)
    | InvalidateVm(vm: VmId)
    | InvalidateRoot(vm: VmId, root: Root)
    | InvalidateAsid(vm: VmId, asid: u16)
    | Flush

  /** Some walk under the root reads the word. */
  ghost predicate Touches(mem: GuestMemory, tcr: Arm.Tcr, vm: VmId, gpa: nat, root: Root) {
    exists mode, gva: u64 :: gpa in FreshReads(mem, tcr, vm, mode, root, gva)
  }

  /** The value a fill stores: the walk of its address, if its page has the size of a valid key. */
  ghost function ToStore(mem: GuestMemory, tcr: Arm.Tcr, step: Step): Option<Value>
    requires step.Fill?
  {
    var walk := FreshWalk(mem, tcr, step.vm, step.mode, step.root, step.gva);
    if IsPow2(step.size) && walk.Ok? && walk.value.size == step.size then FromTranslation(walk.value) else None
  }

  /** A fill inserts that value under its key, and otherwise changes nothing. */
  ghost predicate Filled(mem: GuestMemory, tcr: Arm.Tcr, max: nat, entries: seq<Entry>, step: Step,
                         entries': seq<Entry>)
    requires step.Fill?
  {
    var key := KeyFor(step.vm, step.mode, step.root, step.gva, step.size, step.access);
    var value := ToStore(mem, tcr, step);
    if key.Some? && value.Some? then Inserted(entries, max, key.value, value.value, entries')
    else entries' == entries
  }

  ghost predicate Next(tcr: Arm.Tcr, max: nat, s: State, step: Step, s': State) {
    match step
    case Fill(_, _, _, _, _, _) =>
      s'.mem == s.mem && s'.dirty == s.dirty && Filled(s.mem, tcr, max, s.entries, step, s'.entries)
    case Store(vm, gpa, cell) =>
      s' == State(s.mem[(vm, gpa) := cell], s.entries, s.dirty + iset r | Touches(s.mem, tcr, vm, gpa, r) :: (vm, r))
    case InvalidateVm(vm) =>
      s' == State(s.mem, Retained(s.entries, (k: Key) => k.vm != vm), iset d | d in s.dirty && d.0 != vm)
    case InvalidateRoot(vm, root) =>
      s' == State(s.mem, Retained(s.entries, (k: Key) => k.vm != vm || k.root != root), s.dirty - iset{(vm, root)})
    case InvalidateAsid(vm, asid) =>
      s' == State(s.mem, Retained(s.entries, (k: Key) => k.vm != vm || k.root.Asid() != Some(asid)),
                  iset d | d in s.dirty && (d.0 != vm || d.1.Asid() != Some(asid)))
    case Flush => s' == State(s.mem, [], iset{})
  }

  /** The walk of some address of the entry's page gives what it holds. */
  ghost predicate Agrees(mem: GuestMemory, tcr: Arm.Tcr, e: Entry) {
    e.value.size == e.key.size > 0 && exists gva: u64 :: Walked(mem, tcr, e, gva)
  }

  ghost predicate Walked(mem: GuestMemory, tcr: Arm.Tcr, e: Entry, gva: u64)
    requires e.key.size > 0
  {
    var walk := FreshWalk(mem, tcr, e.key.vm, e.key.mode, e.key.root, gva);
    gva / e.key.size == e.key.page && walk.Ok? && FromTranslation(walk.value) == Some(e.value)
  }

  /** The entry answers for every address of its page as a walk does. */
  ghost predicate Answers(mem: GuestMemory, tcr: Arm.Tcr, e: Entry)
    requires e.key.size > 0 && e.value.size > 0
  {
    forall gva: u64 :: gva / e.key.size == e.key.page ==>
      FreshWalk(mem, tcr, e.key.vm, e.key.mode, e.key.root, gva) == Ok(e.value.ToResult(gva))
  }

  /** It does so exactly when its page fits the region of its root. */
  lemma AnswersExactly(mem: GuestMemory, tcr: Arm.Tcr, e: Entry)
    requires Agrees(mem, tcr, e)
    ensures Answers(mem, tcr, e) <==> FitsRegion(tcr, e.key.mode, e.key.root, e.key.size)
  {
    hide FreshWalk, FitsRegion;
    var gva: u64 :| Walked(mem, tcr, e, gva);
    var t := FreshWalk(mem, tcr, e.key.vm, e.key.mode, e.key.root, gva).value;
    FreshWalkWithinPage(mem, tcr, e.key.vm, e.key.mode, e.key.root, gva, t);
    forall other: u64 ensures e.value.ToResult(other) == Rebased(t, other) {
      CachedPage(t, other);
    }
  }

  ghost predicate Coherent(tcr: Arm.Tcr, max: nat, s: State) {
    && |s.entries| <= max && DistinctKeys(s.entries)
    && forall e :: e in s.entries && (e.key.vm, e.key.root) !in s.dirty ==> Agrees(s.mem, tcr, e)
  }

  lemma StoreAgrees(mem: GuestMemory, tcr: Arm.Tcr, vm: VmId, gpa: nat, cell: Cell, e: Entry)
    requires e.key.vm != vm || !Touches(mem, tcr, vm, gpa, e.key.root)
    requires Agrees(mem, tcr, e)
    ensures Agrees(mem[(vm, gpa) := cell], tcr, e)
  {
    var mem' := mem[(vm, gpa) := cell];
    var gva: u64 :| Walked(mem, tcr, e, gva);
    forall at | at in FreshReads(mem, tcr, e.key.vm, e.key.mode, e.key.root, gva)
      ensures SameCell(mem, mem', e.key.vm, at)
    {
    }
    FreshWalkFrame(mem, mem', tcr, e.key.vm, e.key.mode, e.key.root, gva);
    hide FreshWalk;
    assert Walked(mem', tcr, e, gva);
  }

  /** Every step of a run keeps the cache coherent. */
  lemma StepKeepsCoherence(tcr: Arm.Tcr, max: nat, s: State, step: Step, s': State)
    requires max > 0 && Coherent(tcr, max, s) && Next(tcr, max, s, step, s')
    ensures Coherent(tcr, max, s')
  {
    match step
    case Fill(vm, mode, root, gva, size, access) =>
      if s'.entries != s.entries {
        FillKeepsCoherence(tcr, max, s, step, s');
      }
    case Store(vm, gpa, cell) =>
      forall e | e in s'.entries && (e.key.vm, e.key.root) !in s'.dirty ensures Agrees(s'.mem, tcr, e) {
        StoreAgrees(s.mem, tcr, vm, gpa, cell, e);
      }
    case InvalidateVm(vm) => RetainedElements(s.entries, (k: Key) => k.vm != vm);
    case InvalidateRoot(vm, root) => RetainedElements(s.entries, (k: Key) => k.vm != vm || k.root != root);
    case InvalidateAsid(vm, asid) =>
      RetainedElements(s.entries, (k: Key) => k.vm != vm || k.root.Asid() != Some(asid));
    case Flush =>
  }

  lemma FillKeepsCoherence(tcr: Arm.Tcr, max: nat, s: State, step: Step, s': State)
    requires max > 0 && Coherent(tcr, max, s) && step.Fill? && Next(tcr, max, s, step, s') && s'.entries != s.entries
    ensures Coherent(tcr, max, s')
  {
    hide FreshWalk, FromTranslation;
    var key := KeyFor(step.vm, step.mode, step.root, step.gva, step.size, step.access).value;
    var value := ToStore(s.mem, tcr, step).value;
    InsertMeaning(s.entries, max, key, value, s'.entries);
    StoredSize(s.mem, tcr, step);
    assert Walked(s.mem, tcr, Entry(key, value), step.gva);
    forall e | e in s'.entries ensures e == Entry(key, value) || e in s.entries {}
  }

  lemma StoredSize(mem: GuestMemory, tcr: Arm.Tcr, step: Step)
    requires step.Fill? && ToStore(mem, tcr, step).Some?
    ensures ToStore(mem, tcr, step).value.size == step.size > 0
  {
    hide FreshWalk;
  }

  /** States of a run: each follows from the one before by the step between them. */
  ghost predicate IsRun(tcr: Arm.Tcr, max: nat, states: seq<State>, steps: seq<Step>) {
    && |states| == |steps| + 1
    && states[0].entries == [] && states[0].dirty == iset{}
    && forall i :: 0 <= i < |steps| ==> Next(tcr, max, states[i], steps[i], states[i + 1])
  }

  lemma {:induction false} RunIsCoherent(tcr: Arm.Tcr, max: nat, states: seq<State>, steps: seq<Step>, i: nat)
    requires max > 0 && IsRun(tcr, max, states, steps) && i < |states|
    ensures Coherent(tcr, max, states[i])
  {
    if i > 0 {
      RunIsCoherent(tcr, max, states, steps, i - 1);
      StepKeepsCoherence(tcr, max, states[i - 1], steps[i - 1], states[i]);
    }
  }

  /** Transparency: at any point of any run, a hit under a clean root is a fresh walk, when its page fits the region. */
  lemma HitIsFreshWalk(tcr: Arm.Tcr, max: nat, states: seq<State>, steps: seq<Step>, i: nat, key: Key, gva: u64)
    requires max > 0 && IsRun(tcr, max, states, steps) && i < |states|
    requires (key.vm, key.root) !in states[i].dirty && FitsRegion(tcr, key.mode, key.root, key.size)
    requires HitFor(states[i].entries, key, gva).Some?
    ensures var hit := HitFor(states[i].entries, key, gva).value;
            FreshWalk(states[i].mem, tcr, key.vm, key.mode, key.root, gva) == Ok(hit)
  {
    HitsSpeakExactly(tcr, max, states, steps, i, key);
  }

  /** And only then: the hits on a page are the walks of all its addresses exactly when the page fits the region. */
  lemma HitsSpeakExactly(tcr: Arm.Tcr, max: nat, states: seq<State>, steps: seq<Step>, i: nat, key: Key)
    requires max > 0 && IsRun(tcr, max, states, steps) && i < |states|
    requires (key.vm, key.root) !in states[i].dirty && Lookup(states[i].entries, key).Some?
    ensures key.size > 0
    ensures (forall gva: u64 :: gva / key.size == key.page ==>
                HitFor(states[i].entries, key, gva).Some?
                && FreshWalk(states[i].mem, tcr, key.vm, key.mode, key.root, gva)
                == Ok(HitFor(states[i].entries, key, gva).value)) <==>
            FitsRegion(tcr, key.mode, key.root, key.size)
  {
    hide FreshWalk, Next, FitsRegion;
    RunIsCoherent(tcr, max, states, steps, i);
    LookupFinds(states[i].entries, key);
    var e := Entry(key, Lookup(states[i].entries, key).value);
    assert e in states[i].entries;
    AnswersExactly(states[i].mem, tcr, e);
  }

  lemma GigabyteIsPow2()
    ensures IsPow2(0x4000_0000)
  {
    assert Arm.Pow2(5) == 32;
    Arm.Pow2Add(5, 5);
    Arm.Pow2Add(10, 10);
    Arm.Pow2Add(20, 10);
    PowersOfTwo(30);
  }

  const NARROW_ROOT := Arm64Ttbr0(0x1000, None)

  lemma NarrowWalk(gva: u64)
    ensures FreshWalk(Arm.BLOCK_TABLES, Arm.NARROW.tcr, 0, Arm64(Arm.Size4K), NARROW_ROOT, gva)
         == Arm.Translate(Arm.BLOCK_TABLES, 0, Arm.NARROW, gva)
  {
    hide Arm.Translate;
  }

  /** A page filled into an empty cache answers for all its addresses. */
  lemma FilledAnswers(tcr: Arm.Tcr, max: nat, s: State, step: Step, s': State, t: Translation, gva: u64)
    requires max > 0 && s.entries == [] && step.Fill? && Next(tcr, max, s, step, s')
    requires FreshWalk(s.mem, tcr, step.vm, step.mode, step.root, step.gva) == Ok(t) && t.size == step.size
    requires IsPow2(step.size) && gva / step.size == step.gva / step.size
    ensures HitFor(s'.entries, KeyFor(step.vm, step.mode, step.root, step.gva, step.size, step.access).value, gva).Some?
  {
    hide FreshWalk, Lookup;
    var key := KeyFor(step.vm, step.mode, step.root, step.gva, step.size, step.access).value;
    InsertMeaning([], max, key, ToStore(s.mem, tcr, step).value, s'.entries);
  }

  /** A block larger than its region, once cached, answers at an address that does not translate. */
  lemma CachedBlockBeyondRegion(s: State, s': State, access: Access)
    requires s == State(Arm.BLOCK_TABLES, [], iset{})
    requires Next(Arm.NARROW.tcr, 1, s, Fill(0, Arm64(Arm.Size4K), NARROW_ROOT, 0, 0x4000_0000, access), s')
    ensures HitFor(s'.entries, Key(0, Arm64(Arm.Size4K), NARROW_ROOT, 0, 0x4000_0000, access), 0x200_0000).Some?
    ensures FreshWalk(s'.mem, Arm.NARROW.tcr, 0, Arm64(Arm.Size4K), NARROW_ROOT, 0x200_0000) == Err(InvalidAddress)
  {
    hide FreshWalk, Next, HitFor, KeyFor, IsPow2, Arm.Translate;
    var step := Fill(0, Arm64(Arm.Size4K), NARROW_ROOT, 0, 0x4000_0000, access);
    Arm.BlockBeyondRegion();
    GigabyteIsPow2();
    NarrowWalk(0);
    NarrowWalk(0x200_0000);
    FilledAnswers(Arm.NARROW.tcr, 1, s, step, s', Arm.BLOCK, 0x200_0000);
    FillKeepsMemory(Arm.NARROW.tcr, 1, s, step, s');
    KeyOf(0, Arm64(Arm.Size4K), NARROW_ROOT, 0, 0x4000_0000, access);
  }

  lemma FillKeepsMemory(tcr: Arm.Tcr, max: nat, s: State, step: Step, s': State)
    requires step.Fill? && Next(tcr, max, s, step, s')
    ensures s'.mem == s.mem
  {
  }

  lemma KeyOf(vm: VmId, mode: Mode, root: Root, gva: u64, size: u64, access: Access)
    requires IsPow2(size) && gva < size
    ensures KeyFor(vm, mode, root, gva, size, access) == Some(Key(vm, mode, root, 0, size, access))
  {
    hide IsPow2;
    Division.DivUnique(gva, size, 0, gva);
  }

  function KeyMode(mode: X86.PagingMode): Mode {
    if mode == X86.La57 then X86La57 else X86FourLevel
  }

  /** The same for an x86 caller, who builds the key from a CR3 value. */
  lemma X86HitIsTranslation(tcr: Arm.Tcr, max: nat, states: seq<State>, steps: seq<Step>, i: nat, vm: VmId, cr3: u64,
                            gva: u64, mode: X86.PagingMode, key: Key)
    requires max > 0 && IsRun(tcr, max, states, steps) && i < |states|
    requires key.vm == vm && key.mode == KeyMode(mode) && key.root == Cr3Root(cr3) && (vm, key.root) !in states[i].dirty
    requires HitFor(states[i].entries, key, gva).Some?
    ensures X86.Translate(states[i].mem, vm, Some(cr3), gva, mode) == Ok(HitFor(states[i].entries, key, gva).value)
  {
    HitIsFreshWalk(tcr, max, states, steps, i, key, gva);
    EqualRootsWalkAlike(states[i].mem, vm, cr3, gva, mode);
  }

  /** An arm64 caller, who has both roots loaded: the one its address selects is the key's. */
  lemma Arm64HitIsTranslation(tcr: Arm.Tcr, max: nat, states: seq<State>, steps: seq<Step>, i: nat,
                              context: Arm.Context, va: u64, key: Key)
    requires max > 0 && IsRun(tcr, max, states, steps) && i < |states|
    requires context.tcr == tcr && Arm.Select(context, va).Ok? && key.mode == Arm64(tcr.granule)
    requires if va < Arm.Pow2(Arm.VaBits(tcr.t0sz, tcr.granule).value)
             then key.root.Arm64Ttbr0? && context.ttbr0 == Some(key.root.base)
             else key.root.Arm64Ttbr1? && context.ttbr1 == Some(key.root.base)
    requires (key.vm, key.root) !in states[i].dirty && HitFor(states[i].entries, key, va).Some?
    requires key.size <= Arm.Pow2(Arm.Select(context, va).value.bits)
    ensures Arm.Translate(states[i].mem, key.vm, context, va) == Ok(HitFor(states[i].entries, key, va).value)
  {
    HitIsFreshWalk(tcr, max, states, steps, i, key, va);
    Arm.OtherRootIrrelevant(states[i].mem, key.vm, context, va);
  }

  // --- The class in a run ---

  /** Every step can be taken in every state, in one way; a store marks exactly the roots with a walk that reads the
      word. */
  lemma StepExists(tcr: Arm.Tcr, max: nat, s: State, step: Step) returns (s': State)
    requires max > 0
    ensures Next(tcr, max, s, step, s')
    ensures step.Store? ==> s'.mem == s.mem[(step.vm, step.gpa) := step.cell] && s'.entries == s.entries
    ensures step.Store? ==> forall root :: (step.vm, root) in s'.dirty <==>
              (step.vm, root) in s.dirty || Touches(s.mem, tcr, step.vm, step.gpa, root)
    ensures forall other :: Next(tcr, max, s, step, other) ==> other == s'
  {
    hide Touches;
    s' := match step
      case Fill(vm, mode, root, gva, size, access) =>
        var key, value := KeyFor(vm, mode, root, gva, size, access), ToStore(s.mem, tcr, step);
        if key.None? || value.None? then s else s.(entries := AfterInsert(s.entries, max, key.value, value.value))
      case Store(vm, gpa, cell) =>
        State(s.mem[(vm, gpa) := cell], s.entries, s.dirty + iset r | Touches(s.mem, tcr, vm, gpa, r) :: (vm, r))
      case InvalidateVm(vm) =>
        State(s.mem, Retained(s.entries, (k: Key) => k.vm != vm), iset d | d in s.dirty && d.0 != vm)
      case InvalidateRoot(vm, root) =>
        State(s.mem, Retained(s.entries, (k: Key) => k.vm != vm || k.root != root), s.dirty - iset{(vm, root)})
      case InvalidateAsid(vm, asid) =>
        State(s.mem, Retained(s.entries, (k: Key) => k.vm != vm || k.root.Asid() != Some(asid)),
              iset d | d in s.dirty && (d.0 != vm || d.1.Asid() != Some(asid)))
      case Flush => State(s.mem, [], iset{});
  }

  /** The walk itself, by the walkers. */
  method WalkFor(mem: GuestMemory, tcr: Arm.Tcr, vm: VmId, mode: Mode, root: Root, gva: u64) returns (r: Outcome)
    ensures r == FreshWalk(mem, tcr, vm, mode, root, gva)
  {
    match mode
    case X86FourLevel =>
      if !root.X86Cr3? { return Err(MissingContext); }
      r := X86.TranslateX86(mem, vm, Some(root.base), gva, X86.FourLevel);
    case X86La57 =>
      if !root.X86Cr3? { return Err(MissingContext); }
      r := X86.TranslateX86(mem, vm, Some(root.base), gva, X86.La57);
    case Arm64(g) => r := Arm.TranslateArm64(mem, vm, ArmContext(root, tcr, g), gva);
  }

  /** Guest memory after the stores among the steps. */
  function MemoryAfter(mem: GuestMemory, steps: seq<Step>): GuestMemory {
    if steps == [] then mem
    else
      var before, last := MemoryAfter(mem, steps[..|steps| - 1]), steps[|steps| - 1];
      if last.Store? then before[(last.vm, last.gpa) := last.cell] else before
  }

  /** One step by the cache's own methods. */
  method Take(cache: TranslationCache, mem: GuestMemory, tcr: Arm.Tcr, step: Step,
              ghost s: State) returns (mem': GuestMemory, ghost s': State)
    requires cache.Valid() && s.mem == mem && s.entries == cache.entries
    modifies cache
    ensures cache.Valid() && s'.mem == mem' && s'.entries == cache.entries
    ensures Next(tcr, cache.maxEntries, s, step, s')
    ensures mem' == if step.Store? then mem[(step.vm, step.gpa) := step.cell] else mem
  {
    hide FreshWalk, Touches, IsPow2, Inserted, Retained;
    s' := StepExists(tcr, cache.maxEntries, s, step);
    mem' := mem;
    var n: nat;
    match step {
      case Fill(vm, mode, root, gva, size, access) =>
        var key := KeyFor(vm, mode, root, gva, size, access);
        var walk := WalkFor(mem, tcr, vm, mode, root, gva);
        if key.Some? {
          var stored := cache.InsertTranslation(key.value, walk);
        }
        s' := State(mem, cache.entries, s.dirty);
      case Store(vm, gpa, cell) => mem' := mem[(vm, gpa) := cell];
      case InvalidateVm(vm) => n := cache.InvalidateVm(vm);
      case InvalidateRoot(vm, root) => n := cache.InvalidateRoot(vm, root);
      case InvalidateAsid(vm, asid) => n := cache.InvalidateAsid(vm, asid);
      case Flush => n := cache.Flush();
    }
  }

  /**
   * Any sequence of operations on a cache is a run, so a hit after it, under a root with no store left to invalidate
   * and on a page that fits its region, is what a walk of that address would return now.
   */
  method CacheRun(mem: GuestMemory, tcr: Arm.Tcr, max: nat, steps: seq<Step>, key: Key, gva: u64)
    returns (mem': GuestMemory, hit: Option<Translation>, ghost states: seq<State>)
    requires max > 0
    ensures mem' == MemoryAfter(mem, steps)
    ensures IsRun(tcr, max, states, steps) && states[0].mem == mem && states[|steps|].mem == mem'
    ensures hit == HitFor(states[|steps|].entries, key, gva)
    ensures hit.Some? && FitsRegion(tcr, key.mode, key.root, key.size) && (key.vm, key.root) !in states[|steps|].dirty
            ==> FreshWalk(mem', tcr, key.vm, key.mode, key.root, gva) == Ok(hit.value)
  {
    hide FreshWalk, Next, HitFor, FitsRegion;
    var cache := new TranslationCache(max);
    mem' := mem;
    states := [State(mem, [], iset{})];
    for i := 0 to |steps|
      invariant fresh(cache) && cache.Valid() && cache.maxEntries == max
      invariant mem' == MemoryAfter(mem, steps[..i])
      invariant |states| == i + 1 && states[0] == State(mem, [], iset{})
      invariant states[i].mem == mem' && states[i].entries == cache.entries
      invariant forall j :: 0 <= j < i ==> Next(tcr, max, states[j], steps[j], states[j + 1])
    {
      ghost var s';
      mem', s' := Take(cache, mem', tcr, steps[i], states[i]);
      assert steps[..i + 1][..i] == steps[..i];
      states := states + [s'];
    }
    assert steps[..|steps|] == steps;
    hit := cache.LookupResult(key, gva);
    if hit.Some? && (key.vm, key.root) !in states[|steps|].dirty && FitsRegion(tcr, key.mode, key.root, key.size) {
      HitIsFreshWalk(tcr, max, states, steps, |steps|, key, gva);
    }
  }
}
