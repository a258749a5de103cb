/** x86-64 4- and 5-level page walks over guest memory. */
module X86Paging {
  import opened Machine
  import opened PageTables
  import opened Division
  import opened TableWalk

  datatype PagingMode = FourLevel | La57

  const PAGE_4K := 0x1000
  const PAGE_2M := 0x20_0000
  const PAGE_1G := 0x4000_0000
  const PRESENT := 0x1
  const WRITABLE := 0x2
  const USER := 0x4
  const LARGE_PAGE := 0x80
  const NX := 0x8000_0000_0000_0000
  const PHYSICAL_LIMIT := 0x10_0000_0000_0000

  /** `entry & TABLE_BASE_MASK`; the CR3 mask covers the same bits. */
  function TableBase(entry: nat): (base: nat)
    ensures base + PAGE_4K <= PHYSICAL_LIMIT
  {
    MaskedAligned(entry, PAGE_4K, 0x100_0000_0000);
    Masked(entry, PAGE_4K, PHYSICAL_LIMIT)
  }

  /** The low bits of CR3 do not matter. */
  lemma TableBaseRounds(entry: nat)
    ensures entry % PAGE_4K <= entry && TableBase(entry) == TableBase(entry - entry % PAGE_4K)
  {
    RoundDown(entry, PAGE_4K);
    var q := entry / PAGE_4K;
    var rounded := entry - entry % PAGE_4K;
    assert rounded == q * PAGE_4K;
    var high := q / 0x100_0000_0000;
    var low := q % 0x100_0000_0000;
    DivUnique(rounded, PHYSICAL_LIMIT, high, low * PAGE_4K);
    DivUnique(entry, PHYSICAL_LIMIT, high, low * PAGE_4K + entry % PAGE_4K);
  }

  predicate ReservedHighBits(entry: nat) {
    Masked(entry, PHYSICAL_LIMIT, NX) != 0
  }

  function Grants(entry: nat): Permissions {
    Permissions(Bit(entry, WRITABLE), Bit(entry, USER), !Bit(entry, NX))
  }

  lemma LeafFrames(entry: u64)
    ensures TableBase(entry) % PAGE_4K == 0
    ensures var frame := Masked(entry, PAGE_2M, PHYSICAL_LIMIT);
            0 <= frame <= PHYSICAL_LIMIT - PAGE_2M && frame % PAGE_2M == 0
    ensures var frame := Masked(entry, PAGE_1G, PHYSICAL_LIMIT);
            0 <= frame <= PHYSICAL_LIMIT - PAGE_1G && frame % PAGE_1G == 0
  {
    MaskedAligned(entry, PAGE_4K, 0x100_0000_0000);
    MaskedAligned(entry, PAGE_2M, 0x8000_0000);
    MaskedAligned(entry, PAGE_1G, 0x40_0000);
  }

  /** Entry with `level` levels below it: 0 is a PTE, 1 a PDE, 2 a PDPTE. */
  function Decode(level: nat, entry: u64): Descriptor {
    if !Bit(entry, PRESENT) then Fault(NotPresent)
    else if ReservedHighBits(entry) then Fault(Malformed)
    else if level == 0 then Leaf(TableBase(entry), PAGE_4K, Grants(entry))
    else if !Bit(entry, LARGE_PAGE) then Table(TableBase(entry), Grants(entry))
    else if level == 1 && Masked(entry, 0x2000, PAGE_2M) == 0 then
      LeafFrames(entry);
      Leaf(Masked(entry, PAGE_2M, PHYSICAL_LIMIT), PAGE_2M, Grants(entry))
    else if level == 2 && Masked(entry, 0x2000, PAGE_1G) == 0 then
      LeafFrames(entry);
      Leaf(Masked(entry, PAGE_1G, PHYSICAL_LIMIT), PAGE_1G, Grants(entry))
    else Fault(Malformed)
  }

  // --- What the bits of an entry mean ---

  /** Bits 52 to 62, which must be clear. */
  predicate HighBitsClear(entry: u64) {
    entry % 0x8000_0000_0000_0000 / 0x10_0000_0000_0000 == 0
  }

  /** A present entry above the last level, without the large-page bit, names a table. */
  predicate NamesTable(level: nat, entry: u64) {
    entry % 2 == 1 && HighBitsClear(entry) && level > 0 && entry / 0x80 % 2 == 0
  }

  /** A present entry of the last level names a page, and one with the large-page bit a large page, two levels up at
      most, whose address has no bits from 13 up below the size of the page. */
  predicate NamesPage(level: nat, entry: u64) {
    && entry % 2 == 1 && HighBitsClear(entry)
    && (level == 0 || (level <= 2 && entry / 0x80 % 2 == 1 && entry % EntrySpan(level) / 0x2000 == 0))
  }

  /** The page or table an entry names: bits 12 to 51, aligned to its size. */
  function Named(entry: u64, size: nat): nat
    requires size > 0
  {
    entry % 0x10_0000_0000_0000 / size * size
  }

  lemma DecodeExactly(level: nat, entry: u64)
    ensures var d := Decode(level, entry);
            && (d == Fault(NotPresent) <==> entry % 2 == 0)
            && (d.Table? <==> NamesTable(level, entry))
            && (d.Leaf? <==> NamesPage(level, entry))
            && (d.Table? ==> d.next == Named(entry, 0x1000))
            && (d.Leaf? ==> d.size == EntrySpan(level) > 0 && d.frame == Named(entry, d.size))
  {
    MaskedIs(entry, PAGE_4K, 0x100_0000_0000);
    MaskedIs(entry, PAGE_2M, 0x8000_0000);
    MaskedIs(entry, PAGE_1G, 0x40_0000);
    MaskedIs(entry, 0x2000, 0x100);
    MaskedIs(entry, 0x2000, 0x2_0000);
    MaskedIs(entry, PHYSICAL_LIMIT, 0x800);
    hide Masked;
  }

  ghost function Entries(): Format {
    Format(PAGE_4K, 512, PHYSICAL_LIMIT, (level: nat, entry: u64) => Decode(level, entry))
  }

  lemma Spans()
    ensures Span(Entries(), 0) == 0x1000
    ensures Span(Entries(), 1) == 0x20_0000
    ensures Span(Entries(), 2) == 0x4000_0000
    ensures Span(Entries(), 3) == 0x80_0000_0000
    ensures Span(Entries(), 4) == 0x1_0000_0000_0000
  {
    assert Span(Entries(), 0) == 0x1000;
    assert Span(Entries(), 1) == 0x20_0000;
    assert Span(Entries(), 2) == 0x4000_0000;
    assert Span(Entries(), 3) == 0x80_0000_0000;
  }

  lemma DecodeFits(level: nat, entry: u64)
    ensures Fits(Decode(level, entry), PAGE_4K, Span(Entries(), level), PHYSICAL_LIMIT)
  {
    LeafFrames(entry);
    Spans();
    var d := Decode(level, entry);
    if d.Leaf? {
      if level == 0 {
        assert d.frame == TableBase(entry) && d.size == Span(Entries(), level);
      } else if level == 1 {
        assert d.frame == Masked(entry, PAGE_2M, PHYSICAL_LIMIT) && d.size == Span(Entries(), level);
      } else {
        assert level == 2;
        assert d.frame == Masked(entry, PAGE_1G, PHYSICAL_LIMIT) && d.size == Span(Entries(), level);
      }
    }
  }

  lemma EntriesAreLawful()
    ensures Lawful(Entries())
  {
    forall level: nat, e: u64
      ensures Fits(Entries().decode(level, e), PAGE_4K, Span(Entries(), level), PHYSICAL_LIMIT)
    {
      DecodeFits(level, e);
    }
  }

  /** `is_canonical_with_sign_bit`, the sign bit being worth `sign`. */
  predicate CanonicalWithSign(addr: u64, sign: nat)
    requires sign > 0
  {
    addr / (2 * sign) == if addr / sign % 2 == 0 then 0 else TWO_64 / (2 * sign) - 1
  }

  /** `is_canonical`: all bits from the sign bit up are equal. */
  predicate IsCanonical(addr: u64, mode: PagingMode) {
    match mode
    case FourLevel => CanonicalWithSign(addr, 0x8000_0000_0000)
    case La57 => CanonicalWithSign(addr, 0x100_0000_0000_0000)
  }

  /** The canonical addresses: the two halves next to 0 and to 2^64. */
  predicate Canonical(addr: u64, mode: PagingMode) {
    var half := if mode == FourLevel then 0x8000_0000_0000 else 0x100_0000_0000_0000;
    addr < half || addr >= TWO_64 - half
  }

  lemma CanonicalHalves(addr: u64, mode: PagingMode)
    ensures IsCanonical(addr, mode) <==> Canonical(addr, mode)
  {
  }

  function TopLevel(mode: PagingMode): nat {
    if mode == La57 then 4 else 3
  }

  /** The walk as a recursion over levels. */
  ghost function Translate(mem: GuestMemory, vm: VmId, cr3: Option<u64>, gva: u64, mode: PagingMode): Outcome {
    EntriesAreLawful();
    if !Canonical(gva, mode) then Err(InvalidAddress)
    else if cr3 == None then Err(MissingContext)
    else Walk(mem, vm, Entries(), TableBase(cr3.value), gva, TopLevel(mode), ALL_PERMISSIONS)
  }

  /** The canonical addresses are as many as the top level of the mode covers. */
  lemma CanonicalWidth(mode: PagingMode, addr: u64)
    ensures Canonical(addr, mode) <==>
            var half := 256 * EntrySpan(TopLevel(mode)); addr < half || addr >= TWO_64 - half
  {
  }

  function EntrySpan(level: nat): (span: nat)
    ensures span > 0
  {
    match level
    case 0 => PAGE_4K
    case 1 => PAGE_2M
    case 2 => PAGE_1G
    case 3 => 0x80_0000_0000
    case _ => 0x1_0000_0000_0000
  }

  lemma WalkAt(mem: GuestMemory, vm: VmId, base: nat, gva: u64, level: nat, granted: Permissions, index: nat)
    requires level <= 4 && index == gva / EntrySpan(level) % 512
    ensures Lawful(Entries())
    ensures Walk(mem, vm, Entries(), base, gva, level, granted)
         == Continue(mem, vm, Entries(), ReadEntry(mem, vm, base, index, level), gva, level, granted)
  {
    EntriesAreLawful();
    Spans();
    IndexIs(Entries(), gva, level);
    WalkUnfolds(mem, vm, Entries(), base, gva, level, granted, index);
  }

  /** The last two levels of the unrolled walk. */
  method WalkFromDirectory(mem: GuestMemory, vm: VmId, pdBase: nat, gva: u64, granted: Permissions)
    returns (r: Outcome)
    ensures Lawful(Entries())
    ensures r == Walk(mem, vm, Entries(), pdBase, gva, 1, granted)
  {
    hide Lawful, Walk, Index, Span, Bit, Masked;
    var perms := granted;
    WalkAt(mem, vm, pdBase, gva, 1, perms, gva / PAGE_2M % 512);
    var pde := ReadEntry(mem, vm, pdBase, gva / PAGE_2M % 512, 1);
    if pde.Err? { return Err(pde.error); }
    if !Bit(pde.value, PRESENT) { return Err(EntryFault(1, NotPresent)); }
    if ReservedHighBits(pde.value) { return Err(EntryFault(1, Malformed)); }
    perms := perms.And(Grants(pde.value));
    if Bit(pde.value, LARGE_PAGE) {
      if Masked(pde.value, 0x2000, PAGE_2M) != 0 { return Err(EntryFault(1, Malformed)); }
      LeafFrames(pde.value);
      return Ok(Translation(Masked(pde.value, PAGE_2M, PHYSICAL_LIMIT) + gva % PAGE_2M, PAGE_2M, perms));
    }

    var ptBase := TableBase(pde.value);
    WalkAt(mem, vm, ptBase, gva, 0, perms, gva / PAGE_4K % 512);
    var pte := ReadEntry(mem, vm, ptBase, gva / PAGE_4K % 512, 0);
    if pte.Err? { return Err(pte.error); }
    if !Bit(pte.value, PRESENT) { return Err(EntryFault(0, NotPresent)); }
    if ReservedHighBits(pte.value) { return Err(EntryFault(0, Malformed)); }
    perms := perms.And(Grants(pte.value));
    r := Ok(Translation(TableBase(pte.value) + gva % PAGE_4K, PAGE_4K, perms));
  }

  /** The four-level part of the unrolled walk. */
  method WalkFromPml4(mem: GuestMemory, vm: VmId, tableBase: nat, gva: u64, granted: Permissions)
    returns (r: Outcome)
    ensures Lawful(Entries())
    ensures r == Walk(mem, vm, Entries(), tableBase, gva, 3, granted)
  {
    hide Lawful, Walk, Index, Span, Bit, Masked;
    var perms := granted;
    WalkAt(mem, vm, tableBase, gva, 3, perms, gva / 0x80_0000_0000 % 512);
    var pml4e := ReadEntry(mem, vm, tableBase, gva / 0x80_0000_0000 % 512, 3);
    if pml4e.Err? { return Err(pml4e.error); }
    if !Bit(pml4e.value, PRESENT) { return Err(EntryFault(3, NotPresent)); }
    if ReservedHighBits(pml4e.value) { return Err(EntryFault(3, Malformed)); }
    if Bit(pml4e.value, LARGE_PAGE) { return Err(EntryFault(3, Malformed)); }
    perms := perms.And(Grants(pml4e.value));

    var pdptBase := TableBase(pml4e.value);
    WalkAt(mem, vm, pdptBase, gva, 2, perms, gva / PAGE_1G % 512);
    var pdpte := ReadEntry(mem, vm, pdptBase, gva / PAGE_1G % 512, 2);
    if pdpte.Err? { return Err(pdpte.error); }
    if !Bit(pdpte.value, PRESENT) { return Err(EntryFault(2, NotPresent)); }
    if ReservedHighBits(pdpte.value) { return Err(EntryFault(2, Malformed)); }
    perms := perms.And(Grants(pdpte.value));
    if Bit(pdpte.value, LARGE_PAGE) {
      if Masked(pdpte.value, 0x2000, PAGE_1G) != 0 { return Err(EntryFault(2, Malformed)); }
      LeafFrames(pdpte.value);
      return Ok(Translation(Masked(pdpte.value, PAGE_1G, PHYSICAL_LIMIT) + gva % PAGE_1G, PAGE_1G, perms));
    }
    r := WalkFromDirectory(mem, vm, TableBase(pdpte.value), gva, perms);
  }

  /** The unrolled walk, one level after the other. */
  method TranslateX86(mem: GuestMemory, vm: VmId, cr3: Option<u64>, gva: u64, mode: PagingMode)
    returns (r: Outcome)
    ensures r == Translate(mem, vm, cr3, gva, mode)
  {
    hide Lawful, Walk, Index, Span, Bit, Masked, IsCanonical;
    CanonicalHalves(gva, mode);
    if !IsCanonical(gva, mode) {
      return Err(InvalidAddress);
    }
    if cr3 == None {
      return Err(MissingContext);
    }
    var tableBase := TableBase(cr3.value);
    var perms := ALL_PERMISSIONS;
    if mode == La57 {
      WalkAt(mem, vm, tableBase, gva, 4, perms, gva / 0x1_0000_0000_0000 % 512);
      var pml5e := ReadEntry(mem, vm, tableBase, gva / 0x1_0000_0000_0000 % 512, 4);
      if pml5e.Err? { return Err(pml5e.error); }
      if !Bit(pml5e.value, PRESENT) { return Err(EntryFault(4, NotPresent)); }
      if ReservedHighBits(pml5e.value) { return Err(EntryFault(4, Malformed)); }
      if Bit(pml5e.value, LARGE_PAGE) { return Err(EntryFault(4, Malformed)); }
      perms := perms.And(Grants(pml5e.value));
      tableBase := TableBase(pml5e.value);
    }
    r := WalkFromPml4(mem, vm, tableBase, gva, perms);
  }

  /** The walk of four levels from a table. */
  ghost function FourLevelWalk(mem: GuestMemory, vm: VmId, base: nat, gva: u64): Outcome {
    EntriesAreLawful();
    Walk(mem, vm, Entries(), base, gva, 3, ALL_PERMISSIONS)
  }

  /** 5-level paging is one PML5 step in front of the 4-level walk. */
  lemma La57IsPml5ThenFourLevel(mem: GuestMemory, vm: VmId, cr3: u64, gva: u64)
    requires Canonical(gva, La57)
    ensures Translate(mem, vm, Some(cr3), gva, La57)
         == match ReadEntry(mem, vm, TableBase(cr3), gva / 0x1_0000_0000_0000 % 512, 4)
            case Err(e) => Err(e)
            case Ok(pml5e) =>
              match Decode(4, pml5e)
              case Table(next, grants) => TableWalk.Restrict(grants, FourLevelWalk(mem, vm, next, gva))
              case d => Err(EntryFault(4, if d.Fault? then d.reason else Malformed))
    ensures Canonical(gva, FourLevel) ==>
              Translate(mem, vm, Some(cr3), gva, FourLevel) == FourLevelWalk(mem, vm, TableBase(cr3), gva)
  {
    var read := ReadEntry(mem, vm, TableBase(cr3), gva / 0x1_0000_0000_0000 % 512, 4);
    WalkAt(mem, vm, TableBase(cr3), gva, 4, ALL_PERMISSIONS, gva / 0x1_0000_0000_0000 % 512);
    if read.Ok? {
      var d := Decode(4, read.value);
      if d.Table? {
        WalkRestricts(mem, vm, Entries(), d.next, gva, 3, d.grants);
      }
    }
  }

  /** A translation stays below the physical limit, keeps the page offset, has one
      of the three page sizes, and grants a right exactly when every entry does. */
  lemma TranslationShape(mem: GuestMemory, vm: VmId, cr3: u64, gva: u64, mode: PagingMode)
    requires Translate(mem, vm, Some(cr3), gva, mode).Ok?
    ensures Lawful(Entries())
    ensures var t := Translate(mem, vm, Some(cr3), gva, mode).value;
            var visited := Visited(mem, vm, Entries(), TableBase(cr3), gva, TopLevel(mode));
            && (t.size == 0x1000 || t.size == 0x20_0000 || t.size == 0x4000_0000)
            && t.gpa < 0x10_0000_0000_0000
            && t.gpa % t.size == gva % t.size
            && (t.perms.writable <==> forall v :: v in visited ==> v.1 / 2 % 2 == 1)
            && (t.perms.user <==> forall v :: v in visited ==> v.1 / 4 % 2 == 1)
            && (t.perms.executable <==> forall v :: v in visited ==> v.1 < 0x8000_0000_0000_0000)
  {
    EntriesAreLawful();
    Spans();
    var fmt, base, top := Entries(), TableBase(cr3), TopLevel(mode);
    var leaf := WalkLeaf(mem, vm, fmt, base, gva, top, ALL_PERMISSIONS);
    LeafIsLow(mem, vm, base, gva, top, ALL_PERMISSIONS);
    WalkRights(mem, vm, fmt, base, gva, top, ALL_PERMISSIONS);
    VisitedDecode(mem, vm, base, gva, top, ALL_PERMISSIONS);
    hide Walk, Visited, Grants, Lawful, Span, TableBase;
    forall v | v in Visited(mem, vm, fmt, base, gva, top)
      ensures Grants(v.1) == Permissions(v.1 / 2 % 2 == 1, v.1 / 4 % 2 == 1, v.1 < 0x8000_0000_0000_0000)
    {
      RightsInBits(v.1);
    }
  }

  lemma RightsInBits(entry: u64)
    ensures Grants(entry) == Permissions(entry / 2 % 2 == 1, entry / 4 % 2 == 1, entry < 0x8000_0000_0000_0000)
  {
  }

  lemma {:induction false} LeafIsLow(mem: GuestMemory, vm: VmId, base: nat, gva: nat, level: nat, granted: Permissions)
    requires Lawful(Entries())
    requires Walk(mem, vm, Entries(), base, gva, level, granted).Ok?
    ensures var t := Walk(mem, vm, Entries(), base, gva, level, granted).value;
            t.size == PAGE_4K || t.size == PAGE_2M || t.size == PAGE_1G
    decreases level
  {
    var d := Decode(level, ReadEntry(mem, vm, base, Index(Entries(), gva, level), level).value);
    if d.Table? {
      LeafIsLow(mem, vm, d.next, gva, level - 1, granted.And(d.grants));
    }
  }

  /** Every entry on a successful walk is a table or a leaf, so its rights are its bits. */
  lemma {:induction false} VisitedDecode(mem: GuestMemory, vm: VmId, base: nat, gva: nat, level: nat,
                                         granted: Permissions)
    requires Lawful(Entries())
    requires Walk(mem, vm, Entries(), base, gva, level, granted).Ok?
    ensures forall v :: v in Visited(mem, vm, Entries(), base, gva, level) ==>
              TableWalk.Grants(Entries(), v) == Grants(v.1)
    decreases level
  {
    var entry := ReadEntry(mem, vm, base, Index(Entries(), gva, level), level).value;
    var d := Decode(level, entry);
    var rest := [];
    if d.Table? {
      VisitedDecode(mem, vm, d.next, gva, level - 1, granted.And(d.grants));
      rest := Visited(mem, vm, Entries(), d.next, gva, level - 1);
    }
    assert Visited(mem, vm, Entries(), base, gva, level) == [(level, entry)] + rest;
  }

  /** Every address of the page a translation found translates alike. */
  lemma SamePageSameTranslation(mem: GuestMemory, vm: VmId, cr3: u64, gva: u64, other: u64, mode: PagingMode)
    requires Translate(mem, vm, Some(cr3), gva, mode).Ok?
    requires var size := Translate(mem, vm, Some(cr3), gva, mode).value.size;
             size > 0 && gva / size == other / size
    ensures var t := Translate(mem, vm, Some(cr3), gva, mode).value;
            Translate(mem, vm, Some(cr3), other, mode) == Ok(Rebased(t, other))
  {
    EntriesAreLawful();
    LeafIsLow(mem, vm, TableBase(cr3), gva, TopLevel(mode), ALL_PERMISSIONS);
    var t := Translate(mem, vm, Some(cr3), gva, mode).value;
    CanonicalTogether(gva, other, t.size, mode);
    WalkWithinPage(mem, vm, Entries(), TableBase(cr3), gva, other, TopLevel(mode), ALL_PERMISSIONS);
  }

  lemma CanonicalTogether(gva: u64, other: u64, size: nat, mode: PagingMode)
    requires size == PAGE_4K || size == PAGE_2M || size == PAGE_1G
    requires gva / size == other / size && Canonical(gva, mode)
    ensures Canonical(other, mode)
  {
  }

  /** The overflow check of the entry reader never fires on an x86 walk. */
  lemma NoEntryOverflow(mem: GuestMemory, vm: VmId, cr3: Option<u64>, gva: u64, mode: PagingMode)
    ensures var r := Translate(mem, vm, cr3, gva, mode);
            r.Err? ==> !r.error.EntryAddressOverflow? && !r.error.NoLeaf?
  {
    EntriesAreLawful();
    if Canonical(gva, mode) && cr3.Some? {
      WalkInBounds(mem, vm, Entries(), TableBase(cr3.value), gva, TopLevel(mode), ALL_PERMISSIONS);
      AlwaysALeaf(mem, vm, TableBase(cr3.value), gva, TopLevel(mode), ALL_PERMISSIONS);
    }
  }

  lemma {:induction false} AlwaysALeaf(mem: GuestMemory, vm: VmId, base: nat, gva: nat, level: nat,
                                       granted: Permissions)
    requires Lawful(Entries())
    ensures var r := Walk(mem, vm, Entries(), base, gva, level, granted); r.Err? ==> !r.error.NoLeaf?
    decreases level
  {
    var read := ReadEntry(mem, vm, base, Index(Entries(), gva, level), level);
    if read.Ok? && level > 0 {
      var d := Decode(level, read.value);
      if d.Table? {
        AlwaysALeaf(mem, vm, d.next, gva, level - 1, granted.And(d.grants));
      }
    }
  }

  /** Addresses of the entries a translation reads. */
  ghost function Reads(mem: GuestMemory, vm: VmId, cr3: u64, gva: u64, mode: PagingMode): seq<nat> {
    EntriesAreLawful();
    if !Canonical(gva, mode) then []
    else Footprint(mem, vm, Entries(), TableBase(cr3), gva, TopLevel(mode))
  }

  /** A translation changes only if an entry it reads changes. */
  lemma TranslateFrame(mem: GuestMemory, mem': GuestMemory, vm: VmId, cr3: u64, gva: u64, mode: PagingMode)
    requires forall at :: at in Reads(mem, vm, cr3, gva, mode) ==> SameCell(mem, mem', vm, at)
    ensures Translate(mem', vm, Some(cr3), gva, mode) == Translate(mem, vm, Some(cr3), gva, mode)
  {
    EntriesAreLawful();
    if Canonical(gva, mode) {
      WalkFrame(mem, mem', vm, Entries(), TableBase(cr3), gva, TopLevel(mode), ALL_PERMISSIONS);
    }
  }

  // --- A translation in terms of bits ---

  /** The entries on the way to an address. */
  ghost function Entered(mem: GuestMemory, vm: VmId, cr3: u64, gva: u64, mode: PagingMode): seq<(nat, u64)> {
    EntriesAreLawful();
    Visited(mem, vm, Entries(), TableBase(cr3), gva, TopLevel(mode))
  }

  /** The place of the entry `i` levels down: in the page that bits 12 to 51 of CR3, or of the entry before, name, at
      the nine bits of the address for its level. */
  function PlaceOf(cr3: u64, gva: u64, top: nat, visited: seq<(nat, u64)>, i: nat): nat
    requires i <= top && i <= |visited|
  {
    Named(if i == 0 then cr3 else visited[i - 1].1, 0x1000) + gva / EntrySpan(top - i) % 512 * 8
  }

  /** The walk reads one entry a level, at these places, and all but the last name tables. */
  ghost predicate OnPath(mem: GuestMemory, vm: VmId, cr3: u64, gva: u64, top: nat, places: seq<nat>,
                         visited: seq<(nat, u64)>)
  {
    && 0 < |places| <= top + 1 && |visited| <= |places| <= |visited| + 1
    && (forall i :: 0 <= i < |visited| ==> visited[i].0 == top - i && WordAt(mem, vm, places[i], visited[i].1))
    && (forall i :: 0 <= i < |places| ==> places[i] == PlaceOf(cr3, gva, top, visited, i))
    && (forall i :: 0 <= i < |places| - 1 ==> NamesTable(top - i, visited[i].1))
  }

  lemma PlaceIs(cr3: u64, gva: u64, top: nat, visited: seq<(nat, u64)>, i: nat, at: nat)
    requires Lawful(Entries()) && i <= top <= 4 && i <= |visited|
    requires Placed(Entries(), TableBase(cr3), gva, top, visited, i, at)
    ensures at == PlaceOf(cr3, gva, top, visited, i)
    ensures i > 0 ==> NamesTable(top - i + 1, visited[i - 1].1)
  {
    Spans();
    IndexIs(Entries(), gva, top - i);
    MaskedIs(cr3, PAGE_4K, 0x100_0000_0000);
    if i > 0 {
      DecodeExactly(top - i + 1, visited[i - 1].1);
    }
    hide Lawful, Span, Index, Decode, Masked;
  }

  lemma PathInBits(mem: GuestMemory, vm: VmId, cr3: u64, gva: u64, top: nat, places: seq<nat>, visited: seq<(nat, u64)>)
    requires Lawful(Entries()) && top <= 4
    requires IsPath(mem, vm, Entries(), TableBase(cr3), gva, top, places, visited)
    ensures OnPath(mem, vm, cr3, gva, top, places, visited)
  {
    hide Lawful, Placed, WordAt, NamesTable, TableBase, PlaceOf;
    forall i | 0 <= i < |places|
      ensures places[i] == PlaceOf(cr3, gva, top, visited, i)
      ensures i > 0 ==> NamesTable(top - i + 1, visited[i - 1].1)
    {
      PlaceIs(cr3, gva, top, visited, i, places[i]);
    }
    forall i | 0 <= i < |places| - 1 ensures NamesTable(top - i, visited[i].1) {
      PlaceIs(cr3, gva, top, visited, i + 1, places[i + 1]);
    }
  }

  lemma TranslationPath(mem: GuestMemory, vm: VmId, cr3: u64, gva: u64, mode: PagingMode)
    requires Canonical(gva, mode)
    ensures OnPath(mem, vm, cr3, gva, TopLevel(mode), Reads(mem, vm, cr3, gva, mode), Entered(mem, vm, cr3, gva, mode))
  {
    EntriesAreLawful();
    WalkIsPath(mem, vm, Entries(), TableBase(cr3), gva, TopLevel(mode));
    hide Lawful, IsPath, OnPath, Visited, Footprint, TableBase;
    PathInBits(mem, vm, cr3, gva, TopLevel(mode), Reads(mem, vm, cr3, gva, mode), Entered(mem, vm, cr3, gva, mode));
  }

  /** How such a path ends: where no word is to be read; at an entry that is not present or malformed; or at one that
      names the page, by its bits from the size of the page up to 51. */
  ghost predicate PathEnds(mem: GuestMemory, vm: VmId, gva: u64, places: seq<nat>, visited: seq<(nat, u64)>, r: Outcome)
  {
    if |visited| < |places| then
      var at := places[|places| - 1];
      !HoldsWord(mem, vm, at) && r == Err(ReadFailure(mem, vm, at))
    else if visited == [] then false
    else
      var (level, last) := visited[|visited| - 1];
      if last % 2 == 0 then r == Err(EntryFault(level, NotPresent))
      else if !NamesPage(level, last) then r == Err(EntryFault(level, Malformed))
      else
        && r.Ok? && r.value.size == EntrySpan(level)
        && r.value.gpa == Named(last, EntrySpan(level)) + gva % EntrySpan(level)
  }

  lemma EndInBits(mem: GuestMemory, vm: VmId, gva: u64, places: seq<nat>, visited: seq<(nat, u64)>, r: Outcome)
    requires EndsAt(mem, vm, Entries(), gva, places, visited, r)
    ensures PathEnds(mem, vm, gva, places, visited, r)
  {
    if visited != [] {
      DecodeExactly(visited[|visited| - 1].0, visited[|visited| - 1].1);
    }
    hide HoldsWord, ReadFailure, Named, Decode;
  }

  lemma TranslationEnd(mem: GuestMemory, vm: VmId, cr3: u64, gva: u64, mode: PagingMode)
    requires Canonical(gva, mode)
    ensures PathEnds(mem, vm, gva, Reads(mem, vm, cr3, gva, mode), Entered(mem, vm, cr3, gva, mode),
                     Translate(mem, vm, Some(cr3), gva, mode))
  {
    EntriesAreLawful();
    WalkEnds(mem, vm, Entries(), TableBase(cr3), gva, TopLevel(mode), ALL_PERMISSIONS);
    hide Lawful, EndsAt, PathEnds, Walk, Visited, Footprint, TableBase;
    EndInBits(mem, vm, gva, Reads(mem, vm, cr3, gva, mode), Entered(mem, vm, cr3, gva, mode),
              Translate(mem, vm, Some(cr3), gva, mode));
  }
}
