/** arm64 stage-1 translation for the 4K, 16K and 64K granules. */
module Arm64Stage1 {
  import opened Machine
  import opened PageTables
  import opened Division
  import opened TableWalk

  datatype Granule = Size4K | Size16K | Size64K
  datatype Tcr = Tcr(t0sz: nat, t1sz: nat, granule: Granule)
  datatype Context = Context(ttbr0: Option<u64>, ttbr1: Option<u64>, tcr: Tcr)

  const OUTPUT_LIMIT := 0x1_0000_0000_0000

  function Pow2(n: nat): (p: nat)
    ensures p > 0
  {
    if n == 0 then 1 else 2 * Pow2(n - 1)
  }

  // --- Granule configuration ---

  function PageSize(g: Granule): nat {
    match g case Size4K => 0x1000 case Size16K => 0x4000 case Size64K => 0x1_0000
  }

  function OffsetBits(g: Granule): nat {
    match g case Size4K => 12 case Size16K => 14 case Size64K => 16
  }

  function IndexBits(g: Granule): nat {
    match g case Size4K => 9 case Size16K => 11 case Size64K => 13
  }

  function MinStartLevel(g: Granule): nat {
    match g case Size4K => 0 case Size16K => 1 case Size64K => 2
  }

  function MaxVaBits(g: Granule): nat {
    match g case Size4K => 48 case Size16K => 47 case Size64K => 42
  }

  /** A table fills a page, and the widest region is all that the first level covers. */
  lemma GranuleShape(g: Granule)
    ensures PageSize(g) == Pow2(OffsetBits(g)) == 8 * Pow2(IndexBits(g))
    ensures MaxVaBits(g) == LevelCoverageBits(g, MinStartLevel(g)) && MaxVaBits(g) <= 48 < MaxVaBits(g) + IndexBits(g)
  {
    Pow2Values();
  }

  function LevelShift(g: Granule, level: nat): nat
    requires level <= 3
  {
    OffsetBits(g) + IndexBits(g) * (3 - level)
  }

  function LevelCoverageBits(g: Granule, level: nat): nat
    requires level <= 3
  {
    LevelShift(g, level) + IndexBits(g)
  }

  /** Block size with `remaining` levels below (architectural level 3 - remaining);
      0 where blocks are not allowed. */
  function BlockSize(g: Granule, remaining: nat): nat {
    match (g, remaining)
    case (Size4K, 1) => 0x20_0000
    case (Size4K, 2) => 0x4000_0000
    case (Size16K, 1) => 0x200_0000
    case (Size16K, 2) => 0x10_0000_0000
    case (Size64K, 1) => 0x2000_0000
    case _ => 0
  }

  // --- Descriptors ---

  function TableGrants(d: nat): Permissions {
    Permissions(!Bit(d, 0x4000_0000_0000_0000), !Bit(d, 0x2000_0000_0000_0000),
                !Bit(d, 0x1000_0000_0000_0000) && !Bit(d, 0x800_0000_0000_0000))
  }

  function LeafGrants(d: nat): Permissions {
    Permissions(!Bit(d, 0x80), Bit(d, 0x40), !Bit(d, 0x40_0000_0000_0000) && !Bit(d, 0x20_0000_0000_0000))
  }

  predicate OutputHighBits(d: nat) {
    Masked(d, OUTPUT_LIMIT, 0x10_0000_0000_0000) != 0
  }

  /** `d & aligned_output_mask(alignment)`. */
  function AlignedOutput(d: nat, alignment: nat): int
    requires alignment > 0
  {
    Masked(d, alignment, OUTPUT_LIMIT)
  }

  function DecodeLeaf(d: u64, size: nat): Descriptor
    requires size > 0 && AlignedOutput(d, size) >= 0
  {
    if OutputHighBits(d) || Masked(d, 0x1000, size) != 0 then Fault(Malformed)
    else Leaf(AlignedOutput(d, size), size, LeafGrants(d))
  }

  lemma Outputs(d: u64, size: nat)
    requires size == 0x1000 || size == 0x4000 || size == 0x1_0000 || size == 0x20_0000 || size == 0x4000_0000
          || size == 0x200_0000 || size == 0x10_0000_0000 || size == 0x2000_0000
    ensures 0 <= AlignedOutput(d, size) <= OUTPUT_LIMIT - size && AlignedOutput(d, size) % size == 0
  {
    assert size * (OUTPUT_LIMIT / size) == OUTPUT_LIMIT;
    MaskedAligned(d, size, OUTPUT_LIMIT / size);
  }

  function Decode(g: Granule, remaining: nat, d: u64): Descriptor {
    if !Bit(d, 1) then Fault(NotPresent)
    else if !Bit(d, 2) then
      var size := BlockSize(g, remaining);
      if size == 0 then Fault(Malformed) else Outputs(d, size); DecodeLeaf(d, size)
    else
      Outputs(d, PageSize(g));
      if remaining == 0 then DecodeLeaf(d, PageSize(g))
      else if OutputHighBits(d) || Masked(d, 4, PageSize(g)) != 0 then Fault(Malformed)
      else Table(AlignedOutput(d, PageSize(g)), TableGrants(d))
  }

  ghost function Descriptors(g: Granule): Format {
    Format(PageSize(g), PageSize(g) / 8, OUTPUT_LIMIT, (remaining: nat, d: u64) => Decode(g, remaining, d))
  }

  lemma Spans(g: Granule, remaining: nat)
    ensures Span(Descriptors(g), 0) == PageSize(g)
    ensures BlockSize(g, remaining) != 0 ==> Span(Descriptors(g), remaining) == BlockSize(g, remaining)
  {
    var f := Descriptors(g);
    assert Span(f, 0) == PageSize(g);
    if BlockSize(g, remaining) != 0 {
      assert remaining == 1 || remaining == 2;
      assert Span(f, 1) == PageSize(g) * (PageSize(g) / 8);
      if remaining == 2 {
        assert Span(f, 2) == Span(f, 1) * (PageSize(g) / 8);
      }
    }
  }

  lemma DecodeFits(g: Granule, remaining: nat, d: u64)
    ensures Fits(Decode(g, remaining, d), PageSize(g), Span(Descriptors(g), remaining), OUTPUT_LIMIT)
  {
    Spans(g, remaining);
    Outputs(d, PageSize(g));
    var size := BlockSize(g, remaining);
    if size != 0 { Outputs(d, size); }
  }

  lemma DescriptorsAreLawful(g: Granule)
    ensures Lawful(Descriptors(g))
  {
    forall level: nat, d: u64
      ensures Fits(Descriptors(g).decode(level, d), PageSize(g), Span(Descriptors(g), level), OUTPUT_LIMIT)
    {
      DecodeFits(g, level, d);
    }
  }

  // --- Regions ---

  /** `va_bits_from_tsz`: the width of a region, when the granule supports it. */
  function VaBits(tsz: nat, g: Granule): Option<nat> {
    if tsz > 64 then None
    else if 64 - tsz < OffsetBits(g) || 64 - tsz > MaxVaBits(g) then None
    else Some(64 - tsz)
  }

  /** The sizes each granule supports, as values of the TCR's size field. */
  lemma RegionSizes(tsz: nat, g: Granule)
    ensures VaBits(tsz, g).Some? <==>
            match g case Size4K => 16 <= tsz <= 52 case Size16K => 17 <= tsz <= 50 case Size64K => 22 <= tsz <= 48
    ensures VaBits(tsz, g).Some? ==> VaBits(tsz, g).value + tsz == 64
  {
  }

  /** The level scan always stops at once: the widest level covers every accepted size. */
  method StartLevel(g: Granule, vaBits: nat) returns (r: Result<nat, TranslationError>)
    ensures vaBits <= MaxVaBits(g) ==> r == Ok(MinStartLevel(g))
    ensures vaBits > MaxVaBits(g) ==> r == Err(UnsupportedSize)
  {
    var level := MinStartLevel(g);
    while level <= 3
      invariant MinStartLevel(g) <= level <= 4
      invariant level > MinStartLevel(g) ==> vaBits > MaxVaBits(g)
    {
      if vaBits <= LevelCoverageBits(g, level) {
        return Ok(level);
      }
      level := level + 1;
    }
    r := Err(UnsupportedSize);
  }

  /** The region an address falls in: its root, its width and the address within it. */
  datatype Selected = Selected(ttbr: u64, input: nat, bits: nat)

  function Select(context: Context, va: u64): Result<Selected, TranslationError> {
    var t0 := VaBits(context.tcr.t0sz, context.tcr.granule);
    var t1 := VaBits(context.tcr.t1sz, context.tcr.granule);
    if t0 == None || t1 == None then Err(UnsupportedSize)
    else if va < Pow2(t0.value) then
      if context.ttbr0 == None then Err(MissingContext)
      else Ok(Selected(context.ttbr0.value, va, t0.value))
    else if va >= TWO_64 - Pow2(t1.value) then
      if context.ttbr1 == None then Err(MissingContext)
      else Ok(Selected(context.ttbr1.value, va % Pow2(t1.value), t1.value))
    else Err(InvalidAddress)
  }

  function RootBase(ttbr: u64, g: Granule): nat {
    Outputs(ttbr, PageSize(g));
    AlignedOutput(ttbr, PageSize(g))
  }

  ghost function RegionWalk(mem: GuestMemory, vm: VmId, g: Granule, ttbr: u64, input: nat): Outcome {
    DescriptorsAreLawful(g);
    Walk(mem, vm, Descriptors(g), RootBase(ttbr, g), input, 3 - MinStartLevel(g), ALL_PERMISSIONS)
  }

  ghost function Translate(mem: GuestMemory, vm: VmId, context: Context, va: u64): Outcome {
    match Select(context, va)
    case Err(e) => Err(e)
    case Ok(s) => RegionWalk(mem, vm, context.tcr.granule, s.ttbr, s.input)
  }

  // --- The walk as the loop over levels ---

  lemma {:induction false} Pow2Add(a: nat, b: nat)
    ensures Pow2(a + b) == Pow2(a) * Pow2(b)
  {
    if b > 0 {
      Pow2Add(a, b - 1);
      assert Pow2(a) * Pow2(b) == 2 * (Pow2(a) * Pow2(b - 1));
    }
  }

  lemma Pow2Word()
    ensures Pow2(64) == TWO_64
  {
    Pow2Sixteen();
    hide Pow2;
    Pow2Add(16, 16);
    Pow2Add(32, 32);
  }

  lemma Pow2Sixteen()
    ensures Pow2(4) == 16 && Pow2(8) == 0x100 && Pow2(16) == 0x1_0000
  {
    assert Pow2(4) == 16;
    Pow2Add(4, 4);
    Pow2Add(8, 8);
  }

  lemma Pow2Values()
    ensures Pow2(9) == 0x200 && Pow2(11) == 0x800 && Pow2(12) == 0x1000 && Pow2(13) == 0x2000 && Pow2(14) == 0x4000
    ensures Pow2(16) == 0x1_0000 && Pow2(42) == 0x400_0000_0000 && Pow2(48) == 0x1_0000_0000_0000 && Pow2(64) == TWO_64
  {
    assert Pow2(1) == 2 && Pow2(2) == 4 && Pow2(3) == 8;
    Pow2Sixteen();
    Pow2Word();
    hide Pow2;
    Pow2Add(8, 1);
    Pow2Add(8, 3);
    Pow2Add(8, 4);
    Pow2Add(12, 1);
    Pow2Add(12, 2);
    Pow2Add(16, 16);
    Pow2Add(32, 16);
    Pow2Add(32, 8);
    Pow2Add(40, 2);
  }

  lemma {:induction false} ShiftIsSpan(g: Granule, remaining: nat)
    ensures Pow2(OffsetBits(g) + IndexBits(g) * remaining) == Span(Descriptors(g), remaining)
  {
    Pow2Values();
    if remaining > 0 {
      ShiftIsSpan(g, remaining - 1);
      Pow2Add(OffsetBits(g) + IndexBits(g) * (remaining - 1), IndexBits(g));
      assert IndexBits(g) * remaining == IndexBits(g) * (remaining - 1) + IndexBits(g);
      assert Pow2(IndexBits(g)) == PageSize(g) / 8;
    }
  }

  /** `table_index`. */
  function TableIndex(input: nat, level: nat, g: Granule): nat
    requires level <= 3
  {
    input / Pow2(LevelShift(g, level)) % Pow2(IndexBits(g))
  }

  lemma TableIndexIsIndex(input: nat, level: nat, g: Granule)
    requires level <= 3
    ensures Lawful(Descriptors(g))
    ensures TableIndex(input, level, g) == Index(Descriptors(g), input, 3 - level)
  {
    hide Pow2, Span;
    DescriptorsAreLawful(g);
    ShiftIsSpan(g, 3 - level);
    Pow2Values();
    IndexIs(Descriptors(g), input, 3 - level);
  }

  method SelectTtbr(context: Context, va: u64) returns (r: Result<(u64, nat, nat), TranslationError>)
    ensures match Select(context, va)
            case Err(e) => r == Err(e)
            case Ok(s) => r == Ok((s.ttbr, s.input, MinStartLevel(context.tcr.granule)))
  {
    var g := context.tcr.granule;
    var t0 := VaBits(context.tcr.t0sz, g);
    if t0 == None { return Err(UnsupportedSize); }
    var t1 := VaBits(context.tcr.t1sz, g);
    if t1 == None { return Err(UnsupportedSize); }
    if va < Pow2(t0.value) {
      if context.ttbr0 == None { return Err(MissingContext); }
      var start := StartLevel(g, t0.value);
      return Ok((context.ttbr0.value, va, start.value));
    }
    if va >= TWO_64 - Pow2(t1.value) {
      if context.ttbr1 == None { return Err(MissingContext); }
      var start := StartLevel(g, t1.value);
      return Ok((context.ttbr1.value, va % Pow2(t1.value), start.value));
    }
    r := Err(InvalidAddress);
  }

  lemma WalkAt(mem: GuestMemory, vm: VmId, g: Granule, base: nat, input: nat, level: nat, granted: Permissions)
    requires level <= 3
    ensures Lawful(Descriptors(g))
    ensures Walk(mem, vm, Descriptors(g), base, input, 3 - level, granted)
         == Continue(mem, vm, Descriptors(g), ReadEntry(mem, vm, base, TableIndex(input, level, g), 3 - level),
                     input, 3 - level, granted)
  {
    TableIndexIsIndex(input, level, g);
    WalkUnfolds(mem, vm, Descriptors(g), base, input, 3 - level, granted, TableIndex(input, level, g));
  }

  method TranslateArm64(mem: GuestMemory, vm: VmId, context: Context, va: u64) returns (r: Outcome)
    ensures r == Translate(mem, vm, context, va)
  {
    hide Lawful, Index, Span, Bit, Masked, Select, Pow2, ReadEntry, TableIndex;
    var g := context.tcr.granule;
    var selected := SelectTtbr(context, va);
    if selected.Err? { return Err(selected.error); }
    var input, level := selected.value.1, selected.value.2;
    var tableBase: nat := RootBase(selected.value.0, g);
    var perms := ALL_PERMISSIONS;
    DescriptorsAreLawful(g);
    while level <= 3
      invariant MinStartLevel(g) <= level <= 4
      invariant Translate(mem, vm, context, va)
             == if level <= 3 then Walk(mem, vm, Descriptors(g), tableBase, input, 3 - level, perms) else Err(NoLeaf)
    {
      WalkAt(mem, vm, g, tableBase, input, level, perms);
      var descriptor := ReadEntry(mem, vm, tableBase, TableIndex(input, level, g), 3 - level);
      if descriptor.Err? { return Err(descriptor.error); }
      var d := descriptor.value;
      if !Bit(d, 1) { return Err(EntryFault(3 - level, NotPresent)); }
      Outputs(d, PageSize(g));
      if !Bit(d, 2) {
        var size := BlockSize(g, 3 - level);
        if size == 0 { return Err(EntryFault(3 - level, Malformed)); }
        Outputs(d, size);
        return Finish(DecodeLeaf(d, size), input, 3 - level, perms);
      } else if level == 3 {
        return Finish(DecodeLeaf(d, PageSize(g)), input, 0, perms);
      }
      if OutputHighBits(d) || Masked(d, 4, PageSize(g)) != 0 { return Err(EntryFault(3 - level, Malformed)); }
      perms := perms.And(TableGrants(d));
      tableBase := AlignedOutput(d, PageSize(g));
      level := level + 1;
    }
    r := Err(NoLeaf);
  }

  // --- When a translation speaks for its whole page ---

  lemma {:induction false} Pow2Less(a: nat, b: nat)
    requires a < b
    ensures 2 * Pow2(a) <= Pow2(b)
  {
    if a + 1 < b { Pow2Less(a, b - 1); }
  }

  /** A power of two divides every larger one. */
  lemma Pow2Factor(size: nat, k: nat, n: nat) returns (q: nat)
    requires size == Pow2(k) && size <= Pow2(n)
    ensures q > 0 && Pow2(n) == size * q
  {
    if n < k { Pow2Less(n, k); }
    Pow2Add(k, n - k);
    q := Pow2(n - k);
  }

  /** Page sizes are powers of two no larger than the 512 GiB a level-0 entry spans. */
  lemma SizeBits(g: Granule, leaf: nat)
    requires leaf <= 3 - MinStartLevel(g)
    ensures OffsetBits(g) + IndexBits(g) * leaf <= 39
    ensures Span(Descriptors(g), leaf) == Pow2(OffsetBits(g) + IndexBits(g) * leaf)
  {
    ShiftIsSpan(g, leaf);
    match g
    case Size4K => assert IndexBits(g) * leaf == 9 * leaf;
    case Size16K => assert IndexBits(g) * leaf == 11 * leaf;
    case Size64K => assert IndexBits(g) * leaf == 13 * leaf;
  }

  lemma RegionWalkSize(mem: GuestMemory, vm: VmId, g: Granule, ttbr: u64, input: nat) returns (k: nat)
    requires RegionWalk(mem, vm, g, ttbr, input).Ok?
    ensures var t := RegionWalk(mem, vm, g, ttbr, input).value;
            t.size == Pow2(k) && k <= 39 && t.gpa < OUTPUT_LIMIT && t.gpa % t.size == input % t.size
  {
    hide Pow2, Walk, RootBase;
    DescriptorsAreLawful(g);
    var leaf := WalkLeaf(mem, vm, Descriptors(g), RootBase(ttbr, g), input, 3 - MinStartLevel(g), ALL_PERMISSIONS);
    SizeBits(g, leaf);
    k := OffsetBits(g) + IndexBits(g) * leaf;
  }

  lemma RegionWalkWithinPage(mem: GuestMemory, vm: VmId, g: Granule, ttbr: u64, input: nat, other: nat)
    requires RegionWalk(mem, vm, g, ttbr, input).Ok?
    requires var size := RegionWalk(mem, vm, g, ttbr, input).value.size;
             size > 0 && input / size == other / size
    ensures RegionWalk(mem, vm, g, ttbr, other) == Ok(Rebased(RegionWalk(mem, vm, g, ttbr, input).value, other))
  {
    hide Walk, RootBase;
    DescriptorsAreLawful(g);
    WalkWithinPage(mem, vm, Descriptors(g), RootBase(ttbr, g), input, other, 3 - MinStartLevel(g), ALL_PERMISSIONS);
  }

  lemma BoundaryRespected(a: u64, b: u64, size: nat, k: nat)
    requires size > 0 && a / size == b / size
    ensures a < size * k <==> b < size * k
  {
    if a / size < k {
      LessMul(a, size, k);
      LessMul(b, size, k);
    } else {
      AtLeastMul(a, size, k);
      AtLeastMul(b, size, k);
    }
  }

  lemma LessMul(a: nat, size: nat, k: nat)
    requires size > 0 && a / size < k
    ensures a < size * k
  {
    var q := a / size;
    assert a < (q + 1) * size;
    assert (k - (q + 1)) * size >= 0;
    assert (k - (q + 1)) * size == size * k - (q + 1) * size;
  }

  lemma AtLeastMul(a: nat, size: nat, k: nat)
    requires size > 0 && a / size >= k
    ensures a >= size * k
  {
    var q := a / size;
    assert a >= q * size;
    assert (q - k) * size >= 0;
    assert (q - k) * size == q * size - size * k;
  }

  lemma RegionBits(context: Context, va: u64)
    requires Select(context, va).Ok?
    ensures var s := Select(context, va).value;
            12 <= s.bits <= 48 && 0x1000 <= Pow2(s.bits) <= 0x1_0000_0000_0000
            && s.input == va % Pow2(s.bits) && s.input < Pow2(s.bits)
  {
    hide Pow2;
    Pow2Values();
    var s := Select(context, va).value;
    if s.bits < 48 { Pow2Less(s.bits, 48); }
    if 12 < s.bits { Pow2Less(12, s.bits); }
    if va < Pow2(s.bits) { DivUnique(va, Pow2(s.bits), 0, va); }
  }

  /** Two addresses of one page of `size` bytes, seen from a region of `size * q` bytes
      at either end of the `size * q64` bytes of address space. */
  lemma PageInRegion(va: u64, other: u64, size: nat, q: nat, q64: nat)
    requires size > 0 && q > 0 && size * q < size * q64 == TWO_64
    requires va / size == other / size
    ensures va < size * q <==> other < size * q
    ensures va >= TWO_64 - size * q <==> other >= TWO_64 - size * q
    ensures (va % (size * q)) / size == (other % (size * q)) / size
    ensures (va % (size * q)) % size == va % size
    ensures (other % (size * q)) % size == other % size
  {
    CancelLess(q, q64, size);
    BoundaryRespected(va, other, size, q);
    assert size * (q64 - q) == TWO_64 - size * q;
    BoundaryRespected(va, other, size, q64 - q);
    DivDiv(va, size, q);
    DivDiv(other, size, q);
    SameOffset(va, size, q);
    SameOffset(other, size, q);
  }

  /** If the page fits in its region, every address of the page selects the same
      region, at the same offset. */
  lemma SamePageSameRegion(context: Context, va: u64, other: u64, size: nat, k: nat)
    requires Select(context, va).Ok?
    requires size == Pow2(k) && size <= Pow2(Select(context, va).value.bits) && va / size == other / size
    ensures var s := Select(context, va).value;
            Select(context, other) == Ok(s.(input := other % Pow2(s.bits)))
    ensures var s := Select(context, va).value;
            s.input / size == (other % Pow2(s.bits)) / size && (other % Pow2(s.bits)) % size == other % size
            && s.input % size == va % size
  {
    hide Pow2;
    RegionBits(context, va);
    Pow2Values();
    var s := Select(context, va).value;
    var q := Pow2Factor(size, k, s.bits);
    var q64 := Pow2Factor(size, k, 64);
    PageInRegion(va, other, size, q, q64);
    if va < Pow2(VaBits(context.tcr.t0sz, context.tcr.granule).value) {
      DivUnique(other, Pow2(s.bits), 0, other);
    } else {
      OtherRegionBits(context, va, other);
    }
  }

  /** An address in the upper region is never below the lower one's end. */
  lemma OtherRegionBits(context: Context, va: u64, other: u64)
    requires Select(context, va).Ok? && va >= Pow2(VaBits(context.tcr.t0sz, context.tcr.granule).value)
    requires other >= TWO_64 - Pow2(Select(context, va).value.bits)
    ensures var s := Select(context, va).value;
            Select(context, other) == Ok(s.(input := other % Pow2(s.bits)))
  {
    hide Pow2;
    RegionBits(context, va);
    Pow2Values();
    var t0 := VaBits(context.tcr.t0sz, context.tcr.granule).value;
    if t0 < 48 { Pow2Less(t0, 48); }
  }

  lemma SameOffset(x: nat, size: nat, q: nat)
    requires size > 0 && q > 0
    ensures size * q > 0 && (x % (size * q)) % size == x % size
    ensures (x % (size * q)) / size == x / size - (x / (size * q)) * q
  {
    ModMod(x, size, q);
    var m := size * q;
    var h := x / m;
    assert x == h * m + x % m;
    assert h * m == (h * q) * size;
    ModAdd(h * q, size, x % m);
  }

  /** A translation speaks for every address of its page exactly when the page is
      no larger than the region it was found in. */
  lemma PageSpeaksForRegion(mem: GuestMemory, vm: VmId, context: Context, va: u64)
    requires Translate(mem, vm, context, va).Ok?
    ensures var t := Translate(mem, vm, context, va).value;
            t.size > 0
            && ((forall other: u64 :: va / t.size == other / t.size ==>
                   Translate(mem, vm, context, other) == Ok(Rebased(t, other)))
                <==> t.size <= Pow2(Select(context, va).value.bits))
  {
    hide Pow2, RegionWalk;
    var t := Translate(mem, vm, context, va).value;
    var s := Select(context, va).value;
    var k := RegionWalkSize(mem, vm, context.tcr.granule, s.ttbr, s.input);
    if t.size <= Pow2(Select(context, va).value.bits) {
      forall other: u64 | va / t.size == other / t.size
        ensures Translate(mem, vm, context, other) == Ok(Rebased(t, other))
      {
        WithinRegion(mem, vm, context, va, other, s, t, k);
      }
    } else {
      var other := BeyondRegion(mem, vm, context, va, k);
    }
  }

  lemma WithinRegion(mem: GuestMemory, vm: VmId, context: Context, va: u64, other: u64, s: Selected, t: Translation,
                     k: nat)
    requires Select(context, va) == Ok(s)
    requires RegionWalk(mem, vm, context.tcr.granule, s.ttbr, s.input) == Ok(t)
    requires t.size == Pow2(k) && t.size <= Pow2(s.bits) && va / t.size == other / t.size
    ensures Translate(mem, vm, context, other) == Ok(Rebased(t, other))
  {
    hide Pow2, RegionWalk;
    var input := other % Pow2(s.bits);
    SamePageSameRegion(context, va, other, t.size, k);
    RegionWalkWithinPage(mem, vm, context.tcr.granule, s.ttbr, s.input, input);
    assert Select(context, other) == Ok(s.(input := input));
    assert Rebased(t, input) == Rebased(t, other);
  }

  lemma LastPageOffset(va: u64, size: nat, q: nat)
    requires size > 0 && size * q == TWO_64 && va >= TWO_64 - size
    ensures va % size == va - (TWO_64 - size)
  {
    assert (q - 1) * size == size * q - size;
    DivUnique(va, size, q - 1, va - (TWO_64 - size));
  }

  /** In the upper region, the offset within a larger page differs from the one within the region. */
  lemma UpperOffsetDiffers(va: u64, bits: nat, k: nat)
    requires bits < k <= 64 && va >= TWO_64 - Pow2(bits)
    ensures va % Pow2(k) >= Pow2(bits)
  {
    hide Pow2;
    Pow2Word();
    Pow2Less(bits, k);
    if k < 64 { Pow2Less(k, 64); }
    var q := Pow2Factor(Pow2(k), k, 64);
    LastPageOffset(va, Pow2(k), q);
  }

  /** A page larger than its region holds an address that does not translate alike. */
  lemma BeyondRegion(mem: GuestMemory, vm: VmId, context: Context, va: u64, k: nat) returns (other: u64)
    requires Translate(mem, vm, context, va).Ok?
    requires var t := Translate(mem, vm, context, va).value;
             t.size == Pow2(k) && k <= 39 && t.size > Pow2(Select(context, va).value.bits)
             && t.gpa % t.size == Select(context, va).value.input % t.size
    ensures var t := Translate(mem, vm, context, va).value;
            va / t.size == other / t.size && Translate(mem, vm, context, other) != Ok(Rebased(t, other))
  {
    hide Pow2, RegionWalk;
    RegionBits(context, va);
    var size := Pow2(k);
    var s := Select(context, va).value;
    if va < Pow2(VaBits(context.tcr.t0sz, context.tcr.granule).value) {
      Pow2Values();
      Pow2Less(k, 42);
      other := size - 1;
      DivUnique(va, size, 0, va);
      DivUnique(other, size, 0, other);
      PastTheEnd(context, other);
    } else {
      other := va;
      assert s.bits < k by { if k < s.bits { Pow2Less(k, s.bits); } }
      UpperOffsetDiffers(va, s.bits, k);
      DivUnique(s.input, size, 0, s.input);
    }
  }

  lemma PastTheEnd(context: Context, other: u64)
    requires VaBits(context.tcr.t0sz, context.tcr.granule).Some?
    requires Pow2(VaBits(context.tcr.t0sz, context.tcr.granule).value) <= other < 0x400_0000_0000
    ensures Select(context, other).Err?
  {
    hide Pow2;
    Pow2Values();
    var t1 := VaBits(context.tcr.t1sz, context.tcr.granule);
    if t1.Some? && t1.value < 48 { Pow2Less(t1.value, 48); }
  }

  /** Addresses of the descriptors a translation reads. */
  ghost function Reads(mem: GuestMemory, vm: VmId, context: Context, va: u64): seq<nat> {
    var g := context.tcr.granule;
    DescriptorsAreLawful(g);
    match Select(context, va)
    case Err(_) => []
    case Ok(s) => Footprint(mem, vm, Descriptors(g), RootBase(s.ttbr, g), s.input, 3 - MinStartLevel(g))
  }

  /** A translation changes only if a descriptor it reads changes. */
  lemma TranslateFrame(mem: GuestMemory, mem': GuestMemory, vm: VmId, context: Context, va: u64)
    requires forall at :: at in Reads(mem, vm, context, va) ==> SameCell(mem, mem', vm, at)
    ensures Translate(mem', vm, context, va) == Translate(mem, vm, context, va)
  {
    var g := context.tcr.granule;
    DescriptorsAreLawful(g);
    var selected := Select(context, va);
    if selected.Ok? {
      WalkFrame(mem, mem', vm, Descriptors(g), RootBase(selected.value.ttbr, g), selected.value.input,
                3 - MinStartLevel(g), ALL_PERMISSIONS);
    }
  }

  /** Only the selected root matters to a translation. */
  lemma OtherRootIrrelevant(mem: GuestMemory, vm: VmId, context: Context, va: u64)
    requires Select(context, va).Ok?
    ensures var lower := va < Pow2(VaBits(context.tcr.t0sz, context.tcr.granule).value);
            Translate(mem, vm, context, va)
            == Translate(mem, vm, if lower then context.(ttbr1 := None) else context.(ttbr0 := None), va)
  {
  }

  // --- The shape of a translation ---

  /** A block descriptor, or any descriptor of the last level, is a leaf. */
  predicate IsLeaf(remaining: nat, d: nat) {
    remaining == 0 || d / 2 % 2 == 0
  }

  /** Bit 7 of a leaf and bit 62 of a table take the right to write. */
  predicate LeavesWritable(remaining: nat, d: nat) {
    if IsLeaf(remaining, d) then d / 0x80 % 2 == 0 else d / 0x4000_0000_0000_0000 % 2 == 0
  }

  /** Bit 6 of a leaf gives user access, bit 61 of a table takes it. */
  predicate LeavesUser(remaining: nat, d: nat) {
    if IsLeaf(remaining, d) then d / 0x40 % 2 == 1 else d / 0x2000_0000_0000_0000 % 2 == 0
  }

  /** Bits 53 and 54 of a leaf, 59 and 60 of a table, take the right to execute. */
  predicate LeavesExecutable(remaining: nat, d: nat) {
    if IsLeaf(remaining, d) then d / 0x20_0000_0000_0000 % 4 == 0 else d / 0x800_0000_0000_0000 % 4 == 0
  }

  lemma RightsInBits(remaining: nat, d: u64)
    ensures var grants := if IsLeaf(remaining, d) then LeafGrants(d) else TableGrants(d);
            && grants.writable == LeavesWritable(remaining, d)
            && grants.user == LeavesUser(remaining, d)
            && grants.executable == LeavesExecutable(remaining, d)
  {
    TwoBits(d, 0x20_0000_0000_0000);
    TwoBits(d, 0x800_0000_0000_0000);
  }

  lemma TwoBits(d: u64, bit: nat)
    requires bit > 0
    ensures d / bit % 4 == 0 <==> !Bit(d, bit) && !Bit(d, 2 * bit)
  {
    DivDiv(d, bit, 2);
  }

  /** On a successful walk every descriptor is a table or a leaf, so its rights are those bits. */
  lemma {:induction false} VisitedDescriptors(mem: GuestMemory, vm: VmId, g: Granule, base: nat, va: nat, level: nat,
                                              granted: Permissions)
    requires Lawful(Descriptors(g)) && Walk(mem, vm, Descriptors(g), base, va, level, granted).Ok?
    ensures forall v :: v in Visited(mem, vm, Descriptors(g), base, va, level) ==>
              Grants(Descriptors(g), v) == if IsLeaf(v.0, v.1) then LeafGrants(v.1) else TableGrants(v.1)
    ensures var t := Walk(mem, vm, Descriptors(g), base, va, level, granted).value;
            t.size == PageSize(g) || t.size == BlockSize(g, 1) || t.size == BlockSize(g, 2)
    decreases level
  {
    hide LeafGrants, TableGrants, AlignedOutput, OutputHighBits, Masked;
    var entry := ReadEntry(mem, vm, base, Index(Descriptors(g), va, level), level).value;
    var d := Decode(g, level, entry);
    var rest := [];
    if d.Table? {
      VisitedDescriptors(mem, vm, g, d.next, va, level - 1, granted.And(d.grants));
      rest := Visited(mem, vm, Descriptors(g), d.next, va, level - 1);
    }
    assert Visited(mem, vm, Descriptors(g), base, va, level) == [(level, entry)] + rest;
  }

  /** A page or block of the granule, below 2^48, at the offset of the input, with the rights every descriptor leaves.
      */
  lemma TranslationShape(mem: GuestMemory, vm: VmId, context: Context, va: u64)
    requires Translate(mem, vm, context, va).Ok?
    ensures var g, s, t := context.tcr.granule, Select(context, va).value, Translate(mem, vm, context, va).value;
            && Lawful(Descriptors(g))
            && var visited := Visited(mem, vm, Descriptors(g), RootBase(s.ttbr, g), s.input, 3 - MinStartLevel(g));
            && (t.size == PageSize(g) || t.size == BlockSize(g, 1) || t.size == BlockSize(g, 2)) && t.size > 0
            && t.gpa < OUTPUT_LIMIT && t.gpa % t.size == s.input % t.size
            && (t.perms.writable <==> forall v :: v in visited ==> LeavesWritable(v.0, v.1))
            && (t.perms.user <==> forall v :: v in visited ==> LeavesUser(v.0, v.1))
            && (t.perms.executable <==> forall v :: v in visited ==> LeavesExecutable(v.0, v.1))
  {
    var g, s := context.tcr.granule, Select(context, va).value;
    DescriptorsAreLawful(g);
    var fmt, base, top := Descriptors(g), RootBase(s.ttbr, g), 3 - MinStartLevel(g);
    var leaf := WalkLeaf(mem, vm, fmt, base, s.input, top, ALL_PERMISSIONS);
    WalkRights(mem, vm, fmt, base, s.input, top, ALL_PERMISSIONS);
    VisitedDescriptors(mem, vm, g, base, s.input, top, ALL_PERMISSIONS);
    hide Walk, Visited, Bit, IsLeaf, Select, RootBase, LeafGrants, TableGrants;
    hide LeavesWritable, LeavesUser, LeavesExecutable;
    forall v | v in Visited(mem, vm, fmt, base, s.input, top)
      ensures Grants(fmt, v) == Permissions(LeavesWritable(v.0, v.1), LeavesUser(v.0, v.1), LeavesExecutable(v.0, v.1))
    {
      RightsInBits(v.0, v.1);
    }
  }

  // --- A translation in terms of bits ---

  /** Bits 48 to 51, which must be clear. */
  predicate HighBitsClear(d: u64) {
    d % 0x10_0000_0000_0000 / 0x1_0000_0000_0000 == 0
  }

  /** Blocks are allowed one level up, and two levels up for the smaller granules. */
  predicate BlocksAllowed(g: Granule, remaining: nat) {
    remaining == 1 || (remaining == 2 && g != Size64K)
  }

  predicate NamesTable(g: Granule, remaining: nat, d: u64) {
    d % 4 == 3 && remaining > 0 && HighBitsClear(d) && d % PageSize(g) / 4 == 0
  }

  /** A page of the last level, or a block, with no address bits from 12 up below its size. */
  ghost predicate NamesPage(g: Granule, remaining: nat, d: u64) {
    && (if remaining == 0 then d % 4 == 3 else d % 4 == 1 && BlocksAllowed(g, remaining))
    && HighBitsClear(d) && d % EntrySpan(g, remaining) / 0x1000 == 0
  }

  ghost function EntrySpan(g: Granule, remaining: nat): (span: nat)
    ensures span > 0
  {
    SpanPositive(Descriptors(g), remaining);
    Span(Descriptors(g), remaining)
  }

  /** The page or table a descriptor names: its bits up to 47, aligned to the size. */
  function Named(d: u64, size: nat): nat
    requires size > 0
  {
    d % 0x1_0000_0000_0000 / size * size
  }

  lemma OutputIs(d: u64, size: nat)
    requires size == 0x1000 || size == 0x4000 || size == 0x1_0000 || size == 0x20_0000 || size == 0x4000_0000
          || size == 0x200_0000 || size == 0x10_0000_0000 || size == 0x2000_0000
    ensures AlignedOutput(d, size) == Named(d, size)
    ensures Masked(d, 0x1000, size) == d % size / 0x1000 * 0x1000
  {
    assert size * (OUTPUT_LIMIT / size) == OUTPUT_LIMIT;
    MaskedIs(d, size, OUTPUT_LIMIT / size);
    assert 0x1000 * (size / 0x1000) == size;
    MaskedIs(d, 0x1000, size / 0x1000);
  }

  /** The lowest two bits, which give the kind of a descriptor. */
  lemma LowBits(d: u64)
    ensures d % 2 == 0 <==> !Bit(d, 1)
    ensures d % 4 == 3 <==> Bit(d, 1) && Bit(d, 2)
    ensures d % 4 == 1 <==> Bit(d, 1) && !Bit(d, 2)
  {
    var q, r := d / 4, d % 4;
    assert d == 4 * q + r && d / 1 == d;
    assert d / 2 == 2 * q + r / 2;
  }

  lemma LeafExactly(d: u64, size: nat)
    requires size == 0x1000 || size == 0x4000 || size == 0x1_0000 || size == 0x20_0000 || size == 0x4000_0000
          || size == 0x200_0000 || size == 0x10_0000_0000 || size == 0x2000_0000
    ensures AlignedOutput(d, size) >= 0
    ensures DecodeLeaf(d, size)
         == if HighBitsClear(d) && d % size / 0x1000 == 0 then Leaf(Named(d, size), size, LeafGrants(d))
            else Fault(Malformed)
  {
    OutputIs(d, size);
    MaskedIs(d, OUTPUT_LIMIT, 0x10);
    hide Masked, AlignedOutput, LeafGrants;
  }

  lemma TableExactly(g: Granule, d: u64)
    ensures AlignedOutput(d, PageSize(g)) == Named(d, PageSize(g))
    ensures OutputHighBits(d) || Masked(d, 4, PageSize(g)) != 0 <==> !HighBitsClear(d) || d % PageSize(g) / 4 != 0
  {
    OutputIs(d, PageSize(g));
    MaskedIs(d, OUTPUT_LIMIT, 0x10);
    MaskedIs(d, 4, PageSize(g) / 4);
    hide Masked, AlignedOutput;
  }

  lemma BlockSizes(g: Granule, remaining: nat)
    ensures BlockSize(g, remaining) == if BlocksAllowed(g, remaining) then EntrySpan(g, remaining) else 0
    ensures PageSize(g) == EntrySpan(g, 0)
  {
    Spans(g, remaining);
  }

  lemma DecodeExactly(g: Granule, remaining: nat, d: u64)
    ensures var r := Decode(g, remaining, d);
            && (r == Fault(NotPresent) <==> d % 2 == 0)
            && (r.Table? <==> NamesTable(g, remaining, d))
            && (r.Leaf? <==> NamesPage(g, remaining, d))
            && (r.Table? ==> r.next == Named(d, PageSize(g)))
            && (r.Leaf? ==> r.size == EntrySpan(g, remaining) && r.frame == Named(d, r.size))
  {
    LowBits(d);
    BlockSizes(g, remaining);
    LeafExactly(d, PageSize(g));
    TableExactly(g, d);
    if BlockSize(g, remaining) != 0 { LeafExactly(d, BlockSize(g, remaining)); }
    hide Masked, AlignedOutput, Span, LeafGrants, TableGrants, Bit, DecodeLeaf, OutputHighBits, HighBitsClear, Named;
    hide BlockSize, PageSize, EntrySpan, BlocksAllowed;
  }

  /** The place of the descriptor `i` levels down: in the page that the root, or the descriptor before, names, at the
      bits of the input for its level. */
  ghost function PlaceOf(g: Granule, root: u64, input: nat, top: nat, visited: seq<(nat, u64)>, i: nat): nat
    requires i <= top && i <= |visited|
  {
    var named := if i == 0 then root else visited[i - 1].1;
    Named(named, PageSize(g)) + input / EntrySpan(g, top - i) % (PageSize(g) / 8) * 8
  }

  /** The walk reads one descriptor a level, at these places, and all but the last name tables. */
  ghost predicate OnPath(mem: GuestMemory, vm: VmId, g: Granule, root: u64, input: nat, top: nat, places: seq<nat>,
                         visited: seq<(nat, u64)>)
  {
    && 0 < |places| <= top + 1 && |visited| <= |places| <= |visited| + 1
    && (forall i :: 0 <= i < |visited| ==> visited[i].0 == top - i && WordAt(mem, vm, places[i], visited[i].1))
    && (forall i :: 0 <= i < |places| ==> places[i] == PlaceOf(g, root, input, top, visited, i))
    && (forall i :: 0 <= i < |places| - 1 ==> NamesTable(g, top - i, visited[i].1))
  }

  lemma PlaceIs(g: Granule, root: u64, input: nat, top: nat, visited: seq<(nat, u64)>, i: nat, at: nat)
    requires Lawful(Descriptors(g)) && i <= top && i <= |visited|
    requires Placed(Descriptors(g), RootBase(root, g), input, top, visited, i, at)
    ensures at == PlaceOf(g, root, input, top, visited, i)
    ensures i > 0 ==> NamesTable(g, top - i + 1, visited[i - 1].1)
  {
    IndexIs(Descriptors(g), input, top - i);
    OutputIs(root, PageSize(g));
    if i > 0 {
      DecodeExactly(g, top - i + 1, visited[i - 1].1);
    }
    hide Lawful, Span, Index, Decode, AlignedOutput, PageSize, NamesTable, Named;
  }

  lemma PathInBits(mem: GuestMemory, vm: VmId, g: Granule, root: u64, input: nat, top: nat, places: seq<nat>,
                   visited: seq<(nat, u64)>)
    requires Lawful(Descriptors(g))
    requires IsPath(mem, vm, Descriptors(g), RootBase(root, g), input, top, places, visited)
    ensures OnPath(mem, vm, g, root, input, top, places, visited)
  {
    hide Lawful, Placed, WordAt, NamesTable, RootBase, PlaceOf;
    forall i | 0 <= i < |places| ensures places[i] == PlaceOf(g, root, input, top, visited, i) {
      PlaceIs(g, root, input, top, visited, i, places[i]);
    }
    forall i | 0 <= i < |places| - 1 ensures NamesTable(g, top - i, visited[i].1) {
      PlaceIs(g, root, input, top, visited, i + 1, places[i + 1]);
    }
  }

  /** How such a path ends: where no word is to be read; at a descriptor that is invalid or malformed; or at one that
      names the page, by its bits from the size of the page up to 47. */
  ghost predicate PathEnds(mem: GuestMemory, vm: VmId, g: Granule, input: nat, places: seq<nat>,
                           visited: seq<(nat, u64)>, r: Outcome)
  {
    if |visited| < |places| then
      var at := places[|places| - 1];
      !HoldsWord(mem, vm, at) && r == Err(ReadFailure(mem, vm, at))
    else if visited == [] then false
    else
      var (level, last) := visited[|visited| - 1];
      var size := EntrySpan(g, level);
      if last % 2 == 0 then r == Err(EntryFault(level, NotPresent))
      else if !NamesPage(g, level, last) then r == Err(EntryFault(level, Malformed))
      else r.Ok? && r.value.size == size && r.value.gpa == Named(last, size) + input % size
  }

  lemma EndInBits(mem: GuestMemory, vm: VmId, g: Granule, input: nat, places: seq<nat>, visited: seq<(nat, u64)>,
                  r: Outcome)
    requires EndsAt(mem, vm, Descriptors(g), input, places, visited, r)
    ensures PathEnds(mem, vm, g, input, places, visited, r)
  {
    if visited != [] {
      DecodeExactly(g, visited[|visited| - 1].0, visited[|visited| - 1].1);
    }
    hide HoldsWord, ReadFailure, Named, Decode, NamesPage, EntrySpan;
  }

  /** The descriptors on the way to an address. */
  ghost function Entered(mem: GuestMemory, vm: VmId, g: Granule, s: Selected): seq<(nat, u64)>
    requires s.ttbr < TWO_64
  {
    DescriptorsAreLawful(g);
    Visited(mem, vm, Descriptors(g), RootBase(s.ttbr, g), s.input, 3 - MinStartLevel(g))
  }

  lemma TranslationPath(mem: GuestMemory, vm: VmId, context: Context, va: u64)
    requires Select(context, va).Ok?
    ensures var g, s := context.tcr.granule, Select(context, va).value;
            var places, visited := Reads(mem, vm, context, va), Entered(mem, vm, g, s);
            && OnPath(mem, vm, g, s.ttbr, s.input, 3 - MinStartLevel(g), places, visited)
            && PathEnds(mem, vm, g, s.input, places, visited, Translate(mem, vm, context, va))
  {
    var g, s := context.tcr.granule, Select(context, va).value;
    var top := 3 - MinStartLevel(g);
    DescriptorsAreLawful(g);
    Outputs(s.ttbr, PageSize(g));
    var base := RootBase(s.ttbr, g);
    WalkIsPath(mem, vm, Descriptors(g), base, s.input, top);
    WalkEnds(mem, vm, Descriptors(g), base, s.input, top, ALL_PERMISSIONS);
    hide Lawful, IsPath, OnPath, EndsAt, PathEnds, Walk, Visited, Footprint, Select, RootBase;
    var places, visited := Reads(mem, vm, context, va), Entered(mem, vm, g, s);
    PathInBits(mem, vm, g, s.ttbr, s.input, top, places, visited);
    EndInBits(mem, vm, g, s.input, places, visited, Translate(mem, vm, context, va));
  }

  // --- A page larger than its region ---

  /** 25-bit regions, a table at 0x2000, and in it a block descriptor for 1 GiB at 0x4000_0000. */
  const NARROW := Context(Some(0x1000), None, Tcr(39, 39, Size4K))
  const BLOCK_TABLES: GuestMemory := map[(0, 0x1000) := Word(0x2003), (0, 0x2000) := Word(0x4000_0001)]
  const BLOCK := Translation(0x4000_0000, 0x4000_0000, Permissions(true, false, true))

  lemma NarrowSelects(va: u64)
    ensures va < 0x200_0000 ==> Select(NARROW, va) == Ok(Selected(0x1000, va, 25))
    ensures 0x200_0000 <= va < 0x4000_0000 ==> Select(NARROW, va) == Err(InvalidAddress)
  {
    assert Pow2(5) == 32;
    Pow2Add(5, 5);
    Pow2Add(10, 10);
    Pow2Add(20, 5);
  }

  lemma NarrowTable()
    ensures Decode(Size4K, 3, 0x2003) == Table(0x2000, ALL_PERMISSIONS)
  {
  }

  lemma NarrowBlock()
    ensures Decode(Size4K, 2, 0x4000_0001) == Leaf(0x4000_0000, 0x4000_0000, Permissions(true, false, true))
  {
  }

  lemma NarrowRoot()
    ensures RootBase(0x1000, Size4K) == 0x1000
  {
  }

  lemma NarrowReads()
    ensures ReadEntry(BLOCK_TABLES, 0, 0x1000, 0, 3) == Ok(0x2003)
    ensures ReadEntry(BLOCK_TABLES, 0, 0x2000, 0, 2) == Ok(0x4000_0001)
    ensures TableIndex(0, 0, Size4K) == 0 && TableIndex(0, 1, Size4K) == 0
  {
    assert EntryAddress(0x1000, 0) == 0x1000 && EntryAddress(0x2000, 0) == 0x2000;
    hide Pow2;
    DivUnique(0, Pow2(LevelShift(Size4K, 0)), 0, 0);
    DivUnique(0, Pow2(LevelShift(Size4K, 1)), 0, 0);
    DivUnique(0, Pow2(IndexBits(Size4K)), 0, 0);
  }

  lemma BlockWalk()
    ensures RegionWalk(BLOCK_TABLES, 0, Size4K, 0x1000, 0) == Ok(BLOCK)
  {
    NarrowTable();
    NarrowBlock();
    NarrowRoot();
    NarrowReads();
    hide Decode, ReadEntry, TableIndex, RootBase, Lawful, Walk;
    WalkAt(BLOCK_TABLES, 0, Size4K, 0x1000, 0, 0, ALL_PERMISSIONS);
    WalkAt(BLOCK_TABLES, 0, Size4K, 0x2000, 0, 1, ALL_PERMISSIONS);
  }

  /** The block answers at address 0, and at 32 MiB, in the same block, there is no translation. */
  lemma BlockBeyondRegion()
    ensures Translate(BLOCK_TABLES, 0, NARROW, 0) == Ok(BLOCK)
    ensures 0 / 0x4000_0000 == 0x200_0000 / 0x4000_0000
            && Translate(BLOCK_TABLES, 0, NARROW, 0x200_0000) == Err(InvalidAddress)
  {
    hide Select, RegionWalk;
    NarrowSelects(0);
    NarrowSelects(0x200_0000);
    BlockWalk();
  }
}
