/** Integer facts about division, used wherever addresses are split into a page
    number and an offset. */
module Division {

  lemma MulAtLeast(k: int, d: int)
    requires k >= 1 && d > 0
    ensures k * d >= d
  {
    assert (k - 1) * d >= 0;
  }

  lemma CancelLess(a: int, b: int, d: int)
    requires d > 0 && a * d < b * d
    ensures a < b && (a + 1) * d <= b * d
  {
    assert (a - b) * d == a * d - b * d;
    if a >= b + 1 { MulAtLeast(a - b, d); }
    if a + 1 < b {
      MulAtLeast(b - a - 1, d);
      assert (b - a - 1) * d == b * d - (a + 1) * d;
    }
  }

  lemma DivUnique(x: int, d: int, q: int, r: int)
    requires d > 0 && 0 <= r < d && x == q * d + r
    ensures x / d == q && x % d == r
  {
    var p := x / d;
    assert x == p * d + x % d;
    assert (p - q) * d == p * d - q * d;
    if p > q {
      MulAtLeast(p - q, d);
    } else if p < q {
      assert (q - p) * d == q * d - p * d;
      MulAtLeast(q - p, d);
    }
  }

  lemma DivDiv(x: nat, a: nat, b: nat)
    requires a > 0 && b > 0
    ensures a * b > 0 && x / (a * b) == (x / a) / b
  {
    MulAtLeast(a, b);
    var p, s := x / a, x % a;
    var q, r := p / b, p % b;
    assert x == p * a + s;
    assert p == q * b + r;
    assert p * a == q * (a * b) + r * a by {
      assert (q * b + r) * a == (q * b) * a + r * a;
      assert (q * b) * a == q * (a * b);
    }
    assert r * a <= (b - 1) * a == a * b - a by {
      if r < b - 1 { MulAtLeast(b - 1 - r, a); assert (b - 1 - r) * a == (b - 1) * a - r * a; }
    }
    assert r * a >= 0;
    DivUnique(x, a * b, q, r * a + s);
  }

  lemma ModAdd(k: int, d: int, r: int)
    requires d > 0
    ensures (k * d + r) % d == r % d
    ensures (k * d + r) / d == k + r / d
  {
    assert k * d + r == (k + r / d) * d + r % d;
    DivUnique(k * d + r, d, k + r / d, r % d);
  }

  /** Rounding `x` down to a multiple of `d` stays non-negative, and aligned. */
  lemma RoundDown(x: nat, d: nat)
    requires d > 0
    ensures x % d <= x && (x - x % d) % d == 0
  {
    var q := x / d;
    assert x == q * d + x % d;
    assert q * d >= 0 by { if q > 0 { MulAtLeast(q, d); } }
    ModAdd(q, d, 0);
  }

  lemma OffsetKept(frame: nat, size: nat, va: nat)
    requires size > 0 && frame % size == 0
    ensures (frame + va % size) % size == va % size
  {
    assert frame == (frame / size) * size;
    ModAdd(frame / size, size, va % size);
    assert (va % size) % size == va % size by { DivUnique(va % size, size, 0, va % size); }
  }

  /** Reducing modulo a multiple of `d` first does not change the remainder by `d`. */
  lemma ModMod(x: nat, d: nat, k: nat)
    requires d > 0 && k > 0
    ensures d * k > 0 && (x % (d * k)) % d == x % d
  {
    assert d * k > 0;
    var m := d * k;
    assert x == (x / m) * m + x % m;
    assert (x / m) * m == ((x / m) * k) * d;
    ModAdd((x / m) * k, d, x % m);
  }
}

/** Vocabulary shared by the guest page-table walkers: what a table entry can
    say, what a walk can return, and the guest memory it reads. */
module PageTables {
  import opened Machine
  import opened Division

  type VmId = nat

  /** `x & mask`, for the mask of the bits from the one worth `lo` up to, not
      including, the one worth `hi` (both powers of two). */
  function Masked(x: nat, lo: nat, hi: nat): int
    requires 0 < lo && 0 < hi
  {
    x % hi - x % lo
  }

  /** A masked value is a multiple of the lowest mask bit and fits below the highest. */
  lemma MaskedAligned(x: nat, lo: nat, k: nat)
    requires lo > 0 && k > 0
    ensures lo * k > 0
    ensures 0 <= Masked(x, lo, lo * k) <= lo * k - lo && Masked(x, lo, lo * k) % lo == 0
  {
    MulAtLeast(k, lo);
    ModMod(x, lo, k);
    var y := x % (lo * k);
    RoundDown(y, lo);
    RoundDownBound(y, lo, k);
  }

  /** The masked bits, in place. */
  lemma MaskedIs(x: nat, lo: nat, k: nat)
    requires lo > 0 && k > 0
    ensures lo * k > 0
    ensures Masked(x, lo, lo * k) == x % (lo * k) / lo * lo
    ensures Masked(x, lo, lo * k) / lo == x % (lo * k) / lo
  {
    MulAtLeast(k, lo);
    ModMod(x, lo, k);
    var y := x % (lo * k);
    assert y == y / lo * lo + y % lo;
    DivUnique(y / lo * lo, lo, y / lo, 0);
  }

  lemma RoundDownBound(y: nat, lo: nat, k: nat)
    requires lo > 0 && y < lo * k
    ensures y - y % lo <= lo * k - lo
  {
    var q := y / lo;
    assert y == q * lo + y % lo;
    assert q * lo < k * lo;
    CancelLess(q, k, lo);
    assert (q + 1) * lo == q * lo + lo;
  }

  /** Bit worth `bit` (a power of two) of `x`. */
  predicate Bit(x: nat, bit: nat)
    requires 0 < bit
  {
    x / bit % 2 == 1
  }

  /** One 8-byte, 8-aligned word of guest-physical memory, or the two ways a
      backend can refuse to produce it. An address outside the map is unmapped. */
  datatype Cell = Word(bits: u64) | BackendFailure | CorruptSource

  type GuestMemory = map<(VmId, nat), Cell>

  /** Rights along a walk. A walk starts with all of them and only loses some. */
  datatype Permissions = Permissions(writable: bool, user: bool, executable: bool) {
    function And(other: Permissions): Permissions {
      Permissions(writable && other.writable, user && other.user, executable && other.executable)
    }
  }

  const ALL_PERMISSIONS := Permissions(true, true, true)

  datatype FaultReason = NotPresent | Malformed

  /** What one entry means, independently of the address being translated. */
  datatype Descriptor =
    | Fault(reason: FaultReason)
    | Table(next: nat, grants: Permissions)
    | Leaf(frame: nat, size: nat, grants: Permissions)

  datatype Translation = Translation(gpa: nat, size: nat, perms: Permissions)

  /** Error kinds of a translation; messages and echoed inputs are dropped.
      Levels are counted by how many levels remain below the faulting entry. */
  datatype TranslationError =
    | InvalidAddress
    | MissingContext
    | UnsupportedSize
    | EntryFault(remaining: nat, reason: FaultReason)
    | EntryAddressOverflow(remaining: nat)
    | MissingMemory(gpa: nat)
    | Backend
    | MalformedSource
    | NoLeaf

  type Outcome = Result<Translation, TranslationError>

  /** Both memories hold the same word, or none, at `at`. */
  ghost predicate SameCell(mem: GuestMemory, mem': GuestMemory, vm: VmId, at: nat) {
    ((vm, at) in mem <==> (vm, at) in mem') && ((vm, at) in mem ==> mem[(vm, at)] == mem'[(vm, at)])
  }

  /** The translation of another address of the same page. */
  function Rebased(t: Translation, other: nat): Translation
    requires t.size > 0
  {
    RoundDown(t.gpa, t.size);
    t.(gpa := t.gpa - t.gpa % t.size + other % t.size)
  }

  /** Byte address of entry `index` of the table at `base`, eight bytes an entry. */
  function EntryAddress(base: nat, index: nat): nat
    decreases index
  {
    if index == 0 then base else EntryAddress(base, index - 1) + 8
  }

  lemma {:induction false} EntryAddressIs(base: nat, index: nat)
    ensures EntryAddress(base, index) == base + 8 * index
  {
    if index > 0 { EntryAddressIs(base, index - 1); }
  }

  function ReadEntry(mem: GuestMemory, vm: VmId, base: nat, index: nat, level: nat): Result<u64, TranslationError> {
    var gpa := EntryAddress(base, index);
    if gpa >= TWO_64 then Err(EntryAddressOverflow(level))
    else if (vm, gpa) !in mem then Err(MissingMemory(gpa))
    else match mem[(vm, gpa)]
      case Word(bits) => Ok(bits)
      case BackendFailure => Err(Backend)
      case CorruptSource => Err(MalformedSource)
  }
}

/** The recursive walk that every table format refines, and what it preserves. */
module TableWalk {
  import opened Machine
  import opened PageTables
  import opened Division

  /** A table format: the bytes of its smallest page, the entries of a table, the
      end of the physical addresses its entries can name, and what an entry means
      at a level. Levels count down to 0, the last one. */
  datatype Format = Format(page: nat, fanout: nat, limit: nat, decode: (nat, u64) -> Descriptor)

  /** Bytes of address space one entry spans at a level. */
  ghost function Span(fmt: Format, level: nat): nat {
    if level == 0 then fmt.page else Span(fmt, level - 1) * fmt.fanout
  }

  /** A leaf maps what its entry spans, and what an entry names lies below `limit`. */
  ghost predicate Fits(d: Descriptor, page: nat, span: nat, limit: nat) {
    match d
    case Fault(_) => true
    case Table(next, _) => next + page <= limit
    case Leaf(frame, size, _) => size == span && span > 0 && frame % span == 0 && frame + span <= limit
  }

  /** The laws the walk theorems rest on. A table fills one page. */
  ghost predicate Lawful(fmt: Format) {
    && fmt.fanout > 0 && fmt.page == 8 * fmt.fanout && fmt.limit <= TWO_64
    && (forall level: nat, e: u64 :: Fits(fmt.decode(level, e), fmt.page, Span(fmt, level), fmt.limit))
  }

  lemma {:induction false} SpanPositive(fmt: Format, level: nat)
    requires fmt.page > 0 && fmt.fanout > 0
    ensures Span(fmt, level) > 0
  {
    if level > 0 { SpanPositive(fmt, level - 1); }
  }

  ghost function Index(fmt: Format, va: nat, level: nat): nat
    requires fmt.page > 0 && fmt.fanout > 0
  {
    SpanPositive(fmt, level);
    va / Span(fmt, level) % fmt.fanout
  }

  lemma IndexIs(fmt: Format, va: nat, level: nat)
    requires fmt.page > 0 && fmt.fanout > 0
    ensures Span(fmt, level) > 0 && Index(fmt, va, level) == va / Span(fmt, level) % fmt.fanout < fmt.fanout
  {
    SpanPositive(fmt, level);
  }

  ghost function Walk(mem: GuestMemory, vm: VmId, fmt: Format, base: nat, va: nat, level: nat,
                      granted: Permissions): Outcome
    requires Lawful(fmt)
    decreases level
  {
    match ReadEntry(mem, vm, base, Index(fmt, va, level), level)
    case Err(e) => Err(e)
    case Ok(entry) =>
      match fmt.decode(level, entry)
      case Fault(reason) => Err(EntryFault(level, reason))
      case Leaf(frame, size, grants) =>
        SpanPositive(fmt, level);
        Ok(Translation(frame + va % size, size, granted.And(grants)))
      case Table(next, grants) =>
        if level == 0 then Err(NoLeaf)
        else Walk(mem, vm, fmt, next, va, level - 1, granted.And(grants))
  }

  /** The outcome of a walk that ends at this descriptor. */
  function Finish(d: Descriptor, va: nat, level: nat, granted: Permissions): Outcome
    requires !d.Table?
  {
    match d
    case Fault(reason) => Err(EntryFault(level, reason))
    case Leaf(frame, size, grants) =>
      if size == 0 then Err(NoLeaf) else Ok(Translation(frame + va % size, size, granted.And(grants)))
  }

  /** What a walk does with what it reads at a level. */
  ghost function Continue(mem: GuestMemory, vm: VmId, fmt: Format, read: Result<u64, TranslationError>, va: nat,
                          level: nat, granted: Permissions): Outcome
    requires Lawful(fmt)
  {
    if read.Err? then Err(read.error)
    else
      var d := fmt.decode(level, read.value);
      if !d.Table? then Finish(d, va, level, granted)
      else if level == 0 then Err(NoLeaf)
      else Walk(mem, vm, fmt, d.next, va, level - 1, granted.And(d.grants))
  }

  lemma WalkUnfolds(mem: GuestMemory, vm: VmId, fmt: Format, base: nat, va: nat, level: nat, granted: Permissions,
                    index: nat)
    requires Lawful(fmt) && index == Index(fmt, va, level)
    ensures Walk(mem, vm, fmt, base, va, level, granted)
         == Continue(mem, vm, fmt, ReadEntry(mem, vm, base, index, level), va, level, granted)
  {
    SpanPositive(fmt, level);
    var read := ReadEntry(mem, vm, base, index, level);
    if read.Ok? {
      assert Fits(fmt.decode(level, read.value), fmt.page, Span(fmt, level), fmt.limit);
    }
  }

  /** Addresses of the entries a walk reads, in order. */
  ghost function Footprint(mem: GuestMemory, vm: VmId, fmt: Format, base: nat, va: nat, level: nat): seq<nat>
    requires Lawful(fmt)
    decreases level
  {
    var index := Index(fmt, va, level);
    [EntryAddress(base, index)] +
    match ReadEntry(mem, vm, base, index, level)
    case Err(_) => []
    case Ok(entry) =>
      match fmt.decode(level, entry)
      case Table(next, _) => if level == 0 then [] else Footprint(mem, vm, fmt, next, va, level - 1)
      case _ => []
  }

  /** The entries a walk decodes, each with its level. */
  ghost function Visited(mem: GuestMemory, vm: VmId, fmt: Format, base: nat, va: nat, level: nat): seq<(nat, u64)>
    requires Lawful(fmt)
    decreases level
  {
    match ReadEntry(mem, vm, base, Index(fmt, va, level), level)
    case Err(_) => []
    case Ok(entry) =>
      [(level, entry)] +
      match fmt.decode(level, entry)
      case Table(next, _) => if level == 0 then [] else Visited(mem, vm, fmt, next, va, level - 1)
      case _ => []
  }

  /** What the walk may still do after this entry. */
  ghost function Grants(fmt: Format, visit: (nat, u64)): Permissions {
    match fmt.decode(visit.0, visit.1)
    case Fault(_) => ALL_PERMISSIONS
    case Table(_, grants) => grants
    case Leaf(_, _, grants) => grants
  }

  ghost function Restrict(granted: Permissions, r: Outcome): Outcome {
    match r
    case Ok(t) => Ok(t.(perms := granted.And(t.perms)))
    case Err(e) => Err(e)
  }

  /** Threading the rights through the walk is the same as intersecting once. */
  lemma {:induction false} WalkRestricts(mem: GuestMemory, vm: VmId, fmt: Format, base: nat, va: nat,
                                         level: nat, granted: Permissions)
    requires Lawful(fmt)
    ensures Walk(mem, vm, fmt, base, va, level, granted)
         == Restrict(granted, Walk(mem, vm, fmt, base, va, level, ALL_PERMISSIONS))
    decreases level
  {
    var index := Index(fmt, va, level);
    hide Walk, Lawful, Index, ReadEntry, Span;
    WalkUnfolds(mem, vm, fmt, base, va, level, granted, index);
    WalkUnfolds(mem, vm, fmt, base, va, level, ALL_PERMISSIONS, index);
    var read := ReadEntry(mem, vm, base, index, level);
    if read.Ok? && level > 0 {
      var d := fmt.decode(level, read.value);
      if d.Table? {
        WalkRestricts(mem, vm, fmt, d.next, va, level - 1, granted.And(d.grants));
        WalkRestricts(mem, vm, fmt, d.next, va, level - 1, ALL_PERMISSIONS.And(d.grants));
        RestrictTwice(granted, d.grants, Walk(mem, vm, fmt, d.next, va, level - 1, ALL_PERMISSIONS));
        hide Restrict;
      }
    }
  }

  lemma RestrictTwice(p: Permissions, q: Permissions, r: Outcome)
    ensures Restrict(p.And(q), r) == Restrict(p, Restrict(q, r)) && ALL_PERMISSIONS.And(q) == q
  {
  }

  /** A successful walk grants a right exactly when it was granted on entry and
      every entry it visited grants it. */
  lemma {:induction false} WalkRights(mem: GuestMemory, vm: VmId, fmt: Format, base: nat, va: nat,
                                      level: nat, granted: Permissions)
    requires Lawful(fmt)
    requires Walk(mem, vm, fmt, base, va, level, granted).Ok?
    ensures var p := Walk(mem, vm, fmt, base, va, level, granted).value.perms;
            var visited := Visited(mem, vm, fmt, base, va, level);
            && (p.writable <==> granted.writable && forall v :: v in visited ==> Grants(fmt, v).writable)
            && (p.user <==> granted.user && forall v :: v in visited ==> Grants(fmt, v).user)
            && (p.executable <==> granted.executable && forall v :: v in visited ==> Grants(fmt, v).executable)
    decreases level
  {
    var entry := ReadEntry(mem, vm, base, Index(fmt, va, level), level).value;
    var d := fmt.decode(level, entry);
    var rest := [];
    if d.Table? {
      WalkRights(mem, vm, fmt, d.next, va, level - 1, granted.And(d.grants));
      rest := Visited(mem, vm, fmt, d.next, va, level - 1);
    }
    assert Visited(mem, vm, fmt, base, va, level) == [(level, entry)] + rest;
    assert Grants(fmt, (level, entry)) == d.grants;
    assert forall v :: v in [(level, entry)] + rest <==> v == (level, entry) || v in rest;
  }

  /** A walk depends on nothing but the entries in its footprint. */
  lemma {:induction false} WalkFrame(mem: GuestMemory, mem': GuestMemory, vm: VmId, fmt: Format, base: nat,
                                     va: nat, level: nat, granted: Permissions)
    requires Lawful(fmt)
    requires forall at :: at in Footprint(mem, vm, fmt, base, va, level) ==> SameCell(mem, mem', vm, at)
    ensures Walk(mem', vm, fmt, base, va, level, granted) == Walk(mem, vm, fmt, base, va, level, granted)
    decreases level
  {
    var path := Footprint(mem, vm, fmt, base, va, level);
    var read := ReadEntry(mem, vm, base, Index(fmt, va, level), level);
    assert path[0] in path;
    if read.Ok? && level > 0 {
      var d := fmt.decode(level, read.value);
      if d.Table? {
        var rest := Footprint(mem, vm, fmt, d.next, va, level - 1);
        assert path == [path[0]] + rest;
        WalkFrame(mem, mem', vm, fmt, d.next, va, level - 1, granted.And(d.grants));
      }
    }
  }

  lemma {:induction false} SameIndexAbove(fmt: Format, leaf: nat, level: nat, a: nat, b: nat)
    requires fmt.page > 0 && fmt.fanout > 0 && leaf <= level && Span(fmt, leaf) > 0
    requires a / Span(fmt, leaf) == b / Span(fmt, leaf)
    ensures Span(fmt, level) > 0 && a / Span(fmt, level) == b / Span(fmt, level)
    decreases level
  {
    SpanPositive(fmt, level);
    if leaf < level {
      SameIndexAbove(fmt, leaf, level - 1, a, b);
      DivDiv(a, Span(fmt, level - 1), fmt.fanout);
      DivDiv(b, Span(fmt, level - 1), fmt.fanout);
    }
  }

  // --- The path of a walk ---

  /** The failure of a read that finds no word. */
  function ReadFailure(mem: GuestMemory, vm: VmId, at: nat): TranslationError
    requires !HoldsWord(mem, vm, at)
  {
    if (vm, at) !in mem then MissingMemory(at)
    else if mem[(vm, at)] == BackendFailure then Backend
    else MalformedSource
  }

  predicate HoldsWord(mem: GuestMemory, vm: VmId, at: nat) {
    (vm, at) in mem && mem[(vm, at)].Word?
  }

  predicate WordAt(mem: GuestMemory, vm: VmId, at: nat, bits: u64) {
    (vm, at) in mem && mem[(vm, at)] == Word(bits)
  }

  /** Where the walk reads at the level `i` steps down: the table named by the entry before, at the address's index. */
  ghost predicate Placed(fmt: Format, base: nat, va: nat, level: nat, visited: seq<(nat, u64)>, i: nat, at: nat)
    requires Lawful(fmt) && i <= level && i <= |visited|
  {
    var index := Index(fmt, va, level - i);
    if i == 0 then at == base + 8 * index
    else
      var d := fmt.decode(level - i + 1, visited[i - 1].1);
      d.Table? && at == d.next + 8 * index
  }

  /** The entries of a walk are the words at its places, one a level, and each but the last names the next table. */
  ghost predicate IsPath(mem: GuestMemory, vm: VmId, fmt: Format, base: nat, va: nat, level: nat,
                         places: seq<nat>, visited: seq<(nat, u64)>)
    requires Lawful(fmt)
  {
    && 0 < |places| <= level + 1 && |visited| <= |places| <= |visited| + 1
    && (forall i :: 0 <= i < |visited| ==> visited[i].0 == level - i && WordAt(mem, vm, places[i], visited[i].1))
    && (forall i :: 0 <= i < |places| ==> Placed(fmt, base, va, level, visited, i, places[i]))
  }

  lemma PathCons(mem: GuestMemory, vm: VmId, fmt: Format, base: nat, va: nat, level: nat, at: nat, entry: u64,
                 places: seq<nat>, visited: seq<(nat, u64)>)
    requires Lawful(fmt) && level > 0 && fmt.decode(level, entry).Table?
    requires at == base + 8 * Index(fmt, va, level) && WordAt(mem, vm, at, entry)
    requires IsPath(mem, vm, fmt, fmt.decode(level, entry).next, va, level - 1, places, visited)
    ensures IsPath(mem, vm, fmt, base, va, level, [at] + places, [(level, entry)] + visited)
  {
    hide Lawful, WordAt, Placed, Index;
    var longer, all := [at] + places, [(level, entry)] + visited;
    PlacedFirst(fmt, base, va, level, all, at);
    forall i | 0 < i < |longer| ensures Placed(fmt, base, va, level, all, i, longer[i]) {
      PlacedBelow(fmt, base, va, level, entry, visited, i - 1, places[i - 1]);
    }
    forall i | 0 < i < |all| ensures all[i].0 == level - i && WordAt(mem, vm, longer[i], all[i].1) {
      assert all[i] == visited[i - 1] && longer[i] == places[i - 1];
    }
  }

  lemma PlacedFirst(fmt: Format, base: nat, va: nat, level: nat, visited: seq<(nat, u64)>, at: nat)
    requires Lawful(fmt) && at == base + 8 * Index(fmt, va, level)
    ensures Placed(fmt, base, va, level, visited, 0, at)
  {
  }

  lemma PlacedBelow(fmt: Format, base: nat, va: nat, level: nat, entry: u64, visited: seq<(nat, u64)>, i: nat, at: nat)
    requires Lawful(fmt) && i < level && i <= |visited| && fmt.decode(level, entry).Table?
    requires Placed(fmt, fmt.decode(level, entry).next, va, level - 1, visited, i, at)
    ensures Placed(fmt, base, va, level, [(level, entry)] + visited, i + 1, at)
  {
    hide Lawful, Index;
    assert i > 0 ==> ([(level, entry)] + visited)[i] == visited[i - 1];
  }

  /** The table below, if the walk goes on. */
  ghost function Below(fmt: Format, level: nat, read: Result<u64, TranslationError>): Option<nat> {
    if read.Ok? && level > 0 && fmt.decode(level, read.value).Table? then Some(fmt.decode(level, read.value).next)
    else None
  }

  lemma PathUnfolds(mem: GuestMemory, vm: VmId, fmt: Format, base: nat, va: nat, level: nat, index: nat,
                    read: Result<u64, TranslationError>)
    requires Lawful(fmt) && base + fmt.page <= fmt.limit
    requires index == Index(fmt, va, level) && read == ReadEntry(mem, vm, base, index, level)
    ensures var at, below := base + 8 * index, Below(fmt, level, read);
            && (if read.Ok? then WordAt(mem, vm, at, read.value)
                else !HoldsWord(mem, vm, at) && read.error == ReadFailure(mem, vm, at))
            && (below.Some? ==> below.value + fmt.page <= fmt.limit)
            && (read.Ok? ==> var d := fmt.decode(level, read.value); d.Leaf? ==> d.size > 0)
            && var places, visited := Footprint(mem, vm, fmt, base, va, level), Visited(mem, vm, fmt, base, va, level);
            if below.Some? then
              && places == [at] + Footprint(mem, vm, fmt, below.value, va, level - 1)
              && visited == [(level, read.value)] + Visited(mem, vm, fmt, below.value, va, level - 1)
            else places == [at] && visited == if read.Ok? then [(level, read.value)] else []
  {
    IndexIs(fmt, va, level);
    EntryAddressIs(base, index);
    assert base + 8 * index < TWO_64;
    if read.Ok? {
      assert Fits(fmt.decode(level, read.value), fmt.page, Span(fmt, level), fmt.limit);
    }
  }

  /** What a walk reads is a path. */
  lemma {:induction false} WalkIsPath(mem: GuestMemory, vm: VmId, fmt: Format, base: nat, va: nat, level: nat)
    requires Lawful(fmt) && base + fmt.page <= fmt.limit
    ensures IsPath(mem, vm, fmt, base, va, level,
                   Footprint(mem, vm, fmt, base, va, level), Visited(mem, vm, fmt, base, va, level))
    decreases level
  {
    var index := Index(fmt, va, level);
    hide Lawful, Index, Footprint, Visited, ReadEntry, Placed, WordAt, HoldsWord;
    var read := ReadEntry(mem, vm, base, index, level);
    PathUnfolds(mem, vm, fmt, base, va, level, index, read);
    PlacedFirst(fmt, base, va, level, Visited(mem, vm, fmt, base, va, level), base + 8 * index);
    var below := Below(fmt, level, read);
    if below.Some? {
      WalkIsPath(mem, vm, fmt, below.value, va, level - 1);
      PathCons(mem, vm, fmt, base, va, level, base + 8 * index, read.value,
               Footprint(mem, vm, fmt, below.value, va, level - 1), Visited(mem, vm, fmt, below.value, va, level - 1));
    }
  }

  /** How a walk ends: where no word is, or at its last entry. */
  ghost predicate EndsAt(mem: GuestMemory, vm: VmId, fmt: Format, va: nat, places: seq<nat>, visited: seq<(nat, u64)>,
                         r: Outcome)
  {
    if |visited| < |places| then
      var at := places[|places| - 1];
      !HoldsWord(mem, vm, at) && r == Err(ReadFailure(mem, vm, at))
    else if visited == [] then false
    else
      var last := visited[|visited| - 1];
      match fmt.decode(last.0, last.1)
      case Fault(reason) => r == Err(EntryFault(last.0, reason))
      case Leaf(frame, size, _) => r.Ok? && size > 0 && r.value.size == size && r.value.gpa == frame + va % size
      case Table(_, _) => last.0 == 0 && r == Err(NoLeaf)
  }

  lemma {:induction false} WalkEnds(mem: GuestMemory, vm: VmId, fmt: Format, base: nat, va: nat, level: nat,
                                    granted: Permissions)
    requires Lawful(fmt) && base + fmt.page <= fmt.limit
    ensures EndsAt(mem, vm, fmt, va, Footprint(mem, vm, fmt, base, va, level),
                   Visited(mem, vm, fmt, base, va, level), Walk(mem, vm, fmt, base, va, level, granted))
    decreases level
  {
    var index := Index(fmt, va, level);
    hide Lawful, Index, Footprint, Visited, Walk, ReadEntry, HoldsWord, ReadFailure, EndsAt, Continue;
    var read := ReadEntry(mem, vm, base, index, level);
    PathUnfolds(mem, vm, fmt, base, va, level, index, read);
    WalkUnfolds(mem, vm, fmt, base, va, level, granted, index);
    ContinueEnds(mem, vm, fmt, base + 8 * index, read, va, level, granted);
    var below := Below(fmt, level, read);
    if below.Some? {
      var more := granted.And(fmt.decode(level, read.value).grants);
      WalkEnds(mem, vm, fmt, below.value, va, level - 1, more);
      EndsCons(mem, vm, fmt, va, base + 8 * index, Footprint(mem, vm, fmt, below.value, va, level - 1),
               (level, read.value), Visited(mem, vm, fmt, below.value, va, level - 1),
               Walk(mem, vm, fmt, below.value, va, level - 1, more));
    }
  }

  lemma ContinueEnds(mem: GuestMemory, vm: VmId, fmt: Format, at: nat, read: Result<u64, TranslationError>, va: nat,
                     level: nat, granted: Permissions)
    requires Lawful(fmt)
    requires read.Ok? ==> var d := fmt.decode(level, read.value); d.Leaf? ==> d.size > 0
    requires read.Err? ==> !HoldsWord(mem, vm, at) && read.error == ReadFailure(mem, vm, at)
    ensures var below, r := Below(fmt, level, read), Continue(mem, vm, fmt, read, va, level, granted);
            if below.Some?
            then r == Walk(mem, vm, fmt, below.value, va, level - 1, granted.And(fmt.decode(level, read.value).grants))
            else EndsAt(mem, vm, fmt, va, [at], if read.Ok? then [(level, read.value)] else [], r)
  {
    hide Lawful, Walk, HoldsWord, ReadFailure;
  }

  lemma EndsCons(mem: GuestMemory, vm: VmId, fmt: Format, va: nat, at: nat, places: seq<nat>, visit: (nat, u64),
                 visited: seq<(nat, u64)>, r: Outcome)
    requires EndsAt(mem, vm, fmt, va, places, visited, r)
    ensures EndsAt(mem, vm, fmt, va, [at] + places, [visit] + visited, r)
  {
  }

  /** The level whose span a successful walk reports as its page size. */
  ghost predicate LeafLevel(fmt: Format, leaf: nat, size: nat) {
    size == Span(fmt, leaf) && size > 0
  }

  /** The walk's page holds its address at the same offset. */
  lemma {:induction false} WalkLeaf(mem: GuestMemory, vm: VmId, fmt: Format, base: nat, va: nat,
                                    level: nat, granted: Permissions) returns (leaf: nat)
    requires Lawful(fmt)
    requires Walk(mem, vm, fmt, base, va, level, granted).Ok?
    ensures var t := Walk(mem, vm, fmt, base, va, level, granted).value;
            leaf <= level && LeafLevel(fmt, leaf, t.size) && t.gpa % t.size == va % t.size && t.gpa < fmt.limit
    decreases level
  {
    hide Index, ReadEntry;
    var d := fmt.decode(level, ReadEntry(mem, vm, base, Index(fmt, va, level), level).value);
    if d.Leaf? {
      leaf := level;
      OffsetKept(d.frame, d.size, va);
    } else {
      leaf := WalkLeaf(mem, vm, fmt, d.next, va, level - 1, granted.And(d.grants));
    }
  }

  /** No entry address overflows, so that error of the entry reader is never seen. */
  lemma {:induction false} WalkInBounds(mem: GuestMemory, vm: VmId, fmt: Format, base: nat, va: nat,
                                        level: nat, granted: Permissions)
    requires Lawful(fmt) && base + fmt.page <= fmt.limit
    ensures var r := Walk(mem, vm, fmt, base, va, level, granted);
            r.Err? ==> !r.error.EntryAddressOverflow?
    decreases level
  {
    IndexIs(fmt, va, level);
    EntryAddressIs(base, Index(fmt, va, level));
    assert EntryAddress(base, Index(fmt, va, level)) < base + fmt.page;
    var read := ReadEntry(mem, vm, base, Index(fmt, va, level), level);
    if read.Ok? && level > 0 {
      var d := fmt.decode(level, read.value);
      if d.Table? {
        WalkInBounds(mem, vm, fmt, d.next, va, level - 1, granted.And(d.grants));
      }
    }
  }

  /** Two addresses in the page a walk found share the walk, offset aside. */
  lemma {:induction false} WalkWithinPage(mem: GuestMemory, vm: VmId, fmt: Format, base: nat,
                                          va: nat, other: nat, level: nat, granted: Permissions)
    requires Lawful(fmt)
    requires Walk(mem, vm, fmt, base, va, level, granted).Ok?
    requires var size := Walk(mem, vm, fmt, base, va, level, granted).value.size;
             size > 0 && va / size == other / size
    ensures var t := Walk(mem, vm, fmt, base, va, level, granted).value;
            Walk(mem, vm, fmt, base, other, level, granted) == Ok(Rebased(t, other))
    decreases level
  {
    hide Index, ReadEntry;
    var t := Walk(mem, vm, fmt, base, va, level, granted).value;
    var leaf := WalkLeaf(mem, vm, fmt, base, va, level, granted);
    SameIndexAbove(fmt, leaf, level, va, other);
    IndexIs(fmt, va, level);
    IndexIs(fmt, other, level);
    assert Index(fmt, va, level) == Index(fmt, other, level);
    var d := fmt.decode(level, ReadEntry(mem, vm, base, Index(fmt, va, level), level).value);
    if d.Leaf? {
      assert t.gpa == d.frame + va % t.size;
    } else {
      WalkWithinPage(mem, vm, fmt, d.next, va, other, level - 1, granted.And(d.grants));
    }
  }
}
