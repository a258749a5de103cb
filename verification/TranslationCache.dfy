/** The bounded, first-in-first-out translation cache. */
module TranslationCaching {
  import opened Machine
  import opened PageTables
  import opened Division
  import Arm64Stage1

  datatype Mode = X86FourLevel | X86La57 | Arm64(granule: Arm64Stage1.Granule)

  datatype Root =
    | X86Cr3(base: u64)
    | Arm64Ttbr0(base: u64, asid: Option<u16>)
    | Arm64Ttbr1(base: u64, asid: Option<u16>)
    | Explicit(id: u64, asid: Option<u16>)
  {
    function Asid(): Option<u16> {
      match this
      case X86Cr3(_) => None
      case Arm64Ttbr0(_, asid) => asid
      case Arm64Ttbr1(_, asid) => asid
      case Explicit(_, asid) => asid
    }
  }

  /** An ARM64 or explicit root carries the address space id it was made with, an x86 root none. */
  predicate Carries(root: Root, asid: u16) {
    match root
    case Arm64Ttbr0(_, Some(a)) => a == asid
    case Arm64Ttbr1(_, Some(a)) => a == asid
    case Explicit(_, Some(a)) => a == asid
    case _ => false
  }

  /** `AddressSpaceRoot::x86_cr3`: the low twelve bits of CR3 are not part of the root. */
  function Cr3Root(cr3: u64): Root {
    X86Cr3(cr3 - cr3 % 0x1000)
  }

  datatype Access = Access(user: bool, write: bool, execute: bool)

  datatype Key = Key(vm: VmId, mode: Mode, root: Root, page: nat, size: nat, access: Access)

  predicate IsPow2(n: nat)
    decreases n
  {
    n == 1 || (n > 1 && n % 2 == 0 && IsPow2(n / 2))
  }

  /** `TranslationCacheKey::for_gva`; sizes that are not powers of two are refused. */
  function KeyFor(vm: VmId, mode: Mode, root: Root, gva: u64, size: u64, access: Access): Option<Key> {
    if !IsPow2(size) then None else Some(Key(vm, mode, root, gva / size, size, access))
  }

  /** Two lookups share a key exactly when they agree on the VM, the mode, the root, the page with its size, and the
      access. */
  lemma KeysExactly(vm: VmId, mode: Mode, root: Root, gva: u64, size: u64, access: Access,
                    vm': VmId, mode': Mode, root': Root, gva': u64, size': u64, access': Access)
    requires IsPow2(size) && IsPow2(size')
    ensures KeyFor(vm, mode, root, gva, size, access) == KeyFor(vm', mode', root', gva', size', access') <==>
            && vm == vm' && mode == mode' && root == root' && access == access'
            && size == size' && gva / size == gva' / size
  {
  }

  lemma {:induction false} PowersOfTwo(k: nat)
    ensures IsPow2(Arm64Stage1.Pow2(k))
  {
    if k > 0 {
      PowersOfTwo(k - 1);
      assert Arm64Stage1.Pow2(k) == 2 * Arm64Stage1.Pow2(k - 1);
    }
  }

  lemma {:induction false} OnlyPowersOfTwo(n: nat) returns (k: nat)
    requires IsPow2(n)
    ensures n == Arm64Stage1.Pow2(k)
    decreases n
  {
    k := 0;
    if n > 1 {
      k := OnlyPowersOfTwo(n / 2);
      k := k + 1;
    }
  }

  /** The sizes a key or a value can have are the powers of two. */
  lemma SizesExactly(n: nat)
    ensures IsPow2(n) <==> exists k: nat :: n == Arm64Stage1.Pow2(k)
  {
    if IsPow2(n) {
      var k := OnlyPowersOfTwo(n);
    }
    if k: nat :| n == Arm64Stage1.Pow2(k) {
      PowersOfTwo(k);
    }
  }

  datatype Value = Value(physicalPage: nat, size: nat, perms: Permissions) {
    /** `to_result`: the page is aligned, so adding the offset is or-ing it in. */
    function ToResult(gva: u64): Translation
      requires size > 0
    {
      Translation(physicalPage + gva % size, size, perms)
    }
  }

  /** `from_translation`: keep the page, drop the offset. */
  function FromTranslation(t: Translation): Option<Value> {
    if !IsPow2(t.size) then None
    else
      RoundDown(t.gpa, t.size);
      Some(Value(t.gpa - t.gpa % t.size, t.size, t.perms))
  }

  datatype Entry = Entry(key: Key, value: Value)

  // --- What the operations mean on the queue of entries ---

  function Lookup(entries: seq<Entry>, key: Key): Option<Value> {
    if entries == [] then None
    else if entries[0].key == key then Some(entries[0].value)
    else Lookup(entries[1..], key)
  }

  predicate DistinctKeys(entries: seq<Entry>) {
    forall i, j :: 0 <= i < j < |entries| ==> entries[i].key != entries[j].key
  }

  predicate HasKey(entries: seq<Entry>, key: Key) {
    exists i :: 0 <= i < |entries| && entries[i].key == key
  }

  /** `new` is `old` after inserting: an existing key keeps its place in the queue, a
      new one goes last, and a full queue gives up its oldest entry first. */
  ghost predicate Inserted(old_: seq<Entry>, max: nat, key: Key, value: Value, new_: seq<Entry>) {
    if HasKey(old_, key) then
      |new_| == |old_| && forall i :: 0 <= i < |old_| ==>
        new_[i] == if old_[i].key == key then Entry(key, value) else old_[i]
    else if |old_| == max then
      |old_| > 0 && new_ == old_[1..] + [Entry(key, value)]
    else new_ == old_ + [Entry(key, value)]
  }

  ghost function AfterInsert(entries: seq<Entry>, max: nat, key: Key, value: Value): (r: seq<Entry>)
    requires max > 0
    ensures Inserted(entries, max, key, value, r)
    ensures forall other :: Inserted(entries, max, key, value, other) ==> other == r
  {
    if HasKey(entries, key) then
      seq(|entries|, i requires 0 <= i < |entries| => if entries[i].key == key then Entry(key, value) else entries[i])
    else if |entries| == max then entries[1..] + [Entry(key, value)]
    else entries + [Entry(key, value)]
  }

  /** The entries of `entries` that `keep` accepts, in order. */
  function Retained(entries: seq<Entry>, keep: Key -> bool): seq<Entry> {
    if entries == [] then []
    else
      var rest := Retained(entries[..|entries| - 1], keep);
      var last := entries[|entries| - 1];
      if keep(last.key) then rest + [last] else rest
  }

  // --- Facts about them ---

  lemma {:induction false} LookupFinds(entries: seq<Entry>, key: Key)
    ensures Lookup(entries, key) == None <==> !HasKey(entries, key)
    ensures forall i :: 0 <= i < |entries| && entries[i].key == key && DistinctKeys(entries) ==>
              Lookup(entries, key) == Some(entries[i].value)
    ensures Lookup(entries, key).Some? ==> Entry(key, Lookup(entries, key).value) in entries
  {
    if entries != [] && entries[0].key != key {
      var rest := entries[1..];
      LookupFinds(rest, key);
      assert forall i :: 0 <= i < |rest| ==> rest[i] == entries[i + 1];
      if HasKey(entries, key) {
        var i :| 0 <= i < |entries| && entries[i].key == key;
        assert rest[i - 1].key == key;
      }
    }
  }

  lemma {:induction false} RetainedElements(entries: seq<Entry>, keep: Key -> bool)
    ensures forall e :: e in Retained(entries, keep) <==> e in entries && keep(e.key)
    ensures |Retained(entries, keep)| <= |entries|
    ensures DistinctKeys(entries) ==> DistinctKeys(Retained(entries, keep))
  {
    if entries != [] {
      var front, last := entries[..|entries| - 1], entries[|entries| - 1];
      RetainedElements(front, keep);
      assert entries == front + [last];
      if DistinctKeys(entries) {
        forall e | e in Retained(front, keep) ensures e.key != last.key {
          assert e in front;
        }
      }
    }
  }

  /** After an insert the key holds the value, every other key holds what it held
      unless it was the oldest of a full queue, and the queue stays well formed. */
  lemma InsertMeaning(old_: seq<Entry>, max: nat, key: Key, value: Value, new_: seq<Entry>)
    requires DistinctKeys(old_) && |old_| <= max && max > 0
    requires Inserted(old_, max, key, value, new_)
    ensures DistinctKeys(new_) && |new_| <= max
    ensures Lookup(new_, key) == Some(value)
    ensures forall k :: k != key ==>
              Lookup(new_, k) == if !HasKey(old_, key) && |old_| == max && k == old_[0].key then None
                    else Lookup(old_, k)
  {
    hide Lookup;
    if HasKey(old_, key) {
      ReplacedKeys(old_, key, value, new_);
      LookupFinds(new_, key);
      forall k | k != key ensures Lookup(new_, k) == Lookup(old_, k) {
        ReplacedLookup(old_, key, value, new_, k);
      }
    } else {
      var kept := if |old_| == max then old_[1..] else old_;
      AppendedKeys(old_, kept, Entry(key, value));
      LookupFinds(new_, key);
      assert new_[|kept|] == Entry(key, value);
      forall k | k != key
        ensures Lookup(new_, k) == if |old_| == max && k == old_[0].key then None else Lookup(old_, k)
      {
        AppendedLookup(kept, Entry(key, value), k);
        if |old_| == max {
          OldestLookup(old_, k);
        }
      }
    }
  }

  ghost predicate Replaced(old_: seq<Entry>, key: Key, value: Value, new_: seq<Entry>) {
    |new_| == |old_| && forall i :: 0 <= i < |old_| ==> new_[i] == if old_[i].key == key then Entry(key, value)
          else old_[i]
  }

  lemma ReplacedKeys(old_: seq<Entry>, key: Key, value: Value, new_: seq<Entry>)
    requires DistinctKeys(old_) && HasKey(old_, key) && Replaced(old_, key, value, new_)
    ensures DistinctKeys(new_) && exists i :: 0 <= i < |new_| && new_[i] == Entry(key, value)
  {
    var i :| 0 <= i < |old_| && old_[i].key == key;
    assert new_[i] == Entry(key, value);
  }

  lemma {:induction false} ReplacedLookup(old_: seq<Entry>, key: Key, value: Value, new_: seq<Entry>, k: Key)
    requires Replaced(old_, key, value, new_) && k != key
    ensures Lookup(new_, k) == Lookup(old_, k)
  {
    if old_ != [] {
      ReplacedLookup(old_[1..], key, value, new_[1..], k);
    }
  }

  lemma AppendedKeys(old_: seq<Entry>, kept: seq<Entry>, e: Entry)
    requires DistinctKeys(old_) && !HasKey(old_, e.key) && (kept == old_ || (old_ != [] && kept == old_[1..]))
    ensures DistinctKeys(kept + [e])
  {
  }

  lemma OldestLookup(old_: seq<Entry>, k: Key)
    requires DistinctKeys(old_) && old_ != []
    ensures Lookup(old_[1..], k) == if k == old_[0].key then None else Lookup(old_, k)
  {
    LookupFinds(old_[1..], k);
  }

  lemma {:induction false} AppendedLookup(entries: seq<Entry>, e: Entry, k: Key)
    requires e.key != k
    ensures Lookup(entries + [e], k) == Lookup(entries, k)
  {
    if entries != [] {
      assert (entries + [e])[1..] == entries[1..] + [e];
      AppendedLookup(entries[1..], e, k);
    }
  }

  /** A cached page answers for any address of the page as the rebased translation does. */
  lemma CachedPage(t: Translation, gva: u64)
    requires t.size > 0 && FromTranslation(t).Some?
    ensures FromTranslation(t).value.ToResult(gva) == Rebased(t, gva)
  {
  }

  class TranslationCache {
    const maxEntries: nat
    var entries: seq<Entry>

    ghost predicate Valid()
      reads this
    {
      maxEntries > 0 && |entries| <= maxEntries && DistinctKeys(entries)
    }

    constructor (max: nat)
      requires max > 0
      ensures Valid() && entries == [] && maxEntries == max
    {
      maxEntries := max;
      entries := [];
    }

    /** `TranslationCache::new` refuses a zero capacity. */
    static method Create(max: nat) returns (r: TranslationCache?)
      ensures max == 0 <==> r == null
      ensures r != null ==> fresh(r) && r.Valid() && r.entries == [] && r.maxEntries == max
    {
      if max == 0 { return null; }
      r := new TranslationCache(max);
    }

    method LookupKey(key: Key) returns (r: Option<Value>)
      requires Valid()
      ensures r == Lookup(entries, key)
    {
      var i := 0;
      while i < |entries|
        invariant 0 <= i <= |entries|
        invariant forall j :: 0 <= j < i ==> entries[j].key != key
      {
        if entries[i].key == key {
          LookupFinds(entries, key);
          return Some(entries[i].value);
        }
        i := i + 1;
      }
      LookupFinds(entries, key);
      r := None;
    }

    method LookupResult(key: Key, gva: u64) returns (r: Option<Translation>)
      requires Valid()
      ensures r == HitFor(entries, key, gva)
    {
      if key.size == 0 || gva / key.size != key.page {
        return None;
      }
      var value := LookupKey(key);
      if value.Some? && value.value.size == key.size {
        return Some(value.value.ToResult(gva));
      }
      r := None;
    }

    method Insert(key: Key, value: Value)
      requires Valid()
      modifies this
      ensures Valid()
      ensures Inserted(old(entries), maxEntries, key, value, entries)
    {
      ghost var before := entries;
      var i := 0;
      while i < |entries|
        invariant 0 <= i <= |entries| && entries == before
        invariant forall j :: 0 <= j < i ==> entries[j].key != key
      {
        if entries[i].key == key {
          entries := entries[i := Entry(key, value)];
          return;
        }
        i := i + 1;
      }
      if |entries| == maxEntries {
        entries := entries[1..];
      }
      entries := entries + [Entry(key, value)];
    }

    /** `insert_translation_result`: only a translation of the key's own page size is stored. */
    method InsertTranslation(key: Key, outcome: Outcome) returns (r: Result<(), TranslationError>)
      requires Valid()
      modifies this
      ensures Valid()
      ensures outcome.Err? ==> r == Err(outcome.error) && entries == old(entries)
      ensures outcome.Ok? && (outcome.value.size != key.size || FromTranslation(outcome.value) == None) ==>
                r.Err? && entries == old(entries)
      ensures outcome.Ok? && outcome.value.size == key.size && FromTranslation(outcome.value).Some? ==>
                r.Ok? && Inserted(old(entries), maxEntries, key, FromTranslation(outcome.value).value, entries)
    {
      if outcome.Err? { return Err(outcome.error); }
      if outcome.value.size != key.size { return Err(NoLeaf); }
      var value := FromTranslation(outcome.value);
      if value == None { return Err(NoLeaf); }
      Insert(key, value.value);
      r := Ok(());
    }

    method RetainCount(keep: Key -> bool) returns (removed: nat)
      requires Valid()
      modifies this
      ensures Valid()
      ensures entries == Retained(old(entries), keep)
      ensures removed == |old(entries)| - |entries|
    {
      var before := entries;
      var kept := [];
      var i := 0;
      while i < |before|
        invariant 0 <= i <= |before|
        invariant kept == Retained(before[..i], keep)
      {
        assert before[..i + 1][..i] == before[..i];
        if keep(before[i].key) {
          kept := kept + [before[i]];
        }
        i := i + 1;
      }
      assert before[..i] == before;
      RetainedElements(before, keep);
      entries := kept;
      removed := |before| - |kept|;
    }

    method InvalidateVm(vm: VmId) returns (removed: nat)
      requires Valid()
      modifies this
      ensures Valid() && entries == Retained(old(entries), (k: Key) => k.vm != vm)
      ensures removed == |old(entries)| - |entries|
    {
      removed := RetainCount((k: Key) => k.vm != vm);
    }

    method InvalidateRoot(vm: VmId, root: Root) returns (removed: nat)
      requires Valid()
      modifies this
      ensures Valid() && entries == Retained(old(entries), (k: Key) => k.vm != vm || k.root != root)
      ensures removed == |old(entries)| - |entries|
    {
      removed := RetainCount((k: Key) => k.vm != vm || k.root != root);
    }

    method InvalidateCr3(vm: VmId, cr3: u64) returns (removed: nat)
      requires Valid()
      modifies this
      ensures Valid() && entries == Retained(old(entries), (k: Key) => k.vm != vm || k.root != Cr3Root(cr3))
      ensures removed == |old(entries)| - |entries|
    {
      removed := InvalidateRoot(vm, Cr3Root(cr3));
    }

    method InvalidateAsid(vm: VmId, asid: u16) returns (removed: nat)
      requires Valid()
      modifies this
      ensures Valid() && entries == Retained(old(entries), (k: Key) => k.vm != vm || k.root.Asid() != Some(asid))
      ensures removed == |old(entries)| - |entries|
      ensures forall e :: e in entries <==> e in old(entries) && !(e.key.vm == vm && Carries(e.key.root, asid))
    {
      removed := RetainCount((k: Key) => k.vm != vm || k.root.Asid() != Some(asid));
      RetainedElements(old(entries), (k: Key) => k.vm != vm || k.root.Asid() != Some(asid));
      hide Retained;
    }

    method Flush() returns (removed: nat)
      requires Valid()
      modifies this
      ensures Valid() && entries == [] && removed == |old(entries)|
    {
      removed := |entries|;
      entries := [];
    }
  }

  /** `lookup_result` on the queue. */
  function HitFor(entries: seq<Entry>, key: Key, gva: u64): Option<Translation> {
    if key.size == 0 || gva / key.size != key.page then None
    else
      var value := Lookup(entries, key);
      if value.Some? && value.value.size == key.size then Some(value.value.ToResult(gva)) else None
  }
}
