/** Synthetic guest virtual memory: ranges of bytes that stand for one finite map from addresses to bytes. */
module VirtualMemory {
  import opened Machine
  import opened Sha256Standard

  datatype Range = Range(start: nat, bytes: seq<byte>) {
    function End(): nat {
      start + |bytes|
    }

    predicate Has(a: nat) {
      start <= a < End()
    }

    function At(a: nat): byte
      requires Has(a)
    {
      bytes[a - start]
    }
  }

  ghost function RangeMap(r: Range): map<nat, byte> {
    map a: nat | r.start <= a < r.End() :: r.At(a)
  }

  /** The bytes the ranges hold. */
  ghost function Contents(ranges: seq<Range>): map<nat, byte> {
    if ranges == [] then map[] else Contents(ranges[..|ranges| - 1]) + RangeMap(ranges[|ranges| - 1])
  }

  /** Non-empty, within the address space, in order of address and disjoint. */
  ghost predicate Arranged(ranges: seq<Range>) {
    && (forall i :: 0 <= i < |ranges| ==> ranges[i].bytes != [] && ranges[i].End() <= U64_MAX)
    && (forall i, j :: 0 <= i < j < |ranges| ==> ranges[i].End() <= ranges[j].start)
  }

  lemma {:induction false} InContents(ranges: seq<Range>, i: nat, a: nat)
    requires Arranged(ranges) && i < |ranges| && ranges[i].Has(a)
    ensures a in Contents(ranges) && Contents(ranges)[a] == ranges[i].At(a)
  {
    var n := |ranges| - 1;
    if i < n {
      InContents(ranges[..n], i, a);
    }
  }

  lemma {:induction false} FromContents(ranges: seq<Range>, a: nat)
    requires a in Contents(ranges)
    ensures exists i :: 0 <= i < |ranges| && ranges[i].Has(a)
  {
    var n := |ranges| - 1;
    if a in Contents(ranges[..n]) {
      FromContents(ranges[..n], a);
      var i :| 0 <= i < n && ranges[..n][i].Has(a);
      assert ranges[i].Has(a);
    } else {
      assert ranges[n].Has(a);
    }
  }

  // --- Mapping ---

  predicate Overlap(a: Range, b: Range) {
    a.start < b.End() && b.start < a.End()
  }

  /** The place of a range among those in order of address. */
  function Placed(ranges: seq<Range>, r: Range): seq<Range> {
    if ranges == [] || ranges[|ranges| - 1].start <= r.start then ranges + [r]
    else Placed(ranges[..|ranges| - 1], r) + [ranges[|ranges| - 1]]
  }

  lemma {:induction false} PlacedElements(ranges: seq<Range>, r: Range)
    ensures forall q :: q in Placed(ranges, r) <==> q == r || q in ranges
  {
    if ranges != [] && ranges[|ranges| - 1].start > r.start {
      var n := |ranges| - 1;
      PlacedElements(ranges[..n], r);
      assert forall q :: q in ranges <==> q in ranges[..n] || q == ranges[n];
    }
  }

  lemma AppendArranged(ranges: seq<Range>, r: Range)
    requires Arranged(ranges) && r.bytes != [] && r.End() <= U64_MAX
    requires forall i :: 0 <= i < |ranges| ==> ranges[i].End() <= r.start
    ensures Arranged(ranges + [r])
  {
  }

  lemma {:induction false} PlacedArranged(ranges: seq<Range>, r: Range)
    requires Arranged(ranges) && r.bytes != [] && r.End() <= U64_MAX
    requires forall i :: 0 <= i < |ranges| ==> !Overlap(r, ranges[i])
    ensures Arranged(Placed(ranges, r))
  {
    var n := |ranges| - 1;
    if ranges == [] {
      AppendArranged(ranges, r);
    } else if ranges[n].start <= r.start {
      assert !Overlap(r, ranges[n]);
      AppendArranged(ranges, r);
    } else {
      assert !Overlap(r, ranges[n]);
      hide Overlap;
      var front := ranges[..n];
      PlacedArranged(front, r);
      PlacedElements(front, r);
      var placed := Placed(front, r);
      forall i | 0 <= i < |placed| ensures placed[i].End() <= ranges[n].start {
        assert placed[i] in placed;
      }
      AppendArranged(placed, ranges[n]);
    }
  }

  lemma {:induction false} PlacedContents(ranges: seq<Range>, r: Range)
    requires forall i :: 0 <= i < |ranges| ==> !Overlap(r, ranges[i])
    requires forall i :: 0 <= i < |ranges| ==> ranges[i].bytes != []
    requires r.bytes != []
    ensures Contents(Placed(ranges, r)) == Contents(ranges) + RangeMap(r)
  {
    var n := |ranges| - 1;
    if ranges == [] || ranges[n].start <= r.start {
      assert (ranges + [r])[..|ranges|] == ranges;
    } else {
      var front, last := ranges[..n], ranges[n];
      PlacedContents(front, r);
      assert (Placed(front, r) + [last])[..|Placed(front, r)|] == Placed(front, r);
      assert !Overlap(r, last);
      Swap(Contents(front), RangeMap(r), RangeMap(last));
    }
  }

  lemma Swap(m: map<nat, byte>, a: map<nat, byte>, b: map<nat, byte>)
    requires a.Keys !! b.Keys
    ensures m + a + b == m + b + a
  {
  }

  lemma OverlapMeansMapped(ranges: seq<Range>, r: Range)
    requires Arranged(ranges) && r.bytes != []
    ensures (exists i :: 0 <= i < |ranges| && Overlap(r, ranges[i])) <==> exists a :: r.Has(a) && a in Contents(ranges)
  {
    hide Contents;
    if i :| 0 <= i < |ranges| && Overlap(r, ranges[i]) {
      var a := if r.start < ranges[i].start then ranges[i].start else r.start;
      InContents(ranges, i, a);
      assert r.Has(a);
    }
    if a :| r.Has(a) && a in Contents(ranges) {
      FromContents(ranges, a);
    }
  }

  datatype MapResult = Mapped | MalformedRange | Inconsistent
  datatype ReadResult = Copied | MalformedRead | Unmapped(at: nat, missing: nat)

  ghost predicate IsMapped(contents: map<nat, byte>, start: nat, len: nat) {
    forall a :: start <= a < start + len ==> a in contents
  }

  ghost predicate FirstUnmapped(contents: map<nat, byte>, start: nat, len: nat, at: nat) {
    start <= at < start + len && at !in contents && IsMapped(contents, start, at - start)
  }

  /** The map holds these bytes from `start` on. */
  ghost predicate Shows(contents: map<nat, byte>, start: nat, bytes: seq<byte>) {
    IsMapped(contents, start, |bytes|) && forall a :: start <= a < start + |bytes| ==> contents[a] == bytes[a - start]
  }

  lemma ShowsAppend(contents: map<nat, byte>, start: nat, bytes: seq<byte>, more: seq<byte>)
    requires Shows(contents, start, bytes) && Shows(contents, start + |bytes|, more)
    ensures Shows(contents, start, bytes + more)
  {
  }

  lemma ShowsOnce(contents: map<nat, byte>, start: nat, a: seq<byte>, b: seq<byte>)
    requires |a| == |b| && Shows(contents, start, a) && Shows(contents, start, b)
    ensures a == b
  {
    forall i | 0 <= i < |a| ensures a[i] == b[i] {
      assert contents[start + i] == a[start + i - start] == b[start + i - start];
    }
  }

  lemma RangeShows(ranges: seq<Range>, i: nat, from: nat, piece: seq<byte>)
    requires Arranged(ranges) && i < |ranges| && ranges[i].start <= from && from + |piece| <= ranges[i].End()
    requires piece == ranges[i].bytes[from - ranges[i].start..][..|piece|]
    ensures Shows(Contents(ranges), from, piece)
  {
    hide Contents, Arranged;
    forall a | from <= a < from + |piece| ensures a in Contents(ranges) && Contents(ranges)[a] == piece[a - from] {
      InContents(ranges, i, a);
    }
  }

  class SyntheticMemory {
    var ranges: seq<Range>

    ghost predicate Valid()
      reads this
    {
      Arranged(ranges)
    }

    constructor ()
      ensures Valid() && Contents(ranges) == map[]
    {
      ranges := [];
    }

    method Overlaps(r: Range) returns (b: bool)
      ensures b <==> exists i :: 0 <= i < |ranges| && Overlap(r, ranges[i])
    {
      for i := 0 to |ranges|
        invariant forall j :: 0 <= j < i ==> !Overlap(r, ranges[j])
      {
        if Overlap(r, ranges[i]) { return true; }
      }
      b := false;
    }

    /** A new range extends the map; it is refused when empty, too high, or touching a mapped address. */
    method MapRange(address: nat, bytes: seq<byte>) returns (r: MapResult)
      requires Valid()
      modifies this
      ensures Valid()
      ensures r == MalformedRange <==> bytes == [] || address + |bytes| > U64_MAX
      ensures r == Inconsistent ==> exists a :: address <= a < address + |bytes| && a in Contents(old(ranges))
      ensures r == Mapped ==> forall a :: address <= a < address + |bytes| ==> a !in Contents(old(ranges))
      ensures r == Mapped ==> Contents(ranges) == Contents(old(ranges)) + RangeMap(Range(address, bytes))
      ensures r != Mapped ==> ranges == old(ranges)
    {
      hide Contents, Overlap;
      if bytes == [] { return MalformedRange; }
      var range := Range(address, bytes);
      if range.End() > U64_MAX { return MalformedRange; }
      var clash := Overlaps(range);
      OverlapMeansMapped(ranges, range);
      if clash {
        ghost var a :| range.Has(a) && a in Contents(ranges);
        return Inconsistent;
      }
      forall a | address <= a < address + |bytes| ensures a !in Contents(ranges) {
        assert range.Has(a);
      }
      PlacedArranged(ranges, range);
      PlacedContents(ranges, range);
      ranges := Placed(ranges, range);
      r := Mapped;
    }

    method RangeContaining(a: nat) returns (i: nat)
      requires Valid()
      ensures i < |ranges| ==> ranges[i].Has(a)
      ensures i >= |ranges| ==> a !in Contents(ranges)
    {
      hide Contents;
      i := 0;
      while i < |ranges|
        invariant 0 <= i <= |ranges| && forall j :: 0 <= j < i ==> !ranges[j].Has(a)
      {
        if ranges[i].Has(a) { return; }
        i := i + 1;
      }
      if a in Contents(ranges) {
        FromContents(ranges, a);
      }
    }

    /**
     * A read copies exactly the mapped bytes, across ranges, or stops at the first unmapped address, with what lies
     * before it copied and the rest of the buffer as it was.
     */
    method ReadVirtual(address: nat, buf: array<byte>, len: nat) returns (r: ReadResult)
      requires Valid() && len <= buf.Length
      modifies buf
      ensures r == MalformedRead <==> len == 0 || address + len > U64_MAX
      ensures r == Copied ==> Shows(Contents(ranges), address, buf[..len]) && buf[len..] == old(buf[len..])
      ensures r.Unmapped? ==> FirstUnmapped(Contents(ranges), address, len, r.at) && r.missing == address + len - r.at
      ensures r.Unmapped? ==>
                && Shows(Contents(ranges), address, buf[..r.at - address])
                && buf[r.at - address..] == old(buf[r.at - address..])
      ensures r == MalformedRead ==> buf[..] == old(buf[..])
    {
      hide Contents, Shows, Arranged;
      if len == 0 { return MalformedRead; }
      if address + len > U64_MAX { return MalformedRead; }
      var end := address + len;
      var cursor, copied := address, 0;
      ShowsNothing(Contents(ranges), address);
      assert buf[..0] == [];
      while cursor < end
        invariant copied == cursor - address && 0 <= copied <= len
        invariant Shows(Contents(ranges), address, buf[..copied])
        invariant buf[copied..] == old(buf[copied..])
      {
        var at := RangeContaining(cursor);
        if at >= |ranges| {
          ShowsMapped(Contents(ranges), address, buf[..copied]);
          return Unmapped(cursor, len - copied);
        }
        var range := ranges[at];
        var offset := cursor - range.start;
        var readable := if |range.bytes| - offset < len - copied then |range.bytes| - offset else len - copied;
        var piece := range.bytes[offset..][..readable];
        RangeShows(ranges, at, cursor, piece);
        ghost var before := buf[..];
        forall i | 0 <= i < readable { buf[copied + i] := piece[i]; }
        assert buf[..copied + readable] == before[..copied] + piece;
        assert buf[copied + readable..] == before[copied..][readable..] == old(buf[copied + readable..]);
        ShowsAppend(Contents(ranges), address, before[..copied], piece);
        cursor, copied := cursor + readable, copied + readable;
      }
      r := Copied;
    }
  }

  lemma ShowsNothing(contents: map<nat, byte>, start: nat)
    ensures Shows(contents, start, [])
  {
  }

  lemma ShowsMapped(contents: map<nat, byte>, start: nat, bytes: seq<byte>)
    requires Shows(contents, start, bytes)
    ensures IsMapped(contents, start, |bytes|)
  {
  }
}

/** Hashing a range of guest text: the chunked form and the one-shot form. */
module TextHash {
  import opened Machine
  import opened Sha256Standard
  import opened StreamingSha256
  import opened VirtualMemory

  const CHUNK := 4096
  const MAX_TEXT_HASH_BYTES := 128 * 1024 * 1024

  datatype HashResult = Hashed(digest: seq<byte>) | Missing(at: nat) | TooLong

  /** The digest of the bytes of a range, or its first unmapped address. */
  ghost predicate Hashes(contents: map<nat, byte>, start: nat, len: nat, r: HashResult) {
    match r
    case Hashed(digest) => exists bytes :: |bytes| == len && Shows(contents, start, bytes) && digest == Digest(bytes)
    case Missing(at) => FirstUnmapped(contents, start, len, at)
    case TooLong => false
  }

  /** A range has one such answer. */
  lemma HashesOnce(contents: map<nat, byte>, start: nat, len: nat, a: HashResult, b: HashResult)
    requires Hashes(contents, start, len, a) && Hashes(contents, start, len, b)
    ensures a == b
  {
    hide Digest, Shows;
    if a.Hashed? {
      var x :| |x| == len && Shows(contents, start, x) && a.digest == Digest(x);
      ShowsMapped(contents, start, x);
      if b.Hashed? {
        var y :| |y| == len && Shows(contents, start, y) && b.digest == Digest(y);
        ShowsOnce(contents, start, x, y);
      }
    } else if b.Hashed? {
      var y :| |y| == len && Shows(contents, start, y) && b.digest == Digest(y);
      ShowsMapped(contents, start, y);
    }
  }

  lemma MissingLater(contents: map<nat, byte>, start: nat, done: nat, chunk: nat, len: nat, at: nat)
    requires IsMapped(contents, start, done) && done + chunk <= len && FirstUnmapped(contents, start + done, chunk, at)
    ensures FirstUnmapped(contents, start, len, at)
  {
  }

  /** The Linux form: feed the hash chunk by chunk. */
  method HashLinux(memory: SyntheticMemory, start: nat, end: nat) returns (r: HashResult)
    requires memory.Valid() && start <= end <= U64_MAX
    ensures Hashes(Contents(memory.ranges), start, end - start, r)
  {
    hide Contents, Digest, Shows, FirstUnmapped, Represents, Arranged;
    var hasher := new Sha256();
    var buf := new byte[CHUNK](_ => 0);
    ghost var contents := Contents(memory.ranges);
    var cursor := start;
    ShowsNothing(contents, start);
    while cursor < end
      invariant start <= cursor <= end
      invariant hasher.Valid() && fresh(hasher) && fresh(hasher.buffer) && hasher.buffer != buf
      invariant |hasher.message| == cursor - start && Shows(contents, start, hasher.message)
    {
      var remaining := if end - cursor < CHUNK then end - cursor else CHUNK;
      var read := memory.ReadVirtual(cursor, buf, remaining);
      if read.Unmapped? {
        ShowsMapped(contents, start, hasher.message);
        MissingLater(contents, start, cursor - start, remaining, end - start, read.at);
        return Missing(read.at);
      }
      var chunk := buf[..remaining];
      ShowsAppend(contents, start, hasher.message, chunk);
      hasher.Update(chunk);
      cursor := cursor + remaining;
    }
    var digest := hasher.Finish();
    r := Hashed(digest);
  }

  /** The Windows form: gather the bytes, up to a limit, and hash them at once. */
  method HashWindows(memory: SyntheticMemory, start: nat, end: nat) returns (r: HashResult)
    requires memory.Valid() && start <= end <= U64_MAX
    ensures r == TooLong <==> end - start > 0x800_0000
    ensures r != TooLong ==> Hashes(Contents(memory.ranges), start, end - start, r)
  {
    hide Contents, Digest, Shows, FirstUnmapped, Represents, Arranged;
    if end - start > MAX_TEXT_HASH_BYTES { return TooLong; }
    var bytes := [];
    var buf := new byte[CHUNK](_ => 0);
    ghost var contents := Contents(memory.ranges);
    var cursor := start;
    ShowsNothing(contents, start);
    while cursor < end
      invariant start <= cursor <= end
      invariant |bytes| == cursor - start && Shows(contents, start, bytes)
    {
      var remaining := if end - cursor < CHUNK then end - cursor else CHUNK;
      var read := memory.ReadVirtual(cursor, buf, remaining);
      if read.Unmapped? {
        ShowsMapped(contents, start, bytes);
        MissingLater(contents, start, cursor - start, remaining, end - start, read.at);
        return Missing(read.at);
      }
      var chunk := buf[..remaining];
      ShowsAppend(contents, start, bytes, chunk);
      bytes := bytes + chunk;
      cursor := cursor + remaining;
    }
    var hasher := new Sha256();
    hasher.Update(bytes);
    assert [] + bytes == bytes;
    var digest := hasher.Finish();
    r := Hashed(digest);
  }

  /** On a range within the limit, both forms give the same answer. */
  method HashesAgree(memory: SyntheticMemory, start: nat, end: nat) returns (linux: HashResult, windows: HashResult)
    requires memory.Valid() && start <= end <= U64_MAX
    ensures linux == windows <==> end - start <= 0x800_0000
  {
    hide Contents, Digest;
    linux := HashLinux(memory, start, end);
    windows := HashWindows(memory, start, end);
    if windows != TooLong {
      HashesOnce(Contents(memory.ranges), start, end - start, linux, windows);
    }
  }
}
