/** The byte-budgeted spool: records appended to numbered segment files. */
module DiskSpooling {
  import opened Machine
  import opened Rle
  import opened SpoolSegment

  /** A segment file of the spool directory. */
  datatype File = File(index: nat, bytes: seq<byte>)

  /** What this spool wrote to one of its files. */
  datatype Segment = Segment(index: nat, records: seq<Record>, lines: seq<seq<byte>>)

  datatype SpoolError = Full | RecordTooLarge | Internal
  datatype AppendResult = Appended | Refused(error: SpoolError)

  function TotalSize(files: seq<File>): nat {
    if files == [] then 0 else TotalSize(files[..|files| - 1]) + |files[|files| - 1].bytes|
  }

  predicate HasIndex(files: seq<File>, index: nat) {
    exists i :: 0 <= i < |files| && files[i].index == index
  }

  predicate DistinctIndices(files: seq<File>) {
    forall i, j :: 0 <= i < j < |files| ==> files[i].index != files[j].index
  }

  /** The file holds the segment: its header, then its records, each standing for its line. */
  ghost predicate Stores(file: File, s: Segment, compression: Compression) {
    && file.index == s.index
    && file.bytes == Header(compression) + RecordsBytes(s.records)
    && |s.records| == |s.lines|
    && forall i :: 0 <= i < |s.lines| ==> Holds(s.records[i], s.lines[i], compression) && LineFits(s.lines[i])
  }

  /** The lines of all segments, in the order they were written. */
  function AllLines(segments: seq<Segment>): seq<seq<byte>> {
    if segments == [] then [] else AllLines(segments[..|segments| - 1]) + segments[|segments| - 1].lines
  }

  /** `files` is the directory found at start followed by the segments written since;
      only a segment of one record may be longer than `segmentBytes`. */
  ghost predicate Layout(files: seq<File>, found: seq<File>, segments: seq<Segment>, compression: Compression,
                         segmentBytes: nat) {
    && |files| == |found| + |segments|
    && found <= files
    && DistinctIndices(files)
    && (forall i :: 0 <= i < |segments| ==> Stores(files[|found| + i], segments[i], compression))
    && (forall i :: 0 <= i < |segments| && |segments[i].lines| >= 2 ==> |files[|found| + i].bytes| <= segmentBytes)
  }

  lemma TotalSizeAppend(files: seq<File>, f: File)
    ensures TotalSize(files + [f]) == TotalSize(files) + |f.bytes|
  {
    assert (files + [f])[..|files|] == files;
  }

  lemma AllLinesAppend(segments: seq<Segment>, s: Segment)
    ensures AllLines(segments + [s]) == AllLines(segments) + s.lines
  {
    assert (segments + [s])[..|segments|] == segments;
  }

  lemma {:induction false} RecordsBytesAppend(records: seq<Record>, r: Record)
    ensures RecordsBytes(records + [r]) == RecordsBytes(records) + RecordBytes(r)
  {
    hide RecordBytes;
    if records == [] {
      assert (records + [r])[1..] == [];
    } else {
      assert (records + [r])[1..] == records[1..] + [r];
      RecordsBytesAppend(records[1..], r);
    }
  }

  /** Starting a segment: the header alone. */
  lemma LayoutOpen(files: seq<File>, found: seq<File>, segments: seq<Segment>, compression: Compression,
                   segmentBytes: nat, index: nat)
    requires Layout(files, found, segments, compression, segmentBytes) && !HasIndex(files, index)
    ensures Layout(files + [File(index, Header(compression))], found, segments + [Segment(index, [], [])],
                   compression, segmentBytes)
    ensures TotalSize(files + [File(index, Header(compression))]) == TotalSize(files) + |Header(compression)|
    ensures AllLines(segments + [Segment(index, [], [])]) == AllLines(segments)
  {
    hide Stores, Header, TotalSize, AllLines;
    var file, s := File(index, Header(compression)), Segment(index, [], []);
    var files', segments' := files + [file], segments + [s];
    TotalSizeAppend(files, file);
    AllLinesAppend(segments, s);
    assert AllLines(segments) + [] == AllLines(segments);
    StoresHeader(index, compression);
    assert files'[|files|] == file && segments'[|segments|] == s;
    assert forall i :: 0 <= i < |segments| ==> files'[|found| + i] == files[|found| + i] && segments'[i] == segments[i];
  }

  lemma StoresHeader(index: nat, compression: Compression)
    ensures Stores(File(index, Header(compression)), Segment(index, [], []), compression)
  {
    hide Header;
    assert Header(compression) + [] == Header(compression);
  }

  lemma StoresGrow(file: File, s: Segment, compression: Compression, r: Record, line: seq<byte>)
    requires Stores(file, s, compression) && Holds(r, line, compression) && LineFits(line)
    ensures var grown := Segment(s.index, s.records + [r], s.lines + [line]);
            Stores(File(s.index, file.bytes + RecordBytes(r)), grown, compression)
  {
    hide Header, RecordsBytes, RecordBytes, Holds;
    RecordsBytesAppend(s.records, r);
    assert file.bytes + RecordBytes(r) == Header(compression) + RecordsBytes(s.records + [r]);
  }

  /** Adding a record to the last segment. */
  lemma LayoutGrow(files: seq<File>, found: seq<File>, segments: seq<Segment>, compression: Compression,
                   segmentBytes: nat, r: Record, line: seq<byte>, files': seq<File>, segments': seq<Segment>)
    requires Layout(files, found, segments, compression, segmentBytes) && segments != []
    requires Holds(r, line, compression) && LineFits(line)
    requires var last := segments[|segments| - 1];
             && (last.lines == [] || |files[|files| - 1].bytes| + |RecordBytes(r)| <= segmentBytes)
             && files' == files[|files| - 1 := File(last.index, files[|files| - 1].bytes + RecordBytes(r))]
             && segments' == segments[|segments| - 1 := Segment(last.index, last.records + [r], last.lines + [line])]
    ensures Layout(files', found, segments', compression, segmentBytes)
    ensures TotalSize(files') == TotalSize(files) + |RecordBytes(r)|
    ensures AllLines(segments') == AllLines(segments) + [line]
  {
    hide Stores, Header, RecordBytes, Holds, TotalSize, AllLines;
    var n, k := |files| - 1, |segments| - 1;
    var last := segments[k];
    assert Stores(files[|found| + k], last, compression);
    StoresGrow(files[n], last, compression, r, line);
    StoresIndex(files[n], last, compression);
    assert forall i :: 0 <= i < k ==> files'[|found| + i] == files[|found| + i] && segments'[i] == segments[i];
    LastChanged(files, files', segments, segments');
    assert AllLines(segments[..k]) + (last.lines + [line]) == AllLines(segments[..k]) + last.lines + [line];
    assert found <= files';
  }

  lemma StoresIndex(file: File, s: Segment, compression: Compression)
    requires Stores(file, s, compression)
    ensures file.index == s.index
  {
  }

  lemma LastChanged(files: seq<File>, files': seq<File>, segments: seq<Segment>, segments': seq<Segment>)
    requires |files| == |files'| > 0 && files[..|files| - 1] == files'[..|files| - 1]
    requires |segments| == |segments'| > 0 && segments[..|segments| - 1] == segments'[..|segments| - 1]
    ensures TotalSize(files') == TotalSize(files) + |files'[|files| - 1].bytes| - |files[|files| - 1].bytes|
    ensures AllLines(segments) == AllLines(segments[..|segments| - 1]) + segments[|segments| - 1].lines
    ensures AllLines(segments') == AllLines(segments[..|segments| - 1]) + segments'[|segments| - 1].lines
  {
  }

  /** No free index is left among the next 1024 below the last one. */
  ghost predicate Exhausted(files: seq<File>, next: nat) {
    forall i :: next <= i < next + 1024 && i < TWO_64 - 1 ==> HasIndex(files, i)
  }

  /** Every index in use lies below the next one. */
  ghost predicate Ahead(files: seq<File>, next: nat) {
    forall i :: 0 <= i < |files| ==> files[i].index < next
  }

  /** Ahead of all indices, only the last index is exhausted. */
  lemma AheadIsFree(files: seq<File>, next: nat)
    requires Ahead(files, next) && next < TWO_64
    ensures Exhausted(files, next) <==> next == TWO_64 - 1
    ensures !HasIndex(files, next)
  {
    assert !HasIndex(files, next);
  }

  class DiskSpool {
    const maxBytes: nat
    const segmentBytes: nat
    const compression: Compression
    const found: seq<File>           // the directory as the scan found it
    var totalBytes: nat
    var currentBytes: nat
    var nextIndex: nat
    var writer: Option<nat>          // index of the open segment
    var files: seq<File>             // the spool directory
    ghost var segments: seq<Segment> // what this spool wrote, in order

    ghost predicate Valid()
      reads this
    {
      && maxBytes < TWO_64 && nextIndex < TWO_64
      && Layout(files, found, segments, compression, segmentBytes)
      && totalBytes == TotalSize(files) < TWO_64
      && (totalBytes <= maxBytes || (files == found && segments == []))
      && (writer == None ==> currentBytes == 0)
      && (writer.Some? ==> segments != [] && files[|files| - 1].index == writer.value
                           && currentBytes == |files[|files| - 1].bytes| > 0)
    }

    /** The lines accepted so far. */
    ghost function Accepted(): seq<seq<byte>>
      reads this
    {
      AllLines(segments)
    }

    constructor (directory: seq<File>, max: nat, segment: nat, c: Compression)
      requires max < TWO_64 && TotalSize(directory) < TWO_64 && DistinctIndices(directory)
      requires forall f :: f in directory ==> f.index < TWO_64
      ensures Valid() && files == found == directory && maxBytes == max && segmentBytes == segment && compression == c
      ensures segments == [] && totalBytes == TotalSize(directory)
      ensures if exists f :: f in directory && f.index == TWO_64 - 1 then nextIndex == 1
              else && Ahead(directory, nextIndex)
                   && (nextIndex == 1 || exists f :: f in directory && f.index + 1 == nextIndex)
    {
      var total, next := ScanSpoolDir(directory);
      maxBytes := max;
      segmentBytes := segment;
      compression := c;
      found := directory;
      totalBytes := total;
      currentBytes := 0;
      nextIndex := next;
      writer := None;
      files := directory;
      segments := [];
    }

    function AvailableBytes(): nat
      reads this
    {
      if totalBytes <= maxBytes then maxBytes - totalBytes else 0
    }

    /** The first unused index; none exactly when the next 1024, or all below the last, are in use. */
    method CreateNextSegment() returns (r: Option<nat>)
      requires Valid()
      modifies this`nextIndex
      ensures nextIndex < TWO_64
      ensures r.Some? ==> !HasIndex(files, r.value) && old(nextIndex) <= r.value && nextIndex == r.value + 1
      ensures r.Some? ==> forall i :: old(nextIndex) <= i < r.value ==> HasIndex(files, i)
      ensures r.None? <==> Exhausted(files, old(nextIndex))
      ensures Ahead(files, old(nextIndex)) ==> Ahead(files, nextIndex) && nextIndex <= old(nextIndex) + 1
    {
      if Ahead(files, nextIndex) {
        AheadIsFree(files, nextIndex);
      }
      ghost var start := nextIndex;
      var attempts := 0;
      while attempts < 1024
        invariant 0 <= attempts <= 1024 && nextIndex == start + attempts < TWO_64
        invariant forall i :: start <= i < nextIndex ==> HasIndex(files, i)
      {
        var index := nextIndex;
        if nextIndex + 1 == TWO_64 {
          return None;
        }
        nextIndex := nextIndex + 1;
        if !HasIndex(files, index) {
          return Some(index);
        }
        attempts := attempts + 1;
      }
      r := None;
    }

    /** Open a new segment, if its header and a record of `recordBytes` fit and an index is left. */
    method OpenSegment(recordBytes: nat) returns (r: AppendResult)
      requires Valid() && writer == None && totalBytes + recordBytes <= maxBytes
      modifies this
      ensures Valid() && Accepted() == old(Accepted())
      ensures r.Refused? ==> files == old(files) && segments == old(segments)
      ensures r == if old(totalBytes) + |Header(compression)| + recordBytes > maxBytes then Refused(Full)
                   else if Exhausted(old(files), old(nextIndex)) then Refused(Internal) else Appended
      ensures r.Appended? ==>
                writer.Some? && totalBytes + recordBytes <= maxBytes && segments[|segments| - 1].lines == []
      ensures totalBytes == old(totalBytes) + if r.Appended? then |Header(compression)| else 0
      ensures r.Appended? ==> |files| >= |old(files)| && forall i :: 0 <= i < |old(files)| ==> files[i] == old(files)[i]
      ensures Ahead(old(files), old(nextIndex)) ==> Ahead(files, nextIndex) && nextIndex <= old(nextIndex) + 1
    {
      hide Layout, TotalSize, AllLines, RecordsBytes, Exhausted;
      var header := Header(compression);
      HeaderNotEmpty(compression);
      if AvailableBytes() < |header| + recordBytes {
        return Refused(Full);
      }
      var index := CreateNextSegment();
      if index == None {
        return Refused(Internal);
      }
      LayoutOpen(files, found, segments, compression, segmentBytes, index.value);
      files := files + [File(index.value, header)];
      segments := segments + [Segment(index.value, [], [])];
      LayoutSizes(files, found, segments, compression, segmentBytes);
      writer := Some(index.value);
      currentBytes := |header|;
      totalBytes := totalBytes + |header|;
      r := Appended;
    }

    /** The open segment cannot take the record. */
    ghost predicate NeedsSegment(recordBytes: nat)
      reads this
    {
      writer == None || currentBytes + recordBytes > segmentBytes
    }

    /** Make sure a segment is open that may take `recordBytes` more. */
    method EnsureSegment(recordBytes: nat) returns (r: AppendResult)
      requires Valid() && totalBytes + recordBytes <= maxBytes
      modifies this
      ensures Valid() && Accepted() == old(Accepted())
      ensures r.Refused? ==> files == old(files) && segments == old(segments)
      ensures r == if !old(NeedsSegment(recordBytes)) then Appended
                   else if old(totalBytes) + |Header(compression)| + recordBytes > maxBytes then Refused(Full)
                   else if Exhausted(old(files), old(nextIndex)) then Refused(Internal) else Appended
      ensures r.Appended? ==> writer.Some? && totalBytes + recordBytes <= maxBytes
      ensures r.Appended? ==> segments[|segments| - 1].lines == [] || currentBytes + recordBytes <= segmentBytes
      ensures totalBytes <= old(totalBytes) + |Header(compression)|
      ensures r.Appended? ==> |files| >= |old(files)| && forall i :: 0 <= i < |old(files)| ==> files[i] == old(files)[i]
      ensures Ahead(old(files), old(nextIndex)) ==> Ahead(files, nextIndex) && nextIndex <= old(nextIndex) + 1
    {
      hide Layout, TotalSize, AllLines, RecordsBytes, Header, Exhausted, Ahead;
      var needsSegment := writer == None || (currentBytes > 0 && currentBytes + recordBytes > segmentBytes);
      LayoutSizes(files, found, segments, compression, segmentBytes);
      if !needsSegment {
        return Appended;
      }
      writer, currentBytes := None, 0;
      r := OpenSegment(recordBytes);
    }

    /** Write a record to the open segment. */
    method WriteRecord(built: Record, line: seq<byte>)
      requires Valid() && writer.Some? && Holds(built, line, compression) && LineFits(line)
      requires TotalBytes(built) == |RecordBytes(built)| && totalBytes + TotalBytes(built) <= maxBytes
      requires segments[|segments| - 1].lines == [] || currentBytes + TotalBytes(built) <= segmentBytes
      modifies this
      ensures Valid() && Accepted() == old(Accepted()) + [line]
      ensures totalBytes == old(totalBytes) + TotalBytes(built) && nextIndex == old(nextIndex)
      ensures |files| == |old(files)| && forall i :: 0 <= i < |files| ==>
                files[i].index == old(files)[i].index && old(files)[i].bytes <= files[i].bytes
    {
      hide Layout, TotalSize, AllLines, RecordsBytes, RecordBytes, Holds, Header, TotalBytes;
      LayoutSizes(files, found, segments, compression, segmentBytes);
      ghost var k := |segments| - 1;
      var n := |files| - 1;
      ghost var last := segments[k];
      ghost var segments' := segments[k := Segment(last.index, last.records + [built], last.lines + [line])];
      var files' := files[n := File(files[n].index, files[n].bytes + RecordBytes(built))];
      LayoutGrow(files, found, segments, compression, segmentBytes, built, line, files', segments');
      files, segments := files', segments';
      currentBytes := currentBytes + TotalBytes(built);
      totalBytes := totalBytes + TotalBytes(built);
    }

    /** Append a line, or refuse it and leave every file as it was. */
    method Append(line: seq<byte>) returns (r: AppendResult, ghost record: Record)
      requires Valid() && LineFits(line)
      modifies this
      ensures Valid() && Holds(record, line, compression)
      ensures |RecordBytes(record)| <= |line| + |line| / 128 + 36
      // Accepted exactly when it fits the budget and, if a new segment is needed, so do its header and an index for it.
      ensures r == if |RecordBytes(record)| > maxBytes then Refused(RecordTooLarge)
                   else if old(totalBytes) + |RecordBytes(record)| > maxBytes then Refused(Full)
                   else if !old(NeedsSegment(|RecordBytes(record)|)) then Appended
                   else if old(totalBytes) + |Header(compression)| + |RecordBytes(record)| > maxBytes then Refused(Full)
                   else if Exhausted(old(files), old(nextIndex)) then Refused(Internal) else Appended
      ensures totalBytes <= old(totalBytes) + |Header(compression)| + |RecordBytes(record)|
      ensures Ahead(old(files), old(nextIndex)) ==> Ahead(files, nextIndex) && nextIndex <= old(nextIndex) + 1
      ensures r.Appended? ==> Accepted() == old(Accepted()) + [line]
      ensures r.Appended? ==> totalBytes <= maxBytes
      ensures r.Refused? ==> files == old(files) && Accepted() == old(Accepted())
      ensures |files| >= |old(files)| && forall i :: 0 <= i < |old(files)| ==>
                files[i].index == old(files)[i].index && old(files)[i].bytes <= files[i].bytes
    {
      hide Layout, TotalSize, AllLines, RecordsBytes, RecordBytes, Holds, Header, Exhausted;
      var built := BuildRecord(line, compression);
      record := built;
      var recordBytes := TotalBytes(built);
      if recordBytes > maxBytes {
        return Refused(RecordTooLarge), built;
      }
      RecordTakesRoom(built);
      if AvailableBytes() < recordBytes {
        return Refused(Full), built;
      }
      ghost var before := files;
      var ensured := EnsureSegment(recordBytes);
      if ensured.Refused? {
        return ensured, built;
      }
      WriteRecord(built, line);
      r := Appended;
    }
  }

  lemma HeaderNotEmpty(compression: Compression)
    ensures |Header(compression)| > 0
  {
  }

  lemma RecordTakesRoom(r: Record)
    ensures TotalBytes(r) > 0
  {
  }

  lemma LayoutSizes(files: seq<File>, found: seq<File>, segments: seq<Segment>, compression: Compression,
                    segmentBytes: nat)
    requires Layout(files, found, segments, compression, segmentBytes)
    ensures |files| == |found| + |segments|
    ensures segments != [] ==> files[|files| - 1].index == segments[|segments| - 1].index
    ensures segments == [] ==> files == found
  {
    if segments != [] {
      assert Stores(files[|found| + (|segments| - 1)], segments[|segments| - 1], compression);
    }
  }

  /** Total size, and one more than the largest index; the scan of the directory. */
  method ScanSpoolDir(directory: seq<File>) returns (total: nat, next: nat)
    requires TotalSize(directory) < TWO_64
    requires forall f :: f in directory ==> f.index < TWO_64
    ensures total == TotalSize(directory) && next < TWO_64
    ensures if exists f :: f in directory && f.index == TWO_64 - 1 then next == 1
            else Ahead(directory, next) && (next == 1 || exists f :: f in directory && f.index + 1 == next)
  {
    hide TotalSize;
    total := 0;
    var maxIndex: Option<nat> := None;
    NoFiles();
    assert directory[..0] == [];
    var i := 0;
    while i < |directory|
      invariant 0 <= i <= |directory|
      invariant total == TotalSize(directory[..i])
      invariant maxIndex == None <==> i == 0
      invariant maxIndex.Some? ==> maxIndex.value < TWO_64 && forall j :: 0 <= j < i ==>
                  directory[j].index <= maxIndex.value
      invariant maxIndex.Some? ==> exists j :: 0 <= j < i && directory[j].index == maxIndex.value
    {
      assert directory[..i + 1] == directory[..i] + [directory[i]];
      TotalSizeAppend(directory[..i], directory[i]);
      TotalSizePrefix(directory, i + 1);
      total := SatAdd(total, |directory[i].bytes|);
      maxIndex := Some(if maxIndex.Some? && maxIndex.value > directory[i].index then maxIndex.value
            else directory[i].index);
      i := i + 1;
    }
    assert directory[..i] == directory;
    next := if maxIndex == None || maxIndex.value + 1 == TWO_64 then 1 else maxIndex.value + 1;
  }

  lemma NoFiles()
    ensures TotalSize([]) == 0
  {
  }

  lemma {:induction false} TotalSizePrefix(files: seq<File>, i: nat)
    requires i <= |files|
    ensures TotalSize(files[..i]) <= TotalSize(files)
    decreases |files| - i
  {
    if i == |files| {
      assert files[..i] == files;
    } else {
      TotalSizePrefix(files, i + 1);
      assert files[..i + 1][..i] == files[..i];
    }
  }

  // --- Whole runs ---

  /** The lines a reader recovers from one file. */
  function FileLines(file: File, utf8: seq<byte> -> bool): seq<seq<byte>> {
    var p := ParseSegment(file.bytes, utf8);
    if p.Records? then seq(|p.records|, i requires 0 <= i < |p.records| => p.records[i].line) else []
  }

  /** The lines a reader recovers from segment files, in order. */
  function Recovered(files: seq<File>, utf8: seq<byte> -> bool): seq<seq<byte>> {
    if files == [] then [] else Recovered(files[..|files| - 1], utf8) + FileLines(files[|files| - 1], utf8)
  }

  lemma StoredLines(file: File, s: Segment, compression: Compression, utf8: seq<byte> -> bool)
    requires Stores(file, s, compression)
    requires forall i :: 0 <= i < |s.lines| ==> utf8(s.lines[i])
    ensures FileLines(file, utf8) == s.lines
  {
    hide Header, RecordsBytes, ParseSegment, Holds;
    SegmentRoundTrip(s.records, s.lines, compression, utf8);
  }

  /** Reading back everything written gives every accepted line, once and in order. */
  lemma {:induction false} RecoversAccepted(files: seq<File>, segments: seq<Segment>, compression: Compression,
                                            utf8: seq<byte> -> bool)
    requires |files| == |segments|
    requires forall i :: 0 <= i < |segments| ==> Stores(files[i], segments[i], compression)
    requires forall line :: line in AllLines(segments) ==> utf8(line)
    ensures Recovered(files, utf8) == AllLines(segments)
  {
    hide Stores, FileLines;
    if files != [] {
      var n := |files| - 1;
      var s := segments[n];
      assert AllLines(segments) == AllLines(segments[..n]) + s.lines;
      RecoversAccepted(files[..n], segments[..n], compression, utf8);
      forall i | 0 <= i < |s.lines| ensures utf8(s.lines[i]) {
        assert s.lines[i] in AllLines(segments);
      }
      StoredLines(files[n], s, compression, utf8);
    }
  }

  /** The lines that were not refused. */
  function Kept(lines: seq<seq<byte>>, refused: seq<bool>): seq<seq<byte>>
    requires |lines| == |refused|
  {
    if lines == [] then []
    else
      var n := |lines| - 1;
      Kept(lines[..n], refused[..n]) + if refused[n] then [] else [lines[n]]
  }

  /** Room for every line in a segment of its own, however it compresses. */
  function Worst(lines: seq<seq<byte>>, c: Compression): nat {
    if lines == [] then 0
    else
      var line := lines[|lines| - 1];
      Worst(lines[..|lines| - 1], c) + |Header(c)| + |line| + |line| / 128 + 36
  }

  lemma NoWorst(c: Compression)
    ensures Worst([], c) == 0
  {
  }

  lemma {:induction false} WorstGrows(lines: seq<seq<byte>>, i: nat, c: Compression)
    requires i <= |lines|
    ensures Worst(lines[..i], c) <= Worst(lines, c)
    decreases |lines| - i
  {
    if i == |lines| {
      assert lines[..i] == lines;
    } else {
      WorstGrows(lines, i + 1, c);
      assert lines[..i + 1][..i] == lines[..i];
    }
  }

  lemma WorstStep(lines: seq<seq<byte>>, i: nat, c: Compression)
    requires i < |lines|
    ensures Worst(lines[..i + 1], c) == Worst(lines[..i], c) + |Header(c)| + |lines[i]| + |lines[i]| / 128 + 36
    ensures Worst(lines[..i + 1], c) <= Worst(lines, c)
  {
    hide Header;
    assert lines[..i + 1][..i] == lines[..i];
    WorstGrows(lines, i + 1, c);
  }

  lemma KeptNothing()
    ensures Kept([], []) == []
  {
  }

  lemma NoLines()
    ensures AllLines([]) == []
  {
  }

  lemma KeptStep(lines: seq<seq<byte>>, refused: seq<bool>, i: nat, flag: bool)
    requires i < |lines| && |refused| == i
    ensures Kept(lines[..i + 1], refused + [flag]) == Kept(lines[..i], refused) + if flag then [] else [lines[i]]
  {
    assert lines[..i + 1][..i] == lines[..i] && (refused + [flag])[..i] == refused;
  }

  lemma {:induction false} KeptAreLines(lines: seq<seq<byte>>, refused: seq<bool>)
    requires |lines| == |refused|
    ensures forall line :: line in Kept(lines, refused) ==> line in lines
  {
    if lines != [] {
      var n := |lines| - 1;
      KeptAreLines(lines[..n], refused[..n]);
    }
  }

  /** No line is refused that fits, with its own header, into what is left, while indices are left too. */
  ghost predicate Roomy(total: nat, files: seq<File>, next: nat, max: nat, lines: seq<seq<byte>>, c: Compression) {
    total + Worst(lines, c) <= max && Ahead(files, next) && next + |lines| < TWO_64
  }

  /** The appends of a run, one after the other. */
  method AppendAll(spool: DiskSpool, lines: seq<seq<byte>>) returns (refused: seq<bool>)
    requires spool.Valid() && spool.totalBytes <= spool.maxBytes
    requires forall line :: line in lines ==> LineFits(line)
    modifies spool
    ensures spool.Valid() && spool.totalBytes <= spool.maxBytes
    ensures |refused| == |lines| && spool.Accepted() == old(spool.Accepted()) + Kept(lines, refused)
    ensures var bytes, files, next := old(spool.totalBytes), old(spool.files), old(spool.nextIndex);
            Roomy(bytes, files, next, spool.maxBytes, lines, spool.compression) ==> Kept(lines, refused) == lines
  {
    hide Worst, Exhausted, Ahead, Kept, AllLines, Layout, TotalSize, LineFits, Header, Holds, RecordBytes, HasIndex;
    var c := spool.compression;
    ghost var roomy := Roomy(spool.totalBytes, spool.files, spool.nextIndex, spool.maxBytes, lines, c);
    refused := [];
    KeptNothing();
    NoWorst(c);
    assert lines[..0] == [] && spool.Accepted() + [] == spool.Accepted();
    for i := 0 to |lines|
      invariant spool.Valid() && spool.totalBytes <= spool.maxBytes
      invariant |refused| == i && spool.Accepted() == old(spool.Accepted()) + Kept(lines[..i], refused)
      invariant spool.totalBytes <= old(spool.totalBytes) + Worst(lines[..i], c)
      invariant roomy ==> Ahead(spool.files, spool.nextIndex) && spool.nextIndex <= old(spool.nextIndex) + i
      invariant roomy ==> Kept(lines[..i], refused) == lines[..i]
    {
      if roomy {
        AheadIsFree(spool.files, spool.nextIndex);
      }
      WorstStep(lines, i, c);
      assert lines[i] in lines;
      var r, record := spool.Append(lines[i]);
      KeptStep(lines, refused, i, r.Refused?);
      refused := refused + [r.Refused?];
      assert lines[..i + 1] == lines[..i] + [lines[i]];
    }
    assert lines[..|lines|] == lines;
  }

  /** Any run of appends: the budget holds, files found at start are untouched, new files
      have new indices, and what is recovered from them is exactly what was accepted. */
  method SpoolRun(directory: seq<File>, max: nat, segment: nat, c: Compression, lines: seq<seq<byte>>,
                  utf8: seq<byte> -> bool)
    returns (files: seq<File>, refused: seq<bool>)
    requires max < TWO_64 && TotalSize(directory) <= max && DistinctIndices(directory)
    requires forall f :: f in directory ==> f.index < TWO_64
    requires forall line :: line in lines ==> LineFits(line) && utf8(line)
    ensures directory <= files && DistinctIndices(files) && TotalSize(files) <= max
    ensures |refused| == |lines| && Recovered(files[|directory|..], utf8) == Kept(lines, refused)
    ensures forall k :: |directory| <= k < |files| && |FileLines(files[k], utf8)| >= 2 ==> |files[k].bytes| <= segment
    // While the budget has room for every line in a segment of its own, and indices are left, nothing is refused.
    ensures (&& TotalSize(directory) + Worst(lines, c) <= max && |lines| + 1 < TWO_64
             && forall f :: f in directory ==> f.index + |lines| + 1 < TWO_64) ==> Kept(lines, refused) == lines
  {
    hide FileLines, Worst, Kept, Recovered, AllLines, Layout, TotalSize, Stores, LineFits;
    NoLines();
    var spool := new DiskSpool(directory, max, segment, c);
    refused := AppendAll(spool, lines);
    assert [] + Kept(lines, refused) == Kept(lines, refused);
    KeptAreLines(lines, refused);
    files := spool.files;
    LayoutMeaning(files, directory, spool.segments, spool.compression, spool.segmentBytes);
    RecoversAccepted(files[|directory|..], spool.segments, spool.compression, utf8);
    LongSegments(files, directory, spool.segments, spool.compression, segment, utf8);
  }

  /** A file from which two or more lines are recovered keeps to the segment size. */
  lemma LongSegments(files: seq<File>, found: seq<File>, segments: seq<Segment>, compression: Compression,
                     segmentBytes: nat, utf8: seq<byte> -> bool)
    requires Layout(files, found, segments, compression, segmentBytes)
    requires forall line :: line in AllLines(segments) ==> utf8(line)
    ensures forall k :: |found| <= k < |files| && |FileLines(files[k], utf8)| >= 2 ==> |files[k].bytes| <= segmentBytes
  {
    hide Stores, FileLines;
    forall k | |found| <= k < |files| && |FileLines(files[k], utf8)| >= 2 ensures |files[k].bytes| <= segmentBytes {
      var s := segments[k - |found|];
      forall i | 0 <= i < |s.lines| ensures utf8(s.lines[i]) {
        LineOfSegment(segments, k - |found|, i);
      }
      assert Stores(files[|found| + (k - |found|)], s, compression);
      StoredLines(files[k], s, compression, utf8);
    }
  }

  lemma {:induction false} LineOfSegment(segments: seq<Segment>, k: nat, i: nat)
    requires k < |segments| && i < |segments[k].lines|
    ensures segments[k].lines[i] in AllLines(segments)
  {
    var n := |segments| - 1;
    if k < n {
      LineOfSegment(segments[..n], k, i);
    }
  }

  lemma LayoutMeaning(files: seq<File>, found: seq<File>, segments: seq<Segment>, compression: Compression,
                      segmentBytes: nat)
    requires Layout(files, found, segments, compression, segmentBytes)
    ensures found <= files && DistinctIndices(files) && |files[|found|..]| == |segments|
    ensures forall i :: 0 <= i < |segments| ==> Stores(files[|found|..][i], segments[i], compression)
  {
    hide Stores;
    forall i | 0 <= i < |segments| ensures Stores(files[|found|..][i], segments[i], compression) {
      assert files[|found|..][i] == files[|found| + i];
    }
  }
}
