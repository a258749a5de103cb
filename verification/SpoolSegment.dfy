/** Length-framed spool records and the segments they form. */
module SpoolSegment {
  import opened Machine
  import opened Rle

  const NEWLINE: byte := 10
  const SPACE: byte := 32
  const PLUS: byte := 43

  function Ascii(s: string): (b: seq<byte>)
    ensures |b| == |s|
  {
    seq(|s|, i requires 0 <= i < |s| => s[i] as int % 256)
  }

  datatype Compression = NoCompression | RleCompression

  const HEADER_V1 := "aegishv-spool-v1 len-hex-jsonl\n"
  const HEADER_V2_RLE := "aegishv-spool-v2 " + "compression=rle record=hex-u64-uncompressed-hex-u64-payload\n"

  function Header(compression: Compression): seq<byte> {
    match compression
    case NoCompression => Ascii(HEADER_V1)
    case RleCompression => Ascii(HEADER_V2_RLE)
  }

  // --- Sixteen-digit hexadecimal fields ---

  lemma HeaderTexts()
    ensures Header(NoCompression) == Ascii("aegishv-spool-v1 len-hex-jsonl\n")
    ensures Header(RleCompression)
         == Ascii("aegishv-spool-v2 " + "compression=rle record=hex-u64-uncompressed-hex-u64-payload\n")
  {
  }

  function HexDigit(d: nat): byte
    requires d < 16
  {
    if d < 10 then 48 + d else 87 + d
  }

  /** The last `k` hexadecimal digits of `n`, most significant first. */
  function Hex(n: nat, k: nat): (s: seq<byte>)
    ensures |s| == k
  {
    if k == 0 then [] else Hex(n / 16, k - 1) + [HexDigit(n % 16)]
  }

  function DigitValue(c: byte): Option<nat> {
    if 48 <= c <= 57 then Some(c - 48)
    else if 97 <= c <= 102 then Some(c - 87)
    else if 65 <= c <= 70 then Some(c - 55)
    else None
  }

  function DigitsValue(s: seq<byte>): Option<nat> {
    if s == [] then Some(0)
    else
      var front := DigitsValue(s[..|s| - 1]);
      var last := DigitValue(s[|s| - 1]);
      if front.None? || last.None? then None else Some(16 * front.value + last.value)
  }

  /** `u64::from_str_radix(text, 16)`, which also takes a leading plus sign. */
  function FromHex(s: seq<byte>): Option<nat> {
    if |s| > 1 && s[0] == PLUS then DigitsValue(s[1..])
    else if s == [] then None
    else DigitsValue(s)
  }

  const DIGITS := "0123456789abcdef"
  const CAPITAL_DIGITS := "0123456789ABCDEF"

  /** Digits are written small, and read small or capital. */
  lemma DigitsExactly(d: nat, c: byte)
    requires d < 16
    ensures HexDigit(d) == DIGITS[d] as int
    ensures DigitValue(c) == Some(d) <==> c == DIGITS[d] as int || c == CAPITAL_DIGITS[d] as int
  {
  }

  /** The text without one leading plus sign, which is allowed in front of digits. */
  function WithoutSign(s: seq<byte>): seq<byte> {
    if |s| > 1 && s[0] == '+' as int then s[1..] else s
  }

  /** A number is read exactly from digits, at least one. */
  lemma ReadExactly(s: seq<byte>)
    ensures var digits := WithoutSign(s);
            && (FromHex(s).Some? <==> digits != [] && forall i :: 0 <= i < |digits| ==> DigitValue(digits[i]).Some?)
            && (FromHex(s).Some? ==> FromHex(s) == DigitsValue(digits))
  {
    SomeValue(WithoutSign(s));
  }

  lemma {:induction false} SomeValue(s: seq<byte>)
    ensures DigitsValue(s).Some? <==> forall i :: 0 <= i < |s| ==> DigitValue(s[i]).Some?
  {
    if s != [] {
      SomeValue(s[..|s| - 1]);
    }
  }

  /** Lines end, and fields are separated, as in text. */
  lemma Separators()
    ensures Ascii("\n") == [NEWLINE] && Ascii(" ") == [SPACE] && Ascii("+") == [PLUS]
  {
  }

  function Pow16(k: nat): nat {
    if k == 0 then 1 else 16 * Pow16(k - 1)
  }

  lemma {:induction false} HexValue(n: nat, k: nat)
    requires n < Pow16(k)
    ensures DigitsValue(Hex(n, k)) == Some(n)
    ensures forall i :: 0 <= i < k ==> Hex(n, k)[i] != PLUS
  {
    if k > 0 {
      HexValue(n / 16, k - 1);
      var s := Hex(n, k);
      assert s[..k - 1] == Hex(n / 16, k - 1);
      assert s[k - 1] == HexDigit(n % 16);
    }
  }

  lemma Pow16Sixteen()
    ensures Pow16(16) == TWO_64
  {
    assert Pow16(4) == 0x1_0000;
    assert Pow16(8) == 0x1_0000_0000;
    assert Pow16(12) == 0x1_0000_0000_0000;
  }

  function Field(n: nat): (s: seq<byte>)
    ensures |s| == 17
  {
    Hex(n, 16) + [SPACE]
  }

  /** `parse_spool_hex_field`: sixteen digits and a space. */
  function ParseField(bytes: seq<byte>): Option<(nat, seq<byte>)> {
    if |bytes| < 17 || bytes[16] != SPACE then None
    else
      var value := FromHex(bytes[..16]);
      if value.None? then None else Some((value.value, bytes[17..]))
  }

  lemma ParseFieldRoundTrip(n: nat, rest: seq<byte>)
    requires n < TWO_64
    ensures ParseField(Field(n) + rest) == Some((n, rest))
  {
    Pow16Sixteen();
    HexValue(n, 16);
    var bytes := Field(n) + rest;
    assert bytes[..16] == Hex(n, 16);
    assert bytes[17..] == rest;
  }

  // --- Records ---

  datatype Record = Plain(line: seq<byte>) | Compressed(uncompressedLen: nat, payload: seq<byte>)

  /** The bytes `write_to` emits. */
  function RecordBytes(r: Record): seq<byte> {
    match r
    case Plain(line) => Field(|line|) + line + [NEWLINE]
    case Compressed(len, payload) => Field(len) + Field(|payload|) + payload + [NEWLINE]
  }

  function SatAdd(x: nat, y: nat): nat {
    if x + y < TWO_64 then x + y else TWO_64 - 1
  }

  /** `total_bytes`, with its saturating additions. */
  function TotalBytes(r: Record): nat {
    match r
    case Plain(line) => SatAdd(SatAdd(17, |line|), 1)
    case Compressed(_, payload) => SatAdd(SatAdd(34, |payload|), 1)
  }

  /** The record stands for the line under this compression. */
  ghost predicate Holds(r: Record, line: seq<byte>, compression: Compression) {
    match r
    case Plain(l) => compression == NoCompression && l == line
    case Compressed(len, payload) =>
      compression == RleCompression && len == |line| && Expand(payload) == Some(line) && |payload| < TWO_64
  }

  /** Lines are byte strings below the size limit of the platform's strings. */
  predicate LineFits(line: seq<byte>) {
    |line| < 0x8000_0000_0000_0000
  }

  method BuildRecord(line: seq<byte>, compression: Compression) returns (r: Record)
    requires LineFits(line)
    ensures Holds(r, line, compression)
    ensures TotalBytes(r) == |RecordBytes(r)| < TWO_64
    ensures |RecordBytes(r)| <= |line| + |line| / 128 + 36
  {
    match compression
    case NoCompression => r := Plain(line);
    case RleCompression =>
      var payload, tokens := RleCompress(line);
      r := Compressed(|line|, payload);
  }

  // --- Segments ---

  datatype Decoded = Decoded(line: seq<byte>, compressed: bool, uncompressedLen: nat, payloadLen: nat)

  /** The payload of `len` bytes in front of a newline, and what follows it. */
  function Framed(body: seq<byte>, len: nat): Option<(seq<byte>, seq<byte>)> {
    if |body| < len + 1 || body[len] != NEWLINE then None
    else Some((body[..len], body[len + 1..]))
  }

  /** One plain record and the rest of the body. */
  function ParsePlain(body: seq<byte>, utf8: seq<byte> -> bool): (r: Option<(Decoded, seq<byte>)>)
    ensures r.Some? ==> |r.value.1| < |body|
  {
    var field := ParseField(body);
    if field.None? then None
    else
      var framed := Framed(field.value.1, field.value.0);
      if framed.None? || !utf8(framed.value.0) then None
      else Some((Decoded(framed.value.0, false, field.value.0, field.value.0), framed.value.1))
  }

  /** One compressed record and the rest of the body. */
  function ParseCompressed(body: seq<byte>, utf8: seq<byte> -> bool): (r: Option<(Decoded, seq<byte>)>)
    ensures r.Some? ==> |r.value.1| < |body|
  {
    var field := ParseField(body);
    if field.None? then None
    else
      var second := ParseField(field.value.1);
      if second.None? then None
      else
        var framed := Framed(second.value.1, second.value.0);
        if framed.None? then None
        else
          var line := Expand(framed.value.0);
          if line.None? || |line.value| != field.value.0 || !utf8(line.value) then None
          else Some((Decoded(line.value, true, field.value.0, second.value.0), framed.value.1))
  }

  function ParseRecord(body: seq<byte>, compression: Compression,
                       utf8: seq<byte> -> bool): (r: Option<(Decoded, seq<byte>)>)
    ensures r.Some? ==> |r.value.1| < |body|
  {
    match compression
    case NoCompression => ParsePlain(body, utf8)
    case RleCompression => ParseCompressed(body, utf8)
  }

  function ParseRecords(body: seq<byte>, compression: Compression, utf8: seq<byte> -> bool): Option<seq<Decoded>>
    decreases |body|
  {
    if body == [] then Some([])
    else
      var first := ParseRecord(body, compression, utf8);
      if first.None? then None
      else
        var rest := ParseRecords(first.value.1, compression, utf8);
        if rest.None? then None else Some([first.value.0] + rest.value)
  }

  function RecordsBytes(records: seq<Record>): seq<byte> {
    if records == [] then [] else RecordBytes(records[0]) + RecordsBytes(records[1..])
  }

  lemma FramedRoundTrip(payload: seq<byte>, rest: seq<byte>)
    ensures Framed(payload + [NEWLINE] + rest, |payload|) == Some((payload, rest))
  {
    var body := payload + [NEWLINE] + rest;
    assert body[..|payload|] == payload;
    assert body[|payload| + 1..] == rest;
  }

  /** A written record parses back to its line and to whatever follows it. */
  lemma RecordRoundTrip(r: Record, line: seq<byte>, compression: Compression, rest: seq<byte>, utf8: seq<byte> -> bool)
    requires Holds(r, line, compression) && LineFits(line) && utf8(line)
    ensures var p := ParseRecord(RecordBytes(r) + rest, compression, utf8);
            p.Some? && p.value.0.line == line && p.value.1 == rest
  {
    hide Field, ParseField, Framed, Expand;
    match r
    case Plain(_) =>
      var tail := line + [NEWLINE] + rest;
      assert RecordBytes(r) + rest == Field(|line|) + tail;
      ParseFieldRoundTrip(|line|, tail);
      FramedRoundTrip(line, rest);
    case Compressed(len, payload) =>
      var tail := payload + [NEWLINE] + rest;
      assert RecordBytes(r) + rest == Field(len) + (Field(|payload|) + tail);
      ParseFieldRoundTrip(len, Field(|payload|) + tail);
      ParseFieldRoundTrip(|payload|, tail);
      FramedRoundTrip(payload, rest);
  }

  /** Every line of a body parses back, in order. */
  lemma {:induction false} RecordsRoundTrip(records: seq<Record>, lines: seq<seq<byte>>, compression: Compression,
                                            utf8: seq<byte> -> bool)
    requires |records| == |lines|
    requires forall i :: 0 <= i < |lines| ==>
               Holds(records[i], lines[i], compression) && LineFits(lines[i]) && utf8(lines[i])
    ensures var p := ParseRecords(RecordsBytes(records), compression, utf8);
            p.Some? && |p.value| == |lines| && forall i :: 0 <= i < |lines| ==> p.value[i].line == lines[i]
  {
    hide RecordBytes, ParseRecord, Holds;
    if records != [] {
      var rest := RecordsBytes(records[1..]);
      RecordRoundTrip(records[0], lines[0], compression, rest, utf8);
      RecordNotEmpty(records[0]);
      RecordsRoundTrip(records[1..], lines[1..], compression, utf8);
      var p := ParseRecords(rest, compression, utf8);
      assert ParseRecords(RecordsBytes(records), compression, utf8).Some?;
    }
  }

  lemma RecordNotEmpty(r: Record)
    ensures |RecordBytes(r)| > 0
  {
  }

  datatype SegmentError = Unsupported | Corrupt
  datatype SegmentResult = Records(records: seq<Decoded>) | Failed(error: SegmentError)

  /** `decode_spool_segment_bytes`. */
  function ParseSegment(bytes: seq<byte>, utf8: seq<byte> -> bool): SegmentResult {
    var v1, v2 := Header(NoCompression), Header(RleCompression);
    if v1 <= bytes then AsResult(ParseRecords(bytes[|v1|..], NoCompression, utf8))
    else if v2 <= bytes then AsResult(ParseRecords(bytes[|v2|..], RleCompression, utf8))
    else Failed(Unsupported)
  }

  function AsResult(p: Option<seq<Decoded>>): SegmentResult {
    if p.None? then Failed(Corrupt) else Records(p.value)
  }

  lemma HeadersDiffer(rest: seq<byte>)
    ensures !(Header(NoCompression) <= Header(RleCompression) + rest)
  {
    assert HEADER_V1[15] == '1' && HEADER_V2_RLE[15] == '2';
    assert Header(NoCompression)[15] == '1' as int;
    assert (Header(RleCompression) + rest)[15] == Header(RleCompression)[15] == '2' as int;
  }

  /** A segment decodes to exactly the lines written to it, in both formats. */
  lemma SegmentRoundTrip(records: seq<Record>, lines: seq<seq<byte>>, compression: Compression, utf8: seq<byte> -> bool)
    requires |records| == |lines|
    requires forall i :: 0 <= i < |lines| ==>
               Holds(records[i], lines[i], compression) && LineFits(lines[i]) && utf8(lines[i])
    ensures var p := ParseSegment(Header(compression) + RecordsBytes(records), utf8);
            p.Records? && |p.records| == |lines| && forall i :: 0 <= i < |lines| ==> p.records[i].line == lines[i]
  {
    hide Header, ParseRecords, RecordsBytes, Holds;
    var bytes := Header(compression) + RecordsBytes(records);
    assert bytes[|Header(compression)|..] == RecordsBytes(records);
    assert Header(compression) <= bytes;
    HeadersDiffer(RecordsBytes(records));
    RecordsRoundTrip(records, lines, compression, utf8);
  }

  function Extend(records: seq<Decoded>, rest: Option<seq<Decoded>>): Option<seq<Decoded>> {
    if rest.None? then None else Some(records + rest.value)
  }

  lemma ExtendJoin(records: seq<Decoded>, more: seq<Decoded>, rest: Option<seq<Decoded>>)
    ensures Extend(records, Extend(more, rest)) == Extend(records + more, rest)
    ensures Extend([], rest) == rest
    ensures Extend(records, Some([])) == Some(records)
  {
    assert records + [] == records;
    if rest.Some? {
      assert records + (more + rest.value) == (records + more) + rest.value;
      assert [] + rest.value == rest.value;
    }
  }

  /** The decoding loop of the plain and of the compressed reader. */
  method DecodeRecords(start: seq<byte>, compression: Compression,
                       utf8: seq<byte> -> bool) returns (r: Option<seq<Decoded>>)
    ensures r == ParseRecords(start, compression, utf8)
  {
    hide ParsePlain, ParseCompressed, Extend;
    var body := start;
    var records := [];
    ExtendJoin([], [], ParseRecords(start, compression, utf8));
    while body != []
      invariant ParseRecords(start, compression, utf8) == Extend(records, ParseRecords(body, compression, utf8))
      decreases |body|
    {
      var next;
      match compression {
        case NoCompression => next := DecodePlain(body, utf8);
        case RleCompression => next := DecodeCompressed(body, utf8);
      }
      ParseStep(body, compression, utf8);
      if next.None? {
        ExtendNone(records);
        return None;
      }
      ExtendJoin(records, [next.value.0], ParseRecords(next.value.1, compression, utf8));
      records := records + [next.value.0];
      body := next.value.1;
    }
    ExtendJoin(records, [], None);
    r := Some(records);
  }

  lemma ExtendNone(records: seq<Decoded>)
    ensures Extend(records, None) == None
  {
  }

  lemma ParseStep(body: seq<byte>, compression: Compression, utf8: seq<byte> -> bool)
    requires body != []
    ensures ParseRecords(body, compression, utf8)
         == var first := ParseRecord(body, compression, utf8);
            if first.None? then None else Extend([first.value.0], ParseRecords(first.value.1, compression, utf8))
  {
  }

  method DecodePlain(body: seq<byte>, utf8: seq<byte> -> bool) returns (r: Option<(Decoded, seq<byte>)>)
    ensures r == ParsePlain(body, utf8)
  {
    var field := ParseField(body);
    if field.None? { return None; }
    var (len, rest) := field.value;
    if |rest| < len + 1 { return None; }
    var payload := rest[..len];
    if rest[len] != NEWLINE { return None; }
    if !utf8(payload) { return None; }
    r := Some((Decoded(payload, false, len, len), rest[len + 1..]));
  }

  method DecodeCompressed(body: seq<byte>, utf8: seq<byte> -> bool) returns (r: Option<(Decoded, seq<byte>)>)
    ensures r == ParseCompressed(body, utf8)
  {
    var field := ParseField(body);
    if field.None? { return None; }
    var second := ParseField(field.value.1);
    if second.None? { return None; }
    var uncompressedLen := field.value.0;
    var (payloadLen, rest) := second.value;
    if |rest| < payloadLen + 1 { return None; }
    var payload := rest[..payloadLen];
    if rest[payloadLen] != NEWLINE { return None; }
    var line := RleDecompress(payload, uncompressedLen);
    if line.None? || !utf8(line.value) { return None; }
    r := Some((Decoded(line.value, true, uncompressedLen, payloadLen), rest[payloadLen + 1..]));
  }

  method DecodeSegment(bytes: seq<byte>, utf8: seq<byte> -> bool) returns (r: SegmentResult)
    ensures r == ParseSegment(bytes, utf8)
  {
    hide ParseRecords;
    var v1, v2 := Header(NoCompression), Header(RleCompression);
    if v1 <= bytes {
      var records := DecodeRecords(bytes[|v1|..], NoCompression, utf8);
      return AsResult(records);
    } else if v2 <= bytes {
      var records := DecodeRecords(bytes[|v2|..], RleCompression, utf8);
      return AsResult(records);
    }
    r := Failed(Unsupported);
  }

  // --- The grammar the reader accepts ---

  /** A framed payload: its length, in a compressed segment after the length it expands to. */
  datatype Frame = Frame(first: seq<byte>, second: seq<byte>, payload: seq<byte>)

  ghost predicate IsLength(text: seq<byte>, n: nat) {
    |text| == 16 && FromHex(text) == Some(n)
  }

  function FrameBytes(f: Frame, compression: Compression): seq<byte> {
    match compression
    case NoCompression => f.first + [SPACE] + (f.payload + [NEWLINE])
    case RleCompression => f.first + [SPACE] + (f.second + [SPACE] + (f.payload + [NEWLINE]))
  }

  /** The frame is well formed, and stands for this record. */
  ghost predicate StandsFor(f: Frame, compression: Compression, utf8: seq<byte> -> bool, d: Decoded) {
    match compression
    case NoCompression =>
      IsLength(f.first, |f.payload|) && utf8(f.payload) && d == Decoded(f.payload, false, |f.payload|, |f.payload|)
    case RleCompression =>
      && IsLength(f.first, |d.line|) && IsLength(f.second, |f.payload|) && Expand(f.payload) == Some(d.line)
            && utf8(d.line)
      && d == Decoded(d.line, true, |d.line|, |f.payload|)
  }

  lemma FieldText(text: seq<byte>, tail: seq<byte>)
    requires |text| == 16
    ensures ParseField(text + [SPACE] + tail) == if FromHex(text).None? then None else Some((FromHex(text).value, tail))
  {
    hide FromHex;
    var bytes := text + [SPACE] + tail;
    assert bytes[..16] == text && bytes[17..] == tail;
  }

  lemma FieldSplits(bytes: seq<byte>)
    requires ParseField(bytes).Some?
    ensures IsLength(bytes[..16], ParseField(bytes).value.0)
            && bytes == bytes[..16] + [SPACE] + ParseField(bytes).value.1
  {
    hide FromHex;
  }

  lemma FramedSplits(body: seq<byte>, len: nat)
    requires Framed(body, len).Some?
    ensures |Framed(body, len).value.0| == len
            && body == Framed(body, len).value.0 + [NEWLINE] + Framed(body, len).value.1
  {
  }

  /** A frame in front of anything is read as its record, leaving the rest. */
  lemma FrameIsRead(f: Frame, compression: Compression, utf8: seq<byte> -> bool, d: Decoded, rest: seq<byte>)
    requires StandsFor(f, compression, utf8, d)
    ensures ParseRecord(FrameBytes(f, compression) + rest, compression, utf8) == Some((d, rest))
  {
    hide ParseField, Framed, FromHex, Expand;
    var tail := f.payload + [NEWLINE] + rest;
    FramedRoundTrip(f.payload, rest);
    match compression
    case NoCompression =>
      FieldText(f.first, tail);
      assert FrameBytes(f, compression) + rest == f.first + [SPACE] + tail;
    case RleCompression =>
      FieldText(f.second, tail);
      FieldText(f.first, f.second + [SPACE] + tail);
      assert FrameBytes(f, compression) + rest == f.first + [SPACE] + (f.second + [SPACE] + tail);
  }

  /** What is read is a frame. */
  lemma ReadIsFrame(body: seq<byte>, compression: Compression, utf8: seq<byte> -> bool) returns (f: Frame)
    requires ParseRecord(body, compression, utf8).Some?
    ensures var p := ParseRecord(body, compression, utf8).value;
            StandsFor(f, compression, utf8, p.0) && body == FrameBytes(f, compression) + p.1
  {
    hide ParseField, Framed, FromHex, Expand;
    FieldSplits(body);
    var field := ParseField(body).value;
    match compression
    case NoCompression =>
      FramedSplits(field.1, field.0);
      var framed := Framed(field.1, field.0).value;
      f := Frame(body[..16], [], framed.0);
      assert body == f.first + [SPACE] + (f.payload + [NEWLINE]) + framed.1;
    case RleCompression =>
      FieldSplits(field.1);
      var second := ParseField(field.1).value;
      FramedSplits(second.1, second.0);
      var framed := Framed(second.1, second.0).value;
      f := Frame(body[..16], field.1[..16], framed.0);
      assert body == f.first + [SPACE] + (f.second + [SPACE] + (f.payload + [NEWLINE])) + framed.1;
  }

  function FramesBytes(frames: seq<Frame>, compression: Compression): seq<byte> {
    if frames == [] then [] else FrameBytes(frames[0], compression) + FramesBytes(frames[1..], compression)
  }

  ghost predicate AllStandFor(frames: seq<Frame>, compression: Compression, utf8: seq<byte> -> bool,
                              records: seq<Decoded>) {
    |frames| == |records| && forall i :: 0 <= i < |frames| ==> StandsFor(frames[i], compression, utf8, records[i])
  }

  lemma {:induction false} FramesAreRead(frames: seq<Frame>, compression: Compression, utf8: seq<byte> -> bool,
                                         records: seq<Decoded>)
    requires AllStandFor(frames, compression, utf8, records)
    ensures ParseRecords(FramesBytes(frames, compression), compression, utf8) == Some(records)
  {
    hide StandsFor, ParseRecord;
    if frames != [] {
      var rest := FramesBytes(frames[1..], compression);
      FrameIsRead(frames[0], compression, utf8, records[0], rest);
      FramesAreRead(frames[1..], compression, utf8, records[1..]);
      assert [records[0]] + records[1..] == records;
      assert |FrameBytes(frames[0], compression)| > 0;
    }
  }

  lemma {:induction false} ReadIsFrames(body: seq<byte>, compression: Compression,
                                        utf8: seq<byte> -> bool) returns (frames: seq<Frame>)
    requires ParseRecords(body, compression, utf8).Some?
    ensures AllStandFor(frames, compression, utf8, ParseRecords(body, compression, utf8).value)
            && body == FramesBytes(frames, compression)
    decreases |body|
  {
    hide StandsFor, FrameBytes, ParsePlain, ParseCompressed;
    frames := [];
    if body != [] {
      var f := ReadIsFrame(body, compression, utf8);
      var first := ParseRecord(body, compression, utf8).value;
      var more := ReadIsFrames(first.1, compression, utf8);
      frames := [f] + more;
      assert frames[1..] == more;
    }
  }

  /** A segment of well-formed frames. */
  ghost predicate IsSegment(bytes: seq<byte>, c: Compression, frames: seq<Frame>, utf8: seq<byte> -> bool,
                            records: seq<Decoded>) {
    bytes == Header(c) + FramesBytes(frames, c) && AllStandFor(frames, c, utf8, records)
  }

  lemma SegmentIsRead(bytes: seq<byte>, c: Compression, frames: seq<Frame>, utf8: seq<byte> -> bool,
                      records: seq<Decoded>)
    requires IsSegment(bytes, c, frames, utf8, records)
    ensures ParseSegment(bytes, utf8) == Records(records)
  {
    hide Header, ParseRecords, FramesBytes, AllStandFor;
    HeadersDiffer(FramesBytes(frames, c));
    FramesAreRead(frames, c, utf8, records);
    assert bytes[|Header(c)|..] == FramesBytes(frames, c) && Header(c) <= bytes;
    assert c == RleCompression ==> !(Header(NoCompression) <= bytes);
  }

  lemma ReadIsSegment(bytes: seq<byte>, utf8: seq<byte> -> bool) returns (c: Compression, frames: seq<Frame>)
    requires ParseSegment(bytes, utf8).Records?
    ensures IsSegment(bytes, c, frames, utf8, ParseSegment(bytes, utf8).records)
  {
    hide Header, ParseRecords, FramesBytes, AllStandFor;
    c := if Header(NoCompression) <= bytes then NoCompression else RleCompression;
    frames := ReadIsFrames(bytes[|Header(c)|..], c, utf8);
  }

  /** The reader accepts exactly a header followed by well-formed frames, and returns what they stand for. */
  lemma SegmentGrammar(bytes: seq<byte>, utf8: seq<byte> -> bool, records: seq<Decoded>)
    ensures ParseSegment(bytes, utf8) == Records(records) <==>
              exists c, frames :: IsSegment(bytes, c, frames, utf8, records)
  {
    hide ParseSegment, IsSegment;
    if ParseSegment(bytes, utf8) == Records(records) {
      var c, frames := ReadIsSegment(bytes, utf8);
    }
    if c, frames :| IsSegment(bytes, c, frames, utf8, records) {
      SegmentIsRead(bytes, c, frames, utf8, records);
    }
  }
}
