/** Run-length coding of spool records. */
module Rle {
  import opened Machine

  /** One control byte and what follows it. */
  datatype Token = Run(value: byte, count: nat) | Literal(bytes: seq<byte>)

  predicate Encodable(t: Token) {
    match t
    case Run(_, count) => 3 <= count <= 130
    case Literal(bytes) => 1 <= |bytes| <= 128
  }

  function Repeat(value: byte, count: nat): (s: seq<byte>)
    ensures |s| == count
  {
    seq(count, _ => value)
  }

  function TokenText(t: Token): seq<byte> {
    match t
    case Run(value, count) => Repeat(value, count)
    case Literal(bytes) => bytes
  }

  function TokenCode(t: Token): seq<byte>
    requires Encodable(t)
  {
    match t
    case Run(value, count) => [0x80 + (count - 3), value]
    case Literal(bytes) => [|bytes| - 1] + bytes
  }

  predicate AllEncodable(tokens: seq<Token>) {
    forall i :: 0 <= i < |tokens| ==> Encodable(tokens[i])
  }

  function Text(tokens: seq<Token>): seq<byte> {
    if tokens == [] then [] else TokenText(tokens[0]) + Text(tokens[1..])
  }

  function Code(tokens: seq<Token>): seq<byte>
    requires AllEncodable(tokens)
  {
    if tokens == [] then [] else TokenCode(tokens[0]) + Code(tokens[1..])
  }

  /** What a payload stands for; a truncated token stands for nothing. */
  function Expand(payload: seq<byte>): Option<seq<byte>>
    decreases |payload|
  {
    if payload == [] then Some([])
    else if payload[0] < 0x80 then
      var len := payload[0] + 1;
      if |payload| - 1 < len then None else Prepend(payload[1..1 + len], Expand(payload[1 + len..]))
    else if |payload| < 2 then None
    else Prepend(Repeat(payload[1], payload[0] - 0x80 + 3), Expand(payload[2..]))
  }

  /** A control byte from 0x80 on repeats the next byte 3 to 130 times, a smaller one announces 1 to 128 literals. */
  lemma FormatExactly(payload: seq<byte>)
    requires payload != []
    ensures payload[0] >= 0x80 && |payload| >= 2 ==>
              Expand(payload) == Prepend(seq(payload[0] - 125, _ => payload[1]), Expand(payload[2..]))
    ensures payload[0] >= 0x80 && |payload| < 2 ==> Expand(payload) == None
    ensures payload[0] < 0x80 && |payload| >= payload[0] + 2 ==>
              Expand(payload) == Prepend(payload[1..payload[0] + 2], Expand(payload[payload[0] + 2..]))
    ensures payload[0] < 0x80 && |payload| < payload[0] + 2 ==> Expand(payload) == None
  {
  }

  function Prepend(front: seq<byte>, rest: Option<seq<byte>>): Option<seq<byte>> {
    if rest.None? then None else Some(front + rest.value)
  }

  /** Decoding inverts encoding, whatever the tokens. */
  lemma {:induction false} ExpandCode(tokens: seq<Token>)
    requires AllEncodable(tokens)
    ensures Expand(Code(tokens)) == Some(Text(tokens))
  {
    if tokens != [] {
      var t, rest := tokens[0], tokens[1..];
      ExpandCode(rest);
      ExpandToken(t, Code(rest));
    }
  }

  lemma ExpandToken(t: Token, rest: seq<byte>)
    requires Encodable(t)
    ensures Expand(TokenCode(t) + rest) == Prepend(TokenText(t), Expand(rest))
  {
    var payload := TokenCode(t) + rest;
    match t
    case Run(value, count) =>
      assert payload[2..] == rest;
    case Literal(bytes) =>
      assert payload[1..1 + |bytes|] == bytes;
      assert payload[1 + |bytes|..] == rest;
  }

  // --- What the compressor's tokens look like ---

  predicate NoFourEqual(bytes: seq<byte>) {
    forall i :: 0 <= i && i + 3 < |bytes| ==> !(bytes[i] == bytes[i + 1] == bytes[i + 2] == bytes[i + 3])
  }

  /** Runs are worth their two bytes, literals hold no such run, and a literal that is
      not full is followed by a run or by nothing. */
  predicate Greedy(tokens: seq<Token>) {
    && (forall i :: 0 <= i < |tokens| ==> Encodable(tokens[i]))
    && (forall i :: 0 <= i < |tokens| && tokens[i].Run? ==> tokens[i].count >= 4)
    && (forall i :: 0 <= i < |tokens| && tokens[i].Literal? ==> NoFourEqual(tokens[i].bytes))
    && (forall i :: 0 <= i < |tokens| - 1 && tokens[i].Literal? ==> |tokens[i].bytes| == 128 || tokens[i + 1].Run?)
  }

  /** Greedy tokens cost at most one byte per full literal and one more. */
  lemma {:induction false} GreedyCost(tokens: seq<Token>)
    requires Greedy(tokens)
    ensures 128 * |Code(tokens)| <= 129 * |Text(tokens)| + 128
    ensures tokens != [] && tokens[0].Run? ==> 128 * |Code(tokens)| <= 129 * |Text(tokens)| - 128
  {
    if tokens != [] {
      var rest := tokens[1..];
      assert forall i :: 0 <= i < |rest| ==> rest[i] == tokens[i + 1];
      GreedyCost(rest);
      if rest != [] && tokens[0].Literal? {
        assert |tokens[0].bytes| == 128 || rest[0].Run?;
      }
    }
  }

  lemma {:induction false} TextAppend(tokens: seq<Token>, t: Token)
    ensures Text(tokens + [t]) == Text(tokens) + TokenText(t)
  {
    if tokens != [] {
      assert (tokens + [t])[1..] == tokens[1..] + [t];
      TextAppend(tokens[1..], t);
    } else {
      assert (tokens + [t])[1..] == [];
    }
  }

  lemma {:induction false} CodeAppend(tokens: seq<Token>, t: Token)
    requires AllEncodable(tokens + [t]) && AllEncodable(tokens) && Encodable(t)
    ensures Code(tokens + [t]) == Code(tokens) + TokenCode(t)
  {
    if tokens != [] {
      assert (tokens + [t])[1..] == tokens[1..] + [t];
      CodeAppend(tokens[1..], t);
    } else {
      assert (tokens + [t])[1..] == [];
    }
  }

  // --- The codec ---

  /** Four equal bytes start at `pos`. */
  predicate RunAt(input: seq<byte>, pos: nat) {
    pos + 3 < |input| && input[pos] == input[pos + 1] == input[pos + 2] == input[pos + 3]
  }

  method RepeatedRunLen(input: seq<byte>, start: nat, maxLen: nat) returns (len: nat)
    requires start < |input| && maxLen >= 1
    ensures 1 <= len <= maxLen && start + len <= |input|
    ensures forall i :: start <= i < start + len ==> input[i] == input[start]
    ensures len < maxLen && start + len < |input| ==> input[start + len] != input[start]
    ensures maxLen >= 4 ==> (len >= 4 <==> RunAt(input, start))
  {
    len := 1;
    while start + len < |input| && len < maxLen && input[start + len] == input[start]
      invariant 1 <= len <= maxLen && start + len <= |input|
      invariant forall i :: start <= i < start + len ==> input[i] == input[start]
    {
      len := len + 1;
    }
  }

  /** How far the literal starting at `start` reaches. */
  method LiteralLen(input: seq<byte>, start: nat) returns (len: nat)
    requires start < |input|
    requires !RunAt(input, start)
    ensures 1 <= len <= 128 && start + len <= |input|
    ensures NoFourEqual(input[start..start + len])
    ensures len == 128 || start + len == |input| || RunAt(input, start + len)
  {
    var pos := start;
    len := 0;
    while pos < |input| && len < 128
      invariant pos == start + len && len <= 128 && pos <= |input|
      invariant NoFourEqual(input[start..pos])
      invariant len < 128 && start < pos < |input| ==> input[pos] != input[pos - 1]
      invariant len == 0 ==> pos == start
    {
      var runLen := RepeatedRunLen(input, pos, 130);
      if runLen >= 4 {
        break;
      }
      var take := if runLen < 128 - len then runLen else 128 - len;
      ghost var before := pos;
      pos := pos + take;
      len := len + take;
      assert NoFourEqual(input[start..pos]) by {
        LiteralGrows(input, start, before, pos);
      }
      if take < runLen {
        break;
      }
    }
  }

  lemma LiteralGrows(input: seq<byte>, start: nat, before: nat, pos: nat)
    requires start <= before < pos <= |input| && pos < before + 4
    requires NoFourEqual(input[start..before])
    requires start < before ==> input[before] != input[before - 1]
    requires forall i :: before <= i < pos ==> input[i] == input[before]
    ensures NoFourEqual(input[start..pos])
  {
    var lit := input[start..pos];
    forall i | 0 <= i && i + 3 < |lit|
      ensures !(lit[i] == lit[i + 1] == lit[i + 2] == lit[i + 3])
    {
      if start + i + 3 < before {
        var old_ := input[start..before];
        assert old_[i] == lit[i] && old_[i + 1] == lit[i + 1] && old_[i + 2] == lit[i + 2] && old_[i + 3] == lit[i + 3];
      } else {
        assert start + i < before;
        var k := before - start;
        assert lit[k] == input[before] && lit[k - 1] == input[before - 1];
      }
    }
  }

  predicate RunOrEnd(input: seq<byte>, pos: nat) {
    pos == |input| || RunAt(input, pos)
  }

  /** A literal that could still grow: what follows must be a run. */
  predicate EndsShort(tokens: seq<Token>) {
    tokens != [] && tokens[|tokens| - 1].Literal? && |tokens[|tokens| - 1].bytes| < 128
  }

  /** `out` is the code of greedy tokens that spell `text`. */
  ghost predicate Encodes(out: seq<byte>, tokens: seq<Token>, text: seq<byte>) {
    Greedy(tokens) && Text(tokens) == text && out == Code(tokens)
  }

  lemma EncodesNothing()
    ensures Encodes([], [], []) && !EndsShort([])
  {
  }

  lemma EncodesAppend(out: seq<byte>, tokens: seq<Token>, text: seq<byte>, t: Token)
    requires Encodes(out, tokens, text) && Encodable(t)
    requires t.Run? ==> t.count >= 4
    requires t.Literal? ==> NoFourEqual(t.bytes) && !EndsShort(tokens)
    ensures Encodes(out + TokenCode(t), tokens + [t], text + TokenText(t))
    ensures EndsShort(tokens + [t]) <==> EndsShort([t])
  {
    hide NoFourEqual, Text, Code, TokenText, TokenCode;
    var all := tokens + [t];
    assert forall i :: 0 <= i < |tokens| ==> all[i] == tokens[i];
    assert all[|tokens|] == t;
    TextAppend(tokens, t);
    CodeAppend(tokens, t);
  }

  /** The token at `pos`, and its code. */
  method NextToken(input: seq<byte>, pos: nat) returns (code: seq<byte>, next: nat, ghost token: Token)
    requires pos < |input|
    ensures Encodable(token) && code == TokenCode(token)
    ensures pos < next <= |input| && TokenText(token) == input[pos..next]
    ensures token.Run? ==> token.count >= 4
    ensures token.Literal? ==> NoFourEqual(token.bytes) && !RunOrEnd(input, pos)
    ensures EndsShort([token]) ==> RunOrEnd(input, next)
  {
    hide NoFourEqual, RunAt;
    var runLen := RepeatedRunLen(input, pos, 130);
    if runLen >= 4 {
      token := Run(input[pos], runLen);
      code := [0x80 + (runLen - 3), input[pos]];
      next := pos + runLen;
      assert TokenText(token) == input[pos..next];
    } else {
      var literalLen := LiteralLen(input, pos);
      token := Literal(input[pos..pos + literalLen]);
      code := [literalLen - 1] + input[pos..pos + literalLen];
      next := pos + literalLen;
    }
  }

  /** Compression: the code of greedy tokens whose text is the input. */
  method RleCompress(input: seq<byte>) returns (out: seq<byte>, ghost tokens: seq<Token>)
    ensures Encodes(out, tokens, input)
    ensures Expand(out) == Some(input)
    ensures |out| <= |input| + |input| / 128 + 1
  {
    hide Encodes, NoFourEqual, TokenText, TokenCode, Encodable, RunOrEnd, EndsShort, Expand, Greedy;
    out, tokens := [], [];
    var pos := 0;
    assert input[..pos] == [];
    EncodesNothing();
    while pos < |input|
      invariant pos <= |input|
      invariant Encodes(out, tokens, input[..pos])
      invariant EndsShort(tokens) ==> RunOrEnd(input, pos)
    {
      var code, next, token := NextToken(input, pos);
      EncodesAppend(out, tokens, input[..pos], token);
      assert input[..next] == input[..pos] + input[pos..next];
      tokens := tokens + [token];
      out := out + code;
      pos := next;
    }
    assert input[..pos] == input;
    EncodesMeaning(out, tokens, input);
  }

  lemma EncodesMeaning(out: seq<byte>, tokens: seq<Token>, text: seq<byte>)
    requires Encodes(out, tokens, text)
    ensures Expand(out) == Some(text)
    ensures |out| <= |text| + |text| / 128 + 1
  {
    ExpandCode(tokens);
    GreedyCost(tokens);
  }

  lemma PrependJoin(a: seq<byte>, b: seq<byte>, rest: Option<seq<byte>>)
    ensures Prepend(a, Prepend(b, rest)) == Prepend(a + b, rest)
    ensures Prepend([], rest) == rest && Prepend(a, None) == None && Prepend(a, Some([])) == Some(a)
    ensures Prepend(a, rest).Some? ==> |Prepend(a, rest).value| >= |a|
  {
    assert a + [] == a;
    if rest.Some? {
      assert a + (b + rest.value) == (a + b) + rest.value;
      assert [] + rest.value == rest.value;
    }
  }

  /** What the control byte at a place stands for. */
  lemma ExpandAt(payload: seq<byte>, pos: nat)
    requires pos < |payload|
    ensures var c, here := payload[pos], Expand(payload[pos..]);
            if c < 0x80
            then here == if |payload| - pos - 1 < c + 1 then None
                  else Prepend(payload[pos + 1..pos + 2 + c], Expand(payload[pos + 2 + c..]))
            else here == if pos + 1 >= |payload| then None
                  else Prepend(Repeat(payload[pos + 1], c - 0x80 + 3), Expand(payload[pos + 2..]))
  {
    hide Repeat, Prepend;
    var rest, c := payload[pos..], payload[pos];
    if c < 0x80 {
      if |payload| - pos - 1 >= c + 1 {
        assert rest[1..2 + c] == payload[pos + 1..pos + 2 + c] && rest[2 + c..] == payload[pos + 2 + c..];
      }
    } else if pos + 1 < |payload| {
      assert rest[2..] == payload[pos + 2..];
    }
  }

  /** The bytes the control byte at a place stands for, and where the next one is. */
  method NextPiece(payload: seq<byte>, start: nat) returns (ok: bool, piece: seq<byte>, pos: nat)
    requires start < |payload|
    ensures !ok ==> Expand(payload[start..]) == None
    ensures ok ==> start < pos <= |payload| && Expand(payload[start..]) == Prepend(piece, Expand(payload[pos..]))
  {
    hide Expand, Prepend, Repeat;
    ExpandAt(payload, start);
    var control := payload[start];
    pos, piece := start + 1, [];
    if control < 0x80 {
      var len := control + 1;
      if |payload| - pos < len { return false, piece, pos; }
      piece := payload[pos..pos + len];
      pos := pos + len;
    } else {
      var len := control - 0x80 + 3;
      if pos >= |payload| { return false, piece, pos; }
      piece := Repeat(payload[pos], len);
      pos := pos + 1;
    }
    ok := true;
  }

  /** Decompression succeeds exactly on a payload that stands for `expectedLen` bytes. */
  method RleDecompress(payload: seq<byte>, expectedLen: nat) returns (r: Option<seq<byte>>)
    ensures r == if Expand(payload).Some? && |Expand(payload).value| == expectedLen then Expand(payload) else None
  {
    var out, pos := [], 0;
    assert payload[0..] == payload && payload[|payload|..] == [] && Expand([]) == Some([]);
    hide Expand, Prepend;
    PrependJoin([], [], Expand(payload));
    while pos < |payload|
      invariant pos <= |payload| && |out| <= expectedLen
      invariant Expand(payload) == Prepend(out, Expand(payload[pos..]))
    {
      var ok, piece, next := NextPiece(payload, pos);
      PrependJoin(out, piece, if ok then Expand(payload[next..]) else None);
      if !ok { return None; }
      out, pos := out + piece, next;
      PrependJoin(out, [], Expand(payload[pos..]));
      if |out| > expectedLen { return None; }
    }
    PrependJoin(out, [], None);
    r := if |out| != expectedLen then None else Some(out);
  }
}
