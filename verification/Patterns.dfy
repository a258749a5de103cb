/** Configuration patterns: literal parts separated by `.*`, optionally anchored, in alternatives. */
module Patterns {

  /** One alternative, with its text cut at every `.*`; a piece is empty where two `.*`, or a `.*` and an end, meet. */
  datatype AltText = AltText(anchorStart: bool, anchorEnd: bool, pieces: seq<string>)

  /** A compiled alternative: the pieces that are not empty. */
  datatype Alt = Alt(anchorStart: bool, anchorEnd: bool, parts: seq<string>)

  // --- What a list of parts means ---

  predicate At(hay: string, p: nat, part: string) {
    p + |part| <= |hay| && hay[p..p + |part|] == part
  }

  /**
   * The parts occur in `hay` from `pos` on, in order and without overlap: the first right at `pos` if `here`, the last
   * up to the end of `hay` if `toEnd`.
   */
  predicate Occur(parts: seq<string>, hay: string, pos: nat, here: bool, toEnd: bool) {
    if parts == [] then pos <= |hay| && (toEnd ==> pos == |hay|)
    else exists p :: pos <= p <= |hay| && (here ==> p == pos) && At(hay, p, parts[0])
                     && Occur(parts[1..], hay, p + |parts[0]|, false, toEnd)
  }

  predicate Matches(alt: Alt, hay: string) {
    Occur(alt.parts, hay, 0, alt.anchorStart, alt.anchorEnd)
  }

  predicate MatchesText(alt: AltText, hay: string) {
    Occur(alt.pieces, hay, 0, alt.anchorStart, alt.anchorEnd)
  }

  lemma Place(parts: seq<string>, hay: string, pos: nat, here: bool, toEnd: bool, p: nat)
    requires parts != [] && pos <= p && (here ==> p == pos) && At(hay, p, parts[0])
    requires Occur(parts[1..], hay, p + |parts[0]|, false, toEnd)
    ensures Occur(parts, hay, pos, here, toEnd)
  {
  }

  lemma Placed(parts: seq<string>, hay: string, pos: nat, here: bool, toEnd: bool) returns (p: nat)
    requires parts != [] && Occur(parts, hay, pos, here, toEnd)
    ensures pos <= p && (here ==> p == pos) && At(hay, p, parts[0])
            && Occur(parts[1..], hay, p + |parts[0]|, false, toEnd)
  {
    p :| pos <= p <= |hay| && (here ==> p == pos) && At(hay, p, parts[0])
          && Occur(parts[1..], hay, p + |parts[0]|, false, toEnd);
  }

  /** Starting earlier can only help, unless nothing is left and the end must be here. */
  lemma Earlier(parts: seq<string>, hay: string, pos: nat, from: nat, toEnd: bool)
    requires Occur(parts, hay, from, false, toEnd) && pos <= from && (parts != [] || !toEnd)
    ensures Occur(parts, hay, pos, false, toEnd)
  {
    if parts != [] {
      var p := Placed(parts, hay, from, false, toEnd);
      Place(parts, hay, pos, false, toEnd, p);
    }
  }

  // --- The matcher ---

  /** The first place at or after `pos` where `part` occurs. */
  method Find(hay: string, pos: nat, part: string) returns (found: bool, p: nat)
    requires pos <= |hay|
    ensures found ==> pos <= p && At(hay, p, part) && forall q :: pos <= q < p ==> !At(hay, q, part)
    ensures !found ==> forall q :: pos <= q ==> !At(hay, q, part)
  {
    p := pos;
    while p + |part| <= |hay|
      invariant pos <= p
      invariant forall q :: pos <= q < p ==> !At(hay, q, part)
    {
      if hay[p..p + |part|] == part { return true, p; }
      p := p + 1;
    }
    found := false;
  }

  /** Taking the leftmost place for a part loses nothing. */
  lemma Leftmost(parts: seq<string>, hay: string, pos: nat, toEnd: bool, p: nat)
    requires parts != [] && (|parts| > 1 || !toEnd)
    requires pos <= p && At(hay, p, parts[0]) && forall q :: pos <= q < p ==> !At(hay, q, parts[0])
    ensures Occur(parts, hay, pos, false, toEnd) <==> Occur(parts[1..], hay, p + |parts[0]|, false, toEnd)
  {
    if Occur(parts, hay, pos, false, toEnd) {
      var q := Placed(parts, hay, pos, false, toEnd);
      Earlier(parts[1..], hay, p + |parts[0]|, q + |parts[0]|, toEnd);
    }
    if Occur(parts[1..], hay, p + |parts[0]|, false, toEnd) {
      Place(parts, hay, pos, false, toEnd, p);
    }
  }

  lemma Nowhere(parts: seq<string>, hay: string, pos: nat, toEnd: bool)
    requires parts != [] && forall q :: pos <= q ==> !At(hay, q, parts[0])
    ensures !Occur(parts, hay, pos, false, toEnd)
  {
  }

  lemma FirstHere(parts: seq<string>, hay: string, pos: nat, toEnd: bool)
    requires parts != []
    ensures Occur(parts, hay, pos, true, toEnd) <==>
            At(hay, pos, parts[0]) && Occur(parts[1..], hay, pos + |parts[0]|, false, toEnd)
  {
    if Occur(parts, hay, pos, true, toEnd) {
      var p := Placed(parts, hay, pos, true, toEnd);
    }
    if At(hay, pos, parts[0]) && Occur(parts[1..], hay, pos + |parts[0]|, false, toEnd) {
      Place(parts, hay, pos, true, toEnd, pos);
    }
  }

  predicate EndsWith(hay: string, part: string) {
    |part| <= |hay| && At(hay, |hay| - |part|, part)
  }

  /** The last part, with the end anchored: it need only end the text, once there is room for it. */
  lemma LastAtEnd(part: string, hay: string, pos: nat)
    ensures Occur([part], hay, pos, false, true) <==> EndsWith(hay, part) && pos + |part| <= |hay|
  {
    if Occur([part], hay, pos, false, true) {
      var p := Placed([part], hay, pos, false, true);
    }
    if EndsWith(hay, part) && pos + |part| <= |hay| {
      Place([part], hay, pos, false, true, |hay| - |part|);
    }
  }

  lemma LastAnywhere(part: string, hay: string, pos: nat, here: bool)
    ensures Occur([part], hay, pos, here, false) <==>
              exists p :: pos <= p <= |hay| && (here ==> p == pos) && At(hay, p, part)
  {
    if p :| pos <= p <= |hay| && (here ==> p == pos) && At(hay, p, part) {
      Place([part], hay, pos, here, false, p);
    }
  }

  /** `alt_matches`: the cases of a single part, then the greedy search. */
  method AltMatches(alt: Alt, hay: string) returns (r: bool)
    requires alt.parts != []
    ensures r <==> Matches(alt, hay)
  {
    var parts, toEnd := alt.parts, alt.anchorEnd;
    if |parts| == 1 {
      r := SinglePart(parts[0], hay, alt.anchorStart, toEnd);
      assert parts == [parts[0]];
      return;
    }
    hide Occur;
    var pos, i := 0, 0;
    while i < |parts|
      invariant 0 <= i <= |parts| && 0 <= pos <= |hay|
      invariant i < |parts| ==>
                  (Matches(alt, hay) <==> Occur(parts[i..], hay, pos, i == 0 && alt.anchorStart, toEnd))
      invariant i == |parts| ==> (Matches(alt, hay) <==> toEnd ==> EndsWith(hay, parts[|parts| - 1]))
    {
      var part := parts[i];
      assert parts[i..][0] == part && parts[i..][1..] == parts[i + 1..];
      if i == 0 && alt.anchorStart {
        FirstHere(parts[i..], hay, pos, toEnd);
        if !At(hay, pos, part) { return false; }
        pos, i := pos + |part|, i + 1;
        continue;
      }
      var found, p := Find(hay, pos, part);
      if !found {
        Nowhere(parts[i..], hay, pos, toEnd);
        return false;
      }
      if i + 1 < |parts| || !toEnd {
        Leftmost(parts[i..], hay, pos, toEnd, p);
        NothingLeft(hay, p + |part|);
      } else {
        assert parts[i..] == [part];
        LastAtEnd(part, hay, pos);
      }
      pos, i := p + |part|, i + 1;
    }
    r := toEnd ==> EndsWith(hay, parts[|parts| - 1]);
  }

  lemma NothingLeft(hay: string, pos: nat)
    requires pos <= |hay|
    ensures Occur([], hay, pos, false, false)
  {
  }

  method SinglePart(part: string, hay: string, here: bool, toEnd: bool) returns (r: bool)
    ensures r <==> Occur([part], hay, 0, here, toEnd)
  {
    if here {
      FirstHere([part], hay, 0, toEnd);
      r := if toEnd then hay == part else At(hay, 0, part);
    } else if toEnd {
      LastAtEnd(part, hay, 0);
      r := EndsWith(hay, part);
    } else {
      LastAnywhere(part, hay, 0, false);
      var found, p := Find(hay, 0, part);
      r := found;
    }
  }

  /** A whole pattern: any alternative will do; `(?i)` folds the letters of the text as it did those of the parts. */
  datatype Pattern = Pattern(foldCase: bool, alts: seq<Alt>)

  function Lower(text: string): (r: string)
    ensures |r| == |text|
  {
    seq(|text|, i requires 0 <= i < |text| => if 'A' <= text[i] <= 'Z' then text[i] - 'A' + 'a' else text[i])
  }

  /** Folding moves the ASCII codes 65 to 90 up by 32, to the small letters, and changes nothing else. */
  lemma FoldsLetters(text: string, i: nat)
    requires i < |text|
    ensures var code := text[i] as int;
            Lower(text)[i] as int == if 65 <= code <= 90 then code + 32 else code
  {
  }

  predicate Accepts(p: Pattern, text: string) {
    exists i :: 0 <= i < |p.alts| && Matches(p.alts[i], if p.foldCase then Lower(text) else text)
  }

  method IsMatch(p: Pattern, text: string) returns (r: bool)
    requires forall i :: 0 <= i < |p.alts| ==> p.alts[i].parts != []
    ensures r <==> Accepts(p, text)
  {
    hide Matches, Lower;
    var hay := if p.foldCase then Lower(text) else text;
    for i := 0 to |p.alts|
      invariant forall j :: 0 <= j < i ==> !Matches(p.alts[j], hay)
    {
      r := AltMatches(p.alts[i], hay);
      if r { return; }
    }
    r := false;
  }

  // --- Compilation ---

  function NonEmpty(pieces: seq<string>): (parts: seq<string>)
    ensures forall i :: 0 <= i < |parts| ==> parts[i] != ""
  {
    if pieces == [] then [] else (if pieces[0] == "" then [] else [pieces[0]]) + NonEmpty(pieces[1..])
  }

  /** The compiled alternative; there is none when every piece is empty. */
  predicate Compiles(alt: AltText) {
    NonEmpty(alt.pieces) != []
  }

  function Compile(alt: AltText): Alt
    requires Compiles(alt)
  {
    Alt(alt.anchorStart, alt.anchorEnd, NonEmpty(alt.pieces))
  }

  /** An empty piece takes no room: without anchors around it, it says nothing. */
  lemma DropEmpty(pieces: seq<string>, hay: string, pos: nat, toEnd: bool)
    requires pieces != [] && pieces[0] == "" && (|pieces| > 1 || !toEnd)
    ensures Occur(pieces, hay, pos, false, toEnd) <==> Occur(pieces[1..], hay, pos, false, toEnd)
  {
    if Occur(pieces, hay, pos, false, toEnd) {
      var p := Placed(pieces, hay, pos, false, toEnd);
      Earlier(pieces[1..], hay, pos, p, toEnd);
    }
    if Occur(pieces[1..], hay, pos, false, toEnd) {
      OccurBound(pieces[1..], hay, pos, false, toEnd);
      Place(pieces, hay, pos, false, toEnd, pos);
    }
  }

  lemma OccurBound(parts: seq<string>, hay: string, pos: nat, here: bool, toEnd: bool)
    requires Occur(parts, hay, pos, here, toEnd)
    ensures pos <= |hay|
  {
  }

  lemma {:induction false} CompileFloating(pieces: seq<string>, hay: string, pos: nat, toEnd: bool)
    requires toEnd ==> pieces == [] || pieces[|pieces| - 1] != ""
    ensures Occur(NonEmpty(pieces), hay, pos, false, toEnd) <==> Occur(pieces, hay, pos, false, toEnd)
  {
    hide Occur;
    if pieces != [] {
      var rest := pieces[1..];
      if pieces[0] == "" {
        DropEmpty(pieces, hay, pos, toEnd);
        assert [] + NonEmpty(rest) == NonEmpty(rest);
        CompileFloating(rest, hay, pos, toEnd);
      } else {
        var parts := NonEmpty(pieces);
        assert parts[1..] == NonEmpty(rest);
        if Occur(pieces, hay, pos, false, toEnd) {
          var p := Placed(pieces, hay, pos, false, toEnd);
          CompileFloating(rest, hay, p + |pieces[0]|, toEnd);
          Place(parts, hay, pos, false, toEnd, p);
        }
        if Occur(parts, hay, pos, false, toEnd) {
          var p := Placed(parts, hay, pos, false, toEnd);
          CompileFloating(rest, hay, p + |pieces[0]|, toEnd);
          Place(pieces, hay, pos, false, toEnd, p);
        }
      }
    }
  }

  /** No `.*` stands at an anchored end. */
  predicate Tight(alt: AltText) {
    alt.pieces != [] && (alt.anchorStart ==> alt.pieces[0] != "")
          && (alt.anchorEnd ==> alt.pieces[|alt.pieces| - 1] != "")
  }

  lemma TightMeansSame(alt: AltText, hay: string)
    requires Compiles(alt) && Tight(alt)
    ensures Matches(Compile(alt), hay) <==> MatchesText(alt, hay)
  {
    hide Occur;
    var pieces, toEnd := alt.pieces, alt.anchorEnd;
    if alt.anchorStart {
      FirstHere(pieces, hay, 0, toEnd);
      FirstHere(NonEmpty(pieces), hay, 0, toEnd);
      assert NonEmpty(pieces)[1..] == NonEmpty(pieces[1..]);
      if At(hay, 0, pieces[0]) {
        if |pieces| > 1 {
          CompileFloating(pieces[1..], hay, |pieces[0]|, toEnd);
        }
      }
    } else {
      CompileFloating(pieces, hay, 0, toEnd);
    }
  }

  function Join(pieces: seq<string>): string {
    if pieces == [] then "" else pieces[0] + Join(pieces[1..])
  }

  function Other(c: char): char {
    if c == 'x' then 'y' else 'x'
  }

  lemma {:induction false} JoinOccurs(pieces: seq<string>, before: string, here: bool, toEnd: bool)
    ensures Occur(pieces, before + Join(pieces), |before|, here, toEnd)
  {
    if pieces != [] {
      var hay := before + Join(pieces);
      assert before + pieces[0] + Join(pieces[1..]) == hay;
      JoinOccurs(pieces[1..], before + pieces[0], false, toEnd);
      Place(pieces, hay, |before|, here, toEnd, |before|);
    }
  }

  /** A last empty piece reaches the end over anything. */
  lemma {:induction false} JoinReaches(pieces: seq<string>, before: string, after: string, here: bool)
    requires pieces != [] && pieces[|pieces| - 1] == "" && (|pieces| > 1 || !here)
    ensures Occur(pieces, before + Join(pieces) + after, |before|, here, true)
  {
    var hay := before + Join(pieces) + after;
    if |pieces| == 1 {
      Place(pieces, hay, |before|, here, true, |hay|);
    } else {
      assert before + pieces[0] + Join(pieces[1..]) + after == hay;
      JoinReaches(pieces[1..], before + pieces[0], after, false);
      Place(pieces, hay, |before|, here, true, |before|);
    }
  }

  lemma {:induction false} OccurEnds(parts: seq<string>, hay: string, pos: nat, here: bool)
    requires parts != [] && Occur(parts, hay, pos, here, true)
    ensures EndsWith(hay, parts[|parts| - 1])
  {
    var p := Placed(parts, hay, pos, here, true);
    if |parts| > 1 {
      OccurEnds(parts[1..], hay, p + |parts[0]|, false);
    }
  }

  lemma NotAtStart(c: char, rest: string, part: string)
    requires part != "" && c != part[0]
    ensures !At([c] + rest, 0, part)
  {
    var hay := [c] + rest;
    assert |part| <= |hay| ==> hay[0..|part|][0] == c;
  }

  lemma NotAtEnd(front: string, c: char, part: string)
    requires part != "" && c != part[|part| - 1]
    ensures !EndsWith(front + [c], part)
  {
    var hay := front + [c];
    assert |part| <= |hay| ==> hay[|hay| - |part|..|hay|][|part| - 1] == c;
  }

  lemma LooseStart(alt: AltText) returns (hay: string)
    requires Compiles(alt) && alt.anchorStart && alt.pieces[0] == ""
    ensures MatchesText(alt, hay) && !Matches(Compile(alt), hay)
  {
    var parts, rest := NonEmpty(alt.pieces), alt.pieces[1..];
    assert [] + NonEmpty(rest) == parts;
    var c := [Other(parts[0][0])];
    hay := c + Join(rest);
    hide Occur, Join;
    JoinOccurs(rest, c, false, alt.anchorEnd);
    Earlier(rest, hay, 0, 1, alt.anchorEnd);
    Place(alt.pieces, hay, 0, true, alt.anchorEnd, 0);
    FirstHere(parts, hay, 0, alt.anchorEnd);
    NotAtStart(c[0], Join(rest), parts[0]);
  }

  lemma LooseEnd(alt: AltText) returns (hay: string)
    requires Compiles(alt) && alt.anchorEnd && alt.pieces[|alt.pieces| - 1] == ""
    ensures MatchesText(alt, hay) && !Matches(Compile(alt), hay)
  {
    var parts := NonEmpty(alt.pieces);
    var last := parts[|parts| - 1];
    var c := [Other(last[|last| - 1])];
    hay := [] + Join(alt.pieces) + c;
    assert NonEmpty([""]) == [] && (|alt.pieces| == 1 ==> alt.pieces == [""]);
    JoinReaches(alt.pieces, [], c, alt.anchorStart);
    NotAtEnd([] + Join(alt.pieces), c[0], last);
    hide Occur, Join, EndsWith;
    if Matches(Compile(alt), hay) {
      OccurEnds(parts, hay, 0, alt.anchorStart);
    }
  }

  /** `^a.*$` is compiled to the exact text `a`. */
  lemma AnchoredTailIsLost()
    ensures MatchesText(AltText(true, true, ["a", ""]), "ab") && !Matches(Compile(AltText(true, true, ["a", ""])), "ab")
  {
    var parts := NonEmpty(["a", ""]);
    assert parts == ["a"];
    Place([""], "ab", 1, false, true, 2);
    Place(["a", ""], "ab", 0, true, true, 0);
    NotAtEnd("a", 'b', "a");
    LastAtEnd("a", "ab", 0);
    FirstHere(["a"], "ab", 0, true);
  }

  /** A compiled alternative matches what its text says, on every input, exactly when no `.*` stands at an anchored
      end. */
  lemma CompileKeepsMeaning(alt: AltText)
    requires Compiles(alt)
    ensures (forall hay :: Matches(Compile(alt), hay) <==> MatchesText(alt, hay)) <==> Tight(alt)
  {
    hide Matches, MatchesText;
    if Tight(alt) {
      forall hay ensures Matches(Compile(alt), hay) <==> MatchesText(alt, hay) {
        TightMeansSame(alt, hay);
      }
    } else if alt.anchorStart && alt.pieces[0] == "" {
      var hay := LooseStart(alt);
    } else {
      var hay := LooseEnd(alt);
    }
  }
}
