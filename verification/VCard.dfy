/**
  Cutting a stream of vCards into blocks, and joining blocks into a stream.
 */
module VCard {
  import opened Strings

  const BEGIN := "BEGIN:VCARD"
  const END := "END:VCARD"
  const CRLF := "\r\n"

  // ----- library functions -----

  /** strings.ReplaceAll */
  function ReplaceAll(s: string, before: string, after: string): string
    requires before != ""
    decreases |s|
  {
    if s == "" then ""
    else if before <= s then after + ReplaceAll(s[|before|..], before, after)
    else [s[0]] + ReplaceAll(s[1..], before, after)
  }

  /** strings.Index from a place on: the first occurrence, or -1. */
  function Find(s: string, pattern: string, from: nat): (i: int)
    ensures i >= 0 ==> from <= i <= |s| - |pattern| && IsAt(s, pattern, i) && forall k :: from <= k < i ==> !IsAt(s, pattern, k)
    ensures i < 0 ==> i == -1 && forall k :: from <= k ==> !IsAt(s, pattern, k)
    decreases |s| - from
  {
    if from + |pattern| > |s| then -1
    else if IsAt(s, pattern, from) then from
    else Find(s, pattern, from + 1)
  }

  // ----- the operations -----

  /** Line ends as \n only. */
  function Normalize(s: string): string {
    ReplaceAll(ReplaceAll(s, CRLF, "\n"), "\r", "\n")
  }

  function ToCRLF(s: string): string {
    ReplaceAll(Normalize(s), "\n", CRLF)
  }

  /** What a piece of text from BEGIN to END adds to the result. */
  function BlockOf(piece: string): seq<string> {
    if Trim(piece) == "" then [] else [ToCRLF(Trim(piece)) + CRLF]
  }

  /** The blocks from a place on. */
  function SplitFrom(s: string, from: nat): seq<string>
    requires from <= |s|
    decreases |s| - from
  {
    var start := Find(ToUpper(s), BEGIN, from);
    if start < 0 then []
    else
      var end := Find(ToUpper(s), END, start);
      if end < 0 then [] else BlockOf(s[start..end + |END|]) + SplitFrom(s, end + |END|)
  }

  function Split(raw: string): seq<string> {
    SplitFrom(Normalize(raw), 0)
  }

  /** The search always moves on, so it ends. */
  method SplitCardBlocks(raw: string) returns (out: seq<string>)
    ensures out == Split(raw)
  {
    hide ToCRLF, Trim, Find, IsAt, ToUpper, Normalize;
    var s := Normalize(raw);
    var upper := ToUpper(s);
    out := [];
    var from := 0;
    while true
      invariant 0 <= from <= |s| && out + SplitFrom(s, from) == Split(raw)
      decreases |s| - from
    {
      var start := Find(upper, BEGIN, from);
      if start < 0 {
        break;
      }
      var end := Find(upper, END, start);
      if end < 0 {
        break;
      }
      end := end + |END|;
      var block := Trim(s[start..end]);
      if block != "" {
        out := out + [ToCRLF(block) + CRLF];
      }
      from := end;
    }
    assert SplitFrom(s, from) == [];
  }

  predicate EndsWith(s: string, suffix: string) {
    |suffix| <= |s| && s[|s| - |suffix|..] == suffix
  }

  function Joined(raw: string): string {
    var s := Trim(raw);
    if s == "" then "" else ToCRLF(s) + if EndsWith(ToCRLF(s), CRLF) then "" else CRLF
  }

  function Join(raws: seq<string>): string {
    if raws == [] then "" else Join(raws[..|raws| - 1]) + Joined(raws[|raws| - 1])
  }

  method JoinCards(raws: seq<string>) returns (joined: string)
    ensures joined == Join(raws)
  {
    joined := "";
    assert raws[..0] == [];
    for i := 0 to |raws|
      invariant joined == Join(raws[..i])
    {
      assert raws[..i + 1][..i] == raws[..i];
      var s := Trim(raws[i]);
      if s == "" {
        continue;
      }
      s := ToCRLF(s);
      joined := joined + s;
      if !EndsWith(s, CRLF) {
        joined := joined + CRLF;
      }
    }
    assert raws[..|raws|] == raws;
  }

  // ----- line ends -----

  lemma {:induction false} NothingToReplace(s: string, before: string, after: string)
    requires before != "" && before[0] !in s
    ensures ReplaceAll(s, before, after) == s
    decreases |s|
  {
    if s != "" {
      NothingToReplace(s[1..], before, after);
    }
  }

  lemma {:induction false} ReplacedIsGone(s: string)
    ensures '\r' !in ReplaceAll(s, "\r", "\n")
    decreases |s|
  {
    if s != "" {
      ReplacedIsGone(s[1..]);
    }
  }

  lemma PrefixStarts(a: string, t: string)
    requires a != "" && t != "" && a[0] != t[0]
    ensures !(a <= t)
  {
  }

  lemma {:induction false} LinesRoundTrip(s: string)
    requires '\r' !in s
    ensures ReplaceAll(ReplaceAll(s, "\n", CRLF), CRLF, "\n") == s
    decreases |s|
  {
    if s != "" {
      var rest := ReplaceAll(s[1..], "\n", CRLF);
      LinesRoundTrip(s[1..]);
      if s[0] == '\n' {
        assert "\n" <= s;
        assert CRLF <= CRLF + rest && (CRLF + rest)[2..] == rest;
      } else {
        var t := [s[0]] + rest;
        assert !("\n" <= s) && t[1..] == rest;
        PrefixStarts(CRLF, t);
      }
    }
  }

  lemma {:induction false} LinesConcat(a: string, b: string)
    ensures ReplaceAll(a + b, "\n", CRLF) == ReplaceAll(a, "\n", CRLF) + ReplaceAll(b, "\n", CRLF)
    decreases |a|
  {
    if a == "" {
      assert a + b == b;
    } else {
      LinesConcat(a[1..], b);
      assert (a + b)[1..] == a[1..] + b;
      assert "\n" <= a + b <==> a[0] == '\n';
      assert "\n" <= a <==> a[0] == '\n';
    }
  }

  lemma NormalizeHasNoCR(s: string)
    ensures '\r' !in Normalize(s)
  {
    ReplacedIsGone(ReplaceAll(s, CRLF, "\n"));
  }

  /** A text without \r: making its line ends CRLF and normalizing goes back to it. */
  lemma NormalizeLines(s: string)
    requires '\r' !in s
    ensures Normalize(s) == s && Normalize(ReplaceAll(s, "\n", CRLF)) == s
  {
    NothingToReplace(s, CRLF, "\n");
    NothingToReplace(s, "\r", "\n");
    LinesRoundTrip(s);
  }

  // ----- cards -----

  /** A card as it lies in the normalized stream: from BEGIN to the first END. */
  predicate IsCard(b: string) {
    '\r' !in b && |b| >= |BEGIN| && IsAt(ToUpper(b), BEGIN, 0) && Find(ToUpper(b), END, 0) == |b| - |END|
  }

  function BlockText(b: string): string {
    ReplaceAll(b, "\n", CRLF) + CRLF
  }

  lemma CardEnds(b: string)
    requires IsCard(b)
    ensures !IsSpace(b[0]) && b[0] != '\n' && !IsSpace(b[|b| - 1])
  {
    var u := ToUpper(b);
    assert u[0] == u[0..|BEGIN|][0] == 'B';
    var k := |b| - |END|;
    assert u[|b| - 1] == u[k..k + |END|][|END| - 1] == 'D';
  }

  lemma CardBlock(b: string)
    requires IsCard(b)
    ensures BlockOf(b) == [BlockText(b)]
  {
    CardEnds(b);
    TrimOfTrimmed(b);
    NormalizeLines(b);
  }

  lemma {:induction false} LinesKeepEnds(s: string)
    requires s != "" && s[0] != '\n' && s[|s| - 1] != '\n'
    ensures var t := ReplaceAll(s, "\n", CRLF); t != "" && t[0] == s[0] && t[|t| - 1] == s[|s| - 1]
  {
    var front, last := s[..|s| - 1], s[|s| - 1..];
    LinesConcat(front, last);
    assert s == front + last;
    OneCharLine(last);
    assert ReplaceAll(s, "\n", CRLF) == ReplaceAll(front, "\n", CRLF) + last;
    if front != "" {
      LinesConcat([s[0]], front[1..]);
      OneCharLine([s[0]]);
      assert front == [s[0]] + front[1..];
      assert ReplaceAll(front, "\n", CRLF) == [s[0]] + ReplaceAll(front[1..], "\n", CRLF);
      assert ReplaceAll(s, "\n", CRLF)[0] == s[0];
    } else {
      assert ReplaceAll(front, "\n", CRLF) == "";
      assert s == last;
    }
  }

  lemma OneCharLine(c: string)
    requires |c| == 1 && c[0] != '\n'
    ensures ReplaceAll(c, "\n", CRLF) == c
  {
    assert ReplaceAll(c[1..], "\n", CRLF) == "";
  }

  lemma TrimBeforeCRLF(t: string)
    requires t != "" && !IsSpace(t[0]) && !IsSpace(t[|t| - 1])
    ensures Trim(t + CRLF) == t
  {
    var s := t + CRLF;
    assert TrimLeft(s) == s;
    assert s[..|s| - 1] == t + "\r" && (t + "\r")[..|t|] == t;
    assert TrimRight(t) == t;
    assert TrimRight(t + "\r") == t;
  }

  /** Joining adds each block as it is. */
  lemma JoinedBlock(b: string)
    requires IsCard(b)
    ensures Joined(BlockText(b)) == BlockText(b)
  {
    CardEnds(b);
    LinesKeepEnds(b);
    var t := ReplaceAll(b, "\n", CRLF);
    TrimBeforeCRLF(t);
    NormalizeLines(b);
    assert ToCRLF(t) == t;
    assert !EndsWith(t, CRLF);
  }

  ghost predicate AreCards(cards: seq<string>) {
    forall i :: 0 <= i < |cards| ==> IsCard(cards[i])
  }

  function Texts(cards: seq<string>): (texts: seq<string>)
    ensures |texts| == |cards|
  {
    seq(|cards|, i requires 0 <= i < |cards| => BlockText(cards[i]))
  }

  /** The cards with a line end after each: the normalized stream. */
  function Stream(cards: seq<string>): string {
    if cards == [] then "" else Stream(cards[..|cards| - 1]) + cards[|cards| - 1] + "\n"
  }

  lemma NewlineIsCRLF()
    ensures ReplaceAll("\n", "\n", CRLF) == CRLF
  {
    assert "\n"[1..] == "";
  }

  lemma StreamLines(front: string, card: string)
    ensures ReplaceAll(front + card + "\n", "\n", CRLF) == ReplaceAll(front, "\n", CRLF) + BlockText(card)
  {
    LinesConcat(front, card);
    LinesConcat(front + card, "\n");
    NewlineIsCRLF();
  }

  lemma NoCRInCard(card: string)
    requires IsCard(card)
    ensures '\r' !in card
  {
  }

  lemma {:induction false} JoinIsStream(cards: seq<string>)
    requires AreCards(cards)
    ensures Join(Texts(cards)) == ReplaceAll(Stream(cards), "\n", CRLF) && '\r' !in Stream(cards)
  {
    if cards != [] {
      var k := |cards| - 1;
      hide IsCard, Joined, BlockText, ReplaceAll;
      JoinIsStream(cards[..k]);
      assert Texts(cards)[..k] == Texts(cards[..k]);
      JoinedBlock(cards[k]);
      StreamLines(Stream(cards[..k]), cards[k]);
      NoCRInCard(cards[k]);
    }
  }

  // ----- cutting a stream of cards -----

  lemma {:induction false} FindShifted(s: string, pattern: string, from: nat, cut: nat)
    requires cut <= from && cut <= |s|
    ensures Find(s, pattern, from) == var i := Find(s[cut..], pattern, from - cut); if i < 0 then -1 else i + cut
    decreases |s| - from
  {
    assert IsAt(s, pattern, from) <==> IsAt(s[cut..], pattern, from - cut) by {
      if from + |pattern| <= |s| {
        assert s[cut..][from - cut..from - cut + |pattern|] == s[from..from + |pattern|];
      }
    }
    if from + |pattern| <= |s| {
      FindShifted(s, pattern, from + 1, cut);
    }
  }

  lemma UpperSlices(s: string, cut: nat)
    requires cut <= |s|
    ensures ToUpper(s[cut..]) == ToUpper(s)[cut..] && ToUpper(s[..cut]) == ToUpper(s)[..cut]
  {
  }

  /** Only what follows matters. */
  lemma {:induction false} SplitSuffix(s: string, from: nat, cut: nat)
    requires cut <= from <= |s|
    ensures SplitFrom(s, from) == SplitFrom(s[cut..], from - cut)
    decreases |s| - from
  {
    hide ToUpper, Find, IsAt, BlockOf;
    UpperSlices(s, cut);
    FindShifted(ToUpper(s), BEGIN, from, cut);
    var start := Find(ToUpper(s), BEGIN, from);
    if start >= 0 {
      FindShifted(ToUpper(s), END, start, cut);
      var end := Find(ToUpper(s), END, start);
      if end >= 0 {
        assert s[cut..][start - cut..end + |END| - cut] == s[start..end + |END|];
        SplitSuffix(s, end + |END|, cut);
      }
    }
  }

  lemma FindIs(s: string, pattern: string, from: nat, i: nat)
    requires from <= i && IsAt(s, pattern, i) && forall k :: from <= k < i ==> !IsAt(s, pattern, k)
    ensures Find(s, pattern, from) == i
  {
    var j := Find(s, pattern, from);
    assert j < 0 ==> !IsAt(s, pattern, i);
    assert 0 <= j < i ==> !IsAt(s, pattern, j);
  }

  /** A card at the front of the stream is found, and nothing beyond its END is looked at. */
  lemma FindInFront(b: string, rest: string)
    requires IsCard(b)
    ensures Find(ToUpper(b + rest), BEGIN, 0) == 0
    ensures Find(ToUpper(b + rest), END, 0) == |b| - |END|
  {
    var s, k := b + rest, |b| - |END|;
    UpperSlices(s, |b|);
    assert s[..|b|] == b;
    var u, v := ToUpper(s), ToUpper(b);
    assert u[0..|BEGIN|] == v[0..|BEGIN|];
    FindIs(u, BEGIN, 0, 0);
    assert u[k..k + |END|] == v[k..k + |END|];
    forall j | 0 <= j < k ensures !IsAt(u, END, j) {
      assert u[j..j + |END|] == v[j..j + |END|];
      assert !IsAt(v, END, j);
    }
    FindIs(u, END, 0, k);
  }

  lemma FirstBlock(s: string, end: nat)
    requires Find(ToUpper(s), BEGIN, 0) == 0 && Find(ToUpper(s), END, 0) == end
    ensures end + |END| <= |s|
    ensures SplitFrom(s, 0) == BlockOf(s[0..end + |END|]) + SplitFrom(s, end + |END|)
  {
    hide Find, IsAt, BlockOf;
  }

  lemma SplitCardInFront(b: string, rest: string)
    requires IsCard(b)
    ensures SplitFrom(b + rest, 0) == [BlockText(b)] + SplitFrom(rest, 0)
  {
    var s, end := b + rest, |b| - |END|;
    assert end >= 0;
    hide SplitFrom, ToUpper, Find, IsAt, IsCard, BlockOf;
    FindInFront(b, rest);
    FirstBlock(s, end);
    assert s[0..|b|] == b && s[|b|..] == rest;
    CardBlock(b);
    SplitSuffix(s, |b|, |b|);
  }

  lemma SkipNewline(rest: string)
    ensures SplitFrom("\n" + rest, 0) == SplitFrom(rest, 0)
  {
    var s := "\n" + rest;
    assert s[1..] == rest;
    SplitSuffix(s, 1, 1);
    hide BlockOf;
    var u := ToUpper(s);
    assert u[0] == '\n';
    CharAt(u, BEGIN, 0, 0);
    FindLater(u, BEGIN);
  }

  lemma FindLater(s: string, pattern: string)
    requires s != "" && pattern != "" && !IsAt(s, pattern, 0)
    ensures Find(s, pattern, 0) == Find(s, pattern, 1)
  {
  }

  lemma CharAt(s: string, pattern: string, i: int, d: nat)
    requires d < |pattern|
    ensures IsAt(s, pattern, i) ==> i + d < |s| && s[i + d] == pattern[d]
  {
    if IsAt(s, pattern, i) {
      assert s[i..i + |pattern|][d] == s[i + d];
    }
  }

  lemma StreamSnoc(cards: seq<string>, card: string)
    ensures Stream(cards + [card]) == Stream(cards) + card + "\n"
  {
    assert (cards + [card])[..|cards|] == cards;
  }

  lemma {:induction false} StreamFront(cards: seq<string>)
    requires cards != []
    ensures Stream(cards) == cards[0] + ("\n" + Stream(cards[1..]))
    decreases |cards|
  {
    var k := |cards| - 1;
    var last := cards[k];
    assert cards == cards[..k] + [last];
    StreamSnoc(cards[..k], last);
    if k > 0 {
      StreamFront(cards[..k]);
      assert cards[1..] == cards[..k][1..] + [last];
      StreamSnoc(cards[..k][1..], last);
      hide Stream;
      Reassociate(cards[0], Stream(cards[..k][1..]), last);
    } else {
      assert cards[1..] == [] && cards[..k] == [];
    }
  }

  lemma Reassociate(first: string, middle: string, last: string)
    ensures first + ("\n" + middle) + last + "\n" == first + ("\n" + (middle + last + "\n"))
  {
  }

  lemma TextsFront(cards: seq<string>)
    requires cards != []
    ensures Texts(cards) == [BlockText(cards[0])] + Texts(cards[1..])
  {
  }

  lemma {:induction false} SplitStream(cards: seq<string>)
    requires AreCards(cards)
    ensures SplitFrom(Stream(cards), 0) == Texts(cards)
    decreases |cards|
  {
    if cards == [] {
      assert Find(ToUpper(""), BEGIN, 0) == -1;
    } else {
      hide ToUpper, Find, IsAt, IsCard, SplitFrom, BlockText, Stream, Texts;
      StreamFront(cards);
      SplitCardInFront(cards[0], "\n" + Stream(cards[1..]));
      SkipNewline(Stream(cards[1..]));
      SplitStream(cards[1..]);
      TextsFront(cards);
    }
  }

  /** Joining any list of cards and splitting the stream gives the cards back. */
  lemma SplitUndoesJoin(cards: seq<string>)
    requires AreCards(cards)
    ensures Split(Join(Texts(cards))) == Texts(cards)
  {
    JoinIsStream(cards);
    NormalizeLines(Stream(cards));
    SplitStream(cards);
  }

  // ----- whatever is cut out is a card -----

  lemma PieceIsCard(s: string, start: nat, end: nat)
    requires '\r' !in s && IsAt(ToUpper(s), BEGIN, start) && end == Find(ToUpper(s), END, start)
    ensures end + |END| <= |s| && IsCard(s[start..end + |END|])
  {
    hide Find;
    var u := ToUpper(s);
    var b := s[start..end + |END|];
    var v := ToUpper(b);
    assert v == u[start..end + |END|];
    BeginIsNotEnd(u, start, end);
    assert v[0..|BEGIN|] == u[start..start + |BEGIN|];
    var k := end - start;
    assert v[k..k + |END|] == u[end..end + |END|];
    forall j | 0 <= j < k ensures !IsAt(v, END, j) {
      assert v[j..j + |END|] == u[start + j..start + j + |END|];
      assert !IsAt(u, END, start + j);
    }
    FindIs(v, END, 0, k);
  }

  /** No END overlaps the end of a BEGIN. */
  lemma BeginIsNotEnd(u: string, start: nat, end: nat)
    requires IsAt(u, BEGIN, start) && IsAt(u, END, end) && start <= end
    ensures end >= start + |BEGIN|
  {
    var d := end - start;
    CharAt(u, END, end, 0);
    CharAt(u, END, end, 1);
    CharAt(u, BEGIN, start, 2);
    if d < |BEGIN| {
      CharAt(u, BEGIN, start, d);
      OneE(d);
    }
  }

  lemma OneE(d: nat)
    requires d < |BEGIN|
    ensures BEGIN[d] == 'E' ==> d == 1
  {
  }

  lemma {:induction false} SplitGivesCards(s: string, from: nat) returns (cards: seq<string>)
    requires '\r' !in s && from <= |s|
    ensures AreCards(cards) && SplitFrom(s, from) == Texts(cards)
    decreases |s| - from
  {
    hide ToUpper, Find, IsAt, BlockOf, IsCard;
    cards := [];
    var start := Find(ToUpper(s), BEGIN, from);
    if start >= 0 {
      var end := Find(ToUpper(s), END, start);
      if end >= 0 {
        PieceIsCard(s, start, end);
        var b := s[start..end + |END|];
        CardBlock(b);
        var rest := SplitGivesCards(s, end + |END|);
        cards := [b] + rest;
        assert Texts(cards) == [BlockText(b)] + Texts(rest);
      }
    }
  }

  /** Splitting, joining and splitting again gives the same blocks, whatever the input. */
  lemma SplitJoinSplit(raw: string)
    ensures Split(Join(Split(raw))) == Split(raw)
  {
    NormalizeHasNoCR(raw);
    var cards := SplitGivesCards(Normalize(raw), 0);
    SplitUndoesJoin(cards);
  }

  lemma JoinSnoc(raws: seq<string>, raw: string)
    ensures Join(raws + [raw]) == Join(raws) + Joined(raw)
  {
    hide Joined;
    assert (raws + [raw])[..|raws|] == raws;
  }

  /** Texts add to the stream one after the other, and blank ones nothing. */
  lemma {:induction false} JoinInOrder(a: seq<string>, b: seq<string>, blank: string)
    requires Trim(blank) == ""
    ensures Join(a + b) == Join(a) + Join(b) && Joined(blank) == ""
    decreases |b|
  {
    hide Join, Trim, ToCRLF, EndsWith;
    if b == [] {
      assert a + b == a;
      NothingJoined();
    } else {
      var k := |b| - 1;
      JoinInOrder(a, b[..k], blank);
      JoinSnoc(a + b[..k], b[k]);
      JoinSnoc(b[..k], b[k]);
      assert a + b == (a + b[..k]) + [b[k]] && b == b[..k] + [b[k]];
    }
  }

  lemma NothingJoined()
    ensures Join([]) == ""
  {
  }
}
