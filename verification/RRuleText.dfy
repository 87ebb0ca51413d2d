/**
  Recurrence rules as texts: what is printed parses back, and merging a text twice is merging it once.
 */
module RRuleText {
  import opened Strings
  import opened RRule
  import opened RRuleMerge
  import opened RRuleTwice

  // ----- texts of parts -----

  predicate IsKey(k: string) {
    k != "" && Trimmed(k) && ToUpper(k) == k && '=' !in k && ';' !in k
  }

  predicate IsValue(v: string) {
    Trimmed(v) && ';' !in v
  }

  /** As parsing yields them. */
  ghost predicate Parsed(parts: seq<Part>) {
    forall i :: 0 <= i < |parts| ==> IsKey(parts[i].key) && IsValue(parts[i].value)
  }

  lemma TrimKeeps(s: string, c: char)
    ensures c in Trim(s) ==> c in s
    ensures |Trim(s)| <= |s|
  {
    TrimLeftKeepsEnd(s);
    TrimRightKeepsFront(TrimLeft(s));
  }

  lemma {:induction false} TrimLeftKeepsEnd(s: string)
    ensures exists n :: 0 <= n <= |s| && TrimLeft(s) == s[n..]
    decreases |s|
  {
    if s != "" && IsSpace(s[0]) {
      TrimLeftKeepsEnd(s[1..]);
      var n :| 0 <= n <= |s[1..]| && TrimLeft(s[1..]) == s[1..][n..];
      assert s[1..][n..] == s[n + 1..];
    } else {
      assert s[0..] == s;
    }
  }

  lemma UpperKeepsKeys(s: string)
    requires Trimmed(s) && '=' !in s && ';' !in s
    ensures Trimmed(ToUpper(s)) && ToUpper(ToUpper(s)) == ToUpper(s) && '=' !in ToUpper(s) && ';' !in ToUpper(s)
  {
  }

  lemma PartOfIsParsed(piece: string)
    requires ';' !in piece
    ensures Parsed(PartOf(piece))
  {
    var p := Trim(piece);
    TrimKeeps(piece, ';');
    var i := IndexOf(p, '=');
    if i < |p| {
      TrimIsTrimmed(p[..i]);
      TrimKeeps(p[..i], '=');
      TrimKeeps(p[..i], ';');
      UpperKeepsKeys(Trim(p[..i]));
      TrimIsTrimmed(p[i + 1..]);
      TrimKeeps(p[i + 1..], ';');
    }
  }

  lemma {:induction false} PartsOfAreParsed(pieces: seq<string>)
    requires forall i :: 0 <= i < |pieces| ==> ';' !in pieces[i]
    ensures Parsed(PartsOf(pieces))
  {
    if pieces != [] {
      PartsOfAreParsed(pieces[..|pieces| - 1]);
      PartOfIsParsed(pieces[|pieces| - 1]);
    }
  }

  lemma {:induction false} PiecesHaveNoSeparator(s: string, sep: char)
    ensures forall i :: 0 <= i < |Split(s, sep)| ==> sep !in Split(s, sep)[i]
    decreases |s|
  {
    var i := IndexOf(s, sep);
    if i == |s| {
      assert s[..i] == s;
    } else {
      PiecesHaveNoSeparator(s[i + 1..], sep);
    }
  }

  lemma ParseIsParsed(s: string)
    ensures Parsed(Parse(s))
  {
    PiecesHaveNoSeparator(s, ';');
    PartsOfAreParsed(Split(s, ';'));
  }

  // ----- printing and parsing -----

  lemma {:induction false} IndexOfIs(a: string, c: char, b: string)
    requires c !in a
    ensures IndexOf(a + [c] + b, c) == |a|
  {
    if a == "" {
      assert (a + [c] + b)[0] == c;
    } else {
      IndexOfIs(a[1..], c, b);
      assert (a + [c] + b)[1..] == a[1..] + [c] + b;
    }
  }

  lemma IndexOfNone(s: string, c: char)
    requires c !in s
    ensures IndexOf(s, c) == |s|
  {
  }

  lemma SplitAt(a: string, sep: char, b: string)
    requires sep !in a
    ensures Split(a + [sep] + b, sep) == [a] + Split(b, sep)
  {
    var s := a + [sep] + b;
    IndexOfIs(a, sep, b);
    assert s[..|a|] == a && s[|a| + 1..] == b;
  }

  lemma {:induction false} SplitSnoc(s: string, sep: char, piece: string)
    requires sep !in piece
    ensures Split(s + [sep] + piece, sep) == Split(s, sep) + [piece]
    decreases |s|
  {
    hide Split, IndexOf;
    var i := IndexOf(s, sep);
    if i == |s| {
      assert s[..i] == s;
      SplitWhole(s, sep);
      SplitWhole(piece, sep);
      SplitAt(s, sep, piece);
    } else {
      var a, b := s[..i], s[i + 1..];
      SplitSnoc(b, sep, piece);
      SplitAt(a, sep, b);
      SplitAt(a, sep, b + [sep] + piece);
      assert s == a + [sep] + b;
      assert s + [sep] + piece == a + [sep] + (b + [sep] + piece);
    }
  }

  lemma SplitWhole(s: string, sep: char)
    requires sep !in s
    ensures Split(s, sep) == [s]
  {
    IndexOfNone(s, sep);
  }

  predicate Printable(p: Part) {
    IsKey(p.key) && IsValue(p.value) && p.value != ""
  }

  lemma PrintedPart(p: Part)
    requires Printable(p)
    ensures PartOf(PrintPart(p)) == [p] && ';' !in PrintPart(p) && Trimmed(PrintPart(p)) && PrintPart(p) != ""
  {
    var s := PrintPart(p);
    assert s == p.key + ['='] + p.value;
    assert s[0] == p.key[0] && s[|s| - 1] == p.value[|p.value| - 1];
    TrimOfTrimmed(s);
    IndexOfIs(p.key, '=', p.value);
    assert s[..|p.key|] == p.key && s[|p.key| + 1..] == p.value;
    TrimOfTrimmed(p.key);
    TrimOfTrimmed(p.value);
  }

  lemma ParseOne(piece: string)
    requires ';' !in piece
    ensures Parse(piece) == PartOf(piece)
  {
    SplitWhole(piece, ';');
    PartsOfOne(piece);
  }

  lemma PartsOfOne(piece: string)
    ensures PartsOf([piece]) == PartOf(piece)
  {
    var none: seq<string> := [];
    assert [piece][..0] == none;
  }

  /** A printed rule parses back to its parts. */
  lemma {:induction false} ParsePrint(parts: seq<Part>)
    requires parts != [] && forall i :: 0 <= i < |parts| ==> Printable(parts[i])
    ensures Parse(Print(parts)) == parts
    ensures Trimmed(Print(parts)) && Print(parts) != ""
  {
    hide Parse, PartOf, PrintPart, Printable, Trimmed;
    var k := |parts| - 1;
    var piece := PrintPart(parts[k]);
    PrintedPart(parts[k]);
    if k == 0 {
      ParseOne(piece);
      assert parts == [parts[0]];
    } else {
      ParsePrint(parts[..k]);
      OnePartMore(Print(parts[..k]), piece);
      assert parts == parts[..k] + [parts[k]];
    }
  }

  lemma OnePartMore(front: string, piece: string)
    requires ';' !in piece && Trimmed(front) && front != "" && Trimmed(piece) && piece != ""
    ensures Parse(front + ";" + piece) == Parse(front) + PartOf(piece)
    ensures Trimmed(front + ";" + piece)
  {
    hide PartOf, Split;
    var all := front + ";" + piece;
    assert all == front + [';'] + piece;
    SplitSnoc(front, ';', piece);
    assert (Split(front, ';') + [piece])[..|Split(front, ';')|] == Split(front, ';');
    assert all[0] == front[0] && all[|all| - 1] == piece[|piece| - 1];
  }

  // ----- merged texts -----

  lemma {:induction false} ValueIsParsed(parts: seq<Part>, key: string)
    requires Parsed(parts)
    ensures IsValue(Value(parts, key))
  {
    if parts != [] {
      ValueIsParsed(parts[..|parts| - 1], key);
    }
  }

  lemma MergeUntilIsValue(existing: string, incoming: string)
    requires IsValue(existing) && IsValue(incoming)
    ensures IsValue(MergeUntil(existing, incoming))
  {
    TrimOfTrimmed(existing);
    TrimOfTrimmed(incoming);
  }

  lemma ExistingIsParsed(p: Part, incoming: seq<Part>)
    requires IsKey(p.key) && IsValue(p.value) && Parsed(incoming)
    ensures Parsed(Existing(p, incoming))
  {
    ValueIsParsed(incoming, p.key);
    MergeUntilIsValue(p.value, Value(incoming, p.key));
    hide MergeUntil, Value, Mentions;
  }

  lemma {:induction false} FromExistingIsParsed(parts: seq<Part>, incoming: seq<Part>)
    requires Parsed(parts) && Parsed(incoming)
    ensures Parsed(FromExisting(parts, incoming))
  {
    if parts != [] {
      FromExistingIsParsed(parts[..|parts| - 1], incoming);
      ExistingIsParsed(parts[|parts| - 1], incoming);
    }
  }

  lemma FromIncomingIsParsed(existing: seq<Part>, incoming: seq<Part>)
    requires Parsed(existing) && Parsed(incoming)
    ensures Parsed(FromIncoming(incoming, existing, incoming))
  {
    forall i | 0 <= i < |incoming|
      ensures IsKey(incoming[i].key) && IsValue(Incoming(incoming[i], existing, incoming).value)
    {
      ValueIsParsed(incoming, "INTERVAL");
      ValueIsParsed(existing, "UNTIL");
      MergeUntilIsValue(Value(existing, "UNTIL"), incoming[i].value);
    }
  }

  lemma MergedIsPrintable(existing: seq<Part>, incoming: seq<Part>)
    requires Parsed(existing) && Parsed(incoming)
    ensures forall i :: 0 <= i < |MergeParts(existing, incoming)| ==> Printable(MergeParts(existing, incoming)[i])
  {
    var offers := Offers(existing, incoming);
    FromExistingIsParsed(existing, incoming);
    FromIncomingIsParsed(existing, incoming);
    ValueIsParsed(incoming, "INTERVAL");
    IntervalIsKey();
    assert Parsed(offers);
    PushAllIsCoherent(NOTHING, offers);
    var merged := MergeParts(existing, incoming);
    forall i | 0 <= i < |merged| ensures Printable(merged[i]) {
      assert merged[i] in offers;
      var j :| 0 <= j < |offers| && offers[j] == merged[i];
    }
  }

  lemma IntervalIsKey()
    ensures IsKey("INTERVAL") && IsValue("1")
  {
  }

  /** The merged rule has the frequency of the edit. */
  lemma FreqIsTaken(existing: seq<Part>, incoming: seq<Part>)
    requires SameFreq(existing, incoming)
    ensures Value(MergeParts(existing, incoming), "FREQ") == Value(incoming, "FREQ")
    ensures MergeParts(existing, incoming) != []
  {
    var merged := MergeParts(existing, incoming);
    var front := FromExisting(existing, incoming) + FromIncoming(incoming, existing, incoming);
    if !Mentions(existing, "FREQ") {
      NotMentioned(existing, "FREQ");
    }
    if !Mentions(incoming, "FREQ") {
      NotMentioned(incoming, "FREQ");
    }
    FirstIsTaken(Offers(existing, incoming), "FREQ");
    EditedFirst(existing, incoming, "FREQ");
    FirstOfTwo(FromExisting(existing, incoming), FromIncoming(incoming, existing, incoming), "FREQ");
    FirstOfTwo(front, [Part("INTERVAL", Interval(incoming))], "FREQ");
    assert Value(merged, "FREQ") != "";
  }

  /** When the frequencies agree, the merged text parses back to the merged parts. */
  lemma MergedTextParsesBack(existing: string, incoming: string)
    requires SameFreq(Parse(Trim(existing)), Parse(Trim(incoming)))
    requires Trim(existing) != "" && Trim(incoming) != "" && Trim(existing) != Trim(incoming)
    ensures Parse(Merge(existing, incoming)) == MergeParts(Parse(Trim(existing)), Parse(Trim(incoming)))
    ensures Trimmed(Merge(existing, incoming)) && Merge(existing, incoming) != ""
  {
    var ex, inc := Parse(Trim(existing)), Parse(Trim(incoming));
    ParseIsParsed(Trim(existing));
    ParseIsParsed(Trim(incoming));
    MergedIsPrintable(ex, inc);
    FreqIsTaken(ex, inc);
    ParsePrint(MergeParts(ex, inc));
  }

  lemma MergeOntoItself(incoming: string)
    ensures Merge(Trim(incoming), incoming) == Trim(incoming)
  {
    TrimIsTrimmed(incoming);
    TrimOfTrimmed(Trim(incoming));
  }

  /** Merging an edit a second time changes nothing, if parts of the edit with equal keys have equal values. */
  lemma MergeTwice(existing: string, incoming: string)
    requires Agree(Parse(Trim(incoming)))
    ensures Merge(Merge(existing, incoming), incoming) == Merge(existing, incoming)
  {
    hide Trim, Parse, Print, MergeParts;
    var (e, i) := (Trim(existing), Trim(incoming));
    MergeOntoItself(incoming);
    if i != "" && e != "" && e != i && SameFreq(Parse(e), Parse(i)) {
      MergedTextParsesBack(existing, incoming);
      MergePartsTwice(Parse(e), Parse(i));
      FreqIsTaken(Parse(e), Parse(i));
      MergedOnceMore(Merge(existing, incoming), incoming, MergeParts(Parse(e), Parse(i)));
    }
  }

  lemma MergedOnceMore(merged: string, incoming: string, parts: seq<Part>)
    requires Trim(incoming) != "" && merged != "" && Trimmed(merged) && merged == Print(parts)
    requires Parse(merged) == parts && MergeParts(parts, Parse(Trim(incoming))) == parts
    ensures Merge(merged, incoming) == if SameFreq(parts, Parse(Trim(incoming))) then merged else Trim(incoming)
  {
    TrimOfTrimmed(merged);
  }

  // ----- exactly when a text is merged once and for all -----

  lemma ParsedPartsAreParsed(parts: seq<Part>)
    requires Parsed(parts)
    ensures AsParsed(parts)
  {
  }

  lemma CleanAgrees(existing: seq<Part>, incoming: seq<Part>)
    requires Clean(incoming) && AsParsed(incoming)
    ensures NewKeysAgree(existing, incoming) && BlankedAreLast(existing, incoming)
  {
    forall i | 0 <= i < |incoming|
      ensures AgreesWithItself(incoming, incoming[i].key) && !Blanked(incoming, incoming[i].key)
    {
      hide Value, FirstValue, Mentions, Trimmed;
      ValueOfClean(incoming, i);
      AgreedFirst(incoming, incoming[i].key);
      MergeUntilSame(incoming[i].value);
    }
    hide Value, FirstValue, Mentions, AgreesWithItself, IsAdded, Blanked, AsParsed, Clean;
  }

  lemma MergeUntilSame(v: string)
    ensures Trimmed(v) ==> MergeUntil(v, v) == v
  {
    if Trimmed(v) {
      TrimOfTrimmed(v);
    }
  }

  /** The frequencies agree and the texts differ, so that the rules are merged part by part. */
  predicate IsMergedByParts(existing: string, incoming: string) {
    var (e, i) := (Trim(existing), Trim(incoming));
    i != "" && e != "" && e != i && SameFreq(Parse(e), Parse(i))
  }

  /**
    Merging a text a second time changes nothing exactly when the rules are not merged by parts at
    all, or the edit agrees with itself on every key that the rule does not have, unless its last
    value is empty, and adds the keys whose last value is empty after the others.
   */
  lemma MergeTwiceIff(existing: string, incoming: string)
    ensures var (ex, inc) := (Parse(Trim(existing)), Parse(Trim(incoming)));
            Merge(Merge(existing, incoming), incoming) == Merge(existing, incoming) <==>
              !IsMergedByParts(existing, incoming) || (NewKeysAgree(ex, inc) && BlankedAreLast(ex, inc))
  {
    hide Trim, Parse, Print, MergeParts, SameFreq, NewKeysAgree, BlankedAreLast, Parsed, AsParsed;
    MergeOntoItself(incoming);
    if IsMergedByParts(existing, incoming) {
      var ex, inc := Parse(Trim(existing)), Parse(Trim(incoming));
      ParseIsParsed(Trim(existing));
      ParseIsParsed(Trim(incoming));
      ParsedPartsAreParsed(ex);
      ParsedPartsAreParsed(inc);
      MergedTextParsesBack(existing, incoming);
      MergePartsTwiceIff(ex, inc);
      SecondText(Merge(existing, incoming), incoming, ex);
    }
  }

  lemma SecondText(merged: string, incoming: string, ex: seq<Part>)
    requires var inc := Parse(Trim(incoming));
             && Parsed(ex) && Parsed(inc) && SameFreq(ex, inc) && Trim(incoming) != ""
             && merged == Print(MergeParts(ex, inc)) && Parse(merged) == MergeParts(ex, inc) && Trimmed(merged) && merged != ""
    requires var inc := Parse(Trim(incoming));
             MergeParts(MergeParts(ex, inc), inc) == MergeParts(ex, inc) <==> NewKeysAgree(ex, inc) && BlankedAreLast(ex, inc)
    ensures var inc := Parse(Trim(incoming));
            Merge(merged, incoming) == merged <==> NewKeysAgree(ex, inc) && BlankedAreLast(ex, inc)
  {
    hide Trim, Parse, Print, MergeParts, NewKeysAgree, BlankedAreLast, Parsed, AsParsed, Clean, Printable;
    var inc := Parse(Trim(incoming));
    var once := MergeParts(ex, inc);
    assert Trim(merged) == merged by { TrimOfTrimmed(merged); }
    MergedIsClean(ex, inc);
    if merged == Trim(incoming) {
      ParsedPartsAreParsed(inc);
      CleanAgrees(ex, inc);
    } else {
      FreqIsTaken(ex, inc);
      assert SameFreq(once, inc);
      ParseIsParsed(merged);
      MergedIsPrintable(once, inc);
      FreqIsTaken(once, inc);
      ParsePrint(MergeParts(once, inc));
    }
  }

  const TWO_VALUES := [Part("FREQ", "DAILY"), Part("X", "1"), Part("X", "2")]

  lemma DailyPrints()
    ensures Print(DAILY) == "FREQ=DAILY"
  {
    assert PrintPart(DAILY[0]) == "FREQ=DAILY";
  }

  lemma TwoValuesPrint()
    ensures Print(TWO_VALUES) == "FREQ=DAILY;X=1;X=2"
  {
    DailyPrints();
    var one := TWO_VALUES[..2];
    assert one == [Part("FREQ", "DAILY"), Part("X", "1")] && one[..1] == DAILY;
    PrintSnoc(one);
    PrintSnoc(TWO_VALUES);
    hide Print;
    assert PrintPart(Part("X", "1")) == "X=1" && PrintPart(Part("X", "2")) == "X=2";
    assert Print(one) == "FREQ=DAILY;X=1";
  }

  lemma PrintSnoc(parts: seq<Part>)
    requires |parts| > 1
    ensures Print(parts) == Print(parts[..|parts| - 1]) + ";" + PrintPart(parts[|parts| - 1])
  {
  }

  lemma PrintedTexts(parts: seq<Part>)
    requires parts != [] && forall i :: 0 <= i < |parts| ==> Printable(parts[i])
    ensures Parse(Print(parts)) == parts && Trim(Print(parts)) == Print(parts)
  {
    ParsePrint(parts);
    TrimOfTrimmed(Print(parts));
  }

  lemma DailyParts()
    ensures forall i :: 0 <= i < |DAILY| ==> Printable(DAILY[i])
    ensures forall i :: 0 <= i < |TWO_VALUES| ==> Printable(TWO_VALUES[i])
  {
    assert IsKey("FREQ") && IsKey("X") && IsValue("DAILY") && IsValue("1") && IsValue("2");
  }

  lemma DailyValues()
    ensures Value(DAILY, "FREQ") == "DAILY" == Value(TWO_VALUES, "FREQ") && !Mentions(DAILY, "X")
    ensures FirstValue(TWO_VALUES, "X") == "1" && Value(TWO_VALUES, "X") == "2"
  {
    assert DAILY[..0] == [];
    assert TWO_VALUES[..2] == [Part("FREQ", "DAILY"), Part("X", "1")] && TWO_VALUES[..2][..1] == DAILY;
    assert FirstValue(DAILY, "X") == "";
    assert FirstValue(TWO_VALUES[..2], "X") == "1";
  }

  /** A pair of texts for which the second merge changes the first one's result. */
  lemma TwoValuesForOneKey()
    ensures Merge(Merge("FREQ=DAILY", "FREQ=DAILY;X=1;X=2"), "FREQ=DAILY;X=1;X=2")
              != Merge("FREQ=DAILY", "FREQ=DAILY;X=1;X=2")
  {
    hide Parse, Print, Trim, Merge, MergeParts, Value, FirstValue, Mentions, Printable;
    DailyPrints();
    TwoValuesPrint();
    DailyParts();
    PrintedTexts(DAILY);
    PrintedTexts(TWO_VALUES);
    DailyValues();
    assert TWO_VALUES[1].key == "X" && !AgreesWithItself(TWO_VALUES, "X");
    MergeTwiceIff("FREQ=DAILY", "FREQ=DAILY;X=1;X=2");
  }
}
