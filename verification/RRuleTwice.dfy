/**
  Exactly when merging an edit of a recurrence rule once is enough: its first and last values agree
  for every new key, and keys that it gives a value and takes it away again come last.
 */
module RRuleTwice {
  import opened Strings
  import opened RRule
  import opened RRuleMerge

  /** As parsing yields them. */
  ghost predicate AsParsed(parts: seq<Part>) {
    forall i :: 0 <= i < |parts| ==> parts[i].key != "" && Trimmed(parts[i].value)
  }

  /** The edit's last part for the key has no value, but an earlier one has. */
  predicate Blanked(incoming: seq<Part>, key: string) {
    key !in {"INTERVAL", "UNTIL"} && Value(incoming, key) == "" && FirstValue(incoming, key) != ""
  }

  /** A part of the rule has a value for this key of the edit. */
  predicate Keeps(existing: seq<Part>, incoming: seq<Part>, key: string) {
    Mentions(existing, key) && (Value(incoming, key) != "" || (key == "UNTIL" && FirstValue(existing, key) != ""))
  }

  /** This part of the edit is added to the rule's own parts: the first with a value for a key that the rule lacks. */
  predicate IsAdded(existing: seq<Part>, incoming: seq<Part>, j: nat)
    requires j < |incoming|
  {
    var key := incoming[j].key;
    if key == "INTERVAL" then Interval(incoming) != "1" && !Mentions(existing, key) && !Mentions(incoming[..j], key)
    else incoming[j].value != "" && FirstValue(incoming[..j], key) == "" && !Keeps(existing, incoming, key)
  }

  /** Of the added parts, those whose key is blanked come after the others. */
  ghost predicate BlankedAreLast(existing: seq<Part>, incoming: seq<Part>) {
    forall i, j | 0 <= i < j < |incoming| && IsAdded(existing, incoming, i) && IsAdded(existing, incoming, j) ::
      Blanked(incoming, incoming[i].key) ==> Blanked(incoming, incoming[j].key)
  }

  /** The edit's first and last value for the key agree: for UNTIL, the last adds nothing to the first. */
  predicate AgreesWithItself(incoming: seq<Part>, key: string) {
    var (first, last) := (FirstValue(incoming, key), Value(incoming, key));
    if key == "UNTIL" then MergeUntil(first, last) == first else first == last
  }

  /** So they do for every key that the rule does not have yet; the interval is taken from the last value anyway. */
  ghost predicate NewKeysAgree(existing: seq<Part>, incoming: seq<Part>) {
    forall i | 0 <= i < |incoming| && incoming[i].key != "INTERVAL" && !Mentions(existing, incoming[i].key) ::
      Blanked(incoming, incoming[i].key) || AgreesWithItself(incoming, incoming[i].key)
  }

  // ----- the rule's own parts, then the added ones -----

  function Front(existing: seq<Part>, incoming: seq<Part>): seq<Part> {
    PushAll(NOTHING, FromExisting(existing, incoming)).out
  }

  function Added(existing: seq<Part>, incoming: seq<Part>, n: nat): seq<Part>
    requires n <= |incoming|
  {
    if n == 0 then []
    else if IsAdded(existing, incoming, n - 1) then
      Added(existing, incoming, n - 1) + [Incoming(incoming[n - 1], existing, incoming)]
    else Added(existing, incoming, n - 1)
  }

  lemma {:induction false} ValueIsTrimmed(parts: seq<Part>, key: string)
    requires AsParsed(parts)
    ensures Trimmed(Value(parts, key))
  {
    if parts != [] {
      ValueIsTrimmed(parts[..|parts| - 1], key);
    }
  }

  lemma MergeUntilIsEmpty(existing: string, incoming: string)
    requires Trimmed(existing) && Trimmed(incoming)
    ensures MergeUntil(existing, incoming) == "" <==> existing == "" && incoming == ""
    ensures existing == "" ==> MergeUntil(existing, incoming) == incoming
    ensures incoming == "" ==> MergeUntil(existing, incoming) == existing
  {
    TrimOfTrimmed(existing);
    TrimOfTrimmed(incoming);
    hide Trim, Trimmed;
  }

  lemma {:induction false} NoFirstNoValue(parts: seq<Part>, key: string)
    requires FirstValue(parts, key) == ""
    ensures Value(parts, key) == ""
  {
    if parts != [] {
      NoFirstNoValue(parts[..|parts| - 1], key);
    }
  }

  lemma {:induction false} FirstIsMentioned(parts: seq<Part>, key: string)
    requires FirstValue(parts, key) != ""
    ensures Mentions(parts, key)
  {
    var k := |parts| - 1;
    if FirstValue(parts[..k], key) != "" {
      FirstIsMentioned(parts[..k], key);
    }
  }

  lemma KeptOfOne(p: Part, incoming: seq<Part>, key: string)
    requires Trimmed(p.value) && AsParsed(incoming) && Mentions(incoming, key) && key != "INTERVAL"
    ensures FirstValue(Existing(p, incoming), key) != "" <==>
              p.key == key && (Value(incoming, key) != "" || (key == "UNTIL" && p.value != ""))
  {
    ValueIsTrimmed(incoming, key);
    MergeUntilIsEmpty(p.value, Value(incoming, key));
    hide AsParsed, Trimmed, Value, Mentions, MergeUntil, FirstValue;
    ExistingOffer(p, incoming, key);
    if p.key == key {
      var offers := Existing(p, incoming);
      assert offers == [offers[0]];
      OneOffer(offers[0], key);
    }
  }

  lemma KeptSnoc(existing: seq<Part>, incoming: seq<Part>, key: string)
    requires existing != []
    ensures var (front, p) := (existing[..|existing| - 1], existing[|existing| - 1]);
            Keeps(existing, incoming, key) ==
              (Keeps(front, incoming, key)
               || (p.key == key && (Value(incoming, key) != "" || (key == "UNTIL" && p.value != ""))))
  {
    if FirstValue(existing[..|existing| - 1], key) != "" {
      FirstIsMentioned(existing[..|existing| - 1], key);
    }
  }

  lemma {:induction false} KeptIff(existing: seq<Part>, incoming: seq<Part>, key: string)
    requires AsParsed(existing) && AsParsed(incoming) && Mentions(incoming, key) && key != "INTERVAL"
    ensures FirstValue(FromExisting(existing, incoming), key) != "" <==> Keeps(existing, incoming, key)
  {
    hide Existing, Value, Mentions, FirstValue, Keeps, FromExisting, Trimmed;
    if existing == [] {
      KeptOfNone(incoming, key);
    } else {
      var k := |existing| - 1;
      KeptIff(existing[..k], incoming, key);
      FromExistingSnoc(existing, incoming);
      FirstOfTwo(FromExisting(existing[..k], incoming), Existing(existing[k], incoming), key);
      KeptOfOne(existing[k], incoming, key);
      KeptSnoc(existing, incoming, key);
    }
  }

  lemma KeptOfNone(incoming: seq<Part>, key: string)
    ensures FirstValue(FromExisting([], incoming), key) == "" && !Keeps([], incoming, key)
  {
  }

  // which offers of the edit are taken

  lemma {:induction false} MentionsConcat(a: seq<Part>, b: seq<Part>, key: string)
    ensures Mentions(a + b, key) <==> Mentions(a, key) || Mentions(b, key)
    decreases |b|
  {
    if b == [] {
      assert a + b == a;
    } else {
      var k := |b| - 1;
      MentionsConcat(a, b[..k], key);
      MentionsSnoc(a + b[..k], b[k], key);
      assert a + b == a + b[..k] + [b[k]];
    }
  }

  lemma {:induction false} IntervalSeen(offers: seq<Part>)
    ensures "INTERVAL" in PushAll(NOTHING, offers).seen <==> Mentions(offers, "INTERVAL")
    decreases |offers|
  {
    if offers != [] {
      IntervalSeen(offers[..|offers| - 1]);
    }
  }

  lemma {:induction false} IntervalOffered(existing: seq<Part>, incoming: seq<Part>)
    ensures Mentions(FromExisting(existing, incoming), "INTERVAL") <==> Mentions(existing, "INTERVAL")
  {
    if existing != [] {
      var k := |existing| - 1;
      IntervalOffered(existing[..k], incoming);
      MentionsConcat(FromExisting(existing[..k], incoming), Existing(existing[k], incoming), "INTERVAL");
      IntervalOfOne(existing[k], incoming);
    }
  }

  lemma IntervalOfOne(p: Part, incoming: seq<Part>)
    ensures Mentions(Existing(p, incoming), "INTERVAL") <==> p.key == "INTERVAL"
  {
    var offers := Existing(p, incoming);
    if offers != [] {
      assert offers == [offers[0]] && offers[0].key == p.key;
      assert [offers[0]][..0] == [];
    }
  }

  lemma {:induction false} SameKeys(existing: seq<Part>, incoming: seq<Part>, n: nat, key: string)
    requires n <= |incoming|
    ensures Mentions(FromIncoming(incoming, existing, incoming)[..n], key) <==> Mentions(incoming[..n], key)
  {
    if n > 0 {
      SameKeys(existing, incoming, n - 1, key);
      OneMore(FromIncoming(incoming, existing, incoming), n - 1);
      OneMore(incoming, n - 1);
    }
  }

  lemma OneMore(parts: seq<Part>, n: nat)
    requires n < |parts|
    ensures parts[..n + 1] != [] && parts[..n + 1][..n] == parts[..n] && parts[..n + 1][n] == parts[n]
  {
  }

  lemma FirstSnoc(parts: seq<Part>, n: nat, key: string)
    requires n < |parts|
    ensures FirstValue(parts[..n + 1], key) ==
            if FirstValue(parts[..n], key) == "" && parts[n].key == key then parts[n].value else FirstValue(parts[..n], key)
  {
    OneMore(parts, n);
  }

  lemma FirstOfNone(parts: seq<Part>, key: string)
    ensures FirstValue(parts[..0], key) == ""
  {
  }

  lemma SameOffer(existing: seq<Part>, incoming: seq<Part>, n: nat)
    requires n < |incoming| && AsParsed(incoming) && incoming[n].key != "INTERVAL"
    requires incoming[n].key == "UNTIL" ==> Value(existing, "UNTIL") == ""
    ensures FromIncoming(incoming, existing, incoming)[n] == incoming[n]
  {
    MergeUntilIsEmpty("", incoming[n].value);
    hide MergeUntil, Value;
  }

  lemma {:induction false} SameFirst(existing: seq<Part>, incoming: seq<Part>, n: nat, key: string)
    requires n <= |incoming| && AsParsed(incoming) && key != "INTERVAL"
    requires key == "UNTIL" ==> Value(existing, "UNTIL") == ""
    ensures FirstValue(FromIncoming(incoming, existing, incoming)[..n], key) == FirstValue(incoming[..n], key)
  {
    hide FirstValue, FromIncoming, Value, AsParsed;
    var offers := FromIncoming(incoming, existing, incoming);
    if n == 0 {
      FirstOfNone(offers, key);
      FirstOfNone(incoming, key);
    } else {
      SameFirst(existing, incoming, n - 1, key);
      FirstSnoc(offers, n - 1, key);
      FirstSnoc(incoming, n - 1, key);
      SameKey(existing, incoming, n - 1);
      if incoming[n - 1].key == key {
        SameOffer(existing, incoming, n - 1);
      }
    }
  }

  lemma SameKey(existing: seq<Part>, incoming: seq<Part>, n: nat)
    requires n < |incoming|
    ensures FromIncoming(incoming, existing, incoming)[n].key == incoming[n].key
  {
  }

  /** A key the rule has no value for is offered as the edit has it. */
  lemma NotKept(existing: seq<Part>, incoming: seq<Part>, key: string)
    requires Mentions(incoming, key) && !Keeps(existing, incoming, key) && key == "UNTIL"
    ensures Value(existing, "UNTIL") == ""
  {
    if Mentions(existing, key) {
      NoFirstNoValue(existing, key);
    } else {
      NotMentioned(existing, key);
    }
  }

  function Before(existing: seq<Part>, incoming: seq<Part>, n: nat): seq<Part>
    requires n <= |incoming|
  {
    FromExisting(existing, incoming) + FromIncoming(incoming, existing, incoming)[..n]
  }

  lemma SeenIff(existing: seq<Part>, incoming: seq<Part>, n: nat)
    requires AsParsed(existing) && AsParsed(incoming) && n < |incoming| && incoming[n].key != "INTERVAL"
    ensures var key := incoming[n].key;
            key in PushAll(NOTHING, Before(existing, incoming, n)).seen <==>
              Keeps(existing, incoming, key) || FirstValue(incoming[..n], key) != ""
  {
    hide Mentions, Value, FirstValue, PushAll, FromExisting, FromIncoming, Keeps, Coherent, Trimmed;
    var key := incoming[n].key;
    var offers := Before(existing, incoming, n);
    FirstIsTaken(offers, key);
    EmptyIsCoherent();
    PushAllIsCoherent(NOTHING, offers);
    SeenIsMentioned(PushAll(NOTHING, offers), key);
    FirstOfTwo(FromExisting(existing, incoming), FromIncoming(incoming, existing, incoming)[..n], key);
    MentionsAt(incoming, n);
    KeptIff(existing, incoming, key);
    if !Keeps(existing, incoming, key) {
      if key == "UNTIL" {
        NotKept(existing, incoming, key);
      }
      SameFirst(existing, incoming, n, key);
    }
  }

  lemma EmptyIsCoherent()
    ensures Coherent(NOTHING)
  {
  }

  lemma IntervalSeenIff(existing: seq<Part>, incoming: seq<Part>, n: nat)
    requires n <= |incoming|
    ensures "INTERVAL" in PushAll(NOTHING, Before(existing, incoming, n)).seen <==>
              Mentions(existing, "INTERVAL") || Mentions(incoming[..n], "INTERVAL")
  {
    hide Mentions, PushAll, FromExisting, FromIncoming;
    IntervalSeen(Before(existing, incoming, n));
    MentionsConcat(FromExisting(existing, incoming), FromIncoming(incoming, existing, incoming)[..n], "INTERVAL");
    IntervalOffered(existing, incoming);
    SameKeys(existing, incoming, n, "INTERVAL");
  }

  lemma BeforeSnoc(existing: seq<Part>, incoming: seq<Part>, n: nat)
    requires n < |incoming|
    ensures PushAll(NOTHING, Before(existing, incoming, n + 1)) ==
            Push(PushAll(NOTHING, Before(existing, incoming, n)), Incoming(incoming[n], existing, incoming))
  {
    hide PushAll, Push, FromExisting, Incoming;
    var offer := Incoming(incoming[n], existing, incoming);
    assert Before(existing, incoming, n + 1) == Before(existing, incoming, n) + [offer];
    PushAllConcat(NOTHING, Before(existing, incoming, n), [offer]);
    PushOne(PushAll(NOTHING, Before(existing, incoming, n)), offer);
  }

  /** The edit's parts are taken exactly if they are added in the sense above. */
  lemma TakenIffAdded(existing: seq<Part>, incoming: seq<Part>, n: nat)
    requires AsParsed(existing) && AsParsed(incoming) && n < |incoming|
    ensures var before := PushAll(NOTHING, Before(existing, incoming, n));
            var offer := Incoming(incoming[n], existing, incoming);
            Push(before, offer).out == if IsAdded(existing, incoming, n) then before.out + [offer] else before.out
  {
    hide Mentions, Value, FirstValue, PushAll, FromExisting, FromIncoming, Keeps, Trimmed, MergeUntil;
    if incoming[n].key == "INTERVAL" {
      IntervalSeenIff(existing, incoming, n);
    } else {
      SeenIff(existing, incoming, n);
      NotKeptOffer(existing, incoming, n);
    }
  }

  lemma NotKeptOffer(existing: seq<Part>, incoming: seq<Part>, n: nat)
    requires AsParsed(incoming) && n < |incoming| && incoming[n].key != "INTERVAL"
    ensures Keeps(existing, incoming, incoming[n].key) || Incoming(incoming[n], existing, incoming) == incoming[n]
  {
    hide Mentions, Value, FirstValue, Keeps, MergeUntil;
    if incoming[n].key == "UNTIL" && !Keeps(existing, incoming, "UNTIL") {
      MentionsAt(incoming, n);
      NotKept(existing, incoming, "UNTIL");
      MergeUntilIsEmpty("", incoming[n].value);
    }
  }

  lemma {:induction false} TakenUpTo(existing: seq<Part>, incoming: seq<Part>, n: nat)
    requires AsParsed(existing) && AsParsed(incoming) && n <= |incoming|
    ensures PushAll(NOTHING, Before(existing, incoming, n)).out == Front(existing, incoming) + Added(existing, incoming, n)
  {
    hide *;
    if n == 0 {
      NothingBefore(existing, incoming);
    } else {
      TakenUpTo(existing, incoming, n - 1);
      BeforeSnoc(existing, incoming, n - 1);
      TakenIffAdded(existing, incoming, n - 1);
      AddedSnoc(existing, incoming, n - 1);
    }
  }

  lemma AddedSnoc(existing: seq<Part>, incoming: seq<Part>, n: nat)
    requires n < |incoming|
    ensures Added(existing, incoming, n + 1) ==
            Added(existing, incoming, n)
            + if IsAdded(existing, incoming, n) then [Incoming(incoming[n], existing, incoming)] else []
  {
    hide IsAdded, Incoming;
  }

  lemma NothingBefore(existing: seq<Part>, incoming: seq<Part>)
    ensures PushAll(NOTHING, Before(existing, incoming, 0)).out == Front(existing, incoming) + Added(existing, incoming, 0)
  {
    assert Before(existing, incoming, 0) == FromExisting(existing, incoming);
  }

  /** The merged rule is what the rule's own parts yield, followed by the added parts of the edit. */
  lemma MergedInTwo(existing: seq<Part>, incoming: seq<Part>)
    requires AsParsed(existing) && AsParsed(incoming)
    ensures MergeParts(existing, incoming) == Front(existing, incoming) + Added(existing, incoming, |incoming|)
  {
    hide PushAll, FromExisting, FromIncoming, Added, Front, Mentions, Value;
    var last := Part("INTERVAL", Interval(incoming));
    var before := Before(existing, incoming, |incoming|);
    TakenUpTo(existing, incoming, |incoming|);
    assert Offers(existing, incoming) == before + [last];
    PushAllConcat(NOTHING, before, [last]);
    PushOne(PushAll(NOTHING, before), last);
    IntervalSeenIff(existing, incoming, |incoming|);
    IntervalIsMentioned(incoming);
    assert incoming[..|incoming|] == incoming;
  }

  lemma IntervalIsMentioned(incoming: seq<Part>)
    ensures Interval(incoming) == "1" || Mentions(incoming, "INTERVAL")
  {
    if !Mentions(incoming, "INTERVAL") {
      NotMentioned(incoming, "INTERVAL");
    }
  }

  // ----- the merged rule -----

  lemma {:induction false} OfferedIsParsed(existing: seq<Part>, incoming: seq<Part>)
    requires AsParsed(existing) && AsParsed(incoming)
    ensures AsParsed(FromExisting(existing, incoming))
  {
    if existing != [] {
      OfferedIsParsed(existing[..|existing| - 1], incoming);
      OneOfferIsParsed(existing[|existing| - 1], incoming);
    }
  }

  lemma OneOfferIsParsed(p: Part, incoming: seq<Part>)
    requires p.key != "" && Trimmed(p.value) && AsParsed(incoming)
    ensures AsParsed(Existing(p, incoming))
  {
    ValueIsTrimmed(incoming, p.key);
    MergeUntilTwice(p.value, Value(incoming, "UNTIL"));
    hide Value, Mentions, MergeUntil;
  }

  lemma OffersAreParsed(existing: seq<Part>, incoming: seq<Part>)
    requires AsParsed(existing) && AsParsed(incoming)
    ensures AsParsed(Offers(existing, incoming))
  {
    OfferedIsParsed(existing, incoming);
    ValueIsTrimmed(incoming, "INTERVAL");
    assert Trimmed(Interval(incoming));
    hide Value, Mentions, MergeUntil, Trimmed, FromExisting, Interval;
    forall i | 0 <= i < |incoming|
      ensures Trimmed(Incoming(incoming[i], existing, incoming).value)
    {
      MergeUntilTwice(Value(existing, "UNTIL"), incoming[i].value);
    }
  }

  lemma MergedIsParsed(existing: seq<Part>, incoming: seq<Part>)
    requires AsParsed(existing) && AsParsed(incoming)
    ensures AsParsed(MergeParts(existing, incoming))
  {
    OffersAreParsed(existing, incoming);
    EmptyIsCoherent();
    PushAllIsCoherent(NOTHING, Offers(existing, incoming));
    hide Offers, PushAll, Coherent, Trimmed;
    var merged := MergeParts(existing, incoming);
    forall i | 0 <= i < |merged| ensures merged[i].key != "" && Trimmed(merged[i].value) {
      assert merged[i] in Offers(existing, incoming);
    }
  }

  /** A key for which the edit has a value is in the merged rule. */
  lemma EditedIsIn(existing: seq<Part>, incoming: seq<Part>, key: string)
    requires AsParsed(existing) && AsParsed(incoming) && key !in {"", "INTERVAL"} && Mentions(incoming, key)
    ensures Mentions(MergeParts(existing, incoming), key) <==> Keeps(existing, incoming, key) || FirstValue(incoming, key) != ""
    ensures !Keeps(existing, incoming, key) ==> Value(MergeParts(existing, incoming), key) == FirstValue(incoming, key)
  {
    hide Mentions, Value, FirstValue, MergeParts, Keeps, AsParsed, FromExisting;
    TakenFrom(existing, incoming, key);
    KeptIff(existing, incoming, key);
    if !Keeps(existing, incoming, key) {
      if key == "UNTIL" {
        NotKept(existing, incoming, key);
      }
      SameFirst(existing, incoming, |incoming|, key);
      assert incoming[..|incoming|] == incoming;
      assert FromIncoming(incoming, existing, incoming)[..|incoming|] == FromIncoming(incoming, existing, incoming);
    }
  }

  /** A part whose key is blanked, or that offers something the next time. */
  predicate Live(p: Part, incoming: seq<Part>) {
    || Blanked(incoming, p.key)
    || (&& |Existing(p, incoming)| == 1 && Existing(p, incoming)[0].key == p.key && Existing(p, incoming)[0].value != ""
        && (p.key == "INTERVAL" ==> Existing(p, incoming)[0].value != "1"))
  }

  lemma MergedIsLive(existing: seq<Part>, incoming: seq<Part>, i: nat)
    requires AsParsed(existing) && AsParsed(incoming) && i < |MergeParts(existing, incoming)|
    ensures Live(MergeParts(existing, incoming)[i], incoming)
  {
    var merged := MergeParts(existing, incoming);
    MergedIsClean(existing, incoming);
    assert merged[i].key != "" && merged[i].value != "" && (merged[i].key == "INTERVAL" ==> merged[i].value != "1");
    MergedIsParsed(existing, incoming);
    if merged[i].key == "INTERVAL" || !Mentions(incoming, merged[i].key) {
      OthersAreFixed(existing, incoming, i);
    } else {
      ValueIsTrimmed(incoming, merged[i].key);
      EditedStaysLive(existing, incoming, i);
    }
  }

  lemma EditedStaysLive(existing: seq<Part>, incoming: seq<Part>, i: nat)
    requires AsParsed(existing) && AsParsed(incoming) && i < |MergeParts(existing, incoming)|
    requires var p := MergeParts(existing, incoming)[i];
             && p.key !in {"", "INTERVAL"} && Mentions(incoming, p.key) && p.value != "" && Trimmed(p.value)
    ensures Live(MergeParts(existing, incoming)[i], incoming)
  {
    var p := MergeParts(existing, incoming)[i];
    ValueIsTrimmed(incoming, p.key);
    hide AsParsed, MergeParts, FirstValue, Mentions, Value, Trimmed, MergeUntil;
    MentionsAt(MergeParts(existing, incoming), i);
    EditedIsIn(existing, incoming, p.key);
    MergeUntilIsEmpty(p.value, Value(incoming, p.key));
  }

  // ----- the second merge -----

  /** The parts whose key is blanked, or those whose key is not. */
  function Chosen(parts: seq<Part>, incoming: seq<Part>, blanked: bool): seq<Part> {
    if parts == [] then []
    else
      var k := |parts| - 1;
      if Blanked(incoming, parts[k].key) == blanked then Chosen(parts[..k], incoming, blanked) + [parts[k]]
      else Chosen(parts[..k], incoming, blanked)
  }

  /** What parts that are live offer, without those whose key is blanked. */
  function Updated(parts: seq<Part>, incoming: seq<Part>): seq<Part> {
    if parts == [] then []
    else
      var k := |parts| - 1;
      if Blanked(incoming, parts[k].key) then Updated(parts[..k], incoming)
      else Updated(parts[..k], incoming) + Existing(parts[k], incoming)
  }

  ghost predicate AllLive(parts: seq<Part>, incoming: seq<Part>) {
    forall i | 0 <= i < |parts| :: Live(parts[i], incoming)
  }

  lemma {:induction false} UpdatedKeys(parts: seq<Part>, incoming: seq<Part>, key: string)
    requires AllLive(parts, incoming) && Mentions(Updated(parts, incoming), key)
    ensures Mentions(parts, key) && !Blanked(incoming, key)
  {
    hide Existing, Blanked;
    if parts != [] {
      var k := |parts| - 1;
      assert Live(parts[k], incoming);
      if Blanked(incoming, parts[k].key) {
        UpdatedKeys(parts[..k], incoming, key);
      } else {
        var offer := Existing(parts[k], incoming)[0];
        assert Updated(parts, incoming) == Updated(parts[..k], incoming) + [offer];
        MentionsSnoc(Updated(parts[..k], incoming), offer, key);
        if offer.key != key {
          UpdatedKeys(parts[..k], incoming, key);
        }
      }
    }
  }

  lemma FrontSnoc(parts: seq<Part>, incoming: seq<Part>, offer: Part)
    requires parts != [] && Existing(parts[|parts| - 1], incoming) == [offer]
    ensures PushAll(NOTHING, FromExisting(parts, incoming)) ==
            Push(PushAll(NOTHING, FromExisting(parts[..|parts| - 1], incoming)), offer)
  {
    FromExistingSnoc(parts, incoming);
    hide PushAll, Push, FromExisting, Existing;
    var front := FromExisting(parts[..|parts| - 1], incoming);
    PushAllConcat(NOTHING, front, [offer]);
    PushOne(PushAll(NOTHING, front), offer);
  }

  lemma BlankedOffer(p: Part, incoming: seq<Part>)
    requires Blanked(incoming, p.key)
    ensures Existing(p, incoming) == [Part(p.key, "")]
  {
    FirstIsMentioned(incoming, p.key);
    hide Value, Mentions, FirstValue;
  }

  /** The key of a live part is not seen before it. */
  lemma LastIsUnseen(parts: seq<Part>, incoming: seq<Part>)
    requires parts != [] && Clean(parts) && AllLive(parts, incoming)
    requires Front(parts[..|parts| - 1], incoming) == Updated(parts[..|parts| - 1], incoming)
    ensures parts[|parts| - 1].key !in PushAll(NOTHING, FromExisting(parts[..|parts| - 1], incoming)).seen
  {
    var k := |parts| - 1;
    var key := parts[k].key;
    NotMentionedBefore(parts, k);
    EmptyIsCoherent();
    assert AllLive(parts[..k], incoming);
    hide PushAll, FromExisting, Updated, Mentions, Value, Clean, AllLive, Coherent;
    var offers := FromExisting(parts[..k], incoming);
    if key == "INTERVAL" {
      IntervalSeen(offers);
      IntervalOffered(parts[..k], incoming);
    } else {
      PushAllIsCoherent(NOTHING, offers);
      SeenIsMentioned(PushAll(NOTHING, offers), key);
      if Mentions(Updated(parts[..k], incoming), key) {
        UpdatedKeys(parts[..k], incoming, key);
      }
    }
  }

  lemma FrontOfNone(incoming: seq<Part>)
    ensures Front([], incoming) == [] == Updated([], incoming)
  {
  }

  lemma UpdatedSnoc(parts: seq<Part>, incoming: seq<Part>)
    requires parts != []
    ensures var (front, p) := (parts[..|parts| - 1], parts[|parts| - 1]);
            Updated(parts, incoming) ==
              Updated(front, incoming) + if Blanked(incoming, p.key) then [] else Existing(p, incoming)
  {
  }

  lemma FrontOfClean(parts: seq<Part>)
    requires parts != [] && Clean(parts)
    ensures Clean(parts[..|parts| - 1]) && parts[|parts| - 1].key != ""
  {
  }

  lemma {:induction false} FrontIsUpdated(parts: seq<Part>, incoming: seq<Part>)
    requires Clean(parts) && AllLive(parts, incoming)
    ensures Front(parts, incoming) == Updated(parts, incoming)
  {
    hide Clean, Existing, FromExisting, Updated, PushAll, Blanked;
    if parts == [] {
      FrontOfNone(incoming);
    } else {
      var p := parts[|parts| - 1];
      FrontOfClean(parts);
      FrontIsUpdated(parts[..|parts| - 1], incoming);
      LastIsUnseen(parts, incoming);
      UpdatedSnoc(parts, incoming);
      if Blanked(incoming, p.key) {
        BlankedOffer(p, incoming);
        BlankedIsNoInterval(incoming, p.key);
        FrontSnoc(parts, incoming, Part(p.key, ""));
      } else {
        assert Live(p, incoming);
        assert Existing(p, incoming) == [Existing(p, incoming)[0]];
        FrontSnoc(parts, incoming, Existing(p, incoming)[0]);
      }
    }
  }

  lemma BlankedIsNoInterval(incoming: seq<Part>, key: string)
    requires Blanked(incoming, key)
    ensures key != "INTERVAL" && key != "UNTIL"
  {
  }

  /** The second merge adds of the edit exactly the blanked parts that the first one added. */
  lemma AddedTheSecondTime(existing: seq<Part>, incoming: seq<Part>, n: nat)
    requires AsParsed(existing) && AsParsed(incoming) && n < |incoming|
    ensures var merged := MergeParts(existing, incoming);
            IsAdded(merged, incoming, n) == (IsAdded(existing, incoming, n) && Blanked(incoming, incoming[n].key))
  {
    var merged := MergeParts(existing, incoming);
    var key := incoming[n].key;
    if key == "INTERVAL" {
      IntervalIsIn(existing, incoming);
    } else if !Blanked(incoming, key) && incoming[n].value != "" {
      assert key != "";
      MentionsAt(incoming, n);
      OfferedSomething(incoming, n);
      NotAddedAgain(existing, incoming, key);
    }
  }

  lemma NotAddedAgain(existing: seq<Part>, incoming: seq<Part>, key: string)
    requires AsParsed(existing) && AsParsed(incoming) && key !in {"", "INTERVAL"} && Mentions(incoming, key)
    requires FirstValue(incoming, key) != "" && !Blanked(incoming, key)
    ensures Keeps(MergeParts(existing, incoming), incoming, key)
  {
    var merged := MergeParts(existing, incoming);
    EditedIsIn(existing, incoming, key);
    MergedIsClean(existing, incoming);
    hide MergeParts, AsParsed;
    assert Mentions(merged, key);
    var i := WhereMentioned(merged, key);
    OfferedSomething(merged, i);
  }

  lemma {:induction false} AddedAgain(existing: seq<Part>, incoming: seq<Part>, n: nat)
    requires AsParsed(existing) && AsParsed(incoming) && n <= |incoming|
    ensures Added(MergeParts(existing, incoming), incoming, n) == Chosen(Added(existing, incoming, n), incoming, true)
  {
    hide MergeParts, IsAdded, Blanked, AsParsed;
    if n > 0 {
      AddedAgain(existing, incoming, n - 1);
      AddedTheSecondTime(existing, incoming, n - 1);
      if IsAdded(existing, incoming, n - 1) {
        var offer := Incoming(incoming[n - 1], existing, incoming);
        ChosenSnoc(Added(existing, incoming, n - 1), offer, incoming, true);
        if Blanked(incoming, offer.key) {
          BlankedIsNoInterval(incoming, offer.key);
        }
      }
    }
  }

  lemma ChosenSnoc(parts: seq<Part>, p: Part, incoming: seq<Part>, blanked: bool)
    ensures Chosen(parts + [p], incoming, blanked) ==
            Chosen(parts, incoming, blanked) + if Blanked(incoming, p.key) == blanked then [p] else []
  {
    assert (parts + [p])[..|parts|] == parts;
  }

  lemma {:induction false} ChosenConcat(a: seq<Part>, b: seq<Part>, incoming: seq<Part>, blanked: bool)
    ensures Chosen(a + b, incoming, blanked) == Chosen(a, incoming, blanked) + Chosen(b, incoming, blanked)
    decreases |b|
  {
    hide Blanked;
    if b == [] {
      assert a + b == a;
    } else {
      var k := |b| - 1;
      ChosenConcat(a, b[..k], incoming, blanked);
      ChosenSnoc(a + b[..k], b[k], incoming, blanked);
      assert a + b == a + b[..k] + [b[k]];
    }
  }

  /** The rule's own parts offer nothing for a blanked key. */
  lemma NoBlankedInFront(existing: seq<Part>, incoming: seq<Part>, key: string)
    requires AsParsed(existing) && AsParsed(incoming) && key != "" && Blanked(incoming, key)
    ensures !Mentions(Front(existing, incoming), key)
  {
    FirstIsMentioned(incoming, key);
    hide Mentions, FirstValue, Value, PushAll, FromExisting;
    KeptIff(existing, incoming, key);
    FirstIsTaken(FromExisting(existing, incoming), key);
  }

  ghost predicate NoneBlanked(parts: seq<Part>, incoming: seq<Part>) {
    forall i | 0 <= i < |parts| :: !Blanked(incoming, parts[i].key)
  }

  lemma {:induction false} NoneIsChosen(parts: seq<Part>, incoming: seq<Part>)
    requires NoneBlanked(parts, incoming)
    ensures Chosen(parts, incoming, true) == []
  {
    hide Blanked;
    if parts != [] {
      NoneIsChosen(parts[..|parts| - 1], incoming);
    }
  }

  lemma FrontHasNoneBlanked(existing: seq<Part>, incoming: seq<Part>)
    requires AsParsed(existing) && AsParsed(incoming)
    ensures NoneBlanked(Front(existing, incoming), incoming)
  {
    var offers := FromExisting(existing, incoming);
    EmptyIsCoherent();
    PushAllIsCoherent(NOTHING, offers);
    hide PushAll, FromExisting, Mentions, Blanked, AsParsed;
    var front := Front(existing, incoming);
    forall i | 0 <= i < |front| ensures !Blanked(incoming, front[i].key) {
      MentionsAt(front, i);
      if Blanked(incoming, front[i].key) {
        NoBlankedInFront(existing, incoming, front[i].key);
      }
    }
  }

  lemma MergedIsAllLive(existing: seq<Part>, incoming: seq<Part>)
    requires AsParsed(existing) && AsParsed(incoming)
    ensures AllLive(MergeParts(existing, incoming), incoming)
  {
    hide AsParsed, MergeParts, Live;
    forall i | 0 <= i < |MergeParts(existing, incoming)| ensures Live(MergeParts(existing, incoming)[i], incoming) {
      MergedIsLive(existing, incoming, i);
    }
  }

  lemma ChosenOfMerged(existing: seq<Part>, incoming: seq<Part>)
    requires AsParsed(existing) && AsParsed(incoming)
    ensures Chosen(MergeParts(existing, incoming), incoming, true) == Chosen(Added(existing, incoming, |incoming|), incoming, true)
  {
    hide *;
    MergedInTwo(existing, incoming);
    FrontHasNoneBlanked(existing, incoming);
    NoneIsChosen(Front(existing, incoming), incoming);
    ChosenConcat(Front(existing, incoming), Added(existing, incoming, |incoming|), incoming, true);
  }

  /** The second merge yields the updated parts and then those whose key is blanked. */
  lemma SecondMerge(existing: seq<Part>, incoming: seq<Part>)
    requires AsParsed(existing) && AsParsed(incoming)
    ensures var merged := MergeParts(existing, incoming);
            MergeParts(merged, incoming) == Updated(merged, incoming) + Chosen(merged, incoming, true)
  {
    hide *;
    var merged := MergeParts(existing, incoming);
    MergedIsParsed(existing, incoming);
    MergedIsClean(existing, incoming);
    MergedIsAllLive(existing, incoming);
    FrontIsUpdated(merged, incoming);
    MergedInTwo(merged, incoming);
    AddedAgain(existing, incoming, |incoming|);
    ChosenOfMerged(existing, incoming);
  }

  // ----- the order of the parts -----

  ghost predicate InOrder(parts: seq<Part>, incoming: seq<Part>) {
    forall i, j | 0 <= i < j < |parts| :: Blanked(incoming, parts[i].key) ==> Blanked(incoming, parts[j].key)
  }

  lemma OrderSnoc(parts: seq<Part>, p: Part, incoming: seq<Part>)
    ensures InOrder(parts + [p], incoming) <==>
              InOrder(parts, incoming) && (Blanked(incoming, p.key) || NoneBlanked(parts, incoming))
  {
    hide Blanked;
    var all := parts + [p];
    if InOrder(all, incoming) {
      forall i, j | 0 <= i < j < |parts| && Blanked(incoming, parts[i].key) ensures Blanked(incoming, parts[j].key) {
        assert all[i] == parts[i] && all[j] == parts[j];
      }
      forall i | 0 <= i < |parts| && Blanked(incoming, parts[i].key) ensures Blanked(incoming, p.key) {
        assert all[i] == parts[i] && all[|parts|] == p;
      }
    }
  }

  lemma OrderAfterNone(a: seq<Part>, b: seq<Part>, incoming: seq<Part>)
    requires NoneBlanked(a, incoming)
    ensures InOrder(a + b, incoming) <==> InOrder(b, incoming)
  {
    hide Blanked;
    if InOrder(a + b, incoming) {
      forall i, j | 0 <= i < j < |b| && Blanked(incoming, b[i].key) ensures Blanked(incoming, b[j].key) {
        assert (a + b)[|a| + i] == b[i] && (a + b)[|a| + j] == b[j];
      }
    }
  }

  lemma {:induction false} OrderedIsSplit(parts: seq<Part>, incoming: seq<Part>)
    requires InOrder(parts, incoming)
    ensures parts == Chosen(parts, incoming, false) + Chosen(parts, incoming, true)
  {
    hide Blanked;
    if parts != [] {
      var k := |parts| - 1;
      assert parts == parts[..k] + [parts[k]];
      OrderSnoc(parts[..k], parts[k], incoming);
      OrderedIsSplit(parts[..k], incoming);
      if !Blanked(incoming, parts[k].key) {
        NoneIsChosen(parts[..k], incoming);
      }
    }
  }

  lemma {:induction false} ChosenAreBlanked(parts: seq<Part>, incoming: seq<Part>, i: nat)
    requires i < |Chosen(parts, incoming, true)|
    ensures Blanked(incoming, Chosen(parts, incoming, true)[i].key)
  {
    hide Blanked;
    if i < |Chosen(parts[..|parts| - 1], incoming, true)| {
      ChosenAreBlanked(parts[..|parts| - 1], incoming, i);
    }
  }

  lemma UpdatedThenBlanked(parts: seq<Part>, incoming: seq<Part>)
    requires AllLive(parts, incoming)
    ensures InOrder(Updated(parts, incoming) + Chosen(parts, incoming, true), incoming)
  {
    hide Blanked, AllLive, Mentions, Updated, Chosen;
    var (front, rest) := (Updated(parts, incoming), Chosen(parts, incoming, true));
    forall i | 0 <= i < |front| ensures !Blanked(incoming, front[i].key) {
      MentionsAt(front, i);
      UpdatedKeys(parts, incoming, front[i].key);
    }
    forall i | 0 <= i < |rest| ensures Blanked(incoming, rest[i].key) {
      ChosenAreBlanked(parts, incoming, i);
    }
    OrderAfterNone(front, rest, incoming);
  }

  /** The parts added up to here whose key is not blanked. */
  ghost predicate NoneAddedIsBlanked(existing: seq<Part>, incoming: seq<Part>, n: nat)
    requires n <= |incoming|
  {
    forall i | 0 <= i < n && IsAdded(existing, incoming, i) :: !Blanked(incoming, incoming[i].key)
  }

  lemma NoneBlankedSnoc(parts: seq<Part>, p: Part, incoming: seq<Part>)
    ensures NoneBlanked(parts + [p], incoming) <==> NoneBlanked(parts, incoming) && !Blanked(incoming, p.key)
  {
    hide Blanked;
    if NoneBlanked(parts + [p], incoming) {
      assert (parts + [p])[|parts|] == p;
      forall i | 0 <= i < |parts| ensures !Blanked(incoming, parts[i].key) {
        assert (parts + [p])[i] == parts[i];
      }
    }
  }

  lemma {:induction false} NoneBlankedInAdded(existing: seq<Part>, incoming: seq<Part>, n: nat)
    requires n <= |incoming|
    ensures NoneBlanked(Added(existing, incoming, n), incoming) <==> NoneAddedIsBlanked(existing, incoming, n)
  {
    hide Blanked, IsAdded, NoneBlanked;
    if n == 0 {
      NoneOfNone(incoming);
    } else {
      NoneBlankedInAdded(existing, incoming, n - 1);
      NoneBlankedSnoc(Added(existing, incoming, n - 1), Incoming(incoming[n - 1], existing, incoming), incoming);
    }
  }

  lemma NoneOfNone(incoming: seq<Part>)
    ensures NoneBlanked([], incoming) && InOrder([], incoming)
  {
  }

  ghost predicate BlankedAreLastUpTo(existing: seq<Part>, incoming: seq<Part>, n: nat)
    requires n <= |incoming|
  {
    forall i, j | 0 <= i < j < n && IsAdded(existing, incoming, i) && IsAdded(existing, incoming, j) ::
      Blanked(incoming, incoming[i].key) ==> Blanked(incoming, incoming[j].key)
  }

  lemma {:induction false} OrderOfAdded(existing: seq<Part>, incoming: seq<Part>, n: nat)
    requires n <= |incoming|
    ensures InOrder(Added(existing, incoming, n), incoming) <==> BlankedAreLastUpTo(existing, incoming, n)
  {
    hide Blanked, IsAdded, InOrder, NoneBlanked;
    if n == 0 {
      NoneOfNone(incoming);
    } else {
      OrderOfAdded(existing, incoming, n - 1);
      NoneBlankedInAdded(existing, incoming, n - 1);
      OrderSnoc(Added(existing, incoming, n - 1), Incoming(incoming[n - 1], existing, incoming), incoming);
    }
  }

  /** The merged rule has its blanked keys last exactly if the added parts have. */
  lemma OrderOfMerged(existing: seq<Part>, incoming: seq<Part>)
    requires AsParsed(existing) && AsParsed(incoming)
    ensures InOrder(MergeParts(existing, incoming), incoming) <==> BlankedAreLast(existing, incoming)
  {
    hide MergeParts, Front, Added, InOrder, NoneBlanked, AsParsed, IsAdded, Blanked;
    MergedInTwo(existing, incoming);
    FrontHasNoneBlanked(existing, incoming);
    OrderAfterNone(Front(existing, incoming), Added(existing, incoming, |incoming|), incoming);
    OrderOfAdded(existing, incoming, |incoming|);
  }

  // ----- the values of the parts -----

  ghost predicate UnblankedAreFixed(parts: seq<Part>, incoming: seq<Part>) {
    forall i | 0 <= i < |parts| :: Blanked(incoming, parts[i].key) || Fixed(parts[i], incoming)
  }

  lemma {:induction false} FixedAreKept(parts: seq<Part>, incoming: seq<Part>)
    requires UnblankedAreFixed(parts, incoming)
    ensures Updated(parts, incoming) == Chosen(parts, incoming, false)
  {
    hide Blanked, Existing;
    if parts != [] {
      FixedAreKept(parts[..|parts| - 1], incoming);
      assert Blanked(incoming, parts[|parts| - 1].key) || Fixed(parts[|parts| - 1], incoming);
    }
  }

  lemma FixedOfEdited(incoming: seq<Part>, key: string, v: string)
    requires Mentions(incoming, key) && key != "INTERVAL"
    ensures Fixed(Part(key, v), incoming) <==>
              if key == "UNTIL" then MergeUntil(v, Value(incoming, key)) == v else Value(incoming, key) == v
  {
    hide Mentions, Value, MergeUntil;
  }

  /** Where the key is not blanked, the merged rule's value is fixed exactly if the rule had the key or the edit agrees with itself. */
  lemma TakenIsFixed(existing: seq<Part>, incoming: seq<Part>, key: string)
    requires AsParsed(existing) && AsParsed(incoming) && key !in {"", "INTERVAL"} && Mentions(incoming, key)
    requires !Blanked(incoming, key) && Mentions(MergeParts(existing, incoming), key)
    ensures Fixed(Part(key, Value(MergeParts(existing, incoming), key)), incoming) <==>
              Mentions(existing, key) || AgreesWithItself(incoming, key)
  {
    var v := Value(MergeParts(existing, incoming), key);
    ValueIsTrimmed(incoming, key);
    MergedIsParsed(existing, incoming);
    ValueIsTrimmed(MergeParts(existing, incoming), key);
    MergeUntilIsEmpty(v, Value(incoming, key));
    FixedOfEdited(incoming, key, v);
    hide Mentions, Value, FirstValue, MergeParts, AsParsed, Trimmed, MergeUntil, FromExisting, Existing, Fixed;
    EditedIsIn(existing, incoming, key);
    if Keeps(existing, incoming, key) {
      TakenFrom(existing, incoming, key);
      KeptIff(existing, incoming, key);
      FirstValueIsOffered(FromExisting(existing, incoming), key);
      ExistingOffersAreFixed(existing, incoming, Part(key, v));
    }
  }

  /** For a key that the merged rule lacks the edit has nothing to say. */
  lemma LackedAgrees(existing: seq<Part>, incoming: seq<Part>, key: string)
    requires AsParsed(existing) && AsParsed(incoming) && key !in {"", "INTERVAL"} && Mentions(incoming, key)
    requires !Mentions(MergeParts(existing, incoming), key)
    ensures AgreesWithItself(incoming, key)
  {
    MergeUntilIsEmpty("", "");
    hide Mentions, Value, FirstValue, MergeParts, AsParsed, MergeUntil;
    EditedIsIn(existing, incoming, key);
    NoFirstNoValue(incoming, key);
  }

  lemma FixedIff(existing: seq<Part>, incoming: seq<Part>)
    requires AsParsed(existing) && AsParsed(incoming)
    ensures UnblankedAreFixed(MergeParts(existing, incoming), incoming) <==> NewKeysAgree(existing, incoming)
  {
    var merged := MergeParts(existing, incoming);
    assert forall i | 0 <= i < |incoming| :: incoming[i].key != "";
    MergedIsClean(existing, incoming);
    assert forall i | 0 <= i < |merged| :: merged[i].key != "";
    hide Mentions, Value, MergeParts, AsParsed, Clean, Fixed, Blanked, AgreesWithItself;
    if NewKeysAgree(existing, incoming) {
      forall i | 0 <= i < |merged| ensures Blanked(incoming, merged[i].key) || Fixed(merged[i], incoming) {
        AgreeingIsFixed(existing, incoming, i);
      }
    }
    if UnblankedAreFixed(merged, incoming) {
      forall i | 0 <= i < |incoming| && incoming[i].key != "INTERVAL" && !Mentions(existing, incoming[i].key)
        ensures Blanked(incoming, incoming[i].key) || AgreesWithItself(incoming, incoming[i].key)
      {
        FixedAgrees(existing, incoming, incoming[i].key, i);
      }
    }
  }

  lemma AgreeingIsFixed(existing: seq<Part>, incoming: seq<Part>, i: nat)
    requires AsParsed(existing) && AsParsed(incoming) && NewKeysAgree(existing, incoming)
    requires i < |MergeParts(existing, incoming)| && MergeParts(existing, incoming)[i].key != ""
    ensures var p := MergeParts(existing, incoming)[i]; Blanked(incoming, p.key) || Fixed(p, incoming)
  {
    hide Mentions, Value, MergeParts, AsParsed, Clean, Fixed, Blanked, AgreesWithItself;
    var merged := MergeParts(existing, incoming);
    var key := merged[i].key;
    if key == "INTERVAL" || !Mentions(incoming, key) {
      OthersAreFixed(existing, incoming, i);
    } else if !Blanked(incoming, key) {
      MergedIsClean(existing, incoming);
      ValueOfClean(merged, i);
      TakenIsFixed(existing, incoming, key);
      var k := WhereMentioned(incoming, key);
      assert incoming[k].key == key;
    }
  }

  lemma FixedAgrees(existing: seq<Part>, incoming: seq<Part>, key: string, k: nat)
    requires AsParsed(existing) && AsParsed(incoming) && UnblankedAreFixed(MergeParts(existing, incoming), incoming)
    requires k < |incoming| && incoming[k].key == key && key !in {"", "INTERVAL"} && !Mentions(existing, key)
    ensures Blanked(incoming, key) || AgreesWithItself(incoming, key)
  {
    hide Mentions, Value, MergeParts, AsParsed, Clean, Fixed, Blanked, AgreesWithItself;
    var merged := MergeParts(existing, incoming);
    MentionsAt(incoming, k);
    if !Mentions(merged, key) {
      LackedAgrees(existing, incoming, key);
    } else if !Blanked(incoming, key) {
      var i := WhereMentioned(merged, key);
      assert Blanked(incoming, merged[i].key) || Fixed(merged[i], incoming);
      TakenIsFixed(existing, incoming, key);
    }
  }

  /** If the updated parts are the ones not blanked, each of them is fixed. */
  lemma {:induction false} UpdatedIsFixed(parts: seq<Part>, incoming: seq<Part>)
    requires AllLive(parts, incoming) && Updated(parts, incoming) == Chosen(parts, incoming, false)
    ensures UnblankedAreFixed(parts, incoming)
  {
    hide Blanked, Existing;
    if parts != [] {
      var k := |parts| - 1;
      var p := parts[k];
      assert Live(p, incoming);
      if Blanked(incoming, p.key) {
        UpdatedIsFixed(parts[..k], incoming);
      } else {
        var offer := Existing(p, incoming)[0];
        SameLast(Updated(parts[..k], incoming), offer, Chosen(parts[..k], incoming, false), p);
        UpdatedIsFixed(parts[..k], incoming);
        assert Fixed(p, incoming);
      }
      forall i | 0 <= i < |parts| ensures Blanked(incoming, parts[i].key) || Fixed(parts[i], incoming) {
        if i < k {
          assert parts[..k][i] == parts[i];
        }
      }
    }
  }

  lemma SameLast<T>(a: seq<T>, x: T, b: seq<T>, y: T)
    requires a + [x] == b + [y]
    ensures a == b && x == y
  {
    assert (a + [x])[..|a|] == a && (b + [y])[..|b|] == b;
    assert (a + [x])[|a|] == x && (b + [y])[|b|] == y;
  }

  lemma SameFront<T>(a: seq<T>, b: seq<T>, c: seq<T>)
    requires a + c == b + c
    ensures a == b
  {
    assert |a| == |b|;
    assert (a + c)[..|a|] == a && (b + c)[..|b|] == b;
  }

  /**
    Merging an edit a second time changes nothing exactly when the edit's first and last values agree
    for every key that the rule does not have, unless the last is empty, and when of the parts it
    adds those whose last value is empty come after the others.
   */
  lemma MergePartsTwiceIff(existing: seq<Part>, incoming: seq<Part>)
    requires AsParsed(existing) && AsParsed(incoming)
    ensures MergeParts(MergeParts(existing, incoming), incoming) == MergeParts(existing, incoming) <==>
              NewKeysAgree(existing, incoming) && BlankedAreLast(existing, incoming)
  {
    hide *;
    var merged := MergeParts(existing, incoming);
    SecondMerge(existing, incoming);
    OrderOfMerged(existing, incoming);
    FixedIff(existing, incoming);
    MergedIsAllLive(existing, incoming);
    UpdatedThenBlanked(merged, incoming);
    if InOrder(merged, incoming) {
      OrderedIsSplit(merged, incoming);
      if UnblankedAreFixed(merged, incoming) {
        FixedAreKept(merged, incoming);
      } else if MergeParts(merged, incoming) == merged {
        SameFront(Updated(merged, incoming), Chosen(merged, incoming, false), Chosen(merged, incoming, true));
        UpdatedIsFixed(merged, incoming);
        assert false;
      }
    }
  }

  const DAILY := [Part("FREQ", "DAILY")]
  const TAKEN_AWAY := [Part("FREQ", "DAILY"), Part("X", "1"), Part("Y", "2"), Part("X", "")]

  /** An edit that gives X a value and takes it away again moves X behind Y with the second merge. */
  lemma BlankedKeyMoves()
    ensures var once := MergeParts(DAILY, TAKEN_AWAY);
            && NewKeysAgree(DAILY, TAKEN_AWAY) && MergeParts(once, TAKEN_AWAY) != once
  {
    TakenAwayValues();
    hide MergeParts, Value, FirstValue, Mentions, MergeUntil;
    assert IsAdded(DAILY, TAKEN_AWAY, 1) && IsAdded(DAILY, TAKEN_AWAY, 2);
    MergePartsTwiceIff(DAILY, TAKEN_AWAY);
  }

  lemma TakenAwayValues()
    ensures var none := TAKEN_AWAY[..1];
            && FirstValue(none, "X") == "" == FirstValue(TAKEN_AWAY[..2], "Y") && Mentions(DAILY, "FREQ")
            && !Mentions(DAILY, "X") && !Mentions(DAILY, "Y")
    ensures FirstValue(TAKEN_AWAY, "X") == "1" && Value(TAKEN_AWAY, "X") == ""
    ensures FirstValue(TAKEN_AWAY, "Y") == "2" == Value(TAKEN_AWAY, "Y")
  {
    var one, two, three := TAKEN_AWAY[..1], TAKEN_AWAY[..2], TAKEN_AWAY[..3];
    assert one[..0] == [] && two[..1] == one && three[..2] == two && TAKEN_AWAY[..3] == three && DAILY[..0] == [];
    assert FirstValue(one, "X") == "" == FirstValue(one, "Y");
    assert FirstValue(two, "X") == "1" && FirstValue(two, "Y") == "";
    assert FirstValue(three, "X") == "1" && FirstValue(three, "Y") == "2" && Value(three, "Y") == "2";
  }
}
