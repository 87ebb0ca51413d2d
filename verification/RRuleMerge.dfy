/**
  What merging recurrence rules promises: unique keys, a text that parses back to the merged parts,
  the edit's values with the client's other parts kept, and nothing new when merged once more.
 */
module RRuleMerge {
  import opened Strings
  import opened RRule

  // ----- lists of parts -----

  lemma {:induction false} MentionsAt(parts: seq<Part>, i: nat)
    requires i < |parts|
    ensures Mentions(parts, parts[i].key)
  {
    if i < |parts| - 1 {
      MentionsAt(parts[..|parts| - 1], i);
    }
  }

  lemma {:induction false} WhereMentioned(parts: seq<Part>, key: string) returns (i: nat)
    requires Mentions(parts, key)
    ensures i < |parts| && parts[i] == Part(key, Value(parts, key))
  {
    if parts[|parts| - 1].key == key {
      i := |parts| - 1;
    } else {
      i := WhereMentioned(parts[..|parts| - 1], key);
    }
  }

  lemma {:induction false} NotMentioned(parts: seq<Part>, key: string)
    requires !Mentions(parts, key)
    ensures Value(parts, key) == "" && forall i :: 0 <= i < |parts| ==> parts[i].key != key
  {
    if parts != [] {
      NotMentioned(parts[..|parts| - 1], key);
    }
  }

  /** Equal keys have equal values; distinct keys are a case of this. */
  ghost predicate Agree(parts: seq<Part>) {
    forall i, j :: 0 <= i < |parts| && 0 <= j < |parts| && parts[i].key == parts[j].key ==> parts[i].value == parts[j].value
  }

  lemma AgreedValue(parts: seq<Part>, i: nat)
    requires Agree(parts) && i < |parts|
    ensures Mentions(parts, parts[i].key) && Value(parts, parts[i].key) == parts[i].value
  {
    MentionsAt(parts, i);
    var j := WhereMentioned(parts, parts[i].key);
  }

  // ----- what is taken -----

  /** Keys are distinct and not empty, values are not empty, and no interval of 1 is written. */
  ghost predicate Clean(parts: seq<Part>) {
    && (forall i, j :: 0 <= i < j < |parts| ==> parts[i].key != parts[j].key)
    && (forall i :: 0 <= i < |parts| ==> parts[i].key != "" && parts[i].value != "")
    && (forall i :: 0 <= i < |parts| && parts[i].key == "INTERVAL" ==> parts[i].value != "1")
  }

  ghost predicate Coherent(t: Taken) {
    && Clean(t.out)
    && (forall i :: 0 <= i < |t.out| ==> t.out[i].key in t.seen)
    && (forall k :: k in t.seen ==> k == "INTERVAL" || Mentions(t.out, k))
  }

  lemma MentionsSnoc(parts: seq<Part>, p: Part, key: string)
    ensures Mentions(parts + [p], key) <==> Mentions(parts, key) || p.key == key
    ensures Value(parts + [p], key) == if p.key == key then p.value else Value(parts, key)
  {
    assert (parts + [p])[..|parts|] == parts;
  }

  lemma PushIsCoherent(t: Taken, p: Part)
    requires Coherent(t)
    ensures Coherent(Push(t, p))
  {
    hide Mentions, Value, Clean;
    var after := Push(t, p);
    if after.out != t.out {
      CleanSnoc(t, p);
      forall k ensures Mentions(after.out, k) <==> Mentions(t.out, k) || p.key == k {
        MentionsSnoc(t.out, p, k);
      }
    }
  }

  lemma CleanSnoc(t: Taken, p: Part)
    requires Clean(t.out) && forall i :: 0 <= i < |t.out| ==> t.out[i].key in t.seen
    requires p.key !in t.seen && p.key != "" && p.value != "" && (p.key == "INTERVAL" ==> p.value != "1")
    ensures Clean(t.out + [p])
  {
  }

  lemma {:induction false} PushAllIsCoherent(t: Taken, offers: seq<Part>)
    requires Coherent(t)
    ensures Coherent(PushAll(t, offers))
    ensures forall p :: p in PushAll(t, offers).out ==> p in t.out || p in offers
    decreases |offers|
  {
    if offers != [] {
      var k := |offers| - 1;
      PushAllIsCoherent(t, offers[..k]);
      PushIsCoherent(PushAll(t, offers[..k]), offers[k]);
      assert offers == offers[..k] + [offers[k]];
    }
  }

  /** The merged rule has unique keys. */
  lemma MergedIsClean(existing: seq<Part>, incoming: seq<Part>)
    ensures Clean(MergeParts(existing, incoming))
  {
    PushAllIsCoherent(NOTHING, Offers(existing, incoming));
  }

  /** Which offer for a key is taken: the first with a value. */
  function FirstValue(offers: seq<Part>, key: string): string {
    if offers == [] then ""
    else
      var before := FirstValue(offers[..|offers| - 1], key);
      if before == "" && offers[|offers| - 1].key == key then offers[|offers| - 1].value else before
  }

  lemma {:induction false} FirstIsTaken(offers: seq<Part>, key: string)
    requires key != "" && key != "INTERVAL"
    ensures var out := PushAll(NOTHING, offers).out;
            Value(out, key) == FirstValue(offers, key) && (Mentions(out, key) <==> FirstValue(offers, key) != "")
    decreases |offers|
  {
    if offers != [] {
      var k := |offers| - 1;
      var before := PushAll(NOTHING, offers[..k]);
      FirstIsTaken(offers[..k], key);
      PushAllIsCoherent(NOTHING, offers[..k]);
      PushedValue(before, offers[k], key);
    }
  }

  /** A push gives a key its value if it had none. */
  lemma PushedValue(t: Taken, p: Part, key: string)
    requires Coherent(t) && key != "" && key != "INTERVAL"
    requires Mentions(t.out, key) <==> Value(t.out, key) != ""
    ensures var out := Push(t, p).out;
            && Value(out, key) == (if Value(t.out, key) == "" && p.key == key then p.value else Value(t.out, key))
            && (Mentions(out, key) <==> Value(out, key) != "")
  {
    SeenIsMentioned(t, key);
    MentionsSnoc(t.out, p, key);
    hide Mentions, Value, Coherent;
  }

  lemma SeenIsMentioned(t: Taken, key: string)
    requires Coherent(t) && key != "INTERVAL"
    ensures key in t.seen <==> Mentions(t.out, key)
  {
    if Mentions(t.out, key) {
      var i := WhereMentioned(t.out, key);
    }
  }

  /** All offers of an interval are the same; it is taken unless it is 1. */
  lemma {:induction false} IntervalIsTaken(offers: seq<Part>, interval: string)
    requires interval != "" && interval != "1" && Mentions(offers, "INTERVAL")
    requires forall p :: p in offers && p.key == "INTERVAL" ==> p.value == interval
    ensures Mentions(PushAll(NOTHING, offers).out, "INTERVAL")
    decreases |offers|
  {
    var k := |offers| - 1;
    assert offers == offers[..k] + [offers[k]];
    var before := PushAll(NOTHING, offers[..k]);
    MentionsSnoc(before.out, offers[k], "INTERVAL");
    if Mentions(offers[..k], "INTERVAL") {
      IntervalIsTaken(offers[..k], interval);
    } else {
      NoIntervalSeen(offers[..k]);
    }
  }

  lemma {:induction false} NoIntervalSeen(offers: seq<Part>)
    requires !Mentions(offers, "INTERVAL")
    ensures "INTERVAL" !in PushAll(NOTHING, offers).seen
    decreases |offers|
  {
    if offers != [] {
      NoIntervalSeen(offers[..|offers| - 1]);
    }
  }

  // ----- what each key gets -----

  lemma {:induction false} FirstOfTwo(a: seq<Part>, b: seq<Part>, key: string)
    ensures FirstValue(a + b, key) == if FirstValue(a, key) != "" then FirstValue(a, key) else FirstValue(b, key)
    decreases |b|
  {
    if b == [] {
      assert a + b == a;
    } else {
      var k := |b| - 1;
      FirstOfTwo(a, b[..k], key);
      assert (a + b)[..|a + b| - 1] == a + b[..k];
    }
  }

  lemma OneOffer(p: Part, key: string)
    ensures FirstValue([p], key) == if p.key == key then p.value else ""
  {
    assert [p][..0] == [];
  }

  lemma ExistingOffer(p: Part, incoming: seq<Part>, key: string)
    requires key != "INTERVAL"
    ensures var offered := FirstValue(Existing(p, incoming), key);
            && (p.key != key ==> offered == "")
            && (p.key == key && !Mentions(incoming, key) ==> offered == if key == "UNTIL" || key == "COUNT" then "" else p.value)
            && (p.key == key && Mentions(incoming, key) && key != "UNTIL" ==> offered == Value(incoming, key))
  {
    var offers := Existing(p, incoming);
    if offers != [] {
      OneOffer(offers[0], key);
      assert offers == [offers[0]];
    }
  }

  /** A key the incoming rule does not mention is offered as it stands; UNTIL and COUNT are not. */
  lemma {:induction false} OfferedAsItStands(parts: seq<Part>, incoming: seq<Part>, key: string)
    requires key != "INTERVAL" && !Mentions(incoming, key)
    ensures FirstValue(FromExisting(parts, incoming), key) ==
            if key == "UNTIL" || key == "COUNT" then "" else FirstValue(parts, key)
  {
    if parts != [] {
      hide Existing, Mentions;
      var k := |parts| - 1;
      OfferedAsItStands(parts[..k], incoming, key);
      FirstOfTwo(FromExisting(parts[..k], incoming), Existing(parts[k], incoming), key);
      ExistingOffer(parts[k], incoming, key);
    }
  }

  lemma {:induction false} NotOffered(offers: seq<Part>, key: string)
    requires forall i :: 0 <= i < |offers| ==> offers[i].key != key
    ensures FirstValue(offers, key) == ""
  {
    if offers != [] {
      NotOffered(offers[..|offers| - 1], key);
    }
  }

  /**
    A part the incoming rule does not mention is kept, the first with a value for its key; only
    INTERVAL, UNTIL and COUNT go.
   */
  lemma OtherPartsAreKept(existing: seq<Part>, incoming: seq<Part>, key: string)
    requires key != "" && key != "INTERVAL" && !Mentions(incoming, key)
    ensures Value(MergeParts(existing, incoming), key) ==
            if key == "UNTIL" || key == "COUNT" then "" else FirstValue(existing, key)
  {
    var offers := Offers(existing, incoming);
    var front := FromExisting(existing, incoming) + FromIncoming(incoming, existing, incoming);
    var last := Part("INTERVAL", Interval(incoming));
    FirstIsTaken(offers, key);
    OfferedAsItStands(existing, incoming, key);
    NotMentioned(incoming, key);
    NotOffered(FromIncoming(incoming, existing, incoming), key);
    FirstOfTwo(FromExisting(existing, incoming), FromIncoming(incoming, existing, incoming), key);
    OneOffer(last, key);
    FirstOfTwo(front, [last], key);
  }

  lemma {:induction false} OfferedAsEdited(parts: seq<Part>, incoming: seq<Part>, key: string)
    requires key != "INTERVAL" && key != "UNTIL" && Mentions(incoming, key)
    ensures FirstValue(FromExisting(parts, incoming), key) in {"", Value(incoming, key)}
  {
    if parts != [] {
      hide Existing, Mentions;
      var k := |parts| - 1;
      OfferedAsEdited(parts[..k], incoming, key);
      FirstOfTwo(FromExisting(parts[..k], incoming), Existing(parts[k], incoming), key);
      ExistingOffer(parts[k], incoming, key);
    }
  }

  lemma {:induction false} AgreedFirst(parts: seq<Part>, key: string)
    requires Agree(parts)
    ensures FirstValue(parts, key) == Value(parts, key)
  {
    if parts != [] {
      var k := |parts| - 1;
      AgreedFirst(parts[..k], key);
      if Mentions(parts[..k], key) {
        var i := WhereMentioned(parts[..k], key);
        assert parts[i] == parts[..k][i];
      } else {
        NotMentioned(parts[..k], key);
      }
    }
  }

  lemma {:induction false} SameOffers(parts: seq<Part>, existing: seq<Part>, incoming: seq<Part>, key: string)
    requires key != "INTERVAL" && key != "UNTIL"
    ensures FirstValue(FromIncoming(parts, existing, incoming), key) == FirstValue(parts, key)
  {
    if parts != [] {
      var k := |parts| - 1;
      SameOffers(parts[..k], existing, incoming, key);
      assert FromIncoming(parts, existing, incoming)[..k] == FromIncoming(parts[..k], existing, incoming);
    }
  }

  /** A key the incoming rule mentions has the incoming value. */
  lemma EditIsOverlaid(existing: seq<Part>, incoming: seq<Part>, key: string)
    requires Agree(incoming) && Mentions(incoming, key) && key !in {"", "INTERVAL", "UNTIL"}
    ensures Value(MergeParts(existing, incoming), key) == Value(incoming, key)
  {
    OfferedAsEdited(existing, incoming, key);
    AgreedFirst(incoming, key);
    TakenValue(existing, incoming, key);
  }

  // ----- merging once more -----

  lemma MergeUntilTwice(existing: string, incoming: string)
    ensures MergeUntil(MergeUntil(existing, incoming), incoming) == MergeUntil(existing, incoming)
    ensures Trimmed(MergeUntil(existing, incoming))
  {
    TrimIsTrimmed(existing);
    TrimIsTrimmed(incoming);
    hide Trim;
    TrimOfTrimmed(Trim(existing));
    TrimOfTrimmed(Trim(incoming));
  }

  /** An offer that merging the same edit again leaves as it is. */
  ghost predicate Fixed(p: Part, incoming: seq<Part>) {
    Existing(p, incoming) == [p]
  }

  lemma {:induction false} ExistingOffersAreFixed(parts: seq<Part>, incoming: seq<Part>, p: Part)
    requires p in FromExisting(parts, incoming)
    ensures Fixed(p, incoming)
  {
    var k := |parts| - 1;
    if p in FromExisting(parts[..k], incoming) {
      ExistingOffersAreFixed(parts[..k], incoming, p);
    } else {
      MergeUntilTwice(parts[k].value, Value(incoming, "UNTIL"));
    }
  }

  lemma IncomingOffersAreFixed(existing: seq<Part>, incoming: seq<Part>, i: nat)
    requires Agree(incoming) && i < |incoming|
    ensures Fixed(Incoming(incoming[i], existing, incoming), incoming)
  {
    AgreedValue(incoming, i);
    MergeUntilTwice(Value(existing, "UNTIL"), incoming[i].value);
  }

  lemma OffersAreFixed(existing: seq<Part>, incoming: seq<Part>, p: Part)
    requires Agree(incoming) && p in Offers(existing, incoming)
    ensures Fixed(p, incoming)
  {
    if p in FromExisting(existing, incoming) {
      ExistingOffersAreFixed(existing, incoming, p);
    } else if i :| 0 <= i < |incoming| && FromIncoming(incoming, existing, incoming)[i] == p {
      IncomingOffersAreFixed(existing, incoming, i);
    }
  }

  lemma {:induction false} FixedPartsStay(parts: seq<Part>, incoming: seq<Part>)
    requires forall i :: 0 <= i < |parts| ==> Fixed(parts[i], incoming)
    ensures FromExisting(parts, incoming) == parts
  {
    if parts != [] {
      FixedPartsStay(parts[..|parts| - 1], incoming);
    }
  }

  lemma {:induction false} CleanPartsAreTaken(parts: seq<Part>)
    requires Clean(parts)
    ensures PushAll(NOTHING, parts).out == parts
  {
    if parts != [] {
      var k := |parts| - 1;
      CleanPartsAreTaken(parts[..k]);
      NewKeyIsUnseen(parts, k);
    }
  }

  lemma NewKeyIsUnseen(parts: seq<Part>, k: nat)
    requires Clean(parts) && k < |parts| && PushAll(NOTHING, parts[..k]).out == parts[..k]
    ensures parts[k].key !in PushAll(NOTHING, parts[..k]).seen
  {
    NotMentionedBefore(parts, k);
    PushAllIsCoherent(NOTHING, parts[..k]);
    if parts[k].key == "INTERVAL" {
      NoIntervalSeen(parts[..k]);
    }
  }

  lemma NotMentionedBefore(parts: seq<Part>, k: nat)
    requires Clean(parts) && k < |parts|
    ensures !Mentions(parts[..k], parts[k].key)
  {
    if Mentions(parts[..k], parts[k].key) {
      var i := WhereMentioned(parts[..k], parts[k].key);
    }
  }

  /** An offer that adds nothing to these parts. */
  ghost predicate Inert(parts: seq<Part>, p: Part) {
    p.key == "" || Mentions(parts, p.key) || p.value == "" || (p.key == "INTERVAL" && p.value == "1")
  }

  lemma {:induction false} InertOffersAddNothing(t: Taken, offers: seq<Part>)
    requires Coherent(t) && forall i :: 0 <= i < |offers| ==> Inert(t.out, offers[i])
    ensures PushAll(t, offers).out == t.out
    decreases |offers|
  {
    if offers != [] {
      var k := |offers| - 1;
      InertOffersAddNothing(t, offers[..k]);
      PushAllIsCoherent(t, offers[..k]);
      assert Inert(t.out, offers[k]);
      if Mentions(t.out, offers[k].key) {
        var i := WhereMentioned(t.out, offers[k].key);
      }
    }
  }

  /** Every offer of the first merge that has something to add has been taken. */
  lemma OffersWereTaken(existing: seq<Part>, incoming: seq<Part>, p: Part)
    requires Agree(incoming) && p in Offers(existing, incoming)
    ensures Inert(MergeParts(existing, incoming), p)
  {
    var offers := Offers(existing, incoming);
    if p.key == "INTERVAL" {
      if Interval(incoming) != "1" {
        forall q | q in offers && q.key == "INTERVAL" ensures q.value == Interval(incoming) {
          OffersAreFixed(existing, incoming, q);
        }
        MentionsAt(offers, |offers| - 1);
        IntervalIsTaken(offers, Interval(incoming));
      } else {
        OffersAreFixed(existing, incoming, p);
      }
    } else if p.key != "" && p.value != "" {
      FirstIsTaken(offers, p.key);
      var i :| 0 <= i < |offers| && offers[i] == p;
      OfferedSomething(offers, i);
    }
  }

  lemma {:induction false} OfferedSomething(offers: seq<Part>, i: nat)
    requires i < |offers| && offers[i].value != ""
    ensures FirstValue(offers, offers[i].key) != ""
  {
    if i < |offers| - 1 {
      OfferedSomething(offers[..|offers| - 1], i);
    }
  }

  /** What the edit offers the second time adds nothing. */
  lemma SecondOffersAreInert(existing: seq<Part>, incoming: seq<Part>, i: nat)
    requires Agree(incoming) && i < |incoming|
    ensures var merged := MergeParts(existing, incoming);
            Inert(merged, Incoming(incoming[i], merged, incoming))
  {
    var merged := MergeParts(existing, incoming);
    var first := Incoming(incoming[i], existing, incoming);
    assert first == FromIncoming(incoming, existing, incoming)[i];
    assert first in Offers(existing, incoming);
    OffersWereTaken(existing, incoming, first);
    if incoming[i].key == "UNTIL" && !Mentions(merged, "UNTIL") {
      NotMentioned(merged, "UNTIL");
      assert first.value == "";
    }
  }

  /** Merging the same edit again changes nothing. */
  lemma MergePartsTwice(existing: seq<Part>, incoming: seq<Part>)
    requires Agree(incoming)
    ensures MergeParts(MergeParts(existing, incoming), incoming) == MergeParts(existing, incoming)
  {
    var merged := MergeParts(existing, incoming);
    MergedIsClean(existing, incoming);
    PushAllIsCoherent(NOTHING, Offers(existing, incoming));
    forall i | 0 <= i < |merged| ensures Fixed(merged[i], incoming) {
      assert merged[i] in merged;
      OffersAreFixed(existing, incoming, merged[i]);
    }
    FixedPartsStay(merged, incoming);
    CleanPartsAreTaken(merged);
    var rest := FromIncoming(incoming, merged, incoming) + [Part("INTERVAL", Interval(incoming))];
    forall i | 0 <= i < |rest| ensures Inert(merged, rest[i]) {
      if i < |incoming| {
        SecondOffersAreInert(existing, incoming, i);
      } else {
        assert rest[i] in Offers(existing, incoming);
        OffersWereTaken(existing, incoming, rest[i]);
      }
    }
    assert Offers(merged, incoming) == merged + rest;
    PushAllConcat(NOTHING, merged, rest);
    PushAllIsCoherent(NOTHING, merged);
    InertOffersAddNothing(PushAll(NOTHING, merged), rest);
  }

  // ----- an edit that contradicts itself -----

  lemma {:induction false} EditedFirst(parts: seq<Part>, incoming: seq<Part>, key: string)
    requires key != "INTERVAL" && key != "UNTIL" && Mentions(incoming, key) && Mentions(parts, key)
    ensures FirstValue(FromExisting(parts, incoming), key) == Value(incoming, key)
  {
    hide Existing;
    var k := |parts| - 1;
    OfferedAsEdited(parts[..k], incoming, key);
    FirstOfTwo(FromExisting(parts[..k], incoming), Existing(parts[k], incoming), key);
    ExistingOffer(parts[k], incoming, key);
    if parts[k].key != key {
      EditedFirst(parts[..k], incoming, key);
    }
  }

  lemma {:induction false} NothingToOffer(parts: seq<Part>, incoming: seq<Part>, key: string)
    requires key != "INTERVAL" && !Mentions(parts, key)
    ensures FirstValue(FromExisting(parts, incoming), key) == ""
  {
    if parts != [] {
      hide Existing;
      var k := |parts| - 1;
      NothingToOffer(parts[..k], incoming, key);
      FirstOfTwo(FromExisting(parts[..k], incoming), Existing(parts[k], incoming), key);
      ExistingOffer(parts[k], incoming, key);
    }
  }

  lemma TakenValue(existing: seq<Part>, incoming: seq<Part>, key: string)
    requires key !in {"", "INTERVAL", "UNTIL"}
    ensures Value(MergeParts(existing, incoming), key) ==
            if FirstValue(FromExisting(existing, incoming), key) != "" then FirstValue(FromExisting(existing, incoming), key)
            else FirstValue(incoming, key)
    ensures Mentions(MergeParts(existing, incoming), key) <==> Value(MergeParts(existing, incoming), key) != ""
  {
    var front := FromExisting(existing, incoming) + FromIncoming(incoming, existing, incoming);
    var last := Part("INTERVAL", Interval(incoming));
    FirstIsTaken(Offers(existing, incoming), key);
    SameOffers(incoming, existing, incoming, key);
    FirstOfTwo(FromExisting(existing, incoming), FromIncoming(incoming, existing, incoming), key);
    OneOffer(last, key);
    FirstOfTwo(front, [last], key);
  }

  /**
    A key that the edit gives twice and the rule does not have: the first merge takes the edit's
    first value, the second its last.  So X=1;X=2 is not merged once and for all.
   */
  lemma ContradictoryEdit(existing: seq<Part>, incoming: seq<Part>, key: string)
    requires key !in {"", "INTERVAL", "UNTIL"} && !Mentions(existing, key)
    requires FirstValue(incoming, key) != "" && Value(incoming, key) != ""
    ensures var once := MergeParts(existing, incoming);
            && Value(once, key) == FirstValue(incoming, key)
            && Value(MergeParts(once, incoming), key) == Value(incoming, key)
  {
    var once := MergeParts(existing, incoming);
    NothingToOffer(existing, incoming, key);
    TakenValue(existing, incoming, key);
    if !Mentions(incoming, key) {
      NotMentioned(incoming, key);
    }
    EditedFirst(once, incoming, key);
    TakenValue(once, incoming, key);
  }

  // ----- which offer is taken -----

  lemma {:induction false} FirstValueIsOffered(offers: seq<Part>, key: string)
    requires FirstValue(offers, key) != ""
    ensures Part(key, FirstValue(offers, key)) in offers
  {
    var k := |offers| - 1;
    assert offers == offers[..k] + [offers[k]];
    if FirstValue(offers[..k], key) != "" {
      FirstValueIsOffered(offers[..k], key);
    }
  }

  /** Which offer is taken: one of the rule's parts if they offer anything, or else one of the edit's. */
  lemma TakenFrom(existing: seq<Part>, incoming: seq<Part>, key: string)
    requires key != "" && key != "INTERVAL"
    ensures var (kept, added) := (FirstValue(FromExisting(existing, incoming), key),
                                 FirstValue(FromIncoming(incoming, existing, incoming), key));
            && Value(MergeParts(existing, incoming), key) == (if kept != "" then kept else added)
            && (Mentions(MergeParts(existing, incoming), key) <==> Value(MergeParts(existing, incoming), key) != "")
  {
    var front := FromExisting(existing, incoming) + FromIncoming(incoming, existing, incoming);
    var last := Part("INTERVAL", Interval(incoming));
    FirstIsTaken(Offers(existing, incoming), key);
    FirstOfTwo(FromExisting(existing, incoming), FromIncoming(incoming, existing, incoming), key);
    OneOffer(last, key);
    FirstOfTwo(front, [last], key);
  }

  lemma FromExistingSnoc(parts: seq<Part>, incoming: seq<Part>)
    requires parts != []
    ensures FromExisting(parts, incoming) == FromExisting(parts[..|parts| - 1], incoming) + Existing(parts[|parts| - 1], incoming)
  {
  }

  lemma {:induction false} IntervalOfExisting(parts: seq<Part>, incoming: seq<Part>, p: Part)
    requires p in FromExisting(parts, incoming) && p.key == "INTERVAL"
    ensures p.value == Interval(incoming)
  {
    var k := |parts| - 1;
    hide Mentions, Value, MergeUntil;
    if p in FromExisting(parts[..k], incoming) {
      IntervalOfExisting(parts[..k], incoming, p);
    } else {
      assert p in Existing(parts[k], incoming);
    }
  }

  lemma IntervalsAreOne(existing: seq<Part>, incoming: seq<Part>, p: Part)
    requires p in Offers(existing, incoming) && p.key == "INTERVAL"
    ensures p.value == Interval(incoming)
  {
    if p in FromExisting(existing, incoming) {
      IntervalOfExisting(existing, incoming, p);
    } else if i :| 0 <= i < |incoming| && FromIncoming(incoming, existing, incoming)[i] == p {
    }
  }

  /** Parts of the merged rule that the edit does not mention, and its interval, are fixed in any case. */
  lemma OthersAreFixed(existing: seq<Part>, incoming: seq<Part>, i: nat)
    requires i < |MergeParts(existing, incoming)|
    requires var key := MergeParts(existing, incoming)[i].key; key == "INTERVAL" || !Mentions(incoming, key)
    ensures Fixed(MergeParts(existing, incoming)[i], incoming)
  {
    var merged := MergeParts(existing, incoming);
    var p := merged[i];
    PushAllIsCoherent(NOTHING, Offers(existing, incoming));
    assert p in merged;
    hide Mentions, Value, FirstValue, MergeParts;
    if p.key == "INTERVAL" {
      IntervalsAreOne(existing, incoming, p);
    } else {
      OtherPartsAreKept(existing, incoming, p.key);
      ValueOfClean(merged, i);
    }
  }

  lemma ValueOfClean(parts: seq<Part>, i: nat)
    requires Clean(parts) && i < |parts|
    ensures Mentions(parts, parts[i].key) && Value(parts, parts[i].key) == parts[i].value
  {
    AgreedValue(parts, i);
  }

  lemma IntervalIsIn(existing: seq<Part>, incoming: seq<Part>)
    ensures Interval(incoming) == "1" || Mentions(MergeParts(existing, incoming), "INTERVAL")
  {
    if Interval(incoming) != "1" {
      var offers := Offers(existing, incoming);
      forall q | q in offers && q.key == "INTERVAL" ensures q.value == Interval(incoming) {
        IntervalsAreOne(existing, incoming, q);
      }
      MentionsAt(offers, |offers| - 1);
      IntervalIsTaken(offers, Interval(incoming));
    }
  }
}
