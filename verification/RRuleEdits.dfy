/**
  What the edit decides in the merged rule: its end date, with or without a time of day, and its
  interval.
 */
module RRuleEdits {
  import opened Strings
  import opened RRule
  import opened RRuleMerge
  import opened RRuleTwice
  import opened RRuleText

  /** Every part of the rule with this key has this value; there need not be one. */
  ghost predicate AllHave(parts: seq<Part>, key: string, value: string) {
    forall i | 0 <= i < |parts| && parts[i].key == key :: parts[i].value == value
  }

  lemma {:induction false} ValueOfAll(parts: seq<Part>, key: string, value: string)
    requires AllHave(parts, key, value)
    ensures Value(parts, key) == if Mentions(parts, key) then value else ""
    ensures FirstValue(parts, key) == if Mentions(parts, key) then value else ""
  {
    if parts != [] {
      ValueOfAll(parts[..|parts| - 1], key, value);
    }
  }

  /** A date, of eight characters, keeps the time of day that the rule has for the same date; else the edit's end holds. */
  function EndOf(rule: string, edit: string): string {
    if |edit| == 8 && edit <= rule then rule else edit
  }

  lemma EndIsMerged(rule: string, edit: string)
    requires Trimmed(rule) && Trimmed(edit) && edit != ""
    ensures MergeUntil(rule, edit) == EndOf(rule, edit)
  {
    TrimOfTrimmed(rule);
    TrimOfTrimmed(edit);
    hide Trim;
  }

  lemma {:induction false} OldEndIsOffered(existing: seq<Part>, incoming: seq<Part>, u: string, v: string)
    requires AsParsed(existing) && AsParsed(incoming) && AllHave(existing, "UNTIL", u) && AllHave(incoming, "UNTIL", v)
    requires v != "" && Mentions(incoming, "UNTIL") && Mentions(existing, "UNTIL")
    ensures FirstValue(FromExisting(existing, incoming), "UNTIL") == EndOf(u, v)
  {
    hide Trimmed, MergeUntil, Existing;
    ValueOfAll(incoming, "UNTIL", v);
    ValueIsTrimmed(incoming, "UNTIL");
    var k := |existing| - 1;
    FirstOfTwo(FromExisting(existing[..k], incoming), Existing(existing[k], incoming), "UNTIL");
    if Mentions(existing[..k], "UNTIL") {
      OldEndIsOffered(existing[..k], incoming, u, v);
      EndIsNotEmpty(u, v);
    } else {
      NothingToOffer(existing[..k], incoming, "UNTIL");
      LastEndIsOffered(existing[k], incoming, u, v);
    }
  }

  lemma EndIsNotEmpty(u: string, v: string)
    requires v != ""
    ensures EndOf(u, v) != ""
  {
  }

  lemma LastEndIsOffered(p: Part, incoming: seq<Part>, u: string, v: string)
    requires p == Part("UNTIL", u) && Trimmed(u) && Trimmed(v) && v != ""
    requires Mentions(incoming, "UNTIL") && Value(incoming, "UNTIL") == v
    ensures FirstValue(Existing(p, incoming), "UNTIL") == EndOf(u, v)
  {
    EndIsMerged(u, v);
    hide Mentions, Value, MergeUntil, Trimmed;
    OneOffer(Part("UNTIL", EndOf(u, v)), "UNTIL");
  }

  lemma {:induction false} NewEndIsOffered(parts: seq<Part>, existing: seq<Part>, incoming: seq<Part>, v: string)
    requires AsParsed(parts) && AllHave(parts, "UNTIL", v) && v != "" && !Mentions(existing, "UNTIL")
    ensures FirstValue(FromIncoming(parts, existing, incoming), "UNTIL") == if Mentions(parts, "UNTIL") then v else ""
  {
    if parts != [] {
      var k := |parts| - 1;
      NewEndIsOffered(parts[..k], existing, incoming, v);
      assert FromIncoming(parts, existing, incoming)[..k] == FromIncoming(parts[..k], existing, incoming);
      NotMentioned(existing, "UNTIL");
      if parts[k].key == "UNTIL" {
        MergeUntilIsEmpty("", v);
      }
      hide MergeUntil, Trimmed;
    }
  }

  /**
    The merged rule ends when the edit says.  Only if the edit gives a date without a time, and the
    rule's end begins with that date, does the rule's end stay.
   */
  lemma EndIsEdited(existing: seq<Part>, incoming: seq<Part>, u: string, v: string)
    requires AsParsed(existing) && AsParsed(incoming)
    requires AllHave(existing, "UNTIL", u) && AllHave(incoming, "UNTIL", v) && v != "" && Mentions(incoming, "UNTIL")
    ensures var end := if Mentions(existing, "UNTIL") && |v| == 8 && v <= u then u else v;
            && Part("UNTIL", end) in MergeParts(existing, incoming)
            && forall p | p in MergeParts(existing, incoming) && p.key == "UNTIL" :: p.value == end
  {
    hide Trimmed, MergeUntil, AllHave, AsParsed, FirstValue, Mentions, Value, Clean;
    TakenFrom(existing, incoming, "UNTIL");
    if Mentions(existing, "UNTIL") {
      OldEndIsOffered(existing, incoming, u, v);
      EndIsNotEmpty(u, v);
    } else {
      NothingToOffer(existing, incoming, "UNTIL");
      NewEndIsOffered(incoming, existing, incoming, v);
    }
    MergedIsClean(existing, incoming);
    OnlyOne(MergeParts(existing, incoming), "UNTIL");
  }

  lemma OnlyOne(parts: seq<Part>, key: string)
    requires Clean(parts) && Mentions(parts, key)
    ensures Part(key, Value(parts, key)) in parts
    ensures forall p | p in parts && p.key == key :: p.value == Value(parts, key)
  {
    var i := WhereMentioned(parts, key);
    hide Value;
  }

  /** The same for texts whose rules are merged part by part. */
  lemma EndOfTextIsEdited(existing: string, incoming: string, u: string, v: string)
    requires IsMergedByParts(existing, incoming)
    requires AllHave(Parse(Trim(existing)), "UNTIL", u) && AllHave(Parse(Trim(incoming)), "UNTIL", v) && v != ""
    requires Mentions(Parse(Trim(incoming)), "UNTIL")
    ensures var end := if Mentions(Parse(Trim(existing)), "UNTIL") && |v| == 8 && v <= u then u else v;
            var merged := Parse(Merge(existing, incoming));
            Part("UNTIL", end) in merged && forall p | p in merged && p.key == "UNTIL" :: p.value == end
  {
    var ex, inc := Parse(Trim(existing)), Parse(Trim(incoming));
    MergedTextParsesBack(existing, incoming);
    ParseIsParsed(Trim(existing));
    ParseIsParsed(Trim(incoming));
    hide Parse, Trim, Merge, MergeParts, AllHave, Mentions, Parsed, AsParsed;
    ParsedPartsAreParsed(ex);
    ParsedPartsAreParsed(inc);
    EndIsEdited(ex, inc, u, v);
  }

  /** An edit without an end removes it, and so it is with a count. */
  lemma EndIsRemoved(existing: seq<Part>, incoming: seq<Part>, key: string)
    requires key in {"UNTIL", "COUNT"} && !Mentions(incoming, key)
    ensures forall p | p in MergeParts(existing, incoming) :: p.key != key
  {
    hide FirstValue, Clean;
    OtherPartsAreKept(existing, incoming, key);
    TakenFrom(existing, incoming, key);
    if i :| 0 <= i < |MergeParts(existing, incoming)| && MergeParts(existing, incoming)[i].key == key {
      MentionsAt(MergeParts(existing, incoming), i);
    }
  }

  lemma {:induction false} LastHolds(parts: seq<Part>, key: string, i: nat)
    requires i < |parts| && parts[i].key == key && forall j | i < j < |parts| :: parts[j].key != key
    ensures Mentions(parts, key) && Value(parts, key) == parts[i].value
  {
    if i < |parts| - 1 {
      LastHolds(parts[..|parts| - 1], key, i);
    }
  }

  /** The merged rule has the edit's last interval, and none if that is 1 or empty, or if there is none. */
  lemma IntervalIsEdited(existing: seq<Part>, incoming: seq<Part>, i: nat)
    requires i <= |incoming| && forall j | i < j < |incoming| :: incoming[j].key != "INTERVAL"
    requires if i < |incoming| then incoming[i].key == "INTERVAL" else !Mentions(incoming, "INTERVAL")
    ensures var interval := if i < |incoming| then incoming[i].value else "1";
            && (interval in {"", "1"} ==> forall p | p in MergeParts(existing, incoming) :: p.key != "INTERVAL")
            && (interval !in {"", "1"} ==> Part("INTERVAL", interval) in MergeParts(existing, incoming))
            && (forall p | p in MergeParts(existing, incoming) && p.key == "INTERVAL" :: p.value == interval)
  {
    if i < |incoming| {
      LastHolds(incoming, "INTERVAL", i);
    } else {
      NotMentioned(incoming, "INTERVAL");
    }
    MergedIsClean(existing, incoming);
    var merged := MergeParts(existing, incoming);
    IntervalIsIn(existing, incoming);
    EmptyIsCoherent();
    PushAllIsCoherent(NOTHING, Offers(existing, incoming));
    hide Mentions, Value, MergeParts, Offers;
    forall p | p in merged && p.key == "INTERVAL" ensures p.value == Interval(incoming) && p.value != "1" {
      assert p in Offers(existing, incoming);
      IntervalsAreOne(existing, incoming, p);
    }
    if Interval(incoming) != "1" {
      OnlyOne(merged, "INTERVAL");
    }
  }

  /** Rules of different frequencies are not merged: the edit's takes the other's place. */
  lemma OtherFrequencyReplaces(existing: string, incoming: string)
    requires ToLower(Value(Parse(Trim(existing)), "FREQ")) != ToLower(Value(Parse(Trim(incoming)), "FREQ"))
    ensures Merge(existing, incoming) == Trim(incoming)
  {
    hide Trim, Parse, Value;
  }
}
