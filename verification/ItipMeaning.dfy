/**
  Which component is the event, which UID is the calendar's, when two addresses are the same, and what
  is written for an invited attendee.
 */
module ItipMeaning {
  import opened Itip
  import opened Strings
  import opened Wrappers

  /** The event is the first VEVENT, or, without any, the first component that is no time zone. */
  lemma EventIs(ics: Ics)
    ensures match FirstEvent(ics)
            case None => forall k | 0 <= k < |ics.comps| :: ics.comps[k].name == "VTIMEZONE"
            case Some(i) =>
              if ics.comps[i].name == "VEVENT" then forall k | 0 <= k < i :: ics.comps[k].name != "VEVENT"
              else ics.comps[i].name != "VTIMEZONE"
                   && (forall k | 0 <= k < |ics.comps| :: ics.comps[k].name != "VEVENT")
                   && forall k | 0 <= k < i :: ics.comps[k].name == "VTIMEZONE"
  {
    var isEvent := (c: Component) => c.name == "VEVENT";
    var isOther := (c: Component) => c.name != "VTIMEZONE";
    FirstIsFirst(ics.comps, isEvent, 0);
    FirstIsFirst(ics.comps, isOther, 0);
  }

  lemma {:induction false} FirstIsFirst(comps: seq<Component>, p: Component -> bool, from: nat)
    requires from <= |comps|
    ensures match FirstWhere(comps, p, from)
            case None => forall k | from <= k < |comps| :: !p(comps[k])
            case Some(i) => from <= i < |comps| && p(comps[i]) && forall k | from <= k < i :: !p(comps[k])
    decreases |comps| - from
  {
    if from < |comps| && !p(comps[from]) {
      FirstIsFirst(comps, p, from + 1);
    }
  }

  /** The UID is the first that is not empty, time zones aside, and empty if there is none. */
  lemma UidIs(ics: Ics)
    ensures CalendarUID(ics) == "" <==> forall k | 0 <= k < |ics.comps| :: ics.comps[k].name == "VTIMEZONE" || ics.comps[k].uid == ""
    ensures CalendarUID(ics) != "" ==>
              exists i | 0 <= i < |ics.comps| ::
                && ics.comps[i].name != "VTIMEZONE" && ics.comps[i].uid == CalendarUID(ics)
                && forall k | 0 <= k < i :: ics.comps[k].name == "VTIMEZONE" || ics.comps[k].uid == ""
  {
    var named := (c: Component) => c.name != "VTIMEZONE" && c.uid != "";
    FirstIsFirst(ics.comps, named, 0);
    var i := FirstWhere(ics.comps, named, 0);
    assert CalendarUID(ics) == if i.Some? then ics.comps[i.value].uid else "";
  }

  /** An address is the same with mailto in small or capital letters before it, and in any case. */
  lemma SameAddress(a: string)
    requires Trimmed(a) && a != "" && !("mailto:" <= a) && !("MAILTO:" <= a)
    ensures Key(a) == ToLower(a) == Key("mailto:" + a) == Key("MAILTO:" + a)
  {
    assert !IsSpace('m') && !IsSpace('M');
    var small, capital := "mailto:" + a, "MAILTO:" + a;
    assert small[0] == 'm' && capital[0] == 'M' && small[|small| - 1] == a[|a| - 1] == capital[|capital| - 1];
    TrimOfTrimmed(a);
    TrimOfTrimmed(small);
    TrimOfTrimmed(capital);
    assert small[7..] == a && capital[7..] == a;
    assert "mailto:"[0] == 'm' && capital[..7] == "MAILTO:";
    hide Trim, IsSpace, ToLower;
    OtherStart(capital, "mailto:");
  }

  lemma OtherStart(s: string, prefix: string)
    requires s != "" && prefix != "" && s[0] != prefix[0]
    ensures !(prefix <= s)
  {
  }

  /** An invited attendee is written with the old answer, or else as not having answered, and is asked for one. */
  lemma InvitedIs(a: Attendee)
    ensures var line := InvitedLine(a);
            && line.partstat == (if a.partstat == "" then "NEEDS-ACTION" else a.partstat)
            && line.cn == a.cn && Key(line.value) == Key(a.value) && "mailto:" <= ToLower(line.value)
            && line.rest.Keys == {"RSVP", "ROLE"} && line.rest["RSVP"] == "TRUE" && line.rest["ROLE"] == "REQ-PARTICIPANT"
  {
    MailtoKeepsKey(a.value);
    assert ToLower("mailto:") == "mailto:";
    LowerPrefix("mailto:", "mailto:" + Trim(a.value));
    assert "RSVP"[0] != "ROLE"[0] || "RSVP"[1] != "ROLE"[1];
    hide Trim, Key;
  }
}
