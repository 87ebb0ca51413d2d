/**
  The two reconcilers that run on the store: the Important Dates calendar, made from contacts, and
  the People address book, made from the directory of users.
 */
module Reconcile {
  import opened Store
  import opened Strings
  import opened StoreTables

  // ----- Important Dates -----

  /** An event that should be there. */
  datatype Day = Day(href: string, obj: Obj<string>)

  /** The hrefs that ListCalendarObjectRefs selects. */
  predicate IsManaged(href: string) {
    Like(href, "id-%")
  }

  function Have(s: State<string>, col: Col): map<string, string> {
    map h | h in Objects(s, col) && IsManaged(h) :: Objects(s, col)[h].etag
  }

  /** A look-up in a Go map: empty if there is no such key. */
  function EtagIn(have: map<string, string>, href: string): string {
    if href in have then have[href] else ""
  }

  function Wanted(days: seq<Day>): set<string> {
    set d | d in days :: d.href
  }

  ghost function UpsertDay(s: State<string>, col: Col, have: map<string, string>, d: Day): State<string>
    requires col in s.cols
  {
    if EtagIn(have, d.href) == d.obj.etag then s else UpsertCalendar(s, col, d.href, d.obj)
  }

  ghost function UpsertDays(s: State<string>, col: Col, have: map<string, string>, days: seq<Day>): (t: State<string>)
    requires col in s.cols
    ensures t.cols.Keys == s.cols.Keys
  {
    if days == [] then s else UpsertDay(UpsertDays(s, col, have, days[..|days| - 1]), col, have, days[|days| - 1])
  }

  /** One pass; `order` is the order in which the map of old hrefs is gone through. */
  ghost predicate IsPass(s: State<string>, col: Col, days: seq<Day>, order: seq<string>, t: State<string>) {
    && col in s.cols
    && Lists(order, Have(s, col).Keys - Wanted(days))
    && t == DeleteEach(UpsertDays(s, col, Have(s, col), days), col, order)
  }

  /** Days as the worker makes them: managed hrefs, a UID for each href, and etags that tell texts apart. */
  ghost predicate AreDays(days: seq<Day>) {
    && (forall d :: d in days ==> IsManaged(d.href) && d.obj.uid != "" && d.obj.etag != "")
    && (forall d, e :: d in days && e in days && d.obj.uid == e.obj.uid ==> d.href == e.href)
    && (forall d, e :: d in days && e in days && d.obj.etag == e.obj.etag ==> d.obj == e.obj)
  }

  /** An object of the calendar with the etag of a wanted one is that object. */
  ghost predicate EtagsTell(s: State<string>, col: Col, days: seq<Day>) {
    forall d, h :: d in days && h in Objects(s, col) && Objects(s, col)[h].etag == d.obj.etag ==> Objects(s, col)[h] == d.obj
  }

  /** Days with one href are one event. */
  ghost predicate Agree(days: seq<Day>) {
    forall d, e :: d in days && e in days && d.href == e.href ==> d.obj == e.obj
  }

  /** What is at an href after the days: the wanted object; elsewhere the old one, unless its UID was wanted. */
  ghost predicate DaysAreIn(s: State<string>, t: State<string>, col: Col, days: seq<Day>) {
    && (forall d :: d in days ==> d.href in Objects(t, col) && Objects(t, col)[d.href] == d.obj)
    && (forall h :: h in Objects(t, col) && h !in Wanted(days) ==> h in Objects(s, col) && Objects(t, col)[h] == Objects(s, col)[h])
    && (forall h :: h in Objects(s, col) && h !in Wanted(days) && UidIsUnwanted(Objects(s, col)[h].uid, days) ==> h in Objects(t, col))
  }

  ghost predicate UidIsUnwanted(uid: string, days: seq<Day>) {
    forall d :: d in days ==> d.obj.uid != uid
  }

  lemma WantedSnoc(days: seq<Day>, d: Day)
    ensures Wanted(days + [d]) == Wanted(days) + {d.href}
  {
    assert forall e :: e in days + [d] <==> e in days || e == d;
  }

  /** What a calendar upsert does to one href. */
  lemma UpsertEffect(s: State<string>, col: Col, href: string, obj: Obj<string>, h: string)
    requires col in s.cols && obj.uid != ""
    ensures var t := UpsertCalendar(s, col, href, obj);
            && (h == href ==> h in Objects(t, col) && Objects(t, col)[h] == obj)
            && (h != href && h in Objects(t, col) ==> h in Objects(s, col) && Objects(t, col)[h] == Objects(s, col)[h])
            && (h != href && h in Objects(s, col) && Objects(s, col)[h].uid != obj.uid ==> h in Objects(t, col))
  {
  }

  lemma OneMoreDay(s: State<string>, t: State<string>, col: Col, days: seq<Day>, d: Day)
    requires col in t.cols && AreDays(days + [d]) && Agree(days + [d]) && EtagsTell(s, col, days + [d])
    requires DaysAreIn(s, t, col, days)
    ensures DaysAreIn(s, UpsertDay(t, col, Have(s, col), d), col, days + [d])
  {
    hide AreDays, Agree, EtagsTell, DaysAreIn, Have, EtagIn, UpsertCalendar;
    if EtagIn(Have(s, col), d.href) == d.obj.etag {
      DayStays(s, t, col, days, d);
    } else {
      DayGoesIn(s, t, col, days, d);
    }
  }

  lemma DayStays(s: State<string>, t: State<string>, col: Col, days: seq<Day>, d: Day)
    requires AreDays(days + [d]) && Agree(days + [d]) && EtagsTell(s, col, days + [d])
    requires DaysAreIn(s, t, col, days) && EtagIn(Have(s, col), d.href) == d.obj.etag
    ensures DaysAreIn(s, t, col, days + [d])
  {
    AlreadyThere(s, t, col, days, d);
    WantedSnoc(days, d);
    hide AreDays, Agree, EtagsTell, Have, EtagIn, Wanted, UidIsUnwanted, Objects;
    forall e | e in days + [d] ensures e.href in Objects(t, col) && Objects(t, col)[e.href] == e.obj {
      assert e in days || e == d;
    }
    forall uid ensures UidIsUnwanted(uid, days + [d]) ==> UidIsUnwanted(uid, days) {
      FewerUids(uid, days, d);
    }
  }

  lemma FewerUids(uid: string, days: seq<Day>, d: Day)
    ensures UidIsUnwanted(uid, days + [d]) ==> UidIsUnwanted(uid, days)
  {
    assert forall e :: e in days ==> e in days + [d];
  }

  lemma DayGoesIn(s: State<string>, t: State<string>, col: Col, days: seq<Day>, d: Day)
    requires col in t.cols && AreDays(days + [d]) && Agree(days + [d]) && DaysAreIn(s, t, col, days)
    ensures DaysAreIn(s, UpsertCalendar(t, col, d.href, d.obj), col, days + [d])
  {
    hide IsManaged, UpsertCalendar, Objects, Wanted;
    var after := UpsertCalendar(t, col, d.href, d.obj);
    assert forall e :: e in days + [d] <==> e in days || e == d;
    WantedSnoc(days, d);
    assert d in days + [d] && d.obj.uid != "";
    forall h
      ensures h == d.href ==> h in Objects(after, col) && Objects(after, col)[h] == d.obj
      ensures h != d.href && h in Objects(after, col) ==> h in Objects(t, col) && Objects(after, col)[h] == Objects(t, col)[h]
      ensures h != d.href && h in Objects(t, col) && Objects(t, col)[h].uid != d.obj.uid ==> h in Objects(after, col)
    {
      UpsertEffect(t, col, d.href, d.obj, h);
    }
  }

  /** A day that is skipped is there as it should be. */
  lemma AlreadyThere(s: State<string>, t: State<string>, col: Col, days: seq<Day>, d: Day)
    requires AreDays(days + [d]) && Agree(days + [d]) && EtagsTell(s, col, days + [d])
    requires DaysAreIn(s, t, col, days) && EtagIn(Have(s, col), d.href) == d.obj.etag
    ensures d.href in Objects(t, col) && Objects(t, col)[d.href] == d.obj
  {
    assert forall e :: e in days + [d] <==> e in days || e == d;
    assert d.href in Objects(s, col) && Objects(s, col)[d.href] == d.obj;
    if d.href in Wanted(days) {
      var e :| e in days && e.href == d.href;
    }
  }

  lemma {:induction false} DaysGoIn(s: State<string>, col: Col, days: seq<Day>)
    requires col in s.cols && AreDays(days) && Agree(days) && EtagsTell(s, col, days)
    ensures DaysAreIn(s, UpsertDays(s, col, Have(s, col), days), col, days)
  {
    if days != [] {
      var front, d := days[..|days| - 1], days[|days| - 1];
      assert days == front + [d];
      assert forall e :: e in front ==> e in days;
      DaysGoIn(s, col, front);
      OneMoreDay(s, UpsertDays(s, col, Have(s, col), front), col, front, d);
    }
  }

  /** After one pass the managed objects are exactly the wanted ones. */
  lemma PassConverges(s: State<string>, col: Col, days: seq<Day>, order: seq<string>, t: State<string>)
    requires IsPass(s, col, days, order, t) && AreDays(days) && Agree(days) && EtagsTell(s, col, days)
    ensures forall h | IsManaged(h) :: h in Objects(t, col) <==> h in Wanted(days)
    ensures forall d :: d in days ==> d.href in Objects(t, col) && Objects(t, col)[d.href] == d.obj
  {
    DaysGoIn(s, col, days);
    var u := UpsertDays(s, col, Have(s, col), days);
    forall h
      ensures h in Objects(t, col) <==> h in Objects(u, col) && h !in order
      ensures h in Objects(t, col) ==> Objects(t, col)[h] == Objects(u, col)[h]
    {
      DeletedEach(u, col, order, col, h);
    }
  }

  /** Everything that is managed is wanted, and everything that is wanted has its etag. */
  ghost predicate IsSettled(s: State<string>, col: Col, days: seq<Day>) {
    && (forall d :: d in days ==> EtagIn(Have(s, col), d.href) == d.obj.etag)
    && Have(s, col).Keys <= Wanted(days)
  }

  lemma {:induction false} NothingToUpsert(s: State<string>, col: Col, have: map<string, string>, days: seq<Day>)
    requires col in s.cols && forall d :: d in days ==> EtagIn(have, d.href) == d.obj.etag
    ensures UpsertDays(s, col, have, days) == s
  {
    if days != [] {
      NothingToUpsert(s, col, have, days[..|days| - 1]);
    }
  }

  lemma UpsertDayGrows(s: State<string>, col: Col, have: map<string, string>, d: Day)
    requires col in s.cols
    ensures |UpsertDay(s, col, have, d).log| >= |s.log|
    ensures EtagIn(have, d.href) != d.obj.etag ==> |UpsertDay(s, col, have, d).log| > |s.log|
  {
  }

  lemma {:induction false} UpsertsGrow(s: State<string>, col: Col, have: map<string, string>, days: seq<Day>)
    requires col in s.cols
    ensures |UpsertDays(s, col, have, days).log| >= |s.log|
    ensures |UpsertDays(s, col, have, days).log| == |s.log| ==> forall d :: d in days ==> EtagIn(have, d.href) == d.obj.etag
  {
    if days != [] {
      var front, d := days[..|days| - 1], days[|days| - 1];
      assert days == front + [d];
      UpsertsGrow(s, col, have, front);
      UpsertDayGrows(UpsertDays(s, col, have, front), col, have, d);
    }
  }

  lemma {:induction false} DeletesGrow(s: State<string>, col: Col, order: seq<string>)
    requires col in s.cols
    ensures |DeleteEach(s, col, order).log| >= |s.log|
    ensures |DeleteEach(s, col, order).log| == |s.log| ==> DeleteEach(s, col, order) == s
    decreases |order|
  {
    if order != [] {
      DeletesGrow(s, col, order[..|order| - 1]);
    }
  }

  lemma ListsNothing(order: seq<string>)
    requires Lists(order, {})
    ensures order == []
  {
    FirstIsIn(order);
  }

  lemma FirstIsIn(order: seq<string>)
    ensures order != [] ==> exists h :: h in order
  {
    if order != [] {
      assert order[0] in order;
    }
  }

  /** A pass appends nothing to the log exactly when the calendar is settled; it then changes nothing at all. */
  lemma IdleIffSettled(s: State<string>, col: Col, days: seq<Day>, order: seq<string>, t: State<string>)
    requires IsPass(s, col, days, order, t) && AreDays(days)
    ensures |t.log| == |s.log| <==> IsSettled(s, col, days)
    ensures IsSettled(s, col, days) ==> t == s
  {
    var have := Have(s, col);
    var u := UpsertDays(s, col, have, days);
    UpsertsGrow(s, col, have, days);
    DeletesGrow(u, col, order);
    if IsSettled(s, col, days) {
      NothingToUpsert(s, col, have, days);
      assert have.Keys - Wanted(days) == {};
      ListsNothing(order);
    } else if |t.log| == |s.log| {
      NothingToUpsert(s, col, have, days);
      assert t == u == s;
      forall h | h in have.Keys ensures h in Wanted(days) {
        if h !in Wanted(days) {
          assert h in order;
          DeletedEach(u, col, order, col, h);
        }
      }
    }
  }

  /**
    The second pass over the same contacts, in whatever order they come, changes nothing exactly when
    days with one href are one event; otherwise it logs changes, and so does every later pass.
   */
  lemma SecondPassIsIdle(s: State<string>, t: State<string>, u: State<string>, col: Col, days: seq<Day>, again: seq<Day>,
                         order: seq<string>, order2: seq<string>)
    requires AreDays(days) && EtagsTell(s, col, days) && forall d :: d in days <==> d in again
    requires IsPass(s, col, days, order, t) && IsPass(t, col, again, order2, u)
    ensures |u.log| == |t.log| <==> Agree(days)
    ensures Agree(days) ==> u == t
  {
    assert Wanted(again) == Wanted(days);
    IdleIffSettled(t, col, again, order2, u);
    if Agree(days) {
      PassConverges(s, col, days, order, t);
      assert IsSettled(t, col, again);
    } else {
      var d, e :| d in days && e in days && d.href == e.href && d.obj != e.obj;
      assert EtagIn(Have(t, col), d.href) != d.obj.etag || EtagIn(Have(t, col), e.href) != e.obj.etag;
    }
  }

  // ----- the days of the contacts -----

  datatype Contact = Contact(uid: string, fn: string, birthday: string, anniversary: string)

  datatype Settings = Settings(birthdays: bool, anniversaries: bool, alarms: seq<string>)

  /** The text of an event and its etag, from UID, summary, date and alarms. */
  datatype Writer = Writer(text: (string, string, string, seq<string>) -> string, etag: string -> string, year: string)

  function WithoutDashes(s: string): string {
    if s == "" then "" else (if s[0] == '-' then "" else [s[0]]) + WithoutDashes(s[1..])
  }

  function MonthDay(raw: string): string {
    var s := WithoutDashes(Trim(raw));
    if |s| == 8 then s[4..] else if |s| == 4 then s else ""
  }

  function Clean(c: char): char {
    if 'a' <= c <= 'z' || 'A' <= c <= 'Z' || '0' <= c <= '9' || c == '-' then c else '-'
  }

  function Sanitize(s: string): (t: string)
    ensures |t| == |s|
  {
    seq(|s|, i requires 0 <= i < |s| => Clean(s[i]))
  }

  function DayUid(kind: string, uid: string): string { "id-" + kind + "-" + uid + "@dcalcon" }

  function DayHref(kind: string, uid: string): string { "id-" + kind + "-" + Sanitize(uid) + ".ics" }

  function DayOf(w: Writer, alarms: seq<string>, c: Contact, kind: string, summary: string, date: string): seq<Day> {
    if date == "" || MonthDay(date) == "" then []
    else
      var name := if c.fn != "" then c.fn else c.uid;
      var text := w.text(DayUid(kind, c.uid), name + summary, w.year + MonthDay(date), alarms);
      [Day(DayHref(kind, c.uid), Obj(DayUid(kind, c.uid), w.etag(text), text))]
  }

  const BIRTHDAY := " \U{2014} Birthday"
  const ANNIVERSARY := " \U{2014} Anniversary"

  function ContactDays(w: Writer, settings: Settings, c: Contact): seq<Day> {
    (if settings.birthdays then DayOf(w, settings.alarms, c, "bday", BIRTHDAY, c.birthday) else [])
    + (if settings.anniversaries then DayOf(w, settings.alarms, c, "ann", ANNIVERSARY, c.anniversary) else [])
  }

  function DaysOf(w: Writer, settings: Settings, contacts: seq<Contact>): seq<Day> {
    if contacts == [] then []
    else DaysOf(w, settings, contacts[..|contacts| - 1]) + ContactDays(w, settings, contacts[|contacts| - 1])
  }

  /** Among these days no two texts share an etag, and no text serves two UIDs; no etag is empty. */
  ghost predicate TextsTell(days: seq<Day>) {
    && (forall d :: d in days ==> d.obj.etag != "")
    && (forall d, e :: d in days && e in days && d.obj.etag == e.obj.etag ==> d.obj.data == e.obj.data)
    && (forall d, e :: d in days && e in days && d.obj.data == e.obj.data ==> d.obj.uid == e.obj.uid)
  }

  /** A day made by the writer for some contact. */
  ghost predicate IsDayOf(d: Day, w: Writer, kind: string, uid: string) {
    d.href == DayHref(kind, uid) && d.obj.uid == DayUid(kind, uid) && d.obj.etag == w.etag(d.obj.data)
  }

  ghost predicate IsDayFor(d: Day, w: Writer, c: Contact) {
    IsDayOf(d, w, "bday", c.uid) || IsDayOf(d, w, "ann", c.uid)
  }

  lemma {:induction false} DaysAreMade(w: Writer, settings: Settings, contacts: seq<Contact>)
    ensures forall d :: d in DaysOf(w, settings, contacts) ==> exists c :: c in contacts && IsDayFor(d, w, c)
  {
    if contacts != [] {
      var k := |contacts| - 1;
      DaysAreMade(w, settings, contacts[..k]);
      forall d | d in DaysOf(w, settings, contacts) ensures exists c :: c in contacts && IsDayFor(d, w, c) {
        if d in DaysOf(w, settings, contacts[..k]) {
          var c :| c in contacts[..k] && IsDayFor(d, w, c);
          assert c in contacts;
        } else {
          assert contacts[k] in contacts && IsDayFor(d, w, contacts[k]);
        }
      }
    }
  }

  lemma SameKindOfUid(a: string, b: string, kind: string, other: string)
    requires kind in {"bday", "ann"} && other in {"bday", "ann"} && DayUid(kind, a) == DayUid(other, b)
    ensures kind == other && a == b
  {
    var x, y := DayUid(kind, a), DayUid(other, b);
    assert x[3] == kind[0] && y[3] == other[0];
    var n := 3 + |kind| + 1;
    assert x[n..|x| - 8] == a && y[n..|y| - 8] == b;
  }

  lemma DayHrefIsManaged(kind: string, uid: string)
    ensures IsManaged(DayHref(kind, uid))
  {
    assert "id-" + "%" == "id-%";
    LikePrefix(DayHref(kind, uid), "id-");
    assert ToLower("id-") == "id-";
    assert ToLower(DayHref(kind, uid))[..3] == "id-";
  }

  /** The days of any contacts have managed hrefs, and equal UIDs only with equal hrefs. */
  lemma DaysOfAreDays(w: Writer, settings: Settings, contacts: seq<Contact>)
    requires TextsTell(DaysOf(w, settings, contacts))
    ensures AreDays(DaysOf(w, settings, contacts))
  {
    var days := DaysOf(w, settings, contacts);
    DaysAreMade(w, settings, contacts);
    hide DaysOf, IsManaged, DayUid, DayHref;
    forall d | d in days ensures IsManaged(d.href) && d.obj.uid != "" && d.obj.etag != "" {
      var c :| c in contacts && IsDayFor(d, w, c);
      DayHrefIsManaged("bday", c.uid);
      DayHrefIsManaged("ann", c.uid);
      DayUidIsNotEmpty(c.uid);
    }
    forall d, e | d in days && e in days && d.obj.uid == e.obj.uid ensures d.href == e.href {
      var c :| c in contacts && IsDayFor(d, w, c);
      var f :| f in contacts && IsDayFor(e, w, f);
      var kind := if IsDayOf(d, w, "bday", c.uid) then "bday" else "ann";
      var other := if IsDayOf(e, w, "bday", f.uid) then "bday" else "ann";
      SameKindOfUid(c.uid, f.uid, kind, other);
    }
  }

  lemma DayUidIsNotEmpty(uid: string)
    ensures DayUid("bday", uid) != "" && DayUid("ann", uid) != ""
  {
  }

  // ----- which contacts make days that agree -----

  predicate IsKind(kind: string) {
    kind == "bday" || kind == "ann"
  }

  function DateOf(c: Contact, kind: string): string {
    if kind == "bday" then c.birthday else c.anniversary
  }

  /** The contact has an event of this kind. */
  predicate HasDay(settings: Settings, c: Contact, kind: string) {
    && IsKind(kind)
    && (if kind == "bday" then settings.birthdays else settings.anniversaries)
    && DateOf(c, kind) != "" && MonthDay(DateOf(c, kind)) != ""
  }

  function TheDay(w: Writer, settings: Settings, c: Contact, kind: string): (d: Day)
    requires HasDay(settings, c, kind)
    ensures d.href == DayHref(kind, c.uid) && d.obj.uid == DayUid(kind, c.uid)
  {
    DayOf(w, settings.alarms, c, kind, if kind == "bday" then BIRTHDAY else ANNIVERSARY, DateOf(c, kind))[0]
  }

  lemma ContactDaysAre(w: Writer, settings: Settings, c: Contact, d: Day)
    ensures d in ContactDays(w, settings, c) <==> exists kind :: HasDay(settings, c, kind) && d == TheDay(w, settings, c, kind)
  {
    hide MonthDay, DayHref, DayUid;
    var bday := if settings.birthdays then DayOf(w, settings.alarms, c, "bday", BIRTHDAY, c.birthday) else [];
    var ann := if settings.anniversaries then DayOf(w, settings.alarms, c, "ann", ANNIVERSARY, c.anniversary) else [];
    assert d in ContactDays(w, settings, c) <==> d in bday || d in ann;
    assert d in bday <==> HasDay(settings, c, "bday") && d == TheDay(w, settings, c, "bday");
    assert d in ann <==> HasDay(settings, c, "ann") && d == TheDay(w, settings, c, "ann");
  }

  lemma {:induction false} DaysOfAre(w: Writer, settings: Settings, contacts: seq<Contact>, d: Day)
    ensures d in DaysOf(w, settings, contacts) <==>
              exists c, kind :: c in contacts && HasDay(settings, c, kind) && d == TheDay(w, settings, c, kind)
  {
    if contacts != [] {
      hide HasDay, TheDay, ContactDays;
      var k := |contacts| - 1;
      assert contacts == contacts[..k] + [contacts[k]];
      DaysOfAre(w, settings, contacts[..k], d);
      ContactDaysAre(w, settings, contacts[k], d);
    }
  }

  /** Hrefs tell the kind, and of the UID what is left of it when cleaned. */
  lemma DayHrefTells(kind: string, a: string, other: string, b: string)
    requires IsKind(kind) && IsKind(other)
    ensures DayHref(kind, a) == DayHref(other, b) <==> kind == other && Sanitize(a) == Sanitize(b)
  {
    var x, y := DayHref(kind, a), DayHref(other, b);
    assert x[3] == kind[0] && y[3] == other[0];
    var n := 3 + |kind| + 1;
    assert x[n..|x| - 4] == Sanitize(a);
    assert kind == other ==> y[n..|y| - 4] == Sanitize(b);
  }

  /** Contacts whose UIDs are the same when cleaned have the same UID and the same events. */
  ghost predicate AreConsistent(w: Writer, settings: Settings, contacts: seq<Contact>) {
    forall c, f, kind | c in contacts && f in contacts && HasDay(settings, c, kind) && HasDay(settings, f, kind) ::
      Sanitize(c.uid) == Sanitize(f.uid) ==>
        c.uid == f.uid && TheDay(w, settings, c, kind).obj.data == TheDay(w, settings, f, kind).obj.data
  }

  lemma SameDay(w: Writer, settings: Settings, c: Contact, f: Contact, kind: string)
    requires HasDay(settings, c, kind) && HasDay(settings, f, kind)
    ensures TheDay(w, settings, c, kind).obj == TheDay(w, settings, f, kind).obj <==>
              c.uid == f.uid && TheDay(w, settings, c, kind).obj.data == TheDay(w, settings, f, kind).obj.data
  {
    hide MonthDay, DayHref;
    if TheDay(w, settings, c, kind).obj == TheDay(w, settings, f, kind).obj {
      SameKindOfUid(c.uid, f.uid, kind, kind);
    }
  }

  /** The days of contacts agree exactly when the contacts are consistent. */
  lemma AgreeIffConsistent(w: Writer, settings: Settings, contacts: seq<Contact>)
    ensures Agree(DaysOf(w, settings, contacts)) <==> AreConsistent(w, settings, contacts)
  {
    hide DaysOf, TheDay, DayHref, DayUid, HasDay, Sanitize;
    var days := DaysOf(w, settings, contacts);
    if AreConsistent(w, settings, contacts) {
      forall d, e | d in days && e in days && d.href == e.href ensures d.obj == e.obj {
        DaysOfAre(w, settings, contacts, d);
        DaysOfAre(w, settings, contacts, e);
        var c, kind :| c in contacts && HasDay(settings, c, kind) && d == TheDay(w, settings, c, kind);
        var f, other :| f in contacts && HasDay(settings, f, other) && e == TheDay(w, settings, f, other);
        KindsAre(settings, c, kind);
        KindsAre(settings, f, other);
        DayHrefTells(kind, c.uid, other, f.uid);
        SameDay(w, settings, c, f, kind);
      }
    }
    if Agree(days) {
      forall c, f, kind | c in contacts && f in contacts && HasDay(settings, c, kind) && HasDay(settings, f, kind)
                          && Sanitize(c.uid) == Sanitize(f.uid)
        ensures c.uid == f.uid && TheDay(w, settings, c, kind).obj.data == TheDay(w, settings, f, kind).obj.data
      {
        DaysOfAre(w, settings, contacts, TheDay(w, settings, c, kind));
        DaysOfAre(w, settings, contacts, TheDay(w, settings, f, kind));
        KindsAre(settings, c, kind);
        DayHrefTells(kind, c.uid, kind, f.uid);
        SameDay(w, settings, c, f, kind);
      }
    }
  }

  lemma KindsAre(settings: Settings, c: Contact, kind: string)
    requires HasDay(settings, c, kind)
    ensures IsKind(kind)
  {
  }

  /**
    Two passes of the worker over the same contacts, in whatever order they are listed: the second
    changes nothing exactly when the contacts are consistent.
   */
  lemma WorkerIsIdle(w: Writer, settings: Settings, contacts: seq<Contact>, again: seq<Contact>,
                     s: State<string>, t: State<string>, u: State<string>, col: Col, order: seq<string>, order2: seq<string>)
    requires TextsTell(DaysOf(w, settings, contacts)) && forall c :: c in contacts <==> c in again
    requires EtagsTell(s, col, DaysOf(w, settings, contacts))
    requires IsPass(s, col, DaysOf(w, settings, contacts), order, t) && IsPass(t, col, DaysOf(w, settings, again), order2, u)
    ensures |u.log| == |t.log| <==> AreConsistent(w, settings, contacts)
    ensures AreConsistent(w, settings, contacts) ==> u == t
  {
    hide DaysOf, TheDay, HasDay, AreConsistent, IsPass, TextsTell, EtagsTell, AreDays;
    forall d ensures d in DaysOf(w, settings, contacts) <==> d in DaysOf(w, settings, again) {
      DaysOfAre(w, settings, contacts, d);
      DaysOfAre(w, settings, again, d);
    }
    DaysOfAreDays(w, settings, contacts);
    AgreeIffConsistent(w, settings, contacts);
    SecondPassIsIdle(s, t, u, col, DaysOf(w, settings, contacts), DaysOf(w, settings, again), order, order2);
  }

  /** Contacts with different UIDs even when cleaned are consistent. */
  lemma DistinctAreConsistent(w: Writer, settings: Settings, contacts: seq<Contact>)
    requires forall i, j :: 0 <= i < j < |contacts| ==> Sanitize(contacts[i].uid) != Sanitize(contacts[j].uid)
    ensures AreConsistent(w, settings, contacts)
  {
    hide TheDay, HasDay, Sanitize;
    forall c, f | c in contacts && f in contacts && Sanitize(c.uid) == Sanitize(f.uid) ensures c == f {
      var i :| 0 <= i < |contacts| && contacts[i] == c;
      var j :| 0 <= j < |contacts| && contacts[j] == f;
    }
  }

  /**
    Two contacts whose UIDs differ only in characters that a file name may not have, both with a
    birthday or both with an anniversary, share an href: every pass writes both of them again.
   */
  lemma CollidingContacts(w: Writer, settings: Settings, contacts: seq<Contact>, i: nat, j: nat, kind: string)
    requires i < |contacts| && j < |contacts|
    requires contacts[i].uid != contacts[j].uid && Sanitize(contacts[i].uid) == Sanitize(contacts[j].uid)
    requires HasDay(settings, contacts[i], kind) && HasDay(settings, contacts[j], kind)
    ensures !AreConsistent(w, settings, contacts) && !Agree(DaysOf(w, settings, contacts))
  {
    hide DaysOf, DayHref, DayUid;
    var days := DaysOf(w, settings, contacts);
    var d, e := TheDay(w, settings, contacts[i], kind), TheDay(w, settings, contacts[j], kind);
    DaysOfAre(w, settings, contacts, d);
    DaysOfAre(w, settings, contacts, e);
    DayHrefTells(kind, contacts[i].uid, kind, contacts[j].uid);
    if d.obj.uid == e.obj.uid {
      SameKindOfUid(contacts[i].uid, contacts[j].uid, kind, kind);
    }
  }

  // ----- the People book -----

  /** A user's card: its href, and the object with the card as text. */
  datatype Card = Card(href: string, obj: Obj<string>)

  /** The map of wanted cards; a later card for an href takes its place. */
  function WantedCards(cards: seq<Card>): map<string, Obj<string>> {
    if cards == [] then map[] else WantedCards(cards[..|cards| - 1])[cards[|cards| - 1].href := cards[|cards| - 1].obj]
  }

  predicate IsThere(have: map<string, Obj<string>>, href: string, card: Obj<string>) {
    href in have && have[href].data == card.data
  }

  function UpsertCards(s: State<string>, col: Col, want: map<string, Obj<string>>, order: seq<string>): (t: State<string>)
    requires col in s.cols && forall h :: h in order ==> h in want
    ensures t.cols.Keys == s.cols.Keys
  {
    if order == [] then s
    else
      var h := order[|order| - 1];
      var before := UpsertCards(s, col, want, order[..|order| - 1]);
      if IsThere(Objects(s, col), h, want[h]) then before else PutObject(before, col, h, want[h])
  }

  /** RefreshPeopleBook; the two orders are those in which the maps are gone through. */
  ghost predicate IsRefresh(s: State<string>, col: Col, want: map<string, Obj<string>>, writes: seq<string>, deletes: seq<string>,
                            t: State<string>) {
    && col in s.cols
    && Lists(writes, want.Keys)
    && Lists(deletes, Objects(s, col).Keys - want.Keys)
    && t == DeleteEach(UpsertCards(s, col, want, writes), col, deletes)
  }

  lemma {:induction false} CardsGoIn(s: State<string>, col: Col, want: map<string, Obj<string>>, order: seq<string>, h: string)
    requires col in s.cols && forall k :: k in order ==> k in want
    ensures var t := UpsertCards(s, col, want, order);
            && (h in Objects(t, col) <==> h in Objects(s, col) || h in order)
            && (h in order ==> Objects(t, col)[h].data == want[h].data)
            && (h in order ==> Objects(t, col)[h] == want[h] || (h in Objects(s, col) && Objects(t, col)[h] == Objects(s, col)[h]))
            && (h in Objects(s, col) && h !in order ==> Objects(t, col)[h] == Objects(s, col)[h])
  {
    if order != [] {
      CardsGoIn(s, col, want, order[..|order| - 1], h);
      assert order == order[..|order| - 1] + [order[|order| - 1]];
    }
  }

  /** UID and etag come with the text. */
  ghost predicate MadeFromTexts(made: string -> Obj<string>, objects: map<string, Obj<string>>) {
    forall h :: h in objects ==> objects[h] == made(objects[h].data)
  }

  /**
    After one refresh the book holds the texts of exactly the wanted cards; and where UID and etag
    come with the text, in the book before as in the wanted cards, it holds exactly these objects.
   */
  lemma RefreshConverges(s: State<string>, col: Col, want: map<string, Obj<string>>, writes: seq<string>, deletes: seq<string>,
                         t: State<string>, made: string -> Obj<string>)
    requires IsRefresh(s, col, want, writes, deletes, t)
    ensures Objects(t, col).Keys == want.Keys && forall h :: h in want ==> Objects(t, col)[h].data == want[h].data
    ensures MadeFromTexts(made, Objects(s, col)) && MadeFromTexts(made, want) ==> Objects(t, col) == want
  {
    var u := UpsertCards(s, col, want, writes);
    forall h ensures h in Objects(t, col) <==> h in want
             ensures h in want ==> Objects(t, col)[h].data == want[h].data
             ensures h in want ==> Objects(t, col)[h] == want[h] || (h in Objects(s, col) && Objects(t, col)[h] == Objects(s, col)[h])
    {
      CardsGoIn(s, col, want, writes, h);
      DeletedEach(u, col, deletes, col, h);
    }
  }

  lemma {:induction false} NoCardToWrite(s: State<string>, col: Col, want: map<string, Obj<string>>, order: seq<string>)
    requires col in s.cols && forall h :: h in order ==> h in want && IsThere(Objects(s, col), h, want[h])
    ensures UpsertCards(s, col, want, order) == s
  {
    if order != [] {
      NoCardToWrite(s, col, want, order[..|order| - 1]);
    }
  }

  /** A second refresh for the same users changes nothing: no log entry, no new ctag. */
  lemma SecondRefreshIsIdle(s: State<string>, t: State<string>, u: State<string>, col: Col, want: map<string, Obj<string>>,
                            writes: seq<string>, deletes: seq<string>, writes2: seq<string>, deletes2: seq<string>)
    requires IsRefresh(s, col, want, writes, deletes, t) && IsRefresh(t, col, want, writes2, deletes2, u)
    ensures u == t
  {
    RefreshConverges(s, col, want, writes, deletes, t, text => Obj("", "", text));
    NoCardToWrite(t, col, want, writes2);
    assert Objects(t, col).Keys - want.Keys == {};
    ListsNothing(deletes2);
  }
}
