/**
  The two reconcilers as they run: loops that fill have and want and write to the tables.
 */
module ReconcileTables {
  import opened Store
  import opened StoreTables
  import opened Reconcile

  lemma {:induction false} UpsertDaysConcat(s: State<string>, col: Col, have: map<string, string>, a: seq<Day>, b: seq<Day>)
    requires col in s.cols
    ensures UpsertDays(s, col, have, a + b) == UpsertDays(UpsertDays(s, col, have, a), col, have, b)
    decreases |b|
  {
    if b == [] {
      assert a + b == a;
    } else {
      UpsertDaysConcat(s, col, have, a, b[..|b| - 1]);
      assert (a + b)[..|a + b| - 1] == a + b[..|b| - 1];
    }
  }

  lemma WantedConcat(a: seq<Day>, b: seq<Day>)
    ensures Wanted(a + b) == Wanted(a) + Wanted(b)
  {
    assert forall d :: d in a + b <==> d in a || d in b;
  }

  /** upsertDay, for one date of one contact. */
  method UpsertOne(db: Tables<string>, col: Col, w: Writer, alarms: seq<string>, c: Contact, kind: string, summary: string,
                   date: string, have: map<string, string>, want: set<string>) returns (wanted: set<string>)
    requires col in db.cols && col.kind == Calendar && Inv(db.State())
    modifies db
    ensures col in db.cols && Inv(db.State())
    ensures db.State() == UpsertDays(old(db.State()), col, have, DayOf(w, alarms, c, kind, summary, date))
    ensures wanted == want + Wanted(DayOf(w, alarms, c, kind, summary, date))
  {
    ghost var day := DayOf(w, alarms, c, kind, summary, date);
    var md := MonthDay(date);
    if date == "" || md == "" {
      return want;
    }
    var name := if c.fn != "" then c.fn else c.uid;
    var uid, href := DayUid(kind, c.uid), DayHref(kind, c.uid);
    var text := w.text(uid, name + summary, w.year + md, alarms);
    var obj := Obj(uid, w.etag(text), text);
    assert day == [Day(href, obj)] && day[..0] == [];
    wanted := want + {href};
    if EtagIn(have, href) == obj.etag {
      return;
    }
    db.UpsertCalendarObject(col, href, obj);
  }

  method ApplyImportantDates(db: Tables<string>, col: Col, w: Writer, settings: Settings, contacts: seq<Contact>)
    returns (ghost order: seq<string>)
    requires col in db.cols && col.kind == Calendar && Inv(db.State())
    modifies db
    ensures IsPass(old(db.State()), col, DaysOf(w, settings, contacts), order, db.State()) && Inv(db.State())
  {
    ghost var s := db.State();
    var objects := db.cols[col].objects;
    var have := map h | h in objects && IsManaged(h) :: objects[h].etag;
    assert have == Have(s, col);
    var want := UpsertAll(db, col, w, settings, contacts, have);
    order := DeleteUnwanted(db, col, have.Keys, want);
  }

  method UpsertAll(db: Tables<string>, col: Col, w: Writer, settings: Settings, contacts: seq<Contact>, have: map<string, string>)
    returns (want: set<string>)
    requires col in db.cols && col.kind == Calendar && Inv(db.State())
    modifies db
    ensures col in db.cols && Inv(db.State())
    ensures db.State() == UpsertDays(old(db.State()), col, have, DaysOf(w, settings, contacts))
    ensures want == Wanted(DaysOf(w, settings, contacts))
  {
    ghost var s := db.State();
    want := {};
    assert contacts[..0] == [];
    for i := 0 to |contacts|
      invariant col in db.cols && Inv(db.State())
      invariant db.State() == UpsertDays(s, col, have, DaysOf(w, settings, contacts[..i]))
      invariant want == Wanted(DaysOf(w, settings, contacts[..i]))
    {
      assert contacts[..i + 1][..i] == contacts[..i];
      ghost var days := DaysOf(w, settings, contacts[..i]);
      UpsertDaysConcat(s, col, have, days, ContactDays(w, settings, contacts[i]));
      WantedConcat(days, ContactDays(w, settings, contacts[i]));
      want := UpsertContact(db, col, w, settings, contacts[i], have, want);
    }
    assert contacts[..|contacts|] == contacts;
  }

  /** The body of the loop over contacts. */
  method UpsertContact(db: Tables<string>, col: Col, w: Writer, settings: Settings, c: Contact, have: map<string, string>,
                       want: set<string>) returns (wanted: set<string>)
    requires col in db.cols && col.kind == Calendar && Inv(db.State())
    modifies db
    ensures col in db.cols && Inv(db.State())
    ensures db.State() == UpsertDays(old(db.State()), col, have, ContactDays(w, settings, c))
    ensures wanted == want + Wanted(ContactDays(w, settings, c))
  {
    ghost var first := if settings.birthdays then DayOf(w, settings.alarms, c, "bday", BIRTHDAY, c.birthday) else [];
    ghost var second := if settings.anniversaries then DayOf(w, settings.alarms, c, "ann", ANNIVERSARY, c.anniversary) else [];
    UpsertDaysConcat(db.State(), col, have, first, second);
    WantedConcat(first, second);
    hide DayOf, UpsertDay, Inv;
    wanted := want;
    if settings.birthdays {
      wanted := UpsertOne(db, col, w, settings.alarms, c, "bday", BIRTHDAY, c.birthday, have, wanted);
    }
    if settings.anniversaries {
      wanted := UpsertOne(db, col, w, settings.alarms, c, "ann", ANNIVERSARY, c.anniversary, have, wanted);
    }
  }

  lemma ListsSnoc(order: seq<string>, seen: set<string>, h: string)
    requires Lists(order, seen) && h !in seen
    ensures Lists(order + [h], seen + {h})
  {
  }

  /** The last loop of both reconcilers: hrefs that are no longer wanted go; one already gone is no error. */
  method DeleteUnwanted(db: Tables<string>, col: Col, have: set<string>, want: set<string>) returns (ghost order: seq<string>)
    requires col in db.cols && Inv(db.State())
    modifies db
    ensures col in db.cols && Inv(db.State())
    ensures Lists(order, have - want) && db.State() == DeleteEach(old(db.State()), col, order)
  {
    ghost var s := db.State();
    var rest := have;
    order := [];
    while rest != {}
      invariant col in db.cols && rest <= have
      invariant Lists(order, have - rest - want) && db.State() == DeleteEach(s, col, order)
      decreases |rest|
    {
      hide Lists, Inv;
      var h :| h in rest;
      ghost var seen := have - rest - want;
      rest := rest - {h};
      if h in want {
        assert have - rest - want == seen;
        continue;
      }
      assert have - rest - want == seen + {h};
      ListsSnoc(order, seen, h);
      assert (order + [h])[..|order|] == order;
      var _ := db.DeleteCalendarObject(col, h);
      order := order + [h];
    }
    assert have - rest - want == have - want;
    DeleteEachKeepsInv(s, col, order);
  }

  method RefreshPeopleBook(db: Tables<string>, col: Col, cards: seq<Card>)
    returns (ghost writes: seq<string>, ghost deletes: seq<string>)
    requires col in db.cols && col.kind == AddressBook && Inv(db.State())
    modifies db
    ensures IsRefresh(old(db.State()), col, WantedCards(cards), writes, deletes, db.State()) && Inv(db.State())
  {
    var want: map<string, Obj<string>> := map[];
    assert cards[..0] == [];
    for i := 0 to |cards|
      invariant want == WantedCards(cards[..i])
    {
      assert cards[..i + 1][..i] == cards[..i];
      want := want[cards[i].href := cards[i].obj];
    }
    assert cards[..|cards|] == cards;
    var have := db.cols[col].objects;
    writes := WriteCards(db, col, have, want);
    deletes := DeleteUnwanted(db, col, have.Keys, want.Keys);
  }

  method WriteCards(db: Tables<string>, col: Col, have: map<string, Obj<string>>, want: map<string, Obj<string>>)
    returns (ghost writes: seq<string>)
    requires col in db.cols && col.kind == AddressBook && Inv(db.State()) && have == Objects(db.State(), col)
    modifies db
    ensures col in db.cols && Inv(db.State())
    ensures Lists(writes, want.Keys) && db.State() == UpsertCards(old(db.State()), col, want, writes)
  {
    ghost var s := db.State();
    var rest := want.Keys;
    writes := [];
    while rest != {}
      invariant col in db.cols && Inv(db.State()) && rest <= want.Keys
      invariant Lists(writes, want.Keys - rest) && db.State() == UpsertCards(s, col, want, writes)
      decreases |rest|
    {
      hide Lists, Inv;
      var h :| h in rest;
      ListsSnoc(writes, want.Keys - rest, h);
      assert want.Keys - (rest - {h}) == (want.Keys - rest) + {h};
      rest := rest - {h};
      assert (writes + [h])[..|writes|] == writes;
      writes := writes + [h];
      if h in have && have[h].data == want[h].data {
        continue;
      }
      db.UpsertAddressObject(col, h, want[h]);
    }
    assert want.Keys - rest == want.Keys;
  }
}
