/**
  Which days a contact gives, what their events are called, and which cards the People book has.
 */
module ReconcileDays {
  import opened Reconcile
  import opened Store
  import opened Strings
  import opened Wrappers

  lemma OneChar(c: char, s: string)
    ensures WithoutDashes([c] + s) == (if c == '-' then "" else [c]) + WithoutDashes(s)
  {
    assert ([c] + s)[1..] == s;
  }

  lemma {:induction false} DashesGo(a: string, b: string)
    ensures WithoutDashes(a + b) == WithoutDashes(a) + WithoutDashes(b)
  {
    if a == "" {
      assert a + b == b;
    } else {
      DashesGo(a[1..], b);
      OneChar(a[0], a[1..] + b);
      OneChar(a[0], a[1..]);
      hide WithoutDashes;
      assert a + b == [a[0]] + (a[1..] + b) && a == [a[0]] + a[1..];
    }
  }

  lemma {:induction false} NoDashes(s: string)
    requires '-' !in s
    ensures WithoutDashes(s) == s
  {
    if s != "" {
      NoDashes(s[1..]);
    }
  }

  /** Digits, or anything else without hyphens and white space. */
  ghost predicate IsField(s: string, n: nat) {
    |s| == n && forall i | 0 <= i < n :: s[i] != '-' && !IsSpace(s[i])
  }

  lemma DashIsNoSpace()
    ensures !IsSpace('-')
  {
  }

  /** What is left of a text of fields and hyphens. */
  lemma Hyphens()
    ensures WithoutDashes("-") == "" == WithoutDashes("--")
  {
    DashesGo("-", "-");
    assert "-" + "-" == "--";
  }

  lemma FieldsStay(s: string, n: nat)
    requires IsField(s, n)
    ensures WithoutDashes(s) == s
  {
    NoDashes(s);
  }

  lemma BareDate(year: string, month: string, day: string)
    requires IsField(year, 4) && IsField(month, 2) && IsField(day, 2)
    ensures WithoutDashes(year + month + day) == year + month + day
    ensures WithoutDashes(year + "-" + month + "-" + day) == year + month + day
    ensures WithoutDashes("--" + month + day) == month + day == WithoutDashes("--" + month + "-" + day)
  {
    hide WithoutDashes, IsField;
    Hyphens();
    FieldsStay(year, 4);
    FieldsStay(month, 2);
    FieldsStay(day, 2);
    DashesGo(year + month, day);
    DashesGo(year, month);
    DashesGo(year + "-" + month + "-", day);
    DashesGo(year + "-" + month, "-");
    DashesGo(year + "-", month);
    DashesGo(year, "-");
    DashesGo("--" + month, day);
    DashesGo("--", month);
    DashesGo("--" + month + "-", day);
    DashesGo("--" + month, "-");
  }

  /** A date gives its month and day, with the year or without, with hyphens or without. */
  lemma MonthAndDay(year: string, month: string, day: string)
    requires IsField(year, 4) && IsField(month, 2) && IsField(day, 2)
    ensures MonthDay(year + month + day) == month + day
    ensures MonthDay(year + "-" + month + "-" + day) == month + day
    ensures MonthDay("--" + month + day) == month + day
    ensures MonthDay("--" + month + "-" + day) == month + day
  {
    BareDate(year, month, day);
    DashIsNoSpace();
    hide WithoutDashes, MonthDay, IsSpace;
    OneDate(year + month + day, year + month + day, month + day);
    OneDate(year + "-" + month + "-" + day, year + month + day, month + day);
    OneDate("--" + month + day, month + day, month + day);
    OneDate("--" + month + "-" + day, month + day, month + day);
  }

  lemma OneDate(raw: string, bare: string, md: string)
    requires raw != "" && !IsSpace(raw[0]) && !IsSpace(raw[|raw| - 1]) && WithoutDashes(raw) == bare && |md| == 4
    requires bare == md || (|bare| == 8 && bare[4..] == md)
    ensures MonthDay(raw) == md
  {
    TrimOfTrimmed(raw);
    hide Trim, WithoutDashes, IsSpace;
  }

  /** Texts of any other length, hyphens and white space aside, give no day. */
  lemma NoMonthAndDay(raw: string)
    requires |WithoutDashes(Trim(raw))| != 4 && |WithoutDashes(Trim(raw))| != 8
    ensures MonthDay(raw) == ""
  {
    hide Trim, WithoutDashes;
  }

  /** In hrefs, letters, digits and hyphens stay, and anything else becomes a hyphen. */
  lemma CleanedIs(s: string, i: nat)
    requires i < |s|
    ensures var c := s[i];
            Sanitize(s)[i] ==
              if ('A' <= c && c < '[') || ('a' <= c && c < '{') || IsDigit(c) then c else '-'
  {
  }

  /** The day of a contact: its date has a month and a day, and the event is named after it. */
  ghost predicate IsDay(d: Day, w: Writer, settings: Settings, c: Contact, kind: string, title: string, date: string) {
    var uid := "id-" + kind + "-" + c.uid + "@dcalcon";
    && date != "" && MonthDay(date) != ""
    && d.href == "id-" + kind + "-" + Sanitize(c.uid) + ".ics" && d.obj.uid == uid && d.obj.etag == w.etag(d.obj.data)
    && d.obj.data == w.text(uid, (if c.fn == "" then c.uid else c.fn) + title, w.year + MonthDay(date), settings.alarms)
  }

  /** A contact gives its birthday and its anniversary, where they are wanted, and nothing else. */
  lemma DaysOfContact(w: Writer, settings: Settings, c: Contact, d: Day)
    ensures d in ContactDays(w, settings, c) <==>
              || (settings.birthdays && IsDay(d, w, settings, c, "bday", " \U{2014} Birthday", c.birthday))
              || (settings.anniversaries && IsDay(d, w, settings, c, "ann", " \U{2014} Anniversary", c.anniversary))
  {
    hide MonthDay, Sanitize;
  }

  /** The days of contacts are the days of each. */
  lemma {:induction false} DaysOfContacts(w: Writer, settings: Settings, contacts: seq<Contact>, d: Day)
    ensures d in DaysOf(w, settings, contacts) <==> exists c :: c in contacts && d in ContactDays(w, settings, c)
  {
    hide ContactDays;
    if contacts != [] {
      var k := |contacts| - 1;
      DaysOfContacts(w, settings, contacts[..k], d);
      assert contacts == contacts[..k] + [contacts[k]];
    }
  }

  // ----- the People book -----

  /** The card with that number is the last one for its href. */
  ghost predicate IsLastFor(cards: seq<Card>, i: int, h: string) {
    0 <= i < |cards| && cards[i].href == h && forall j | i < j < |cards| :: cards[j].href != h
  }

  lemma {:induction false} WantedAre(cards: seq<Card>, h: string)
    ensures h !in WantedCards(cards) ==> forall i | 0 <= i < |cards| :: cards[i].href != h
    ensures h in WantedCards(cards) ==> exists i :: IsLastFor(cards, i, h) && WantedCards(cards)[h] == cards[i].obj
  {
    if cards != [] {
      var k := |cards| - 1;
      WantedAre(cards[..k], h);
      if cards[k].href == h {
        assert IsLastFor(cards, k, h);
      } else if h in WantedCards(cards) {
        var i :| IsLastFor(cards[..k], i, h) && WantedCards(cards[..k])[h] == cards[i].obj;
        assert IsLastFor(cards, i, h);
      }
    }
  }

  /** After a refresh the book has an href exactly if a user's card does, with the text of the last such card. */
  lemma BookHoldsCards(s: State<string>, col: Col, cards: seq<Card>, writes: seq<string>, deletes: seq<string>,
                       t: State<string>, h: string)
    requires IsRefresh(s, col, WantedCards(cards), writes, deletes, t)
    ensures h in Objects(t, col) <==> exists i | 0 <= i < |cards| :: cards[i].href == h
    ensures forall i :: IsLastFor(cards, i, h) ==> h in Objects(t, col) && Objects(t, col)[h].data == cards[i].obj.data
  {
    RefreshConverges(s, col, WantedCards(cards), writes, deletes, t, text => Obj("", "", text));
    WantedAre(cards, h);
    hide IsRefresh, WantedCards;
  }
}
