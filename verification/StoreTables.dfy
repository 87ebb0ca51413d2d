/**
  The store as the program keeps it: tables in the fields of an object, changed row by row.  Each
  method is proved to do what the function of the same name in `Store` says.
 */
module StoreTables {
  import opened Store
  import opened Strings
  import opened Wrappers

  /** SQL LIKE: % stands for any characters, _ for one; letters match in either case. */
  predicate Like(s: string, pattern: string)
    decreases |pattern|, |s|
  {
    if pattern == "" then s == ""
    else if pattern[0] == '%' then Like(s, pattern[1..]) || (s != "" && Like(s[1..], pattern))
    else s != "" && (pattern[0] == '_' || Lower(s[0]) == Lower(pattern[0])) && Like(s[1..], pattern[1..])
  }

  lemma {:induction false} LikeAnything(s: string)
    ensures Like(s, "%")
    decreases |s|
  {
    if s != "" {
      LikeAnything(s[1..]);
    }
  }

  /** A prefix without wildcards selects the strings that start with it, in either case. */
  lemma {:induction false} LikePrefix(s: string, prefix: string)
    requires forall i :: 0 <= i < |prefix| ==> prefix[i] != '%' && prefix[i] != '_'
    ensures Like(s, prefix + "%") <==> ToLower(prefix) <= ToLower(s)
    decreases |prefix|
  {
    if prefix == "" {
      assert prefix + "%" == "%";
      LikeAnything(s);
    } else {
      var pattern := prefix + "%";
      assert pattern[1..] == prefix[1..] + "%" && pattern[0] == prefix[0];
      if s != "" {
        LikePrefix(s[1..], prefix[1..]);
        assert ToLower(s) == [Lower(s[0])] + ToLower(s[1..]);
        assert ToLower(prefix) == [Lower(prefix[0])] + ToLower(prefix[1..]);
        PrefixCons(Lower(prefix[0]), ToLower(prefix[1..]), Lower(s[0]), ToLower(s[1..]));
      }
    }
  }

  lemma PrefixCons(x: char, a: string, y: char, b: string)
    ensures [x] + a <= [y] + b <==> x == y && a <= b
  {
    if [x] + a <= [y] + b {
      assert ([x] + a)[0] == ([y] + b)[0];
      forall i | 0 <= i < |a| ensures a[i] == b[i] {
        assert ([x] + a)[i + 1] == ([y] + b)[i + 1];
      }
    }
  }

  /** The rows of a result set, in some order. */
  method Enumerate(hrefs: set<string>) returns (order: seq<string>)
    ensures Lists(order, hrefs)
  {
    var rest := hrefs;
    order := [];
    while rest != {}
      invariant rest <= hrefs
      invariant Lists(order, hrefs - rest)
      decreases |rest|
    {
      var h :| h in rest;
      rest := rest - {h};
      order := order + [h];
    }
  }

  class Tables<C> {
    var cols: map<Col, Collection<C>>
    var changes: seq<Change>

    ghost function State(): State<C>
      reads this
    {
      Store.State(cols, changes)
    }

    constructor (cols: map<Col, Collection<C>>)
      ensures State() == Store.State(cols, [])
    {
      this.cols := cols;
      changes := [];
    }

    method RecordChange(col: Col, href: string, deleted: bool)
      modifies this
      ensures cols == old(cols)
      ensures changes == old(changes) + [Change(|old(changes)| + 1, col, href, deleted)]
    {
      changes := changes + [Change(|changes| + 1, col, href, deleted)];
    }

    method Bump(col: Col)
      requires col in cols
      modifies this
      ensures State() == Touch(old(State()), col)
    {
      var c := cols[col];
      cols := cols[col := c.(ctag := c.ctag + 1)];
    }

    /** SELECT ... WHERE uid = ? LIMIT 1 */
    method CalendarObjectByUID(col: Col, uid: string) returns (href: Option<string>)
      requires col in cols
      ensures href.Some? ==> Holds(State(), col, uid, href.value)
      ensures href.None? ==> forall h :: !Holds(State(), col, uid, h)
    {
      var objects := cols[col].objects;
      var holders := set h | h in objects && objects[h].uid == uid;
      if holders == {} {
        href := None;
        forall h ensures !Holds(State(), col, uid, h) {
          assert h !in holders;
        }
      } else {
        var h :| h in holders;
        href := Some(h);
      }
    }

    method WriteRow(col: Col, href: string, obj: Obj<C>)
      requires col in cols
      modifies this
      ensures State() == PutObject(old(State()), col, href, obj)
    {
      var c := cols[col];
      cols := cols[col := c.(objects := c.objects[href := obj])];
      RecordChange(col, href, false);
      Bump(col);
    }

    method DeleteCalendarObject(col: Col, href: string) returns (found: bool)
      requires col in cols
      modifies this
      ensures State() == DeleteObject(old(State()), col, href)
      ensures found <==> href in Objects(old(State()), col)
    {
      var c := cols[col];
      found := href in c.objects;
      if found {
        cols := cols[col := c.(objects := c.objects - {href})];
        RecordChange(col, href, true);
        Bump(col);
      }
    }

    method UpsertCalendarObject(col: Col, href: string, obj: Obj<C>)
      requires col in cols && col.kind == Calendar && Inv(State())
      modifies this
      ensures State() == UpsertCalendar(old(State()), col, href, obj) && Inv(State())
    {
      if obj.uid != "" {
        var other := CalendarObjectByUID(col, obj.uid);
        assert other == Holder(State(), col, obj.uid);
        if other.Some? && other.value != href {
          var _ := DeleteCalendarObject(col, other.value);
        }
      }
      WriteRow(col, href, obj);
      UpsertCalendarKeepsInv(old(State()), col, href, obj);
    }

    method UpsertAddressObject(col: Col, href: string, obj: Obj<C>)
      requires col in cols && col.kind == AddressBook && Inv(State())
      modifies this
      ensures State() == PutObject(old(State()), col, href, obj) && Inv(State())
    {
      WriteRow(col, href, obj);
      PutAddressKeepsInv(old(State()), col, href, obj);
    }

    method DeleteObjectsByUID(col: Col, uid: string) returns (ghost order: seq<string>)
      requires col in cols && Inv(State())
      modifies this
      ensures Enabled(old(State()), Op<C>.DeleteObjectsByUID(col, uid, order))
      ensures State() == DeleteEach(old(State()), col, order) && Inv(State())
      ensures forall h :: !Holds(State(), col, uid, h)
    {
      var objects := cols[col].objects;
      var hrefs := Enumerate(set h | h in objects && objects[h].uid == uid);
      order := hrefs;
      ghost var before := State();
      for i := 0 to |hrefs|
        invariant col in cols && State() == DeleteEach(before, col, hrefs[..i])
      {
        var _ := DeleteCalendarObject(col, hrefs[i]);
        assert hrefs[..i + 1][..i] == hrefs[..i];
      }
      assert hrefs[..|hrefs|] == hrefs;
      DeleteEachKeepsInv(before, col, hrefs);
      forall h ensures !Holds(State(), col, uid, h) {
        DeletedEach(before, col, hrefs, col, h);
      }
    }

    method DeleteCalendarObjectsByPrefix(col: Col, prefix: string)
      returns (ghost matching: set<string>, ghost order: seq<string>)
      requires col in cols && Inv(State())
      modifies this
      ensures matching == set h | h in Objects(old(State()), col) && Like(h, prefix + "%")
      ensures Enabled(old(State()), Op<C>.DeleteByPrefix(col, matching, order))
      ensures State() == DeleteTogether(old(State()), col, order) && Inv(State())
    {
      var c := cols[col];
      var selected := set h | h in c.objects && Like(h, prefix + "%");
      var hrefs := Enumerate(selected);
      matching, order := selected, hrefs;
      DeleteTogetherKeepsInv(State(), col, hrefs);
      if |hrefs| == 0 {
        return;
      }
      ghost var before := State();
      cols := cols[col := c.(objects := c.objects - selected)];
      for i := 0 to |hrefs|
        invariant cols == before.cols[col := c.(objects := c.objects - selected)]
        invariant changes == before.log + DeletionEntries(|before.log| + 1, col, hrefs[..i])
      {
        RecordChange(col, hrefs[i], true);
      }
      assert hrefs[..|hrefs|] == hrefs;
      Bump(col);
      assert selected == set h | h in hrefs;
    }
  }
}
