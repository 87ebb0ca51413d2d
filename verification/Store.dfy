/**
  The DAV collection store: objects keyed by href, one object per UID in a calendar, a ctag per
  collection, and one append-only change log for all of them.

  The tables are a value (`State`) with one function per storage operation; StoreTables.Tables holds
  the same tables in fields, and its methods are proved to carry out those functions.
 */
module Store {
  import opened Wrappers

  datatype Kind = Calendar | AddressBook

  /** A collection is a row of `calendars` or of `addressbooks`. */
  datatype Col = Col(kind: Kind, id: int)

  datatype Obj<+C> = Obj(uid: string, etag: string, data: C)

  datatype Collection<+C> = Collection(objects: map<string, Obj<C>>, ctag: nat)

  /** A row of `dav_changes`; its id is its place in the log, from 1. */
  datatype Change = Change(id: nat, col: Col, href: string, deleted: bool)

  datatype State<+C> = State(cols: map<Col, Collection<C>>, log: seq<Change>)

  function Objects<C>(s: State<C>, col: Col): map<string, Obj<C>> {
    if col in s.cols then s.cols[col].objects else map[]
  }

  function CTag<C>(s: State<C>, col: Col): nat {
    if col in s.cols then s.cols[col].ctag else 0
  }

  // ----- the operations -----

  /** Insert or replace one object: the row, a log entry, a new ctag. */
  function PutObject<C>(s: State<C>, col: Col, href: string, obj: Obj<C>): State<C>
    requires col in s.cols
  {
    var c := s.cols[col];
    State(s.cols[col := Collection(c.objects[href := obj], c.ctag + 1)],
          s.log + [Change(|s.log| + 1, col, href, false)])
  }

  function DropObject<C>(s: State<C>, col: Col, href: string): State<C>
    requires col in s.cols
  {
    var c := s.cols[col];
    State(s.cols[col := Collection(c.objects - {href}, c.ctag + 1)],
          s.log + [Change(|s.log| + 1, col, href, true)])
  }

  /** Deleting an href that is not there is an error and changes nothing. */
  function DeleteObject<C>(s: State<C>, col: Col, href: string): State<C>
    requires col in s.cols
  {
    if href in Objects(s, col) then DropObject(s, col, href) else s
  }

  ghost predicate Holds<C>(s: State<C>, col: Col, uid: string, href: string) {
    href in Objects(s, col) && Objects(s, col)[href].uid == uid
  }

  /** The href that holds the UID, if one does. */
  ghost function Holder<C>(s: State<C>, col: Col, uid: string): (h: Option<string>)
    ensures h.Some? ==> Holds(s, col, uid, h.value)
    ensures h.None? ==> forall href :: !Holds(s, col, uid, href)
  {
    if exists href :: Holds(s, col, uid, href) then
      var href :| Holds(s, col, uid, href);
      Some(href)
    else None
  }

  /** The state in which a calendar upsert writes: another href that held the UID has given way. */
  ghost function Vacated<C>(s: State<C>, col: Col, href: string, uid: string): State<C>
    requires col in s.cols
  {
    var other := Holder(s, col, uid);
    if uid != "" && other.Some? && other.value != href then DropObject(s, col, other.value) else s
  }

  ghost function UpsertCalendar<C>(s: State<C>, col: Col, href: string, obj: Obj<C>): State<C>
    requires col in s.cols
  {
    PutObject(Vacated(s, col, href, obj.uid), col, href, obj)
  }

  /** One by one, as DeleteObjectsByUID does. */
  function DeleteEach<C>(s: State<C>, col: Col, hrefs: seq<string>): (t: State<C>)
    requires col in s.cols
    ensures t.cols.Keys == s.cols.Keys
    decreases |hrefs|
  {
    if hrefs == [] then s else
      DeleteObject(DeleteEach(s, col, hrefs[..|hrefs| - 1]), col, hrefs[|hrefs| - 1])
  }

  function DeletionEntries(first: nat, col: Col, hrefs: seq<string>): seq<Change> {
    seq(|hrefs|, i requires 0 <= i < |hrefs| => Change(first + i, col, hrefs[i], true))
  }

  /** All rows at once, an entry for each, one new ctag, as DeleteCalendarObjectsByPrefix does. */
  function DeleteTogether<C>(s: State<C>, col: Col, hrefs: seq<string>): State<C>
    requires col in s.cols
  {
    if hrefs == [] then s else
      var c := s.cols[col];
      State(s.cols[col := Collection(c.objects - (set h | h in hrefs), c.ctag + 1)],
            s.log + DeletionEntries(|s.log| + 1, col, hrefs))
  }

  /** A change of shares moves the ctag without a log entry. */
  function Touch<C>(s: State<C>, col: Col): State<C>
    requires col in s.cols
  {
    s.(cols := s.cols[col := s.cols[col].(ctag := s.cols[col].ctag + 1)])
  }

  ghost predicate Lists(hrefs: seq<string>, s: set<string>) {
    && (forall i, j :: 0 <= i < j < |hrefs| ==> hrefs[i] != hrefs[j])
    && (forall h :: h in hrefs <==> h in s)
  }

  // ----- runs -----

  /** A call of the store; where SQL leaves the order of rows open, the order it took. */
  datatype Op<+C> =
    | UpsertCalendarObject(col: Col, href: string, obj: Obj<C>)
    | UpsertAddressObject(col: Col, href: string, obj: Obj<C>)
    | Delete(col: Col, href: string)
    | DeleteObjectsByUID(col: Col, uid: string, order: seq<string>)
    | DeleteByPrefix(col: Col, matching: set<string>, order: seq<string>)
    | TouchShares(col: Col)

  ghost predicate Enabled<C>(s: State<C>, op: Op<C>) {
    && op.col in s.cols
    && (op.UpsertCalendarObject? ==> op.col.kind == Calendar)
    && (op.UpsertAddressObject? ==> op.col.kind == AddressBook)
    && (op.DeleteObjectsByUID? ==>
          Lists(op.order, set h | h in Objects(s, op.col) && Objects(s, op.col)[h].uid == op.uid))
    && (op.DeleteByPrefix? ==> op.matching <= Objects(s, op.col).Keys && Lists(op.order, op.matching))
  }

  ghost function Apply<C>(s: State<C>, op: Op<C>): State<C> {
    if !Enabled(s, op) then s else
      match op
      case UpsertCalendarObject(col, href, obj) => UpsertCalendar(s, col, href, obj)
      case UpsertAddressObject(col, href, obj) => PutObject(s, col, href, obj)
      case Delete(col, href) => DeleteObject(s, col, href)
      case DeleteObjectsByUID(col, _, order) => DeleteEach(s, col, order)
      case DeleteByPrefix(col, _, order) => DeleteTogether(s, col, order)
      case TouchShares(col) => Touch(s, col)
  }

  ghost function Run<C>(s: State<C>, ops: seq<Op<C>>): State<C> {
    if ops == [] then s else Apply(Run(s, ops[..|ops| - 1]), ops[|ops| - 1])
  }

  // ----- what every operation keeps -----

  /** Whether the last log entry for the href says deleted. */
  function LastEntry(log: seq<Change>, col: Col, href: string): Option<bool> {
    if log == [] then None
    else
      var c := log[|log| - 1];
      if c.col == col && c.href == href then Some(c.deleted)
      else LastEntry(log[..|log| - 1], col, href)
  }

  ghost predicate UidsAreUnique<C>(s: State<C>) {
    forall col: Col, uid, a, b | col.kind == Calendar && uid != "" ::
      Holds(s, col, uid, a) && Holds(s, col, uid, b) ==> a == b
  }

  /** The log and the table agree: an href is there exactly when it was logged and not as deleted. */
  ghost predicate LogIsCurrent<C>(s: State<C>) {
    forall col, href :: href in Objects(s, col) <==> LastEntry(s.log, col, href) == Some(false)
  }

  ghost predicate IdsCount(log: seq<Change>) {
    forall i :: 0 <= i < |log| ==> log[i].id == i + 1
  }

  ghost predicate Inv<C>(s: State<C>) {
    UidsAreUnique(s) && LogIsCurrent(s) && IdsCount(s.log)
  }

  lemma {:induction false} DeletedEach<C>(s: State<C>, col: Col, hrefs: seq<string>, c: Col, h: string)
    requires col in s.cols
    ensures var t := DeleteEach(s, col, hrefs);
            && (h in Objects(t, c) <==> h in Objects(s, c) && (c != col || h !in hrefs))
            && (h in Objects(t, c) ==> Objects(t, c)[h] == Objects(s, c)[h])
    decreases |hrefs|
  {
    if hrefs != [] {
      DeletedEach(s, col, hrefs[..|hrefs| - 1], c, h);
    }
  }

  lemma LastEntrySnoc(log: seq<Change>, c: Change, col: Col, href: string)
    ensures LastEntry(log + [c], col, href) ==
            if c.col == col && c.href == href then Some(c.deleted) else LastEntry(log, col, href)
  {
    assert (log + [c])[..|log|] == log;
  }

  lemma PutKeepsLog<C>(s: State<C>, col: Col, href: string, obj: Obj<C>)
    requires col in s.cols && LogIsCurrent(s) && IdsCount(s.log)
    ensures LogIsCurrent(PutObject(s, col, href, obj)) && IdsCount(PutObject(s, col, href, obj).log)
  {
    forall k, h { LastEntrySnoc(s.log, Change(|s.log| + 1, col, href, false), k, h); }
  }

  lemma DropKeepsInv<C>(s: State<C>, col: Col, href: string)
    requires col in s.cols && Inv(s)
    ensures Inv(DropObject(s, col, href))
  {
    var t := DropObject(s, col, href);
    forall k, h { LastEntrySnoc(s.log, Change(|s.log| + 1, col, href, true), k, h); }
    forall k: Col, uid, a | Holds(t, k, uid, a) ensures Holds(s, k, uid, a) {
    }
  }

  lemma UpsertCalendarKeepsInv<C>(s: State<C>, col: Col, href: string, obj: Obj<C>)
    requires col in s.cols && Inv(s)
    ensures Inv(UpsertCalendar(s, col, href, obj))
  {
    var v := Vacated(s, col, href, obj.uid);
    var other := Holder(s, col, obj.uid);
    if other.Some? && other.value != href {
      DropKeepsInv(s, col, other.value);
    }
    assert Inv(v);
    PutKeepsLog(v, col, href, obj);
    var t := UpsertCalendar(s, col, href, obj);
    forall k: Col, uid, a, b | k.kind == Calendar && uid != "" && Holds(t, k, uid, a) && Holds(t, k, uid, b)
      ensures a == b
    {
      if a != href || k != col { assert Holds(v, k, uid, a); assert Holds(s, k, uid, a); }
      if b != href || k != col { assert Holds(v, k, uid, b); assert Holds(s, k, uid, b); }
    }
  }

  lemma {:induction false} DeleteEachKeepsInv<C>(s: State<C>, col: Col, hrefs: seq<string>)
    requires col in s.cols && Inv(s)
    ensures Inv(DeleteEach(s, col, hrefs))
    decreases |hrefs|
  {
    if hrefs != [] {
      var k := |hrefs| - 1;
      DeleteEachKeepsInv(s, col, hrefs[..k]);
      DropKeepsInv(DeleteEach(s, col, hrefs[..k]), col, hrefs[k]);
    }
  }

  lemma {:induction false} LastEntryAfterDeletions(log: seq<Change>, first: nat, col: Col, hrefs: seq<string>,
                                                   k: Col, h: string)
    ensures LastEntry(log + DeletionEntries(first, col, hrefs), k, h) ==
            if k == col && h in hrefs then Some(true) else LastEntry(log, k, h)
    decreases |hrefs|
  {
    if hrefs == [] {
      assert log + DeletionEntries(first, col, hrefs) == log;
    } else {
      var n := |hrefs| - 1;
      LastEntryAfterDeletions(log, first, col, hrefs[..n], k, h);
      var c := Change(first + n, col, hrefs[n], true);
      assert log + DeletionEntries(first, col, hrefs) == (log + DeletionEntries(first, col, hrefs[..n])) + [c];
      LastEntrySnoc(log + DeletionEntries(first, col, hrefs[..n]), c, k, h);
      assert h in hrefs <==> h in hrefs[..n] || h == hrefs[n];
    }
  }

  lemma DeleteTogetherKeepsInv<C>(s: State<C>, col: Col, hrefs: seq<string>)
    requires col in s.cols && Inv(s)
    ensures Inv(DeleteTogether(s, col, hrefs))
  {
    if hrefs != [] {
      var t := DeleteTogether(s, col, hrefs);
      forall k, h ensures h in Objects(t, k) <==> LastEntry(t.log, k, h) == Some(false) {
        LastEntryAfterDeletions(s.log, |s.log| + 1, col, hrefs, k, h);
        assert h in Objects(s, k) <==> LastEntry(s.log, k, h) == Some(false);
      }
      forall k: Col, uid, a | Holds(t, k, uid, a) ensures Holds(s, k, uid, a) {
      }
    }
  }

  lemma TouchKeepsInv<C>(s: State<C>, col: Col)
    requires col in s.cols && Inv(s)
    ensures Inv(Touch(s, col))
  {
    var t := Touch(s, col);
    forall k ensures Objects(t, k) == Objects(s, k) {
    }
    forall k: Col, uid, a | Holds(t, k, uid, a) ensures Holds(s, k, uid, a) {
    }
  }

  lemma PutAddressKeepsInv<C>(s: State<C>, col: Col, href: string, obj: Obj<C>)
    requires col in s.cols && col.kind == AddressBook && Inv(s)
    ensures Inv(PutObject(s, col, href, obj))
  {
    PutKeepsLog(s, col, href, obj);
    forall k: Col, uid, a | k.kind == Calendar && Holds(PutObject(s, col, href, obj), k, uid, a)
      ensures Holds(s, k, uid, a)
    {
    }
  }

  lemma ApplyKeepsInv<C>(s: State<C>, op: Op<C>)
    requires Inv(s)
    ensures Inv(Apply(s, op))
  {
    if Enabled(s, op) {
      match op
      case UpsertCalendarObject(col, href, obj) => UpsertCalendarKeepsInv(s, col, href, obj);
      case UpsertAddressObject(col, href, obj) => PutAddressKeepsInv(s, col, href, obj);
      case Delete(col, href) => DropKeepsInv(s, col, href);
      case DeleteObjectsByUID(col, _, order) => DeleteEachKeepsInv(s, col, order);
      case DeleteByPrefix(col, _, order) => DeleteTogetherKeepsInv(s, col, order);
      case TouchShares(col) => TouchKeepsInv(s, col);
    }
  }

  /** Every state of every run: one object per UID in a calendar, and a log that tells the truth. */
  lemma {:induction false} RunKeepsInv<C>(s: State<C>, ops: seq<Op<C>>)
    requires Inv(s)
    ensures Inv(Run(s, ops))
  {
    if ops != [] {
      RunKeepsInv(s, ops[..|ops| - 1]);
      ApplyKeepsInv(Run(s, ops[..|ops| - 1]), ops[|ops| - 1]);
    }
  }

  // ----- what the log and the ctag say about two points of a run -----

  /** An entry for this href among those after the first n. */
  ghost predicate Mentions(log: seq<Change>, n: nat, col: Col, href: string) {
    exists i :: n <= i < |log| && log[i].col == col && log[i].href == href
  }

  /** t comes after s: the log has only grown, and what it does not mention has not changed. */
  ghost predicate Extends<C>(s: State<C>, t: State<C>) {
    && s.cols.Keys == t.cols.Keys
    && s.log <= t.log
    && (forall col, href :: !Mentions(t.log, |s.log|, col, href) ==> SameAt(s, t, col, href))
    && (forall col :: CTag(s, col) <= CTag(t, col))
    && (forall col, href :: CTag(s, col) == CTag(t, col) ==> !Mentions(t.log, |s.log|, col, href))
  }

  ghost predicate SameAt<C>(s: State<C>, t: State<C>, col: Col, href: string) {
    && (href in Objects(s, col) <==> href in Objects(t, col))
    && (href in Objects(s, col) ==> Objects(s, col)[href] == Objects(t, col)[href])
  }

  lemma ExtendsTransitive<C>(s: State<C>, t: State<C>, u: State<C>)
    requires Extends(s, t) && Extends(t, u)
    ensures Extends(s, u)
  {
    forall col, href
      ensures !Mentions(u.log, |s.log|, col, href) ==>
                !Mentions(u.log, |t.log|, col, href) && !Mentions(t.log, |s.log|, col, href)
      ensures Mentions(u.log, |s.log|, col, href) ==>
                Mentions(u.log, |t.log|, col, href) || Mentions(t.log, |s.log|, col, href)
    {
      if Mentions(t.log, |s.log|, col, href) {
        var i :| |s.log| <= i < |t.log| && t.log[i].col == col && t.log[i].href == href;
        assert u.log[i] == t.log[i];
      }
      if Mentions(u.log, |s.log|, col, href) && !Mentions(u.log, |t.log|, col, href) {
        var i :| |s.log| <= i < |u.log| && u.log[i].col == col && u.log[i].href == href;
        assert i < |t.log| && u.log[i] == t.log[i];
      }
    }
    forall col, href | !Mentions(u.log, |s.log|, col, href) ensures SameAt(s, u, col, href) {
      assert SameAt(s, t, col, href) && SameAt(t, u, col, href);
    }
    forall col, href | CTag(s, col) == CTag(u, col) ensures !Mentions(u.log, |s.log|, col, href) {
      assert CTag(s, col) <= CTag(t, col) <= CTag(u, col);
    }
  }

  lemma PutExtends<C>(s: State<C>, col: Col, href: string, obj: Obj<C>)
    requires col in s.cols
    ensures Extends(s, PutObject(s, col, href, obj))
  {
    var t := PutObject(s, col, href, obj);
    assert t.log[|s.log|].col == col && t.log[|s.log|].href == href;
    assert Mentions(t.log, |s.log|, col, href);
  }

  lemma DropExtends<C>(s: State<C>, col: Col, href: string)
    requires col in s.cols
    ensures Extends(s, DropObject(s, col, href))
  {
    var t := DropObject(s, col, href);
    assert t.log[|s.log|].col == col && t.log[|s.log|].href == href;
    assert Mentions(t.log, |s.log|, col, href);
  }

  lemma {:induction false} DeleteEachExtends<C>(s: State<C>, col: Col, hrefs: seq<string>)
    requires col in s.cols
    ensures Extends(s, DeleteEach(s, col, hrefs))
    decreases |hrefs|
  {
    if hrefs != [] {
      var k := |hrefs| - 1;
      var t := DeleteEach(s, col, hrefs[..k]);
      DeleteEachExtends(s, col, hrefs[..k]);
      DropExtends(t, col, hrefs[k]);
      if hrefs[k] in Objects(t, col) {
        ExtendsTransitive(s, t, DropObject(t, col, hrefs[k]));
      }
    }
  }

  lemma DeleteTogetherExtends<C>(s: State<C>, col: Col, hrefs: seq<string>)
    requires col in s.cols
    ensures Extends(s, DeleteTogether(s, col, hrefs))
  {
    if hrefs != [] {
      var t := DeleteTogether(s, col, hrefs);
      forall href | href in hrefs ensures Mentions(t.log, |s.log|, col, href) {
        var i :| 0 <= i < |hrefs| && hrefs[i] == href;
        assert t.log[|s.log| + i] == Change(|s.log| + 1 + i, col, href, true);
      }
    }
  }

  lemma ApplyExtends<C>(s: State<C>, op: Op<C>)
    ensures Extends(s, Apply(s, op))
  {
    if Enabled(s, op) {
      match op
      case UpsertCalendarObject(col, href, obj) =>
        var v := Vacated(s, col, href, obj.uid);
        var other := Holder(s, col, obj.uid);
        if other.Some? {
          DropExtends(s, col, other.value);
        }
        PutExtends(v, col, href, obj);
        ExtendsTransitive(s, v, PutObject(v, col, href, obj));
      case UpsertAddressObject(col, href, obj) => PutExtends(s, col, href, obj);
      case Delete(col, href) => DropExtends(s, col, href);
      case DeleteObjectsByUID(col, _, order) => DeleteEachExtends(s, col, order);
      case DeleteByPrefix(col, _, order) => DeleteTogetherExtends(s, col, order);
      case TouchShares(col) =>
    }
  }

  lemma {:induction false} RunExtends<C>(s: State<C>, ops: seq<Op<C>>)
    ensures Extends(s, Run(s, ops))
  {
    if ops != [] {
      var t := Run(s, ops[..|ops| - 1]);
      RunExtends(s, ops[..|ops| - 1]);
      ApplyExtends(t, ops[|ops| - 1]);
      ExtendsTransitive(s, t, Apply(t, ops[|ops| - 1]));
    }
  }

  /** Equal ctags at two points of a run mean equal contents. */
  lemma SameCTagSameObjects<C>(s: State<C>, ops: seq<Op<C>>, col: Col)
    requires CTag(Run(s, ops), col) == CTag(s, col)
    ensures Objects(Run(s, ops), col) == Objects(s, col)
  {
    var t := Run(s, ops);
    RunExtends(s, ops);
    forall href ensures SameAt(s, t, col, href) {
      assert !Mentions(t.log, |s.log|, col, href);
    }
    var a, b := Objects(s, col), Objects(t, col);
    assert a.Keys == b.Keys by {
      assert forall href :: href in a <==> href in b by {
        forall href ensures href in a <==> href in b {
          assert SameAt(s, t, col, href);
        }
      }
    }
    forall href | href in a ensures a[href] == b[href] {
      assert SameAt(s, t, col, href);
    }
  }
}
