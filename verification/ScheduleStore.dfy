/**
  The object tables of scheduling are the store's: its upsert and its deletion by UID are the
  store's operations, which log every href they change and move the ctag.
 */
module ScheduleStore {
  import opened Itip
  import opened Schedule
  import ScheduleRuns
  import Store
  import opened Wrappers

  function Stored(objects: map<string, Obj>): map<string, Store.Obj<Ics>> {
    map h | h in objects :: Store.Obj(objects[h].uid, objects[h].etag, objects[h].ics)
  }

  function StoredObj(obj: Obj): Store.Obj<Ics> {
    Store.Obj(obj.uid, obj.etag, obj.ics)
  }

  /** Every calendar holds the same objects here and in the store. */
  ghost predicate Represents(t: Objects, s: Store.State<Ics>) {
    forall k :: Stored(At(t, k)) == Store.Objects(s, Store.Col(Store.Calendar, k))
  }

  lemma SameHolders(t: Objects, s: Store.State<Ics>, k: int, uid: string, h: string)
    requires Represents(t, s)
    ensures ScheduleRuns.Holds(t, k, uid, h) <==> Store.Holds(s, Store.Col(Store.Calendar, k), uid, h)
  {
    assert Stored(At(t, k)) == Store.Objects(s, Store.Col(Store.Calendar, k));
    assert h in At(t, k) <==> h in Stored(At(t, k));
  }

  /** With unique UIDs there is one href to give way, and both find it. */
  lemma SameHolder(env: Env, t: Objects, s: Store.State<Ics>, k: int, uid: string)
    requires Faithful(env) && ScheduleRuns.UidsAreUnique(t) && Represents(t, s) && uid != ""
    ensures Store.Holder(s, Store.Col(Store.Calendar, k), uid) ==
            if Holders(t, k, uid) == {} then None else Some(env.pickHref(Holders(t, k, uid)))
  {
    var holders := Holders(t, k, uid);
    var found := Store.Holder(s, Store.Col(Store.Calendar, k), uid);
    if found.Some? {
      SameHolders(t, s, k, uid, found.value);
      assert found.value in holders;
      assert ScheduleRuns.Holds(t, k, uid, env.pickHref(holders));
    } else if holders != {} {
      SameHolders(t, s, k, uid, env.pickHref(holders));
    }
  }

  lemma UpsertIsTheStores(env: Env, t: Objects, s: Store.State<Ics>, k: int, href: string, obj: Obj)
    requires Faithful(env) && ScheduleRuns.UidsAreUnique(t) && Represents(t, s)
    requires Store.Col(Store.Calendar, k) in s.cols
    ensures Represents(Upsert(env, t, k, href, obj), Store.UpsertCalendar(s, Store.Col(Store.Calendar, k), href, StoredObj(obj)))
  {
    var col := Store.Col(Store.Calendar, k);
    if obj.uid != "" {
      SameHolder(env, t, s, k, obj.uid);
    }
    var after := Store.UpsertCalendar(s, col, href, StoredObj(obj));
    forall j ensures Stored(At(Upsert(env, t, k, href, obj), j)) == Store.Objects(after, Store.Col(Store.Calendar, j)) {
      assert Stored(At(t, j)) == Store.Objects(s, Store.Col(Store.Calendar, j));
    }
  }

  /** Deleting by UID, in whatever order the store takes the rows. */
  lemma DeleteIsTheStores(t: Objects, s: Store.State<Ics>, k: int, uid: string, order: seq<string>)
    requires Represents(t, s) && Store.Enabled(s, Store.DeleteObjectsByUID(Store.Col(Store.Calendar, k), uid, order))
    ensures Represents(DeleteUid(t, k, uid), Store.DeleteEach(s, Store.Col(Store.Calendar, k), order))
  {
    var col := Store.Col(Store.Calendar, k);
    var after := Store.DeleteEach(s, col, order);
    forall j ensures Stored(At(DeleteUid(t, k, uid), j)) == Store.Objects(after, Store.Col(Store.Calendar, j)) {
      assert Stored(At(t, j)) == Store.Objects(s, Store.Col(Store.Calendar, j));
      forall h
        ensures h in Store.Objects(after, Store.Col(Store.Calendar, j)) <==> h in At(DeleteUid(t, k, uid), j)
        ensures h in Store.Objects(after, Store.Col(Store.Calendar, j)) ==>
                  Store.Objects(after, Store.Col(Store.Calendar, j))[h] == Store.Objects(s, Store.Col(Store.Calendar, j))[h]
      {
        Store.DeletedEach(s, col, order, Store.Col(Store.Calendar, j), h);
        assert h in order <==> h in Store.Objects(s, col) && Store.Objects(s, col)[h].uid == uid;
        assert Stored(At(t, k)) == Store.Objects(s, col);
        assert h in Stored(At(t, k)) <==> h in At(t, k);
      }
    }
  }
}
