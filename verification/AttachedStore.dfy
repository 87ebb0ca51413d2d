/**
  Calendar objects together with their files: the PUT that writes both, and the foreign key that
  takes the files of a deleted object with it.
 */
module AttachedStore {
  import opened Strings
  import opened Attach
  import opened Attachments
  import S = Store
  import opened Wrappers

  datatype Db = Db(store: S.State<Ics>, files: Rows)

  datatype PutError = BadHref | NoObject | Refused(error: Error)

  function ColOf(o: Object): S.Col {
    S.Col(S.Calendar, o.calendar)
  }

  ghost predicate Exists(db: Db, o: Object) {
    o.href in S.Objects(db.store, ColOf(o))
  }

  /** FOREIGN KEY (calendar_id, object_href) */
  ghost predicate FilesAreOwned(db: Db) {
    forall i :: 0 <= i < |db.files| ==> Exists(db, db.files[i].owner)
  }

  ghost predicate DbInv(db: Db) {
    S.Inv(db.store) && Inv(db.files) && FilesAreOwned(db)
  }

  /** CheckObjectHref; a text with no slash that is not empty is its own path.Base. */
  predicate IsObjectHref(href: string) {
    var h := Trim(href);
    var low := ToLower(h);
    && h != "" && h != "." && h != ".."
    && '/' !in h && '\\' !in h
    && !Contains(low, "%2f") && !Contains(low, "%5c") && !Contains(low, "%2e%2e")
  }

  // ----- the operations -----

  /** ON DELETE CASCADE */
  function DropFiles(rows: Rows, o: Object): Rows {
    Without(rows, o, SetOf(Ids(FilesOf(rows, o))))
  }

  /** The object that gives way to an upsert, if one does. */
  ghost function GivesWay(db: Db, o: Object, uid: string): Option<Object> {
    var other := S.Holder(db.store, ColOf(o), uid);
    if uid != "" && other.Some? && other.value != o.href then Some(Object(o.calendar, other.value)) else None
  }

  ghost function FilesThen(db: Db, o: Object, uid: string): Rows {
    match GivesWay(db, o, uid)
    case None => db.files
    case Some(other) => DropFiles(db.files, other)
  }

  ghost function Upserted(db: Db, o: Object, obj: S.Obj<Ics>): Db
    requires ColOf(o) in db.store.cols
  {
    Db(S.UpsertCalendar(db.store, ColOf(o), o.href, obj), FilesThen(db, o, obj.uid))
  }

  ghost function Deleted(db: Db, o: Object): Db
    requires ColOf(o) in db.store.cols
  {
    if Exists(db, o) then Db(S.DeleteObject(db.store, ColOf(o), o.href), DropFiles(db.files, o)) else db
  }

  function ObjOf(hash: Ics -> string, uid: string, ics: Ics): S.Obj<Ics> {
    S.Obj(uid, hash(ics), ics)
  }

  /** PutICSWithAttachments: an error of the transaction leaves everything as it was. */
  ghost function PutWhole(env: Env, hash: Ics -> string, db: Db, o: Object, uid: string, ics: Ics, publicUrl: string): Result<Db, PutError>
    requires ColOf(o) in db.store.cols
  {
    var split := SplitOf(env.codec, ics, o.calendar);
    if !IsObjectHref(o.href) then Err(BadHref)
    else if split.groups == Groups([], [], []) && FilesOf(db.files, o) == [] then
      Ok(Upserted(db, o, ObjOf(hash, uid, ics)))
    else
      var bare := Upserted(db, o, ObjOf(hash, uid, split.ics));
      match Applied(env, bare.files, o, split.groups)
      case Err(e) => Err(Refused(e))
      case Ok(files) =>
        var final := Write(split, FilesOf(files, o), publicUrl);
        var filed := Db(bare.store, files);
        Ok(if final == split.ics then filed else Upserted(filed, o, ObjOf(hash, uid, final)))
  }

  /** InsertAttachment: the foreign key asks for the object. */
  ghost function InsertWhole(env: Env, db: Db, o: Object, publicId: string, file: Inline): Result<Db, PutError> {
    match Insert(env, db.files, o, publicId, file)
    case Err(e) => Err(Refused(e))
    case Ok(files) => if Exists(db, o) then Ok(Db(db.store, files)) else Err(NoObject)
  }

  // ----- dropped files -----

  lemma {:induction false} WithoutAre(rows: Rows, o: Object, ids: set<string>)
    ensures forall r :: r in Without(rows, o, ids) ==> r in rows && (r.owner == o ==> r.meta.publicId !in ids)
    ensures forall r :: r in rows && r.owner == o ==> r.meta in FilesOf(rows, o)
  {
    if rows != [] {
      WithoutAre(rows[..|rows| - 1], o, ids);
      assert rows == rows[..|rows| - 1] + [rows[|rows| - 1]];
    }
  }

  /** A dropped object's files are gone, and no others. */
  lemma DroppedFiles(rows: Rows, o: Object, k: Object)
    requires Inv(rows)
    ensures Inv(DropFiles(rows, o))
    ensures forall r :: r in DropFiles(rows, o) ==> r in rows && r.owner != o
    ensures FilesOf(DropFiles(rows, o), k) == if k == o then [] else FilesOf(rows, k)
  {
    var files := FilesOf(rows, o);
    var ids := SetOf(Ids(files));
    forall i | 0 <= i < |files| ensures files[i].publicId in ids {
      assert Ids(files)[i] == files[i].publicId;
    }
    WithoutKeepsInv(rows, o, ids);
    WithoutAre(rows, o, ids);
    FilesWithout(rows, o, ids, k);
    NothingRemains(files, ids);
  }

  lemma {:induction false} NothingRemains(files: seq<Managed>, ids: set<string>)
    requires forall i :: 0 <= i < |files| ==> files[i].publicId in ids
    ensures Remaining(files, ids) == []
  {
    if files != [] {
      NothingRemains(files[..|files| - 1], ids);
    }
  }

  // ----- what every operation keeps -----

  lemma UpsertedObjects(db: Db, o: Object, obj: S.Obj<Ics>)
    requires ColOf(o) in db.store.cols
    ensures var after := Upserted(db, o, obj);
            && Exists(after, o) && S.Objects(after.store, ColOf(o))[o.href] == obj
            && after.store.cols.Keys == db.store.cols.Keys
            && forall k: Object :: k != o && Exists(db, k) && GivesWay(db, o, obj.uid) != Some(k) ==>
                 Exists(after, k) && S.Objects(after.store, ColOf(k))[k.href] == S.Objects(db.store, ColOf(k))[k.href]
  {
  }

  /** An upsert keeps the invariant, and the files of every object but one that gives way. */
  lemma UpsertedKeeps(db: Db, o: Object, obj: S.Obj<Ics>)
    requires ColOf(o) in db.store.cols && DbInv(db)
    ensures DbInv(Upserted(db, o, obj))
    ensures forall k :: FilesOf(Upserted(db, o, obj).files, k) ==
              if GivesWay(db, o, obj.uid) == Some(k) then [] else FilesOf(db.files, k)
  {
    hide Inv, DropFiles, FilesOf;
    var after := Upserted(db, o, obj);
    S.UpsertCalendarKeepsInv(db.store, ColOf(o), o.href, obj);
    hide S.Inv, S.UpsertCalendar;
    UpsertedObjects(db, o, obj);
    var other := GivesWay(db, o, obj.uid);
    if other.Some? {
      forall k ensures FilesOf(after.files, k) == if k == other.value then [] else FilesOf(db.files, k) {
        DroppedFiles(db.files, other.value, k);
      }
      DroppedFiles(db.files, other.value, o);
    }
    forall i | 0 <= i < |after.files| ensures Exists(after, after.files[i].owner) {
      var r := after.files[i];
      assert r in after.files;
      var j :| 0 <= j < |db.files| && db.files[j] == r;
      assert Exists(db, r.owner);
    }
  }

  /** Files whose owners are the object or owned files before are owned. */
  lemma FilesStayOwned(db: Db, o: Object, files: Rows)
    requires FilesAreOwned(db) && Exists(db, o) && forall r :: r in files ==> r.owner == o || r in db.files
    ensures FilesAreOwned(Db(db.store, files))
  {
    var after := Db(db.store, files);
    forall i | 0 <= i < |files| ensures Exists(after, files[i].owner) {
      var r := files[i];
      assert r in files;
      if r.owner != o {
        var j :| 0 <= j < |db.files| && db.files[j] == r;
        assert Exists(db, db.files[j].owner);
      }
    }
  }

  lemma {:induction false} InsertedOwners(env: Env, rows: Rows, o: Object, inlines: seq<Inline>)
    requires InsertEach(env, rows, o, inlines).Ok?
    ensures forall r :: r in InsertEach(env, rows, o, inlines).value ==> r.owner == o || r in rows
  {
    if inlines != [] {
      InsertedOwners(env, rows, o, inlines[..|inlines| - 1]);
    }
  }

  lemma AppliedOwners(env: Env, rows: Rows, o: Object, g: Groups)
    requires Applied(env, rows, o, g).Ok?
    ensures forall r :: r in Applied(env, rows, o, g).value ==> r.owner == o || r in rows
  {
    hide InsertEach, InlineLimits;
    var gone := Unreferenced(FilesOf(rows, o), g.ids);
    WithoutAre(rows, o, gone);
    InsertedOwners(env, KeptRows(rows, o, g.ids), o, g.inlines);
  }

  /** An upsert of an object under the UID it has displaces nothing. */
  lemma NothingGivesWay(db: Db, o: Object, uid: string)
    requires S.Inv(db.store) && Exists(db, o) && S.Objects(db.store, ColOf(o))[o.href].uid == uid
    ensures GivesWay(db, o, uid) == None
  {
    assert S.Holds(db.store, ColOf(o), uid, o.href);
  }

  /**
    After a PUT with its files the object is there as `Put` says, with its files; files and objects
    are consistent, another object that had the UID is gone with its files, and everything else is
    untouched.
   */
  lemma PutWholeStores(env: Env, hash: Ics -> string, db: Db, o: Object, uid: string, ics: Ics, publicUrl: string)
    requires ColOf(o) in db.store.cols && DbInv(db)
    requires PutWhole(env, hash, db, o, uid, ics, publicUrl).Ok?
    ensures var after := PutWhole(env, hash, db, o, uid, ics, publicUrl).value;
            && DbInv(after) && Exists(after, o)
            && var obj := S.Objects(after.store, ColOf(o))[o.href];
               && obj.uid == uid && obj.etag == hash(obj.data)
               && Put(env, FilesThen(db, o, uid), o, ics, publicUrl) == Ok((after.files, obj.data))
               && forall k: Object :: k != o && Exists(db, k) && GivesWay(db, o, uid) != Some(k) ==>
                    Exists(after, k) && S.Objects(after.store, ColOf(k))[k.href] == S.Objects(db.store, ColOf(k))[k.href]
  {
    hide Inv, S.Inv, FilesOf, Applied, S.UpsertCalendar, Write, IsObjectHref, GivesWay, FilesAreOwned;
    var split := SplitOf(env.codec, ics, o.calendar);
    OwnFilesStay(db, o, uid);
    if split.groups == Groups([], [], []) && FilesOf(db.files, o) == [] {
      UpsertedKeeps(db, o, ObjOf(hash, uid, ics));
      UpsertedObjects(db, o, ObjOf(hash, uid, ics));
    } else {
      var obj := ObjOf(hash, uid, split.ics);
      var bare := Upserted(db, o, obj);
      UpsertedKeeps(db, o, obj);
      UpsertedObjects(db, o, obj);
      var files := Applied(env, bare.files, o, split.groups).value;
      AppliedKeepsInv(env, bare.files, o, split.groups);
      AppliedOwners(env, bare.files, o, split.groups);
      FilesStayOwned(bare, o, files);
      var filed := Db(bare.store, files);
      var final := ObjOf(hash, uid, Write(split, FilesOf(files, o), publicUrl));
      NothingGivesWay(filed, o, uid);
      if final.data != split.ics {
        UpsertedKeeps(filed, o, final);
        UpsertedObjects(filed, o, final);
      }
    }
  }

  lemma OwnFilesStay(db: Db, o: Object, uid: string)
    requires DbInv(db)
    ensures FilesOf(FilesThen(db, o, uid), o) == FilesOf(db.files, o)
  {
    var other := GivesWay(db, o, uid);
    if other.Some? {
      DroppedFiles(db.files, other.value, o);
    }
  }

  lemma OthersStay(db: Db, o: Object)
    requires ColOf(o) in db.store.cols && Exists(db, o)
    ensures !Exists(Deleted(db, o), o) && forall k: Object :: k != o && Exists(db, k) ==> Exists(Deleted(db, o), k)
  {
    hide DropFiles;
  }

  lemma OwnerExists(db: Db, r: File)
    requires FilesAreOwned(db) && r in db.files
    ensures Exists(db, r.owner)
  {
    var j :| 0 <= j < |db.files| && db.files[j] == r;
    assert Exists(db, db.files[j].owner);
  }

  lemma DeletedKeeps(db: Db, o: Object)
    requires ColOf(o) in db.store.cols && DbInv(db)
    ensures DbInv(Deleted(db, o)) && !Exists(Deleted(db, o), o) && FilesOf(Deleted(db, o).files, o) == []
  {
    hide Inv, S.Inv, DropFiles, FilesOf;
    if Exists(db, o) {
      S.DropKeepsInv(db.store, ColOf(o), o.href);
      DroppedFiles(db.files, o, o);
      var after := Deleted(db, o);
      OthersStay(db, o);
      forall i | 0 <= i < |after.files| ensures Exists(after, after.files[i].owner) {
        var r := after.files[i];
        assert r in after.files;
        OwnerExists(db, r);
      }
    } else {
      NoFilesWithoutObject(db.files, o);
    }
  }

  lemma {:induction false} NoFilesWithoutObject(rows: Rows, o: Object)
    requires forall i :: 0 <= i < |rows| ==> rows[i].owner != o
    ensures FilesOf(rows, o) == []
  {
    if rows != [] {
      NoFilesWithoutObject(rows[..|rows| - 1], o);
    }
  }

  // ----- runs -----

  datatype DbCall =
    | PutCall(o: Object, uid: string, ics: Ics, publicUrl: string)
    | InsertCall(o: Object, publicId: string, file: Inline)
    | DeleteFileCall(o: Object, id: string)
    | DeleteCall(o: Object)

  ghost function ApplyCall(env: Env, hash: Ics -> string, db: Db, call: DbCall): Db {
    if ColOf(call.o) !in db.store.cols then db
    else
      match call
      case PutCall(o, uid, ics, publicUrl) =>
        var r := PutWhole(env, hash, db, o, uid, ics, publicUrl);
        if r.Ok? then r.value else db
      case InsertCall(o, publicId, file) =>
        var r := InsertWhole(env, db, o, publicId, file);
        if r.Ok? then r.value else db
      case DeleteFileCall(o, id) => Db(db.store, Without(db.files, o, {id}))
      case DeleteCall(o) => Deleted(db, o)
  }

  ghost function RunCalls(env: Env, hash: Ics -> string, db: Db, calls: seq<DbCall>): Db {
    if calls == [] then db
    else ApplyCall(env, hash, RunCalls(env, hash, db, calls[..|calls| - 1]), calls[|calls| - 1])
  }

  lemma ApplyCallKeeps(env: Env, hash: Ics -> string, db: Db, call: DbCall)
    requires DbInv(db)
    ensures DbInv(ApplyCall(env, hash, db, call))
  {
    if ColOf(call.o) in db.store.cols {
      hide Inv, S.Inv, FilesAreOwned, Deleted, PutWhole;
      match call
      case PutCall(o, uid, ics, publicUrl) =>
        if PutWhole(env, hash, db, o, uid, ics, publicUrl).Ok? {
          PutWholeStores(env, hash, db, o, uid, ics, publicUrl);
        }
      case InsertCall(o, publicId, file) =>
        if InsertWhole(env, db, o, publicId, file).Ok? {
          InsertKeepsInv(env, db.files, o, publicId, file);
          InsertedOwner(env, db.files, o, publicId, file);
          FilesStayOwned(db, o, Insert(env, db.files, o, publicId, file).value);
        }
      case DeleteFileCall(o, id) =>
        WithoutKeepsInv(db.files, o, {id});
        WithoutAre(db.files, o, {id});
        FewerStayOwned(db, Without(db.files, o, {id}));
      case DeleteCall(o) => DeletedKeeps(db, o);
    }
  }

  lemma InsertedOwner(env: Env, rows: Rows, o: Object, publicId: string, file: Inline)
    requires Insert(env, rows, o, publicId, file).Ok?
    ensures forall r :: r in Insert(env, rows, o, publicId, file).value ==> r.owner == o || r in rows
  {
  }

  lemma FewerStayOwned(db: Db, files: Rows)
    requires FilesAreOwned(db) && forall r :: r in files ==> r in db.files
    ensures FilesAreOwned(Db(db.store, files))
  {
    var after := Db(db.store, files);
    forall i | 0 <= i < |files| ensures Exists(after, files[i].owner) {
      assert files[i] in files;
      var j :| 0 <= j < |db.files| && db.files[j] == files[i];
      assert Exists(db, db.files[j].owner);
    }
  }

  /**
    Over every run of PUTs, uploads and deletions: one object per UID, a log that agrees with the
    objects, every object within the limits, ids unique, and no file without its object.
   */
  lemma {:induction false} RunCallsKeepInv(env: Env, hash: Ics -> string, db: Db, calls: seq<DbCall>)
    requires DbInv(db)
    ensures DbInv(RunCalls(env, hash, db, calls))
  {
    if calls != [] {
      RunCallsKeepInv(env, hash, db, calls[..|calls| - 1]);
      ApplyCallKeeps(env, hash, RunCalls(env, hash, db, calls[..|calls| - 1]), calls[|calls| - 1]);
    }
  }
}
