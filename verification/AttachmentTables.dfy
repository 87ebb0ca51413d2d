/**
  The tables of objects and of attachments as the program changes them: one statement after the
  other, in the loops of ApplyICSAttachments, within the transaction of PutICSWithAttachments.
 */
module AttachmentTables {
  import opened Strings
  import opened Attach
  import opened Attachments
  import opened AttachedStore
  import S = Store
  import opened StoreTables
  import opened Wrappers

  lemma {:induction false} WithoutBoth(rows: Rows, o: Object, a: set<string>, b: set<string>)
    ensures Without(Without(rows, o, a), o, b) == Without(rows, o, a + b)
  {
    if rows != [] {
      var front, r := rows[..|rows| - 1], rows[|rows| - 1];
      WithoutBoth(front, o, a, b);
      WithoutSnoc(Without(front, o, a), r, o, b);
      assert Without(front, o, a) + [] == Without(front, o, a);
    }
  }

  lemma WithoutSnoc(rows: Rows, r: File, o: Object, ids: set<string>)
    ensures Without(rows + [r], o, ids) == Without(rows, o, ids) + if r.owner == o && r.meta.publicId in ids then [] else [r]
  {
    assert (rows + [r])[..|rows|] == rows;
  }

  lemma {:induction false} InsertErrorStays(env: Env, rows: Rows, o: Object, inlines: seq<Inline>, n: nat)
    requires n <= |inlines| && InsertEach(env, rows, o, inlines[..n]).Err?
    ensures InsertEach(env, rows, o, inlines) == InsertEach(env, rows, o, inlines[..n])
  {
    if n == |inlines| {
      assert inlines[..n] == inlines;
    } else {
      var front := inlines[..|inlines| - 1];
      assert front[..n] == inlines[..n];
      InsertErrorStays(env, rows, o, front, n);
    }
  }

  /** Rows are affected exactly when one has the owner and the id. */
  lemma {:induction false} DeletedRows(rows: Rows, o: Object, id: string)
    ensures |Without(rows, o, {id})| <= |rows|
    ensures |Without(rows, o, {id})| == |rows| ==> Without(rows, o, {id}) == rows
    ensures |Without(rows, o, {id})| != |rows| <==>
              exists i :: 0 <= i < |rows| && rows[i].owner == o && rows[i].meta.publicId == id
  {
    if rows != [] {
      var front, r := rows[..|rows| - 1], rows[|rows| - 1];
      DeletedRows(front, o, id);
      assert rows == front + [r];
      if i :| 0 <= i < |front| && front[i].owner == o && front[i].meta.publicId == id {
        assert rows[i] == front[i];
      }
      if i :| 0 <= i < |rows| && rows[i].owner == o && rows[i].meta.publicId == id {
        assert i < |front| ==> front[i] == rows[i];
      }
    }
  }

  class Files {
    const objects: Tables<Ics>
    var rows: Rows

    constructor (objects: Tables<Ics>)
      ensures this.objects == objects && rows == [] && Inv(rows)
    {
      this.objects := objects;
      rows := [];
    }

    /** Both tables as one value. */
    ghost function State(): Db
      reads this, objects
    {
      Db(objects.State(), rows)
    }

    /** insertAttachment */
    method InsertAttachment(env: Env, o: Object, publicId: string, file: Inline) returns (error: Option<Error>)
      modifies this`rows
      ensures match error
              case None => Insert(env, old(rows), o, publicId, file) == Ok(rows)
              case Some(e) => Insert(env, old(rows), o, publicId, file) == Err(e) && rows == old(rows)
    {
      if |file.data| == 0 {
        return Some(Empty);
      }
      if |file.data| > MAX_FILE {
        return Some(TooLarge);
      }
      var files := FilesOf(rows, o);
      if |files| >= MAX_FILES {
        return Some(TooMany);
      }
      if Total(files) + |file.data| > MAX_TOTAL {
        return Some(TooLarge);
      }
      var (name, contentType) := env.clean(file);
      var id := Trim(publicId);
      if !IsPublicId(id) || IsTaken(rows, id) {
        id := env.newId(rows);
      }
      if IsTaken(rows, id) {
        return Some(IdTaken);
      }
      rows := rows + [File(o, Managed(id, name, contentType, |file.data|))];
      return None;
    }

    /** DELETE ... WHERE calendar_id = ? AND object_href = ? AND public_id = ?; false if there was no such row. */
    method DeleteAttachment(o: Object, id: string) returns (found: bool)
      modifies this`rows
      ensures rows == Without(old(rows), o, {id})
      ensures found <==> exists i :: 0 <= i < |old(rows)| && old(rows)[i].owner == o && old(rows)[i].meta.publicId == id
      ensures !found ==> rows == old(rows)
    {
      var before := |rows|;
      DeletedRows(rows, o, id);
      rows := Without(rows, o, {id});
      found := |rows| != before;
    }

    method ApplyIcsAttachments(env: Env, o: Object, g: Groups) returns (error: Option<Error>)
      modifies this`rows
      ensures match error
              case None => Applied(env, old(rows), o, g) == Ok(rows)
              case Some(e) => Applied(env, old(rows), o, g) == Err(e)
    {
      DeleteUnreferenced(o, g.ids);
      var files := FilesOf(rows, o);
      error := CheckInlineAttachmentLimits(|files|, Total(files), g.inlines);
      if error.Some? {
        return;
      }
      error := InsertAll(env, o, g.inlines);
    }

    method InsertAll(env: Env, o: Object, inlines: seq<Inline>) returns (error: Option<Error>)
      modifies this`rows
      ensures match error
              case None => InsertEach(env, old(rows), o, inlines) == Ok(rows)
              case Some(e) => InsertEach(env, old(rows), o, inlines) == Err(e)
    {
      hide Insert;
      assert inlines[..0] == [];
      for i := 0 to |inlines|
        invariant InsertEach(env, old(rows), o, inlines[..i]) == Ok(rows)
      {
        assert inlines[..i + 1][..i] == inlines[..i];
        error := InsertAttachment(env, o, "", inlines[i]);
        if error.Some? {
          InsertErrorStays(env, old(rows), o, inlines, i + 1);
          return;
        }
      }
      assert inlines[..|inlines|] == inlines;
      return None;
    }

    method DeleteUnreferenced(o: Object, ids: seq<string>)
      modifies this`rows
      ensures rows == KeptRows(old(rows), o, ids)
    {
      var existing := FilesOf(rows, o);
      var keep := set id | id in ids;
      ghost var gone: set<string> := {};
      NothingWithout(rows, o);
      for i := 0 to |existing|
        invariant rows == Without(old(rows), o, gone)
        invariant gone == SetOf(Ids(existing[..i])) - keep
      {
        var id := existing[i].publicId;
        assert Ids(existing[..i + 1]) == Ids(existing[..i]) + [id];
        if id in keep {
          continue;
        }
        WithoutBoth(old(rows), o, gone, {id});
        var _ := DeleteAttachment(o, id);
        gone := gone + {id};
      }
      assert existing[..|existing|] == existing;
    }

    /** UpsertCalendarObject: the files of an object that gives way go with it. */
    method UpsertObject(o: Object, obj: S.Obj<Ics>)
      requires ColOf(o) in objects.cols && S.Inv(objects.State())
      modifies this`rows, objects
      ensures State() == Upserted(old(State()), o, obj) && S.Inv(objects.State())
    {
      if obj.uid != "" {
        var other := objects.CalendarObjectByUID(ColOf(o), obj.uid);
        assert other == S.Holder(objects.State(), ColOf(o), obj.uid);
        if other.Some? && other.value != o.href {
          rows := DropFiles(rows, Object(o.calendar, other.value));
        }
      }
      objects.UpsertCalendarObject(ColOf(o), o.href, obj);
    }

    /** One transaction: an error puts both tables back. */
    method PutIcsWithAttachments(env: Env, hash: Ics -> string, o: Object, uid: string, ics: Ics, publicUrl: string)
      returns (error: Option<PutError>)
      requires ColOf(o) in objects.cols && S.Inv(objects.State())
      modifies this`rows, objects
      ensures match error
              case None => PutWhole(env, hash, old(State()), o, uid, ics, publicUrl) == Ok(State())
              case Some(e) => PutWhole(env, hash, old(State()), o, uid, ics, publicUrl) == Err(e) && State() == old(State())
    {
      if !IsObjectHref(o.href) {
        return Some(BadHref);
      }
      var split := SplitAttachments(env.codec, ics, o.calendar);
      if |split.groups.inlines| == 0 && |split.groups.ids| == 0 && |split.groups.external| == 0 {
        if |FilesOf(rows, o)| == 0 {
          UpsertObject(o, ObjOf(hash, uid, ics));
          return None;
        }
      }
      hide S.UpsertCalendar, S.Inv;
      var savedRows, savedObjects, savedChanges := rows, objects.cols, objects.changes;
      UpsertObject(o, ObjOf(hash, uid, split.ics));
      var refused := ApplyIcsAttachments(env, o, split.groups);
      if refused.Some? {
        rows, objects.cols, objects.changes := savedRows, savedObjects, savedChanges;
        return Some(Refused(refused.value));
      }
      var final := WriteAttachments(split, FilesOf(rows, o), publicUrl);
      if final == split.ics {
        return None;
      }
      UpsertObject(o, ObjOf(hash, uid, final));
      return None;
    }
  }
}
