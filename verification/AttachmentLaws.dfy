/**
  When files go in and whole objects are stored, in numbers and texts; and that calls of a run take
  effect one after the other.
 */
module AttachmentLaws {
  import opened Strings
  import opened Attach
  import opened Attachments
  import opened AttachedStore
  import opened Wrappers

  // ----- sizes -----

  /** Sizes add up. */
  lemma {:induction false} TotalIsSum(a: seq<Managed>, b: seq<Managed>, m: Managed)
    ensures Total(a + b) == Total(a) + Total(b) && Total([m]) == m.size
    decreases |b|
  {
    assert [m][..0] == [];
    if b == [] {
      assert a + b == a;
    } else {
      var k := |b| - 1;
      TotalIsSum(a, b[..k], m);
      assert (a + b)[..|a + b| - 1] == a + b[..k];
    }
  }

  lemma {:induction false} SizesAddUp(a: seq<Inline>, b: seq<Inline>, file: Inline)
    ensures SizeOf(a + b) == SizeOf(a) + SizeOf(b) && SizeOf([file]) == |file.data|
    decreases |b|
  {
    assert [file][..0] == [];
    if b == [] {
      assert a + b == a;
    } else {
      var k := |b| - 1;
      SizesAddUp(a, b[..k], file);
      assert (a + b)[..|a + b| - 1] == a + b[..k];
    }
  }

  /** None is empty or above 8 MiB. */
  ghost predicate EachFits(inlines: seq<Inline>) {
    forall i | 0 <= i < |inlines| :: 1 <= |inlines[i].data| <= 8 * 1024 * 1024
  }

  /** And together with what is there they stay within 32 MiB. */
  ghost predicate Fit(total: nat, inlines: seq<Inline>) {
    EachFits(inlines) && (inlines == [] || total + SizeOf(inlines) <= 32 * 1024 * 1024)
  }

  lemma EachFitsSnoc(front: seq<Inline>, last: Inline)
    ensures EachFits(front + [last]) <==> EachFits(front) && 1 <= |last.data| <= 8 * 1024 * 1024
  {
    var all := front + [last];
    if EachFits(all) {
      assert all[|front|] == last;
      forall i | 0 <= i < |front| ensures 1 <= |front[i].data| <= 8 * 1024 * 1024 {
        assert all[i] == front[i];
      }
    }
  }

  lemma {:induction false} SizesFitIff(total: nat, inlines: seq<Inline>)
    ensures SizesFit(total, inlines) == None <==> Fit(total, inlines)
  {
    if inlines != [] {
      var k := |inlines| - 1;
      SizesFitIff(total, inlines[..k]);
      FitSnoc(total, inlines);
    }
  }

  lemma FitSnoc(total: nat, inlines: seq<Inline>)
    requires inlines != []
    ensures var (front, last) := (inlines[..|inlines| - 1], inlines[|inlines| - 1]);
            Fit(total, inlines) <==>
              Fit(total, front) && 1 <= |last.data| <= 8 * 1024 * 1024 && total + SizeOf(inlines) <= 32 * 1024 * 1024
  {
    hide SizeOf, EachFits;
    var front, last := inlines[..|inlines| - 1], inlines[|inlines| - 1];
    assert inlines == front + [last];
    EachFitsSnoc(front, last);
    SizeOfSnoc(inlines);
  }

  lemma SizeOfSnoc(inlines: seq<Inline>)
    requires inlines != []
    ensures SizeOf(inlines) == SizeOf(inlines[..|inlines| - 1]) + |inlines[|inlines| - 1].data|
  {
  }

  // ----- one file -----

  /** The id asked for, white space aside, can be used. */
  ghost predicate IsUsable(rows: Rows, id: string) {
    IsPublicId(Trim(id)) && forall i | 0 <= i < |rows| :: rows[i].meta.publicId != Trim(id)
  }

  /** The new row: at the end, with the id asked for if it can be used. */
  ghost predicate IsInserted(env: Env, rows: Rows, o: Object, publicId: string, file: Inline, after: Rows) {
    && |after| == |rows| + 1 && after[..|rows|] == rows
    && after[|rows|].owner == o && after[|rows|].meta.size == |file.data|
    && after[|rows|].meta.publicId == (if IsUsable(rows, publicId) then Trim(publicId) else env.newId(rows))
    && (after[|rows|].meta.filename, after[|rows|].meta.contentType) == env.clean(file)
  }

  /**
    A file goes in exactly if it is not empty, is at most 8 MiB, the object has fewer than 20 files,
    stays within 32 MiB with it, and an id is free for it.
   */
  lemma InsertSucceedsIff(env: Env, rows: Rows, o: Object, publicId: string, file: Inline)
    ensures Insert(env, rows, o, publicId, file).Ok? <==>
              && 1 <= |file.data| <= 8 * 1024 * 1024 && |FilesOf(rows, o)| < 20
              && Total(FilesOf(rows, o)) + |file.data| <= 32 * 1024 * 1024
              && (IsUsable(rows, publicId) || forall i | 0 <= i < |rows| :: rows[i].meta.publicId != env.newId(rows))
    ensures Insert(env, rows, o, publicId, file).Ok? ==>
              IsInserted(env, rows, o, publicId, file, Insert(env, rows, o, publicId, file).value)
  {
    hide FilesOf, Total, Trim, IsPublicId;
  }

  // ----- hrefs -----

  /** The three characters stand there, in any case of letters. */
  ghost predicate StandsAt(t: string, i: int, a: char, b: char, c: char) {
    0 <= i < |t| - 2 && ToLower(t)[i] == a && ToLower(t)[i + 1] == b && ToLower(t)[i + 2] == c
  }

  /** White space aside: not empty, no dot or two, no slash of either kind, also not escaped, and no two escaped dots. */
  ghost predicate NamesObject(href: string) {
    var t := Trim(href);
    && t !in {"", ".", ".."}
    && (forall i | 0 <= i < |t| :: t[i] != '/' && t[i] != '\\')
    && (forall i :: !StandsAt(t, i, '%', '2', 'f') && !StandsAt(t, i, '%', '5', 'c'))
    && (forall i :: StandsAt(t, i, '%', '2', 'e') ==> !StandsAt(t, i + 3, '%', '2', 'e'))
  }

  lemma PatternStands(t: string, a: char, b: char, c: char)
    ensures Contains(ToLower(t), [a, b, c]) <==> exists i :: StandsAt(t, i, a, b, c)
  {
    var low, pattern := ToLower(t), [a, b, c];
    assert |low| == |t|;
    if i :| 0 <= i <= |low| && IsAt(low, pattern, i) {
      assert low[i..i + 3] == pattern;
      assert low[i] == low[i..i + 3][0] && low[i + 1] == low[i..i + 3][1] && low[i + 2] == low[i..i + 3][2];
      assert StandsAt(t, i, a, b, c);
    }
    if i :| StandsAt(t, i, a, b, c) {
      assert low[i..i + 3] == pattern;
      assert IsAt(low, pattern, i);
    }
  }

  lemma DotsStand(t: string)
    ensures Contains(ToLower(t), "%2e%2e") <==>
              exists i :: StandsAt(t, i, '%', '2', 'e') && StandsAt(t, i + 3, '%', '2', 'e')
  {
    var low, pattern := ToLower(t), ['%', '2', 'e', '%', '2', 'e'];
    assert "%2e%2e" == pattern;
    assert |low| == |t|;
    hide ToLower;
    if i :| 0 <= i <= |low| && IsAt(low, pattern, i) {
      TwoAt(low, i);
      assert StandsAt(t, i, '%', '2', 'e') && StandsAt(t, i + 3, '%', '2', 'e');
    }
    if i :| StandsAt(t, i, '%', '2', 'e') && StandsAt(t, i + 3, '%', '2', 'e') {
      assert low[i..i + 6] == pattern;
      assert IsAt(low, pattern, i);
    }
  }

  lemma TwoAt(s: string, i: nat)
    requires i + 6 <= |s| && s[i..i + 6] == ['%', '2', 'e', '%', '2', 'e']
    ensures s[i] == s[i + 3] == '%' && s[i + 1] == s[i + 4] == '2' && s[i + 2] == s[i + 5] == 'e'
  {
    var six := s[i..i + 6];
    assert six[0] == s[i] && six[1] == s[i + 1] && six[2] == s[i + 2];
    assert six[3] == s[i + 3] && six[4] == s[i + 4] && six[5] == s[i + 5];
  }

  /** Which hrefs a PUT accepts. */
  lemma HrefIff(href: string)
    ensures IsObjectHref(href) <==> NamesObject(href)
  {
    var t := Trim(href);
    PatternStands(t, '%', '2', 'f');
    PatternStands(t, '%', '5', 'c');
    assert "%2f" == ['%', '2', 'f'] && "%5c" == ['%', '5', 'c'];
    DotsStand(t);
    hide Trim, Contains, StandsAt, ToLower;
  }

  // ----- whole objects -----

  /**
    A PUT is stored exactly if its href names an object, it leaves the object with at most 20 files,
    no new file is empty or above 8 MiB, kept and new files are within 32 MiB if there are new ones,
    and no new id is taken.
   */
  lemma PutIsStoredIff(env: Env, hash: Ics -> string, db: Db, o: Object, uid: string, ics: Ics, publicUrl: string)
    requires ColOf(o) in db.store.cols && DbInv(db)
    ensures var g := SplitOf(env.codec, ics, o.calendar).groups;
            var kept := KeptRows(FilesThen(db, o, uid), o, g.ids);
            PutWhole(env, hash, db, o, uid, ics, publicUrl).Ok? <==>
              && NamesObject(o.href)
              && |FilesOf(kept, o)| + |g.inlines| <= 20 && Fit(Total(FilesOf(kept, o)), g.inlines)
              && NoClash(env, kept, o, g.inlines)
  {
    HrefIff(o.href);
    hide NamesObject, IsObjectHref, Inv, Fit, GivesWay, Write, SplitOf, Unreferenced, Insert;
    var g := SplitOf(env.codec, ics, o.calendar).groups;
    var rows := FilesThen(db, o, uid);
    var kept := KeptRows(rows, o, g.ids);
    OwnFilesStay(db, o, uid);
    KeptAreConsistent(db, o, uid, g.ids);
    if g == Groups([], [], []) && FilesOf(db.files, o) == [] {
      NothingKept(rows, o);
      NothingFits();
    } else {
      BulkCheckIsExact(env, kept, o, g.inlines);
      SizesFitIff(Total(FilesOf(kept, o)), g.inlines);
    }
  }

  lemma NothingFits()
    ensures Fit(0, []) && Total([]) == 0
  {
  }

  lemma NothingKept(rows: Rows, o: Object)
    requires FilesOf(rows, o) == []
    ensures FilesOf(KeptRows(rows, o, []), o) == []
  {
    FilesWithout(rows, o, Unreferenced([], []), o);
  }

  lemma KeptAreConsistent(db: Db, o: Object, uid: string, ids: seq<string>)
    requires DbInv(db)
    ensures Inv(FilesThen(db, o, uid)) && Inv(KeptRows(FilesThen(db, o, uid), o, ids))
  {
    var other := GivesWay(db, o, uid);
    if other.Some? {
      DroppedFiles(db.files, other.value, o);
    }
    hide Inv, GivesWay, DropFiles;
    var rows := FilesThen(db, o, uid);
    WithoutKeepsInv(rows, o, Unreferenced(FilesOf(rows, o), ids));
  }

  // ----- runs -----

  /** The calls on the file table take effect one after the other; one that fails changes nothing. */
  lemma FilesRunStepwise(env: Env, rows: Rows, calls: seq<Call>, call: Call)
    ensures Run(env, rows, []) == rows
    ensures var (before, after) := (Run(env, rows, calls), Run(env, rows, calls + [call]));
            && (call.InsertFile? ==>
                  var r := Insert(env, before, call.o, call.publicId, call.file);
                  if r.Ok? then after == r.value else after == before)
            && (call.PutObject? ==>
                  var r := Put(env, before, call.o, call.ics, call.publicUrl);
                  if r.Ok? then after == r.value.0 else after == before)
            && (call.DeleteFile? ==> after == Without(before, call.o, {call.id}))
            && (call.DropObject? ==> after == DropFiles(before, call.o))
  {
    assert (calls + [call])[..|calls|] == calls;
    hide Put, Insert, Without, FilesOf;
  }

  /** The calls of a run take effect one after the other. */
  lemma RunIsStepwise(env: Env, hash: Ics -> string, db: Db, calls: seq<DbCall>, call: DbCall)
    requires ColOf(call.o) in RunCalls(env, hash, db, calls).store.cols
    ensures RunCalls(env, hash, db, []) == db
    ensures var (before, after) := (RunCalls(env, hash, db, calls), RunCalls(env, hash, db, calls + [call]));
            call.PutCall? ==>
              if PutWhole(env, hash, before, call.o, call.uid, call.ics, call.publicUrl).Ok?
              then Ok(after) == PutWhole(env, hash, before, call.o, call.uid, call.ics, call.publicUrl) else after == before
    ensures var (before, after) := (RunCalls(env, hash, db, calls), RunCalls(env, hash, db, calls + [call]));
            call.InsertCall? ==>
              if Insert(env, before.files, call.o, call.publicId, call.file).Ok? && Exists(before, call.o)
              then Ok(after.files) == Insert(env, before.files, call.o, call.publicId, call.file) && after.store == before.store
              else after == before
    ensures var (before, after) := (RunCalls(env, hash, db, calls), RunCalls(env, hash, db, calls + [call]));
            && (call.DeleteFileCall? ==> after == Db(before.store, Without(before.files, call.o, {call.id})))
            && (call.DeleteCall? ==> after == Deleted(before, call.o))
  {
    assert (calls + [call])[..|calls|] == calls;
    hide PutWhole, Insert, Without, Deleted, ColOf, Exists;
  }
}
