/**
  The files of calendar objects: rows of calendar_attachments, the limits on them, and the PUT that
  takes inline files out of an object and leaves references to the stored ones.
 */
module Attachments {
  import opened Strings
  import opened Attach
  import opened Wrappers

  const MAX_FILES := 20
  const MAX_FILE := 8 * 0x10_0000
  const MAX_TOTAL := 32 * 0x10_0000

  datatype Object = Object(calendar: int, href: string)

  /** A row of calendar_attachments. */
  datatype File = File(owner: Object, meta: Managed)

  /** The rows in the order of their ids. */
  type Rows = seq<File>

  /** IdTaken: a new id that a row has already, which the table refuses. */
  datatype Error = Empty | TooLarge | TooMany | IdTaken

  /** What libraries decide: a new UUID, free or not, and the cleaned name and content type of a file. */
  datatype Env = Env(codec: Codec, newId: Rows -> PublicId, clean: Inline -> (string, string))

  predicate IsTaken(rows: Rows, id: string) {
    exists i :: 0 <= i < |rows| && rows[i].meta.publicId == id
  }

  // ----- rows -----

  /** ListAttachments */
  function FilesOf(rows: Rows, o: Object): seq<Managed> {
    if rows == [] then []
    else FilesOf(rows[..|rows| - 1], o) + if rows[|rows| - 1].owner == o then [rows[|rows| - 1].meta] else []
  }

  function Total(files: seq<Managed>): nat {
    if files == [] then 0 else Total(files[..|files| - 1]) + files[|files| - 1].size
  }

  /** The rows without those of the object that have one of the ids. */
  function Without(rows: Rows, o: Object, ids: set<string>): Rows {
    if rows == [] then []
    else
      var r := rows[|rows| - 1];
      Without(rows[..|rows| - 1], o, ids) + if r.owner == o && r.meta.publicId in ids then [] else [r]
  }

  // ----- inserting -----

  function ChosenId(env: Env, rows: Rows, publicId: string): string {
    if IsPublicId(Trim(publicId)) && !IsTaken(rows, Trim(publicId)) then Trim(publicId) else env.newId(rows)
  }

  /** insertAttachment; the id is the one asked for if it is valid and free, and ids are unique in the table. */
  function Insert(env: Env, rows: Rows, o: Object, publicId: string, file: Inline): Result<Rows, Error> {
    var files := FilesOf(rows, o);
    if |file.data| == 0 then Err(Empty)
    else if |file.data| > MAX_FILE then Err(TooLarge)
    else if |files| >= MAX_FILES then Err(TooMany)
    else if Total(files) + |file.data| > MAX_TOTAL then Err(TooLarge)
    else
      var id := ChosenId(env, rows, publicId);
      var (name, contentType) := env.clean(file);
      if IsTaken(rows, id) then Err(IdTaken) else Ok(rows + [File(o, Managed(id, name, contentType, |file.data|))])
  }

  function InsertEach(env: Env, rows: Rows, o: Object, inlines: seq<Inline>): Result<Rows, Error> {
    if inlines == [] then Ok(rows)
    else
      match InsertEach(env, rows, o, inlines[..|inlines| - 1])
      case Err(e) => Err(e)
      case Ok(before) => Insert(env, before, o, "", inlines[|inlines| - 1])
  }

  function SizeOf(inlines: seq<Inline>): nat {
    if inlines == [] then 0 else SizeOf(inlines[..|inlines| - 1]) + |inlines[|inlines| - 1].data|
  }

  /** The checks in the loop of CheckInlineAttachmentLimits, for the files before the last too. */
  function SizesFit(total: nat, inlines: seq<Inline>): Option<Error> {
    if inlines == [] then None
    else
      var before, last := SizesFit(total, inlines[..|inlines| - 1]), inlines[|inlines| - 1];
      if before.Some? then before
      else if |last.data| == 0 then Some(Empty)
      else if |last.data| > MAX_FILE || total + SizeOf(inlines) > MAX_TOTAL then Some(TooLarge)
      else None
  }

  function InlineLimits(count: nat, total: nat, inlines: seq<Inline>): Option<Error> {
    if count + |inlines| > MAX_FILES then Some(TooMany) else SizesFit(total, inlines)
  }

  method CheckInlineAttachmentLimits(count: nat, bytes: nat, inlines: seq<Inline>) returns (error: Option<Error>)
    ensures error == InlineLimits(count, bytes, inlines)
  {
    if count + |inlines| > MAX_FILES {
      return Some(TooMany);
    }
    var total := bytes;
    assert inlines[..0] == [];
    for i := 0 to |inlines|
      invariant total == bytes + SizeOf(inlines[..i]) && SizesFit(bytes, inlines[..i]) == None
    {
      assert inlines[..i + 1][..i] == inlines[..i];
      var size := |inlines[i].data|;
      if size == 0 {
        ErrorStays(bytes, inlines, i + 1);
        return Some(Empty);
      }
      if size > MAX_FILE {
        ErrorStays(bytes, inlines, i + 1);
        return Some(TooLarge);
      }
      total := total + size;
      if total > MAX_TOTAL {
        ErrorStays(bytes, inlines, i + 1);
        return Some(TooLarge);
      }
    }
    assert inlines[..|inlines|] == inlines;
    return None;
  }

  /** The first error is the result. */
  lemma {:induction false} ErrorStays(total: nat, inlines: seq<Inline>, n: nat)
    requires n <= |inlines| && SizesFit(total, inlines[..n]).Some?
    ensures SizesFit(total, inlines) == SizesFit(total, inlines[..n])
  {
    if n == |inlines| {
      assert inlines[..n] == inlines;
    } else {
      var front := inlines[..|inlines| - 1];
      assert front[..n] == inlines[..n];
      ErrorStays(total, front, n);
    }
  }

  // ----- limits -----

  ghost predicate WithinLimits(files: seq<Managed>) {
    && |files| <= MAX_FILES
    && Total(files) <= MAX_TOTAL
    && forall i :: 0 <= i < |files| ==> 1 <= files[i].size <= MAX_FILE
  }

  /** Ids are valid and differ from each other. */
  ghost predicate GoodIds(rows: Rows) {
    && (forall i :: 0 <= i < |rows| ==> IsPublicId(rows[i].meta.publicId))
    && (forall i, j :: 0 <= i < j < |rows| ==> rows[i].meta.publicId != rows[j].meta.publicId)
  }

  /** Every object is within the limits, and ids are valid and unique among all rows. */
  ghost predicate Inv(rows: Rows) {
    GoodIds(rows) && forall o :: WithinLimits(FilesOf(rows, o))
  }

  lemma FilesSnoc(rows: Rows, r: File, o: Object)
    ensures FilesOf(rows + [r], o) == FilesOf(rows, o) + if r.owner == o then [r.meta] else []
  {
    assert (rows + [r])[..|rows|] == rows;
  }

  lemma TotalSnoc(files: seq<Managed>, m: Managed)
    ensures Total(files + [m]) == Total(files) + m.size
  {
    assert (files + [m])[..|files|] == files;
  }

  lemma InsertKeepsInv(env: Env, rows: Rows, o: Object, publicId: string, file: Inline)
    requires Inv(rows) && Insert(env, rows, o, publicId, file).Ok?
    ensures Inv(Insert(env, rows, o, publicId, file).value)
  {
    hide IsPublicId, WithinLimits;
    var after := Insert(env, rows, o, publicId, file).value;
    var r := after[|rows|];
    assert IsPublicId(r.meta.publicId) && !IsTaken(rows, r.meta.publicId);
    forall k ensures WithinLimits(FilesOf(after, k)) {
      FilesSnoc(rows, r, k);
      if k == o {
        OneMoreFits(FilesOf(rows, o), r.meta);
      } else {
        assert FilesOf(after, k) == FilesOf(rows, k);
      }
    }
  }

  lemma OneMoreFits(files: seq<Managed>, m: Managed)
    requires WithinLimits(files) && |files| < MAX_FILES && Total(files) + m.size <= MAX_TOTAL && 1 <= m.size <= MAX_FILE
    ensures WithinLimits(files + [m])
  {
    TotalSnoc(files, m);
  }

  /** What removing rows leaves, seen from an object: its files without those removed, in order. */
  function Remaining(files: seq<Managed>, ids: set<string>): seq<Managed> {
    if files == [] then []
    else Remaining(files[..|files| - 1], ids) + if files[|files| - 1].publicId in ids then [] else [files[|files| - 1]]
  }

  lemma RemainingSnoc(files: seq<Managed>, m: Managed, ids: set<string>)
    ensures Remaining(files + [m], ids) == Remaining(files, ids) + if m.publicId in ids then [] else [m]
  {
    assert (files + [m])[..|files|] == files;
  }

  lemma {:induction false} FilesWithout(rows: Rows, o: Object, ids: set<string>, k: Object)
    ensures FilesOf(Without(rows, o, ids), k) == if k == o then Remaining(FilesOf(rows, k), ids) else FilesOf(rows, k)
  {
    if rows != [] {
      FilesWithout(rows[..|rows| - 1], o, ids, k);
      FilesWithoutSnoc(rows[..|rows| - 1], rows[|rows| - 1], o, ids, k);
    }
  }

  lemma FilesWithoutSnoc(front: Rows, r: File, o: Object, ids: set<string>, k: Object)
    requires FilesOf(Without(front, o, ids), k) == if k == o then Remaining(FilesOf(front, k), ids) else FilesOf(front, k)
    ensures var kept := Without(front, o, ids) + if r.owner == o && r.meta.publicId in ids then [] else [r];
            FilesOf(kept, k) ==
              if k == o then Remaining(FilesOf(front, k) + if r.owner == k then [r.meta] else [], ids)
              else FilesOf(front, k) + if r.owner == k then [r.meta] else []
  {
    hide Without, FilesOf, Remaining;
    var kept := Without(front, o, ids);
    FilesSnoc(kept, r, k);
    RemainingSnoc(FilesOf(front, k), r.meta, ids);
    assert kept + [] == kept && FilesOf(front, k) + [] == FilesOf(front, k);
    assert FilesOf(kept, k) + [] == FilesOf(kept, k);
  }

  lemma FrontFits(files: seq<Managed>)
    requires files != [] && WithinLimits(files)
    ensures WithinLimits(files[..|files| - 1]) && 1 <= files[|files| - 1].size <= MAX_FILE
    ensures Total(files) == Total(files[..|files| - 1]) + files[|files| - 1].size
  {
  }

  lemma {:induction false} RemainingFits(files: seq<Managed>, ids: set<string>)
    requires WithinLimits(files)
    ensures WithinLimits(Remaining(files, ids)) && |Remaining(files, ids)| <= |files|
    ensures Total(Remaining(files, ids)) <= Total(files)
  {
    if files != [] {
      var front, last := files[..|files| - 1], files[|files| - 1];
      FrontFits(files);
      RemainingFits(front, ids);
      LimitsMean(files);
      if last.publicId !in ids {
        LimitsMean(Remaining(front, ids));
        hide WithinLimits;
        OneMoreFits(Remaining(front, ids), last);
        TotalSnoc(Remaining(front, ids), last);
      } else {
        assert Remaining(files, ids) == Remaining(front, ids);
      }
    }
  }

  lemma LimitsMean(files: seq<Managed>)
    requires WithinLimits(files)
    ensures |files| <= MAX_FILES && Total(files) <= MAX_TOTAL
  {
  }

  lemma {:induction false} WithoutKeepsIds(rows: Rows, o: Object, ids: set<string>)
    requires GoodIds(rows)
    ensures GoodIds(Without(rows, o, ids))
    ensures forall r :: r in Without(rows, o, ids) ==> r in rows
  {
    if rows != [] {
      hide IsPublicId;
      var front, r := rows[..|rows| - 1], rows[|rows| - 1];
      WithoutKeepsIds(front, o, ids);
      assert rows == front + [r];
      var kept := Without(front, o, ids);
      forall i | 0 <= i < |kept| ensures kept[i].meta.publicId != r.meta.publicId {
        assert kept[i] in front;
        var j :| 0 <= j < |front| && front[j] == kept[i];
        assert rows[j] == front[j];
      }
    }
  }

  lemma WithoutKeepsInv(rows: Rows, o: Object, ids: set<string>)
    requires Inv(rows)
    ensures Inv(Without(rows, o, ids))
  {
    hide WithinLimits, GoodIds;
    WithoutKeepsIds(rows, o, ids);
    forall k ensures WithinLimits(FilesOf(Without(rows, o, ids), k)) {
      FilesWithout(rows, o, ids, k);
      RemainingFits(FilesOf(rows, k), ids);
    }
  }

  lemma {:induction false} InsertEachKeepsInv(env: Env, rows: Rows, o: Object, inlines: seq<Inline>)
    requires Inv(rows) && InsertEach(env, rows, o, inlines).Ok?
    ensures Inv(InsertEach(env, rows, o, inlines).value)
  {
    if inlines != [] {
      var front := inlines[..|inlines| - 1];
      InsertEachKeepsInv(env, rows, o, front);
      InsertKeepsInv(env, InsertEach(env, rows, o, front).value, o, "", inlines[|inlines| - 1]);
    }
  }

  // ----- the bulk check -----

  lemma InsertGrows(env: Env, rows: Rows, o: Object, publicId: string, file: Inline)
    ensures var fits := 1 <= |file.data| <= MAX_FILE && |FilesOf(rows, o)| < MAX_FILES
                        && Total(FilesOf(rows, o)) + |file.data| <= MAX_TOTAL;
            && (Insert(env, rows, o, publicId, file).Ok? <==> fits && !IsTaken(rows, ChosenId(env, rows, publicId)))
            && (Insert(env, rows, o, publicId, file) == Err(IdTaken) <==> fits && IsTaken(rows, ChosenId(env, rows, publicId)))
    ensures Insert(env, rows, o, publicId, file).Ok? ==>
              var files := FilesOf(Insert(env, rows, o, publicId, file).value, o);
              |files| == |FilesOf(rows, o)| + 1 && Total(files) == Total(FilesOf(rows, o)) + |file.data|
  {
    hide IsPublicId, IsTaken;
    var r := Insert(env, rows, o, publicId, file);
    if r.Ok? {
      FilesSnoc(rows, r.value[|rows|], o);
      TotalSnoc(FilesOf(rows, o), r.value[|rows|].meta);
    }
  }

  /** No new id on the way is one that a row has already. */
  predicate NoClash(env: Env, rows: Rows, o: Object, inlines: seq<Inline>) {
    inlines == [] ||
      var front := inlines[..|inlines| - 1];
      && NoClash(env, rows, o, front)
      && match InsertEach(env, rows, o, front)
         case Err(_) => true
         case Ok(before) => !IsTaken(before, ChosenId(env, before, ""))
  }

  /**
    One by one the files go in exactly when none is empty or too large, counts and sizes add up within
    the limits, and no new id is taken.
   */
  lemma {:induction false} InsertsSucceed(env: Env, rows: Rows, o: Object, inlines: seq<Inline>)
    requires |FilesOf(rows, o)| <= MAX_FILES
    ensures var (n, total) := (|FilesOf(rows, o)|, Total(FilesOf(rows, o)));
            var fit := n + |inlines| <= MAX_FILES && SizesFit(total, inlines) == None;
            && (InsertEach(env, rows, o, inlines).Ok? <==> fit && NoClash(env, rows, o, inlines))
            && (fit && !NoClash(env, rows, o, inlines) ==> InsertEach(env, rows, o, inlines) == Err(IdTaken))
            && (InsertEach(env, rows, o, inlines).Ok? ==>
                  var files := FilesOf(InsertEach(env, rows, o, inlines).value, o);
                  |files| == n + |inlines| && Total(files) == total + SizeOf(inlines))
  {
    hide Insert, IsTaken;
    if inlines != [] {
      var front, last := inlines[..|inlines| - 1], inlines[|inlines| - 1];
      InsertsSucceed(env, rows, o, front);
      if InsertEach(env, rows, o, front).Ok? {
        InsertGrows(env, InsertEach(env, rows, o, front).value, o, "", last);
      }
    }
  }

  /**
    The check beforehand lets through exactly the lists that can be inserted one by one, but for a new
    id that is taken, which is then the error.
   */
  lemma BulkCheckIsExact(env: Env, rows: Rows, o: Object, inlines: seq<Inline>)
    requires Inv(rows)
    ensures var checked := InlineLimits(|FilesOf(rows, o)|, Total(FilesOf(rows, o)), inlines);
            && (InsertEach(env, rows, o, inlines).Ok? <==> checked == None && NoClash(env, rows, o, inlines))
            && (checked == None && !NoClash(env, rows, o, inlines) ==> InsertEach(env, rows, o, inlines) == Err(IdTaken))
  {
    assert WithinLimits(FilesOf(rows, o));
    InsertsSucceed(env, rows, o, inlines);
  }

  // ----- ids do not run out -----

  function Pow10(n: nat): (r: nat)
    ensures r > 0
  {
    if n == 0 then 1 else 10 * Pow10(n - 1)
  }

  /** The last w decimal digits of a number. */
  function Digits(n: nat, w: nat): (s: string)
    ensures |s| == w && forall i :: 0 <= i < w ==> IsDigit(s[i])
  {
    if w == 0 then "" else Digits(n / 10, w - 1) + [Digit(n % 10)]
  }

  lemma {:induction false} DigitsTell(a: nat, b: nat, w: nat)
    requires a < Pow10(w) && b < Pow10(w) && Digits(a, w) == Digits(b, w)
    ensures a == b
  {
    if w > 0 {
      var x, y := Digits(a, w), Digits(b, w);
      assert x[..w - 1] == Digits(a / 10, w - 1) && y[..w - 1] == Digits(b / 10, w - 1);
      assert x[w - 1] == Digit(a % 10) && y[w - 1] == Digit(b % 10);
      DigitsTell(a / 10, b / 10, w - 1);
    }
  }

  /** A valid id that ends with the number. */
  function NumberedId(n: nat): (id: PublicId) {
    NumberedIsPublic(n);
    NilId()[..24] + Digits(n, 12)
  }

  lemma NumberedIsPublic(n: nat)
    ensures IsPublicId(NilId()[..24] + Digits(n, 12))
  {
    assert |NilId()| == 36;
  }

  lemma NumberedTell(a: nat, b: nat)
    requires a < Pow10(12) && b < Pow10(12) && NumberedId(a) == NumberedId(b)
    ensures a == b
  {
    assert NumberedId(a)[24..] == Digits(a, 12) && NumberedId(b)[24..] == Digits(b, 12);
    DigitsTell(a, b, 12);
  }

  ghost function TakenBelow(rows: Rows, n: nat): set<nat> {
    set k: nat | k < n && IsTaken(rows, NumberedId(k))
  }

  lemma TakenSnoc(rows: Rows, r: File, id: string)
    ensures IsTaken(rows + [r], id) <==> IsTaken(rows, id) || r.meta.publicId == id
  {
    var all := rows + [r];
    if i :| 0 <= i < |rows| && rows[i].meta.publicId == id {
      assert all[i].meta.publicId == id;
    }
    if r.meta.publicId == id {
      assert all[|rows|].meta.publicId == id;
    }
  }

  /** Each row takes at most one of the numbered ids. */
  lemma {:induction false} OneEach(rows: Rows, n: nat)
    requires n <= Pow10(12)
    ensures |TakenBelow(rows, n)| <= |rows|
  {
    if rows == [] {
      assert TakenBelow(rows, n) == {};
    } else {
      var front, r := rows[..|rows| - 1], rows[|rows| - 1];
      OneEach(front, n);
      assert rows == front + [r];
      forall k | k in TakenBelow(rows, n) && k !in TakenBelow(front, n) ensures NumberedId(k) == r.meta.publicId {
        TakenSnoc(front, r, NumberedId(k));
      }
      forall k | k in TakenBelow(front, n) ensures k in TakenBelow(rows, n) {
        TakenSnoc(front, r, NumberedId(k));
      }
      if k :| k in TakenBelow(rows, n) && k !in TakenBelow(front, n) {
        forall j | j in TakenBelow(rows, n) ensures j in TakenBelow(front, n) + {k} {
          if j !in TakenBelow(front, n) {
            NumberedTell(j, k);
          }
        }
        assert |TakenBelow(front, n) + {k}| == |TakenBelow(front, n)| + 1;
        Subset(TakenBelow(rows, n), TakenBelow(front, n) + {k});
      } else {
        Subset(TakenBelow(rows, n), TakenBelow(front, n));
      }
    }
  }

  lemma Subset<T>(a: set<T>, b: set<T>)
    requires a <= b
    ensures |a| <= |b|
  {
    assert b == a + (b - a);
  }

  function Below(n: nat): (s: set<nat>)
    ensures |s| == n && forall k: nat :: k in s <==> k < n
  {
    if n == 0 then {} else Below(n - 1) + {n - 1}
  }

  /** In a table of fewer than 10^12 rows an id is free. */
  lemma SomeIdIsFree(rows: Rows)
    requires |rows| < 1_000_000_000_000
    ensures exists id: PublicId :: !IsTaken(rows, id)
  {
    assert Pow10(12) == 1_000_000_000_000;
    var n := |rows| + 1;
    OneEach(rows, n);
    if Below(n) <= TakenBelow(rows, n) {
      Subset(Below(n), TakenBelow(rows, n));
      assert false;
    }
    var k :| k in Below(n) && k !in TakenBelow(rows, n);
    assert !IsTaken(rows, NumberedId(k));
  }

  /** New ids that are free as long as the table has one. */
  ghost function FreshId(rows: Rows): (id: PublicId)
    ensures |rows| < 1_000_000_000_000 ==> !IsTaken(rows, id)
  {
    if |rows| < 1_000_000_000_000 then
      SomeIdIsFree(rows);
      var id: PublicId :| !IsTaken(rows, id);
      id
    else NilId()
  }

  ghost function FreshEnv(codec: Codec, clean: Inline -> (string, string)): Env {
    Env(codec, rows => FreshId(rows), clean)
  }

  /** With such ids nothing clashes: then the check beforehand is exact. */
  lemma {:induction false} FreshIdsDoNotClash(codec: Codec, clean: Inline -> (string, string), rows: Rows, o: Object,
                                              inlines: seq<Inline>)
    requires |rows| + |inlines| <= 1_000_000_000_000
    ensures var inserted := InsertEach(FreshEnv(codec, clean), rows, o, inlines);
            NoClash(FreshEnv(codec, clean), rows, o, inlines) && (inserted.Ok? ==> |inserted.value| == |rows| + |inlines|)
  {
    hide FreshId, IsPublicId, FilesOf, Total;
    if inlines != [] {
      FreshIdsDoNotClash(codec, clean, rows, o, inlines[..|inlines| - 1]);
    }
  }

  // ----- putting an object -----

  function SetOf(ids: seq<string>): set<string> {
    set id | id in ids
  }

  /** The ids of the object's files that the object no longer refers to. */
  function Unreferenced(files: seq<Managed>, ids: seq<string>): set<string> {
    SetOf(Ids(files)) - SetOf(ids)
  }

  function KeptRows(rows: Rows, o: Object, ids: seq<string>): Rows {
    Without(rows, o, Unreferenced(FilesOf(rows, o), ids))
  }

  /** ApplyICSAttachments: the rows afterwards, or an error. */
  function Applied(env: Env, rows: Rows, o: Object, g: Groups): Result<Rows, Error> {
    var kept := KeptRows(rows, o, g.ids);
    match InlineLimits(|FilesOf(kept, o)|, Total(FilesOf(kept, o)), g.inlines)
    case Some(e) => Err(e)
    case None => InsertEach(env, kept, o, g.inlines)
  }

  /** PutICSWithAttachments: the rows and the object stored last; on an error everything is as before. */
  function Put(env: Env, rows: Rows, o: Object, ics: Ics, publicUrl: string): Result<(Rows, Ics), Error> {
    var split := SplitOf(env.codec, ics, o.calendar);
    if split.groups == Groups([], [], []) && FilesOf(rows, o) == [] then Ok((rows, ics))
    else
      match Applied(env, rows, o, split.groups)
      case Err(e) => Err(e)
      case Ok(after) => Ok((after, Write(split, FilesOf(after, o), publicUrl)))
  }

  lemma AppliedKeepsInv(env: Env, rows: Rows, o: Object, g: Groups)
    requires Inv(rows) && Applied(env, rows, o, g).Ok?
    ensures Inv(Applied(env, rows, o, g).value)
  {
    WithoutKeepsInv(rows, o, Unreferenced(FilesOf(rows, o), g.ids));
    InsertEachKeepsInv(env, KeptRows(rows, o, g.ids), o, g.inlines);
  }

  // ----- runs -----

  datatype Call =
    | InsertFile(o: Object, publicId: string, file: Inline)
    | DeleteFile(o: Object, id: string)
    | PutObject(o: Object, ics: Ics, publicUrl: string)
    | DropObject(o: Object)

  function Apply(env: Env, rows: Rows, call: Call): Rows {
    match call
    case InsertFile(o, publicId, file) =>
      (match Insert(env, rows, o, publicId, file) case Ok(after) => after case Err(_) => rows)
    case DeleteFile(o, id) => Without(rows, o, {id})
    case PutObject(o, ics, publicUrl) =>
      (match Put(env, rows, o, ics, publicUrl) case Ok((after, _)) => after case Err(_) => rows)
    case DropObject(o) => Without(rows, o, SetOf(Ids(FilesOf(rows, o))))
  }

  function Run(env: Env, rows: Rows, calls: seq<Call>): Rows {
    if calls == [] then rows else Apply(env, Run(env, rows, calls[..|calls| - 1]), calls[|calls| - 1])
  }

  /** Over every run, each object stays within 20 files of at most 8 MiB and 32 MiB in all. */
  lemma {:induction false} RunKeepsLimits(env: Env, rows: Rows, calls: seq<Call>)
    requires Inv(rows)
    ensures Inv(Run(env, rows, calls))
  {
    if calls != [] {
      var before := Run(env, rows, calls[..|calls| - 1]);
      RunKeepsLimits(env, rows, calls[..|calls| - 1]);
      match calls[|calls| - 1]
      case InsertFile(o, publicId, file) =>
        if Insert(env, before, o, publicId, file).Ok? {
          InsertKeepsInv(env, before, o, publicId, file);
        }
      case DeleteFile(o, id) => WithoutKeepsInv(before, o, {id});
      case PutObject(o, ics, publicUrl) =>
        var g := SplitOf(env.codec, ics, o.calendar).groups;
        if Applied(env, before, o, g).Ok? {
          AppliedKeepsInv(env, before, o, g);
        }
      case DropObject(o) => WithoutKeepsInv(before, o, SetOf(Ids(FilesOf(before, o))));
    }
  }

  // ----- what a PUT leaves -----

  lemma {:induction false} RemainingAre(files: seq<Managed>, ids: set<string>, m: Managed)
    ensures m in Remaining(files, ids) <==> m in files && m.publicId !in ids
  {
    if files != [] {
      RemainingAre(files[..|files| - 1], ids, m);
    }
  }

  /** After these files come new ones of the sizes of the inline files. */
  ghost predicate Appended(before: seq<Managed>, after: seq<Managed>, inlines: seq<Inline>) {
    && before <= after
    && |after| == |before| + |inlines|
    && forall i :: 0 <= i < |inlines| ==> after[|before| + i].size == |inlines[i].data|
  }

  lemma AppendedSnoc(before: seq<Managed>, after: seq<Managed>, inlines: seq<Inline>, m: Managed, inl: Inline)
    requires Appended(before, after, inlines) && m.size == |inl.data|
    ensures Appended(before, after + [m], inlines + [inl])
  {
  }

  lemma {:induction false} InsertedFiles(env: Env, rows: Rows, o: Object, inlines: seq<Inline>, k: Object)
    requires InsertEach(env, rows, o, inlines).Ok?
    ensures var after := FilesOf(InsertEach(env, rows, o, inlines).value, k);
            if k == o then Appended(FilesOf(rows, k), after, inlines) else after == FilesOf(rows, k)
  {
    hide Insert, FilesOf, Appended;
    if inlines == [] {
      AppendedNothing(FilesOf(rows, k));
    } else {
      var front, last := inlines[..|inlines| - 1], inlines[|inlines| - 1];
      InsertedFiles(env, rows, o, front, k);
      InsertedNext(env, InsertEach(env, rows, o, front).value, o, last, FilesOf(rows, k), front, k);
      assert inlines == front + [last];
    }
  }

  lemma AppendedNothing(files: seq<Managed>)
    ensures Appended(files, files, [])
  {
  }

  lemma InsertedNext(env: Env, rows: Rows, o: Object, file: Inline, before: seq<Managed>, front: seq<Inline>, k: Object)
    requires Insert(env, rows, o, "", file).Ok?
    requires if k == o then Appended(before, FilesOf(rows, k), front) else before == FilesOf(rows, k)
    ensures var after := FilesOf(Insert(env, rows, o, "", file).value, k);
            if k == o then Appended(before, after, front + [file]) else after == before
  {
    InsertedOne(env, rows, o, file, k);
    hide Insert, FilesOf, Appended;
    var files := FilesOf(Insert(env, rows, o, "", file).value, k);
    if k == o {
      AppendedSnoc(before, FilesOf(rows, k), front, files[|files| - 1], file);
    }
  }

  lemma InsertedOne(env: Env, rows: Rows, o: Object, file: Inline, k: Object)
    requires Insert(env, rows, o, "", file).Ok?
    ensures var after := FilesOf(Insert(env, rows, o, "", file).value, k);
            if k != o then after == FilesOf(rows, k)
            else after != [] && after == FilesOf(rows, k) + [after[|after| - 1]] && after[|after| - 1].size == |file.data|
  {
    hide IsPublicId, IsTaken;
    var after := Insert(env, rows, o, "", file).value;
    FilesSnoc(rows, after[|rows|], k);
    assert FilesOf(rows, k) + [] == FilesOf(rows, k);
  }

  /**
    The files after a PUT: of the old ones exactly those the object refers to, in order; then one for
    each inline file, of its size.  Other objects keep their files.
   */
  lemma FilesAfterPut(env: Env, rows: Rows, o: Object, g: Groups, k: Object)
    requires Applied(env, rows, o, g).Ok?
    ensures var (before, after) := (FilesOf(rows, k), FilesOf(Applied(env, rows, o, g).value, k));
            && (k != o ==> after == before)
            && (k == o ==>
                  var kept := Remaining(before, Unreferenced(before, g.ids));
                  && (forall m :: m in kept <==> m in before && m.publicId in g.ids)
                  && Appended(kept, after, g.inlines))
  {
    var files := FilesOf(rows, o);
    var gone := Unreferenced(files, g.ids);
    FilesWithout(rows, o, gone, k);
    InsertedFiles(env, KeptRows(rows, o, g.ids), o, g.inlines, k);
    forall m ensures m in Remaining(files, gone) <==> m in files && m.publicId in g.ids {
      RemainingAre(files, gone, m);
      if m in files {
        var i :| 0 <= i < |files| && files[i] == m;
        assert Ids(files)[i] == m.publicId;
      }
    }
  }

  lemma {:induction false} FilesAreManaged(rows: Rows, o: Object)
    requires GoodIds(rows)
    ensures AreManaged(FilesOf(rows, o))
    ensures forall m :: m in FilesOf(rows, o) ==> File(o, m) in rows
  {
    if rows != [] {
      hide IsPublicId;
      var front, r := rows[..|rows| - 1], rows[|rows| - 1];
      FilesAreManaged(front, o);
      assert rows == front + [r];
      var files := FilesOf(front, o);
      forall i | 0 <= i < |files| ensures files[i].publicId != r.meta.publicId {
        assert File(o, files[i]) in front;
        var j :| 0 <= j < |front| && front[j] == File(o, files[i]);
        assert rows[j] == front[j];
      }
    }
  }

  /**
    The object that a PUT stores: its external entries in order, then the stored files; read back,
    the entries with an id are exactly the stored files just when no two entries put had one id.
   */
  lemma StoredObject(env: Env, rows: Rows, o: Object, ics: Ics, publicUrl: string)
    requires Inv(rows) && HostIsAlone(ics) && Host(ics).Some? && HasScheme(publicUrl)
    requires Put(env, rows, o, ics, publicUrl).Ok?
    ensures var (after, stored) := Put(env, rows, o, ics, publicUrl).value;
            var g := Grouped(env.codec, o.calendar, Entries(ics));
            && Entries(stored) == g.external + WrittenAll(publicUrl, FilesOf(after, o))
            && (WithId(env.codec, o.calendar, Entries(stored)) == WrittenAll(publicUrl, FilesOf(after, o)) <==>
                  IdsOccurOnce(env.codec, o.calendar, Entries(ics)))
  {
    var (after, stored) := Put(env, rows, o, ics, publicUrl).value;
    var split := SplitOf(env.codec, ics, o.calendar);
    var g := split.groups;
    if g == Groups([], [], []) && FilesOf(rows, o) == [] {
      NothingToGroup(env.codec, o.calendar, Entries(ics));
      assert after == rows && stored == ics;
      assert g.external + WrittenAll(publicUrl, FilesOf(after, o)) == [];
    } else {
      AppliedKeepsInv(env, rows, o, g);
      HostKeepsEntries(ics, g.external + WrittenAll(publicUrl, FilesOf(after, o)));
    }
    assert Inv(after);
    FilesAreManaged(after, o);
    ManagedAreTheStored(env.codec, o.calendar, Entries(ics), FilesOf(after, o), publicUrl);
  }

  lemma {:induction false} NothingToGroup(codec: Codec, calendar: int, entries: seq<Prop>)
    ensures Grouped(codec, calendar, entries) == Groups([], [], []) ==> entries == []
  {
    if entries != [] {
      NothingToGroup(codec, calendar, entries[..|entries| - 1]);
    }
  }

  lemma {:induction false} AllReferenced(files: seq<Managed>, ids: set<string>)
    requires forall i :: 0 <= i < |files| ==> files[i].publicId !in ids
    ensures Remaining(files, ids) == files
  {
    if files != [] {
      AllReferenced(files[..|files| - 1], ids);
    }
  }

  lemma {:induction false} NothingWithout(rows: Rows, o: Object)
    ensures Without(rows, o, {}) == rows
  {
    if rows != [] {
      NothingWithout(rows[..|rows| - 1], o);
    }
  }

  lemma InlineEntry(codec: Codec, calendar: int, entries: seq<Prop>)
    requires entries != []
    ensures var k := |entries| - 1;
            Grouped(codec, calendar, entries).inlines == [] <==>
              Grouped(codec, calendar, entries[..k]).inlines == [] && InlineOf(codec, entries[k]) == None
  {
  }

  lemma {:induction false} NoInlines(codec: Codec, calendar: int, entries: seq<Prop>)
    requires forall i :: 0 <= i < |entries| ==> InlineOf(codec, entries[i]) == None
    ensures Grouped(codec, calendar, entries).inlines == []
  {
    if entries != [] {
      hide InlineOf, Grouped;
      NoInlines(codec, calendar, entries[..|entries| - 1]);
      InlineEntry(codec, calendar, entries);
    }
  }

  /** What is written has no inline files and refers to every stored file. */
  lemma WrittenRefers(codec: Codec, calendar: int, entries: seq<Prop>, files: seq<Managed>, publicUrl: string)
    requires AreManaged(files) && HasScheme(publicUrl)
    ensures var external := Grouped(codec, calendar, entries).external;
            var g := Grouped(codec, calendar, external + WrittenAll(publicUrl, files));
            g.inlines == [] && forall i :: 0 <= i < |files| ==> files[i].publicId in g.ids
  {
    hide InlineOf, ManagedId, Grouped, HasScheme, Written, Refers;
    var external := Grouped(codec, calendar, entries).external;
    var all := external + WrittenAll(publicUrl, files);
    ExternalIsNotInline(codec, calendar, entries);
    forall i | 0 <= i < |all| ensures InlineOf(codec, all[i]) == None {
      if i >= |external| {
        WrittenIsManaged(codec, publicUrl, files[i - |external|], calendar);
      }
    }
    NoInlines(codec, calendar, all);
    GroupedIds(codec, calendar, all);
    forall i | 0 <= i < |files| ensures files[i].publicId in Grouped(codec, calendar, all).ids {
      WrittenIsManaged(codec, publicUrl, files[i], calendar);
      IsReference(codec, calendar, all, |external| + i, files[i].publicId);
    }
  }

  lemma IsReference(codec: Codec, calendar: int, entries: seq<Prop>, i: nat, id: string)
    requires i < |entries| && Reference(codec, calendar, entries[i]) == id
    ensures Refers(codec, calendar, entries, id)
  {
  }

  /** A PUT of an object without inline files that refers to all stored files leaves the files alone. */
  lemma NothingApplied(env: Env, rows: Rows, o: Object, g: Groups)
    requires Inv(rows) && g.inlines == []
    requires forall i :: 0 <= i < |FilesOf(rows, o)| ==> FilesOf(rows, o)[i].publicId in g.ids
    ensures Applied(env, rows, o, g) == Ok(rows)
  {
    var files := FilesOf(rows, o);
    forall id ensures id !in Unreferenced(files, g.ids) {
      if id in Ids(files) {
        var i :| 0 <= i < |Ids(files)| && Ids(files)[i] == id;
        assert id == files[i].publicId;
      }
    }
    assert Unreferenced(files, g.ids) == {};
    NothingWithout(rows, o);
  }

  /** The split of written entries: nothing inline, no file to drop, and the same external entries if ids occurred once. */
  lemma WrittenIsSplit(env: Env, rows: Rows, o: Object, put: seq<Prop>, publicUrl: string)
    requires Inv(rows) && HasScheme(publicUrl)
    ensures var external := Grouped(env.codec, o.calendar, put).external;
            var g := Grouped(env.codec, o.calendar, external + WrittenAll(publicUrl, FilesOf(rows, o)));
            && Applied(env, rows, o, g) == Ok(rows)
            && (IdsOccurOnce(env.codec, o.calendar, put) ==> g.external == external)
  {
    var files := FilesOf(rows, o);
    FilesAreManaged(rows, o);
    hide Inv, Applied, IdsOccurOnce, Grouped, ManagedId, InlineOf, HasScheme, FilesOf;
    WrittenRefers(env.codec, o.calendar, put, files, publicUrl);
    NothingApplied(env, rows, o, Grouped(env.codec, o.calendar, Grouped(env.codec, o.calendar, put).external + WrittenAll(publicUrl, files)));
    if IdsOccurOnce(env.codec, o.calendar, put) {
      GroupedIds(env.codec, o.calendar, put);
      ExternalIsNotInline(env.codec, o.calendar, put);
      ReadBack(env.codec, o.calendar, Grouped(env.codec, o.calendar, put).external, files, publicUrl);
    }
  }

  /**
    Putting the stored object again never changes the files, and does not change the object either if
    no two entries of the one put first had one id.
   */
  lemma PutAgain(env: Env, rows: Rows, o: Object, ics: Ics, publicUrl: string)
    requires Inv(rows) && HostIsAlone(ics) && Host(ics).Some? && HasScheme(publicUrl)
    requires Put(env, rows, o, ics, publicUrl).Ok?
    ensures var (after, stored) := Put(env, rows, o, ics, publicUrl).value;
            var again := Put(env, after, o, stored, publicUrl);
            && again.Ok? && again.value.0 == after
            && (IdsOccurOnce(env.codec, o.calendar, Entries(ics)) ==> again.value.1 == stored)
  {
    var (after, stored) := Put(env, rows, o, ics, publicUrl).value;
    var g := Grouped(env.codec, o.calendar, Entries(ics));
    if !(g == Groups([], [], []) && FilesOf(rows, o) == []) {
      AppliedKeepsInv(env, rows, o, g);
      var entries := g.external + WrittenAll(publicUrl, FilesOf(after, o));
      HostKeepsEntries(ics, entries);
      WrittenIsSplit(env, after, o, Entries(ics), publicUrl);
      hide Applied, Inv, FilesOf, Grouped, IdsOccurOnce, Host, HostIsAlone, WithEntries, Entries, HasScheme;
      StoredAgain(env, after, o, stored, g.external, publicUrl);
    }
  }

  /** A PUT of an object that is stored with these external entries and these files. */
  lemma StoredAgain(env: Env, rows: Rows, o: Object, stored: Ics, external: seq<Prop>, publicUrl: string)
    requires HostIsAlone(stored) && Host(stored).Some?
    requires Entries(stored) == external + WrittenAll(publicUrl, FilesOf(rows, o))
    requires Applied(env, rows, o, Grouped(env.codec, o.calendar, Entries(stored))) == Ok(rows)
    ensures var again := Put(env, rows, o, stored, publicUrl);
            && again.Ok? && again.value.0 == rows
            && (Grouped(env.codec, o.calendar, Entries(stored)).external == external ==> again.value.1 == stored)
  {
    hide Applied, FilesOf, Grouped, WrittenAll;
    var entries := Entries(stored);
    HostKeepsEntries(stored, entries);
    SameEntries(stored);
  }

  lemma SameEntries(ics: Ics)
    requires Host(ics).Some?
    ensures WithEntries(ics, Entries(ics)) == ics
  {
  }
}
