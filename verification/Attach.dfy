/**
  ATTACH entries of calendar objects: split into inline files, references to stored files and
  external entries; and written back from the stored files.
 */
module Attach {
  import opened Strings
  import opened Wrappers

  type Bytes = seq<bv8>

  /** An ATTACH property with the parameters that are read; `rest` stands for the others. */
  datatype Prop = Prop(value: string, valueType: string, encoding: string, managedId: string, filename: string,
                       name: string, fmttype: string, fmtype: string, size: string, rest: int)

  datatype Inline = Inline(filename: string, contentType: string, data: Bytes)

  datatype Managed = Managed(publicId: string, filename: string, contentType: string, size: nat)

  /** Decoding and URI parsing, which libraries do. */
  datatype Codec = Codec(decode: Prop -> Option<Bytes>, idFromUri: (string, int) -> string)

  // ----- one entry -----

  predicate IsBinary(p: Prop) {
    ToUpper(p.valueType) == "BINARY" || ToUpper(p.encoding) == "BASE64"
  }

  predicate IsLink(v: string) {
    Contains(v, "://") || "/" <= v || "cid:" <= ToLower(v) || v == ""
  }

  function InlineOf(codec: Codec, p: Prop): Option<Inline> {
    if !IsBinary(p) && IsLink(Trim(p.value)) then None
    else
      match codec.decode(p)
      case None => None
      case Some(data) =>
        var name := if p.filename != "" then p.filename else if p.name != "" then p.name else "attachment";
        Some(Inline(name, if p.fmttype != "" then p.fmttype else p.fmtype, data))
  }

  predicate IsIdChar(c: char) {
    'a' <= c <= 'z' || 'A' <= c <= 'Z' || '0' <= c <= '9' || c == '-'
  }

  predicate LooksLikeId(s: string) {
    8 <= |s| <= 64 && forall i :: 0 <= i < |s| ==> IsIdChar(s[i])
  }

  function ManagedId(codec: Codec, p: Prop, calendar: int): string {
    if LooksLikeId(Trim(p.managedId)) then Trim(p.managedId) else codec.idFromUri(p.value, calendar)
  }

  function TrimSlashes(url: string): string {
    if url != "" && url[|url| - 1] == '/' then TrimSlashes(url[..|url| - 1]) else url
  }

  function Uri(base: string, publicId: string): string {
    if base == "" then "/dav/attachments/" + publicId else TrimSlashes(base) + "/dav/attachments/" + publicId
  }

  /** The entry for a stored file. */
  function Written(publicUrl: string, a: Managed): Prop {
    Prop(Uri(TrimSlashes(publicUrl), a.publicId), "", "", a.publicId, a.filename, "", a.contentType, "", Decimal(a.size), 0)
  }

  // ----- the component that has the files -----

  datatype Component = Component(name: string, attach: seq<Prop>, rest: int)

  type Ics = seq<Component>

  predicate IsZone(c: Component) { c.name == "VTIMEZONE" }

  function FirstWith(ics: Ics, from: nat): Option<nat>
    requires from <= |ics|
    decreases |ics| - from
  {
    if from == |ics| then None
    else if !IsZone(ics[from]) && ics[from].attach != [] then Some(from)
    else FirstWith(ics, from + 1)
  }

  function FirstEvent(ics: Ics, from: nat): Option<nat>
    requires from <= |ics|
    decreases |ics| - from
  {
    if from == |ics| then None else if !IsZone(ics[from]) then Some(from) else FirstEvent(ics, from + 1)
  }

  /** attachHost: the first component with ATTACH, or else the first that is no time zone. */
  function Host(ics: Ics): (h: Option<nat>)
    ensures h.Some? ==> h.value < |ics|
  {
    FirstWithIs(ics, 0);
    FirstEventIs(ics, 0);
    if FirstWith(ics, 0).Some? then FirstWith(ics, 0) else FirstEvent(ics, 0)
  }

  lemma {:induction false} FirstWithIs(ics: Ics, from: nat)
    requires from <= |ics|
    ensures match FirstWith(ics, from)
            case Some(i) => from <= i < |ics| && !IsZone(ics[i]) && ics[i].attach != [] &&
                            forall k :: from <= k < i ==> IsZone(ics[k]) || ics[k].attach == []
            case None => forall k :: from <= k < |ics| ==> IsZone(ics[k]) || ics[k].attach == []
    decreases |ics| - from
  {
    if from < |ics| {
      FirstWithIs(ics, from + 1);
    }
  }

  lemma {:induction false} FirstEventIs(ics: Ics, from: nat)
    requires from <= |ics|
    ensures match FirstEvent(ics, from)
            case Some(i) => from <= i < |ics| && !IsZone(ics[i]) && forall k :: from <= k < i ==> IsZone(ics[k])
            case None => forall k :: from <= k < |ics| ==> IsZone(ics[k])
    decreases |ics| - from
  {
    if from < |ics| {
      FirstEventIs(ics, from + 1);
    }
  }

  function Entries(ics: Ics): seq<Prop> {
    if Host(ics).Some? then ics[Host(ics).value].attach else []
  }

  function WithEntries(ics: Ics, entries: seq<Prop>): Ics {
    if Host(ics).Some? then ics[Host(ics).value := ics[Host(ics).value].(attach := entries)] else ics
  }

  /** Without the entries. */
  function Bare(ics: Ics): Ics {
    WithEntries(ics, [])
  }

  // ----- splitting -----

  /** The entries in three groups, each in order; an id that occurs again makes an external entry. */
  datatype Groups = Groups(inlines: seq<Inline>, external: seq<Prop>, ids: seq<string>)

  function Sorted(codec: Codec, calendar: int, g: Groups, p: Prop): Groups {
    match InlineOf(codec, p)
    case Some(inl) => g.(inlines := g.inlines + [inl])
    case None =>
      var id := ManagedId(codec, p, calendar);
      if id != "" && id !in g.ids then g.(ids := g.ids + [id]) else g.(external := g.external + [p])
  }

  function Grouped(codec: Codec, calendar: int, entries: seq<Prop>): Groups {
    if entries == [] then Groups([], [], [])
    else Sorted(codec, calendar, Grouped(codec, calendar, entries[..|entries| - 1]), entries[|entries| - 1])
  }

  datatype Split = Split(ics: Ics, groups: Groups)

  function SplitOf(codec: Codec, ics: Ics, calendar: int): Split {
    Split(Bare(ics), Grouped(codec, calendar, Entries(ics)))
  }

  method SplitAttachments(codec: Codec, raw: Ics, calendar: int) returns (out: Split)
    ensures out == SplitOf(codec, raw, calendar)
  {
    var host := Host(raw);
    if host.None? {
      return Split(raw, Groups([], [], []));
    }
    var props := raw[host.value].attach;
    var inlines: seq<Inline>, external: seq<Prop>, ids: seq<string> := [], [], [];
    var seen: set<string> := {};
    assert props[..0] == [];
    for i := 0 to |props|
      invariant Groups(inlines, external, ids) == Grouped(codec, calendar, props[..i])
      invariant forall id :: id in seen <==> id in ids
    {
      assert props[..i + 1][..i] == props[..i];
      var p := props[i];
      var inl := InlineOf(codec, p);
      if inl.Some? {
        inlines := inlines + [inl.value];
        continue;
      }
      var id := ManagedId(codec, p, calendar);
      if id != "" && id !in seen {
        seen := seen + {id};
        ids := ids + [id];
        continue;
      }
      external := external + [p];
    }
    assert props[..|props|] == props;
    out := Split(Bare(raw), Groups(inlines, external, ids));
  }

  // ----- writing -----

  function WrittenAll(publicUrl: string, managed: seq<Managed>): (entries: seq<Prop>)
    ensures |entries| == |managed|
  {
    seq(|managed|, i requires 0 <= i < |managed| => Written(publicUrl, managed[i]))
  }

  function Write(s: Split, managed: seq<Managed>, publicUrl: string): Ics {
    WithEntries(s.ics, s.groups.external + WrittenAll(publicUrl, managed))
  }

  method WriteAttachments(s: Split, managed: seq<Managed>, publicUrl: string) returns (ics: Ics)
    ensures ics == Write(s, managed, publicUrl)
  {
    var host := Host(s.ics);
    if host.None? {
      return s.ics;
    }
    var entries := s.groups.external;
    for i := 0 to |managed|
      invariant entries == s.groups.external + WrittenAll(publicUrl, managed)[..i]
    {
      entries := entries + [Written(publicUrl, managed[i])];
    }
    assert WrittenAll(publicUrl, managed)[..|managed|] == WrittenAll(publicUrl, managed);
    ics := s.ics[host.value := s.ics[host.value].(attach := entries)];
  }

  // ----- the host is found again -----

  /** The files' component is the first one that is no time zone, and no other has ATTACH. */
  ghost predicate HostIsAlone(ics: Ics) {
    match Host(ics)
    case None => true
    case Some(h) =>
      && FirstEvent(ics, 0) == Some(h)
      && forall k :: 0 <= k < |ics| && k != h ==> IsZone(ics[k]) || ics[k].attach == []
  }

  /** After the entries are taken off, the same component is found again exactly when it is alone. */
  lemma HostIsFoundAgain(ics: Ics)
    ensures Host(Bare(ics)) == Host(ics) <==> HostIsAlone(ics)
  {
    if HostIsAlone(ics) {
      AloneIsFound(ics);
    }
    if Host(Bare(ics)) == Host(ics) {
      FoundIsAlone(ics);
    }
  }

  lemma BareComponents(ics: Ics)
    requires Host(ics).Some?
    ensures var bare := Bare(ics);
            && |bare| == |ics| && bare[Host(ics).value].attach == [] && FirstEvent(bare, 0) == FirstEvent(ics, 0)
            && (forall k :: 0 <= k < |ics| ==> IsZone(bare[k]) == IsZone(ics[k]))
            && (forall k :: 0 <= k < |ics| && k != Host(ics).value ==> bare[k] == ics[k])
  {
    SameZones(ics, Bare(ics), 0);
  }

  lemma AloneIsFound(ics: Ics)
    requires HostIsAlone(ics)
    ensures Host(Bare(ics)) == Host(ics)
  {
    if Host(ics).Some? {
      var bare := Bare(ics);
      BareComponents(ics);
      FirstWithIs(bare, 0);
      hide Bare;
      assert forall k :: 0 <= k < |bare| ==> IsZone(bare[k]) || bare[k].attach == [];
    }
  }

  lemma FoundIsAlone(ics: Ics)
    requires Host(Bare(ics)) == Host(ics)
    ensures HostIsAlone(ics)
  {
    if Host(ics).Some? {
      var bare := Bare(ics);
      BareComponents(ics);
      FirstWithIs(bare, 0);
      hide Bare;
      assert FirstWith(bare, 0) != Host(ics);
      assert forall k :: 0 <= k < |bare| ==> IsZone(bare[k]) || bare[k].attach == [];
    }
  }

  lemma {:induction false} SameZones(a: Ics, b: Ics, from: nat)
    requires |a| == |b| && from <= |a| && forall k :: 0 <= k < |a| ==> a[k].name == b[k].name
    ensures FirstEvent(a, from) == FirstEvent(b, from)
    decreases |a| - from
  {
    if from < |a| {
      SameZones(a, b, from + 1);
    }
  }

  /** Written entries are read from where they were written. */
  lemma HostKeepsEntries(ics: Ics, entries: seq<Prop>)
    requires HostIsAlone(ics) && Host(ics).Some?
    ensures var after := WithEntries(Bare(ics), entries);
            && after == WithEntries(ics, entries) && Host(after) == Host(ics) && Entries(after) == entries && HostIsAlone(after)
  {
    HostIsFoundAgain(ics);
    var h := Host(ics).value;
    var after := ics[h := ics[h].(attach := entries)];
    assert WithEntries(Bare(ics), entries) == after;
    FirstWithIs(ics, 0);
    FirstEventIs(ics, 0);
    FirstWithIs(after, 0);
    FirstEventIs(after, 0);
    assert forall k :: 0 <= k < |ics| ==> after[k].name == ics[k].name;
    assert forall k :: 0 <= k < |ics| && k != h ==> after[k] == ics[k];
  }

  // ----- what is read back -----

  /** An id such as the server makes: a UUID in its usual form. */
  predicate IsPublicId(s: string) {
    |s| == 36 && forall i :: 0 <= i < 36 ==>
      if i in {8, 13, 18, 23} then s[i] == '-'
      else '0' <= s[i] <= '9' || 'a' <= s[i] <= 'f' || 'A' <= s[i] <= 'F'
  }

  type PublicId = s: string | IsPublicId(s) witness NilId()

  function NilId(): (s: string)
    ensures IsPublicId(s)
  {
    seq(36, i => if i == 8 || i == 13 || i == 18 || i == 23 then '-' else '0')
  }

  /** The public URL is empty or has a scheme. */
  predicate HasScheme(publicUrl: string) {
    TrimSlashes(publicUrl) == "" || Contains(TrimSlashes(publicUrl), "://")
  }

  lemma {:induction false} TrimSlashesTwice(url: string)
    ensures TrimSlashes(TrimSlashes(url)) == TrimSlashes(url)
  {
    if url != "" && url[|url| - 1] == '/' {
      TrimSlashesTwice(url[..|url| - 1]);
    }
  }

  lemma PublicIdIsAnId(id: string)
    requires IsPublicId(id)
    ensures LooksLikeId(id) && Trim(id) == id && !IsSpace(id[35])
  {
    forall i | 0 <= i < 36 ensures IsIdChar(id[i]) && !IsSpace(id[i]) {
    }
    TrimOfTrimmed(id);
  }

  lemma ContainsInFront(a: string, b: string, pattern: string)
    requires Contains(a, pattern)
    ensures Contains(a + b, pattern)
  {
    var i :| 0 <= i <= |a| && IsAt(a, pattern, i);
    assert (a + b)[i..i + |pattern|] == a[i..i + |pattern|];
    assert IsAt(a + b, pattern, i);
  }

  /** Removing white space around a text that ends in none only takes from its front, up to the first other character. */
  lemma TrimKeepsScheme(v: string)
    requires v != "" && !IsSpace(v[|v| - 1])
    requires Contains(v, "://") || v[0] == '/'
    ensures Contains(Trim(v), "://") || "/" <= Trim(v)
  {
    TrimLeftOnly(v);
    if Contains(v, "://") {
      SchemeStays(v);
    }
  }

  lemma {:induction false} TrimLeftOnly(v: string)
    requires v != "" && !IsSpace(v[|v| - 1])
    ensures Trim(v) == TrimLeft(v) && TrimLeft(v) != ""
    ensures !IsSpace(v[0]) ==> TrimLeft(v) == v
    decreases |v|
  {
    if IsSpace(v[0]) {
      TrimLeftOnly(v[1..]);
    }
  }

  lemma {:induction false} SchemeStays(v: string)
    requires Contains(v, "://")
    ensures Contains(TrimLeft(v), "://")
    decreases |v|
  {
    if v != "" && IsSpace(v[0]) {
      var i :| 0 <= i <= |v| && IsAt(v, "://", i);
      assert v[i] == v[i..i + 3][0] == ':';
      assert v[1..][i - 1..i + 2] == v[i..i + 3];
      assert IsAt(v[1..], "://", i - 1);
      SchemeStays(v[1..]);
    }
  }

  /** What the server writes is neither taken for an inline file nor loses its id. */
  lemma WrittenIsManaged(codec: Codec, publicUrl: string, a: Managed, calendar: int)
    requires IsPublicId(a.publicId) && HasScheme(publicUrl)
    ensures InlineOf(codec, Written(publicUrl, a)) == None
    ensures ManagedId(codec, Written(publicUrl, a), calendar) == a.publicId
  {
    PublicIdIsAnId(a.publicId);
    WrittenIsLink(publicUrl, a.publicId);
    assert ToUpper("") == "";
    hide IsPublicId, HasScheme, LooksLikeId, Trim, Uri, TrimSlashes, ToUpper;
  }

  lemma WrittenIsLink(publicUrl: string, id: string)
    requires HasScheme(publicUrl) && |id| == 36 && !IsSpace(id[35])
    ensures IsLink(Trim(Uri(TrimSlashes(publicUrl), id)))
  {
    var base := TrimSlashes(publicUrl);
    var v := Uri(base, id);
    TrimSlashesTwice(publicUrl);
    assert v[|v| - 1] == id[35];
    if base != "" {
      ContainsInFront(base, "/dav/attachments/" + id, "://");
      assert v == base + ("/dav/attachments/" + id);
    } else {
      assert v[0] == '/';
    }
    TrimKeepsScheme(v);
  }

  /** The entries that carry an id. */
  function WithId(codec: Codec, calendar: int, entries: seq<Prop>): seq<Prop> {
    if entries == [] then []
    else
      WithId(codec, calendar, entries[..|entries| - 1]) +
      if ManagedId(codec, entries[|entries| - 1], calendar) != "" then [entries[|entries| - 1]] else []
  }

  lemma {:induction false} WithIdConcat(codec: Codec, calendar: int, a: seq<Prop>, b: seq<Prop>)
    ensures WithId(codec, calendar, a + b) == WithId(codec, calendar, a) + WithId(codec, calendar, b)
    decreases |b|
  {
    hide ManagedId;
    if b == [] {
      assert a + b == a;
    } else {
      WithIdConcat(codec, calendar, a, b[..|b| - 1]);
      assert (a + b)[..|a + b| - 1] == a + b[..|b| - 1];
    }
  }

  lemma {:induction false} AllWithId(codec: Codec, calendar: int, entries: seq<Prop>)
    requires forall i :: 0 <= i < |entries| ==> ManagedId(codec, entries[i], calendar) != ""
    ensures WithId(codec, calendar, entries) == entries
  {
    if entries != [] {
      hide ManagedId, WithId;
      var k := |entries| - 1;
      AllWithId(codec, calendar, entries[..k]);
      WithIdSnoc(codec, calendar, entries);
    }
  }

  lemma WithIdSnoc(codec: Codec, calendar: int, entries: seq<Prop>)
    requires entries != [] && ManagedId(codec, entries[|entries| - 1], calendar) != ""
    requires WithId(codec, calendar, entries[..|entries| - 1]) == entries[..|entries| - 1]
    ensures WithId(codec, calendar, entries) == entries
  {
    hide ManagedId;
    FrontAndLast(entries);
  }

  lemma FrontAndLast<T>(s: seq<T>)
    requires s != []
    ensures s[..|s| - 1] + [s[|s| - 1]] == s
  {
  }

  ghost predicate NoIds(codec: Codec, calendar: int, entries: seq<Prop>) {
    forall i :: 0 <= i < |entries| ==> ManagedId(codec, entries[i], calendar) == ""
  }

  lemma NoIdsSnoc(codec: Codec, calendar: int, entries: seq<Prop>)
    requires entries != []
    ensures var k := |entries| - 1;
            NoIds(codec, calendar, entries) <==>
              NoIds(codec, calendar, entries[..k]) && ManagedId(codec, entries[k], calendar) == ""
  {
    hide ManagedId;
    var k := |entries| - 1;
    assert forall i :: 0 <= i < k ==> entries[..k][i] == entries[i];
  }

  lemma {:induction false} NoneWithId(codec: Codec, calendar: int, entries: seq<Prop>)
    ensures WithId(codec, calendar, entries) == [] <==> NoIds(codec, calendar, entries)
  {
    if entries != [] {
      hide ManagedId, NoIds;
      NoneWithId(codec, calendar, entries[..|entries| - 1]);
      NoIdsSnoc(codec, calendar, entries);
    }
  }

  /** The id under which an entry refers to a stored file, if it does. */
  function Reference(codec: Codec, calendar: int, p: Prop): string {
    if InlineOf(codec, p).Some? then "" else ManagedId(codec, p, calendar)
  }

  /** No two entries refer to one stored file. */
  ghost predicate IdsOccurOnce(codec: Codec, calendar: int, entries: seq<Prop>) {
    forall i, j :: 0 <= i < j < |entries| && Reference(codec, calendar, entries[i]) != "" ==>
      Reference(codec, calendar, entries[i]) != Reference(codec, calendar, entries[j])
  }

  ghost predicate Refers(codec: Codec, calendar: int, entries: seq<Prop>, id: string) {
    exists i :: 0 <= i < |entries| && Reference(codec, calendar, entries[i]) == id
  }

  lemma RefersSnoc(codec: Codec, calendar: int, entries: seq<Prop>, id: string)
    requires entries != []
    ensures var k := |entries| - 1;
            Refers(codec, calendar, entries, id) <==>
              Refers(codec, calendar, entries[..k], id) || Reference(codec, calendar, entries[k]) == id
  {
    hide Reference;
    var k := |entries| - 1;
    if Refers(codec, calendar, entries[..k], id) {
      var i :| 0 <= i < k && Reference(codec, calendar, entries[..k][i]) == id;
      assert entries[i] == entries[..k][i];
    }
    if Refers(codec, calendar, entries, id) {
      var i :| 0 <= i < |entries| && Reference(codec, calendar, entries[i]) == id;
      assert i < k ==> entries[..k][i] == entries[i];
    }
  }

  lemma IdsOccurOnceSnoc(codec: Codec, calendar: int, entries: seq<Prop>)
    requires entries != []
    ensures var k := |entries| - 1;
            var id := Reference(codec, calendar, entries[k]);
            IdsOccurOnce(codec, calendar, entries) <==>
              IdsOccurOnce(codec, calendar, entries[..k]) && (id == "" || !Refers(codec, calendar, entries[..k], id))
  {
    hide Reference;
    var k := |entries| - 1;
    assert forall i :: 0 <= i < k ==> entries[..k][i] == entries[i];
    if IdsOccurOnce(codec, calendar, entries) && Refers(codec, calendar, entries[..k], Reference(codec, calendar, entries[k])) {
      var i :| 0 <= i < k && Reference(codec, calendar, entries[..k][i]) == Reference(codec, calendar, entries[k]);
      assert Reference(codec, calendar, entries[i]) == "";
    }
  }

  /** The ids of a split are the references; an entry with an id is external exactly when some id occurs twice. */
  lemma {:induction false} GroupedIds(codec: Codec, calendar: int, entries: seq<Prop>)
    ensures var g := Grouped(codec, calendar, entries);
            && (forall id :: id in g.ids <==> id != "" && Refers(codec, calendar, entries, id))
            && (NoIds(codec, calendar, g.external) <==> IdsOccurOnce(codec, calendar, entries))
  {
    if entries != [] {
      hide ManagedId, InlineOf, NoIds, IdsOccurOnce, Refers;
      var k := |entries| - 1;
      var before, p := Grouped(codec, calendar, entries[..k]), entries[k];
      GroupedIds(codec, calendar, entries[..k]);
      IdsOccurOnceSnoc(codec, calendar, entries);
      forall id ensures id in Grouped(codec, calendar, entries).ids <==> id != "" && Refers(codec, calendar, entries, id) {
        RefersSnoc(codec, calendar, entries, id);
      }
      NoIdsSnoc(codec, calendar, before.external + [p]);
      assert (before.external + [p])[..|before.external|] == before.external;
    } else {
      NothingGrouped(codec, calendar);
    }
  }

  lemma NothingGrouped(codec: Codec, calendar: int)
    ensures Grouped(codec, calendar, []) == Groups([], [], [])
    ensures NoIds(codec, calendar, []) && IdsOccurOnce(codec, calendar, [])
    ensures forall id :: !Refers(codec, calendar, [], id)
  {
  }

  ghost predicate AreManaged(managed: seq<Managed>) {
    && (forall i :: 0 <= i < |managed| ==> IsPublicId(managed[i].publicId))
    && (forall i, j :: 0 <= i < j < |managed| ==> managed[i].publicId != managed[j].publicId)
  }

  /** Of external entries and stored files, those with an id are exactly the files, just when no two entries had one id. */
  lemma ManagedAreTheStored(codec: Codec, calendar: int, entries: seq<Prop>, managed: seq<Managed>, publicUrl: string)
    requires AreManaged(managed) && HasScheme(publicUrl)
    ensures var external := Grouped(codec, calendar, entries).external;
            WithId(codec, calendar, external + WrittenAll(publicUrl, managed)) == WrittenAll(publicUrl, managed)
            <==> IdsOccurOnce(codec, calendar, entries)
  {
    hide WithId, ManagedId, Grouped, HasScheme, Written, IdsOccurOnce, NoIds;
    var external := Grouped(codec, calendar, entries).external;
    GroupedIds(codec, calendar, entries);
    var stored := WrittenAll(publicUrl, managed);
    forall i | 0 <= i < |managed| ensures ManagedId(codec, stored[i], calendar) != "" {
      WrittenIsManaged(codec, publicUrl, managed[i], calendar);
    }
    AllWithId(codec, calendar, stored);
    WithIdConcat(codec, calendar, external, stored);
    NoneWithId(codec, calendar, external);
    var found := WithId(codec, calendar, external);
    assert found == [] ==> found + stored == stored;
    assert found != [] ==> |found + stored| > |stored|;
  }

  lemma {:induction false} ExternalIsNotInline(codec: Codec, calendar: int, entries: seq<Prop>)
    ensures forall i :: 0 <= i < |Grouped(codec, calendar, entries).external| ==>
              InlineOf(codec, Grouped(codec, calendar, entries).external[i]) == None
  {
    if entries != [] {
      ExternalIsNotInline(codec, calendar, entries[..|entries| - 1]);
    }
  }

  lemma {:induction false} ExternalStaysExternal(codec: Codec, calendar: int, external: seq<Prop>)
    requires forall i :: 0 <= i < |external| ==>
               InlineOf(codec, external[i]) == None && ManagedId(codec, external[i], calendar) == ""
    ensures Grouped(codec, calendar, external) == Groups([], external, [])
  {
    if external != [] {
      ExternalStaysExternal(codec, calendar, external[..|external| - 1]);
      assert external == external[..|external| - 1] + [external[|external| - 1]];
    }
  }

  function Ids(managed: seq<Managed>): (ids: seq<string>)
    ensures |ids| == |managed|
  {
    seq(|managed|, i requires 0 <= i < |managed| => managed[i].publicId)
  }

  /** What is written for external entries and stored files is read back as these entries and these ids. */
  lemma {:induction false} ReadBack(codec: Codec, calendar: int, external: seq<Prop>, managed: seq<Managed>, publicUrl: string)
    requires AreManaged(managed) && HasScheme(publicUrl)
    requires forall i :: 0 <= i < |external| ==>
               InlineOf(codec, external[i]) == None && ManagedId(codec, external[i], calendar) == ""
    ensures Grouped(codec, calendar, external + WrittenAll(publicUrl, managed)) == Groups([], external, Ids(managed))
    decreases |managed|
  {
    if managed == [] {
      ExternalStaysExternal(codec, calendar, external);
      assert external + WrittenAll(publicUrl, managed) == external;
      assert Ids(managed) == [];
    } else {
      hide ManagedId, InlineOf, Written, IsPublicId, HasScheme, Ids, Sorted;
      var k := |managed| - 1;
      ReadBack(codec, calendar, external, managed[..k], publicUrl);
      GroupOneMore(codec, calendar, external, managed, publicUrl);
    }
  }

  lemma GroupOneMore(codec: Codec, calendar: int, external: seq<Prop>, managed: seq<Managed>, publicUrl: string)
    requires AreManaged(managed) && HasScheme(publicUrl) && managed != []
    requires Grouped(codec, calendar, external + WrittenAll(publicUrl, managed[..|managed| - 1]))
               == Groups([], external, Ids(managed[..|managed| - 1]))
    ensures Grouped(codec, calendar, external + WrittenAll(publicUrl, managed)) == Groups([], external, Ids(managed))
  {
    hide ManagedId, InlineOf, Written, IsPublicId, HasScheme, Ids;
    var k := |managed| - 1;
    var all := external + WrittenAll(publicUrl, managed);
    assert all[..|all| - 1] == external + WrittenAll(publicUrl, managed[..k]);
    assert all[|all| - 1] == Written(publicUrl, managed[k]);
    WrittenIsManaged(codec, publicUrl, managed[k], calendar);
    OneMoreId(managed);
  }

  lemma OneMoreId(managed: seq<Managed>)
    requires managed != [] && AreManaged(managed)
    ensures var k := |managed| - 1;
            && Ids(managed) == Ids(managed[..k]) + [managed[k].publicId]
            && managed[k].publicId !in Ids(managed[..k]) && managed[k].publicId != ""
  {
  }
}
