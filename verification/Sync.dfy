/**
  The sync-collection report (RFC 6578, sections 3.4 and 3.5) over the store: tokens, the compacted
  change list, the response, and what a client that follows it ends up with.
 */
module Sync {
  import opened Store
  import opened Strings
  import opened Wrappers

  // ----- tokens -----

  const TOKEN_PREFIX: string := "http://dcalcon/ns/sync/"
  const MAX_INT64: nat := 0x7fff_ffff_ffff_ffff

  function SyncToken(id: nat): string {
    TOKEN_PREFIX + Decimal(id)
  }

  predicate AllDigits(s: string) {
    s != "" && forall i | 0 <= i < |s| :: IsDigit(s[i])
  }

  /** strconv.ParseInt in base 10 and 64 bits; None for its errors. */
  function ParseInt64(s: string): Option<int> {
    var negative := s != "" && s[0] == '-';
    var digits := if s != "" && (s[0] == '-' || s[0] == '+') then s[1..] else s;
    if !AllDigits(digits) then None
    else
      var n: int := NumberOf(digits);
      if negative then (if n <= MAX_INT64 + 1 then Some(-n) else None)
      else (if n <= MAX_INT64 then Some(n) else None)
  }

  function ParseSyncToken(token: string): Option<nat> {
    var t := Trim(token);
    if t == "" then Some(0)
    else if !(TOKEN_PREFIX <= t) then None
    else
      match ParseInt64(t[|TOKEN_PREFIX|..])
      case None => None
      case Some(n) => if n < 0 then None else Some(n)
  }

  /** A token the server writes is a token it reads. */
  lemma TokenRoundTrip(id: nat)
    requires id <= MAX_INT64
    ensures ParseSyncToken(SyncToken(id)) == Some(id)
  {
    var t, d := SyncToken(id), Decimal(id);
    assert t[0] == 'h' && t[|t| - 1] == d[|d| - 1];
    assert !IsSpace('h') && !IsSpace(d[|d| - 1]);
    TrimOfTrimmed(t);
    assert t[|TOKEN_PREFIX|..] == d;
    assert IsDigit(d[0]);
    NumberOfDecimal(id);
  }

  // ----- reading the log -----

  /** MAX(id) over the collection's entries, 0 if it has none. */
  function Latest(log: seq<Change>, col: Col): nat {
    if log == [] then 0
    else
      var c := log[|log| - 1];
      var before := Latest(log[..|log| - 1], col);
      if c.col == col && c.id > before then c.id else before
  }

  /** The collection's entries with an id above `since`, in the order of their ids. */
  function Since(log: seq<Change>, col: Col, since: nat): seq<Change> {
    if log == [] then []
    else
      var c := log[|log| - 1];
      Since(log[..|log| - 1], col, since) + (if c.col == col && c.id > since then [c] else [])
  }

  /** The hrefs in the order in which they first occur. */
  function Hrefs(changes: seq<Change>): seq<string> {
    if changes == [] then []
    else
      var order, h := Hrefs(changes[..|changes| - 1]), changes[|changes| - 1].href;
      if h in order then order else order + [h]
  }

  function LastOf(changes: seq<Change>, href: string): (c: Change)
    requires href in Hrefs(changes)
    ensures c in changes && c.href == href
  {
    var c := changes[|changes| - 1];
    if c.href == href then c else LastOf(changes[..|changes| - 1], href)
  }

  /** Each href once, with its last change. */
  function Compact(changes: seq<Change>): (out: seq<Change>)
    ensures |out| == |Hrefs(changes)|
  {
    seq(|Hrefs(changes)|, i requires 0 <= i < |Hrefs(changes)| => LastOf(changes, Hrefs(changes)[i]))
  }

  lemma {:induction false} HrefsAreDistinct(changes: seq<Change>)
    ensures forall i, j :: 0 <= i < j < |Hrefs(changes)| ==> Hrefs(changes)[i] != Hrefs(changes)[j]
    ensures forall h :: h in Hrefs(changes) <==> exists i :: 0 <= i < |changes| && changes[i].href == h
  {
    if changes != [] {
      HrefsAreDistinct(changes[..|changes| - 1]);
    }
  }

  /** The loop of ChangesSince. */
  method CompactChanges(rows: seq<Change>) returns (out: seq<Change>)
    ensures out == Compact(rows)
  {
    var last: map<string, Change> := map[];
    var order: seq<string> := [];
    for k := 0 to |rows|
      invariant order == Hrefs(rows[..k])
      invariant forall h :: h in last <==> h in order
      invariant forall h :: h in order ==> last[h] == LastOf(rows[..k], h)
    {
      var c := rows[k];
      assert rows[..k + 1][..k] == rows[..k];
      if c.href !in last {
        order := order + [c.href];
      }
      last := last[c.href := c];
    }
    assert rows[..|rows|] == rows;
    out := [];
    for i := 0 to |order|
      invariant |out| == i && forall j :: 0 <= j < i ==> out[j] == LastOf(rows, order[j])
    {
      out := out + [last[order[i]]];
    }
  }

  // ----- compaction means the same as the raw log -----

  /** Which hrefs exist after replaying the entries on top of the given ones. */
  function Replay(present: set<string>, changes: seq<Change>): set<string> {
    if changes == [] then present
    else
      var c := changes[|changes| - 1];
      var before := Replay(present, changes[..|changes| - 1]);
      if c.deleted then before - {c.href} else before + {c.href}
  }

  lemma {:induction false} ReplayByLast(present: set<string>, changes: seq<Change>, h: string)
    ensures h in Replay(present, changes) <==>
              if h in Hrefs(changes) then !LastOf(changes, h).deleted else h in present
  {
    if changes != [] {
      ReplayByLast(present, changes[..|changes| - 1], h);
    }
  }

  lemma {:induction false} LastOfDistinct(changes: seq<Change>, i: nat)
    requires i < |changes|
    requires forall a, b :: 0 <= a < b < |changes| ==> changes[a].href != changes[b].href
    ensures changes[i].href in Hrefs(changes) && LastOf(changes, changes[i].href) == changes[i]
  {
    HrefsAreDistinct(changes);
    if i < |changes| - 1 {
      LastOfDistinct(changes[..|changes| - 1], i);
    }
  }

  /** Replaying the compacted list ends where replaying every entry would, with each href once. */
  lemma CompactReplaysTheSame(present: set<string>, changes: seq<Change>)
    ensures Replay(present, Compact(changes)) == Replay(present, changes)
    ensures forall i, j :: 0 <= i < j < |Compact(changes)| ==> Compact(changes)[i].href != Compact(changes)[j].href
  {
    var out := Compact(changes);
    HrefsAreDistinct(changes);
    HrefsAreDistinct(out);
    forall h ensures h in Replay(present, out) <==> h in Replay(present, changes) {
      ReplayByLast(present, changes, h);
      ReplayByLast(present, out, h);
      if h in Hrefs(changes) {
        var i :| 0 <= i < |out| && Hrefs(changes)[i] == h;
        LastOfDistinct(out, i);
      }
    }
  }

  // ----- the response -----

  datatype Member = Gone(href: string) | Live(href: string, etag: string)

  datatype Response = ValidSyncTokenError | Multistatus(members: seq<Member>, token: string)

  function Quote(etag: string): string {
    if etag != "" && !("\"" <= etag) then "\"" + etag + "\"" else etag
  }

  /** An etag is shown in quotes, once; different etags stay different. */
  lemma QuotedIs(a: string, b: string)
    requires a != "" && b != "" && !("\"" <= a) && !("\"" <= b)
    ensures "\"" <= Quote(a) && Quote(a)[|Quote(a)| - 1] == '"' && Quote(Quote(a)) == Quote(a)
    ensures Quote(a) == Quote(b) ==> a == b
  {
    assert Quote(a)[1..|Quote(a)| - 1] == a && Quote(b)[1..|Quote(b)| - 1] == b;
  }

  /** Every href of the collection with the etag the client is shown: what the client should hold. */
  function Listing<C>(s: State<C>, col: Col): (view: map<string, string>)
    ensures view.Keys == Objects(s, col).Keys
  {
    map h | h in Objects(s, col) :: Quote(Objects(s, col)[h].etag)
  }

  function MemberFor(listing: map<string, string>, c: Change): Member {
    if c.deleted then Gone(c.href)
    else Live(c.href, if c.href in listing then listing[c.href] else "")
  }

  /** The members of an incremental report: one per changed href, etags taken from the listing. */
  function Delta(listing: map<string, string>, changes: seq<Change>): (members: seq<Member>)
    ensures |members| == |changes|
  {
    seq(|changes|, i requires 0 <= i < |changes| => MemberFor(listing, changes[i]))
  }

  /** What a client holds after working through the members. */
  function Follow(view: map<string, string>, members: seq<Member>): map<string, string> {
    if members == [] then view
    else
      var m := members[|members| - 1];
      var before := Follow(view, members[..|members| - 1]);
      if m.Gone? then before - {m.href} else before[m.href := m.etag]
  }

  ghost predicate ListsAll(items: seq<Member>, listing: map<string, string>) {
    && (forall i :: 0 <= i < |items| ==>
          items[i].Live? && items[i].href in listing && items[i].etag == listing[items[i].href])
    && (forall h :: h in listing ==> exists i :: 0 <= i < |items| && items[i].href == h)
  }

  method EtagsOf(items: seq<Member>, ghost listing: map<string, string>) returns (etags: map<string, string>)
    requires ListsAll(items, listing)
    ensures etags == listing
  {
    etags := map[];
    for i := 0 to |items|
      invariant forall h :: h in etags <==> exists j :: 0 <= j < i && items[j].href == h
      invariant forall h :: h in etags ==> h in listing && etags[h] == listing[h]
    {
      etags := etags[items[i].href := items[i].etag];
    }
  }

  method WriteDelta(etags: map<string, string>, changes: seq<Change>) returns (members: seq<Member>)
    ensures members == Delta(etags, changes)
  {
    members := [];
    for i := 0 to |changes|
      invariant |members| == i && forall j :: 0 <= j < i ==> members[j] == MemberFor(etags, changes[j])
    {
      var ch := changes[i];
      if ch.deleted {
        members := members + [Gone(ch.href)];
      } else {
        members := members + [Live(ch.href, if ch.href in etags then etags[ch.href] else "")];
      }
    }
  }

  /** What the report says when the collection has these rows and this log. */
  function Report(listing: map<string, string>, items: seq<Member>, log: seq<Change>, col: Col, token: string): Response {
    var since := ParseSyncToken(token);
    var latest := Latest(log, col);
    if since.None? || (Trim(token) != "" && since.value > latest) then ValidSyncTokenError
    else Multistatus(if Trim(token) == "" then items
                     else Delta(listing, Compact(Since(log, col, since.value))),
                     SyncToken(latest))
  }

  /**
    handleSync after the collection is found.  The items are the rows of the listing in the order
    SQL gave them; an empty token asks for all of them, any other for the changes since.
   */
  method HandleSync(log: seq<Change>, col: Col, token: string, items: seq<Member>, ghost listing: map<string, string>)
    returns (r: Response)
    requires ListsAll(items, listing)
    ensures r == Report(listing, items, log, col, token)
  {
    var since := ParseSyncToken(token);
    if since.None? {
      return ValidSyncTokenError;
    }
    var latest := Latest(log, col);
    if Trim(token) != "" && since.value > latest {
      return ValidSyncTokenError;
    }
    var members := items;
    if Trim(token) != "" {
      var changes := CompactChanges(Since(log, col, since.value));
      var etags := EtagsOf(items, listing);
      members := WriteDelta(etags, changes);
    }
    r := Multistatus(members, SyncToken(latest));
  }

  // ----- an incremental sync is exact -----

  lemma {:induction false} FollowAt(view: map<string, string>, listing: map<string, string>,
                                    changes: seq<Change>, h: string)
    ensures var after := Follow(view, Delta(listing, changes));
            if h !in Hrefs(changes) then (h in after <==> h in view) && (h in view ==> after[h] == view[h])
            else if LastOf(changes, h).deleted then h !in after
            else h in after && after[h] == (if h in listing then listing[h] else "")
  {
    if changes != [] {
      var k := |changes| - 1;
      FollowAt(view, listing, changes[..k], h);
      assert Delta(listing, changes)[..k] == Delta(listing, changes[..k]);
    }
  }

  lemma OneMore(changes: seq<Change>, c: Change, h: string)
    ensures h in Hrefs(changes + [c]) <==> h in Hrefs(changes) || h == c.href
    ensures h == c.href ==> LastOf(changes + [c], h) == c
    ensures h != c.href && h in Hrefs(changes) ==> LastOf(changes + [c], h) == LastOf(changes, h)
  {
    assert (changes + [c])[..|changes|] == changes;
  }

  lemma OneMoreMention(log: seq<Change>, n: nat, col: Col, h: string)
    requires n < |log|
    ensures Mentions(log, n, col, h) <==>
              Mentions(log[..|log| - 1], n, col, h) || (log[|log| - 1].col == col && log[|log| - 1].href == h)
  {
    var k := |log| - 1;
    if Mentions(log[..k], n, col, h) {
      var i :| n <= i < k && log[..k][i].col == col && log[..k][i].href == h;
      assert log[i].col == col && log[i].href == h;
    }
    if Mentions(log, n, col, h) {
      var i :| n <= i < |log| && log[i].col == col && log[i].href == h;
      assert i < k ==> log[..k][i] == log[i];
    }
  }

  /** The entries since a bound below n tell, per href, exactly what happened after the first n. */
  lemma {:induction false} SinceTells(log: seq<Change>, n: nat, col: Col, since: nat, h: string)
    requires IdsCount(log) && n <= |log| && since <= n
    requires forall i :: 0 <= i < n && log[i].col == col ==> log[i].id <= since
    ensures var changes := Since(log, col, since);
            && (h in Hrefs(changes) <==> Mentions(log, n, col, h))
            && (h in Hrefs(changes) ==> Some(LastOf(changes, h).deleted) == LastEntry(log, col, h))
    decreases |log|
  {
    if n == |log| {
      NothingSince(log, col, since);
    } else {
      var k := |log| - 1;
      var c, before := log[k], Since(log[..k], col, since);
      SinceTells(log[..k], n, col, since, h);
      OneMoreMention(log, n, col, h);
      if c.col == col {
        assert Since(log, col, since) == before + [c];
        OneMore(before, c, h);
      } else {
        assert Since(log, col, since) == before + [] == before;
      }
    }
  }

  lemma {:induction false} LatestBounds(log: seq<Change>, col: Col)
    requires IdsCount(log)
    ensures Latest(log, col) <= |log|
    ensures forall i :: 0 <= i < |log| && log[i].col == col ==> log[i].id <= Latest(log, col)
  {
    if log != [] {
      LatestBounds(log[..|log| - 1], col);
    }
  }

  lemma {:induction false} NothingSince(log: seq<Change>, col: Col, since: nat)
    requires forall i :: 0 <= i < |log| && log[i].col == col ==> log[i].id <= since
    ensures Since(log, col, since) == []
  {
    if log != [] {
      NothingSince(log[..|log| - 1], col, since);
    }
  }

  lemma CompactChangesAt(raw: seq<Change>, h: string)
    ensures h in Hrefs(Compact(raw)) <==> h in Hrefs(raw)
    ensures h in Hrefs(raw) ==> LastOf(Compact(raw), h) == LastOf(raw, h)
  {
    var changes := Compact(raw);
    HrefsAreDistinct(raw);
    HrefsAreDistinct(changes);
    if h in Hrefs(raw) {
      var i :| 0 <= i < |changes| && Hrefs(raw)[i] == h;
      LastOfDistinct(changes, i);
    }
  }

  /** The members a report carries for the log entries after a bound. */
  function DeltaSince<C>(t: State<C>, col: Col, since: nat): seq<Member> {
    Delta(Listing(t, col), Compact(Since(t.log, col, since)))
  }

  lemma DeltaIsExactAt<C>(s: State<C>, t: State<C>, col: Col, h: string)
    requires Inv(t) && Extends(s, t)
    ensures var after := Follow(Listing(s, col), DeltaSince(t, col, Latest(s.log, col)));
            && (h in after <==> h in Listing(t, col))
            && (h in after ==> after[h] == Listing(t, col)[h])
  {
    var since := Latest(s.log, col);
    var raw := Since(t.log, col, since);
    assert t.log[..|s.log|] == s.log;
    LatestBounds(s.log, col);
    SinceTells(t.log, |s.log|, col, since, h);
    FollowAt(Listing(s, col), Listing(t, col), Compact(raw), h);
    CompactChangesAt(raw, h);
    if h !in Hrefs(raw) {
      assert SameAt(s, t, col, h);
    }
  }

  /** The client's map as of the token's state, brought up to date, is the current listing. */
  lemma DeltaIsExact<C>(s: State<C>, t: State<C>, col: Col)
    requires Inv(t) && Extends(s, t)
    ensures Follow(Listing(s, col), DeltaSince(t, col, Latest(s.log, col))) == Listing(t, col)
  {
    var after := Follow(Listing(s, col), DeltaSince(t, col, Latest(s.log, col)));
    forall h ensures h in after <==> h in Listing(t, col)
             ensures h in after ==> after[h] == Listing(t, col)[h]
    {
      DeltaIsExactAt(s, t, col, h);
    }
    assert after.Keys == Listing(t, col).Keys;
  }

  lemma {:induction false} FollowAll(view: map<string, string>, items: seq<Member>, listing: map<string, string>, h: string)
    requires forall i :: 0 <= i < |items| ==>
               items[i].Live? && items[i].href in listing && items[i].etag == listing[items[i].href]
    ensures var after := Follow(view, items);
            if exists i :: 0 <= i < |items| && items[i].href == h then h in after && after[h] == listing[h]
            else (h in after <==> h in view) && (h in view ==> after[h] == view[h])
  {
    if items != [] {
      FollowAll(view, items[..|items| - 1], listing, h);
      if exists i :: 0 <= i < |items| && items[i].href == h {
        var i :| 0 <= i < |items| && items[i].href == h;
        assert i < |items| - 1 ==> items[..|items| - 1][i].href == h;
      }
    }
  }

  /** A first sync gives the listing. */
  lemma FullReportIsExact(items: seq<Member>, listing: map<string, string>)
    requires ListsAll(items, listing)
    ensures Follow(map[], items) == listing
  {
    forall h ensures h in Follow(map[], items) <==> h in listing
             ensures h in listing ==> Follow(map[], items)[h] == listing[h]
    {
      FollowAll(map[], items, listing, h);
    }
    assert Follow(map[], items).Keys == listing.Keys;
  }

  // ----- the theorem, over every run -----

  /** What the client holds after a report it has worked through. */
  function After(view: map<string, string>, r: Response): map<string, string>
    requires r.Multistatus?
  {
    Follow(view, r.members)
  }

  /**
    At any state of any run the server issues a token with the listing; after any further run a
    client that shows the token gets a report, never a refusal, and ends with the current listing
    and a token for it.
   */
  lemma SyncIsExact<C>(s: State<C>, ops: seq<Op<C>>, col: Col, items: seq<Member>)
    requires Inv(s) && Latest(Run(s, ops).log, col) <= MAX_INT64
    requires ListsAll(items, Listing(Run(s, ops), col))
    ensures var t := Run(s, ops);
            var r := Report(Listing(t, col), items, t.log, col, SyncToken(Latest(s.log, col)));
            && r.Multistatus?
            && After(Listing(s, col), r) == Listing(t, col)
            && r.token == SyncToken(Latest(t.log, col))
  {
    var t := Run(s, ops);
    RunKeepsInv(s, ops);
    RunExtends(s, ops);
    LatestGrows(s.log, t.log, col);
    TokenRoundTrip(Latest(s.log, col));
    TokenIsNotBlank(Latest(s.log, col));
    DeltaIsExact(s, t, col);
  }

  lemma {:induction false} LatestGrows(a: seq<Change>, b: seq<Change>, col: Col)
    requires a <= b
    ensures Latest(a, col) <= Latest(b, col)
    decreases |b|
  {
    if |a| < |b| {
      LatestGrows(a, b[..|b| - 1], col);
    } else {
      assert a == b;
    }
  }

  lemma TokenIsNotBlank(id: nat)
    ensures Trim(SyncToken(id)) != ""
  {
    var t, d := SyncToken(id), Decimal(id);
    assert t[0] == 'h' && t[|t| - 1] == d[|d| - 1] && IsDigit(d[|d| - 1]);
    TrimOfTrimmed(t);
  }

  /** A blank token asks for everything: a client without anything gets the listing and a token for it. */
  lemma FirstSync<C>(t: State<C>, col: Col, items: seq<Member>, blank: string)
    requires ListsAll(items, Listing(t, col)) && Trim(blank) == ""
    ensures var r := Report(Listing(t, col), items, t.log, col, blank);
            && r.Multistatus?
            && After(map[], r) == Listing(t, col)
            && r.token == SyncToken(Latest(t.log, col))
  {
    FullReportIsExact(items, Listing(t, col));
  }

  /** What a client keeps between syncs. */
  datatype Client = Client(view: map<string, string>, token: string)

  const NEWCOMER := Client(map[], "")

  function Synced(client: Client, r: Response): Client {
    match r
    case Multistatus(members, token) => Client(Follow(client.view, members), token)
    case ValidSyncTokenError => client
  }

  /** What happens between two syncs, and how SQL orders the listing at the second. */
  datatype Stretch<C> = Stretch(ops: seq<Op<C>>, items: seq<Member>)

  ghost function StateAfter<C>(s: State<C>, life: seq<Stretch<C>>): State<C> {
    if life == [] then s else Run(StateAfter(s, life[..|life| - 1]), life[|life| - 1].ops)
  }

  /** A client that starts with nothing and syncs after each stretch, with the token it got last. */
  ghost function ClientAfter<C>(s: State<C>, life: seq<Stretch<C>>, col: Col): Client {
    if life == [] then NEWCOMER
    else
      var t := StateAfter(s, life);
      var before := ClientAfter(s, life[..|life| - 1], col);
      Synced(before, Report(Listing(t, col), life[|life| - 1].items, t.log, col, before.token))
  }

  ghost predicate ItemsAreListed<C>(s: State<C>, life: seq<Stretch<C>>, col: Col) {
    forall i | 0 <= i < |life| :: ListsAll(life[i].items, Listing(StateAfter(s, life[..i + 1]), col))
  }

  lemma {:induction false} LifeKeepsInv<C>(s: State<C>, life: seq<Stretch<C>>, col: Col)
    requires Inv(s)
    ensures Inv(StateAfter(s, life))
  {
    if life != [] {
      LifeKeepsInv(s, life[..|life| - 1], col);
      RunKeepsInv(StateAfter(s, life[..|life| - 1]), life[|life| - 1].ops);
    }
  }

  /** After each of its syncs, from the first on, the client holds exactly the listing, and a token for it. */
  lemma {:induction false} ClientHoldsListing<C>(s: State<C>, life: seq<Stretch<C>>, col: Col)
    requires Inv(s) && life != [] && ItemsAreListed(s, life, col)
    requires Latest(StateAfter(s, life).log, col) <= MAX_INT64
    ensures var t := StateAfter(s, life);
            ClientAfter(s, life, col) == Client(Listing(t, col), SyncToken(Latest(t.log, col)))
  {
    hide ListsAll, Report, Inv, Run;
    var k := |life| - 1;
    var before, last := life[..k], life[k];
    assert life[..k + 1] == life;
    assert ListsAll(last.items, Listing(StateAfter(s, life), col));
    if k == 0 {
      FirstSync(StateAfter(s, life), col, last.items, "");
    } else {
      forall i | 0 <= i < k ensures ListsAll(before[i].items, Listing(StateAfter(s, before[..i + 1]), col)) {
        assert before[..i + 1] == life[..i + 1];
      }
      LifeKeepsInv(s, before, col);
      RunExtends(StateAfter(s, before), last.ops);
      LatestGrows(StateAfter(s, before).log, StateAfter(s, life).log, col);
      ClientHoldsListing(s, before, col);
      SyncIsExact(StateAfter(s, before), last.ops, col, last.items);
    }
  }

  // ----- which tokens are refused -----

  /** The number, with an optional sign; a minus only before zero. */
  ghost predicate IsNumeral(s: string, id: nat) {
    || (AllDigits(s) && NumberOf(s) == id)
    || (s != "" && s[0] == '+' && AllDigits(s[1..]) && NumberOf(s[1..]) == id)
    || (s != "" && s[0] == '-' && AllDigits(s[1..]) && NumberOf(s[1..]) == id == 0)
  }

  lemma ParsedIsNumeral(s: string, id: nat)
    ensures IsNumeral(s, id) ==> if id <= MAX_INT64 then ParseInt64(s) == Some(id) else ParseInt64(s).None?
    ensures ParseInt64(s) == Some(id) ==> IsNumeral(s, id)
  {
    assert s != "" && (s[0] == '-' || s[0] == '+') ==> !IsDigit(s[0]) && !AllDigits(s);
  }

  /**
    A report is given for a blank token, and for the prefix followed by a number that is at most the
    latest id; any other token is refused.
   */
  lemma RefusedIff(listing: map<string, string>, items: seq<Member>, log: seq<Change>, col: Col, token: string)
    requires Latest(log, col) <= MAX_INT64
    ensures var t := Trim(token);
            Report(listing, items, log, col, token).ValidSyncTokenError? <==>
              t != "" && !(TOKEN_PREFIX <= t && exists id: nat | id <= Latest(log, col) :: IsNumeral(t[|TOKEN_PREFIX|..], id))
  {
    hide ParseInt64, IsNumeral, Latest, Trim;
    var t := Trim(token);
    if TOKEN_PREFIX <= t {
      forall id: nat | id <= MAX_INT64
        ensures IsNumeral(t[|TOKEN_PREFIX|..], id) <==> ParseInt64(t[|TOKEN_PREFIX|..]) == Some(id)
      {
        ParsedIsNumeral(t[|TOKEN_PREFIX|..], id);
      }
    }
  }

  // ----- the three reads of the report are three statements -----

  /** A client that holds this map and this token is put right by its next sync. */
  ghost predicate IsRepairable<C>(view: map<string, string>, t: State<C>, col: Col, id: nat) {
    Follow(view, DeltaSince(t, col, id)) == Listing(t, col)
  }

  function Shown(listing: map<string, string>, h: string): string {
    if h in listing then listing[h] else ""
  }

  /**
    An incremental report reads the listing in state s1, the token in s2 and the changes later.  At
    this href the reads agree for a client that syncs next at t: what was written between the first
    two and is still there in s2 is written again before t, or both show one etag.
   */
  ghost predicate ReadsAgreeAt<C>(s1: State<C>, s2: State<C>, t: State<C>, col: Col, h: string) {
    Mentions(s2.log, |s1.log|, col, h) && !Mentions(t.log, |s2.log|, col, h) && h in Listing(s2, col) ==>
      Shown(Listing(s1, col), h) == Listing(s2, col)[h]
  }

  ghost predicate ReadsAgree<C>(s1: State<C>, s2: State<C>, t: State<C>, col: Col) {
    forall h :: ReadsAgreeAt(s1, s2, t, col, h)
  }

  /** The same for a first report, which is the listing itself: it must also not list what is gone in s2. */
  ghost predicate FirstReadsAgreeAt<C>(s1: State<C>, s2: State<C>, t: State<C>, col: Col, h: string) {
    Mentions(s2.log, |s1.log|, col, h) && !Mentions(t.log, |s2.log|, col, h) ==>
      && (h in Listing(s1, col) <==> h in Listing(s2, col))
      && (h in Listing(s1, col) ==> Listing(s1, col)[h] == Listing(s2, col)[h])
  }

  ghost predicate FirstReadsAgree<C>(s1: State<C>, s2: State<C>, t: State<C>, col: Col) {
    forall h :: FirstReadsAgreeAt(s1, s2, t, col, h)
  }

  lemma RacedAt<C>(s0: State<C>, s1: State<C>, s2: State<C>, s3: State<C>, col: Col, h: string)
    requires Inv(s3) && Extends(s0, s1) && Extends(s1, s2) && Extends(s2, s3)
    ensures var changes := Compact(Since(s3.log, col, Latest(s0.log, col)));
            var view := Follow(Listing(s0, col), Delta(Listing(s1, col), changes));
            if h !in Listing(s3, col) then !Mentions(s3.log, |s2.log|, col, h) ==> h !in view
            else if Mentions(s3.log, |s1.log|, col, h) then
              h in view && view[h] == Shown(Listing(s1, col), h)
            else h in view && view[h] == Listing(s3, col)[h]
  {
    var since := Latest(s0.log, col);
    var raw := Since(s3.log, col, since);
    ExtendsTransitive(s0, s1, s2);
    ExtendsTransitive(s1, s2, s3);
    ExtendsTransitive(s0, s1, s3);
    assert s3.log[..|s0.log|] == s0.log;
    LatestBounds(s0.log, col);
    SinceTells(s3.log, |s0.log|, col, since, h);
    FollowAt(Listing(s0, col), Listing(s1, col), Compact(raw), h);
    CompactChangesAt(raw, h);
    if !Mentions(s3.log, |s0.log|, col, h) {
      assert SameAt(s0, s3, col, h);
    }
    if !Mentions(s3.log, |s1.log|, col, h) {
      assert SameAt(s1, s3, col, h);
    }
    if Mentions(s3.log, |s1.log|, col, h) {
      var i :| |s1.log| <= i < |s3.log| && s3.log[i].col == col && s3.log[i].href == h;
      assert Mentions(s3.log, |s0.log|, col, h);
    }
  }

  lemma RepairAt<C>(view: map<string, string>, s2: State<C>, s3: State<C>, col: Col, h: string)
    requires Inv(s3) && Extends(s2, s3)
    ensures var after := Follow(view, DeltaSince(s3, col, Latest(s2.log, col)));
            if Mentions(s3.log, |s2.log|, col, h) then
              (h in after <==> h in Listing(s3, col)) && (h in after ==> after[h] == Listing(s3, col)[h])
            else (h in after <==> h in view) && (h in after ==> after[h] == view[h])
  {
    var since := Latest(s2.log, col);
    var raw := Since(s3.log, col, since);
    assert s3.log[..|s2.log|] == s2.log;
    LatestBounds(s2.log, col);
    SinceTells(s3.log, |s2.log|, col, since, h);
    FollowAt(view, Listing(s3, col), Compact(raw), h);
    CompactChangesAt(raw, h);
  }

  lemma RacedReportAt<C>(s0: State<C>, s1: State<C>, s2: State<C>, s3: State<C>, t: State<C>, col: Col, h: string)
    requires Inv(s3) && Inv(t) && Extends(s0, s1) && Extends(s1, s2) && Extends(s2, s3) && Extends(s3, t)
    ensures var changes := Compact(Since(s3.log, col, Latest(s0.log, col)));
            var view := Follow(Listing(s0, col), Delta(Listing(s1, col), changes));
            var after := Follow(view, DeltaSince(t, col, Latest(s2.log, col)));
            && (h in after <==> h in Listing(t, col))
            && (h in after ==> (after[h] == Listing(t, col)[h] <==> ReadsAgreeAt(s1, s2, t, col, h)))
            && (h !in after ==> ReadsAgreeAt(s1, s2, t, col, h))
  {
    hide Follow, Delta, Inv;
    var changes := Compact(Since(s3.log, col, Latest(s0.log, col)));
    RacedAt(s0, s1, s2, s3, col, h);
    ExtendsTransitive(s2, s3, t);
    RepairAt(Follow(Listing(s0, col), Delta(Listing(s1, col), changes)), s2, t, col, h);
    SplitMentions(s1.log, s2.log, s3.log, col, h);
    SplitMentions(s2.log, s3.log, t.log, col, h);
    if !Mentions(t.log, |s2.log|, col, h) {
      assert SameAt(s2, s3, col, h) && SameAt(s2, t, col, h);
    }
  }

  /**
    With writes between its reads, an incremental report leaves the client repairable by its next
    sync, at any later state t, exactly when listing and token agree on everything that is not
    written again before t.
   */
  lemma RacedReport<C>(s0: State<C>, s1: State<C>, s2: State<C>, s3: State<C>, t: State<C>, col: Col)
    requires Inv(s3) && Inv(t) && Extends(s0, s1) && Extends(s1, s2) && Extends(s2, s3) && Extends(s3, t)
    ensures var changes := Compact(Since(s3.log, col, Latest(s0.log, col)));
            var view := Follow(Listing(s0, col), Delta(Listing(s1, col), changes));
            IsRepairable(view, t, col, Latest(s2.log, col)) <==> ReadsAgree(s1, s2, t, col)
  {
    hide Extends, Inv, ReadsAgreeAt, Delta, DeltaSince, Follow, Listing;
    var changes := Compact(Since(s3.log, col, Latest(s0.log, col)));
    var view := Follow(Listing(s0, col), Delta(Listing(s1, col), changes));
    var after := Follow(view, DeltaSince(t, col, Latest(s2.log, col)));
    var listing := Listing(t, col);
    forall h ensures h in after <==> h in listing
             ensures h in listing ==> (after[h] == listing[h] <==> ReadsAgreeAt(s1, s2, t, col, h))
             ensures h !in listing ==> ReadsAgreeAt(s1, s2, t, col, h)
    {
      RacedReportAt(s0, s1, s2, s3, t, col, h);
    }
    assert after.Keys == listing.Keys;
    if ReadsAgree(s1, s2, t, col) {
      assert after == listing;
    }
  }

  lemma FirstReportAt<C>(s1: State<C>, s2: State<C>, t: State<C>, col: Col, h: string)
    requires Inv(t) && Extends(s1, s2) && Extends(s2, t)
    ensures var after := Follow(Listing(s1, col), DeltaSince(t, col, Latest(s2.log, col)));
            FirstReadsAgreeAt(s1, s2, t, col, h) <==>
              && (h in after <==> h in Listing(t, col))
              && (h in after ==> after[h] == Listing(t, col)[h])
  {
    hide Follow, Inv;
    RepairAt(Listing(s1, col), s2, t, col, h);
    if !Mentions(t.log, |s2.log|, col, h) {
      assert SameAt(s2, t, col, h);
      if !Mentions(s2.log, |s1.log|, col, h) {
        assert SameAt(s1, s2, col, h);
      }
    }
  }

  /**
    A first report, with writes between listing and token, leaves the client repairable by its next
    sync, at any later state t, exactly when both reads show the same of everything that is not
    written again before t: present in both with one etag, or in neither.
   */
  lemma FirstReport<C>(s1: State<C>, s2: State<C>, t: State<C>, col: Col, items: seq<Member>)
    requires Inv(t) && Extends(s1, s2) && Extends(s2, t)
    requires ListsAll(items, Listing(s1, col))
    ensures IsRepairable(Follow(map[], items), t, col, Latest(s2.log, col)) <==> FirstReadsAgree(s1, s2, t, col)
  {
    hide Extends, Inv, FirstReadsAgreeAt, DeltaSince, Follow, Listing;
    FullReportIsExact(items, Listing(s1, col));
    var after := Follow(Listing(s1, col), DeltaSince(t, col, Latest(s2.log, col)));
    var listing := Listing(t, col);
    forall h ensures FirstReadsAgreeAt(s1, s2, t, col, h) <==>
                       (h in after <==> h in listing) && (h in after ==> after[h] == listing[h])
    {
      FirstReportAt(s1, s2, t, col, h);
    }
    if FirstReadsAgree(s1, s2, t, col) {
      forall h ensures h in after <==> h in listing
               ensures h in after ==> after[h] == listing[h]
      {
        assert FirstReadsAgreeAt(s1, s2, t, col, h);
      }
      assert after.Keys == listing.Keys;
      assert after == listing;
    }
  }

  lemma SplitMentions(a: seq<Change>, b: seq<Change>, c: seq<Change>, col: Col, h: string)
    requires a <= b <= c
    ensures Mentions(c, |a|, col, h) <==> Mentions(b, |a|, col, h) || Mentions(c, |b|, col, h)
  {
    if Mentions(b, |a|, col, h) {
      var i :| |a| <= i < |b| && b[i].col == col && b[i].href == h;
      assert c[i] == b[i];
    }
    if Mentions(c, |a|, col, h) && !Mentions(c, |b|, col, h) {
      var i :| |a| <= i < |c| && c[i].col == col && c[i].href == h;
      assert i < |b| && c[i] == b[i];
    }
  }

  // ----- what a race leaves behind stays -----

  /** Successive points of a run. */
  ghost predicate Grow<C>(states: seq<State<C>>) {
    && states != []
    && (forall i :: 0 <= i < |states| ==> Inv(states[i]))
    && (forall i :: 1 <= i < |states| ==> Extends(states[i - 1], states[i]))
  }

  /** The client has the token of the first state and syncs at each of the others in turn. */
  function SyncedAlong<C>(view: map<string, string>, states: seq<State<C>>, col: Col): map<string, string>
    requires states != []
  {
    if |states| == 1 then view
    else
      var k := |states| - 1;
      Follow(SyncedAlong(view, states[..k], col), DeltaSince(states[k], col, Latest(states[k - 1].log, col)))
  }

  /** A client whose map is the listing of the first state has that of the last one in the end. */
  lemma {:induction false} SyncedAlongIsExact<C>(states: seq<State<C>>, col: Col)
    requires Grow(states)
    ensures SyncedAlong(Listing(states[0], col), states, col) == Listing(states[|states| - 1], col)
    decreases |states|
  {
    var k := |states| - 1;
    if k > 0 {
      var before := states[..k];
      assert Extends(states[k - 1], states[k]) && before[k - 1] == states[k - 1] && before[0] == states[0];
      SyncedAlongIsExact(before, col);
      DeltaIsExact(states[k - 1], states[k], col);
    }
  }

  /** However often the client syncs, an href that is not written again stays as its map had it. */
  lemma {:induction false} UnmentionedStays<C>(view: map<string, string>, states: seq<State<C>>, col: Col, h: string)
    requires Grow(states)
    requires !Mentions(states[|states| - 1].log, |states[0].log|, col, h)
    ensures states[0].log <= states[|states| - 1].log
    ensures var after := SyncedAlong(view, states, col);
            (h in after <==> h in view) && (h in after ==> after[h] == view[h])
    decreases |states|
  {
    var k := |states| - 1;
    if k > 0 {
      var before, last := states[..k], states[k];
      assert Extends(states[k - 1], last) && before[k - 1] == states[k - 1] && before[0] == states[0];
      LogsGrow(states, k);
      SplitMentions(states[0].log, states[k - 1].log, last.log, col, h);
      UnmentionedStays(view, before, col, h);
      RepairAt(SyncedAlong(view, before, col), states[k - 1], last, col, h);
    }
  }

  lemma {:induction false} LogsGrow<C>(states: seq<State<C>>, k: nat)
    requires Grow(states) && 0 < k < |states|
    ensures states[0].log <= states[k - 1].log <= states[k].log
  {
    assert Extends(states[k - 1], states[k]);
    if k > 1 {
      LogsGrow(states, k - 1);
    }
  }

  lemma FirstObject<C>(s: State<C>, col: Col, obj: Obj<C>)
    requires s == State(map[col := Collection(map[], 1)], []) && col.kind == AddressBook
    ensures var t := Run(s, [UpsertAddressObject(col, "a.vcf", obj)]);
            && Inv(s) && Extends(s, t)
            && Listing(s, col) == map[] && "a.vcf" in Listing(t, col)
  {
    var op := UpsertAddressObject(col, "a.vcf", obj);
    assert Run(s, [op][..0]) == s;
    assert Run(s, [op]) == PutObject(s, col, "a.vcf", obj);
    RunExtends(s, [op]);
  }

  /**
    An object written between the listing and the token of a first sync: however often the client
    syncs afterwards, it never hears of the object unless that is written again.
   */
  lemma ObjectLostBetweenReads<C>(col: Col, obj: Obj<C>, later: seq<State<C>>)
    requires col.kind == AddressBook
    ensures var s1 := State(map[col := Collection(map[], 1)], []);
            var s2 := Run(s1, [UpsertAddressObject(col, "a.vcf", obj)]);
            var states := [s2] + later;
            var last := states[|later|];
            && Inv(s1) && Extends(s1, s2)
            && (Grow(states) && !Mentions(last.log, |s2.log|, col, "a.vcf") ==>
                  "a.vcf" in Listing(last, col) && "a.vcf" !in SyncedAlong(Listing(s1, col), states, col))
  {
    hide SyncedAlong, UidsAreUnique, LogIsCurrent, Mentions, Run;
    var s1: State<C> := State(map[col := Collection(map[], 1)], []);
    var s2 := Run(s1, [UpsertAddressObject(col, "a.vcf", obj)]);
    FirstObject(s1, col, obj);
    var states := [s2] + later;
    var last := states[|later|];
    if Grow(states) && !Mentions(last.log, |s2.log|, col, "a.vcf") {
      UnmentionedStays(Listing(s1, col), states, col, "a.vcf");
      if later != [] {
        GrowExtends(states);
        assert SameAt(s2, last, col, "a.vcf");
      }
    }
  }

  lemma {:induction false} GrowExtends<C>(states: seq<State<C>>)
    requires Grow(states) && |states| > 1
    ensures Extends(states[0], states[|states| - 1])
  {
    var k := |states| - 1;
    assert Extends(states[k - 1], states[k]);
    if k > 1 {
      GrowExtends(states[..k]);
      ExtendsTransitive(states[0], states[k - 1], states[k]);
    }
  }
}
