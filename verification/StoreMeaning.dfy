/**
  What single operations of the store do, href by href, by how much they move the ctag, and what LIKE selects.
 */
module StoreMeaning {
  import opened Store
  import opened StoreTables
  import opened Wrappers

  /** Other collections are as they were. */
  ghost predicate OthersStay<C>(s: State<C>, t: State<C>, col: Col) {
    t.cols.Keys == s.cols.Keys && forall k | k in s.cols && k != col :: t.cols[k] == s.cols[k]
  }

  /**
    After a calendar upsert the href has the object, another href that had its UID is gone, and every
    other one stays.  The ctag moves by one for each of the two changes, which are in the log.
   */
  lemma UpsertStores<C>(s: State<C>, col: Col, href: string, obj: Obj<C>, h: string)
    requires Inv(s) && col in s.cols && col.kind == Calendar
    ensures var (before, t) := (Objects(s, col), UpsertCalendar(s, col, href, obj));
            var gone := obj.uid != "" && exists k :: k != href && k in before && before[k].uid == obj.uid;
            && OthersStay(s, t, col)
            && Objects(t, col)[href] == obj
            && (h != href ==>
                  (h in Objects(t, col) <==> h in before && (obj.uid == "" || before[h].uid != obj.uid)))
            && (h != href && h in Objects(t, col) ==> Objects(t, col)[h] == before[h])
            && CTag(t, col) == CTag(s, col) + (if gone then 2 else 1)
            && |t.log| == |s.log| + (if gone then 2 else 1) && s.log <= t.log
            && t.log[|t.log| - 1].col == col && t.log[|t.log| - 1].href == href && !t.log[|t.log| - 1].deleted
            && (gone ==> t.log[|s.log|].col == col && t.log[|s.log|].deleted && t.log[|s.log|].href in before
                           && before[t.log[|s.log|].href].uid == obj.uid)
  {
    var other := Holder(s, col, obj.uid);
    assert other.Some? ==> Holds(s, col, obj.uid, other.value);
    if k :| k != href && k in Objects(s, col) && Objects(s, col)[k].uid == obj.uid {
      assert Holds(s, col, obj.uid, k);
    }
    if h in Objects(s, col) && Objects(s, col)[h].uid == obj.uid {
      assert Holds(s, col, obj.uid, h);
    }
  }

  /** Deleting takes that href away, with a log entry and one step of the ctag, or does nothing if it is not there. */
  lemma DeleteTakes<C>(s: State<C>, col: Col, href: string, h: string)
    requires col in s.cols
    ensures var (before, t) := (Objects(s, col), DeleteObject(s, col, href));
            && OthersStay(s, t, col)
            && (h in Objects(t, col) <==> h in before && h != href)
            && (h in Objects(t, col) ==> Objects(t, col)[h] == before[h])
            && (href !in before ==> t == s)
            && (href in before ==>
                  CTag(t, col) == CTag(s, col) + 1 && |t.log| == |s.log| + 1 && s.log <= t.log
                  && t.log[|s.log|].col == col && t.log[|s.log|].href == href && t.log[|s.log|].deleted)
  {
  }

  /** Deleting several together takes them away with an entry for each and one step of the ctag. */
  lemma DeleteTogetherTakes<C>(s: State<C>, col: Col, hrefs: seq<string>, h: string)
    requires col in s.cols && hrefs != []
    ensures var (before, t) := (Objects(s, col), DeleteTogether(s, col, hrefs));
            && OthersStay(s, t, col)
            && (h in Objects(t, col) <==> h in before && h !in hrefs)
            && (h in Objects(t, col) ==> Objects(t, col)[h] == before[h])
            && CTag(t, col) == CTag(s, col) + 1 && |t.log| == |s.log| + |hrefs| && s.log <= t.log
            && forall i | |s.log| <= i < |t.log| ::
                 t.log[i].col == col && t.log[i].deleted && t.log[i].href == hrefs[i - |s.log|]
  {
  }

  /** A change of shares moves the ctag by one and nothing else. */
  lemma TouchMoves<C>(s: State<C>, col: Col)
    requires col in s.cols
    ensures var t := Touch(s, col);
            && OthersStay(s, t, col) && Objects(t, col) == Objects(s, col) && t.log == s.log
            && CTag(t, col) == CTag(s, col) + 1
  {
  }

  /** In a LIKE pattern % stands for any stretch of the text. */
  lemma {:induction false} PercentMatches(s: string, pattern: string)
    ensures Like(s, "%" + pattern) <==> exists i | 0 <= i <= |s| :: Like(s[i..], pattern)
    decreases |s|
  {
    assert ("%" + pattern)[1..] == pattern && s[0..] == s;
    if s != "" {
      PercentMatches(s[1..], pattern);
      if Like(s[1..], "%" + pattern) {
        var i :| 0 <= i <= |s[1..]| && Like(s[1..][i..], pattern);
        assert s[i + 1..] == s[1..][i..];
      }
      if i :| 0 < i <= |s| && Like(s[i..], pattern) {
        assert s[1..][i - 1..] == s[i..];
      }
    }
  }
}
