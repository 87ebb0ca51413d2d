/**
  When it can be seen that the rate limiter collects idle keys.
 */
module RateCollection {
  import opened RateBounds
  import opened RateLimit
  import opened Wrappers

  // ----- when garbage collection can be seen -----

  /** Every call of every run is answered with garbage collection as without. */
  ghost predicate CollectionIsInvisible(c: Config) {
    forall calls, call, start | InOrder(calls + [call], start) ::
      Reply(c, true, Run(c, true, calls), call) == Reply(c, false, Run(c, false, calls), call)
  }

  function LockOf(v: View): Option<int> {
    if v.Locked? then Some(v.until) else None
  }

  /** With max = 1 every count locks, and only the locks tell. */
  lemma OnlyLocksTell(c: Config, g: View, n: View, call: Call, key: string)
    requires c.max == 1 && LockOf(g) == LockOf(n)
    ensures LockOf(ViewAfter(c, g, call, key)) == LockOf(ViewAfter(c, n, call, key))
    ensures ReplyView(c, g, call) == ReplyView(c, n, call)
  {
    hide Prune;
  }

  lemma {:induction false} LocksAreTheSame(c: Config, calls: seq<Call>, start: int, key: string)
    requires Proper(c) && c.max == 1 && InOrder(calls, start)
    ensures var now := Now(calls, start);
            LockOf(Look(c, Run(c, true, calls), key, now)) == LockOf(Look(c, Run(c, false, calls), key, now))
  {
    if calls != [] {
      hide Prune, After, Look, ViewAfter;
      var k := |calls| - 1;
      var now := Now(calls[..k], start);
      LocksAreTheSame(c, calls[..k], start, key);
      CallLooks(c, true, Run(c, true, calls[..k]), calls[k], now, key);
      CallLooks(c, false, Run(c, false, calls[..k]), calls[k], now, key);
      OnlyLocksTell(c, Look(c, Run(c, true, calls[..k]), key, now), Look(c, Run(c, false, calls[..k]), key, now), calls[k], key);
    }
  }

  function Key(i: nat): (key: string)
    ensures |key| == i
  {
    seq(i, j => 'k')
  }

  /** One hit each on n further keys. */
  function Others(n: nat): (calls: seq<Call>)
    ensures |calls| == n
  {
    if n == 0 then [] else Others(n - 1) + [Hit(Key(n), 0, 0)]
  }

  /** A locked key, and others that have one attempt. */
  ghost predicate Crowded(c: Config, gc: bool, calls: seq<Call>, n: nat)
    requires Proper(c)
  {
    && InOrder(calls, 0) && Now(calls, 0) == 0
    && Look(c, Run(c, gc, calls), "", 0) == Locked(c.lockout, Repeat(0, c.max))
    && (forall i: nat :: 1 <= i <= n ==> Look(c, Run(c, gc, calls), Key(i), 0) == Free([0]))
    && (forall i: nat :: i > n ==> Look(c, Run(c, gc, calls), Key(i), 0) == Free([]))
  }

  lemma {:induction false} StrangersStayNew(c: Config, gc: bool, calls: seq<Call>, key: string, n: nat)
    requires Proper(c) && InOrder(calls, 0) && Now(calls, 0) == 0 && key != ""
    requires Look(c, Run(c, gc, calls), key, 0) == Free([])
    ensures var more := calls + Burst("", n, 0);
            InOrder(more, 0) && Now(more, 0) == 0 && Look(c, Run(c, gc, more), key, 0) == Free([])
  {
    hide Prune, Run, Look, InOrder, Now;
    if n > 0 {
      StrangersStayNew(c, gc, calls, key, n - 1);
      var most := calls + Burst("", n - 1, 0);
      RunSnoc(c, gc, key, most, Hit("", 0, 0), 0);
      PruneNone(0 - c.window);
      assert calls + Burst("", n, 0) == most + [Hit("", 0, 0)];
    } else {
      assert calls + Burst("", 0, 0) == calls;
    }
  }

  lemma CrowdStarts(c: Config, gc: bool)
    requires Proper(c) && c.max >= 2
    ensures Crowded(c, gc, Burst("", c.max, 0), 0)
  {
    hide Prune, Run, Look, InOrder, Now, Hits;
    NothingYet(c, gc);
    FullBurst(c, gc, []);
    assert [] + Burst("", c.max, 0) == Burst("", c.max, 0);
    forall i | i > 0 ensures Look(c, Run(c, gc, Burst("", c.max, 0)), Key(i), 0) == Free([]) {
      NewKey(c, Key(i), 0);
      StrangersStayNew(c, gc, [], Key(i), c.max);
    }
  }

  lemma {:induction false} CrowdGrows(c: Config, gc: bool, n: nat)
    requires Proper(c) && c.max >= 2
    ensures Crowded(c, gc, Burst("", c.max, 0) + Others(n), n)
  {
    hide Prune, Run, Look, InOrder, Now, Hits, Counted;
    var burst := Burst("", c.max, 0);
    if n > 0 {
      CrowdGrows(c, gc, n - 1);
      var most := burst + Others(n - 1);
      var more := most + [Hit(Key(n), 0, 0)];
      assert burst + Others(n) == more;
      OneMoreStranger(c, gc, most, n);
    } else {
      CrowdStarts(c, gc);
      assert burst + Others(0) == burst;
    }
  }

  lemma OneMoreStranger(c: Config, gc: bool, calls: seq<Call>, n: nat)
    requires Proper(c) && c.max >= 2 && n > 0 && Crowded(c, gc, calls, n - 1)
    ensures Crowded(c, gc, calls + [Hit(Key(n), 0, 0)], n)
  {
    hide Prune, Run, Look, InOrder, Now, Hits, Counted;
    var call := Hit(Key(n), 0, 0);
    var more := calls + [call];
    RunSnoc(c, gc, "", calls, call, 0);
    AdvanceLook(c, Run(c, gc, calls), "", 0, 0);
    HitNow(c, gc, Key(n), calls, 0);
    LapsedCount(c, 0);
    forall i | i >= 1 && i != n ensures Look(c, Run(c, gc, more), Key(i), 0) == Look(c, Run(c, gc, calls), Key(i), 0) {
      RunSnoc(c, gc, Key(i), calls, call, 0);
      AdvanceLook(c, Run(c, gc, calls), Key(i), 0, 0);
    }
  }

  function Keys(n: nat): set<string> {
    set i: nat | i < n :: Key(i)
  }

  lemma {:induction false} ManyKeys(n: nat)
    ensures |Keys(n)| == n
  {
    if n > 0 {
      ManyKeys(n - 1);
      assert Keys(n) == Keys(n - 1) + {Key(n - 1)};
      assert Key(n - 1) !in Keys(n - 1);
    }
  }

  /** Every key that is seen to have attempts or a lock has a bucket. */
  lemma CrowdIsLarge(c: Config, gc: bool, calls: seq<Call>, n: nat)
    requires Proper(c) && Crowded(c, gc, calls, n)
    ensures |Run(c, gc, calls)| >= n + 1
  {
    hide Run, Prune;
    var bs := Run(c, gc, calls);
    assert Key(0) == "";
    forall i | 0 <= i < n + 1 ensures Key(i) in bs {
      if i > 0 {
        assert Look(c, bs, Key(i), 0) == Free([0]);
      }
    }
    ManyKeys(n + 1);
    assert Keys(n + 1) <= bs.Keys;
    assert bs.Keys == Keys(n + 1) + (bs.Keys - Keys(n + 1));
  }

  /** A locked key among 512; when the lock has lapsed a check of another key collects it, or not; then a late count. */
  function Forgotten(c: Config): seq<Call>
    requires Proper(c)
  {
    Burst("", c.max, 0) + Others(511) + [Ask(Key(1), LateTime(c))] + [Count("", LateTime(c))]
  }

  lemma ForgottenLooks(c: Config, gc: bool)
    requires Proper(c) && c.max >= 2
    ensures var t := LateTime(c);
            && InOrder(Forgotten(c), 0) && Now(Forgotten(c), 0) == t
            && Look(c, Run(c, gc, Forgotten(c)), "", t) == if gc then Free([t]) else Lapsed([t])
  {
    hide Prune, Run, Look, InOrder, Now, Hits, Counted;
    var t := LateTime(c);
    var crowd := Burst("", c.max, 0) + Others(511);
    CrowdGrows(c, gc, 511);
    CrowdIsLarge(c, gc, crowd, 511);
    var asked := crowd + [Ask(Key(1), t)];
    PruneOld(Repeat(0, c.max), t - c.window);
    RunSnoc(c, gc, "", crowd, Ask(Key(1), t), 0);
    AskCollects(c, gc, crowd, t);
    RunSnoc(c, gc, "", asked, Count("", t), 0);
    AdvanceLook(c, Run(c, gc, asked), "", t, t);
    LapsedCount(c, t);
    assert Forgotten(c) == asked + [Count("", t)];
  }

  lemma AskCollects(c: Config, gc: bool, calls: seq<Call>, t: int)
    requires Proper(c) && t == LateTime(c) && Crowded(c, gc, calls, 511) && |Run(c, gc, calls)| >= 512
    ensures Look(c, Run(c, gc, calls + [Ask(Key(1), t)]), "", t) == if gc then Free([]) else Lapsed([])
  {
    hide Prune, Run, Look, Gc, Checked;
    var bs := Run(c, gc, calls);
    AdvanceLook(c, bs, "", 0, t);
    PruneOld(Repeat(0, c.max), t - c.window);
    GcForgetsLapsed(c, bs, "", t);
    CheckedLooks(c, if gc then Gc(c, bs, t) else bs, Key(1), t, "");
    AskRuns(c, gc, calls, t);
  }

  lemma AskRuns(c: Config, gc: bool, calls: seq<Call>, t: int)
    ensures Run(c, gc, calls + [Ask(Key(1), t)]) ==
            Checked(c, if gc then Gc(c, Run(c, gc, calls), t) else Run(c, gc, calls), Key(1), t)
  {
    hide Gc, Checked;
    assert (calls + [Ask(Key(1), t)])[..|calls|] == calls;
  }

  /** Then the last of max - 1 hits is refused with garbage collection and let through without. */
  lemma ForgottenIsSeen(c: Config)
    requires Proper(c) && c.max >= 2
    ensures var t := LateTime(c);
            var calls, call := Forgotten(c) + Burst("", c.max - 2, t), Hit("", t, t);
            && InOrder(calls + [call], 0)
            && !Reply(c, true, Run(c, true, calls), call).ok && Reply(c, false, Run(c, false, calls), call).ok
  {
    hide Prune, Run, Look, InOrder, Now, Hits, Forgotten, Reply;
    var t := LateTime(c);
    var calls := Forgotten(c) + Burst("", c.max - 2, t);
    ForgottenLooks(c, true);
    ForgottenLooks(c, false);
    BurstRuns(c, true, "", Forgotten(c), 0, c.max - 2);
    BurstRuns(c, false, "", Forgotten(c), 0, c.max - 2);
    forall gc ensures InOrder(calls + [Hit("", t, t)], 0)
              ensures Reply(c, gc, Run(c, gc, calls), Hit("", t, t)) == ReplyView(c, Look(c, Run(c, gc, calls), "", t), Hit("", t, t))
    {
      RunSnoc(c, gc, "", calls, Hit("", t, t), 0);
      CallLooks(c, gc, Run(c, gc, calls), Hit("", t, t), t, "");
    }
    AdvanceLook(c, Run(c, true, calls), "", t, t);
    AdvanceLook(c, Run(c, false, calls), "", t, t);
    PruneNone(t - c.window);
  }

  /** Garbage collection cannot be seen exactly if every count locks. */
  lemma CollectionIsInvisibleIff(c: Config)
    requires Proper(c)
    ensures CollectionIsInvisible(c) <==> c.max == 1
  {
    hide Prune, Run, Look, Reply, InOrder, ViewAfter, ReplyView, Forgotten;
    if c.max == 1 {
      forall calls, call, start | InOrder(calls + [call], start)
        ensures Reply(c, true, Run(c, true, calls), call) == Reply(c, false, Run(c, false, calls), call)
      {
        var now := Now(calls, start);
        OneMoreCall(c, true, calls, call, start);
        LocksAreTheSame(c, calls, start, call.key);
        CallLooks(c, true, Run(c, true, calls), call, now, call.key);
        CallLooks(c, false, Run(c, false, calls), call, now, call.key);
        OnlyLocksTell(c, Look(c, Run(c, true, calls), call.key, now), Look(c, Run(c, false, calls), call.key, now), call, call.key);
      }
    } else {
      ForgottenIsSeen(c);
    }
  }

  // ----- what is kept -----

  /** Of the attempts, those after the cutoff are kept, as often as they are there. */
  lemma {:induction false} PrunedAre(fails: seq<int>, cutoff: int, t: int)
    ensures multiset(Prune(fails, cutoff))[t] == if t > cutoff then multiset(fails)[t] else 0
  {
    if fails != [] {
      var k := |fails| - 1;
      PrunedAre(fails[..k], cutoff, t);
      assert fails == fails[..k] + [fails[k]];
    }
  }

  /** After a check of a key that is not locked, only attempts in the window are kept of it, and other keys are as they were. */
  lemma CheckForgetsOld(c: Config, bs: Buckets, key: string, now: int, t: int, other: string)
    requires key in bs && !(bs[key].lockedUntil.Some? && now < bs[key].lockedUntil.value)
    ensures var after := Checked(c, bs, key, now);
            && key in after && after[key].lockedUntil == None
            && multiset(after[key].fails)[t] ==
                 (if bs[key].lockedUntil == None && t > now - c.window then multiset(bs[key].fails)[t] else 0)
            && (other != key ==> (other in after <==> other in bs) && (other in bs ==> after[other] == bs[other]))
  {
    PrunedAre(bs[key].fails, now - c.window, t);
    hide Prune;
  }
}
