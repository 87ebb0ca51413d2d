/**
  The sliding-window rate limiter: failed attempts per key, a lockout, and garbage collection of
  idle keys.  Times are readings of a clock that does not go back.
 */
module RateLimit {
  import opened Wrappers

  const SECOND := 1_000_000_000
  const QUARTER_HOUR := 15 * 60 * SECOND

  datatype Config = Config(max: int, window: int, lockout: int)

  predicate Proper(c: Config) {
    c.max > 0 && c.window > 0 && c.lockout > 0
  }

  datatype Bucket = Bucket(fails: seq<int>, lockedUntil: Option<int>)

  type Buckets = map<string, Bucket>

  datatype Answer = Answer(ok: bool, retryAfter: int)

  const YES := Answer(true, 0)

  /** The times after the cutoff, in order. */
  function Prune(fails: seq<int>, cutoff: int): seq<int> {
    if fails == [] then []
    else Prune(fails[..|fails| - 1], cutoff) + if fails[|fails| - 1] > cutoff then [fails[|fails| - 1]] else []
  }

  predicate IsLocked(b: Bucket, now: int) {
    b.lockedUntil.Some? && now < b.lockedUntil.value
  }

  /** A bucket survives garbage collection while it is locked or has attempts in the window. */
  predicate Survives(c: Config, b: Bucket, now: int) {
    IsLocked(b, now) || Prune(b.fails, now - c.window) != []
  }

  function Collected(c: Config, b: Bucket, now: int): Bucket {
    if IsLocked(b, now) then b else b.(fails := Prune(b.fails, now - c.window))
  }

  /** What gcLocked does to the buckets when there are many. */
  function Gc(c: Config, bs: Buckets, now: int): Buckets {
    if |bs| < 512 then bs else map k | k in bs && Survives(c, bs[k], now) :: Collected(c, bs[k], now)
  }

  /** Allow, without the garbage collection that comes before it. */
  function Checked(c: Config, bs: Buckets, key: string, now: int): Buckets {
    if key !in bs || IsLocked(bs[key], now) then bs
    else if bs[key].lockedUntil.Some? then bs[key := Bucket([], None)]
    else bs[key := bs[key].(fails := Prune(bs[key].fails, now - c.window))]
  }

  function CheckAnswer(bs: Buckets, key: string, now: int): Answer {
    if key in bs && IsLocked(bs[key], now) then Answer(false, bs[key].lockedUntil.value - now) else YES
  }

  function BucketOf(bs: Buckets, key: string): Bucket {
    if key in bs then bs[key] else Bucket([], None)
  }

  function Failed(c: Config, bs: Buckets, key: string, now: int): Buckets {
    var fails := Prune(BucketOf(bs, key).fails, now - c.window) + [now];
    bs[key := Bucket(fails, if |fails| >= c.max then Some(now + c.lockout) else BucketOf(bs, key).lockedUntil)]
  }

  function FailAnswer(c: Config, bs: Buckets, key: string, now: int): Answer {
    if |Prune(BucketOf(bs, key).fails, now - c.window)| + 1 >= c.max then Answer(false, c.lockout) else YES
  }

  // ----- calls -----

  /** A call, with the readings of the clock that it takes.  Count is Fail; a Hit is a check and, if it is let through, a count. */
  datatype Call =
    | Ask(key: string, at: int)
    | Count(key: string, at: int)
    | Hit(key: string, at: int, counted: int)
    | Success(key: string, at: int)
  {
    function End(): int { if Hit? then counted else at }

    predicate Counts() { Hit? || Count? }
  }

  /** The buckets after a call, with or without garbage collection. */
  function After(c: Config, gc: bool, bs: Buckets, call: Call): Buckets {
    match call
    case Success(key, _) => bs - {key}
    case Ask(key, at) => Checked(c, if gc then Gc(c, bs, at) else bs, key, at)
    case Count(key, at) => Failed(c, bs, key, at)
    case Hit(key, at, counted) =>
      var kept := if gc then Gc(c, bs, at) else bs;
      var checked := Checked(c, kept, key, at);
      if CheckAnswer(kept, key, at).ok then Failed(c, checked, key, counted) else checked
  }

  function Reply(c: Config, gc: bool, bs: Buckets, call: Call): Answer {
    match call
    case Success(_, _) => YES
    case Ask(key, at) => CheckAnswer(if gc then Gc(c, bs, at) else bs, key, at)
    case Count(key, at) => FailAnswer(c, bs, key, at)
    case Hit(key, at, counted) =>
      var kept := if gc then Gc(c, bs, at) else bs;
      if CheckAnswer(kept, key, at).ok then FailAnswer(c, Checked(c, kept, key, at), key, counted)
      else CheckAnswer(kept, key, at)
  }

  function Run(c: Config, gc: bool, calls: seq<Call>): Buckets {
    if calls == [] then map[] else After(c, gc, Run(c, gc, calls[..|calls| - 1]), calls[|calls| - 1])
  }

  /** The reading of the clock with which the last call ended. */
  function Now(calls: seq<Call>, start: int): int {
    if calls == [] then start else calls[|calls| - 1].End()
  }

  /** The clock does not go back, within a call or from call to call. */
  predicate InOrder(calls: seq<Call>, start: int) {
    calls != [] ==>
      var k := |calls| - 1;
      && InOrder(calls[..k], start)
      && Now(calls[..k], start) <= calls[k].at <= calls[k].End()
  }

  // ----- what can be seen of a key -----

  /** A key has attempts in the window, and no lock, a lock that holds, or one that has lapsed and not been cleared. */
  datatype View = Free(recent: seq<int>) | Locked(until: int, recent: seq<int>) | Lapsed(recent: seq<int>)

  function Look(c: Config, bs: Buckets, key: string, now: int): View {
    if key !in bs then Free([])
    else
      var recent := Prune(bs[key].fails, now - c.window);
      match bs[key].lockedUntil
      case Some(until) => if now < until then Locked(until, recent) else Lapsed(recent)
      case None => Free(recent)
  }

  function Advance(c: Config, v: View, now: int): View {
    var recent := Prune(v.recent, now - c.window);
    match v
    case Locked(until, _) => if now < until then Locked(until, recent) else Lapsed(recent)
    case Lapsed(_) => Lapsed(recent)
    case Free(_) => Free(recent)
  }

  /** A check clears a lapsed lock, together with the attempts. */
  function Asked(v: View): View {
    if v.Lapsed? then Free([]) else v
  }

  function AskReply(v: View, now: int): Answer {
    if v.Locked? then Answer(false, v.until - now) else YES
  }

  function Counted(c: Config, v: View, at: int): View {
    var recent := v.recent + [at];
    if |recent| >= c.max then Locked(at + c.lockout, recent) else v.(recent := recent)
  }

  function CountReply(c: Config, v: View): Answer {
    if |v.recent| + 1 >= c.max then Answer(false, c.lockout) else YES
  }

  /** One call, told by what can be seen of a key. */
  function ViewAfter(c: Config, v: View, call: Call, key: string): View {
    if call.key != key then Advance(c, v, call.End())
    else
      match call
      case Success(_, _) => Free([])
      case Ask(_, at) => Asked(Advance(c, v, at))
      case Count(_, at) => Counted(c, Advance(c, v, at), at)
      case Hit(_, at, counted) =>
        var seen := Asked(Advance(c, v, at));
        if seen.Locked? then Advance(c, seen, counted) else Counted(c, Advance(c, seen, counted), counted)
  }

  /** The answer to a call on the key. */
  function ReplyView(c: Config, v: View, call: Call): Answer {
    match call
    case Success(_, _) => YES
    case Ask(_, at) => AskReply(Advance(c, v, at), at)
    case Count(_, at) => CountReply(c, Advance(c, v, at))
    case Hit(_, at, counted) =>
      var seen := Asked(Advance(c, v, at));
      if seen.Locked? then AskReply(seen, at) else CountReply(c, Advance(c, seen, counted))
  }

  lemma {:induction false} PruneTwice(fails: seq<int>, a: int, b: int)
    requires a <= b
    ensures Prune(Prune(fails, a), b) == Prune(fails, b)
  {
    if fails != [] {
      var k := |fails| - 1;
      PruneTwice(fails[..k], a, b);
      if fails[k] > a {
        assert (Prune(fails[..k], a) + [fails[k]])[..|Prune(fails[..k], a)|] == Prune(fails[..k], a);
      } else {
        assert Prune(fails, a) == Prune(fails[..k], a);
      }
    }
  }

  lemma PruneNone(cutoff: int)
    ensures Prune([], cutoff) == []
  {
  }

  lemma PruneSnoc(times: seq<int>, x: int, cutoff: int)
    ensures Prune(times + [x], cutoff) == Prune(times, cutoff) + if x > cutoff then [x] else []
  {
    assert (times + [x])[..|times|] == times;
  }

  lemma AdvanceLook(c: Config, bs: Buckets, key: string, now: int, later: int)
    requires now <= later
    ensures Advance(c, Look(c, bs, key, now), later) == Look(c, bs, key, later)
  {
    hide Prune;
    PruneNone(later - c.window);
    if key in bs {
      PruneTwice(bs[key].fails, now - c.window, later - c.window);
    }
  }

  /** Garbage collection makes a key with a lapsed lock and no recent attempts look new, and changes nothing else. */
  lemma GcForgetsLapsed(c: Config, bs: Buckets, key: string, now: int)
    ensures Look(c, Gc(c, bs, now), key, now) ==
            if |bs| >= 512 && Look(c, bs, key, now) == Lapsed([]) then Free([]) else Look(c, bs, key, now)
  {
    hide Prune;
    if key in bs {
      PruneTwice(bs[key].fails, now - c.window, now - c.window);
    }
  }

  lemma CheckedLooks(c: Config, bs: Buckets, key: string, now: int, other: string)
    ensures Look(c, Checked(c, bs, key, now), other, now) ==
            if other == key then Asked(Look(c, bs, key, now)) else Look(c, bs, other, now)
    ensures CheckAnswer(bs, key, now) == AskReply(Look(c, bs, key, now), now)
  {
    hide Prune;
    PruneNone(now - c.window);
    if key in bs {
      PruneTwice(bs[key].fails, now - c.window, now - c.window);
    }
  }

  lemma FailedLooks(c: Config, bs: Buckets, key: string, at: int, other: string)
    requires Proper(c)
    ensures Look(c, Failed(c, bs, key, at), other, at) ==
            if other == key then Counted(c, Look(c, bs, key, at), at) else Look(c, bs, other, at)
    ensures FailAnswer(c, bs, key, at) == CountReply(c, Look(c, bs, key, at))
  {
    hide Prune;
    var fails := BucketOf(bs, key).fails;
    PruneNone(at - c.window);
    PruneTwice(fails, at - c.window, at - c.window);
    PruneSnoc(Prune(fails, at - c.window), at, at - c.window);
  }

  /** The same, or forgotten by garbage collection. */
  predicate Same(g: View, n: View) {
    g == n || (g == Free([]) && n == Lapsed([]))
  }

  /** One call: what can be seen afterwards, and the answer, follow from what could be seen before. */
  lemma CallLooks(c: Config, gc: bool, bs: Buckets, call: Call, now: int, key: string)
    requires Proper(c) && now <= call.at <= call.End()
    ensures var after := ViewAfter(c, Look(c, bs, key, now), call, key);
            && Same(Look(c, After(c, gc, bs, call), key, call.End()), after)
            && (!gc || call.Count? ==> Look(c, After(c, gc, bs, call), key, call.End()) == after)
    ensures Reply(c, gc, bs, call) == ReplyView(c, Look(c, bs, call.key, now), call)
  {
    hide Prune, Gc, Checked, Failed, CheckAnswer, FailAnswer, Counted;
    var kept := if gc && (call.Ask? || call.Hit?) then Gc(c, bs, call.at) else bs;
    GcForgetsLapsed(c, bs, key, call.at);
    GcForgetsLapsed(c, bs, call.key, call.at);
    AdvanceLook(c, bs, key, now, call.at);
    AdvanceLook(c, bs, call.key, now, call.at);
    match call
    case Success(_, _) =>
    case Ask(_, _) =>
      CheckedLooks(c, kept, call.key, call.at, key);
      CheckedLooks(c, kept, call.key, call.at, call.key);
    case Count(_, _) =>
      FailedLooks(c, bs, call.key, call.at, key);
      FailedLooks(c, bs, call.key, call.at, call.key);
    case Hit(_, _, _) =>
      HitLooks(c, kept, call, key);
      HitLooks(c, kept, call, call.key);
      PruneNone(call.counted - c.window);
      AdvanceTwice(c, Look(c, bs, key, now), call.at, call.counted);
  }

  lemma AdvanceTwice(c: Config, v: View, a: int, b: int)
    requires a <= b
    ensures Advance(c, Advance(c, v, a), b) == Advance(c, v, b)
  {
    hide Prune;
    PruneTwice(v.recent, a - c.window, b - c.window);
  }

  /** A hit on buckets from which nothing is left to collect. */
  lemma HitLooks(c: Config, bs: Buckets, call: Call, key: string)
    requires Proper(c) && call.Hit? && call.at <= call.counted
    ensures var checked := Checked(c, bs, call.key, call.at);
            var after := if CheckAnswer(bs, call.key, call.at).ok then Failed(c, checked, call.key, call.counted) else checked;
            var seen := Asked(Look(c, bs, call.key, call.at));
            && CheckAnswer(bs, call.key, call.at) == AskReply(seen, call.at)
            && FailAnswer(c, checked, call.key, call.counted) == CountReply(c, Advance(c, seen, call.counted))
            && Look(c, after, key, call.counted) ==
                 if call.key != key then Advance(c, Look(c, bs, key, call.at), call.counted)
                 else if seen.Locked? then Advance(c, seen, call.counted)
                 else Counted(c, Advance(c, seen, call.counted), call.counted)
  {
    hide Prune, Checked, Failed, CheckAnswer, FailAnswer, Counted;
    var checked := Checked(c, bs, call.key, call.at);
    CheckedLooks(c, bs, call.key, call.at, key);
    CheckedLooks(c, bs, call.key, call.at, call.key);
    AdvanceLook(c, checked, key, call.at, call.counted);
    AdvanceLook(c, checked, call.key, call.at, call.counted);
    FailedLooks(c, checked, call.key, call.counted, key);
  }

  // ----- runs, with garbage collection and without -----

  /** What would be seen of a key after a run if nothing were collected and there were no other keys. */
  function KeyView(c: Config, key: string, calls: seq<Call>): View {
    if calls == [] then Free([])
    else ViewAfter(c, KeyView(c, key, calls[..|calls| - 1]), calls[|calls| - 1], key)
  }

  /** No count on the key finds a lock that has lapsed and not been cleared by a check. */
  predicate NoLapsedCount(c: Config, key: string, calls: seq<Call>) {
    calls != [] ==>
      var k := |calls| - 1;
      && NoLapsedCount(c, key, calls[..k])
      && (calls[k].Count? && calls[k].key == key ==> !Advance(c, KeyView(c, key, calls[..k]), calls[k].at).Lapsed?)
  }

  /** Views that are the same stay the same and give the same answers, but for a count that finds a lapsed lock. */
  lemma SameAfter(c: Config, g: View, n: View, call: Call, key: string)
    requires Same(g, n)
    requires call.Count? && call.key == key ==> !Advance(c, n, call.at).Lapsed?
    ensures Same(ViewAfter(c, g, call, key), ViewAfter(c, n, call, key))
    ensures call.key == key ==> ReplyView(c, g, call) == ReplyView(c, n, call)
  {
    hide Prune;
    PruneNone(call.at - c.window);
    PruneNone(call.End() - c.window);
  }

  /** After any run a key looks as if it had been alone, and with no count on a lapsed lock also as if nothing had been collected. */
  lemma {:induction false} RunLooks(c: Config, gc: bool, calls: seq<Call>, start: int, key: string)
    requires Proper(c) && InOrder(calls, start) && (gc ==> NoLapsedCount(c, key, calls))
    ensures Same(Look(c, Run(c, gc, calls), key, Now(calls, start)), KeyView(c, key, calls))
    ensures !gc ==> Look(c, Run(c, gc, calls), key, Now(calls, start)) == KeyView(c, key, calls)
  {
    if calls != [] {
      hide Prune, After, Look, ViewAfter, Advance;
      var k := |calls| - 1;
      RunLooks(c, gc, calls[..k], start, key);
      var bs, now := Run(c, gc, calls[..k]), Now(calls[..k], start);
      CallLooks(c, gc, bs, calls[k], now, key);
      if gc {
        SameAfter(c, Look(c, bs, key, now), KeyView(c, key, calls[..k]), calls[k], key);
      }
    } else {
      assert Run(c, gc, calls) == map[];
    }
  }

  /** If no count on its key finds a lapsed lock, a call is answered with garbage collection as without. */
  lemma AnsweredTheSame(c: Config, calls: seq<Call>, call: Call, start: int)
    requires Proper(c) && InOrder(calls + [call], start) && NoLapsedCount(c, call.key, calls + [call])
    ensures Reply(c, true, Run(c, true, calls), call) == Reply(c, false, Run(c, false, calls), call)
  {
    hide Prune, Look, ViewAfter, ReplyView, Advance, Same;
    assert (calls + [call])[..|calls|] == calls;
    var now := Now(calls, start);
    RunLooks(c, true, calls, start, call.key);
    RunLooks(c, false, calls, start, call.key);
    CallLooks(c, true, Run(c, true, calls), call, now, call.key);
    CallLooks(c, false, Run(c, false, calls), call, now, call.key);
    SameAfter(c, Look(c, Run(c, true, calls), call.key, now), KeyView(c, call.key, calls), call, call.key);
  }

  // ----- counts that come soon after their checks -----

  /** Each count on the key follows a check of it that said yes, by less than a lockout. */
  ghost predicate PromptCounts(c: Config, key: string, calls: seq<Call>) {
    forall k :: 0 <= k < |calls| && calls[k].Count? && calls[k].key == key ==> exists i :: IsPrompt(c, key, calls, i, k)
  }

  ghost predicate IsPrompt(c: Config, key: string, calls: seq<Call>, i: int, k: int)
    requires k < |calls|
  {
    && 0 <= i < k && calls[i].Ask? && calls[i].key == key
    && ReplyView(c, KeyView(c, key, calls[..i]), calls[i]).ok
    && calls[k].at < calls[i].at + c.lockout
  }

  /** No lock that was set after this time has lapsed yet. */
  predicate LocksSince(c: Config, v: View, now: int, since: int) {
    now < since + c.lockout ==> !v.Lapsed? && (v.Locked? ==> v.until >= since + c.lockout)
  }

  lemma LocksSinceAfter(c: Config, v: View, call: Call, key: string, now: int, since: int)
    requires Proper(c) && since <= now <= call.at <= call.End() && LocksSince(c, v, now, since)
    ensures LocksSince(c, ViewAfter(c, v, call, key), call.End(), since)
    ensures LocksSince(c, Advance(c, v, call.at), call.at, since)
  {
    hide Prune;
  }

  lemma {:induction false} LocksSinceCheck(c: Config, key: string, calls: seq<Call>, start: int, i: nat, k: nat)
    requires Proper(c) && InOrder(calls, start) && i < k <= |calls| && calls[i].Ask? && calls[i].key == key
    requires ReplyView(c, KeyView(c, key, calls[..i]), calls[i]).ok
    ensures calls[i].at <= Now(calls[..k], start) && InOrder(calls[..k], start)
    ensures LocksSince(c, KeyView(c, key, calls[..k]), Now(calls[..k], start), calls[i].at)
  {
    hide Prune;
    PrefixInOrder(calls, start, k);
    assert calls[..k][..k - 1] == calls[..k - 1];
    if k == i + 1 {
      assert KeyView(c, key, calls[..k]) == ViewAfter(c, KeyView(c, key, calls[..i]), calls[i], key);
    } else {
      LocksSinceCheck(c, key, calls, start, i, k - 1);
      LocksSinceAfter(c, KeyView(c, key, calls[..k - 1]), calls[k - 1], key, Now(calls[..k - 1], start), calls[i].at);
    }
  }

  lemma {:induction false} PrefixInOrder(calls: seq<Call>, start: int, k: nat)
    requires InOrder(calls, start) && k <= |calls|
    ensures InOrder(calls[..k], start)
    decreases |calls|
  {
    if k == |calls| {
      assert calls[..k] == calls;
    } else {
      PrefixInOrder(calls[..|calls| - 1], start, k);
      assert calls[..|calls| - 1][..k] == calls[..k];
    }
  }

  /** Such counts never find a lapsed lock. */
  lemma {:induction false} PromptIsEnough(c: Config, key: string, calls: seq<Call>, start: int)
    requires Proper(c) && InOrder(calls, start) && PromptCounts(c, key, calls)
    ensures NoLapsedCount(c, key, calls)
  {
    hide Prune, KeyView, ReplyView;
    if calls != [] {
      var k := |calls| - 1;
      PromptPrefix(c, key, calls);
      PromptIsEnough(c, key, calls[..k], start);
      if calls[k].Count? && calls[k].key == key {
        var i :| IsPrompt(c, key, calls, i, k);
        LocksSinceCheck(c, key, calls, start, i, k);
        LocksSinceAfter(c, KeyView(c, key, calls[..k]), calls[k], key, Now(calls[..k], start), calls[i].at);
      }
    }
  }

  lemma PromptPrefix(c: Config, key: string, calls: seq<Call>)
    requires calls != [] && PromptCounts(c, key, calls)
    ensures PromptCounts(c, key, calls[..|calls| - 1])
  {
    hide KeyView, ReplyView;
    var front := calls[..|calls| - 1];
    forall k | 0 <= k < |front| && front[k].Count? && front[k].key == key ensures exists i :: IsPrompt(c, key, front, i, k) {
      var i :| IsPrompt(c, key, calls, i, k);
      assert front[..i] == calls[..i];
      assert IsPrompt(c, key, front, i, k);
    }
  }

  // ----- locks and waits -----

  /** A lock never reaches further ahead than one lockout. */
  lemma {:induction false} LockIsBounded(c: Config, gc: bool, key: string, calls: seq<Call>, start: int)
    requires Proper(c) && InOrder(calls, start)
    ensures var v := Look(c, Run(c, gc, calls), key, Now(calls, start));
            v.Locked? ==> v.until <= Now(calls, start) + c.lockout
  {
    hide Prune, After, Look, ViewAfter;
    if calls == [] {
      assert Run(c, gc, calls) == map[];
      NewKey(c, key, start);
    } else {
      var k := |calls| - 1;
      var now := Now(calls[..k], start);
      LockIsBounded(c, gc, key, calls[..k], start);
      CallLooks(c, gc, Run(c, gc, calls[..k]), calls[k], now, key);
      LockStaysBounded(c, Look(c, Run(c, gc, calls[..k]), key, now), calls[k], key, now);
    }
  }

  lemma NewKey(c: Config, key: string, now: int)
    ensures Look(c, map[], key, now) == Free([])
  {
  }

  lemma LockStaysBounded(c: Config, v: View, call: Call, key: string, now: int)
    requires Proper(c) && now <= call.at <= call.End() && (v.Locked? ==> v.until <= now + c.lockout)
    ensures var after := ViewAfter(c, v, call, key); after.Locked? ==> after.until <= call.End() + c.lockout
  {
    hide Prune;
  }

  /**
    A hit that is refused says how long to wait: at least a moment and at most one lockout.  The key
    is free from then on and not before, counted from the reading at which it was found locked, or at
    which this hit locked it.
   */
  lemma RetryAfterIsExact(c: Config, gc: bool, calls: seq<Call>, call: Call, start: int, t: int)
    requires Proper(c) && InOrder(calls + [call], start) && call.Hit? && t >= call.counted
    requires !Reply(c, gc, Run(c, gc, calls), call).ok
    ensures var retry := Reply(c, gc, Run(c, gc, calls), call).retryAfter;
            var wasFree := Reply(c, gc, Run(c, gc, calls), Ask(call.key, call.at)).ok;
            && 0 < retry <= c.lockout
            && (Reply(c, gc, Run(c, gc, calls + [call]), Ask(call.key, t)).ok <==>
                  t >= (if wasFree then call.counted else call.at) + retry)
  {
    var bs, now := Run(c, gc, calls), Now(calls, start);
    OneMoreCall(c, gc, calls, call, start);
    LockIsBounded(c, gc, call.key, calls, start);
    CallLooks(c, gc, bs, call, now, call.key);
    CallLooks(c, gc, bs, Ask(call.key, call.at), now, call.key);
    CallLooks(c, gc, Run(c, gc, calls + [call]), Ask(call.key, t), call.counted, call.key);
    hide Prune, Run, Reply, Look, InOrder;
  }

  lemma OneMoreCall(c: Config, gc: bool, calls: seq<Call>, call: Call, start: int)
    requires InOrder(calls + [call], start)
    ensures Run(c, gc, calls + [call]) == After(c, gc, Run(c, gc, calls), call)
    ensures InOrder(calls, start) && Now(calls, start) <= call.at <= call.End()
  {
    assert (calls + [call])[..|calls|] == calls;
  }

  // ----- the limiter -----

  method PruneInPlace(fails: seq<int>, cutoff: int) returns (out: seq<int>)
    ensures out == Prune(fails, cutoff)
  {
    out := [];
    assert fails[..0] == [];
    for i := 0 to |fails|
      invariant out == Prune(fails[..i], cutoff)
    {
      assert fails[..i + 1][..i] == fails[..i];
      if fails[i] > cutoff {
        out := out + [fails[i]];
      }
    }
    assert fails[..|fails|] == fails;
  }

  /** All but the rest have been looked at. */
  ghost predicate PartlyCollected(c: Config, before: Buckets, rest: set<string>, bs: Buckets, now: int) {
    && (forall k :: k in bs <==> k in before && (k in rest || Survives(c, before[k], now)))
    && (forall k :: k in bs ==> bs[k] == if k in rest then before[k] else Collected(c, before[k], now))
  }

  lemma CollectOne(c: Config, before: Buckets, rest: set<string>, bs: Buckets, now: int, k: string)
    requires PartlyCollected(c, before, rest, bs, now) && k in rest && rest <= before.Keys
    ensures k in bs
    ensures IsLocked(bs[k], now) ==> PartlyCollected(c, before, rest - {k}, bs, now)
    ensures !IsLocked(bs[k], now) ==>
              var fails := Prune(bs[k].fails, now - c.window);
              var kept := bs[k := bs[k].(fails := fails)];
              PartlyCollected(c, before, rest - {k}, if fails == [] then kept - {k} else kept, now)
  {
    hide Prune;
  }

  lemma AllCollected(c: Config, before: Buckets, bs: Buckets, now: int)
    requires PartlyCollected(c, before, {}, bs, now) && |before| >= 512
    ensures bs == Gc(c, before, now)
  {
    hide Prune;
  }

  class Limiter {
    const config: Config
    var buckets: Buckets

    constructor (max: int, window: int, lockout: int)
      ensures config == Config(if max <= 0 then 8 else max,
                               if window <= 0 then QUARTER_HOUR else window,
                               if lockout <= 0 then QUARTER_HOUR else lockout)
      ensures Proper(config) && buckets == map[]
    {
      config := Config(if max <= 0 then 8 else max,
                       if window <= 0 then QUARTER_HOUR else window,
                       if lockout <= 0 then QUARTER_HOUR else lockout);
      buckets := map[];
    }

    method Allow(key: string, now: int) returns (answer: Answer)
      modifies this
      ensures answer == Reply(config, true, old(buckets), Ask(key, now))
      ensures buckets == After(config, true, old(buckets), Ask(key, now))
    {
      hide Gc, Prune;
      GcLocked(now);
      if key !in buckets {
        return YES;
      }
      var b := buckets[key];
      if b.lockedUntil.Some? {
        if now < b.lockedUntil.value {
          return Answer(false, b.lockedUntil.value - now);
        }
        buckets := buckets[key := Bucket([], None)];
        return YES;
      }
      var fails := PruneInPlace(b.fails, now - config.window);
      buckets := buckets[key := b.(fails := fails)];
      return YES;
    }

    method Fail(key: string, now: int) returns (answer: Answer)
      modifies this
      ensures answer == Reply(config, true, old(buckets), Count(key, now))
      ensures buckets == After(config, true, old(buckets), Count(key, now))
    {
      hide Prune;
      if key !in buckets {
        buckets := buckets[key := Bucket([], None)];
      }
      var b := buckets[key];
      var fails := PruneInPlace(b.fails, now - config.window);
      fails := fails + [now];
      if |fails| >= config.max {
        buckets := buckets[key := Bucket(fails, Some(now + config.lockout))];
        return Answer(false, config.lockout);
      }
      buckets := buckets[key := b.(fails := fails)];
      return YES;
    }

    method Hit(key: string, now: int, counted: int) returns (answer: Answer)
      modifies this
      ensures answer == Reply(config, true, old(buckets), Call.Hit(key, now, counted))
      ensures buckets == After(config, true, old(buckets), Call.Hit(key, now, counted))
    {
      hide Gc, Checked, Failed, Prune, IsLocked;
      answer := Allow(key, now);
      if !answer.ok {
        return;
      }
      answer := Fail(key, counted);
    }

    method Success(key: string)
      modifies this
      ensures forall at :: buckets == After(config, true, old(buckets), Call.Success(key, at))
    {
      hide Gc, Prune;
      buckets := buckets - {key};
    }

    method GcLocked(now: int)
      modifies this
      ensures buckets == Gc(config, old(buckets), now)
    {
      if |buckets| < 512 {
        return;
      }
      ghost var before := buckets;
      var rest := buckets.Keys;
      assert PartlyCollected(config, before, rest, buckets, now);
      hide PartlyCollected, Prune, Gc, Survives, Collected;
      while rest != {}
        invariant rest <= before.Keys
        invariant PartlyCollected(config, before, rest, buckets, now)
        decreases |rest|
      {
        var k :| k in rest;
        CollectOne(config, before, rest, buckets, now, k);
        var b := buckets[k];
        rest := rest - {k};
        if b.lockedUntil.Some? && now < b.lockedUntil.value {
          continue;
        }
        var fails := PruneInPlace(b.fails, now - config.window);
        buckets := buckets[k := b.(fails := fails)];
        if |fails| == 0 {
          buckets := buckets - {k};
        }
      }
      AllCollected(config, before, buckets, now);
    }
  }
}
