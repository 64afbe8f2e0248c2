/**
 * Fixed-window rate limits over counters shared by every process, and the gate on concurrent polls.
 * Times are nanoseconds of one shared clock; the store expires keys by its own whole milliseconds,
 * and a key is live while the clock is below its expiry. A request reads the clock first, and its
 * script runs on the server some time later.
 */
module Limits {
  import opened Common

  const MS: int := 1_000_000

  datatype Key = Key(scope: string, identity: string, bucket: nat)

  datatype Counter = Counter(count: nat, expiry: nat)

  type Store = map<Key, Counter>

  datatype Decision = Decision(allowed: bool, retryAfter: int)

  datatype Error = InvalidConfig | InvalidRole

  // ----- One counter -----

  /** The increment script: a missing or expired counter starts again at one, with a new expiry. */
  function Incremented(s: Store, key: Key, nowMs: nat, ttl: nat): Store {
    if key in s && nowMs < s[key].expiry then s[key := s[key].(count := s[key].count + 1)]
    else s[key := Counter(1, nowMs + ttl)]
  }

  function WindowEnd(now: nat, window: int): int
    requires window > 0
  {
    (now / window + 1) * window
  }

  /** What is left of the window, rounded up to whole milliseconds. */
  function Ttl(now: nat, window: int): (ms: nat)
    requires window > 0
    ensures ms > 0
  {
    var left := WindowEnd(now, window) - now;
    assert left > 0 by { InWindow(now, window); }
    (left + MS - 1) / MS
  }

  lemma InWindow(now: nat, window: int)
    requires window > 0
    ensures now < WindowEnd(now, window) <= now + window
  {
  }

  function KeyAt(scope: string, identity: string, now: nat, window: int): Key
    requires window > 0
  {
    Key(scope, identity, now / window)
  }

  /** When a request read the clock, and when its script ran. */
  datatype Stamp = Stamp(readAt: nat, runAt: nat)

  type Verdict = (Store, Result<Decision, Error>)

  /** The window is that of the reading; the counter lives from the script on. */
  function Allow(s: Store, at: Stamp, scope: string, identity: string, limit: int, window: int): Verdict {
    if scope == "" || identity == "" || limit <= 0 || window <= 0 then (s, Err(InvalidConfig))
    else
      var key := KeyAt(scope, identity, at.readAt, window);
      var s' := Incremented(s, key, at.runAt / MS, Ttl(at.readAt, window));
      var retryAfter := WindowEnd(at.readAt, window) - at.readAt;
      (s', Ok(if s'[key].count <= limit then Decision(true, 0) else Decision(false, retryAfter)))
  }

  /** A request is refused as malformed exactly for a missing name, limit or window, and costs nothing then. */
  lemma MalformedIsExact(s: Store, at: Stamp, scope: string, identity: string, limit: int, window: int)
    ensures Allow(s, at, scope, identity, limit, window).1 == Err(InvalidConfig) <==>
            |scope| == 0 || |identity| == 0 || limit < 1 || window < 1
    ensures Allow(s, at, scope, identity, limit, window).1.Err? ==>
              Allow(s, at, scope, identity, limit, window) == (s, Err(InvalidConfig))
  {
  }

  /** A refused caller is told how long its window lasts: until the first moment of the next one. */
  lemma RefusalTellsWindow(s: Store, at: Stamp, scope: string, identity: string, limit: int, window: int)
    requires window > 0
    requires var d := Allow(s, at, scope, identity, limit, window).1; d.Ok? && !d.value.allowed
    ensures var wait := Allow(s, at, scope, identity, limit, window).1.value.retryAfter;
            && 0 < wait <= window && (at.readAt + wait) % window == 0
            && (at.readAt + wait) / window == at.readAt / window + 1
  {
    InWindow(at.readAt, window);
    var bucket := at.readAt / window + 1;
    assert at.readAt + (WindowEnd(at.readAt, window) - at.readAt) == bucket * window;
    Multiple(bucket, window);
  }

  lemma Multiple(n: nat, w: int)
    requires w > 0
    ensures (n * w) % w == 0 && (n * w) / w == n
  {
    var q, e := (n * w) / w, (n * w) % w;
    assert w * n == w * q + e && 0 <= e < w;
    MulMonotone(w, q + 1, n);
    MulMonotone(w, n + 1, q);
  }

  datatype Policy = Policy(senderIP: int, receiverIP: int, receiverSession: int, global: int, window: int)

  /** The requests of one claim, each with its own reading and script. */
  datatype Stamps = Stamps(ip: Stamp, session: Stamp, global: Stamp)

  /** The narrower limits of a claim, in order; the global one is asked last. */
  function AllowNarrow(p: Policy, s: Store, at: Stamps, role: string, ip: string, session: string): Verdict {
    if role == "send" then Allow(s, at.ip, "claim-send-ip", ip, p.senderIP, p.window)
    else if role == "recv" then
      var (s', d) := Allow(s, at.ip, "claim-recv-ip", ip, p.receiverIP, p.window);
      if d.Err? || !d.value.allowed then (s', d)
      else Allow(s', at.session, "claim-recv-session", session, p.receiverSession, p.window)
    else (s, Err(InvalidRole))
  }

  function AllowClaim(p: Policy, s: Store, at: Stamps, role: string, ip: string, session: string): Verdict {
    var (s', d) := AllowNarrow(p, s, at, role, ip, session);
    if d.Err? || !d.value.allowed then (s', d)
    else Allow(s', at.global, "claim-global", "global", p.global, p.window)
  }

  class RateLimiter {
    var counters: Store

    constructor ()
      ensures counters == map[]
    {
      counters := map[];
    }

    method AllowRequest(at: Stamp, scope: string, identity: string, limit: int, window: int)
        returns (r: Result<Decision, Error>)
      modifies this
      ensures (counters, r) == Allow(old(counters), at, scope, identity, limit, window)
    {
      if scope == "" || identity == "" || limit <= 0 || window <= 0 {
        return Err(InvalidConfig);
      }
      var now := at.readAt;
      var retryAfter := WindowEnd(now, window) - now;
      var expiryMillis := Ttl(now, window);
      var key := KeyAt(scope, identity, now, window);
      var count := 1;
      if key in counters && at.runAt / MS < counters[key].expiry {
        count := counters[key].count + 1;
        counters := counters[key := Counter(count, counters[key].expiry)];
      } else {
        counters := counters[key := Counter(1, at.runAt / MS + expiryMillis)];
      }
      return Ok(if count <= limit then Decision(true, 0) else Decision(false, retryAfter));
    }

    method AllowClaimRequest(p: Policy, at: Stamps, role: string, ip: string, session: string)
        returns (r: Result<Decision, Error>)
      modifies this
      ensures (counters, r) == AllowClaim(p, old(counters), at, role, ip, session)
    {
      if role == "send" {
        r := AllowRequest(at.ip, "claim-send-ip", ip, p.senderIP, p.window);
        if r.Err? || !r.value.allowed {
          return;
        }
      } else if role == "recv" {
        r := AllowRequest(at.ip, "claim-recv-ip", ip, p.receiverIP, p.window);
        if r.Err? || !r.value.allowed {
          return;
        }
        r := AllowRequest(at.session, "claim-recv-session", session, p.receiverSession, p.window);
        if r.Err? || !r.value.allowed {
          return;
        }
      } else {
        return Err(InvalidRole);
      }
      r := AllowRequest(at.global, "claim-global", "global", p.global, p.window);
    }
  }

  // ----- Survival to the end of the window -----

  /** A counter started at `t` is still live at `u`, if that is a later time of the same window. */
  predicate LivesTo(window: int, t: nat, u: nat)
    requires window > 0
  {
    t <= u && t / window == u / window ==> u / MS < t / MS + Ttl(t, window)
  }

  ghost predicate Survives(window: int)
    requires window > 0
  {
    forall t: nat, u: nat :: LivesTo(window, t, u)
  }

  /** Windows end on whole milliseconds, or none crosses from one millisecond into the next. */
  predicate Aligned(window: int)
    requires window > 0
  {
    window % MS == 0 || MS % window == 0
  }

  lemma MulMonotone(w: int, a: int, b: int)
    requires w > 0
    ensures a <= b ==> w * a <= w * b
  {
  }

  lemma SameQuotient(a: nat, b: nat, x: nat, w: int)
    requires w > 0 && w * a <= x < w * (a + 1) && x == w * b
    ensures a == b
  {
    MulMonotone(w, b + 1, a);
    MulMonotone(w, a + 1, b);
  }

  lemma DivBounds(x: nat, w: int)
    requires w > 0
    ensures w * (x / w) <= x < w * (x / w + 1)
  {
  }

  lemma LivesWhenWhole(window: int, t: nat, u: nat)
    requires window > 0 && window % MS == 0
    ensures LivesTo(window, t, u)
  {
    if t <= u && t / window == u / window {
      var end, whole := WindowEnd(t, window), window / MS;
      InWindow(u, window);
      InWindow(t, window);
      assert end == MS * (whole * (t / window + 1)) by {
        assert window == MS * whole;
      }
      assert t == MS * (t / MS) + t % MS;
    }
  }

  lemma LivesWhenNarrow(window: int, t: nat, u: nat)
    requires window > 0 && MS % window == 0
    ensures LivesTo(window, t, u)
  {
    if t <= u && t / window == u / window && t / MS < u / MS {
      var edge, part := MS * (u / MS), MS / window;
      assert edge == window * (part * (u / MS)) by {
        assert MS == window * part;
      }
      DivBounds(t, window);
      DivBounds(u, window);
      assert t < edge <= u;
      SameQuotient(t / window, part * (u / MS), edge, window);
    }
  }

  lemma WideDies(window: int, t: nat, u: nat)
    requires window > MS && window % MS != 0 && u == MS * (window / MS) && t == u - 1
    ensures t / window == 0 == u / window && !LivesTo(window, t, u)
  {
    var q, e := window / MS, window % MS;
    assert window == MS * q + e && t == MS * (q - 1) + (MS - 1);
    QuotientIs(t, window, 0);
    QuotientIs(u, window, 0);
    assert t / MS == q - 1 && u / MS == q;
    assert WindowEnd(t, window) == window;
    assert window - t == e + 1;
  }

  lemma QuotientIs(x: nat, w: int, b: nat)
    requires w > 0 && w * b <= x < w * (b + 1)
    ensures x / w == b
  {
    DivBounds(x, w);
    MulMonotone(w, x / w + 1, b);
    MulMonotone(w, b + 1, x / w);
  }

  lemma NarrowDies(window: int, t: nat, u: nat)
    requires 0 < window < MS && MS % window != 0 && u == MS && t == MS - 1
    ensures t / window == u / window && !LivesTo(window, t, u)
  {
    var b := MS / window;
    var start := window * b;
    assert start < MS < start + window;
    assert window * (b + 1) == start + window;
    QuotientIs(t, window, b);
    QuotientIs(u, window, b);
    assert (b + 1) * window == start + window;
    assert WindowEnd(t, window) == start + window;
  }

  /** A millisecond starts inside a window whose end it does not reach; the last moment before it is too early. */
  lemma DiesWhenCrossed(window: int) returns (t: nat, u: nat)
    requires window > 0 && !Aligned(window)
    ensures t <= u && t / window == u / window && !LivesTo(window, t, u)
  {
    if window > MS {
      u := MS * (window / MS);
      t := u - 1;
      WideDies(window, t, u);
    } else {
      t, u := MS - 1, MS;
      NarrowDies(window, t, u);
    }
  }

  /** Counters always live to the end of their window exactly for these window lengths. */
  lemma SurvivalIsAlignment(window: int)
    requires window > 0
    ensures Survives(window) <==> Aligned(window)
  {
    if Aligned(window) {
      forall t: nat, u: nat
        ensures LivesTo(window, t, u)
      {
        if window % MS == 0 { LivesWhenWhole(window, t, u); } else { LivesWhenNarrow(window, t, u); }
      }
    } else {
      var t, u := DiesWhenCrossed(window);
    }
  }

  // ----- Whole runs -----

  datatype Call = Call(at: Stamp, scope: string, identity: string)

  /** One limit for each scope, one window for all. */
  datatype Rules = Rules(limit: string -> int, window: int)

  function Ask(r: Rules, s: Store, c: Call): (Store, Result<Decision, Error>) {
    Allow(s, c.at, c.scope, c.identity, r.limit(c.scope), r.window)
  }

  /** A run lists the calls in the order of their scripts. */
  function Replay(r: Rules, calls: seq<Call>): Store {
    if |calls| == 0 then map[] else Ask(r, Replay(r, calls[..|calls| - 1]), calls[|calls| - 1]).0
  }

  /** Whether the last call of a run is allowed. */
  predicate LastAllowed(r: Rules, calls: seq<Call>)
    requires |calls| > 0
  {
    var d := Ask(r, Replay(r, calls[..|calls| - 1]), calls[|calls| - 1]).1;
    d.Ok? && d.value.allowed
  }

  /** How many calls that `counts` selects were made, and how many of them were allowed. */
  function Asked(calls: seq<Call>, counts: Call -> bool): nat {
    if |calls| == 0 then 0 else Asked(calls[..|calls| - 1], counts) + if counts(calls[|calls| - 1]) then 1 else 0
  }

  function Granted(r: Rules, calls: seq<Call>, counts: Call -> bool): nat {
    if |calls| == 0 then 0
    else Granted(r, calls[..|calls| - 1], counts) + if counts(calls[|calls| - 1]) && LastAllowed(r, calls) then 1 else 0
  }

  function Fewer(asked: nat, limit: int): int {
    if asked <= limit then asked else limit
  }

  function InBucket(k: Key, window: int): Call -> bool
    requires window > 0
  {
    (c: Call) => KeyAt(c.scope, c.identity, c.at.readAt, window) == k
  }

  predicate ValidKey(r: Rules, k: Key) {
    k.scope != "" && k.identity != "" && r.limit(k.scope) > 0
  }

  /** The first call of a key, whose script starts the counter. */
  function First(calls: seq<Call>, k: Key, window: int): Option<Call>
    requires window > 0
  {
    if |calls| == 0 then None
    else
      var f, c := First(calls[..|calls| - 1], k, window), calls[|calls| - 1];
      if f.None? && InBucket(k, window)(c) then Some(c) else f
  }

  /** The millisecond at which a counter that `c` starts is gone. */
  function Expiry(c: Call, window: int): nat
    requires window > 0
  {
    c.at.runAt / MS + Ttl(c.at.readAt, window)
  }

  /** Some call of the key runs its script when the counter that the first one started is gone. */
  predicate Outlived(calls: seq<Call>, k: Key, window: int)
    requires window > 0
  {
    |calls| > 0 &&
    var before, c := calls[..|calls| - 1], calls[|calls| - 1];
    || Outlived(before, k, window)
    || (InBucket(k, window)(c) && First(before, k, window).Some?
        && c.at.runAt / MS >= Expiry(First(before, k, window).value, window))
  }

  /** What a run leaves of one key: its counter, and how many of its calls were allowed. */
  ghost predicate CounterOk(r: Rules, calls: seq<Call>, k: Key)
    requires r.window > 0
  {
    var n, s, first := Asked(calls, InBucket(k, r.window)), Replay(r, calls), First(calls, k, r.window);
    && (k in s <==> n > 0) && (first.Some? <==> n > 0) && (Outlived(calls, k, r.window) ==> n > 0)
    && (n > 0 ==>
          if Outlived(calls, k, r.window) then s[k].count < n else s[k] == Counter(n, Expiry(first.value, r.window)))
  }

  lemma CounterStep(r: Rules, before: seq<Call>, c: Call, k: Key)
    requires r.window > 0 && ValidKey(r, k) && CounterOk(r, before, k)
    ensures CounterOk(r, before + [c], k)
  {
    var calls := before + [c];
    assert calls[..|before|] == before && calls[|before|] == c;
  }

  /**
   * In every run, whatever the delays and the order: until the counter of a key is outlived it holds
   * the number of calls made and the expiry of the first; afterwards it has forgotten some of them.
   */
  lemma {:induction false} CountersAreExact(r: Rules, calls: seq<Call>, k: Key)
    requires r.window > 0 && ValidKey(r, k)
    ensures CounterOk(r, calls, k)
  {
    if |calls| > 0 {
      CountersAreExact(r, calls[..|calls| - 1], k);
      CounterStep(r, calls[..|calls| - 1], calls[|calls| - 1], k);
      assert calls == calls[..|calls| - 1] + [calls[|calls| - 1]];
    }
  }

  /**
   * Exactly when a grant escapes the counter: a key never gets less than the first `limit` of its
   * calls, and it gets no more exactly unless more are made and one of them outlives the counter.
   */
  lemma {:induction false} GrantsAreExact(r: Rules, calls: seq<Call>, k: Key)
    requires r.window > 0 && ValidKey(r, k)
    ensures var asked, granted := Asked(calls, InBucket(k, r.window)), Granted(r, calls, InBucket(k, r.window));
            && granted >= Fewer(asked, r.limit(k.scope))
            && (granted > Fewer(asked, r.limit(k.scope)) <==>
                  asked > r.limit(k.scope) && Outlived(calls, k, r.window))
  {
    if |calls| > 0 {
      GrantsAreExact(r, calls[..|calls| - 1], k);
      CountersAreExact(r, calls[..|calls| - 1], k);
    }
  }

  // ----- Scripts that run within their window -----

  predicate Timely(c: Call, window: int)
    requires window > 0
  {
    c.at.runAt < WindowEnd(c.at.readAt, window)
  }

  function TimelyIn(k: Key, window: int): Call -> bool
    requires window > 0
  {
    (c: Call) => InBucket(k, window)(c) && Timely(c, window)
  }

  /** Every script runs after the reading of its call, and after the scripts before it. */
  ghost predicate InScriptOrder(calls: seq<Call>) {
    && (forall i :: 0 <= i < |calls| ==> calls[i].at.readAt <= calls[i].at.runAt)
    && (forall i, j :: 0 <= i < j < |calls| ==> calls[i].at.runAt <= calls[j].at.runAt)
  }

  lemma TimelyBucket(c: Call, window: int)
    requires window > 0 && c.at.readAt <= c.at.runAt && Timely(c, window)
    ensures c.at.runAt / window == c.at.readAt / window
  {
    DivBounds(c.at.readAt, window);
    QuotientIs(c.at.runAt, window, c.at.readAt / window);
  }

  /** In an aligned window a call whose script runs within it finds the counter of any other of its window. */
  lemma TimelyFindsCounter(first: Call, c: Call, k: Key, window: int)
    requires window > 0 && Aligned(window) && InBucket(k, window)(first) && TimelyIn(k, window)(c)
    requires first.at.readAt <= first.at.runAt && c.at.readAt <= c.at.runAt
    ensures c.at.runAt / MS < Expiry(first, window)
  {
    TimelyBucket(c, window);
    SurvivalIsAlignment(window);
    assert LivesTo(window, first.at.readAt, c.at.runAt);
  }

  lemma {:induction false} FirstIsCall(calls: seq<Call>, k: Key, window: int)
    requires window > 0 && First(calls, k, window).Some?
    ensures First(calls, k, window).value in calls && InBucket(k, window)(First(calls, k, window).value)
  {
    if First(calls[..|calls| - 1], k, window).Some? {
      FirstIsCall(calls[..|calls| - 1], k, window);
    }
  }

  /** In an aligned window only a call whose script runs too late outlives the counter. */
  lemma {:induction false} OnlyLateCallsOutlive(calls: seq<Call>, k: Key, window: int)
    requires window > 0 && Aligned(window) && InScriptOrder(calls) && Outlived(calls, k, window)
    ensures exists c :: c in calls && InBucket(k, window)(c) && !Timely(c, window)
  {
    var before, c := calls[..|calls| - 1], calls[|calls| - 1];
    if Outlived(before, k, window) {
      OnlyLateCallsOutlive(before, k, window);
    } else {
      FirstIsCall(before, k, window);
      if Timely(c, window) {
        TimelyFindsCounter(First(before, k, window).value, c, k, window);
      }
    }
  }

  lemma SameEnd(a: nat, b: nat, window: int)
    requires window > 0 && a / window == b / window
    ensures WindowEnd(a, window) == WindowEnd(b, window)
  {
  }

  /** A call of the same window whose script ran no later than that of a timely call is timely. */
  lemma EarlierIsTimely(x: Call, c: Call, k: Key, window: int)
    requires window > 0 && InBucket(k, window)(x) && TimelyIn(k, window)(c) && x.at.runAt <= c.at.runAt
    ensures Timely(x, window)
  {
    assert KeyAt(x.scope, x.identity, x.at.readAt, window) == k;
    assert InBucket(k, window)(c) && KeyAt(c.scope, c.identity, c.at.readAt, window) == k;
    SameEnd(x.at.readAt, c.at.readAt, window);
  }

  lemma {:induction false} AllTimely(calls: seq<Call>, k: Key, window: int)
    requires window > 0 && forall x :: x in calls && InBucket(k, window)(x) ==> Timely(x, window)
    ensures Asked(calls, InBucket(k, window)) == Asked(calls, TimelyIn(k, window))
  {
    if |calls| > 0 {
      AllTimely(calls[..|calls| - 1], k, window);
      assert calls[|calls| - 1] in calls;
    }
  }

  /** Scripts run in order, so up to a timely call of a window there were only timely ones. */
  lemma NoneLateBefore(before: seq<Call>, c: Call, k: Key, window: int)
    requires window > 0 && InScriptOrder(before + [c]) && TimelyIn(k, window)(c)
    ensures forall x :: x in before + [c] && InBucket(k, window)(x) ==> Timely(x, window)
    ensures Asked(before, InBucket(k, window)) == Asked(before, TimelyIn(k, window))
  {
    var calls := before + [c];
    forall x | x in calls && InBucket(k, window)(x)
      ensures Timely(x, window)
    {
      var i :| 0 <= i < |calls| && calls[i] == x;
      assert calls[|before|] == c;
      assert i < |before| ==> x.at.runAt <= c.at.runAt;
      EarlierIsTimely(x, c, k, window);
    }
    assert forall x :: x in before ==> x in calls;
    AllTimely(before, k, window);
  }

  lemma TimelyStep(r: Rules, before: seq<Call>, c: Call, k: Key)
    requires r.window > 0 && Aligned(r.window) && ValidKey(r, k) && InScriptOrder(before + [c])
    requires TimelyIn(k, r.window)(c)
    ensures LastAllowed(r, before + [c]) <==> Asked(before, TimelyIn(k, r.window)) < r.limit(k.scope)
  {
    var calls := before + [c];
    assert calls[..|before|] == before && calls[|before|] == c;
    NoneLateBefore(before, c, k, r.window);
    if Outlived(calls, k, r.window) {
      OnlyLateCallsOutlive(calls, k, r.window);
    }
    CountersAreExact(r, calls, k);
  }

  /** In every run over an aligned window, of the calls whose script runs within it the first `limit` are allowed. */
  lemma {:induction false} WindowAdmitsExactly(r: Rules, calls: seq<Call>, k: Key)
    requires r.window > 0 && Aligned(r.window) && ValidKey(r, k) && InScriptOrder(calls)
    ensures Granted(r, calls, TimelyIn(k, r.window)) ==
            Fewer(Asked(calls, TimelyIn(k, r.window)), r.limit(k.scope))
  {
    if |calls| > 0 {
      var before, c := calls[..|calls| - 1], calls[|calls| - 1];
      WindowAdmitsExactly(r, before, k);
      assert calls == before + [c];
      if TimelyIn(k, r.window)(c) {
        TimelyStep(r, before, c, k);
      }
    }
  }

  /** The timely calls of one caller whose scripts run between two times. */
  function Between(scope: string, identity: string, from: nat, to: int, window: int): Call -> bool
    requires window > 0
  {
    (c: Call) => c.scope == scope && c.identity == identity && from <= c.at.runAt < to && Timely(c, window)
  }

  lemma TwoWindows(from: nat, now: nat, window: int)
    requires window > 0 && from <= now < from + window
    ensures now / window == from / window || now / window == from / window + 1
  {
    var a, b := from / window, now / window;
    DivBounds(from, window);
    DivBounds(now, window);
    assert window * (a + 2) == window * (a + 1) + window;
    MulMonotone(window, b + 1, a);
    MulMonotone(window, a + 2, b);
  }

  lemma {:induction false} GrantedSplits(r: Rules, calls: seq<Call>, p: Call -> bool, q: Call -> bool, q': Call -> bool)
    requires forall c :: c in calls && p(c) ==> q(c) || q'(c)
    ensures Granted(r, calls, p) <= Granted(r, calls, q) + Granted(r, calls, q')
  {
    if |calls| > 0 {
      GrantedSplits(r, calls[..|calls| - 1], p, q, q');
      assert calls[|calls| - 1] in calls;
    }
  }

  lemma WindowOf(c: Call, scope: string, identity: string, from: nat, window: int)
    requires window > 0 && c.at.readAt <= c.at.runAt && Between(scope, identity, from, from + window, window)(c)
    ensures || TimelyIn(Key(scope, identity, from / window), window)(c)
            || TimelyIn(Key(scope, identity, from / window + 1), window)(c)
  {
    TimelyBucket(c, window);
    TwoWindows(from, c.at.runAt, window);
    var k := KeyAt(c.scope, c.identity, c.at.readAt, window);
    assert InBucket(k, window)(c);
    assert k.bucket == from / window || k.bucket == from / window + 1;
  }

  /** In any interval as long as a window, at most twice the limit of timely calls is admitted. */
  lemma IntervalAdmitsAtMostTwice(r: Rules, calls: seq<Call>, scope: string, identity: string, from: nat)
    requires r.window > 0 && Aligned(r.window) && InScriptOrder(calls) && ValidKey(r, Key(scope, identity, 0))
    ensures Granted(r, calls, Between(scope, identity, from, from + r.window, r.window)) <= 2 * r.limit(scope)
  {
    var k, k' := Key(scope, identity, from / r.window), Key(scope, identity, from / r.window + 1);
    var p := Between(scope, identity, from, from + r.window, r.window);
    forall c | c in calls && p(c)
      ensures TimelyIn(k, r.window)(c) || TimelyIn(k', r.window)(c)
    {
      WindowOf(c, scope, identity, from, r.window);
    }
    GrantedSplits(r, calls, p, TimelyIn(k, r.window), TimelyIn(k', r.window));
    WindowAdmitsExactly(r, calls, k);
    WindowAdmitsExactly(r, calls, k');
  }

  // ----- Runs that escape the counter -----

  function Repeat(c: Call, n: nat): (calls: seq<Call>)
    ensures |calls| == n && forall i :: 0 <= i < n ==> calls[i] == c
  {
    seq(n, i => c)
  }

  lemma OneMore(calls: seq<Call>, c: Call, n: nat)
    ensures var less, more := calls + Repeat(c, n), calls + Repeat(c, n + 1);
            |more| > 0 && more[..|more| - 1] == less && more[|more| - 1] == c
  {
  }

  /** A call that is allowed adds one to what is granted. */
  lemma OneGranted(r: Rules, less: seq<Call>, more: seq<Call>, c: Call, counts: Call -> bool)
    requires |more| > 0 && more[..|more| - 1] == less && more[|more| - 1] == c
    requires counts(c) && Ask(r, Replay(r, less), c).1 == Ok(Decision(true, 0))
    ensures Replay(r, more) == Ask(r, Replay(r, less), c).0
    ensures Granted(r, more, counts) == Granted(r, less, counts) + 1
  {
  }

  /** One more call of a burst: the counter starts, or goes up by one, and the call is allowed. */
  lemma BurstStep(r: Rules, s: Store, c: Call, n: nat)
    requires r.window > 0 && c.scope != "" && c.identity != "" && n < r.limit(c.scope)
    requires var k := KeyAt(c.scope, c.identity, c.at.readAt, r.window);
             if n == 0 then k !in s || c.at.runAt / MS >= s[k].expiry
             else k in s && s[k] == Counter(n, Expiry(c, r.window))
    ensures var k, (s', d) := KeyAt(c.scope, c.identity, c.at.readAt, r.window), Ask(r, s, c);
            && d == Ok(Decision(true, 0))
            && k in s' && s'[k] == Counter(n + 1, Expiry(c, r.window))
  {
  }

  /** From a store without a live counter, the first `limit` calls at one moment are all allowed. */
  lemma {:induction false} BurstAllowed(r: Rules, calls: seq<Call>, c: Call, n: nat)
    requires r.window > 0 && c.scope != "" && c.identity != "" && n <= r.limit(c.scope)
    requires var k, s := KeyAt(c.scope, c.identity, c.at.readAt, r.window), Replay(r, calls);
             k !in s || c.at.runAt / MS >= s[k].expiry
    ensures var k, s := KeyAt(c.scope, c.identity, c.at.readAt, r.window), Replay(r, calls + Repeat(c, n));
            && (n > 0 ==> k in s && s[k] == Counter(n, Expiry(c, r.window)))
            && Granted(r, calls + Repeat(c, n), InBucket(k, r.window)) == Granted(r, calls, InBucket(k, r.window)) + n
  {
    if n > 0 {
      BurstAllowed(r, calls, c, n - 1);
      if n == 1 {
        assert calls + Repeat(c, 0) == calls;
      }
      BurstStep(r, Replay(r, calls + Repeat(c, n - 1)), c, n - 1);
      OneMore(calls, c, n - 1);
      var k := KeyAt(c.scope, c.identity, c.at.readAt, r.window);
      OneGranted(r, calls + Repeat(c, n - 1), calls + Repeat(c, n), c, InBucket(k, r.window));
    } else {
      assert calls + Repeat(c, 0) == calls;
    }
  }

  lemma BurstsInOrder(first: Call, second: Call, n: nat)
    requires first.at.readAt <= first.at.runAt <= second.at.runAt && second.at.readAt <= second.at.runAt
    ensures InScriptOrder(Repeat(first, n) + Repeat(second, n))
    ensures forall c :: c in Repeat(first, n) + Repeat(second, n) ==> c == first || c == second
  {
  }

  lemma TwoBursts(r: Rules, first: Call, second: Call, k: Key)
    requires r.window > 0 && ValidKey(r, k) && InBucket(k, r.window)(first) && InBucket(k, r.window)(second)
    requires second.at.runAt / MS >= Expiry(first, r.window)
    ensures var calls := Repeat(first, r.limit(k.scope)) + Repeat(second, r.limit(k.scope));
            Granted(r, calls, InBucket(k, r.window)) == 2 * r.limit(k.scope)
  {
    var n := r.limit(k.scope);
    BurstAllowed(r, [], first, n);
    assert [] + Repeat(first, n) == Repeat(first, n);
    assert Granted(r, [], InBucket(k, r.window)) == 0;
    BurstAllowed(r, Repeat(first, n), second, n);
  }

  /** Two bursts of one window, the second when the counter of the first is gone, are both granted in full. */
  lemma SecondBurstAllowed(r: Rules, first: Call, second: Call, k: Key) returns (calls: seq<Call>)
    requires r.window > 0 && ValidKey(r, k) && InBucket(k, r.window)(first) && InBucket(k, r.window)(second)
    requires second.at.runAt / MS >= Expiry(first, r.window)
    requires first.at.readAt <= first.at.runAt <= second.at.runAt && second.at.readAt <= second.at.runAt
    ensures InScriptOrder(calls) && forall c :: c in calls ==> c == first || c == second
    ensures Granted(r, calls, InBucket(k, r.window)) == 2 * r.limit(k.scope)
  {
    calls := Repeat(first, r.limit(k.scope)) + Repeat(second, r.limit(k.scope));
    BurstsInOrder(first, second, r.limit(k.scope));
    TwoBursts(r, first, second, k);
  }

  /** For any other window length, some run without any delay is granted twice the limit within one window. */
  lemma UnalignedWindowsLeak(r: Rules, scope: string, identity: string) returns (calls: seq<Call>, k: Key)
    requires r.window > 0 && !Aligned(r.window) && scope != "" && identity != "" && r.limit(scope) > 0
    ensures InScriptOrder(calls) && ValidKey(r, k) && k.scope == scope
    ensures forall c :: c in calls ==> c.at.readAt == c.at.runAt && Timely(c, r.window)
    ensures Granted(r, calls, InBucket(k, r.window)) == 2 * r.limit(scope)
  {
    var t, u := DiesWhenCrossed(r.window);
    k := Key(scope, identity, t / r.window);
    InWindow(t, r.window);
    InWindow(u, r.window);
    calls := SecondBurstAllowed(r, Call(Stamp(t, t), scope, identity), Call(Stamp(u, u), scope, identity), k);
  }

  /** For every window length, scripts that run late enough after the window ended are granted the limit again. */
  lemma LateScriptsLeak(r: Rules, scope: string, identity: string) returns (calls: seq<Call>)
    requires r.window > 0 && scope != "" && identity != "" && r.limit(scope) > 0
    ensures InScriptOrder(calls)
    ensures forall c :: c in calls ==> c.at.readAt < r.window && c.at.runAt <= r.window + MS
    ensures Granted(r, calls, InBucket(Key(scope, identity, 0), r.window)) == 2 * r.limit(scope)
  {
    var late := Stamp(r.window - 1, MS * Ttl(0, r.window));
    QuotientIs(0, r.window, 0);
    QuotientIs(r.window - 1, r.window, 0);
    assert WindowEnd(0, r.window) == r.window;
    var first, second := Call(Stamp(0, 0), scope, identity), Call(late, scope, identity);
    calls := SecondBurstAllowed(r, first, second, Key(scope, identity, 0));
  }

  // ----- Claims -----

  /** A claim that a narrower limit turns away, or that is malformed, costs nothing of the global budget. */
  lemma NarrowRejectionIsFree(p: Policy, s: Store, at: Stamps, role: string, ip: string, session: string)
    requires p.window > 0
    requires var d := AllowNarrow(p, s, at, role, ip, session).1; d.Err? || !d.value.allowed
    ensures var s' := AllowClaim(p, s, at, role, ip, session).0;
            forall k: Key :: k.scope == "claim-global" ==> (k in s' <==> k in s) && (k in s ==> s'[k] == s[k])
    ensures AllowClaim(p, s, at, role, ip, session).1 == AllowNarrow(p, s, at, role, ip, session).1
  {
    assert "claim-send-ip"[6] == 's' && "claim-recv-ip"[6] == 'r';
    assert "claim-recv-session"[6] == 'r' && "claim-global"[6] == 'g';
  }

  /** A claim that passes the narrower limits costs exactly one of the global budget. */
  lemma PassedClaimCostsOne(p: Policy, s: Store, at: Stamps, role: string, ip: string, session: string)
    requires p.window > 0 && p.global > 0
    requires var d := AllowNarrow(p, s, at, role, ip, session).1; d.Ok? && d.value.allowed
    ensures var k := KeyAt("claim-global", "global", at.global.readAt, p.window);
            var before := if k in s && at.global.runAt / MS < s[k].expiry then s[k].count else 0;
            var (s', d) := AllowClaim(p, s, at, role, ip, session);
            k in s' && s'[k].count == before + 1 && d.Ok? && (d.value.allowed <==> before < p.global)
  {
    assert "claim-send-ip"[6] == 's' && "claim-recv-ip"[6] == 'r';
    assert "claim-recv-session"[6] == 'r' && "claim-global"[6] == 'g';
  }

  /** How many calls a key's live counter has seen when a request's script runs. */
  function Used(s: Store, at: Stamp, scope: string, identity: string, window: int): nat
    requires window > 0
  {
    var k := Key(scope, identity, at.readAt / window);
    if k in s && at.runAt / 1_000_000 < s[k].expiry then s[k].count else 0
  }

  /** A claim passes exactly when each limit of its role has room, the policy's own limit for each scope. */
  lemma ClaimIsExact(p: Policy, s: Store, at: Stamps, role: string, ip: string, session: string)
    requires p.window > 0 && p.global > 0
    ensures var d := AllowClaim(p, s, at, role, ip, session).1;
            var globally := Used(s, at.global, "claim-global", "global", p.window) < p.global;
            d.Ok? && d.value.allowed <==>
              || (&& role == "send" && ip != "" && p.senderIP > 0 && globally
                  && Used(s, at.ip, "claim-send-ip", ip, p.window) < p.senderIP)
              || (&& role == "recv" && ip != "" && session != "" && p.receiverIP > 0 && p.receiverSession > 0
                  && Used(s, at.ip, "claim-recv-ip", ip, p.window) < p.receiverIP
                  && Used(s, at.session, "claim-recv-session", session, p.window) < p.receiverSession && globally)
  {
    assert "claim-send-ip"[6] == 's' && "claim-recv-ip"[6] == 'r' && "send"[0] != "recv"[0];
    assert "claim-recv-session"[6] == 'r' && "claim-global"[6] == 'g';
    assert |"claim-recv-session"| == 18 && |"claim-recv-ip"| == 13;
  }

  // ----- The long-poll gate -----

  function Most(maximum: int): int {
    if maximum < 1 then 1 else maximum
  }

  predicate Opens(max: int, active: set<string>, capability: string) {
    capability != "" && capability !in active && |active| < max
  }

  /** Every slot given out so far, with whether its release has run. */
  datatype Slot = Slot(capability: string, done: bool)

  datatype Gate = Gate(active: set<string>, slots: seq<Slot>)

  datatype PollAction = Acquire(capability: string) | Release(slot: nat)

  function PollNext(max: int, g: Gate, a: PollAction): Gate {
    match a
    case Acquire(c) => if Opens(max, g.active, c) then Gate(g.active + {c}, g.slots + [Slot(c, false)]) else g
    case Release(k) =>
      if k < |g.slots| && !g.slots[k].done then
        Gate(g.active - {g.slots[k].capability}, g.slots[k := g.slots[k].(done := true)])
      else g
  }

  function Polls(max: int, actions: seq<PollAction>): Gate {
    if |actions| == 0 then Gate({}, []) else PollNext(max, Polls(max, actions[..|actions| - 1]), actions[|actions| - 1])
  }

  /** A poll slot's release function; it acts once. */
  class PollRelease {
    const capability: string
    var done: bool

    constructor (capability: string)
      ensures this.capability == capability && !done
    {
      this.capability, done := capability, false;
    }

    function View(): Slot
      reads this
    {
      Slot(capability, done)
    }
  }

  /** The gate, with every release function it has handed out. */
  class LongPollGate {
    const max: int
    var active: set<string>
    ghost var releases: seq<PollRelease>

    ghost predicate Valid()
      reads this
    {
      forall i, j :: 0 <= i < j < |releases| ==> releases[i] != releases[j]
    }

    ghost function View(): Gate
      reads this, releases
    {
      Gate(active, seq(|releases|, i requires 0 <= i < |releases| reads this, releases => releases[i].View()))
    }

    constructor (maximum: int)
      ensures Valid() && max == Most(maximum) && View() == Gate({}, [])
    {
      max, active, releases := if maximum < 1 then 1 else maximum, {}, [];
    }

    method AcquireSlot(capability: string) returns (release: Option<PollRelease>)
      requires Valid()
      modifies this
      ensures Valid() && View() == PollNext(max, old(View()), Acquire(capability))
      ensures release.Some? <==> Opens(max, old(active), capability)
      ensures release.Some? ==> fresh(release.value) && releases == old(releases) + [release.value]
    {
      if capability == "" || capability in active || |active| >= max {
        return None;
      }
      active := active + {capability};
      var r := new PollRelease(capability);
      releases := releases + [r];
      return Some(r);
    }

    method ReleaseSlot(r: PollRelease, ghost k: nat)
      requires Valid() && k < |releases| && releases[k] == r
      modifies this`active, r
      ensures Valid() && View() == PollNext(max, old(View()), Release(k))
    {
      if !r.done {
        r.done := true;
        active := active - {r.capability};
      }
    }
  }

  predicate Holds(g: Gate, c: string) {
    exists k :: 0 <= k < |g.slots| && g.slots[k] == Slot(c, false)
  }

  ghost predicate GateOk(max: int, g: Gate) {
    && |g.active| <= max
    && (forall c :: c in g.active <==> Holds(g, c))
    && (forall i, j :: 0 <= i < j < |g.slots| && !g.slots[i].done && !g.slots[j].done ==>
          g.slots[i].capability != g.slots[j].capability)
  }

  /** A place is given exactly for a named capability that has none, while one is free. */
  lemma AcquireIsExact(maximum: int, g: Gate, c: string)
    ensures PollNext(Most(maximum), g, Acquire(c)) ==
            if |c| > 0 && c !in g.active && |g.active| < (if maximum < 1 then 1 else maximum) then
              Gate(g.active + {c}, g.slots + [Slot(c, false)])
            else g
  {
  }

  /** Releasing a slot that was given frees its place, once. */
  lemma ReleaseIsExact(max: int, g: Gate, k: nat)
    requires k < |g.slots|
    ensures PollNext(max, g, Release(k)) ==
            if g.slots[k].done then g
            else Gate(g.active - {g.slots[k].capability}, g.slots[k := Slot(g.slots[k].capability, true)])
  {
  }

  lemma PollsAppend(max: int, actions: seq<PollAction>, a: PollAction)
    ensures Polls(max, []) == Gate({}, []) && Polls(max, actions + [a]) == PollNext(max, Polls(max, actions), a)
  {
    assert (actions + [a])[..|actions|] == actions;
  }

  lemma HeldAfterAcquire(g: Gate, c: string, d: string)
    ensures Holds(Gate(g.active + {c}, g.slots + [Slot(c, false)]), d) <==> Holds(g, d) || d == c
  {
    var slots := g.slots + [Slot(c, false)];
    assert slots[|g.slots|] == Slot(c, false);
    if k :| 0 <= k < |g.slots| && g.slots[k] == Slot(d, false) {
      assert slots[k] == Slot(d, false);
    }
  }

  lemma AcquireKeepsGate(max: int, g: Gate, c: string)
    requires GateOk(max, g) && Opens(max, g.active, c)
    ensures GateOk(max, PollNext(max, g, Acquire(c)))
  {
    var g' := PollNext(max, g, Acquire(c));
    forall d
      ensures d in g'.active <==> Holds(g', d)
    {
      HeldAfterAcquire(g, c, d);
    }
    forall i | 0 <= i < |g.slots| && !g.slots[i].done
      ensures g.slots[i].capability != c
    {
      assert g.slots[i] == Slot(g.slots[i].capability, false);
      assert Holds(g, g.slots[i].capability);
    }
  }

  lemma ReleaseKeepsGate(max: int, g: Gate, k: nat)
    requires GateOk(max, g) && k < |g.slots| && !g.slots[k].done
    ensures GateOk(max, PollNext(max, g, Release(k)))
  {
    var g', c := PollNext(max, g, Release(k)), g.slots[k].capability;
    forall d
      ensures d in g'.active <==> Holds(g', d)
    {
      if d in g'.active {
        var i :| 0 <= i < |g.slots| && g.slots[i] == Slot(d, false);
        assert g'.slots[i] == Slot(d, false);
      }
      if Holds(g', d) {
        var i :| 0 <= i < |g'.slots| && g'.slots[i] == Slot(d, false);
        assert g.slots[i] == Slot(d, false);
      }
    }
  }

  /**
   * In every run the occupied places are those of the unreleased slots, at most one for a capability
   * and never more than the limit; a late second release cannot free a place someone else holds.
   */
  lemma {:induction false} GateIsExact(maximum: int, actions: seq<PollAction>)
    ensures GateOk(Most(maximum), Polls(Most(maximum), actions))
  {
    if |actions| > 0 {
      var g, a := Polls(Most(maximum), actions[..|actions| - 1]), actions[|actions| - 1];
      GateIsExact(maximum, actions[..|actions| - 1]);
      match a
      case Acquire(c) => if Opens(Most(maximum), g.active, c) { AcquireKeepsGate(Most(maximum), g, c); }
      case Release(k) => if k < |g.slots| && !g.slots[k].done { ReleaseKeepsGate(Most(maximum), g, k); }
    }
  }
}
