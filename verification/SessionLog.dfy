/**
 * The session store as a sequential object: a log of committed operations, what replaying the
 * log stores, and what holds of every legal log. Module `SessionStore` shows that every
 * concurrent run of the real store produces such a log.
 *
 * Clock readings are nanoseconds on the server's clock; stored expiries are milliseconds.
 */
module SessionLog {
  import opened Common
  import opened SessionModel

  const MAX_INT64: int := 0x7fff_ffff_ffff_ffff
  const DEFAULT_MAX_SESSIONS: int := 2048
  const DEFAULT_MAX_LIFETIME: int := 43_200_000_000_000 // 12 hours
  const MILLI: int := 1_000_000
  const SECOND: int := 1_000_000_000

  function Ms(t: int): int { t / MILLI }

  function Seconds(t: nat): nat { t / SECOND }

  /** Store configuration; durations are 64-bit counts of nanoseconds. */
  datatype Config = Config(ttl: int, maxSessions: int, maxLifetime: int) {
    function SessionLimit(): int {
      if maxSessions > 0 then maxSessions else DEFAULT_MAX_SESSIONS
    }

    function LifetimeMs(): int {
      (if maxLifetime > 0 then maxLifetime else DEFAULT_MAX_LIFETIME) / MILLI
    }

    /** The lease is at least one millisecond and both durations fit in 64 bits. */
    predicate Valid() {
      MILLI <= ttl <= MAX_INT64 && maxLifetime <= MAX_INT64
    }
  }

  /** Without a positive setting there are 2048 sessions, and they live for at most twelve hours. */
  lemma DefaultsApply(c: Config)
    ensures c.SessionLimit() == if c.maxSessions >= 1 then c.maxSessions else 2048
    ensures c.LifetimeMs() == if c.maxLifetime >= 1 then c.maxLifetime / 1_000_000 else 12 * 3600 * 1000
    ensures c.Valid() <==> 1_000_000 <= c.ttl < 0x8000_0000_0000_0000 && c.maxLifetime < 0x8000_0000_0000_0000
  {
  }

  /** The immutable deadline of a session created at second `created`, or None when it is unusable. */
  function AbsoluteExpiry(c: Config, created: int, now: nat): Option<int> {
    if created <= 0 || created > Seconds(now) then None
    else if c.LifetimeMs() < 1 || created > (MAX_INT64 - c.LifetimeMs()) / 1000 then None
    else if created * 1000 + c.LifetimeMs() <= Ms(now) then None
    else Some(created * 1000 + c.LifetimeMs())
  }

  function Min(a: int, b: int): int {
    if a <= b then a else b
  }

  /** The sliding lease, capped at the absolute deadline. */
  function RefreshExpiry(c: Config, created: int, now: nat): Option<int> {
    var absolute := AbsoluteExpiry(c, created, now);
    if absolute.None? || c.ttl <= 0 then None
    else
      var lease := Min(Ms(now + c.ttl), absolute.value);
      if lease <= Ms(now) then None else Some(lease)
  }

  /** The lease the creation script sets at script time `at`, given the deadline computed earlier. */
  function CreateExpiry(c: Config, deadline: int, at: nat): int {
    var ttlMs := if c.ttl / MILLI < 1 then 1 else c.ttl / MILLI;
    Min(Ms(at) + ttlMs, deadline)
  }

  /**
   * Deadline arithmetic: no intermediate value leaves the 64-bit range, the deadline does not
   * depend on when it is computed, and an accepted lease is strictly later than the time read
   * and never later than the deadline.
   */
  lemma LeaseWithinDeadline(c: Config, created: int, now: nat)
    requires c.Valid()
    ensures AbsoluteExpiry(c, created, now).Some? ==>
              && 0 < created * 1000 <= MAX_INT64
              && AbsoluteExpiry(c, created, now).value == created * 1000 + c.LifetimeMs()
              && Ms(now) < AbsoluteExpiry(c, created, now).value <= MAX_INT64
    ensures RefreshExpiry(c, created, now).Some? ==>
              && AbsoluteExpiry(c, created, now).Some?
              && Ms(now) < RefreshExpiry(c, created, now).value <= created * 1000 + c.LifetimeMs()
              && RefreshExpiry(c, created, now).value <= Ms(now + c.ttl)
    ensures RefreshExpiry(c, created, now).None? <==> AbsoluteExpiry(c, created, now).None?
  {
    assert Ms(now + c.ttl) >= Ms(now) + 1;
  }

  /** No lease is cut short: it is the whole configured time, or all that is left until the deadline. */
  lemma LeasesAreFull(c: Config, created: int, now: nat)
    requires c.Valid()
    ensures var expiry, whole := CreateExpiry(c, Deadline(c, created), now), Ms(now) + c.ttl / 1_000_000;
            expiry == if whole <= created * 1000 + c.LifetimeMs() then whole else created * 1000 + c.LifetimeMs()
    ensures RefreshExpiry(c, created, now).Some? ==>
              var whole := (now + c.ttl) / 1_000_000;
              RefreshExpiry(c, created, now).value ==
              if whole <= created * 1000 + c.LifetimeMs() then whole else created * 1000 + c.LifetimeMs()
    ensures RefreshExpiry(c, created, now).Some? <==>
              && 0 < created <= now / 1_000_000_000 && c.LifetimeMs() >= 1
              && created * 1000 + c.LifetimeMs() <= MAX_INT64 && now / 1_000_000 < created * 1000 + c.LifetimeMs()
  {
    LeaseWithinDeadline(c, created, now);
    DeadlineFits(created, c.LifetimeMs());
  }

  /** The guard against overflow is exact. */
  lemma DeadlineFits(created: int, lifetime: int)
    ensures created > (MAX_INT64 - lifetime) / 1000 <==> created * 1000 + lifetime > MAX_INT64
  {
  }

  datatype Commit =
    | Created(id: nat, code: string, verifier: Verifier, readAt: nat, at: nat)
    | Applied(id: nat, code: string, op: Op, wall: int, readAt: nat, reply: Reply, at: nat)
    | Removed(code: string, at: nat)

  /** What the store holds for one session: its value, its lease and when it was last written. */
  datatype Lease = Lease(session: Session, expiry: int, writtenAt: nat)

  type Store = map<string, Lease>

  predicate LiveIn(m: Store, code: string, t: nat) {
    code in m && Ms(t) < m[code].expiry
  }

  function Deadline(c: Config, created: int): int {
    created * 1000 + c.LifetimeMs()
  }

  /** One committed operation applied to the stored sessions. */
  function ReplayStep(c: Config, m: Store, x: Commit): Store {
    match x
    case Created(id, code, verifier, readAt, at) =>
      var session := FreshSession(code, verifier, Seconds(readAt));
      m[code := Lease(session, CreateExpiry(c, Deadline(c, Seconds(readAt)), at), at)]
    case Applied(id, code, op, wall, readAt, reply, at) =>
      if code in m && Mutate(op, wall, m[code].session).Done?
         && RefreshExpiry(c, m[code].session.created, readAt).Some? then
        var expiry := RefreshExpiry(c, m[code].session.created, readAt).value;
        m[code := Lease(Mutate(op, wall, m[code].session).session, expiry, at)]
      else m
    case Removed(code, at) => m - {code}
  }

  /** The committed operations applied one at a time, in commit order. */
  function Replay(c: Config, log: seq<Commit>): Store {
    if |log| == 0 then map[] else ReplayStep(c, Replay(c, log[..|log| - 1]), log[|log| - 1])
  }

  function LastTime(log: seq<Commit>): nat {
    if |log| == 0 then 0 else log[|log| - 1].at
  }

  /** A commit the sequential store accepts in state `m`, with the reply it records. */
  ghost predicate LegalCommit(c: Config, m: Store, x: Commit) {
    match x
    case Created(id, code, verifier, readAt, at) =>
      && verifier.Canonical? && readAt <= at && !LiveIn(m, code, at)
      && AbsoluteExpiry(c, Seconds(readAt), readAt).Some?
      && Ms(at) < CreateExpiry(c, Deadline(c, Seconds(readAt)), at)
    case Applied(id, code, op, wall, readAt, reply, at) =>
      && LiveIn(m, code, at) && m[code].writtenAt <= readAt <= at
      && RefreshExpiry(c, m[code].session.created, readAt).Some?
      && (op.ClaimReceiver? || op.ClaimSender? ==> op.verifier.Canonical?)
      && Mutate(op, wall, m[code].session).Done?
      && Mutate(op, wall, m[code].session).reply == reply
    case Removed(code, at) => true
  }

  ghost predicate Legal(c: Config, log: seq<Commit>) {
    |log| > 0 ==>
      var prefix, x := log[..|log| - 1], log[|log| - 1];
      Legal(c, prefix) && LastTime(prefix) <= x.at && LegalCommit(c, Replay(c, prefix), x)
  }

  lemma ReplayAppend(c: Config, log: seq<Commit>, x: Commit)
    ensures Replay(c, log + [x]) == ReplayStep(c, Replay(c, log), x)
    ensures LastTime(log + [x]) == x.at
    ensures Legal(c, log + [x]) <==>
              Legal(c, log) && LastTime(log) <= x.at && LegalCommit(c, Replay(c, log), x)
  {
    DropLastAppend(log, x);
  }

  /** What every stored session satisfies, whatever happened before. */
  ghost predicate StoredOk(c: Config, code: string, lease: Lease) {
    && lease.session.code == code
    && SessionOk(lease.session)
    && c.LifetimeMs() >= 1
    && 0 < lease.session.created <= Seconds(lease.writtenAt)
    && Deadline(c, lease.session.created) <= MAX_INT64
    && lease.expiry <= Deadline(c, lease.session.created)
    && lease.expiry <= Ms(lease.writtenAt + c.ttl)
  }

  /** A refresh never shortens a lease, and what it writes is still in the future at commit time. */
  lemma RefreshNeverShortens(c: Config, lease: Lease, readAt: nat, at: nat)
    requires c.Valid() && lease.writtenAt <= readAt <= at && Ms(at) < lease.expiry
    requires lease.expiry <= Deadline(c, lease.session.created)
    requires lease.expiry <= Ms(lease.writtenAt + c.ttl)
    requires RefreshExpiry(c, lease.session.created, readAt).Some?
    ensures Ms(at) < lease.expiry <= RefreshExpiry(c, lease.session.created, readAt).value
  {
    LeaseWithinDeadline(c, lease.session.created, readAt);
    assert Ms(lease.writtenAt + c.ttl) <= Ms(readAt + c.ttl);
  }

  /**
   * In every state reached by a legal log each stored session is well formed and its lease never
   * passes the absolute deadline, however often it was refreshed.
   */
  lemma {:induction false} StoredSessionsOk(c: Config, log: seq<Commit>, code: string)
    requires c.Valid() && Legal(c, log)
    requires code in Replay(c, log)
    ensures StoredOk(c, code, Replay(c, log)[code])
    ensures Replay(c, log)[code].writtenAt <= LastTime(log)
  {
    var prefix, x := log[..|log| - 1], log[|log| - 1];
    var m := Replay(c, prefix);
    if x.code == code && x.Created? {
      FreshSessionOk(code, x.verifier, Seconds(x.readAt));
      LeaseWithinDeadline(c, Seconds(x.readAt), x.readAt);
      assert Ms(x.at) + c.ttl / MILLI <= Ms(x.at + c.ttl);
    } else {
      StoredSessionsOk(c, prefix, code);
      if x.code == code && x.Applied? {
        MutateKeeps(x.op, x.wall, m[code].session);
        LeaseWithinDeadline(c, m[code].session.created, x.readAt);
        assert Ms(x.readAt + c.ttl) <= Ms(x.at + c.ttl);
      }
    }
  }

  /** No commit in `log` creates or removes `code`. */
  ghost predicate SameIncarnation(log: seq<Commit>, code: string) {
    forall i :: 0 <= i < |log| && log[i].code == code ==> log[i].Applied?
  }

  lemma CommitKeepsClaims(c: Config, log: seq<Commit>, x: Commit, code: string)
    requires c.Valid() && Legal(c, log + [x])
    requires code in Replay(c, log) && (x.code == code ==> x.Applied?)
    ensures Legal(c, log) && code in Replay(c, log + [x])
    ensures ClaimsKept(Replay(c, log)[code].session, Replay(c, log + [x])[code].session)
    ensures Replay(c, log)[code].expiry <= Replay(c, log + [x])[code].expiry
  {
    ReplayAppend(c, log, x);
    if x.code == code {
      StoredSessionsOk(c, log, code);
      var lease := Replay(c, log)[code];
      MutateKeeps(x.op, x.wall, lease.session);
      RefreshNeverShortens(c, lease, x.readAt, x.at);
    }
  }

  lemma ClaimsKeptTrans(a: Session, b: Session, d: Session)
    requires ClaimsKept(a, b) && ClaimsKept(b, d)
    ensures ClaimsKept(a, d)
  {
  }

  /**
   * Claims are final over whole runs: from any state, as long as a session is neither removed nor
   * created anew, its creation time, claims, role IDs and verifiers stay, and its lease only grows.
   */
  lemma {:induction false} ClaimsAreFinal(c: Config, before: seq<Commit>, after: seq<Commit>, code: string)
    requires c.Valid() && Legal(c, before + after)
    requires code in Replay(c, before) && SameIncarnation(after, code)
    ensures code in Replay(c, before + after)
    ensures ClaimsKept(Replay(c, before)[code].session, Replay(c, before + after)[code].session)
    ensures Replay(c, before)[code].expiry <= Replay(c, before + after)[code].expiry
    decreases |after|
  {
    if |after| == 0 {
      assert before + after == before;
    } else {
      var x, mid := after[|after| - 1], before + after[..|after| - 1];
      assert mid + [x] == before + after;
      ReplayAppend(c, mid, x);
      ClaimsAreFinal(c, before, after[..|after| - 1], code);
      CommitKeepsClaims(c, mid, x, code);
      ClaimsKeptTrans(Replay(c, before)[code].session, Replay(c, mid)[code].session,
                      Replay(c, mid + [x])[code].session);
    }
  }

  /** Messages committed to `role`'s queue since the session now stored was created, in order. */
  function Sent(log: seq<Commit>, code: string, role: Role): seq<Message> {
    if |log| == 0 then []
    else
      var rest, x := log[..|log| - 1], log[|log| - 1];
      if x.code != code then Sent(rest, code, role)
      else if !x.Applied? then []
      else if x.op.Enqueue? && x.op.source.Opposite() == role then Sent(rest, code, role) + [x.op.message]
      else Sent(rest, code, role)
  }

  /** Messages returned by `role`'s committed dequeues since the session was created, in order. */
  function Taken(log: seq<Commit>, code: string, role: Role): seq<Message> {
    if |log| == 0 then []
    else
      var rest, x := log[..|log| - 1], log[|log| - 1];
      if x.code != code then Taken(rest, code, role)
      else if !x.Applied? then []
      else if x.op.Dequeue? && x.op.role == role && x.reply.Delivered? then
        Taken(rest, code, role) + [x.reply.message]
      else Taken(rest, code, role)
  }

  /** How one successful mutation moves the queue of one role. */
  lemma MutateMovesQueue(op: Op, wall: int, s: Session, role: Role)
    requires Mutate(op, wall, s).Done?
    ensures var o := Mutate(op, wall, s);
            var queue, queue' := Queue(s.pending, role), Queue(o.session.pending, role);
            if op.Enqueue? && op.source.Opposite() == role then queue' == queue + [op.message]
            else if op.Dequeue? && op.role == role then
              |queue| > 0 && queue' == queue[1..] && o.reply == Delivered(queue[0])
            else queue' == queue
  {
  }

  /**
   * FIFO and exactly once: per session and role, the committed messages in order are exactly
   * those already returned followed by those still pending.
   */
  lemma {:induction false} QueuesAreFifo(c: Config, log: seq<Commit>, code: string, role: Role)
    requires c.Valid() && Legal(c, log)
    requires code in Replay(c, log)
    ensures Sent(log, code, role) ==
            Taken(log, code, role) + Queue(Replay(c, log)[code].session.pending, role)
  {
    var prefix, x := log[..|log| - 1], log[|log| - 1];
    if x.code != code || x.Applied? {
      QueuesAreFifo(c, prefix, code, role);
    }
    if x.code == code && x.Applied? {
      var before := Replay(c, prefix)[code].session;
      var queue, taken := Queue(before.pending, role), Taken(prefix, code, role);
      MutateMovesQueue(x.op, x.wall, before, role);
      if x.op.Enqueue? && x.op.source.Opposite() == role {
        assert taken + (queue + [x.op.message]) == (taken + queue) + [x.op.message];
      } else if x.op.Dequeue? && x.op.role == role {
        assert taken + queue == (taken + [queue[0]]) + queue[1..];
      }
    }
  }

  // ----- Who holds a role -----

  /**
   * The verifier that claimed `role` in the present incarnation of a session: for the sender that of
   * its creation, for the receiver that of the first receiver claim since.
   */
  function Claimant(log: seq<Commit>, code: string, role: Role): Option<Verifier> {
    if |log| == 0 then None
    else
      var rest, x := log[..|log| - 1], log[|log| - 1];
      if x.code != code then Claimant(rest, code, role)
      else
        match x
        case Created(_, _, verifier, _, _) => if role == Send then Some(verifier) else None
        case Removed(_, _) => None
        case Applied(_, _, op, _, _, _, _) =>
          var before := Claimant(rest, code, role);
          if before.None? && role == Recv && op.ClaimReceiver? then Some(op.verifier) else before
  }

  function VerifierOf(peer: Option<Peer>): Option<Verifier> {
    if peer.Some? then Some(peer.value.verifier) else None
  }

  /** The role in whose name an operation acts. */
  function Actor(op: Op): Role {
    match op
    case ClaimSender(_) => Send
    case ClaimReceiver(_) => Recv
    case StoreInfo(role, _, _) => role
    case Enqueue(source, _, _) => source
    case Dequeue(role, _) => role
    case RecordStats(role, _, _) => role
  }

  /** How a successful mutation moves the claim of a role, and with which verifier it acted. */
  lemma MutateMovesClaims(op: Op, wall: int, s: Session)
    requires SessionOk(s) && Mutate(op, wall, s).Done? && (op.ClaimReceiver? ==> op.verifier.Canonical?)
    ensures var s' := Mutate(op, wall, s).session;
            && VerifierOf(s'.sender) == VerifierOf(s.sender)
            && VerifierOf(s'.receiver) ==
               (if s.receiver.None? && op.ClaimReceiver? then Some(op.verifier) else VerifierOf(s.receiver))
            && op.verifier.Canonical?
            && VerifierOf(if Actor(op) == Send then s'.sender else s'.receiver) == Some(op.verifier)
  {
    match op
    case ClaimSender(v) => ClaimIsExact(s, v, wall);
    case ClaimReceiver(v) => ClaimIsExact(s, v, wall);
    case StoreInfo(role, v, info) => StoreInfoIsExact(s, role, v, info, wall);
    case Enqueue(source, v, message) => EnqueueIsExact(s, source, v, message, wall);
    case Dequeue(role, v) => DequeueIsExact(s, role, v, wall);
    case RecordStats(role, v, report) => RecordStatsIsExact(s, role, v, report, wall);
  }

  /** A stored session's peers are the claimants that the log names. */
  lemma {:induction false} StoredClaimants(c: Config, log: seq<Commit>, code: string)
    requires c.Valid() && Legal(c, log) && code in Replay(c, log)
    ensures Claimant(log, code, Send) == VerifierOf(Replay(c, log)[code].session.sender)
    ensures Claimant(log, code, Recv) == VerifierOf(Replay(c, log)[code].session.receiver)
  {
    var rest, x := log[..|log| - 1], log[|log| - 1];
    if x.code != code || x.Applied? {
      StoredClaimants(c, rest, code);
    }
    if x.code == code && x.Applied? {
      StoredSessionsOk(c, rest, code);
      MutateMovesClaims(x.op, x.wall, Replay(c, rest)[code].session);
    }
  }

  lemma {:induction false} LegalPrefix(c: Config, log: seq<Commit>, n: nat)
    requires Legal(c, log) && n <= |log|
    ensures Legal(c, log[..n])
    decreases |log|
  {
    if n < |log| {
      LegalPrefix(c, log[..|log| - 1], n);
      assert log[..|log| - 1][..n] == log[..n];
    } else {
      assert log[..n] == log;
    }
  }

  /**
   * Every committed operation acted with the canonical verifier that holds its role in that incarnation
   * of the session. Claims may be what gave it the role; every other operation found it claimed.
   */
  lemma OnlyClaimantsCommit(c: Config, log: seq<Commit>, i: nat)
    requires c.Valid() && Legal(c, log) && i < |log| && log[i].Applied?
    ensures var x := log[i];
            && x.op.verifier.Canonical?
            && Claimant(log[..i + 1], x.code, Actor(x.op)) == Some(x.op.verifier)
            && (!x.op.ClaimReceiver? ==> Claimant(log[..i], x.code, Actor(x.op)) == Some(x.op.verifier))
  {
    var before, x := log[..i], log[i];
    LegalPrefix(c, log, i + 1);
    assert log[..i + 1] == before + [x];
    ReplayAppend(c, before, x);
    StoredSessionsOk(c, before, x.code);
    StoredClaimants(c, before, x.code);
    StoredClaimants(c, before + [x], x.code);
    MutateMovesClaims(x.op, x.wall, Replay(c, before)[x.code].session);
  }
}
