/**
 * Many mailbox processes sharing sessions through one Redis server, as a state machine.
 *
 * A thread is one store operation. Each thread moves through the steps of its optimistic retry
 * loop (or of the creation and loading scripts); `Next` performs one step of one thread, a clock
 * tick or an operator's delete, and a run is any sequence of actions, so every interleaving,
 * retry, delete and expiry is a run.
 *
 * Assumptions about the server: a key is live while the clock in milliseconds is below its
 * expiry; WATCH aborts EXEC after any write, delete or expiry of the key; scripts and MULTI
 * blocks are atomic; a committed result reaches its caller.
 */
module SessionStore {
  import opened Common
  import opened SessionModel
  import opened SessionLog

  datatype Entry = Entry(session: Session, version: nat, expiry: int)

  /** The server: clock (nanoseconds), keys with versions, and the capacity index. */
  datatype Redis = Redis(now: nat, db: map<string, Entry>, index: map<string, int>, stamp: nat)

  predicate Live(r: Redis, code: string) {
    code in r.db && Ms(r.now) < r.db[code].expiry
  }

  /** Where a thread is. `entry` is what WATCH and GET saw. */
  datatype Thread =
    | SenderTimed(code: string, verifier: Verifier, readAt: nat)
    | Watching(code: string, op: Op)
    | Loaded(code: string, op: Op, entry: Entry)
    | Ready(code: string, op: Op, entry: Entry, wall: int, readAt: nat, lease: int, updated: Session, reply: Reply)
    | Doomed(code: string, op: Op, entry: Entry, readAt: nat)
    | LoadRead(code: string, session: Session)
    | Stale(code: string, session: Session, readAt: nat)
    | LoadDone(loaded: Result<Session, Error>)
    | Finished(code: string, op: Op, result: Result<Reply, Error>)

  datatype Sys = Sys(redis: Redis, threads: map<nat, Thread>, log: seq<Commit>)

  datatype Action =
    | Tick(elapsed: nat)
    | StartSender(id: nat, code: string, verifier: Verifier)
    | CreateScript(id: nat)
    | Start(id: nat, code: string, op: Op)
    | Watch(id: nat)
    | Compute(id: nat, wall: int)
    | Exec(id: nat)
    | Cancel(id: nat)
    | StartLoad(id: nat, code: string)
    | LoadTime(id: nat)
    | RemoveStale(id: nat)
    | Delete(code: string)

  const INIT := Sys(Redis(0, map[], map[], 0), map[], [])

  /** The error a caller sees; authenticated operations hide whether the session exists. */
  function Surface(op: Op, e: Error): Error {
    match op
    case ClaimSender(_) => e
    case ClaimReceiver(_) => if e == SessionNotFound then Unavailable else e
    case _ => if e == SessionNotFound || e == Unavailable then Authentication else e
  }

  function Put(s: Sys, id: nat, t: Thread): Sys {
    s.(threads := s.threads[id := t])
  }

  function Fail(s: Sys, id: nat, code: string, op: Op, e: Error): Sys {
    Put(s, id, Finished(code, op, Err(Surface(op, e))))
  }

  /** ZREMRANGEBYSCORE: drops index entries that are no longer in the future. */
  function Purge(r: Redis): map<string, int> {
    map code | code in r.index && Ms(r.now) < r.index[code] :: r.index[code]
  }

  function Write(r: Redis, code: string, session: Session, expiry: int): Redis {
    r.(db := r.db[code := Entry(session, r.stamp, expiry)],
       index := r.index[code := expiry],
       stamp := r.stamp + 1)
  }

  function Drop(r: Redis, code: string): Redis {
    r.(db := r.db - {code}, index := r.index - {code})
  }

  function DoStartSender(c: Config, s: Sys, id: nat, code: string, verifier: Verifier): Sys {
    if id in s.threads then s
    else if verifier.Malformed? || AbsoluteExpiry(c, Seconds(s.redis.now), s.redis.now).None? then
      Fail(s, id, code, ClaimSender(verifier), Unavailable)
    else Put(s, id, SenderTimed(code, verifier, s.redis.now))
  }

  /** The creation script: refuse, report an existing key, or reserve capacity and create. */
  function DoCreateScript(c: Config, s: Sys, id: nat): Sys {
    if id !in s.threads || !s.threads[id].SenderTimed? then s
    else
      var t, r := s.threads[id], s.redis;
      if Live(r, t.code) then Put(s, id, Watching(t.code, ClaimSender(t.verifier)))
      else
        var purged := s.(redis := r.(index := Purge(r)));
        var expiry := CreateExpiry(c, Deadline(c, Seconds(t.readAt)), r.now);
        if |Purge(r)| >= c.SessionLimit() then Fail(purged, id, t.code, ClaimSender(t.verifier), Capacity)
        else if expiry - Ms(r.now) < 1 then Fail(purged, id, t.code, ClaimSender(t.verifier), Unavailable)
        else
          var session := FreshSession(t.code, t.verifier, Seconds(t.readAt));
          Sys(Write(purged.redis, t.code, session, expiry),
              s.threads[id := Finished(t.code, ClaimSender(t.verifier), Ok(Ack))],
              s.log + [Created(id, t.code, t.verifier, t.readAt, r.now)])
  }

  function DoStart(s: Sys, id: nat, code: string, op: Op): Sys {
    if id in s.threads || op.ClaimSender? then s
    else if op.ClaimReceiver? && op.verifier.Malformed? then Fail(s, id, code, op, Unavailable)
    else Put(s, id, Watching(code, op))
  }

  function DoWatch(s: Sys, id: nat): Sys {
    if id !in s.threads || !s.threads[id].Watching? then s
    else
      var t := s.threads[id];
      if Live(s.redis, t.code) then Put(s, id, Loaded(t.code, t.op, s.redis.db[t.code]))
      else Fail(s, id, t.code, t.op, SessionNotFound)
  }

  /** Reads the clock, checks the lease and applies the mutator to the value read. */
  function DoCompute(c: Config, s: Sys, id: nat, wall: int): Sys {
    if id !in s.threads || !s.threads[id].Loaded? then s
    else
      var t := s.threads[id];
      var lease := RefreshExpiry(c, t.entry.session.created, s.redis.now);
      if t.entry.session.code != t.code || lease.None? then
        Put(s, id, Doomed(t.code, t.op, t.entry, s.redis.now))
      else
        match Mutate(t.op, wall, t.entry.session)
        case Failed(NoPending) => Put(s, id, Watching(t.code, t.op))
        case Failed(e) => Fail(s, id, t.code, t.op, e)
        case Done(updated, reply) =>
          Put(s, id, Ready(t.code, t.op, t.entry, wall, s.redis.now, lease.value, updated, reply))
  }

  predicate Unchanged(r: Redis, code: string, seen: Entry) {
    Live(r, code) && r.db[code].version == seen.version
  }

  /** EXEC: commits if the watched key is unchanged, otherwise the thread retries. */
  function DoExec(s: Sys, id: nat): Sys {
    if id !in s.threads || !(s.threads[id].Ready? || s.threads[id].Doomed?) then s
    else
      var t := s.threads[id];
      if !Unchanged(s.redis, t.code, t.entry) then Put(s, id, Watching(t.code, t.op))
      else if t.Doomed? then
        Fail(s, id, t.code, t.op, SessionNotFound)
          .(redis := Drop(s.redis, t.code), log := s.log + [Removed(t.code, s.redis.now)])
      else
        Sys(Write(s.redis, t.code, t.updated, t.lease),
            s.threads[id := Finished(t.code, t.op, Ok(t.reply))],
            s.log + [Applied(id, t.code, t.op, t.wall, t.readAt, t.reply, s.redis.now)])
  }

  function DoCancel(s: Sys, id: nat): Sys {
    if id !in s.threads then s
    else
      match s.threads[id]
      case SenderTimed(code, v, _) => Fail(s, id, code, ClaimSender(v), Cancelled)
      case Watching(code, op) => Fail(s, id, code, op, Cancelled)
      case Loaded(code, op, _) => Fail(s, id, code, op, Cancelled)
      case Ready(code, op, _, _, _, _, _, _) => Fail(s, id, code, op, Cancelled)
      case Doomed(code, op, _, _) => Fail(s, id, code, op, Cancelled)
      case LoadRead(_, _) => Put(s, id, LoadDone(Err(Cancelled)))
      case Stale(_, _, _) => Put(s, id, LoadDone(Err(Cancelled)))
      case _ => s
  }

  function DoStartLoad(s: Sys, id: nat, code: string): Sys {
    if id in s.threads then s
    else if Live(s.redis, code) then Put(s, id, LoadRead(code, s.redis.db[code].session))
    else Put(s, id, LoadDone(Err(SessionNotFound)))
  }

  function DoLoadTime(c: Config, s: Sys, id: nat): Sys {
    if id !in s.threads || !s.threads[id].LoadRead? then s
    else
      var t := s.threads[id];
      if t.session.code != t.code || AbsoluteExpiry(c, t.session.created, s.redis.now).None? then
        Put(s, id, Stale(t.code, t.session, s.redis.now))
      else Put(s, id, LoadDone(Ok(t.session)))
  }

  /** The delete-if-value script. */
  function DoRemoveStale(s: Sys, id: nat): Sys {
    if id !in s.threads || !s.threads[id].Stale? then s
    else
      var t := s.threads[id];
      var done := Put(s, id, LoadDone(Err(SessionNotFound)));
      if Live(s.redis, t.code) && s.redis.db[t.code].session == t.session then
        done.(redis := Drop(s.redis, t.code), log := s.log + [Removed(t.code, s.redis.now)])
      else done
  }

  function Next(c: Config, s: Sys, a: Action): Sys {
    match a
    case Tick(elapsed) => s.(redis := s.redis.(now := s.redis.now + elapsed))
    case StartSender(id, code, verifier) => DoStartSender(c, s, id, code, verifier)
    case CreateScript(id) => DoCreateScript(c, s, id)
    case Start(id, code, op) => DoStart(s, id, code, op)
    case Watch(id) => DoWatch(s, id)
    case Compute(id, wall) => DoCompute(c, s, id, wall)
    case Exec(id) => DoExec(s, id)
    case Cancel(id) => DoCancel(s, id)
    case StartLoad(id, code) => DoStartLoad(s, id, code)
    case LoadTime(id) => DoLoadTime(c, s, id)
    case RemoveStale(id) => DoRemoveStale(s, id)
    case Delete(code) =>
      s.(redis := Drop(s.redis, code), log := s.log + [Removed(code, s.redis.now)])
  }

  function Run(c: Config, actions: seq<Action>): Sys {
    if |actions| == 0 then INIT
    else Next(c, Run(c, actions[..|actions| - 1]), actions[|actions| - 1])
  }

  // ----- Invariant -----

  /** The server's keys are exactly the stored leases `m`. */
  ghost predicate Matches(r: Redis, m: Store) {
    && r.db.Keys == m.Keys
    && (forall code :: code in r.db ==>
          && r.db[code].session == m[code].session
          && r.db[code].expiry == m[code].expiry
          && r.db[code].version < r.stamp)
  }

  /** Index entries in the future are exactly the live keys, with their exact expiries. */
  ghost predicate IndexAgrees(r: Redis) {
    && (forall code :: code in r.index && Ms(r.now) < r.index[code] ==> Live(r, code))
    && (forall code :: Live(r, code) ==> code in r.index && r.index[code] == r.db[code].expiry)
  }

  function CommitsOf(log: seq<Commit>, id: nat): seq<Commit> {
    if |log| == 0 then []
    else
      var rest, x := CommitsOf(log[..|log| - 1], id), log[|log| - 1];
      if !x.Removed? && x.id == id then rest + [x] else rest
  }

  /** A version seen by a thread identifies the value and lease it saw. */
  ghost predicate Seen(r: Redis, code: string, entry: Entry) {
    && entry.version < r.stamp
    && (code in r.db && r.db[code].version == entry.version ==> r.db[code] == entry)
  }

  ghost predicate ReadAfterWrite(r: Redis, m: Store, code: string, entry: Entry, readAt: nat) {
    && readAt <= r.now
    && (code in m && code in r.db && r.db[code].version == entry.version ==> m[code].writtenAt <= readAt)
  }

  predicate ClaimsCanonical(op: Op) {
    op.ClaimReceiver? || op.ClaimSender? ==> op.verifier.Canonical?
  }

  ghost predicate ThreadOk(c: Config, r: Redis, m: Store, t: Thread) {
    match t
    case SenderTimed(code, verifier, readAt) =>
      verifier.Canonical? && readAt <= r.now && AbsoluteExpiry(c, Seconds(readAt), readAt).Some?
    case Watching(code, op) => ClaimsCanonical(op)
    case Loaded(code, op, entry) => ClaimsCanonical(op) && Seen(r, code, entry)
    case Ready(code, op, entry, wall, readAt, lease, updated, reply) =>
      && ClaimsCanonical(op) && Seen(r, code, entry) && ReadAfterWrite(r, m, code, entry, readAt)
      && RefreshExpiry(c, entry.session.created, readAt) == Some(lease)
      && Mutate(op, wall, entry.session) == Done(updated, reply)
    case Doomed(code, op, entry, readAt) =>
      && ClaimsCanonical(op) && Seen(r, code, entry) && ReadAfterWrite(r, m, code, entry, readAt)
      && (entry.session.code != code || RefreshExpiry(c, entry.session.created, readAt).None?)
    case LoadRead(code, session) => session.created <= Seconds(r.now)
    case Stale(code, session, readAt) =>
      && readAt <= r.now
      && (session.code != code || AbsoluteExpiry(c, session.created, readAt).None?)
      && session.created <= Seconds(readAt)
    case LoadDone(_) => true
    case Finished(_, _, _) => true
  }

  /** An operation that reports success committed exactly once, with that reply; any other not at all. */
  ghost predicate ResultOk(log: seq<Commit>, id: nat, t: Thread) {
    if t.Finished? && t.result.Ok? then
      exists x :: CommitsOf(log, id) == [x] && !x.Removed? && x.code == t.code
        && (x.Applied? ==> x.op == t.op && x.reply == t.result.value)
        && (x.Created? ==> t.op == ClaimSender(x.verifier) && t.result.value == Ack)
    else CommitsOf(log, id) == []
  }

  ghost predicate ServerOk(c: Config, r: Redis, log: seq<Commit>) {
    && Legal(c, log) && LastTime(log) <= r.now
    && Matches(r, Replay(c, log))
    && IndexAgrees(r) && |r.index| <= c.SessionLimit()
  }

  ghost predicate ThreadsOk(c: Config, r: Redis, m: Store, threads: map<nat, Thread>) {
    forall id :: id in threads ==> ThreadOk(c, r, m, threads[id])
  }

  ghost predicate ResultsOk(log: seq<Commit>, threads: map<nat, Thread>) {
    && (forall id :: id in threads ==> ResultOk(log, id, threads[id]))
    && (forall id :: id !in threads ==> CommitsOf(log, id) == [])
  }

  ghost predicate Inv(c: Config, s: Sys) {
    && ServerOk(c, s.redis, s.log)
    && ThreadsOk(c, s.redis, Replay(c, s.log), s.threads)
    && ResultsOk(s.log, s.threads)
  }

  // ----- Preservation -----

  /** What one step may do to the server and the log as seen by threads that did not move. */
  ghost predicate Later(r: Redis, m: Store, r': Redis, m': Store) {
    && r.now <= r'.now && r.stamp <= r'.stamp
    && (forall code :: code in r'.db && r'.db[code].version < r.stamp ==>
          && code in r.db && r'.db[code] == r.db[code]
          && (code in m' ==> code in m && m'[code].writtenAt == m[code].writtenAt))
  }

  lemma ThreadFrame(c: Config, r: Redis, m: Store, r': Redis, m': Store, t: Thread)
    requires Later(r, m, r', m') && ThreadOk(c, r, m, t)
    ensures ThreadOk(c, r', m', t)
  {
  }

  lemma CommitsAppend(log: seq<Commit>, x: Commit, id: nat)
    ensures CommitsOf(log + [x], id) ==
            if !x.Removed? && x.id == id then CommitsOf(log, id) + [x] else CommitsOf(log, id)
  {
    DropLastAppend(log, x);
  }

  lemma ThreadsFrame(c: Config, r: Redis, m: Store, r': Redis, m': Store, threads: map<nat, Thread>)
    requires Later(r, m, r', m') && ThreadsOk(c, r, m, threads)
    ensures ThreadsOk(c, r', m', threads)
  {
    forall id | id in threads
      ensures ThreadOk(c, r', m', threads[id])
    {
      ThreadFrame(c, r, m, r', m', threads[id]);
    }
  }

  ghost predicate Succeeded(t: Thread) {
    t.Finished? && t.result.Ok?
  }

  /** A step that moves one thread, and perhaps the index, without committing anything. */
  lemma QuietStep(c: Config, s: Sys, s': Sys, id: nat, t: Thread)
    requires Inv(c, s)
    requires s' == Sys(s.redis.(index := s'.redis.index), s.threads[id := t], s.log)
    requires s'.redis.index == s.redis.index || (IndexAgrees(s'.redis) && |s'.redis.index| <= c.SessionLimit())
    requires ThreadOk(c, s.redis, Replay(c, s.log), t) && !Succeeded(t)
    requires id in s.threads ==> !Succeeded(s.threads[id])
    ensures Inv(c, s')
  {
    var m := Replay(c, s.log);
    ThreadsFrame(c, s.redis, m, s'.redis, m, s.threads);
    ThreadFrame(c, s.redis, m, s'.redis, m, t);
  }

  lemma WriteAgrees(r: Redis, index: map<string, int>, code: string, session: Session, expiry: int)
    requires IndexAgrees(r.(index := index)) && Ms(r.now) < expiry
    ensures IndexAgrees(Write(r.(index := index), code, session, expiry))
  {
  }

  /** The server side of a commit: one key is written with a fresh version. */
  lemma WriteMatches(r: Redis, m: Store, index: map<string, int>, code: string, session: Session, expiry: int)
    requires Matches(r, m)
    ensures var r', m' := Write(r.(index := index), code, session, expiry), m[code := Lease(session, expiry, r.now)];
            Matches(r', m') && Later(r, m, r', m')
  {
  }

  /** A legal commit that writes one key keeps the whole invariant. */
  lemma CommitStep(c: Config, s: Sys, index: map<string, int>, id: nat, t: Thread,
                   session: Session, expiry: int, x: Commit)
    requires Inv(c, s)
    requires IndexAgrees(s.redis.(index := index))
    requires |index| < c.SessionLimit() || (x.code in index && |index| <= c.SessionLimit())
    requires !x.Removed? && x.id == id && Ms(s.redis.now) < expiry
    requires Legal(c, s.log + [x]) && LastTime(s.log + [x]) == s.redis.now
    requires Replay(c, s.log + [x]) == Replay(c, s.log)[x.code := Lease(session, expiry, s.redis.now)]
    requires id in s.threads && !Succeeded(s.threads[id]) && t.Finished? && ResultOk([x], id, t)
    ensures Inv(c, Sys(Write(s.redis.(index := index), x.code, session, expiry), s.threads[id := t], s.log + [x]))
  {
    var m, r' := Replay(c, s.log), Write(s.redis.(index := index), x.code, session, expiry);
    WriteMatches(s.redis, m, index, x.code, session, expiry);
    WriteAgrees(s.redis, index, x.code, session, expiry);
    ThreadsFrame(c, s.redis, m, r', Replay(c, s.log + [x]), s.threads);
    CommitKeepsResults(s.log, s.threads, id, t, x);
    CommitInv(c, r', s.log + [x], s.threads, id, t);
  }

  lemma CommitInv(c: Config, r: Redis, log: seq<Commit>, threads: map<nat, Thread>, id: nat, t: Thread)
    requires ServerOk(c, r, log) && ThreadsOk(c, r, Replay(c, log), threads) && t.Finished?
    requires ResultsOk(log, threads[id := t])
    ensures Inv(c, Sys(r, threads[id := t], log))
  {
  }

  lemma DropShrinks(index: map<string, int>, code: string)
    ensures |index - {code}| <= |index|
  {
    var smaller := index - {code};
    assert smaller.Keys == index.Keys - {code};
    SubsetSize(smaller.Keys, index.Keys);
    assert |smaller| == |smaller.Keys| && |index| == |index.Keys|;
  }

  lemma DropKeepsServer(r: Redis, m: Store, code: string)
    requires Matches(r, m) && IndexAgrees(r)
    ensures var r', m' := Drop(r, code), m - {code};
            Matches(r', m') && IndexAgrees(r') && Later(r, m, r', m')
  {
  }

  lemma ResultFrame(log: seq<Commit>, log': seq<Commit>, id: nat, t: Thread)
    requires CommitsOf(log', id) == CommitsOf(log, id) && ResultOk(log, id, t)
    ensures ResultOk(log', id, t)
  {
  }

  /** One thread's result after a commit. */
  lemma CommitKeepsResult(log: seq<Commit>, threads: map<nat, Thread>, id: nat, t: Thread, x: Commit, i: nat)
    requires ResultsOk(log, threads)
    requires id in threads && !Succeeded(threads[id])
    requires !x.Removed? && x.id == id && ResultOk([x], id, t)
    ensures if i == id then ResultOk(log + [x], i, t)
            else if i in threads then ResultOk(log + [x], i, threads[i])
            else CommitsOf(log + [x], i) == []
  {
    CommitsAppend(log, x, i);
    if i == id {
      SingleCommit(id, x);
      assert CommitsOf(log, id) == [];
      assert [] + [x] == [x];
      ResultFrame([x], log + [x], id, t);
    } else if i in threads {
      ResultFrame(log, log + [x], i, threads[i]);
    }
  }

  /** The bookkeeping side of a commit: only thread `id` gains a commit. */
  lemma CommitKeepsResults(log: seq<Commit>, threads: map<nat, Thread>, id: nat, t: Thread, x: Commit)
    requires ResultsOk(log, threads)
    requires id in threads && !Succeeded(threads[id])
    requires !x.Removed? && x.id == id && ResultOk([x], id, t)
    ensures ResultsOk(log + [x], threads[id := t])
  {
    var threads' := threads[id := t];
    forall i | i in threads'
      ensures ResultOk(log + [x], i, threads'[i])
    {
      CommitKeepsResult(log, threads, id, t, x, i);
    }
    forall i: nat | i !in threads'
      ensures CommitsOf(log + [x], i) == []
    {
      CommitKeepsResult(log, threads, id, t, x, i);
    }
  }

  lemma SingleCommit(id: nat, x: Commit)
    requires !x.Removed? && x.id == id
    ensures CommitsOf([x], id) == [x]
  {
    CommitsAppend([], x, id);
    assert [] + [x] == [x];
  }

  /** Deleting a key, whoever asks for it. */
  lemma DeleteStep(c: Config, s: Sys, code: string)
    requires Inv(c, s)
    ensures Inv(c, s.(redis := Drop(s.redis, code), log := s.log + [Removed(code, s.redis.now)]))
  {
    var log', m := s.log + [Removed(code, s.redis.now)], Replay(c, s.log);
    ReplayAppend(c, s.log, Removed(code, s.redis.now));
    DropKeepsServer(s.redis, m, code);
    DropShrinks(s.redis.index, code);
    ThreadsFrame(c, s.redis, m, Drop(s.redis, code), m - {code}, s.threads);
    forall i ensures CommitsOf(log', i) == CommitsOf(s.log, i) {
      CommitsAppend(s.log, Removed(code, s.redis.now), i);
    }
  }

  lemma StoredEntryOk(c: Config, s: Sys, code: string)
    requires c.Valid() && Inv(c, s) && code in s.redis.db
    ensures StoredOk(c, code, Replay(c, s.log)[code])
    ensures Replay(c, s.log)[code].writtenAt <= s.redis.now
  {
    StoredSessionsOk(c, s.log, code);
  }

  lemma TickStep(c: Config, s: Sys, elapsed: nat)
    requires Inv(c, s)
    ensures Inv(c, Next(c, s, Tick(elapsed)))
  {
    var s' := Next(c, s, Tick(elapsed));
    assert Ms(s.redis.now) <= Ms(s'.redis.now);
    assert IndexAgrees(s'.redis);
    ThreadsFrame(c, s.redis, Replay(c, s.log), s'.redis, Replay(c, s.log), s.threads);
  }

  /** The codes whose sessions are live. */
  ghost function LiveCodes(r: Redis): set<string> {
    set code | code in r.db && Live(r, code)
  }

  /** After a purge the index holds exactly the live sessions. */
  lemma PurgeIsExact(c: Config, r: Redis, log: seq<Commit>)
    requires ServerOk(c, r, log)
    ensures IndexAgrees(r.(index := Purge(r)))
    ensures Purge(r).Keys == LiveCodes(r)
    ensures |Purge(r)| == |LiveCodes(r)| <= c.SessionLimit()
  {
    assert Purge(r).Keys == LiveCodes(r);
    SubsetSize(Purge(r).Keys, r.index.Keys);
    assert |Purge(r)| == |Purge(r).Keys| && |r.index| == |r.index.Keys|;
  }

  /** The creation script's successful branch commits a legal creation. */
  lemma CreateIsLegal(c: Config, s: Sys, id: nat, x: Commit)
    requires c.Valid() && Inv(c, s) && x.Created?
    requires id in s.threads && s.threads[id] == SenderTimed(x.code, x.verifier, x.readAt) && x.at == s.redis.now
    requires !Live(s.redis, x.code)
    requires Ms(x.at) < CreateExpiry(c, Deadline(c, Seconds(x.readAt)), x.at)
    ensures Legal(c, s.log + [x]) && LastTime(s.log + [x]) == s.redis.now
    ensures Replay(c, s.log + [x]) ==
            Replay(c, s.log)[x.code := Lease(FreshSession(x.code, x.verifier, Seconds(x.readAt)),
                                             CreateExpiry(c, Deadline(c, Seconds(x.readAt)), x.at), x.at)]
  {
    ReplayAppend(c, s.log, x);
    assert ThreadOk(c, s.redis, Replay(c, s.log), s.threads[id]);
    assert !LiveIn(Replay(c, s.log), x.code, x.at);
  }

  lemma CreatedResult(id: nat, x: Commit)
    requires x.Created? && x.id == id
    ensures ResultOk([x], id, Finished(x.code, ClaimSender(x.verifier), Ok(Ack)))
  {
    SingleCommit(id, x);
  }

  /** What the script does when there is room and time left. */
  lemma CreateWrites(c: Config, s: Sys, id: nat, code: string, verifier: Verifier, readAt: nat)
    requires id in s.threads && s.threads[id] == SenderTimed(code, verifier, readAt)
    requires !Live(s.redis, code) && |Purge(s.redis)| < c.SessionLimit()
    requires Ms(s.redis.now) < CreateExpiry(c, Deadline(c, Seconds(readAt)), s.redis.now)
    ensures DoCreateScript(c, s, id) ==
            Sys(Write(s.redis.(index := Purge(s.redis)), code, FreshSession(code, verifier, Seconds(readAt)),
                      CreateExpiry(c, Deadline(c, Seconds(readAt)), s.redis.now)),
                s.threads[id := Finished(code, ClaimSender(verifier), Ok(Ack))],
                s.log + [Created(id, code, verifier, readAt, s.redis.now)])
  {
  }

  lemma CreateCommits(c: Config, s: Sys, id: nat, code: string, verifier: Verifier, readAt: nat)
    requires c.Valid() && Inv(c, s)
    requires id in s.threads && s.threads[id] == SenderTimed(code, verifier, readAt)
    requires !Live(s.redis, code) && |Purge(s.redis)| < c.SessionLimit()
    requires Ms(s.redis.now) < CreateExpiry(c, Deadline(c, Seconds(readAt)), s.redis.now)
    ensures Inv(c, DoCreateScript(c, s, id))
  {
    var r := s.redis;
    var x := Created(id, code, verifier, readAt, r.now);
    CreateIsLegal(c, s, id, x);
    PurgeIsExact(c, r, s.log);
    CreatedResult(id, x);
    CreateWrites(c, s, id, code, verifier, readAt);
    CommitStep(c, s, Purge(r), id, Finished(code, ClaimSender(verifier), Ok(Ack)),
               FreshSession(code, verifier, Seconds(readAt)),
               CreateExpiry(c, Deadline(c, Seconds(readAt)), r.now), x);
  }

  lemma CreateStep(c: Config, s: Sys, id: nat)
    requires c.Valid() && Inv(c, s)
    ensures Inv(c, DoCreateScript(c, s, id))
  {
    if id in s.threads && s.threads[id].SenderTimed? {
      var t, s' := s.threads[id], DoCreateScript(c, s, id);
      assert ThreadOk(c, s.redis, Replay(c, s.log), t);
      if !Live(s.redis, t.code) && |Purge(s.redis)| < c.SessionLimit()
         && Ms(s.redis.now) < CreateExpiry(c, Deadline(c, Seconds(t.readAt)), s.redis.now) {
        CreateCommits(c, s, id, t.code, t.verifier, t.readAt);
      } else {
        PurgeIsExact(c, s.redis, s.log);
        QuietStep(c, s, s', id, s'.threads[id]);
      }
    }
  }

  /** What a watched thread knows when its key is unchanged at EXEC time. */
  lemma UnchangedMeansCurrent(c: Config, s: Sys, id: nat)
    requires c.Valid() && Inv(c, s) && id in s.threads
    requires s.threads[id].Ready? || s.threads[id].Doomed?
    requires Unchanged(s.redis, s.threads[id].code, s.threads[id].entry)
    ensures var t, m := s.threads[id], Replay(c, s.log);
            && t.code in m && m[t.code].session == t.entry.session && m[t.code].expiry == t.entry.expiry
            && Ms(s.redis.now) < t.entry.expiry
            && m[t.code].writtenAt <= t.readAt <= s.redis.now
            && StoredOk(c, t.code, m[t.code])
  {
    var t := s.threads[id];
    StoredEntryOk(c, s, t.code);
    assert ThreadOk(c, s.redis, Replay(c, s.log), t);
  }

  lemma ExecReadyStep(c: Config, s: Sys, id: nat)
    requires c.Valid() && Inv(c, s) && id in s.threads && s.threads[id].Ready?
    requires Unchanged(s.redis, s.threads[id].code, s.threads[id].entry)
    ensures Inv(c, DoExec(s, id))
  {
    var t, m, r := s.threads[id], Replay(c, s.log), s.redis;
    var s' := DoExec(s, id);
    UnchangedMeansCurrent(c, s, id);
    RefreshNeverShortens(c, m[t.code], t.readAt, r.now);
    var x := Applied(id, t.code, t.op, t.wall, t.readAt, t.reply, r.now);
    assert ThreadOk(c, r, m, t);
    assert LegalCommit(c, m, x);
    SingleCommit(id, x);
    ReplayAppend(c, s.log, x);
    CommitStep(c, s, r.index, id, s'.threads[id], t.updated, t.lease, x);
  }

  /** The housekeeping delete of the retry loop never finds its key unchanged. */
  lemma DoomedNeverCommits(c: Config, s: Sys, id: nat)
    requires c.Valid() && Inv(c, s) && id in s.threads && s.threads[id].Doomed?
    ensures !Unchanged(s.redis, s.threads[id].code, s.threads[id].entry)
  {
    if Unchanged(s.redis, s.threads[id].code, s.threads[id].entry) {
      var t, m := s.threads[id], Replay(c, s.log);
      UnchangedMeansCurrent(c, s, id);
      LeaseWithinDeadline(c, t.entry.session.created, t.readAt);
      assert false;
    }
  }

  lemma ExecStep(c: Config, s: Sys, id: nat)
    requires c.Valid() && Inv(c, s)
    ensures Inv(c, DoExec(s, id))
  {
    if id in s.threads && (s.threads[id].Ready? || s.threads[id].Doomed?) {
      if !Unchanged(s.redis, s.threads[id].code, s.threads[id].entry) {
        QuietStep(c, s, DoExec(s, id), id, DoExec(s, id).threads[id]);
      } else if s.threads[id].Doomed? {
        DoomedNeverCommits(c, s, id);
      } else {
        ExecReadyStep(c, s, id);
      }
    }
  }

  lemma WatchStep(c: Config, s: Sys, id: nat)
    requires c.Valid() && Inv(c, s)
    ensures Inv(c, DoWatch(s, id))
  {
    if id in s.threads && s.threads[id].Watching? {
      QuietStep(c, s, DoWatch(s, id), id, DoWatch(s, id).threads[id]);
    }
  }

  /** The thread a compute step leaves behind satisfies its invariant. */
  lemma ComputedThreadOk(c: Config, s: Sys, m: Store, id: nat, wall: int)
    requires id in s.threads && s.threads[id].Loaded? && ThreadOk(c, s.redis, m, s.threads[id])
    requires forall code :: code in m ==> m[code].writtenAt <= s.redis.now
    ensures var s' := DoCompute(c, s, id, wall);
            && id in s'.threads && !Succeeded(s'.threads[id])
            && s' == Put(s, id, s'.threads[id])
            && ThreadOk(c, s.redis, m, s'.threads[id])
  {
  }

  lemma ComputeStep(c: Config, s: Sys, id: nat, wall: int)
    requires c.Valid() && Inv(c, s)
    ensures Inv(c, DoCompute(c, s, id, wall))
  {
    if id in s.threads && s.threads[id].Loaded? {
      forall code | code in Replay(c, s.log)
        ensures Replay(c, s.log)[code].writtenAt <= s.redis.now
      {
        StoredSessionsOk(c, s.log, code);
      }
      ComputedThreadOk(c, s, Replay(c, s.log), id, wall);
      QuietStep(c, s, DoCompute(c, s, id, wall), id, DoCompute(c, s, id, wall).threads[id]);
    }
  }

  lemma StartLoadStep(c: Config, s: Sys, id: nat, code: string)
    requires c.Valid() && Inv(c, s)
    ensures Inv(c, DoStartLoad(s, id, code))
  {
    if id !in s.threads {
      if code in s.redis.db {
        StoredEntryOk(c, s, code);
      }
      QuietStep(c, s, DoStartLoad(s, id, code), id, DoStartLoad(s, id, code).threads[id]);
    }
  }

  lemma LoadTimeStep(c: Config, s: Sys, id: nat)
    requires c.Valid() && Inv(c, s)
    ensures Inv(c, DoLoadTime(c, s, id))
  {
    if id in s.threads && s.threads[id].LoadRead? {
      assert ThreadOk(c, s.redis, Replay(c, s.log), s.threads[id]);
      QuietStep(c, s, DoLoadTime(c, s, id), id, DoLoadTime(c, s, id).threads[id]);
    }
  }

  /** The delete-if-value script never removes a live session. */
  lemma StaleNeverRemoves(c: Config, s: Sys, id: nat)
    requires c.Valid() && Inv(c, s) && id in s.threads && s.threads[id].Stale?
    ensures var t := s.threads[id];
            !(Live(s.redis, t.code) && s.redis.db[t.code].session == t.session)
  {
    var t := s.threads[id];
    if Live(s.redis, t.code) && s.redis.db[t.code].session == t.session {
      StoredEntryOk(c, s, t.code);
      assert false;
    }
  }

  lemma RemoveStaleStep(c: Config, s: Sys, id: nat)
    requires c.Valid() && Inv(c, s)
    ensures Inv(c, DoRemoveStale(s, id))
  {
    if id in s.threads && s.threads[id].Stale? {
      StaleNeverRemoves(c, s, id);
      QuietStep(c, s, DoRemoveStale(s, id), id, DoRemoveStale(s, id).threads[id]);
    }
  }

  lemma StartStep(c: Config, s: Sys, id: nat, code: string, op: Op)
    requires c.Valid() && Inv(c, s)
    ensures Inv(c, DoStart(s, id, code, op))
  {
    if id !in s.threads && !op.ClaimSender? {
      QuietStep(c, s, DoStart(s, id, code, op), id, DoStart(s, id, code, op).threads[id]);
    }
  }

  lemma StartSenderStep(c: Config, s: Sys, id: nat, code: string, verifier: Verifier)
    requires c.Valid() && Inv(c, s)
    ensures Inv(c, DoStartSender(c, s, id, code, verifier))
  {
    if id !in s.threads {
      QuietStep(c, s, DoStartSender(c, s, id, code, verifier), id, DoStartSender(c, s, id, code, verifier).threads[id]);
    }
  }

  lemma CancelStep(c: Config, s: Sys, id: nat)
    requires c.Valid() && Inv(c, s)
    ensures Inv(c, DoCancel(s, id))
  {
    if id in s.threads && DoCancel(s, id) != s {
      QuietStep(c, s, DoCancel(s, id), id, DoCancel(s, id).threads[id]);
    }
  }

  /** The steps of the retry loop. */
  lemma LoopStepKeepsInv(c: Config, s: Sys, a: Action)
    requires c.Valid() && Inv(c, s) && (a.Watch? || a.Compute? || a.Exec? || a.Cancel?)
    ensures Inv(c, Next(c, s, a))
  {
    match a
    case Watch(id) => WatchStep(c, s, id);
    case Compute(id, wall) => ComputeStep(c, s, id, wall);
    case Exec(id) => ExecStep(c, s, id);
    case Cancel(id) => CancelStep(c, s, id);
  }

  /** The steps of a load. */
  lemma LoadStepKeepsInv(c: Config, s: Sys, a: Action)
    requires c.Valid() && Inv(c, s) && (a.StartLoad? || a.LoadTime? || a.RemoveStale?)
    ensures Inv(c, Next(c, s, a))
  {
    match a
    case StartLoad(id, code) => StartLoadStep(c, s, id, code);
    case LoadTime(id) => LoadTimeStep(c, s, id);
    case RemoveStale(id) => RemoveStaleStep(c, s, id);
  }

  /** Everything else: the clock, new operations, the creation script and explicit deletes. */
  lemma OuterStepKeepsInv(c: Config, s: Sys, a: Action)
    requires c.Valid() && Inv(c, s) && (a.Tick? || a.StartSender? || a.CreateScript? || a.Start? || a.Delete?)
    ensures Inv(c, Next(c, s, a))
  {
    match a
    case Tick(elapsed) => TickStep(c, s, elapsed);
    case StartSender(id, code, verifier) => StartSenderStep(c, s, id, code, verifier);
    case CreateScript(id) => CreateStep(c, s, id);
    case Start(id, code, op) => StartStep(c, s, id, code, op);
    case Delete(code) => DeleteStep(c, s, code);
  }

  lemma NextKeepsInv(c: Config, s: Sys, a: Action)
    requires c.Valid() && Inv(c, s)
    ensures Inv(c, Next(c, s, a))
  {
    if a.Watch? || a.Compute? || a.Exec? || a.Cancel? {
      LoopStepKeepsInv(c, s, a);
    } else if a.StartLoad? || a.LoadTime? || a.RemoveStale? {
      LoadStepKeepsInv(c, s, a);
    } else {
      OuterStepKeepsInv(c, s, a);
    }
  }

  lemma {:induction false} RunKeepsInv(c: Config, actions: seq<Action>)
    requires c.Valid()
    ensures Inv(c, Run(c, actions))
  {
    if |actions| > 0 {
      RunKeepsInv(c, actions[..|actions| - 1]);
      NextKeepsInv(c, Run(c, actions[..|actions| - 1]), actions[|actions| - 1]);
    }
  }

  // ----- Theorems about every run -----

  /**
   * Optimistic retry is linearizable: under every interleaving of threads, retries, deletes and
   * expiries, the stored sessions are those of the committed operations applied one at a time in
   * commit order. An operation that reports success committed exactly once, with the reply it
   * reports; an operation that reports an error, or has not finished, committed nothing.
   */
  lemma StoreIsLinearizable(c: Config, actions: seq<Action>)
    requires c.Valid()
    ensures var s := Run(c, actions);
            && Legal(c, s.log) && LastTime(s.log) <= s.redis.now
            && s.redis.db.Keys == Replay(c, s.log).Keys
            && (forall code :: code in s.redis.db ==>
                  && s.redis.db[code].session == Replay(c, s.log)[code].session
                  && s.redis.db[code].expiry == Replay(c, s.log)[code].expiry)
            && (forall id :: id in s.threads ==> ResultOk(s.log, id, s.threads[id]))
  {
    RunKeepsInv(c, actions);
  }

  /** The two housekeeping deletes have nothing to delete. */
  ghost predicate HousekeepingIdle(s: Sys, id: nat) {
    id in s.threads ==>
      var t := s.threads[id];
      && (t.Doomed? ==> !Unchanged(s.redis, t.code, t.entry))
      && (t.Stale? ==> !(Live(s.redis, t.code) && s.redis.db[t.code].session == t.session))
  }

  lemma HousekeepingIsIdle(c: Config, actions: seq<Action>, id: nat)
    requires c.Valid()
    ensures HousekeepingIdle(Run(c, actions), id)
  {
    RunKeepsInv(c, actions);
    var s := Run(c, actions);
    if id in s.threads && s.threads[id].Doomed? {
      DoomedNeverCommits(c, s, id);
    }
    if id in s.threads && s.threads[id].Stale? {
      StaleNeverRemoves(c, s, id);
    }
  }

  lemma QuietUnlessCommit(c: Config, s: Sys, a: Action, id: nat)
    requires a.Exec? || a.RemoveStale? ==> HousekeepingIdle(s, a.id)
    ensures var s' := Next(c, s, a);
            (&& id in s'.threads && (id in s.threads ==> s.threads[id] != s'.threads[id])
             && !Succeeded(s'.threads[id])) ==>
              s'.redis.db == s.redis.db && s'.log == s.log
    ensures !a.Delete? ==> s.redis.db.Keys <= Next(c, s, a).redis.db.Keys
  {
  }

  /** A step on which an operation reports an error leaves every key, value and lease as it was. */
  lemma ErrorsChangeNothing(c: Config, actions: seq<Action>, a: Action, id: nat)
    requires c.Valid()
    requires var s, s' := Run(c, actions), Next(c, Run(c, actions), a);
             && id in s'.threads && s'.threads[id].Finished? && s'.threads[id].result.Err?
             && (id in s.threads ==> s.threads[id] != s'.threads[id])
    ensures Next(c, Run(c, actions), a).redis.db == Run(c, actions).redis.db
    ensures Next(c, Run(c, actions), a).log == Run(c, actions).log
  {
    if a.Exec? || a.RemoveStale? {
      HousekeepingIsIdle(c, actions, a.id);
    }
    QuietUnlessCommit(c, Run(c, actions), a, id);
  }

  /** Only an explicit delete ever removes a session: no housekeeping path finds one to remove. */
  lemma OnlyDeleteRemoves(c: Config, actions: seq<Action>, a: Action)
    requires c.Valid() && !a.Delete?
    ensures Run(c, actions).redis.db.Keys <= Next(c, Run(c, actions), a).redis.db.Keys
  {
    if a.Exec? || a.RemoveStale? {
      HousekeepingIsIdle(c, actions, a.id);
    }
    QuietUnlessCommit(c, Run(c, actions), a, 0);
  }

  /**
   * The capacity index agrees exactly with the live sessions, never exceeds the limit, and a
   * creation is refused for capacity exactly when that many sessions are live.
   */
  lemma CapacityIsExact(c: Config, actions: seq<Action>, id: nat)
    requires c.Valid()
    ensures var s := Run(c, actions);
            && IndexAgrees(s.redis)
            && |LiveCodes(s.redis)| <= c.SessionLimit() && |s.redis.index| <= c.SessionLimit()
            && (id in s.threads && s.threads[id].SenderTimed? && !Live(s.redis, s.threads[id].code) ==>
                  (RefusedForCapacity(DoCreateScript(c, s, id), id) <==> |LiveCodes(s.redis)| == c.SessionLimit()))
  {
    RunKeepsInv(c, actions);
    RefusedExactlyWhenFull(c, Run(c, actions), id);
  }

  lemma RefusedExactlyWhenFull(c: Config, s: Sys, id: nat)
    requires ServerOk(c, s.redis, s.log)
    ensures |LiveCodes(s.redis)| <= c.SessionLimit()
    ensures id in s.threads && s.threads[id].SenderTimed? && !Live(s.redis, s.threads[id].code) ==>
              (RefusedForCapacity(DoCreateScript(c, s, id), id) <==> |LiveCodes(s.redis)| == c.SessionLimit())
  {
    PurgeIsExact(c, s.redis, s.log);
  }

  predicate RefusedForCapacity(s: Sys, id: nat) {
    id in s.threads && s.threads[id].Finished? && s.threads[id].result == Err(Capacity)
  }

  /**
   * No session outlives its absolute deadline, however often it is refreshed: its expiry is at
   * most creation time plus the maximum lifetime, and both stay inside 64 bits.
   */
  lemma NoRunOutlivesDeadline(c: Config, actions: seq<Action>, code: string)
    requires c.Valid() && code in Run(c, actions).redis.db
    ensures var e := Run(c, actions).redis.db[code];
            && 0 < e.session.created
            && e.expiry <= e.session.created * 1000 + c.LifetimeMs() <= MAX_INT64
            && e.session.created <= Seconds(Run(c, actions).redis.now)
  {
    RunKeepsInv(c, actions);
    StoredEntryOk(c, Run(c, actions), code);
    assert Seconds(Replay(c, Run(c, actions).log)[code].writtenAt) <= Seconds(Run(c, actions).redis.now);
  }

  /** Every stored session is well formed: bounded queues, distinct claims, a sender. */
  lemma StoredSessionsAreWellFormed(c: Config, actions: seq<Action>, code: string)
    requires c.Valid() && code in Run(c, actions).redis.db
    ensures Run(c, actions).redis.db[code].session.code == code
    ensures SessionOk(Run(c, actions).redis.db[code].session)
  {
    RunKeepsInv(c, actions);
    StoredEntryOk(c, Run(c, actions), code);
  }

  /** On a stored session a receiver claim fails exactly when another receiver or the sender holds it. */
  lemma ReceiverClaimFailsOnlyOnConflict(c: Config, actions: seq<Action>, code: string, v: Verifier, wall: int)
    requires c.Valid() && code in Run(c, actions).redis.db && v.Canonical?
    ensures var s := Run(c, actions).redis.db[code].session;
            s.sender.Some? &&
            (Mutate(ClaimReceiver(v), wall, s).Failed? <==>
              if s.receiver.Some? then !VerifierEqual(s.receiver.value.verifier, v) else s.sender.value.verifier == v)
  {
    StoredSessionsAreWellFormed(c, actions, code);
  }

  /**
   * A caller without the capability cannot tell whether a session exists: an authenticated operation
   * answers the same when the session is missing and when the capability is not its role's.
   */
  lemma ExistenceIsHidden(op: Op, wall: int, s: Session, role: Role, v: Verifier)
    requires var peer := if role == Send then s.sender else s.receiver;
             peer.None? || v.Malformed? || peer.value.verifier != v || peer.value.role != role
    requires || (op.StoreInfo? && op.role == role && op.verifier == v)
             || (op.RecordStats? && op.role == role && op.verifier == v)
             || (op.Dequeue? && op.role == role && op.verifier == v)
             || (op.Enqueue? && op.source == role && op.verifier == v)
    ensures Mutate(op, wall, s).Failed?
    ensures Surface(op, Mutate(op, wall, s).error) == Surface(op, SessionNotFound)
  {
  }

  /** Every other error reaches its caller under its own name. */
  lemma OtherErrorsAreNamed(op: Op, e: Error)
    requires e != SessionNotFound && e != Unavailable
    ensures Surface(op, e) == e
    ensures !op.ClaimSender? && !op.ClaimReceiver? ==> Surface(op, SessionNotFound) == Authentication
    ensures op.ClaimSender? ==> Surface(op, SessionNotFound) == SessionNotFound
    ensures op.ClaimSender? ==> Surface(op, Unavailable) == Unavailable
    ensures op.ClaimReceiver? ==> Surface(op, SessionNotFound) == Unavailable == Surface(op, Unavailable)
  {
  }

  /** FIFO, exactly once, in every run: what was sent is what was returned followed by what is pending. */
  lemma RunsAreFifo(c: Config, actions: seq<Action>, code: string, role: Role)
    requires c.Valid() && code in Run(c, actions).redis.db
    ensures var s := Run(c, actions);
            Sent(s.log, code, role) ==
            Taken(s.log, code, role) + Queue(s.redis.db[code].session.pending, role)
  {
    RunKeepsInv(c, actions);
    QueuesAreFifo(c, Run(c, actions).log, code, role);
  }

  lemma NextExtendsLog(c: Config, s: Sys, a: Action)
    ensures s.log <= Next(c, s, a).log
  {
  }

  lemma {:induction false} RunExtendsLog(c: Config, before: seq<Action>, after: seq<Action>)
    ensures Run(c, before).log <= Run(c, before + after).log
    decreases |after|
  {
    if |after| == 0 {
      assert before + after == before;
    } else {
      var mid := before + after[..|after| - 1];
      assert (before + after)[..|before + after| - 1] == mid;
      RunExtendsLog(c, before, after[..|after| - 1]);
      NextExtendsLog(c, Run(c, mid), after[|after| - 1]);
    }
  }

  lemma RunMatches(c: Config, actions: seq<Action>)
    requires c.Valid()
    ensures Legal(c, Run(c, actions).log) && Matches(Run(c, actions).redis, Replay(c, Run(c, actions).log))
  {
    RunKeepsInv(c, actions);
  }

  lemma ServersKeepClaims(c: Config, s: Sys, s': Sys, code: string)
    requires c.Valid() && code in s.redis.db
    requires Matches(s.redis, Replay(c, s.log)) && Matches(s'.redis, Replay(c, s'.log))
    requires s.log <= s'.log && Legal(c, s'.log) && SameIncarnation(s'.log[|s.log|..], code)
    ensures code in s'.redis.db
    ensures var e, e' := s.redis.db[code], s'.redis.db[code];
            ClaimsKept(e.session, e'.session) && e.expiry <= e'.expiry
  {
    assert s.log + s'.log[|s.log|..] == s'.log;
    ClaimsAreFinal(c, s.log, s'.log[|s.log|..], code);
  }

  /**
   * Claims are final: from any moment of any run until the session is removed or created anew,
   * its creation time, role IDs and verifiers stay fixed and its lease never shrinks.
   */
  lemma RunKeepsClaims(c: Config, before: seq<Action>, after: seq<Action>, code: string)
    requires c.Valid() && code in Run(c, before).redis.db
    requires var log, log' := Run(c, before).log, Run(c, before + after).log;
             |log| <= |log'| && SameIncarnation(log'[|log|..], code)
    ensures code in Run(c, before + after).redis.db
    ensures var e, e' := Run(c, before).redis.db[code], Run(c, before + after).redis.db[code];
            ClaimsKept(e.session, e'.session) && e.expiry <= e'.expiry
  {
    RunMatches(c, before);
    RunMatches(c, before + after);
    RunExtendsLog(c, before, after);
    ServersKeepClaims(c, Run(c, before), Run(c, before + after), code);
  }

  /** In every run, each committed operation acted with the verifier that holds its role. */
  lemma RunsAreAuthorised(c: Config, actions: seq<Action>, i: nat)
    requires c.Valid() && i < |Run(c, actions).log| && Run(c, actions).log[i].Applied?
    ensures var log, x := Run(c, actions).log, Run(c, actions).log[i];
            && x.op.verifier.Canonical?
            && Claimant(log[..i + 1], x.code, Actor(x.op)) == Some(x.op.verifier)
            && (!x.op.ClaimReceiver? ==> Claimant(log[..i], x.code, Actor(x.op)) == Some(x.op.verifier))
  {
    RunKeepsInv(c, actions);
    OnlyClaimantsCommit(c, Run(c, actions).log, i);
  }

  lemma {:induction false} CommitIsInLog(log: seq<Commit>, id: nat, x: Commit) returns (i: nat)
    requires x in CommitsOf(log, id)
    ensures i < |log| && log[i] == x
  {
    if x in CommitsOf(log[..|log| - 1], id) {
      i := CommitIsInLog(log[..|log| - 1], id, x);
    } else {
      i := |log| - 1;
    }
  }

  /** A commit of either kind leaves its role with the verifier it carries. */
  lemma CommitIsAuthorised(c: Config, log: seq<Commit>, i: nat, t: Thread)
    requires c.Valid() && Legal(c, log) && i < |log| && t.Finished?
    requires var x := log[i];
             && x.code == t.code && (if x.Applied? then x.op == t.op else x.Created? && t.op == ClaimSender(x.verifier))
    ensures t.op.verifier.Canonical? && Claimant(log[..i + 1], t.code, Actor(t.op)) == Some(t.op.verifier)
  {
    if log[i].Applied? {
      OnlyClaimantsCommit(c, log, i);
    } else {
      LegalPrefix(c, log, i + 1);
      assert log[..i + 1] == log[..i] + [log[i]];
      ReplayAppend(c, log[..i], log[i]);
      DropLastAppend(log[..i], log[i]);
    }
  }

  lemma ResultNamesCommit(log: seq<Commit>, id: nat, t: Thread) returns (i: nat)
    requires ResultOk(log, id, t) && Succeeded(t)
    ensures i < |log| && !log[i].Removed? && log[i].id == id && log[i].code == t.code
    ensures if log[i].Applied? then log[i].op == t.op else log[i].Created? && t.op == ClaimSender(log[i].verifier)
  {
    var x :| CommitsOf(log, id) == [x] && !x.Removed? && x.code == t.code
             && (x.Applied? ==> x.op == t.op && x.reply == t.result.value)
             && (x.Created? ==> t.op == ClaimSender(x.verifier) && t.result.value == Ack);
    assert x in CommitsOf(log, id);
    i := CommitIsInLog(log, id, x);
    CommitsHaveId(log, id, x);
  }

  /** An operation that reports success acted, when it committed, with the verifier that holds its role. */
  lemma SuccessWasAuthorised(c: Config, actions: seq<Action>, id: nat) returns (i: nat)
    requires c.Valid() && id in Run(c, actions).threads && Succeeded(Run(c, actions).threads[id])
    ensures var log, t := Run(c, actions).log, Run(c, actions).threads[id];
            && i < |log| && !log[i].Removed? && log[i].id == id && log[i].code == t.code
            && t.op.verifier.Canonical?
            && Claimant(log[..i + 1], t.code, Actor(t.op)) == Some(t.op.verifier)
  {
    StoreIsLinearizable(c, actions);
    var s := Run(c, actions);
    i := ResultNamesCommit(s.log, id, s.threads[id]);
    CommitIsAuthorised(c, s.log, i, s.threads[id]);
  }

  lemma {:induction false} CommitsHaveId(log: seq<Commit>, id: nat, x: Commit)
    requires x in CommitsOf(log, id)
    ensures !x.Removed? && x.id == id
  {
    if x in CommitsOf(log[..|log| - 1], id) {
      CommitsHaveId(log[..|log| - 1], id, x);
    }
  }

  // ----- Single steps -----

  /** A computed mutation commits exactly if its key is live and unwritten since; otherwise it starts over. */
  lemma ExecIsExact(c: Config, s: Sys, id: nat)
    requires id in s.threads && s.threads[id].Ready?
    ensures var t, db := s.threads[id], s.redis.db;
            var s' := Next(c, s, Exec(id));
            if t.code in db && Ms(s.redis.now) < db[t.code].expiry && db[t.code].version == t.entry.version then
              && s'.threads == s.threads[id := Finished(t.code, t.op, Ok(t.reply))]
              && s'.log == s.log + [Applied(id, t.code, t.op, t.wall, t.readAt, t.reply, s.redis.now)]
              && s'.redis.db == db[t.code := Entry(t.updated, s.redis.stamp, t.lease)]
              && s'.redis.index == s.redis.index[t.code := t.lease]
            else s' == s.(threads := s.threads[id := Watching(t.code, t.op)])
  {
  }

  /** An operation can be cancelled until it is over, and then reports just that. */
  lemma CancelIsExact(c: Config, s: Sys, id: nat)
    requires id in s.threads
    ensures var t, s' := s.threads[id], Next(c, s, Cancel(id));
            if t.Finished? || t.LoadDone? then s' == s
            else if t.LoadRead? || t.Stale? then s' == s.(threads := s.threads[id := LoadDone(Err(Cancelled))])
            else
              var op := if t.SenderTimed? then ClaimSender(t.verifier) else t.op;
              s' == s.(threads := s.threads[id := Finished(t.code, op, Err(Cancelled))])
  {
    var t := s.threads[id];
    if t.SenderTimed? {
      OtherErrorsAreNamed(ClaimSender(t.verifier), Cancelled);
    } else if !t.Finished? && !t.LoadDone? && !t.LoadRead? && !t.Stale? {
      OtherErrorsAreNamed(t.op, Cancelled);
    }
  }

  /** A load that found its session past the deadline ends as if there had been none, and changes nothing. */
  lemma StaleEnds(c: Config, actions: seq<Action>, id: nat)
    requires c.Valid() && id in Run(c, actions).threads && Run(c, actions).threads[id].Stale?
    ensures var s := Run(c, actions);
            Next(c, s, RemoveStale(id)) == s.(threads := s.threads[id := LoadDone(Err(SessionNotFound))])
  {
    RunKeepsInv(c, actions);
    StaleNeverRemoves(c, Run(c, actions), id);
  }

  // ----- Loads -----

  /** Action `n` started a load that found this session live. */
  ghost predicate FoundAt(c: Config, actions: seq<Action>, n: nat, id: nat, code: string, session: Session) {
    && n < |actions| && actions[n] == StartLoad(id, code)
    && Live(Run(c, actions[..n]).redis, code) && Run(c, actions[..n]).redis.db[code].session == session
  }

  lemma FoundBefore(c: Config, actions: seq<Action>, n: nat, id: nat, code: string, session: Session)
    requires |actions| > 0 && FoundAt(c, actions[..|actions| - 1], n, id, code, session)
    ensures FoundAt(c, actions, n, id, code, session)
  {
    assert actions[..|actions| - 1][..n] == actions[..n];
  }

  predicate Holds(t: Thread, code: string, session: Session) {
    t == LoadRead(code, session) || (t == LoadDone(Ok(session)) && session.code == code)
  }

  lemma LoadStarts(c: Config, s: Sys, id: nat, code: string, session: Session)
    requires id !in s.threads && Holds(Next(c, s, StartLoad(id, code)).threads[id], code, session)
    ensures Live(s.redis, code) && s.redis.db[code].session == session
  {
  }

  lemma LoadMoves(c: Config, s: Sys, a: Action, id: nat, code: string, session: Session)
    requires id in Next(c, s, a).threads && Holds(Next(c, s, a).threads[id], code, session)
    ensures (a == StartLoad(id, code) && id !in s.threads) || (id in s.threads && Holds(s.threads[id], code, session))
  {
  }

  /** What a load holds after its first step was live in the store when it began. */
  lemma {:induction false} LoadHistory(c: Config, actions: seq<Action>, id: nat, code: string, session: Session)
      returns (n: nat)
    requires id in Run(c, actions).threads && Holds(Run(c, actions).threads[id], code, session)
    ensures FoundAt(c, actions, n, id, code, session)
  {
    var before, last := actions[..|actions| - 1], |actions| - 1;
    var s, a := Run(c, before), actions[last];
    LoadMoves(c, s, a, id, code, session);
    if a == StartLoad(id, code) && id !in s.threads {
      LoadStarts(c, s, id, code, session);
      n := last;
    } else {
      n := LoadHistory(c, before, id, code, session);
      FoundBefore(c, actions, n, id, code, session);
    }
  }

  /** A load that succeeds returns a session that was live in the store under its own code when the load began. */
  lemma LoadReturnsStored(c: Config, actions: seq<Action>, id: nat, session: Session) returns (n: nat)
    requires c.Valid() && id in Run(c, actions).threads && Run(c, actions).threads[id] == LoadDone(Ok(session))
    ensures FoundAt(c, actions, n, id, session.code, session)
  {
    n := LoadHistory(c, actions, id, session.code, session);
  }

  lemma FoundIsOk(c: Config, actions: seq<Action>, n: nat, id: nat, code: string, session: Session)
    requires c.Valid() && FoundAt(c, actions, n, id, code, session)
    ensures session.code == code && 0 < session.created && c.LifetimeMs() >= 1
    ensures session.created * 1000 + c.LifetimeMs() <= MAX_INT64
  {
    RunKeepsInv(c, actions[..n]);
    StoredEntryOk(c, Run(c, actions[..n]), code);
  }

  lemma LoadTimeIsExact(c: Config, s: Sys, id: nat, code: string, session: Session)
    requires id in s.threads && s.threads[id] == LoadRead(code, session) && session.code == code
    requires 0 < session.created <= Seconds(s.redis.now) && c.LifetimeMs() >= 1
    requires session.created * 1000 + c.LifetimeMs() <= MAX_INT64
    ensures Next(c, s, LoadTime(id)) ==
            s.(threads := s.threads[id :=
                 if Ms(s.redis.now) < session.created * 1000 + c.LifetimeMs() then LoadDone(Ok(session))
                 else Stale(code, session, s.redis.now)])
  {
    DeadlineFits(session.created, c.LifetimeMs());
  }

  /** And one that found a session succeeds exactly if its deadline is still ahead when the clock is read. */
  lemma LoadIsExact(c: Config, actions: seq<Action>, id: nat, code: string, session: Session)
    requires c.Valid() && id in Run(c, actions).threads && Run(c, actions).threads[id] == LoadRead(code, session)
    ensures var s := Run(c, actions);
            Next(c, s, LoadTime(id)) ==
            s.(threads := s.threads[id :=
                 if Ms(s.redis.now) < session.created * 1000 + c.LifetimeMs() then LoadDone(Ok(session))
                 else Stale(code, session, s.redis.now)])
  {
    var n := LoadHistory(c, actions, id, code, session);
    FoundIsOk(c, actions, n, id, code, session);
    RunKeepsInv(c, actions);
    assert ThreadOk(c, Run(c, actions).redis, Replay(c, Run(c, actions).log), Run(c, actions).threads[id]);
    LoadTimeIsExact(c, Run(c, actions), id, code, session);
  }

  // ----- Slow threads -----

  lemma RunAppend(c: Config, actions: seq<Action>, a: Action)
    ensures Run(c, actions + [a]) == Next(c, Run(c, actions), a)
  {
    assert (actions + [a])[..|actions|] == actions;
  }

  /** Under such a configuration a session can be created one second after the epoch. */
  predicate Admits(c: Config) {
    c.Valid() && 1 <= c.LifetimeMs() <= MAX_INT64 - 1000
  }

  /** The run that creates one session. */
  function Creation(code: string, v: Verifier): seq<Action> {
    [] + [Tick(SECOND)] + [StartSender(0, code, v)] + [CreateScript(0)]
  }

  lemma CreationWorks(c: Config, code: string, v: Verifier)
    requires Admits(c) && v.Canonical?
    ensures var s := Run(c, Creation(code, v));
            && Live(s.redis, code) && s.redis.now == SECOND && s.threads.Keys == {0}
            && s.redis.db[code].session == FreshSession(code, v, 1)
  {
    RunAppend(c, [], Tick(SECOND));
    RunAppend(c, [] + [Tick(SECOND)], StartSender(0, code, v));
    RunAppend(c, [] + [Tick(SECOND)] + [StartSender(0, code, v)], CreateScript(0));
    var s := Run(c, [] + [Tick(SECOND)]);
    assert Seconds(s.redis.now) == 1 && Ms(s.redis.now) == 1000;
    assert Purge(s.redis) == map[];
  }

  /** The session's deadline passes. */
  function Wait(c: Config): nat
    requires Admits(c)
  {
    c.LifetimeMs() * MILLI
  }

  lemma DeadlinePasses(c: Config)
    requires Admits(c)
    ensures AbsoluteExpiry(c, 1, SECOND + Wait(c)).None? && RefreshExpiry(c, 1, SECOND + Wait(c)).None?
  {
    assert SECOND + Wait(c) == MILLI * (1000 + c.LifetimeMs());
    assert Ms(SECOND + Wait(c)) == 1000 + c.LifetimeMs();
  }

  lemma LoadedInTime(c: Config, s: Sys, code: string, v: Verifier, op: Op)
    requires Live(s.redis, code) && s.redis.db[code].session == FreshSession(code, v, 1)
    requires 1 in s.threads && s.threads[1] == Watching(code, op)
    ensures var s' := Next(c, s, Watch(1));
            && s'.redis == s.redis
            && 1 in s'.threads && s'.threads[1].Loaded? && s'.threads[1].code == code
            && s'.threads[1].entry.session == FreshSession(code, v, 1)
  {
  }

  lemma LateCompute(c: Config, s: Sys, code: string, v: Verifier, op: Op, wall: int)
    requires Admits(c) && s.redis.now == SECOND + Wait(c)
    requires 1 in s.threads && s.threads[1].Loaded? && s.threads[1].code == code
    requires s.threads[1].entry.session == FreshSession(code, v, 1)
    ensures var s' := Next(c, s, Compute(1, wall));
            1 in s'.threads && s'.threads[1].Doomed? && s'.threads[1].code == code
  {
    DeadlinePasses(c);
  }

  /** A mutation that was slow between its read and its clock reading arrives at the watched delete. */
  lemma DoomedIsReached(c: Config, code: string, v: Verifier, op: Op, wall: int)
    requires Admits(c) && v.Canonical? && !op.ClaimSender? && ClaimsCanonical(op)
    ensures var slow := Creation(code, v) + [Start(1, code, op)] + [Watch(1)] + [Tick(Wait(c))] + [Compute(1, wall)];
            var s := Run(c, slow);
            1 in s.threads && s.threads[1].Doomed? && s.threads[1].code == code
  {
    var created := Creation(code, v);
    CreationWorks(c, code, v);
    DeadlinePasses(c);
    RunAppend(c, created, Start(1, code, op));
    RunAppend(c, created + [Start(1, code, op)], Watch(1));
    RunAppend(c, created + [Start(1, code, op)] + [Watch(1)], Tick(Wait(c)));
    RunAppend(c, created + [Start(1, code, op)] + [Watch(1)] + [Tick(Wait(c))], Compute(1, wall));
    var watching := Next(c, Run(c, created), Start(1, code, op));
    LoadedInTime(c, watching, code, v, op);
    var loaded := Next(c, watching, Watch(1));
    LateCompute(c, Next(c, loaded, Tick(Wait(c))), code, v, op, wall);
  }

  /** A load that was slow between its read and its clock reading arrives at the delete-if-value script. */
  lemma StaleIsReached(c: Config, code: string, v: Verifier)
    requires Admits(c) && v.Canonical?
    ensures var s := Run(c, Creation(code, v) + [StartLoad(1, code)] + [Tick(Wait(c))] + [LoadTime(1)]);
            1 in s.threads && s.threads[1].Stale? && s.threads[1].session == FreshSession(code, v, 1)
  {
    CreationWorks(c, code, v);
    DeadlinePasses(c);
    RunAppend(c, Creation(code, v), StartLoad(1, code));
    RunAppend(c, Creation(code, v) + [StartLoad(1, code)], Tick(Wait(c)));
    RunAppend(c, Creation(code, v) + [StartLoad(1, code)] + [Tick(Wait(c))], LoadTime(1));
  }
}
