/**
 * The optimistic retry loop itself, run against a shared server that other clients keep changing.
 *
 * `others` scripts what every other client does between this client's own commands. The method
 * continues a run of the state machine of `SessionStore` by one of its interleavings, so the theorems
 * about every run apply to what it leaves and returns.
 */
module SessionRetry {
  import opened Common
  import opened SessionModel
  import opened SessionLog
  import opened SessionStore

  /** No action of the script names thread `id`. */
  predicate Avoids(actions: seq<Action>, id: nat) {
    forall a :: a in actions ==> a.Tick? || a.Delete? || a.id != id
  }

  function RunFrom(c: Config, s: Sys, actions: seq<Action>): Sys {
    if |actions| == 0 then s
    else Next(c, RunFrom(c, s, actions[..|actions| - 1]), actions[|actions| - 1])
  }

  lemma {:induction false} RunFromAppend(c: Config, s: Sys, first: seq<Action>, rest: seq<Action>)
    ensures RunFrom(c, s, first + rest) == RunFrom(c, RunFrom(c, s, first), rest)
    decreases |rest|
  {
    if |rest| == 0 {
      assert first + rest == first;
    } else {
      RunFromAppend(c, s, first, rest[..|rest| - 1]);
      assert (first + rest)[..|first + rest| - 1] == first + rest[..|rest| - 1];
    }
  }

  lemma RunFromOne(c: Config, s: Sys, a: Action)
    ensures RunFrom(c, s, [a]) == Next(c, s, a)
  {
    assert [a][..0] == [];
    assert RunFrom(c, s, []) == s;
  }

  lemma {:induction false} RunIsRunFrom(c: Config, actions: seq<Action>)
    ensures RunFrom(c, INIT, actions) == Run(c, actions)
  {
    if |actions| > 0 {
      RunIsRunFrom(c, actions[..|actions| - 1]);
    }
  }

  /** Going on from where a run has come is a longer run. */
  lemma RunJoin(c: Config, past: seq<Action>, schedule: seq<Action>)
    ensures RunFrom(c, Run(c, past), schedule) == Run(c, past + schedule)
  {
    RunIsRunFrom(c, past);
    RunFromAppend(c, INIT, past, schedule);
    RunIsRunFrom(c, past + schedule);
  }

  lemma NextLeavesOthers(c: Config, s: Sys, a: Action, id: nat)
    requires a.Tick? || a.Delete? || a.id != id
    ensures id in Next(c, s, a).threads <==> id in s.threads
    ensures id in s.threads ==> Next(c, s, a).threads[id] == s.threads[id]
  {
  }

  lemma {:induction false} OthersLeaveThread(c: Config, s: Sys, actions: seq<Action>, id: nat)
    requires Avoids(actions, id)
    ensures id in RunFrom(c, s, actions).threads <==> id in s.threads
    ensures id in s.threads ==> RunFrom(c, s, actions).threads[id] == s.threads[id]
  {
    if |actions| > 0 {
      var rest, a := actions[..|actions| - 1], actions[|actions| - 1];
      assert a in actions;
      OthersLeaveThread(c, s, rest, id);
      NextLeavesOthers(c, RunFrom(c, s, rest), a, id);
    }
  }

  class Server {
    var sys: Sys

    constructor ()
      ensures sys == INIT
    {
      sys := INIT;
    }

    /** Other clients run. */
    method Interfere(c: Config, actions: seq<Action>, id: nat)
      requires Avoids(actions, id) && id in sys.threads
      modifies this
      ensures sys == RunFrom(c, old(sys), actions)
      ensures id in sys.threads && sys.threads[id] == old(sys.threads[id])
    {
      OthersLeaveThread(c, sys, actions, id);
      var i := 0;
      while i < |actions|
        invariant 0 <= i <= |actions|
        invariant sys == RunFrom(c, old(sys), actions[..i])
      {
        assert actions[..i + 1][..i] == actions[..i];
        sys := Next(c, sys, actions[i]);
        i := i + 1;
      }
      assert actions[..i] == actions;
    }
  }

  /** One attempt's interference: before the value is read, after that, and after the mutation is computed. */
  datatype Gap = Gap(beforeRead: seq<Action>, afterRead: seq<Action>, afterCompute: seq<Action>, wall: int)

  predicate GapAvoids(gap: Gap, id: nat) {
    Avoids(gap.beforeRead, id) && Avoids(gap.afterRead, id) && Avoids(gap.afterCompute, id)
  }

  /** WATCH and GET. */
  method Read(c: Config, server: Server, id: nat, code: string, op: Op) returns (seen: Option<Entry>)
    requires id in server.sys.threads && server.sys.threads[id] == Watching(code, op)
    modifies server
    ensures server.sys == RunFrom(c, old(server.sys), [Watch(id)]) && id in server.sys.threads
    ensures seen.Some? ==> server.sys.threads[id] == Loaded(code, op, seen.value)
    ensures seen.None? ==> server.sys.threads[id] == Finished(code, op, Err(Surface(op, SessionNotFound)))
  {
    var redis := server.sys.redis;
    RunFromOne(c, server.sys, Watch(id));
    if !Live(redis, code) {
      server.sys := Fail(server.sys, id, code, op, SessionNotFound);
      return None;
    }
    server.sys := Put(server.sys, id, Loaded(code, op, redis.db[code]));
    return Some(redis.db[code]);
  }

  /** TIME, the lease check and the mutator. */
  method Apply(c: Config, server: Server, id: nat, code: string, op: Op, seen: Entry, wall: int)
    returns (failure: Option<Error>)
    requires id in server.sys.threads && server.sys.threads[id] == Loaded(code, op, seen)
    modifies server
    ensures server.sys == RunFrom(c, old(server.sys), [Compute(id, wall)]) && id in server.sys.threads
    ensures failure == Some(NoPending) ==> server.sys.threads[id] == Watching(code, op)
    ensures failure.Some? && failure.value != NoPending ==>
              server.sys.threads[id] == Finished(code, op, Err(Surface(op, failure.value)))
    ensures failure.None? ==>
              var t := server.sys.threads[id];
              (t.Ready? || t.Doomed?) && t.code == code && t.op == op && t.entry == seen
  {
    RunFromOne(c, server.sys, Compute(id, wall));
    var now := server.sys.redis.now;
    var lease := RefreshExpiry(c, seen.session.created, now);
    if seen.session.code != code || lease.None? {
      server.sys := Put(server.sys, id, Doomed(code, op, seen, now));
      return None;
    }
    match Mutate(op, wall, seen.session) {
      case Failed(e) =>
        if e == NoPending {
          server.sys := Put(server.sys, id, Watching(code, op));
        } else {
          server.sys := Fail(server.sys, id, code, op, e);
        }
        return Some(e);
      case Done(updated, reply) =>
        server.sys := Put(server.sys, id, Ready(code, op, seen, wall, now, lease.value, updated, reply));
        return None;
    }
  }

  /** MULTI and EXEC: commit, remove an unusable session, or lose the race. */
  method Commit(c: Config, server: Server, id: nat, code: string, op: Op)
    returns (result: Option<Result<Reply, Error>>)
    requires id in server.sys.threads
    requires server.sys.threads[id].Ready? || server.sys.threads[id].Doomed?
    requires server.sys.threads[id].code == code && server.sys.threads[id].op == op
    modifies server
    ensures server.sys == RunFrom(c, old(server.sys), [Exec(id)]) && id in server.sys.threads
    ensures result.None? <==> server.sys.threads[id] == Watching(code, op)
    ensures result.Some? ==> Returns(server.sys.threads[id], code, op, result.value)
    ensures result.Some? && result.value.Ok? ==> LastIs(server.sys.log, id, code, op, result.value.value)
  {
    RunFromOne(c, server.sys, Exec(id));
    var t, redis := server.sys.threads[id], server.sys.redis;
    if !Live(redis, code) || redis.db[code].version != t.entry.version {
      server.sys := Put(server.sys, id, Watching(code, op));
      return None;
    }
    if t.Doomed? {
      server.sys := Sys(Drop(redis, code),
                        server.sys.threads[id := Finished(code, op, Err(Surface(op, SessionNotFound)))],
                        server.sys.log + [Removed(code, redis.now)]);
      return Some(Err(SessionNotFound));
    }
    server.sys := Sys(Write(redis, code, t.updated, t.lease),
                      server.sys.threads[id := Finished(code, op, Ok(t.reply))],
                      server.sys.log + [Applied(id, code, op, t.wall, t.readAt, t.reply, redis.now)]);
    return Some(Ok(t.reply));
  }

  /** The value a completed call returns for the thread state it leaves behind. */
  predicate Returns(t: Thread, code: string, op: Op, result: Result<Reply, Error>) {
    if result == Err(NoPending) then t == Watching(code, op)
    else
      t == Finished(code, op, match result case Ok(reply) => Ok(reply) case Err(e) => Err(Surface(op, e)))
  }

  /** A commit of this operation, with this reply. */
  predicate CommitIs(x: Commit, id: nat, code: string, op: Op, reply: Reply) {
    x.Applied? && x.id == id && x.code == code && x.op == op && x.reply == reply
  }

  predicate LastIs(log: seq<Commit>, id: nat, code: string, op: Op, reply: Reply) {
    |log| > 0 && CommitIs(log[|log| - 1], id, code, op, reply)
  }

  /** What a caller may conclude: a reply means one commit, with that reply; anything else none. */
  ghost predicate Concluded(log: seq<Commit>, id: nat, code: string, op: Op, result: Option<Result<Reply, Error>>) {
    if result.Some? && result.value.Ok? then
      exists x :: CommitsOf(log, id) == [x] && CommitIs(x, id, code, op, result.value.value)
    else CommitsOf(log, id) == []
  }

  /** What an attempt leaves of its thread when it returns. */
  predicate Left(s: Sys, id: nat, code: string, op: Op, result: Option<Result<Reply, Error>>) {
    && id in s.threads
    && (if result.Some? then Returns(s.threads[id], code, op, result.value) else s.threads[id] == Watching(code, op))
    && (result.Some? && result.value.Ok? ==> LastIs(s.log, id, code, op, result.value.value))
  }

  /** Linearizability of every run, as the caller of one operation sees it. */
  lemma ResultIsConclusive(c: Config, actions: seq<Action>, id: nat, code: string, op: Op,
                           result: Option<Result<Reply, Error>>)
    requires c.Valid() && Left(Run(c, actions), id, code, op, result)
    ensures Concluded(Run(c, actions).log, id, code, op, result)
  {
    StoreIsLinearizable(c, actions);
    var s := Run(c, actions);
    assert ResultOk(s.log, id, s.threads[id]);
    if result.Some? && result.value.Ok? {
      var x := s.log[|s.log| - 1];
      assert CommitsOf(s.log, id) == CommitsOf(s.log[..|s.log| - 1], id) + [x];
      assert CommitsOf(s.log, id) == [x];
    }
  }

  lemma RunIsConclusive(c: Config, past: seq<Action>, schedule: seq<Action>, s: Sys, id: nat, code: string, op: Op,
                        result: Option<Result<Reply, Error>>)
    requires c.Valid() && s == RunFrom(c, Run(c, past), schedule) && Left(s, id, code, op, result)
    ensures s == Run(c, past + schedule) && Concluded(s.log, id, code, op, result)
  {
    RunJoin(c, past, schedule);
    ResultIsConclusive(c, past + schedule, id, code, op, result);
  }

  /** One pass of the retry loop; `None` means another client won and the loop goes round again. */
  method Attempt(c: Config, server: Server, id: nat, code: string, op: Op, gap: Gap)
    returns (result: Option<Result<Reply, Error>>, ghost schedule: seq<Action>)
    requires id in server.sys.threads && server.sys.threads[id] == Watching(code, op)
    requires GapAvoids(gap, id)
    modifies server
    ensures server.sys == RunFrom(c, old(server.sys), schedule)
    ensures Left(server.sys, id, code, op, result)
  {
    ghost var start := server.sys;
    schedule := gap.beforeRead;
    server.Interfere(c, gap.beforeRead, id);

    RunFromAppend(c, start, schedule, [Watch(id)]);
    schedule := schedule + [Watch(id)];
    var seen := Read(c, server, id, code, op);
    if seen.None? {
      return Some(Err(SessionNotFound)), schedule;
    }
    RunFromAppend(c, start, schedule, gap.afterRead);
    schedule := schedule + gap.afterRead;
    server.Interfere(c, gap.afterRead, id);

    RunFromAppend(c, start, schedule, [Compute(id, gap.wall)]);
    schedule := schedule + [Compute(id, gap.wall)];
    var failure := Apply(c, server, id, code, op, seen.value, gap.wall);
    if failure.Some? {
      return Some(Err(failure.value)), schedule;
    }
    RunFromAppend(c, start, schedule, gap.afterCompute);
    schedule := schedule + gap.afterCompute;
    server.Interfere(c, gap.afterCompute, id);

    RunFromAppend(c, start, schedule, [Exec(id)]);
    schedule := schedule + [Exec(id)];
    result := Commit(c, server, id, code, op);
  }

  /**
   * Applies one mutation under optimistic concurrency control, retrying while other clients win, on a
   * server that has come through any run. A reply means that the operation committed exactly once, with
   * that reply; an error that it committed nothing. `None` means every scripted attempt lost its race;
   * the thread is then still watching and has committed nothing.
   */
  method Modify(c: Config, server: Server, id: nat, code: string, op: Op, others: seq<Gap>, ghost past: seq<Action>)
    returns (result: Option<Result<Reply, Error>>, ghost schedule: seq<Action>)
    requires c.Valid() && server.sys == Run(c, past)
    requires id in server.sys.threads && server.sys.threads[id] == Watching(code, op)
    requires forall i :: 0 <= i < |others| ==> GapAvoids(others[i], id)
    modifies server
    ensures server.sys == Run(c, past + schedule)
    ensures Left(server.sys, id, code, op, result)
    ensures Concluded(server.sys.log, id, code, op, result)
  {
    schedule := [];
    ghost var start := server.sys;
    for attempt := 0 to |others|
      invariant server.sys == RunFrom(c, start, schedule)
      invariant id in server.sys.threads && server.sys.threads[id] == Watching(code, op)
    {
      ghost var steps;
      result, steps := Attempt(c, server, id, code, op, others[attempt]);
      RunFromAppend(c, start, schedule, steps);
      schedule := schedule + steps;
      if result.Some? {
        RunIsConclusive(c, past, schedule, server.sys, id, code, op, result);
        return result, schedule;
      }
    }
    RunIsConclusive(c, past, schedule, server.sys, id, code, op, None);
    return None, schedule;
  }
}
