/** The mutator closures of the store, updating one decoded session in place. */
module SessionMutators {
  import opened Common
  import opened SessionModel

  /** A mutation either fails and leaves the session alone, or leaves exactly the specified one. */
  predicate Did(op: Op, wall: int, before: Session, after: Session, result: Result<Reply, Error>) {
    match Mutate(op, wall, before)
    case Failed(e) => result == Err(e) && after == before
    case Done(s, reply) => result == Ok(reply) && after == s
  }

  class MailboxSession {
    const code: string
    const created: int
    var sender: Option<Peer>
    var receiver: Option<Peer>
    var pending: map<Role, seq<Message>>
    var nextSideID: nat
    var statsByRole: map<Role, string>
    var stats: Option<string>

    constructor (s: Session)
      ensures Value() == s
    {
      code, created := s.code, s.created;
      sender, receiver := s.sender, s.receiver;
      pending, nextSideID := s.pending, s.nextSideID;
      statsByRole, stats := s.statsByRole, s.stats;
    }

    /** The session this object currently holds. */
    function Value(): Session
      reads this
    {
      Session(code, created, sender, receiver, pending, nextSideID, statsByRole, stats)
    }

    method ClaimSender(verifier: Verifier, wall: int) returns (result: Result<Reply, Error>)
      modifies this
      ensures Did(Op.ClaimSender(verifier), wall, old(Value()), Value(), result)
    {
      if sender.Some? {
        if VerifierEqual(sender.value.verifier, verifier) {
          return Ok(Ack);
        }
        return Err(Unavailable);
      }
      sender := Some(Peer(nextSideID, Send, verifier, None, wall, wall));
      nextSideID := nextSideID + 1;
      return Ok(Ack);
    }

    method ClaimReceiver(verifier: Verifier, wall: int) returns (result: Result<Reply, Error>)
      modifies this
      ensures Did(Op.ClaimReceiver(verifier), wall, old(Value()), Value(), result)
    {
      if receiver.Some? {
        if VerifierEqual(receiver.value.verifier, verifier) {
          return Ok(Ack);
        }
        return Err(Unavailable);
      }
      if sender.None? {
        return Err(Unavailable);
      }
      if VerifierEqual(sender.value.verifier, verifier) {
        return Err(Unavailable);
      }
      receiver := Some(Peer(nextSideID, Recv, verifier, None, wall, wall));
      nextSideID := nextSideID + 1;
      return Ok(Ack);
    }

    method UpdatePeerInfo(role: Role, verifier: Verifier, info: string, wall: int)
        returns (result: Result<Reply, Error>)
      modifies this
      ensures Did(Op.StoreInfo(role, verifier, info), wall, old(Value()), Value(), result)
    {
      if !Authenticated(Value(), role, verifier) {
        return Err(Authentication);
      }
      if role == Send {
        sender := Some(sender.value.(info := Some(info), updated := wall));
      } else {
        receiver := Some(receiver.value.(info := Some(info), updated := wall));
      }
      return Ok(Ack);
    }

    method Enqueue(source: Role, verifier: Verifier, message: Message, wall: int) returns (result: Result<Reply, Error>)
      modifies this
      ensures Did(Op.Enqueue(source, verifier, message), wall, old(Value()), Value(), result)
    {
      if !Authenticated(Value(), source, verifier) {
        return Err(Authentication);
      }
      var dest := source.Opposite();
      var queue := if dest in pending then pending[dest] else [];
      if |queue| >= MAX_PENDING_PER_ROLE {
        return Err(QueueFull);
      }
      var total := SessionPendingBytes(pending);
      if total.Err? {
        return Err(total.error);
      }
      if total.value > MAX_PENDING_BYTES - message.Bytes() {
        return Err(BytesFull);
      }
      pending := pending[dest := queue + [message]];
      return Ok(Ack);
    }

    method Dequeue(role: Role, verifier: Verifier, wall: int) returns (result: Result<Reply, Error>)
      modifies this
      ensures Did(Op.Dequeue(role, verifier), wall, old(Value()), Value(), result)
    {
      if !Authenticated(Value(), role, verifier) {
        return Err(Authentication);
      }
      var queue := if role in pending then pending[role] else [];
      if |queue| == 0 {
        return Err(NoPending);
      }
      var item := queue[0];
      pending := pending[role := queue[1..]];
      return Ok(Delivered(item));
    }

    method RecordStats(role: Role, verifier: Verifier, report: string, wall: int) returns (result: Result<Reply, Error>)
      modifies this
      ensures Did(Op.RecordStats(role, verifier, report), wall, old(Value()), Value(), result)
    {
      if !Authenticated(Value(), role, verifier) {
        return Err(Authentication);
      }
      statsByRole := statsByRole[role := report];
      if Recv in statsByRole {
        stats := Some(statsByRole[Recv]);
      } else {
        stats := Some(statsByRole[Send]);
      }
      return Ok(Ack);
    }
  }

  /** The bytes of the queues of the roles in `done`. */
  ghost function BytesOf(pending: map<Role, seq<Message>>, done: set<Role>): nat {
    (if Send in done then QueueBytes(Queue(pending, Send)) else 0) +
    (if Recv in done then QueueBytes(Queue(pending, Recv)) else 0)
  }

  lemma BytesOfStep(pending: map<Role, seq<Message>>, todo: set<Role>, role: Role)
    requires role in todo && todo <= pending.Keys
    ensures BytesOf(pending, pending.Keys - (todo - {role}))
            == BytesOf(pending, pending.Keys - todo) + QueueBytes(pending[role]) <= PendingBytes(pending)
  {
    if role == Send {
      assert Recv in pending.Keys - (todo - {role}) <==> Recv in pending.Keys - todo;
    } else {
      assert Send in pending.Keys - (todo - {role}) <==> Send in pending.Keys - todo;
    }
  }

  /**
   * Totals queued bytes, failing as soon as the running total passes the limit. Whatever order
   * the map is walked in, it fails exactly when the whole total is over the limit.
   */
  method SessionPendingBytes(pending: map<Role, seq<Message>>) returns (total: Result<nat, Error>)
    ensures total == if PendingBytes(pending) <= MAX_PENDING_BYTES then Ok(PendingBytes(pending)) else Err(BytesFull)
  {
    var sum: nat := 0;
    var todo := pending.Keys;
    while todo != {}
      invariant todo <= pending.Keys
      invariant sum == BytesOf(pending, pending.Keys - todo) <= MAX_PENDING_BYTES
      decreases todo
    {
      var role :| role in todo;
      var queue := pending[role];
      var i := 0;
      while i < |queue|
        invariant 0 <= i <= |queue|
        invariant sum == BytesOf(pending, pending.Keys - todo) + QueueBytes(queue[..i]) <= MAX_PENDING_BYTES
      {
        QueueBytesAppend(queue[..i], queue[i]);
        assert queue[..i + 1] == queue[..i] + [queue[i]];
        if sum > MAX_PENDING_BYTES - queue[i].Bytes() {
          QueueBytesPrefix(queue, i + 1);
          BytesOfStep(pending, todo, role);
          return Err(BytesFull);
        }
        sum := sum + queue[i].Bytes();
        i := i + 1;
      }
      assert queue[..i] == queue;
      BytesOfStep(pending, todo, role);
      todo := todo - {role};
    }
    return Ok(sum);
  }

  lemma {:induction false} QueueBytesPrefix(queue: seq<Message>, n: nat)
    requires n <= |queue|
    ensures QueueBytes(queue[..n]) <= QueueBytes(queue)
    decreases |queue| - n
  {
    if n == |queue| {
      assert queue[..n] == queue;
    } else {
      QueueBytesPrefix(queue, n + 1);
      assert queue[..n + 1] == queue[..n] + [queue[n]];
      QueueBytesAppend(queue[..n], queue[n]);
    }
  }
}
