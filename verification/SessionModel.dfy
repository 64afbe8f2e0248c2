/**
 * One rendezvous session and the mutations that mailbox clients apply to it.
 *
 * `Mutate` is the specification of every mutator closure; the class
 * `MailboxSession` performs the same updates in place.
 */
module SessionModel {
  import opened Common

  const MAX_PENDING_PER_ROLE: nat := 16
  const MAX_PENDING_BYTES: nat := 262144 // 256 << 10

  /** A capability verifier: canonical encodings of one digest, or any other text. */
  datatype Verifier = Canonical(digest: int) | Malformed(text: string)

  predicate VerifierEqual(left: Verifier, right: Verifier) {
    left.Canonical? && right.Canonical? && left == right
  }

  datatype Message = Message(typ: string, body: string) {
    function Bytes(): nat {
      |typ| + |body|
    }
  }

  datatype Peer = Peer(
    id: nat, role: Role, verifier: Verifier, info: Option<string>, registered: int, updated: int)

  datatype Session = Session(
    code: string,
    created: int,
    sender: Option<Peer>,
    receiver: Option<Peer>,
    pending: map<Role, seq<Message>>,
    nextSideID: nat,
    statsByRole: map<Role, string>,
    stats: Option<string>)

  datatype Error =
    | SessionNotFound | Unavailable | Authentication | QueueFull | BytesFull
    | NoPending | Capacity | Cancelled

  datatype Reply = Ack | Delivered(message: Message)

  datatype Op =
    | ClaimSender(verifier: Verifier)
    | ClaimReceiver(verifier: Verifier)
    | StoreInfo(role: Role, verifier: Verifier, info: string)
    | Enqueue(source: Role, verifier: Verifier, message: Message)
    | Dequeue(role: Role, verifier: Verifier)
    | RecordStats(role: Role, verifier: Verifier, report: string)

  datatype Outcome = Failed(error: Error) | Done(session: Session, reply: Reply)

  function Queue(pending: map<Role, seq<Message>>, role: Role): seq<Message> {
    if role in pending then pending[role] else []
  }

  function QueueBytes(queue: seq<Message>): nat {
    if |queue| == 0 then 0 else QueueBytes(queue[..|queue| - 1]) + queue[|queue| - 1].Bytes()
  }

  function PendingBytes(pending: map<Role, seq<Message>>): nat {
    QueueBytes(Queue(pending, Send)) + QueueBytes(Queue(pending, Recv))
  }

  function PeerFor(s: Session, role: Role): Option<Peer> {
    if role == Send then s.sender else s.receiver
  }

  function WithPeer(s: Session, role: Role, peer: Peer): Session {
    if role == Send then s.(sender := Some(peer)) else s.(receiver := Some(peer))
  }

  predicate Authenticated(s: Session, role: Role, verifier: Verifier) {
    var peer := PeerFor(s, role);
    peer.Some? && VerifierEqual(peer.value.verifier, verifier) && peer.value.role == role
  }

  /** A receiver report is authoritative over a sender report. */
  function Authoritative(statsByRole: map<Role, string>): Option<string> {
    if Recv in statsByRole then Some(statsByRole[Recv])
    else if Send in statsByRole then Some(statsByRole[Send])
    else None
  }

  function MutateClaim(s: Session, role: Role, verifier: Verifier, wall: int): Outcome {
    var mine := PeerFor(s, role);
    if mine.Some? then
      if VerifierEqual(mine.value.verifier, verifier) then Done(s, Ack) else Failed(Unavailable)
    else if role == Recv && s.sender.None? then Failed(Unavailable)
    else if role == Recv && VerifierEqual(s.sender.value.verifier, verifier) then Failed(Unavailable)
    else
      var peer := Peer(s.nextSideID, role, verifier, None, wall, wall);
      Done(WithPeer(s, role, peer).(nextSideID := s.nextSideID + 1), Ack)
  }

  function MutateEnqueue(s: Session, source: Role, verifier: Verifier, message: Message): Outcome {
    var dest := source.Opposite();
    var queue := Queue(s.pending, dest);
    if !Authenticated(s, source, verifier) then Failed(Authentication)
    else if |queue| >= MAX_PENDING_PER_ROLE then Failed(QueueFull)
    else if PendingBytes(s.pending) > MAX_PENDING_BYTES then Failed(BytesFull)
    else if PendingBytes(s.pending) + message.Bytes() > MAX_PENDING_BYTES then Failed(BytesFull)
    else Done(s.(pending := s.pending[dest := queue + [message]]), Ack)
  }

  function MutateDequeue(s: Session, role: Role, verifier: Verifier): Outcome {
    var queue := Queue(s.pending, role);
    if !Authenticated(s, role, verifier) then Failed(Authentication)
    else if |queue| == 0 then Failed(NoPending)
    else Done(s.(pending := s.pending[role := queue[1..]]), Delivered(queue[0]))
  }

  /** The effect of one mutator closure, run at wall-clock second `wall`. */
  function Mutate(op: Op, wall: int, s: Session): Outcome {
    match op
    case ClaimSender(v) => MutateClaim(s, Send, v, wall)
    case ClaimReceiver(v) => MutateClaim(s, Recv, v, wall)
    case StoreInfo(role, v, info) =>
      if !Authenticated(s, role, v) then Failed(Authentication)
      else Done(WithPeer(s, role, PeerFor(s, role).value.(info := Some(info), updated := wall)), Ack)
    case Enqueue(source, v, message) => MutateEnqueue(s, source, v, message)
    case Dequeue(role, v) => MutateDequeue(s, role, v)
    case RecordStats(role, v, report) =>
      if !Authenticated(s, role, v) then Failed(Authentication)
      else
        var reports := s.statsByRole[role := report];
        Done(s.(statsByRole := reports, stats := Authoritative(reports)), Ack)
  }

  /** The session a sender claim creates, stamped with the server's clock in seconds. */
  function FreshSession(code: string, verifier: Verifier, seconds: int): Session {
    Session(code, seconds, Some(Peer(1, Send, verifier, None, seconds, seconds)), None, map[], 2, map[], None)
  }

  /** What every stored session satisfies. */
  ghost predicate SessionOk(s: Session) {
    && s.sender.Some? && s.sender.value.role == Send
    && s.sender.value.verifier.Canonical?
    && 1 <= s.sender.value.id < s.nextSideID
    && (s.receiver.Some? ==>
          && s.receiver.value.role == Recv
          && 1 <= s.receiver.value.id < s.nextSideID
          && s.receiver.value.id != s.sender.value.id
          && s.receiver.value.verifier != s.sender.value.verifier)
    && s.nextSideID == (if s.receiver.Some? then 3 else 2)
    && |Queue(s.pending, Send)| <= MAX_PENDING_PER_ROLE
    && |Queue(s.pending, Recv)| <= MAX_PENDING_PER_ROLE
    && PendingBytes(s.pending) <= MAX_PENDING_BYTES
    && s.stats == Authoritative(s.statsByRole)
  }

  /** Claims are final: a claimed role keeps its ID and verifier, and creation time never moves. */
  ghost predicate ClaimsKept(before: Session, after: Session) {
    && after.code == before.code
    && after.created == before.created
    && (forall role :: PeerFor(before, role).Some? ==>
          && PeerFor(after, role).Some?
          && PeerFor(after, role).value.id == PeerFor(before, role).value.id
          && PeerFor(after, role).value.verifier == PeerFor(before, role).value.verifier
          && PeerFor(after, role).value.role == PeerFor(before, role).value.role)
  }

  lemma QueueBytesSplit(queue: seq<Message>)
    requires |queue| > 0
    ensures QueueBytes(queue) == queue[0].Bytes() + QueueBytes(queue[1..])
  {
    if |queue| > 1 {
      var front, tail := queue[..|queue| - 1], queue[1..];
      QueueBytesSplit(front);
      assert front[1..] == tail[..|tail| - 1];
    }
  }

  /** A queue's bytes are those of the types and bodies of its messages. */
  lemma QueueBytesAppend(queue: seq<Message>, message: Message)
    ensures QueueBytes([]) == 0
    ensures QueueBytes(queue + [message]) == QueueBytes(queue) + |message.typ| + |message.body|
  {
    DropLastAppend(queue, message);
  }

  lemma FreshSessionOk(code: string, verifier: Verifier, seconds: int)
    requires verifier.Canonical?
    ensures SessionOk(FreshSession(code, verifier, seconds))
  {
  }

  lemma ClaimKeeps(s: Session, role: Role, verifier: Verifier, wall: int)
    requires SessionOk(s)
    requires role == Recv ==> verifier.Canonical?
    ensures var o := MutateClaim(s, role, verifier, wall);
            o.Done? ==> SessionOk(o.session) && ClaimsKept(s, o.session)
  {
  }

  lemma EnqueueKeeps(s: Session, source: Role, verifier: Verifier, message: Message)
    requires SessionOk(s)
    ensures var o := MutateEnqueue(s, source, verifier, message);
            o.Done? ==> SessionOk(o.session) && ClaimsKept(s, o.session)
  {
    var o := MutateEnqueue(s, source, verifier, message);
    if o.Done? {
      var dest := source.Opposite();
      QueueBytesAppend(Queue(s.pending, dest), message);
      assert Queue(o.session.pending, source) == Queue(s.pending, source);
      assert Queue(o.session.pending, dest) == Queue(s.pending, dest) + [message];
      assert source == Send || source == Recv;
    }
  }

  lemma DequeueKeeps(s: Session, role: Role, verifier: Verifier)
    requires SessionOk(s)
    ensures var o := MutateDequeue(s, role, verifier);
            o.Done? ==> SessionOk(o.session) && ClaimsKept(s, o.session)
  {
    var o := MutateDequeue(s, role, verifier);
    if o.Done? {
      QueueBytesSplit(Queue(s.pending, role));
      assert Queue(o.session.pending, role.Opposite()) == Queue(s.pending, role.Opposite());
      assert PendingBytes(o.session.pending) <= PendingBytes(s.pending);
    }
  }

  /**
   * Every successful mutation of a well-formed session leaves it well formed and keeps its claims.
   * A receiver claim is only ever made with a canonical verifier, so the two verifiers differ.
   */
  lemma MutateKeeps(op: Op, wall: int, s: Session)
    requires SessionOk(s)
    requires op.ClaimReceiver? ==> op.verifier.Canonical?
    ensures var o := Mutate(op, wall, s);
            o.Done? ==> SessionOk(o.session) && ClaimsKept(s, o.session)
  {
    match op
    case ClaimSender(v) => ClaimKeeps(s, Send, v, wall);
    case ClaimReceiver(v) => ClaimKeeps(s, Recv, v, wall);
    case StoreInfo(role, v, info) =>
    case Enqueue(source, v, message) => EnqueueKeeps(s, source, v, message);
    case Dequeue(role, v) => DequeueKeeps(s, role, v);
    case RecordStats(role, v, report) =>
  }

  // ----- Who may do what -----

  /** Claims of a well-formed session: a role keeps its first verifier, and the two roles' verifiers differ. */
  lemma ClaimIsExact(s: Session, v: Verifier, wall: int)
    requires SessionOk(s)
    ensures Mutate(ClaimSender(v), wall, s) ==
            if v.Canonical? && s.sender.value.verifier == v then Done(s, Ack) else Failed(Unavailable)
    ensures s.receiver.Some? ==>
              Mutate(ClaimReceiver(v), wall, s) ==
              if v.Canonical? && s.receiver.value.verifier == v then Done(s, Ack) else Failed(Unavailable)
    ensures s.receiver.None? && v.Canonical? ==>
              Mutate(ClaimReceiver(v), wall, s) ==
              if s.sender.value.verifier == v then Failed(Unavailable)
              else Done(s.(receiver := Some(Peer(2, Recv, v, None, wall, wall)), nextSideID := 3), Ack)
  {
  }

  /** Metadata is stored for a role exactly with the capability that holds it. */
  lemma StoreInfoIsExact(s: Session, role: Role, v: Verifier, info: string, wall: int)
    requires SessionOk(s)
    ensures var peer := if role == Send then s.sender else s.receiver;
            Mutate(StoreInfo(role, v, info), wall, s) ==
            if peer.Some? && v.Canonical? && peer.value.verifier == v then
              var stored := Some(peer.value.(info := Some(info), updated := wall));
              Done(if role == Send then s.(sender := stored) else s.(receiver := stored), Ack)
            else Failed(Authentication)
  {
  }

  /** A message is accepted for the other role exactly with the capability of its source and within both limits. */
  lemma EnqueueIsExact(s: Session, source: Role, v: Verifier, message: Message, wall: int)
    requires SessionOk(s)
    ensures var peer, dest := if source == Send then s.sender else s.receiver, if source == Send then Recv else Send;
            var toSend := if Send in s.pending then s.pending[Send] else [];
            var toRecv := if Recv in s.pending then s.pending[Recv] else [];
            var queue := if dest == Send then toSend else toRecv;
            Mutate(Enqueue(source, v, message), wall, s) ==
            if peer.None? || !v.Canonical? || peer.value.verifier != v then Failed(Authentication)
            else if |queue| >= 16 then Failed(QueueFull)
            else if QueueBytes(toSend) + QueueBytes(toRecv) + |message.typ| + |message.body| > 262144 then
              Failed(BytesFull)
            else Done(s.(pending := s.pending[dest := queue + [message]]), Ack)
  {
  }

  /** A role's oldest message is handed out exactly with that role's capability. */
  lemma DequeueIsExact(s: Session, role: Role, v: Verifier, wall: int)
    requires SessionOk(s)
    ensures var peer := if role == Send then s.sender else s.receiver;
            var queue := if role in s.pending then s.pending[role] else [];
            Mutate(Dequeue(role, v), wall, s) ==
            if peer.None? || !v.Canonical? || peer.value.verifier != v then Failed(Authentication)
            else if queue == [] then Failed(NoPending)
            else Done(s.(pending := s.pending[role := queue[1..]]), Delivered(queue[0]))
  {
  }

  /** A report is recorded exactly with its role's capability; the receiver's decides what is shown. */
  lemma RecordStatsIsExact(s: Session, role: Role, v: Verifier, report: string, wall: int)
    requires SessionOk(s)
    ensures var peer := if role == Send then s.sender else s.receiver;
            var shown := if role == Send && Recv in s.statsByRole then s.statsByRole[Recv] else report;
            Mutate(RecordStats(role, v, report), wall, s) ==
            if peer.Some? && v.Canonical? && peer.value.verifier == v then
              Done(s.(statsByRole := s.statsByRole[role := report], stats := Some(shown)), Ack)
            else Failed(Authentication)
  {
  }

  /** Repeating a claim with the same verifier succeeds and leaves the session as it was. */
  lemma ClaimIsIdempotent(role: Role, verifier: Verifier, wall: int, again: int, s: Session)
    requires MutateClaim(s, role, verifier, wall).Done? && verifier.Canonical?
    ensures var once := MutateClaim(s, role, verifier, wall).session;
            MutateClaim(once, role, verifier, again) == Done(once, Ack)
  {
  }
}
