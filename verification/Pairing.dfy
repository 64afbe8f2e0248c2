/**
 * The pairing conversation: two programs over two mailbox queues, from the first stored snapshot
 * to the refreshed one. Either side may give up on ICE, or stop altogether, at any point; every
 * interleaving of their steps is a run.
 *
 * Message authenticators are ideal, so a message is its kind, its author's role and the digest it
 * carries. Receives follow the deferral buffer: an untyped receive takes the oldest message, a
 * typed one scans the buffer and then reads the queue one message at a time.
 */
module Pairing {
  import opened Common
  import opened Candidates

  const QUEUE_LIMIT: nat := 16
  const DEFER_LIMIT: nat := 16

  datatype Kind = Pake1 | Pake2 | Auth | IceAuth | IceCands | Ready

  datatype Digest =
    | Empty | Whole(snapshot: Option<Snapshot>) | Targets(candidates: Option<seq<Candidate>>, status: Status)

  /** The digest and merge functions the programs call; `Real` is the one the repository uses. */
  datatype Env = Env(
    whole: SelfInfo -> Option<Snapshot>,
    targets: SelfInfo -> Option<seq<Candidate>>,
    merge: (SelfInfo, SelfInfo, Status) -> SelfInfo)

  function Real(net: Net): Env {
    Env(info => SelfSnapshotDigest(info), (info: SelfInfo) => CandidateSetDigest(info.candidates),
        (initial, refreshed, status) => Merged(net, initial, refreshed, status))
  }

  datatype Msg = Msg(kind: Kind, from: Role, digest: Digest)

  /** What one peer brings: its metadata before and after the port-mapping attempt, and the outcome. */
  datatype Plan = Plan(self: SelfInfo, updated: SelfInfo, status: Status)

  datatype Reason = Misrouted | Rejected | QueueFull | DeferFull | PeerMissing

  datatype Pc =
    | StoreSelf | SendPake1 | RecvPake1 | SendPake2 | RecvPake2 | ReadPeer | SendAuth | RecvAuth
    | IceStart | IceSendCands | IceRecv(auth: bool, cands: bool) | IceConnect
    | StoreUpdated | SendReady | RecvReady | ReadAgain
    | Passed | ByIce | Stopped | Broken(why: Reason)

  /** One program with its buffer, its mailbox queue and its published snapshot. */
  datatype Side = Side(
    plan: Plan, pc: Pc, sent: set<Kind>, got: set<Kind>, deferred: seq<Msg>, inbox: seq<Msg>,
    stored: Option<SelfInfo>, peerInfo: Option<SelfInfo>, ready: Option<Msg>, merged: Option<SelfInfo>)

  datatype Sys = Sys(sender: Side, receiver: Side)

  datatype Action = Move(role: Role) | Abandon(role: Role) | IceWins(role: Role) | Stop(role: Role) | Lease(role: Role)

  function Start(plan: Plan): Side {
    Side(plan, StoreSelf, {}, {}, [], [], None, None, None, None)
  }

  function Init(send: Plan, recv: Plan): Sys {
    Sys(Start(send), Start(recv))
  }

  predicate Terminal(pc: Pc) {
    pc.Passed? || pc.ByIce? || pc.Stopped? || pc.Broken?
  }

  /** The message of one kind that an honest peer sends. */
  function MessageFor(env: Env, role: Role, plan: Plan, kind: Kind): Msg {
    match kind
    case Auth => Msg(Auth, role, Whole(env.whole(plan.self)))
    case Ready => Msg(Ready, role, Targets(env.targets(plan.updated), plan.status))
    case _ => Msg(kind, role, Empty)
  }

  /** One program and its peer; every step is written from the program's own side. */
  datatype Pair = Pair(me: Side, peer: Side)

  function Break(p: Pair, why: Reason): Pair {
    p.(me := p.me.(pc := Broken(why)))
  }

  /** Enqueues one message for the peer and moves on. */
  function SendMsg(env: Env, role: Role, p: Pair, kind: Kind, next: Pc): Pair {
    if |p.peer.inbox| >= QUEUE_LIMIT then Break(p, QueueFull)
    else
      Pair(p.me.(pc := next, sent := p.me.sent + {kind}),
           p.peer.(inbox := p.peer.inbox + [MessageFor(env, role, p.me.plan, kind)]))
  }

  /** An untyped receive: whatever comes first must be the expected message. */
  function ReceiveAny(p: Pair, kind: Kind, next: Pc): Pair {
    var q := p.me.deferred + p.me.inbox;
    if |q| == 0 then p
    else if q[0].kind != kind then Break(p, Misrouted)
    else
      var me := p.me.(pc := next, got := p.me.got + {kind});
      p.(me := if |me.deferred| > 0 then me.(deferred := me.deferred[1..]) else me.(inbox := me.inbox[1..]))
  }

  function FirstOf(q: seq<Msg>, accepted: set<Kind>): (k: nat)
    ensures k <= |q|
    ensures k < |q| ==> q[k].kind in accepted
    ensures forall i :: 0 <= i < k ==> q[i].kind !in accepted
  {
    if |q| == 0 || q[0].kind in accepted then 0 else 1 + FirstOf(q[1..], accepted)
  }

  /** What a program does with a message of the phase it is in. */
  function Handle(env: Env, role: Role, me: Side, m: Msg): Side {
    var got := me.(got := me.got + {m.kind});
    if m.from != role.Opposite() then got.(pc := Broken(Rejected))
    else
      match me.pc
      case RecvAuth =>
        if && me.peerInfo.Some? && env.whole(me.peerInfo.value).Some?
           && m.digest == Whole(env.whole(me.peerInfo.value)) then got.(pc := IceStart)
        else got.(pc := Broken(Rejected))
      case IceRecv(auth, cands) =>
        var auth', cands' := auth || m.kind == IceAuth, cands || m.kind == IceCands;
        got.(pc := if auth' && cands' then IceConnect else IceRecv(auth', cands'))
      case RecvReady => got.(pc := ReadAgain, ready := Some(m))
      case _ => me
  }

  /** The kinds a typed receive accepts in its phase. */
  function Accepts(pc: Pc): set<Kind> {
    match pc
    case RecvAuth => {Auth}
    case IceRecv(_, _) => {IceAuth, IceCands}
    case RecvReady => {Ready}
    case _ => {}
  }

  /** One step of a typed receive: deliver from the buffer, or read one message and deliver or defer it. */
  function ReceiveTyped(env: Env, role: Role, p: Pair): Pair {
    var me, accepted := p.me, Accepts(p.me.pc);
    var k := FirstOf(me.deferred, accepted);
    if k < |me.deferred| then
      p.(me := Handle(env, role, me.(deferred := me.deferred[..k] + me.deferred[k + 1..]), me.deferred[k]))
    else if |me.inbox| == 0 then p
    else
      var m, rest := me.inbox[0], me.(inbox := me.inbox[1..]);
      if m.kind in accepted then p.(me := Handle(env, role, rest, m))
      else if |me.deferred| >= DEFER_LIMIT then Break(p, DeferFull)
      else p.(me := rest.(deferred := me.deferred + [m]))
  }

  /** The second read of the peer's snapshot, checked against the digest its readiness announced. */
  function Refresh(env: Env, p: Pair): Pair {
    var me, found := p.me, p.peer.stored;
    if found.None? || me.ready.None? || me.peerInfo.None? then Break(p, PeerMissing)
    else if env.targets(found.value).None? then Break(p, Rejected)
    else
      match me.ready.value.digest
      case Targets(digest, status) =>
        if digest != env.targets(found.value) then Break(p, Rejected)
        else p.(me := me.(pc := Passed, merged := Some(env.merge(me.peerInfo.value, found.value, status))))
      case _ => Break(p, Rejected)
  }

  /** Which message a sending state sends, and where it goes next. */
  function Sends(role: Role, pc: Pc): Option<(Kind, Pc)> {
    match pc
    case SendPake1 => Some((Pake1, if role == Send then RecvPake1 else RecvPake2))
    case SendPake2 => Some((Pake2, ReadPeer))
    case SendAuth => Some((Auth, RecvAuth))
    case IceStart => Some((IceAuth, IceSendCands))
    case IceSendCands => Some((IceCands, IceRecv(false, false)))
    case SendReady => Some((Ready, RecvReady))
    case _ => None
  }

  /** Whether a program has what it is about to announce. */
  predicate HasDigest(env: Env, pc: Pc, plan: Plan) {
    && (pc.SendAuth? ==> env.whole(plan.self).Some?)
    && (pc.SendReady? ==> env.targets(plan.updated).Some?)
  }

  function DoMove(env: Env, role: Role, p: Pair): Pair {
    var me := p.me;
    match me.pc
    case StoreSelf => p.(me := me.(stored := Some(me.plan.self), pc := if role == Send then SendPake1 else RecvPake1))
    case RecvPake1 => ReceiveAny(p, Pake1, if role == Send then SendPake2 else SendPake1)
    case RecvPake2 => ReceiveAny(p, Pake2, ReadPeer)
    case ReadPeer =>
      if p.peer.stored.None? then Break(p, PeerMissing)
      else p.(me := me.(pc := SendAuth, peerInfo := p.peer.stored))
    case StoreUpdated => p.(me := me.(stored := Some(me.plan.updated), pc := SendReady))
    case ReadAgain => Refresh(env, p)
    case _ =>
      if Accepts(me.pc) != {} then ReceiveTyped(env, role, p)
      // A snapshot that is refused has no digest; its owner gives up before sending.
      else if !HasDigest(env, me.pc, me.plan) then p.(me := me.(pc := Stopped))
      else if Sends(role, me.pc).Some? then
        SendMsg(env, role, p, Sends(role, me.pc).value.0, Sends(role, me.pc).value.1)
      else p
  }

  predicate InIce(pc: Pc) {
    pc.IceStart? || pc.IceSendCands? || pc.IceRecv? || pc.IceConnect?
  }

  /**
   * A lease refresh publishes the original snapshot again. It runs only once its own program is
   * past pairing, and not while the other side could still be between this side's readiness and
   * its second read.
   */
  predicate LeaseAllowed(p: Pair) {
    Terminal(p.me.pc) && (Ready !in p.me.sent || Terminal(p.peer.pc))
  }

  function Step(env: Env, p: Pair, a: Action): Pair {
    var me := p.me;
    match a
    case Move(role) => DoMove(env, role, p)
    case Abandon(_) => if InIce(me.pc) then p.(me := me.(pc := StoreUpdated)) else p
    case IceWins(_) => if me.pc.IceConnect? then p.(me := me.(pc := ByIce)) else p
    case Stop(_) => if Terminal(me.pc) then p else p.(me := me.(pc := Stopped))
    case Lease(_) =>
      if LeaseAllowed(p) && me.stored.Some? then p.(me := me.(stored := Some(me.plan.self))) else p
  }

  function Next(env: Env, s: Sys, a: Action): Sys {
    var p := Step(env, if a.role == Send then Pair(s.sender, s.receiver) else Pair(s.receiver, s.sender), a);
    if a.role == Send then Sys(p.me, p.peer) else Sys(p.peer, p.me)
  }

  function Run(env: Env, send: Plan, recv: Plan, actions: seq<Action>): Sys {
    if |actions| == 0 then Init(send, recv)
    else Next(env, Run(env, send, recv, actions[..|actions| - 1]), actions[|actions| - 1])
  }

  /** A send breaks its program exactly when the peer's queue holds sixteen messages. */
  lemma SendBreaksExactly(env: Env, role: Role, p: Pair, kind: Kind, next: Pc)
    requires !next.Broken?
    ensures SendMsg(env, role, p, kind, next).me.pc == (if |p.peer.inbox| >= 16 then Broken(QueueFull) else next)
  {
  }

  /** An untyped receive breaks it exactly when what comes first, from the buffer or the queue, is of another kind. */
  lemma ReceiveBreaksExactly(p: Pair, kind: Kind, next: Pc)
    ensures var first := if |p.me.deferred| > 0 then p.me.deferred[0].kind
                         else if |p.me.inbox| > 0 then p.me.inbox[0].kind else kind;
            ReceiveAny(p, kind, next).me.pc ==
            if p.me.deferred == [] && p.me.inbox == [] then p.me.pc
            else if first != kind then Broken(Misrouted)
            else next
  {
  }

  /** A typed receive breaks it for want of room exactly when it would set aside a seventeenth message. */
  lemma DeferBreaksExactly(env: Env, role: Role, p: Pair)
    requires p.me.pc.RecvAuth? || p.me.pc.IceRecv? || p.me.pc.RecvReady?
    ensures ReceiveTyped(env, role, p).me.pc == Broken(DeferFull) <==>
              && (forall m :: m in p.me.deferred ==> m.kind !in Accepts(p.me.pc))
              && |p.me.inbox| > 0 && p.me.inbox[0].kind !in Accepts(p.me.pc) && |p.me.deferred| >= 16
    ensures Accepts(p.me.pc) ==
            if p.me.pc.RecvAuth? then {Auth} else if p.me.pc.RecvReady? then {Ready} else {IceAuth, IceCands}
  {
    var k := FirstOf(p.me.deferred, Accepts(p.me.pc));
    if k < |p.me.deferred| {
      assert p.me.deferred[k] in p.me.deferred;
    }
  }

  /** Reading the peer's snapshot breaks it exactly when there is none. */
  lemma PeerMissingExactly(env: Env, role: Role, p: Pair)
    requires p.me.pc.ReadPeer?
    ensures DoMove(env, role, p) ==
            if p.peer.stored == None then p.(me := p.me.(pc := Broken(PeerMissing)))
            else p.(me := p.me.(pc := SendAuth, peerInfo := p.peer.stored))
  {
  }

  /** Left alone, a program stops exactly when a snapshot that it is about to announce was refused. */
  lemma StopsOnlyWithoutDigest(env: Env, role: Role, p: Pair)
    requires !Terminal(p.me.pc)
    ensures DoMove(env, role, p).me.pc == Stopped <==>
              || (p.me.pc == SendAuth && env.whole(p.me.plan.self) == None)
              || (p.me.pc == SendReady && env.targets(p.me.plan.updated) == None)
  {
  }

  lemma RunAppend(env: Env, send: Plan, recv: Plan, actions: seq<Action>, a: Action)
    ensures Run(env, send, recv, []) == Init(send, recv)
    ensures Run(env, send, recv, actions + [a]) == Next(env, Run(env, send, recv, actions), a)
  {
    assert (actions + [a])[..|actions|] == actions;
  }

  // ----- Invariant -----

  /** Where a running program is fixes what it has sent and received. */
  ghost predicate Progress(role: Role, x: Side) {
    match x.pc
    case StoreSelf => x.sent == {} && x.got == {}
    case SendPake1 => x.sent == {} && x.got == (if role == Send then {} else {Pake1})
    case RecvPake1 => x.got == {} && x.sent == (if role == Send then {Pake1} else {})
    case SendPake2 => role == Send && x.sent == {Pake1} && x.got == {Pake1}
    case RecvPake2 => role == Recv && x.sent == {Pake1} && x.got == {Pake1}
    case ReadPeer => Paked(role, x) && Auth !in x.sent && Auth !in x.got
    case SendAuth => Paked(role, x) && Auth !in x.sent && Auth !in x.got
    case RecvAuth => Paked(role, x) && Auth in x.sent && Auth !in x.got
    case IceStart =>
      Met(role, x) && IceAuth !in x.sent && IceCands !in x.sent && IceAuth !in x.got && IceCands !in x.got
    case IceSendCands => Met(role, x) && IceCands !in x.sent && IceAuth !in x.got && IceCands !in x.got
    case IceRecv(auth, cands) => Met(role, x) && (auth <==> IceAuth in x.got) && (cands <==> IceCands in x.got)
    case IceConnect => Met(role, x)
    case StoreUpdated => Met(role, x)
    case SendReady => Met(role, x)
    case RecvReady => Readied(role, x) && Ready !in x.got
    case ReadAgain => Readied(role, x) && Ready in x.got
    case Passed => Readied(role, x) && Ready in x.got
    case ByIce => Met(role, x)
    case Stopped => true
    case Broken(_) => true
  }

  ghost predicate Paked(role: Role, x: Side) {
    && Pake1 in x.sent && Pake1 in x.got
    && (role == Send ==> Pake2 in x.sent) && (role == Recv ==> Pake2 in x.got)
    && IceAuth !in x.sent && IceCands !in x.sent && Ready !in x.sent
    && IceAuth !in x.got && IceCands !in x.got && Ready !in x.got
  }

  ghost predicate Met(role: Role, x: Side) {
    && Pake1 in x.sent && Pake1 in x.got && Auth in x.sent && Auth in x.got
    && Ready !in x.sent && Ready !in x.got
  }

  ghost predicate Readied(role: Role, x: Side) {
    Pake1 in x.sent && Auth in x.sent && Auth in x.got && Ready in x.sent
  }

  /** Nothing is sent before what its program waits for has arrived, whatever happened since. */
  ghost predicate Causal(role: Role, x: Side) {
    && (role == Send && Pake2 in x.sent ==> Pake1 in x.got && Pake1 in x.sent)
    && (role == Recv ==> Pake2 !in x.sent)
    && (role == Recv && Pake1 in x.sent ==> Pake1 in x.got)
    && (Auth in x.sent ==> Pake1 in x.sent && (if role == Send then Pake2 in x.sent else Pake2 in x.got))
    && ((IceAuth in x.sent || IceCands in x.sent || Ready in x.sent) ==> Auth in x.got && Auth in x.sent)
  }

  /** What a program knows about its peer, and what it has published. */
  ghost predicate Knows(env: Env, role: Role, x: Side, y: Side) {
    && (Pake1 in x.sent || !(x.pc.StoreSelf? || Terminal(x.pc)) ==> x.stored.Some?)
    && (x.stored.Some? && Auth !in x.got ==> x.stored == Some(x.plan.self))
    && ((Auth in x.sent || x.pc.SendAuth?) ==> x.peerInfo == Some(y.plan.self))
    && (Auth in x.sent ==> env.whole(x.plan.self).Some?)
    && (Ready in x.sent ==> env.targets(x.plan.updated).Some?)
    && ((x.pc.SendReady? || (Ready in x.sent && !Terminal(y.pc))) ==> x.stored == Some(x.plan.updated))
    && (Ready in x.got ==> x.ready == Some(MessageFor(env, role.Opposite(), y.plan, Ready)))
  }

  /** Messages of distinct kinds, each the honest one, and exactly the kinds still outstanding. */
  ghost predicate Flight(env: Env, q: seq<Msg>, outstanding: set<Kind>, from: Role, plan: Plan) {
    && (forall i, j :: 0 <= i < j < |q| ==> q[i].kind != q[j].kind)
    && (forall i :: 0 <= i < |q| ==> q[i].kind in outstanding && q[i] == MessageFor(env, from, plan, q[i].kind))
    && (forall kind :: kind in outstanding ==> exists i :: 0 <= i < |q| && q[i].kind == kind)
    && (forall i, j :: 0 <= i < |q| && 0 <= j < |q| && q[i].kind == Pake2 && q[j].kind == Auth ==> i < j)
  }

  /** The messages on their way to `x`: one per kind sent and not yet received. */
  ghost predicate InFlight(env: Env, role: Role, x: Side, y: Side) {
    && x.got <= y.sent
    && Flight(env, x.deferred + x.inbox, y.sent - x.got, role.Opposite(), y.plan)
    && (Auth !in x.sent ==> x.deferred == [])
  }

  ghost predicate Fields(env: Env, role: Role, x: Side, y: Side) {
    Progress(role, x) && Causal(role, x) && Knows(env, role, x, y)
  }

  ghost predicate SideOk(env: Env, role: Role, x: Side, y: Side) {
    && !x.pc.Broken?
    && Fields(env, role, x, y) && InFlight(env, role, x, y)
    && (x.pc.Passed? ==> x.merged == Some(env.merge(y.plan.self, y.plan.updated, y.plan.status)))
  }

  ghost predicate BothOk(env: Env, role: Role, x: Side, y: Side) {
    SideOk(env, role, x, y) && SideOk(env, role.Opposite(), y, x)
  }

  ghost predicate Inv(env: Env, send: Plan, recv: Plan, s: Sys) {
    s.sender.plan == send && s.receiver.plan == recv && BothOk(env, Send, s.sender, s.receiver)
  }

  // ----- Preservation -----

  const ALL_KINDS: set<Kind> := {Pake1, Pake2, Auth, IceAuth, IceCands, Ready}

  function KindsOf(q: seq<Msg>): set<Kind> {
    set m | m in q :: m.kind
  }

  lemma {:induction false} DistinctKinds(q: seq<Msg>)
    requires forall i, j :: 0 <= i < j < |q| ==> q[i].kind != q[j].kind
    ensures |KindsOf(q)| == |q|
  {
    if |q| > 0 {
      var rest, last := q[..|q| - 1], q[|q| - 1];
      assert q == rest + [last];
      DistinctKinds(rest);
      KindsAppend(rest, last);
      assert last.kind !in KindsOf(rest);
    }
  }

  lemma KindsAppend(q: seq<Msg>, m: Msg)
    ensures KindsOf(q + [m]) == KindsOf(q) + {m.kind}
  {
    assert forall x :: x in q + [m] <==> x in q || x == m;
  }

  /** With one message per kind, neither a queue nor a buffer can hold more than six. */
  lemma AtMostSix(env: Env, q: seq<Msg>, outstanding: set<Kind>, from: Role, plan: Plan)
    requires Flight(env, q, outstanding, from, plan)
    ensures |q| <= 6
  {
    DistinctKinds(q);
    var kinds := KindsOf(q);
    assert kinds <= ALL_KINDS;
    SubsetSize(kinds, ALL_KINDS);
    assert |ALL_KINDS| == 6;
  }

  lemma FlightAppend(env: Env, q: seq<Msg>, outstanding: set<Kind>, from: Role, plan: Plan, kind: Kind)
    requires Flight(env, q, outstanding, from, plan) && kind !in outstanding
    requires kind == Pake2 ==> Auth !in outstanding
    ensures Flight(env, q + [MessageFor(env, from, plan, kind)], outstanding + {kind}, from, plan)
  {
    var q' := q + [MessageFor(env, from, plan, kind)];
    assert q'[|q|].kind == kind;
    forall k | k in outstanding
      ensures exists i :: 0 <= i < |q'| && q'[i].kind == k
    {
      var i :| 0 <= i < |q| && q[i].kind == k;
      assert q'[i].kind == k;
    }
  }

  lemma RemoveAt(q: seq<Msg>, k: nat, i: nat)
    requires k < |q| && i < |q| - 1
    ensures (q[..k] + q[k + 1..])[i] == q[if i < k then i else i + 1]
  {
  }

  lemma FlightRemove(env: Env, q: seq<Msg>, outstanding: set<Kind>, from: Role, plan: Plan, k: nat)
    requires Flight(env, q, outstanding, from, plan) && k < |q|
    ensures Flight(env, q[..k] + q[k + 1..], outstanding - {q[k].kind}, from, plan)
  {
    var q', left := q[..k] + q[k + 1..], outstanding - {q[k].kind};
    forall i | 0 <= i < |q'|
      ensures q'[i] == q[if i < k then i else i + 1]
    {
      RemoveAt(q, k, i);
    }
    forall kind | kind in left
      ensures exists i :: 0 <= i < |q'| && q'[i].kind == kind
    {
      var i :| 0 <= i < |q| && q[i].kind == kind;
      RemoveAt(q, k, if i < k then i else i - 1);
    }
  }

  /** The other side cannot tell a step that neither sends nor ends a terminal state. */
  lemma PeerFrame(env: Env, role: Role, x: Side, x': Side, y: Side)
    requires SideOk(env, role.Opposite(), y, x)
    requires x'.plan == x.plan && x'.sent == x.sent && (Terminal(x.pc) ==> Terminal(x'.pc))
    ensures SideOk(env, role.Opposite(), y, x')
  {
  }

  /** A message that is new has room in its queue and arrives there last. */
  lemma Arrives(env: Env, role: Role, x: Side, y: Side, kind: Kind, x': Side)
    requires InFlight(env, role.Opposite(), y, x) && kind !in x.sent && (kind == Pake2 ==> Auth !in x.sent)
    requires x'.sent == x.sent + {kind} && x'.plan == x.plan
    ensures |y.inbox| < QUEUE_LIMIT
    ensures InFlight(env, role.Opposite(), y.(inbox := y.inbox + [MessageFor(env, role, x.plan, kind)]), x')
  {
    assert role.Opposite().Opposite() == role;
    var q, m := y.deferred + y.inbox, MessageFor(env, role, x.plan, kind);
    AtMostSix(env, q, x.sent - y.got, role, x.plan);
    FlightAppend(env, q, x.sent - y.got, role, x.plan, kind);
    assert y.deferred + (y.inbox + [m]) == q + [m];
    assert x'.sent - y.got == (x.sent - y.got) + {kind};
  }

  /** The receiving side cannot tell a message that arrives while its sender goes on. */
  lemma ArrivalFrame(env: Env, role: Role, x: Side, x': Side, y: Side, inbox: seq<Msg>)
    requires SideOk(env, role.Opposite(), y, x)
    requires x'.plan == x.plan && !Terminal(x.pc)
    requires InFlight(env, role.Opposite(), y.(inbox := inbox), x')
    ensures SideOk(env, role.Opposite(), y.(inbox := inbox), x')
  {
  }

  /** A send step: the message is new, there is room for it, and it arrives as the last in its queue. */
  lemma SendStep(env: Env, role: Role, x: Side, y: Side, kind: Kind, next: Pc)
    requires BothOk(env, role, x, y) && kind !in x.sent && !Terminal(x.pc) && !Terminal(next)
    requires kind == Pake2 ==> Auth !in x.sent
    requires Fields(env, role, x.(pc := next, sent := x.sent + {kind}), y)
    ensures |y.inbox| < QUEUE_LIMIT
    ensures BothOk(env, role, x.(pc := next, sent := x.sent + {kind}),
                   y.(inbox := y.inbox + [MessageFor(env, role, x.plan, kind)]))
  {
    var x' := x.(pc := next, sent := x.sent + {kind});
    Arrives(env, role, x, y, kind, x');
    ArrivalFrame(env, role, x, x', y, y.inbox + [MessageFor(env, role, x.plan, kind)]);
    assert InFlight(env, role, x', y);
  }

  /** A receive step that delivers position `k` of everything on its way to `x`. */
  lemma TakeStep(env: Env, role: Role, x: Side, y: Side, k: nat, x': Side)
    requires BothOk(env, role, x, y) && k < |x.deferred + x.inbox| && !Terminal(x.pc) && !Terminal(x'.pc)
    requires x'.plan == x.plan && x'.sent == x.sent && x'.got == x.got + {(x.deferred + x.inbox)[k].kind}
    requires x'.deferred + x'.inbox == (x.deferred + x.inbox)[..k] + (x.deferred + x.inbox)[k + 1..]
    requires Auth !in x.sent ==> x'.deferred == []
    requires Fields(env, role, x', y)
    ensures BothOk(env, role, x', y)
  {
    var q := x.deferred + x.inbox;
    FlightRemove(env, q, y.sent - x.got, role.Opposite(), y.plan, k);
    assert y.sent - x'.got == (y.sent - x.got) - {q[k].kind};
    PeerFrame(env, role, x, x', y);
  }

  /** A step that touches only the mover's own fields. */
  lemma LocalStep(env: Env, role: Role, x: Side, y: Side, x': Side)
    requires BothOk(env, role, x, y)
    requires x'.plan == x.plan && x'.sent == x.sent && x'.got == x.got && (Terminal(x.pc) ==> Terminal(x'.pc))
    requires x'.deferred + x'.inbox == x.deferred + x.inbox && (Auth !in x.sent ==> x'.deferred == [])
    requires !x'.pc.Broken? && Fields(env, role, x', y)
    requires x'.pc.Passed? ==> x'.merged == Some(env.merge(y.plan.self, y.plan.updated, y.plan.status))
    ensures BothOk(env, role, x', y)
  {
    PeerFrame(env, role, x, x', y);
  }

  lemma SendFields(env: Env, role: Role, x: Side, y: Side, kind: Kind, next: Pc)
    requires Fields(env, role, x, y) && Sends(role, x.pc) == Some((kind, next))
    requires HasDigest(env, x.pc, x.plan)
    ensures kind !in x.sent && (kind == Pake2 ==> Auth !in x.sent) && !Terminal(x.pc) && !Terminal(next)
    ensures Fields(env, role, x.(pc := next, sent := x.sent + {kind}), y)
  {
  }

  lemma SendMove(env: Env, role: Role, p: Pair, kind: Kind, next: Pc)
    requires BothOk(env, role, p.me, p.peer) && Sends(role, p.me.pc) == Some((kind, next))
    requires HasDigest(env, p.me.pc, p.me.plan)
    ensures PairOk(env, role, p, SendMsg(env, role, p, kind, next))
  {
    SendFields(env, role, p.me, p.peer, kind, next);
    SendStep(env, role, p.me, p.peer, kind, next);
  }

  /** A step keeps both sides' invariants and neither side's plan moves. */
  ghost predicate PairOk(env: Env, role: Role, p: Pair, p': Pair) {
    BothOk(env, role, p'.me, p'.peer) && p'.me.plan == p.me.plan && p'.peer.plan == p.peer.plan
  }

  /** The first message a program waits for is the first one that can reach it. */
  lemma HeadIsExpected(env: Env, role: Role, x: Side, y: Side)
    requires Progress(role, x) && Causal(role, x) && Causal(role.Opposite(), y)
    requires InFlight(env, role, x, y) && y.got <= x.sent
    requires x.pc.RecvPake1? || x.pc.RecvPake2?
    ensures var q := x.deferred + x.inbox;
            |q| > 0 ==> q[0].kind == if x.pc.RecvPake1? then Pake1 else Pake2
  {
    var q := x.deferred + x.inbox;
    assert |q| > 0 ==> q[0].kind in y.sent - x.got;
    if x.pc.RecvPake2? && Auth in y.sent {
      assert Pake2 in y.sent - x.got;
      var i :| 0 <= i < |q| && q[i].kind == Pake2;
    }
  }

  lemma ReceiveAnyFields(env: Env, role: Role, x: Side, y: Side, kind: Kind, next: Pc, x': Side)
    requires Fields(env, role, x, y) && AwaitsPake(role, x.pc, kind, next)
    requires x' == x.(pc := next, got := x.got + {kind}, deferred := x'.deferred, inbox := x'.inbox)
    ensures Fields(env, role, x', y)
  {
  }

  predicate AwaitsPake(role: Role, pc: Pc, kind: Kind, next: Pc) {
    || (pc.RecvPake1? && kind == Pake1 && next == if role == Send then SendPake2 else SendPake1)
    || (pc.RecvPake2? && kind == Pake2 && next == ReadPeer)
  }

  lemma AwaitingFacts(env: Env, role: Role, x: Side, y: Side, kind: Kind, next: Pc)
    requires Progress(role, x) && InFlight(env, role, x, y) && AwaitsPake(role, x.pc, kind, next)
    ensures x.deferred == [] && Auth !in x.sent && !Terminal(x.pc) && !Terminal(next)
  {
  }

  lemma ReceiveAnyTakes(p: Pair, kind: Kind, next: Pc)
    requires p.me.deferred == [] && |p.me.inbox| > 0 && p.me.inbox[0].kind == kind
    ensures ReceiveAny(p, kind, next) == p.(me := p.me.(pc := next, got := p.me.got + {kind}, inbox := p.me.inbox[1..]))
  {
    assert p.me.deferred + p.me.inbox == p.me.inbox;
  }

  lemma ReceiveAnyMove(env: Env, role: Role, p: Pair, kind: Kind, next: Pc)
    requires BothOk(env, role, p.me, p.peer) && AwaitsPake(role, p.me.pc, kind, next)
    ensures PairOk(env, role, p, ReceiveAny(p, kind, next))
  {
    var x, y := p.me, p.peer;
    AwaitingFacts(env, role, x, y, kind, next);
    if |x.inbox| > 0 {
      TakenFromQueue(x.deferred, x.inbox);
      HeadIsExpected(env, role, x, y);
      ReceiveAnyTakes(p, kind, next);
      TakeHead(env, role, x, y, kind, next);
    }
  }

  lemma TakeHead(env: Env, role: Role, x: Side, y: Side, kind: Kind, next: Pc)
    requires BothOk(env, role, x, y) && AwaitsPake(role, x.pc, kind, next)
    requires x.deferred == [] && |x.inbox| > 0 && x.inbox[0].kind == kind
    requires Auth !in x.sent && !Terminal(x.pc) && !Terminal(next)
    ensures BothOk(env, role, x.(pc := next, got := x.got + {kind}, inbox := x.inbox[1..]), y)
  {
    var x' := x.(pc := next, got := x.got + {kind}, inbox := x.inbox[1..]);
    TakenFromQueue(x.deferred, x.inbox);
    ReceiveAnyFields(env, role, x, y, kind, next, x');
    TakeStep(env, role, x, y, |x.deferred|, x');
  }

  /** Handling the honest message of the current phase moves on and never rejects. */
  lemma HandledOk(env: Env, role: Role, x: Side, y: Side, m: Msg, rest: Side)
    requires Fields(env, role, x, y) && m.kind in Accepts(x.pc)
    requires m == MessageFor(env, role.Opposite(), y.plan, m.kind) && (m.kind == Auth ==> env.whole(y.plan.self).Some?)
    requires rest == x.(deferred := rest.deferred, inbox := rest.inbox)
    ensures var h := Handle(env, role, rest, m);
            && h == rest.(pc := h.pc, got := x.got + {m.kind}, ready := h.ready)
            && !Terminal(x.pc) && !Terminal(h.pc) && Auth in x.sent && Fields(env, role, h, y)
  {
  }

  /** A snapshot authenticator is accepted exactly if it is the peer's own, for the snapshot that was read. */
  lemma AcceptedAuthIsHonest(env: Env, role: Role, me: Side, m: Msg, peer: Plan)
    requires me.pc.RecvAuth? && me.peerInfo == Some(peer.self) && m.kind == Auth
    ensures var h := Handle(env, role, me, m);
            if m == Msg(Auth, if role == Send then Recv else Send, Whole(env.whole(peer.self)))
               && env.whole(peer.self).Some?
            then h == me.(pc := IceStart, got := me.got + {Auth})
            else h.pc == Broken(Rejected)
  {
  }

  /** A program goes on to connect exactly when both of the peer's ICE messages have come, in either order. */
  lemma IceNeedsBoth(env: Env, role: Role, me: Side, m: Msg)
    requires me.pc.IceRecv? && m.from == (if role == Send then Recv else Send) && m.kind in {IceAuth, IceCands}
    ensures var h := Handle(env, role, me, m);
            var auth, cands := me.pc.auth || m.kind == IceAuth, me.pc.cands || m.kind == IceCands;
            && h == me.(pc := h.pc, got := me.got + {m.kind})
            && (if auth && cands then h.pc == IceConnect else h.pc == IceRecv(auth, cands))
  {
  }

  /** A program may stop at any point, give ICE up anywhere in it, and succeed by it once it is connecting. */
  lemma OutcomesAreExact(env: Env, p: Pair, role: Role)
    requires p.me.pc !in {Passed, ByIce, Stopped} && !p.me.pc.Broken?
    ensures Step(env, p, Stop(role)) == p.(me := p.me.(pc := Stopped))
    ensures Step(env, p, IceWins(role)) == if p.me.pc == IceConnect then p.(me := p.me.(pc := ByIce)) else p
    ensures Step(env, p, Abandon(role)) ==
            if p.me.pc in {IceStart, IceSendCands, IceConnect} || p.me.pc.IceRecv? then
              p.(me := p.me.(pc := StoreUpdated))
            else p
  {
  }

  /** A lease is refreshed exactly once its program is done and the peer cannot be waiting for the second read. */
  lemma LeaseIsExact(env: Env, p: Pair, role: Role)
    requires p.me.stored.Some?
    ensures var done := p.me.pc in {Passed, ByIce, Stopped} || p.me.pc.Broken?;
            var peerDone := p.peer.pc in {Passed, ByIce, Stopped} || p.peer.pc.Broken?;
            Step(env, p, Lease(role)) ==
            if done && (Ready in p.me.sent ==> peerDone) then p.(me := p.me.(stored := Some(p.me.plan.self))) else p
  {
  }

  /** A second read passes exactly if the readiness message announced the digest of what is found. */
  lemma RefreshIsExact(env: Env, p: Pair)
    ensures var h := Refresh(env, p).me;
            h.pc == Passed <==>
              (&& p.peer.stored.Some? && p.me.ready.Some? && p.me.peerInfo.Some?
               && env.targets(p.peer.stored.value).Some? && p.me.ready.value.digest.Targets?
               && p.me.ready.value.digest.candidates == env.targets(p.peer.stored.value)
               && h.merged == Some(env.merge(p.me.peerInfo.value, p.peer.stored.value, p.me.ready.value.digest.status)))
  {
  }

  /** Delivering position `k`, wherever it is, keeps the invariant. */
  lemma DeliverMove(env: Env, role: Role, p: Pair, k: nat, rest: Side)
    requires BothOk(env, role, p.me, p.peer) && k < |p.me.deferred + p.me.inbox|
    requires (p.me.deferred + p.me.inbox)[k].kind in Accepts(p.me.pc)
    requires rest == p.me.(deferred := rest.deferred, inbox := rest.inbox)
    requires rest.deferred + rest.inbox == (p.me.deferred + p.me.inbox)[..k] + (p.me.deferred + p.me.inbox)[k + 1..]
    ensures PairOk(env, role, p, p.(me := Handle(env, role, rest, (p.me.deferred + p.me.inbox)[k])))
  {
    var m := (p.me.deferred + p.me.inbox)[k];
    HandledOk(env, role, p.me, p.peer, m, rest);
    TakeStep(env, role, p.me, p.peer, k, Handle(env, role, rest, m));
  }

  lemma DeferMove(env: Env, role: Role, p: Pair, rest: Side)
    requires BothOk(env, role, p.me, p.peer) && Accepts(p.me.pc) != {}
    requires rest == p.me.(deferred := rest.deferred, inbox := rest.inbox)
    requires rest.deferred + rest.inbox == p.me.deferred + p.me.inbox
    ensures PairOk(env, role, p, p.(me := rest))
  {
    DeferFields(env, role, p.me, p.peer, rest);
    LocalStep(env, role, p.me, p.peer, rest);
  }

  lemma DeferFields(env: Env, role: Role, x: Side, y: Side, x': Side)
    requires Fields(env, role, x, y) && Accepts(x.pc) != {}
    requires x' == x.(deferred := x'.deferred, inbox := x'.inbox)
    ensures Fields(env, role, x', y) && Auth in x.sent && !Terminal(x.pc)
  {
  }

  lemma BufferHasRoom(env: Env, role: Role, x: Side, y: Side)
    requires InFlight(env, role, x, y)
    ensures |x.deferred| + |x.inbox| <= 6
  {
    AtMostSix(env, x.deferred + x.inbox, y.sent - x.got, role.Opposite(), y.plan);
  }

  /** The three things one step of a typed receive can do, when the buffer has room. */
  lemma ReceiveTypedCases(env: Env, role: Role, p: Pair, k: nat)
    requires k == FirstOf(p.me.deferred, Accepts(p.me.pc)) && |p.me.deferred| < DEFER_LIMIT
    ensures k < |p.me.deferred| ==>
              ReceiveTyped(env, role, p) ==
              p.(me := Handle(env, role, p.me.(deferred := p.me.deferred[..k] + p.me.deferred[k + 1..]),
                              p.me.deferred[k]))
    ensures k == |p.me.deferred| && |p.me.inbox| == 0 ==> ReceiveTyped(env, role, p) == p
    ensures k == |p.me.deferred| && |p.me.inbox| > 0 && p.me.inbox[0].kind in Accepts(p.me.pc) ==>
              ReceiveTyped(env, role, p) == p.(me := Handle(env, role, p.me.(inbox := p.me.inbox[1..]), p.me.inbox[0]))
    ensures k == |p.me.deferred| && |p.me.inbox| > 0 && p.me.inbox[0].kind !in Accepts(p.me.pc) ==>
              ReceiveTyped(env, role, p) ==
              p.(me := p.me.(inbox := p.me.inbox[1..], deferred := p.me.deferred + [p.me.inbox[0]]))
  {
  }

  lemma BufferedMove(env: Env, role: Role, p: Pair, k: nat)
    requires BothOk(env, role, p.me, p.peer) && k == FirstOf(p.me.deferred, Accepts(p.me.pc)) < |p.me.deferred|
    ensures PairOk(env, role, p, ReceiveTyped(env, role, p))
  {
    BufferHasRoom(env, role, p.me, p.peer);
    ReceiveTypedCases(env, role, p, k);
    TakenFromBuffer(p.me.deferred, p.me.inbox, k);
    DeliverMove(env, role, p, k, p.me.(deferred := p.me.deferred[..k] + p.me.deferred[k + 1..]));
  }

  lemma QueuedMove(env: Env, role: Role, p: Pair)
    requires BothOk(env, role, p.me, p.peer) && Accepts(p.me.pc) != {} && |p.me.inbox| > 0
    requires FirstOf(p.me.deferred, Accepts(p.me.pc)) == |p.me.deferred|
    ensures PairOk(env, role, p, ReceiveTyped(env, role, p))
  {
    var x := p.me;
    BufferHasRoom(env, role, x, p.peer);
    ReceiveTypedCases(env, role, p, |x.deferred|);
    TakenFromQueue(x.deferred, x.inbox);
    if x.inbox[0].kind in Accepts(x.pc) {
      DeliverMove(env, role, p, |x.deferred|, x.(inbox := x.inbox[1..]));
    } else {
      DeferMove(env, role, p, x.(inbox := x.inbox[1..], deferred := x.deferred + [x.inbox[0]]));
    }
  }

  lemma ReceiveTypedMove(env: Env, role: Role, p: Pair)
    requires BothOk(env, role, p.me, p.peer) && Accepts(p.me.pc) != {}
    ensures PairOk(env, role, p, ReceiveTyped(env, role, p))
  {
    if FirstOf(p.me.deferred, Accepts(p.me.pc)) < |p.me.deferred| {
      BufferedMove(env, role, p, FirstOf(p.me.deferred, Accepts(p.me.pc)));
    } else if |p.me.inbox| > 0 {
      QueuedMove(env, role, p);
    } else {
      BufferHasRoom(env, role, p.me, p.peer);
      ReceiveTypedCases(env, role, p, |p.me.deferred|);
    }
  }

  lemma TakenFromBuffer(deferred: seq<Msg>, inbox: seq<Msg>, k: nat)
    requires k < |deferred|
    ensures (deferred + inbox)[k] == deferred[k]
    ensures (deferred[..k] + deferred[k + 1..]) + inbox == (deferred + inbox)[..k] + (deferred + inbox)[k + 1..]
  {
  }

  lemma TakenFromQueue(deferred: seq<Msg>, inbox: seq<Msg>)
    requires |inbox| > 0
    ensures (deferred + inbox)[|deferred|] == inbox[0]
    ensures deferred + inbox[1..] == (deferred + inbox)[..|deferred|] + (deferred + inbox)[|deferred| + 1..]
    ensures (deferred + [inbox[0]]) + inbox[1..] == deferred + inbox
  {
  }

  /** Whoever has reached the first read finds its peer's original snapshot. */
  lemma ReadPeerFields(env: Env, role: Role, x: Side, y: Side)
    requires Fields(env, role, x, y) && Fields(env, role.Opposite(), y, x) && x.got <= y.sent && y.got <= x.sent
    requires x.pc.ReadPeer?
    ensures y.stored == Some(y.plan.self) && Fields(env, role, x.(pc := SendAuth, peerInfo := y.stored), y)
  {
  }

  /** Whoever has reached the second read finds exactly the snapshot its peer announced. */
  lemma ReadAgainFields(env: Env, role: Role, x: Side, y: Side, merged: Option<SelfInfo>)
    requires Fields(env, role, x, y) && Fields(env, role.Opposite(), y, x) && x.got <= y.sent
    requires x.pc.ReadAgain?
    ensures y.stored == Some(y.plan.updated) && x.peerInfo == Some(y.plan.self)
    ensures x.ready == Some(MessageFor(env, role.Opposite(), y.plan, Ready))
    ensures env.targets(y.plan.updated).Some?
    ensures Fields(env, role, x.(pc := Passed, merged := merged), y)
  {
  }

  lemma ReadMoves(env: Env, role: Role, p: Pair)
    requires BothOk(env, role, p.me, p.peer)
    ensures p.me.pc.ReadPeer? ==>
              p.peer.stored.Some? && PairOk(env, role, p, p.(me := p.me.(pc := SendAuth, peerInfo := p.peer.stored)))
    ensures p.me.pc.ReadAgain? ==> PairOk(env, role, p, Refresh(env, p))
  {
    var x, y := p.me, p.peer;
    if x.pc.ReadPeer? {
      ReadPeerFields(env, role, x, y);
      LocalStep(env, role, x, y, x.(pc := SendAuth, peerInfo := y.stored));
    } else if x.pc.ReadAgain? {
      var merged := Some(env.merge(y.plan.self, y.plan.updated, y.plan.status));
      ReadAgainFields(env, role, x, y, merged);
      LocalStep(env, role, x, y, x.(pc := Passed, merged := merged));
    }
  }

  /** The fields after a step that publishes a snapshot or abandons ICE. */
  lemma StoreFields(env: Env, role: Role, x: Side, y: Side)
    requires Fields(env, role, x, y)
    ensures x.pc.StoreSelf? ==>
              Fields(env, role, x.(stored := Some(x.plan.self), pc := if role == Send then SendPake1 else RecvPake1), y)
    ensures x.pc.StoreUpdated? ==> Fields(env, role, x.(stored := Some(x.plan.updated), pc := SendReady), y)
    ensures InIce(x.pc) ==> Fields(env, role, x.(pc := StoreUpdated), y)
  {
  }

  /** The fields after a step that ends a program, or refreshes its lease afterwards. */
  lemma EndFields(env: Env, role: Role, x: Side, y: Side)
    requires Fields(env, role, x, y)
    ensures x.pc.IceConnect? ==> Fields(env, role, x.(pc := ByIce), y)
    ensures !Terminal(x.pc) ==> Fields(env, role, x.(pc := Stopped), y)
    ensures Terminal(x.pc) && (Ready !in x.sent || Terminal(y.pc)) && x.stored.Some? ==>
              Fields(env, role, x.(stored := Some(x.plan.self)), y)
  {
  }

  lemma LocalMove(env: Env, role: Role, p: Pair, x': Side)
    requires BothOk(env, role, p.me, p.peer)
    requires x' == p.me.(pc := x'.pc, stored := x'.stored)
    requires Terminal(p.me.pc) ==> x'.pc == p.me.pc
    requires !x'.pc.Broken? && Fields(env, role, x', p.peer) && (x'.pc.Passed? ==> p.me.pc.Passed?)
    ensures PairOk(env, role, p, p.(me := x'))
  {
    LocalStep(env, role, p.me, p.peer, x');
  }

  lemma ReceiveKeepsInv(env: Env, role: Role, p: Pair)
    requires BothOk(env, role, p.me, p.peer) && (p.me.pc.RecvPake1? || p.me.pc.RecvPake2?)
    ensures PairOk(env, role, p, DoMove(env, role, p))
  {
    if p.me.pc.RecvPake1? {
      ReceiveAnyMove(env, role, p, Pake1, if role == Send then SendPake2 else SendPake1);
    } else {
      ReceiveAnyMove(env, role, p, Pake2, ReadPeer);
    }
  }

  lemma SendKeepsInv(env: Env, role: Role, p: Pair)
    requires BothOk(env, role, p.me, p.peer) && Sends(role, p.me.pc).Some?
    requires HasDigest(env, p.me.pc, p.me.plan)
    ensures PairOk(env, role, p, DoMove(env, role, p))
  {
    SendMove(env, role, p, Sends(role, p.me.pc).value.0, Sends(role, p.me.pc).value.1);
  }

  lemma StoreKeepsInv(env: Env, role: Role, p: Pair)
    requires BothOk(env, role, p.me, p.peer)
    requires p.me.pc.StoreSelf? || p.me.pc.StoreUpdated? || !HasDigest(env, p.me.pc, p.me.plan)
    ensures PairOk(env, role, p, DoMove(env, role, p))
  {
    StoreFields(env, role, p.me, p.peer);
    EndFields(env, role, p.me, p.peer);
    LocalMove(env, role, p, DoMove(env, role, p).me);
  }

  lemma RestMoves(env: Env, role: Role, p: Pair)
    ensures Terminal(p.me.pc) || p.me.pc.IceConnect? ==> DoMove(env, role, p) == p
    ensures Accepts(p.me.pc) != {} ==> DoMove(env, role, p) == ReceiveTyped(env, role, p)
    ensures p.me.pc.ReadAgain? ==> DoMove(env, role, p) == Refresh(env, p)
    ensures p.me.pc.ReadPeer? && p.peer.stored.Some? ==>
              DoMove(env, role, p) == p.(me := p.me.(pc := SendAuth, peerInfo := p.peer.stored))
  {
  }

  lemma MoveKeepsInv(env: Env, role: Role, p: Pair)
    requires BothOk(env, role, p.me, p.peer)
    ensures PairOk(env, role, p, DoMove(env, role, p))
  {
    RestMoves(env, role, p);
    if Accepts(p.me.pc) != {} {
      ReceiveTypedMove(env, role, p);
    } else if p.me.pc.RecvPake1? || p.me.pc.RecvPake2? {
      ReceiveKeepsInv(env, role, p);
    } else if p.me.pc.ReadPeer? || p.me.pc.ReadAgain? {
      ReadMoves(env, role, p);
    } else if Sends(role, p.me.pc).Some? && HasDigest(env, p.me.pc, p.me.plan) {
      SendKeepsInv(env, role, p);
    } else if p.me.pc.StoreSelf? || p.me.pc.StoreUpdated? || !HasDigest(env, p.me.pc, p.me.plan) {
      StoreKeepsInv(env, role, p);
    }
  }

  lemma StepKeepsInv(env: Env, p: Pair, a: Action)
    requires BothOk(env, a.role, p.me, p.peer)
    ensures PairOk(env, a.role, p, Step(env, p, a))
  {
    if a.Move? {
      MoveKeepsInv(env, a.role, p);
    } else {
      StoreFields(env, a.role, p.me, p.peer);
      EndFields(env, a.role, p.me, p.peer);
      if Step(env, p, a) != p {
        LocalMove(env, a.role, p, Step(env, p, a).me);
      }
    }
  }

  lemma {:induction false} RunKeepsInv(env: Env, send: Plan, recv: Plan, actions: seq<Action>)
    ensures Inv(env, send, recv, Run(env, send, recv, actions))
  {
    if |actions| > 0 {
      var s, a := Run(env, send, recv, actions[..|actions| - 1]), actions[|actions| - 1];
      RunKeepsInv(env, send, recv, actions[..|actions| - 1]);
      StepKeepsInv(env, if a.role == Send then Pair(s.sender, s.receiver) else Pair(s.receiver, s.sender), a);
    }
  }

  // ----- What every run keeps -----

  function SideOf(s: Sys, role: Role): Side {
    if role == Send then s.sender else s.receiver
  }

  function PairOf(s: Sys, role: Role): Pair {
    Pair(SideOf(s, role), SideOf(s, role.Opposite()))
  }

  lemma InvOf(env: Env, send: Plan, recv: Plan, actions: seq<Action>, role: Role)
    ensures var s := Run(env, send, recv, actions);
            && BothOk(env, role, SideOf(s, role), SideOf(s, role.Opposite()))
            && SideOf(s, role).plan == (if role == Send then send else recv)
            && SideOf(s, role.Opposite()).plan == (if role == Send then recv else send)
  {
    RunKeepsInv(env, send, recv, actions);
  }

  /**
   * In every interleaving no program meets a message it did not expect, an authenticator it must
   * reject, a missing snapshot or a full queue or buffer; and what is waiting for it is exactly one
   * message of each kind its peer sent and it has not taken, each as its peer wrote it.
   */
  lemma NeverMisroutes(env: Env, send: Plan, recv: Plan, actions: seq<Action>, role: Role)
    ensures var s := Run(env, send, recv, actions);
            var x, y := SideOf(s, role), SideOf(s, role.Opposite());
            && !x.pc.Broken?
            && |x.deferred| + |x.inbox| <= 6 < QUEUE_LIMIT == DEFER_LIMIT
            && x.got <= y.sent
            && multiset(WaitingKinds(x)) == multiset(y.sent - x.got)
            && (forall m :: m in x.deferred + x.inbox ==> m == MessageFor(env, role.Opposite(), y.plan, m.kind))
  {
    var s := Run(env, send, recv, actions);
    var x, y := SideOf(s, role), SideOf(s, role.Opposite());
    InvOf(env, send, recv, actions, role);
    BufferHasRoom(env, role, x, y);
    OnePerKind(env, x.deferred + x.inbox, y.sent - x.got, role.Opposite(), y.plan);
  }

  function KindList(q: seq<Msg>): (kinds: seq<Kind>)
    ensures |kinds| == |q| && forall i :: 0 <= i < |q| ==> kinds[i] == q[i].kind
  {
    if |q| == 0 then [] else KindList(q[..|q| - 1]) + [q[|q| - 1].kind]
  }

  function WaitingKinds(x: Side): seq<Kind> {
    KindList(x.deferred + x.inbox)
  }

  lemma {:induction false} DistinctCount(s: seq<Kind>)
    requires forall i, j :: 0 <= i < j < |s| ==> s[i] != s[j]
    ensures forall k :: multiset(s)[k] == if k in s then 1 else 0
  {
    if |s| > 0 {
      DistinctCount(s[..|s| - 1]);
      assert s == s[..|s| - 1] + [s[|s| - 1]];
    }
  }

  lemma OnePerKind(env: Env, q: seq<Msg>, outstanding: set<Kind>, from: Role, plan: Plan)
    requires Flight(env, q, outstanding, from, plan)
    ensures multiset(KindList(q)) == multiset(outstanding)
  {
    var kinds := KindList(q);
    DistinctCount(kinds);
    forall k: Kind
      ensures multiset(kinds)[k] == multiset(outstanding)[k]
    {
      if k in outstanding {
        var i :| 0 <= i < |q| && q[i].kind == k;
        assert kinds[i] == k;
      }
    }
  }

  /**
   * The refresh is a barrier: whenever a program comes to its second read, that read finds the very
   * snapshot its peer announced, and the merge combines the two snapshots its peer published with
   * the outcome its peer reported.
   */
  lemma RefreshIsABarrier(env: Env, send: Plan, recv: Plan, actions: seq<Action>, role: Role)
    ensures var s := Run(env, send, recv, actions);
            var x, y := SideOf(s, role), SideOf(s, role.Opposite());
            var merged := Some(env.merge(y.plan.self, y.plan.updated, y.plan.status));
            && (x.pc.Passed? ==> x.merged == merged && Ready in x.got)
            && (x.pc.ReadAgain? ==>
                  && y.stored == Some(y.plan.updated)
                  && SideOf(Next(env, s, Move(role)), role) == x.(pc := Passed, merged := merged))
  {
    var s := Run(env, send, recv, actions);
    var x, y := SideOf(s, role), SideOf(s, role.Opposite());
    InvOf(env, send, recv, actions, role);
    if x.pc.ReadAgain? {
      ReadAgainFields(env, role, x, y, None);
    }
  }

  /**
   * A lease refresh between the readiness message and the second read breaks it, exactly when the
   * mapping changed something.
   */
  lemma EarlyLeaseIsRejected(env: Env, send: Plan, recv: Plan, actions: seq<Action>, role: Role)
    requires SideOf(Run(env, send, recv, actions), role).pc.ReadAgain?
    ensures var p := PairOf(Run(env, send, recv, actions), role);
            var early := p.(peer := p.peer.(stored := Some(p.peer.plan.self)));
            Refresh(env, early).me.pc == Broken(Rejected) <==>
              env.targets(p.peer.plan.self) != env.targets(p.peer.plan.updated)
  {
    var s := Run(env, send, recv, actions);
    InvOf(env, send, recv, actions, role);
    ReadAgainFields(env, role, SideOf(s, role), SideOf(s, role.Opposite()), None);
  }

  /**
   * With the repository's own digests and merge, passing the barrier changes at most one dial target,
   * to a mapped one.
   */
  lemma RefreshChangesAtMostOneTarget(net: Net, send: Plan, recv: Plan, actions: seq<Action>, role: Role)
    ensures var s := Run(Real(net), send, recv, actions);
            var x, peer := SideOf(s, role), SideOf(s, role.Opposite()).plan;
            x.pc.Passed? ==> x.merged.Some? && AtMostOneTarget(peer, x.merged.value)
  {
    var peer := SideOf(Run(Real(net), send, recv, actions), role.Opposite()).plan;
    RefreshIsABarrier(Real(net), send, recv, actions, role);
    MergeChangesAtMostOneCandidate(net, peer.self, peer.updated, peer.status);
  }

  /** What a program dials after the barrier differs from its peer's first snapshot by one reported mapping at most. */
  ghost predicate AtMostOneTarget(peer: Plan, merged: SelfInfo) {
    && merged.(candidates := peer.self.candidates) == peer.self
    && (merged == peer.self
        || (peer.status == Mapped && exists addr :: OneUPnPChange(peer.self.candidates, merged.candidates, addr)))
  }

  // ----- No deadlock -----

  /** The message a program cannot go on without; while it is in ICE it can always give up instead. */
  function Awaits(pc: Pc): Option<Kind> {
    match pc
    case RecvPake1 => Some(Pake1)
    case RecvPake2 => Some(Pake2)
    case RecvAuth => Some(Auth)
    case RecvReady => Some(Ready)
    case _ => None
  }

  lemma FoundInBuffer(deferred: seq<Msg>, inbox: seq<Msg>, accepted: set<Kind>, i: nat)
    requires i < |deferred + inbox| && (deferred + inbox)[i].kind in accepted
    ensures |inbox| > 0 || FirstOf(deferred, accepted) < |deferred|
  {
  }

  /** A program that a move leaves where it is waits for a message its peer has not sent. */
  lemma StuckOnlyOnSilence(env: Env, role: Role, x: Side, y: Side)
    requires BothOk(env, role, x, y) && !Terminal(x.pc) && !InIce(x.pc)
    requires DoMove(env, role, Pair(x, y)).me == x
    ensures Awaits(x.pc).Some? && Awaits(x.pc).value !in y.sent
  {
    AwaitsUnlessItMoves(env, role, x, y);
    var kind := Awaits(x.pc).value;
    if kind in y.sent {
      var q := x.deferred + x.inbox;
      assert kind in y.sent - x.got;
      var i :| 0 <= i < |q| && q[i].kind == kind;
      if x.pc.RecvPake1? || x.pc.RecvPake2? {
        AwaitingMoves(role, Pair(x, y));
      } else {
        FoundInBuffer(x.deferred, x.inbox, Accepts(x.pc), i);
        TypedMoves(env, role, Pair(x, y));
      }
      assert false;
    }
  }

  lemma AwaitsUnlessItMoves(env: Env, role: Role, x: Side, y: Side)
    requires Fields(env, role, x, y) && !Terminal(x.pc) && !InIce(x.pc)
    requires DoMove(env, role, Pair(x, y)).me == x
    ensures Awaits(x.pc).Some? && Awaits(x.pc).value !in x.got
  {
  }

  lemma AwaitingMoves(role: Role, p: Pair)
    requires |p.me.deferred + p.me.inbox| > 0 && (p.me.pc.RecvPake1? || p.me.pc.RecvPake2?)
    ensures p.me.pc.RecvPake1? ==> ReceiveAny(p, Pake1, if role == Send then SendPake2 else SendPake1).me != p.me
    ensures p.me.pc.RecvPake2? ==> ReceiveAny(p, Pake2, ReadPeer).me != p.me
  {
  }

  lemma TypedMoves(env: Env, role: Role, p: Pair)
    requires p.me.pc.RecvAuth? || p.me.pc.RecvReady?
    requires |p.me.inbox| > 0 || FirstOf(p.me.deferred, Accepts(p.me.pc)) < |p.me.deferred|
    ensures ReceiveTyped(env, role, p).me != p.me
  {
    var k := FirstOf(p.me.deferred, Accepts(p.me.pc));
    if k < |p.me.deferred| {
      assert |(p.me.deferred[..k] + p.me.deferred[k + 1..])| == |p.me.deferred| - 1;
    } else {
      assert |p.me.inbox[1..]| == |p.me.inbox| - 1;
    }
  }

  lemma NotBothWaiting(env: Env, role: Role, x: Side, y: Side)
    requires BothOk(env, role, x, y)
    requires Awaits(x.pc).Some? && Awaits(x.pc).value !in y.sent
    ensures !y.pc.Passed? && (Awaits(y.pc).None? || Awaits(y.pc).value in x.sent)
  {
  }

  ghost predicate AtRest(env: Env, role: Role, x: Side, y: Side) {
    DoMove(env, role, Pair(x, y)).me == x && !InIce(x.pc) && !x.pc.Stopped? && !x.pc.ByIce?
  }

  lemma RestingSide(env: Env, role: Role, x: Side, y: Side)
    requires BothOk(env, role, x, y) && AtRest(env, role, x, y)
    ensures x.pc.Passed? || (Awaits(x.pc).Some? && Awaits(x.pc).value !in y.sent)
  {
    if !Terminal(x.pc) {
      StuckOnlyOnSilence(env, role, x, y);
    }
  }

  lemma BothSides(env: Env, role: Role, x: Side, y: Side)
    requires BothOk(env, role, x, y)
    ensures BothOk(env, role.Opposite(), y, x)
  {
    assert role.Opposite().Opposite() == role;
  }

  lemma RestingPair(env: Env, role: Role, x: Side, y: Side)
    requires BothOk(env, role, x, y) && AtRest(env, role, x, y) && AtRest(env, role.Opposite(), y, x)
    ensures x.pc.Passed? && y.pc.Passed?
  {
    BothSides(env, role, x, y);
    RestingSide(env, role, x, y);
    RestingSide(env, role.Opposite(), y, x);
    if !x.pc.Passed? {
      NotBothWaiting(env, role, x, y);
    } else if !y.pc.Passed? {
      NotBothWaiting(env, role.Opposite(), y, x);
    }
  }

  lemma Still(env: Env, s: Sys, role: Role)
    requires Next(env, s, Move(role)) == s && Next(env, s, Abandon(role)) == s
    ensures DoMove(env, role, PairOf(s, role)).me == SideOf(s, role) && !InIce(SideOf(s, role).pc)
  {
  }

  /**
   * Two programs never wait for each other: until one of them stops or connects by ICE, either both
   * have passed or one of them can take a step.
   */
  lemma NoDeadlock(env: Env, send: Plan, recv: Plan, actions: seq<Action>)
    ensures var s := Run(env, send, recv, actions);
            || s.sender.pc.Stopped? || s.receiver.pc.Stopped? || s.sender.pc.ByIce? || s.receiver.pc.ByIce?
            || (s.sender.pc.Passed? && s.receiver.pc.Passed?)
            || exists role :: Next(env, s, Move(role)) != s || Next(env, s, Abandon(role)) != s
  {
    var s := Run(env, send, recv, actions);
    if && !s.sender.pc.Stopped? && !s.receiver.pc.Stopped? && !s.sender.pc.ByIce? && !s.receiver.pc.ByIce?
       && forall role :: Next(env, s, Move(role)) == s && Next(env, s, Abandon(role)) == s
    {
      InvOf(env, send, recv, actions, Send);
      Still(env, s, Send);
      Still(env, s, Recv);
      RestingPair(env, Send, s.sender, s.receiver);
    }
  }
}
