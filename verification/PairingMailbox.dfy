/**
 * The receives of the pairing conversation are those of the mailbox: written as typed messages, each
 * receive step of `Pairing` is one call, or one turn of the reading loop, of the deferral buffer.
 */
module PairingMailbox {
  import opened Common
  import opened SelectiveMailbox
  import opened SessionModel
  import P = Pairing

  function TypeName(kind: P.Kind): string {
    match kind
    case Pake1 => "pake1"
    case Pake2 => "pake2"
    case Auth => "self-snapshot-auth-v1"
    case IceAuth => "ice-auth"
    case IceCands => "ice-candidates"
    case Ready => "legacy-candidates-ready-v1"
  }

  /** How message contents are written; no body passes the envelope's limit. */
  type Writing = P.Msg -> string

  ghost predicate Bounded(body: Writing) {
    forall m :: |body(m)| <= MAX_BODY
  }

  function OnWire(body: Writing, m: P.Msg): Message {
    Message(TypeName(m.kind), body(m))
  }

  function Wires(body: Writing, q: seq<P.Msg>): (w: seq<Message>)
    ensures |w| == |q| && forall i :: 0 <= i < |q| ==> w[i] == OnWire(body, q[i])
  {
    seq(|q|, i requires 0 <= i < |q| => OnWire(body, q[i]))
  }

  function Names(kinds: set<P.Kind>): set<string> {
    set k | k in kinds :: TypeName(k)
  }

  lemma TypeNamesDiffer(a: P.Kind, b: P.Kind)
    ensures TypeName(a) == TypeName(b) <==> a == b
  {
    assert TypeName(P.Pake1)[4] == '1' && TypeName(P.Pake2)[4] == '2';
    assert |TypeName(P.Auth)| == 21 && |TypeName(P.IceAuth)| == 8;
    assert |TypeName(P.IceCands)| == 14 && |TypeName(P.Ready)| == 26;
  }

  lemma NamesAccept(kinds: set<P.Kind>, kind: P.Kind)
    ensures TypeName(kind) in Names(kinds) <==> kind in kinds
  {
    if TypeName(kind) in Names(kinds) {
      var k :| k in kinds && TypeName(k) == TypeName(kind);
      TypeNamesDiffer(k, kind);
    }
  }

  predicate Printable(s: string) {
    forall i :: 0 <= i < |s| ==> '!' <= s[i] <= '~'
  }

  lemma ShortNames()
    ensures Printable("pake1") && Printable("pake2") && Printable("ice-auth")
  {
  }

  lemma CandidateNames()
    ensures Printable("ice-candidates") && Printable("legacy-candidates-ready-v1")
  {
    assert Printable("ice-") && Printable("candidates");
    assert Printable("legacy-") && Printable("-ready-v1");
    assert "ice-" + "candidates" == "ice-candidates";
    assert "legacy-" + "candidates" + "-ready-v1" == "legacy-candidates-ready-v1";
  }

  lemma SnapshotName()
    ensures Printable("self-snapshot-auth-v1")
  {
    assert Printable("self-snapshot") && Printable("-auth-v1");
    assert "self-snapshot" + "-auth-v1" == "self-snapshot-auth-v1";
  }

  /** Every message of the conversation passes the envelope checks. */
  lemma WireIsValid(body: Writing, m: P.Msg)
    requires Bounded(body)
    ensures ValidMessage(OnWire(body, m))
  {
    ShortNames();
    CandidateNames();
    SnapshotName();
    assert Printable(TypeName(m.kind));
  }

  /** Both descriptions select the same position. */
  lemma FirstAgrees(body: Writing, q: seq<P.Msg>, kinds: set<P.Kind>)
    ensures First(Wires(body, q), Names(kinds)) == P.FirstOf(q, kinds)
  {
    var k := P.FirstOf(q, kinds);
    forall i | 0 <= i < |q|
      ensures Wires(body, q)[i].typ in Names(kinds) <==> q[i].kind in kinds
    {
      NamesAccept(kinds, q[i].kind);
    }
    if k < |q| {
      FirstIs(Wires(body, q), Names(kinds), k);
    }
  }

  /** An untyped receive that meets what it expects is one `Receive` of the mailbox. */
  lemma ReceiveAnyIsReceive(body: Writing, p: P.Pair, kind: P.Kind, next: P.Pc)
    requires Bounded(body) && !P.ReceiveAny(p, kind, next).me.pc.Broken?
    ensures var me, me', q := p.me, P.ReceiveAny(p, kind, next).me, p.me.deferred + p.me.inbox;
            TookOldest(Wires(body, me.deferred), Wires(body, me.inbox),
                       if |q| == 0 then Err(Closed) else Ok(OnWire(body, q[0])),
                       Wires(body, me'.deferred), Wires(body, me'.inbox))
  {
    var me := p.me;
    if |me.deferred| > 0 {
      WireIsValid(body, me.deferred[0]);
      assert Wires(body, me.deferred[1..]) == Wires(body, me.deferred)[1..];
    } else if |me.inbox| > 0 {
      WireIsValid(body, me.inbox[0]);
      assert Wires(body, me.inbox[1..]) == Wires(body, me.inbox)[1..];
    }
  }

  /** A typed receive that finds its message in the buffer is the mailbox's scan. */
  lemma ReceiveTypedScans(env: P.Env, role: Role, body: Writing, p: P.Pair)
    requires P.Accepts(p.me.pc) != {}
    requires P.FirstOf(p.me.deferred, P.Accepts(p.me.pc)) < |p.me.deferred|
    ensures var me, me', accepted := p.me, P.ReceiveTyped(env, role, p).me, P.Accepts(p.me.pc);
            && TookDeferred(Wires(body, me.deferred), Names(accepted),
                            Some(OnWire(body, me.deferred[P.FirstOf(me.deferred, accepted)])),
                            Wires(body, me'.deferred))
            && me'.inbox == me.inbox
  {
    var me, k := p.me, P.FirstOf(p.me.deferred, P.Accepts(p.me.pc));
    FirstAgrees(body, me.deferred, P.Accepts(me.pc));
    assert Wires(body, me.deferred[..k] + me.deferred[k + 1..]) == Without(Wires(body, me.deferred), k);
  }

  /** What one turn of the reading loop returns, and `None` when it sets the message aside. */
  function TurnOf(body: Writing, me: P.Side): Option<Result<Message, ReceiveError>> {
    if |me.inbox| == 0 then Some(Err(Closed))
    else if me.inbox[0].kind in P.Accepts(me.pc) then Some(Ok(OnWire(body, me.inbox[0])))
    else None
  }

  /** A typed receive that does not is one turn of the mailbox's reading loop. */
  lemma ReceiveTypedReads(env: P.Env, role: Role, body: Writing, p: P.Pair)
    requires Bounded(body) && P.Accepts(p.me.pc) != {} && |p.me.deferred| < P.DEFER_LIMIT
    requires P.FirstOf(p.me.deferred, P.Accepts(p.me.pc)) == |p.me.deferred|
    ensures var me, me', accepted := p.me, P.ReceiveTyped(env, role, p).me, Names(P.Accepts(p.me.pc));
            && TookDeferred(Wires(body, me.deferred), accepted, None, Wires(body, me.deferred))
            && ReadTurn(Wires(body, me.deferred), Wires(body, me.inbox), accepted, TurnOf(body, me),
                        Wires(body, me'.deferred), Wires(body, me'.inbox))
  {
    var me, accepted := p.me, P.Accepts(p.me.pc);
    FirstAgrees(body, me.deferred, accepted);
    if |me.inbox| > 0 {
      var m := me.inbox[0];
      WireIsValid(body, m);
      NamesAccept(accepted, m.kind);
      assert Wires(body, me.inbox[1..]) == Wires(body, me.inbox)[1..];
      assert Wires(body, me.deferred + [m]) == Wires(body, me.deferred) + [OnWire(body, m)];
    }
  }
}
