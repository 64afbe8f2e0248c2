/**
 * The authenticated receipt: four messages on a control stream, over a network that may drop,
 * repeat, reorder or alter them. Message authenticators are ideal: nobody makes one without its key.
 */
module Completion {
  import opened Common
  import opened Authenticators
  import opened Stream
  import opened FileTransfer

  const KEY_SIZE: nat := 32
  const MAX_MESSAGE: nat := 2048

  // ----- Writing and framing -----

  /** What one call of the stream's write returns: a count, and whether it also reported an error. */
  datatype WriteCall = WriteCall(n: int, failed: bool)

  /** Whether these calls write `left` bytes: each makes progress without an error until none is left. */
  predicate Writes(left: nat, calls: seq<WriteCall>) {
    left == 0 || (|calls| > 0 && 0 < calls[0].n <= left && !calls[0].failed && Writes(left - calls[0].n, calls[1..]))
  }

  function Accepted(calls: seq<WriteCall>): int {
    if |calls| == 0 then 0 else calls[0].n + Accepted(calls[1..])
  }

  predicate Progresses(calls: seq<WriteCall>) {
    forall c :: c in calls ==> c.n > 0 && !c.failed
  }

  lemma {:induction false} ProgressAdds(calls: seq<WriteCall>)
    requires Progresses(calls)
    ensures Accepted(calls) >= |calls|
  {
    if |calls| > 0 {
      assert calls[0] in calls && forall c :: c in calls[1..] ==> c in calls;
      ProgressAdds(calls[1..]);
    }
  }

  /** All is written exactly when some of the calls, from the first on, make progress without an error and add up. */
  lemma {:induction false} WritesExactly(left: nat, calls: seq<WriteCall>)
    ensures Writes(left, calls) <==>
            exists k :: 0 <= k <= |calls| && Progresses(calls[..k]) && Accepted(calls[..k]) == left
  {
    if left == 0 {
      assert calls[..0] == [] && Progresses(calls[..0]);
    } else if |calls| > 0 {
      var c := calls[0];
      if 0 < c.n <= left && !c.failed {
        WritesExactly(left - c.n, calls[1..]);
        if k :| 0 <= k <= |calls[1..]| && Progresses(calls[1..][..k]) && Accepted(calls[1..][..k]) == left - c.n {
          assert calls[..k + 1] == [c] + calls[1..][..k] && calls[..k + 1][1..] == calls[1..][..k];
          assert Progresses(calls[..k + 1]);
        }
      }
      if k :| 0 <= k <= |calls| && Progresses(calls[..k]) && Accepted(calls[..k]) == left {
        assert k > 0 && c in calls[..k] && calls[..k][1..] == calls[1..][..k - 1];
        assert forall d :: d in calls[1..][..k - 1] ==> d in calls[..k];
        ProgressAdds(calls[1..][..k - 1]);
      }
    }
  }

  /** Writes everything across short writes. The script of calls ends where the stream is closed. */
  method WriteAll(data: Bytes, calls: seq<WriteCall>) returns (ok: bool, accepted: Bytes)
    ensures accepted <= data
    ensures ok <==> Writes(|data|, calls)
    ensures ok ==> accepted == data
  {
    var rest, i := data, 0;
    accepted := [];
    while |rest| > 0
      invariant 0 <= i <= |calls| && accepted + rest == data
      invariant Writes(|data|, calls) <==> Writes(|rest|, calls[i..])
      decreases |rest|
    {
      if i == |calls| {
        return false, accepted;
      }
      var c := calls[i];
      assert calls[i..][1..] == calls[i + 1..];
      if c.n < 0 || c.n > |rest| {
        return false, accepted;
      }
      accepted, rest := accepted + rest[..c.n], rest[c.n..];
      if c.failed || c.n == 0 {
        return false, accepted;
      }
      i := i + 1;
    }
    ok := true;
  }

  function FrameMessage(raw: Bytes): Option<Bytes> {
    if |raw| == 0 || |raw| > MAX_MESSAGE then None else Some([LowByte(|raw| / 256), LowByte(|raw|)] + raw)
  }

  /** A message of at most 2048 bytes is framed by its length in two bytes, the high one first. */
  lemma FrameIsExact(raw: Bytes)
    ensures FrameMessage(raw).Some? <==> 1 <= |raw| <= 2048
    ensures FrameMessage(raw).Some? ==>
              var f := FrameMessage(raw).value;
              |f| == |raw| + 2 && f[2..] == raw && f[0] as int * 256 + f[1] == |raw|
  {
  }

  /** One framed message and what follows it. */
  function ReadMessage(b: Bytes): Option<(Bytes, Bytes)> {
    if |b| < 2 then None
    else
      var size := b[0] as int * 256 + b[1];
      if size == 0 || size > MAX_MESSAGE || |b| - 2 < size then None
      else Some((b[2..2 + size], b[2 + size..]))
  }

  /** Framing is exact: a frame is read back as its message, and only frames are read. */
  lemma FramesReadBack(b: Bytes, raw: Bytes, rest: Bytes)
    ensures ReadMessage(b) == Some((raw, rest)) <==> FrameMessage(raw).Some? && b == FrameMessage(raw).value + rest
  {
    if FrameMessage(raw).Some? && b == FrameMessage(raw).value + rest {
      var f := FrameMessage(raw).value;
      assert b[0] == f[0] && b[1] == f[1] && |raw| == f[0] as int * 256 + f[1];
      assert b[2..2 + |raw|] == raw && b[2 + |raw|..] == rest;
    }
    if ReadMessage(b) == Some((raw, rest)) {
      var size := b[0] as int * 256 + b[1];
      assert size / 256 == b[0] && size % 256 == b[1];
      assert b == ([b[0], b[1]] + raw) + rest;
    }
  }

  // ----- Messages -----

  datatype Step = ReceiverVerified | SenderConfirmed | ReceiverFinished | SenderFinished

  function Name(step: Step): string {
    match step
    case ReceiverVerified => "receiver-verified"
    case SenderConfirmed => "sender-confirmed"
    case ReceiverFinished => "receiver-finished"
    case SenderFinished => "sender-finished"
  }

  /** What one side believes: the session's code, the file key, and the file it sent or kept. */
  datatype View = View(code: Bytes, key: Bytes, size: nat, digest: Bytes)

  /** An authenticator under a file key, or bytes that are none. */
  datatype Mac = Mac(key: Bytes, input: Bytes) | Noise(bytes: Bytes)

  datatype Message = Message(role: Bytes, mac: Mac)

  predicate Usable(v: View) {
    |v.code| > 0 && |v.key| == KEY_SIZE && |v.digest| == DIGEST_SIZE
  }

  function MacFor(v: View, step: Step): Mac {
    Mac(v.key, Encode(MacFields(Receipt(v.code, Text(Name(step)), v.size, v.digest))))
  }

  lemma NamesDiffer(a: Step, b: Step)
    ensures Text(Name(a)) == Text(Name(b)) <==> a == b
  {
    assert |Name(ReceiverVerified)| == 17 && |Name(SenderConfirmed)| == 16;
    assert |Name(ReceiverFinished)| == 17 && |Name(SenderFinished)| == 15;
    assert Text(Name(ReceiverVerified))[9] == 'v' as int % 256;
    assert Text(Name(ReceiverFinished))[9] == 'f' as int % 256;
  }

  /** An authenticator determines the whole view and the step it was made for. */
  lemma MacsDiffer(v: View, s: Step, v': View, s': Step)
    ensures MacFor(v, s) == MacFor(v', s') <==> v == v' && s == s'
  {
    ReceiptInjective(v.code, Text(Name(s)), v.size, v.digest, v'.code, Text(Name(s')), v'.size, v'.digest);
    NamesDiffer(s, s');
  }

  /** How authenticators are made; the protocol needs only that they cannot be confused. */
  datatype Scheme = Scheme(tag: (View, Step) -> Mac)

  ghost predicate Unforgeable(scheme: Scheme) {
    && (forall v, s :: scheme.tag(v, s).Mac? && scheme.tag(v, s).key == v.key)
    && (forall v, s, v', s' :: scheme.tag(v, s) == scheme.tag(v', s') ==> v == v' && s == s')
  }

  function Hmac(): Scheme {
    Scheme((v, s) => MacFor(v, s))
  }

  lemma HmacUnforgeable()
    ensures Unforgeable(Hmac())
  {
    forall v: View, s: Step, v': View, s': Step | Hmac().tag(v, s) == Hmac().tag(v', s')
      ensures v == v' && s == s'
    {
      MacsDiffer(v, s, v', s');
    }
  }

  // ----- The protocol -----

  /** How far a side is: past `n` messages, or stopped by an error at message `n`. */
  datatype Progress = Past(n: nat) | GaveUp(n: nat)

  /** One side: what it believes and how many of the four messages it is past. */
  datatype Side = Side(view: View, at: Progress)

  /**
   * A side that never got this far, such as a receiver whose file was not accepted, is absent.
   * `written` tells which of the four messages are on the network.
   */
  datatype Sys = Sys(sender: Option<Side>, receiver: Option<Side>, written: set<nat>)

  /**
   * `Write` and `Read` advance a side; a read is given whatever the network delivers. A write that
   * reports an error may still have `leaked` the whole message.
   */
  datatype Action =
    | Write(role: Role) | WriteFails(role: Role, leaked: bool) | Read(role: Role, message: Option<Message>)

  function StepAt(n: nat): Step {
    match n
    case 0 => ReceiverVerified
    case 1 => SenderConfirmed
    case 2 => ReceiverFinished
    case _ => SenderFinished
  }

  /** The receiver writes the first and third messages, the sender the second and fourth. */
  function Author(n: nat): Role {
    if n % 2 == 0 then Recv else Send
  }

  function Init(send: Option<View>, recv: Option<View>): Sys {
    Sys(if send.Some? then Some(Side(send.value, Past(0))) else None,
        if recv.Some? then Some(Side(recv.value, Past(0))) else None, {})
  }

  function SideOf(s: Sys, role: Role): Option<Side> {
    if role == Send then s.sender else s.receiver
  }

  function Advance(s: Sys, role: Role, at: Progress): Sys
    requires SideOf(s, role).Some?
  {
    if role == Send then s.(sender := Some(s.sender.value.(at := at)))
    else s.(receiver := Some(s.receiver.value.(at := at)))
  }

  /** The authenticator on the network for message `n`. */
  predicate OnNetwork(scheme: Scheme, s: Sys, n: nat, mac: Mac) {
    n in s.written && SideOf(s, Author(n)).Some? && mac == scheme.tag(SideOf(s, Author(n)).value.view, StepAt(n))
  }

  predicate HoldsKey(s: Sys, role: Role, key: Bytes) {
    SideOf(s, role).Some? && SideOf(s, role).value.view.key == key
  }

  /** The network can repeat what it has seen but cannot make an authenticator under an honest side's key. */
  predicate Deliverable(scheme: Scheme, s: Sys, m: Message) {
    || m.mac.Noise?
    || OnNetwork(scheme, s, 0, m.mac) || OnNetwork(scheme, s, 1, m.mac)
    || OnNetwork(scheme, s, 2, m.mac) || OnNetwork(scheme, s, 3, m.mac)
    || (!HoldsKey(s, Send, m.mac.key) && !HoldsKey(s, Recv, m.mac.key))
  }

  predicate UnknownKey(s: Sys, key: Bytes) {
    (s.sender.Some? ==> s.sender.value.view.key != key) && (s.receiver.Some? ==> s.receiver.value.view.key != key)
  }

  /** One of the messages written so far: the receiver's first and third, the sender's second and fourth. */
  predicate Seen(scheme: Scheme, s: Sys, mac: Mac) {
    || (s.receiver.Some? && 0 in s.written && mac == scheme.tag(s.receiver.value.view, ReceiverVerified))
    || (s.sender.Some? && 1 in s.written && mac == scheme.tag(s.sender.value.view, SenderConfirmed))
    || (s.receiver.Some? && 2 in s.written && mac == scheme.tag(s.receiver.value.view, ReceiverFinished))
    || (s.sender.Some? && 3 in s.written && mac == scheme.tag(s.sender.value.view, SenderFinished))
  }

  /** Whatever else the network likes to send it can: repeats, noise, and authenticators under any other key. */
  lemma NetworkSendsAnythingElse(scheme: Scheme, s: Sys, m: Message)
    requires m.mac.Mac? ==> UnknownKey(s, m.mac.key) || Seen(scheme, s, m.mac)
    ensures Deliverable(scheme, s, m)
  {
  }

  predicate Verifies(scheme: Scheme, v: View, step: Step, m: Message) {
    m.role == Text(Name(step)) && Usable(v) && m.mac == scheme.tag(v, step)
  }

  function Next(scheme: Scheme, s: Sys, a: Action): Sys {
    var side := SideOf(s, a.role);
    if side.None? || side.value.at.GaveUp? || side.value.at.n >= 4 then s
    else
      var view, n := side.value.view, side.value.at.n;
      match a
      case Write(role) =>
        if Author(n) != role then s
        else if !Usable(view) then Advance(s, role, GaveUp(n))
        else Advance(s, role, Past(n + 1)).(written := s.written + {n})
      case WriteFails(role, leaked) =>
        if Author(n) != role then s
        else Advance(s, role, GaveUp(n)).(written := s.written + if leaked && Usable(view) then {n} else {})
      case Read(role, message) =>
        if Author(n) == role || (message.Some? && !Deliverable(scheme, s, message.value)) then s
        else if message.Some? && Verifies(scheme, view, StepAt(n), message.value) then Advance(s, role, Past(n + 1))
        else Advance(s, role, GaveUp(n))
  }

  function Run(scheme: Scheme, send: Option<View>, recv: Option<View>, actions: seq<Action>): Sys {
    if |actions| == 0 then Init(send, recv)
    else Next(scheme, Run(scheme, send, recv, actions[..|actions| - 1]), actions[|actions| - 1])
  }

  predicate Succeeds(s: Sys, role: Role) {
    SideOf(s, role).Some? && SideOf(s, role).value.at == Past(4)
  }

  // ----- Invariant -----

  function ViewOf(s: Sys, role: Role): Option<View> {
    if SideOf(s, role).Some? then Some(SideOf(s, role).value.view) else None
  }

  /** Being past message `n` means that it was written, by a side with the same view. */
  ghost predicate PastOk(s: Sys, role: Role) {
    SideOf(s, role).Some? && SideOf(s, role).value.at.Past? ==>
      && SideOf(s, role).value.at.n <= 4
      && forall n :: 0 <= n < SideOf(s, role).value.at.n ==> n in s.written && ViewOf(s, Author(n)) == ViewOf(s, role)
  }

  /** A side that has put message `n` on the network is past it, or gave up there or later. */
  predicate Reached(at: Progress, n: nat) {
    match at
    case Past(m) => n < m <= 4
    case GaveUp(m) => n <= m < 4
  }

  /** What is on the network was written by a side with a usable view that has come that far. */
  ghost predicate WrittenOk(s: Sys) {
    forall n :: n in s.written ==>
      && n < 4 && SideOf(s, Author(n)).Some?
      && Usable(SideOf(s, Author(n)).value.view) && Reached(SideOf(s, Author(n)).value.at, n)
  }

  ghost predicate Inv(send: Option<View>, recv: Option<View>, s: Sys) {
    ViewOf(s, Send) == send && ViewOf(s, Recv) == recv && WrittenOk(s) && PastOk(s, Send) && PastOk(s, Recv)
  }

  lemma OnNetworkIsUnique(scheme: Scheme, s: Sys, k: nat, v: View, n: nat, mac: Mac)
    requires Unforgeable(scheme) && k < 4 && n < 4 && OnNetwork(scheme, s, k, mac) && mac == scheme.tag(v, StepAt(n))
    ensures k == n && ViewOf(s, Author(n)) == Some(v) && n in s.written
  {
  }

  /** An accepted message was written by the other side, with the same view. */
  lemma AcceptedWasWritten(scheme: Scheme, s: Sys, role: Role, n: nat, m: Message)
    requires Unforgeable(scheme) && SideOf(s, role).Some? && n < 4 && Author(n) != role
    requires Deliverable(scheme, s, m) && Verifies(scheme, SideOf(s, role).value.view, StepAt(n), m)
    ensures ViewOf(s, Author(n)) == ViewOf(s, role) && n in s.written
  {
    var v := SideOf(s, role).value.view;
    assert HoldsKey(s, role, m.mac.key);
    if OnNetwork(scheme, s, 0, m.mac) {
      OnNetworkIsUnique(scheme, s, 0, v, n, m.mac);
    } else if OnNetwork(scheme, s, 1, m.mac) {
      OnNetworkIsUnique(scheme, s, 1, v, n, m.mac);
    } else if OnNetwork(scheme, s, 2, m.mac) {
      OnNetworkIsUnique(scheme, s, 2, v, n, m.mac);
    } else {
      OnNetworkIsUnique(scheme, s, 3, v, n, m.mac);
    }
  }

  /** A side that only reads goes on when what it reads was written for it, or gives up. */
  lemma AdvanceKeepsInv(send: Option<View>, recv: Option<View>, s: Sys, role: Role, n: nat, passes: bool)
    requires Inv(send, recv, s) && n < 4 && Author(n) != role
    requires SideOf(s, role).Some? && SideOf(s, role).value.at == Past(n)
    requires passes ==> n in s.written && ViewOf(s, Author(n)) == ViewOf(s, role)
    ensures Inv(send, recv, Advance(s, role, if passes then Past(n + 1) else GaveUp(n)))
  {
  }

  lemma ReadKeepsInv(scheme: Scheme, send: Option<View>, recv: Option<View>, s: Sys, a: Action)
    requires Unforgeable(scheme) && Inv(send, recv, s) && a.Read?
    ensures Inv(send, recv, Next(scheme, s, a))
  {
    if Next(scheme, s, a) != s {
      var me := SideOf(s, a.role).value;
      var passes := a.message.Some? && Verifies(scheme, me.view, StepAt(me.at.n), a.message.value);
      if passes {
        AcceptedWasWritten(scheme, s, a.role, me.at.n, a.message.value);
      }
      AdvanceKeepsInv(send, recv, s, a.role, me.at.n, passes);
    }
  }

  lemma WriteKeepsInv(scheme: Scheme, send: Option<View>, recv: Option<View>, s: Sys, a: Action)
    requires Inv(send, recv, s) && !a.Read?
    ensures Inv(send, recv, Next(scheme, s, a))
  {
  }

  lemma NextKeepsInv(scheme: Scheme, send: Option<View>, recv: Option<View>, s: Sys, a: Action)
    requires Unforgeable(scheme) && Inv(send, recv, s)
    ensures Inv(send, recv, Next(scheme, s, a))
  {
    if a.Read? {
      ReadKeepsInv(scheme, send, recv, s, a);
    } else {
      WriteKeepsInv(scheme, send, recv, s, a);
    }
  }

  lemma {:induction false} RunKeepsInv(scheme: Scheme, send: Option<View>, recv: Option<View>, actions: seq<Action>)
    requires Unforgeable(scheme)
    ensures Inv(send, recv, Run(scheme, send, recv, actions))
  {
    if |actions| > 0 {
      RunKeepsInv(scheme, send, recv, actions[..|actions| - 1]);
      NextKeepsInv(scheme, send, recv, Run(scheme, send, recv, actions[..|actions| - 1]), actions[|actions| - 1]);
    }
  }

  // ----- Theorems -----

  /**
   * When either side succeeds, whatever the network did, both sides hold the same code, key, size
   * and digest, and all four messages were written for them.
   */
  lemma SuccessMeansAgreement(scheme: Scheme, send: Option<View>, recv: Option<View>, actions: seq<Action>, role: Role)
    requires Unforgeable(scheme) && Succeeds(Run(scheme, send, recv, actions), role)
    ensures send.Some? && send == recv && Usable(send.value)
    ensures |send.value.code| >= 1 && |send.value.key| == 32 && |send.value.digest| == 32
    ensures Run(scheme, send, recv, actions).written == {0, 1, 2, 3}
  {
    var s := Run(scheme, send, recv, actions);
    RunKeepsInv(scheme, send, recv, actions);
    assert Author(0) == Recv && Author(1) == Send;
    assert 0 in s.written && 1 in s.written && 2 in s.written && 3 in s.written;
    assert forall n :: n in s.written ==> n < 4;
  }

  /** Action `i` is a write of message `n` that reports an error although the message goes out. */
  predicate LeaksAt(scheme: Scheme, send: Option<View>, recv: Option<View>, actions: seq<Action>, i: nat, n: nat) {
    i < |actions| && Leaks(Run(scheme, send, recv, actions[..i]), actions[i], n)
  }

  predicate Leaks(s: Sys, a: Action, n: nat) {
    a == WriteFails(Author(n), true) && SideOf(s, Author(n)).Some? && SideOf(s, Author(n)).value.at == Past(n)
  }

  /** Action `i` is the receiver's last read; `verifies` tells whether it gets the sender's last message. */
  predicate EndsAt(scheme: Scheme, send: Option<View>, recv: Option<View>, actions: seq<Action>, i: nat,
                   verifies: bool) {
    i < |actions| && Ends(scheme, Run(scheme, send, recv, actions[..i]), actions[i], verifies)
  }

  predicate Ends(scheme: Scheme, s: Sys, a: Action, verifies: bool) {
    && a.Read? && a.role == Recv && s.receiver.Some? && s.receiver.value.at == Past(3)
    && (a.message.Some? ==> Deliverable(scheme, s, a.message.value))
    && (verifies <==> a.message.Some? && Verifies(scheme, s.receiver.value.view, SenderFinished, a.message.value))
  }

  predicate LeakedAway(s: Sys, n: nat) {
    SideOf(s, Author(n)).Some? && SideOf(s, Author(n)).value.at == GaveUp(n) && n in s.written
  }

  predicate EndedWith(s: Sys, verifies: bool) {
    s.receiver.Some? && s.receiver.value.at == if verifies then Past(4) else GaveUp(3)
  }

  lemma LeakStep(scheme: Scheme, s: Sys, a: Action, n: nat)
    requires WrittenOk(s) && n < 4
    requires SideOf(s, Author(n)).Some? ==> Usable(SideOf(s, Author(n)).value.view)
    ensures LeakedAway(Next(scheme, s, a), n) <==> LeakedAway(s, n) || Leaks(s, a, n)
  {
  }

  lemma EndStep(scheme: Scheme, s: Sys, a: Action, verifies: bool)
    ensures EndedWith(Next(scheme, s, a), verifies) <==> EndedWith(s, verifies) || Ends(scheme, s, a, verifies)
  {
  }

  lemma LeaksAtPrefix(scheme: Scheme, send: Option<View>, recv: Option<View>, actions: seq<Action>, i: nat, n: nat)
    requires i < |actions|
    ensures var before := actions[..|actions| - 1];
            if i < |before| then
              LeaksAt(scheme, send, recv, actions, i, n) <==> LeaksAt(scheme, send, recv, before, i, n)
            else
              LeaksAt(scheme, send, recv, actions, i, n) <==> Leaks(Run(scheme, send, recv, before), actions[i], n)
  {
    if i < |actions| - 1 {
      assert actions[..|actions| - 1][..i] == actions[..i];
    }
  }

  /** The leaking write is among the actions before the last one, or is that one. */
  lemma LeaksEarlierOrLast(scheme: Scheme, send: Option<View>, recv: Option<View>, actions: seq<Action>, n: nat)
    requires |actions| > 0
    ensures var before := actions[..|actions| - 1];
            (exists i :: LeaksAt(scheme, send, recv, actions, i, n)) <==>
              || (exists i :: LeaksAt(scheme, send, recv, before, i, n))
              || Leaks(Run(scheme, send, recv, before), actions[|actions| - 1], n)
  {
    var before := actions[..|actions| - 1];
    if i :| LeaksAt(scheme, send, recv, actions, i, n) {
      LeaksAtPrefix(scheme, send, recv, actions, i, n);
    }
    if i :| LeaksAt(scheme, send, recv, before, i, n) {
      LeaksAtPrefix(scheme, send, recv, actions, i, n);
    }
    LeaksAtPrefix(scheme, send, recv, actions, |actions| - 1, n);
  }

  /** A side has given up at a message that is on the network exactly when its write leaked it. */
  lemma {:induction false} LeakedExactly(scheme: Scheme, send: Option<View>, recv: Option<View>,
                                         actions: seq<Action>, n: nat)
    requires Unforgeable(scheme) && n < 4 && send.Some? && send == recv && Usable(send.value)
    ensures LeakedAway(Run(scheme, send, recv, actions), n) <==> exists i :: LeaksAt(scheme, send, recv, actions, i, n)
  {
    if |actions| > 0 {
      var before := actions[..|actions| - 1];
      LeakedExactly(scheme, send, recv, before, n);
      RunKeepsInv(scheme, send, recv, before);
      LeakStep(scheme, Run(scheme, send, recv, before), actions[|actions| - 1], n);
      LeaksEarlierOrLast(scheme, send, recv, actions, n);
    }
  }

  lemma EndsAtPrefix(scheme: Scheme, send: Option<View>, recv: Option<View>, actions: seq<Action>, i: nat,
                     verifies: bool)
    requires i < |actions|
    ensures var before := actions[..|actions| - 1];
            if i < |before| then
              EndsAt(scheme, send, recv, actions, i, verifies) <==> EndsAt(scheme, send, recv, before, i, verifies)
            else
              EndsAt(scheme, send, recv, actions, i, verifies) <==>
                Ends(scheme, Run(scheme, send, recv, before), actions[i], verifies)
  {
    if i < |actions| - 1 {
      assert actions[..|actions| - 1][..i] == actions[..i];
    }
  }

  /** The last read is among the actions before the last one, or is that one. */
  lemma EndsEarlierOrLast(scheme: Scheme, send: Option<View>, recv: Option<View>, actions: seq<Action>, verifies: bool)
    requires |actions| > 0
    ensures var before := actions[..|actions| - 1];
            (exists i :: EndsAt(scheme, send, recv, actions, i, verifies)) <==>
              || (exists i :: EndsAt(scheme, send, recv, before, i, verifies))
              || Ends(scheme, Run(scheme, send, recv, before), actions[|actions| - 1], verifies)
  {
    var before := actions[..|actions| - 1];
    if i :| EndsAt(scheme, send, recv, actions, i, verifies) {
      EndsAtPrefix(scheme, send, recv, actions, i, verifies);
    }
    if i :| EndsAt(scheme, send, recv, before, i, verifies) {
      EndsAtPrefix(scheme, send, recv, actions, i, verifies);
    }
    EndsAtPrefix(scheme, send, recv, actions, |actions| - 1, verifies);
  }

  /** A receiver has ended, either way, exactly when its last read ended it that way. */
  lemma {:induction false} EndedExactly(scheme: Scheme, send: Option<View>, recv: Option<View>,
                                        actions: seq<Action>, verifies: bool)
    ensures EndedWith(Run(scheme, send, recv, actions), verifies) <==>
            exists i :: EndsAt(scheme, send, recv, actions, i, verifies)
  {
    if |actions| > 0 {
      var before := actions[..|actions| - 1];
      EndedExactly(scheme, send, recv, before, verifies);
      EndStep(scheme, Run(scheme, send, recv, before), actions[|actions| - 1], verifies);
      EndsEarlierOrLast(scheme, send, recv, actions, verifies);
    }
  }

  /**
   * When the receiver succeeds, the sender has sent everything: it succeeds too, exactly unless its
   * very last write reported an error although the message went out.
   */
  lemma ReceiverSuccessIsShared(scheme: Scheme, send: Option<View>, recv: Option<View>, actions: seq<Action>)
    requires Unforgeable(scheme) && Succeeds(Run(scheme, send, recv, actions), Recv)
    ensures Succeeds(Run(scheme, send, recv, actions), Send) <==>
            !exists i :: LeaksAt(scheme, send, recv, actions, i, 3)
  {
    RunKeepsInv(scheme, send, recv, actions);
    SuccessMeansAgreement(scheme, send, recv, actions, Recv);
    LeakedExactly(scheme, send, recv, actions, 3);
  }

  /**
   * When the sender succeeds, the receiver has sent everything and is at its last read at least. It
   * succeeds exactly when that read is given the sender's last message; otherwise it has not come yet,
   * was given something else, or the receiver had stopped at a write of its own that leaked.
   */
  lemma SenderSuccessIsShared(scheme: Scheme, send: Option<View>, recv: Option<View>, actions: seq<Action>)
    requires Unforgeable(scheme) && Succeeds(Run(scheme, send, recv, actions), Send)
    ensures var receiver := Run(scheme, send, recv, actions).receiver;
            && receiver.Some? && receiver.value.at in {Past(3), Past(4), GaveUp(2), GaveUp(3)}
            && (receiver.value.at == Past(4) <==> exists i :: EndsAt(scheme, send, recv, actions, i, true))
            && (receiver.value.at == GaveUp(3) <==> exists i :: EndsAt(scheme, send, recv, actions, i, false))
            && (receiver.value.at == GaveUp(2) <==> exists i :: LeaksAt(scheme, send, recv, actions, i, 2))
  {
    RunKeepsInv(scheme, send, recv, actions);
    SuccessMeansAgreement(scheme, send, recv, actions, Send);
    LeakedExactly(scheme, send, recv, actions, 2);
    EndedExactly(scheme, send, recv, actions, true);
    EndedExactly(scheme, send, recv, actions, false);
  }

  function MessageAt(scheme: Scheme, v: View, n: nat): Message {
    Message(Text(Name(StepAt(n))), scheme.tag(v, StepAt(n)))
  }

  /** The undisturbed exchange of the first messages, one write and one read for each. */
  function Exchange(scheme: Scheme, v: View, n: nat): seq<Action> {
    if n == 0 then []
    else
      Exchange(scheme, v, n - 1) + [Write(Author(n - 1))] + [Read(Author(n), Some(MessageAt(scheme, v, n - 1)))]
  }

  lemma RunAppend(scheme: Scheme, send: Option<View>, recv: Option<View>, actions: seq<Action>, a: Action)
    ensures Run(scheme, send, recv, actions + [a]) == Next(scheme, Run(scheme, send, recv, actions), a)
  {
    assert (actions + [a])[..|actions|] == actions;
  }

  lemma OneMessage(scheme: Scheme, s: Sys, v: View, n: nat)
    requires Usable(v) && n < 4 && s.sender == Some(Side(v, Past(n))) && s.receiver == Some(Side(v, Past(n)))
    ensures var mid := Next(scheme, s, Write(Author(n)));
            var s' := Next(scheme, mid, Read(Author(n + 1), Some(MessageAt(scheme, v, n))));
            s'.sender == Some(Side(v, Past(n + 1))) && s'.receiver == Some(Side(v, Past(n + 1)))
  {
    var mid := Next(scheme, s, Write(Author(n)));
    assert OnNetwork(scheme, mid, n, MessageAt(scheme, v, n).mac);
    assert Deliverable(scheme, mid, MessageAt(scheme, v, n));
  }

  lemma {:induction false} ExchangeWorks(scheme: Scheme, v: View, n: nat)
    requires Usable(v) && n <= 4
    ensures var s := Run(scheme, Some(v), Some(v), Exchange(scheme, v, n));
            s.sender == Some(Side(v, Past(n))) && s.receiver == Some(Side(v, Past(n)))
  {
    if n > 0 {
      var before, a := Exchange(scheme, v, n - 1), Write(Author(n - 1));
      ExchangeWorks(scheme, v, n - 1);
      RunAppend(scheme, Some(v), Some(v), before, a);
      RunAppend(scheme, Some(v), Some(v), before + [a], Read(Author(n), Some(MessageAt(scheme, v, n - 1))));
      OneMessage(scheme, Run(scheme, Some(v), Some(v), before), v, n - 1);
    }
  }

  /** The exchange is complete: two sides that agree can both succeed. */
  lemma AgreementCanSucceed(scheme: Scheme, v: View, role: Role)
    requires Usable(v)
    ensures Succeeds(Run(scheme, Some(v), Some(v), Exchange(scheme, v, 4)), role)
  {
    ExchangeWorks(scheme, v, 4);
  }

  lemma LostLast(scheme: Scheme, s: Sys, v: View)
    requires Usable(v) && s.sender == Some(Side(v, Past(3))) && s.receiver == Some(Side(v, Past(3)))
    ensures var s' := Next(scheme, Next(scheme, s, Write(Send)), Read(Recv, None));
            s'.sender == Some(Side(v, Past(4))) && s'.receiver == Some(Side(v, GaveUp(3)))
  {
  }

  /** The last message can be lost, and then the sender alone succeeds. */
  lemma LastMessageMayBeLost(scheme: Scheme, v: View)
    requires Usable(v)
    ensures var s := Run(scheme, Some(v), Some(v), Exchange(scheme, v, 3) + [Write(Send)] + [Read(Recv, None)]);
            Succeeds(s, Send) && !Succeeds(s, Recv)
  {
    ExchangeWorks(scheme, v, 3);
    var before := Exchange(scheme, v, 3);
    RunAppend(scheme, Some(v), Some(v), before, Write(Send));
    RunAppend(scheme, Some(v), Some(v), before + [Write(Send)], Read(Recv, None));
    LostLast(scheme, Run(scheme, Some(v), Some(v), before), v);
  }

  lemma LeakedThird(scheme: Scheme, s: Sys, v: View)
    requires Usable(v) && s.sender == Some(Side(v, Past(2))) && s.receiver == Some(Side(v, Past(2)))
    ensures var mid := Next(scheme, s, WriteFails(Recv, true));
            var mid' := Next(scheme, mid, Read(Send, Some(MessageAt(scheme, v, 2))));
            var s' := Next(scheme, mid', Write(Send));
            s'.sender == Some(Side(v, Past(4))) && s'.receiver == Some(Side(v, GaveUp(2)))
  {
    var mid := Next(scheme, s, WriteFails(Recv, true));
    assert OnNetwork(scheme, mid, 2, MessageAt(scheme, v, 2).mac);
    assert Deliverable(scheme, mid, MessageAt(scheme, v, 2));
  }

  /** The sender can succeed alone without any loss: the receiver stopped at a write that did go out. */
  lemma ReceiverErrorMayBeSpurious(scheme: Scheme, v: View)
    requires Usable(v)
    ensures var leak, third := WriteFails(Recv, true), Read(Send, Some(MessageAt(scheme, v, 2)));
            var s := Run(scheme, Some(v), Some(v), Exchange(scheme, v, 2) + [leak] + [third] + [Write(Send)]);
            Succeeds(s, Send) && s.receiver == Some(Side(v, GaveUp(2)))
  {
    var before, a, b := Exchange(scheme, v, 2), WriteFails(Recv, true), Read(Send, Some(MessageAt(scheme, v, 2)));
    ExchangeWorks(scheme, v, 2);
    RunAppend(scheme, Some(v), Some(v), before, a);
    RunAppend(scheme, Some(v), Some(v), before + [a], b);
    RunAppend(scheme, Some(v), Some(v), before + [a] + [b], Write(Send));
    LeakedThird(scheme, Run(scheme, Some(v), Some(v), before), v);
  }

  lemma SpuriousError(scheme: Scheme, s: Sys, v: View)
    requires Usable(v) && s.sender == Some(Side(v, Past(3))) && s.receiver == Some(Side(v, Past(3)))
    ensures var mid := Next(scheme, s, WriteFails(Send, true));
            var s' := Next(scheme, mid, Read(Recv, Some(MessageAt(scheme, v, 3))));
            s'.receiver == Some(Side(v, Past(4))) && s'.sender == Some(Side(v, GaveUp(3)))
  {
    var mid := Next(scheme, s, WriteFails(Send, true));
    assert OnNetwork(scheme, mid, 3, MessageAt(scheme, v, 3).mac);
    assert Deliverable(scheme, mid, MessageAt(scheme, v, 3));
  }

  /** A last write that reports an error can still complete the exchange, and then the receiver alone succeeds. */
  lemma LastErrorMayBeSpurious(scheme: Scheme, v: View)
    requires Usable(v)
    ensures var last := Read(Recv, Some(MessageAt(scheme, v, 3)));
            var s := Run(scheme, Some(v), Some(v), Exchange(scheme, v, 3) + [WriteFails(Send, true)] + [last]);
            Succeeds(s, Recv) && !Succeeds(s, Send)
  {
    var before, a, b := Exchange(scheme, v, 3), WriteFails(Send, true), Read(Recv, Some(MessageAt(scheme, v, 3)));
    ExchangeWorks(scheme, v, 3);
    RunAppend(scheme, Some(v), Some(v), before, a);
    RunAppend(scheme, Some(v), Some(v), before + [a], b);
    SpuriousError(scheme, Run(scheme, Some(v), Some(v), before), v);
  }

  // ----- The file, end to end -----

  /** What a receiver believes after its stream: nothing, unless it kept a file. */
  function ReceiverView(code: Bytes, key: Bytes, result: Result<Received, Problem>): Option<View> {
    match result
    case Err(_) => None
    case Ok(rec) => Some(View(code, key, rec.size, rec.digest))
  }

  /** One cipher for each key. */
  ghost predicate IdealCiphers(cipher: Bytes -> Aead) {
    forall key :: Ideal(cipher(key))
  }

  /** What was sealed under `key` by a sender that holds `sendKey`: nothing, for any other key. */
  function SealedUnder(sendKey: Bytes, key: Bytes, base: Base, chunks: seq<Bytes>): seq<Sealed> {
    if key == sendKey then SealedChunks(base, chunks) else []
  }

  /** A receiver with its own key, its own side and whatever bytes the network gave it. */
  datatype Receiver = Receiver(code: Bytes, key: Bytes, local: Local, bytes: Bytes)

  function Reception(cipher: Bytes -> Aead, codec: Codec, sendKey: Bytes, base: Base, sent: seq<Bytes>,
                     r: Receiver): Result<Received, Problem> {
    Receive(codec, r.local, ReadAll(cipher(r.key), SealedUnder(sendKey, r.key, base, sent), base, 0, r.bytes))
  }

  /** Both sides of a transfer after the file stream, and then some run of the receipt exchange. */
  function Outcome(codec: Codec, code: Bytes, key: Bytes, h: Header, pieces: seq<Bytes>,
                   r: Receiver, result: Result<Received, Problem>, actions: seq<Action>): Sys {
    Run(Hmac(), Some(View(code, key, h.size, codec.hash(Concat(pieces)))), ReceiverView(r.code, r.key, result), actions)
  }

  /** Two different files with one hash. */
  predicate Collide(codec: Codec, a: Bytes, b: Bytes) {
    a != b && codec.hash(a) == codec.hash(b)
  }

  /**
   * End to end: over a network that rewrites the file stream and the control stream at will, if either
   * side reports success then both hold the same code and key, and the receiver kept a beginning of
   * what the sender read, of the announced size and with the sender's digest. That is the file itself
   * whenever it did not change while it was sent. If it did change, anything else that was kept would
   * be a collision of the file hash.
   */
  lemma SuccessMeansDelivered(cipher: Bytes -> Aead, base: Base, codec: Codec, code: Bytes, key: Bytes, h: Header,
                              pieces: seq<Bytes>, r: Receiver, result: Result<Received, Problem>,
                              actions: seq<Action>, role: Role)
    requires IdealCiphers(cipher) && Sane(codec)
    requires |h.name| <= MAX_NAME && h.size <= MAX_INT64 && |pieces| + 2 < COUNTERS
    requires result == Reception(cipher, codec, key, base, FileChunks(codec, h, pieces), r)
    requires Succeeds(Outcome(codec, code, key, h, pieces, r, result, actions), role)
    ensures r.code == code && r.key == key && result.Ok?
    ensures var kept, content := result.value.kept, Concat(pieces);
            && result.value == Received(h.name, kept, codec.hash(content), h.size)
            && |kept| == h.size && kept <= content
            && (kept == content || Collide(codec, kept, content))
            && (|content| == h.size ==> kept == content)
            && ((forall b :: b <= content ==> !Collide(codec, b, content)) ==> kept == content)
  {
    var send := Some(View(code, key, h.size, codec.hash(Concat(pieces))));
    HmacUnforgeable();
    SuccessMeansAgreement(Hmac(), send, ReceiverView(r.code, r.key, result), actions, role);
    AnyNetwork(cipher(key), base, codec, r.local, h, pieces, FileChunks(codec, h, pieces), r.bytes);
  }

  /**
   * And it can all succeed: whenever an unchanged file is sent, its stream arrives as it is and the
   * receipts are exchanged undisturbed, both sides report success and the file has been kept.
   */
  lemma UnchangedFileSucceeds(cipher: Bytes -> Aead, base: Base, codec: Codec, code: Bytes, key: Bytes, name: Bytes,
                              content: Bytes, script: seq<FileRead>, local: Local, role: Role)
    requires IdealCiphers(cipher) && Sane(codec) && |code| > 0 && |key| == KEY_SIZE
    requires |name| <= MAX_NAME && |content| <= MAX_INT64 && Fits(codec, |content|, content)
    requires Delivers(script, content) && forall r :: r in script ==> |r.data| <= CHUNK_SIZE
    requires Admits(local, |Pieces(script).0|)
    ensures var h, pieces := Header(name, |content|), Pieces(script).0;
            var chunks := FileChunks(codec, h, pieces);
            var r := Receiver(code, key, local, Wire(cipher(key), base, chunks, 0));
            var result := Reception(cipher, codec, key, base, chunks, r);
            var v := View(code, key, |content|, codec.hash(content));
            && result == Ok(Received(name, content, codec.hash(content), |content|))
            && Succeeds(Outcome(codec, code, key, h, pieces, r, result, Exchange(Hmac(), v, 4)), role)
  {
    PiecesKeepContent(script, content);
    UnchangedFileArrives(cipher(key), base, codec, local, name, content, script);
    AgreementCanSucceed(Hmac(), View(code, key, |content|, codec.hash(content)), role);
  }

  function PlainCiphers(): Bytes -> Aead {
    key => PlainAead()
  }

  /** Ciphers and a file codec as they are assumed here exist; no beginning of a file collides with it under them. */
  lemma AssumptionsCanBeMet(content: Bytes)
    requires |content| <= MAX_INT64
    ensures IdealCiphers(PlainCiphers()) && Sane(PlainCodec()) && Fits(PlainCodec(), |content|, content)
    ensures forall b :: b <= content ==> !Collide(PlainCodec(), b, content)
  {
    PlainAeadIsIdeal();
    PlainCodecIsSane();
    PlainTrailerFits(content);
    forall b: Bytes | b <= content
      ensures !Collide(PlainCodec(), b, content)
    {
      PlainHashTellsLengths(b, content);
    }
  }

  /** So the end-to-end theorem has an instance for every file, in which both sides succeed. */
  lemma EveryFileCanBeDelivered(base: Base, code: Bytes, key: Bytes, name: Bytes, content: Bytes, role: Role)
    requires |code| > 0 && |key| == KEY_SIZE && |name| <= MAX_NAME && |content| <= MAX_INT64
    ensures var h, pieces := Header(name, |content|), Pieces(Reads(content)).0;
            var chunks, local := FileChunks(PlainCodec(), h, pieces), Local(true, |content|, |content|, true);
            var r := Receiver(code, key, local, Wire(PlainAead(), base, chunks, 0));
            var result := Reception(PlainCiphers(), PlainCodec(), key, base, chunks, r);
            var v := View(code, key, |content|, PlainCodec().hash(content));
            Succeeds(Outcome(PlainCodec(), code, key, h, pieces, r, result, Exchange(Hmac(), v, 4)), role)
  {
    AssumptionsCanBeMet(content);
    ReadsDeliver(content);
    PiecesKeepContent(Reads(content), content);
    PiecesBounded(Pieces(Reads(content)).0);
    UnchangedFileSucceeds(PlainCiphers(), base, PlainCodec(), code, key, name, content, Reads(content),
                          Local(true, |content|, |content|, true), role);
  }
}
