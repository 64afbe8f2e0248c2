/**
 * Phase-aware receiving: messages of other phases are set aside in a bounded buffer and
 * delivered later. The class refines one simple selective queue, the buffer followed by the
 * unread input.
 */
module SelectiveMailbox {
  import opened Common
  import opened SessionModel

  const MAX_DEFERRED: nat := 16
  const MAX_BODY: nat := 65536
  const MAX_TYPE: nat := 64

  datatype ReceiveError = Closed | Invalid | DeferLimit | NoTypes | EmptyType

  /** Envelope limits, checked before any protocol decoder sees a message. */
  predicate ValidMessage(m: Message) {
    && 0 < |m.typ| <= MAX_TYPE
    && (forall i :: 0 <= i < |m.typ| ==> '!' <= m.typ[i] <= '~')
    && |m.body| <= MAX_BODY
  }

  predicate AllValid(q: seq<Message>) {
    forall i :: 0 <= i < |q| ==> ValidMessage(q[i])
  }

  /** Position of the first message whose type is accepted, or the length when there is none. */
  function First(q: seq<Message>, accepted: set<string>): (k: nat)
    ensures k <= |q|
    ensures k < |q| ==> q[k].typ in accepted
    ensures forall i :: 0 <= i < k ==> q[i].typ !in accepted
  {
    if |q| == 0 || q[0].typ in accepted then 0 else 1 + First(q[1..], accepted)
  }

  function Without(q: seq<Message>, k: nat): seq<Message>
    requires k < |q|
  {
    q[..k] + q[k + 1..]
  }

  /** A typed receive delivers position `k` exactly when every message read on the way is valid and fits. */
  predicate Deliverable(q: seq<Message>, deferred: nat, k: nat) {
    k < |q| && (k < deferred || (k <= MAX_DEFERRED && (forall i :: deferred <= i <= k ==> ValidMessage(q[i]))))
  }

  /** An untyped receive: the oldest message of the whole queue, if it is valid. */
  predicate TookOldest(deferred: seq<Message>, unread: seq<Message>, r: Result<Message, ReceiveError>,
                       deferred': seq<Message>, unread': seq<Message>) {
    if |deferred| > 0 then
      && deferred' == deferred[1..] && unread' == unread
      && r == if ValidMessage(deferred[0]) then Ok(deferred[0]) else Err(Invalid)
    else if |unread| > 0 then
      && deferred' == deferred && unread' == unread[1..]
      && r == if ValidMessage(unread[0]) then Ok(unread[0]) else Err(Invalid)
    else r == Err(Closed) && deferred' == deferred && unread' == unread
  }

  /** The scan of the buffer takes its first accepted message, if it has one. */
  predicate TookDeferred(deferred: seq<Message>, accepted: set<string>, taken: Option<Message>,
                         deferred': seq<Message>) {
    var k := First(deferred, accepted);
    if k < |deferred| then taken == Some(deferred[k]) && deferred' == Without(deferred, k)
    else taken == None && deferred' == deferred
  }

  /** One turn of the reading loop: a result ends it, `None` means the message was set aside. */
  predicate ReadTurn(deferred: seq<Message>, unread: seq<Message>, accepted: set<string>,
                     r: Option<Result<Message, ReceiveError>>, deferred': seq<Message>, unread': seq<Message>) {
    if |unread| == 0 then r == Some(Err(Closed)) && unread' == unread && deferred' == deferred
    else
      var m := unread[0];
      && unread' == unread[1..]
      && r == (if !ValidMessage(m) then Some(Err(Invalid))
               else if m.typ in accepted then Some(Ok(m))
               else if |deferred| >= MAX_DEFERRED then Some(Err(DeferLimit))
               else None)
      && deferred' == if r.None? then deferred + [m] else deferred
  }

  class ProtocolMailbox {
    var deferred: seq<Message>
    var unread: seq<Message> // the underlying mailbox, oldest first

    constructor (input: seq<Message>)
      ensures Valid() && Queue() == input && deferred == []
    {
      deferred, unread := [], input;
    }

    predicate Valid()
      reads this
    {
      |deferred| <= MAX_DEFERRED && AllValid(deferred)
    }

    function Queue(): seq<Message>
      reads this
    {
      deferred + unread
    }

    /** Reads the underlying mailbox; `Closed` stands for the caller's context ending the wait. */
    method ReadUnderlying() returns (r: Result<Message, ReceiveError>)
      modifies this`unread
      ensures old(unread) == [] ==> r == Err(Closed) && unread == []
      ensures old(unread) != [] ==> r == Ok(old(unread)[0]) && unread == old(unread)[1..]
    {
      if unread == [] {
        return Err(Closed);
      }
      r := Ok(unread[0]);
      unread := unread[1..];
    }

    /**
     * Returns the oldest message of the whole queue. A deferred message always passes the second
     * validation: only an unread one can be refused.
     */
    method Receive() returns (r: Result<Message, ReceiveError>)
      requires Valid()
      modifies this
      ensures Valid()
      ensures TookOldest(old(deferred), old(unread), r, deferred, unread)
      ensures old(Queue()) == [] ==> r == Err(Closed) && Queue() == []
      ensures old(Queue()) != [] ==> Queue() == old(Queue())[1..]
      ensures old(Queue()) != [] ==>
                r == if ValidMessage(old(Queue())[0]) then Ok(old(Queue())[0]) else Err(Invalid)
      ensures old(deferred) != [] ==> r == Ok(old(deferred)[0])
    {
      if |deferred| > 0 {
        var message := deferred[0];
        deferred := deferred[1..];
        if !ValidMessage(message) {
          return Err(Invalid);
        }
        return Ok(message);
      }
      r := ReadUnderlying();
      if r.Ok? && !ValidMessage(r.value) {
        r := Err(Invalid);
      }
    }

    /** Sets one message aside within the buffer's bound. */
    method DeferMessage(message: Message) returns (ok: Result<(), ReceiveError>)
      requires Valid()
      modifies this`deferred
      ensures Valid()
      ensures ok == if !ValidMessage(message) then Err(Invalid)
                    else if |old(deferred)| >= MAX_DEFERRED then Err(DeferLimit) else Ok(())
      ensures deferred == if ok.Ok? then old(deferred) + [message] else old(deferred)
    {
      if !ValidMessage(message) {
        return Err(Invalid);
      }
      if |deferred| >= MAX_DEFERRED {
        return Err(DeferLimit);
      }
      deferred := deferred + [message];
      return Ok(());
    }

    /** The scan of the buffer: removes the first accepted message in place. */
    method TakeDeferred(accepted: set<string>) returns (taken: Option<Message>)
      requires Valid()
      modifies this`deferred
      ensures Valid()
      ensures TookDeferred(old(deferred), accepted, taken, deferred)
    {
      var i := 0;
      while i < |deferred|
        invariant 0 <= i <= |deferred|
        invariant forall j :: 0 <= j < i ==> deferred[j].typ !in accepted
      {
        if deferred[i].typ in accepted {
          FirstIs(deferred, accepted, i);
          taken := Some(deferred[i]);
          deferred := deferred[..i] + deferred[i + 1..];
          return;
        }
        i := i + 1;
      }
      return None;
    }

    method ReadOne(accepted: set<string>) returns (r: Option<Result<Message, ReceiveError>>)
      requires Valid()
      modifies this
      ensures Valid()
      ensures ReadTurn(old(deferred), old(unread), accepted, r, deferred, unread)
    {
      var read := ReadUnderlying();
      if read.Err? {
        return Some(read);
      }
      if !ValidMessage(read.value) {
        return Some(Err(Invalid));
      }
      if read.value.typ in accepted {
        return Some(read);
      }
      var kept := DeferMessage(read.value);
      if kept.Err? {
        return Some(Err(kept.error));
      }
      return None;
    }

    /** Reads the underlying mailbox until an accepted message arrives, setting the others aside. */
    method ReadUntil(accepted: set<string>) returns (r: Result<Message, ReceiveError>)
      requires Valid() && First(deferred, accepted) == |deferred|
      modifies this
      ensures Valid()
      ensures r.Ok? <==> Deliverable(old(Queue()), |old(deferred)|, First(old(Queue()), accepted))
      ensures Selected(old(Queue()), |old(deferred)|, accepted, r, Queue())
    {
      ghost var q, d := deferred + unread, |deferred|;
      FirstConcat(deferred, unread, accepted);
      while true
        invariant Valid() && deferred + unread == q && d <= |deferred| <= First(q, accepted)
        decreases |unread|
      {
        ghost var buffer, input := deferred, unread;
        var ended := ReadOne(accepted);
        if ended.Some? {
          TurnEnds(buffer, input, d, accepted, ended.value, deferred, unread);
          return ended.value;
        }
        TurnGoesOn(buffer, input, accepted, deferred, unread);
      }
    }

    /**
     * Removes the first message of an accepted type from the whole queue and keeps the rest in
     * order. It succeeds exactly when that message is already deferred, or when everything read on
     * the way to it is valid and fits in the buffer. When the wait ends without one, nothing is
     * lost; any other error drops exactly the message that caused it.
     */
    method ReceiveType(accepted: set<string>) returns (r: Result<Message, ReceiveError>)
      requires Valid()
      modifies this
      ensures Valid()
      ensures r.Ok? <==> Deliverable(old(Queue()), |old(deferred)|, First(old(Queue()), accepted))
      ensures Selected(old(Queue()), |old(deferred)|, accepted, r, Queue())
    {
      FirstConcat(deferred, unread, accepted);
      var taken := TakeDeferred(accepted);
      if taken.Some? {
        assert Queue() == Without(old(Queue()), First(old(Queue()), accepted));
        return Ok(taken.value);
      }
      r := ReadUntil(accepted);
    }
  }

  /** What a typed receive leaves of the whole queue `q`, for each way it can end. */
  ghost predicate Selected(
    q: seq<Message>, deferred: nat, accepted: set<string>, r: Result<Message, ReceiveError>, rest: seq<Message>)
  {
    var k := First(q, accepted);
    match r
    case Ok(m) => k < |q| && m == q[k] && rest == Without(q, k)
    case Err(Closed) => k == |q| && rest == q
    case Err(Invalid) =>
      exists i :: deferred <= i < |q| && i <= k && !ValidMessage(q[i]) && AllValid(q[..i]) && rest == Without(q, i)
    case Err(DeferLimit) =>
      MAX_DEFERRED < k && MAX_DEFERRED < |q| && AllValid(q[..MAX_DEFERRED + 1]) && rest == Without(q, MAX_DEFERRED)
    case Err(_) => false
  }

  lemma AllValidExtends(q: seq<Message>, n: nat)
    requires n < |q| && AllValid(q[..n]) && ValidMessage(q[n])
    ensures AllValid(q[..n + 1])
  {
    assert forall i :: 0 <= i < n ==> q[..n + 1][i] == q[..n][i];
  }

  /** Whatever ends the reading loop at position `n` is what the specification of the whole call says. */
  lemma EndsHere(q: seq<Message>, d: nat, n: nat, accepted: set<string>, r: Result<Message, ReceiveError>)
    requires d <= n <= |q| && n <= First(q, accepted)
    requires n <= MAX_DEFERRED && AllValid(q[..n])
    requires if n == |q| then r == Err(Closed)
             else if !ValidMessage(q[n]) then r == Err(Invalid)
             else if q[n].typ in accepted then r == Ok(q[n])
             else r == Err(DeferLimit) && n == MAX_DEFERRED
    ensures r.Ok? <==> Deliverable(q, d, First(q, accepted))
    ensures Selected(q, d, accepted, r, if n == |q| then q else Without(q, n))
  {
    assert forall j :: d <= j < n ==> q[..n][j] == q[j];
    if n < |q| && ValidMessage(q[n]) {
      AllValidExtends(q, n);
    }
    if n < |q| && q[n].typ in accepted {
      FirstIs(q, accepted, n);
    }
    if n < |q| && q[n].typ !in accepted {
      FirstIsBeyond(q, accepted, n);
    }
  }

  /** A turn that ends the loop ends the whole call as specified. */
  lemma TurnEnds(buffer: seq<Message>, input: seq<Message>, d: nat, accepted: set<string>,
                 r: Result<Message, ReceiveError>, buffer': seq<Message>, input': seq<Message>)
    requires d <= |buffer| <= First(buffer + input, accepted) && |buffer| <= MAX_DEFERRED && AllValid(buffer)
    requires ReadTurn(buffer, input, accepted, Some(r), buffer', input')
    ensures r.Ok? <==> Deliverable(buffer + input, d, First(buffer + input, accepted))
    ensures Selected(buffer + input, d, accepted, r, buffer' + input')
  {
    var q, n := buffer + input, |buffer|;
    assert q[..n] == buffer && q[n..] == input;
    SplitAt(q, n);
    EndsHere(q, d, n, accepted, r);
    assert buffer' + input' == if n == |q| then q else Without(q, n);
  }

  /** A turn that sets a message aside keeps the whole queue and moves on by one. */
  lemma TurnGoesOn(buffer: seq<Message>, input: seq<Message>, accepted: set<string>,
                   buffer': seq<Message>, input': seq<Message>)
    requires |buffer| <= First(buffer + input, accepted)
    requires ReadTurn(buffer, input, accepted, None, buffer', input')
    ensures buffer' + input' == buffer + input && |input'| < |input|
    ensures |buffer| < |buffer'| <= First(buffer + input, accepted)
  {
    var q := buffer + input;
    assert q[|buffer|] == input[0];
    FirstIsBeyond(q, accepted, |buffer|);
  }

  /** How reading one more message splits the whole queue. */
  lemma SplitAt(q: seq<Message>, n: nat)
    requires n <= |q|
    ensures q[..n] + q[n..] == q
    ensures n < |q| ==> q[n..][0] == q[n] && q[n..][1..] == q[n + 1..]
    ensures n < |q| ==> q[..n] + q[n + 1..] == Without(q, n) && q[..n] + [q[n]] == q[..n + 1]
  {
  }

  lemma FirstIs(q: seq<Message>, accepted: set<string>, k: nat)
    requires k < |q| && q[k].typ in accepted
    requires forall j :: 0 <= j < k ==> q[j].typ !in accepted
    ensures First(q, accepted) == k
  {
  }

  lemma FirstIsBeyond(q: seq<Message>, accepted: set<string>, n: nat)
    requires n < |q| && n <= First(q, accepted) && q[n].typ !in accepted
    ensures n < First(q, accepted)
  {
  }

  lemma FirstConcat(a: seq<Message>, b: seq<Message>, accepted: set<string>)
    ensures First(a + b, accepted) ==
            if First(a, accepted) < |a| then First(a, accepted) else |a| + First(b, accepted)
  {
    var k := if First(a, accepted) < |a| then First(a, accepted) else |a| + First(b, accepted);
    if k < |a + b| {
      FirstIs(a + b, accepted, k);
    }
  }

  /** Requests one of several types; the accepted set must name at least one, none empty. */
  method ReceiveMailboxType(mbox: ProtocolMailbox, types: seq<string>) returns (r: Result<Message, ReceiveError>)
    requires mbox.Valid()
    modifies mbox
    ensures mbox.Valid()
    ensures |types| == 0 || "" in types ==> r.Err? && mbox.Queue() == old(mbox.Queue())
    ensures |types| > 0 && "" !in types ==>
              Selected(old(mbox.Queue()), old(|mbox.deferred|), (set t | t in types), r, mbox.Queue())
  {
    if |types| == 0 {
      return Err(NoTypes);
    }
    var accepted: set<string> := {};
    for i := 0 to |types|
      invariant accepted == set t | t in types[..i]
      invariant "" !in types[..i]
      invariant mbox.deferred == old(mbox.deferred) && mbox.unread == old(mbox.unread)
    {
      if types[i] == "" {
        return Err(EmptyType);
      }
      assert types[..i + 1] == types[..i] + [types[i]];
      accepted := accepted + {types[i]};
    }
    assert types[..|types|] == types;
    r := mbox.ReceiveType(accepted);
  }

  // ----- The selective queue itself -----

  function OfType(q: seq<Message>, typ: string): seq<Message> {
    if |q| == 0 then []
    else if q[0].typ == typ then [q[0]] + OfType(q[1..], typ)
    else OfType(q[1..], typ)
  }

  lemma {:induction false} OfTypeConcat(a: seq<Message>, b: seq<Message>, typ: string)
    ensures OfType(a + b, typ) == OfType(a, typ) + OfType(b, typ)
  {
    if |a| == 0 {
      assert a + b == b;
    } else {
      assert (a + b)[1..] == a[1..] + b;
      OfTypeConcat(a[1..], b, typ);
    }
  }

  lemma {:induction false} OfTypeNone(q: seq<Message>, typ: string)
    requires forall i :: 0 <= i < |q| ==> q[i].typ != typ
    ensures OfType(q, typ) == []
  {
    if |q| > 0 {
      OfTypeNone(q[1..], typ);
    }
  }

  /** Removing position `k` takes the oldest message of its own type and leaves every other type alone. */
  lemma RemovalIsFifo(q: seq<Message>, k: nat, typ: string)
    requires k < |q| && forall i :: 0 <= i < k ==> q[i].typ != q[k].typ
    ensures OfType(q, typ) == OfType([q[k]], typ) + OfType(Without(q, k), typ)
  {
    assert q == q[..k] + ([q[k]] + q[k + 1..]);
    OfTypeConcat(q[..k], [q[k]] + q[k + 1..], typ);
    OfTypeConcat([q[k]], q[k + 1..], typ);
    OfTypeConcat(q[..k], q[k + 1..], typ);
    if typ == q[k].typ {
      OfTypeNone(q[..k], typ);
    }
  }

  datatype Step = Arrive(message: Message) | TakeHead | TakeType(accepted: set<string>)

  datatype State = State(queue: seq<Message>, delivered: seq<Message>, arrived: seq<Message>)

  function Take(s: State, k: nat): State {
    if k < |s.queue| then State(Without(s.queue, k), s.delivered + [s.queue[k]], s.arrived) else s
  }

  function Next(s: State, step: Step): State {
    match step
    case Arrive(m) => State(s.queue + [m], s.delivered, s.arrived + [m])
    case TakeHead => Take(s, 0)
    case TakeType(accepted) => Take(s, First(s.queue, accepted))
  }

  function Run(steps: seq<Step>): State {
    if |steps| == 0 then State([], [], []) else Next(Run(steps[..|steps| - 1]), steps[|steps| - 1])
  }

  lemma TakeIsFifo(s: State, k: nat, typ: string)
    requires forall i :: 0 <= i < k <= |s.queue| && k < |s.queue| ==> s.queue[i].typ != s.queue[k].typ
    requires OfType(s.arrived, typ) == OfType(s.delivered, typ) + OfType(s.queue, typ)
    ensures var s' := Take(s, k);
            OfType(s'.arrived, typ) == OfType(s'.delivered, typ) + OfType(s'.queue, typ)
  {
    if k < |s.queue| {
      RemovalIsFifo(s.queue, k, typ);
      OfTypeConcat(s.delivered, [s.queue[k]], typ);
      var head, rest := OfType([s.queue[k]], typ), OfType(Without(s.queue, k), typ);
      assert OfType(s.delivered, typ) + (head + rest) == (OfType(s.delivered, typ) + head) + rest;
    }
  }

  /**
   * Over every run of arrivals and receives, typed or not: per type, what arrived is what was
   * delivered, in order, followed by what is still queued. Nothing is lost, repeated or reordered.
   */
  lemma {:induction false} DeliveryIsFifoPerType(steps: seq<Step>, typ: string)
    ensures var s := Run(steps);
            OfType(s.arrived, typ) == OfType(s.delivered, typ) + OfType(s.queue, typ)
  {
    if |steps| > 0 {
      var s, step := Run(steps[..|steps| - 1]), steps[|steps| - 1];
      DeliveryIsFifoPerType(steps[..|steps| - 1], typ);
      match step
      case Arrive(m) =>
        OfTypeConcat(s.queue, [m], typ);
        OfTypeConcat(s.arrived, [m], typ);
        assert OfType(s.delivered, typ) + (OfType(s.queue, typ) + OfType([m], typ))
            == (OfType(s.delivered, typ) + OfType(s.queue, typ)) + OfType([m], typ);
      case TakeHead => TakeIsFifo(s, 0, typ);
      case TakeType(accepted) => TakeIsFifo(s, First(s.queue, accepted), typ);
    }
  }
}
