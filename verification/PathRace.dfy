/**
 * The legacy path race: dial, accept and relay workers push results into bounded channels while one
 * loop waits on the channels, two timers and cancellation. Every order of events is a run.
 *
 * Only authenticated connections appear here. What an accept worker turns away it closes itself
 * before it waits again, and that leaves no trace in this state.
 */
module PathRace {
  import opened Common

  /** Three dials for each target. */
  const DIALS_PER_TARGET: nat := 3
  const RELAY_CAPACITY: nat := 1

  datatype Config = Config(targets: nat, relay: bool, sending: bool)

  /** A connection that proved the peer's key, named after the worker that made it. */
  datatype Conn = Dialed(worker: nat) | Accepted | Relayed(attempt: nat)

  datatype Result = Won(conn: Conn) | Lost

  function DirectCapacity(cfg: Config): nat {
    cfg.targets * DIALS_PER_TARGET + 1
  }

  // ----- The waiting loop -----

  /** The loop's own variables; `discarded` lists the connections it has closed, in order. */
  datatype Main = Main(
    quicConn: Option<Conn>, initiated: bool, provisional: Option<Conn>, provisionalTimer: bool,
    relayTimer: bool, relayInFlight: bool, relayAttempts: nat, discarded: seq<Conn>)

  function Listed(c: Option<Conn>): seq<Conn> {
    if c.Some? then [c.value] else []
  }

  function Adopt(m: Main, c: Conn): Main {
    m.(quicConn := Some(c), initiated := c.Dialed?, provisional := None, provisionalTimer := false)
  }

  /** A receiver prefers its own dials, a sender what it accepts. */
  predicate Preferred(cfg: Config, c: Conn) {
    c.Dialed? == !cfg.sending
  }

  function OnDirect(cfg: Config, m: Main, r: Result): Main {
    if r.Lost? then m
    else if Preferred(cfg, r.conn) then
      Adopt(m, r.conn).(discarded := m.discarded + if m.provisional != Some(r.conn) then Listed(m.provisional) else [])
    else if m.provisional.None? then m.(provisional := Some(r.conn), provisionalTimer := true)
    else m.(discarded := m.discarded + [r.conn])
  }

  function OnProvisionalTimer(m: Main): Main {
    if m.provisional.Some? then Adopt(m, m.provisional.value) else m.(provisionalTimer := false)
  }

  /** The timer rearms itself; a new attempt starts only when none is in flight. */
  function OnRelayTimer(m: Main): Main {
    if m.relayInFlight then m else m.(relayInFlight := true, relayAttempts := m.relayAttempts + 1)
  }

  function OnRelay(cfg: Config, m: Main, r: Result): Main {
    var m' := m.(relayInFlight := false);
    if r.Lost? then m'
    else
      m'.(quicConn := Some(r.conn), initiated := cfg.sending, provisional := None, provisionalTimer := false,
          relayTimer := false, discarded := m.discarded + Listed(m.provisional))
  }

  /** The last wait for a relay attempt in flight, after cancellation. */
  function OnLateRelay(cfg: Config, m: Main, r: Result): Main {
    var m' := m.(relayInFlight := false);
    if r.Lost? then m' else m'.(quicConn := Some(r.conn), initiated := cfg.sending)
  }

  /** The loop as it runs: its variables change in place as events arrive. */
  class WaitLoop {
    const cfg: Config
    var quicConn: Option<Conn>
    var initiated: bool
    var provisional: Option<Conn>
    var provisionalTimer: bool
    var relayTimer: bool
    var relayInFlight: bool
    var relayAttempts: nat
    var discarded: seq<Conn>

    function View(): Main
      reads this
    {
      Main(quicConn, initiated, provisional, provisionalTimer, relayTimer, relayInFlight, relayAttempts, discarded)
    }

    constructor (cfg: Config)
      ensures this.cfg == cfg && View() == Before(cfg)
    {
      this.cfg := cfg;
      quicConn, initiated, provisional, provisionalTimer := None, !cfg.sending, None, false;
      relayTimer, relayInFlight, relayAttempts, discarded := cfg.relay, false, 0, [];
    }

    method Discard(c: Conn)
      modifies this`discarded
      ensures discarded == old(discarded) + [c]
    {
      discarded := discarded + [c];
    }

    method AdoptDirect(c: Conn)
      modifies this`quicConn, this`initiated
      ensures quicConn == Some(c) && initiated == c.Dialed?
    {
      quicConn := Some(c);
      initiated := c.Dialed?;
    }

    method HandleDirect(r: Result)
      modifies this
      ensures View() == OnDirect(cfg, old(View()), r)
    {
      if r.Lost? {
        return;
      }
      if r.conn.Dialed? == !cfg.sending {
        provisionalTimer := false;
        if provisional.Some? && provisional.value != r.conn {
          Discard(provisional.value);
        }
        provisional := None;
        AdoptDirect(r.conn);
        return;
      }
      if provisional.None? {
        provisional := Some(r.conn);
        provisionalTimer := true;
        return;
      }
      Discard(r.conn);
    }

    method HandleProvisionalTimer()
      modifies this
      ensures View() == OnProvisionalTimer(old(View()))
    {
      provisionalTimer := false;
      if provisional.Some? {
        AdoptDirect(provisional.value);
        provisional := None;
      }
    }

    method HandleRelayTimer() returns (launch: bool)
      modifies this
      ensures View() == OnRelayTimer(old(View())) && launch == !old(relayInFlight)
    {
      if relayInFlight {
        return false;
      }
      relayAttempts := relayAttempts + 1;
      relayInFlight := true;
      return true;
    }

    method HandleRelay(r: Result)
      modifies this
      ensures View() == OnRelay(cfg, old(View()), r)
    {
      relayInFlight := false;
      if r.Won? {
        relayTimer, provisionalTimer := false, false;
        if provisional.Some? {
          Discard(provisional.value);
          provisional := None;
        }
        quicConn, initiated := Some(r.conn), cfg.sending;
      }
    }

    method HandleLateRelay(r: Result)
      modifies this
      ensures View() == OnLateRelay(cfg, old(View()), r)
    {
      relayInFlight := false;
      if r.Won? {
        quicConn, initiated := Some(r.conn), cfg.sending;
      }
    }

    /** Cancellation: the provisional winner, or the attempt in flight, or nothing. */
    method HandleCancel(late: Result)
      modifies this
      ensures View() == OnCancel(cfg, old(View()), late)
    {
      if provisional.Some? {
        provisionalTimer := false;
        AdoptDirect(provisional.value);
        provisional := None;
      } else if relayInFlight {
        HandleLateRelay(late);
      }
    }

    /**
     * Waits for a connection over any order of events. Events after the one that brings it, or after
     * cancellation, are not looked at.
     */
    method Wait(events: seq<Event>) returns (seen: nat)
      modifies this
      ensures seen <= |events| && View() == Waits(cfg, old(View()), events) == Waits(cfg, old(View()), events[..seen])
      ensures quicConn.Some? || seen == |events| || (seen > 0 && events[seen - 1].Cancelled?)
    {
      var i := 0;
      while i < |events| && quicConn.None?
        invariant 0 <= i <= |events|
        invariant Waits(cfg, View(), events[i..]) == Waits(cfg, old(View()), events)
        invariant View() == Waits(cfg, old(View()), events[..i])
        invariant NotCancelled(events[..i])
        decreases |events| - i
      {
        assert events[i..][1..] == events[i + 1..];
        assert events[..i + 1] == events[..i] + [events[i]];
        WaitsOneMore(cfg, old(View()), events[..i], events[i]);
        match events[i] {
          case Direct(r) => HandleDirect(r);
          case GraceOver => if provisionalTimer { HandleProvisionalTimer(); }
          case RelayDue => if relayTimer { var launch := HandleRelayTimer(); }
          case Relay(r) => HandleRelay(r);
          case Cancelled(late) =>
            HandleCancel(late);
            return i + 1;
        }
        i := i + 1;
      }
      seen := i;
    }
  }

  /** What the loop selects on; cancellation carries what an attempt in flight will still bring. */
  datatype Event = Direct(result: Result) | GraceOver | RelayDue | Relay(result: Result) | Cancelled(late: Result)

  function OnCancel(cfg: Config, m: Main, late: Result): Main {
    if m.provisional.Some? then Adopt(m, m.provisional.value)
    else if m.relayInFlight then OnLateRelay(cfg, m, late)
    else m
  }

  /** An unarmed timer never fires. */
  function OnEvent(cfg: Config, m: Main, e: Event): Main {
    match e
    case Direct(r) => OnDirect(cfg, m, r)
    case GraceOver => if m.provisionalTimer then OnProvisionalTimer(m) else m
    case RelayDue => if m.relayTimer then OnRelayTimer(m) else m
    case Relay(r) => OnRelay(cfg, m, r)
    case Cancelled(late) => OnCancel(cfg, m, late)
  }

  function Waits(cfg: Config, m: Main, events: seq<Event>): Main
    decreases |events|
  {
    if |events| == 0 || m.quicConn.Some? then m
    else if events[0].Cancelled? then OnEvent(cfg, m, events[0])
    else Waits(cfg, OnEvent(cfg, m, events[0]), events[1..])
  }

  predicate NotCancelled(events: seq<Event>) {
    forall i :: 0 <= i < |events| ==> !events[i].Cancelled?
  }

  lemma {:induction false} WaitsOneMore(cfg: Config, m: Main, events: seq<Event>, e: Event)
    requires Waits(cfg, m, events).quicConn.None? && NotCancelled(events)
    ensures Waits(cfg, m, events + [e]) == OnEvent(cfg, Waits(cfg, m, events), e)
    decreases |events|
  {
    if |events| > 0 {
      assert (events + [e])[1..] == events[1..] + [e];
      WaitsOneMore(cfg, OnEvent(cfg, m, events[0]), events[1..], e);
    } else {
      assert events + [e] == [e];
      assert [e][1..] == [];
    }
  }

  /** Closes every successful connection still in the channels. */
  method DrainRaceLosers(direct: seq<Result>, relay: seq<Result>) returns (closed: seq<Conn>)
    ensures closed == Winners(direct) + Winners(relay)
  {
    closed := [];
    for i := 0 to |direct|
      invariant closed + Winners(direct[i..]) == Winners(direct)
    {
      WinnersFrom(direct, i, closed);
      if direct[i].Won? {
        closed := closed + [direct[i].conn];
      }
    }
    assert closed == Winners(direct);
    ghost var first := closed;
    for i := 0 to |relay|
      invariant closed + Winners(relay[i..]) == first + Winners(relay)
    {
      WinnersFrom(relay, i, closed);
      if relay[i].Won? {
        closed := closed + [relay[i].conn];
      }
    }
  }

  /** Closing the winner at position `i` leaves those after it. */
  lemma WinnersFrom(rs: seq<Result>, i: nat, closed: seq<Conn>)
    requires i < |rs|
    ensures closed + Winners(rs[i..]) ==
            (if rs[i].Won? then closed + [rs[i].conn] else closed) + Winners(rs[i + 1..])
  {
    assert rs[i..][1..] == rs[i + 1..];
  }

  function Winners(rs: seq<Result>): seq<Conn> {
    if |rs| == 0 then [] else (if rs[0].Won? then [rs[0].conn] else []) + Winners(rs[1..])
  }

  function Before(cfg: Config): Main {
    Main(None, !cfg.sending, None, false, cfg.relay, false, 0, [])
  }

  // ----- The whole race -----

  datatype Worker = Sleeping | Running | Ended

  datatype Phase = Waiting | AwaitingRelay | Joining | Returned

  /** `made` collects every authenticated connection the workers produced. */
  datatype Sys = Sys(
    cfg: Config, phase: Phase, main: Main, cancelled: bool,
    dials: seq<Worker>, accept: Worker, relays: seq<Worker>,
    directResults: seq<Result>, relayResults: seq<Result>, made: multiset<Conn>)

  datatype Action =
    | WakeDial(dial: nat) | CancelDial(dial: nat) | EndDial(dial: nat, ok: bool)
    | EndAccept(ok: bool) | EndRelay(attempt: nat, ok: bool)
    | Cancel | TakeDirect | FireProvisional | FireRelay | TakeRelay | SeeDone | Finish

  /** Without a target and without a relay nothing is started. Only a receiver's first dial starts at once. */
  function Init(cfg: Config): Sys {
    if cfg.targets == 0 && !cfg.relay then
      Sys(cfg, Returned, Before(cfg), true, [], Ended, [], [], [], multiset{})
    else
      Sys(cfg, Waiting, Before(cfg), false,
          seq(cfg.targets * DIALS_PER_TARGET, i => if i == 0 && !cfg.sending then Running else Sleeping),
          Running, [], [], [], multiset{})
  }

  function ResultOf(c: Conn, ok: bool): Result {
    if ok then Won(c) else Lost
  }

  function MadeOf(c: Conn, ok: bool): multiset<Conn> {
    if ok then multiset{c} else multiset{}
  }

  /** A worker pushes its one result, if the channel has room for it, and ends. */
  function PushDirect(s: Sys, c: Conn, ok: bool): Sys {
    s.(directResults := s.directResults + [ResultOf(c, ok)], made := s.made + MadeOf(c, ok))
  }

  function PushRelay(s: Sys, c: Conn, ok: bool): Sys {
    s.(relayResults := s.relayResults + [ResultOf(c, ok)], made := s.made + MadeOf(c, ok))
  }

  /** The loop ends when it has a connection; ending it cancels the workers. */
  function Proceed(s: Sys, m: Main): Sys {
    if m.quicConn.Some? then s.(main := m, phase := Joining, cancelled := true) else s.(main := m)
  }

  predicate AllEnded(s: Sys) {
    Pending(s) == 0
  }

  function WorkerStep(s: Sys, a: Action): Sys {
    match a
    case WakeDial(i) => if i < |s.dials| && s.dials[i] == Sleeping then s.(dials := s.dials[i := Running]) else s
    case CancelDial(i) =>
      if i < |s.dials| && s.dials[i] == Sleeping && s.cancelled then s.(dials := s.dials[i := Ended]) else s
    case EndDial(i, ok) =>
      if i < |s.dials| && s.dials[i] == Running && |s.directResults| < DirectCapacity(s.cfg) then
        PushDirect(s, Dialed(i), ok).(dials := s.dials[i := Ended])
      else s
    case EndAccept(ok) =>
      if s.accept != Ended && |s.directResults| < DirectCapacity(s.cfg) then
        PushDirect(s, Accepted, ok).(accept := Ended)
      else s
    case EndRelay(k, ok) =>
      if k < |s.relays| && s.relays[k] != Ended && |s.relayResults| < RELAY_CAPACITY then
        PushRelay(s, Relayed(k), ok).(relays := s.relays[k := Ended])
      else s
    case _ => s
  }

  function LoopStep(s: Sys, a: Action): Sys {
    var m := s.main;
    match a
    case Cancel => s.(cancelled := true)
    case TakeDirect =>
      if s.phase == Waiting && |s.directResults| > 0 then
        Proceed(s.(directResults := s.directResults[1..]), OnDirect(s.cfg, m, s.directResults[0]))
      else s
    case FireProvisional =>
      if s.phase == Waiting && m.provisionalTimer then Proceed(s, OnProvisionalTimer(m)) else s
    case FireRelay =>
      if s.phase == Waiting && m.relayTimer then
        s.(main := OnRelayTimer(m), relays := s.relays + if m.relayInFlight then [] else [Running])
      else s
    case TakeRelay =>
      if |s.relayResults| == 0 then s
      else
        var rest, r := s.(relayResults := s.relayResults[1..]), s.relayResults[0];
        if s.phase == Waiting then Proceed(rest, OnRelay(s.cfg, m, r))
        else if s.phase == AwaitingRelay then rest.(main := OnLateRelay(s.cfg, m, r), phase := Joining)
        else s
    case SeeDone =>
      if s.phase != Waiting || !s.cancelled then s
      else if m.provisional.Some? then Proceed(s, Adopt(m, m.provisional.value))
      else s.(phase := if m.relayInFlight then AwaitingRelay else Joining)
    case Finish =>
      if s.phase == Joining && AllEnded(s) then
        s.(phase := Returned, directResults := [], relayResults := [],
           main := m.(discarded := m.discarded + (Winners(s.directResults) + Winners(s.relayResults))))
      else s
    case _ => s
  }

  predicate WorkerAction(a: Action) {
    a.WakeDial? || a.CancelDial? || a.EndDial? || a.EndAccept? || a.EndRelay?
  }

  function Next(s: Sys, a: Action): Sys {
    if WorkerAction(a) then WorkerStep(s, a) else LoopStep(s, a)
  }

  function RunFrom(s: Sys, actions: seq<Action>): Sys {
    if |actions| == 0 then s else Next(RunFrom(s, actions[..|actions| - 1]), actions[|actions| - 1])
  }

  function Run(cfg: Config, actions: seq<Action>): Sys {
    RunFrom(Init(cfg), actions)
  }

  lemma RunAppend(cfg: Config, actions: seq<Action>, a: Action)
    ensures Run(cfg, []) == Init(cfg) && Run(cfg, actions + [a]) == Next(Run(cfg, actions), a)
  {
    assert (actions + [a])[..|actions|] == actions;
  }

  // ----- Counting -----

  /** How many workers have yet to end. */
  function Active(ws: seq<Worker>): (n: nat)
    ensures n <= |ws|
  {
    if |ws| == 0 then 0 else Active(ws[..|ws| - 1]) + (if ws[|ws| - 1] == Ended then 0 else 1)
  }

  lemma {:induction false} ActiveUpdate(ws: seq<Worker>, i: nat, w: Worker)
    requires i < |ws|
    ensures Active(ws[i := w]) == Active(ws) - (if ws[i] == Ended then 0 else 1) + (if w == Ended then 0 else 1)
  {
    var n := |ws| - 1;
    if i < n {
      assert ws[i := w][..n] == ws[..n][i := w];
      ActiveUpdate(ws[..n], i, w);
    } else {
      assert ws[i := w][..n] == ws[..n];
    }
  }

  lemma {:induction false} ActiveZero(ws: seq<Worker>)
    ensures Active(ws) == 0 <==> forall w :: w in ws ==> w == Ended
  {
    if |ws| > 0 {
      var rest, last := ws[..|ws| - 1], ws[|ws| - 1];
      ActiveZero(rest);
      assert ws == rest + [last];
      assert last in ws && forall w :: w in ws <==> w in rest || w == last;
    }
  }

  lemma ActiveAppend(ws: seq<Worker>, w: Worker)
    ensures Active(ws + [w]) == Active(ws) + (if w == Ended then 0 else 1)
  {
    assert (ws + [w])[..|ws|] == ws;
  }

  function DirectActive(s: Sys): nat {
    Active(s.dials) + if s.accept == Ended then 0 else 1
  }

  function Pending(s: Sys): nat {
    DirectActive(s) + Active(s.relays)
  }

  function Is(c: Option<Conn>, d: Conn): nat {
    if c == Some(d) then 1 else 0
  }

  /** How often a connection waits in a channel. */
  function Queued(rs: seq<Result>, c: Conn): nat {
    if |rs| == 0 then 0 else (if rs[0] == Won(c) then 1 else 0) + Queued(rs[1..], c)
  }

  /** How often a connection has been closed. */
  function Closed(cs: seq<Conn>, c: Conn): nat {
    if |cs| == 0 then 0 else (if cs[0] == c then 1 else 0) + Closed(cs[1..], c)
  }

  lemma {:induction false} QueuedAppend(rs: seq<Result>, r: Result, c: Conn)
    ensures Queued(rs + [r], c) == Queued(rs, c) + if r == Won(c) then 1 else 0
  {
    if |rs| > 0 {
      assert (rs + [r])[1..] == rs[1..] + [r];
      QueuedAppend(rs[1..], r, c);
    } else {
      assert rs + [r] == [r] && [r][1..] == [];
    }
  }

  lemma {:induction false} ClosedConcat(a: seq<Conn>, b: seq<Conn>, c: Conn)
    ensures Closed(a + b, c) == Closed(a, c) + Closed(b, c)
  {
    if |a| > 0 {
      assert (a + b)[1..] == a[1..] + b;
      ClosedConcat(a[1..], b, c);
    } else {
      assert a + b == b;
    }
  }

  lemma {:induction false} ClosedWinners(rs: seq<Result>, c: Conn)
    ensures Closed(Winners(rs), c) == Queued(rs, c)
  {
    if |rs| > 0 {
      ClosedWinners(rs[1..], c);
      if rs[0].Won? {
        assert Winners(rs)[1..] == Winners(rs[1..]);
      } else {
        assert Winners(rs) == Winners(rs[1..]);
      }
    }
  }

  lemma ClosedListed(cs: seq<Conn>, o: Option<Conn>, c: Conn)
    ensures Closed(cs + Listed(o), c) == Closed(cs, c) + Is(o, c)
  {
    ClosedConcat(cs, Listed(o), c);
  }

  // ----- Invariant -----

  /** In how many places a connection is, inside the loop and altogether. */
  function InLoop(m: Main, c: Conn): nat {
    Is(m.provisional, c) + Is(m.quicConn, c) + Closed(m.discarded, c)
  }

  function Held(s: Sys, c: Conn): nat {
    Queued(s.directResults, c) + Queued(s.relayResults, c) + InLoop(s.main, c)
  }

  /** The flag that goes with a chosen connection. */
  predicate Chosen(cfg: Config, m: Main, c: Conn) {
    m.quicConn == Some(c) ==> m.initiated == if c.Relayed? then cfg.sending else c.Dialed?
  }

  ghost predicate CountsOk(s: Sys) {
    && |s.dials| == s.cfg.targets * DIALS_PER_TARGET
    && |s.directResults| + DirectActive(s) <= DirectCapacity(s.cfg)
    && (s.phase != Returned ==> |s.relayResults| + Active(s.relays) == if s.main.relayInFlight then 1 else 0)
    && |s.relays| == s.main.relayAttempts
  }

  ghost predicate PhaseOk(s: Sys) {
    match s.phase
    case Waiting =>
      && s.main.quicConn.None? && (s.main.provisional.Some? <==> s.main.provisionalTimer)
      && s.main.relayTimer == s.cfg.relay
    case AwaitingRelay => s.main.quicConn.None? && s.main.provisional.None? && s.main.relayInFlight && s.cancelled
    case Joining => s.main.provisional.None? && s.cancelled
    case Returned => s.main.provisional.None? && AllEnded(s) && s.directResults == [] && s.relayResults == []
  }

  ghost predicate ShapeOk(s: Sys) {
    CountsOk(s) && PhaseOk(s)
  }

  predicate EndedWorker(s: Sys, c: Conn) {
    match c
    case Dialed(i) => i < |s.dials| && s.dials[i] == Ended
    case Accepted => s.accept == Ended
    case Relayed(k) => k < |s.relays| && s.relays[k] == Ended
  }

  /** One connection is in at most one place, and was made at most once, by a worker that then ended. */
  ghost predicate TrackOk(s: Sys, c: Conn) {
    && s.made[c] == Held(s, c) <= 1
    && (s.made[c] == 1 ==> EndedWorker(s, c))
    && (Queued(s.directResults, c) + Is(s.main.provisional, c) > 0 ==> !c.Relayed?)
    && (Queued(s.relayResults, c) > 0 ==> c.Relayed?)
    && Chosen(s.cfg, s.main, c)
  }

  // ----- Preservation: counts and phases -----

  lemma WorkerKeepsShape(s: Sys, a: Action)
    requires ShapeOk(s)
    ensures ShapeOk(WorkerStep(s, a))
  {
    match a
    case WakeDial(i) => if i < |s.dials| { ActiveUpdate(s.dials, i, Running); }
    case CancelDial(i) => if i < |s.dials| { ActiveUpdate(s.dials, i, Ended); }
    case EndDial(i, ok) => if i < |s.dials| { ActiveUpdate(s.dials, i, Ended); }
    case EndRelay(k, ok) => if k < |s.relays| { ActiveUpdate(s.relays, k, Ended); }
    case _ =>
  }

  lemma FireRelayKeepsShape(s: Sys)
    requires ShapeOk(s) && s.phase == Waiting
    ensures ShapeOk(LoopStep(s, FireRelay))
  {
    ActiveAppend(s.relays, Running);
    assert s.relays + [] == s.relays;
  }

  /** A waiting loop that goes on waiting has a grace timer exactly while it has a provisional winner. */
  ghost predicate Undecided(m: Main) {
    m.quicConn.None? && (m.provisional.Some? <==> m.provisionalTimer)
  }

  lemma OnDirectShape(cfg: Config, m: Main, r: Result)
    requires Undecided(m)
    ensures var m' := OnDirect(cfg, m, r);
            && (Undecided(m') || (m'.quicConn.Some? && m'.provisional.None?))
            && m'.relayTimer == m.relayTimer
            && m'.relayInFlight == m.relayInFlight && m'.relayAttempts == m.relayAttempts
  {
  }

  lemma TakeDirectKeepsShape(s: Sys)
    requires ShapeOk(s) && s.phase == Waiting && |s.directResults| > 0
    ensures ShapeOk(LoopStep(s, TakeDirect))
  {
    OnDirectShape(s.cfg, s.main, s.directResults[0]);
    assert Active(s.dials) == Active(LoopStep(s, TakeDirect).dials);
  }

  lemma OnRelayShape(cfg: Config, m: Main, r: Result)
    requires m.quicConn.None?
    ensures var m' := OnRelay(cfg, m, r);
            && !m'.relayInFlight && m'.relayAttempts == m.relayAttempts
            && (if r.Won? then m'.quicConn.Some? && m'.provisional.None? else m' == m.(relayInFlight := false))
  {
  }

  lemma TakeRelayKeepsShape(s: Sys)
    requires ShapeOk(s) && (s.phase == Waiting || s.phase == AwaitingRelay) && |s.relayResults| > 0
    ensures ShapeOk(LoopStep(s, TakeRelay))
  {
    OnRelayShape(s.cfg, s.main, s.relayResults[0]);
  }

  lemma LoopKeepsShape(s: Sys, a: Action)
    requires ShapeOk(s)
    ensures ShapeOk(LoopStep(s, a))
  {
    match a
    case TakeDirect => if s.phase == Waiting && |s.directResults| > 0 { TakeDirectKeepsShape(s); }
    case TakeRelay =>
      if (s.phase == Waiting || s.phase == AwaitingRelay) && |s.relayResults| > 0 {
        TakeRelayKeepsShape(s);
      }
    case FireRelay => if s.phase == Waiting { FireRelayKeepsShape(s); }
    case _ =>
  }

  // ----- Preservation: one connection -----

  /** A connection neither appears nor disappears when one step moves it. */
  lemma Moved(s: Sys, s': Sys, c: Conn)
    requires TrackOk(s, c) && s'.cfg == s.cfg && s'.made == s.made && Held(s', c) == Held(s, c)
    requires EndedWorker(s, c) ==> EndedWorker(s', c)
    requires Queued(s'.directResults, c) + Is(s'.main.provisional, c) > 0 ==>
               Queued(s.directResults, c) + Is(s.main.provisional, c) > 0
    requires Queued(s'.relayResults, c) > 0 ==> Queued(s.relayResults, c) > 0
    requires Chosen(s.cfg, s'.main, c)
    ensures TrackOk(s', c)
  {
  }

  lemma OnDirectMoves(cfg: Config, m: Main, r: Result, c: Conn)
    requires m.quicConn.None? && (r == Won(c) ==> !c.Relayed? && m.provisional != Some(c))
    requires m.provisional == Some(c) ==> !c.Relayed?
    ensures var m' := OnDirect(cfg, m, r);
            && InLoop(m', c) == InLoop(m, c) + (if r == Won(c) then 1 else 0)
            && (Is(m'.provisional, c) > 0 ==> Is(m.provisional, c) > 0 || r == Won(c))
            && Chosen(cfg, m', c)
  {
    if r.Won? {
      ClosedListed(m.discarded, m.provisional, c);
      ClosedListed(m.discarded, Some(r.conn), c);
      assert m.discarded + [] == m.discarded;
    }
  }

  lemma OnRelayMoves(cfg: Config, m: Main, r: Result, c: Conn)
    requires m.quicConn.None? && (r == Won(c) ==> c.Relayed?)
    ensures InLoop(OnRelay(cfg, m, r), c) == InLoop(m, c) + (if r == Won(c) then 1 else 0)
    ensures Is(OnRelay(cfg, m, r).provisional, c) <= Is(m.provisional, c)
    ensures Chosen(cfg, OnRelay(cfg, m, r), c)
    ensures m.provisional.None? ==> InLoop(OnLateRelay(cfg, m, r), c) == InLoop(m, c) + (if r == Won(c) then 1 else 0)
    ensures Chosen(cfg, OnLateRelay(cfg, m, r), c)
  {
    ClosedListed(m.discarded, m.provisional, c);
  }

  lemma QueuedHead(rs: seq<Result>, c: Conn)
    requires |rs| > 0
    ensures Queued(rs, c) == Queued(rs[1..], c) + if rs[0] == Won(c) then 1 else 0
  {
  }

  lemma TakeDirectKeepsTrack(s: Sys, c: Conn)
    requires PhaseOk(s) && TrackOk(s, c) && s.phase == Waiting && |s.directResults| > 0
    ensures TrackOk(LoopStep(s, TakeDirect), c)
  {
    QueuedHead(s.directResults, c);
    OnDirectMoves(s.cfg, s.main, s.directResults[0], c);
    Moved(s, LoopStep(s, TakeDirect), c);
  }

  lemma RelayTaken(s: Sys, c: Conn, m: Main, phase: Phase, cancelled: bool)
    requires TrackOk(s, c) && |s.relayResults| > 0
    requires InLoop(m, c) == InLoop(s.main, c) + (if s.relayResults[0] == Won(c) then 1 else 0)
    requires Is(m.provisional, c) <= Is(s.main.provisional, c) && Chosen(s.cfg, m, c)
    ensures TrackOk(s.(relayResults := s.relayResults[1..], main := m, phase := phase, cancelled := cancelled), c)
  {
    QueuedHead(s.relayResults, c);
    Moved(s, s.(relayResults := s.relayResults[1..], main := m, phase := phase, cancelled := cancelled), c);
  }

  lemma TakeRelayKeepsTrack(s: Sys, c: Conn)
    requires PhaseOk(s) && TrackOk(s, c) && (s.phase == Waiting || s.phase == AwaitingRelay) && |s.relayResults| > 0
    ensures TrackOk(LoopStep(s, TakeRelay), c)
  {
    var m, r, s' := s.main, s.relayResults[0], LoopStep(s, TakeRelay);
    OnRelayMoves(s.cfg, m, r, c);
    var m' := if s.phase == Waiting then OnRelay(s.cfg, m, r) else OnLateRelay(s.cfg, m, r);
    RelayTaken(s, c, m', s'.phase, s'.cancelled);
  }

  lemma FinishCloses(s: Sys, c: Conn)
    ensures Closed(s.main.discarded + (Winners(s.directResults) + Winners(s.relayResults)), c) ==
            Closed(s.main.discarded, c) + Queued(s.directResults, c) + Queued(s.relayResults, c)
  {
    ClosedWinners(s.directResults, c);
    ClosedWinners(s.relayResults, c);
    ClosedConcat(Winners(s.directResults), Winners(s.relayResults), c);
    ClosedConcat(s.main.discarded, Winners(s.directResults) + Winners(s.relayResults), c);
  }

  lemma FinishKeepsTrack(s: Sys, c: Conn)
    requires TrackOk(s, c) && s.phase == Joining && AllEnded(s)
    ensures TrackOk(LoopStep(s, Finish), c)
  {
    FinishCloses(s, c);
    Moved(s, LoopStep(s, Finish), c);
  }

  lemma TimersKeepTrack(s: Sys, a: Action, c: Conn)
    requires PhaseOk(s) && TrackOk(s, c) && (a == Cancel || a == FireProvisional || a == FireRelay || a == SeeDone)
    ensures TrackOk(LoopStep(s, a), c)
  {
    Moved(s, LoopStep(s, a), c);
  }

  lemma LoopKeepsTrack(s: Sys, a: Action, c: Conn)
    requires PhaseOk(s) && TrackOk(s, c)
    ensures TrackOk(LoopStep(s, a), c)
  {
    match a
    case TakeDirect => if s.phase == Waiting && |s.directResults| > 0 { TakeDirectKeepsTrack(s, c); }
    case TakeRelay =>
      if |s.relayResults| > 0 {
        if s.phase == Waiting || s.phase == AwaitingRelay { TakeRelayKeepsTrack(s, c); }
      }
    case Finish => if s.phase == Joining && AllEnded(s) { FinishKeepsTrack(s, c); }
    case Cancel => TimersKeepTrack(s, a, c);
    case FireProvisional => TimersKeepTrack(s, a, c);
    case FireRelay => TimersKeepTrack(s, a, c);
    case SeeDone => TimersKeepTrack(s, a, c);
    case _ =>
  }

  lemma EndDirectKeepsTrack(s: Sys, a: Action, c: Conn)
    requires TrackOk(s, c) && (a.EndDial? || a.EndAccept?)
    ensures TrackOk(WorkerStep(s, a), c)
  {
    QueuedAppend(s.directResults, ResultOf(if a.EndDial? then Dialed(a.dial) else Accepted, a.ok), c);
  }

  lemma EndRelayKeepsTrack(s: Sys, k: nat, ok: bool, c: Conn)
    requires TrackOk(s, c)
    ensures TrackOk(WorkerStep(s, EndRelay(k, ok)), c)
  {
    QueuedAppend(s.relayResults, ResultOf(Relayed(k), ok), c);
  }

  lemma WorkerKeepsTrack(s: Sys, a: Action, c: Conn)
    requires TrackOk(s, c)
    ensures TrackOk(WorkerStep(s, a), c)
  {
    if a.EndDial? || a.EndAccept? {
      EndDirectKeepsTrack(s, a, c);
    } else if a.EndRelay? {
      EndRelayKeepsTrack(s, a.attempt, a.ok, c);
    } else if WorkerStep(s, a) != s {
      Moved(s, WorkerStep(s, a), c);
    }
  }

  lemma {:induction false} FreshActive(ws: seq<Worker>)
    requires forall i :: 0 <= i < |ws| ==> ws[i] != Ended
    ensures Active(ws) == |ws|
  {
    if |ws| > 0 {
      FreshActive(ws[..|ws| - 1]);
    }
  }

  lemma NextKeepsShape(s: Sys, a: Action)
    requires ShapeOk(s)
    ensures ShapeOk(Next(s, a)) && Next(s, a).cfg == s.cfg
  {
    if WorkerAction(a) {
      WorkerKeepsShape(s, a);
    } else {
      LoopKeepsShape(s, a);
    }
  }

  lemma InitShape(cfg: Config)
    ensures ShapeOk(Init(cfg))
  {
    if cfg.targets > 0 || cfg.relay {
      FreshActive(Init(cfg).dials);
    }
  }

  lemma {:induction false} RunKeepsShape(cfg: Config, actions: seq<Action>)
    ensures ShapeOk(Run(cfg, actions)) && Run(cfg, actions).cfg == cfg
  {
    if |actions| > 0 {
      RunKeepsShape(cfg, actions[..|actions| - 1]);
      NextKeepsShape(Run(cfg, actions[..|actions| - 1]), actions[|actions| - 1]);
    } else {
      InitShape(cfg);
    }
  }

  lemma {:induction false} RunKeepsTrack(cfg: Config, actions: seq<Action>, c: Conn)
    ensures TrackOk(Run(cfg, actions), c)
  {
    if |actions| > 0 {
      var s, a := Run(cfg, actions[..|actions| - 1]), actions[|actions| - 1];
      RunKeepsShape(cfg, actions[..|actions| - 1]);
      RunKeepsTrack(cfg, actions[..|actions| - 1], c);
      if WorkerAction(a) {
        WorkerKeepsTrack(s, a, c);
      } else {
        LoopKeepsTrack(s, a, c);
      }
    }
  }

  // ----- Theorems -----

  /**
   * When the race returns, every authenticated connection any worker made is either the selected one
   * or has been discarded, exactly once; and nothing else is selected or discarded.
   */
  lemma RaceConservesConnections(cfg: Config, actions: seq<Action>, c: Conn)
    requires Run(cfg, actions).phase == Returned
    ensures var s := Run(cfg, actions);
            && s.made[c] == Is(s.main.quicConn, c) + Closed(s.main.discarded, c) <= 1
            && (s.made[c] == 1 ==> EndedWorker(s, c))
  {
    RunKeepsShape(cfg, actions);
    RunKeepsTrack(cfg, actions, c);
  }

  /** At every point of a run, a connection that was made is in exactly one place. */
  lemma EveryConnectionIsSomewhere(cfg: Config, actions: seq<Action>, c: Conn)
    ensures Run(cfg, actions).made[c] == Held(Run(cfg, actions), c) <= 1
  {
    RunKeepsTrack(cfg, actions, c);
  }

  /** A worker that has yet to end always finds room for its result, and one relay attempt at most is outstanding. */
  lemma NoWorkerBlocks(cfg: Config, actions: seq<Action>)
    ensures var s := Run(cfg, actions);
            && (DirectActive(s) > 0 ==> |s.directResults| < 3 * cfg.targets + 1 == DirectCapacity(cfg))
            && (Active(s.relays) > 0 ==> |s.relayResults| < 1 == RELAY_CAPACITY)
            && Active(s.relays) + |s.relayResults| <= 1
  {
    RunKeepsShape(cfg, actions);
  }

  /** The flag returned with a connection tells who opened it; a relayed one counts as the sender's. */
  lemma InitiatorIsConsistent(cfg: Config, actions: seq<Action>)
    requires Run(cfg, actions).main.quicConn.Some?
    ensures var m := Run(cfg, actions).main;
            m.initiated <==> match m.quicConn.value
                             case Dialed(_) => true
                             case Accepted => false
                             case Relayed(_) => cfg.sending
  {
    RunKeepsShape(cfg, actions);
    RunKeepsTrack(cfg, actions, Run(cfg, actions).main.quicConn.value);
  }

  /** What one step can do to the loop's variables. */
  predicate MainStep(s: Sys, a: Action, m': Main) {
    var m := s.main;
    match a
    case TakeDirect => m' == m || (|s.directResults| > 0 && m' == OnDirect(s.cfg, m, s.directResults[0]))
    case FireProvisional => m' == m || (m.provisionalTimer && m' == OnProvisionalTimer(m))
    case FireRelay => m' == m || m' == OnRelayTimer(m)
    case TakeRelay =>
      || m' == m
      || (&& |s.relayResults| > 0
          && (m' == OnRelay(s.cfg, m, s.relayResults[0]) || m' == OnLateRelay(s.cfg, m, s.relayResults[0])))
    case SeeDone => m' == m || (m.provisional.Some? && m' == Adopt(m, m.provisional.value))
    case _ => m' == m.(discarded := m'.discarded)
  }

  lemma StepMovesMain(s: Sys, a: Action)
    ensures MainStep(s, a, Next(s, a).main)
  {
  }

  lemma SecondChoiceStays(s: Sys, a: Action, m': Main)
    requires MainStep(s, a, m') && (s.main.provisional.Some? ==> !Preferred(s.cfg, s.main.provisional.value))
    ensures m'.provisional.Some? ==> !Preferred(s.cfg, m'.provisional.value)
  {
  }

  lemma {:induction false} ProvisionalIsSecondChoice(cfg: Config, actions: seq<Action>)
    ensures var m := Run(cfg, actions).main; m.provisional.Some? ==> !Preferred(cfg, m.provisional.value)
  {
    if |actions| > 0 {
      var s, a := Run(cfg, actions[..|actions| - 1]), actions[|actions| - 1];
      ProvisionalIsSecondChoice(cfg, actions[..|actions| - 1]);
      RunKeepsShape(cfg, actions[..|actions| - 1]);
      StepMovesMain(s, a);
      SecondChoiceStays(s, a, Next(s, a).main);
    }
  }

  /** Why a step may choose connection `c`. */
  predicate Justified(cfg: Config, s: Sys, a: Action, c: Conn) {
    if c.Relayed? then a == TakeRelay
    else if c.Dialed? == !cfg.sending then a == TakeDirect && |s.directResults| > 0 && s.directResults[0] == Won(c)
    else (a == FireProvisional || a == SeeDone) && s.main.provisional == Some(c)
  }

  lemma ChosenForAReason(s: Sys, a: Action, m': Main, c: Conn)
    requires MainStep(s, a, m') && TrackOk(s, c) && s.main.quicConn.None? && m'.quicConn == Some(c)
    requires s.main.provisional.Some? ==> !Preferred(s.cfg, s.main.provisional.value)
    ensures Justified(s.cfg, s, a, c)
  {
    if a == TakeRelay && |s.relayResults| > 0 {
      QueuedHead(s.relayResults, c);
    } else if a == TakeDirect && |s.directResults| > 0 {
      QueuedHead(s.directResults, c);
    }
  }

  /**
   * A connection in the preferred direction is chosen as soon as the loop sees it; one in the other
   * direction only after its grace period, or at cancellation; a relayed one only from the relay.
   */
  lemma ChoiceIsJustified(cfg: Config, actions: seq<Action>, a: Action, c: Conn)
    ensures var s, s' := Run(cfg, actions), Next(Run(cfg, actions), a);
            s.main.quicConn.None? && s'.main.quicConn == Some(c) ==> Justified(cfg, s, a, c)
    ensures var s := Run(cfg, actions);
            && s.phase == Waiting && |s.directResults| > 0 && s.directResults[0] == Won(c)
            && (if cfg.sending then c.Accepted? else c.Dialed?) ==>
              Next(s, TakeDirect).main.quicConn == Some(c)
  {
    var s := Run(cfg, actions);
    RunKeepsShape(cfg, actions);
    RunKeepsTrack(cfg, actions, c);
    ProvisionalIsSecondChoice(cfg, actions);
    StepMovesMain(s, a);
    if s.main.quicConn.None? && Next(s, a).main.quicConn == Some(c) {
      ChosenForAReason(s, a, Next(s, a).main, c);
    }
  }

  /** The next direct result of a race that still waits. */
  predicate Offered(cfg: Config, actions: seq<Action>, c: Conn) {
    var s := Run(cfg, actions);
    s.phase == Waiting && |s.directResults| > 0 && s.directResults[0] == Won(c)
  }

  /** A receiver takes its own dial and a sender what it accepted at once, and closes the one it kept in reserve. */
  lemma PreferredIsTaken(cfg: Config, actions: seq<Action>, c: Conn)
    requires Offered(cfg, actions, c) && (if cfg.sending then c.Accepted? else c.Dialed?)
    ensures var s, s' := Run(cfg, actions), Next(Run(cfg, actions), TakeDirect);
            && s'.phase == Joining && s'.cancelled && !s'.main.provisionalTimer
            && s'.main.quicConn == Some(c) && s'.main.initiated == c.Dialed? && s'.main.provisional.None?
            && s'.main.discarded == s.main.discarded + Listed(s.main.provisional)
  {
    var s := Run(cfg, actions);
    RunKeepsShape(cfg, actions);
    RunKeepsTrack(cfg, actions, c);
    assert TrackOk(s, c) && Queued(s.directResults, c) > 0;
  }

  /** The first connection in the other direction is kept in reserve under an armed timer; any further one is closed. */
  lemma OtherIsReserved(cfg: Config, actions: seq<Action>, c: Conn)
    requires Offered(cfg, actions, c) && (if cfg.sending then c.Dialed? else c.Accepted?)
    ensures var s, s' := Run(cfg, actions), Next(Run(cfg, actions), TakeDirect);
            && s'.phase == Waiting && s'.main.quicConn.None? && s'.main.provisionalTimer
            && s'.main.provisional == (if s.main.provisional.None? then Some(c) else s.main.provisional)
            && s'.main.discarded == s.main.discarded + (if s.main.provisional.None? then [] else [c])
  {
    RunKeepsShape(cfg, actions);
  }

  /** A timer that fires takes exactly the connection in reserve. */
  lemma ReserveIsTaken(cfg: Config, actions: seq<Action>)
    requires Run(cfg, actions).phase == Waiting && Run(cfg, actions).main.provisionalTimer
    ensures var s, s' := Run(cfg, actions), Next(Run(cfg, actions), FireProvisional);
            && s.main.provisional.Some? && s'.main.quicConn == s.main.provisional
            && s'.phase == Joining && s'.cancelled && s'.main.discarded == s.main.discarded
            && !s'.main.provisionalTimer && s'.main.provisional.None?
            && s'.main.initiated == s.main.provisional.value.Dialed?
            && (if cfg.sending then s.main.provisional.value.Dialed? else s.main.provisional.value.Accepted?)
  {
    RunKeepsShape(cfg, actions);
    ProvisionalIsSecondChoice(cfg, actions);
    var s := Run(cfg, actions);
    RunKeepsTrack(cfg, actions, s.main.provisional.value);
  }

  /** A relayed connection is taken as soon as it is seen, in place of the one in reserve. */
  lemma RelayIsTaken(cfg: Config, actions: seq<Action>, c: Conn)
    requires var s := Run(cfg, actions);
             s.phase == Waiting && |s.relayResults| > 0 && s.relayResults[0] == Won(c)
    ensures var s, s' := Run(cfg, actions), Next(Run(cfg, actions), TakeRelay);
            && s'.phase == Joining && s'.cancelled
            && s'.main.quicConn == Some(c) && s'.main.initiated == cfg.sending
            && s'.main.provisional.None? && !s'.main.provisionalTimer && !s'.main.relayTimer && !s'.main.relayInFlight
            && s'.main.discarded ==
               s.main.discarded + (if s.main.provisional.Some? then [s.main.provisional.value] else [])
  {
    RunKeepsShape(cfg, actions);
  }

  /** The events of the waiting loop are the steps of the race. */
  lemma EventsAreSteps(s: Sys)
    requires s.phase == Waiting
    ensures |s.directResults| > 0 ==> Next(s, TakeDirect).main == OnEvent(s.cfg, s.main, Direct(s.directResults[0]))
    ensures |s.relayResults| > 0 ==> Next(s, TakeRelay).main == OnEvent(s.cfg, s.main, Relay(s.relayResults[0]))
    ensures Next(s, FireProvisional).main == OnEvent(s.cfg, s.main, GraceOver)
    ensures Next(s, FireRelay).main == OnEvent(s.cfg, s.main, RelayDue)
  {
  }

  /** So is cancellation, with the last wait for a relay attempt in flight. */
  lemma CancelIsSteps(s: Sys, late: Result)
    requires s.phase == Waiting && s.cancelled
    ensures var s' := Next(s, SeeDone);
            && (s'.phase == AwaitingRelay <==> s.main.provisional.None? && s.main.relayInFlight)
            && (s'.phase != AwaitingRelay ==> OnEvent(s.cfg, s.main, Cancelled(late)) == s'.main)
            && (s'.phase == AwaitingRelay ==>
                  && s'.main == s.main
                  && OnEvent(s.cfg, s.main, Cancelled(late)) == OnLateRelay(s.cfg, s.main, late))
  {
  }

  /** The last wait ends with the attempt's result, whatever it is. */
  lemma LateRelayIsTaken(s: Sys)
    requires s.phase == AwaitingRelay && |s.relayResults| > 0
    ensures var s' := Next(s, TakeRelay);
            && s'.phase == Joining && !s'.main.relayInFlight
            && s'.main == OnLateRelay(s.cfg, s.main, s.relayResults[0])
            && (s.relayResults[0].Won? ==> s'.main.quicConn == Some(s.relayResults[0].conn))
  {
  }

  /** A dial that waits ends without a result, and exactly by cancellation; one that runs ends with its result. */
  lemma DialsEndExactly(s: Sys, i: nat)
    requires i < |s.dials|
    ensures Next(s, CancelDial(i)) ==
            if s.dials[i] == Sleeping && s.cancelled then s.(dials := s.dials[i := Ended]) else s
    ensures Next(s, WakeDial(i)) == if s.dials[i] == Sleeping then s.(dials := s.dials[i := Running]) else s
    ensures forall ok ::
              Next(s, EndDial(i, ok)) ==
              if s.dials[i] == Running && |s.directResults| < 3 * s.cfg.targets + 1 then
                s.(dials := s.dials[i := Ended],
                   directResults := s.directResults + [if ok then Won(Dialed(i)) else Lost],
                   made := s.made + if ok then multiset{Dialed(i)} else multiset{})
              else s
  {
  }

  /** With nothing to race the race is over; otherwise all start, and only a receiver's first dial runs at once. */
  lemma StartIsExact(cfg: Config, i: nat)
    ensures Run(cfg, []).phase == (if cfg.targets == 0 && !cfg.relay then Returned else Waiting)
    ensures Run(cfg, []).phase == Waiting ==>
              var s := Run(cfg, []);
              && !s.cancelled && s.accept == Running && |s.dials| == 3 * cfg.targets && s.relays == []
              && (i < |s.dials| ==> s.dials[i] == if i == 0 && !cfg.sending then Running else Sleeping)
    ensures Run(cfg, []).main == Before(cfg) && Before(cfg).initiated == !cfg.sending
  {
    assert Run(cfg, []) == Init(cfg);
  }

  /**
   * Both ends of one connection decide alike on seeing it, whatever each has seen before: if the receiver
   * dialed it and the sender accepted it, both take it at once; the other way round, neither does.
   */
  lemma BothEndsAgree(receiver: Config, atReceiver: seq<Action>, sender: Config, atSender: seq<Action>,
                      dialed: Conn, accepted: Conn, receiverDialed: bool)
    requires !receiver.sending && sender.sending && dialed.Dialed? && accepted.Accepted?
    requires Offered(receiver, atReceiver, if receiverDialed then dialed else accepted)
    requires Offered(sender, atSender, if receiverDialed then accepted else dialed)
    ensures Next(Run(receiver, atReceiver), TakeDirect).main.quicConn ==
            if receiverDialed then Some(dialed) else None
    ensures Next(Run(sender, atSender), TakeDirect).main.quicConn ==
            if receiverDialed then Some(accepted) else None
  {
    if receiverDialed {
      PreferredIsTaken(receiver, atReceiver, dialed);
      PreferredIsTaken(sender, atSender, accepted);
    } else {
      OtherIsReserved(receiver, atReceiver, accepted);
      OtherIsReserved(sender, atSender, dialed);
    }
  }

  /** A waiting loop that saw cancellation with an attempt in flight is sure to be given its result. */
  lemma LateRelayArrives(cfg: Config, actions: seq<Action>)
    requires Run(cfg, actions).phase == AwaitingRelay
    ensures var s := Run(cfg, actions);
            |s.relayResults| > 0 || exists k :: 0 <= k < |s.relays| && s.relays[k] != Ended
  {
    RunKeepsShape(cfg, actions);
    ActiveZero(Run(cfg, actions).relays);
  }

  // ----- Joining -----

  lemma {:induction false} SomeActive(ws: seq<Worker>) returns (i: nat)
    requires Active(ws) > 0
    ensures i < |ws| && ws[i] != Ended
  {
    if ws[|ws| - 1] != Ended {
      i := |ws| - 1;
    } else {
      i := SomeActive(ws[..|ws| - 1]);
    }
  }

  /** Once cancelled, each worker can end, and ending one leaves one fewer. */
  lemma EndOne(s: Sys) returns (a: Action)
    requires ShapeOk(s) && s.phase == Joining && Pending(s) > 0
    ensures ShapeOk(Next(s, a)) && Next(s, a).phase == Joining && Pending(Next(s, a)) < Pending(s)
  {
    if Active(s.dials) > 0 {
      var i := SomeActive(s.dials);
      a := if s.dials[i] == Sleeping then CancelDial(i) else EndDial(i, false);
      ActiveUpdate(s.dials, i, Ended);
    } else if s.accept != Ended {
      a := EndAccept(false);
    } else {
      var k := SomeActive(s.relays);
      a := EndRelay(k, false);
      ActiveUpdate(s.relays, k, Ended);
    }
    WorkerKeepsShape(s, a);
  }

  /** How many steps a worker has left at most: a sleeping one may still wake. */
  function Weight(w: Worker): nat {
    match w
    case Sleeping => 2
    case Running => 1
    case Ended => 0
  }

  function Weights(ws: seq<Worker>): nat {
    if |ws| == 0 then 0 else Weights(ws[..|ws| - 1]) + Weight(ws[|ws| - 1])
  }

  lemma {:induction false} WeightUpdate(ws: seq<Worker>, i: nat, w: Worker)
    requires i < |ws|
    ensures Weights(ws[i := w]) == Weights(ws) - Weight(ws[i]) + Weight(w)
  {
    var n := |ws| - 1;
    if i < n {
      assert ws[i := w][..n] == ws[..n][i := w];
      WeightUpdate(ws[..n], i, w);
    } else {
      assert ws[i := w][..n] == ws[..n];
    }
  }

  function StepsLeft(s: Sys): nat {
    Weights(s.dials) + Weight(s.accept) + Weights(s.relays)
  }

  /** Every worker step that does anything brings the workers closer to their end. */
  lemma WorkerStepsRunOut(s: Sys, a: Action)
    requires WorkerAction(a) && Next(s, a) != s
    ensures Next(s, a).phase == s.phase && StepsLeft(Next(s, a)) < StepsLeft(s)
  {
    match a
    case WakeDial(i) => WeightUpdate(s.dials, i, Running);
    case CancelDial(i) => WeightUpdate(s.dials, i, Ended);
    case EndDial(i, ok) => WeightUpdate(s.dials, i, Ended);
    case EndAccept(ok) =>
    case EndRelay(k, ok) => WeightUpdate(s.relays, k, Ended);
  }

  /** While joining, what is not a worker step is the return itself. */
  lemma OnlyTheReturnIsLeft(s: Sys, a: Action)
    requires ShapeOk(s) && s.phase == Joining && !WorkerAction(a) && Next(s, a) != s
    ensures Next(s, a).phase == Returned
  {
  }

  /** Once returned, nothing moves any more. */
  lemma ReturnedIsFinal(s: Sys, a: Action)
    requires ShapeOk(s) && s.phase == Returned && s.cancelled
    ensures Next(s, a) == s
  {
    match a
    case WakeDial(i) => if i < |s.dials| { ActiveUpdate(s.dials, i, Ended); }
    case CancelDial(i) => if i < |s.dials| { ActiveUpdate(s.dials, i, Ended); }
    case EndDial(i, ok) => if i < |s.dials| { ActiveUpdate(s.dials, i, Ended); }
    case EndRelay(k, ok) => if k < |s.relays| { ActiveUpdate(s.relays, k, Ended); }
    case _ =>
  }

  /** A schedule each of whose steps does something. */
  predicate Effective(s: Sys, schedule: seq<Action>) {
    |schedule| > 0 ==>
      && Effective(s, schedule[..|schedule| - 1])
      && RunFrom(s, schedule) != RunFrom(s, schedule[..|schedule| - 1])
  }

  /** What a schedule has left after it: `Returned` takes the last step. */
  ghost predicate JoinedSoFar(s: Sys, s': Sys, taken: nat) {
    && ShapeOk(s') && s'.cancelled
    && if s'.phase == Returned then taken <= StepsLeft(s) + 1
       else s'.phase == Joining && taken + StepsLeft(s') <= StepsLeft(s)
  }

  lemma JoinStep(s: Sys, mid: Sys, a: Action, taken: nat)
    requires JoinedSoFar(s, mid, taken) && Next(mid, a) != mid
    ensures JoinedSoFar(s, Next(mid, a), taken + 1)
  {
    NextKeepsShape(mid, a);
    if mid.phase == Returned {
      ReturnedIsFinal(mid, a);
    } else if WorkerAction(a) {
      WorkerStepsRunOut(mid, a);
    } else {
      OnlyTheReturnIsLeft(mid, a);
    }
    StaysCancelled(mid, a);
  }

  lemma StaysCancelled(s: Sys, a: Action)
    requires s.cancelled
    ensures Next(s, a).cancelled
  {
  }

  lemma {:induction false} SchedulesRunOut(s: Sys, schedule: seq<Action>)
    requires ShapeOk(s) && s.phase == Joining && Effective(s, schedule)
    ensures JoinedSoFar(s, RunFrom(s, schedule), |schedule|)
  {
    if |schedule| > 0 {
      var front, last := schedule[..|schedule| - 1], schedule[|schedule| - 1];
      SchedulesRunOut(s, front);
      JoinStep(s, RunFrom(s, front), last, |front|);
    }
  }

  lemma JoiningCanMove(s: Sys) returns (a: Action)
    requires ShapeOk(s) && s.phase == Joining
    ensures Next(s, a) != s
  {
    if Pending(s) > 0 {
      a := EndOne(s);
    } else {
      a := Finish;
    }
  }

  /**
   * Joining always ends, under every schedule: no schedule takes more steps than the workers have
   * left and the return itself, and one that stops earlier can be continued until the race returns.
   */
  lemma FinishAlwaysJoins(cfg: Config, actions: seq<Action>, schedule: seq<Action>)
    ensures var s, s' := Run(cfg, actions), RunFrom(Run(cfg, actions), schedule);
            s.phase == Joining && Effective(s, schedule) ==>
              && |schedule| <= StepsLeft(s) + 1
              && (|schedule| == StepsLeft(s) + 1 ==> s'.phase == Returned)
              && (s'.phase == Returned || exists a :: Next(s', a) != s')
  {
    var s, s' := Run(cfg, actions), RunFrom(Run(cfg, actions), schedule);
    if s.phase == Joining && Effective(s, schedule) {
      RunKeepsShape(cfg, actions);
      SchedulesRunOut(s, schedule);
      if s'.phase != Returned {
        var a := JoiningCanMove(s');
      }
    }
  }
}
