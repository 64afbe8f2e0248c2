/**
 * Relay admission and pairing: maps under one lock, shared by handlers that race their timers
 * against partners arriving. Every interleaving of handler steps is a run.
 */
module Relay {
  import opened Common

  const DEFAULT_WAITING: nat := 1024
  const DEFAULT_WAITING_PER_IP: nat := 8
  const DEFAULT_LIVE: nat := 2048
  const DEFAULT_LIVE_PER_IP: nat := 16

  /** The configured limits; one that is not positive stands for its default. */
  datatype Limits = Limits(waiting: int, waitingPerIP: int, live: int, livePerIP: int)

  function Effective(configured: int, fallback: nat): nat {
    if configured > 0 then configured else fallback
  }

  /** A registered peer; `id` is its handler, `token` the decoded proof. */
  datatype Client = Client(id: nat, session: string, role: Role, token: string, ip: string)

  /** The server's shared state; `closed` holds the clients that were told they are paired. */
  datatype Tables = Tables(waiting: map<string, Client>, live: map<string, nat>, liveN: nat, closed: set<nat>)

  datatype Reply = Kept | Paired(a: Client, b: Client) | Mismatch | Full

  // ----- What each locked operation does -----

  function LiveOf(live: map<string, nat>, ip: string): nat {
    if ip in live then live[ip] else 0
  }

  predicate HasRoom(lim: Limits, t: Tables, ip: string) {
    t.liveN < Effective(lim.live, DEFAULT_LIVE) && LiveOf(t.live, ip) < Effective(lim.livePerIP, DEFAULT_LIVE_PER_IP)
  }

  function Admitted(t: Tables, ip: string): Tables {
    t.(live := t.live[ip := LiveOf(t.live, ip) + 1], liveN := t.liveN + 1)
  }

  function Released(t: Tables, ip: string): Tables {
    t.(live := if LiveOf(t.live, ip) > 1 then t.live[ip := t.live[ip] - 1] else t.live - {ip},
       liveN := if t.liveN > 0 then t.liveN - 1 else 0)
  }

  function FromSource(waiting: map<string, Client>, ip: string): set<string> {
    set q | q in waiting && waiting[q].ip == ip
  }

  /** Different roles and the same proof. */
  predicate Matches(other: Client, c: Client) {
    other.role != c.role && other.token == c.token
  }

  function Reg(lim: Limits, t: Tables, c: Client): (Tables, Reply) {
    if c.session in t.waiting then
      var other := t.waiting[c.session];
      if !Matches(other, c) then (t, Mismatch)
      else (t.(waiting := t.waiting - {c.session}, closed := t.closed + {other.id}), Paired(other, c))
    else if || |t.waiting| >= Effective(lim.waiting, DEFAULT_WAITING)
            || |FromSource(t.waiting, c.ip)| >= Effective(lim.waitingPerIP, DEFAULT_WAITING_PER_IP)
    then (t, Full)
    else (t.(waiting := t.waiting[c.session := c]), Kept)
  }

  /** A client may remove only its own entry, not that of a later client of the same session. */
  predicate Owns(t: Tables, c: Client) {
    c.session in t.waiting && t.waiting[c.session].id == c.id
  }

  function Unregistered(t: Tables, c: Client): Tables {
    if Owns(t, c) then t.(waiting := t.waiting - {c.session}) else t
  }

  /** Registering with a session that has an entry: a partner of the other role and with the same proof, or nothing. */
  lemma PairingIsExact(lim: Limits, t: Tables, c: Client)
    requires c.session in t.waiting
    ensures var other := t.waiting[c.session];
            Reg(lim, t, c) ==
            if other.role != c.role && other.token == c.token then
              (t.(waiting := t.waiting - {c.session}, closed := t.closed + {other.id}), Paired(other, c))
            else (t, Mismatch)
  {
  }

  /** Registering with one that has none: kept exactly while both limits have room. */
  lemma KeepingIsExact(lim: Limits, t: Tables, c: Client)
    requires c.session !in t.waiting
    ensures var mine := set q | q in t.waiting && t.waiting[q].ip == c.ip;
            Reg(lim, t, c) ==
            if && |t.waiting| < (if lim.waiting > 0 then lim.waiting else 1024)
               && |mine| < (if lim.waitingPerIP > 0 then lim.waitingPerIP else 8)
            then (t.(waiting := t.waiting[c.session := c]), Kept)
            else (t, Full)
  {
    assert FromSource(t.waiting, c.ip) == set q | q in t.waiting && t.waiting[q].ip == c.ip;
  }

  /** A connection is admitted exactly while both live limits have room, and takes one place in each counter. */
  lemma AdmissionIsExact(lim: Limits, t: Tables, ip: string)
    ensures HasRoom(lim, t, ip) <==>
              && t.liveN < (if lim.live > 0 then lim.live else 2048)
              && (if ip in t.live then t.live[ip] else 0) < (if lim.livePerIP > 0 then lim.livePerIP else 16)
    ensures Admitted(t, ip) ==
            t.(liveN := t.liveN + 1, live := t.live[ip := (if ip in t.live then t.live[ip] else 0) + 1])
  {
  }

  class RelayServer {
    const lim: Limits
    var waiting: map<string, Client>
    var live: map<string, nat>
    var liveN: nat
    var closed: set<nat>

    function View(): Tables
      reads this
    {
      Tables(waiting, live, liveN, closed)
    }

    constructor (lim: Limits)
      ensures this.lim == lim && View() == Empty()
    {
      this.lim := lim;
      waiting, live, liveN, closed := map[], map[], 0, {};
    }

    method AdmitConnection(ip: string) returns (ok: bool)
      modifies this
      ensures ok == HasRoom(lim, old(View()), ip)
      ensures View() == if ok then Admitted(old(View()), ip) else old(View())
    {
      var count := if ip in live then live[ip] else 0;
      if liveN >= Effective(lim.live, DEFAULT_LIVE) || count >= Effective(lim.livePerIP, DEFAULT_LIVE_PER_IP) {
        return false;
      }
      live := live[ip := count + 1];
      liveN := liveN + 1;
      return true;
    }

    method ReleaseConnection(ip: string)
      modifies this
      ensures View() == Released(old(View()), ip)
    {
      if ip in live && live[ip] > 1 {
        live := live[ip := live[ip] - 1];
      } else {
        live := live - {ip};
      }
      if liveN > 0 {
        liveN := liveN - 1;
      }
    }

    /** Counts the waiting peers of one source, in whatever order the map yields them. */
    method WaitingForSource(ip: string) returns (count: nat)
      ensures count == |FromSource(waiting, ip)|
    {
      count := 0;
      var todo, done := waiting.Keys, {};
      while todo != {}
        invariant todo <= waiting.Keys && done == FromSource(waiting, ip) - todo && count == |done|
        decreases |todo|
      {
        var q :| q in todo;
        if waiting[q].ip == ip {
          count, done := count + 1, done + {q};
        }
        todo := todo - {q};
      }
      assert done == FromSource(waiting, ip);
    }

    method Register(c: Client) returns (reply: Reply)
      modifies this
      ensures (View(), reply) == Reg(lim, old(View()), c)
    {
      if c.session in waiting {
        var other := waiting[c.session];
        if other.role == c.role || other.token != c.token {
          return Mismatch;
        }
        waiting := waiting - {c.session};
        closed := closed + {other.id};
        return Paired(other, c);
      }
      var mine := WaitingForSource(c.ip);
      if || |waiting| >= Effective(lim.waiting, DEFAULT_WAITING)
         || mine >= Effective(lim.waitingPerIP, DEFAULT_WAITING_PER_IP)
      {
        return Full;
      }
      waiting := waiting[c.session := c];
      return Kept;
    }

    method UnregisterWaiting(c: Client) returns (removed: bool)
      modifies this
      ensures removed == Owns(old(View()), c) && View() == Unregistered(old(View()), c)
    {
      if c.session in waiting && waiting[c.session].id == c.id {
        waiting := waiting - {c.session};
        return true;
      }
      return false;
    }
  }

  function Empty(): Tables {
    Tables(map[], map[], 0, {})
  }

  // ----- Handlers -----

  /**
   * Where a handler is. A waiter may find its timer fired (`Expired`), its connection gone (`Left`)
   * or itself paired (`Held`, which remembers whether the timer had fired first).
   */
  datatype Stage =
    | Arrived | Reading | Ready(client: Client) | Waiting(client: Client) | Expired(client: Client)
    | Left(client: Client) | Held(client: Client, expired: bool) | Relaying(a: Client, b: Client) | Closing | Finished

  datatype Handler = Handler(ip: string, stage: Stage)

  datatype Sys = Sys(tables: Tables, handlers: seq<Handler>, pairs: seq<(Client, Client)>)

  datatype Action =
    | Arrive(ip: string) | Admit(i: nat) | Fail(i: nat) | Hello(i: nat, session: string, role: Role, token: string)
    | Register(i: nat) | Expire(i: nat) | Gone(i: nat) | Notice(i: nat) | Unregister(i: nat)
    | EndRelay(i: nat) | Release(i: nat)

  function At(s: Sys, i: nat, stage: Stage): Sys
    requires i < |s.handlers|
  {
    s.(handlers := s.handlers[i := s.handlers[i].(stage := stage)])
  }

  function DoRegister(lim: Limits, s: Sys, i: nat): Sys
    requires i < |s.handlers| && s.handlers[i].stage.Ready?
  {
    var c := s.handlers[i].stage.client;
    var (t, reply) := Reg(lim, s.tables, c);
    match reply
    case Kept => At(s, i, Waiting(c)).(tables := t)
    case Paired(a, b) => At(s, i, Relaying(a, b)).(tables := t, pairs := s.pairs + [(a, b)])
    case _ => At(s, i, Closing)
  }

  function Next(lim: Limits, s: Sys, a: Action): Sys {
    if a.Arrive? then s.(handlers := s.handlers + [Handler(a.ip, Arrived)])
    else if a.i >= |s.handlers| then s
    else
      var h := s.handlers[a.i];
      match (h.stage, a)
      case (Arrived, Admit(i)) =>
        if HasRoom(lim, s.tables, h.ip) then At(s, i, Reading).(tables := Admitted(s.tables, h.ip))
        else At(s, i, Finished)
      case (Reading, Fail(i)) => At(s, i, Closing)
      case (Reading, Hello(i, session, role, token)) => At(s, i, Ready(Client(i, session, role, token, h.ip)))
      case (Ready(_), Register(i)) => DoRegister(lim, s, i)
      case (Waiting(c), Expire(i)) => At(s, i, Expired(c))
      case (Waiting(c), Gone(i)) => At(s, i, Left(c))
      case (Waiting(c), Notice(i)) => if i in s.tables.closed then At(s, i, Held(c, false)) else s
      case (Expired(c), Unregister(i)) =>
        At(s, i, if Owns(s.tables, c) then Closing else Held(c, true)).(tables := Unregistered(s.tables, c))
      case (Left(c), Unregister(i)) => At(s, i, Closing).(tables := Unregistered(s.tables, c))
      case (Held(c, expired), Gone(i)) => At(s, i, if expired then Closing else Left(c))
      case (Relaying(_, _), EndRelay(i)) => At(s, i, Closing)
      case (Closing, Release(i)) => At(s, i, Finished).(tables := Released(s.tables, h.ip))
      case _ => s
  }

  function Run(lim: Limits, actions: seq<Action>): Sys {
    if |actions| == 0 then Sys(Empty(), [], [])
    else Next(lim, Run(lim, actions[..|actions| - 1]), actions[|actions| - 1])
  }

  // ----- Counting -----

  /** Handlers that hold admission capacity. */
  predicate IsLive(h: Handler) {
    !h.stage.Arrived? && !h.stage.Finished?
  }

  function LiveFrom(hs: seq<Handler>, ip: string): nat {
    if |hs| == 0 then 0
    else LiveFrom(hs[..|hs| - 1], ip) + (if IsLive(hs[|hs| - 1]) && hs[|hs| - 1].ip == ip then 1 else 0)
  }

  function LiveAll(hs: seq<Handler>): nat {
    if |hs| == 0 then 0 else LiveAll(hs[..|hs| - 1]) + (if IsLive(hs[|hs| - 1]) then 1 else 0)
  }

  lemma {:induction false} LiveUpdate(hs: seq<Handler>, i: nat, h: Handler, ip: string)
    requires i < |hs| && h.ip == hs[i].ip
    ensures LiveAll(hs[i := h]) == LiveAll(hs) - (if IsLive(hs[i]) then 1 else 0) + (if IsLive(h) then 1 else 0)
    ensures LiveFrom(hs[i := h], ip) ==
            LiveFrom(hs, ip) - (if IsLive(hs[i]) && h.ip == ip then 1 else 0)
            + (if IsLive(h) && h.ip == ip then 1 else 0)
  {
    var n := |hs| - 1;
    if i < n {
      assert hs[i := h][..n] == hs[..n][i := h];
      LiveUpdate(hs[..n], i, h, ip);
    } else {
      assert hs[i := h][..n] == hs[..n];
    }
  }

  lemma {:induction false} SomeLive(hs: seq<Handler>, i: nat)
    requires i < |hs| && IsLive(hs[i])
    ensures LiveAll(hs) > 0 && LiveFrom(hs, hs[i].ip) > 0
  {
    if i < |hs| - 1 {
      SomeLive(hs[..|hs| - 1], i);
    }
  }

  ghost function Pick(m: map<string, nat>): (k: string)
    requires |m| > 0
    ensures k in m
  {
    var k :| k in m;
    k
  }

  /** The sum of the counters, in whatever order they are added. */
  ghost function Sum(m: map<string, nat>): nat {
    if |m| == 0 then 0 else m[Pick(m)] + Sum(m - {Pick(m)})
  }

  lemma {:induction false} SumWithout(m: map<string, nat>, k: string)
    requires k in m
    ensures Sum(m) == m[k] + Sum(m - {k})
    decreases |m|
  {
    var j := Pick(m);
    if j != k {
      OneFewer(m, j);
      OneFewer(m, k);
      assert Sum(m - {j}) == m[k] + Sum((m - {j}) - {k}) by {
        SumWithout(m - {j}, k);
      }
      assert Sum(m - {k}) == m[j] + Sum((m - {k}) - {j}) by {
        SumWithout(m - {k}, j);
      }
      RemoveTwice(m, j, k);
    }
  }

  lemma RemoveTwice(m: map<string, nat>, j: string, k: string)
    ensures (m - {j}) - {k} == (m - {k}) - {j}
  {
  }

  lemma OneFewer(m: map<string, nat>, k: string)
    requires k in m
    ensures |m - {k}| == |m| - 1
  {
    assert (m - {k}).Keys == m.Keys - {k};
  }

  lemma SumDrop(m: map<string, nat>, k: string)
    ensures Sum(m - {k}) == Sum(m) - LiveOf(m, k)
  {
    if k in m {
      SumWithout(m, k);
    } else {
      assert m - {k} == m;
    }
  }

  lemma SumPut(m: map<string, nat>, k: string, v: nat)
    ensures Sum(m[k := v]) == Sum(m) - LiveOf(m, k) + v
  {
    SumWithout(m[k := v], k);
    assert m[k := v] - {k} == m - {k};
    SumDrop(m, k);
  }

  predicate InPair(p: (Client, Client), i: nat) {
    p.0.id == i || p.1.id == i
  }

  function PairsOf(pairs: seq<(Client, Client)>, i: nat): nat {
    if |pairs| == 0 then 0 else PairsOf(pairs[..|pairs| - 1], i) + (if InPair(pairs[|pairs| - 1], i) then 1 else 0)
  }

  // ----- Invariant -----

  /** The counters say exactly who holds capacity, and stay within their limits. */
  ghost predicate LiveInv(lim: Limits, live: map<string, nat>, liveN: nat, hs: seq<Handler>) {
    TotalLive(lim, live, liveN, hs) && forall ip :: SourceLive(lim, live, hs, ip)
  }

  ghost predicate TotalLive(lim: Limits, live: map<string, nat>, liveN: nat, hs: seq<Handler>) {
    liveN == LiveAll(hs) == Sum(live) <= Effective(lim.live, DEFAULT_LIVE)
  }

  ghost predicate SourceLive(lim: Limits, live: map<string, nat>, hs: seq<Handler>, ip: string) {
    && LiveOf(live, ip) == LiveFrom(hs, ip) <= Effective(lim.livePerIP, DEFAULT_LIVE_PER_IP)
    && (ip in live ==> live[ip] > 0)
  }

  ghost predicate RoomInv(lim: Limits, waiting: map<string, Client>) {
    && |waiting| <= Effective(lim.waiting, DEFAULT_WAITING)
    && forall ip :: SourceWaits(lim, waiting, ip)
  }

  ghost predicate SourceWaits(lim: Limits, waiting: map<string, Client>, ip: string) {
    |FromSource(waiting, ip)| <= Effective(lim.waitingPerIP, DEFAULT_WAITING_PER_IP)
  }

  /** A handler whose client may still be found in the waiting map. */
  predicate MayWait(stage: Stage) {
    stage.Waiting? || stage.Expired? || stage.Left?
  }

  /** Every entry belongs to a handler that is still there to remove it. */
  ghost predicate EntryOk(s: Sys, q: string) {
    q in s.tables.waiting ==>
      var c := s.tables.waiting[q];
      && c.session == q && c.id < |s.handlers| && c.id !in s.tables.closed
      && MayWait(s.handlers[c.id].stage) && s.handlers[c.id].stage.client == c
  }

  ghost predicate HandlerOk(s: Sys, i: nat) {
    i < |s.handlers| ==>
      var h := s.handlers[i];
      && (h.stage.Ready? || MayWait(h.stage) || h.stage.Held? ==> h.stage.client.id == i && h.stage.client.ip == h.ip)
      && (MayWait(h.stage) ==> i in s.tables.closed || Owns(s.tables, h.stage.client))
      && (h.stage.Held? ==> i in s.tables.closed)
  }

  /** A client that nobody was paired with yet. */
  predicate Unpaired(s: Sys, i: nat) {
    || i >= |s.handlers|
    || s.handlers[i].stage.Arrived? || s.handlers[i].stage.Reading? || s.handlers[i].stage.Ready?
    || (MayWait(s.handlers[i].stage) && i !in s.tables.closed)
  }

  ghost predicate PairsOk(s: Sys, i: nat) {
    && PairsOf(s.pairs, i) <= 1
    && (Unpaired(s, i) ==> PairsOf(s.pairs, i) == 0 && i !in s.tables.closed)
    && (i in s.tables.closed ==> PairsOf(s.pairs, i) == 1)
  }

  ghost predicate Fair(p: (Client, Client)) {
    p.0.id != p.1.id && p.0.session == p.1.session && p.0.token == p.1.token && p.0.role != p.1.role
  }

  ghost predicate OwnerInv(s: Sys) {
    && (forall k :: 0 <= k < |s.pairs| ==> Fair(s.pairs[k]))
    && (forall q :: EntryOk(s, q))
    && (forall i :: HandlerOk(s, i) && PairsOk(s, i))
  }

  // ----- Preservation: admission -----

  lemma LiveSame(lim: Limits, live: map<string, nat>, liveN: nat, hs: seq<Handler>, i: nat, h: Handler)
    requires LiveInv(lim, live, liveN, hs) && i < |hs| && h.ip == hs[i].ip && IsLive(h) == IsLive(hs[i])
    ensures LiveInv(lim, live, liveN, hs[i := h])
  {
    var hs' := hs[i := h];
    LiveUpdate(hs, i, h, h.ip);
    forall ip
      ensures SourceLive(lim, live, hs', ip)
    {
      assert SourceLive(lim, live, hs, ip);
      LiveUpdate(hs, i, h, ip);
    }
  }

  lemma SourceAdmit(lim: Limits, t: Tables, hs: seq<Handler>, i: nat, h: Handler, ip: string)
    requires SourceLive(lim, t.live, hs, ip) && i < |hs| && h.ip == hs[i].ip && IsLive(h) && !IsLive(hs[i])
    requires HasRoom(lim, t, h.ip)
    ensures SourceLive(lim, Admitted(t, h.ip).live, hs[i := h], ip)
  {
    LiveUpdate(hs, i, h, ip);
  }

  lemma TotalAdmit(lim: Limits, t: Tables, hs: seq<Handler>, i: nat, h: Handler)
    requires TotalLive(lim, t.live, t.liveN, hs) && i < |hs| && h.ip == hs[i].ip && IsLive(h) && !IsLive(hs[i])
    requires HasRoom(lim, t, h.ip)
    ensures TotalLive(lim, Admitted(t, h.ip).live, Admitted(t, h.ip).liveN, hs[i := h])
  {
    LiveUpdate(hs, i, h, h.ip);
    SumPut(t.live, h.ip, LiveOf(t.live, h.ip) + 1);
  }

  lemma LiveAdmit(lim: Limits, t: Tables, hs: seq<Handler>, i: nat, h: Handler)
    requires LiveInv(lim, t.live, t.liveN, hs) && i < |hs| && h.ip == hs[i].ip && IsLive(h) && !IsLive(hs[i])
    requires HasRoom(lim, t, h.ip)
    ensures LiveInv(lim, Admitted(t, h.ip).live, Admitted(t, h.ip).liveN, hs[i := h])
  {
    var t', hs' := Admitted(t, h.ip), hs[i := h];
    TotalAdmit(lim, t, hs, i, h);
    forall ip
      ensures SourceLive(lim, t'.live, hs', ip)
    {
      assert SourceLive(lim, t.live, hs, ip);
      SourceAdmit(lim, t, hs, i, h, ip);
    }
  }

  lemma LiveRelease(lim: Limits, t: Tables, hs: seq<Handler>, i: nat, h: Handler)
    requires LiveInv(lim, t.live, t.liveN, hs) && i < |hs| && h.ip == hs[i].ip && !IsLive(h) && IsLive(hs[i])
    ensures LiveInv(lim, Released(t, h.ip).live, Released(t, h.ip).liveN, hs[i := h])
  {
    var t', hs' := Released(t, h.ip), hs[i := h];
    SomeLive(hs, i);
    assert SourceLive(lim, t.live, hs, h.ip);
    LiveUpdate(hs, i, h, h.ip);
    SumPut(t.live, h.ip, t.live[h.ip] - 1);
    SumDrop(t.live, h.ip);
    forall ip
      ensures SourceLive(lim, t'.live, hs', ip)
    {
      assert SourceLive(lim, t.live, hs, ip);
      LiveUpdate(hs, i, h, ip);
    }
  }

  lemma LiveArrive(lim: Limits, live: map<string, nat>, liveN: nat, hs: seq<Handler>, h: Handler)
    requires LiveInv(lim, live, liveN, hs) && !IsLive(h)
    ensures LiveInv(lim, live, liveN, hs + [h])
  {
    var hs' := hs + [h];
    assert hs'[..|hs|] == hs;
    forall ip
      ensures SourceLive(lim, live, hs', ip)
    {
      assert SourceLive(lim, live, hs, ip);
    }
  }

  /** What one step does to the handlers: it appends one or moves one on. */
  lemma StepShape(lim: Limits, s: Sys, a: Action)
    ensures var s' := Next(lim, s, a);
            && (a.Arrive? ==> s' == s.(handlers := s.handlers + [Handler(a.ip, Arrived)]))
            && (!a.Arrive? && s' != s ==>
                  && a.i < |s.handlers|
                  && s'.handlers == s.handlers[a.i := Handler(s.handlers[a.i].ip, s'.handlers[a.i].stage)])
  {
  }

  lemma NextKeepsLive(lim: Limits, s: Sys, a: Action)
    requires LiveInv(lim, s.tables.live, s.tables.liveN, s.handlers)
    ensures var s' := Next(lim, s, a); LiveInv(lim, s'.tables.live, s'.tables.liveN, s'.handlers)
  {
    var s' := Next(lim, s, a);
    StepShape(lim, s, a);
    if a.Arrive? {
      LiveArrive(lim, s.tables.live, s.tables.liveN, s.handlers, Handler(a.ip, Arrived));
    } else if s' != s {
      var h := s'.handlers[a.i];
      LiveTables(lim, s, a);
      if IsLive(h) == IsLive(s.handlers[a.i]) {
        LiveSame(lim, s.tables.live, s.tables.liveN, s.handlers, a.i, h);
      } else if IsLive(h) {
        LiveAdmit(lim, s.tables, s.handlers, a.i, h);
      } else {
        LiveRelease(lim, s.tables, s.handlers, a.i, h);
      }
    }
  }

  /** The counters change exactly when a handler gains or gives up its capacity. */
  lemma LiveTables(lim: Limits, s: Sys, a: Action)
    requires !a.Arrive? && Next(lim, s, a) != s
    ensures var t, t' := s.tables, Next(lim, s, a).tables;
            var h, h' := s.handlers[a.i], Next(lim, s, a).handlers[a.i];
            && (IsLive(h) == IsLive(h') ==> t'.live == t.live && t'.liveN == t.liveN)
            && (!IsLive(h) && IsLive(h') ==> HasRoom(lim, t, h.ip) && t' == Admitted(t, h.ip))
            && (IsLive(h) && !IsLive(h') ==> t' == Released(t, h.ip))
  {
  }

  // ----- Preservation: the waiting map -----

  lemma FromSourceAdd(waiting: map<string, Client>, c: Client, ip: string)
    requires c.session !in waiting
    ensures |FromSource(waiting[c.session := c], ip)| == |FromSource(waiting, ip)| + if c.ip == ip then 1 else 0
  {
    assert FromSource(waiting[c.session := c], ip) == FromSource(waiting, ip) + if c.ip == ip then {c.session} else {};
  }

  lemma FromSourceRemove(waiting: map<string, Client>, q: string, ip: string)
    ensures |FromSource(waiting - {q}, ip)| <= |FromSource(waiting, ip)|
  {
    assert FromSource(waiting - {q}, ip) == FromSource(waiting, ip) - {q};
  }

  lemma RoomRemove(lim: Limits, waiting: map<string, Client>, q: string)
    requires RoomInv(lim, waiting)
    ensures RoomInv(lim, waiting - {q})
  {
    var waiting' := waiting - {q};
    assert waiting'.Keys == waiting.Keys - {q};
    forall ip
      ensures SourceWaits(lim, waiting', ip)
    {
      assert SourceWaits(lim, waiting, ip);
      FromSourceRemove(waiting, q, ip);
    }
  }

  lemma RegKeepsRoom(lim: Limits, t: Tables, c: Client)
    requires RoomInv(lim, t.waiting)
    ensures RoomInv(lim, Reg(lim, t, c).0.waiting)
  {
    if c.session in t.waiting {
      RoomRemove(lim, t.waiting, c.session);
    } else if Reg(lim, t, c).1.Kept? {
      var waiting' := t.waiting[c.session := c];
      forall ip
        ensures SourceWaits(lim, waiting', ip)
      {
        assert SourceWaits(lim, t.waiting, ip);
        FromSourceAdd(t.waiting, c, ip);
      }
    }
  }

  lemma WaitingTable(lim: Limits, s: Sys, a: Action)
    ensures var waiting' := Next(lim, s, a).tables.waiting;
            if a.Register? && a.i < |s.handlers| && s.handlers[a.i].stage.Ready? then
              waiting' == Reg(lim, s.tables, s.handlers[a.i].stage.client).0.waiting
            else if a.Unregister? && a.i < |s.handlers| && MayWait(s.handlers[a.i].stage) then
              waiting' == s.tables.waiting || waiting' == s.tables.waiting - {s.handlers[a.i].stage.client.session}
            else waiting' == s.tables.waiting
  {
  }

  lemma NextKeepsRoom(lim: Limits, s: Sys, a: Action)
    requires RoomInv(lim, s.tables.waiting)
    ensures RoomInv(lim, Next(lim, s, a).tables.waiting)
  {
    WaitingTable(lim, s, a);
    if a.Register? && a.i < |s.handlers| && s.handlers[a.i].stage.Ready? {
      RegKeepsRoom(lim, s.tables, s.handlers[a.i].stage.client);
    } else if a.Unregister? && a.i < |s.handlers| && MayWait(s.handlers[a.i].stage) {
      RoomRemove(lim, s.tables.waiting, s.handlers[a.i].stage.client.session);
    }
  }

  // ----- Preservation: who owns what -----

  /** A step that moves one handler and touches neither the waiting map nor the pairs. */
  ghost predicate StageStep(s: Sys, i: nat, stage: Stage) {
    && i < |s.handlers|
    && var was := s.handlers[i].stage;
       && (MayWait(was) && i !in s.tables.closed ==> MayWait(stage) && stage.client == was.client)
       && (stage.Ready? || MayWait(stage) || stage.Held? ==>
             stage.client.id == i && stage.client.ip == s.handlers[i].ip)
       && (MayWait(stage) ==> i in s.tables.closed || Owns(s.tables, stage.client))
       && (stage.Held? ==> i in s.tables.closed)
       && (Unpaired(At(s, i, stage), i) ==> Unpaired(s, i))
  }

  lemma StageKeepsOwners(s: Sys, i: nat, stage: Stage, s': Sys)
    requires OwnerInv(s) && StageStep(s, i, stage)
    requires s' == At(s, i, stage).(tables := s'.tables)
    requires s'.tables.waiting == s.tables.waiting && s'.tables.closed == s.tables.closed
    ensures OwnerInv(s')
  {
    forall q
      ensures EntryOk(s', q)
    {
      assert EntryOk(s, q);
    }
    forall j: nat
      ensures HandlerOk(s', j) && PairsOk(s', j)
    {
      assert HandlerOk(s, j) && PairsOk(s, j);
    }
  }

  lemma ArriveKeepsOwners(s: Sys, h: Handler)
    requires OwnerInv(s) && h.stage.Arrived?
    ensures OwnerInv(s.(handlers := s.handlers + [h]))
  {
    var s' := s.(handlers := s.handlers + [h]);
    forall q
      ensures EntryOk(s', q)
    {
      assert EntryOk(s, q);
    }
    forall j: nat
      ensures HandlerOk(s', j) && PairsOk(s', j)
    {
      assert HandlerOk(s, j) && PairsOk(s, j);
    }
  }

  lemma KeptKeepsOwners(s: Sys, i: nat, c: Client, s': Sys)
    requires OwnerInv(s) && i < |s.handlers| && s.handlers[i].stage == Ready(c) && c.session !in s.tables.waiting
    requires s' == At(s, i, Waiting(c)).(tables := s.tables.(waiting := s.tables.waiting[c.session := c]))
    ensures OwnerInv(s')
  {
    assert HandlerOk(s, i) && PairsOk(s, i);
    forall q
      ensures EntryOk(s', q)
    {
      assert EntryOk(s, q);
    }
    forall j: nat
      ensures HandlerOk(s', j) && PairsOk(s', j)
    {
      assert HandlerOk(s, j) && PairsOk(s, j);
    }
  }

  /** Taking the owner's entry away leaves every other entry where it is. */
  lemma OthersKeepEntries(s: Sys, c: Client, j: nat)
    requires EntryOk(s, c.session) && Owns(s.tables, c) && j != c.id
    requires HandlerOk(s, j) && j < |s.handlers| && MayWait(s.handlers[j].stage) && j !in s.tables.closed
    ensures Owns(s.tables.(waiting := s.tables.waiting - {c.session}), s.handlers[j].stage.client)
  {
  }

  lemma PairedKeepsOwners(s: Sys, i: nat, a: Client, b: Client, s': Sys)
    requires OwnerInv(s) && i < |s.handlers| && s.handlers[i].stage == Ready(b)
    requires b.session in s.tables.waiting && a == s.tables.waiting[b.session] && Matches(a, b)
    requires s' == At(s, i, Relaying(a, b)).(pairs := s.pairs + [(a, b)],
                     tables := s.tables.(waiting := s.tables.waiting - {b.session}, closed := s.tables.closed + {a.id}))
    ensures OwnerInv(s')
  {
    assert HandlerOk(s, i) && PairsOk(s, i) && EntryOk(s, b.session) && PairsOk(s, a.id) && HandlerOk(s, a.id);
    assert s'.pairs[..|s.pairs|] == s.pairs;
    forall q
      ensures EntryOk(s', q)
    {
      assert EntryOk(s, q);
    }
    forall j: nat
      ensures HandlerOk(s', j) && PairsOk(s', j)
    {
      assert HandlerOk(s, j) && PairsOk(s, j);
      if j != a.id && j < |s.handlers| && MayWait(s.handlers[j].stage) && j !in s.tables.closed {
        OthersKeepEntries(s, a, j);
      }
    }
  }

  lemma RemoveKeepsOwners(s: Sys, i: nat, c: Client, s': Sys)
    requires OwnerInv(s) && i < |s.handlers| && MayWait(s.handlers[i].stage)
    requires s.handlers[i].stage.client == c && Owns(s.tables, c)
    requires s' == At(s, i, Closing).(tables := s.tables.(waiting := s.tables.waiting - {c.session}))
    ensures OwnerInv(s')
  {
    assert HandlerOk(s, i) && EntryOk(s, c.session);
    forall q
      ensures EntryOk(s', q)
    {
      assert EntryOk(s, q);
    }
    forall j: nat
      ensures HandlerOk(s', j) && PairsOk(s', j)
    {
      assert HandlerOk(s, j) && PairsOk(s, j);
      if j != i && j < |s.handlers| && MayWait(s.handlers[j].stage) && j !in s.tables.closed {
        OthersKeepEntries(s, c, j);
      }
    }
  }

  lemma RegisterKeepsOwners(lim: Limits, s: Sys, i: nat)
    requires OwnerInv(s) && i < |s.handlers| && s.handlers[i].stage.Ready?
    ensures OwnerInv(DoRegister(lim, s, i))
  {
    var c, s' := s.handlers[i].stage.client, DoRegister(lim, s, i);
    match Reg(lim, s.tables, c).1
    case Kept => KeptKeepsOwners(s, i, c, s');
    case Paired(a, b) => PairedKeepsOwners(s, i, a, b, s');
    case _ => StageKeepsOwners(s, i, Closing, s');
  }

  lemma UnregisterKeepsOwners(lim: Limits, s: Sys, i: nat)
    requires OwnerInv(s)
    ensures OwnerInv(Next(lim, s, Unregister(i)))
  {
    var s' := Next(lim, s, Unregister(i));
    if i < |s.handlers| && (s.handlers[i].stage.Expired? || s.handlers[i].stage.Left?) {
      assert HandlerOk(s, i) && PairsOk(s, i);
      if Owns(s.tables, s.handlers[i].stage.client) {
        RemoveKeepsOwners(s, i, s.handlers[i].stage.client, s');
      } else {
        StageKeepsOwners(s, i, s'.handlers[i].stage, s');
      }
    }
  }

  lemma NextKeepsOwners(lim: Limits, s: Sys, a: Action)
    requires OwnerInv(s)
    ensures OwnerInv(Next(lim, s, a))
  {
    var s' := Next(lim, s, a);
    if a.Arrive? {
      ArriveKeepsOwners(s, Handler(a.ip, Arrived));
    } else if a.Unregister? {
      UnregisterKeepsOwners(lim, s, a.i);
    } else if a.i < |s.handlers| && s' != s {
      assert HandlerOk(s, a.i) && PairsOk(s, a.i);
      if a.Register? {
        RegisterKeepsOwners(lim, s, a.i);
      } else {
        StageKeepsOwners(s, a.i, s'.handlers[a.i].stage, s');
      }
    }
  }

  ghost predicate Inv(lim: Limits, s: Sys) {
    LiveInv(lim, s.tables.live, s.tables.liveN, s.handlers) && RoomInv(lim, s.tables.waiting) && OwnerInv(s)
  }

  lemma NextKeepsInv(lim: Limits, s: Sys, a: Action)
    requires Inv(lim, s)
    ensures Inv(lim, Next(lim, s, a))
  {
    NextKeepsLive(lim, s, a);
    NextKeepsRoom(lim, s, a);
    NextKeepsOwners(lim, s, a);
  }

  lemma {:induction false} RunKeepsInv(lim: Limits, actions: seq<Action>)
    ensures Inv(lim, Run(lim, actions))
  {
    if |actions| > 0 {
      RunKeepsInv(lim, actions[..|actions| - 1]);
      NextKeepsInv(lim, Run(lim, actions[..|actions| - 1]), actions[|actions| - 1]);
    }
  }

  // ----- Theorems -----

  /** Admission is exact: the counters are the numbers of handlers that hold capacity, and no limit is passed. */
  lemma CountersAreExact(lim: Limits, actions: seq<Action>, ip: string)
    ensures var s := Run(lim, actions);
            && s.tables.liveN == Sum(s.tables.live) == LiveAll(s.handlers) <= Effective(lim.live, DEFAULT_LIVE)
            && LiveOf(s.tables.live, ip) == LiveFrom(s.handlers, ip) <= Effective(lim.livePerIP, DEFAULT_LIVE_PER_IP)
            && |s.tables.waiting| <= Effective(lim.waiting, DEFAULT_WAITING)
            && |FromSource(s.tables.waiting, ip)| <= Effective(lim.waitingPerIP, DEFAULT_WAITING_PER_IP)
  {
    RunKeepsInv(lim, actions);
    var s := Run(lim, actions);
    assert SourceLive(lim, s.tables.live, s.handlers, ip) && SourceWaits(lim, s.tables.waiting, ip);
  }

  /** Pairs are two different clients of one session, with the same proof and opposite roles. */
  lemma PairsAreFair(lim: Limits, actions: seq<Action>, k: nat)
    requires k < |Run(lim, actions).pairs|
    ensures Fair(Run(lim, actions).pairs[k])
  {
    RunKeepsInv(lim, actions);
  }

  lemma {:induction false} TwoPairs(pairs: seq<(Client, Client)>, k: nat, j: nat, i: nat)
    requires k < j < |pairs| && InPair(pairs[k], i) && InPair(pairs[j], i)
    ensures PairsOf(pairs, i) >= 2
  {
    var n := |pairs| - 1;
    if j < n {
      TwoPairs(pairs[..n], k, j, i);
    } else {
      OnePair(pairs[..n], k, i);
    }
  }

  lemma {:induction false} OnePair(pairs: seq<(Client, Client)>, k: nat, i: nat)
    requires k < |pairs| && InPair(pairs[k], i)
    ensures PairsOf(pairs, i) >= 1
  {
    if k < |pairs| - 1 {
      OnePair(pairs[..|pairs| - 1], k, i);
    }
  }

  lemma NoClientInTwoPairs(lim: Limits, actions: seq<Action>, k: nat, j: nat, i: nat)
    requires k < j < |Run(lim, actions).pairs|
    ensures var pairs := Run(lim, actions).pairs; !(InPair(pairs[k], i) && InPair(pairs[j], i))
  {
    RunKeepsInv(lim, actions);
    var s := Run(lim, actions);
    assert PairsOk(s, i);
    if InPair(s.pairs[k], i) && InPair(s.pairs[j], i) {
      TwoPairs(s.pairs, k, j, i);
    }
  }

  /** A new connection starts to be read exactly while both live limits have room; otherwise it is over at once. */
  lemma ArrivalIsDecided(lim: Limits, s: Sys, i: nat)
    requires i < |s.handlers| && s.handlers[i].stage.Arrived?
    ensures var ip, s' := s.handlers[i].ip, Next(lim, s, Admit(i));
            var count := if ip in s.tables.live then s.tables.live[ip] else 0;
            if && s.tables.liveN < (if lim.live > 0 then lim.live else 2048)
               && count < (if lim.livePerIP > 0 then lim.livePerIP else 16)
            then
              && s'.handlers == s.handlers[i := Handler(ip, Reading)]
              && s'.tables.liveN == s.tables.liveN + 1 && s'.tables.live == s.tables.live[ip := count + 1]
              && s'.tables.waiting == s.tables.waiting && s'.tables.closed == s.tables.closed
            else s' == s.(handlers := s.handlers[i := Handler(ip, Finished)])
  {
    AdmissionIsExact(lim, s.tables, s.handlers[i].ip);
  }

  lemma RunAppend(lim: Limits, actions: seq<Action>, a: Action)
    ensures Run(lim, actions + [a]) == Next(lim, Run(lim, actions), a)
  {
    assert (actions + [a])[..|actions|] == actions;
  }

  /**
   * Two handlers whose clients fit, registering in either order, end in one pair: the first is kept, and
   * whatever happens in between, if its entry is still there the second is paired with it.
   */
  lemma FittingPeersPair(lim: Limits, before: seq<Action>, between: seq<Action>, i: nat, j: nat, a: Client, b: Client)
    requires i < |Run(lim, before).handlers| && Run(lim, before).handlers[i].stage == Ready(a)
    requires var waiting := Run(lim, before).tables.waiting;
             && a.session !in waiting && |waiting| < (if lim.waiting > 0 then lim.waiting else 1024)
             && |FromSource(waiting, a.ip)| < (if lim.waitingPerIP > 0 then lim.waitingPerIP else 8)
    requires var s := Run(lim, before + [Register(i)] + between);
             && a.session in s.tables.waiting && s.tables.waiting[a.session] == a
             && j < |s.handlers| && s.handlers[j].stage == Ready(b)
    requires a.session == b.session && a.token == b.token && a.role != b.role
    ensures var kept := Run(lim, before + [Register(i)]);
            && kept.handlers[i].stage == Waiting(a) && a.session in kept.tables.waiting
            && kept.tables.waiting[a.session] == a
    ensures var s := Run(lim, before + [Register(i)] + between);
            var s' := Run(lim, before + [Register(i)] + between + [Register(j)]);
            && s'.pairs == s.pairs + [(a, b)] && PairsOf(s'.pairs, a.id) == 1 && PairsOf(s'.pairs, b.id) == 1
            && s'.handlers[j].stage == Relaying(a, b) && a.session !in s'.tables.waiting
            && a.id in s'.tables.closed
  {
    var mid := before + [Register(i)] + between;
    RunAppend(lim, before, Register(i));
    KeepingIsExact(lim, Run(lim, before).tables, a);
    RunAppend(lim, mid, Register(j));
    PartnerArrives(lim, Run(lim, mid), j, a, b);
    RunKeepsInv(lim, mid + [Register(j)]);
    PairedOnce(Run(lim, mid + [Register(j)]), a.id);
    PairedOnce(Run(lim, mid + [Register(j)]), b.id);
  }

  /** The last pair's clients are in no other. */
  lemma PairedOnce(s: Sys, i: nat)
    requires PairsOk(s, i) && |s.pairs| > 0 && InPair(s.pairs[|s.pairs| - 1], i)
    ensures PairsOf(s.pairs, i) == 1
  {
    OnePair(s.pairs, |s.pairs| - 1, i);
  }

  lemma PartnerArrives(lim: Limits, s: Sys, j: nat, a: Client, b: Client)
    requires j < |s.handlers| && s.handlers[j].stage == Ready(b)
    requires a.session in s.tables.waiting && s.tables.waiting[a.session] == a
    requires a.session == b.session && a.token == b.token && a.role != b.role
    ensures var s' := Next(lim, s, Register(j));
            && s'.pairs == s.pairs + [(a, b)] && s'.handlers[j].stage == Relaying(a, b)
            && a.session !in s'.tables.waiting && a.id in s'.tables.closed
  {
    PairingIsExact(lim, s.tables, b);
  }

  /** A waiter, at whatever point it learns of its fate. */
  predicate Remains(s: Sys, i: nat) {
    i < |s.handlers| && (s.handlers[i].stage.Waiting? || s.handlers[i].stage.Expired? || s.handlers[i].stage.Held?)
  }

  lemma ClosedGrows(lim: Limits, s: Sys, a: Action)
    ensures s.tables.closed <= Next(lim, s, a).tables.closed
  {
  }

  lemma PairedMoves(lim: Limits, s: Sys, i: nat, a: Action)
    requires Remains(s, i) && !Owns(s.tables, s.handlers[i].stage.client)
    requires !a.Arrive? && a.i == i && a != Gone(i)
    ensures Remains(Next(lim, s, a), i)
  {
  }

  /**
   * A waiter whose partner has come is not torn down by its timer: nothing but the end of its own
   * connection takes it out of the pair, whichever of the two events its handler sees first.
   */
  lemma PairedWaiterStays(lim: Limits, actions: seq<Action>, i: nat, a: Action)
    requires Remains(Run(lim, actions), i) && i in Run(lim, actions).tables.closed && a != Gone(i)
    ensures Remains(Next(lim, Run(lim, actions), a), i) && i in Next(lim, Run(lim, actions), a).tables.closed
  {
    var s := Run(lim, actions);
    RunKeepsInv(lim, actions);
    assert HandlerOk(s, i) && EntryOk(s, s.handlers[i].stage.client.session);
    ClosedGrows(lim, s, a);
    if !a.Arrive? && a.i == i {
      PairedMoves(lim, s, i, a);
    } else {
      StepShape(lim, s, a);
    }
  }

  /** A waiter whose timer fires leaves exactly when no partner has come. */
  lemma TimerDecides(lim: Limits, actions: seq<Action>, i: nat)
    requires i < |Run(lim, actions).handlers| && Run(lim, actions).handlers[i].stage.Expired?
    ensures var s := Run(lim, actions);
            var s' := Next(lim, s, Unregister(i));
            if i in s.tables.closed then
              s'.handlers[i].stage == Held(s.handlers[i].stage.client, true) && s'.tables == s.tables
            else
              && s'.handlers[i].stage.Closing?
              && s'.tables.waiting == s.tables.waiting - {s.handlers[i].stage.client.session}
  {
    var s := Run(lim, actions);
    RunKeepsInv(lim, actions);
    assert HandlerOk(s, i) && EntryOk(s, s.handlers[i].stage.client.session);
  }

  /** A waiter notices exactly when its partner has come, and is then held whichever event it saw first. */
  lemma NoticeIsExact(lim: Limits, actions: seq<Action>, i: nat)
    requires i < |Run(lim, actions).handlers| && Run(lim, actions).handlers[i].stage.Waiting?
    ensures var s := Run(lim, actions);
            var s' := Next(lim, s, Notice(i));
            if i in s.tables.closed then
              s' == s.(handlers := s.handlers[i := Handler(s.handlers[i].ip, Held(s.handlers[i].stage.client, false))])
            else s' == s
  {
    var s := Run(lim, actions);
    assert s.handlers[i] == Handler(s.handlers[i].ip, s.handlers[i].stage);
  }

  /** When a held waiter's connection ends it leaves without touching the tables. */
  lemma HeldLeavesTables(lim: Limits, actions: seq<Action>, i: nat)
    requires i < |Run(lim, actions).handlers| && Run(lim, actions).handlers[i].stage.Held?
    ensures var s := Run(lim, actions);
            var gone := Next(lim, s, Gone(i));
            var left := if s.handlers[i].stage.expired then gone else Next(lim, gone, Unregister(i));
            left.handlers[i].stage == Closing && left.tables == s.tables && left.pairs == s.pairs
  {
    var s := Run(lim, actions);
    RunKeepsInv(lim, actions);
    assert HandlerOk(s, i) && EntryOk(s, s.handlers[i].stage.client.session);
  }

  /** Nobody exits leaving an entry behind, and when everybody has, nothing is left at all. */
  lemma NothingIsLeftBehind(lim: Limits, actions: seq<Action>)
    ensures var s := Run(lim, actions);
            && (forall q :: q in s.tables.waiting ==>
                  var c := s.tables.waiting[q];
                  c.id < |s.handlers| && !s.handlers[c.id].stage.Closing? && !s.handlers[c.id].stage.Finished?)
            && ((forall h :: h in s.handlers ==> h.stage.Finished?) ==> s.tables == Empty().(closed := s.tables.closed))
  {
    var s := Run(lim, actions);
    RunKeepsInv(lim, actions);
    forall q | q in s.tables.waiting
      ensures var c := s.tables.waiting[q];
              c.id < |s.handlers| && MayWait(s.handlers[c.id].stage)
    {
      assert EntryOk(s, q);
    }
    if forall h :: h in s.handlers ==> h.stage.Finished? {
      assert forall i :: 0 <= i < |s.handlers| ==> s.handlers[i].stage.Finished?;
      NoneLive(s.handlers);
      forall q
        ensures q !in s.tables.waiting
      {
        assert EntryOk(s, q);
      }
      forall ip
        ensures ip !in s.tables.live
      {
        NoneLiveFrom(s.handlers, ip);
        assert SourceLive(lim, s.tables.live, s.handlers, ip);
      }
      assert s.tables.live == map[] && s.tables.waiting == map[];
    }
  }

  lemma {:induction false} NoneLive(hs: seq<Handler>)
    requires forall h :: h in hs ==> h.stage.Finished?
    ensures LiveAll(hs) == 0
  {
    if |hs| > 0 {
      assert hs[|hs| - 1] in hs;
      NoneLive(hs[..|hs| - 1]);
    }
  }

  lemma {:induction false} NoneLiveFrom(hs: seq<Handler>, ip: string)
    requires forall h :: h in hs ==> h.stage.Finished?
    ensures LiveFrom(hs, ip) == 0
  {
    if |hs| > 0 {
      assert hs[|hs| - 1] in hs;
      NoneLiveFrom(hs[..|hs| - 1], ip);
    }
  }
}
