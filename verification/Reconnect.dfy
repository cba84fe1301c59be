/** Two reconnecting clients over a poller: what a stream goes through, checked by a monitor
    that knows nothing of either loop, and what the backoff counts. */
module Reconnect {
  import opened Options
  import opened Backoff

  // ---- The monitor ----

  datatype Op =
    | Created(id: nat)
    | Attached(id: nat)
    | Polled
    | Detached(id: nat)
    | Drained(id: nat)
    | Destroyed(id: nat)

  /** Streams ever created, alive, registered with the poller, and ever registered. */
  datatype World = World(seen: set<nat>, live: set<nat>, attached: set<nat>, used: set<nat>)

  const START: World := World({}, {}, {}, {})

  predicate Idle(w: World) {
    w.live == {} && w.attached == {}
  }

  /** A stream is registered at most once, and is off the poller whenever it is drained or
      destroyed; polling needs someone to poll. */
  function Step(w: World, op: Op): (r: Option<World>) {
    match op
    case Created(id) =>
      if id in w.seen then None else Some(w.(seen := w.seen + {id}, live := w.live + {id}))
    case Attached(id) =>
      if id !in w.live || id in w.used then None
      else Some(w.(attached := w.attached + {id}, used := w.used + {id}))
    case Polled =>
      if w.attached == {} then None else Some(w)
    case Detached(id) =>
      if id !in w.attached then None else Some(w.(attached := w.attached - {id}))
    case Drained(id) =>
      if id !in w.live || id !in w.used || id in w.attached then None else Some(w)
    case Destroyed(id) =>
      if id !in w.live || id in w.attached then None else Some(w.(live := w.live - {id}))
  }

  function Replay(w: World, ops: seq<Op>): (r: Option<World>) {
    if ops == [] then Some(w)
    else
      var before := Replay(w, ops[..|ops| - 1]);
      if before.None? then None else Step(before.value, ops[|ops| - 1])
  }

  lemma {:induction false} ReplayAppend(w: World, a: seq<Op>, b: seq<Op>)
    requires Replay(w, a).Some?
    ensures Replay(w, a + b) == Replay(Replay(w, a).value, b)
  {
    if b == [] {
      assert a + b == a;
    } else {
      assert (a + b)[..|a + b| - 1] == a + b[..|b| - 1];
      ReplayAppend(w, a, b[..|b| - 1]);
    }
  }

  lemma ReplayOne(w: World, a: seq<Op>, op: Op)
    requires Replay(w, a).Some?
    ensures Replay(w, a + [op]) == Step(Replay(w, a).value, op)
  {
    assert (a + [op])[..|a|] == a;
  }

  // ---- One session ----

  function Polls(n: nat): (ops: seq<Op>) {
    if n == 0 then [] else Polls(n - 1) + [Polled]
  }

  /** What a session does to its stream, given how its calls turn out. */
  function SessionOps(id: nat, created: bool, admitted: bool, polls: nat, drain: bool): (ops: seq<Op>) {
    if !created then []
    else if !admitted then [Created(id)] + [Destroyed(id)]
    else [Created(id)] + [Attached(id)] + Polls(polls) + [Detached(id)]
         + (if drain then [Drained(id)] else []) + [Destroyed(id)]
  }

  function Count(ops: seq<Op>, op: Op): (n: nat) {
    multiset(ops)[op]
  }

  lemma {:induction false} CountPolls(n: nat, op: Op)
    ensures Count(Polls(n), op) == if op == Polled then n else 0
  {
    if n > 0 {
      CountPolls(n - 1, op);
    }
  }

  /** How often each call is made: a stream created once if at all, registered and taken off once if it
      was admitted, polled as often as the guard held, drained only when asked, destroyed whenever it
      was created; and no call is made on any other stream. */
  lemma SessionCalls(id: nat, created: bool, admitted: bool, polls: nat, drain: bool, op: Op)
    ensures var n, joined := Count(SessionOps(id, created, admitted, polls, drain), op), created && admitted;
            if op == Polled then n == if joined then polls else 0
            else if op.id != id then n == 0
            else if op.Created? || op.Destroyed? then n == if created then 1 else 0
            else if op.Drained? then n == if joined && drain then 1 else 0
            else n == if joined then 1 else 0
  {
    hide Polls;
    CountPolls(polls, op);
  }

  lemma {:induction false} PollsKeep(w: World, n: nat)
    requires w.attached != {}
    ensures Replay(w, Polls(n)) == Some(w)
  {
    if n > 0 {
      PollsKeep(w, n - 1);
      ReplayOne(w, Polls(n - 1), Polled);
    }
  }

  /** Started from an idle world with a new stream, a session is disciplined and leaves an
      idle world. */
  lemma SessionDisciplined(w: World, id: nat, created: bool, admitted: bool, polls: nat, drain: bool)
    requires Idle(w) && id !in w.seen && w.used <= w.seen
    ensures var r := Replay(w, SessionOps(id, created, admitted, polls, drain));
            && r.Some? && Idle(r.value) && r.value.used <= r.value.seen
            && r.value.seen == (if created then w.seen + {id} else w.seen)
  {
    hide Replay, Polls;
    ReplayNone(w);
    if created {
      var a := [Created(id)];
      ReplayOne(w, [], Created(id));
      assert [] + a == a;
      var w1 := Replay(w, a).value;
      if !admitted {
        ReplayOne(w, a, Destroyed(id));
        assert w1.live - {id} == {};
      } else {
        var b := a + [Attached(id)];
        ReplayOne(w, a, Attached(id));
        var w2 := Replay(w, b).value;
        assert id in w2.attached;
        PollsKeep(w2, polls);
        ReplayAppend(w, b, Polls(polls));
        var c := b + Polls(polls) + [Detached(id)];
        ReplayOne(w, b + Polls(polls), Detached(id));
        var d := c + if drain then [Drained(id)] else [];
        if drain {
          ReplayOne(w, c, Drained(id));
        } else {
          assert d == c;
        }
        assert Replay(w, d) == Some(w2.(attached := {}));
        ReplayOne(w, d, Destroyed(id));
        assert w2.live - {id} == {};
      }
    }
  }

  lemma ReplayNone(w: World)
    ensures Replay(w, []) == Some(w)
  {}

  // ---- The poller ----

  datatype Admission = Added | ClosedDescriptor | AttachedAlready | RegisteredAlready | OutOfMemory | CallFailed

  class Poller {
    var entries: seq<nat>

    constructor ()
      ensures entries == []
    {
      entries := [];
    }

    /** Where a stream is registered, or the number of entries. */
    method Search(id: nat) returns (k: nat)
      ensures k <= |entries| && id !in entries[..k]
      ensures k < |entries| ==> entries[k] == id
    {
      k := 0;
      while k < |entries| && entries[k] != id
        invariant k <= |entries| && id !in entries[..k]
      {
        k := k + 1;
      }
    }

    /** The first reason to refuse, if there is one: a closed descriptor, a stream attached already,
        one registered here already, no memory for the entry, or the system call. */
    method Add(id: nat, open: bool, attached: bool, memory: bool, admitted: bool) returns (r: Admission)
      modifies this
      ensures r == ClosedDescriptor <==> !open
      ensures r == AttachedAlready <==> open && attached
      ensures r == RegisteredAlready <==> open && !attached && id in old(entries)
      ensures r == OutOfMemory <==> open && !attached && id !in old(entries) && !memory
      ensures r == CallFailed <==> open && !attached && id !in old(entries) && memory && !admitted
      ensures entries == if r.Added? then old(entries) + [id] else old(entries)
    {
      if !open {
        return ClosedDescriptor;
      }
      if attached {
        return AttachedAlready;
      }
      var k := Search(id);
      assert entries == entries[..k] + entries[k..];
      if k < |entries| {
        return RegisteredAlready;
      }
      if !memory {
        return OutOfMemory;
      }
      if !admitted {
        return CallFailed;
      }
      entries := entries + [id];
      r := Added;
    }

    method Remove(id: nat) returns (ok: bool)
      modifies this
      ensures ok <==> id in old(entries)
      ensures !ok ==> entries == old(entries)
      ensures ok ==> exists k | 0 <= k < |old(entries)| ::
                       old(entries)[k] == id && id !in old(entries)[..k]
                       && entries == old(entries)[..k] + old(entries)[k + 1..]
    {
      var k := Search(id);
      ok := k < |entries|;
      assert entries == entries[..k] + entries[k..];
      if ok {
        entries := entries[..k] + entries[k + 1..];
      }
    }
  }

  // ---- The production client ----

  datatype Outcome = SignalStop | Connected | CreateFailed

  /** One guard evaluation of the poll loop. */
  datatype Look = Look(running: bool, established: bool)

  /** How one session turns out: whether the client still runs at the outer loop head, what
      `create` and the poller answer, how often the poll guard holds, what it reads when it
      fails, and the run flag read once more at the end. */
  datatype Session = Session(running: bool, created: bool, admitted: bool, polls: nat, exit: Look, stillRunning: bool)

  /** The guard failed, and the run flag only ever goes down. */
  predicate Possible(s: Session) {
    && !(s.exit.running && s.exit.established)
    && (s.stillRunning ==> s.exit.running)
  }

  function OutcomeOf(s: Session): (o: Outcome) {
    if !s.created || !s.admitted then CreateFailed else if s.stillRunning then Connected else SignalStop
  }

  function OpsOf(id: nat, s: Session): (ops: seq<Op>) {
    SessionOps(id, s.created, s.admitted, s.polls, s.exit.established)
  }

  method RunOneSession(poller: Poller, id: nat, s: Session) returns (outcome: Outcome, ops: seq<Op>)
    requires poller.entries == [] && Possible(s)
    modifies poller
    ensures poller.entries == []
    ensures outcome == OutcomeOf(s)
    ensures outcome == CreateFailed <==> !s.created || !s.admitted
    ensures outcome == Connected <==> s.created && s.admitted && s.stillRunning
    ensures ops == OpsOf(id, s)
    ensures Drained(id) in ops ==> outcome == SignalStop
  {
    if !s.created {
      return CreateFailed, [];
    }
    ops := [Created(id)];
    var added := poller.Add(id, true, false, true, s.admitted);
    if !added.Added? {
      ops := ops + [Destroyed(id)];
      return CreateFailed, ops;
    }
    ops := ops + [Attached(id)];
    ghost var start := ops;
    for i := 0 to s.polls
      invariant ops == start + Polls(i)
      invariant Drained(id) !in ops
      invariant poller.entries == [id]
    {
      ops := ops + [Polled];
    }
    var removed := poller.Remove(id);
    ops := ops + [Detached(id)];
    if s.exit.established {
      ops := ops + [Drained(id)];
    }
    ops := ops + [Destroyed(id)];
    outcome := if s.stillRunning then Connected else SignalStop;
  }

  /** Delays asked for since the last reset: one for the drop of the last connected session,
      and one for every failure after it. */
  function Attempts(outcomes: seq<Outcome>): (n: nat) {
    if outcomes == [] then 0
    else match outcomes[|outcomes| - 1]
      case Connected => 1
      case CreateFailed => Attempts(outcomes[..|outcomes| - 1]) + 1
      case SignalStop => Attempts(outcomes[..|outcomes| - 1])
  }

  function Failures(k: nat): (s: seq<Outcome>)
    ensures |s| == k
  {
    if k == 0 then [] else Failures(k - 1) + [CreateFailed]
  }

  /** Only the failures since the last connected session count, whatever came before it. */
  lemma {:induction false} AttemptsForgetThePast(past: seq<Outcome>, k: nat)
    ensures Attempts(Failures(k)) == k
    ensures Attempts(past + [Connected] + Failures(k)) == k + 1
  {
    hide Attempts;
    if k == 0 {
      AttemptsNext(past, Connected);
      assert past + [Connected] + [] == past + [Connected];
    } else {
      AttemptsForgetThePast(past, k - 1);
      var before := past + [Connected] + Failures(k - 1);
      AttemptsNext(before, CreateFailed);
      AttemptsNext(Failures(k - 1), CreateFailed);
      assert past + [Connected] + Failures(k) == before + [CreateFailed];
    }
  }

  lemma AttemptsNext(outcomes: seq<Outcome>, o: Outcome)
    ensures Attempts([]) == 0
    ensures o.Connected? ==> Attempts(outcomes + [o]) == 1
    ensures o.CreateFailed? ==> Attempts(outcomes + [o]) == Attempts(outcomes) + 1
    ensures o.SignalStop? ==> Attempts(outcomes + [o]) == Attempts(outcomes)
  {
    assert (outcomes + [o])[..|outcomes|] == outcomes;
  }

  function Flat(trace: seq<seq<Op>>): (ops: seq<Op>) {
    if trace == [] then [] else Flat(trace[..|trace| - 1]) + trace[|trace| - 1]
  }

  /** At every outer loop head so far, all that happened was disciplined and nothing is left. */
  ghost predicate Disciplined(trace: seq<seq<Op>>) {
    forall k | 0 <= k <= |trace| :: CleanAt(trace, k)
  }

  ghost predicate CleanAt(trace: seq<seq<Op>>, k: nat)
    requires k <= |trace|
  {
    var w := Replay(START, Flat(trace[..k]));
    w.Some? && Idle(w.value) && w.value.used <= w.value.seen && forall id | id in w.value.seen :: id < k
  }

  lemma DisciplinedNext(trace: seq<seq<Op>>, created: bool, admitted: bool, polls: nat, drain: bool)
    requires Disciplined(trace)
    ensures Disciplined(trace + [SessionOps(|trace|, created, admitted, polls, drain)])
  {
    hide Replay, SessionOps;
    var ops := SessionOps(|trace|, created, admitted, polls, drain);
    var next := trace + [ops];
    forall k | 0 <= k <= |next| ensures CleanAt(next, k) {
      if k <= |trace| {
        assert next[..k] == trace[..k];
        assert CleanAt(trace, k);
      } else {
        assert CleanAt(trace, |trace|);
        assert trace[..|trace|] == trace && next[..k] == next && next[..|next| - 1] == trace;
        var w := Replay(START, Flat(trace)).value;
        SessionDisciplined(w, |trace|, created, admitted, polls, drain);
        ReplayAppend(START, Flat(trace), ops);
      }
    }
  }

  /** Each delay is the jittered base of its place in the chain of attempts. */
  ghost predicate Paced(fl: real -> real, cfg: Config, outcomes: seq<Outcome>, draws: seq<Draw>, delays: seq<int>)
    requires |delays| <= |outcomes| && |delays| <= |draws|
  {
    forall k | 0 <= k < |delays| :: PacedAt(fl, cfg, outcomes[..k + 1], draws[k], delays[k])
  }

  ghost predicate PacedAt(fl: real -> real, cfg: Config, outcomes: seq<Outcome>, draw: Draw, delay: int) {
    && Attempts(outcomes) >= 1
    && var base := Base(fl, cfg, Attempts(outcomes) - 1);
    Within(fl, cfg, base, delay) && DrawnFrom(fl, cfg, base, draw, delay)
  }

  lemma PacedNext(fl: real -> real, cfg: Config, outcomes: seq<Outcome>, draws: seq<Draw>, delays: seq<int>,
                  o: Outcome, delay: int)
    requires |delays| == |outcomes| < |draws| && Paced(fl, cfg, outcomes, draws, delays)
    requires PacedAt(fl, cfg, outcomes + [o], draws[|delays|], delay)
    ensures Paced(fl, cfg, outcomes + [o], draws, delays + [delay])
  {
    hide PacedAt;
    var os, ds := outcomes + [o], delays + [delay];
    forall k | 0 <= k < |ds| ensures PacedAt(fl, cfg, os[..k + 1], draws[k], ds[k]) {
      if k < |delays| {
        assert os[..k + 1] == outcomes[..k + 1];
        assert PacedAt(fl, cfg, outcomes[..k + 1], draws[k], delays[k]);
      } else {
        assert os[..k + 1] == os;
      }
    }
  }

  datatype End = TraceOver | Stopped | Exhausted

  /** The attempts asked for exceed the budget, if there is one. */
  predicate Spent(cfg: Config, attempts: nat) {
    cfg.maxAttempts != 0 && attempts > cfg.maxAttempts
  }

  /** The last session ended because the client was told to stop. */
  predicate ToldToStop(outcomes: seq<Outcome>) {
    outcomes != [] && outcomes[|outcomes| - 1] == SignalStop
  }

  /** Before the last session nothing had ended the loop: no stop, and the budget never spent. */
  ghost predicate WentOn(cfg: Config, outcomes: seq<Outcome>) {
    forall k | 0 <= k < |outcomes| :: MayGoOn(cfg, outcomes[..k])
  }

  predicate MayGoOn(cfg: Config, outcomes: seq<Outcome>) {
    !ToldToStop(outcomes) && !Spent(cfg, Attempts(outcomes))
  }

  lemma WentOnNext(cfg: Config, outcomes: seq<Outcome>, o: Outcome)
    requires WentOn(cfg, outcomes) && MayGoOn(cfg, outcomes)
    ensures WentOn(cfg, outcomes + [o])
  {
    hide MayGoOn;
    forall k | 0 <= k < |outcomes| + 1 ensures MayGoOn(cfg, (outcomes + [o])[..k]) {
      assert (outcomes + [o])[..k] == outcomes[..k];
      if k == |outcomes| {
        assert outcomes[..k] == outcomes;
      } else {
        assert MayGoOn(cfg, outcomes[..k]);
      }
    }
  }

  /** The outer loop, run over any sequence of session outcomes. It gives up exactly when the budget is
      spent, stops exactly when told to in a session or at the loop head, and otherwise reconnects. */
  method RunSession(poller: Poller, backoff: ExponentialBackoff, sessions: seq<Session>, draws: seq<Draw>)
    returns (trace: seq<seq<Op>>, outcomes: seq<Outcome>, delays: seq<int>, end: End)
    requires poller.entries == [] && backoff.Valid() && backoff.produced == 0
    requires |draws| == |sessions| && forall i | 0 <= i < |draws| :: InRange(draws[i])
    requires forall i | 0 <= i < |sessions| :: Possible(sessions[i])
    modifies poller, backoff
    ensures poller.entries == [] && backoff.Valid()
    ensures |trace| == |outcomes| <= |sessions|
    ensures forall i | 0 <= i < |outcomes| ::
              sessions[i].running && outcomes[i] == OutcomeOf(sessions[i]) && trace[i] == OpsOf(i, sessions[i])
    ensures Disciplined(trace)
    ensures WentOn(backoff.cfg, outcomes)
    ensures end == Exhausted <==> Spent(backoff.cfg, Attempts(outcomes))
    ensures end == Stopped <==>
            && !Spent(backoff.cfg, Attempts(outcomes))
            && (ToldToStop(outcomes) || (|outcomes| < |sessions| && !sessions[|outcomes|].running))
    ensures end == TraceOver ==> |outcomes| == |sessions| && backoff.produced == Attempts(outcomes)
    ensures |delays| == if end == Exhausted || ToldToStop(outcomes) then |outcomes| - 1 else |outcomes|
    ensures Paced(backoff.fl, backoff.cfg, outcomes, draws, delays)
  {
    hide Replay, SessionOps, Flat, CleanAt, PacedAt, Base, Within, DrawnFrom, Attempts, Disciplined, WentOn, OutcomeOf;
    trace, outcomes, delays, end := [], [], [], TraceOver;
    StartsClean();
    StartsGoing(backoff.cfg);
    AttemptsNext([], SignalStop);
    var i := 0;
    while i < |sessions|
      invariant 0 <= i <= |sessions|
      invariant poller.entries == [] && backoff.Valid()
      invariant |trace| == |outcomes| == |delays| == i
      invariant forall j | 0 <= j < i ::
                  sessions[j].running && outcomes[j] == OutcomeOf(sessions[j]) && trace[j] == OpsOf(j, sessions[j])
      invariant Disciplined(trace) && Paced(backoff.fl, backoff.cfg, outcomes, draws, delays)
      invariant backoff.produced == Attempts(outcomes)
      invariant WentOn(backoff.cfg, outcomes) && MayGoOn(backoff.cfg, outcomes)
    {
      var s := sessions[i];
      if !s.running {
        return trace, outcomes, delays, Stopped;
      }
      var outcome, ops := RunOneSession(poller, i, s);
      DisciplinedNext(trace, s.created, s.admitted, s.polls, s.exit.established);
      trace := trace + [ops];
      ghost var before := outcomes;
      WentOnNext(backoff.cfg, outcomes, outcome);
      outcomes := outcomes + [outcome];
      AttemptsNext(before, outcome);
      assert Paced(backoff.fl, backoff.cfg, outcomes, draws, delays) by {
        PacedKeeps(backoff.fl, backoff.cfg, before, outcome, draws, delays);
      }
      if outcome == SignalStop {
        return trace, outcomes, delays, Stopped;
      }
      if outcome == Connected {
        backoff.Reset();
      }
      var delay := backoff.NextDelay(draws[i]);
      if delay.None? {
        return trace, outcomes, delays, Exhausted;
      }
      assert PacedAt(backoff.fl, backoff.cfg, outcomes, draws[i], delay.value) by {
        ShowPaced(backoff.fl, backoff.cfg, outcomes, draws[i], delay.value);
      }
      PacedNext(backoff.fl, backoff.cfg, before, draws, delays, outcome, delay.value);
      delays := delays + [delay.value];
      i := i + 1;
    }
  }

  lemma StartsGoing(cfg: Config)
    ensures WentOn(cfg, []) && MayGoOn(cfg, [])
  {}

  lemma StartsClean()
    ensures Disciplined([])
  {
    assert Flat([][..0]) == [];
  }

  lemma PacedKeeps(fl: real -> real, cfg: Config, outcomes: seq<Outcome>, o: Outcome, draws: seq<Draw>,
                   delays: seq<int>)
    requires |delays| <= |outcomes| && |delays| <= |draws| && Paced(fl, cfg, outcomes, draws, delays)
    ensures Paced(fl, cfg, outcomes + [o], draws, delays)
  {
    hide PacedAt;
    forall k | 0 <= k < |delays| ensures PacedAt(fl, cfg, (outcomes + [o])[..k + 1], draws[k], delays[k]) {
      assert (outcomes + [o])[..k + 1] == outcomes[..k + 1];
    }
  }

  lemma ShowPaced(fl: real -> real, cfg: Config, outcomes: seq<Outcome>, draw: Draw, delay: int)
    requires Attempts(outcomes) >= 1 && Within(fl, cfg, Base(fl, cfg, Attempts(outcomes) - 1), delay)
    requires DrawnFrom(fl, cfg, Base(fl, cfg, Attempts(outcomes) - 1), draw, delay)
    ensures PacedAt(fl, cfg, outcomes, draw, delay)
  {}

  // ---- The latency client ----

  /** How one round turns out: whether the loop guard holds, whether a source port was found,
      what `create` and the poller answer, and how often the poll guard holds. */
  datatype Round = Round(running: bool, port: bool, created: bool, admitted: bool, polls: nat)

  predicate Joined(r: Round) {
    r.port && r.created && r.admitted
  }

  /** Consecutive failed rounds since the last connected one. */
  function Failed(rounds: seq<Round>): (n: nat) {
    if rounds == [] || Joined(rounds[|rounds| - 1]) then 0 else Failed(rounds[..|rounds| - 1]) + 1
  }

  function Connections(rounds: seq<Round>): (n: nat) {
    if rounds == [] then 0
    else Connections(rounds[..|rounds| - 1]) + if Joined(rounds[|rounds| - 1]) then 1 else 0
  }

  /** A failed round waits the jittered base of its place in the chain; a connected one does
      not wait at all, even when its session drops. */
  ghost predicate Waits(fl: real -> real, cfg: Config, rounds: seq<Round>, draw: Draw, wait: Option<int>)
    requires rounds != []
  {
    if Joined(rounds[|rounds| - 1]) then wait.None?
    else
      var base := Base(fl, cfg, Failed(rounds) - 1);
      wait.Some? && Within(fl, cfg, base, wait.value) && DrawnFrom(fl, cfg, base, draw, wait.value)
  }

  ghost predicate WaitsAll(fl: real -> real, cfg: Config, rounds: seq<Round>, draws: seq<Draw>,
                           waits: seq<Option<int>>)
  {
    && |waits| <= |rounds| && |waits| <= |draws|
    && forall k | 0 <= k < |waits| :: Waits(fl, cfg, rounds[..k + 1], draws[k], waits[k])
  }

  lemma WaitsNext(fl: real -> real, cfg: Config, rounds: seq<Round>, draws: seq<Draw>, waits: seq<Option<int>>,
                  wait: Option<int>)
    requires WaitsAll(fl, cfg, rounds, draws, waits) && |waits| < |rounds| && |waits| < |draws|
    requires Waits(fl, cfg, rounds[..|waits| + 1], draws[|waits|], wait)
    ensures WaitsAll(fl, cfg, rounds, draws, waits + [wait])
  {
    hide Waits;
  }

  lemma RoundNext(rounds: seq<Round>, i: nat)
    requires i < |rounds|
    ensures Failed(rounds[..i + 1]) == if Joined(rounds[i]) then 0 else Failed(rounds[..i]) + 1
    ensures Connections(rounds[..i + 1]) == Connections(rounds[..i]) + if Joined(rounds[i]) then 1 else 0
  {
    assert rounds[..i + 1][..i] == rounds[..i];
  }

  function RoundOps(id: nat, r: Round): (ops: seq<Op>) {
    SessionOps(id, r.port && r.created, r.admitted, r.polls, false)
  }

  /** One round's calls on its stream. No stream exists when no port was found. */
  method RunRound(poller: Poller, id: nat, r: Round) returns (joined: bool, ops: seq<Op>)
    requires poller.entries == []
    modifies poller
    ensures poller.entries == []
    ensures joined == Joined(r)
    ensures joined <==> r.port && r.created && r.admitted
    ensures ops == RoundOps(id, r)
  {
    if !r.port || !r.created {
      return false, [];
    }
    ops := [Created(id)];
    var added := poller.Add(id, true, false, true, r.admitted);
    joined := added.Added?;
    if !joined {
      ops := ops + [Destroyed(id)];
      return;
    }
    ops := ops + [Attached(id)];
    ghost var start := ops;
    for i := 0 to r.polls
      invariant ops == start + Polls(i)
      invariant poller.entries == [id]
    {
      ops := ops + [Polled];
    }
    var removed := poller.Remove(id);
    ops := ops + [Detached(id)];
    ghost var detached := ops;
    ops := ops + [Destroyed(id)];
    assert detached + [] == detached;
  }

  /** The reconnect loop, run over any sequence of rounds. */
  method RunLatency(poller: Poller, backoff: ExponentialBackoff, rounds: seq<Round>, draws: seq<Draw>)
    returns (trace: seq<seq<Op>>, waits: seq<Option<int>>, connections: nat, end: End)
    requires poller.entries == [] && backoff.Valid() && backoff.produced == 0
    requires |draws| == |rounds| && forall i | 0 <= i < |draws| :: InRange(draws[i])
    modifies poller, backoff
    ensures poller.entries == [] && backoff.Valid()
    ensures |trace| <= |rounds| && forall i | 0 <= i < |trace| ::
              rounds[i].running && trace[i] == RoundOps(i, rounds[i])
    ensures Disciplined(trace)
    ensures connections == Connections(rounds[..|trace|])
    ensures WaitsAll(backoff.fl, backoff.cfg, rounds, draws, waits)
    ensures forall k | 0 <= k < |trace| :: !Spent(backoff.cfg, Failed(rounds[..k]))
    ensures end == Exhausted <==> Spent(backoff.cfg, Failed(rounds[..|trace|]))
    ensures end == Stopped <==>
            !Spent(backoff.cfg, Failed(rounds[..|trace|])) && |trace| < |rounds| && !rounds[|trace|].running
    ensures end == TraceOver ==> |trace| == |rounds|
    ensures |waits| == if end == Exhausted then |trace| - 1 else |trace|
    ensures end != Exhausted ==> backoff.produced == Failed(rounds[..|trace|])
  {
    hide Replay, SessionOps, Flat, CleanAt, Base, Within, DrawnFrom, Failed, Connections, Waits;
    trace, waits, connections, end := [], [], 0, TraceOver;
    StartsClean();
    NoRounds(rounds);
    var i := 0;
    while i < |rounds|
      invariant 0 <= i <= |rounds|
      invariant poller.entries == [] && backoff.Valid()
      invariant |trace| == |waits| == i
      invariant forall j | 0 <= j < i :: rounds[j].running && trace[j] == RoundOps(j, rounds[j])
      invariant Disciplined(trace) && WaitsAll(backoff.fl, backoff.cfg, rounds, draws, waits)
      invariant forall k | 0 <= k <= i :: !Spent(backoff.cfg, Failed(rounds[..k]))
      invariant connections == Connections(rounds[..i])
      invariant backoff.produced == Failed(rounds[..i])
    {
      var r := rounds[i];
      if !r.running {
        return trace, waits, connections, Stopped;
      }
      RoundNext(rounds, i);
      var joined, ops := RunRound(poller, i, r);
      DisciplinedNext(trace, r.port && r.created, r.admitted, r.polls, false);
      trace := trace + [ops];
      var wait: Option<int> := None;
      if joined {
        backoff.Reset();
        connections := connections + 1;
      } else {
        wait := backoff.NextDelay(draws[i]);
        if wait.None? {
          return trace, waits, connections, Exhausted;
        }
      }
      ShowWaits(backoff.fl, backoff.cfg, rounds, draws[i], i, wait);
      WaitsNext(backoff.fl, backoff.cfg, rounds, draws, waits, wait);
      waits := waits + [wait];
      i := i + 1;
    }
  }

  lemma NoRounds(rounds: seq<Round>)
    ensures Failed(rounds[..0]) == 0 && Connections(rounds[..0]) == 0
  {}

  lemma ShowWaits(fl: real -> real, cfg: Config, rounds: seq<Round>, draw: Draw, i: nat, wait: Option<int>)
    requires i < |rounds|
    requires Joined(rounds[i]) ==> wait.None?
    requires !Joined(rounds[i]) ==>
               && wait.Some? && Within(fl, cfg, Base(fl, cfg, Failed(rounds[..i])), wait.value)
               && DrawnFrom(fl, cfg, Base(fl, cfg, Failed(rounds[..i])), draw, wait.value)
    ensures Waits(fl, cfg, rounds[..i + 1], draw, wait)
  {
    RoundNext(rounds, i);
  }
}
