/** The lifecycle byte of `src/application/lifecycle.rs` and the reports `src/application/health.rs` reads off it. */
module Lifecycle {

  datatype LifecycleState = Starting | Ready | Draining | Stopped

  function FromU8(v: nat): LifecycleState {
    match v
    case 1 => Ready
    case 2 => Draining
    case 3 => Stopped
    case _ => Starting
  }

  predicate IsLive(s: LifecycleState) { !s.Stopped? }

  // ---------- reports ----------

  /** A health report: `checks` says for every started subsystem whether its probe answered. */
  datatype HealthReport = HealthReport(state: LifecycleState, ready: bool, checks: map<string, bool>, liveOnly: bool)

  datatype Status = OK | ServiceUnavailable

  function LiveReport(state: LifecycleState): HealthReport {
    HealthReport(state, false, map[], true)
  }

  function FullReport(state: LifecycleState, checks: map<string, bool>): HealthReport {
    HealthReport(state, state == Ready && forall name <- checks.Keys :: checks[name], checks, false)
  }

  function StatusOf(r: HealthReport): Status {
    if (if r.liveOnly then IsLive(r.state) else r.ready) then OK else ServiceUnavailable
  }

  // ---------- threads over one atomic byte ----------

  datatype Operation = MarkReady | BeginDrain | MarkStopped | Report | Live

  /** Where a thread stands; `begun` is how many calls had returned when its call began. */
  datatype Pc =
    | Idle
    | AtReady(begun: nat)
    | DrainLoad(begun: nat, fails: nat)
    | DrainCas(begun: nat, current: nat, fails: nat)
    | AtStop(begun: nat)
    | AtReport(begun: nat)
    | Probing(begun: nat, state: LifecycleState)
    | AtLive(begun: nat)

  /** A call that has returned. */
  datatype Event =
    | ReadyReturned(tid: nat)
    | DrainReturned(tid: nat, begun: nat, fails: nat)
    | StopReturned(tid: nat)
    | Reported(tid: nat, begun: nat, report: HealthReport)

  datatype Config = Config(byte: nat, pcs: map<nat, Pc>, log: seq<Event>)

  /** What the scheduler lets a thread do: start a call, take its next atomic step, end its probes. */
  datatype Action = Begin(op: Operation) | Go | Probe(checks: map<string, bool>)

  datatype Turn = Turn(tid: nat, action: Action)

  function PcOf(c: Config, t: nat): Pc {
    if t in c.pcs then c.pcs[t] else Idle
  }

  function Move(c: Config, t: nat, pc: Pc): Config { c.(pcs := c.pcs[t := pc]) }

  function Return(c: Config, t: nat, e: Event): Config {
    Move(c, t, Idle).(log := c.log + [e])
  }

  /** One atomic step of one thread; a turn that does not fit where the thread stands changes nothing. */
  function Step(c: Config, turn: Turn): Config {
    var t := turn.tid;
    match (PcOf(c, t), turn.action)
    case (Idle, Begin(MarkReady)) => Move(c, t, AtReady(|c.log|))
    case (Idle, Begin(BeginDrain)) => Move(c, t, DrainLoad(|c.log|, 0))
    case (Idle, Begin(MarkStopped)) => Move(c, t, AtStop(|c.log|))
    case (Idle, Begin(Report)) => Move(c, t, AtReport(|c.log|))
    case (Idle, Begin(Live)) => Move(c, t, AtLive(|c.log|))
    case (AtReady(b), Go) =>
      Return(c.(byte := if c.byte == 0 then 1 else c.byte), t, ReadyReturned(t))
    case (DrainLoad(b, f), Go) =>
      if c.byte == 2 || c.byte == 3 then Return(c, t, DrainReturned(t, b, f))
      else Move(c, t, DrainCas(b, c.byte, f))
    case (DrainCas(b, current, f), Go) =>
      if c.byte == current then Return(c.(byte := 2), t, DrainReturned(t, b, f))
      else Move(c, t, DrainLoad(b, f + 1))
    case (AtStop(b), Go) => Return(c.(byte := 3), t, StopReturned(t))
    case (AtReport(b), Go) => Move(c, t, Probing(b, FromU8(c.byte)))
    case (Probing(b, state), Probe(checks)) => Return(c, t, Reported(t, b, FullReport(state, checks)))
    case (AtLive(b), Go) => Return(c, t, Reported(t, b, LiveReport(FromU8(c.byte))))
    case _ => c
  }

  /** Every interleaving of any number of threads is a schedule. */
  function Run(c: Config, schedule: seq<Turn>): Config
    decreases schedule
  {
    if schedule == [] then c else Run(Step(c, schedule[0]), schedule[1..])
  }

  const INITIAL := Config(0, map[], [])

  // ---------- the invariant ----------

  ghost predicate Drained(log: seq<Event>, n: nat) {
    exists i :: 0 <= i < n && i < |log| && log[i].DrainReturned?
  }

  ghost predicate HasStopped(log: seq<Event>, n: nat) {
    exists i :: 0 <= i < n && i < |log| && log[i].StopReturned?
  }

  /** A call in flight: what its thread has seen is not ahead of the byte. */
  ghost predicate PcOk(c: Config, pc: Pc) {
    match pc
    case DrainLoad(b, f) => f <= 2 && f <= c.byte
    case DrainCas(b, current, f) => f <= current <= 1 && current <= c.byte
    case Probing(b, state) =>
      (Drained(c.log, b) ==> state == Draining || state == Stopped)
    case _ => true
  }

  ghost predicate EventOk(log: seq<Event>, e: Event) {
    && (e.DrainReturned? ==> e.fails <= 2)
    && (e.Reported? && !e.report.liveOnly && Drained(log, e.begun) ==> StatusOf(e.report) == ServiceUnavailable)
    && (e.Reported? && e.report.liveOnly && HasStopped(log, e.begun) ==> StatusOf(e.report) == ServiceUnavailable)
  }

  /** The number of calls that had returned when a call began. */
  function BegunOf(pc: Pc): nat { if pc.Idle? then 0 else pc.begun }

  ghost predicate Inv(c: Config) {
    && c.byte <= 3
    && (Drained(c.log, |c.log|) ==> c.byte >= 2)
    && (HasStopped(c.log, |c.log|) ==> c.byte == 3)
    && (forall t: nat :: PcOk(c, PcOf(c, t)) && BegunOf(PcOf(c, t)) <= |c.log|)
    && (forall e <- c.log :: EventOk(c.log, e))
    && (forall e <- c.log :: (e.Reported? || e.DrainReturned?) ==> e.begun <= |c.log|)
  }

  lemma LogGrows(log: seq<Event>, e: Event, n: nat)
    requires n <= |log|
    ensures Drained(log + [e], n) <==> Drained(log, n)
    ensures HasStopped(log + [e], n) <==> HasStopped(log, n)
  {
    assert forall i :: 0 <= i < n ==> (log + [e])[i] == log[i];
  }

  lemma LogEnd(log: seq<Event>, e: Event)
    ensures Drained(log + [e], |log| + 1) <==> Drained(log, |log|) || e.DrainReturned?
    ensures HasStopped(log + [e], |log| + 1) <==> HasStopped(log, |log|) || e.StopReturned?
  {
    var l := log + [e];
    assert forall i :: 0 <= i < |log| ==> l[i] == log[i];
    assert l[|log|] == e;
  }

  /** Moving one thread without returning. */
  lemma InvMove(c: Config, t: nat, pc: Pc)
    requires Inv(c) && PcOk(c, pc) && BegunOf(pc) <= |c.log|
    ensures Inv(Move(c, t, pc))
  {
    var d := Move(c, t, pc);
    forall u: nat ensures PcOk(d, PcOf(d, u)) && BegunOf(PcOf(d, u)) <= |d.log| {
      assert PcOk(c, PcOf(c, u));
    }
  }

  /** Returning from a call, with the byte moved up to `byte`. */
  lemma InvReturn(c: Config, t: nat, byte: nat, e: Event)
    requires Inv(c) && c.byte <= byte <= 3
    requires e.DrainReturned? ==> byte >= 2
    requires e.StopReturned? ==> byte == 3
    requires EventOk(c.log, e)
    requires e.Reported? || e.DrainReturned? ==> e.begun <= |c.log|
    ensures Inv(Return(c.(byte := byte), t, e))
  {
    var d := Return(c.(byte := byte), t, e);
    LogEnd(c.log, e);
    forall u: nat ensures PcOk(d, PcOf(d, u)) && BegunOf(PcOf(d, u)) <= |d.log| {
      assert PcOk(c, PcOf(c, u));
      LogGrows(c.log, e, BegunOf(PcOf(c, u)));
    }
    forall x | x in d.log ensures EventOk(d.log, x) && ((x.Reported? || x.DrainReturned?) ==> x.begun <= |d.log|) {
      assert x in c.log || x == e;
      assert EventOk(c.log, x);
      if x.Reported? || x.DrainReturned? {
        LogGrows(c.log, e, x.begun);
      }
    }
  }

  lemma DrainedPrefix(log: seq<Event>, n: nat)
    requires n <= |log|
    ensures Drained(log, n) ==> Drained(log, |log|)
    ensures HasStopped(log, n) ==> HasStopped(log, |log|)
  {
  }

  lemma ByteRises(c: Config, turn: Turn)
    requires Inv(c)
    ensures c.byte <= Step(c, turn).byte
  {
    assert PcOk(c, PcOf(c, turn.tid));
  }

  lemma DrainKeeps(c: Config, t: nat)
    requires Inv(c) && (PcOf(c, t).DrainLoad? || PcOf(c, t).DrainCas?)
    ensures Inv(Step(c, Turn(t, Go)))
  {
    assert PcOk(c, PcOf(c, t)) && BegunOf(PcOf(c, t)) <= |c.log|;
    match PcOf(c, t)
    case DrainLoad(b, f) =>
      if c.byte == 2 || c.byte == 3 {
        InvReturn(c, t, c.byte, DrainReturned(t, b, f));
      } else {
        InvMove(c, t, DrainCas(b, c.byte, f));
      }
    case DrainCas(b, current, f) =>
      if c.byte == current {
        InvReturn(c, t, 2, DrainReturned(t, b, f));
      } else {
        InvMove(c, t, DrainLoad(b, f + 1));
      }
  }

  lemma ReportKeeps(c: Config, turn: Turn)
    requires Inv(c) && (PcOf(c, turn.tid).AtReport? || PcOf(c, turn.tid).Probing? || PcOf(c, turn.tid).AtLive?)
    ensures Inv(Step(c, turn))
  {
    var t := turn.tid;
    assert PcOk(c, PcOf(c, t)) && BegunOf(PcOf(c, t)) <= |c.log|;
    DrainedPrefix(c.log, BegunOf(PcOf(c, t)));
    match (PcOf(c, t), turn.action)
    case (AtReport(b), Go) =>
      InvMove(c, t, Probing(b, FromU8(c.byte)));
    case (Probing(b, state), Probe(checks)) =>
      InvReturn(c, t, c.byte, Reported(t, b, FullReport(state, checks)));
    case (AtLive(b), Go) =>
      InvReturn(c, t, c.byte, Reported(t, b, LiveReport(FromU8(c.byte))));
    case _ =>
  }

  lemma BeginKeeps(c: Config, turn: Turn)
    requires Inv(c) && PcOf(c, turn.tid).Idle?
    ensures Inv(Step(c, turn))
  {
    if turn.action.Begin? {
      InvMove(c, turn.tid, PcOf(Step(c, turn), turn.tid));
    }
  }

  lemma MarkKeeps(c: Config, turn: Turn)
    requires Inv(c) && (PcOf(c, turn.tid).AtReady? || PcOf(c, turn.tid).AtStop?)
    ensures Inv(Step(c, turn))
  {
    var t := turn.tid;
    match (PcOf(c, t), turn.action)
    case (AtReady(_), Go) =>
      InvReturn(c, t, if c.byte == 0 then 1 else c.byte, ReadyReturned(t));
    case (AtStop(_), Go) =>
      InvReturn(c, t, 3, StopReturned(t));
    case _ =>
  }

  /** Every atomic step of every thread keeps the invariant. */
  lemma StepKeeps(c: Config, turn: Turn)
    requires Inv(c)
    ensures Inv(Step(c, turn))
  {
    var t := turn.tid;
    match (PcOf(c, t), turn.action)
    case (Idle, _) =>
      BeginKeeps(c, turn);
    case (AtReady(_), _) =>
      MarkKeeps(c, turn);
    case (AtStop(_), _) =>
      MarkKeeps(c, turn);
    case (DrainLoad(_, _), Go) =>
      DrainKeeps(c, t);
    case (DrainCas(_, _, _), Go) =>
      DrainKeeps(c, t);
    case (AtReport(_), _) =>
      ReportKeeps(c, turn);
    case (Probing(_, _), _) =>
      ReportKeeps(c, turn);
    case (AtLive(_), _) =>
      ReportKeeps(c, turn);
    case _ =>
  }

  lemma {:induction false} RunKeeps(c: Config, schedule: seq<Turn>)
    requires Inv(c)
    ensures Inv(Run(c, schedule))
    ensures c.byte <= Run(c, schedule).byte
    decreases schedule
  {
    if schedule != [] {
      StepKeeps(c, schedule[0]);
      ByteRises(c, schedule[0]);
      RunKeeps(Step(c, schedule[0]), schedule[1..]);
    }
  }

  lemma {:induction false} RunConcat(c: Config, a: seq<Turn>, b: seq<Turn>)
    ensures Run(c, a + b) == Run(Run(c, a), b)
    decreases a
  {
    if a == [] {
      assert a + b == b;
    } else {
      assert (a + b)[1..] == a[1..] + b;
      RunConcat(Step(c, a[0]), a[1..], b);
    }
  }

  // ---------- whole runs ----------

  /** Along every interleaving the state only moves forward; Stopped stays, and Ready is never re-entered. */
  lemma StateMovesForward(past: seq<Turn>, later: seq<Turn>, last: seq<Turn>)
    ensures var s, u, v := Run(INITIAL, past).byte, Run(INITIAL, past + later).byte, Run(INITIAL, past + later + last).byte;
      && s <= u <= v <= 3
      && (FromU8(s) == Stopped ==> FromU8(u) == Stopped)
      && (FromU8(s) == Ready && FromU8(u) != Ready ==> FromU8(v) != Ready)
  {
    RunConcat(INITIAL, past, later);
    RunConcat(INITIAL, past + later, last);
    RunKeeps(INITIAL, past);
    RunKeeps(Run(INITIAL, past), later);
    RunKeeps(Run(INITIAL, past + later), last);
  }

  /** Each `begin_drain` loses at most two exchanges, and once one has returned the byte is past Ready. */
  lemma DrainReturns(schedule: seq<Turn>, i: nat)
    requires i < |Run(INITIAL, schedule).log| && Run(INITIAL, schedule).log[i].DrainReturned?
    ensures Run(INITIAL, schedule).log[i].fails <= 2
    ensures Run(INITIAL, schedule).byte >= 2
  {
    RunKeeps(INITIAL, schedule);
    var c := Run(INITIAL, schedule);
    assert c.log[i] in c.log && EventOk(c.log, c.log[i]);
    assert Drained(c.log, |c.log|);
  }

  /** A readiness report that began after a drain returned is never OK. */
  lemma NotReadyAfterDrain(schedule: seq<Turn>, i: nat, j: nat)
    requires var log := Run(INITIAL, schedule).log;
      && i < |log| && j < |log| && log[i].DrainReturned?
      && log[j].Reported? && !log[j].report.liveOnly && i < log[j].begun
    ensures StatusOf(Run(INITIAL, schedule).log[j].report) == ServiceUnavailable
  {
    RunKeeps(INITIAL, schedule);
    var log := Run(INITIAL, schedule).log;
    assert log[j] in log && EventOk(log, log[j]);
    assert Drained(log, log[j].begun);
  }

  /** A liveness report that began after the process was stopped is never OK. */
  lemma NotLiveAfterStop(schedule: seq<Turn>, i: nat, j: nat)
    requires var log := Run(INITIAL, schedule).log;
      && i < |log| && j < |log| && log[i].StopReturned?
      && log[j].Reported? && log[j].report.liveOnly && i < log[j].begun
    ensures StatusOf(Run(INITIAL, schedule).log[j].report) == ServiceUnavailable
  {
    RunKeeps(INITIAL, schedule);
    var log := Run(INITIAL, schedule).log;
    assert log[j] in log && EventOk(log, log[j]);
    assert HasStopped(log, log[j].begun);
  }

  // ---------- what a report answers ----------

  /** At some moment of the run, when between `lo` and `hi` calls had returned, the byte was `byte`. */
  ghost predicate ByteWas(schedule: seq<Turn>, lo: nat, hi: nat, byte: nat) {
    exists k :: 0 <= k <= |schedule| && ByteAt(schedule, k, lo, hi, byte)
  }

  ghost predicate ByteAt(schedule: seq<Turn>, k: int, lo: nat, hi: nat, byte: nat)
    requires 0 <= k <= |schedule|
  {
    var c := Run(INITIAL, schedule[..k]);
    lo <= |c.log| <= hi && c.byte == byte
  }

  /** The byte a report saw, by what it says its state was. */
  function ByteOf(state: LifecycleState): nat {
    match state case Starting => 0 case Ready => 1 case Draining => 2 case Stopped => 3
  }

  lemma ByteWasLater(schedule: seq<Turn>, turn: Turn, lo: nat, hi: nat, more: nat, byte: nat)
    requires ByteWas(schedule, lo, hi, byte) && hi <= more
    ensures ByteWas(schedule + [turn], lo, more, byte)
  {
    var k :| 0 <= k <= |schedule| && ByteAt(schedule, k, lo, hi, byte);
    assert (schedule + [turn])[..k] == schedule[..k];
    assert ByteAt(schedule + [turn], k, lo, more, byte);
  }

  lemma ByteNow(schedule: seq<Turn>, lo: nat)
    requires lo <= |Run(INITIAL, schedule).log|
    ensures var c := Run(INITIAL, schedule); ByteWas(schedule, lo, |c.log|, c.byte)
  {
    assert schedule[..|schedule|] == schedule;
    assert ByteAt(schedule, |schedule|, lo, |Run(INITIAL, schedule).log|, Run(INITIAL, schedule).byte);
  }

  /** Every report, made or in the making, has seen the byte at some moment since it began. */
  ghost predicate ReportsSaw(schedule: seq<Turn>) {
    var c := Run(INITIAL, schedule);
    && (forall t: nat :: PcOf(c, t).Probing? ==>
          ByteWas(schedule, PcOf(c, t).begun, |c.log|, ByteOf(PcOf(c, t).state)))
    && (forall j :: 0 <= j < |c.log| && c.log[j].Reported? ==>
          ByteWas(schedule, c.log[j].begun, j, ByteOf(c.log[j].report.state)))
  }

  lemma StepLog(c: Config, turn: Turn)
    ensures var d, pc := Step(c, turn), PcOf(c, turn.tid);
      && (d.log == c.log || (|d.log| == |c.log| + 1 && d.log[..|c.log|] == c.log))
      && (|d.log| > |c.log| && d.log[|c.log|].Reported? ==>
            var e := d.log[|c.log|];
            (pc.Probing? && e.begun == pc.begun && e.report.state == pc.state)
            || (pc.AtLive? && e.begun == pc.begun && e.report.state == FromU8(c.byte)))
      && (forall t: nat :: PcOf(d, t).Probing? && PcOf(d, t) != PcOf(c, t) ==>
            t == turn.tid && pc.AtReport? && PcOf(d, t) == Probing(pc.begun, FromU8(c.byte)) && d.log == c.log)
  {
  }

  lemma {:induction false} ReportsSee(schedule: seq<Turn>)
    ensures ReportsSaw(schedule)
  {
    if schedule != [] {
      var front, turn := schedule[..|schedule| - 1], schedule[|schedule| - 1];
      assert schedule == front + [turn];
      ReportsSee(front);
      RunKeeps(INITIAL, front);
      RunSnoc(INITIAL, front, turn);
      StepSees(front, turn);
    }
  }

  lemma StepSees(front: seq<Turn>, turn: Turn)
    requires ReportsSaw(front) && Inv(Run(INITIAL, front))
    requires Run(INITIAL, front + [turn]) == Step(Run(INITIAL, front), turn)
    ensures ReportsSaw(front + [turn])
  {
    var c, d := Run(INITIAL, front), Run(INITIAL, front + [turn]);
    StepLog(c, turn);
    var pc := PcOf(c, turn.tid);
    assert BegunOf(pc) <= |c.log|;
    ByteNow(front, BegunOf(pc));
    forall t: nat | PcOf(d, t).Probing?
      ensures ByteWas(front + [turn], PcOf(d, t).begun, |d.log|, ByteOf(PcOf(d, t).state))
    {
      ByteWasLater(front, turn, PcOf(d, t).begun, |c.log|, |d.log|, ByteOf(PcOf(d, t).state));
    }
    forall j | 0 <= j < |d.log| && d.log[j].Reported?
      ensures ByteWas(front + [turn], d.log[j].begun, j, ByteOf(d.log[j].report.state))
    {
      if j < |c.log| {
        assert d.log[j] == c.log[j];
        ByteWasLater(front, turn, c.log[j].begun, j, j, ByteOf(c.log[j].report.state));
      } else {
        ByteWasLater(front, turn, d.log[j].begun, |c.log|, j, ByteOf(d.log[j].report.state));
      }
    }
  }

  /** Every logged report is made by the two report functions. */
  ghost predicate ReportsMade(c: Config) {
    forall e <- c.log :: e.Reported? ==>
      e.report == if e.report.liveOnly then LiveReport(e.report.state) else FullReport(e.report.state, e.report.checks)
  }

  lemma {:induction false} ReportsAreMade(c: Config, schedule: seq<Turn>)
    requires ReportsMade(c)
    ensures ReportsMade(Run(c, schedule))
    decreases schedule
  {
    if schedule != [] {
      ReportsAreMade(Step(c, schedule[0]), schedule[1..]);
    }
  }

  /**
   * Over every interleaving: a readiness report answers OK exactly when it saw the byte at Ready, at a
   * moment between its call and its return, and every one of its probes answered; a liveness report
   * exactly when it saw the byte at anything but Stopped.
   */
  lemma ReportExactly(schedule: seq<Turn>, j: nat)
    requires j < |Run(INITIAL, schedule).log| && Run(INITIAL, schedule).log[j].Reported?
    ensures var e := Run(INITIAL, schedule).log[j];
      exists byte: nat :: byte <= 3 && ByteWas(schedule, e.begun, j, byte)
        && (StatusOf(e.report) == OK <==>
              if e.report.liveOnly then byte != 3
              else byte == 1 && forall name :: name in e.report.checks ==> e.report.checks[name])
  {
    ReportsSee(schedule);
    ReportsAreMade(INITIAL, schedule);
    var c := Run(INITIAL, schedule);
    var e := c.log[j];
    assert e in c.log;
    assert ByteWas(schedule, e.begun, j, ByteOf(e.report.state));
  }

  // ---------- a process that is ready says so ----------

  /** Nobody has begun to drain or stop the process. */
  predicate Undisturbed(schedule: seq<Turn>) {
    forall turn <- schedule :: turn.action != Begin(BeginDrain) && turn.action != Begin(MarkStopped)
  }

  ghost predicate Calm(c: Config) {
    c.byte <= 1 && forall t: nat :: !PcOf(c, t).DrainLoad? && !PcOf(c, t).DrainCas? && !PcOf(c, t).AtStop?
  }

  lemma StepCalm(c: Config, turn: Turn)
    requires Calm(c) && turn.action != Begin(BeginDrain) && turn.action != Begin(MarkStopped)
    ensures Calm(Step(c, turn))
  {
    var d := Step(c, turn);
    assert !PcOf(c, turn.tid).DrainLoad? && !PcOf(c, turn.tid).DrainCas? && !PcOf(c, turn.tid).AtStop?;
    forall t: nat ensures !PcOf(d, t).DrainLoad? && !PcOf(d, t).DrainCas? && !PcOf(d, t).AtStop? {
      assert t != turn.tid ==> PcOf(d, t) == PcOf(c, t);
    }
  }

  lemma {:induction false} RunCalm(c: Config, schedule: seq<Turn>)
    requires Calm(c) && Undisturbed(schedule)
    ensures Calm(Run(c, schedule))
    decreases schedule
  {
    if schedule != [] {
      assert schedule[0] in schedule;
      StepCalm(c, schedule[0]);
      RunCalm(Step(c, schedule[0]), schedule[1..]);
    }
  }

  ghost predicate ReadyIsSeen(c: Config) { forall e <- c.log :: e.ReadyReturned? ==> c.byte >= 1 }

  lemma {:induction false} RunSeesReady(c: Config, schedule: seq<Turn>)
    requires Inv(c) && ReadyIsSeen(c)
    ensures ReadyIsSeen(Run(c, schedule))
    decreases schedule
  {
    if schedule != [] {
      StepKeeps(c, schedule[0]);
      StepSeesReady(c, schedule[0]);
      RunSeesReady(Step(c, schedule[0]), schedule[1..]);
    }
  }

  lemma StepSeesReady(c: Config, turn: Turn)
    requires Inv(c) && ReadyIsSeen(c)
    ensures ReadyIsSeen(Step(c, turn))
  {
    ByteRises(c, turn);
  }

  /**
   * As long as nobody drains or stops the process, a readiness report begun after `mark_ready` returned
   * answers OK exactly when every probe answered.
   */
  lemma ReadyAfterMarkReady(schedule: seq<Turn>, i: nat, j: nat)
    requires Undisturbed(schedule)
    requires var log := Run(INITIAL, schedule).log;
      && i < |log| && j < |log| && log[i].ReadyReturned?
      && log[j].Reported? && !log[j].report.liveOnly && i < log[j].begun
    ensures var report := Run(INITIAL, schedule).log[j].report;
      StatusOf(report) == OK <==> forall name :: name in report.checks ==> report.checks[name]
  {
    ReportExactly(schedule, j);
    var log := Run(INITIAL, schedule).log;
    var e := log[j];
    var byte: nat :| byte <= 3 && ByteWas(schedule, e.begun, j, byte)
      && (StatusOf(e.report) == OK <==> byte == 1 && forall name :: name in e.report.checks ==> e.report.checks[name]);
    var k :| 0 <= k <= |schedule| && ByteAt(schedule, k, e.begun, j, byte);
    var past := schedule[..k];
    var c := Run(INITIAL, past);
    assert schedule == past + schedule[k..];
    RunConcat(INITIAL, past, schedule[k..]);
    LogOnlyGrows(c, schedule[k..]);
    assert c.log[i] == log[i] && c.log[i] in c.log;
    RunSeesReady(INITIAL, past);
    RunCalm(INITIAL, past);
  }

  // ---------- the retry loop is wait-free ----------

  /** How many own steps a drain call still needs at most. */
  function StepsLeft(pc: Pc): int {
    match pc
    case DrainLoad(_, f) => 5 - 2 * f
    case DrainCas(_, _, f) => 4 - 2 * f
    case _ => 0
  }

  function OwnSteps(schedule: seq<Turn>, t: nat): nat {
    if schedule == [] then 0
    else (if schedule[0] == Turn(t, Go) then 1 else 0) + OwnSteps(schedule[1..], t)
  }

  ghost predicate ReturnedSince(c: Config, n: nat, t: nat, begun: nat) {
    exists i :: n <= i < |c.log| && c.log[i].DrainReturned? && c.log[i].tid == t && c.log[i].begun == begun
  }

  /** The drain call of a thread, while it is in flight. */
  ghost predicate InDrain(c: Config, t: nat, begun: nat) {
    var pc := PcOf(c, t);
    (pc.DrainLoad? || pc.DrainCas?) && pc.begun == begun
  }

  lemma DrainStep(c: Config, turn: Turn, t: nat, begun: nat)
    requires Inv(c) && InDrain(c, t, begun)
    ensures c.log <= Step(c, turn).log
    ensures turn != Turn(t, Go) ==> PcOf(Step(c, turn), t) == PcOf(c, t)
    ensures turn == Turn(t, Go) ==>
      || (Step(c, turn).log != c.log && ReturnedSince(Step(c, turn), |c.log|, t, begun))
      || (InDrain(Step(c, turn), t, begun) && 0 < StepsLeft(PcOf(Step(c, turn), t)) < StepsLeft(PcOf(c, t)))
  {
    assert PcOk(c, PcOf(c, t));
    var d := Step(c, turn);
    if turn == Turn(t, Go) && d.log != c.log {
      assert d.log[|c.log|].DrainReturned? && d.log[|c.log|].begun == begun && d.log[|c.log|].tid == t;
    }
  }

  lemma {:induction false} LogOnlyGrows(c: Config, schedule: seq<Turn>)
    ensures c.log <= Run(c, schedule).log
    decreases schedule
  {
    if schedule != [] {
      LogOnlyGrows(Step(c, schedule[0]), schedule[1..]);
    }
  }

  /** However the others are scheduled, five steps of its own bring a drain call to its return. */
  lemma {:induction false} DrainIsWaitFree(c: Config, schedule: seq<Turn>, t: nat, begun: nat)
    requires Inv(c) && InDrain(c, t, begun) && OwnSteps(schedule, t) >= StepsLeft(PcOf(c, t))
    ensures StepsLeft(PcOf(c, t)) <= 5
    ensures ReturnedSince(Run(c, schedule), |c.log|, t, begun)
    decreases schedule
  {
    assert PcOk(c, PcOf(c, t));
    assert StepsLeft(PcOf(c, t)) > 0;
    if schedule != [] {
      var d := Step(c, schedule[0]);
      StepKeeps(c, schedule[0]);
      DrainStep(c, schedule[0], t, begun);
      LogOnlyGrows(d, schedule[1..]);
      if schedule[0] == Turn(t, Go) && d.log != c.log {
        var i :| |c.log| <= i < |d.log| && d.log[i].DrainReturned? && d.log[i].tid == t && d.log[i].begun == begun;
        assert Run(c, schedule).log[i] == d.log[i];
      } else {
        DrainIsWaitFree(d, schedule[1..], t, begun);
        var r := Run(c, schedule);
        var i :| |d.log| <= i < |r.log| && r.log[i].DrainReturned? && r.log[i].tid == t && r.log[i].begun == begun;
      }
    }
  }

  /**
   * The guarantee is about when a report begins: one that read Ready before a drain
   * may still answer OK after the drain has returned.
   */
  lemma StaleReportWitness() returns (schedule: seq<Turn>)
    ensures var log := Run(INITIAL, schedule).log;
      && |log| == 3 && log[1].DrainReturned? && log[2].Reported? && !log[2].report.liveOnly
      && log[2].begun <= 1 && StatusOf(log[2].report) == OK
  {
    var checks: map<string, bool> := map[];
    var c0 := INITIAL;
    var t1, t2 := Turn(0, Begin(MarkReady)), Turn(0, Go);
    var c2 := Step(Step(c0, t1), t2);
    assert c2 == Config(1, map[0 := Idle], [ReadyReturned(0)]);
    var t3, t4 := Turn(1, Begin(Report)), Turn(1, Go);
    var c4 := Step(Step(c2, t3), t4);
    assert c4 == Config(1, map[0 := Idle, 1 := Probing(1, Ready)], [ReadyReturned(0)]);
    var t5, t6, t7 := Turn(0, Begin(BeginDrain)), Turn(0, Go), Turn(0, Go);
    var c7 := Step(Step(Step(c4, t5), t6), t7);
    assert c7 == Config(2, map[0 := Idle, 1 := Probing(1, Ready)], [ReadyReturned(0), DrainReturned(0, 1, 0)]);
    var t8 := Turn(1, Probe(checks));
    var a, b, d := [t1, t2], [t3, t4], [t5, t6, t7];
    schedule := a + (b + (d + [t8]));
    RunConcat(c0, a, b + (d + [t8]));
    RunConcat(c2, b, d + [t8]);
    RunConcat(c4, d, [t8]);
    assert Run(c0, a) == c2 by { RunTwo(c0, t1, t2); }
    assert Run(c2, b) == c4 by { RunTwo(c2, t3, t4); }
    assert Run(c4, d) == c7 by {
      assert d == [t5] + [t6, t7];
      RunConcat(c4, [t5], [t6, t7]);
      RunOne(c4, t5);
      RunTwo(Step(c4, t5), t6, t7);
    }
    RunOne(c7, t8);
  }

  lemma RunOne(c: Config, t: Turn)
    ensures Run(c, [t]) == Step(c, t)
  {
    assert [t][1..] == [];
  }

  lemma RunTwo(c: Config, t: Turn, u: Turn)
    ensures Run(c, [t, u]) == Step(Step(c, t), u)
  {
    assert [t, u] == [t] + [u];
    RunConcat(c, [t], [u]);
    RunOne(c, t);
    RunOne(Step(c, t), u);
  }

  /**
   * The bound of two lost exchanges is reached: a drain that reads Starting loses to `mark_ready`,
   * reads Ready, loses to another drain, and returns.
   */
  lemma TwoLostExchanges() returns (schedule: seq<Turn>)
    ensures var log := Run(INITIAL, schedule).log;
      |log| == 3 && log[2].DrainReturned? && log[2].fails == 2
  {
    var go, other := Turn(0, Go), Turn(1, Go);
    var a := [Turn(0, Begin(BeginDrain)), go];
    var b := [Turn(1, Begin(MarkReady)), other];
    var d := [Turn(1, Begin(BeginDrain)), other];
    RunTwo(INITIAL, a[0], a[1]);
    var c1 := Run(INITIAL, a);
    assert c1 == Config(0, map[0 := DrainCas(0, 0, 0)], []);
    RunTwo(c1, b[0], b[1]);
    var c2 := Run(c1, b);
    assert c2 == Config(1, map[0 := DrainCas(0, 0, 0), 1 := Idle], [ReadyReturned(1)]);
    RunTwo(c2, go, go);
    var c3 := Run(c2, [go, go]);
    assert c3 == Config(1, map[0 := DrainCas(0, 1, 1), 1 := Idle], [ReadyReturned(1)]);
    RunTwo(c3, d[0], d[1]);
    var c4 := Run(c3, d);
    assert c4 == Config(1, map[0 := DrainCas(0, 1, 1), 1 := DrainCas(1, 1, 0)], [ReadyReturned(1)]);
    RunTwo(c4, other, go);
    var c5 := Run(c4, [other, go]);
    assert c5 == Config(2, map[0 := DrainLoad(0, 2), 1 := Idle], [ReadyReturned(1), DrainReturned(1, 1, 0)]);
    RunOne(c5, go);
    schedule := a + (b + ([go, go] + (d + ([other, go] + [go]))));
    RunConcat(INITIAL, a, b + ([go, go] + (d + ([other, go] + [go]))));
    RunConcat(c1, b, [go, go] + (d + ([other, go] + [go])));
    RunConcat(c2, [go, go], d + ([other, go] + [go]));
    RunConcat(c3, d, [other, go] + [go]);
    RunConcat(c4, [other, go], [go]);
  }

  // ---------- the source's own loop, with interference between its atomic steps ----------

  lemma RunSnoc(c: Config, schedule: seq<Turn>, turn: Turn)
    ensures Run(c, schedule + [turn]) == Step(Run(c, schedule), turn)
  {
    RunConcat(c, schedule, [turn]);
    RunOne(Run(c, schedule), turn);
  }

  lemma FreshThread(threads: set<nat>) returns (u: nat)
    ensures u !in threads && forall t <- threads :: t < u
  {
    if threads == {} {
      u := 0;
    } else {
      var t :| t in threads;
      var v := FreshThread(threads - {t});
      u := if t < v then v else t + 1;
      assert forall x <- threads :: x == t || x in threads - {t};
    }
  }

  /** Other threads can take the byte to any later state, without touching thread `t`. */
  lemma Raise(c: Config, t: nat, next: nat) returns (turns: seq<Turn>)
    requires c.byte <= next <= 3
    ensures Run(c, turns).byte == next && PcOf(Run(c, turns), t) == PcOf(c, t)
  {
    var u := FreshThread(c.pcs.Keys + {t});
    assert u != t && PcOf(c, u) == Idle;
    if next == c.byte {
      turns := [];
    } else {
      var op := if next == 1 then MarkReady else if next == 2 then BeginDrain else MarkStopped;
      var d := Step(c, Turn(u, Begin(op)));
      var e := Step(d, Turn(u, Go));
      RunTwo(c, Turn(u, Begin(op)), Turn(u, Go));
      turns := [Turn(u, Begin(op)), Turn(u, Go)];
      if next == 2 {
        RunConcat(c, turns, [Turn(u, Go)]);
        RunOne(e, Turn(u, Go));
        turns := turns + [Turn(u, Go)];
      }
    }
  }

  /** A drain's own steps: what they do to its thread, the byte and the log. */
  lemma LoadTurn(c: Config, t: nat)
    requires Inv(c) && PcOf(c, t).DrainLoad?
    ensures var d, pc := Step(c, Turn(t, Go)), PcOf(c, t);
      && Inv(d) && pc.fails <= 2 && d.byte == c.byte
      && if c.byte == 2 || c.byte == 3 then d.log == c.log + [DrainReturned(t, pc.begun, pc.fails)]
         else PcOf(d, t) == DrainCas(pc.begun, c.byte, pc.fails) && d.log == c.log
  {
    assert PcOk(c, PcOf(c, t));
    StepKeeps(c, Turn(t, Go));
  }

  lemma CasTurn(c: Config, t: nat)
    requires Inv(c) && PcOf(c, t).DrainCas?
    ensures var d, pc := Step(c, Turn(t, Go)), PcOf(c, t);
      && Inv(d) && pc.fails < 2
      && if c.byte == pc.current then d.byte == 2 && d.log == c.log + [DrainReturned(t, pc.begun, pc.fails)]
         else PcOf(d, t) == DrainLoad(pc.begun, pc.fails + 1) && d.byte == c.byte && d.log == c.log
  {
    assert PcOk(c, PcOf(c, t));
    StepKeeps(c, Turn(t, Go));
  }

  lemma OwnTurn(c: Config, schedule: seq<Turn>, turns: seq<Turn>, t: nat)
    ensures Run(c, schedule + turns + [Turn(t, Go)]) == Step(Run(Run(c, schedule), turns), Turn(t, Go))
  {
    RunConcat(c, schedule, turns);
    RunSnoc(c, schedule + turns, Turn(t, Go));
  }

  /** The shared byte, and the step machine it is the byte of. */
  class AtomicState {
    var byte: nat
    ghost var config: Config

    ghost predicate Valid() reads this { Inv(config) && config.byte == byte }

    constructor ()
      ensures Valid() && config == INITIAL
    {
      byte := 0;
      config := INITIAL;
    }

    /** Any number of steps of other threads than `t`: by `RunKeeps` they only move the byte up. */
    method Interfere(ghost t: nat) returns (ghost turns: seq<Turn>)
      requires Valid()
      modifies this
      ensures Valid() && config == Run(old(config), turns) && PcOf(config, t) == PcOf(old(config), t)
      ensures old(config.log) <= config.log
    {
      var next: nat :| byte <= next <= 3;
      turns := Raise(config, t, next);
      RunKeeps(config, turns);
      LogOnlyGrows(config, turns);
      byte := next;
      config := Run(config, turns);
    }

    method CompareExchange(expected: nat, next: nat) returns (ok: bool)
      modifies this`byte
      ensures ok == (old(byte) == expected)
      ensures byte == if ok then next else old(byte)
    {
      ok := byte == expected;
      if ok {
        byte := next;
      }
    }

    method MarkReady(ghost t: nat)
      requires Valid() && PcOf(config, t).AtReady?
      modifies this
      ensures Valid() && config == Step(old(config), Turn(t, Go))
      ensures byte == if old(byte) == 0 then 1 else old(byte)
    {
      var _ := CompareExchange(0, 1);
      StepKeeps(config, Turn(t, Go));
      config := Step(config, Turn(t, Go));
    }

    /** The load of `begin_drain`, after any interference; `after` is the schedule so far. */
    method LoadStep(ghost t: nat, ghost start: Config, ghost schedule: seq<Turn>)
      returns (current: nat, ghost after: seq<Turn>)
      requires Valid() && config == Run(start, schedule) && PcOf(config, t).DrainLoad?
      modifies this
      ensures Valid() && config == Run(start, after) && current == byte && old(config.log) <= config.log
      ensures var pc := PcOf(old(config), t);
        if current == 2 || current == 3 then Returned(t, pc.begun, pc.fails, |old(config.log)|)
        else PcOf(config, t) == DrainCas(pc.begun, current, pc.fails)
    {
      ghost var turns := Interfere(t);
      current := byte;
      LoadTurn(config, t);
      OwnTurn(start, schedule, turns, t);
      config, after := Step(config, Turn(t, Go)), schedule + turns + [Turn(t, Go)];
    }

    /** Its compare-exchange, after any interference. */
    method CasStep(ghost t: nat, current: nat, ghost start: Config, ghost schedule: seq<Turn>)
      returns (ok: bool, ghost after: seq<Turn>)
      requires Valid() && config == Run(start, schedule)
      requires PcOf(config, t).DrainCas? && PcOf(config, t).current == current
      modifies this
      ensures Valid() && config == Run(start, after) && old(config.log) <= config.log
      ensures var pc := PcOf(old(config), t);
        && pc.fails < 2
        && if ok then byte == 2 && Returned(t, pc.begun, pc.fails, |old(config.log)|)
           else PcOf(config, t) == DrainLoad(pc.begun, pc.fails + 1)
    {
      ghost var turns := Interfere(t);
      ok := CompareExchange(current, 2);
      CasTurn(config, t);
      OwnTurn(start, schedule, turns, t);
      config, after := Step(config, Turn(t, Go)), schedule + turns + [Turn(t, Go)];
    }

    /** The last event is the return of this drain, and it came after the first `n` events. */
    ghost predicate Returned(t: nat, begun: nat, fails: nat, n: nat) reads this {
      |config.log| > n && config.log[|config.log| - 1] == DrainReturned(t, begun, fails)
    }

    /**
     * The compare-exchange loop. Whatever others do between its steps, it is a run of the step machine,
     * ending in the return of thread `t`'s call, at or past Draining, after at most two lost exchanges.
     */
    method BeginDrain(ghost t: nat) returns (fails: nat, ghost schedule: seq<Turn>)
      requires Valid() && PcOf(config, t).DrainLoad? && PcOf(config, t).fails == 0
      modifies this
      ensures Valid() && config == Run(old(config), schedule)
      ensures old(config.log) <= config.log && Returned(t, PcOf(old(config), t).begun, fails, |old(config.log)|)
      ensures byte >= 2 && old(byte) <= byte && fails <= 2
    {
      fails, schedule := 0, [];
      ghost var start := config;
      while true
        invariant Valid() && config == Run(start, schedule) && fails <= 2 && start.log <= config.log
        invariant PcOf(config, t) == DrainLoad(PcOf(start, t).begun, fails)
        decreases 2 - fails
      {
        var current, ok;
        current, schedule := LoadStep(t, start, schedule);
        if current == 2 || current == 3 {
          break;
        }
        ok, schedule := CasStep(t, current, start, schedule);
        if ok {
          break;
        }
        fails := fails + 1;
      }
      RunKeeps(start, schedule);
    }

    method MarkStopped(ghost t: nat)
      requires Valid() && PcOf(config, t).AtStop?
      modifies this
      ensures Valid() && config == Step(old(config), Turn(t, Go))
      ensures byte == 3
    {
      byte := 3;
      StepKeeps(config, Turn(t, Go));
      config := Step(config, Turn(t, Go));
    }
  }
}

/** Where the health endpoints are mounted, after `src/application/health.rs`. */
module HealthPrefix {

  function TrimEndSlashes(s: string): string {
    if s != [] && s[|s| - 1] == '/' then TrimEndSlashes(s[..|s| - 1]) else s
  }

  function Normalised(prefix: string): string {
    var p := TrimEndSlashes(prefix);
    if p != [] && p[0] == '/' then p else "/" + p
  }

  /** `Health::new`: pop trailing slashes, then make sure of a leading one. */
  method Normalise(given: string) returns (prefix: string)
    ensures prefix == Normalised(given)
  {
    prefix := given;
    while prefix != [] && prefix[|prefix| - 1] == '/'
      invariant TrimEndSlashes(prefix) == TrimEndSlashes(given)
      decreases |prefix|
    {
      prefix := prefix[..|prefix| - 1];
    }
    if !(prefix != [] && prefix[0] == '/') {
      prefix := "/" + prefix;
    }
  }

  predicate Covers(prefix: string, path: string) {
    path == prefix || (|path| > |prefix| && prefix <= path && path[|prefix|] == '/')
  }

  lemma {:induction false} TrimmedEnd(s: string)
    ensures TrimEndSlashes(s) <= s
    ensures var t := TrimEndSlashes(s); t != [] ==> t[|t| - 1] != '/'
    ensures TrimEndSlashes(s) == [] <==> forall c <- s :: c == '/'
    ensures TrimEndSlashes(s + "/") == TrimEndSlashes(s)
  {
    assert (s + "/")[..|s|] == s;
    if s != [] && s[|s| - 1] == '/' {
      TrimmedEnd(s[..|s| - 1]);
      var front := s[..|s| - 1];
      assert s == front + "/";
      if forall c <- front :: c == '/' {
        forall i | 0 <= i < |s| ensures s[i] == '/' {
          if i < |front| {
            assert front[i] in front;
          }
        }
      } else {
        var c :| c in front && c != '/';
        assert c in s;
      }
    } else if s != [] {
      assert s[|s| - 1] in s;
    }
  }

  /**
   * A normalised prefix starts with a slash, and normalising again changes nothing. It ends
   * without a slash, as documented, exactly when the given text holds anything but slashes.
   */
  lemma NormalisedShape(given: string)
    ensures Normalised(given) != [] && Normalised(given)[0] == '/'
    ensures Normalised(Normalised(given)) == Normalised(given)
    ensures Normalised(given)[|Normalised(given)| - 1] != '/' <==> exists c :: c in given && c != '/'
    ensures Normalised(given + "/") == Normalised(given)
    ensures given != [] && given[0] != '/' ==> Normalised("/" + given) == Normalised(given)
  {
    TrimmedEnd(given);
    var p := Normalised(given);
    TrimmedEnd(p);
    if TrimEndSlashes(given) == [] {
      assert p == "/" && TrimEndSlashes(p[..0]) == [];
    }
    if given != [] && given[0] != '/' {
      TrimEndPrefixed(given);
    }
  }

  /** From `n` on the text is all slashes, and just before it is none. */
  ghost predicate EndsAt(given: string, n: nat) {
    n <= |given| && (forall i :: n <= i < |given| ==> given[i] == '/') && (n > 0 ==> given[n - 1] != '/')
  }

  /** The prefix is the text up to its trailing slashes, behind one slash if there is none in front. */
  lemma NormalisedIs(given: string, n: nat)
    requires EndsAt(given, n)
    ensures Normalised(given) == if n > 0 && given[0] == '/' then given[..n] else "/" + given[..n]
  {
    TrimmedTail(given);
  }

  lemma {:induction false} TrimmedTail(s: string)
    ensures var n := |TrimEndSlashes(s)|;
      && n <= |s| && TrimEndSlashes(s) == s[..n] && (n > 0 ==> s[n - 1] != '/')
      && forall i :: n <= i < |s| ==> s[i] == '/'
  {
    if s != [] && s[|s| - 1] == '/' {
      TrimmedTail(s[..|s| - 1]);
    }
  }

  lemma {:induction false} TrimEndPrefixed(s: string)
    requires s != [] && s[0] != '/'
    ensures TrimEndSlashes("/" + s) == "/" + TrimEndSlashes(s)
  {
    if s[|s| - 1] == '/' {
      assert ("/" + s)[..|s|] == "/" + s[..|s| - 1];
      TrimEndPrefixed(s[..|s| - 1]);
    }
  }

  /** The prefix covers itself and what is below it, and so every mounted endpoint; nothing else. */
  lemma CoversExactly(given: string, path: string)
    ensures Covers(Normalised(given), path) <==>
      path == Normalised(given) || exists rest :: path == Normalised(given) + "/" + rest
    ensures Covers(Normalised(given), Normalised(given))
    ensures Covers(Normalised(given), Normalised(given) + "/live")
    ensures Covers(Normalised(given), Normalised(given) + "/ready")
  {
    var p := Normalised(given);
    if Covers(p, path) && path != p {
      assert path == p + "/" + path[|p| + 1..];
    }
    if exists rest :: path == p + "/" + rest {
      var rest :| path == p + "/" + rest;
      assert path[|p|] == '/';
    }
    assert (p + "/live")[|p|] == '/' && (p + "/ready")[|p|] == '/';
  }
}
