/** The health a local fault detector passes on to the global one: a flag and the wish to report it. */
module Reporter {
  import opened Wrappers
  import opened Protocol

  datatype ReporterState = ReporterState(healthy: bool, changed: bool)

  function WithHealth(s: ReporterState, healthy: bool): ReporterState {
    if s.healthy != healthy then ReporterState(healthy, true) else s
  }

  /** The registration or membership message that carries the current health; building it clears the wish. */
  function ReportOf(s: ReporterState, lfd: string, replica: string, register: bool): Message {
    if register then Register(lfd, GFD, replica, s.healthy) else Membership(lfd, GFD, replica, s.healthy)
  }

  predicate IsHeartbeatFor(m: Message, lfd: string) {
    m.Heartbeat? && m.source == GFD && m.destination == lfd
  }

  class GfdReporter {
    const lfdId: string
    const replicaId: string
    var healthy: bool
    var changed: bool

    constructor (lfdId: string, replicaId: string)
      ensures this.lfdId == lfdId && this.replicaId == replicaId && State() == ReporterState(false, false)
    {
      this.lfdId, this.replicaId, healthy, changed := lfdId, replicaId, false, false;
    }

    function State(): ReporterState
      reads this
    {
      ReporterState(healthy, changed)
    }

    method SetHealth(health: bool)
      modifies this
      ensures State() == WithHealth(old(State()), health)
      ensures healthy == health && (changed <==> old(changed) || old(healthy) != health)
    {
      if healthy != health {
        healthy := health;
        changed := true;
      }
    }

    /** Clears the wish to report and captures the health in one go, before the write is awaited. */
    method TakeReport(register: bool) returns (report: Message)
      modifies this`changed
      ensures report == ReportOf(old(State()), lfdId, replicaId, register)
      ensures report == if register then Register(lfdId, GFD, replicaId, old(healthy))
                        else Membership(lfdId, GFD, replicaId, old(healthy))
      ensures State() == ReporterState(old(healthy), false)
    {
      changed := false;
      report := if register then Register(lfdId, GFD, replicaId, healthy)
                else Membership(lfdId, GFD, replicaId, healthy);
    }

    /** Answers heartbeats in order, each with its own number, up to the first message that is none for this
        reporter. */
    method AnswerHeartbeats(heartbeats: seq<Message>) returns (acks: seq<Message>)
      ensures |acks| <= |heartbeats| && (|acks| < |heartbeats| ==> !IsHeartbeatFor(heartbeats[|acks|], lfdId))
      ensures forall i :: 0 <= i < |acks| ==>
                IsHeartbeatFor(heartbeats[i], lfdId) && acks[i] == HeartbeatAck(lfdId, GFD, heartbeats[i].count)
      ensures forall i :: 0 <= i < |acks| ==>
                heartbeats[i].Heartbeat? && heartbeats[i] == Heartbeat(GFD, lfdId, heartbeats[i].count)
      ensures |acks| < |heartbeats| && heartbeats[|acks|].Heartbeat? ==>
                heartbeats[|acks|] != Heartbeat(GFD, lfdId, heartbeats[|acks|].count)
    {
      acks := [];
      while |acks| < |heartbeats|
        invariant |acks| <= |heartbeats|
        invariant forall i :: 0 <= i < |acks| ==>
                    IsHeartbeatFor(heartbeats[i], lfdId) && acks[i] == HeartbeatAck(lfdId, GFD, heartbeats[i].count)
        decreases |heartbeats| - |acks|
      {
        var heartbeat := heartbeats[|acks|];
        if !IsHeartbeatFor(heartbeat, lfdId) {
          return;
        }
        acks := acks + [HeartbeatAck(heartbeat.destination, heartbeat.source, heartbeat.count)];
      }
    }
  }

  /** The captured message is what the builder makes, whose checks configured names pass. */
  lemma ReportBuilds(s: ReporterState, lfd: string, replica: string, register: bool)
    requires NonBlank(lfd) && NonBlank(replica)
    ensures BuildMembership(lfd, replica, s.healthy, register) == Ok(ReportOf(s, lfd, replica, register))
  {
    assert NonBlank(GFD) by {
      assert !IsSpace(GFD[0]);
    }
  }
}

/** The local fault detector: one heartbeat at a time to its replica, and the transitions of its health. */
module Lfd {
  import opened Wrappers
  import opened Protocol
  import opened Backoff
  import opened Reporter

  datatype LfdState = LfdState(count: nat, healthy: bool, everHealthy: bool, failures: nat)

  const INITIAL := LfdState(1, false, false, 0)

  /** How far one heartbeat gets. */
  datatype Attempt =
    | ConnectFailed
    | WriteFailed(onWire: bool) // the bytes may have been handed over before the write fails
    | Unanswered                // written, but then a timeout, an end of file or a malformed message
    | Answer(message: Message)

  predicate Written(a: Attempt) {
    a.Unanswered? || a.Answer?
  }

  predicate ValidAck(ack: Message, lfd: string, replica: string, sent: nat) {
    ack.HeartbeatAck? && ack.source == replica && ack.destination == lfd && ack.count == sent
  }

  predicate Succeeds(s: LfdState, lfd: string, replica: string, a: Attempt) {
    a.Answer? && ValidAck(a.message, lfd, replica, s.count)
  }

  /** An attempt succeeds exactly if it is answered by what the replica builds from the heartbeat sent. */
  lemma OnlyItsAckSucceeds(s: LfdState, lfd: string, replica: string, a: Attempt)
    requires NonBlank(lfd) && NonBlank(replica) && s.count > 0
    ensures Succeeds(s, lfd, replica, a) <==>
              a.Answer? && BuildHeartbeatAck(Heartbeat(lfd, replica, s.count)) == Ok(a.message)
  {
    AckRoundTrip(lfd, replica, s.count);
  }

  /** The number advances when the heartbeat is written, whatever follows. */
  function Counted(s: LfdState, a: Attempt): LfdState {
    if Written(a) then s.(count := s.count + 1) else s
  }

  function Beat(s: LfdState, lfd: string, replica: string, a: Attempt): LfdState {
    if Succeeds(s, lfd, replica, a) then Counted(s, a).(healthy := true, everHealthy := true, failures := 0)
    else Counted(s, a).(healthy := false, failures := s.failures + 1)
  }

  /** The delay chosen after the attempt. */
  function DelayAfter(s: LfdState, lfd: string, replica: string, a: Attempt, period: real, initial: real,
                      maximum: real): real {
    if Succeeds(s, lfd, replica, a) then period else Delay(initial, maximum, s.failures)
  }

  /** All attempts of a run, one after the other. */
  function Beats(s: LfdState, lfd: string, replica: string, attempts: seq<Attempt>): LfdState {
    if attempts == [] then s
    else Beat(Beats(s, lfd, replica, attempts[..|attempts| - 1]), lfd, replica, attempts[|attempts| - 1])
  }

  /** The delays chosen along the way. */
  function Delays(s: LfdState, lfd: string, replica: string, attempts: seq<Attempt>, period: real, initial: real,
                  maximum: real)
    : (delays: seq<real>)
    ensures |delays| == |attempts|
  {
    if attempts == [] then []
    else
      var n := |attempts| - 1;
      Delays(s, lfd, replica, attempts[..n], period, initial, maximum)
      + [DelayAfter(Beats(s, lfd, replica, attempts[..n]), lfd, replica, attempts[n], period, initial, maximum)]
  }

  datatype Stop = Never | InAttempt | InWait

  /** One turn of the loop, and whether a stop is requested during its attempt or its wait. */
  datatype Round = Round(attempt: Attempt, stop: Stop)

  function Attempts(script: seq<Round>): (attempts: seq<Attempt>)
    ensures |attempts| == |script|
  {
    if script == [] then [] else Attempts(script[..|script| - 1]) + [script[|script| - 1].attempt]
  }

  /** All that a run leaves behind: the state, the reporter's state, the delays, and the logged deaths and
      recoveries. */
  datatype Record = Record(state: LfdState, reporter: ReporterState, delays: seq<real>, died: int, recovered: int)

  class LfdApp {
    const lfdId: string
    const replicaId: string
    const period: real
    const backoff: ExponentialBackoff
    const reporter: GfdReporter
    var heartbeatCount: nat
    var healthy: bool
    var everHealthy: bool
    ghost var died: nat
    ghost var recovered: nat

    constructor (lfdId: string, replicaId: string, period: real, backoff: ExponentialBackoff, reporter: GfdReporter)
      requires backoff.attempt == 0 && backoff.Valid()
      ensures this.lfdId == lfdId && this.replicaId == replicaId && this.period == period
      ensures this.backoff == backoff && this.reporter == reporter
      ensures State() == INITIAL && died == recovered == 0 && Configured()
    {
      this.lfdId, this.replicaId, this.period := lfdId, replicaId, period;
      this.backoff, this.reporter := backoff, reporter;
      heartbeatCount, healthy, everHealthy, died, recovered := 1, false, false, 0, 0;
    }

    ghost function State(): LfdState
      reads this, backoff
    {
      LfdState(heartbeatCount, healthy, everHealthy, backoff.attempt)
    }

    /** The reporter knows the health, every death was a loss of health and every recovery its return. */
    ghost predicate Mirrored()
      reads this, reporter
    {
      && reporter.healthy == healthy
      && (healthy ==> everHealthy)
      && died == recovered + if everHealthy && !healthy then 1 else 0
    }

    ghost predicate Configured()
      reads this, backoff
    {
      backoff.Valid()
    }

    /** Returns whether the heartbeat was acknowledged; the exception of the other cases is left to the caller. */
    method HeartbeatOnce(attempt: Attempt) returns (ok: bool)
      requires Configured() && Mirrored()
      modifies this, backoff, reporter
      ensures ok == Succeeds(old(State()), lfdId, replicaId, attempt)
      ensures State() == if ok then Beat(old(State()), lfdId, replicaId, attempt) else Counted(old(State()), attempt)
      ensures reporter.State() == if ok then WithHealth(old(reporter.State()), true) else old(reporter.State())
      ensures Configured() && Mirrored() && died == old(died)
      ensures recovered == old(recovered) + if ok && old(everHealthy && !healthy) then 1 else 0
    {
      if attempt.ConnectFailed? {
        return false;
      }
      var sentCount := heartbeatCount;
      if attempt.WriteFailed? {
        return false;
      }
      heartbeatCount := heartbeatCount + 1;
      if attempt.Unanswered? || !ValidAck(attempt.message, lfdId, replicaId, sentCount) {
        return false;
      }
      var recovering := everHealthy && !healthy;
      var changed := !healthy;
      healthy := true;
      if changed {
        reporter.SetHealth(true);
      }
      everHealthy := true;
      backoff.Reset();
      if recovering {
        recovered := recovered + 1;
      }
      return true;
    }

    method MarkFailed()
      requires Mirrored()
      modifies this`healthy, this`died, reporter
      ensures State() == old(State()).(healthy := false)
      ensures reporter.State() == WithHealth(old(reporter.State()), false)
      ensures Mirrored() && died == old(died) + if old(healthy) then 1 else 0
    {
      var wasHealthy := healthy;
      healthy := false;
      if wasHealthy {
        reporter.SetHealth(false);
        died := died + 1;
      }
    }

    /** One attempt and what follows from it, unless it fails while a stop is requested. The counters and the delays of
        the attempts before it only serve the contract. */
    method ActOn(round: Round, ghost delays: seq<real>, ghost died0: nat, ghost recovered0: nat)
      returns (acted: bool, delay: real)
      requires Configured() && Mirrored()
      modifies this, backoff, reporter
      ensures acted <==> !round.stop.InAttempt? || Succeeds(old(State()), lfdId, replicaId, round.attempt)
      ensures acted ==>
                Recorded(delays + [delay], died0, recovered0)
                == Extended(old(Recorded(delays, died0, recovered0)), round.attempt)
      ensures !acted ==>
                Recorded(delays, died0, recovered0)
                == old(Recorded(delays, died0, recovered0)).(state := Counted(old(State()), round.attempt))
      ensures Configured() && Mirrored()
    {
      hide Delay;
      NotifyOne(reporter.State(), true);
      NotifyOne(reporter.State(), false);
      delay := period;
      var ok := HeartbeatOnce(round.attempt);
      if !ok {
        if round.stop.InAttempt? {
          return false, delay;
        }
        MarkFailed();
        delay := backoff.NextDelay();
      }
      return true, delay;
    }

    /** What the object has recorded since the counters stood at `died0` and `recovered0`. */
    ghost function Recorded(delays: seq<real>, died0: nat, recovered0: nat): Record
      reads this, backoff, reporter
    {
      Record(State(), reporter.State(), delays, died - died0, recovered - recovered0)
    }

    /** What it should have recorded after these attempts. */
    ghost function Expected(s: LfdState, r: ReporterState, attempts: seq<Attempt>): Record {
      Record(Beats(s, lfdId, replicaId, attempts), Notify(r, Callbacks(s, lfdId, replicaId, attempts)),
             Delays(s, lfdId, replicaId, attempts, period, backoff.initial, backoff.maximum),
             Deaths(s, lfdId, replicaId, attempts), Recoveries(s, lfdId, replicaId, attempts))
    }

    /** The record after one more attempt. */
    ghost function Extended(record: Record, a: Attempt): Record {
      var s := record.state;
      Record(Beat(s, lfdId, replicaId, a), Notify(record.reporter, CallbackOf(s, lfdId, replicaId, a)),
             record.delays + [DelayAfter(s, lfdId, replicaId, a, period, backoff.initial, backoff.maximum)],
             record.died + DeathOf(s, lfdId, replicaId, a), record.recovered + RecoveryOf(s, lfdId, replicaId, a))
    }

    lemma ExpectedGrows(s: LfdState, r: ReporterState, script: seq<Round>, i: nat)
      requires i < |script|
      ensures Expected(s, r, Attempts(script[..i + 1]))
              == Extended(Expected(s, r, Attempts(script[..i])), script[i].attempt)
    {
      assert script[..i + 1][..i] == script[..i];
      var attempts, a := Attempts(script[..i]), script[i].attempt;
      assert (attempts + [a])[..|attempts|] == attempts;
      var more := CallbackOf(Beats(s, lfdId, replicaId, attempts), lfdId, replicaId, a);
      NotifyAppend(r, Callbacks(s, lfdId, replicaId, attempts), more);
    }

    /** The heartbeat loop over a script of rounds. It runs `rounds` of them in full and goes on until a stop: one in
        the last of them, or one during a failing attempt, which then is not acted upon. */
    method Run(script: seq<Round>) returns (delays: seq<real>, rounds: nat)
      requires Configured() && Mirrored()
      modifies this, backoff, reporter
      ensures rounds <= |script| && forall i :: 0 <= i < rounds - 1 ==> script[i].stop.Never?
      ensures var expected := Expected(old(State()), old(reporter.State()), Attempts(script[..rounds]));
              var recorded := Recorded(delays, old(died), old(recovered));
              if rounds == |script| || (rounds > 0 && !script[rounds - 1].stop.Never?) then recorded == expected
              else && script[rounds].stop.InAttempt?
                   && !Succeeds(expected.state, lfdId, replicaId, script[rounds].attempt)
                   && recorded == expected.(state := Counted(expected.state, script[rounds].attempt))
      ensures Configured() && Mirrored()
    {
      hide Expected, Extended;
      ghost var s0, r0 := State(), reporter.State();
      delays, rounds := [], 0;
      NothingExpected(s0, r0);
      assert script[..0] == [];
      while rounds < |script|
        invariant rounds <= |script| && forall i :: 0 <= i < rounds ==> script[i].stop.Never?
        invariant Configured() && Mirrored()
        invariant Recorded(delays, old(died), old(recovered)) == Expected(s0, r0, Attempts(script[..rounds]))
      {
        ExpectedGrows(s0, r0, script, rounds);
        var acted, delay := ActOn(script[rounds], delays, old(died), old(recovered));
        if !acted {
          return;
        }
        delays := delays + [delay];
        rounds := rounds + 1;
        if !script[rounds - 1].stop.Never? {
          return;
        }
      }
    }

    lemma NothingExpected(s: LfdState, r: ReporterState)
      ensures Expected(s, r, Attempts([])) == Record(s, r, [], 0, 0)
    {
    }
  }

  lemma NotifyAppend(r: ReporterState, callbacks: seq<bool>, more: seq<bool>)
    requires |more| <= 1
    ensures Notify(r, callbacks + more) == Notify(Notify(r, callbacks), more)
  {
    if more == [] {
      assert callbacks + more == callbacks;
    } else {
      NotifySnoc(r, callbacks, more[0]);
      NotifyOne(Notify(r, callbacks), more[0]);
      assert more == [more[0]];
    }
  }

  /** How many attempts have failed in a row at the end of a run. */
  function FailureStreak(s: LfdState, lfd: string, replica: string, attempts: seq<Attempt>): nat {
    if attempts == [] then 0
    else
      var n := |attempts| - 1;
      if Succeeds(Beats(s, lfd, replica, attempts[..n]), lfd, replica, attempts[n]) then 0
      else 1 + FailureStreak(s, lfd, replica, attempts[..n])
  }

  lemma {:induction false} BeatsCountFailures(lfd: string, replica: string, attempts: seq<Attempt>)
    ensures Beats(INITIAL, lfd, replica, attempts).failures == FailureStreak(INITIAL, lfd, replica, attempts)
  {
    if attempts != [] {
      BeatsCountFailures(lfd, replica, attempts[..|attempts| - 1]);
    }
  }

  lemma {:induction false} DelaysFollowStreak(lfd: string, replica: string, attempts: seq<Attempt>, period: real,
                                              initial: real, maximum: real, i: nat)
    requires i < |attempts|
    ensures Delays(INITIAL, lfd, replica, attempts, period, initial, maximum)[i]
            == if Succeeds(Beats(INITIAL, lfd, replica, attempts[..i]), lfd, replica, attempts[i]) then period
               else Delay(initial, maximum, FailureStreak(INITIAL, lfd, replica, attempts[..i]))
    decreases |attempts|
  {
    hide Delay, Succeeds, Beat;
    var n := |attempts| - 1;
    if i < n {
      DelaysFollowStreak(lfd, replica, attempts[..n], period, initial, maximum, i);
      assert attempts[..n][..i] == attempts[..i];
    } else {
      BeatsCountFailures(lfd, replica, attempts[..n]);
    }
  }

  /** Attempt `i` of a run is answered by the replica's acknowledgement of the heartbeat it sent. */
  predicate Answered(lfd: string, replica: string, attempts: seq<Attempt>, i: nat)
    requires i < |attempts|
  {
    attempts[i] == Answer(HeartbeatAck(replica, lfd, Beats(INITIAL, lfd, replica, attempts[..i]).count))
  }

  /** Every delay of a run is the regular period after an answered heartbeat; after a failure it is the initial one if
      the attempt before succeeded or there was none, and otherwise twice the delay before it, up to the maximum. */
  lemma BackoffFollowsFailures(lfd: string, replica: string, attempts: seq<Attempt>, period: real, initial: real,
                               maximum: real, i: nat)
    requires i < |attempts|
    ensures var delays := Delays(INITIAL, lfd, replica, attempts, period, initial, maximum);
            delays[i] ==
              if Answered(lfd, replica, attempts, i) then period
              else if i == 0 || Answered(lfd, replica, attempts, i - 1) then initial
              else if 2.0 * delays[i - 1] <= maximum then 2.0 * delays[i - 1]
              else maximum
  {
    hide Delays, Beat;
    DelaysFollowStreak(lfd, replica, attempts, period, initial, maximum, i);
    if i > 0 {
      DelaysFollowStreak(lfd, replica, attempts, period, initial, maximum, i - 1);
      assert attempts[..i][..i - 1] == attempts[..i - 1];
    }
  }

  // ----- The discipline of transitions over all runs -----

  /** The health callback of one attempt, if there is one. */
  function CallbackOf(s: LfdState, lfd: string, replica: string, a: Attempt): seq<bool> {
    var ok := Succeeds(s, lfd, replica, a);
    if ok != s.healthy then [ok] else []
  }

  function Callbacks(s: LfdState, lfd: string, replica: string, attempts: seq<Attempt>): seq<bool> {
    if attempts == [] then []
    else
      var n := |attempts| - 1;
      Callbacks(s, lfd, replica, attempts[..n])
      + CallbackOf(Beats(s, lfd, replica, attempts[..n]), lfd, replica, attempts[n])
  }

  /** Whether an attempt is logged as a death or as a recovery. */
  function DeathOf(s: LfdState, lfd: string, replica: string, a: Attempt): nat {
    if !Succeeds(s, lfd, replica, a) && s.healthy then 1 else 0
  }

  function RecoveryOf(s: LfdState, lfd: string, replica: string, a: Attempt): nat {
    if Succeeds(s, lfd, replica, a) && s.everHealthy && !s.healthy then 1 else 0
  }

  function Deaths(s: LfdState, lfd: string, replica: string, attempts: seq<Attempt>): nat {
    if attempts == [] then 0
    else
      var n := |attempts| - 1;
      var t := Beats(s, lfd, replica, attempts[..n]);
      Deaths(s, lfd, replica, attempts[..n]) + DeathOf(t, lfd, replica, attempts[n])
  }

  function Recoveries(s: LfdState, lfd: string, replica: string, attempts: seq<Attempt>): nat {
    if attempts == [] then 0
    else
      var n := |attempts| - 1;
      var t := Beats(s, lfd, replica, attempts[..n]);
      Recoveries(s, lfd, replica, attempts[..n]) + RecoveryOf(t, lfd, replica, attempts[n])
  }

  /** The heartbeat numbers whose write completed. */
  function Transmitted(s: LfdState, lfd: string, replica: string, attempts: seq<Attempt>): seq<nat> {
    if attempts == [] then []
    else
      var n := |attempts| - 1;
      Transmitted(s, lfd, replica, attempts[..n])
      + if Written(attempts[n]) then [Beats(s, lfd, replica, attempts[..n]).count] else []
  }

  /** A heartbeat number on the wire to the replica, and whether its write completed. */
  datatype Sending = Sending(number: nat, complete: bool)

  function SendingOf(s: LfdState, a: Attempt): seq<Sending> {
    if Written(a) then [Sending(s.count, true)]
    else if a.WriteFailed? && a.onWire then [Sending(s.count, false)]
    else []
  }

  function Wire(s: LfdState, lfd: string, replica: string, attempts: seq<Attempt>): seq<Sending> {
    if attempts == [] then []
    else
      var n := |attempts| - 1;
      Wire(s, lfd, replica, attempts[..n]) + SendingOf(Beats(s, lfd, replica, attempts[..n]), attempts[n])
  }

  /** The number that goes on the wire behind the first `n` sendings. */
  function NumberAfter(wire: seq<Sending>, n: nat): nat
    requires n <= |wire|
  {
    if n == 0 then 1 else wire[n - 1].number + if wire[n - 1].complete then 1 else 0
  }

  /** Numbers start at 1, each repeats its predecessor exactly if that one's write had failed, none is skipped, and
      `next` is the one to follow. */
  ghost predicate Unbroken(wire: seq<Sending>, next: nat) {
    && (forall i :: 0 <= i < |wire| ==> wire[i].number == NumberAfter(wire, i))
    && NumberAfter(wire, |wire|) == next
  }

  function Notify(s: ReporterState, callbacks: seq<bool>): ReporterState {
    if callbacks == [] then s
    else WithHealth(Notify(s, callbacks[..|callbacks| - 1]), callbacks[|callbacks| - 1])
  }

  ghost predicate Alternating(callbacks: seq<bool>) {
    forall i :: 0 <= i < |callbacks| ==> callbacks[i] == (i % 2 == 0)
  }

  ghost predicate Consecutive(numbers: seq<nat>) {
    forall i :: 0 <= i < |numbers| ==> numbers[i] == i + 1
  }

  lemma NotifySnoc(s: ReporterState, callbacks: seq<bool>, health: bool)
    ensures Notify(s, callbacks + [health]) == WithHealth(Notify(s, callbacks), health)
  {
    assert (callbacks + [health])[..|callbacks|] == callbacks;
  }

  lemma NotifyOne(s: ReporterState, health: bool)
    ensures Notify(s, [health]) == WithHealth(s, health)
  {
    assert [health][..0] == [];
  }

  /** Callbacks alternate and start with True, and the reporter they inform knows the health. */
  ghost predicate Alternates(s: LfdState, callbacks: seq<bool>) {
    && Alternating(callbacks) && (s.healthy <==> |callbacks| % 2 == 1) && (s.everHealthy <==> callbacks != [])
    && Notify(ReporterState(false, false), callbacks).healthy == s.healthy
  }

  /** There is one recovery for each death but the last one still lasting, and a death for every second callback. */
  predicate Balanced(s: LfdState, callbacks: seq<bool>, deaths: nat, recoveries: nat) {
    && deaths == recoveries + (if s.everHealthy && !s.healthy then 1 else 0)
    && |callbacks| == deaths + deaths + (if s.healthy then 1 else 0)
  }

  /** The heartbeat numbers written in full are 1, 2, 3, ..., and those on the wire repeat only after a failed write and
      never skip one. */
  ghost predicate Ordered(s: LfdState, transmitted: seq<nat>, wire: seq<Sending>) {
    Consecutive(transmitted) && |transmitted| == s.count - 1 && Unbroken(wire, s.count)
  }

  ghost predicate Disciplined(s: LfdState, callbacks: seq<bool>, deaths: nat, recoveries: nat, transmitted: seq<nat>,
                              wire: seq<Sending>) {
    Alternates(s, callbacks) && Balanced(s, callbacks, deaths, recoveries) && Ordered(s, transmitted, wire)
  }

  lemma AlternationGoesOn(s: LfdState, lfd: string, replica: string, a: Attempt, callbacks: seq<bool>)
    requires Alternates(s, callbacks)
    ensures Alternates(Beat(s, lfd, replica, a), callbacks + CallbackOf(s, lfd, replica, a))
  {
    hide ValidAck;
    if CallbackOf(s, lfd, replica, a) == [] {
      assert callbacks + [] == callbacks;
    } else {
      NotifySnoc(ReporterState(false, false), callbacks, Succeeds(s, lfd, replica, a));
    }
  }

  lemma BalanceKept(s: LfdState, lfd: string, replica: string, a: Attempt, callbacks: seq<bool>, deaths: nat,
                    recoveries: nat)
    requires Balanced(s, callbacks, deaths, recoveries) && (s.everHealthy <==> callbacks != [])
    ensures Balanced(Beat(s, lfd, replica, a), callbacks + CallbackOf(s, lfd, replica, a),
                     deaths + DeathOf(s, lfd, replica, a), recoveries + RecoveryOf(s, lfd, replica, a))
  {
    hide ValidAck;
  }

  lemma BeatKeepsDiscipline(s: LfdState, lfd: string, replica: string, a: Attempt, callbacks: seq<bool>, deaths: nat,
                            recoveries: nat, transmitted: seq<nat>, wire: seq<Sending>)
    requires Disciplined(s, callbacks, deaths, recoveries, transmitted, wire)
    ensures Disciplined(Beat(s, lfd, replica, a), callbacks + CallbackOf(s, lfd, replica, a),
                        deaths + DeathOf(s, lfd, replica, a), recoveries + RecoveryOf(s, lfd, replica, a),
                        transmitted + (if Written(a) then [s.count] else []), wire + SendingOf(s, a))
  {
    AlternationGoesOn(s, lfd, replica, a, callbacks);
    BalanceKept(s, lfd, replica, a, callbacks, deaths, recoveries);
    WireGrows(s, a, wire);
    hide Unbroken, CallbackOf, DeathOf, RecoveryOf, SendingOf, Alternating, Notify, Succeeds;
  }

  lemma WireGrows(s: LfdState, a: Attempt, wire: seq<Sending>)
    requires Unbroken(wire, s.count)
    ensures Unbroken(wire + SendingOf(s, a), Counted(s, a).count)
  {
    if SendingOf(s, a) == [] {
      assert wire + SendingOf(s, a) == wire;
    } else {
      NextSending(wire, SendingOf(s, a)[0], s.count);
      assert [SendingOf(s, a)[0]] == SendingOf(s, a);
    }
  }

  lemma NextSending(wire: seq<Sending>, sending: Sending, next: nat)
    requires Unbroken(wire, next) && sending.number == next
    ensures Unbroken(wire + [sending], next + if sending.complete then 1 else 0)
  {
    var longer := wire + [sending];
    forall i | 0 <= i <= |wire|
      ensures NumberAfter(longer, i) == NumberAfter(wire, i)
    {
    }
    assert longer[|wire|] == sending;
  }

  lemma StartDisciplined()
    ensures Disciplined(INITIAL, [], 0, 0, [], [])
  {
  }

  /** That holds over every run, whatever the replica does and across all reconnections. */
  lemma {:induction false} TransitionDiscipline(lfd: string, replica: string, attempts: seq<Attempt>)
    ensures Disciplined(Beats(INITIAL, lfd, replica, attempts), Callbacks(INITIAL, lfd, replica, attempts),
                        Deaths(INITIAL, lfd, replica, attempts), Recoveries(INITIAL, lfd, replica, attempts),
                        Transmitted(INITIAL, lfd, replica, attempts), Wire(INITIAL, lfd, replica, attempts))
  {
    hide Disciplined, Beat, Succeeds, CallbackOf, DeathOf, RecoveryOf, SendingOf, Written;
    if attempts == [] {
      StartDisciplined();
    } else {
      var n, before := |attempts| - 1, attempts[..|attempts| - 1];
      TransitionDiscipline(lfd, replica, before);
      BeatKeepsDiscipline(Beats(INITIAL, lfd, replica, before), lfd, replica, attempts[n],
                          Callbacks(INITIAL, lfd, replica, before), Deaths(INITIAL, lfd, replica, before),
                          Recoveries(INITIAL, lfd, replica, before), Transmitted(INITIAL, lfd, replica, before),
                          Wire(INITIAL, lfd, replica, before));
    }
  }
}
