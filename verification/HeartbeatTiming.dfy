/** The two timed waits of a registered handler, over the messages that reach it and the times they do. */
module TimedWaits {

  /** What a message means to a registered handler that waits for the acknowledgement of a certain heartbeat. */
  datatype Kind = Report | Ack | Other

  /** A message, when it has arrived in full, and how long the handler takes to deal with it. */
  datatype Arrival = Arrival(at: real, kind: Kind, handling: real)

  /** How a wait ends, and when. */
  datatype Outcome = Acked(at: real) | Over(at: real) | TimedOut(at: real) | Failed(at: real)

  function Max(a: real, b: real): real {
    if a < b then b else a
  }

  /** The wait for an acknowledgement from the moment `now`: every message read is dealt with before the clock is looked
      at again. A message that arrives at the deadline itself comes too late. */
  function AwaitAck(now: real, deadline: real, events: seq<Arrival>): Outcome
    decreases |events|
  {
    if deadline - now <= 0.0 then TimedOut(now)
    else if events == [] || events[0].at >= deadline then TimedOut(deadline)
    else
      var read := Max(now, events[0].at);
      match events[0].kind
      case Report => AwaitAck(read + events[0].handling, deadline, events[1..])
      case Ack => Acked(read)
      case Other => Failed(read)
  }

  /** The pause up to the next heartbeat, in which only reports may arrive. */
  function AwaitPause(now: real, next: real, events: seq<Arrival>): Outcome
    decreases |events|
  {
    if next - now <= 0.0 then Over(now)
    else if events == [] || events[0].at >= next then Over(next)
    else
      var read := Max(now, events[0].at);
      if events[0].kind.Report? then AwaitPause(read + events[0].handling, next, events[1..]) else Failed(read)
  }

  /** Reads reports until the acknowledgement, against a deadline fixed at the start. */
  method WaitForAck(start: real, timeout: real, events: seq<Arrival>) returns (outcome: Outcome)
    ensures outcome == AwaitAck(start, start + timeout, events)
  {
    var deadline, now, i := start + timeout, start, 0;
    while true
      invariant 0 <= i <= |events|
      invariant AwaitAck(start, deadline, events) == AwaitAck(now, deadline, events[i..])
      decreases |events| - i
    {
      var remaining := deadline - now;
      if remaining <= 0.0 {
        return TimedOut(now);
      }
      if i == |events| || events[i].at >= now + remaining {
        return TimedOut(now + remaining);
      }
      var read := Max(now, events[i].at);
      match events[i].kind {
        case Report => now := read + events[i].handling;
        case Ack => return Acked(read);
        case Other => return Failed(read);
      }
      i := i + 1;
    }
  }

  method WaitForPause(start: real, period: real, events: seq<Arrival>) returns (outcome: Outcome)
    ensures outcome == AwaitPause(start, start + period, events)
  {
    var next, now, i := start + period, start, 0;
    while true
      invariant 0 <= i <= |events|
      invariant AwaitPause(start, next, events) == AwaitPause(now, next, events[i..])
      decreases |events| - i
    {
      var remaining := next - now;
      if remaining <= 0.0 {
        return Over(now);
      }
      if i == |events| || events[i].at >= now + remaining {
        return Over(now + remaining);
      }
      var read := Max(now, events[i].at);
      if !events[i].kind.Report? {
        return Failed(read);
      }
      now := read + events[i].handling;
      i := i + 1;
    }
  }

  /** The clock after reading and dealing with all of `events`. */
  function Clock(now: real, events: seq<Arrival>): real
    decreases |events|
  {
    if events == [] then now else Clock(Max(now, events[0].at) + events[0].handling, events[1..])
  }

  /** When the last of `events` is read. */
  function LastRead(now: real, events: seq<Arrival>): real
    requires events != []
  {
    Max(Clock(now, events[..|events| - 1]), events[|events| - 1].at)
  }

  predicate Brief(events: seq<Arrival>, most: real) {
    forall i :: 0 <= i < |events| ==> 0.0 <= events[i].handling <= most
  }

  predicate Reports(events: seq<Arrival>) {
    forall i :: 0 <= i < |events| ==> events[i].kind.Report?
  }

  lemma {:induction false} ClockAdvances(now: real, events: seq<Arrival>, most: real)
    requires Brief(events, most)
    ensures now <= Clock(now, events)
    decreases |events|
  {
    if events != [] {
      ClockAdvances(Max(now, events[0].at) + events[0].handling, events[1..], most);
    }
  }

  /** However many reports arrive, the wait ends by its deadline, or when the message read last before it is dealt with;
      only what is read before the deadline counts, and nothing is given up earlier. */
  lemma {:induction false} ReportsCannotExtendWait(now: real, deadline: real, events: seq<Arrival>, most: real)
    requires Brief(events, most) && now <= deadline + most && 0.0 <= most
    ensures var o := AwaitAck(now, deadline, events);
            && o.at <= deadline + most
            && !o.Over?
            && (o.TimedOut? ==> o.at >= deadline)
            && (Reports(events) ==> o.TimedOut?)
            && (o.Acked? || o.Failed? ==> now <= o.at < deadline)
    decreases |events|
  {
    if now < deadline && events != [] && events[0].at < deadline && events[0].kind.Report? {
      ReportsCannotExtendWait(Max(now, events[0].at) + events[0].handling, deadline, events[1..], most);
    }
  }

  lemma ReportsInFront(events: seq<Arrival>, k: nat)
    requires 0 < k < |events|
    ensures events[1..][..k - 1] == events[..k][1..] && events[1..][..k] == events[..k + 1][1..]
    ensures events[..k][0] == events[..k + 1][0] == events[0] && events[..k + 1][1..][..k - 1] == events[..k][1..]
  {
  }

  /** Behind any number of reports, the first other message decides, if it is read strictly before the deadline: the
      acknowledgement counts, anything else is a failure. Read later, it does neither. */
  lemma {:induction false} AckedExactlyWhen(now: real, deadline: real, events: seq<Arrival>, most: real, k: nat)
    requires Brief(events, most) && k < |events| && Reports(events[..k]) && !events[k].kind.Report?
    ensures var read, outcome := LastRead(now, events[..k + 1]), AwaitAck(now, deadline, events);
            if read >= deadline then outcome.TimedOut?
            else outcome == if events[k].kind.Ack? then Acked(read) else Failed(read)
    decreases k
  {
    assert events[..k + 1][..k] == events[..k];
    if k > 0 {
      var read := Max(now, events[0].at);
      ReportsInFront(events, k);
      AckedExactlyWhen(read + events[0].handling, deadline, events[1..], most, k - 1);
      ClockAdvances(read + events[0].handling, events[1..][..k - 1], most);
    }
  }

  /** In the pause, the first message that is no report is a failure, the acknowledgement included, unless the pause is
      over before it is read. */
  lemma {:induction false} PauseFailsExactlyWhen(now: real, next: real, events: seq<Arrival>, most: real, k: nat)
    requires Brief(events, most) && k < |events| && Reports(events[..k]) && !events[k].kind.Report?
    ensures var read, outcome := LastRead(now, events[..k + 1]), AwaitPause(now, next, events);
            if read >= next then outcome.Over? else outcome == Failed(read)
    decreases k
  {
    assert events[..k + 1][..k] == events[..k];
    if k > 0 {
      var read := Max(now, events[0].at);
      ReportsInFront(events, k);
      PauseFailsExactlyWhen(read + events[0].handling, next, events[1..], most, k - 1);
      ClockAdvances(read + events[0].handling, events[1..][..k - 1], most);
    }
  }

  /** The pause ends when the next heartbeat is due, or when the report read last before that is dealt with. */
  lemma {:induction false} PauseEndsInTime(now: real, next: real, events: seq<Arrival>, most: real)
    requires Brief(events, most) && Reports(events) && now <= next + most && 0.0 <= most
    ensures var o := AwaitPause(now, next, events); o.Over? && next <= o.at <= next + most
    decreases |events|
  {
    if now < next && events != [] && events[0].at < next {
      PauseEndsInTime(Max(now, events[0].at) + events[0].handling, next, events[1..], most);
    }
  }
}

/** The rhythm of heartbeats between a handler and a reporter, and the timeouts of both. */
module HeartbeatTiming {
  import opened TimedWaits

  /** The handler's period, the period the reporter is configured with, and the timeout of both. */
  datatype Timing = Timing(period: real, expected: real, timeout: real)

  predicate ValidTiming(c: Timing) {
    c.period > 0.0 && c.expected > 0.0 && c.timeout > 0.0
  }

  /** How long things may take: writing a heartbeat; from there until the reporter reads it; from there, through the
      wait for the write lock, until the handler reads the acknowledgement; a write of the reporter once it holds the
      lock; and dealing with one message. */
  datatype Bounds = Bounds(write: real, down: real, up: real, answer: real, handling: real)

  predicate ValidBounds(b: Bounds) {
    b.write >= 0.0 && b.down >= 0.0 && b.up > 0.0 && b.answer >= 0.0 && b.handling >= 0.0
  }

  /** One heartbeat: the handler begins and ends writing it, the reporter sees it, begins writing its answer and has
      written it; then the messages the handler meets while it waits, the acknowledgement last, and the reports it meets
      during the pause. */
  datatype Round = Round(begun: real, written: real, seen: real, answering: real, answered: real,
                         waiting: seq<Arrival>, pause: seq<Arrival>)

  predicate AckComesLast(events: seq<Arrival>) {
    events != [] && Reports(events[..|events| - 1]) && events[|events| - 1].kind.Ack?
  }

  function AckRead(r: Round): real
    requires r.waiting != []
  {
    LastRead(r.written, r.waiting)
  }

  /** The acknowledgement has been dealt with. */
  function PauseStart(r: Round): real
    requires r.waiting != []
  {
    AckRead(r) + r.waiting[|r.waiting| - 1].handling
  }

  function PauseEnd(c: Timing, r: Round): real
    requires r.waiting != []
  {
    AwaitPause(PauseStart(r), PauseStart(r) + c.period, r.pause).at
  }

  /** A heartbeat that keeps the bounds. */
  predicate Within(b: Bounds, r: Round) {
    && r.begun <= r.written <= r.begun + b.write
    && r.begun <= r.seen <= r.written + b.down
    && r.seen <= r.answering <= r.answered <= r.answering + b.answer
    && AckComesLast(r.waiting) && Brief(r.waiting, b.handling)
    && r.answering <= AckRead(r) < r.seen + b.up
    && Reports(r.pause) && Brief(r.pause, b.handling)
  }

  /** A run of heartbeats of one connection. The reporter began to write its registration at `registered` and waits for
      the first heartbeat from `ready` on, and for each other from its last answer on. */
  predicate Schedule(c: Timing, b: Bounds, registered: real, ready: real, rounds: seq<Round>) {
    && (forall k :: 0 <= k < |rounds| ==> Within(b, rounds[k]))
    && registered <= ready <= registered + b.answer
    && (rounds != [] ==> registered <= rounds[0].begun < registered + b.up && ready <= rounds[0].seen)
    && (forall k :: 0 < k < |rounds| ==>
          rounds[k].begun == PauseEnd(c, rounds[k - 1]) && rounds[k - 1].answered <= rounds[k].seen)
  }

  /** No write outlasts its timeout: neither that of a heartbeat nor that of its answer. */
  predicate WritesInTime(c: Timing, r: Round) {
    r.written <= r.begun + c.timeout && r.answered <= r.answering + c.timeout
  }

  /** The acknowledgement meets the handler's deadline. */
  predicate AckInTime(c: Timing, r: Round) {
    AwaitAck(r.written, r.written + c.timeout, r.waiting).Acked?
  }

  /** The reporter sees heartbeat `k` before its own timeout, which runs from its last answer. */
  predicate SeenInTime(c: Timing, ready: real, rounds: seq<Round>, k: nat)
    requires k < |rounds|
  {
    rounds[k].seen < (if k == 0 then ready else rounds[k - 1].answered) + c.expected + 2.0 * c.timeout
  }

  predicate NothingFires(c: Timing, registered: real, ready: real, rounds: seq<Round>) {
    && ready <= registered + c.timeout
    && forall k :: 0 <= k < |rounds| ==>
         WritesInTime(c, rounds[k]) && AckInTime(c, rounds[k]) && SeenInTime(c, ready, rounds, k)
  }

  predicate WriteRoom(c: Timing, b: Bounds) {
    b.write <= c.timeout && b.answer <= c.timeout
  }

  predicate AckRoom(c: Timing, b: Bounds) {
    b.down + b.up <= c.timeout
  }

  predicate PeriodRoom(c: Timing, b: Bounds) {
    c.period + b.write + b.down + b.up + 2.0 * b.handling <= c.expected + 2.0 * c.timeout
  }

  /** The bounds leave room for all timeouts. */
  predicate RoomEnough(c: Timing, b: Bounds) {
    WriteRoom(c, b) && AckRoom(c, b) && PeriodRoom(c, b)
  }

  lemma AckMeetsDeadline(c: Timing, b: Bounds, r: Round)
    requires ValidBounds(b) && AckRoom(c, b) && Within(b, r)
    ensures AckInTime(c, r)
  {
    var k := |r.waiting| - 1;
    assert r.waiting[..k + 1] == r.waiting;
    AckedExactlyWhen(r.written, r.written + c.timeout, r.waiting, b.handling, k);
  }

  lemma NextIsSeenInTime(c: Timing, b: Bounds, r: Round, next: Round)
    requires ValidTiming(c) && ValidBounds(b) && PeriodRoom(c, b) && Within(b, r) && Within(b, next)
             && next.begun == PauseEnd(c, r)
    ensures next.seen < r.answered + c.expected + 2.0 * c.timeout
  {
    PauseEndsInTime(PauseStart(r), PauseStart(r) + c.period, r.pause, b.handling);
  }

  /** With room enough, no schedule lets a timeout fire, however long it is. */
  lemma RoomSuffices(c: Timing, b: Bounds, registered: real, ready: real, rounds: seq<Round>)
    requires ValidTiming(c) && ValidBounds(b) && RoomEnough(c, b) && Schedule(c, b, registered, ready, rounds)
    ensures NothingFires(c, registered, ready, rounds)
  {
    forall k | 0 <= k < |rounds|
      ensures WritesInTime(c, rounds[k]) && AckInTime(c, rounds[k]) && SeenInTime(c, ready, rounds, k)
    {
      AckMeetsDeadline(c, b, rounds[k]);
      if k > 0 {
        NextIsSeenInTime(c, b, rounds[k - 1], rounds[k]);
      }
    }
  }

  /** A heartbeat answered at once, whose acknowledgement is read at `read`, after no report at all. */
  function Plain(begun: real, written: real, seen: real, read: real, handling: real): Round {
    Round(begun, written, seen, seen, seen, [Arrival(read, Ack, handling)], [])
  }

  lemma PlainRead(begun: real, written: real, seen: real, read: real, handling: real)
    requires written <= read
    ensures AckRead(Plain(begun, written, seen, read, handling)) == read
  {
    assert Plain(begun, written, seen, read, handling).waiting[..0] == [];
  }

  /** If a write may outlast its timeout, it can be given up: already that of the first heartbeat, or the
      registration. */
  lemma LateWrite(c: Timing, b: Bounds) returns (ready: real, rounds: seq<Round>)
    requires ValidTiming(c) && ValidBounds(b) && !WriteRoom(c, b)
    ensures Schedule(c, b, 0.0, ready, rounds)
    ensures ready > c.timeout || (ready == 0.0 && |rounds| == 1 && rounds[0].written > rounds[0].begun + c.timeout)
  {
    if b.answer > c.timeout {
      ready, rounds := b.answer, [];
    } else {
      ready, rounds := 0.0, [Plain(0.0, b.write, b.write, b.write, 0.0)];
      PlainRead(0.0, b.write, b.write, b.write, 0.0);
    }
  }

  /** If both directions together may take longer than the timeout, the handler's deadline can pass, while no other
      timeout fires. */
  lemma LateAck(c: Timing, b: Bounds) returns (rounds: seq<Round>)
    requires ValidTiming(c) && ValidBounds(b) && !AckRoom(c, b)
    ensures Schedule(c, b, 0.0, 0.0, rounds) && |rounds| == 1
    ensures WritesInTime(c, rounds[0]) && SeenInTime(c, 0.0, rounds, 0) && !AckInTime(c, rounds[0])
  {
    var seen := if b.down < c.timeout then b.down else c.timeout;
    PlainRead(0.0, 0.0, seen, c.timeout, 0.0);
    rounds := [Plain(0.0, 0.0, seen, c.timeout, 0.0)];
  }

  lemma PauseOfOneReport(now: real, next: real, report: Arrival)
    requires now <= report.at < next && report.kind.Report?
    ensures AwaitPause(now, next, [report]).at == Max(report.at + report.handling, next)
  {
    assert AwaitPause(now, next, [report]) == AwaitPause(report.at + report.handling, next, [report][1..]);
  }

  lemma PlainWithReport(c: Timing, r: Round, read: real, report: Arrival)
    requires r.written <= read && |r.waiting| == 1 && r.waiting[0].at == read && r.waiting[0].kind.Ack?
    requires r.pause == [report] && report.kind.Report?
    requires read + r.waiting[0].handling <= report.at < read + r.waiting[0].handling + c.period
    ensures AckRead(r) == read && PauseEnd(c, r) >= report.at + report.handling
    ensures r.written <= read < r.written + c.timeout ==> AckInTime(c, r)
  {
    assert r.waiting[..0] == [];
    PauseOfOneReport(read + r.waiting[0].handling, read + r.waiting[0].handling + c.period, report);
  }

  /** If the handler's period, a write, both directions and the handling of an acknowledgement and of a late report may
      together take longer than the reporter waits, it can give up, while no other timeout has fired. */
  lemma LateHeartbeat(c: Timing, b: Bounds) returns (rounds: seq<Round>)
    requires ValidTiming(c) && ValidBounds(b) && WriteRoom(c, b) && AckRoom(c, b) && !PeriodRoom(c, b)
    ensures Schedule(c, b, 0.0, 0.0, rounds) && |rounds| == 2
    ensures NothingFires(c, 0.0, 0.0, rounds[..1]) && WritesInTime(c, rounds[1]) && !SeenInTime(c, 0.0, rounds, 1)
  {
    var excess := c.period + b.write + b.down + b.up + 2.0 * b.handling - c.expected - 2.0 * c.timeout;
    var slack := if excess < b.up then excess else b.up;
    slack := (if slack < c.period then slack else c.period) / 2.0;
    var read := b.up - slack;
    var start := read + b.handling;
    // a report read just before the pause is over delays the next heartbeat by its handling
    var report := Arrival(start + c.period - slack, Report, b.handling);
    var r := Plain(0.0, 0.0, 0.0, read, b.handling).(pause := [report]);
    PlainWithReport(c, r, read, report);
    hide AwaitPause, LastRead;
    var begun := PauseEnd(c, r);
    var seen := begun + b.write + b.down;
    PlainRead(begun, begun + b.write, seen, seen, 0.0);
    rounds := [r, Plain(begun, begun + b.write, seen, seen, 0.0)];
  }

  ghost predicate NeverFires(c: Timing, b: Bounds) {
    forall registered, ready, rounds ::
      Schedule(c, b, registered, ready, rounds) ==> NothingFires(c, registered, ready, rounds)
  }

  /** Room enough is exactly what it takes. */
  lemma TimeoutsNeverFireIff(c: Timing, b: Bounds)
    requires ValidTiming(c) && ValidBounds(b)
    ensures NeverFires(c, b) <==> RoomEnough(c, b)
  {
    if RoomEnough(c, b) {
      forall registered, ready, rounds | Schedule(c, b, registered, ready, rounds)
        ensures NothingFires(c, registered, ready, rounds)
      {
        RoomSuffices(c, b, registered, ready, rounds);
      }
    } else if !WriteRoom(c, b) {
      var ready, rounds := LateWrite(c, b);
      assert !NothingFires(c, 0.0, ready, rounds);
    } else if !AckRoom(c, b) {
      var rounds := LateAck(c, b);
      assert !NothingFires(c, 0.0, 0.0, rounds);
    } else {
      var rounds := LateHeartbeat(c, b);
      assert !NothingFires(c, 0.0, 0.0, rounds);
    }
  }

  /** In particular: writes within the timeout, half a timeout for each direction, messages dealt with at once, and a
      handler whose period is not longer than the reporter was told. */
  lemma HalfATimeoutEachWay(c: Timing, registered: real, ready: real, rounds: seq<Round>)
    requires ValidTiming(c) && c.period <= c.expected
    requires Schedule(c, HalfEachWay(c), registered, ready, rounds)
    ensures NothingFires(c, registered, ready, rounds)
  {
    RoomSuffices(c, HalfEachWay(c), registered, ready, rounds);
  }

  function HalfEachWay(c: Timing): Bounds {
    Bounds(c.timeout, c.timeout / 2.0, c.timeout / 2.0, c.timeout, 0.0)
  }

  /** With those bounds fully used, any longer period at the handler alone lets the reporter give up. */
  lemma LongerPeriodFires(c: Timing)
    requires ValidTiming(c)
    ensures NeverFires(c, HalfEachWay(c)) <==> c.period <= c.expected
  {
    TimeoutsNeverFireIff(c, HalfEachWay(c));
  }
}
