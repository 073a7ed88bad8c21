/** One stream between the reporter of a local fault detector and its handler at the global one. */
module ReportChannels {
  import opened Wrappers
  import opened Protocol
  import opened Gfd

  /** Messages under way in both directions. Once a direction is broken, nothing more enters it. */
  datatype Chan = Chan(owner: string, up: seq<Message>, down: seq<Message>, upOpen: bool, downOpen: bool)

  function Push(ch: Chan, m: Message): Chan {
    if ch.upOpen then ch.(up := ch.up + [m]) else ch
  }

  function PushDown(ch: Chan, heartbeats: seq<Message>): Chan {
    if ch.downOpen then ch.(down := ch.down + heartbeats) else ch
  }

  /** What the reporter holds for this stream: nothing any more, its registration, or the report and the heartbeat
      acknowledgement that wait for the write lock. */
  datatype Held = Detached | Pending(registration: Message) | Attached(report: Option<Message>, ack: Option<Message>)

  predicate IsReport(m: Message) {
    m.Register? || m.Membership?
  }

  /** The numbers of the acknowledgements in a queue. */
  function Acks(queue: seq<Message>): seq<int>
    decreases |queue|
  {
    if queue == [] then [] else (if queue[0].HeartbeatAck? then [queue[0].count] else []) + Acks(queue[1..])
  }

  /** The numbers of the heartbeats in a queue. */
  function Beats(queue: seq<Message>): seq<int>
    decreases |queue|
  {
    if queue == [] then [] else (if queue[0].Heartbeat? then [queue[0].count] else []) + Beats(queue[1..])
  }

  /** The health told by the last report of a queue, or `base` if there is none. */
  function LastHealth(base: Option<bool>, queue: seq<Message>): Option<bool>
    decreases |queue|
  {
    if queue == [] then base else LastHealth(if IsReport(queue[0]) then Some(queue[0].healthy) else base, queue[1..])
  }

  /** Everything told on a stream, up to the report the reporter still holds. */
  function Told(base: Option<bool>, up: seq<Message>, held: Held): Option<bool> {
    match held
    case Pending(m) => if IsReport(m) then Some(m.healthy) else None
    case Attached(Some(m), _) => if IsReport(m) then Some(m.healthy) else None
    case _ => LastHealth(base, up)
  }

  function HeldAck(held: Held): seq<int> {
    if held.Attached? && held.ack.Some? && held.ack.value.HeartbeatAck? then [held.ack.value.count] else []
  }

  /** Heartbeats that have been written and whose acknowledgement has not been read. */
  function Outstanding(up: seq<Message>, held: Held, down: seq<Message>): seq<int> {
    Acks(up) + HeldAck(held) + Beats(down)
  }

  /** A message that the reporter of `l` may send: healthy only if its replica ever was. */
  ghost predicate FromReporter(l: string, replica: string, ever: bool, m: Message) {
    match m
    case Register(source, destination, member, healthy) =>
      source == l && destination == GFD && member == replica && (healthy ==> ever)
    case Membership(source, destination, member, healthy) =>
      source == l && destination == GFD && member == replica && (healthy ==> ever)
    case HeartbeatAck(source, destination, _) => source == l && destination == GFD
    case _ => false
  }

  ghost predicate NoRegister(queue: seq<Message>) {
    forall i :: 0 <= i < |queue| ==> !queue[i].Register?
  }

  ghost predicate HeldGenuine(l: string, replica: string, ever: bool, held: Held) {
    match held
    case Detached => true
    case Pending(m) => m.Register? && FromReporter(l, replica, ever, m)
    case Attached(report, ack) =>
      && (report.Some? ==> report.value.Membership? && FromReporter(l, replica, ever, report.value))
      && (ack.Some? ==> ack.value.HeartbeatAck? && FromReporter(l, replica, ever, ack.value))
  }

  /** Only genuine traffic in both directions. */
  ghost predicate Traffic(l: string, replica: string, ever: bool, held: Held, up: seq<Message>, down: seq<Message>) {
    && (forall i :: 0 <= i < |up| ==> FromReporter(l, replica, ever, up[i]))
    && (forall i :: 0 <= i < |down| ==> down[i].Heartbeat? && down[i].source == GFD && down[i].destination == l)
    && HeldGenuine(l, replica, ever, held)
  }

  /** The order of the protocol: a registration first and only once, and at most one heartbeat unacknowledged, which
      then carries the number the handler waits for. */
  ghost predicate Ordered(l: string, held: Held, up: seq<Message>, down: seq<Message>, upOpen: bool, phase: Phase) {
    match phase
    case Closed => true
    case AwaitRegister =>
      && down == [] && Acks(up) == [] && HeldAck(held) == []
      && (up != [] ==> up[0].Register? && NoRegister(up[1..]))
      && (held.Pending? ==> up == []) && (held.Attached? && upOpen ==> up != [])
    case AwaitAck(k, n) =>
      && k == l && NoRegister(up) && !held.Pending?
      && (Outstanding(up, held, down) == [] || Outstanding(up, held, down) == [n])
    case Between(k, n) =>
      k == l && NoRegister(up) && !held.Pending? && Outstanding(up, held, down) == []
  }

  /** Nothing told is lost: on an unbroken stream the last thing told is what was captured last. */
  ghost predicate NothingLost(held: Held, told: bool, up: seq<Message>, upOpen: bool, phase: Phase,
                              base: Option<bool>) {
    !held.Detached? && upOpen && !phase.Closed? ==> Told(base, up, held) == Some(told)
  }

  /** `base` is the last report the handler has read from this stream, if it is registered. */
  ghost predicate ChanInv(l: string, replica: string, ever: bool, held: Held, told: bool, ch: Chan, phase: Phase,
                          base: Option<bool>) {
    && ch.owner == l
    && Traffic(l, replica, ever, held, ch.up, ch.down)
    && Ordered(l, held, ch.up, ch.down, ch.upOpen, phase)
    && NothingLost(held, told, ch.up, ch.upOpen, phase, base)
  }

  // ----- Queues -----

  lemma {:induction false} AcksAppend(queue: seq<Message>, m: Message)
    ensures Acks(queue + [m]) == Acks(queue) + (if m.HeartbeatAck? then [m.count] else [])
    decreases |queue|
  {
    if queue != [] {
      AcksAppend(queue[1..], m);
      assert (queue + [m])[1..] == queue[1..] + [m];
    }
  }

  lemma {:induction false} BeatsAppend(queue: seq<Message>, m: Message)
    ensures Beats(queue + [m]) == Beats(queue) + (if m.Heartbeat? then [m.count] else [])
    decreases |queue|
  {
    if queue != [] {
      BeatsAppend(queue[1..], m);
      assert (queue + [m])[1..] == queue[1..] + [m];
    }
  }

  lemma {:induction false} LastHealthAppend(base: Option<bool>, queue: seq<Message>, m: Message)
    ensures LastHealth(base, queue + [m]) == if IsReport(m) then Some(m.healthy) else LastHealth(base, queue)
    decreases |queue|
  {
    if queue != [] {
      LastHealthAppend(if IsReport(queue[0]) then Some(queue[0].healthy) else base, queue[1..], m);
      assert (queue + [m])[1..] == queue[1..] + [m];
    }
  }

  lemma {:induction false} AcksPrefix(queue: seq<Message>, kept: nat)
    requires kept <= |queue|
    ensures Acks(queue[..kept]) <= Acks(queue)
    decreases |queue|
  {
    if kept > 0 {
      AcksPrefix(queue[1..], kept - 1);
      assert queue[..kept][1..] == queue[1..][..kept - 1];
    }
  }

  lemma {:induction false} BeatsPrefix(queue: seq<Message>, kept: nat)
    requires kept <= |queue|
    ensures Beats(queue[..kept]) <= Beats(queue)
    decreases |queue|
  {
    if kept > 0 {
      BeatsPrefix(queue[1..], kept - 1);
      assert queue[..kept][1..] == queue[1..][..kept - 1];
    }
  }

  // ----- What the reporter does -----

  lemma HangUpKeepsInv(l: string, replica: string, ever: bool, held: Held, told: bool, ch: Chan, phase: Phase,
                       base: Option<bool>, told1: bool)
    requires ChanInv(l, replica, ever, held, told, ch, phase, base)
    ensures ChanInv(l, replica, ever, Detached, told1, ch, phase, base)
  {
  }

  lemma RegistrationKeepsInv(l: string, replica: string, ever: bool, held: Held, told: bool, ch: Chan, phase: Phase,
                             base: Option<bool>)
    requires ChanInv(l, replica, ever, held, told, ch, phase, base) && held.Pending?
    ensures ChanInv(l, replica, ever, Attached(None, None), told, Push(ch, held.registration), phase, base)
  {
    AcksAppend(ch.up, held.registration);
    LastHealthAppend(base, ch.up, held.registration);
  }

  lemma CaptureKeepsInv(l: string, replica: string, ever: bool, held: Held, told: bool, ch: Chan, phase: Phase,
                        base: Option<bool>, health: bool)
    requires ChanInv(l, replica, ever, held, told, ch, phase, base) && held.Attached? && (health ==> ever)
    ensures ChanInv(l, replica, ever, Attached(Some(Membership(l, GFD, replica, health)), held.ack), health, ch, phase,
                    base)
  {
  }

  lemma WriteReportKeepsInv(l: string, replica: string, ever: bool, held: Held, told: bool, ch: Chan, phase: Phase,
                            base: Option<bool>)
    requires ChanInv(l, replica, ever, held, told, ch, phase, base) && held.Attached? && held.report.Some?
    ensures ChanInv(l, replica, ever, Attached(None, held.ack), told, Push(ch, held.report.value), phase, base)
  {
    hide Acks, Beats, LastHealth;
    var m := held.report.value;
    AcksAppend(ch.up, m);
    LastHealthAppend(base, ch.up, m);
    assert Acks(ch.up + [m]) == Acks(ch.up);
    assert Outstanding(ch.up + [m], Attached(None, held.ack), ch.down) == Outstanding(ch.up, held, ch.down);
  }

  lemma WriteAckKeepsInv(l: string, replica: string, ever: bool, held: Held, told: bool, ch: Chan, phase: Phase,
                         base: Option<bool>)
    requires ChanInv(l, replica, ever, held, told, ch, phase, base) && held.Attached? && held.ack.Some?
    ensures ChanInv(l, replica, ever, Attached(held.report, None), told, Push(ch, held.ack.value), phase, base)
  {
    hide Acks, Beats, LastHealth;
    AcksAppend(ch.up, held.ack.value);
    LastHealthAppend(base, ch.up, held.ack.value);
  }

  lemma TakeHeartbeatKeepsInv(l: string, replica: string, ever: bool, held: Held, told: bool, ch: Chan, phase: Phase,
                              base: Option<bool>)
    requires ChanInv(l, replica, ever, held, told, ch, phase, base) && held.Attached? && held.ack.None? && ch.down != []
    ensures ch.down[0].Heartbeat? && ch.down[0].source == GFD && ch.down[0].destination == l
    ensures ChanInv(l, replica, ever, Attached(held.report, Some(HeartbeatAck(l, GFD, ch.down[0].count))), told,
                    ch.(down := ch.down[1..]), phase, base)
  {
  }

  /** What is lost of at most one unacknowledged heartbeat leaves it or nothing. */
  lemma ShorterOutstanding(acks: seq<int>, held: seq<int>, beats: seq<int>, acks1: seq<int>, beats1: seq<int>, n: int)
    requires acks1 <= acks && beats1 <= beats
    ensures acks + held + beats == [] ==> acks1 + held + beats1 == []
    ensures acks + held + beats == [n] ==> acks1 + held + beats1 == [] || acks1 + held + beats1 == [n]
  {
    if acks + held + beats == [n] {
      assert |acks| + |held| + |beats| == 1;
      assert acks1 + held + beats1 == [] || acks1 + held + beats1 == acks + held + beats;
    }
  }

  lemma CutUpKeepsOrder(l: string, held: Held, up: seq<Message>, down: seq<Message>, upOpen: bool, phase: Phase,
                        kept: nat)
    requires Ordered(l, held, up, down, upOpen, phase) && kept <= |up|
    ensures Ordered(l, held, up[..kept], down, false, phase)
  {
    AcksPrefix(up, kept);
    hide Acks, Beats;
    match phase
    case AwaitAck(_, n) => ShorterOutstanding(Acks(up), HeldAck(held), Beats(down), Acks(up[..kept]), Beats(down), n);
    case Between(_, _) => ShorterOutstanding(Acks(up), HeldAck(held), Beats(down), Acks(up[..kept]), Beats(down), 0);
    case AwaitRegister =>
      if kept > 0 {
        assert up[..kept][0] == up[0] && up[..kept][1..] == up[1..][..kept - 1];
      }
    case Closed =>
  }

  lemma CutUpKeepsInv(l: string, replica: string, ever: bool, held: Held, told: bool, ch: Chan, phase: Phase,
                      base: Option<bool>, kept: nat)
    requires ChanInv(l, replica, ever, held, told, ch, phase, base) && kept <= |ch.up|
    ensures ChanInv(l, replica, ever, held, told, ch.(up := ch.up[..kept], upOpen := false), phase, base)
  {
    hide Ordered, Told;
    CutUpKeepsOrder(l, held, ch.up, ch.down, ch.upOpen, phase, kept);
  }

  lemma CutDownKeepsInv(l: string, replica: string, ever: bool, held: Held, told: bool, ch: Chan, phase: Phase,
                        base: Option<bool>, kept: nat)
    requires ChanInv(l, replica, ever, held, told, ch, phase, base) && kept <= |ch.down|
    ensures ChanInv(l, replica, ever, held, told, ch.(down := ch.down[..kept], downOpen := false), phase, base)
  {
    hide Acks, Beats, LastHealth;
    BeatsPrefix(ch.down, kept);
    if phase.AwaitAck? {
      ShorterOutstanding(Acks(ch.up), HeldAck(held), Beats(ch.down), Acks(ch.up), Beats(ch.down[..kept]), phase.count);
    } else if !phase.Closed? {
      ShorterOutstanding(Acks(ch.up), HeldAck(held), Beats(ch.down), Acks(ch.up), Beats(ch.down[..kept]), 0);
    }
  }

  // ----- What the handler reads -----

  /** The next message is one the handler expects: an admissible registration, a report of this replica, or, only while
      it waits for one, the acknowledgement of the heartbeat it sent last. */
  lemma HeadExpected(l: string, replica: string, ever: bool, held: Held, told: bool, ch: Chan, phase: Phase,
                     base: Option<bool>)
    requires ChanInv(l, replica, ever, held, told, ch, phase, base) && ch.up != []
    ensures FromReporter(l, replica, ever, ch.up[0])
    ensures phase.AwaitRegister? <==> !phase.Closed? && ch.up[0].Register?
    ensures phase.Between? ==> phase.lfd == l && ch.up[0].Membership?
    ensures phase.AwaitAck? ==> phase.lfd == l && (ch.up[0].Membership? || Acknowledges(ch.up[0], l, phase.count))
  {
    assert FromReporter(l, replica, ever, ch.up[0]);
    if phase.AwaitAck? && ch.up[0].HeartbeatAck? {
      assert Outstanding(ch.up, held, ch.down)[0] == ch.up[0].count;
    }
  }

  lemma RegistrationReadKeepsInv(l: string, replica: string, ever: bool, held: Held, told: bool, ch: Chan,
                                 base: Option<bool>)
    requires ChanInv(l, replica, ever, held, told, ch, AwaitRegister, base) && ch.up != []
    ensures ch.up[0].Register?
    ensures ChanInv(l, replica, ever, held, told, PushDown(ch.(up := ch.up[1..]), [Heartbeat(GFD, l, 1)]),
                    AwaitAck(l, 1),
                    Some(ch.up[0].healthy))
  {
    BeatsAppend(ch.down, Heartbeat(GFD, l, 1));
  }

  lemma ReportReadKeepsInv(l: string, replica: string, ever: bool, held: Held, told: bool, ch: Chan, phase: Phase,
                           base: Option<bool>)
    requires ChanInv(l, replica, ever, held, told, ch, phase, base) && ch.up != [] && ch.up[0].Membership?
    requires phase.AwaitAck? || phase.Between?
    ensures ChanInv(l, replica, ever, held, told, ch.(up := ch.up[1..]), phase, Some(ch.up[0].healthy))
  {
  }

  lemma AckReadKeepsInv(l: string, replica: string, ever: bool, held: Held, told: bool, ch: Chan, n: nat,
                        base: Option<bool>)
    requires ChanInv(l, replica, ever, held, told, ch, AwaitAck(l, n), base) && ch.up != [] && ch.up[0].HeartbeatAck?
    ensures ChanInv(l, replica, ever, held, told, ch.(up := ch.up[1..]), Between(l, n), base)
  {
  }

  lemma TickKeepsInv(l: string, replica: string, ever: bool, held: Held, told: bool, ch: Chan, n: nat,
                     base: Option<bool>)
    requires ChanInv(l, replica, ever, held, told, ch, Between(l, n), base)
    ensures ChanInv(l, replica, ever, held, told, PushDown(ch, [Heartbeat(GFD, l, n + 1)]), AwaitAck(l, n + 1), base)
  {
    BeatsAppend(ch.down, Heartbeat(GFD, l, n + 1));
  }

  /** Once the handler has ended, nothing is read any more. */
  lemma EndedKeepsInv(l: string, replica: string, ever: bool, held: Held, told: bool, ch: Chan, phase: Phase,
                      base: Option<bool>, base1: Option<bool>)
    requires ChanInv(l, replica, ever, held, told, ch, phase, base)
    ensures ChanInv(l, replica, ever, held, told, ch, Closed, base1)
    ensures ch.up != [] ==> ChanInv(l, replica, ever, held, told, ch.(up := ch.up[1..]), Closed, base1)
  {
  }
}

/** All local fault detectors with their reporters, the streams to the global one, and its handlers. */
module HealthPipeline {
  import opened Wrappers
  import opened Protocol
  import opened Gfd
  import opened ReportChannels
  import L = Lfd
  import R = Reporter

  /** The reporter's connection: none, one whose registration is captured but not written, or one in use, with the
      report and the heartbeat acknowledgement that wait for the write lock. */
  datatype Line =
    | Offline
    | Registering(id: nat, registration: Message)
    | Online(id: nat, report: Option<Message>, ack: Option<Message>)

  /** `told` is the health in the last report captured for the current connection. */
  datatype Node = Node(lfd: L.LfdState, reporter: R.ReporterState, line: Line, told: bool)

  /** A heartbeat acknowledgement that a local fault detector accepted. */
  datatype Acked = Acked(lfd: string, sent: nat, ack: Message)

  datatype System = System(nodes: map<string, Node>, chans: map<nat, Chan>, gfd: GfdState, trace: seq<Acked>)

  datatype LineAction =
    | WriteRegistration
    | Capture             // the sender task wakes up, clears the event and builds its report
    | WriteReport
    | TakeHeartbeat       // the receiver task reads a heartbeat and builds its acknowledgement
    | WriteAck
    | HangUp              // any failure of the connection or one of its tasks

  datatype Action =
    | Beat(lfd: string, attempt: L.Attempt)
    | Dial(lfd: string, id: nat)                 // connected: the event is cleared and a registration built
    | OnLine(lfd: string, action: LineAction)
    | ReadNext(id: nat)                          // the handler of this stream reads its next message
    | PauseEnds(id: nat)
    | EndHandling(id: nat)
    | CutUp(id: nat, kept: nat)                  // all messages behind the first `kept` are lost for good
    | CutDown(id: nat, kept: nat)

  function HeldAt(line: Line, id: nat): Held {
    match line
    case Registering(i, m) => if i == id then Pending(m) else Detached
    case Online(i, report, ack) => if i == id then Attached(report, ack) else Detached
    case Offline => Detached
  }

  /** One attempt of the heartbeat loop, with the health callback it makes. */
  function NodeBeat(l: string, replica: string, node: Node, a: L.Attempt): Node {
    node.(lfd := L.Beat(node.lfd, l, replica, a),
          reporter := L.Notify(node.reporter, L.CallbackOf(node.lfd, l, replica, a)))
  }

  /** Captures the current health for connection `id` and clears the wish to report. */
  function Tell(node: Node, line: Line): Node {
    Node(node.lfd, node.reporter.(changed := false), line, node.reporter.healthy)
  }

  function Redialled(l: string, replica: string, node: Node, id: nat): (node1: Node)
    ensures node1.line.Registering?
  {
    Tell(node, Registering(id, R.ReportOf(node.reporter, l, replica, true)))
  }

  /** An action that is not possible has no effect. */
  function LineAfter(l: string, replica: string, node: Node, ch: Chan, a: LineAction): (Node, Chan) {
    var line := node.line;
    match a
    case HangUp => (node.(line := Offline), ch)
    case WriteRegistration =>
      if line.Registering? then (node.(line := Online(line.id, None, None)), Push(ch, line.registration))
      else (node, ch)
    case Capture =>
      if line.Online? && line.report.None? && node.reporter.changed
      then (Tell(node, line.(report := Some(R.ReportOf(node.reporter, l, replica, false)))), ch) else (node, ch)
    case WriteReport =>
      if line.Online? && line.report.Some? then (node.(line := line.(report := None)), Push(ch, line.report.value))
      else (node, ch)
    case TakeHeartbeat =>
      if line.Online? && line.ack.None? && ch.down != [] then
        var m := ch.down[0];
        (node.(line := if R.IsHeartbeatFor(m, l)
                       then line.(ack := Some(HeartbeatAck(m.destination, m.source, m.count))) else Offline),
         ch.(down := ch.down[1..]))
      else (node, ch)
    case WriteAck =>
      if line.Online? && line.ack.Some? then (node.(line := line.(ack := None)), Push(ch, line.ack.value))
      else (node, ch)
  }

  /** The handler of stream `id` takes the next message; a heartbeat it writes then goes down the stream. */
  function ReadAfter(servers: Servers, chans: map<nat, Chan>, g: GfdState, id: nat): (map<nat, Chan>, GfdState)
    requires id in chans && id in g.handlers && chans[id].up != []
  {
    var ch, g1 := chans[id], Read(servers, g, id, chans[id].up[0]);
    (chans[id := PushDown(ch.(up := ch.up[1..]), HeartbeatFor(g.handlers[id], g1.handlers[id]))], g1)
  }

  function TickAfter(chans: map<nat, Chan>, g: GfdState, id: nat): (map<nat, Chan>, GfdState)
    requires id in chans && id in g.handlers
  {
    var g1 := Tick(g, id);
    (chans[id := PushDown(chans[id], HeartbeatFor(g.handlers[id], g1.handlers[id]))], g1)
  }

  function Step(servers: Servers, s: System, a: Action): System {
    match a
    case Beat(l, attempt) =>
      if l !in s.nodes || l !in servers then s
      else
        s.(nodes := s.nodes[l := NodeBeat(l, servers[l], s.nodes[l], attempt)],
           trace := s.trace + if L.Succeeds(s.nodes[l].lfd, l, servers[l], attempt)
                              then [Acked(l, s.nodes[l].lfd.count, attempt.message)] else [])
    case Dial(l, id) =>
      if l !in s.nodes || l !in servers || !s.nodes[l].line.Offline? || id in s.chans then s
      else
        System(s.nodes[l := Redialled(l, servers[l], s.nodes[l], id)],
               s.chans[id := Chan(l, [], [], true, true)], Gfd.Step(servers, s.gfd, Accept(id)), s.trace)
    case OnLine(l, action) =>
      if l !in s.nodes || l !in servers || s.nodes[l].line.Offline? || s.nodes[l].line.id !in s.chans then s
      else
        var id := s.nodes[l].line.id;
        var (node, ch) := LineAfter(l, servers[l], s.nodes[l], s.chans[id], action);
        s.(nodes := s.nodes[l := node], chans := s.chans[id := ch])
    case ReadNext(id) =>
      if id !in s.chans || id !in s.gfd.handlers || s.chans[id].up == [] || s.gfd.handlers[id].Closed? then s
      else
        var (chans, g) := ReadAfter(servers, s.chans, s.gfd, id);
        s.(chans := chans, gfd := g)
    case PauseEnds(id) =>
      if id !in s.chans || id !in s.gfd.handlers then s
      else
        var (chans, g) := TickAfter(s.chans, s.gfd, id);
        s.(chans := chans, gfd := g)
    case EndHandling(id) => if id in s.gfd.handlers then s.(gfd := Close(servers, s.gfd, id)) else s
    case CutUp(id, kept) =>
      if id !in s.chans || kept > |s.chans[id].up| then s
      else s.(chans := s.chans[id := s.chans[id].(up := s.chans[id].up[..kept], upOpen := false)])
    case CutDown(id, kept) =>
      if id !in s.chans || kept > |s.chans[id].down| then s
      else s.(chans := s.chans[id := s.chans[id].(down := s.chans[id].down[..kept], downOpen := false)])
  }

  function Start(servers: Servers): System {
    System(map l | l in servers :: Node(L.INITIAL, R.ReporterState(false, false), Offline, false), map[], EMPTY, [])
  }

  function After(servers: Servers, run: seq<Action>): System {
    if run == [] then Start(servers) else Step(servers, After(servers, run[..|run| - 1]), run[|run| - 1])
  }

  // ----- The invariant -----

  /** The reporter mirrors the health, and what the current connection was told last is that health or is to be
      updated. */
  ghost predicate NodeInv(node: Node) {
    && node.reporter.healthy == node.lfd.healthy
    && (node.lfd.healthy ==> node.lfd.everHealthy)
    && (node.line.Offline? || node.reporter.changed || node.told == node.reporter.healthy)
  }

  /** Some accepted acknowledgement came from that very replica and carried the number that had been sent. */
  ghost predicate Evidence(trace: seq<Acked>, l: string, replica: string) {
    exists i :: 0 <= i < |trace| && trace[i].lfd == l && L.ValidAck(trace[i].ack, l, replica, trace[i].sent)
  }

  ghost predicate NodesInv(servers: Servers, nodes: map<string, Node>, chans: map<nat, Chan>, trace: seq<Acked>) {
    forall l :: l in nodes ==>
      && NodeInv(nodes[l])
      && (!nodes[l].line.Offline? ==> nodes[l].line.id in chans && chans[nodes[l].line.id].owner == l)
      && (nodes[l].lfd.everHealthy && l in servers ==> Evidence(trace, l, servers[l]))
  }

  /** The last report read from stream `id`, if its handler has registered it. */
  function BaseOf(g: GfdState, id: nat): Option<bool> {
    if id in g.handlers && LfdOf(g.handlers[id]).Some? then Get(g.latest, LfdOf(g.handlers[id]).value) else None
  }

  /** Stream `id` as its owner and its handler see it. */
  ghost predicate ChanAt(servers: Servers, node: Node, ch: Chan, id: nat, phase: Phase, base: Option<bool>) {
    && ch.owner in servers
    && ChanInv(ch.owner, servers[ch.owner], node.lfd.everHealthy, HeldAt(node.line, id), node.told, ch, phase, base)
  }

  ghost predicate ChansInv(servers: Servers, nodes: map<string, Node>, chans: map<nat, Chan>, g: GfdState) {
    && g.handlers.Keys == chans.Keys
    && forall id :: id in chans ==>
         && chans[id].owner in nodes
         && ChanAt(servers, nodes[chans[id].owner], chans[id], id, g.handlers[id], BaseOf(g, id))
  }

  /** What a session last reported healthy was healthy at some time. */
  ghost predicate LatestGenuine(nodes: map<string, Node>, g: GfdState) {
    forall l :: l in g.latest && g.latest[l] ==> l in nodes && nodes[l].lfd.everHealthy
  }

  ghost predicate Inv(servers: Servers, s: System) {
    && s.nodes.Keys == servers.Keys
    && NodesInv(servers, s.nodes, s.chans, s.trace)
    && ChansInv(servers, s.nodes, s.chans, s.gfd)
    && LatestGenuine(s.nodes, s.gfd)
    && Gfd.Inv(servers, s.gfd)
  }

  /** A step that concerns one handler at most, old or new, is a matter of its stream. */
  lemma OneHandlerChanged(servers: Servers, nodes: map<string, Node>, chans: map<nat, Chan>, g: GfdState, g1: GfdState,
                          id: nat, ch1: Chan)
    requires ChansInv(servers, nodes, chans, g) && g1.handlers.Keys == g.handlers.Keys + {id}
    requires forall i :: i in g.handlers && i != id ==> g1.handlers[i] == g.handlers[i] && BaseOf(g1, i) == BaseOf(g, i)
    requires ch1.owner in nodes && ChanAt(servers, nodes[ch1.owner], ch1, id, g1.handlers[id], BaseOf(g1, id))
    ensures ChansInv(servers, nodes, chans[id := ch1], g1)
  {
    hide ChanAt, BaseOf;
  }

  // ----- Steps of a local fault detector -----

  /** A stream stays in order when its owner changes elsewhere: it may become healthy, and may be told something on
      another connection. */
  lemma NodeChanged(servers: Servers, node: Node, node1: Node, ch: Chan, id: nat, phase: Phase, base: Option<bool>)
    requires ChanAt(servers, node, ch, id, phase, base)
    requires node.lfd.everHealthy ==> node1.lfd.everHealthy
    requires HeldAt(node1.line, id) == HeldAt(node.line, id)
    requires node1.told == node.told || HeldAt(node1.line, id).Detached?
    ensures ChanAt(servers, node1, ch, id, phase, base)
  {
  }

  lemma BeatMirrors(l: string, replica: string, node: Node, attempt: L.Attempt)
    requires NodeInv(node)
    ensures NodeInv(NodeBeat(l, replica, node, attempt))
  {
    var ok := L.Succeeds(node.lfd, l, replica, attempt);
    L.NotifySnoc(node.reporter, [], ok);
    assert [] + [ok] == [ok];
  }

  lemma EvidenceGrows(trace: seq<Acked>, more: seq<Acked>, l: string, replica: string)
    requires Evidence(trace, l, replica)
    ensures Evidence(trace + more, l, replica)
  {
    var i :| 0 <= i < |trace| && trace[i].lfd == l && L.ValidAck(trace[i].ack, l, replica, trace[i].sent);
    assert (trace + more)[i] == trace[i];
  }

  lemma BeatKeepsNodes(servers: Servers, s: System, l: string, attempt: L.Attempt)
    requires NodesInv(servers, s.nodes, s.chans, s.trace) && l in s.nodes && l in servers
    ensures var t := Step(servers, s, Beat(l, attempt)); NodesInv(servers, t.nodes, t.chans, t.trace)
  {
    var t := Step(servers, s, Beat(l, attempt));
    BeatMirrors(l, servers[l], s.nodes[l], attempt);
    forall k | k in t.nodes && t.nodes[k].lfd.everHealthy && k in servers
      ensures Evidence(t.trace, k, servers[k])
    {
      if s.nodes[k].lfd.everHealthy {
        EvidenceGrows(s.trace, t.trace[|s.trace|..], k, servers[k]);
        assert s.trace + t.trace[|s.trace|..] == t.trace;
      } else {
        assert L.ValidAck(t.trace[|s.trace|].ack, k, servers[k], t.trace[|s.trace|].sent);
      }
    }
  }

  /** All streams stay in order when node `l` changes in a way that concerns none of them but stream `id`. */
  lemma OneNodeChanged(servers: Servers, nodes: map<string, Node>, chans: map<nat, Chan>, g: GfdState, l: string,
                       node1: Node, id: nat)
    requires ChansInv(servers, nodes, chans, g) && l in nodes
    requires nodes[l].lfd.everHealthy ==> node1.lfd.everHealthy
    requires forall i :: i != id ==> HeldAt(node1.line, i) == HeldAt(nodes[l].line, i)
    requires forall i :: i != id ==> node1.told == nodes[l].told || HeldAt(node1.line, i).Detached?
    ensures forall i :: i in chans && i != id ==>
              && nodes[l := node1][chans[i].owner] == (if chans[i].owner == l then node1 else nodes[chans[i].owner])
              && ChanAt(servers, nodes[l := node1][chans[i].owner], chans[i], i, g.handlers[i], BaseOf(g, i))
  {
    forall i | i in chans && i != id
      ensures ChanAt(servers, nodes[l := node1][chans[i].owner], chans[i], i, g.handlers[i], BaseOf(g, i))
    {
      if chans[i].owner == l {
        NodeChanged(servers, nodes[l], node1, chans[i], i, g.handlers[i], BaseOf(g, i));
      }
    }
  }

  lemma BeatKeepsChans(servers: Servers, nodes: map<string, Node>, chans: map<nat, Chan>, g: GfdState, l: string,
                       attempt: L.Attempt)
    requires ChansInv(servers, nodes, chans, g) && l in nodes && l in servers
    ensures ChansInv(servers, nodes[l := NodeBeat(l, servers[l], nodes[l], attempt)], chans, g)
  {
    var node1 := NodeBeat(l, servers[l], nodes[l], attempt);
    forall i | i in chans
      ensures ChanAt(servers, nodes[l := node1][chans[i].owner], chans[i], i, g.handlers[i], BaseOf(g, i))
    {
      if chans[i].owner == l {
        NodeChanged(servers, nodes[l], node1, chans[i], i, g.handlers[i], BaseOf(g, i));
      }
    }
  }

  lemma LatestStaysGenuine(nodes: map<string, Node>, g: GfdState, l: string, node1: Node)
    requires LatestGenuine(nodes, g) && l in nodes && (nodes[l].lfd.everHealthy ==> node1.lfd.everHealthy)
    ensures LatestGenuine(nodes[l := node1], g)
  {
  }

  lemma LineKeepsHealth(l: string, replica: string, node: Node, ch: Chan, a: LineAction)
    ensures LineAfter(l, replica, node, ch, a).0.lfd == node.lfd
  {
  }

  lemma AcceptKeepsInv(servers: Servers, g: GfdState, id: nat)
    requires Gfd.Inv(servers, g) && id !in g.handlers
    ensures Gfd.Inv(servers, Gfd.Step(servers, g, Accept(id)))
    ensures forall i :: i != id ==> BaseOf(Gfd.Step(servers, g, Accept(id)), i) == BaseOf(g, i)
  {
  }

  lemma FreshStream(l: string, replica: string, node: Node)
    requires NodeInv(node)
    ensures var node1 := Redialled(l, replica, node, 0);
            ChanInv(l, replica, node1.lfd.everHealthy, Pending(node1.line.registration), node1.told,
                    Chan(l, [], [], true, true), AwaitRegister, None)
  {
  }

  /** Registering on a fresh stream leaves the other streams of this local fault detector alone. */
  lemma DialKeepsChans(servers: Servers, nodes: map<string, Node>, chans: map<nat, Chan>, g: GfdState, l: string,
                       id: nat)
    requires ChansInv(servers, nodes, chans, g) && Gfd.Inv(servers, g) && l in nodes && l in servers
             && NodeInv(nodes[l])
    requires nodes[l].line.Offline? && id !in chans
    ensures ChansInv(servers, nodes[l := Redialled(l, servers[l], nodes[l], id)],
                     chans[id := Chan(l, [], [], true, true)],
                     Gfd.Step(servers, g, Accept(id)))
  {
    hide ChanInv;
    var node1, g1 := Redialled(l, servers[l], nodes[l], id), Gfd.Step(servers, g, Accept(id));
    AcceptKeepsInv(servers, g, id);
    OneNodeChanged(servers, nodes, chans, g, l, node1, id);
    FreshStream(l, servers[l], nodes[l]);
    OneHandlerChanged(servers, nodes[l := node1], chans, g, g1, id, Chan(l, [], [], true, true));
  }

  lemma DialKeepsNodes(servers: Servers, s: System, l: string, id: nat)
    requires Inv(servers, s) && l in s.nodes && s.nodes[l].line.Offline? && id !in s.chans
    ensures var t := Step(servers, s, Dial(l, id)); NodesInv(servers, t.nodes, t.chans, t.trace)
  {
  }

  /** What the reporter does on its connection keeps the node and the stream in order. */
  lemma LineKeepsInv(l: string, replica: string, node: Node, ch: Chan, a: LineAction, phase: Phase, base: Option<bool>)
    requires NodeInv(node) && !node.line.Offline?
    requires ChanInv(l, replica, node.lfd.everHealthy, HeldAt(node.line, node.line.id), node.told, ch, phase, base)
    ensures var (node1, ch1) := LineAfter(l, replica, node, ch, a);
            ChanInv(l, replica, node.lfd.everHealthy, HeldAt(node1.line, node.line.id), node1.told, ch1, phase, base)
  {
    var ever, held := node.lfd.everHealthy, HeldAt(node.line, node.line.id);
    match a
    case HangUp => HangUpKeepsInv(l, replica, ever, held, node.told, ch, phase, base, node.told);
    case WriteRegistration =>
      if node.line.Registering? {
        RegistrationKeepsInv(l, replica, ever, held, node.told, ch, phase, base);
      }
    case Capture =>
      if node.line.Online? {
        CaptureKeepsInv(l, replica, ever, held, node.told, ch, phase, base, node.reporter.healthy);
      }
    case WriteReport =>
      if node.line.Online? && node.line.report.Some? {
        WriteReportKeepsInv(l, replica, ever, held, node.told, ch, phase, base);
      }
    case TakeHeartbeat =>
      if node.line.Online? && node.line.ack.None? && ch.down != [] {
        TakeHeartbeatKeepsInv(l, replica, ever, held, node.told, ch, phase, base);
      }
    case WriteAck =>
      if node.line.Online? && node.line.ack.Some? {
        WriteAckKeepsInv(l, replica, ever, held, node.told, ch, phase, base);
      }
  }

  lemma LineFrame(l: string, replica: string, node: Node, ch: Chan, a: LineAction)
    requires NodeInv(node) && !node.line.Offline?
    ensures var (node1, ch1) := LineAfter(l, replica, node, ch, a);
            && NodeInv(node1) && node1.lfd == node.lfd && ch1.owner == ch.owner
            && (node1.line.Offline? || node1.line.id == node.line.id)
  {
  }

  lemma OnLineKeepsChans(servers: Servers, nodes: map<string, Node>, chans: map<nat, Chan>, g: GfdState, l: string,
                         a: LineAction)
    requires ChansInv(servers, nodes, chans, g) && l in nodes && l in servers && NodeInv(nodes[l])
             && !nodes[l].line.Offline?
    requires nodes[l].line.id in chans && chans[nodes[l].line.id].owner == l
    ensures var (node1, ch1) := LineAfter(l, servers[l], nodes[l], chans[nodes[l].line.id], a);
            ChansInv(servers, nodes[l := node1], chans[nodes[l].line.id := ch1], g)
  {
    hide ChanInv;
    var node, id := nodes[l], nodes[l].line.id;
    var (node1, ch1) := LineAfter(l, servers[l], node, chans[id], a);
    assert ChanAt(servers, node, chans[id], id, g.handlers[id], BaseOf(g, id));
    LineFrame(l, servers[l], node, chans[id], a);
    LineKeepsInv(l, servers[l], node, chans[id], a, g.handlers[id], BaseOf(g, id));
    OneNodeChanged(servers, nodes, chans, g, l, node1, id);
  }

  lemma OnLineKeepsNodes(servers: Servers, s: System, l: string, a: LineAction)
    requires NodesInv(servers, s.nodes, s.chans, s.trace) && l in s.nodes && l in servers && !s.nodes[l].line.Offline?
    ensures var t := Step(servers, s, OnLine(l, a)); NodesInv(servers, t.nodes, t.chans, t.trace)
  {
    LineFrame(l, servers[l], s.nodes[l], s.chans[s.nodes[l].line.id], a);
  }

  // ----- Steps of a handler -----

  /** A handler that reads or ends leaves the phases and the last reports of all others alone. */
  lemma OthersUntouched(servers: Servers, g: GfdState, id: nat, m: Message)
    requires SessionsMatch(servers, g) && id in g.handlers
    ensures var g1 := Read(servers, g, id, m);
            && g1.handlers.Keys == g.handlers.Keys
            && forall i :: i in g.handlers && i != id ==>
                 g1.handlers[i] == g.handlers[i] && BaseOf(g1, i) == BaseOf(g, i)
  {
    OthersSurvive(servers, g, id);
    ReadShape(servers, g, id, m);
    hide Read, Close, BaseOf;
    var g1 := Read(servers, g, id, m);
    if g1 != Close(servers, g, id) && g1 != g {
      var l := if g.handlers[id].AwaitRegister? then m.source else LfdOf(g.handlers[id]).value;
      OneTouched(g, g1, id, l);
    }
  }

  /** A handler that reads ends, ignores the message, or changes its phase and its own last report. */
  lemma ReadShape(servers: Servers, g: GfdState, id: nat, m: Message)
    requires id in g.handlers
    ensures var g1 := Read(servers, g, id, m);
            g1 == Close(servers, g, id) || g1 == g
            || (&& (if g.handlers[id].AwaitRegister? then m.source !in g.sessions else LfdOf(g.handlers[id]).Some?)
                && var l := if g.handlers[id].AwaitRegister? then m.source else LfdOf(g.handlers[id]).value;
                   && id in g1.handlers && g1.handlers == g.handlers[id := g1.handlers[id]]
                   && (g1.latest == g.latest || (l in g1.latest && g1.latest == g.latest[l := g1.latest[l]])))
  {
    hide Close;
  }

  lemma OneTouched(g: GfdState, g1: GfdState, id: nat, l: string)
    requires id in g.handlers && id in g1.handlers && g1.handlers == g.handlers[id := g1.handlers[id]]
    requires g1.latest == g.latest || (l in g1.latest && g1.latest == g.latest[l := g1.latest[l]])
    requires forall i :: i in g.handlers && i != id ==> LfdOf(g.handlers[i]) != Some(l)
    ensures forall i :: i in g.handlers && i != id ==> BaseOf(g1, i) == BaseOf(g, i)
  {
  }

  lemma OthersSurvive(servers: Servers, g: GfdState, id: nat)
    requires SessionsMatch(servers, g) && id in g.handlers
    ensures var g1 := Close(servers, g, id);
            && g1.handlers.Keys == g.handlers.Keys
            && forall i :: i in g.handlers && i != id ==>
                 g1.handlers[i] == g.handlers[i] && BaseOf(g1, i) == BaseOf(g, i)
  {
  }

  /** Taking in a registration, a report and an acknowledgement. */
  lemma ExpectedRead(servers: Servers, l: string, g: GfdState, id: nat, m: Message)
    requires l in servers && id in g.handlers && SessionsMatch(servers, g)
    ensures var g1 := Read(servers, g, id, m);
            match g.handlers[id] {
              case AwaitRegister =>
                m.Register? && ValidReport(servers, m, l) ==>
                  && g1.handlers[id] == (if l in g.sessions then Closed else AwaitAck(l, 1))
                  && BaseOf(g1, id) == if l in g.sessions then None else Some(m.healthy)
              case AwaitAck(k, n) =>
                && (k == l && m.Membership? && ValidReport(servers, m, l) ==>
                      g1.handlers[id] == AwaitAck(l, n) && BaseOf(g1, id) == Some(m.healthy))
                && (k == l && Acknowledges(m, l, n) ==>
                      g1.handlers[id] == Between(l, n) && BaseOf(g1, id) == BaseOf(g, id))
              case Between(k, n) =>
                k == l && m.Membership? && ValidReport(servers, m, l) ==>
                  g1.handlers[id] == Between(l, n) && BaseOf(g1, id) == Some(m.healthy)
              case Closed => true
            }
  {
  }

  /** What the next message of a reporter does to its handler: `base1` is the report then read last. */
  lemma NextRead(servers: Servers, l: string, ever: bool, held: Held, told: bool, ch: Chan, g: GfdState, id: nat)
    returns (phase1: Phase, base1: Option<bool>)
    requires l in servers && id in g.handlers && !g.handlers[id].Closed? && ch.up != [] && SessionsMatch(servers, g)
    requires ChanInv(l, servers[l], ever, held, told, ch, g.handlers[id], BaseOf(g, id))
    ensures var g1 := Read(servers, g, id, ch.up[0]); phase1 == g1.handlers[id] && base1 == BaseOf(g1, id)
    ensures match g.handlers[id] {
              case AwaitRegister =>
                if l in g.sessions then phase1 == Closed
                else phase1 == AwaitAck(l, 1) && base1 == Some(ch.up[0].healthy)
              case AwaitAck(k, n) =>
                if ch.up[0].Membership? then phase1 == AwaitAck(k, n) && base1 == Some(ch.up[0].healthy)
                else ch.up[0].HeartbeatAck? && k == l && phase1 == Between(l, n) && base1 == BaseOf(g, id)
              case Between(k, n) => ch.up[0].Membership? && phase1 == Between(k, n) && base1 == Some(ch.up[0].healthy)
              case Closed => false
            }
  {
    HeadExpected(l, servers[l], ever, held, told, ch, g.handlers[id], BaseOf(g, id));
    ExpectedRead(servers, l, g, id, ch.up[0]);
    var g1 := Read(servers, g, id, ch.up[0]);
    phase1, base1 := g1.handlers[id], BaseOf(g1, id);
  }

  /** Reading it keeps the stream in order. */
  lemma TakenKeepsInv(l: string, replica: string, ever: bool, held: Held, told: bool, ch: Chan, phase: Phase,
                      base: Option<bool>,
                      phase1: Phase, base1: Option<bool>)
    requires ChanInv(l, replica, ever, held, told, ch, phase, base) && ch.up != []
    requires match phase {
               case AwaitRegister => phase1 == Closed || (phase1 == AwaitAck(l, 1) && base1 == Some(ch.up[0].healthy))
               case AwaitAck(k, n) =>
                 if ch.up[0].Membership? then phase1 == phase && base1 == Some(ch.up[0].healthy)
                 else ch.up[0].HeartbeatAck? && k == l && phase1 == Between(l, n) && base1 == base
               case Between(k, n) => ch.up[0].Membership? && phase1 == phase && base1 == Some(ch.up[0].healthy)
               case Closed => false
             }
    ensures ChanInv(l, replica, ever, held, told, PushDown(ch.(up := ch.up[1..]), HeartbeatFor(phase, phase1)), phase1,
                    base1)
  {
    assert ch.down + [] == ch.down;
    match phase
    case AwaitRegister =>
      if phase1.Closed? {
        EndedKeepsInv(l, replica, ever, held, told, ch, phase, base, base1);
      } else {
        RegistrationReadKeepsInv(l, replica, ever, held, told, ch, base);
      }
    case AwaitAck(k, n) =>
      if ch.up[0].Membership? {
        ReportReadKeepsInv(l, replica, ever, held, told, ch, phase, base);
      } else {
        AckReadKeepsInv(l, replica, ever, held, told, ch, n, base);
      }
    case Between(k, n) => ReportReadKeepsInv(l, replica, ever, held, told, ch, phase, base);
  }

  lemma ReadKeepsChans(servers: Servers, nodes: map<string, Node>, chans: map<nat, Chan>, g: GfdState, id: nat)
    requires ChansInv(servers, nodes, chans, g) && SessionsMatch(servers, g)
    requires id in chans && chans[id].up != [] && !g.handlers[id].Closed?
    ensures var (chans1, g1) := ReadAfter(servers, chans, g, id); ChansInv(servers, nodes, chans1, g1)
  {
    hide ChanInv;
    var ch, g1 := chans[id], Read(servers, g, id, chans[id].up[0]);
    assert ChanAt(servers, nodes[ch.owner], ch, id, g.handlers[id], BaseOf(g, id));
    var l := ch.owner;
    var ever, held, told := nodes[l].lfd.everHealthy, HeldAt(nodes[l].line, id), nodes[l].told;
    var phase1, base1 := NextRead(servers, l, ever, held, told, ch, g, id);
    TakenKeepsInv(l, servers[l], ever, held, told, ch, g.handlers[id], BaseOf(g, id), phase1, base1);
    OthersUntouched(servers, g, id, ch.up[0]);
    OneHandlerChanged(servers, nodes, chans, g, g1, id,
                      PushDown(ch.(up := ch.up[1..]), HeartbeatFor(g.handlers[id], g1.handlers[id])));
  }

  lemma ReadKeepsLatest(servers: Servers, nodes: map<string, Node>, g: GfdState, id: nat, l: string, m: Message)
    requires LatestGenuine(nodes, g) && id in g.handlers && l in servers && l in nodes
    requires FromReporter(l, servers[l], nodes[l].lfd.everHealthy, m)
    ensures LatestGenuine(nodes, Read(servers, g, id, m))
  {
  }

  lemma HeadFromReporter(servers: Servers, node: Node, ch: Chan, id: nat, phase: Phase, base: Option<bool>)
    requires ChanAt(servers, node, ch, id, phase, base) && ch.up != []
    ensures FromReporter(ch.owner, servers[ch.owner], node.lfd.everHealthy, ch.up[0])
  {
  }

  lemma TickKeepsStream(l: string, replica: string, ever: bool, held: Held, told: bool, ch: Chan, g: GfdState, id: nat)
    requires id in g.handlers && ChanInv(l, replica, ever, held, told, ch, g.handlers[id], BaseOf(g, id))
    ensures var g1 := Tick(g, id);
            ChanInv(l, replica, ever, held, told, PushDown(ch, HeartbeatFor(g.handlers[id], g1.handlers[id])),
                    g1.handlers[id], BaseOf(g1, id))
  {
    assert ch.down + [] == ch.down;
    if g.handlers[id].Between? {
      TickKeepsInv(l, replica, ever, held, told, ch, g.handlers[id].count, BaseOf(g, id));
    }
  }

  lemma TickKeepsChans(servers: Servers, nodes: map<string, Node>, chans: map<nat, Chan>, g: GfdState, id: nat)
    requires ChansInv(servers, nodes, chans, g) && id in chans
    ensures var (chans1, g1) := TickAfter(chans, g, id); ChansInv(servers, nodes, chans1, g1)
  {
    hide ChanInv;
    var ch, g1 := chans[id], Tick(g, id);
    assert ChanAt(servers, nodes[ch.owner], ch, id, g.handlers[id], BaseOf(g, id));
    var l := ch.owner;
    TickKeepsStream(l, servers[l], nodes[l].lfd.everHealthy, HeldAt(nodes[l].line, id), nodes[l].told, ch, g, id);
    OneHandlerChanged(servers, nodes, chans, g, g1, id, PushDown(ch, HeartbeatFor(g.handlers[id], g1.handlers[id])));
  }

  lemma TickKeepsGfd(servers: Servers, g: GfdState, id: nat)
    requires Injective(servers) && Gfd.Inv(servers, g) && id in g.handlers
    ensures Gfd.Inv(servers, Tick(g, id))
  {
  }

  lemma EndKeepsChans(servers: Servers, nodes: map<string, Node>, chans: map<nat, Chan>, g: GfdState, id: nat)
    requires ChansInv(servers, nodes, chans, g) && SessionsMatch(servers, g) && id in chans
    ensures ChansInv(servers, nodes, chans, Close(servers, g, id))
  {
    var g1 := Close(servers, g, id);
    OthersSurvive(servers, g, id);
    StreamEnds(servers, nodes[chans[id].owner], chans[id], id, g.handlers[id], BaseOf(g, id), BaseOf(g1, id));
  }

  lemma StreamEnds(servers: Servers, node: Node, ch: Chan, id: nat, phase: Phase, base: Option<bool>,
                   base1: Option<bool>)
    requires ChanAt(servers, node, ch, id, phase, base)
    ensures ChanAt(servers, node, ch, id, Closed, base1)
  {
  }

  lemma CutUpKeepsChans(servers: Servers, nodes: map<string, Node>, chans: map<nat, Chan>, g: GfdState, id: nat,
                        kept: nat)
    requires ChansInv(servers, nodes, chans, g) && id in chans && kept <= |chans[id].up|
    ensures ChansInv(servers, nodes, chans[id := chans[id].(up := chans[id].up[..kept], upOpen := false)], g)
  {
    hide ChanInv;
    var ch := chans[id];
    assert ChanAt(servers, nodes[ch.owner], ch, id, g.handlers[id], BaseOf(g, id));
    var node := nodes[ch.owner];
    CutUpKeepsInv(ch.owner, servers[ch.owner], node.lfd.everHealthy, HeldAt(node.line, id), node.told, ch,
      g.handlers[id], BaseOf(g, id), kept);
  }

  lemma CutDownKeepsChans(servers: Servers, nodes: map<string, Node>, chans: map<nat, Chan>, g: GfdState, id: nat,
                          kept: nat)
    requires ChansInv(servers, nodes, chans, g) && id in chans && kept <= |chans[id].down|
    ensures ChansInv(servers, nodes, chans[id := chans[id].(down := chans[id].down[..kept], downOpen := false)], g)
  {
    hide ChanInv;
    var ch := chans[id];
    assert ChanAt(servers, nodes[ch.owner], ch, id, g.handlers[id], BaseOf(g, id));
    var node := nodes[ch.owner];
    CutDownKeepsInv(ch.owner, servers[ch.owner], node.lfd.everHealthy, HeldAt(node.line, id), node.told, ch,
      g.handlers[id], BaseOf(g, id), kept);
  }

  /** Streams never change their owner, so the nodes are not concerned. */
  lemma StreamsKeepNodes(servers: Servers, nodes: map<string, Node>, chans: map<nat, Chan>, trace: seq<Acked>, id: nat,
                         ch: Chan)
    requires NodesInv(servers, nodes, chans, trace) && id in chans && ch.owner == chans[id].owner
    ensures NodesInv(servers, nodes, chans[id := ch], trace)
  {
  }

  // ----- All steps, all runs -----

  lemma BeatKeepsSystem(servers: Servers, s: System, l: string, attempt: L.Attempt)
    requires Inv(servers, s)
    ensures Inv(servers, Step(servers, s, Beat(l, attempt)))
  {
    hide ChanAt, NodeInv, L.Succeeds, L.CallbackOf, Evidence;
    if l in servers {
      BeatKeepsNodes(servers, s, l, attempt);
      BeatKeepsChans(servers, s.nodes, s.chans, s.gfd, l, attempt);
      LatestStaysGenuine(s.nodes, s.gfd, l, NodeBeat(l, servers[l], s.nodes[l], attempt));
    }
  }

  lemma DialKeepsSystem(servers: Servers, s: System, l: string, id: nat)
    requires Inv(servers, s)
    ensures Inv(servers, Step(servers, s, Dial(l, id)))
  {
    if l in servers && s.nodes[l].line.Offline? && id !in s.chans {
      DialKeepsNodes(servers, s, l, id);
      DialKeepsChans(servers, s.nodes, s.chans, s.gfd, l, id);
      AcceptKeepsInv(servers, s.gfd, id);
      LatestStaysGenuine(s.nodes, s.gfd, l, Redialled(l, servers[l], s.nodes[l], id));
    }
  }

  lemma OnLineKeepsSystem(servers: Servers, s: System, l: string, a: LineAction)
    requires Inv(servers, s)
    ensures Inv(servers, Step(servers, s, OnLine(l, a)))
  {
    hide LineAfter, ChanAt, NodeInv;
    if l in servers && !s.nodes[l].line.Offline? {
      var node, ch := s.nodes[l], s.chans[s.nodes[l].line.id];
      LineKeepsHealth(l, servers[l], node, ch, a);
      OnLineKeepsNodes(servers, s, l, a);
      OnLineKeepsChans(servers, s.nodes, s.chans, s.gfd, l, a);
      LatestStaysGenuine(s.nodes, s.gfd, l, LineAfter(l, servers[l], node, ch, a).0);
    }
  }

  lemma ReadNextKeepsSystem(servers: Servers, s: System, id: nat)
    requires Injective(servers) && Inv(servers, s)
    ensures Inv(servers, Step(servers, s, ReadNext(id)))
  {
    if id in s.chans && s.chans[id].up != [] && !s.gfd.handlers[id].Closed? {
      ReadKeepsChans(servers, s.nodes, s.chans, s.gfd, id);
      var l := s.chans[id].owner;
      HeadFromReporter(servers, s.nodes[l], s.chans[id], id, s.gfd.handlers[id], BaseOf(s.gfd, id));
      ReadKeepsLatest(servers, s.nodes, s.gfd, id, l, s.chans[id].up[0]);
      Gfd.StepKeepsInv(servers, s.gfd, Receive(id, s.chans[id].up[0]));
      StreamsKeepNodes(servers, s.nodes, s.chans, s.trace, id, Step(servers, s, ReadNext(id)).chans[id]);
    }
  }

  lemma PauseEndsKeepsSystem(servers: Servers, s: System, id: nat)
    requires Injective(servers) && Inv(servers, s)
    ensures Inv(servers, Step(servers, s, PauseEnds(id)))
  {
    if id in s.chans {
      TickKeepsChans(servers, s.nodes, s.chans, s.gfd, id);
      TickKeepsGfd(servers, s.gfd, id);
      StreamsKeepNodes(servers, s.nodes, s.chans, s.trace, id, Step(servers, s, PauseEnds(id)).chans[id]);
    }
  }

  lemma EndHandlingKeepsSystem(servers: Servers, s: System, id: nat)
    requires Injective(servers) && Inv(servers, s)
    ensures Inv(servers, Step(servers, s, EndHandling(id)))
  {
    if id in s.chans {
      EndKeepsChans(servers, s.nodes, s.chans, s.gfd, id);
      Gfd.CloseKeepsInv(servers, s.gfd, id);
    }
  }

  lemma CutUpKeepsSystem(servers: Servers, s: System, id: nat, kept: nat)
    requires Inv(servers, s)
    ensures Inv(servers, Step(servers, s, CutUp(id, kept)))
  {
    hide ChanAt, NodeInv;
    if id in s.chans && kept <= |s.chans[id].up| {
      CutUpKeepsChans(servers, s.nodes, s.chans, s.gfd, id, kept);
      StreamsKeepNodes(servers, s.nodes, s.chans, s.trace, id, Step(servers, s, CutUp(id, kept)).chans[id]);
    }
  }

  lemma CutDownKeepsSystem(servers: Servers, s: System, id: nat, kept: nat)
    requires Inv(servers, s)
    ensures Inv(servers, Step(servers, s, CutDown(id, kept)))
  {
    hide ChanAt, NodeInv;
    if id in s.chans && kept <= |s.chans[id].down| {
      CutDownKeepsChans(servers, s.nodes, s.chans, s.gfd, id, kept);
      StreamsKeepNodes(servers, s.nodes, s.chans, s.trace, id, Step(servers, s, CutDown(id, kept)).chans[id]);
    }
  }

  lemma StepKeepsInv(servers: Servers, s: System, a: Action)
    requires Injective(servers) && Inv(servers, s)
    ensures Inv(servers, Step(servers, s, a))
  {
    match a
    case Beat(l, attempt) => BeatKeepsSystem(servers, s, l, attempt);
    case Dial(l, id) => DialKeepsSystem(servers, s, l, id);
    case OnLine(l, action) => OnLineKeepsSystem(servers, s, l, action);
    case ReadNext(id) => ReadNextKeepsSystem(servers, s, id);
    case PauseEnds(id) => PauseEndsKeepsSystem(servers, s, id);
    case EndHandling(id) => EndHandlingKeepsSystem(servers, s, id);
    case CutUp(id, kept) => CutUpKeepsSystem(servers, s, id, kept);
    case CutDown(id, kept) => CutDownKeepsSystem(servers, s, id, kept);
  }

  lemma {:induction false} RunKeepsInv(servers: Servers, run: seq<Action>)
    requires Injective(servers)
    ensures Inv(servers, After(servers, run))
  {
    if run != [] {
      RunKeepsInv(servers, run[..|run| - 1]);
      StepKeepsInv(servers, After(servers, run[..|run| - 1]), run[|run| - 1]);
    }
  }

  /** The handler at the other end of the current connection has registered it, and nothing has been cut off. */
  predicate Connected(s: System, l: string) {
    && l in s.nodes && s.nodes[l].line.Online? && s.nodes[l].line.id in s.chans && s.nodes[l].line.id in s.gfd.handlers
    && s.chans[s.nodes[l].line.id].upOpen && LfdOf(s.gfd.handlers[s.nodes[l].line.id]) == Some(l)
  }

  predicate Drained(s: System, l: string) {
    && Connected(s, l) && s.nodes[l].line.report.None? && !s.nodes[l].reporter.changed
    && s.chans[s.nodes[l].line.id].up == []
  }

  lemma LastTold(servers: Servers, node: Node, ch: Chan, phase: Phase, base: Option<bool>)
    requires node.line.Online? && ch.upOpen && LfdOf(phase).Some?
    ensures ChanAt(servers, node, ch, node.line.id, phase, base) ==>
              Told(base, ch.up, Attached(node.line.report, node.line.ack)) == Some(node.told)
  {
  }

  lemma MemberIffRead(servers: Servers, g: GfdState, l: string, id: nat)
    requires Injective(servers) && Gfd.Inv(servers, g) && l in servers && id in g.handlers
             && LfdOf(g.handlers[id]) == Some(l)
    ensures BaseOf(g, id) == Some(servers[l] in g.members)
  {
    assert l in g.sessions;
  }

  /** No health update is lost, whatever is coalesced, delayed, cut off or registered again: an update still waits, or
      the current connection was told the health there is, or there is no connection yet and the registration will tell
      it. What a registered connection was told last is the last report under way, or else the last one read. */
  lemma NoLostUpdate(servers: Servers, run: seq<Action>, l: string)
    requires Injective(servers) && l in servers
    ensures var s := After(servers, run);
            && l in s.nodes
            && (s.nodes[l].line.Offline? || s.nodes[l].reporter.changed || s.nodes[l].told == s.nodes[l].lfd.healthy)
            && (Connected(s, l) ==>
                  var id := s.nodes[l].line.id;
                  Told(BaseOf(s.gfd, id), s.chans[id].up, Attached(s.nodes[l].line.report, s.nodes[l].line.ack))
                  == Some(s.nodes[l].told))
  {
    hide Step;
    RunKeepsInv(servers, run);
    var s := After(servers, run);
    if Connected(s, l) {
      var id := s.nodes[l].line.id;
      LastTold(servers, s.nodes[l], s.chans[id], s.gfd.handlers[id], BaseOf(s.gfd, id));
    }
  }

  /** So once all is read, the replica is a member exactly when its local fault detector holds it healthy. */
  lemma DrainedMembership(servers: Servers, run: seq<Action>, l: string)
    requires Injective(servers) && l in servers
    ensures var s := After(servers, run); Drained(s, l) ==> (servers[l] in s.gfd.members <==> s.nodes[l].lfd.healthy)
  {
    hide ChanInv;
    var s := After(servers, run);
    if Drained(s, l) {
      NoLostUpdate(servers, run, l);
      RunKeepsInv(servers, run);
      MemberIffRead(servers, s.gfd, l, s.nodes[l].line.id);
    }
  }

  /** A replica is a member only if its local fault detector has accepted an acknowledgement of that very replica, to
      the heartbeat number it had sent. */
  lemma MembersWereAcknowledged(servers: Servers, run: seq<Action>, replica: string)
    requires Injective(servers)
    ensures replica in After(servers, run).gfd.members ==>
              exists l :: l in servers && servers[l] == replica && Evidence(After(servers, run).trace, l, replica)
  {
    hide Step;
    RunKeepsInv(servers, run);
    var s := After(servers, run);
    if replica in s.gfd.members {
      var l :| l in s.gfd.sessions && l in servers && l in s.gfd.latest && s.gfd.latest[l] && servers[l] == replica;
      assert s.nodes[l].lfd.everHealthy;
      assert Evidence(s.trace, l, replica);
    }
  }

  /** That acknowledgement precedes the step that adds the replica. */
  lemma AddIsPreceded(servers: Servers, run: seq<Action>, a: Action, replica: string)
    requires Injective(servers)
    requires replica !in After(servers, run).gfd.members && replica in After(servers, run + [a]).gfd.members
    ensures exists l :: l in servers && servers[l] == replica && Evidence(After(servers, run).trace, l, replica)
  {
    assert (run + [a])[..|run|] == run;
    MembersWereAcknowledged(servers, run + [a], replica);
    assert !a.Beat?;
  }

  /** Between reporter and handler no protocol error arises: the next message read never ends a registered handler, and
      ends an unregistered one only because its local fault detector already has a session. */
  lemma StreamsAreErrorFree(servers: Servers, run: seq<Action>, id: nat)
    requires Injective(servers) && id in After(servers, run).chans
    ensures var s := After(servers, run);
            id in s.gfd.handlers && (s.chans[id].up != [] && !s.gfd.handlers[id].Closed? ==>
              (Read(servers, s.gfd, id, s.chans[id].up[0]).handlers[id].Closed?
               <==> s.gfd.handlers[id].AwaitRegister? && s.chans[id].owner in s.gfd.sessions))
  {
    hide Step;
    RunKeepsInv(servers, run);
    var s := After(servers, run);
    var ch := s.chans[id];
    if ch.up != [] && !s.gfd.handlers[id].Closed? {
      var node := s.nodes[ch.owner];
      var _, _ := NextRead(servers, ch.owner, node.lfd.everHealthy, HeldAt(node.line, id), node.told, ch, s.gfd, id);
    }
  }

  /** At most one heartbeat of a stream is unacknowledged, and it is the one the handler waits for; the reporter only
      finds heartbeats meant for it. */
  lemma OneHeartbeatAtATime(servers: Servers, run: seq<Action>, id: nat)
    requires Injective(servers) && id in After(servers, run).chans
    ensures var s := After(servers, run);
            var ch, l := s.chans[id], s.chans[id].owner;
            && id in s.gfd.handlers && l in s.nodes
            && (var unacknowledged := Outstanding(ch.up, HeldAt(s.nodes[l].line, id), ch.down);
                match s.gfd.handlers[id]
                case AwaitAck(_, n) => unacknowledged == [] || unacknowledged == [n]
                case Between(_, _) => unacknowledged == []
                case AwaitRegister => unacknowledged == []
                case Closed => true)
            && (forall i :: 0 <= i < |ch.down| ==> R.IsHeartbeatFor(ch.down[i], l))
  {
    hide Step;
    RunKeepsInv(servers, run);
    var s := After(servers, run);
    assert ChanAt(servers, s.nodes[s.chans[id].owner], s.chans[id], id, s.gfd.handlers[id], BaseOf(s.gfd, id));
  }

  // ----- An update that waits arrives -----

  lemma AfterStep(servers: Servers, run: seq<Action>, a: Action)
    ensures After(servers, run + [a]) == Step(servers, After(servers, run), a)
  {
    assert (run + [a])[..|run|] == run;
  }

  /** A registered handler stays registered when it reads. */
  lemma ReadGoesOn(servers: Servers, node: Node, ch: Chan, g: GfdState, id: nat)
    requires id in g.handlers && ChanAt(servers, node, ch, id, g.handlers[id], BaseOf(g, id))
             && SessionsMatch(servers, g)
    requires LfdOf(g.handlers[id]).Some? && ch.up != []
    ensures LfdOf(Read(servers, g, id, ch.up[0]).handlers[id]) == LfdOf(g.handlers[id])
  {
    var _, _ := NextRead(servers, ch.owner, node.lfd.everHealthy, HeldAt(node.line, id), node.told, ch, g, id);
  }

  lemma ReadShortens(servers: Servers, s: System, l: string)
    requires Connected(s, l) && SessionsMatch(servers, s.gfd) && s.chans[s.nodes[l].line.id].up != []
    requires var id := s.nodes[l].line.id;
             ChanAt(servers, s.nodes[l], s.chans[id], id, s.gfd.handlers[id], BaseOf(s.gfd, id))
    ensures var t := Step(servers, s, ReadNext(s.nodes[l].line.id));
            && t.nodes == s.nodes && Connected(t, l)
            && t.chans[s.nodes[l].line.id].up == s.chans[s.nodes[l].line.id].up[1..]
  {
    var id := s.nodes[l].line.id;
    ReadGoesOn(servers, s.nodes[l], s.chans[id], s.gfd, id);
    assert id in Read(servers, s.gfd, id, s.chans[id].up[0]).handlers;
  }

  function Reads(id: nat, n: nat): seq<Action> {
    if n == 0 then [] else Reads(id, n - 1) + [ReadNext(id)]
  }

  lemma NextReadShortens(servers: Servers, s: System, l: string)
    requires Inv(servers, s) && Connected(s, l) && s.chans[s.nodes[l].line.id].up != []
    ensures var id := s.nodes[l].line.id;
            var t := Step(servers, s, ReadNext(id));
            t.nodes == s.nodes && Connected(t, l) && t.chans[id].up == s.chans[id].up[1..]
  {
    hide Step, ChanAt;
    ReadShortens(servers, s, l);
  }

  function ReadAll(servers: Servers, s: System, id: nat, n: nat): System {
    if n == 0 then s else Step(servers, ReadAll(servers, s, id, n - 1), ReadNext(id))
  }

  lemma {:induction false} AfterReads(servers: Servers, run: seq<Action>, id: nat, n: nat)
    ensures After(servers, run + Reads(id, n)) == ReadAll(servers, After(servers, run), id, n)
  {
    hide Step;
    if n == 0 {
      assert run + Reads(id, n) == run;
    } else {
      assert run + Reads(id, n) == run + Reads(id, n - 1) + [ReadNext(id)];
      AfterReads(servers, run, id, n - 1);
      AfterStep(servers, run + Reads(id, n - 1), ReadNext(id));
    }
  }

  /** Reading `n` messages takes them off the stream. */
  lemma {:induction false} ReadsShorten(servers: Servers, s: System, l: string, id: nat, n: nat)
    requires Injective(servers) && Inv(servers, s)
    requires Connected(s, l) && s.nodes[l].line.id == id && n <= |s.chans[id].up|
    ensures var t := ReadAll(servers, s, id, n);
            Inv(servers, t) && t.nodes == s.nodes && Connected(t, l) && t.chans[id].up == s.chans[id].up[n..]
  {
    hide Step, Inv;
    if n > 0 {
      var before := ReadAll(servers, s, id, n - 1);
      ReadsShorten(servers, s, l, id, n - 1);
      ReadNextKeepsSystem(servers, before, id);
      NextReadShortens(servers, before, l);
    }
  }

  /** Writing and capturing keep a registered connection. */
  lemma WriteGoesOn(servers: Servers, s: System, l: string, a: LineAction)
    requires l in servers && Connected(s, l) && (a.WriteReport? || a.Capture?)
    ensures var t := Step(servers, s, OnLine(l, a));
            && Connected(t, l) && t.nodes[l].line.id == s.nodes[l].line.id && t.nodes[l].lfd == s.nodes[l].lfd
            && (a.WriteReport? ==> t.nodes[l].line.report.None? && t.nodes[l].reporter == s.nodes[l].reporter)
            && (a.Capture? && s.nodes[l].line.report.None? ==> !t.nodes[l].reporter.changed)
  {
  }

  /** Writing the report that waits, capturing a last one and writing it leaves nothing to report. */
  lemma WritesFlush(servers: Servers, run: seq<Action>, l: string)
    requires l in servers && Connected(After(servers, run), l)
    ensures var s, t := After(servers, run), After(servers, run + Flush(l));
            && Connected(t, l) && t.nodes[l].line.id == s.nodes[l].line.id && t.nodes[l].lfd == s.nodes[l].lfd
            && t.nodes[l].line.report.None? && !t.nodes[l].reporter.changed
  {
    var run1 := run + [OnLine(l, WriteReport)];
    var run2 := run1 + [OnLine(l, Capture)];
    AfterStep(servers, run, OnLine(l, WriteReport));
    AfterStep(servers, run1, OnLine(l, Capture));
    AfterStep(servers, run2, OnLine(l, WriteReport));
    assert run + Flush(l) == run2 + [OnLine(l, WriteReport)];
    WriteGoesOn(servers, After(servers, run), l, WriteReport);
    WriteGoesOn(servers, After(servers, run1), l, Capture);
    WriteGoesOn(servers, After(servers, run2), l, WriteReport);
  }

  function Flush(l: string): seq<Action> {
    [OnLine(l, WriteReport), OnLine(l, Capture), OnLine(l, WriteReport)]
  }

  /** As long as a registered connection holds, any update still waiting can be moved to the members: writing and
      reading alone bring them to agree with the health. */
  lemma UpdateArrives(servers: Servers, run: seq<Action>, l: string)
    requires Injective(servers) && l in servers && Connected(After(servers, run), l)
    ensures var s, flushed := After(servers, run), After(servers, run + Flush(l));
            var id := s.nodes[l].line.id;
            id in flushed.chans
            && var t := After(servers, run + Flush(l) + Reads(id, |flushed.chans[id].up|));
               && Drained(t, l) && t.nodes[l].lfd == s.nodes[l].lfd
               && (servers[l] in t.gfd.members <==> s.nodes[l].lfd.healthy)
  {
    WritesFlush(servers, run, l);
    var id, flushed := After(servers, run).nodes[l].line.id, After(servers, run + Flush(l));
    var pending := |flushed.chans[id].up|;
    RunKeepsInv(servers, run + Flush(l));
    ReadsShorten(servers, flushed, l, id, pending);
    AfterReads(servers, run + Flush(l), id, pending);
    DrainedMembership(servers, run + Flush(l) + Reads(id, pending), l);
  }

  // ----- And from everywhere else a registered connection can be had -----

  lemma {:induction false} Above(ids: set<nat>) returns (bound: nat)
    ensures forall id :: id in ids ==> id < bound
    decreases |ids|
  {
    bound := 0;
    if id :| id in ids {
      var rest := Above(ids - {id});
      bound := if rest <= id then id + 1 else rest;
      assert forall i :: i in ids ==> i == id || i in ids - {id};
    }
  }

  /** Line `id` of `l` is not registered yet; its handler waits, and no session of `l` is in its way. */
  predicate Waits(servers: Servers, s: System, l: string, id: nat) {
    && l in s.nodes && l in servers && id in s.chans && id in s.gfd.handlers && s.gfd.handlers[id].AwaitRegister?
    && l !in s.gfd.sessions && s.chans[id].owner == l && s.chans[id].upOpen
  }

  lemma HangUpFrees(servers: Servers, s: System, l: string)
    requires l in servers && Inv(servers, s)
    ensures var t := Step(servers, s, OnLine(l, HangUp));
            l in s.nodes && l in t.nodes && t.nodes[l].line.Offline? && t.nodes[l].lfd == s.nodes[l].lfd
  {
    hide ChansInv, LatestGenuine, Evidence;
  }

  lemma CloseFrees(servers: Servers, g: GfdState, l: string)
    requires SessionsMatch(servers, g) && l in g.sessions
    ensures l !in Close(servers, g, g.sessions[l]).sessions
  {
  }

  lemma EndFrees(servers: Servers, s: System, l: string)
    requires Inv(servers, s) && l in s.gfd.sessions
    ensures var t := Step(servers, s, EndHandling(s.gfd.sessions[l])); t.nodes == s.nodes && l !in t.gfd.sessions
  {
    hide Close, ChansInv, NodesInv, LatestGenuine;
    CloseFrees(servers, s.gfd, l);
  }

  lemma DialWaits(servers: Servers, s: System, l: string, id: nat)
    requires l in servers && l in s.nodes && s.nodes[l].line.Offline? && l !in s.gfd.sessions
    requires id !in s.chans && id !in s.gfd.handlers
    ensures var t := Step(servers, s, Dial(l, id));
            && Waits(servers, t, l, id) && t.chans[id].up == [] && t.nodes[l].lfd == s.nodes[l].lfd
            && t.nodes[l].line == Registering(id, Register(l, GFD, servers[l], s.nodes[l].reporter.healthy))
  {
  }

  lemma RegistrationWritten(servers: Servers, s: System, l: string, id: nat, healthy: bool)
    requires Waits(servers, s, l, id) && s.chans[id].up == []
    requires s.nodes[l].line == Registering(id, Register(l, GFD, servers[l], healthy))
    ensures var t := Step(servers, s, OnLine(l, WriteRegistration));
            && Waits(servers, t, l, id) && t.nodes[l].line == Online(id, None, None) && t.nodes[l].lfd == s.nodes[l].lfd
            && t.chans[id].up == [Register(l, GFD, servers[l], healthy)]
  {
  }

  lemma RegistrationAdmitted(servers: Servers, s: System, l: string, id: nat, healthy: bool)
    requires Waits(servers, s, l, id) && s.nodes[l].line == Online(id, None, None)
    requires s.chans[id].up == [Register(l, GFD, servers[l], healthy)]
    ensures var t := Step(servers, s, ReadNext(id)); Connected(t, l) && t.nodes == s.nodes
  {
    RegisteredExactlyWhen(servers, s.gfd, id, s.chans[id].up[0], l);
  }

  /** Steps that restore a connection or move reports: no heartbeat to the replica is among them. */
  predicate Mending(run: seq<Action>) {
    forall i :: 0 <= i < |run| ==> !run[i].Beat? && !run[i].CutUp? && !run[i].CutDown?
  }

  /** Hanging up and, if there still is one, ending the old session clears the way. */
  lemma WayCleared(servers: Servers, run: seq<Action>, l: string) returns (more: seq<Action>)
    requires Injective(servers) && l in servers
    ensures Mending(more)
    ensures var s, t := After(servers, run), After(servers, run + more);
            && l in s.nodes && l in t.nodes && t.nodes[l].line.Offline? && l !in t.gfd.sessions
            && t.nodes[l].lfd == s.nodes[l].lfd
  {
    hide Step, After, Inv;
    RunKeepsInv(servers, run);
    HangUpFrees(servers, After(servers, run), l);
    AfterStep(servers, run, OnLine(l, HangUp));
    more := [OnLine(l, HangUp)];
    var s := After(servers, run + more);
    if l in s.gfd.sessions {
      var end := EndHandling(s.gfd.sessions[l]);
      RunKeepsInv(servers, run + more);
      EndFrees(servers, s, l);
      AfterStep(servers, run + more, end);
      assert run + more + [end] == run + (more + [end]);
      more := more + [end];
    }
  }

  /** Then a new connection can be registered. */
  lemma Reconnects(servers: Servers, run: seq<Action>, l: string) returns (more: seq<Action>)
    requires Injective(servers) && l in servers
    requires var s := After(servers, run); l in s.nodes && s.nodes[l].line.Offline? && l !in s.gfd.sessions
    ensures Mending(more)
    ensures var s, t := After(servers, run), After(servers, run + more);
            Connected(t, l) && t.nodes[l].lfd == s.nodes[l].lfd
  {
    hide Step, After;
    RunKeepsInv(servers, run);
    var s := After(servers, run);
    var healthy := s.nodes[l].reporter.healthy;
    var id := Above(s.chans.Keys);
    DialWaits(servers, s, l, id);
    AfterStep(servers, run, Dial(l, id));
    var run1 := run + [Dial(l, id)];
    RegistrationWritten(servers, After(servers, run1), l, id, healthy);
    AfterStep(servers, run1, OnLine(l, WriteRegistration));
    var run2 := run1 + [OnLine(l, WriteRegistration)];
    RegistrationAdmitted(servers, After(servers, run2), l, id, healthy);
    AfterStep(servers, run2, ReadNext(id));
    more := [Dial(l, id), OnLine(l, WriteRegistration), ReadNext(id)];
    assert run2 + [ReadNext(id)] == run + more;
  }

  /** From every reachable state, offline, registering, rejected behind a stale session or cut off, hanging up, ending
      the old handler, registering anew and draining bring the members to agree with the health. */
  lemma AgreementAlwaysReachable(servers: Servers, run: seq<Action>, l: string) returns (more: seq<Action>)
    requires Injective(servers) && l in servers
    ensures Mending(more)
    ensures var s, t := After(servers, run), After(servers, run + more);
            && l in s.nodes && Drained(t, l) && t.nodes[l].lfd == s.nodes[l].lfd
            && (servers[l] in t.gfd.members <==> s.nodes[l].lfd.healthy)
  {
    hide Step, After;
    var cleared := WayCleared(servers, run, l);
    var connecting := Reconnects(servers, run + cleared, l);
    var run1 := run + cleared + connecting;
    UpdateArrives(servers, run1, l);
    var id := After(servers, run1).nodes[l].line.id;
    var draining := Flush(l) + Reads(id, |After(servers, run1 + Flush(l)).chans[id].up|);
    ReadsMend(id, |After(servers, run1 + Flush(l)).chans[id].up|);
    more := cleared + connecting + draining;
    assert run1 + Flush(l) + Reads(id, |After(servers, run1 + Flush(l)).chans[id].up|) == run + more;
  }

  lemma {:induction false} ReadsMend(id: nat, n: nat)
    ensures Mending(Reads(id, n))
  {
    if n > 0 {
      ReadsMend(id, n - 1);
    }
  }

  /** What the last attempt found out about the replica can always be brought to the members: they then have it if and
      only if the attempt was answered by the replica's acknowledgement of the heartbeat sent. */
  lemma OutcomeReachesMembership(servers: Servers, run: seq<Action>, l: string, attempt: L.Attempt)
    returns (more: seq<Action>)
    requires Injective(servers) && l in servers
    ensures Mending(more)
    ensures var s, t := After(servers, run), After(servers, run + [Beat(l, attempt)] + more);
            && l in s.nodes
            && (servers[l] in t.gfd.members <==>
                  attempt == L.Answer(HeartbeatAck(servers[l], l, s.nodes[l].lfd.count)))
  {
    hide Step, After;
    more := AgreementAlwaysReachable(servers, run + [Beat(l, attempt)], l);
    RunKeepsInv(servers, run);
    AfterStep(servers, run, Beat(l, attempt));
    BeatFindsOut(servers, After(servers, run), l, attempt);
  }

  lemma BeatFindsOut(servers: Servers, s: System, l: string, attempt: L.Attempt)
    requires l in servers && l in s.nodes
    ensures var t := Step(servers, s, Beat(l, attempt));
            && l in t.nodes
            && (t.nodes[l].lfd.healthy <==> attempt == L.Answer(HeartbeatAck(servers[l], l, s.nodes[l].lfd.count)))
  {
  }

  // ----- Cuts are final -----

  /** What is under way on a stream, in both directions. */
  function UnderWay(s: System, id: nat): (n: (nat, nat)) {
    if id in s.chans then (|s.chans[id].up|, |s.chans[id].down|) else (0, 0)
  }

  lemma StepMendsNothing(servers: Servers, s: System, a: Action, id: nat)
    requires id in s.chans
    ensures var ch, t := s.chans[id], Step(servers, s, a);
            && id in t.chans
            && (!ch.upOpen ==> !t.chans[id].upOpen && |t.chans[id].up| <= |ch.up|)
            && (!ch.downOpen ==> !t.chans[id].downOpen && |t.chans[id].down| <= |ch.down|)
  {
    hide Read, Tick, Close, HeartbeatFor, NodeBeat, Gfd.Step, L.Succeeds;
  }

  lemma {:induction false} RunMendsNothing(servers: Servers, run: seq<Action>, more: seq<Action>, id: nat)
    requires id in After(servers, run).chans
    ensures var ch, t := After(servers, run).chans[id], After(servers, run + more);
            && id in t.chans
            && (!ch.upOpen ==> !t.chans[id].upOpen && |t.chans[id].up| <= |ch.up|)
            && (!ch.downOpen ==> !t.chans[id].downOpen && |t.chans[id].down| <= |ch.down|)
  {
    hide Step;
    if more == [] {
      assert run + more == run;
    } else {
      var n := |more| - 1;
      RunMendsNothing(servers, run, more[..n], id);
      assert run + more == run + more[..n] + [more[n]];
      AfterStep(servers, run + more[..n], more[n]);
      StepMendsNothing(servers, After(servers, run + more[..n]), more[n], id);
    }
  }

  /** Behind a cut there is never more under way on a stream than it kept, whatever either end still writes. */
  lemma CutsAreFinal(servers: Servers, run: seq<Action>, more: seq<Action>, id: nat, kept: nat)
    requires id in After(servers, run).chans
    ensures kept <= UnderWay(After(servers, run), id).0 ==>
              UnderWay(After(servers, run + [CutUp(id, kept)] + more), id).0 <= kept
    ensures kept <= UnderWay(After(servers, run), id).1 ==>
              UnderWay(After(servers, run + [CutDown(id, kept)] + more), id).1 <= kept
  {
    hide After;
    AfterStep(servers, run, CutUp(id, kept));
    AfterStep(servers, run, CutDown(id, kept));
    RunMendsNothing(servers, run + [CutUp(id, kept)], more, id);
    RunMendsNothing(servers, run + [CutDown(id, kept)], more, id);
  }

  // ----- Heartbeats of a stream are answered -----

  lemma {:induction false} NoAckIn(queue: seq<Message>)
    requires Acks(queue) == []
    ensures forall i :: 0 <= i < |queue| ==> !queue[i].HeartbeatAck?
    decreases |queue|
  {
    if queue != [] {
      NoAckIn(queue[1..]);
      forall i | 0 < i < |queue|
        ensures !queue[i].HeartbeatAck?
      {
        assert queue[i] == queue[1..][i - 1];
      }
    }
  }

  /** The heartbeat on its way down is the one the handler waits for, and only reports are on their way up. */
  lemma HeartbeatArrives(l: string, replica: string, ever: bool, held: Held, told: bool, ch: Chan, n: nat,
                         base: Option<bool>)
    requires ChanInv(l, replica, ever, held, told, ch, AwaitAck(l, n), base) && ch.down != []
    ensures ch.down == [Heartbeat(GFD, l, n)]
    ensures forall i :: 0 <= i < |ch.up| ==> ch.up[i].Membership?
  {
    assert Beats(ch.down) == [ch.down[0].count] + Beats(ch.down[1..]);
    assert Outstanding(ch.up, held, ch.down) == [n];
    assert |Acks(ch.up)| + |HeldAck(held)| + 1 + |Beats(ch.down[1..])| == 1;
    assert Outstanding(ch.up, held, ch.down) == [] + [] + [ch.down[0].count];
    assert [n][0] == ch.down[0].count;
    NoAckIn(ch.up);
  }

  /** The reporter takes that heartbeat and writes its acknowledgement behind what is under way. */
  lemma AckWritten(servers: Servers, s: System, l: string, n: nat)
    requires l in servers && Connected(s, l) && s.nodes[l].line.ack.None?
    requires s.chans[s.nodes[l].line.id].down == [Heartbeat(GFD, l, n)]
    ensures var id := s.nodes[l].line.id;
            var t := Step(servers, Step(servers, s, OnLine(l, TakeHeartbeat)), OnLine(l, WriteAck));
            && Connected(t, l) && t.nodes == s.nodes && t.gfd == s.gfd
            && t.chans[id] == s.chans[id].(up := s.chans[id].up + [HeartbeatAck(l, GFD, n)], down := [])
  {
    var t := Step(servers, Step(servers, s, OnLine(l, TakeHeartbeat)), OnLine(l, WriteAck));
    assert t.nodes == s.nodes[l := s.nodes[l]];
  }

  /** Reading up to and including the acknowledgement ends the wait of the handler. */
  lemma {:induction false} ReadsReachAck(servers: Servers, s: System, l: string, id: nat, n: nat, k: nat)
    requires Injective(servers) && Inv(servers, s) && l in servers
    requires Connected(s, l) && s.nodes[l].line.id == id && s.gfd.handlers[id] == AwaitAck(l, n)
    requires k <= |s.chans[id].up|
    requires forall i :: 0 <= i < k && i + 1 < |s.chans[id].up| ==> s.chans[id].up[i].Membership?
    requires s.chans[id].up != [] && s.chans[id].up[|s.chans[id].up| - 1].HeartbeatAck?
    ensures var t := ReadAll(servers, s, id, k);
            && Inv(servers, t) && t.nodes == s.nodes && Connected(t, l) && t.chans[id].up == s.chans[id].up[k..]
            && t.chans[id].owner == s.chans[id].owner
            && t.chans[id].down == s.chans[id].down && t.chans[id].downOpen == s.chans[id].downOpen
            && t.gfd.handlers[id] == if k < |s.chans[id].up| then AwaitAck(l, n) else Between(l, n)
  {
    hide Step, Inv;
    if k > 0 {
      var before := ReadAll(servers, s, id, k - 1);
      ReadsReachAck(servers, s, l, id, n, k - 1);
      ReadNextKeepsSystem(servers, before, id);
      NextReadShortens(servers, before, l);
      AwaitedRead(servers, before, l, id, n);
    }
  }

  /** One message read by a handler that waits for an acknowledgement. */
  lemma AwaitedHead(servers: Servers, node: Node, ch: Chan, g: GfdState, id: nat, l: string, n: nat)
    requires id in g.handlers && ChanAt(servers, node, ch, id, g.handlers[id], BaseOf(g, id))
    requires SessionsMatch(servers, g) && g.handlers[id] == AwaitAck(l, n) && ch.up != []
    ensures var g1 := Read(servers, g, id, ch.up[0]);
            id in g1.handlers && g1.handlers[id] == if ch.up[0].Membership? then AwaitAck(l, n) else Between(l, n)
  {
    var _, _ := NextRead(servers, ch.owner, node.lfd.everHealthy, HeldAt(node.line, id), node.told, ch, g, id);
  }

  lemma ReadNextEffect(servers: Servers, s: System, id: nat)
    requires id in s.chans && id in s.gfd.handlers && s.chans[id].up != [] && !s.gfd.handlers[id].Closed?
    ensures var t, g1 := Step(servers, s, ReadNext(id)), Read(servers, s.gfd, id, s.chans[id].up[0]);
            && t.gfd == g1 && id in t.chans
            && t.chans[id] == PushDown(s.chans[id].(up := s.chans[id].up[1..]),
                                       HeartbeatFor(s.gfd.handlers[id], g1.handlers[id]))
  {
    hide Read, PushDown, HeartbeatFor;
  }

  lemma AwaitedRead(servers: Servers, s: System, l: string, id: nat, n: nat)
    requires Inv(servers, s) && l in servers && Connected(s, l) && s.nodes[l].line.id == id
    requires s.gfd.handlers[id] == AwaitAck(l, n) && s.chans[id].up != []
    ensures var t := Step(servers, s, ReadNext(id));
            && id in t.gfd.handlers && id in t.chans
            && t.gfd.handlers[id] == (if s.chans[id].up[0].Membership? then AwaitAck(l, n) else Between(l, n))
            && t.chans[id] == s.chans[id].(up := s.chans[id].up[1..])
  {
    hide ChanAt, Step, Read, NodesInv, LatestGenuine, MembersExact;
    var ch := s.chans[id];
    AwaitedHead(servers, s.nodes[ch.owner], ch, s.gfd, id, l, n);
    ReadNextEffect(servers, s, id);
    assert ch.down + [] == ch.down;
  }

  /** The second half of a round: when a heartbeat has arrived at the reporter of an unbroken connection, taking it,
      writing its acknowledgement and reading what is under way end the handler's wait; then the pause ends with the
      next heartbeat on its way. */
  lemma HeartbeatsGoRound(servers: Servers, run: seq<Action>, l: string, n: nat)
    requires Injective(servers) && l in servers && Connected(After(servers, run), l)
    requires var s := After(servers, run);
             && s.gfd.handlers[s.nodes[l].line.id] == AwaitAck(l, n)
             && s.nodes[l].line.ack.None? && s.chans[s.nodes[l].line.id].down != []
    ensures var s := After(servers, run);
            var id := s.nodes[l].line.id;
            var answered := run + [OnLine(l, TakeHeartbeat), OnLine(l, WriteAck)] + Reads(id, |s.chans[id].up| + 1);
            var t, u := After(servers, answered), After(servers, answered + [PauseEnds(id)]);
            && Connected(t, l) && t.nodes == s.nodes && t.gfd.handlers[id] == Between(l, n)
            && t.chans[id].up == t.chans[id].down == []
            && Connected(u, l) && u.nodes == s.nodes && u.gfd.handlers[id] == AwaitAck(l, n + 1)
            && u.chans[id].down == if s.chans[id].downOpen then [Heartbeat(GFD, l, n + 1)] else []
  {
    hide Step, Inv;
    var s, id := After(servers, run), After(servers, run).nodes[l].line.id;
    var taken, written := run + [OnLine(l, TakeHeartbeat)], run + [OnLine(l, TakeHeartbeat)] + [OnLine(l, WriteAck)];
    RunKeepsInv(servers, run);
    HeartbeatIsThere(servers, s, l, n);
    AfterStep(servers, run, OnLine(l, TakeHeartbeat));
    AfterStep(servers, taken, OnLine(l, WriteAck));
    AckWritten(servers, s, l, n);
    RunKeepsInv(servers, written);
    var pending := |s.chans[id].up| + 1;
    ReadsReachAck(servers, After(servers, written), l, id, n, pending);
    AfterReads(servers, written, id, pending);
    var answered := run + [OnLine(l, TakeHeartbeat), OnLine(l, WriteAck)] + Reads(id, pending);
    assert written + Reads(id, pending) == answered;
    AfterStep(servers, answered, PauseEnds(id));
    PauseEndsWithNext(servers, After(servers, answered), l, id, n);
  }

  lemma HeartbeatIsThere(servers: Servers, s: System, l: string, n: nat)
    requires Inv(servers, s) && Connected(s, l) && s.gfd.handlers[s.nodes[l].line.id] == AwaitAck(l, n)
    requires s.nodes[l].line.ack.None? && s.chans[s.nodes[l].line.id].down != []
    ensures var ch := s.chans[s.nodes[l].line.id];
            ch.down == [Heartbeat(GFD, l, n)] && forall i :: 0 <= i < |ch.up| ==> ch.up[i].Membership?
  {
    hide ChanInv;
    var id := s.nodes[l].line.id;
    var ch, node := s.chans[id], s.nodes[s.chans[id].owner];
    assert ChanAt(servers, node, ch, id, s.gfd.handlers[id], BaseOf(s.gfd, id));
    HeartbeatArrives(l, servers[ch.owner], node.lfd.everHealthy, HeldAt(node.line, id), node.told, ch, n,
                     BaseOf(s.gfd, id));
  }

  lemma PauseEndsWithNext(servers: Servers, s: System, l: string, id: nat, n: nat)
    requires Connected(s, l) && s.nodes[l].line.id == id && s.gfd.handlers[id] == Between(l, n)
    ensures var t := Step(servers, s, PauseEnds(id));
            && Connected(t, l) && t.nodes == s.nodes && t.gfd.handlers[id] == AwaitAck(l, n + 1)
            && t.chans[id].down == s.chans[id].down + if s.chans[id].downOpen then [Heartbeat(GFD, l, n + 1)] else []
  {
  }
}
