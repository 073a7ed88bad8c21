/** The global fault detector: sessions with local fault detectors and the set of healthy replicas. */
module Gfd {
  import opened Wrappers
  import opened Protocol

  /** Where the handler of one connection stands: before registration, waiting for the acknowledgement of a heartbeat
      number, between two heartbeats, or ended. */
  datatype Phase =
    | AwaitRegister
    | AwaitAck(lfd: string, count: nat)
    | Between(lfd: string, count: nat)
    | Closed

  /** Members and sessions are shared by all handlers; `latest` keeps the last report of each session and only serves
      to state properties. */
  datatype GfdState = GfdState(members: set<string>, sessions: map<string, nat>, handlers: map<nat, Phase>,
                               latest: map<string, bool>)

  const EMPTY := GfdState({}, map[], map[], map[])

  /** The configured replica of each local fault detector. */
  type Servers = map<string, string>

  predicate Injective(servers: Servers) {
    forall l, k :: l in servers && k in servers && servers[l] == servers[k] ==> l == k
  }

  function WithHealth(members: set<string>, replica: string, healthy: bool): set<string> {
    if healthy then members + {replica} else members - {replica}
  }

  function Update(servers: Servers, g: GfdState, lfd: string, healthy: bool): GfdState
    requires lfd in servers
  {
    g.(members := WithHealth(g.members, servers[lfd], healthy))
  }

  predicate ValidReport(servers: Servers, m: Message, lfd: string)
    requires lfd in servers
  {
    (m.Register? || m.Membership?) && m.source == lfd && m.destination == GFD && m.member == servers[lfd]
  }

  predicate Acknowledges(m: Message, lfd: string, count: nat) {
    m.HeartbeatAck? && m.source == lfd && m.destination == GFD && m.count == count
  }

  function LfdOf(p: Phase): Option<string> {
    match p
    case AwaitAck(l, _) => Some(l)
    case Between(l, _) => Some(l)
    case _ => None
  }

  /** The end of a handler: its session, if it holds one, ends and its replica is no longer a member. */
  function Close(servers: Servers, g: GfdState, id: nat): GfdState
    requires id in g.handlers
  {
    var closed := g.(handlers := g.handlers[id := Closed]);
    match LfdOf(g.handlers[id])
    case None => closed
    case Some(l) =>
      if l in g.sessions && g.sessions[l] == id && l in servers
      then Update(servers, closed, l, false).(sessions := g.sessions - {l}, latest := g.latest - {l})
      else closed
  }

  predicate Admits(servers: Servers, g: GfdState, m: Message) {
    m.Register? && m.source in servers && ValidReport(servers, m, m.source) && m.source !in g.sessions
  }

  /** One report of a registered session. */
  function Report(servers: Servers, g: GfdState, lfd: string, healthy: bool): GfdState
    requires lfd in servers
  {
    Update(servers, g, lfd, healthy).(latest := g.latest[lfd := healthy])
  }

  /** What the handler of connection `id` does with one message. */
  function Read(servers: Servers, g: GfdState, id: nat, m: Message): GfdState
    requires id in g.handlers
  {
    match g.handlers[id]
    case AwaitRegister =>
      if Admits(servers, g, m) then
        Report(servers, g.(sessions := g.sessions[m.source := id], handlers := g.handlers[id := AwaitAck(m.source, 1)]),
               m.source, m.healthy)
      else Close(servers, g, id)
    case AwaitAck(l, n) =>
      if m.Membership? && l in servers && ValidReport(servers, m, l) then Report(servers, g, l, m.healthy)
      else if Acknowledges(m, l, n) then g.(handlers := g.handlers[id := Between(l, n)])
      else Close(servers, g, id)
    case Between(l, _) =>
      if m.Membership? && l in servers && ValidReport(servers, m, l) then Report(servers, g, l, m.healthy)
      else Close(servers, g, id)
    case Closed => g
  }

  /** The pause between two heartbeats ends. */
  function Tick(g: GfdState, id: nat): GfdState
    requires id in g.handlers
  {
    match g.handlers[id]
    case Between(l, n) => g.(handlers := g.handlers[id := AwaitAck(l, n + 1)])
    case _ => g
  }

  /** The heartbeat that a handler writes on entering a phase. */
  function HeartbeatFor(before: Phase, after: Phase): seq<Message> {
    if after.AwaitAck? && before != after then [Heartbeat(GFD, after.lfd, after.count)] else []
  }

  // ----- Handlers run concurrently and may be sent anything -----

  datatype Event =
    | Accept(id: nat)
    | Receive(id: nat, message: Message)
    | NextHeartbeat(id: nat)
    | EndHandler(id: nat)              // timeout, end of file, malformed message, broken connection

  function Step(servers: Servers, g: GfdState, e: Event): GfdState {
    match e
    case Accept(id) => if id in g.handlers then g else g.(handlers := g.handlers[id := AwaitRegister])
    case Receive(id, m) => if id in g.handlers then Read(servers, g, id, m) else g
    case NextHeartbeat(id) => if id in g.handlers then Tick(g, id) else g
    case EndHandler(id) => if id in g.handlers then Close(servers, g, id) else g
  }

  function After(servers: Servers, g: GfdState, run: seq<Event>): GfdState {
    if run == [] then g else Step(servers, After(servers, g, run[..|run| - 1]), run[|run| - 1])
  }

  /** One session per local fault detector: sessions and registered handlers name each other. */
  ghost predicate SessionsMatch(servers: Servers, g: GfdState) {
    && g.sessions.Keys <= servers.Keys && g.latest.Keys == g.sessions.Keys
    && (forall l :: l in g.sessions ==> g.sessions[l] in g.handlers && LfdOf(g.handlers[g.sessions[l]]) == Some(l))
    && (forall id :: id in g.handlers && LfdOf(g.handlers[id]).Some? ==>
          LfdOf(g.handlers[id]).value in g.sessions && g.sessions[LfdOf(g.handlers[id]).value] == id)
  }

  /** The members are the replicas whose local fault detector has a session that last reported them healthy. */
  ghost predicate MembersExact(servers: Servers, g: GfdState) {
    forall s :: s in g.members <==>
      exists l :: l in g.sessions && l in servers && l in g.latest && g.latest[l] && servers[l] == s
  }

  ghost predicate Inv(servers: Servers, g: GfdState) {
    SessionsMatch(servers, g) && MembersExact(servers, g)
  }

  lemma ReportKeepsMembers(servers: Servers, g: GfdState, l: string, healthy: bool)
    requires Injective(servers) && l in servers && l in g.sessions
    requires forall s :: s != servers[l] ==>
               (s in g.members <==>
                 exists k :: k in g.sessions && k in servers && k in g.latest && g.latest[k] && servers[k] == s)
    ensures MembersExact(servers, Report(servers, g, l, healthy))
  {
  }

  lemma CloseKeepsInv(servers: Servers, g: GfdState, id: nat)
    requires Injective(servers) && Inv(servers, g) && id in g.handlers
    ensures Inv(servers, Close(servers, g, id))
  {
    var t := Close(servers, g, id);
    if LfdOf(g.handlers[id]).Some? {
      var l := LfdOf(g.handlers[id]).value;
      forall s
        ensures s in t.members <==>
                  exists k :: k in t.sessions && k in servers && k in t.latest && t.latest[k] && servers[k] == s
      {
        if s != servers[l] && s in g.members {
          var k :| k in g.sessions && k in servers && k in g.latest && g.latest[k] && servers[k] == s;
          assert k in t.sessions && k in t.latest && t.latest[k];
        }
      }
    }
  }

  lemma ReadKeepsSessions(servers: Servers, g: GfdState, id: nat, m: Message)
    requires SessionsMatch(servers, g) && id in g.handlers
    ensures SessionsMatch(servers, Read(servers, g, id, m))
  {
    CloseKeepsSessions(servers, g, id);
    if g.handlers[id].AwaitRegister? && Admits(servers, g, m) {
      AdmitKeepsSessions(servers, g, id, m.source, m.healthy, Read(servers, g, id, m).members);
    } else if g.handlers[id].AwaitAck? && Acknowledges(m, g.handlers[id].lfd, g.handlers[id].count) {
      SamePartyKeepsSessions(servers, g, id, Between(g.handlers[id].lfd, g.handlers[id].count));
    }
  }

  lemma CloseKeepsSessions(servers: Servers, g: GfdState, id: nat)
    requires SessionsMatch(servers, g) && id in g.handlers
    ensures SessionsMatch(servers, Close(servers, g, id))
  {
  }

  lemma AdmitKeepsSessions(servers: Servers, g: GfdState, id: nat, l: string, healthy: bool, members: set<string>)
    requires SessionsMatch(servers, g) && id in g.handlers && g.handlers[id].AwaitRegister? && l in servers
             && l !in g.sessions
    ensures var handlers := g.handlers[id := AwaitAck(l, 1)];
            SessionsMatch(servers, GfdState(members, g.sessions[l := id], handlers, g.latest[l := healthy]))
  {
  }

  lemma SamePartyKeepsSessions(servers: Servers, g: GfdState, id: nat, p: Phase)
    requires SessionsMatch(servers, g) && id in g.handlers && LfdOf(p) == LfdOf(g.handlers[id])
    ensures SessionsMatch(servers, g.(handlers := g.handlers[id := p]))
  {
  }

  lemma ReadKeepsMembers(servers: Servers, g: GfdState, id: nat, m: Message)
    requires Injective(servers) && Inv(servers, g) && id in g.handlers
    ensures MembersExact(servers, Read(servers, g, id, m))
  {
    CloseKeepsInv(servers, g, id);
    var phase := g.handlers[id];
    if phase.AwaitRegister? && Admits(servers, g, m) {
      var admitted := g.(sessions := g.sessions[m.source := id], handlers := g.handlers[id := AwaitAck(m.source, 1)]);
      ReportKeepsMembers(servers, admitted, m.source, m.healthy);
    } else if m.Membership? && (phase.AwaitAck? || phase.Between?) && ValidReport(servers, m, phase.lfd) {
      ReportKeepsMembers(servers, g, phase.lfd, m.healthy);
    }
  }

  lemma StepKeepsInv(servers: Servers, g: GfdState, e: Event)
    requires Injective(servers) && Inv(servers, g)
    ensures Inv(servers, Step(servers, g, e))
  {
    match e
    case Receive(id, m) =>
      if id in g.handlers {
        ReadKeepsSessions(servers, g, id, m);
        ReadKeepsMembers(servers, g, id, m);
      }
    case EndHandler(id) => if id in g.handlers { CloseKeepsInv(servers, g, id); }
    case _ =>
  }

  /** Through all registrations, reports, timeouts and disconnects of concurrent handlers, whatever they are sent. */
  lemma {:induction false} MembershipExact(servers: Servers, run: seq<Event>)
    requires Injective(servers)
    ensures Inv(servers, After(servers, EMPTY, run))
  {
    if run != [] {
      MembershipExact(servers, run[..|run| - 1]);
      StepKeepsInv(servers, After(servers, EMPTY, run[..|run| - 1]), run[|run| - 1]);
    }
  }

  /** A handler is registered by exactly one kind of message: the registration of a configured local fault detector that
      has no session, for its own replica. */
  lemma RegisteredExactlyWhen(servers: Servers, g: GfdState, id: nat, m: Message, l: string)
    requires id in g.handlers && g.handlers[id].AwaitRegister?
    ensures LfdOf(Read(servers, g, id, m).handlers[id]) == Some(l) <==>
              l in servers && l !in g.sessions && m.Register? && m == Register(l, GFD, servers[l], m.healthy)
  {
  }

  /** Any message but a report of its own replica or the acknowledgement awaited ends a session, and with it the
      membership of that replica and of no other. */
  lemma UnexpectedMessageEndsSession(servers: Servers, g: GfdState, id: nat, l: string, m: Message)
    requires Injective(servers) && Inv(servers, g) && id in g.handlers && LfdOf(g.handlers[id]) == Some(l)
    requires l in servers && m.Membership? ==> m != Membership(l, GFD, servers[l], m.healthy)
    requires g.handlers[id].AwaitAck? ==> m != HeartbeatAck(l, GFD, g.handlers[id].count)
    ensures var g1 := Read(servers, g, id, m);
            && l in servers && g1.handlers[id].Closed?
            && g1.sessions == g.sessions - {l} && g1.members == g.members - {servers[l]}
  {
    assert g.sessions[l] == id;
  }

  /** The end of a handler, for whatever reason, ends its session and the membership of its replica, if it has any, and
      nothing else. */
  lemma EndingTakesOnlyItsOwn(servers: Servers, g: GfdState, id: nat)
    requires Inv(servers, g) && id in g.handlers
    ensures var t := Step(servers, g, EndHandler(id));
            && t.handlers == g.handlers[id := Closed]
            && match LfdOf(g.handlers[id]) {
                 case None => t.sessions == g.sessions && t.members == g.members && t.latest == g.latest
                 case Some(l) =>
                   && l in servers && t.sessions == g.sessions - {l} && t.members == g.members - {servers[l]}
                   && t.latest == g.latest - {l}
               }
  {
    if LfdOf(g.handlers[id]).Some? {
      assert LfdOf(g.handlers[id]).value in g.sessions;
    }
  }

  /** The end of a pause writes the next heartbeat; for a handler elsewhere it means nothing. */
  lemma PauseLeadsToNextHeartbeat(servers: Servers, g: GfdState, id: nat)
    requires id in g.handlers
    ensures var t, phase := Step(servers, g, NextHeartbeat(id)), g.handlers[id];
            if phase.Between? then
              && t == g.(handlers := g.handlers[id := AwaitAck(phase.lfd, phase.count + 1)])
              && HeartbeatFor(phase, t.handlers[id]) == [Heartbeat(GFD, phase.lfd, phase.count + 1)]
            else t == g
  {
  }

  /** The three messages a handler expects, each with all it changes: the registration makes the session and writes
      heartbeat 1; a report sets its own membership; the acknowledgement awaited ends the wait. */
  lemma ExpectedMessagesTaken(servers: Servers, g: GfdState, id: nat, l: string, healthy: bool)
    requires id in g.handlers && l in servers
    ensures var members := if healthy then g.members + {servers[l]} else g.members - {servers[l]};
            var latest, phase := g.latest[l := healthy], g.handlers[id];
            && (phase.AwaitRegister? && l !in g.sessions ==>
                  && Read(servers, g, id, Register(l, GFD, servers[l], healthy))
                     == GfdState(members, g.sessions[l := id], g.handlers[id := AwaitAck(l, 1)], latest)
                  && HeartbeatFor(phase, AwaitAck(l, 1)) == [Heartbeat(GFD, l, 1)])
            && (LfdOf(phase) == Some(l) ==>
                  Read(servers, g, id, Membership(l, GFD, servers[l], healthy))
                  == g.(members := members, latest := latest))
            && (phase.AwaitAck? && phase.lfd == l ==>
                  Read(servers, g, id, HeartbeatAck(l, GFD, phase.count))
                  == g.(handlers := g.handlers[id := Between(l, phase.count)]))
  {
  }

  /** An unregistered handler that reads anything but an admissible registration ends, and nothing else changes. */
  lemma RefusedRegistrationChangesNothing(servers: Servers, g: GfdState, id: nat, m: Message)
    requires id in g.handlers && g.handlers[id].AwaitRegister?
    requires m.Register? && m.source in servers && m.source !in g.sessions ==>
               m != Register(m.source, GFD, servers[m.source], m.healthy)
    ensures Read(servers, g, id, m) == g.(handlers := g.handlers[id := Closed])
  {
  }

  /** Injectivity is needed: if two local fault detectors are configured for one replica, a healthy report of one is
      undone by an unhealthy registration of the other. */
  lemma SharedReplicaBreaksMembership(servers: Servers, l: string, k: string)
    requires l in servers && k in servers && l != k && servers[l] == servers[k]
    ensures var run := [Accept(0), Receive(0, Register(l, GFD, servers[l], true)),
                        Accept(1), Receive(1, Register(k, GFD, servers[k], false))];
            !MembersExact(servers, After(servers, EMPTY, run))
  {
    var run := [Accept(0), Receive(0, Register(l, GFD, servers[l], true)),
                Accept(1), Receive(1, Register(k, GFD, servers[k], false))];
    var g1 := Step(servers, EMPTY, run[0]);
    var g2 := Step(servers, g1, run[1]);
    var g3 := Step(servers, g2, run[2]);
    var g4 := Step(servers, g3, run[3]);
    assert run[..1][..0] == [] && run[..0] == [] && After(servers, EMPTY, run[..1]) == g1;
    assert run[..2][..1] == run[..1] && After(servers, EMPTY, run[..2]) == g2;
    assert run[..3][..2] == run[..2] && After(servers, EMPTY, run[..3]) == g3;
    assert run[..4] == run;
    assert l in g4.sessions && g4.latest[l] && servers[l] !in g4.members;
  }
}
