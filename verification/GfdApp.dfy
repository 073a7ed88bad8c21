/** The global fault detector as an object: its members and sessions, updated in place by the handler of each
    connection. */
module GfdObjects {
  import opened Wrappers
  import opened Protocol
  import opened Gfd

  /** What a handler meets next while it waits: a message, the deadline of this wait, or the end of the connection. */
  datatype Input = Incoming(message: Message) | DeadlinePassed | Lost

  function InputStep(servers: Servers, g: GfdState, id: nat, input: Input): GfdState
    requires id in g.handlers
  {
    match input
    case Incoming(m) => Read(servers, g, id, m)
    case DeadlinePassed => if g.handlers[id].Between? then Tick(g, id) else Close(servers, g, id)
    case Lost => Close(servers, g, id)
  }

  /** The state after one handler has met all inputs. */
  function HandlerRun(servers: Servers, g: GfdState, id: nat, inputs: seq<Input>): (t: GfdState)
    requires id in g.handlers
    ensures id in t.handlers
  {
    if inputs == [] then g
    else InputStep(servers, HandlerRun(servers, g, id, inputs[..|inputs| - 1]), id, inputs[|inputs| - 1])
  }

  /** The heartbeats one handler writes while it meets all inputs. */
  function HeartbeatsOf(servers: Servers, g: GfdState, id: nat, inputs: seq<Input>): seq<Message>
    requires id in g.handlers
  {
    if inputs == [] then []
    else
      var before := HandlerRun(servers, g, id, inputs[..|inputs| - 1]);
      HeartbeatsOf(servers, g, id, inputs[..|inputs| - 1])
      + HeartbeatFor(before.handlers[id], InputStep(servers, before, id, inputs[|inputs| - 1]).handlers[id])
  }

  /** Heartbeats 1, 2, ..., `n` to the local fault detector `l`. */
  function Numbered(l: string, n: nat): (heartbeats: seq<Message>)
    ensures |heartbeats| == n && forall k :: 0 <= k < n ==> heartbeats[k] == Heartbeat(GFD, l, k + 1)
  {
    if n == 0 then [] else Numbered(l, n - 1) + [Heartbeat(GFD, l, n)]
  }

  /** The number of the last heartbeat a registered handler has written. */
  function CountOf(p: Phase): nat {
    match p
    case AwaitAck(_, n) => n
    case Between(_, n) => n
    case _ => 0
  }

  /** Whatever it meets, a handler that is still registered has written the heartbeats 1 to its count, in order: one
      when it is registered and one at the end of each pause. */
  lemma {:induction false} HeartbeatsNumbered(servers: Servers, g: GfdState, id: nat, inputs: seq<Input>)
    requires id in g.handlers && g.handlers[id].AwaitRegister?
    ensures var phase := HandlerRun(servers, g, id, inputs).handlers[id];
            && (phase.AwaitRegister? ==> HeartbeatsOf(servers, g, id, inputs) == [])
            && (LfdOf(phase).Some? ==>
                  HeartbeatsOf(servers, g, id, inputs) == Numbered(LfdOf(phase).value, CountOf(phase)))
  {
    if inputs != [] {
      var n := |inputs| - 1;
      HeartbeatsNumbered(servers, g, id, inputs[..n]);
      InputKeepsCount(servers, HandlerRun(servers, g, id, inputs[..n]), id, inputs[n]);
    }
  }

  /** One input: registration writes heartbeat 1, the end of a pause the next one, anything else none. */
  lemma InputKeepsCount(servers: Servers, g: GfdState, id: nat, input: Input)
    requires id in g.handlers
    ensures var before, after := g.handlers[id], InputStep(servers, g, id, input).handlers[id];
            var written := HeartbeatFor(before, after);
            match after {
              case AwaitRegister => before == after && written == []
              case Closed => written == []
              case _ =>
                || (before.AwaitRegister? && CountOf(after) == 1 && written == [Heartbeat(GFD, LfdOf(after).value, 1)])
                || (LfdOf(before) == LfdOf(after) && CountOf(after) == CountOf(before) && written == [])
                || (&& LfdOf(before) == LfdOf(after) && CountOf(after) == CountOf(before) + 1
                    && before.Between? && input.DeadlinePassed?
                    && written == [Heartbeat(GFD, LfdOf(after).value, CountOf(after))])
            }
  {
  }

  lemma ClosedIgnores(servers: Servers, g: GfdState, id: nat, input: Input)
    requires id in g.handlers && g.handlers[id].Closed?
    ensures InputStep(servers, g, id, input) == g
  {
    assert g.(handlers := g.handlers[id := Closed]) == g;
  }

  lemma {:induction false} ClosedStays(servers: Servers, g: GfdState, id: nat, inputs: seq<Input>, i: nat)
    requires id in g.handlers && i <= |inputs| && HandlerRun(servers, g, id, inputs[..i]).handlers[id].Closed?
    ensures HandlerRun(servers, g, id, inputs) == HandlerRun(servers, g, id, inputs[..i])
    ensures HeartbeatsOf(servers, g, id, inputs) == HeartbeatsOf(servers, g, id, inputs[..i])
    decreases |inputs|
  {
    hide InputStep;
    if i == |inputs| {
      assert inputs[..i] == inputs;
    } else {
      var n := |inputs| - 1;
      assert inputs[..n][..i] == inputs[..i];
      ClosedStays(servers, g, id, inputs[..n], i);
      ClosedIgnores(servers, HandlerRun(servers, g, id, inputs[..n]), id, inputs[n]);
    }
  }

  // ----- Every input in every phase, on its effect alone -----

  /** A missed acknowledgement deadline ends the session, as does the loss of the connection at any time: the handler
      is closed, its session and the membership of its replica are gone, and no other. */
  lemma DeadlineOrLossEndsSession(servers: Servers, g: GfdState, id: nat, l: string, input: Input)
    requires Inv(servers, g) && id in g.handlers && LfdOf(g.handlers[id]) == Some(l)
    requires input.Lost? || (input.DeadlinePassed? && g.handlers[id].AwaitAck?)
    ensures var t := InputStep(servers, g, id, input);
            && l in servers && t.handlers == g.handlers[id := Closed]
            && t.sessions == g.sessions - {l} && t.members == g.members - {servers[l]}
  {
    EndingTakesOnlyItsOwn(servers, g, id);
  }

  /** The deadline of a pause is no failure: exactly the next heartbeat is written and awaited. */
  lemma PauseOverSendsNext(servers: Servers, g: GfdState, id: nat, l: string, n: nat)
    requires id in g.handlers && g.handlers[id] == Between(l, n)
    ensures var t := InputStep(servers, g, id, DeadlinePassed);
            && t == g.(handlers := g.handlers[id := AwaitAck(l, n + 1)])
            && HeartbeatFor(Between(l, n), t.handlers[id]) == [Heartbeat(GFD, l, n + 1)]
  {
  }

  /** Before its registration, a handler that meets anything but an admissible one ends without any other effect. */
  lemma UnregisteredEndsQuietly(servers: Servers, g: GfdState, id: nat, input: Input)
    requires id in g.handlers && g.handlers[id].AwaitRegister?
    requires input.Incoming? && input.message.Register? && input.message.source in servers
             && input.message.source !in g.sessions ==>
               input.message != Register(input.message.source, GFD, servers[input.message.source],
                                         input.message.healthy)
    ensures InputStep(servers, g, id, input) == g.(handlers := g.handlers[id := Closed])
  {
    if input.Incoming? {
      RefusedRegistrationChangesNothing(servers, g, id, input.message);
    }
  }

  /** What is read has the effects of the messages expected, or ends the session. */
  lemma MessagesTaken(servers: Servers, g: GfdState, id: nat, l: string, healthy: bool)
    requires id in g.handlers && l in servers
    ensures var members := if healthy then g.members + {servers[l]} else g.members - {servers[l]};
            var phase := g.handlers[id];
            && (phase.AwaitRegister? && l !in g.sessions ==>
                  InputStep(servers, g, id, Incoming(Register(l, GFD, servers[l], healthy)))
                  == GfdState(members, g.sessions[l := id], g.handlers[id := AwaitAck(l, 1)], g.latest[l := healthy]))
            && (LfdOf(phase) == Some(l) ==>
                  InputStep(servers, g, id, Incoming(Membership(l, GFD, servers[l], healthy)))
                  == g.(members := members, latest := g.latest[l := healthy]))
            && (phase.AwaitAck? && phase.lfd == l ==>
                  InputStep(servers, g, id, Incoming(HeartbeatAck(l, GFD, phase.count)))
                  == g.(handlers := g.handlers[id := Between(l, phase.count)]))
  {
    ExpectedMessagesTaken(servers, g, id, l, healthy);
  }

  lemma {:induction false} HandlerRunKeepsInv(servers: Servers, g: GfdState, id: nat, inputs: seq<Input>)
    requires Injective(servers) && Inv(servers, g) && id in g.handlers
    ensures Inv(servers, HandlerRun(servers, g, id, inputs))
  {
    hide Read, Close, Tick, Inv;
    if inputs != [] {
      var n := |inputs| - 1;
      var before := HandlerRun(servers, g, id, inputs[..n]);
      HandlerRunKeepsInv(servers, g, id, inputs[..n]);
      match inputs[n]
      case Incoming(m) => Gfd.StepKeepsInv(servers, before, Receive(id, m));
      case DeadlinePassed =>
        Gfd.StepKeepsInv(servers, before, NextHeartbeat(id));
        Gfd.StepKeepsInv(servers, before, EndHandler(id));
      case Lost => Gfd.StepKeepsInv(servers, before, EndHandler(id));
    }
  }

  /** Over a whole run: once an acknowledgement is not there by its deadline, the handler is closed for good, whatever
      still comes; its replica is no member, and heartbeat `n` was the last that was written. */
  lemma MissedDeadlineIsFinal(servers: Servers, g: GfdState, id: nat, inputs: seq<Input>, i: nat, l: string, n: nat)
    requires Injective(servers) && Inv(servers, g) && id in g.handlers && g.handlers[id].AwaitRegister?
    requires i < |inputs| && inputs[i].DeadlinePassed?
    requires HandlerRun(servers, g, id, inputs[..i]).handlers[id] == AwaitAck(l, n)
    ensures var t := HandlerRun(servers, g, id, inputs);
            && t.handlers[id].Closed? && l in servers && servers[l] !in t.members && l !in t.sessions
            && HeartbeatsOf(servers, g, id, inputs) == Numbered(l, n)
  {
    hide Inv, Read, Close, Tick;
    var before := HandlerRun(servers, g, id, inputs[..i]);
    HandlerRunKeepsInv(servers, g, id, inputs[..i]);
    DeadlineOrLossEndsSession(servers, before, id, l, inputs[i]);
    assert inputs[..i + 1][..i] == inputs[..i];
    ClosedStays(servers, g, id, inputs, i + 1);
    HeartbeatsNumbered(servers, g, id, inputs[..i]);
  }

  class GfdApp {
    const servers: Servers
    var members: set<string>
    var sessions: map<string, nat>

    constructor (servers: Servers)
      ensures this.servers == servers && members == {} && sessions == map[]
    {
      this.servers, members, sessions := servers, {}, map[];
    }

    ghost predicate Shows(g: GfdState)
      reads this
    {
      members == g.members && sessions == g.sessions
    }

    method UpdateMember(lfd: string, healthy: bool)
      requires lfd in servers
      modifies this`members
      ensures members == Gfd.WithHealth(old(members), servers[lfd], healthy)
      ensures members == if healthy then old(members) + {servers[lfd]} else old(members) - {servers[lfd]}
    {
      var replica := servers[lfd];
      if healthy == (replica in members) {
        return;
      }
      if healthy {
        members := members + {replica};
      } else {
        members := members - {replica};
      }
    }

    /** The cleanup at the end of a handler. */
    method Release(lfd: Option<string>, id: nat, ghost g: GfdState)
      requires Shows(g) && id in g.handlers && LfdOf(g.handlers[id]) == lfd
      modifies this
      ensures Shows(Close(servers, g, id))
      ensures if lfd.Some? && lfd.value in servers && lfd.value in old(sessions) && old(sessions)[lfd.value] == id
              then sessions == old(sessions) - {lfd.value} && members == old(members) - {servers[lfd.value]}
              else sessions == old(sessions) && members == old(members)
    {
      if lfd.Some? && lfd.value in sessions && sessions[lfd.value] == id && lfd.value in servers {
        sessions := sessions - {lfd.value};
        UpdateMember(lfd.value, false);
      }
    }

    /** One membership event of a registered connection; false when it must end. */
    method TakeReport(lfd: string, m: Message) returns (ok: bool)
      requires lfd in servers
      modifies this`members
      ensures ok == (m.Membership? && ValidReport(servers, m, lfd))
      ensures members == if ok then Gfd.WithHealth(old(members), servers[lfd], m.healthy) else old(members)
    {
      ok := m.Membership? && ValidReport(servers, m, lfd);
      if ok {
        UpdateMember(lfd, m.healthy);
      }
    }

    /** The handler has met the first `i` inputs: it goes on in state `g`, or one of them ended it, or none is left. */
    ghost predicate Met(g0: GfdState, id: nat, inputs: seq<Input>, i: nat, g: GfdState, lfd: string, running: bool)
      requires id in g0.handlers && i <= |inputs|
    {
      && id in g.handlers && LfdOf(g.handlers[id]) == Some(lfd)
      && (|| (HandlerRun(servers, g0, id, inputs[..i]) == g && (running || i == |inputs|))
          || (&& i > 0 && !running && HandlerRun(servers, g0, id, inputs[..i - 1]) == g
              && HandlerRun(servers, g0, id, inputs[..i]) == Close(servers, g, id)))
    }

    lemma MeetNext(g0: GfdState, id: nat, inputs: seq<Input>, i: nat)
      requires id in g0.handlers && i < |inputs|
      ensures HandlerRun(servers, g0, id, inputs[..i + 1])
              == InputStep(servers, HandlerRun(servers, g0, id, inputs[..i]), id, inputs[i])
    {
      hide InputStep;
      assert inputs[..i + 1][..i] == inputs[..i];
    }

    /** A membership event of this detector for its own replica. */
    ghost predicate IsReportOf(input: Input, lfd: string)
      requires lfd in servers
    {
      && input.Incoming? && input.message.Membership?
      && input.message == Membership(lfd, GFD, servers[lfd], input.message.healthy)
    }

    /** The health told by the last membership event among the inputs from `start` up to `end`. */
    ghost function LastTold(inputs: seq<Input>, start: nat, end: nat, lfd: string): Option<bool>
      requires start <= end <= |inputs| && lfd in servers
    {
      if end == start then None
      else if IsReportOf(inputs[end - 1], lfd) then Some(inputs[end - 1].message.healthy)
      else LastTold(inputs, start, end - 1, lfd)
    }

    /** The members, if `before` were those before a report: it decides about its own replica only. */
    ghost predicate Reported(before: set<string>, told: Option<bool>, replica: string)
      reads this
    {
      members == match told
                 case None => before
                 case Some(healthy) => if healthy then before + {replica} else before - {replica}
    }

    /** Reads membership events until heartbeat `count` is acknowledged; an unrelated event cannot count as one. */
    method AwaitAcknowledgement(id: nat, inputs: seq<Input>, start: nat, lfd: string, count: nat, ghost g0: GfdState,
                                ghost before: GfdState)
      returns (i: nat, acked: bool, ghost g: GfdState)
      requires id in g0.handlers && start <= |inputs| && lfd in servers && Shows(before)
      requires Met(g0, id, inputs, start, before, lfd, true) && before.handlers[id] == AwaitAck(lfd, count)
      modifies this`members
      ensures start <= i <= |inputs| && Shows(g) && Met(g0, id, inputs, i, g, lfd, acked)
      ensures g.handlers[id] == if acked then Between(lfd, count) else AwaitAck(lfd, count)
      ensures acked ==> i > start && inputs[i - 1] == Incoming(HeartbeatAck(lfd, GFD, count))
      ensures forall k :: start <= k < i - 1 ==> IsReportOf(inputs[k], lfd)
      ensures !acked && i < |inputs| ==>
                && i > start && !IsReportOf(inputs[i - 1], lfd)
                && inputs[i - 1] != Incoming(HeartbeatAck(lfd, GFD, count))
      ensures Reported(old(members), LastTold(inputs, start, i, lfd), servers[lfd])
    {
      hide HandlerRun;
      i, acked, g := start, false, before;
      while i < |inputs| && !acked
        invariant start <= i <= |inputs| && Shows(g) && Met(g0, id, inputs, i, g, lfd, true)
        invariant g.handlers[id] == if acked then Between(lfd, count) else AwaitAck(lfd, count)
        invariant acked ==> i > start && inputs[i - 1] == Incoming(HeartbeatAck(lfd, GFD, count))
        invariant forall k :: start <= k < i && (acked ==> k < i - 1) ==> IsReportOf(inputs[k], lfd)
        invariant Reported(old(members), LastTold(inputs, start, i, lfd), servers[lfd])
        decreases |inputs| - i
      {
        MeetNext(g0, id, inputs, i);
        var input := inputs[i];
        i := i + 1;
        if !input.Incoming? {
          return;
        }
        var ok := TakeReport(lfd, input.message);
        if ok {
          g := Report(servers, g, lfd, input.message.healthy);
        } else if Acknowledges(input.message, lfd, count) {
          g := g.(handlers := g.handlers[id := Between(lfd, count)]);
          acked := true;
        } else {
          return;
        }
      }
    }

    /** Reads membership events until the pause before the next heartbeat is over. */
    method AwaitPause(id: nat, inputs: seq<Input>, start: nat, lfd: string, count: nat, ghost g0: GfdState,
                      ghost before: GfdState)
      returns (i: nat, over: bool, ghost g: GfdState)
      requires id in g0.handlers && start <= |inputs| && lfd in servers && Shows(before)
      requires Met(g0, id, inputs, start, before, lfd, true) && before.handlers[id] == Between(lfd, count)
      modifies this`members
      ensures start <= i <= |inputs| && Shows(g) && Met(g0, id, inputs, i, g, lfd, over)
      ensures g.handlers[id] == if over then AwaitAck(lfd, count + 1) else Between(lfd, count)
      ensures over ==> i > start && inputs[i - 1] == DeadlinePassed
      ensures forall k :: start <= k < i - 1 ==> IsReportOf(inputs[k], lfd)
      ensures !over && i < |inputs| ==>
                i > start && !IsReportOf(inputs[i - 1], lfd) && inputs[i - 1] != DeadlinePassed
      ensures Reported(old(members), LastTold(inputs, start, i, lfd), servers[lfd])
    {
      hide HandlerRun;
      i, over, g := start, false, before;
      while i < |inputs| && !over
        invariant start <= i <= |inputs| && Shows(g) && Met(g0, id, inputs, i, g, lfd, true)
        invariant g.handlers[id] == if over then AwaitAck(lfd, count + 1) else Between(lfd, count)
        invariant over ==> i > start && inputs[i - 1] == DeadlinePassed
        invariant forall k :: start <= k < i && (over ==> k < i - 1) ==> IsReportOf(inputs[k], lfd)
        invariant Reported(old(members), LastTold(inputs, start, i, lfd), servers[lfd])
        decreases |inputs| - i
      {
        MeetNext(g0, id, inputs, i);
        var input := inputs[i];
        i := i + 1;
        if input.Lost? {
          return;
        }
        if input.DeadlinePassed? {
          g := Tick(g, id);
          over := true;
        } else {
          var ok := TakeReport(lfd, input.message);
          if !ok {
            return;
          }
          g := Report(servers, g, lfd, input.message.healthy);
        }
      }
    }

    /** Heartbeats and what they bring, from a registration until the connection must end. */
    method HeartbeatRounds(id: nat, inputs: seq<Input>, lfd: string, ghost g0: GfdState, ghost before: GfdState)
      returns (i: nat, sent: seq<Message>, ghost g: GfdState)
      requires id in g0.handlers && inputs != [] && lfd in servers && Shows(before)
      requires Met(g0, id, inputs, 1, before, lfd, true) && before.handlers[id] == AwaitAck(lfd, 1)
      modifies this`members
      ensures 1 <= i <= |inputs| && Shows(g) && Met(g0, id, inputs, i, g, lfd, false)
      ensures sent == Numbered(lfd, CountOf(g.handlers[id])) && sent != [] && sent[0] == Heartbeat(GFD, lfd, 1)
      ensures members - {servers[lfd]} == old(members) - {servers[lfd]}
    {
      hide HandlerRun;
      sent, i, g := [], 1, before;
      var count, running := 1, true;
      while running
        invariant 1 <= i <= |inputs| && count >= 1 && Shows(g) && Met(g0, id, inputs, i, g, lfd, running)
        invariant running ==> g.handlers[id] == AwaitAck(lfd, count)
        invariant sent == Numbered(lfd, if running then count - 1 else CountOf(g.handlers[id]))
        invariant running || sent != []
        invariant members - {servers[lfd]} == old(members) - {servers[lfd]}
        decreases |inputs| - i, running
      {
        sent := sent + [Heartbeat(GFD, lfd, count)];
        i, running, g := AwaitAcknowledgement(id, inputs, i, lfd, count, g0, g);
        if running {
          i, running, g := AwaitPause(id, inputs, i, lfd, count, g0, g);
        }
        count := count + 1;
      }
    }

    /** However the rounds ended, the handler's cleanup is its end, and no more heartbeats are written. */
    lemma CloseAfterMet(g0: GfdState, id: nat, inputs: seq<Input>, i: nat, g: GfdState, lfd: string)
      requires id in g0.handlers && g0.handlers[id].AwaitRegister?
      requires i <= |inputs| && Met(g0, id, inputs, i, g, lfd, false)
      ensures Close(servers, HandlerRun(servers, g0, id, inputs), id) == Close(servers, g, id)
      ensures HeartbeatsOf(servers, g0, id, inputs) == Numbered(lfd, CountOf(g.handlers[id]))
    {
      hide InputStep;
      if HandlerRun(servers, g0, id, inputs[..i]) == g {
        assert inputs[..i] == inputs;
        HeartbeatsNumbered(servers, g0, id, inputs);
      } else {
        assert inputs[..i][..i - 1] == inputs[..i - 1];
        HeartbeatsNumbered(servers, g0, id, inputs[..i - 1]);
        ClosedStays(servers, g0, id, inputs, i);
        var t := Close(servers, g, id);
        assert t.(handlers := t.handlers[id := Closed]) == t;
      }
    }

    /** Who registers with the first of these inputs: a configured detector that has no session, for its own replica. */
    ghost function Registrant(inputs: seq<Input>): Option<string>
      reads this
    {
      if inputs == [] || !inputs[0].Incoming? || !inputs[0].message.Register? then None
      else
        var m := inputs[0].message;
        if m.source in servers && m.source !in sessions && m == Register(m.source, GFD, servers[m.source], m.healthy)
        then Some(m.source) else None
    }

    /** The handler of connection `id` from its first message to its end, with the heartbeats it writes. The inputs are
        all it meets; whatever follows them, it then ends. */
    method Handle(id: nat, inputs: seq<Input>, ghost g0: GfdState) returns (sent: seq<Message>)
      requires Shows(g0) && id in g0.handlers && g0.handlers[id].AwaitRegister?
      modifies this
      ensures Shows(Close(servers, HandlerRun(servers, g0, id, inputs), id))
      ensures sent == HeartbeatsOf(servers, g0, id, inputs)
      ensures sessions == old(sessions)
      ensures match old(Registrant(inputs))
              case None => members == old(members) && sent == []
              case Some(l) => members == old(members) - {servers[l]} && sent != [] && sent[0] == Heartbeat(GFD, l, 1)
    {
      sent := [];
      if inputs == [] {
        Release(None, id, g0);
        return;
      }
      MeetNext(g0, id, inputs, 0);
      assert inputs[..0] == [];
      if !inputs[0].Incoming? || !inputs[0].message.Register? || inputs[0].message.source !in servers
         || !ValidReport(servers, inputs[0].message, inputs[0].message.source) || inputs[0].message.source in sessions {
        Release(None, id, g0);
        ClosedStays(servers, g0, id, inputs, 1);
        return;
      }
      sent := ServeSession(id, inputs, inputs[0].message.source, g0);
    }

    /** An admitted handler, from its registration to its end. */
    method ServeSession(id: nat, inputs: seq<Input>, lfd: string, ghost g0: GfdState) returns (sent: seq<Message>)
      requires Shows(g0) && id in g0.handlers && g0.handlers[id].AwaitRegister?
      requires Registrant(inputs) == Some(lfd)
      modifies this
      ensures Shows(Close(servers, HandlerRun(servers, g0, id, inputs), id))
      ensures sent == HeartbeatsOf(servers, g0, id, inputs)
      ensures sessions == old(sessions) && members == old(members) - {servers[lfd]}
      ensures sent != [] && sent[0] == Heartbeat(GFD, lfd, 1)
    {
      hide HandlerRun, HeartbeatsOf, InputStep, Read, Numbered, Close;
      ghost var g := Read(servers, g0, id, inputs[0].message);
      Registered(g0, id, inputs, lfd);
      sessions := sessions[lfd := id];
      UpdateMember(lfd, inputs[0].message.healthy);
      var i;
      i, sent, g := HeartbeatRounds(id, inputs, lfd, g0, g);
      Release(Some(lfd), id, g);
      CloseAfterMet(g0, id, inputs, i, g, lfd);
    }

    /** The registration has the effect the specification gives it. */
    lemma Registered(g0: GfdState, id: nat, inputs: seq<Input>, lfd: string)
      requires Shows(g0) && id in g0.handlers && g0.handlers[id].AwaitRegister? && Registrant(inputs) == Some(lfd)
      ensures var g, healthy := Read(servers, g0, id, inputs[0].message), inputs[0].message.healthy;
              && g == GfdState(if healthy then g0.members + {servers[lfd]} else g0.members - {servers[lfd]},
                               g0.sessions[lfd := id], g0.handlers[id := AwaitAck(lfd, 1)], g0.latest[lfd := healthy])
              && Met(g0, id, inputs, 1, g, lfd, true)
    {
      ExpectedMessagesTaken(servers, g0, id, lfd, inputs[0].message.healthy);
      MeetNext(g0, id, inputs, 0);
      assert inputs[..0] == [];
    }
  }
}
