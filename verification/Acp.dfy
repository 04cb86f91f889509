/** The agent client protocol server (crates/domain/src/acp.rs): per-session event numbering, the trust
    gate, and the bounded steering queue. */
module AcpBus {
  import opened Options

  datatype Trust = Trusted | Restricted | Anonymous

  datatype EventKind =
    | Thinking | ToolCall | ClientToolRequest | TextDelta
    | Done(remainingBudget: nat) | Error | BudgetExhausted | Interrupted(remainingBudget: nat)
    | Steering | ActionSkipped(action: string)

  datatype Event = Event(seqNo: nat, kind: EventKind)

  datatype Session = Session(
    officeId: string, trust: Trust, budget: nat, delegation: bool,
    nextSeq: nat, events: seq<Event>, steers: seq<string>, interruptRequested: bool)

  type Sessions = map<string, Session>

  const STEER_QUEUE_MAX := 16

  datatype AcpError = UnknownSession | AuthRequired | DelegationNotOptedIn | SteerRejected

  datatype Reply = Created(isNew: bool) | Ok | Emitted(seqNos: seq<nat>) | Polled(message: Option<string>) | Err(error: AcpError)

  datatype Op =
    | CreateSession(id: string, officeId: string, trust: Trust, delegation: bool)
    | SetBudget(id: string, budget: nat)
    | Emit(id: string, kind: EventKind)
    | RequestClientTool(id: string)
    | Interrupt(id: string)
    | Steer(id: string, message: string)
    | PollSteer(id: string)
    | ApplySteer(id: string, pending: seq<string>)

  // ---- One step ----

  function Appended(s: Session, kinds: seq<EventKind>): Session {
    s.(nextSeq := s.nextSeq + |kinds|,
    events := s.events + seq(|kinds|, i requires 0 <= i < |kinds| => Event(s.nextSeq + i, kinds[i])))
  }

  function Numbers(from: nat, count: nat): seq<nat> { seq(count, i => from + i) }

  /** Emitting `kinds` in a row on a session that exists. */
  function EmitAll(s: Session, kinds: seq<EventKind>): (Session, Reply) {
    if s.trust == Anonymous then (s, Err(AuthRequired)) else (Appended(s, kinds), Emitted(Numbers(s.nextSeq, |kinds|)))
  }

  function SteerKinds(pending: seq<string>): seq<EventKind> {
    seq(|pending|, i requires 0 <= i < |pending| => ActionSkipped(pending[i])) + [Steering]
  }

  function OnSession(s: Session, op: Op): (Session, Reply) {
    match op
    case CreateSession(_, _, _, _) => (s, Created(false))
    case SetBudget(_, budget) => (s.(budget := budget), Ok)
    case Emit(_, kind) => EmitAll(s, [kind])
    case RequestClientTool(_) => if !s.delegation then (s, Err(DelegationNotOptedIn)) else EmitAll(s, [ClientToolRequest])
    case Interrupt(_) => (s.(interruptRequested := true), Ok)
    case Steer(_, message) =>
      if |s.steers| >= STEER_QUEUE_MAX then (s, Err(SteerRejected)) else (s.(steers := s.steers + [message]), Ok)
    case PollSteer(_) =>
      if s.steers == [] then (s, Polled(None)) else (s.(steers := s.steers[1..]), Polled(Some(s.steers[0])))
    case ApplySteer(_, pending) => EmitAll(s, SteerKinds(pending))
  }

  function Step(sessions: Sessions, op: Op): (Sessions, Reply) {
    if op.id in sessions then
      var (s, reply) := OnSession(sessions[op.id], op);
      (sessions[op.id := s], reply)
    else if op.CreateSession? then
      (sessions[op.id := Session(op.officeId, op.trust, 0, op.delegation, 0, [], [], false)], Created(true))
    else (sessions, Err(UnknownSession))
  }

  // ---- Runs ----

  function Run(sessions: Sessions, ops: seq<Op>): Sessions {
    if ops == [] then sessions else Step(Run(sessions, ops[..|ops| - 1]), ops[|ops| - 1]).0
  }

  /** Events are numbered from zero without a gap, anonymous sessions have none, and the steering queue
      keeps to its bound. */
  ghost predicate Sound(s: Session) {
    && s.nextSeq == |s.events| && (forall i :: 0 <= i < |s.events| ==> s.events[i].seqNo == i)
    && (s.trust == Anonymous ==> s.events == [])
    && |s.steers| <= STEER_QUEUE_MAX
  }

  ghost predicate AllSound(sessions: Sessions) {
    forall id :: id in sessions ==> Sound(sessions[id])
  }

  lemma OnSessionSound(s: Session, op: Op)
    requires Sound(s)
    ensures Sound(OnSession(s, op).0)
    ensures s.events <= OnSession(s, op).0.events && OnSession(s, op).0.trust == s.trust
  {
  }

  /** Every reachable server is sound, so `has_gap` is false of every session. */
  lemma {:induction false} ReachableIsSound(ops: seq<Op>)
    ensures AllSound(Run(map[], ops))
  {
    if ops != [] {
      var n := |ops| - 1;
      ReachableIsSound(ops[..n]);
      var before := Run(map[], ops[..n]);
      if ops[n].id in before { OnSessionSound(before[ops[n].id], ops[n]); }
    }
  }

  /** No call touches a session it does not name; a session never disappears, and its event log only
      grows at the end. */
  lemma StepIsolates(sessions: Sessions, op: Op, id: string)
    requires AllSound(sessions)
    ensures id != op.id ==> (id in Step(sessions, op).0 <==> id in sessions)
                            && (id in sessions ==> Step(sessions, op).0[id] == sessions[id])
    ensures id in sessions ==> id in Step(sessions, op).0 && sessions[id].events <= Step(sessions, op).0[id].events
  {
    if op.id in sessions { OnSessionSound(sessions[op.id], op); }
  }

  lemma {:induction false} OtherSessionsUntouched(sessions: Sessions, ops: seq<Op>, id: string)
    requires forall op :: op in ops ==> op.id != id
    ensures id in Run(sessions, ops) <==> id in sessions
    ensures id in sessions ==> Run(sessions, ops)[id] == sessions[id]
  {
    if ops != [] { OtherSessionsUntouched(sessions, ops[..|ops| - 1], id); }
  }

  // ---- When a call is granted, and what it leaves ----

  /** A session is created once, empty, without budget; a second creation is told so. */
  lemma CreateIs(sessions: Sessions, id: string, officeId: string, trust: Trust, delegation: bool)
    ensures Step(sessions, CreateSession(id, officeId, trust, delegation))
            == if id in sessions then (sessions, Created(false))
               else (sessions[id := Session(officeId, trust, 0, delegation, 0, [], [], false)], Created(true))
  {
    if id in sessions { assert sessions[id := sessions[id]] == sessions; }
  }

  /** Every call but creation needs its session. */
  lemma UnknownSessionIff(sessions: Sessions, op: Op)
    ensures Step(sessions, op).1 == Err(UnknownSession) <==> op.id !in sessions && !op.CreateSession?
    ensures op.id !in sessions && !op.CreateSession? ==> Step(sessions, op).0 == sessions
  {
  }

  /** An event is emitted exactly when the session is not anonymous, and gets the next number. */
  lemma EmitGrantedIff(sessions: Sessions, id: string, kind: EventKind)
    requires AllSound(sessions) && id in sessions
    ensures var s, (after, reply) := sessions[id], Step(sessions, Emit(id, kind));
            && (reply == Err(AuthRequired) <==> s.trust == Anonymous)
            && (s.trust == Anonymous ==> after == sessions)
            && (s.trust != Anonymous ==>
                  && reply == Emitted([|s.events|])
                  && after == sessions[id := s.(nextSeq := |s.events| + 1, events := s.events + [Event(|s.events|, kind)])])
  {
    assert sessions[id := sessions[id]] == sessions;
    AppendedOne(sessions[id], kind);
  }

  /** A tool call is delegated exactly with opt-in and trust: without opt-in it is refused as such, with it
      an anonymous session is still refused, and otherwise it is an ordinary event. */
  lemma DelegationGrantedIff(sessions: Sessions, id: string)
    requires id in sessions
    ensures var s := sessions[id];
            Step(sessions, RequestClientTool(id))
            == if s.delegation then Step(sessions, Emit(id, ClientToolRequest)) else (sessions, Err(DelegationNotOptedIn))
  {
    assert sessions[id := sessions[id]] == sessions;
  }

  /** A steer is refused exactly when sixteen are waiting; otherwise it is queued last. */
  lemma SteerGrantedIff(sessions: Sessions, id: string, message: string)
    requires id in sessions
    ensures var s := sessions[id];
            Step(sessions, Steer(id, message))
            == if |s.steers| >= 16 then (sessions, Err(SteerRejected))
               else (sessions[id := s.(steers := s.steers + [message])], Ok)
  {
    assert sessions[id := sessions[id]] == sessions;
  }

  /** A poll hands out the oldest steer, or nothing; a budget or an interrupt changes only that field. */
  lemma OtherCallsAre(sessions: Sessions, id: string, budget: nat)
    requires id in sessions
    ensures var s := sessions[id];
            && Step(sessions, PollSteer(id))
               == (if s.steers == [] then (sessions, Polled(None))
                   else (sessions[id := s.(steers := s.steers[1..])], Polled(Some(s.steers[0]))))
            && Step(sessions, SetBudget(id, budget)) == (sessions[id := s.(budget := budget)], Ok)
            && Step(sessions, Interrupt(id)) == (sessions[id := s.(interruptRequested := true)], Ok)
  {
    assert sessions[id := sessions[id]] == sessions;
  }

  // ---- Steering ----

  /** The message one call put into, or took from, the queue of `id`. */
  ghost function AcceptedBy(op: Op, reply: Reply, id: string): seq<string> {
    if op.Steer? && op.id == id && reply == Ok then [op.message] else []
  }

  ghost function PolledBy(op: Op, reply: Reply, id: string): seq<string> {
    if op.PollSteer? && op.id == id && reply.Polled? && reply.message.Some? then [reply.message.value] else []
  }

  /** The messages accepted by `steer` on `id` over a run, and those handed out by `poll_steer`. */
  ghost function AcceptedSteers(sessions: Sessions, ops: seq<Op>, id: string): seq<string> {
    if ops == [] then []
    else
      var n := |ops| - 1;
      AcceptedSteers(sessions, ops[..n], id) + AcceptedBy(ops[n], Step(Run(sessions, ops[..n]), ops[n]).1, id)
  }

  ghost function PolledSteers(sessions: Sessions, ops: seq<Op>, id: string): seq<string> {
    if ops == [] then []
    else
      var n := |ops| - 1;
      PolledSteers(sessions, ops[..n], id) + PolledBy(ops[n], Step(Run(sessions, ops[..n]), ops[n]).1, id)
  }

  ghost function Waiting(sessions: Sessions, id: string): seq<string> {
    if id in sessions then sessions[id].steers else []
  }

  /** Over any run, what was polled followed by what is waiting is what was accepted, in order: nothing
      is lost, repeated, reordered or delivered to another session. */
  lemma {:induction false} SteersConserved(ops: seq<Op>, id: string)
    ensures AcceptedSteers(map[], ops, id) == PolledSteers(map[], ops, id) + Waiting(Run(map[], ops), id)
    ensures |Waiting(Run(map[], ops), id)| <= STEER_QUEUE_MAX
  {
    ReachableIsSound(ops);
    if ops != [] {
      var n := |ops| - 1;
      var before := Run(map[], ops[..n]);
      var step := Step(before, ops[n]);
      SteersConserved(ops[..n], id);
      StepConserves(before, ops[n], id);
      Regroup(PolledSteers(map[], ops[..n], id), Waiting(before, id), AcceptedBy(ops[n], step.1, id),
              PolledBy(ops[n], step.1, id), Waiting(step.0, id));
    }
  }

  lemma Regroup(polled: seq<string>, waiting: seq<string>, accepted: seq<string>, handed: seq<string>, left: seq<string>)
    requires waiting + accepted == handed + left
    ensures polled + waiting + accepted == polled + handed + left
  {
    assert polled + waiting + accepted == polled + (waiting + accepted);
    assert polled + handed + left == polled + (handed + left);
  }

  lemma StepConserves(sessions: Sessions, op: Op, id: string)
    ensures var (after, reply) := Step(sessions, op);
            Waiting(sessions, id) + AcceptedBy(op, reply, id) == PolledBy(op, reply, id) + Waiting(after, id)
  {
  }

  /** `apply_steer` emits one skip per pending action and then the steering event, on consecutive
      numbers, or changes nothing at all. */
  lemma ApplySteerAllOrNothing(sessions: Sessions, id: string, pending: seq<string>)
    requires AllSound(sessions)
    ensures var (after, reply) := Step(sessions, ApplySteer(id, pending));
            if reply.Err? then after == sessions
            else
              && id in sessions && id in after && reply == Emitted(Numbers(|sessions[id].events|, |pending| + 1))
              && |after[id].events| == |sessions[id].events| + |pending| + 1
              && sessions[id].events <= after[id].events
              && after[id].events[|after[id].events| - 1].kind == Steering
              && forall i :: 0 <= i < |pending| ==> after[id].events[|sessions[id].events| + i].kind == ActionSkipped(pending[i])
  {
    if id in sessions { assert sessions[id := sessions[id]] == sessions; }
  }

  // ---- The server itself ----

  class AcpServer {
    var sessions: Sessions

    constructor ()
      ensures sessions == map[]
    {
      sessions := map[];
    }

    method Create(id: string, officeId: string, trust: Trust, delegation: bool) returns (isNew: bool)
      modifies this
      ensures (sessions, Created(isNew)) == Step(old(sessions), CreateSession(id, officeId, trust, delegation))
    {
      if id in sessions {
        assert sessions[id := sessions[id]] == sessions;
        return false;
      }
      sessions := sessions[id := Session(officeId, trust, 0, delegation, 0, [], [], false)];
      return true;
    }

    /** Lines 169-173. */
    method ChangeBudget(id: string, budget: nat) returns (reply: Reply)
      modifies this
      ensures (sessions, reply) == Step(old(sessions), SetBudget(id, budget))
    {
      if id !in sessions {
        return Err(UnknownSession);
      }
      sessions := sessions[id := sessions[id].(budget := budget)];
      return Ok;
    }

    /** Lines 199-209. */
    method EmitEvent(id: string, kind: EventKind) returns (reply: Reply)
      modifies this
      ensures (sessions, reply) == Step(old(sessions), Emit(id, kind))
    {
      if id !in sessions {
        return Err(UnknownSession);
      }
      var s := sessions[id];
      if s.trust == Anonymous {
        assert sessions[id := s] == sessions;
        return Err(AuthRequired);
      }
      AppendedOne(s, kind);
      sessions := sessions[id := s.(nextSeq := s.nextSeq + 1, events := s.events + [Event(s.nextSeq, kind)])];
      return Emitted([s.nextSeq]);
    }

    /** Lines 213-218: refused without opt-in, whatever the trust. */
    method DelegateTool(id: string) returns (reply: Reply)
      modifies this
      ensures (sessions, reply) == Step(old(sessions), RequestClientTool(id))
    {
      if id !in sessions {
        return Err(UnknownSession);
      }
      if !sessions[id].delegation {
        assert sessions[id := sessions[id]] == sessions;
        return Err(DelegationNotOptedIn);
      }
      reply := EmitEvent(id, ClientToolRequest);
    }

    method RaiseInterrupt(id: string) returns (reply: Reply)
      modifies this
      ensures (sessions, reply) == Step(old(sessions), Interrupt(id))
    {
      if id !in sessions {
        return Err(UnknownSession);
      }
      sessions := sessions[id := sessions[id].(interruptRequested := true)];
      return Ok;
    }

    method SteerSession(id: string, message: string) returns (reply: Reply)
      modifies this
      ensures (sessions, reply) == Step(old(sessions), Steer(id, message))
    {
      if id !in sessions {
        return Err(UnknownSession);
      }
      assert sessions[id := sessions[id]] == sessions;
      if |sessions[id].steers| >= STEER_QUEUE_MAX {
        return Err(SteerRejected);
      }
      sessions := sessions[id := sessions[id].(steers := sessions[id].steers + [message])];
      return Ok;
    }

    method Poll(id: string) returns (reply: Reply)
      modifies this
      ensures (sessions, reply) == Step(old(sessions), PollSteer(id))
    {
      if id !in sessions {
        return Err(UnknownSession);
      }
      assert sessions[id := sessions[id]] == sessions;
      var queue := sessions[id].steers;
      if queue == [] {
        return Polled(None);
      }
      sessions := sessions[id := sessions[id].(steers := queue[1..])];
      return Polled(Some(queue[0]));
    }

    /** Lines 264-280: one emit per pending action, then the steering event; the first failure returns. */
    method Absorb(id: string, pending: seq<string>) returns (reply: Reply)
      modifies this
      ensures (sessions, reply) == Step(old(sessions), ApplySteer(id, pending))
    {
      var seqNos: seq<nat> := [];
      ghost var start := sessions;
      ghost var kinds := SteerKinds(pending);
      if id in start {
        AppendedNone(start[id]);
        assert kinds[..0] == [] && start[id := start[id]] == start;
      }
      for i := 0 to |pending|
        invariant i > 0 ==> id in start && start[id].trust != Anonymous
        invariant id in start && start[id].trust != Anonymous ==>
                    sessions == start[id := Appended(start[id], kinds[..i])] && seqNos == Numbers(start[id].nextSeq, i)
        invariant !(id in start && start[id].trust != Anonymous) ==> sessions == start
      {
        var r := EmitEvent(id, ActionSkipped(pending[i]));
        if r.Err? {
          assert id in start ==> start[id := start[id]] == start;
          return r;
        }
        AppendedNext(start[id], kinds, i);
        assert sessions == start[id := Appended(start[id], kinds[..i + 1])];
        seqNos := seqNos + r.seqNos;
      }
      var r := EmitEvent(id, Steering);
      if r.Err? {
        assert id in start ==> start[id := start[id]] == start;
        return r;
      }
      AppendedNext(start[id], kinds, |pending|);
      assert kinds[..|kinds|] == kinds;
      assert sessions == start[id := Appended(start[id], kinds)];
      return Emitted(seqNos + r.seqNos);
    }

    /** Lines 227-230. */
    method HasGap(id: string) returns (gap: Option<bool>)
      ensures gap.None? <==> id !in sessions
      ensures gap.Some? ==> (gap.value <==> exists i :: 0 <= i < |sessions[id].events| && sessions[id].events[i].seqNo != i)
    {
      if id !in sessions {
        return None;
      }
      var events := sessions[id].events;
      for i := 0 to |events|
        invariant forall k :: 0 <= k < i ==> events[k].seqNo == k
      {
        if events[i].seqNo != i {
          return Some(true);
        }
      }
      return Some(false);
    }
  }

  lemma AppendedNone(s: Session)
    ensures Appended(s, []) == s && Numbers(s.nextSeq, 0) == []
  {
    assert s.events + [] == s.events;
  }

  lemma AppendedOne(s: Session, kind: EventKind)
    ensures Appended(s, [kind]) == s.(nextSeq := s.nextSeq + 1, events := s.events + [Event(s.nextSeq, kind)])
    ensures Numbers(s.nextSeq, 1) == [s.nextSeq]
  {
  }

  lemma AppendedNext(s: Session, kinds: seq<EventKind>, i: nat)
    requires i < |kinds|
    ensures Appended(Appended(s, kinds[..i]), [kinds[i]]) == Appended(s, kinds[..i + 1])
    ensures Numbers(s.nextSeq, i) + Numbers(s.nextSeq + i, 1) == Numbers(s.nextSeq, i + 1)
  {
    AppendedOne(Appended(s, kinds[..i]), kinds[i]);
    assert kinds[..i + 1] == kinds[..i] + [kinds[i]];
    assert Appended(s, kinds[..i]).events + [Event(s.nextSeq + i, kinds[i])] == Appended(s, kinds[..i + 1]).events;
  }
}
