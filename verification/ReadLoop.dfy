/**
 * The read loop (mcoap/mc_endpt_udp.c:90-139): receive, hand the message to the read function, sweep. Whatever
 * the read function sends, what becomes of the endpoint is a run of the engine.
 */
module ReadLoops {
  import opened Bytes
  import opened OptionCodec
  import opened MessageCodec
  import opened Messages
  import opened Engine
  import opened Environments
  import opened WireFormat
  import opened EngineSafety
  import opened EngineRuns
  import opened EngineLogs
  import opened Endpoints

  // The states an endpoint has passed through, and the steps between them.
  datatype History = History(trace: seq<State>, actions: seq<Action>)

  ghost predicate RanTo(h: History, s: State) {
    IsRun(h.trace, h.actions) && h.trace[|h.actions|] == s
  }

  // later goes on where h ends.
  predicate GoesOn(h: History, later: History) {
    h.trace <= later.trace && h.actions <= later.actions
  }

  lemma GoesOnTransitive(h: History, middle: History, later: History)
    requires GoesOn(h, middle) && GoesOn(middle, later)
    ensures GoesOn(h, later)
  {
  }

  lemma GoesOnItself(h: History)
    ensures GoesOn(h, h)
  {
  }

  // One more step.
  lemma Taken(h: History, s: State, a: Action) returns (later: History)
    requires RanTo(h, s) && Legal(s, a)
    ensures RanTo(later, Apply(s, a)) && GoesOn(h, later) && later.actions == h.actions + [a]
  {
    RunGrows(h.trace, h.actions, a);
    assert |h.trace| == |h.actions| + 1;
    later := History(h.trace + [Apply(s, a)], h.actions + [a]);
    hide Legal, Apply, IsRun;
  }

  lemma FirstState(id: u16, now: real)
    requires id != 0
    ensures RanTo(History([Initial(id, now)], []), Initial(id, now))
  {
  }

  // What receiving makes of a datagram: a step if it acknowledges something.
  function AckStep(rcv: Reception): seq<Action> {
    if rcv.err == 0 && AckIn(rcv.datagram).Some? then [Ack(AckIn(rcv.datagram).value)] else []
  }

  // mc_endpt_udp_recv, as the step of the run that it is, if it is one.
  method Receive(e: Endpoint, ghost h: History) returns (msg: Option<Message>, ghost rcv: Reception, ghost later: History)
    requires e.Valid() && RanTo(h, e.Abs())
    modifies e, e.env`log, e.env`received, e.rdbuffer`nbytes, e.rdbuffer.bytes, e.confirmq, e.confirmq.Nodes()
    ensures e.Valid() && RanTo(later, e.Abs()) && GoesOn(h, later)
    ensures e.confirmq.Nodes() <= old(e.confirmq.Nodes())
    ensures e.env.received == old(e.env.received) + [rcv] && later.actions == h.actions + AckStep(rcv)
  {
    hide RanTo, Endpoint.Valid, Acknowledge, GoesOn, MayParse, AckIn, IsAck, MessageId;
    WfFromValid(e);
    ghost var s := e.Abs();
    ghost var err, datagram;
    msg, err, datagram := e.Recv();
    rcv := Reception(err, datagram);
    NotAccepted(datagram);
    if msg.Some? && IsAck(msg.value) {
      later := Taken(h, s, Ack(MessageId(msg.value)));
    } else {
      later := h;
      GoesOnItself(h);
    }
  }

  lemma NotAccepted(b: seq<byte>)
    ensures AckIn(b).Some? ==> Accepted(b, 0)
  {
  }

  lemma WfFromValid(e: Endpoint)
    requires e.Valid()
    ensures Wf(e.Abs())
  {
  }

  method CheckQueues(e: Endpoint, ghost h: History) returns (ghost later: History)
    requires e.Valid() && RanTo(h, e.Abs())
    modifies e, e.env`now, e.env`log, e.confirmq, e.confirmq.Nodes()
    ensures e.Valid() && RanTo(later, e.Abs()) && GoesOn(h, later)
    ensures exists ticks :: later.actions == h.actions + [SweepAll(ticks)]
    ensures e.confirmq.Nodes() <= old(e.confirmq.Nodes())
  {
    hide RanTo, Endpoint.Valid, GoesOn, LegalTicks;
    WfFromValid(e);
    ghost var s := e.Abs();
    ghost var ticks := e.CheckQueues();
    later := Taken(h, s, SweepAll(ticks));
  }

  // ---------- The read function ----------

  // What a read function may do with the endpoint: send a message of its own, a request, or an acknowledgement.
  datatype Wish =
    | Own(toaddr: Addr, msg: Message, resultfn: nat)
    | Fresh(toaddr: Addr, resultfn: nat, code: byte, list: Option<seq<Opt>>, payload: Option<seq<byte>>, random: u32)
    | Answer(toaddr: Addr, token: seq<byte>, msgid: u16)

  // mc_endpt_read_fn_t: any number of calls with any arguments, and whether to go on.
  method ReadFn(msg: Message) returns (calls: seq<Wish>, running: bool)
  {
    calls, running := *, *;
  }

  // The calls with which the source stays inside its write buffer.
  predicate Safe(e: Endpoint, c: Wish)
    reads e, e.wrbuffer
  {
    match c
    case Own(_, msg, _) => !Overruns(msg, e.wrbuffer.nbytes)
    case Fresh(_, resultfn, code, list, payload, random) =>
      !Overruns(Request(e.nextid, resultfn, code, list, payload, random), e.wrbuffer.nbytes)
    case Answer(_, token, _) => |token| < 0x1_0000_0000
  }

  // The step that a call of the read function makes.
  ghost predicate Fulfils(c: Wish, a: Action, nextid: u16, room: nat) {
    match c
    case Own(toaddr, msg, resultfn) =>
      if IsConfirmable(msg) then
        a.SendOwn? && a.m.msgid == MessageId(msg) && a.m.dest == toaddr && a.m.bytes == Datagram(msg, room) && a.m.resultfn == resultfn
      else a.SendPlain? && a.x.dest == toaddr && a.x.bytes == Datagram(msg, room)
    case Fresh(toaddr, resultfn, code, list, payload, random) =>
      var b := Datagram(Request(nextid, resultfn, code, list, payload, random), room);
      if resultfn != 0 then a.SendNext? && a.m.dest == toaddr && a.m.bytes == b && a.m.resultfn == resultfn
      else a.SendNon? && a.x.dest == toaddr && a.x.bytes == b
    case Answer(toaddr, token, msgid) =>
      |token| < 0x1_0000_0000 && a.SendPlain? && a.x.dest == toaddr && a.x.bytes == Datagram(AckMessage(msgid, token), room)
  }

  predicate Sends(a: Action) {
    a.SendOwn? || a.SendNext? || a.SendPlain? || a.SendNon?
  }

  predicate OneMore(h: History, later: History) {
    |later.actions| == |h.actions| + 1
  }

  lemma FulfilledSends(c: Wish, a: Action, nextid: u16, room: nat)
    requires Fulfils(c, a, nextid, room)
    ensures Sends(a)
  {
  }

  lemma StillSends(h: History, before: History, later: History)
    requires |h.actions| <= |before.actions| && GoesOn(before, later) && OneMore(before, later)
    requires forall j :: |h.actions| <= j < |before.actions| ==> Sends(before.actions[j])
    requires Sends(later.actions[|before.actions|])
    ensures forall j :: |h.actions| <= j < |later.actions| ==> Sends(later.actions[j])
  {
    hide Sends;
    assert forall j :: 0 <= j < |before.actions| ==> later.actions[j] == before.actions[j];
  }

  method PerformOwn(e: Endpoint, toaddr: Addr, msg: Message, resultfn: nat, ghost h: History) returns (ghost later: History)
    requires e.Valid() && RanTo(h, e.Abs()) && !Overruns(msg, e.wrbuffer.nbytes)
    modifies e, e.env`now, e.env`log, e.env`drawn, e.wrbuffer.bytes, e.confirmq, e.confirmq.Nodes()
    ensures e.Valid() && RanTo(later, e.Abs()) && GoesOn(h, later)
    ensures OneMore(h, later) && Fulfils(Own(toaddr, msg, resultfn), later.actions[|h.actions|], old(e.nextid), e.wrbuffer.nbytes)
    ensures fresh(e.confirmq.Nodes() - old(e.confirmq.Nodes()))
  {
    hide RanTo, Endpoint.Valid, GoesOn, Overruns, Arrive, LegalSending, Plain, Datagram;
    WfFromValid(e);
    ghost var s := e.Abs();
    var _, m := e.Send(toaddr, msg, resultfn, None);
    if IsConfirmable(msg) {
      later := Taken(h, s, SendOwn(m));
    } else {
      later := Taken(h, s, SendPlain(Xmission(m.dest, m.bytes, m.at, m.err)));
    }
  }

  method PerformRequest(e: Endpoint, toaddr: Addr, resultfn: nat, code: byte, list: Option<seq<Opt>>, payload: Option<seq<byte>>,
                        random: u32, ghost h: History)
    returns (ghost later: History)
    requires e.Valid() && RanTo(h, e.Abs())
    requires !Overruns(Request(e.nextid, resultfn, code, list, payload, random), e.wrbuffer.nbytes)
    modifies e, e.env`now, e.env`log, e.env`drawn, e.wrbuffer.bytes, e.confirmq, e.confirmq.Nodes()
    ensures e.Valid() && RanTo(later, e.Abs()) && GoesOn(h, later)
    ensures OneMore(h, later)
    ensures Fulfils(Fresh(toaddr, resultfn, code, list, payload, random), later.actions[|h.actions|], old(e.nextid), e.wrbuffer.nbytes)
    ensures fresh(e.confirmq.Nodes() - old(e.confirmq.Nodes()))
  {
    hide RanTo, Endpoint.Valid, GoesOn, Overruns, Apply, Legal, Request, Datagram;
    ghost var s := e.Abs();
    var _, a, _ := e.SendMsg(toaddr, resultfn, code, list, payload, random);
    later := Taken(h, s, a);
  }

  method PerformAnswer(e: Endpoint, toaddr: Addr, token: seq<byte>, msgid: u16, ghost h: History) returns (ghost later: History)
    requires e.Valid() && RanTo(h, e.Abs()) && |token| < 0x1_0000_0000
    modifies e, e.env`now, e.env`log, e.env`drawn, e.wrbuffer.bytes, e.confirmq, e.confirmq.Nodes()
    ensures e.Valid() && RanTo(later, e.Abs()) && GoesOn(h, later)
    ensures OneMore(h, later) && Fulfils(Answer(toaddr, token, msgid), later.actions[|h.actions|], old(e.nextid), e.wrbuffer.nbytes)
    ensures fresh(e.confirmq.Nodes() - old(e.confirmq.Nodes()))
  {
    hide RanTo, Endpoint.Valid, GoesOn, Datagram, AckMessage, Plain;
    WfFromValid(e);
    ghost var s := e.Abs();
    var _, m := e.SendAck(toaddr, token, msgid);
    later := Taken(h, s, SendPlain(Xmission(m.dest, m.bytes, m.at, m.err)));
  }

  method Perform(e: Endpoint, c: Wish, ghost h: History) returns (ghost later: History)
    requires e.Valid() && RanTo(h, e.Abs()) && Safe(e, c)
    modifies e, e.env`now, e.env`log, e.env`drawn, e.wrbuffer.bytes, e.confirmq, e.confirmq.Nodes()
    ensures e.Valid() && RanTo(later, e.Abs()) && GoesOn(h, later)
    ensures OneMore(h, later) && Fulfils(c, later.actions[|h.actions|], old(e.nextid), e.wrbuffer.nbytes)
    ensures fresh(e.confirmq.Nodes() - old(e.confirmq.Nodes()))
  {
    hide RanTo, Endpoint.Valid, GoesOn, Overruns, Datagram, Request;
    match c
    case Own(toaddr, msg, resultfn) =>
      later := PerformOwn(e, toaddr, msg, resultfn, h);
    case Fresh(toaddr, resultfn, code, list, payload, random) =>
      later := PerformRequest(e, toaddr, resultfn, code, list, payload, random, h);
    case Answer(toaddr, token, msgid) =>
      later := PerformAnswer(e, toaddr, token, msgid, h);
  }

  method PerformAll(e: Endpoint, calls: seq<Wish>, ghost h: History) returns (ghost skipped: nat, ghost later: History)
    requires e.Valid() && RanTo(h, e.Abs())
    modifies e, e.env`now, e.env`log, e.env`drawn, e.wrbuffer.bytes, e.confirmq, e.confirmq.Nodes()
    ensures e.Valid() && RanTo(later, e.Abs()) && GoesOn(h, later)
    ensures |later.actions| + skipped == |h.actions| + |calls|
    ensures forall i :: |h.actions| <= i < |later.actions| ==> Sends(later.actions[i])
    ensures fresh(e.confirmq.Nodes() - old(e.confirmq.Nodes()))
  {
    hide RanTo, Endpoint.Valid, GoesOn, Safe, Fulfils, Sends;
    later, skipped := h, 0;
    GoesOnItself(h);
    for i := 0 to |calls|
      invariant e.Valid() && RanTo(later, e.Abs()) && GoesOn(h, later)
      invariant |h.actions| <= |later.actions| && |later.actions| + skipped == |h.actions| + i
      invariant forall j :: |h.actions| <= j < |later.actions| ==> Sends(later.actions[j])
      invariant fresh(e.confirmq.Nodes() - old(e.confirmq.Nodes()))
    {
      if Safe(e, calls[i]) {
        ghost var before := later;
        ghost var id := e.nextid;
        later := Perform(e, calls[i], before);
        FulfilledSends(calls[i], later.actions[|before.actions|], id, e.wrbuffer.nbytes);
        StillSends(h, before, later);
        GoesOnTransitive(h, before, later);
      } else {
        skipped := skipped + 1;
      }
    }
  }

  // ---------- The loop ----------

  // One turn: something is received, and is an acknowledgement to the queue if it is one; the read function sends what
  // it likes; the queue is swept.
  ghost predicate OneTurn(h: History, rcv: Reception, later: History) {
    var start, last := |h.actions| + |AckStep(rcv)|, |later.actions| - 1;
    && start <= last && later.actions[..start] == h.actions + AckStep(rcv)
    && (forall i :: start <= i < last ==> Sends(later.actions[i]))
    && later.actions[last].SweepAll?
  }

  // One turn for each datagram.
  ghost predicate Turns(h: History, received: seq<Reception>, later: History)
    decreases |received|
  {
    if received == [] then later == h
    else
      var n := |received| - 1;
      exists before :: Turns(h, received[..n], before) && OneTurn(before, received[n], later)
  }

  lemma TurnsOn(h: History, received: seq<Reception>, before: History, rcv: Reception, later: History)
    requires Turns(h, received, before) && OneTurn(before, rcv, later)
    ensures Turns(h, received + [rcv], later)
  {
    hide OneTurn;
    assert (received + [rcv])[..|received|] == received;
  }

  lemma TurnMade(h: History, rcv: Reception, received: History, answered: History, later: History)
    requires received.actions == h.actions + AckStep(rcv) && GoesOn(received, answered)
    requires forall i :: |received.actions| <= i < |answered.actions| ==> Sends(answered.actions[i])
    requires exists ticks :: later.actions == answered.actions + [SweepAll(ticks)]
    ensures OneTurn(h, rcv, later)
  {
    hide AckStep, Sends;
    assert |received.actions| == |h.actions| + |AckStep(rcv)|;
    assert answered.actions[..|received.actions|] == received.actions;
    assert later.actions[..|answered.actions|] == answered.actions;
    assert later.actions[..|received.actions|] == received.actions;
  }

  // The body of the loop.
  method Turn(e: Endpoint, ghost h: History) returns (running: bool, ghost rcv: Reception, ghost later: History)
    requires e.Valid() && RanTo(h, e.Abs())
    modifies e, e.env, e.rdbuffer`nbytes, e.rdbuffer.bytes, e.wrbuffer.bytes, e.confirmq, e.confirmq.Nodes()
    ensures e.Valid() && RanTo(later, e.Abs()) && GoesOn(h, later)
    ensures e.env.received == old(e.env.received) + [rcv] && OneTurn(h, rcv, later)
    ensures fresh(e.confirmq.Nodes() - old(e.confirmq.Nodes()))
  {
    hide RanTo, Endpoint.Valid, GoesOn, OneTurn, AckStep, Sends;
    running := true;
    var msg;
    msg, rcv, later := Receive(e, h);
    ghost var received := later;
    GoesOnItself(received);
    if msg.Some? {
      var calls;
      calls, running := ReadFn(msg.value);
      ghost var skipped;
      skipped, later := PerformAll(e, calls, received);
      GoesOnTransitive(h, received, later);
    }
    ghost var answered := later;
    later := CheckQueues(e, answered);
    GoesOnTransitive(h, answered, later);
    TurnMade(h, rcv, received, answered, later);
  }

  /**
   * The loop, for as many turns as one likes to watch it: however the network, the clock and the read function
   * behave, the endpoint has gone through a run of the engine, and so has kept everything that holds of runs. It has
   * gone on turn after turn, with a datagram received and a sweep in each, until the read function said to stop.
   */
  method Loop(e: Endpoint, turns: nat, ghost h: History)
    returns (running: bool, ghost received: seq<Reception>, ghost later: History)
    requires e.Valid() && RanTo(h, e.Abs())
    modifies e, e.env, e.rdbuffer`nbytes, e.rdbuffer.bytes, e.wrbuffer.bytes, e.confirmq, e.confirmq.Nodes()
    ensures e.Valid() && RanTo(later, e.Abs()) && GoesOn(h, later)
    ensures e.env.received == old(e.env.received) + received && Turns(h, received, later)
    ensures |received| <= turns && (running ==> |received| == turns)
    ensures forall u :: 0 <= u < |e.records| ==> Accounted(e.Abs(), u)
  {
    hide RanTo, Endpoint.Valid, GoesOn, Accounted, OneTurn;
    later, received := h, [];
    GoesOnItself(h);
    running := true;
    var turn := 0;
    while running && turn < turns
      invariant e.Valid() && RanTo(later, e.Abs()) && GoesOn(h, later)
      invariant e.env.received == old(e.env.received) + received && Turns(h, received, later)
      invariant |received| == turn <= turns
      invariant fresh(e.confirmq.Nodes() - old(e.confirmq.Nodes()))
      decreases turns - turn
    {
      ghost var before, rcv := later, Reception(0, []);
      running, rcv, later := Turn(e, before);
      GoesOnTransitive(h, before, later);
      TurnsOn(h, received, before, rcv, later);
      received := received + [rcv];
      turn := turn + 1;
    }
    AllAccounted(later, e.Abs());
  }

  // A message is where its status says; what has gone out for it, and been told about it, is what that status calls for.
  ghost predicate Accounted(s: State, uid: nat)
    requires uid < |s.records|
  {
    var r, sent := s.records[uid], SentFor(s.log, uid);
    && (r.status.Queued? <==> InQueue(s.queue, uid))
    && Reported(r, ToldAbout(s.log, uid), sent)
    && 1 <= |sent| <= 4 && (r.status.GaveUp? ==> |sent| == 4)
    && forall k :: 0 <= k < |sent| ==> sent[k].dest == r.dest && sent[k].bytes == r.bytes
  }

  lemma AllAccounted(h: History, s: State)
    requires RanTo(h, s)
    ensures forall u :: 0 <= u < |s.records| ==> Accounted(s, u)
  {
    forall u | 0 <= u < |s.records| ensures Accounted(s, u) {
      var last := |h.actions|;
      Conservation(h.trace, h.actions, last, u);
      SeenOfMessage(h.trace, h.actions, last, u);
      hide IsRun;
    }
  }

  lemma SameStart(h: History, later: History)
    requires GoesOn(h, later) && |h.trace| == 1 && h.actions == []
    ensures |later.trace| > 0 && h == History([later.trace[0]], [])
  {
    assert h.trace == [h.trace[0]];
  }

  /** mc_endpt_udp_init and mc_endpt_udp_loop: from a fresh endpoint on, a run. */
  method Serve(rdsize: nat, wrsize: nat, randomId: u16, turns: nat) returns (e: Endpoint, ghost h: History)
    ensures fresh(e) && e.Valid() && RanTo(h, e.Abs())
    ensures Turns(History([h.trace[0]], []), e.env.received, h) && |e.env.received| <= turns
    ensures forall u :: 0 <= u < |e.records| ==> Accounted(e.Abs(), u)
  {
    hide RanTo, Endpoint.Valid, GoesOn, Accounted;
    e := new Endpoint(rdsize, wrsize, randomId);
    FirstState(e.nextid, e.now);
    var running;
    ghost var received;
    ghost var start := History([e.Abs()], []);
    running, received, h := Loop(e, turns, start);
    SameStart(start, h);
    assert [] + received == received;
  }
}
