/**
 * What the outside world has seen of a run: the log of datagrams handed to the socket and of calls of result
 * functions, cut by message, is the messages' histories.
 */
module EngineLogs {
  import opened Bytes
  import opened Engine
  import opened EngineSafety
  import opened EngineRuns

  // The transmissions of one message, and the calls about it, in the order of the log.
  function SentFor(log: seq<Event>, uid: nat): seq<Xmission> {
    if log == [] then []
    else
      var e := log[|log| - 1];
      SentFor(log[..|log| - 1], uid) + if e.Sent? && e.who == Some(uid) then [e.x] else []
  }

  function ToldAbout(log: seq<Event>, uid: nat): seq<Call> {
    if log == [] then []
    else
      var e := log[|log| - 1];
      ToldAbout(log[..|log| - 1], uid) + if e.Told? && e.about == uid then [e.call] else []
  }

  lemma {:induction false} LogConcat(a: seq<Event>, b: seq<Event>, uid: nat)
    ensures SentFor(a + b, uid) == SentFor(a, uid) + SentFor(b, uid)
    ensures ToldAbout(a + b, uid) == ToldAbout(a, uid) + ToldAbout(b, uid)
    decreases |b|
  {
    if b == [] {
      assert a + b == a;
    } else {
      var n := |b| - 1;
      LogConcat(a, b[..n], uid);
      assert a + b == (a + b[..n]) + [b[n]] && b == b[..n] + [b[n]];
      LogSnoc(a + b[..n], b[n], uid);
      LogSnoc(b[..n], b[n], uid);
      hide SentFor, ToldAbout;
    }
  }

  lemma LogSnoc(a: seq<Event>, e: Event, uid: nat)
    ensures SentFor(a + [e], uid) == SentFor(a, uid) + if e.Sent? && e.who == Some(uid) then [e.x] else []
    ensures ToldAbout(a + [e], uid) == ToldAbout(a, uid) + if e.Told? && e.about == uid then [e.call] else []
  {
    assert (a + [e])[..|a|] == a;
  }

  // The log holds the histories and, but for messages sent without confirmation, nothing else.
  ghost predicate LogOk(s: State) {
    forall u: nat :: SentFor(s.log, u) == XmitsOf(s.records, u) && ToldAbout(s.log, u) == CallsAbout(s.records, u)
  }

  function XmitsOf(records: seq<Record>, u: nat): seq<Xmission> {
    if u < |records| then records[u].xmits else []
  }

  function CallsAbout(records: seq<Record>, u: nat): seq<Call> {
    if u < |records| then records[u].calls else []
  }

  // One thing that goes out.
  lemma OneSent(who: Option<nat>, x: Xmission, u: nat)
    ensures SentFor([Sent(who, x)], u) == (if who == Some(u) then [x] else []) && ToldAbout([Sent(who, x)], u) == []
  {
    assert [Sent(who, x)][..0] == [];
  }

  lemma OneTold(uid: nat, resultfn: nat, msgid: u16, err: int, u: nat)
    ensures SentFor(Telling(uid, resultfn, msgid, err), u) == []
    ensures ToldAbout(Telling(uid, resultfn, msgid, err), u) == if u == uid then CallsOf(resultfn, msgid, err) else []
  {
    assert [Told(uid, Call(resultfn, msgid, err))][..0] == [];
  }

  /** A step's events, cut by message, are what it adds to the histories. */
  ghost predicate Adds(s: State, t: State, events: seq<Event>) {
    && t.log == s.log + events
    && forall u: nat ::
         && XmitsOf(t.records, u) == XmitsOf(s.records, u) + SentFor(events, u)
         && CallsAbout(t.records, u) == CallsAbout(s.records, u) + ToldAbout(events, u)
  }

  lemma AddingKeeps(s: State, t: State, events: seq<Event>)
    requires LogOk(s) && Adds(s, t, events)
    ensures LogOk(t)
  {
    forall u: nat ensures SentFor(t.log, u) == XmitsOf(t.records, u) && ToldAbout(t.log, u) == CallsAbout(t.records, u) {
      LogConcat(s.log, events, u);
    }
  }

  lemma PlainKeepsLog(s: State, x: Xmission)
    requires LogOk(s)
    ensures LogOk(Plain(s, x))
  {
    var t := Plain(s, x);
    forall u: nat
      ensures XmitsOf(t.records, u) == XmitsOf(s.records, u) + SentFor([Sent(None, x)], u)
      ensures CallsAbout(t.records, u) == CallsAbout(s.records, u) + ToldAbout([Sent(None, x)], u)
    {
      OneSent(None, x, u);
    }
    AddingKeeps(s, t, [Sent(None, x)]);
  }

  lemma ArriveKeepsLog(s: State, m: Sending, issue: Option<nat>)
    requires LogOk(s)
    ensures LogOk(Arrive(s, m, issue))
  {
    var t, n := Arrive(s, m, issue), |s.records|;
    var x := Xmission(m.dest, m.bytes, m.at, m.err);
    var told := if m.err == DONE then [] else Telling(n, m.resultfn, m.msgid, m.err);
    var events := [Sent(Some(n), x)] + told;
    assert t.log == s.log + events;
    forall u: nat
      ensures XmitsOf(t.records, u) == XmitsOf(s.records, u) + SentFor(events, u)
      ensures CallsAbout(t.records, u) == CallsAbout(s.records, u) + ToldAbout(events, u)
    {
      LogConcat([Sent(Some(n), x)], told, u);
      OneSent(Some(n), x, u);
      OneTold(n, m.resultfn, m.msgid, m.err, u);
      assert u < n ==> t.records[u] == s.records[u];
    }
    AddingKeeps(s, t, events);
  }

  lemma AcknowledgeKeepsLog(s: State, msgid: u16)
    requires LogOk(s) && Wf(s)
    ensures LogOk(Acknowledge(s, msgid))
  {
    var k, t := Find(s.queue, msgid), Acknowledge(s, msgid);
    if k < |s.queue| {
      var p := s.queue[k];
      var events := Telling(p.uid, p.resultfn, p.msgid, DONE);
      forall u: nat
        ensures XmitsOf(t.records, u) == XmitsOf(s.records, u) + SentFor(events, u)
        ensures CallsAbout(t.records, u) == CallsAbout(s.records, u) + ToldAbout(events, u)
      {
        OneTold(p.uid, p.resultfn, p.msgid, DONE, u);
        assert u != p.uid && u < |s.records| ==> t.records[u] == s.records[u];
      }
      AddingKeeps(s, t, events);
    }
  }

  // What a visit adds to its message's history is what its events say.
  lemma VisitTells(p: Pending, r: Record, t: Tick, u: nat)
    ensures var r' := Visit(p, r, t).1;
            && (u == p.uid ==> r'.xmits == r.xmits + SentFor(Events(p, t), u) && r'.calls == r.calls + ToldAbout(Events(p, t), u))
            && (u != p.uid ==> SentFor(Events(p, t), u) == [] && ToldAbout(Events(p, t), u) == [])
  {
    hide Expired;
    if Expired(p, t) {
      var told := if p.xmit < MAX_RETRANSMIT && t.err == DONE then [] else Telling(p.uid, p.resultfn, p.msgid, ErrorOf(Verdict(p, t)));
      LogConcat(Outgoing(p, t), told, u);
      OneSent(Some(p.uid), Xmission(p.dest, p.bytes, t.at, t.err), u);
      OneTold(p.uid, p.resultfn, p.msgid, ErrorOf(Verdict(p, t)), u);
      assert Events(p, t) == Outgoing(p, t) + told;
    }
  }

  lemma VisitKeepsLog(s: State, k: nat, t: Tick)
    requires LogOk(s) && Wf(s) && k < |s.queue|
    ensures LogOk(VisitAt(s, k, t))
  {
    var p, after := s.queue[k], VisitAt(s, k, t);
    var r := Visit(p, s.records[p.uid], t).1;
    assert after.records == s.records[p.uid := r];
    hide Visit, Events;
    forall u: nat
      ensures XmitsOf(after.records, u) == XmitsOf(s.records, u) + SentFor(Events(p, t), u)
      ensures CallsAbout(after.records, u) == CallsAbout(s.records, u) + ToldAbout(Events(p, t), u)
    {
      VisitTells(p, s.records[p.uid], t, u);
    }
    AddingKeeps(s, after, Events(p, t));
  }

  lemma {:induction false} SweepKeepsLog(s: State, ticks: seq<Tick>)
    requires LogOk(s) && Wf(s) && |ticks| <= |s.queue|
    ensures LogOk(SweepTo(s, ticks).state)
    decreases |ticks|
  {
    hide LogOk, VisitAt, NextAt;
    if ticks != [] {
      var n := |ticks| - 1;
      SweepKeepsLog(s, ticks[..n]);
      var c := SweepTo(s, ticks[..n]);
      VisitKeepsLog(c.state, c.at, ticks[n]);
    }
  }

  lemma StepKeepsLog(s: State, a: Action)
    requires LogOk(s) && Legal(s, a)
    ensures LogOk(Apply(s, a))
  {
    hide LogOk, Arrive, Acknowledge, SweepTo, Plain, LegalTicks, LegalSending;
    match a
    case SendOwn(m) => ArriveKeepsLog(s, m, None);
    case SendNext(m) =>
      TakeIdKeepsLog(s);
      ArriveKeepsLog(TakeId(s), m.(msgid := s.nextid), Some(s.issued));
    case SendPlain(x) => PlainKeepsLog(s, x);
    case SendNon(x) =>
      TakeIdKeepsLog(s);
      PlainKeepsLog(TakeId(s), x);
    case Ack(msgid) => AcknowledgeKeepsLog(s, msgid);
    case SweepAll(ticks) => SweepKeepsLog(s, ticks);
  }

  lemma TakeIdKeepsLog(s: State)
    requires LogOk(s)
    ensures LogOk(TakeId(s))
  {
  }

  /** In every state of every run the log, cut by message, is the histories. */
  lemma {:induction false} RunsKeepLog(trace: seq<State>, actions: seq<Action>, i: nat)
    requires IsRun(trace, actions) && i < |trace|
    ensures LogOk(trace[i])
  {
    hide IsRun, LogOk, Legal, Apply;
    RunLength(trace, actions);
    if i == 0 {
      RunStart(trace, actions);
      InitialLog(trace[0]);
    } else {
      RunsKeepLog(trace, actions, i - 1);
      RunStep(trace, actions, i - 1);
      StepKeepsLog(trace[i - 1], actions[i - 1]);
    }
  }

  lemma InitialLog(s: State)
    requires s == Initial(s.firstid, s.now)
    ensures LogOk(s)
  {
  }

  /**
   * What the outside has seen of one message, in every state of every run: between one and four datagrams, all of
   * them the bytes and the destination it was handed over with, four if it timed out; and of its result function
   * one call, with its id and the reason, if it has a real one and has left the queue, and none otherwise.
   */
  lemma SeenOfMessage(trace: seq<State>, actions: seq<Action>, i: nat, uid: nat)
    requires IsRun(trace, actions) && i < |trace| && uid < |trace[i].records|
    ensures var s, r := trace[i], trace[i].records[uid];
            var sent := SentFor(s.log, uid);
            && 1 <= |sent| <= 4 && (r.status.GaveUp? ==> |sent| == 4)
            && (forall k :: 0 <= k < |sent| ==> sent[k].dest == r.dest && sent[k].bytes == r.bytes)
            && Reported(r, ToldAbout(s.log, uid), sent)
  {
    RunsKeepLog(trace, actions, i);
    RunsAreSafe(trace, actions, i);
    assert RecordOk(trace[i].records[uid]);
    hide Inv, IsRun;
  }

  /** Nobody is told about, and nothing is sent for, a message that was never handed over. */
  lemma NothingForStrangers(trace: seq<State>, actions: seq<Action>, i: nat, uid: nat)
    requires IsRun(trace, actions) && i < |trace| && uid >= |trace[i].records|
    ensures SentFor(trace[i].log, uid) == [] && ToldAbout(trace[i].log, uid) == []
  {
    RunsKeepLog(trace, actions, i);
    hide IsRun;
  }
}
