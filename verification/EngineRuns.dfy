/** Whole runs of the engine: conservation, fidelity, timing, draining and message ids. */
module EngineRuns {
  import opened Bytes
  import opened Timeouts
  import opened Engine
  import opened EngineSafety

  // ---------- Runs ----------

  // One call of the library. SendOwn and SendPlain are mc_endpt_udp_send with an id of the caller's, for a
  // confirmable and for any other message; SendNext and SendNon are send_msg, which takes the next id.
  datatype Action =
    | SendOwn(m: Sending)
    | SendNext(m: Sending)
    | SendPlain(x: Xmission)
    | SendNon(x: Xmission)
    | Ack(msgid: u16)
    | SweepAll(ticks: seq<Tick>)

  ghost predicate Legal(s: State, a: Action) {
    && Wf(s)
    && match a
       case SendOwn(m) => LegalSending(s.now, m)
       case SendNext(m) => LegalSending(s.now, m)
       case SendPlain(x) => s.now <= x.at
       case SendNon(x) => s.now <= x.at
       case SweepAll(ticks) => |ticks| == |s.queue| && LegalTicks(s.now, ticks)
       case Ack(_) => true
  }

  ghost function Apply(s: State, a: Action): State
    requires Legal(s, a)
  {
    match a
    case SendOwn(m) => Arrive(s, m, None)
    case SendNext(m) => Arrive(TakeId(s), m.(msgid := s.nextid), Some(s.issued))
    case SendPlain(x) => Plain(s, x)
    case SendNon(x) => Plain(TakeId(s), x)
    case Ack(msgid) => Acknowledge(s, msgid)
    case SweepAll(ticks) => Sweep(s, ticks)
  }

  function Initial(firstid: u16, now: real): State {
    State([], [], firstid, 0, firstid, now, [])
  }

  // A run of a fresh endpoint: the states it passes through, one more than the steps between them.
  ghost predicate IsRun(trace: seq<State>, actions: seq<Action>) {
    && |trace| == |actions| + 1
    && trace[0].firstid != 0 && trace[0] == Initial(trace[0].firstid, trace[0].now)
    && forall i :: 0 <= i < |actions| ==> Legal(trace[i], actions[i]) && trace[i + 1] == Apply(trace[i], actions[i])
  }

  lemma RunLength(trace: seq<State>, actions: seq<Action>)
    requires IsRun(trace, actions)
    ensures |trace| == |actions| + 1
  {
  }

  lemma RunStep(trace: seq<State>, actions: seq<Action>, j: nat)
    requires IsRun(trace, actions) && j < |actions|
    ensures |trace| == |actions| + 1 && Legal(trace[j], actions[j]) && trace[j + 1] == Apply(trace[j], actions[j])
  {
    hide Legal, Apply;
  }

  lemma RunStart(trace: seq<State>, actions: seq<Action>)
    requires IsRun(trace, actions)
    ensures |trace| > 0 && trace[0].firstid != 0 && trace[0] == Initial(trace[0].firstid, trace[0].now)
  {
    hide Legal, Apply;
  }

  /** A legal step makes a run longer, whatever it is. */
  lemma RunGrows(trace: seq<State>, actions: seq<Action>, a: Action)
    requires IsRun(trace, actions) && Legal(trace[|actions|], a)
    ensures IsRun(trace + [Apply(trace[|actions|], a)], actions + [a])
  {
    hide Apply, Legal;
    var longer, all := trace + [Apply(trace[|actions|], a)], actions + [a];
    forall i | 0 <= i < |all| ensures Legal(longer[i], all[i]) && longer[i + 1] == Apply(longer[i], all[i]) {
      assert i < |actions| ==> longer[i] == trace[i] && longer[i + 1] == trace[i + 1] && all[i] == actions[i];
    }
  }

  /** Every step keeps the invariant. */
  lemma StepKeeps(s: State, a: Action)
    requires Inv(s) && Legal(s, a)
    ensures Inv(Apply(s, a))
  {
    hide Conserved, RecordOk, Arrive, Acknowledge;
    match a
    case SendOwn(m) => ArriveKeeps(s, m, None);
    case SendNext(m) =>
      TakeIdKeeps(s);
      ArriveKeeps(TakeId(s), m.(msgid := s.nextid), Some(s.issued));
    case SendPlain(x) => PlainKeeps(s, x);
    case SendNon(x) =>
      TakeIdKeeps(s);
      PlainKeeps(TakeId(s), x);
    case Ack(msgid) => AcknowledgeKeeps(s, msgid);
    case SweepAll(ticks) => SweepKeeps(s, ticks);
  }

  /** The invariant holds in every state of every run. */
  lemma {:induction false} RunsAreSafe(trace: seq<State>, actions: seq<Action>, i: nat)
    requires IsRun(trace, actions) && i < |trace|
    ensures Inv(trace[i])
  {
    hide IsRun, Inv, Legal, Apply;
    RunLength(trace, actions);
    if i == 0 {
      RunStart(trace, actions);
      InitialIsSafe(trace[0]);
    } else {
      RunsAreSafe(trace, actions, i - 1);
      RunStep(trace, actions, i - 1);
      StepKeeps(trace[i - 1], actions[i - 1]);
    }
  }

  lemma InitialIsSafe(s: State)
    requires s.firstid != 0 && s == Initial(s.firstid, s.now)
    ensures Inv(s)
  {
  }

  // ---------- Conservation ----------

  function IsSend(a: Action): bool {
    a.SendOwn? || a.SendNext?
  }

  // A message keeps its identity, its transmissions are only added to, and once out of the queue nothing
  // more happens to it.
  predicate RecordExtends(r: Record, r': Record) {
    && r'.msgid == r.msgid && r'.dest == r.dest && r'.bytes == r.bytes && r'.resultfn == r.resultfn
    && r'.t0 == r.t0 && r'.born == r.born && r'.issue == r.issue
    && r.xmits <= r'.xmits
    && (!r.status.Queued? ==> r' == r)
  }

  predicate Extends(s: State, t: State) {
    |s.records| <= |t.records| && forall u :: 0 <= u < |s.records| ==> RecordExtends(s.records[u], t.records[u])
  }

  lemma ExtendsTransitive(s: State, t: State, u: State)
    requires Extends(s, t) && Extends(t, u)
    ensures Extends(s, u)
  {
  }

  lemma VisitExtends(s: State, k: nat, t: Tick)
    requires Inv(s) && k < |s.queue|
    ensures Extends(s, VisitAt(s, k, t)) && |VisitAt(s, k, t).records| == |s.records|
  {
  }

  lemma {:induction false} SweepExtends(s: State, ticks: seq<Tick>)
    requires Inv(s) && |ticks| <= |s.queue| && LegalTicks(s.now, ticks)
    ensures Extends(s, SweepTo(s, ticks).state) && |SweepTo(s, ticks).state.records| == |s.records|
  {
    if ticks != [] {
      var n := |ticks| - 1;
      SweepExtends(s, ticks[..n]);
      SweepKeeps(s, ticks[..n]);
      var c := SweepTo(s, ticks[..n]);
      VisitExtends(c.state, c.at, ticks[n]);
      hide Inv, VisitAt, Extends;
      ExtendsTransitive(s, c.state, SweepTo(s, ticks).state);
    }
  }

  lemma StepExtends(s: State, a: Action)
    requires Inv(s) && Legal(s, a)
    ensures Extends(s, Apply(s, a))
    ensures |Apply(s, a).records| == |s.records| + if IsSend(a) then 1 else 0
  {
    hide SweepTo, LegalTicks, LegalSending;
    match a
    case SweepAll(ticks) => SweepExtends(s, ticks);
    case Ack(msgid) => AcknowledgeExtends(s, msgid);
    case _ =>
  }

  lemma AcknowledgeExtends(s: State, msgid: u16)
    requires Inv(s)
    ensures Extends(s, Acknowledge(s, msgid)) && |Acknowledge(s, msgid).records| == |s.records|
  {
    hide RecordOk, IdsOk, Find, Put;
  }

  lemma RunStepExtends(trace: seq<State>, actions: seq<Action>, j: nat)
    requires IsRun(trace, actions) && j < |actions|
    ensures Extends(trace[j], trace[j + 1])
  {
    RunsAreSafe(trace, actions, j);
    hide Inv, Extends;
    StepExtends(trace[j], actions[j]);
  }

  /** Over any stretch of a run histories only grow, and what has left the queue is final. */
  lemma {:induction false} RunsExtend(trace: seq<State>, actions: seq<Action>, i: nat, j: nat)
    requires IsRun(trace, actions) && i <= j < |trace|
    ensures Extends(trace[i], trace[j])
    decreases j
  {
    hide *;
    RunLength(trace, actions);
    if i == j {
      ExtendsItself(trace[i]);
    } else {
      RunsExtend(trace, actions, i, j - 1);
      RunStepExtends(trace, actions, j - 1);
      ExtendsTransitive(trace[i], trace[j - 1], trace[j]);
    }
  }

  lemma ExtendsItself(s: State)
    ensures Extends(s, s)
  {
  }

  // The calls there have to be about a message, by what has become of it and of its transmissions: none while it is
  // queued; once it has left, one, of a real result function, with its id, and 0 if it was acknowledged, -1 if it was
  // given up, the error of the last transmission if sending failed. Earlier transmissions have not failed.
  predicate Reported(r: Record, calls: seq<Call>, sent: seq<Xmission>) {
    && sent != [] && (forall k :: 0 <= k < |sent| - 1 ==> sent[k].err == 0)
    && (sent[|sent| - 1].err != 0 <==> r.status.SendFailed?)
    && (r.status.Queued? || r.resultfn <= 1 ==> calls == [])
    && (r.resultfn > 1 ==>
          && (r.status.Acked? ==> calls == [Call(r.resultfn, r.msgid, 0)])
          && (r.status.GaveUp? ==> calls == [Call(r.resultfn, r.msgid, -1)])
          && (r.status.SendFailed? ==> calls == [Call(r.resultfn, r.msgid, sent[|sent| - 1].err)]))
  }

  /**
   * Conservation, in every state of every run: a message handed over is in the queue, at one place, exactly
   * when its status says so; its result function, if it has one, has been called once, with its id and the
   * reason it left, and not at all while it is queued.
   */
  lemma Conservation(trace: seq<State>, actions: seq<Action>, i: nat, uid: nat)
    requires IsRun(trace, actions) && i < |trace| && uid < |trace[i].records|
    ensures var s, r := trace[i], trace[i].records[uid];
            && (r.status.Queued? <==> InQueue(s.queue, uid)) && DistinctUids(s.queue)
            && Reported(r, r.calls, r.xmits)
  {
    RunsAreSafe(trace, actions, i);
  }

  /**
   * Every transmission of a message, however late and whatever was sent in between, carries the destination
   * and the bytes it was handed over with; there are at most four, and exactly four if it timed out.
   */
  lemma Fidelity(trace: seq<State>, actions: seq<Action>, i: nat, j: nat, uid: nat, k: nat)
    requires IsRun(trace, actions) && i <= j < |trace| && uid < |trace[i].records| && uid < |trace[j].records|
    requires k < |trace[j].records[uid].xmits|
    ensures var handed, r := trace[i].records[uid], trace[j].records[uid];
            && r.xmits[k].dest == handed.dest && r.xmits[k].bytes == handed.bytes
            && 1 <= |r.xmits| <= 4 && (r.status.GaveUp? ==> |r.xmits| == 4)
  {
    RunsExtend(trace, actions, i, j);
    RunsAreSafe(trace, actions, j);
  }

  // ---------- Timing ----------

  lemma PowersUpTo4()
    ensures Doubled(0) == 1.0 && Doubled(1) == 2.0 && Doubled(2) == 4.0 && Doubled(3) == 8.0 && Doubled(4) == 16.0
  {
    assert Doubled(3) == 2.0 * Doubled(2);
  }

  /**
   * Back-off, in every state of every run: a queued message that has been sent k times waits for 2^(k-1)
   * times its first timeout, which lies between 2 and 3 seconds.
   */
  lemma Backoff(trace: seq<State>, actions: seq<Action>, i: nat, k: nat)
    requires IsRun(trace, actions) && i < |trace| && k < |trace[i].queue|
    ensures trace[i].queue[k].uid < |trace[i].records|
    ensures var p := trace[i].queue[k];
            var r := trace[i].records[p.uid];
            && 1 <= p.xmit <= 4 && p.xmit == |r.xmits| && 2.0 <= r.t0 <= 3.0
            && p.timeout.total == r.t0 * Doubled(p.xmit - 1)
  {
    RunsAreSafe(trace, actions, i);
    var p := trace[i].queue[k];
    BackoffClosedForm(trace[i].records[p.uid].t0, p.xmit - 1);
  }

  /**
   * Nothing is early: the transmission after k others comes at least 2^k - 1 first timeouts after the message
   * was handed over, and giving up at least 15 of them after.
   */
  lemma NotEarly(trace: seq<State>, actions: seq<Action>, i: nat, uid: nat)
    requires IsRun(trace, actions) && i < |trace| && uid < |trace[i].records|
    ensures var r := trace[i].records[uid];
            && (forall k :: 0 <= k < |r.xmits| ==> r.xmits[k].at >= r.born + r.t0 * (Doubled(k) - 1.0))
            && (r.status.GaveUp? ==> r.status.at >= r.born + 15.0 * r.t0)
  {
    RunsAreSafe(trace, actions, i);
    RecordNotEarly(trace[i].records[uid]);
    hide RecordOk;
  }

  lemma RecordNotEarly(r: Record)
    requires RecordOk(r)
    ensures forall k :: 0 <= k < |r.xmits| ==> r.xmits[k].at >= r.born + r.t0 * (Doubled(k) - 1.0)
    ensures r.status.GaveUp? ==> r.status.at >= r.born + 15.0 * r.t0
  {
    hide *;
    RecordTimes(r);
    forall k | 0 <= k < |r.xmits| ensures r.xmits[k].at >= r.born + r.t0 * (Doubled(k) - 1.0) {
      NotBefore(r.xmits[k].at, r.born, r.t0, k);
    }
    ElapsedFour(r.t0);
  }

  lemma RecordTimes(r: Record)
    requires RecordOk(r)
    ensures forall k :: 0 <= k < |r.xmits| ==> r.xmits[k].at >= r.born + Elapsed(r.t0, k)
    ensures r.status.GaveUp? ==> r.status.at >= r.born + Elapsed(r.t0, MAX_RETRANSMIT)
  {
    assert r.status.GaveUp? ==> r.status.at >= r.born + Elapsed(r.t0, MAX_RETRANSMIT);
  }

  lemma NotBefore(at: real, born: real, t0: real, k: nat)
    requires at >= born + Elapsed(t0, k)
    ensures at >= born + t0 * (Doubled(k) - 1.0)
  {
    hide *;
    BackoffClosedForm(t0, k);
  }

  lemma ElapsedFour(t0: real)
    ensures Elapsed(t0, MAX_RETRANSMIT) == 15.0 * t0
  {
    hide Doubled, Span, Elapsed;
    BackoffClosedForm(t0, MAX_RETRANSMIT);
    PowersUpTo4();
  }

  // Each entry whose time has run out is handled within d of that.
  predicate PromptTicks(q: seq<Pending>, ticks: seq<Tick>, d: real) {
    |ticks| <= |q| &&
    forall i :: 0 <= i < |ticks| && Due(q[i], ticks[i]) ==> ticks[i].mark <= q[i].timeout.start + q[i].timeout.total + d
  }

  predicate PromptStep(s: State, a: Action, d: real) {
    a.SweepAll? ==> PromptTicks(s.queue, a.ticks, d)
  }

  // n delays of d.
  function Late(n: nat, d: real): real {
    if n == 0 then 0.0 else Late(n - 1, d) + d
  }

  lemma LateFour(d: real)
    ensures Late(4, d) == 4.0 * d
  {
    assert Late(0, d) == 0.0 && Late(1, d) == Late(0, d) + d;
    assert Late(2, d) == Late(1, d) + d && Late(3, d) == Late(2, d) + d && Late(4, d) == Late(3, d) + d;
  }

  // Lateness so far: at most d for every expiry.
  predicate OnTime(s: State, d: real) {
    && (forall i :: 0 <= i < |s.queue| ==> s.queue[i].uid < |s.records| && EntryOnTime(s.queue[i], s.records[s.queue[i].uid], d))
    && (forall u :: 0 <= u < |s.records| ==> RecordOnTime(s.records[u], d))
  }

  predicate EntryOnTime(p: Pending, r: Record, d: real) {
    p.xmit >= 1 && p.timeout.start <= r.born + Elapsed(r.t0, p.xmit - 1) + Late(p.xmit - 1, d)
  }

  predicate RecordOnTime(r: Record, d: real) {
    r.status.GaveUp? ==> r.status.at <= r.born + Elapsed(r.t0, MAX_RETRANSMIT) + Late(MAX_RETRANSMIT, d)
  }

  lemma VisitOnTime(p: Pending, r: Record, now: real, t: Tick, d: real)
    requires RecordOk(r) && EntryOk(p, r, now) && EntryOnTime(p, r, d) && d >= 0.0
    requires Due(p, t) ==> t.mark <= p.timeout.start + p.timeout.total + d
    ensures var (kept, r') := Visit(p, r, t);
            RecordOnTime(r', d) && (kept != [] ==> EntryOnTime(kept[0], r', d))
  {
    hide Expired;
    EntryRelative(p, r, now);
    ExpiredIsDue(p, t);
    assert Elapsed(r.t0, p.xmit) == Elapsed(r.t0, p.xmit - 1) + Span(r.t0, p.xmit - 1);
    assert Late(p.xmit, d) == Late(p.xmit - 1, d) + d;
    hide Elapsed, Span, Late;
  }

  lemma ReplacedOnTime(s: State, k: nat, kept: seq<Pending>, r: Record, now: real, d: real)
    requires OnTime(s, d) && k < |s.queue| && DistinctUids(s.queue) && |kept| <= 1
    requires RecordOnTime(r, d) && (kept != [] ==> kept[0].uid == s.queue[k].uid && EntryOnTime(kept[0], r, d))
    ensures OnTime(Replaced(s, k, kept, r, now), d)
  {
    var u := Replaced(s, k, kept, r, now);
    SpliceIsSpliced(s.queue, k, kept);
    SplicedDistinct(s.queue, k, kept, u.queue);
    assert u.records == s.records[s.queue[k].uid := r];
    hide EntryOnTime, RecordOnTime, Replaced, DistinctUids;
    forall i | 0 <= i < |u.queue|
      ensures u.queue[i].uid < |u.records| && EntryOnTime(u.queue[i], u.records[u.queue[i].uid], d)
    {
      if u.queue[i].uid != s.queue[k].uid {
        assert u.queue[i] == s.queue[if i < k + |kept| then i else i + 1 - |kept|];
      }
    }
  }

  lemma VisitAtOnTime(s: State, k: nat, t: Tick, d: real)
    requires Inv(s) && OnTime(s, d) && k < |s.queue| && d >= 0.0
    requires Due(s.queue[k], t) ==> t.mark <= s.queue[k].timeout.start + s.queue[k].timeout.total + d
    ensures OnTime(VisitAt(s, k, t), d)
  {
    var p := s.queue[k];
    var (kept, r) := Visit(p, s.records[p.uid], t);
    VisitOnTime(p, s.records[p.uid], s.now, t, d);
    VisitKept(p, s.records[p.uid], t);
    VisitReplaces(s, k, t);
    hide RecordOk, EntryOk, Visit, EntryOnTime, RecordOnTime, OnTime, Replaced, VisitAt;
    ReplacedOnTime(s, k, kept, r, t.at, d);
    OnTimeLogFree(Replaced(s, k, kept, r, t.at), VisitAt(s, k, t).log, d);
  }

  lemma VisitKept(p: Pending, r: Record, t: Tick)
    ensures |Visit(p, r, t).0| <= 1 && (Visit(p, r, t).0 != [] ==> Visit(p, r, t).0[0].uid == p.uid)
  {
  }

  // The cursor of a sweep stands on the entry of the original queue whose turn it is.
  lemma CursorEntry(s: State, ticks: seq<Tick>)
    requires Wf(s) && |ticks| < |s.queue|
    ensures var c := SweepTo(s, ticks); c.at < |c.state.queue| && c.state.queue[c.at] == s.queue[|ticks|]
  {
    SweepIsFilterMapTo(s, ticks);
  }

  // Each entry passed has had its visit in the histories; nothing else has changed.
  ghost predicate Told(s: State, ticks: seq<Tick>, records: seq<Record>) {
    && Wf(s) && |ticks| <= |s.queue| && |records| == |s.records|
    && (forall i :: 0 <= i < |ticks| ==> records[s.queue[i].uid] == Visited(s, i, ticks[i]))
    && (forall u :: 0 <= u < |s.records| && (forall i :: 0 <= i < |ticks| ==> s.queue[i].uid != u) ==> records[u] == s.records[u])
  }

  lemma ToldOn(s: State, ticks: seq<Tick>, records: seq<Record>)
    requires 0 < |ticks| <= |s.queue| && DistinctUids(s.queue) && Told(s, ticks[..|ticks| - 1], records)
    ensures var n := |ticks| - 1;
            var uid := s.queue[n].uid;
            && uid < |records| == |s.records| && records[uid] == s.records[uid]
            && Told(s, ticks, records[uid := Visited(s, n, ticks[n])])
  {
    hide Visited;
    var n := |ticks| - 1;
    assert forall i :: 0 <= i < n ==> ticks[..n][i] == ticks[i];
  }

  lemma {:induction false} SweepHistoriesTo(s: State, ticks: seq<Tick>)
    requires Wf(s) && DistinctUids(s.queue) && |ticks| <= |s.queue|
    ensures Told(s, ticks, SweepTo(s, ticks).state.records)
    decreases |ticks|
  {
    hide Visit, NextAt, Told;
    if ticks == [] {
      NothingTold(s);
    } else {
      var n := |ticks| - 1;
      SweepHistoriesTo(s, ticks[..n]);
      CursorEntry(s, ticks[..n]);
      ToldOn(s, ticks, SweepTo(s, ticks[..n]).state.records);
    }
  }

  lemma NothingTold(s: State)
    requires Wf(s)
    ensures Told(s, [], s.records)
  {
  }

  // The history of the i-th entry's message after a visit at t.
  function Visited(s: State, i: nat, t: Tick): Record
    requires i < |s.queue| && s.queue[i].uid < |s.records|
  {
    Visit(s.queue[i], s.records[s.queue[i].uid], t).1
  }

  /**
   * The sweep on the histories, the other half of the filter-map: every entry's message gets the transmission or
   * the call its own visit gives it, once, and no other history changes.
   */
  lemma SweepHistories(s: State, ticks: seq<Tick>)
    requires Inv(s) && |ticks| == |s.queue|
    ensures var t := Sweep(s, ticks);
            && |t.records| == |s.records|
            && (forall i :: 0 <= i < |s.queue| ==> t.records[s.queue[i].uid] == Visited(s, i, ticks[i]))
            && (forall u :: 0 <= u < |s.records| && !InQueue(s.queue, u) ==> t.records[u] == s.records[u])
  {
    SweepHistoriesTo(s, ticks);
    hide Visited;
  }

  // ---------- What a sweep owes an entry ----------

  lemma EntryRelative(p: Pending, r: Record, now: real)
    requires EntryOk(p, r, now) && RecordOk(r)
    ensures Relative(p)
  {
    SpanPositive(r.t0, p.xmit - 1);
    hide Span, Elapsed;
  }

  /**
   * What has to become of an entry p and its history r when a sweep comes by with the readings t: kept is what is
   * left of the entry, r' the history afterwards. Before its time nothing. From then on it is sent once more, if it has
   * been sent fewer than four times, and stays, with the doubled timeout restarted, exactly if that succeeds. Otherwise
   * it goes, and its result function, if it has one, is told why: the error of the sending, or -1 after four.
   */
  predicate Attended(p: Pending, t: Tick, r: Record, r': Record, kept: seq<Pending>) {
    if t.check < p.timeout.start + p.timeout.total then kept == [p] && r' == r
    else if p.xmit < 4 then
      && r'.xmits == r.xmits + [Xmission(p.dest, p.bytes, t.at, t.err)]
      && if t.err == 0 then
           && kept == [p.(xmit := p.xmit + 1, timeout := Timeout(-1.0, p.timeout.total * 2.0, t.mark))]
           && r'.calls == r.calls && r'.status == r.status
         else
           && kept == [] && r'.status == SendFailed(t.err)
           && r'.calls == r.calls + (if p.resultfn > 1 then [Call(p.resultfn, p.msgid, t.err)] else [])
    else
      && kept == [] && r'.xmits == r.xmits && r'.status == GaveUp(t.mark)
      && r'.calls == r.calls + (if p.resultfn > 1 then [Call(p.resultfn, p.msgid, -1)] else [])
  }

  lemma VisitAttends(p: Pending, r: Record, t: Tick)
    requires Relative(p)
    ensures var (kept, r') := Visit(p, r, t); Attended(p, t, r, r', kept)
    ensures Visit(p, r, t).0 == Survivor(p, t)
  {
    ExpiredIsDue(p, t);
    hide Expired;
  }

  // The same of the entry at k, in a visit of it.
  ghost predicate AttendedAt(s: State, k: nat, t: Tick, after: State) {
    && k < |s.queue| && s.queue[k].uid < |s.records| == |after.records| && |s.queue| - 1 <= |after.queue| <= |s.queue|
    && var kept := if |after.queue| == |s.queue| then [after.queue[k]] else [];
    && after.queue == s.queue[..k] + kept + s.queue[k + 1..]
    && Attended(s.queue[k], t, s.records[s.queue[k].uid], after.records[s.queue[k].uid], kept)
    && forall u :: 0 <= u < |s.records| && u != s.queue[k].uid ==> after.records[u] == s.records[u]
  }

  lemma VisitAttendsAt(s: State, k: nat, t: Tick)
    requires Wf(s) && k < |s.queue| && Relative(s.queue[k])
    ensures AttendedAt(s, k, t, VisitAt(s, k, t))
  {
    var p := s.queue[k];
    VisitAttends(p, s.records[p.uid], t);
    SurvivorOf(p, t);
    hide Visit, Attended, Survivor, Events;
  }

  // What a queue holds of one message.
  function Of(q: seq<Pending>, uid: nat): seq<Pending> {
    if q == [] then [] else (if q[0].uid == uid then [q[0]] else []) + Of(q[1..], uid)
  }

  lemma OfFront(one: seq<Pending>, rest: seq<Pending>, uid: nat)
    requires |one| <= 1
    ensures Of(one + rest, uid) == if one != [] && one[0].uid == uid then one + Of(rest, uid) else Of(rest, uid)
  {
    if one == [] {
      assert one + rest == rest;
    } else {
      assert (one + rest)[1..] == rest;
      assert one == [one[0]];
    }
  }

  lemma {:induction false} NoneOf(q: seq<Pending>, uid: nat)
    ensures Of(q, uid) == [] <==> !InQueue(q, uid)
  {
    if q != [] {
      NoneOf(q[1..], uid);
      assert q[0].uid == uid ==> InQueue(q, uid);
      if InQueue(q[1..], uid) {
        var i :| 0 <= i < |q[1..]| && q[1..][i].uid == uid;
        assert q[i + 1].uid == uid;
      }
      if InQueue(q, uid) && q[0].uid != uid {
        var i :| 0 <= i < |q| && q[i].uid == uid;
        assert q[1..][i - 1].uid == uid;
      }
    }
  }

  lemma SurvivorOf(p: Pending, t: Tick)
    ensures var one := Survivor(p, t); one == [] || (|one| == 1 && one[0].uid == p.uid)
  {
  }

  // Of each entry a sweep leaves what its own visit leaves, and of nothing else anything.
  lemma {:induction false} OfSurvivors(q: seq<Pending>, ticks: seq<Tick>, uid: nat)
    requires |q| == |ticks| && DistinctUids(q)
    ensures !InQueue(q, uid) ==> Of(Survivors(q, ticks), uid) == []
    ensures forall i :: 0 <= i < |q| && q[i].uid == uid ==> Of(Survivors(q, ticks), uid) == Survivor(q[i], ticks[i])
    decreases |q|
  {
    hide Survivor, Of;
    if q == [] {
      NoneOf([], uid);
    } else {
      var p, one, rest := q[0], Survivor(q[0], ticks[0]), Survivors(q[1..], ticks[1..]);
      SurvivorOf(p, ticks[0]);
      OfFront(one, rest, uid);
      assert forall i :: 0 < i < |q| ==> q[i] == q[1..][i - 1] && ticks[i] == ticks[1..][i - 1];
      OfSurvivors(q[1..], ticks[1..], uid);
      if p.uid == uid {
        assert !InQueue(q[1..], uid);
        assert one + [] == one;
      } else if !InQueue(q, uid) {
        assert !InQueue(q[1..], uid);
      }
    }
  }

  // Every entry of the queue has had what the sweep owes it.
  ghost predicate AllAttended(s: State, ticks: seq<Tick>, t: State) {
    && Wf(s) && |ticks| == |s.queue| && |t.records| == |s.records|
    && forall i :: 0 <= i < |s.queue| ==>
         var u := s.queue[i].uid;
         Attended(s.queue[i], ticks[i], s.records[u], t.records[u], Of(t.queue, u))
  }

  /**
   * A sweep acts on every entry whose time has run out, and on no other: in any reachable state, one that is read at
   * or after the end of its timeout is sent once more or leaves; one that is read before is untouched.
   */
  lemma SweepAttends(s: State, ticks: seq<Tick>)
    requires Inv(s) && |ticks| == |s.queue|
    ensures AllAttended(s, ticks, Sweep(s, ticks))
    ensures forall i :: 0 <= i < |s.queue| && ticks[i].check >= s.queue[i].timeout.start + s.queue[i].timeout.total ==>
              var u, t := s.queue[i].uid, Sweep(s, ticks);
              |t.records[u].xmits| == |s.records[u].xmits| + 1 || !InQueue(t.queue, u)
    ensures forall i :: 0 <= i < |s.queue| && ticks[i].check < s.queue[i].timeout.start + s.queue[i].timeout.total ==>
              var u, t := s.queue[i].uid, Sweep(s, ticks);
              t.records[u] == s.records[u] && Of(t.queue, u) == [s.queue[i]]
  {
    SweepHistories(s, ticks);
    SweepIsFilterMap(s, ticks);
    var t := Sweep(s, ticks);
    hide Sweep, Survivors, Of;
    forall i | 0 <= i < |s.queue|
      ensures var p := s.queue[i];
              && Attended(p, ticks[i], s.records[p.uid], t.records[p.uid], Of(t.queue, p.uid))
              && (Of(t.queue, p.uid) == [] ==> !InQueue(t.queue, p.uid))
    {
      EntryAttended(s, ticks, i);
      NoneOf(t.queue, s.queue[i].uid);
    }
    hide Inv;
  }

  lemma EntryAttended(s: State, ticks: seq<Tick>, i: nat)
    requires Inv(s) && |ticks| == |s.queue| && i < |s.queue|
    ensures var p := s.queue[i];
            Attended(p, ticks[i], s.records[p.uid], Visited(s, i, ticks[i]), Of(Survivors(s.queue, ticks), p.uid))
  {
    var p := s.queue[i];
    assert EntryOk(p, s.records[p.uid], s.now) && RecordOk(s.records[p.uid]);
    assert DistinctUids(s.queue);
    hide Inv, EntryOk, RecordOk, Visit, Attended, Survivors, Of;
    EntryRelative(p, s.records[p.uid], s.now);
    VisitAttends(p, s.records[p.uid], ticks[i]);
    OfSurvivors(s.queue, ticks, p.uid);
  }

  /** So does every sweep of every run. */
  lemma RunsAttend(trace: seq<State>, actions: seq<Action>, i: nat)
    requires IsRun(trace, actions) && i < |actions| && actions[i].SweepAll?
    ensures i + 1 < |trace| && AllAttended(trace[i], actions[i].ticks, trace[i + 1])
  {
    RunsAreSafe(trace, actions, i);
    RunStep(trace, actions, i);
    hide IsRun, Inv, AllAttended;
    SweepAttends(trace[i], actions[i].ticks);
  }

  lemma {:induction false} SweepOnTime(s: State, ticks: seq<Tick>, d: real)
    requires Inv(s) && OnTime(s, d) && d >= 0.0 && LegalTicks(s.now, ticks) && PromptTicks(s.queue, ticks, d)
    ensures OnTime(SweepTo(s, ticks).state, d)
  {
    WfFromInv(s);
    PromptLast(s.queue, ticks, d);
    hide Inv, VisitAt, NextAt, OnTime, Wf, PromptTicks;
    if ticks != [] {
      var n := |ticks| - 1;
      SweepOnTime(s, ticks[..n], d);
      SweepKeeps(s, ticks[..n]);
      CursorEntry(s, ticks[..n]);
      var c := SweepTo(s, ticks[..n]);
      VisitAtOnTime(c.state, c.at, ticks[n], d);
    }
  }

  lemma PromptLast(q: seq<Pending>, ticks: seq<Tick>, d: real)
    requires PromptTicks(q, ticks, d)
    ensures |ticks| <= |q|
    ensures ticks != [] ==>
              var n := |ticks| - 1;
              && PromptTicks(q, ticks[..n], d)
              && (Due(q[n], ticks[n]) ==> ticks[n].mark <= q[n].timeout.start + q[n].timeout.total + d)
  {
    hide Due;
    assert ticks != [] ==> forall i :: 0 <= i < |ticks| - 1 ==> ticks[..|ticks| - 1][i] == ticks[i];
  }

  lemma WfFromInv(s: State)
    requires Inv(s)
    ensures Wf(s)
  {
  }

  lemma StepOnTime(s: State, a: Action, d: real)
    requires Inv(s) && Legal(s, a) && OnTime(s, d) && PromptStep(s, a, d) && d >= 0.0
    ensures OnTime(Apply(s, a), d)
  {
    hide Inv, OnTime, Arrive, Acknowledge, PromptTicks, LegalTicks, LegalSending;
    match a
    case SendOwn(m) => ArriveOnTime(s, m, None, d);
    case SendNext(m) =>
      TakeIdOnTime(s, d);
      ArriveOnTime(TakeId(s), m.(msgid := s.nextid), Some(s.issued), d);
    case SendPlain(x) => PlainOnTime(s, x, d);
    case SendNon(x) =>
      TakeIdOnTime(s, d);
      PlainOnTime(TakeId(s), x, d);
    case Ack(msgid) => AcknowledgeOnTime(s, msgid, d);
    case SweepAll(ticks) => SweepOnTime(s, ticks, d);
  }

  lemma TakeIdOnTime(s: State, d: real)
    requires OnTime(s, d)
    ensures OnTime(TakeId(s), d)
  {
  }

  lemma PlainOnTime(s: State, x: Xmission, d: real)
    requires OnTime(s, d)
    ensures OnTime(Plain(s, x), d)
  {
  }

  lemma OnTimeLogFree(s: State, log: seq<Event>, d: real)
    requires OnTime(s, d)
    ensures OnTime(s.(log := log), d)
  {
  }

  lemma ArriveOnTime(s: State, m: Sending, issue: Option<nat>, d: real)
    requires OnTime(s, d)
    ensures OnTime(Arrive(s, m, issue), d)
  {
    var t := Arrive(s, m, issue);
    assert Elapsed(m.t0, 0) == 0.0 && Late(0, d) == 0.0;
    assert forall i :: 0 <= i < |s.queue| ==> t.queue[i] == s.queue[i];
  }

  lemma AcknowledgeOnTime(s: State, msgid: u16, d: real)
    requires Inv(s) && OnTime(s, d)
    ensures OnTime(Acknowledge(s, msgid), d)
  {
    var k := Find(s.queue, msgid);
    if k < |s.queue| {
      var p := s.queue[k];
      assert s.queue[..k] + [] == s.queue[..k];
      hide EntryOnTime, RecordOk, EntryOk, OnTime;
      ReplacedOnTime(s, k, [], Close(p, s.records[p.uid], Acked), s.now, d);
      OnTimeLogFree(Replaced(s, k, [], Close(p, s.records[p.uid], Acked), s.now), Acknowledge(s, msgid).log, d);
    }
  }

  lemma {:induction false} RunsOnTime(trace: seq<State>, actions: seq<Action>, i: nat, d: real)
    requires IsRun(trace, actions) && i < |trace| && d >= 0.0
    requires forall j :: 0 <= j < |actions| ==> PromptStep(trace[j], actions[j], d)
    ensures OnTime(trace[i], d)
  {
    hide IsRun, Inv, OnTime, Legal, Apply, PromptStep;
    RunLength(trace, actions);
    if i == 0 {
      RunStart(trace, actions);
      InitialOnTime(trace[0], d);
    } else {
      RunsOnTime(trace, actions, i - 1, d);
      RunsAreSafe(trace, actions, i - 1);
      RunStep(trace, actions, i - 1);
      StepOnTime(trace[i - 1], actions[i - 1], d);
    }
  }

  lemma InitialOnTime(s: State, d: real)
    requires s == Initial(s.firstid, s.now)
    ensures OnTime(s, d)
  {
  }

  /**
   * Nothing is very late: if every expiry is handled within d, a message that is given up is given up at most
   * 15 first timeouts and 4d after it was handed over, which is within MAX_TRANSMIT_SPAN + 4d.
   */
  lemma NotLate(trace: seq<State>, actions: seq<Action>, i: nat, uid: nat, d: real)
    requires IsRun(trace, actions) && i < |trace| && uid < |trace[i].records| && d >= 0.0
    requires forall j :: 0 <= j < |actions| ==> PromptStep(trace[j], actions[j], d)
    ensures var r := trace[i].records[uid];
            r.status.GaveUp? ==> r.status.at <= r.born + 15.0 * r.t0 + 4.0 * d <= r.born + MAX_TRANSMIT_SPAN + 4.0 * d
  {
    RunsOnTime(trace, actions, i, d);
    RunsAreSafe(trace, actions, i);
    ElapsedFour(trace[i].records[uid].t0);
    LateFour(d);
  }

  // No queued entry has been expired for more than d.
  predicate NoneOverdue(s: State, d: real) {
    forall i :: 0 <= i < |s.queue| ==> s.now <= s.queue[i].timeout.start + s.queue[i].timeout.total + d
  }

  /**
   * Nor does a message stay queued for long: if besides no expiry is left unhandled for more than d, whatever is
   * still queued was handed over at most 15 first timeouts and 4d ago.
   */
  lemma QueuedNotLong(trace: seq<State>, actions: seq<Action>, i: nat, uid: nat, d: real)
    requires IsRun(trace, actions) && i < |trace| && uid < |trace[i].records| && d >= 0.0
    requires forall j :: 0 <= j < |actions| ==> PromptStep(trace[j], actions[j], d)
    requires NoneOverdue(trace[i], d)
    ensures var s, r := trace[i], trace[i].records[uid];
            r.status.Queued? ==> s.now <= r.born + 15.0 * r.t0 + 4.0 * d <= r.born + MAX_TRANSMIT_SPAN + 4.0 * d
  {
    RunsOnTime(trace, actions, i, d);
    RunsAreSafe(trace, actions, i);
    var s, r := trace[i], trace[i].records[uid];
    hide PromptStep, IsRun;
    if r.status.Queued? {
      var k := PlaceOf(s, uid);
      hide Inv, OnTime;
      WaitIsShort(s.queue[k], r, s.now, d);
      ElapsedFour(r.t0);
      LateFour(d);
    }
  }

  lemma {:induction false} SurvivorsCome(q: seq<Pending>, ticks: seq<Tick>, p: Pending)
    requires |q| == |ticks| && p in Survivors(q, ticks)
    ensures exists i :: 0 <= i < |q| && p in Survivor(q[i], ticks[i])
    decreases |q|
  {
    hide Survivor;
    if p in Survivor(q[0], ticks[0]) {
      assert p in Survivor(q[0], ticks[0]);
    } else {
      SurvivorsCome(q[1..], ticks[1..], p);
      var i :| 0 <= i < |q[1..]| && p in Survivor(q[1..][i], ticks[1..][i]);
      assert p in Survivor(q[i + 1], ticks[i + 1]);
    }
  }

  lemma {:induction false} TestedFirst(now: real, ticks: seq<Tick>, i: nat)
    requires LegalTicks(now, ticks) && i < |ticks|
    ensures ticks[i].check <= ticks[i].mark
    decreases |ticks|
  {
    if i < |ticks| - 1 {
      TestedFirst(now, ticks[..|ticks| - 1], i);
    }
  }

  lemma SurvivorNotOverdue(p: Pending, t: Tick, p': Pending)
    requires Relative(p) && t.check <= t.mark && p' in Survivor(p, t)
    ensures t.check <= p'.timeout.start + p'.timeout.total
  {
    ExpiredIsDue(p, t);
    hide Expired;
  }

  /**
   * A sweep that takes no longer than d leaves nothing that has been due for more than d: from any reachable state,
   * what it tests against late enough readings is not overdue at its end.
   */
  lemma SweepLeavesNoneOverdue(s: State, ticks: seq<Tick>, d: real)
    requires Inv(s) && |ticks| == |s.queue| && LegalTicks(s.now, ticks)
    requires forall i :: 0 <= i < |ticks| ==> ClockAfter(s.now, ticks) - d <= ticks[i].check
    ensures NoneOverdue(Sweep(s, ticks), d)
  {
    SweepKeeps(s, ticks);
    SweepIsFilterMap(s, ticks);
    EntriesSent(s);
    var t := Sweep(s, ticks);
    hide Sweep, SweepTo, Survivors, Survivor, Inv, LegalTicks, ClockAfter;
    forall j | 0 <= j < |t.queue| ensures t.now <= t.queue[j].timeout.start + t.queue[j].timeout.total + d {
      SurvivorsCome(s.queue, ticks, t.queue[j]);
      var i :| 0 <= i < |s.queue| && t.queue[j] in Survivor(s.queue[i], ticks[i]);
      TestedFirst(s.now, ticks, i);
      SurvivorNotOverdue(s.queue[i], ticks[i], t.queue[j]);
    }
  }

  /**
   * Sweeping is enough for that: when a sweep that has taken no longer than d is over, every message still queued was
   * handed over at most 15 first timeouts and 4d before, if no sweep of the run has been later than d.
   */
  lemma SweptNotLong(trace: seq<State>, actions: seq<Action>, i: nat, uid: nat, d: real)
    requires IsRun(trace, actions) && 0 < i < |trace| && uid < |trace[i].records| && d >= 0.0
    requires forall j :: 0 <= j < |actions| ==> PromptStep(trace[j], actions[j], d)
    requires var a := actions[i - 1];
             a.SweepAll? && forall j :: 0 <= j < |a.ticks| ==> trace[i].now - d <= a.ticks[j].check
    ensures var s, r := trace[i], trace[i].records[uid];
            r.status.Queued? ==> s.now <= r.born + 15.0 * r.t0 + 4.0 * d <= r.born + 45.0 + 4.0 * d
  {
    RunsAreSafe(trace, actions, i - 1);
    RunStep(trace, actions, i - 1);
    SweepKeeps(trace[i - 1], actions[i - 1].ticks);
    SweepLeavesNoneOverdue(trace[i - 1], actions[i - 1].ticks, d);
    hide IsRun, Inv, NoneOverdue, Sweep, SweepTo, PromptStep, LegalTicks;
    QueuedNotLong(trace, actions, i, uid, d);
  }

  lemma PlaceOf(s: State, uid: nat) returns (k: nat)
    requires Inv(s) && uid < |s.records| && s.records[uid].status.Queued?
    ensures k < |s.queue| && s.queue[k].uid == uid && EntryOk(s.queue[k], s.records[uid], s.now) && RecordOk(s.records[uid])
  {
    assert InQueue(s.queue, uid);
    k :| 0 <= k < |s.queue| && s.queue[k].uid == uid;
  }

  lemma WaitIsShort(p: Pending, r: Record, now: real, d: real)
    requires EntryOk(p, r, now) && EntryOnTime(p, r, d) && RecordOk(r) && d >= 0.0
    requires now <= p.timeout.start + p.timeout.total + d
    ensures now <= r.born + Elapsed(r.t0, MAX_RETRANSMIT) + Late(MAX_RETRANSMIT, d)
  {
    assert Elapsed(r.t0, p.xmit) == Elapsed(r.t0, p.xmit - 1) + Span(r.t0, p.xmit - 1);
    assert Late(p.xmit, d) == Late(p.xmit - 1, d) + d;
    LaterIsMore(r.t0, d, p.xmit, MAX_RETRANSMIT);
    hide Elapsed, Span, Late;
  }

  lemma {:induction false} LaterIsMore(t0: real, d: real, k: nat, n: nat)
    requires t0 > 0.0 && d >= 0.0 && k <= n
    ensures Elapsed(t0, k) <= Elapsed(t0, n) && Late(k, d) <= Late(n, d)
    decreases n
  {
    if k < n {
      LaterIsMore(t0, d, k, n - 1);
      SpanPositive(t0, n - 1);
    }
  }

  // ---------- The bounds are reached ----------

  // One message in flight, sent k times, waiting for total from start on.
  ghost predicate Waiting(s: State, k: nat, total: real, start: real) {
    && |s.queue| == 1 && |s.records| == 1 && s.now == start
    && var p, r := s.queue[0], s.records[0];
    && p.uid == 0 && p.xmit == k && p.resultfn == 2 && p.msgid == r.msgid && p.timeout == Timeout(-1.0, total, start)
    && |r.xmits| == k && r.t0 == 2.0 && r.born == 0.0 && r.calls == [] && r.status == Queued
  }

  lemma SweepOfOne(s: State, t: Tick)
    requires Wf(s) && |s.queue| == 1 && LegalTick(s.now, t)
    ensures Legal(s, SweepAll([t])) && Apply(s, SweepAll([t])) == VisitAt(s, 0, t)
  {
    hide VisitAt, NextAt;
    assert [t][..0] == [] && LegalTicks(s.now, []) && ClockAfter(s.now, []) == s.now;
    assert SweepTo(s, []) == Cursor(s, 0);
  }

  lemma ExpireOnce(s: State, k: nat, total: real, start: real)
    requires Waiting(s, k, total, start) && k < MAX_RETRANSMIT && total >= 0.0
    ensures var t := Tick(start + total, start + total, start + total, DONE);
            Legal(s, SweepAll([t])) && Waiting(Apply(s, SweepAll([t])), k + 1, total * 2.0, start + total)
  {
    var t := Tick(start + total, start + total, start + total, DONE);
    hide Apply, Legal;
    SweepOfOne(s, t);
    ExpiredIff(s.queue[0].timeout, t.check);
  }

  lemma ExpireLast(s: State, total: real, start: real)
    requires Waiting(s, MAX_RETRANSMIT, total, start) && total >= 0.0
    ensures var t := Tick(start + total, start + total, start + total, DONE);
            && Legal(s, SweepAll([t]))
            && var u := Apply(s, SweepAll([t]));
            && u.queue == [] && |u.records| == 1 && |u.records[0].xmits| == MAX_RETRANSMIT && u.records[0].t0 == 2.0
            && u.records[0].status == GaveUp(u.records[0].born + start + total) && u.records[0].calls == [Call(2, u.records[0].msgid, TIMED_OUT)]
  {
    var t := Tick(start + total, start + total, start + total, DONE);
    hide Apply, Legal;
    SweepOfOne(s, t);
    ExpiredIff(s.queue[0].timeout, t.check);
  }

  lemma FirstSend(s: State)
    requires s == Initial(1, 0.0)
    ensures var a := SendNext(Sending(1, 0, [], 2, 2.0, 0.0, 0.0, DONE));
            Legal(s, a) && Waiting(Apply(s, a), 1, 2.0, 0.0)
  {
  }

  /** The bounds are tight: in some run a message is sent four times and given up after exactly 15 first timeouts. */
  lemma BoundsAreReached() returns (trace: seq<State>, actions: seq<Action>)
    ensures IsRun(trace, actions) && |trace| == 6 && |trace[5].records| == 1
    ensures var r := trace[5].records[0];
            |r.xmits| == 4 && r.status == GaveUp(r.born + 15.0 * r.t0) && r.calls == [Call(2, r.msgid, -1)]
  {
    hide Apply, Legal, Waiting;
    var s0 := Initial(1, 0.0);
    var a0 := SendNext(Sending(1, 0, [], 2, 2.0, 0.0, 0.0, DONE));
    var a1, a2 := SweepAll([Tick(2.0, 2.0, 2.0, DONE)]), SweepAll([Tick(6.0, 6.0, 6.0, DONE)]);
    var a3, a4 := SweepAll([Tick(14.0, 14.0, 14.0, DONE)]), SweepAll([Tick(30.0, 30.0, 30.0, DONE)]);
    FirstSend(s0);
    var s1 := Apply(s0, a0);
    ExpireOnce(s1, 1, 2.0, 0.0);
    var s2 := Apply(s1, a1);
    ExpireOnce(s2, 2, 4.0, 2.0);
    var s3 := Apply(s2, a2);
    ExpireOnce(s3, 3, 8.0, 6.0);
    var s4 := Apply(s3, a3);
    ExpireLast(s4, 16.0, 14.0);
    assert Legal(s0, a0) && Legal(s1, a1) && Legal(s2, a2) && Legal(s3, a3) && Legal(s4, a4);
    trace, actions := [s0, s1, s2, s3, s4, Apply(s4, a4)], [a0, a1, a2, a3, a4];
  }

  // ---------- Draining ----------

  // How often the entries of a queue can still expire.
  function Budget(q: seq<Pending>): int {
    if q == [] then 0 else Budget(q[1..]) + MAX_RETRANSMIT + 1 - q[0].xmit
  }

  function DueCount(q: seq<Pending>, ticks: seq<Tick>): nat
    requires |q| == |ticks|
  {
    if q == [] then 0 else DueCount(q[1..], ticks[1..]) + if Due(q[0], ticks[0]) then 1 else 0
  }

  predicate WithinCap(q: seq<Pending>) {
    forall i :: 0 <= i < |q| ==> 1 <= q[i].xmit <= MAX_RETRANSMIT && Relative(q[i])
  }

  lemma {:induction false} BudgetConcat(a: seq<Pending>, b: seq<Pending>)
    ensures Budget(a + b) == Budget(a) + Budget(b)
  {
    if a == [] {
      assert a + b == b;
    } else {
      BudgetConcat(a[1..], b);
      assert (a + b)[1..] == a[1..] + b;
    }
  }

  /** A sweep never raises the budget, and lowers it by at least one for every entry whose time has run out. */
  lemma {:induction false} SweepSpendsBudget(q: seq<Pending>, ticks: seq<Tick>)
    requires |q| == |ticks| && WithinCap(q)
    ensures WithinCap(Survivors(q, ticks))
    ensures Budget(Survivors(q, ticks)) + DueCount(q, ticks) <= Budget(q)
    decreases |q|
  {
    hide Due, Survivor, WithinCap;
    if q == [] {
      NothingWithinCap();
    } else {
      var one, rest := Survivor(q[0], ticks[0]), Survivors(q[1..], ticks[1..]);
      CapOfTail(q);
      SweepSpendsBudget(q[1..], ticks[1..]);
      OneSpends(q[0], ticks[0]);
      CapOfBoth(one, rest);
      BudgetConcat(one, rest);
    }
  }

  lemma OneSpends(p: Pending, t: Tick)
    requires 1 <= p.xmit <= MAX_RETRANSMIT && Relative(p)
    ensures WithinCap(Survivor(p, t))
    ensures Budget(Survivor(p, t)) + (if Due(p, t) then 1 else 0) <= MAX_RETRANSMIT + 1 - p.xmit
  {
    ExpiredIsDue(p, t);
    hide Expired, Due;
    var one := Survivor(p, t);
    assert one != [] ==> one[1..] == [];
  }

  lemma NothingWithinCap()
    ensures WithinCap([])
  {
  }

  lemma CapOfTail(q: seq<Pending>)
    requires WithinCap(q) && q != []
    ensures 1 <= q[0].xmit <= MAX_RETRANSMIT && Relative(q[0]) && WithinCap(q[1..])
  {
    assert forall i :: 0 <= i < |q[1..]| ==> q[1..][i] == q[i + 1];
  }

  lemma CapOfBoth(a: seq<Pending>, b: seq<Pending>)
    requires WithinCap(a) && WithinCap(b)
    ensures WithinCap(a + b)
  {
    assert forall i :: 0 <= i < |a + b| ==> (a + b)[i] == if i < |a| then a[i] else b[i - |a|];
  }

  /** In any reachable state, what a sweep does to the whole queue spends budget in the same way. */
  lemma SweepDrains(s: State, ticks: seq<Tick>)
    requires Inv(s) && |ticks| == |s.queue|
    ensures Budget(Sweep(s, ticks).queue) + DueCount(s.queue, ticks) <= Budget(s.queue)
  {
    assert Wf(s);
    hide Inv, Wf;
    EntriesSent(s);
    SweepIsFilterMap(s, ticks);
    SweepSpendsBudget(s.queue, ticks);
  }

  /** A queue with something in it has budget: when the budget is spent, the queue is empty. */
  lemma {:induction false} BudgetBounds(q: seq<Pending>)
    requires WithinCap(q)
    ensures |q| <= Budget(q) <= MAX_RETRANSMIT * |q|
  {
    if q != [] {
      BudgetBounds(q[1..]);
    }
  }

  predicate AllDue(q: seq<Pending>, ticks: seq<Tick>)
    requires |q| == |ticks|
  {
    forall i :: 0 <= i < |q| ==> Due(q[i], ticks[i])
  }

  predicate SentAtLeast(q: seq<Pending>, n: nat) {
    forall i :: 0 <= i < |q| ==> n <= q[i].xmit <= MAX_RETRANSMIT && Relative(q[i])
  }

  lemma {:induction false} FullExpiry(q: seq<Pending>, ticks: seq<Tick>, n: nat)
    requires |q| == |ticks| && SentAtLeast(q, n) && AllDue(q, ticks)
    ensures SentAtLeast(Survivors(q, ticks), n + 1)
    decreases |q|
  {
    hide Expired, Due;
    if q != [] {
      ExpiredIsDue(q[0], ticks[0]);
      FullExpiry(q[1..], ticks[1..], n);
      var one, rest := Survivor(q[0], ticks[0]), Survivors(q[1..], ticks[1..]);
      assert forall i :: |one| <= i < |one + rest| ==> (one + rest)[i] == rest[i - |one|];
      assert one != [] ==> one[0].xmit >= n + 1;
    }
  }

  // One sweep that finds the time of every entry run out.
  ghost predicate FullSweep(s: State, ticks: seq<Tick>, t: State) {
    && Wf(s) && |ticks| == |s.queue| && LegalTicks(s.now, ticks) && AllDue(s.queue, ticks) && t == Sweep(s, ticks)
  }

  lemma FullSweepSends(s: State, ticks: seq<Tick>, t: State, n: nat)
    requires FullSweep(s, ticks, t) && SentAtLeast(s.queue, n) && Inv(s)
    ensures SentAtLeast(t.queue, n + 1) && Inv(t)
  {
    hide Inv, AllDue, SentAtLeast, LegalTicks;
    FullExpiry(s.queue, ticks, n);
    SweepIsFilterMap(s, ticks);
    SweepKeeps(s, ticks);
  }

  /** From any reachable state, four sweeps that find every entry's time run out leave the queue empty. */
  lemma FourFullSweepsDrain(s0: State, s1: State, s2: State, s3: State, s4: State,
                            t0: seq<Tick>, t1: seq<Tick>, t2: seq<Tick>, t3: seq<Tick>)
    requires Inv(s0)
    requires FullSweep(s0, t0, s1) && FullSweep(s1, t1, s2) && FullSweep(s2, t2, s3) && FullSweep(s3, t3, s4)
    ensures s4.queue == []
  {
    hide FullSweep, Inv, SentAtLeast;
    EntriesSent(s0);
    FullSweepSends(s0, t0, s1, 1);
    FullSweepSends(s1, t1, s2, 2);
    FullSweepSends(s2, t2, s3, 3);
    LastFullSweep(s3, t3, s4);
  }

  lemma LastFullSweep(s: State, ticks: seq<Tick>, t: State)
    requires FullSweep(s, ticks, t) && SentAtLeast(s.queue, MAX_RETRANSMIT)
    ensures t.queue == []
  {
    SweepIsFilterMap(s, ticks);
    LastExpiry(s.queue, ticks);
  }

  lemma {:induction false} LastExpiry(q: seq<Pending>, ticks: seq<Tick>)
    requires |q| == |ticks| && SentAtLeast(q, MAX_RETRANSMIT) && AllDue(q, ticks)
    ensures Survivors(q, ticks) == []
    decreases |q|
  {
    hide Expired, Due;
    if q != [] {
      ExpiredIsDue(q[0], ticks[0]);
      LastExpiry(q[1..], ticks[1..]);
    }
  }

  lemma EntriesSent(s: State)
    requires Inv(s)
    ensures SentAtLeast(s.queue, 1) && WithinCap(s.queue)
  {
    forall i | 0 <= i < |s.queue| ensures 1 <= s.queue[i].xmit <= MAX_RETRANSMIT && Relative(s.queue[i]) {
      assert EntryOk(s.queue[i], s.records[s.queue[i].uid], s.now);
      assert RecordOk(s.records[s.queue[i].uid]);
      EntryRelative(s.queue[i], s.records[s.queue[i].uid], s.now);
    }
  }

  // Expiries handled by one step, and by the steps from i up to j.
  function Handled(s: State, a: Action): nat {
    if a.SweepAll? && |a.ticks| == |s.queue| then DueCount(s.queue, a.ticks) else 0
  }

  function HandledBetween(trace: seq<State>, actions: seq<Action>, i: nat, j: nat): nat
    requires i <= j <= |actions| <= |trace|
    decreases j
  {
    if i == j then 0 else HandledBetween(trace, actions, i, j - 1) + Handled(trace[j - 1], actions[j - 1])
  }

  lemma AcknowledgeSpends(s: State, msgid: u16)
    requires Inv(s)
    ensures Budget(Acknowledge(s, msgid).queue) <= Budget(s.queue)
  {
    EntriesSent(s);
    hide Inv, Find, Budget, Put;
    var k := Find(s.queue, msgid);
    if k < |s.queue| {
      BudgetWithout(s.queue, k);
    }
  }

  lemma BudgetWithout(q: seq<Pending>, k: nat)
    requires k < |q| && q[k].xmit <= MAX_RETRANSMIT
    ensures Budget(Put(q, k, [])) <= Budget(q)
  {
    hide Budget, Put;
    CutOut(q, k);
    BudgetOfOne(q[k]);
    BudgetConcat(q[..k], [q[k]] + q[k + 1..]);
    BudgetConcat([q[k]], q[k + 1..]);
    BudgetConcat(q[..k], q[k + 1..]);
  }

  lemma CutOut(q: seq<Pending>, k: nat)
    requires k < |q|
    ensures q == q[..k] + ([q[k]] + q[k + 1..]) && Put(q, k, []) == q[..k] + q[k + 1..]
  {
  }

  lemma BudgetOfOne(p: Pending)
    ensures Budget([p]) == MAX_RETRANSMIT + 1 - p.xmit
  {
    assert [p][1..] == [];
  }

  lemma StepSpends(s: State, a: Action)
    requires Inv(s) && Legal(s, a) && !IsSend(a)
    ensures Budget(Apply(s, a).queue) + Handled(s, a) <= Budget(s.queue)
  {
    hide Inv, Acknowledge, SweepTo, Sweep, LegalTicks, Budget;
    match a
    case Ack(msgid) => AcknowledgeSpends(s, msgid);
    case SweepAll(ticks) => SweepDrains(s, ticks);
    case _ =>
  }

  /**
   * Draining, over any stretch of a run in which nothing confirmable is handed over, whatever acknowledgements and
   * sweeps it is made of: the expiries handled and the budget left are at most the budget at its start, which is
   * four per message queued then. In particular the queue is empty once that many have been handled.
   */
  lemma {:induction false} StretchDrains(trace: seq<State>, actions: seq<Action>, i: nat, j: nat)
    requires IsRun(trace, actions) && i <= j <= |actions| <= |trace|
    requires forall k :: i <= k < j ==> !IsSend(actions[k])
    ensures j < |trace|
    ensures HandledBetween(trace, actions, i, j) + Budget(trace[j].queue) <= Budget(trace[i].queue) <= MAX_RETRANSMIT * |trace[i].queue|
    ensures HandledBetween(trace, actions, i, j) == Budget(trace[i].queue) ==> trace[j].queue == []
    decreases j
  {
    hide IsRun, Inv, Legal, Apply, Handled, Budget, WithinCap, IsSend;
    RunLength(trace, actions);
    RunsAreSafe(trace, actions, i);
    RunsAreSafe(trace, actions, j);
    EntriesSent(trace[i]);
    EntriesSent(trace[j]);
    BudgetBounds(trace[i].queue);
    BudgetBounds(trace[j].queue);
    if i < j {
      StretchDrains(trace, actions, i, j - 1);
      RunsAreSafe(trace, actions, j - 1);
      RunStep(trace, actions, j - 1);
      StepSpends(trace[j - 1], actions[j - 1]);
    }
  }

  // ---------- Message ids ----------

  // Every queued message was sent under an id of the endpoint's own.
  ghost predicate OwnIds(s: State) {
    Wf(s) && forall i :: 0 <= i < |s.queue| ==> s.records[s.queue[i].uid].issue.Some?
  }

  function IssueOf(s: State, i: nat): nat
    requires i < |s.queue| && s.queue[i].uid < |s.records| && s.records[s.queue[i].uid].issue.Some?
  {
    s.records[s.queue[i].uid].issue.value
  }

  lemma IssuesDiffer(s: State, i: nat, j: nat)
    requires Inv(s) && OwnIds(s) && i < |s.queue| && j < |s.queue| && i != j
    ensures IssueOf(s, i) != IssueOf(s, j)
    ensures s.queue[i].msgid == s.queue[j].msgid <==> SameTurn(IssueOf(s, i), IssueOf(s, j))
  {
    var p, q := s.queue[i], s.queue[j];
    assert p.uid != q.uid;
    assert EntryOk(p, s.records[p.uid], s.now) && EntryOk(q, s.records[q.uid], s.now);
    hide EntryOk, RecordOk, Conserved, SameTurn;
    IdsDistinct(s.firstid, IssueOf(s, i), IssueOf(s, j));
  }

  /**
   * An acknowledgement of any queued message takes out exactly that message if and only if no two queued
   * messages were issued a multiple of 65535 ids apart.
   */
  lemma AckIsPreciseIff(s: State)
    requires Inv(s) && OwnIds(s)
    ensures (forall k :: 0 <= k < |s.queue| ==> Find(s.queue, s.queue[k].msgid) == k)
       <==> (forall i, j :: 0 <= i < j < |s.queue| ==> !SameTurn(IssueOf(s, i), IssueOf(s, j)))
  {
    hide Inv, SameTurn;
    if forall k :: 0 <= k < |s.queue| ==> Find(s.queue, s.queue[k].msgid) == k {
      forall i, j | 0 <= i < j < |s.queue| ensures !SameTurn(IssueOf(s, i), IssueOf(s, j)) {
        assert Find(s.queue, s.queue[i].msgid) == i && Find(s.queue, s.queue[j].msgid) == j;
        IssuesDiffer(s, i, j);
      }
    }
    if forall i, j :: 0 <= i < j < |s.queue| ==> !SameTurn(IssueOf(s, i), IssueOf(s, j)) {
      forall k | 0 <= k < |s.queue| ensures Find(s.queue, s.queue[k].msgid) == k {
        var f := Find(s.queue, s.queue[k].msgid);
        if f < k {
          IssuesDiffer(s, f, k);
        }
      }
    }
  }

  // Queued messages are among the last 65535 ids issued.
  ghost predicate WithinWindow(s: State) {
    OwnIds(s) && forall i :: 0 <= i < |s.queue| ==> s.issued - IssueOf(s, i) <= 0xffff
  }

  lemma WindowIsPrecise(s: State)
    requires Inv(s) && WithinWindow(s)
    ensures forall k :: 0 <= k < |s.queue| ==> Find(s.queue, s.queue[k].msgid) == k
  {
    assert OwnIds(s);
    hide Inv, WithinWindow, OwnIds, SameTurn, Find;
    AckIsPreciseIff(s);
    forall i, j | 0 <= i < j < |s.queue| ensures !SameTurn(IssueOf(s, i), IssueOf(s, j)) {
      IssuesDiffer(s, i, j);
      InWindow(s, i);
      InWindow(s, j);
      NearIsNotSameTurn(IssueOf(s, i), IssueOf(s, j));
    }
  }

  /**
   * While queued ids are among the last 65535 issued, in any run, an acknowledgement that names a queued
   * message removes that message and no other, leaves the rest in order and every other history alone.
   */
  lemma AckRemovesTheOneItNames(trace: seq<State>, actions: seq<Action>, i: nat, k: nat)
    requires IsRun(trace, actions) && i < |trace| && WithinWindow(trace[i]) && k < |trace[i].queue|
    ensures var s := trace[i];
            var p, t := s.queue[k], Acknowledge(s, s.queue[k].msgid);
            && t.queue == s.queue[..k] + s.queue[k + 1..]
            && |t.records| == |s.records| && t.records[p.uid].status == Acked
            && (forall u :: 0 <= u < |s.records| && u != p.uid ==> t.records[u] == s.records[u])
  {
    RunsAreSafe(trace, actions, i);
    WindowIsPrecise(trace[i]);
    hide Inv, IsRun, WithinWindow;
    AckTakesOut(trace[i], k);
  }

  lemma AckTakesOut(s: State, k: nat)
    requires Wf(s) && k < |s.queue| && Find(s.queue, s.queue[k].msgid) == k
    ensures var p, t := s.queue[k], Acknowledge(s, s.queue[k].msgid);
            && t.queue == s.queue[..k] + s.queue[k + 1..]
            && |t.records| == |s.records| && t.records[p.uid].status == Acked
            && (forall u :: 0 <= u < |s.records| && u != p.uid ==> t.records[u] == s.records[u])
  {
    hide Find;
    assert s.queue[..k] + [] == s.queue[..k];
  }

  // The message is done with, and its id was among the last 65535 issued.
  ghost predicate DoneWith(s: State, uid: nat) {
    && uid < |s.records| && !s.records[uid].status.Queued? && s.records[uid].issue.Some?
    && s.issued - s.records[uid].issue.value <= 0xffff
  }

  /**
   * While ids are in the window, an acknowledgement for a message that is done with names no entry: the source,
   * which follows the null it has found, fails exactly then.
   */
  lemma DoneWithIsUnmatched(s: State, uid: nat)
    requires Inv(s) && WithinWindow(s) && DoneWith(s, uid)
    ensures Find(s.queue, s.records[uid].msgid) == |s.queue|
  {
    var k := Find(s.queue, s.records[uid].msgid);
    if k < |s.queue| {
      var p := s.queue[k];
      assert EntryOk(p, s.records[p.uid], s.now);
      InWindow(s, k);
      OtherIdDiffers(s, p.uid, uid);
      hide Inv;
    }
  }

  lemma OtherIdDiffers(s: State, u: nat, v: nat)
    requires Inv(s) && u < |s.records| && v < |s.records| && u != v
    requires s.records[u].issue.Some? && s.records[v].issue.Some?
    requires 0 < s.issued - s.records[u].issue.value <= 0xffff && s.issued - s.records[v].issue.value <= 0xffff
    ensures s.records[u].msgid != s.records[v].msgid
  {
    var i, j := s.records[u].issue.value, s.records[v].issue.value;
    assert i != j && j < s.issued;
    hide Conserved, RecordOk, SameTurn;
    IdsDistinct(s.firstid, i, j);
    NearIsNotSameTurn(i, j);
  }

  /**
   * The second copy of an acknowledgement, and any later one: from the step after the first on, as long as the ids
   * stay in the window, it names no entry.
   */
  lemma DuplicateAckIsUnmatched(trace: seq<State>, actions: seq<Action>, i: nat, j: nat, k: nat)
    requires IsRun(trace, actions) && i < j < |trace| && WithinWindow(trace[i]) && k < |trace[i].queue|
    requires actions[i] == Ack(trace[i].queue[k].msgid)
    requires WithinWindow(trace[j]) && trace[j].issued - IssueOf(trace[i], k) <= 0xffff
    ensures Find(trace[j].queue, trace[i].queue[k].msgid) == |trace[j].queue|
  {
    var s, p := trace[i], trace[i].queue[k];
    RunStep(trace, actions, i);
    AckRemovesTheOneItNames(trace, actions, i, k);
    RunsExtend(trace, actions, i + 1, j);
    RunsExtend(trace, actions, i, j);
    RunsAreSafe(trace, actions, i);
    RunsAreSafe(trace, actions, j);
    assert EntryOk(p, s.records[p.uid], s.now);
    hide Inv, IsRun, WithinWindow, Acknowledge;
    DoneWithIsUnmatched(trace[j], p.uid);
  }

  lemma InWindow(s: State, i: nat)
    requires Inv(s) && WithinWindow(s) && i < |s.queue|
    ensures s.issued - 0xffff <= IssueOf(s, i) < s.issued
  {
  }

  lemma NearIsNotSameTurn(i: nat, j: nat)
    requires -0xffff < i - j < 0xffff && i != j
    ensures !SameTurn(i, j)
  {
  }
}
