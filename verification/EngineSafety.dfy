/** What every reachable state of the engine satisfies, and what a run can make of a message. */
module EngineSafety {
  import opened Bytes
  import opened Timeouts
  import opened Engine

  // ---------- Back-off arithmetic ----------

  function Doubled(k: nat): real {
    if k == 0 then 1.0 else 2.0 * Doubled(k - 1)
  }

  // The k-th timeout of a message, counting from 0, and the sum of those before it.
  function Span(t0: real, k: nat): real {
    if k == 0 then t0 else 2.0 * Span(t0, k - 1)
  }

  function Elapsed(t0: real, k: nat): real {
    if k == 0 then 0.0 else Elapsed(t0, k - 1) + Span(t0, k - 1)
  }

  /** The timeouts double, so the waits before the k-th add up to 2^k - 1 times the first. */
  lemma {:induction false} BackoffClosedForm(t0: real, k: nat)
    ensures Span(t0, k) == t0 * Doubled(k) && Elapsed(t0, k) == t0 * (Doubled(k) - 1.0)
  {
    if k > 0 {
      BackoffClosedForm(t0, k - 1);
      var d := Doubled(k - 1);
      assert 2.0 * (t0 * d) == t0 * (2.0 * d);
      assert t0 * (d - 1.0) + t0 * d == t0 * (2.0 * d - 1.0);
    }
  }

  // ---------- The invariant ----------

  // One message's history: at most four transmissions, all of them identical, none before its time; the
  // result function called once if the message is done with, and not before.
  predicate RecordOk(r: Record) {
    && ACK_TIMEOUT <= r.t0 <= ACK_TIMEOUT * ACK_RANDOM_FACTOR
    && 1 <= |r.xmits| <= MAX_RETRANSMIT
    && (forall k :: 0 <= k < |r.xmits| ==>
          r.xmits[k].dest == r.dest && r.xmits[k].bytes == r.bytes && r.xmits[k].at >= r.born + Elapsed(r.t0, k))
    && (forall k :: 0 <= k < |r.xmits| - 1 ==> r.xmits[k].err == DONE)
    && r.calls == (if r.status.Queued? then [] else CallsOf(r.resultfn, r.msgid, ErrorOf(r.status)))
    && match r.status
       case SendFailed(err) => err != DONE && r.xmits[|r.xmits| - 1].err == err
       case GaveUp(at) =>
         r.xmits[|r.xmits| - 1].err == DONE && |r.xmits| == MAX_RETRANSMIT && at >= r.born + Elapsed(r.t0, MAX_RETRANSMIT)
       case _ => r.xmits[|r.xmits| - 1].err == DONE
  }

  // A queue entry agrees with its message's history, and its timeout is the one back-off prescribes.
  predicate EntryOk(p: Pending, r: Record, now: real) {
    && r.status.Queued?
    && p.msgid == r.msgid && p.dest == r.dest && p.bytes == r.bytes && p.resultfn == r.resultfn
    && p.xmit == |r.xmits|
    && 1 <= p.xmit
    && p.timeout == Timeout(-1.0, Span(r.t0, p.xmit - 1), p.timeout.start)
    && r.born + Elapsed(r.t0, p.xmit - 1) <= p.timeout.start <= now
  }

  predicate InQueue(q: seq<Pending>, uid: nat) {
    exists i :: 0 <= i < |q| && q[i].uid == uid
  }

  predicate DistinctUids(q: seq<Pending>) {
    forall i, j :: 0 <= i < j < |q| ==> q[i].uid != q[j].uid
  }

  // Conservation: the queue holds exactly the messages whose status is Queued, each once.
  ghost predicate Conserved(s: State) {
    && Wf(s)
    && DistinctUids(s.queue)
    && (forall i :: 0 <= i < |s.queue| ==> EntryOk(s.queue[i], s.records[s.queue[i].uid], s.now))
    && (forall u :: 0 <= u < |s.records| && s.records[u].status.Queued? ==> InQueue(s.queue, u))
  }

  // Ids are issued in order, and a message sent by send_msg carries the id it was issued.
  predicate IdsOk(s: State) {
    && s.firstid != 0
    && s.nextid == IdAfter(s.firstid, s.issued)
    && (forall u :: 0 <= u < |s.records| && s.records[u].issue.Some? ==>
          s.records[u].issue.value < s.issued && s.records[u].msgid == IdAfter(s.firstid, s.records[u].issue.value))
    && (forall u, v :: 0 <= u < v < |s.records| && s.records[u].issue.Some? && s.records[v].issue.Some? ==>
          s.records[u].issue.value < s.records[v].issue.value)
  }

  ghost predicate Inv(s: State) {
    && Conserved(s)
    && (forall u :: 0 <= u < |s.records| ==> RecordOk(s.records[u]))
    && IdsOk(s)
  }

  // ---------- Steps keep it ----------

  predicate LegalSending(now: real, m: Sending) {
    ACK_TIMEOUT <= m.t0 <= ACK_TIMEOUT * ACK_RANDOM_FACTOR && now <= m.born <= m.at
  }

  lemma EntryOkLater(s: State, now: real)
    requires Conserved(s) && s.now <= now
    ensures Conserved(s.(now := now))
  {
  }

  // A new record, and an entry for it if it is queued.
  lemma AppendConserves(s: State, r: Record, kept: seq<Pending>)
    requires Conserved(s) && |kept| <= 1
    requires if kept == [] then !r.status.Queued? else kept[0].uid == |s.records| && EntryOk(kept[0], r, s.now)
    ensures Conserved(s.(queue := s.queue + kept, records := s.records + [r]))
  {
    hide EntryOk;
    var t := s.(queue := s.queue + kept, records := s.records + [r]);
    var n := |s.records|;
    forall u | 0 <= u < |t.records| && t.records[u].status.Queued? ensures InQueue(t.queue, u) {
      if u < n {
        assert InQueue(s.queue, u);
        var i :| 0 <= i < |s.queue| && s.queue[i].uid == u;
        assert t.queue[i].uid == u;
      } else {
        assert t.queue[|s.queue|].uid == u;
      }
    }
  }

  lemma AppendIds(s: State, r: Record)
    requires IdsOk(s)
    requires r.issue.Some? ==> r.issue.value < s.issued && r.msgid == IdAfter(s.firstid, r.issue.value)
    requires r.issue.Some? ==> forall u :: 0 <= u < |s.records| && s.records[u].issue.Some? ==> s.records[u].issue.value < r.issue.value
    ensures IdsOk(s.(records := s.records + [r]))
  {
  }

  // The last id issued is fit for the next message.
  predicate FitIssue(s: State, msgid: u16, issue: Option<nat>) {
    issue.Some? ==>
      && issue.value < s.issued && msgid == IdAfter(s.firstid, issue.value)
      && forall u :: 0 <= u < |s.records| && s.records[u].issue.Some? ==> s.records[u].issue.value < issue.value
  }

  /** Sending keeps the invariant, whether or not the first transmission succeeds. */
  lemma ArriveKeeps(s: State, m: Sending, issue: Option<nat>)
    requires Inv(s) && LegalSending(s.now, m) && FitIssue(s, m.msgid, issue)
    ensures Inv(Arrive(s, m, issue))
  {
    var t := Arrive(s, m, issue);
    var n, later := |s.records|, s.(now := m.at);
    var r, kept := t.records[n], t.queue[|s.queue|..];
    assert Span(m.t0, 0) == m.t0 && Elapsed(m.t0, 0) == 0.0;
    assert RecordOk(r);
    assert kept != [] ==> kept[0].uid == n && EntryOk(kept[0], r, m.at);
    assert r.status.Queued? <==> kept != [];
    assert t.queue == s.queue + kept && t.records == s.records + [r] && t.now == m.at;
    hide RecordOk, EntryOk, Arrive, Conserved, IdsOk;
    EntryOkLater(s, m.at);
    AppendConserves(later, r, kept);
    AppendIds(s, r);
    assert IdsOk(t) by { ClockFreeIds(s.(records := t.records), t); }
    var bare := later.(queue := s.queue + kept, records := s.records + [r]);
    ConservedLogFree(bare, t.log);
    assert t == bare.(log := t.log);
  }

  // What has gone out is nothing to the invariant.
  lemma ConservedLogFree(s: State, log: seq<Event>)
    requires Conserved(s)
    ensures Conserved(s.(log := log))
  {
  }

  lemma LogFree(s: State, log: seq<Event>)
    requires Inv(s)
    ensures Inv(s.(log := log))
  {
    ConservedLogFree(s, log);
    hide Conserved, RecordOk;
  }

  /** A message sent without confirmation keeps the invariant. */
  lemma PlainKeeps(s: State, x: Xmission)
    requires Inv(s) && s.now <= x.at
    ensures Inv(Plain(s, x))
  {
    EntryOkLater(s, x.at);
    ConservedLogFree(s.(now := x.at), Plain(s, x).log);
    hide Conserved, RecordOk;
  }

  /** The id just issued is fit for the next message. */
  lemma TakeIdKeeps(s: State)
    requires Inv(s)
    ensures Inv(TakeId(s)) && FitIssue(TakeId(s), s.nextid, Some(s.issued))
  {
  }

  lemma ClockFreeIds(s: State, t: State)
    requires IdsOk(s) && t.firstid == s.firstid && t.issued == s.issued && t.nextid == s.nextid && t.records == s.records
    ensures IdsOk(t)
  {
  }

  // The entry at k replaced by one for the same message, or taken out, with a new history for that message.
  function Replaced(s: State, k: nat, kept: seq<Pending>, r: Record, now: real): State
    requires k < |s.queue| && s.queue[k].uid < |s.records|
  {
    s.(queue := s.queue[..k] + kept + s.queue[k + 1..], records := s.records[s.queue[k].uid := r], now := now)
  }

  lemma ReplacedKeeps(s: State, k: nat, kept: seq<Pending>, r: Record, now: real)
    requires Inv(s) && k < |s.queue| && s.now <= now
    requires |kept| <= 1 && RecordOk(r)
    requires r.msgid == s.records[s.queue[k].uid].msgid && r.issue == s.records[s.queue[k].uid].issue
    requires if kept == [] then !r.status.Queued? else kept[0].uid == s.queue[k].uid && EntryOk(kept[0], r, now)
    ensures Inv(Replaced(s, k, kept, r, now))
  {
    hide RecordOk;
    ReplacedConserves(s, k, kept, r, now);
    hide Conserved;
  }

  // t is q with the entry at k replaced by none or one.
  predicate Spliced(q: seq<Pending>, k: nat, kept: seq<Pending>, t: seq<Pending>) {
    && k < |q| && |kept| <= 1 && |t| == |q| - 1 + |kept|
    && (forall i :: 0 <= i < k ==> t[i] == q[i])
    && (kept != [] ==> t[k] == kept[0])
    && (forall i :: k < i < |q| ==> t[i - 1 + |kept|] == q[i])
    && (forall i :: k + |kept| <= i < |t| ==> t[i] == q[i + 1 - |kept|])
  }

  lemma SpliceIsSpliced(q: seq<Pending>, k: nat, kept: seq<Pending>)
    requires k < |q| && |kept| <= 1
    ensures Spliced(q, k, kept, q[..k] + kept + q[k + 1..])
  {
  }

  lemma SplicedDistinct(q: seq<Pending>, k: nat, kept: seq<Pending>, t: seq<Pending>)
    requires Spliced(q, k, kept, t) && DistinctUids(q) && (kept != [] ==> kept[0].uid == q[k].uid)
    ensures DistinctUids(t)
    ensures forall i :: 0 <= i < |t| && t[i].uid == q[k].uid ==> kept != [] && i == k
  {
    var gap := 1 - |kept|;
    forall i, j | 0 <= i < j < |t| ensures t[i].uid != t[j].uid {
      var a, b := if i < k + |kept| then i else i + gap, if j < k + |kept| then j else j + gap;
      assert t[i].uid == q[a].uid && t[j].uid == q[b].uid && a < b;
    }
    forall i | 0 <= i < |t| && t[i].uid == q[k].uid ensures kept != [] && i == k {
      var a := if i < k + |kept| then i else i + gap;
      assert t[i].uid == q[a].uid;
    }
  }

  lemma SplicedMember(q: seq<Pending>, k: nat, kept: seq<Pending>, t: seq<Pending>, uid: nat)
    requires Spliced(q, k, kept, t) && InQueue(q, uid) && uid != q[k].uid
    ensures InQueue(t, uid)
  {
    var i :| 0 <= i < |q| && q[i].uid == uid;
    assert t[if i < k then i else i - 1 + |kept|].uid == uid;
  }

  lemma ReplacedConserves(s: State, k: nat, kept: seq<Pending>, r: Record, now: real)
    requires Conserved(s) && k < |s.queue| && s.now <= now && |kept| <= 1
    requires if kept == [] then !r.status.Queued? else kept[0].uid == s.queue[k].uid && EntryOk(kept[0], r, now)
    ensures Conserved(Replaced(s, k, kept, r, now))
  {
    EntryOkLater(s, now);
    SpliceIsSpliced(s.queue, k, kept);
    var t, uid := Replaced(s, k, kept, r, now), s.queue[k].uid;
    assert t.records == s.records[uid := r] && t.now == now;
    SplicedDistinct(s.queue, k, kept, t.queue);
    hide EntryOk, Replaced;
    forall i | 0 <= i < |t.queue|
      ensures t.queue[i].uid < |t.records| && EntryOk(t.queue[i], t.records[t.queue[i].uid], now)
    {
      if t.queue[i].uid != uid {
        var j := if i < k + |kept| then i else i + 1 - |kept|;
        assert t.queue[i] == s.queue[j];
      }
    }
    forall u | 0 <= u < |t.records| && t.records[u].status.Queued? ensures InQueue(t.queue, u) {
      if u == uid {
        assert t.queue[k].uid == u;
      } else {
        SplicedMember(s.queue, k, kept, t.queue, u);
      }
    }
  }

  lemma CloseIsOk(p: Pending, r: Record, status: Status)
    requires RecordOk(r) && r.status.Queued? && p.resultfn == r.resultfn && p.msgid == r.msgid
    requires status.Acked? || (status.GaveUp? && |r.xmits| == MAX_RETRANSMIT && status.at >= r.born + Elapsed(r.t0, MAX_RETRANSMIT))
    ensures RecordOk(Close(p, r, status))
  {
  }

  /** An acknowledgement keeps the invariant. */
  lemma AcknowledgeKeeps(s: State, msgid: u16)
    requires Inv(s)
    ensures Inv(Acknowledge(s, msgid))
  {
    var k := Find(s.queue, msgid);
    if k < |s.queue| {
      var p := s.queue[k];
      var r := s.records[p.uid];
      assert EntryOk(p, r, s.now);
      CloseIsOk(p, r, Acked);
      assert s.queue[..k] + [] == s.queue[..k];
      assert Depart(s, k, Acked) == Replaced(s, k, [], Close(p, r, Acked), s.now).(log := Depart(s, k, Acked).log);
      hide RecordOk, EntryOk, Conserved, Replaced, Depart;
      ReplacedKeeps(s, k, [], Close(p, r, Acked), s.now);
      LogFree(Replaced(s, k, [], Close(p, r, Acked), s.now), Depart(s, k, Acked).log);
    }
  }

  predicate LegalTick(now: real, t: Tick) {
    now <= t.check <= t.mark <= t.at
  }

  // An entry of the queue expires no sooner than its back-off allows.
  lemma ExpiryIsDue(p: Pending, r: Record, now: real, t: Tick)
    requires EntryOk(p, r, now) && LegalTick(now, t) && Expired(p, t)
    requires ACK_TIMEOUT <= r.t0
    ensures t.mark >= p.timeout.start + p.timeout.total
    ensures t.mark >= r.born + Elapsed(r.t0, p.xmit)
  {
    SpanPositive(r.t0, p.xmit - 1);
    ExpiredIff(p.timeout, t.check);
  }

  lemma {:induction false} SpanPositive(t0: real, k: nat)
    requires t0 > 0.0
    ensures Span(t0, k) > 0.0 && Elapsed(t0, k) >= 0.0
  {
    if k > 0 {
      SpanPositive(t0, k - 1);
    }
  }

  // A queued message's history with one more transmission, not yet judged by its result.
  lemma SentAgain(r: Record, x: Xmission)
    requires RecordOk(r) && r.status.Queued? && |r.xmits| < MAX_RETRANSMIT
    requires x.dest == r.dest && x.bytes == r.bytes && x.at >= r.born + Elapsed(r.t0, |r.xmits|)
    ensures var sent := r.(xmits := r.xmits + [x]);
            if x.err == DONE then RecordOk(sent)
            else RecordOk(sent.(calls := r.calls + CallsOf(r.resultfn, r.msgid, x.err), status := SendFailed(x.err)))
  {
    hide Elapsed;
    var xmits := r.xmits + [x];
    assert forall k :: 0 <= k < |r.xmits| ==> xmits[k] == r.xmits[k];
    assert xmits[|xmits| - 1] == x;
  }

  lemma ResendIsOk(p: Pending, r: Record, now: real, t: Tick)
    requires RecordOk(r) && EntryOk(p, r, now) && LegalTick(now, t) && p.xmit < MAX_RETRANSMIT
    requires t.mark >= r.born + Elapsed(r.t0, p.xmit)
    ensures var sent := r.(xmits := r.xmits + [Xmission(p.dest, p.bytes, t.at, t.err)]);
            if t.err == DONE then RecordOk(sent) && EntryOk(Rearm(p, t).(xmit := p.xmit + 1), sent, t.at)
            else RecordOk(Close(p, sent, SendFailed(t.err)))
  {
    SentAgain(r, Xmission(p.dest, p.bytes, t.at, t.err));
    assert Span(r.t0, p.xmit) == 2.0 * Span(r.t0, p.xmit - 1);
    hide Span, Elapsed, RecordOk;
  }

  /** Visiting one entry leaves its history and the entry, if it stays, in order. */
  lemma VisitIsOk(p: Pending, r: Record, now: real, t: Tick)
    requires RecordOk(r) && EntryOk(p, r, now) && LegalTick(now, t)
    ensures var (kept, r') := Visit(p, r, t);
            && RecordOk(r') && r'.msgid == r.msgid && r'.issue == r.issue && |kept| <= 1
            && if kept == [] then !r'.status.Queued? else kept[0].uid == p.uid && EntryOk(kept[0], r', t.at)
  {
    hide Span, Elapsed, Expired;
    if Expired(p, t) {
      ExpiryIsDue(p, r, now, t);
      if p.xmit >= MAX_RETRANSMIT {
        CloseIsOk(p, r, GaveUp(t.mark));
      } else {
        ResendIsOk(p, r, now, t);
      }
      hide RecordOk, EntryOk;
    }
  }

  lemma VisitKeeps(s: State, k: nat, t: Tick)
    requires Inv(s) && k < |s.queue| && LegalTick(s.now, t)
    ensures Inv(VisitAt(s, k, t)) && VisitAt(s, k, t).now == t.at
  {
    var p := s.queue[k];
    VisitReplaces(s, k, t);
    hide RecordOk, Visit, EntryOk, Inv, Replaced, VisitAt;
    var (kept, r) := Visit(p, s.records[p.uid], t);
    KeptByReplacing(s, k, t);
    LogFree(Replaced(s, k, kept, r, t.at), VisitAt(s, k, t).log);
  }

  lemma KeptByReplacing(s: State, k: nat, t: Tick)
    requires Inv(s) && k < |s.queue| && LegalTick(s.now, t)
    ensures var (kept, r) := Visit(s.queue[k], s.records[s.queue[k].uid], t); Inv(Replaced(s, k, kept, r, t.at))
  {
    var p := s.queue[k];
    VisitIsOk(p, s.records[p.uid], s.now, t);
    hide RecordOk, Visit, EntryOk;
    var (kept, r) := Visit(p, s.records[p.uid], t);
    ReplacedKeeps(s, k, kept, r, t.at);
  }

  // A visit replaces the entry and its message's history, and adds to the log.
  lemma VisitReplaces(s: State, k: nat, t: Tick)
    requires Wf(s) && k < |s.queue|
    ensures var (kept, r) := Visit(s.queue[k], s.records[s.queue[k].uid], t);
            VisitAt(s, k, t) == Replaced(s, k, kept, r, t.at).(log := VisitAt(s, k, t).log)
  {
    hide Visit, Events;
  }

  // The readings of a sweep, in the order they are taken, from a clock that does not run backwards.
  predicate LegalTicks(now: real, ticks: seq<Tick>) {
    ticks == [] || (LegalTicks(now, ticks[..|ticks| - 1]) && LegalTick(ClockAfter(now, ticks[..|ticks| - 1]), ticks[|ticks| - 1]))
  }

  function ClockAfter(now: real, ticks: seq<Tick>): real {
    if ticks == [] then now else ticks[|ticks| - 1].at
  }

  /** Every moment of a sweep keeps the invariant. */
  lemma {:induction false} SweepKeeps(s: State, ticks: seq<Tick>)
    requires Inv(s) && |ticks| <= |s.queue| && LegalTicks(s.now, ticks)
    ensures Inv(SweepTo(s, ticks).state) && SweepTo(s, ticks).state.now == ClockAfter(s.now, ticks)
  {
    if ticks != [] {
      var n := |ticks| - 1;
      SweepKeeps(s, ticks[..n]);
      var c := SweepTo(s, ticks[..n]);
      VisitKeeps(c.state, c.at, ticks[n]);
      hide Inv;
    }
  }

  // One more turn of a sweep.
  lemma SweepOn(s: State, ticks: seq<Tick>, t: Tick)
    requires Inv(s) && |ticks| < |s.queue| && LegalTicks(s.now, ticks) && LegalTick(ClockAfter(s.now, ticks), t)
    ensures var c := SweepTo(s, ticks);
            && c.at < |c.state.queue| && Inv(c.state)
            && SweepTo(s, ticks + [t]) == Cursor(VisitAt(c.state, c.at, t), NextAt(c.state, c.at, t))
    ensures LegalTicks(s.now, ticks + [t]) && ClockAfter(s.now, ticks + [t]) == t.at && Inv(SweepTo(s, ticks + [t]).state)
  {
    hide VisitAt, NextAt, Inv;
    assert (ticks + [t])[..|ticks|] == ticks;
    SweepKeeps(s, ticks);
    SweepKeeps(s, ticks + [t]);
  }

  // A sweep of s on its way: it has come to state t and position at.
  ghost predicate Sweeping(s: State, ticks: seq<Tick>, t: State, at: nat) {
    && Inv(s) && |ticks| <= |s.queue| && LegalTicks(s.now, ticks)
    && SweepTo(s, ticks) == Cursor(t, at) && t.now == ClockAfter(s.now, ticks) && Inv(t)
  }

  lemma SweepStarts(s: State)
    requires Inv(s)
    ensures Sweeping(s, [], s, 0)
  {
    hide Conserved, RecordOk, IdsOk;
  }

  lemma SweepFacts(s: State, ticks: seq<Tick>, t: State, at: nat)
    requires Sweeping(s, ticks, t, at)
    ensures Wf(t) && Inv(t) && at <= |t.queue| && |t.queue| - at == |s.queue| - |ticks|
    ensures at == |t.queue| ==> LegalTicks(s.now, ticks) && t == Sweep(s, ticks)
  {
    var c := SweepTo(s, ticks);
    hide SweepTo, LegalTicks, RecordOk, IdsOk, EntryOk;
  }

  lemma SweepGoesOn(s: State, ticks: seq<Tick>, t: State, at: nat, tick: Tick)
    requires Sweeping(s, ticks, t, at) && at < |t.queue| && Wf(t) && LegalTick(t.now, tick)
    ensures Sweeping(s, ticks + [tick], VisitAt(t, at, tick), NextAt(t, at, tick)) && VisitAt(t, at, tick).now == tick.at
  {
    SweepFacts(s, ticks, t, at);
    assert VisitAt(t, at, tick).now == tick.at;
    hide Inv, VisitAt, NextAt, SweepTo, Wf;
    SweepOn(s, ticks, tick);
  }
}
