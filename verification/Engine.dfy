/**
 * The confirmable-message engine (section 4.2 of RFC 7252, mcoap/mc_endpt_udp.c) as a state machine: a queue
 * of messages in flight, and for each message ever handed over a record of what became of it. The three
 * steps are sending, receiving an acknowledgement and sweeping the queue for timeouts. Clock readings,
 * results of sendto and random draws are inputs of the steps.
 */
module Engine {
  import opened Bytes
  import opened Timeouts

  const MAX_RETRANSMIT := 4
  const ACK_TIMEOUT := 2.0
  const ACK_RANDOM_FACTOR := 1.5
  const MAX_TRANSMIT_SPAN := 45.0

  const DONE := 0
  const TIMED_OUT := -1

  // Addresses are opaque to the engine.
  type Addr = nat

  // A queue entry. A result function above 1 is a real one; 0 and 1 are flags.
  datatype Pending = Pending(uid: nat, msgid: u16, xmit: nat, dest: Addr, timeout: Timeout, resultfn: nat, bytes: seq<byte>)

  datatype Xmission = Xmission(dest: Addr, bytes: seq<byte>, at: real, err: int)

  // Where a message handed to the engine is: exactly one of these.
  datatype Status = Queued | Acked | GaveUp(at: real) | SendFailed(err: int)

  // A call of a result function: which function, which message it is about and what became of that.
  datatype Call = Call(resultfn: nat, msgid: u16, err: int)

  // What the outside world gets to see: a datagram handed to the socket, for the message it belongs to if that is
  // a confirmable one, or the call of a result function.
  datatype Event = Sent(who: Option<nat>, x: Xmission) | Told(about: nat, call: Call)

  // What happened to one message: each sendto, each call of its result function, where it is now.
  datatype Record = Record(msgid: u16, dest: Addr, bytes: seq<byte>, resultfn: nat, t0: real, born: real, issue: Option<nat>,
                           xmits: seq<Xmission>, calls: seq<Call>, status: Status)

  // nextid is the next message id; issued counts the ids given out, starting from firstid; now is the last clock
  // reading; log is everything that has gone out so far, in order.
  datatype State = State(queue: seq<Pending>, records: seq<Record>, firstid: u16, issued: nat, nextid: u16, now: real,
                         log: seq<Event>)

  ghost predicate Wf(s: State) {
    forall i :: 0 <= i < |s.queue| ==> s.queue[i].uid < |s.records|
  }

  // ---------- Message ids ----------

  function NextId(id: u16): u16 {
    var next := (id + 1) % 0x1_0000;
    if next == 0 then 1 else next
  }

  function IdAfter(first: u16, n: nat): u16 {
    if n == 0 then first else NextId(IdAfter(first, n - 1))
  }

  // mc_endpt_udp_nextid: the id is given out and the next one made ready.
  function TakeId(s: State): State {
    s.(nextid := NextId(s.nextid), issued := s.issued + 1)
  }

  /** The ids go round the 65535 non-zero values. */
  lemma {:induction false} IdClosedForm(first: u16, n: nat)
    requires first != 0
    ensures IdAfter(first, n) == (first - 1 + n) % 0xffff + 1
  {
    hide NextId;
    if n > 0 {
      IdClosedForm(first, n - 1);
      NextIdTurns(first - 1 + (n - 1));
    }
  }

  lemma NextIdTurns(x: nat)
    ensures NextId(x % 0xffff + 1) == (x + 1) % 0xffff + 1
  {
    var q, r := x / 0xffff, x % 0xffff;
    if r == 0xfffe {
      DivModUnique(x + 1, 0xffff, q + 1, 0);
    } else {
      DivModUnique(x + 1, 0xffff, q, r + 1);
    }
  }

  // Issued a multiple of 65535 ids apart.
  predicate SameTurn(i: nat, j: nat) {
    (i - j) % 0xffff == 0
  }

  /** Two ids are the same exactly when a multiple of 65535 ids were issued in between; in particular none is 0. */
  lemma IdsDistinct(first: u16, i: nat, j: nat)
    requires first != 0
    ensures IdAfter(first, i) != 0
    ensures IdAfter(first, i) == IdAfter(first, j) <==> SameTurn(i, j)
  {
    hide IdAfter;
    IdClosedForm(first, i);
    IdClosedForm(first, j);
    SameRemainder(first - 1 + i, first - 1 + j, 0xffff);
  }

  lemma SameRemainder(a: int, b: int, m: int)
    requires m > 0
    ensures a % m == b % m <==> (a - b) % m == 0
  {
    var qa, qb, q := a / m, b / m, (a - b) / m;
    assert a == qa * m + a % m && b == qb * m + b % m && a - b == q * m + (a - b) % m;
    if a % m == b % m {
      assert a - b == (qa - qb) * m;
      DivModUnique(a - b, m, qa - qb, 0);
    }
    if (a - b) % m == 0 {
      assert a == (q + qb) * m + b % m by { assert (q + qb) * m == q * m + qb * m; }
      DivModUnique(a, m, q + qb, b % m);
    }
  }

  // ---------- The steps ----------

  // A call of the result function, if there is a real one.
  function CallsOf(resultfn: nat, msgid: u16, err: int): seq<Call> {
    if resultfn > 1 then [Call(resultfn, msgid, err)] else []
  }

  // The same as it shows outside.
  function Telling(uid: nat, resultfn: nat, msgid: u16, err: int): seq<Event> {
    if resultfn > 1 then [Told(uid, Call(resultfn, msgid, err))] else []
  }

  function ErrorOf(status: Status): int
    requires !status.Queued?
  {
    match status
    case Acked => DONE
    case GaveUp(_) => TIMED_OUT
    case SendFailed(err) => err
  }

  // The result function is called and the message leaves the queue for good.
  function Close(p: Pending, r: Record, status: Status): Record
    requires !status.Queued?
  {
    r.(calls := r.calls + CallsOf(p.resultfn, p.msgid, ErrorOf(status)), status := status)
  }

  // The queue with kept in place of its entry at k.
  function Put(q: seq<Pending>, k: nat, kept: seq<Pending>): (r: seq<Pending>)
    requires k < |q|
    ensures |r| == |q| - 1 + |kept|
  {
    q[..k] + kept + q[k + 1..]
  }

  predicate At(s: State, k: nat) {
    k < |s.queue| && s.queue[k].uid < |s.records|
  }

  // What the library is given to send confirmably, and what the environment answers: the random first
  // timeout, the two clock readings, the result of sendto.
  datatype Sending = Sending(msgid: u16, dest: Addr, bytes: seq<byte>, resultfn: nat, t0: real, born: real, at: real, err: int)

  // send_con_msg: queued, sent once, and taken out again if that fails.
  function Arrive(s: State, m: Sending, issue: Option<nat>): State {
    var x := [Xmission(m.dest, m.bytes, m.at, m.err)];
    var sent := Sent(Some(|s.records|), x[0]);
    if m.err == DONE then
      s.(queue := s.queue + [Pending(|s.records|, m.msgid, 1, m.dest, MarkStart(Init(-1.0, m.t0), m.born), m.resultfn, m.bytes)],
         records := s.records + [Record(m.msgid, m.dest, m.bytes, m.resultfn, m.t0, m.born, issue, x, [], Queued)],
         now := m.at, log := s.log + [sent])
    else
      s.(records := s.records + [Record(m.msgid, m.dest, m.bytes, m.resultfn, m.t0, m.born, issue, x,
                                        CallsOf(m.resultfn, m.msgid, m.err), SendFailed(m.err))],
         now := m.at, log := s.log + [sent] + Telling(|s.records|, m.resultfn, m.msgid, m.err))
  }

  // What shows outside of one sending: one datagram, and for a confirmable message whose sending fails a call.
  function Posted(who: Option<nat>, m: Sending): seq<Event> {
    [Sent(who, Xmission(m.dest, m.bytes, m.at, m.err))] +
    if who.Some? && m.err != DONE then Telling(who.value, m.resultfn, m.msgid, m.err) else []
  }

  /**
   * Whatever sendto answers, one datagram goes out, with the bytes and to the destination given. If it answers 0 the
   * message is queued, behind the others; otherwise its result function, if there is one, is told the answer, and
   * the queue is as it was.
   */
  lemma ArrivePosts(s: State, m: Sending, issue: Option<nat>)
    ensures var t, u := Arrive(s, m, issue), |s.records|;
            && t.log == s.log + Posted(Some(u), m) && Posted(None, m) == [Sent(None, Xmission(m.dest, m.bytes, m.at, m.err))]
            && t.log == s.log + [Sent(Some(u), Xmission(m.dest, m.bytes, m.at, m.err))]
                        + (if m.err != 0 && m.resultfn > 1 then [Told(u, Call(m.resultfn, m.msgid, m.err))] else [])
            && |t.queue| == |s.queue| + (if m.err == 0 then 1 else 0) && s.queue <= t.queue
            && (m.err == 0 ==> t.queue[|s.queue|] == Pending(u, m.msgid, 1, m.dest, Timeout(-1.0, m.t0, m.born), m.resultfn, m.bytes))
  {
  }

  // send_con_msg in the steps the source has: a new entry, not yet sent, then the result of sending it.
  function Enqueued(s: State, m: Sending, issue: Option<nat>): State {
    s.(queue := s.queue + [Pending(|s.records|, m.msgid, 0, m.dest, MarkStart(Init(-1.0, m.t0), m.born), m.resultfn, m.bytes)],
       records := s.records + [Record(m.msgid, m.dest, m.bytes, m.resultfn, m.t0, m.born, issue,
                                      [Xmission(m.dest, m.bytes, m.at, m.err)], [], Queued)],
       now := m.at, log := s.log + [Sent(Some(|s.records|), Xmission(m.dest, m.bytes, m.at, m.err))])
  }

  lemma EnqueuedIsArrived(s: State, m: Sending, issue: Option<nat>)
    ensures var e, k := Enqueued(s, m, issue), |s.queue|;
            var p := e.queue[k];
            && At(e, k)
            && (m.err == DONE ==> Arrive(s, m, issue) == e.(queue := e.queue[k := p.(xmit := 1)]))
            && (m.err != DONE ==> Arrive(s, m, issue) == Depart(e, k, SendFailed(m.err)))
  {
    var e, k := Enqueued(s, m, issue), |s.queue|;
    assert e.queue[..k] + [] + e.queue[k + 1..] == s.queue;
    var p, r := e.queue[k], e.records[|s.records|];
    assert e.queue[k := p.(xmit := 1)] == s.queue + [p.(xmit := 1)];
    assert [] + CallsOf(m.resultfn, m.msgid, m.err) == CallsOf(m.resultfn, m.msgid, m.err);
    assert m.err != DONE ==>
             e.records[|s.records| := Close(p, r, SendFailed(m.err))] == s.records + [Close(p, r, SendFailed(m.err))];
  }

  // Position of the first entry with a message id, or the length of the queue.
  function Find(q: seq<Pending>, msgid: u16): (k: nat)
    ensures k <= |q| && (k < |q| ==> q[k].msgid == msgid)
    ensures forall i :: 0 <= i < k ==> q[i].msgid != msgid
  {
    if q == [] || q[0].msgid == msgid then 0
    else
      var k := Find(q[1..], msgid);
      assert forall i :: 0 < i < 1 + k ==> q[i] == q[1..][i - 1];
      1 + k
  }

  // The entry at k leaves the queue.
  function Depart(s: State, k: nat, status: Status): State
    requires At(s, k) && !status.Queued?
  {
    var p := s.queue[k];
    s.(queue := Put(s.queue, k, []), records := s.records[p.uid := Close(p, s.records[p.uid], status)],
       log := s.log + Telling(p.uid, p.resultfn, p.msgid, ErrorOf(status)))
  }

  // A message sent without confirmation: the library forgets it at once.
  function Plain(s: State, x: Xmission): State {
    s.(now := x.at, log := s.log + [Sent(None, x)])
  }

  // An acknowledgement takes the first entry it names out of the queue; one that names none is ignored.
  function Acknowledge(s: State, msgid: u16): State
    requires Wf(s)
  {
    var k := Find(s.queue, msgid);
    if k < |s.queue| then Depart(s, k, Acked) else s
  }

  predicate Names(q: seq<Pending>, msgid: u16) {
    exists i :: 0 <= i < |q| && q[i].msgid == msgid
  }

  // The entry at k is the first that carries the id.
  predicate IsFirst(q: seq<Pending>, k: nat, msgid: u16) {
    k < |q| && q[k].msgid == msgid && forall i :: 0 <= i < k ==> q[i].msgid != msgid
  }

  // What an acknowledgement has to do. One that names no entry changes nothing. One that does takes out the first entry
  // it names and no other; that message's result function, if it has one, is told 0, with the id, and no other history
  // changes.
  ghost predicate Acknowledged(s: State, msgid: u16, t: State) {
    && Wf(s)
    && (!Names(s.queue, msgid) ==> t == s)
    && forall k: nat :: IsFirst(s.queue, k, msgid) ==>
         var p := s.queue[k];
         && t.queue == s.queue[..k] + s.queue[k + 1..] && |t.records| == |s.records|
         && t.records[p.uid].status == Acked && t.records[p.uid].xmits == s.records[p.uid].xmits
         && (forall u :: 0 <= u < |s.records| && u != p.uid ==> t.records[u] == s.records[u])
         && t.log == s.log + if p.resultfn > 1 then [Told(p.uid, Call(p.resultfn, msgid, 0))] else []
  }

  /** The step does so. */
  lemma AcknowledgeExactly(s: State, msgid: u16)
    requires Wf(s)
    ensures Acknowledged(s, msgid, Acknowledge(s, msgid))
    ensures Names(s.queue, msgid) <==> Find(s.queue, msgid) < |s.queue|
  {
    hide Find;
    var f := Find(s.queue, msgid);
    if f < |s.queue| {
      assert s.queue[f].msgid == msgid && s.queue[..f] + [] == s.queue[..f];
    }
    assert f < |s.queue| <==> Names(s.queue, msgid);
    assert forall k: nat :: IsFirst(s.queue, k, msgid) ==> k == f;
  }

  // What the environment supplies at one entry of a sweep: the reading the timeout is tested against, the
  // one it is re-armed with, the one before sendto, and sendto's result.
  datatype Tick = Tick(check: real, mark: real, at: real, err: int)

  predicate Expired(p: Pending, t: Tick) {
    Get(p.timeout, t.check) == 0.0
  }

  // The timeout has run out by the reading it is tested against.
  predicate Due(p: Pending, t: Tick) {
    t.check >= p.timeout.start + p.timeout.total
  }

  // The timeout is a relative one, as all of the queue's are.
  predicate Relative(p: Pending) {
    p.timeout.block < 0.0 && 0.0 <= p.timeout.total
  }

  /** What the sweep takes for expired are the entries whose time has run out. */
  lemma ExpiredIsDue(p: Pending, t: Tick)
    requires Relative(p)
    ensures Expired(p, t) <==> Due(p, t)
  {
    ExpiredIff(p.timeout, t.check);
  }

  // The timeout is doubled and restarted before anything else is decided.
  function Rearm(p: Pending, t: Tick): Pending {
    p.(timeout := MarkStart(Init(-1.0, p.timeout.total * 2.0), t.mark))
  }

  // send_entry_buffer: nothing is sent at the cap; below it one more transmission is counted, whatever its result.
  function Armed(p: Pending, t: Tick): Pending {
    if p.xmit >= MAX_RETRANSMIT then Rearm(p, t) else Rearm(p, t).(xmit := p.xmit + 1)
  }

  function Logged(r: Record, xmit: nat, x: Xmission): Record {
    if xmit >= MAX_RETRANSMIT then r else r.(xmits := r.xmits + [x])
  }

  function Attempted(p: Pending, r: Record, t: Tick): Record {
    Logged(r, p.xmit, Xmission(p.dest, p.bytes, t.at, t.err))
  }

  function Verdict(p: Pending, t: Tick): Status {
    if p.xmit >= MAX_RETRANSMIT then GaveUp(t.mark) else SendFailed(t.err)
  }

  // What the sweep makes of an expired entry: the entry that stays, if any, and its record.
  function Resend(p: Pending, r: Record, t: Tick): (seq<Pending>, Record) {
    if p.xmit < MAX_RETRANSMIT && t.err == DONE then ([Armed(p, t)], Attempted(p, r, t))
    else ([], Close(p, Attempted(p, r, t), Verdict(p, t)))
  }

  function Visit(p: Pending, r: Record, t: Tick): (seq<Pending>, Record) {
    if Expired(p, t) then Resend(p, r, t) else ([p], r)
  }

  // What a retransmission sends, and what the whole visit shows outside.
  function Outgoing(p: Pending, t: Tick): seq<Event> {
    if p.xmit < MAX_RETRANSMIT then [Sent(Some(p.uid), Xmission(p.dest, p.bytes, t.at, t.err))] else []
  }

  function Events(p: Pending, t: Tick): seq<Event> {
    if !Expired(p, t) then []
    else
      Outgoing(p, t) + if p.xmit < MAX_RETRANSMIT && t.err == DONE then []
                       else Telling(p.uid, p.resultfn, p.msgid, ErrorOf(Verdict(p, t)))
  }

  // Where the cursor goes from k: on, or nowhere if the entry under it is gone.
  function NextAt(s: State, k: nat, t: Tick): nat
    requires At(s, k)
  {
    k + |Visit(s.queue[k], s.records[s.queue[k].uid], t).0|
  }

  function VisitAt(s: State, k: nat, t: Tick): State
    requires Wf(s) && k < |s.queue|
  {
    var p := s.queue[k];
    var (kept, r) := Visit(p, s.records[p.uid], t);
    s.(queue := Put(s.queue, k, kept), records := s.records[p.uid := r], now := t.at, log := s.log + Events(p, t))
  }

  // The sweep as the source walks it: a cursor that stays put when the entry under it is removed.
  datatype Cursor = Cursor(state: State, at: nat)

  ghost function SweepTo(s: State, ticks: seq<Tick>): (c: Cursor)
    requires Wf(s) && |ticks| <= |s.queue|
    ensures Wf(c.state) && c.at <= |c.state.queue| && |c.state.queue| - c.at == |s.queue| - |ticks|
    ensures |c.state.records| == |s.records|
  {
    if ticks == [] then Cursor(s, 0)
    else
      var c := SweepTo(s, ticks[..|ticks| - 1]);
      var t := ticks[|ticks| - 1];
      Cursor(VisitAt(c.state, c.at, t), NextAt(c.state, c.at, t))
  }

  ghost function Sweep(s: State, ticks: seq<Tick>): State
    requires Wf(s) && |ticks| == |s.queue|
  {
    SweepTo(s, ticks).state
  }

  // A visit in the two halves the source has: the attempt to send, and what becomes of the entry.
  function Retried(s: State, k: nat, t: Tick): State
    requires At(s, k)
  {
    var p := s.queue[k];
    s.(queue := s.queue[k := Armed(p, t)], records := s.records[p.uid := Attempted(p, s.records[p.uid], t)], now := t.at,
       log := s.log + Outgoing(p, t))
  }

  function Settled(s: State, k: nat, err: int, status: Status): State
    requires At(s, k) && (err != DONE ==> !status.Queued?)
  {
    if err == DONE then s else Depart(s, k, status)
  }

  lemma PutOverUpdate(q: seq<Pending>, k: nat, p: Pending)
    requires k < |q|
    ensures q[k := p] == Put(q, k, [p]) && Put(q[k := p], k, []) == Put(q, k, [])
  {
  }

  lemma UpdateTwice(records: seq<Record>, u: nat, a: Record, b: Record)
    requires u < |records|
    ensures records[u := a][u := b] == records[u := b]
  {
  }

  lemma HalvesMakeVisit(s: State, k: nat, t: Tick)
    requires Wf(s) && At(s, k) && Expired(s.queue[k], t) && (s.queue[k].xmit >= MAX_RETRANSMIT ==> t.err == TIMED_OUT)
    ensures At(Retried(s, k, t), k) && (t.err != DONE ==> ErrorOf(Verdict(s.queue[k], t)) == t.err)
    ensures VisitAt(s, k, t) == Settled(Retried(s, k, t), k, t.err, Verdict(s.queue[k], t))
    ensures NextAt(s, k, t) == if t.err == DONE then k + 1 else k
  {
    hide Expired, Put;
    var p := s.queue[k];
    var r := Attempted(p, s.records[p.uid], t);
    PutOverUpdate(s.queue, k, Armed(p, t));
    UpdateTwice(s.records, p.uid, r, Close(Armed(p, t), r, Verdict(p, t)));
    Regroup(s.log, Outgoing(p, t), Telling(p.uid, p.resultfn, p.msgid, t.err));
    assert Outgoing(p, t) + [] == Outgoing(p, t);
  }

  // ---------- The sweep is a filter-map ----------

  // What one entry becomes, on its own.
  function Survivor(p: Pending, t: Tick): seq<Pending> {
    if !Expired(p, t) then [p]
    else if p.xmit < MAX_RETRANSMIT && t.err == DONE then [Rearm(p, t).(xmit := p.xmit + 1)]
    else []
  }

  function Survivors(q: seq<Pending>, ticks: seq<Tick>): seq<Pending>
    requires |q| == |ticks|
  {
    if q == [] then [] else Survivor(q[0], ticks[0]) + Survivors(q[1..], ticks[1..])
  }

  lemma {:induction false} SurvivorsSnoc(q: seq<Pending>, ticks: seq<Tick>)
    requires |q| == |ticks| > 0
    ensures var n := |q| - 1; Survivors(q, ticks) == Survivors(q[..n], ticks[..n]) + Survivor(q[n], ticks[n])
    decreases |q|
  {
    var n := |q| - 1;
    if n > 0 {
      SurvivorsSnoc(q[1..], ticks[1..]);
      assert q[1..][..n - 1] == q[..n][1..] && ticks[1..][..n - 1] == ticks[..n][1..];
    }
  }

  lemma VisitSurvives(s: State, k: nat, t: Tick)
    requires Wf(s) && k < |s.queue|
    ensures var p := s.queue[k];
            && Visit(p, s.records[p.uid], t).0 == Survivor(p, t)
            && VisitAt(s, k, t).queue == s.queue[..k] + Survivor(p, t) + s.queue[k + 1..]
  {
    hide Expired, Rearm, Close;
  }

  // An entry whose timeout is running: nothing happens but the reading of the clock.
  lemma VisitIdle(s: State, k: nat, t: Tick)
    requires Wf(s) && k < |s.queue| && !Expired(s.queue[k], t)
    ensures At(s, k) && VisitAt(s, k, t) == s.(now := t.at) && NextAt(s, k, t) == k + 1
  {
    hide Expired;
    var p := s.queue[k];
    assert s.records[p.uid := s.records[p.uid]] == s.records;
    assert s.queue[..k] + [p] + s.queue[k + 1..] == s.queue;
    assert s.log + [] == s.log;
  }

  lemma Splice(q: seq<Pending>, before: seq<Pending>, orig: seq<Pending>, n: nat, kept: seq<Pending>)
    requires n < |orig| && q == before + orig[n..]
    ensures q[|before|] == orig[n]
    ensures q[..|before|] + kept + q[|before| + 1..] == before + kept + orig[n + 1..]
  {
    assert q[|before| + 1..] == orig[n + 1..] && q[..|before|] == before;
  }

  /** Up to the cursor the queue has been filter-mapped; from it on it is untouched. */
  lemma {:induction false} SweepIsFilterMapTo(s: State, ticks: seq<Tick>)
    requires Wf(s) && |ticks| <= |s.queue|
    ensures var c, m := SweepTo(s, ticks), |ticks|;
            && c.at == |Survivors(s.queue[..m], ticks)|
            && c.state.queue == Survivors(s.queue[..m], ticks) + s.queue[m..]
    decreases |ticks|
  {
    hide Visit, VisitAt, Survivor;
    if ticks != [] {
      var n := |ticks| - 1;
      SweepIsFilterMapTo(s, ticks[..n]);
      SurvivorsSnoc(s.queue[..n + 1], ticks);
      assert s.queue[..n + 1][..n] == s.queue[..n];
      hide Survivors;
      var c, before := SweepTo(s, ticks[..n]), Survivors(s.queue[..n], ticks[..n]);
      VisitSurvives(c.state, c.at, ticks[n]);
      Splice(c.state.queue, before, s.queue, n, Survivor(s.queue[n], ticks[n]));
    }
  }

  /** A whole sweep: every entry handled once, by itself, in order; nothing added, nothing reordered. */
  lemma SweepIsFilterMap(s: State, ticks: seq<Tick>)
    requires Wf(s) && |ticks| == |s.queue|
    ensures Sweep(s, ticks).queue == Survivors(s.queue, ticks)
  {
    hide SweepTo, Survivors;
    SweepIsFilterMapTo(s, ticks);
    assert s.queue[..|ticks|] == s.queue;
  }

  // What a sweep shows outside: what each visit does, in order.
  function AllEvents(q: seq<Pending>, ticks: seq<Tick>): seq<Event>
    requires |q| == |ticks|
  {
    if q == [] then [] else AllEvents(q[..|q| - 1], ticks[..|q| - 1]) + Events(q[|q| - 1], ticks[|q| - 1])
  }

  lemma {:induction false} SweepLogTo(s: State, ticks: seq<Tick>)
    requires Wf(s) && |ticks| <= |s.queue|
    ensures SweepTo(s, ticks).state.log == s.log + AllEvents(s.queue[..|ticks|], ticks)
    decreases |ticks|
  {
    hide Events, Visit, NextAt;
    if ticks == [] {
      assert s.log + [] == s.log;
    } else {
      var n := |ticks| - 1;
      SweepLogTo(s, ticks[..n]);
      SweepIsFilterMapTo(s, ticks[..n]);
      assert s.queue[..n + 1][..n] == s.queue[..n];
      Regroup(s.log, AllEvents(s.queue[..n], ticks[..n]), Events(s.queue[n], ticks[n]));
    }
  }

  /** A sweep sends and tells what the visits of its entries do, in queue order, and nothing else. */
  lemma SweepLog(s: State, ticks: seq<Tick>)
    requires Wf(s) && |ticks| == |s.queue|
    ensures Sweep(s, ticks).log == s.log + AllEvents(s.queue, ticks)
  {
    hide SweepTo, AllEvents;
    SweepLogTo(s, ticks);
    assert s.queue[..|ticks|] == s.queue;
  }
}
