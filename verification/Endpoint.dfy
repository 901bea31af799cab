/**
 * The UDP endpoint (mcoap/mc_endpt_udp.c). Each method is tied to one step of the engine: Abs() is what the
 * list, the entries and their private copies amount to, and Valid() ties it to them.
 */
module Endpoints {
  import opened Bytes
  import opened Timeouts
  import opened Buffers
  import opened OptionCodec
  import opened MessageCodec
  import opened ReadAsWritten
  import opened Messages
  import opened WireFormat
  import Header
  import opened Engine
  import opened EngineSafety
  import opened EngineRuns
  import opened Environments
  import opened BufferQueues

  // An entry of the list stands for an entry of the engine's queue; its message is in one of the arrays set
  // aside for copies.
  ghost predicate Shows(e: QueueEntry, p: Pending, copies: set<array<byte>>)
    reads e`uid, e`msgid, e`xmitcounter, e`dest, e`timeout, e`resultfn, e`msg, copies
  {
    && e.uid == p.uid && e.msgid == p.msgid && e.xmitcounter == p.xmit && e.dest == p.dest
    && e.timeout == p.timeout && e.resultfn == p.resultfn
    && e.msg != null && e.msg in copies && e.msg[..] == p.bytes
  }

  ghost predicate AllShow(es: seq<QueueEntry>, q: seq<Pending>, copies: set<array<byte>>)
    reads es`uid, es`msgid, es`xmitcounter, es`dest, es`timeout, es`resultfn, es`msg, copies
  {
    |es| == |q| && forall i :: 0 <= i < |es| ==> Shows(es[i], q[i], copies)
  }

  lemma ShownAfterChange(es: seq<QueueEntry>, q: seq<Pending>, copies: set<array<byte>>, k: nat, p: Pending)
    requires k < |es| == |q| && Shows(es[k], p, copies)
    requires forall i :: 0 <= i < |es| && i != k ==> Shows(es[i], q[i], copies)
    ensures AllShow(es, q[k := p], copies)
  {
    hide Shows;
  }

  lemma NewShows(e: QueueEntry, p: Pending, copies: set<array<byte>>, copy: array<byte>)
    requires e.uid == p.uid && e.msgid == p.msgid && e.xmitcounter == p.xmit && e.dest == p.dest
    requires e.timeout == p.timeout && e.resultfn == p.resultfn && e.msg == copy && copy[..] == p.bytes
    ensures Shows(e, p, copies + {copy})
  {
  }

  lemma ShownAfterAdd(es: seq<QueueEntry>, q: seq<Pending>, copies: set<array<byte>>, e: QueueEntry, p: Pending, copy: array<byte>)
    requires AllShow(es, q, copies) && Shows(e, p, copies + {copy})
    ensures AllShow(es + [e], q + [p], copies + {copy})
  {
    forall i | 0 <= i < |es| ensures Shows(es[i], q[i], copies + {copy}) {
      assert Shows(es[i], q[i], copies);
    }
  }

  lemma ShownAfterDrop(es: seq<QueueEntry>, q: seq<Pending>, copies: set<array<byte>>, k: nat)
    requires k < |es| == |q|
    requires forall i :: 0 <= i < |es| && i != k ==> Shows(es[i], q[i], copies)
    ensures AllShow(es[..k] + es[k + 1..], Put(q, k, []), copies)
  {
    hide Shows;
    var rest, left := es[..k] + es[k + 1..], Put(q, k, []);
    forall i | 0 <= i < |rest| ensures Shows(rest[i], left[i], copies) {
      var j := if i < k then i else i + 1;
      assert rest[i] == es[j] && left[i] == q[j];
    }
  }

  lemma BufferIsValid(b: Buffer, n: nat)
    requires b.Valid() && n <= b.nbytes
    ensures n <= b.bytes.Length && b.Contents()[0..0 + n] == b.bytes[..n]
  {
  }

  lemma StartOfPatched(s: seq<byte>, patch: seq<byte>)
    requires |patch| <= |s|
    ensures Patched(s, 0, patch)[..|patch|] == patch
  {
  }

  // mk_message: a request under an id, with a token made of the id and four random bytes.
  function Request(id: u16, resultfn: nat, code: byte, list: Option<seq<Opt>>, payload: Option<seq<byte>>, random: u32): Message {
    assert |Memory16(id)| == 2 && |Memory32(random)| == 4;
    MessageInit(Header.MESSAGE_VERSION, if resultfn != 0 then Header.CONFIRM else Header.NOCONFIRM, code, id,
                Memory16(id) + Memory32(random), list, payload)
  }

  function AckMessage(id: u16, token: seq<byte>): Message
    requires |token| < 0x1_0000_0000
  {
    MessageInit(1, Header.ACK, 0, id, token, None, None)
  }

  // What the library gives a request: version 1, confirmable if a result function asks for it, the method as its code,
  // the id, and a token of six bytes that starts with the id, little end first.
  predicate IsRequest(m: Message, id: u16, resultfn: nat, code: byte, random: u32) {
    && Header.GetVersion(m.header) == 1 && Header.GetMessageType(m.header) == (if resultfn != 0 then 0 else 1)
    && Header.GetTokenLength(m.header) == 6 && Header.GetCode(m.header) == code && Header.GetMessageId(m.header) == id
    && m.token == [id % 256, id / 256, random % 256, random / 256 % 256, random / 65536 % 256, random / 16777216]
  }

  // The first bytes of a request on the wire.
  function RequestHead(id: u16, resultfn: nat, code: byte, random: u32): seq<byte> {
    [if resultfn != 0 then 0x46 else 0x56, code, id / 256, id % 256] +
    [id % 256, id / 256, random % 256, random / 256 % 256, random / 65536 % 256, random / 16777216]
  }

  lemma RequestFields(id: u16, resultfn: nat, code: byte, list: Option<seq<Opt>>, payload: Option<seq<byte>>, random: u32)
    ensures var m := Request(id, resultfn, code, list, payload, random);
            && IsRequest(m, id, resultfn, code, random) && m.options == list && m.payload == payload
            && MessageId(m) == id && (IsConfirmable(m) <==> resultfn != 0) && !IsAck(m)
  {
    hide MessageInit, MessageId, IsAck, IsConfirmable, Header.GetVersion, Header.GetMessageType, Header.GetTokenLength, Header.GetCode;
    var token := Memory16(id) + Memory32(random);
    InitFields(Header.MESSAGE_VERSION, if resultfn != 0 then Header.CONFIRM else Header.NOCONFIRM, code, id, token, list, payload);
    IdIsField(Request(id, resultfn, code, list, payload, random));
  }

  lemma IdIsField(m: Message)
    ensures MessageId(m) == Header.GetMessageId(m.header)
  {
  }

  /** A request is printed as its ten first bytes, its options and its payload. */
  lemma RequestOnWire(id: u16, resultfn: nat, code: byte, list: Option<seq<Opt>>, payload: Option<seq<byte>>, random: u32)
    ensures EncodeMessage(Request(id, resultfn, code, list, payload, random))
         == RequestHead(id, resultfn, code, random) + EncodeOptions(0, if list.Some? then list.value else []) + PayloadBytes(payload)
  {
    hide MessageInit, EncodeMessage, EncodeOptions, PayloadBytes;
    var token := Memory16(id) + Memory32(random);
    PrintedInit(Header.MESSAGE_VERSION, if resultfn != 0 then Header.CONFIRM else Header.NOCONFIRM, code, id, token, list, payload);
  }

  // So is what goes out of it, unless it does not fit the write buffer.
  lemma RequestStarts(id: u16, resultfn: nat, code: byte, list: Option<seq<Opt>>, payload: Option<seq<byte>>, random: u32, room: nat)
    ensures var b := Datagram(Request(id, resultfn, code, list, payload, random), room);
            b == [] || RequestHead(id, resultfn, code, random) <= b
  {
    hide Request, EncodeMessage, EncodeOptions, PayloadBytes, RequestHead, MessageSize;
    RequestOnWire(id, resultfn, code, list, payload, random);
  }

  lemma AckFields(id: u16, token: seq<byte>)
    requires |token| < 0x1_0000_0000
    ensures var m := AckMessage(id, token);
            && Header.GetVersion(m.header) == 1 && Header.GetMessageType(m.header) == 2 && Header.GetCode(m.header) == 0
            && m.token == token && m.options == None && m.payload == None
            && MessageId(m) == id && IsAck(m) && !IsConfirmable(m)
  {
    hide MessageInit, MessageId, IsAck, IsConfirmable, Header.GetVersion, Header.GetMessageType, Header.GetTokenLength, Header.GetCode;
    InitFields(1, Header.ACK, 0, id, token, None, None);
  }

  lemma AckNeverOverruns(id: u16, token: seq<byte>, room: nat)
    requires |token| < 0x1_0000_0000
    ensures !Overruns(AckMessage(id, token), room)
  {
    AckFields(id, token);
    hide AckMessage, IsAck, IsConfirmable, MessageId, Header.GetVersion, Header.GetMessageType, Header.GetCode;
  }

  /** An acknowledgement is four bytes and its token. */
  lemma AckOnWire(id: u16, token: seq<byte>)
    requires |token| <= 15
    ensures EncodeMessage(AckMessage(id, token)) == [0x60 + |token|, 0, id / 256, id % 256] + token
  {
    hide MessageInit, EncodeMessage;
    PrintedInit(1, Header.ACK, 0, id, token, None, None);
  }

  lemma AckStarts(id: u16, token: seq<byte>, room: nat)
    requires |token| < 0x1_0000_0000
    ensures var b := Datagram(AckMessage(id, token), room);
            |token| <= 15 ==> b == [] || b == [0x60 + |token|, 0, id / 256, id % 256] + token
  {
    hide AckMessage, EncodeMessage, MessageSize;
    if |token| <= 15 {
      AckOnWire(id, token);
    }
  }

  /**
   * An acknowledgement with a token of at most 15 bytes is read by its receiver as one for the message it names: with
   * the code 0 of an empty message and the token given, and with nothing else in it.
   */
  lemma AckArrives(id: u16, token: seq<byte>)
    requires |token| <= 15
    ensures var b := EncodeMessage(AckMessage(id, token));
            && Accepted(b, 0)
            && forall r :: MayParse(b, 0, r) ==>
                 && r.Parsed? && r.pos == |b| && IsAck(r.msg) && MessageId(r.msg) == id
                 && Header.GetMessageType(r.msg.header) == 2 && Header.GetCode(r.msg.header) == 0
                 && r.msg.token == token && r.msg.options == None && r.msg.payload == None
  {
    hide ParseMessage, EncodeMessage, MayParse, Accepted, AckMessage;
    AckFields(id, token);
    AckComesBack(id, token);
    hide IsAck, IsConfirmable, MessageId, Header.GetVersion, Header.GetMessageType, Header.GetCode;
    var b := EncodeMessage(AckMessage(id, token));
    StableMayParse(b, 0);
    MayParseIff(b, 0, ParseMessage(b, 0));
  }

  lemma AckComesBack(id: u16, token: seq<byte>)
    requires |token| <= 15
    ensures var m := AckMessage(id, token);
            && ParseMessage(EncodeMessage(m), 0) == Parsed(m, |EncodeMessage(m)|)
            && forall r :: MayParse(EncodeMessage(m), 0, r) ==> r == Parsed(m, |EncodeMessage(m)|)
  {
    hide ParseMessage, EncodeMessage, MayParse;
    BuiltMessageRoundTrip(1, Header.ACK, 0, id, token, None, None);
  }

  // A datagram goes into the read buffer and is parsed there; afterwards the buffer has its full size again.
  method ParseDatagram(data: seq<byte>, buffer: Buffer) returns (msg: Option<Message>)
    requires buffer.Valid() && |data| <= buffer.nbytes
    modifies buffer`nbytes, buffer.bytes
    ensures buffer.Valid() && buffer.nbytes == old(buffer.nbytes)
    ensures msg.Some? <==> Accepted(data, 0)
    ensures msg.Some? ==> exists pos :: MayParse(data, 0, Parsed(msg.value, pos))
    ensures msg.Some? ==> AckIn(data) == if IsAck(msg.value) then Some(MessageId(msg.value)) else None
  {
    hide ParseWire, ParseWireWith, Accepted, AckIn, IsAck, MessageId;
    AcceptedIff(data, 0);
    var rdsize := buffer.nbytes;
    Memcpy(buffer.bytes, 0, data);
    buffer.nbytes := |data|;
    assert buffer.Contents() == data;
    msg := None;
    if ParseWire(data, 0) != Parse.OutOfBounds {
      MeantParse(data, 0);
      var r := MessageFromBuffer(buffer, 0, Intended, Intended);
      if r.Parsed? {
        msg := Some(r.msg);
        assert MayParse(data, 0, Parsed(msg.value, r.pos));
        AckShows(data, Parsed(msg.value, r.pos));
      }
    }
    buffer.nbytes := rdsize;
  }

  class Endpoint {
    const env: Environment
    const confirmq: BufferQueue
    const wrbuffer: Buffer
    const rdbuffer: Buffer
    var nextid: u16

    // The engine's state: the queue's abstract value, what has become of every message so far, how many ids
    // were issued, and the last clock reading.
    ghost var queue: seq<Pending>
    ghost var records: seq<Record>
    ghost var firstid: u16
    ghost var issued: nat
    ghost var now: real
    // The private arrays of the queue's entries.
    ghost var copies: set<array<byte>>

    // The heap is in order: the list is well formed and stands for the queue, and the entries' copies are
    // apart from the endpoint's two buffers.
    ghost predicate Sound()
      reads this`queue, this`copies, copies, confirmq, confirmq.entries, wrbuffer, rdbuffer
    {
      && confirmq.Valid() && AllShow(confirmq.entries, queue, copies)
      && wrbuffer.Valid() && rdbuffer.Valid() && wrbuffer != rdbuffer && wrbuffer.bytes != rdbuffer.bytes
      && wrbuffer.bytes !in copies && rdbuffer.bytes !in copies
    }

    lemma SoundParts()
      requires Sound()
      ensures confirmq.Valid() && AllShow(confirmq.entries, queue, copies) && |queue| == |confirmq.entries|
      ensures wrbuffer.Valid() && rdbuffer.Valid() && wrbuffer != rdbuffer && wrbuffer.bytes != rdbuffer.bytes
      ensures wrbuffer.bytes !in copies && rdbuffer.bytes !in copies
    {
    }

    lemma SoundFrom()
      requires confirmq.Valid() && AllShow(confirmq.entries, queue, copies)
      requires wrbuffer.Valid() && rdbuffer.Valid() && wrbuffer != rdbuffer && wrbuffer.bytes != rdbuffer.bytes
      requires wrbuffer.bytes !in copies && rdbuffer.bytes !in copies
      ensures Sound()
    {
    }

    // The state of the engine, with the log of what has really gone out.
    ghost function Abs(): State
      reads this, env`log
    {
      State(queue, records, firstid, issued, nextid, now, env.log)
    }

    ghost predicate Valid()
      reads this, env, copies, confirmq, confirmq.entries, wrbuffer, rdbuffer
    {
      Sound() && now <= env.now && Inv(Abs())
    }

    // mc_endpt_udp_init, once the socket is there: id 0 is never used.
    constructor (rdsize: nat, wrsize: nat, randomId: u16)
      ensures Valid() && fresh(confirmq) && fresh(wrbuffer) && fresh(rdbuffer) && fresh(env)
      ensures Abs() == Initial(if randomId == 0 then 1 else randomId, env.now) && env.received == []
      ensures wrbuffer.nbytes == wrsize && rdbuffer.nbytes == rdsize
      ensures fresh(wrbuffer.bytes) && fresh(rdbuffer.bytes) && confirmq.entries == []
    {
      var outside := new Environment();
      env := outside;
      nextid := if randomId == 0 then 1 else randomId;
      var rd, wr := new byte[rdsize], new byte[wrsize];
      rdbuffer := new Buffer(rdsize, rd);
      wrbuffer := new Buffer(wrsize, wr);
      confirmq := new BufferQueue();
      queue, records, firstid, issued, now, copies := [], [], nextid, 0, outside.now, {};
      new;
      InitialIsSafe(Abs());
    }

    // mc_endpt_udp_nextid.
    method NextId() returns (result: u16)
      requires Valid()
      modifies this`nextid, this`issued
      ensures Valid() && result == old(nextid) != 0 && Abs() == TakeId(old(Abs()))
      ensures FitIssue(Abs(), result, Some(issued - 1)) && issued == old(issued) + 1
    {
      hide Sound;
      TakeIdKeeps(Abs());
      IdsDistinct(firstid, issued, issued);
      result := nextid;
      nextid := (nextid + 1) % 0x1_0000;
      if nextid == 0 {
        nextid := 1;
      }
      issued := issued + 1;
    }

    // call_result_fn: 0 and 1 are not functions. The call is an event of the history of message uid, which
    // is leaving the queue for the reason status.
    method CallResultFn(resultfn: nat, msgid: u16, err: int, ghost uid: nat, ghost status: Status)
      requires uid < |records| && !status.Queued? && ErrorOf(status) == err
      modifies this`records, env`log
      ensures records == var r := old(records)[uid];
                         old(records)[uid := r.(calls := r.calls + CallsOf(resultfn, msgid, err), status := status)]
      ensures env.log == old(env.log) + Telling(uid, resultfn, msgid, err)
    {
      if resultfn > 1 {
        env.Call(resultfn, msgid, err, uid);
      } else {
        assert env.log + [] == env.log;
      }
      ghost var r := records[uid];
      records := records[uid := r.(calls := r.calls + CallsOf(resultfn, msgid, err), status := status)];
    }

    // The entry at k is taken out and freed; what the others hold is untouched.
    method DropEntry(current: QueueEntry, ghost k: nat) returns (next: QueueEntry?)
      requires Sound() && k < |confirmq.entries| && confirmq.entries[k] == current
      modifies this`queue, confirmq, confirmq.entries
      ensures Sound() && confirmq.entries == old(confirmq.entries)[..k] + old(confirmq.entries)[k + 1..]
      ensures queue == Put(old(queue), k, [])
      ensures next == confirmq.EntryAt(k)
    {
      hide Shows;
      ghost var es := confirmq.entries;
      assert forall i :: 0 <= i < |es| && i != k ==> es[i] != current;
      next := confirmq.RemoveEntry(current, k);
      hide BufferQueue.Valid;
      ShownAfterDrop(es, queue, copies, k);
      hide AllShow;
      queue := Put(queue, k, []);
    }

    // send_entry_buffer: gives up at the cap, and otherwise sends the entry's own copy once more.
    method SendEntryBuffer(entry: QueueEntry, ghost p: Pending) returns (err: int, ghost at: real)
      requires Shows(entry, p, copies) && p.uid < |records|
      modifies this`records, env`now, env`log, entry`xmitcounter
      ensures at == env.now >= old(env.now) && (p.xmit >= MAX_RETRANSMIT ==> err == TIMED_OUT)
      ensures entry.xmitcounter == if p.xmit >= MAX_RETRANSMIT then p.xmit else p.xmit + 1
      ensures records == old(records)[p.uid := Logged(old(records)[p.uid], p.xmit, Xmission(p.dest, p.bytes, at, err))]
      ensures env.log == old(env.log) + if p.xmit >= MAX_RETRANSMIT then [] else [Sent(Some(p.uid), Xmission(p.dest, p.bytes, at, err))]
    {
      if entry.xmitcounter >= MAX_RETRANSMIT {
        err, at := TIMED_OUT, env.now;
        assert records[p.uid := records[p.uid]] == records;
        assert env.log + [] == env.log;
      } else {
        var start := env.GetTime();
        ghost var x;
        err, x := env.SendTo(entry.msg[..], entry.dest, Some(entry.uid));
        at := start;
        records := records[p.uid := records[p.uid].(xmits := records[p.uid].xmits + [x])];
        entry.xmitcounter := entry.xmitcounter + 1;
      }
    }

    // An expired entry: the timeout is doubled and restarted, and below the cap the entry is sent once more.
    method RearmAndSend(entry: QueueEntry, ghost p: Pending, ghost check: real) returns (err: int, ghost t: Tick)
      requires Shows(entry, p, copies) && p.uid < |records| && check <= env.now
      modifies this`records, this`now, env`now, env`log, entry`timeout, entry`xmitcounter
      ensures t.check == check && check <= t.mark <= t.at == now == env.now && t.err == err
      ensures Shows(entry, Armed(p, t), copies) && (p.xmit >= MAX_RETRANSMIT ==> err == TIMED_OUT)
      ensures records == old(records)[p.uid := Attempted(p, old(records)[p.uid], t)]
      ensures env.log == old(env.log) + Outgoing(p, t)
    {
      entry.timeout := Init(-1.0, entry.timeout.total * 2.0);
      var mark := env.GetTime();
      entry.timeout := MarkStart(entry.timeout, mark);
      ghost var at;
      err, at := SendEntryBuffer(entry, p.(timeout := entry.timeout));
      t := Tick(check, mark, at, err);
      now := at;
    }

    // The same, seen from the queue.
    method Retransmit(current: QueueEntry, ghost k: nat, ghost check: real) returns (err: int, ghost t: Tick)
      requires Sound() && At(Abs(), k) && confirmq.EntryAt(k) == current && check <= env.now
      modifies this`records, this`now, this`queue, env`now, env`log, current`timeout, current`xmitcounter
      ensures Sound() && t.check == check && check <= t.mark <= t.at == env.now && t.err == err
      ensures Abs() == Retried(old(Abs()), k, t)
      ensures old(queue[k]).xmit >= MAX_RETRANSMIT ==> err == TIMED_OUT
    {
      hide Shows, Armed, Attempted, Outgoing;
      ghost var es := confirmq.entries;
      assert forall i :: 0 <= i < |es| && i != k ==> es[i] != current;
      hide BufferQueue.Valid;
      err, t := RearmAndSend(current, queue[k], check);
      ShownAfterChange(es, queue, copies, k, Armed(queue[k], t));
      hide AllShow;
      queue := queue[k := Armed(queue[k], t)];
    }

    // The result function is told, then the entry is dropped.
    method Conclude(current: QueueEntry, err: int, ghost k: nat, ghost status: Status) returns (next: QueueEntry?)
      requires Sound() && At(Abs(), k) && confirmq.EntryAt(k) == current && !status.Queued? && ErrorOf(status) == err
      modifies this`records, this`queue, env`log, confirmq, confirmq.entries
      ensures Sound() && Abs() == Depart(old(Abs()), k, status)
      ensures confirmq.entries == old(confirmq.entries)[..k] + old(confirmq.entries)[k + 1..] && next == confirmq.EntryAt(k)
    {
      assert current.uid == queue[k].uid && current.resultfn == queue[k].resultfn && current.msgid == queue[k].msgid;
      hide Sound;
      CallResultFn(current.resultfn, current.msgid, err, current.uid, status);
      next := DropEntry(current, k);
    }

    // What the sweep makes of the result: an entry that could not be sent is reported, then dropped; any
    // other stays. Answers the entry to go on with.
    method Settle(current: QueueEntry, err: int, ghost k: nat, ghost status: Status) returns (next: QueueEntry?)
      requires Sound() && At(Abs(), k) && confirmq.EntryAt(k) == current
      requires err != DONE ==> !status.Queued? && ErrorOf(status) == err
      modifies this`records, this`queue, env`log, confirmq, confirmq.Nodes()
      ensures Sound() && Abs() == Settled(old(Abs()), k, err, status)
      ensures next == confirmq.EntryAt(if err == DONE then k + 1 else k)
      ensures confirmq.Nodes() <= old(confirmq.Nodes())
    {
      if err != DONE {
        hide Sound, Depart;
        next := Conclude(current, err, k, status);
      } else {
        next := current.next;
      }
    }

    // The expired branch of the loop.
    method HandleExpired(current: QueueEntry, ghost k: nat, ghost check: real) returns (next: QueueEntry?, ghost t: Tick)
      requires Sound() && Wf(Abs()) && At(Abs(), k) && confirmq.EntryAt(k) == current && check <= env.now
      requires Timeouts.Get(queue[k].timeout, check) == 0.0
      modifies this`records, this`now, this`queue, env`now, env`log, confirmq, confirmq.Nodes()
      ensures Sound() && t.check == check && check <= t.mark <= t.at == env.now
      ensures Abs() == VisitAt(old(Abs()), k, t)
      ensures next == confirmq.EntryAt(NextAt(old(Abs()), k, t))
      ensures confirmq.Nodes() <= old(confirmq.Nodes())
    {
      ghost var s := Abs();
      hide Sound, Retried, Settled, NextAt, VisitAt, Wf, Armed;
      var err;
      err, t := Retransmit(current, k, check);
      HalvesMakeVisit(s, k, t);
      next := Settle(current, err, k, Verdict(s.queue[k], t));
    }

    lemma EntryFacts(current: QueueEntry, k: nat)
      requires Sound() && Wf(Abs()) && confirmq.EntryAt(k) == current
      ensures At(Abs(), k) && current.timeout == queue[k].timeout && current.next == confirmq.EntryAt(k + 1)
    {
    }

    // One turn of the loop, at position k; answers the entry to go on with.
    method VisitEntry(current: QueueEntry, ghost k: nat) returns (next: QueueEntry?, ghost t: Tick)
      requires Sound() && Wf(Abs()) && now <= env.now && confirmq.EntryAt(k) == current
      modifies this`records, this`now, this`queue, env`now, env`log, confirmq, confirmq.Nodes()
      ensures Sound() && LegalTick(old(now), t) && t.at == env.now && At(old(Abs()), k)
      ensures Abs() == VisitAt(old(Abs()), k, t)
      ensures next == confirmq.EntryAt(NextAt(old(Abs()), k, t))
      ensures confirmq.Nodes() <= old(confirmq.Nodes())
      ensures Relative(old(queue)[k]) ==> AttendedAt(old(Abs()), k, t, Abs())
    {
      hide Sound, Wf, VisitAt, NextAt, BufferQueue.EntryAt, Relative, AttendedAt;
      ghost var s := Abs();
      EntryFacts(current, k);
      var check := env.GetTime();
      if Timeouts.Get(current.timeout, check) == 0.0 {
        next, t := HandleExpired(current, k, check);
      } else {
        t := Tick(check, check, check, DONE);
        next := current.next;
        now := check;
        VisitIdle(s, k, t);
      }
      if Relative(s.queue[k]) {
        VisitAttendsAt(s, k, t);
      }
    }

    /**
     * mc_endpt_udp_check_queues: walks the list once, unlinking entries under its own feet. It does to the
     * queue and to the histories what the sweep does, for readings of the clock taken on the way: every entry whose
     * time has run out by its reading is sent once more or leaves, and no other is touched.
     */
    method CheckQueues() returns (ghost ticks: seq<Tick>)
      requires Valid()
      modifies this`records, this`now, this`queue, env`now, env`log, confirmq, confirmq.Nodes()
      ensures Valid() && |ticks| == |old(queue)| && LegalTicks(old(now), ticks)
      ensures env.log == old(env.log) + AllEvents(old(queue), ticks)
      ensures Abs() == Sweep(old(Abs()), ticks) && confirmq.Nodes() <= old(confirmq.Nodes())
      ensures AllAttended(old(Abs()), ticks, Abs())
    {
      hide Sound, Inv, NextAt, VisitAt, Wf, SweepTo, LegalTicks, Sweeping, BufferQueue.EntryAt;
      ghost var s, at := Abs(), 0;
      ticks := [];
      SweepStarts(s);
      SoundEnds();
      var current := confirmq.first;
      while current != null
        invariant Sound() && now <= env.now && Sweeping(s, ticks, Abs(), at)
        invariant current == confirmq.EntryAt(at) && confirmq.Nodes() <= old(confirmq.Nodes())
        decreases |s.queue| - |ticks|
      {
        SweepFacts(s, ticks, Abs(), at);
        SoundPlace(at);
        ghost var before := Abs();
        ghost var t;
        current, t := VisitEntry(current, at);
        SweepGoesOn(s, ticks, before, at, t);
        ticks, at := ticks + [t], NextAt(before, at, t);
      }
      SweepFacts(s, ticks, Abs(), at);
      SoundPlace(at);
      WfFromInv(s);
      SweepLog(s, ticks);
      hide AllAttended, Sweep;
      SweepAttends(s, ticks);
    }

    lemma SoundEnds()
      requires Sound()
      ensures confirmq.first == confirmq.EntryAt(0)
    {
    }

    lemma SoundPlace(at: nat)
      requires Sound() && at <= |queue|
      ensures confirmq.EntryAt(at) == null <==> at == |queue|
    {
    }

    // ---------- Sending ----------

    // send_endpt_buffer: whatever the write buffer holds goes out.
    method SendEndptBuffer(nbytes: nat, toaddr: Addr, ghost who: Option<nat>) returns (err: int, ghost x: Xmission)
      requires wrbuffer.Valid() && nbytes <= wrbuffer.nbytes
      modifies env`now, env`log
      ensures x == Xmission(toaddr, wrbuffer.bytes[..nbytes], env.now, err) && env.now >= old(env.now)
      ensures env.log == old(env.log) + [Sent(who, x)]
    {
      var start := env.GetTime();
      err, x := env.SendTo(wrbuffer.bytes[..nbytes], toaddr, who);
    }

    // The first half of send_con_msg: a private copy of the write buffer, queued under a new uid.
    method Enqueue(nbytes: nat, toaddr: Addr, msgid: u16, resultfn: nat) returns (entry: QueueEntry, ghost p: Pending, ghost t0: real)
      requires Sound() && nbytes <= wrbuffer.nbytes
      modifies this`queue, this`copies, env`now, env`drawn, confirmq, confirmq.entries`next
      ensures Sound() && env.drawn == old(env.drawn) + [t0 - 2.0]
      ensures queue == old(queue) + [p] && confirmq.EntryAt(|old(queue)|) == entry
      ensures p == Pending(|records|, msgid, 0, toaddr, MarkStart(Init(-1.0, t0), env.now), resultfn, wrbuffer.bytes[..nbytes])
      ensures ACK_TIMEOUT <= t0 <= ACK_TIMEOUT * ACK_RANDOM_FACTOR && old(env.now) <= env.now
      ensures fresh(entry) && confirmq.entries == old(confirmq.entries) + [entry]
    {
      hide Sound, Shows, AllShow, BufferQueue.Valid;
      SoundParts();
      ghost var es, q, kept := confirmq.entries, queue, copies;
      BufferIsValid(wrbuffer, nbytes);
      var copy := wrbuffer.Copy(0, nbytes);
      ghost var born;
      entry, t0, born := confirmq.Add(msgid, toaddr, copy, resultfn, env, |records|);
      p := Pending(|records|, msgid, 0, toaddr, MarkStart(Init(-1.0, t0), born), resultfn, wrbuffer.bytes[..nbytes]);
      NewShows(entry, p, kept, copy);
      ShownAfterAdd(es, q, kept, entry, p, copy);
      copies := kept + {copy};
      queue := q + [p];
      SoundFrom();
    }

    // The entry at k is counted as sent once.
    method MarkSent(entry: QueueEntry, ghost k: nat)
      requires Sound() && k < |queue| && confirmq.EntryAt(k) == entry && queue[k].xmit == 0
      modifies this`queue, entry`xmitcounter
      ensures Sound() && queue == old(queue)[k := old(queue)[k].(xmit := 1)]
    {
      ghost var es := confirmq.entries;
      assert forall i :: 0 <= i < |es| && i != k ==> es[i] != entry;
      entry.xmitcounter := entry.xmitcounter + 1;
      ShownAfterChange(es, queue, copies, k, queue[k].(xmit := 1));
      queue := queue[k := queue[k].(xmit := 1)];
    }

    // The first half of send_con_msg with its sendto: a queued entry that has been sent, but is not counted so yet.
    method EnqueueAndSend(nbytes: nat, toaddr: Addr, msgid: u16, resultfn: nat, ghost issue: Option<nat>)
      returns (entry: QueueEntry, err: int, ghost m: Sending)
      requires Sound() && now <= env.now && nbytes <= wrbuffer.nbytes
      modifies this`records, this`now, this`queue, this`copies, env`now, env`log, env`drawn, confirmq, confirmq.entries`next
      ensures Sound() && LegalSending(old(now), m) && m.err == err && m.at == env.now
      ensures m.msgid == msgid && m.dest == toaddr && m.bytes == wrbuffer.bytes[..nbytes] && m.resultfn == resultfn
      ensures Abs() == Enqueued(old(Abs()), m, issue) && confirmq.EntryAt(|old(queue)|) == entry
      ensures fresh(entry) && confirmq.entries == old(confirmq.entries) + [entry]
    {
      hide Sound, BufferQueue.EntryAt, LegalSending;
      SoundParts();
      ghost var p, t0;
      entry, p, t0 := Enqueue(nbytes, toaddr, msgid, resultfn);
      SoundParts();
      err, m := SendFirst(nbytes, toaddr, msgid, resultfn, t0, issue);
    }

    // The first transmission of a message that has just been queued, under the next uid.
    method SendFirst(nbytes: nat, toaddr: Addr, msgid: u16, resultfn: nat, ghost t0: real, ghost issue: Option<nat>)
      returns (err: int, ghost m: Sending)
      requires wrbuffer.Valid() && nbytes <= wrbuffer.nbytes && now <= env.now
      requires ACK_TIMEOUT <= t0 <= ACK_TIMEOUT * ACK_RANDOM_FACTOR
      modifies this`records, this`now, env`now, env`log
      ensures m == Sending(msgid, toaddr, wrbuffer.bytes[..nbytes], resultfn, t0, old(env.now), env.now, err)
      ensures LegalSending(old(now), m) && now == m.at
      ensures var x := Xmission(m.dest, m.bytes, m.at, m.err);
              && records == old(records) + [Record(msgid, toaddr, m.bytes, resultfn, t0, m.born, issue, [x], [], Queued)]
              && env.log == old(env.log) + [Sent(Some(|old(records)|), x)]
    {
      ghost var born := env.now;
      ghost var x;
      err, x := SendEndptBuffer(nbytes, toaddr, Some(|records|));
      m := Sending(msgid, toaddr, x.bytes, resultfn, t0, born, x.at, err);
      records := records + [Record(msgid, toaddr, x.bytes, resultfn, t0, born, issue, [x], [], Queued)];
      now := x.at;
    }

    /**
     * send_con_msg: queued and sent once; if the sending fails the result function is told and the entry is
     * taken out again. It is the step Arrive, for a message of what the write buffer holds.
     */
    method SendConMsg(nbytes: nat, toaddr: Addr, msgid: u16, resultfn: nat, ghost issue: Option<nat>) returns (err: int, ghost m: Sending)
      requires Valid() && nbytes <= wrbuffer.nbytes && FitIssue(Abs(), msgid, issue)
      modifies this`records, this`now, this`queue, this`copies, env`now, env`log, env`drawn, confirmq, confirmq.Nodes()
      ensures Valid() && LegalSending(old(now), m) && m.err == err
      ensures m.msgid == msgid && m.dest == toaddr && m.bytes == old(wrbuffer.bytes[..nbytes]) && m.resultfn == resultfn
      ensures Abs() == Arrive(old(Abs()), m, issue) && env.log == old(env.log) + Posted(Some(|old(records)|), m)
      ensures fresh(confirmq.Nodes() - old(confirmq.Nodes()))
    {
      hide Sound, Inv, Arrive, FitIssue, BufferQueue.EntryAt;
      ghost var s, k := Abs(), |queue|;
      var entry;
      entry, err, m := EnqueueAndSend(nbytes, toaddr, msgid, resultfn, issue);
      ArriveKeeps(s, m, issue);
      ArrivePosts(s, m, issue);
      EnqueuedIsArrived(s, m, issue);
      if err == DONE {
        MarkSent(entry, k);
      } else {
        var _ := Conclude(entry, err, k, SendFailed(err));
      }
    }

    // The message goes into the write buffer, which no queued entry shares.
    method PrintMessage(msg: Message) returns (nbytes: nat)
      requires Sound() && !Overruns(msg, wrbuffer.nbytes)
      modifies wrbuffer.bytes
      ensures Sound() && nbytes <= wrbuffer.nbytes && wrbuffer.bytes[..nbytes] == Datagram(msg, wrbuffer.nbytes)
    {
      hide Sound, EncodeMessage, MessageSize, Overruns, Patched;
      SoundParts();
      ghost var was := wrbuffer.bytes[..];
      nbytes := MessageToBuffer(msg, wrbuffer);
      StartOfPatched(was, Datagram(msg, wrbuffer.nbytes));
      SoundFrom();
    }

    /**
     * mc_endpt_udp_send: printed into the write buffer and sent from there; a confirmable message is queued as
     * well. One that does not fit the write buffer goes out as an empty datagram.
     */
    method Send(toaddr: Addr, msg: Message, resultfn: nat, ghost issue: Option<nat>) returns (err: int, ghost m: Sending)
      requires Valid() && !Overruns(msg, wrbuffer.nbytes) && FitIssue(Abs(), MessageId(msg), issue)
      modifies this`records, this`now, this`queue, this`copies, env`now, env`log, env`drawn, wrbuffer.bytes, confirmq, confirmq.Nodes()
      ensures Valid() && m.err == err && m.msgid == MessageId(msg) && m.dest == toaddr && m.resultfn == resultfn
      ensures m.bytes == Datagram(msg, wrbuffer.nbytes)
      ensures env.log == old(env.log) + Posted(if IsConfirmable(msg) then Some(|old(records)|) else None, m)
      ensures IsConfirmable(msg) ==> LegalSending(old(now), m) && Abs() == Arrive(old(Abs()), m, issue)
      ensures !IsConfirmable(msg) ==> old(now) <= m.at && Abs() == Plain(old(Abs()), Xmission(m.dest, m.bytes, m.at, m.err))
      ensures fresh(confirmq.Nodes() - old(confirmq.Nodes()))
    {
      hide Sound, Inv, Arrive, FitIssue, Overruns, Datagram, IsConfirmable;
      ghost var s := Abs();
      var nbytes := PrintMessage(msg);
      if IsConfirmable(msg) {
        err, m := SendConMsg(nbytes, toaddr, MessageId(msg), resultfn, issue);
      } else {
        SoundParts();
        ghost var x;
        err, x := SendEndptBuffer(nbytes, toaddr, None);
        now := x.at;
        PlainKeeps(s, x);
        assert Posted(None, Sending(MessageId(msg), toaddr, x.bytes, resultfn, 0.0, 0.0, x.at, err)) == [Sent(None, x)];
        m := Sending(MessageId(msg), toaddr, x.bytes, resultfn, 0.0, 0.0, x.at, err);
      }
    }

    // What the queue says of the entry that Get has found.
    lemma FoundFacts(entry: QueueEntry?, k: nat, msgid: u16)
      requires Sound() && Wf(Abs()) && k <= |confirmq.entries| && entry == confirmq.EntryAt(k)
      requires entry != null ==> entry.msgid == msgid
      requires forall j :: 0 <= j < k ==> confirmq.entries[j].msgid != msgid
      ensures k == Find(queue, msgid) && (entry == null <==> k == |queue|)
      ensures entry != null ==> At(Abs(), k)
    {
      assert forall j :: 0 <= j < |queue| ==> queue[j].msgid == confirmq.entries[j].msgid;
    }

    // The entry an acknowledgement names is reported and dropped; if it names none, nothing happens, where the
    // source follows a null.
    method Confirm(msgid: u16) returns (found: bool)
      requires Valid()
      modifies this`records, this`queue, env`log, confirmq, confirmq.Nodes()
      ensures Valid() && confirmq.Nodes() <= old(confirmq.Nodes()) && Abs() == Acknowledge(old(Abs()), msgid)
      ensures Acknowledged(old(Abs()), msgid, Abs()) && (found <==> Names(old(queue), msgid))
    {
      hide Inv, Sound, Depart, Find, Wf, Acknowledged, Names;
      WfFromInv(Abs());
      AcknowledgeExactly(Abs(), msgid);
      AcknowledgeKeeps(Abs(), msgid);
      SoundParts();
      var entry, k := confirmq.Get(msgid);
      FoundFacts(entry, k, msgid);
      found := entry != null;
      if entry != null {
        var _ := Conclude(entry, DONE, k, Acked);
      }
    }

    // The last part of mc_endpt_udp_recv.
    method Dispatch(msg: Message)
      requires Valid()
      modifies this`records, this`queue, env`log, confirmq, confirmq.Nodes()
      ensures Valid() && confirmq.Nodes() <= old(confirmq.Nodes())
      ensures Abs() == if IsAck(msg) then Acknowledge(old(Abs()), MessageId(msg)) else old(Abs())
    {
      hide Inv, Sound, Acknowledge;
      if IsAck(msg) {
        var _ := Confirm(MessageId(msg));
      }
    }

    /**
     * mc_endpt_udp_recv. A datagram that does not parse, or whose token runs past its end, is dropped; an
     * acknowledgement is the step Ack.
     */
    method Recv() returns (msg: Option<Message>, ghost err: int, ghost datagram: seq<byte>)
      requires Valid()
      modifies this`records, this`queue, env`log, env`received, rdbuffer`nbytes, rdbuffer.bytes, confirmq, confirmq.Nodes()
      ensures Valid() && rdbuffer.nbytes == old(rdbuffer.nbytes) && confirmq.Nodes() <= old(confirmq.Nodes())
      ensures env.received == old(env.received) + [Reception(err, datagram)]
      ensures |datagram| <= rdbuffer.nbytes && (msg.Some? <==> err == 0 && Accepted(datagram, 0))
      ensures msg.Some? ==> exists pos :: MayParse(datagram, 0, Parsed(msg.value, pos))
      ensures msg.Some? ==> AckIn(datagram) == if IsAck(msg.value) then Some(MessageId(msg.value)) else None
      ensures Abs() == if msg.Some? && IsAck(msg.value) then Acknowledge(old(Abs()), MessageId(msg.value)) else old(Abs())
    {
      hide Inv, Sound, Acknowledge, Accepted, MayParse, AckIn, IsAck, MessageId;
      SoundParts();
      var result, data := env.RecvFrom(rdbuffer.nbytes);
      msg, err, datagram := None, result, data;
      if result == DONE {
        msg := ParseDatagram(data, rdbuffer);
        SoundFrom();
      }
      if msg.Some? {
        Dispatch(msg.value);
      }
    }

    /**
     * mk_message and the rest of send_msg, once the options are made: the next id, a token and one sending. It
     * is the step SendNext, or SendNon when no result function asks for a confirmation; the id is answered
     * unless the sending failed.
     */
    method SendMsg(toaddr: Addr, resultfn: nat, code: byte, list: Option<seq<Opt>>, payload: Option<seq<byte>>, random: u32)
      returns (result: u16, ghost a: Action, ghost m: Sending)
      requires Valid() && !Overruns(Request(nextid, resultfn, code, list, payload, random), wrbuffer.nbytes)
      modifies this, env`now, env`log, env`drawn, wrbuffer.bytes, confirmq, confirmq.Nodes()
      ensures Valid() && Legal(old(Abs()), a) && Abs() == Apply(old(Abs()), a)
      ensures a == if resultfn != 0 then SendNext(m) else SendNon(Xmission(m.dest, m.bytes, m.at, m.err))
      ensures m.bytes == Datagram(Request(old(nextid), resultfn, code, list, payload, random), wrbuffer.nbytes)
      ensures m.bytes == [] || RequestHead(old(nextid), resultfn, code, random) <= m.bytes
      ensures m.dest == toaddr && m.resultfn == resultfn && m.msgid == old(nextid)
      ensures env.log == old(env.log) + Posted(if resultfn != 0 then Some(|old(records)|) else None, m)
      ensures result == if m.err == DONE then old(nextid) else 0
      ensures fresh(confirmq.Nodes() - old(confirmq.Nodes()))
    {
      hide Inv, Sound, Request, IsRequest, IsAck, IsConfirmable, MessageId, Overruns, FitIssue, Arrive, Datagram, RequestHead;
      WfFromInv(Abs());
      var msgid := NextId();
      var msg := Request(msgid, resultfn, code, list, payload, random);
      RequestFields(msgid, resultfn, code, list, payload, random);
      RequestStarts(msgid, resultfn, code, list, payload, random, wrbuffer.nbytes);
      var err;
      err, m := Send(toaddr, msg, resultfn, Some(issued - 1));
      a := if resultfn != 0 then SendNext(m) else SendNon(Xmission(m.dest, m.bytes, m.at, m.err));
      result := if err != DONE then 0 else msgid;
    }

    // mc_endpt_udp_ack: a message of its own, sent without confirmation.
    method SendAck(toaddr: Addr, token: seq<byte>, msgid: u16) returns (err: int, ghost m: Sending)
      requires Valid() && |token| < 0x1_0000_0000
      modifies this`records, this`now, this`queue, this`copies, env`now, env`log, env`drawn, wrbuffer.bytes, confirmq, confirmq.Nodes()
      ensures Valid() && old(now) <= m.at && Abs() == Plain(old(Abs()), Xmission(m.dest, m.bytes, m.at, m.err))
      ensures m.err == err && m.dest == toaddr && m.bytes == Datagram(AckMessage(msgid, token), wrbuffer.nbytes)
      ensures |token| <= 15 ==> m.bytes == [] || m.bytes == [0x60 + |token|, 0, msgid / 256, msgid % 256] + token
      ensures env.log == old(env.log) + Posted(None, m)
      ensures fresh(confirmq.Nodes() - old(confirmq.Nodes()))
    {
      hide AckMessage, Overruns, Inv, Sound, Datagram, IsAck, IsConfirmable, MessageId;
      AckFields(msgid, token);
      AckStarts(msgid, token, wrbuffer.nbytes);
      AckNeverOverruns(msgid, token, wrbuffer.nbytes);
      err, m := Send(toaddr, AckMessage(msgid, token), 0, None);
    }
  }
}
