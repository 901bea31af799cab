/** Whole messages to and from buffers (mcoap/mc_message.c). */
module Messages {
  import opened Bytes
  import opened Buffers
  import opened OptionCodec
  import opened OptionOrder
  import opened MessageCodec
  import opened ReadAsWritten
  import opened WireFormat
  import OptionsList
  import Header

  predicate IsAck(m: Message) {
    Header.GetMessageType(m.header) == Header.ACK
  }

  predicate IsConfirmable(m: Message) {
    Header.GetMessageType(m.header) == Header.CONFIRM
  }

  function MessageId(m: Message): (id: u16) {
    Header.GettersUnpack(m.header);
    Header.GetMessageId(m.header)
  }

  lemma InitFields(version: byte, messageType: byte, code: byte, messageId: u16, token: seq<byte>,
                   options: Option<seq<Opt>>, payload: Option<seq<byte>>)
    requires |token| < 0x1_0000_0000
    ensures var m := MessageInit(version, messageType, code, messageId, token, options, payload);
            && MessageId(m) == messageId && m.token == token && m.options == options && m.payload == payload
            && Header.GetVersion(m.header) == version % 4 && Header.GetMessageType(m.header) == messageType % 4
            && Header.GetTokenLength(m.header) == |token| % 16 && Header.GetCode(m.header) == code
            && (IsAck(m) <==> messageType % 4 == 2) && (IsConfirmable(m) <==> messageType % 4 == 0)
  {
    hide Header.Create, Header.GetVersion, Header.GetMessageType, Header.GetTokenLength, Header.GetCode, Header.GetMessageId;
    Header.HeaderRoundTrip(version, messageType, |token|, code, messageId);
  }

  method MessageBufferSize(m: Message) returns (size: nat)
    ensures size == MessageSize(m)
  {
    size := 4;
    size := size + |m.token|;
    var options := OptionsList.ListBufferSize(OptsOf(m));
    size := size + options;
    if m.payload.Some? && |m.payload.value| > 0 {
      size := size + 1;
      size := size + |m.payload.value|;
    }
  }

  /**
   * Prints a message at the start of the buffer, whatever its options. 0 when the size pass says it does not
   * fit, and then nothing is written; 0 as well when the size pass has fallen short and a later check fails.
   * Otherwise the message is there, and every byte beyond it is as it was.
   */
  method MessageToBuffer(m: Message, buffer: Buffer) returns (n: nat)
    requires buffer.Valid() && !Overruns(m, buffer.nbytes)
    modifies buffer.bytes
    ensures n == |Datagram(m, buffer.nbytes)|
    ensures n > 0 || MessageSize(m) > buffer.nbytes ==>
              buffer.bytes[..] == Patched(old(buffer.bytes[..]), 0, Datagram(m, buffer.nbytes))
    ensures n > 0 && m.payload.Some? && m.payload.value != [] ==> MarkerAt(m) < n <= buffer.nbytes && buffer.bytes[MarkerAt(m)] == 255
    ensures SameOutside(old(buffer.bytes[..]), buffer.bytes[..], 0, buffer.nbytes)
  {
    hide Patched, SameOutside, EncodeOptions, OptionsSize, PayloadBytes;
    ghost var was, options := buffer.bytes[..], EncodeOptions(0, OptsOf(m));
    NothingWritten(was, buffer.nbytes);
    var size := MessageBufferSize(m);
    if size > buffer.nbytes {
      return 0;
    }
    var bpos := HeaderToBuffer(m, buffer);
    ghost var written := Network32(m.header) + m.token;
    hide Network32;
    ghost var before := buffer.bytes[..];
    WithinBuffer(was, before, written, buffer.nbytes);

    var ok;
    ok, bpos := OptionsList.ListToBuffer(OptsOf(m), buffer, bpos);
    OptionsList.NarrowerTouch(was, before, buffer.bytes[..], 0, |written|, buffer.nbytes);
    if !ok {
      return 0;
    }
    PatchTwice(was, 0, written, options);
    written := written + options;
    before := buffer.bytes[..];

    ok, bpos := PayloadToBuffer(m.payload, buffer, bpos);
    OptionsList.NarrowerTouch(was, before, buffer.bytes[..], 0, |written|, buffer.nbytes);
    if !ok {
      return 0;
    }
    PatchTwice(was, 0, written, PayloadBytes(m.payload));
    n := bpos;
    if m.payload.Some? && m.payload.value != [] {
      MarkerPatched(m, was, buffer.bytes[..]);
    }
  }

  lemma MarkerPatched(m: Message, was: seq<byte>, s: seq<byte>)
    requires m.payload.Some? && m.payload.value != []
    requires |EncodeMessage(m)| <= |was| && s == Patched(was, 0, EncodeMessage(m))
    ensures MarkerAt(m) < |EncodeMessage(m)| <= |s| && s[MarkerAt(m)] == 255
  {
    PrintedBytes(m);
    hide EncodeMessage, MarkerAt;
    var b := EncodeMessage(m);
    assert b[MarkerAt(m)..][0] == b[MarkerAt(m)];
    assert s[MarkerAt(m)] == b[MarkerAt(m)];
  }

  // The first part: header and token, for which the size pass has made room.
  method HeaderToBuffer(m: Message, buffer: Buffer) returns (bpos: nat)
    requires buffer.Valid() && 4 + |m.token| <= buffer.nbytes
    modifies buffer.bytes
    ensures bpos == 4 + |m.token| == |Network32(m.header) + m.token|
    ensures buffer.bytes[..] == Patched(old(buffer.bytes[..]), 0, Network32(m.header) + m.token)
  {
    ghost var was, written := buffer.bytes[..], Network32(m.header);
    SwapIsNetworkOrder32(m.header);
    assert |written| == 4;
    hide Network32, Memory32, Patched;
    Memcpy(buffer.bytes, 0, Memory32(SwapU32(m.header)));
    var ok := buffer.CopyFrom(4, m.token);
    assert ok;
    PatchTwice(was, 0, written, m.token);
    bpos := 4 + |m.token|;
  }

  lemma NothingWritten(s: seq<byte>, nbytes: nat)
    requires nbytes <= |s|
    ensures Patched(s, 0, []) == s && SameOutside(s, s, 0, nbytes)
  {
  }

  lemma WithinBuffer(s: seq<byte>, t: seq<byte>, written: seq<byte>, nbytes: nat)
    requires |written| <= nbytes <= |s| && t == Patched(s, 0, written)
    ensures SameOutside(s, t, 0, nbytes)
  {
    NothingWritten(s, nbytes);
    PatchInside(s, s, 0, written, 0, nbytes);
  }

  // The last part: a marker and the payload, if there is one. There has to be room for the marker.
  method PayloadToBuffer(payload: Option<seq<byte>>, buffer: Buffer, bpos: nat) returns (ok: bool, pos: nat)
    requires buffer.Valid() && bpos <= buffer.nbytes && (PayloadBytes(payload) != [] ==> bpos < buffer.nbytes)
    modifies buffer.bytes
    ensures ok <==> bpos + |PayloadBytes(payload)| <= buffer.nbytes
    ensures ok ==> pos == bpos + |PayloadBytes(payload)|
    ensures ok ==> buffer.bytes[..] == Patched(old(buffer.bytes[..]), bpos, PayloadBytes(payload))
    ensures SameOutside(old(buffer.bytes[..]), buffer.bytes[..], bpos, buffer.nbytes)
  {
    ok, pos := true, bpos;
    ghost var was := buffer.bytes[..];
    if payload.Some? && |payload.value| > 0 {
      buffer.bytes[pos] := MARKER;
      OptionsList.OneByte(was, buffer.bytes[..], pos);
      pos := pos + 1;
      ok := buffer.CopyFrom(pos, payload.value);
      if !ok {
        return;
      }
      PatchTwice(was, bpos, [MARKER], payload.value);
      pos := pos + |payload.value|;
    } else {
      OptionsList.PatchNothing(was, bpos);
    }
    OptionsList.NothingTouched(was, bpos, buffer.nbytes);
    PatchInside(was, was, bpos, PayloadBytes(payload), bpos, buffer.nbytes);
  }

  /**
   * Parses the message at bpos of a buffer, with a reader for each of the two passes over the options. The result
   * is what that parse gives, over whatever order qsort leaves equal option numbers in. Nothing says that the
   * source stays inside the buffer; it does unless the parse is one that does not. Where both passes read as it is
   * meant, what is rejected is what the format rejects.
   */
  method MessageFromBuffer(buffer: Buffer, bpos: nat, counting: Reader, reading: Reader) returns (r: Parse)
    requires buffer.Valid() && ParseWireWith(buffer.Contents(), bpos, counting, reading) != Parse.OutOfBounds
    modifies buffer.bytes
    ensures SortsTo(ParseWireWith(old(buffer.Contents()), bpos, counting, reading), r)
    ensures counting.Intended? && reading.Intended? ==> (r.Parsed? <==> Accepted(old(buffer.Contents()), bpos))
  {
    hide Accepted, ParseWire, ParseWireWith, TokenLength, HeaderAt, TakeAll, SortsTo, CanTake;
    ghost var b := buffer.Contents();
    ParseInParts(b, bpos, counting, reading);
    MeantAccepts(b, bpos);
    if buffer.nbytes < 4 {
      RejectedAsIs();
      return Rejected;
    }
    var header, token, pos := HeaderFromBuffer(buffer, bpos);
    r := RestFromBuffer(Message(header, token, None, None), buffer, pos, counting, reading);
  }

  // The parse as it is meant accepts what the format does, whatever the sort.
  lemma MeantAccepts(b: seq<byte>, pos: nat)
    ensures forall r :: SortsTo(ParseWireWith(b, pos, Intended, Intended), r) ==> (r.Parsed? <==> Accepted(b, pos))
  {
    MeantParse(b, pos);
    AcceptedIff(b, pos);
    hide Accepted, ParseWire, ParseWireWith;
  }

  // The passes do not leave the buffer.
  predicate CanTake(s: seq<byte>, nbytes: nat, counting: Reader, reading: Reader) {
    OptionsList.CountOf(nbytes, s, counting) > 0 ==> OptionsList.Found(nbytes, s, counting, reading).Read?
  }

  // The id a datagram acknowledges, if it is accepted and of type 2.
  function AckIn(b: seq<byte>): Option<u16> {
    if Accepted(b, 0) && b[0] / 16 % 4 == 2 then Some(256 * b[2] as int + b[3] as int) else None
  }

  /** Whatever the sort, what is taken for an acknowledgement, and of what, shows in the first four bytes. */
  lemma AckShows(b: seq<byte>, r: Parse)
    requires MayParse(b, 0, r) && r.Parsed?
    ensures AckIn(b) == if IsAck(r.msg) then Some(MessageId(r.msg)) else None
  {
    MayParseIff(b, 0, r);
    AcceptedIff(b, 0);
    assert r.msg.header == ParseWire(b, 0).msg.header;
    hide ParseWire, Accepted;
  }

  // Options and payload, from the bytes behind the token.
  function TakeAll(m: Message, s: seq<byte>, nbytes: nat, counting: Reader, reading: Reader): Parse
    requires |s| <= nbytes && CanTake(s, nbytes, counting, reading)
  {
    var n := OptionsList.CountOf(nbytes, s, counting);
    if n == 0 then TakePayload(m, s, nbytes)
    else
      ReadMovesOn(n, 0, Overwritten(s, counting), reading);
      var found := OptionsList.Found(nbytes, s, counting, reading);
      TakePayload(m.(options := Some(found.opts)), found.rest, nbytes)
  }

  // What comes behind the token.
  method RestFromBuffer(m: Message, buffer: Buffer, bpos: nat, counting: Reader, reading: Reader) returns (r: Parse)
    requires buffer.Valid() && 4 <= buffer.nbytes && bpos <= buffer.nbytes && m.options.None? && m.payload.None?
    requires CanTake(buffer.Contents()[bpos..], buffer.nbytes, counting, reading)
    modifies buffer.bytes
    ensures SortsTo(TakeAll(m, old(buffer.Contents())[bpos..], buffer.nbytes, counting, reading), r)
  {
    hide OptionsList.CountOf, OptionsList.Found, Overwritten, TakePayload, SortsTo, IsSorting, SameOutside;
    ghost var s := buffer.Contents()[bpos..];
    ghost var found := OptionsList.Found(buffer.nbytes, s, counting, reading);
    ReadMovesOn(OptionsList.CountOf(buffer.nbytes, s, counting), 0, Overwritten(s, counting), reading);
    var options, pos := OptionsList.ListFromBuffer(buffer, bpos, counting, reading);
    var message := m.(options := options);
    ghost var rest := if options.Some? then found.rest else s;
    r := PayloadFromBuffer(message, buffer, pos, rest);
    if options.Some? {
      SortedTake(message, found.opts, rest, buffer.nbytes);
    } else {
      TakenAsIs(message, rest, buffer.nbytes);
    }
  }

  // The first part of mc_message_from_buffer: header and token, as long as the header says.
  method HeaderFromBuffer(buffer: Buffer, bpos: nat) returns (header: u32, token: seq<byte>, pos: nat)
    requires buffer.Valid() && bpos + 4 <= buffer.nbytes
    requires bpos + 4 + TokenLength(HeaderAt(buffer.Contents(), bpos)) <= buffer.nbytes
    ensures header == HeaderAt(buffer.Contents(), bpos)
    ensures pos == bpos + 4 + TokenLength(header) && token == buffer.Contents()[bpos + 4..pos]
  {
    hide TokenLength;
    var raw;
    raw, pos := buffer.NextUint32(bpos);
    header := SwapU32(raw);
    var tklen := TokenLength(header);
    token, pos := buffer.NextPtr(tklen, pos);
  }

  lemma RejectedAsIs()
    ensures SortsTo(Rejected, Rejected)
  {
  }

  // The parse in the steps the source has.
  lemma ParseInParts(b: seq<byte>, pos: nat, counting: Reader, reading: Reader)
    requires ParseWireWith(b, pos, counting, reading) != Parse.OutOfBounds
    ensures var w := ParseWireWith(b, pos, counting, reading);
            if |b| < 4 then w == Rejected
            else
              && pos + 4 <= |b| && pos + 4 + TokenLength(HeaderAt(b, pos)) <= |b|
              && var at := pos + 4 + TokenLength(HeaderAt(b, pos));
              && CanTake(b[at..], |b|, counting, reading)
              && w == TakeAll(Message(HeaderAt(b, pos), b[pos + 4..at], None, None), b[at..], |b|, counting, reading)
  {
    hide TokenLength, HeaderAt, TakePayload, CountPass, ReadPass, Overwritten;
  }

  lemma SortedTake(m: Message, opts: seq<Opt>, s: seq<byte>, nbytes: nat)
    requires |s| <= nbytes && m.options.Some? && IsSorting(opts, m.options.value)
    ensures SortsTo(TakePayload(m.(options := Some(opts)), s, nbytes), TakePayload(m, s, nbytes))
  {
    hide IsSorting;
  }

  lemma TakenAsIs(m: Message, s: seq<byte>, nbytes: nat)
    requires |s| <= nbytes && m.options.None?
    ensures SortsTo(TakePayload(m, s, nbytes), TakePayload(m, s, nbytes))
  {
  }

  // The last part of mc_message_from_buffer, on what is left at pos. Only behind a marker is more of it looked at
  // than its first byte.
  method PayloadFromBuffer(m: Message, buffer: Buffer, pos: nat, ghost s: seq<byte>) returns (r: Parse)
    requires buffer.Valid() && pos <= buffer.nbytes && |s| == buffer.nbytes - pos && m.payload.None?
    requires (s != [] ==> buffer.bytes[pos] == s[0]) && (AtEnd(s) ==> buffer.Contents()[pos..] == s)
    ensures r == TakePayload(m, s, buffer.nbytes)
  {
    var remaining := buffer.nbytes - pos;
    var message := m;
    var at := pos;
    if remaining > 1 {
      var marker := buffer.bytes[at];
      if marker != MARKER {
        return Rejected;
      }
      at := at + 1;
      assert s[1..] == buffer.Contents()[at..at + (remaining - 1)] by {
        assert buffer.Contents()[pos..][1..] == buffer.Contents()[at..];
      }
      var payload;
      payload, at := buffer.NextPtr(remaining - 1, at);
      message := message.(payload := Some(payload));
    }
    r := Parsed(message, at);
  }
}
