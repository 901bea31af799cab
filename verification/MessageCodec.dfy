/**
 * The message format (mcoap/mc_message.c): header, token, options, and a payload behind a 0xff marker.
 * EncodeMessage and ParseMessage are what the two traversals of the source compute; the theorems say
 * exactly when each undoes the other.
 */
module MessageCodec {
  import opened Bytes
  import opened OptionCodec
  import opened OptionOrder
  import Header

  // options and payload are the source's nullable pointers.
  datatype Message = Message(header: u32, token: seq<byte>, options: Option<seq<Opt>>, payload: Option<seq<byte>>)

  function OptsOf(m: Message): seq<Opt> {
    if m.options.Some? then m.options.value else []
  }

  // ---------- Printing ----------

  function PayloadBytes(payload: Option<seq<byte>>): (r: seq<byte>)
    ensures AtEnd(r) && |r| != 1
  {
    if payload.Some? && payload.value != [] then [MARKER] + payload.value else []
  }

  function EncodeMessage(m: Message): seq<byte> {
    Network32(m.header) + m.token + EncodeOptions(0, OptsOf(m)) + PayloadBytes(m.payload)
  }

  function MessageSize(m: Message): nat {
    4 + |m.token| + OptionsSize(0, OptsOf(m)) + |PayloadBytes(m.payload)|
  }

  // ---------- Parsing ----------

  // OutOfBounds: the source reads its header or its token from beyond the datagram, with no check of its own.
  datatype Parse = Rejected | OutOfBounds | Parsed(msg: Message, pos: nat)

  // mc_options_list_from_buffer up to the sort, on what remains of a buffer of nbytes: null or the options
  // in wire order, and what follows them.
  function TakeOptions(nbytes: nat, s: seq<byte>): (r: (Option<seq<Opt>>, seq<byte>))
    ensures |r.1| <= |s|
  {
    var tally := if nbytes < 4 then Broken else CountPass(s, Intended);
    if tally.Broken? || tally.n == 0 then (None, s)
    else
      TwoPassAgreement(s, 0, Intended);
      CountStopsInside(s, Intended);
      var reading := ReadPass(tally.n, 0, s, Intended);
      (Some(reading.opts), reading.rest)
  }

  function TokenLength(header: u32): (r: nat)
    ensures r < 16
  {
    Header.GettersUnpack(header);
    Header.GetTokenLength(header)
  }

  function HeaderAt(b: seq<byte>, pos: nat): u32
    requires pos + 4 <= |b|
  {
    SwapU32(Load32(b[pos..pos + 4]))
  }

  // What is left after the options: nothing, one byte that is ignored, or a marker and a payload.
  function TakePayload(m: Message, s: seq<byte>, nbytes: nat): (r: Parse)
    requires |s| <= nbytes
    ensures r.Parsed? ==> r.pos <= nbytes && r.msg == m.(payload := r.msg.payload)
  {
    if |s| > 1 then
      if s[0] != MARKER then Rejected else Parsed(m.(payload := Some(s[1..])), nbytes)
    else Parsed(m.(payload := None), nbytes - |s|)
  }

  // The whole parse, but for the sort of the options.
  function ParseWire(b: seq<byte>, pos: nat): (r: Parse)
    ensures r.Parsed? ==> r.pos <= |b|
  {
    if |b| < 4 then Rejected
    else if pos + 4 > |b| then Parse.OutOfBounds
    else
      var header := HeaderAt(b, pos);
      var at := pos + 4 + TokenLength(header);
      if at > |b| then Parse.OutOfBounds
      else
        var (options, rest) := TakeOptions(|b|, b[at..]);
        TakePayload(Message(header, b[pos + 4..at], options, None), rest, |b|)
  }

  function SortOptions(options: Option<seq<Opt>>): Option<seq<Opt>> {
    if options.None? then None else Some(StableSort(options.value))
  }

  // What it becomes under a stable one.
  function Sorting(w: Parse): Parse {
    if w.Parsed? then Parsed(w.msg.(options := SortOptions(w.msg.options)), w.pos) else w
  }

  // mc_message_from_buffer, over a library whose qsort is stable.
  function ParseMessage(b: seq<byte>, pos: nat): Parse {
    Sorting(ParseWire(b, pos))
  }

  // What a parse in wire order may become under any qsort.
  ghost predicate SortsTo(w: Parse, r: Parse) {
    if !w.Parsed? then r == w
    else
      && r.Parsed? && r.pos == w.pos && r.msg == w.msg.(options := r.msg.options)
      && (w.msg.options.None? <==> r.msg.options.None?)
      && (w.msg.options.Some? ==> IsSorting(w.msg.options.value, r.msg.options.value))
  }

  // mc_message_from_buffer, over any qsort: what it may return.
  ghost predicate MayParse(b: seq<byte>, pos: nat, r: Parse) {
    SortsTo(ParseWire(b, pos), r)
  }

  /** The stable result is one of the possible ones. */
  lemma StableSortsTo(w: Parse)
    ensures SortsTo(w, Sorting(w))
  {
    if w.Parsed? && w.msg.options.Some? {
      StableSortSorts(w.msg.options.value);
    }
  }

  lemma StableMayParse(b: seq<byte>, pos: nat)
    ensures MayParse(b, pos, ParseMessage(b, pos))
  {
    StableSortsTo(ParseWire(b, pos));
    hide ParseWire, SortsTo, Sorting;
  }

  // ---------- Parse after print ----------

  // An empty option list and an empty payload leave no trace on the wire.
  function Normal(m: Message): Message {
    m.(options := if OptsOf(m) == [] then None else m.options,
       payload := if PayloadBytes(m.payload) == [] then None else m.payload)
  }

  // Where the options start in a printed message.
  lemma EncodedParts(m: Message)
    requires TokenLength(m.header) == |m.token|
    ensures var b, at := EncodeMessage(m), 4 + |m.token|;
            && |b| >= at && HeaderAt(b, 0) == m.header && b[4..at] == m.token
            && b[at..] == EncodeOptions(0, OptsOf(m)) + PayloadBytes(m.payload)
  {
    hide EncodeOptions, PayloadBytes, TokenLength;
    var b, at := EncodeMessage(m), 4 + |m.token|;
    SwapIsNetworkOrder32(m.header);
    hide Network32;
    assert b[0..4] == Network32(m.header);
  }

  lemma TakeOptionsAfterEncode(nbytes: nat, opts: seq<Opt>, tail: seq<byte>)
    requires nbytes >= 4 && ValuesFit(opts) && AtEnd(tail)
    ensures TakeOptions(nbytes, EncodeOptions(0, opts) + tail) == (if opts == [] then None else Some(opts), tail)
  {
    hide AllLegible, CountPass, ReadPass, ValuesFit;
    IntendedIsLegible(0, opts);
    ReadAfterEncode(0, opts, tail, Intended);
    if opts == [] {
      assert EncodeOptions(0, []) + tail == tail;
    }
  }

  lemma TakePayloadAfterEncode(m: Message, nbytes: nat)
    requires |PayloadBytes(m.payload)| <= nbytes
    ensures TakePayload(m.(payload := None), PayloadBytes(m.payload), nbytes)
         == Parsed(m.(payload := Normal(m).payload), nbytes)
  {
    var s := PayloadBytes(m.payload);
    if s != [] {
      assert s[1..] == m.payload.value;
    }
  }

  /** Printed and parsed, in wire order: the message itself, with nothing left over. */
  lemma ParseWireAfterEncode(m: Message)
    requires Representable(m)
    ensures ParseWire(EncodeMessage(m), 0) == Parsed(Normal(m), |EncodeMessage(m)|)
  {
    EncodedParts(m);
    hide EncodeMessage, ValuesFit, TokenLength, HeaderAt, TakePayload, TakeOptions, EncodeOptions, PayloadBytes;
    var b, at := EncodeMessage(m), 4 + |m.token|;
    var tail := PayloadBytes(m.payload);
    TakeOptionsAfterEncode(|b|, OptsOf(m), tail);
    TakePayloadAfterEncode(m.(options := Normal(m).options), |b|);
  }

  lemma ParsedFits(b: seq<byte>, pos: nat)
    requires ParseWire(b, pos).Parsed?
    ensures var m := ParseWire(b, pos).msg; |m.token| == TokenLength(m.header) && ValuesFit(OptsOf(m))
  {
    hide HeaderAt, TokenLength, CountPass, ReadPass, TakePayload;
    var at := pos + 4 + TokenLength(HeaderAt(b, pos));
    var tally := CountPass(b[at..], Intended);
    if tally.Counted? {
      TwoPassAgreement(b[at..], 0, Intended);
      ReadValuesFit(tally.n, 0, b[at..], Intended);
    }
  }

  lemma SortingKeepsFit(a: seq<Opt>, b: seq<Opt>)
    requires IsSorting(a, b)
    ensures ValuesFit(a) <==> ValuesFit(b)
  {
    assert forall o :: o in a <==> o in multiset(a);
    assert forall o :: o in b <==> o in multiset(b);
  }

  // What the format can carry: a token as long as the header says, and values with 16-bit lengths.
  predicate Representable(m: Message) {
    TokenLength(m.header) == |m.token| && ValuesFit(OptsOf(m))
  }

  /**
   * Parse after print, exactly: a message with a sorted option list comes back as itself if and only if its
   * token is as long as its header says and no option value exceeds 65535 bytes.
   */
  lemma MessageRoundTrip(m: Message)
    requires Sorted(OptsOf(m))
    ensures ParseMessage(EncodeMessage(m), 0) == Parsed(Normal(m), |EncodeMessage(m)|) <==> Representable(m)
  {
    var b := EncodeMessage(m);
    if Representable(m) {
      ParseWireAfterEncode(m);
      StableSortKeepsSorted(OptsOf(m));
      hide ParseWire, EncodeMessage;
    } else if ParseWire(b, 0).Parsed? {
      ParsedFits(b, 0);
      StableSortsTo(ParseWire(b, 0));
      var w, r := ParseWire(b, 0).msg, ParseMessage(b, 0).msg;
      if w.options.Some? {
        SortingKeepsFit(w.options.value, r.options.value);
      }
      hide ParseWire, EncodeMessage;
      assert Representable(r);
      assert Representable(Normal(m)) <==> Representable(m);
    }
  }

  lemma {:induction false} IntendedIsLegible(prev: u16, opts: seq<Opt>)
    ensures AllLegible(prev, opts, Intended)
    decreases |opts|
  {
    if opts != [] {
      IntendedIsLegible(opts[0].num, opts[1..]);
    }
  }

  // A sorted list that comes back from a parse has been through some qsort.
  lemma SortedParse(m: Message, n: nat, r: Parse)
    requires SortsTo(Parsed(Normal(m), n), r)
    ensures r.Parsed? && r.pos == n && r.msg == Normal(m).(options := r.msg.options) && IsSorting(OptsOf(m), OptsOf(r.msg))
  {
    if OptsOf(m) == [] {
      assert IsSorting([], []);
    }
  }

  /**
   * Over any qsort, what comes back of a message the format can carry differs from it at most in the order of
   * options with equal numbers.
   */
  lemma MessageComesBack(m: Message)
    requires Sorted(OptsOf(m)) && Representable(m)
    ensures forall r :: MayParse(EncodeMessage(m), 0, r) ==>
              && r.Parsed? && r.pos == |EncodeMessage(m)| && r.msg == Normal(m).(options := r.msg.options)
              && IsSorting(OptsOf(m), OptsOf(r.msg))
  {
    ParseWireAfterEncode(m);
    hide ParseWire, EncodeMessage, SortsTo, Sorted, IsSorting, Normal, Representable;
    forall r | MayParse(EncodeMessage(m), 0, r)
      ensures r.Parsed? && r.pos == |EncodeMessage(m)| && r.msg == Normal(m).(options := r.msg.options)
      ensures IsSorting(OptsOf(m), OptsOf(r.msg))
    {
      SortedParse(m, |EncodeMessage(m)|, r);
    }
  }

  // What the parse gives is the same for every qsort exactly if equal numbers mean equal options.
  lemma EverySortToIff(m: Message, n: nat)
    requires Sorted(OptsOf(m))
    ensures (forall r :: SortsTo(Parsed(Normal(m), n), r) ==> r == Parsed(Normal(m), n)) <==> NumbersDetermineOptions(OptsOf(m))
  {
    var opts, w := OptsOf(m), Parsed(Normal(m), n);
    EverySortKeepsIff(opts);
    hide Sorted, IsSorting;
    if NumbersDetermineOptions(opts) {
      forall r | SortsTo(w, r) ensures r == w {
        SortedParse(m, n, r);
      }
    } else {
      var c :| IsSorting(opts, c) && c != opts;
      var r := Parsed(Normal(m).(options := Some(c)), n);
      assert opts != [];
      assert SortsTo(w, r) && r != w;
    }
  }

  /**
   * Parse after print over any qsort, exactly: every sort returns the message itself if and only if the format
   * can carry it and equal numbers mean equal options.
   */
  lemma MessageRoundTripAnySort(m: Message)
    requires Sorted(OptsOf(m))
    ensures (forall r :: MayParse(EncodeMessage(m), 0, r) ==> r == Parsed(Normal(m), |EncodeMessage(m)|))
       <==> Representable(m) && NumbersDetermineOptions(OptsOf(m))
  {
    var b := EncodeMessage(m);
    hide ParseWire, EncodeMessage, Sorted, Normal, Representable, SortsTo, NumbersDetermineOptions;
    if Representable(m) {
      ParseWireAfterEncode(m);
      EverySortToIff(m, |b|);
      assert forall r :: MayParse(b, 0, r) <==> SortsTo(Parsed(Normal(m), |b|), r);
    } else {
      MessageRoundTrip(m);
      StableSortsTo(ParseWire(b, 0));
      assert MayParse(b, 0, ParseMessage(b, 0));
    }
  }

  // mc_message_init: the header takes the token's length, cut to four bits.
  function MessageInit(version: byte, messageType: byte, code: byte, messageId: u16, token: seq<byte>,
                       options: Option<seq<Opt>>, payload: Option<seq<byte>>): Message
    requires |token| < 0x1_0000_0000
  {
    Header.HeaderRoundTrip(version, messageType, |token|, code, messageId);
    Message(Header.Create(version, messageType, |token|, code, messageId), token, options, payload)
  }

  /**
   * A message built by the library and printed is parsed back exactly when its token has at most 15 bytes and its
   * values at most 65535; that goes for a stable qsort, and for every qsort if equal numbers mean equal options.
   */
  lemma BuiltMessageRoundTrip(version: byte, messageType: byte, code: byte, messageId: u16, token: seq<byte>,
                              options: Option<seq<Opt>>, payload: Option<seq<byte>>)
    requires |token| < 0x1_0000_0000 && (options.Some? ==> Sorted(options.value))
    ensures var m := MessageInit(version, messageType, code, messageId, token, options, payload);
            ParseMessage(EncodeMessage(m), 0) == Parsed(Normal(m), |EncodeMessage(m)|)
            <==> |token| <= 15 && (options.Some? ==> ValuesFit(options.value))
    ensures var m := MessageInit(version, messageType, code, messageId, token, options, payload);
            (forall r :: MayParse(EncodeMessage(m), 0, r) ==> r == Parsed(Normal(m), |EncodeMessage(m)|))
            <==> |token| <= 15 && (options.Some? ==> ValuesFit(options.value) && NumbersDetermineOptions(options.value))
  {
    hide *;
    InitRepresentable(version, messageType, code, messageId, token, options, payload);
    MessageRoundTrip(MessageInit(version, messageType, code, messageId, token, options, payload));
    MessageRoundTripAnySort(MessageInit(version, messageType, code, messageId, token, options, payload));
  }

  lemma InitRepresentable(version: byte, messageType: byte, code: byte, messageId: u16, token: seq<byte>,
                          options: Option<seq<Opt>>, payload: Option<seq<byte>>)
    requires |token| < 0x1_0000_0000 && (options.Some? ==> Sorted(options.value))
    ensures var m := MessageInit(version, messageType, code, messageId, token, options, payload);
            && Sorted(OptsOf(m))
            && (Representable(m) <==> |token| <= 15 && (options.Some? ==> ValuesFit(options.value)))
            && (NumbersDetermineOptions(OptsOf(m)) <==> (options.Some? ==> NumbersDetermineOptions(options.value)))
  {
    hide Header.Create, TokenLength;
    TokenLengthOfCreate(version, messageType, |token|, code, messageId);
  }

  lemma TokenLengthOfCreate(version: byte, messageType: byte, tokenLength: u32, code: byte, messageId: u16)
    ensures var h := Header.Create(version, messageType, tokenLength, code, messageId);
            h < 0x1_0000_0000 && TokenLength(h) == tokenLength % 16
  {
    hide Header.Create, Header.GetVersion, Header.GetMessageType, Header.GetTokenLength, Header.GetCode, Header.GetMessageId;
    Header.HeaderRoundTrip(version, messageType, tokenLength, code, messageId);
  }

  /** The size pass over a whole message: never short of what is printed, and exact when the values fit 16 bits. */
  lemma MessageSizeCovers(m: Message)
    requires Sorted(OptsOf(m)) && Sized(OptsOf(m))
    ensures MessageSize(m) >= |EncodeMessage(m)|
    ensures MessageSize(m) == |EncodeMessage(m)| <==> ValuesFit(OptsOf(m))
  {
    hide EncodeOptions, OptionsSize, SortedFrom, ValuesFit;
    SizeCovers(0, OptsOf(m));
  }

  // What ends up in a buffer of some size: the size pass has to let the message through, and it has to fit.
  function Datagram(m: Message, room: nat): seq<byte> {
    if MessageSize(m) <= room && |EncodeMessage(m)| <= room then EncodeMessage(m) else []
  }

  // Where the payload's marker goes, if there is one.
  function MarkerAt(m: Message): nat {
    4 + |m.token| + |EncodeOptions(0, OptsOf(m))|
  }

  // The source comes to write it: the size pass has let the message through and the options have fitted.
  predicate WritesMarker(m: Message, room: nat) {
    MessageSize(m) <= room && PayloadBytes(m.payload) != [] && MarkerAt(m) <= room
  }

  // It goes beyond the buffer: there is no check of its own. The payload follows it, because the unsigned
  // difference that should stop it (mcoap/mc_buffer.c:92) has then wrapped.
  predicate Overruns(m: Message, room: nat) {
    WritesMarker(m, room) && MarkerAt(m) >= room
  }

  /**
   * Printing stays inside every buffer exactly when there is no payload or the size pass promises more than the
   * bytes in front of it: falling short by less than the payload does no harm.
   */
  lemma StaysInsideIff(m: Message)
    ensures (forall room: nat :: !Overruns(m, room)) <==> PayloadBytes(m.payload) == [] || MessageSize(m) > MarkerAt(m)
  {
    hide EncodeOptions, OptionsSize, PayloadBytes;
    if PayloadBytes(m.payload) != [] && MessageSize(m) <= MarkerAt(m) {
      assert Overruns(m, MarkerAt(m));
    }
  }

  // A value of 65805 bytes, one more than the size pass can size, does it.
  lemma OverrunExample()
    ensures var m := Message(0, [], Some([Opt(0, seq(65805, _ => 0))]), Some([1, 2]));
            Sorted(OptsOf(m)) && Overruns(m, 65812)
  {
    var value: seq<byte> := seq(65805, _ => 0);
    var o := Opt(0, value);
    var m := Message(0, [], Some([o]), Some([1, 2]));
    assert OptionsSize(0, [o]) == OptionSize(o, 0) + OptionsSize(0, []);
    assert EncodeOptions(0, [o]) == EncodeOption(0, o) + EncodeOptions(0, []);
    LengthField(65805);
    OptionLength(0, o);
    assert Length16(value) == 269 && Delta(0, 0) == 0;
    assert |PayloadBytes(m.payload)| == 3;
  }

  /**
   * Once the initial size check passes no later one fails, if the list is sorted and the size pass can size its
   * values; and no write goes beyond the buffer, if besides there is no payload or the buffer is below 64 KiB.
   */
  lemma SizeCheckSuffices(m: Message, room: nat)
    requires Sorted(OptsOf(m))
    ensures Sized(OptsOf(m)) ==> Datagram(m, room) == if MessageSize(m) <= room then EncodeMessage(m) else []
    ensures Sized(OptsOf(m)) || PayloadBytes(m.payload) == [] || room <= MAX_VALUE ==> !Overruns(m, room)
  {
    hide EncodeOptions, OptionsSize, SortedFrom, PayloadBytes;
    if Sized(OptsOf(m)) {
      MessageSizeCovers(m);
    } else {
      LargeValueShows(0, OptsOf(m));
    }
  }

  // ---------- Print after parse ----------

  // The options and the payload of a datagram that holds its token.
  function Body(b: seq<byte>): seq<byte>
    requires |b| >= 4 && 4 + TokenLength(HeaderAt(b, 0)) <= |b|
  {
    b[4 + TokenLength(HeaderAt(b, 0))..]
  }

  // What the printer could have written after the token: canonical options, and after them not one single byte.
  predicate CanonicalBody(s: seq<byte>) {
    Canonical(0, s) && CountPass(s, Intended).Counted? && |CountPass(s, Intended).rest| != 1
  }

  lemma ParsedParts(b: seq<byte>)
    requires ParseWire(b, 0).Parsed?
    ensures |b| >= 4 && 4 + TokenLength(HeaderAt(b, 0)) <= |b|
    ensures var m := ParseWire(b, 0).msg;
            && b == Network32(m.header) + m.token + Body(b)
            && var (options, rest) := TakeOptions(|b|, Body(b));
            && m.options == options
            && TakePayload(Message(m.header, m.token, options, None), rest, |b|) == ParseWire(b, 0)
  {
    hide TokenLength, TakeOptions, TakePayload;
    NetworkOfLoad32(b[0..4]);
    Rejoin(b, 4, 4 + TokenLength(HeaderAt(b, 0)));
    hide Network32;
    assert b[..4] == b[0..4];
  }

  lemma CanonicalBodyAfterEncode(opts: seq<Opt>, payload: Option<seq<byte>>)
    requires Sorted(opts) && ValuesFit(opts)
    ensures CanonicalBody(EncodeOptions(0, opts) + PayloadBytes(payload))
  {
    hide PayloadBytes, EncodeOptions, SortedFrom, Canonical, CountPass;
    IntendedIsLegible(0, opts);
    EncodingIsCanonical(0, opts, PayloadBytes(payload));
    ReadAfterEncode(0, opts, PayloadBytes(payload), Intended);
  }

  lemma EncodeAfterTake(m: Message, s: seq<byte>, nbytes: nat)
    requires nbytes >= 4 && |s| <= nbytes && CanonicalBody(s)
    requires m.options == TakeOptions(nbytes, s).0
    requires TakePayload(m.(payload := None), TakeOptions(nbytes, s).1, nbytes).Parsed?
    requires TakePayload(m.(payload := None), TakeOptions(nbytes, s).1, nbytes).msg == m
    ensures Sorted(OptsOf(m)) && s == EncodeOptions(0, OptsOf(m)) + PayloadBytes(m.payload)
  {
    hide Canonical, CountPass, ReadPass, SortedFrom, EncodeOptions;
    EncodeAfterRead(0, s);
    TwoPassAgreement(s, 0, Intended);
    CountStopsInside(s, Intended);
    if CountPass(s, Intended).n == 0 {
      NothingCounted(s);
    }
    PayloadAfterTake(m, CountPass(s, Intended).rest, nbytes);
  }

  lemma NothingCounted(s: seq<byte>)
    requires CountPass(s, Intended).Counted? && CountPass(s, Intended).n == 0
    ensures CountPass(s, Intended).rest == s && ReadPass(0, 0, s, Intended) == Read([], s)
  {
  }

  lemma PayloadAfterTake(m: Message, rest: seq<byte>, nbytes: nat)
    requires AtEnd(rest) && |rest| <= nbytes && |rest| != 1
    requires TakePayload(m.(payload := None), rest, nbytes).Parsed?
    requires TakePayload(m.(payload := None), rest, nbytes).msg == m
    ensures PayloadBytes(m.payload) == rest
  {
  }

  lemma ParsedListFits(b: seq<byte>)
    requires ParseMessage(b, 0).Parsed?
    ensures var opts := OptsOf(ParseMessage(b, 0).msg); Sorted(opts) && ValuesFit(opts)
  {
    ParsedFits(b, 0);
    StableSortsTo(ParseWire(b, 0));
    hide ParseWire;
    var w, m := ParseWire(b, 0).msg, ParseMessage(b, 0).msg;
    if w.options.Some? {
      SortingKeepsFit(w.options.value, m.options.value);
    }
  }

  lemma ReprintsCanonical(b: seq<byte>)
    requires ParseMessage(b, 0).Parsed? && |b| >= 4 && 4 + TokenLength(HeaderAt(b, 0)) <= |b|
    requires CanonicalBody(Body(b))
    ensures EncodeMessage(ParseMessage(b, 0).msg) == b
  {
    hide CanonicalBody, TakeOptions, TakePayload, Body, Sorted, TokenLength, EncodeOptions, PayloadBytes, ParseWire;
    ParsedParts(b);
    var w := ParseWire(b, 0).msg;
    EncodeAfterTake(w, Body(b), |b|);
    StableSortKeepsSorted(OptsOf(w));
    var opts, tail := EncodeOptions(0, OptsOf(w)), PayloadBytes(w.payload);
    assert Network32(w.header) + w.token + (opts + tail) == Network32(w.header) + w.token + opts + tail;
  }

  lemma ReprintedIsCanonical(b: seq<byte>)
    requires ParseMessage(b, 0).Parsed? && |b| >= 4 && 4 + TokenLength(HeaderAt(b, 0)) <= |b|
    requires EncodeMessage(ParseMessage(b, 0).msg) == b
    ensures CanonicalBody(Body(b))
  {
    hide CanonicalBody, TakeOptions, TakePayload, Sorted, TokenLength, EncodeOptions, PayloadBytes, ParseWire;
    ParsedParts(b);
    ParsedFits(b, 0);
    ParsedListFits(b);
    var m := ParseMessage(b, 0).msg;
    var opts, tail := EncodeOptions(0, OptsOf(m)), PayloadBytes(m.payload);
    CanonicalBodyAfterEncode(OptsOf(m), m.payload);
    var front := Network32(m.header) + m.token;
    assert b == front + (opts + tail);
    CutPrefix(front, opts + tail);
  }

  /**
   * Print after parse, exactly: an accepted datagram is reproduced byte for byte if and only if its options
   * use no nibble 15, no 16-bit field past 65535 and no option number past 65535, and the options are not
   * followed by exactly one byte.
   */
  lemma DatagramRoundTrip(b: seq<byte>)
    requires ParseMessage(b, 0).Parsed?
    ensures |b| >= 4 && 4 + TokenLength(HeaderAt(b, 0)) <= |b|
    ensures EncodeMessage(ParseMessage(b, 0).msg) == b <==> CanonicalBody(Body(b))
  {
    hide CanonicalBody, Body, EncodeMessage;
    ParsedParts(b);
    if CanonicalBody(Body(b)) {
      ReprintsCanonical(b);
    }
    if EncodeMessage(ParseMessage(b, 0).msg) == b {
      ReprintedIsCanonical(b);
    }
  }

  // The options of a canonical datagram are sorted as they lie, so a stable sort leaves the parse alone.
  lemma CanonicalIsSorted(b: seq<byte>)
    requires ParseMessage(b, 0).Parsed? && |b| >= 4 && 4 + TokenLength(HeaderAt(b, 0)) <= |b|
    requires CanonicalBody(Body(b))
    ensures var w := ParseWire(b, 0);
            ParseMessage(b, 0) == w && Sorted(OptsOf(w.msg)) && Representable(w.msg) && EncodeMessage(w.msg) == b
  {
    hide CanonicalBody, TakeOptions, TakePayload, Body, Sorted, TokenLength, EncodeOptions, PayloadBytes, ParseWire, EncodeMessage;
    ParsedParts(b);
    ParsedFits(b, 0);
    var w := ParseWire(b, 0).msg;
    EncodeAfterTake(w, Body(b), |b|);
    StableSortKeepsSorted(OptsOf(w));
    ReprintsCanonical(b);
  }

  // A list that prints like the one it was sorted from is that list.
  lemma PrintsAlike(m: Message, options: Option<seq<Opt>>)
    requires Sorted(OptsOf(m)) && Representable(m)
    requires options.None? <==> m.options.None?
    requires options.Some? ==> IsSorting(m.options.value, options.value)
    requires EncodeMessage(m.(options := options)) == EncodeMessage(m)
    ensures options == m.options
  {
    hide EncodeMessage, ParseWire, Normal, TokenLength, IsSorting, Sorted, ValuesFit;
    var other := m.(options := options);
    if options.Some? {
      SortingIsSorted(m.options.value, options.value);
      SortingKeepsFit(m.options.value, options.value);
      ParseWireAfterEncode(m);
      ParseWireAfterEncode(other);
      SameNormal(m, options);
    }
  }

  lemma SortingIsSorted(a: seq<Opt>, b: seq<Opt>)
    requires IsSorting(a, b)
    ensures Sorted(b) && multiset(a) == multiset(b) && |a| == |b|
  {
    assert |multiset(a)| == |a| && |multiset(b)| == |b|;
  }

  lemma SameNormal(m: Message, options: Option<seq<Opt>>)
    requires m.options.Some? && options.Some? && |m.options.value| == |options.value|
    requires Normal(m.(options := options)) == Normal(m)
    ensures options == m.options
  {
  }

  /**
   * Print after parse over any qsort, exactly: every sort reproduces an accepted datagram if and only if it is
   * canonical and its options of equal number are equal. One with two different path segments is not always.
   */
  lemma DatagramRoundTripAnySort(b: seq<byte>)
    requires ParseWire(b, 0).Parsed?
    ensures |b| >= 4 && 4 + TokenLength(HeaderAt(b, 0)) <= |b|
    ensures (forall r :: MayParse(b, 0, r) ==> r.Parsed? && EncodeMessage(r.msg) == b)
       <==> CanonicalBody(Body(b)) && NumbersDetermineOptions(OptsOf(ParseWire(b, 0).msg))
  {
    hide ParseWire, EncodeMessage, CanonicalBody, Body, SortsTo, Sorted, IsSorting, NumbersDetermineOptions, TokenLength, HeaderAt,
         Sorting, Representable;
    var w := ParseWire(b, 0);
    StableSortsTo(w);
    DatagramRoundTrip(b);
    assert MayParse(b, 0, ParseMessage(b, 0));
    if CanonicalBody(Body(b)) {
      CanonicalIsSorted(b);
      EverySortReprintsIff(w, b);
      assert forall r :: MayParse(b, 0, r) <==> SortsTo(w, r);
    }
  }

  lemma EverySortReprintsIff(w: Parse, b: seq<byte>)
    requires w.Parsed? && Sorted(OptsOf(w.msg)) && Representable(w.msg) && EncodeMessage(w.msg) == b
    ensures (forall r :: SortsTo(w, r) ==> r.Parsed? && EncodeMessage(r.msg) == b) <==> NumbersDetermineOptions(OptsOf(w.msg))
  {
    var opts := OptsOf(w.msg);
    EverySortKeepsIff(opts);
    hide Sorted, IsSorting, EncodeMessage, NumbersDetermineOptions, Representable;
    if NumbersDetermineOptions(opts) {
      forall r | SortsTo(w, r) ensures r.Parsed? && EncodeMessage(r.msg) == b {
        assert r.msg.options == w.msg.options;
      }
    } else {
      NothingDetermined();
      var c :| IsSorting(opts, c) && c != opts;
      var r := Parsed(w.msg.(options := Some(c)), w.pos);
      assert SortsTo(w, r);
      if EncodeMessage(r.msg) == b {
        PrintsAlike(w.msg, Some(c));
      }
    }
  }

  lemma NothingDetermined()
    ensures NumbersDetermineOptions([])
  {
  }
}
