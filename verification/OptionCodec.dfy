/**
 * The option format of RFC 7252, section 3.1, as mcoap/mc_options_list.c writes and reads it: a header
 * byte with two nibbles, extended integers of 8 or 16 bits, the value; options run to the end of the
 * buffer or to the payload marker. The traversals here are functions of the bytes that remain.
 */
module OptionCodec {
  import opened Bytes

  datatype Opt = Opt(num: u16, value: seq<byte>)

  const MARKER: byte := 0xff
  const MAX_VALUE := 0xffff

  // ---------- Writing ----------

  // The nibble and the extension bytes that stand for an integer.
  function Nibble(v: u16): (r: byte) {
    if v < 13 then v else if v < 269 then 13 else 14
  }

  function Extension(v: u16): seq<byte> {
    if v < 13 then [] else if v < 269 then [v - 13] else Network16(v - 269)
  }

  // The source computes the delta and the length in 16 bits, whatever the list's order or the value's size.
  function Delta(prev: u16, num: u16): u16 {
    (num - prev) % 0x1_0000
  }

  function Length16(value: seq<byte>): u16 {
    |value| % 0x1_0000
  }

  function HeaderByte(delta: u16, len: u16): byte {
    Nibble(delta) * 16 + Nibble(len)
  }

  function EncodeOption(prev: u16, o: Opt): (r: seq<byte>)
    ensures |r| > |o.value|
  {
    var delta, len := Delta(prev, o.num), Length16(o.value);
    [HeaderByte(delta, len)] + Extension(delta) + Extension(len) + o.value
  }

  function EncodeOptions(prev: u16, opts: seq<Opt>): (r: seq<byte>)
    decreases |opts|
  {
    if opts == [] then []
    else EncodeOption(prev, opts[0]) + EncodeOptions(opts[0].num, opts[1..])
  }

  predicate SortedFrom(prev: u16, opts: seq<Opt>)
    decreases |opts|
  {
    opts == [] || (prev <= opts[0].num && SortedFrom(opts[0].num, opts[1..]))
  }

  predicate Sorted(opts: seq<Opt>) {
    SortedFrom(0, opts)
  }

  // ---------- The size pass ----------

  function ExtendedIntSize(v: nat): nat {
    if v < 13 then 1 else if v < 269 then 2 else if v < 65805 then 3 else 0
  }

  // The size pass takes the difference in 32 bits: a descending number becomes a huge delta.
  function OptionSize(o: Opt, prev: u16): nat {
    var delta := (o.num - prev) % 0x1_0000_0000;
    ExtendedIntSize(delta) + ExtendedIntSize(|o.value|) + |o.value| - 1
  }

  function OptionsSize(prev: u16, opts: seq<Opt>): nat
    decreases |opts|
  {
    if opts == [] then 0
    else OptionSize(opts[0], prev) + OptionsSize(opts[0].num, opts[1..])
  }

  // ---------- Reading ----------

  /**
   * How one 16-bit extension is read: as it is meant, like mc_buffer_next_uint32 reads four bytes, or as
   * mc_buffer_next_uint16 stands. Its copy runs from the uninitialised result into the buffer: it returns
   * whatever that variable held, and the bytes on the wire are never looked at.
   */
  datatype Read16 = AsMeant | Junk(value: u16)

  // How a whole pass reads them. What the variable holds may differ from read to read; the reads of a pass are
  // told apart by how many bytes are left at each.
  datatype Reader = Intended | AsWritten(junk: nat -> u16)

  function Read16At(mode: Reader, left: nat): Read16 {
    if mode.Intended? then AsMeant else Junk(mode.junk(left))
  }

  function ExtensionLength(nibble: nat): nat {
    if nibble == 13 then 1 else if nibble == 14 then 2 else 0
  }

  // Nibble 15 is passed through as the value 15, and 16-bit sums wrap.
  function FieldValue(nibble: byte, ext: seq<byte>, how: Read16): u16
    requires |ext| == ExtensionLength(nibble)
  {
    if nibble == 13 then ext[0] as int + 13
    else if nibble == 14 then
      match how
      case AsMeant => (SwapU16(Load16(ext)) + 269) % 0x1_0000
      case Junk(value) => (SwapU16(value) + 269) % 0x1_0000
    else nibble
  }

  // Where the two extensions of the option at the front of s end.
  function DeltaEnd(s: seq<byte>): nat
    requires |s| >= 1
  {
    1 + ExtensionLength(s[0] / 16)
  }

  function LengthEnd(s: seq<byte>): nat
    requires |s| >= 1
  {
    DeltaEnd(s) + ExtensionLength(s[0] % 16)
  }

  // One option cut from the front of s, if all of it is there.
  datatype Scan = Overrun | Scanned(delta: u16, value: seq<byte>, rest: seq<byte>)

  function ScanOption(s: seq<byte>, mode: Reader): (r: Scan)
    requires |s| >= 1
    ensures r.Scanned? ==> |r.rest| < |s|
  {
    var dEnd, lEnd := DeltaEnd(s), LengthEnd(s);
    if |s| < lEnd then Overrun
    else
      var len := FieldValue(s[0] % 16, s[dEnd..lEnd], Read16At(mode, |s| - dEnd));
      if |s| < lEnd + len then Overrun
      else Scanned(FieldValue(s[0] / 16, s[1..dEnd], Read16At(mode, |s| - 1)), s[lEnd..lEnd + len], s[lEnd + len..])
  }

  predicate AtEnd(s: seq<byte>) {
    s == [] || s[0] == MARKER
  }

  // The counting pass: how many options precede the marker or the end, and what follows them.
  datatype Tally = Broken | Counted(n: nat, rest: seq<byte>)

  function CountPass(s: seq<byte>, mode: Reader): (r: Tally)
    decreases |s|
  {
    if AtEnd(s) then Counted(0, s)
    else
      match ScanOption(s, mode)
      case Overrun => Broken
      case Scanned(_, _, rest) =>
        match CountPass(rest, mode)
        case Broken => Broken
        case Counted(n, tail) => Counted(n + 1, tail)
  }

  function NextNum(prev: u16, delta: u16): u16 {
    (prev + delta) % 0x1_0000
  }

  // The reading pass: n options, one after the other, with no check of its own for marker or end.
  datatype Reading = OutOfBounds | Read(opts: seq<Opt>, rest: seq<byte>)

  function ReadPass(n: nat, prev: u16, s: seq<byte>, mode: Reader): (r: Reading) {
    if n == 0 then Read([], s)
    else if s == [] then OutOfBounds
    else
      match ScanOption(s, mode)
      case Overrun => OutOfBounds
      case Scanned(delta, value, rest) =>
        var o := Opt(NextNum(prev, delta), value);
        match ReadPass(n - 1, o.num, rest, mode)
        case OutOfBounds => OutOfBounds
        case Read(opts, tail) => Read([o] + opts, tail)
  }

  // ---------- Two passes, one answer ----------

  // One step of both passes.
  lemma UnfoldPasses(s: seq<byte>, prev: u16, mode: Reader, n: nat)
    requires !AtEnd(s) && ScanOption(s, mode).Scanned?
    ensures var sc := ScanOption(s, mode);
            var t, r := CountPass(sc.rest, mode), ReadPass(n, NextNum(prev, sc.delta), sc.rest, mode);
            && CountPass(s, mode) == (if t.Broken? then Broken else Counted(t.n + 1, t.rest))
            && ReadPass(n + 1, prev, s, mode)
               == (if r.Read? then Read([Opt(NextNum(prev, sc.delta), sc.value)] + r.opts, r.rest) else OutOfBounds)
  {
    hide ScanOption, NextNum;
  }

  lemma {:induction false} CountStopsInside(s: seq<byte>, mode: Reader)
    requires CountPass(s, mode).Counted?
    ensures var rest := CountPass(s, mode).rest; AtEnd(rest) && |rest| <= |s| && s[|s| - |rest|..] == rest
    decreases |s|
  {
    hide ScanOption;
    if !AtEnd(s) {
      ScanIsSuffix(s, mode);
      var sc := ScanOption(s, mode);
      CountStopsInside(sc.rest, mode);
      var rest := CountPass(sc.rest, mode).rest;
      SuffixOfSuffix(s, |s| - |sc.rest|, |sc.rest| - |rest|);
    }
  }

  lemma ScanIsSuffix(s: seq<byte>, mode: Reader)
    requires |s| >= 1 && ScanOption(s, mode).Scanned?
    ensures ScanOption(s, mode).rest == s[|s| - |ScanOption(s, mode).rest|..]
  {
  }

  /**
   * Whatever the bytes: n options counted are n options read, all of them inside the buffer, and the
   * reading stops where the counting stopped, at the end or just before a marker byte.
   */
  lemma {:induction false} TwoPassAgreement(s: seq<byte>, prev: u16, mode: Reader)
    requires CountPass(s, mode).Counted?
    ensures var t := CountPass(s, mode);
            var r := ReadPass(t.n, prev, s, mode);
            r.Read? && |r.opts| == t.n && r.rest == t.rest && AtEnd(r.rest)
    decreases |s|
  {
    hide ScanOption, NextNum;
    if !AtEnd(s) {
      var sc := ScanOption(s, mode);
      var num := NextNum(prev, sc.delta);
      TwoPassAgreement(sc.rest, num, mode);
      UnfoldPasses(s, prev, mode, CountPass(sc.rest, mode).n);
    }
  }

  /** Every option read has a 16-bit length: values longer than that cannot come off the wire. */
  lemma {:induction false} ReadValuesFit(n: nat, prev: u16, s: seq<byte>, mode: Reader)
    requires ReadPass(n, prev, s, mode).Read?
    ensures |ReadPass(n, prev, s, mode).opts| == n
    ensures forall o | o in ReadPass(n, prev, s, mode).opts :: |o.value| <= MAX_VALUE
  {
    if n > 0 {
      var sc := ScanOption(s, mode);
      ReadValuesFit(n - 1, NextNum(prev, sc.delta), sc.rest, mode);
    }
  }

  // ---------- Parse after print ----------

  /** The integer coding inverts, and never uses nibble 15. */
  lemma FieldRoundTrip(v: u16)
    ensures Nibble(v) <= 14 && |Extension(v)| == ExtensionLength(Nibble(v))
    ensures FieldValue(Nibble(v), Extension(v), AsMeant) == v
    ensures v < 269 ==> forall how :: FieldValue(Nibble(v), Extension(v), how) == v
  {
    if v >= 269 {
      SwapIsNetworkOrder16(v - 269);
    }
  }

  lemma HeaderNibbles(delta: u16, len: u16)
    ensures HeaderByte(delta, len) / 16 == Nibble(delta) && HeaderByte(delta, len) % 16 == Nibble(len)
  {
  }

  /** No header byte the encoder emits can be taken for the payload marker. */
  lemma MarkerUnambiguous(prev: u16, o: Opt, tail: seq<byte>)
    ensures EncodeOption(prev, o)[0] / 16 <= 14 && EncodeOption(prev, o)[0] % 16 <= 14
    ensures !AtEnd(EncodeOption(prev, o) + tail)
  {
    FieldRoundTrip(Delta(prev, o.num));
    FieldRoundTrip(Length16(o.value));
    HeaderNibbles(Delta(prev, o.num), Length16(o.value));
  }

  // The fields of an encoded option that the given reader gets right.
  predicate Legible(prev: u16, o: Opt, mode: Reader) {
    mode.Intended? || (Delta(prev, o.num) < 269 && |o.value| < 269)
  }

  // The five parts of an option in front of a tail, as the scanner cuts them.
  lemma Layout(h: byte, dExt: seq<byte>, lExt: seq<byte>, value: seq<byte>, tail: seq<byte>)
    ensures var s := [h] + dExt + lExt + value + tail;
            var lEnd := 1 + |dExt| + |lExt|;
            && s[0] == h && s[1..1 + |dExt|] == dExt && s[1 + |dExt|..lEnd] == lExt
            && s[lEnd..lEnd + |value|] == value && s[lEnd + |value|..] == tail
  {
  }

  // What the scanner makes of the parts of an option laid out one behind the other.
  lemma ScanLaidOut(h: byte, dExt: seq<byte>, lExt: seq<byte>, value: seq<byte>, tail: seq<byte>, mode: Reader)
    requires |dExt| == ExtensionLength(h / 16) && |lExt| == ExtensionLength(h % 16)
    requires var left := |lExt| + |value| + |tail|; FieldValue(h % 16, lExt, Read16At(mode, left)) == |value|
    ensures var left := |dExt| + |lExt| + |value| + |tail|;
            ScanOption([h] + dExt + lExt + value + tail, mode)
            == Scanned(FieldValue(h / 16, dExt, Read16At(mode, left)), value, tail)
  {
    Layout(h, dExt, lExt, value, tail);
    hide FieldValue, ExtensionLength, Read16At;
    var s := [h] + dExt + lExt + value + tail;
    assert |s| == 1 + |dExt| + |lExt| + |value| + |tail|;
  }

  /** One option written and scanned, whatever follows it. */
  lemma ScanAfterEncode(prev: u16, o: Opt, tail: seq<byte>, mode: Reader)
    requires |o.value| <= MAX_VALUE && Legible(prev, o, mode)
    ensures ScanOption(EncodeOption(prev, o) + tail, mode) == Scanned(Delta(prev, o.num), o.value, tail)
    ensures NextNum(prev, Delta(prev, o.num)) == o.num
  {
    var delta, len := Delta(prev, o.num), Length16(o.value);
    FieldRoundTrip(delta);
    FieldRoundTrip(len);
    HeaderNibbles(delta, len);
    hide Extension, Nibble, HeaderByte, FieldValue, ScanOption, ExtensionLength;
    ScanLaidOut(HeaderByte(delta, len), Extension(delta), Extension(len), o.value, tail, mode);
  }

  // An option in front of an encoded list is the encoding of the longer list.
  lemma Prepend(prev: u16, o: Opt, opts: seq<Opt>, rest: seq<byte>)
    ensures EncodeOption(prev, o) + (EncodeOptions(o.num, opts) + rest) == EncodeOptions(prev, [o] + opts) + rest
    ensures SortedFrom(prev, [o] + opts) <==> prev <= o.num && SortedFrom(o.num, opts)
  {
    hide EncodeOption;
    assert ([o] + opts)[1..] == opts;
    assert EncodeOptions(prev, [o] + opts) == EncodeOption(prev, o) + EncodeOptions(o.num, opts);
  }

  predicate AllLegible(prev: u16, opts: seq<Opt>, mode: Reader)
    decreases |opts|
  {
    opts == [] || (Legible(prev, opts[0], mode) && AllLegible(opts[0].num, opts[1..], mode))
  }

  predicate ValuesFit(opts: seq<Opt>) {
    forall o | o in opts :: |o.value| <= MAX_VALUE
  }

  /**
   * A printed list reads back as itself, in order, and both passes stop exactly where the list ends, be
   * it the end of the buffer or a real marker, even when values or the tail contain 0xff.
   */
  lemma {:induction false} ReadAfterEncode(prev: u16, opts: seq<Opt>, tail: seq<byte>, mode: Reader)
    requires ValuesFit(opts) && AllLegible(prev, opts, mode) && AtEnd(tail)
    ensures CountPass(EncodeOptions(prev, opts) + tail, mode) == Counted(|opts|, tail)
    ensures ReadPass(|opts|, prev, EncodeOptions(prev, opts) + tail, mode) == Read(opts, tail)
    decreases |opts|
  {
    if opts == [] {
      assert EncodeOptions(prev, opts) + tail == tail;
      return;
    }
    var o, rest := opts[0], opts[1..];
    var more := EncodeOptions(o.num, rest) + tail;
    assert [o] + rest == opts && ValuesFit(rest);
    assert Legible(prev, o, mode) && AllLegible(o.num, rest, mode);
    hide *;
    ReadAfterEncode(o.num, rest, tail, mode);
    Prepend(prev, o, rest, tail);
    MarkerUnambiguous(prev, o, more);
    ScanAfterEncode(prev, o, more, mode);
    UnfoldPasses(EncodeOption(prev, o) + more, prev, mode, |rest|);
  }

  // ---------- Print after parse ----------

  // The byte strings the encoder could have written: no nibble 15, no 16-bit field past 65535, and
  // option numbers that do not wrap.
  predicate CanonicalField(nibble: byte, ext: seq<byte>)
    requires |ext| == ExtensionLength(nibble)
  {
    nibble <= 14 && (nibble == 14 ==> SwapU16(Load16(ext)) + 269 <= 0xffff)
  }

  predicate CanonicalHeader(s: seq<byte>)
    requires |s| >= 1 && |s| >= LengthEnd(s)
  {
    && CanonicalField(s[0] / 16, s[1..DeltaEnd(s)])
    && CanonicalField(s[0] % 16, s[DeltaEnd(s)..LengthEnd(s)])
  }

  predicate Canonical(prev: u16, s: seq<byte>)
    decreases |s|
  {
    AtEnd(s) ||
    match ScanOption(s, Intended)
    case Overrun => false
    case Scanned(delta, _, rest) => CanonicalHeader(s) && prev + delta <= 0xffff && Canonical(prev + delta, rest)
  }

  /** The integer coding is onto the canonical fields: decoding and coding again gives the same bytes. */
  lemma FieldIsBijective(nibble: byte, ext: seq<byte>)
    requires nibble <= 15 && |ext| == ExtensionLength(nibble)
    ensures var v := FieldValue(nibble, ext, AsMeant);
            CanonicalField(nibble, ext) <==> Nibble(v) == nibble && Extension(v) == ext
  {
    if nibble == 14 {
      WideIsBijective(ext);
    } else if nibble == 13 {
      assert ext == [ext[0]];
    } else if nibble < 13 {
      assert ext == [];
    }
  }

  lemma WideIsBijective(ext: seq<byte>)
    requires |ext| == 2
    ensures var v := FieldValue(14, ext, AsMeant);
            CanonicalField(14, ext) <==> Nibble(v) == 14 && Extension(v) == ext
  {
    var w: int := SwapU16(Load16(ext));
    WideValue(ext);
    var v := FieldValue(14, ext, AsMeant);
    assert v == (w + 269) % 0x1_0000;
    hide SwapU16, Load16, Network16;
    if w + 269 > 0xffff {
      assert v < 269;
    } else {
      assert v == w + 269;
    }
  }

  lemma WideValue(ext: seq<byte>)
    requires |ext| == 2
    ensures Network16(SwapU16(Load16(ext))) == ext
  {
    var a, b := ext[0], ext[1];
    var l: u16 := a as int + 256 * b as int;
    assert l % 256 == a && l / 256 == b;
    var w: u16 := b as int + 256 * a as int;
    assert w % 256 == b && w / 256 == a;
    assert ext == [a, b];
  }

  lemma AscendingDelta(prev: u16, num: u16)
    requires prev <= num
    ensures Delta(prev, num) == num - prev && NextNum(prev, num - prev) == num
  {
  }

  // The header byte and the two extensions of a canonical option come back from its two numbers.
  lemma HeaderAfterScan(s: seq<byte>)
    requires |s| >= 1 && |s| >= LengthEnd(s) && CanonicalHeader(s)
    ensures var delta := FieldValue(s[0] / 16, s[1..DeltaEnd(s)], AsMeant);
            var len := FieldValue(s[0] % 16, s[DeltaEnd(s)..LengthEnd(s)], AsMeant);
            s[..LengthEnd(s)] == [HeaderByte(delta, len)] + Extension(delta) + Extension(len)
  {
    hide Nibble, Extension, FieldValue;
    FieldIsBijective(s[0] / 16, s[1..DeltaEnd(s)]);
    FieldIsBijective(s[0] % 16, s[DeltaEnd(s)..LengthEnd(s)]);
    assert s[0] == (s[0] / 16) * 16 + s[0] % 16;
    assert s[..LengthEnd(s)] == [s[0]] + s[1..DeltaEnd(s)] + s[DeltaEnd(s)..LengthEnd(s)];
  }

  /** What was scanned, written again. */
  lemma EncodeAfterScan(prev: u16, s: seq<byte>)
    requires |s| >= 1 && ScanOption(s, Intended).Scanned? && CanonicalHeader(s)
    requires prev + ScanOption(s, Intended).delta <= 0xffff
    ensures var sc := ScanOption(s, Intended);
            s == EncodeOption(prev, Opt(prev + sc.delta, sc.value)) + sc.rest
  {
    HeaderAfterScan(s);
    hide CanonicalHeader, Nibble, Extension, FieldValue, HeaderByte, LengthEnd, DeltaEnd, Delta;
    var sc := ScanOption(s, Intended);
    var lEnd := LengthEnd(s);
    AscendingDelta(prev, prev + sc.delta);
    Rejoin(s, lEnd, lEnd + |sc.value|);
  }

  /** A canonical byte string is the encoding of the sorted list it parses to, followed by what comes after. */
  lemma {:induction false} EncodeAfterRead(prev: u16, s: seq<byte>)
    requires Canonical(prev, s)
    ensures CountPass(s, Intended).Counted?
    ensures var t := CountPass(s, Intended);
            var r := ReadPass(t.n, prev, s, Intended);
            r.Read? && s == EncodeOptions(prev, r.opts) + r.rest && SortedFrom(prev, r.opts)
    decreases |s|
  {
    if AtEnd(s) {
      assert s == EncodeOptions(prev, []) + s;
    } else {
      UnfoldCanonical(prev, s);
      var sc := ScanOption(s, Intended);
      EncodeAfterRead(prev + sc.delta, sc.rest);
      EncodeAfterReadStep(prev, s);
    }
  }

  lemma EncodeAfterReadStep(prev: u16, s: seq<byte>)
    requires Canonical(prev, s) && !AtEnd(s)
    requires var sc := ScanOption(s, Intended);
             && sc.Scanned? && prev + sc.delta <= 0xffff && CountPass(sc.rest, Intended).Counted?
             && var r := ReadPass(CountPass(sc.rest, Intended).n, prev + sc.delta, sc.rest, Intended);
             r.Read? && sc.rest == EncodeOptions(prev + sc.delta, r.opts) + r.rest && SortedFrom(prev + sc.delta, r.opts)
    ensures CountPass(s, Intended).Counted?
    ensures var r := ReadPass(CountPass(s, Intended).n, prev, s, Intended);
            r.Read? && s == EncodeOptions(prev, r.opts) + r.rest && SortedFrom(prev, r.opts)
  {
    hide *;
    UnfoldCanonical(prev, s);
    var sc := ScanOption(s, Intended);
    var o := Opt(prev + sc.delta, sc.value);
    EncodeAfterScan(prev, s);
    UnfoldPasses(s, prev, Intended, CountPass(sc.rest, Intended).n);
    var r := ReadPass(CountPass(sc.rest, Intended).n, o.num, sc.rest, Intended);
    Prepend(prev, o, r.opts, r.rest);
  }

  lemma UnfoldCanonical(prev: u16, s: seq<byte>)
    requires Canonical(prev, s) && !AtEnd(s)
    ensures |s| >= 1 && |s| >= LengthEnd(s) && CanonicalHeader(s)
    ensures var sc := ScanOption(s, Intended);
            && sc.Scanned? && |sc.rest| < |s| && prev + sc.delta <= 0xffff && Canonical(prev + sc.delta, sc.rest)
            && NextNum(prev, sc.delta) == prev + sc.delta
  {
    hide CanonicalHeader, FieldValue;
  }

  lemma EncodedHeader(prev: u16, o: Opt, tail: seq<byte>)
    requires |o.value| <= MAX_VALUE
    ensures var s := EncodeOption(prev, o) + tail; |s| >= LengthEnd(s) && CanonicalHeader(s)
  {
    var delta, len := Delta(prev, o.num), Length16(o.value);
    FieldRoundTrip(delta);
    FieldRoundTrip(len);
    HeaderNibbles(delta, len);
    Layout(HeaderByte(delta, len), Extension(delta), Extension(len), o.value, tail);
    FieldIsBijective(Nibble(delta), Extension(delta));
    FieldIsBijective(Nibble(len), Extension(len));
    hide Extension, Nibble, HeaderByte, FieldValue, CanonicalField;
  }

  /** And conversely everything the encoder writes for a sorted list is canonical. */
  lemma {:induction false} EncodingIsCanonical(prev: u16, opts: seq<Opt>, tail: seq<byte>)
    requires SortedFrom(prev, opts) && ValuesFit(opts) && AtEnd(tail)
    ensures Canonical(prev, EncodeOptions(prev, opts) + tail)
    decreases |opts|
  {
    if opts == [] {
      assert EncodeOptions(prev, opts) + tail == tail;
      return;
    }
    var o, rest := opts[0], opts[1..];
    var more := EncodeOptions(o.num, rest) + tail;
    assert [o] + rest == opts && ValuesFit(rest) && prev <= o.num && SortedFrom(o.num, rest);
    EncodingIsCanonical(o.num, rest, tail);
    Prepend(prev, o, rest, tail);
    CanonicalStep(prev, o, more);
  }

  lemma CanonicalStep(prev: u16, o: Opt, tail: seq<byte>)
    requires prev <= o.num && |o.value| <= MAX_VALUE && Canonical(o.num, tail)
    ensures Canonical(prev, EncodeOption(prev, o) + tail)
  {
    ScanAfterEncode(prev, o, tail, Intended);
    EncodedHeader(prev, o, tail);
    AscendingDelta(prev, o.num);
    hide ScanOption, CanonicalHeader, EncodeOption, Delta;
  }

  // ---------- The size pass agrees ----------

  // Per option: exact when the number does not descend; short of the bytes written when it does.
  lemma OptionSizeIff(prev: u16, o: Opt)
    requires |o.value| <= MAX_VALUE
    ensures OptionSize(o, prev) <= |EncodeOption(prev, o)|
    ensures OptionSize(o, prev) == |EncodeOption(prev, o)| <==> prev <= o.num
  {
    assert Length16(o.value) == |o.value|;
    if prev <= o.num {
      AscendingDelta(prev, o.num);
    }
  }

  /**
   * The size pass computes exactly the bytes the encoder writes if and only if the list is sorted; for an
   * unsorted list it promises too few.
   */
  lemma {:induction false} SizeExactIffSorted(prev: u16, opts: seq<Opt>)
    requires ValuesFit(opts)
    ensures OptionsSize(prev, opts) <= |EncodeOptions(prev, opts)|
    ensures OptionsSize(prev, opts) == |EncodeOptions(prev, opts)| <==> SortedFrom(prev, opts)
    decreases |opts|
  {
    hide OptionSize, EncodeOption;
    if opts != [] {
      OptionSizeIff(prev, opts[0]);
      SizeExactIffSorted(opts[0].num, opts[1..]);
    }
  }

  // The largest value the size pass knows a length field for.
  const MAX_SIZED_VALUE := 65804

  predicate Sized(opts: seq<Opt>) {
    forall o | o in opts :: |o.value| <= MAX_SIZED_VALUE
  }

  /** The size pass reserves enough for an option exactly when it knows a length field for its value. */
  lemma OptionSizeCovers(prev: u16, o: Opt)
    requires prev <= o.num
    ensures OptionSize(o, prev) >= |EncodeOption(prev, o)| <==> |o.value| <= MAX_SIZED_VALUE
    ensures OptionSize(o, prev) == |EncodeOption(prev, o)| <==> |o.value| <= MAX_VALUE
    ensures OptionSize(o, prev) >= |o.value|
  {
    AscendingDelta(prev, o.num);
    OptionLength(prev, o);
    LengthField(|o.value|);
    assert (o.num - prev) % 0x1_0000_0000 == o.num - prev;
    hide EncodeOption, Delta;
  }

  lemma OptionLength(prev: u16, o: Opt)
    ensures |EncodeOption(prev, o)| == |Extension(Delta(prev, o.num))| + |Extension(Length16(o.value))| + 1 + |o.value|
    ensures |Extension(Delta(prev, o.num))| + 1 == ExtendedIntSize(Delta(prev, o.num))
  {
    ExtensionSize(Delta(prev, o.num));
    hide Extension, Delta, ExtendedIntSize;
  }

  lemma ExtensionSize(v: u16)
    ensures |Extension(v)| + 1 == ExtendedIntSize(v) >= 1
  {
  }

  // The length field that is reserved, against the one that is written for the length modulo 2^16.
  lemma LengthField(n: nat)
    ensures n <= MAX_VALUE ==> ExtendedIntSize(n) == |Extension(n % 0x1_0000)| + 1
    ensures MAX_VALUE < n <= MAX_SIZED_VALUE ==> ExtendedIntSize(n) > |Extension(n % 0x1_0000)| + 1
    ensures n > MAX_SIZED_VALUE ==> ExtendedIntSize(n) == 0
  {
    if n <= MAX_VALUE {
      assert n % 0x1_0000 == n;
      ExtensionSize(n);
    } else if n <= MAX_SIZED_VALUE {
      assert n % 0x1_0000 == n - 0x1_0000;
      ExtensionSize(n - 0x1_0000);
    }
    hide Extension;
  }

  /**
   * Between 65536 and 65804 bytes the size pass reserves a length field that the encoder, which truncates
   * the length to 16 bits, does not fill: never too little, and exact only without such values.
   */
  lemma {:induction false} SizeCovers(prev: u16, opts: seq<Opt>)
    requires SortedFrom(prev, opts) && Sized(opts)
    ensures OptionsSize(prev, opts) >= |EncodeOptions(prev, opts)|
    ensures OptionsSize(prev, opts) == |EncodeOptions(prev, opts)| <==> ValuesFit(opts)
    decreases |opts|
  {
    hide OptionSize, EncodeOption;
    if opts != [] {
      OptionSizeCovers(prev, opts[0]);
      SizeCovers(opts[0].num, opts[1..]);
      assert opts == [opts[0]] + opts[1..];
    }
  }

  lemma {:induction false} LargeValueShows(prev: u16, opts: seq<Opt>)
    requires SortedFrom(prev, opts) && !Sized(opts)
    ensures OptionsSize(prev, opts) > MAX_SIZED_VALUE
    decreases |opts|
  {
    hide OptionSize;
    assert opts == [opts[0]] + opts[1..];
    OptionSizeCovers(prev, opts[0]);
    if |opts[0].value| <= MAX_SIZED_VALUE {
      LargeValueShows(opts[0].num, opts[1..]);
    }
  }
}
