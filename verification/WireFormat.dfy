/**
 * What the bytes of a datagram mean, after the figures of sections 3 and 3.1 of RFC 7252: an account in plain numbers,
 * against which parsing and printing are held.
 */
module WireFormat {
  import opened Bytes
  import opened OptionCodec
  import opened MessageCodec
  import Header

  // ---------- Options ----------

  // A field of an option: the bytes its nibble asks for, and its value, big end first. The source passes a nibble 15
  // through and adds in 16 bits.
  function ExtendedBy(nibble: nat): nat {
    if nibble == 13 then 1 else if nibble == 14 then 2 else 0
  }

  function Amount(nibble: nat, s: seq<byte>): nat
    requires |s| >= ExtendedBy(nibble)
  {
    if nibble == 13 then s[0] + 13
    else if nibble == 14 then (256 * s[0] as int + s[1] as int + 269) % 65536
    else nibble
  }

  // The option at the front of s: where its value begins, its two fields, where it ends, and whether all of it is there.
  function ValueAt(s: seq<byte>): nat
    requires s != []
  {
    1 + ExtendedBy(s[0] / 16) + ExtendedBy(s[0] % 16)
  }

  function DeltaIn(s: seq<byte>): nat
    requires s != [] && |s| >= ValueAt(s)
  {
    Amount(s[0] / 16, s[1..])
  }

  function LengthIn(s: seq<byte>): nat
    requires s != [] && |s| >= ValueAt(s)
  {
    Amount(s[0] % 16, s[1 + ExtendedBy(s[0] / 16)..])
  }

  predicate Whole(s: seq<byte>) {
    s != [] && |s| >= ValueAt(s) && |s| >= ValueAt(s) + LengthIn(s)
  }

  function EndOf(s: seq<byte>): nat
    requires Whole(s)
  {
    ValueAt(s) + LengthIn(s)
  }

  // Whole options, one behind the other, to the end or to a byte 255.
  predicate AllWhole(s: seq<byte>)
    decreases |s|
  {
    s == [] || s[0] == 255 || (Whole(s) && AllWhole(s[EndOf(s)..]))
  }

  // Them, and what is behind them. An option's number is the one before it and its delta.
  function OptionsIn(prev: nat, s: seq<byte>): seq<Opt>
    requires AllWhole(s)
    decreases |s|
  {
    if s == [] || s[0] == 255 then []
    else
      var num := (prev + DeltaIn(s)) % 65536;
      [Opt(num, s[ValueAt(s)..EndOf(s)])] + OptionsIn(num, s[EndOf(s)..])
  }

  function Behind(s: seq<byte>): seq<byte>
    requires AllWhole(s)
    decreases |s|
  {
    if s == [] || s[0] == 255 then s else Behind(s[EndOf(s)..])
  }

  // ---------- Options are read so ----------

  lemma FieldIsAmount(nibble: byte, s: seq<byte>, at: nat)
    requires nibble <= 15 && at + ExtendedBy(nibble) <= |s|
    ensures ExtendedBy(nibble) == ExtensionLength(nibble)
    ensures FieldValue(nibble, s[at..at + ExtendedBy(nibble)], AsMeant) == Amount(nibble, s[at..])
  {
    if nibble == 14 {
      var a, b := s[at], s[at + 1];
      assert s[at..at + 2] == [a, b] && s[at..][0] == a && s[at..][1] == b;
      SwappedLoad(a, b);
    }
  }

  lemma SwappedLoad(a: byte, b: byte)
    ensures SwapU16(Load16([a, b])) == 256 * a as int + b as int
  {
    var l: u16 := a as int + 256 * b as int;
    assert l % 256 == a && l / 256 == b;
  }

  /** Cutting one option off is reading it so. */
  lemma ScanIsWire(s: seq<byte>)
    requires s != []
    ensures ScanOption(s, Intended).Scanned? <==> Whole(s)
    ensures Whole(s) ==>
              DeltaIn(s) < 65536 && ScanOption(s, Intended) == Scanned(DeltaIn(s), s[ValueAt(s)..EndOf(s)], s[EndOf(s)..])
  {
    var d, l := s[0] / 16, s[0] % 16;
    assert DeltaEnd(s) == 1 + ExtendedBy(d) && LengthEnd(s) == ValueAt(s);
    if |s| >= ValueAt(s) {
      FieldIsAmount(d, s, 1);
      FieldIsAmount(l, s, 1 + ExtendedBy(d));
      hide FieldValue, Amount, ExtendedBy, ExtensionLength;
    }
  }

  lemma OptionsOnward(s: seq<byte>, prev: u16)
    requires s != [] && s[0] != 255 && Whole(s)
    ensures |s[EndOf(s)..]| < |s| && (AllWhole(s) <==> AllWhole(s[EndOf(s)..]))
    ensures AllWhole(s) ==>
              var num, rest := (prev + DeltaIn(s)) % 65536, s[EndOf(s)..];
              && OptionsIn(prev, s) == [Opt(num, s[ValueAt(s)..EndOf(s)])] + OptionsIn(num, rest) && Behind(s) == Behind(rest)
  {
    hide DeltaIn, LengthIn;
  }

  lemma PassesStep(s: seq<byte>, prev: u16)
    requires s != [] && s[0] != 255 && Whole(s)
    requires var num, rest := (prev + DeltaIn(s)) % 65536, s[EndOf(s)..];
             && (CountPass(rest, Intended).Counted? <==> AllWhole(rest))
             && (AllWhole(rest) ==>
                   && CountPass(rest, Intended) == Counted(|OptionsIn(num, rest)|, Behind(rest))
                   && ReadPass(|OptionsIn(num, rest)|, num, rest, Intended) == Read(OptionsIn(num, rest), Behind(rest)))
    ensures CountPass(s, Intended).Counted? <==> AllWhole(s)
    ensures AllWhole(s) ==>
              && CountPass(s, Intended) == Counted(|OptionsIn(prev, s)|, Behind(s))
              && ReadPass(|OptionsIn(prev, s)|, prev, s, Intended) == Read(OptionsIn(prev, s), Behind(s))
  {
    ScanIsWire(s);
    OptionsOnward(s, prev);
    assert !AtEnd(s);
    assert NextNum(prev, DeltaIn(s)) == (prev + DeltaIn(s)) % 65536;
    hide ScanOption, DeltaIn, LengthIn, Whole, EndOf, ValueAt, AllWhole, OptionsIn, Behind, CountPass, ReadPass, NextNum;
    var rest := s[EndOf(s)..];
    UnfoldPasses(s, prev, Intended, if AllWhole(rest) then |OptionsIn((prev + DeltaIn(s)) % 65536, rest)| else 0);
  }

  /** Counting succeeds exactly on whole options; reading then gives what they say, and both stop behind them. */
  lemma {:induction false} PassesAreWire(s: seq<byte>, prev: u16)
    ensures CountPass(s, Intended).Counted? <==> AllWhole(s)
    ensures AllWhole(s) ==>
              && CountPass(s, Intended) == Counted(|OptionsIn(prev, s)|, Behind(s))
              && ReadPass(|OptionsIn(prev, s)|, prev, s, Intended) == Read(OptionsIn(prev, s), Behind(s))
    decreases |s|
  {
    if s != [] && s[0] != 255 {
      ScanIsWire(s);
      if Whole(s) {
        PassesAreWire(s[EndOf(s)..], (prev + DeltaIn(s)) % 65536);
        OptionsOnward(s, prev);
        hide *;
        PassesStep(s, prev);
      } else {
        hide DeltaIn, EndOf, ValueAt, Whole;
      }
    }
  }

  lemma {:induction false} BehindOptions(s: seq<byte>)
    requires AllWhole(s)
    ensures var r := Behind(s); |r| <= |s| && s[|s| - |r|..] == r && (r == [] || r[0] == 255)
    decreases |s|
  {
    hide LengthIn;
    if s != [] && s[0] != 255 {
      BehindOptions(s[EndOf(s)..]);
      SuffixOfSuffix(s, EndOf(s), |s[EndOf(s)..]| - |Behind(s)|);
    }
  }

  // ---------- Datagrams ----------

  lemma HeaderBytes(b: seq<byte>, pos: nat)
    requires pos + 4 <= |b|
    ensures Header.ShownBy(HeaderAt(b, pos), b[pos], b[pos + 1], b[pos + 2], b[pos + 3])
    ensures TokenLength(HeaderAt(b, pos)) == b[pos] % 16
  {
    assert b[pos..pos + 4] == [b[pos], b[pos + 1], b[pos + 2], b[pos + 3]];
    DigitsOf(b[pos], b[pos + 1], b[pos + 2], b[pos + 3]);
    Header.ShownByIff(HeaderAt(b, pos), b[pos], b[pos + 1], b[pos + 2], b[pos + 3]);
    hide SwapU32;
  }

  // Where the options of the message at pos begin: the header is followed by as many bytes as its low nibble says.
  function OptionsAt(b: seq<byte>, pos: nat): nat
    requires pos + 4 <= |b|
  {
    pos + 4 + b[pos] % 16
  }

  // Header and token are there; behind them there are whole options, to the end or to a byte 255, or there is at most
  // one byte, whatever it is.
  predicate Accepted(b: seq<byte>, pos: nat) {
    pos + 4 <= |b| && OptionsAt(b, pos) <= |b| && (|b| - OptionsAt(b, pos) <= 1 || AllWhole(b[OptionsAt(b, pos)..]))
  }

  // What is in them. Options that are not all there count for nothing.
  function OptionsOn(s: seq<byte>): (Option<seq<Opt>>, seq<byte>) {
    if !AllWhole(s) then (None, s)
    else (if OptionsIn(0, s) == [] then None else Some(OptionsIn(0, s)), Behind(s))
  }

  lemma TakeIsWire(nbytes: nat, s: seq<byte>)
    requires nbytes >= 4
    ensures TakeOptions(nbytes, s) == OptionsOn(s)
  {
    PassesAreWire(s, 0);
    hide CountPass, ReadPass, AllWhole;
    if AllWhole(s) && OptionsIn(0, s) == [] {
      NothingIn(s);
    }
  }

  lemma NothingIn(s: seq<byte>)
    requires AllWhole(s) && OptionsIn(0, s) == []
    ensures Behind(s) == s
  {
  }

  // What the parse of an accepted datagram says, in terms of its bytes.
  ghost predicate Means(b: seq<byte>, pos: nat, m: Message)
    requires Accepted(b, pos)
  {
    var at := OptionsAt(b, pos);
    var s := b[at..];
    && Header.ShownBy(m.header, b[pos], b[pos + 1], b[pos + 2], b[pos + 3])
    && m.token == b[pos + 4..at]
    && if AllWhole(s) then
         && m.options == (if OptionsIn(0, s) == [] then None else Some(OptionsIn(0, s)))
         && m.payload == (if |Behind(s)| > 1 then Some(Behind(s)[1..]) else None)
       else m.options == None && m.payload == None
  }

  /**
   * Which datagrams are accepted, exactly, and what is found in them: the fields of the header at their places, the
   * token, the options, and behind a byte 255 the payload. Reading beyond the datagram, which the source does not
   * prevent, takes a header or a token that is cut off.
   */
  lemma AcceptedIff(b: seq<byte>, pos: nat)
    ensures ParseWire(b, pos).Parsed? <==> Accepted(b, pos)
    ensures ParseWire(b, pos) == Parse.OutOfBounds <==> |b| >= 4 && (pos + 4 > |b| || OptionsAt(b, pos) > |b|)
    ensures Accepted(b, pos) ==> Means(b, pos, ParseWire(b, pos).msg)
  {
    hide TokenLength, HeaderAt, TakeOptions, AllWhole, Behind, OptionsIn, Header.ShownBy;
    if pos + 4 <= |b| {
      HeaderBytes(b, pos);
      var at := OptionsAt(b, pos);
      if at <= |b| {
        var s := b[at..];
        TakeIsWire(|b|, s);
        if AllWhole(s) {
          BehindOptions(s);
        } else {
          NotWhole(s);
        }
      }
    }
  }

  lemma NotWhole(s: seq<byte>)
    requires !AllWhole(s)
    ensures s != [] && s[0] != 255
  {
  }

  /** So it is with every qsort. */
  lemma MayParseIff(b: seq<byte>, pos: nat, r: Parse)
    requires MayParse(b, pos, r)
    ensures r.Parsed? <==> Accepted(b, pos)
  {
    AcceptedIff(b, pos);
    hide ParseWire, Accepted;
  }

  // ---------- What is printed ----------

  /**
   * What a printed message looks like: the header's fields at their places, the token, and in front of a payload that
   * is not empty, and of none other, the byte 255.
   */
  lemma PrintedBytes(m: Message)
    ensures var b := EncodeMessage(m);
            && |b| >= MarkerAt(m) >= 4 + |m.token|
            && Header.ShownBy(m.header, b[0], b[1], b[2], b[3])
            && b[4..4 + |m.token|] == m.token
            && b[MarkerAt(m)..] == if m.payload.Some? && m.payload.value != [] then [255] + m.payload.value else []
  {
    var b, h := EncodeMessage(m), Network32(m.header);
    PackedPlaces(m.header);
    hide EncodeOptions, Network32, Header.ShownBy;
    var options := EncodeOptions(0, OptsOf(m));
    assert |h| == 4 && |h + m.token + options| == MarkerAt(m);
    CutPrefix(h + m.token + options, PayloadBytes(m.payload));
    assert b[..4] == h;
    assert b[0] == b[..4][0] && b[1] == b[..4][1] && b[2] == b[..4][2] && b[3] == b[..4][3];
  }

  lemma PackedPlaces(h: u32)
    ensures var n := Network32(h); |n| == 4 && Header.ShownBy(h, n[0], n[1], n[2], n[3])
  {
    var n := Network32(h);
    LoadOfMemory32(h);
    Header.ShownByIff(h, n[0], n[1], n[2], n[3]);
    hide Header.ShownBy;
  }

  /** A message made from fields that fit their places is printed with each in its own. */
  lemma PrintedInit(version: byte, messageType: byte, code: byte, id: u16, token: seq<byte>, options: Option<seq<Opt>>,
                    payload: Option<seq<byte>>)
    requires version < 4 && messageType < 4 && |token| <= 15
    ensures var m := MessageInit(version, messageType, code, id, token, options, payload);
            EncodeMessage(m) == [64 * version + 16 * messageType + |token|, code, id / 256, id % 256] + token
                                + EncodeOptions(0, if options.Some? then options.value else []) + PayloadBytes(payload)
  {
    hide Header.Create, EncodeOptions, PayloadBytes, Network32;
    Header.CreateOnWire(version, messageType, |token|, code, id);
  }

  /** A message the format can carry is printed as bytes that say exactly what it holds. */
  lemma PrintedMeans(m: Message)
    requires Representable(m)
    ensures var b := EncodeMessage(m); Accepted(b, 0) && Means(b, 0, Normal(m))
  {
    ParseWireAfterEncode(m);
    AcceptedIff(EncodeMessage(m), 0);
    hide ParseWire, EncodeMessage, Representable, Normal, Accepted, Means;
  }

  /**
   * No other bytes say the same of an option in so few: of those that avoid the reserved nibble 15, what is printed is
   * the shortest, and the only one of its length.
   */
  lemma PrintedIsShortest(prev: u16, o: Opt, s: seq<byte>)
    requires |o.value| <= 65535
    requires Whole(s) && EndOf(s) == |s| && s[0] / 16 != 15 && s[0] % 16 != 15
    requires (prev + DeltaIn(s)) % 65536 == o.num && s[ValueAt(s)..] == o.value
    ensures |EncodeOption(prev, o)| <= |s|
    ensures |EncodeOption(prev, o)| == |s| ==> EncodeOption(prev, o) == s
  {
    FieldsInFront(s);
    var d, l, dEnd := s[0] / 16, s[0] % 16, 1 + ExtendedBy(s[0] / 16);
    DeltaIs(prev, o.num, DeltaIn(s));
    assert LengthIn(s) == |o.value|;
    var delta, len := Delta(prev, o.num), Length16(o.value);
    hide LengthIn, DeltaIn, Whole, Delta, Length16, ValueAt, ExtendedBy, ExtensionLength, Extension, Nibble, FieldValue;
    ShortestField(d, s[1..dEnd], delta);
    ShortestField(l, s[dEnd..ValueAt(s)], len);
    Rejoined(s, dEnd, ValueAt(s));
  }

  lemma Rejoined(s: seq<byte>, i: nat, j: nat)
    requires 1 <= i <= j <= |s|
    ensures s == [16 * (s[0] / 16) + s[0] % 16] + s[1..i] + s[i..j] + s[j..]
  {
  }

  lemma FieldsInFront(s: seq<byte>)
    requires s != [] && |s| >= ValueAt(s)
    ensures var d, l, dEnd := s[0] / 16, s[0] % 16, 1 + ExtendedBy(s[0] / 16);
            && dEnd <= ValueAt(s) && dEnd - 1 == ExtensionLength(d) && ValueAt(s) - dEnd == ExtensionLength(l)
            && FieldValue(d, s[1..dEnd], AsMeant) == DeltaIn(s) && FieldValue(l, s[dEnd..ValueAt(s)], AsMeant) == LengthIn(s)
            && DeltaIn(s) < 65536
  {
    FieldIsAmount(s[0] / 16, s, 1);
    FieldIsAmount(s[0] % 16, s, 1 + ExtendedBy(s[0] / 16));
    AmountIs16(s[0] / 16, s[1..]);
    hide FieldValue, Amount, ExtendedBy, ExtensionLength;
  }

  lemma AmountIs16(nibble: nat, s: seq<byte>)
    requires nibble <= 15 && |s| >= ExtendedBy(nibble)
    ensures Amount(nibble, s) < 65536
  {
  }

  lemma DeltaIs(prev: u16, num: u16, delta: nat)
    requires delta < 65536 && (prev + delta) % 65536 == num
    ensures Delta(prev, num) == delta
  {
  }

  lemma ShortestField(nibble: nat, ext: seq<byte>, v: u16)
    requires nibble < 15 && |ext| == ExtensionLength(nibble) && FieldValue(nibble, ext, AsMeant) == v
    ensures |Extension(v)| <= |ext|
    ensures |Extension(v)| == |ext| ==> Extension(v) == ext && Nibble(v) == nibble
  {
    FieldIsBijective(nibble, ext);
    if nibble == 14 && v >= 269 {
      WideFits(ext, v);
    } else if nibble == 13 {
      assert ext == [ext[0]];
    }
  }

  lemma WideFits(ext: seq<byte>, v: u16)
    requires |ext| == 2 && FieldValue(14, ext, AsMeant) == v && v >= 269
    ensures Extension(v) == ext
  {
    SwappedLoad(ext[0], ext[1]);
    assert ext == [ext[0], ext[1]];
    FieldIsBijective(14, ext);
    hide SwapU16, Load16;
  }

  // ---------- Examples ----------

  // A POST under id 1 with no token and the payload "A".
  lemma PostExample()
    ensures EncodeMessage(MessageInit(1, 0, 2, 1, [], None, Some([0x41]))) == [0x40, 2, 0, 1, 0xff, 0x41]
  {
    hide *;
    PrintedBare(1, 0, 2, 1, [], [0x41]);
    var head: seq<byte> := [0x40, 2, 0, 1];
    assert head + [] + [255] + [0x41] == [0x40, 2, 0, 1, 0xff, 0x41];
  }

  lemma PrintedBare(version: byte, messageType: byte, code: byte, id: u16, token: seq<byte>, payload: seq<byte>)
    requires version < 4 && messageType < 4 && |token| <= 15 && payload != []
    ensures EncodeMessage(MessageInit(version, messageType, code, id, token, None, Some(payload)))
         == [64 * version + 16 * messageType + |token|, code, id / 256, id % 256] + token + [255] + payload
  {
    PrintedInit(version, messageType, code, id, token, None, Some(payload));
    hide MessageInit, EncodeMessage;
    var head := [64 * version + 16 * messageType + |token|, code, id / 256, id % 256] + token;
    assert head + [] + ([255] + payload) == head + [255] + payload;
  }

  // An option of five bytes of which two are there.
  lemma CutOffExample()
    ensures ParseWire([0x40, 1, 0, 1, 0x45, 0x61, 0x62], 0) == Rejected
  {
    hide *;
    CutOff([0x40, 1, 0, 1, 0x45, 0x61, 0x62]);
  }

  lemma CutOff(b: seq<byte>)
    requires |b| == 7 && b[0] % 16 == 0 && b[4] == 0x45
    ensures ParseWire(b, 0) == Rejected
  {
    AcceptedIff(b, 0);
    assert b[4..][0] == 0x45 && |b[4..]| == 3;
    assert !Whole(b[4..]);
    hide ParseWire, Whole;
  }
}
