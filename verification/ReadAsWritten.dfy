/**
 * The parser with mc_buffer_next_uint16 as it stands (mcoap/mc_buffer.c:47-54): its memcpy copies an
 * uninitialised variable over the buffer and returns it. The variable may hold anything, at every read anew, and
 * what the counting pass has written over the buffer is what the reading pass finds. This module says exactly
 * when the two passes still agree, and for which messages the parser still works.
 */
module ReadAsWritten {
  import opened Bytes
  import opened OptionCodec
  import opened OptionOrder
  import opened MessageCodec

  // ---------- The parse as it stands ----------

  // The option at the front of s after a read of its length: a 16-bit length has been written over.
  function Spoiled(s: seq<byte>, mode: Reader): (t: seq<byte>)
    requires |s| >= 1 && ScanOption(s, mode).Scanned?
    ensures |t| == |s| - |ScanOption(s, mode).rest|
  {
    var front := s[..|s| - |ScanOption(s, mode).rest|];
    if mode.AsWritten? && s[0] % 16 == 14
      then front[..DeltaEnd(s)] + Memory16(mode.junk(|s| - DeltaEnd(s))) + front[LengthEnd(s)..]
      else front
  }

  // What the counting pass leaves of s, where it has counted to the end.
  function Overwritten(s: seq<byte>, mode: Reader): (t: seq<byte>)
    ensures |t| == |s|
    decreases |s|
  {
    if AtEnd(s) || ScanOption(s, mode).Overrun? then s
    else Spoiled(s, mode) + Overwritten(ScanOption(s, mode).rest, mode)
  }

  // mc_message_from_buffer up to the sort, with a reader for each pass. A count that fails leaves the first byte
  // as it is, and no more than that is looked at then.
  function ParseWireWith(b: seq<byte>, pos: nat, counting: Reader, reading: Reader): Parse {
    if |b| < 4 then Rejected
    else if pos + 4 > |b| then Parse.OutOfBounds
    else
      var header := HeaderAt(b, pos);
      var at := pos + 4 + TokenLength(header);
      if at > |b| then Parse.OutOfBounds
      else
        var m, s := Message(header, b[pos + 4..at], None, None), b[at..];
        var tally := CountPass(s, counting);
        if tally.Broken? || tally.n == 0 then TakePayload(m, s, |b|)
        else
          ReadMovesOn(tally.n, 0, Overwritten(s, counting), reading);
          match ReadPass(tally.n, 0, Overwritten(s, counting), reading)
          case OutOfBounds => Parse.OutOfBounds
          case Read(opts, rest) => TakePayload(m.(options := Some(opts)), rest, |b|)
  }

  /** With both passes reading as meant it is the parse of the format. */
  lemma MeantParse(b: seq<byte>, pos: nat)
    ensures ParseWireWith(b, pos, Intended, Intended) == ParseWire(b, pos)
  {
    hide HeaderAt, TokenLength, CountPass, ReadPass, TakePayload;
    if |b| >= 4 && pos + 4 <= |b| && pos + 4 + TokenLength(HeaderAt(b, pos)) <= |b| {
      var s := b[pos + 4 + TokenLength(HeaderAt(b, pos))..];
      if CountPass(s, Intended).Counted? {
        MeantWritesNothing(s);
        TwoPassAgreement(s, 0, Intended);
      }
    }
  }

  lemma {:induction false} MeantWritesNothing(s: seq<byte>)
    ensures Overwritten(s, Intended) == s
    decreases |s|
  {
    if !AtEnd(s) && ScanOption(s, Intended).Scanned? {
      ScanIsSuffix(s, Intended);
      MeantWritesNothing(ScanOption(s, Intended).rest);
      hide ScanOption;
    }
  }

  lemma {:induction false} ReadMovesOn(n: nat, prev: u16, s: seq<byte>, mode: Reader)
    ensures var r := ReadPass(n, prev, s, mode); r.Read? ==> |r.rest| <= |s| && |r.opts| == n
  {
    hide ScanOption, NextNum;
    if n > 0 && s != [] && ScanOption(s, mode).Scanned? {
      var sc := ScanOption(s, mode);
      ReadMovesOn(n - 1, NextNum(prev, sc.delta), sc.rest, mode);
    }
  }

  // ---------- When the passes agree ----------

  // Spoiled bytes scan, in the same mode, as they did before.
  lemma ScanSpoiled(s: seq<byte>, more: seq<byte>, mode: Reader)
    requires |s| >= 1 && ScanOption(s, mode).Scanned? && |more| == |ScanOption(s, mode).rest|
    ensures var t, sc := Spoiled(s, mode) + more, ScanOption(s, mode);
            |t| == |s| && t[0] == s[0] && ScanOption(t, mode) == Scanned(sc.delta, sc.value, more)
  {
    var f, sc := Spoiled(s, mode), ScanOption(s, mode);
    var t, dEnd, lEnd, k := f + more, DeltaEnd(s), LengthEnd(s), |s| - |sc.rest|;
    assert lEnd <= k && t[..k] == f && t[k..] == more;
    SpoiledParts(s, mode);
    hide Spoiled;
    assert t[0] == f[0] && lEnd + |sc.value| == k;
    assert f == f[..k];
    assert (s[0] % 16 == 14 && mode.AsWritten?) || t[dEnd..lEnd] == s[dEnd..lEnd] by {
      SameFront(f, t, k, dEnd, lEnd);
    }
    SameFront(f, t, k, 1, dEnd);
    SameFront(f, t, k, dEnd, lEnd);
    SameFront(f, t, k, lEnd, k);
    assert FieldValue(s[0] % 16, t[dEnd..lEnd], Read16At(mode, |s| - dEnd))
        == FieldValue(s[0] % 16, s[dEnd..lEnd], Read16At(mode, |s| - dEnd));
    hide FieldValue, Read16At, ExtensionLength;
  }

  lemma ScanGoesPast(s: seq<byte>, mode: Reader)
    requires |s| >= 1 && ScanOption(s, mode).Scanned?
    ensures LengthEnd(s) <= |s| - |ScanOption(s, mode).rest|
  {
  }

  lemma SpoiledShape(s: seq<byte>, mode: Reader)
    requires |s| >= 1 && ScanOption(s, mode).Scanned?
    ensures var dEnd, lEnd, k := DeltaEnd(s), LengthEnd(s), |s| - |ScanOption(s, mode).rest|;
            && 1 <= dEnd <= lEnd <= k <= |s|
            && (if s[0] % 16 == 14 && mode.AsWritten? then
                  && lEnd == dEnd + 2 == dEnd + |Memory16(mode.junk(|s| - dEnd))|
                  && Spoiled(s, mode) == s[0..dEnd] + Memory16(mode.junk(|s| - dEnd)) + s[lEnd..k]
                else Spoiled(s, mode) == s[0..k])
  {
    ScanGoesPast(s, mode);
    var k := |s| - |ScanOption(s, mode).rest|;
    assert s[..k][LengthEnd(s)..] == s[LengthEnd(s)..k] && s[..k][..DeltaEnd(s)] == s[0..DeltaEnd(s)];
    hide ScanOption;
  }

  lemma SpoiledParts(s: seq<byte>, mode: Reader)
    requires |s| >= 1 && ScanOption(s, mode).Scanned?
    ensures var f, dEnd, lEnd, k := Spoiled(s, mode), DeltaEnd(s), LengthEnd(s), |s| - |ScanOption(s, mode).rest|;
            && 1 <= dEnd <= lEnd <= k == |f| && f[0] == s[0] && f[1..dEnd] == s[1..dEnd] && f[lEnd..k] == s[lEnd..k]
            && (s[0] % 16 != 14 || mode.Intended? ==> f[dEnd..lEnd] == s[dEnd..lEnd])
  {
    SpoiledShape(s, mode);
    hide ScanOption, Spoiled, DeltaEnd, LengthEnd, Memory16;
    var dEnd, lEnd, k := DeltaEnd(s), LengthEnd(s), |s| - |ScanOption(s, mode).rest|;
    if s[0] % 16 == 14 && mode.AsWritten? {
      Replaced(s, dEnd, lEnd, k, Memory16(mode.junk(|s| - dEnd)));
    } else {
      Kept(s, dEnd, lEnd, k);
    }
  }

  lemma Kept(s: seq<byte>, d: nat, l: nat, k: nat)
    requires 1 <= d <= l <= k <= |s|
    ensures var f := s[0..k]; |f| == k && f[0] == s[0] && f[1..d] == s[1..d] && f[d..l] == s[d..l] && f[l..k] == s[l..k]
  {
    SubSlice(s, 0, k, 1, d);
    SubSlice(s, 0, k, d, l);
    SubSlice(s, 0, k, l, k);
  }

  lemma Replaced(s: seq<byte>, d: nat, l: nat, k: nat, ext: seq<byte>)
    requires 1 <= d <= l == d + |ext| <= k <= |s|
    ensures var f := s[0..d] + ext + s[l..k];
            |f| == k && f[0] == s[0] && f[1..d] == s[1..d] && f[l..k] == s[l..k]
  {
    var f := s[0..d] + ext + s[l..k];
    assert f[0..d] == s[0..d];
    SubSlice(f, 0, d, 1, d);
    SubSlice(s, 0, d, 1, d);
    assert f[0..d][0] == s[0..d][0];
  }

  // One option, of a count that succeeds.
  lemma CountedStep(s: seq<byte>, mode: Reader)
    requires !AtEnd(s) && CountPass(s, mode).Counted?
    ensures ScanOption(s, mode).Scanned?
    ensures var rest := ScanOption(s, mode).rest;
            && CountPass(rest, mode).Counted?
            && CountPass(s, mode) == Counted(CountPass(rest, mode).n + 1, CountPass(rest, mode).rest)
            && Overwritten(s, mode) == Spoiled(s, mode) + Overwritten(rest, mode)
  {
    hide ScanOption, Spoiled;
  }

  lemma ReadStep(n: nat, prev: u16, s: seq<byte>, mode: Reader)
    requires s != []
    ensures var sc := ScanOption(s, mode);
            if sc.Overrun? then ReadPass(n + 1, prev, s, mode) == Reading.OutOfBounds
            else
              var o := Opt(NextNum(prev, sc.delta), sc.value);
              var r := ReadPass(n, o.num, sc.rest, mode);
              ReadPass(n + 1, prev, s, mode) == if r.Read? then Read([o] + r.opts, r.rest) else Reading.OutOfBounds
  {
    hide ScanOption, NextNum;
  }

  /**
   * Where the variable holds the same at matching reads of both passes, the reading pass finds the options and
   * stops where it would in an untouched buffer, which is where counting stopped.
   */
  lemma {:induction false} SameJunkAgrees(s: seq<byte>, prev: u16, mode: Reader)
    requires CountPass(s, mode).Counted?
    ensures var n := CountPass(s, mode).n;
            ReadPass(n, prev, Overwritten(s, mode), mode) == ReadPass(n, prev, s, mode) && ReadPass(n, prev, s, mode).Read?
    decreases |s|
  {
    TwoPassAgreement(s, prev, mode);
    hide ScanOption, ReadPass, CountPass, Spoiled, NextNum, Overwritten;
    if AtEnd(s) {
      NothingOverwritten(s, mode);
    } else {
      CountedStep(s, mode);
      var sc := ScanOption(s, mode);
      var n, more := CountPass(sc.rest, mode).n, Overwritten(sc.rest, mode);
      SameJunkAgrees(sc.rest, NextNum(prev, sc.delta), mode);
      ScanSpoiled(s, more, mode);
      ReadStep(n, prev, s, mode);
      ReadStep(n, prev, Spoiled(s, mode) + more, mode);
    }
  }

  lemma NothingOverwritten(s: seq<byte>, mode: Reader)
    requires AtEnd(s)
    ensures Overwritten(s, mode) == s && CountPass(s, mode) == Counted(0, s)
  {
  }

  // The reading pass stays inside the buffer and stops where counting stopped.
  ghost predicate PassesAgree(s: seq<byte>, counting: Reader, reading: Reader) {
    var t := CountPass(s, counting);
    t.Counted? ==>
      var r := ReadPass(t.n, 0, Overwritten(s, counting), reading);
      r.Read? && r.rest == t.rest
  }

  // No option that counting comes to has a 16-bit length field inside the buffer.
  predicate NoWideLength(s: seq<byte>)
    decreases |s|
  {
    AtEnd(s) || |s| < LengthEnd(s) ||
    (s[0] % 16 != 14 && (ScanOption(s, Intended).Overrun? || NoWideLength(ScanOption(s, Intended).rest)))
  }

  // Without a 16-bit length every reader cuts the option alike.
  lemma NarrowScan(s: seq<byte>, mode: Reader)
    requires |s| >= 1 && s[0] % 16 != 14
    ensures var meant, sc := ScanOption(s, Intended), ScanOption(s, mode);
            if meant.Overrun? then sc.Overrun?
            else sc.Scanned? && sc.value == meant.value && sc.rest == meant.rest && Spoiled(s, mode) + sc.rest == s
  {
    var dEnd, lEnd := DeltaEnd(s), LengthEnd(s);
    if lEnd <= |s| {
      NarrowField(s[0] % 16, s[dEnd..lEnd], Read16At(mode, |s| - dEnd));
    }
    hide FieldValue, Read16At, ExtensionLength, Spoiled;
    if ScanOption(s, mode).Scanned? {
      ScanIsSuffix(s, mode);
      SpoiledShape(s, mode);
      Cut(s, |s| - |ScanOption(s, mode).rest|);
    }
  }

  lemma NarrowField(nibble: byte, ext: seq<byte>, how: Read16)
    requires |ext| == ExtensionLength(nibble) && nibble != 14
    ensures FieldValue(nibble, ext, how) == FieldValue(nibble, ext, AsMeant)
  {
  }

  lemma Cut(s: seq<byte>, k: nat)
    requires k <= |s|
    ensures s[0..k] + s[k..] == s
  {
  }

  lemma {:induction false} NarrowAgrees(s: seq<byte>, prev: u16, counting: Reader, reading: Reader)
    requires NoWideLength(s) && CountPass(s, counting).Counted?
    ensures Overwritten(s, counting) == s
    ensures var t := CountPass(s, counting);
            var r := ReadPass(t.n, prev, s, reading);
            r.Read? && r.rest == t.rest
    decreases |s|
  {
    hide ScanOption, Spoiled, NextNum, FieldValue, CountPass, ReadPass, Overwritten;
    if AtEnd(s) {
      NothingOverwritten(s, counting);
      NothingRead(prev, s, reading);
    } else {
      CountedStep(s, counting);
      ScanHasLength(s, counting);
      NarrowScan(s, counting);
      NarrowScan(s, reading);
      var sc := ScanOption(s, reading);
      NarrowAgrees(sc.rest, NextNum(prev, sc.delta), counting, reading);
      ReadStep(CountPass(sc.rest, counting).n, prev, s, reading);
    }
  }

  lemma NothingRead(prev: u16, s: seq<byte>, mode: Reader)
    ensures ReadPass(0, prev, s, mode) == Read([], s)
  {
  }

  lemma ScanHasLength(s: seq<byte>, mode: Reader)
    requires |s| >= 1 && ScanOption(s, mode).Scanned?
    ensures LengthEnd(s) <= |s|
  {
  }

  // What the variable has to hold for a 16-bit field to read as v.
  function Holding(v: u16): u16 {
    SwapU16((v - 269) % 0x1_0000)
  }

  lemma HoldingReads(v: u16, ext: seq<byte>)
    requires |ext| == 2
    ensures FieldValue(14, ext, Junk(Holding(v))) == v
  {
    SwapIsNetworkOrder16((v - 269) % 0x1_0000);
  }

  function Always(v: u16): Reader {
    AsWritten(_ => Holding(v))
  }

  // How many bytes follow the first 16-bit length field.
  function WideLeft(s: seq<byte>): nat
    requires !NoWideLength(s)
    ensures WideLeft(s) + 3 <= |s|
    decreases |s|
  {
    if s[0] % 16 == 14 then |s| - LengthEnd(s) else WideLeft(ScanOption(s, Intended).rest)
  }

  lemma WideScan(s: seq<byte>, v: u16)
    requires |s| >= 1 && s[0] % 16 == 14 && LengthEnd(s) <= |s|
    ensures var sc := ScanOption(s, Always(v));
            if v > |s| - LengthEnd(s) then sc.Overrun?
            else sc.Scanned? && |sc.value| == v && |sc.rest| == |s| - LengthEnd(s) - v
  {
    HoldingReads(v, s[DeltaEnd(s)..LengthEnd(s)]);
  }

  // Counting is made to jump to the end of the buffer, and reading beyond it.
  lemma {:induction false} WideDisagrees(s: seq<byte>, prev: u16)
    requires !NoWideLength(s) && |s| <= 0xffff
    ensures var counting, reading := Always(WideLeft(s)), Always(WideLeft(s) + 1);
            && CountPass(s, counting).Counted? && CountPass(s, counting).n >= 1
            && ReadPass(CountPass(s, counting).n, prev, Overwritten(s, counting), reading) == Reading.OutOfBounds
    decreases |s|
  {
    hide *;
    WideCases(s);
    var counting, reading := Always(WideLeft(s)), Always(WideLeft(s) + 1);
    if s[0] % 16 == 14 {
      WideFrontDisagrees(s, prev);
    } else {
      NarrowScan(s, counting);
      var rest := ScanOption(s, Intended).rest;
      WideDisagrees(rest, NextNum(prev, NarrowDelta(s, reading)));
      NarrowDisagrees(s, prev, counting, reading);
    }
  }

  lemma WideCases(s: seq<byte>)
    requires !NoWideLength(s)
    ensures !AtEnd(s) && |s| >= 1 && LengthEnd(s) <= |s|
    ensures if s[0] % 16 == 14 then WideLeft(s) == |s| - LengthEnd(s)
            else
              && ScanOption(s, Intended).Scanned?
              && var rest := ScanOption(s, Intended).rest;
              |rest| < |s| && !NoWideLength(rest) && WideLeft(s) == WideLeft(rest)
  {
    hide ScanOption;
  }

  lemma WideFrontDisagrees(s: seq<byte>, prev: u16)
    requires !AtEnd(s) && s[0] % 16 == 14 && LengthEnd(s) <= |s| <= 0xffff
    ensures var left := |s| - LengthEnd(s);
            && CountPass(s, Always(left)) == Counted(1, [])
            && ReadPass(1, prev, Overwritten(s, Always(left)), Always(left + 1)) == Reading.OutOfBounds
  {
    hide ScanOption, Spoiled, NextNum, FieldValue, ReadPass, CountPass, Overwritten, Always;
    var left := |s| - LengthEnd(s);
    WideScan(s, left);
    JumpToEnd(s, Always(left));
    var t := Spoiled(s, Always(left));
    SpoiledParts(s, Always(left));
    WideScan(t, left + 1);
    ReadStep(0, prev, t, Always(left + 1));
  }

  lemma JumpToEnd(s: seq<byte>, mode: Reader)
    requires !AtEnd(s) && ScanOption(s, mode).Scanned? && ScanOption(s, mode).rest == []
    ensures CountPass(s, mode) == Counted(1, []) && Overwritten(s, mode) == Spoiled(s, mode)
  {
    hide ScanOption, Spoiled;
    assert CountPass([], mode) == Counted(0, []);
  }

  function NarrowDelta(s: seq<byte>, mode: Reader): u16
    requires |s| >= 1
  {
    match ScanOption(s, mode)
    case Overrun => 0
    case Scanned(delta, _, _) => delta
  }

  // An option without a 16-bit length in front of bytes on which the passes disagree.
  lemma NarrowDisagrees(s: seq<byte>, prev: u16, counting: Reader, reading: Reader)
    requires !AtEnd(s) && s[0] % 16 != 14 && ScanOption(s, Intended).Scanned?
    requires var rest := ScanOption(s, Intended).rest;
             && CountPass(rest, counting).Counted?
             && ReadPass(CountPass(rest, counting).n, NextNum(prev, NarrowDelta(s, reading)), Overwritten(rest, counting), reading)
                == Reading.OutOfBounds
    ensures CountPass(s, counting).Counted? && CountPass(s, counting).n >= 1
    ensures ReadPass(CountPass(s, counting).n, prev, Overwritten(s, counting), reading) == Reading.OutOfBounds
  {
    hide ScanOption, Spoiled, NextNum, FieldValue, ReadPass;
    NarrowScan(s, counting);
    NarrowScan(s, reading);
    var rest := ScanOption(s, Intended).rest;
    CountedStep(s, counting);
    var t := Spoiled(s, counting) + Overwritten(rest, counting);
    SameFrontScans(s, t, reading);
    ReadStep(CountPass(rest, counting).n, prev, t, reading);
  }

  lemma SameFront(s: seq<byte>, t: seq<byte>, k: nat, i: nat, j: nat)
    requires i <= j <= k <= |s| && k <= |t| && t[..k] == s[..k]
    ensures t[i..j] == s[i..j]
  {
    SubSlice(s, 0, k, i, j);
    SubSlice(t, 0, k, i, j);
    assert s[0..k] == s[..k] && t[0..k] == t[..k];
  }

  // A scan looks no further than the option goes.
  lemma SameFrontScans(s: seq<byte>, t: seq<byte>, mode: Reader)
    requires |s| >= 1 && |t| == |s| && ScanOption(s, mode).Scanned?
    requires var k := |s| - |ScanOption(s, mode).rest|; t[..k] == s[..k]
    ensures var sc := ScanOption(s, mode); ScanOption(t, mode) == Scanned(sc.delta, sc.value, t[|s| - |sc.rest|..])
  {
    var sc := ScanOption(s, mode);
    var k, dEnd, lEnd := |s| - |sc.rest|, DeltaEnd(s), LengthEnd(s);
    assert t[0] == t[..k][0] && s[0] == s[..k][0];
    SameFront(s, t, k, 1, dEnd);
    SameFront(s, t, k, dEnd, lEnd);
    SameFront(s, t, k, lEnd, k);
    hide FieldValue, Read16At, ExtensionLength;
  }

  /**
   * The passes agree whatever the variable holds at each read if and only if counting comes to no 16-bit length
   * field inside the buffer. If it comes to one, reading can be made to leave the buffer. A datagram, and so what
   * is left of it, has at most 65535 bytes.
   */
  lemma PassesAgreeIff(s: seq<byte>)
    requires |s| <= 0xffff
    ensures (forall counting: nat -> u16, reading: nat -> u16 :: PassesAgree(s, AsWritten(counting), AsWritten(reading))) <==> NoWideLength(s)
  {
    hide CountPass, ReadPass, Overwritten, NoWideLength;
    if NoWideLength(s) {
      forall counting: nat -> u16, reading: nat -> u16 ensures PassesAgree(s, AsWritten(counting), AsWritten(reading)) {
        if CountPass(s, AsWritten(counting)).Counted? {
          NarrowAgrees(s, 0, AsWritten(counting), AsWritten(reading));
        }
      }
    } else {
      WideDisagrees(s, 0);
      assert !PassesAgree(s, Always(WideLeft(s)), Always(WideLeft(s) + 1));
      var counting: nat -> u16, reading: nat -> u16 := Always(WideLeft(s)).junk, Always(WideLeft(s) + 1).junk;
      assert !PassesAgree(s, AsWritten(counting), AsWritten(reading));
    }
  }

  // ---------- When counting writes beyond the buffer ----------

  // How many bytes beyond the end the counting pass writes. A length field that crosses the end ends the count.
  function Beyond(s: seq<byte>, mode: Reader): nat
    decreases |s|
  {
    if AtEnd(s) then 0
    else if |s| < LengthEnd(s) then
      if s[0] % 16 != 14 || mode.Intended? then 0 else if |s| == DeltaEnd(s) + 1 then 1 else 2
    else
      match ScanOption(s, mode)
      case Overrun => 0
      case Scanned(_, _, rest) => Beyond(rest, mode)
  }

  // With some content of the variable counting comes to a 16-bit length field that crosses the end: a field inside
  // the buffer can lead it anywhere behind itself.
  ghost predicate CanCross(s: seq<byte>)
    decreases |s|
  {
    !AtEnd(s) &&
    if s[0] % 16 == 14 then |s| < LengthEnd(s) || exists k :: LengthEnd(s) <= k <= |s| && CanCross(s[k..])
    else ScanOption(s, Intended).Scanned? && CanCross(ScanOption(s, Intended).rest)
  }

  lemma {:induction false} NeverBeyond(s: seq<byte>, mode: Reader)
    requires !CanCross(s)
    ensures Beyond(s, mode) == 0
    decreases |s|
  {
    hide ScanOption;
    if !AtEnd(s) && LengthEnd(s) <= |s| && ScanOption(s, mode).Scanned? {
      var rest := ScanOption(s, mode).rest;
      if s[0] % 16 == 14 {
        ScanIsSuffix(s, mode);
        ScanPastLength(s, mode);
      } else {
        NarrowScan(s, mode);
      }
      NeverBeyond(rest, mode);
    }
  }

  lemma ScanPastLength(s: seq<byte>, mode: Reader)
    requires |s| >= 1 && ScanOption(s, mode).Scanned?
    ensures LengthEnd(s) <= |s| - |ScanOption(s, mode).rest| <= |s|
  {
  }

  // Only what the variable holds at the reads of s counts.
  lemma {:induction false} BeyondDependsOn(s: seq<byte>, junk: nat -> u16, other: nat -> u16)
    requires forall n: nat :: n < |s| ==> junk(n) == other(n)
    ensures Beyond(s, AsWritten(junk)) == Beyond(s, AsWritten(other))
    decreases |s|
  {
    hide ScanOption;
    if !AtEnd(s) && LengthEnd(s) <= |s| {
      SameScan(s, junk, other);
      if ScanOption(s, AsWritten(junk)).Scanned? {
        BeyondDependsOn(ScanOption(s, AsWritten(junk)).rest, junk, other);
      }
    }
  }

  lemma SameScan(s: seq<byte>, junk: nat -> u16, other: nat -> u16)
    requires |s| >= 1 && forall n: nat :: n < |s| ==> junk(n) == other(n)
    ensures ScanOption(s, AsWritten(junk)) == ScanOption(s, AsWritten(other))
  {
    if LengthEnd(s) <= |s| {
      assert Read16At(AsWritten(junk), |s| - 1) == Read16At(AsWritten(other), |s| - 1);
      assert Read16At(AsWritten(junk), |s| - DeltaEnd(s)) == Read16At(AsWritten(other), |s| - DeltaEnd(s));
      hide FieldValue, Read16At;
    }
  }

  // A content of the variable that leads counting across the end.
  lemma {:induction false} Crossing(s: seq<byte>) returns (junk: nat -> u16)
    requires CanCross(s) && |s| <= 0xffff
    ensures Beyond(s, AsWritten(junk)) > 0
    decreases |s|
  {
    hide ScanOption;
    if s[0] % 16 != 14 {
      junk := Crossing(ScanOption(s, Intended).rest);
      NarrowScan(s, AsWritten(junk));
      ScanHasLength(s, AsWritten(junk));
    } else if |s| < LengthEnd(s) {
      junk := _ => 0;
    } else {
      var k :| LengthEnd(s) <= k <= |s| && CanCross(s[k..]);
      var later := Crossing(s[k..]);
      junk := Leading(|s| - DeltaEnd(s), k - LengthEnd(s), later);
      LeadsTo(s, k, junk);
      BeyondDependsOn(s[k..], junk, later);
    }
  }

  // At one read a length is made up; everywhere else the variable holds what it did.
  function Leading(left: nat, len: u16, later: nat -> u16): nat -> u16 {
    n => if n == left then Holding(len) else later(n)
  }

  lemma LeadsTo(s: seq<byte>, k: nat, junk: nat -> u16)
    requires |s| >= 1 && s[0] % 16 == 14 && LengthEnd(s) <= k <= |s| <= 0xffff
    requires junk(|s| - DeltaEnd(s)) == Holding(k - LengthEnd(s))
    ensures ScanOption(s, AsWritten(junk)).Scanned? && ScanOption(s, AsWritten(junk)).rest == s[k..]
  {
    HoldingReads(k - LengthEnd(s), s[DeltaEnd(s)..LengthEnd(s)]);
  }

  /**
   * Counting, as it stands, writes inside the buffer whatever the variable holds at each read if and only if no
   * content of it leads to a 16-bit length field that crosses the end.
   */
  lemma WritesInsideIff(s: seq<byte>)
    requires |s| <= 0xffff
    ensures (forall counting: nat -> u16 :: Beyond(s, AsWritten(counting)) == 0) <==> !CanCross(s)
  {
    hide Beyond, CanCross;
    if CanCross(s) {
      var junk := Crossing(s);
    } else {
      forall counting: nat -> u16 ensures Beyond(s, AsWritten(counting)) == 0 {
        NeverBeyond(s, AsWritten(counting));
      }
    }
  }

  // ---------- Messages without 16-bit fields ----------

  // No option needs a 16-bit extension, neither for its delta nor for its length.
  predicate Short(prev: u16, o: Opt) {
    Delta(prev, o.num) < 269 && |o.value| < 269
  }

  predicate AllShort(prev: u16, opts: seq<Opt>)
    decreases |opts|
  {
    opts == [] || (Short(prev, opts[0]) && AllShort(opts[0].num, opts[1..]))
  }

  lemma {:induction false} ShortIsLegible(prev: u16, opts: seq<Opt>, mode: Reader)
    requires mode.AsWritten?
    ensures AllShort(prev, opts) <==> AllLegible(prev, opts, mode)
    ensures AllShort(prev, opts) ==> ValuesFit(opts)
    decreases |opts|
  {
    if opts != [] {
      ShortIsLegible(opts[0].num, opts[1..], mode);
      assert opts == [opts[0]] + opts[1..];
    }
  }

  lemma {:induction false} ShortHasNoWideLength(prev: u16, opts: seq<Opt>, tail: seq<byte>)
    requires AllShort(prev, opts) && AtEnd(tail)
    ensures NoWideLength(EncodeOptions(prev, opts) + tail)
    decreases |opts|
  {
    if opts == [] {
      assert EncodeOptions(prev, opts) + tail == tail;
    } else {
      var o, rest := opts[0], opts[1..];
      ShortHasNoWideLength(o.num, rest, tail);
      ShortScan(prev, o, EncodeOptions(o.num, rest) + tail);
      Prepend(prev, o, rest, tail);
      assert [o] + rest == opts;
      hide EncodeOptions, EncodeOption, ScanOption;
    }
  }

  lemma ShortScan(prev: u16, o: Opt, more: seq<byte>)
    requires Short(prev, o)
    ensures var s := EncodeOption(prev, o) + more;
            s[0] % 16 != 14 && ScanOption(s, Intended).Scanned? && ScanOption(s, Intended).rest == more
  {
    hide ScanOption, EncodeOption, HeaderByte, Delta;
    ScanAfterEncode(prev, o, more, Intended);
    HeaderNibbles(Delta(prev, o.num), Length16(o.value));
    EncodingStarts(prev, o, more);
  }

  lemma EncodingStarts(prev: u16, o: Opt, more: seq<byte>)
    ensures (EncodeOption(prev, o) + more)[0] == HeaderByte(Delta(prev, o.num), Length16(o.value))
  {
  }

  lemma ShortParses(m: Message, counting: Reader, reading: Reader)
    requires TokenLength(m.header) == |m.token| && AllShort(0, OptsOf(m)) && counting.AsWritten? && reading.AsWritten?
    ensures ParseWireWith(EncodeMessage(m), 0, counting, reading) == Parsed(Normal(m), |EncodeMessage(m)|)
  {
    hide AllShort, AllLegible, EncodeMessage, EncodeOptions, PayloadBytes, TokenLength, HeaderAt, TakePayload, CountPass, ReadPass,
         Overwritten, NoWideLength, ValuesFit;
    var b, opts, tail := EncodeMessage(m), OptsOf(m), PayloadBytes(m.payload);
    EncodedParts(m);
    ShortPasses(opts, tail, counting, reading);
    TakePayloadAfterEncode(m.(options := Normal(m).options), |b|);
    NothingEncoded(opts, tail);
  }

  lemma NothingEncoded(opts: seq<Opt>, tail: seq<byte>)
    ensures opts == [] ==> EncodeOptions(0, opts) + tail == tail
  {
    assert opts == [] ==> EncodeOptions(0, opts) == [];
    assert [] + tail == tail;
  }

  // Both passes over a printed list of short options.
  lemma ShortPasses(opts: seq<Opt>, tail: seq<byte>, counting: Reader, reading: Reader)
    requires AllShort(0, opts) && AtEnd(tail) && counting.AsWritten? && reading.AsWritten?
    ensures var s := EncodeOptions(0, opts) + tail;
            && CountPass(s, counting) == Counted(|opts|, tail) && Overwritten(s, counting) == s
            && ReadPass(|opts|, 0, s, reading) == Read(opts, tail)
  {
    hide AllShort, AllLegible, EncodeOptions, CountPass, ReadPass, Overwritten, NoWideLength, ValuesFit;
    ShortIsLegible(0, opts, counting);
    ShortIsLegible(0, opts, reading);
    ReadAfterEncode(0, opts, tail, counting);
    ReadAfterEncode(0, opts, tail, reading);
    ShortHasNoWideLength(0, opts, tail);
    NarrowAgrees(EncodeOptions(0, opts) + tail, 0, counting, reading);
  }

  // ---------- A content of the variable that always does harm ----------

  // With this one every 16-bit field reads as zero.
  const HARMFUL: u16 := SwapU16(65267)
  const Harmful: Reader := AsWritten(_ => HARMFUL)

  function Zeroed(v: u16): u16 {
    if v < 269 then v else 0
  }

  lemma HarmfulField(v: u16, left: nat)
    ensures FieldValue(Nibble(v), Extension(v), Read16At(Harmful, left)) == Zeroed(v)
  {
    FieldRoundTrip(v);
    HarmfulReads(left);
    SwapIsNetworkOrder16(65267);
  }

  lemma HarmfulLength(nibble: byte, ext: seq<byte>)
    requires nibble <= 15 && |ext| == ExtensionLength(nibble)
    ensures FieldValue(nibble, ext, Junk(HARMFUL)) < 269
  {
    SwapIsNetworkOrder16(65267);
  }

  /** No value of 269 bytes or more is ever read with that junk. */
  lemma {:induction false} HarmfulValuesAreShort(n: nat, prev: u16, s: seq<byte>)
    requires ReadPass(n, prev, s, Harmful).Read?
    ensures forall o | o in ReadPass(n, prev, s, Harmful).opts :: |o.value| < 269
  {
    if n > 0 {
      HarmfulLength(s[0] % 16, s[DeltaEnd(s)..LengthEnd(s)]);
      HarmfulValuesAreShort(n - 1, NextNum(prev, ScanOption(s, Harmful).delta), ScanOption(s, Harmful).rest);
      hide FieldValue, NextNum;
    }
  }

  lemma HarmfulScan(prev: u16, o: Opt, tail: seq<byte>)
    requires |o.value| < 269
    ensures ScanOption(EncodeOption(prev, o) + tail, Harmful) == Scanned(Zeroed(Delta(prev, o.num)), o.value, tail)
  {
    hide Extension, Nibble, HeaderByte, FieldValue, ScanOption, ExtensionLength, Read16At, Harmful, HARMFUL, Delta;
    var delta, len := Delta(prev, o.num), Length16(o.value);
    FieldRoundTrip(delta);
    FieldRoundTrip(len);
    HarmfulField(delta, |Extension(delta)| + |Extension(len)| + |o.value| + |tail|);
    HarmfulField(len, |Extension(len)| + |o.value| + |tail|);
    HeaderNibbles(delta, len);
    ScanLaidOut(HeaderByte(delta, len), Extension(delta), Extension(len), o.value, tail, Harmful);
  }

  lemma HarmfulReads(left: nat)
    ensures Read16At(Harmful, left) == Junk(HARMFUL)
  {
  }

  function LastNum(prev: u16, opts: seq<Opt>): u16 {
    if opts == [] then prev else opts[|opts| - 1].num
  }

  lemma {:induction false} LongDeltaGrows(prev: u16, opts: seq<Opt>)
    requires SortedFrom(prev, opts)
    requires forall o | o in opts :: |o.value| < 269
    ensures prev <= LastNum(prev, opts)
    ensures !AllShort(prev, opts) ==> prev < LastNum(prev, opts)
    decreases |opts|
  {
    if opts != [] {
      LongDeltaGrows(opts[0].num, opts[1..]);
      AscendingDelta(prev, opts[0].num);
      assert LastNum(prev, opts) == LastNum(opts[0].num, opts[1..]);
    }
  }

  // No number in the list exceeds the bound, and none reaches it if strict.
  predicate Bounded(opts: seq<Opt>, bound: int, strict: bool) {
    forall o | o in opts :: o.num <= bound && (strict ==> o.num < bound)
  }

  /**
   * A sorted list of short values, read with the harmful junk from a number that lags behind: no number
   * catches up, and the lag grows at every long delta.
   */
  lemma {:induction false} NumbersLag(prev: u16, opts: seq<Opt>, tail: seq<byte>, behind: u16)
    requires SortedFrom(prev, opts) && AtEnd(tail) && behind <= prev
    requires forall o | o in opts :: |o.value| < 269
    ensures var s := EncodeOptions(prev, opts) + tail;
            var r := ReadPass(|opts|, behind, s, Harmful);
            && CountPass(s, Harmful) == Counted(|opts|, tail) && r.Read?
            && Bounded(r.opts, LastNum(prev, opts) - (prev - behind), !AllShort(prev, opts))
    decreases |opts|
  {
    hide EncodeOptions, ReadPass, CountPass, Bounded, LastNum, AllShort;
    if opts == [] {
      NothingLags(prev, tail, behind);
    } else {
      var o, rest := opts[0], opts[1..];
      assert [o] + rest == opts;
      LagStays(prev, o.num, behind);
      NumbersLag(o.num, rest, tail, behind + Zeroed(o.num - prev));
      NumbersLagStep(prev, o, rest, tail, behind);
    }
  }

  lemma NothingLags(prev: u16, tail: seq<byte>, behind: u16)
    requires AtEnd(tail) && behind <= prev
    ensures var s := EncodeOptions(prev, []) + tail;
            var r := ReadPass(0, behind, s, Harmful);
            && CountPass(s, Harmful) == Counted(0, tail) && r.Read?
            && Bounded(r.opts, LastNum(prev, []) - (prev - behind), !AllShort(prev, []))
  {
    assert EncodeOptions(prev, []) == [];
    assert [] + tail == tail;
  }

  lemma LagStays(prev: u16, num: u16, behind: u16)
    requires behind <= prev <= num
    ensures behind + Zeroed(num - prev) <= num
  {
  }

  lemma NumbersLagStep(prev: u16, o: Opt, rest: seq<Opt>, tail: seq<byte>, behind: u16)
    requires prev <= o.num && SortedFrom(o.num, rest) && behind <= prev
    requires |o.value| < 269 && forall p | p in rest :: |p.value| < 269
    requires var s := EncodeOptions(o.num, rest) + tail;
             var num := behind + Zeroed(o.num - prev);
             var r := ReadPass(|rest|, num, s, Harmful);
             && CountPass(s, Harmful) == Counted(|rest|, tail) && r.Read?
             && Bounded(r.opts, LastNum(o.num, rest) - (o.num - num), !AllShort(o.num, rest))
    ensures var s := EncodeOptions(prev, [o] + rest) + tail;
            var r := ReadPass(|[o] + rest|, behind, s, Harmful);
            && CountPass(s, Harmful) == Counted(|[o] + rest|, tail) && r.Read?
            && Bounded(r.opts, LastNum(prev, [o] + rest) - (prev - behind), !AllShort(prev, [o] + rest))
  {
    hide *;
    LagGrows(prev, o, rest, behind);
    var z := Zeroed(o.num - prev);
    AscendingDelta(prev, o.num);
    AscendingDelta(behind, behind + z);
    var more := EncodeOptions(o.num, rest) + tail;
    HarmfulScan(prev, o, more);
    MarkerUnambiguous(prev, o, more);
    UnfoldPasses(EncodeOption(prev, o) + more, behind, Harmful, |rest|);
    Prepend(prev, o, rest, tail);
    var r := ReadPass(|rest|, behind + z, more, Harmful);
    BoundedCons(Opt(behind + z, o.value), r.opts, LastNum(o.num, rest) - (o.num - (behind + z)), !AllShort(o.num, rest),
                LastNum(prev, [o] + rest) - (prev - behind), !AllShort(prev, [o] + rest));
  }

  lemma LagGrows(prev: u16, o: Opt, rest: seq<Opt>, behind: u16)
    requires prev <= o.num && SortedFrom(o.num, rest) && behind <= prev && |o.value| < 269
    requires forall p | p in rest :: |p.value| < 269
    ensures LastNum(prev, [o] + rest) == LastNum(o.num, rest)
    ensures Zeroed(o.num - prev) <= o.num - prev
    ensures var num := behind + Zeroed(o.num - prev);
            var (lag, longer) := (prev - behind, o.num - num);
            && lag <= longer && num <= LastNum(o.num, rest) - longer
            && (!AllShort(prev, [o] + rest) ==>
                 && (lag < longer || !AllShort(o.num, rest))
                 && num < LastNum(o.num, rest) - lag)
  {
    assert ([o] + rest)[1..] == rest;
    AscendingDelta(prev, o.num);
    LongDeltaGrows(o.num, rest);
  }

  lemma BoundedCons(o: Opt, opts: seq<Opt>, bound: int, strict: bool, bound': int, strict': bool)
    requires Bounded(opts, bound, strict) && bound <= bound' && (strict' ==> bound < bound' || strict)
    requires o.num <= bound' && (strict' ==> o.num < bound')
    ensures Bounded([o] + opts, bound', strict')
  {
  }

  // ---------- The exact condition ----------

  lemma ShortUnderSorting(a: seq<Opt>, b: seq<Opt>)
    requires multiset(a) == multiset(b) && forall o | o in a :: |o.value| < 269
    ensures forall o | o in b :: |o.value| < 269
  {
    assert forall o :: o in b ==> o in multiset(a);
  }

  lemma LastExceeds(raw: seq<Opt>, opts: seq<Opt>)
    requires Bounded(raw, LastNum(0, opts), true) && opts != []
    ensures multiset(raw) != multiset(opts)
  {
    var last := opts[|opts| - 1];
    assert last in multiset(opts) && last !in multiset(raw);
  }

  lemma HarmfulListDiffers(opts: seq<Opt>, tail: seq<byte>, n: nat)
    requires Sorted(opts) && !AllShort(0, opts) && AtEnd(tail)
    requires CountPass(EncodeOptions(0, opts) + tail, Harmful).Counted?
    requires n == CountPass(EncodeOptions(0, opts) + tail, Harmful).n
    ensures var s := Overwritten(EncodeOptions(0, opts) + tail, Harmful);
            ReadPass(n, 0, s, Harmful).Read? && multiset(ReadPass(n, 0, s, Harmful).opts) != multiset(opts)
  {
    assert opts != [];
    hide EncodeOptions, CountPass, ReadPass, AllShort, SortedFrom, Overwritten;
    var s := EncodeOptions(0, opts) + tail;
    SameJunkAgrees(s, 0, Harmful);
    var raw := ReadPass(n, 0, s, Harmful).opts;
    if multiset(raw) == multiset(opts) {
      HarmfulValuesAreShort(n, 0, s);
      ShortUnderSorting(raw, opts);
      NumbersLag(0, opts, tail, 0);
      LastExceeds(raw, opts);
    }
  }

  lemma HarmfulParseFails(m: Message, r: Parse)
    requires Sorted(OptsOf(m)) && TokenLength(m.header) == |m.token| && !AllShort(0, OptsOf(m))
    requires SortsTo(ParseWireWith(EncodeMessage(m), 0, Harmful, Harmful), r)
    ensures r != Parsed(Normal(m), |EncodeMessage(m)|)
  {
    var opts, tail := OptsOf(m), PayloadBytes(m.payload);
    assert opts != [];
    EncodedParts(m);
    hide EncodeMessage, AllShort, PayloadBytes, EncodeOptions, TakePayload, CountPass, ReadPass, TokenLength, HeaderAt, Sorted, Overwritten;
    if CountPass(EncodeOptions(0, opts) + tail, Harmful).Counted? {
      HarmfulListDiffers(opts, tail, CountPass(EncodeOptions(0, opts) + tail, Harmful).n);
    }
  }

  // ---------- The exact condition ----------

  lemma TokenAsHeaderSays(b: seq<byte>, pos: nat, counting: Reader, reading: Reader)
    requires ParseWireWith(b, pos, counting, reading).Parsed?
    ensures var m := ParseWireWith(b, pos, counting, reading).msg; |m.token| == TokenLength(m.header)
  {
    hide TokenLength, HeaderAt, CountPass, ReadPass, Overwritten, TakePayload;
  }

  // The parse gives the message back whatever the variable holds, and whatever the sort does.
  ghost predicate AlwaysParses(m: Message) {
    forall counting: nat -> u16, reading: nat -> u16, r ::
      SortsTo(ParseWireWith(EncodeMessage(m), 0, AsWritten(counting), AsWritten(reading)), r) ==>
        r == Parsed(Normal(m), |EncodeMessage(m)|)
  }

  ghost predicate AlwaysParsesStably(m: Message) {
    forall counting: nat -> u16, reading: nat -> u16 ::
      Sorting(ParseWireWith(EncodeMessage(m), 0, AsWritten(counting), AsWritten(reading))) == Parsed(Normal(m), |EncodeMessage(m)|)
  }

  lemma ShortAlwaysParses(m: Message)
    requires Sorted(OptsOf(m)) && TokenLength(m.header) == |m.token| && AllShort(0, OptsOf(m))
    ensures AlwaysParsesStably(m) && (AlwaysParses(m) <==> NumbersDetermineOptions(OptsOf(m)))
  {
    hide EncodeMessage, ParseWireWith, AllShort, TokenLength, SortsTo, Sorting, NumbersDetermineOptions, Sorted, Normal;
    var b, w := EncodeMessage(m), Parsed(Normal(m), |EncodeMessage(m)|);
    SortingKeepsSorted(m, |b|);
    EverySortToIff(m, |b|);
    forall counting: nat -> u16, reading: nat -> u16
      ensures ParseWireWith(b, 0, AsWritten(counting), AsWritten(reading)) == w
    {
      ShortParses(m, AsWritten(counting), AsWritten(reading));
    }
    var any: nat -> u16 := _ => 0;
    if AlwaysParses(m) {
      forall r | SortsTo(w, r) ensures r == w {
        assert SortsTo(ParseWireWith(b, 0, AsWritten(any), AsWritten(any)), r);
      }
    }
  }

  lemma SortingKeepsSorted(m: Message, n: nat)
    requires Sorted(OptsOf(m))
    ensures Sorting(Parsed(Normal(m), n)) == Parsed(Normal(m), n)
  {
    StableSortKeepsSorted(OptsOf(m));
  }

  lemma NeverWithHarmful(m: Message)
    requires Sorted(OptsOf(m)) && !(TokenLength(m.header) == |m.token| && AllShort(0, OptsOf(m)))
    ensures !AlwaysParsesStably(m) && !AlwaysParses(m)
  {
    hide EncodeMessage, ParseWireWith, AllShort, TokenLength, SortsTo, Sorting, Sorted;
    var b, junk := EncodeMessage(m), Harmful.junk;
    var w := ParseWireWith(b, 0, AsWritten(junk), AsWritten(junk));
    var r := Sorting(w);
    StableSortsTo(w);
    if TokenLength(m.header) == |m.token| {
      HarmfulParseFails(m, r);
    } else if r == Parsed(Normal(m), |b|) {
      SortingKeepsToken(w);
      TokenAsHeaderSays(b, 0, AsWritten(junk), AsWritten(junk));
    }
  }

  lemma SortingKeepsToken(w: Parse)
    ensures Sorting(w).Parsed? ==> w.Parsed? && Sorting(w).msg.token == w.msg.token && Sorting(w).msg.header == w.msg.header
  {
  }

  /**
   * The source as it stands, exactly: a printed message parses back, whatever the uninitialised variable holds at
   * each read, if and only if its token is as long as its header says and every option delta and every option
   * length is below 269; for that to hold under every qsort, equal numbers have to mean equal options.
   */
  lemma RoundTripAsWrittenIff(m: Message)
    requires Sorted(OptsOf(m))
    ensures AlwaysParsesStably(m) <==> TokenLength(m.header) == |m.token| && AllShort(0, OptsOf(m))
    ensures AlwaysParses(m)
       <==> TokenLength(m.header) == |m.token| && AllShort(0, OptsOf(m)) && NumbersDetermineOptions(OptsOf(m))
  {
    hide EncodeMessage, ParseWireWith, AllShort, TokenLength, SortsTo, Sorting, NumbersDetermineOptions, Sorted, Normal;
    if TokenLength(m.header) == |m.token| && AllShort(0, OptsOf(m)) {
      ShortAlwaysParses(m);
    } else {
      NeverWithHarmful(m);
    }
  }
}
