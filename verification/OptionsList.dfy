/** Option lists to and from buffers (mcoap/mc_options_list.c), one method per function of the source. */
module OptionsList {
  import opened Bytes
  import opened Buffers
  import opened OptionCodec
  import opened OptionOrder
  import opened ReadAsWritten

  // ---------- Writing ----------

  // The extension bytes of an integer coded as a nibble and a 16-bit extension.
  function ExtensionBytes(head: byte, extended: u16): seq<byte> {
    if head == 13 then [extended % 256] else if head == 14 then Network16(extended) else []
  }

  // The code is 1 for a nibble alone, 2 for a nibble and a byte, 3 for a nibble and two bytes.
  method ValueToEncodedInt(value: u16) returns (code: nat, head: byte, extended: u16)
    ensures code == 1 + ExtensionLength(head) && head == Nibble(value) && head <= 14
    ensures ExtensionBytes(head, extended) == Extension(value)
  {
    if value < 13 {
      code, head, extended := 1, value, 0;
    } else if value < 269 {
      code, head, extended := 2, 13, value - 13;
    } else {
      code, head, extended := 3, 14, value - 269;
    }
  }

  method ExtendedNumToBuffer(buffer: Buffer, head: byte, extended: u16, bpos: nat) returns (ok: bool, pos: nat)
    requires buffer.Valid() && bpos <= buffer.nbytes && head <= 14
    modifies buffer.bytes
    ensures var ext := ExtensionBytes(head, extended);
            && (ok <==> bpos + |ext| <= buffer.nbytes)
            && (ok ==> pos == bpos + |ext| && buffer.bytes[..] == Patched(old(buffer.bytes[..]), bpos, ext))
    ensures !ok ==> buffer.bytes[..] == old(buffer.bytes[..])
  {
    ok, pos := true, bpos;
    if head == 13 {
      if buffer.nbytes - pos < 1 {
        return false, pos;
      }
      buffer.bytes[pos] := extended % 256;
      pos := pos + 1;
    } else if head == 14 {
      if buffer.nbytes - pos < 2 {
        return false, pos;
      }
      SwapIsNetworkOrder16(extended);
      Memcpy(buffer.bytes, pos, Memory16(SwapU16(extended)));
      pos := pos + 2;
    }
  }

  /**
   * Writes one option at bpos, or fails with a part of it written. It succeeds exactly when the option
   * fits, and then puts its encoding there and touches nothing else.
   */
  method OptionToBuffer(buffer: Buffer, o: Opt, prev: u16, bpos: nat) returns (ok: bool, pos: nat)
    requires buffer.Valid() && bpos <= buffer.nbytes
    modifies buffer.bytes
    ensures ok <==> bpos + |EncodeOption(prev, o)| <= buffer.nbytes
    ensures ok ==> pos == bpos + |EncodeOption(prev, o)|
    ensures ok ==> buffer.bytes[..] == Patched(old(buffer.bytes[..]), bpos, EncodeOption(prev, o))
    ensures SameOutside(old(buffer.bytes[..]), buffer.bytes[..], bpos, buffer.nbytes)
  {
    hide Patched, SameOutside, ExtensionBytes, Extension, Nibble, Delta, Length16;
    pos := bpos;
    ghost var was := buffer.bytes[..];
    var delta := Delta(prev, o.num);
    NothingTouched(was, bpos, buffer.nbytes);
    if buffer.nbytes - pos < 1 {
      return false, pos;
    }
    var ncode, numHead, numExt := ValueToEncodedInt(delta);
    var lcode, lenHead, lenExt := ValueToEncodedInt(Length16(o.value));
    buffer.bytes[pos] := numHead * 16 + lenHead;
    ghost var written := [HeaderByte(delta, Length16(o.value))];
    OneByte(was, buffer.bytes[..], pos);
    PatchInside(was, was, bpos, written, bpos, buffer.nbytes);
    pos := pos + 1;

    ok, pos := ExtendedNumToBuffer(buffer, numHead, numExt, pos);
    if !ok {
      return;
    }
    PatchTwice(was, bpos, written, Extension(delta));
    written := written + Extension(delta);
    PatchInside(was, was, bpos, written, bpos, buffer.nbytes);

    ok, pos := ExtendedNumToBuffer(buffer, lenHead, lenExt, pos);
    if !ok {
      return;
    }
    PatchTwice(was, bpos, written, Extension(Length16(o.value)));
    written := written + Extension(Length16(o.value));
    PatchInside(was, was, bpos, written, bpos, buffer.nbytes);

    if buffer.nbytes - pos < |o.value| {
      return false, pos;
    }
    Memcpy(buffer.bytes, pos, o.value);
    PatchTwice(was, bpos, written, o.value);
    PatchInside(was, was, bpos, written + o.value, bpos, buffer.nbytes);
    pos := pos + |o.value|;
  }

  lemma NothingTouched(s: seq<byte>, lo: nat, hi: nat)
    requires lo <= hi <= |s|
    ensures SameOutside(s, s, lo, hi)
  {
  }

  lemma OneByte(s: seq<byte>, t: seq<byte>, pos: nat)
    requires |s| == |t| && pos < |s| && t == s[pos := t[pos]]
    ensures t == Patched(s, pos, [t[pos]])
  {
  }

  /**
   * Writes a whole list, option by option; it succeeds exactly when the encoding fits in what is left of
   * the buffer.
   */
  method ListToBuffer(opts: seq<Opt>, buffer: Buffer, bpos: nat) returns (ok: bool, pos: nat)
    requires buffer.Valid() && bpos <= buffer.nbytes
    modifies buffer.bytes
    ensures ok <==> bpos + |EncodeOptions(0, opts)| <= buffer.nbytes
    ensures ok ==> pos == bpos + |EncodeOptions(0, opts)|
    ensures ok ==> buffer.bytes[..] == Patched(old(buffer.bytes[..]), bpos, EncodeOptions(0, opts))
    ensures SameOutside(old(buffer.bytes[..]), buffer.bytes[..], bpos, buffer.nbytes)
  {
    hide Patched, SameOutside, EncodeOption;
    ghost var was := buffer.bytes[..];
    ghost var written: seq<byte> := [];
    NothingTouched(was, bpos, buffer.nbytes);
    PatchNothing(was, bpos);
    ok, pos := true, bpos;
    var i, prev := 0, 0;
    while i < |opts|
      invariant 0 <= i <= |opts|
      invariant bpos <= pos == bpos + |written| <= buffer.nbytes
      invariant written + EncodeOptions(prev, opts[i..]) == EncodeOptions(0, opts)
      invariant buffer.bytes[..] == Patched(was, bpos, written)
      invariant SameOutside(was, buffer.bytes[..], bpos, buffer.nbytes)
    {
      ghost var before := buffer.bytes[..];
      ghost var enc := EncodeOption(prev, opts[i]);
      Advance(written, prev, opts, i);
      ok, pos := OptionToBuffer(buffer, opts[i], prev, pos);
      if !ok {
        NarrowerTouch(was, before, buffer.bytes[..], bpos, bpos + |written|, buffer.nbytes);
        return;
      }
      PatchTwice(was, bpos, written, enc);
      PatchInside(was, before, bpos + |written|, enc, bpos, buffer.nbytes);
      written := written + enc;
      prev := opts[i].num;
      i := i + 1;
    }
    EncodeNothingFrom(prev);
    assert written == EncodeOptions(0, opts);
  }

  lemma PatchNothing(s: seq<byte>, pos: nat)
    requires pos <= |s|
    ensures Patched(s, pos, []) == s
  {
  }

  lemma EncodeNothingFrom(prev: u16)
    ensures EncodeOptions(prev, []) == []
  {
  }

  lemma Advance(written: seq<byte>, prev: u16, opts: seq<Opt>, i: nat)
    requires i < |opts|
    ensures written + EncodeOptions(prev, opts[i..])
         == (written + EncodeOption(prev, opts[i])) + EncodeOptions(opts[i].num, opts[i + 1..])
  {
    hide EncodeOption;
    assert opts[i..][1..] == opts[i + 1..];
  }

  lemma NarrowerTouch(s: seq<byte>, t: seq<byte>, u: seq<byte>, lo: nat, mid: nat, hi: nat)
    requires SameOutside(s, t, lo, hi) && SameOutside(t, u, mid, hi) && lo <= mid
    ensures SameOutside(s, u, lo, hi)
  {
    assert u[..lo] == u[..mid][..lo] && t[..lo] == t[..mid][..lo];
  }

  // mc_options_list_buffer_size.
  method ListBufferSize(opts: seq<Opt>) returns (size: nat)
    ensures size == OptionsSize(0, opts)
  {
    hide OptionSize;
    size := 0;
    var prev, i := 0, 0;
    while i < |opts|
      invariant 0 <= i <= |opts|
      invariant size + OptionsSize(prev, opts[i..]) == OptionsSize(0, opts)
    {
      assert opts[i..][1..] == opts[i + 1..];
      size := size + OptionSize(opts[i], prev);
      prev := opts[i].num;
      i := i + 1;
    }
  }

  // ---------- Reading ----------

  // The option's number delta or its length. Reading past the end of the buffer yields nothing definite; a 16-bit
  // read that is as it stands writes over the buffer.
  method OptionNumFromBuffer(buffer: Buffer, prefix: byte, bpos: nat, mode: Reader) returns (value: u16, pos: nat, ghost beyond: nat)
    requires buffer.Valid() && prefix <= 15
    modifies buffer.bytes
    ensures pos == bpos + ExtensionLength(prefix)
    ensures pos <= buffer.nbytes ==>
              && value == FieldValue(prefix, old(buffer.Contents())[bpos..pos], Read16At(mode, buffer.nbytes - bpos))
              && buffer.bytes[..] == Touched(old(buffer.bytes[..]), prefix, bpos, mode, buffer.nbytes)
    ensures if bpos <= buffer.nbytes then SameOutside(old(buffer.bytes[..]), buffer.bytes[..], bpos, buffer.nbytes)
            else buffer.bytes[..] == old(buffer.bytes[..])
    ensures beyond == if prefix == 14 && mode.AsWritten? then 2 - buffer.Inside(bpos) else 0
  {
    beyond := 0;
    ghost var was := buffer.bytes[..];
    if bpos <= buffer.nbytes {
      NothingTouched(was, bpos, buffer.nbytes);
    }
    if prefix == 13 {
      var extended;
      extended, pos := buffer.NextUint8(bpos);
      value := extended as int + 13;
    } else if prefix == 14 {
      var raw;
      if mode.Intended? {
        raw, pos := buffer.NextUint16(bpos);
      } else {
        var left := if bpos <= buffer.nbytes then buffer.nbytes - bpos else 0;
        raw, pos, beyond := buffer.NextUint16AsWritten(bpos, mode.junk(left));
        if bpos <= buffer.nbytes {
          PatchInside(was, was, bpos, Memory16(mode.junk(left))[..buffer.Inside(bpos)], bpos, buffer.nbytes);
        }
      }
      value := (SwapU16(raw) + 269) % 0x1_0000;
    } else {
      value, pos := prefix, bpos;
    }
  }

  // What a read of an extension leaves of the buffer.
  ghost function Touched(bytes: seq<byte>, prefix: byte, bpos: nat, mode: Reader, nbytes: nat): seq<byte>
    requires bpos + ExtensionLength(prefix) <= nbytes <= |bytes|
  {
    if prefix == 14 && mode.AsWritten? then Patched(bytes, bpos, Memory16(mode.junk(nbytes - bpos))) else bytes
  }

  // What the counting pass reports for the bytes s, the tail of a buffer of nbytes.
  function CountOf(nbytes: nat, s: seq<byte>, mode: Reader): nat {
    if nbytes < 4 || CountPass(s, mode).Broken? then 0 else CountPass(s, mode).n
  }

  // What is left of the option at start when its length has been read, and of the rest of the bytes.
  lemma SpoiledInPlace(t: seq<byte>, t': seq<byte>, s: seq<byte>, start: nat, next: nat, nbytes: nat, mode: Reader)
    requires start < nbytes <= |t| && s == t[start..nbytes]
    requires ScanOption(s, mode).Scanned? && next == nbytes - |ScanOption(s, mode).rest|
    requires LengthEnd(s) <= |s| && t' == Touched(t, s[0] % 16, start + DeltaEnd(s), mode, nbytes)
    ensures |t'| == |t| && start < next <= nbytes && t'[start] == t[start] && t'[..start] == t[..start]
    ensures t'[start..next] == Spoiled(s, mode) && t'[next..nbytes] == t[next..nbytes]
  {
    hide ScanOption, Spoiled, Touched, Patched, Memory16, DeltaEnd, ExtensionLength;
    SpoiledShape(s, mode);
    TouchedShape(t, s[0] % 16, start + DeltaEnd(s), mode, nbytes);
    if s[0] % 16 == 14 && mode.AsWritten? {
      InPlace(t, t', s, start, next, nbytes, DeltaEnd(s), LengthEnd(s), Memory16(mode.junk(|s| - DeltaEnd(s))), Spoiled(s, mode));
    } else {
      SubSlice(t, start, nbytes, start, next);
    }
  }

  lemma InPlace(t: seq<byte>, t': seq<byte>, s: seq<byte>, start: nat, next: nat, nbytes: nat, d: nat, l: nat, ext: seq<byte>,
                spoiled: seq<byte>)
    requires 1 <= d <= l == d + |ext| && start + l <= next <= nbytes <= |t| && s == t[start..nbytes]
    requires t' == Patched(t, start + d, ext) && spoiled == s[0..d] + ext + s[l..next - start]
    ensures |t'| == |t| && t'[start] == t[start] && t'[..start] == t[..start]
    ensures t'[start..next] == spoiled && t'[next..nbytes] == t[next..nbytes]
  {
    PatchedSlices(t, start, start + d, next, nbytes, ext);
    hide Patched;
    SubSlice(t, start, nbytes, start, start + d);
    SubSlice(t, start, nbytes, start + l, next);
  }

  lemma TouchedShape(t: seq<byte>, prefix: byte, at: nat, mode: Reader, nbytes: nat)
    requires at + ExtensionLength(prefix) <= nbytes <= |t|
    ensures Touched(t, prefix, at, mode, nbytes) ==
              if prefix == 14 && mode.AsWritten? then Patched(t, at, Memory16(mode.junk(nbytes - at))) else t
    ensures prefix == 14 ==> at + 2 <= nbytes
  {
  }

  lemma PatchedSlices(t: seq<byte>, start: nat, at: nat, next: nat, nbytes: nat, ext: seq<byte>)
    requires start < at && at + |ext| <= next <= nbytes <= |t|
    ensures var u := Patched(t, at, ext);
            && |u| == |t| && u[start] == t[start] && u[..start] == t[..start] && u[next..nbytes] == t[next..nbytes]
            && u[start..next] == t[start..at] + ext + t[at + |ext|..next]
  {
    var u, l := Patched(t, at, ext), at + |ext|;
    assert u[..at] == t[..at] && u[at..l] == ext && u[l..] == t[l..];
    hide Patched;
    assert u[0..at] == t[0..at] && u[l..|u|] == t[l..|t|];
    SameFrontOf(u, t, at, start);
    SubSlice(u, l, |u|, l, next);
    SubSlice(t, l, |t|, l, next);
    SubSlice(u, l, |u|, next, nbytes);
    SubSlice(t, l, |t|, next, nbytes);
    SplitAt(u, start, at, next);
    SplitAt(u, at, l, next);
    Regroup(u[start..at], ext, u[l..next]);
  }

  lemma SameFrontOf(u: seq<byte>, t: seq<byte>, at: nat, start: nat)
    requires start < at <= |u| && at <= |t| && u[0..at] == t[0..at]
    ensures u[start] == t[start] && u[..start] == t[..start] && u[start..at] == t[start..at]
  {
    SubSlice(u, 0, at, start, at);
    SubSlice(t, 0, at, start, at);
    SubSlice(u, 0, at, 0, start);
    SubSlice(t, 0, at, 0, start);
    assert u[0..at][start] == u[start] && t[0..at][start] == t[start];
    assert u[0..start] == u[..start] && t[0..start] == t[..start];
  }

  // The bytes that a count, on its way from bpos, finds at pos: those before are counted and overwritten, those
  // from pos on untouched.
  ghost predicate Counting(was: seq<byte>, now: seq<byte>, nbytes: nat, bpos: nat, pos: nat, total: nat, mode: Reader) {
    && bpos <= pos <= nbytes <= |was| == |now|
    && CountPass(was[bpos..nbytes], mode) == PlusCount(total, CountPass(was[pos..nbytes], mode))
    && now[pos..nbytes] == was[pos..nbytes]
    && now[bpos..pos] + Overwritten(was[pos..nbytes], mode) == Overwritten(was[bpos..nbytes], mode)
    && (bpos < nbytes ==> now[bpos] == was[bpos])
    && Beyond(was[bpos..nbytes], mode) == Beyond(was[pos..nbytes], mode)
    && SameOutside(was, now, bpos, nbytes)
  }

  lemma CountingStarts(was: seq<byte>, nbytes: nat, bpos: nat, mode: Reader)
    requires bpos <= nbytes <= |was|
    ensures Counting(was, was, nbytes, bpos, bpos, 0, mode)
  {
    hide CountPass, Overwritten, Beyond;
    assert was[bpos..bpos] == [];
    assert [] + Overwritten(was[bpos..nbytes], mode) == Overwritten(was[bpos..nbytes], mode);
  }

  lemma CountingFacts(was: seq<byte>, now: seq<byte>, nbytes: nat, bpos: nat, pos: nat, total: nat, mode: Reader)
    requires Counting(was, now, nbytes, bpos, pos, total, mode)
    ensures bpos <= pos <= nbytes <= |was| == |now| && now[pos..nbytes] == was[pos..nbytes]
    ensures pos < nbytes ==> (now[pos] == MARKER <==> AtEnd(was[pos..nbytes]))
    ensures pos == nbytes ==> AtEnd(was[pos..nbytes])
    ensures bpos < nbytes ==> now[bpos] == was[bpos]
    ensures SameOutside(was, now, bpos, nbytes)
  {
    hide CountPass, Overwritten, SameOutside, Beyond;
    assert pos < nbytes ==> now[pos..nbytes][0] == now[pos] && |was[pos..nbytes]| > 0;
  }

  // Nothing more to count.
  lemma CountingEnds(was: seq<byte>, now: seq<byte>, nbytes: nat, bpos: nat, pos: nat, total: nat, mode: Reader)
    requires Counting(was, now, nbytes, bpos, pos, total, mode) && AtEnd(was[pos..nbytes])
    ensures CountPass(was[bpos..nbytes], mode) == Counted(total, was[pos..nbytes])
    ensures now[bpos..nbytes] == Overwritten(was[bpos..nbytes], mode) && Beyond(was[bpos..nbytes], mode) == 0
  {
    CountEnd(was[pos..nbytes], mode);
    hide CountPass, Overwritten, SameOutside, Beyond;
    SplitAt(now, bpos, pos, nbytes);
  }

  // An option that goes past the end.
  lemma CountingBreaks(was: seq<byte>, now: seq<byte>, nbytes: nat, bpos: nat, pos: nat, total: nat, mode: Reader)
    requires Counting(was, now, nbytes, bpos, pos, total, mode) && !AtEnd(was[pos..nbytes])
    requires ScanOption(was[pos..nbytes], mode).Overrun?
    ensures CountPass(was[bpos..nbytes], mode) == Broken && Beyond(was[bpos..nbytes], mode) == Beyond(was[pos..nbytes], mode)
  {
    CountStep(was[pos..nbytes], mode);
    hide CountPass, Overwritten, ScanOption, Beyond;
  }

  // One option more.
  lemma CountingGoesOn(was: seq<byte>, before: seq<byte>, now: seq<byte>, nbytes: nat, bpos: nat, pos: nat, next: nat, total: nat,
                       mode: Reader)
    requires Counting(was, before, nbytes, bpos, pos, total, mode) && !AtEnd(was[pos..nbytes])
    requires pos < next <= nbytes && SameOutside(before, now, pos, nbytes) && now[pos] == before[pos]
    requires var s := was[pos..nbytes];
             && ScanOption(s, mode).Scanned? && ScanOption(s, mode).rest == was[next..nbytes] == now[next..nbytes]
             && now[pos..next] == Spoiled(s, mode)
    ensures Counting(was, now, nbytes, bpos, next, total + 1, mode)
  {
    CountStep(was[pos..nbytes], mode);
    UnfoldOverwritten(was[pos..nbytes], mode);
    UnfoldBeyond(was[pos..nbytes], mode);
    hide CountPass, Overwritten, ScanOption, Spoiled, Beyond;
    NarrowerTouch(was, before, now, bpos, pos, nbytes);
    assert now[bpos..pos] == before[bpos..pos] by {
      assert now[bpos..pos] == now[..pos][bpos..] && before[bpos..pos] == before[..pos][bpos..];
    }
    assert bpos < pos ==> now[bpos] == now[bpos..pos][0] && before[bpos] == before[bpos..pos][0];
    hide SameOutside;
    SplitAt(now, bpos, pos, next);
    Regroup(now[bpos..pos], now[pos..next], Overwritten(was[next..nbytes], mode));
  }

  lemma UnfoldBeyond(s: seq<byte>, mode: Reader)
    requires !AtEnd(s)
    ensures var sc := ScanOption(s, mode);
            Beyond(s, mode) == if sc.Scanned? then Beyond(sc.rest, mode) else BeyondHere(|s| - DeltaEnd(s), s[0] % 16, mode)
  {
    if ScanOption(s, mode).Scanned? {
      ScanHasLength(s, mode);
    }
    hide ScanOption;
  }

  lemma BeyondOf(s: seq<byte>, mode: Reader)
    requires !AtEnd(s)
    ensures var here := BeyondHere(|s| - DeltaEnd(s), s[0] % 16, mode);
            if ScanOption(s, mode).Scanned? then here == 0 else Beyond(s, mode) == here
  {
    UnfoldBeyond(s, mode);
    if ScanOption(s, mode).Scanned? {
      ScanHasLength(s, mode);
    }
    hide ScanOption, Beyond;
  }

  // How far a length field that starts left bytes before the end writes beyond it.
  function BeyondHere(left: int, prefix: byte, mode: Reader): nat {
    if prefix != 14 || mode.Intended? || left >= 2 then 0 else if left == 1 then 1 else 2
  }

  lemma UnfoldOverwritten(s: seq<byte>, mode: Reader)
    requires !AtEnd(s) && ScanOption(s, mode).Scanned?
    ensures Overwritten(s, mode) == Spoiled(s, mode) + Overwritten(ScanOption(s, mode).rest, mode)
  {
    hide ScanOption, Spoiled;
  }

  /**
   * Counts the options ahead. The scan may run past the end of the buffer, but then it answers 0 whatever
   * it finds there: the count is a function of the buffer's own bytes. As it stands it overwrites every 16-bit
   * length it comes to.
   */
  method CountOptions(buffer: Buffer, bpos: nat, mode: Reader) returns (total: nat, ghost beyond: nat)
    requires buffer.Valid() && bpos <= buffer.nbytes
    modifies buffer.bytes
    ensures total == CountOf(buffer.nbytes, old(buffer.Contents())[bpos..], mode)
    ensures buffer.nbytes >= 4 && CountPass(old(buffer.Contents())[bpos..], mode).Counted? ==>
              buffer.Contents()[bpos..] == Overwritten(old(buffer.Contents())[bpos..], mode)
    ensures bpos < buffer.nbytes ==> buffer.bytes[bpos] == old(buffer.bytes[bpos])
    ensures SameOutside(old(buffer.bytes[..]), buffer.bytes[..], bpos, buffer.nbytes)
    ensures beyond == if buffer.nbytes < 4 then 0 else Beyond(old(buffer.Contents())[bpos..], mode)
  {
    hide Counting, Beyond, FieldValue, ScanOption, CountPass, DeltaEnd, LengthEnd, Spoiled, Overwritten, SameOutside, Touched, AtEnd;
    ghost var was, nbytes := buffer.bytes[..], buffer.nbytes;
    NothingTouched(was, bpos, nbytes);
    beyond := 0;
    if buffer.nbytes < 4 {
      return 0, 0;
    }
    var pos := bpos;
    total := 0;
    CountingStarts(was, nbytes, bpos, mode);
    TakeThenDrop(was, bpos, nbytes);
    while pos < buffer.nbytes
      invariant bpos <= pos <= nbytes && Counting(was, buffer.bytes[..], nbytes, bpos, pos, total, mode)
      decreases buffer.nbytes - pos
    {
      ghost var start, before := pos, buffer.bytes[..];
      CountingFacts(was, before, nbytes, bpos, pos, total, mode);
      var byte := buffer.bytes[pos];
      if byte == MARKER {
        break;
      }
      var overrun;
      ghost var here;
      overrun, pos, here := CountOne(buffer, pos, mode);
      if overrun {
        NarrowerTouch(was, before, buffer.bytes[..], bpos, start, nbytes);
        FrontKept(before, buffer.bytes[..], bpos, start, nbytes);
        CountingBreaks(was, before, nbytes, bpos, start, total, mode);
        return 0, here;
      }
      CountingGoesOn(was, before, buffer.bytes[..], nbytes, bpos, start, pos, total, mode);
      total := total + 1;
    }
    CountingFacts(was, buffer.bytes[..], nbytes, bpos, pos, total, mode);
    CountingEnds(was, buffer.bytes[..], nbytes, bpos, pos, total, mode);
    TakeThenDrop(buffer.bytes[..], bpos, nbytes);
  }

  // What was done before start is still there.
  lemma FrontKept(s: seq<byte>, t: seq<byte>, bpos: nat, start: nat, nbytes: nat)
    requires bpos <= start <= nbytes && SameOutside(s, t, start, nbytes)
    ensures bpos < start ==> t[bpos] == s[bpos]
  {
    assert bpos < start ==> t[bpos] == t[..start][bpos] && s[bpos] == s[..start][bpos];
  }

  // Counting does not read a delta, it steps over it.
  method SkipExtension(delta: nat, bpos: nat) returns (pos: nat)
    ensures pos == bpos + ExtensionLength(delta)
  {
    pos := bpos;
    if delta == 13 {
      pos := pos + 1;
    } else if delta == 14 {
      pos := pos + 2;
    }
  }

  // One option of the count: where it ends, or that it goes past the end of the buffer.
  method CountOne(buffer: Buffer, start: nat, mode: Reader) returns (overrun: bool, pos: nat, ghost beyond: nat)
    requires buffer.Valid() && start < buffer.nbytes && buffer.bytes[start] != MARKER
    modifies buffer.bytes
    ensures overrun ==> beyond == Beyond(old(buffer.bytes[start..buffer.nbytes]), mode)
    ensures !overrun ==> beyond == 0
    ensures overrun <==> ScanOption(old(buffer.bytes[start..buffer.nbytes]), mode).Overrun?
    ensures !overrun ==>
              var s := old(buffer.bytes[start..buffer.nbytes]);
              && start < pos <= buffer.nbytes
              && ScanOption(s, mode).rest == old(buffer.bytes[..])[pos..buffer.nbytes] == buffer.bytes[pos..buffer.nbytes]
              && buffer.bytes[start..pos] == Spoiled(s, mode)
    ensures buffer.bytes[start] == old(buffer.bytes[start])
    ensures SameOutside(old(buffer.bytes[..]), buffer.bytes[..], start, buffer.nbytes)
  {
    hide FieldValue, ScanOption, Spoiled, SameOutside, Touched, ExtensionLength, Read16At;
    ghost var b, was := buffer.Contents(), buffer.bytes[..];
    ScanBounds(b, start, mode);
    TakeThenDrop(was, start, buffer.nbytes);
    var byte := buffer.bytes[start];
    pos := start + 1;
    var delta, len := byte / 16, byte % 16;
    pos := SkipExtension(delta, pos);
    ghost var lengthAt := pos;
    NothingTouched(was, start, buffer.nbytes);
    var extended;
    extended, pos, beyond := OptionNumFromBuffer(buffer, len, pos, mode);
    BeyondOf(was[start..buffer.nbytes], mode);
    LaterTouch(was, buffer.bytes[..], start, lengthAt, buffer.nbytes);
    if pos <= buffer.nbytes && pos + extended <= buffer.nbytes {
      TakeThenDrop(was, pos + extended, buffer.nbytes);
      SpoiledInPlace(was, buffer.bytes[..], b[start..], start, pos + extended, buffer.nbytes, mode);
    }
    pos := pos + extended;
    overrun := pos > buffer.nbytes;
  }

  // What is written from at on is written from start on, and leaves the byte at start alone.
  lemma LaterTouch(s: seq<byte>, t: seq<byte>, start: nat, at: nat, nbytes: nat)
    requires start < at && start < nbytes <= |s| == |t|
    requires if at <= nbytes then SameOutside(s, t, at, nbytes) else t == s
    ensures SameOutside(s, t, start, nbytes) && t[start] == s[start]
  {
    if at <= nbytes {
      assert t[..start] == t[..at][..start] && s[..start] == s[..at][..start];
      assert t[start] == t[..at][start] && s[start] == s[..at][start];
    }
  }

  // Where one option of the buffer ends, if it does.
  lemma ScanBounds(b: seq<byte>, pos: nat, mode: Reader)
    requires pos < |b|
    ensures var dEnd := pos + 1 + ExtensionLength(b[pos] / 16);
            var lEnd := dEnd + ExtensionLength(b[pos] % 16);
            var sc := ScanOption(b[pos..], mode);
            && (|b| < lEnd ==> sc.Overrun?)
            && (lEnd <= |b| ==>
                 var len := FieldValue(b[pos] % 16, b[dEnd..lEnd], Read16At(mode, |b| - dEnd));
                 if |b| < lEnd + len then sc.Overrun?
                 else
                   var delta := FieldValue(b[pos] / 16, b[pos + 1..dEnd], Read16At(mode, |b| - pos - 1));
                   sc == Scanned(delta, b[lEnd..lEnd + len], b[lEnd + len..]))
  {
    hide FieldValue, ExtensionLength, Read16At;
    var s := b[pos..];
    var dEnd := pos + 1 + ExtensionLength(b[pos] / 16);
    var lEnd := dEnd + ExtensionLength(b[pos] % 16);
    assert b[pos..|b|] == s;
    if lEnd <= |b| {
      SubSlice(b, pos, |b|, pos + 1, dEnd);
      SubSlice(b, pos, |b|, dEnd, lEnd);
      var len := FieldValue(b[pos] % 16, b[dEnd..lEnd], Read16At(mode, |b| - dEnd));
      if lEnd + len <= |b| {
        SubSlice(b, pos, |b|, lEnd, lEnd + len);
        SubSlice(b, pos, |b|, lEnd + len, |b|);
      }
    }
  }

  lemma CountStep(s: seq<byte>, mode: Reader)
    requires s != []
    ensures s[0] == MARKER ==> CountPass(s, mode) == Counted(0, s) && Overwritten(s, mode) == s
    ensures s[0] != MARKER ==>
              && !AtEnd(s)
              && CountPass(s, mode) == var sc := ScanOption(s, mode);
                                       if sc.Overrun? then Broken else PlusCount(1, CountPass(sc.rest, mode))
  {
    hide ScanOption;
  }

  lemma CountEnd(s: seq<byte>, mode: Reader)
    ensures AtEnd(s) ==> CountPass(s, mode) == Counted(0, s) && Overwritten(s, mode) == s
  {
  }

  function PlusCount(n: nat, t: Tally): Tally {
    if t.Broken? then Broken else Counted(n + t.n, t.rest)
  }

  // Behind the extension that was read everything is as it was.
  lemma TouchedBeyond(t: seq<byte>, prefix: byte, at: nat, mode: Reader, nbytes: nat)
    requires at + ExtensionLength(prefix) <= nbytes <= |t|
    ensures var u, next := Touched(t, prefix, at, mode, nbytes), at + ExtensionLength(prefix);
            |u| == |t| && u[next..] == t[next..] && u[next..nbytes] == t[next..nbytes] && SameOutside(t, u, at, nbytes)
  {
    TouchedShape(t, prefix, at, mode, nbytes);
    NothingTouched(t, at, nbytes);
    hide Touched, Memory16;
    if prefix == 14 && mode.AsWritten? {
      var ext := Memory16(mode.junk(nbytes - at));
      MemoryLength(mode.junk(nbytes - at));
      PatchInside(t, t, at, ext, at, nbytes);
      assert Patched(t, at, ext)[at + 2..] == t[at + 2..];
      assert Patched(t, at, ext)[at + 2..nbytes] == t[at + 2..][..nbytes - at - 2];
    }
  }

  lemma MemoryLength(v: u16)
    ensures |Memory16(v)| == 2
  {
  }

  // The first part: the header byte and the two extensions.
  method OptionHeader(buffer: Buffer, bpos: nat, mode: Reader) returns (num: u16, len: u16, pos: nat)
    requires buffer.Valid() && bpos < buffer.nbytes && bpos + LengthEnd(buffer.Contents()[bpos..]) <= buffer.nbytes
    modifies buffer.bytes
    ensures var b := old(buffer.Contents());
            var dEnd := bpos + 1 + ExtensionLength(b[bpos] / 16);
            && pos == dEnd + ExtensionLength(b[bpos] % 16)
            && num == FieldValue(b[bpos] / 16, b[bpos + 1..dEnd], Read16At(mode, |b| - bpos - 1))
            && len == FieldValue(b[bpos] % 16, b[dEnd..pos], Read16At(mode, |b| - dEnd))
    ensures buffer.bytes[pos..] == old(buffer.bytes[pos..]) && SameOutside(old(buffer.bytes[..]), buffer.bytes[..], bpos, buffer.nbytes)
  {
    hide FieldValue, Touched, SameOutside, Read16At, ExtensionLength;
    ghost var was, nbytes := buffer.bytes[..], buffer.nbytes;
    var byte;
    byte, pos := buffer.NextUint8(bpos);
    assert buffer.Contents()[bpos..][0] == byte;
    ghost var dEnd := pos + ExtensionLength(byte / 16);
    ghost var lEnd := dEnd + ExtensionLength(byte % 16);
    TouchedBeyond(was, byte / 16, pos, mode, nbytes);
    ghost var past;
    num, pos, past := OptionNumFromBuffer(buffer, byte / 16, pos, mode);
    ghost var between := buffer.bytes[..];
    SameBehind(was, between, dEnd, lEnd - dEnd, nbytes);
    TouchedBeyond(between, byte % 16, pos, mode, nbytes);
    len, pos, past := OptionNumFromBuffer(buffer, byte % 16, pos, mode);
    FurtherBehind(was, between, dEnd, lEnd);
    TouchTwice(was, between, buffer.bytes[..], bpos, bpos + 1, dEnd, nbytes);
  }

  // Reads one option that is known to lie inside the buffer. What follows it is as it was.
  method OptionFromBuffer(buffer: Buffer, prev: u16, bpos: nat, mode: Reader) returns (o: Opt, pos: nat)
    requires buffer.Valid() && bpos < buffer.nbytes
    requires ScanOption(buffer.Contents()[bpos..], mode).Scanned?
    modifies buffer.bytes
    ensures var sc := ScanOption(old(buffer.Contents())[bpos..], mode);
            && o == Opt(NextNum(prev, sc.delta), sc.value)
            && bpos < pos <= buffer.nbytes && sc.rest == old(buffer.Contents())[pos..] == buffer.Contents()[pos..]
    ensures SameOutside(old(buffer.bytes[..]), buffer.bytes[..], bpos, buffer.nbytes)
  {
    hide FieldValue, ScanOption, NextNum, SameOutside, Read16At, LengthEnd, ExtensionLength;
    ghost var was := buffer.bytes[..];
    ScanHasLength(buffer.Contents()[bpos..], mode);
    ScanBounds(buffer.Contents(), bpos, mode);
    var num, len, value;
    num, len, pos := OptionHeader(buffer, bpos, mode);
    SameBehind(was, buffer.bytes[..], pos, len, buffer.nbytes);
    value, pos := buffer.NextPtr(len, pos);
    o := Opt(NextNum(prev, num), value);
  }

  lemma FurtherBehind(s: seq<byte>, t: seq<byte>, at: nat, next: nat)
    requires at <= next <= |s| == |t| && t[at..] == s[at..]
    ensures t[next..] == s[next..]
  {
    SuffixOfSuffix(s, at, next - at);
    SuffixOfSuffix(t, at, next - at);
  }

  lemma SameBehind(s: seq<byte>, t: seq<byte>, at: nat, len: nat, nbytes: nat)
    requires at + len <= nbytes <= |s| == |t| && t[at..] == s[at..]
    ensures t[..nbytes][at..at + len] == s[..nbytes][at..at + len] && t[..nbytes][at + len..] == s[..nbytes][at + len..]
  {
    SameSlice(s, t, at, at, at + len, nbytes);
    SameSlice(s, t, at, at + len, nbytes, nbytes);
  }

  lemma SameSlice(s: seq<byte>, t: seq<byte>, at: nat, i: nat, j: nat, nbytes: nat)
    requires at <= i <= j <= nbytes <= |s| == |t| && t[at..] == s[at..]
    ensures t[..nbytes][i..j] == s[..nbytes][i..j]
  {
    SubSlice(s, 0, nbytes, i, j);
    SubSlice(t, 0, nbytes, i, j);
    SubSlice(s, at, |s|, i, j);
    SubSlice(t, at, |s|, i, j);
    assert s[at..|s|] == s[at..] && t[at..|s|] == t[at..] && s[0..nbytes] == s[..nbytes] && t[0..nbytes] == t[..nbytes];
  }

  lemma TouchTwice(s: seq<byte>, t: seq<byte>, u: seq<byte>, lo: nat, first: nat, second: nat, nbytes: nat)
    requires lo <= first <= second && SameOutside(s, t, first, nbytes) && SameOutside(t, u, second, nbytes)
    ensures SameOutside(s, u, lo, nbytes)
  {
    assert u[..lo] == u[..second][..lo] && t[..lo] == t[..second][..lo] && t[..lo] == t[..first][..lo] && s[..lo] == s[..first][..lo];
  }

  /** qsort: some sorting of the first count items, not necessarily a stable one. Callers know no more than that. */
  method OptionsSort(count: nat, items: array<Opt>)
    requires count <= items.Length
    modifies items
    ensures IsSorting(old(items[..count]), items[..count]) && items[count..] == old(items[count..])
  {
    StableSortSorts(items[..count]);
    var sorted := StableSort(items[..count]);
    assert |sorted| == |multiset(sorted)| == |multiset(items[..count])| == count;
    forall i | 0 <= i < count {
      items[i] := sorted[i];
    }
    assert items[..count] == sorted;
  }

  // The reading loop. It has no check of its own: that every read stays inside the buffer is what the count is for.
  method ReadOptions(buffer: Buffer, options: array<Opt>, bpos: nat, mode: Reader) returns (pos: nat)
    requires buffer.Valid() && bpos <= buffer.nbytes && ReadPass(options.Length, 0, buffer.Contents()[bpos..], mode).Read?
    modifies options, buffer.bytes
    ensures pos <= buffer.nbytes
    ensures ReadPass(options.Length, 0, old(buffer.Contents())[bpos..], mode) == Read(options[..], buffer.Contents()[pos..])
    ensures SameOutside(old(buffer.bytes[..]), buffer.bytes[..], bpos, buffer.nbytes)
  {
    hide ScanOption, NextNum, ReadPass, SameOutside, StillToRead;
    ghost var noptions, was := options.Length, buffer.bytes[..];
    ghost var all := ReadPass(noptions, 0, buffer.Contents()[bpos..], mode);
    NothingTouched(was, bpos, buffer.nbytes);
    ReadingStarts(noptions, buffer.Contents()[bpos..], mode);
    var prev := 0;
    pos := bpos;
    var i := 0;
    assert options[..i] == [];
    while i < options.Length
      invariant 0 <= i <= noptions && bpos <= pos <= buffer.nbytes
      invariant StillToRead(all, options[..i], noptions - i, prev, buffer.Contents()[pos..], mode)
      invariant SameOutside(was, buffer.bytes[..], bpos, buffer.nbytes)
    {
      ghost var done, start, before, s, last := options[..i], pos, buffer.bytes[..], buffer.Contents()[pos..], prev;
      ReadUnfolds(all, done, noptions - i, prev, s, mode);
      options[i], pos := OptionFromBuffer(buffer, prev, pos, mode);
      NarrowerTouch(was, before, buffer.bytes[..], bpos, start, buffer.nbytes);
      prev := options[i].num;
      i := i + 1;
      assert options[..i] == done + [options[i - 1]];
    }
    ReadingEnds(all, options[..i], prev, buffer.Contents()[pos..], mode);
    assert options[..i] == options[..];
  }

  // What a reading pass gives is done, and what n more options from s give.
  ghost predicate StillToRead(all: Reading, done: seq<Opt>, n: nat, prev: u16, s: seq<byte>, mode: Reader) {
    var r := ReadPass(n, prev, s, mode);
    r.Read? && all == Read(done + r.opts, r.rest)
  }

  lemma ReadingStarts(n: nat, s: seq<byte>, mode: Reader)
    requires ReadPass(n, 0, s, mode).Read?
    ensures StillToRead(ReadPass(n, 0, s, mode), [], n, 0, s, mode)
  {
    hide ReadPass;
    var opts := ReadPass(n, 0, s, mode).opts;
    assert [] + opts == opts;
  }

  lemma ReadingEnds(all: Reading, done: seq<Opt>, prev: u16, s: seq<byte>, mode: Reader)
    requires StillToRead(all, done, 0, prev, s, mode)
    ensures all == Read(done, s)
  {
    NothingRead(prev, s, mode);
    hide ReadPass;
    assert done + [] == done;
  }

  lemma ReadUnfolds(all: Reading, done: seq<Opt>, n: nat, prev: u16, s: seq<byte>, mode: Reader)
    requires n >= 1 && StillToRead(all, done, n, prev, s, mode)
    ensures |s| >= 1 && ScanOption(s, mode).Scanned?
    ensures var sc := ScanOption(s, mode);
            var o := Opt(NextNum(prev, sc.delta), sc.value);
            StillToRead(all, done + [o], n - 1, o.num, sc.rest, mode)
  {
    hide ScanOption, NextNum;
    assert s != [] && ScanOption(s, mode).Scanned?;
    var sc := ScanOption(s, mode);
    var o := Opt(NextNum(prev, sc.delta), sc.value);
    Regroup(done, [o], ReadPass(n - 1, o.num, sc.rest, mode).opts);
  }

  // What the reading pass finds after the counting pass, if that has counted anything.
  function Found(nbytes: nat, s: seq<byte>, counting: Reader, reading: Reader): Reading {
    ReadPass(CountOf(nbytes, s, counting), 0, Overwritten(s, counting), reading)
  }

  /** Counts, allocates, reads and sorts. Null exactly when nothing is counted. */
  method ListFromBuffer(buffer: Buffer, bpos: nat, counting: Reader, reading: Reader) returns (list: Option<seq<Opt>>, pos: nat)
    requires buffer.Valid() && bpos <= buffer.nbytes
    requires CountOf(buffer.nbytes, buffer.Contents()[bpos..], counting) > 0 ==>
               Found(buffer.nbytes, buffer.Contents()[bpos..], counting, reading).Read?
    modifies buffer.bytes
    ensures var s := old(buffer.Contents())[bpos..];
            if CountOf(buffer.nbytes, s, counting) == 0 then
              && list.None? && pos == bpos
              && (buffer.nbytes >= 4 && AtEnd(s) ==> buffer.Contents()[pos..] == s)
              && (pos < buffer.nbytes ==> buffer.bytes[pos] == s[0])
            else
              var r := Found(buffer.nbytes, s, counting, reading);
              && pos == buffer.nbytes - |r.rest| && buffer.Contents()[pos..] == r.rest
              && list.Some? && IsSorting(r.opts, list.value)
    ensures SameOutside(old(buffer.bytes[..]), buffer.bytes[..], bpos, buffer.nbytes)
  {
    hide IsSorting, CountPass, ReadPass, Overwritten, SameOutside;
    ghost var was, s := buffer.bytes[..], buffer.Contents()[bpos..];
    CountEnd(s, counting);
    var noptions, _ := CountOptions(buffer, bpos, counting);
    if noptions == 0 {
      return None, bpos;
    }
    ghost var counted := buffer.bytes[..];
    var options := new Opt[noptions];
    pos := ReadOptions(buffer, options, bpos, reading);
    NarrowerTouch(was, counted, buffer.bytes[..], bpos, bpos, buffer.nbytes);
    assert options[..noptions] == options[..];
    OptionsSort(noptions, options);
    list := Some(options[..noptions]);
  }
}
