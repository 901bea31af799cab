/**
 * The 32-bit message header (mcoap/mc_header.c): section 3 of RFC 7252 fixes the five fields, the
 * source cuts them out with masks and shifts. Masking and or-ing are defined bit by bit here.
 */
module Header {
  import opened Bytes

  const VERSION_MASK: u32 := 0xC000_0000
  const MTYPE_MASK: u32 := 0x3000_0000
  const TKLEN_MASK: u32 := 0x0F00_0000
  const CODE_MASK: u32 := 0x00FF_0000
  const MID_MASK: u32 := 0x0000_FFFF

  const VERSION_OFFSET := 30
  const MTYPE_OFFSET := 28
  const TKLEN_OFFSET := 24
  const CODE_OFFSET := 16

  const CONFIRM := 0
  const NOCONFIRM := 1
  const ACK := 2
  const MESSAGE_VERSION := 1

  // Bitwise operations on naturals.

  function Pow2(k: nat): (r: nat)
    ensures r >= 1
  {
    if k == 0 then 1 else 2 * Pow2(k - 1)
  }

  function And(x: nat, y: nat): nat
    decreases x + y
  {
    if x == 0 || y == 0 then 0 else (x % 2) * (y % 2) + 2 * And(x / 2, y / 2)
  }

  function Or(x: nat, y: nat): nat
    decreases x + y
  {
    if x == 0 then y else if y == 0 then x
    else (if x % 2 == 1 || y % 2 == 1 then 1 else 0) + 2 * Or(x / 2, y / 2)
  }

  function ShiftLeft(x: nat, k: nat): u32 {
    x * Pow2(k) % 0x1_0000_0000
  }

  function ShiftRight(x: nat, k: nat): int {
    x / Pow2(k)
  }

  function Create(version: byte, messageType: byte, tokenLength: u32, code: byte, messageId: u16): nat {
    var header := And(VERSION_MASK, ShiftLeft(version, VERSION_OFFSET));
    var header := Or(header, And(MTYPE_MASK, ShiftLeft(messageType, MTYPE_OFFSET)));
    var header := Or(header, And(TKLEN_MASK, ShiftLeft(tokenLength, TKLEN_OFFSET)));
    var header := Or(header, And(CODE_MASK, ShiftLeft(code, CODE_OFFSET)));
    Or(header, And(MID_MASK, messageId))
  }

  function GetVersion(header: u32): int {
    ShiftRight(And(VERSION_MASK, header), VERSION_OFFSET)
  }

  function GetMessageType(header: u32): int {
    ShiftRight(And(MTYPE_MASK, header), MTYPE_OFFSET)
  }

  function GetTokenLength(header: u32): int {
    ShiftRight(And(TKLEN_MASK, header), TKLEN_OFFSET)
  }

  function GetCode(header: u32): int {
    ShiftRight(And(CODE_MASK, header), CODE_OFFSET)
  }

  function GetMessageId(header: u32): int {
    And(MID_MASK, header)
  }

  // Masks with contiguous bits are quotient-remainder arithmetic.

  /** Halving both sides: x modulo 2m is the low bit and twice the half of x modulo m. */
  lemma ModDouble(x: nat, m: nat)
    requires m >= 1
    ensures x % (2 * m) == x % 2 + 2 * (x / 2 % m)
    ensures x / (2 * m) == x / 2 / m
  {
    var q, r := x / 2 / m, x / 2 % m;
    assert x == q * (2 * m) + (x % 2 + 2 * r) by {
      assert x / 2 == q * m + r;
    }
    DivModUnique(x, 2 * m, q, x % 2 + 2 * r);
  }

  // And, bit by bit, zeros included.
  lemma AndStep(x: nat, y: nat)
    ensures And(x, y) == (if x % 2 == 1 && y % 2 == 1 then 1 else 0) + 2 * And(x / 2, y / 2)
  {
    if x == 0 || y == 0 {
      assert And(x / 2, y / 2) == 0;
    } else {
      LowBit(x % 2, y % 2);
    }
  }

  lemma LowBit(a: nat, b: nat)
    requires a < 2 && b < 2
    ensures a * b == if a == 1 && b == 1 then 1 else 0
  {
  }

  lemma {:induction false} AndLowMask(x: nat, w: nat)
    ensures And(Pow2(w) - 1, x) == x % Pow2(w)
    decreases w
  {
    AndStep(Pow2(w) - 1, x);
    if w > 0 {
      hide And;
      AndLowMask(x / 2, w - 1);
      ModDouble(x, Pow2(w - 1));
      assert (Pow2(w) - 1) / 2 == Pow2(w - 1) - 1 && (Pow2(w) - 1) % 2 == 1;
    }
  }

  // A mask of w ones above k zeros.
  function Mask(w: nat, k: nat): nat {
    if k == 0 then Pow2(w) - 1 else 2 * Mask(w, k - 1)
  }

  lemma {:induction false} MaskValue(w: nat, k: nat)
    ensures Mask(w, k) == (Pow2(w) - 1) * Pow2(k)
  {
    if k > 0 {
      MaskValue(w, k - 1);
      Double(Pow2(w) - 1, Pow2(k - 1));
    } else {
      assert Pow2(0) == 1;
    }
  }

  lemma Double(a: nat, p: nat)
    ensures 2 * (a * p) == a * (2 * p)
  {
  }

  lemma Cut(x: nat, w: nat, k: nat)
    requires k >= 1
    ensures x / Pow2(k) % Pow2(w) * Pow2(k) == 2 * (x / 2 / Pow2(k - 1) % Pow2(w) * Pow2(k - 1))
  {
    ModDouble(x, Pow2(k - 1));
    Double(x / 2 / Pow2(k - 1) % Pow2(w), Pow2(k - 1));
  }

  lemma {:induction false} AndField(x: nat, w: nat, k: nat)
    ensures And(Mask(w, k), x) == x / Pow2(k) % Pow2(w) * Pow2(k)
    decreases k
  {
    if k == 0 {
      AndLowMask(x, w);
    } else {
      hide And;
      AndField(x / 2, w, k - 1);
      AndStep(Mask(w, k), x);
      assert Mask(w, k) % 2 == 0 && Mask(w, k) / 2 == Mask(w, k - 1);
      hide Mask, Pow2;
      Cut(x, w, k);
    }
  }

  lemma {:induction false} OrDisjoint(x: nat, y: nat, k: nat)
    requires x % Pow2(k) == 0 && y < Pow2(k)
    ensures Or(x, y) == x + y
    decreases k
  {
    if k > 0 && x > 0 && y > 0 {
      ModDouble(x, Pow2(k - 1));
      OrDisjoint(x / 2, y / 2, k - 1);
    }
  }

  // The header as its five fields.
  function Pack(version: nat, messageType: nat, tokenLength: nat, code: nat, messageId: nat): nat {
    version * 0x4000_0000 + messageType * 0x1000_0000 + tokenLength * 0x100_0000 + code * 0x1_0000 + messageId
  }

  lemma Masks()
    ensures Mask(2, 30) == VERSION_MASK && Mask(2, 28) == MTYPE_MASK && Mask(4, 24) == TKLEN_MASK
    ensures Mask(8, 16) == CODE_MASK && Mask(16, 0) == MID_MASK
  {
    PowersOfTwo();
    MaskValue(2, 30);
    MaskValue(2, 28);
    MaskValue(4, 24);
    MaskValue(8, 16);
    MaskValue(16, 0);
  }

  lemma PowersOfTwo()
    ensures Pow2(2) == 4 && Pow2(4) == 16 && Pow2(8) == 256 && Pow2(16) == 0x1_0000
    ensures Pow2(24) == 0x100_0000 && Pow2(28) == 0x1000_0000 && Pow2(30) == 0x4000_0000
  {
  }

  /** Shifting left by k inside 32 bits keeps the low 32 - k bits. */
  lemma Placed(x: nat, unit: nat, room: nat)
    requires unit * room == 0x1_0000_0000
    ensures x * unit % 0x1_0000_0000 == x % room * unit
    ensures x * unit % 0x1_0000_0000 / unit == x % room
  {
    var q, r := x / room, x % room;
    assert x * unit == q * (room * unit) + r * unit by {
      assert x == q * room + r;
    }
    assert r * unit < room * unit;
    DivModUnique(x * unit, 0x1_0000_0000, q, r * unit);
    DivModUnique(r * unit, unit, r, 0);
  }

  /** A value shifted to position k and masked there with w ones keeps its low w bits. */
  lemma PlacedField(x: nat, w: nat, k: nat, room: nat)
    requires Pow2(k) * room == 0x1_0000_0000
    ensures And(Mask(w, k), ShiftLeft(x, k)) == x % room % Pow2(w) * Pow2(k)
  {
    Placed(x, Pow2(k), room);
    AndField(ShiftLeft(x, k), w, k);
  }

  lemma Narrow(version: byte, messageType: byte, tokenLength: u32, code: byte)
    ensures version % 4 % 4 == version % 4 && messageType % 16 % 4 == messageType % 4
    ensures tokenLength % 256 % 16 == tokenLength % 16 && code % 0x1_0000 % 256 == code
  {
    var q, r := tokenLength / 256, tokenLength % 256;
    DivModUnique(tokenLength, 16, 16 * q + r / 16, r % 16);
  }

  /** What Create computes: each argument truncated to its field, in the place RFC 7252 section 3 gives it. */
  lemma CreatePacks(version: byte, messageType: byte, tokenLength: u32, code: byte, messageId: u16)
    ensures Create(version, messageType, tokenLength, code, messageId)
         == Pack(version % 4, messageType % 4, tokenLength % 16, code, messageId)
  {
    hide And, Or, Pow2, Mask;
    PowersOfTwo();
    Masks();
    PlacedField(version, 2, 30, 4);
    PlacedField(messageType, 2, 28, 16);
    PlacedField(tokenLength, 4, 24, 256);
    PlacedField(code, 8, 16, 0x1_0000);
    AndLowMask(messageId, 16);
    Narrow(version, messageType, tokenLength, code);
    OrFields(version % 4, messageType % 4, tokenLength % 16, code, messageId);
  }

  lemma OrFields(v: nat, t: nat, l: nat, c: nat, id: nat)
    requires v < 4 && t < 4 && l < 16 && c < 256 && id < 0x1_0000
    ensures Or(Or(Or(Or(v * 0x4000_0000, t * 0x1000_0000), l * 0x100_0000), c * 0x1_0000), id) == Pack(v, t, l, c, id)
  {
    hide Or, Pow2;
    PowersOfTwo();
    var h := v * 0x4000_0000;
    OrDisjoint(h, t * 0x1000_0000, 30);
    h := h + t * 0x1000_0000;
    OrDisjoint(h, l * 0x100_0000, 28);
    h := h + l * 0x100_0000;
    OrDisjoint(h, c * 0x1_0000, 24);
    h := h + c * 0x1_0000;
    OrDisjoint(h, id, 16);
  }

  /** The getters read the fields of a packed header. */
  lemma GettersUnpack(h: u32)
    ensures GetVersion(h) == h / 0x4000_0000 && GetMessageType(h) == h / 0x1000_0000 % 4
    ensures GetTokenLength(h) == h / 0x100_0000 % 16 && GetCode(h) == h / 0x1_0000 % 256
    ensures GetMessageId(h) == h % 0x1_0000
  {
    hide And, Mask, Pow2;
    PowersOfTwo();
    Masks();
    AndField(h, 2, 30);
    AndField(h, 2, 28);
    AndField(h, 4, 24);
    AndField(h, 8, 16);
    AndLowMask(h, 16);
  }

  lemma PackFields(v: nat, t: nat, l: nat, c: nat, id: nat)
    requires v < 4 && t < 4 && l < 16 && c < 256 && id < 0x1_0000
    ensures var h := Pack(v, t, l, c, id);
            && h < 0x1_0000_0000 && h / 0x4000_0000 == v && h / 0x1000_0000 % 4 == t && h / 0x100_0000 % 16 == l
            && h / 0x1_0000 % 256 == c && h % 0x1_0000 == id
  {
    var h := Pack(v, t, l, c, id);
    assert h / 0x1_0000 == v * 0x4000 + t * 0x1000 + l * 0x100 + c;
    assert h / 0x100_0000 == v * 0x40 + t * 0x10 + l;
    assert h / 0x1000_0000 == v * 4 + t;
  }

  /**
   * Reading back what Create packed. Version and type survive when they fit their two bits, the token
   * length when it fits its four, code and id always.
   */
  lemma HeaderRoundTrip(version: byte, messageType: byte, tokenLength: u32, code: byte, messageId: u16)
    ensures var h := Create(version, messageType, tokenLength, code, messageId);
            && h < 0x1_0000_0000
            && GetVersion(h) == version % 4
            && GetMessageType(h) == messageType % 4
            && GetTokenLength(h) == tokenLength % 16
            && GetCode(h) == code
            && GetMessageId(h) == messageId
  {
    CreatePacks(version, messageType, tokenLength, code, messageId);
    PackFields(version % 4, messageType % 4, tokenLength % 16, code, messageId);
    GettersUnpack(Pack(version % 4, messageType % 4, tokenLength % 16, code, messageId));
  }

  // Four bytes hold a header: what its getters return is at the places of the figure in section 3 of RFC 7252.
  predicate ShownBy(h: u32, a: byte, b: byte, c: byte, d: byte) {
    && GetVersion(h) == a / 64 && GetMessageType(h) == a / 16 % 4 && GetTokenLength(h) == a % 16
    && GetCode(h) == b && GetMessageId(h) == 256 * c as int + d as int
  }

  /** They do exactly when the header is their number, big end first. */
  lemma ShownByIff(h: u32, a: byte, b: byte, c: byte, d: byte)
    ensures ShownBy(h, a, b, c, d) <==> h == 16777216 * a as int + 65536 * b as int + 256 * c as int + d as int
  {
    GettersUnpack(h);
    hide GetVersion, GetMessageType, GetTokenLength, GetCode, GetMessageId, Pack;
    Repack(h);
    BytePlaces(a, b, c, d);
    PackOfBytes(a, b, c, d);
  }

  lemma PackOfBytes(a: byte, b: byte, c: byte, d: byte)
    ensures Pack(a / 64, a / 16 % 4, a % 16, b, 256 * c as int + d as int)
         == 16777216 * a as int + 65536 * b as int + 256 * c as int + d as int
  {
    assert a == 64 * (a / 64) + 16 * (a / 16 % 4) + a % 16;
  }

  /** On the wire a header of fields that fit is four bytes: version, type and token length in the first, then code and id. */
  lemma CreateOnWire(version: byte, messageType: byte, tokenLength: nat, code: byte, messageId: u16)
    requires version < 4 && messageType < 4 && tokenLength < 16
    ensures Create(version, messageType, tokenLength, code, messageId) < 0x1_0000_0000
    ensures Network32(Create(version, messageType, tokenLength, code, messageId))
         == [64 * version + 16 * messageType + tokenLength, code, messageId / 256, messageId % 256]
  {
    hide Create, Network32, Pack;
    CreatePacks(version, messageType, tokenLength, code, messageId);
    Fits(version, messageType, tokenLength);
    PackOnWire(version, messageType, tokenLength, code, messageId);
  }

  lemma PackOnWire(v: byte, t: byte, l: nat, c: byte, id: u16)
    requires v < 4 && t < 4 && l < 16
    ensures Pack(v, t, l, c, id) < 0x1_0000_0000
    ensures Network32(Pack(v, t, l, c, id)) == [64 * v + 16 * t + l, c, id / 256, id % 256]
  {
    var a, hi, lo := 64 * v + 16 * t + l, id / 256, id % 256;
    assert Pack(v, t, l, c, id) == Load32([lo, hi, c, a]);
    DigitsOf(lo, hi, c, a);
    hide Network32, Load32, Pack;
  }

  lemma BytePlaces(a: byte, b: byte, c: byte, d: byte)
    ensures var h := 16777216 * a as int + 65536 * b as int + 256 * c as int + d as int;
            && h / 0x4000_0000 == a / 64 && h / 0x1000_0000 % 4 == a / 16 % 4 && h / 0x100_0000 % 16 == a % 16
            && h / 0x1_0000 % 256 == b && h % 0x1_0000 == 256 * c as int + d as int
  {
    var h := 16777216 * a as int + 65536 * b as int + 256 * c as int + d as int;
    assert h / 0x1_0000 == 256 * a as int + b as int && h % 0x1_0000 == 256 * c as int + d as int;
    assert h / 0x100_0000 == a && h / 0x1000_0000 == a / 16;
  }

  lemma Repack(h: u32)
    ensures Pack(h / 0x4000_0000, h / 0x1000_0000 % 4, h / 0x100_0000 % 16, h / 0x1_0000 % 256, h % 0x1_0000) == h
  {
    var a := h / 0x1_0000;
    var b := a / 256;
    var c := b / 16;
    assert h / 0x100_0000 == b && h / 0x1000_0000 == c && h / 0x4000_0000 == c / 4;
  }

  lemma Fits(version: nat, messageType: nat, tokenLength: nat)
    requires version < 4 && messageType < 4 && tokenLength < 16
    ensures version % 4 == version && messageType % 4 == messageType && tokenLength % 16 == tokenLength
  {
  }

  /** Arguments that fit their fields pack to a header exactly when they are what its five getters return. */
  lemma FieldsDetermineHeader(h: u32, version: byte, messageType: byte, tokenLength: u32, code: byte, messageId: u16)
    requires version < 4 && messageType < 4 && tokenLength < 16
    ensures Create(version, messageType, tokenLength, code, messageId) == h <==>
              && version == GetVersion(h) && messageType == GetMessageType(h) && tokenLength == GetTokenLength(h)
              && code == GetCode(h) && messageId == GetMessageId(h)
  {
    GettersUnpack(h);
    Repack(h);
    Fits(version, messageType, tokenLength);
    CreatePacks(version, messageType, tokenLength, code, messageId);
    HeaderRoundTrip(version, messageType, tokenLength, code, messageId);
    hide Create, GetVersion, GetMessageType, GetTokenLength, GetCode, GetMessageId;
  }
}
