/** Byte buffers with a cursor (mcoap/mc_buffer.c). */
module Buffers {
  import opened Bytes

  // s with the bytes of patch in place of those at pos.
  ghost function Patched(s: seq<byte>, pos: nat, patch: seq<byte>): seq<byte>
    requires pos + |patch| <= |s|
  {
    s[..pos] + patch + s[pos + |patch|..]
  }

  /** Two writes, one behind the other, are one write. */
  lemma PatchTwice(s: seq<byte>, pos: nat, a: seq<byte>, b: seq<byte>)
    requires pos + |a| + |b| <= |s|
    ensures Patched(Patched(s, pos, a), pos + |a|, b) == Patched(s, pos, a + b)
  {
  }

  // Two states of an array that agree outside [lo, hi).
  ghost predicate SameOutside(s: seq<byte>, t: seq<byte>, lo: nat, hi: nat) {
    |s| == |t| && lo <= hi <= |s| && s[..lo] == t[..lo] && s[hi..] == t[hi..]
  }

  lemma PatchInside(s: seq<byte>, t: seq<byte>, pos: nat, patch: seq<byte>, lo: nat, hi: nat)
    requires SameOutside(s, t, lo, hi) && lo <= pos && pos + |patch| <= hi
    ensures SameOutside(s, Patched(t, pos, patch), lo, hi)
  {
    var u := Patched(t, pos, patch);
    assert u[..lo] == t[..lo] && u[hi..] == t[hi..];
  }

  // memcpy of n bytes into an array.
  method Memcpy(dest: array<byte>, dpos: nat, src: seq<byte>)
    requires dpos + |src| <= dest.Length
    modifies dest
    ensures dest[..] == Patched(old(dest[..]), dpos, src)
  {
    forall i | 0 <= i < |src| {
      dest[dpos + i] := src[i];
    }
  }

  class Buffer {
    var nbytes: nat
    var bytes: array<byte>

    ghost predicate Valid()
      reads this
    {
      nbytes <= bytes.Length
    }

    ghost function Contents(): (s: seq<byte>)
      requires Valid()
      reads this, bytes
      ensures |s| == nbytes
    {
      bytes[..nbytes]
    }

    constructor (nbytes: nat, bytes: array<byte>)
      ensures this.nbytes == nbytes && this.bytes == bytes
    {
      this.nbytes := nbytes;
      this.bytes := bytes;
    }

    // The source reads wherever the cursor points; beyond the buffer the byte is anything.
    method NextUint8(bpos: nat) returns (byte: byte, pos: nat)
      requires Valid()
      ensures pos == bpos + 1
      ensures bpos < nbytes ==> byte == Contents()[bpos]
    {
      byte := *;
      if bpos < nbytes {
        byte := bytes[bpos];
      }
      pos := bpos + 1;
    }

    // The read as it is meant: the copy goes from the buffer to the result.
    method NextUint16(bpos: nat) returns (result: u16, pos: nat)
      requires Valid()
      ensures pos == bpos + 2
      ensures bpos + 2 <= nbytes ==> result == Load16(Contents()[bpos..bpos + 2])
    {
      result := *;
      if bpos + 2 <= nbytes {
        assert bytes[bpos..bpos + 2] == Contents()[bpos..bpos + 2];
        result := Load16(bytes[bpos..bpos + 2]);
      }
      pos := bpos + 2;
    }

    // How many of the two bytes at bpos lie inside the buffer.
    function Inside(bpos: nat): nat
      reads this
    {
      if bpos + 2 <= nbytes then 2 else if bpos + 1 == nbytes then 1 else 0
    }

    /**
     * The read as it is written: the copy goes from the result, never assigned and so holding any value,
     * into the buffer. It writes two bytes, as many of them beyond the buffer as do not fit.
     */
    method NextUint16AsWritten(bpos: nat, junk: u16) returns (result: u16, pos: nat, ghost beyond: nat)
      requires Valid()
      modifies bytes
      ensures pos == bpos + 2 && result == junk && beyond == 2 - Inside(bpos)
      ensures bpos <= nbytes ==> bytes[..] == Patched(old(bytes[..]), bpos, Memory16(junk)[..Inside(bpos)])
      ensures bpos > nbytes ==> bytes[..] == old(bytes[..])
    {
      result := junk;
      if bpos <= nbytes {
        Memcpy(bytes, bpos, Memory16(result)[..Inside(bpos)]);
      }
      beyond := 2 - Inside(bpos);
      pos := bpos + 2;
    }

    method NextUint32(bpos: nat) returns (result: u32, pos: nat)
      requires Valid() && bpos + 4 <= nbytes
      ensures pos == bpos + 4 && result == Load32(Contents()[bpos..bpos + 4])
    {
      assert bytes[bpos..bpos + 4] == Contents()[bpos..bpos + 4];
      result := Load32(bytes[bpos..bpos + 4]);
      pos := bpos + 4;
    }

    // A pointer into the buffer, copied at once by every caller: the bytes it points at.
    method NextPtr(len: nat, bpos: nat) returns (data: seq<byte>, pos: nat)
      requires Valid() && bpos + len <= nbytes
      ensures pos == bpos + len && data == Contents()[bpos..bpos + len]
    {
      data := bytes[bpos..bpos + len];
      pos := bpos + len;
    }

    // mc_buffer_copy_to, from a source of |src| bytes taken whole.
    method CopyFrom(dpos: nat, src: seq<byte>) returns (ok: bool)
      requires Valid() && dpos <= nbytes
      modifies bytes
      ensures ok <==> dpos + |src| <= nbytes
      ensures ok ==> bytes[..] == Patched(old(bytes[..]), dpos, src)
      ensures !ok ==> bytes[..] == old(bytes[..])
    {
      if nbytes - dpos < |src| {
        return false;
      }
      Memcpy(bytes, dpos, src);
      ok := true;
    }

    // mc_buffer_copy: a fresh array, or null when the source has too few bytes.
    method Copy(spos: nat, n: nat) returns (r: array?<byte>)
      requires Valid() && spos <= nbytes
      ensures r == null <==> spos + n > nbytes
      ensures r != null ==> fresh(r) && r[..] == Contents()[spos..spos + n]
    {
      if nbytes - spos < n {
        return null;
      }
      var data := bytes[spos..spos + n];
      r := new byte[n](i requires 0 <= i < n => data[i]);
    }
  }
}
