/** Fixed-width integers, byte order and the Option type shared by every module. */
module Bytes {
  type byte = x: int | 0 <= x < 0x100
  type u16 = x: int | 0 <= x < 0x1_0000
  type u32 = x: int | 0 <= x < 0x1_0000_0000

  datatype Option<+T> = None | Some(value: T)

  // How a little-endian host lays an integer out in memory: what memcpy reads and writes.
  function Memory16(v: u16): seq<byte> {
    [v % 256, v / 256]
  }

  function Memory32(v: u32): seq<byte> {
    [v % 256, v / 256 % 256, v / 65536 % 256, v / 16777216]
  }

  function Load16(m: seq<byte>): u16
    requires |m| == 2
  {
    m[0] as int + 256 * m[1] as int
  }

  function Load32(m: seq<byte>): u32
    requires |m| == 4
  {
    m[0] as int + 256 * m[1] as int + 65536 * m[2] as int + 16777216 * m[3] as int
  }

  function SwapU16(i: u16): u16 {
    var c1, c2 := i % 256, i / 256;
    c1 * 256 + c2
  }

  function SwapU32(i: u32): u32 {
    var c1, c2, c3, c4 := i % 256, i / 256 % 256, i / 65536 % 256, i / 16777216;
    c1 * 16777216 + c2 * 65536 + c3 * 256 + c4
  }

  // Network (big-endian) order, stated without reference to a host.
  function Network16(v: u16): seq<byte> {
    [v / 256, v % 256]
  }

  function Network32(v: u32): seq<byte> {
    [v / 16777216, v / 65536 % 256, v / 256 % 256, v % 256]
  }

  /** Swapping before the copy out puts a 16-bit value in network order; swapping after the copy in reads it back. */
  lemma SwapIsNetworkOrder16(v: u16)
    ensures Memory16(SwapU16(v)) == Network16(v)
    ensures SwapU16(Load16(Network16(v))) == v
    ensures SwapU16(SwapU16(v)) == v
  {
    assert SwapU16(v) / 256 == v % 256 && SwapU16(v) % 256 == v / 256;
  }

  /** Four bytes are recovered from the integer they compose. */
  lemma DigitsOf(a: byte, b: byte, c: byte, d: byte)
    ensures Memory32(Load32([a, b, c, d])) == [a, b, c, d]
    ensures Network32(Load32([a, b, c, d])) == [d, c, b, a]
    ensures SwapU32(Load32([a, b, c, d])) == Load32([d, c, b, a])
  {
    var v := Load32([a, b, c, d]);
    assert v / 16777216 == d;
    assert v / 65536 == c as int + 256 * d as int;
    assert v / 256 == b as int + 256 * c as int + 65536 * d as int;
  }

  lemma LoadOfMemory32(v: u32)
    ensures Load32(Memory32(v)) == v
  {
    var q := v / 256;
    assert v / 65536 == q / 256 && v / 16777216 == q / 65536;
    var r := q / 256;
    assert q / 65536 == r / 256;
    assert v == v % 256 + 256 * q && q == q % 256 + 256 * r && r == r % 256 + 256 * (r / 256);
  }

  lemma SwapIsNetworkOrder32(v: u32)
    ensures Memory32(SwapU32(v)) == Network32(v)
    ensures SwapU32(Load32(Network32(v))) == v
    ensures SwapU32(SwapU32(v)) == v
  {
    LoadOfMemory32(v);
    var m := Memory32(v);
    assert m == [m[0], m[1], m[2], m[3]];
    DigitsOf(m[0], m[1], m[2], m[3]);
    DigitsOf(m[3], m[2], m[1], m[0]);
  }

  /** The other direction: any four bytes are the network form of the value they load to. */
  lemma NetworkOfLoad32(m: seq<byte>)
    requires |m| == 4
    ensures Network32(SwapU32(Load32(m))) == m
  {
    assert m == [m[0], m[1], m[2], m[3]];
    DigitsOf(m[0], m[1], m[2], m[3]);
    DigitsOf(m[3], m[2], m[1], m[0]);
  }

  // Integer division.

  lemma DivModUnique(x: int, m: int, q: int, r: int)
    requires 0 <= r < m && x == q * m + r
    ensures x / m == q && x % m == r
  {
    var d := x / m - q;
    assert d * m == r - x % m by {
      assert x == (x / m) * m + x % m;
      assert (x / m - q) * m == (x / m) * m - q * m;
    }
    NoWholeMultiple(d, m, r - x % m);
  }

  lemma NoWholeMultiple(d: int, m: int, e: int)
    requires m > 0 && d * m == e && -m < e < m
    ensures d == 0
  {
  }

  // Cutting and rejoining sequences.

  lemma CutPrefix<T>(a: seq<T>, b: seq<T>)
    ensures (a + b)[..|a|] == a && (a + b)[|a|..] == b
  {
  }

  lemma TakeThenDrop<T>(s: seq<T>, i: nat, j: nat)
    requires i <= j <= |s|
    ensures s[..j][i..] == s[i..j]
  {
  }

  lemma SplitAt<T>(s: seq<T>, i: nat, k: nat, j: nat)
    requires i <= k <= j <= |s|
    ensures s[i..j] == s[i..k] + s[k..j]
  {
  }

  lemma Regroup<T>(a: seq<T>, b: seq<T>, c: seq<T>)
    ensures (a + b) + c == a + (b + c)
  {
  }

  lemma Rejoin<T>(s: seq<T>, i: nat, j: nat)
    requires i <= j <= |s|
    ensures s == s[..i] + s[i..j] + s[j..]
  {
  }

  lemma SuffixOfSuffix<T>(s: seq<T>, i: nat, j: nat)
    requires i <= |s| && j <= |s| - i
    ensures s[i..][j..] == s[i + j..]
  {
  }

  lemma SubSlice<T>(s: seq<T>, lo: nat, hi: nat, i: nat, j: nat)
    requires lo <= i <= j <= hi <= |s|
    ensures s[lo..hi][i - lo..j - lo] == s[i..j]
  {
    var u := s[lo..hi];
    forall k | 0 <= k < j - i ensures u[i - lo..j - lo][k] == s[i..j][k] {
      assert u[i - lo..j - lo][k] == u[i - lo + k] == s[i + k];
    }
  }
}
