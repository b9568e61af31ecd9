/** Little-endian fields and slice assignment on byte strings. */
module Bytes {
  import opened Words

  type bytes = seq<byte>

  // Fields as they are read; None when the field is not wholly inside the string.
  function U16(b: bytes, off: nat): (r: Option<u16>)
    ensures r.Some? <==> off + 2 <= |b|
  {
    if off + 2 <= |b| then
      var s: seq<int> := b[off..off + 2];
      Some(s[0] + 0x100 * s[1])
    else None
  }

  function U32(b: bytes, off: nat): (r: Option<u32>)
    ensures r.Some? <==> off + 4 <= |b|
  {
    if off + 4 <= |b| then
      var s: seq<int> := b[off..off + 4];
      Some(s[0] + 0x100 * s[1] + 0x1_0000 * s[2] + 0x100_0000 * s[3])
    else None
  }

  function U64(b: bytes, off: nat): (r: Option<u64>)
    ensures r.Some? <==> off + 8 <= |b|
  {
    var lo, hi := U32(b, off), U32(b, off + 4);
    if hi.Some? && lo.Some? then Some(lo.value + TWO_32 * hi.value) else None
  }

  function LittleEndian(b: seq<nat>): nat {
    if b == [] then 0 else b[0] + 256 * LittleEndian(b[1..])
  }

  /** A field is the number its bytes spell, lowest first. */
  lemma {:induction false} FieldsSpell(b: bytes, off: nat)
    ensures off + 2 <= |b| ==> U16(b, off) == Some(LittleEndian(b[off..off + 2]))
    ensures off + 4 <= |b| ==> U32(b, off) == Some(LittleEndian(b[off..off + 4]))
    ensures off + 8 <= |b| ==> U64(b, off) == Some(LittleEndian(b[off..off + 8]))
  {
    if off + 2 <= |b| {
      SpelledByTwo(b[off..off + 2]);
    }
    if off + 4 <= |b| {
      SpelledByFour(b[off..off + 4]);
    }
    if off + 8 <= |b| {
      SpelledByFour(b[off + 4..off + 8]);
      SpelledInParts(b[off..off + 4], b[off + 4..off + 8]);
      assert b[off..off + 8] == b[off..off + 4] + b[off + 4..off + 8];
    }
  }

  lemma SpelledByTwo(s: seq<nat>)
    requires |s| == 2
    ensures LittleEndian(s) == s[0] + 256 * s[1]
  {
    assert s[1..][1..] == [];
    assert LittleEndian(s[1..]) == s[1] + 256 * LittleEndian([]);
  }

  lemma SpelledByFour(s: seq<nat>)
    requires |s| == 4
    ensures LittleEndian(s) == s[0] + 256 * (s[1] + 256 * (s[2] + 256 * s[3]))
  {
    SpelledByTwo(s[2..]);
    assert s[1..][1..] == s[2..];
  }

  lemma SpelledInParts(low: seq<nat>, high: seq<nat>)
    requires |low| == 4
    ensures LittleEndian(low + high) == LittleEndian(low) + 0x1_0000_0000 * LittleEndian(high)
  {
    var s := low + high;
    assert s[1..][1..][1..][1..] == high;
    assert low[1..][1..][1..][1..] == [];
    assert LittleEndian(s[1..][1..][1..]) == s[3] + 256 * LittleEndian(high);
    assert LittleEndian(s[1..][1..]) == s[2] + 256 * LittleEndian(s[1..][1..][1..]);
    SpelledByFour(low);
  }

  /** A slice that clips to the string instead of failing. */
  function Slice(b: bytes, lo: nat, hi: nat): bytes {
    var h := Min(hi, |b|);
    if lo < h then b[lo..h] else []
  }

  // Fields as they are written.
  function Le16(n: u16): (r: bytes)
    ensures |r| == 2
  { [n % 0x100, n / 0x100] }

  function Le32(n: u32): (r: bytes)
    ensures |r| == 4
  { [n % 0x100, n / 0x100 % 0x100, n / 0x1_0000 % 0x100, n / 0x100_0000] }

  function Le64(n: u64): (r: bytes)
    ensures |r| == 8
  { Le32(n % TWO_32) + Le32(n / TWO_32) }

  /** A field is read back as written, wherever it stands. */
  lemma ReadBack16(b: bytes, off: nat, n: u16)
    requires off + 2 <= |b| && b[off..off + 2] == Le16(n)
    ensures U16(b, off) == Some(n)
  {
  }

  lemma ReadBack32(b: bytes, off: nat, n: u32)
    requires off + 4 <= |b| && b[off..off + 4] == Le32(n)
    ensures U32(b, off) == Some(n)
  {
    FourDigits(n);
  }

  lemma FourDigits(n: u32)
    ensures n == n % 0x100 + 0x100 * (n / 0x100 % 0x100) + 0x1_0000 * (n / 0x1_0000 % 0x100)
                 + 0x100_0000 * (n / 0x100_0000)
  {
    assert n / 0x1_0000 == n / 0x100 / 0x100;
    assert n / 0x100_0000 == n / 0x1_0000 / 0x100;
  }

  lemma ReadBack64(b: bytes, off: nat, n: u64)
    requires off + 8 <= |b| && b[off..off + 8] == Le64(n)
    ensures U64(b, off) == Some(n)
  {
    assert b[off..off + 4] == b[off..off + 8][..4];
    assert b[off + 4..off + 8] == b[off..off + 8][4..];
    ReadBack32(b, off, n % TWO_32);
    ReadBack32(b, off + 4, n / TWO_32);
  }

  /** The other way round: the bytes of a field are those written for its value. */
  lemma WrittenBack16(b: bytes, off: nat)
    requires off + 2 <= |b|
    ensures b[off..off + 2] == Le16(U16(b, off).value)
  {
    var s: seq<int> := b[off..off + 2];
    assert U16(b, off).value == s[0] + 0x100 * s[1];
  }

  lemma WrittenBack32(b: bytes, off: nat)
    requires off + 4 <= |b|
    ensures b[off..off + 4] == Le32(U32(b, off).value)
  {
    var s: seq<int> := b[off..off + 4];
    var h := s[2] + 0x100 * s[3];
    assert U32(b, off).value == s[0] + 0x100 * (s[1] + 0x100 * h);
    Digits(s[0], s[1], h);
  }

  lemma Digits(a: byte, b: byte, h: nat)
    requires a + 0x100 * (b + 0x100 * h) < TWO_32
    ensures var n: u32 := a + 0x100 * (b + 0x100 * h);
            n % 0x100 == a && n / 0x100 % 0x100 == b && n / 0x1_0000 % 0x100 == h % 0x100 && n / 0x100_0000 == h / 0x100
  {
    var n: u32 := a + 0x100 * (b + 0x100 * h);
    assert n / 0x100 == b + 0x100 * h;
    assert n / 0x1_0000 == h;
  }

  lemma WrittenBack64(b: bytes, off: nat)
    requires off + 8 <= |b|
    ensures b[off..off + 8] == Le64(U64(b, off).value)
  {
    hide U32, Le32;
    WrittenBack32(b, off);
    WrittenBack32(b, off + 4);
    assert b[off..off + 8] == b[off..off + 4] + b[off + 4..off + 8];
    var lo: u32, hi: u32 := U32(b, off).value, U32(b, off + 4).value;
    assert U64(b, off).value == lo + TWO_32 * hi;
  }

  function Zeros(n: nat): (r: bytes)
    ensures |r| == n && forall i | 0 <= i < n :: r[i] == 0
  {
    seq(n, _ => 0)
  }

  /** The string with part of it overwritten. */
  function Overlay(base: bytes, off: nat, data: bytes): (r: bytes)
    requires off + |data| <= |base|
  {
    base[..off] + data + base[off + |data|..]
  }

  lemma OverlayAt(base: bytes, off: nat, data: bytes, k: nat)
    requires off + |data| <= |base| && k < |base|
    ensures |Overlay(base, off, data)| == |base|
    ensures Overlay(base, off, data)[k] == if off <= k < off + |data| then data[k - off] else base[k]
  {
  }

  /** A slice away from the written range is untouched, the written range holds the data. */
  lemma OverlaySlices(base: bytes, off: nat, data: bytes, lo: nat, hi: nat)
    requires off + |data| <= |base| && lo <= hi <= |base|
    ensures var r := Overlay(base, off, data);
            && |r| == |base|
            && r[off..off + |data|] == data
            && (hi <= off || off + |data| <= lo ==> r[lo..hi] == base[lo..hi])
  {
  }

  /** A part of a slice, addressed in the whole string. */
  lemma PartOfSlice(b: bytes, off: nat, s: bytes, lo: nat, hi: nat)
    requires off + |s| <= |b| && b[off..off + |s|] == s && lo <= hi <= |s|
    ensures b[off + lo..off + hi] == s[lo..hi]
  {
    var t := b[off..off + |s|];
    forall i | 0 <= i < hi - lo ensures b[off + lo..off + hi][i] == t[lo..hi][i] {}
  }
}
