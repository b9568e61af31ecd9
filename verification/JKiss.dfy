/** The JKISS pseudo-random generator: a congruential word, an xorshift word and a
    multiply-with-carry word, combined in 32 bits. */
module JKiss {
  import opened Words

  const MULTIPLIER := 4_294_584_393

  datatype State = State(x: u32, y: bv32, z: u32, c: u32)

  function Seeded(seed: i32): State { State(Wrap32(seed), 987654321, 43219876, 6543217) }

  // The three steps of the xorshift word.
  function Left5(y: bv32): bv32 { y ^ (y << 5) }

  function Right7(y: bv32): bv32 { y ^ (y >> 7) }

  function Left22(y: bv32): bv32 { y ^ (y << 22) }

  function XorShift(y: bv32): bv32 { Left22(Right7(Left5(y))) }

  function Word(y: bv32): u32 { y as int }

  /** The 64-bit product plus carry. */
  function Product(s: State): int { MULTIPLIER * s.z + s.c }

  function Next(s: State): State {
    var t := Wrap64(Product(s));
    State(Wrap32(314527869 * s.x + 1234567), XorShift(s.y), t % TWO_32, t / TWO_32)
  }

  function Output(s: State): u32 { Wrap32(s.x + Word(s.y) + s.z) }

  /** The generator is alive: the xorshift word is not stuck at 0 and the carry is below the multiplier. */
  predicate Alive(s: State) { s.y != 0 && s.c < MULTIPLIER }

  lemma XorShiftStaysNonzero(y: bv32)
    requires y != 0
    ensures XorShift(y) != 0
  {
    assert Left5(y) != 0;
    assert Right7(Left5(y)) != 0;
  }

  /** Every step keeps the generator alive, and its product plus carry never overflows 64 bits. */
  lemma NextStaysAlive(s: State)
    requires Alive(s)
    ensures 0 <= Product(s) < TWO_64 && Alive(Next(s))
    ensures Product(s) == Next(s).z + TWO_32 * Next(s).c
  {
    XorShiftStaysNonzero(s.y);
    assert Product(s) <= MULTIPLIER * (TWO_32 - 1) + MULTIPLIER - 1;
  }

  /** The state after n outputs. */
  function Run(s: State, n: nat): State {
    if n == 0 then s else Next(Run(s, n - 1))
  }

  /** ... over every run from every seed. */
  lemma {:induction false} RunStaysAlive(seed: i32, n: nat)
    ensures Alive(Run(Seeded(seed), n)) && 0 <= Product(Run(Seeded(seed), n)) < TWO_64
  {
    if n > 0 {
      RunStaysAlive(seed, n - 1);
      NextStaysAlive(Run(Seeded(seed), n - 1));
    }
    NextStaysAlive(Run(Seeded(seed), n));
  }

  // ---------------------------------------------------------------------
  // No step loses information
  // ---------------------------------------------------------------------

  /** 314527869 has an inverse modulo 2^32. */
  lemma CongruentialInjective(x: u32, w: u32)
    requires Wrap32(314527869 * x + 1234567) == Wrap32(314527869 * w + 1234567)
    ensures x == w
  {
    Undone(x);
    Undone(w);
  }

  lemma Undone(x: u32)
    ensures (1644210389 * (Wrap32(314527869 * x + 1234567) - 1234567)) % TWO_32 == x
  {
    var n: int := 314527869 * x + 1234567;
    var q, r := n / 0x1_0000_0000, n % 0x1_0000_0000;
    assert n == 0x1_0000_0000 * q + r;
    var h: int := 120408365 * x - 1644210389 * q;
    assert 1644210389 * (r - 1234567) == 0x1_0000_0000 * h + x;
    RemainderOf(h, x);
  }

  lemma RemainderOf(h: int, x: u32)
    ensures (0x1_0000_0000 * h + x) % 0x1_0000_0000 == x
  {
  }

  // The shifts undone.
  function Back5(y: bv32): bv32 { y ^ (y << 5) ^ (y << 10) ^ (y << 15) ^ (y << 20) ^ (y << 25) ^ (y << 30) }

  function Back7(y: bv32): bv32 { y ^ (y >> 7) ^ (y >> 14) ^ (y >> 21) ^ (y >> 28) }

  lemma ShiftsUndone(y: bv32)
    ensures Back5(Left5(y)) == y && Back7(Right7(y)) == y && Left22(Left22(y)) == y
  {
  }

  lemma XorShiftInjective(y: bv32, w: bv32)
    requires XorShift(y) == XorShift(w)
    ensures y == w
  {
    hide Left5, Right7, Left22, Back5, Back7;
    ShiftsUndone(y);
    ShiftsUndone(w);
    ShiftsUndone(Left5(y));
    ShiftsUndone(Left5(w));
    ShiftsUndone(Right7(Left5(y)));
    ShiftsUndone(Right7(Left5(w)));
  }

  /** No two living states have the same successor: the generator runs through a cycle, from every
      seed, and never falls into one it did not start on. */
  lemma NextInjective(s: State, t: State)
    requires Alive(s) && Alive(t) && Next(s) == Next(t)
    ensures s == t
  {
    NextStaysAlive(s);
    NextStaysAlive(t);
    CongruentialInjective(s.x, t.x);
    XorShiftInjective(s.y, t.y);
    QuotientUnique(s.z, s.c, t.z, t.c);
  }

  lemma QuotientUnique(z: u32, c: u32, w: u32, d: u32)
    requires MULTIPLIER * z + c == MULTIPLIER * w + d && c < MULTIPLIER && d < MULTIPLIER
    ensures z == w && c == d
  {
  }

  /** Output number n of a run, counted from 0. */
  function Draw(s: State, n: nat): u32 { Output(Run(s, n + 1)) }

  /** The first three outputs of the default seed. */
  lemma FirstDraws()
    ensures Draw(Seeded(123456789), 0) == 0x2164_9B69
    ensures Draw(Seeded(123456789), 1) == 0x9B20_C329
    ensures Draw(Seeded(123456789), 2) == 0x9789_3D74
  {
    FirstState();
    SecondState();
    ThirdState();
  }

  lemma FirstState()
    ensures Run(Seeded(123456789), 1) == State(3299314120, 2060540012, 3790321973, 43216022)
  {
    assert Run(Seeded(123456789), 0) == Seeded(123456789);
  }

  lemma SecondState()
    ensures Run(Seeded(123456789), 2) == State(1026006319, 1903927623, 3967648947, 3789984059)
  {
    FirstState();
  }

  lemma ThirdState()
    ensures Run(Seeded(123456789), 3) == State(3516548730, 4088633012, 3527106630, 3967295225)
  {
    SecondState();
  }

  class Random {
    var x: u32
    var y: bv32
    var z: u32
    var c: u32

    constructor (seed: i32)
      ensures St() == Seeded(seed)
    {
      x, y, z, c := Wrap32(seed), 987654321, 43219876, 6543217;
    }

    function St(): State
      reads this
    {
      State(x, y, z, c)
    }

    method JKiss() returns (r: u32)
      modifies this
      ensures St() == Next(old(St())) && r == Output(St())
    {
      hide Wrap32, Wrap64, Left5, Right7, Left22, Word;
      x := Wrap32(314527869 * x + 1234567);
      y := Left5(y);
      y := Right7(y);
      y := Left22(y);
      var t := Wrap64(MULTIPLIER * z + c);
      c := t / TWO_32;
      z := t % TWO_32;
      r := Wrap32(x + Word(y) + z);
    }

    /** Next(min, max): every result of a non-empty range lies in it, also when the span
        exceeds 2^31 and the casts wrap. */
    method NextInRange(minValue: i32, maxValue: i32) returns (r: i32)
      modifies this
      ensures minValue < maxValue ==> minValue <= r < maxValue
      ensures minValue > maxValue ==> r == 0
      ensures minValue == maxValue ==> r == minValue
      ensures maxValue - minValue <= 1 ==> St() == old(St())
      ensures maxValue - minValue > 1 ==>
                St() == Next(old(St())) && r == minValue + Output(St()) % (maxValue - minValue)
    {
      if minValue > maxValue {
        return 0;
      }
      var min: int, max: int := minValue, maxValue;
      var diff: int := Wrap32(Signed32(max - min));
      SpanIsExact(max - min);
      if diff <= 1 {
        return minValue;
      }
      var k := JKiss();
      var d: int := k % diff;
      CastsCancel(min, d);
      return Signed32(min + Signed32(d));
    }

    /** NextBytes: four bytes of each output, most significant first; a tail shorter than
        four takes one more output, least significant first. */
    method NextBytes(buffer: array?<byte>)
      modifies this, if buffer == null then {} else {buffer}
      ensures buffer == null ==> St() == old(St())
      ensures buffer != null ==>
                && (forall k | 0 <= k < buffer.Length / 4 * 4 ::
                      buffer[k] == ByteOf(Draw(old(St()), k / 4), 3 - k % 4))
                && (forall k | buffer.Length / 4 * 4 <= k < buffer.Length ::
                      buffer[k] == ByteOf(Draw(old(St()), buffer.Length / 4), k - buffer.Length / 4 * 4))
                && St() == Run(old(St()), (buffer.Length + 3) / 4)
    {
      hide Next, Output, ByteOf;
      if buffer == null {
        return;
      }
      var p := 0;
      for i := 0 to buffer.Length / 4
        invariant p == 4 * i && St() == Run(old(St()), i)
        invariant forall k | 0 <= k < p :: buffer[k] == ByteOf(Draw(old(St()), k / 4), 3 - k % 4)
      {
        var random := JKiss();
        assert random == Draw(old(St()), i);
        buffer[p] := ByteOf(random, 3);
        buffer[p + 1] := ByteOf(random, 2);
        buffer[p + 2] := ByteOf(random, 1);
        buffer[p + 3] := ByteOf(random, 0);
        p := p + 4;
      }
      if p == buffer.Length {
        return;
      }
      var random := JKiss();
      assert random == Draw(old(St()), buffer.Length / 4);
      FillTail(buffer, p, random);
    }

    /** The rest of the buffer, one byte of the word at a time. */
    method FillTail(buffer: array<byte>, start: nat, value: u32)
      requires start <= buffer.Length <= start + 3
      modifies buffer
      ensures forall k | 0 <= k < start :: buffer[k] == old(buffer[k])
      ensures forall k | start <= k < buffer.Length :: buffer[k] == ByteOf(value, k - start)
    {
      var p, random := start, value;
      while p < buffer.Length
        invariant start <= p <= buffer.Length && random == Shifted(value, p - start)
        invariant forall k | 0 <= k < start :: buffer[k] == old(buffer[k])
        invariant forall k | start <= k < p :: buffer[k] == ByteOf(value, k - start)
      {
        ShiftByte(value, p - start);
        buffer[p] := random % 0x100;
        p := p + 1;
        random := random / 0x100;
      }
    }
  }

  /** Byte i of a word. */
  function ByteOf(v: u32, i: int): byte {
    if i == 3 then v / 0x100_0000 else if i == 2 then v / 0x1_0000 % 0x100
    else if i == 1 then v / 0x100 % 0x100 else v % 0x100
  }

  /** The bytes make up the word, byte 0 with the least weight. */
  lemma BytesMakeWord(v: u32)
    ensures v == ByteOf(v, 0) + 256 * ByteOf(v, 1) + 65536 * ByteOf(v, 2) + 16777216 * ByteOf(v, 3)
  {
    assert v / 0x1_0000 == v / 0x100 / 0x100 && v / 0x100_0000 == v / 0x1_0000 / 0x100;
  }

  function Shifted(v: u32, n: nat): u32 {
    if n == 0 then v else Shifted(v, n - 1) / 0x100
  }

  lemma ShiftByte(v: u32, n: nat)
    requires n < 3
    ensures Shifted(v, n) % 0x100 == ByteOf(v, n) && Shifted(v, n + 1) == Shifted(v, n) / 0x100
  {
    assert Shifted(v, 1) == v / 0x100 && Shifted(v, 2) == v / 0x100 / 0x100;
    assert v / 0x100 / 0x100 == v / 0x1_0000;
  }

  lemma SpanIsExact(span: int)
    requires 0 <= span < TWO_32
    ensures Wrap32(Signed32(span)) == span
  {
  }

  /** The two casts around the sum cancel when the sum is itself a 32-bit integer. */
  lemma CastsCancel(min: int, d: int)
    requires -TWO_31 <= min < TWO_31 && 0 <= d < TWO_32
    ensures -TWO_31 <= min + d < TWO_31 ==> Signed32(min + Signed32(d)) == min + d
  {
  }
}
