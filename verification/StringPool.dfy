/** The kernel's string caches: lazily filled tables and a linear memory-size cache, all of
    which must be invisible to their callers. */
module StringPool {
  import opened Words
  import opened Decimal

  const MAX_PERCENTAGE := 100
  const MAX_NUMBER_CACHE := 10000
  const MAX_MEMORY_CACHE := 2000

  // ---------------------------------------------------------------------
  // What each call returns without any cache
  // ---------------------------------------------------------------------

  function NumberText(value: i64): string { SignedNumeral(value) }

  function PercentText(value: i32): string {
    Numeral(if value < 0 then 0 else if value > MAX_PERCENTAGE then MAX_PERCENTAGE else value, 10) + "%"
  }

  function MemoryText(bytes: u64): string {
    var mb := bytes / 0x10_0000;
    var gb := mb / 1024;
    if gb > 0 then Numeral(gb, 10) + " GB"
    else if mb == 0 then Numeral(bytes / 1024, 10) + " KB"
    else Numeral(mb, 10) + " MB"
  }

  function TwoDigits(n: nat): string { if n < 10 then "0" + Numeral(n, 10) else Numeral(n, 10) }

  function UptimeText(ticks: u64): string {
    var totalSec := ticks / 1000;
    Numeral(totalSec / 3600, 10) + ":" + TwoDigits(totalSec / 60 % 60) + ":" + TwoDigits(totalSec % 60)
  }

  function TransferText(kbps: i32): string {
    if kbps >= 1024 then NumberText(kbps / 1024) + " MB/s" else NumberText(kbps) + " KB/s"
  }

  /** Values outside 0 to 100 read as the nearer end. */
  lemma PercentTextMeaning(value: i32)
    ensures value <= 0 ==> PercentText(value) == "0%"
    ensures 0 <= value <= 100 ==> PercentText(value) == Numeral(value, 10) + "%"
    ensures value >= 100 ==> PercentText(value) == "100%"
  {
    assert Numeral(0, 10) == "0" && Numeral(1, 10) == "1" && Numeral(10, 10) == "10";
    assert Numeral(100, 10) == "100";
  }

  /** From 1024 KB/s on the rate is in MB/s, rounded down; below, and for negative rates, it is in KB/s. */
  lemma TransferTextUnit(kbps: i32)
    ensures kbps >= 1024 ==> exists n: nat :: TransferText(kbps) == Numeral(n, 10) + " MB/s"
                                              && n >= 1 && n * 1024 <= kbps < (n + 1) * 1024
    ensures 0 <= kbps < 1024 ==> TransferText(kbps) == Numeral(kbps, 10) + " KB/s"
    ensures var n: int := kbps; n < 0 ==> TransferText(kbps) == "-" + Numeral(-n, 10) + " KB/s"
  {
    hide Numeral;
    if kbps >= 1024 {
      var n := kbps / 1024;
      assert TransferText(kbps) == Numeral(n, 10) + " MB/s" && n >= 1 && n * 1024 <= kbps < (n + 1) * 1024;
    }
  }

  /** The unit is the largest in which the size is at least one, and the shown amount is exact
      to within that unit. */
  lemma MemoryTextUnit(bytes: u64)
    ensures bytes >= 0x4000_0000 ==> exists n: nat :: MemoryText(bytes) == Numeral(n, 10) + " GB"
                                                      && n >= 1 && n * 0x4000_0000 <= bytes < (n + 1) * 0x4000_0000
    ensures 0x10_0000 <= bytes < 0x4000_0000 ==>
              exists n: nat :: MemoryText(bytes) == Numeral(n, 10) + " MB"
                               && 1 <= n < 1024 && n * 0x10_0000 <= bytes < (n + 1) * 0x10_0000
    ensures bytes < 0x10_0000 ==>
              exists n: nat :: MemoryText(bytes) == Numeral(n, 10) + " KB"
                               && n < 1024 && n * 1024 <= bytes < (n + 1) * 1024
  {
    var mb := bytes / 0x10_0000;
    var gb := mb / 1024;
    if bytes >= 0x4000_0000 {
      assert MemoryText(bytes) == Numeral(gb, 10) + " GB" && gb >= 1;
      assert gb * 0x4000_0000 <= bytes < (gb + 1) * 0x4000_0000;
    } else if bytes >= 0x10_0000 {
      assert MemoryText(bytes) == Numeral(mb, 10) + " MB" && 1 <= mb < 1024;
    } else {
      assert MemoryText(bytes) == Numeral(bytes / 1024, 10) + " KB" && bytes / 1024 < 1024;
    }
  }

  /** The uptime text names the hours, minutes and seconds of the whole seconds passed, minutes
      and seconds with two digits each. */
  lemma UptimeFields(ticks: u64)
    ensures exists h: nat, m: nat, sec: nat ::
              && h * 3600 + m * 60 + sec == ticks / 1000 && m < 60 && sec < 60
              && |TwoDigits(m)| == |TwoDigits(sec)| == 2 && Value(TwoDigits(m)) == m && Value(TwoDigits(sec)) == sec
              && UptimeText(ticks) == Numeral(h, 10) + ":" + TwoDigits(m) + ":" + TwoDigits(sec)
  {
    hide Numeral, Value, TwoDigits;
    var total := ticks / 1000;
    var h, m, sec := total / 3600, total / 60 % 60, total % 60;
    assert h * 3600 + m * 60 + sec == total;
    TwoDigitsMeaning(m);
    TwoDigitsMeaning(sec);
    assert UptimeText(ticks) == Numeral(h, 10) + ":" + TwoDigits(m) + ":" + TwoDigits(sec);
  }

  lemma TwoDigitsMeaning(n: nat)
    requires n < 100
    ensures |TwoDigits(n)| == 2 && Value(TwoDigits(n)) == n
  {
    ValueOfNumeral(n);
    if n < 10 {
      assert Value("0") == 0 by { assert "0"[..0] == []; }
      assert TwoDigits(n)[..1] == "0";
      assert Numeral(n, 10)[..0] == [];
    }
  }

  // ---------------------------------------------------------------------
  // The pool
  // ---------------------------------------------------------------------

  class StringPool {
    const percentageStrings: array<Option<string>>
    const numberStrings: array<Option<string>>
    const memorySizeCache: array<string>
    const memorySizeCacheKeys: array<u64>
    var memorySizeCacheCount: nat

    /** Every filled entry is what the uncached computation gives; cached sizes are distinct. */
    ghost predicate Valid()
      reads this, percentageStrings, numberStrings, memorySizeCache, memorySizeCacheKeys
    {
      && percentageStrings != numberStrings
      && percentageStrings.Length == MAX_PERCENTAGE + 1 && numberStrings.Length == MAX_NUMBER_CACHE + 1
      && memorySizeCache.Length == memorySizeCacheKeys.Length == MAX_MEMORY_CACHE
      && memorySizeCacheCount <= MAX_MEMORY_CACHE
      && (forall i | 0 <= i <= MAX_PERCENTAGE ::
            percentageStrings[i].Some? ==> percentageStrings[i].value == Numeral(i, 10) + "%")
      && NumbersOk()
      && MemoryOk()
    }

    ghost predicate NumbersOk()
      reads this, numberStrings
      requires numberStrings.Length == MAX_NUMBER_CACHE + 1
    {
      forall i | 0 <= i <= MAX_NUMBER_CACHE :: numberStrings[i].Some? ==> numberStrings[i].value == Numeral(i, 10)
    }

    ghost predicate MemoryOk()
      reads this, memorySizeCache, memorySizeCacheKeys
      requires memorySizeCacheCount <= MAX_MEMORY_CACHE == memorySizeCache.Length == memorySizeCacheKeys.Length
    {
      && (forall i | 0 <= i < memorySizeCacheCount :: memorySizeCache[i] == MemoryText(memorySizeCacheKeys[i]))
      && (forall i, j | 0 <= i < j < memorySizeCacheCount :: memorySizeCacheKeys[i] != memorySizeCacheKeys[j])
    }

    /** The static constructor, when its allocations succeed. */
    constructor ()
      ensures Valid() && memorySizeCacheCount == 0 && memorySizeCache.Length == memorySizeCacheKeys.Length == 2000
      ensures percentageStrings.Length == 101 && numberStrings.Length == 10001
      ensures forall i | 0 <= i <= MAX_PERCENTAGE :: percentageStrings[i] == None
      ensures forall i | 0 <= i <= MAX_NUMBER_CACHE :: numberStrings[i] == None
      ensures fresh(percentageStrings) && fresh(numberStrings) && fresh(memorySizeCache) && fresh(memorySizeCacheKeys)
    {
      percentageStrings := new Option<string>[MAX_PERCENTAGE + 1](_ => None);
      numberStrings := new Option<string>[MAX_NUMBER_CACHE + 1](_ => None);
      memorySizeCache := new string[MAX_MEMORY_CACHE](_ => "");
      memorySizeCacheKeys := new u64[MAX_MEMORY_CACHE](_ => 0);
      memorySizeCacheCount := 0;
    }

    method GetPercentage(value: i32) returns (s: string)
      requires Valid()
      modifies percentageStrings
      ensures Valid() && s == PercentText(value)
      ensures forall i | 0 < i < 100 && i != value :: percentageStrings[i] == old(percentageStrings[i])
      ensures 0 <= value <= 100 ==> percentageStrings[value] == Some(s)
    {
      hide Numeral;
      var v: int := value;
      if v < 0 { v := 0; }
      if v > MAX_PERCENTAGE { v := MAX_PERCENTAGE; }
      if percentageStrings[v] == None {
        var digits := PrintSigned(v);
        assert SignedNumeral(v) == Numeral(v, 10);
        percentageStrings[v] := Some(digits + "%");
      }
      return percentageStrings[v].value;
    }

    /** GetNumber(int). */
    method GetNumber(value: i32) returns (s: string)
      requires Valid()
      modifies numberStrings
      ensures Valid() && s == NumberText(value)
      ensures forall i | 0 <= i <= 10000 && i != value :: numberStrings[i] == old(numberStrings[i])
      ensures 0 <= value <= 10000 ==> numberStrings[value] == Some(s)
    {
      hide Numeral, MemoryText;
      if value < 0 || value > MAX_NUMBER_CACHE {
        s := PrintSigned(value);
        return;
      }
      if numberStrings[value] == None {
        var digits := PrintSigned(value);
        numberStrings[value] := Some(digits);
      }
      return numberStrings[value].value;
    }

    /** GetNumber(ulong), over the same table. */
    method GetNumberUnsigned(value: u64) returns (s: string)
      requires Valid()
      modifies numberStrings
      ensures Valid() && s == Numeral(value, 10)
      ensures forall i | 0 <= i <= 10000 && i != value :: numberStrings[i] == old(numberStrings[i])
      ensures value <= 10000 ==> numberStrings[value] == Some(s)
    {
      hide Numeral, MemoryText;
      if value > MAX_NUMBER_CACHE {
        s := PrintUnsigned(value, 10);
        return;
      }
      if numberStrings[value] == None {
        var digits := PrintUnsigned(value, 10);
        numberStrings[value] := Some(digits);
      }
      return numberStrings[value].value;
    }

    /** The computation behind GetMemorySize, with its own branches for large amounts. */
    method ComputeMemorySize(bytes: u64) returns (result: string)
      requires Valid()
      modifies numberStrings
      ensures Valid() && result == MemoryText(bytes)
    {
      hide Numeral, StringPool.Valid;
      var mb: u64 := bytes / 0x10_0000;
      var gb: u64 := mb / 1024;
      if gb > 0 {
        if gb <= MAX_NUMBER_CACHE {
          var n := GetNumberUnsigned(gb);
          result := n + " GB";
        } else {
          var n := PrintUnsigned(gb, 10);
          result := n + " GB";
        }
      } else if mb == 0 {
        var kb: u64 := bytes / 1024;
        if kb == 0 {
          ZeroNumeral();
          result := "0" + " KB";
        } else if kb <= MAX_NUMBER_CACHE {
          var n := GetNumberUnsigned(kb);
          result := n + " KB";
        } else {
          var n := PrintUnsigned(kb, 10);
          result := n + " KB";
        }
      } else if mb <= MAX_NUMBER_CACHE {
        var n := GetNumberUnsigned(mb);
        result := n + " MB";
      } else {
        var n := PrintUnsigned(mb, 10);
        result := n + " MB";
      }
    }

    /** The linear search of the cache. */
    method FindCached(bytes: u64) returns (found: Option<string>)
      requires Valid()
      ensures found.Some? ==> found.value == MemoryText(bytes)
                              && exists i | 0 <= i < memorySizeCacheCount :: memorySizeCacheKeys[i] == bytes
      ensures found == None ==> forall i | 0 <= i < memorySizeCacheCount :: memorySizeCacheKeys[i] != bytes
    {
      for i := 0 to memorySizeCacheCount
        invariant forall j | 0 <= j < i :: memorySizeCacheKeys[j] != bytes
      {
        if memorySizeCacheKeys[i] == bytes {
          return Some(memorySizeCache[i]);
        }
      }
      return None;
    }

    /** GetMemorySize: the same text whether found or computed; a new size is added while there is room. */
    method GetMemorySize(bytes: u64) returns (s: string)
      requires Valid()
      modifies this, numberStrings, memorySizeCache, memorySizeCacheKeys
      ensures Valid() && s == MemoryText(bytes)
      ensures var known := exists i | 0 <= i < old(memorySizeCacheCount) :: old(memorySizeCacheKeys[i]) == bytes;
              if known || old(memorySizeCacheCount) == 2000 then
                memorySizeCacheCount == old(memorySizeCacheCount)
              else
                && memorySizeCacheCount == old(memorySizeCacheCount) + 1 <= 2000
                && memorySizeCacheKeys[old(memorySizeCacheCount)] == bytes
      ensures forall i | 0 <= i < old(memorySizeCacheCount) :: memorySizeCacheKeys[i] == old(memorySizeCacheKeys[i])
    {
      hide Numeral, MemoryText;
      var found := FindCached(bytes);
      if found.Some? {
        return found.value;
      }
      s := ComputeMemorySize(bytes);
      if memorySizeCacheCount < MAX_MEMORY_CACHE {
        memorySizeCacheKeys[memorySizeCacheCount] := bytes;
        memorySizeCache[memorySizeCacheCount] := s;
        memorySizeCacheCount := memorySizeCacheCount + 1;
      }
    }

    method GetTransferRate(kbps: i32) returns (s: string)
      requires Valid()
      modifies numberStrings
      ensures Valid() && s == TransferText(kbps)
    {
      hide SignedNumeral, Numeral, StringPool.Valid;
      if kbps >= 1024 {
        var n := GetNumber(kbps / 1024);
        return n + " MB/s";
      }
      var n := GetNumber(kbps);
      return n + " KB/s";
    }

    method FormatUptime(ticks: u64) returns (s: string)
      requires Valid()
      modifies numberStrings
      ensures Valid() && s == UptimeText(ticks)
    {
      hide Numeral, StringPool.Valid;
      var totalSec: u64 := ticks / 1000;
      var sec: u64, m: u64, h: u64 := totalSec % 60, totalSec / 60 % 60, totalSec / 3600;
      var hStr := GetNumberUnsigned(h);
      var mStr := GetNumberUnsigned(m);
      if m < 10 { mStr := "0" + mStr; }
      var sStr := GetNumberUnsigned(sec);
      if sec < 10 { sStr := "0" + sStr; }
      return hStr + ":" + mStr + ":" + sStr;
    }

    method ClearMemorySizeCache()
      requires Valid()
      modifies this
      ensures Valid() && memorySizeCacheCount == 0
    {
      memorySizeCacheCount := 0;
    }
  }

  lemma ZeroNumeral()
    ensures Numeral(0, 10) == "0"
  {
  }
}
