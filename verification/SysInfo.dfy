/** The memory part of do_sysinfo() and of the 32-bit compat sysinfo call of kernel/sys.c. Machine
    words are naturals below U64; a left shift drops the bits above. */
module SysInfo {
  const U32 := 0x1_0000_0000
  const U64 := 0x1_0000_0000_0000_0000

  /** The memory fields of struct sysinfo. */
  datatype Memory = Memory(totalram: nat, freeram: nat, sharedram: nat, bufferram: nat,
                           totalswap: nat, freeswap: nat, totalhigh: nat, freehigh: nat, unit: nat)

  /** What si_meminfo() and si_swapinfo() fill in: words, with parts no larger than their totals. */
  ghost predicate Filled(m: Memory) {
    && m.totalram < U64 && m.totalswap < U64 && m.unit < U32
    && m.freeram <= m.totalram && m.sharedram <= m.totalram && m.bufferram <= m.totalram
    && m.totalhigh <= m.totalram && m.freehigh <= m.totalhigh && m.freeswap <= m.totalswap
  }

  function Pow2(k: nat): (p: nat)
    ensures p > 0
  {
    if k == 0 then 1 else 2 * Pow2(k - 1)
  }

  /** Position of the highest set bit of a unit (0 for 0). */
  function Bits(unit: nat): nat { if unit <= 1 then 0 else 1 + Bits(unit / 2) }

  /** x * 2^k, unbounded and as a 64-bit word. */
  function Times2(x: nat, k: nat): nat { if k == 0 then x else 2 * Times2(x, k - 1) }
  function Shl(x: nat, k: nat): nat { Times2(x, k) % U64 }
  function Shr(x: nat, k: nat): nat { if k == 0 then x else Shr(x / 2, k - 1) }

  /** All eight amounts through one function. */
  function Each(m: Memory, f: nat -> nat): Memory {
    Memory(f(m.totalram), f(m.freeram), f(m.sharedram), f(m.bufferram),
           f(m.totalswap), f(m.freeswap), f(m.totalhigh), f(m.freehigh), m.unit)
  }

  function Down(m: Memory, k: nat): Memory { Each(m, x => Shr(x, k)) }

  /** The amounts in bytes, as unbounded numbers. */
  function Bytes(m: Memory): Memory { Each(m, x => x * m.unit).(unit := 1) }

  // ---------------------------------------------------------------- arithmetic

  lemma {:induction false} BitsOfPow2(k: nat)
    ensures Bits(Pow2(k)) == k
  {
    if k > 0 { BitsOfPow2(k - 1); }
  }

  lemma {:induction false} Pow2OfBits(unit: nat)
    requires unit > 0
    ensures Pow2(Bits(unit)) <= unit < 2 * Pow2(Bits(unit))
  {
    if unit > 1 { Pow2OfBits(unit / 2); }
  }

  lemma {:induction false} Pow2Grows(a: nat, b: nat)
    requires a <= b
    ensures Pow2(a) <= Pow2(b)
  {
    if a < b { Pow2Grows(a, b - 1); }
  }

  lemma {:induction false} Times2IsProduct(x: nat, k: nat)
    ensures Times2(x, k) == x * Pow2(k)
  {
    if k > 0 { Times2IsProduct(x, k - 1); }
  }

  lemma {:induction false} Times2Grows(x: nat, a: nat, b: nat)
    requires a <= b
    ensures Times2(x, a) <= Times2(x, b)
  {
    if a < b { Times2Grows(x, a, b - 1); }
  }

  lemma {:induction false} Times2Monotone(x: nat, y: nat, k: nat)
    requires x <= y
    ensures Times2(x, k) <= Times2(y, k)
  {
    if k > 0 { Times2Monotone(x, y, k - 1); }
  }

  lemma ShlExact(x: nat, bound: nat, k: nat)
    requires x <= bound && Times2(bound, k) < U64
    ensures Shl(x, k) == Times2(x, k)
  {
    Times2Monotone(x, bound, k);
  }

  lemma {:induction false} ShrUndoesTimes2(x: nat, k: nat)
    ensures Shr(Times2(x, k), k) == x
  {
    if k > 0 { ShrUndoesTimes2(x, k - 1); }
  }

  lemma MulMonotone(a: nat, b: nat, p: nat)
    requires a <= b
    ensures a * p <= b * p
  {
  }

  /** Doubling a word overflows exactly when the result is smaller. */
  lemma DoublingWraps(x: nat)
    requires x < U64
    ensures x * 2 % U64 < x <==> 2 * x >= U64
    ensures 2 * x < U64 ==> x * 2 % U64 == 2 * x
  {
  }

  // ---------------------------------------------------------------- do_sysinfo

  /** Does the total amount in bytes, taking the unit for 2^Bits(unit), fit in 64 bits? */
  predicate Scales(m: Memory) { Times2(m.totalram + m.totalswap, Bits(m.unit)) < U64 }

  function Scaled(m: Memory): Memory { Each(m, x => Shl(x, Bits(m.unit))).(unit := 1) }

  function Reported(m: Memory): Memory { if Scales(m) then Scaled(m) else m }

  method DoSysinfo(filled: Memory) returns (info: Memory)
    requires Filled(filled)
    ensures info == Reported(filled)
  {
    info := filled;
    var memTotal := (info.totalram + info.totalswap) % U64;
    ghost var total := info.totalram + info.totalswap;
    if memTotal < info.totalram || memTotal < info.totalswap {
      Times2Grows(total, 0, Bits(filled.unit));
      return;
    }
    var bitcount := 0;
    var memUnit := info.unit;
    while memUnit > 1
      invariant Bits(memUnit) + bitcount == Bits(filled.unit)
      invariant memTotal == Times2(total, bitcount) < U64
    {
      bitcount := bitcount + 1;
      memUnit := memUnit / 2;
      var savTotal := memTotal;
      memTotal := memTotal * 2 % U64;
      DoublingWraps(savTotal);
      if memTotal < savTotal {
        Times2Grows(total, bitcount, Bits(filled.unit));
        return;
      }
    }
    info := info.(unit := 1,
      totalram := Shl(info.totalram, bitcount), freeram := Shl(info.freeram, bitcount),
      sharedram := Shl(info.sharedram, bitcount), bufferram := Shl(info.bufferram, bitcount),
      totalswap := Shl(info.totalswap, bitcount), freeswap := Shl(info.freeswap, bitcount),
      totalhigh := Shl(info.totalhigh, bitcount), freehigh := Shl(info.freehigh, bitcount));
  }

  /** No shift loses a bit. */
  lemma ScalingIsExact(m: Memory)
    requires Filled(m) && Scales(m)
    ensures Scaled(m) == Each(m, x => Times2(x, Bits(m.unit))).(unit := 1)
  {
    var k, bound := Bits(m.unit), m.totalram + m.totalswap;
    ShlExact(m.totalram, bound, k); ShlExact(m.freeram, bound, k);
    ShlExact(m.sharedram, bound, k); ShlExact(m.bufferram, bound, k);
    ShlExact(m.totalswap, bound, k); ShlExact(m.freeswap, bound, k);
    ShlExact(m.totalhigh, bound, k); ShlExact(m.freehigh, bound, k);
  }

  lemma EachIsProduct(m: Memory, k: nat)
    ensures Each(m, x => Times2(x, k)) == Each(m, x => x * Pow2(k))
  {
    Times2IsProduct(m.totalram, k); Times2IsProduct(m.freeram, k);
    Times2IsProduct(m.sharedram, k); Times2IsProduct(m.bufferram, k);
    Times2IsProduct(m.totalswap, k); Times2IsProduct(m.freeswap, k);
    Times2IsProduct(m.totalhigh, k); Times2IsProduct(m.freehigh, k);
  }

  /** What a scaled report says in bytes. */
  lemma {:induction false} ScaledBytes(m: Memory)
    requires Filled(m) && Scales(m)
    ensures Bytes(Scaled(m)) == Each(m, x => x * Pow2(Bits(m.unit))).(unit := 1)
  {
    ScalingIsExact(m);
    EachIsProduct(m, Bits(m.unit));
  }

  /** For a unit that is a power of two: the call scales exactly when all of RAM and swap, in bytes, fits
      in 64 bits, and on both exits no amount of bytes changes. */
  lemma {:induction false} BytesPreserved(m: Memory, k: nat)
    requires Filled(m) && m.unit == Pow2(k)
    ensures Scales(m) <==> (m.totalram + m.totalswap) * m.unit < U64
    ensures Bytes(Reported(m)) == Bytes(m)
  {
    BitsOfPow2(k);
    Times2IsProduct(m.totalram + m.totalswap, k);
    if Scales(m) { ScaledBytes(m); }
  }

  lemma BytesExactly(m: Memory)
    ensures Bytes(m) ==
              Memory(m.totalram * m.unit, m.freeram * m.unit, m.sharedram * m.unit, m.bufferram * m.unit,
                     m.totalswap * m.unit, m.freeswap * m.unit, m.totalhigh * m.unit, m.freehigh * m.unit, 1)
  {
  }

  lemma ScaledExactly(m: Memory)
    requires Filled(m) && Scales(m) && m.unit == Pow2(Bits(m.unit))
    ensures Scaled(m) == Bytes(m)
  {
    ScalingIsExact(m);
    EachIsProduct(m, Bits(m.unit));
  }

  /** do_sysinfo() for a unit that is a power of two: when RAM and swap together are fewer than 2^64 bytes, every
      amount in bytes and 1 for the unit; otherwise everything as it was. */
  lemma {:induction false} ReportedExactly(m: Memory, k: nat)
    requires Filled(m) && m.unit == Pow2(k)
    ensures Reported(m) == if (m.totalram + m.totalswap) * m.unit < 0x1_0000_0000_0000_0000 then Bytes(m) else m
  {
    BitsOfPow2(k);
    BytesPreserved(m, k);
    if Scales(m) { ScaledExactly(m); }
  }

  lemma Distinct(x: nat, p: nat, q: nat)
    requires x > 0 && p != q
    ensures x * p != x * q
  {
  }

  /** With another unit the total in bytes changes. */
  lemma {:induction false} OtherUnitsLoseBytes(m: Memory)
    requires Filled(m) && Scales(m) && m.unit != Pow2(Bits(m.unit)) && (m.totalram > 0 || m.totalswap > 0)
    ensures Bytes(Reported(m)) != Bytes(m)
  {
    ScaledBytes(m);
    var p := Pow2(Bits(m.unit));
    if m.totalram > 0 {
      Distinct(m.totalram, p, m.unit);
    } else {
      Distinct(m.totalswap, p, m.unit);
    }
  }

  lemma NoMemoryNoBytes(m: Memory)
    requires Filled(m) && Scales(m) && m.totalram == 0 && m.totalswap == 0
    ensures Bytes(Reported(m)) == Bytes(m)
  {
    ScaledBytes(m);
  }

  /** For any unit: the bytes are preserved iff the call does not scale, or the unit is a power of two, or
      there is no memory to report. */
  lemma {:induction false} BytesPreservedIff(m: Memory)
    requires Filled(m)
    ensures Bytes(Reported(m)) == Bytes(m) <==>
              !Scales(m) || m.unit == Pow2(Bits(m.unit)) || (m.totalram == 0 && m.totalswap == 0)
  {
    if m.unit == Pow2(Bits(m.unit)) {
      BytesPreserved(m, Bits(m.unit));
    } else if Scales(m) {
      if m.totalram == 0 && m.totalswap == 0 {
        NoMemoryNoBytes(m);
      } else {
        OtherUnitsLoseBytes(m);
      }
    }
  }

  // ---------------------------------------------------------------- the 32-bit call

  function Low32(x: nat): nat { x % U32 }

  lemma {:induction false} Pow2Strict(a: nat, b: nat)
    requires a < b
    ensures Pow2(a) < Pow2(b)
  {
    if a + 1 < b { Pow2Strict(a, b - 1); }
  }

  lemma Pow2Is32()
    ensures Pow2(32) == U32
  {
    assert Pow2(8) == 256;
    assert Pow2(16) == 256 * Pow2(8);
    assert Pow2(24) == 256 * Pow2(16);
    assert Pow2(32) == 256 * Pow2(24);
  }

  lemma Pow2Below32(k: nat)
    requires k < 32
    ensures Pow2(k) < U32
  {
    Pow2Strict(k, 32);
    Pow2Is32();
  }

  /** The loop that doubles the reported unit until it is the page size. */
  method DoubleUnit(unit0: nat, ghost a: nat, pageShift: nat) returns (unit: nat, bitcount: nat)
    requires unit0 == Pow2(a) && a <= pageShift < 32
    ensures unit == Pow2(pageShift) && bitcount == pageShift - a
  {
    unit, bitcount := unit0, 0;
    while unit < Pow2(pageShift)
      invariant bitcount <= pageShift - a && unit == Pow2(a + bitcount)
    {
      if a + bitcount == pageShift { assert false; }
      Pow2Grows(a + bitcount + 1, pageShift);
      Pow2Below32(pageShift);
      unit := unit * 2 % U32;
      bitcount := bitcount + 1;
    }
    if a + bitcount < pageShift { Pow2Strict(a + bitcount, pageShift); }
  }

  /** Shift back down to page units when a total needs more than 32 bits, then keep 32 bits of each. */
  function CompatReport(m: Memory, pageShift: nat): Memory {
    var s := Reported(m);
    var down := s.totalram >= U32 || s.totalswap >= U32;
    var k := if Scales(m) then pageShift else 0;
    Each(if down then Down(s, k).(unit := Pow2(pageShift)) else s, Low32)
  }

  method CompatSysinfo(filled: Memory, pageShift: nat) returns (out: Memory)
    requires Filled(filled) && filled.unit == Pow2(pageShift) && pageShift < 32
    ensures out == CompatReport(filled, pageShift)
  {
    var s := DoSysinfo(filled);
    if s.totalram / U32 != 0 || s.totalswap / U32 != 0 {
      var unit, bitcount := DoubleUnit(s.unit, if Scales(filled) then 0 else pageShift, pageShift);
      s := s.(unit := unit,
        totalram := Shr(s.totalram, bitcount), freeram := Shr(s.freeram, bitcount),
        sharedram := Shr(s.sharedram, bitcount), bufferram := Shr(s.bufferram, bitcount),
        totalswap := Shr(s.totalswap, bitcount), freeswap := Shr(s.freeswap, bitcount),
        totalhigh := Shr(s.totalhigh, bitcount), freehigh := Shr(s.freehigh, bitcount));
    }
    out := Memory(Low32(s.totalram), Low32(s.freeram), Low32(s.sharedram), Low32(s.bufferram),
                  Low32(s.totalswap), Low32(s.freeswap), Low32(s.totalhigh), Low32(s.freehigh), s.unit);
  }

  ghost predicate Fits32(m: Memory) {
    && m.totalram < U32 && m.freeram < U32 && m.sharedram < U32 && m.bufferram < U32
    && m.totalswap < U32 && m.freeswap < U32 && m.totalhigh < U32 && m.freehigh < U32
  }

  /** The right shifts undo the left shifts. */
  lemma ShiftsCancel(m: Memory, pageShift: nat)
    requires Filled(m) && m.unit == Pow2(pageShift) && Scales(m)
    ensures Down(Scaled(m), pageShift).(unit := m.unit) == m
  {
    BitsOfPow2(pageShift);
    ScalingIsExact(m);
    ShrUndoesTimes2(m.totalram, pageShift); ShrUndoesTimes2(m.freeram, pageShift);
    ShrUndoesTimes2(m.sharedram, pageShift); ShrUndoesTimes2(m.bufferram, pageShift);
    ShrUndoesTimes2(m.totalswap, pageShift); ShrUndoesTimes2(m.freeswap, pageShift);
    ShrUndoesTimes2(m.totalhigh, pageShift); ShrUndoesTimes2(m.freehigh, pageShift);
  }

  lemma SmallMachinesScale(m: Memory, pageShift: nat)
    requires m.totalram < U32 && m.totalswap < U32 && m.unit == Pow2(pageShift) && pageShift < 32
    ensures Scales(m)
  {
    BitsOfPow2(pageShift);
    Times2Monotone(m.totalram + m.totalswap, 2 * (U32 - 1), pageShift);
    Times2Grows(2 * (U32 - 1), pageShift, 31);
    Times2IsProduct(2 * (U32 - 1), 31);
    Pow2Is32();
    assert Pow2(32) == 2 * Pow2(31);
  }

  lemma ShrZero(m: Memory)
    ensures Down(m, 0) == m
  {
  }

  lemma ReportedOrdered(m: Memory, pageShift: nat)
    requires Filled(m) && m.unit == Pow2(pageShift) && Scales(m)
    ensures Filled(Scaled(m))
  {
    BitsOfPow2(pageShift);
    ScalingIsExact(m);
    var k := pageShift;
    Times2Monotone(m.freeram, m.totalram, k); Times2Monotone(m.sharedram, m.totalram, k);
    Times2Monotone(m.bufferram, m.totalram, k); Times2Monotone(m.freeswap, m.totalswap, k);
    Times2Monotone(m.totalhigh, m.totalram, k); Times2Monotone(m.freehigh, m.totalhigh, k);
    Times2Monotone(m.totalram, m.totalram + m.totalswap, k);
    Times2Monotone(m.totalswap, m.totalram + m.totalswap, k);
  }

  lemma CutKeepsSmall(m: Memory)
    requires Filled(m) && m.totalram < U32 && m.totalswap < U32
    ensures Each(m, Low32) == m
  {
  }

  /** When either total needs more than 32 bits the 32-bit call reports the original amounts, cut to 32
      bits; otherwise it reports what do_sysinfo() reports. */
  lemma CompatCases(m: Memory, pageShift: nat)
    requires Filled(m) && m.unit == Pow2(pageShift) && pageShift < 32
    ensures CompatReport(m, pageShift)
            == if Reported(m).totalram >= U32 || Reported(m).totalswap >= U32 then Each(m, Low32) else Reported(m)
  {
    BitsOfPow2(pageShift);
    var s := Reported(m);
    assert Filled(s) by {
      if Scales(m) { ReportedOrdered(m, pageShift); }
    }
    assert Down(s, if Scales(m) then pageShift else 0).(unit := Pow2(pageShift)) == m by {
      if Scales(m) { ShiftsCancel(m, pageShift); } else { ShrZero(m); }
    }
    if s.totalram < U32 && s.totalswap < U32 {
      CutKeepsSmall(s);
    }
  }

  lemma SumOfProducts(a: nat, b: nat, p: nat)
    ensures (a + b) * p == a * p + b * p
  {
  }

  lemma ProductGrows(a: nat, p: nat)
    requires p > 0
    ensures a * p >= a
  {
  }

  lemma CutExactly(m: Memory)
    ensures Each(m, Low32) ==
              Memory(m.totalram % 0x1_0000_0000, m.freeram % 0x1_0000_0000, m.sharedram % 0x1_0000_0000,
                     m.bufferram % 0x1_0000_0000, m.totalswap % 0x1_0000_0000, m.freeswap % 0x1_0000_0000,
                     m.totalhigh % 0x1_0000_0000, m.freehigh % 0x1_0000_0000, m.unit)
  {
  }

  lemma SmallInBytesIsSmall(m: Memory)
    requires m.unit > 0 && m.totalram * m.unit < U32 && m.totalswap * m.unit < U32
    ensures m.totalram < U32 && m.totalswap < U32
  {
    ProductGrows(m.totalram, m.unit);
    ProductGrows(m.totalswap, m.unit);
  }

  /** The 32-bit call: every amount in bytes when both totals are fewer than 2^32 bytes, otherwise the page counts
      with their lowest 32 bits kept. */
  lemma {:induction false} CompatExactly(m: Memory, pageShift: nat)
    requires Filled(m) && m.unit == Pow2(pageShift) && pageShift < 32
    ensures CompatReport(m, pageShift)
            == if m.totalram * m.unit < 0x1_0000_0000 && m.totalswap * m.unit < 0x1_0000_0000 then Bytes(m)
               else Each(m, Low32)
  {
    CompatCases(m, pageShift);
    ReportedExactly(m, pageShift);
    BytesExactly(m);
    SumOfProducts(m.totalram, m.totalswap, m.unit);
    if m.totalram < U32 && m.totalswap < U32 {
      SmallMachinesScale(m, pageShift);
      BytesPreserved(m, pageShift);
    }
    if m.totalram * m.unit < U32 && m.totalswap * m.unit < U32 { SmallInBytesIsSmall(m); }
  }

  lemma {:induction false} CutLosesLarge(x: nat, unit: nat)
    requires x >= U32 && unit > 0
    ensures Low32(x) * unit != x * unit
  {
    MulMonotone(Low32(x) + 1, x, unit);
  }

  lemma {:induction false} CutIsExactIff(m: Memory)
    requires Filled(m) && m.unit > 0
    ensures Bytes(Each(m, Low32)) == Bytes(m) <==> m.totalram < U32 && m.totalswap < U32
  {
    if m.totalram >= U32 {
      CutLosesLarge(m.totalram, m.unit);
      assert Bytes(Each(m, Low32)).totalram != Bytes(m).totalram;
    } else if m.totalswap >= U32 {
      CutLosesLarge(m.totalswap, m.unit);
      assert Bytes(Each(m, Low32)).totalswap != Bytes(m).totalswap;
    } else {
      CutKeepsSmall(m);
    }
  }

  /** The 32-bit call reports every amount exactly iff RAM and swap are each below 2^32 pages; what it
      reports always fits its 32-bit fields. */
  lemma {:induction false} CompatExactIff(m: Memory, pageShift: nat)
    requires Filled(m) && m.unit == Pow2(pageShift) && pageShift < 32
    ensures Fits32(CompatReport(m, pageShift))
    ensures Bytes(CompatReport(m, pageShift)) == Bytes(m) <==> m.totalram < U32 && m.totalswap < U32
  {
    CompatCases(m, pageShift);
    CutIsExactIff(m);
    BytesPreserved(m, pageShift);
    if Reported(m).totalram < U32 && Reported(m).totalswap < U32 {
      if Scales(m) {
        BitsOfPow2(pageShift);
        ReportedOrdered(m, pageShift);
        ScalingIsExact(m);
        Times2Grows(m.totalram, 0, pageShift);
        Times2Grows(m.totalswap, 0, pageShift);
      }
    }
  }
}
