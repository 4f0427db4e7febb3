/**
 * The six RAM tests of mem_tests.c, modelled together with a faulty memory. `addr` is the word
 * pointer of the source, so `addr++` adds one and the byte address is 4 * addr. The two passes of a
 * test are two methods.
 */
module MemTests {
  import opened Words
  import opened FaultyMemory
  import opened MemTestSpec

  lemma NextBit(k: nat)
    ensures (k + 1) % 32 == if k % 32 + 1 >= 32 then 0 else k % 32 + 1
  {
  }

  lemma NextAlternating(base: nat, k: nat)
    ensures Alternating.At(base, k + 1) == Not(Alternating.At(base, k))
  {
  }

  lemma NextSum(seed: Word, incr: Word, k: nat)
    ensures Sum(seed, incr, k + 1) == (Sum(seed, incr, k) + incr) % 0x1_0000_0000
  {
  }

  lemma AddressFits(base: nat, k: nat)
    requires 4 * (base + k) < 0x1_0000_0000
    ensures Address.At(base, k) == 4 * (base + k)
    ensures InverseAddress.At(base, k) == Not(4 * (base + k))
  {
  }

  // ----- The tests -----

  method WriteWalkingZero(setup: MemTestSetup, mem: Memory)
    requires setup.startAddr % 4 == 0 && setup.bytes % 4 == 0
    requires setup.startAddr + setup.bytes <= 0x1_0000_0000
    modifies mem
    ensures mem.cells == Fill(mem.fault, WalkingZero, setup.startAddr / 4, setup.bytes / 4, old(mem.cells))
  {
    var i := 0;
    var fbytes: nat, addr: nat := setup.bytes, setup.startAddr / 4;
    ghost var f, base, n := mem.fault, addr, fbytes / 4;
    ghost var k := 0;
    while fbytes > 0
      invariant k <= n && fbytes == 4 * (n - k) && addr == base + k && i == k % 32
      invariant mem.cells == Fill(f, WalkingZero, base, k, old(mem.cells))
    {
      mem.Write(addr, Not(ShiftedOne(i)));
      NextBit(k);
      addr := addr + 1;
      fbytes := fbytes - 4;
      i := i + 1;
      if i >= 32 {
        i := 0;
      }
      k := k + 1;
    }
  }

  method VerifyWalkingZero(setup: MemTestSetup, mem: Memory) returns (ok: bool)
    requires setup.startAddr % 4 == 0 && setup.bytes % 4 == 0
    requires setup.startAddr + setup.bytes <= 0x1_0000_0000
    modifies setup
    ensures Outcome(ok, mem.cells, setup.Result())
         == Check(mem.fault, WalkingZero, setup.startAddr / 4, setup.bytes / 4, mem.cells, old(setup.Result()))
  {
    var i := 0;
    var fbytes: nat, addr: nat := setup.bytes, setup.startAddr / 4;
    ghost var f, base, n := mem.fault, addr, fbytes / 4;
    ghost var k := 0;
    while fbytes > 0
      invariant k <= n && fbytes == 4 * (n - k) && addr == base + k && i == k % 32
      invariant setup.Result() == old(setup.Result())
      invariant Scan(f, WalkingZero, base, n, mem.cells, 0) == Scan(f, WalkingZero, base, n, mem.cells, k)
    {
      var v := mem.Read(addr);
      if v != Not(ShiftedOne(i)) {
        var again := mem.Read(addr);
        setup.failAddr, setup.isVal, setup.exVal := 4 * addr, again, Not(ShiftedOne(i));
        assert Scan(f, WalkingZero, base, n, mem.cells, 0) == k;
        return false;
      }
      NextBit(k);
      addr := addr + 1;
      fbytes := fbytes - 4;
      i := i + 1;
      if i >= 32 {
        i := 0;
      }
      k := k + 1;
    }
    return true;
  }

  method TestWalkingZero(setup: MemTestSetup, mem: Memory) returns (ok: bool)
    requires setup.startAddr + setup.bytes <= 0x1_0000_0000
    modifies mem, setup
    ensures if setup.startAddr % 4 == 0 && setup.bytes % 4 == 0 then
              Judged(mem.fault, WalkingZero, setup.startAddr / 4, setup.bytes / 4,
                     old(mem.cells), mem.cells, old(setup.Result()), setup.Result(), ok)
            else
              !ok && mem.cells == old(mem.cells) && setup.Result() == old(setup.Result())
  {
    if setup.startAddr % 4 != 0 || setup.bytes % 4 != 0 {
      return false;
    }
    TwoPassesAreJudged(mem.fault, WalkingZero, setup.startAddr / 4, setup.bytes / 4, mem.cells, setup.Result());
    WriteWalkingZero(setup, mem);
    ok := VerifyWalkingZero(setup, mem);
  }

  method WriteWalkingOne(setup: MemTestSetup, mem: Memory)
    requires setup.startAddr % 4 == 0 && setup.bytes % 4 == 0
    requires setup.startAddr + setup.bytes <= 0x1_0000_0000
    modifies mem
    ensures mem.cells == Fill(mem.fault, WalkingOne, setup.startAddr / 4, setup.bytes / 4, old(mem.cells))
  {
    var i := 0;
    var fbytes: nat, addr: nat := setup.bytes, setup.startAddr / 4;
    ghost var f, base, n := mem.fault, addr, fbytes / 4;
    ghost var k := 0;
    while fbytes > 0
      invariant k <= n && fbytes == 4 * (n - k) && addr == base + k && i == k % 32
      invariant mem.cells == Fill(f, WalkingOne, base, k, old(mem.cells))
    {
      mem.Write(addr, ShiftedOne(i));
      NextBit(k);
      addr := addr + 1;
      fbytes := fbytes - 4;
      i := i + 1;
      if i >= 32 {
        i := 0;
      }
      k := k + 1;
    }
  }

  method VerifyWalkingOne(setup: MemTestSetup, mem: Memory) returns (ok: bool)
    requires setup.startAddr % 4 == 0 && setup.bytes % 4 == 0
    requires setup.startAddr + setup.bytes <= 0x1_0000_0000
    modifies setup
    ensures Outcome(ok, mem.cells, setup.Result())
         == Check(mem.fault, WalkingOne, setup.startAddr / 4, setup.bytes / 4, mem.cells, old(setup.Result()))
  {
    var i := 0;
    var fbytes: nat, addr: nat := setup.bytes, setup.startAddr / 4;
    ghost var f, base, n := mem.fault, addr, fbytes / 4;
    ghost var k := 0;
    while fbytes > 0
      invariant k <= n && fbytes == 4 * (n - k) && addr == base + k && i == k % 32
      invariant setup.Result() == old(setup.Result())
      invariant Scan(f, WalkingOne, base, n, mem.cells, 0) == Scan(f, WalkingOne, base, n, mem.cells, k)
    {
      var v := mem.Read(addr);
      if v != ShiftedOne(i) {
        var again := mem.Read(addr);
        setup.failAddr, setup.isVal, setup.exVal := 4 * addr, again, ShiftedOne(i);
        assert Scan(f, WalkingOne, base, n, mem.cells, 0) == k;
        return false;
      }
      NextBit(k);
      addr := addr + 1;
      fbytes := fbytes - 4;
      i := i + 1;
      if i >= 32 {
        i := 0;
      }
      k := k + 1;
    }
    return true;
  }

  method TestWalkingOne(setup: MemTestSetup, mem: Memory) returns (ok: bool)
    requires setup.startAddr + setup.bytes <= 0x1_0000_0000
    modifies mem, setup
    ensures if setup.startAddr % 4 == 0 && setup.bytes % 4 == 0 then
              Judged(mem.fault, WalkingOne, setup.startAddr / 4, setup.bytes / 4,
                     old(mem.cells), mem.cells, old(setup.Result()), setup.Result(), ok)
            else
              !ok && mem.cells == old(mem.cells) && setup.Result() == old(setup.Result())
  {
    if setup.startAddr % 4 != 0 || setup.bytes % 4 != 0 {
      return false;
    }
    TwoPassesAreJudged(mem.fault, WalkingOne, setup.startAddr / 4, setup.bytes / 4, mem.cells, setup.Result());
    WriteWalkingOne(setup, mem);
    ok := VerifyWalkingOne(setup, mem);
  }

  method WriteAddress(setup: MemTestSetup, mem: Memory)
    requires setup.startAddr % 4 == 0 && setup.bytes % 4 == 0
    requires setup.startAddr + setup.bytes <= 0x1_0000_0000
    modifies mem
    ensures mem.cells == Fill(mem.fault, Address, setup.startAddr / 4, setup.bytes / 4, old(mem.cells))
  {
    var fbytes: nat, addr: nat := setup.bytes, setup.startAddr / 4;
    ghost var f, base, n := mem.fault, addr, fbytes / 4;
    ghost var k := 0;
    while fbytes > 0
      invariant k <= n && fbytes == 4 * (n - k) && addr == base + k
      invariant mem.cells == Fill(f, Address, base, k, old(mem.cells))
    {
      AddressFits(base, k);
      mem.Write(addr, 4 * addr);
      addr := addr + 1;
      fbytes := fbytes - 4;
      k := k + 1;
    }
  }

  method VerifyAddress(setup: MemTestSetup, mem: Memory) returns (ok: bool)
    requires setup.startAddr % 4 == 0 && setup.bytes % 4 == 0
    requires setup.startAddr + setup.bytes <= 0x1_0000_0000
    modifies setup
    ensures Outcome(ok, mem.cells, setup.Result())
         == Check(mem.fault, Address, setup.startAddr / 4, setup.bytes / 4, mem.cells, old(setup.Result()))
  {
    var fbytes: nat, addr: nat := setup.bytes, setup.startAddr / 4;
    ghost var f, base, n := mem.fault, addr, fbytes / 4;
    ghost var k := 0;
    while fbytes > 0
      invariant k <= n && fbytes == 4 * (n - k) && addr == base + k
      invariant setup.Result() == old(setup.Result())
      invariant Scan(f, Address, base, n, mem.cells, 0) == Scan(f, Address, base, n, mem.cells, k)
    {
      AddressFits(base, k);
      var v := mem.Read(addr);
      if v != 4 * addr {
        var again := mem.Read(addr);
        setup.failAddr, setup.isVal, setup.exVal := 4 * addr, again, 4 * addr;
        assert Scan(f, Address, base, n, mem.cells, 0) == k;
        return false;
      }
      addr := addr + 1;
      fbytes := fbytes - 4;
      k := k + 1;
    }
    return true;
  }

  method TestAddress(setup: MemTestSetup, mem: Memory) returns (ok: bool)
    requires setup.startAddr + setup.bytes <= 0x1_0000_0000
    modifies mem, setup
    ensures if setup.startAddr % 4 == 0 && setup.bytes % 4 == 0 then
              Judged(mem.fault, Address, setup.startAddr / 4, setup.bytes / 4,
                     old(mem.cells), mem.cells, old(setup.Result()), setup.Result(), ok)
            else
              !ok && mem.cells == old(mem.cells) && setup.Result() == old(setup.Result())
  {
    if setup.startAddr % 4 != 0 || setup.bytes % 4 != 0 {
      return false;
    }
    TwoPassesAreJudged(mem.fault, Address, setup.startAddr / 4, setup.bytes / 4, mem.cells, setup.Result());
    WriteAddress(setup, mem);
    ok := VerifyAddress(setup, mem);
  }

  method WriteInverseAddress(setup: MemTestSetup, mem: Memory)
    requires setup.startAddr % 4 == 0 && setup.bytes % 4 == 0
    requires setup.startAddr + setup.bytes <= 0x1_0000_0000
    modifies mem
    ensures mem.cells == Fill(mem.fault, InverseAddress, setup.startAddr / 4, setup.bytes / 4, old(mem.cells))
  {
    var fbytes: nat, addr: nat := setup.bytes, setup.startAddr / 4;
    ghost var f, base, n := mem.fault, addr, fbytes / 4;
    ghost var k := 0;
    while fbytes > 0
      invariant k <= n && fbytes == 4 * (n - k) && addr == base + k
      invariant mem.cells == Fill(f, InverseAddress, base, k, old(mem.cells))
    {
      AddressFits(base, k);
      mem.Write(addr, Not(4 * addr));
      addr := addr + 1;
      fbytes := fbytes - 4;
      k := k + 1;
    }
  }

  method VerifyInverseAddress(setup: MemTestSetup, mem: Memory) returns (ok: bool)
    requires setup.startAddr % 4 == 0 && setup.bytes % 4 == 0
    requires setup.startAddr + setup.bytes <= 0x1_0000_0000
    modifies setup
    ensures Outcome(ok, mem.cells, setup.Result())
         == Check(mem.fault, InverseAddress, setup.startAddr / 4, setup.bytes / 4, mem.cells, old(setup.Result()))
  {
    var fbytes: nat, addr: nat := setup.bytes, setup.startAddr / 4;
    ghost var f, base, n := mem.fault, addr, fbytes / 4;
    ghost var k := 0;
    while fbytes > 0
      invariant k <= n && fbytes == 4 * (n - k) && addr == base + k
      invariant setup.Result() == old(setup.Result())
      invariant Scan(f, InverseAddress, base, n, mem.cells, 0) == Scan(f, InverseAddress, base, n, mem.cells, k)
    {
      AddressFits(base, k);
      var v := mem.Read(addr);
      if v != Not(4 * addr) {
        var again := mem.Read(addr);
        setup.failAddr, setup.isVal, setup.exVal := 4 * addr, again, Not(4 * addr);
        assert Scan(f, InverseAddress, base, n, mem.cells, 0) == k;
        return false;
      }
      addr := addr + 1;
      fbytes := fbytes - 4;
      k := k + 1;
    }
    return true;
  }

  method TestInverseAddress(setup: MemTestSetup, mem: Memory) returns (ok: bool)
    requires setup.startAddr + setup.bytes <= 0x1_0000_0000
    modifies mem, setup
    ensures if setup.startAddr % 4 == 0 && setup.bytes % 4 == 0 then
              Judged(mem.fault, InverseAddress, setup.startAddr / 4, setup.bytes / 4,
                     old(mem.cells), mem.cells, old(setup.Result()), setup.Result(), ok)
            else
              !ok && mem.cells == old(mem.cells) && setup.Result() == old(setup.Result())
  {
    if setup.startAddr % 4 != 0 || setup.bytes % 4 != 0 {
      return false;
    }
    TwoPassesAreJudged(mem.fault, InverseAddress, setup.startAddr / 4, setup.bytes / 4, mem.cells, setup.Result());
    WriteInverseAddress(setup, mem);
    ok := VerifyInverseAddress(setup, mem);
  }

  method WriteAlternating(setup: MemTestSetup, mem: Memory)
    requires setup.startAddr % 4 == 0 && setup.bytes % 4 == 0
    requires setup.startAddr + setup.bytes <= 0x1_0000_0000
    modifies mem
    ensures mem.cells == Fill(mem.fault, Alternating, setup.startAddr / 4, setup.bytes / 4, old(mem.cells))
  {
    var pattern := ALTERNATING_PATTERN;
    var fbytes: nat, addr: nat := setup.bytes, setup.startAddr / 4;
    ghost var f, base, n := mem.fault, addr, fbytes / 4;
    ghost var k := 0;
    while fbytes > 0
      invariant k <= n && fbytes == 4 * (n - k) && addr == base + k
      invariant pattern == Alternating.At(base, k)
      invariant mem.cells == Fill(f, Alternating, base, k, old(mem.cells))
    {
      mem.Write(addr, pattern);
      NextAlternating(base, k);
      pattern := Not(pattern);
      addr := addr + 1;
      fbytes := fbytes - 4;
      k := k + 1;
    }
  }

  method VerifyAlternating(setup: MemTestSetup, mem: Memory) returns (ok: bool)
    requires setup.startAddr % 4 == 0 && setup.bytes % 4 == 0
    requires setup.startAddr + setup.bytes <= 0x1_0000_0000
    modifies setup
    ensures Outcome(ok, mem.cells, setup.Result())
         == Check(mem.fault, Alternating, setup.startAddr / 4, setup.bytes / 4, mem.cells, old(setup.Result()))
  {
    var pattern := ALTERNATING_PATTERN;
    var fbytes: nat, addr: nat := setup.bytes, setup.startAddr / 4;
    ghost var f, base, n := mem.fault, addr, fbytes / 4;
    ghost var k := 0;
    while fbytes > 0
      invariant k <= n && fbytes == 4 * (n - k) && addr == base + k
      invariant pattern == Alternating.At(base, k)
      invariant setup.Result() == old(setup.Result())
      invariant Scan(f, Alternating, base, n, mem.cells, 0) == Scan(f, Alternating, base, n, mem.cells, k)
    {
      var v := mem.Read(addr);
      if v != pattern {
        var again := mem.Read(addr);
        setup.failAddr, setup.isVal, setup.exVal := 4 * addr, again, pattern;
        assert Scan(f, Alternating, base, n, mem.cells, 0) == k;
        return false;
      }
      NextAlternating(base, k);
      pattern := Not(pattern);
      addr := addr + 1;
      fbytes := fbytes - 4;
      k := k + 1;
    }
    return true;
  }

  method TestAlternating(setup: MemTestSetup, mem: Memory) returns (ok: bool)
    requires setup.startAddr + setup.bytes <= 0x1_0000_0000
    modifies mem, setup
    ensures if setup.startAddr % 4 == 0 && setup.bytes % 4 == 0 then
              Judged(mem.fault, Alternating, setup.startAddr / 4, setup.bytes / 4,
                     old(mem.cells), mem.cells, old(setup.Result()), setup.Result(), ok)
            else
              !ok && mem.cells == old(mem.cells) && setup.Result() == old(setup.Result())
  {
    if setup.startAddr % 4 != 0 || setup.bytes % 4 != 0 {
      return false;
    }
    TwoPassesAreJudged(mem.fault, Alternating, setup.startAddr / 4, setup.bytes / 4, mem.cells, setup.Result());
    WriteAlternating(setup, mem);
    ok := VerifyAlternating(setup, mem);
  }

  method WriteSeeded(setup: MemTestSetup, mem: Memory, seed: Word, incr: Word)
    requires setup.startAddr % 4 == 0 && setup.bytes % 4 == 0
    requires setup.startAddr + setup.bytes <= 0x1_0000_0000
    modifies mem
    ensures mem.cells == Fill(mem.fault, Seeded(seed, incr), setup.startAddr / 4, setup.bytes / 4, old(mem.cells))
  {
    var pattern := seed;
    var fbytes: nat, addr: nat := setup.bytes, setup.startAddr / 4;
    ghost var f, base, n := mem.fault, addr, fbytes / 4;
    ghost var k := 0;
    while fbytes > 0
      invariant k <= n && fbytes == 4 * (n - k) && addr == base + k
      invariant pattern == Sum(seed, incr, k)
      invariant mem.cells == Fill(f, Seeded(seed, incr), base, k, old(mem.cells))
    {
      mem.Write(addr, pattern);
      NextSum(seed, incr, k);
      pattern := (pattern + incr) % 0x1_0000_0000;
      addr := addr + 1;
      fbytes := fbytes - 4;
      k := k + 1;
    }
  }

  method VerifySeeded(setup: MemTestSetup, mem: Memory, seed: Word, incr: Word) returns (ok: bool)
    requires setup.startAddr % 4 == 0 && setup.bytes % 4 == 0
    requires setup.startAddr + setup.bytes <= 0x1_0000_0000
    modifies setup
    ensures Outcome(ok, mem.cells, setup.Result())
         == Check(mem.fault, Seeded(seed, incr), setup.startAddr / 4, setup.bytes / 4, mem.cells, old(setup.Result()))
  {
    var pattern := seed;
    var fbytes: nat, addr: nat := setup.bytes, setup.startAddr / 4;
    ghost var f, base, n := mem.fault, addr, fbytes / 4;
    ghost var k := 0;
    while fbytes > 0
      invariant k <= n && fbytes == 4 * (n - k) && addr == base + k
      invariant pattern == Sum(seed, incr, k)
      invariant setup.Result() == old(setup.Result())
      invariant Scan(f, Seeded(seed, incr), base, n, mem.cells, 0) == Scan(f, Seeded(seed, incr), base, n, mem.cells, k)
    {
      var v := mem.Read(addr);
      if v != pattern {
        var again := mem.Read(addr);
        setup.failAddr, setup.isVal, setup.exVal := 4 * addr, again, pattern;
        assert Scan(f, Seeded(seed, incr), base, n, mem.cells, 0) == k;
        return false;
      }
      NextSum(seed, incr, k);
      pattern := (pattern + incr) % 0x1_0000_0000;
      addr := addr + 1;
      fbytes := fbytes - 4;
      k := k + 1;
    }
    return true;
  }

  method TestSeeded(setup: MemTestSetup, mem: Memory, seed: Word, incr: Word) returns (ok: bool)
    requires setup.startAddr + setup.bytes <= 0x1_0000_0000
    modifies mem, setup
    ensures if setup.startAddr % 4 == 0 && setup.bytes % 4 == 0 then
              Judged(mem.fault, Seeded(seed, incr), setup.startAddr / 4, setup.bytes / 4,
                     old(mem.cells), mem.cells, old(setup.Result()), setup.Result(), ok)
            else
              !ok && mem.cells == old(mem.cells) && setup.Result() == old(setup.Result())
  {
    if setup.startAddr % 4 != 0 || setup.bytes % 4 != 0 {
      return false;
    }
    TwoPassesAreJudged(mem.fault, Seeded(seed, incr), setup.startAddr / 4, setup.bytes / 4, mem.cells, setup.Result());
    WriteSeeded(setup, mem, seed, incr);
    ok := VerifySeeded(setup, mem, seed, incr);
  }
}
