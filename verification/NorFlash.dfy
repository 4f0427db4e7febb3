/**
 * The driver lpc_norflash_sst39vf320.c. Addresses are byte offsets into the flash, as in the
 * source; WriteCmd puts a word address on the bus, WriteWord and ReadWord a byte offset.
 */
module NorFlashDriver {
  import opened NorChip

  const FLASH_SIZE: nat := 0x40_0000

  // ----- The board's bus accesses -----

  method WriteCmd(flash: NorFlash, addr: nat, data: bv16)
    modifies flash
    ensures flash.s == AfterWrite(flash.dev, old(flash.s), addr, data)
  {
    flash.WriteCycle(addr, data);
  }

  method WriteData(flash: NorFlash, addr: nat, data: bv16)
    modifies flash
    ensures flash.s == AfterWrite(flash.dev, old(flash.s), addr / 2, data)
  {
    flash.WriteCycle(addr / 2, data);
  }

  method ReadWord(flash: NorFlash, addr: nat) returns (v: bv16)
    requires Valid(flash.s)
    modifies flash
    ensures v == ReadValue(flash.dev, old(flash.s), addr / 2) && flash.s == AfterRead(old(flash.s))
  {
    v := flash.ReadCycle(addr / 2);
  }

  // ----- Command sequences -----

  /** The chip after the four write cycles of a program command. */
  function ProgramSent(d: Device, s: State, addr: nat, data: bv16): State {
    var s1 := AfterWrite(d, s, 0x5555, 0xAAAA);
    var s2 := AfterWrite(d, s1, 0x2AAA, 0x5555);
    var s3 := AfterWrite(d, s2, 0x5555, 0xA0A0);
    AfterWrite(d, s3, addr / 2, data)
  }

  /** The chip after the six write cycles of a sector erase command. */
  function EraseSent(d: Device, s: State, addr: nat): State {
    var s1 := AfterWrite(d, s, 0x5555, 0xAAAA);
    var s2 := AfterWrite(d, s1, 0x2AAA, 0x5555);
    var s3 := AfterWrite(d, s2, 0x5555, 0x8080);
    var s4 := AfterWrite(d, s3, 0x5555, 0xAAAA);
    var s5 := AfterWrite(d, s4, 0x2AAA, 0x5555);
    AfterWrite(d, s5, addr / 2, 0x3030)
  }

  /** On a chip that is ready, the program sequence starts exactly the intended operation and no
      cycle of it is lost. */
  lemma ProgramStarts(d: Device, s: State, addr: nat, data: bv16)
    requires ReadMode(s) && addr < FLASH_SIZE
    ensures ProgramSent(d, s, addr, data) == Start(d, s, Program(addr / 2, data))
  {
  }

  lemma EraseStarts(d: Device, s: State, addr: nat)
    requires ReadMode(s) && addr < FLASH_SIZE
    ensures EraseSent(d, s, addr) == Start(d, s, EraseSector(addr / 0x1000))
  {
    var s1 := AfterWrite(d, s, 0x5555, 0xAAAA);
    assert s1 == s.(prefix := Unlocked1);
    var s2 := AfterWrite(d, s1, 0x2AAA, 0x5555);
    assert s2 == s.(prefix := Unlocked2);
    var s3 := AfterWrite(d, s2, 0x5555, 0x8080);
    assert s3 == s.(prefix := EraseSetup);
    var s4 := AfterWrite(d, s3, 0x5555, 0xAAAA);
    assert s4 == s.(prefix := EraseUnlocked1);
    var s5 := AfterWrite(d, s4, 0x2AAA, 0x5555);
    assert s5 == s.(prefix := EraseUnlocked2);
  }

  method WriteWord(flash: NorFlash, addr: nat, data: bv16)
    modifies flash
    ensures flash.s == ProgramSent(flash.dev, old(flash.s), addr, data)
    ensures ReadMode(old(flash.s)) && addr < FLASH_SIZE ==>
              flash.s == Start(flash.dev, old(flash.s), Program(addr / 2, data))
  {
    if ReadMode(flash.s) && addr < FLASH_SIZE {
      ProgramStarts(flash.dev, flash.s, addr, data);
    }
    WriteCmd(flash, 0x5555, 0xAAAA);
    WriteCmd(flash, 0x2AAA, 0x5555);
    WriteCmd(flash, 0x5555, 0xA0A0);
    WriteData(flash, addr, data);
  }

  method EraseSectorAt(flash: NorFlash, secAddr: nat)
    modifies flash
    ensures flash.s == EraseSent(flash.dev, old(flash.s), secAddr)
    ensures ReadMode(old(flash.s)) && secAddr < FLASH_SIZE ==>
              flash.s == Start(flash.dev, old(flash.s), EraseSector(secAddr / 0x1000))
  {
    if ReadMode(flash.s) && secAddr < FLASH_SIZE {
      EraseStarts(flash.dev, flash.s, secAddr);
    }
    WriteCmd(flash, 0x5555, 0xAAAA);
    WriteCmd(flash, 0x2AAA, 0x5555);
    WriteCmd(flash, 0x5555, 0x8080);
    WriteCmd(flash, 0x5555, 0xAAAA);
    WriteCmd(flash, 0x2AAA, 0x5555);
    WriteData(flash, secAddr, 0x3030);
  }

  /** A program command sent without waiting is lost unless the chip has in fact finished: write
      cycles are swallowed one by one and the remaining ones start nothing. */
  lemma ProgramLostWhileBusy(d: Device, s: State, addr: nat, data: bv16)
    requires s.activity.Busy? && !s.idMode && s.prefix.NoPrefix?
    ensures ProgramSent(d, s, addr, data).started == s.started + 1 <==> s.activity.left == 0
    ensures s.activity.left > 0 ==> ProgramSent(d, s, addr, data).started == s.started
  {
  }

  // ----- Toggle bit -----

  /** Whether two successive reads at `addr` agree in DQ6. */
  predicate ToggleStopped(s: State, addr: nat)
    requires Valid(s)
  {
    match s.activity
    case Idle => true
    case Busy(_, left, dq6) =>
      left == 0 || (left == 1 && dq6 == Toggled(Finished(s).cells[addr / 2 % 0x20_0000]))
  }

  /** The chip after two read cycles. */
  function AfterTwoReads(s: State): State {
    if s.activity.Busy? && s.activity.left >= 2 then s.(activity := s.activity.(left := s.activity.left - 2))
    else Finished(s)
  }

  lemma TwoReads(d: Device, s: State, addr: nat)
    requires Valid(s) && !s.idMode
    ensures AfterRead(AfterRead(s)) == AfterTwoReads(s) && Valid(AfterRead(s))
    ensures Toggled(ReadValue(d, s, addr / 2)) == Toggled(ReadValue(d, AfterRead(s), addr / 2))
       <==> ToggleStopped(s, addr)
  {
  }

  lemma EqualMaskedBits(v: bv16, w: bv16)
    ensures v & TOGGLE_BIT == w & TOGGLE_BIT <==> Toggled(v) == Toggled(w)
  {
  }

  method ToggleBitCheck(flash: NorFlash, addr: nat) returns (stopped: bool)
    requires Valid(flash.s) && !flash.s.idMode
    modifies flash
    ensures stopped <==> ToggleStopped(old(flash.s), addr)
    ensures stopped <==> ReadValue(flash.dev, old(flash.s), addr / 2) & 0x0040
                         == ReadValue(flash.dev, AfterRead(old(flash.s)), addr / 2) & 0x0040
    ensures flash.s == AfterTwoReads(old(flash.s))
  {
    TwoReads(flash.dev, flash.s, addr);
    var tmp1 := ReadWord(flash, addr);
    var tmp2 := ReadWord(flash, addr);
    EqualMaskedBits(tmp1, tmp2);
    if tmp1 & TOGGLE_BIT == tmp2 & TOGGLE_BIT {
      return true;
    }
    return false;
  }

  /** The check never reports an operation that had not ended by its second read, and once the
      operation has ended it always reports it. */
  lemma ToggleCheckIsSafe(s: State, addr: nat)
    requires Valid(s)
    ensures ToggleStopped(s, addr) ==> AfterTwoReads(s) == Finished(s)
    ensures AfterTwoReads(s).activity.Idle? ==> ToggleStopped(AfterTwoReads(s), addr)
  {
  }

  /** How many checks it takes until one of them is true. With one busy cycle left the check is true
      already if the last status word agrees with the data bit. */
  function ChecksNeeded(s: State, addr: nat): nat
    requires Valid(s)
  {
    match s.activity
    case Idle => 1
    case Busy(_, left, dq6) =>
      left / 2 + if left % 2 == 0 || dq6 == Toggled(Finished(s).cells[addr / 2 % 0x20_0000]) then 1 else 2
  }

  /** A check that is not true brings the end nearer by itself. */
  lemma OneCheckFewer(s: State, addr: nat)
    requires Valid(s)
    ensures ToggleStopped(s, addr) ==> ChecksNeeded(s, addr) == 1
    ensures !ToggleStopped(s, addr) ==> Valid(AfterTwoReads(s))
    ensures !ToggleStopped(s, addr) ==> ChecksNeeded(s, addr) == 1 + ChecksNeeded(AfterTwoReads(s), addr)
  {
  }

  /** `while (!lpc_norflash_toggle_bit_check(addr)) {}`: the chip ends with its operation complete,
      and the loop makes exactly the checks it needs, for every latency. */
  method WaitForToggle(flash: NorFlash, addr: nat) returns (ghost checks: nat)
    requires Valid(flash.s) && !flash.s.idMode
    modifies flash
    ensures flash.s == Finished(old(flash.s))
    ensures checks == ChecksNeeded(old(flash.s), addr)
  {
    ghost var needed := ChecksNeeded(flash.s, addr);
    OneCheckFewer(flash.s, addr);
    var stopped := ToggleBitCheck(flash, addr);
    checks := 1;
    while !stopped
      invariant Valid(flash.s) && !flash.s.idMode
      invariant Finished(flash.s) == Finished(old(flash.s))
      invariant stopped ==> flash.s.activity.Idle? && checks == needed
      invariant !stopped ==> checks + ChecksNeeded(flash.s, addr) == needed
      decreases !stopped, needed - checks
    {
      OneCheckFewer(flash.s, addr);
      stopped := ToggleBitCheck(flash, addr);
      checks := checks + 1;
    }
  }

  // ----- Buffers -----

  /** Number of words that a buffer of `size` bytes occupies. */
  function WordCount(size: nat): nat {
    (size + 1) / 2
  }

  lemma WordIndex(addr: nat, size: nat, i: nat, k: nat)
    requires addr % 2 == 0 && i == 2 * k && i < size
    ensures (addr + i) / 2 == addr / 2 + k && i / 2 == k && k < WordCount(size)
    ensures i + 2 <= 2 * WordCount(size)
  {
  }

  function Programmed(cells: Cells, base: nat, data: seq<bv16>, n: nat): (r: Cells)
    requires n <= |data|
    ensures |r| == |cells|
  {
    seq(|cells|, i requires 0 <= i < |cells| =>
      if base <= i < base + n then Overlaid(cells[i], data[i - base]) else cells[i])
  }

  /** The chip after n words of a buffer were programmed. */
  function Progress(s: State, base: nat, data: seq<bv16>, n: nat): State
    requires n <= |data|
  {
    s.(cells := Programmed(s.cells, base, data, n), started := s.started + n)
  }

  lemma ProgrammedAt(cells: Cells, base: nat, data: seq<bv16>, n: nat, i: nat)
    requires n <= |data| && i < |cells|
    ensures base <= i < base + n ==> Programmed(cells, base, data, n)[i] == Overlaid(cells[i], data[i - base])
    ensures !(base <= i < base + n) ==> Programmed(cells, base, data, n)[i] == cells[i]
  {
  }

  /** Each word of the buffer became its old value AND the data; every other word stayed. */
  ghost predicate BufferWritten(before: Cells, after: Cells, addr: nat, size: nat, data: seq<bv16>)
    requires addr % 2 == 0 && WordCount(size) <= |data|
  {
    && |after| == |before|
    && forall w :: 0 <= w < |before| ==>
         after[w] == if addr <= 2 * w < addr + size then before[w] & data[w - addr / 2] else before[w]
  }

  lemma InBuffer(addr: nat, size: nat, w: nat)
    requires addr % 2 == 0
    ensures addr <= 2 * w < addr + size <==> addr / 2 <= w < addr / 2 + WordCount(size)
  {
  }

  lemma ProgrammedBuffer(cells: Cells, addr: nat, size: nat, data: seq<bv16>)
    requires addr % 2 == 0 && WordCount(size) <= |data|
    ensures BufferWritten(cells, Programmed(cells, addr / 2, data, WordCount(size)), addr, size, data)
  {
    forall w: nat | w < |cells|
      ensures Programmed(cells, addr / 2, data, WordCount(size))[w]
           == if addr <= 2 * w < addr + size then cells[w] & data[w - addr / 2] else cells[w]
    {
      InBuffer(addr, size, w);
      ProgrammedAt(cells, addr / 2, data, WordCount(size), w);
    }
  }

  lemma OthersStay(cells: Cells, base: nat, data: seq<bv16>, n: nat, i: nat)
    requires n < |data| && i < |cells| && i != base + n
    ensures Programmed(cells, base, data, n)[i] == Programmed(cells, base, data, n + 1)[i]
  {
    ProgrammedAt(cells, base, data, n, i);
    ProgrammedAt(cells, base, data, n + 1, i);
  }

  lemma OneReplaced<T>(before: seq<T>, after: seq<T>, at: nat, v: T)
    requires at < |before| == |after| && v == after[at]
    requires forall i :: 0 <= i < |before| && i != at ==> before[i] == after[i]
    ensures before[at := v] == after
  {
  }

  lemma ProgrammedHere(cells: Cells, base: nat, data: seq<bv16>, n: nat, v: bv16)
    requires n < |data| && base + n < |cells| && v == Overlaid(cells[base + n], data[n])
    ensures Applied(Program(base + n, data[n]), Programmed(cells, base, data, n))
         == Programmed(cells, base, data, n)[base + n := v]
    ensures v == Programmed(cells, base, data, n + 1)[base + n]
  {
    ProgrammedAt(cells, base, data, n, base + n);
    ProgrammedAt(cells, base, data, n + 1, base + n);
  }

  lemma WordProgrammed(cells: Cells, base: nat, data: seq<bv16>, n: nat)
    requires n < |data| && base + n < |cells|
    ensures Applied(Program(base + n, data[n]), Programmed(cells, base, data, n))
         == Programmed(cells, base, data, n + 1)
  {
    var v := Overlaid(cells[base + n], data[n]);
    var before, after := Programmed(cells, base, data, n), Programmed(cells, base, data, n + 1);
    ProgrammedHere(cells, base, data, n, v);
    forall i | 0 <= i < |cells| && i != base + n
      ensures before[i] == after[i]
    {
      OthersStay(cells, base, data, n, i);
    }
    OneReplaced(before, after, base + n, v);
  }

  lemma NextWord(d: Device, s: State, base: nat, data: seq<bv16>, n: nat)
    requires Valid(s) && ReadMode(s) && n < |data| && base + n < FLASH_WORDS
    ensures var t := Start(d, Progress(s, base, data, n), Program(base + n, data[n]));
      Valid(t) && !t.idMode && Finished(t) == Progress(s, base, data, n + 1)
  {
    WordProgrammed(s.cells, base, data, n);
  }

  /** The body of the loop: one word, and the wait for it. */
  method WriteAndWait(flash: NorFlash, addr: nat, data: bv16)
    requires Valid(flash.s) && ReadMode(flash.s) && addr < FLASH_SIZE
    modifies flash
    ensures flash.s == Finished(Start(flash.dev, old(flash.s), Program(addr / 2, data)))
  {
    WriteWord(flash, addr, data);
    ghost var checks := WaitForToggle(flash, addr);
  }

  method WriteBuffer(flash: NorFlash, addr: nat, data: seq<bv16>, size: nat) returns (written: nat)
    requires Valid(flash.s) && ReadMode(flash.s)
    requires addr % 2 == 0 && WordCount(size) <= |data| && addr + 2 * WordCount(size) <= FLASH_SIZE
    modifies flash
    ensures written == 2 * WordCount(size)
    ensures flash.s == Progress(old(flash.s), addr / 2, data, WordCount(size))
    ensures BufferWritten(old(flash.s).cells, flash.s.cells, addr, size, data)
  {
    var i := 0;
    ghost var k, base, s := 0, addr / 2, flash.s;
    assert Programmed(s.cells, base, data, 0) == s.cells;
    while i < size
      invariant i == 2 * k && k <= WordCount(size)
      invariant flash.s == Progress(s, base, data, k)
      decreases size - i
    {
      WordIndex(addr, size, i, k);
      NextWord(flash.dev, s, base, data, k);
      ghost var begun := Start(flash.dev, flash.s, Program(base + k, data[k]));
      WriteAndWait(flash, addr + i, data[i / 2]);
      assert flash.s == Finished(begun);
      i := i + 2;
      k := k + 1;
    }
    ProgrammedBuffer(s.cells, addr, size, data);
    return i;
  }

  // ----- Sectors and identification -----

  function SectorOffset(sector: nat): nat {
    (0x1000 * sector) % 0x1_0000_0000
  }

  method GetId(flash: NorFlash) returns (manufacturer: bv16, device: bv16)
    requires Valid(flash.s) && ReadMode(flash.s)
    modifies flash
    ensures manufacturer == flash.dev.manufacturer && device == flash.dev.device
    ensures flash.s == old(flash.s)
  {
    ghost var s := flash.s;
    WriteCmd(flash, 0x5555, 0xAAAA);
    assert flash.s == s.(prefix := Unlocked1);
    WriteCmd(flash, 0x2AAA, 0x5555);
    assert flash.s == s.(prefix := Unlocked2);
    WriteCmd(flash, 0x5555, 0x9090);
    assert flash.s == s.(idMode := true);
    manufacturer := flash.ReadCycle(0x0000);
    device := flash.ReadCycle(0x0001);
    WriteCmd(flash, 0x5555, 0xAAAA);
    assert flash.s == s.(idMode := true, prefix := Unlocked1);
    WriteCmd(flash, 0x2AAA, 0x5555);
    assert flash.s == s.(idMode := true, prefix := Unlocked2);
    WriteCmd(flash, 0x5555, 0xF0F0);
  }

  /** The cells after a sector was erased and `data` was written from its start. */
  ghost predicate Stored(before: Cells, after: Cells, sector: nat, data: seq<bv16>) {
    var start := SectorStart(sector);
    && |after| == |before|
    && forall w :: 0 <= w < |after| ==>
         after[w] == if SectorOf(w) != sector then before[w]
                     else if w < start + |data| then data[w - start]
                     else 0xFFFF
  }

  lemma EraseThenProgramStores(cells: Cells, sector: nat, data: seq<bv16>)
    requires |data| <= 0x800
    ensures Stored(cells, Programmed(Erased(cells, sector), SectorStart(sector), data, |data|), sector, data)
  {
  }

  lemma SectorFits(sector: nat, n: nat)
    requires sector < 1024 && n <= 0x800
    ensures SectorOffset(sector) == 0x1000 * sector && SectorOffset(sector) < FLASH_SIZE
    ensures SectorOffset(sector) % 2 == 0 && SectorOffset(sector) / 2 == SectorStart(sector)
    ensures WordCount(2 * n) == n && SectorOffset(sector) + 2 * n <= FLASH_SIZE
  {
  }

  lemma SectorErased(d: Device, s: State, sector: nat)
    requires Valid(s) && ReadMode(s) && sector < 1024
    ensures var t := EraseSent(d, s, SectorOffset(sector));
      Valid(t) && !t.idMode && Finished(t) == s.(cells := Erased(s.cells, sector), started := s.started + 1)
  {
    SectorFits(sector, 0);
    EraseStarts(d, s, SectorOffset(sector));
  }

  lemma StoredReadsBack(before: Cells, after: Cells, sector: nat, data: seq<bv16>)
    requires Stored(before, after, sector, data) && |after| == FLASH_WORDS
    requires sector < 1024 && |data| <= 0x800
    ensures after[SectorStart(sector)..SectorStart(sector) + |data|] == data
  {
  }

  /** The words at `addr`, read one by one, which leaves an idle chip as it is. */
  method ReadWords(flash: NorFlash, addr: nat, n: nat) returns (words: seq<bv16>)
    requires Valid(flash.s) && ReadMode(flash.s) && addr % 2 == 0 && addr + 2 * n <= FLASH_SIZE
    modifies flash
    ensures flash.s == old(flash.s) && words == flash.s.cells[addr / 2..addr / 2 + n]
  {
    words := [];
    ghost var s, base := flash.s, addr / 2;
    while |words| < n
      invariant |words| <= n && flash.s == s
      invariant words == s.cells[base..base + |words|]
    {
      var v := ReadWord(flash, addr + 2 * |words|);
      words := words + [v];
    }
  }

  /** The life of a sector as the driver's interface describes it: erase, poll, write, read back. */
  method StoreSector(flash: NorFlash, sector: nat, data: seq<bv16>) returns (back: seq<bv16>)
    requires Valid(flash.s) && ReadMode(flash.s)
    requires sector < 1024 && |data| <= 0x800
    modifies flash
    ensures back == data
    ensures Stored(old(flash.s).cells, flash.s.cells, sector, data)
    ensures Valid(flash.s) && ReadMode(flash.s) && flash.s.ignored == old(flash.s).ignored
  {
    var offset := SectorOffset(sector);
    SectorFits(sector, |data|);
    SectorErased(flash.dev, flash.s, sector);
    EraseSectorAt(flash, offset);
    ghost var checks := WaitForToggle(flash, offset);
    var written := WriteBuffer(flash, offset, data, 2 * |data|);
    EraseThenProgramStores(old(flash.s).cells, sector, data);
    StoredReadsBack(old(flash.s).cells, flash.s.cells, sector, data);
    back := ReadWords(flash, offset, |data|);
  }
}
