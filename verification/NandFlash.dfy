/**
 * The driver lpc_nandflash_k9f1g.c: block, page and offset become command, address and data cycles.
 */
module NandFlashDriver {
  import opened NandChip

  // ----- Addresses -----

  /** COLUMN_ADDR, a uint32_t: the row of a page in a block. */
  function RowAddr(block: nat, page: nat): nat {
    (block * 64 + page) % 0x1_0000_0000
  }

  /** The low and the next byte of an address, as the driver puts them on the bus. */
  function Low(x: nat): Byte {
    x % 256
  }

  function High(x: nat): Byte {
    x / 256 % 256
  }

  /** The row the chip makes of the two bytes. */
  function DecodedRow(block: nat, page: nat): nat {
    var row := RowAddr(block, page);
    Joined(Low(row), High(row))
  }

  lemma RemainderIs(x: nat, p: nat, r: nat)
    requires x == 0x1_0000 * p + r && r < 0x1_0000
    ensures x % 0x1_0000 == r
  {
  }

  lemma BytesJoin(x: nat)
    ensures Joined(Low(x), High(x)) == x % 0x1_0000
  {
    var q := x / 256;
    RemainderIs(x, q / 256, x % 256 + 256 * (q % 256));
  }

  lemma NestedRemainder(x: nat)
    ensures x % 0x1_0000_0000 % 0x1_0000 == x % 0x1_0000
  {
  }

  lemma RowSplits(block: nat, page: nat)
    requires block < 1024 && page < 64
    ensures (64 * block + page) % 0x1_0000 / 64 == block
    ensures (64 * block + page) % 0x1_0000 % 64 == page
  {
  }

  /** What row the chip acts on: a block or page number outside the chip wraps round its 65536 rows. */
  lemma RowDecodes(block: nat, page: nat)
    ensures DecodedRow(block, page) == (64 * block + page) % 0x1_0000
  {
    BytesJoin(RowAddr(block, page));
    NestedRemainder(64 * block + page);
  }

  /** The chip understands the location the caller meant. */
  lemma AddressRoundTrip(block: nat, page: nat)
    requires block < 1024 && page < 64
    ensures DecodedRow(block, page) / 64 == block && DecodedRow(block, page) % 64 == page
  {
    RowDecodes(block, page);
    RowSplits(block, page);
  }

  lemma ColumnRoundTrip(ofs: nat)
    requires ofs < 2112
    ensures Joined(Low(ofs), High(ofs)) == ofs
  {
    BytesJoin(ofs);
  }

  /** Distinct locations inside the chip are distinct rows. */
  lemma AddressesAreDistinct(block: nat, page: nat, block': nat, page': nat)
    requires block < 1024 && page < 64 && block' < 1024 && page' < 64
    requires DecodedRow(block, page) == DecodedRow(block', page')
    ensures block == block' && page == page'
  {
    AddressRoundTrip(block, page);
    AddressRoundTrip(block', page');
  }

  // ----- Operations -----

  predicate Ready(s: State) {
    s.left == 0
  }

  /** Whatever block number is passed, exactly the 64 pages of one block are blanked. */
  method EraseBlock(nand: Nand, block: nat)
    requires Valid(nand.s) && Ready(nand.s)
    modifies nand
    ensures nand.s == Begun(nand.latency, old(nand.s), Standby,
                            BlockErased(old(nand.s).pages, DecodedRow(block, 0) / 64))
  {
    var row := RowAddr(block, 0);
    nand.WriteCmd(0x60);
    nand.WriteAddr(row % 256);
    nand.WriteAddr(row / 256 % 256);
    assert nand.s.phase == EraseSetup([Low(row), High(row)]);
    nand.WriteCmd(0xD0);
  }

  /** What the closing command makes of the address and data cycles before it. */
  lemma ProgramConfirmed(latency: nat -> nat, s: State, addr: seq<Byte>, data: seq<bv8>)
    requires Ready(s) && |addr| == 4 && s.phase == ProgramSetup(addr, data)
    ensures AfterCommand(latency, s, 0x10)
         == Begun(latency, s, Standby, PageWritten(s.pages, Joined(addr[2], addr[3]), Joined(addr[0], addr[1]), data))
  {
  }

  /** The opening command and the address cycles, column 0 first. */
  method BeginProgram(nand: Nand, row: nat)
    requires Ready(nand.s)
    modifies nand
    ensures nand.s == old(nand.s).(phase := ProgramSetup([0, 0, Low(row), High(row)], []))
  {
    nand.WriteCmd(0x80);
    nand.WriteAddr(0x00);
    nand.WriteAddr(0x00);
    nand.WriteAddr(row % 256);
    nand.WriteAddr(row / 256 % 256);
    assert nand.s.phase.addr == [0, 0, Low(row), High(row)];
  }

  /** The data cycles. */
  method SendData(nand: Nand, data: array<bv8>, size: nat) returns (sent: nat)
    requires Ready(nand.s) && nand.s.phase.ProgramSetup? && nand.s.phase.data == [] && size <= data.Length
    modifies nand
    ensures sent == size
    ensures nand.s == old(nand.s).(phase := ProgramSetup(old(nand.s).phase.addr, data[..size]))
  {
    ghost var addr := nand.s.phase.addr;
    var i := 0;
    assert data[..0] == [];
    while i < size
      invariant i <= size
      invariant nand.s == old(nand.s).(phase := ProgramSetup(addr, data[..i]))
    {
      nand.WriteByte(data[i]);
      assert data[..i + 1] == data[..i] + [data[i]];
      i := i + 1;
    }
    return i;
  }

  /** A byte of the written page becomes its old value AND the data; every other byte stays. */
  lemma WrittenByte(pages: seq<Page>, row: nat, data: seq<bv8>, r: nat, i: nat)
    requires row < |pages| && r < |pages| && i < |pages[r]|
    ensures PageWritten(pages, row, 0, data)[r][i]
         == if r == row && i < |data| then pages[r][i] & data[i] else pages[r][i]
  {
  }

  method WritePage(nand: Nand, block: nat, page: nat, data: array<bv8>, size: nat) returns (written: nat)
    requires Valid(nand.s) && Ready(nand.s) && size <= data.Length && size <= 2112
    modifies nand
    ensures written == size
    ensures nand.s == Begun(nand.latency, old(nand.s), Standby,
                            PageWritten(old(nand.s).pages, DecodedRow(block, page), 0, data[..size]))
    ensures forall r, i :: 0 <= r < 0x1_0000 && 0 <= i < 2112 ==>
              nand.s.pages[r][i]
              == if r == (64 * block + page) % 0x1_0000 && i < size then old(nand.s).pages[r][i] & data[i]
                 else old(nand.s).pages[r][i]
  {
    ghost var pages := nand.s.pages;
    var row := RowAddr(block, page);
    BeginProgram(nand, row);
    written := SendData(nand, data, size);
    ProgramConfirmed(nand.latency, nand.s, nand.s.phase.addr, data[..size]);
    nand.WriteCmd(0x10);
    forall r, i | 0 <= r < 0x1_0000 && 0 <= i < 2112
      ensures nand.s.pages[r][i] == if r == (64 * block + page) % 0x1_0000 && i < size then pages[r][i] & data[i]
                                    else pages[r][i]
    {
      RowDecodes(block, page);
      WrittenByte(pages, (64 * block + page) % 0x1_0000, data[..size], r, i);
    }
  }

  method ReadStart(nand: Nand, block: nat, page: nat, ofs: nat)
    requires Valid(nand.s) && Ready(nand.s) && ofs < 2112
    modifies nand
    ensures nand.s == Begun(nand.latency, old(nand.s), Reading(DecodedRow(block, page), ofs), old(nand.s).pages)
  {
    var row := RowAddr(block, page);
    nand.WriteCmd(0x00);
    nand.WriteAddr(ofs % 256);
    nand.WriteAddr(ofs / 256 % 256);
    nand.WriteAddr(row % 256);
    nand.WriteAddr(row / 256 % 256);
    assert nand.s.phase == ReadSetup([Low(ofs), High(ofs), Low(row), High(row)]);
    ColumnRoundTrip(ofs);
    nand.WriteCmd(0x30);
  }

  method ReadData(nand: Nand, data: array<bv8>, size: nat)
    requires Valid(nand.s) && Ready(nand.s) && nand.s.phase.Reading?
    requires size <= data.Length && nand.s.phase.col + size <= 2112
    modifies nand, data
    ensures var was := old(nand.s);
      && data[..size] == was.pages[was.phase.row][was.phase.col..was.phase.col + size]
      && data[size..] == old(data[size..])
      && nand.s == was.(phase := Reading(was.phase.row, was.phase.col + size))
  {
    ghost var was := nand.s;
    ghost var page := was.pages[was.phase.row];
    var i := 0;
    while i < size
      invariant i <= size
      invariant nand.s == was.(phase := Reading(was.phase.row, was.phase.col + i))
      invariant data[..i] == page[was.phase.col..was.phase.col + i]
      invariant data[i..] == old(data[i..])
    {
      data[i] := nand.ReadByte();
      i := i + 1;
    }
  }

  /** What a caller does between operations: look at the ready pin until it is high. */
  method WaitReady(nand: Nand)
    modifies nand
    ensures nand.s == old(nand.s).(left := 0)
  {
    var ready := nand.GetReady();
    while !ready
      invariant nand.s.(left := 0) == old(nand.s).(left := 0)
      invariant ready ==> nand.s.left == 0
      decreases !ready, nand.s.left
    {
      ready := nand.GetReady();
    }
  }

  // ----- A block's life -----

  /** Row r after a block was erased and `data` was written to the start of one of its pages. */
  predicate StoredRow(before: seq<Page>, after: seq<Page>, block: nat, page: nat, data: seq<bv8>, r: nat)
    requires r < |before| && r < |after| && |data| <= 2112
  {
    after[r] == if r / 64 != block then before[r]
                else if r % 64 != page then BlankPage()
                else data + BlankPage()[|data|..]
  }

  lemma WrittenBlankPage(data: seq<bv8>)
    requires |data| <= 2112
    ensures Written(BlankPage(), 0, data) == data + BlankPage()[|data|..]
  {
  }

  lemma SameRow(block: nat, page: nat, row: nat, r: nat)
    requires row / 64 == block && row % 64 == page
    ensures r == row <==> r / 64 == block && r % 64 == page
  {
  }

  /** The three kinds of rows: in another block, in this block, and the page itself. */
  lemma StoredRowOf(pages: seq<Page>, block: nat, page: nat, row: nat, data: seq<bv8>, r: nat)
    requires row < |pages| && r < |pages| && |data| <= 2112
    requires row / 64 == block && row % 64 == page
    ensures StoredRow(pages, PageWritten(BlockErased(pages, block), row, 0, data), block, page, data, r)
  {
    SameRow(block, page, row, r);
    WrittenBlankPage(data);
  }

  lemma EraseThenWriteStores(pages: seq<Page>, block: nat, page: nat, data: seq<bv8>, r: nat)
    requires |pages| == 0x1_0000 && block < 1024 && page < 64 && |data| <= 2112 && r < 0x1_0000
    ensures StoredRow(pages,
                      PageWritten(BlockErased(pages, DecodedRow(block, 0) / 64), DecodedRow(block, page), 0, data),
                      block, page, data, r)
  {
    AddressRoundTrip(block, 0);
    AddressRoundTrip(block, page);
    StoredRowOf(pages, block, page, DecodedRow(block, page), data, r);
  }

  /** Erase, program and read back: any slice of the page comes back as it was written, the rest of
      the page and the other pages of the block are blank, every other block is untouched, and no
      cycle met a busy chip. */
  method StorePage(nand: Nand, block: nat, page: nat, data: array<bv8>, size: nat,
                   ofs: nat, back: array<bv8>, count: nat)
    requires Valid(nand.s) && Ready(nand.s) && block < 1024 && page < 64 && data != back
    requires size <= data.Length && size <= 2112 && ofs < 2112 && ofs + count <= 2112 && count <= back.Length
    modifies nand, back
    ensures |nand.s.pages| == |old(nand.s).pages| == 0x1_0000
    ensures forall r :: 0 <= r < 0x1_0000 ==>
              StoredRow(old(nand.s).pages, nand.s.pages, block, page, data[..size], r)
    ensures back[..count] == (data[..size] + BlankPage()[size..])[ofs..ofs + count]
    ensures Ready(nand.s) && nand.s.lost == old(nand.s).lost
  {
    ghost var before := nand.s.pages;
    EraseBlock(nand, block);
    WaitReady(nand);
    var written := WritePage(nand, block, page, data, size);
    WaitReady(nand);
    forall r | 0 <= r < 0x1_0000
      ensures StoredRow(before, nand.s.pages, block, page, data[..size], r)
    {
      EraseThenWriteStores(before, block, page, data[..size], r);
    }
    AddressRoundTrip(block, page);
    assert StoredRow(before, nand.s.pages, block, page, data[..size], DecodedRow(block, page));
    ReadStart(nand, block, page, ofs);
    WaitReady(nand);
    ReadData(nand, back, count);
  }
}
