/**
 * The K9F1G NAND flash as the driver meets it: command, address and data cycles collected by a
 * small machine. A page read, page program or block erase keeps it busy for any number of looks at
 * the ready pin; cycles that come meanwhile are lost.
 */
module NandChip {
  type Page = seq<bv8>

  /** A command or address byte. */
  type Byte = x: nat | x < 256

  datatype Phase =
    | Standby
    | ReadSetup(addr: seq<Byte>)
    | Reading(row: nat, col: nat)
    | ProgramSetup(addr: seq<Byte>, data: seq<bv8>)
    | EraseSetup(addr: seq<Byte>)

  /** `pages` is indexed by row, 64 rows to a block; `left` is how often the ready pin will still
      be seen low. */
  datatype State = State(pages: seq<Page>, phase: Phase, left: nat, started: nat, lost: nat)

  ghost predicate Valid(s: State) {
    && |s.pages| == 0x1_0000
    && (forall r :: 0 <= r < |s.pages| ==> |s.pages[r]| == 2112)
    && (s.phase.Reading? ==> s.phase.row < 0x1_0000)
  }

  function BlankPage(): (p: Page)
    ensures |p| == 2112
  {
    seq(2112, i => 0xFF)
  }

  function BlockErased(pages: seq<Page>, block: nat): (r: seq<Page>)
    ensures |r| == |pages|
  {
    seq(|pages|, r requires 0 <= r < |pages| => if r / 64 == block then BlankPage() else pages[r])
  }

  /** Programming can only clear bits. */
  function Written(page: Page, col: nat, data: seq<bv8>): (r: Page)
    ensures |r| == |page|
  {
    seq(|page|, i requires 0 <= i < |page| =>
      if col <= i < col + |data| then page[i] & data[i - col] else page[i])
  }

  function PageWritten(pages: seq<Page>, row: nat, col: nat, data: seq<bv8>): (r: seq<Page>)
    ensures |r| == |pages|
  {
    if row < |pages| then pages[row := Written(pages[row], col, data)] else pages
  }

  /** Two address bytes, low byte first. */
  function Joined(lo: Byte, hi: Byte): (x: nat)
    ensures x < 0x1_0000
  {
    lo + 256 * (hi as int)
  }

  function Begun(latency: nat -> nat, s: State, phase: Phase, pages: seq<Page>): State {
    State(pages, phase, latency(s.started), s.started + 1, s.lost)
  }

  function AfterCommand(latency: nat -> nat, s: State, cmd: Byte): State {
    if s.left > 0 then s.(lost := s.lost + 1)
    else if cmd == 0x00 then s.(phase := ReadSetup([]))
    else if cmd == 0x80 then s.(phase := ProgramSetup([], []))
    else if cmd == 0x60 then s.(phase := EraseSetup([]))
    else match s.phase
      case ReadSetup(a) =>
        if cmd == 0x30 && |a| == 4 then
          Begun(latency, s, Reading(Joined(a[2], a[3]), Joined(a[0], a[1])), s.pages)
        else s.(phase := Standby)
      case ProgramSetup(a, data) =>
        if cmd == 0x10 && |a| == 4 then
          Begun(latency, s, Standby, PageWritten(s.pages, Joined(a[2], a[3]), Joined(a[0], a[1]), data))
        else s.(phase := Standby)
      case EraseSetup(a) =>
        if cmd == 0xD0 && |a| == 2 then
          Begun(latency, s, Standby, BlockErased(s.pages, Joined(a[0], a[1]) / 64))
        else s.(phase := Standby)
      case _ => s.(phase := Standby)
  }

  function AfterAddress(s: State, addr: Byte): State {
    if s.left > 0 then s.(lost := s.lost + 1)
    else match s.phase
      case ReadSetup(a) => s.(phase := ReadSetup(a + [addr]))
      case ProgramSetup(a, data) => s.(phase := ProgramSetup(a + [addr], data))
      case EraseSetup(a) => s.(phase := EraseSetup(a + [addr]))
      case _ => s
  }

  function AfterData(s: State, data: bv8): State {
    if s.left > 0 then s.(lost := s.lost + 1)
    else if s.phase.ProgramSetup? then s.(phase := s.phase.(data := s.phase.data + [data]))
    else s
  }

  /** The byte a read cycle delivers; outside a page the chip promises nothing. */
  function Output(s: State): bv8
    requires Valid(s)
  {
    if s.left == 0 && s.phase.Reading? && s.phase.col < 2112 then s.pages[s.phase.row][s.phase.col] else 0
  }

  function AfterOutput(s: State): State {
    if s.left > 0 then s.(lost := s.lost + 1)
    else if s.phase.Reading? then s.(phase := s.phase.(col := s.phase.col + 1))
    else s
  }

  class Nand {
    const latency: nat -> nat
    var s: State

    constructor (latency: nat -> nat, s: State)
      ensures this.latency == latency && this.s == s
    {
      this.latency := latency;
      this.s := s;
    }

    method WriteCmd(cmd: Byte)
      modifies this
      ensures s == AfterCommand(latency, old(s), cmd)
    {
      s := AfterCommand(latency, s, cmd);
    }

    method WriteAddr(addr: Byte)
      modifies this
      ensures s == AfterAddress(old(s), addr)
    {
      s := AfterAddress(s, addr);
    }

    method WriteByte(data: bv8)
      modifies this
      ensures s == AfterData(old(s), data)
    {
      s := AfterData(s, data);
    }

    method ReadByte() returns (data: bv8)
      requires Valid(s)
      modifies this
      ensures data == Output(old(s)) && s == AfterOutput(old(s))
    {
      data := Output(s);
      s := AfterOutput(s);
    }

    /** The ready pin. */
    method GetReady() returns (ready: bool)
      modifies this
      ensures ready == (old(s).left == 0)
      ensures s == if old(s).left > 0 then old(s).(left := old(s).left - 1) else old(s)
    {
      ready := s.left == 0;
      if s.left > 0 {
        s := s.(left := s.left - 1);
      }
    }
  }
}
