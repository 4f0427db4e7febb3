/**
 * The SST39VF320 as the driver meets it over its bus: a machine stepped by single read and write
 * cycles. A program or erase keeps it busy for any number of cycles; meanwhile every read toggles
 * DQ6 and every write is ignored.
 */
module NorChip {
  const FLASH_WORDS: nat := 0x20_0000
  const TOGGLE_BIT: bv16 := 0x40

  type Cells = seq<bv16>

  /** How far a command sequence has come. */
  datatype Prefix =
    | NoPrefix
    | Unlocked1
    | Unlocked2
    | ProgramSetup
    | EraseSetup
    | EraseUnlocked1
    | EraseUnlocked2

  datatype Operation = Program(word: nat, data: bv16) | EraseSector(sector: nat)

  /** `left` is how many more bus cycles will find the chip busy. */
  datatype Activity = Idle | Busy(op: Operation, left: nat, dq6: bool)

  datatype State = State(
    cells: Cells,
    prefix: Prefix,
    idMode: bool,
    activity: Activity,
    started: nat,  // program and erase operations begun so far
    ignored: nat)  // write cycles that came while the chip was busy

  /** What one chip may do differently from another: how long its operations take and with which
      value DQ6 begins (by operation number), the other status bits, and its identity. */
  datatype Device = Device(
    latency: nat -> nat,
    firstDq6: nat -> bool,
    noise: (nat, nat) -> bv16,
    manufacturer: bv16,
    device: bv16)

  /** Sectors are uniform: 0x800 words each. */
  function SectorOf(word: nat): nat {
    word / 0x800
  }

  function SectorStart(sector: nat): nat {
    0x800 * sector
  }

  ghost predicate Valid(s: State) {
    && |s.cells| == FLASH_WORDS
    && (s.activity.Busy? && s.activity.op.Program? ==> s.activity.op.word < FLASH_WORDS)
  }

  /** Idle, in read-array mode, and between command sequences. */
  predicate ReadMode(s: State) {
    s.activity.Idle? && !s.idMode && s.prefix.NoPrefix?
  }

  function Erased(cells: Cells, sector: nat): (r: Cells)
    ensures |r| == |cells|
  {
    seq(|cells|, i requires 0 <= i < |cells| => if SectorOf(i) == sector then 0xFFFF else cells[i])
  }

  /** Programming can only clear bits. */
  function Overlaid(cell: bv16, data: bv16): bv16 {
    cell & data
  }

  /** Programming changes one word; erasing sets all bits of one sector. */
  function Applied(op: Operation, cells: Cells): (r: Cells)
    ensures |r| == |cells|
  {
    match op
    case Program(word, data) => if word < |cells| then cells[word := Overlaid(cells[word], data)] else cells
    case EraseSector(sector) => Erased(cells, sector)
  }

  /** The chip once the operation under way, if any, has ended. */
  function Finished(s: State): State {
    if s.activity.Busy? then s.(cells := Applied(s.activity.op, s.cells), activity := Idle) else s
  }

  /** The chip as the next bus cycle finds it. */
  function Settled(s: State): State {
    if s.activity.Busy? && s.activity.left == 0 then Finished(s) else s
  }

  predicate Toggled(v: bv16) {
    v & TOGGLE_BIT != 0
  }

  function Status(d: Device, s: State): bv16
    requires s.activity.Busy?
  {
    var n := d.noise(s.started, s.activity.left);
    if s.activity.dq6 then n | TOGGLE_BIT else n & !TOGGLE_BIT
  }

  function ReadValue(d: Device, s: State, word: nat): bv16
    requires Valid(s)
  {
    var t := Settled(s);
    if t.activity.Busy? then Status(d, t)
    else if t.idMode then (if word == 0 then d.manufacturer else if word == 1 then d.device else 0)
    else t.cells[word % 0x20_0000]
  }

  function AfterRead(s: State): State {
    var t := Settled(s);
    if t.activity.Busy? && t.activity.left > 0 then
      t.(activity := Busy(t.activity.op, t.activity.left - 1, !t.activity.dq6))
    else t
  }

  function Start(d: Device, s: State, op: Operation): State {
    s.(prefix := NoPrefix,
       activity := Busy(op, d.latency(s.started), d.firstDq6(s.started)),
       started := s.started + 1)
  }

  /** A write cycle that an idle chip takes in. Commands are recognised by their low byte and the
      low 15 address lines. */
  function Decoded(d: Device, s: State, word: nat, data: bv16): State {
    var a, c := word % 0x8000, data & 0xFF;
    match s.prefix
    case NoPrefix =>
      if a == 0x5555 && c == 0xAA then s.(prefix := Unlocked1)
      else if c == 0xF0 then s.(idMode := false)
      else s
    case Unlocked1 => s.(prefix := if a == 0x2AAA && c == 0x55 then Unlocked2 else NoPrefix)
    case Unlocked2 =>
      if a == 0x5555 && c == 0xA0 then s.(prefix := ProgramSetup)
      else if a == 0x5555 && c == 0x80 then s.(prefix := EraseSetup)
      else if a == 0x5555 && c == 0x90 then s.(prefix := NoPrefix, idMode := true)
      else if a == 0x5555 && c == 0xF0 then s.(prefix := NoPrefix, idMode := false)
      else s.(prefix := NoPrefix)
    case ProgramSetup => Start(d, s, Program(word % 0x20_0000, data))
    case EraseSetup => s.(prefix := if a == 0x5555 && c == 0xAA then EraseUnlocked1 else NoPrefix)
    case EraseUnlocked1 => s.(prefix := if a == 0x2AAA && c == 0x55 then EraseUnlocked2 else NoPrefix)
    case EraseUnlocked2 =>
      if c == 0x30 then Start(d, s, EraseSector(SectorOf(word % 0x20_0000)))
      else s.(prefix := NoPrefix)
  }

  function AfterWrite(d: Device, s: State, word: nat, data: bv16): State {
    var t := Settled(s);
    if t.activity.Busy? && t.activity.left > 0 then
      t.(activity := t.activity.(left := t.activity.left - 1), ignored := t.ignored + 1)
    else Decoded(d, t, word, data)
  }

  class NorFlash {
    const dev: Device
    var s: State

    constructor (dev: Device, s: State)
      ensures this.dev == dev && this.s == s
    {
      this.dev := dev;
      this.s := s;
    }

    method ReadCycle(word: nat) returns (v: bv16)
      requires Valid(s)
      modifies this
      ensures v == ReadValue(dev, old(s), word) && s == AfterRead(old(s))
    {
      v := ReadValue(dev, s, word);
      s := AfterRead(s);
    }

    method WriteCycle(word: nat, data: bv16)
      modifies this
      ensures s == AfterWrite(dev, old(s), word, data)
    {
      s := AfterWrite(dev, s, word, data);
    }
  }
}
