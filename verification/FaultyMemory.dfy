/**
 * A memory range as the tests of mem_tests.c meet it: words that may share a cell because the
 * address decoder is broken, and read-out that may change the bits a cell holds. Stuck bits and
 * shorted data lines are particular faults of this kind; they can combine with any decoder.
 */
module FaultyMemory {
  import opened Words

  /** `decode` maps a word address (byte address / 4) to the physical cell it selects;
      `distort(w, v)` is what reading word address w delivers when its cell was given v. */
  datatype Fault = Fault(decode: nat -> nat, distort: (nat, Word) -> Word)

  type Cells = map<nat, Word>

  function Fetch(f: Fault, cells: Cells, word: nat): Word {
    var c := f.decode(word);
    f.distort(word, if c in cells then cells[c] else 0)
  }

  class Memory {
    const fault: Fault
    var cells: Cells

    constructor (fault: Fault, cells: Cells)
      ensures this.fault == fault && this.cells == cells
    {
      this.fault := fault;
      this.cells := cells;
    }

    method Write(word: nat, v: Word)
      modifies this
      ensures cells == old(cells)[fault.decode(word) := v]
    {
      cells := cells[fault.decode(word) := v];
    }

    /** A cell that was never written delivers a distorted 0; the tests never read one. */
    method Read(word: nat) returns (v: Word)
      ensures v == Fetch(fault, cells, word)
    {
      v := Fetch(fault, cells, word);
    }
  }

  // ----- The faults -----

  /** Words j and k of the range that starts at word address `base` share a cell. */
  predicate Aliased(f: Fault, base: nat, j: nat, k: nat) {
    f.decode(base + j) == f.decode(base + k)
  }

  /** Distinct words of the range select distinct cells. */
  ghost predicate Injective(f: Fault, base: nat, n: nat) {
    forall j, k :: 0 <= j < n && 0 <= k < n && Aliased(f, base, j, k) ==> j == k
  }

  ghost predicate PerfectCells(f: Fault) {
    forall w: nat, v: Word :: f.distort(w, v) == v
  }

  /** What a word with stuck bits delivers: bits set in `ones` read 1, other bits set in `zeros`
      read 0, the rest as stored -- `(v & ~zeros) | ones`. */
  function Forced(zeros: Word, ones: Word, v: Word): Word {
    WordOf((b: nat) => Bit(ones, b) || (Bit(v, b) && !Bit(zeros, b)))
  }

  predicate StuckBit(zeros: nat -> Word, ones: nat -> Word, base: nat, k: nat, b: nat) {
    Bit(zeros(base + k), b) || Bit(ones(base + k), b)
  }

  /** Any decoder, combined with any stuck bits at any word. */
  function StuckAt(decode: nat -> nat, zeros: nat -> Word, ones: nat -> Word): Fault {
    Fault(decode, (w: nat, v: Word) => Forced(zeros(w), ones(w), v))
  }

  ghost predicate NoStuckBit(zeros: nat -> Word, ones: nat -> Word, base: nat, n: nat) {
    forall k, b :: 0 <= k < n && 0 <= b < 32 ==> !StuckBit(zeros, ones, base, k, b)
  }

  datatype Short = WiredOr | WiredAnd

  /** The level that two touching lines driven with bits i and j of v settle on. */
  predicate Level(short: Short, i: nat, j: nat, v: Word) {
    match short
    case WiredOr => Bit(v, i) || Bit(v, j)
    case WiredAnd => Bit(v, i) && Bit(v, j)
  }

  /** What a bus whose data lines i and j touch delivers. */
  function Merged(short: Short, i: nat, j: nat, v: Word): Word {
    var level := Level(short, i, j, v);
    WordOf((b: nat) => if b == i || b == j then level else Bit(v, b))
  }

  function Shorted(decode: nat -> nat, short: Short, i: nat, j: nat): Fault {
    Fault(decode, (w: nat, v: Word) => Merged(short, i, j, v))
  }

  // ----- What a read sees after a whole range was written in ascending order -----

  /** The last of the n words that was written into the cell of word k. */
  function LastWriter(f: Fault, base: nat, n: nat, k: nat): (j: nat)
    requires k < n
    ensures k <= j < n
  {
    if k == n - 1 || Aliased(f, base, n - 1, k) then n - 1 else LastWriter(f, base, n - 1, k)
  }

  lemma {:induction false} LastWriterIsLast(f: Fault, base: nat, n: nat, k: nat)
    requires k < n
    ensures var j := LastWriter(f, base, n, k);
      Aliased(f, base, j, k) && forall m :: j < m < n ==> !Aliased(f, base, m, k)
  {
    if k < n - 1 && !Aliased(f, base, n - 1, k) {
      LastWriterIsLast(f, base, n - 1, k);
    }
  }
}
