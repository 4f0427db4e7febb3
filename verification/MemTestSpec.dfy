/**
 * What the six two-pass RAM tests of mem_tests.c compute: each first fills the range with a pattern
 * in ascending order and then compares every word with the pattern again.
 */
module MemTestSpec {
  import opened Words
  import opened FaultyMemory

  const ALTERNATING_PATTERN: Word := 0x55AA55AA

  /** `seed` after `pattern += incr` was done k times on a uint32_t. */
  function Sum(seed: Word, incr: Word, k: nat): Word {
    if k == 0 then seed else (Sum(seed, incr, k - 1) + incr) % 0x1_0000_0000
  }

  /** Which pattern a test writes; At gives the word with index k of a range that starts at word
      address `base` (byte address 4 * base). */
  datatype Pattern =
    | WalkingZero
    | WalkingOne
    | Address
    | InverseAddress
    | Alternating
    | Seeded(seed: Word, incr: Word)
  {
    function At(base: nat, k: nat): Word {
      match this
      case WalkingZero => Not(ShiftedOne(k % 32))
      case WalkingOne => ShiftedOne(k % 32)
      case Address => (4 * (base + k)) % 0x1_0000_0000
      case InverseAddress => Not((4 * (base + k)) % 0x1_0000_0000)
      case Alternating => if k % 2 == 0 then ALTERNATING_PATTERN else Not(ALTERNATING_PATTERN)
      case Seeded(seed, incr) => Sum(seed, incr, k)
    }
  }

  /** The result fields of MEM_TEST_SETUP_T. */
  datatype Report = Report(failAddr: nat, isVal: Word, exVal: Word)

  class MemTestSetup {
    const startAddr: Word
    const bytes: Word
    var failAddr: nat
    var isVal: Word
    var exVal: Word

    constructor (startAddr: Word, bytes: Word)
      ensures this.startAddr == startAddr && this.bytes == bytes
    {
      this.startAddr := startAddr;
      this.bytes := bytes;
      failAddr := 0;
      isVal := 0;
      exVal := 0;
    }

    function Result(): Report
      reads this
    {
      Report(failAddr, isVal, exVal)
    }
  }

  // ----- Specification -----

  /** What the second pass reads at word k, whatever the memory held before the first pass. */
  function Seen(f: Fault, p: Pattern, base: nat, n: nat, k: nat): Word
    requires k < n
  {
    f.distort(base + k, p.At(base, LastWriter(f, base, n, k)))
  }

  /** Word k reads back as it was meant to be. */
  predicate Matches(f: Fault, p: Pattern, base: nat, n: nat, k: nat)
    requires k < n
  {
    Seen(f, p, base, n, k) == p.At(base, k)
  }

  /** The report of a mismatch at word k: its address, what was read, what was expected. */
  function ReportAt(f: Fault, p: Pattern, base: nat, n: nat, k: nat): Report
    requires k < n
  {
    Report(4 * (base + k), Seen(f, p, base, n, k), p.At(base, k))
  }

  predicate Passes(f: Fault, p: Pattern, base: nat, n: nat) {
    forall k :: 0 <= k < n ==> Matches(f, p, base, n, k)
  }

  /** Word k is the first of n words that does not match, and r reports it. */
  predicate FirstMismatch(f: Fault, p: Pattern, base: nat, n: nat, k: nat, r: Report)
    requires k < n
  {
    && !Matches(f, p, base, n, k)
    && (forall j :: 0 <= j < k ==> Matches(f, p, base, n, j))
    && r == ReportAt(f, p, base, n, k)
  }

  predicate Selects(f: Fault, base: nat, k: nat, c: nat) {
    f.decode(base + k) == c
  }

  /** The cell of word k holds the pattern of the last of n words written into it. */
  predicate HoldsLastWrite(f: Fault, p: Pattern, base: nat, n: nat, k: nat, cells: Cells)
    requires k < n
  {
    var c := f.decode(base + k);
    c in cells && cells[c] == p.At(base, LastWriter(f, base, n, k))
  }

  predicate SameCell(c: nat, before: Cells, after: Cells) {
    (c in after <==> c in before) && (c in before && c in after ==> after[c] == before[c])
  }

  /** The cells after the first n words were written: a cell holds the pattern of its last writer,
      and a cell that no word selects holds what it held. */
  ghost predicate Filled(f: Fault, p: Pattern, base: nat, n: nat, before: Cells, after: Cells) {
    && (forall k :: 0 <= k < n ==> HoldsLastWrite(f, p, base, n, k, after))
    && (forall c: nat ::
          (forall k :: 0 <= k < n ==> !Selects(f, base, k, c)) ==> SameCell(c, before, after))
  }

  /** The whole outcome of one test of the n words from word address `base` on. */
  ghost predicate Judged(f: Fault, p: Pattern, base: nat, n: nat,
                         before: Cells, after: Cells, was: Report, now: Report, ok: bool)
  {
    && Filled(f, p, base, n, before, after)
    && (ok <==> Passes(f, p, base, n))
    && (ok ==> now == was)
    && (!ok ==> exists k :: 0 <= k < n && FirstMismatch(f, p, base, n, k, now))
  }

  // ----- The two passes -----

  /** The cells after the first n words were written in ascending order. */
  function Fill(f: Fault, p: Pattern, base: nat, n: nat, cells: Cells): Cells {
    if n == 0 then cells
    else Fill(f, p, base, n - 1, cells)[f.decode(base + n - 1) := p.At(base, n - 1)]
  }

  /** The first word from k on that does not read back as its pattern, or n. */
  function Scan(f: Fault, p: Pattern, base: nat, n: nat, cells: Cells, k: nat): (r: nat)
    requires k <= n
    ensures k <= r <= n
    decreases n - k
  {
    if k == n || Fetch(f, cells, base + k) != p.At(base, k) then k
    else Scan(f, p, base, n, cells, k + 1)
  }

  /** What a test returns, the cells it leaves and the result fields it leaves. */
  datatype Outcome = Outcome(ok: bool, cells: Cells, report: Report)

  /** The second pass. */
  function Check(f: Fault, p: Pattern, base: nat, n: nat, cells: Cells, report: Report): Outcome {
    var bad := Scan(f, p, base, n, cells, 0);
    if bad == n then Outcome(true, cells, report)
    else Outcome(false, cells, Report(4 * (base + bad), Fetch(f, cells, base + bad), p.At(base, bad)))
  }

  lemma {:induction false} FillIsFilled(f: Fault, p: Pattern, base: nat, n: nat, cells: Cells)
    ensures Filled(f, p, base, n, cells, Fill(f, p, base, n, cells))
  {
    if n > 0 {
      var mid, after := Fill(f, p, base, n - 1, cells), Fill(f, p, base, n, cells);
      FillIsFilled(f, p, base, n - 1, cells);
      forall k | 0 <= k < n
        ensures HoldsLastWrite(f, p, base, n, k, after)
      {
        if !Aliased(f, base, n - 1, k) {
          assert HoldsLastWrite(f, p, base, n - 1, k, mid);
        }
      }
      forall c: nat | forall k :: 0 <= k < n ==> !Selects(f, base, k, c)
        ensures SameCell(c, cells, after)
      {
        assert !Selects(f, base, n - 1, c);
        assert SameCell(c, cells, mid);
      }
    }
  }

  /** A read in the second pass delivers what Seen says. */
  lemma ReadAfterFill(f: Fault, p: Pattern, base: nat, n: nat, cells: Cells, k: nat)
    requires k < n
    ensures Fetch(f, Fill(f, p, base, n, cells), base + k) == Seen(f, p, base, n, k)
  {
    FillIsFilled(f, p, base, n, cells);
    assert HoldsLastWrite(f, p, base, n, k, Fill(f, p, base, n, cells));
  }

  lemma {:induction false} ScanFindsFirst(f: Fault, p: Pattern, base: nat, n: nat,
                                           before: Cells, after: Cells, k: nat)
    requires k <= n && after == Fill(f, p, base, n, before)
    ensures var r := Scan(f, p, base, n, after, k);
      && (forall j :: k <= j < r ==> Matches(f, p, base, n, j))
      && (r < n ==> !Matches(f, p, base, n, r))
    decreases n - k
  {
    if k < n {
      ReadAfterFill(f, p, base, n, before, k);
      if Matches(f, p, base, n, k) {
        ScanFindsFirst(f, p, base, n, before, after, k + 1);
      }
    }
  }

  lemma CheckIsRight(f: Fault, p: Pattern, base: nat, n: nat, before: Cells, report: Report)
    ensures var o := Check(f, p, base, n, Fill(f, p, base, n, before), report);
      && (o.ok <==> Passes(f, p, base, n))
      && (o.ok ==> o.report == report)
  {
    ScanFindsFirst(f, p, base, n, before, Fill(f, p, base, n, before), 0);
  }

  lemma FailureIsFirst(f: Fault, p: Pattern, base: nat, n: nat, before: Cells, report: Report)
      returns (k: nat)
    requires !Check(f, p, base, n, Fill(f, p, base, n, before), report).ok
    ensures k < n
    ensures FirstMismatch(f, p, base, n, k, Check(f, p, base, n, Fill(f, p, base, n, before), report).report)
  {
    k := Scan(f, p, base, n, Fill(f, p, base, n, before), 0);
    ScanFindsFirst(f, p, base, n, before, Fill(f, p, base, n, before), 0);
    ReadAfterFill(f, p, base, n, before, k);
  }

  /** The two passes together give the right verdict. */
  lemma TwoPassesAreJudged(f: Fault, p: Pattern, base: nat, n: nat, before: Cells, report: Report)
    ensures var o := Check(f, p, base, n, Fill(f, p, base, n, before), report);
      Judged(f, p, base, n, before, o.cells, report, o.report, o.ok)
  {
    CheckIsRight(f, p, base, n, before, report);
    FillIsFilled(f, p, base, n, before);
    if !Check(f, p, base, n, Fill(f, p, base, n, before), report).ok {
      var k := FailureIsFirst(f, p, base, n, before, report);
    }
  }
}
