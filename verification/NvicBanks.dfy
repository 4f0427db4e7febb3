/**
 * The banked enable and pending registers of the NVIC, as core_cm3.h drives them: eight words of 32
 * one-bit switches each, set by writing ones to one address and cleared by writing ones to another.
 */
module NvicBanks {
  import opened Words

  // ----- The hardware -----

  type Bank = seq<nat>

  datatype Banks = Banks(enable: Bank, pend: Bank)

  predicate Valid(b: Banks) {
    |b.enable| == 8 && |b.pend| == 8
  }

  /** Writing ones to ISER or ISPR sets those bits of the bank. */
  function Set(bank: Bank, i: nat, ones: nat): Bank
    requires i < |bank|
  {
    bank[i := Or(bank[i], ones)]
  }

  /** Writing ones to ICER or ICPR clears those bits of the bank. */
  function Cleared(bank: Bank, i: nat, ones: Word): Bank
    requires i < |bank|
  {
    bank[i := And(bank[i], Not(ones))]
  }

  // ----- The driver's calls -----

  type Irq = n: nat | n < 240

  datatype Call = Enable(irq: Irq) | Disable(irq: Irq) | SetPending(irq: Irq) | ClearPending(irq: Irq)

  /** The value a call writes: one bit, at the place of the interrupt in its word. */
  function OneHot(irq: Irq): Word {
    ShiftedOne(irq % 32)
  }

  function Stepped(b: Banks, c: Call): (r: Banks)
    requires Valid(b)
    ensures Valid(r)
  {
    var i := c.irq / 32;
    match c
    case Enable(irq) => b.(enable := Set(b.enable, i, OneHot(irq)))
    case Disable(irq) => b.(enable := Cleared(b.enable, i, OneHot(irq)))
    case SetPending(irq) => b.(pend := Set(b.pend, i, OneHot(irq)))
    case ClearPending(irq) => b.(pend := Cleared(b.pend, i, OneHot(irq)))
  }

  // ----- What the banks stand for -----

  predicate Member(bank: Bank, n: nat)
    requires |bank| == 8 && n < 256
  {
    Bit(bank[n / 32], n % 32)
  }

  function Members(bank: Bank): set<nat>
    requires |bank| == 8
  {
    set n: nat | n < 256 && Member(bank, n)
  }

  datatype Sets = Sets(enabled: set<nat>, pending: set<nat>)

  function Abstract(b: Banks): Sets
    requires Valid(b)
  {
    Sets(Members(b.enable), Members(b.pend))
  }

  function AbstractStep(s: Sets, c: Call): Sets {
    match c
    case Enable(irq) => s.(enabled := s.enabled + {irq})
    case Disable(irq) => s.(enabled := s.enabled - {irq})
    case SetPending(irq) => s.(pending := s.pending + {irq})
    case ClearPending(irq) => s.(pending := s.pending - {irq})
  }

  lemma OneHotBit(irq: Irq, b: nat)
    requires b < 32
    ensures Bit(OneHot(irq), b) <==> b == irq % 32
  {
    Pow2Bit(irq % 32, b);
  }

  /** The word and the bit place together identify the interrupt. */
  lemma SamePlace(irq: Irq, n: nat)
    ensures n == irq <==> n / 32 == irq / 32 && n % 32 == irq % 32
  {
  }

  lemma SetAddsMember(bank: Bank, irq: Irq)
    requires |bank| == 8
    ensures Members(Set(bank, irq / 32, OneHot(irq))) == Members(bank) + {irq}
  {
    forall n: nat | n < 256
      ensures Member(Set(bank, irq / 32, OneHot(irq)), n) <==> Member(bank, n) || n == irq
    {
      OrBit(bank[irq / 32], OneHot(irq), n % 32);
      OneHotBit(irq, n % 32);
      SamePlace(irq, n);
    }
  }

  lemma ClearRemovesMember(bank: Bank, irq: Irq)
    requires |bank| == 8
    ensures Members(Cleared(bank, irq / 32, OneHot(irq))) == Members(bank) - {irq}
  {
    forall n: nat | n < 256
      ensures Member(Cleared(bank, irq / 32, OneHot(irq)), n) <==> Member(bank, n) && n != irq
    {
      AndBit(bank[irq / 32], Not(OneHot(irq)), n % 32);
      NotBit(OneHot(irq), n % 32);
      OneHotBit(irq, n % 32);
      SamePlace(irq, n);
    }
  }

  lemma {:induction false} SomeBitSet(x: nat)
    requires x > 0
    ensures exists b :: Bit(x, b)
  {
    if x % 2 == 1 {
      assert Bit(x, 0);
    } else {
      SomeBitSet(x / 2);
      var b: nat :| Bit(x / 2, b);
      assert Bit(x, b + 1);
    }
  }

  lemma MaskedIffMember(bank: Bank, irq: Irq)
    requires |bank| == 8
    ensures And(bank[irq / 32], OneHot(irq)) != 0 <==> irq in Members(bank)
  {
    var masked := And(bank[irq / 32], OneHot(irq));
    AndBit(bank[irq / 32], OneHot(irq), irq % 32);
    OneHotBit(irq, irq % 32);
    ZeroBit(irq % 32);
    if masked > 0 {
      SomeBitSet(masked);
      var b: nat :| Bit(masked, b);
      AndBit(bank[irq / 32], OneHot(irq), b);
      Pow2Bit(irq % 32, b);
    }
  }

  /** One call on the registers is one step on the two sets: nothing else is affected. */
  lemma StepRefines(b: Banks, c: Call)
    requires Valid(b)
    ensures Abstract(Stepped(b, c)) == AbstractStep(Abstract(b), c)
  {
    match c
    case Enable(irq) => SetAddsMember(b.enable, irq);
    case Disable(irq) => ClearRemovesMember(b.enable, irq);
    case SetPending(irq) => SetAddsMember(b.pend, irq);
    case ClearPending(irq) => ClearRemovesMember(b.pend, irq);
  }

  // ----- The calls on the registers -----

  class Nvic {
    const enable: array<nat>
    const pend: array<nat>

    ghost predicate Separate() {
      enable.Length == 8 && pend.Length == 8 && enable != pend
    }

    constructor ()
      ensures Separate() && fresh(enable) && fresh(pend)
    {
      enable := new nat[8](_ => 0);
      pend := new nat[8](_ => 0);
    }

    function State(): Banks
      reads enable, pend
    {
      Banks(enable[..], pend[..])
    }

    method EnableIRQ(irq: Irq)
      requires Separate()
      modifies enable
      ensures State() == Stepped(old(State()), Enable(irq))
      ensures Abstract(State()).enabled == Abstract(old(State())).enabled + {irq}
      ensures Abstract(State()).pending == Abstract(old(State())).pending
    {
      StepRefines(State(), Enable(irq));
      enable[irq / 32] := Or(enable[irq / 32], ShiftedOne(irq % 32));
    }

    method DisableIRQ(irq: Irq)
      requires Separate()
      modifies enable
      ensures State() == Stepped(old(State()), Disable(irq))
      ensures Abstract(State()).enabled == Abstract(old(State())).enabled - {irq}
      ensures Abstract(State()).pending == Abstract(old(State())).pending
    {
      StepRefines(State(), Disable(irq));
      enable[irq / 32] := And(enable[irq / 32], Not(ShiftedOne(irq % 32)));
    }

    method SetPendingIRQ(irq: Irq)
      requires Separate()
      modifies pend
      ensures State() == Stepped(old(State()), SetPending(irq))
      ensures Abstract(State()).pending == Abstract(old(State())).pending + {irq}
      ensures Abstract(State()).enabled == Abstract(old(State())).enabled
    {
      StepRefines(State(), SetPending(irq));
      pend[irq / 32] := Or(pend[irq / 32], ShiftedOne(irq % 32));
    }

    method ClearPendingIRQ(irq: Irq)
      requires Separate()
      modifies pend
      ensures State() == Stepped(old(State()), ClearPending(irq))
      ensures Abstract(State()).pending == Abstract(old(State())).pending - {irq}
      ensures Abstract(State()).enabled == Abstract(old(State())).enabled
    {
      StepRefines(State(), ClearPending(irq));
      pend[irq / 32] := And(pend[irq / 32], Not(ShiftedOne(irq % 32)));
    }

    method GetPendingIRQ(irq: Irq) returns (pending: nat)
      requires Separate()
      ensures pending == if irq in Abstract(State()).pending then 1 else 0
    {
      var masked := And(pend[irq / 32], ShiftedOne(irq % 32));
      MaskedIffMember(pend[..], irq);
      pending := if masked != 0 then 1 else 0;
    }
  }

  // ----- Sequences of calls -----

  function RunCalls(b: Banks, calls: seq<Call>): (r: Banks)
    requires Valid(b)
    ensures Valid(r)
  {
    if calls == [] then b else Stepped(RunCalls(b, calls[..|calls| - 1]), calls[|calls| - 1])
  }

  /** What the last call about an interrupt says of it; `was` if there is none. */
  function LastEnable(calls: seq<Call>, irq: Irq, was: bool): bool {
    if calls == [] then was
    else
      var c := calls[|calls| - 1];
      if c == Enable(irq) then true
      else if c == Disable(irq) then false
      else LastEnable(calls[..|calls| - 1], irq, was)
  }

  function LastPend(calls: seq<Call>, irq: Irq, was: bool): bool {
    if calls == [] then was
    else
      var c := calls[|calls| - 1];
      if c == SetPending(irq) then true
      else if c == ClearPending(irq) then false
      else LastPend(calls[..|calls| - 1], irq, was)
  }

  /** After any sequence of calls an interrupt is enabled, or pending, exactly when the last call
      about that property of that interrupt made it so. */
  lemma {:induction false} LastCallDecides(b: Banks, calls: seq<Call>, irq: Irq)
    requires Valid(b)
    ensures irq in Abstract(RunCalls(b, calls)).enabled <==> LastEnable(calls, irq, irq in Abstract(b).enabled)
    ensures irq in Abstract(RunCalls(b, calls)).pending <==> LastPend(calls, irq, irq in Abstract(b).pending)
  {
    if calls != [] {
      var before := calls[..|calls| - 1];
      LastCallDecides(b, before, irq);
      StepRefines(RunCalls(b, before), calls[|calls| - 1]);
    }
  }
}
