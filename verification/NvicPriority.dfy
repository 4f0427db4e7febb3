/**
 * Interrupt priorities in core_cm3.h, for any number `prioBits` of implemented priority bits
 * (__NVIC_PRIO_BITS, 1 to 8).
 */
module NvicPriority {
  import opened Words

  // ----- The priority codec -----

  function PreemptBits(prioBits: nat, group: Word): nat {
    var g := group % 8;
    if 7 - g > prioBits then prioBits else 7 - g
  }

  function SubBits(prioBits: nat, group: Word): nat {
    var g := group % 8;
    if g + prioBits < 7 then 0 else g - 7 + prioBits
  }

  /** Two fields of pb and sb bits side by side, and the way back. */
  function Pack(pb: nat, sb: nat, preempt: nat, sub: nat): nat {
    Or(Shl(And(preempt, Mask(pb)), sb), And(sub, Mask(sb)))
  }

  function Unpack(pb: nat, sb: nat, priority: nat): (nat, nat) {
    (And(Shr(priority, sb), Mask(pb)), And(priority, Mask(sb)))
  }

  function Encode(prioBits: nat, group: Word, preempt: nat, sub: nat): nat {
    Pack(PreemptBits(prioBits, group), SubBits(prioBits, group), preempt, sub)
  }

  function Decode(prioBits: nat, group: Word, priority: nat): (nat, nat) {
    Unpack(PreemptBits(prioBits, group), SubBits(prioBits, group), priority)
  }

  /** Whatever the group, the two fields share the implemented bits without overlap; if all eight
      bits of the register were implemented, the subpriority would take the lowest group + 1, and it
      loses those of them that are not. */
  lemma FieldsFillPriority(prioBits: nat, group: Word)
    requires 1 <= prioBits <= 8
    ensures PreemptBits(prioBits, group) + SubBits(prioBits, group) == prioBits
    ensures var missing := 8 - prioBits;
      SubBits(prioBits, group) == if group % 8 + 1 <= missing then 0 else group % 8 + 1 - missing
  {
  }

  /** The fields, cut to their widths, lie side by side. */
  lemma PackedValue(pb: nat, sb: nat, preempt: nat, sub: nat, total: nat)
    requires total == pb + sb
    ensures Pack(pb, sb, preempt, sub) == Shl(Low(preempt, pb), sb) + Low(sub, sb)
    ensures Pack(pb, sb, preempt, sub) < Pow2(total)
  {
    AndMaskIsLow(preempt, pb);
    AndMaskIsLow(sub, sb);
    OrOfDisjointIsSum(Low(preempt, pb), sb, Low(sub, sb));
    ShlBound(Low(preempt, pb), pb, sb, total);
  }

  lemma UnpackedValue(pb: nat, sb: nat, priority: nat)
    ensures Unpack(pb, sb, priority) == (Low(Shr(priority, sb), pb), Low(priority, sb))
  {
    AndMaskIsLow(Shr(priority, sb), pb);
    AndMaskIsLow(priority, sb);
  }

  lemma SumUnpacks(pb: nat, sb: nat, high: nat, low: nat, sum: nat)
    requires high < Pow2(pb) && low < Pow2(sb) && sum == Shl(high, sb) + low
    ensures Unpack(pb, sb, sum) == (high, low)
  {
    UnpackedValue(pb, sb, sum);
    ShrOfSum(high, sb, low, sum);
    LowOfSum(high, sb, low, sum);
    LowIsSame(high, pb);
  }

  lemma UnpackPack(pb: nat, sb: nat, preempt: nat, sub: nat)
    ensures Unpack(pb, sb, Pack(pb, sb, preempt, sub)) == (Low(preempt, pb), Low(sub, sb))
  {
    PackedValue(pb, sb, preempt, sub, pb + sb);
    SumUnpacks(pb, sb, Low(preempt, pb), Low(sub, sb), Pack(pb, sb, preempt, sub));
  }

  lemma PackUnpack(pb: nat, sb: nat, priority: nat)
    ensures Pack(pb, sb, Unpack(pb, sb, priority).0, Unpack(pb, sb, priority).1) == Low(priority, pb + sb)
  {
    UnpackedValue(pb, sb, priority);
    PackedValue(pb, sb, Low(Shr(priority, sb), pb), Low(priority, sb), pb + sb);
    LowIsSame(Low(Shr(priority, sb), pb), pb);
    LowIsSame(Low(priority, sb), sb);
    LowSplits(priority, pb, sb, pb + sb);
  }

  /** The two values fit the parts of a priority that group g leaves them: with all eight bits
      implemented, g + 1 bits to the subpriority and the 7 - g above them to the preemption. */
  predicate InFields(prioBits: nat, g: nat, preempt: nat, sub: nat)
    requires g < 8
  {
    && preempt < Pow2(if prioBits < 7 - g then prioBits else 7 - g)
    && sub < Pow2(if g + prioBits < 7 then 0 else g + prioBits - 7)
  }

  lemma FieldsByGroup(prioBits: nat, group: Word, preempt: nat, sub: nat)
    ensures InFields(prioBits, group % 8, preempt, sub)
       <==> preempt < Pow2(PreemptBits(prioBits, group)) && sub < Pow2(SubBits(prioBits, group))
  {
  }

  /** Decoding an encoded priority gives back the two values, each reduced to its field. */
  lemma DecodeEncode(prioBits: nat, group: Word, preempt: nat, sub: nat)
    ensures Decode(prioBits, group, Encode(prioBits, group, preempt, sub))
         == (Low(preempt, PreemptBits(prioBits, group)), Low(sub, SubBits(prioBits, group)))
    ensures InFields(prioBits, group % 8, preempt, sub) ==>
              Decode(prioBits, group, Encode(prioBits, group, preempt, sub)) == (preempt, sub)
  {
    var pb, sb := PreemptBits(prioBits, group), SubBits(prioBits, group);
    UnpackPack(pb, sb, preempt, sub);
    if InFields(prioBits, group % 8, preempt, sub) {
      FieldsByGroup(prioBits, group, preempt, sub);
      LowIsSame(preempt, pb);
      LowIsSame(sub, sb);
    }
  }

  lemma DecodedFits(prioBits: nat, group: Word, priority: nat)
    ensures InFields(prioBits, group % 8, Decode(prioBits, group, priority).0, Decode(prioBits, group, priority).1)
  {
    UnpackedValue(PreemptBits(prioBits, group), SubBits(prioBits, group), priority);
    FieldsByGroup(prioBits, group, Decode(prioBits, group, priority).0, Decode(prioBits, group, priority).1);
  }

  /** Encoding a decoded priority gives it back, as far as its bits are implemented. */
  lemma EncodeDecode(prioBits: nat, group: Word, priority: nat)
    requires 1 <= prioBits <= 8
    ensures Encode(prioBits, group, Decode(prioBits, group, priority).0, Decode(prioBits, group, priority).1)
         == Low(priority, prioBits)
    ensures InFields(prioBits, group % 8, Decode(prioBits, group, priority).0, Decode(prioBits, group, priority).1)
  {
    FieldsFillPriority(prioBits, group);
    DecodedFits(prioBits, group, priority);
    PackUnpack(PreemptBits(prioBits, group), SubBits(prioBits, group), priority);
  }

  lemma EncodedFits(prioBits: nat, group: Word, preempt: nat, sub: nat)
    requires 1 <= prioBits <= 8
    ensures Encode(prioBits, group, preempt, sub) < Pow2(prioBits)
  {
    FieldsFillPriority(prioBits, group);
    PackedValue(PreemptBits(prioBits, group), SubBits(prioBits, group), preempt, sub, prioBits);
  }

  /** The hardware compares encoded values; that is the lexicographic order of the two fields. */
  lemma EncodedOrderIsLexicographic(prioBits: nat, group: Word,
                                    preempt: nat, sub: nat, preempt': nat, sub': nat)
    requires 1 <= prioBits <= 8
    requires InFields(prioBits, group % 8, preempt, sub) && InFields(prioBits, group % 8, preempt', sub')
    ensures Encode(prioBits, group, preempt, sub) < Encode(prioBits, group, preempt', sub')
       <==> preempt < preempt' || (preempt == preempt' && sub < sub')
  {
    var pb, sb := PreemptBits(prioBits, group), SubBits(prioBits, group);
    FieldsByGroup(prioBits, group, preempt, sub);
    FieldsByGroup(prioBits, group, preempt', sub');
    PackedValue(pb, sb, preempt, sub, pb + sb);
    PackedValue(pb, sb, preempt', sub', pb + sb);
    LowIsSame(preempt, pb);
    LowIsSame(sub, sb);
    LowIsSame(preempt', pb);
    LowIsSame(sub', sb);
    if preempt < preempt' {
      ShlMonotone(preempt, preempt', sb);
    } else if preempt' < preempt {
      ShlMonotone(preempt', preempt, sb);
    }
  }

  // ----- The priority registers -----

  /** What a priority register holds after `(priority << (8 - prioBits)) & 0xff`; what the 32-bit
      shift drops lies above those eight bits. */
  function Stored(prioBits: nat, priority: nat): nat
    requires prioBits <= 8
  {
    Low(Shl(priority, 8 - prioBits), 8)
  }

  function Loaded(prioBits: nat, register: nat): nat
    requires prioBits <= 8
  {
    Shr(register, 8 - prioBits)
  }

  /** Only the implemented bits survive the register. */
  lemma RegisterKeepsImplementedBits(prioBits: nat, priority: nat)
    requires 1 <= prioBits <= 8
    ensures Loaded(prioBits, Stored(prioBits, priority)) == Low(priority, prioBits)
  {
    LowOfShl(priority, prioBits, 8 - prioBits, 8);
    ShrOfSum(Low(priority, prioBits), 8 - prioBits, 0, Shl(Low(priority, prioBits), 8 - prioBits));
  }

  // ----- The binary point -----

  lemma EncodedSum(prioBits: nat, group: Word, preempt: nat, sub: nat)
    requires InFields(prioBits, group % 8, preempt, sub)
    ensures Encode(prioBits, group, preempt, sub) == Shl(preempt, SubBits(prioBits, group)) + sub
  {
    var pb, sb := PreemptBits(prioBits, group), SubBits(prioBits, group);
    FieldsByGroup(prioBits, group, preempt, sub);
    PackedValue(pb, sb, preempt, sub, pb + sb);
    LowIsSame(preempt, pb);
    LowIsSame(sub, sb);
  }

  lemma ShiftedSum(high: nat, sb: nat, low: nat, e: nat, bits: nat, shift: nat, all: nat, place: nat)
    requires e == Shl(high, sb) + low && e < Pow2(bits) && all == bits + shift && place == sb + shift
    ensures Low(Shl(e, shift), all) == Shl(high, place) + Shl(low, shift)
  {
    LowOfShl(e, bits, shift, all);
    LowIsSame(e, bits);
    ShlAdds(Shl(high, sb), low, shift);
    ShlTwice(high, sb, shift, place);
  }

  /** An encoded priority that fits its fields, as the register holds it. */
  lemma EncodedInRegister(prioBits: nat, group: Word, preempt: nat, sub: nat, shift: nat, place: nat)
    requires 1 <= prioBits <= 8 && InFields(prioBits, group % 8, preempt, sub)
    requires shift == 8 - prioBits && place == SubBits(prioBits, group) + shift
    ensures Stored(prioBits, Encode(prioBits, group, preempt, sub)) == Shl(preempt, place) + Shl(sub, shift)
  {
    var sb := SubBits(prioBits, group);
    EncodedSum(prioBits, group, preempt, sub);
    EncodedFits(prioBits, group, preempt, sub);
    ShiftedSum(preempt, sb, sub, Encode(prioBits, group, preempt, sub), prioBits, shift, 8, place);
  }

  lemma SubBelowPoint(sub: nat, sb: nat, shift: nat, point: nat)
    requires sub < Pow2(sb) && sb + shift <= point
    ensures Shl(sub, shift) < Pow2(point)
  {
    ShlBound(sub, sb, shift, sb + shift);
    if sb + shift < point {
      Pow2Increasing(sb + shift, point);
    }
  }

  /** The places of the two fields relative to bit g + 1. */
  lemma FieldPlaces(prioBits: nat, group: Word, g: nat, point: nat, sub: nat, drop: nat, shift: nat, place: nat)
    requires 1 <= prioBits <= 8 && g == group % 8 && InFields(prioBits, g, 0, sub)
    requires point == g + 1 && shift == 8 - prioBits && place == SubBits(prioBits, group) + shift
    requires drop == if prioBits < 7 - g then 7 - g - prioBits else 0
    ensures place == drop + point
    ensures Shl(sub, shift) < Pow2(point)
  {
    if g + prioBits < 7 {
      ShlOfZero(shift);
    } else {
      SubBelowPoint(sub, g + prioBits - 7, shift, point);
    }
  }

  lemma PartsOf(register: nat, high: nat, drop: nat, low: nat, point: nat, place: nat)
    requires register == Shl(high, place) + low && low < Pow2(point) && place == drop + point
    ensures Shr(register, point) == Shl(high, drop) && Low(register, point) == low
  {
    ShlTwice(high, drop, point, place);
    ShrOfSum(Shl(high, drop), point, low, register);
    LowOfSum(Shl(high, drop), point, low, register);
  }

  /** Where the two values lie in the register: the hardware puts the binary point above bit
      g = group % 8. The preemption priority lies above it, the subpriority below; each is shifted
      up over the bits of its part that are not implemented. */
  lemma RegisterLayout(prioBits: nat, group: Word, g: nat, point: nat, preempt: nat, sub: nat, register: nat)
    requires 1 <= prioBits <= 8 && g == group % 8 && point == g + 1 && InFields(prioBits, g, preempt, sub)
    requires register == Stored(prioBits, Encode(prioBits, group, preempt, sub))
    ensures Shr(register, point) == Shl(preempt, if prioBits < 7 - g then 7 - g - prioBits else 0)
    ensures Low(register, point) == Shl(sub, 8 - prioBits)
  {
    var shift := 8 - prioBits;
    var place := SubBits(prioBits, group) + shift;
    var drop := if prioBits < 7 - g then 7 - g - prioBits else 0;
    EncodedInRegister(prioBits, group, preempt, sub, shift, place);
    FieldPlaces(prioBits, group, g, point, sub, drop, shift, place);
    PartsOf(register, preempt, drop, Shl(sub, shift), point, place);
  }

  lemma ShlKeepsOrder(x: nat, y: nat, k: nat)
    ensures Shl(x, k) < Shl(y, k) <==> x < y
  {
    if x < y {
      ShlMonotone(x, y, k);
    } else if y < x {
      ShlMonotone(y, x, k);
    }
  }

  lemma EqualAbovePoint(r: nat, r': nat, point: nat)
    requires Shr(r, point) == Shr(r', point)
    ensures r < r' <==> Low(r, point) < Low(r', point)
  {
    ShlIntoBits(r, point);
    ShlIntoBits(r', point);
  }

  /** What decides about preemption, the register above the binary point, compares as the preemption
      priorities; among equal ones the whole register compares as the subpriorities. */
  lemma BinaryPointDecides(prioBits: nat, group: Word, g: nat, point: nat,
                           preempt: nat, sub: nat, preempt': nat, sub': nat, r: nat, r': nat)
    requires 1 <= prioBits <= 8 && g == group % 8 && point == g + 1
    requires InFields(prioBits, g, preempt, sub) && r == Stored(prioBits, Encode(prioBits, group, preempt, sub))
    requires InFields(prioBits, g, preempt', sub') && r' == Stored(prioBits, Encode(prioBits, group, preempt', sub'))
    ensures Shr(r, point) < Shr(r', point) <==> preempt < preempt'
    ensures preempt == preempt' ==> (r < r' <==> sub < sub')
  {
    RegisterLayout(prioBits, group, g, point, preempt, sub, r);
    RegisterLayout(prioBits, group, g, point, preempt', sub', r');
    ShlKeepsOrder(preempt, preempt', if prioBits < 7 - g then 7 - g - prioBits else 0);
    ShlKeepsOrder(sub, sub', 8 - prioBits);
    if preempt == preempt' {
      EqualAbovePoint(r, r', point);
    }
  }

  /** Encode, set, get, decode: the caller's values come back, each reduced to its field. */
  lemma PriorityRoundTrip(prioBits: nat, group: Word, preempt: nat, sub: nat)
    requires 1 <= prioBits <= 8
    ensures Decode(prioBits, group, Loaded(prioBits, Stored(prioBits, Encode(prioBits, group, preempt, sub))))
         == (Low(preempt, PreemptBits(prioBits, group)), Low(sub, SubBits(prioBits, group)))
    ensures InFields(prioBits, group % 8, preempt, sub) ==>
              Decode(prioBits, group, Loaded(prioBits, Stored(prioBits, Encode(prioBits, group, preempt, sub))))
              == (preempt, sub)
  {
    EncodedFits(prioBits, group, preempt, sub);
    RegisterKeepsImplementedBits(prioBits, Encode(prioBits, group, preempt, sub));
    LowIsSame(Encode(prioBits, group, preempt, sub), prioBits);
    DecodeEncode(prioBits, group, preempt, sub);
  }

  /** The register file: SCB->SHP for the system handlers, NVIC->IP for the device interrupts. */
  class PriorityRegisters {
    const prioBits: nat
    const shp: array<nat>
    const ip: array<nat>

    ghost predicate Valid() {
      1 <= prioBits <= 8 && shp.Length == 12 && ip.Length == 240 && shp != ip
    }

    constructor (prioBits: nat)
      requires 1 <= prioBits <= 8
      ensures Valid() && this.prioBits == prioBits && fresh(shp) && fresh(ip)
    {
      this.prioBits := prioBits;
      shp := new nat[12](_ => 0);
      ip := new nat[240](_ => 0);
    }

    /** The register of a system handler, -12 to -1, or of a device interrupt. */
    function Register(irq: int): nat
      requires Valid() && -12 <= irq < 240
      reads shp, ip
    {
      if irq < 0 then shp[irq % 16 - 4] else ip[irq]
    }

    method SetPriority(irq: int, priority: Word)
      requires Valid() && -12 <= irq < 240
      modifies shp, ip
      ensures if irq < 0 then shp[irq + 12] == Stored(prioBits, priority) else ip[irq] == Stored(prioBits, priority)
      ensures forall k :: 0 <= k < 12 && k != irq + 12 ==> shp[k] == old(shp[k])
      ensures forall k :: 0 <= k < 240 && k != irq ==> ip[k] == old(ip[k])
      ensures Register(irq) == Stored(prioBits, priority)
      ensures forall other :: -12 <= other < 240 && other != irq ==> Register(other) == old(Register(other))
    {
      if irq < 0 {
        shp[irq % 16 - 4] := Low(Shl(priority, 8 - prioBits), 8);
      } else {
        ip[irq] := Low(Shl(priority, 8 - prioBits), 8);
      }
    }

    method GetPriority(irq: int) returns (priority: nat)
      requires Valid() && -12 <= irq < 240
      ensures priority == Loaded(prioBits, if irq < 0 then shp[irq + 12] else ip[irq])
    {
      if irq < 0 {
        priority := Shr(shp[irq % 16 - 4], 8 - prioBits);
      } else {
        priority := Shr(ip[irq], 8 - prioBits);
      }
    }
  }
}
