/**
 * The codec driver uda1380.c on an I2C bus whose transfers may stop after any byte, and with a codec
 * whose registers may take up anything.
 */
module Uda1380 {
  import opened Words

  type Byte = x: nat | x < 0x100
  type Uint16 = x: nat | x < 0x1_0000

  function Joined(high: Byte, low: Byte): Uint16 {
    (high as int) * 256 + low
  }

  /** What happens to transfer number t: how many of its bytes get through, and what a register
      takes up when a value is written to it. */
  datatype Env = Env(acked: nat -> nat, settle: (nat, Byte, Uint16) -> Uint16)

  /** A codec register file of 256 addresses, and the number of transfers so far. */
  datatype Codec = Codec(regs: seq<Uint16>, transfers: nat)

  predicate Valid(c: Codec) {
    |c.regs| == 256
  }

  function Count(env: Env, t: nat, len: nat): nat {
    if env.acked(t) < len then env.acked(t) else len
  }

  /** The registers after m values of `data` arrived, two bytes each, from address `reg` on. */
  function Taken(env: Env, t: nat, regs: seq<Uint16>, reg: Byte, data: seq<Byte>, m: nat): (r: seq<Uint16>)
    requires |regs| == 256 && 2 * m <= |data| && reg + m <= 256
    ensures |r| == 256
  {
    if m == 0 then regs
    else
      Taken(env, t, regs, reg, data, m - 1)
        [reg + m - 1 := env.settle(t, reg + m - 1, Joined(data[2 * m - 2], data[2 * m - 1]))]
  }

  /** The codec after a write transfer; only values that arrived whole take effect. */
  function AfterSend(env: Env, c: Codec, bytes: seq<Byte>): Codec
    requires Valid(c) && |bytes| > 0 && bytes[0] + (|bytes| - 1) / 2 <= 256
  {
    var n := Count(env, c.transfers, |bytes|);
    Codec(if n == 0 then c.regs else Taken(env, c.transfers, c.regs, bytes[0], bytes[1..], (n - 1) / 2),
          c.transfers + 1)
  }

  /** Byte i of what the codec sends when read from address `reg` on. */
  function ByteAt(regs: seq<Uint16>, reg: Byte, i: nat): Byte
    requires |regs| == 256 && reg + i / 2 < 256
  {
    if i % 2 == 0 then regs[reg + i / 2] / 256 else regs[reg + i / 2] % 256
  }

  class I2cBus {
    const env: Env
    var codec: Codec
    var handler: int

    constructor (env: Env, codec: Codec, handler: int)
      ensures this.env == env && this.codec == codec && this.handler == handler
    {
      this.env := env;
      this.codec := codec;
      this.handler := handler;
    }

    method MasterSend(bytes: seq<Byte>) returns (sent: nat)
      requires Valid(codec) && |bytes| > 0 && bytes[0] + (|bytes| - 1) / 2 <= 256
      modifies this`codec
      ensures sent == Count(env, old(codec).transfers, |bytes|)
      ensures codec == AfterSend(env, old(codec), bytes)
    {
      sent := Count(env, codec.transfers, |bytes|);
      codec := AfterSend(env, codec, bytes);
    }

    method MasterCmdRead(cmd: Byte, buff: array<Byte>, len: nat) returns (got: nat)
      requires Valid(codec) && len <= buff.Length && cmd + (len + 1) / 2 <= 256
      modifies this`codec, buff
      ensures got == Count(env, old(codec).transfers, len)
      ensures codec == old(codec).(transfers := old(codec).transfers + 1)
      ensures forall i :: 0 <= i < got ==> buff[i] == ByteAt(codec.regs, cmd, i)
    {
      got := Count(env, codec.transfers, len);
      for i := 0 to got
        invariant codec == old(codec)
        invariant forall j :: 0 <= j < i ==> buff[j] == ByteAt(codec.regs, cmd, j)
      {
        buff[i] := ByteAt(codec.regs, cmd, i);
      }
      codec := codec.(transfers := codec.transfers + 1);
    }
  }

  // ----- Register access -----

  /** The registers from `reg` on really hold `data`. */
  predicate Holds(regs: seq<Uint16>, reg: Byte, data: seq<Byte>)
    requires |regs| == 256 && reg + (|data| + 1) / 2 <= 256
  {
    forall i :: 0 <= i < |data| ==> data[i] == ByteAt(regs, reg, i)
  }

  method RegWrite(i2c: I2cBus, reg: Byte, val: Uint16)
    requires Valid(i2c.codec)
    modifies i2c`codec
    ensures i2c.codec == AfterSend(i2c.env, old(i2c.codec), [reg, val / 256, val % 256])
  {
    var dat: seq<Byte> := [reg, val / 256, val % 256];
    var sent := i2c.MasterSend(dat);
  }

  method RegRead(i2c: I2cBus, reg: Byte) returns (val: Uint16)
    requires Valid(i2c.codec)
    modifies i2c`codec
    ensures val == if i2c.env.acked(old(i2c.codec).transfers) >= 2 then old(i2c.codec).regs[reg] else 0
    ensures i2c.codec == old(i2c.codec).(transfers := old(i2c.codec).transfers + 1)
  {
    var rx := new Byte[2];
    var got := i2c.MasterCmdRead(reg, rx, 2);
    if got == 2 {
      assert rx[0] == ByteAt(i2c.codec.regs, reg, 0) && rx[1] == ByteAt(i2c.codec.regs, reg, 1);
      return Joined(rx[0], rx[1]);
    }
    return 0;
  }

  /** Whether the comparison of WriteVerify succeeds once the value was sent: a read that fails counts
      as 0. */
  predicate ComparesEqual(env: Env, c: Codec, reg: Byte, val: Uint16)
    requires Valid(c)
  {
    val == if env.acked(c.transfers) >= 2 then c.regs[reg] else 0
  }

  method WriteVerify(i2c: I2cBus, reg: Byte, val: Uint16) returns (ok: bool)
    requires Valid(i2c.codec)
    modifies i2c`codec
    ensures var c := AfterSend(i2c.env, old(i2c.codec), [reg, val / 256, val % 256]);
      ok == ComparesEqual(i2c.env, c, reg, val) && i2c.codec == c.(transfers := c.transfers + 1)
  {
    RegWrite(i2c, reg, val);
    var ret := RegRead(i2c, reg);
    return ret == val;
  }

  /** For a value other than 0 a true result can be trusted. */
  lemma NonzeroVerifyIsTrue(env: Env, c: Codec, reg: Byte, val: Uint16)
    requires Valid(c) && val != 0 && ComparesEqual(env, c, reg, val)
    ensures c.regs[reg] == val
  {
  }

  /** A bus that transfers nothing. */
  function DeadBus(): Env {
    Env((t: nat) => 0, (t: nat, r: Byte, v: Uint16) => v)
  }

  /** For 0 it cannot: on a dead bus, WriteVerify(reg, 0) succeeds although the register still holds
      something else. */
  lemma ZeroVerifyCanLie(reg: Byte)
    ensures var c := AfterSend(DeadBus(), Codec(seq(256, i => 1), 0), [reg, 0, 0]);
      ComparesEqual(DeadBus(), c, reg, 0) && c.regs[reg] != 0
  {
  }

  predicate VerifyTells(env: Env, c: Codec, reg: Byte, val: Uint16)
    requires Valid(c)
  {
    ComparesEqual(env, c, reg, val) ==> c.regs[reg] == val
  }

  /** After the write, and whatever the bus and the codec did, a true comparison means that the
      register holds the value. */
  ghost predicate VerifyTrusted(reg: Byte, val: Uint16) {
    forall env, c :: Valid(c) ==> VerifyTells(env, AfterSend(env, c, [reg, val / 256, val % 256]), reg, val)
  }

  /** WriteVerify keeps what its documentation says for every value but 0. */
  lemma VerifyTrustedIff(reg: Byte, val: Uint16)
    ensures VerifyTrusted(reg, val) <==> val != 0
  {
    if val == 0 {
      ZeroVerifyCanLie(reg);
      assert [reg, val / 256, val % 256] == [reg, 0, 0];
      var c := Codec(seq(256, i => 1), 0);
      assert !VerifyTells(DeadBus(), AfterSend(DeadBus(), c, [reg, val / 256, val % 256]), reg, val);
    }
  }

  method VerifyMult(i2c: I2cBus, reg: Byte, value: seq<Byte>, buff: array<Byte>, len: nat) returns (ok: bool)
    requires Valid(i2c.codec) && len == |value| <= buff.Length && reg + (len + 1) / 2 <= 256
    modifies i2c`codec, buff
    ensures i2c.codec == old(i2c.codec).(transfers := old(i2c.codec).transfers + 1)
    ensures ok <==> i2c.env.acked(old(i2c.codec).transfers) >= len && Holds(i2c.codec.regs, reg, value)
  {
    var got := i2c.MasterCmdRead(reg, buff, len);
    if got != len {
      return false;
    }
    var i := 0;
    while i < len && value[i] == buff[i]
      invariant 0 <= i <= len
      invariant forall j :: 0 <= j < i ==> value[j] == buff[j]
    {
      i := i + 1;
    }
    if i < len {
      assert value[i] != ByteAt(i2c.codec.regs, reg, i);
    }
    return i == len;
  }

  method WriteMult(i2c: I2cBus, bytes: seq<Byte>) returns (ok: bool)
    requires Valid(i2c.codec) && |bytes| > 0 && bytes[0] + (|bytes| - 1) / 2 <= 256
    modifies i2c`codec
    ensures i2c.codec == AfterSend(i2c.env, old(i2c.codec), bytes)
    ensures ok <==> i2c.env.acked(old(i2c.codec).transfers) >= |bytes|
  {
    var sent := i2c.MasterSend(bytes);
    return sent == |bytes|;
  }

  // ----- Blocks of default values -----

  /** A bus that loses nothing, and registers that take up what they are given. */
  ghost predicate Healthy(env: Env) {
    && (forall t :: env.acked(t) >= 11)
    && (forall t, r, v :: env.settle(t, r, v) == v)
  }

  /** No register outside [reg, reg + m) differs. */
  predicate SameOutside(before: seq<Uint16>, after: seq<Uint16>, reg: nat, m: nat)
    requires |before| == |after| == 256
  {
    forall r :: 0 <= r < 256 && !(reg <= r < reg + m) ==> after[r] == before[r]
  }

  lemma {:induction false} TakenStaysInside(env: Env, t: nat, regs: seq<Uint16>, reg: Byte, data: seq<Byte>, m: nat)
    requires |regs| == 256 && 2 * m <= |data| && reg + m <= 256
    ensures SameOutside(regs, Taken(env, t, regs, reg, data, m), reg, m)
  {
    if m > 0 {
      TakenStaysInside(env, t, regs, reg, data, m - 1);
    }
  }

  /** Value k of `data`. */
  function ValueAt(data: seq<Byte>, k: nat): Uint16
    requires 2 * k + 1 < |data|
  {
    Joined(data[2 * k], data[2 * k + 1])
  }

  /** The registers from `reg` on take up the first m values as they are. */
  predicate TakesUp(env: Env, t: nat, reg: Byte, data: seq<Byte>, m: nat)
    requires 2 * m <= |data| && reg + m <= 256
  {
    forall k :: 0 <= k < m ==> env.settle(t, reg + k, ValueAt(data, k)) == ValueAt(data, k)
  }

  /** Two bytes that read back right are one register that holds the right value. */
  lemma HeldRegister(regs: seq<Uint16>, reg: Byte, data: seq<Byte>, k: nat)
    requires |regs| == 256 && reg + (|data| + 1) / 2 <= 256 && 2 * k + 1 < |data|
    ensures regs[reg + k] == ValueAt(data, k)
       <==> data[2 * k] == ByteAt(regs, reg, 2 * k) && data[2 * k + 1] == ByteAt(regs, reg, 2 * k + 1)
  {
  }

  lemma HoldsValues(regs: seq<Uint16>, reg: Byte, data: seq<Byte>, m: nat)
    requires |regs| == 256 && |data| == 2 * m && reg + m <= 256
    ensures Holds(regs, reg, data) <==> forall k :: 0 <= k < m ==> regs[reg + k] == ValueAt(data, k)
  {
    forall k | 0 <= k < m
      ensures regs[reg + k] == ValueAt(data, k)
         <==> data[2 * k] == ByteAt(regs, reg, 2 * k) && data[2 * k + 1] == ByteAt(regs, reg, 2 * k + 1)
    {
      HeldRegister(regs, reg, data, k);
    }
    if forall k :: 0 <= k < m ==> regs[reg + k] == ValueAt(data, k) {
      forall i | 0 <= i < 2 * m
        ensures data[i] == ByteAt(regs, reg, i)
      {
        assert regs[reg + i / 2] == ValueAt(data, i / 2);
      }
    }
  }

  lemma {:induction false} TakenAt(env: Env, t: nat, regs: seq<Uint16>, reg: Byte, data: seq<Byte>, m: nat, k: nat)
    requires |regs| == 256 && 2 * m <= |data| && reg + m <= 256 && k < m
    ensures Taken(env, t, regs, reg, data, m)[reg + k] == env.settle(t, reg + k, ValueAt(data, k))
  {
    if k < m - 1 {
      TakenAt(env, t, regs, reg, data, m - 1, k);
    }
  }

  /** A block that arrives whole is held exactly when each register takes up its value. */
  lemma TakenHoldsIff(env: Env, t: nat, regs: seq<Uint16>, reg: Byte, data: seq<Byte>, m: nat)
    requires |regs| == 256 && |data| == 2 * m && reg + m <= 256
    ensures Holds(Taken(env, t, regs, reg, data, m), reg, data) <==> TakesUp(env, t, reg, data, m)
  {
    HoldsValues(Taken(env, t, regs, reg, data, m), reg, data, m);
    forall k | 0 <= k < m
      ensures Taken(env, t, regs, reg, data, m)[reg + k] == env.settle(t, reg + k, ValueAt(data, k))
    {
      TakenAt(env, t, regs, reg, data, m, k);
    }
  }

  /** A write transfer reaches only the registers it addresses. */
  lemma SendStaysInside(env: Env, c: Codec, bytes: seq<Byte>)
    requires Valid(c) && 1 <= |bytes| <= 11 && bytes[0] + (|bytes| - 1) / 2 <= 256
    ensures SameOutside(c.regs, AfterSend(env, c, bytes).regs, bytes[0], (|bytes| - 1) / 2)
  {
    var n := Count(env, c.transfers, |bytes|);
    if n > 0 {
      TakenStaysInside(env, c.transfers, c.regs, bytes[0], bytes[1..], (n - 1) / 2);
    }
  }

  /** A register address and the values for it and the next ones. */
  predicate IsBlock(values: seq<Byte>) {
    |values| % 2 == 1 && values[0] + |values| / 2 <= 256
  }

  /** A block, sent by transfer t and read back by the next one, goes through. */
  predicate BlockArrives(env: Env, t: nat, values: seq<Byte>)
    requires IsBlock(values)
  {
    && env.acked(t) >= |values|
    && env.acked(t + 1) >= |values| - 1
    && TakesUp(env, t, values[0], values[1..], |values| / 2)
  }

  lemma SendWhole(env: Env, c: Codec, values: seq<Byte>)
    requires Valid(c) && IsBlock(values) && env.acked(c.transfers) >= |values|
    ensures AfterSend(env, c, values).regs
         == Taken(env, c.transfers, c.regs, values[0], values[1..], |values| / 2)
  {
  }

  lemma BlockSent(env: Env, c: Codec, values: seq<Byte>)
    requires Valid(c) && IsBlock(values) && |values| <= 11
    ensures var after := AfterSend(env, c, values).regs;
      && SameOutside(c.regs, after, values[0], |values| / 2)
      && (env.acked(c.transfers) >= |values| ==>
            (Holds(after, values[0], values[1..]) <==>
             TakesUp(env, c.transfers, values[0], values[1..], |values| / 2)))
  {
    assert (|values| - 1) / 2 == |values| / 2;
    SendStaysInside(env, c, values);
    if env.acked(c.transfers) >= |values| {
      SendWhole(env, c, values);
      TakenHoldsIff(env, c.transfers, c.regs, values[0], values[1..], |values| / 2);
    }
  }

  /** Success depends on the bus and the codec in exactly this way, whatever the registers held; and
      it means that the block is in the registers. */
  method SetDefaultValues(i2c: I2cBus, values: seq<Byte>) returns (ok: bool)
    requires Valid(i2c.codec) && |values| % 2 == 1 && |values| <= 11 && values[0] + |values| / 2 <= 256
    modifies i2c`codec
    ensures Valid(i2c.codec)
    ensures ok <==> BlockArrives(i2c.env, old(i2c.codec).transfers, values)
    ensures ok ==> Holds(i2c.codec.regs, values[0], values[1..])
    ensures ok ==> i2c.codec.transfers == old(i2c.codec).transfers + 2
    ensures SameOutside(old(i2c.codec).regs, i2c.codec.regs, values[0], |values| / 2)
    ensures Healthy(i2c.env) ==> ok
  {
    var buff := new Byte[10];
    BlockSent(i2c.env, i2c.codec, values);
    ok := WriteMult(i2c, values);
    if ok {
      ok := VerifyMult(i2c, values[0], values[1..], buff, |values| - 1);
    }
  }

  // ----- Initialisation -----

  function SysDefaults(): seq<Byte> {
    [0x00, 0x0F, 0x32, 0x00, 0x00, 0xA5, 0x5F, 0x00, 0x00, 0x02, 0x02]
  }

  function InterfilDefaults(): seq<Byte> {
    [0x10, 0x00, 0x00, 0x00, 0x00, 0x00, 0x00, 0x02, 0x02, 0x00, 0x00]
  }

  function DecimatorDefaults(): seq<Byte> {
    [0x20, 0xE4, 0xE4, 0x00, 0x00, 0x00, 0x01, 0x00, 0x00]
  }

  /** `UDA1380_REG_ADC_DEFAULT_VALUE | input`, converted to uint16_t. */
  function AdcValue(input: int): Uint16 {
    var x := input % 0x1_0000;
    if x % 2 == 0 then x + 1 else x
  }

  /** The ADC register selects the input: bit 0 of its default value, and the bits of `input`. */
  predicate SelectsInput(adc: Uint16, input: int) {
    forall b: nat :: b < 16 ==> (Bit(adc, b) <==> b == 0 || Bit(input % 0x1_0000, b))
  }

  lemma AdcSelectsInput(input: int)
    ensures SelectsInput(AdcValue(input), input)
  {
    var x: nat := input % 0x1_0000;
    forall b: nat | b < 16
      ensures Bit(AdcValue(input), b) <==> b == 0 || Bit(x, b)
    {
      assert AdcValue(input) / 2 == x / 2;
    }
  }

  lemma SelectionIsUnique(adc: Uint16, adc': Uint16, input: int)
    requires SelectsInput(adc, input) && SelectsInput(adc', input)
    ensures adc == adc'
  {
    Pow2At16();
    SameBits(16, adc, adc');
  }

  /** The two microphone selections of uda1380.h, 1 << 2 and 3 << 2, give 5 and 13. */
  lemma MicrophoneSelected(adc: Uint16)
    ensures SelectsInput(adc, 4) <==> adc == 5
    ensures SelectsInput(adc, 12) <==> adc == 13
  {
    AdcSelectsInput(4);
    AdcSelectsInput(12);
    if SelectsInput(adc, 4) {
      SelectionIsUnique(adc, 5, 4);
    }
    if SelectsInput(adc, 12) {
      SelectionIsUnique(adc, 13, 12);
    }
  }

  /** Every register of the three blocks holds its default, except that an input selection changes
      the power and ADC registers. */
  predicate Configured(regs: seq<Uint16>, input: int)
    requires |regs| == 256
  {
    && regs[0x00] == 0x0F32 && regs[0x01] == 0
    && regs[0x02] == (if input != 0 then 0xA554 else 0xA55F)
    && regs[0x03] == 0 && regs[0x04] == 0x0202
    && regs[0x10] == 0 && regs[0x11] == 0 && regs[0x12] == 0 && regs[0x13] == 0x0202 && regs[0x14] == 0
    && regs[0x20] == 0xE4E4 && regs[0x21] == 0
    && (if input != 0 then SelectsInput(regs[0x22], input) else regs[0x22] == 1)
    && regs[0x23] == 0
  }

  predicate SysHeld(regs: seq<Uint16>)
    requires |regs| == 256
  {
    regs[0] == 0x0F32 && regs[1] == 0 && regs[2] == 0xA55F && regs[3] == 0 && regs[4] == 0x0202
  }

  lemma SysBlock(regs: seq<Uint16>)
    requires |regs| == 256 && Holds(regs, 0x00, SysDefaults()[1..])
    ensures SysHeld(regs)
  {
    var data := SysDefaults()[1..];
    HeldRegister(regs, 0x00, data, 0);
    HeldRegister(regs, 0x00, data, 1);
    HeldRegister(regs, 0x00, data, 2);
    HeldRegister(regs, 0x00, data, 3);
    HeldRegister(regs, 0x00, data, 4);
  }

  predicate InterfilHeld(regs: seq<Uint16>)
    requires |regs| == 256
  {
    regs[0x10] == 0 && regs[0x11] == 0 && regs[0x12] == 0 && regs[0x13] == 0x0202 && regs[0x14] == 0
  }

  lemma InterfilBlock(regs: seq<Uint16>)
    requires |regs| == 256 && Holds(regs, 0x10, InterfilDefaults()[1..])
    ensures InterfilHeld(regs)
  {
    var data := InterfilDefaults()[1..];
    HeldRegister(regs, 0x10, data, 0);
    HeldRegister(regs, 0x10, data, 1);
    HeldRegister(regs, 0x10, data, 2);
    HeldRegister(regs, 0x10, data, 3);
    HeldRegister(regs, 0x10, data, 4);
  }

  predicate DecimatorHeld(regs: seq<Uint16>)
    requires |regs| == 256
  {
    regs[0x20] == 0xE4E4 && regs[0x21] == 0 && regs[0x22] == 1 && regs[0x23] == 0
  }

  lemma DecimatorBlock(regs: seq<Uint16>)
    requires |regs| == 256 && Holds(regs, 0x20, DecimatorDefaults()[1..])
    ensures DecimatorHeld(regs)
  {
    var data := DecimatorDefaults()[1..];
    HeldRegister(regs, 0x20, data, 0);
    HeldRegister(regs, 0x20, data, 1);
    HeldRegister(regs, 0x20, data, 2);
    HeldRegister(regs, 0x20, data, 3);
  }

  /** Overwriting register `reg`, which holds `before`, succeeds: it is read back, and the write
      arrived and was taken up, or was not needed. */
  predicate OverrideArrives(env: Env, t: nat, before: Uint16, reg: Byte, val: Uint16) {
    && env.acked(t + 1) >= 2
    && val == if env.acked(t) >= 3 then env.settle(t, reg, val) else before
  }

  lemma SendOne(env: Env, c: Codec, reg: Byte, val: Uint16)
    requires Valid(c)
    ensures var regs := AfterSend(env, c, [reg, val / 256, val % 256]).regs;
      && SameOutside(c.regs, regs, reg, 1)
      && regs[reg] == if env.acked(c.transfers) >= 3 then env.settle(c.transfers, reg, val) else c.regs[reg]
  {
    var bytes := [reg, val / 256, val % 256];
    SendStaysInside(env, c, bytes);
    if env.acked(c.transfers) >= 3 {
      TakenAt(env, c.transfers, c.regs, reg, bytes[1..], 1, 0);
      assert ValueAt(bytes[1..], 0) == val;
    }
  }

  /** One register overwritten and read back: the others stay, and a true result is right. */
  method Override(i2c: I2cBus, reg: Byte, val: Uint16) returns (ok: bool)
    requires Valid(i2c.codec) && val != 0
    modifies i2c`codec
    ensures Valid(i2c.codec) && SameOutside(old(i2c.codec).regs, i2c.codec.regs, reg, 1)
    ensures ok <==> OverrideArrives(i2c.env, old(i2c.codec).transfers, old(i2c.codec).regs[reg], reg, val)
    ensures ok ==> i2c.codec.regs[reg] == val
    ensures i2c.codec.transfers == old(i2c.codec).transfers + 2
  {
    SendOne(i2c.env, i2c.codec, reg, val);
    ok := WriteVerify(i2c, reg, val);
  }

  predicate BlocksArrive(env: Env, t: nat) {
    && BlockArrives(env, t, SysDefaults())
    && BlockArrives(env, t + 2, InterfilDefaults())
    && BlockArrives(env, t + 4, DecimatorDefaults())
  }

  predicate OverridesArrive(env: Env, t: nat, input: int) {
    && OverrideArrives(env, t, 0xA55F, 0x02, 0xA554)
    && OverrideArrives(env, t + 2, 1, 0x22, AdcValue(input))
  }

  /** What initialisation needs of the bus and the codec from transfer t on. */
  predicate InitArrives(env: Env, t: nat, input: int) {
    && BlocksArrive(env, t)
    && (input != 0 ==> OverridesArrive(env, t + 6, input))
  }

  lemma HealthyInitArrives(env: Env, t: nat, input: int)
    ensures Healthy(env) ==> InitArrives(env, t, input)
  {
  }

  /** The three blocks of default values, each only if the ones before it went through. */
  method SetAllDefaults(i2c: I2cBus) returns (ok: bool)
    requires Valid(i2c.codec)
    modifies i2c`codec
    ensures Valid(i2c.codec)
    ensures ok <==> BlocksArrive(i2c.env, old(i2c.codec).transfers)
    ensures ok ==> SysHeld(i2c.codec.regs) && InterfilHeld(i2c.codec.regs) && DecimatorHeld(i2c.codec.regs)
    ensures ok ==> i2c.codec.transfers == old(i2c.codec).transfers + 6
  {
    ok := SetDefaultValues(i2c, SysDefaults());
    if ok {
      SysBlock(i2c.codec.regs);
      ok := SetDefaultValues(i2c, InterfilDefaults());
    }
    if ok {
      assert SysHeld(i2c.codec.regs);
      InterfilBlock(i2c.codec.regs);
      ok := SetDefaultValues(i2c, DecimatorDefaults());
    }
    if ok {
      assert SysHeld(i2c.codec.regs) && InterfilHeld(i2c.codec.regs);
      DecimatorBlock(i2c.codec.regs);
    }
  }

  /** The two overrides that an input selection makes on top of the default values. */
  method SelectInput(i2c: I2cBus, input: int) returns (ok: bool)
    requires Valid(i2c.codec) && input != 0
    requires SysHeld(i2c.codec.regs) && InterfilHeld(i2c.codec.regs) && DecimatorHeld(i2c.codec.regs)
    modifies i2c`codec
    ensures Valid(i2c.codec)
    ensures ok <==> OverridesArrive(i2c.env, old(i2c.codec).transfers, input)
    ensures ok ==> Configured(i2c.codec.regs, input)
    ensures ok && input == 4 ==> i2c.codec.regs[0x22] == 5
    ensures ok && input == 12 ==> i2c.codec.regs[0x22] == 13
  {
    ok := Override(i2c, 0x02, 0xA554);
    if ok {
      AdcSelectsInput(input);
      ok := Override(i2c, 0x22, AdcValue(input));
      MicrophoneSelected(i2c.codec.regs[0x22]);
    }
  }

  /** Success means that the codec really is configured, whatever the bus lost on the way; it depends
      on the bus and the codec in exactly this way, whatever the registers held before; and the
      caller's event handler is back in any case. */
  method Init(i2c: I2cBus, input: int, polling: int) returns (ok: bool)
    requires Valid(i2c.codec)
    modifies i2c
    ensures Valid(i2c.codec)
    ensures ok ==> Configured(i2c.codec.regs, input)
    ensures ok && input != 0 ==> SelectsInput(i2c.codec.regs[0x22], input)
    ensures ok && input == 4 ==> i2c.codec.regs[0x22] == 5
    ensures ok && input == 12 ==> i2c.codec.regs[0x22] == 13
    ensures ok <==> InitArrives(i2c.env, old(i2c.codec).transfers, input)
    ensures Healthy(i2c.env) ==> ok
    ensures i2c.handler == old(i2c.handler)
  {
    ghost var t := i2c.codec.transfers;
    HealthyInitArrives(i2c.env, t, input);
    var saved := i2c.handler;
    i2c.handler := polling;
    ok := SetAllDefaults(i2c);
    if ok && input != 0 {
      ok := SelectInput(i2c, input);
    }
    i2c.handler := saved;
  }
}
