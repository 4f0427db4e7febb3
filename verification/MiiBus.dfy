/**
 * The MII management bus between the Ethernet controller and its PHY. A transaction keeps the bus
 * busy for any number of status queries; the register contents may be different every time.
 */
module MiiBus {
  /** What a register holds. */
  type Value = x: nat | x < 0x1_0000

  datatype Write = Write(reg: nat, value: Value)

  /** What the PHY does, by transaction number: how many busy queries it answers with "busy", and
      what a read of a register delivers. */
  datatype Env = Env(latency: nat -> nat, value: (nat, nat) -> Value)

  datatype Bus = Bus(
    reg: nat,      // register of the transaction under way or last completed
    left: nat,     // how many more queries will find the bus busy
    started: nat,  // transactions begun so far
    faults: nat,   // transactions begun, or data fetched, while the bus was busy
    writes: seq<Write>)  // everything written so far

  function Started(env: Env, b: Bus, reg: nat): Bus {
    Bus(reg, env.latency(b.started), b.started + 1, if b.left > 0 then b.faults + 1 else b.faults, b.writes)
  }

  function StartedWrite(env: Env, b: Bus, reg: nat, value: Value): Bus {
    Started(env, b, reg).(writes := b.writes + [Write(reg, value)])
  }

  function Queried(b: Bus): Bus {
    if b.left > 0 then b.(left := b.left - 1) else b
  }

  function Data(env: Env, b: Bus): Value {
    if b.started == 0 then 0 else env.value(b.started - 1, b.reg)
  }

  function Fetched(b: Bus): Bus {
    if b.left > 0 then b.(faults := b.faults + 1) else b
  }

  class Mii {
    const env: Env
    var bus: Bus

    constructor (env: Env, bus: Bus)
      ensures this.env == env && this.bus == bus
    {
      this.env := env;
      this.bus := bus;
    }

    method StartRead(reg: nat)
      modifies this
      ensures bus == Started(env, old(bus), reg)
    {
      bus := Started(env, bus, reg);
    }

    method StartWrite(reg: nat, value: Value)
      modifies this
      ensures bus == StartedWrite(env, old(bus), reg, value)
    {
      bus := StartedWrite(env, bus, reg, value);
    }

    method IsBusy() returns (busy: bool)
      modifies this
      ensures busy == (old(bus).left > 0) && bus == Queried(old(bus))
    {
      busy := bus.left > 0;
      bus := Queried(bus);
    }

    method ReadData() returns (data: Value)
      modifies this
      ensures data == Data(env, old(bus)) && bus == Fetched(old(bus))
    {
      data := Data(env, bus);
      bus := Fetched(bus);
    }
  }
}
