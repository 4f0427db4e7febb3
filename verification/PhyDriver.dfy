/**
 * The driver lpc_phy_smsc87x0.c: a blocking initialisation and a non-blocking status poller.
 * Registers and their bits follow section 22.2.4 of IEEE Std 802.3.
 */
module PhyDriver {
  import opened MiiBus
  import opened Words

  const LAN8_BCR_REG: nat := 0x0
  const LAN8_BSR_REG: nat := 0x1
  const LAN8_PHYSPLCTL_REG: nat := 0x1F

  const LAN8_RESET: Value := 0x8000
  const LAN8_AUTONEG: Value := 0x1000

  /** The status word, one field for each PHY_LINK_* bit (bits 0 to 5, in this order); the driver
      touches no other bit of it. */
  datatype Flags = Flags(
    error: bool, busy: bool, changed: bool, connected: bool, speed100: bool, fullDuplex: bool)

  const NO_FLAGS := Flags(false, false, false, false, false, false)

  /** LAN8_LINK_STATUS of the basic status register. */
  predicate LinkActive(bsr: Value) {
    And(bsr, 0x0004) != 0
  }

  /** What the LAN8_SPEEDMASK field of the special status register says. */
  datatype Speed = Full100 | Full10 | Half100 | Half10 | Other

  function SpeedField(special: Value): Speed {
    var code := And(special, 0x001C);
    if code == 0x0018 then Full100
    else if code == 0x0014 then Full10
    else if code == 0x0008 then Half100
    else if code == 0x0004 then Half10
    else Other
  }

  // ----- What the poller is for -----

  datatype Link = Link(connected: bool, speed100: bool, fullDuplex: bool)

  const NO_LINK := Link(false, false, false)

  /** The link a status word describes: its bits under the mask of the three link flags. */
  function LinkOf(sts: Flags): Link {
    Link(sts.connected, sts.speed100, sts.fullDuplex)
  }

  function LinkWith(connected: bool, speed: Speed): Link {
    match speed
    case Full10 => Link(connected, false, true)
    case Half100 => Link(connected, true, false)
    case Half10 => Link(connected, false, false)
    case _ => Link(connected, true, true)
  }

  /** The link that a pair of register values describes; an unknown speed code counts as 100 Mbps
      full duplex. */
  function Decoded(bsr: Value, special: Value): Link {
    LinkWith(LinkActive(bsr), SpeedField(special))
  }

  // ----- The bits behind the masks -----

  /** Bit 2 of the basic status register. */
  lemma LinkBit(bsr: Value)
    ensures LinkActive(bsr) <==> bsr / 4 % 2 == 1
  {
    FieldIs(bsr, 1, 2, 0x0004);
  }

  /** Bits 2 to 4 of the special status register. */
  lemma SpeedCode(special: Value, code: nat)
    requires code == special / 4 % 8
    ensures SpeedField(special)
         == if code == 6 then Full100 else if code == 5 then Full10
            else if code == 2 then Half100 else if code == 1 then Half10 else Other
  {
    FieldIs(special, 3, 2, 0x001C);
    assert And(special, 0x001C) == code * 4;
  }

  /** The flags p show a link bit and a speed field, in which 1 and 5 stand for 10 Mbps and 1 and 2
      for half duplex. */
  predicate ShowsFields(p: Flags, link: nat, code: nat) {
    && (p.connected <==> link == 1)
    && (p.speed100 <==> code != 1 && code != 5)
    && (p.fullDuplex <==> code != 1 && code != 2)
  }

  /** The flags p show what the two registers say of the link: bit 2 of the one, and bits 2 to 4 of
      the other. */
  predicate Shows(p: Flags, bsr: Value, special: Value) {
    ShowsFields(p, bsr / 4 % 2, special / 4 % 8)
  }

  // ----- The driver's static variables together with the bus -----

  datatype System = System(physts: Flags, olddphysts: Flags, phyustate: int, sts: Value, bus: Bus)

  function WithSpeed(p: Flags, speed: Speed): Flags {
    match speed
    case Full10 => p.(speed100 := false, fullDuplex := true)
    case Half100 => p.(speed100 := true, fullDuplex := false)
    case Half10 => p.(speed100 := false, fullDuplex := false)
    case _ => p.(speed100 := true, fullDuplex := true)
  }

  /** smsc_update_phy_sts, on the two status words. */
  function Updated(physts: Flags, olddphysts: Flags, linksts: Value, sdsts: Value): (Flags, Flags) {
    var p1 := physts.(connected := LinkActive(linksts));
    var p2 := WithSpeed(p1, SpeedField(sdsts));
    if LinkOf(p2) != LinkOf(olddphysts) then (p2.(changed := true), p2) else (p2, olddphysts)
  }

  lemma SetShows(p: Flags, bsr: Value, special: Value)
    ensures Shows(WithSpeed(p.(connected := LinkActive(bsr)), SpeedField(special)), bsr, special)
  {
    LinkBit(bsr);
    SpeedCode(special, special / 4 % 8);
  }

  /** An update shows the two register values, and raises CHANGED if that is another link. */
  lemma UpdateShows(physts: Flags, olddphysts: Flags, bsr: Value, special: Value)
    ensures var (p, o) := Updated(physts, olddphysts, bsr, special);
      && Shows(p, bsr, special) && Shows(o, bsr, special)
      && p.error == physts.error && p.busy == physts.busy
      && (p.changed <==> physts.changed || p.connected != olddphysts.connected
                         || p.speed100 != olddphysts.speed100 || p.fullDuplex != olddphysts.fullDuplex)
  {
    SetShows(physts, bsr, special);
  }

  /** One call of lpcPHYStsPoll; it returns the new physts. */
  function Polled(env: Env, s: System): System {
    if s.phyustate == 1 then
      var bus := Queried(s.bus);
      if s.bus.left > 0 then s.(bus := bus)
      else s.(sts := Data(env, bus), bus := Started(env, Fetched(bus), LAN8_PHYSPLCTL_REG), phyustate := 2)
    else if s.phyustate == 2 then
      var bus := Queried(s.bus);
      if s.bus.left > 0 then s.(bus := bus)
      else
        var (physts, olddphysts) :=
          Updated(s.physts.(busy := false), s.olddphysts, s.sts, Data(env, bus));
        System(physts, olddphysts, 0, s.sts, Fetched(bus))
    else
      s.(bus := Started(env, s.bus, LAN8_BSR_REG),
         physts := s.physts.(changed := false, busy := true),
         phyustate := 1)
  }

  // ----- What the initialisation waits for -----

  predicate Answered(env: Env, t: nat) {
    env.latency(t) < 250
  }

  function WaitMs(env: Env, t: nat): nat {
    if Answered(env, t) then env.latency(t) else 250
  }

  /** The bus after at most 250 queries. */
  function Waited(env: Env, b: Bus): Bus {
    b.(left := if b.left < 250 then 0 else b.left - 250)
  }

  predicate OutOfReset(env: Env, t: nat) {
    // LAN8_RESET | LAN8_POWER_DOWN
    And(env.value(t, LAN8_BCR_REG), 0x8800) == 0
  }

  datatype ResetResult = ResetResult(ok: bool, tries: nat, ms: nat)

  /** A wait that continues one of `tries` reads and `ms` milliseconds. */
  function Joined(tries: nat, ms: nat, r: ResetResult): ResetResult {
    ResetResult(r.ok, tries + r.tries, ms + r.ms)
  }

  /** Reads of the control register by the transactions from t up to `end`, until the PHY has left
      reset or does not answer. */
  function AwaitReset(env: Env, t: nat, end: nat): ResetResult
    requires t <= end
    decreases end - t
  {
    if t == end then ResetResult(false, 0, 0)
    else if !Answered(env, t) then ResetResult(false, 1, 1 + 250)
    else if OutOfReset(env, t) then ResetResult(true, 1, 1 + env.latency(t))
    else Joined(1, 1 + env.latency(t), AwaitReset(env, t + 1, end))
  }

  datatype InitResult = InitResult(ok: bool, ms: nat)

  function InitOutcome(env: Env, t: nat): InitResult {
    if !Answered(env, t) then InitResult(false, 250)
    else
      var r := AwaitReset(env, t + 1, t + 401);
      InitResult(r.ok, env.latency(t) + r.ms + if r.ok then WaitMs(env, t + 1 + r.tries) else 0)
  }

  /** The bus after a successful initialisation: free again, unless the PHY takes longer than 250
      queries over the last write, whose outcome is not checked. */
  function InitBus(env: Env, b: Bus): Bus {
    var last := b.started + 1 + AwaitReset(env, b.started + 1, b.started + 401).tries;
    Bus(LAN8_BCR_REG,
        if env.latency(last) <= 250 then 0 else env.latency(last) - 250,
        last + 1,
        if b.left > 0 then b.faults + 1 else b.faults,
        b.writes + [Write(0, 0x8000), Write(0, 0x1000)])
  }

  class Phy {
    const mii: Mii
    var physts: Flags
    var olddphysts: Flags
    var phyustate: int
    var sts: Value
    var waitedMs: nat  // milliseconds requested from the delay function

    function State(): System
      reads this, mii
    {
      System(physts, olddphysts, phyustate, sts, mii.bus)
    }

    constructor (mii: Mii)
      ensures this.mii == mii && waitedMs == 0
      ensures State() == System(NO_FLAGS, NO_FLAGS, 0, 0, mii.bus)
    {
      this.mii := mii;
      physts, olddphysts, phyustate, sts := NO_FLAGS, NO_FLAGS, 0, 0;
      waitedMs := 0;
    }

    method DelayMs(ms: nat)
      modifies this`waitedMs
      ensures waitedMs == old(waitedMs) + ms
    {
      waitedMs := waitedMs + ms;
    }

    method SetSpeed(speed: Speed)
      modifies this`physts
      ensures physts == WithSpeed(old(physts), speed)
    {
      match speed {
        case Full10 =>
          physts := physts.(speed100 := false);
          physts := physts.(fullDuplex := true);
        case Half100 =>
          physts := physts.(speed100 := true);
          physts := physts.(fullDuplex := false);
        case Half10 =>
          physts := physts.(speed100 := false);
          physts := physts.(fullDuplex := false);
        case _ =>
          physts := physts.(speed100 := true);
          physts := physts.(fullDuplex := true);
      }
    }

    method UpdatePhySts(linksts: Value, sdsts: Value)
      modifies this`physts, this`olddphysts
      ensures (physts, olddphysts) == Updated(old(physts), old(olddphysts), linksts, sdsts)
      ensures Shows(physts, linksts, sdsts)
    {
      UpdateShows(physts, olddphysts, linksts, sdsts);
      physts := physts.(connected := LinkActive(linksts));
      SetSpeed(SpeedField(sdsts));
      if LinkOf(physts) != LinkOf(olddphysts) {
        olddphysts := physts;
        physts := physts.(changed := true);
      }
    }

    method Poll() returns (status: Flags)
      modifies this, mii
      ensures State() == Polled(mii.env, old(State())) && status == physts && waitedMs == old(waitedMs)
      ensures mii.bus.writes == old(mii.bus).writes
      ensures old(phyustate) == 2 && old(mii.bus).left == 0 ==> Shows(status, old(sts), Data(mii.env, old(mii.bus)))
    {
      if phyustate == 1 {
        var busy := mii.IsBusy();
        if !busy {
          sts := mii.ReadData();
          mii.StartRead(LAN8_PHYSPLCTL_REG);
          phyustate := 2;
        }
      } else if phyustate == 2 {
        var busy := mii.IsBusy();
        if !busy {
          physts := physts.(busy := false);
          var data := mii.ReadData();
          UpdatePhySts(sts, data);
          phyustate := 0;
        }
      } else {
        mii.StartRead(LAN8_BSR_REG);
        physts := physts.(changed := false);
        physts := physts.(busy := true);
        phyustate := 1;
      }
      return physts;
    }

    // ----- Blocking register access and initialisation -----

    method MiiWrite(reg: nat, data: Value) returns (ok: bool)
      modifies this`waitedMs, mii
      ensures mii.bus == Waited(mii.env, StartedWrite(mii.env, old(mii.bus), reg, data))
      ensures mii.bus.writes == old(mii.bus).writes + [Write(reg, data)]
      ensures ok <==> Answered(mii.env, old(mii.bus).started)
      ensures waitedMs == old(waitedMs) + WaitMs(mii.env, old(mii.bus).started)
    {
      ok := false;
      var mst: int := 250;
      mii.StartWrite(reg, data);
      ghost var b := mii.bus;
      while mst > 0
        invariant 0 <= mst <= 250
        invariant ok ==> mst == 0 && b.left < 250 && mii.bus == b.(left := 0) && waitedMs == old(waitedMs) + b.left
        invariant !ok ==> 250 - mst <= b.left && mii.bus == b.(left := b.left - (250 - mst))
                          && waitedMs == old(waitedMs) + (250 - mst)
      {
        var busy := mii.IsBusy();
        if busy {
          mst := mst - 1;
          DelayMs(1);
        } else {
          mst := 0;
          ok := true;
        }
      }
    }

    method MiiRead(reg: nat) returns (ok: bool, data: Value)
      modifies this`waitedMs, mii
      ensures mii.bus == Waited(mii.env, Started(mii.env, old(mii.bus), reg))
      ensures mii.bus.writes == old(mii.bus).writes
      ensures ok <==> Answered(mii.env, old(mii.bus).started)
      ensures ok ==> data == mii.env.value(old(mii.bus).started, reg)
      ensures waitedMs == old(waitedMs) + WaitMs(mii.env, old(mii.bus).started)
    {
      ok, data := false, 0;
      var mst: int := 250;
      mii.StartRead(reg);
      ghost var b := mii.bus;
      while mst > 0
        invariant 0 <= mst <= 250
        invariant ok ==> mst == 0 && b.left < 250 && mii.bus == b.(left := 0) && waitedMs == old(waitedMs) + b.left
                         && data == mii.env.value(old(mii.bus).started, reg)
        invariant !ok ==> 250 - mst <= b.left && mii.bus == b.(left := b.left - (250 - mst))
                          && waitedMs == old(waitedMs) + (250 - mst)
      {
        var busy := mii.IsBusy();
        if !busy {
          mst := 0;
          data := mii.ReadData();
          ok := true;
        } else {
          mst := mst - 1;
          DelayMs(1);
        }
      }
    }

    /** The reset loop of lpc_phy_init: at most 400 tries, a delay before each. */
    method WaitOutOfReset() returns (ok: bool)
      requires mii.bus.left == 0
      modifies this`waitedMs, mii
      ensures var t, r := old(mii.bus).started, AwaitReset(mii.env, old(mii.bus).started, old(mii.bus).started + 400);
        ok == r.ok && waitedMs == old(waitedMs) + r.ms && mii.bus.started == t + r.tries
      ensures mii.bus.faults == old(mii.bus).faults && mii.bus.writes == old(mii.bus).writes
      ensures ok ==> mii.bus.left == 0
    {
      ghost var t, env := mii.bus.started, mii.env;
      ghost var end, spent: nat := t + 400, 0;
      ghost var result := AwaitReset(env, t, end);
      var i: int := 400;
      while i > 0
        invariant -1 <= i <= 400 && waitedMs == old(waitedMs) + spent
        invariant mii.bus.left == 0 && mii.bus.faults == old(mii.bus).faults
        invariant mii.bus.writes == old(mii.bus).writes
        invariant i >= 0 ==> mii.bus.started == end - i
        invariant i >= 0 ==> Joined(400 - i, spent, AwaitReset(env, mii.bus.started, end)) == result
        invariant i == -1 ==> mii.bus.started >= t
        invariant i == -1 ==> ResetResult(true, mii.bus.started - t, spent) == result
      {
        ghost var now := mii.bus.started;
        DelayMs(1);
        var tmp: Value;
        ok, tmp := MiiRead(LAN8_BCR_REG);
        spent := spent + 1 + WaitMs(env, now);
        if !ok {
          return false;
        }
        if And(tmp, 0x8800) == 0 {  // LAN8_RESET | LAN8_POWER_DOWN
          i := -1;
        } else {
          i := i - 1;
        }
      }
      return i != 0;
    }

    /** lpc_phy_init; true stands for SUCCESS, which is 1 in lpc_types.h. The reset bit, bit 15, is
        written first; only a PHY that has left reset gets the autonegotiation bit, bit 12, which is
        then all that remains set. */
    method Init(rmii: bool) returns (ok: bool)
      modifies this, mii
      ensures var outcome := InitOutcome(mii.env, old(mii.bus).started);
        ok == outcome.ok && waitedMs == old(waitedMs) + outcome.ms
      ensures physts == olddphysts == Flags(false, false, false, false, false, false) && phyustate == 0
      ensures mii.bus.started > 0
      ensures mii.bus.faults == old(mii.bus).faults + if old(mii.bus).left > 0 then 1 else 0
      ensures ok ==> mii.bus.writes == old(mii.bus).writes + [Write(0, 0x8000), Write(0, 0x1000)]
      ensures !ok ==> mii.bus.writes == old(mii.bus).writes + [Write(0, 0x8000)]
      ensures ok ==> mii.bus == InitBus(mii.env, old(mii.bus))
      ensures ok ==> (mii.bus.left == 0 <==> mii.env.latency(mii.bus.started - 1) <= 250)
    {
      ghost var t, env := mii.bus.started, mii.env;
      olddphysts, physts, phyustate := NO_FLAGS, NO_FLAGS, 0;
      ok := MiiWrite(LAN8_BCR_REG, LAN8_RESET);
      if !ok {
        return false;
      }
      ok := WaitOutOfReset();
      if !ok {
        return false;
      }
      ghost var r := AwaitReset(env, t + 1, t + 401);
      assert mii.bus.started == t + 1 + r.tries;
      var unchecked := MiiWrite(LAN8_BCR_REG, LAN8_AUTONEG);
      return true;
    }
  }
}
