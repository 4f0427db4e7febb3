/**
 * What holds over whole runs of the status poller, for every bus and every register content, and
 * how long the initialisation can take.
 */
module PhyTheorems {
  import opened MiiBus
  import opened PhyDriver
  import opened Words

  // ----- Runs of polls -----

  /** The system after n polls. */
  function Run(env: Env, s: System, n: nat): System {
    if n == 0 then s else Polled(env, Run(env, s, n - 1))
  }

  /** The poll that starts from s completes a sample. */
  predicate Completes(s: System) {
    s.phyustate == 2 && s.bus.left == 0
  }

  /** How many samples the first n polls complete. */
  function Samples(env: Env, s: System, n: nat): nat {
    if n == 0 then 0
    else Samples(env, s, n - 1) + if Completes(Run(env, s, n - 1)) then 1 else 0
  }

  /** The link that sample k shows: a read of the basic status register and one of the special
      status register, by the two transactions of the sample. */
  function SampleLink(env: Env, first: nat, k: nat): Link {
    Decoded(env.value(first + 2 * k, LAN8_BSR_REG), env.value(first + 2 * k + 1, LAN8_PHYSPLCTL_REG))
  }

  /** The link after k samples; before the first one it is down. */
  function LinkAfter(env: Env, first: nat, k: nat): Link {
    if k == 0 then NO_LINK else SampleLink(env, first, k - 1)
  }

  /** A driver as lpc_phy_init leaves it. The bus may still be busy with the last, unchecked write. */
  predicate Fresh(s: System) {
    s.physts == s.olddphysts == Flags(false, false, false, false, false, false) && s.phyustate == 0
  }

  /** The driver and the bus after k samples of a run whose first transaction has number `first`. */
  predicate Inv(env: Env, first: nat, faults: nat, s: System, k: nat) {
    && s.bus.faults == faults
    && !s.physts.error
    && LinkOf(s.physts) == LinkOf(s.olddphysts) == LinkAfter(env, first, k)
    && (s.physts.busy <==> s.phyustate != 0)
    && (s.physts.changed <==> s.phyustate == 0 && k > 0 && LinkAfter(env, first, k) != LinkAfter(env, first, k - 1))
    && match s.phyustate {
         case 0 => s.bus.left == 0 && s.bus.started == first + 2 * k
         case 1 => s.bus.reg == LAN8_BSR_REG && s.bus.started == first + 2 * k + 1
         case 2 => s.bus.reg == LAN8_PHYSPLCTL_REG && s.bus.started == first + 2 * k + 2
                   && s.sts == env.value(first + 2 * k, LAN8_BSR_REG)
         case _ => false
       }
  }

  lemma SpeedShows(p: Flags, speed: Speed)
    ensures LinkOf(WithSpeed(p, speed)) == LinkWith(p.connected, speed)
    ensures WithSpeed(p, speed).error == p.error && WithSpeed(p, speed).busy == p.busy
    ensures WithSpeed(p, speed).changed == p.changed
  {
  }

  lemma UpdateDecodes(physts: Flags, olddphysts: Flags, bsr: Value, special: Value)
    ensures var (p, o) := Updated(physts, olddphysts, bsr, special);
      && LinkOf(p) == LinkOf(o) == Decoded(bsr, special)
      && p.error == physts.error && p.busy == physts.busy
      && p.changed == (physts.changed || Decoded(bsr, special) != LinkOf(olddphysts))
      && Shows(p, bsr, special) && Shows(o, bsr, special)
  {
    UpdateShows(physts, olddphysts, bsr, special);
    SpeedShows(physts.(connected := LinkActive(bsr)), SpeedField(special));
  }

  lemma DecodedShows(p: Flags, bsr: Value, special: Value)
    requires LinkOf(p) == Decoded(bsr, special)
    ensures Shows(p, bsr, special)
  {
    LinkBit(bsr);
    SpeedCode(special, special / 4 % 8);
  }

  lemma PollKeepsInv(env: Env, first: nat, faults: nat, s: System, k: nat)
    requires Inv(env, first, faults, s, k)
    ensures Inv(env, first, faults, Polled(env, s), if Completes(s) then k + 1 else k)
  {
    if Completes(s) {
      UpdateDecodes(s.physts.(busy := false), s.olddphysts, s.sts, Data(env, s.bus));
    }
  }

  /** Every reachable state satisfies the invariant: BUSY is set exactly in states 1 and 2, each
      fetch belongs to the register its state is about, and the driver shows the link of the last
      completed sample. No transaction starts and no data is fetched on a busy bus, except that the
      first poll does so if initialisation left the bus busy. */
  lemma {:induction false} RunKeepsInv(env: Env, s: System, n: nat)
    requires Fresh(s) && n > 0
    ensures Inv(env, s.bus.started, s.bus.faults + if s.bus.left > 0 then 1 else 0,
                Run(env, s, n), Samples(env, s, n))
  {
    if n == 1 {
      assert Run(env, s, 1) == Polled(env, s) && Samples(env, s, 1) == 0;
    } else {
      RunKeepsInv(env, s, n - 1);
      PollKeepsInv(env, s.bus.started, s.bus.faults + if s.bus.left > 0 then 1 else 0,
                   Run(env, s, n - 1), Samples(env, s, n - 1));
    }
  }

  /** Poll n returns CHANGED exactly when it completes a sample that differs from the one before,
      so the next poll, which completes none, clears it. */
  lemma ChangedExactlyOnChange(env: Env, s: System, n: nat)
    requires Fresh(s) && n > 0
    ensures var k := Samples(env, s, n);
      Run(env, s, n).physts.changed
      <==> Completes(Run(env, s, n - 1)) && LinkAfter(env, s.bus.started, k) != LinkAfter(env, s.bus.started, k - 1)
    ensures Run(env, s, n).physts.changed ==> !Run(env, s, n + 1).physts.changed
  {
    if n > 1 {
      RunKeepsInv(env, s, n - 1);
    }
    RunKeepsInv(env, s, n);
    assert Run(env, s, n + 1) == Polled(env, Run(env, s, n));
  }

  lemma LinkAfterReads(env: Env, first: nat, k: nat, t: nat)
    requires k > 0 && t == first + 2 * k - 2
    ensures LinkAfter(env, first, k) == Decoded(env.value(t, 1), env.value(t + 1, 31))
  {
  }

  /** The flags in their own bits: once k > 0 samples are complete, the status shows bit 2 of what
      register 1 delivered to transaction 2 * k - 2 of the run, and bits 2 to 4 of what register 31
      delivered to the next one. */
  lemma {:induction false} StatusShowsLastSample(env: Env, s: System, n: nat)
    requires Fresh(s) && Samples(env, s, n) > 0
    ensures var t := s.bus.started + 2 * Samples(env, s, n) - 2;
      Shows(Run(env, s, n).physts, env.value(t, 1), env.value(t + 1, 31))
  {
    RunKeepsInv(env, s, n);
    var t := s.bus.started + 2 * Samples(env, s, n) - 2;
    LinkAfterReads(env, s.bus.started, Samples(env, s, n), t);
    DecodedShows(Run(env, s, n).physts, env.value(t, 1), env.value(t + 1, 31));
  }

  /** CHANGED in the same terms: poll n returns it exactly when one of the three link flags is not
      what it was before the poll. */
  lemma ChangedIffFlagsDiffer(env: Env, s: System, n: nat)
    requires Fresh(s) && n > 0
    ensures var was, now := Run(env, s, n - 1).physts, Run(env, s, n).physts;
      now.changed <==> now.connected != was.connected || now.speed100 != was.speed100
                       || now.fullDuplex != was.fullDuplex
  {
    ChangedExactlyOnChange(env, s, n);
    RunKeepsInv(env, s, n);
    if n > 1 {
      RunKeepsInv(env, s, n - 1);
    }
  }

  /** Polling writes nothing to the PHY. */
  lemma {:induction false} PollingWritesNothing(env: Env, s: System, n: nat)
    ensures Run(env, s, n).bus.writes == s.bus.writes
  {
    if n > 0 {
      PollingWritesNothing(env, s, n - 1);
    }
  }

  /** What a client knows that looks at the returned link only when CHANGED is set. */
  function Recorded(env: Env, s: System, n: nat): Link {
    if n == 0 then NO_LINK
    else
      var r := Run(env, s, n).physts;
      if r.changed then LinkOf(r) else Recorded(env, s, n - 1)
  }

  /** Such a client always knows the link of the last completed sample. */
  lemma {:induction false} RecordedIsCurrent(env: Env, s: System, n: nat)
    requires Fresh(s)
    ensures Recorded(env, s, n) == LinkOf(Run(env, s, n).physts)
         == LinkAfter(env, s.bus.started, Samples(env, s, n))
  {
    if n > 0 {
      RunKeepsInv(env, s, n);
      RecordedIsCurrent(env, s, n - 1);
      ChangedExactlyOnChange(env, s, n);
    }
  }

  // ----- Pace -----

  /** A run of m + n polls is a run of m polls to r and a run of n polls from there. */
  lemma {:induction false} RunAdds(env: Env, s: System, m: nat, r: System, n: nat, total: nat)
    requires r == Run(env, s, m) && total == m + n
    ensures Run(env, s, total) == Run(env, r, n)
    ensures Samples(env, s, total) == Samples(env, s, m) + Samples(env, r, n)
  {
    if n > 0 {
      RunAdds(env, s, m, r, n - 1, total - 1);
    }
  }

  /** Three polls in a row that all find the bus idle complete exactly one sample and come back to
      the state they began in. */
  lemma ThreeIdlePolls(env: Env, s: System)
    requires s.phyustate in {0, 1, 2}
    requires s.bus.left == 0 && Run(env, s, 1).bus.left == 0 && Run(env, s, 2).bus.left == 0
    ensures Samples(env, s, 3) == 1 && Run(env, s, 3).phyustate == s.phyustate
  {
    var s1, s2, s3 := Run(env, s, 1), Run(env, s, 2), Run(env, s, 3);
    assert s1 == Polled(env, s) && s2 == Polled(env, s1) && s3 == Polled(env, s2);
    assert Samples(env, s, 1) == if Completes(s) then 1 else 0;
    assert Samples(env, s, 2) == Samples(env, s, 1) + if Completes(s1) then 1 else 0;
  }

  /** A poll in state 1 or 2 that finds the bus busy only waits. */
  lemma {:induction false} WaitsOut(env: Env, s: System, n: nat)
    requires s.phyustate in {1, 2} && n <= s.bus.left
    ensures Run(env, s, n) == s.(bus := s.bus.(left := s.bus.left - n)) && Samples(env, s, n) == 0
  {
    if n > 0 {
      WaitsOut(env, s, n - 1);
    }
  }

  /** The poll after the wait moves on. */
  lemma MovesOn(env: Env, s: System)
    requires s.phyustate in {1, 2}
    ensures var n := s.bus.left;
      && Run(env, s, n + 1) == Polled(env, s.(bus := s.bus.(left := 0)))
      && Samples(env, s, n) == 0 && Samples(env, s, n + 1) == s.phyustate - 1
  {
    WaitsOut(env, s, s.bus.left);
  }

  /** A sample takes three polls more than its two transactions keep the bus busy. */
  function SamplePolls(env: Env, t: nat): nat {
    3 + env.latency(t) + env.latency(t + 1)
  }

  lemma FirstPoll(env: Env, s: System)
    ensures Run(env, s, 1) == Polled(env, s)
    ensures Samples(env, s, 1) == if Completes(s) then 1 else 0
  {
    assert Run(env, s, 0) == s && Samples(env, s, 0) == 0;
  }

  /** The wait for the first read of a sample, after the poll that started it. */
  lemma HalfSample(env: Env, s: System, m: nat, h: System)
    requires s.phyustate == 0 && s.bus.left == 0
    requires m == 2 + env.latency(s.bus.started) && h == Run(env, s, m)
    ensures Samples(env, s, m) == 0 && h.phyustate == 2
    ensures h.bus.left == env.latency(s.bus.started + 1) && h.bus.started == s.bus.started + 2
  {
    var s1 := Polled(env, s);
    FirstPoll(env, s);
    MovesOn(env, s1);
    RunAdds(env, s, 1, s1, s1.bus.left + 1, m);
  }

  /** After n polls from s, k samples are complete and the next one is about to start. */
  predicate SamplesDone(env: Env, s: System, n: nat, k: nat) {
    var r := Run(env, s, n);
    && Samples(env, s, n) == k
    && r.phyustate == 0 && r.bus.left == 0 && r.bus.started == s.bus.started + 2 * k
  }

  lemma SecondHalf(env: Env, s: System)
    requires s.phyustate == 2
    ensures var r := Run(env, s, s.bus.left + 1);
      && Samples(env, s, s.bus.left) == 0 && Samples(env, s, s.bus.left + 1) == 1
      && r.phyustate == 0 && r.bus.left == 0 && r.bus.started == s.bus.started
  {
    MovesOn(env, s);
  }

  /** From the middle of a sample, state h after m polls, to its end. */
  lemma JoinHalves(env: Env, s: System, m: nat, h: System, total: nat)
    requires h == Run(env, s, m) && Samples(env, s, m) == 0
    requires h.phyustate == 2 && h.bus.started == s.bus.started + 2
    requires total == m + (h.bus.left + 1)
    ensures SamplesDone(env, s, total, 1)
  {
    SecondHalf(env, h);
    RunAdds(env, s, m, h, h.bus.left + 1, total);
  }

  lemma NotBefore(env: Env, s: System, m: nat, h: System, last: nat)
    requires h == Run(env, s, m) && Samples(env, s, m) == 0
    requires h.phyustate == 2 && last == m + h.bus.left
    ensures Samples(env, s, last) == 0
  {
    SecondHalf(env, h);
    RunAdds(env, s, m, h, h.bus.left, last);
  }

  /** From the start of a sample exactly SamplePolls polls complete it: the link is read as soon as
      the bus lets it be. */
  lemma OneSample(env: Env, s: System, n: nat)
    requires s.phyustate == 0 && s.bus.left == 0 && n == SamplePolls(env, s.bus.started)
    ensures SamplesDone(env, s, n, 1)
    ensures Samples(env, s, n - 1) == 0
  {
    var m := 2 + env.latency(s.bus.started);
    var h := Run(env, s, m);
    HalfSample(env, s, m, h);
    JoinHalves(env, s, m, h, n);
    NotBefore(env, s, m, h, n - 1);
  }

  lemma SamplesChain(env: Env, s: System, m: nat, k: nat, r: System, n: nat, total: nat)
    requires SamplesDone(env, s, m, k) && r == Run(env, s, m)
    requires SamplesDone(env, r, n, 1) && total == m + n
    ensures SamplesDone(env, s, total, k + 1)
  {
    RunAdds(env, s, m, r, n, total);
  }

  lemma AnotherSample(env: Env, s: System, m: nat, k: nat, total: nat)
    requires SamplesDone(env, s, m, k) && total == m + SamplePolls(env, s.bus.started + 2 * k)
    ensures SamplesDone(env, s, total, k + 1)
  {
    var r, n := Run(env, s, m), SamplePolls(env, s.bus.started + 2 * k);
    OneSample(env, r, n);
    SamplesChain(env, s, m, k, r, n, total);
  }

  /** How many polls k samples take whose first transaction has number `first`. */
  function PollsFor(env: Env, first: nat, k: nat): nat {
    if k == 0 then 0 else PollsFor(env, first, k - 1) + SamplePolls(env, first + 2 * (k - 1))
  }

  /** Samples keep coming, each after exactly the polls its bus traffic needs. */
  lemma {:induction false} SamplesKeepComing(env: Env, s: System, k: nat, n: nat)
    requires s.phyustate == 0 && s.bus.left == 0 && n == PollsFor(env, s.bus.started, k)
    ensures SamplesDone(env, s, n, k)
  {
    if k > 0 {
      var m := PollsFor(env, s.bus.started, k - 1);
      SamplesKeepComing(env, s, k - 1, m);
      AnotherSample(env, s, m, k - 1, n);
    }
  }

  // ----- Initialisation -----

  /** Transaction u is the first from t on whose read shows the PHY out of reset, and every read up
      to it was answered. */
  predicate LeavesResetAt(env: Env, t: nat, u: nat) {
    && (forall j :: t <= j <= u ==> Answered(env, j))
    && (forall j :: t <= j < u ==> !OutOfReset(env, j))
    && OutOfReset(env, u)
  }

  ghost predicate LeavesReset(env: Env, t: nat, end: nat) {
    exists u: nat :: t <= u < end && LeavesResetAt(env, t, u)
  }

  lemma LeavesResetLater(env: Env, t: nat, u: nat)
    requires t < u
    ensures LeavesResetAt(env, t, u)
       <==> Answered(env, t) && !OutOfReset(env, t) && LeavesResetAt(env, t + 1, u)
  {
  }

  lemma {:induction false} AwaitResetFindsFirst(env: Env, t: nat, end: nat)
    requires t <= end
    ensures AwaitReset(env, t, end).ok <==> LeavesReset(env, t, end)
    decreases end - t
  {
    if t < end {
      AwaitResetFindsFirst(env, t + 1, end);
      if AwaitReset(env, t, end).ok {
        if OutOfReset(env, t) {
          assert LeavesResetAt(env, t, t);
        } else {
          var u: nat :| t + 1 <= u < end && LeavesResetAt(env, t + 1, u);
          LeavesResetLater(env, t, u);
        }
      }
      if LeavesReset(env, t, end) {
        var u: nat :| t <= u < end && LeavesResetAt(env, t, u);
        if t < u {
          LeavesResetLater(env, t, u);
        }
      }
    }
  }

  lemma BitsZeroAndFour(y: nat)
    ensures And(y, 17) == 0 <==> y % 2 == 0 && y / 16 % 2 == 0
  {
    FieldIs(y / 2, 1, 3, 8);
  }

  lemma ShiftedByEleven(x: nat, y: nat)
    requires y == x / 0x800
    ensures And(x, 0x8800) == And(y, 17) * 0x800
  {
    AndShl(x, 17, 11);
    assert Pow2(11) == 0x800;
    ShrIsQuotient(x, 11);
    ShlIsProduct(And(y, 17), 11);
  }

  lemma BitsElevenAndFifteen(x: nat)
    ensures And(x, 0x8800) == 0 <==> x / 0x8000 % 2 == 0 && x / 0x800 % 2 == 0
  {
    var y := x / 0x800;
    ShiftedByEleven(x, y);
    BitsZeroAndFour(y);
    assert y / 16 == x / 0x8000;
  }

  /** The two bits: 15, RESET, and 11, POWER_DOWN. */
  lemma OutOfResetBits(env: Env, t: nat)
    ensures OutOfReset(env, t) <==> env.value(t, 0) / 0x8000 % 2 == 0 && env.value(t, 0) / 0x800 % 2 == 0
  {
    BitsElevenAndFifteen(env.value(t, 0));
  }

  /** Transaction u reads the control register with bits 15 and 11 clear, and it and all before it,
      from t on, are answered within 250 queries. */
  predicate AnsweredOutOfReset(env: Env, t: nat, u: nat) {
    && (forall j :: t <= j <= u ==> env.latency(j) < 250)
    && env.value(u, 0) / 0x8000 % 2 == 0 && env.value(u, 0) / 0x800 % 2 == 0
  }

  lemma {:induction false} FirstOutOfReset(env: Env, t: nat, u: nat) returns (v: nat)
    requires t <= u && AnsweredOutOfReset(env, t, u)
    ensures t <= v <= u && LeavesResetAt(env, t, v)
    decreases u - t
  {
    OutOfResetBits(env, t);
    OutOfResetBits(env, u);
    if OutOfReset(env, t) {
      v := t;
    } else {
      v := FirstOutOfReset(env, t + 1, u);
      LeavesResetLater(env, t, v);
    }
  }

  /** lpc_phy_init succeeds exactly when the reset write is answered within its 250 tries and one of
      the next 400 reads, all answered so far, shows RESET and POWER_DOWN clear. */
  lemma InitSucceedsIff(env: Env, t: nat)
    ensures InitOutcome(env, t).ok <==> exists u :: t < u < t + 401 && AnsweredOutOfReset(env, t, u)
  {
    AwaitResetFindsFirst(env, t + 1, t + 401);
    if InitOutcome(env, t).ok {
      var u: nat :| t + 1 <= u < t + 401 && LeavesResetAt(env, t + 1, u);
      OutOfResetBits(env, u);
      forall j | t <= j <= u
        ensures env.latency(j) < 250
      {
        assert Answered(env, j);
      }
      assert AnsweredOutOfReset(env, t, u);
    }
    if u :| t < u < t + 401 && AnsweredOutOfReset(env, t, u) {
      assert AnsweredOutOfReset(env, t + 1, u);
      var v := FirstOutOfReset(env, t + 1, u);
    }
  }

  /** Transactions begun on a busy bus by the initialisation itself, if it found it busy, and by the
      first poll, exactly if the last write took the PHY more than 250 queries. */
  function InitFaults(env: Env, before: Bus): nat {
    var last := InitBus(env, before).started - 1;
    before.faults + (if before.left > 0 then 1 else 0) + (if env.latency(last) > 250 then 1 else 0)
  }

  lemma FaultsAreCounted(env: Env, before: Bus, after: Bus)
    requires after == InitBus(env, before)
    ensures after.faults + (if after.left > 0 then 1 else 0) == InitFaults(env, before)
  {
  }

  /** Polling on the bus that a successful initialisation leaves: apart from these, no transaction
      starts and no data is fetched on a busy bus, in every run. */
  lemma PollingAfterInit(env: Env, before: Bus, s: System, n: nat)
    requires Fresh(s) && s.bus == InitBus(env, before) && n > 0
    ensures Inv(env, s.bus.started, InitFaults(env, before), Run(env, s, n), Samples(env, s, n))
  {
    FaultsAreCounted(env, before, s.bus);
    RunKeepsInv(env, s, n);
  }

  /** A PHY that is out of reset at once but takes one query too long over the third transaction. */
  function Sluggish(): Env {
    Env((t: nat) => if t == 2 then 251 else 0, (t: nat, reg: nat) => 0)
  }

  /** The exception happens: this PHY initialises, and the first poll starts a read on a busy bus. */
  lemma FirstPollMayMeetBusyBus(s: System)
    requires Fresh(s) && s.bus == InitBus(Sluggish(), Bus(0, 0, 0, 0, []))
    ensures InitOutcome(Sluggish(), 0).ok && s.bus.left == 1
    ensures s.bus.faults == 0 && Run(Sluggish(), s, 1).bus.faults == 1
  {
    var env := Sluggish();
    assert AwaitReset(env, 1, 401) == ResetResult(true, 1, 1);
    FirstPoll(env, s);
  }

  lemma {:induction false} AwaitResetBound(env: Env, t: nat, end: nat)
    requires t <= end
    ensures AwaitReset(env, t, end).ok ==> AwaitReset(env, t, end).ms <= 250 * (end - t)
    ensures AwaitReset(env, t, end).ms <= 250 * (end - t) + 1
    decreases end - t
  {
    if t < end {
      AwaitResetBound(env, t + 1, end);
    }
  }

  /** It never asks for more than 100499 ms of delay. */
  lemma InitWaitBound(env: Env, t: nat)
    ensures InitOutcome(env, t).ms <= 100499
  {
    AwaitResetBound(env, t + 1, t + 401);
  }

  /** A PHY that answers every query just in time and leaves reset with the last read. */
  function Slowest(): Env {
    Env((t: nat) => if t == 401 then 250 else 249, (t: nat, reg: nat) => if t == 400 then 0 else 0xFFFF)
  }

  lemma {:induction false} SlowestReset(t: nat)
    requires 1 <= t <= 400
    ensures AwaitReset(Slowest(), t, 401) == ResetResult(true, 401 - t, 250 * (401 - t))
    decreases 401 - t
  {
    OutOfResetBits(Slowest(), t);
    if t < 400 {
      SlowestReset(t + 1);
    }
  }

  /** The bound is met. */
  lemma InitWaitBoundIsTight()
    ensures InitOutcome(Slowest(), 0) == InitResult(true, 100499)
  {
    SlowestReset(1);
  }
}
