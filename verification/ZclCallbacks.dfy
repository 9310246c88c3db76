/** From attribute changes to infrared commands: deriving the state, dropping repeats, dispatching. */
module ZclCallbacks {
  import opened IrProtocol
  import opened DataStream
  import opened IrDriver

  type Int16 = x: int | -32768 <= x < 32768

  /** The attribute values at one moment; None is a read that fails and leaves the caller's default in place. */
  datatype Attributes = Attributes(onOff: Option<bool>, systemMode: Option<UInt8>, cooling: Option<Int16>,
                                   heating: Option<Int16>, fanMode: Option<UInt8>)

  datatype Cluster = OnOff | Thermostat | FanControl | OtherCluster

  function Get<T>(value: Option<T>, default: T): T {
    if value == None then default else value.value
  }

  // ---------- the derived state ----------

  function SystemModeToAcMode(systemMode: UInt8): AcMode {
    match systemMode
    case 3 => Cooling
    case 4 => Heating
    case 7 => Ventilation
    case 8 => Dehumidify
    case _ => Cooling
  }

  function FanModeToSpeed(fanMode: UInt8): FanSpeed {
    match fanMode
    case 0 => Fan1
    case 1 => Fan1
    case 2 => Fan3
    case 3 => Fan5
    case 5 => FanAuto
    case _ => FanAuto
  }

  /** Division that truncates toward zero. */
  function TruncDiv(a: int, b: int): int
    requires b > 0
  {
    if a >= 0 then a / b else -(-a / b)
  }

  function Clamp(t: int): (r: int)
    ensures 16 <= r <= 30
  {
    if t < 16 then 16 else if t > 30 then 30 else t
  }

  /** Hundredths of a degree to degrees: truncating division, then the cast to an unsigned byte, then the limits. */
  function Temperature(setpoint: Int16): UInt8 {
    Clamp(TruncDiv(setpoint, 100) % 256)
  }

  /** The setpoint that belongs to the mode; other modes keep the default of 24 degrees. */
  function Setpoint(a: Attributes): Int16 {
    var systemMode := Get(a.systemMode, 3);
    if systemMode == 3 then Get(a.cooling, 2400) else if systemMode == 4 then Get(a.heating, 2400) else 2400
  }

  function Derived(a: Attributes): AcState {
    AcState(Get(a.onOff, false), SystemModeToAcMode(Get(a.systemMode, 3)), Temperature(Setpoint(a)),
            FanModeToSpeed(Get(a.fanMode, 5)))
  }

  /** The temperature is the setpoint in whole degrees, brought into 16..30, exactly for these setpoints; the cast to
      a byte spoils the others. */
  lemma TemperatureExactlyWhen(setpoint: Int16)
    ensures Temperature(setpoint) == Clamp(TruncDiv(setpoint, 100)) <==>
            -100 < setpoint < 25600 || -25700 < setpoint <= -24000 || 28600 <= setpoint
  {
  }

  /** Within the setpoint limits that the device declares, 7 to 32 degrees, the conversion is exact. */
  lemma ExactWithinLimits(setpoint: Int16)
    requires 700 <= setpoint <= 3200
    ensures Temperature(setpoint) == Clamp(setpoint / 100)
  {
    TemperatureExactlyWhen(setpoint);
  }

  /** One degree below zero asks for the highest temperature, 256 degrees for the lowest. */
  lemma SetpointWraps()
    ensures Temperature(-100) == 30 && Clamp(TruncDiv(-100, 100)) == 16
    ensures Temperature(25600) == 16 && Clamp(TruncDiv(25600, 100)) == 30
  {
  }

  // ---------- what a state has to say about the attributes ----------

  /** q is the setpoint in whole degrees, cut toward zero. */
  ghost predicate WholeDegrees(setpoint: int, q: int) {
    if setpoint >= 0 then 100 * q <= setpoint < 100 * q + 100 else 100 * q - 100 < setpoint <= 100 * q
  }

  /** b is what remains of q in a byte. */
  ghost predicate KeptInByte(q: int, b: int) {
    0 <= b < 256 && (q - b) % 256 == 0
  }

  /** t is b, or the nearest of 16 and 30. */
  ghost predicate Limited(b: int, t: int) {
    16 <= t <= 30 && (b <= 16 ==> t == 16) && (16 <= b <= 30 ==> t == b) && (30 <= b ==> t == 30)
  }

  ghost predicate AsksFor(setpoint: int, t: int) {
    exists q: int, b: int :: WholeDegrees(setpoint, q) && KeptInByte(q, b) && Limited(b, t)
  }

  /** The temperature of a setpoint that was read, or 24 degrees if the read failed. */
  ghost predicate FollowsSetpoint(reading: Option<Int16>, t: int) {
    match reading
    case None => t == 24
    case Some(setpoint) => AsksFor(setpoint, t)
  }

  ghost predicate DescribesMode(a: Attributes, mode: AcMode) {
    && (mode == Heating <==> a.systemMode == Some(4))
    && (mode == Ventilation <==> a.systemMode == Some(7))
    && (mode == Dehumidify <==> a.systemMode == Some(8))
    && (mode == Cooling <==> a.systemMode != Some(4) && a.systemMode != Some(7) && a.systemMode != Some(8))
  }

  /** Heating looks at the heating setpoint, cooling and a failed read of the mode at the cooling setpoint, and every
      other value of the mode at none. */
  ghost predicate DescribesTemp(a: Attributes, t: int) {
    match a.systemMode
    case Some(4) => FollowsSetpoint(a.heating, t)
    case Some(3) => FollowsSetpoint(a.cooling, t)
    case None => FollowsSetpoint(a.cooling, t)
    case _ => t == 24
  }

  ghost predicate DescribesFan(a: Attributes, fan: FanSpeed) {
    && (fan == Fan1 <==> a.fanMode == Some(0) || a.fanMode == Some(1))
    && (fan == Fan3 <==> a.fanMode == Some(2))
    && (fan == Fan5 <==> a.fanMode == Some(3))
    && (fan == FanAuto <==> a.fanMode == None || a.fanMode.value >= 4)
  }

  ghost predicate Describes(a: Attributes, s: AcState) {
    (s.power <==> a.onOff == Some(true)) && DescribesMode(a, s.mode) && DescribesTemp(a, s.temp) &&
    DescribesFan(a, s.fan)
  }

  /** A frame that a receiver reads as the attributes say; when off, it says heating whatever the mode. */
  ghost predicate Announces(a: Attributes, pulses: seq<IrPulse>) {
    hide ReadState, DescribesMode, DescribesTemp, DescribesFan;
    match ReadState(pulses)
    case None => false
    case Some(s) =>
      && (s.power <==> a.onOff == Some(true))
      && (if s.power then DescribesMode(a, s.mode) else s.mode == Heating)
      && DescribesTemp(a, s.temp) && DescribesFan(a, s.fan)
  }

  lemma TruncDivIs(setpoint: int, q: int)
    ensures WholeDegrees(setpoint, q) <==> q == TruncDiv(setpoint, 100)
  {
  }

  lemma KeptIs(q: int, b: int)
    ensures KeptInByte(q, b) <==> b == q % 256
  {
  }

  lemma LimitedIs(b: int, t: int)
    ensures Limited(b, t) <==> t == Clamp(b)
  {
  }

  /** The conversion of the code gives the temperature that is asked for, also where the byte wraps. */
  lemma TemperatureAsked(setpoint: Int16, t: int)
    ensures AsksFor(setpoint, t) <==> t == Temperature(setpoint)
  {
    hide TruncDiv, Clamp, WholeDegrees, KeptInByte, Limited;
    var q := TruncDiv(setpoint, 100);
    TruncDivIs(setpoint, q);
    KeptIs(q, q % 256);
    LimitedIs(q % 256, t);
    if AsksFor(setpoint, t) {
      var p: int, b: int :| WholeDegrees(setpoint, p) && KeptInByte(p, b) && Limited(b, t);
      TruncDivIs(setpoint, p);
      KeptIs(p, b);
    }
  }

  /** Setpoints that do not wrap: whole degrees from 16 to 30, and the nearer limit outside. */
  lemma AskedInDegrees(setpoint: Int16, t: int)
    requires -100 < setpoint < 25600
    ensures AsksFor(setpoint, t) <==>
            16 <= t <= 30 && (setpoint < 1600 ==> t == 16) && (3100 <= setpoint ==> t == 30) &&
              (1600 <= setpoint < 3100 ==> 100 * t <= setpoint < 100 * t + 100)
  {
    TemperatureAsked(setpoint, t);
  }

  lemma ModeDescribed(a: Attributes, mode: AcMode)
    ensures DescribesMode(a, mode) <==> mode == SystemModeToAcMode(Get(a.systemMode, 3))
  {
  }

  lemma FanDescribed(a: Attributes, fan: FanSpeed)
    ensures DescribesFan(a, fan) <==> fan == FanModeToSpeed(Get(a.fanMode, 5))
  {
  }

  lemma TempDescribed(a: Attributes, t: int)
    ensures DescribesTemp(a, t) <==> t == Temperature(Setpoint(a))
  {
    hide AsksFor, Temperature;
    DefaultTemperature();
    TemperatureAsked(Setpoint(a), t);
  }

  lemma DefaultTemperature()
    ensures Temperature(2400) == 24
  {
  }

  /** The derived state, and no other, describes the attributes. */
  lemma DerivedDescribes(a: Attributes, s: AcState)
    ensures Describes(a, s) <==> s == Derived(a)
  {
    hide DescribesMode, DescribesTemp, DescribesFan, SystemModeToAcMode, FanModeToSpeed, Temperature, Setpoint;
    ModeDescribed(a, s.mode);
    TempDescribed(a, s.temp);
    FanDescribed(a, s.fan);
  }

  /** The frame of the derived state says what the attributes say. */
  lemma DerivedAnnounces(a: Attributes)
    ensures Announces(a, Frame(Derived(a)))
  {
    hide DescribesMode, DescribesTemp, DescribesFan, Derived, Frame, ReadState;
    DerivedDecodes(a);
    DerivedDescribes(a, Derived(a));
  }

  /** What a receiver decodes from the frame of a derived state: the state itself, but no mode when off. */
  lemma DerivedDecodes(a: Attributes)
    ensures 16 <= Derived(a).temp <= 30
    ensures ReadState(Frame(Derived(a))) ==
            Some(if Derived(a).power then Derived(a) else Derived(a).(mode := Heating))
  {
    hide Frame, ReadState, Temperature, SystemModeToAcMode, FanModeToSpeed, Setpoint;
    TemperatureRange(Setpoint(a));
    StateRoundTrip(Derived(a));
  }

  lemma TemperatureRange(setpoint: Int16)
    ensures 16 <= Temperature(setpoint) <= 30
  {
  }

  /** A changed state is sent as an unchanged frame exactly when the unit stays off with the same temperature and
      fan. */
  lemma RepeatedFrame(a: Attributes, b: Attributes)
    requires Derived(a) != Derived(b)
    ensures Frame(Derived(a)) == Frame(Derived(b)) <==>
            !Derived(a).power && !Derived(b).power && Derived(a).temp == Derived(b).temp &&
              Derived(a).fan == Derived(b).fan
  {
    hide Frame, Derived;
    DerivedDecodes(a);
    DerivedDecodes(b);
    SameFrame(Derived(a), Derived(b));
  }

  // ---------- runs of events ----------

  /** What reaches this file: the signal that start-up is over, or an attribute change. */
  datatype Event = Ready(attributes: Attributes) | Changed(endpoint: nat, cluster: Cluster, attributes: Attributes)

  /** The static variables, and the states dispatched so far. */
  datatype Tracker = Tracker(lastSent: AcState, lastSentValid: bool, ready: bool, sent: seq<AcState>)

  predicate Relevant(e: Event) {
    e.Changed? && e.endpoint == 1 && e.cluster != OtherCluster
  }

  function Record(t: Tracker, state: AcState): Tracker {
    t.(lastSent := state, lastSentValid := true, sent := t.sent + [state])
  }

  function Next(t: Tracker, e: Event): Tracker {
    if e.Ready? then t.(lastSent := Derived(e.attributes), lastSentValid := true, ready := true)
    else if !Relevant(e) || !t.ready || (t.lastSentValid && Derived(e.attributes) == t.lastSent) then t
    else Record(t, Derived(e.attributes))
  }

  /** What one event does, in terms of the attributes read at it. */
  lemma Reacts(t: Tracker, e: Event)
    ensures e.Ready? ==>
              Describes(e.attributes, Next(t, e).lastSent) && Next(t, e).lastSentValid && Next(t, e).ready &&
              Next(t, e).sent == t.sent
    ensures e.Changed? && (!t.ready || e.endpoint != 1 || e.cluster == OtherCluster) ==> Next(t, e) == t
    ensures e.Changed? && t.ready && e.endpoint == 1 && e.cluster != OtherCluster ==>
              Describes(e.attributes, Next(t, e).lastSent) && Next(t, e).lastSentValid && Next(t, e).ready &&
              Next(t, e).sent ==
              t.sent + if t.lastSentValid && Describes(e.attributes, t.lastSent) then [] else [Next(t, e).lastSent]
  {
    hide Derived, Describes;
    DerivedDescribes(e.attributes, Derived(e.attributes));
    DerivedDescribes(e.attributes, t.lastSent);
  }

  function Run(t: Tracker, events: seq<Event>): Tracker {
    if events == [] then t else Next(Run(t, events[..|events| - 1]), events[|events| - 1])
  }

  /** The derived states at the relevant events, in order. */
  function StatesAt(events: seq<Event>): seq<AcState> {
    if events == [] then []
    else StatesAt(events[..|events| - 1]) +
         if Relevant(events[|events| - 1]) then [Derived(events[|events| - 1].attributes)] else []
  }

  /** The states that differ from the one before them; the first is compared with `from`. */
  function Changes(from: AcState, states: seq<AcState>): seq<AcState> {
    if states == [] then []
    else
      var n := |states| - 1;
      Changes(from, states[..n]) + if states[n] == Latest(from, states[..n]) then [] else [states[n]]
  }

  function Latest(from: AcState, states: seq<AcState>): AcState {
    if states == [] then from else states[|states| - 1]
  }

  ghost predicate OnlyChanges(events: seq<Event>) {
    forall i | 0 <= i < |events| :: events[i].Changed?
  }

  /** Nothing is dispatched before the start-up signal. */
  lemma {:induction false} NothingBeforeReady(t: Tracker, events: seq<Event>)
    requires !t.ready && OnlyChanges(events)
    ensures Run(t, events) == t
  {
    hide Derived;
    if events != [] {
      NothingBeforeReady(t, events[..|events| - 1]);
    }
  }

  /** After it, the dispatched states are the derived states without consecutive repeats, starting from the snapshot. */
  lemma {:induction false} SentAreChanges(t: Tracker, events: seq<Event>)
    requires t.ready && t.lastSentValid && OnlyChanges(events)
    ensures Run(t, events) ==
            Tracker(Latest(t.lastSent, StatesAt(events)), true, true, t.sent + Changes(t.lastSent, StatesAt(events)))
  {
    hide Derived;
    if events != [] {
      var n := |events| - 1;
      SentAreChanges(t, events[..n]);
      var states, d := StatesAt(events[..n]), Derived(events[n].attributes);
      if Relevant(events[n]) {
        assert StatesAt(events) == states + [d] && (states + [d])[..|states|] == states;
        assert t.sent + Changes(t.lastSent, states) + [d] == t.sent + (Changes(t.lastSent, states) + [d]);
      } else {
        assert StatesAt(events) == states;
      }
    }
  }

  lemma {:induction false} RunConcat(t: Tracker, a: seq<Event>, b: seq<Event>)
    ensures Run(t, a + b) == Run(Run(t, a), b)
    decreases |b|
  {
    hide Next;
    if b == [] {
      assert a + b == a;
    } else {
      RunConcat(t, a, b[..|b| - 1]);
      assert (a + b)[..|a + b| - 1] == a + b[..|b| - 1];
    }
  }

  /** Every run with one start-up signal. */
  lemma RunDispatches(t: Tracker, before: seq<Event>, boot: Attributes, after: seq<Event>)
    requires !t.ready && t.sent == [] && OnlyChanges(before) && OnlyChanges(after)
    ensures Run(t, before + [Ready(boot)] + after).sent == Changes(Derived(boot), StatesAt(after))
    ensures WithoutRepeats(Derived(boot), Run(t, before + [Ready(boot)] + after).sent)
    ensures Run(t, before + [Ready(boot)] + after).lastSent == Latest(Derived(boot), StatesAt(after))
  {
    hide Derived, Changes, StatesAt, Latest, WithoutRepeats;
    NoRepeats(Derived(boot), StatesAt(after));
    NothingBeforeReady(t, before);
    RunConcat(t, before, [Ready(boot)]);
    RunConcat(t, before + [Ready(boot)], after);
    var u := Run(t, before + [Ready(boot)]);
    assert [Ready(boot)][..0] == [];
    assert u == Next(t, Ready(boot));
    SentAreChanges(u, after);
  }

  /** The state before the k-th, which for the first is `from`. */
  function Previous(from: AcState, states: seq<AcState>, k: nat): AcState
    requires k < |states|
  {
    if k == 0 then from else states[k - 1]
  }

  ghost predicate WithoutRepeats(from: AcState, states: seq<AcState>) {
    forall k: nat | k < |states| :: states[k] != Previous(from, states, k)
  }

  /** Dropping repeats leaves none, and keeps the latest state. */
  lemma {:induction false} NoRepeats(from: AcState, states: seq<AcState>)
    ensures WithoutRepeats(from, Changes(from, states))
    ensures Latest(from, Changes(from, states)) == Latest(from, states)
  {
    if states != [] {
      NoRepeats(from, states[..|states| - 1]);
      var r, all := Changes(from, states[..|states| - 1]), Changes(from, states);
      forall k: nat | k < |all|
        ensures all[k] != Previous(from, all, k)
      {
        assert k < |r| ==> Previous(from, all, k) == Previous(from, r, k);
      }
    }
  }

  /** The record keeps up: the last dispatched state, or the snapshot if nothing was dispatched, is the state derived
      at the last relevant event. This is about what was handed to the driver; the snapshot itself is never
      transmitted. */
  lemma Tracks(t: Tracker, before: seq<Event>, boot: Attributes, after: seq<Event>)
    requires !t.ready && t.sent == [] && OnlyChanges(before) && OnlyChanges(after)
    ensures Latest(Derived(boot), Run(t, before + [Ready(boot)] + after).sent) == Latest(Derived(boot), StatesAt(after))
  {
    hide Run, Changes, StatesAt, Derived;
    RunDispatches(t, before, boot, after);
    NoRepeats(Derived(boot), StatesAt(after));
  }

  lemma RunOneMore(t: Tracker, events: seq<Event>, e: Event)
    ensures Run(t, []) == t && Run(t, events + [e]) == Next(Run(t, events), e)
  {
    hide Next;
    assert (events + [e])[..|events|] == events;
  }

  /** Such a pair in a run: switched off and then set from cooling to heating at equal setpoints, the unit is sent the
      same frame twice. */
  lemma SameFrameTwice(t: Tracker) returns (boot: Attributes, off: Attributes, heat: Attributes)
    requires t.sent == []
    ensures Run(t, [Ready(boot), Changed(1, OnOff, off), Changed(1, Thermostat, heat)]).sent ==
            [Derived(off), Derived(heat)]
    ensures Derived(off) != Derived(heat) && Frame(Derived(off)) == Frame(Derived(heat))
  {
    hide Frame;
    boot := Attributes(Some(true), Some(3), Some(2400), Some(2400), Some(5));
    off := boot.(onOff := Some(false));
    heat := off.(systemMode := Some(4));
    RepeatedFrame(off, heat);
    var first, second, third := Ready(boot), Changed(1, OnOff, off), Changed(1, Thermostat, heat);
    RunOneMore(t, [], first);
    RunOneMore(t, [first], second);
    RunOneMore(t, [first, second], third);
    assert [] + [first] == [first] && [first] + [second] == [first, second];
    assert [first, second] + [third] == [first, second, third];
    hide Run;
    var u := Next(t, first);
    assert Next(u, second) == Record(u, Derived(off));
    assert t.sent + [Derived(off)] == [Derived(off)];
  }

  /** Every dispatched state is a derived one, so its temperature is between 16 and 30 and its frame can be decoded. */
  lemma {:induction false} SentAreDerived(t: Tracker, events: seq<Event>, k: nat)
    requires t.sent == [] && k < |Run(t, events).sent|
    ensures exists i ::
              0 <= i < |events| && Relevant(events[i]) && Run(t, events).sent[k] == Derived(events[i].attributes)
  {
    hide Derived;
    if events != [] {
      var n := |events| - 1;
      var u := Run(t, events[..n]);
      if k < |u.sent| {
        SentAreDerived(t, events[..n], k);
      } else {
        assert Relevant(events[n]);
      }
    }
  }

  // ---------- the code ----------

  class Callbacks {
    const driver: Driver
    const pulses: array<IrPulse>
    var lastSent: AcState
    var lastSentValid: bool
    var irReady: bool
    ghost var sent: seq<AcState>

    ghost predicate Valid()
      reads this, driver
    {
      && driver.Valid() && pulses.Length == IR_MAX_PULSES
      && pulses != driver.pendingBuf && pulses != driver.activeBuf
    }

    ghost function View(): Tracker
      reads this
    {
      Tracker(lastSent, lastSentValid, irReady, sent)
    }

    constructor (d: Driver, initial: AcState)
      requires d.Valid()
      ensures Valid() && View() == Tracker(initial, false, false, []) && driver == d && fresh(pulses)
    {
      driver := d;
      pulses := new IrPulse[IR_MAX_PULSES];
      lastSent := initial;
      lastSentValid := false;
      irReady := false;
      sent := [];
    }

    /** Takes the snapshot and opens the gate. */
    method MarkReady(a: Attributes)
      requires Valid()
      modifies this
      ensures Valid() && View() == Next(old(View()), Ready(a))
      ensures Describes(a, lastSent) && lastSentValid && irReady && sent == old(sent)
    {
      hide Describes;
      var onOff := Get(a.onOff, false);
      var systemMode := Get(a.systemMode, 3);
      var setpoint: Int16 := 2400;
      if systemMode == 3 {
        setpoint := Get(a.cooling, setpoint);
      } else if systemMode == 4 {
        setpoint := Get(a.heating, setpoint);
      }
      var fanMode := Get(a.fanMode, 5);
      var temp: UInt8 := TruncDiv(setpoint, 100) % 256;
      if temp < 16 {
        temp := 16;
      }
      if temp > 30 {
        temp := 30;
      }
      lastSent := AcState(onOff, SystemModeToAcMode(systemMode), temp, FanModeToSpeed(fanMode));
      DerivedDescribes(a, lastSent);
      lastSentValid := true;
      irReady := true;
    }

    /** The command of a state is in the mailbox. */
    ghost predicate Dispatched(state: AcState)
      reads this, driver, driver.pendingBuf
      requires Valid()
    {
      driver.sem == 1 && driver.pendingCount == FRAME_PULSES && driver.pendingBuf[..FRAME_PULSES] == Frame(state)
    }

    /** A frame that says what the attributes say is in the mailbox, and the record says the same. */
    ghost predicate Announced(a: Attributes)
      reads this, driver, driver.pendingBuf
      requires Valid()
    {
      && Describes(a, lastSent) && lastSentValid
      && driver.sem == 1 && driver.pendingCount == 427 && Announces(a, driver.pendingBuf[..427])
    }

    method SendIrIfChanged(a: Attributes)
      requires Valid()
      modifies this, pulses, driver`pendingCount, driver`sem, driver.pendingBuf
      ensures Valid() && View() == Next(old(View()), Changed(1, OnOff, a))
      ensures !old(irReady) || (old(lastSentValid) && Describes(a, old(lastSent))) ==> View() == old(View())
      ensures old(irReady) && !(old(lastSentValid) && Describes(a, old(lastSent))) ==>
                View() != old(View()) && Announced(a)
      ensures View() != old(View()) ==> Dispatched(Derived(a))
      ensures View() == old(View()) ==> driver.pendingBuf[..] == old(driver.pendingBuf[..])
      ensures View() == old(View()) ==> driver.sem == old(driver.sem) && driver.pendingCount == old(driver.pendingCount)
    {
      hide Frame, Describes, Announces;
      if !irReady {
        return;
      }
      DerivedDescribes(a, lastSent);
      DerivedDescribes(a, Derived(a));
      DerivedAnnounces(a);
      var onOff := Get(a.onOff, false);
      var systemMode := Get(a.systemMode, 3);
      var setpoint: Int16 := 2400;
      if systemMode == 3 {
        setpoint := Get(a.cooling, setpoint);
      } else if systemMode == 4 {
        setpoint := Get(a.heating, setpoint);
      }
      var fanMode := Get(a.fanMode, 5);
      var temp: UInt8 := TruncDiv(setpoint, 100) % 256;
      if temp < 16 {
        temp := 16;
      }
      if temp > 30 {
        temp := 30;
      }
      var state := AcState(onOff, SystemModeToAcMode(systemMode), temp, FanModeToSpeed(fanMode));
      assert state == Derived(a);
      if lastSentValid && state.power == lastSent.power && state.mode == lastSent.mode && state.temp == lastSent.temp &&
         state.fan == lastSent.fan
      {
        assert state == lastSent;
        return;
      }
      SendState(state);
    }

    /** Encodes, dispatches and remembers a state. */
    method SendState(state: AcState)
      requires Valid()
      modifies this, pulses, driver`pendingCount, driver`sem, driver.pendingBuf
      ensures Valid() && View() == Record(old(View()), state) && Dispatched(state)
    {
      hide Frame, ReadState, Effective;
      var count := AcEncodePulses(state, pulses);
      driver.DispatchCommand(pulses, count);
      assert driver.pendingBuf[..][..FRAME_PULSES] == pulses[..count];
      lastSent := state;
      lastSentValid := true;
      sent := sent + [state];
    }

    method PostAttributeChange(endpoint: nat, cluster: Cluster, a: Attributes)
      requires Valid()
      modifies this, pulses, driver`pendingCount, driver`sem, driver.pendingBuf
      ensures Valid() && View() == Next(old(View()), Changed(endpoint, cluster, a))
      ensures endpoint != 1 || cluster == OtherCluster || !old(irReady) ==> View() == old(View())
      ensures old(lastSentValid) && Describes(a, old(lastSent)) ==> View() == old(View())
      ensures endpoint == 1 && cluster != OtherCluster && old(irReady) ==>
                (old(lastSentValid) && Describes(a, old(lastSent))) || (View() != old(View()) && Announced(a))
      ensures View() != old(View()) ==> Dispatched(Derived(a))
      ensures View() == old(View()) ==> driver.pendingBuf[..] == old(driver.pendingBuf[..])
      ensures View() == old(View()) ==> driver.sem == old(driver.sem) && driver.pendingCount == old(driver.pendingCount)
    {
      hide Frame, Derived, Describes, Announces;
      if endpoint != 1 {
        return;
      }
      if cluster == OnOff {
        SendIrIfChanged(a);
      } else if cluster == Thermostat {
        SendIrIfChanged(a);
      } else if cluster == FanControl {
        SendIrIfChanged(a);
      }
    }
  }
}
