/** The infrared path from attribute changes to the air: what the callbacks dispatch, through the mailbox, is what a
    receiver decodes. */
module CommandPath {
  import opened DataStream
  import opened IrProtocol
  import opened Mailbox
  import opened ZclCallbacks

  /** Producer 0 is the thread of the callbacks; the others are shell threads, which send only this state. */
  const MATTER := 0
  const OFF_STATE := AcState(false, Cooling, 24, FanAuto)

  /** The commands of the calls of one producer, in order. */
  function CallsOf(actions: seq<Action>, i: nat): seq<Command> {
    if actions == [] then []
    else (if actions[0].Lock? && actions[0].i == i then [actions[0].command] else []) + CallsOf(actions[1..], i)
  }

  function Frames(states: seq<AcState>): (frames: seq<seq<IrPulse>>)
    ensures |frames| == |states| && forall k | 0 <= k < |states| :: frames[k] == Frame(states[k])
  {
    seq(|states|, k requires 0 <= k < |states| => Frame(states[k]))
  }

  /** The callback thread has dispatched the given states, the shell threads the off state. */
  ghost predicate Feeds(actions: seq<Action>, states: seq<AcState>) {
    && CallsOf(actions, MATTER) == Frames(states)
    && (forall j | 0 <= j < |actions| && actions[j].Lock? && actions[j].i != MATTER ::
          actions[j].command == Frame(OFF_STATE))
  }

  // ---------- where a command comes from ----------

  lemma {:induction false} CommandOrigin(actions: seq<Action>, k: nat) returns (j: nat)
    requires k < |Commands(actions)|
    ensures j < |actions| && actions[j].Lock? && actions[j].command == Commands(actions)[k]
  {
    if actions[0].Lock? && k == 0 {
      j := 0;
    } else {
      var i := CommandOrigin(actions[1..], if actions[0].Lock? then k - 1 else k);
      j := i + 1;
    }
  }

  lemma {:induction false} CallIndex(actions: seq<Action>, j: nat) returns (k: nat)
    requires j < |actions| && actions[j].Lock?
    ensures k < |CallsOf(actions, actions[j].i)| && CallsOf(actions, actions[j].i)[k] == actions[j].command
  {
    if j == 0 {
      k := 0;
    } else {
      var i := CallIndex(actions[1..], j - 1);
      k := if actions[0].Lock? && actions[0].i == actions[j].i then i + 1 else i;
    }
  }

  /** Every command is the frame of a state of the callbacks or of the off state. */
  lemma CommandState(actions: seq<Action>, states: seq<AcState>, k: nat) returns (state: AcState)
    requires Feeds(actions, states) && k < |Commands(actions)|
    ensures (state == OFF_STATE || state in states) && Commands(actions)[k] == Frame(state)
  {
    hide Frame, Commands, CallsOf;
    var j := CommandOrigin(actions, k);
    if actions[j].i == MATTER {
      var n := CallIndex(actions, j);
      state := states[n];
    } else {
      state := OFF_STATE;
    }
  }

  lemma {:induction false} ChangesAreStates(from: AcState, states: seq<AcState>, state: AcState)
    requires state in Changes(from, states)
    ensures state in states
  {
    if states != [] {
      var n := |states| - 1;
      if state in Changes(from, states[..n]) {
        ChangesAreStates(from, states[..n], state);
      }
    }
  }

  /** A frame that a receiver reads as: off, 24 degrees, automatic fan. */
  ghost predicate SaysOff(pulses: seq<IrPulse>) {
    ReadState(pulses) == Some(AcState(false, Heating, 24, FanAuto))
  }

  lemma OffStateSaysOff()
    ensures SaysOff(Frame(OFF_STATE))
  {
    hide Frame, ReadState;
    StateRoundTrip(OFF_STATE);
  }

  /** Every derived state comes from the attributes at a relevant callback. */
  lemma {:induction false} StateOrigin(events: seq<Event>, state: AcState) returns (i: nat)
    requires state in StatesAt(events)
    ensures i < |events| && Relevant(events[i]) && state == Derived(events[i].attributes)
  {
    hide Derived;
    var n := |events| - 1;
    if state in StatesAt(events[..n]) {
      i := StateOrigin(events[..n], state);
    } else {
      i := n;
    }
  }

  /** Everything on air decodes to the off state or to a state derived at a relevant callback: in every run of the
      callbacks with one start-up signal, and every interleaving of any number of threads. */
  lemma OnAirIsDerived(t: Tracker, before: seq<Event>, boot: Attributes, after: seq<Event>, s: System,
                       actions: seq<Action>, k: nat)
    returns (state: AcState)
    requires !t.ready && t.sent == [] && OnlyChanges(before) && OnlyChanges(after)
    requires Initial(s) && Runs(s, actions) && k < |After(s, actions).trace|
    requires Feeds(actions, Run(t, before + [Ready(boot)] + after).sent)
    ensures state == OFF_STATE || state in StatesAt(after)
    ensures ReadState(After(s, actions).trace[k].pulses) == Some(Effective(state))
    ensures var pulses := After(s, actions).trace[k].pulses;
            SaysOff(pulses) ||
            exists i: nat :: i < |after| && Relevant(after[i]) && Announces(after[i].attributes, pulses)
  {
    hide *;
    RunDispatches(t, before, boot, after);
    Safety(s, actions);
    var sent := Run(t, before + [Ready(boot)] + after).sent;
    state := CommandState(actions, sent, After(s, actions).trace[k].generation - 1);
    if state != OFF_STATE {
      ChangesAreStates(Derived(boot), StatesAt(after), state);
      var i := StateOrigin(after, state);
      DerivedAnnounces(after[i].attributes);
    }
    OffStateSaysOff();
    StateRoundTrip(state);
  }

  // ---------- the newest command ----------

  /** The last dispatch call that got the mutex. */
  function LastCall(actions: seq<Action>): (last: Option<Action>)
    ensures last != None ==> last.value.Lock?
  {
    if actions == [] then None
    else if LastCall(actions[1..]) != None then LastCall(actions[1..])
    else if actions[0].Lock? then Some(actions[0])
    else None
  }

  lemma {:induction false} LastCallIsLast(actions: seq<Action>)
    ensures LastCall(actions) == None ==> Commands(actions) == [] && forall i: nat :: CallsOf(actions, i) == []
    ensures LastCall(actions) != None ==>
              var a, all := LastCall(actions).value, Commands(actions);
              var own := CallsOf(actions, a.i);
              all != [] && own != [] && all[|all| - 1] == own[|own| - 1] == a.command
  {
    hide Commands, CallsOf;
    if actions == [] {
      NoCalls();
    } else {
      LastCallIsLast(actions[1..]);
      forall i: nat
        ensures CallsOf(actions, i) ==
                (if actions[0].Lock? && actions[0].i == i then [actions[0].command] else []) + CallsOf(actions[1..], i)
      {
        FirstCall(actions, i);
      }
      FirstCall(actions, 0);
    }
  }

  lemma NoCalls()
    ensures Commands([]) == [] && forall i: nat :: CallsOf([], i) == []
  {
  }

  lemma FirstCall(actions: seq<Action>, i: nat)
    requires actions != []
    ensures Commands(actions) == (if actions[0].Lock? then [actions[0].command] else []) + Commands(actions[1..])
    ensures CallsOf(actions, i) ==
            (if actions[0].Lock? && actions[0].i == i then [actions[0].command] else []) + CallsOf(actions[1..], i)
  {
  }

  lemma {:induction false} LastCallAt(actions: seq<Action>)
    requires LastCall(actions) != None
    ensures exists j :: 0 <= j < |actions| && actions[j] == LastCall(actions).value
  {
    if LastCall(actions[1..]) != None {
      LastCallAt(actions[1..]);
      var j :| 0 <= j < |actions[1..]| && actions[1..][j] == LastCall(actions[1..]).value;
      assert actions[j + 1] == LastCall(actions).value;
    } else {
      assert actions[0] == LastCall(actions).value;
    }
  }

  /** The attributes at the last relevant callback, or at start-up if there was none. */
  function LatestAttributes(boot: Attributes, events: seq<Event>): Attributes {
    if events == [] then boot
    else if Relevant(events[|events| - 1]) then events[|events| - 1].attributes
    else LatestAttributes(boot, events[..|events| - 1])
  }

  lemma {:induction false} LatestIsDerived(boot: Attributes, events: seq<Event>)
    ensures Latest(Derived(boot), StatesAt(events)) == Derived(LatestAttributes(boot, events))
  {
    hide Derived;
    if events != [] {
      LatestIsDerived(boot, events[..|events| - 1]);
      if !Relevant(events[|events| - 1]) {
        assert StatesAt(events) == StatesAt(events[..|events| - 1]);
      }
    }
  }

  /** The state of the last call. */
  lemma LastState(actions: seq<Action>, from: AcState, states: seq<AcState>)
    requires Feeds(actions, states) && LastCall(actions) != None
    ensures Commands(actions) != []
    ensures Commands(actions)[|Commands(actions)| - 1] ==
            Frame(if LastCall(actions).value.i == MATTER then Latest(from, states) else OFF_STATE)
  {
    hide Frame, Commands, CallsOf, LastCall;
    LastCallIsLast(actions);
    LastCallAt(actions);
  }

  /** Once no more calls start and no step is left, the last transmission decodes to the state derived at the last
      relevant callback, if the callbacks were the last to dispatch, and to the off state if a shell was. */
  lemma NewestOnAir(t: Tracker, before: seq<Event>, boot: Attributes, after: seq<Event>, s: System,
                    actions: seq<Action>, rest: seq<Action>)
    requires !t.ready && t.sent == [] && OnlyChanges(before) && OnlyChanges(after)
    requires Initial(s) && Runs(s, actions) && Runs(After(s, actions), rest) && NoNewCalls(rest)
    requires Feeds(actions, Run(t, before + [Ready(boot)] + after).sent) && LastCall(actions) != None
    requires Quiet(After(After(s, actions), rest)) && AtRest(After(After(s, actions), rest))
    ensures var trace := After(After(s, actions), rest).trace;
            var byCallbacks := LastCall(actions).value.i == MATTER;
            var newest := if byCallbacks then Latest(Derived(boot), StatesAt(after)) else OFF_STATE;
            trace != [] && ReadState(trace[|trace| - 1].pulses) == Some(Effective(newest))
    ensures var last := After(After(s, actions), rest).trace[|After(After(s, actions), rest).trace| - 1].pulses;
            if LastCall(actions).value.i == MATTER then Announces(LatestAttributes(boot, after), last)
            else SaysOff(last)
  {
    hide *;
    LatestIsDerived(boot, after);
    DerivedAnnounces(LatestAttributes(boot, after));
    OffStateSaysOff();
    Tracks(t, before, boot, after);
    var sent := Run(t, before + [Ready(boot)] + after).sent;
    LastState(actions, Derived(boot), sent);
    Delivery(s, actions, rest);
    StateRoundTrip(if LastCall(actions).value.i == MATTER then Latest(Derived(boot), sent) else OFF_STATE);
  }
}
