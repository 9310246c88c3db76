/** The one-slot mailbox between the threads that dispatch infrared commands and the thread that transmits them: any
    number of producers, one consumer, a mutex and a binary semaphore, interleaved step by step. */
module Mailbox {
  import opened IrProtocol

  const RETRY_COUNT := 10

  /** The argument of a dispatch call. */
  type Command = c: seq<IrPulse> | |c| <= IR_MAX_PULSES witness []

  /** Where a producer is in its dispatch call. While Writing it holds the mutex; `counted` says that the count has been
      stored, `copied` is the number of pulses copied so far. */
  datatype Producer = Idle | Writing(command: Command, counted: bool, copied: nat) | Giving

  datatype Owner = Free | HeldByProducer(i: nat) | HeldByConsumer

  /** Where the consumer is in its loop. While Copying it holds the mutex; then it transmits and listens, attempt by
      attempt. */
  datatype Consumer =
    | Waiting | Taken | Copying(counted: bool, copied: nat) | Sending(attempt: nat) | Listening(attempt: nat)

  /** One transmission: what went on air, of which copy it was an attempt, and whether it was acknowledged. The
      generation numbers the dispatch calls in the order in which they got the mutex, from 1. */
  datatype Transmission = Transmission(pulses: seq<IrPulse>, generation: nat, attempt: nat, acked: bool)

  /** Shared variables, the two threads' places, and the record of what happened: `dispatched` lists the commands in the
      order of the mutex, `generation` is that of the last completed copy, or 0. */
  datatype System = System(
    producers: seq<Producer>, owner: Owner, sem: nat,
    pendingBuf: seq<IrPulse>, pendingCount: nat,
    consumer: Consumer, activeBuf: seq<IrPulse>, activeCount: nat,
    dispatched: seq<Command>, generation: nat, trace: seq<Transmission>)

  datatype Action =
    | Lock(i: nat, command: Command) | StoreCount(i: nat) | StorePulse(i: nat) | Unlock(i: nat) | Give(i: nat)
    | Take | LockMailbox | FetchCount | FetchPulse | UnlockMailbox | Transmit | Reply(ack: bool)

  predicate IsConsumerAction(a: Action) {
    a.Take? || a.LockMailbox? || a.FetchCount? || a.FetchPulse? || a.UnlockMailbox? || a.Transmit? || a.Reply?
  }

  predicate Initial(s: System) {
    && (forall i | 0 <= i < |s.producers| :: s.producers[i] == Idle)
    && s.owner == Free && s.sem == 0 && s.consumer == Waiting
    && |s.pendingBuf| == |s.activeBuf| == IR_MAX_PULSES && s.pendingCount == s.activeCount == 0
    && s.dispatched == [] && s.generation == 0 && s.trace == []
  }

  // ---------- the steps ----------

  /** Whether a thread can take this step now; a thread that cannot is blocked, or elsewhere in its code. */
  predicate Enabled(s: System, a: Action) {
    match a
    case Lock(i, c) => i < |s.producers| && s.producers[i] == Idle && s.owner == Free
    case StoreCount(i) => i < |s.producers| && s.producers[i].Writing? && !s.producers[i].counted
    case StorePulse(i) =>
      i < |s.producers| && s.producers[i].Writing? && s.producers[i].counted &&
      s.producers[i].copied < |s.producers[i].command| && s.producers[i].copied < |s.pendingBuf|
    case Unlock(i) =>
      i < |s.producers| && s.producers[i].Writing? && s.producers[i].counted &&
        s.producers[i].copied == |s.producers[i].command|
    case Give(i) => i < |s.producers| && s.producers[i] == Giving
    case Take => s.consumer == Waiting && s.sem > 0
    case LockMailbox => s.consumer == Taken && s.owner == Free
    case FetchCount => s.consumer.Copying? && !s.consumer.counted
    case FetchPulse =>
      s.consumer.Copying? && s.consumer.counted && s.consumer.copied < s.pendingCount &&
      s.consumer.copied < |s.pendingBuf| && s.consumer.copied < |s.activeBuf|
    case UnlockMailbox => s.consumer.Copying? && s.consumer.counted && s.consumer.copied == s.pendingCount
    case Transmit => s.consumer.Sending? && s.activeCount <= |s.activeBuf|
    case Reply(ack) => s.consumer.Listening? && s.trace != []
  }

  function WithProducer(s: System, i: nat, p: Producer): System
    requires i < |s.producers|
  {
    s.(producers := s.producers[i := p])
  }

  function Step(s: System, a: Action): System
    requires Enabled(s, a)
  {
    match a
    case Lock(i, c) =>
      WithProducer(s, i, Writing(c, false, 0)).(owner := HeldByProducer(i), dispatched := s.dispatched + [c])
    case StoreCount(i) =>
      WithProducer(s, i, s.producers[i].(counted := true)).(pendingCount := |s.producers[i].command|)
    case StorePulse(i) =>
      var p := s.producers[i];
      WithProducer(s, i, p.(copied := p.copied + 1)).(pendingBuf := s.pendingBuf[p.copied := p.command[p.copied]])
    case Unlock(i) => WithProducer(s, i, Giving).(owner := Free)
    case Give(i) => WithProducer(s, i, Idle).(sem := 1)
    case Take => s.(sem := s.sem - 1, consumer := Taken)
    case LockMailbox => s.(owner := HeldByConsumer, consumer := Copying(false, 0))
    case FetchCount => s.(activeCount := s.pendingCount, consumer := Copying(true, 0))
    case FetchPulse =>
      var k := s.consumer.copied;
      s.(activeBuf := s.activeBuf[k := s.pendingBuf[k]], consumer := Copying(true, k + 1))
    case UnlockMailbox => s.(owner := Free, consumer := Sending(1), generation := |s.dispatched|)
    case Transmit =>
      s.(trace := s.trace + [Transmission(s.activeBuf[..s.activeCount], s.generation, s.consumer.attempt, false)],
         consumer := Listening(s.consumer.attempt))
    case Reply(ack) =>
      var n := |s.trace| - 1;
      s.(trace := s.trace[n := s.trace[n].(acked := ack)],
         consumer := if ack || s.consumer.attempt >= RETRY_COUNT then Waiting else Sending(s.consumer.attempt + 1))
  }

  /** A run: every action is enabled where it is taken. */
  predicate Runs(s: System, actions: seq<Action>)
    decreases |actions|
  {
    actions == [] || (Enabled(s, actions[0]) && Runs(Step(s, actions[0]), actions[1..]))
  }

  function After(s: System, actions: seq<Action>): System
    requires Runs(s, actions)
    decreases |actions|
  {
    if actions == [] then s else After(Step(s, actions[0]), actions[1..])
  }

  // ---------- the invariant ----------

  ghost predicate SizesOk(s: System) {
    && |s.pendingBuf| == |s.activeBuf| == IR_MAX_PULSES
    && s.pendingCount <= IR_MAX_PULSES && s.activeCount <= IR_MAX_PULSES && s.sem <= 1
  }

  /** Mutual exclusion: whoever is inside a critical section owns the mutex. */
  ghost predicate Exclusion(s: System) {
    && (forall i | 0 <= i < |s.producers| :: s.producers[i].Writing? <==> s.owner == HeldByProducer(i))
    && (s.consumer.Copying? <==> s.owner == HeldByConsumer)
    && (s.owner.HeldByProducer? ==> s.owner.i < |s.producers|)
  }

  /** A producer inside its critical section has stored a part of the newest command. */
  ghost predicate PartlyStored(s: System) {
    s.owner.HeldByProducer? && s.owner.i < |s.producers| && s.producers[s.owner.i].Writing? ==>
      var p := s.producers[s.owner.i];
      && s.dispatched != [] && s.dispatched[|s.dispatched| - 1] == p.command && p.copied <= |p.command|
      && (if p.counted then s.pendingCount == |p.command| else p.copied == 0)
      && p.copied <= |s.pendingBuf| && s.pendingBuf[..p.copied] == p.command[..p.copied]
  }

  /** With no producer inside, the mailbox holds the whole newest command. */
  ghost predicate FullyStored(s: System) {
    !s.owner.HeldByProducer? && s.dispatched != [] ==>
      && s.pendingCount == |s.dispatched[|s.dispatched| - 1]| <= |s.pendingBuf|
      && s.pendingBuf[..s.pendingCount] == s.dispatched[|s.dispatched| - 1]
  }

  /** The consumer has fetched a part of the mailbox. */
  ghost predicate PartlyFetched(s: System) {
    s.consumer.Copying? ==>
      var k := s.consumer.copied;
      && s.dispatched != [] && k <= s.pendingCount
      && (if s.consumer.counted then s.activeCount == s.pendingCount else k == 0)
      && k <= |s.activeBuf| && k <= |s.pendingBuf| && s.activeBuf[..k] == s.pendingBuf[..k]
  }

  /** Between copies the active buffer holds one complete dispatched command. */
  ghost predicate Fetched(s: System) {
    && s.generation <= |s.dispatched|
    && (s.consumer.Sending? || s.consumer.Listening? ==>
          && 1 <= s.consumer.attempt <= 10 && 1 <= s.generation
          && s.activeCount == |s.dispatched[s.generation - 1]| <= |s.activeBuf|
          && s.activeBuf[..s.activeCount] == s.dispatched[s.generation - 1])
  }

  ghost predicate Notified(s: System) {
    || s.sem == 1 || s.consumer == Taken || s.consumer.Copying?
    || exists i :: 0 <= i < |s.producers| && s.producers[i] != Idle
  }

  /** No lost wakeup: while the newest command has not been copied, the semaphore is up, or the consumer is between
      take and copy, or a producer is about to give. */
  ghost predicate NoLostWakeup(s: System) {
    s.generation < |s.dispatched| ==> Notified(s)
  }

  /** Nothing is signalled before there is a command. */
  ghost predicate NoEarlyWakeup(s: System) {
    Notified(s) ==> s.dispatched != []
  }

  /** One transmission: a complete command, unmodified. */
  ghost predicate Whole(s: System, t: Transmission) {
    1 <= t.generation <= |s.dispatched| && t.pulses == s.dispatched[t.generation - 1] && 1 <= t.attempt <= 10
  }

  /** How one transmission follows another: a retry of the same copy exactly when the earlier one was not acknowledged
      and was not the last attempt; otherwise the first attempt of a copy that is not older. */
  ghost predicate Follows(t: Transmission, u: Transmission) {
    if t.acked || t.attempt == 10 then u.attempt == 1 && t.generation <= u.generation
    else u.attempt == t.attempt + 1 && u.generation == t.generation && u.pulses == t.pulses
  }

  ghost predicate TraceOk(s: System) {
    && (forall k | 0 <= k < |s.trace| :: Whole(s, s.trace[k]) && s.trace[k].generation <= s.generation)
    && (forall k | 0 < k < |s.trace| :: Follows(s.trace[k - 1], s.trace[k]))
    && (s.trace != [] ==> s.trace[0].attempt == 1)
  }

  /** How the end of the trace relates to where the consumer is. */
  ghost predicate TraceEnd(s: System) {
    var n := |s.trace| - 1;
    match s.consumer
    case Listening(a) => 0 <= n && s.trace[n].attempt == a && s.trace[n].generation == s.generation && !s.trace[n].acked
    case Sending(a) =>
      if a == 1 then 0 <= n ==> s.trace[n].acked || s.trace[n].attempt == 10
      else 0 <= n && s.trace[n].attempt == a - 1 && s.trace[n].generation == s.generation && !s.trace[n].acked
    case _ =>
      && (s.generation > 0 ==> 0 <= n && s.trace[n].generation == s.generation)
      && (0 <= n ==> s.trace[n].acked || s.trace[n].attempt == 10)
  }

  ghost predicate Inv(s: System) {
    && SizesOk(s) && Exclusion(s) && PartlyStored(s) && FullyStored(s) && PartlyFetched(s) && Fetched(s)
    && NoLostWakeup(s) && NoEarlyWakeup(s) && TraceOk(s) && TraceEnd(s)
  }

  lemma InitialInv(s: System)
    requires Initial(s)
    ensures Inv(s)
  {
  }

  // ---------- every step keeps the invariant ----------

  lemma LockKeeps(s: System, i: nat, c: Command)
    requires Inv(s) && Enabled(s, Lock(i, c))
    ensures Inv(Step(s, Lock(i, c)))
  {
    var t := Step(s, Lock(i, c));
    assert t.producers[i] != Idle;
    TraceKept(s, t);
  }

  /** The trace part of the invariant survives whatever leaves the trace alone. */
  lemma TraceOkKept(s: System, t: System)
    requires TraceOk(s) && t.trace == s.trace && t.generation == s.generation && s.dispatched <= t.dispatched
    ensures TraceOk(t)
  {
    hide Follows;
    forall k | 0 <= k < |t.trace|
      ensures Whole(t, t.trace[k]) && t.trace[k].generation <= t.generation
    {
      assert Whole(s, s.trace[k]);
    }
  }

  lemma TraceKept(s: System, t: System)
    requires TraceOk(s) && TraceEnd(s) && t.trace == s.trace && t.consumer == s.consumer && t.generation == s.generation
    requires s.dispatched <= t.dispatched
    ensures TraceOk(t) && TraceEnd(t)
  {
    hide TraceOk;
    TraceOkKept(s, t);
  }

  lemma StoreCountKeeps(s: System, i: nat)
    requires Inv(s) && Enabled(s, StoreCount(i))
    ensures Inv(Step(s, StoreCount(i)))
  {
    var t := Step(s, StoreCount(i));
    assert t.producers[i] != Idle;
    TraceKept(s, t);
  }

  lemma StorePulseKeeps(s: System, i: nat)
    requires Inv(s) && Enabled(s, StorePulse(i))
    ensures Inv(Step(s, StorePulse(i)))
  {
    var t := Step(s, StorePulse(i));
    assert t.producers[i] != Idle;
    TraceKept(s, t);
  }

  lemma UnlockKeeps(s: System, i: nat)
    requires Inv(s) && Enabled(s, Unlock(i))
    ensures Inv(Step(s, Unlock(i)))
  {
    var t := Step(s, Unlock(i));
    assert t.producers[i] != Idle && s.producers[i] != Idle;
    TraceKept(s, t);
  }

  lemma GiveKeeps(s: System, i: nat)
    requires Inv(s) && Enabled(s, Give(i))
    ensures Inv(Step(s, Give(i)))
  {
    var t := Step(s, Give(i));
    assert s.producers[i] != Idle;
    TraceKept(s, t);
  }

  lemma TakeKeeps(s: System)
    requires Inv(s) && Enabled(s, Take)
    ensures Inv(Step(s, Take))
  {
    hide TraceOk;
    assert Notified(s);
    TraceOkKept(s, Step(s, Take));
  }

  lemma LockMailboxKeeps(s: System)
    requires Inv(s) && Enabled(s, LockMailbox)
    ensures Inv(Step(s, LockMailbox))
  {
    hide TraceOk;
    assert Notified(s);
    TraceOkKept(s, Step(s, LockMailbox));
  }

  lemma FetchCountKeeps(s: System)
    requires Inv(s) && Enabled(s, FetchCount)
    ensures Inv(Step(s, FetchCount))
  {
    hide TraceOk;
    TraceOkKept(s, Step(s, FetchCount));
  }

  lemma FetchPulseKeeps(s: System)
    requires Inv(s) && Enabled(s, FetchPulse)
    ensures Inv(Step(s, FetchPulse))
  {
    hide TraceOk;
    TraceOkKept(s, Step(s, FetchPulse));
  }

  lemma UnlockMailboxKeeps(s: System)
    requires Inv(s) && Enabled(s, UnlockMailbox)
    ensures Inv(Step(s, UnlockMailbox))
  {
    var t := Step(s, UnlockMailbox);
    forall k | 0 <= k < |t.trace|
      ensures Whole(t, t.trace[k]) && t.trace[k].generation <= t.generation
    {
      assert Whole(s, s.trace[k]);
    }
  }

  /** Appending a transmission that is whole and follows the last one. */
  lemma TraceExtended(s: System, t: System, u: Transmission)
    requires TraceOk(s) && t.trace == s.trace + [u] && t.dispatched == s.dispatched && t.generation == s.generation
    requires Whole(s, u) && u.generation <= s.generation
    requires if s.trace == [] then u.attempt == 1 else Follows(s.trace[|s.trace| - 1], u)
    ensures TraceOk(t)
  {
    hide Follows;
    forall k | 0 <= k < |t.trace|
      ensures Whole(t, t.trace[k]) && t.trace[k].generation <= t.generation
    {
      assert k < |s.trace| ==> Whole(s, s.trace[k]);
    }
    forall k | 0 < k < |t.trace|
      ensures Follows(t.trace[k - 1], t.trace[k])
    {
      assert k < |s.trace| ==> Follows(s.trace[k - 1], s.trace[k]);
    }
  }

  lemma TransmitKeeps(s: System)
    requires Inv(s) && Enabled(s, Transmit)
    ensures Inv(Step(s, Transmit))
  {
    var t := Step(s, Transmit);
    var u := t.trace[|s.trace|];
    if s.trace != [] {
      assert Whole(s, s.trace[|s.trace| - 1]);
    }
    TraceExtended(s, t, u);
  }

  /** Marking the last transmission as acknowledged or not. */
  lemma TraceMarked(s: System, t: System, ack: bool)
    requires TraceOk(s) && s.trace != [] && t.dispatched == s.dispatched && t.generation == s.generation
    requires t.trace == s.trace[|s.trace| - 1 := s.trace[|s.trace| - 1].(acked := ack)]
    ensures TraceOk(t)
  {
    forall k | 0 <= k < |t.trace|
      ensures Whole(t, t.trace[k]) && t.trace[k].generation <= t.generation
    {
      assert Whole(s, s.trace[k]);
    }
    forall k | 0 < k < |t.trace|
      ensures Follows(t.trace[k - 1], t.trace[k])
    {
      assert Follows(s.trace[k - 1], s.trace[k]);
    }
  }

  lemma ReplyKeeps(s: System, ack: bool)
    requires Inv(s) && Enabled(s, Reply(ack))
    ensures Inv(Step(s, Reply(ack)))
  {
    hide Whole, Follows, TraceOk;
    TraceMarked(s, Step(s, Reply(ack)), ack);
  }

  lemma StepInv(s: System, a: Action)
    requires Inv(s) && Enabled(s, a)
    ensures Inv(Step(s, a))
  {
    hide Inv, Enabled, Step;
    match a
    case Lock(i, c) => LockKeeps(s, i, c);
    case StoreCount(i) => StoreCountKeeps(s, i);
    case StorePulse(i) => StorePulseKeeps(s, i);
    case Unlock(i) => UnlockKeeps(s, i);
    case Give(i) => GiveKeeps(s, i);
    case Take => TakeKeeps(s);
    case LockMailbox => LockMailboxKeeps(s);
    case FetchCount => FetchCountKeeps(s);
    case FetchPulse => FetchPulseKeeps(s);
    case UnlockMailbox => UnlockMailboxKeeps(s);
    case Transmit => TransmitKeeps(s);
    case Reply(ack) => ReplyKeeps(s, ack);
  }

  /** The invariant holds after every run from a state in which it holds. */
  lemma {:induction false} RunInv(s: System, actions: seq<Action>)
    requires Inv(s) && Runs(s, actions)
    ensures Inv(After(s, actions))
    decreases |actions|
  {
    hide Inv, Enabled, Step;
    if actions != [] {
      StepInv(s, actions[0]);
      RunInv(Step(s, actions[0]), actions[1..]);
    }
  }

  // ---------- safety over all runs ----------

  /** The commands of the dispatch calls of a run, in the order in which they got the mutex. */
  function Commands(actions: seq<Action>): seq<Command> {
    if actions == [] then []
    else (if actions[0].Lock? then [actions[0].command] else []) + Commands(actions[1..])
  }

  lemma {:induction false} RunDispatched(s: System, actions: seq<Action>)
    requires Runs(s, actions)
    ensures After(s, actions).dispatched == s.dispatched + Commands(actions)
    decreases |actions|
  {
    hide Step, Enabled;
    if actions == [] {
      assert s.dispatched + Commands(actions) == s.dispatched;
    } else {
      RunDispatched(Step(s, actions[0]), actions[1..]);
      DispatchedStep(s, actions[0]);
      var first: seq<Command> := if actions[0].Lock? then [actions[0].command] else [];
      assert s.dispatched + (first + Commands(actions[1..])) == s.dispatched + first + Commands(actions[1..]);
    }
  }

  lemma DispatchedStep(s: System, a: Action)
    requires Enabled(s, a)
    ensures Step(s, a).dispatched == s.dispatched + if a.Lock? then [a.command] else []
  {
  }

  lemma {:induction false} GenerationsAscend(s: System, j: nat, k: nat)
    requires TraceOk(s) && j <= k < |s.trace|
    ensures s.trace[j].generation <= s.trace[k].generation
    decreases k
  {
    if j < k {
      GenerationsAscend(s, j, k - 1);
      assert Follows(s.trace[k - 1], s.trace[k]);
    }
  }

  /** In every run, with any number of producers: whatever is transmitted is the complete command of one of the
      dispatch calls (never a mixture), commands are never transmitted after later ones, and each copy goes on air one
      to ten times, until the first acknowledgement. */
  lemma Safety(s: System, actions: seq<Action>)
    requires Initial(s) && Runs(s, actions)
    ensures var trace, commands := After(s, actions).trace, Commands(actions);
            && (forall k | 0 <= k < |trace| ::
                  1 <= trace[k].generation <= |commands| && trace[k].pulses == commands[trace[k].generation - 1] &&
                  1 <= trace[k].attempt <= 10)
            && (forall j, k | 0 <= j <= k < |trace| :: trace[j].generation <= trace[k].generation)
            && (forall k | 0 < k < |trace| :: Follows(trace[k - 1], trace[k]))
            && (trace != [] ==> trace[0].attempt == 1)
    ensures Exclusion(After(s, actions)) && NoLostWakeup(After(s, actions))
  {
    hide Follows, Runs, After, Step, Enabled;
    InitialInv(s);
    RunInv(s, actions);
    RunDispatched(s, actions);
    var t := After(s, actions);
    assert t.dispatched == Commands(actions);
    forall k | 0 <= k < |t.trace|
      ensures 1 <= t.trace[k].generation <= |t.dispatched| &&
              t.trace[k].pulses == t.dispatched[t.trace[k].generation - 1]
      ensures 1 <= t.trace[k].attempt <= 10
    {
      assert Whole(t, t.trace[k]);
    }
    forall j, k | 0 <= j <= k < |t.trace|
      ensures t.trace[j].generation <= t.trace[k].generation
    {
      GenerationsAscend(t, j, k);
    }
  }

  // ---------- delivery ----------

  /** No dispatch call is under way. */
  ghost predicate Quiet(s: System) {
    forall i | 0 <= i < |s.producers| :: s.producers[i] == Idle
  }

  /** The consumer sleeps on the semaphore. */
  ghost predicate AtRest(s: System) {
    s.consumer == Waiting && s.sem == 0
  }

  /** Steps of a round of the consumer: take, copy of the longest command, ten attempts. */
  const ROUND := IR_MAX_PULSES + 24

  /** An upper bound for the number of steps that the consumer can take before it needs another signal. */
  ghost function ConsumerRank(s: System): int {
    (if s.sem > 0 then ROUND else 0) +
    match s.consumer
    case Waiting => 0
    case Taken => ROUND - 1
    case Copying(counted, k) => if counted then s.pendingCount - k + 21 else ROUND - 2
    case Sending(a) => 2 * (11 - a)
    case Listening(a) => 2 * (11 - a) - 1
  }

  /** The steps that a call under way can still take, and the round that its signal can cause. */
  ghost function ProducerRank(p: Producer): int {
    match p
    case Idle => 0
    case Writing(c, counted, k) => ROUND + 2 + |c| - k + if counted then 0 else 1
    case Giving => ROUND + 1
  }

  ghost function ProducersRank(ps: seq<Producer>): int {
    if ps == [] then 0 else ProducersRank(ps[..|ps| - 1]) + ProducerRank(ps[|ps| - 1])
  }

  /** The number of dispatch calls under way. */
  ghost function Busy(ps: seq<Producer>): nat {
    if ps == [] then 0 else Busy(ps[..|ps| - 1]) + if ps[|ps| - 1] == Idle then 0 else 1
  }

  ghost function Rank(s: System): int {
    ConsumerRank(s) + ProducersRank(s.producers)
  }

  lemma {:induction false} OneProducerMoves(ps: seq<Producer>, i: nat, p: Producer)
    requires i < |ps|
    ensures ProducersRank(ps[i := p]) == ProducersRank(ps) - ProducerRank(ps[i]) + ProducerRank(p)
    decreases |ps|
  {
    hide ProducerRank;
    var n := |ps| - 1;
    if i == n {
      assert ps[i := p][..n] == ps[..n];
    } else {
      OneProducerMoves(ps[..n], i, p);
      assert ps[i := p][..n] == ps[..n][i := p];
    }
  }

  lemma {:induction false} ProducersRankBounds(ps: seq<Producer>)
    requires forall i | 0 <= i < |ps| && ps[i].Writing? :: ps[i].copied <= |ps[i].command|
    ensures 0 <= ProducersRank(ps) <= (ROUND + IR_MAX_PULSES + 3) * Busy(ps)
    ensures (forall i | 0 <= i < |ps| :: ps[i] == Idle) ==> Busy(ps) == 0
  {
    if ps != [] {
      ProducersRankBounds(ps[..|ps| - 1]);
    }
  }

  lemma RankBounds(s: System)
    requires Inv(s)
    ensures 0 <= Rank(s) <= 2 * ROUND - 1 + (ROUND + IR_MAX_PULSES + 3) * Busy(s.producers)
    ensures Quiet(s) ==> Busy(s.producers) == 0
  {
    hide TraceOk, TraceEnd, ProducersRank, Busy;
    ProducersRankBounds(s.producers);
  }

  /** Every consumer step uses up some of the bound and changes nothing for the producers. */
  lemma ConsumerStep(s: System, a: Action)
    requires Inv(s) && Enabled(s, a) && IsConsumerAction(a)
    ensures Rank(Step(s, a)) < Rank(s) && Step(s, a).producers == s.producers && Step(s, a).dispatched == s.dispatched
  {
    hide TraceOk, TraceEnd, ProducersRank;
  }

  /** So does every producer step that does not start a call, the signal included. */
  lemma ProducerStep(s: System, a: Action)
    requires Inv(s) && Enabled(s, a) && !IsConsumerAction(a) && !a.Lock?
    ensures Rank(Step(s, a)) < Rank(s) && Step(s, a).dispatched == s.dispatched
  {
    hide TraceOk, TraceEnd, ProducersRank;
    var t := Step(s, a);
    OneProducerMoves(s.producers, a.i, t.producers[a.i]);
  }

  /** The step that the consumer takes next. */
  ghost function NextStep(s: System, ack: bool): Action {
    match s.consumer
    case Waiting => Take
    case Taken => LockMailbox
    case Copying(counted, k) =>
      if !counted then FetchCount else if k < s.pendingCount then FetchPulse else UnlockMailbox
    case Sending(_) => Transmit
    case Listening(_) => Reply(ack)
  }

  /** With no dispatch call under way nothing blocks the consumer until it is at rest. */
  lemma NeverBlocked(s: System, ack: bool)
    requires Inv(s) && Quiet(s) && !AtRest(s)
    ensures Enabled(s, NextStep(s, ack)) && IsConsumerAction(NextStep(s, ack))
  {
    hide TraceOk;
  }

  /** At rest, the newest command was copied, and the last transmission was its last attempt or was acknowledged. */
  lemma RestMeansDelivered(s: System)
    requires Inv(s) && Quiet(s) && AtRest(s) && s.dispatched != []
    ensures s.trace != [] && s.trace[|s.trace| - 1].generation == |s.dispatched|
    ensures s.trace[|s.trace| - 1].pulses == s.dispatched[|s.dispatched| - 1]
    ensures s.trace[|s.trace| - 1].acked || s.trace[|s.trace| - 1].attempt == 10
  {
    hide Follows;
    assert !Notified(s);
    assert Whole(s, s.trace[|s.trace| - 1]);
  }

  /** No deadlock: as long as a dispatch call is under way or the consumer is not at rest, some thread can take a step
      that does not start another call. */
  lemma NoDeadlock(s: System)
    requires Inv(s) && !(Quiet(s) && AtRest(s))
    ensures exists a: Action :: !a.Lock? && Enabled(s, a)
  {
    hide TraceOk, TraceEnd;
    if Quiet(s) {
      NeverBlocked(s, true);
    } else {
      var i :| 0 <= i < |s.producers| && s.producers[i] != Idle;
      var p := s.producers[i];
      if p == Giving {
        assert Enabled(s, Give(i));
      } else if !p.counted {
        assert Enabled(s, StoreCount(i));
      } else if p.copied < |p.command| {
        assert Enabled(s, StorePulse(i));
      } else {
        assert Enabled(s, Unlock(i));
      }
    }
  }

  /** No action of the run starts a dispatch call. */
  ghost predicate NoNewCalls(actions: seq<Action>) {
    forall i | 0 <= i < |actions| :: !actions[i].Lock?
  }

  /** Once no more calls start, every run of all threads together is short. */
  lemma {:induction false} BoundedRun(s: System, actions: seq<Action>)
    requires Inv(s) && Runs(s, actions) && NoNewCalls(actions)
    ensures Inv(After(s, actions)) && After(s, actions).dispatched == s.dispatched
    ensures |actions| + Rank(After(s, actions)) <= Rank(s)
    decreases |actions|
  {
    hide Inv, Enabled, Step, Rank;
    if actions != [] {
      StepInv(s, actions[0]);
      if IsConsumerAction(actions[0]) {
        ConsumerStep(s, actions[0]);
      } else {
        ProducerStep(s, actions[0]);
      }
      BoundedRun(Step(s, actions[0]), actions[1..]);
    }
  }

  /** Delivery: after any run, if no further call starts, at most 907 more steps follow plus 887 for each call under
      way, in any interleaving and whatever the replies; and when no step is left the newest command has been
      transmitted last. */
  lemma Delivery(s: System, actions: seq<Action>, rest: seq<Action>)
    requires Initial(s) && Runs(s, actions) && Commands(actions) != []
    requires Runs(After(s, actions), rest) && NoNewCalls(rest)
    ensures |rest| <= 907 + 887 * Busy(After(s, actions).producers)
    ensures Quiet(After(s, actions)) ==> |rest| <= 907
    ensures var t := After(After(s, actions), rest);
            if Quiet(t) && AtRest(t) then
              t.trace != [] && t.trace[|t.trace| - 1].pulses == Commands(actions)[|Commands(actions)| - 1] &&
              (t.trace[|t.trace| - 1].acked || t.trace[|t.trace| - 1].attempt == 10)
            else exists a: Action :: !a.Lock? && Enabled(t, a)
  {
    hide Inv, Enabled, Step, Rank, AtRest, Runs, After, Commands, Quiet, Busy, NoNewCalls;
    InitialInv(s);
    RunInv(s, actions);
    RunDispatched(s, actions);
    InitialEmpty(s);
    var u := After(s, actions);
    assert u.dispatched == Commands(actions);
    BoundedRun(u, rest);
    var t := After(u, rest);
    RankBounds(u);
    RankBounds(t);
    if Quiet(t) && AtRest(t) {
      RestMeansDelivered(t);
    } else {
      NoDeadlock(t);
    }
  }

  lemma InitialEmpty(s: System)
    requires Initial(s)
    ensures s.dispatched == []
  {
  }
}
