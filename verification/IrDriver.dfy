/** The driver's code: dispatching a command, one round of the dispatch thread, and sending with retries; with the
    proof that an uninterrupted run of the mailbox steps does the same. */
module IrDriver {
  import opened IrProtocol
  import opened Mailbox

  /** A buffer whose first elements are replaced. */
  function Overwrite(buf: seq<IrPulse>, c: seq<IrPulse>): (r: seq<IrPulse>)
    requires |c| <= |buf|
    ensures |r| == |buf|
  {
    c + buf[|c|..]
  }

  function Repeat(c: seq<IrPulse>, n: nat): (r: seq<seq<IrPulse>>)
    ensures |r| == n && forall k | 0 <= k < n :: r[k] == c
  {
    seq(n, _ => c)
  }

  // ---------- the code ----------

  /** The static variables of the driver; `onAir` records what the transmitter was given. */
  class Driver {
    const pendingBuf: array<IrPulse>
    const activeBuf: array<IrPulse>
    var pendingCount: nat
    var activeCount: nat
    var sem: nat
    var onAir: seq<seq<IrPulse>>

    ghost predicate Valid()
      reads this
    {
      pendingBuf != activeBuf && pendingBuf.Length == activeBuf.Length == IR_MAX_PULSES &&
      pendingCount <= IR_MAX_PULSES && activeCount <= IR_MAX_PULSES && sem <= 1
    }

    constructor ()
      ensures Valid() && sem == 0 && pendingCount == 0 && onAir == [] && fresh(pendingBuf) && fresh(activeBuf)
    {
      pendingBuf := new IrPulse[IR_MAX_PULSES];
      activeBuf := new IrPulse[IR_MAX_PULSES];
      pendingCount := 0;
      activeCount := 0;
      sem := 0;
      onAir := [];
    }

    /** Puts a command into the mailbox and raises the semaphore, whose limit is 1. */
    method DispatchCommand(pulses: array<IrPulse>, count: nat)
      requires Valid() && count <= pulses.Length && count <= IR_MAX_PULSES && pulses != pendingBuf
      modifies this`pendingCount, this`sem, pendingBuf
      ensures Valid() && sem == 1 && pendingCount == count
      ensures pendingBuf[..] == Overwrite(old(pendingBuf[..]), pulses[..count])
    {
      pendingCount := count;
      for k := 0 to count
        modifies pendingBuf
        invariant pulses[..] == old(pulses[..])
        invariant pendingBuf[..k] == pulses[..k] && pendingBuf[k..] == old(pendingBuf[..])[k..]
      {
        pendingBuf[k] := pulses[k];
      }
      assert pendingBuf[..] == pendingBuf[..count] + pendingBuf[count..];
      sem := if sem < 1 then sem + 1 else 1;
    }

    method Transmit(pulses: array<IrPulse>, count: nat)
      requires count <= pulses.Length
      modifies this`onAir
      ensures onAir == old(onAir) + [pulses[..count]]
    {
      onAir := onAir + [pulses[..count]];
    }

    /** Sends until acknowledged, at most ten times; `acks(n)` says whether the n-th attempt is acknowledged. */
    method SendCommand(pulses: array<IrPulse>, count: nat, acks: int -> bool) returns (ok: bool, ghost attempts: nat)
      requires count <= pulses.Length
      modifies this`onAir
      ensures 1 <= attempts <= 10 && onAir == old(onAir) + Repeat(pulses[..count], attempts)
      ensures ok == acks(attempts) && forall k | 1 <= k < attempts :: !acks(k)
      ensures !ok ==> attempts == 10
    {
      ghost var before := onAir;
      attempts := 0;
      for attempt := 1 to RETRY_COUNT + 1
        invariant attempts == attempt - 1 && onAir == before + Repeat(pulses[..count], attempts)
        invariant forall k | 1 <= k < attempt :: !acks(k)
      {
        Transmit(pulses, count);
        attempts := attempt;
        assert Repeat(pulses[..count], attempt) == Repeat(pulses[..count], attempt - 1) + [pulses[..count]];
        if acks(attempt) {
          return true, attempts;
        }
      }
      ok := false;
    }

    /** One round of the dispatch thread: take, copy, send. */
    method DispatchRound(acks: int -> bool) returns (ghost attempts: nat)
      requires Valid() && sem > 0
      modifies this, activeBuf
      ensures Valid() && sem == old(sem) - 1 && pendingCount == old(pendingCount) && activeCount == pendingCount
      ensures activeBuf[..] == Overwrite(old(activeBuf[..]), pendingBuf[..pendingCount])
      ensures 1 <= attempts <= 10
      ensures onAir == old(onAir) + Repeat(pendingBuf[..pendingCount], attempts)
      ensures (forall k | 1 <= k < attempts :: !acks(k)) && (acks(attempts) || attempts == 10)
    {
      sem := sem - 1;
      activeCount := pendingCount;
      for k := 0 to pendingCount
        modifies activeBuf
        invariant activeBuf[..k] == pendingBuf[..k] && activeBuf[k..] == old(activeBuf[..])[k..]
        invariant pendingBuf[..] == old(pendingBuf[..])
      {
        activeBuf[k] := pendingBuf[k];
      }
      assert activeBuf[..] == activeBuf[..activeCount] + activeBuf[activeCount..];
      var ok;
      ok, attempts := SendCommand(activeBuf, activeCount, acks);
    }
  }

  // ---------- uninterrupted runs of the mailbox steps ----------

  lemma {:induction false} RunsConcat(s: System, a: seq<Action>, b: seq<Action>)
    requires Runs(s, a) && Runs(After(s, a), b)
    ensures Runs(s, a + b) && After(s, a + b) == After(After(s, a), b)
    decreases |a|
  {
    hide Enabled, Step;
    if a == [] {
      assert a + b == b;
    } else {
      RunsConcat(Step(s, a[0]), a[1..], b);
      assert (a + b)[0] == a[0] && (a + b)[1..] == a[1..] + b;
    }
  }

  lemma RunsOne(s: System, a: Action)
    requires Enabled(s, a)
    ensures Runs(s, [a]) && After(s, [a]) == Step(s, a)
  {
    hide Enabled, Step;
    assert [a][1..] == [];
    assert Runs(Step(s, a), []) && After(Step(s, a), []) == Step(s, a);
  }

  /** All pulses from the k-th on. */
  function StoreActions(i: nat, n: nat): seq<Action> {
    if n == 0 then [] else [StorePulse(i)] + StoreActions(i, n - 1)
  }

  /** The mailbox after a call of producer i has stored its first k pulses over the buffer `buf`. */
  ghost predicate Storing(s: System, i: nat, c: Command, k: nat, buf: seq<IrPulse>) {
    && i < |s.producers| && s.producers[i] == Writing(c, true, k) && k <= |c| <= |buf| && |buf| == |s.pendingBuf|
    && s.pendingBuf == Overwrite(buf, c[..k])
  }

  lemma {:induction false} StoreAll(s: System, i: nat, c: Command, k: nat, buf: seq<IrPulse>)
    requires Storing(s, i, c, k, buf)
    ensures Runs(s, StoreActions(i, |c| - k))
    ensures After(s, StoreActions(i, |c| - k)) ==
            WithProducer(s, i, Writing(c, true, |c|)).(pendingBuf := Overwrite(buf, c))
    decreases |c| - k
  {
    if k == |c| {
      assert c[..k] == c;
      assert s.producers[i := Writing(c, true, |c|)] == s.producers;
    } else {
      var t := Step(s, StorePulse(i));
      assert c[..k + 1] == c[..k] + [c[k]];
      assert t.pendingBuf == Overwrite(buf, c[..k + 1]);
      StoreAll(t, i, c, k + 1, buf);
      var rest := StoreActions(i, |c| - k - 1);
      RunsOne(s, StorePulse(i));
      RunsConcat(s, [StorePulse(i)], rest);
      assert t.producers[i := Writing(c, true, |c|)] == s.producers[i := Writing(c, true, |c|)];
    }
  }

  function DispatchActions(i: nat, c: Command): seq<Action> {
    [Lock(i, c)] + ([StoreCount(i)] + (StoreActions(i, |c|) + ([Unlock(i)] + [Give(i)])))
  }

  /** A dispatch call that nothing interrupts has the effect of the method DispatchCommand. */
  lemma DispatchAlone(s: System, i: nat, c: Command)
    requires i < |s.producers| && s.producers[i] == Idle && s.owner == Free && |s.pendingBuf| == IR_MAX_PULSES
    ensures Runs(s, DispatchActions(i, c))
    ensures After(s, DispatchActions(i, c)) ==
            s.(pendingCount := |c|, pendingBuf := Overwrite(s.pendingBuf, c), sem := 1,
              dispatched := s.dispatched + [c])
  {
    hide Runs, After, StoreActions, Overwrite;
    var s1 := Step(s, Lock(i, c));
    var s2 := Step(s1, StoreCount(i));
    StoringStart(s2, i, c);
    StoreAll(s2, i, c, 0, s.pendingBuf);
    var s3 := After(s2, StoreActions(i, |c|));
    var s4 := Step(s3, Unlock(i));
    var s5 := Step(s4, Give(i));
    RunsOne(s4, Give(i));
    RunsOne(s3, Unlock(i));
    RunsOne(s1, StoreCount(i));
    RunsOne(s, Lock(i, c));
    RunsConcat(s3, [Unlock(i)], [Give(i)]);
    RunsConcat(s2, StoreActions(i, |c|), [Unlock(i)] + [Give(i)]);
    RunsConcat(s1, [StoreCount(i)], StoreActions(i, |c|) + ([Unlock(i)] + [Give(i)]));
    RunsConcat(s, [Lock(i, c)], [StoreCount(i)] + (StoreActions(i, |c|) + ([Unlock(i)] + [Give(i)])));
    assert s5.producers == s.producers;
  }

  /** The fetch loop from pulse k on. */
  function FetchActions(n: nat): seq<Action> {
    if n == 0 then [] else [FetchPulse] + FetchActions(n - 1)
  }

  ghost predicate Fetching(s: System, k: nat, buf: seq<IrPulse>) {
    && s.consumer == Copying(true, k) && k <= s.pendingCount <= |buf| == |s.pendingBuf| == |s.activeBuf|
    && s.activeBuf == Overwrite(buf, s.pendingBuf[..k])
  }

  lemma {:induction false} FetchAll(s: System, k: nat, buf: seq<IrPulse>)
    requires Fetching(s, k, buf)
    ensures Runs(s, FetchActions(s.pendingCount - k))
    ensures After(s, FetchActions(s.pendingCount - k)) ==
            s.(consumer := Copying(true, s.pendingCount), activeBuf := Overwrite(buf, s.pendingBuf[..s.pendingCount]))
    decreases s.pendingCount - k
  {
    if k < s.pendingCount {
      var t := Step(s, FetchPulse);
      assert s.pendingBuf[..k + 1] == s.pendingBuf[..k] + [s.pendingBuf[k]];
      assert t.activeBuf == Overwrite(buf, s.pendingBuf[..k + 1]);
      FetchAll(t, k + 1, buf);
      RunsOne(s, FetchPulse);
      RunsConcat(s, [FetchPulse], FetchActions(s.pendingCount - k - 1));
    }
  }

  /** Attempts from number a on, the last of them number n, acknowledged or not. */
  function BurstActions(a: nat, n: nat, ok: bool): seq<Action>
    requires a <= n
    decreases n - a
  {
    [Transmit] + [Reply(ok && a == n)] + if a == n then [] else BurstActions(a + 1, n, ok)
  }

  function BurstTrace(c: seq<IrPulse>, generation: nat, a: nat, n: nat, ok: bool): (r: seq<Transmission>)
    requires a <= n
    ensures |r| == n - a + 1 && forall k | 0 <= k < |r| :: r[k].pulses == c
    decreases n - a
  {
    [Transmission(c, generation, a, ok && a == n)] + if a == n then [] else BurstTrace(c, generation, a + 1, n, ok)
  }

  /** One attempt: transmit, then the reply. */
  lemma AttemptAlone(s: System, a: nat, ack: bool)
    requires s.consumer == Sending(a) && s.activeCount <= |s.activeBuf|
    ensures Runs(s, [Transmit] + [Reply(ack)])
    ensures After(s, [Transmit] + [Reply(ack)]) ==
            s.(consumer := if ack || a >= RETRY_COUNT then Waiting else Sending(a + 1),
               trace := s.trace + [Transmission(s.activeBuf[..s.activeCount], s.generation, a, ack)])
  {
    hide Runs, After;
    var t := Step(s, Transmit);
    RunsOne(s, Transmit);
    RunsOne(t, Reply(ack));
    RunsConcat(s, [Transmit], [Reply(ack)]);
    assert Step(t, Reply(ack)).trace == s.trace + [Transmission(s.activeBuf[..s.activeCount], s.generation, a, ack)];
  }

  lemma BurstUnfold(c: seq<IrPulse>, generation: nat, a: nat, n: nat, ok: bool)
    requires a <= n
    ensures a == n ==> BurstActions(a, n, ok) == [Transmit] + [Reply(ok)]
    ensures a == n ==> BurstTrace(c, generation, a, n, ok) == [Transmission(c, generation, a, ok)]
    ensures a < n ==> BurstActions(a, n, ok) == ([Transmit] + [Reply(false)]) + BurstActions(a + 1, n, ok)
    ensures a < n ==>
              BurstTrace(c, generation, a, n, ok) ==
                [Transmission(c, generation, a, false)] + BurstTrace(c, generation, a + 1, n, ok)
  {
  }

  lemma {:induction false} BurstAlone(s: System, a: nat, n: nat, ok: bool)
    requires s.consumer == Sending(a) && 1 <= a <= n <= RETRY_COUNT && (ok || n == RETRY_COUNT) &&
             s.activeCount <= |s.activeBuf|
    ensures Runs(s, BurstActions(a, n, ok))
    ensures After(s, BurstActions(a, n, ok)) ==
            s.(consumer := Waiting, trace := s.trace + BurstTrace(s.activeBuf[..s.activeCount], s.generation, a, n, ok))
    decreases n - a
  {
    hide Runs, After, BurstActions, BurstTrace, Step, Enabled;
    var c := s.activeBuf[..s.activeCount];
    BurstUnfold(c, s.generation, a, n, ok);
    AttemptAlone(s, a, ok && a == n);
    if a < n {
      var u := After(s, [Transmit] + [Reply(false)]);
      BurstAlone(u, a + 1, n, ok);
      RunsConcat(s, [Transmit] + [Reply(false)], BurstActions(a + 1, n, ok));
      var first := Transmission(c, s.generation, a, false);
      assert s.trace + ([first] + BurstTrace(c, s.generation, a + 1, n, ok)) ==
             u.trace + BurstTrace(c, s.generation, a + 1, n, ok);
    }
  }

  function RoundActions(count: nat, n: nat, ok: bool): seq<Action>
    requires 1 <= n
  {
    [Take] + ([LockMailbox] + ([FetchCount] + (FetchActions(count) + ([UnlockMailbox] + BurstActions(1, n, ok)))))
  }

  /** A round of the consumer that nothing interrupts has the effect of the method DispatchRound. */
  lemma RoundAlone(s: System, n: nat, ok: bool)
    requires s.consumer == Waiting && s.sem > 0 && s.owner == Free && s.pendingCount <= |s.pendingBuf| == |s.activeBuf|
    requires 1 <= n <= RETRY_COUNT && (ok || n == RETRY_COUNT)
    ensures Runs(s, RoundActions(s.pendingCount, n, ok))
    ensures After(s, RoundActions(s.pendingCount, n, ok)) ==
            s.(sem := s.sem - 1, activeCount := s.pendingCount, generation := |s.dispatched|,
               activeBuf := Overwrite(s.activeBuf, s.pendingBuf[..s.pendingCount]),
               trace := s.trace + BurstTrace(s.pendingBuf[..s.pendingCount], |s.dispatched|, 1, n, ok))
  {
    hide Runs, After, FetchActions, BurstActions, BurstTrace;
    var s1 := Step(s, Take);
    var s2 := Step(s1, LockMailbox);
    var s3 := Step(s2, FetchCount);
    assert s.pendingBuf[..0] == [];
    FetchAll(s3, 0, s.activeBuf);
    var fetch, burst := FetchActions(s.pendingCount), BurstActions(1, n, ok);
    var s4 := After(s3, fetch);
    var s5 := Step(s4, UnlockMailbox);
    assert s5.activeBuf[..s5.activeCount] == s.pendingBuf[..s.pendingCount];
    BurstAlone(s5, 1, n, ok);
    RunsOne(s4, UnlockMailbox);
    RunsOne(s2, FetchCount);
    RunsOne(s1, LockMailbox);
    RunsOne(s, Take);
    RunsConcat(s4, [UnlockMailbox], burst);
    RunsConcat(s3, fetch, [UnlockMailbox] + burst);
    RunsConcat(s2, [FetchCount], fetch + ([UnlockMailbox] + burst));
    RunsConcat(s1, [LockMailbox], [FetchCount] + (fetch + ([UnlockMailbox] + burst)));
    RunsConcat(s, [Take], [LockMailbox] + ([FetchCount] + (fetch + ([UnlockMailbox] + burst))));
  }

  lemma StoringStart(s: System, i: nat, c: Command)
    requires i < |s.producers| && s.producers[i] == Writing(c, true, 0) && |s.pendingBuf| == IR_MAX_PULSES
    ensures Storing(s, i, c, 0, s.pendingBuf)
  {
    assert c[..0] == [];
  }
}
