/**
 * Barrier::wait as a transition system. Any number of threads each call `wait` once on a barrier built for
 * `total` threads; a step of one thread is one access to shared state, and threads interleave freely.
 */
module Barrier {
  import opened Words
  import opened Options

  /** Where a thread is inside `wait`. */
  datatype Pc =
    | Outside            // has not called wait
    | Entering           // waits for the mutex
    | Holding            // owns the mutex, has not counted down
    | Last               // counted down to 0, has not stamped the time
    | Giving(given: nat) // stamped, has released the semaphore `given` times
    | Leaving            // about to unlock
    | Acquiring          // waits for the semaphore
    | Reading            // took a token, has not read the start time
    | Done(value: int)   // returned `value`

  datatype Thread = Thread(pc: Pc, arrival: int, departure: int)

  /** `gives` and `stamps` record history only: how often the semaphore was released and the times stamped. */
  datatype State = State(
    threads: seq<Thread>,
    total: U32,
    owner: Option<nat>,
    count: U32,
    tokens: nat,
    startTime: int,
    clock: int,
    gives: nat,
    stamps: seq<int>)

  function Init(callers: nat, total: U32): State {
    State(seq(callers, _ => Thread(Outside, 0, 0)), total, None, total, 0, 0, 0, 0, [])
  }

  function Move(s: State, i: nat, pc: Pc): State
    requires i < |s.threads|
  {
    s.(threads := s.threads[i := s.threads[i].(pc := pc)])
  }

  /** The next step of thread `i` when the clock shows `now`; None while the thread is blocked or has returned. */
  function Fire(s: State, i: nat, now: int): Option<State>
    requires i < |s.threads|
  {
    var t := s.threads[i];
    match t.pc
    case Outside =>
      Some(s.(threads := s.threads[i := t.(pc := Entering, arrival := now)], clock := now))
    case Entering =>
      if s.owner.None? then Some(Move(s, i, Holding).(owner := Some(i), clock := now)) else None
    case Holding =>
      var count := Sub32(s.count, 1);
      Some(Move(s, i, if count == 0 then Last else Leaving).(count := count, clock := now))
    case Last =>
      Some(Move(s, i, Giving(0)).(startTime := now, clock := now, stamps := s.stamps + [now]))
    case Giving(g) =>
      if g < s.total then
        // the kernel drops a release beyond the semaphore's limit
        Some(Move(s, i, Giving(g + 1)).(tokens := if s.tokens < s.total then s.tokens + 1 else s.tokens,
                                        gives := s.gives + 1, clock := now))
      else
        Some(Move(s, i, Leaving).(clock := now))
    case Leaving =>
      Some(Move(s, i, Acquiring).(owner := None, clock := now))
    case Acquiring =>
      if s.tokens > 0 then Some(Move(s, i, Reading).(tokens := s.tokens - 1, clock := now)) else None
    case Reading =>
      Some(s.(threads := s.threads[i := t.(pc := Done(s.startTime), departure := now)], clock := now))
    case Done(_) => None
  }

  ghost predicate StepOf(s: State, i: nat, now: int, s': State) {
    i < |s.threads| && now >= s.clock && Fire(s, i, now) == Some(s')
  }

  ghost predicate Next(s: State, s': State) {
    exists i, now :: StepOf(s, i, now, s')
  }

  /** A run: any sequence of steps from the initial state. */
  ghost predicate Run(run: seq<State>, callers: nat, total: U32) {
    |run| > 0 && run[0] == Init(callers, total) && forall k :: 0 < k < |run| ==> Next(run[k - 1], run[k])
  }

  ghost predicate Reachable(s: State, callers: nat, total: U32) {
    exists run :: Run(run, callers, total) && run[|run| - 1] == s
  }

  /** No thread can take a step. */
  ghost predicate Stuck(s: State) {
    forall i :: 0 <= i < |s.threads| ==> Fire(s, i, s.clock).None?
  }

  // ----- Counting threads -----

  datatype Phase = CountedDown | TookToken | Returned

  predicate InPhase(pc: Pc, phase: Phase) {
    match phase
    case CountedDown => !(pc.Outside? || pc.Entering? || pc.Holding?)
    case TookToken => pc.Reading? || pc.Done?
    case Returned => pc.Done?
  }

  function Number(threads: seq<Thread>, phase: Phase): (n: nat)
    ensures n <= |threads|
  {
    if threads == [] then 0
    else (if InPhase(threads[0].pc, phase) then 1 else 0) + Number(threads[1..], phase)
  }

  lemma {:induction false} NumberUpdate(threads: seq<Thread>, phase: Phase, i: nat, t: Thread)
    requires i < |threads|
    ensures Number(threads[i := t], phase) ==
            Number(threads, phase) - (if InPhase(threads[i].pc, phase) then 1 else 0)
            + (if InPhase(t.pc, phase) then 1 else 0)
  {
    if i > 0 {
      NumberUpdate(threads[1..], phase, i - 1, t);
      assert threads[i := t][1..] == threads[1..][i - 1 := t];
    } else {
      assert threads[i := t][1..] == threads[1..];
    }
  }

  lemma {:induction false} NumberAll(threads: seq<Thread>, phase: Phase)
    ensures Number(threads, phase) == |threads| <==> forall i :: 0 <= i < |threads| ==> InPhase(threads[i].pc, phase)
    ensures Number(threads, phase) == 0 <==> forall i :: 0 <= i < |threads| ==> !InPhase(threads[i].pc, phase)
  {
    if threads != [] {
      NumberAll(threads[1..], phase);
      assert forall i :: 0 < i < |threads| ==> threads[i] == threads[1..][i - 1];
    }
  }

  lemma {:induction false} NumberSame(threads: seq<Thread>, p: Phase, q: Phase)
    requires forall i :: 0 <= i < |threads| ==> (InPhase(threads[i].pc, p) <==> InPhase(threads[i].pc, q))
    ensures Number(threads, p) == Number(threads, q)
  {
    if threads != [] {
      NumberSame(threads[1..], p, q);
    }
  }

  // ----- The invariant -----

  predicate OwnsMutex(pc: Pc) {
    pc.Holding? || pc.Last? || pc.Giving? || pc.Leaving?
  }

  /** What is known of one thread. */
  ghost predicate ThreadInv(s: State, i: nat)
    requires i < |s.threads|
  {
    var t := s.threads[i];
    && (OwnsMutex(t.pc) <==> s.owner == Some(i))
    && (!t.pc.Outside? ==> t.arrival <= s.clock)
    && (t.pc.Last? ==> s.gives == 0 && s.stamps == [])
    && (t.pc.Giving? ==> s.gives == t.pc.given <= s.total && s.stamps != [])
    && (t.pc.Done? ==> s.stamps == [t.pc.value] && t.pc.value <= t.departure <= s.clock)
    && (s.stamps != [] && |s.threads| <= s.total ==> !t.pc.Outside? && t.arrival <= s.startTime)
  }

  ghost predicate AtLast(s: State) {
    s.owner.Some? && s.owner.value < |s.threads| && s.threads[s.owner.value].pc.Last?
  }

  ghost predicate AtGiving(s: State) {
    s.owner.Some? && s.owner.value < |s.threads| && s.threads[s.owner.value].pc.Giving?
  }

  /** What is known of the shared state. */
  ghost predicate SharedInv(s: State, callers: nat, total: U32) {
    var down := Number(s.threads, CountedDown);
    && |s.threads| == callers && s.total == total
    && s.count == (total - down) % U32_MOD
    && (s.owner.Some? ==> s.owner.value < callers)
    && s.tokens == s.gives - Number(s.threads, TookToken)
    && s.gives <= total
    && (s.stamps == [] || (s.stamps == [s.startTime] && s.startTime <= s.clock))
    && (s.stamps != [] || AtLast(s) <==> down >= total)
    && (s.gives > 0 ==> s.stamps != [])
    && (s.stamps != [] ==> s.gives == total || AtGiving(s))
  }

  ghost predicate Inv(s: State, callers: nat, total: U32) {
    SharedInv(s, callers, total) && forall i :: 0 <= i < callers ==> ThreadInv(s, i)
  }

  /** Fewer callers than would bring the 32-bit countdown round to 0 a second time. */
  ghost predicate Admissible(callers: nat, total: U32) {
    1 <= total && callers < total + U32_MOD
  }

  lemma InitInv(callers: nat, total: U32)
    requires Admissible(callers, total)
    ensures Inv(Init(callers, total), callers, total)
  {
    NumberAll(Init(callers, total).threads, CountedDown);
    NumberAll(Init(callers, total).threads, TookToken);
  }

  /** The countdown reaches 0 only with the arrival numbered `total`. */
  lemma CountdownZero(callers: nat, total: U32, down: nat)
    requires Admissible(callers, total) && down < callers
    ensures Sub32((total - down) % U32_MOD, 1) == (total - (down + 1)) % U32_MOD
    ensures Sub32((total - down) % U32_MOD, 1) == 0 <==> down + 1 == total
  {
  }

  /** The thread that steps. */
  lemma StepOwnInv(s: State, i: nat, now: int, s': State, callers: nat, total: U32)
    requires Admissible(callers, total) && Inv(s, callers, total) && StepOf(s, i, now, s') && i < callers
    ensures ThreadInv(s', i)
  {
    assert ThreadInv(s, i);
    match s.threads[i].pc
    case Holding =>
      NumberAll(s.threads, CountedDown);
      CountdownZero(callers, total, Number(s.threads, CountedDown));
    case Last =>
      NumberAll(s.threads, CountedDown);
    case Reading =>
      NumberAll(s.threads, TookToken);
    case _ =>
  }

  /** A thread that stands still while another one steps. */
  lemma StepOtherInv(s: State, i: nat, now: int, s': State, callers: nat, total: U32, j: nat)
    requires Admissible(callers, total) && Inv(s, callers, total) && StepOf(s, i, now, s') && j < callers && j != i
    ensures ThreadInv(s', j)
  {
    assert ThreadInv(s, i) && ThreadInv(s, j);
    if s.threads[i].pc.Last? {
      NumberAll(s.threads, CountedDown);
    }
  }

  lemma StepThreadInv(s: State, i: nat, now: int, s': State, callers: nat, total: U32, j: nat)
    requires Admissible(callers, total) && Inv(s, callers, total) && StepOf(s, i, now, s') && j < callers
    ensures ThreadInv(s', j)
  {
    hide Inv, ThreadInv, Fire;
    if j == i {
      StepOwnInv(s, i, now, s', callers, total);
    } else {
      StepOtherInv(s, i, now, s', callers, total, j);
    }
  }

  lemma StepNumber(s: State, i: nat, now: int, s': State, phase: Phase)
    requires StepOf(s, i, now, s')
    ensures s'.threads == s.threads[i := s'.threads[i]]
    ensures Number(s'.threads, phase) ==
            Number(s.threads, phase) - (if InPhase(s.threads[i].pc, phase) then 1 else 0)
            + (if InPhase(s'.threads[i].pc, phase) then 1 else 0)
  {
    NumberUpdate(s.threads, phase, i, s'.threads[i]);
    assert s'.threads == s.threads[i := s'.threads[i]];
  }

  lemma StepCountdown(s: State, i: nat, now: int, s': State)
    requires StepOf(s, i, now, s')
    ensures s.threads[i].pc.Holding? ==> s'.count == Sub32(s.count, 1)
    ensures !s.threads[i].pc.Holding? ==> s'.count == s.count
    ensures InPhase(s'.threads[i].pc, CountedDown)
            == (InPhase(s.threads[i].pc, CountedDown) || s.threads[i].pc.Holding?)
  {
  }

  lemma StepCount(s: State, i: nat, now: int, s': State, callers: nat, total: U32)
    requires Admissible(callers, total) && SharedInv(s, callers, total) && StepOf(s, i, now, s')
    ensures s'.count == (total - Number(s'.threads, CountedDown)) % U32_MOD
  {
    StepNumber(s, i, now, s', CountedDown);
    StepCountdown(s, i, now, s');
    hide Fire, Sub32;
    if s.threads[i].pc.Holding? {
      NumberAll(s.threads, CountedDown);
      CountdownZero(callers, total, Number(s.threads, CountedDown));
    }
  }

  lemma StepTokens(s: State, i: nat, now: int, s': State, callers: nat, total: U32)
    requires SharedInv(s, callers, total) && StepOf(s, i, now, s') && ThreadInv(s, i)
    ensures s'.tokens == s'.gives - Number(s'.threads, TookToken) && s'.gives <= total
  {
    StepNumber(s, i, now, s', TookToken);
  }

  lemma StepStamps(s: State, i: nat, now: int, s': State, callers: nat, total: U32)
    requires Admissible(callers, total) && SharedInv(s, callers, total) && StepOf(s, i, now, s') && ThreadInv(s, i)
    ensures s'.stamps != [] || AtLast(s') <==> Number(s'.threads, CountedDown) >= total
    ensures s'.stamps != [] ==> s'.gives == total || AtGiving(s')
  {
    StepNumber(s, i, now, s', CountedDown);
    if s.threads[i].pc.Holding? {
      NumberAll(s.threads, CountedDown);
      CountdownZero(callers, total, Number(s.threads, CountedDown));
    }
  }

  lemma StepSharedInv(s: State, i: nat, now: int, s': State, callers: nat, total: U32)
    requires Admissible(callers, total) && SharedInv(s, callers, total) && StepOf(s, i, now, s')
    requires i < callers && ThreadInv(s, i)
    ensures SharedInv(s', callers, total)
  {
    StepCount(s, i, now, s', callers, total);
    StepTokens(s, i, now, s', callers, total);
    StepStamps(s, i, now, s', callers, total);
  }

  lemma StepInv(s: State, i: nat, now: int, s': State, callers: nat, total: U32)
    requires Admissible(callers, total) && Inv(s, callers, total) && StepOf(s, i, now, s')
    ensures Inv(s', callers, total)
  {
    StepSharedInv(s, i, now, s', callers, total);
    forall j | 0 <= j < callers ensures ThreadInv(s', j) {
      StepThreadInv(s, i, now, s', callers, total, j);
    }
  }

  lemma {:induction false} RunInv(run: seq<State>, callers: nat, total: U32, k: nat)
    requires Admissible(callers, total) && Run(run, callers, total) && k < |run|
    ensures Inv(run[k], callers, total)
  {
    if k == 0 {
      InitInv(callers, total);
    } else {
      RunInv(run, callers, total, k - 1);
      assert Next(run[k - 1], run[k]);
      var i, now :| StepOf(run[k - 1], i, now, run[k]);
      StepInv(run[k - 1], i, now, run[k], callers, total);
    }
  }

  lemma ReachableInv(s: State, callers: nat, total: U32)
    requires Admissible(callers, total) && Reachable(s, callers, total)
    ensures Inv(s, callers, total)
  {
    var run :| Run(run, callers, total) && run[|run| - 1] == s;
    RunInv(run, callers, total, |run| - 1);
  }

  // ----- Safety in every reachable state -----

  /** A thread holds a token or has returned only after `total` threads counted down. */
  lemma NonePassesEarly(s: State, callers: nat, total: U32, i: nat)
    requires Admissible(callers, total) && Reachable(s, callers, total)
    requires i < |s.threads| && InPhase(s.threads[i].pc, TookToken)
    ensures Number(s.threads, CountedDown) >= total
    ensures callers == total ==> forall j :: 0 <= j < |s.threads| ==> InPhase(s.threads[j].pc, CountedDown)
  {
    ReachableInv(s, callers, total);
    NumberAll(s.threads, TookToken);
    NumberAll(s.threads, CountedDown);
  }

  /** Every thread that returns, returns the one time stamped; at most `total` threads return. */
  lemma AllReturnTheStamp(s: State, callers: nat, total: U32)
    requires Admissible(callers, total) && Reachable(s, callers, total)
    ensures |s.stamps| <= 1
    ensures forall i :: 0 <= i < |s.threads| && s.threads[i].pc.Done? ==> s.stamps == [s.threads[i].pc.value]
    ensures Number(s.threads, Returned) <= total
  {
    ReachableInv(s, callers, total);
    forall i | 0 <= i < |s.threads| && s.threads[i].pc.Done? ensures s.stamps == [s.threads[i].pc.value] {
      assert ThreadInv(s, i);
    }
    NumberMonotone(s.threads);
  }

  lemma {:induction false} NumberMonotone(threads: seq<Thread>)
    ensures Number(threads, Returned) <= Number(threads, TookToken) <= Number(threads, CountedDown)
  {
    if threads != [] {
      NumberMonotone(threads[1..]);
    }
  }

  /** With as many callers as threads, the value returned lies between every arrival and every departure. */
  lemma StampBetween(s: State, total: U32, i: nat, j: nat)
    requires total >= 1 && Reachable(s, total, total) && i < |s.threads| && j < |s.threads|
    requires s.threads[i].pc.Done? && s.threads[j].pc.Done?
    ensures s.threads[i].arrival <= s.threads[j].pc.value <= s.threads[i].departure
  {
    ReachableInv(s, total, total);
    assert ThreadInv(s, i) && ThreadInv(s, j);
  }

  /** At most one thread is between locking and unlocking. */
  lemma MutualExclusion(s: State, callers: nat, total: U32, i: nat, j: nat)
    requires Admissible(callers, total) && Reachable(s, callers, total) && i < |s.threads| && j < |s.threads|
    requires s.threads[i].pc.Holding? || s.threads[i].pc.Last? || s.threads[i].pc.Giving? || s.threads[i].pc.Leaving?
    requires s.threads[j].pc.Holding? || s.threads[j].pc.Last? || s.threads[j].pc.Giving? || s.threads[j].pc.Leaving?
    ensures i == j
  {
    ReachableInv(s, callers, total);
    assert ThreadInv(s, i) && ThreadInv(s, j);
  }

  // ----- Which step of a run makes the time that is returned -----

  /** Thread `i` goes from having counted down to 0 to releasing the others: it has read the time. */
  ghost predicate TimeRead(s: State, s': State, i: nat) {
    |s.threads| == |s'.threads| && i < |s.threads| && s.threads[i].pc.Last? && s'.threads[i].pc == Giving(0)
  }

  ghost predicate SomeReads(s: State, s': State) {
    exists i: nat :: TimeRead(s, s', i)
  }

  ghost predicate Reads(run: seq<State>, k: nat) {
    0 < k < |run| && SomeReads(run[k - 1], run[k])
  }

  /** No thread has passed the semaphore, and at least `total` threads have counted down. */
  ghost predicate AllWait(s: State) {
    && (forall i :: 0 <= i < |s.threads| ==> !s.threads[i].pc.Reading? && !s.threads[i].pc.Done?)
    && Number(s.threads, CountedDown) >= s.total
  }

  /** What a run has stamped by state `n`, by its one step that read the time. */
  ghost predicate StampedBy(run: seq<State>, n: nat, k: nat)
    requires n < |run|
  {
    && 0 < k <= n && Reads(run, k) && AllWait(run[k - 1]) && run[n].stamps == [run[k].clock]
    && forall l :: 0 < l <= n && Reads(run, l) ==> l == k
  }

  lemma LastReads(s: State, i: nat, now: int, s': State, callers: nat, total: U32)
    requires Inv(s, callers, total) && StepOf(s, i, now, s') && s.threads[i].pc.Last?
    ensures TimeRead(s, s', i) && s.stamps == [] && s'.stamps == [s'.clock] && AllWait(s)
  {
    assert ThreadInv(s, i);
    NumberAll(s.threads, TookToken);
  }

  lemma OthersDoNotRead(s: State, i: nat, now: int, s': State)
    requires StepOf(s, i, now, s') && !s.threads[i].pc.Last?
    ensures s'.stamps == s.stamps && !SomeReads(s, s')
  {
  }

  lemma {:induction false} RunStamp(run: seq<State>, callers: nat, total: U32, n: nat)
    requires Admissible(callers, total) && Run(run, callers, total) && n < |run|
    ensures if run[n].stamps == [] then forall l :: 0 < l <= n ==> !Reads(run, l)
            else exists k :: StampedBy(run, n, k)
  {
    hide Inv, Fire, AllWait;
    if n > 0 {
      RunStamp(run, callers, total, n - 1);
      RunInv(run, callers, total, n - 1);
      assert Next(run[n - 1], run[n]);
      var i: nat, now :| StepOf(run[n - 1], i, now, run[n]);
      if run[n - 1].threads[i].pc.Last? {
        LastReads(run[n - 1], i, now, run[n], callers, total);
        assert SomeReads(run[n - 1], run[n]) && Reads(run, n);
        assert StampedBy(run, n, n);
      } else {
        OthersDoNotRead(run[n - 1], i, now, run[n]);
        if run[n - 1].stamps != [] {
          var k :| StampedBy(run, n - 1, k);
          assert StampedBy(run, n, k);
        }
      }
    }
  }

  /**
   * A run in which some thread has returned has exactly one step that read the time. Every value returned is
   * what the clock showed at that step. Just before it no thread had passed the semaphore, and `total` threads
   * had counted down: all of them, when there are no more callers than that.
   */
  lemma ReturnedTimeWasRead(run: seq<State>, callers: nat, total: U32, i: nat)
    returns (k: nat, before: State, reader: nat, now: int)
    requires Admissible(callers, total) && Run(run, callers, total)
    requires var s := run[|run| - 1]; i < |s.threads| && s.threads[i].pc.Done?
    ensures Reads(run, k) && forall l :: Reads(run, l) ==> l == k
    ensures before == run[k - 1] && StepOf(before, reader, now, run[k]) && before.threads[reader].pc.Last?
    ensures run[|run| - 1].threads[i].pc.value == now == run[k].clock
    ensures forall j :: 0 <= j < |before.threads| ==>
              !before.threads[j].pc.Reading? && !before.threads[j].pc.Done?
    ensures Number(before.threads, CountedDown) >= total
    ensures callers == total ==> forall j :: 0 <= j < |before.threads| ==>
              var pc := before.threads[j].pc; !(pc.Outside? || pc.Entering? || pc.Holding?)
  {
    hide Inv, Fire, Number;
    var n := |run| - 1;
    RunInv(run, callers, total, n);
    DoneValue(run[n], callers, total, i);
    RunStamp(run, callers, total, n);
    k :| StampedBy(run, n, k);
    before := run[k - 1];
    RunInv(run, callers, total, k - 1);
    AllDown(before, callers, total);
    assert Next(run[k - 1], run[k]);
    reader, now := Reader(before, run[k]);
  }

  lemma DoneValue(s: State, callers: nat, total: U32, i: nat)
    requires Inv(s, callers, total) && i < |s.threads| && s.threads[i].pc.Done?
    ensures s.stamps == [s.threads[i].pc.value]
  {
    assert ThreadInv(s, i);
  }

  lemma AllDown(s: State, callers: nat, total: U32)
    requires Inv(s, callers, total)
    ensures s.total == total
    ensures Number(s.threads, CountedDown) >= total == callers ==> forall j :: 0 <= j < |s.threads| ==>
              var pc := s.threads[j].pc; !(pc.Outside? || pc.Entering? || pc.Holding?)
  {
    NumberAll(s.threads, CountedDown);
  }

  lemma Reader(s: State, s': State) returns (i: nat, now: int)
    requires SomeReads(s, s') && Next(s, s')
    ensures StepOf(s, i, now, s') && s.threads[i].pc.Last? && now == s'.clock
  {
    i, now :| StepOf(s, i, now, s');
    if !s.threads[i].pc.Last? {
      OthersDoNotRead(s, i, now, s');
    }
  }

  /** A step leaves the clock at the time at which it was made; the steps into and out of wait record it. */
  lemma ClockShows(s: State, i: nat, now: int, s': State)
    requires StepOf(s, i, now, s')
    ensures s.clock <= now == s'.clock
    ensures s.threads[i].pc.Outside? ==> s'.threads[i].arrival == now
    ensures s'.threads[i].pc.Done? ==> s'.threads[i].departure == now
  {
  }

  lemma {:induction false} ClockMonotone(run: seq<State>, callers: nat, total: U32, j: nat, k: nat)
    requires Run(run, callers, total) && j <= k < |run|
    ensures run[j].clock <= run[k].clock
    decreases k
  {
    hide Fire;
    if j < k {
      ClockMonotone(run, callers, total, j, k - 1);
      assert Next(run[k - 1], run[k]);
      var i: nat, now :| StepOf(run[k - 1], i, now, run[k]);
      ClockShows(run[k - 1], i, now, run[k]);
    }
  }

  lemma StepKeepsInside(s: State, i: nat, now: int, s': State, j: nat)
    requires StepOf(s, i, now, s') && j < |s.threads| && !s.threads[j].pc.Outside?
    ensures |s'.threads| == |s.threads| && !s'.threads[j].pc.Outside?
  {
  }

  lemma {:induction false} NeverOutsideAgain(run: seq<State>, callers: nat, total: U32, m: nat, n: nat, j: nat)
    requires Run(run, callers, total) && m <= n < |run| && j < |run[m].threads| && !run[m].threads[j].pc.Outside?
    ensures j < |run[n].threads| && !run[n].threads[j].pc.Outside?
    decreases n
  {
    hide Fire;
    if m < n {
      NeverOutsideAgain(run, callers, total, m, n - 1, j);
      assert Next(run[n - 1], run[n]);
      var i: nat, now :| StepOf(run[n - 1], i, now, run[n]);
      StepKeepsInside(run[n - 1], i, now, run[n], j);
    }
  }

  /**
   * With as many callers as threads, over any run: if thread `j` calls wait at time `called`, in step `a`, and
   * thread `i` returns at time `returned`, in step `d`, the value returned lies between the two times.
   */
  lemma ReturnedTimeIsBetween(run: seq<State>, total: U32, a: nat, j: nat, called: int, d: nat, i: nat, returned: int)
    requires total >= 1 && Run(run, total, total) && 0 < a < |run| && 0 < d < |run|
    requires StepOf(run[a - 1], j, called, run[a]) && run[a - 1].threads[j].pc.Outside?
    requires StepOf(run[d - 1], i, returned, run[d]) && i < |run[d].threads| && run[d].threads[i].pc.Done?
    ensures called <= run[d].threads[i].pc.value <= returned
  {
    hide Fire;
    var part := run[..d + 1];
    assert Run(part, total, total);
    var k, before, reader, now := ReturnedTimeWasRead(part, total, total, i);
    ClockShows(run[a - 1], j, called, run[a]);
    ClockShows(run[d - 1], i, returned, run[d]);
    ClockMonotone(run, total, total, k, d);
    RunInv(run, total, total, k - 1);
    RunInv(run, total, total, a - 1);
    if a > k {
      NeverOutsideAgain(run, total, total, k - 1, a - 1, j);
      assert false;
    }
    ClockMonotone(run, total, total, a, k);
  }

  // ----- Progress -----

  lemma OwnerCanStep(s: State, i: nat, now: int)
    requires i < |s.threads| && OwnsMutex(s.threads[i].pc)
    ensures Fire(s, i, now).Some?
  {
  }

  /** What a state without enabled steps looks like. */
  lemma StuckThreads(s: State, callers: nat, total: U32, i: nat)
    requires Admissible(callers, total) && Inv(s, callers, total) && Stuck(s) && i < callers
    ensures s.owner.None?
    ensures s.threads[i].pc.Done? || (s.threads[i].pc.Acquiring? && s.tokens == 0)
  {
    if s.owner.Some? {
      assert ThreadInv(s, s.owner.value);
      OwnerCanStep(s, s.owner.value, s.clock);
      assert false;
    }
    assert ThreadInv(s, i) && Fire(s, i, s.clock).None?;
  }

  /**
   * A run that cannot be extended has returned `total` threads if at least `total` called, and none otherwise;
   * the mutex is free and no token is left over.
   */
  lemma StuckOutcome(s: State, callers: nat, total: U32)
    requires Admissible(callers, total) && Reachable(s, callers, total) && Stuck(s)
    ensures Number(s.threads, Returned) == if callers >= total then total else 0
    ensures s.count == (total - callers) % U32_MOD
    ensures callers > 0 ==> s.owner.None?
    ensures s.tokens == 0
  {
    ReachableInv(s, callers, total);
    forall i | 0 <= i < callers
      ensures s.owner.None? && (s.threads[i].pc.Done? || (s.threads[i].pc.Acquiring? && s.tokens == 0)) {
      StuckThreads(s, callers, total, i);
    }
    NumberSame(s.threads, Returned, TookToken);
    NumberAll(s.threads, CountedDown);
    NumberAll(s.threads, Returned);
  }

  /** All callers of every maximal run return exactly when there are as many callers as the barrier was built for. */
  lemma AllReturnIff(s: State, callers: nat, total: U32)
    requires Admissible(callers, total) && callers >= 1 && Reachable(s, callers, total) && Stuck(s)
    ensures (forall i :: 0 <= i < |s.threads| ==> s.threads[i].pc.Done?) <==> callers == total
    ensures callers == total ==> s.count == 0 && s.tokens == 0
  {
    ReachableInv(s, callers, total);
    StuckOutcome(s, callers, total);
    NumberAll(s.threads, Returned);
  }

  // ----- Termination -----

  function Rank(pc: Pc, total: U32): nat {
    match pc
    case Outside => total + 8
    case Entering => total + 7
    case Holding => total + 6
    case Last => total + 5
    case Giving(g) => if g <= total then total - g + 4 else 4
    case Leaving => 3
    case Acquiring => 2
    case Reading => 1
    case Done(_) => 0
  }

  function Measure(threads: seq<Thread>, total: U32): nat {
    if threads == [] then 0 else Rank(threads[0].pc, total) + Measure(threads[1..], total)
  }

  lemma {:induction false} MeasureUpdate(threads: seq<Thread>, total: U32, i: nat, t: Thread)
    requires i < |threads|
    ensures Measure(threads[i := t], total) == Measure(threads, total) - Rank(threads[i].pc, total) + Rank(t.pc, total)
  {
    if i > 0 {
      MeasureUpdate(threads[1..], total, i - 1, t);
      assert threads[i := t][1..] == threads[1..][i - 1 := t];
    } else {
      assert threads[i := t][1..] == threads[1..];
    }
  }

  lemma RankFalls(s: State, i: nat, now: int, s': State)
    requires StepOf(s, i, now, s')
    ensures s'.total == s.total && |s'.threads| == |s.threads|
    ensures Rank(s'.threads[i].pc, s.total) < Rank(s.threads[i].pc, s.total)
  {
  }

  lemma StepDecreases(s: State, i: nat, now: int, s': State)
    requires StepOf(s, i, now, s')
    ensures s'.total == s.total && Measure(s'.threads, s.total) < Measure(s.threads, s.total)
  {
    RankFalls(s, i, now, s');
    MeasureUpdate(s.threads, s.total, i, s'.threads[i]);
    assert s'.threads == s.threads[i := s'.threads[i]];
  }

  lemma {:induction false} InitMeasure(threads: seq<Thread>, total: U32)
    requires forall i :: 0 <= i < |threads| ==> threads[i].pc.Outside?
    ensures Measure(threads, total) == |threads| * (total + 8)
  {
    if threads != [] {
      InitMeasure(threads[1..], total);
    }
  }

  lemma {:induction false} RunMeasure(run: seq<State>, callers: nat, total: U32, k: nat)
    requires Run(run, callers, total) && k < |run|
    ensures run[k].total == total && Measure(run[k].threads, total) + k <= callers * (total + 8)
  {
    if k == 0 {
      InitMeasure(run[0].threads, total);
    } else {
      RunMeasure(run, callers, total, k - 1);
      assert Next(run[k - 1], run[k]);
      var i, now :| StepOf(run[k - 1], i, now, run[k]);
      StepDecreases(run[k - 1], i, now, run[k]);
    }
  }

  /** No run goes on for ever: it has at most `callers * (total + 8)` steps. */
  lemma RunsAreFinite(run: seq<State>, callers: nat, total: U32)
    requires Run(run, callers, total)
    ensures |run| - 1 <= callers * (total + 8)
  {
    RunMeasure(run, callers, total, |run| - 1);
  }
}
