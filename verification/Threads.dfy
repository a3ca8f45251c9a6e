/**
 * The start / thunk / join protocol of Thread. There is any number of Thread objects, each used by one client
 * that makes a list of calls; the kernel thread a start creates runs the thunk. Every access to shared state
 * is a step, and all clients and thunks interleave freely. Tasks terminate.
 */
module Threads {
  import opened Words
  import opened Options

  datatype Call = Start | WaitStarted | Join

  /** Where a client is; it holds the object's mutex in the states after a locking one until an unlocking one. */
  datatype ClientPc =
    | Idle
    | StartLocking | StartChecking | Creating | Starting | Counting | StartUnlocking
    | JoinLocking | JoinChecking | JoinReleasing | JoinWaiting | JoinRelocking | Resetting | JoinUnlocking
    | EventWaiting | EventClearing

  /** Where an object's kernel thread is. */
  datatype ThunkPc =
    | NoThread | Created | Signalling | Running | Exiting | Decrementing | Unlocking | Returning | Terminated

  datatype Owner = Free | ByClient | ByThunk

  /** `starts` and `runs` record how many kernel threads were created and how many tasks were run to their end. */
  datatype Object = Object(
    program: seq<Call>,
    client: ClientPc,
    thunk: ThunkPc,
    owner: Owner,
    tid: bool,
    event: bool,
    starts: nat,
    runs: nat)

  /** All objects, and the counter they share. */
  datatype System = System(objects: seq<Object>, count: U8)

  function Fresh(program: seq<Call>): Object {
    Object(program, Idle, NoThread, Free, false, false, 0, 0)
  }

  function Init(programs: seq<seq<Call>>): System {
    System(seq(|programs|, i requires 0 <= i < |programs| => Fresh(programs[i])), 0)
  }

  /** The next step of a client; None while it is blocked or has finished its calls. */
  function ClientStep(o: Object): Option<Object> {
    match o.client
    case Idle =>
      if o.program == [] then None
      else
        var rest := o.(program := o.program[1..]);
        (match o.program[0]
         case Start => Some(rest.(client := StartLocking))
         case Join => Some(rest.(client := JoinLocking))
         case WaitStarted => Some(rest.(client := EventWaiting)))
    // start
    case StartLocking => if o.owner.Free? then Some(o.(client := StartChecking, owner := ByClient)) else None
    case StartChecking => Some(o.(client := if o.tid then StartUnlocking else Creating))
    case Creating => Some(o.(client := Starting, tid := true, thunk := Created, starts := o.starts + 1))
    case Starting => Some(o.(client := Counting, thunk := Signalling))
    case Counting => Some(o.(client := StartUnlocking))
    case StartUnlocking => Some(o.(client := Idle, owner := Free))
    // join
    case JoinLocking => if o.owner.Free? then Some(o.(client := JoinChecking, owner := ByClient)) else None
    case JoinChecking => Some(o.(client := if o.tid then JoinReleasing else JoinUnlocking))
    case JoinReleasing => Some(o.(client := JoinWaiting, owner := Free))
    case JoinWaiting => if o.thunk.Terminated? then Some(o.(client := JoinRelocking)) else None
    case JoinRelocking => if o.owner.Free? then Some(o.(client := Resetting, owner := ByClient)) else None
    case Resetting => Some(o.(client := JoinUnlocking, tid := false))
    case JoinUnlocking => Some(o.(client := Idle, owner := Free))
    // wait_started
    case EventWaiting => if o.event then Some(o.(client := EventClearing)) else None
    case EventClearing => Some(o.(client := Idle, event := false))
  }

  /** The next step of an object's kernel thread; None while it is blocked, not started or over. */
  function ThunkStep(o: Object): Option<Object> {
    match o.thunk
    case NoThread => None
    case Created => None
    case Signalling => Some(o.(thunk := Running, event := true))
    case Running => Some(o.(thunk := Exiting, runs := o.runs + 1))
    case Exiting => if o.owner.Free? then Some(o.(thunk := Decrementing, owner := ByThunk)) else None
    case Decrementing => Some(o.(thunk := Unlocking))
    case Unlocking => Some(o.(thunk := Returning, owner := Free))
    case Returning => Some(o.(thunk := Terminated))
    case Terminated => None
  }

  datatype Actor = Client | Thunk

  /** What a step does to the shared 8-bit counter. */
  function CountAfter(o: Object, actor: Actor, count: U8): U8 {
    if actor.Client? && o.client.Counting? then (count + 1) % U8_MOD
    else if actor.Thunk? && o.thunk.Decrementing? then (count - 1) % U8_MOD
    else count
  }

  function ActorStep(o: Object, actor: Actor): Option<Object> {
    if actor.Client? then ClientStep(o) else ThunkStep(o)
  }

  ghost predicate StepOf(s: System, i: nat, actor: Actor, s': System) {
    && i < |s.objects|
    && ActorStep(s.objects[i], actor).Some?
    && s' == System(s.objects[i := ActorStep(s.objects[i], actor).value], CountAfter(s.objects[i], actor, s.count))
  }

  ghost predicate Next(s: System, s': System) {
    exists i: nat, actor :: StepOf(s, i, actor, s')
  }

  ghost predicate Run(run: seq<System>, programs: seq<seq<Call>>) {
    |run| > 0 && run[0] == Init(programs) && forall k :: 0 < k < |run| ==> Next(run[k - 1], run[k])
  }

  ghost predicate Reachable(s: System, programs: seq<seq<Call>>) {
    exists run :: Run(run, programs) && run[|run| - 1] == s
  }

  ghost predicate Stuck(s: System) {
    forall i, actor :: 0 <= i < |s.objects| ==> ActorStep(s.objects[i], actor).None?
  }

  // ----- The invariant -----

  predicate ClientHolds(pc: ClientPc) {
    pc.StartChecking? || pc.Creating? || pc.Starting? || pc.Counting? || pc.StartUnlocking?
    || pc.JoinChecking? || pc.JoinReleasing? || pc.Resetting? || pc.JoinUnlocking?
  }

  /** Threads that have been counted and have not been discounted yet. */
  predicate Counted(o: Object) {
    (o.thunk.Signalling? || o.thunk.Running? || o.thunk.Exiting? || o.thunk.Decrementing?) && !o.client.Counting?
  }

  predicate Over(pc: ThunkPc) {
    pc.NoThread? || pc.Terminated?
  }

  ghost predicate ObjectInv(o: Object) {
    && (o.owner.ByClient? <==> ClientHolds(o.client))
    && (o.owner.ByThunk? <==> o.thunk.Decrementing? || o.thunk.Unlocking?)
    && (o.tid ==> !o.thunk.NoThread?)
    && (!o.tid ==> Over(o.thunk))
    && (o.thunk.Created? <==> o.client.Starting?)
    && (o.client.Starting? || o.client.Counting? ==> o.tid)
    && (o.client.Counting? ==> o.thunk.Signalling? || o.thunk.Running? || o.thunk.Exiting?)
    && (o.client.Creating? ==> !o.tid)
    && (o.client.JoinReleasing? || o.client.JoinWaiting? ==> o.tid)
    && (o.client.JoinRelocking? || o.client.Resetting? ==> o.tid && o.thunk.Terminated?)
    && (o.client.JoinUnlocking? ==> !o.tid)
    && (o.starts == 0 ==> o.thunk.NoThread?)
    && (o.starts == 1 && (o.event || o.client.EventClearing?) ==> !(o.thunk.Created? || o.thunk.Signalling?))
    && (o.event || o.client.EventClearing? ==> o.starts > 0)
    && o.starts == o.runs + (if o.thunk.Created? || o.thunk.Signalling? || o.thunk.Running? then 1 else 0)
  }

  function NumberCounted(objects: seq<Object>): (n: nat)
    ensures n <= |objects|
  {
    if objects == [] then 0 else (if Counted(objects[0]) then 1 else 0) + NumberCounted(objects[1..])
  }

  lemma {:induction false} NumberCountedUpdate(objects: seq<Object>, i: nat, o: Object)
    requires i < |objects|
    ensures NumberCounted(objects[i := o]) ==
            NumberCounted(objects) - (if Counted(objects[i]) then 1 else 0) + (if Counted(o) then 1 else 0)
  {
    if i > 0 {
      NumberCountedUpdate(objects[1..], i - 1, o);
      assert objects[i := o][1..] == objects[1..][i - 1 := o];
    } else {
      assert objects[i := o][1..] == objects[1..];
    }
  }

  lemma {:induction false} CountedIsCounted(objects: seq<Object>, i: nat)
    requires i < |objects|
    ensures Counted(objects[i]) ==> NumberCounted(objects) >= 1
    ensures !Counted(objects[i]) ==> NumberCounted(objects) < |objects|
  {
    if i > 0 {
      CountedIsCounted(objects[1..], i - 1);
    }
  }

  lemma {:induction false} NoneCounted(objects: seq<Object>)
    requires forall i :: 0 <= i < |objects| ==> !Counted(objects[i])
    ensures NumberCounted(objects) == 0
  {
    if objects != [] {
      NoneCounted(objects[1..]);
    }
  }

  ghost predicate Inv(s: System, n: nat) {
    && |s.objects| == n
    && (forall i :: 0 <= i < n ==> ObjectInv(s.objects[i]))
    && s.count == NumberCounted(s.objects) % U8_MOD
  }

  predicate InStart(pc: ClientPc) {
    pc.StartLocking? || pc.StartChecking? || pc.Creating? || pc.Starting? || pc.Counting? || pc.StartUnlocking?
  }

  predicate InWait(pc: ClientPc) {
    pc.Idle? || pc.EventWaiting? || pc.EventClearing?
  }

  lemma StartStepInv(o: Object)
    requires ObjectInv(o) && ClientStep(o).Some? && InStart(o.client)
    ensures ObjectInv(ClientStep(o).value)
  {
  }

  lemma WaitStepInv(o: Object)
    requires ObjectInv(o) && ClientStep(o).Some? && InWait(o.client)
    ensures ObjectInv(ClientStep(o).value)
  {
  }

  lemma JoinStepInv(o: Object)
    requires ObjectInv(o) && ClientStep(o).Some? && !InStart(o.client) && !InWait(o.client)
    ensures ObjectInv(ClientStep(o).value)
  {
  }

  lemma ClientStepInv(o: Object)
    requires ObjectInv(o) && ClientStep(o).Some?
    ensures ObjectInv(ClientStep(o).value)
  {
    hide ObjectInv, ClientStep;
    if InStart(o.client) {
      StartStepInv(o);
    } else if InWait(o.client) {
      WaitStepInv(o);
    } else {
      JoinStepInv(o);
    }
  }

  lemma ThunkStepInv(o: Object)
    requires ObjectInv(o) && ThunkStep(o).Some?
    ensures ObjectInv(ThunkStep(o).value)
  {
  }

  lemma StepObjectInv(o: Object, actor: Actor)
    requires ObjectInv(o) && ActorStep(o, actor).Some?
    ensures ObjectInv(ActorStep(o, actor).value)
  {
    hide ObjectInv, ClientStep, ThunkStep;
    if actor.Client? {
      ClientStepInv(o);
    } else {
      ThunkStepInv(o);
    }
  }

  /** A step counts an object, discounts it, or leaves it as it was, just as it changes the counter. */
  lemma StepCounted(o: Object, actor: Actor)
    requires ObjectInv(o) && ActorStep(o, actor).Some?
    ensures var o' := ActorStep(o, actor).value;
            if actor.Client? && o.client.Counting? then !Counted(o) && Counted(o')
            else if actor.Thunk? && o.thunk.Decrementing? then Counted(o) && !Counted(o')
            else Counted(o) == Counted(o')
  {
  }

  /** The 8-bit counter follows a number that goes up or down by one. */
  lemma CounterFollows(n: nat)
    ensures (n % U8_MOD + 1) % U8_MOD == (n + 1) % U8_MOD
    ensures n > 0 ==> (n % U8_MOD - 1) % U8_MOD == (n - 1) % U8_MOD
  {
  }

  lemma StepCount(s: System, i: nat, actor: Actor, s': System)
    requires StepOf(s, i, actor, s') && ObjectInv(s.objects[i]) && s.count == NumberCounted(s.objects) % U8_MOD
    ensures s'.count == NumberCounted(s'.objects) % U8_MOD
  {
    hide ObjectInv, ClientStep, ThunkStep, Counted;
    var o := s.objects[i];
    StepCounted(o, actor);
    NumberCountedUpdate(s.objects, i, ActorStep(o, actor).value);
    CounterFollows(NumberCounted(s.objects));
  }

  lemma StepInv(s: System, i: nat, actor: Actor, s': System, n: nat)
    requires Inv(s, n) && StepOf(s, i, actor, s')
    ensures Inv(s', n)
  {
    hide ObjectInv, ClientStep, ThunkStep, Counted;
    StepObjectInv(s.objects[i], actor);
    StepCount(s, i, actor, s');
  }

  lemma {:induction false} RunInv(run: seq<System>, programs: seq<seq<Call>>, k: nat)
    requires Run(run, programs) && k < |run|
    ensures Inv(run[k], |programs|)
  {
    if k == 0 {
      NoneCounted(run[0].objects);
    } else {
      RunInv(run, programs, k - 1);
      assert Next(run[k - 1], run[k]);
      var i: nat, actor :| StepOf(run[k - 1], i, actor, run[k]);
      StepInv(run[k - 1], i, actor, run[k], |programs|);
    }
  }

  lemma ReachableInv(s: System, programs: seq<seq<Call>>)
    requires Reachable(s, programs)
    ensures Inv(s, |programs|)
  {
    var run :| Run(run, programs) && run[|run| - 1] == s;
    RunInv(run, programs, |run| - 1);
  }

  // ----- Safety in every reachable state -----

  /**
   * While fewer than 256 threads are counted at once, the counter is the number of threads counted and not
   * yet discounted; discounting never takes it below 0.
   */
  lemma CounterNeverUnderflows(s: System, programs: seq<seq<Call>>, i: nat)
    requires Reachable(s, programs) && i < |s.objects| && NumberCounted(s.objects) < U8_MOD
    ensures s.count == NumberCounted(s.objects)
    ensures s.objects[i].thunk.Decrementing? ==> s.count >= 1
    ensures s.objects[i].client.Counting? && |programs| < U8_MOD ==> s.count + 1 < U8_MOD
  {
    ReachableInv(s, programs);
    CountedIsCounted(s.objects, i);
  }

  /** With no more objects than stacks in the pool, the pool assertion of `start` always holds. */
  lemma PoolHasRoom(s: System, programs: seq<seq<Call>>, poolSize: nat, i: nat)
    requires |programs| <= poolSize && Reachable(s, programs) && i < |s.objects|
    requires s.objects[i].client.Creating?
    ensures s.count < poolSize
  {
    ReachableInv(s, programs);
    CountedIsCounted(s.objects, i);
  }

  /**
   * Each kernel thread runs its task once. When a join is about to return, every thread the object ever
   * started has run its task and has been discounted.
   */
  lemma JoinedTaskRanOnce(s: System, programs: seq<seq<Call>>, i: nat)
    requires Reachable(s, programs) && i < |s.objects|
    ensures s.objects[i].runs <= s.objects[i].starts <= s.objects[i].runs + 1
    ensures s.objects[i].client.JoinUnlocking? ==>
              s.objects[i].runs == s.objects[i].starts && Over(s.objects[i].thunk) && !Counted(s.objects[i])
  {
    ReachableInv(s, programs);
  }

  /** On an object started once, wait_started returns only when the thread has signalled that it runs. */
  lemma FirstWaitIsSound(s: System, programs: seq<seq<Call>>, i: nat)
    requires Reachable(s, programs) && i < |s.objects|
    requires s.objects[i].client.EventClearing? && s.objects[i].starts <= 1
    ensures s.objects[i].starts == 1 && !(s.objects[i].thunk.Created? || s.objects[i].thunk.Signalling?)
  {
    ReachableInv(s, programs);
  }

  // ----- Progress -----

  /**
   * The calls that cannot block for ever: every wait_started has a start of its own that created a thread.
   * `tid` says whether the object has a thread, `signal` whether such a start is unanswered.
   */
  predicate Answerable(program: seq<Call>, tid: bool, signal: bool) {
    program == []
    || match program[0]
       case Start => Answerable(program[1..], true, signal || !tid)
       case Join => Answerable(program[1..], false, signal)
       case WaitStarted => signal && Answerable(program[1..], tid, false)
  }

  /** A start that no wait_started has answered yet has set the event or is going to. */
  predicate Signalled(o: Object) {
    o.event || o.thunk.Created? || o.thunk.Signalling?
  }

  /** The rest of an object's calls is answerable from the state it will be in after the call in progress. */
  ghost predicate CallInv(o: Object) {
    match o.client
    case StartLocking => Answerable(o.program, true, Signalled(o) || !o.tid)
    case StartChecking => Answerable(o.program, true, Signalled(o) || !o.tid)
    case Creating => Answerable(o.program, true, true)
    case JoinLocking => Answerable(o.program, false, Signalled(o))
    case JoinChecking => Answerable(o.program, false, Signalled(o))
    case JoinReleasing => Answerable(o.program, false, Signalled(o))
    case JoinWaiting => Answerable(o.program, false, Signalled(o))
    case JoinRelocking => Answerable(o.program, false, Signalled(o))
    case Resetting => Answerable(o.program, false, Signalled(o))
    case EventWaiting => Signalled(o) && Answerable(o.program, o.tid, false)
    case EventClearing => Answerable(o.program, o.tid, false)
    case _ => Answerable(o.program, o.tid, Signalled(o))
  }

  /** An unanswered start only helps. */
  lemma {:induction false} AnswerableMore(program: seq<Call>, tid: bool)
    requires Answerable(program, tid, false)
    ensures Answerable(program, tid, true)
  {
    if program != [] && (program[0].Join? || (program[0].Start? && tid)) {
      AnswerableMore(program[1..], program[0].Start?);
    }
  }

  lemma StepCallInv(o: Object, actor: Actor)
    requires ObjectInv(o) && CallInv(o) && ActorStep(o, actor).Some?
    ensures CallInv(ActorStep(o, actor).value)
  {
    var o' := ActorStep(o, actor).value;
    if o.client.EventClearing? && actor.Client? && Signalled(o') {
      AnswerableMore(o.program, o.tid);
    }
  }

  lemma {:induction false} RunCallInv(run: seq<System>, programs: seq<seq<Call>>, k: nat, j: nat)
    requires Run(run, programs) && k < |run| && j < |programs|
    requires Answerable(programs[j], false, false)
    ensures j < |run[k].objects| && CallInv(run[k].objects[j])
  {
    if k > 0 {
      RunCallInv(run, programs, k - 1, j);
      RunInv(run, programs, k - 1);
      assert Next(run[k - 1], run[k]);
      var i: nat, actor :| StepOf(run[k - 1], i, actor, run[k]);
      if i == j {
        StepCallInv(run[k - 1].objects[j], actor);
      }
    }
  }

  /** An object on which neither client nor thunk can move has finished its calls. */
  lemma StuckObject(o: Object)
    requires ObjectInv(o) && CallInv(o) && ClientStep(o).None? && ThunkStep(o).None?
    ensures o.client.Idle? && o.program == [] && Over(o.thunk)
  {
  }

  /**
   * No deadlock: in a state without enabled steps every client has returned from all its calls, every thread
   * has terminated, every mutex is free and the counter is 0.
   */
  lemma StuckMeansFinished(s: System, programs: seq<seq<Call>>)
    requires Reachable(s, programs) && Stuck(s)
    requires forall j :: 0 <= j < |programs| ==> Answerable(programs[j], false, false)
    ensures forall i :: 0 <= i < |s.objects| ==>
              s.objects[i].client.Idle? && s.objects[i].program == [] && Over(s.objects[i].thunk)
              && s.objects[i].owner.Free? && s.objects[i].runs == s.objects[i].starts
    ensures s.count == 0
  {
    ReachableInv(s, programs);
    var run :| Run(run, programs) && run[|run| - 1] == s;
    forall i | 0 <= i < |s.objects|
      ensures s.objects[i].client.Idle? && s.objects[i].program == [] && Over(s.objects[i].thunk) {
      RunCallInv(run, programs, |run| - 1, i);
      assert ActorStep(s.objects[i], Client).None? && ActorStep(s.objects[i], Thunk).None?;
      StuckObject(s.objects[i]);
    }
    NoneCounted(s.objects);
  }

  // ----- Exactly the unanswerable calls block -----

  /** Neither the client nor the thunk of an object can move, though calls are left to return from. */
  ghost predicate Blocked(o: Object) {
    ClientStep(o).None? && ThunkStep(o).None? && !(o.client.Idle? && o.program == [])
  }

  /** An object's state after a schedule of its two actors; None if the schedule asks for a disabled step. */
  function Play(o: Object, schedule: seq<Actor>): Option<Object> {
    if schedule == [] then Some(o)
    else
      match Play(o, schedule[..|schedule| - 1])
      case None => None
      case Some(before) => ActorStep(before, schedule[|schedule| - 1])
  }

  lemma Then(o: Object, schedule: seq<Actor>, before: Object, actor: Actor) returns (longer: seq<Actor>, after: Object)
    requires Play(o, schedule) == Some(before) && ActorStep(before, actor).Some?
    ensures Play(o, longer) == Some(after) && ActorStep(before, actor) == Some(after)
  {
    longer, after := schedule + [actor], ActorStep(before, actor).value;
    assert longer[..|schedule|] == schedule;
  }

  /** Between two calls, with nothing left to happen on the object's kernel thread. */
  ghost predicate Quiet(o: Object) {
    o.client.Idle? && o.owner.Free? && (if o.tid then o.thunk.Terminated? else Over(o.thunk))
  }

  lemma PlayClient(o: Object, schedule: seq<Actor>, before: Object) returns (longer: seq<Actor>, after: Object)
    requires Play(o, schedule) == Some(before) && ClientStep(before).Some?
    ensures Play(o, longer) == Some(after) && ClientStep(before) == Some(after)
  {
    longer, after := Then(o, schedule, before, Client);
  }

  /** A start on an object without a thread: the client's steps, then all of the thunk's. */
  lemma PlayStart(o: Object, schedule: seq<Actor>, before: Object) returns (longer: seq<Actor>, after: Object)
    requires Play(o, schedule) == Some(before) && Quiet(before) && !before.tid
    requires before.program != [] && before.program[0].Start?
    ensures Play(o, longer) == Some(after) && Quiet(after)
    ensures after.program == before.program[1..] && after.tid && after.event && after.starts == before.starts + 1
  {
    hide Play;
    longer, after := PlayClient(o, schedule, before);
    longer, after := PlayClient(o, longer, after);
    longer, after := PlayClient(o, longer, after);
    longer, after := PlayClient(o, longer, after);
    longer, after := PlayClient(o, longer, after);
    longer, after := PlayClient(o, longer, after);
    longer, after := PlayClient(o, longer, after);
    longer, after := Then(o, longer, after, Thunk);
    longer, after := Then(o, longer, after, Thunk);
    longer, after := Then(o, longer, after, Thunk);
    longer, after := Then(o, longer, after, Thunk);
    longer, after := Then(o, longer, after, Thunk);
    longer, after := Then(o, longer, after, Thunk);
  }

  /** The client's steps of a start, before the new thread has done anything. */
  lemma PlayBegin(o: Object, schedule: seq<Actor>, before: Object) returns (longer: seq<Actor>, after: Object)
    requires Play(o, schedule) == Some(before) && Quiet(before) && !before.tid
    requires before.program != [] && before.program[0].Start?
    ensures Play(o, longer) == Some(after) && after.client.Idle? && after.owner.Free?
    ensures after.tid && after.thunk.Signalling? && after.runs == before.runs
    ensures after.program == before.program[1..] && after.event == before.event && after.starts == before.starts + 1
  {
    hide Play;
    longer, after := PlayClient(o, schedule, before);
    longer, after := PlayClient(o, longer, after);
    longer, after := PlayClient(o, longer, after);
    longer, after := PlayClient(o, longer, after);
    longer, after := PlayClient(o, longer, after);
    longer, after := PlayClient(o, longer, after);
    longer, after := PlayClient(o, longer, after);
  }

  /** A start on an object with a thread, or a join on one without: lock, look, unlock. */
  lemma PlayLook(o: Object, schedule: seq<Actor>, before: Object) returns (longer: seq<Actor>, after: Object)
    requires Play(o, schedule) == Some(before) && Quiet(before)
    requires before.program != [] && before.program[0] == if before.tid then Start else Join
    ensures Play(o, longer) == Some(after) && Quiet(after)
    ensures after.program == before.program[1..] && after.tid == before.tid && after.event == before.event
  {
    hide Play;
    longer, after := PlayClient(o, schedule, before);
    longer, after := PlayClient(o, longer, after);
    longer, after := PlayClient(o, longer, after);
    longer, after := PlayClient(o, longer, after);
  }

  lemma PlayJoin(o: Object, schedule: seq<Actor>, before: Object) returns (longer: seq<Actor>, after: Object)
    requires Play(o, schedule) == Some(before) && Quiet(before) && before.tid
    requires before.program != [] && before.program[0].Join?
    ensures Play(o, longer) == Some(after) && Quiet(after)
    ensures after.program == before.program[1..] && !after.tid && after.event == before.event
            && after.starts == before.starts
  {
    hide Play;
    longer, after := PlayClient(o, schedule, before);
    longer, after := PlayClient(o, longer, after);
    longer, after := PlayClient(o, longer, after);
    longer, after := PlayClient(o, longer, after);
    longer, after := PlayClient(o, longer, after);
    longer, after := PlayClient(o, longer, after);
    longer, after := PlayClient(o, longer, after);
    longer, after := PlayClient(o, longer, after);
  }

  lemma PlayWait(o: Object, schedule: seq<Actor>, before: Object) returns (longer: seq<Actor>, after: Object)
    requires Play(o, schedule) == Some(before) && Quiet(before) && before.event
    requires before.program != [] && before.program[0].WaitStarted?
    ensures Play(o, longer) == Some(after) && Quiet(after)
    ensures after.program == before.program[1..] && after.tid == before.tid && !after.event
  {
    hide Play;
    longer, after := PlayClient(o, schedule, before);
    longer, after := PlayClient(o, longer, after);
    longer, after := PlayClient(o, longer, after);
  }

  /** Calls that are not answerable can be scheduled into a wait that nothing will ever end. */
  lemma {:induction false} PlayBlocks(o: Object, schedule: seq<Actor>, before: Object) returns (longer: seq<Actor>)
    requires Play(o, schedule) == Some(before) && Quiet(before)
    requires !Answerable(before.program, before.tid, before.event)
    ensures Play(o, longer).Some? && Blocked(Play(o, longer).value)
    decreases |before.program|
  {
    var after;
    match before.program[0]
    case Start =>
      if before.tid {
        longer, after := PlayLook(o, schedule, before);
      } else {
        longer, after := PlayStart(o, schedule, before);
      }
      longer := PlayBlocks(o, longer, after);
    case Join =>
      if before.tid {
        longer, after := PlayJoin(o, schedule, before);
      } else {
        longer, after := PlayLook(o, schedule, before);
      }
      longer := PlayBlocks(o, longer, after);
    case WaitStarted =>
      if before.event {
        longer, after := PlayWait(o, schedule, before);
        longer := PlayBlocks(o, longer, after);
      } else {
        longer, after := PlayClient(o, schedule, before);
      }
  }

  /** In a reachable state, object `j` can go on alone. */
  lemma {:induction false} PlayIn(programs: seq<seq<Call>>, t: System, j: nat, schedule: seq<Actor>) returns (s: System)
    requires Reachable(t, programs) && j < |t.objects| && Play(t.objects[j], schedule).Some?
    ensures Reachable(s, programs) && s.objects == t.objects[j := Play(t.objects[j], schedule).value]
  {
    if schedule == [] {
      s := t;
    } else {
      var n := |schedule| - 1;
      var u := PlayIn(programs, t, j, schedule[..n]);
      var o := u.objects[j];
      s := System(u.objects[j := ActorStep(o, schedule[n]).value], CountAfter(o, schedule[n], u.count));
      assert StepOf(u, j, schedule[n], s);
      var run :| Run(run, programs) && run[|run| - 1] == u;
      assert Run(run + [s], programs);
    }
  }

  /** Whatever an object can do alone, it can do in the system. */
  lemma PlayedIsReachable(programs: seq<seq<Call>>, j: nat, schedule: seq<Actor>) returns (s: System)
    requires j < |programs| && Play(Fresh(programs[j]), schedule).Some?
    ensures Reachable(s, programs) && |s.objects| == |programs|
            && s.objects[j] == Play(Fresh(programs[j]), schedule).value
  {
    s := Init(programs);
    assert Run([s], programs);
    s := PlayIn(programs, s, j, schedule);
  }

  /** On a second start the event of the first may still be set, and wait_started returns before the thread runs. */
  lemma RestartedWaitIsNot() returns (s: System)
    ensures Reachable(s, [[Start, Join, Start, WaitStarted]]) && |s.objects| == 1
    ensures s.objects[0].client.EventClearing? && s.objects[0].thunk.Signalling? && s.objects[0].starts == 2
  {
    hide Play;
    var programs := [[Start, Join, Start, WaitStarted]];
    var start := Fresh(programs[0]);
    PlayNothing(start);
    var schedule, o := PlayStart(start, [], start);
    schedule, o := PlayJoin(start, schedule, o);
    schedule, o := PlayBegin(start, schedule, o);
    schedule, o := PlayClient(start, schedule, o);
    schedule, o := PlayClient(start, schedule, o);
    s := PlayedIsReachable(programs, 0, schedule);
  }

  lemma PlayNothing(o: Object)
    ensures Play(o, []) == Some(o)
  {
  }

  /** wait_started can return while the task is still running: it does not wait for the task's end. */
  lemma WaitReturnsWhileRunning() returns (s: System)
    ensures Reachable(s, [[Start, WaitStarted]]) && |s.objects| == 1
    ensures s.objects[0].client.Idle? && s.objects[0].program == []
    ensures s.objects[0].thunk.Running? && s.objects[0].starts == 1 && s.objects[0].runs == 0
  {
    hide Play;
    var programs := [[Start, WaitStarted]];
    var start := Fresh(programs[0]);
    PlayNothing(start);
    var schedule, o := PlayBegin(start, [], start);
    schedule, o := Then(start, schedule, o, Thunk);
    schedule, o := PlayClient(start, schedule, o);
    schedule, o := PlayClient(start, schedule, o);
    schedule, o := PlayClient(start, schedule, o);
    s := PlayedIsReachable(programs, 0, schedule);
  }

  /** While the task runs, a second start returns without creating a thread: the thunk does not hold the mutex. */
  lemma StartReturnsWhileRunning() returns (s: System)
    ensures Reachable(s, [[Start, Start]]) && |s.objects| == 1
    ensures s.objects[0].client.Idle? && s.objects[0].program == []
    ensures s.objects[0].thunk.Running? && s.objects[0].starts == 1 && s.objects[0].runs == 0
  {
    hide Play;
    var programs := [[Start, Start]];
    var start := Fresh(programs[0]);
    PlayNothing(start);
    var schedule, o := PlayBegin(start, [], start);
    schedule, o := Then(start, schedule, o, Thunk);
    schedule, o := PlayClient(start, schedule, o);
    schedule, o := PlayClient(start, schedule, o);
    schedule, o := PlayClient(start, schedule, o);
    schedule, o := PlayClient(start, schedule, o);
    s := PlayedIsReachable(programs, 0, schedule);
  }

  /** A client can be blocked for ever exactly when its calls are not answerable. */
  lemma BlockedIff(programs: seq<seq<Call>>, j: nat)
    requires j < |programs|
    ensures (exists s :: Reachable(s, programs) && j < |s.objects| && Blocked(s.objects[j]))
            <==> !Answerable(programs[j], false, false)
  {
    if Answerable(programs[j], false, false) {
      forall s | Reachable(s, programs) && j < |s.objects| ensures !Blocked(s.objects[j]) {
        ReachableInv(s, programs);
        var run :| Run(run, programs) && run[|run| - 1] == s;
        RunCallInv(run, programs, |run| - 1, j);
        if Blocked(s.objects[j]) {
          StuckObject(s.objects[j]);
          assert false;
        }
      }
    } else {
      assert Play(Fresh(programs[j]), []) == Some(Fresh(programs[j]));
      var schedule := PlayBlocks(Fresh(programs[j]), [], Fresh(programs[j]));
      var s := PlayedIsReachable(programs, j, schedule);
      assert Blocked(s.objects[j]);
    }
  }

  // ----- Exactly the restarts before the event is cleared make wait_started hasty -----

  /** A wait_started is about to return although the latest thread has not signalled. */
  predicate Hasty(o: Object) {
    o.client.EventClearing? && (o.thunk.Created? || o.thunk.Signalling?)
  }

  /**
   * The calls of which no wait_started can be hasty. `tid` says whether the object has a thread, `signal`
   * whether some start is unanswered, `stale` whether one before the latest is.
   */
  predicate Prompt(program: seq<Call>, tid: bool, signal: bool, stale: bool) {
    program == []
    || match program[0]
       case Start => if tid then Prompt(program[1..], tid, signal, stale) else Prompt(program[1..], true, true, signal)
       case Join => Prompt(program[1..], false, signal, false)
       case WaitStarted => !signal || (!stale && Prompt(program[1..], tid, false, false))
  }

  /** The event is still set for an earlier thread than the latest. */
  predicate Stale(o: Object) {
    o.event && (o.thunk.Created? || o.thunk.Signalling?)
  }

  /** The rest of an object's calls is prompt from the state it will be in after the call in progress. */
  ghost predicate PromptInv(o: Object) {
    match o.client
    case StartLocking => StartIsPrompt(o)
    case StartChecking => StartIsPrompt(o)
    case Creating => Prompt(o.program, true, true, Signalled(o))
    case JoinLocking => Prompt(o.program, false, Signalled(o), false)
    case JoinChecking => Prompt(o.program, false, Signalled(o), false)
    case JoinReleasing => Prompt(o.program, false, Signalled(o), false)
    case JoinWaiting => Prompt(o.program, false, Signalled(o), false)
    case JoinRelocking => Prompt(o.program, false, Signalled(o), false)
    case Resetting => Prompt(o.program, false, Signalled(o), false)
    case EventWaiting => Signalled(o) ==> !Stale(o) && Prompt(o.program, o.tid, false, false)
    case EventClearing => !Hasty(o) && Prompt(o.program, o.tid, false, false)
    case _ => Prompt(o.program, o.tid, Signalled(o), Stale(o))
  }

  ghost predicate StartIsPrompt(o: Object) {
    if o.tid then Prompt(o.program, true, Signalled(o), Stale(o)) else Prompt(o.program, true, true, Signalled(o))
  }

  /** An event that is not stale only helps. */
  lemma {:induction false} PromptFresh(program: seq<Call>, tid: bool, signal: bool)
    requires Prompt(program, tid, signal, true)
    ensures Prompt(program, tid, signal, false)
  {
    if program != [] && program[0].Start? && tid {
      PromptFresh(program[1..], tid, signal);
    }
  }

  lemma StepPromptInv(o: Object, actor: Actor)
    requires ObjectInv(o) && PromptInv(o) && ActorStep(o, actor).Some?
    ensures PromptInv(ActorStep(o, actor).value)
  {
    if actor.Client? {
      ClientStepPrompt(o);
    } else {
      ThunkStepPrompt(o);
    }
  }

  lemma ClientStepPrompt(o: Object)
    requires ObjectInv(o) && PromptInv(o) && ClientStep(o).Some?
    ensures PromptInv(ClientStep(o).value)
  {
    hide ObjectInv, PromptInv, ClientStep;
    if InStart(o.client) {
      StartStepPrompt(o);
    } else if InWait(o.client) {
      WaitStepPrompt(o);
    } else {
      JoinStepPrompt(o);
    }
  }

  lemma StartStepPrompt(o: Object)
    requires ObjectInv(o) && PromptInv(o) && ClientStep(o).Some? && InStart(o.client)
    ensures PromptInv(ClientStep(o).value)
  {
  }

  lemma WaitStepPrompt(o: Object)
    requires ObjectInv(o) && PromptInv(o) && ClientStep(o).Some? && InWait(o.client)
    ensures PromptInv(ClientStep(o).value)
  {
  }

  lemma JoinStepPrompt(o: Object)
    requires ObjectInv(o) && PromptInv(o) && ClientStep(o).Some? && !InStart(o.client) && !InWait(o.client)
    ensures PromptInv(ClientStep(o).value)
  {
  }

  lemma ThunkStepPrompt(o: Object)
    requires ObjectInv(o) && PromptInv(o) && ThunkStep(o).Some?
    ensures PromptInv(ThunkStep(o).value)
  {
    if Stale(o) && Prompt(o.program, o.tid, true, true) {
      PromptFresh(o.program, o.tid, true);
    }
  }

  lemma {:induction false} RunPromptInv(run: seq<System>, programs: seq<seq<Call>>, k: nat, j: nat)
    requires Run(run, programs) && k < |run| && j < |programs|
    requires Prompt(programs[j], false, false, false)
    ensures j < |run[k].objects| && PromptInv(run[k].objects[j])
  {
    if k > 0 {
      RunPromptInv(run, programs, k - 1, j);
      RunInv(run, programs, k - 1);
      assert Next(run[k - 1], run[k]);
      var i: nat, actor :| StepOf(run[k - 1], i, actor, run[k]);
      if i == j {
        StepPromptInv(run[k - 1].objects[j], actor);
      }
    }
  }

  /** After a restart with the old event still set, the next wait_started is hasty. */
  lemma {:induction false} PlayStale(o: Object, schedule: seq<Actor>, before: Object) returns (longer: seq<Actor>)
    requires Play(o, schedule) == Some(before) && before.client.Idle? && before.owner.Free?
    requires before.tid && before.event && before.thunk.Signalling?
    requires !Prompt(before.program, true, true, true) && Prompt(before.program, true, true, false)
    ensures Play(o, longer).Some? && Hasty(Play(o, longer).value)
    decreases |before.program|
  {
    hide Play;
    var after;
    longer, after := PlayClient(o, schedule, before);
    longer, after := PlayClient(o, longer, after);
    if before.program[0].Start? {
      longer, after := PlayClient(o, longer, after);
      longer, after := PlayClient(o, longer, after);
      longer := PlayStale(o, longer, after);
    }
  }

  /** Calls that are not prompt can be scheduled into a hasty wait_started. */
  lemma {:induction false} PlayHasty(o: Object, schedule: seq<Actor>, before: Object) returns (longer: seq<Actor>)
    requires Play(o, schedule) == Some(before) && Quiet(before)
    requires !Prompt(before.program, before.tid, before.event, false)
    ensures Play(o, longer).Some? && Hasty(Play(o, longer).value)
    decreases |before.program|
  {
    hide Play;
    var after;
    match before.program[0]
    case Start =>
      if before.tid {
        longer, after := PlayLook(o, schedule, before);
        longer := PlayHasty(o, longer, after);
      } else if Prompt(before.program[1..], true, true, false) {
        longer, after := PlayBegin(o, schedule, before);
        longer := PlayStale(o, longer, after);
      } else {
        longer, after := PlayStart(o, schedule, before);
        longer := PlayHasty(o, longer, after);
      }
    case Join =>
      if before.tid {
        longer, after := PlayJoin(o, schedule, before);
      } else {
        longer, after := PlayLook(o, schedule, before);
      }
      longer := PlayHasty(o, longer, after);
    case WaitStarted =>
      longer, after := PlayWait(o, schedule, before);
      longer := PlayHasty(o, longer, after);
  }

  /** A wait_started can return before the latest thread has signalled exactly when the calls are not prompt. */
  lemma HastyIff(programs: seq<seq<Call>>, j: nat)
    requires j < |programs|
    ensures (exists s :: Reachable(s, programs) && j < |s.objects| && Hasty(s.objects[j]))
            <==> !Prompt(programs[j], false, false, false)
  {
    if Prompt(programs[j], false, false, false) {
      forall s | Reachable(s, programs) && j < |s.objects| ensures !Hasty(s.objects[j]) {
        var run :| Run(run, programs) && run[|run| - 1] == s;
        RunPromptInv(run, programs, |run| - 1, j);
      }
    } else {
      PlayNothing(Fresh(programs[j]));
      var schedule := PlayHasty(Fresh(programs[j]), [], Fresh(programs[j]));
      var s := PlayedIsReachable(programs, j, schedule);
      assert Hasty(s.objects[j]);
    }
  }

  // ----- Exactly the lists that begin a thread can fill the pool -----

  /** The calls that reach a start: no wait_started comes before the first one. */
  predicate Startable(program: seq<Call>) {
    program != [] && (program[0].Start? || (program[0].Join? && Startable(program[1..])))
  }

  function NumberStartable(programs: seq<seq<Call>>): nat {
    if programs == [] then 0 else (if Startable(programs[0]) then 1 else 0) + NumberStartable(programs[1..])
  }

  lemma {:induction false} NumberStartableExtend(programs: seq<seq<Call>>, k: nat)
    requires k < |programs|
    ensures NumberStartable(programs[..k + 1])
            == NumberStartable(programs[..k]) + (if Startable(programs[k]) then 1 else 0)
  {
    if k > 0 {
      NumberStartableExtend(programs[1..], k - 1);
      assert programs[..k + 1][1..] == programs[1..][..k] && programs[..k][1..] == programs[1..][..k - 1];
    }
  }

  /** The object's client is at or behind a start. */
  predicate Begun(o: Object) {
    o.starts > 0 || InStart(o.client)
  }

  /** An object that has reached a start had a list of calls that does. */
  ghost predicate BegunInv(o: Object, program: seq<Call>) {
    && (Begun(o) ==> Startable(program))
    && (!Begun(o) && !o.client.EventWaiting? && Startable(o.program) ==> Startable(program))
  }

  lemma StepBegunInv(o: Object, actor: Actor, program: seq<Call>)
    requires ObjectInv(o) && BegunInv(o, program) && ActorStep(o, actor).Some?
    ensures BegunInv(ActorStep(o, actor).value, program)
  {
  }

  lemma {:induction false} RunBegunInv(run: seq<System>, programs: seq<seq<Call>>, k: nat, j: nat)
    requires Run(run, programs) && k < |run| && j < |programs|
    ensures j < |run[k].objects| && BegunInv(run[k].objects[j], programs[j])
  {
    if k > 0 {
      RunBegunInv(run, programs, k - 1, j);
      RunInv(run, programs, k - 1);
      assert Next(run[k - 1], run[k]);
      var i: nat, actor :| StepOf(run[k - 1], i, actor, run[k]);
      if i == j {
        StepBegunInv(run[k - 1].objects[j], actor, programs[j]);
      }
    }
  }

  /** Counted objects are among those whose calls reach a start, and object `i` is one that is not counted. */
  lemma {:induction false} CountedAreStartable(objects: seq<Object>, programs: seq<seq<Call>>, i: nat)
    requires |objects| == |programs|
    requires forall j :: 0 <= j < |objects| && Counted(objects[j]) ==> Startable(programs[j])
    ensures NumberCounted(objects) <= NumberStartable(programs)
    ensures i < |objects| && !Counted(objects[i]) && Startable(programs[i]) ==>
              NumberCounted(objects) < NumberStartable(programs)
  {
    if objects != [] {
      CountedAreStartable(objects[1..], programs[1..], if i > 0 then i - 1 else |objects|);
    }
  }

  /** The joins before the first start find no thread. */
  lemma {:induction false} PlayToStart(o: Object, schedule: seq<Actor>, before: Object)
    returns (longer: seq<Actor>, after: Object)
    requires Play(o, schedule) == Some(before) && Quiet(before) && !before.tid && Startable(before.program)
    ensures Play(o, longer) == Some(after) && Quiet(after) && !after.tid
    ensures after.program != [] && after.program[0].Start?
    decreases |before.program|
  {
    hide Play;
    longer, after := schedule, before;
    if before.program[0].Join? {
      longer, after := PlayLook(o, schedule, before);
      longer, after := PlayToStart(o, longer, after);
    }
  }

  /** The first `k` objects have begun a thread each, if their calls reach a start; the others are untouched. */
  ghost predicate Filled(s: System, programs: seq<seq<Call>>, k: nat)
    requires k <= |programs|
  {
    && |s.objects| == |programs|
    && (forall i :: k <= i < |programs| ==> s.objects[i] == Fresh(programs[i]))
    && NumberCounted(s.objects) == NumberStartable(programs[..k])
  }

  lemma {:induction false} Fill(programs: seq<seq<Call>>, k: nat) returns (s: System)
    requires k <= |programs|
    ensures Reachable(s, programs) && Filled(s, programs, k)
  {
    hide Startable, Reachable;
    if k == 0 {
      s := Init(programs);
      InitReachable(programs);
      NoneCounted(s.objects);
    } else {
      s := Fill(programs, k - 1);
      NumberStartableExtend(programs, k - 1);
      if Startable(programs[k - 1]) {
        s := BeginThread(programs, s, k - 1);
      }
    }
  }

  lemma InitReachable(programs: seq<seq<Call>>)
    ensures Reachable(Init(programs), programs)
  {
    assert Run([Init(programs)], programs);
  }

  /** An untouched object whose calls reach a start can begin its thread, which is then counted. */
  lemma BeginThread(programs: seq<seq<Call>>, t: System, j: nat) returns (s: System)
    requires Reachable(t, programs) && j < |t.objects| && j < |programs| && t.objects[j] == Fresh(programs[j])
    requires Startable(programs[j])
    ensures Reachable(s, programs) && |s.objects| == |t.objects|
    ensures forall i :: 0 <= i < |t.objects| && i != j ==> s.objects[i] == t.objects[i]
    ensures NumberCounted(s.objects) == NumberCounted(t.objects) + 1
  {
    hide Play, Startable, Reachable;
    var o := t.objects[j];
    PlayNothing(o);
    var schedule, after := PlayToStart(o, [], o);
    schedule, after := PlayBegin(o, schedule, after);
    NumberCountedUpdate(t.objects, j, after);
    s := PlayIn(programs, t, j, schedule);
  }

  /** The list of calls that reaches a start as number `n`, counted from 0. */
  lemma {:induction false} NthStartable(programs: seq<seq<Call>>, n: nat) returns (i: nat)
    requires n < NumberStartable(programs)
    ensures i < |programs| && Startable(programs[i]) && NumberStartable(programs[..i]) == n
  {
    if n == 0 && Startable(programs[0]) {
      i := 0;
    } else {
      var first := if Startable(programs[0]) then 1 else 0;
      i := NthStartable(programs[1..], n - first);
      i := i + 1;
      assert programs[..i][1..] == programs[1..][..i - 1];
    }
  }

  ghost predicate StartsOnFullPool(s: System, poolSize: nat, i: nat) {
    i < |s.objects| && s.objects[i].client.Creating? && s.count >= poolSize
  }

  /** The pool assertion of `start` can fail exactly when more lists of calls reach a start than there are stacks. */
  lemma PoolFullIff(programs: seq<seq<Call>>, poolSize: nat)
    requires poolSize < U8_MOD
    ensures (exists s, i: nat :: Reachable(s, programs) && StartsOnFullPool(s, poolSize, i))
            <==> NumberStartable(programs) > poolSize
  {
    if NumberStartable(programs) > poolSize {
      var i := NthStartable(programs, poolSize);
      var s := FillAndStart(programs, i);
      assert StartsOnFullPool(s, poolSize, i);
    } else {
      forall s, i: nat | Reachable(s, programs) ensures !StartsOnFullPool(s, poolSize, i) {
        if i < |s.objects| && s.objects[i].client.Creating? {
          CreatingIsNotCounted(s, programs, i);
        }
      }
    }
  }

  lemma FillAndStart(programs: seq<seq<Call>>, i: nat) returns (s: System)
    requires i < |programs| && Startable(programs[i])
    ensures Reachable(s, programs) && i < |s.objects| && s.objects[i].client.Creating?
    ensures s.count == NumberStartable(programs[..i]) % U8_MOD
  {
    hide Play;
    s := Fill(programs, i);
    var o := s.objects[i];
    PlayNothing(o);
    var schedule, after := PlayToStart(o, [], o);
    schedule, after := PlayClient(o, schedule, after);
    schedule, after := PlayClient(o, schedule, after);
    schedule, after := PlayClient(o, schedule, after);
    NumberCountedUpdate(s.objects, i, after);
    s := PlayIn(programs, s, i, schedule);
    ReachableInv(s, programs);
  }

  lemma CreatingIsNotCounted(s: System, programs: seq<seq<Call>>, i: nat)
    requires Reachable(s, programs) && i < |s.objects| && s.objects[i].client.Creating?
    ensures NumberCounted(s.objects) < NumberStartable(programs) && s.count <= NumberCounted(s.objects)
  {
    hide ClientStep, ThunkStep, Startable;
    ReachableInv(s, programs);
    var run :| Run(run, programs) && run[|run| - 1] == s;
    forall j | 0 <= j < |s.objects| ensures Begun(s.objects[j]) ==> Startable(programs[j]) {
      RunBegunInv(run, programs, |run| - 1, j);
    }
    CountedAreStartable(s.objects, programs, i);
  }

  // ----- Termination -----

  function ClientRank(pc: ClientPc): nat {
    match pc
    case Idle => 0
    case StartLocking => 16
    case StartChecking => 15
    case Creating => 14
    case Starting => 4
    case Counting => 3
    case StartUnlocking => 2
    case JoinLocking => 8
    case JoinChecking => 7
    case JoinReleasing => 6
    case JoinWaiting => 5
    case JoinRelocking => 4
    case Resetting => 3
    case JoinUnlocking => 2
    case EventWaiting => 2
    case EventClearing => 1
  }

  function ThunkRank(pc: ThunkPc): nat {
    match pc
    case NoThread => 0
    case Created => 8
    case Signalling => 7
    case Running => 6
    case Exiting => 5
    case Decrementing => 4
    case Unlocking => 3
    case Returning => 2
    case Terminated => 0
  }

  function Rank(o: Object): nat {
    20 * |o.program| + ClientRank(o.client) + ThunkRank(o.thunk)
  }

  lemma StepRank(o: Object, actor: Actor)
    requires ObjectInv(o) && ActorStep(o, actor).Some?
    ensures Rank(ActorStep(o, actor).value) < Rank(o)
  {
  }

  function Measure(objects: seq<Object>): nat {
    if objects == [] then 0 else Rank(objects[0]) + Measure(objects[1..])
  }

  lemma {:induction false} MeasureUpdate(objects: seq<Object>, i: nat, o: Object)
    requires i < |objects|
    ensures Measure(objects[i := o]) == Measure(objects) - Rank(objects[i]) + Rank(o)
  {
    if i > 0 {
      MeasureUpdate(objects[1..], i - 1, o);
      assert objects[i := o][1..] == objects[1..][i - 1 := o];
    } else {
      assert objects[i := o][1..] == objects[1..];
    }
  }

  function Calls(programs: seq<seq<Call>>): nat {
    if programs == [] then 0 else |programs[0]| + Calls(programs[1..])
  }

  lemma {:induction false} InitMeasure(programs: seq<seq<Call>>)
    ensures Measure(Init(programs).objects) == 20 * Calls(programs)
  {
    if programs != [] {
      InitMeasure(programs[1..]);
      assert Init(programs).objects[1..] == Init(programs[1..]).objects;
    }
  }

  lemma {:induction false} RunMeasure(run: seq<System>, programs: seq<seq<Call>>, k: nat)
    requires Run(run, programs) && k < |run|
    ensures Measure(run[k].objects) + k <= 20 * Calls(programs)
  {
    if k == 0 {
      InitMeasure(programs);
    } else {
      RunMeasure(run, programs, k - 1);
      RunInv(run, programs, k - 1);
      assert Next(run[k - 1], run[k]);
      var i: nat, actor :| StepOf(run[k - 1], i, actor, run[k]);
      StepRank(run[k - 1].objects[i], actor);
      MeasureUpdate(run[k - 1].objects, i, run[k].objects[i]);
    }
  }

  /** No run goes on for ever: there are at most 20 steps for each call. */
  lemma RunsAreFinite(run: seq<System>, programs: seq<seq<Call>>)
    requires Run(run, programs)
    ensures |run| - 1 <= 20 * Calls(programs)
  {
    RunMeasure(run, programs, |run| - 1);
  }
}
