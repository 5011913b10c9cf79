/**
 * Any number of threads using one stream: each spins on the stream's test-and-set byte, reads or
 * seeks, and clears the byte. Every step that other threads can see is a step of its own.
 */
module StreamLock {

  import opened FileStream

  /** Where a thread stands. */
  datatype Thread =
    | Outside
    | Spinning(op: Op)
    | Entered(op: Op)
    | Looping(op: Op, want: nat, got: seq<Byte>)
    | Moving(op: Op, target: nat)
    | Leaving(op: Op, result: Result, dropped: nat)

  /** The bytes of a read, or whether a seek was accepted. */
  datatype Result = Data(bytes: seq<Byte>) | Code(ok: bool)

  /** A finished operation: whose it was, what it returned, and how many buffered bytes a rejected seek dropped. */
  datatype Done = Done(thread: nat, op: Op, result: Result, dropped: nat)

  /** The shared stream and the threads, with the finished operations in the order of their unlocks. */
  datatype State = State(lock: bool, fields: Fields, threads: seq<Thread>, log: seq<Done>)

  /** The file, and its size as fopen recorded it. */
  datatype File = File(bytes: seq<Byte>, size: nat)

  ghost predicate FileOk(file: File)
  {
    file.size == |file.bytes| || file.size == 0
  }

  predicate InRegion(t: Thread)
  {
    !t.Outside? && !t.Spinning?
  }

  // ----- steps -----

  ghost predicate Init(file: File, s: State)
  {
    && !s.lock && s.log == []
    && s.fields.offset == 0 && InStep(file.bytes, s.fields, 0)
    && forall t :: 0 <= t < |s.threads| ==> s.threads[t].Outside?
  }

  ghost predicate Call(s: State, s': State, t: nat, op: Op)
    requires t < |s.threads|
  {
    && s.threads[t].Outside?
    && s' == s.(threads := s.threads[t := Spinning(op)])
  }

  /** The exchange of test-and-set: the byte becomes 1, and who finds 0 in it enters. */
  ghost predicate TestAndSet(s: State, s': State, t: nat)
    requires t < |s.threads|
  {
    && s.threads[t].Spinning?
    && s' == s.(lock := true,
                threads := if s.lock then s.threads else s.threads[t := Entered(s.threads[t].op)])
  }

  /** Inside the lock: fread cuts its request to the file size; fseek forgets the buffer and tests its target. */
  ghost predicate Begin(file: File, s: State, s': State, t: nat)
    requires t < |s.threads|
  {
    && s.threads[t].Entered? && s.fields.bufPos <= s.fields.bufSize
    && var op := s.threads[t].op;
       match op
       case Read(n) =>
         var want := Clamp(file.size, s.fields.offset, n);
         s' == s.(threads := s.threads[t := if want == 0 then Leaving(op, Data([]), 0) else Looping(op, want, [])])
       case Seek(whence, distance) =>
         s' == s.(fields := s.fields.(bufPos := 0, bufSize := 0),
                  threads := s.threads[t :=
                    if Accepted(whence, s.fields.offset, file.size, distance)
                    then Moving(op, Aim(whence, s.fields.offset, file.size, distance))
                    else Leaving(op, Code(false), Unread(s.fields))])
  }

  /** One turn of the loop of fread. */
  ghost predicate Loop(file: File, s: State, s': State, t: nat, data: seq<Byte>, got: seq<Byte>, more: bool)
    requires t < |s.threads|
  {
    && s.threads[t].Looping?
    && var th := s.threads[t];
       && |s.fields.buffer| == CAPACITY && s.fields.bufPos <= s.fields.bufSize <= CAPACITY && |th.got| < th.want
       && Turn(file.bytes, s.fields, th.want, th.got, data, s'.fields, got, more)
       && s' == s.(fields := s'.fields,
                   threads := s.threads[t := if more && |got| < th.want then th.(got := got)
                                         else Leaving(th.op, Data(got), 0)])
  }

  /** The new position, in the stream and in the kernel. */
  ghost predicate Move(s: State, s': State, t: nat)
    requires t < |s.threads|
  {
    && s.threads[t].Moving?
    && var th := s.threads[t];
       s' == s.(fields := s.fields.(offset := th.target, kernelPos := th.target),
                threads := s.threads[t := Leaving(th.op, Code(true), 0)])
  }

  ghost predicate Unlock(s: State, s': State, t: nat)
    requires t < |s.threads|
  {
    && s.threads[t].Leaving?
    && var th := s.threads[t];
       s' == s.(lock := false, threads := s.threads[t := Outside],
                log := s.log + [Done(t, th.op, th.result, th.dropped)])
  }

  datatype Action = CallStep(op: Op) | LockStep | BeginStep | LoopStep(data: seq<Byte>, got: seq<Byte>, more: bool)
                 | MoveStep | UnlockStep

  /** Thread t makes the step that the action names. */
  ghost predicate Step(file: File, s: State, s': State, t: nat, act: Action)
  {
    t < |s.threads| &&
    match act
    case CallStep(op) => Call(s, s', t, op)
    case LockStep => TestAndSet(s, s', t)
    case BeginStep => Begin(file, s, s', t)
    case LoopStep(data, got, more) => Loop(file, s, s', t, data, got, more)
    case MoveStep => Move(s, s', t)
    case UnlockStep => Unlock(s, s', t)
  }

  ghost predicate StepAt(file: File, states: seq<State>, who: seq<nat>, acts: seq<Action>, i: nat)
    requires i < |who| == |acts| && |states| == |who| + 1
  {
    Step(file, states[i], states[i + 1], who[i], acts[i])
  }

  /** A run: every state follows from the one before it by a step of some thread. */
  ghost predicate Run(file: File, states: seq<State>, who: seq<nat>, acts: seq<Action>)
  {
    && |states| == |who| + 1 == |acts| + 1 && Init(file, states[0])
    && forall i :: 0 <= i < |who| ==> StepAt(file, states, who, acts, i)
  }

  // ----- the history as a run of one thread -----

  /** Where a stream stands: its offset, and how far it runs ahead of it. */
  datatype Position = Position(offset: nat, skew: nat)

  predicate InFile(file: File, at: Position)
  {
    at.offset + at.skew <= |file.bytes|
  }

  /** What an operation returns at a position. A seek is rejected when it must be, and drops what was buffered. */
  ghost predicate Right(file: File, at: Position, d: Done)
    requires InFile(file, at)
  {
    match d.op
    case Read(n) => d.result == Data(Given(file.bytes, file.size, at.offset, at.skew, n))
    case Seek(whence, distance) =>
      && d.result == Code(Accepted(whence, at.offset, file.size, distance))
      && (!d.result.ok ==> d.dropped <= CAPACITY && at.offset + at.skew + d.dropped <= |file.bytes|)
  }

  /** The position after it. */
  function Moved(file: File, at: Position, d: Done): (next: Position)
    requires InFile(file, at)
  {
    match d.op
    case Read(n) => at.(offset := at.offset + |Given(file.bytes, file.size, at.offset, at.skew, n)|)
    case Seek(whence, distance) =>
      if Accepted(whence, at.offset, file.size, distance) then Position(Aim(whence, at.offset, file.size, distance), 0)
      else at.(skew := at.skew + d.dropped)
  }

  /** Marks the logs that a proof looks into. */
  ghost predicate Opened(log: seq<Done>, i: int) { true }

  /** The operations of a log one after the other, from the start of the file to a position. */
  ghost predicate Sequential(file: File, log: seq<Done>, end: Position)
    decreases |log|
  {
    forall i: int {:trigger Opened(log, i)} :: Opened(log, i) ==>
      if log == [] then end == Position(0, 0)
      else
        exists at: Position ::
          && InFile(file, at) && Sequential(file, log[..|log| - 1], at)
          && Right(file, at, log[|log| - 1]) && end == Moved(file, at, log[|log| - 1])
  }

  lemma SequentialEmpty(file: File, end: Position)
    ensures Sequential(file, [], end) <==> end == Position(0, 0)
  {
    assert Opened([], 0);
  }

  lemma SequentialAppend(file: File, log: seq<Done>, at: Position, d: Done)
    requires InFile(file, at) && Sequential(file, log, at) && Right(file, at, d)
    ensures Sequential(file, log + [d], Moved(file, at, d))
  {
    assert (log + [d])[..|log + [d]| - 1] == log;
  }

  /** The last operation of a sequential log, and where it started. */
  lemma LastRight(file: File, log: seq<Done>, last: Done, end: Position) returns (at: Position)
    requires Sequential(file, log + [last], end)
    ensures InFile(file, at) && Sequential(file, log, at) && Right(file, at, last) && end == Moved(file, at, last)
  {
    var all := log + [last];
    assert Opened(all, 0) && all[..|all| - 1] == log;
    at :| InFile(file, at) && Sequential(file, all[..|all| - 1], at)
          && Right(file, at, all[|all| - 1]) && end == Moved(file, at, all[|all| - 1]);
  }

  // ----- the invariant -----

  /** What holds of the stream while a thread stands where it stands in the region. */
  ghost predicate Holding(file: File, f: Fields, at: Position, th: Thread)
  {
    InFile(file, at) &&
    match th
    case Outside => f.offset == at.offset && InStep(file.bytes, f, at.skew)
    case Spinning(_) => f.offset == at.offset && InStep(file.bytes, f, at.skew)
    case Entered(_) => f.offset == at.offset && InStep(file.bytes, f, at.skew)
    case Looping(op, want, got) =>
      && op.Read? && want == Clamp(file.size, at.offset, op.n) && |got| < want
      && Reading(file.bytes, f, at.skew, at.offset + at.skew, got)
    case Moving(op, target) =>
      && op.Seek? && Accepted(op.whence, at.offset, file.size, op.distance)
      && target == Aim(op.whence, at.offset, file.size, op.distance)
      && |f.buffer| == CAPACITY && f.bufPos == f.bufSize == 0
    case Leaving(op, result, dropped) =>
      var d := Done(0, op, result, dropped);
      && Right(file, at, d)
      && f.offset == Moved(file, at, d).offset && InStep(file.bytes, f, Moved(file, at, d).skew)
  }

  /** At most one thread is in the region, and only with the lock. */
  ghost predicate Exclusive(s: State)
  {
    && (forall t :: 0 <= t < |s.threads| && InRegion(s.threads[t]) ==> s.lock)
    && (forall t, u :: 0 <= t < |s.threads| && 0 <= u < |s.threads| && InRegion(s.threads[t]) && InRegion(s.threads[u])
                       ==> t == u)
  }

  /** A free stream, or the one thread that has it, is where the log says. */
  ghost predicate Consistent(file: File, s: State, at: Position)
  {
    && Sequential(file, s.log, at)
    && (!s.lock ==> Holding(file, s.fields, at, Outside))
    && (forall t :: 0 <= t < |s.threads| && InRegion(s.threads[t]) ==> Holding(file, s.fields, at, s.threads[t]))
    && (s.lock ==> exists t :: 0 <= t < |s.threads| && InRegion(s.threads[t]))
  }

  ghost predicate Inv(file: File, s: State, at: Position)
  {
    FileOk(file) && Exclusive(s) && Consistent(file, s, at)
  }

  lemma InitHolds(file: File, s: State)
    requires FileOk(file) && Init(file, s)
    ensures Inv(file, s, Position(0, 0))
  {
    SequentialEmpty(file, Position(0, 0));
  }

  lemma CallKeeps(file: File, s: State, s': State, t: nat, op: Op, at: Position)
    requires Inv(file, s, at) && t < |s.threads| && Call(s, s', t, op)
    ensures Inv(file, s', at)
  {
    if s.lock {
      var u :| 0 <= u < |s.threads| && InRegion(s.threads[u]);
      assert InRegion(s'.threads[u]);
    }
  }

  lemma TestAndSetKeeps(file: File, s: State, s': State, t: nat, at: Position)
    requires Inv(file, s, at) && t < |s.threads| && TestAndSet(s, s', t)
    ensures Inv(file, s', at)
  {
    if s.lock {
      assert s' == s;
    } else {
      assert InRegion(s'.threads[t]);
    }
  }

  /** A step inside the region concerns nobody else. */
  lemma RegionKeeps(file: File, s: State, s': State, t: nat, th: Thread, at: Position)
    requires Inv(file, s, at) && t < |s.threads| && InRegion(s.threads[t]) && InRegion(th)
    requires s'.lock == s.lock && s'.log == s.log && s'.threads == s.threads[t := th]
    requires Holding(file, s'.fields, at, th)
    ensures Inv(file, s', at)
  {
    assert InRegion(s'.threads[t]);
  }

  lemma BeginKeeps(file: File, s: State, s': State, t: nat, at: Position)
    requires Inv(file, s, at) && t < |s.threads| && Begin(file, s, s', t)
    ensures Inv(file, s', at)
  {
    var op := s.threads[t].op;
    assert Holding(file, s.fields, at, s.threads[t]);
    if op.Seek? && !Accepted(op.whence, at.offset, file.size, op.distance) {
      EmptyInStep(file.bytes, s'.fields, at.skew + Unread(s.fields));
    }
    RegionKeeps(file, s, s', t, s'.threads[t], at);
  }

  /** Where the loop of fread ends, it has handed over what the file gives. */
  lemma LoopEnds(file: File, f: Fields, at: Position, op: Op, want: nat, got: seq<Byte>)
    requires FileOk(file) && InFile(file, at) && op.Read? && want == Clamp(file.size, at.offset, op.n)
    requires Reading(file.bytes, f, at.skew, at.offset + at.skew, got) && |got| <= want
    requires |got| == want || (f.kernelPos == |file.bytes| && Unread(f) == 0)
    ensures Holding(file, f, at, Leaving(op, Data(got), 0))
  {
    assert got == Given(file.bytes, file.size, at.offset, at.skew, op.n);
  }

  lemma LoopKeeps(file: File, s: State, s': State, t: nat, data: seq<Byte>, got: seq<Byte>, more: bool, at: Position)
    requires Inv(file, s, at) && t < |s.threads| && Loop(file, s, s', t, data, got, more)
    ensures Inv(file, s', at)
  {
    var th := s.threads[t];
    assert Holding(file, s.fields, at, th);
    TurnKeeps(file.bytes, s.fields, at.skew, at.offset + at.skew, th.want, th.got, data, s'.fields, got, more);
    if !(more && |got| < th.want) { LoopEnds(file, s'.fields, at, th.op, th.want, got); }
    RegionKeeps(file, s, s', t, s'.threads[t], at);
  }

  lemma MoveKeeps(file: File, s: State, s': State, t: nat, at: Position)
    requires Inv(file, s, at) && t < |s.threads| && Move(s, s', t)
    ensures Inv(file, s', at)
  {
    assert Holding(file, s.fields, at, s.threads[t]);
    EmptyInStep(file.bytes, s'.fields, 0);
    RegionKeeps(file, s, s', t, s'.threads[t], at);
  }

  /** The steps of a seek in the region leave the stream as fseek does; a rejected one reports the bytes it drops. */
  lemma SeekSteps(file: File, s: State, s': State, s'': State, t: nat)
    requires t < |s.threads| == |s'.threads| && s.threads[t].Entered? && s.threads[t].op.Seek?
    requires Begin(file, s, s', t) && if s'.threads[t].Moving? then Move(s', s'', t) else s'' == s'
    ensures var op, f := s.threads[t].op, s.fields;
      var ok := Accepted(op.whence, f.offset, file.size, op.distance);
      && s''.fields == SeekFields(f, file.size, op.whence, op.distance)
      && s''.threads[t] == Leaving(op, Code(ok), if ok then 0 else Unread(f))
  {}

  lemma UnlockKeeps(file: File, s: State, s': State, t: nat, at: Position) returns (next: Position)
    requires Inv(file, s, at) && t < |s.threads| && Unlock(s, s', t)
    ensures Inv(file, s', next)
  {
    var th := s.threads[t];
    assert Holding(file, s.fields, at, th);
    var d := Done(t, th.op, th.result, th.dropped);
    next := Moved(file, at, d);
    SequentialAppend(file, s.log, at, d);
    forall u | 0 <= u < |s'.threads| ensures !InRegion(s'.threads[u]) {
      if u != t { assert s'.threads[u] == s.threads[u]; }
    }
  }

  lemma StepKeeps(file: File, s: State, s': State, t: nat, act: Action, at: Position) returns (next: Position)
    requires Inv(file, s, at) && Step(file, s, s', t, act)
    ensures Inv(file, s', next)
  {
    next := at;
    match act
    case CallStep(op) => CallKeeps(file, s, s', t, op, at);
    case LockStep => TestAndSetKeeps(file, s, s', t, at);
    case BeginStep => BeginKeeps(file, s, s', t, at);
    case LoopStep(data, got, more) => LoopKeeps(file, s, s', t, data, got, more, at);
    case MoveStep => MoveKeeps(file, s, s', t, at);
    case UnlockStep => next := UnlockKeeps(file, s, s', t, at);
  }

  /** Every run of any number of threads keeps the invariant, at some position of the stream. */
  lemma {:induction false} RunKeeps(file: File, states: seq<State>, who: seq<nat>, acts: seq<Action>, i: nat)
    returns (at: Position)
    requires FileOk(file) && Run(file, states, who, acts) && i < |states|
    ensures Inv(file, states[i], at)
  {
    if i == 0 {
      InitHolds(file, states[0]);
      at := Position(0, 0);
    } else {
      var before := RunKeeps(file, states, who, acts, i - 1);
      assert StepAt(file, states, who, acts, i - 1);
      at := StepKeeps(file, states[i - 1], states[i], who[i - 1], acts[i - 1], before);
    }
  }

  // ----- every call is logged once -----

  /** The operations that thread t has called in the first i steps, in order. */
  function Calls(who: seq<nat>, acts: seq<Action>, t: nat, i: nat): (ops: seq<Op>)
    requires i <= |who| && i <= |acts|
  {
    if i == 0 then []
    else Calls(who, acts, t, i - 1)
         + (if who[i - 1] == t && acts[i - 1].CallStep? then [acts[i - 1].op] else [])
  }

  /** The operations of thread t that a log holds, in order. */
  function Logged(log: seq<Done>, t: nat): (ops: seq<Op>)
    decreases |log|
  {
    if log == [] then []
    else Logged(log[..|log| - 1], t) + (if log[|log| - 1].thread == t then [log[|log| - 1].op] else [])
  }

  /** The operation that a thread is in the middle of, if any. */
  function Pending(th: Thread): (ops: seq<Op>)
  {
    if th.Outside? then [] else [th.op]
  }

  lemma LoggedAppend(log: seq<Done>, d: Done, t: nat)
    ensures Logged(log + [d], t) == Logged(log, t) + (if d.thread == t then [d.op] else [])
  {
    assert (log + [d])[..|log + [d]| - 1] == log;
  }

  /** Only a call and an unlock change what a thread is in the middle of. */
  lemma StepPending(file: File, s: State, s': State, u: nat, act: Action)
    requires Step(file, s, s', u, act)
    ensures |s'.threads| == |s.threads| && forall t :: 0 <= t < |s.threads| && t != u ==> s'.threads[t] == s.threads[t]
    ensures act.CallStep? ==> Pending(s.threads[u]) == [] && Pending(s'.threads[u]) == [act.op]
    ensures act.UnlockStep? ==> Pending(s.threads[u]) == [s.threads[u].op] && Pending(s'.threads[u]) == []
    ensures !act.CallStep? && !act.UnlockStep? ==> Pending(s'.threads[u]) == Pending(s.threads[u])
    ensures !act.UnlockStep? ==> s'.log == s.log
  {}

  /** A step of thread u starts an operation of its own, ends one, or neither. */
  lemma StepLogs(file: File, s: State, s': State, u: nat, act: Action, t: nat)
    requires Step(file, s, s', u, act) && t < |s.threads|
    ensures |s'.threads| == |s.threads|
    ensures Logged(s'.log, t) + Pending(s'.threads[t])
         == Logged(s.log, t) + Pending(s.threads[t]) + (if u == t && act.CallStep? then [act.op] else [])
  {
    StepPending(file, s, s', u, act);
    if act.UnlockStep? {
      var th := s.threads[u];
      LoggedAppend(s.log, Done(u, th.op, th.result, th.dropped), t);
    }
  }

  /** What a thread has called is what the log holds of it, each call once and in order, and then the call it is in. */
  ghost predicate Ledger(s: State, t: nat, calls: seq<Op>)
  {
    t < |s.threads| && calls == Logged(s.log, t) + Pending(s.threads[t])
  }

  lemma StepLedger(file: File, s: State, s': State, u: nat, act: Action, t: nat, calls: seq<Op>)
    requires Step(file, s, s', u, act) && Ledger(s, t, calls)
    ensures Ledger(s', t, calls + (if u == t && act.CallStep? then [act.op] else []))
  {
    StepLogs(file, s, s', u, act, t);
  }

  /** In every reachable state the log holds every call of every thread once. */
  lemma {:induction false} LoggedOnce(file: File, states: seq<State>, who: seq<nat>, acts: seq<Action>, i: nat, t: nat)
    requires Run(file, states, who, acts) && i < |states| && t < |states[0].threads|
    ensures Ledger(states[i], t, Calls(who, acts, t, i))
  {
    if i > 0 {
      LoggedOnce(file, states, who, acts, i - 1, t);
      assert StepAt(file, states, who, acts, i - 1);
      StepLedger(file, states[i - 1], states[i], who[i - 1], acts[i - 1], t, Calls(who, acts, t, i - 1));
    }
  }

  // ----- one thread -----

  /** A log as one thread would have written it. */
  function Solo(log: seq<Done>): (solo: seq<Done>)
    ensures |solo| == |log| && forall i :: 0 <= i < |solo| ==> solo[i] == log[i].(thread := 0)
  {
    seq(|log|, i requires 0 <= i < |log| => log[i].(thread := 0))
  }

  lemma SoloAppend(log: seq<Done>, d: Done)
    ensures Solo(log + [d]) == Solo(log) + [d.(thread := 0)]
  {}

  /** One thread alone, standing where the thread in the region stands. */
  ghost predicate Mirrors(s: State, p: State)
  {
    && p.lock == s.lock && p.fields == s.fields && p.log == Solo(s.log) && |p.threads| == 1
    && (!s.lock ==> p.threads[0] == Outside)
    && forall t :: 0 <= t < |s.threads| && InRegion(s.threads[t]) ==> p.threads[0] == s.threads[t]
  }

  /** A call, or an exchange that finds the lock set, is nothing to the one thread. */
  lemma SilentMirrored(file: File, s: State, s': State, t: nat, act: Action, p: State)
    requires Mirrors(s, p) && Step(file, s, s', t, act) && (act.CallStep? || (act.LockStep? && s.lock))
    ensures Mirrors(s', p)
  {}

  /** Entering the region: only now does the one thread call. */
  lemma EntryMirrored(file: File, s: State, s': State, t: nat, p: State) returns (called: State, q: State)
    requires Mirrors(s, p) && Exclusive(s) && !s.lock && Step(file, s, s', t, LockStep)
    ensures Step(file, p, called, 0, CallStep(s.threads[t].op)) && Step(file, called, q, 0, LockStep) && Mirrors(s', q)
  {
    var op := s.threads[t].op;
    called := p.(threads := p.threads[0 := Spinning(op)]);
    q := called.(lock := true, threads := called.threads[0 := Entered(op)]);
  }

  /** A step in the region is the one thread's step. */
  lemma RegionMirrored(file: File, s: State, s': State, t: nat, act: Action, p: State) returns (q: State)
    requires Mirrors(s, p) && Exclusive(s) && Step(file, s, s', t, act) && !act.CallStep? && !act.LockStep?
    ensures Step(file, p, q, 0, act) && Mirrors(s', q)
  {
    q := State(s'.lock, s'.fields, p.threads[0 := s'.threads[t]], Solo(s'.log));
    if act.UnlockStep? {
      var th := s.threads[t];
      SoloAppend(s.log, Done(t, th.op, th.result, th.dropped));
    }
  }

  lemma ExtendRun(file: File, states: seq<State>, who: seq<nat>, acts: seq<Action>, q: State, act: Action)
    requires Run(file, states, who, acts) && Step(file, states[|states| - 1], q, 0, act)
    ensures Run(file, states + [q], who + [0], acts + [act])
  {
    var states', who', acts' := states + [q], who + [0], acts + [act];
    forall i | 0 <= i < |who'| ensures StepAt(file, states', who', acts', i) {
      if i < |who| {
        assert StepAt(file, states, who, acts, i);
      }
    }
  }

  /** A run of one thread that ends in a mirror of a state, with the stream as it was at the start. */
  ghost predicate Alone(file: File, fields: Fields, s: State, states: seq<State>, who: seq<nat>, acts: seq<Action>)
  {
    Run(file, states, who, acts) && states[0].fields == fields && Mirrors(s, states[|states| - 1])
  }

  lemma StepAlone(file: File, fields: Fields, s: State, s': State, t: nat, act: Action,
                  states: seq<State>, who: seq<nat>, acts: seq<Action>)
    returns (states': seq<State>, who': seq<nat>, acts': seq<Action>)
    requires Exclusive(s) && Step(file, s, s', t, act) && Alone(file, fields, s, states, who, acts)
    ensures Alone(file, fields, s', states', who', acts')
  {
    states', who', acts' := states, who, acts;
    var p := states[|states| - 1];
    if act.CallStep? || (act.LockStep? && s.lock) {
      SilentMirrored(file, s, s', t, act, p);
    } else if act.LockStep? {
      var called, q := EntryMirrored(file, s, s', t, p);
      ExtendRun(file, states', who', acts', called, CallStep(s.threads[t].op));
      states', who', acts' := states' + [called], who' + [0], acts' + [CallStep(s.threads[t].op)];
      ExtendRun(file, states', who', acts', q, LockStep);
      states', who', acts' := states' + [q], who' + [0], acts' + [LockStep];
    } else {
      var q := RegionMirrored(file, s, s', t, act, p);
      ExtendRun(file, states', who', acts', q, act);
      states', who', acts' := states' + [q], who' + [0], acts' + [act];
    }
  }

  /** For every reachable state of any number of threads there is a run of one thread that mirrors it. */
  lemma {:induction false} OneThread(file: File, states: seq<State>, who: seq<nat>, acts: seq<Action>, i: nat)
    returns (states': seq<State>, who': seq<nat>, acts': seq<Action>)
    requires FileOk(file) && Run(file, states, who, acts) && i < |states|
    ensures Alone(file, states[0].fields, states[i], states', who', acts')
  {
    if i == 0 {
      states', who', acts' := [State(false, states[0].fields, [Outside], [])], [], [];
    } else {
      states', who', acts' := OneThread(file, states, who, acts, i - 1);
      var at := RunKeeps(file, states, who, acts, i - 1);
      assert StepAt(file, states, who, acts, i - 1);
      states', who', acts' := StepAlone(file, states[0].fields, states[i - 1], states[i], who[i - 1], acts[i - 1],
                                        states', who', acts');
    }
  }

  // ----- what it means -----

  /** Mutual exclusion in every reachable state. */
  lemma MutualExclusion(file: File, states: seq<State>, who: seq<nat>, acts: seq<Action>, i: nat, t: nat, u: nat)
    requires FileOk(file) && Run(file, states, who, acts) && i < |states|
    requires t < |states[i].threads| && InRegion(states[i].threads[t])
    requires u < |states[i].threads| && InRegion(states[i].threads[u])
    ensures t == u && states[i].lock
  {
    var at := RunKeeps(file, states, who, acts, i);
  }

  /**
   * Serialisability: one thread on the same stream, by the same operations in the order of their unlocks, gets the
   * same results, and its rejected seeks drop the same bytes. Each call of each thread is among them once and in
   * its order.
   */
  lemma Serialisable(file: File, states: seq<State>, who: seq<nat>, acts: seq<Action>, i: nat)
    returns (states': seq<State>, who': seq<nat>, acts': seq<Action>)
    requires FileOk(file) && Run(file, states, who, acts) && i < |states|
    ensures Run(file, states', who', acts') && states'[0].fields == states[0].fields && |states'[0].threads| == 1
    ensures states'[|states'| - 1].log == Solo(states[i].log)
    ensures forall t: nat :: t < |states[0].threads| ==> Ledger(states[i], t, Calls(who, acts, t, i))
  {
    states', who', acts' := OneThread(file, states, who, acts, i);
    SameThreads(file, states', who', acts', |states'| - 1);
    forall t: nat | t < |states[0].threads| ensures Ledger(states[i], t, Calls(who, acts, t, i)) {
      LoggedOnce(file, states, who, acts, i, t);
    }
  }

  lemma {:induction false} SameThreads(file: File, states: seq<State>, who: seq<nat>, acts: seq<Action>, i: nat)
    requires Run(file, states, who, acts) && i < |states|
    ensures |states[i].threads| == |states[0].threads|
  {
    if i > 0 {
      SameThreads(file, states, who, acts, i - 1);
      assert StepAt(file, states, who, acts, i - 1);
      StepPending(file, states[i - 1], states[i], who[i - 1], acts[i - 1]);
    }
  }

  /** What the results are: each is right at the position where the operations before it have left the stream. */
  lemma ResultsRight(file: File, states: seq<State>, who: seq<nat>, acts: seq<Action>, i: nat) returns (at: Position)
    requires FileOk(file) && Run(file, states, who, acts) && i < |states|
    ensures Sequential(file, states[i].log, at)
  {
    at := RunKeeps(file, states, who, acts, i);
  }

  // ----- runs without rejected seeks -----

  function Ops(log: seq<Done>): (ops: seq<Op>)
    ensures |ops| == |log| && forall i :: 0 <= i < |ops| ==> ops[i] == log[i].op
  {
    seq(|log|, i requires 0 <= i < |log| => log[i].op)
  }

  /** The bytes handed over; a seek hands over none. */
  function Bytes(r: Result): (b: seq<Byte>)
  {
    if r.Data? then r.bytes else []
  }

  function Results(log: seq<Done>): (out: seq<seq<Byte>>)
    ensures |out| == |log| && forall i :: 0 <= i < |out| ==> out[i] == Bytes(log[i].result)
  {
    seq(|log|, i requires 0 <= i < |log| => Bytes(log[i].result))
  }

  /** No seek of the log was rejected. */
  predicate NoneRejected(log: seq<Done>)
  {
    forall i :: 0 <= i < |log| ==> log[i].result != Code(false)
  }

  lemma {:induction false} AnswersAppend(file: File, at: nat, ops: seq<Op>, last: Op) returns (end: nat)
    requires file.size <= |file.bytes| && at <= |file.bytes|
    ensures end <= |file.bytes|
    ensures Answers(file.bytes, file.size, at, ops + [last])
         == Answers(file.bytes, file.size, at, ops) + [Answer(file.bytes, file.size, end, last)]
    ensures end == Final(file, at, ops)
    decreases |ops|
  {
    if ops == [] {
      end := at;
      assert ops + [last] == [last];
      assert Answers(file.bytes, file.size, Next(file.bytes, file.size, at, last), []) == [];
    } else {
      assert (ops + [last])[0] == ops[0] && (ops + [last])[1..] == ops[1..] + [last];
      end := AnswersAppend(file, Next(file.bytes, file.size, at, ops[0]), ops[1..], last);
    }
  }

  /** The position after a list of operations, counted from its front. */
  function Final(file: File, at: nat, ops: seq<Op>): (end: nat)
    requires file.size <= |file.bytes| && at <= |file.bytes|
    ensures end <= |file.bytes|
    decreases |ops|
  {
    if ops == [] then at else Final(file, Next(file.bytes, file.size, at, ops[0]), ops[1..])
  }

  lemma {:induction false} FinalAppend(file: File, at: nat, ops: seq<Op>, last: Op)
    requires file.size <= |file.bytes| && at <= |file.bytes|
    ensures Final(file, at, ops + [last]) == Next(file.bytes, file.size, Final(file, at, ops), last)
    decreases |ops|
  {
    if ops == [] {
      assert ops + [last] == [last];
      assert Final(file, Next(file.bytes, file.size, at, last), []) == Next(file.bytes, file.size, at, last);
    } else {
      assert (ops + [last])[0] == ops[0] && (ops + [last])[1..] == ops[1..] + [last];
      FinalAppend(file, Next(file.bytes, file.size, at, ops[0]), ops[1..], last);
    }
  }

  lemma LogAppend(log: seq<Done>, last: Done)
    ensures Ops(log + [last]) == Ops(log) + [last.op]
    ensures Results(log + [last]) == Results(log) + [Bytes(last.result)]
  {}

  lemma AnswersExtend(file: File, log: seq<Done>, last: Done)
    requires file.size <= |file.bytes| && Results(log) == Answers(file.bytes, file.size, 0, Ops(log))
    requires Bytes(last.result) == Answer(file.bytes, file.size, Final(file, 0, Ops(log)), last.op)
    ensures Results(log + [last]) == Answers(file.bytes, file.size, 0, Ops(log + [last]))
    ensures Final(file, 0, Ops(log + [last])) == Next(file.bytes, file.size, Final(file, 0, Ops(log)), last.op)
  {
    LogAppend(log, last);
    var end := AnswersAppend(file, 0, Ops(log), last.op);
    FinalAppend(file, 0, Ops(log), last.op);
  }

  lemma SameAnswer(file: File, at: Position, d: Done)
    requires file.size <= |file.bytes| && InFile(file, at) && at.skew == 0
    requires Right(file, at, d) && d.result != Code(false)
    ensures Bytes(d.result) == Answer(file.bytes, file.size, at.offset, d.op)
    ensures Moved(file, at, d) == Position(Next(file.bytes, file.size, at.offset, d.op), 0)
  {}

  /** The log is a run of the plain file, which ends where the stream stands. */
  ghost predicate Plain(file: File, log: seq<Done>, end: Position)
    requires file.size <= |file.bytes|
  {
    && Results(log) == Answers(file.bytes, file.size, 0, Ops(log))
    && end == Position(Final(file, 0, Ops(log)), 0)
  }

  lemma PlainEmpty(file: File)
    requires file.size <= |file.bytes|
    ensures Plain(file, [], Position(0, 0))
  {
    assert Results([]) == [] && Ops([]) == [];
  }

  lemma PlainStep(file: File, log: seq<Done>, last: Done, at: Position)
    requires file.size <= |file.bytes| && Plain(file, log, at) && InFile(file, at)
    requires Right(file, at, last) && last.result != Code(false)
    ensures Plain(file, log + [last], Moved(file, at, last))
  {
    SameAnswer(file, at, last);
    AnswersExtend(file, log, last);
  }

  /** A sequential log without rejected seeks is a run of the plain file. */
  lemma {:induction false} SequentialAnswers(file: File, log: seq<Done>, end: Position)
    requires file.size <= |file.bytes| && Sequential(file, log, end) && NoneRejected(log)
    ensures Plain(file, log, end)
    decreases |log|
  {
    if log == [] {
      SequentialEmpty(file, end);
      PlainEmpty(file);
    } else {
      var before, last := log[..|log| - 1], log[|log| - 1];
      assert log == before + [last];
      var at := LastRight(file, before, last, end);
      SequentialAnswers(file, before, at);
      PlainStep(file, before, last, at);
    }
  }

  /** With accepted seeks only, the finished operations returned what the plain file gives in the order of the log. */
  lemma PlainAnswers(file: File, states: seq<State>, who: seq<nat>, acts: seq<Action>, i: nat)
    requires FileOk(file) && Run(file, states, who, acts) && i < |states| && NoneRejected(states[i].log)
    ensures Results(states[i].log) == Answers(file.bytes, file.size, 0, Ops(states[i].log))
  {
    var at := RunKeeps(file, states, who, acts, i);
    SequentialAnswers(file, states[i].log, at);
  }

  lemma {:induction false} ReadsNotRejected(file: File, log: seq<Done>, end: Position)
    requires Sequential(file, log, end) && forall k :: 0 <= k < |log| ==> log[k].op.Read?
    ensures NoneRejected(log)
    decreases |log|
  {
    if log != [] {
      var before, last := log[..|log| - 1], log[|log| - 1];
      assert log == before + [last];
      var at := LastRight(file, before, last, end);
      ReadsNotRejected(file, before, at);
    }
  }

  /** Without seeks, the pieces handed out to all threads are consecutive and make up the front of the file. */
  lemma SlicesConsecutive(file: File, states: seq<State>, who: seq<nat>, acts: seq<Action>, i: nat)
    requires FileOk(file) && Run(file, states, who, acts) && i < |states| && OnlyReads(Ops(states[i].log))
    ensures var all := Joined(Results(states[i].log)); |all| <= |file.bytes| && all == file.bytes[..|all|]
  {
    var at := RunKeeps(file, states, who, acts, i);
    forall k | 0 <= k < |states[i].log| ensures states[i].log[k].op.Read? {
      assert Ops(states[i].log)[k].Read?;
    }
    ReadsNotRejected(file, states[i].log, at);
    PlainAnswers(file, states, who, acts, i);
    ReadsConsecutive(file.bytes, file.size, 0, Ops(states[i].log));
  }
}
