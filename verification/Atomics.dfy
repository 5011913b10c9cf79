/**
 * Atomic operations built from retry loops, on one shared word of n bits, by any number of threads in
 * any order: load-reserved and store-conditional on RISC-V, load and compare-exchange on x86.
 */
module Atomics {

  import opened Lanes
  import opened Bits

  datatype Op =
    | Fetch(lane: Lane, f: Fun, v: nat)
    | CompareExchange(lane: Lane, expected: nat, desired: nat)
    | Exchange(lane: Lane, v: nat)
    | Store(lane: Lane, v: nat)

  datatype Result = Old(value: nat) | Outcome(ok: bool, observed: nat) | Nothing

  /** The lane lies in the word, and the values are of the lane's type. */
  predicate OpOk(op: Op, n: nat)
  {
    && InWord(op.lane, n)
    && (op.CompareExchange? ==> Fits(op.expected, op.lane.bits) && Fits(op.desired, op.lane.bits))
    && (!op.CompareExchange? ==> Fits(op.v, op.lane.bits))
  }

  // ----- the operations done at one stroke -----

  /** The word that an operation makes of w. */
  function NewWord(op: Op, w: nat, n: nat): (w': nat)
  {
    match op
    case Fetch(lane, f, v) => Put(w, lane, Compute(f, Field(w, lane), v, n))
    case CompareExchange(lane, expected, desired) => if Field(w, lane) == expected then Put(w, lane, desired) else w
    case Exchange(lane, v) => Put(w, lane, v)
    case Store(lane, v) => Put(w, lane, v)
  }

  /** What it returns: the lane's value just before. */
  function Answer(op: Op, w: nat): (r: Result)
  {
    match op
    case Fetch(lane, _, _) => Old(Field(w, lane))
    case CompareExchange(lane, expected, _) => Outcome(Field(w, lane) == expected, Field(w, lane))
    case Exchange(lane, _) => Old(Field(w, lane))
    case Store(_, _) => Nothing
  }

  // ----- threads -----

  /**
   * Where a thread stands. `since` is the length of the log when the operation was called, `at` the
   * place of its entry.
   */
  datatype Thread =
    | Idle
    | Preload(op: Op, x86: bool, since: nat)
    | Ready(op: Op, exp: nat, since: nat)
    | Loaded(op: Op, exp: nat, seen: nat, reserved: bool, since: nat)
    | Trying(op: Op, exp: nat, since: nat)
    | Returned(op: Op, result: Result, since: nat, at: nat)

  datatype Entry = Entry(thread: nat, op: Op, result: Result)

  /** The word, the threads, and the operations that took effect, in that order. */
  datatype State = State(word: nat, threads: seq<Thread>, log: seq<Entry>)

  /** A store to the word ends every reservation of it. */
  function Drop(th: Thread): (th': Thread)
  {
    if th.Loaded? then th.(reserved := false) else th
  }

  function DropAll(threads: seq<Thread>): (r: seq<Thread>)
    ensures |r| == |threads| && forall i :: 0 <= i < |r| ==> r[i] == Drop(threads[i])
  {
    seq(|threads|, i requires 0 <= i < |threads| => Drop(threads[i]))
  }

  ghost predicate Init(s: State, n: nat)
  {
    && Fits(s.word, n) && s.log == []
    && forall t :: 0 <= t < |s.threads| ==> s.threads[t].Idle?
  }

  /** The entry point: what has to be loaded before the loop is loaded first. */
  ghost predicate Invoke(s: State, s': State, t: nat, op: Op, x86: bool, n: nat)
    requires t < |s.threads|
  {
    && s.threads[t].Idle? && OpOk(op, n) && !op.Store? && !(x86 && op.Exchange?)
    && var since := |s.log|;
       var th :=
         match op
         case Fetch(_, _, _) => if x86 then Preload(op, x86, since) else Ready(op, 0, since)
         case CompareExchange(_, expected, _) => if x86 then Trying(op, expected, since) else Ready(op, expected, since)
         case _ => Preload(op, x86, since);
       s' == s.(threads := s.threads[t := th])
  }

  ghost predicate PlainLoad(s: State, s': State, t: nat)
    requires t < |s.threads|
  {
    && s.threads[t].Preload?
    && var th := s.threads[t];
       var v := Get(s.word, th.op.lane);
       s' == s.(threads := s.threads[t := if th.x86 then Trying(th.op, v, th.since) else Ready(th.op, v, th.since)])
  }

  /** The thread's operation takes effect without a store. */
  function Failed(s: State, t: nat, th: Thread): (s': State)
    requires t < |s.threads| && (th.Ready? || th.Trying?)
  {
    var result := Outcome(false, Get(s.word, th.op.lane));
    s.(threads := s.threads[t := Returned(th.op, result, th.since, |s.log|)], log := s.log + [Entry(t, th.op, result)])
  }

  /** lr.w, and the comparison that follows it in compare-exchange. */
  ghost predicate LoadReserved(s: State, s': State, t: nat)
    requires t < |s.threads|
  {
    && s.threads[t].Ready?
    && var th := s.threads[t];
       if !th.op.Fetch? && Differs(s.word, th.op.lane, th.exp) then
         if th.op.CompareExchange? then s' == Failed(s, t, th)
         else s' == s.(threads := s.threads[t := Ready(th.op, Get(s.word, th.op.lane), th.since)])
       else
         s' == s.(threads := s.threads[t := Loaded(th.op, th.exp, s.word, true, th.since)])
  }

  /** The word that the code computes from the one it loaded. */
  function Computed(op: Op, seen: nat, n: nat): (w: nat)
  {
    match op
    case Fetch(lane, f, v) => Merge(seen, lane, Compute(f, Get(seen, lane), v, n), n)
    case CompareExchange(lane, _, desired) => Insert(seen, lane, desired, n)
    case Exchange(lane, v) => Insert(seen, lane, v, n)
    case Store(_, _) => seen
  }

  function Handed(op: Op, exp: nat, seen: nat): (r: Result)
  {
    match op
    case Fetch(lane, _, _) => Old(Get(seen, lane))
    case CompareExchange(_, _, _) => Outcome(true, exp)
    case Exchange(_, _) => Old(exp)
    case Store(_, _) => Nothing
  }

  /** A store of the thread's result ends its operation. */
  function Stored(s: State, t: nat, op: Op, since: nat, word: nat, result: Result): (s': State)
    requires t < |s.threads|
  {
    State(word, DropAll(s.threads)[t := Returned(op, result, since, |s.log|)], s.log + [Entry(t, op, result)])
  }

  /** sc.w, which needs the reservation to hold, and may fail even then. */
  ghost predicate StoreConditional(s: State, s': State, t: nat, ok: bool, n: nat)
    requires t < |s.threads|
  {
    && s.threads[t].Loaded?
    && var th := s.threads[t];
       if ok then
         && th.reserved
         && s' == Stored(s, t, th.op, th.since, Computed(th.op, th.seen, n), Handed(th.op, th.exp, th.seen))
       else
         s' == s.(threads := s.threads[t := Ready(th.op, th.exp, th.since)])
  }

  /** lock cmpxchg on the lane alone: compares and stores at one stroke, or reports what it found. */
  ghost predicate LockedExchange(s: State, s': State, t: nat, n: nat)
    requires t < |s.threads|
  {
    && s.threads[t].Trying?
    && var th := s.threads[t];
       var lane := th.op.lane;
       if Field(s.word, lane) == th.exp then
         var new_ := if th.op.Fetch? then Compute(th.op.f, th.exp, th.op.v, n)
                     else if th.op.CompareExchange? then th.op.desired else 0;
         s' == Stored(s, t, th.op, th.since, Put(s.word, lane, new_), Handed(th.op, th.exp, s.word))
       else if th.op.Fetch? then
         s' == s.(threads := s.threads[t := Trying(th.op, Field(s.word, lane), th.since)])
       else
         s' == Failed(s, t, th)
  }

  /** A plain atomic store by a thread that does nothing else. */
  ghost predicate DirectStore(s: State, s': State, t: nat, lane: Lane, v: nat, n: nat)
    requires t < |s.threads|
  {
    && s.threads[t].Idle? && OpOk(Store(lane, v), n)
    && s' == State(Put(s.word, lane, v), DropAll(s.threads), s.log + [Entry(t, Store(lane, v), Nothing)])
  }

  ghost predicate Return(s: State, s': State, t: nat)
    requires t < |s.threads|
  {
    s.threads[t].Returned? && s' == s.(threads := s.threads[t := Idle])
  }

  datatype Action =
    | InvokeAct(op: Op, x86: bool)
    | PlainLoadAct
    | LoadReservedAct
    | StoreConditionalAct(ok: bool)
    | LockedExchangeAct
    | DirectStoreAct(lane: Lane, v: nat)
    | ReturnAct

  ghost predicate Step(s: State, s': State, t: nat, act: Action, n: nat)
  {
    t < |s.threads| &&
    match act
    case InvokeAct(op, x86) => Invoke(s, s', t, op, x86, n)
    case PlainLoadAct => PlainLoad(s, s', t)
    case LoadReservedAct => LoadReserved(s, s', t)
    case StoreConditionalAct(ok) => StoreConditional(s, s', t, ok, n)
    case LockedExchangeAct => LockedExchange(s, s', t, n)
    case DirectStoreAct(lane, v) => DirectStore(s, s', t, lane, v, n)
    case ReturnAct => Return(s, s', t)
  }

  ghost predicate StepAt(states: seq<State>, who: seq<nat>, acts: seq<Action>, n: nat, i: nat)
    requires i < |who| == |acts| && |states| == |who| + 1
  {
    Step(states[i], states[i + 1], who[i], acts[i], n)
  }

  ghost predicate Run(states: seq<State>, who: seq<nat>, acts: seq<Action>, n: nat)
  {
    && |states| == |who| + 1 == |acts| + 1 && Init(states[0], n)
    && forall i :: 0 <= i < |who| ==> StepAt(states, who, acts, n, i)
  }

  // ----- the log as a sequential history -----

  /** The word after the operations of a log, one after the other. */
  function Replay(w: nat, log: seq<Entry>, n: nat): (r: nat)
    decreases |log|
  {
    if log == [] then w else NewWord(log[|log| - 1].op, Replay(w, log[..|log| - 1], n), n)
  }

  /** Every operation returned what it would have returned at its place in the log. */
  ghost predicate Sequential(w: nat, log: seq<Entry>, n: nat)
    decreases |log|
  {
    log == [] ||
    (var before, last := log[..|log| - 1], log[|log| - 1];
     Sequential(w, before, n) && last.result == Answer(last.op, Replay(w, before, n)))
  }

  // ----- the invariant -----

  /** Thread t has no entry in the log from `since` on. */
  ghost predicate NoEntry(log: seq<Entry>, t: nat, since: nat)
  {
    forall k :: since <= k < |log| ==> log[k].thread != t
  }

  ghost predicate ThreadOk(th: Thread, t: nat, word: nat, log: seq<Entry>, n: nat)
  {
    && (th.Preload? || th.Ready? || th.Loaded? || th.Trying? ==> NoEntry(log, t, th.since))
    && match th
    case Idle => true
    case Preload(op, x86, since) => OpOk(op, n) && since <= |log| && (if x86 then op.Fetch? else op.Exchange?)
    case Ready(op, exp, since) =>
      OpOk(op, n) && since <= |log| && !op.Store? && (op.CompareExchange? ==> exp == op.expected)
    case Loaded(op, exp, seen, reserved, since) =>
      && OpOk(op, n) && since <= |log| && !op.Store? && (op.CompareExchange? ==> exp == op.expected)
      && (!op.Fetch? ==> Field(seen, op.lane) == exp)
      && (reserved ==> seen == word)
    case Trying(op, exp, since) =>
      && OpOk(op, n) && since <= |log| && (op.Fetch? || op.CompareExchange?)
      && (op.CompareExchange? ==> exp == op.expected)
    case Returned(op, result, since, at) =>
      && since <= at < |log| && log[at] == Entry(t, op, result)
      && forall k :: since <= k < |log| && log[k].thread == t ==> k == at
  }

  ghost predicate Inv(w0: nat, s: State, n: nat)
  {
    && Fits(s.word, n)
    && s.word == Replay(w0, s.log, n)
    && Sequential(w0, s.log, n)
    && (forall k :: 0 <= k < |s.log| ==> OpOk(s.log[k].op, n))
    && forall t: nat :: t < |s.threads| ==> ThreadOk(s.threads[t], t, s.word, s.log, n)
  }

  lemma NewWordFits(op: Op, w: nat, n: nat)
    requires OpOk(op, n) && Fits(w, n)
    ensures Fits(NewWord(op, w, n), n)
  {
    match op
    case Fetch(lane, f, v) => PutFits(w, lane, Compute(f, Field(w, lane), v, n), n);
    case CompareExchange(lane, _, desired) => PutFits(w, lane, desired, n);
    case Exchange(lane, v) => PutFits(w, lane, v, n);
    case Store(lane, v) => PutFits(w, lane, v, n);
  }

  /** What the code stores and returns is what the operation does to the word it loaded. */
  lemma ComputedRight(op: Op, exp: nat, seen: nat, n: nat)
    requires OpOk(op, n) && Fits(seen, n) && !op.Store?
    requires op.CompareExchange? ==> exp == op.expected
    requires !op.Fetch? ==> Field(seen, op.lane) == exp
    ensures Computed(op, seen, n) == NewWord(op, seen, n)
    ensures Handed(op, exp, seen) == Answer(op, seen)
  {
    GetIsField(seen, op.lane);
    match op
    case Fetch(lane, f, v) => MergeIsPut(seen, lane, Compute(f, Field(seen, lane), v, n), n);
    case CompareExchange(lane, _, desired) => InsertIsPut(seen, lane, desired, n);
    case Exchange(lane, v) => InsertIsPut(seen, lane, v, n);
  }

  // ----- every step keeps it -----

  /** A step that changes one thread and nothing else. */
  lemma LocalKeeps(w0: nat, s: State, s': State, t: nat, th: Thread, n: nat)
    requires Inv(w0, s, n) && t < |s.threads|
    requires s' == s.(threads := s.threads[t := th]) && ThreadOk(th, t, s.word, s.log, n)
    ensures Inv(w0, s', n)
  {}

  lemma LogAppend(w0: nat, log: seq<Entry>, e: Entry, n: nat)
    requires Sequential(w0, log, n) && e.result == Answer(e.op, Replay(w0, log, n))
    ensures Sequential(w0, log + [e], n)
    ensures Replay(w0, log + [e], n) == NewWord(e.op, Replay(w0, log, n), n)
  {
    assert (log + [e])[..|log + [e]| - 1] == log;
  }

  lemma OthersKeep(th: Thread, t: nat, word: nat, word': nat, log: seq<Entry>, e: Entry, n: nat)
    requires ThreadOk(th, t, word, log, n) && e.thread != t
    ensures ThreadOk(Drop(th), t, word', log + [e], n)
    ensures word' == word ==> ThreadOk(th, t, word', log + [e], n)
  {}

  /** A step by which an operation takes effect. */
  lemma EffectKeeps(w0: nat, s: State, s': State, t: nat, e: Entry, n: nat)
    requires Inv(w0, s, n) && t < |s.threads| == |s'.threads| && OpOk(e.op, n) && e.thread == t
    requires e.result == Answer(e.op, s.word) && s'.word == NewWord(e.op, s.word, n) && s'.log == s.log + [e]
    requires ThreadOk(s'.threads[t], t, s'.word, s'.log, n)
    requires forall u: nat :: u < |s.threads| && u != t ==>
      s'.threads[u] == Drop(s.threads[u]) || (s'.threads[u] == s.threads[u] && s'.word == s.word)
    ensures Inv(w0, s', n)
  {
    LogAppend(w0, s.log, e, n);
    NewWordFits(e.op, s.word, n);
    forall u: nat | u < |s'.threads| ensures ThreadOk(s'.threads[u], u, s'.word, s'.log, n) {
      if u != t { OthersKeep(s.threads[u], u, s.word, s'.word, s.log, e, n); }
    }
  }

  lemma InvokeKeeps(w0: nat, s: State, s': State, t: nat, op: Op, x86: bool, n: nat)
    requires Inv(w0, s, n) && t < |s.threads| && Invoke(s, s', t, op, x86, n)
    ensures Inv(w0, s', n)
  {
    LocalKeeps(w0, s, s', t, s'.threads[t], n);
  }

  lemma PlainLoadKeeps(w0: nat, s: State, s': State, t: nat, n: nat)
    requires Inv(w0, s, n) && t < |s.threads| && PlainLoad(s, s', t)
    ensures Inv(w0, s', n)
  {
    assert ThreadOk(s.threads[t], t, s.word, s.log, n);
    LocalKeeps(w0, s, s', t, s'.threads[t], n);
  }

  /** A failed compare-exchange takes effect when it loads. */
  lemma FailedKeeps(w0: nat, s: State, t: nat, th: Thread, n: nat)
    requires Inv(w0, s, n) && t < |s.threads| && (th.Ready? || th.Trying?) && th == s.threads[t]
    requires th.op.CompareExchange? && Field(s.word, th.op.lane) != th.exp
    ensures Inv(w0, Failed(s, t, th), n)
  {
    assert ThreadOk(th, t, s.word, s.log, n);
    GetIsField(s.word, th.op.lane);
    EffectKeeps(w0, s, Failed(s, t, th), t, Entry(t, th.op, Outcome(false, Get(s.word, th.op.lane))), n);
  }

  lemma LoadReservedKeeps(w0: nat, s: State, s': State, t: nat, n: nat)
    requires Inv(w0, s, n) && t < |s.threads| && LoadReserved(s, s', t)
    ensures Inv(w0, s', n)
  {
    var th := s.threads[t];
    assert ThreadOk(th, t, s.word, s.log, n);
    DiffersMeans(s.word, th.op.lane, th.exp);
    if th.op.CompareExchange? && Differs(s.word, th.op.lane, th.exp) {
      FailedKeeps(w0, s, t, th, n);
    } else {
      LocalKeeps(w0, s, s', t, s'.threads[t], n);
    }
  }

  /** A successful store takes effect at once: nobody stored since the load. */
  lemma StoredKeeps(w0: nat, s: State, t: nat, op: Op, since: nat, word: nat, result: Result, n: nat)
    requires Inv(w0, s, n) && t < |s.threads| && OpOk(op, n) && since <= |s.log| && NoEntry(s.log, t, since)
    requires word == NewWord(op, s.word, n) && result == Answer(op, s.word)
    ensures Inv(w0, Stored(s, t, op, since, word, result), n)
  {
    EffectKeeps(w0, s, Stored(s, t, op, since, word, result), t, Entry(t, op, result), n);
  }

  lemma StoreConditionalKeeps(w0: nat, s: State, s': State, t: nat, ok: bool, n: nat)
    requires Inv(w0, s, n) && t < |s.threads| && StoreConditional(s, s', t, ok, n)
    ensures Inv(w0, s', n)
  {
    var th := s.threads[t];
    assert ThreadOk(th, t, s.word, s.log, n);
    if ok {
      ComputedRight(th.op, th.exp, th.seen, n);
      StoredKeeps(w0, s, t, th.op, th.since, Computed(th.op, th.seen, n), Handed(th.op, th.exp, th.seen), n);
    } else {
      LocalKeeps(w0, s, s', t, s'.threads[t], n);
    }
  }

  lemma LockedExchangeKeeps(w0: nat, s: State, s': State, t: nat, n: nat)
    requires Inv(w0, s, n) && t < |s.threads| && LockedExchange(s, s', t, n)
    ensures Inv(w0, s', n)
  {
    var th := s.threads[t];
    assert ThreadOk(th, t, s.word, s.log, n);
    if Field(s.word, th.op.lane) == th.exp {
      GetIsField(s.word, th.op.lane);
      StoredKeeps(w0, s, t, th.op, th.since, s'.word, Handed(th.op, th.exp, s.word), n);
    } else if th.op.Fetch? {
      LocalKeeps(w0, s, s', t, s'.threads[t], n);
    } else {
      FailedKeeps(w0, s, t, th, n);
    }
  }

  lemma StepKeeps(w0: nat, s: State, s': State, t: nat, act: Action, n: nat)
    requires Inv(w0, s, n) && Step(s, s', t, act, n)
    ensures Inv(w0, s', n)
  {
    match act
    case InvokeAct(op, x86) => InvokeKeeps(w0, s, s', t, op, x86, n);
    case PlainLoadAct => PlainLoadKeeps(w0, s, s', t, n);
    case LoadReservedAct => LoadReservedKeeps(w0, s, s', t, n);
    case StoreConditionalAct(ok) => StoreConditionalKeeps(w0, s, s', t, ok, n);
    case LockedExchangeAct => LockedExchangeKeeps(w0, s, s', t, n);
    case DirectStoreAct(lane, v) => EffectKeeps(w0, s, s', t, Entry(t, Store(lane, v), Nothing), n);
    case ReturnAct => LocalKeeps(w0, s, s', t, Idle, n);
  }

  lemma {:induction false} RunKeeps(states: seq<State>, who: seq<nat>, acts: seq<Action>, n: nat, i: nat)
    requires Run(states, who, acts, n) && i < |states|
    ensures Inv(states[0].word, states[i], n)
  {
    if i > 0 {
      RunKeeps(states, who, acts, n, i - 1);
      assert StepAt(states, who, acts, n, i - 1);
      StepKeeps(states[0].word, states[i - 1], states[i], who[i - 1], acts[i - 1], n);
    }
  }

  // ----- what it means -----

  lemma {:induction false} SequentialAt(w: nat, log: seq<Entry>, n: nat, k: nat)
    requires Sequential(w, log, n) && k < |log|
    ensures log[k].result == Answer(log[k].op, Replay(w, log[..k], n))
    decreases |log|
  {
    var before := log[..|log| - 1];
    if k < |log| - 1 {
      SequentialAt(w, before, n, k);
      assert before[..k] == log[..k];
    }
  }

  // ----- every operation once -----

  /** What thread t has called in the first i steps, in order. */
  function Calls(who: seq<nat>, acts: seq<Action>, t: nat, i: nat): (ops: seq<Op>)
    requires i <= |who| && i <= |acts|
  {
    if i == 0 then [] else Calls(who, acts, t, i - 1) + (if who[i - 1] == t then Called(acts[i - 1]) else [])
  }

  function Called(act: Action): (ops: seq<Op>)
  {
    match act
    case InvokeAct(op, _) => [op]
    case DirectStoreAct(lane, v) => [Store(lane, v)]
    case _ => []
  }

  /** A finished operation. */
  datatype Finished = Finished(op: Op, result: Result)

  /** What calls of thread t have returned with in the first i steps, in order. */
  function Returns(states: seq<State>, who: seq<nat>, acts: seq<Action>, t: nat, i: nat): (rs: seq<Finished>)
    requires i <= |who| && i <= |acts| && i <= |states|
  {
    if i == 0 then []
    else Returns(states, who, acts, t, i - 1) + (if who[i - 1] == t then Ended(states[i - 1], t, acts[i - 1]) else [])
  }

  function Ended(s: State, t: nat, act: Action): (rs: seq<Finished>)
  {
    if act.ReturnAct? && t < |s.threads| && s.threads[t].Returned? then
      [Finished(s.threads[t].op, s.threads[t].result)]
    else if act.DirectStoreAct? then [Finished(Store(act.lane, act.v), Nothing)]
    else []
  }

  /** The entries of thread t, in order. */
  function Own(log: seq<Entry>, t: nat): (rs: seq<Finished>)
    decreases |log|
  {
    if log == [] then []
    else
      var last := log[|log| - 1];
      Own(log[..|log| - 1], t) + (if last.thread == t then [Finished(last.op, last.result)] else [])
  }

  function Ops(rs: seq<Finished>): (ops: seq<Op>)
    ensures |ops| == |rs| && forall i :: 0 <= i < |ops| ==> ops[i] == rs[i].op
  {
    seq(|rs|, i requires 0 <= i < |rs| => rs[i].op)
  }

  /** The operation that a thread is in the middle of and that has not taken effect. */
  function Pending(th: Thread): (ops: seq<Op>)
  {
    if th.Idle? || th.Returned? then [] else [th.op]
  }

  /** The operation that has taken effect and has still to return. */
  function Outstanding(th: Thread): (rs: seq<Finished>)
  {
    if th.Returned? then [Finished(th.op, th.result)] else []
  }

  lemma OwnAppend(log: seq<Entry>, e: Entry, t: nat)
    ensures Own(log + [e], t) == Own(log, t) + (if e.thread == t then [Finished(e.op, e.result)] else [])
  {
    assert (log + [e])[..|log + [e]| - 1] == log;
  }

  lemma OpsAppend(rs: seq<Finished>, r: Finished)
    ensures Ops(rs + [r]) == Ops(rs) + [r.op]
  {}

  /** Marks the ledgers that a proof looks into. */
  ghost predicate Audited(s: State, t: nat, i: int) { true }

  /** Thread t's calls and returns so far, balanced against its entries. */
  ghost predicate Ledger(s: State, t: nat, calls: seq<Op>, ended: seq<Finished>)
    requires t < |s.threads|
  {
    forall i: int {:trigger Audited(s, t, i)} :: Audited(s, t, i) ==>
      && Own(s.log, t) == ended + Outstanding(s.threads[t])
      && calls == Ops(Own(s.log, t)) + Pending(s.threads[t])
  }

  /** A step that logs nothing and neither starts nor ends an operation. */
  lemma LocalLedger(s: State, s': State, t: nat, calls: seq<Op>, ended: seq<Finished>)
    requires t < |s.threads| == |s'.threads| && Ledger(s, t, calls, ended) && s'.log == s.log
    requires Pending(s'.threads[t]) == Pending(s.threads[t]) && Outstanding(s'.threads[t]) == Outstanding(s.threads[t])
    ensures Ledger(s', t, calls, ended)
  {
    assert Audited(s, t, 0);
  }

  /** A step by which the thread's operation takes effect. */
  lemma EffectLedger(s: State, s': State, t: nat, op: Op, result: Result, calls: seq<Op>, ended: seq<Finished>)
    requires t < |s.threads| == |s'.threads| && Ledger(s, t, calls, ended)
    requires Pending(s.threads[t]) == [op] && s'.log == s.log + [Entry(t, op, result)]
    requires Pending(s'.threads[t]) == [] && Outstanding(s'.threads[t]) == [Finished(op, result)]
    ensures Ledger(s', t, calls, ended)
  {
    assert Audited(s, t, 0);
    OwnAppend(s.log, Entry(t, op, result), t);
    OpsAppend(Own(s.log, t), Finished(op, result));
    assert ended + [] == ended;
  }

  /** A step of another thread. */
  lemma OtherLedger(s: State, s': State, t: nat, u: nat, act: Action, n: nat, calls: seq<Op>, ended: seq<Finished>)
    requires Step(s, s', u, act, n) && t < |s.threads| && u != t && Ledger(s, t, calls, ended)
    ensures |s'.threads| == |s.threads| && Ledger(s', t, calls, ended)
  {
    assert Audited(s, t, 0);
    OtherThread(s, s', t, u, act, n);
    if s'.log != s.log { OwnAppend(s.log, s'.log[|s.log|], t); }
  }

  lemma OtherThread(s: State, s': State, t: nat, u: nat, act: Action, n: nat)
    requires Step(s, s', u, act, n) && t < |s.threads| && u != t
    ensures |s'.threads| == |s.threads| && (s'.threads[t] == s.threads[t] || s'.threads[t] == Drop(s.threads[t]))
    ensures s'.log == s.log
         || (|s'.log| > 0 && s'.log == s.log + [s'.log[|s'.log| - 1]] && s'.log[|s'.log| - 1].thread == u)
  {}

  lemma InvokeLedger(s: State, s': State, t: nat, op: Op, x86: bool, n: nat, calls: seq<Op>, ended: seq<Finished>)
    requires t < |s.threads| && Invoke(s, s', t, op, x86, n) && Ledger(s, t, calls, ended)
    ensures Ledger(s', t, calls + [op], ended)
  {
    assert Audited(s, t, 0);
  }

  lemma ReturnLedger(s: State, s': State, t: nat, calls: seq<Op>, ended: seq<Finished>)
    requires t < |s.threads| && Return(s, s', t) && Ledger(s, t, calls, ended)
    ensures Ledger(s', t, calls, ended + Ended(s, t, ReturnAct))
  {
    assert Audited(s, t, 0);
  }

  lemma DirectStoreLedger(s: State, s': State, t: nat, lane: Lane, v: nat, n: nat, calls: seq<Op>, ended: seq<Finished>)
    requires t < |s.threads| && DirectStore(s, s', t, lane, v, n) && Ledger(s, t, calls, ended)
    ensures Ledger(s', t, calls + [Store(lane, v)], ended + [Finished(Store(lane, v), Nothing)])
  {
    assert Audited(s, t, 0);
    OwnAppend(s.log, Entry(t, Store(lane, v), Nothing), t);
    OpsAppend(Own(s.log, t), Finished(Store(lane, v), Nothing));
    assert Pending(s'.threads[t]) == [] && Outstanding(s'.threads[t]) == [];
  }

  lemma LoadReservedLedger(s: State, s': State, t: nat, calls: seq<Op>, ended: seq<Finished>)
    requires t < |s.threads| && LoadReserved(s, s', t) && Ledger(s, t, calls, ended)
    ensures Ledger(s', t, calls, ended)
  {
    var th := s.threads[t];
    if th.op.CompareExchange? && Differs(s.word, th.op.lane, th.exp) {
      EffectLedger(s, s', t, th.op, Outcome(false, Get(s.word, th.op.lane)), calls, ended);
    } else {
      LocalLedger(s, s', t, calls, ended);
    }
  }

  lemma StoreConditionalLedger(s: State, s': State, t: nat, ok: bool, n: nat, calls: seq<Op>, ended: seq<Finished>)
    requires t < |s.threads| && StoreConditional(s, s', t, ok, n) && Ledger(s, t, calls, ended)
    ensures Ledger(s', t, calls, ended)
  {
    var th := s.threads[t];
    if ok {
      EffectLedger(s, s', t, th.op, Handed(th.op, th.exp, th.seen), calls, ended);
    } else {
      LocalLedger(s, s', t, calls, ended);
    }
  }

  lemma LockedExchangeLedger(s: State, s': State, t: nat, n: nat, calls: seq<Op>, ended: seq<Finished>)
    requires t < |s.threads| && LockedExchange(s, s', t, n) && Ledger(s, t, calls, ended)
    ensures Ledger(s', t, calls, ended)
  {
    var th := s.threads[t];
    if Field(s.word, th.op.lane) == th.exp {
      EffectLedger(s, s', t, th.op, Handed(th.op, th.exp, s.word), calls, ended);
    } else if th.op.Fetch? {
      LocalLedger(s, s', t, calls, ended);
    } else {
      EffectLedger(s, s', t, th.op, Outcome(false, Get(s.word, th.op.lane)), calls, ended);
    }
  }

  lemma StepLedger(s: State, s': State, t: nat, act: Action, n: nat, calls: seq<Op>, ended: seq<Finished>)
    requires Step(s, s', t, act, n) && Ledger(s, t, calls, ended)
    ensures |s'.threads| == |s.threads| && Ledger(s', t, calls + Called(act), ended + Ended(s, t, act))
  {
    assert calls + [] == calls && ended + [] == ended;
    match act
    case InvokeAct(op, x86) => InvokeLedger(s, s', t, op, x86, n, calls, ended);
    case PlainLoadAct => LocalLedger(s, s', t, calls, ended);
    case LoadReservedAct => LoadReservedLedger(s, s', t, calls, ended);
    case StoreConditionalAct(ok) => StoreConditionalLedger(s, s', t, ok, n, calls, ended);
    case LockedExchangeAct => LockedExchangeLedger(s, s', t, n, calls, ended);
    case DirectStoreAct(lane, v) => DirectStoreLedger(s, s', t, lane, v, n, calls, ended);
    case ReturnAct => ReturnLedger(s, s', t, calls, ended);
  }

  lemma AnyLedger(s: State, s': State, t: nat, u: nat, act: Action, n: nat, calls: seq<Op>, ended: seq<Finished>)
    requires Step(s, s', u, act, n) && t < |s.threads| && Ledger(s, t, calls, ended)
    ensures |s'.threads| == |s.threads|
    ensures Ledger(s', t, calls + (if u == t then Called(act) else []),
                   ended + (if u == t then Ended(s, t, act) else []))
  {
    if u == t {
      StepLedger(s, s', t, act, n, calls, ended);
    } else {
      OtherLedger(s, s', t, u, act, n, calls, ended);
      assert calls + [] == calls && ended + [] == ended;
    }
  }

  /** In every reachable state the log holds each call of each thread once, in order and with the result it returned. */
  lemma {:induction false} ExactlyOnce(states: seq<State>, who: seq<nat>, acts: seq<Action>, n: nat, i: nat, t: nat)
    requires Run(states, who, acts, n) && i < |states| && t < |states[0].threads|
    ensures |states[i].threads| == |states[0].threads|
    ensures Ledger(states[i], t, Calls(who, acts, t, i), Returns(states, who, acts, t, i))
  {
    if i > 0 {
      ExactlyOnce(states, who, acts, n, i - 1, t);
      assert StepAt(states, who, acts, n, i - 1);
      AnyLedger(states[i - 1], states[i], t, who[i - 1], acts[i - 1], n,
                Calls(who, acts, t, i - 1), Returns(states, who, acts, t, i - 1));
    }
  }

  /**
   * Linearizability: in every reachable state the word is the fold of the operations logged so far, each did to
   * its lane what it should and returned what the lane held just before it, and the log holds every call of every
   * thread once: those that have returned, in their order and with the results they returned, and at most one that
   * is still to return.
   */
  lemma Linearizable(states: seq<State>, who: seq<nat>, acts: seq<Action>, n: nat, i: nat)
    requires Run(states, who, acts, n) && i < |states|
    ensures var s, w0 := states[i], states[0].word;
      && s.word == Replay(w0, s.log, n)
      && (forall k :: 0 <= k < |s.log| ==> s.log[k].result == Answer(s.log[k].op, Replay(w0, s.log[..k], n)))
      && (forall k :: 0 <= k < |s.log| ==>
            Effect(s.log[k].op, s.log[k].result, Replay(w0, s.log[..k], n), Replay(w0, s.log[..k + 1], n)))
      && |s.threads| == |states[0].threads|
      && forall t: nat :: t < |s.threads| ==> Ledger(s, t, Calls(who, acts, t, i), Returns(states, who, acts, t, i))
  {
    var s, w0 := states[i], states[0].word;
    RunKeeps(states, who, acts, n, i);
    forall k | 0 <= k < |s.log| ensures s.log[k].result == Answer(s.log[k].op, Replay(w0, s.log[..k], n)) {
      SequentialAt(w0, s.log, n, k);
    }
    forall k | 0 <= k < |s.log|
      ensures Effect(s.log[k].op, s.log[k].result, Replay(w0, s.log[..k], n), Replay(w0, s.log[..k + 1], n))
    {
      LoggedEffect(states, who, acts, n, i, k);
    }
    SameThreads(states, who, acts, n, i);
    forall t: nat | t < |s.threads| ensures Ledger(s, t, Calls(who, acts, t, i), Returns(states, who, acts, t, i)) {
      ExactlyOnce(states, who, acts, n, i, t);
    }
  }

  lemma {:induction false} SameThreads(states: seq<State>, who: seq<nat>, acts: seq<Action>, n: nat, i: nat)
    requires Run(states, who, acts, n) && i < |states|
    ensures |states[i].threads| == |states[0].threads|
  {
    if i > 0 {
      SameThreads(states, who, acts, n, i - 1);
      assert StepAt(states, who, acts, n, i - 1);
    }
  }

  /** An operation that has returned took effect after it was called and before it returned, once, with its result. */
  lemma TakesEffectInTime(states: seq<State>, who: seq<nat>, acts: seq<Action>, n: nat, i: nat, t: nat)
    requires Run(states, who, acts, n) && i < |states| && t < |states[i].threads| && states[i].threads[t].Returned?
    ensures var th, log := states[i].threads[t], states[i].log;
      && th.since <= th.at < |log| && log[th.at] == Entry(t, th.op, th.result)
      && forall k :: th.since <= k < |log| && log[k].thread == t ==> k == th.at
  {
    RunKeeps(states, who, acts, n, i);
    assert ThreadOk(states[i].threads[t], t, states[i].word, states[i].log, n);
  }

  // ----- what each operation does -----

  predicate Covers(lane: Lane, i: nat)
  {
    lane.shift <= i < lane.shift + lane.bits
  }

  /** An operation on a lane changes no bit outside it. */
  lemma OtherBits(op: Op, w: nat, n: nat, i: nat)
    requires !Covers(op.lane, i)
    ensures BitAt(NewWord(op, w, n), i) == BitAt(w, i)
  {
    match op
    case Fetch(lane, f, v) => PutBits(w, lane, Compute(f, Field(w, lane), v, n), i);
    case CompareExchange(lane, _, desired) => PutBits(w, lane, desired, i);
    case Exchange(lane, v) => PutBits(w, lane, v, i);
    case Store(lane, v) => PutBits(w, lane, v, i);
  }

  /** The word from w to w' by one operation, bit by bit and number by number, and what it returns. */
  ghost predicate Effect(op: Op, result: Result, w: nat, w': nat)
  {
    var lane, before, after := op.lane, Field(w, op.lane), Field(w', op.lane);
    && (forall i: nat :: !Covers(lane, i) ==> BitAt(w', i) == BitAt(w, i))
    && match op
       case Fetch(_, f, v) =>
         && result == Old(before)
         && (f.Add? ==> (after - v) % Pow2(lane.bits) == before)
         && (f.Subtract? ==> (after + v) % Pow2(lane.bits) == before)
         && (Bitwise(f) ==> forall i: nat :: i < lane.bits ==>
               BitOf(f, BitAt(w, lane.shift + i), BitAt(v, i), BitAt(w', lane.shift + i)))
       case CompareExchange(_, expected, desired) =>
         && result == Outcome(before == expected, before)
         && after == if before == expected then desired else before
       case Exchange(_, v) => result == Old(before) && after == v
       case Store(_, v) => result == Nothing && after == v
  }

  lemma FetchEffect(lane: Lane, f: Fun, v: nat, w: nat, n: nat)
    requires OpOk(Fetch(lane, f, v), n)
    ensures Effect(Fetch(lane, f, v), Answer(Fetch(lane, f, v), w), w, NewWord(Fetch(lane, f, v), w, n))
  {
    var op := Fetch(lane, f, v);
    var before, w' := Field(w, lane), NewWord(op, w, n);
    LowFits(Down(w, lane.shift), lane.bits);
    FieldPut(w, lane, Compute(f, before, v, n));
    ComputeInLane(f, before, v, lane.bits, n);
    forall i: nat | !Covers(lane, i) ensures BitAt(w', i) == BitAt(w, i) {
      OtherBits(op, w, n, i);
    }
    if Bitwise(f) {
      forall i: nat | i < lane.bits
        ensures BitOf(f, BitAt(w, lane.shift + i), BitAt(v, i), BitAt(w', lane.shift + i))
      {
        FetchBit(lane, f, v, w, n, i);
      }
    } else {
      LowIsMod(Down(w, lane.shift), lane.bits);
      ComputeSums(before, v, lane.bits);
    }
  }

  lemma FetchBit(lane: Lane, f: Fun, v: nat, w: nat, n: nat, i: nat)
    requires OpOk(Fetch(lane, f, v), n) && Bitwise(f) && i < lane.bits
    ensures BitOf(f, BitAt(w, lane.shift + i), BitAt(v, i), BitAt(NewWord(Fetch(lane, f, v), w, n), lane.shift + i))
  {
    var x := Compute(f, Field(w, lane), v, n);
    PutBits(w, lane, x, lane.shift + i);
    FieldBits(w, lane, i);
    ComputeBits(f, Field(w, lane), v, n, i);
  }

  lemma PutEffect(op: Op, w: nat, n: nat, v: nat)
    requires OpOk(op, n) && Fits(v, op.lane.bits)
    ensures Field(Put(w, op.lane, v), op.lane) == v
  {
    FieldPut(w, op.lane, v);
    LowFits(v, op.lane.bits);
  }

  lemma OpEffect(op: Op, w: nat, n: nat)
    requires OpOk(op, n)
    ensures Effect(op, Answer(op, w), w, NewWord(op, w, n))
  {
    forall i: nat | !Covers(op.lane, i) ensures BitAt(NewWord(op, w, n), i) == BitAt(w, i) {
      OtherBits(op, w, n, i);
    }
    match op
    case Fetch(lane, f, v) => FetchEffect(lane, f, v, w, n);
    case CompareExchange(lane, _, desired) => PutEffect(op, w, n, desired);
    case Exchange(lane, v) => PutEffect(op, w, n, v);
    case Store(lane, v) => PutEffect(op, w, n, v);
  }

  /** In every reachable state, every operation in the log did to the word and returned what it should. */
  lemma LoggedEffect(states: seq<State>, who: seq<nat>, acts: seq<Action>, n: nat, i: nat, k: nat)
    requires Run(states, who, acts, n) && i < |states| && k < |states[i].log|
    ensures var log, w0 := states[i].log, states[0].word;
      Effect(log[k].op, log[k].result, Replay(w0, log[..k], n), Replay(w0, log[..k + 1], n))
  {
    var log, w0 := states[i].log, states[0].word;
    RunKeeps(states, who, acts, n, i);
    SequentialAt(w0, log, n, k);
    OpEffect(log[k].op, Replay(w0, log[..k], n), n);
    assert log[..k + 1][..k] == log[..k] && log[..k + 1][k] == log[k];
  }

  // ----- real-time order -----

  lemma StepGrows(s: State, s': State, t: nat, act: Action, n: nat)
    requires Step(s, s', t, act, n)
    ensures s.log <= s'.log
  {}

  /** The log only grows. */
  lemma {:induction false} LogGrows(states: seq<State>, who: seq<nat>, acts: seq<Action>, n: nat, i: nat, j: nat)
    requires Run(states, who, acts, n) && i <= j < |states|
    ensures states[i].log <= states[j].log
    decreases j - i
  {
    if i < j {
      LogGrows(states, who, acts, n, i, j - 1);
      assert StepAt(states, who, acts, n, j - 1);
      StepGrows(states[j - 1], states[j], who[j - 1], acts[j - 1], n);
    }
  }

  /** Thread t is busy with an operation that it called when the log had a certain length. */
  ghost predicate Busy(s: State, t: nat, op: Op, since: nat)
  {
    t < |s.threads| && !s.threads[t].Idle? && s.threads[t].op == op && s.threads[t].since == since
  }

  lemma StepBusy(s: State, s': State, u: nat, act: Action, n: nat, t: nat, op: Op, since: nat)
    requires Step(s, s', u, act, n) && Busy(s, t, op, since) && !(u == t && act.ReturnAct?)
    ensures Busy(s', t, op, since)
  {}

  /** From its call at step j on, a thread is busy with the operation until it returns. */
  lemma {:induction false} StaysBusy(states: seq<State>, who: seq<nat>, acts: seq<Action>, n: nat,
                                     t: nat, j: nat, k: nat)
    requires Run(states, who, acts, n) && j < k < |states| && who[j] == t && acts[j].InvokeAct?
    requires forall m :: j < m < k ==> !(who[m] == t && acts[m].ReturnAct?)
    ensures Busy(states[k], t, acts[j].op, |states[j].log|)
    decreases k
  {
    assert StepAt(states, who, acts, n, k - 1);
    if j < k - 1 {
      StaysBusy(states, who, acts, n, t, j, k - 1);
      StepBusy(states[k - 1], states[k], who[k - 1], acts[k - 1], n, t, acts[j].op, |states[j].log|);
    }
  }

  /** The call that thread t made at step j has been answered in state k, and took effect at place p of the log. */
  ghost predicate Placed(states: seq<State>, who: seq<nat>, acts: seq<Action>, t: nat, j: nat, k: nat, p: nat)
  {
    && j < k < |states| == |who| + 1 == |acts| + 1 && who[j] == t
    && match acts[j]
       case DirectStoreAct(_, _) => k == j + 1 && p == |states[j].log|
       case InvokeAct(_, _) =>
         && t < |states[k].threads| && states[k].threads[t].Returned? && p == states[k].threads[t].at
         && forall m :: j < m < k ==> !(who[m] == t && acts[m].ReturnAct?)
       case _ => false
  }

  /** The place lies between the lengths of the log at the call and at the answer, and holds the operation. */
  lemma PlacedBetween(states: seq<State>, who: seq<nat>, acts: seq<Action>, n: nat, t: nat, j: nat, k: nat, p: nat)
    requires Run(states, who, acts, n) && Placed(states, who, acts, t, j, k, p)
    ensures |states[j].log| <= p < |states[k].log|
    ensures states[k].log[p].thread == t && [states[k].log[p].op] == Called(acts[j])
  {
    if acts[j].InvokeAct? {
      StaysBusy(states, who, acts, n, t, j, k);
      TakesEffectInTime(states, who, acts, n, k, t);
    } else {
      assert StepAt(states, who, acts, n, j);
    }
  }

  /** An operation that was answered before another was called stands before it in the log, for good. */
  lemma RealTimeOrder(states: seq<State>, who: seq<nat>, acts: seq<Action>, n: nat, i: nat,
                      t: nat, j: nat, k: nat, p: nat, u: nat, j': nat, k': nat, p': nat)
    requires Run(states, who, acts, n)
    requires Placed(states, who, acts, t, j, k, p) && Placed(states, who, acts, u, j', k', p')
    requires k <= j' && k' <= i < |states|
    ensures p < p' < |states[i].log|
    ensures states[i].log[p].thread == t && [states[i].log[p].op] == Called(acts[j])
    ensures states[i].log[p'].thread == u && [states[i].log[p'].op] == Called(acts[j'])
  {
    PlacedBetween(states, who, acts, n, t, j, k, p);
    PlacedBetween(states, who, acts, n, u, j', k', p');
    LogGrows(states, who, acts, n, k, j');
    LogGrows(states, who, acts, n, k, i);
    LogGrows(states, who, acts, n, k', i);
  }

  lemma {:induction false} ReplayOtherBits(w: nat, log: seq<Entry>, n: nat, i: nat)
    requires forall k :: 0 <= k < |log| ==> !Covers(log[k].op.lane, i)
    ensures BitAt(Replay(w, log, n), i) == BitAt(w, i)
    decreases |log|
  {
    if log != [] {
      var before := log[..|log| - 1];
      ReplayOtherBits(w, before, n, i);
      OtherBits(log[|log| - 1].op, Replay(w, before, n), n, i);
    }
  }

  /** Over any run, bits that no operation's lane covers keep their value. */
  lemma OtherBitsKept(states: seq<State>, who: seq<nat>, acts: seq<Action>, n: nat, i: nat, bit: nat)
    requires Run(states, who, acts, n) && i < |states|
    requires forall k :: 0 <= k < |states[i].log| ==> !Covers(states[i].log[k].op.lane, bit)
    ensures BitAt(states[i].word, bit) == BitAt(states[0].word, bit)
  {
    RunKeeps(states, who, acts, n, i);
    ReplayOtherBits(states[0].word, states[i].log, n, bit);
  }

  /** The operation adds to the lane, or leaves it alone. */
  predicate Counting(op: Op, lane: Lane)
  {
    (op.Fetch? && op.lane == lane && op.f == Add) || Disjoint(op.lane, lane)
  }

  function Share(op: Op, lane: Lane): (v: nat)
  {
    if op.Fetch? && op.lane == lane then op.v else 0
  }

  /** All that was added to the lane. */
  function Added(log: seq<Entry>, lane: Lane): (sum: nat)
    decreases |log|
  {
    if log == [] then 0 else Added(log[..|log| - 1], lane) + Share(log[|log| - 1].op, lane)
  }

  /** The lane holds base and sum, added in its own type. */
  ghost predicate Counts(w: nat, lane: Lane, base: nat, sum: nat)
  {
    Field(w, lane) == (base + sum) % Pow2(lane.bits)
  }

  lemma BesideKeeps(op: Op, w: nat, n: nat, lane: Lane)
    requires Disjoint(op.lane, lane)
    ensures Field(NewWord(op, w, n), lane) == Field(w, lane)
  {
    match op
    case Fetch(l, f, v) => FieldBeside(w, l, Compute(f, Field(w, l), v, n), lane);
    case CompareExchange(l, _, desired) => FieldBeside(w, l, desired, lane);
    case Exchange(l, v) => FieldBeside(w, l, v, lane);
    case Store(l, v) => FieldBeside(w, l, v, lane);
  }

  lemma AddCounts(w: nat, lane: Lane, v: nat, n: nat, base: nat, sum: nat)
    requires InWord(lane, n) && Fits(v, lane.bits) && Counts(w, lane, base, sum)
    ensures Counts(NewWord(Fetch(lane, Add, v), w, n), lane, base, sum + v)
  {
    var p, old_ := Pow2(lane.bits), Field(w, lane);
    FieldPut(w, lane, Compute(Add, old_, v, n));
    LowFits(Down(w, lane.shift), lane.bits);
    ComputeInLane(Add, old_, v, lane.bits, n);
    Arith.DivIdentity(base + sum, p);
    Arith.ModEqual(base + sum + v, old_ + v, (base + sum) / p, p);
  }

  lemma StepCounts(op: Op, w: nat, n: nat, lane: Lane, base: nat, sum: nat)
    requires InWord(lane, n) && lane.bits > 0 && OpOk(op, n) && Counting(op, lane) && Counts(w, lane, base, sum)
    ensures Counts(NewWord(op, w, n), lane, base, sum + Share(op, lane))
  {
    if Disjoint(op.lane, lane) {
      BesideKeeps(op, w, n, lane);
    } else {
      AddCounts(w, lane, op.v, n, base, sum);
    }
  }

  lemma StartCounts(w: nat, lane: Lane)
    ensures Counts(w, lane, Field(w, lane), 0)
  {
    LowIsMod(Down(w, lane.shift), lane.bits);
    LowFits(Down(w, lane.shift), lane.bits);
    LowFits(Field(w, lane), lane.bits);
    LowIsMod(Field(w, lane), lane.bits);
  }

  lemma {:induction false} ReplayCounts(w: nat, log: seq<Entry>, n: nat, lane: Lane)
    requires InWord(lane, n) && lane.bits > 0
    requires forall k :: 0 <= k < |log| ==> OpOk(log[k].op, n) && Counting(log[k].op, lane)
    ensures Counts(Replay(w, log, n), lane, Field(w, lane), Added(log, lane))
    decreases |log|
  {
    if log == [] {
      StartCounts(w, lane);
    } else {
      var before, op := log[..|log| - 1], log[|log| - 1].op;
      ReplayCounts(w, before, n, lane);
      StepCounts(op, Replay(w, before, n), n, lane, Field(w, lane), Added(before, lane));
    }
  }

  /** No update is lost: a lane that is only counted in holds its first value and everything added to it. */
  lemma NoLostUpdate(states: seq<State>, who: seq<nat>, acts: seq<Action>, n: nat, i: nat, lane: Lane)
    requires Run(states, who, acts, n) && i < |states| && InWord(lane, n) && lane.bits > 0
    requires forall k :: 0 <= k < |states[i].log| ==> Counting(states[i].log[k].op, lane)
    ensures Counts(states[i].word, lane, Field(states[0].word, lane), Added(states[i].log, lane))
  {
    RunKeeps(states, who, acts, n, i);
    ReplayCounts(states[0].word, states[i].log, n, lane);
  }
}
