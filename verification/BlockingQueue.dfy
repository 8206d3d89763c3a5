/**
 BoundedBlockingQueue and the queue inside ThreadPool as one state machine.

 A step is one region between acquiring and releasing the mutex: entering put or take, or coming back
 from a wait.  A condition variable is the set of threads asleep on it and the set of threads that
 were woken and have not re-acquired the mutex yet.  Threads may wake spuriously, and a thread that
 just arrived may take what a woken one was told about.
 */
module BlockingQueue {

  type Thread = nat

  /** The queue's limit; ThreadPool's maxQueueSize_ of zero means none. */
  datatype Bound = Unbounded | AtMost(max: nat)

  datatype State<!T> = State(
    queue: seq<T>,
    running: bool,
    asleepPut: set<Thread>, wokenPut: set<Thread>, item: map<Thread, T>,
    asleepTake: set<Thread>, wokenTake: set<Thread>,
    put: seq<T>, taken: seq<T>)

  predicate Full<T>(b: Bound, s: State<T>) {
    b.AtMost? && |s.queue| >= b.max
  }

  ghost predicate Start<T>(s: State<T>) {
    s == State([], true, {}, {}, map[], {}, {}, [], [])
  }

  /** notify(): one sleeper, any one, is woken if there is one. */
  ghost predicate Notify(asleep: set<Thread>, woken: set<Thread>, asleep': set<Thread>, woken': set<Thread>) {
    if asleep == {} then asleep' == asleep && woken' == woken
    else exists t :: t in asleep && asleep' == asleep - {t} && woken' == woken + {t}
  }

  predicate Outside<T>(s: State<T>, t: Thread) {
    t !in s.asleepPut && t !in s.wokenPut && t !in s.asleepTake && t !in s.wokenTake
  }

  /** The region of put after the wait loop has ended. */
  ghost predicate Push<T>(s: State<T>, x: T, s': State<T>) {
    && s'.queue == s.queue + [x] && s'.put == s.put + [x] && s'.taken == s.taken && s'.running == s.running
    && s'.asleepPut == s.asleepPut && s'.wokenPut == s.wokenPut && s'.item == s.item
    && Notify(s.asleepTake, s.wokenTake, s'.asleepTake, s'.wokenTake)
  }

  /** The region of take after the wait loop has ended with something in the queue. */
  ghost predicate Pop<T>(s: State<T>, s': State<T>) {
    && s.queue != [] && s'.queue == s.queue[1..] && s'.taken == s.taken + [s.queue[0]]
    && s'.put == s.put && s'.running == s.running
    && s'.asleepTake == s.asleepTake && s'.wokenTake == s.wokenTake && s'.item == s.item
    && Notify(s.asleepPut, s.wokenPut, s'.asleepPut, s'.wokenPut)
  }

  /** One pass of put's loop by a thread that no set contains. */
  ghost predicate PutPass<T>(b: Bound, s: State<T>, t: Thread, x: T, s': State<T>) {
    if Full(b, s) then s' == s.(asleepPut := s.asleepPut + {t}, item := s.item[t := x])
    else Push(s.(item := s.item - {t}), x, s')
  }

  /** One pass of take's loop; a stopped pool hands out nothing when the queue is empty. */
  ghost predicate TakePass<T>(s: State<T>, t: Thread, s': State<T>) {
    if s.queue != [] then Pop(s, s')
    else if s.running then s' == s.(asleepTake := s.asleepTake + {t})
    else s' == s
  }

  datatype Step<!T> =
    | Put(t: Thread, x: T)
    | PutAgain(t: Thread)
    | TryPut(t: Thread, x: T)
    | Take(t: Thread)
    | TakeAgain(t: Thread)
    | Spurious(t: Thread)
    | Stop

  ghost predicate Does<T>(b: Bound, s: State<T>, a: Step<T>, s': State<T>) {
    match a
    case Put(t, x) => Outside(s, t) && PutPass(b, s, t, x, s')
    case PutAgain(t) => t in s.wokenPut && t in s.item && PutPass(b, s.(wokenPut := s.wokenPut - {t}), t, s.item[t], s')
    case TryPut(t, x) => Outside(s, t) && if Full(b, s) then s' == s else Push(s, x, s')
    case Take(t) => Outside(s, t) && TakePass(s, t, s')
    case TakeAgain(t) => t in s.wokenTake && TakePass(s.(wokenTake := s.wokenTake - {t}), t, s')
    case Spurious(t) =>
      || (t in s.asleepPut && s' == s.(asleepPut := s.asleepPut - {t}, wokenPut := s.wokenPut + {t}))
      || (t in s.asleepTake && s' == s.(asleepTake := s.asleepTake - {t}, wokenTake := s.wokenTake + {t}))
    case Stop => s' == s.(running := false, asleepTake := {}, wokenTake := s.wokenTake + s.asleepTake)
  }

  /** A run: from the start, one step at a time, in any interleaving. */
  ghost predicate Run<T>(b: Bound, r: seq<State<T>>, a: seq<Step<T>>) {
    && |r| == |a| + 1 && Start(r[0])
    && forall i :: 0 <= i < |a| ==> Does(b, r[i], a[i], r[i + 1])
  }

  // ----- the invariant

  /** No thread is in two places, and every waiting put still has its item. */
  ghost predicate Placed<T>(s: State<T>) {
    && (forall t :: t in s.asleepPut ==> t !in s.wokenPut && t !in s.asleepTake && t !in s.wokenTake)
    && (forall t :: t in s.wokenPut ==> t !in s.asleepTake && t !in s.wokenTake)
    && (forall t :: t in s.asleepTake ==> t !in s.wokenTake)
    && (forall t :: t in s.item <==> t in s.asleepPut || t in s.wokenPut)
  }

  /** Takers asleep: enough takers are awake for every queued item, and the pool has not been stopped. */
  ghost predicate TakersCovered<T>(s: State<T>) {
    s.asleepTake != {} ==> s.running && |s.wokenTake| >= |s.queue|
  }

  /** Putters asleep: enough putters are awake for every free place. */
  ghost predicate PuttersCovered<T>(b: Bound, s: State<T>) {
    s.asleepPut != {} ==> b.AtMost? && |s.wokenPut| + |s.queue| >= b.max
  }

  ghost predicate Inv<T>(b: Bound, s: State<T>) {
    && Placed(s) && TakersCovered(s) && PuttersCovered(b, s)
    && (b.AtMost? ==> |s.queue| <= b.max)
    && s.put == s.taken + s.queue
  }

  lemma Added(s: set<Thread>, t: Thread)
    requires t !in s
    ensures |s + {t}| == |s| + 1
  {
  }

  lemma Removed(s: set<Thread>, t: Thread)
    requires t in s
    ensures |s - {t}| == |s| - 1
  {
  }

  lemma NotifyCovers(asleep: set<Thread>, woken: set<Thread>, asleep': set<Thread>, woken': set<Thread>)
    requires Notify(asleep, woken, asleep', woken') && forall t :: t in asleep ==> t !in woken
    ensures forall t :: t in asleep' ==> t in asleep && t !in woken'
    ensures forall t :: t in asleep' || t in woken' <==> t in asleep || t in woken
    ensures asleep' != {} ==> asleep != {} && |woken'| == |woken| + 1
  {
    if asleep != {} {
      var t :| t in asleep && asleep' == asleep - {t} && woken' == woken + {t};
      Added(woken, t);
    }
  }

  /** Everything but the covering of sleepers. */
  ghost predicate Sound<T>(b: Bound, s: State<T>) {
    Placed(s) && (b.AtMost? ==> |s.queue| <= b.max) && s.put == s.taken + s.queue
  }

  /** A push may use up one woken putter. */
  lemma PushKeeps<T>(b: Bound, s: State<T>, x: T, s': State<T>)
    requires Sound(b, s) && TakersCovered(s) && !Full(b, s) && Push(s, x, s')
    requires s.asleepPut != {} ==> b.AtMost? && |s.wokenPut| + 1 + |s.queue| >= b.max
    ensures Inv(b, s')
  {
    NotifyCovers(s.asleepTake, s.wokenTake, s'.asleepTake, s'.wokenTake);
    assert s.put + [x] == s.taken + (s.queue + [x]);
  }

  /** A pop may use up one woken taker. */
  lemma PopKeeps<T>(b: Bound, s: State<T>, s': State<T>)
    requires Sound(b, s) && PuttersCovered(b, s) && Pop(s, s')
    requires s.asleepTake != {} ==> s.running && |s.wokenTake| + 1 >= |s.queue|
    ensures Inv(b, s')
  {
    NotifyCovers(s.asleepPut, s.wokenPut, s'.asleepPut, s'.wokenPut);
    assert s.taken + s.queue == (s.taken + [s.queue[0]]) + s.queue[1..];
  }

  lemma PutKeeps<T>(b: Bound, s: State<T>, t: Thread, x: T, s': State<T>)
    requires Inv(b, s) && Does(b, s, Put(t, x), s')
    ensures Inv(b, s')
  {
    if !Full(b, s) {
      PushKeeps(b, s.(item := s.item - {t}), x, s');
    } else {
      assert s.wokenPut - {t} == s.wokenPut;
      PutSleeps(b, s, t, x, s');
    }
  }

  /** A putter that finds the queue full leaves no free place uncovered. */
  lemma PutSleeps<T>(b: Bound, s: State<T>, t: Thread, x: T, s': State<T>)
    requires Inv(b, s) && Full(b, s) && t !in s.asleepTake && t !in s.wokenTake && t !in s.asleepPut
    requires s' == s.(wokenPut := s.wokenPut - {t}, asleepPut := s.asleepPut + {t}, item := s.item[t := x])
    ensures Inv(b, s')
  {
  }

  lemma PutAgainKeeps<T>(b: Bound, s: State<T>, t: Thread, s': State<T>)
    requires Inv(b, s) && Does(b, s, PutAgain(t), s')
    ensures Inv(b, s')
  {
    if !Full(b, s) {
      var base := s.(wokenPut := s.wokenPut - {t});
      Removed(s.wokenPut, t);
      PushKeeps(b, base.(item := base.item - {t}), s.item[t], s');
    } else {
      PutSleeps(b, s, t, s.item[t], s');
    }
  }

  lemma TakeKeeps<T>(b: Bound, s: State<T>, t: Thread, s': State<T>)
    requires Inv(b, s) && Does(b, s, Take(t), s')
    ensures Inv(b, s')
  {
    if s.queue != [] {
      PopKeeps(b, s, s');
    }
  }

  lemma TakeAgainKeeps<T>(b: Bound, s: State<T>, t: Thread, s': State<T>)
    requires Inv(b, s) && Does(b, s, TakeAgain(t), s')
    ensures Inv(b, s')
  {
    var base := s.(wokenTake := s.wokenTake - {t});
    Removed(s.wokenTake, t);
    if s.queue != [] {
      PopKeeps(b, base, s');
    }
  }

  lemma SpuriousKeeps<T>(b: Bound, s: State<T>, t: Thread, s': State<T>)
    requires Inv(b, s) && Does(b, s, Spurious(t), s')
    ensures Inv(b, s')
  {
    if t in s.asleepPut {
      PutterWakes(b, s, t);
    } else {
      TakerWakes(b, s, t);
    }
  }

  lemma PutterWakes<T>(b: Bound, s: State<T>, t: Thread)
    requires Inv(b, s) && t in s.asleepPut
    ensures Inv(b, s.(asleepPut := s.asleepPut - {t}, wokenPut := s.wokenPut + {t}))
  {
    Added(s.wokenPut, t);
  }

  lemma TakerWakes<T>(b: Bound, s: State<T>, t: Thread)
    requires Inv(b, s) && t in s.asleepTake
    ensures Inv(b, s.(asleepTake := s.asleepTake - {t}, wokenTake := s.wokenTake + {t}))
  {
    Added(s.wokenTake, t);
  }

  /** Every step of every thread keeps the invariant. */
  lemma StepKeeps<T>(b: Bound, s: State<T>, a: Step<T>, s': State<T>)
    requires Inv(b, s) && Does(b, s, a, s')
    ensures Inv(b, s')
  {
    match a
    case Put(t, x) => PutKeeps(b, s, t, x, s');
    case PutAgain(t) => PutAgainKeeps(b, s, t, s');
    case TryPut(t, x) =>
      if !Full(b, s) {
        PushKeeps(b, s, x, s');
      }
    case Take(t) => TakeKeeps(b, s, t, s');
    case TakeAgain(t) => TakeAgainKeeps(b, s, t, s');
    case Spurious(t) => SpuriousKeeps(b, s, t, s');
    case Stop =>
  }

  lemma {:induction false} RunKeeps<T>(b: Bound, r: seq<State<T>>, a: seq<Step<T>>, i: nat)
    requires Run(b, r, a) && i <= |a|
    ensures Inv(b, r[i])
  {
    if i > 0 {
      RunKeeps(b, r, a, i - 1);
      assert Does(b, r[i - 1], a[i - 1], r[i - 1 + 1]);
      StepKeeps(b, r[i - 1], a[i - 1], r[i]);
    }
  }

  // ----- what goes in and what comes out, told by the actions alone

  datatype Option<T> = None | Some(value: T)

  /** The item of the thread's latest put. */
  function LastPut<T>(a: seq<Step<T>>, t: Thread): Option<T> {
    if a == [] then None
    else
      var last := a[|a| - 1];
      if last.Put? && last.t == t then Some(last.x) else LastPut(a[..|a| - 1], t)
  }

  /** What a step hands to the queue when the queue has room: its own item, or that of the put it resumes. */
  function Offered<T>(before: seq<Step<T>>, step: Step<T>): seq<T> {
    match step
    case Put(_, x) => [x]
    case TryPut(_, x) => [x]
    case PutAgain(t) => var o := LastPut(before, t); if o.Some? then [o.value] else []
    case _ => []
  }

  /** The items that entered during the first i steps. */
  function Entered<T>(b: Bound, r: seq<State<T>>, a: seq<Step<T>>, i: nat): seq<T>
    requires i <= |a| <= |r|
  {
    if i == 0 then []
    else Entered(b, r, a, i - 1) + if Full(b, r[i - 1]) then [] else Offered(a[..i - 1], a[i - 1])
  }

  /** The items that the takes of the first i steps got: each the one at the front. */
  function Left<T>(r: seq<State<T>>, a: seq<Step<T>>, i: nat): seq<T>
    requires i <= |a| <= |r|
  {
    if i == 0 then []
    else if (a[i - 1].Take? || a[i - 1].TakeAgain?) && r[i - 1].queue != [] then Left(r, a, i - 1) + [r[i - 1].queue[0]]
    else Left(r, a, i - 1)
  }

  /** Every waiting put waits with the item it was called with. */
  ghost predicate Waiting<T>(s: State<T>, before: seq<Step<T>>) {
    forall t :: t in s.item ==> LastPut(before, t) == Some(s.item[t])
  }

  lemma WaitingStep<T>(b: Bound, s: State<T>, step: Step<T>, s': State<T>, before: seq<Step<T>>, after: seq<Step<T>>)
    requires Waiting(s, before) && Does(b, s, step, s') && after == before + [step]
    ensures Waiting(s', after)
  {
    assert after[..|after| - 1] == before;
  }

  lemma {:induction false} WaitingKept<T>(b: Bound, r: seq<State<T>>, a: seq<Step<T>>, i: nat)
    requires Run(b, r, a) && i <= |a|
    ensures Waiting(r[i], a[..i])
  {
    if i > 0 {
      WaitingKept(b, r, a, i - 1);
      assert Does(b, r[i - 1], a[i - 1], r[i - 1 + 1]);
      WaitingStep(b, r[i - 1], a[i - 1], r[i], a[..i - 1], a[..i]);
    }
  }

  lemma LogStep<T>(b: Bound, s: State<T>, step: Step<T>, s': State<T>, before: seq<Step<T>>)
    requires Waiting(s, before) && Does(b, s, step, s')
    ensures s'.put == s.put + if Full(b, s) then [] else Offered(before, step)
    ensures s'.taken == if (step.Take? || step.TakeAgain?) && s.queue != [] then s.taken + [s.queue[0]] else s.taken
  {
  }

  lemma LogsGrow<T>(b: Bound, r: seq<State<T>>, a: seq<Step<T>>, i: nat)
    requires Run(b, r, a) && 0 < i <= |a|
    ensures r[i].put == r[i - 1].put + if Full(b, r[i - 1]) then [] else Offered(a[..i - 1], a[i - 1])
    ensures r[i].taken == if (a[i - 1].Take? || a[i - 1].TakeAgain?) && r[i - 1].queue != []
                          then r[i - 1].taken + [r[i - 1].queue[0]] else r[i - 1].taken
  {
    WaitingKept(b, r, a, i - 1);
    assert Does(b, r[i - 1], a[i - 1], r[i - 1 + 1]);
    LogStep(b, r[i - 1], a[i - 1], r[i], a[..i - 1]);
  }

  /** The logs of puts and takes say what the actions say. */
  lemma {:induction false} LogsAre<T>(b: Bound, r: seq<State<T>>, a: seq<Step<T>>, i: nat)
    requires Run(b, r, a) && i <= |a|
    ensures r[i].put == Entered(b, r, a, i) && r[i].taken == Left(r, a, i)
  {
    if i > 0 {
      LogsAre(b, r, a, i - 1);
      LogsGrow(b, r, a, i);
    }
  }

  // ----- what follows for every run

  /** In every state of every run: bounded, first in first out, nothing lost, and no wakeup lost. */
  lemma SafeRun<T>(b: Bound, r: seq<State<T>>, a: seq<Step<T>>, i: nat)
    requires Run(b, r, a) && i <= |a|
    ensures var s := r[i];
            && (b.AtMost? ==> |s.queue| <= b.max)
            && s.put == s.taken + s.queue && s.taken <= s.put
            && s.put == Entered(b, r, a, i) && s.taken == Left(r, a, i)
            && (s.asleepTake != {} && s.wokenTake == {} ==> s.queue == [] && s.running)
            && (s.asleepPut != {} && s.wokenPut == {} ==> Full(b, s))
            && (!s.running ==> s.asleepTake == {})
  {
    RunKeeps(b, r, a, i);
    LogsAre(b, r, a, i);
  }

  /** Somebody waits to put, somebody waits to take, and nobody is awake to do either. */
  predicate Stuck<T>(s: State<T>) {
    s.asleepPut != {} && s.asleepTake != {} && s.wokenPut == {} && s.wokenTake == {}
  }

  /** A run of capacity zero in which a put and a take go to sleep for good. */
  lemma CapacityZeroSticks<T>(x: T)
    ensures exists r: seq<State<T>>, a: seq<Step<T>> :: Run(AtMost(0), r, a) && Stuck(r[|a|])
  {
    var s0 := State([], true, {}, {}, map[], {}, {}, [], []);
    var s1 := s0.(asleepPut := {1}, item := map[1 := x]);
    var s2 := s1.(asleepTake := {2});
    assert s0.asleepPut + {1} == {1} && s0.item[1 := x] == map[1 := x] && s1.asleepTake + {2} == {2};
    var r, a := [s0, s1, s2], [Put(1, x), Take(2)];
    assert Does(AtMost(0), s0, Put(1, x), s1) && Does(AtMost(0), s1, Take(2), s2);
    forall i | 0 <= i < |a|
      ensures Does(AtMost(0), r[i], a[i], r[i + 1])
    {
      assert i == 0 || i == 1;
    }
    assert Run(AtMost(0), r, a) && Stuck(r[|a|]);
  }

  /** Putters and takers can all be asleep exactly when the capacity is zero. */
  lemma StuckIffNoCapacity<T>(b: Bound, x: T)
    ensures (exists r: seq<State<T>>, a: seq<Step<T>> :: Run(b, r, a) && Stuck(r[|a|])) <==> b == AtMost(0)
  {
    if b == AtMost(0) {
      CapacityZeroSticks(x);
    } else {
      forall r: seq<State<T>>, a: seq<Step<T>> | Run(b, r, a)
        ensures !Stuck(r[|a|])
      {
        SafeRun(b, r, a, |a|);
      }
    }
  }
}
