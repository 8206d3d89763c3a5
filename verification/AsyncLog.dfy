/**
 The double-buffered log: producers append under the mutex, one consumer swaps the full buffers out,
 writes them and recycles two of them.  A step is one locked region or one local action of the consumer.
 */
module AsyncLog {
  import opened Sequences

  type Line = string

  /** A buffer's contents, line by line. */
  type Buffer = seq<Line>

  /** A buffer that its owner may have moved away. */
  datatype Slot = Null | Holds(lines: Buffer)

  /** Where the consumer is. */
  datatype Phase = Top | Waiting | Swapped | Writing(i: nat) | Exited

  /** A line that has left the producers' side and what becomes of it. */
  datatype Fate = Fate(line: Line, kept: bool)

  datatype State = State(
    current: Slot, next: Slot, buffers: seq<Buffer>, running: bool,
    phase: Phase, new1: Slot, new2: Slot, batch: seq<Buffer>,
    written: seq<Line>, past: seq<Fate>, appended: seq<Line>)

  function Size(b: Buffer): nat {
    if |b| == 0 then 0 else Size(b[..|b| - 1]) + |b[|b| - 1]|
  }

  function Flat(bs: seq<Buffer>): seq<Line> {
    if |bs| == 0 then [] else Flat(bs[..|bs| - 1]) + bs[|bs| - 1]
  }

  function Mark(lines: seq<Line>, kept: bool): (r: seq<Fate>)
    ensures |r| == |lines|
  {
    seq(|lines|, i requires 0 <= i < |lines| => Fate(lines[i], kept))
  }

  function Lines(past: seq<Fate>): (r: seq<Line>)
    ensures |r| == |past|
  {
    seq(|past|, i requires 0 <= i < |past| => past[i].line)
  }

  function Kept(past: seq<Fate>): seq<Line> {
    if |past| == 0 then []
    else
      var h, f := Kept(past[..|past| - 1]), past[|past| - 1];
      if f.kept then h + [f.line] else h
  }

  // ----- steps

  predicate Start(s: State) {
    s == State(Holds([]), Holds([]), [], true, Top, Holds([]), Holds([]), [], [], [], [])
  }

  /** FixedBuffer::append: takes the line only if more room than its length is left. */
  function Add(b: Buffer, line: Line, cap: nat): Buffer {
    if cap - Size(b) > |line| then b + [line] else b
  }

  /** append. */
  function Append(s: State, line: Line, cap: nat): State
    requires s.current.Holds?
  {
    var all := if |line| < cap then s.appended + [line] else s.appended;
    if cap - Size(s.current.lines) > |line| then
      s.(current := Holds(Add(s.current.lines, line, cap)), appended := all)
    else
      var spare := if s.next.Holds? then s.next.lines else [];
      s.(buffers := s.buffers + [s.current.lines], next := Null,
         current := Holds(Add(spare, line, cap)), appended := all)
  }

  /** The consumer's locked region after the wait. */
  function Swap(s: State): State
    requires s.current.Holds?
  {
    var all := s.buffers + [s.current.lines];
    var s1 := s.(buffers := [], batch := all, current := s.new1, new1 := Null, phase := Swapped,
                 past := s.past + Mark(Flat(all), true));
    if s.next.Null? then s1.(next := s.new2, new2 := Null) else s1
  }

  /** Too much piled up: all but the first two buffers go. */
  function Drop(s: State): State {
    if |s.batch| > 25 then
      var n := |Flat(s.batch)|;
      s.(batch := s.batch[..2], phase := Writing(0),
         past := if n <= |s.past| then
                   s.past[..|s.past| - n] + Mark(Flat(s.batch[..2]), true) + Mark(Flat(s.batch[2..]), false)
                 else s.past)
    else s.(phase := Writing(0))
  }

  function Write(s: State): State
    requires s.phase.Writing? && s.phase.i < |s.batch|
  {
    s.(written := s.written + s.batch[s.phase.i], phase := Writing(s.phase.i + 1))
  }

  /** Gives one buffer of the batch back, emptied, if the slot was used up. */
  function Refill(slot: Slot, batch: seq<Buffer>): (Slot, seq<Buffer>)
    requires slot.Null? ==> batch != []
  {
    if slot.Null? then (Holds([]), batch[..|batch| - 1]) else (slot, batch)
  }

  /** The asserts in the recycling part. */
  predicate CanRecycle(s: State) {
    && (s.new1.Null? ==> |s.batch| >= 1) && (s.new2.Null? ==> |s.batch| >= 1)
    && (s.new1.Null? && s.new2.Null? ==> |s.batch| >= 2)
  }

  function Recycle(s: State): State
    requires CanRecycle(s)
  {
    var b := if |s.batch| > 2 then s.batch[..2] else s.batch;
    var (n1, b1) := Refill(s.new1, b);
    var (n2, _) := Refill(s.new2, b1);
    s.(new1 := n1, new2 := n2, batch := [], phase := Top)
  }

  datatype Step = AppendLine(line: Line) | Check | Wake | DropExcess | WriteBuffer | RecycleBuffers | Stop | Exit

  ghost predicate Does(cap: nat, s: State, a: Step, s': State) {
    match a
    case AppendLine(line) => s.current.Holds? && s' == Append(s, line, cap)
    case Check =>
      s.phase.Top? && s.running
      && (if s.buffers == [] then s' == s.(phase := Waiting) else s.current.Holds? && s' == Swap(s))
    case Wake => s.phase.Waiting? && s.current.Holds? && s' == Swap(s)
    case DropExcess => s.phase.Swapped? && s' == Drop(s)
    case WriteBuffer => s.phase.Writing? && s.phase.i < |s.batch| && s' == Write(s)
    case RecycleBuffers => s.phase.Writing? && s.phase.i >= |s.batch| && CanRecycle(s) && s' == Recycle(s)
    case Stop => s' == s.(running := false)
    case Exit => s.phase.Top? && !s.running && s' == s.(phase := Exited)
  }

  ghost predicate Run(cap: nat, r: seq<State>, a: seq<Step>) {
    && |r| == |a| + 1 && Start(r[0])
    && forall i :: 0 <= i < |a| ==> Does(cap, r[i], a[i], r[i + 1])
  }

  // ----- the invariant

  /** The buffers of the current batch that are still to be written. */
  function Unwritten(s: State): seq<Buffer> {
    if s.phase.Writing? && s.phase.i <= |s.batch| then s.batch[s.phase.i..] else s.batch
  }

  /** The buffer slots: two spare buffers at the top, and enough in the batch to restore them later. */
  ghost predicate Slots(s: State) {
    && s.current.Holds? && (s.next.Holds? ==> s.next.lines == []) && (s.next.Null? ==> s.buffers != [])
    && (s.new1.Holds? ==> s.new1.lines == []) && (s.new2.Holds? ==> s.new2.lines == [])
    && match s.phase
       case Swapped => s.new1.Null? && |s.batch| >= 1 && (s.new2.Null? ==> |s.batch| >= 2)
       case Writing(i) =>
         s.new1.Null? && 1 <= |s.batch| <= 25 && (s.new2.Null? ==> |s.batch| >= 2) && i <= |s.batch|
       case _ => s.new1.Holds? && s.new2.Holds? && s.batch == []
  }

  /** Every accepted line is decided, queued or in the current buffer, in order. */
  ghost predicate Accounted(s: State) {
    && s.current.Holds?
    && s.appended == Lines(s.past) + Flat(s.buffers) + s.current.lines
    && Kept(s.past) == s.written + Flat(Unwritten(s))
    && (s.phase.Swapped? ==> exists p :: Undecided(s, p))
  }

  /** Right after the swap the batch is what p was extended by. */
  ghost predicate Undecided(s: State, p: seq<Fate>) {
    s.past == p + Mark(Flat(s.batch), true) && Kept(p) == s.written
  }

  ghost predicate Inv(s: State) {
    Slots(s) && Accounted(s)
  }

  // ----- lemmas on the sequences

  lemma {:induction false} FlatAppend(a: seq<Buffer>, b: seq<Buffer>)
    ensures Flat(a + b) == Flat(a) + Flat(b)
    decreases |b|
  {
    if |b| == 0 {
      assert a + b == a;
    } else {
      var k := |b| - 1;
      FlatAppend(a, b[..k]);
      assert (a + b)[..|a + b| - 1] == a + b[..k] && (a + b)[|a + b| - 1] == b[k];
      ConcatAssoc(Flat(a), Flat(b[..k]), b[k]);
    }
  }

  lemma FlatOne(b: Buffer)
    ensures Flat([b]) == b
  {
    assert [b][..0] == [];
  }

  lemma {:induction false} KeptAppend(a: seq<Fate>, b: seq<Fate>)
    ensures Kept(a + b) == Kept(a) + Kept(b)
    decreases |b|
  {
    if |b| == 0 {
      assert a + b == a;
    } else {
      var k := |b| - 1;
      assert (a + b)[..|a + b| - 1] == a + b[..k];
      KeptAppend(a, b[..k]);
    }
  }

  lemma {:induction false} KeptMark(lines: seq<Line>, kept: bool)
    ensures Kept(Mark(lines, kept)) == if kept then lines else []
    decreases |lines|
  {
    if |lines| > 0 {
      var k := |lines| - 1;
      assert Mark(lines, kept)[..k] == Mark(lines[..k], kept);
      KeptMark(lines[..k], kept);
      assert lines == lines[..k] + [lines[k]];
    }
  }

  lemma LinesAppend(a: seq<Fate>, b: seq<Fate>)
    ensures Lines(a + b) == Lines(a) + Lines(b)
  {
  }

  lemma LinesMark(lines: seq<Line>, kept: bool)
    ensures Lines(Mark(lines, kept)) == lines
  {
  }

  // ----- every step keeps the invariant

  lemma AppendSlots(s: State, line: Line, cap: nat)
    requires Slots(s)
    ensures Slots(Append(s, line, cap))
  {
  }

  /** Full buffer: it joins the queue and the line starts the next one, if it fits a buffer at all. */
  lemma PushAccounts(past: seq<Line>, buffers: seq<Buffer>, cur: Buffer, line: seq<Line>)
    ensures past + Flat(buffers) + cur + line == past + Flat(buffers + [cur]) + line
  {
    FlatAppend(buffers, [cur]);
    FlatOne(cur);
    ConcatAssoc(past, Flat(buffers), cur);
  }

  /** A line shorter than a buffer always gets in; a longer one never does, and nobody is told. */
  lemma AppendAccounts(s: State, line: Line, cap: nat)
    requires Inv(s)
    ensures var s' := Append(s, line, cap);
            && s'.appended == s.appended + (if |line| < cap then [line] else [])
            && s'.appended == Lines(s.past) + Flat(s'.buffers) + s'.current.lines
  {
    var more := if |line| < cap then [line] else [];
    assert s.appended + [] == s.appended;
    if cap - Size(s.current.lines) > |line| {
      ConcatAssoc(Lines(s.past) + Flat(s.buffers), s.current.lines, [line]);
    } else {
      PushAccounts(Lines(s.past), s.buffers, s.current.lines, more);
      assert Size([]) == 0;
      assert [] + [line] == [line];
    }
  }

  lemma AppendKeeps(s: State, line: Line, cap: nat)
    requires Inv(s)
    ensures Inv(Append(s, line, cap))
    ensures Append(s, line, cap).appended == s.appended + if |line| < cap then [line] else []
  {
    AppendSlots(s, line, cap);
    AppendAccounts(s, line, cap);
    if s.phase.Swapped? {
      var p :| Undecided(s, p);
      assert Undecided(Append(s, line, cap), p);
    }
  }

  lemma SwapSlots(s: State)
    requires Slots(s) && (s.phase.Top? || s.phase.Waiting?)
    ensures Slots(Swap(s))
  {
  }

  /** The new state field by field. */
  lemma SwapFields(s: State)
    requires Slots(s) && (s.phase.Top? || s.phase.Waiting?)
    ensures var s', all := Swap(s), s.buffers + [s.current.lines];
            && s'.past == s.past + Mark(Flat(all), true) && s'.batch == all && s'.phase == Swapped
            && s'.current == Holds([]) && s'.buffers == [] && s'.written == s.written && s'.appended == s.appended
  {
  }

  lemma AllWritten(s: State)
    requires Inv(s) && (s.phase.Top? || s.phase.Waiting?)
    ensures Kept(s.past) == s.written
  {
    assert s.written + Flat([]) == s.written;
  }

  lemma SwapKeeps(s: State)
    requires Inv(s) && (s.phase.Top? || s.phase.Waiting?)
    ensures Inv(Swap(s)) && Swap(s).appended == s.appended
  {
    var s' := Swap(s);
    SwapSlots(s);
    SwapFields(s);
    AllWritten(s);
    SwapAccounts(s.past, s.buffers, s.current.lines);
    assert Undecided(s', s.past);
    assert Accounted(s');
  }

  /** Moving the queue and the current buffer into the batch moves their lines behind the decided ones. */
  lemma SwapAccounts(past: seq<Fate>, buffers: seq<Buffer>, cur: Buffer)
    ensures var all := Flat(buffers + [cur]); var p := past + Mark(all, true);
            Lines(past) + Flat(buffers) + cur == Lines(p) + Flat([]) + [] && Kept(p) == Kept(past) + all
  {
    FlatAppend(buffers, [cur]);
    FlatOne(cur);
    var all := Flat(buffers + [cur]);
    LinesAppend(past, Mark(all, true));
    LinesMark(all, true);
    ConcatAssoc(Lines(past), Flat(buffers), cur);
    KeptAppend(past, Mark(all, true));
    KeptMark(all, true);
  }

  /** What a drop does to the decided lines: the first two buffers stay, the lines of the others are lost. */
  lemma DropDecides(p: seq<Fate>, batch: seq<Buffer>, past: seq<Fate>)
    requires past == p + Mark(Flat(batch), true) && |batch| > 25
    ensures |Flat(batch)| <= |past| && past[..|past| - |Flat(batch)|] == p
    ensures Lines(p + Mark(Flat(batch[..2]), true) + Mark(Flat(batch[2..]), false)) == Lines(past)
    ensures Kept(p + Mark(Flat(batch[..2]), true) + Mark(Flat(batch[2..]), false)) == Kept(p) + Flat(batch[..2])
  {
    var a, b := Flat(batch[..2]), Flat(batch[2..]);
    assert batch == batch[..2] + batch[2..];
    FlatAppend(batch[..2], batch[2..]);
    LinesAppend(p, Mark(Flat(batch), true));
    LinesMark(Flat(batch), true);
    LinesAppend(p, Mark(a, true));
    LinesMark(a, true);
    LinesAppend(p + Mark(a, true), Mark(b, false));
    LinesMark(b, false);
    ConcatAssoc(Lines(p), a, b);
    KeptAppend(p, Mark(a, true));
    KeptMark(a, true);
    KeptAppend(p + Mark(a, true), Mark(b, false));
    KeptMark(b, false);
  }

  lemma DropKeeps(s: State)
    requires Inv(s) && s.phase.Swapped?
    ensures Inv(Drop(s)) && Drop(s).appended == s.appended
    ensures |s.batch| <= 25 ==> Drop(s).past == s.past
  {
    var p :| Undecided(s, p);
    var s' := Drop(s);
    assert s'.batch[0..] == s'.batch;
    if |s.batch| > 25 {
      DropDecides(p, s.batch, s.past);
    }
  }

  lemma WriteKeeps(s: State)
    requires Inv(s) && s.phase.Writing? && s.phase.i < |s.batch|
    ensures Inv(Write(s)) && Write(s).appended == s.appended
  {
    var i := s.phase.i;
    FirstUnwritten(s.batch, i, s.written);
    assert Unwritten(Write(s)) == s.batch[i + 1..];
  }

  lemma FirstUnwritten(batch: seq<Buffer>, i: nat, written: seq<Line>)
    requires i < |batch|
    ensures written + Flat(batch[i..]) == (written + batch[i]) + Flat(batch[i + 1..])
  {
    assert batch[i..] == [batch[i]] + batch[i + 1..];
    FlatAppend([batch[i]], batch[i + 1..]);
    FlatOne(batch[i]);
    ConcatAssoc(written, batch[i], Flat(batch[i + 1..]));
  }

  /** The asserts of the recycling part never fail. */
  lemma RecycleKeeps(s: State)
    requires Inv(s) && s.phase.Writing? && s.phase.i >= |s.batch|
    ensures CanRecycle(s) && Inv(Recycle(s)) && Recycle(s).appended == s.appended
  {
    assert s.batch[s.phase.i..] == [];
  }

  lemma StepKeeps(cap: nat, s: State, a: Step, s': State)
    requires Inv(s) && Does(cap, s, a, s')
    ensures Inv(s')
  {
    match a
    case AppendLine(line) => AppendKeeps(s, line, cap);
    case Check =>
      if s.buffers != [] {
        SwapKeeps(s);
      }
    case Wake => SwapKeeps(s);
    case DropExcess => DropKeeps(s);
    case WriteBuffer => WriteKeeps(s);
    case RecycleBuffers => RecycleKeeps(s);
    case Stop => SamePipeline(s, s');
    case Exit =>
  }

  lemma SamePipeline(s: State, s': State)
    requires Inv(s) && s' == s.(running := s'.running)
    ensures Inv(s')
  {
    if s.phase.Swapped? {
      var p :| Undecided(s, p);
      assert Undecided(s', p);
    }
  }

  lemma {:induction false} RunKeeps(cap: nat, r: seq<State>, a: seq<Step>, i: nat)
    requires Run(cap, r, a) && i <= |a|
    ensures Inv(r[i])
  {
    if i == 0 {
      assert Lines([]) + Flat([]) + [] == [];
    } else {
      RunKeeps(cap, r, a, i - 1);
      assert Does(cap, r[i - 1], a[i - 1], r[i - 1 + 1]);
      StepKeeps(cap, r[i - 1], a[i - 1], r[i]);
    }
  }

  /**
   Decided lines keep their fate, except that cutting a batch of more than 25 buffers turns exactly the
   lines of its buffers after the first two from kept to lost.
   */
  lemma OnlyDropLoses(cap: nat, s: State, a: Step, s': State)
    requires Inv(s) && Does(cap, s, a, s')
    ensures !(a.DropExcess? && |s.batch| > 25) ==> s.past <= s'.past
    ensures a.DropExcess? && |s.batch| > 25 ==>
              exists p :: s.past == p + Mark(Flat(s.batch), true)
                && s'.past == p + Mark(Flat(s.batch[..2]), true) + Mark(Flat(s.batch[2..]), false)
  {
    if a.DropExcess? && |s.batch| > 25 {
      var p :| Undecided(s, p);
      DropDecides(p, s.batch, s.past);
    }
  }

  // ----- what follows for every run

  /** The asserts at the top of the loop, after the swap and while recycling hold in every state of every run. */
  lemma AssertsHold(cap: nat, r: seq<State>, a: seq<Step>, i: nat)
    requires Run(cap, r, a) && i <= |a|
    ensures var s := r[i];
            && (s.phase.Top? ==> s.new1 == Holds([]) && s.new2 == Holds([]) && s.batch == [])
            && (s.phase.Swapped? ==> s.batch != [])
            && (s.phase.Writing? ==> CanRecycle(s))
            && (s.next.Null? ==> s.buffers != []) && s.current.Holds?
  {
    RunKeeps(cap, r, a, i);
  }

  /** No batch of the run so far was cut. */
  ghost predicate NothingDropped(r: seq<State>, a: seq<Step>, i: nat)
    requires |r| == |a| + 1 && i <= |a|
  {
    forall k :: 0 <= k < i && a[k].DropExcess? ==> |r[k].batch| <= 25
  }

  lemma KeptGrows(cap: nat, r: seq<State>, a: seq<Step>, i: nat)
    requires Run(cap, r, a) && i < |a| && (a[i].DropExcess? ==> |r[i].batch| <= 25)
    requires Kept(r[i].past) == Lines(r[i].past)
    ensures Kept(r[i + 1].past) == Lines(r[i + 1].past)
  {
    RunKeeps(cap, r, a, i);
    KeptStep(cap, r[i], a[i], r[i + 1]);
  }

  lemma {:induction false} AllKept(cap: nat, r: seq<State>, a: seq<Step>, i: nat)
    requires Run(cap, r, a) && i <= |a| && NothingDropped(r, a, i)
    ensures Kept(r[i].past) == Lines(r[i].past)
  {
    if i > 0 {
      AllKept(cap, r, a, i - 1);
      KeptGrows(cap, r, a, i - 1);
    }
  }

  lemma KeptStep(cap: nat, s: State, a: Step, s': State)
    requires Inv(s) && Does(cap, s, a, s') && (a.DropExcess? ==> |s.batch| <= 25) && Kept(s.past) == Lines(s.past)
    ensures Kept(s'.past) == Lines(s'.past)
  {
    if (a.Check? && s.buffers != []) || a.Wake? {
      var more := Flat(s.buffers + [s.current.lines]);
      SwapAccounts(s.past, s.buffers, s.current.lines);
      LinesAppend(s.past, Mark(more, true));
      LinesMark(more, true);
    }
  }

  /**
   As long as no batch exceeds 25 buffers, written, batch, queue and current buffer are the appended lines
   in order.
   */
  lemma NothingLost(cap: nat, r: seq<State>, a: seq<Step>, i: nat)
    requires Run(cap, r, a) && i <= |a| && NothingDropped(r, a, i)
    ensures var s := r[i];
            s.current.Holds? && s.written + Flat(Unwritten(s)) + Flat(s.buffers) + s.current.lines == s.appended
  {
    RunKeeps(cap, r, a, i);
    AllKept(cap, r, a, i);
  }

  /** The lines that were given up. */
  function Lost(past: seq<Fate>): seq<Line> {
    if |past| == 0 then []
    else
      var h, f := Lost(past[..|past| - 1]), past[|past| - 1];
      if f.kept then h else h + [f.line]
  }

  lemma {:induction false} LostAppend(a: seq<Fate>, b: seq<Fate>)
    ensures Lost(a + b) == Lost(a) + Lost(b)
    decreases |b|
  {
    if |b| == 0 {
      assert a + b == a;
    } else {
      var k := |b| - 1;
      assert (a + b)[..|a + b| - 1] == a + b[..k];
      LostAppend(a, b[..k]);
    }
  }

  lemma {:induction false} LostMark(lines: seq<Line>, kept: bool)
    ensures Lost(Mark(lines, kept)) == if kept then [] else lines
    decreases |lines|
  {
    if |lines| > 0 {
      var k := |lines| - 1;
      assert Mark(lines, kept)[..k] == Mark(lines[..k], kept);
      LostMark(lines[..k], kept);
      assert lines == lines[..k] + [lines[k]];
    }
  }

  /** What one step throws away: the lines of all buffers but the first two of a batch of more than 25. */
  function Cut(s: State, a: Step): seq<Line> {
    if a.DropExcess? && |s.batch| > 25 then Flat(s.batch[2..]) else []
  }

  /** What the first i steps of a run throw away, in order. */
  function CutIn(r: seq<State>, a: seq<Step>, i: nat): seq<Line>
    requires i <= |a| <= |r|
  {
    if i == 0 then [] else CutIn(r, a, i - 1) + Cut(r[i - 1], a[i - 1])
  }

  lemma LostStep(cap: nat, s: State, a: Step, s': State)
    requires Inv(s) && Does(cap, s, a, s')
    ensures Lost(s'.past) == Lost(s.past) + Cut(s, a)
  {
    if a.DropExcess? && |s.batch| > 25 {
      LostDrop(s);
    } else if (a.Check? && s.buffers != []) || a.Wake? {
      var more := Flat(s.buffers + [s.current.lines]);
      LostAppend(s.past, Mark(more, true));
      LostMark(more, true);
    }
  }

  lemma LostDrop(s: State)
    requires Inv(s) && s.phase.Swapped? && |s.batch| > 25
    ensures Lost(Drop(s).past) == Lost(s.past) + Flat(s.batch[2..])
  {
    var p :| Undecided(s, p);
    DropDecides(p, s.batch, s.past);
    LostTail(p, Flat(s.batch), Flat(s.batch[..2]), Flat(s.batch[2..]));
  }

  /** Marking lines as kept loses nothing; marking b as lost loses b. */
  lemma LostTail(p: seq<Fate>, whole: seq<Line>, a: seq<Line>, b: seq<Line>)
    ensures Lost(p + Mark(whole, true)) == Lost(p)
    ensures Lost(p + Mark(a, true) + Mark(b, false)) == Lost(p) + b
  {
    LostAppend(p, Mark(whole, true));
    LostMark(whole, true);
    LostAppend(p, Mark(a, true));
    LostMark(a, true);
    LostAppend(p + Mark(a, true), Mark(b, false));
    LostMark(b, false);
  }

  lemma LostGrows(cap: nat, r: seq<State>, a: seq<Step>, i: nat)
    requires Run(cap, r, a) && 0 < i <= |a|
    ensures Lost(r[i].past) == Lost(r[i - 1].past) + Cut(r[i - 1], a[i - 1])
  {
    RunKeeps(cap, r, a, i - 1);
    assert Does(cap, r[i - 1], a[i - 1], r[i - 1 + 1]);
    LostStep(cap, r[i - 1], a[i - 1], r[i]);
  }

  /** The lines given up in a run are those of the buffers cut off by its steps, and no others. */
  lemma {:induction false} LostIsCut(cap: nat, r: seq<State>, a: seq<Step>, i: nat)
    requires Run(cap, r, a) && i <= |a|
    ensures Lost(r[i].past) == CutIn(r, a, i)
  {
    if i > 0 {
      LostIsCut(cap, r, a, i - 1);
      LostGrows(cap, r, a, i);
    }
  }

  /** The lines a run has accepted so far: those given to append that are shorter than a buffer. */
  function Accepted(cap: nat, a: seq<Step>, i: nat): seq<Line>
    requires i <= |a|
  {
    if i == 0 then []
    else if a[i - 1].AppendLine? && |a[i - 1].line| < cap then Accepted(cap, a, i - 1) + [a[i - 1].line]
    else Accepted(cap, a, i - 1)
  }

  lemma AcceptStep(cap: nat, s: State, a: Step, s': State)
    requires Does(cap, s, a, s')
    ensures s'.appended == if a.AppendLine? && |a.line| < cap then s.appended + [a.line] else s.appended
  {
  }

  lemma AppendedGrows(cap: nat, r: seq<State>, a: seq<Step>, i: nat)
    requires Run(cap, r, a) && i < |a|
    ensures r[i + 1].appended ==
            if a[i].AppendLine? && |a[i].line| < cap then r[i].appended + [a[i].line] else r[i].appended
  {
    AcceptStep(cap, r[i], a[i], r[i + 1]);
  }

  lemma {:induction false} AppendedIsAccepted(cap: nat, r: seq<State>, a: seq<Step>, i: nat)
    requires Run(cap, r, a) && i <= |a|
    ensures r[i].appended == Accepted(cap, a, i)
  {
    if i > 0 {
      AppendedIsAccepted(cap, r, a, i - 1);
      AppendedGrows(cap, r, a, i - 1);
    }
  }

  /**
   Every run at every moment: the lines accepted so far are the decided ones, the queue and the current
   buffer, in order; the decided lines that are kept are written or about to be, in order; and those that
   are lost are exactly the lines of the buffers that were cut off.
   */
  lemma RunAccounts(cap: nat, r: seq<State>, a: seq<Step>, i: nat)
    requires Run(cap, r, a) && i <= |a|
    ensures var s := r[i];
            && s.current.Holds?
            && Accepted(cap, a, i) == Lines(s.past) + Flat(s.buffers) + s.current.lines
            && Kept(s.past) == s.written + Flat(Unwritten(s))
            && Lost(s.past) == CutIn(r, a, i)
  {
    RunKeeps(cap, r, a, i);
    LostIsCut(cap, r, a, i);
    AppendedIsAccepted(cap, r, a, i);
  }

  /** In particular the written lines are a prefix of the kept ones. */
  lemma WrittenInOrder(cap: nat, r: seq<State>, a: seq<Step>, i: nat)
    requires Run(cap, r, a) && i <= |a|
    ensures var s := r[i]; s.written <= Kept(s.past) && Lines(s.past) <= s.appended
  {
    RunKeeps(cap, r, a, i);
  }
}
