/** The poll loop of `main`: while the queue has not ended, run the cursor's
    task once; when it may not continue, pop it and hand its content and error
    to its callback; then move the cursor on. The loop is given fuel so that
    it is a total function; the fuel `Main` supplies is always enough.

    The loop calls `Run` through the `Node` interface, so it is stated for
    any `Runner`; `Main` instantiates it with the file readers of `FileTask`. */
module Scheduler {
  import opened Basics
  import opened RingQueue
  import opened Ring
  import opened FileTask

  /** One call of a node's callback with the content and error it receives. */
  datatype Completion = Completion(node: Id, content: seq<byte>, err: Option<IoError>)

  /** The queue, every node's task, and the callbacks delivered so far. */
  datatype World = World(s: State, tasks: map<Id, Task>, log: seq<Completion>)

  /** How the loop ends: the queue ran out; the process panicked; `Pop`
      reported an error and the process exited; or the fuel ran out. */
  datatype Outcome = Finished(w: World) | Crashed | Exited(w: World) | OutOfFuel

  /** What a node does when the loop calls its `Run`, and a bound on the
      calls a task can still take before it stops continuing. */
  datatype Runner = Runner(run: Task -> Task, bound: Task -> nat)

  /** The bound counts the call about to be made, so it is positive, and
      every call after which a task may continue lowers it. */
  ghost predicate Terminates(b: Runner) {
    forall t :: 0 < b.bound(t) && (IsContinue(b.run(t)) ==> b.bound(b.run(t)) < b.bound(t))
  }

  /** The task as it stands once `Run` has been called until it may not
      continue. */
  function RunToEnd(b: Runner, t: Task): (r: Task)
    requires Terminates(b)
    ensures !IsContinue(r)
    decreases b.bound(t)
  {
    var next := b.run(t);
    if IsContinue(next) then RunToEnd(b, next) else next
  }

  /** The reader tasks of `main` against a file system. */
  function Readers(fs: FileSystem): Runner {
    Runner(t => RunOn(fs, t), t => Remaining(fs, t))
  }

  /** The readers stop, and running one until it stops is `Finish`. */
  lemma {:induction false} ReadersFinish(fs: FileSystem, t: Task)
    ensures Terminates(Readers(fs)) && RunToEnd(Readers(fs), t) == Finish(fs, t)
    decreases Remaining(fs, t)
  {
    var b := Readers(fs);
    forall u ensures 0 < b.bound(u) && (IsContinue(b.run(u)) ==> b.bound(b.run(u)) < b.bound(u)) {
      assert b.run(u) == RunOn(fs, u);
    }
    var next := RunOn(fs, t);
    assert b.run(t) == next;
    if IsContinue(next) {
      ReadersFinish(fs, next);
    }
  }

  /** The task of a node; a node never given one is as `nodeNew` built it. */
  function TaskOf(tasks: map<Id, Task>, n: Id): Task {
    if n in tasks then tasks[n] else NewTask("")
  }

  function Nodes(log: seq<Completion>): (r: seq<Id>)
    ensures |r| == |log| && forall j :: 0 <= j < |log| ==> r[j] == log[j].node
  {
    seq(|log|, j requires 0 <= j < |log| => log[j].node)
  }

  /** The poll loop, one iteration per unit of fuel. It stops only when the
      queue has ended, and callbacks are only ever added to the log. */
  function Drive(b: Runner, w: World, fuel: nat): (r: Outcome)
    ensures r.Finished? ==> IsEnd(r.w.s)
    ensures r.Finished? || r.Exited? ==> |w.log| <= |r.w.log| && r.w.log[..|w.log|] == w.log
    decreases fuel
  {
    if IsEnd(w.s) then Finished(w)
    else if fuel == 0 then OutOfFuel
    else
      var c := w.s.q.current.value;
      var t := b.run(TaskOf(w.tasks, c));
      var tasks := w.tasks[c := t];
      if IsContinue(t) then
        Drive(b, World(Next(w.s), tasks, w.log), fuel - 1)
      else
        match Pop(w.s)
        case Panic => Crashed
        case Ok(popped) =>
          if popped.err.Some? then Exited(World(popped.after, tasks, w.log))
          else if popped.node.None? then Crashed
          else
            var done := TaskOf(tasks, popped.node.value);
            var log := w.log + [Completion(popped.node.value, done.content, done.err)];
            Drive(b, World(Next(popped.after), tasks, log), fuel - 1)
  }

  /** The calls the members of `cyc` can still take, all together. */
  function Measure(b: Runner, tasks: map<Id, Task>, cyc: seq<Id>): nat {
    if |cyc| == 0 then 0 else b.bound(TaskOf(tasks, cyc[0])) + Measure(b, tasks, cyc[1..])
  }

  lemma {:induction false} MeasureAppend(b: Runner, tasks: map<Id, Task>, cyc: seq<Id>, x: Id)
    ensures Measure(b, tasks, cyc + [x]) == Measure(b, tasks, cyc) + b.bound(TaskOf(tasks, x))
  {
    if |cyc| > 0 {
      assert (cyc + [x])[1..] == cyc[1..] + [x];
      MeasureAppend(b, tasks, cyc[1..], x);
    } else {
      assert (cyc + [x])[1..] == [];
    }
  }

  lemma {:induction false} MeasureFrame(b: Runner, tasks: map<Id, Task>, cyc: seq<Id>, x: Id, t: Task)
    requires x !in cyc
    ensures Measure(b, tasks[x := t], cyc) == Measure(b, tasks, cyc)
  {
    if |cyc| > 0 {
      assert cyc[0] != x;
      MeasureFrame(b, tasks, cyc[1..], x, t);
    }
  }

  /** Every member of `cyc` is on its way to its end in `ends`. */
  predicate OnTrack(b: Runner, ends: map<Id, Task>, tasks: map<Id, Task>, cyc: seq<Id>)
    requires Terminates(b)
  {
    |cyc| == 0 || (RunToEnd(b, TaskOf(tasks, cyc[0])) == TaskOf(ends, cyc[0]) && OnTrack(b, ends, tasks, cyc[1..]))
  }

  lemma {:induction false} OnTrackAll(b: Runner, ends: map<Id, Task>, tasks: map<Id, Task>, cyc: seq<Id>)
    requires Terminates(b)
    ensures OnTrack(b, ends, tasks, cyc) <==> forall x :: x in cyc ==> RunToEnd(b, TaskOf(tasks, x)) == TaskOf(ends, x)
  {
    if |cyc| > 0 {
      OnTrackAll(b, ends, tasks, cyc[1..]);
      assert forall x :: x in cyc <==> x == cyc[0] || x in cyc[1..];
    }
  }

  lemma {:induction false} OnTrackFrame(b: Runner, ends: map<Id, Task>, tasks: map<Id, Task>, cyc: seq<Id>, x: Id, t: Task)
    requires Terminates(b)
    requires x !in cyc
    ensures OnTrack(b, ends, tasks[x := t], cyc) == OnTrack(b, ends, tasks, cyc)
  {
    if |cyc| > 0 {
      assert cyc[0] != x;
      OnTrackFrame(b, ends, tasks, cyc[1..], x, t);
    }
  }

  lemma {:induction false} OnTrackAppend(b: Runner, ends: map<Id, Task>, tasks: map<Id, Task>, cyc: seq<Id>, x: Id)
    requires Terminates(b)
    requires OnTrack(b, ends, tasks, cyc)
    requires RunToEnd(b, TaskOf(tasks, x)) == TaskOf(ends, x)
    ensures OnTrack(b, ends, tasks, cyc + [x])
  {
    if |cyc| > 0 {
      assert (cyc + [x])[1..] == cyc[1..] + [x];
      OnTrackAppend(b, ends, tasks, cyc[1..], x);
    } else {
      assert (cyc + [x])[1..] == [];
    }
  }

  /** The queue's members are `cyc`, listed from the cursor: a cycle, or the
      lone unlinked member a single push leaves. */
  predicate Live(s: State, cyc: seq<Id>) {
    && Distinct(cyc)
    && s.q.length == |cyc|
    && (|cyc| >= 1 ==>
          && s.q.current == Some(cyc[0])
          && (|| IsRing(s.links, cyc)
              || (|cyc| == 1 && s.q.head == Some(cyc[0]) && LinkOf(s.links, cyc[0]) == Unlinked)))
  }

  /** The loop's stop test holds exactly when no member is left. */
  lemma IsEndIffDrained(s: State, cyc: seq<Id>)
    requires Live(s, cyc)
    ensures IsEnd(s) <==> |cyc| == 0
  {
  }

  /** A callback received the end its node's task was heading for. */
  predicate Delivered(ends: map<Id, Task>, e: Completion) {
    e.content == TaskOf(ends, e.node).content && e.err == TaskOf(ends, e.node).err
  }

  /** The loop invariant: the members still queued are `cyc`, each on the
      way to its end in `ends`; every callback so far delivered its node's
      end; and queued plus delivered nodes are `all`. */
  predicate Inv(b: Runner, ends: map<Id, Task>, all: seq<Id>, w: World, cyc: seq<Id>)
    requires Terminates(b)
  {
    && Live(w.s, cyc)
    && OnTrack(b, ends, w.tasks, cyc)
    && (forall j :: 0 <= j < |w.log| ==> Delivered(ends, w.log[j]))
    && multiset(Nodes(w.log)) + multiset(cyc) == multiset(all)
  }

  /** Moving the cursor of a live queue rotates its listing by one. */
  lemma NextLive(s: State, cyc: seq<Id>)
    requires Live(s, cyc) && |cyc| >= 1
    ensures Live(Next(s), cyc[1..] + [cyc[0]])
  {
    var cyc' := cyc[1..] + [cyc[0]];
    if IsRing(s.links, cyc) {
      NextRotates(s, cyc);
      RotateRing(s.links, cyc);
    } else {
      assert cyc' == cyc;
    }
  }

  /** Running the cursor's task once, when it may continue, keeps every
      member on track, now listed from the next one, and lowers the work. */
  lemma KeepTasks(b: Runner, ends: map<Id, Task>, tasks: map<Id, Task>, cyc: seq<Id>)
    requires Terminates(b)
    requires Distinct(cyc) && |cyc| >= 1
    requires OnTrack(b, ends, tasks, cyc)
    requires IsContinue(b.run(TaskOf(tasks, cyc[0])))
    ensures var tasks' := tasks[cyc[0] := b.run(TaskOf(tasks, cyc[0]))];
            && OnTrack(b, ends, tasks', cyc[1..] + [cyc[0]])
            && Measure(b, tasks', cyc[1..] + [cyc[0]]) < Measure(b, tasks, cyc)
  {
    var c := cyc[0];
    var t0 := TaskOf(tasks, c);
    var t := b.run(t0);
    var tasks' := tasks[c := t];
    assert c !in cyc[1..];
    assert RunToEnd(b, t0) == RunToEnd(b, t);
    OnTrackFrame(b, ends, tasks, cyc[1..], c, t);
    OnTrackAppend(b, ends, tasks', cyc[1..], c);
    MeasureFrame(b, tasks, cyc[1..], c, t);
    MeasureAppend(b, tasks', cyc[1..], c);
  }

  lemma RotateSameMembers(cyc: seq<Id>)
    requires |cyc| >= 1
    ensures multiset(cyc[1..] + [cyc[0]]) == multiset(cyc)
  {
    assert cyc == [cyc[0]] + cyc[1..];
  }

  /** One iteration in which the cursor's task may continue: the invariant
      holds with the cursor one member on, and the remaining work shrinks. */
  lemma KeepStep(b: Runner, ends: map<Id, Task>, all: seq<Id>, w: World, cyc: seq<Id>)
    requires Terminates(b)
    requires Inv(b, ends, all, w, cyc) && |cyc| >= 1
    requires IsContinue(b.run(TaskOf(w.tasks, cyc[0])))
    ensures var c := cyc[0];
            var w' := World(Next(w.s), w.tasks[c := b.run(TaskOf(w.tasks, c))], w.log);
            && Inv(b, ends, all, w', cyc[1..] + [c])
            && Measure(b, w'.tasks, cyc[1..] + [c]) < Measure(b, w.tasks, cyc)
  {
    NextLive(w.s, cyc);
    KeepTasks(b, ends, w.tasks, cyc);
    RotateSameMembers(cyc);
  }

  /** Popping the cursor of a live queue succeeds, returns the first listed
      member, and after `Next` the rest are live with the following member
      as cursor. */
  lemma PopLive(s: State, cyc: seq<Id>) returns (after: State)
    requires Live(s, cyc) && |cyc| >= 1
    ensures Pop(s) == Ok(Popped(Some(cyc[0]), None, after))
    ensures Live(Next(after), cyc[1..])
  {
    var rest := cyc[1..];
    if IsRing(s.links, cyc) {
      PopFromRing(s, cyc);
      after := Pop(s).value.after;
      if |cyc| >= 2 {
        assert Joined(after.links, rest[|rest| - 1], rest[0]);
      }
    } else {
      assert SoleMember(s) == Ok(true);
      after := Pop(s).value.after;
    }
  }

  /** Finishing the cursor's task leaves the other members on track, and
      their work is less than before. */
  lemma DoneLeavesRest(b: Runner, ends: map<Id, Task>, tasks: map<Id, Task>, cyc: seq<Id>)
    requires Terminates(b)
    requires Distinct(cyc) && |cyc| >= 1
    requires OnTrack(b, ends, tasks, cyc)
    ensures var tasks' := tasks[cyc[0] := b.run(TaskOf(tasks, cyc[0]))];
            && OnTrack(b, ends, tasks', cyc[1..])
            && Measure(b, tasks', cyc[1..]) < Measure(b, tasks, cyc)
  {
    var c := cyc[0];
    var t := b.run(TaskOf(tasks, c));
    assert c !in cyc[1..];
    OnTrackFrame(b, ends, tasks, cyc[1..], c, t);
    MeasureFrame(b, tasks, cyc[1..], c, t);
  }

  /** The callback of a finished cursor task delivers that task's end, and
      the node moves from the queued members to the delivered ones. */
  lemma DoneLogs(b: Runner, ends: map<Id, Task>, all: seq<Id>, w: World, cyc: seq<Id>)
    requires Terminates(b)
    requires Inv(b, ends, all, w, cyc) && |cyc| >= 1
    requires !IsContinue(b.run(TaskOf(w.tasks, cyc[0])))
    ensures var c := cyc[0];
            var t := b.run(TaskOf(w.tasks, c));
            var log := w.log + [Completion(c, t.content, t.err)];
            && (forall j :: 0 <= j < |log| ==> Delivered(ends, log[j]))
            && multiset(Nodes(log)) + multiset(cyc[1..]) == multiset(all)
  {
    var c := cyc[0];
    var t0 := TaskOf(w.tasks, c);
    var t := b.run(t0);
    var log := w.log + [Completion(c, t.content, t.err)];
    assert RunToEnd(b, t0) == t;
    assert Delivered(ends, log[|log| - 1]);
    assert Nodes(log) == Nodes(w.log) + [c];
    assert cyc == [c] + cyc[1..];
  }

  /** One iteration in which the cursor's task has finished: after the pop
      and the callback the invariant holds for the remaining members, and
      their remaining work is less than before. */
  lemma DoneStep(b: Runner, ends: map<Id, Task>, all: seq<Id>, w: World, cyc: seq<Id>, after: State)
    requires Terminates(b)
    requires Inv(b, ends, all, w, cyc) && |cyc| >= 1
    requires !IsContinue(b.run(TaskOf(w.tasks, cyc[0])))
    requires Live(Next(after), cyc[1..])
    ensures var c := cyc[0];
            var t := b.run(TaskOf(w.tasks, c));
            var w' := World(Next(after), w.tasks[c := t], w.log + [Completion(c, t.content, t.err)]);
            && Inv(b, ends, all, w', cyc[1..])
            && Measure(b, w'.tasks, cyc[1..]) < Measure(b, w.tasks, cyc)
  {
    DoneLeavesRest(b, ends, w.tasks, cyc);
    DoneLogs(b, ends, all, w, cyc);
  }

  /** An iteration whose task may continue is followed by the loop on the
      moved cursor. */
  lemma DriveKeeps(b: Runner, w: World, fuel: nat)
    requires !IsEnd(w.s) && fuel > 0
    requires IsContinue(b.run(TaskOf(w.tasks, w.s.q.current.value)))
    ensures var c := w.s.q.current.value;
            Drive(b, w, fuel)
              == Drive(b, World(Next(w.s), w.tasks[c := b.run(TaskOf(w.tasks, c))], w.log), fuel - 1)
  {
  }

  /** An iteration whose task has finished and whose pop succeeds is
      followed by the loop on the popped queue, with one more callback. */
  lemma DriveDelivers(b: Runner, w: World, fuel: nat, after: State)
    requires !IsEnd(w.s) && fuel > 0
    requires !IsContinue(b.run(TaskOf(w.tasks, w.s.q.current.value)))
    requires Pop(w.s) == Ok(Popped(w.s.q.current, None, after))
    ensures var c := w.s.q.current.value;
            var t := b.run(TaskOf(w.tasks, c));
            Drive(b, w, fuel)
              == Drive(b, World(Next(after), w.tasks[c := t], w.log + [Completion(c, t.content, t.err)]), fuel - 1)
  {
  }

  /** The loop has reached the end of its queue with every node of `all`
      delivered once, each with its end in `ends`. */
  predicate Completed(ends: map<Id, Task>, all: seq<Id>, r: Outcome) {
    && r.Finished?
    && multiset(Nodes(r.w.log)) == multiset(all)
    && forall j :: 0 <= j < |r.w.log| ==> Delivered(ends, r.w.log[j])
  }

  /** Once the queue has ended, the loop stops where it is. */
  lemma DriveStops(b: Runner, ends: map<Id, Task>, all: seq<Id>, w: World, fuel: nat)
    requires Terminates(b)
    requires Inv(b, ends, all, w, [])
    requires IsEnd(w.s)
    ensures Completed(ends, all, Drive(b, w, fuel))
  {
  }

  /** An iteration whose task may continue moves the cursor on and leaves
      the loop in a state that keeps the invariant with less remaining work. */
  lemma KeepAdvance(b: Runner, ends: map<Id, Task>, all: seq<Id>, w: World, cyc: seq<Id>, fuel: nat)
    returns (w': World, cyc': seq<Id>)
    requires Terminates(b)
    requires Inv(b, ends, all, w, cyc) && |cyc| >= 1
    requires fuel >= Measure(b, w.tasks, cyc)
    requires IsContinue(b.run(TaskOf(w.tasks, cyc[0])))
    ensures fuel > 0 && Drive(b, w, fuel) == Drive(b, w', fuel - 1)
    ensures Inv(b, ends, all, w', cyc') && fuel - 1 >= Measure(b, w'.tasks, cyc')
    // the cursor moves to the next member, which goes to the back of the round
    ensures cyc' == cyc[1..] + [cyc[0]] && w'.log == w.log && w'.s.q.current == Some(cyc'[0])
  {
    IsEndIffDrained(w.s, cyc);
    var c := cyc[0];
    w' := World(Next(w.s), w.tasks[c := b.run(TaskOf(w.tasks, c))], w.log);
    cyc' := cyc[1..] + [c];
    KeepStep(b, ends, all, w, cyc);
    DriveKeeps(b, w, fuel);
  }

  /** An iteration whose task has finished pops it, delivers its callback,
      and leaves the loop in a state that keeps the invariant for the
      remaining members with less remaining work. */
  lemma DoneAdvance(b: Runner, ends: map<Id, Task>, all: seq<Id>, w: World, cyc: seq<Id>, fuel: nat)
    returns (w': World, cyc': seq<Id>)
    requires Terminates(b)
    requires Inv(b, ends, all, w, cyc) && |cyc| >= 1
    requires fuel >= Measure(b, w.tasks, cyc)
    requires !IsContinue(b.run(TaskOf(w.tasks, cyc[0])))
    ensures fuel > 0 && Drive(b, w, fuel) == Drive(b, w', fuel - 1)
    ensures Inv(b, ends, all, w', cyc') && fuel - 1 >= Measure(b, w'.tasks, cyc')
    // the pop succeeds on the cursor without error
    ensures Pop(w.s).Ok? && Pop(w.s).value.err.None? && Pop(w.s).value.node == Some(cyc[0])
    // the node leaves the round and its callback gets the task as it stands
    ensures var t := b.run(TaskOf(w.tasks, cyc[0]));
            cyc' == cyc[1..] && w'.log == w.log + [Completion(cyc[0], t.content, t.err)]
  {
    IsEndIffDrained(w.s, cyc);
    var c := cyc[0];
    var t := b.run(TaskOf(w.tasks, c));
    var after := PopLive(w.s, cyc);
    w' := World(Next(after), w.tasks[c := t], w.log + [Completion(c, t.content, t.err)]);
    cyc' := cyc[1..];
    DoneStep(b, ends, all, w, cyc, after);
    DriveDelivers(b, w, fuel, after);
  }

  /** Any iteration of the loop, from the invariant, keeps it with enough
      fuel for the remaining work. */
  lemma Advance(b: Runner, ends: map<Id, Task>, all: seq<Id>, w: World, cyc: seq<Id>, fuel: nat)
    returns (w': World, cyc': seq<Id>)
    requires Terminates(b)
    requires Inv(b, ends, all, w, cyc) && |cyc| >= 1
    requires fuel >= Measure(b, w.tasks, cyc)
    ensures fuel > 0 && Drive(b, w, fuel) == Drive(b, w', fuel - 1)
    ensures Inv(b, ends, all, w', cyc') && fuel - 1 >= Measure(b, w'.tasks, cyc')
  {
    if IsContinue(b.run(TaskOf(w.tasks, cyc[0]))) {
      w', cyc' := KeepAdvance(b, ends, all, w, cyc, fuel);
    } else {
      w', cyc' := DoneAdvance(b, ends, all, w, cyc, fuel);
    }
  }

  /** From the invariant, enough fuel drives the loop to its end with every
      queued node delivered exactly once; `Pop` never fails or panics. */
  lemma {:induction false} DriveCompletes(b: Runner, ends: map<Id, Task>, all: seq<Id>, w: World, cyc: seq<Id>, fuel: nat)
    requires Terminates(b)
    requires Inv(b, ends, all, w, cyc)
    requires fuel >= Measure(b, w.tasks, cyc)
    ensures Completed(ends, all, Drive(b, w, fuel))
    decreases fuel
  {
    IsEndIffDrained(w.s, cyc);
    if IsEnd(w.s) {
      DriveStops(b, ends, all, w, fuel);
    } else {
      var w', cyc' := Advance(b, ends, all, w, cyc, fuel);
      DriveCompletes(b, ends, all, w', cyc', fuel - 1);
    }
  }

  function Ids(n: nat): (r: seq<Id>)
    ensures |r| == n && forall i :: 0 <= i < n ==> r[i] == i
  {
    if n == 0 then [] else Ids(n - 1) + [n - 1]
  }

  lemma {:induction false} IdsCount(n: nat, i: Id)
    ensures multiset(Ids(n))[i] == if i < n then 1 else 0
  {
    if n > 0 {
      var prev := Ids(n - 1);
      var last: seq<Id> := [n - 1];
      IdsCount(n - 1, i);
      assert Ids(n) == prev + last;
      assert multiset(Ids(n)) == multiset(prev) + multiset(last);
      assert multiset(last)[i] == if i == n - 1 then 1 else 0;
    }
  }

  /** One reader task per path, node i reading paths[i]. */
  function Tasks(paths: seq<string>): map<Id, Task> {
    map i: Id | i < |paths| :: NewTask(paths[i])
  }

  /** Where each reader task ends when run on its own from the start. */
  function Ends(fs: FileSystem, paths: seq<string>): map<Id, Task> {
    map i: Id | i < |paths| :: Finish(fs, NewTask(paths[i]))
  }

  /** `main`: a new queue, one node per path pushed in order, then the poll
      loop; the fuel is the work the tasks can do at most. */
  function Main(fs: FileSystem, paths: seq<string>): Outcome {
    var ids := Ids(|paths|);
    match PushAll(State(QueueNew(), map[]), ids)
    case Panic => Crashed
    case Ok(s) => Drive(Readers(fs), World(s, Tasks(paths), []), Measure(Readers(fs), Tasks(paths), ids))
  }

  /** Every reader task starts on its way to its own end. */
  lemma StartsOnTrack(fs: FileSystem, paths: seq<string>)
    ensures Terminates(Readers(fs))
    ensures OnTrack(Readers(fs), Ends(fs, paths), Tasks(paths), Ids(|paths|))
  {
    var b := Readers(fs);
    var init := Tasks(paths);
    var ends := Ends(fs, paths);
    ReadersFinish(fs, NewTask(""));
    forall x | x in Ids(|paths|) ensures RunToEnd(b, TaskOf(init, x)) == TaskOf(ends, x) {
      ReadersFinish(fs, NewTask(paths[x]));
    }
    OnTrackAll(b, ends, init, Ids(|paths|));
  }

  /** Before the loop: the pushed nodes are live and each is on its way to
      its task's end. */
  lemma MainStarts(fs: FileSystem, paths: seq<string>) returns (s: State)
    ensures PushAll(State(QueueNew(), map[]), Ids(|paths|)) == Ok(s)
    ensures Terminates(Readers(fs))
    ensures Inv(Readers(fs), Ends(fs, paths), Ids(|paths|), World(s, Tasks(paths), []), Ids(|paths|))
  {
    var ids := Ids(|paths|);
    assert Distinct(ids);
    s := PushAllFromEmpty(map[], ids);
    StartsOnTrack(fs, paths);
    assert Nodes([]) == [];
  }

  /** From the start `Main` sets up, the loop completes. */
  lemma MainCompletes(fs: FileSystem, paths: seq<string>)
    ensures Completed(Ends(fs, paths), Ids(|paths|), Main(fs, paths))
  {
    var ids := Ids(|paths|);
    var b := Readers(fs);
    var s := MainStarts(fs, paths);
    DriveCompletes(b, Ends(fs, paths), ids, World(s, Tasks(paths), []), ids, Measure(b, Tasks(paths), ids));
  }

  /** A completed loop over nodes 0 to n - 1 has called each callback once,
      and each callback delivered its own node's end. */
  lemma CompletedOnce(ends: map<Id, Task>, n: nat, r: Outcome)
    requires Completed(ends, Ids(n), r)
    ensures |r.w.log| == n
    ensures forall i :: 0 <= i < n ==> multiset(Nodes(r.w.log))[i] == 1
    ensures forall j :: 0 <= j < |r.w.log| ==>
              && r.w.log[j].node < n
              && r.w.log[j].content == TaskOf(ends, r.w.log[j].node).content
              && r.w.log[j].err == TaskOf(ends, r.w.log[j].node).err
  {
    var log := r.w.log;
    assert |multiset(Nodes(log))| == |multiset(Ids(n))|;
    forall i | 0 <= i < n ensures multiset(Nodes(log))[i] == 1 {
      IdsCount(n, i);
    }
    forall j | 0 <= j < |log| ensures log[j].node < n {
      assert Nodes(log)[j] == log[j].node;
      IdsCount(n, log[j].node);
    }
  }

  /** The program runs to the end of its queue; every pushed node's callback
      runs exactly once, and no other; and each receives what its task holds
      once run to its end from the start. */
  lemma MainDeliversEachOnce(fs: FileSystem, paths: seq<string>)
    ensures Main(fs, paths).Finished?
    ensures var log := Main(fs, paths).w.log;
            && |log| == |paths|
            && (forall i :: 0 <= i < |paths| ==> multiset(Nodes(log))[i] == 1)
            && forall j :: 0 <= j < |log| ==>
                 && log[j].node < |paths|
                 && log[j].content == Finish(fs, NewTask(paths[log[j].node])).content
                 && log[j].err == Finish(fs, NewTask(paths[log[j].node])).err
  {
    var r := Main(fs, paths);
    MainCompletes(fs, paths);
    CompletedOnce(Ends(fs, paths), |paths|, r);
  }

  /** What a reader of `path` hands its callback once run to its end: the
      zero chunk, the whole file and zero padding with the end-of-file error
      when the path exists, and the zero chunk with the open error when not. */
  predicate ReadWhole(fs: FileSystem, path: string, c: Completion) {
    if path in fs then
      && c.content == Zeros(ChunkSize) + fs[path] + Zeros(ChunkSize - |fs[path]| % ChunkSize)
      && c.err == Some(Eof)
    else
      c.content == Zeros(ChunkSize) && c.err == Some(NotExist)
  }

  /** Every callback of the program gets its reader's whole file, or the
      open error for a missing path. */
  lemma MainReadsWhole(fs: FileSystem, paths: seq<string>)
    ensures var r := Main(fs, paths);
            && r.Finished? && |r.w.log| == |paths|
            && (forall i :: 0 <= i < |paths| ==> multiset(Nodes(r.w.log))[i] == 1)
            && forall j :: 0 <= j < |r.w.log| ==>
                 r.w.log[j].node < |paths| && ReadWhole(fs, paths[r.w.log[j].node], r.w.log[j])
  {
    MainDeliversEachOnce(fs, paths);
    var log := Main(fs, paths).w.log;
    forall j | 0 <= j < |log| ensures ReadWhole(fs, paths[log[j].node], log[j]) {
      FinishFresh(fs, paths[log[j].node]);
    }
  }

  /** The wiring of `main`: four readers, two on each of two paths, pushed in
      order. All four callbacks run, once each, and each gets its reader's
      whole file or the open error. */
  lemma SampleWiring(fs: FileSystem, paths: seq<string>)
    requires paths == ["test.html", "index/index.html", "test.html", "index/index.html"]
    ensures var r := Main(fs, paths);
            && r.Finished? && |r.w.log| == 4
            && (forall i :: 0 <= i < 4 ==> multiset(Nodes(r.w.log))[i] == 1)
            && forall j :: 0 <= j < 4 ==>
                 && r.w.log[j].node < 4
                 && (paths[r.w.log[j].node] == "test.html" ==> ReadWhole(fs, "test.html", r.w.log[j]))
                 && (paths[r.w.log[j].node] == "index/index.html" ==> ReadWhole(fs, "index/index.html", r.w.log[j]))
  {
    MainReadsWhole(fs, paths);
  }
}
