# Cooperative run queue of incremental file readers

This project models the round-robin task scheduler in `testQueue_2.go` and
proves properties of the model. The scheduler is a circular doubly linked
list (`Queue`) with the operations `Push`, `IsEnd`, `Next`, `Pop` and `Clean`.
Its members are `node` tasks that open a file on their first `Run` and then
read it five bytes at a time. The poll loop of `main` runs the cursor's task
once per iteration. A task whose `IsContinue` is false is popped, and its
callback gets the accumulated content and the error. Then the cursor moves on.

The model is functional:

- `basics.dfy` (`Basics`): `Option` stands for Go's `nil`. `Step` marks a
  result that may instead be a runtime panic, which happens when a method is
  called through a nil interface value. `byte` is the byte type.
- `queue.dfy` (`RingQueue`): nodes are `nat` ids. Their `prev`/`next` links
  live in an arena map. An id the map does not mention has both links nil,
  as `nodeNew` creates it. `Queue` is the `head`/`tail`/`current`/`length`
  record. Every queue operation is a pure function over a queue plus an arena.
  The nil-receiver panics of the Go code are kept as `Panic` results.
- `ring.dfy` (`Ring`): when the links form one cycle. What push histories
  build. How `Next` and `Pop` move the cycle. How a stale anchor breaks it.
- `task.dfy` (`FileTask`): the reader task. `Run` takes the replies of
  opening and reading as parameters, like an oracle. `RunOn` gets those
  replies from a static file system. Opening follows `os.Open`: a path
  exists or it does not. Each read goes into a fresh five-byte buffer from
  `make`. `os.File.ReadAt` fills it with at most five bytes of the file, and
  any part it does not reach stays zero. It reports end of file when fewer
  than five bytes remain.
- `scheduler.dfy` (`Scheduler`): the poll loop `Drive` with a fuel bound. The
  loop reaches a task only through the `Node` interface, so it takes a
  `Runner`: the task's `Run`, plus a bound on the calls the task can still
  take. The callbacks are recorded as a log of `Completion`s. `Main` pushes
  one reader per path and drives the loop with the file readers of
  `FileTask` and enough fuel.

The model follows the code in these places, where the code differs from a
textbook circular list:

- `Push` on an empty queue does not link the node to itself. A lone pushed
  node keeps nil links, and `Pop` recognises it through those nil links.
- `Pop` never moves `head` or `tail` in its general branch, even when the
  node it removes is one of them. `PopHeadLeavesStaleAnchor` shows that a
  later `Push` then splices onto a detached node.
- When the last member of a cycle is popped through the general branch,
  `current` stays on the removed node and `length` becomes 0. The loop still
  stops, because `IsEnd` also tests `length == 0`.
- The content buffer starts as five zero bytes (`make([]byte, 5)`). Every read
  appends a whole five-byte buffer, even the read that reports end of file.
  So a callback receives five zero bytes, then the file, then one to five
  zero bytes, ending on a multiple of five. A file whose size is already a
  multiple of five still gets five more zero bytes, from the final read
  that finds nothing. It does not receive the bare file contents.

## Model

| member | source | states |
|---|---|---|
| RingQueue.SetPrev | testQueue_2.go:105-107 | only the receiver's prev link changes, to the given node; its next link and every other node's links stay as they were |
| RingQueue.SetNext | testQueue_2.go:113-115 | only the receiver's next link changes, to the given node; its prev link and every other node's links stay as they were |
| RingQueue.SetThenGet | testQueue_2.go:105-119 | `GetPrev`/`GetNext` read back a link just set on the same node, the other link of that node as it was, and every other node's links as they were |
| RingQueue.Push | testQueue_2.go:157-170 | panics exactly when a non-empty queue has a nil anchor. On an empty queue the node becomes head, tail and cursor, and no link changes. Otherwise: the node's next is head, head's prev is the node, the old tail's next is the node, and the node's prev is the old tail. These hold whenever the names are distinct. Head and cursor stay, the tail becomes the node, no other node's links change, and `length` grows by exactly 1 |
| RingQueue.Next | testQueue_2.go:176-182 | the cursor moves to its next node when both exist, and otherwise nothing changes; links, anchors and `length` never change |
| RingQueue.SoleMember | testQueue_2.go:190 | the singleton test panics exactly when the cursor is nil and so is one of the anchors. A non-nil cursor is recognised exactly when it is the head with a nil prev or the tail with a nil next, so a recognised member has a nil link on one side |
| RingQueue.Pop | testQueue_2.go:184-207 | `length <= 0` gives the length error, no node and an unchanged queue. A nil cursor panics. A recognised lone member is returned, and everything is cleared to nil with `length` 0. Otherwise: it panics iff the cursor has a nil neighbour. If not, it returns the cursor and joins its predecessor and successor. The removed node ends with both links nil. The cursor falls back to the predecessor and `length` drops by 1. Head, tail and all other nodes' links are unchanged |
| RingQueue.PushThenPop | testQueue_2.go:157-192 | a single node with a nil link, pushed onto a new queue, becomes head, tail and cursor with length 1 and no link changed. `Pop` then takes the singleton branch: it returns that node and clears the queue |
| RingQueue.NewQueueStarts | testQueue_2.go:96-103 | a new queue, with nil anchors and cursor and a count of 0, is at its end. `Pop` on it reports the length error and changes nothing, and the first `Push` makes that node head, tail and cursor with length 1 and no link changed |
| RingQueue.CleanResets | testQueue_2.go:209-215 | a new or cleaned queue is at its end. `Pop` on it reports the length error and changes nothing. The next `Push` makes a one-member queue |
| Ring.PushExtendsRing | testQueue_2.go:162-169 | pushing a non-member onto a queue anchored over a listing appends it. The result is one cycle when there are two or more members, with head kept and tail the new node. Nodes outside keep their links |
| Ring.PushAllBuildsRing | testQueue_2.go:157-169 | pushing distinct non-members one after another never panics, and appends them all in order to the anchored listing |
| Ring.PushAllFromEmpty | testQueue_2.go:256-259 | pushing distinct nodes, the first of them unlinked as `nodeNew` leaves it, onto a new queue never panics, leaves them anchored in push order, and makes the first of them the cursor |
| Ring.PushOrder | testQueue_2.go:157-169 | after N distinct pushes onto a new queue, `length` is N. The first node is head and cursor and the last is tail. For N >= 2, following `next` from head visits the nodes in push order and is back at head after N steps, and head's prev is the tail |
| Ring.WalkVisitsRing | testQueue_2.go:176-182 | on a cycle, k `next` steps from the first member reach the k-th member, and a full lap returns to the first |
| Ring.NextRotates | testQueue_2.go:176-182 | on a cycle with the cursor first, `Next` moves the cursor to the second member, and the rotated listing is still the same cycle |
| Ring.PopFromRing | testQueue_2.go:194-201 | popping the cursor of a cycle always takes the general branch, whatever the anchors are. It returns the cursor with both its links nil. The rest stays one cycle, the cursor is the predecessor, and anchors and outside nodes are untouched. Popping the last member leaves `length` 0, so `IsEnd` holds |
| Ring.CloseGap | testQueue_2.go:194-201 | once the neighbours of a cycle's first member are joined to each other and no other member's links change, the remaining members form one cycle in the same order |
| Ring.PopHeadLeavesStaleAnchor | testQueue_2.go:194-201 | after the head is popped from a cycle, `head` still names the unlinked removed node. A following `Push` points the new node at that detached node, so two steps from the new node reach nil |
| FileTask.NewTask | testQueue_2.go:50-61 | a new task has no file, no error, offset 0 and a buffer of five zero bytes |
| FileTask.GrowContent | testQueue_2.go:138-148 | the element-by-element copy makes a buffer five longer, with the old content as its prefix and the chunk as its suffix |
| FileTask.Run | testQueue_2.go:134-151 | the first step, with no file yet, only records the open result. Content and offset stay, and the file counts as open iff opening reported no error. A later step grows the content by exactly five, old content first and the chunk last. It adds five to the offset and records the read's error, even when that error is set |
| FileTask.OpenStep | testQueue_2.go:135-136 | the first step opens the path: the task is open, and may continue, exactly when the path exists; a missing path records the open error |
| FileTask.ReadAt | testQueue_2.go:141 | the chunk holds the file's bytes from the offset and zeros beyond the end. The error is end of file exactly when fewer than five bytes remain, and a negative offset is an error |
| FileTask.ReadContinues | testQueue_2.go:153-155 | after a step of an opened task, `IsContinue` holds exactly when a whole five-byte chunk of the file lay at the offset. Otherwise the task holds the end-of-file error, or the negative-offset error for an offset below 0 |
| FileTask.RunOn | testQueue_2.go:134-155 | a step after which the task may still continue strictly lowers its remaining number of steps |
| FileTask.Finish | testQueue_2.go:134-155 | running a task until `IsContinue` is false ends with an error recorded. The buffer only grows, keeping the old content as a prefix, and the offset grows by exactly as much as the buffer |
| FileTask.FinishFresh | testQueue_2.go:134-151 | a new task run to its end holds the open error and its five zero bytes if the path is missing. Otherwise it holds five zero bytes, the whole file, then one to five zero bytes ending on a multiple of five, with the end-of-file error and the matching offset |
| Scheduler.RunToEnd | testQueue_2.go:22-25 | for a runner whose bound falls on every call that may continue, calling `Run` until `IsContinue` is false always stops, in a state that may not continue |
| Scheduler.ReadersFinish | testQueue_2.go:134-155 | the file readers satisfy that bound, and running one through the interface until it stops gives the same task as `Finish` |
| Scheduler.Drive | testQueue_2.go:264-275 | the loop stops only at a queue for which `IsEnd` holds, and callbacks are only ever appended to the log |
| Scheduler.OnTrackAll | testQueue_2.go:264-275 | the per-member part of the loop invariant holds exactly when every queued member, run to its end, reaches the end recorded for it |
| Scheduler.IsEndIffDrained | testQueue_2.go:172-174 | for a live queue, `IsEnd` holds iff no member is left |
| Scheduler.PopLive | testQueue_2.go:266-274 | inside the loop `Pop` always succeeds and returns the cursor. After `Next` the remaining members are live, with the following member as cursor |
| Scheduler.KeepStep | testQueue_2.go:265-274 | an iteration whose task may continue keeps the loop invariant, with the cursor one member further on, and strictly lowers the total remaining work |
| Scheduler.DoneStep | testQueue_2.go:266-274 | an iteration whose task has finished keeps the loop invariant for the other members after the pop. Its callback gets the task's end, and the total remaining work strictly drops |
| Scheduler.KeepAdvance | testQueue_2.go:264-275 | from the invariant, an iteration whose task may continue is one loop step. It delivers no callback and moves the cursor to the next member, which puts the node just run at the back of the round. The next state keeps the invariant, and the remaining fuel still covers the work |
| Scheduler.DoneAdvance | testQueue_2.go:264-275 | from the invariant, in an iteration whose task has finished, `Pop` succeeds on the cursor without error. The node leaves the round, and exactly one callback is appended to the log, carrying the task's content and error. The loop goes on from a state that keeps the invariant, and the remaining fuel still covers the work |
| Scheduler.DriveCompletes | testQueue_2.go:264-275 | from the loop invariant, fuel at least the remaining work drives the loop to its end. `Pop` never fails or panics. Every queued node's callback is delivered exactly once, with what its task holds when run to its end |
| Scheduler.StartsOnTrack | testQueue_2.go:220-259 | every reader that `main` builds starts out on its way to what it holds when run alone from the start |
| Scheduler.MainStarts | testQueue_2.go:217-259 | pushing the readers onto a new queue never panics and establishes the loop invariant, with no callback delivered yet |
| Scheduler.CompletedOnce | testQueue_2.go:264-275 | once the loop has delivered every node of 0..n-1, the log has exactly n callbacks. Each node appears once, and each callback carries its own node's end |
| Scheduler.MainDeliversEachOnce | testQueue_2.go:217-275 | for any file system and any list of paths, the program reaches the end of its queue. There is exactly one callback per pushed node and no other, and each callback gets the content and error of its task run to its end |
| Scheduler.MainReadsWhole | testQueue_2.go:125-155 | every callback of the program gets five zero bytes, its reader's whole file, then one to five zero bytes ending on a multiple of five, with the end-of-file error. For a missing path it gets five zero bytes and the open error |
| Scheduler.SampleWiring | testQueue_2.go:220-259 | with the four readers over two paths, all four callbacks run once each, and each gets its own path's whole file or the open error |
## Left out

- `os.Open`, `File.ReadAt`, `File.Close`: file-system I/O. `Run` takes the
  replies as parameters. The loop takes them from a static map of files that
  supports only "missing path", "end of file" and "negative offset" errors.
  Other read faults are not modelled in the loop. `Close` in `RunCallback`
  is dropped.
- `runtime.GC()` in `Pop` and `Clean`: a collector hint with no effect on
  the queue.
- The callbacks' `fmt.Println` output: each callback is recorded as a
  `Completion` holding the node, the content and the error it receives.
  `fmt.Println` followed by `os.Exit(0)` after a failed `Pop` becomes the
  `Exited` outcome.
- `main`'s four fixed nodes: `Main` takes any list of paths. `SampleWiring`
  is the four-node instance.
- The `Node` interface: its link accessors are modelled for the one node type
  the program has, and the loop sees `Run` through a `Runner`. `Push` of a nil
  `Node` is not modelled, because ids are never nil.
- `Drive`: the loop carries fuel so that it is a total function. `Main`
  supplies the tasks' total remaining work, which is proved to be enough.
- Machine integers: the 64-bit `length` and `off` are unbounded, since no
  history the program can run comes near wrap-around.
- `cap` versus `len` of the content slice: every slice comes from `make`, so
  the two agree, and the content is a plain sequence.
- Ring-shape claims after a `Pop` has removed `head` or `tail`: the model
  keeps the stale anchors, and `PopHeadLeavesStaleAnchor` shows the result.
  The ring lemmas assume anchors that a push-only history produces.
