/** The circular doubly linked run queue (`Queue` with `Push`, `IsEnd`, `Next`,
    `Pop` and `Clean`) over an arena of node links. A node is named by an `Id`;
    the arena records each node's `prev`/`next` links, and an id the arena does
    not mention is a node as `nodeNew` builds it, with both links nil. */
module RingQueue {
  import opened Basics

  type Id = nat

  datatype Link = Link(prev: Option<Id>, next: Option<Id>)

  const Unlinked := Link(None, None)

  type Arena = map<Id, Link>

  /** The `Queue` struct: two anchors, a cursor and a member count. */
  datatype Queue = Queue(head: Option<Id>, tail: Option<Id>, current: Option<Id>, length: int)

  /** The queue together with the links of every node it may reach. */
  datatype State = State(q: Queue, links: Arena)

  datatype QueueError = LengthError

  /** What `Pop` hands back: Go's `(Node, error)` pair and the queue afterwards. */
  datatype Popped = Popped(node: Option<Id>, err: Option<QueueError>, after: State)

  function QueueNew(): Queue {
    Queue(None, None, None, 0)
  }

  function LinkOf(links: Arena, n: Id): Link {
    if n in links then links[n] else Unlinked
  }

  function GetPrev(links: Arena, n: Id): Option<Id> {
    LinkOf(links, n).prev
  }

  function GetNext(links: Arena, n: Id): Option<Id> {
    LinkOf(links, n).next
  }

  /** `n.SetPrev(p)`: only n's prev link changes. */
  function SetPrev(links: Arena, n: Id, p: Option<Id>): (r: Arena)
    ensures GetPrev(r, n) == p && GetNext(r, n) == GetNext(links, n)
    ensures forall m :: m != n ==> LinkOf(r, m) == LinkOf(links, m)
  {
    links[n := LinkOf(links, n).(prev := p)]
  }

  /** `n.SetNext(x)`: only n's next link changes. */
  function SetNext(links: Arena, n: Id, x: Option<Id>): (r: Arena)
    ensures GetNext(r, n) == x && GetPrev(r, n) == GetPrev(links, n)
    ensures forall m :: m != n ==> LinkOf(r, m) == LinkOf(links, m)
  {
    links[n := LinkOf(links, n).(next := x)]
  }

  /** Appends `n` behind the tail. On an empty queue (`length <= 0`) the node
      becomes head, tail and cursor and its links are left as they are; otherwise
      it is spliced between tail and head. Either way `length` grows by one. */
  function Push(s: State, n: Id): (r: Step<State>)
    // the only failure is a call through a nil anchor of a non-empty queue
    ensures r.Panic? <==> s.q.length > 0 && (s.q.head.None? || s.q.tail.None?)
    ensures r.Ok? ==> r.value.q.length == s.q.length + 1 && r.value.q.tail == Some(n)
    ensures s.q.length <= 0 ==>
              r.Ok? && r.value.q.head == Some(n) && r.value.q.current == Some(n)
              && r.value.links == s.links
    ensures s.q.length > 0 && r.Ok? ==>
              var h, t, l := s.q.head.value, s.q.tail.value, r.value.links;
              && r.value.q.head == s.q.head && r.value.q.current == s.q.current
              && GetNext(l, n) == Some(h) && GetPrev(l, h) == Some(n)
              && (n != h ==> GetPrev(l, n) == Some(t))
              && (n != t ==> GetNext(l, t) == Some(n))
              && (t != n && t != h ==> GetPrev(l, t) == GetPrev(s.links, t))
              && (h != n && h != t ==> GetNext(l, h) == GetNext(s.links, h))
              && (forall m :: m != n && m != h && m != t ==> LinkOf(l, m) == LinkOf(s.links, m))
  {
    if s.q.length <= 0 then
      Ok(State(Queue(Some(n), Some(n), Some(n), s.q.length + 1), s.links))
    else if s.q.tail.None? || s.q.head.None? then
      Panic
    else
      var t, h := s.q.tail.value, s.q.head.value;
      var l1 := SetPrev(s.links, n, Some(t));
      var l2 := SetNext(l1, t, Some(n));
      var l3 := SetPrev(l2, h, Some(n));
      var l4 := SetNext(l3, n, Some(h));
      Ok(State(s.q.(tail := Some(n), length := s.q.length + 1), l4))
  }

  /** The poll loop's stop test. */
  predicate IsEnd(s: State) {
    s.q.current.None? || s.q.length == 0
  }

  /** Moves the cursor along its next link when both exist; nothing else changes. */
  function Next(s: State): (r: State)
    ensures r.links == s.links
    ensures r.q.head == s.q.head && r.q.tail == s.q.tail && r.q.length == s.q.length
    ensures s.q.current.Some? && GetNext(s.links, s.q.current.value).Some? ==>
              r.q.current == GetNext(s.links, s.q.current.value)
    ensures s.q.current.None? || GetNext(s.links, s.q.current.value).None? ==> r == s
  {
    match s.q.current
    case None => s
    case Some(c) =>
      match GetNext(s.links, c)
      case None => s
      case Some(x) => s.(q := s.q.(current := Some(x)))
  }

  /** The singleton test of `Pop`, evaluated as Go does: left to right, with a
      panic when a nil anchor equal to the cursor is asked for its link. */
  function SoleMember(s: State): (r: Step<bool>)
    // the test panics exactly when a nil cursor meets a nil anchor
    ensures r.Panic? <==> s.q.current.None? && (s.q.head.None? || s.q.tail.None?)
    // a cursor is recognised exactly when it is the head with a nil prev
    // or the tail with a nil next
    ensures s.q.current.Some? ==>
              (r == Ok(true) <==>
                 || (s.q.current == s.q.head && GetPrev(s.links, s.q.current.value).None?)
                 || (s.q.current == s.q.tail && GetNext(s.links, s.q.current.value).None?))
    // a recognised member has a nil link on one side
    ensures r == Ok(true) ==>
              s.q.current.Some?
              && (GetPrev(s.links, s.q.current.value).None? || GetNext(s.links, s.q.current.value).None?)
  {
    var q := s.q;
    if q.current == q.head && q.head.None? then Panic
    else if q.current == q.head && GetPrev(s.links, q.head.value).None? then Ok(true)
    else if q.current == q.tail && q.tail.None? then Panic
    else Ok(q.current == q.tail && GetNext(s.links, q.tail.value).None?)
  }

  /** Forgets every member at once; links are left as they are. */
  function Clean(s: State): State {
    State(QueueNew(), s.links)
  }

  /** Removes the cursor's node. An empty count is an error that changes nothing;
      a member the singleton test recognises clears the whole queue; any other
      cursor is unlinked, its neighbours are joined, and the cursor falls back
      to the predecessor. The anchors are never moved in that last case. */
  function Pop(s: State): (r: Step<Popped>)
    ensures s.q.length <= 0 ==> r == Ok(Popped(None, Some(LengthError), s))
    ensures s.q.length > 0 && s.q.current.None? ==> r.Panic?
    ensures r.Ok? && r.value.err.None? ==>
              r.value.node == s.q.current && s.q.current.Some? && s.q.length > 0
    ensures s.q.length > 0 && SoleMember(s) == Ok(true) ==>
              r.Ok? && r.value.err.None? && IsEnd(r.value.after)
              && r.value.after.q == Queue(None, None, None, 0) && r.value.after.links == s.links
    ensures s.q.length > 0 && SoleMember(s) == Ok(false) && s.q.current.Some? ==>
              var c := s.q.current.value;
              var p, x := GetPrev(s.links, c), GetNext(s.links, c);
              && (r.Ok? <==> p.Some? && x.Some?)
              && (r.Ok? ==>
                    var l := r.value.after.links;
                    && r.value.err.None?
                    && r.value.after.q == s.q.(current := p, length := s.q.length - 1)
                    && LinkOf(l, c) == Unlinked
                    && (p.value != c ==> GetNext(l, p.value) == x)
                    && (x.value != c ==> GetPrev(l, x.value) == p)
                    && (p.value != c && p.value != x.value ==> GetPrev(l, p.value) == GetPrev(s.links, p.value))
                    && (x.value != c && x.value != p.value ==> GetNext(l, x.value) == GetNext(s.links, x.value))
                    && (forall m :: m != c && m != p.value && m != x.value ==> LinkOf(l, m) == LinkOf(s.links, m)))
  {
    if s.q.length <= 0 then
      Ok(Popped(None, Some(LengthError), s))
    else
      match SoleMember(s)
      case Panic => Panic
      case Ok(sole) =>
        if sole then
          Ok(Popped(s.q.current, None, Clean(s)))
        else if s.q.current.None? then
          Panic
        else
          var c := s.q.current.value;
          var p, x := GetPrev(s.links, c), GetNext(s.links, c);
          if p.None? then Panic
          else
            var l1 := SetNext(s.links, p.value, x);
            if x.None? then Panic
            else
              var l2 := SetPrev(l1, x.value, p);
              var l3 := SetNext(l2, c, None);
              var l4 := SetPrev(l3, c, None);
              Ok(Popped(s.q.current, None, State(s.q.(current := p, length := s.q.length - 1), l4)))
  }

  /** Reading a link back after setting one: the node that was set reports
      the new link and keeps its other one; every other node reports what it
      did before. */
  lemma SetThenGet(links: Arena, n: Id, m: Id, l: Option<Id>)
    ensures GetPrev(SetPrev(links, n, l), m) == if m == n then l else GetPrev(links, m)
    ensures GetNext(SetPrev(links, n, l), m) == GetNext(links, m)
    ensures GetNext(SetNext(links, n, l), m) == if m == n then l else GetNext(links, m)
    ensures GetPrev(SetNext(links, n, l), m) == GetPrev(links, m)
  {
  }

  /** A new queue is at its end, `Pop` on it reports the length error and
      changes nothing, and the first `Push` makes a single member that is
      head, tail and cursor. */
  lemma NewQueueStarts(links: Arena, n: Id)
    ensures IsEnd(State(QueueNew(), links))
    ensures Pop(State(QueueNew(), links)) == Ok(Popped(None, Some(LengthError), State(QueueNew(), links)))
    ensures Push(State(QueueNew(), links), n) == Ok(State(Queue(Some(n), Some(n), Some(n), 1), links))
  {
  }

  /** `Clean` forgets the anchors, the cursor and the count but no link, so
      the queue behaves as a new one: at its end, `Pop` reports the length
      error, and the next `Push` starts over with a single member. */
  lemma CleanResets(s: State, n: Id)
    ensures Clean(s) == State(QueueNew(), s.links)
    ensures IsEnd(Clean(s))
    ensures Pop(Clean(s)) == Ok(Popped(None, Some(LengthError), Clean(s)))
    ensures Push(Clean(s), n) == Ok(State(Queue(Some(n), Some(n), Some(n), 1), s.links))
  {
  }

  /** A single node pushed onto a new queue, with a nil link on one side as
      every node `nodeNew` builds has, is popped through the singleton
      branch: `Pop` returns it and clears the queue, with no link changed. */
  lemma PushThenPop(links: Arena, n: Id)
    requires GetPrev(links, n).None? || GetNext(links, n).None?
    ensures Push(State(QueueNew(), links), n) == Ok(State(Queue(Some(n), Some(n), Some(n), 1), links))
    ensures Pop(State(Queue(Some(n), Some(n), Some(n), 1), links))
              == Ok(Popped(Some(n), None, State(QueueNew(), links)))
  {
  }
}
