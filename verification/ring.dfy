/** The shape of the run queue: when its links form one cycle, what `Push`,
    `Next` and `Pop` do to that cycle, and what a history of pushes builds. */
module Ring {
  import opened Basics
  import opened RingQueue

  predicate Distinct(ids: seq<Id>) {
    forall i, j :: 0 <= i < j < |ids| ==> ids[i] != ids[j]
  }

  /** `a` and `b` are joined in both directions, `b` following `a`. */
  predicate Joined(links: Arena, a: Id, b: Id) {
    GetNext(links, a) == Some(b) && GetPrev(links, b) == Some(a)
  }

  /** The i-th listed member is joined to the one listed after it. */
  predicate JoinedAt(links: Arena, ring: seq<Id>, i: int)
    requires 0 <= i < |ring| - 1
  {
    Joined(links, ring[i], ring[i + 1])
  }

  /** `ring` lists, in `next` order, the members of one well-formed cycle. */
  predicate IsRing(links: Arena, ring: seq<Id>) {
    && |ring| >= 1
    && Distinct(ring)
    && (forall i :: 0 <= i < |ring| - 1 ==> JoinedAt(links, ring, i))
    && Joined(links, ring[|ring| - 1], ring[0])
  }

  /** A queue built by pushing `ring` in order: the anchors are its first and
      last ids, the count is its length, a lone member is still unlinked and
      two or more members form a cycle. */
  predicate Anchored(s: State, ring: seq<Id>) {
    && Distinct(ring)
    && s.q.length == |ring|
    && (|ring| == 0 ==> s.q.head.None? && s.q.tail.None? && s.q.current.None?)
    && (|ring| >= 1 ==> s.q.head == Some(ring[0]) && s.q.tail == Some(ring[|ring| - 1]))
    && (|ring| == 1 ==> LinkOf(s.links, ring[0]) == Unlinked)
    && (|ring| >= 2 ==> IsRing(s.links, ring))
  }

  /** The node reached from `from` after following `next` k times. */
  function Walk(links: Arena, from: Id, k: nat): Option<Id> {
    if k == 0 then Some(from)
    else match Walk(links, from, k - 1)
      case None => None
      case Some(x) => GetNext(links, x)
  }

  /** Pushes `ids` one after another. */
  function PushAll(s: State, ids: seq<Id>): Step<State>
    decreases |ids|
  {
    if |ids| == 0 then Ok(s)
    else match Push(s, ids[0])
      case Panic => Panic
      case Ok(s') => PushAll(s', ids[1..])
  }

  /** Pushing a node that is not yet a member appends it to the cycle: the
      anchors stay, the tail becomes `n`, and nodes outside keep their links. */
  lemma PushExtendsRing(s: State, ring: seq<Id>, n: Id)
    requires Anchored(s, ring)
    requires n !in ring
    requires |ring| == 0 ==> LinkOf(s.links, n) == Unlinked
    ensures Push(s, n).Ok?
    ensures Anchored(Push(s, n).value, ring + [n])
    ensures Push(s, n).value.q.current == if |ring| == 0 then Some(n) else s.q.current
    ensures forall m :: m !in ring && m != n ==> LinkOf(Push(s, n).value.links, m) == LinkOf(s.links, m)
  {
    var r := ring + [n];
    if |ring| >= 1 {
      var l := Push(s, n).value.links;
      var h, t := ring[0], ring[|ring| - 1];
      assert Distinct(r) by {
        forall i, j | 0 <= i < j < |r| ensures r[i] != r[j] {
          if j == |ring| { assert r[i] == ring[i]; }
        }
      }
      forall i | 0 <= i < |r| - 1
        ensures JoinedAt(l, r, i)
      {
        if i < |ring| - 1 {
          assert JoinedAt(s.links, ring, i);
          assert r[i] == ring[i] && r[i + 1] == ring[i + 1];
          assert r[i] != n && r[i] != t;
          assert r[i + 1] != n && r[i + 1] != h;
        }
      }
      assert IsRing(l, r);
    }
  }

  /** Pushing fresh, distinct nodes onto an anchored queue appends them all. */
  lemma {:induction false} PushAllBuildsRing(s: State, ring: seq<Id>, ids: seq<Id>)
    requires Anchored(s, ring)
    requires Distinct(ring + ids)
    requires |ring| == 0 && |ids| >= 1 ==> LinkOf(s.links, ids[0]) == Unlinked
    ensures PushAll(s, ids).Ok?
    ensures Anchored(PushAll(s, ids).value, ring + ids)
    ensures PushAll(s, ids).value.q.current
              == if |ring| == 0 && |ids| >= 1 then Some(ids[0]) else s.q.current
    decreases |ids|
  {
    if |ids| >= 1 {
      var n := ids[0];
      assert (ring + ids)[|ring|] == n;
      assert n !in ring by {
        forall i | 0 <= i < |ring| ensures ring[i] != n {
          assert (ring + ids)[i] == ring[i];
        }
      }
      PushExtendsRing(s, ring, n);
      var s' := Push(s, n).value;
      assert ring + ids == (ring + [n]) + ids[1..];
      PushAllBuildsRing(s', ring + [n], ids[1..]);
    } else {
      assert ring + ids == ring;
    }
  }

  /** Following `next` from the first member k times, short of a full lap,
      reaches the k-th member. */
  lemma {:induction false} WalkFollowsRing(links: Arena, ring: seq<Id>, k: nat)
    requires IsRing(links, ring)
    requires k < |ring|
    ensures Walk(links, ring[0], k) == Some(ring[k])
  {
    if k > 0 {
      WalkFollowsRing(links, ring, k - 1);
      assert JoinedAt(links, ring, k - 1);
    }
  }

  /** A full lap of `next` steps from the first member returns to it. */
  lemma WalkLapReturns(links: Arena, ring: seq<Id>)
    requires IsRing(links, ring)
    ensures Walk(links, ring[0], |ring|) == Some(ring[0])
  {
    WalkFollowsRing(links, ring, |ring| - 1);
    assert Joined(links, ring[|ring| - 1], ring[0]);
  }

  /** On a cycle, `next` steps from the first member visit every member in
      listing order and a full lap returns to the first. */
  lemma WalkVisitsRing(links: Arena, ring: seq<Id>)
    requires IsRing(links, ring)
    ensures forall k :: 0 <= k < |ring| ==> Walk(links, ring[0], k) == Some(ring[k])
    ensures Walk(links, ring[0], |ring|) == Some(ring[0])
  {
    forall k | 0 <= k < |ring| ensures Walk(links, ring[0], k) == Some(ring[k]) {
      WalkFollowsRing(links, ring, k);
    }
    WalkLapReturns(links, ring);
  }

  /** Pushing distinct nodes, the first of them unlinked, onto a new queue
      anchors them in push order with the first as cursor. */
  lemma PushAllFromEmpty(links: Arena, ids: seq<Id>) returns (s: State)
    requires Distinct(ids)
    requires |ids| >= 1 ==> LinkOf(links, ids[0]) == Unlinked
    ensures PushAll(State(QueueNew(), links), ids) == Ok(s)
    ensures Anchored(s, ids)
    ensures |ids| >= 1 ==> s.q.current == Some(ids[0])
  {
    var s0 := State(QueueNew(), links);
    assert [] + ids == ids;
    PushAllBuildsRing(s0, [], ids);
    s := PushAll(s0, ids).value;
  }

  /** Pushing distinct fresh nodes onto a new queue: the count is the number
      of pushes, the first node is head and cursor, the last is tail, and
      with two or more nodes following `next` from head visits them in push
      order and returns to head after `length` steps, while head's prev is
      the tail. */
  lemma PushOrder(links: Arena, ids: seq<Id>)
    requires Distinct(ids)
    requires |ids| >= 1 ==> LinkOf(links, ids[0]) == Unlinked
    ensures PushAll(State(QueueNew(), links), ids).Ok?
    ensures var s := PushAll(State(QueueNew(), links), ids).value;
            && s.q.length == |ids|
            && (|ids| == 0 ==> IsEnd(s))
            && (|ids| >= 1 ==>
                  s.q.head == Some(ids[0]) && s.q.current == Some(ids[0])
                  && s.q.tail == Some(ids[|ids| - 1]))
            && (|ids| >= 2 ==>
                  && GetPrev(s.links, ids[0]) == Some(ids[|ids| - 1])
                  && (forall k :: 0 <= k < |ids| ==> Walk(s.links, ids[0], k) == Some(ids[k]))
                  && Walk(s.links, ids[0], |ids|) == Some(ids[0]))
  {
    var s := PushAllFromEmpty(links, ids);
    if |ids| >= 2 {
      assert Joined(s.links, ids[|ids| - 1], ids[0]);
      WalkVisitsRing(s.links, ids);
    }
  }

  /** Starting the listing one member later describes the same cycle. */
  lemma RotateRing(links: Arena, ring: seq<Id>)
    requires IsRing(links, ring)
    ensures IsRing(links, ring[1..] + [ring[0]])
  {
    var r := ring[1..] + [ring[0]];
    var n := |ring|;
    assert forall i :: 0 <= i < n - 1 ==> r[i] == ring[i + 1];
    assert r[n - 1] == ring[0];
    assert Distinct(r) by {
      forall i, j | 0 <= i < j < n ensures r[i] != r[j] {
        if j == n - 1 { assert r[i] == ring[i + 1]; }
        else { assert r[i] == ring[i + 1] && r[j] == ring[j + 1]; }
      }
    }
    forall i | 0 <= i < n - 1
      ensures JoinedAt(links, r, i)
    {
      if i < n - 2 {
        assert JoinedAt(links, ring, i + 1);
        assert r[i] == ring[i + 1] && r[i + 1] == ring[i + 2];
      } else {
        assert Joined(links, ring[n - 1], ring[0]);
        assert r[i] == ring[n - 1] && r[i + 1] == ring[0];
      }
    }
    if n >= 2 {
      assert JoinedAt(links, ring, 0);
    }
    assert Joined(links, r[n - 1], r[0]);
  }

  /** On a cycle whose first member is the cursor, `Next` moves the cursor
      to the second member, which heads the rotated listing of the same cycle. */
  lemma NextRotates(s: State, ring: seq<Id>)
    requires IsRing(s.links, ring)
    requires s.q.current == Some(ring[0])
    ensures var r := ring[1..] + [ring[0]];
            Next(s).q.current == Some(r[0]) && IsRing(Next(s).links, r)
            && Next(s).q.length == s.q.length
  {
    RotateRing(s.links, ring);
    if |ring| == 1 {
      assert ring[1..] + [ring[0]] == ring;
    }
  }

  /** Popping the cursor off a cycle takes the general branch whatever the
      anchors are: it returns the cursor, unlinks it, closes the cycle over the
      gap, moves the cursor back to the predecessor and keeps the anchors. When
      the cursor was the last member the count drops to 0 while the cursor
      stays on the removed node, so `IsEnd` holds. */
  lemma PopFromRing(s: State, ring: seq<Id>)
    requires IsRing(s.links, ring)
    requires s.q.current == Some(ring[0])
    requires s.q.length == |ring|
    ensures var r := Pop(s);
            && r.Ok? && r.value.err.None? && r.value.node == Some(ring[0])
            && r.value.after.q == s.q.(current := Some(ring[|ring| - 1]), length := |ring| - 1)
            && LinkOf(r.value.after.links, ring[0]) == Unlinked
            && (|ring| >= 2 ==> IsRing(r.value.after.links, ring[1..]))
            && (|ring| == 1 ==> IsEnd(r.value.after))
            && (forall m :: m !in ring ==> LinkOf(r.value.after.links, m) == LinkOf(s.links, m))
  {
    var c, n := ring[0], |ring|;
    assert Joined(s.links, ring[n - 1], c);
    assert GetNext(s.links, c) == Some(ring[1 % n]) by {
      if n >= 2 { assert JoinedAt(s.links, ring, 0); }
    }
    assert SoleMember(s) == Ok(false);
    if n >= 2 {
      assert ring[n - 1] != c && ring[1] != c;
      CloseGap(s.links, Pop(s).value.after.links, ring);
    }
  }

  /** Joining the neighbours of a cycle's first member, and leaving every
      other member's links as they were, closes the cycle over the rest. */
  lemma CloseGap(l0: Arena, l: Arena, ring: seq<Id>)
    requires IsRing(l0, ring) && |ring| >= 2
    requires var c, p, x := ring[0], ring[|ring| - 1], ring[1];
             && GetNext(l, p) == Some(x) && GetPrev(l, x) == Some(p)
             && (p != x ==> GetPrev(l, p) == GetPrev(l0, p) && GetNext(l, x) == GetNext(l0, x))
             && forall m :: m != c && m != p && m != x ==> LinkOf(l, m) == LinkOf(l0, m)
    ensures IsRing(l, ring[1..])
  {
    var n := |ring|;
    var rest := ring[1..];
    var c, p, x := ring[0], ring[n - 1], ring[1];
    assert Distinct(rest);
    forall i | 0 <= i < n - 2
      ensures JoinedAt(l, rest, i)
    {
      assert JoinedAt(l0, ring, i + 1);
      assert rest[i] == ring[i + 1] && rest[i + 1] == ring[i + 2];
      assert ring[i + 1] != p && ring[i + 1] != c;
      assert ring[i + 2] != x && ring[i + 2] != c;
    }
  }

  /** Popping the head off a cycle of two or more leaves `head` naming the
      removed, now unlinked node; a following `Push` of a new node splices it
      in front of that node, so two `next` steps from the new node reach nil
      instead of going round a cycle. */
  lemma PopHeadLeavesStaleAnchor(s: State, ring: seq<Id>, n: Id)
    requires IsRing(s.links, ring) && |ring| >= 2
    requires s.q.current == Some(ring[0]) && s.q.head == Some(ring[0])
    requires s.q.tail == Some(ring[|ring| - 1])
    requires s.q.length == |ring|
    requires n !in ring
    ensures Pop(s).Ok?
    ensures var a := Pop(s).value.after;
            && a.q.head == Some(ring[0]) && LinkOf(a.links, ring[0]) == Unlinked
            && Push(a, n).Ok?
            && GetNext(Push(a, n).value.links, n) == Some(ring[0])
            && Walk(Push(a, n).value.links, n, 2) == None
  {
    PopFromRing(s, ring);
    var a := Pop(s).value.after;
    var b := Push(a, n).value;
    assert GetNext(b.links, ring[0]) == GetNext(a.links, ring[0]);
    assert Walk(b.links, n, 1) == Some(ring[0]);
  }
}
