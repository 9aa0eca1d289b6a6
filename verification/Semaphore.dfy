/**
 The counting semaphore over a Go channel: a buffer that only has a length, and the receivers that
 wait on it in arrival order ("Channel types" in the Go specification). A send to a channel with a
 waiting receiver hands over to it; this also covers a channel without a buffer.
 */
module Semaphore {
  import opened Wrappers

  type Tid = nat

  /** chan struct{} with capacity `limit`: its length and its blocked receivers, oldest first. */
  datatype Chan = Chan(limit: nat, count: nat, waiting: seq<Tid>)

  ghost predicate Sane(c: Chan) {
    c.count <= c.limit && (c.waiting != [] ==> c.count == 0)
  }

  // -------------------------------------------------------------- operations

  datatype Posted = HandedTo(receiver: Tid) | Buffered | HitLimit

  /** The non-blocking send of Post. */
  function PostTo(c: Chan): (Chan, Posted) {
    if c.waiting != [] then (c.(waiting := c.waiting[1..]), HandedTo(c.waiting[0]))
    else if c.count < c.limit then (c.(count := c.count + 1), Buffered)
    else (c, HitLimit)
  }

  /** The blocking receive of Wait: through at once, or queued. */
  function Receive(c: Chan, t: Tid): (Chan, bool) {
    if c.count > 0 then (c.(count := c.count - 1), true) else (c.(waiting := c.waiting + [t]), false)
  }

  /** The non-blocking receive of TryWait. */
  function TryReceive(c: Chan): (Chan, bool) {
    if c.count > 0 then (c.(count := c.count - 1), true) else (c, false)
  }

  // ------------------------------------------------------------ construction

  /** The constructor's loop on a channel no one else has: None when a send would block forever. */
  function Fill(left: int, limit: nat, count: nat): Option<nat>
    requires count <= limit
    decreases limit - count
  {
    if left == 0 then Some(count)
    else if count == limit then None
    else Fill(left - 1, limit, count + 1)
  }

  /** NewSemaphore returns exactly when the initial count is between zero and the limit. */
  lemma {:induction false} FillExactly(left: int, limit: nat, count: nat)
    requires count <= limit
    ensures Fill(left, limit, count) == if 0 <= left <= limit - count then Some(count + left) else None
    decreases limit - count
  {
    if left == 0 || count == limit {
    } else {
      FillExactly(left - 1, limit, count + 1);
    }
  }

  // ------------------------------------------------------- any use of a channel

  datatype Op = Posts | Waits(t: Tid) | Tries

  /** A channel after some operations, with the successful posts and the waits that went through. */
  datatype Used = Used(chan: Chan, posts: nat, completed: nat)

  function Use(u: Used, op: Op): Used {
    match op
    case Posts =>
      var (c, r) := PostTo(u.chan);
      Used(c, u.posts + (if r == HitLimit then 0 else 1), u.completed + (if r.HandedTo? then 1 else 0))
    case Waits(t) =>
      var (c, through) := Receive(u.chan, t);
      Used(c, u.posts, u.completed + if through then 1 else 0)
    case Tries =>
      var (c, through) := TryReceive(u.chan);
      Used(c, u.posts, u.completed + if through then 1 else 0)
  }

  function UseAll(u: Used, ops: seq<Op>): Used {
    if ops == [] then u else Use(UseAll(u, ops[..|ops| - 1]), ops[|ops| - 1])
  }

  /**
   On every channel reachable from NewSemaphore: the length stays within the limit, receivers only
   wait on an empty channel, and the length is what was put in less what was taken.
   */
  lemma {:induction false} EveryUseIsSane(initial: nat, limit: nat, ops: seq<Op>)
    requires initial <= limit
    ensures var u := UseAll(Used(Chan(limit, initial, []), 0, 0), ops);
      Sane(u.chan) && u.chan.limit == limit && u.chan.count + u.completed == initial + u.posts
  {
    if ops == [] {
    } else {
      EveryUseIsSane(initial, limit, ops[..|ops| - 1]);
    }
  }

  /** k posts in a row, and the receivers they released in order. */
  function PostMany(c: Chan, k: nat): (Chan, seq<Tid>) {
    if k == 0 then (c, [])
    else
      var (before, released) := PostMany(c, k - 1);
      var (after, r) := PostTo(before);
      (after, released + if r.HandedTo? then [r.receiver] else [])
  }

  /**
   k posts release the k oldest waiters, and once nobody waits the rest fill the buffer up to the
   limit and no further.
   */
  lemma {:induction false} PostsReleaseOldest(c: Chan, k: nat)
    requires Sane(c)
    ensures var (after, released) := PostMany(c, k);
      var w := |c.waiting|;
      && released == c.waiting[..if k < w then k else w]
      && after.waiting == c.waiting[if k < w then k else w..] && after.limit == c.limit
      && after.count == if k <= w then c.count else if c.count + (k - w) < c.limit then c.count + (k - w) else c.limit
  {
    if k == 0 {
      assert c.waiting[..0] == [] && c.waiting[0..] == c.waiting;
    } else {
      PostsReleaseOldest(c, k - 1);
      var w := |c.waiting|;
      if k <= w {
        assert c.waiting[..k] == c.waiting[..k - 1] + [c.waiting[k - 1]];
        assert c.waiting[k - 1..][0] == c.waiting[k - 1] && c.waiting[k - 1..][1..] == c.waiting[k..];
      } else {
        assert c.waiting[w..] == [];
        assert c.waiting[..w] + [] == c.waiting[..w];
      }
    }
  }

  /** The waits that had to block, in the order in which they came. */
  function Blocked(u: Used, ops: seq<Op>): seq<Tid> {
    if ops == [] then []
    else
      var before, op := UseAll(u, ops[..|ops| - 1]), ops[|ops| - 1];
      Blocked(u, ops[..|ops| - 1]) + if op.Waits? && !Receive(before.chan, op.t).1 then [op.t] else []
  }

  /** The receivers that posts handed over to, in the order of the posts. */
  function Released(u: Used, ops: seq<Op>): seq<Tid> {
    if ops == [] then []
    else
      var before, op := UseAll(u, ops[..|ops| - 1]), ops[|ops| - 1];
      Released(u, ops[..|ops| - 1]) + if op.Posts? && PostTo(before.chan).1.HandedTo?
        then [PostTo(before.chan).1.receiver] else []
  }

  /**
   First come, first served: whatever is done with a semaphore, the receivers released so far are the
   first of those that had to block, in their order, and the others are still waiting in theirs.
   */
  lemma {:induction false} ReleasedInArrivalOrder(initial: nat, limit: nat, ops: seq<Op>)
    requires initial <= limit
    ensures var u := Used(Chan(limit, initial, []), 0, 0);
      Blocked(u, ops) == Released(u, ops) + UseAll(u, ops).chan.waiting
  {
    if ops == [] {
    } else {
      var init, u := ops[..|ops| - 1], Used(Chan(limit, initial, []), 0, 0);
      ReleasedInArrivalOrder(initial, limit, init);
      OneMoreInOrder(UseAll(u, init), Blocked(u, init), Released(u, init), ops[|ops| - 1]);
    }
  }

  lemma OneMoreInOrder(u: Used, blocked: seq<Tid>, released: seq<Tid>, op: Op)
    requires blocked == released + u.chan.waiting
    ensures var c := u.chan;
      var blocked' := blocked + if op.Waits? && !Receive(c, op.t).1 then [op.t] else [];
      var released' := released + if op.Posts? && PostTo(c).1.HandedTo? then [PostTo(c).1.receiver] else [];
      blocked' == released' + Use(u, op).chan.waiting
  {
    if op.Posts? && u.chan.waiting != [] {
      assert [u.chan.waiting[0]] + u.chan.waiting[1..] == u.chan.waiting;
    }
  }

  function ReceiveAll(c: Chan, ts: seq<Tid>): Chan {
    if ts == [] then c else Receive(ReceiveAll(c, ts[..|ts| - 1]), ts[|ts| - 1]).0
  }

  /** Those who wait on an empty semaphore are released by as many posts, in the order they came. */
  lemma {:induction false} WaitersQueueUp(limit: nat, ts: seq<Tid>)
    ensures ReceiveAll(Chan(limit, 0, []), ts) == Chan(limit, 0, ts)
    ensures PostMany(ReceiveAll(Chan(limit, 0, []), ts), |ts|).1 == ts
  {
    if ts == [] {
    } else {
      WaitersQueueUp(limit, ts[..|ts| - 1]);
      assert ts[..|ts| - 1] + [ts[|ts| - 1]] == ts;
    }
    PostsReleaseOldest(Chan(limit, 0, ts), |ts|);
    assert ts[..|ts|] == ts;
  }

  /** The semaphore itself, with counters that only the specification sees. */
  class Semaphore {
    const limit: nat
    var count: nat
    var waiting: seq<Tid>
    ghost const initial: nat
    ghost var posts: nat      // successful posts
    ghost var completed: nat  // waits that went through, at once or by a hand-over

    ghost predicate Valid()
      reads this
    {
      Sane(Value()) && count + completed == initial + posts
    }

    function Value(): Chan
      reads this
    {
      Chan(limit, count, waiting)
    }

    /** NewSemaphore fills the channel one token at a time. */
    constructor (initial: nat, limit: nat)
      requires initial <= limit
      ensures Valid() && this.limit == limit && this.initial == initial && posts == completed == 0
      ensures Value() == Chan(limit, initial, [])
    {
      this.limit, this.initial := limit, initial;
      count, waiting, posts, completed := 0, [], 0, 0;
      new;
      var left := initial;
      while left != 0
        invariant count + left == initial && waiting == [] && posts == completed == 0
      {
        count := count + 1;
        left := left - 1;
      }
    }

    /** Fails exactly when the buffer is full and nobody waits; else the oldest waiter is released. */
    method Post() returns (r: Posted)
      requires Valid()
      modifies this
      ensures Valid() && (Value(), r) == PostTo(old(Value()))
      ensures r == HitLimit <==> old(count) == limit && old(waiting) == []
      ensures r.HandedTo? <==> old(waiting) != []
      ensures r.HandedTo? ==> r.receiver == old(waiting)[0] && waiting == old(waiting)[1..]
      ensures posts == old(posts) + if r == HitLimit then 0 else 1
      ensures completed == old(completed) + if r.HandedTo? then 1 else 0
    {
      if waiting != [] {
        r := HandedTo(waiting[0]);
        waiting, posts, completed := waiting[1..], posts + 1, completed + 1;
      } else if count < limit {
        r := Buffered;
        count, posts := count + 1, posts + 1;
      } else {
        r := HitLimit;
      }
    }

    method Wait(t: Tid) returns (through: bool)
      requires Valid()
      modifies this
      ensures Valid() && (Value(), through) == Receive(old(Value()), t)
      ensures through <==> old(count) > 0
      ensures waiting == if through then old(waiting) else old(waiting) + [t]
      ensures posts == old(posts) && completed == old(completed) + if through then 1 else 0
    {
      if count > 0 {
        count, completed, through := count - 1, completed + 1, true;
      } else {
        waiting, through := waiting + [t], false;
      }
    }

    method TryWait() returns (through: bool)
      requires Valid()
      modifies this
      ensures Valid() && (Value(), through) == TryReceive(old(Value()))
      ensures through <==> old(count) > 0
      ensures waiting == old(waiting) && count == old(count) - if through then 1 else 0
      ensures posts == old(posts) && completed == old(completed) + if through then 1 else 0
    {
      if count > 0 {
        count, completed, through := count - 1, completed + 1, true;
      } else {
        through := false;
      }
    }
  }

  // -------------------------------------------------------- clients in pairs

  /** Clients that acquire before they release; a released waiter holds at once. */
  datatype World = World(chan: Chan, holders: set<Tid>)

  datatype Act = Acquire(t: Tid) | TryAcquire(t: Tid) | Release(t: Tid)

  predicate Allowed(w: World, a: Act) {
    match a
    case Acquire(t) => t !in w.holders && t !in w.chan.waiting
    case TryAcquire(t) => t !in w.holders && t !in w.chan.waiting
    case Release(t) => t in w.holders
  }

  function Perform(w: World, a: Act): World {
    match a
    case Acquire(t) =>
      var (c, through) := Receive(w.chan, t);
      World(c, if through then w.holders + {t} else w.holders)
    case TryAcquire(t) =>
      var (c, through) := TryReceive(w.chan);
      World(c, if through then w.holders + {t} else w.holders)
    case Release(t) =>
      var (c, r) := PostTo(w.chan);
      World(c, (w.holders - {t}) + if r.HandedTo? then {r.receiver} else {})
  }

  ghost predicate Balanced(w: World, initial: nat) {
    && Sane(w.chan) && initial <= w.chan.limit
    && |w.holders| + w.chan.count == initial
    && (forall i | 0 <= i < |w.chan.waiting| :: w.chan.waiting[i] !in w.holders)
    && (forall i, j | 0 <= i < j < |w.chan.waiting| :: w.chan.waiting[i] != w.chan.waiting[j])
  }

  lemma AcquireBalances(w: World, a: Act, initial: nat)
    requires Balanced(w, initial) && Allowed(w, a) && !a.Release?
    ensures Balanced(Perform(w, a), initial)
  {
  }

  lemma ReleaseBalances(w: World, t: Tid, initial: nat)
    requires Balanced(w, initial) && t in w.holders
    ensures Balanced(Perform(w, Release(t)), initial) && PostTo(w.chan).1 != HitLimit
  {
    var rest := w.holders - {t};
    assert |rest| == |w.holders| - 1;
    var w' := Perform(w, Release(t));
    if w.chan.waiting != [] {
      assert w.chan.waiting[0] !in rest;
      assert w'.holders == rest + {w.chan.waiting[0]};
    } else {
      assert w'.holders == rest;
    }
  }

  ghost predicate Behaviour(initial: nat, limit: nat, worlds: seq<World>, acts: seq<Act>) {
    && |worlds| == |acts| + 1 && worlds[0] == World(Chan(limit, initial, []), {})
    && forall i {:trigger acts[i]} | 0 <= i < |acts| ::
      Allowed(worlds[i], acts[i]) && worlds[i + 1] == Perform(worlds[i], acts[i])
  }

  lemma {:induction false} BehaviourBalances(initial: nat, limit: nat, worlds: seq<World>, acts: seq<Act>, n: nat)
    requires initial <= limit && Behaviour(initial, limit, worlds, acts) && n <= |acts|
    ensures Balanced(worlds[n], initial)
  {
    if n == 0 {
    } else {
      BehaviourBalances(initial, limit, worlds, acts, n - 1);
      match acts[n - 1]
      case Release(t) => ReleaseBalances(worlds[n - 1], t, initial);
      case _ => AcquireBalances(worlds[n - 1], acts[n - 1], initial);
    }
  }

  /**
   For any number of clients in any order: holders and free tokens add up to the initial count, so no
   more than that hold at once, and no release ever hits the limit.
   */
  lemma HoldersAreLimited(initial: nat, limit: nat, worlds: seq<World>, acts: seq<Act>, n: nat)
    requires initial <= limit && Behaviour(initial, limit, worlds, acts) && n <= |acts|
    ensures |worlds[n].holders| + worlds[n].chan.count == initial
    ensures n < |acts| && acts[n].Release? ==> PostTo(worlds[n].chan).1 != HitLimit
  {
    BehaviourBalances(initial, limit, worlds, acts, n);
    if n < |acts| && acts[n].Release? {
      ReleaseBalances(worlds[n], acts[n].t, initial);
    }
  }
}
